/** The diagnostic sink `llcc68_interface_debug_print`. The text is a C string of bytes: it ends
    at its first NUL, and it is rendered into a 128-byte buffer, so at most 127 bytes (plus the
    terminating NUL) reach the log. Truncation counts bytes, so it may split a multi-byte
    character. */
module Diagnostics {
  import opened Platform

  /** Size of the local buffer handed to the formatter. */
  const DEBUG_BUFFER_SIZE: nat := 128

  /** The bytes a C string holds: everything before the first NUL. */
  function CString(text: seq<uint8>): (c: seq<uint8>)
    ensures c <= text
    ensures 0 !in c
    ensures |c| < |text| ==> text[|c|] == 0
    ensures 0 !in text ==> c == text
  {
    if text == [] || text[0] == 0 then []
    else [text[0]] + CString(text[1..])
  }

  /** The bytes that reach the log for an already formatted text. */
  function DebugPrint(formatted: seq<uint8>): (shown: seq<uint8>)
    ensures |shown| < DEBUG_BUFFER_SIZE
    ensures shown <= formatted
    ensures 0 !in shown
    ensures |shown| < |formatted| ==> formatted[|shown|] == 0 || |shown| == DEBUG_BUFFER_SIZE - 1
    ensures 0 !in formatted && |formatted| < DEBUG_BUFFER_SIZE ==> shown == formatted
    ensures 0 !in formatted && |formatted| >= DEBUG_BUFFER_SIZE ==> |shown| == DEBUG_BUFFER_SIZE - 1
  {
    var c := CString(formatted);
    if |c| < DEBUG_BUFFER_SIZE then c else c[..DEBUG_BUFFER_SIZE - 1]
  }

  /** 127 characters of two-byte UTF-8 text are cut by bytes: 63 whole characters and a stray
      lead byte reach the log. */
  lemma TruncatesInsideCharacter(text: seq<uint8>)
    requires |text| == 254
    requires forall i :: 0 <= i < |text| ==> text[i] == if i % 2 == 0 then 0xC3 else 0xA9
    ensures |DebugPrint(text)| == 127
    ensures DebugPrint(text)[126] == 0xC3
  {
    assert 0 !in text;
  }

  /** Truncating an already truncated text changes nothing. */
  lemma DebugPrintIdempotent(formatted: seq<uint8>)
    ensures DebugPrint(DebugPrint(formatted)) == DebugPrint(formatted)
  {
  }

  /** Text made of ASCII characters other than NUL: one byte per character. */
  predicate IsAsciiText(s: string) {
    forall i :: 0 <= i < |s| ==> '\U{1}' <= s[i] <= '\U{7F}'
  }

  /** The bytes of an ASCII text, as a C string literal stores them. */
  function Encode(s: string): (b: seq<uint8>)
    requires IsAsciiText(s)
    ensures |b| == |s|
    ensures forall i :: 0 <= i < |s| ==> b[i] as int == s[i] as int
    ensures 0 !in b
  {
    seq(|s|, i requires 0 <= i < |s| => s[i] as int as uint8)
  }

  /** Distinct ASCII texts have distinct bytes. */
  lemma EncodeInjective(s: string, t: string)
    requires IsAsciiText(s) && IsAsciiText(t)
    ensures Encode(s) == Encode(t) ==> s == t
  {
    if Encode(s) == Encode(t) {
      assert |s| == |t|;
      forall i | 0 <= i < |s| ensures s[i] == t[i] {
        assert Encode(s)[i] == Encode(t)[i];
      }
    }
  }
}
