/** The interrupt-event dispatcher `llcc68_interface_receive_callback`: a total map from the
    16-bit event code to exactly one fixed diagnostic line. The payload is accepted and ignored. */
module IrqDispatch {
  import opened Platform
  import Diagnostics

  /** The event codes the dispatcher recognises: the bits of the LLCC68 IRQ register
      (TxDone is bit 0, ..., Timeout is bit 9). The proofs below use only that they differ. */
  const IRQ_TX_DONE: uint16 := 0x0001
  const IRQ_RX_DONE: uint16 := 0x0002
  const IRQ_PREAMBLE_DETECTED: uint16 := 0x0004
  const IRQ_SYNC_WORD_VALID: uint16 := 0x0008
  const IRQ_HEADER_VALID: uint16 := 0x0010
  const IRQ_HEADER_ERR: uint16 := 0x0020
  const IRQ_CRC_ERR: uint16 := 0x0040
  const IRQ_CAD_DONE: uint16 := 0x0080
  const IRQ_CAD_DETECTED: uint16 := 0x0100
  const IRQ_TIMEOUT: uint16 := 0x0200

  const KNOWN_CODES: set<uint16> :=
    { IRQ_TX_DONE, IRQ_RX_DONE, IRQ_PREAMBLE_DETECTED, IRQ_SYNC_WORD_VALID, IRQ_HEADER_VALID,
      IRQ_HEADER_ERR, IRQ_CRC_ERR, IRQ_CAD_DONE, IRQ_CAD_DETECTED, IRQ_TIMEOUT }

  datatype IrqEvent =
    | TxDone | RxDone | PreambleDetected | SyncWordValid | HeaderValid
    | HeaderErr | CrcErr | CadDone | CadDetected | Timeout
    | Unknown(code: uint16)

  /** The code that stands for an event. */
  function CodeOf(e: IrqEvent): uint16 {
    match e
    case TxDone => IRQ_TX_DONE
    case RxDone => IRQ_RX_DONE
    case PreambleDetected => IRQ_PREAMBLE_DETECTED
    case SyncWordValid => IRQ_SYNC_WORD_VALID
    case HeaderValid => IRQ_HEADER_VALID
    case HeaderErr => IRQ_HEADER_ERR
    case CrcErr => IRQ_CRC_ERR
    case CadDone => IRQ_CAD_DONE
    case CadDetected => IRQ_CAD_DETECTED
    case Timeout => IRQ_TIMEOUT
    case Unknown(code) => code
  }

  /** The case of the switch a code selects. */
  function Classify(code: uint16): (e: IrqEvent)
    ensures CodeOf(e) == code
    ensures e.Unknown? <==> code !in KNOWN_CODES
  {
    if code == IRQ_TX_DONE then TxDone
    else if code == IRQ_RX_DONE then RxDone
    else if code == IRQ_PREAMBLE_DETECTED then PreambleDetected
    else if code == IRQ_SYNC_WORD_VALID then SyncWordValid
    else if code == IRQ_HEADER_VALID then HeaderValid
    else if code == IRQ_HEADER_ERR then HeaderErr
    else if code == IRQ_CRC_ERR then CrcErr
    else if code == IRQ_CAD_DONE then CadDone
    else if code == IRQ_CAD_DETECTED then CadDetected
    else if code == IRQ_TIMEOUT then Timeout
    else Unknown(code)
  }

  /** Every recognised event is recovered from its code. */
  lemma ClassifyCodeOf(e: IrqEvent)
    requires !e.Unknown?
    ensures Classify(CodeOf(e)) == e
  {
  }

  const UNKNOWN_MESSAGE: string := "llcc68: unknown code.\n"

  /** The fixed diagnostic line of each case: a non-empty line that fits the diagnostic buffer,
      and the "unknown" line exactly for the default case. */
  function Message(e: IrqEvent): (m: string)
    ensures 0 < |m| < Diagnostics.DEBUG_BUFFER_SIZE
    ensures m == UNKNOWN_MESSAGE <==> e.Unknown?
  {
    match e
    case TxDone => "llcc68: irq tx done.\n"
    case RxDone => "llcc68: irq rx done.\n"
    case PreambleDetected => "llcc68: irq preamble detected.\n"
    case SyncWordValid => "llcc68: irq valid sync word detected.\n"
    case HeaderValid => "llcc68: irq valid header.\n"
    case HeaderErr => "llcc68: irq header error.\n"
    case CrcErr => "llcc68: irq crc error.\n"
    case CadDone => "llcc68: irq cad done.\n"
    case CadDetected => "llcc68: irq cad detected.\n"
    case Timeout => "llcc68: irq timeout.\n"
    case Unknown(_) => UNKNOWN_MESSAGE
  }

  /** The lines of the completion events are ASCII text. */
  lemma CompletionMessageIsAscii(e: IrqEvent)
    requires e.TxDone? || e.RxDone? || e.CadDone? || e.Timeout?
    ensures Diagnostics.IsAsciiText(Message(e))
  {
  }

  /** The lines of the detection events are ASCII text. */
  lemma DetectionMessageIsAscii(e: IrqEvent)
    requires e.PreambleDetected? || e.SyncWordValid? || e.HeaderValid? || e.CadDetected?
    ensures Diagnostics.IsAsciiText(Message(e))
  {
  }

  /** The lines of the error events and of the default case are ASCII text. */
  lemma ErrorMessageIsAscii(e: IrqEvent)
    requires e.HeaderErr? || e.CrcErr? || e.Unknown?
    ensures Diagnostics.IsAsciiText(Message(e))
  {
  }

  /** Every line is ASCII text: one byte per character, none of them NUL. */
  lemma MessageIsAscii(e: IrqEvent)
    ensures Diagnostics.IsAsciiText(Message(e))
  {
    if e.TxDone? || e.RxDone? || e.CadDone? || e.Timeout? {
      CompletionMessageIsAscii(e);
    } else if e.PreambleDetected? || e.SyncWordValid? || e.HeaderValid? || e.CadDetected? {
      DetectionMessageIsAscii(e);
    } else {
      ErrorMessageIsAscii(e);
    }
  }

  /** Every line is ASCII text short enough for the diagnostic buffer. */
  lemma MessageIsShortAscii(e: IrqEvent)
    ensures Diagnostics.IsAsciiText(Message(e))
    ensures |Message(e)| < Diagnostics.DEBUG_BUFFER_SIZE
  {
    MessageIsAscii(e);
  }

  /** Every line reaches the log untruncated. */
  lemma MessageFits(e: IrqEvent)
    ensures Diagnostics.IsAsciiText(Message(e))
    ensures Diagnostics.DebugPrint(Diagnostics.Encode(Message(e))) == Diagnostics.Encode(Message(e))
  {
    MessageIsShortAscii(e);
  }

  /** Distinct cases give distinct lines, so the log identifies the event; in particular only an
      unrecognised code produces the "unknown" line. */
  lemma MessageInjective(e1: IrqEvent, e2: IrqEvent)
    ensures Message(e1) == Message(e2) ==> (e1.Unknown? <==> e2.Unknown?)
    ensures Message(e1) == Message(e2) && !e1.Unknown? ==> e1 == e2
  {
  }

  /** A recognised event never logs the bytes of the "unknown" line. */
  lemma KnownLineIsNotUnknown(e: IrqEvent)
    requires !e.Unknown?
    ensures Diagnostics.IsAsciiText(Message(e)) && Diagnostics.IsAsciiText(UNKNOWN_MESSAGE)
    ensures Diagnostics.Encode(Message(e)) != Diagnostics.Encode(UNKNOWN_MESSAGE)
  {
    MessageIsShortAscii(e);
    MessageIsShortAscii(Unknown(0));
    MessageInjective(e, Unknown(0));
    Diagnostics.EncodeInjective(Message(e), UNKNOWN_MESSAGE);
  }

  /** One call of the callback: the lines it emits, given the event code, the payload pointer and
      the payload length. */
  function ReceiveCallback(code: uint16, buf: Ptr, len: uint16): (emitted: seq<seq<uint8>>)
    ensures |emitted| == 1
    ensures Diagnostics.IsAsciiText(UNKNOWN_MESSAGE) && Diagnostics.IsAsciiText(Message(Classify(code)))
    ensures code !in KNOWN_CODES ==> emitted == [Diagnostics.Encode(UNKNOWN_MESSAGE)]
    ensures code in KNOWN_CODES ==> emitted[0] != Diagnostics.Encode(UNKNOWN_MESSAGE)
    ensures emitted == [Diagnostics.Encode(Message(Classify(code)))]
  {
    var e := Classify(code);
    MessageFits(e);
    MessageIsShortAscii(Unknown(code));
    var line := Diagnostics.Encode(Message(e));
    assert !e.Unknown? ==> line != Diagnostics.Encode(UNKNOWN_MESSAGE) by {
      if !e.Unknown? {
        KnownLineIsNotUnknown(e);
      }
    }
    [Diagnostics.DebugPrint(line)]
  }

  /** The emitted line depends on the event code alone. */
  lemma ReceiveCallbackIgnoresPayload(code: uint16, buf1: Ptr, len1: uint16, buf2: Ptr, len2: uint16)
    ensures ReceiveCallback(code, buf1, len1) == ReceiveCallback(code, buf2, len2)
  {
  }
}
