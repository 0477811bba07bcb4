# LLCC68 LoRa driver — ESP32 interface layer, modelled in Dafny

This project models the ESP-IDF binding of the LLCC68 transceiver driver
(`interface/driver_llcc68_interface_esp32.c`). That file is the layer between the
register-level driver and the ESP32's SPI master and GPIO drivers. The model covers:

- **SPI transport** (module `SpiTransport`). The global `spi_lora_dev_handle` is either
  NULL or present. `llcc68_interface_spi_init` sets it and `llcc68_interface_spi_deinit`
  clears it. `llcc68_interface_spi_write_read` builds one `spi_transaction_t` and issues it.
  - The pure functions `InitStep`, `DeinitStep` and `WriteReadStep` give each call's effect:
    the new handle state, the 0/1 status, and the exact ESP-IDF calls issued with their results.
  - The class `Transport` holds the handle as a `bool` field and keeps a ghost log of every
    issued call. Its methods follow the C code step by step and are proved against those
    functions.
  - The invariant `Consistent` holds whatever the platform returns. It says that the handle is
    present exactly when the last successful device add or remove in the log was an add. It also
    says that every transmit in the log was issued while that held.
- **GPIO lines** (module `GpioLines`). The reset and busy lines are covered: init (two calls
  combined with `|=`, both always issued), deinit, the inverted reset level, and the busy read
  that always succeeds. These functions return the status and the list of GPIO driver calls.
- **IRQ dispatch** (module `IrqDispatch`). `llcc68_interface_receive_callback` maps a 16-bit
  code to one of ten fixed lines, or to the "unknown code" line for any other code. The payload
  is ignored.
- **Diagnostics** (module `Diagnostics`). `llcc68_interface_debug_print` renders its text into a
  128-byte buffer. The text is modelled as bytes (`seq<uint8>`) and read as a C string, so it ends
  at its first NUL. At most 127 bytes reach the log. The cut counts bytes, so it can fall inside
  a multi-byte UTF-8 character. The callback's fixed lines are ASCII, and `Encode` turns each one
  into its bytes.

Every ESP-IDF call is an oracle: the `esp_err_t` it returns is a parameter of the operation
that issues it. A result for a call the operation does not reach is ignored. `esp_err_t` is
modelled as `bv32`, so `|=` is bitwise OR on the 32-bit pattern. `ESP_OK` is 0.

Facts about the code that the model keeps:
- Teardown is not best-effort. `spi_deinit` returns 1 as soon as device removal fails and never
  frees the bus. It does not continue to the second release step.
- `spi_deinit` on a transport that was never opened skips removal but still calls `spi_bus_free`.
  The status is whatever that call returns.
- `spi_init` leaves the bus initialised when adding the device fails.
- The transaction starts from `{0}`. So `rxlength` stays 0, which the SPI master driver reads as
  "receive `length` bits". The model's `Descriptor` carries that field.
- In the C names, `in_buf`/`in_len` is the host-to-device side: it feeds `tx_buffer`.
  `out_buf`/`out_len` feeds `rx_buffer`.

## Model

| member | source | states |
|---|---|---|
| `Platform.StatusOf` | interface/driver_llcc68_interface_esp32.c:159-164 | the 0/1 status every interface function returns: at most 1, and 0 iff the platform result is `ESP_OK` (the same tail closes init, deinit, reset write and both GPIO init/deinit pairs) |
| `SpiTransport.Max` | interface/driver_llcc68_interface_esp32.c:153 | the chosen byte count is at least each length and equals one of them |
| `SpiTransport.BitLength` | interface/driver_llcc68_interface_esp32.c:154 | `bytes * 8` in `uint32_t`: a multiple of 8, equal to 8·bytes modulo 2^32, and exactly 8·bytes below 2^29 bytes |
| `SpiTransport.BuildTransaction` | interface/driver_llcc68_interface_esp32.c:146-157 | no descriptor iff both lengths are 0; otherwise flags 0, `rxlength` 0 and a bit length of 8·max(in_len, out_len) mod 2^32, which covers both lengths when there is no wrap; `tx_buffer` is `in_buf` when `in_len > 0` and NULL otherwise; `rx_buffer` is `out_buf` when `out_len > 0` and NULL otherwise |
| `SpiTransport.InitStep` | interface/driver_llcc68_interface_esp32.c:65-88 | status 0 iff bus init and device add both succeed; a failed bus init issues only that call, so no add is attempted; a failed add leaves the bus initialised with no free issued; the handle is set on success and unchanged otherwise |
| `SpiTransport.DeinitStep` | interface/driver_llcc68_interface_esp32.c:100-121 | remove is issued only when the handle is present; the handle clears only after a successful remove; a failed remove returns 1 and issues no bus free; otherwise the status is 0 iff the bus free succeeds; remove comes before free |
| `SpiTransport.WriteReadStep` | interface/driver_llcc68_interface_esp32.c:135-166 | without a handle: status 1 and no transmit, even for zero lengths; with a handle and zero/zero: status 0 and no transmit; otherwise exactly one transmit of `BuildTransaction`'s descriptor, with status 0 iff it returned `ESP_OK`; the handle is unchanged |
| `SpiTransport.ApplyConsistent` | interface/driver_llcc68_interface_esp32.c:39-166 | each of init, deinit and write_read keeps `Consistent` for any platform results: the handle is present iff the last successful device add or remove was an add, and transmits happen only while that holds |
| `SpiTransport.RunConsistent` | interface/driver_llcc68_interface_esp32.c:39-166 | any sequence of calls keeps `Consistent` |
| `SpiTransport.FreshRunConsistent` | interface/driver_llcc68_interface_esp32.c:39-166 | starting from the NULL handle with nothing issued, every run satisfies `Consistent`, so no transaction is ever issued without a device |
| `SpiTransport.FailedOpenRejectsExchange` | interface/driver_llcc68_interface_esp32.c:80-144 | when the device add fails on a fresh transport, init returns 1 and the next write_read returns 1 without any bus activity |
| `SpiTransport.OpenExchangeClose` | interface/driver_llcc68_interface_esp32.c:48-121 | open, then exchange with `in_len` 2 and `out_len` 1, then close: one 16-bit transaction with both buffers and `rxlength` 0, then device removal before bus free, with all statuses 0 |
| `SpiTransport.BitLengthWraps` | interface/driver_llcc68_interface_esp32.c:153-154 | a 2^29-byte transfer yields a descriptor whose bit length has wrapped to 0 |
| `SpiTransport.Transport.constructor` | interface/driver_llcc68_interface_esp32.c:39 | the handle starts NULL with an empty log, and the invariant holds |
| `SpiTransport.Transport.Init` | interface/driver_llcc68_interface_esp32.c:48-89 | the new handle, the status and the appended log are those of `InitStep`; the invariant is kept |
| `SpiTransport.Transport.Deinit` | interface/driver_llcc68_interface_esp32.c:98-122 | the new handle, the status and the appended log are those of `DeinitStep`; the invariant is kept |
| `SpiTransport.Transport.WriteRead` | interface/driver_llcc68_interface_esp32.c:135-166 | builds the descriptor field by field from a zeroed one; the status and the appended log are those of `WriteReadStep`; the invariant is kept |
| `GpioLines.CombineStatus` | interface/driver_llcc68_interface_esp32.c:177-178 | the bitwise OR of the two results is `ESP_OK` iff both results are `ESP_OK` |
| `GpioLines.ResetGpioInit` | interface/driver_llcc68_interface_esp32.c:175-187 | always issues reset-pin, then set-direction to output; status 0 iff both succeed |
| `GpioLines.ResetGpioDeinit` | interface/driver_llcc68_interface_esp32.c:196-206 | issues one reset-pin; status 0 iff it succeeds |
| `GpioLines.ResetLevel` | interface/driver_llcc68_interface_esp32.c:218 | the physical level is 0 or 1, and it is 0 iff `data != 0` |
| `GpioLines.ResetGpioWrite` | interface/driver_llcc68_interface_esp32.c:216-227 | issues exactly one set-level on the reset line, with level 0 when `data != 0` and 1 when `data == 0`; status 1 iff the set-level fails |
| `GpioLines.ResetWriteAssertsOnNonZero` | interface/driver_llcc68_interface_esp32.c:218-219 | a non-zero `data` drives the line low, which asserts reset; zero drives it high, which releases it |
| `GpioLines.BusyGpioInit` | interface/driver_llcc68_interface_esp32.c:236-247 | always issues reset-pin, then set-direction to input; status 0 iff both succeed |
| `GpioLines.BusyGpioDeinit` | interface/driver_llcc68_interface_esp32.c:256-266 | issues one reset-pin; status 0 iff it succeeds |
| `GpioLines.ToUint8` | interface/driver_llcc68_interface_esp32.c:279 | `(uint8_t)` keeps the value modulo 256 |
| `GpioLines.BusyGpioRead` | interface/driver_llcc68_interface_esp32.c:276-281 | always returns 0 after one get-level call; the stored byte is the sampled level modulo 256, and equals it for 0..255 |
| `Diagnostics.CString` | interface/driver_llcc68_interface_esp32.c:304-307 | the bytes `%s` prints: the longest NUL-free prefix, ending just before the first NUL, or the whole text when there is none |
| `Diagnostics.DebugPrint` | interface/driver_llcc68_interface_esp32.c:298-308 | the logged bytes are a NUL-free prefix of the formatted bytes and shorter than the 128-byte buffer; the log ends at the first NUL or after 127 bytes, whichever comes first; for NUL-free text it is the whole text when that has under 128 bytes, and exactly its first 127 bytes otherwise |
| `Diagnostics.TruncatesInsideCharacter` | interface/driver_llcc68_interface_esp32.c:303-304 | 127 two-byte UTF-8 characters (254 bytes) log 127 bytes, the last of them a stray lead byte: the cut counts bytes, not characters |
| `Diagnostics.DebugPrintIdempotent` | interface/driver_llcc68_interface_esp32.c:303-304 | truncating an already truncated text changes nothing |
| `Diagnostics.Encode` | interface/driver_llcc68_interface_esp32.c:322-388 | an ASCII text is stored as one non-NUL byte per character, byte i being the code of character i, as a C string literal holds it |
| `Diagnostics.EncodeInjective` | interface/driver_llcc68_interface_esp32.c:322-388 | distinct ASCII texts have distinct bytes |
| `IrqDispatch.Classify` | interface/driver_llcc68_interface_esp32.c:320-389 | the selected case carries the code, and it is the default case iff the code is none of the ten IRQ constants |
| `IrqDispatch.ClassifyCodeOf` | interface/driver_llcc68_interface_esp32.c:320-382 | each of the ten events is selected by its own constant |
| `IrqDispatch.Message` | interface/driver_llcc68_interface_esp32.c:322-388 | the literal each case of the switch prints: a non-empty line shorter than the 128-byte buffer, and the unknown-code line exactly for the default case |
| `IrqDispatch.CompletionMessageIsAscii` | interface/driver_llcc68_interface_esp32.c:322-388 | the tx-done, rx-done, cad-done and timeout lines are ASCII text |
| `IrqDispatch.DetectionMessageIsAscii` | interface/driver_llcc68_interface_esp32.c:322-388 | the preamble, sync-word, valid-header and cad-detected lines are ASCII text |
| `IrqDispatch.ErrorMessageIsAscii` | interface/driver_llcc68_interface_esp32.c:322-388 | the header-error, crc-error and unknown-code lines are ASCII text |
| `IrqDispatch.MessageIsAscii` | interface/driver_llcc68_interface_esp32.c:322-388 | every one of the eleven lines is ASCII text |
| `IrqDispatch.MessageIsShortAscii` | interface/driver_llcc68_interface_esp32.c:303-388 | every line is ASCII text of fewer than 128 characters |
| `IrqDispatch.MessageFits` | interface/driver_llcc68_interface_esp32.c:303-385 | the bytes of every fixed line fit the debug buffer, so they are logged untruncated |
| `IrqDispatch.MessageInjective` | interface/driver_llcc68_interface_esp32.c:322-388 | distinct cases log distinct lines; only the default case logs "llcc68: unknown code.\n" |
| `IrqDispatch.KnownLineIsNotUnknown` | interface/driver_llcc68_interface_esp32.c:322-388 | the bytes a recognised event logs are never the bytes of the unknown-code line |
| `IrqDispatch.ReceiveCallback` | interface/driver_llcc68_interface_esp32.c:317-390 | each call emits exactly one line of bytes; an unrecognised code emits the bytes of "llcc68: unknown code.\n"; a recognised code emits the bytes of its own line, which are never the unknown one's |
| `IrqDispatch.ReceiveCallbackIgnoresPayload` | interface/driver_llcc68_interface_esp32.c:317-320 | the emitted line does not depend on `buf` or `len` |

## Left out

- The ESP-IDF calls themselves (`spi_bus_initialize`, `spi_bus_add_device`, `spi_bus_remove_device`, `spi_bus_free`, `spi_device_transmit`, `gpio_*`). They are foreign code: only their `esp_err_t` results enter the model, as parameters.
- The bytes moved by a transaction and the contents of the receive buffer. These belong to the platform driver; the model records only the issued descriptor, with buffers as abstract pointers.
- `SpiTransport.InitStep`: assumes `spi_bus_add_device` writes the out-handle only when it succeeds, so a failed add keeps the old handle. This is how ESP-IDF behaves, but its source is not part of this model.
- Pin numbers, bus host, DMA channel, clock speed, SPI mode and queue size. These are configuration constants with no decision logic.
- `llcc68_interface_delay_ms`: a single scheduler call (`vTaskDelay`) with no logic.
- `Diagnostics.DebugPrint`: takes the already formatted bytes. The `vsnprintf`/`va_list` formatting and the log channel are foreign. The text is used as the format, so a `%` in it would be reformatted; the callback's lines contain no `%`, so for them formatting is the identity.
- A second successful `spi_init` overwrites the global handle and leaks the device added before. A `bool` handle cannot represent that leaked device; the model's invariant only says the handle is present iff the last successful add or remove was an add.
- `ESP_LOGE` error logging. It never affects a return code.
- The `LLCC68_IRQ_*` constants come from a header that is not part of this model. The model gives them the LLCC68 IRQ register bit positions (TxDone bit 0 through Timeout bit 9). The proofs depend only on the ten values being distinct 16-bit codes.
- Concurrency between the IRQ callback and the transport calls. The model is sequential.
- `gpio_get_level` failure. The platform call always returns a level, and the layer reports success unconditionally, as modelled.
