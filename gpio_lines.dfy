/** The two GPIO lines of the transceiver: the reset line (an output whose physical level is the
    inverse of the logical "assert reset") and the busy line (an input). The layer keeps no state
    of its own, so each operation is a function of the results the GPIO driver returns, and it
    reports the status code together with the GPIO driver calls it issued, in order. */
module GpioLines {
  import opened Platform

  datatype Line = ResetLine | BusyLine

  datatype Direction = Input | Output

  /** A call into the GPIO driver. */
  datatype GpioCall =
    | ResetPin(line: Line)
    | SetDirection(line: Line, direction: Direction)
    | SetLevel(line: Line, level: uint32)
    | GetLevel(line: Line)

  datatype Outcome = Outcome(status: uint8, calls: seq<GpioCall>)

  datatype ReadOutcome = ReadOutcome(status: uint8, value: uint8, calls: seq<GpioCall>)

  /** `ret |= next` on two `esp_err_t` values: OK exactly when both are OK. */
  function CombineStatus(first: EspErr, second: EspErr): (combined: EspErr)
    ensures combined == ESP_OK <==> first == ESP_OK && second == ESP_OK
  {
    first | second
  }

  /** `llcc68_interface_reset_gpio_init`: resets the pin, then makes it an output; the second
      call is issued whatever the first returned. */
  function ResetGpioInit(resetPinResult: EspErr, setDirectionResult: EspErr): (o: Outcome)
    ensures o.calls == [ResetPin(ResetLine), SetDirection(ResetLine, Output)]
    ensures o.status <= 1
    ensures o.status == 0 <==> resetPinResult == ESP_OK && setDirectionResult == ESP_OK
  {
    var ret := CombineStatus(resetPinResult, setDirectionResult);
    Outcome(StatusOf(ret), [ResetPin(ResetLine), SetDirection(ResetLine, Output)])
  }

  /** `llcc68_interface_reset_gpio_deinit`: returns the pin to its reset state. */
  function ResetGpioDeinit(resetPinResult: EspErr): (o: Outcome)
    ensures o.calls == [ResetPin(ResetLine)]
    ensures o.status <= 1
    ensures o.status == 0 <==> resetPinResult == ESP_OK
  {
    Outcome(StatusOf(resetPinResult), [ResetPin(ResetLine)])
  }

  /** The physical level that drives the reset line for a logical value `data`. */
  function ResetLevel(data: uint8): (level: uint32)
    ensures level <= 1
    ensures level == 0 <==> data != 0
  {
    if data != 0 then 0 else 1
  }

  /** The logical meaning of a physical reset-line level: reset is asserted when the line is low. */
  predicate ResetAsserted(level: uint32) {
    level == 0
  }

  /** `llcc68_interface_reset_gpio_write`: drives the inverted level, one level-set call. */
  function ResetGpioWrite(data: uint8, setLevelResult: EspErr): (o: Outcome)
    ensures |o.calls| == 1 && o.calls[0].SetLevel? && o.calls[0].line == ResetLine
    ensures o.calls[0].level <= 1
    ensures o.calls[0].level == 0 <==> data != 0
    ensures o.status <= 1
    ensures o.status == 0 <==> setLevelResult == ESP_OK
  {
    Outcome(StatusOf(setLevelResult), [SetLevel(ResetLine, ResetLevel(data))])
  }

  /** The level written decides reset on the line itself: a non-zero `data` drives the line low,
      which asserts reset, and zero drives it high, which releases it. */
  lemma ResetWriteAssertsOnNonZero(data: uint8, setLevelResult: EspErr)
    ensures ResetAsserted(ResetGpioWrite(data, setLevelResult).calls[0].level) <==> data != 0
  {
  }

  /** `llcc68_interface_busy_gpio_init`: resets the pin, then makes it an input; both calls are
      always issued. */
  function BusyGpioInit(resetPinResult: EspErr, setDirectionResult: EspErr): (o: Outcome)
    ensures o.calls == [ResetPin(BusyLine), SetDirection(BusyLine, Input)]
    ensures o.status <= 1
    ensures o.status == 0 <==> resetPinResult == ESP_OK && setDirectionResult == ESP_OK
  {
    var ret := CombineStatus(resetPinResult, setDirectionResult);
    Outcome(StatusOf(ret), [ResetPin(BusyLine), SetDirection(BusyLine, Input)])
  }

  /** `llcc68_interface_busy_gpio_deinit`: returns the pin to its reset state. */
  function BusyGpioDeinit(resetPinResult: EspErr): (o: Outcome)
    ensures o.calls == [ResetPin(BusyLine)]
    ensures o.status <= 1
    ensures o.status == 0 <==> resetPinResult == ESP_OK
  {
    Outcome(StatusOf(resetPinResult), [ResetPin(BusyLine)])
  }

  /** The C conversion `(uint8_t)readval`: the value modulo 256. */
  function ToUint8(x: int32): (b: uint8)
    ensures (b as int - x as int) % 0x100 == 0
  {
    (x as int % 0x100) as uint8
  }

  /** `llcc68_interface_busy_gpio_read`: samples the level once and always reports success. */
  function BusyGpioRead(sampled: int32): (o: ReadOutcome)
    ensures o.status == 0
    ensures o.calls == [GetLevel(BusyLine)]
    ensures (o.value as int - sampled as int) % 0x100 == 0
    ensures 0 <= sampled < 0x100 ==> o.value as int == sampled as int
  {
    ReadOutcome(0, ToUint8(sampled), [GetLevel(BusyLine)])
  }
}
