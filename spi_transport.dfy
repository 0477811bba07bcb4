/** The SPI transport: the global device handle `spi_lora_dev_handle`, brought up by
    `llcc68_interface_spi_init`, released by `llcc68_interface_spi_deinit`, and used by
    `llcc68_interface_spi_write_read` for one half-duplex transaction.

    The pure functions InitStep, DeinitStep and WriteReadStep give the effect of each call on the
    handle, its status code and the ESP-IDF SPI calls it issues; the class Transport performs the
    same calls on its `handle` field and records every issued call, with its result, in a ghost
    log. Its invariant: the handle is present exactly when the log's last successful
    add/remove was an add, and every transmit in the log was issued while that held. */
module SpiTransport {
  import opened Platform

  /** `spi_transaction_t` restricted to the fields the layer sets, plus `rxlength`, which the
      layer leaves at the 0 of `{0}`; the SPI master driver reads a zero `rxlength` as "receive
      `length` bits". `{0}` is ZERO_TRANSACTION. */
  datatype Descriptor = Descriptor(flags: uint32, length: uint32, rxLength: uint32, txBuffer: Ptr, rxBuffer: Ptr)

  const ZERO_TRANSACTION: Descriptor := Descriptor(0, 0, 0, Null, Null)

  /** A call into the ESP-IDF SPI master driver. */
  datatype SpiCall =
    | BusInitialize
    | BusAddDevice
    | BusRemoveDevice
    | BusFree
    | DeviceTransmit(transaction: Descriptor)

  /** A call together with the result the driver returned. */
  datatype Issued = Issued(call: SpiCall, result: EspErr)

  /** The effect of one interface call: the new handle state, the returned status code and the
      driver calls issued, in order. */
  datatype Effect = Effect(handle: bool, status: uint8, issued: seq<Issued>)

  function Max(a: uint32, b: uint32): (m: uint32)
    ensures m >= a && m >= b
    ensures m == a || m == b
  {
    if a > b then a else b
  }

  /** `bytes * 8` evaluated in `uint32_t`. */
  function BitLength(bytes: uint32): (bits: uint32)
    ensures bits as int % 8 == 0
    ensures bits as int == (8 * bytes as int) % UINT32_MODULUS
    ensures bytes < 0x2000_0000 ==> bits as int == 8 * bytes as int
  {
    ((bytes as int * 8) % UINT32_MODULUS) as uint32
  }

  /** The transaction `write_read` issues for the given buffers and lengths, or None for the
      zero/zero exchange that issues nothing. `inBuf` is the host-to-device side. */
  function BuildTransaction(inBuf: Ptr, inLen: uint32, outBuf: Ptr, outLen: uint32): (t: Option<Descriptor>)
    ensures t.None? <==> inLen == 0 && outLen == 0
    ensures t.Some? ==> t.value.flags == 0 && t.value.rxLength == 0
    ensures t.Some? && inLen < 0x2000_0000 && outLen < 0x2000_0000 ==>
              t.value.length as int >= 8 * inLen as int && t.value.length as int >= 8 * outLen as int &&
              (t.value.length as int == 8 * inLen as int || t.value.length as int == 8 * outLen as int)
    ensures t.Some? ==> t.value.length as int == (8 * Max(inLen, outLen) as int) % UINT32_MODULUS
    ensures t.Some? ==> (t.value.txBuffer != Null ==> inLen > 0) && (inLen > 0 ==> t.value.txBuffer == inBuf)
    ensures t.Some? ==> (t.value.rxBuffer != Null ==> outLen > 0) && (outLen > 0 ==> t.value.rxBuffer == outBuf)
  {
    if inLen == 0 && outLen == 0 then None
    else
      Some(Descriptor(
        flags := 0,
        length := BitLength(Max(inLen, outLen)),
        rxLength := 0,
        txBuffer := if inLen > 0 then inBuf else Null,
        rxBuffer := if outLen > 0 then outBuf else Null))
  }

  /** `llcc68_interface_spi_init`: bring the bus up, then add the device. A failure at either
      step returns 1; a failed add leaves the bus initialised. The driver writes the handle only
      when the add succeeds, so a failure keeps the handle as it was. */
  function InitStep(handle: bool, busResult: EspErr, addResult: EspErr): (e: Effect)
    ensures e.status <= 1
    ensures e.status == 0 <==> busResult == ESP_OK && addResult == ESP_OK
    ensures busResult != ESP_OK ==> e.issued == [Issued(BusInitialize, busResult)]
    ensures busResult == ESP_OK ==>
              e.issued == [Issued(BusInitialize, busResult), Issued(BusAddDevice, addResult)]
    ensures e.handle <==> e.status == 0 || handle
  {
    if busResult != ESP_OK then
      Effect(handle, 1, [Issued(BusInitialize, busResult)])
    else if addResult != ESP_OK then
      Effect(handle, 1, [Issued(BusInitialize, busResult), Issued(BusAddDevice, addResult)])
    else
      Effect(true, 0, [Issued(BusInitialize, busResult), Issued(BusAddDevice, addResult)])
  }

  /** `llcc68_interface_spi_deinit`: remove the device if there is one (a failure returns 1 at
      once, keeping the handle and skipping the bus free), then free the bus. */
  function DeinitStep(handle: bool, removeResult: EspErr, freeResult: EspErr): (e: Effect)
    ensures e.status <= 1
    ensures e.status == 0 <==> (!handle || removeResult == ESP_OK) && freeResult == ESP_OK
    ensures e.handle <==> handle && removeResult != ESP_OK
    ensures !handle ==> e.issued == [Issued(BusFree, freeResult)]
    ensures handle && removeResult != ESP_OK ==> e.issued == [Issued(BusRemoveDevice, removeResult)]
    ensures handle && removeResult == ESP_OK ==>
              e.issued == [Issued(BusRemoveDevice, removeResult), Issued(BusFree, freeResult)]
  {
    if handle && removeResult != ESP_OK then
      Effect(true, 1, [Issued(BusRemoveDevice, removeResult)])
    else
      var removal := if handle then [Issued(BusRemoveDevice, removeResult)] else [];
      Effect(false, StatusOf(freeResult), removal + [Issued(BusFree, freeResult)])
  }

  /** `llcc68_interface_spi_write_read`: rejected without a handle; a no-op for two zero lengths;
      otherwise exactly one transmit whose result decides the status. */
  function WriteReadStep(handle: bool, inBuf: Ptr, inLen: uint32, outBuf: Ptr, outLen: uint32,
                         transmitResult: EspErr): (e: Effect)
    ensures e.handle == handle
    ensures e.status <= 1
    ensures !handle ==> e.status == 1 && e.issued == []
    ensures handle && inLen == 0 && outLen == 0 ==> e.status == 0 && e.issued == []
    ensures handle && (inLen != 0 || outLen != 0) ==>
              BuildTransaction(inBuf, inLen, outBuf, outLen).Some? &&
              e.issued == [Issued(DeviceTransmit(BuildTransaction(inBuf, inLen, outBuf, outLen).value),
                                  transmitResult)] &&
              (e.status == 0 <==> transmitResult == ESP_OK)
  {
    if !handle then Effect(handle, 1, [])
    else match BuildTransaction(inBuf, inLen, outBuf, outLen)
      case None => Effect(handle, 0, [])
      case Some(t) => Effect(handle, StatusOf(transmitResult), [Issued(DeviceTransmit(t), transmitResult)])
  }

  /** One interface call with the results the driver returns to it. */
  datatype Request =
    | Init(busResult: EspErr, addResult: EspErr)
    | Deinit(removeResult: EspErr, freeResult: EspErr)
    | WriteRead(inBuf: Ptr, inLen: uint32, outBuf: Ptr, outLen: uint32, transmitResult: EspErr)

  function Apply(handle: bool, r: Request): Effect {
    match r
    case Init(b, a) => InitStep(handle, b, a)
    case Deinit(rm, f) => DeinitStep(handle, rm, f)
    case WriteRead(ib, il, ob, ol, t) => WriteReadStep(handle, ib, il, ob, ol, t)
  }

  /** The handle state and the log after a sequence of calls. */
  function Run(handle: bool, log: seq<Issued>, requests: seq<Request>): (bool, seq<Issued>)
    decreases |requests|
  {
    if requests == [] then (handle, log)
    else
      var e := Apply(handle, requests[0]);
      Run(e.handle, log + e.issued, requests[1..])
  }

  /** Whether the last successful device add or remove in `log` was an add. */
  function Claimed(log: seq<Issued>): bool
    decreases |log|
  {
    if log == [] then false
    else
      var last := log[|log| - 1];
      if last.result == ESP_OK && last.call.BusAddDevice? then true
      else if last.result == ESP_OK && last.call.BusRemoveDevice? then false
      else Claimed(log[..|log| - 1])
  }

  /** Every transmit in `log` was issued while Claimed held of the calls before it. */
  predicate TransmitsWhileClaimed(log: seq<Issued>) {
    forall i :: 0 <= i < |log| && log[i].call.DeviceTransmit? ==> Claimed(log[..i])
  }

  /** The transport invariant, over the handle and the full log of issued calls. */
  predicate Consistent(handle: bool, log: seq<Issued>) {
    handle == Claimed(log) && TransmitsWhileClaimed(log)
  }

  /** A call that is neither a successful add nor a successful remove leaves Claimed as it was. */
  lemma {:induction false} ClaimedAppendNeutral(log: seq<Issued>, x: Issued)
    requires !(x.result == ESP_OK && (x.call.BusAddDevice? || x.call.BusRemoveDevice?))
    ensures Claimed(log + [x]) == Claimed(log)
  {
  }

  /** Appending one call keeps every transmit of the old log issued while claimed, and the new
      call too when it is a transmit made while claimed. */
  lemma {:induction false} TransmitsAppend(log: seq<Issued>, x: Issued)
    requires TransmitsWhileClaimed(log)
    requires x.call.DeviceTransmit? ==> Claimed(log)
    ensures TransmitsWhileClaimed(log + [x])
  {
    var ext := log + [x];
    forall i | 0 <= i < |ext| && ext[i].call.DeviceTransmit?
      ensures Claimed(ext[..i])
    {
      if i < |log| {
        assert ext[..i] == log[..i];
      } else {
        assert ext[..i] == log;
      }
    }
  }

  /** Every interface call keeps the transport invariant, whatever the driver returns. */
  lemma {:induction false} ApplyConsistent(handle: bool, log: seq<Issued>, r: Request)
    requires Consistent(handle, log)
    ensures Consistent(Apply(handle, r).handle, log + Apply(handle, r).issued)
  {
    var e := Apply(handle, r);
    match r
    case Init(b, a) =>
      var x := Issued(BusInitialize, b);
      ClaimedAppendNeutral(log, x);
      TransmitsAppend(log, x);
      if b == ESP_OK {
        var y := Issued(BusAddDevice, a);
        TransmitsAppend(log + [x], y);
        if a != ESP_OK {
          ClaimedAppendNeutral(log + [x], y);
        } else {
          assert (log + [x] + [y])[..|log| + 1] == log + [x];
        }
        assert log + e.issued == log + [x] + [y];
      } else {
        assert log + e.issued == log + [x];
      }
    case Deinit(rm, f) =>
      var z := Issued(BusFree, f);
      if handle {
        var x := Issued(BusRemoveDevice, rm);
        TransmitsAppend(log, x);
        if rm != ESP_OK {
          ClaimedAppendNeutral(log, x);
          assert log + e.issued == log + [x];
        } else {
          assert (log + [x])[..|log|] == log;
          ClaimedAppendNeutral(log + [x], z);
          TransmitsAppend(log + [x], z);
          assert log + e.issued == log + [x] + [z];
        }
      } else {
        ClaimedAppendNeutral(log, z);
        TransmitsAppend(log, z);
        assert log + e.issued == log + [z];
      }
    case WriteRead(ib, il, ob, ol, t) =>
      if e.issued == [] {
        assert log + e.issued == log;
      } else {
        var x := e.issued[0];
        ClaimedAppendNeutral(log, x);
        TransmitsAppend(log, x);
        assert log + e.issued == log + [x];
      }
  }

  /** Any sequence of calls keeps the transport invariant: no transaction is ever issued while
      the handle is absent, and the handle is present exactly when the last successful add or
      remove was an add. */
  lemma {:induction false} RunConsistent(handle: bool, log: seq<Issued>, requests: seq<Request>)
    requires Consistent(handle, log)
    ensures Consistent(Run(handle, log, requests).0, Run(handle, log, requests).1)
    decreases |requests|
  {
    if requests != [] {
      var e := Apply(handle, requests[0]);
      ApplyConsistent(handle, log, requests[0]);
      RunConsistent(e.handle, log + e.issued, requests[1..]);
    }
  }

  /** From a transport that was never opened, every issued transaction was issued after a
      successful device add. */
  lemma FreshRunConsistent(requests: seq<Request>)
    ensures Consistent(Run(false, [], requests).0, Run(false, [], requests).1)
  {
    RunConsistent(false, [], requests);
  }

  /** When the device cannot be added, the following exchange is rejected without bus activity. */
  lemma FailedOpenRejectsExchange(addResult: EspErr, inBuf: Ptr, inLen: uint32, outBuf: Ptr,
                                  outLen: uint32, transmitResult: EspErr)
    requires addResult != ESP_OK
    ensures var open := InitStep(false, ESP_OK, addResult);
            var x := WriteReadStep(open.handle, inBuf, inLen, outBuf, outLen, transmitResult);
            open.status == 1 && x.status == 1 && x.issued == []
  {
  }

  /** Open, exchange with a two-byte `in_len` and a one-byte `out_len`, close: one 16-bit
      transaction carrying both buffers, then the device is released before the bus. */
  lemma OpenExchangeClose(cmd: Ptr, response: Ptr)
    requires cmd != Null && response != Null
    ensures var open := InitStep(false, ESP_OK, ESP_OK);
            var x := WriteReadStep(open.handle, cmd, 2, response, 1, ESP_OK);
            var close := DeinitStep(x.handle, ESP_OK, ESP_OK);
            open.status == 0 && x.status == 0 && close.status == 0 && !close.handle &&
            x.issued == [Issued(DeviceTransmit(Descriptor(0, 16, 0, cmd, response)), ESP_OK)] &&
            close.issued == [Issued(BusRemoveDevice, ESP_OK), Issued(BusFree, ESP_OK)]
  {
  }

  /** A transfer of 2^29 bytes or more makes the 32-bit bit length wrap: 2^29 bytes give 0. */
  lemma BitLengthWraps()
    ensures BuildTransaction(At(0), 0x2000_0000, Null, 0) == Some(Descriptor(0, 0, 0, At(0), Null))
  {
  }

  /** The ESP-IDF SPI layer seen from the interface: the global handle and, as ghost state, the
      calls issued so far. */
  class Transport {
    var handle: bool
    ghost var log: seq<Issued>

    ghost predicate Valid()
      reads this
    {
      Consistent(handle, log)
    }

    /** The state at boot: `spi_lora_dev_handle = NULL`, nothing issued. */
    constructor ()
      ensures Valid() && !handle && log == []
    {
      handle := false;
      log := [];
    }

    method Init(busResult: EspErr, addResult: EspErr) returns (status: uint8)
      requires Valid()
      modifies this
      ensures Valid()
      ensures var e := InitStep(old(handle), busResult, addResult);
              handle == e.handle && status == e.status && log == old(log) + e.issued
    {
      ghost var e := Apply(handle, Request.Init(busResult, addResult));
      ApplyConsistent(handle, log, Request.Init(busResult, addResult));
      log := log + [Issued(BusInitialize, busResult)];
      if busResult != ESP_OK {
        return 1;
      }
      log := log + [Issued(BusAddDevice, addResult)];
      assert log == old(log) + e.issued;
      if addResult != ESP_OK {
        return 1;
      }
      handle := true;
      return 0;
    }

    method Deinit(removeResult: EspErr, freeResult: EspErr) returns (status: uint8)
      requires Valid()
      modifies this
      ensures Valid()
      ensures var e := DeinitStep(old(handle), removeResult, freeResult);
              handle == e.handle && status == e.status && log == old(log) + e.issued
    {
      ghost var e := Apply(handle, Request.Deinit(removeResult, freeResult));
      ApplyConsistent(handle, log, Request.Deinit(removeResult, freeResult));
      assert e == DeinitStep(handle, removeResult, freeResult);
      if handle {
        log := log + [Issued(BusRemoveDevice, removeResult)];
        if removeResult != ESP_OK {
          assert log == old(log) + e.issued;
          return 1;
        }
        handle := false;
      }
      log := log + [Issued(BusFree, freeResult)];
      assert log == old(log) + e.issued;
      if freeResult != ESP_OK {
        return 1;
      }
      return 0;
    }

    method WriteRead(inBuf: Ptr, inLen: uint32, outBuf: Ptr, outLen: uint32, transmitResult: EspErr)
      returns (status: uint8)
      requires Valid()
      modifies this
      ensures Valid()
      ensures var e := WriteReadStep(old(handle), inBuf, inLen, outBuf, outLen, transmitResult);
              handle == e.handle && status == e.status && log == old(log) + e.issued
    {
      ghost var e := Apply(handle, Request.WriteRead(inBuf, inLen, outBuf, outLen, transmitResult));
      ApplyConsistent(handle, log, Request.WriteRead(inBuf, inLen, outBuf, outLen, transmitResult));
      assert e == WriteReadStep(handle, inBuf, inLen, outBuf, outLen, transmitResult);
      var t := ZERO_TRANSACTION;
      if !handle {
        return 1;
      }
      if inLen == 0 && outLen == 0 {
        return 0;
      }
      var bytes := if inLen > outLen then inLen else outLen;
      t := t.(length := BitLength(bytes));
      t := t.(txBuffer := if inLen > 0 then inBuf else Null);
      t := t.(rxBuffer := if outLen > 0 then outBuf else Null);
      t := t.(flags := 0);
      log := log + [Issued(DeviceTransmit(t), transmitResult)];
      assert t == BuildTransaction(inBuf, inLen, outBuf, outLen).value;
      assert log == old(log) + e.issued;
      if transmitResult != ESP_OK {
        return 1;
      }
      return 0;
    }
  }
}
