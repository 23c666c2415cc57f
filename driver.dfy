/**
  The register transport: framed register reads and writes over an I2C bus,
  with the fixed settling delay, and the big-endian integer accessors built
  on them.

  The bus and the delay primitive are external collaborators. A `Driver`
  records every bus step and delay it performs in `trace`; what the device
  answers is decided by `peripheral`, a deterministic function of all earlier
  traffic (whether a step fails, which bytes a read returns). A step that
  fails is recorded (it was driven on the bus) and nothing after it is.
*/
module Transport {
  import opened Common
  import opened BigEndian

  /** Settling time, in microseconds, the device needs after each register access. */
  const DELAY_TIME_MICROS: u32 := 125

  /** The bus implementation's own error value, passed through untouched. */
  datatype BusError = BusError(code: int)

  /** The pin mode the encoder's button needs; the GPIO block's other modes are not modelled. */
  datatype PinMode = InputPullup

  /** A call into the GPIO block, whose register traffic is not part of this model. */
  datatype GpioRequest = SetPinMode(pin: u8, mode: PinMode) | DigitalRead(pin: u8)

  datatype Event =
    | Write(addr: u8, bytes: seq<u8>)
    | Read(addr: u8, len: nat)
    | Delay(us: u32)
    | Gpio(addr: u8, request: GpioRequest)

  /**
    The device on the far side of the bus. Given the traffic so far:
    `fault` says whether a bus step (a write, a read or a GPIO call) fails,
    `readByte` gives byte i of a read from an address, and `level` the state
    of a GPIO pin.
  */
  datatype Peripheral = Peripheral(
    fault: (seq<Event>, Event) -> Option<BusError>,
    readByte: (seq<Event>, u8, nat) -> u8,
    level: (seq<Event>, u8, u8) -> bool)

  /** The n bytes a read from addr returns after traffic h. */
  function ReadData(p: Peripheral, h: seq<Event>, addr: u8, n: nat): (r: seq<u8>)
    ensures |r| == n
  {
    var bytes := seq(n, i requires 0 <= i < n => p.readByte(h, addr, i));
    assert forall i | 0 <= i < n :: 0 <= bytes[i] < 0x100 by {
      forall i | 0 <= i < n ensures 0 <= bytes[i] < 0x100 {
        var b: u8 := p.readByte(h, addr, i);
        assert bytes[i] == b;
      }
    }
    bytes
  }

  /** What one driver operation appends to the trace, and what it returns. */
  datatype Step<+T, +E> = Step(events: seq<Event>, result: Result<T, E>)

  /** A single bus step: the event itself, and its outcome. */
  function BusStep(p: Peripheral, h: seq<Event>, e: Event): (s: Step<(), BusError>)
    ensures s.events == [e]
    ensures s.result.Ok? <==> p.fault(h, e).None?
    ensures s.result.Err? ==> p.fault(h, e) == Some(s.result.error)
  {
    match p.fault(h, e)
    case None => Step([e], Ok(()))
    case Some(err) => Step([e], Err(err))
  }

  /**
    register_read: write the register address, wait, read n bytes. A failed
    address write stops before the delay; a failed read is reported after it.
  */
  function RegisterReadSpec(p: Peripheral, h: seq<Event>, addr: u8, reg: Reg, n: nat)
    : (s: Step<seq<u8>, BusError>)
    ensures s.result.Ok? ==> |s.result.value| == n
  {
    var address := Write(addr, reg);
    match p.fault(h, address)
    case Some(e) => Step([address], Err(e))
    case None =>
      var h' := h + [address, Delay(DELAY_TIME_MICROS)];
      var read := Read(addr, n);
      var events := [address, Delay(DELAY_TIME_MICROS), read];
      match p.fault(h', read)
      case Some(e) => Step(events, Err(e))
      case None => Step(events, Ok(ReadData(p, h', addr, n)))
  }

  /** register_write: one bus write of the address followed by the payload, then the delay. */
  function RegisterWriteSpec(p: Peripheral, h: seq<Event>, addr: u8, reg: Reg, bytes: seq<u8>)
    : (s: Step<(), BusError>)
  {
    var frame := Write(addr, reg + bytes);
    match p.fault(h, frame)
    case Some(e) => Step([frame], Err(e))
    case None => Step([frame, Delay(DELAY_TIME_MICROS)], Ok(()))
  }

  /** read_u8 ... read_i64: a register read of the type's width, decoded big-endian. */
  function ReadIntSpec(p: Peripheral, h: seq<Event>, addr: u8, reg: Reg, k: IntKind)
    : (s: Step<int, BusError>)
    ensures s.result.Ok? ==> k.Contains(s.result.value)
  {
    var raw := RegisterReadSpec(p, h, addr, reg, k.Width());
    match raw.result
    case Ok(bytes) => Step(raw.events, Ok(FromBeBytes(k, bytes)))
    case Err(e) => Step(raw.events, Err(e))
  }

  /** write_u8 ... write_i64: a register write of the value's big-endian bytes. */
  function WriteIntSpec(p: Peripheral, h: seq<Event>, addr: u8, reg: Reg, k: IntKind, v: int)
    : (s: Step<(), BusError>)
    requires k.Contains(v)
  {
    RegisterWriteSpec(p, h, addr, reg, ToBeBytes(k, v))
  }

  /**
    A register write is one bus write of n + 2 bytes, the register address
    first; the delay follows only a write that succeeded.
  */
  lemma RegisterWriteFraming(p: Peripheral, h: seq<Event>, addr: u8, reg: Reg, bytes: seq<u8>)
    ensures var s := RegisterWriteSpec(p, h, addr, reg, bytes);
      && s.events != [] && s.events[0].Write? && s.events[0].addr == addr
      && |s.events[0].bytes| == |bytes| + 2
      && s.events[0].bytes[..2] == reg && s.events[0].bytes[2..] == bytes
      && (s.result.Ok? <==> p.fault(h, s.events[0]).None?)
      && (s.result.Ok? ==> s.events == [s.events[0], Delay(DELAY_TIME_MICROS)])
      && (s.result.Err? ==> s.events == [s.events[0]] && p.fault(h, s.events[0]) == Some(s.result.error))
  {
  }

  /**
    A register read writes the 2-byte address, waits, then reads n bytes and
    returns exactly what was read. It succeeds exactly when neither bus step
    faults; a failed address write is followed by neither the delay nor the
    read, and a failed read returns that read's error after the delay.
  */
  lemma RegisterReadFraming(p: Peripheral, h: seq<Event>, addr: u8, reg: Reg, n: nat)
    ensures var s := RegisterReadSpec(p, h, addr, reg, n);
      var address := Write(addr, reg);
      var h' := h + [address, Delay(DELAY_TIME_MICROS)];
      && s.events != [] && s.events[0] == address
      && (p.fault(h, address).Some? ==>
            s.events == [address] && s.result == Err(p.fault(h, address).value))
      && (p.fault(h, address).None? ==>
            && s.events == [address, Delay(DELAY_TIME_MICROS), Read(addr, n)]
            && (p.fault(h', Read(addr, n)).Some? ==> s.result == Err(p.fault(h', Read(addr, n)).value))
            && (p.fault(h', Read(addr, n)).None? ==> s.result == Ok(ReadData(p, h', addr, n))))
      && (s.result.Ok? ==> s.result.value == ReadData(p, h + s.events[..2], addr, n))
  {
    var s := RegisterReadSpec(p, h, addr, reg, n);
    if p.fault(h, Write(addr, reg)).None? {
      assert s.events[..2] == [Write(addr, reg), Delay(DELAY_TIME_MICROS)];
    }
  }

  /** A typed read transfers exactly the type's byte count. */
  lemma ReadIntWidth(p: Peripheral, h: seq<Event>, addr: u8, reg: Reg, k: IntKind)
    requires p.fault(h, Write(addr, reg)).None?
    ensures ReadIntSpec(p, h, addr, reg, k).events[2] == Read(addr, k.Width())
  {
  }

  /**
    The buffer register_write sends: a zeroed array of n + 2 bytes, the
    register address copied into its first two cells and the payload into
    the rest.
  */
  method AssembleFrame(reg: Reg, bytes: seq<u8>) returns (frame: seq<u8>)
    ensures |frame| == |bytes| + 2
    ensures frame[..2] == reg && frame[2..] == bytes
  {
    var buffer := new u8[|bytes| + 2];
    buffer[0], buffer[1] := reg[0], reg[1];
    var i := 0;
    while i < |bytes|
      invariant 0 <= i <= |bytes|
      invariant buffer[0] == reg[0] && buffer[1] == reg[1]
      invariant forall j :: 0 <= j < i ==> buffer[2 + j] == bytes[j]
    {
      buffer[2 + i] := bytes[i];
      i := i + 1;
    }
    frame := buffer[..];
    assert frame[2..] == bytes by {
      forall j | 0 <= j < |bytes| ensures frame[2..][j] == bytes[j] {
        assert frame[2..][j] == buffer[2 + j];
      }
    }
  }

  /** A handle on one I2C bus together with a microsecond delay. */
  class Driver {
    var trace: seq<Event>
    const peripheral: Peripheral

    constructor (p: Peripheral)
      ensures trace == [] && peripheral == p
    {
      trace := [];
      peripheral := p;
    }

    /** The bus write primitive. */
    method I2cWrite(addr: u8, bytes: seq<u8>) returns (r: Result<(), BusError>)
      modifies this
      ensures var s := BusStep(peripheral, old(trace), Write(addr, bytes));
        trace == old(trace) + s.events && r == s.result
    {
      var s := BusStep(peripheral, trace, Write(addr, bytes));
      trace := trace + s.events;
      r := s.result;
    }

    /** The bus read primitive: fills a buffer of n bytes. */
    method I2cRead(addr: u8, n: nat) returns (r: Result<seq<u8>, BusError>)
      modifies this
      ensures trace == old(trace) + [Read(addr, n)]
      ensures r.Ok? <==> peripheral.fault(old(trace), Read(addr, n)).None?
      ensures r.Ok? ==> r.value == ReadData(peripheral, old(trace), addr, n)
      ensures r.Err? ==> Some(r.error) == peripheral.fault(old(trace), Read(addr, n))
    {
      var s := BusStep(peripheral, trace, Read(addr, n));
      r := match s.result
        case Ok(_) => Ok(ReadData(peripheral, trace, addr, n))
        case Err(e) => Err(e);
      trace := trace + s.events;
    }

    /** The delay primitive; it cannot fail. */
    method DelayUs(us: u32)
      modifies this
      ensures trace == old(trace) + [Delay(us)]
    {
      trace := trace + [Delay(us)];
    }

    method RegisterRead(addr: u8, reg: Reg, n: nat) returns (r: Result<seq<u8>, BusError>)
      modifies this
      ensures var s := RegisterReadSpec(peripheral, old(trace), addr, reg, n);
        trace == old(trace) + s.events && r == s.result
    {
      var w := I2cWrite(addr, reg);
      if w.Err? {
        return Err(w.error);
      }
      DelayUs(DELAY_TIME_MICROS);
      assert trace == old(trace) + [Write(addr, reg), Delay(DELAY_TIME_MICROS)];
      r := I2cRead(addr, n);
    }

    method RegisterWrite(addr: u8, reg: Reg, bytes: seq<u8>) returns (r: Result<(), BusError>)
      modifies this
      ensures var s := RegisterWriteSpec(peripheral, old(trace), addr, reg, bytes);
        trace == old(trace) + s.events && r == s.result
    {
      var frame := AssembleFrame(reg, bytes);
      assert frame == reg + bytes;
      r := I2cWrite(addr, frame);
      if r.Err? {
        return;
      }
      DelayUs(DELAY_TIME_MICROS);
    }

    method ReadInt(addr: u8, reg: Reg, k: IntKind) returns (r: Result<int, BusError>)
      modifies this
      ensures var s := ReadIntSpec(peripheral, old(trace), addr, reg, k);
        trace == old(trace) + s.events && r == s.result
    {
      ghost var s := RegisterReadSpec(peripheral, old(trace), addr, reg, k.Width());
      var raw := RegisterRead(addr, reg, k.Width());
      assert raw == s.result;
      r := match raw
        case Ok(bytes) => Ok(FromBeBytes(k, bytes))
        case Err(e) => Err(e);
    }

    method WriteInt(addr: u8, reg: Reg, k: IntKind, v: int) returns (r: Result<(), BusError>)
      requires k.Contains(v)
      modifies this
      ensures var s := WriteIntSpec(peripheral, old(trace), addr, reg, k, v);
        trace == old(trace) + s.events && r == s.result
    {
      r := RegisterWrite(addr, reg, ToBeBytes(k, v));
    }
  }
}
