/**
  The rotary-encoder block: signed 32-bit position and delta registers,
  interrupt enable and disable, and the push button through GPIO.
*/
module EncoderModule {
  import opened Common
  import opened BigEndian
  import opened Transport
  import opened Errors
  import GpioModule
  import EchoBus

  const INT_SET: Reg := [ModuleId.Encoder.Id(), 0x10]
  const INT_CLR: Reg := [ModuleId.Encoder.Id(), 0x20]
  const POSITION: Reg := [ModuleId.Encoder.Id(), 0x30]
  const DELTA: Reg := [ModuleId.Encoder.Id(), 0x40]

  /** Settling time after configuring the button pin, in microseconds. */
  const BUTTON_DELAY_MICROS: u32 := 125

  /** `enable_button`: make the button pin a pulled-up input, then wait unless that failed. */
  method EnableButton(d: Driver, addr: u8, buttonPin: u8) returns (r: Result<(), SeesawError>)
    modifies d
    ensures var s := GpioModule.SetPinModeSpec(d.peripheral, old(d.trace), addr, buttonPin, InputPullup);
      && r == s.result
      && d.trace == old(d.trace) + s.events + (if s.result.Ok? then [Delay(BUTTON_DELAY_MICROS)] else [])
  {
    r := GpioModule.SetPinMode(d, addr, buttonPin, InputPullup);
    if r.Err? {
      return;
    }
    d.DelayUs(BUTTON_DELAY_MICROS);
  }

  /** `button`: exactly the digital read of the button pin. */
  method Button(d: Driver, addr: u8, buttonPin: u8) returns (r: Result<bool, SeesawError>)
    modifies d
    ensures var s := GpioModule.DigitalReadSpec(d.peripheral, old(d.trace), addr, buttonPin);
      d.trace == old(d.trace) + s.events && r == s.result
  {
    r := GpioModule.DigitalRead(d, addr, buttonPin);
  }

  /** `delta`: one signed 32-bit read of the delta register. */
  method Delta(d: Driver, addr: u8) returns (r: Result<i32, SeesawError>)
    modifies d
    ensures var s := Lift(ReadIntSpec(d.peripheral, old(d.trace), addr, DELTA, I32));
      d.trace == old(d.trace) + s.events && r == s.result
  {
    var delta := d.ReadInt(addr, DELTA, I32);
    if delta.Err? {
      return Err(I2c(delta.error));
    }
    r := Ok(delta.value);
  }

  /** `disable_interrupt`: the byte 1 written to the interrupt-clear register. */
  method DisableInterrupt(d: Driver, addr: u8) returns (r: Result<(), SeesawError>)
    modifies d
    ensures var s := Lift(WriteIntSpec(d.peripheral, old(d.trace), addr, INT_CLR, U8, 1));
      d.trace == old(d.trace) + s.events && r == s.result
  {
    var w := d.WriteInt(addr, INT_CLR, U8, 1);
    if w.Err? {
      return Err(I2c(w.error));
    }
    r := Ok(());
  }

  /** `enable_interrupt`: the byte 1 written to the interrupt-set register. */
  method EnableInterrupt(d: Driver, addr: u8) returns (r: Result<(), SeesawError>)
    modifies d
    ensures var s := Lift(WriteIntSpec(d.peripheral, old(d.trace), addr, INT_SET, U8, 1));
      d.trace == old(d.trace) + s.events && r == s.result
  {
    var w := d.WriteInt(addr, INT_SET, U8, 1);
    if w.Err? {
      return Err(I2c(w.error));
    }
    r := Ok(());
  }

  /** `position`: one signed 32-bit read of the position register. */
  method Position(d: Driver, addr: u8) returns (r: Result<i32, SeesawError>)
    modifies d
    ensures var s := Lift(ReadIntSpec(d.peripheral, old(d.trace), addr, POSITION, I32));
      d.trace == old(d.trace) + s.events && r == s.result
  {
    var position := d.ReadInt(addr, POSITION, I32);
    if position.Err? {
      return Err(I2c(position.error));
    }
    r := Ok(position.value);
  }

  /** `set_position`: the position's four big-endian bytes written to the position register. */
  method SetPosition(d: Driver, addr: u8, pos: i32) returns (r: Result<(), SeesawError>)
    modifies d
    ensures var s := Lift(WriteIntSpec(d.peripheral, old(d.trace), addr, POSITION, I32, pos));
      d.trace == old(d.trace) + s.events && r == s.result
  {
    var w := d.WriteInt(addr, POSITION, I32, pos);
    if w.Err? {
      return Err(I2c(w.error));
    }
    r := Ok(());
  }

  /**
    Enabling or disabling the interrupt is one bus write of the register
    address and the byte 1, followed by the register delay; a failed write
    returns its error and nothing follows it.
  */
  lemma InterruptTrace(p: Peripheral, h: seq<Event>, addr: u8, reg: Reg)
    ensures var s := Lift(WriteIntSpec(p, h, addr, reg, U8, 1));
      var w := Write(addr, reg + [1]);
      && (p.fault(h, w).None? ==> s.events == [w, Delay(DELAY_TIME_MICROS)] && s.result == Ok(()))
      && (p.fault(h, w).Some? ==> s.events == [w] && s.result == Err(I2c(p.fault(h, w).value)))
  {
    U8Encode(1);
  }

  /** On a register-file device, a position that was set reads back unchanged. */
  lemma SetPositionThenPosition(h: seq<Event>, addr: u8, pos: i32)
    ensures var w := Lift(WriteIntSpec(EchoBus.Echo(), h, addr, POSITION, I32, pos));
      && w.result == Ok(())
      && Lift(ReadIntSpec(EchoBus.Echo(), h + w.events, addr, POSITION, I32)).result == Ok(pos)
  {
    EchoBus.WriteThenRead(h, addr, POSITION, I32, pos);
  }
}
