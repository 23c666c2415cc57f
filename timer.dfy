/**
  The timer (PWM) block: the pin is mapped through the variant's table and
  written, with the duty value, as one 16-bit word.
*/
module TimerModule {
  import opened Common
  import opened BigEndian
  import opened Transport
  import opened Errors
  import AdcModule

  /** First byte: the PWM output; second byte: the duty value. */
  const PWM_VAL: Reg := [ModuleId.Timer.Id(), 0x01]

  /**
    The PWM output of a pin: ATTINY817 pins are used as they are; on SAMD09
    pins 4 to 7 are outputs 0 to 3 and every other pin falls back to 0.
  */
  function MappedPin(hw: HardwareId, pin: u8): (mapped: u8)
    ensures hw == ATTINY817 ==> mapped == pin
    ensures hw == SAMD09 ==> mapped <= 3
    ensures hw == SAMD09 ==> mapped == if 4 <= pin <= 7 then pin - 4 else 0
  {
    match hw
    case ATTINY817 => pin
    case SAMD09 =>
      match pin
      case 4 => 0
      case 5 => 1
      case 6 => 2
      case 7 => 3
      case _ => 0
  }

  /** The PWM table is not the ADC table: SAMD09 pin 4 is ADC channel 2 but PWM output 0. */
  lemma TablesDiffer()
    ensures AdcModule.PinOffset(SAMD09, 4) == 2 && MappedPin(SAMD09, 4) == 0
  {
  }

  /**
    `u16::from_be_bytes([mapped_pin, value])`: the word packs the output in
    its high byte and the value in its low byte, and its big-endian bytes
    give both back.
  */
  function PwmWord(mapped: u8, value: u8): (w: u16)
    ensures w == mapped * 256 + value
    ensures ToBeBytes(U16, w) == [mapped, value]
  {
    U16Bytes(mapped, value);
    FromBeBytes(U16, [mapped, value])
  }

  /** `analog_write`: one register write whose payload is exactly [mapped pin, value]. */
  method AnalogWrite(d: Driver, addr: u8, hw: HardwareId, pin: u8, value: u8)
    returns (r: Result<(), SeesawError>)
    modifies d
    ensures var s := Lift(RegisterWriteSpec(d.peripheral, old(d.trace), addr, PWM_VAL, [MappedPin(hw, pin), value]));
      d.trace == old(d.trace) + s.events && r == s.result
  {
    var mapped := MappedPin(hw, pin);
    var w := d.WriteInt(addr, PWM_VAL, U16, PwmWord(mapped, value));
    if w.Err? {
      return Err(I2c(w.error));
    }
    r := Ok(());
  }
}
