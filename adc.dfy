/**
  The ADC block: a logical pin is mapped to a channel offset through the
  hardware variant's table, and the channel is read as a 16-bit word.
*/
module AdcModule {
  import opened Common
  import opened BigEndian
  import opened Transport
  import opened Errors

  /** The register of channel 0; channel i is at function id 0x07 + i. */
  const CHANNEL_0: Reg := [ModuleId.Adc.Id(), 0x07]

  /**
    `pin_offset`: ATTINY817 channels are numbered like its pins; on SAMD09
    pins 2 to 5 are channels 0 to 3 and every other pin falls back to 0.
  */
  function PinOffset(hw: HardwareId, pin: u8): (offset: u8)
    ensures hw == ATTINY817 ==> offset == pin
    ensures hw == SAMD09 ==> offset <= 3
    ensures hw == SAMD09 ==> offset == if 2 <= pin <= 5 then pin - 2 else 0
  {
    match hw
    case ATTINY817 => pin
    case SAMD09 =>
      match pin
      case 2 => 0
      case 3 => 1
      case 4 => 2
      case 5 => 3
      case _ => 0
  }

  /** `CHANNEL_0[1] + pin_offset` is u8 addition: it must not overflow. */
  predicate ChannelInRange(hw: HardwareId, pin: u8) {
    CHANNEL_0[1] + PinOffset(hw, pin) < 0x100
  }

  /** The channel register of a pin. */
  function ChannelReg(hw: HardwareId, pin: u8): Reg
    requires ChannelInRange(hw, pin)
  {
    [CHANNEL_0[0], CHANNEL_0[1] + PinOffset(hw, pin)]
  }

  /** Every SAMD09 pin has a channel register; an ATTINY817 pin has one up to pin 248. */
  lemma ChannelRange(hw: HardwareId, pin: u8)
    ensures ChannelInRange(hw, pin) <==> hw == SAMD09 || pin <= 248
  {
  }

  /**
    A conversion that was read successfully is the two bytes the device
    returned after the channel register was addressed, high byte first.
  */
  lemma AnalogReadValue(p: Peripheral, h: seq<Event>, addr: u8, hw: HardwareId, pin: u8)
    requires ChannelInRange(hw, pin)
    ensures var s := ReadIntSpec(p, h, addr, ChannelReg(hw, pin), U16);
      s.result.Ok? ==>
        && s.events == [Write(addr, [0x09, 0x07 + PinOffset(hw, pin)]), Delay(DELAY_TIME_MICROS), Read(addr, 2)]
        && var bytes := ReadData(p, h + s.events[..2], addr, 2);
           s.result.value == bytes[0] as int * 256 + bytes[1] as int
  {
    var reg := ChannelReg(hw, pin);
    RegisterReadFraming(p, h, addr, reg, 2);
    var s := ReadIntSpec(p, h, addr, reg, U16);
    if s.result.Ok? {
      var bytes := ReadData(p, h + s.events[..2], addr, 2);
      assert bytes == [bytes[0], bytes[1]];
      U16Bytes(bytes[0], bytes[1]);
    }
  }

  /** `analog_read`: one two-byte read of the pin's channel register, decoded big-endian. */
  method AnalogRead(d: Driver, addr: u8, hw: HardwareId, pin: u8) returns (r: Result<u16, SeesawError>)
    requires ChannelInRange(hw, pin)
    modifies d
    ensures var s := Lift(ReadIntSpec(d.peripheral, old(d.trace), addr, ChannelReg(hw, pin), U16));
      d.trace == old(d.trace) + s.events && r == s.result
  {
    var analog := d.ReadInt(addr, ChannelReg(hw, pin), U16);
    if analog.Err? {
      return Err(I2c(analog.error));
    }
    r := Ok(analog.value);
  }
}
