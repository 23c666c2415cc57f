/**
  Types shared by the whole driver: fixed-width integers, the register
  address, the Seesaw register blocks and the hardware variants.

  The register-block ids and the hardware-id bytes are those of the Seesaw
  firmware; common.rs, where the driver declares them, is not part of this
  model. Most proofs depend only on the block ids being distinct and below
  32; the facts that name concrete values are `HardwareId.ToU8` (0x87 and
  0x55), `StatusModule.NeopixelOnly` (NeoPixel is 0x0E, so its bit is
  0x4000) and `AdcModule.AnalogReadValue` (ADC is 0x09).
*/
module Common {

  type u8 = x: int | 0 <= x < 0x100
  type u16 = x: int | 0 <= x < 0x1_0000
  type u32 = x: int | 0 <= x < 0x1_0000_0000
  type i32 = x: int | -0x8000_0000 <= x < 0x8000_0000

  /** A register address: the register block's id, then the function id within it. */
  type Reg = s: seq<u8> | |s| == 2 witness [0, 0]

  datatype Option<+T> = None | Some(value: T)

  datatype Result<+T, +E> = Ok(value: T) | Err(error: E)

  /** The register blocks ("modules") a Seesaw device may implement. */
  datatype ModuleId =
    | Status | Gpio | Sercom0 | Timer | Adc | Dac | Interrupt
    | Dap | Eeprom | Neopixel | Touch | Keypad | Encoder | Spectrum
  {
    /** The block's id byte: the first byte of every register address in it. */
    function Id(): (id: u8)
      ensures id < 32
    {
      match this
      case Status => 0x00
      case Gpio => 0x01
      case Sercom0 => 0x02
      case Timer => 0x08
      case Adc => 0x09
      case Dac => 0x0A
      case Interrupt => 0x0B
      case Dap => 0x0C
      case Eeprom => 0x0D
      case Neopixel => 0x0E
      case Touch => 0x0F
      case Keypad => 0x10
      case Encoder => 0x11
      case Spectrum => 0x12
    }
  }

  /** Distinct blocks have distinct id bytes, so a capability bit names one block. */
  lemma ModuleIdsDistinct(a: ModuleId, b: ModuleId)
    ensures a.Id() == b.Id() <==> a == b
  {
  }

  /** The silicon variants a Seesaw board is built on. */
  datatype HardwareId = ATTINY817 | SAMD09 {
    /** The byte the status block reports for this variant. */
    function ToU8(): (id: u8)
      ensures (id == 0x87) == (this == ATTINY817)
      ensures (id == 0x55) == (this == SAMD09)
    {
      match this
      case ATTINY817 => 0x87
      case SAMD09 => 0x55
    }
  }
}
