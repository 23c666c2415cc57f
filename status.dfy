/**
  The status block: hardware id, capability bitmask, product date code,
  temperature and software reset.
*/
module StatusModule {
  import opened Common
  import opened BigEndian
  import opened Transport
  import opened Errors

  const STATUS_HW_ID: Reg := [ModuleId.Status.Id(), 0x01]
  const STATUS_VERSION: Reg := [ModuleId.Status.Id(), 0x02]
  const STATUS_OPTIONS: Reg := [ModuleId.Status.Id(), 0x03]
  const STATUS_TEMP: Reg := [ModuleId.Status.Id(), 0x04]
  const STATUS_SWRST: Reg := [ModuleId.Status.Id(), 0x7F]

  /** The byte that triggers a software reset. */
  const RESET_COMMAND: u8 := 0xFF
  /** How long the device needs to reboot after a reset, in microseconds. */
  const RESET_DELAY_MICROS: u32 := 125_000

  // ----- Capabilities -----

  /** Which register blocks the device's firmware implements. */
  datatype DeviceCapabilities = DeviceCapabilities(
    adc: bool, dac: bool, dap: bool, eeprom: bool, encoder: bool,
    gpio: bool, interrupt: bool, keypad: bool, neopixel: bool, sercom0: bool,
    spectrum: bool, status: bool, timer: bool, touch: bool)
  {
    /** The flag that stands for block m. */
    function Has(m: ModuleId): bool {
      match m
      case Adc => adc
      case Dac => dac
      case Dap => dap
      case Eeprom => eeprom
      case Encoder => encoder
      case Gpio => gpio
      case Interrupt => interrupt
      case Keypad => keypad
      case Neopixel => neopixel
      case Sercom0 => sercom0
      case Spectrum => spectrum
      case Status => status
      case Timer => timer
      case Touch => touch
    }
  }

  /** 2^k. */
  function Pow2(k: nat): (r: nat)
    ensures r >= 1
  {
    if k == 0 then 1 else 2 * Pow2(k - 1)
  }

  /** Bit k of a word, `v >> k & 1 == 1`: shift right k times, then test the low bit. */
  predicate BitSet(v: nat, k: nat)
    decreases k
  {
    if k == 0 then v % 2 == 1 else BitSet(v / 2, k - 1)
  }

  lemma {:induction false} NoBitOfZero(k: nat)
    ensures !BitSet(0, k)
  {
    if k > 0 {
      NoBitOfZero(k - 1);
    }
  }

  /** 2^m has bit m set and no other. */
  lemma {:induction false} BitOfPow2(m: nat, k: nat)
    ensures BitSet(Pow2(m), k) <==> k == m
    decreases k
  {
    if k > 0 {
      if m == 0 {
        NoBitOfZero(k - 1);
      } else {
        assert Pow2(m) / 2 == Pow2(m - 1);
        BitOfPow2(m - 1, k - 1);
      }
    }
  }

  /** The capability bit of block m in a status word. */
  predicate Flag(v: u32, m: ModuleId) {
    BitSet(v, m.Id())
  }

  /** `DeviceCapabilities::from`: each flag is the word's bit at the block's id. */
  function CapabilitiesFrom(v: u32): (c: DeviceCapabilities)
    ensures forall m: ModuleId :: c.Has(m) == Flag(v, m)
  {
    DeviceCapabilities(
      adc := Flag(v, ModuleId.Adc),
      dac := Flag(v, ModuleId.Dac),
      dap := Flag(v, ModuleId.Dap),
      eeprom := Flag(v, ModuleId.Eeprom),
      encoder := Flag(v, ModuleId.Encoder),
      gpio := Flag(v, ModuleId.Gpio),
      interrupt := Flag(v, ModuleId.Interrupt),
      keypad := Flag(v, ModuleId.Keypad),
      neopixel := Flag(v, ModuleId.Neopixel),
      sercom0 := Flag(v, ModuleId.Sercom0),
      spectrum := Flag(v, ModuleId.Spectrum),
      status := Flag(v, ModuleId.Status),
      timer := Flag(v, ModuleId.Timer),
      touch := Flag(v, ModuleId.Touch))
  }

  /** The word whose only set bit is block m's. */
  function SingleBit(m: ModuleId): u32 {
    assert Pow2(m.Id()) <= 0x8000_0000 by {
      Pow2Monotonic(m.Id(), 31);
      assert Pow2(8) == 0x100;
      assert Pow2(16) == 0x1_0000;
      assert Pow2(24) == 0x100_0000;
    }
    Pow2(m.Id())
  }

  lemma {:induction false} Pow2Monotonic(j: nat, k: nat)
    requires j <= k
    ensures Pow2(j) <= Pow2(k)
    decreases k
  {
    if j < k {
      Pow2Monotonic(j, k - 1);
    }
  }

  /** A word that reports nothing decodes to no capabilities. */
  lemma CapabilitiesOfZero(m: ModuleId)
    ensures !CapabilitiesFrom(0).Has(m)
  {
  }

  /** A word with one block's bit set decodes to that block alone. */
  lemma CapabilitiesOfSingleBit(m: ModuleId, n: ModuleId)
    ensures CapabilitiesFrom(SingleBit(m)).Has(n) <==> n == m
  {
    SingleBitFlag(m, n);
  }

  /** The literal word with only the NeoPixel block's bit (bit 14) set. */
  lemma NeopixelOnly()
    ensures CapabilitiesFrom(0x4000) == DeviceCapabilities(
      adc := false, dac := false, dap := false, eeprom := false, encoder := false,
      gpio := false, interrupt := false, keypad := false, neopixel := true, sercom0 := false,
      spectrum := false, status := false, timer := false, touch := false)
  {
    assert Pow2(8) == 0x100;
    assert SingleBit(ModuleId.Neopixel) == 0x4000;
    forall m: ModuleId ensures CapabilitiesFrom(0x4000).Has(m) <==> m == ModuleId.Neopixel {
      CapabilitiesOfSingleBit(ModuleId.Neopixel, m);
    }
  }

  lemma SingleBitFlag(m: ModuleId, n: ModuleId)
    ensures Flag(SingleBit(m), n) <==> n == m
  {
    calc {
      Flag(SingleBit(m), n);
    ==
      BitSet(SingleBit(m), n.Id());
    == { PowerFlag(SingleBit(m), m.Id(), n.Id()); }
      m.Id() == n.Id();
    == { ModuleIdsDistinct(m, n); }
      n == m;
    }
  }

  /** The bit test on a word that is a power of two, with the indices kept abstract. */
  lemma PowerFlag(v: u32, i: nat, j: nat)
    requires v == Pow2(i)
    ensures BitSet(v, j) <==> i == j
  {
    BitOfPow2(i, j);
  }

  // ----- Product date code -----

  /** `ProductDateCode`: product id and the as-reported build date. */
  datatype ProductDateCode = ProductDateCode(id: u16, year: u16, month: u8, day: u8)

  /**
    `ProductDateCode::from`: id is bits 16-31, year 2000 plus bits 0-5,
    month bits 7-10, day bits 11-15 (shifts and masks written as division
    and remainder by powers of two). No calendar check: month may be 0 or
    above 12, day 0 or above the month's length.
  */
  function DateCodeFrom(v: u32): (d: ProductDateCode)
    ensures 2000 <= d.year <= 2063
    ensures d.month <= 15 && d.day <= 31
  {
    ProductDateCode(
      id := v / 0x1_0000,
      year := v % 0x40 + 2000,
      month := (v / 0x80) % 0x10,
      day := (v / 0x800) % 0x20)
  }

  /** The fields a date-code word can carry. */
  predicate Encodable(d: ProductDateCode) {
    2000 <= d.year <= 2063 && d.month < 0x10 && d.day < 0x20
  }

  /** The date-code word carrying d, with the unused bit 6 clear. */
  function DateCodeWord(d: ProductDateCode): (v: u32)
    requires Encodable(d)
  {
    d.id * 0x1_0000 + d.day * 0x800 + d.month * 0x80 + (d.year - 2000)
  }

  /** Every encodable date code survives the word encoding. */
  lemma DateCodeRoundTrip(d: ProductDateCode)
    requires Encodable(d)
    ensures DateCodeFrom(DateCodeWord(d)) == d
  {
    WordFields(d.id, d.day, d.month, d.year - 2000);
  }

  /** The shifts and masks of the decode pick each field back out of the packed word. */
  lemma WordFields(id: nat, day: nat, month: nat, y: nat)
    requires id < 0x1_0000 && day < 0x20 && month < 0x10 && y < 0x40
    ensures var v := id * 0x1_0000 + day * 0x800 + month * 0x80 + y;
      && v / 0x1_0000 == id && v % 0x40 == y
      && v / 0x80 % 0x10 == month && v / 0x800 % 0x20 == day
  {
    var v := id * 0x1_0000 + day * 0x800 + month * 0x80 + y;
    var q80, q800 := id * 0x200 + day * 0x10 + month, id * 0x20 + day;
    DivExact(v, 0x1_0000, id, day * 0x800 + month * 0x80 + y);
    DivExact(v, 0x40, id * 0x400 + day * 0x20 + month * 2, y);
    DivExact(v, 0x80, q80, y);
    DivExact(q80, 0x10, q800, month);
    DivExact(v, 0x800, q800, month * 0x80 + y);
    DivExact(q800, 0x20, id, day);
  }

  /** v = q * m + r with 0 <= r < m leaves quotient q and remainder r (m is a power of two up to 2^16). */
  lemma DivExact(v: nat, m: nat, q: nat, r: nat)
    requires m == 0x10 || m == 0x20 || m == 0x40 || m == 0x80 || m == 0x800 || m == 0x1_0000
    requires r < m && v == q * m + r
    ensures v / m == q && v % m == r
  {
  }

  /** Decoding then re-encoding a word gives it back except for bit 6, which the decode drops. */
  lemma DateCodeWordOfDecode(v: u32)
    ensures DateCodeWord(DateCodeFrom(v)) == v - (v / 0x40 % 2) * 0x40
  {
    var id, year, bit6, month, day := v / 0x1_0000, v % 0x40, v / 0x40 % 2, v / 0x80 % 0x10, v / 0x800 % 0x20;
    DateCodeFields(v);
    assert DateCodeFrom(v) == ProductDateCode(id, year + 2000, month, day);
    assert DateCodeWord(DateCodeFrom(v)) == id * 0x1_0000 + day * 0x800 + month * 0x80 + year;
  }

  /** A 32-bit word is the sum of its date-code fields and bit 6. */
  lemma DateCodeFields(v: u32)
    ensures v == v / 0x1_0000 * 0x1_0000 + v / 0x800 % 0x20 * 0x800 + v / 0x80 % 0x10 * 0x80
                 + v / 0x40 % 2 * 0x40 + v % 0x40
  {
    var q40, q80, q800 := v / 0x40, v / 0x80, v / 0x800;
    ShiftRight(v);
    assert v == q40 * 0x40 + v % 0x40;
    assert q40 == q80 * 2 + q40 % 2;
    assert q80 == q800 * 0x10 + q80 % 0x10;
    assert q800 == v / 0x1_0000 * 0x20 + q800 % 0x20;
  }

  /** Shifting right by 6 then 1, by 7 then 4, and by 11 then 5 bits. */
  lemma ShiftRight(v: u32)
    ensures v / 0x40 / 2 == v / 0x80
    ensures v / 0x80 / 0x10 == v / 0x800
    ensures v / 0x800 / 0x20 == v / 0x1_0000
  {
  }

  /** A literal word: product 0x1234, built 2013-05-11. */
  lemma DateCodeExample()
    ensures DateCodeFrom(0x1234_5A8D) == ProductDateCode(0x1234, 2013, 5, 11)
  {
    assert 0x1234_5A8D == 0x1234 * 0x1_0000 + 11 * 0x800 + 5 * 0x80 + 13;
    DateCodeRoundTrip(ProductDateCode(0x1234, 2013, 5, 11));
  }

  // ----- Temperature -----

  /** `temp`: the raw word is a 16.16 fixed-point Celsius value. */
  function TempFromRaw(raw: u32): (t: real)
    ensures t * 65536.0 == raw as real
  {
    raw as real / 65536.0
  }

  lemma TempOfOne()
    ensures TempFromRaw(0x1_0000) == 1.0
  {
  }

  // ----- Transactions -----

  /**
    `hardware_id`: one byte read from the hardware-id register, returned
    unchanged; it fails exactly when the address write or the read faults.
  */
  function HardwareIdSpec(p: Peripheral, h: seq<Event>, addr: u8): (s: Step<int, SeesawError>)
    ensures s.result.Ok? ==> 0 <= s.result.value < 0x100
    ensures var address := Write(addr, STATUS_HW_ID);
      var h' := h + [address, Delay(DELAY_TIME_MICROS)];
      && (p.fault(h, address).Some? ==>
            s.events == [address] && s.result == Err(I2c(p.fault(h, address).value)))
      && (p.fault(h, address).None? ==>
            && s.events == [address, Delay(DELAY_TIME_MICROS), Read(addr, 1)]
            && (p.fault(h', Read(addr, 1)).Some? ==> s.result == Err(I2c(p.fault(h', Read(addr, 1)).value)))
            && (p.fault(h', Read(addr, 1)).None? ==> s.result == Ok(p.readByte(h', addr, 0))))
  {
    RegisterReadFraming(p, h, addr, STATUS_HW_ID, 1);
    U8Byte(ReadData(p, h + [Write(addr, STATUS_HW_ID), Delay(DELAY_TIME_MICROS)], addr, 1));
    Lift(ReadIntSpec(p, h, addr, STATUS_HW_ID, U8))
  }

  /** `reset`: write the reset command, then wait for the reboot unless the write failed. */
  function ResetSpec(p: Peripheral, h: seq<Event>, addr: u8): (s: Step<(), SeesawError>)
  {
    var w := WriteIntSpec(p, h, addr, STATUS_SWRST, U8, RESET_COMMAND);
    match w.result
    case Err(e) => Step(w.events, Err(I2c(e)))
    case Ok(_) => Step(w.events + [Delay(RESET_DELAY_MICROS)], Ok(()))
  }

  /** `reset_and_verify_seesaw`: reset, read the hardware id, compare it with the variant's. */
  function ResetAndVerifySpec(p: Peripheral, h: seq<Event>, addr: u8, hw: HardwareId)
    : (s: Step<(), SeesawError>)
  {
    var reset := ResetSpec(p, h, addr);
    if reset.result.Err? then reset
    else
      var id := HardwareIdSpec(p, h + reset.events, addr);
      match id.result
      case Err(e) => Step(reset.events + id.events, Err(e))
      case Ok(x) =>
        Step(reset.events + id.events, if x == hw.ToU8() then Ok(()) else Err(InvalidHardwareId(x)))
  }

  /** The reset command is the byte 0xFF written to the reset register, then the long wait. */
  lemma ResetTrace(p: Peripheral, h: seq<Event>, addr: u8)
    ensures var s := ResetSpec(p, h, addr);
      var w := Write(addr, STATUS_SWRST + [0xFF]);
      && (p.fault(h, w).None? ==>
            s.events == [w, Delay(DELAY_TIME_MICROS), Delay(RESET_DELAY_MICROS)] && s.result == Ok(()))
      && (p.fault(h, w).Some? ==>
            s.events == [w] && s.result == Err(I2c(p.fault(h, w).value)))
  {
    U8Encode(RESET_COMMAND);
  }

  /**
    Verification succeeds exactly when the reset and the id read succeed and
    the id is the variant's; a mismatch reports the byte observed; a failed
    reset is reported before any id read.
  */
  lemma ResetAndVerifyVerdict(p: Peripheral, h: seq<Event>, addr: u8, hw: HardwareId)
    ensures var s := ResetAndVerifySpec(p, h, addr, hw);
      var reset := ResetSpec(p, h, addr);
      var id := HardwareIdSpec(p, h + reset.events, addr);
      && (reset.result.Err? ==> s == reset)
      && (s.result == Ok(()) <==> reset.result.Ok? && id.result == Ok(hw.ToU8()))
      && (forall x: u8 :: s.result == Err(InvalidHardwareId(x)) <==>
            reset.result.Ok? && id.result == Ok(x) && x != hw.ToU8())
      && (reset.result.Ok? ==> s.events == reset.events + id.events)
      && (reset.result.Ok? && id.result.Err? ==> s.result == Err(id.result.error))
  {
  }

  method Capabilities(d: Driver, addr: u8) returns (r: Result<DeviceCapabilities, SeesawError>)
    modifies d
    ensures var s := ReadIntSpec(d.peripheral, old(d.trace), addr, STATUS_OPTIONS, U32);
      && d.trace == old(d.trace) + s.events
      && (s.result.Ok? ==> r == Ok(CapabilitiesFrom(s.result.value)))
      && (s.result.Err? ==> r == Err(I2c(s.result.error)))
  {
    var cap := d.ReadInt(addr, STATUS_OPTIONS, U32);
    if cap.Err? {
      return Err(I2c(cap.error));
    }
    r := Ok(CapabilitiesFrom(cap.value));
  }

  method ReadHardwareId(d: Driver, addr: u8) returns (r: Result<u8, SeesawError>)
    modifies d
    ensures var s := HardwareIdSpec(d.peripheral, old(d.trace), addr);
      d.trace == old(d.trace) + s.events && r == s.result
  {
    var id := d.ReadInt(addr, STATUS_HW_ID, U8);
    if id.Err? {
      return Err(I2c(id.error));
    }
    r := Ok(id.value);
  }

  method ProductInfo(d: Driver, addr: u8) returns (r: Result<ProductDateCode, SeesawError>)
    modifies d
    ensures var s := ReadIntSpec(d.peripheral, old(d.trace), addr, STATUS_VERSION, U32);
      && d.trace == old(d.trace) + s.events
      && (s.result.Ok? ==> r == Ok(DateCodeFrom(s.result.value)))
      && (s.result.Err? ==> r == Err(I2c(s.result.error)))
  {
    var version := d.ReadInt(addr, STATUS_VERSION, U32);
    if version.Err? {
      return Err(I2c(version.error));
    }
    r := Ok(DateCodeFrom(version.value));
  }

  method Reset(d: Driver, addr: u8) returns (r: Result<(), SeesawError>)
    modifies d
    ensures var s := ResetSpec(d.peripheral, old(d.trace), addr);
      d.trace == old(d.trace) + s.events && r == s.result
  {
    var w := d.WriteInt(addr, STATUS_SWRST, U8, RESET_COMMAND);
    if w.Err? {
      return Err(I2c(w.error));
    }
    d.DelayUs(RESET_DELAY_MICROS);
    r := Ok(());
  }

  method ResetAndVerifySeesaw(d: Driver, addr: u8, hw: HardwareId) returns (r: Result<(), SeesawError>)
    modifies d
    ensures var s := ResetAndVerifySpec(d.peripheral, old(d.trace), addr, hw);
      d.trace == old(d.trace) + s.events && r == s.result
  {
    var reset := Reset(d, addr);
    if reset.Err? {
      return reset;
    }
    var id := ReadHardwareId(d, addr);
    if id.Err? {
      return Err(id.error);
    }
    if id.value == hw.ToU8() {
      r := Ok(());
    } else {
      r := Err(InvalidHardwareId(id.value));
    }
  }

  method Temp(d: Driver, addr: u8) returns (r: Result<real, SeesawError>)
    modifies d
    ensures var s := ReadIntSpec(d.peripheral, old(d.trace), addr, STATUS_TEMP, U32);
      && d.trace == old(d.trace) + s.events
      && (s.result.Ok? ==> r == Ok(TempFromRaw(s.result.value)))
      && (s.result.Err? ==> r == Err(I2c(s.result.error)))
  {
    var raw := d.ReadInt(addr, STATUS_TEMP, U32);
    if raw.Err? {
      return Err(I2c(raw.error));
    }
    r := Ok(TempFromRaw(raw.value));
  }
}
