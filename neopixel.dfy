/**
  The NeoPixel block: output pin and strip length, protocol speed, the
  pixel buffer (one 6-byte frame per pixel: 16-bit byte offset, red, green,
  blue, a zero pad) and the show command.
*/
module NeopixelModule {
  import opened Common
  import opened BigEndian
  import opened Transport
  import opened Errors

  const SET_PIN: Reg := [ModuleId.Neopixel.Id(), 0x01]
  const SET_SPEED: Reg := [ModuleId.Neopixel.Id(), 0x02]
  const SET_LEN: Reg := [ModuleId.Neopixel.Id(), 0x03]
  const SET_BUF: Reg := [ModuleId.Neopixel.Id(), 0x04]
  const SHOW: Reg := [ModuleId.Neopixel.Id(), 0x05]

  /** Wait after configuring the pin, the length or the speed, in microseconds. */
  const SETTLE_MICROS: u32 := 10_000
  /** Wait after the show command, in microseconds. */
  const SHOW_DELAY_MICROS: u32 := 125

  /** The most pixels a strip can have so that every byte offset 3 * n fits in a u16. */
  const MAX_LEDS: nat := 0x5555

  datatype NeopixelSpeed = Khz400 | Khz800

  /** The speed register's value: 0 for 400 kHz, 1 for 800 kHz. */
  function SpeedBit(speed: NeopixelSpeed): (bit: u8)
    ensures bit <= 1
    ensures bit == 0 <==> speed == Khz400
  {
    match speed
    case Khz400 => 0
    case Khz800 => 1
  }

  datatype Rgb = Rgb(r: u8, g: u8, b: u8)

  /**
    The SET_BUF payload for pixel n: the byte offset 3 * n as two bytes, high
    byte first, then the colour and a zero pad byte. `PixelOffsets` proves
    the first two bytes are `u16::to_be_bytes(3 * n)`.
  */
  function PixelFrame(n: nat, c: Rgb): (frame: seq<u8>)
    requires 3 * n <= 0xFFFF
    ensures |frame| == 6 && frame[0] as int * 256 + frame[1] as int == 3 * n
    ensures frame[2..] == [c.r, c.g, c.b, 0]
  {
    [(3 * n) / 256, (3 * n) % 256, c.r, c.g, c.b, 0]
  }

  /** Pixel n's offset bytes are the big-endian u16 3 * n, so distinct pixels sit three bytes apart. */
  lemma PixelOffsets(n: nat, c: Rgb)
    requires 3 * n <= 0xFFFF
    ensures PixelFrame(n, c)[..2] == ToBeBytes(U16, 3 * n)
    ensures FromBeBytes(U16, PixelFrame(n, c)[..2]) == 3 * n
  {
    var frame := PixelFrame(n, c);
    assert frame[..2] == [(3 * n) / 256, (3 * n) % 256];
    U16Bytes((3 * n) / 256, (3 * n) % 256);
  }

  /** A SETTLE_MICROS wait appended to a step that succeeded. */
  function ThenSettle(s: Step<(), BusError>): (t: Step<(), SeesawError>)
    ensures t.result.Ok? <==> s.result.Ok?
  {
    match s.result
    case Ok(_) => Step(s.events + [Delay(SETTLE_MICROS)], Ok(()))
    case Err(e) => Step(s.events, Err(I2c(e)))
  }

  /** `enable_neopixel`: write the pin, wait, write the buffer length 3 * N_LEDS, wait. */
  function EnableSpec(p: Peripheral, h: seq<Event>, addr: u8, pin: u8, nLeds: u16): (s: Step<(), SeesawError>)
    requires nLeds <= MAX_LEDS
  {
    var first := ThenSettle(WriteIntSpec(p, h, addr, SET_PIN, U8, pin));
    if first.result.Err? then first
    else
      var second := ThenSettle(WriteIntSpec(p, h + first.events, addr, SET_LEN, U16, 3 * nLeds));
      Step(first.events + second.events, second.result)
  }

  /** `set_neopixel_speed`: write the speed bit, wait. */
  function SpeedSpec(p: Peripheral, h: seq<Event>, addr: u8, speed: NeopixelSpeed): (s: Step<(), SeesawError>)
  {
    ThenSettle(WriteIntSpec(p, h, addr, SET_SPEED, U8, SpeedBit(speed)))
  }

  /** `set_nth_neopixel_color`: one SET_BUF write of the pixel's frame. */
  function SetNthSpec(p: Peripheral, h: seq<Event>, addr: u8, n: nat, c: Rgb): (s: Step<(), SeesawError>)
    requires 3 * n <= 0xFFFF
  {
    Lift(RegisterWriteSpec(p, h, addr, SET_BUF, PixelFrame(n, c)))
  }

  /**
    The first k iterations of `set_neopixel_colors`: pixel by pixel, in
    order, stopping at the first write that fails.
  */
  function ColorsSpec(p: Peripheral, h: seq<Event>, addr: u8, colors: seq<Rgb>, k: nat): (s: Step<(), SeesawError>)
    requires k <= |colors| <= MAX_LEDS
  {
    if k == 0 then Step([], Ok(()))
    else
      var prefix := ColorsSpec(p, h, addr, colors, k - 1);
      if prefix.result.Err? then prefix
      else
        var last := SetNthSpec(p, h + prefix.events, addr, k - 1, colors[k - 1]);
        Step(prefix.events + last.events, last.result)
  }

  /** `sync_neopixel`: the show command (no payload), then a short wait. */
  function SyncSpec(p: Peripheral, h: seq<Event>, addr: u8): (s: Step<(), SeesawError>)
  {
    var show := RegisterWriteSpec(p, h, addr, SHOW, []);
    match show.result
    case Ok(_) => Step(show.events + [Delay(SHOW_DELAY_MICROS)], Ok(()))
    case Err(e) => Step(show.events, Err(I2c(e)))
  }

  /**
    `enable_neopixel` sends the pin byte, then the length word 3 * N_LEDS
    big-endian, each write followed by the register delay and the 10 ms
    settling wait. It succeeds exactly when neither write faults; a failed
    write ends the call with that write's error.
  */
  lemma EnableTrace(p: Peripheral, h: seq<Event>, addr: u8, pin: u8, nLeds: u16)
    requires nLeds <= MAX_LEDS
    ensures var s := EnableSpec(p, h, addr, pin, nLeds);
      var events := EnableEvents(addr, pin, nLeds);
      var h' := h + events[..3];
      && (p.fault(h, events[0]).Some? ==>
            s.events == [events[0]] && s.result == Err(I2c(p.fault(h, events[0]).value)))
      && (p.fault(h, events[0]).None? && p.fault(h', events[3]).Some? ==>
            s.events == events[..4] && s.result == Err(I2c(p.fault(h', events[3]).value)))
      && (p.fault(h, events[0]).None? && p.fault(h', events[3]).None? ==>
            s.events == events && s.result == Ok(()))
  {
    var events := EnableEvents(addr, pin, nLeds);
    var s := EnableSpec(p, h, addr, pin, nLeds);
    var len := 3 * nLeds;
    U8Encode(pin);
    var first := ThenSettle(WriteIntSpec(p, h, addr, SET_PIN, U8, pin));
    assert WriteIntSpec(p, h, addr, SET_PIN, U8, pin) == RegisterWriteSpec(p, h, addr, SET_PIN, [pin]);
    if p.fault(h, events[0]).None? {
      assert first.events == events[..3];
      U16Bytes(len / 256, len % 256);
      var h' := h + events[..3];
      assert WriteIntSpec(p, h', addr, SET_LEN, U16, len) == RegisterWriteSpec(p, h', addr, SET_LEN, [len / 256, len % 256]);
      if p.fault(h', events[3]).None? {
        assert s.events == events[..3] + [events[3], events[4], events[5]];
      } else {
        assert s.events == events[..3] + [events[3]];
      }
    }
  }

  /** The traffic of an `enable_neopixel` that succeeded. */
  function EnableEvents(addr: u8, pin: u8, nLeds: u16): seq<Event>
    requires nLeds <= MAX_LEDS
  {
    [ Write(addr, SET_PIN + [pin]), Delay(DELAY_TIME_MICROS), Delay(SETTLE_MICROS),
      Write(addr, SET_LEN + [(3 * nLeds) / 256, (3 * nLeds) % 256]), Delay(DELAY_TIME_MICROS), Delay(SETTLE_MICROS) ]
  }

  /**
    A speed change writes the single speed byte, then waits; it succeeds
    exactly when that write does, and otherwise returns the write's error.
  */
  lemma SpeedTrace(p: Peripheral, h: seq<Event>, addr: u8, speed: NeopixelSpeed)
    ensures var s := SpeedSpec(p, h, addr, speed);
      var w := Write(addr, SET_SPEED + [SpeedBit(speed)]);
      && (p.fault(h, w).None? ==>
            s.events == [w, Delay(DELAY_TIME_MICROS), Delay(SETTLE_MICROS)] && s.result == Ok(()))
      && (p.fault(h, w).Some? ==> s.events == [w] && s.result == Err(I2c(p.fault(h, w).value)))
  {
    U8Encode(SpeedBit(speed));
  }

  /**
    The show command is the bare 2-byte register address; it is followed by
    two 125 us waits, the register delay and the explicit one.
  */
  lemma SyncTrace(p: Peripheral, h: seq<Event>, addr: u8)
    ensures var s := SyncSpec(p, h, addr);
      && (s.result.Ok? <==> p.fault(h, Write(addr, SHOW)).None?)
      && (s.result.Ok? ==> s.events == [Write(addr, SHOW), Delay(DELAY_TIME_MICROS), Delay(SHOW_DELAY_MICROS)])
      && (s.result.Err? ==> s.events == [Write(addr, SHOW)])
      && (s.result.Err? ==> s.result == Err(I2c(p.fault(h, Write(addr, SHOW)).value)))
  {
    assert SHOW + [] == SHOW;
  }

  /** The traffic of k pixel writes that all succeeded. */
  function FrameEvents(addr: u8, colors: seq<Rgb>, k: nat): (events: seq<Event>)
    requires k <= |colors| <= MAX_LEDS
    ensures |events| == 2 * k
  {
    if k == 0 then []
    else FrameEvents(addr, colors, k - 1) + [Write(addr, SET_BUF + PixelFrame(k - 1, colors[k - 1])), Delay(DELAY_TIME_MICROS)]
  }

  /** Event 2j of the pixel traffic is pixel j's frame, event 2j + 1 the delay after it. */
  lemma {:induction false} FrameEventsAt(addr: u8, colors: seq<Rgb>, k: nat, j: nat)
    requires j < k <= |colors| <= MAX_LEDS
    ensures FrameEvents(addr, colors, k)[2 * j] == Write(addr, SET_BUF + PixelFrame(j, colors[j]))
    ensures FrameEvents(addr, colors, k)[2 * j + 1] == Delay(DELAY_TIME_MICROS)
    decreases k
  {
    if j < k - 1 {
      FrameEventsAt(addr, colors, k - 1, j);
    }
  }

  /** The number of bus writes in a trace. */
  function Writes(events: seq<Event>): (n: nat)
    ensures n <= |events|
  {
    if events == [] then 0
    else Writes(events[..|events| - 1]) + (if events[|events| - 1].Write? then 1 else 0)
  }

  lemma {:induction false} WritesAppend(a: seq<Event>, b: seq<Event>)
    ensures Writes(a + b) == Writes(a) + Writes(b)
    decreases |b|
  {
    if b == [] {
      assert a + b == a;
    } else {
      var b' := b[..|b| - 1];
      assert (a + b)[..|a + b| - 1] == a + b';
      WritesAppend(a, b');
    }
  }

  /** k pixels that were written successfully took exactly k bus writes. */
  lemma {:induction false} FrameWrites(addr: u8, colors: seq<Rgb>, k: nat)
    requires k <= |colors| <= MAX_LEDS
    ensures Writes(FrameEvents(addr, colors, k)) == k
    decreases k
  {
    if k > 0 {
      var frame := Write(addr, SET_BUF + PixelFrame(k - 1, colors[k - 1]));
      FrameWrites(addr, colors, k - 1);
      WritesAppend(FrameEvents(addr, colors, k - 1), [frame, Delay(DELAY_TIME_MICROS)]);
      assert Writes([frame, Delay(DELAY_TIME_MICROS)]) == 1 by {
        assert [frame, Delay(DELAY_TIME_MICROS)][..1] == [frame];
        assert [frame][..0] == [];
      }
    }
  }

  /**
    The shape of `set_neopixel_colors`: when it succeeds it has written all
    k frames in order; when it fails, it failed on the write of some pixel
    j < k after writing pixels 0 to j - 1, and sent nothing more.
  */
  lemma ColorsShape(p: Peripheral, h: seq<Event>, addr: u8, colors: seq<Rgb>, k: nat)
    requires k <= |colors| <= MAX_LEDS
    ensures var s := ColorsSpec(p, h, addr, colors, k);
      && (s.result.Ok? ==> s.events == FrameEvents(addr, colors, k))
      && (s.result.Err? ==>
            exists j :: 0 <= j < k && FailedAt(p, h, addr, colors, j, s))
  {
    ColorsAllWritten(p, h, addr, colors, k);
    ColorsFailure(p, h, addr, colors, k);
  }

  /** After k successful iterations, the traffic is the k frame writes. */
  lemma {:induction false} ColorsAllWritten(p: Peripheral, h: seq<Event>, addr: u8, colors: seq<Rgb>, k: nat)
    requires k <= |colors| <= MAX_LEDS
    ensures var s := ColorsSpec(p, h, addr, colors, k);
      s.result.Ok? ==> s.events == FrameEvents(addr, colors, k)
    decreases k
  {
    if k > 0 {
      ColorsAllWritten(p, h, addr, colors, k - 1);
    }
  }

  /** A failed run stopped at the first pixel whose write failed. */
  lemma {:induction false} ColorsFailure(p: Peripheral, h: seq<Event>, addr: u8, colors: seq<Rgb>, k: nat)
    requires k <= |colors| <= MAX_LEDS
    ensures var s := ColorsSpec(p, h, addr, colors, k);
      s.result.Err? ==> exists j :: 0 <= j < k && FailedAt(p, h, addr, colors, j, s)
    decreases k
  {
    if k > 0 {
      var prefix, s := ColorsSpec(p, h, addr, colors, k - 1), ColorsSpec(p, h, addr, colors, k);
      if prefix.result.Ok? {
        if s.result.Err? {
          FailedAtLast(p, h, addr, colors, k - 1);
        }
      } else {
        ColorsFailure(p, h, addr, colors, k - 1);
      }
    }
  }

  /** A failure right after j successful iterations is a failure at pixel j. */
  lemma FailedAtLast(p: Peripheral, h: seq<Event>, addr: u8, colors: seq<Rgb>, j: nat)
    requires j < |colors| <= MAX_LEDS
    requires ColorsSpec(p, h, addr, colors, j).result.Ok?
    requires ColorsSpec(p, h, addr, colors, j + 1).result.Err?
    ensures FailedAt(p, h, addr, colors, j, ColorsSpec(p, h, addr, colors, j + 1))
  {
    ColorsAllWritten(p, h, addr, colors, j);
    var frame := Write(addr, SET_BUF + PixelFrame(j, colors[j]));
    var t := h + FrameEvents(addr, colors, j);
    assert p.fault(t, frame).Some?;
    assert ColorsSpec(p, h, addr, colors, j + 1) == Step(FrameEvents(addr, colors, j) + [frame], Err(I2c(p.fault(t, frame).value)));
  }

  /** s stopped at pixel j: pixels before it went through, its own frame write failed. */
  predicate FailedAt(p: Peripheral, h: seq<Event>, addr: u8, colors: seq<Rgb>, j: nat, s: Step<(), SeesawError>)
    requires j < |colors| <= MAX_LEDS
  {
    var frame := Write(addr, SET_BUF + PixelFrame(j, colors[j]));
    && s.events == FrameEvents(addr, colors, j) + [frame]
    && p.fault(h + FrameEvents(addr, colors, j), frame).Some?
    && s.result == Err(I2c(p.fault(h + FrameEvents(addr, colors, j), frame).value))
  }

  /** `enable_neopixel` of a strip of N_LEDS pixels on output pin `pin`. */
  method EnableNeopixel(d: Driver, addr: u8, pin: u8, nLeds: u16) returns (r: Result<(), SeesawError>)
    requires nLeds <= MAX_LEDS
    modifies d
    ensures var s := EnableSpec(d.peripheral, old(d.trace), addr, pin, nLeds);
      d.trace == old(d.trace) + s.events && r == s.result
  {
    var w := d.WriteInt(addr, SET_PIN, U8, pin);
    if w.Err? {
      return Err(I2c(w.error));
    }
    d.DelayUs(SETTLE_MICROS);
    ghost var first := ThenSettle(WriteIntSpec(d.peripheral, old(d.trace), addr, SET_PIN, U8, pin));
    assert d.trace == old(d.trace) + first.events;
    w := d.WriteInt(addr, SET_LEN, U16, 3 * nLeds);
    if w.Err? {
      return Err(I2c(w.error));
    }
    d.DelayUs(SETTLE_MICROS);
    r := Ok(());
  }

  method SetNeopixelSpeed(d: Driver, addr: u8, speed: NeopixelSpeed) returns (r: Result<(), SeesawError>)
    modifies d
    ensures var s := SpeedSpec(d.peripheral, old(d.trace), addr, speed);
      d.trace == old(d.trace) + s.events && r == s.result
  {
    var w := d.WriteInt(addr, SET_SPEED, U8, SpeedBit(speed));
    if w.Err? {
      return Err(I2c(w.error));
    }
    d.DelayUs(SETTLE_MICROS);
    r := Ok(());
  }

  /** `set_nth_neopixel_color`: the pixel index must be below N_LEDS. */
  method SetNthNeopixelColor(d: Driver, addr: u8, nLeds: u16, n: u16, c: Rgb) returns (r: Result<(), SeesawError>)
    requires n < nLeds <= MAX_LEDS
    modifies d
    ensures var s := SetNthSpec(d.peripheral, old(d.trace), addr, n, c);
      d.trace == old(d.trace) + s.events && r == s.result
  {
    var w := d.RegisterWrite(addr, SET_BUF, PixelFrame(n, c));
    if w.Err? {
      return Err(I2c(w.error));
    }
    r := Ok(());
  }

  /** `set_neopixel_color`: pixel 0. */
  method SetNeopixelColor(d: Driver, addr: u8, nLeds: u16, c: Rgb) returns (r: Result<(), SeesawError>)
    requires 0 < nLeds <= MAX_LEDS
    modifies d
    ensures var s := SetNthSpec(d.peripheral, old(d.trace), addr, 0, c);
      d.trace == old(d.trace) + s.events && r == s.result
  {
    r := SetNthNeopixelColor(d, addr, nLeds, 0, c);
  }

  /** `set_neopixel_colors`: one frame write per pixel, in order, up to the first failure. */
  method SetNeopixelColors(d: Driver, addr: u8, colors: seq<Rgb>) returns (r: Result<(), SeesawError>)
    requires |colors| <= MAX_LEDS
    modifies d
    ensures var s := ColorsSpec(d.peripheral, old(d.trace), addr, colors, |colors|);
      d.trace == old(d.trace) + s.events && r == s.result
  {
    ghost var p, h := d.peripheral, d.trace;
    ghost var s := ColorsSpec(p, h, addr, colors, 0);
    r := Ok(());
    var n := 0;
    while n < |colors| && r.Ok?
      invariant n <= |colors|
      invariant s == ColorsSpec(p, h, addr, colors, n)
      invariant d.trace == h + s.events && r == s.result
    {
      ColorsStep(p, h, addr, colors, n);
      var w := d.RegisterWrite(addr, SET_BUF, PixelFrame(n, colors[n]));
      if w.Err? {
        r := Err(I2c(w.error));
      }
      n := n + 1;
      s := ColorsSpec(p, h, addr, colors, n);
    }
    if r.Err? {
      ColorsStop(p, h, addr, colors, n, |colors|);
    }
  }

  /** One more iteration after k successful ones is the frame write of pixel k. */
  lemma ColorsStep(p: Peripheral, h: seq<Event>, addr: u8, colors: seq<Rgb>, k: nat)
    requires k < |colors| <= MAX_LEDS
    requires ColorsSpec(p, h, addr, colors, k).result.Ok?
    ensures var prefix := ColorsSpec(p, h, addr, colors, k);
      var w := RegisterWriteSpec(p, h + prefix.events, addr, SET_BUF, PixelFrame(k, colors[k]));
      ColorsSpec(p, h, addr, colors, k + 1) ==
        Step(prefix.events + w.events, if w.result.Ok? then Ok(()) else Err(I2c(w.result.error)))
  {
  }

  /** Once a write has failed, later iterations add nothing. */
  lemma {:induction false} ColorsStop(p: Peripheral, h: seq<Event>, addr: u8, colors: seq<Rgb>, k: nat, m: nat)
    requires k <= m <= |colors| <= MAX_LEDS
    requires ColorsSpec(p, h, addr, colors, k).result.Err?
    ensures ColorsSpec(p, h, addr, colors, m) == ColorsSpec(p, h, addr, colors, k)
    decreases m
  {
    if k < m {
      ColorsStop(p, h, addr, colors, k, m - 1);
    }
  }

  method SyncNeopixel(d: Driver, addr: u8) returns (r: Result<(), SeesawError>)
    modifies d
    ensures var s := SyncSpec(d.peripheral, old(d.trace), addr);
      d.trace == old(d.trace) + s.events && r == s.result
  {
    var w := d.RegisterWrite(addr, SHOW, []);
    if w.Err? {
      return Err(I2c(w.error));
    }
    d.DelayUs(SHOW_DELAY_MICROS);
    r := Ok(());
  }
}
