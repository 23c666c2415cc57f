/**
  A register-file device that never faults: each register keeps the payload
  last written to it, and a read returns the payload of the register most
  recently addressed. Against it, writing a value of any integer type and
  reading it back yields the value.
*/
module EchoBus {
  import opened Common
  import opened BigEndian
  import opened Transport

  /** The register most recently addressed at addr: the first two bytes of the last write to it. */
  function Latched(h: seq<Event>, addr: u8): Option<seq<u8>>
    decreases |h|
  {
    if h == [] then None
    else
      var e := h[|h| - 1];
      if e.Write? && e.addr == addr && |e.bytes| >= 2 then Some(e.bytes[..2])
      else Latched(h[..|h| - 1], addr)
  }

  /** The payload of the last write to register reg at addr that carried one. */
  function Stored(h: seq<Event>, addr: u8, reg: seq<u8>): seq<u8>
    decreases |h|
  {
    if h == [] then []
    else
      var e := h[|h| - 1];
      if e.Write? && e.addr == addr && |e.bytes| > 2 && e.bytes[..2] == reg then e.bytes[2..]
      else Stored(h[..|h| - 1], addr, reg)
  }

  function EchoByte(h: seq<Event>, addr: u8, i: nat): u8 {
    match Latched(h, addr)
    case None => 0
    case Some(reg) =>
      var payload := Stored(h, addr, reg);
      if i < |payload| then payload[i] else 0
  }

  function Echo(): Peripheral {
    Peripheral((h, e) => None, EchoByte, (h, addr, pin) => false)
  }

  /** write_W followed by read_W of the same register returns the value written. */
  lemma WriteThenRead(h: seq<Event>, addr: u8, reg: Reg, k: IntKind, v: int)
    requires k.Contains(v)
    ensures var w := WriteIntSpec(Echo(), h, addr, reg, k, v);
      && w.result == Ok(())
      && ReadIntSpec(Echo(), h + w.events, addr, reg, k).result == Ok(v)
  {
    var bytes := ToBeBytes(k, v);
    EchoReadsBack(h, addr, reg, bytes);
    RoundTrip(k, v);
  }

  /** After a register write of a non-empty payload, a read of that register returns the payload. */
  lemma EchoReadsBack(h: seq<Event>, addr: u8, reg: Reg, bytes: seq<u8>)
    requires bytes != []
    ensures var w := RegisterWriteSpec(Echo(), h, addr, reg, bytes);
      && w == Step([Write(addr, reg + bytes), Delay(DELAY_TIME_MICROS)], Ok(()))
      && RegisterReadSpec(Echo(), h + w.events, addr, reg, |bytes|).result == Ok(bytes)
  {
    var frame := Write(addr, reg + bytes);
    var h1 := h + [frame, Delay(DELAY_TIME_MICROS)];
    var h2 := h1 + [Write(addr, reg), Delay(DELAY_TIME_MICROS)];
    assert (reg + bytes)[..2] == reg && (reg + bytes)[2..] == bytes;
    assert h2[..|h2| - 1] == h1 + [Write(addr, reg)];
    assert (h1 + [Write(addr, reg)])[..|h1|] == h1;
    assert h1[..|h1| - 1] == h + [frame];
    assert (h + [frame])[..|h|] == h;
    assert reg[..2] == reg;
    assert Latched(h2, addr) == Latched(h1 + [Write(addr, reg)], addr) == Some(reg);
    assert Stored(h2, addr, reg) == Stored(h1 + [Write(addr, reg)], addr, reg)
      == Stored(h1, addr, reg) == Stored(h + [frame], addr, reg) == bytes;
    var data := ReadData(Echo(), h2, addr, |bytes|);
    assert data == bytes by {
      forall i | 0 <= i < |bytes| ensures data[i] == bytes[i] {
        assert data[i] == EchoByte(h2, addr, i);
      }
    }
  }
}
