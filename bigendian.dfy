/**
  Big-endian marshalling of the fixed-width integers the register accessors
  carry (Rust's `to_be_bytes` / `from_be_bytes`), with the round trip proved
  in both directions for every width.
*/
module BigEndian {
  import opened Common

  /** 256^n: the number of values n bytes can hold. */
  function Pow256(n: nat): (r: nat)
    ensures r >= 1
  {
    if n == 0 then 1 else 256 * Pow256(n - 1)
  }

  /** The integer types the driver reads and writes, tagged by width and signedness. */
  datatype IntKind = U8 | U16 | U32 | U64 | I8 | I16 | I32 | I64 {
    function Bits(): nat {
      match this
      case U8 | I8 => 8
      case U16 | I16 => 16
      case U32 | I32 => 32
      case U64 | I64 => 64
    }

    /** Byte count of the type: `BITS / 8`. */
    function Width(): (w: nat)
      ensures 1 <= w <= 8
    {
      Bits() / 8
    }

    predicate Signed() {
      I8? || I16? || I32? || I64?
    }

    function Min(): int {
      if Signed() then -(Pow256(Width()) / 2) else 0
    }

    function Max(): int {
      if Signed() then Pow256(Width()) / 2 - 1 else Pow256(Width()) - 1
    }

    /** v is a value of this integer type. */
    predicate Contains(v: int) {
      Min() <= v <= Max()
    }
  }

  /** The n bytes of x, most significant first. */
  function BeBytes(x: nat, n: nat): (r: seq<u8>)
    requires x < Pow256(n)
    ensures |r| == n
    decreases n
  {
    if n == 0 then []
    else
      assert x / 256 < Pow256(n - 1);
      BeBytes(x / 256, n - 1) + [x % 256]
  }

  /** The value of a byte string read most significant byte first. */
  function BeValue(s: seq<u8>): (r: nat)
    ensures r < Pow256(|s|)
    decreases |s|
  {
    if s == [] then 0
    else
      var init := BeValue(s[..|s| - 1]);
      assert init * 256 + s[|s| - 1] < Pow256(|s| - 1) * 256 by {
        assert init + 1 <= Pow256(|s| - 1);
        assert (init + 1) * 256 <= Pow256(|s| - 1) * 256;
      }
      init * 256 + s[|s| - 1]
  }

  lemma {:induction false} BeValueOfBeBytes(x: nat, n: nat)
    requires x < Pow256(n)
    ensures BeValue(BeBytes(x, n)) == x
    decreases n
  {
    if n > 0 {
      var r := BeBytes(x, n);
      assert r[..n - 1] == BeBytes(x / 256, n - 1);
      BeValueOfBeBytes(x / 256, n - 1);
    }
  }

  lemma {:induction false} BeBytesOfBeValue(s: seq<u8>)
    ensures BeBytes(BeValue(s), |s|) == s
    decreases |s|
  {
    if s != [] {
      var init := s[..|s| - 1];
      var v := BeValue(s);
      assert v / 256 == BeValue(init) && v % 256 == s[|s| - 1];
      BeBytesOfBeValue(init);
      assert s == init + [s[|s| - 1]];
    }
  }

  /** The first byte is the most significant one: it weighs 256^(n-1). */
  lemma {:induction false} BeValueLeadingByte(s: seq<u8>)
    requires s != []
    ensures BeValue(s) == s[0] * Pow256(|s| - 1) + BeValue(s[1..])
    decreases |s|
  {
    if |s| > 1 {
      var init, tail := s[..|s| - 1], s[1..];
      BeValueLeadingByte(init);
      assert init[1..] == tail[..|tail| - 1];
      var a, p, b, c := s[0], Pow256(|s| - 2), BeValue(init[1..]), s[|s| - 1];
      assert BeValue(init) == a * p + b;
      assert BeValue(tail) == b * 256 + c;
      assert Pow256(|s| - 1) == p * 256;
      assert BeValue(s) == BeValue(init) * 256 + c;
      ShiftByte(a, p, b, c);
    }
  }

  lemma ShiftByte(a: int, p: int, b: int, c: int)
    ensures (a * p + b) * 256 + c == a * (p * 256) + (b * 256 + c)
  {
  }

  /**
    `to_be_bytes`: two's complement for negative values of a signed type.
    The bytes' unsigned value is v itself or v + 256^n, whichever is in
    0 .. 256^n - 1 (so it is v modulo 256^n: see `ToBeBytesMod`).
  */
  function ToBeBytes(k: IntKind, v: int): (r: seq<u8>)
    requires k.Contains(v)
    ensures |r| == k.Width()
    ensures BeValue(r) == v || BeValue(r) == v + Pow256(k.Width())
  {
    var x := if v < 0 then v + Pow256(k.Width()) else v;
    BeValueOfBeBytes(x, k.Width());
    BeBytes(x, k.Width())
  }

  /**
    `from_be_bytes`: the top bit of a signed type's first byte is its sign.
    The value is the one of the type's range that is the bytes' unsigned
    value or that value minus 256^n (so it is congruent to it modulo 256^n:
    see `FromBeBytesMod`).
  */
  function FromBeBytes(k: IntKind, s: seq<u8>): (v: int)
    requires |s| == k.Width()
    ensures k.Contains(v)
    ensures v == BeValue(s) || v == BeValue(s) - Pow256(k.Width())
  {
    var u, p := BeValue(s), Pow256(k.Width());
    if k.Signed() && u >= p / 2 then
      EvenPow256(k.Width());
      u - p
    else u
  }

  /** The encoding's unsigned value is v modulo 256^n. */
  lemma ToBeBytesMod(k: IntKind, v: int)
    requires k.Contains(v)
    ensures BeValue(ToBeBytes(k, v)) == v % Pow256(k.Width())
  {
    Residue(v, BeValue(ToBeBytes(k, v)), Pow256(k.Width()));
  }

  /** A decoded value and the bytes' unsigned value agree modulo 256^n. */
  lemma FromBeBytesMod(k: IntKind, s: seq<u8>)
    requires |s| == k.Width()
    ensures (FromBeBytes(k, s) - BeValue(s)) % Pow256(k.Width()) == 0
  {
    Residue(FromBeBytes(k, s), BeValue(s), Pow256(k.Width()));
  }

  /** An x in 0 .. p - 1 that is v or v + p is v's remainder modulo p; v - x is then a multiple of p. */
  lemma Residue(v: int, x: int, p: int)
    requires 0 <= x < p
    requires x == v || x == v + p
    ensures x == v % p && (v - x) % p == 0
  {
    if x == v {
      assert v == 0 * p + x && v - x == 0 * p + 0;
    } else {
      assert v == -1 * p + x && v - x == -1 * p + 0;
    }
  }

  /** 256^n is even for n >= 1, so a signed range splits it in two halves. */
  lemma EvenPow256(n: nat)
    requires n >= 1
    ensures Pow256(n) / 2 * 2 == Pow256(n)
  {
    assert Pow256(n) == 256 * Pow256(n - 1);
  }

  /** -1 of a 32-bit signed type is four 0xFF bytes, and back. */
  lemma MinusOneI32()
    ensures ToBeBytes(I32, -1) == [0xFF, 0xFF, 0xFF, 0xFF]
    ensures FromBeBytes(I32, [0xFF, 0xFF, 0xFF, 0xFF]) == -1
  {
    assert Pow256(4) == 0x1_0000_0000;
  }

  /** Every value of every width survives marshalling. */
  lemma RoundTrip(k: IntKind, v: int)
    requires k.Contains(v)
    ensures FromBeBytes(k, ToBeBytes(k, v)) == v
  {
    BeValueOfBeBytes(if v < 0 then v + Pow256(k.Width()) else v, k.Width());
  }

  /** Every byte string of the right width is the encoding of exactly one value. */
  lemma RoundTripBytes(k: IntKind, s: seq<u8>)
    requires |s| == k.Width()
    ensures ToBeBytes(k, FromBeBytes(k, s)) == s
  {
    var r := ToBeBytes(k, FromBeBytes(k, s));
    SameUnsignedValue(k, s);
    BeBytesOfBeValue(r);
    BeBytesOfBeValue(s);
  }

  /** Decoding then encoding keeps the bytes' unsigned value. */
  lemma SameUnsignedValue(k: IntKind, s: seq<u8>)
    requires |s| == k.Width()
    ensures BeValue(ToBeBytes(k, FromBeBytes(k, s))) == BeValue(s)
  {
    var p, u, v := Pow256(k.Width()), BeValue(s), FromBeBytes(k, s);
    var x := BeValue(ToBeBytes(k, v));
    if v < 0 {
      assert v + p == u && x == v + p;
    } else {
      assert v == u && x == v;
    }
  }

  /** A u8 is its single byte. */
  lemma U8Byte(s: seq<u8>)
    requires |s| == 1
    ensures FromBeBytes(U8, s) == s[0]
  {
    assert s[..0] == [];
  }

  /** A u8 is written as its single byte. */
  lemma U8Encode(x: u8)
    ensures ToBeBytes(U8, x) == [x]
  {
    assert Pow256(1) == 256;
    assert BeBytes(x, 1) == [] + [x];
  }

  /** A 16-bit word is its high byte followed by its low byte. */
  lemma U16Bytes(hi: u8, lo: u8)
    ensures FromBeBytes(U16, [hi, lo]) == hi * 256 + lo
    ensures ToBeBytes(U16, hi * 256 + lo) == [hi, lo]
  {
    assert [hi, lo][..1] == [hi];
    assert [hi][..0] == [];
    RoundTripBytes(U16, [hi, lo]);
  }
}
