/** Bytes and the little-endian integers of the wire format. */
module Bytes {

  newtype byte = x: int | 0 <= x < 256

  const TWO_TO_THE_32 := 0x1_0000_0000
  const TWO_TO_THE_63 := 0x8000_0000_0000_0000
  const TWO_TO_THE_64 := 0x1_0000_0000_0000_0000

  /** The low `width` bytes of `v`, least significant first: what PutUint16/32/64 store. */
  function LE(v: nat, width: nat): (s: seq<byte>)
    ensures |s| == width
  {
    seq(width, i requires 0 <= i < width => Digit(v, i))
  }

  /** Byte `i` of `v`, counted from the least significant one. */
  function Digit(v: nat, i: nat): byte {
    if i == 0 then (v % 256) as byte else Digit(v / 256, i - 1)
  }

  function FromLE(s: seq<byte>): nat {
    if s == [] then 0 else s[0] as nat + 256 * FromLE(s[1..])
  }

  function Pow256(n: nat): (p: nat)
    ensures p > 0
  {
    if n == 0 then 1 else 256 * Pow256(n - 1)
  }

  lemma Pow256Values()
    ensures Pow256(2) == 0x1_0000
    ensures Pow256(4) == TWO_TO_THE_32
    ensures Pow256(8) == TWO_TO_THE_64
  {
    assert Pow256(6) == 0x1_0000 * Pow256(4);
  }

  /** Reading back a stored integer gives its value modulo the field's width. */
  lemma {:induction false} FromLEOfLE(v: nat, width: nat)
    ensures FromLE(LE(v, width)) == v % Pow256(width)
  {
    if width > 0 {
      FromLEOfLE(v / 256, width - 1);
      assert LE(v, width)[1..] == LE(v / 256, width - 1);
      ModByDigit(v, Pow256(width - 1));
    }
  }

  lemma ModByDigit(v: nat, p: nat)
    requires p > 0
    ensures v % 256 + 256 * (v / 256 % p) == v % (256 * p)
  {
    var w := v / 256;
    var q := w / p;
    assert v == 256 * (q * p + w % p) + v % 256;
    assert v == q * (256 * p) + (256 * (w % p) + v % 256);
    DivModUnique(v, 256 * p, q, 256 * (w % p) + v % 256);
  }

  lemma DivModUnique(v: nat, d: nat, q: nat, r: nat)
    requires v == q * d + r && r < d
    ensures v / d == q && v % d == r
  {
    MulMonotone(q + 1, v / d, d);
    MulMonotone(v / d + 1, q, d);
  }

  lemma MulMonotone(a: int, b: int, d: nat)
    ensures a <= b ==> a * d <= b * d
  {
  }

  lemma FromLEBound(s: seq<byte>)
    ensures FromLE(s) < Pow256(|s|)
  {
    if s != [] {
      FromLEBound(s[1..]);
    }
  }

  lemma {:induction false} FromLEInjective(s: seq<byte>, t: seq<byte>)
    requires |s| == |t| && FromLE(s) == FromLE(t)
    ensures s == t
  {
    if s != [] {
      assert s[0] == t[0] && FromLE(s[1..]) == FromLE(t[1..]);
      FromLEInjective(s[1..], t[1..]);
      assert s == [s[0]] + s[1..] && t == [t[0]] + t[1..];
    }
  }

  /** Bytes are what storing the integer they stand for gives back. */
  lemma LEOfFromLE(s: seq<byte>)
    ensures LE(FromLE(s), |s|) == s
  {
    hide LE, FromLE, Pow256;
    FromLEBound(s);
    FromLEOfLE(FromLE(s), |s|);
    DivModUnique(FromLE(s), Pow256(|s|), 0, FromLE(s));
    FromLEInjective(LE(FromLE(s), |s|), s);
  }

  lemma DivDiv(v: nat, p: nat)
    requires p > 0
    ensures v / 256 / p == v / (256 * p)
  {
    var w := v / 256;
    var q := w / p;
    assert v == q * (256 * p) + (256 * (w % p) + v % 256);
    DivModUnique(v, 256 * p, q, 256 * (w % p) + v % 256);
  }

  /** Byte i of a stored integer is its i-th digit in base 256, the least significant one first. */
  lemma {:induction false} LEDigit(v: nat, width: nat, i: nat)
    requires i < width
    ensures LE(v, width)[i] as int == v / Pow256(i) % 256
  {
    if i > 0 {
      LEDigit(v / 256, width, i - 1);
      DivDiv(v, Pow256(i - 1));
    }
  }

  /** The last byte of a stored integer carries the highest weight. */
  lemma {:induction false} FromLESnoc(s: seq<byte>, b: byte)
    ensures FromLE(s + [b]) == FromLE(s) + Pow256(|s|) * b as int
  {
    if s == [] {
      assert (s + [b])[1..] == [];
    } else {
      assert (s + [b])[1..] == s[1..] + [b];
      FromLESnoc(s[1..], b);
      Scaled(Pow256(|s| - 1), b as int);
    }
  }

  lemma Scaled(p: nat, b: int)
    ensures 256 * (p * b) == 256 * p * b
  {
  }

  lemma {:induction false} ZeroDigit(i: nat)
    ensures Digit(0, i) == 0
  {
    if i > 0 {
      ZeroDigit(i - 1);
    }
  }

  lemma FromLE2(v: nat)
    ensures FromLE(LE(v, 2)) == v % 0x1_0000
  {
    Pow256Values();
    FromLEOfLE(v, 2);
  }

  lemma FromLE4(v: nat)
    ensures FromLE(LE(v, 4)) == v % TWO_TO_THE_32
  {
    Pow256Values();
    FromLEOfLE(v, 4);
  }

  lemma FromLE8(v: nat)
    ensures FromLE(LE(v, 8)) == v % TWO_TO_THE_64
  {
    Pow256Values();
    FromLEOfLE(v, 8);
  }

  /** Go's conversion of a uint64 to int64. */
  function Int64(u: nat): int {
    if u < TWO_TO_THE_63 then u else u - TWO_TO_THE_64
  }

  /** Two's-complement wrap-around of a mathematical integer into int64. */
  function Wrap64(x: int): int {
    Int64(x % TWO_TO_THE_64)
  }

  function Zeros(n: nat): (s: seq<byte>)
    ensures |s| == n
  {
    seq(n, _ => 0)
  }

  // ----- bytes as bit-vectors

  predicate Odd(v: nat) {
    v % 2 == 1
  }

  /** `on` becomes the lowest bit below those of `v`. */
  function Put(on: bool, v: nat): nat {
    if on then 2 * v + 1 else 2 * v
  }

  function Pack(a: bool, b: bool, c: bool, d: bool, e: bool, f: bool, g: bool, h: bool): bv8 {
    (if a then 1 else 0) | (if b then 2 else 0) | (if c then 4 else 0) | (if d then 8 else 0) |
    (if e then 16 else 0) | (if f then 32 else 0) | (if g then 64 else 0) | (if h then 128 else 0)
  }

  function Weigh(a: bool, b: bool, c: bool, d: bool, e: bool, f: bool, g: bool, h: bool): byte {
    Put(a, Put(b, Put(c, Put(d, Put(e, Put(f, Put(g, Put(h, 0)))))))) as byte
  }

  /** The bits of a byte, the lowest found first. */
  function Bits(b: byte): bv8 {
    var v := b as nat;
    Pack(Odd(v), Odd(v / 2), Odd(v / 2 / 2), Odd(v / 2 / 2 / 2), Odd(v / 2 / 2 / 2 / 2), Odd(v / 2 / 2 / 2 / 2 / 2),
         Odd(v / 2 / 2 / 2 / 2 / 2 / 2), Odd(v / 2 / 2 / 2 / 2 / 2 / 2 / 2))
  }

  /** The byte with the given bits. */
  function Value(x: bv8): byte {
    Weigh(x & 1 != 0, x & 2 != 0, x & 4 != 0, x & 8 != 0, x & 16 != 0, x & 32 != 0, x & 64 != 0, x & 128 != 0)
  }

  lemma PackedBits(a: bool, b: bool, c: bool, d: bool, e: bool, f: bool, g: bool, h: bool)
    ensures Value(Pack(a, b, c, d, e, f, g, h)) == Weigh(a, b, c, d, e, f, g, h)
  {
    hide Weigh;
  }

  lemma Taken(on: bool, v: nat)
    ensures Put(on, v) / 2 == v && Odd(Put(on, v)) == on
  {
  }

  lemma PutBack(v: nat)
    ensures Put(Odd(v), v / 2) == v
  {
  }

  lemma ValueOfBits(b: byte)
    ensures Value(Bits(b)) == b
  {
    hide Value, Pack, Put, Odd;
    var v := b as nat;
    var v1 := v / 2;
    var v2 := v1 / 2;
    var v3 := v2 / 2;
    var v4 := v3 / 2;
    var v5 := v4 / 2;
    var v6 := v5 / 2;
    var v7 := v6 / 2;
    assert v7 / 2 == 0;
    PutBack(v);
    PutBack(v1);
    PutBack(v2);
    PutBack(v3);
    PutBack(v4);
    PutBack(v5);
    PutBack(v6);
    PutBack(v7);
    PackedBits(Odd(v), Odd(v1), Odd(v2), Odd(v3), Odd(v4), Odd(v5), Odd(v6), Odd(v7));
  }

  lemma WeighedBits(a: bool, b: bool, c: bool, d: bool, e: bool, f: bool, g: bool, h: bool)
    ensures Bits(Weigh(a, b, c, d, e, f, g, h)) == Pack(a, b, c, d, e, f, g, h)
  {
    hide Pack, Put, Odd;
    var v7 := Put(h, 0);
    var v6 := Put(g, v7);
    var v5 := Put(f, v6);
    var v4 := Put(e, v5);
    var v3 := Put(d, v4);
    var v2 := Put(c, v3);
    var v1 := Put(b, v2);
    Taken(h, 0);
    Taken(g, v7);
    Taken(f, v6);
    Taken(e, v5);
    Taken(d, v4);
    Taken(c, v3);
    Taken(b, v2);
    Taken(a, v1);
  }

  lemma BitsOfValue(x: bv8)
    ensures Bits(Value(x)) == x
  {
    hide Bits, Weigh;
    WeighedBits(x & 1 != 0, x & 2 != 0, x & 4 != 0, x & 8 != 0, x & 16 != 0, x & 32 != 0, x & 64 != 0, x & 128 != 0);
  }

  /** Packed bits, read as a number, weigh 1, 2, 4 and so on up to 128. */
  lemma PackedWeight(a: bool, b: bool, c: bool, d: bool, e: bool, f: bool, g: bool, h: bool)
    ensures Pack(a, b, c, d, e, f, g, h) as int == Weigh(a, b, c, d, e, f, g, h) as int
  {
  }

  /** The bits of a byte are those of its value, the lowest bit worth 1. */
  lemma BitsAreValue(b: byte)
    ensures Bits(b) as int == b as int
  {
    hide Value, Pack, Put, Odd, Weigh;
    var v := b as nat;
    ValueOfBits(b);
    var v1 := v / 2;
    var v2 := v1 / 2;
    var v3 := v2 / 2;
    var v4 := v3 / 2;
    var v5 := v4 / 2;
    var v6 := v5 / 2;
    var v7 := v6 / 2;
    PackedWeight(Odd(v), Odd(v1), Odd(v2), Odd(v3), Odd(v4), Odd(v5), Odd(v6), Odd(v7));
    PackedBits(Odd(v), Odd(v1), Odd(v2), Odd(v3), Odd(v4), Odd(v5), Odd(v6), Odd(v7));
  }

  lemma ValueIsBits(x: bv8)
    ensures Value(x) as int == x as int
  {
    hide Value, Bits;
    BitsOfValue(x);
    BitsAreValue(Value(x));
  }
}
