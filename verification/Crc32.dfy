/** CRC-32 as in section 8 of RFC 1952: a bytewise fold with inversion before and after. */
module Crc32 {
  import opened Bytes

  const POLYNOMIAL: bv32 := 0xEDB8_8320
  const ONES: bv32 := 0xFFFF_FFFF

  function Round(c: bv32): bv32 {
    if c & 1 == 1 then POLYNOMIAL ^ (c >> 1) else c >> 1
  }

  function Rounds(c: bv32, n: nat): bv32
    decreases n, c
  {
    if n == 0 then c else Rounds(Round(c), n - 1)
  }

  /** An entry of the IEEE table. */
  function Table(x: bv32): bv32 {
    Rounds(x, 8)
  }

  function Step(c: bv32, x: bv8): bv32 {
    Table((c ^ x as bv32) & 0xFF) ^ (c >> 8)
  }

  function Next(c: bv32, b: byte): bv32 {
    Step(c, Bits(b))
  }

  function Fold<S, T>(f: (S, T) -> S, c: S, p: seq<T>): S {
    if p == [] then c else f(Fold(f, c, p[..|p| - 1]), p[|p| - 1])
  }

  function Invert(c: bv32): bv32 {
    c ^ ONES
  }

  /** crc32.Update with the IEEE table. */
  function Update(c: bv32, p: seq<byte>): bv32 {
    Invert(Fold(Next, Invert(c), p))
  }

  /** crc32.ChecksumIEEE. */
  function Checksum(p: seq<byte>): bv32 {
    Update(0, p)
  }

  /** Byte `i` of a word, counted from the least significant one. */
  function Octet(c: bv32, i: nat): bv8
    requires i < 4
  {
    match i
    case 0 => (c & 0xFF) as bv8
    case 1 => ((c >> 8) & 0xFF) as bv8
    case 2 => ((c >> 16) & 0xFF) as bv8
    case 3 => ((c >> 24) & 0xFF) as bv8
  }

  function Octets(c: bv32): (s: seq<byte>)
    ensures |s| == 4
  {
    seq(4, i requires 0 <= i < 4 => Value(Octet(c, i)))
  }

  /** A word as an unsigned integer. */
  function Unsigned(c: bv32): (v: nat)
    ensures v < TWO_TO_THE_32
  {
    FromLEBound(Octets(c));
    Pow256Values();
    FromLE(Octets(c))
  }

  /** The checksum as the unsigned 32-bit integer the blob stores. */
  function Sum(p: seq<byte>): (c: nat)
    ensures c < TWO_TO_THE_32
  {
    Unsigned(Checksum(p))
  }

  // ----- computing a checksum piece by piece

  lemma {:induction false} FoldConcat<S, T>(f: (S, T) -> S, c: S, a: seq<T>, b: seq<T>)
    ensures Fold(f, c, a + b) == Fold(f, Fold(f, c, a), b)
  {
    if b == [] {
      assert a + b == a;
    } else {
      assert (a + b)[..|a + b| - 1] == a + b[..|b| - 1];
      FoldConcat(f, c, a, b[..|b| - 1]);
    }
  }

  lemma InvertTwice(c: bv32)
    ensures Invert(Invert(c)) == c
  {
  }

  lemma FoldInverted(f: (bv32, byte) -> bv32, c: bv32, a: seq<byte>, b: seq<byte>)
    ensures Invert(Fold(f, Invert(Invert(Fold(f, c, a))), b)) == Invert(Fold(f, c, a + b))
  {
    hide Invert, Fold;
    FoldConcat(f, c, a, b);
    InvertTwice(Fold(f, c, a));
  }

  /** The checksum of a record may be computed piece by piece. */
  lemma Incremental(a: seq<byte>, b: seq<byte>)
    ensures Update(Checksum(a), b) == Checksum(a + b)
  {
    hide Next, Fold, Invert;
    FoldInverted(Next, Invert(0), a, b);
  }

  // ----- running the register backwards

  /** The two words agree on the bits of the mask. */
  predicate Agree(a: bv32, b: bv32, mask: bv32) {
    a & mask == b & mask
  }

  /** Both steps look up the same entry of the table. */
  predicate SameEntry(a: bv32, x: bv8, b: bv32, y: bv8) {
    (a ^ x as bv32) & 0xFF == (b ^ y as bv32) & 0xFF
  }

  lemma Unroll(x: bv32)
    ensures Table(x) == Round(Round(Round(Round(Round(Round(Round(Round(x))))))))
  {
    hide Round;
    var c1 := Round(x);
    var c2 := Round(c1);
    var c3 := Round(c2);
    var c4 := Round(c3);
    var c5 := Round(c4);
    var c6 := Round(c5);
    var c7 := Round(c6);
    assert Rounds(c7, 1) == Round(c7);
    assert Rounds(c5, 3) == Rounds(c6, 2);
    assert Rounds(c3, 5) == Rounds(c4, 4);
    assert Rounds(c1, 7) == Rounds(c2, 6);
  }

  /** The top byte of an entry tells which entry it is. */
  lemma TopInjective(x: bv32, y: bv32)
    requires x <= 0xFF && y <= 0xFF && Table(x) >> 24 == Table(y) >> 24
    ensures x == y
  {
    Unroll(x);
    Unroll(y);
    hide Table, Rounds;
  }

  lemma Back(a: bv32, x: bv8, b: bv32, y: bv8, mask: bv32)
    requires mask & 0xFF00_0000 == 0xFF00_0000
    requires Agree(Step(a, x), Step(b, y), mask)
    ensures SameEntry(a, x, b, y) && Agree(a, b, mask << 8)
  {
    hide Table;
    TopInjective((a ^ x as bv32) & 0xFF, (b ^ y as bv32) & 0xFF);
  }

  lemma SameOctet(c: bv32, x: bv8, y: bv8)
    requires SameEntry(c, x, c, y)
    ensures x == y
  {
  }

  lemma AgreeAll(c: bv32)
    ensures Agree(c, c, 0xFFFF_FFFF)
  {
  }

  /** Four steps determine the four bytes taken. */
  lemma FourBack(c: bv32, x: bv8, x': bv8, x'': bv8, x''': bv8, y: bv8, y': bv8, y'': bv8, y''': bv8)
    requires Step(Step(Step(Step(c, x), x'), x''), x''') == Step(Step(Step(Step(c, y), y'), y''), y''')
    ensures x == y && x' == y' && x'' == y'' && x''' == y'''
  {
    hide Step, SameEntry, Agree;
    var a1, b1 := Step(c, x), Step(c, y);
    var a2, b2 := Step(a1, x'), Step(b1, y');
    var a3, b3 := Step(a2, x''), Step(b2, y'');
    AgreeAll(Step(a3, x'''));
    Back(a3, x''', b3, y''', 0xFFFF_FFFF);
    Back(a2, x'', b2, y'', 0xFFFF_FF00);
    Back(a1, x', b1, y', 0xFFFF_0000);
    Back(c, x, c, y, 0xFF00_0000);
    SameOctet(c, x, y);
    SameOctet(a1, x', y');
    SameOctet(a2, x'', y'');
    SameOctet(a3, x''', y''');
  }

  /** One step determines the word before it. */
  lemma StepBack(c: bv32, d: bv32, x: bv8)
    requires Step(c, x) == Step(d, x)
    ensures c == d
  {
    hide Table;
    TopInjective((c ^ x as bv32) & 0xFF, (d ^ x as bv32) & 0xFF);
  }

  lemma {:induction false} FoldBack(c: bv32, d: bv32, p: seq<byte>)
    requires Fold(Next, c, p) == Fold(Next, d, p)
    ensures c == d
  {
    hide Step, Bits;
    if p != [] {
      var init := p[..|p| - 1];
      StepBack(Fold(Next, c, init), Fold(Next, d, init), Bits(p[|p| - 1]));
      FoldBack(c, d, init);
    }
  }

  lemma FoldFour(c: bv32, s: seq<byte>)
    requires |s| == 4
    ensures Fold(Next, c, s)
         == Step(Step(Step(Step(c, Bits(s[0])), Bits(s[1])), Bits(s[2])), Bits(s[3]))
  {
    hide Step, Bits;
    assert s[..3][..2] == s[..2] && s[..2][..1] == s[..1] && s[..1][..0] == [];
    assert Fold(Next, c, s[..1]) == Step(c, Bits(s[0]));
    assert Fold(Next, c, s[..2]) == Step(Fold(Next, c, s[..1]), Bits(s[1]));
    assert Fold(Next, c, s[..3]) == Step(Fold(Next, c, s[..2]), Bits(s[2]));
  }

  lemma FoldFourBack(c: bv32, s: seq<byte>, t: seq<byte>)
    requires |s| == |t| == 4 && Fold(Next, c, s) == Fold(Next, c, t)
    ensures s == t
  {
    hide Step, Fold, Bits, Value;
    FoldFour(c, s);
    FoldFour(c, t);
    FourBack(c, Bits(s[0]), Bits(s[1]), Bits(s[2]), Bits(s[3]), Bits(t[0]), Bits(t[1]), Bits(t[2]), Bits(t[3]));
    forall i | 0 <= i < 4 ensures s[i] == t[i] {
      ValueOfBits(s[i]);
      ValueOfBits(t[i]);
    }
  }

  // ----- what a CRC is sure to detect

  /** The register after reading `p`, before the final inversion. */
  function Register(p: seq<byte>): bv32 {
    Fold(Next, ONES, p)
  }

  /** The two strings are equal but for the four bytes from `at` on. */
  predicate Burst(p: seq<byte>, q: seq<byte>, at: nat) {
    at + 4 <= |p| == |q| && forall j :: 0 <= j < |p| && !(at <= j < at + 4) ==> p[j] == q[j]
  }

  /** The two strings differ in exactly one byte. */
  predicate OneByte(p: seq<byte>, q: seq<byte>, at: nat) {
    at < |p| == |q| && p[at] != q[at] && forall j :: 0 <= j < |p| && j != at ==> p[j] == q[j]
  }

  /** Damage within four consecutive bytes always changes the register. */
  lemma BurstChanges(p: seq<byte>, q: seq<byte>, at: nat)
    requires Burst(p, q, at) && p != q
    ensures Register(p) != Register(q)
  {
    hide Fold;
    if Register(p) == Register(q) {
      var head, tail := p[..at], p[at + 4..];
      var s, t := p[at..at + 4], q[at..at + 4];
      assert p == head + s + tail && q == head + t + tail;
      FoldConcat(Next, ONES, head + s, tail);
      FoldConcat(Next, ONES, head + t, tail);
      FoldConcat(Next, ONES, head, s);
      FoldConcat(Next, ONES, head, t);
      FoldBack(Fold(Next, ONES, head + s), Fold(Next, ONES, head + t), tail);
      FoldFourBack(Fold(Next, ONES, head), s, t);
    }
  }

  /** What the register holds after a string followed by its own checksum. */
  const RESIDUE: bv32 := 0xDEBB_20E3

  lemma Entries()
    ensures Table(0xFF) == 0x2D02_EF8D && Table(0x72) == 0xBE0B_1010 && Table(0) == 0 && Table(0xED) == 0xDEBB_9EC5
  {
    Unroll(0xFF);
    Unroll(0x72);
    Unroll(0);
    Unroll(0xED);
    hide Table, Rounds;
  }

  lemma Residue(s: bv32, c: bv32)
    requires c == Invert(s)
    ensures Step(Step(Step(Step(s, (c & 0xFF) as bv8), ((c >> 8) & 0xFF) as bv8), ((c >> 16) & 0xFF) as bv8),
                 ((c >> 24) & 0xFF) as bv8) == RESIDUE
  {
    hide Step;
    Residue1(s, c);
    Residue2(s, c);
    Residue3(s, c);
    Residue4(s, c);
  }

  lemma Residue1(s: bv32, c: bv32)
    requires c == Invert(s)
    ensures Step(s, (c & 0xFF) as bv8) == 0x2D02_EF8D ^ (s >> 8)
  {
    Entries();
    hide Table;
  }

  lemma Residue2(s: bv32, c: bv32)
    requires c == Invert(s)
    ensures Step(0x2D02_EF8D ^ (s >> 8), ((c >> 8) & 0xFF) as bv8) == 0xBE26_12FF ^ (s >> 16)
  {
    Entries();
    hide Table;
  }

  lemma Residue3(s: bv32, c: bv32)
    requires c == Invert(s)
    ensures Step(0xBE26_12FF ^ (s >> 16), ((c >> 16) & 0xFF) as bv8) == 0x00BE_2612 ^ (s >> 24)
  {
    Entries();
    hide Table;
  }

  lemma Residue4(s: bv32, c: bv32)
    requires c == Invert(s)
    ensures Step(0x00BE_2612 ^ (s >> 24), ((c >> 24) & 0xFF) as bv8) == RESIDUE
  {
    Entries();
    hide Table;
  }

  lemma OwnChecksum(p: seq<byte>)
    ensures Register(p + Octets(Checksum(p))) == RESIDUE
  {
    hide Step, Fold, Bits, Value;
    var s, c := Register(p), Checksum(p);
    assert Invert(0) == ONES;
    var t := Octets(c);
    FoldConcat(Next, ONES, p, t);
    FoldFour(s, t);
    forall i | 0 <= i < 4 ensures Bits(t[i]) == Octet(c, i) {
      BitsOfValue(Octet(c, i));
    }
    Residue(s, c);
  }

  /** The last four bytes of `r` are the checksum of the others. */
  predicate Checks(r: seq<byte>)
    requires |r| >= 4
  {
    Sum(r[..|r| - 4]) == FromLE(r[|r| - 4..])
  }

  lemma ChecksIff(r: seq<byte>)
    requires |r| >= 4
    ensures Checks(r) <==> Register(r) == RESIDUE
  {
    hide Fold, Octets, Checksum;
    var p, t := r[..|r| - 4], r[|r| - 4..];
    var own := Octets(Checksum(p));
    assert r == p + t;
    OwnChecksum(p);
    FoldConcat(Next, ONES, p, t);
    FoldConcat(Next, ONES, p, own);
    if Register(r) == RESIDUE {
      FoldFourBack(Register(p), t, own);
    }
    if Checks(r) {
      FromLEInjective(t, own);
    }
  }

  lemma OneByteDetected(r: seq<byte>, q: seq<byte>, at: nat)
    requires OneByte(r, q, at) && |r| >= 4 && Checks(r)
    ensures !Checks(q)
  {
    hide Checks;
    BurstDetected(r, q, if at + 4 <= |r| then at else |r| - 4);
  }

  /** A checked string damaged within any four consecutive bytes, checksum included, fails the check. */
  lemma BurstDetected(r: seq<byte>, q: seq<byte>, at: nat)
    requires Burst(r, q, at) && r != q && Checks(r)
    ensures !Checks(q)
  {
    hide Register, Checks;
    ChecksIff(r);
    ChecksIff(q);
    BurstChanges(r, q, at);
  }
}
