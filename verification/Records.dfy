/** The record layer shared by the three tiers: overlays, records and their bytes. */
module Records {
  import opened Bytes
  import opened Crc32
  import opened Sorting

  const BLOCK_SIZE := 4096
  const L0_RECORD_SIZE := 4104  // index (8) | data (4096)
  const L1_RECORD_SIZE := 4108  // index (8) | data (4096) | crc32 (4)
  /** No slice is longer than 2^63 - 1 bytes, so no base has this many blocks. */
  const MAX_BLOCKS := 0x8_0000_0000_0000

  /** The dirty blocks of a device by block index. */
  type Overlay = map<int, seq<byte>>

  /** Every dirty block is whole and lies in a base of `blocks` blocks. */
  predicate Fits(m: Overlay, blocks: nat) {
    forall k :: k in m ==> 0 <= k < blocks && |m[k]| == BLOCK_SIZE
  }

  /** One position of a record stream as a decoder sees it. */
  datatype Slot =
    | Whole(idx: int, data: seq<byte>, ok: bool)  // all bytes readable; `ok` if its CRC verifies (always at L0)
    | Cut(idx: int)                               // only the index field is readable
    | Gone                                        // not even the index is readable

  function RecordSize(crc: bool): nat {
    if crc then L1_RECORD_SIZE else L0_RECORD_SIZE
  }

  /** Byte offset of record `i`. */
  function Offset(crc: bool, i: nat): nat {
    if crc then i * L1_RECORD_SIZE else i * L0_RECORD_SIZE
  }

  function WholeRecords(crc: bool, len: nat): nat {
    if crc then len / L1_RECORD_SIZE else len / L0_RECORD_SIZE
  }

  function Encode(idx: nat, data: seq<byte>, crc: bool): (r: seq<byte>)
    requires |data| == BLOCK_SIZE
    ensures |r| == RecordSize(crc)
  {
    var r := LE(idx, 8) + data;
    if crc then r + LE(Sum(r), 4) else r
  }

  function ReadIndex(s: seq<byte>): (idx: int)
    requires |s| >= 8
    ensures -TWO_TO_THE_63 <= idx < TWO_TO_THE_63
  {
    FromLEBound(s[..8]);
    Pow256Values();
    Int64(FromLE(s[..8]))
  }

  /** The index field is read as a signed number: its highest bit counts negatively. */
  lemma SignedIndex(s: seq<byte>)
    requires |s| >= 8
    ensures ReadIndex(s) == FromLE(s[..8]) - if s[7] >= 128 then 0x1_0000_0000_0000_0000 else 0
  {
    hide FromLE, Pow256;
    FromLESnoc(s[..7], s[7]);
    assert s[..7] + [s[7]] == s[..8];
    FromLEBound(s[..7]);
    SeventhPower();
  }

  lemma SeventhPower()
    ensures Pow256(7) == 0x100_0000_0000_0000
  {
    assert Pow256(5) == 0x100 * Pow256(4);
    Pow256Values();
    assert Pow256(7) == 0x1_0000 * Pow256(5);
  }

  function Parse(r: seq<byte>, crc: bool): (s: Slot)
    requires |r| == RecordSize(crc)
    ensures s.Whole? && |s.data| == BLOCK_SIZE && s.idx < TWO_TO_THE_63
  {
    Whole(ReadIndex(r), r[8..L0_RECORD_SIZE], crc ==> Sum(r[..L0_RECORD_SIZE]) == FromLE(r[L0_RECORD_SIZE..]))
  }

  function SlotAt(body: seq<byte>, crc: bool, i: nat): (s: Slot)
    requires Offset(crc, i + 1) <= |body|
    ensures s.Whole? && |s.data| == BLOCK_SIZE && s.idx < TWO_TO_THE_63
  {
    Parse(body[Offset(crc, i)..Offset(crc, i + 1)], crc)
  }

  /** The first `n` records of a body. */
  function Slots(body: seq<byte>, crc: bool, n: nat): (s: seq<Slot>)
    requires Offset(crc, n) <= |body|
    ensures |s| == n
  {
    seq(n, i requires 0 <= i < n => SlotAt(body, crc, i))
  }

  /** Every index of `idxs` names a whole block of `m`. */
  predicate Holds(m: Overlay, idxs: seq<int>) {
    forall i :: 0 <= i < |idxs| ==> idxs[i] in m && 0 <= idxs[i] < TWO_TO_THE_63 && |m[idxs[i]]| == BLOCK_SIZE
  }

  /** The records of `idxs`, one after the other. */
  function Flat(m: Overlay, idxs: seq<int>, crc: bool): (r: seq<byte>)
    requires Holds(m, idxs)
    ensures |r| == Offset(crc, |idxs|)
  {
    hide Encode;
    if idxs == [] then []
    else
      var last := idxs[|idxs| - 1];
      Flat(m, idxs[..|idxs| - 1], crc) + Encode(last, m[last], crc)
  }

  ghost function SortedKeys(m: Overlay): seq<int> {
    SortedSet(m.Keys)
  }

  lemma SortedKeysHold(m: Overlay, blocks: nat)
    requires Fits(m, blocks) && blocks <= MAX_BLOCKS
    ensures Holds(m, SortedKeys(m))
    ensures |SortedKeys(m)| == |m| <= blocks
  {
    var keys := SortedKeys(m);
    assert forall i :: 0 <= i < |keys| ==> keys[i] in Elements(keys);
    AscendingCardinality(keys);
    SubsetOfRange(m.Keys, blocks);
  }

  lemma SubsetOfRange(s: set<int>, n: nat)
    requires forall k :: k in s ==> 0 <= k < n
    ensures |s| <= n
  {
    if n > 0 {
      SubsetOfRange(s - {n - 1}, n - 1);
    } else if s != {} {
      var k := Any(s);
      assert false;
    }
  }

  lemma {:induction false} FlatAt(m: Overlay, idxs: seq<int>, crc: bool, i: nat)
    requires Holds(m, idxs) && i < |idxs|
    ensures Flat(m, idxs, crc)[Offset(crc, i)..Offset(crc, i + 1)] == Encode(idxs[i], m[idxs[i]], crc)
  {
    hide Encode;
    var init, last := idxs[..|idxs| - 1], idxs[|idxs| - 1];
    var f, e := Flat(m, init, crc), Encode(last, m[last], crc);
    assert Flat(m, idxs, crc) == f + e;
    if i < |init| {
      FlatAt(m, init, crc, i);
      assert (f + e)[Offset(crc, i)..Offset(crc, i + 1)] == f[Offset(crc, i)..Offset(crc, i + 1)];
    } else {
      assert (f + e)[|f|..|f| + |e|] == e;
    }
  }

  lemma FlatSnoc(m: Overlay, idxs: seq<int>, crc: bool, i: nat)
    requires Holds(m, idxs) && i < |idxs|
    ensures Flat(m, idxs[..i + 1], crc) == Flat(m, idxs[..i], crc) + Encode(idxs[i], m[idxs[i]], crc)
  {
    hide Encode;
    assert idxs[..i + 1][..i] == idxs[..i];
  }

  lemma {:induction false} FlatConcat(m: Overlay, a: seq<int>, b: seq<int>, crc: bool)
    requires Holds(m, a) && Holds(m, b)
    ensures Flat(m, a + b, crc) == Flat(m, a, crc) + Flat(m, b, crc)
  {
    hide Encode;
    if b == [] {
      assert a + b == a;
    } else {
      var init := b[..|b| - 1];
      assert (a + b)[..|a + b| - 1] == a + init;
      FlatConcat(m, a, init, crc);
    }
  }

  /** A record reads back as itself and verifies. */
  lemma ParseEncode(idx: nat, data: seq<byte>, crc: bool)
    requires |data| == BLOCK_SIZE && idx < TWO_TO_THE_63
    ensures Parse(Encode(idx, data, crc), crc) == Whole(idx, data, true)
  {
    hide Sum, LE, FromLE;
    var content := LE(idx, 8) + data;
    var r := Encode(idx, data, crc);
    assert r[..8] == LE(idx, 8);
    assert r[8..L0_RECORD_SIZE] == data;
    assert r[..L0_RECORD_SIZE] == content;
    FromLE8(idx);
    if crc {
      assert r[L0_RECORD_SIZE..] == LE(Sum(content), 4);
      FromLE4(Sum(content));
    }
  }

  /** The slots an intact record stream decodes to. */
  function Intact(m: Overlay, idxs: seq<int>): seq<Slot>
    requires Holds(m, idxs)
  {
    seq(|idxs|, i requires 0 <= i < |idxs| => Whole(idxs[i], m[idxs[i]], true))
  }

  lemma FlatSlots(m: Overlay, idxs: seq<int>, crc: bool, rest: seq<byte>, n: nat)
    requires Holds(m, idxs) && n <= |idxs|
    ensures Offset(crc, n) <= |Flat(m, idxs, crc) + rest|
    ensures Slots(Flat(m, idxs, crc) + rest, crc, n) == Intact(m, idxs)[..n]
  {
    hide Encode, Parse, Flat;
    var body := Flat(m, idxs, crc) + rest;
    forall i | 0 <= i < n ensures SlotAt(body, crc, i) == Whole(idxs[i], m[idxs[i]], true) {
      FlatAt(m, idxs, crc, i);
      assert body[Offset(crc, i)..Offset(crc, i + 1)] == Encode(idxs[i], m[idxs[i]], crc);
      ParseEncode(idxs[i], m[idxs[i]], crc);
    }
  }
}
