/**
 * An input on which one changed byte defeats the L2 tier: one dirty block in two data shards, the index of the first
 * rewritten to that of the second.
 */
module Reindexing {
  import opened Bytes
  import opened Crc32
  import opened Sorting
  import opened Records
  import opened RecordDecoder
  import opened WireFormat
  import opened Erasure
  import opened Geometry
  import opened Shards
  import opened ShardedFormat
  import opened Codec
  import Parity

  const HALF := 2054

  /** Block 1, all zeros. */
  function OneBlock(): Overlay {
    map[1 := Zeros(BLOCK_SIZE)]
  }

  function Geometry2(): Shape {
    Shape(2, 1, HALF, L1_RECORD_SIZE)
  }

  lemma OneBlockFits()
    ensures var m := OneBlock();
            Fits(m, 2) && SortedKeys(m) == [1] && Holds(m, [1]) && |m| == 1 && m != map[]
  {
    OneKey();
    Singleton(Zeros(BLOCK_SIZE));
  }

  lemma Singleton(data: seq<byte>)
    requires |data| == BLOCK_SIZE
    ensures var m: Overlay := map[1 := data];
            m.Keys == {1} && |m| == 1 && m != map[] && Fits(m, 2) && Holds(m, [1])
  {
    var m: Overlay := map[1 := data];
    assert m.Keys == {1};
    assert |m.Keys| == |m|;
  }

  lemma OneKey()
    ensures SortedSet({1}) == [1]
  {
    AscendingUnique(SortedSet({1}), [1]);
  }

  lemma OneBlockShape()
    ensures ShapeFor(1, 2, 1) == Geometry2() && Encodable(2, 1, L1_RECORD_SIZE) && Decodable(Geometry2())
  {
  }

  ghost function Record(): (r: seq<byte>)
    ensures |r| == L1_RECORD_SIZE
  {
    Encode(1, Zeros(BLOCK_SIZE), true)
  }

  lemma RecordBytes()
    ensures Record()[0] == 1 && forall i :: 8 <= i < L0_RECORD_SIZE ==> Record()[i] == 0
  {
    hide Sum;
    var r := Record();
    assert r[0] == LE(1, 8)[0] == Digit(1, 0);
    forall i | 8 <= i < L0_RECORD_SIZE ensures r[i] == 0 {
      assert r[i] == Zeros(BLOCK_SIZE)[i - 8];
    }
  }

  /** The two halves of the record and their parity. */
  lemma ThreeShards()
    ensures var m := OneBlock();
            WellShaped(Parity.Code()) && Holds(m, SortedKeys(m)) && |SortedKeys(m)| == |m| &&
            PayloadOf(m) == Record() &&
            ShardsOf(Parity.Code(), PayloadOf(m), Geometry2())
              == [Record()[..HALF], Record()[HALF..]] + Parity.Encode([Record()[..HALF], Record()[HALF..]], 1)
  {
    hide Parity.Encode, Encode, Sum;
    OneBlockFits();
    Parity.WellShapedCode();
    var m := OneBlock();
    var payload, r := PayloadOf(m), Record();
    OneFlat(m);
    assert Padded(payload, 2, HALF) == payload;
    assert DataShards(payload, 2, HALF) == [r[..HALF], r[HALF..]];
  }

  lemma OneFlat(m: Overlay)
    requires Holds(m, [1]) && 1 in m && |m[1]| == BLOCK_SIZE
    ensures Flat(m, [1], true) == Encode(1, m[1], true)
  {
    hide Encode;
    assert [1][..0] == [];
    assert Flat(m, [], true) == [];
  }

  /** The first byte of the section, the low byte of the first index. */
  lemma FirstByte(shards: seq<Shard>, size: nat)
    requires Equal(shards, size) && shards != []
    ensures |Flatten(Strides(shards))| == |shards| * (SHARD_HEADER_SIZE + size) && Flatten(Strides(shards)) != []
    ensures Flatten(Strides(shards))[0] == 0
  {
    hide Flatten, Sum;
    var ts, stride := Strides(shards), SHARD_HEADER_SIZE + size;
    StridesLength(shards, size);
    FlattenPiece(ts, stride, [], 0);
    assert Flatten(ts) + [] == Flatten(ts);
    PieceByte(Flatten(ts), stride, 0, 0);
    assert ts[0][0] == LE(0, 2)[0] == Digit(0, 0);
  }

  /** With that byte set to one, the first stride carries index 1. */
  lemma FirstIndex(shards: seq<Shard>, sect: seq<byte>, size: nat)
    requires Equal(shards, size) && |shards| > 1 && sect == Flatten(Strides(shards))[0 := 1]
    ensures IndexAt(sect, size, 0) == 1
  {
    hide Flatten, Sum, Piece, OneByte;
    var f, ts, stride := Flatten(Strides(shards)), Strides(shards), SHARD_HEADER_SIZE + size;
    FirstByte(shards, size);
    FlattenPiece(ts, stride, [], 0);
    assert f + [] == f;
    PieceByte(f, stride, 0, 1);
    PieceByte(sect, stride, 0, 0);
    PieceByte(sect, stride, 0, 1);
    var t := Piece(sect, stride, 0);
    assert ts[0][1] == LE(0, 2)[1] == Digit(0, 1);
    assert t[0..2] == [1, 0];
    IndexOne();
  }

  lemma IndexOne()
    ensures FromLE([1, 0]) == 1
  {
    assert [1, 0][1..] == [0] && [0][1..] == [];
    assert FromLE([0]) == 0;
  }

  /** The blob with the byte at the start of the section, the low byte of the first shard's index, set to one. */
  ghost function Rewritten(blob: seq<byte>): seq<byte>
    requires |blob| > HEADER_SIZE + META_SIZE
  {
    blob[HEADER_SIZE + META_SIZE := 1]
  }

  /** What the decoder makes of the slots: the halves of the record come out in the wrong order. */
  lemma WrongOrder()
    ensures var r := Record();
            var p := Parity.Encode([r[..HALF], r[HALF..]], 1);
            var slots := [None, Some(r[..HALF]), Some(p[0])];
            |p| == 1 && |p[0]| == HALF && Missing(slots) <= 1 &&
            WellShaped(Parity.Code()) && SlotsEqual(slots, HALF) &&
            var d := DecodeShards(Parity.Code(), slots, Geometry2(), 1, 2);
            d.Accept? && 1 !in d.overlay
  {
    hide Parity.Encode, Parity.Reconstruct, Encode, DecodeRecords;
    var r := Record();
    var a, b := r[..HALF], r[HALF..];
    Parity.Swapped(a, b, HALF);
    Parity.WellShapedCode();
    var slots := [None, Some(a), Some(Parity.Encode([a, b], 1)[0])];
    MissingOne(slots, 0);
    FlattenTwo(b, a);
    assert (b + a)[..L1_RECORD_SIZE] == b + a;
    WrongRecord();
  }

  lemma FlattenTwo(a: seq<byte>, b: seq<byte>)
    ensures Flatten([a, b]) == a + b
  {
    assert [a, b][..1] == [a] && [a][..0] == [];
    assert Flatten([a]) == Flatten([]) + a;
  }

  lemma WrongRecord()
    ensures var r := Record();
            var d := DecodeRecords(r[HALF..] + r[..HALF], true, 1, 2);
            d.Accept? && 1 !in d.overlay
  {
    hide Encode, Parse, Truncated, Blamed, Applied;
    var body := Record()[HALF..] + Record()[..HALF];
    var slots := LayoutSlots(body, true, 1);
    RecordBytes();
    assert forall i :: 0 <= i < 8 ==> body[i] == 0;
    WrongIndex(body);
    assert TailSlots(body, true, 1) == [];
    if 1 in Applied(slots, 2) {
      var i := AppliedFrom(slots, 2, 1);
    }
  }

  lemma WrongIndex(body: seq<byte>)
    requires |body| == L1_RECORD_SIZE && forall i :: 0 <= i < 8 ==> body[i] == 0
    ensures SlotAt(body, true, 0).idx == 0
  {
    hide Sum, FromLE;
    assert body[0..L1_RECORD_SIZE] == body;
    assert body[..8] == Zeros(8);
    ZeroBytes();
  }

  lemma ZeroBytes()
    ensures FromLE(Zeros(8)) == 0
  {
    assert Zeros(8) == LE(0, 8) by {
      forall i | 0 <= i < 8 ensures Digit(0, i) == 0 {
        ZeroDigit(i);
      }
    }
    FromLE8(0);
  }

  /**
   * One changed byte in a blob that the encoder wrote with one parity shard, and the block is not recovered: up to K
   * corrupt shards are not always reconstructed transparently.
   */
  lemma BlockLost()
    ensures var m, code := OneBlock(), Parity.Code();
            WellShaped(code) && Systematic(code) && Corrects(code, 2, 1) &&
            Holds(m, SortedKeys(m)) && |SortedKeys(m)| == |m| &&
            var e := SerializeRs(code, m, 2, 1);
            e.Blob? && |e.bytes| > HEADER_SIZE + META_SIZE &&
            OneByte(e.bytes, Rewritten(e.bytes), HEADER_SIZE + META_SIZE) &&
            var d := Decode(code, Rewritten(e.bytes), 2 * BLOCK_SIZE);
            d.Accept? && 1 !in d.overlay && d != Accept(m, None)
  {
    hide Parity.Encode, Parity.Reconstruct, Encode, SerializeRs, Decode, DecodeShards, ShardsOf, ShapeFor, Systematic,
      WellShaped, Corrects, ReindexedSlots, Missing, Holds, Fits, Repairable, OneByte;
    var m, code, r := OneBlock(), Parity.Code(), Record();
    OneBlockFits();
    OneBlockShape();
    ThreeShards();
    Parity.SystematicCode();
    Parity.CorrectsOne(2);
    var shards := ShardsOf(code, PayloadOf(m), Geometry2());
    TheSlots(shards);
    WrongOrder();
    Misread(code, m, shards);
  }

  lemma Misread(code: ErasureCode, m: Overlay, shards: seq<Shard>)
    requires WellShaped(code) && Systematic(code) && Corrects(code, 2, 1) && code.init(2, 1)
    requires Fits(m, 2) && Holds(m, SortedKeys(m)) && |SortedKeys(m)| == |m| == 1
    requires |PayloadOf(m)| == L1_RECORD_SIZE && shards == ShardsOf(code, PayloadOf(m), Geometry2())
    requires !Repairable(shards, 2, 0, 0, 1)
    ensures var e, slots := SerializeRs(code, m, 2, 1), ReindexedSlots(shards, 0, 1, 3);
            e.Blob? && |e.bytes| > HEADER_SIZE + META_SIZE &&
            OneByte(e.bytes, Rewritten(e.bytes), HEADER_SIZE + META_SIZE) && SlotsEqual(slots, HALF) &&
            Decode(code, Rewritten(e.bytes), 2 * BLOCK_SIZE) == DecodeShards(code, slots, Geometry2(), 1, 2)
  {
    hide Strides, Flatten, Decode, DecodeRs, DecodeShards, Header, Meta, ShardsOf, PayloadOf, ShapeFor, Systematic,
      WellShaped, Corrects, ReindexedSlots, IndexAt, Holds, Fits, Repairable;
    OneBlockShape();
    var sect := Flatten(Strides(shards));
    FirstByte(shards, HALF);
    var blob := Header(TIER_L2, 1) + (Meta(Geometry2()) + sect);
    assert SerializeRs(code, m, 2, 1) == Blob(blob);
    assert blob[HEADER_SIZE + META_SIZE..] == sect;
    assert Rewritten(blob)[HEADER_SIZE + META_SIZE..] == sect[0 := 1];
    FirstIndex(shards, sect[0 := 1], HALF);
    RsOneByteChanged(code, m, 2, 1, 2 * BLOCK_SIZE, Rewritten(blob), HEADER_SIZE + META_SIZE, 0, 0);
  }

  lemma TheSlots(shards: seq<Shard>)
    requires |shards| == 3 && Equal(shards, HALF) && shards[0] == Record()[..HALF] && shards[1] == Record()[HALF..]
    ensures ReindexedSlots(shards, 0, 1, 3) == [None, Some(shards[0]), Some(shards[2])]
    ensures !Repairable(shards, 2, 0, 0, 1)
  {
    hide Encode;
    RecordBytes();
    assert shards[0][0] == 1 && shards[1][0] == 0;
  }
}
