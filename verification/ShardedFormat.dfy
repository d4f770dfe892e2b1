/** The L2 tier: what is written, what a damaged blob decodes to, and what is salvaged beyond repair. */
module ShardedFormat {
  import opened Bytes
  import opened Crc32
  import opened Sorting
  import opened Records
  import opened RecordDecoder
  import opened WireFormat
  import opened Erasure
  import opened Geometry
  import opened Shards

  datatype Encoded = Refused(reason: Error) | Blob(bytes: seq<byte>)

  /** The shape chosen for an overlay of `count` blocks when n and k shards are asked for. */
  function ShapeFor(count: nat, n: int, k: int): Shape {
    var plen := Offset(true, count);
    var (data, parity) := Resolve(n, k, plen);
    Shape(data, parity, ShardSize(plen, data), plen)
  }

  lemma ShapeFits(count: nat, n: int, k: int)
    ensures var g := ShapeFor(count, n, k);
            g.n > 0 && g.k > 0 && g.payloadLen == Offset(true, count) <= g.n * g.size &&
            (count > 0 ==> g.size > 0)
  {
    var g := ShapeFor(count, n, k);
    if count > 0 {
      CeilBounds(g.payloadLen, g.n);
    }
  }

  /** Of the shapes the decoder admits, the encoder writes those with parity, and size zero without a payload. */
  lemma WrittenShapes(g: Shape, count: nat, bodyLen: nat)
    requires Admissible(g, count, bodyLen)
    ensures (exists n: int, k: int :: ShapeFor(count, n, k) == g && Encodable(g.n, g.k, g.payloadLen)) <==>
            g.k > 0 && (g.payloadLen == 0 ==> g.size == 0)
  {
    hide ValidGeometry, Slack;
    assert g.payloadLen == Offset(true, count);
    if g.k > 0 && (g.payloadLen == 0 ==> g.size == 0) {
      assert ShapeFor(count, g.n, g.k) == g;
    }
    if n: int, k: int :| ShapeFor(count, n, k) == g {
      ShapeFits(count, n, k);
    }
  }

  /** The largest shard the decoder admits among `total`: it must fit four bytes, and all of them 2^33. */
  function ShardCap(total: nat): nat
    requires total > 0
  {
    Min(0xFFFF_FFFF, 0x2_0000_0000 / total)
  }

  /** The decoder reads a delta back exactly up to this many blocks. */
  lemma DecodableIff(count: nat, n: int, k: int)
    ensures var g := ShapeFor(count, n, k);
            g.n > 0 && g.k > 0 && (Decodable(g) <==> 4108 * count <= g.n * ShardCap(g.n + g.k))
  {
    hide Resolve;
    var g := ShapeFor(count, n, k);
    var total := g.n + g.k;
    ProductIff(total, g.size, 0x2_0000_0000);
    if count > 0 {
      CeilIff(4108 * count, g.n, ShardCap(total));
    } else {
      assert g.n * ShardCap(total) >= 0;
    }
  }

  /** With the default geometry, 1 742 521 blocks. */
  lemma DefaultDecodable(count: nat)
    ensures Decodable(ShapeFor(count, 0, 0)) <==> count <= 1_742_521
  {
    hide Decodable, ShapeFor, ShardCap;
    DefaultCounts(count);
    DecodableIff(count, 0, 0);
    var g := ShapeFor(count, 0, 0);
    Caps(g.n + g.k);
    if count < 10 {
      Roomy(count, g.n, ShardCap(g.n + g.k));
    }
  }

  lemma DefaultCounts(count: nat)
    ensures var g := ShapeFor(count, 0, 0);
            g.n == (if count <= 1 then 1 else if count < 10 then count else 10) && g.k == 2
  {
    DefaultShape(count);
  }

  lemma Caps(total: nat)
    requires 0 < total <= 12
    ensures ShardCap(total) >= 4108 && ShardCap(12) == 715_827_882
  {
  }

  lemma Roomy(count: nat, n: nat, cap: nat)
    requires count <= n && cap >= 4108
    ensures 4108 * count <= n * cap
  {
    MulMonotone(4108, cap, n);
  }

  ghost function PayloadOf(m: Overlay): (p: seq<byte>)
    requires Holds(m, SortedKeys(m)) && |SortedKeys(m)| == |m|
    ensures |p| == Offset(true, |m|)
  {
    Flat(m, SortedKeys(m), true)
  }

  /** The data shards followed by the parity shards; empty shards for an empty payload. */
  ghost function ShardsOf(code: ErasureCode, payload: seq<byte>, g: Shape): (s: seq<Shard>)
    requires WellShaped(code) && g.n > 0 && |payload| == g.payloadLen <= g.n * g.size
    ensures |s| == g.n + g.k && Equal(s, g.size)
  {
    if g.size == 0 then seq(g.n + g.k, _ => [])
    else
      var data := DataShards(payload, g.n, g.size);
      assert Equal(data, g.size);
      data + code.encode(data, g.k)
  }

  ghost function SerializeRs(code: ErasureCode, m: Overlay, n: int, k: int): Encoded
    requires WellShaped(code)
    requires Holds(m, SortedKeys(m)) && |SortedKeys(m)| == |m|
  {
    var g := ShapeFor(|m|, n, k);
    ShapeFits(|m|, n, k);
    if !Encodable(g.n, g.k, g.payloadLen) then Refused(UnsupportedTier)
    else if g.size > 0 && !code.init(g.n, g.k) then Refused(UnsupportedTier)
    else Blob(Header(TIER_L2, |m|) + (Meta(g) + Flatten(Strides(ShardsOf(code, PayloadOf(m), g)))))
  }

  // ----- decoding

  /** What salvage makes of the record at payload offset `off`. */
  function SalvageSlot(slots: seq<ShardSlot>, n: nat, size: nat, off: nat): (s: Slot)
    requires size > 0 && n <= |slots| && SlotsEqual(slots, size)
    ensures s.Whole? ==> |s.data| == BLOCK_SIZE && s.idx < TWO_TO_THE_63
  {
    if SpanIntact(slots, n, size, off, L1_RECORD_SIZE) then
      Parse(Span(slots, n, size, off, L1_RECORD_SIZE), true)
    else if SpanIntact(slots, n, size, off, 8) then
      Cut(ReadIndex(Span(slots, n, size, off, 8)))
    else
      Gone
  }

  function SalvageSlots(slots: seq<ShardSlot>, n: nat, size: nat, payloadLen: nat): seq<Slot>
    requires size > 0 && n <= |slots| && SlotsEqual(slots, size)
  {
    seq(WholeRecords(true, payloadLen), i requires 0 <= i => SalvageSlot(slots, n, size, Offset(true, i)))
  }

  ghost function DecodeShards(code: ErasureCode, slots: seq<ShardSlot>, g: Shape, count: nat, blocks: nat): Result
    requires WellShaped(code) && 1 <= g.n && g.size > 0 && g.payloadLen <= g.n * g.size
    requires |slots| == g.n + g.k && SlotsEqual(slots, g.size)
  {
    if Missing(slots) <= g.k && !code.init(g.n, g.k) then Reject(Corrupt)
    else if Missing(slots) <= g.k && code.reconstruct(slots, g.n).Some? then
      var data := code.reconstruct(slots, g.n).value;
      FlattenLength(data, g.size);
      DecodeRecords(Flatten(data)[..g.payloadLen], true, count, blocks)
    else
      Conclude(SalvageSlots(slots, g.n, g.size, g.payloadLen), blocks)
  }

  lemma AdmissibleShape(g: Shape, count: nat, bodyLen: nat)
    requires Admissible(g, count, bodyLen)
    ensures 1 <= g.n && g.payloadLen <= g.n * g.size && (g.payloadLen > 0 ==> g.size > 0)
  {
  }

  ghost function DecodeRs(code: ErasureCode, body: seq<byte>, count: nat, blocks: nat): Result
    requires WellShaped(code)
  {
    hide ParseMeta, Admissible, ParseSection, DecodeShards, DecodeRecords;
    var parsed := ParseMeta(body, count);
    if parsed.None? then Reject(Corrupt)
    else
      var g := parsed.value;
      if g.payloadLen == 0 then DecodeRecords([], true, count, blocks)
      else
        AdmissibleShape(g, count, |body|);
        SectionEqual(body[META_SIZE..], g.n + g.k, g.size);
        DecodeShards(code, ParseSection(body[META_SIZE..], g.n + g.k, g.size), g, count, blocks)
  }

  // ----- salvage

  /** Salvage reads each record of a payload through whatever shards are left. */
  lemma SalvageSlotIs(slots: seq<ShardSlot>, parity: seq<Shard>, payload: seq<byte>, n: nat, size: nat, i: nat)
    requires size > 0 && |payload| <= n * size && Offset(true, i + 1) <= |payload| && n <= |slots|
    requires Erases(slots, DataShards(payload, n, size) + parity) && SlotsEqual(slots, size)
    ensures var off := Offset(true, i);
            SalvageSlot(slots, n, size, off) ==
              if SpanIntact(slots, n, size, off, L1_RECORD_SIZE) then SlotAt(payload, true, i)
              else if SpanIntact(slots, n, size, off, 8) then Cut(ReadIndex(payload[off..off + 8]))
              else Gone
  {
    hide Erases, DataShards, SpanIntact, SlotsEqual, Span, Parse, ReadIndex;
    var off := Offset(true, i);
    if SpanIntact(slots, n, size, off, L1_RECORD_SIZE) {
      SpanIsPayload(slots, parity, payload, n, size, off, L1_RECORD_SIZE);
    } else if SpanIntact(slots, n, size, off, 8) {
      SpanIsPayload(slots, parity, payload, n, size, off, 8);
    }
  }

  /** With every data shard present, salvage is the ordinary record decoder. */
  lemma SalvageCoincides(slots: seq<ShardSlot>, parity: seq<Shard>, payload: seq<byte>, n: nat, size: nat, blocks: nat)
    requires size > 0 && |payload| <= n * size && |payload| % L1_RECORD_SIZE == 0 && n <= |slots|
    requires Erases(slots, DataShards(payload, n, size) + parity) && SlotsEqual(slots, size)
    requires forall j :: 0 <= j < n ==> slots[j].Some?
    ensures Conclude(SalvageSlots(slots, n, size, |payload|), blocks)
         == DecodeRecords(payload, true, WholeRecords(true, |payload|), blocks)
  {
    hide SalvageSlot, SlotAt, DataShards, Erases, SlotsEqual, Conclude;
    var count := WholeRecords(true, |payload|);
    forall i | 0 <= i < count
      ensures SalvageSlot(slots, n, size, Offset(true, i)) == SlotAt(payload, true, i)
    {
      forall j | Offset(true, i) <= j < Offset(true, i) + L1_RECORD_SIZE ensures Covered(slots, n, size, j) {
        Locate(j, n, size);
      }
      SalvageSlotIs(slots, parity, payload, n, size, i);
    }
    assert SalvageSlots(slots, n, size, |payload|) == LayoutSlots(payload, true, count);
  }

  lemma BeyondRepair(code: ErasureCode, slots: seq<ShardSlot>, g: Shape, count: nat, bodyLen: nat, blocks: nat)
    requires WellShaped(code) && Admissible(g, count, bodyLen) && g.payloadLen > 0 && g.size > 0
    requires |slots| == g.n + g.k && SlotsEqual(slots, g.size) && Missing(slots) > g.k
    ensures var r := DecodeShards(code, slots, g, count, blocks);
            r.Accept? && r.err.Some? && r.err.value.Partial?
  {
    hide Conclude, ValidGeometry, SlotsEqual, SalvageSlot, SalvageSlots, WellShaped;
    PaddingIsSmall(g, count, bodyLen);
    MissingBound(slots, g.n);
    var i :| 0 <= i < g.n && slots[i].None?;
    MulLess(i, g.n - 1, g.size);
    LostShardLosesRecord(slots, g, count, bodyLen, i);
    SalvageReports(slots, g, i * g.size / L1_RECORD_SIZE, blocks);
  }

  /**
   * Beyond the code's power nothing is lost silently, whatever the bytes of the blob: every data shard
   * holds payload bytes, and every payload byte belongs to a record.
   */
  lemma NoSilentLoss(code: ErasureCode, body: seq<byte>, count: nat, blocks: nat)
    requires WellShaped(code)
    requires ParseMeta(body, count).Some? && ParseMeta(body, count).value.payloadLen > 0
    requires var g := ParseMeta(body, count).value;
             Missing(ParseSection(body[META_SIZE..], g.n + g.k, g.size)) > g.k
    ensures var r := DecodeRs(code, body, count, blocks);
            r.Accept? && r.err.Some? && r.err.value.Partial?
  {
    hide ParseMeta, Admissible, ParseSection, DecodeShards, DecodeRecords, WellShaped, SlotsEqual;
    var g := ParseMeta(body, count).value;
    AdmissibleShape(g, count, |body|);
    SectionEqual(body[META_SIZE..], g.n + g.k, g.size);
    BeyondRepair(code, ParseSection(body[META_SIZE..], g.n + g.k, g.size), g, count, |body|, blocks);
  }

  lemma LostShardLosesRecord(slots: seq<ShardSlot>, g: Shape, count: nat, bodyLen: nat, i: nat)
    requires Admissible(g, count, bodyLen) && g.size > 0
    requires g.n <= |slots| && SlotsEqual(slots, g.size)
    requires i < g.n && slots[i].None? && i * g.size < g.payloadLen
    ensures var r := i * g.size / L1_RECORD_SIZE;
            r < WholeRecords(true, g.payloadLen) &&
            !SalvageSlot(slots, g.n, g.size, Offset(true, r)).Whole?
  {
    hide ValidGeometry, SlotsEqual, Span;
    var r := i * g.size / L1_RECORD_SIZE;
    DivModUnique(i * g.size, g.size, i, 0);
    assert !Covered(slots, g.n, g.size, i * g.size);
    assert !SpanIntact(slots, g.n, g.size, Offset(true, r), L1_RECORD_SIZE);
  }

  lemma SalvageReports(slots: seq<ShardSlot>, g: Shape, r: nat, blocks: nat)
    requires g.size > 0 && g.n <= |slots| && SlotsEqual(slots, g.size)
    requires r < WholeRecords(true, g.payloadLen) && !SalvageSlot(slots, g.n, g.size, Offset(true, r)).Whole?
    ensures var c := Conclude(SalvageSlots(slots, g.n, g.size, g.payloadLen), blocks);
            c.Accept? && c.err.Some? && c.err.value.Partial?
  {
    hide SalvageSlot, SlotsEqual;
    LossIsReported(SalvageSlots(slots, g.n, g.size, g.payloadLen), blocks, r);
  }

  // ----- damaged blobs

  /** Every byte of the span lies in a data shard with an intact stride. */
  predicate Readable(ts: seq<seq<byte>>, shards: seq<Shard>, g: Shape, off: nat, len: nat)
    requires g.size > 0 && g.n <= |shards|
  {
    forall j :: off <= j < off + len ==> KeptAt(ts, shards, g, j)
  }

  predicate KeptAt(ts: seq<seq<byte>>, shards: seq<Shard>, g: Shape, off: nat)
    requires g.size > 0 && g.n <= |shards|
  {
    off / g.size < g.n && Kept(ts, shards, off / g.size)
  }

  /** What is left of record `i` of an overlay when only the intact strides among `ts` are. */
  ghost function Remnant(ts: seq<seq<byte>>, shards: seq<Shard>, g: Shape, m: Overlay, idxs: seq<int>, i: nat): Slot
    requires g.size > 0 && g.n <= |shards| && Holds(m, idxs) && i < |idxs|
  {
    if Readable(ts, shards, g, Offset(true, i), L1_RECORD_SIZE) then Whole(idxs[i], m[idxs[i]], true)
    else if Readable(ts, shards, g, Offset(true, i), 8) then Cut(idxs[i])
    else Gone
  }

  ghost function Remnants(ts: seq<seq<byte>>, shards: seq<Shard>, g: Shape, m: Overlay, idxs: seq<int>): (r: seq<Slot>)
    requires g.size > 0 && g.n <= |shards| && Holds(m, idxs)
    ensures |r| == |idxs|
  {
    seq(|idxs|, i requires 0 <= i < |idxs| => Remnant(ts, shards, g, m, idxs, i))
  }

  lemma SurvivorsErase(ts: seq<seq<byte>>, shards: seq<Shard>, size: nat)
    requires Equal(shards, size)
    ensures Erases(Survivors(ts, shards), shards) && SlotsEqual(Survivors(ts, shards), size)
  {
  }

  lemma ReadableIsIntact(ts: seq<seq<byte>>, shards: seq<Shard>, g: Shape, off: nat, len: nat)
    requires g.size > 0 && g.n <= |shards|
    ensures Readable(ts, shards, g, off, len) <==> SpanIntact(Survivors(ts, shards), g.n, g.size, off, len)
  {
    var slots := Survivors(ts, shards);
    hide Kept;
    forall j: nat
      ensures KeptAt(ts, shards, g, j) <==> Covered(slots, g.n, g.size, j)
    {
      if j / g.size < g.n {
        assert slots[j / g.size].Some? <==> Kept(ts, shards, j / g.size);
      }
    }
  }

  lemma RecordSlot(m: Overlay, idxs: seq<int>, i: nat, p: seq<byte>)
    requires Holds(m, idxs) && i < |idxs| && p == Flat(m, idxs, true) && Offset(true, i + 1) <= |p|
    ensures SlotAt(p, true, i) == Whole(idxs[i], m[idxs[i]], true)
    ensures ReadIndex(p[Offset(true, i)..Offset(true, i) + 8]) == idxs[i]
  {
    hide Encode, Flat;
    FlatAt(m, idxs, true, i);
    ParseEncode(idxs[i], m[idxs[i]], true);
    var e := Encode(idxs[i], m[idxs[i]], true);
    EncodedIndex(idxs[i], m[idxs[i]], true, 8);
    SliceOfSlice(p, Offset(true, i), Offset(true, i + 1), 8);
  }

  lemma SalvagedRemnants(ts: seq<seq<byte>>, parity: seq<Shard>, g: Shape, m: Overlay, idxs: seq<int>)
    requires g.size > 0 && Holds(m, idxs) && g.payloadLen == Offset(true, |idxs|) <= g.n * g.size
    requires Equal(parity, g.size)
    ensures var shards := DataShards(Flat(m, idxs, true), g.n, g.size) + parity;
            SlotsEqual(Survivors(ts, shards), g.size) &&
            SalvageSlots(Survivors(ts, shards), g.n, g.size, g.payloadLen) == Remnants(ts, shards, g, m, idxs)
  {
    hide Flat, Survivors, SlotAt, ReadIndex, DataShards, SalvageSlot, Readable, SpanIntact, SlotsEqual, Erases;
    var payload := Flat(m, idxs, true);
    var shards := DataShards(payload, g.n, g.size) + parity;
    var slots := Survivors(ts, shards);
    SurvivorsErase(ts, shards, g.size);
    forall i | 0 <= i < |idxs|
      ensures SalvageSlot(slots, g.n, g.size, Offset(true, i)) == Remnant(ts, shards, g, m, idxs, i)
    {
      SalvageSlotIs(slots, parity, payload, g.n, g.size, i);
      RecordSlot(m, idxs, i, payload);
      ReadableIsIntact(ts, shards, g, Offset(true, i), L1_RECORD_SIZE);
      ReadableIsIntact(ts, shards, g, Offset(true, i), 8);
    }
  }

  /** The indices of the shards with an intact stride. */
  ghost function KeptSet(ts: seq<seq<byte>>, shards: seq<Shard>): set<nat> {
    set i: nat | i < |shards| && Kept(ts, shards, i)
  }

  lemma {:induction false} KeptBound(ts: seq<seq<byte>>, shards: seq<Shard>, size: nat)
    requires Damaged(ts, shards, size) && |shards| <= MAX_TOTAL_SHARDS
    ensures |KeptSet(ts, shards)| <= |ts|
  {
    hide Stride, StrideIndex, StrideOk, Damaged;
    if ts == [] {
      assert KeptSet(ts, shards) == {};
    } else {
      hide Kept;
      var init, t := ts[..|ts| - 1], ts[|ts| - 1];
      DamagedInit(ts, shards, size);
      KeptBound(init, shards, size);
      var a, b := KeptSet(ts, shards), KeptSet(init, shards) + {StrideIndex(t)};
      forall i | i in a ensures i in b {
        assert ts == init + [t];
        KeptSnoc(init, t, shards, i);
        StrideAccepted(i, shards[i], |shards|);
      }
      SubsetCardinality(a, b);
    }
  }

  lemma DamagedInit(ts: seq<seq<byte>>, shards: seq<Shard>, size: nat)
    requires Damaged(ts, shards, size) && ts != []
    ensures Damaged(ts[..|ts| - 1], shards, size) && |ts[|ts| - 1]| >= SHARD_HEADER_SIZE
  {
    hide StrideOk, IsOriginal;
  }

  lemma SubsetCardinality<T>(a: set<T>, b: set<T>)
    requires a <= b
    ensures |a| <= |b|
  {
    assert b == a + (b - a);
  }

  lemma MissingOfKept(ts: seq<seq<byte>>, shards: seq<Shard>)
    ensures Missing(Survivors(ts, shards)) + |KeptSet(ts, shards)| == |shards|
  {
    hide Kept;
    MissingComplement(Survivors(ts, shards), KeptSet(ts, shards));
  }

  /** Every stride is in its place, and damaged at most in its CRC field or in four consecutive data bytes. */
  ghost predicate SpottedStrides(ts: seq<seq<byte>>, shards: seq<Shard>) {
    |ts| == |shards| && forall i :: 0 <= i < |ts| ==> Spotted(ts[i], i, shards[i])
  }

  function UntouchedStrides(ts: seq<seq<byte>>, shards: seq<Shard>): set<nat> {
    set i: nat | i < |ts| && i < |shards| && IsOriginal(ts[i], shards, i)
  }

  /** Such damage is never taken for a shard: it only erases. */
  lemma SpottedErases(ts: seq<seq<byte>>, shards: seq<Shard>, size: nat)
    requires Equal(shards, size) && |shards| <= MAX_TOTAL_SHARDS && SpottedStrides(ts, shards)
    ensures Damaged(ts, shards, size) && UntouchedStrides(ts, shards) <= KeptSet(ts, shards)
  {
    hide StrideOk, Stride, Spotted;
    forall i | 0 <= i < |ts|
      ensures |ts[i]| == SHARD_HEADER_SIZE + size && (IsOriginal(ts[i], shards, i) || !StrideOk(ts[i], |shards|))
    {
      if ts[i] != Stride(i, shards[i]) {
        SpottedRefused(ts[i], i, shards[i], |shards|);
      }
    }
    forall i | i in UntouchedStrides(ts, shards) ensures Kept(ts, shards, i) {
    }
  }

  /** An overlay and a shape the encoder accepts, within the decoder's allocation bounds. */
  ghost predicate Writable(code: ErasureCode, m: Overlay, g: Shape, blocks: nat) {
    WellShaped(code) && Fits(m, blocks) && blocks <= MAX_BLOCKS &&
    Encodable(g.n, g.k, g.payloadLen) && Decodable(g)
  }

  /** The parts of a blob in which shards were lost, damaged, reordered or repeated. */
  ghost predicate Mangled(code: ErasureCode, m: Overlay, g: Shape, ts: seq<seq<byte>>, rest: seq<byte>)
    requires WellShaped(code) && Holds(m, SortedKeys(m)) && |SortedKeys(m)| == |m|
    requires g.n > 0 && Offset(true, |m|) == g.payloadLen <= g.n * g.size
  {
    Damaged(ts, ShardsOf(code, PayloadOf(m), g), g.size) &&
    |rest| < SHARD_HEADER_SIZE + g.size &&
    4 * (META_SIZE + |Flatten(ts) + rest|) < TWO_TO_THE_64
  }

  lemma ReconstructedPayload(payload: seq<byte>, n: nat, size: nat)
    requires |payload| <= n * size
    ensures var f := Flatten(DataShards(payload, n, size)); |payload| <= |f| && f[..|payload|] == payload
  {
    hide DataShards;
    FlattenDataShards(payload, n, size);
  }

  lemma DataReconstructed(code: ErasureCode, payload: seq<byte>, g: Shape, slots: seq<ShardSlot>)
    requires WellShaped(code) && Corrects(code, g.n, g.k) && g.n > 0 && g.size > 0 &&
             |payload| == g.payloadLen <= g.n * g.size
    requires Erases(slots, ShardsOf(code, payload, g)) && Missing(slots) <= g.k
    ensures code.reconstruct(slots, g.n) == Some(DataShards(payload, g.n, g.size))
  {
    hide DataShards, WellShaped, Missing, Erases;
    var data := DataShards(payload, g.n, g.size);
    assert Equal(data, g.size) && Erases(slots, data + code.encode(data, g.k));
  }

  lemma RepairedShards(code: ErasureCode, m: Overlay, g: Shape, slots: seq<ShardSlot>, blocks: nat)
    requires Writable(code, m, g, blocks) && g.size > 0 && g.n > 0
    requires code.init(g.n, g.k) && Corrects(code, g.n, g.k)
    requires Offset(true, |m|) == g.payloadLen <= g.n * g.size
    requires Holds(m, SortedKeys(m)) && |SortedKeys(m)| == |m|
    requires Erases(slots, ShardsOf(code, PayloadOf(m), g)) && SlotsEqual(slots, g.size)
    requires |slots| == g.n + g.k && Missing(slots) <= g.k
    ensures DecodeShards(code, slots, g, |m|, blocks) == Accept(m, None)
  {
    hide DataShards, Flat, DecodeRecords, SlotsEqual, WellShaped, Encodable, Fits, Holds, Corrects, Erases, ShardsOf,
      Missing;
    var payload := PayloadOf(m);
    DataReconstructed(code, payload, g, slots);
    ReconstructedPayload(payload, g.n, g.size);
    FlatDecodes(m, true, blocks);
  }

  /** What the decoder extracts from a mangled blob: exactly the shards with an intact stride. */
  lemma MangledSection(code: ErasureCode, m: Overlay, g: Shape, ts: seq<seq<byte>>, rest: seq<byte>)
    requires WellShaped(code) && Holds(m, SortedKeys(m)) && |SortedKeys(m)| == |m|
    requires g.n > 0 && Offset(true, |m|) == g.payloadLen <= g.n * g.size && g.n + g.k <= MAX_TOTAL_SHARDS
    requires Mangled(code, m, g, ts, rest)
    ensures var shards := ShardsOf(code, PayloadOf(m), g);
            var slots := Survivors(ts, shards);
            ParseSection(Flatten(ts) + rest, g.n + g.k, g.size) == slots &&
            Erases(slots, shards) && SlotsEqual(slots, g.size) &&
            Missing(slots) + |KeptSet(ts, shards)| == g.n + g.k
  {
    hide ShardsOf, PayloadOf, Survivors, KeptSet, Missing, ParseSection;
    var shards := ShardsOf(code, PayloadOf(m), g);
    SectionOfStrides(ts, rest, g.n + g.k, g.size);
    DamagedSection(ts, shards, g.size);
    SurvivorsErase(ts, shards, g.size);
    MissingOfKept(ts, shards);
  }

  lemma ShapeOfOverlay(m: Overlay, n: int, k: int, blocks: nat)
    requires m != map[] && Fits(m, blocks) && blocks <= MAX_BLOCKS
    ensures var g := ShapeFor(|m|, n, k);
            Holds(m, SortedKeys(m)) && |SortedKeys(m)| == |m| <= MAX_BLOCKS &&
            g.n > 0 && g.k > 0 && g.size > 0 && g.payloadLen == Offset(true, |m|) <= g.n * g.size &&
            g == Shape(g.n, g.k, ShardSize(Offset(true, |m|), g.n), Offset(true, |m|))
  {
    SortedKeysHold(m, blocks);
    assert |m| > 0;
    ShapeFits(|m|, n, k);
  }

  /** The decoder gets as far as the shards exactly when enough of the section is there. */
  lemma MangledBody(code: ErasureCode, m: Overlay, g: Shape, ts: seq<seq<byte>>, rest: seq<byte>, blocks: nat)
    requires Holds(m, SortedKeys(m)) && |SortedKeys(m)| == |m| <= MAX_BLOCKS && |m| > 0
    requires g.n > 0 && g.k > 0 && g.size > 0 && g.payloadLen == Offset(true, |m|) <= g.n * g.size
    requires g == Shape(g.n, g.k, ShardSize(Offset(true, |m|), g.n), Offset(true, |m|))
    requires Writable(code, m, g, blocks) && Mangled(code, m, g, ts, rest)
    ensures var slots := Survivors(ts, ShardsOf(code, PayloadOf(m), g));
            SlotsEqual(slots, g.size) &&
            DecodeRs(code, Meta(g) + (Flatten(ts) + rest), |m|, blocks) ==
              if Slack(g, META_SIZE + |Flatten(ts) + rest|) then DecodeShards(code, slots, g, |m|, blocks)
              else Reject(Corrupt)
  {
    hide ShardsOf, PayloadOf, Survivors, KeptSet, Missing, ParseSection, Meta, ParseMeta, Flatten, Fits, DecodeShards,
      Slack;
    var sect := Flatten(ts) + rest;
    EncoderDecoderAgree(g.n, g.k, |m|, sect);
    MangledSection(code, m, g, ts, rest);
    assert (Meta(g) + sect)[META_SIZE..] == sect;
  }

  /**
   * Erasure tolerance: any n of the n + k shards, in any order and among any damaged ones, give back
   * exactly the overlay and no error.
   */
  lemma ErasureTolerance(
    code: ErasureCode, m: Overlay, n: int, k: int, ts: seq<seq<byte>>, rest: seq<byte>, blocks: nat)
    requires m != map[] && Writable(code, m, ShapeFor(|m|, n, k), blocks)
    requires var g := ShapeFor(|m|, n, k); code.init(g.n, g.k) && Corrects(code, g.n, g.k)
    requires Holds(m, SortedKeys(m)) && |SortedKeys(m)| == |m|
    requires var g := ShapeFor(|m|, n, k);
             g.n > 0 && Offset(true, |m|) == g.payloadLen <= g.n * g.size && Mangled(code, m, g, ts, rest) &&
             |KeptSet(ts, ShardsOf(code, PayloadOf(m), g))| >= g.n
    ensures var g := ShapeFor(|m|, n, k);
            DecodeRs(code, Meta(g) + (Flatten(ts) + rest), |m|, blocks) == Accept(m, None)
  {
    hide ShapeFor, ShardsOf, PayloadOf, Survivors, KeptSet, Missing, Flatten, Meta, DecodeRs, DecodeShards, Damaged,
      Slack;
    var g := ShapeFor(|m|, n, k);
    var shards := ShardsOf(code, PayloadOf(m), g);
    ShapeOfOverlay(m, n, k, blocks);
    MangledBody(code, m, g, ts, rest, blocks);
    MangledSection(code, m, g, ts, rest);
    EnoughStrides(ts, shards, g, rest);
    RepairedShards(code, m, g, Survivors(ts, shards), blocks);
  }

  lemma EnoughStrides(ts: seq<seq<byte>>, shards: seq<Shard>, g: Shape, rest: seq<byte>)
    requires g.n > 0 && Encodable(g.n, g.k, g.payloadLen) && |shards| == g.n + g.k
    requires Damaged(ts, shards, g.size) && |KeptSet(ts, shards)| >= g.n
    requires 4 * (META_SIZE + |Flatten(ts) + rest|) < TWO_TO_THE_64
    ensures Slack(g, META_SIZE + |Flatten(ts) + rest|)
  {
    hide KeptSet, Flatten;
    KeptBound(ts, shards, g.size);
    FlattenLength(ts, SHARD_HEADER_SIZE + g.size);
    SlackSuffices(g.n, g.k, g.payloadLen, g.size, |ts|, META_SIZE + |Flatten(ts) + rest|);
  }

  /**
   * Exact salvage accounting: with fewer than n shards left, exactly the records wholly inside intact data
   * shards are applied, exactly the lost records whose index survives are named, and the loss is flagged
   * exactly when some index is gone. A blob cut to less than a quarter is refused.
   */
  lemma SalvageAccounted(
    code: ErasureCode, m: Overlay, n: int, k: int, ts: seq<seq<byte>>, rest: seq<byte>, blocks: nat)
    requires m != map[] && Writable(code, m, ShapeFor(|m|, n, k), blocks)
    requires Holds(m, SortedKeys(m)) && |SortedKeys(m)| == |m|
    requires var g := ShapeFor(|m|, n, k);
             g.n > 0 && Offset(true, |m|) == g.payloadLen <= g.n * g.size && Mangled(code, m, g, ts, rest) &&
             |KeptSet(ts, ShardsOf(code, PayloadOf(m), g))| < g.n
    ensures var g := ShapeFor(|m|, n, k);
            g.size > 0 &&
            var left := Remnants(ts, ShardsOf(code, PayloadOf(m), g), g, m, SortedKeys(m));
            DecodeRs(code, Meta(g) + (Flatten(ts) + rest), |m|, blocks) ==
              if Slack(g, META_SIZE + |Flatten(ts) + rest|) then
                Accept(Surviving(left, m, SortedKeys(m)), Verdict(Named(left, SortedKeys(m)), Gone in left))
              else Reject(Corrupt)
  {
    hide ShapeFor, ShardsOf, PayloadOf, Survivors, KeptSet, Missing, Flatten, Meta, DecodeRs, DecodeShards, Damaged,
      Slack,
      Remnants, Surviving, Named;
    var g := ShapeFor(|m|, n, k);
    var keys, shards := SortedKeys(m), ShardsOf(code, PayloadOf(m), g);
    ShapeOfOverlay(m, n, k, blocks);
    MangledBody(code, m, g, ts, rest, blocks);
    MangledSection(code, m, g, ts, rest);
    SalvagedShards(code, m, g, ts, blocks);
  }

  lemma SalvagedShards(code: ErasureCode, m: Overlay, g: Shape, ts: seq<seq<byte>>, blocks: nat)
    requires Writable(code, m, g, blocks) && g.size > 0 && g.n > 0
    requires Offset(true, |m|) == g.payloadLen <= g.n * g.size
    requires Holds(m, SortedKeys(m)) && |SortedKeys(m)| == |m|
    requires var shards := ShardsOf(code, PayloadOf(m), g);
             SlotsEqual(Survivors(ts, shards), g.size) && Missing(Survivors(ts, shards)) > g.k
    ensures var shards := ShardsOf(code, PayloadOf(m), g);
            var left := Remnants(ts, shards, g, m, SortedKeys(m));
            DecodeShards(code, Survivors(ts, shards), g, |m|, blocks) ==
              Accept(Surviving(left, m, SortedKeys(m)), Verdict(Named(left, SortedKeys(m)), Gone in left))
  {
    hide DataShards, Flat, Remnants, Survivors, Missing, Surviving, Named, SlotsEqual, SalvageSlots, Conclude,
      Encodable;
    var keys, payload := SortedKeys(m), PayloadOf(m);
    var data := DataShards(payload, g.n, g.size);
    var parity := code.encode(data, g.k);
    assert Equal(data, g.size);
    SalvagedRemnants(ts, parity, g, m, keys);
    RemnantsHoled(ts, data + parity, g, m, keys);
    assert forall i :: 0 <= i < |keys| ==> keys[i] in Elements(keys);
    HoledConcludes(Remnants(ts, data + parity, g, m, keys), m, keys, blocks);
  }

  lemma RemnantsHoled(ts: seq<seq<byte>>, shards: seq<Shard>, g: Shape, m: Overlay, idxs: seq<int>)
    requires g.size > 0 && g.n <= |shards| && Holds(m, idxs)
    ensures Holed(Remnants(ts, shards, g, m, idxs), m, idxs)
  {
  }

  // ----- a section of full length

  lemma SectionBound(g: Shape)
    requires Decodable(g) && Encodable(g.n, g.k, g.payloadLen)
    ensures (g.n + g.k) * (SHARD_HEADER_SIZE + g.size) < 0x2_0000_0200
  {
    assert (g.n + g.k) * (SHARD_HEADER_SIZE + g.size) == (g.n + g.k) * SHARD_HEADER_SIZE + (g.n + g.k) * g.size;
  }

  /** A shape that the encoder chose for an overlay and that the decoder can read back. */
  ghost predicate ShapedFor(m: Overlay, g: Shape) {
    Holds(m, SortedKeys(m)) && 0 < |m| == |SortedKeys(m)| <= MAX_BLOCKS &&
    g.n > 0 && g.k > 0 && g.size > 0 && g.payloadLen == Offset(true, |m|) <= g.n * g.size &&
    g == Shape(g.n, g.k, ShardSize(Offset(true, |m|), g.n), Offset(true, |m|)) &&
    Encodable(g.n, g.k, g.payloadLen) && Decodable(g)
  }

  /** Whatever a section of full length holds, the decoder gets as far as the shards. */
  lemma FullSection(code: ErasureCode, m: Overlay, g: Shape, sect: seq<byte>, blocks: nat)
    requires WellShaped(code) && ShapedFor(m, g) && |sect| == (g.n + g.k) * (SHARD_HEADER_SIZE + g.size)
    ensures var slots := ParseSection(sect, g.n + g.k, g.size);
            SlotsEqual(slots, g.size) &&
            DecodeRs(code, Meta(g) + sect, |m|, blocks) == DecodeShards(code, slots, g, |m|, blocks)
  {
    hide WellShaped, Meta, ParseMeta, ParseSection, DecodeShards, Slack, Holds, ShardSize, Encodable, SlotsEqual;
    SectionBound(g);
    SlackSuffices(g.n, g.k, g.payloadLen, g.size, g.n + g.k, META_SIZE + |sect|);
    EncoderDecoderAgree(g.n, g.k, |m|, sect);
    SectionEqual(sect, g.n + g.k, g.size);
    assert (Meta(g) + sect)[META_SIZE..] == sect;
  }

  /** A section of full length that only erases shards, no more than k of them, gives back the overlay. */
  lemma FullSectionRepaired(code: ErasureCode, m: Overlay, g: Shape, ts: seq<seq<byte>>, blocks: nat)
    requires ShapedFor(m, g) && Writable(code, m, g, blocks) && code.init(g.n, g.k) && Corrects(code, g.n, g.k)
    requires |ts| == g.n + g.k && Equal(ts, SHARD_HEADER_SIZE + g.size)
    requires var slots := PlaceAll(ts, g.n + g.k);
             Erases(slots, ShardsOf(code, PayloadOf(m), g)) && Missing(slots) <= g.k
    ensures DecodeRs(code, Meta(g) + Flatten(ts), |m|, blocks) == Accept(m, None)
  {
    hide WellShaped, Meta, DecodeRs, DecodeShards, ShapedFor, ShardsOf, PayloadOf, Erases, Missing, Flatten,
      ParseSection, PlaceAll,
      SlotsEqual, Corrects, Encodable, Decodable, Fits, Equal;
    ShapedFacts(m, g);
    FullSectionSlots(ts, g);
    FullSection(code, m, g, Flatten(ts), blocks);
    RepairedShards(code, m, g, PlaceAll(ts, g.n + g.k), blocks);
  }

  lemma ShapedFacts(m: Overlay, g: Shape)
    requires ShapedFor(m, g)
    ensures Holds(m, SortedKeys(m)) && 0 < |m| == |SortedKeys(m)| <= MAX_BLOCKS && g.n + g.k <= MAX_TOTAL_SHARDS
    ensures g.n > 0 && g.k > 0 && g.size > 0 && g.payloadLen == Offset(true, |m|) <= g.n * g.size
  {
    hide Holds, ValidGeometry, Decodable, ShardSize;
  }

  lemma FullSectionSlots(ts: seq<seq<byte>>, g: Shape)
    requires |ts| == g.n + g.k && Equal(ts, SHARD_HEADER_SIZE + g.size)
    ensures AtLeast(ts, SHARD_HEADER_SIZE) && |Flatten(ts)| == (g.n + g.k) * (SHARD_HEADER_SIZE + g.size)
    ensures ParseSection(Flatten(ts), g.n + g.k, g.size) == PlaceAll(ts, g.n + g.k)
  {
    hide Flatten, ParseSection, PlaceAll;
    FlattenLength(ts, SHARD_HEADER_SIZE + g.size);
    SectionOfStrides(ts, [], g.n + g.k, g.size);
    assert Flatten(ts) + [] == Flatten(ts);
  }

  /** When all data shards are there, it does not matter what the parity slots hold. */
  lemma DataPresent(code: ErasureCode, m: Overlay, g: Shape, slots: seq<ShardSlot>, blocks: nat)
    requires ShapedFor(m, g) && Writable(code, m, g, blocks) && Systematic(code) && code.init(g.n, g.k)
    requires |slots| == g.n + g.k && SlotsEqual(slots, g.size)
    requires forall x :: 0 <= x < g.n ==> slots[x] == Some(DataShards(PayloadOf(m), g.n, g.size)[x])
    ensures DecodeShards(code, slots, g, |m|, blocks) == Accept(m, None)
  {
    hide WellShaped, Systematic, Flat, DataShards, DecodeRecords, Conclude, SalvageSlots, SlotsEqual, Holds,
      Encodable, Missing;
    var payload := PayloadOf(m);
    var data := DataShards(payload, g.n, g.size);
    FlatDecodes(m, true, blocks);
    if Missing(slots) <= g.k && code.reconstruct(slots, g.n).Some? {
      HandedBack(code, slots, data, g.n, g.size);
      ReconstructedPayload(payload, g.n, g.size);
    } else {
      WhateverParity(slots, data, g.k);
      SalvageCoincides(slots, ParityIn(slots, g.n), payload, g.n, g.size, blocks);
    }
  }

  /** What the parity slots hold, right or wrong. */
  function ParityIn(slots: seq<ShardSlot>, n: nat): seq<Shard>
    requires n <= |slots|
  {
    seq(|slots| - n, x requires 0 <= x < |slots| - n => if slots[n + x].Some? then slots[n + x].value else [])
  }

  lemma WhateverParity(slots: seq<ShardSlot>, data: seq<Shard>, k: nat)
    requires |slots| == |data| + k && forall x :: 0 <= x < |data| ==> slots[x] == Some(data[x])
    ensures Erases(slots, data + ParityIn(slots, |data|))
  {
    var parity := ParityIn(slots, |data|);
    forall x | 0 <= x < |slots| && slots[x].Some? ensures slots[x].value == (data + parity)[x] {
      assert x >= |data| ==> (data + parity)[x] == parity[x - |data|];
    }
  }

  lemma HandedBack(code: ErasureCode, slots: seq<ShardSlot>, data: seq<Shard>, n: nat, size: nat)
    requires WellShaped(code) && Systematic(code) && SlotsEqual(slots, size)
    requires 1 <= n == |data| <= |slots| && code.reconstruct(slots, n).Some?
    requires forall x :: 0 <= x < n ==> slots[x] == Some(data[x])
    ensures code.reconstruct(slots, n).value == data
  {
    var back := code.reconstruct(slots, n).value;
    assert |back| == n;
    forall x: nat | x < n ensures back[x] == data[x] {
      assert slots[x].Some?;
    }
  }

  // ----- one changed byte in the section

  /**
   * A changed byte in stride q, the r-th, does no harm: it spoils the CRC or the data, or it leaves an index that
   * names no slot, a slot filled before, or one due the same bytes, or it leaves the data shards alone.
   */
  predicate Repairable(shards: seq<Shard>, n: nat, q: nat, r: nat, j: nat)
    requires q < |shards|
  {
    r >= 2 || j >= |shards| || j < q || q >= n || shards[q] == shards[j]
  }

  /** The index carried by stride `q` of the section. */
  function IndexAt(sect: seq<byte>, size: nat, q: nat): nat {
    var stride := SHARD_HEADER_SIZE + size;
    if (q + 1) * stride <= |sect| then StrideIndex(Piece(sect, stride, q)) else 0
  }

  /** What the decoder makes of a changed byte in stride q, the r-th, after which the stride carries index j. */
  ghost predicate Outcome(
    code: ErasureCode, m: Overlay, g: Shape, shards: seq<Shard>, q: nat, r: nat, j: nat, d: Result,
    blocks: nat)
    requires WellShaped(code) && 1 <= g.n && g.size > 0 && g.payloadLen <= g.n * g.size && |shards| == g.n + g.k
  {
    q < |shards| &&
    if Repairable(shards, g.n, q, r, j) then d == Accept(m, None)
    else
      var slots := ReindexedSlots(shards, q, j, |shards|);
      SlotsEqual(slots, g.size) && !Erases(slots, shards) && d == DecodeShards(code, slots, g, |m|, blocks)
  }

  lemma OneSpotted(shards: seq<Shard>, size: nat, q: nat, t: seq<byte>)
    requires Equal(shards, size) && |shards| <= MAX_TOTAL_SHARDS && q < |shards|
    requires Spotted(t, q, shards[q]) && t != Stride(q, shards[q])
    ensures var ts := Strides(shards)[q := t];
            Equal(ts, SHARD_HEADER_SIZE + size) &&
            var slots := PlaceAll(ts, |shards|); Erases(slots, shards) && Missing(slots) <= 1
  {
    hide Stride, StrideOk, Missing, PlaceAll, Spotted, Kept;
    var ts := Strides(shards)[q := t];
    SpottedRefused(t, q, shards[q], |shards|);
    assert Damaged(ts, shards, size) by {
      forall x | 0 <= x < |shards| && x != q ensures IsOriginal(ts[x], shards, x) {
      }
    }
    DamagedSection(ts, shards, size);
    forall x | 0 <= x < |shards| && x != q ensures Kept(ts, shards, x) {
      KeptHere(ts, shards, x);
    }
    MissingOne(Survivors(ts, shards), q);
  }

  lemma KeptHere(ts: seq<seq<byte>>, shards: seq<Shard>, x: nat)
    requires x < |shards| == |ts| && IsOriginal(ts[x], shards, x)
    ensures Kept(ts, shards, x)
  {
  }

  lemma ThickShards(m: Overlay, g: Shape)
    requires ShapedFor(m, g)
    ensures g.size > MAX_TOTAL_SHARDS
  {
    hide Holds, ValidGeometry, Decodable;
    Thick(g.payloadLen, g.n, g.size);
  }

  /** Byte `off` of a section is byte r of the q-th stride. */
  predicate Lies(off: int, size: nat, q: nat, r: nat) {
    r < SHARD_HEADER_SIZE + size && off == q * (SHARD_HEADER_SIZE + size) + r
  }

  /** One changed byte in the section of a blob, wherever it lies: byte r of the q-th stride. */
  lemma OneByteInSection(
    code: ErasureCode, m: Overlay, g: Shape, shards: seq<Shard>, sect: seq<byte>, off: nat, q: nat, r: nat, blocks: nat)
    requires ShapedFor(m, g) && Writable(code, m, g, blocks)
    requires Systematic(code) && code.init(g.n, g.k) && Corrects(code, g.n, g.k)
    requires shards == ShardsOf(code, PayloadOf(m), g) && OneByte(Flatten(Strides(shards)), sect, off)
    requires Lies(off, g.size, q, r)
    ensures var d := DecodeRs(code, Meta(g) + sect, |m|, blocks);
            Outcome(code, m, g, shards, q, r, IndexAt(sect, g.size, q), d, blocks)
  {
    hide WellShaped, Meta, DecodeRs, DecodeShards, ShapedFor, ShardsOf, PayloadOf, Erases, Missing, Flatten,
      PlaceAll, Strides,
      SlotsEqual, Corrects, Encodable, Decodable, Fits, OneByte, Stride, Spotted, StrideIndex, Systematic, Outcome,
      Repairable;
    ShapedFacts(m, g);
    ThickShards(m, g);
    var stride, ts := SHARD_HEADER_SIZE + g.size, Strides(shards);
    DivModUnique(off, stride, q, r);
    StridesEqual(shards, g.size);
    OneByteLength(Flatten(ts), sect, off);
    FullSectionSlots(ts, g);
    WhereInPieces(|sect|, |ts|, stride, off);
    OneByteInPieces(ts, sect, stride, off, q);
    StrideHit(code, m, g, shards, q, r, Piece(sect, stride, q), blocks);
  }

  /** The same, for stride `q` changed into `t` at its byte `r`. */
  lemma StrideHit(
    code: ErasureCode, m: Overlay, g: Shape, shards: seq<Shard>, q: nat, r: nat, t: seq<byte>, blocks: nat)
    requires ShapedFor(m, g) && Writable(code, m, g, blocks)
    requires Systematic(code) && code.init(g.n, g.k) && Corrects(code, g.n, g.k)
    requires shards == ShardsOf(code, PayloadOf(m), g) && q < |shards| && OneByte(Stride(q, shards[q]), t, r)
    ensures |t| >= SHARD_HEADER_SIZE
    ensures var d := DecodeRs(code, Meta(g) + Flatten(Strides(shards)[q := t]), |m|, blocks);
            Outcome(code, m, g, shards, q, r, StrideIndex(t), d, blocks)
  {
    hide WellShaped, Meta, DecodeRs, DecodeShards, ShapedFor, ShardsOf, PayloadOf, Erases, Missing, Flatten,
      PlaceAll, Strides,
      SlotsEqual, Corrects, Encodable, Decodable, Fits, OneByte, Stride, Spotted, StrideIndex, Systematic;
    ShapedFacts(m, g);
    ThickShards(m, g);
    OneByteLength(Stride(q, shards[q]), t, r);
    OneByteStride(t, q, shards[q], r);
    if r >= 2 {
      OneSpotted(shards, g.size, q, t);
      FullSectionRepaired(code, m, g, Strides(shards)[q := t], blocks);
    } else {
      IndexHit(code, m, g, shards, q, StrideIndex(t), blocks);
    }
  }

  lemma StridesEqual(shards: seq<Shard>, size: nat)
    requires Equal(shards, size)
    ensures Equal(Strides(shards), SHARD_HEADER_SIZE + size)
    ensures forall i :: 0 <= i < |shards| ==> Strides(shards)[i] == Stride(i, shards[i])
  {
    hide Stride;
  }

  /** The same for a stride whose index now reads `j`. */
  lemma IndexHit(code: ErasureCode, m: Overlay, g: Shape, shards: seq<Shard>, q: nat, j: nat, blocks: nat)
    requires ShapedFor(m, g) && Writable(code, m, g, blocks)
    requires Systematic(code) && code.init(g.n, g.k) && Corrects(code, g.n, g.k)
    requires shards == ShardsOf(code, PayloadOf(m), g) && q < |shards| && j < 0x1_0000 && j != q
    ensures var sect := Flatten(Reindexed(shards, q, j));
            if Repairable(shards, g.n, q, 0, j) then DecodeRs(code, Meta(g) + sect, |m|, blocks) == Accept(m, None)
            else
              var slots := ReindexedSlots(shards, q, j, |shards|);
              SlotsEqual(slots, g.size) && !Erases(slots, shards) &&
              DecodeRs(code, Meta(g) + sect, |m|, blocks) == DecodeShards(code, slots, g, |m|, blocks)
  {
    hide WellShaped, Meta, DecodeRs, DecodeShards, ShapedFor, ShardsOf, PayloadOf, Erases, Missing, Flatten,
      PlaceAll, Reindexed,
      SlotsEqual, Corrects, Encodable, Decodable, Fits, ReindexedSlots, Systematic, Equal;
    ShapedFacts(m, g);
    var ts, slots := Reindexed(shards, q, j), ReindexedSlots(shards, q, j, |shards|);
    ReindexedEqual(shards, q, j, g.size);
    ReindexedErases(shards, q, j);
    ReindexedMissing(shards, q, j);
    FullSectionSlots(ts, g);
    FullSection(code, m, g, Flatten(ts), blocks);
    if Erases(slots, shards) {
      FullSectionRepaired(code, m, g, ts, blocks);
    } else if q >= g.n {
      ParityReindexed(code, m, g, shards, q, j);
      DataPresent(code, m, g, slots, blocks);
    }
  }

  lemma ReindexedEqual(shards: seq<Shard>, i: nat, j: nat, size: nat)
    requires Equal(shards, size) && i < |shards|
    ensures Equal(Reindexed(shards, i, j), SHARD_HEADER_SIZE + size)
  {
    hide Stride;
  }

  lemma ParityReindexed(code: ErasureCode, m: Overlay, g: Shape, shards: seq<Shard>, q: nat, j: nat)
    requires WellShaped(code) && Holds(m, SortedKeys(m)) && |SortedKeys(m)| == |m|
    requires g.n > 0 && g.size > 0 && Offset(true, |m|) == g.payloadLen <= g.n * g.size
    requires shards == ShardsOf(code, PayloadOf(m), g) && g.n <= q < |shards| && q < j
    ensures forall x :: 0 <= x < g.n ==>
              ReindexedSlots(shards, q, j, |shards|)[x] == Some(DataShards(PayloadOf(m), g.n, g.size)[x])
  {
    hide DataShards, PayloadOf, WellShaped, ReindexedSlots;
    LowSlots(shards, q, j, g.n);
  }

  lemma LowSlots(shards: seq<Shard>, q: nat, j: nat, n: nat)
    requires n <= q < |shards| && q < j
    ensures forall x :: 0 <= x < n ==> ReindexedSlots(shards, q, j, |shards|)[x] == Some(shards[x])
  {
  }
}
