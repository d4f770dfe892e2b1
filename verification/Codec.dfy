/** Whole blobs at every tier: what SerializeTier writes and what Deserialize makes of any bytes. */
module Codec {
  import opened Bytes
  import opened Crc32
  import opened Records
  import opened RecordDecoder
  import opened WireFormat
  import opened Erasure
  import opened Geometry
  import opened Shards
  import opened ShardedFormat

  ghost function Serialize(code: ErasureCode, m: Overlay, tier: byte): Encoded
    requires WellShaped(code)
    requires Holds(m, SortedKeys(m)) && |SortedKeys(m)| == |m|
  {
    if tier == TIER_L0 || tier == TIER_L1 then
      Blob(Header(tier, |m|) + Flat(m, SortedKeys(m), tier == TIER_L1))
    else if tier == TIER_L2 then SerializeRs(code, m, 0, 0)
    else Refused(UnsupportedTier)
  }

  /** Deserialize onto a base of `baseLen` bytes. */
  ghost function Decode(code: ErasureCode, blob: seq<byte>, baseLen: nat): Result
    requires WellShaped(code)
  {
    if baseLen % BLOCK_SIZE != 0 || !Recognized(blob) then Reject(Corrupt)
    else if !HeaderVerifies(blob) then
      if blob[5] == TIER_L1 || blob[5] > TIER_L2 then
        DecodeHeaderless(blob[HEADER_SIZE..], baseLen / BLOCK_SIZE)
      else Reject(Corrupt)
    else DecodeBody(code, blob[5], blob[HEADER_SIZE..], BlockCount(blob), baseLen / BLOCK_SIZE)
  }

  /** The body behind a verified header. */
  ghost function DecodeBody(code: ErasureCode, tier: byte, body: seq<byte>, count: nat, blocks: nat): Result
    requires WellShaped(code)
  {
    if tier == TIER_L0 || tier == TIER_L1 then DecodeRecords(body, tier == TIER_L1, count, blocks)
    else if tier == TIER_L2 then DecodeRs(code, body, count, blocks)
    else Reject(UnsupportedTier)
  }

  lemma HeaderDecodes(code: ErasureCode, tier: byte, body: seq<byte>, count: nat, baseLen: nat)
    requires WellShaped(code) && count < TWO_TO_THE_64 && baseLen % BLOCK_SIZE == 0
    ensures Decode(code, Header(tier, count) + body, baseLen)
         == DecodeBody(code, tier, body, count, baseLen / BLOCK_SIZE)
  {
    hide Header, HeaderVerifies, Recognized, DecodeBody, BlockCount, DecodeHeaderless, WellShaped;
    HeaderReads(tier, count, body);
  }

  // ----- arbitrary input

  lemma RecordsWellFormed(body: seq<byte>, crc: bool, count: nat, blocks: nat)
    ensures WellFormedResult(DecodeRecords(body, crc, count, blocks), blocks)
  {
    hide LayoutSlots, WholeBlocks;
    WholeBlocksOf(body, crc, count);
    ConcludeWellFormed(LayoutSlots(body, crc, count), blocks);
  }

  predicate WellFormedResult(r: Result, blocks: nat) {
    match r
    case Reject(e) => e == Corrupt || e == UnsupportedTier
    case Accept(m, err) => Fits(m, blocks) && (err.Some? ==> WellFormed(err.value, m, blocks))
  }

  lemma SalvageWellFormed(slots: seq<ShardSlot>, n: nat, size: nat, payloadLen: nat, blocks: nat)
    requires size > 0 && n <= |slots| && SlotsEqual(slots, size)
    ensures WellFormedResult(Conclude(SalvageSlots(slots, n, size, payloadLen), blocks), blocks)
  {
    hide Parse, SpanIntact, Span, ReadIndex;
    ConcludeWellFormed(SalvageSlots(slots, n, size, payloadLen), blocks);
  }

  lemma HeaderlessWellFormed(body: seq<byte>, blocks: nat)
    ensures WellFormedResult(DecodeHeaderless(body, blocks), blocks)
  {
    hide SlotAt, Applied;
    if |body| > 0 && |body| % L1_RECORD_SIZE == 0 {
      AppliedFits(Slots(body, true, WholeRecords(true, |body|)), blocks);
    }
  }

  lemma RsWellFormed(code: ErasureCode, body: seq<byte>, count: nat, blocks: nat)
    requires WellShaped(code)
    ensures WellFormedResult(DecodeRs(code, body, count, blocks), blocks)
  {
    hide ParseMeta, Admissible, ParseSection, DecodeRecords, SalvageSlots, Conclude, WellShaped, SlotsEqual,
      WellFormedResult, Flatten;
    var parsed := ParseMeta(body, count);
    if parsed.None? {
      RejectWellFormed(Corrupt, blocks);
    } else {
      var g := parsed.value;
      AdmissibleShape(g, count, |body|);
      if g.payloadLen == 0 {
        RecordsWellFormed([], true, count, blocks);
      } else {
        SectionEqual(body[META_SIZE..], g.n + g.k, g.size);
        ShardsWellFormed(code, ParseSection(body[META_SIZE..], g.n + g.k, g.size), g, count, blocks);
      }
    }
  }

  lemma RejectWellFormed(e: Error, blocks: nat)
    requires e == Corrupt || e == UnsupportedTier
    ensures WellFormedResult(Reject(e), blocks)
  {
  }

  lemma ShardsWellFormed(code: ErasureCode, slots: seq<ShardSlot>, g: Shape, count: nat, blocks: nat)
    requires WellShaped(code) && 1 <= g.n && g.size > 0 && g.payloadLen <= g.n * g.size
    requires |slots| == g.n + g.k && SlotsEqual(slots, g.size)
    ensures WellFormedResult(DecodeShards(code, slots, g, count, blocks), blocks)
  {
    hide DecodeRecords, SalvageSlots, Conclude, SlotsEqual, WellFormedResult, Flatten;
    if Missing(slots) <= g.k && !code.init(g.n, g.k) {
      RejectWellFormed(Corrupt, blocks);
    } else if Missing(slots) <= g.k && code.reconstruct(slots, g.n).Some? {
      var data := code.reconstruct(slots, g.n).value;
      FlattenLength(data, g.size);
      RecordsWellFormed(Flatten(data)[..g.payloadLen], true, count, blocks);
    } else {
      SalvageWellFormed(slots, g.n, g.size, g.payloadLen, blocks);
    }
  }

  /**
   * Any bytes whatsoever decode to a refusal or to a device that fits the base, with an error that is
   * sorted, in range, disjoint from the recovered blocks, and never empty.
   */
  lemma ArbitraryInput(code: ErasureCode, blob: seq<byte>, baseLen: nat)
    requires WellShaped(code)
    ensures WellFormedResult(Decode(code, blob, baseLen), baseLen / BLOCK_SIZE)
  {
    hide HeaderVerifies, DecodeHeaderless, DecodeRecords, DecodeRs, WellShaped;
    var blocks := baseLen / BLOCK_SIZE;
    if |blob| >= HEADER_SIZE {
      var body := blob[HEADER_SIZE..];
      HeaderlessWellFormed(body, blocks);
      RecordsWellFormed(body, true, BlockCount(blob), blocks);
      RecordsWellFormed(body, false, BlockCount(blob), blocks);
      RsWellFormed(code, body, BlockCount(blob), blocks);
    }
  }

  // ----- round trips

  lemma RecordRoundTrip(code: ErasureCode, m: Overlay, tier: byte, baseLen: nat)
    requires WellShaped(code) && baseLen % BLOCK_SIZE == 0 && baseLen < TWO_TO_THE_63
    requires Fits(m, baseLen / BLOCK_SIZE) && (tier == TIER_L0 || tier == TIER_L1)
    ensures Holds(m, SortedKeys(m)) && |SortedKeys(m)| == |m|
    ensures var e := Serialize(code, m, tier);
            e.Blob? && Decode(code, e.bytes, baseLen) == Accept(m, None)
  {
    hide Header, Flat, Decode, DecodeRecords, WellShaped, SerializeRs;
    var blocks := baseLen / BLOCK_SIZE;
    SortedKeysHold(m, blocks);
    HeaderDecodes(code, tier, Flat(m, SortedKeys(m), tier == TIER_L1), |m|, baseLen);
    FlatDecodes(m, tier == TIER_L1, blocks);
  }

  lemma AllShardsKept(shards: seq<Shard>, size: nat)
    requires Equal(shards, size)
    ensures Damaged(Strides(shards), shards, size) && |KeptSet(Strides(shards), shards)| == |shards|
  {
    hide Strides, Damaged;
    AllKept(shards, size);
    MissingOfKept(Strides(shards), shards);
    NothingMissing(Survivors(Strides(shards), shards));
  }

  /** An L2 body straight from the encoder, nothing lost. */
  lemma UndamagedShards(code: ErasureCode, m: Overlay, g: Shape, blocks: nat)
    requires Writable(code, m, g, blocks)
    requires Holds(m, SortedKeys(m)) && |SortedKeys(m)| == |m|
    requires g.n > 0 && Offset(true, |m|) == g.payloadLen <= g.n * g.size
    ensures var shards := ShardsOf(code, PayloadOf(m), g);
            Mangled(code, m, g, Strides(shards), []) && |KeptSet(Strides(shards), shards)| == g.n + g.k &&
            Flatten(Strides(shards)) + [] == Flatten(Strides(shards))
  {
    hide ShardsOf, PayloadOf, Strides, Flatten, Damaged, WellShaped, Fits, KeptSet;
    var shards := ShardsOf(code, PayloadOf(m), g);
    AllShardsKept(shards, g.size);
    StridesLength(shards, g.size);
    SectionBound(g);
  }

  lemma NothingMissing(slots: seq<ShardSlot>)
    requires forall i :: 0 <= i < |slots| ==> slots[i].Some?
    ensures Missing(slots) == 0
  {
  }

  lemma EmptyDecodes(code: ErasureCode, g: Shape, sect: seq<byte>, blocks: nat)
    requires WellShaped(code) && g == ShapeFor(0, g.n, g.k) && Encodable(g.n, g.k, 0)
    requires g.n > 0 && g.k > 0 && |sect| < 0x1_0000_0000
    ensures DecodeRs(code, Meta(g) + sect, 0, blocks) == Accept(map[], None)
  {
    hide Meta, ParseMeta, WellShaped, DecodeRecords;
    EncoderDecoderAgree(g.n, g.k, 0, sect);
    EmptyRecords(blocks);
  }

  lemma EmptyRecords(blocks: nat)
    ensures DecodeRecords([], true, 0, blocks) == Accept(map[], None)
  {
    assert LayoutSlots([], true, 0) == [];
  }

  lemma PositiveSize(count: nat, n: int, k: int)
    ensures ShapeFor(count, n, k).size > 0 <==> count > 0
  {
    ShapeFits(count, n, k);
  }

  lemma RsBlobDecodes(code: ErasureCode, m: Overlay, n: int, k: int, baseLen: nat)
    requires WellShaped(code) && baseLen % BLOCK_SIZE == 0 && baseLen < TWO_TO_THE_63
    requires Fits(m, baseLen / BLOCK_SIZE) && Encodable(ShapeFor(|m|, n, k).n, ShapeFor(|m|, n, k).k, Offset(true, |m|))
    requires m != map[] ==> code.init(ShapeFor(|m|, n, k).n, ShapeFor(|m|, n, k).k)
    ensures Holds(m, SortedKeys(m)) && |SortedKeys(m)| == |m|
    ensures var g := ShapeFor(|m|, n, k);
            g.n > 0 && g.payloadLen == Offset(true, |m|) <= g.n * g.size &&
            var e := SerializeRs(code, m, n, k);
            e.Blob? && Decode(code, e.bytes, baseLen) ==
              DecodeRs(code, Meta(g) + Flatten(Strides(ShardsOf(code, PayloadOf(m), g))), |m|, baseLen / BLOCK_SIZE)
  {
    hide ShardsOf, PayloadOf, Strides, Flatten, Decode, DecodeRs, Header, Meta, Encodable, WellShaped, Resolve,
      ShardSize;
    var blocks := baseLen / BLOCK_SIZE;
    SortedKeysHold(m, blocks);
    ShapeFits(|m|, n, k);
    PositiveSize(|m|, n, k);
    var g := ShapeFor(|m|, n, k);
    assert |m| > 0 ==> m != map[];
    HeaderDecodes(code, TIER_L2, Meta(g) + Flatten(Strides(ShardsOf(code, PayloadOf(m), g))), |m|, baseLen);
  }

  /**
   * Round trip at L2 with any geometry the encoder accepts: the decoder gives back exactly the overlay,
   * or, for a delta of more blocks than n shards can take, refuses the blob; it never does anything in between.
   */
  lemma RsRoundTrip(code: ErasureCode, m: Overlay, n: int, k: int, baseLen: nat)
    requires WellShaped(code) && baseLen % BLOCK_SIZE == 0 && baseLen < TWO_TO_THE_63
    requires Fits(m, baseLen / BLOCK_SIZE)
    requires Corrects(code, ShapeFor(|m|, n, k).n, ShapeFor(|m|, n, k).k)
    ensures Holds(m, SortedKeys(m)) && |SortedKeys(m)| == |m|
    ensures var e := SerializeRs(code, m, n, k);
            var g := ShapeFor(|m|, n, k);
            e.Blob? ==>
              Decode(code, e.bytes, baseLen) ==
                (if 4108 * |m| <= g.n * ShardCap(g.n + g.k) then Accept(m, None) else Reject(Corrupt))
  {
    hide SerializeRs, ShapeFor, Decodable, ShardCap, Decode, WellShaped, Corrects, Fits, Holds;
    RsReadBack(code, m, n, k, baseLen);
    DecodableIff(|m|, n, k);
  }

  lemma RsReadBack(code: ErasureCode, m: Overlay, n: int, k: int, baseLen: nat)
    requires WellShaped(code) && baseLen % BLOCK_SIZE == 0 && baseLen < TWO_TO_THE_63
    requires Fits(m, baseLen / BLOCK_SIZE)
    requires Corrects(code, ShapeFor(|m|, n, k).n, ShapeFor(|m|, n, k).k)
    ensures Holds(m, SortedKeys(m)) && |SortedKeys(m)| == |m|
    ensures var e := SerializeRs(code, m, n, k);
            e.Blob? ==>
              Decode(code, e.bytes, baseLen) ==
                (if Decodable(ShapeFor(|m|, n, k)) then Accept(m, None) else Reject(Corrupt))
  {
    hide ShapeFor, ShardsOf, PayloadOf, Strides, Flatten, Decode, DecodeRs, Header, Meta, Encodable, WellShaped,
      KeptSet, Mangled, Corrects;
    var blocks := baseLen / BLOCK_SIZE;
    SortedKeysHold(m, blocks);
    if SerializeRs(code, m, n, k).Blob? {
      ShapeFits(|m|, n, k);
      var g := ShapeFor(|m|, n, k);
      PositiveSize(|m|, n, k);
      assert m != map[] ==> |m| > 0;
      RsBlobDecodes(code, m, n, k, baseLen);
      var shards := ShardsOf(code, PayloadOf(m), g);
      if m == map[] {
        EmptyShape(n, k);
        StridesLength(shards, 0);
        EmptyDecodes(code, g, Flatten(Strides(shards)), blocks);
      } else if Decodable(g) {
        UndamagedShards(code, m, g, blocks);
        ErasureTolerance(code, m, n, k, Strides(shards), [], blocks);
      } else {
        UndecodableShape(code, m, n, k, Flatten(Strides(shards)), blocks);
      }
    }
  }

  lemma EmptyShape(n: int, k: int)
    ensures var g := ShapeFor(0, n, k);
            g.size == 0 && g.payloadLen == 0 && g == ShapeFor(0, g.n, g.k) &&
            (Encodable(g.n, g.k, 0) ==> Decodable(g) && g.n + g.k <= MAX_TOTAL_SHARDS)
  {
  }

  lemma UndecodableShape(code: ErasureCode, m: Overlay, n: int, k: int, sect: seq<byte>, blocks: nat)
    requires WellShaped(code) && m != map[] && Fits(m, blocks) && blocks <= MAX_BLOCKS
    requires var g := ShapeFor(|m|, n, k); Encodable(g.n, g.k, g.payloadLen) && !Decodable(g)
    ensures DecodeRs(code, Meta(ShapeFor(|m|, n, k)) + sect, |m|, blocks) == Reject(Corrupt)
  {
    hide ShapeFor, Meta, ParseMeta, WellShaped, Decodable;
    ShapeOfOverlay(m, n, k, blocks);
    var g := ShapeFor(|m|, n, k);
    EncoderDecoderAgree(g.n, g.k, |m|, sect);
  }

  /** SerializeTier at L2 never refuses, and its blob decodes exactly up to 1 742 521 dirty blocks. */
  lemma DefaultRsRoundTrip(code: ErasureCode, m: Overlay, baseLen: nat)
    requires WellShaped(code) && baseLen % BLOCK_SIZE == 0 && baseLen < TWO_TO_THE_63
    requires Fits(m, baseLen / BLOCK_SIZE)
    requires var g := ShapeFor(|m|, 0, 0); code.init(g.n, g.k) && Corrects(code, g.n, g.k)
    ensures Holds(m, SortedKeys(m)) && |SortedKeys(m)| == |m|
    ensures var e := Serialize(code, m, TIER_L2);
            e.Blob? && Decode(code, e.bytes, baseLen) ==
              if |m| <= 1_742_521 then Accept(m, None) else Reject(Corrupt)
  {
    hide ShardsOf, PayloadOf, Strides, Flatten, Decode, DecodeRs, Header, Meta, Encodable, WellShaped, Corrects,
      Resolve;
    SortedKeysHold(m, baseLen / BLOCK_SIZE);
    DefaultsEncodable(|m|);
    DefaultDecodable(|m|);
    RsReadBack(code, m, 0, 0, baseLen);
  }

  // ----- truncation of a whole blob

  lemma PrefixOfConcat(a: seq<byte>, b: seq<byte>, n: nat)
    requires n <= |b|
    ensures (a + b)[..|a| + n] == a + b[..n]
  {
  }

  /** A serialized L0/L1 blob cut anywhere after its header keeps its whole records and reports the loss. */
  lemma TruncatedBlob(code: ErasureCode, m: Overlay, tier: byte, baseLen: nat, cut: nat)
    requires WellShaped(code) && baseLen % BLOCK_SIZE == 0 && baseLen < TWO_TO_THE_63
    requires Fits(m, baseLen / BLOCK_SIZE) && (tier == TIER_L0 || tier == TIER_L1)
    requires cut < Offset(tier == TIER_L1, |m|)
    ensures Holds(m, SortedKeys(m)) && |SortedKeys(m)| == |m|
    ensures var crc := tier == TIER_L1;
            var e := Serialize(code, m, tier);
            var k := WholeRecords(crc, cut);
            e.Blob? && k < |m| && HEADER_SIZE + cut < |e.bytes| &&
            Decode(code, e.bytes[..HEADER_SIZE + cut], baseLen) ==
              Accept(Restrict(m, SortedKeys(m)[..k]), Some(CutError(SortedKeys(m)[k], cut - Offset(crc, k))))
  {
    hide Header, Flat, Decode, DecodeRecords, WellShaped, SerializeRs, CutError, Restrict, Fits;
    var blocks := baseLen / BLOCK_SIZE;
    var crc := tier == TIER_L1;
    SortedKeysHold(m, blocks);
    var flat := Flat(m, SortedKeys(m), crc);
    TruncationAnywhere(m, crc, blocks, cut);
    PrefixOfConcat(Header(tier, |m|), flat, cut);
    HeaderDecodes(code, tier, flat[..cut], |m|, baseLen);
  }

  /** Whatever is appended to an L0/L1 blob is ignored, and reported. */
  lemma SurplusBlob(code: ErasureCode, m: Overlay, tier: byte, baseLen: nat, extra: seq<byte>)
    requires WellShaped(code) && baseLen % BLOCK_SIZE == 0 && baseLen < TWO_TO_THE_63
    requires Fits(m, baseLen / BLOCK_SIZE) && (tier == TIER_L0 || tier == TIER_L1) && extra != []
    ensures Holds(m, SortedKeys(m)) && |SortedKeys(m)| == |m|
    ensures var e := Serialize(code, m, tier);
            e.Blob? && Decode(code, e.bytes + extra, baseLen) == Accept(m, Some(Partial([], true)))
  {
    hide Header, Flat, Decode, DecodeRecords, WellShaped, SerializeRs, Fits;
    var blocks, crc := baseLen / BLOCK_SIZE, tier == TIER_L1;
    SurplusReported(m, crc, blocks, extra);
    SortedKeysHold(m, blocks);
    var head, flat := Header(tier, |m|), Flat(m, SortedKeys(m), crc);
    assert (head + flat) + extra == head + (flat + extra);
    HeaderDecodes(code, tier, flat + extra, |m|, baseLen);
  }

  // ----- what the encoder accepts

  /** SerializeRS writes a blob exactly for these geometries, and answers UnsupportedTier otherwise. */
  lemma EncoderAccepts(code: ErasureCode, m: Overlay, n: int, k: int, blocks: nat)
    requires WellShaped(code) && Fits(m, blocks) && blocks <= MAX_BLOCKS
    ensures Holds(m, SortedKeys(m)) && |SortedKeys(m)| == |m|
    ensures var e, c := SerializeRs(code, m, n, k), |m|;
            var N := if n > 0 then n else if c <= 1 then 1 else if c < 10 then c else 10;
            var K := if k > 0 then k else 2;
            if N + K <= 64 && (K <= 2 || K <= N) && N <= (if c == 0 then 1 else if c == 1 then 33 else 63) &&
               (c == 0 || code.init(N, K))
            then e.Blob? else e == Refused(UnsupportedTier)
  {
    hide ShardsOf, PayloadOf, Strides, Flatten, Header, Meta, WellShaped, Encodable, Resolve, ShardSize, Fits, Holds;
    SortedKeysHold(m, blocks);
    var g := ShapeFor(|m|, n, k);
    ShapeFits(|m|, n, k);
    PositiveSize(|m|, n, k);
    DefaultShape(|m|);
    RequestsKept(n, k, Offset(true, |m|));
    EncodableShapes(|m|, g.n, g.k);
  }

  // ----- erasures in a whole blob

  /** Behind any verified L2 header, more than k erasures always give a partial error. */
  lemma LossNeverSilent(code: ErasureCode, blob: seq<byte>, baseLen: nat)
    requires WellShaped(code) && baseLen % BLOCK_SIZE == 0
    requires Recognized(blob) && HeaderVerifies(blob) && blob[5] == TIER_L2 && |blob| >= HEADER_SIZE + META_SIZE
    requires var parsed := ParseMeta(blob[HEADER_SIZE..], BlockCount(blob));
             parsed.Some? && parsed.value.payloadLen > 0 &&
             var g := parsed.value;
             Missing(ParseSection(blob[HEADER_SIZE + META_SIZE..], g.n + g.k, g.size)) > g.k
    ensures var d := Decode(code, blob, baseLen); d.Accept? && d.err.Some? && d.err.value.Partial?
  {
    hide WellShaped, HeaderVerifies, ParseMeta, ParseSection, Missing, DecodeRs;
    assert blob[HEADER_SIZE..][META_SIZE..] == blob[HEADER_SIZE + META_SIZE..];
    NoSilentLoss(code, blob[HEADER_SIZE..], BlockCount(blob), baseLen / BLOCK_SIZE);
  }

  /** Erasure tolerance of a whole blob. */
  lemma ErasuresTolerated(
    code: ErasureCode, m: Overlay, n: int, k: int, ts: seq<seq<byte>>, rest: seq<byte>, baseLen: nat)
    requires baseLen % BLOCK_SIZE == 0 && baseLen < TWO_TO_THE_63
    requires m != map[] && Writable(code, m, ShapeFor(|m|, n, k), baseLen / BLOCK_SIZE)
    requires var g := ShapeFor(|m|, n, k); code.init(g.n, g.k) && Corrects(code, g.n, g.k)
    requires Holds(m, SortedKeys(m)) && |SortedKeys(m)| == |m|
    requires var g := ShapeFor(|m|, n, k);
             g.n > 0 && Offset(true, |m|) == g.payloadLen <= g.n * g.size && Mangled(code, m, g, ts, rest) &&
             |KeptSet(ts, ShardsOf(code, PayloadOf(m), g))| >= g.n
    ensures var g := ShapeFor(|m|, n, k);
            Decode(code, Header(TIER_L2, |m|) + (Meta(g) + (Flatten(ts) + rest)), baseLen) == Accept(m, None)
  {
    hide ShapeFor, ShardsOf, PayloadOf, Flatten, Decode, DecodeRs, Header, Meta, WellShaped, Fits, KeptSet, Corrects,
      Mangled,
      Holds, Encodable, Decodable;
    var g := ShapeFor(|m|, n, k);
    ErasureTolerance(code, m, n, k, ts, rest, baseLen / BLOCK_SIZE);
    SortedKeysHold(m, baseLen / BLOCK_SIZE);
    HeaderDecodes(code, TIER_L2, Meta(g) + (Flatten(ts) + rest), |m|, baseLen);
  }

  /** Exact salvage accounting for a whole blob. */
  lemma LossAccounted(
    code: ErasureCode, m: Overlay, n: int, k: int, ts: seq<seq<byte>>, rest: seq<byte>, baseLen: nat)
    requires baseLen % BLOCK_SIZE == 0 && baseLen < TWO_TO_THE_63
    requires m != map[] && Writable(code, m, ShapeFor(|m|, n, k), baseLen / BLOCK_SIZE)
    requires Holds(m, SortedKeys(m)) && |SortedKeys(m)| == |m|
    requires var g := ShapeFor(|m|, n, k);
             g.n > 0 && Offset(true, |m|) == g.payloadLen <= g.n * g.size && Mangled(code, m, g, ts, rest) &&
             |KeptSet(ts, ShardsOf(code, PayloadOf(m), g))| < g.n
    ensures var g := ShapeFor(|m|, n, k);
            g.size > 0 &&
            var left := Remnants(ts, ShardsOf(code, PayloadOf(m), g), g, m, SortedKeys(m));
            Decode(code, Header(TIER_L2, |m|) + (Meta(g) + (Flatten(ts) + rest)), baseLen) ==
              if QuarterThere(g, 20 + |Flatten(ts) + rest|) then
                Accept(Surviving(left, m, SortedKeys(m)), Verdict(Named(left, SortedKeys(m)), Gone in left))
              else Reject(Corrupt)
  {
    hide ShapeFor, ShardsOf, PayloadOf, Flatten, Decode, DecodeRs, Header, Meta, WellShaped, Fits, KeptSet, Holds,
      Encodable, Decodable, Slack, Remnants, Surviving, Named, Verdict, Damaged,
      QuarterThere;
    var g := ShapeFor(|m|, n, k);
    QuarterNeeded(g, META_SIZE + |Flatten(ts) + rest|);
    SalvageAccounted(code, m, n, k, ts, rest, baseLen / BLOCK_SIZE);
    SortedKeysHold(m, baseLen / BLOCK_SIZE);
    HeaderDecodes(code, TIER_L2, Meta(g) + (Flatten(ts) + rest), |m|, baseLen);
  }

  // ----- damage the CRCs are sure to detect

  /**
   * One changed byte anywhere in an L1 blob. In the header it costs the blob if it hits the magic, the version, or the
   * tier in such a way that it reads as another known tier; else it costs nothing but the nil error. In the body it
   * costs exactly the block it hits, and that is reported unless the byte turns the record's index into that of
   * another dirty block with the very same contents.
   */
  lemma OneByteChanged(code: ErasureCode, m: Overlay, baseLen: nat, blob: seq<byte>, at: nat)
    requires WellShaped(code) && baseLen % BLOCK_SIZE == 0 && baseLen < TWO_TO_THE_63
    requires Fits(m, baseLen / BLOCK_SIZE) && Holds(m, SortedKeys(m)) && |SortedKeys(m)| == |m|
    requires OneByte(Header(TIER_L1, |m|) + Flat(m, SortedKeys(m), true), blob, at)
    ensures Serialize(code, m, TIER_L1) == Blob(Header(TIER_L1, |m|) + Flat(m, SortedKeys(m), true))
    ensures |blob| >= HEADER_SIZE
    ensures at < HEADER_SIZE ==>
              Decode(code, blob, baseLen) ==
                if at < 5 || blob[5] == 0 || blob[5] == 2 || m == map[] then Reject(Corrupt)
                else Accept(m, Some(Partial([], true)))
    ensures at >= HEADER_SIZE ==>
              var keys, body, off := SortedKeys(m), blob[HEADER_SIZE..], at - HEADER_SIZE;
              off / L1_RECORD_SIZE < |m| && |body| == Offset(true, |m|) && off < |body| &&
              Decode(code, blob, baseLen) ==
                Accept(m - {keys[off / L1_RECORD_SIZE]},
                       if PassesForDuplicate(body, m, keys, off) then None else Some(Partial([], true)))
  {
    hide Header, Flat, Decode, WellShaped, Fits, PassesForDuplicate, OneByte, Holds;
    var head, flat := Header(TIER_L1, |m|), Flat(m, SortedKeys(m), true);
    SortedKeysHold(m, baseLen / BLOCK_SIZE);
    OneByteSplits(head, flat, blob, at);
    if at < HEADER_SIZE {
      HeaderDamaged(code, m, blob, at, baseLen);
    } else {
      BodyDamaged(code, m, blob[HEADER_SIZE..], at - HEADER_SIZE, baseLen);
    }
  }

  lemma BodyDamaged(code: ErasureCode, m: Overlay, body: seq<byte>, off: nat, baseLen: nat)
    requires WellShaped(code) && baseLen % BLOCK_SIZE == 0 && baseLen < TWO_TO_THE_63
    requires Fits(m, baseLen / BLOCK_SIZE) && Holds(m, SortedKeys(m)) && |SortedKeys(m)| == |m| <= MAX_BLOCKS
    requires OneByte(Flat(m, SortedKeys(m), true), body, off)
    ensures off / L1_RECORD_SIZE < |m| && |body| == Offset(true, |m|) && off < |body|
    ensures Decode(code, Header(TIER_L1, |m|) + body, baseLen) ==
              Accept(m - {SortedKeys(m)[off / L1_RECORD_SIZE]},
                     if PassesForDuplicate(body, m, SortedKeys(m), off) then None else Some(Partial([], true)))
  {
    hide Header, Flat, Decode, DecodeRecords, WellShaped, Fits, PassesForDuplicate, OneByte, Holds;
    OneByteIsInside(Flat(m, SortedKeys(m), true), body, off);
    OneByteInBody(body, m, baseLen / BLOCK_SIZE, off);
    HeaderDecodes(code, TIER_L1, body, |m|, baseLen);
  }

  lemma OneByteSplits(a: seq<byte>, b: seq<byte>, q: seq<byte>, at: nat)
    requires OneByte(a + b, q, at)
    ensures |q| == |a| + |b|
    ensures at < |a| ==> OneByte(a, q[..|a|], at) && q[|a|..] == b
    ensures at >= |a| ==> q == a + q[|a|..] && OneByte(b, q[|a|..], at - |a|)
  {
    var p := a + b;
    if at < |a| {
      forall j | 0 <= j < |a| ensures q[..|a|][j] == q[j] && a[j] == p[j] {
      }
      forall j | 0 <= j < |b| ensures q[|a|..][j] == b[j] {
        assert b[j] == p[|a| + j];
      }
    } else {
      forall j | 0 <= j < |b| ensures q[|a|..][j] == q[|a| + j] && b[j] == p[|a| + j] {
      }
      forall j | 0 <= j < |a| ensures q[j] == a[j] {
        assert a[j] == p[j];
      }
      assert q == q[..|a|] + q[|a|..] && q[..|a|] == a;
    }
  }

  /** The first five bytes of every blob: the magic and the version. */
  const SIGNATURE: seq<byte> := [0x42, 0x44, 0x45, 0x56, 0x01]

  lemma SignatureIff(blob: seq<byte>)
    ensures Recognized(blob) <==> |blob| >= 18 && blob[..5] == SIGNATURE
  {
    if |blob| >= 18 {
      assert blob[..5] == blob[0..4] + [blob[4]];
      assert SIGNATURE == MAGIC + [FORMAT_VERSION];
      if blob[..5] == SIGNATURE {
        assert blob[0..4] == blob[..5][..4] == SIGNATURE[..4] == MAGIC && blob[4] == SIGNATURE[4];
      }
    }
  }

  /** Anything that is too short, or does not begin with the signature, or meets an unaligned base, is refused. */
  lemma ForeignRefused(code: ErasureCode, blob: seq<byte>, baseLen: nat)
    requires WellShaped(code) && (|blob| < 18 || blob[..5] != SIGNATURE || baseLen % 4096 != 0)
    ensures Decode(code, blob, baseLen) == Reject(Corrupt)
  {
    hide WellShaped, Recognized, HeaderVerifies, DecodeHeaderless, DecodeBody;
    SignatureIff(blob);
  }

  /** Tiers above 2 are neither written nor, behind a header that verifies, read. */
  lemma UnknownTier(code: ErasureCode, m: Overlay, tier: byte, blob: seq<byte>, baseLen: nat)
    requires WellShaped(code) && Holds(m, SortedKeys(m)) && |SortedKeys(m)| == |m| && tier > 2
    ensures Serialize(code, m, tier) == Refused(UnsupportedTier)
    ensures |blob| >= 18 && blob[..5] == SIGNATURE && HeaderVerifies(blob) && blob[5] == tier && baseLen % 4096 == 0 ==>
              Decode(code, blob, baseLen) == Reject(UnsupportedTier)
  {
    hide WellShaped, Recognized, HeaderVerifies;
    SignatureIff(blob);
  }

  /**
   * An L1 body behind a header that fails its CRC: recovered in full, with Truncated set, if the tier byte still reads
   * L1 or no known tier and there is a record at all; refused otherwise.
   */
  lemma HeaderlessRecovered(code: ErasureCode, m: Overlay, blob: seq<byte>, baseLen: nat)
    requires WellShaped(code) && baseLen % BLOCK_SIZE == 0 && baseLen < TWO_TO_THE_63
    requires Fits(m, baseLen / BLOCK_SIZE) && Holds(m, SortedKeys(m)) && |SortedKeys(m)| == |m|
    requires |blob| >= HEADER_SIZE && !HeaderVerifies(blob) && blob[HEADER_SIZE..] == Flat(m, SortedKeys(m), true)
    ensures Decode(code, blob, baseLen) ==
              if blob[..5] != SIGNATURE || blob[5] == 0 || blob[5] == 2 || m == map[] then Reject(Corrupt)
              else Accept(m, Some(Partial([], true)))
  {
    hide WellShaped, HeaderVerifies, Flat, DecodeHeaderless, DecodeBody, Recognized, Fits, Holds;
    SignatureIff(blob);
    FlatHeaderless(m, baseLen / BLOCK_SIZE);
  }

  lemma FlatHeaderless(m: Overlay, blocks: nat)
    requires Fits(m, blocks) && blocks <= MAX_BLOCKS
    requires Holds(m, SortedKeys(m)) && |SortedKeys(m)| == |m|
    ensures DecodeHeaderless(Flat(m, SortedKeys(m), true), blocks) ==
              if m == map[] then Reject(Corrupt) else Accept(m, Some(Partial([], true)))
  {
    hide Flat, DecodeHeaderless, DecodeRecords, Usable, SlotAt, Holds, Fits;
    var flat := Flat(m, SortedKeys(m), true);
    FlatDecodes(m, true, blocks);
    if m == map[] {
      NoBody(blocks);
      assert flat == [];
    } else {
      assert |m| > 0 && WholeRecords(true, |flat|) == |m|;
      HeaderlessCoincides(flat, blocks);
      FirstUsable(m, blocks);
    }
  }

  lemma NoBody(blocks: nat)
    ensures DecodeHeaderless([], blocks) == Reject(Corrupt)
  {
  }

  lemma FirstUsable(m: Overlay, blocks: nat)
    requires m != map[] && Fits(m, blocks) && Holds(m, SortedKeys(m)) && |SortedKeys(m)| == |m|
    ensures |m| > 0 && Offset(true, 1) <= |Flat(m, SortedKeys(m), true)|
    ensures Usable(SlotAt(Flat(m, SortedKeys(m), true), true, 0), blocks)
  {
    hide Flat, SlotAt;
    assert |m| > 0;
    RecordSlot(m, SortedKeys(m), 0, Flat(m, SortedKeys(m), true));
    KeysCover(m);
    assert SortedKeys(m)[0] in SortedKeys(m);
  }

  lemma HeaderDamaged(code: ErasureCode, m: Overlay, blob: seq<byte>, at: nat, baseLen: nat)
    requires WellShaped(code) && baseLen % BLOCK_SIZE == 0 && baseLen < TWO_TO_THE_63
    requires Fits(m, baseLen / BLOCK_SIZE) && Holds(m, SortedKeys(m)) && |SortedKeys(m)| == |m| <= MAX_BLOCKS
    requires |blob| >= HEADER_SIZE && blob[HEADER_SIZE..] == Flat(m, SortedKeys(m), true)
    requires OneByte(Header(TIER_L1, |m|), blob[..HEADER_SIZE], at)
    ensures Decode(code, blob, baseLen) ==
              if at < 5 || blob[5] == 0 || blob[5] == 2 || m == map[] then Reject(Corrupt)
              else Accept(m, Some(Partial([], true)))
  {
    hide WellShaped, Header, HeaderVerifies, Flat, Decode, OneByte, Fits, Holds;
    HeaderHit(code, TIER_L1, |m|, blob, at, baseLen);
    HeaderlessRecovered(code, m, blob, baseLen);
    if at < 5 {
      NotForeign(TIER_L1, |m|, blob, at);
    } else {
      StillOurs(TIER_L1, |m|, blob, at);
    }
  }

  lemma NotForeign(tier: byte, count: nat, blob: seq<byte>, at: nat)
    requires |blob| >= HEADER_SIZE && count < TWO_TO_THE_64 && at < 5
    requires OneByte(Header(tier, count), blob[..HEADER_SIZE], at)
    ensures blob[..5] != SIGNATURE
  {
    hide Header, HeaderVerifies;
    var h := Header(tier, count);
    HeaderReads(tier, count, []);
    assert h + [] == h;
    SignatureIff(h);
    assert h[..5][at] == h[at] != blob[..HEADER_SIZE][at] == blob[..5][at];
  }

  lemma StillOurs(tier: byte, count: nat, blob: seq<byte>, at: nat)
    requires |blob| >= HEADER_SIZE && count < TWO_TO_THE_64 && 5 <= at
    requires OneByte(Header(tier, count), blob[..HEADER_SIZE], at)
    ensures blob[..5] == SIGNATURE && (at > 5 ==> blob[5] == tier)
  {
    hide Header, HeaderVerifies;
    var h := Header(tier, count);
    HeaderReads(tier, count, []);
    assert h + [] == h;
    SignatureIff(h);
    forall j | 0 <= j < 5 ensures blob[..5][j] == h[..5][j] {
      assert blob[..HEADER_SIZE][j] == h[j];
    }
    assert at > 5 ==> blob[..HEADER_SIZE][5] == h[5];
  }

  /** A header with one changed byte never verifies, and what is made of the body always carries an error. */
  lemma HeaderHit(code: ErasureCode, tier: byte, count: nat, blob: seq<byte>, at: nat, baseLen: nat)
    requires WellShaped(code) && |blob| >= HEADER_SIZE && count < TWO_TO_THE_64
    requires OneByte(Header(tier, count), blob[..HEADER_SIZE], at)
    ensures !HeaderVerifies(blob)
    ensures var d := Decode(code, blob, baseLen); d.Reject? || d.err.Some?
    ensures !Recognized(blob) || blob[5] == 0 || blob[5] == 2 ==> Decode(code, blob, baseLen) == Reject(Corrupt)
  {
    hide Header, Recognized, Checks, OneByte, HeaderVerifies, DecodeBody;
    HeaderReads(tier, count, []);
    var h := Header(tier, count);
    assert h + [] == h;
    HeaderChecks(h);
    HeaderChecks(blob);
    assert h[..HEADER_SIZE] == h;
    OneByteDetected(h, blob[..HEADER_SIZE], at);
  }

  lemma HeaderChecks(blob: seq<byte>)
    requires |blob| >= HEADER_SIZE
    ensures HeaderVerifies(blob) <==> Checks(blob[..HEADER_SIZE])
  {
    hide Sum, FromLE;
    var h := blob[..HEADER_SIZE];
    assert h[..14] == blob[..14] && h[14..] == blob[14..18];
  }

  /**
   * At L2, damage to any k of the strides, each in its CRC field or in four consecutive data bytes, is repaired
   * without a trace.
   */
  lemma BurstsRepaired(code: ErasureCode, m: Overlay, n: int, k: int, ts: seq<seq<byte>>, baseLen: nat)
    requires WellShaped(code) && baseLen % BLOCK_SIZE == 0 && baseLen < TWO_TO_THE_63
    requires m != map[] && Fits(m, baseLen / BLOCK_SIZE) && Writable(code, m, ShapeFor(|m|, n, k), baseLen / BLOCK_SIZE)
    requires var g := ShapeFor(|m|, n, k); code.init(g.n, g.k) && Corrects(code, g.n, g.k)
    requires Holds(m, SortedKeys(m)) && |SortedKeys(m)| == |m|
    requires var g := ShapeFor(|m|, n, k);
             g.n > 0 && Offset(true, |m|) == g.payloadLen <= g.n * g.size &&
             var shards := ShardsOf(code, PayloadOf(m), g);
             SpottedStrides(ts, shards) && |UntouchedStrides(ts, shards)| >= g.n
    ensures var g := ShapeFor(|m|, n, k);
            SerializeRs(code, m, n, k)
              == Blob(Header(TIER_L2, |m|) + (Meta(g) + Flatten(Strides(ShardsOf(code, PayloadOf(m), g))))) &&
            Decode(code, Header(TIER_L2, |m|) + (Meta(g) + Flatten(ts)), baseLen) == Accept(m, None)
  {
    hide ShapeFor, ShardsOf, PayloadOf, Strides, Flatten, Decode, DecodeRs, Header, Meta, WellShaped, Fits, KeptSet,
      UntouchedStrides, SpottedStrides, Corrects, Damaged, Holds;
    var g := ShapeFor(|m|, n, k);
    var shards := ShardsOf(code, PayloadOf(m), g);
    SpottedErases(ts, shards, g.size);
    SubsetCardinality(UntouchedStrides(ts, shards), KeptSet(ts, shards));
    SectionBound(g);
    SpottedLength(ts, shards, g.size);
    assert Flatten(ts) + [] == Flatten(ts);
    ErasureTolerance(code, m, n, k, ts, [], baseLen / BLOCK_SIZE);
    SortedKeysHold(m, baseLen / BLOCK_SIZE);
    HeaderDecodes(code, TIER_L2, Meta(g) + Flatten(ts), |m|, baseLen);
  }

  lemma SpottedLength(ts: seq<seq<byte>>, shards: seq<Shard>, size: nat)
    requires Damaged(ts, shards, size) && SpottedStrides(ts, shards)
    ensures |Flatten(ts)| == |shards| * (SHARD_HEADER_SIZE + size)
  {
    FlattenLength(ts, SHARD_HEADER_SIZE + size);
  }

  lemma MetaChecks(body: seq<byte>)
    requires |body| >= META_SIZE
    ensures MetaVerifies(body) <==> Checks(body[..META_SIZE])
  {
    hide Sum, FromLE;
    var f := body[..META_SIZE];
    assert f[..16] == body[..16] && f[16..] == body[16..20];
  }

  /** A changed byte in the rsMeta makes the decoder refuse the blob. */
  lemma MetaHit(code: ErasureCode, g: Shape, body: seq<byte>, at: nat, count: nat, blocks: nat)
    requires WellShaped(code) && |body| >= META_SIZE && OneByte(Meta(g), body[..META_SIZE], at)
    requires g.n < 0x1_0000 && g.k < 0x1_0000 && g.payloadLen < TWO_TO_THE_64
    ensures DecodeRs(code, body, count, blocks) == Reject(Corrupt)
  {
    hide Meta, Checks, OneByte, MetaVerifies, ReadMeta, DecodeShards, ParseSection, Admissible;
    var f := Meta(g);
    MetaReads(g, []);
    assert f + [] == f && f[..META_SIZE] == f;
    MetaChecks(f);
    MetaChecks(body);
    OneByteDetected(f, body[..META_SIZE], at);
  }

  /**
   * One changed byte anywhere in an L2 blob. In the header and in the rsMeta the blob is refused, but for a tier byte
   * that comes to read L1 or no known tier, and even then there is an error. In the section, byte r of stride q is
   * repaired without a trace in the CRC and in the data, and in the index too unless it takes a data shard to a later
   * slot due other bytes: then the decoder works on slots of which one is missing and one holds the wrong shard.
   */
  lemma RsOneByteChanged(
    code: ErasureCode, m: Overlay, n: int, k: int, baseLen: nat, blob: seq<byte>, at: nat, q: nat, r: nat)
    requires WellShaped(code) && Systematic(code) && baseLen % BLOCK_SIZE == 0 && baseLen < TWO_TO_THE_63
    requires Fits(m, baseLen / BLOCK_SIZE) && Holds(m, SortedKeys(m)) && |SortedKeys(m)| == |m|
    requires var e := SerializeRs(code, m, n, k); e.Blob? && OneByte(e.bytes, blob, at)
    requires var g := ShapeFor(|m|, n, k); Decodable(g) && Corrects(code, g.n, g.k)
    requires at >= HEADER_SIZE + META_SIZE ==> Lies(at - HEADER_SIZE - META_SIZE, ShapeFor(|m|, n, k).size, q, r)
    ensures |blob| >= HEADER_SIZE + META_SIZE
    ensures at < HEADER_SIZE ==> var d := Decode(code, blob, baseLen); d.Reject? || d.err.Some?
    ensures at < HEADER_SIZE && (at != 5 || blob[5] == 0) ==> Decode(code, blob, baseLen) == Reject(Corrupt)
    ensures HEADER_SIZE <= at < HEADER_SIZE + META_SIZE ==> Decode(code, blob, baseLen) == Reject(Corrupt)
    ensures at >= HEADER_SIZE + META_SIZE && m == map[] ==> Decode(code, blob, baseLen) == Accept(map[], None)
    ensures at >= HEADER_SIZE + META_SIZE && m != map[] ==>
              var g := ShapeFor(|m|, n, k);
              ShapedFor(m, g) &&
              Outcome(code, m, g, ShardsOf(code, PayloadOf(m), g), q, r,
                      IndexAt(blob[HEADER_SIZE + META_SIZE..], g.size, q), Decode(code, blob, baseLen),
                      baseLen / BLOCK_SIZE)
  {
    hide Lies, SerializeRs, ShapeFor, ShardsOf, PayloadOf, Strides, Flatten, Decode, Header, Meta, WellShaped, Fits,
      Holds, Corrects, OneByte, Outcome, IndexAt, Systematic, Encodable, Decodable, ShapedFor;
    SortedKeysHold(m, baseLen / BLOCK_SIZE);
    RsBytes(code, m, n, k);
    var g := ShapeFor(|m|, n, k);
    var body := Meta(g) + Flatten(Strides(ShardsOf(code, PayloadOf(m), g)));
    OneByteSplits(Header(TIER_L2, |m|), body, blob, at);
    assert |body| >= META_SIZE;
    if at < HEADER_SIZE {
      RsHeaderDamaged(code, |m|, blob, at, baseLen);
    } else {
      RsBodyDamaged(code, m, n, k, baseLen, blob[HEADER_SIZE..], at - HEADER_SIZE, q, r);
      assert blob[HEADER_SIZE..][META_SIZE..] == blob[HEADER_SIZE + META_SIZE..];
    }
  }

  lemma RsBodyDamaged(
    code: ErasureCode, m: Overlay, n: int, k: int, baseLen: nat, body: seq<byte>, at: nat, q: nat, r: nat)
    requires WellShaped(code) && Systematic(code) && baseLen % BLOCK_SIZE == 0 && baseLen < TWO_TO_THE_63
    requires Fits(m, baseLen / BLOCK_SIZE) && Holds(m, SortedKeys(m)) && |SortedKeys(m)| == |m|
    requires var g := ShapeFor(|m|, n, k);
             g.n > 0 && Offset(true, |m|) == g.payloadLen <= g.n * g.size && Encodable(g.n, g.k, g.payloadLen) &&
             Decodable(g) && Corrects(code, g.n, g.k) && (g.size > 0 ==> code.init(g.n, g.k)) &&
             (at >= META_SIZE ==> Lies(at - META_SIZE, g.size, q, r)) &&
             OneByte(Meta(g) + Flatten(Strides(ShardsOf(code, PayloadOf(m), g))), body, at)
    ensures |body| >= META_SIZE
    ensures var g := ShapeFor(|m|, n, k);
            var d := Decode(code, Header(TIER_L2, |m|) + body, baseLen);
            if at < META_SIZE then d == Reject(Corrupt)
            else if m == map[] then d == Accept(map[], None)
            else
              ShapedFor(m, g) &&
              Outcome(code, m, g, ShardsOf(code, PayloadOf(m), g), q, r,
                      IndexAt(body[META_SIZE..], g.size, q), d, baseLen / BLOCK_SIZE)
  {
    hide Lies, ShapeFor, ShardsOf, PayloadOf, Strides, Flatten, Decode, DecodeRs, Header, Meta, WellShaped, Fits, Holds,
      Corrects, OneByte, Outcome, IndexAt, Systematic, Encodable, Decodable, ShapedFor;
    SortedKeysHold(m, baseLen / BLOCK_SIZE);
    RsBodyOf(code, body, |m|, baseLen);
    BodyHit(code, m, n, k, body, at, q, r, baseLen / BLOCK_SIZE);
  }

  lemma RsBytes(code: ErasureCode, m: Overlay, n: int, k: int)
    requires WellShaped(code) && Holds(m, SortedKeys(m)) && |SortedKeys(m)| == |m|
    ensures var g, e := ShapeFor(|m|, n, k), SerializeRs(code, m, n, k);
            g.n > 0 && Offset(true, |m|) == g.payloadLen <= g.n * g.size &&
            (e.Blob? ==>
              e.bytes == Header(TIER_L2, |m|) + (Meta(g) + Flatten(Strides(ShardsOf(code, PayloadOf(m), g)))) &&
              Encodable(g.n, g.k, g.payloadLen) && (g.size > 0 ==> code.init(g.n, g.k)))
  {
    hide ShapeFor, ShardsOf, PayloadOf, Strides, Flatten, Header, Meta, WellShaped, Holds, Encodable;
    ShapeFits(|m|, n, k);
  }

  lemma RsBodyOf(code: ErasureCode, body: seq<byte>, count: nat, baseLen: nat)
    requires WellShaped(code) && count < TWO_TO_THE_64 && baseLen % BLOCK_SIZE == 0
    ensures Decode(code, Header(TIER_L2, count) + body, baseLen) == DecodeRs(code, body, count, baseLen / BLOCK_SIZE)
  {
    hide Header, Decode, DecodeRs, WellShaped;
    HeaderDecodes(code, TIER_L2, body, count, baseLen);
  }

  lemma RsHeaderDamaged(code: ErasureCode, count: nat, blob: seq<byte>, at: nat, baseLen: nat)
    requires WellShaped(code) && |blob| >= HEADER_SIZE && count < TWO_TO_THE_64
    requires OneByte(Header(TIER_L2, count), blob[..HEADER_SIZE], at)
    ensures var d := Decode(code, blob, baseLen); d.Reject? || d.err.Some?
    ensures at != 5 || blob[5] == 0 ==> Decode(code, blob, baseLen) == Reject(Corrupt)
  {
    hide WellShaped, Header, Decode, OneByte, Recognized;
    HeaderHit(code, TIER_L2, count, blob, at, baseLen);
    SignatureIff(blob);
    if at < 5 {
      NotForeign(TIER_L2, count, blob, at);
    } else {
      StillOurs(TIER_L2, count, blob, at);
    }
  }

  lemma BodyHit(
    code: ErasureCode, m: Overlay, n: int, k: int, body: seq<byte>, at: nat, q: nat, r: nat, blocks: nat)
    requires WellShaped(code) && Systematic(code) && Fits(m, blocks) && blocks < MAX_BLOCKS
    requires Holds(m, SortedKeys(m)) && |SortedKeys(m)| == |m|
    requires var g := ShapeFor(|m|, n, k);
             g.n > 0 && Offset(true, |m|) == g.payloadLen <= g.n * g.size && Encodable(g.n, g.k, g.payloadLen) &&
             Decodable(g) && Corrects(code, g.n, g.k) && (g.size > 0 ==> code.init(g.n, g.k)) &&
             (at >= META_SIZE ==> Lies(at - META_SIZE, g.size, q, r)) &&
             OneByte(Meta(g) + Flatten(Strides(ShardsOf(code, PayloadOf(m), g))), body, at)
    ensures |body| >= META_SIZE
    ensures var g := ShapeFor(|m|, n, k);
            var d := DecodeRs(code, body, |m|, blocks);
            if at < META_SIZE then d == Reject(Corrupt)
            else if m == map[] then d == Accept(map[], None)
            else
              ShapedFor(m, g) &&
              Outcome(code, m, g, ShardsOf(code, PayloadOf(m), g), q, r,
                      IndexAt(body[META_SIZE..], g.size, q), d, blocks)
  {
    hide Lies, ShapeFor, ShardsOf, PayloadOf, Strides, Flatten, DecodeRs, Meta, WellShaped, Fits, Holds, Corrects,
      OneByte, Outcome, IndexAt, Systematic, Decodable, Encodable, ShapedFor;
    var g := ShapeFor(|m|, n, k);
    var meta, sect := Meta(g), Flatten(Strides(ShardsOf(code, PayloadOf(m), g)));
    OneByteSplits(meta, sect, body, at);
    if at < META_SIZE {
      SortedKeysHold(m, blocks);
      SmallFields(|m|, n, k, blocks);
      MetaHit(code, g, body, at, |m|, blocks);
    } else {
      SectionHit(code, m, n, k, body[META_SIZE..], at - META_SIZE, q, r, blocks);
    }
  }

  lemma SmallFields(count: nat, n: int, k: int, blocks: nat)
    requires count <= blocks < MAX_BLOCKS
    requires var g := ShapeFor(count, n, k); Encodable(g.n, g.k, g.payloadLen)
    ensures var g := ShapeFor(count, n, k); g.n < 0x1_0000 && g.k < 0x1_0000 && g.payloadLen < TWO_TO_THE_64
  {
    hide ValidGeometry;
  }

  lemma SectionHit(
    code: ErasureCode, m: Overlay, n: int, k: int, sect: seq<byte>, off: nat, q: nat, r: nat, blocks: nat)
    requires WellShaped(code) && Systematic(code) && Fits(m, blocks) && blocks < MAX_BLOCKS
    requires Holds(m, SortedKeys(m)) && |SortedKeys(m)| == |m|
    requires var g := ShapeFor(|m|, n, k);
             g.n > 0 && Offset(true, |m|) == g.payloadLen <= g.n * g.size && Encodable(g.n, g.k, g.payloadLen) &&
             Decodable(g) && Corrects(code, g.n, g.k) && (g.size > 0 ==> code.init(g.n, g.k)) &&
             Lies(off, g.size, q, r) &&
             OneByte(Flatten(Strides(ShardsOf(code, PayloadOf(m), g))), sect, off)
    ensures var g := ShapeFor(|m|, n, k);
            var d := DecodeRs(code, Meta(g) + sect, |m|, blocks);
            if m == map[] then d == Accept(map[], None)
            else
              ShapedFor(m, g) &&
              Outcome(code, m, g, ShardsOf(code, PayloadOf(m), g), q, r, IndexAt(sect, g.size, q), d, blocks)
  {
    hide Lies, ShapeFor, ShardsOf, PayloadOf, Strides, Flatten, DecodeRs, Meta, WellShaped, Fits, Holds, Corrects,
      OneByte, Outcome, IndexAt, Systematic, Decodable, ValidGeometry;
    var g := ShapeFor(|m|, n, k);
    var shards := ShardsOf(code, PayloadOf(m), g);
    PositiveSize(|m|, n, k);
    ShapeFits(|m|, n, k);
    if m == map[] {
      EmptyShape(n, k);
      StridesLength(shards, 0);
      OneByteLength(Flatten(Strides(shards)), sect, off);
      EmptyDecodes(code, g, sect, blocks);
    } else {
      ShapeOfOverlay(m, n, k, blocks);
      OneByteInSection(code, m, g, shards, sect, off, q, r, blocks);
    }
  }

  // ----- injectivity

  lemma RecordBlobsDiffer(code: ErasureCode, m: Overlay, m': Overlay, tier: byte, baseLen: nat)
    requires WellShaped(code) && baseLen % BLOCK_SIZE == 0 && baseLen < TWO_TO_THE_63
    requires Fits(m, baseLen / BLOCK_SIZE) && Fits(m', baseLen / BLOCK_SIZE)
    requires tier == TIER_L0 || tier == TIER_L1
    ensures Holds(m, SortedKeys(m)) && |SortedKeys(m)| == |m|
    ensures Holds(m', SortedKeys(m')) && |SortedKeys(m')| == |m'|
    ensures Serialize(code, m, tier) == Serialize(code, m', tier) ==> m == m'
  {
    hide Serialize, Decode;
    RecordRoundTrip(code, m, tier, baseLen);
    RecordRoundTrip(code, m', tier, baseLen);
  }

  /** At L2 too, different overlays give different blobs, whatever the geometry and the size. */
  lemma RsBlobsDiffer(code: ErasureCode, m: Overlay, m': Overlay, n: int, k: int, blocks: nat)
    requires WellShaped(code) && Fits(m, blocks) && Fits(m', blocks) && blocks < MAX_BLOCKS
    ensures Holds(m, SortedKeys(m)) && |SortedKeys(m)| == |m|
    ensures Holds(m', SortedKeys(m')) && |SortedKeys(m')| == |m'|
    ensures var e := SerializeRs(code, m, n, k);
            e.Blob? && e == SerializeRs(code, m', n, k) ==> m == m'
  {
    hide ShapeFor, ShardsOf, PayloadOf, Strides, Flatten, Header, Meta, Encodable, WellShaped, HeaderVerifies,
      Recognized;
    SortedKeysHold(m, blocks);
    SortedKeysHold(m', blocks);
    ShapeFits(|m|, n, k);
    ShapeFits(|m'|, n, k);
    var g, g' := ShapeFor(|m|, n, k), ShapeFor(|m'|, n, k);
    var e, e' := SerializeRs(code, m, n, k), SerializeRs(code, m', n, k);
    if e.Blob? && e == e' {
      var f := Flatten(Strides(ShardsOf(code, PayloadOf(m), g)));
      var f' := Flatten(Strides(ShardsOf(code, PayloadOf(m'), g')));
      HeaderReads(TIER_L2, |m|, Meta(g) + f);
      HeaderReads(TIER_L2, |m'|, Meta(g') + f');
      assert |m| == |m'| && g == g';
      assert f == (Meta(g) + f)[META_SIZE..] == (Meta(g) + f')[META_SIZE..] == f';
      SameShards(code, PayloadOf(m), PayloadOf(m'), g);
      SamePayload(m, m', blocks);
    }
  }

  lemma SamePayload(m: Overlay, m': Overlay, blocks: nat)
    requires Fits(m, blocks) && Fits(m', blocks) && blocks < MAX_BLOCKS
    requires Holds(m, SortedKeys(m)) && |SortedKeys(m)| == |m|
    requires Holds(m', SortedKeys(m')) && |SortedKeys(m')| == |m'|
    requires |m| == |m'| && PayloadOf(m) == PayloadOf(m')
    ensures m == m'
  {
    hide Flat;
    FlatInjective(m, m', true, blocks);
  }

  lemma SameShards(code: ErasureCode, p: seq<byte>, p': seq<byte>, g: Shape)
    requires WellShaped(code) && g.n > 0 && |p| == |p'| == g.payloadLen <= g.n * g.size
    requires Flatten(Strides(ShardsOf(code, p, g))) == Flatten(Strides(ShardsOf(code, p', g)))
    ensures p == p'
  {
    hide DataShards, Flatten, Strides, ShardsOf;
    var s, s' := ShardsOf(code, p, g), ShardsOf(code, p', g);
    SameStrides(s, s', g.size);
    SameStrideShards(s, s', g.size);
    SamePayloads(code, p, p', g);
  }

  lemma SameStrides(s: seq<Shard>, s': seq<Shard>, size: nat)
    requires |s| == |s'| && Equal(s, size) && Equal(s', size)
    requires Flatten(Strides(s)) == Flatten(Strides(s'))
    ensures Strides(s) == Strides(s')
  {
    hide Flatten, Stride;
    FlattenPieces(Strides(s), SHARD_HEADER_SIZE + size, []);
    FlattenPieces(Strides(s'), SHARD_HEADER_SIZE + size, []);
  }

  lemma SameStrideShards(s: seq<Shard>, s': seq<Shard>, size: nat)
    requires |s| == |s'| && Equal(s, size) && Equal(s', size)
    requires Strides(s) == Strides(s')
    ensures s == s'
  {
    forall i | 0 <= i < |s| ensures s[i] == s'[i] {
      hide LE, Sum;
      assert Strides(s)[i] == Strides(s')[i];
      assert s[i] == Stride(i, s[i])[SHARD_HEADER_SIZE..];
      assert s'[i] == Stride(i, s'[i])[SHARD_HEADER_SIZE..];
    }
  }

  lemma SamePayloads(code: ErasureCode, p: seq<byte>, p': seq<byte>, g: Shape)
    requires WellShaped(code) && g.n > 0 && |p| == |p'| == g.payloadLen <= g.n * g.size
    requires ShardsOf(code, p, g) == ShardsOf(code, p', g)
    ensures p == p'
  {
    hide DataShards, Flatten;
    if g.size > 0 {
      var d, d' := DataShards(p, g.n, g.size), DataShards(p', g.n, g.size);
      assert d == ShardsOf(code, p, g)[..g.n];
      assert d' == ShardsOf(code, p', g)[..g.n];
      ReconstructedPayload(p, g.n, g.size);
      ReconstructedPayload(p', g.n, g.size);
    }
  }
}
