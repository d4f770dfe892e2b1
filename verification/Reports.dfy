/** What Inspect reports, field by field, of blobs as they were written and of damaged ones. */
module Reports {
  import opened Bytes
  import opened Sorting
  import opened Records
  import opened RecordDecoder
  import opened WireFormat
  import opened Erasure
  import opened Geometry
  import opened Shards
  import opened ShardedFormat
  import opened Codec
  import opened Inspection

  /** A report on an undamaged blob: version 1, no loss. */
  function CleanReport(tier: byte, count: nat, blobSize: nat): Report {
    Report(1, tier, count, blobSize, [], 0, false)
  }

  /** Whatever the blob, the header fields are reported as they stand in it. */
  lemma ReportFields(code: ErasureCode, blob: seq<byte>)
    requires WellShaped(code) && Inspect(code, blob).Reported?
    ensures |blob| >= 18
    ensures var r := Inspect(code, blob).report;
            r.version == blob[4] == 1 && r.tier == blob[5] && r.blockCount == FromLE(blob[6..14]) &&
            r.blobSize == |blob|
  {
    hide WellShaped, ParseMeta, RsSlots, Slots, ListedIndices, LossCount, Verified, TailBad, TailLoss, TailSlots,
      OkCount,
      HeaderVerifies, FromLE;
  }

  // ----- counting

  /** The slots counted as unattributed loss. */
  function CountedAt(slots: seq<Slot>, m: Overlay): set<nat> {
    set i: nat | i < |slots| && Counted(slots[i], m)
  }

  predicate VerifiedRecord(s: Slot) {
    s.Whole? && s.ok
  }

  /** The slots that hold no verified record. */
  function Unverified(slots: seq<Slot>): set<nat> {
    set i: nat | i < |slots| && !VerifiedRecord(slots[i])
  }

  /** The slots of which nothing is left. */
  function GoneAt(slots: seq<Slot>): set<nat> {
    set i: nat | i < |slots| && slots[i].Gone?
  }

  lemma {:induction false} LossCountIs(slots: seq<Slot>, m: Overlay)
    ensures LossCount(slots, m) == |CountedAt(slots, m)|
  {
    hide Counted;
    if slots == [] {
      assert CountedAt(slots, m) == {};
    } else {
      var init, last := slots[..|slots| - 1], |slots| - 1;
      LossCountIs(init, m);
      assert CountedAt(slots, m) == CountedAt(init, m) + if Counted(slots[last], m) then {last} else {};
    }
  }

  lemma {:induction false} OkCountIs(slots: seq<Slot>)
    ensures OkCount(slots) + |Unverified(slots)| == |slots|
  {
    if slots == [] {
      assert Unverified(slots) == {};
    } else {
      var init, last := slots[..|slots| - 1], |slots| - 1;
      OkCountIs(init);
      assert VerifiedRecord(slots[last]) <==> slots[last].Whole? && slots[last].ok;
      hide VerifiedRecord;
      assert Unverified(slots) == Unverified(init) + if VerifiedRecord(slots[last]) then {} else {last};
    }
  }

  // ----- blobs as written

  /** Every L0/L1 blob is reported with its own tier and count, and clean. */
  lemma WrittenReported(code: ErasureCode, m: Overlay, tier: byte, baseLen: nat)
    requires WellShaped(code) && baseLen % BLOCK_SIZE == 0 && baseLen < TWO_TO_THE_63
    requires Fits(m, baseLen / BLOCK_SIZE) && (tier == 0 || tier == 1)
    ensures Holds(m, SortedKeys(m)) && |SortedKeys(m)| == |m|
    ensures var e := Serialize(code, m, tier);
            e.Blob? && Inspect(code, e.bytes) == Reported(CleanReport(tier, |m|, |e.bytes|))
  {
    hide WellShaped, Header, Flat, Decode, Inspect, Fits, Holds, SerializeRs, Mirrors, MirrorsUnapplied,
      BlobTailRepeats, Covers,
      CodeReady, Recognized, HeaderVerifies;
    RecordRoundTrip(code, m, tier, baseLen);
    CleanAnswer(code, Serialize(code, m, tier).bytes, m, baseLen);
    SortedKeysHold(m, baseLen / BLOCK_SIZE);
    HeaderFieldsRead(tier, |m|, Flat(m, SortedKeys(m), tier == 1));
  }

  lemma HeaderFieldsRead(tier: byte, count: nat, body: seq<byte>)
    requires count < TWO_TO_THE_64
    ensures var blob := Header(tier, count) + body; |blob| >= 18 && blob[5] == tier && FromLE(blob[6..14]) == count
  {
    hide Header, FromLE;
    HeaderReads(tier, count, body);
  }

  /** A blob that decodes without an error is reported without loss. */
  lemma CleanAnswer(code: ErasureCode, blob: seq<byte>, m: Overlay, baseLen: nat)
    requires WellShaped(code) && baseLen % BLOCK_SIZE == 0 && baseLen < TWO_TO_THE_63
    requires Decode(code, blob, baseLen) == Accept(m, None)
    ensures |blob| >= 18
    ensures Inspect(code, blob) == Reported(CleanReport(blob[5], FromLE(blob[6..14]), |blob|))
  {
    hide WellShaped, Decode, Inspect, Mirrors, MirrorsUnapplied, BlobTailRepeats, Covers, CodeReady, Recognized,
      HeaderVerifies,
      FromLE;
    InspectAgrees(code, blob, baseLen);
    ReportFields(code, blob);
  }

  /** Every L2 blob within the decoder's bounds likewise; one beyond them is refused as the decoder refuses it. */
  lemma RsWrittenReported(code: ErasureCode, m: Overlay, n: int, k: int, baseLen: nat)
    requires WellShaped(code) && baseLen % BLOCK_SIZE == 0 && baseLen < TWO_TO_THE_63
    requires Fits(m, baseLen / BLOCK_SIZE)
    requires Corrects(code, ShapeFor(|m|, n, k).n, ShapeFor(|m|, n, k).k)
    ensures Holds(m, SortedKeys(m)) && |SortedKeys(m)| == |m|
    ensures var e, g := SerializeRs(code, m, n, k), ShapeFor(|m|, n, k);
            e.Blob? ==>
              Inspect(code, e.bytes) ==
                if 4108 * |m| <= g.n * ShardCap(g.n + g.k) then Reported(CleanReport(2, |m|, |e.bytes|))
                else Failed(Corrupt)
  {
    hide WellShaped, Header, Decode, Inspect, Fits, Holds, ShapeFor, ShardCap, Corrects, ShardsOf, Strides, Flatten,
      Meta, PayloadOf,
      Encodable, Decodable;
    var blocks := baseLen / BLOCK_SIZE;
    SortedKeysHold(m, blocks);
    RsRoundTrip(code, m, n, k, baseLen);
    DecodableIff(|m|, n, k);
    var e, g := SerializeRs(code, m, n, k), ShapeFor(|m|, n, k);
    if e.Blob? {
      ShapeFits(|m|, n, k);
      var body := Meta(g) + Flatten(Strides(ShardsOf(code, PayloadOf(m), g)));
      HeaderFieldsRead(TIER_L2, |m|, body);
      if Decodable(g) {
        CleanAnswer(code, e.bytes, m, baseLen);
      } else {
        TooLarge(code, m, n, k, Flatten(Strides(ShardsOf(code, PayloadOf(m), g))), blocks);
      }
    }
  }

  lemma TooLarge(code: ErasureCode, m: Overlay, n: int, k: int, sect: seq<byte>, blocks: nat)
    requires WellShaped(code) && Fits(m, blocks) && blocks < MAX_BLOCKS && |m| == |SortedKeys(m)|
    requires var g := ShapeFor(|m|, n, k); Encodable(g.n, g.k, g.payloadLen) && !Decodable(g)
    ensures Inspect(code, Header(TIER_L2, |m|) + (Meta(ShapeFor(|m|, n, k)) + sect)) == Failed(Corrupt)
  {
    hide WellShaped, Header, ShapeFor, Meta, ParseMeta, HeaderVerifies, Recognized, Decodable, Encodable;
    SortedKeysHold(m, blocks);
    if m == map[] {
      EmptyShape(n, k);
    } else {
      ShapeOfOverlay(m, n, k, blocks);
    }
    var g := ShapeFor(|m|, n, k);
    HeaderReads(TIER_L2, |m|, Meta(g) + sect);
    EncoderDecoderAgree(g.n, g.k, |m|, sect);
  }

  // ----- damaged record bodies

  /** What Inspect makes of a body behind an undamaged L0/L1 header. */
  lemma BodyReported(code: ErasureCode, tier: byte, count: nat, body: seq<byte>)
    requires WellShaped(code) && count < TWO_TO_THE_64 && (tier == 0 || tier == 1)
    ensures var blob := Header(tier, count) + body;
            Inspect(code, blob)
              == Reported(InspectRecords(Report(1, tier, count, |blob|, [], 0, false), body, tier == 1))
  {
    hide WellShaped, Header, InspectRecords, HeaderVerifies, Recognized, BlockCount;
    HeaderReads(tier, count, body);
    SignatureIff(Header(tier, count) + body);
  }

  /** A body in which the scanned records are intact is reported by its tail alone. */
  lemma IntactReported(r: Report, body: seq<byte>, crc: bool, m: Overlay, idxs: seq<int>)
    requires Holds(m, idxs) && ScannedRecords(|body|, crc, r.blockCount) == |idxs|
    requires Slots(body, crc, |idxs|) == Intact(m, idxs)
    ensures InspectRecords(r, body, crc) ==
              r.(bad := SortedSet(TailBad(body, crc, r.blockCount)), unattributed := TailLoss(body, crc, r.blockCount),
                 truncated := TailSlots(body, crc, r.blockCount) != [] || TailLoss(body, crc, r.blockCount) > 0)
  {
    hide Slots, TailBad, TailLoss, TailSlots, Verified, ListedIndices, LossCount;
    NothingWrong(Intact(m, idxs));
    NothingWrong([]);
    assert TailBad(body, crc, r.blockCount) + {} == TailBad(body, crc, r.blockCount);
  }

  lemma NothingWrong(slots: seq<Slot>)
    requires forall i :: 0 <= i < |slots| ==> slots[i].Whole? && slots[i].ok && slots[i].idx >= 0
    ensures ListedIndices(slots, Verified(slots)) == {} && LossCount(slots, Verified(slots)) == 0
  {
    hide Verified;
    NoneListedIff(slots, Verified(slots));
    NoLossIff(slots, Verified(slots));
  }

  /** A cut blob: the next index if eight of its bytes are left, else one record of unattributed loss. */
  lemma CutReported(code: ErasureCode, m: Overlay, tier: byte, blocks: nat, cut: nat)
    requires WellShaped(code) && Fits(m, blocks) && blocks < MAX_BLOCKS && (tier == 0 || tier == 1)
    requires cut < Offset(tier == 1, |m|)
    ensures Holds(m, SortedKeys(m)) && |SortedKeys(m)| == |m|
    ensures var e, k := Serialize(code, m, tier), WholeRecords(tier == 1, cut);
            e.Blob? && k < |m| && 18 + cut < |e.bytes| &&
            Inspect(code, e.bytes[..18 + cut]) == Reported(
              if cut - Offset(tier == 1, k) >= 8 then Report(1, tier, |m|, 18 + cut, [SortedKeys(m)[k]], 0, true)
              else Report(1, tier, |m|, 18 + cut, [], 1, true))
  {
    hide WellShaped, Header, Flat, Inspect, InspectRecords, Fits, Holds, SerializeRs;
    var keys, crc := SortedKeys(m), tier == 1;
    SortedKeysHold(m, blocks);
    var flat := Flat(m, keys, crc);
    CutBody(Report(1, tier, |m|, 18 + cut, [], 0, false), m, keys, crc, cut);
    PrefixOfConcat(Header(tier, |m|), flat, cut);
    BodyReported(code, tier, |m|, flat[..cut]);
  }

  lemma CutBody(r: Report, m: Overlay, idxs: seq<int>, crc: bool, cut: nat)
    requires Holds(m, idxs) && cut < Offset(crc, |idxs|) && r.blockCount == |idxs|
    ensures var k := WholeRecords(crc, cut);
            k < |idxs| &&
            InspectRecords(r, Flat(m, idxs, crc)[..cut], crc) ==
              if cut - Offset(crc, k) >= 8 then r.(bad := [idxs[k]], unattributed := 0, truncated := true)
              else r.(bad := [], unattributed := 1, truncated := true)
  {
    hide Flat, InspectRecords, Holds, TailBad, TailLoss, TailSlots, Slots;
    var k := WholeRecords(crc, cut);
    CutSlots(m, idxs, crc, cut);
    HoldsPart(m, idxs, k);
    IntactReported(r, Flat(m, idxs, crc)[..cut], crc, m, idxs[..k]);
    AscendingUnique(SortedSet({idxs[k]}), [idxs[k]]);
    ElementsEmpty(SortedSet({}));
  }

  lemma CutSlots(m: Overlay, idxs: seq<int>, crc: bool, cut: nat)
    requires Holds(m, idxs) && cut < Offset(crc, |idxs|)
    ensures var k, body := WholeRecords(crc, cut), Flat(m, idxs, crc)[..cut];
            var left := cut - Offset(crc, k);
            k < |idxs| && ScannedRecords(|body|, crc, |idxs|) == k && Slots(body, crc, k) == Intact(m, idxs[..k]) &&
            TailBad(body, crc, |idxs|) == (if left >= 8 then {idxs[k]} else {}) &&
            TailLoss(body, crc, |idxs|) == (if left >= 8 then 0 else 1) && TailSlots(body, crc, |idxs|) != []
  {
    hide Flat, Slots, ReadIndex;
    TruncatedSlots(m, idxs, crc, cut);
    var k, body := WholeRecords(crc, cut), Flat(m, idxs, crc)[..cut];
    var slots, tail := Slots(body, crc, k), TailSlots(body, crc, |idxs|);
    assert slots + tail == LayoutSlots(body, crc, |idxs|);
    assert slots == (slots + tail)[..k] == Intact(m, idxs[..k]);
    assert tail == (slots + tail)[k..];
  }

  /** A blob with bytes appended: no loss, but truncated. */
  lemma SurplusReported(code: ErasureCode, m: Overlay, tier: byte, blocks: nat, extra: seq<byte>)
    requires WellShaped(code) && Fits(m, blocks) && blocks < MAX_BLOCKS && (tier == 0 || tier == 1) && extra != []
    ensures Holds(m, SortedKeys(m)) && |SortedKeys(m)| == |m|
    ensures var e := Serialize(code, m, tier);
            e.Blob? &&
            Inspect(code, e.bytes + extra) == Reported(Report(1, tier, |m|, |e.bytes| + |extra|, [], 0, true))
  {
    hide WellShaped, Header, Flat, Inspect, InspectRecords, Fits, Holds, SerializeRs;
    var keys, crc := SortedKeys(m), tier == 1;
    SortedKeysHold(m, blocks);
    var flat := Flat(m, keys, crc);
    SurplusBody(Report(1, tier, |m|, 18 + |flat| + |extra|, [], 0, false), m, keys, crc, extra);
    assert (Header(tier, |m|) + flat) + extra == Header(tier, |m|) + (flat + extra);
    BodyReported(code, tier, |m|, flat + extra);
  }

  lemma SurplusBody(r: Report, m: Overlay, idxs: seq<int>, crc: bool, extra: seq<byte>)
    requires Holds(m, idxs) && extra != [] && r.blockCount == |idxs|
    ensures InspectRecords(r, Flat(m, idxs, crc) + extra, crc)
         == r.(bad := [], unattributed := 0, truncated := true)
  {
    hide Flat, InspectRecords, Holds, Slots, ReadIndex;
    FlatSlots(m, idxs, crc, extra, |idxs|);
    assert Intact(m, idxs)[..|idxs|] == Intact(m, idxs);
    IntactReported(r, Flat(m, idxs, crc) + extra, crc, m, idxs);
    ElementsEmpty(SortedSet({}));
  }

  /** The failed records that double no surviving one. */
  function LostAt(slots: seq<Slot>, left: Overlay): set<nat> {
    set i: nat | i < |slots| && slots[i].Whole? && !slots[i].ok && !Doubled(slots[i], left)
  }

  /**
   * An L1 blob in which each record is unchanged or fails its CRC: the loss counted is exactly the number of failed
   * records that double no surviving one, and no block is named.
   */
  lemma CorruptionReported(code: ErasureCode, m: Overlay, body: seq<byte>, blocks: nat)
    requires WellShaped(code) && Fits(m, blocks) && blocks < MAX_BLOCKS && Corrupted(body, m, SortedKeys(m))
    ensures |SortedKeys(m)| == |m|
    ensures var blob := Header(TIER_L1, |m|) + body;
            var slots := Slots(body, true, |m|);
            var lost := |LostAt(slots, Surviving(slots, m, SortedKeys(m)))|;
            Inspect(code, blob) == Reported(Report(1, 1, |m|, |blob|, [], lost, lost > 0))
  {
    hide WellShaped, Header, Inspect, InspectRecords, Slots, Surviving, LostAt, Corrupted, Fits;
    SortedKeysHold(m, blocks);
    CorruptedLength(body, m, SortedKeys(m));
    BodyReported(code, 1, |m|, body);
    CorruptedBody(Report(1, 1, |m|, 18 + |body|, [], 0, false), body, m, blocks);
  }

  lemma CorruptedBody(r: Report, body: seq<byte>, m: Overlay, blocks: nat)
    requires Fits(m, blocks) && blocks < MAX_BLOCKS && Corrupted(body, m, SortedKeys(m)) && r.blockCount == |m|
    ensures |SortedKeys(m)| == |m| && |body| == Offset(true, |m|)
    ensures var slots := Slots(body, true, |m|);
            var lost := |LostAt(slots, Surviving(slots, m, SortedKeys(m)))|;
            InspectRecords(r, body, true) == r.(bad := [], unattributed := lost, truncated := lost > 0)
  {
    hide Slots, Surviving, Verified, ListedIndices, LossCount, LostAt, Degraded, Corrupted, Fits, TailBad, TailLoss,
      TailSlots;
    var keys := SortedKeys(m);
    SortedKeysHold(m, blocks);
    CorruptedLength(body, m, keys);
    CorruptedSlots(body, m, keys);
    KeysBelow(m, blocks);
    FailedLoss(Slots(body, true, |m|), m, keys);
    ExactBody(body, |m|);
    ElementsEmpty(SortedSet({}));
  }

  lemma ExactBody(body: seq<byte>, count: nat)
    requires |body| == Offset(true, count)
    ensures ScannedRecords(|body|, true, count) == count && TailSlots(body, true, count) == []
    ensures TailBad(body, true, count) == {} && TailLoss(body, true, count) == 0
  {
    hide ReadIndex;
  }

  lemma CorruptedLength(body: seq<byte>, m: Overlay, idxs: seq<int>)
    requires Corrupted(body, m, idxs)
    ensures |body| == Offset(true, |idxs|) && Holds(m, idxs)
  {
    hide SlotAt, Unchanged;
  }

  lemma KeysBelow(m: Overlay, blocks: nat)
    requires Fits(m, blocks) && blocks <= MAX_BLOCKS
    ensures forall i :: 0 <= i < |SortedKeys(m)| ==> 0 <= SortedKeys(m)[i] < TWO_TO_THE_63
  {
    KeysCover(m);
    assert forall i :: 0 <= i < |SortedKeys(m)| ==> SortedKeys(m)[i] in SortedKeys(m);
  }

  lemma FailedLoss(slots: seq<Slot>, m: Overlay, idxs: seq<int>)
    requires Degraded(slots, m, idxs) && Ascending(idxs)
    requires forall i :: 0 <= i < |idxs| ==> 0 <= idxs[i] < TWO_TO_THE_63
    ensures ListedIndices(slots, Verified(slots)) == {}
    ensures LossCount(slots, Verified(slots)) == |LostAt(slots, Surviving(slots, m, idxs))|
  {
    hide Surviving, Applied;
    DegradedApplied(slots, m, idxs, TWO_TO_THE_63);
    LossCountIs(slots, Verified(slots));
    NoneListedIff(slots, Verified(slots));
    assert CountedAt(slots, Verified(slots)) == LostAt(slots, Surviving(slots, m, idxs));
  }

  // ----- behind a header that fails its CRC

  /** The records that do not verify are counted; with none that does, the blob is refused. */
  lemma HeaderlessReported(code: ErasureCode, blob: seq<byte>)
    requires WellShaped(code) && |blob| >= 18 && blob[..5] == SIGNATURE && !HeaderVerifies(blob)
    ensures Inspect(code, blob) ==
              if (blob[5] == 1 || blob[5] > 2) && |blob| > 18 && (|blob| - 18) % 4108 == 0 then
                var n := (|blob| - 18) / 4108;
                var lost := |Unverified(Slots(blob[18..], true, n))|;
                if lost == n then Failed(Corrupt)
                else Reported(Report(1, blob[5], FromLE(blob[6..14]), |blob|, [], lost, true))
              else Failed(Corrupt)
  {
    hide WellShaped, HeaderVerifies, Slots, OkCount, FromLE, Recognized;
    SignatureIff(blob);
    assert blob[4] == blob[..5][4] == 1;
    var body := blob[18..];
    if |body| > 0 && |body| % 4108 == 0 {
      OkCountIs(Slots(body, true, |body| / 4108));
    }
  }

  // ----- lost shards

  /** As long as the decoder repairs the loss, Inspect reports none. */
  lemma ToleratedReported(
    code: ErasureCode, m: Overlay, n: int, k: int, ts: seq<seq<byte>>, rest: seq<byte>, baseLen: nat)
    requires baseLen % BLOCK_SIZE == 0 && baseLen < TWO_TO_THE_63
    requires m != map[] && Writable(code, m, ShapeFor(|m|, n, k), baseLen / BLOCK_SIZE)
    requires var g := ShapeFor(|m|, n, k); code.init(g.n, g.k) && Corrects(code, g.n, g.k)
    requires Holds(m, SortedKeys(m)) && |SortedKeys(m)| == |m|
    requires var g := ShapeFor(|m|, n, k);
             g.n > 0 && Offset(true, |m|) == g.payloadLen <= g.n * g.size && Mangled(code, m, g, ts, rest) &&
             |KeptSet(ts, ShardsOf(code, PayloadOf(m), g))| >= g.n
    ensures var blob := Header(TIER_L2, |m|) + (Meta(ShapeFor(|m|, n, k)) + (Flatten(ts) + rest));
            Inspect(code, blob) == Reported(CleanReport(2, |m|, |blob|))
  {
    hide ShapeFor, ShardsOf, PayloadOf, Flatten, Decode, Inspect, Header, Meta, WellShaped, Fits, KeptSet, Corrects,
      Mangled,
      Holds, Encodable, Decodable;
    var body := Meta(ShapeFor(|m|, n, k)) + (Flatten(ts) + rest);
    ErasuresTolerated(code, m, n, k, ts, rest, baseLen);
    SortedKeysHold(m, baseLen / BLOCK_SIZE);
    HeaderFieldsRead(TIER_L2, |m|, body);
    CleanAnswer(code, Header(TIER_L2, |m|) + body, m, baseLen);
  }

  /** Beyond that, Inspect lists exactly the records lost but for their index, and counts exactly those lost whole. */
  lemma SalvageReported(
    code: ErasureCode, m: Overlay, n: int, k: int, ts: seq<seq<byte>>, rest: seq<byte>, blocks: nat)
    requires m != map[] && Writable(code, m, ShapeFor(|m|, n, k), blocks) && blocks < MAX_BLOCKS
    requires Holds(m, SortedKeys(m)) && |SortedKeys(m)| == |m|
    requires var g := ShapeFor(|m|, n, k);
             g.n > 0 && Offset(true, |m|) == g.payloadLen <= g.n * g.size && Mangled(code, m, g, ts, rest) &&
             |KeptSet(ts, ShardsOf(code, PayloadOf(m), g))| < g.n
    ensures var g := ShapeFor(|m|, n, k);
            g.size > 0 &&
            var left := Remnants(ts, ShardsOf(code, PayloadOf(m), g), g, m, SortedKeys(m));
            var gone := |GoneAt(left)|;
            var blob := Header(TIER_L2, |m|) + (Meta(g) + (Flatten(ts) + rest));
            Inspect(code, blob) ==
              if QuarterThere(g, 20 + |Flatten(ts) + rest|) then
                Reported(Report(1, 2, |m|, |blob|, SortedSet(Named(left, SortedKeys(m))), gone, gone > 0))
              else Failed(Corrupt)
  {
    hide ShapeFor, ShardsOf, PayloadOf, Flatten, Header, Meta, WellShaped, Fits, KeptSet, Holds, Mangled, Encodable,
      Decodable,
      Remnants, Named, InspectRs, Inspect, GoneAt, QuarterThere;
    var g := ShapeFor(|m|, n, k);
    var body := Meta(g) + (Flatten(ts) + rest);
    ShapeOfOverlay(m, n, k, blocks);
    RsBodyReported(code, |m|, body);
    var blob := Header(TIER_L2, |m|) + body;
    var r := Report(1, 2, |m|, |blob|, [], 0, false);
    assert Inspect(code, blob) == InspectRs(code, r, body);
    SalvagedBody(code, m, g, ts, rest, r, blocks);
  }

  lemma RsBodyReported(code: ErasureCode, count: nat, body: seq<byte>)
    requires WellShaped(code) && count < TWO_TO_THE_64
    ensures var blob := Header(TIER_L2, count) + body;
            Inspect(code, blob) == InspectRs(code, Report(1, 2, count, |blob|, [], 0, false), body)
  {
    hide WellShaped, Header, InspectRs, HeaderVerifies, Recognized, BlockCount;
    HeaderReads(TIER_L2, count, body);
    SignatureIff(Header(TIER_L2, count) + body);
  }

  lemma SalvagedBody(
    code: ErasureCode, m: Overlay, g: Shape, ts: seq<seq<byte>>, rest: seq<byte>, r: Report, blocks: nat)
    requires Writable(code, m, g, blocks) && blocks < MAX_BLOCKS && r.blockCount == |m|
    requires Holds(m, SortedKeys(m)) && 0 < |SortedKeys(m)| == |m| <= MAX_BLOCKS
    requires g.n > 0 && g.k > 0 && g.size > 0 && Offset(true, |m|) == g.payloadLen <= g.n * g.size
    requires g == Shape(g.n, g.k, ShardSize(Offset(true, |m|), g.n), Offset(true, |m|))
    requires Mangled(code, m, g, ts, rest) && |KeptSet(ts, ShardsOf(code, PayloadOf(m), g))| < g.n
    ensures var left := Remnants(ts, ShardsOf(code, PayloadOf(m), g), g, m, SortedKeys(m));
            var gone := |GoneAt(left)|;
            InspectRs(code, r, Meta(g) + (Flatten(ts) + rest)) ==
              if QuarterThere(g, 20 + |Flatten(ts) + rest|) then
                Reported(r.(bad := SortedSet(Named(left, SortedKeys(m))), unattributed := gone, truncated := gone > 0))
              else Failed(Corrupt)
  {
    hide ShardsOf, PayloadOf, Flatten, Meta, WellShaped, Fits, KeptSet, Holds, Damaged, ParseMeta, Encodable,
      Decodable, Slack,
      Remnants, Named, InspectSlots, RsSlots, Holed, GoneAt, ShardSize, QuarterThere;
    var sect := Flatten(ts) + rest;
    QuarterNeeded(g, META_SIZE + |sect|);
    EncoderDecoderAgree(g.n, g.k, |m|, sect);
    if Slack(g, META_SIZE + |sect|) {
      SalvagedSlots(code, m, g, ts, rest, blocks);
      HoledReported(r, Remnants(ts, ShardsOf(code, PayloadOf(m), g), g, m, SortedKeys(m)), m, SortedKeys(m), blocks);
    }
  }

  lemma SalvagedSlots(code: ErasureCode, m: Overlay, g: Shape, ts: seq<seq<byte>>, rest: seq<byte>, blocks: nat)
    requires Writable(code, m, g, blocks) && g.size > 0 && g.n > 0
    requires Holds(m, SortedKeys(m)) && 0 < |SortedKeys(m)| == |m| && Offset(true, |m|) == g.payloadLen <= g.n * g.size
    requires Mangled(code, m, g, ts, rest) && |KeptSet(ts, ShardsOf(code, PayloadOf(m), g))| < g.n
    requires ParseMeta(Meta(g) + (Flatten(ts) + rest), |m|) == Some(g)
    ensures RsSlots(code, Meta(g) + (Flatten(ts) + rest), g, |m|)
         == Remnants(ts, ShardsOf(code, PayloadOf(m), g), g, m, SortedKeys(m))
    ensures Holed(RsSlots(code, Meta(g) + (Flatten(ts) + rest), g, |m|), m, SortedKeys(m))
  {
    hide ShardsOf, Flat, Flatten, Meta, Fits, KeptSet, Damaged, ParseMeta, ParseSection, Encodable, Decodable, Remnants,
      Survivors, Missing, SalvageSlots, SlotsEqual, WellShaped;
    var keys, payload := SortedKeys(m), PayloadOf(m);
    var shards := ShardsOf(code, payload, g);
    MangledSection(code, m, g, ts, rest);
    assert (Meta(g) + (Flatten(ts) + rest))[META_SIZE..] == Flatten(ts) + rest;
    ShardsAre(code, payload, g);
    SalvagedRemnants(ts, code.encode(DataShards(payload, g.n, g.size), g.k), g, m, keys);
    RemnantsHoled(ts, shards, g, m, keys);
  }

  lemma ShardsAre(code: ErasureCode, payload: seq<byte>, g: Shape)
    requires WellShaped(code) && g.n > 0 && g.size > 0 && |payload| == g.payloadLen <= g.n * g.size
    ensures var data := DataShards(payload, g.n, g.size);
            ShardsOf(code, payload, g) == data + code.encode(data, g.k) && Equal(code.encode(data, g.k), g.size)
  {
    hide DataShards;
    var data := DataShards(payload, g.n, g.size);
    assert Equal(data, g.size);
  }

  lemma HoledReported(r: Report, slots: seq<Slot>, m: Overlay, idxs: seq<int>, blocks: nat)
    requires Holed(slots, m, idxs) && idxs == SortedKeys(m) && Fits(m, blocks) && blocks <= MAX_BLOCKS
    ensures InspectSlots(r, slots) ==
              r.(bad := SortedSet(Named(slots, idxs)), unattributed := |GoneAt(slots)|,
                 truncated := |GoneAt(slots)| > 0)
  {
    hide Verified, ListedIndices, LossCount, Holed, Named, Fits;
    KeysBelow(m, blocks);
    HoledLoss(slots, m, idxs);
  }

  lemma HoledLoss(slots: seq<Slot>, m: Overlay, idxs: seq<int>)
    requires Holed(slots, m, idxs) && Ascending(idxs)
    requires forall i :: 0 <= i < |idxs| ==> 0 <= idxs[i] < TWO_TO_THE_63
    ensures ListedIndices(slots, Verified(slots)) == Named(slots, idxs)
    ensures LossCount(slots, Verified(slots)) == |GoneAt(slots)|
  {
    hide Applied;
    HoledApplied(slots, m, idxs, TWO_TO_THE_63);
    var v := Verified(slots);
    LossCountIs(slots, v);
    forall i | 0 <= i < |slots| && slots[i].Cut? ensures slots[i].idx == idxs[i] && idxs[i] !in v {
      CutNotApplied(slots, m, idxs, i);
    }
    assert CountedAt(slots, v) == GoneAt(slots);
    forall c | c in Named(slots, idxs) ensures c in ListedIndices(slots, v) {
      var i :| 0 <= i < |idxs| && slots[i].Cut? && idxs[i] == c;
      assert Listed(slots[i], v);
    }
  }

  lemma CutNotApplied(slots: seq<Slot>, m: Overlay, idxs: seq<int>, i: nat)
    requires Holed(slots, m, idxs) && Ascending(idxs) && i < |slots| && slots[i].Cut?
    ensures slots[i].idx == idxs[i] && idxs[i] !in Surviving(slots, m, idxs)
  {
  }

  // ----- what a clean report is worth

  /** Every verified record's index is below the number of blocks. */
  predicate Reaches(slots: seq<Slot>, blocks: nat) {
    forall i :: 0 <= i < |slots| && slots[i].Whole? && slots[i].ok ==> slots[i].idx < blocks
  }

  /**
   * Where records carry CRCs, a clean report leaves nothing to fear but a base that is too short: an index that can lie
   * in no base would have been listed.
   */
  lemma CleanMeansReachable(code: ErasureCode, blob: seq<byte>, baseLen: nat)
    requires WellShaped(code) && CodeReady(code) && baseLen % BLOCK_SIZE == 0 && baseLen < TWO_TO_THE_63
    requires Inspect(code, blob).Reported? && Clean(Inspect(code, blob).report)
    ensures Recognized(blob) && HeaderVerifies(blob)
    ensures Inspect(code, blob).report.tier != 0 ==>
              var d := Decode(code, blob, baseLen);
              d.Accept? && (d.err == None <==> Reaches(BlobSlots(code, blob), baseLen / BLOCK_SIZE))
  {
    hide WellShaped, CodeReady, Inspect, Decode, Recognized, HeaderVerifies, BlobSlots, Covers, Mirrors,
      MirrorsUnapplied;
    InspectAgrees(code, blob, baseLen);
    ReportFields(code, blob);
    if Inspect(code, blob).report.tier != 0 {
      NothingNegative(code, blob);
      NonNegativeCovers(BlobSlots(code, blob), baseLen / BLOCK_SIZE);
    }
  }

  predicate NonNegative(slots: seq<Slot>) {
    forall i :: 0 <= i < |slots| && slots[i].Whole? && slots[i].ok ==> slots[i].idx >= 0
  }

  lemma NonNegativeCovers(slots: seq<Slot>, blocks: nat)
    requires NonNegative(slots)
    ensures Covers(slots, blocks) <==> Reaches(slots, blocks)
  {
  }

  lemma NothingNegative(code: ErasureCode, blob: seq<byte>)
    requires WellShaped(code) && Recognized(blob) && HeaderVerifies(blob) && blob[5] != 0
    requires Inspect(code, blob).Reported? && Clean(Inspect(code, blob).report)
    ensures NonNegative(BlobSlots(code, blob))
  {
    hide WellShaped, HeaderVerifies, ParseMeta, RsSlots, LayoutSlots, InspectRecords, InspectSlots, NonNegative, Clean;
    var r, body := HeaderReport(blob), blob[HEADER_SIZE..];
    if blob[5] == TIER_L1 {
      CleanRecords(r, body);
    } else {
      CleanSlots(r, RsSlots(code, body, ParseMeta(body, r.blockCount).value, r.blockCount));
    }
  }

  lemma CleanRecords(r: Report, body: seq<byte>)
    requires Clean(InspectRecords(r, body, true))
    ensures NonNegative(LayoutSlots(body, true, r.blockCount))
  {
    hide InspectRecords, LayoutSlots, NonNegative, Clean;
    if TailSlots(body, true, r.blockCount) != [] {
      TailTruncates(r, body, true);
    } else {
      WholeAgree(r, body, 0);
      Unlisted(LayoutSlots(body, true, r.blockCount));
    }
  }

  lemma CleanSlots(r: Report, slots: seq<Slot>)
    requires Clean(InspectSlots(r, slots))
    ensures NonNegative(slots)
  {
    hide InspectSlots, NonNegative, Clean;
    SlotReportClean(r, slots);
    Unlisted(slots);
  }

  lemma Unlisted(slots: seq<Slot>)
    requires ListedIndices(slots, Verified(slots)) == {}
    ensures NonNegative(slots)
  {
    hide Verified;
    NoneListedIff(slots, Verified(slots));
  }
}
