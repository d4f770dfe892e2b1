/**
 * What Inspect reports about a blob without a base, and how far that agrees with what Deserialize does
 * with the same bytes on any base.
 */
module Inspection {
  import opened Bytes
  import opened Sorting
  import opened Records
  import opened RecordDecoder
  import opened WireFormat
  import opened Erasure
  import opened Geometry
  import opened Shards
  import opened ShardedFormat
  import opened Codec

  /** The fields of Info. */
  datatype Report = Report(
    version: byte, tier: byte, blockCount: nat, blobSize: nat, bad: seq<int>, unattributed: nat, truncated: bool)

  datatype Inspected = Failed(error: Error) | Reported(report: Report)

  /** The overlay of a base so large that every non-negative index is in range. */
  function Verified(slots: seq<Slot>): Overlay {
    Applied(slots, TWO_TO_THE_63)
  }

  /** The slot counts as unattributed loss, given the verified records. */
  predicate Counted(s: Slot, m: Overlay) {
    match s
    case Whole(idx, data, ok) => !ok && !(idx in m && m[idx] == data)
    case Cut(idx) => idx in m
    case Gone => true
  }

  /** The slot's index is listed in BadBlocks, given the verified records. */
  predicate Listed(s: Slot, m: Overlay) {
    match s
    case Whole(idx, data, ok) => ok && idx < 0
    case Cut(idx) => idx !in m
    case Gone => false
  }

  function LossCount(slots: seq<Slot>, m: Overlay): nat {
    if slots == [] then 0
    else LossCount(slots[..|slots| - 1], m) + if Counted(slots[|slots| - 1], m) then 1 else 0
  }

  function ListedIndices(slots: seq<Slot>, m: Overlay): set<int> {
    set i | 0 <= i < |slots| && Listed(slots[i], m) :: if slots[i].Gone? then 0 else slots[i].idx
  }

  /** How many records verify. */
  function OkCount(slots: seq<Slot>): (c: nat)
    ensures c <= |slots|
  {
    if slots == [] then 0
    else OkCount(slots[..|slots| - 1]) + if slots[|slots| - 1].Whole? && slots[|slots| - 1].ok then 1 else 0
  }

  // ----- Inspect

  function TailBad(body: seq<byte>, crc: bool, count: nat): set<int> {
    var n := WholeRecords(crc, |body|);
    var tail := body[Offset(crc, n)..];
    if n < count && |tail| >= 8 then {ReadIndex(tail)} else {}
  }

  function TailLoss(body: seq<byte>, crc: bool, count: nat): nat {
    var n := WholeRecords(crc, |body|);
    if n < count && |body| - Offset(crc, n) < 8 then 1 else 0
  }

  /** What is reported for a record body: the layout, and at L1 the scan of its whole records. */
  ghost function InspectRecords(r: Report, body: seq<byte>, crc: bool): Report {
    var slots := if crc then Slots(body, true, ScannedRecords(|body|, true, r.blockCount)) else [];
    var bad := TailBad(body, crc, r.blockCount) + ListedIndices(slots, Verified(slots));
    var lost := TailLoss(body, crc, r.blockCount) + LossCount(slots, Verified(slots));
    r.(bad := SortedSet(bad), unattributed := lost, truncated := TailSlots(body, crc, r.blockCount) != [] || lost > 0)
  }

  ghost function InspectSlots(r: Report, slots: seq<Slot>): Report {
    var lost := LossCount(slots, Verified(slots));
    r.(bad := SortedSet(ListedIndices(slots, Verified(slots))), unattributed := lost, truncated := lost > 0)
  }

  /** The record slots behind the shards of an L2 body. */
  ghost function ShardedSlots(code: ErasureCode, slots: seq<ShardSlot>, g: Shape): seq<Slot>
    requires WellShaped(code) && 1 <= g.n && g.size > 0 && g.payloadLen <= g.n * g.size
    requires |slots| == g.n + g.k && SlotsEqual(slots, g.size)
  {
    if Missing(slots) <= g.k && code.init(g.n, g.k) && code.reconstruct(slots, g.n).Some? then
      var data := code.reconstruct(slots, g.n).value;
      FlattenLength(data, g.size);
      Slots(Flatten(data)[..g.payloadLen], true, WholeRecords(true, g.payloadLen))
    else SalvageSlots(slots, g.n, g.size, g.payloadLen)
  }

  ghost function RsSlots(code: ErasureCode, body: seq<byte>, g: Shape, count: nat): seq<Slot>
    requires WellShaped(code) && ParseMeta(body, count) == Some(g)
  {
    hide ParseMeta, Admissible, ParseSection, ShardedSlots, WellShaped, SlotsEqual;
    if g.payloadLen == 0 then []
    else
      AdmissibleShape(g, count, |body|);
      SectionEqual(body[META_SIZE..], g.n + g.k, g.size);
      ShardedSlots(code, ParseSection(body[META_SIZE..], g.n + g.k, g.size), g)
  }

  ghost function InspectRs(code: ErasureCode, r: Report, body: seq<byte>): Inspected
    requires WellShaped(code)
  {
    var parsed := ParseMeta(body, r.blockCount);
    if parsed.None? then Failed(Corrupt)
    else Reported(InspectSlots(r, RsSlots(code, body, parsed.value, r.blockCount)))
  }

  function InspectHeaderless(r: Report, body: seq<byte>): Inspected {
    if |body| == 0 || |body| % L1_RECORD_SIZE != 0 then Failed(Corrupt)
    else
      var n := WholeRecords(true, |body|);
      var recovered := OkCount(Slots(body, true, n));
      if recovered == 0 then Failed(Corrupt)
      else Reported(r.(unattributed := n - recovered, truncated := true))
  }

  function HeaderReport(blob: seq<byte>): Report
    requires |blob| >= HEADER_SIZE
  {
    Report(blob[4], blob[5], BlockCount(blob), |blob|, [], 0, false)
  }

  ghost function Inspect(code: ErasureCode, blob: seq<byte>): Inspected
    requires WellShaped(code)
  {
    if !Recognized(blob) then Failed(Corrupt)
    else
      var r := HeaderReport(blob);
      var body := blob[HEADER_SIZE..];
      if !HeaderVerifies(blob) then
        if blob[5] == TIER_L1 || blob[5] > TIER_L2 then InspectHeaderless(r, body) else Failed(Corrupt)
      else if blob[5] == TIER_L0 || blob[5] == TIER_L1 then Reported(InspectRecords(r, body, blob[5] == TIER_L1))
      else if blob[5] == TIER_L2 then InspectRs(code, r, body)
      else Failed(UnsupportedTier)
  }

  // ----- agreement on slots

  /** Nothing is reported lost. */
  predicate Clean(r: Report) {
    r.bad == [] && r.unattributed == 0 && !r.truncated
  }

  /** The base covers the index of every verified record. */
  predicate Covers(slots: seq<Slot>, blocks: nat) {
    forall i :: 0 <= i < |slots| && slots[i].Whole? && slots[i].ok ==> InRange(slots[i].idx, blocks)
  }

  lemma {:induction false} VerifiedRestricts(slots: seq<Slot>, blocks: nat)
    requires blocks <= TWO_TO_THE_63
    ensures forall k :: k in Applied(slots, blocks) <==> k in Verified(slots) && k < blocks
    ensures forall k :: k in Applied(slots, blocks) ==> Applied(slots, blocks)[k] == Verified(slots)[k]
  {
    if slots != [] {
      VerifiedRestricts(slots[..|slots| - 1], blocks);
    }
  }

  lemma {:induction false} NoLossIff(slots: seq<Slot>, m: Overlay)
    ensures LossCount(slots, m) == 0 <==> forall i :: 0 <= i < |slots| ==> !Counted(slots[i], m)
  {
    if slots != [] {
      NoLossIff(slots[..|slots| - 1], m);
    }
  }

  lemma NoneListedIff(slots: seq<Slot>, m: Overlay)
    ensures ListedIndices(slots, m) == {} <==> forall i :: 0 <= i < |slots| ==> !Listed(slots[i], m)
  {
    if i :| 0 <= i < |slots| && Listed(slots[i], m) {
      assert slots[i].idx in ListedIndices(slots, m);
    } else if ListedIndices(slots, m) != {} {
      var k := Any(ListedIndices(slots, m));
      assert false;
    }
  }

  predicate BelowMax(slots: seq<Slot>) {
    forall i :: 0 <= i < |slots| && slots[i].Whole? ==> slots[i].idx < TWO_TO_THE_63
  }

  lemma SlotAgrees(slots: seq<Slot>, blocks: nat, i: nat)
    requires blocks <= TWO_TO_THE_63 && i < |slots| && BelowMax(slots)
    ensures Harmless(slots[i], Applied(slots, blocks), blocks) ==>
              !Counted(slots[i], Verified(slots)) && !Listed(slots[i], Verified(slots)) &&
              (slots[i].ok ==> InRange(slots[i].idx, blocks))
    ensures !Counted(slots[i], Verified(slots)) && !Listed(slots[i], Verified(slots)) && Covers(slots, blocks) ==>
              Harmless(slots[i], Applied(slots, blocks), blocks)
  {
    VerifiedRestricts(slots, blocks);
    if slots[i].Whole? && !slots[i].ok && slots[i].idx in Verified(slots) {
      var j := AppliedFrom(slots, TWO_TO_THE_63, slots[i].idx);
    }
  }

  /** Nothing listed and nothing counted, on a base covering the records, is a nil error, and conversely. */
  lemma SlotsAgree(slots: seq<Slot>, blocks: nat)
    requires blocks <= TWO_TO_THE_63 && BelowMax(slots)
    ensures Conclude(slots, blocks).err == None <==>
            ListedIndices(slots, Verified(slots)) == {} && LossCount(slots, Verified(slots)) == 0 &&
            Covers(slots, blocks)
  {
    hide Applied, Verified, Harmless, Counted, Listed, Conclude, ListedIndices;
    var m := Verified(slots);
    NilErrorIff(slots, blocks);
    NoLossIff(slots, m);
    NoneListedIff(slots, m);
    forall i | 0 <= i < |slots|
      ensures Harmless(slots[i], Applied(slots, blocks), blocks) ==>
              !Counted(slots[i], m) && !Listed(slots[i], m) &&
              (slots[i].Whole? && slots[i].ok ==> InRange(slots[i].idx, blocks))
      ensures !Counted(slots[i], m) && !Listed(slots[i], m) && Covers(slots, blocks) ==>
              Harmless(slots[i], Applied(slots, blocks), blocks)
    {
      SlotAgrees(slots, blocks, i);
    }
  }

  /** The indices of a base of `blocks` blocks. */
  function Within(bad: set<int>, blocks: nat): set<int> {
    set k | k in bad && InRange(k, blocks)
  }

  /** On one stream of slots the decoder blames exactly the listed indices that lie in the base. */
  lemma BlamedIsListed(slots: seq<Slot>, blocks: nat)
    requires blocks <= TWO_TO_THE_63
    ensures Blamed(slots, Applied(slots, blocks), blocks) == Within(ListedIndices(slots, Verified(slots)), blocks)
  {
    VerifiedRestricts(slots, blocks);
    var m := Applied(slots, blocks);
    forall k | k in Blamed(slots, m, blocks) ensures k in ListedIndices(slots, Verified(slots)) {
      var i :| 0 <= i < |slots| && Blamable(slots[i], m, blocks) && slots[i].idx == k;
      assert Listed(slots[i], Verified(slots));
    }
    forall k | k in Within(ListedIndices(slots, Verified(slots)), blocks) ensures k in Blamed(slots, m, blocks) {
      var i :| 0 <= i < |slots| && Listed(slots[i], Verified(slots)) && slots[i].idx == k;
      assert Blamable(slots[i], m, blocks);
    }
  }

  // ----- agreement on blobs

  /** The decoder's BadBlocks. */
  function BadOf(d: Result): set<int> {
    if d.Accept? && d.err.Some? && d.err.value.Partial? then Elements(d.err.value.bad) else {}
  }

  /** The decoder's BadBlocks are the report's, as far as they lie in the base. */
  predicate Mirrors(r: Report, d: Result, blocks: nat) {
    d.Accept? ==> BadOf(d) == Within(Elements(r.bad), blocks)
  }

  /** The decoder's BadBlocks are the report's, as far as they lie in the base and were not applied. */
  predicate MirrorsUnapplied(r: Report, d: Result, blocks: nat) {
    d.Accept? ==> BadOf(d) == Within(Elements(r.bad), blocks) - d.overlay.Keys
  }

  /** The cut-off record names a block that an earlier record of the body was applied for. */
  predicate TailRepeats(body: seq<byte>, crc: bool, count: nat, blocks: nat) {
    exists i :: 0 <= i < ScannedRecords(|body|, crc, count) &&
      Usable(SlotAt(body, crc, i), blocks) && SlotAt(body, crc, i).idx in TailBad(body, crc, count)
  }

  predicate BlobTailRepeats(blob: seq<byte>, blocks: nat) {
    Recognized(blob) && HeaderVerifies(blob) && (blob[5] == TIER_L0 || blob[5] == TIER_L1) &&
    TailRepeats(blob[HEADER_SIZE..], blob[5] == TIER_L1, BlockCount(blob), blocks)
  }

  lemma ConcludeBad(slots: seq<Slot>, blocks: nat)
    ensures var d := Conclude(slots, blocks);
            BadOf(d) == Blamed(slots, d.overlay, blocks) && BadOf(d) !! d.overlay.Keys
  {
    var m := Applied(slots, blocks);
    VerdictBad(Blamed(slots, m, blocks), Truncated(slots, m, blocks));
  }

  /** The slots behind the blob: what the decoder would apply on some base. */
  ghost function BlobSlots(code: ErasureCode, blob: seq<byte>): seq<Slot>
    requires WellShaped(code)
    requires Recognized(blob) && HeaderVerifies(blob) && Inspect(code, blob).Reported?
  {
    var body, count := blob[HEADER_SIZE..], BlockCount(blob);
    if blob[5] == TIER_L2 then RsSlots(code, body, ParseMeta(body, count).value, count)
    else LayoutSlots(body, blob[5] == TIER_L1, count)
  }

  lemma VerdictBad(bad: set<int>, truncated: bool)
    ensures var v := Verdict(bad, truncated); v.Some? ==> v.value.Partial? && Elements(v.value.bad) == bad
    ensures Verdict(bad, truncated) == None <==> bad == {} && !truncated
  {
  }

  lemma LayoutBelowMax(body: seq<byte>, crc: bool, count: nat)
    ensures BelowMax(LayoutSlots(body, crc, count))
  {
  }

  /** A damaged layout is an error for the decoder and a truncation for Inspect. */
  lemma TailReported(body: seq<byte>, crc: bool, count: nat, blocks: nat)
    requires TailSlots(body, crc, count) != []
    ensures DecodeRecords(body, crc, count, blocks).err.Some?
  {
    hide Slots, Conclude, TailSlot;
    var slots := LayoutSlots(body, crc, count);
    var n := ScannedRecords(|body|, crc, count);
    assert slots[n] == TailSlots(body, crc, count)[0];
    TailNotWhole(body, crc, count);
    LossIsReported(slots, blocks, n);
  }

  lemma TailNotWhole(body: seq<byte>, crc: bool, count: nat)
    requires TailSlots(body, crc, count) != []
    ensures !TailSlots(body, crc, count)[0].Whole?
  {
  }

  lemma BlamedIsTail(body: seq<byte>, crc: bool, count: nat, blocks: nat)
    ensures var slots := LayoutSlots(body, crc, count);
            var m := Applied(slots, blocks);
            Blamed(slots, m, blocks) == Within(TailBad(body, crc, count), blocks) - m.Keys
  {
    hide Applied, SlotAt, ReadIndex;
    var slots := LayoutSlots(body, crc, count);
    var m := Applied(slots, blocks);
    forall k | k in Blamed(slots, m, blocks) ensures k in TailBad(body, crc, count) {
      var i :| 0 <= i < |slots| && Blamable(slots[i], m, blocks) && slots[i].idx == k;
      assert i == |slots| - 1;
    }
    forall k | k in Within(TailBad(body, crc, count), blocks) - m.Keys ensures k in Blamed(slots, m, blocks) {
      assert Blamable(slots[|slots| - 1], m, blocks);
    }
  }

  /** An index in the tail was applied exactly when a usable record of the body carries it. */
  lemma TailApplied(body: seq<byte>, crc: bool, count: nat, blocks: nat)
    ensures var m := Applied(LayoutSlots(body, crc, count), blocks);
            TailRepeats(body, crc, count, blocks) <==> !(Within(TailBad(body, crc, count), blocks) !! m.Keys)
  {
    hide Applied, SlotAt, TailBad, TailSlots;
    var slots, n := LayoutSlots(body, crc, count), ScannedRecords(|body|, crc, count);
    var m := Applied(slots, blocks);
    assert forall i :: 0 <= i < n ==> slots[i] == SlotAt(body, crc, i);
    var both := Within(TailBad(body, crc, count), blocks) * m.Keys;
    if both != {} {
      var k := Any(both);
      var i := AppliedFrom(slots, blocks, k);
      TailUnusable(body, crc, count, blocks);
      assert i < n && Usable(SlotAt(body, crc, i), blocks) && SlotAt(body, crc, i).idx in TailBad(body, crc, count);
    } else {
      forall k | k in Within(TailBad(body, crc, count), blocks) ensures k !in m.Keys {
        assert k in both <==> k in m.Keys;
      }
    }
    if i :|
      0 <= i < n && Usable(SlotAt(body, crc, i), blocks) && SlotAt(body, crc, i).idx in TailBad(body, crc, count)
    {
      UsableIsApplied(slots, blocks, i);
      assert slots[i].idx in both;
    }
  }

  lemma TailUnusable(body: seq<byte>, crc: bool, count: nat, blocks: nat)
    ensures var slots, n := LayoutSlots(body, crc, count), ScannedRecords(|body|, crc, count);
            forall i :: n <= i < |slots| ==> !Usable(slots[i], blocks)
  {
    hide SlotAt, ReadIndex;
  }

  lemma BareRecords(slots: seq<Slot>)
    requires forall i :: 0 <= i < |slots| ==> slots[i].Whole? && slots[i].ok
    ensures LossCount(slots, Verified(slots)) == 0
  {
    NoLossIff(slots, Verified(slots));
  }

  /** The listed indices of whole records lie in no base. */
  lemma WholeListed(slots: seq<Slot>, m: Overlay, blocks: nat)
    requires forall i :: 0 <= i < |slots| ==> slots[i].Whole?
    ensures Within(ListedIndices(slots, m), blocks) == {}
  {
  }

  lemma InspectedBad(r: Report, body: seq<byte>, crc: bool, blocks: nat)
    ensures Within(Elements(InspectRecords(r, body, crc).bad), blocks)
         == Within(TailBad(body, crc, r.blockCount), blocks)
  {
    hide ListedIndices, LossCount, TailBad, TailLoss, TailSlots, SlotAt, Verified, Within;
    var slots := if crc then Slots(body, true, ScannedRecords(|body|, true, r.blockCount)) else [];
    var listed := ListedIndices(slots, Verified(slots));
    WholeListed(slots, Verified(slots), blocks);
    WithinUnion(TailBad(body, crc, r.blockCount), listed, blocks);
  }

  lemma WithinUnion(a: set<int>, b: set<int>, blocks: nat)
    ensures Within(a + b, blocks) == Within(a, blocks) + Within(b, blocks)
  {
  }

  /** At L0 and L1 the decoder drops from Inspect's list what lies outside the base or was applied, and no more. */
  lemma RecordsMirror(r: Report, body: seq<byte>, crc: bool, blocks: nat)
    ensures var i := InspectRecords(r, body, crc);
            var d := DecodeRecords(body, crc, r.blockCount, blocks);
            MirrorsUnapplied(i, d, blocks) &&
            (Mirrors(i, d, blocks) <==> !TailRepeats(body, crc, r.blockCount, blocks))
  {
    hide InspectRecords, TailBad, TailRepeats, Applied, Within, LayoutSlots, BadOf, Blamed;
    var slots := LayoutSlots(body, crc, r.blockCount);
    InspectedBad(r, body, crc, blocks);
    BlamedIsTail(body, crc, r.blockCount, blocks);
    TailApplied(body, crc, r.blockCount, blocks);
    ConcludeBad(slots, blocks);
  }

  /**
   * The two lists do differ: behind a whole record for block 0, the first eight bytes of a second one make
   * Inspect list block 0, while Deserialize has applied it and lists nothing.
   */
  lemma TailListedOnly(code: ErasureCode, crc: bool, data: seq<byte>)
    requires WellShaped(code) && |data| == BLOCK_SIZE
    ensures var blob := Header(if crc then TIER_L1 else TIER_L0, 2) + (Encode(0, data, crc) + LE(0, 8));
            Inspect(code, blob).Reported? && Inspect(code, blob).report.bad == [0] &&
            Decode(code, blob, BLOCK_SIZE) == Accept(map[0 := data], Some(Partial([], true)))
  {
    hide Header, Encode, LE, Conclude, WellShaped, InspectRs, DecodeRs, InspectHeaderless, DecodeHeaderless,
      LayoutSlots;
    var tier := if crc then TIER_L1 else TIER_L0;
    var body := Encode(0, data, crc) + LE(0, 8);
    var r := HeaderReport(Header(tier, 2) + body);
    HeaderReads(tier, 2, body);
    HeaderDecodes(code, tier, body, 2, BLOCK_SIZE);
    RepeatedTail(r, crc, data);
  }

  lemma RepeatedTail(r: Report, crc: bool, data: seq<byte>)
    requires |data| == BLOCK_SIZE && r.blockCount == 2
    ensures var body := Encode(0, data, crc) + LE(0, 8);
            InspectRecords(r, body, crc).bad == [0] &&
            DecodeRecords(body, crc, 2, 1) == Accept(map[0 := data], Some(Partial([], true)))
  {
    hide LossCount, Verified, Conclude, ListedIndices, Slots, LayoutSlots, TailBad, TailLoss, TailSlots, Encode, LE,
      InspectRecords;
    RepeatedLayout(crc, data);
    OneWhole(data);
    ZeroListed(r, Encode(0, data, crc) + LE(0, 8), crc, data);
  }

  lemma ZeroListed(r: Report, body: seq<byte>, crc: bool, data: seq<byte>)
    requires r.blockCount == 2 && TailBad(body, crc, 2) == {0} && ScannedRecords(|body|, crc, 2) == 1
    requires Slots(body, crc, 1) == [Whole(0, data, true)]
    requires var slots := [Whole(0, data, true)];
             ListedIndices(slots, Verified(slots)) == {} && ListedIndices([], Verified([])) == {}
    ensures InspectRecords(r, body, crc).bad == [0]
  {
    hide LossCount, Verified, ListedIndices, Slots, TailBad, TailLoss, TailSlots, ScannedRecords;
    var slots := if crc then Slots(body, true, 1) else [];
    assert ListedIndices(slots, Verified(slots)) == {};
    assert {0} + {} == {0};
    ZeroAlone();
  }

  lemma ZeroAlone()
    ensures SortedSet({0}) == [0]
  {
    AscendingUnique(SortedSet({0}), [0]);
  }

  lemma RepeatedLayout(crc: bool, data: seq<byte>)
    requires |data| == BLOCK_SIZE
    ensures var body := Encode(0, data, crc) + LE(0, 8);
            ScannedRecords(|body|, crc, 2) == 1 && Slots(body, crc, 1) == [Whole(0, data, true)] &&
            LayoutSlots(body, crc, 2) == [Whole(0, data, true), Cut(0)] && TailBad(body, crc, 2) == {0}
  {
    hide Encode, LE, Parse, ReadIndex;
    var body := Encode(0, data, crc) + LE(0, 8);
    ParseEncode(0, data, crc);
    assert body[..RecordSize(crc)] == Encode(0, data, crc);
    assert body[RecordSize(crc)..] == LE(0, 8);
    ZeroIndex();
  }

  lemma ZeroIndex()
    ensures ReadIndex(LE(0, 8)) == 0
  {
    hide LE, FromLE;
    FromLE8(0);
    assert LE(0, 8)[..8] == LE(0, 8);
  }

  lemma OneWhole(data: seq<byte>)
    ensures var slots := [Whole(0, data, true)];
            ListedIndices(slots, Verified(slots)) == {} && ListedIndices([], Verified([])) == {} &&
            Conclude([Whole(0, data, true), Cut(0)], 1) == Accept(map[0 := data], Some(Partial([], true)))
  {
    var slots := [Whole(0, data, true), Cut(0)];
    assert slots[..1] == [slots[0]] && [slots[0]][..0] == [];
    assert Applied([slots[0]], 1) == Applied([], 1)[0 := data] == map[0 := data];
    assert Unattributable(slots[1], map[0 := data], 1);
    assert Blamed(slots, map[0 := data], 1) == {};
    ElementsEmpty(SortedSet({}));
  }

  lemma RecordsAgree(r: Report, body: seq<byte>, crc: bool, blocks: nat)
    requires blocks < TWO_TO_THE_63
    ensures var i := InspectRecords(r, body, crc);
            var d := DecodeRecords(body, crc, r.blockCount, blocks);
            MirrorsUnapplied(i, d, blocks) &&
            (Mirrors(i, d, blocks) <==> !TailRepeats(body, crc, r.blockCount, blocks)) &&
            (d.err == None <==> Clean(i) && Covers(LayoutSlots(body, crc, r.blockCount), blocks))
  {
    hide Slots, ListedIndices, LossCount, Applied, Truncated, Verified, TailBad, Covers, Mirrors, MirrorsUnapplied,
      TailRepeats,
      InspectRecords;
    var slots := LayoutSlots(body, crc, r.blockCount);
    RecordsMirror(r, body, crc, blocks);
    VerdictBad(Blamed(slots, Applied(slots, blocks), blocks), Truncated(slots, Applied(slots, blocks), blocks));
    if TailSlots(body, crc, r.blockCount) != [] {
      TailReported(body, crc, r.blockCount, blocks);
      TailTruncates(r, body, crc);
    } else {
      LayoutBelowMax(body, crc, r.blockCount);
      NoTail(body, crc, r.blockCount);
      SlotsAgree(slots, blocks);
      if crc {
        WholeAgree(r, body, blocks);
      } else {
        BareAgree(r, body, blocks);
      }
    }
  }

  lemma TailTruncates(r: Report, body: seq<byte>, crc: bool)
    requires TailSlots(body, crc, r.blockCount) != []
    ensures !Clean(InspectRecords(r, body, crc))
  {
    hide ListedIndices, LossCount, TailBad, TailLoss, TailSlots, Verified;
  }

  lemma NoTail(body: seq<byte>, crc: bool, count: nat)
    requires TailSlots(body, crc, count) == []
    ensures LayoutSlots(body, crc, count) == Slots(body, crc, ScannedRecords(|body|, crc, count))
    ensures TailBad(body, crc, count) == {} && TailLoss(body, crc, count) == 0
  {
  }

  lemma WholeAgree(r: Report, body: seq<byte>, blocks: nat)
    requires TailSlots(body, true, r.blockCount) == []
    ensures var slots := LayoutSlots(body, true, r.blockCount);
            Clean(InspectRecords(r, body, true)) <==>
              ListedIndices(slots, Verified(slots)) == {} && LossCount(slots, Verified(slots)) == 0
  {
    hide Slots, ListedIndices, LossCount, Verified, TailBad, TailLoss;
    NoTail(body, true, r.blockCount);
    var slots := LayoutSlots(body, true, r.blockCount);
    ElementsEmpty(SortedSet(ListedIndices(slots, Verified(slots))));
    assert {} + ListedIndices(slots, Verified(slots)) == ListedIndices(slots, Verified(slots));
  }

  lemma BareAgree(r: Report, body: seq<byte>, blocks: nat)
    requires TailSlots(body, false, r.blockCount) == []
    ensures var slots := LayoutSlots(body, false, r.blockCount);
            Clean(InspectRecords(r, body, false)) &&
            (Covers(slots, blocks) ==> ListedIndices(slots, Verified(slots)) == {}) &&
            LossCount(slots, Verified(slots)) == 0
  {
    hide SlotAt;
    NoTail(body, false, r.blockCount);
    var slots := LayoutSlots(body, false, r.blockCount);
    BareOk(body, ScannedRecords(|body|, false, r.blockCount));
    BareRecords(slots);
    NoneListedIff(slots, Verified(slots));
    ElementsEmpty(SortedSet({}));
  }

  lemma BareOk(body: seq<byte>, n: nat)
    requires Offset(false, n) <= |body|
    ensures forall i :: 0 <= i < n ==> Slots(body, false, n)[i].ok
  {
  }

  lemma SlotReportClean(r: Report, slots: seq<Slot>)
    ensures Clean(InspectSlots(r, slots)) <==>
              ListedIndices(slots, Verified(slots)) == {} && LossCount(slots, Verified(slots)) == 0
  {
    ElementsEmpty(SortedSet(ListedIndices(slots, Verified(slots))));
  }

  /** Where the report and the decoder see the same slots, they agree. */
  lemma SameSlotsAgree(r: Report, slots: seq<Slot>, blocks: nat)
    requires blocks < TWO_TO_THE_63 && BelowMax(slots)
    ensures var i := InspectSlots(r, slots);
            var d := Conclude(slots, blocks);
            Mirrors(i, d, blocks) && (d.err == None <==> Clean(i) && Covers(slots, blocks))
  {
    hide ListedIndices, LossCount, Applied, Truncated, Verified, Covers, Blamed, Clean, BadOf;
    SlotReportClean(r, slots);
    SlotsAgree(slots, blocks);
    BlamedIsListed(slots, blocks);
    ConcludeBad(slots, blocks);
  }

  /** A decoder never blames what it applied, so a full mirror is also one up to the applied blocks. */
  lemma MirrorsBoth(r: Report, slots: seq<Slot>, blocks: nat)
    requires Mirrors(r, Conclude(slots, blocks), blocks)
    ensures MirrorsUnapplied(r, Conclude(slots, blocks), blocks)
  {
    hide Blamed, Applied, BadOf, Within;
    ConcludeBad(slots, blocks);
  }

  lemma ShardedBelowMax(code: ErasureCode, slots: seq<ShardSlot>, g: Shape)
    requires WellShaped(code) && 1 <= g.n && g.size > 0 && g.payloadLen <= g.n * g.size
    requires |slots| == g.n + g.k && SlotsEqual(slots, g.size)
    ensures BelowMax(ShardedSlots(code, slots, g))
  {
    hide SlotsEqual, Missing, Flatten, SpanIntact, Span, ReadIndex, Parse;
  }

  lemma ShardedAgree(code: ErasureCode, slots: seq<ShardSlot>, g: Shape, count: nat, blocks: nat)
    requires WellShaped(code) && 1 <= g.n && g.size > 0 && g.payloadLen <= g.n * g.size
    requires |slots| == g.n + g.k && SlotsEqual(slots, g.size)
    requires g.payloadLen == Offset(true, count) && code.init(g.n, g.k)
    ensures DecodeShards(code, slots, g, count, blocks) == Conclude(ShardedSlots(code, slots, g), blocks)
  {
    hide SlotsEqual, Missing, Flatten, SalvageSlots, Conclude, Slots;
    if Missing(slots) <= g.k && code.reconstruct(slots, g.n).Some? {
      var data := code.reconstruct(slots, g.n).value;
      FlattenLength(data, g.size);
      var payload := Flatten(data)[..g.payloadLen];
      assert TailSlots(payload, true, count) == [];
      NoTail(payload, true, count);
    }
  }

  lemma RsAgree(code: ErasureCode, r: Report, body: seq<byte>, g: Shape, blocks: nat)
    requires WellShaped(code) && blocks < TWO_TO_THE_63
    requires ParseMeta(body, r.blockCount) == Some(g)
    ensures var d := DecodeRs(code, body, r.blockCount, blocks);
            var slots := RsSlots(code, body, g, r.blockCount);
            var i := InspectSlots(r, slots);
            if g.payloadLen == 0 || code.init(g.n, g.k) then
              Mirrors(i, d, blocks) && MirrorsUnapplied(i, d, blocks) &&
              (d.err == None <==> Clean(i) && Covers(slots, blocks))
            else d == Reject(Corrupt) || (Mirrors(i, d, blocks) && MirrorsUnapplied(i, d, blocks) && d.err.Some?)
  {
    hide ParseMeta, ValidGeometry, ParseSection, DecodeShards, ShardedSlots, WellShaped, SlotsEqual, Mirrors,
      MirrorsUnapplied, Clean,
      Covers, InspectSlots, Conclude;
    var count := r.blockCount;
    if g.payloadLen == 0 {
      SameSlotsAgree(r, [], blocks);
      MirrorsBoth(InspectSlots(r, []), [], blocks);
      assert LayoutSlots([], true, count) == [];
    } else {
      AdmissibleShape(g, count, |body|);
      var slots := ParseSection(body[META_SIZE..], g.n + g.k, g.size);
      SectionEqual(body[META_SIZE..], g.n + g.k, g.size);
      ShardedBelowMax(code, slots, g);
      if code.init(g.n, g.k) {
        ShardedAgree(code, slots, g, count, blocks);
      } else {
        UninitializedAgree(code, slots, g, count, |body|, blocks);
      }
      var records := ShardedSlots(code, slots, g);
      SameSlotsAgree(r, records, blocks);
      MirrorsBoth(InspectSlots(r, records), records, blocks);
    }
  }

  lemma UninitializedAgree(code: ErasureCode, slots: seq<ShardSlot>, g: Shape, count: nat, bodyLen: nat, blocks: nat)
    requires WellShaped(code) && Admissible(g, count, bodyLen) && g.payloadLen > 0 && g.size > 0 && !code.init(g.n, g.k)
    requires |slots| == g.n + g.k && SlotsEqual(slots, g.size)
    ensures var d := DecodeShards(code, slots, g, count, blocks);
            d == Reject(Corrupt) || (d == Conclude(ShardedSlots(code, slots, g), blocks) && d.err.Some?)
  {
    hide SlotsEqual, Missing, SalvageSlots, Conclude, Flatten;
    if Missing(slots) > g.k {
      BeyondRepair(code, slots, g, count, bodyLen, blocks);
    }
  }

  // ----- headerless blobs

  lemma {:induction false} NoneOk(slots: seq<Slot>)
    ensures OkCount(slots) == 0 <==> forall i :: 0 <= i < |slots| ==> !(slots[i].Whole? && slots[i].ok)
  {
    if slots != [] {
      NoneOk(slots[..|slots| - 1]);
    }
  }

  lemma HeaderlessAgree(r: Report, body: seq<byte>, blocks: nat)
    ensures var i := InspectHeaderless(r, body);
            var d := DecodeHeaderless(body, blocks);
            (i.Failed? ==> d == Reject(i.error)) &&
            (d.Accept? ==> i.Reported? && i.report.truncated && d.err == Some(Partial([], true)))
  {
    hide SlotAt, Applied, OkCount, Slots;
    if |body| > 0 && |body| % L1_RECORD_SIZE == 0 {
      HeaderlessUsable(body, blocks);
    }
  }

  lemma HeaderlessUsable(body: seq<byte>, blocks: nat)
    requires |body| > 0 && |body| % L1_RECORD_SIZE == 0
    ensures var slots := Slots(body, true, WholeRecords(true, |body|));
            OkCount(slots) == 0 ==> Applied(slots, blocks) == map[]
  {
    hide SlotAt, OkCount;
    var slots := Slots(body, true, WholeRecords(true, |body|));
    var m := Applied(slots, blocks);
    NoneOk(slots);
    if OkCount(slots) == 0 && m.Keys != {} {
      var i := AppliedFrom(slots, blocks, Any(m.Keys));
      assert false;
    }
  }

  // ----- the claims of Inspect

  /** The erasure code can be set up for every admissible number of shards. */
  ghost predicate CodeReady(code: ErasureCode) {
    forall n: nat, k: nat :: 1 <= n && n + k <= MAX_TOTAL_SHARDS ==> code.init(n, k)
  }

  /**
   * How far Inspect mirrors Deserialize, on any bytes and any aligned base: an Inspect error is the decoder's
   * refusal; a nil decoder error means a clean report; the decoder's BadBlocks are exactly Inspect's, less those
   * outside the base and those applied after all, of which there are some exactly when a cut-off record repeats an
   * applied one; and a clean report means a nil error exactly on the bases that cover every verified record.
   */
  lemma InspectAgrees(code: ErasureCode, blob: seq<byte>, baseLen: nat)
    requires WellShaped(code) && baseLen % BLOCK_SIZE == 0 && baseLen < TWO_TO_THE_63
    ensures var i := Inspect(code, blob);
            var d := Decode(code, blob, baseLen);
            var blocks := baseLen / BLOCK_SIZE;
            (i.Failed? ==> d == Reject(i.error)) &&
            (d.Accept? ==>
              i.Reported? && MirrorsUnapplied(i.report, d, blocks) &&
              (Mirrors(i.report, d, blocks) <==> !BlobTailRepeats(blob, blocks))) &&
            (d.Accept? && d.err == None ==> Clean(i.report))
    ensures var i := Inspect(code, blob);
            var d := Decode(code, blob, baseLen);
            i.Reported? && Clean(i.report) && CodeReady(code) ==>
              Recognized(blob) && HeaderVerifies(blob) && d.Accept? &&
              (d.err == None <==> Covers(BlobSlots(code, blob), baseLen / BLOCK_SIZE))
  {
    hide HeaderVerifies, Recognized, InspectHeaderless, DecodeHeaderless, InspectRecords, DecodeRecords, DecodeRs,
      WellShaped,
      ParseMeta, RsSlots, InspectSlots, Covers, Mirrors, MirrorsUnapplied, Clean, BlockCount, LayoutSlots, TailRepeats;
    var blocks := baseLen / BLOCK_SIZE;
    if Recognized(blob) {
      RecognizedLength(blob);
      var r, body := HeaderReport(blob), blob[HEADER_SIZE..];
      if !HeaderVerifies(blob) {
        HeaderlessAgree(r, body, blocks);
        HeaderlessReport(r, body);
        HeaderlessMirrors(r, body, blocks);
      } else if blob[5] == TIER_L0 || blob[5] == TIER_L1 {
        RecordsAgree(r, body, blob[5] == TIER_L1, blocks);
        RecordsAccept(body, blob[5] == TIER_L1, r.blockCount, blocks);
      } else if blob[5] == TIER_L2 {
        RsBodyAgrees(code, r, body, blocks);
      }
    }
  }

  lemma RecognizedLength(blob: seq<byte>)
    requires Recognized(blob)
    ensures |blob| >= HEADER_SIZE
  {
  }

  lemma HeaderlessReport(r: Report, body: seq<byte>)
    ensures var i := InspectHeaderless(r, body); i.Reported? ==> !Clean(i.report)
  {
    hide Slots, OkCount;
  }

  /** Behind an unverifiable header neither of the two names a block. */
  lemma HeaderlessMirrors(r: Report, body: seq<byte>, blocks: nat)
    requires r.bad == []
    ensures var i := InspectHeaderless(r, body);
            var d := DecodeHeaderless(body, blocks);
            d.Accept? && i.Reported? ==>
              i.report.bad == [] && d.err == Some(Partial([], true)) &&
              Mirrors(i.report, d, blocks) && MirrorsUnapplied(i.report, d, blocks)
  {
    hide Slots, OkCount, Applied;
    ElementsEmpty([]);
  }

  lemma RecordsAccept(body: seq<byte>, crc: bool, count: nat, blocks: nat)
    ensures DecodeRecords(body, crc, count, blocks).Accept?
  {
  }

  lemma RsBodyAgrees(code: ErasureCode, r: Report, body: seq<byte>, blocks: nat)
    requires WellShaped(code) && blocks < TWO_TO_THE_63
    ensures var i := InspectRs(code, r, body);
            var d := DecodeRs(code, body, r.blockCount, blocks);
            (i.Failed? ==> d == Reject(i.error)) &&
            (i.Reported? <==> ParseMeta(body, r.blockCount).Some?) &&
            (i.Reported? ==>
              var g := ParseMeta(body, r.blockCount).value;
              Mirrors(i.report, d, blocks) && MirrorsUnapplied(i.report, d, blocks) &&
              (d.Accept? && d.err == None ==> Clean(i.report)) &&
              (g.payloadLen == 0 || code.init(g.n, g.k) ==>
                d.Accept? &&
                (d.err == None <==> Clean(i.report) && Covers(RsSlots(code, body, g, r.blockCount), blocks))))
  {
    hide ParseMeta, RsSlots, InspectSlots, Covers, Mirrors, MirrorsUnapplied, Clean, WellShaped;
    var parsed := ParseMeta(body, r.blockCount);
    if parsed.Some? {
      RsAgree(code, r, body, parsed.value, blocks);
      RsAccepts(code, body, parsed.value, r.blockCount, blocks);
      RefusalMirrors(InspectSlots(r, RsSlots(code, body, parsed.value, r.blockCount)), blocks);
    } else {
      RsRefuses(code, body, r.blockCount, blocks);
    }
  }

  /** A refusal names no block. */
  lemma RefusalMirrors(r: Report, blocks: nat)
    ensures Mirrors(r, Reject(Corrupt), blocks) && MirrorsUnapplied(r, Reject(Corrupt), blocks)
  {
  }

  lemma RsRefuses(code: ErasureCode, body: seq<byte>, count: nat, blocks: nat)
    requires WellShaped(code) && ParseMeta(body, count).None?
    ensures DecodeRs(code, body, count, blocks) == Reject(Corrupt)
  {
  }

  lemma RsAccepts(code: ErasureCode, body: seq<byte>, g: Shape, count: nat, blocks: nat)
    requires WellShaped(code) && ParseMeta(body, count) == Some(g)
    ensures g.payloadLen == 0 || code.init(g.n, g.k) ==> DecodeRs(code, body, count, blocks).Accept?
    ensures g.n >= 1 && g.n + g.k <= MAX_TOTAL_SHARDS
  {
    hide ParseMeta, ParseSection, Flatten, Missing, SalvageSlots, LayoutSlots, SlotsEqual;
  }
}
