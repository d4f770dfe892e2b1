/** The L0/L1 wire format: header, record body, truncated and surplus tails, headerless fallback. */
module WireFormat {
  import opened Bytes
  import opened Crc32
  import opened Sorting
  import opened Records
  import opened RecordDecoder

  const MAGIC: seq<byte> := [0x42, 0x44, 0x45, 0x56]
  const FORMAT_VERSION: byte := 1
  const HEADER_SIZE := 18
  const TIER_L0: byte := 0
  const TIER_L1: byte := 1
  const TIER_L2: byte := 2

  function HeaderFields(tier: byte, count: nat): (h: seq<byte>)
    ensures |h| == 14
  {
    MAGIC + [FORMAT_VERSION, tier] + LE(count, 8)
  }

  function Header(tier: byte, count: nat): (h: seq<byte>)
    ensures |h| == HEADER_SIZE
  {
    HeaderFields(tier, count) + LE(Sum(HeaderFields(tier, count)), 4)
  }

  predicate Recognized(blob: seq<byte>) {
    |blob| >= HEADER_SIZE && blob[0..4] == MAGIC && blob[4] == FORMAT_VERSION
  }

  predicate HeaderVerifies(blob: seq<byte>)
    requires |blob| >= HEADER_SIZE
  {
    Sum(blob[..14]) == FromLE(blob[14..18])
  }

  function BlockCount(blob: seq<byte>): nat
    requires |blob| >= HEADER_SIZE
  {
    FromLE(blob[6..14])
  }

  /** A written header is recognised, verifies, and reads back as it was. */
  lemma HeaderReads(tier: byte, count: nat, body: seq<byte>)
    requires count < TWO_TO_THE_64
    ensures var blob := Header(tier, count) + body;
            Recognized(blob) && HeaderVerifies(blob) && blob[5] == tier &&
            BlockCount(blob) == count && blob[HEADER_SIZE..] == body
  {
    hide Sum, LE;
    var f := HeaderFields(tier, count);
    var blob := Header(tier, count) + body;
    assert f == blob[..14];
    assert f[0..4] == MAGIC && f[4] == FORMAT_VERSION && f[5] == tier;
    assert blob[0..4] == f[0..4];
    assert f[6..14] == LE(count, 8);
    assert blob[6..14] == f[6..14];
    assert blob[14..18] == LE(Sum(f), 4);
    FromLE8(count);
    FromLE4(Sum(f));
  }

  // ----- body layout

  function Min(a: nat, b: nat): nat {
    if a <= b then a else b
  }

  /** How many whole records of the body are scanned. */
  function ScannedRecords(len: nat, crc: bool, count: nat): (n: nat)
    ensures Offset(crc, n) <= len
  {
    Min(WholeRecords(crc, len), count)
  }

  function TailSlot(tail: seq<byte>): Slot {
    if |tail| >= 8 then Cut(ReadIndex(tail)) else Gone
  }

  /** What follows the scanned records: nothing, surplus bytes, or a record cut off. */
  function TailSlots(body: seq<byte>, crc: bool, count: nat): seq<Slot> {
    var n := WholeRecords(crc, |body|);
    if n < count then [TailSlot(body[Offset(crc, n)..])]
    else if n > count || Offset(crc, n) != |body| then [Gone]
    else []
  }

  function LayoutSlots(body: seq<byte>, crc: bool, count: nat): seq<Slot> {
    Slots(body, crc, ScannedRecords(|body|, crc, count)) + TailSlots(body, crc, count)
  }

  /** What decoding a record body announced to hold `count` records yields. */
  ghost function DecodeRecords(body: seq<byte>, crc: bool, count: nat, blocks: nat): Result {
    Conclude(LayoutSlots(body, crc, count), blocks)
  }

  /** What the fixed-stride scan of a body behind an unverifiable header yields. */
  function DecodeHeaderless(body: seq<byte>, blocks: nat): Result {
    if |body| == 0 || |body| % L1_RECORD_SIZE != 0 then Reject(Corrupt)
    else
      var m := Applied(Slots(body, true, WholeRecords(true, |body|)), blocks);
      if m == map[] then Reject(Corrupt) else Accept(m, Some(Partial([], true)))
  }

  lemma WholeBlocksOf(body: seq<byte>, crc: bool, count: nat)
    ensures WholeBlocks(LayoutSlots(body, crc, count))
  {
  }

  /** The fallback recovers what the ordinary decoder would, if anything at all is usable. */
  lemma HeaderlessCoincides(body: seq<byte>, blocks: nat)
    requires |body| > 0 && |body| % L1_RECORD_SIZE == 0
    ensures var n := WholeRecords(true, |body|);
            var usable := exists i :: 0 <= i < n && Usable(SlotAt(body, true, i), blocks);
            var r := DecodeRecords(body, true, n, blocks);
            DecodeHeaderless(body, blocks) ==
              if usable then Accept(r.overlay, Some(Partial([], true))) else Reject(Corrupt)
  {
    hide SlotAt, Applied, Blamed, Truncated;
    var n := WholeRecords(true, |body|);
    var slots := Slots(body, true, n);
    assert LayoutSlots(body, true, n) == slots;
    var m := Applied(slots, blocks);
    if i :| 0 <= i < n && Usable(SlotAt(body, true, i), blocks) {
      UsableIsApplied(slots, blocks, i);
    } else if m != map[] {
      assert m.Keys != {};
      var i := AppliedFrom(slots, blocks, Any(m.Keys));
      assert false;
    }
  }

  // ----- round trip

  lemma FlatLayout(m: Overlay, idxs: seq<int>, crc: bool)
    requires Holds(m, idxs)
    ensures LayoutSlots(Flat(m, idxs, crc), crc, |idxs|) == Intact(m, idxs)
  {
    hide Encode, SlotAt, Flat, Holds;
    var body := Flat(m, idxs, crc);
    assert body + [] == body;
    FlatSlots(m, idxs, crc, [], |idxs|);
    assert Intact(m, idxs)[..|idxs|] == Intact(m, idxs);
  }

  lemma FlatDecodes(m: Overlay, crc: bool, blocks: nat)
    requires Fits(m, blocks) && blocks <= MAX_BLOCKS
    ensures Holds(m, SortedKeys(m))
    ensures DecodeRecords(Flat(m, SortedKeys(m), crc), crc, |m|, blocks) == Accept(m, None)
  {
    hide Flat, Conclude, LayoutSlots, Intact, Holds, Fits;
    SortedKeysHold(m, blocks);
    FlatLayout(m, SortedKeys(m), crc);
    IntactDecodes(m, blocks);
  }

  /** Different overlays have different record streams. */
  lemma FlatInjective(m: Overlay, n: Overlay, crc: bool, blocks: nat)
    requires Fits(m, blocks) && Fits(n, blocks) && blocks <= MAX_BLOCKS
    ensures Holds(m, SortedKeys(m)) && Holds(n, SortedKeys(n))
    ensures |m| == |n| && Flat(m, SortedKeys(m), crc) == Flat(n, SortedKeys(n), crc) ==> m == n
  {
    hide Flat, Conclude;
    FlatDecodes(m, crc, blocks);
    FlatDecodes(n, crc, blocks);
  }

  // ----- truncation

  function Restrict(m: Overlay, idxs: seq<int>): Overlay {
    map k | k in m && k in idxs :: m[k]
  }

  /** What a decoder reports for a body cut inside record `k`, `left` bytes after its start. */
  function CutError(idx: int, left: nat): Error {
    if left >= 8 then Partial([idx], false) else Partial([], true)
  }

  lemma SliceOfSlice(s: seq<byte>, lo: nat, hi: nat, n: nat)
    requires lo <= lo + n <= hi <= |s|
    ensures s[lo..hi][..n] == s[lo..lo + n]
  {
  }

  lemma HoldsPart(m: Overlay, idxs: seq<int>, k: nat)
    requires Holds(m, idxs) && k <= |idxs|
    ensures Holds(m, idxs[..k]) && Holds(m, idxs[k..])
  {
  }

  lemma TruncatedBody(m: Overlay, idxs: seq<int>, crc: bool, cut: nat)
    requires Holds(m, idxs) && cut < Offset(crc, |idxs|)
    ensures WholeRecords(crc, cut) < |idxs|
    ensures var k := WholeRecords(crc, cut);
            Flat(m, idxs, crc)[..cut] ==
              Flat(m, idxs[..k], crc) + Encode(idxs[k], m[idxs[k]], crc)[..cut - Offset(crc, k)]
  {
    hide Encode, Flat;
    var k := WholeRecords(crc, cut);
    var f := Flat(m, idxs, crc);
    var a, b := idxs[..k], idxs[k..];
    assert idxs == a + b;
    HoldsPart(m, idxs, k);
    FlatConcat(m, a, b, crc);
    FlatAt(m, idxs, crc, k);
    var e := Encode(idxs[k], m[idxs[k]], crc);
    var left := cut - Offset(crc, k);
    SliceOfSlice(f, Offset(crc, k), Offset(crc, k + 1), left);
    assert f[..Offset(crc, k)] == Flat(m, a, crc);
    assert f[..cut] == f[..Offset(crc, k)] + f[Offset(crc, k)..cut];
  }

  lemma EncodedIndex(idx: nat, data: seq<byte>, crc: bool, left: nat)
    requires |data| == BLOCK_SIZE && idx < TWO_TO_THE_63 && left <= RecordSize(crc)
    ensures TailSlot(Encode(idx, data, crc)[..left]) == if left >= 8 then Cut(idx) else Gone
  {
    hide Sum;
    if left >= 8 {
      assert Encode(idx, data, crc)[..left][..8] == LE(idx, 8);
      FromLE8(idx);
    }
  }

  lemma TruncatedSlots(m: Overlay, idxs: seq<int>, crc: bool, cut: nat)
    requires Holds(m, idxs) && cut < Offset(crc, |idxs|)
    ensures var k := WholeRecords(crc, cut);
            k < |idxs| &&
            LayoutSlots(Flat(m, idxs, crc)[..cut], crc, |idxs|) ==
              Intact(m, idxs[..k]) + [if cut - Offset(crc, k) >= 8 then Cut(idxs[k]) else Gone]
  {
    hide Encode, Flat, TailSlot, Parse;
    TruncatedBody(m, idxs, crc, cut);
    var k := WholeRecords(crc, cut);
    var body := Flat(m, idxs, crc)[..cut];
    var rest := Encode(idxs[k], m[idxs[k]], crc)[..cut - Offset(crc, k)];
    FlatSlots(m, idxs[..k], crc, rest, k);
    assert Intact(m, idxs[..k])[..k] == Intact(m, idxs[..k]);
    assert body[Offset(crc, k)..] == rest;
    EncodedIndex(idxs[k], m[idxs[k]], crc, cut - Offset(crc, k));
  }

  lemma CutApplied(m: Overlay, idxs: seq<int>, k: nat, s: Slot, blocks: nat)
    requires Holds(m, idxs) && Ascending(idxs) && k < |idxs| && !s.Whole?
    requires forall i :: 0 <= i < |idxs| ==> idxs[i] < blocks
    ensures Applied(Intact(m, idxs[..k]) + [s], blocks) == Restrict(m, idxs[..k])
    ensures idxs[k] !in Restrict(m, idxs[..k])
  {
    IntactApplied(m, idxs[..k], blocks);
    AppliedIgnores(Intact(m, idxs[..k]), s, blocks);
  }

  lemma CutConcludes(m: Overlay, idxs: seq<int>, k: nat, named: bool, blocks: nat)
    requires Holds(m, idxs) && Ascending(idxs) && k < |idxs|
    requires forall i :: 0 <= i < |idxs| ==> idxs[i] < blocks
    ensures Conclude(Intact(m, idxs[..k]) + [if named then Cut(idxs[k]) else Gone], blocks)
         == Accept(Restrict(m, idxs[..k]), Some(if named then Partial([idxs[k]], false) else Partial([], true)))
  {
    hide Applied, Restrict, Blamed, Truncated;
    CutApplied(m, idxs, k, if named then Cut(idxs[k]) else Gone, blocks);
    CutBlames(Intact(m, idxs[..k]), idxs[k], named, Restrict(m, idxs[..k]), blocks);
    if named {
      AscendingUnique(SortedSet({idxs[k]}), [idxs[k]]);
    } else {
      ElementsEmpty(SortedSet({}));
    }
  }

  lemma CutBlames(init: seq<Slot>, idx: nat, named: bool, r: Overlay, blocks: nat)
    requires forall i :: 0 <= i < |init| ==> Harmless(init[i], r, blocks)
    requires idx < blocks && idx !in r
    ensures var slots := init + [if named then Cut(idx) else Gone];
            Blamed(slots, r, blocks) == (if named then {idx} else {}) &&
            (Truncated(slots, r, blocks) <==> !named)
  {
    var slots := init + [if named then Cut(idx) else Gone];
    assert forall i :: 0 <= i < |init| ==> Harmless(slots[i], r, blocks);
    if named {
      assert Blamable(slots[|init|], r, blocks);
    } else {
      assert Unattributable(slots[|init|], r, blocks);
    }
  }

  /**
   * Cutting a serialized body anywhere keeps exactly the whole records left, always with an error:
   * the block cut off is named if its index field survived, otherwise the loss is unattributed.
   */
  lemma TruncationAnywhere(m: Overlay, crc: bool, blocks: nat, cut: nat)
    requires Fits(m, blocks) && blocks <= MAX_BLOCKS
    requires cut < Offset(crc, |m|)
    ensures var keys := SortedKeys(m);
            var k := WholeRecords(crc, cut);
            Holds(m, keys) && k < |keys| == |m| &&
            DecodeRecords(Flat(m, keys, crc)[..cut], crc, |m|, blocks) ==
              Accept(Restrict(m, keys[..k]), Some(CutError(keys[k], cut - Offset(crc, k))))
  {
    hide Flat, Conclude, LayoutSlots, Intact;
    SortedKeysHold(m, blocks);
    var keys := SortedKeys(m);
    var k := WholeRecords(crc, cut);
    TruncatedSlots(m, keys, crc, cut);
    assert forall i :: 0 <= i < |keys| ==> keys[i] in Elements(keys);
    CutConcludes(m, keys, k, cut - Offset(crc, k) >= 8, blocks);
  }

  // ----- surplus

  lemma SlotsOfPrefix(body: seq<byte>, crc: bool, n: nat)
    requires Offset(crc, n) <= |body|
    ensures LayoutSlots(body[..Offset(crc, n)], crc, n) == Slots(body, crc, n)
  {
    hide Parse;
    var head := body[..Offset(crc, n)];
    forall i | 0 <= i < n ensures Offset(crc, i + 1) <= |head| && SlotAt(head, crc, i) == SlotAt(body, crc, i) {
      assert head[Offset(crc, i)..Offset(crc, i + 1)] == body[Offset(crc, i)..Offset(crc, i + 1)];
    }
  }

  /**
   * Bytes beyond the announced records, valid records among them, are never applied and always reported: the decoder
   * applies what it would without them, blames no block and sets Truncated.
   */
  lemma SurplusFlagged(body: seq<byte>, crc: bool, count: nat, blocks: nat)
    requires Offset(crc, count) < |body|
    ensures DecodeRecords(body, crc, count, blocks) ==
              Accept(DecodeRecords(body[..Offset(crc, count)], crc, count, blocks).overlay, Some(Partial([], true)))
  {
    hide SlotAt, Applied, Verdict;
    SlotsOfPrefix(body, crc, count);
    assert LayoutSlots(body, crc, count) == Slots(body, crc, count) + [Gone];
    GoneConcludes(Slots(body, crc, count), blocks);
  }

  /** Whatever is appended to a serialized body, the overlay comes back, and Truncated is set. */
  lemma SurplusReported(m: Overlay, crc: bool, blocks: nat, extra: seq<byte>)
    requires Fits(m, blocks) && blocks <= MAX_BLOCKS && extra != []
    ensures Holds(m, SortedKeys(m)) && |SortedKeys(m)| == |m|
    ensures DecodeRecords(Flat(m, SortedKeys(m), crc) + extra, crc, |m|, blocks) == Accept(m, Some(Partial([], true)))
  {
    hide Flat, DecodeRecords;
    SortedKeysHold(m, blocks);
    var flat := Flat(m, SortedKeys(m), crc);
    assert (flat + extra)[..Offset(crc, |m|)] == flat;
    SurplusFlagged(flat + extra, crc, |m|, blocks);
    FlatDecodes(m, crc, blocks);
  }

  // ----- corruption at L1

  /** Record `i` of `body` is the one originally written for `idxs[i]`. */
  predicate Unchanged(body: seq<byte>, m: Overlay, idxs: seq<int>, i: nat)
    requires Holds(m, idxs) && |body| == Offset(true, |idxs|) && i < |idxs|
  {
    body[Offset(true, i)..Offset(true, i + 1)] == Flat(m, idxs, true)[Offset(true, i)..Offset(true, i + 1)]
  }

  /** Every record of `body` is either unchanged or fails its CRC. */
  ghost predicate Corrupted(body: seq<byte>, m: Overlay, idxs: seq<int>) {
    Holds(m, idxs) && |body| == Offset(true, |idxs|) &&
    forall i :: 0 <= i < |idxs| ==> Unchanged(body, m, idxs, i) || !SlotAt(body, true, i).ok
  }

  lemma UnchangedSlot(body: seq<byte>, m: Overlay, idxs: seq<int>, i: nat)
    requires Holds(m, idxs) && |body| == Offset(true, |idxs|) && i < |idxs|
    requires Unchanged(body, m, idxs, i)
    ensures SlotAt(body, true, i) == Whole(idxs[i], m[idxs[i]], true)
  {
    hide Encode, Flat;
    FlatAt(m, idxs, true, i);
    ParseEncode(idxs[i], m[idxs[i]], true);
  }

  lemma CorruptedSlots(body: seq<byte>, m: Overlay, idxs: seq<int>)
    requires Corrupted(body, m, idxs)
    ensures LayoutSlots(body, true, |idxs|) == Slots(body, true, |idxs|)
    ensures Degraded(Slots(body, true, |idxs|), m, idxs)
  {
    hide Flat, Parse, SlotAt, Unchanged;
    var slots := Slots(body, true, |idxs|);
    forall i | 0 <= i < |idxs| && slots[i].ok ensures slots[i] == Whole(idxs[i], m[idxs[i]], true) {
      assert slots[i] == SlotAt(body, true, i);
      UnchangedSlot(body, m, idxs, i);
    }
  }

  /**
   * Corruption that the record CRCs detect costs exactly the damaged blocks, and it is passed over
   * in silence only when every failed record doubles, bit for bit, the block its index field names.
   */
  lemma CorruptionAccounted(body: seq<byte>, m: Overlay, blocks: nat)
    requires Fits(m, blocks) && blocks <= MAX_BLOCKS
    requires Corrupted(body, m, SortedKeys(m))
    ensures |SortedKeys(m)| == |m|
    ensures var slots := Slots(body, true, |m|);
            var left := Surviving(slots, m, SortedKeys(m));
            var silent := forall i :: 0 <= i < |m| && !slots[i].ok ==> Doubled(slots[i], left);
            DecodeRecords(body, true, |m|, blocks) ==
              Accept(left, if silent then None else Some(Partial([], true)))
  {
    hide Flat, Slots, LayoutSlots, Surviving;
    SortedKeysHold(m, blocks);
    var keys := SortedKeys(m);
    assert forall i :: 0 <= i < |keys| ==> keys[i] in Elements(keys);
    CorruptedSlots(body, m, keys);
    DegradedConcludes(Slots(body, true, |m|), m, keys, blocks);
  }

  /**
   * When the damage leaves each record either its data or its index and no two dirty blocks are equal,
   * any damage is reported: a flipped index never passes for another block's record.
   */
  lemma DamageReported(body: seq<byte>, m: Overlay, blocks: nat, damaged: nat)
    requires Fits(m, blocks) && blocks <= MAX_BLOCKS
    requires Corrupted(body, m, SortedKeys(m))
    requires forall j, k :: j in m && k in m && j != k ==> m[j] != m[k]
    requires forall i :: 0 <= i < |SortedKeys(m)| && !SlotAt(body, true, i).ok
               ==> SlotAt(body, true, i).data == m[SortedKeys(m)[i]] || SlotAt(body, true, i).idx == SortedKeys(m)[i]
    requires damaged < |SortedKeys(m)| && !SlotAt(body, true, damaged).ok
    ensures DecodeRecords(body, true, |m|, blocks).err == Some(Partial([], true))
  {
    hide Flat, Parse, SlotAt, Conclude, DecodeRecords;
    CorruptionAccounted(body, m, blocks);
    CorruptedSlots(body, m, SortedKeys(m));
    var slots := Slots(body, true, |m|);
    assert slots[damaged] == SlotAt(body, true, damaged);
    NotDoubled(slots, m, SortedKeys(m), damaged);
  }

  // ----- damage the CRC is sure to detect

  function RecordAt(body: seq<byte>, i: nat): (r: seq<byte>)
    requires Offset(true, i + 1) <= |body|
    ensures |r| == L1_RECORD_SIZE
  {
    body[Offset(true, i)..Offset(true, i + 1)]
  }

  /** Each record of `body` is as written but for some four consecutive bytes. */
  ghost predicate Bursts(body: seq<byte>, m: Overlay, idxs: seq<int>) {
    Holds(m, idxs) && |body| == Offset(true, |idxs|) &&
    forall i :: 0 <= i < |idxs| ==> Dented(body, m, idxs, i)
  }

  ghost predicate Dented(body: seq<byte>, m: Overlay, idxs: seq<int>, i: nat)
    requires Holds(m, idxs) && |body| == Offset(true, |idxs|) && i < |idxs|
  {
    exists at :: Burst(Encode(idxs[i], m[idxs[i]], true), RecordAt(body, i), at)
  }

  lemma OkIsChecks(r: seq<byte>)
    requires |r| == L1_RECORD_SIZE
    ensures Parse(r, true).ok <==> Checks(r)
  {
    hide Sum, FromLE;
  }

  lemma RecordChecks(idx: nat, data: seq<byte>)
    requires |data| == BLOCK_SIZE && idx < TWO_TO_THE_63
    ensures Checks(Encode(idx, data, true))
  {
    hide Encode, Checks;
    ParseEncode(idx, data, true);
    OkIsChecks(Encode(idx, data, true));
  }

  /** A record damaged within four consecutive bytes, wherever they lie, fails its CRC. */
  lemma BurstFails(body: seq<byte>, m: Overlay, idxs: seq<int>, i: nat)
    requires Holds(m, idxs) && |body| == Offset(true, |idxs|) && i < |idxs| && Dented(body, m, idxs, i)
    ensures SlotAt(body, true, i).ok <==> Unchanged(body, m, idxs, i)
  {
    hide Encode, Flat, Parse, Checks, Burst;
    var e, r := Encode(idxs[i], m[idxs[i]], true), RecordAt(body, i);
    FlatAt(m, idxs, true, i);
    RecordChecks(idxs[i], m[idxs[i]]);
    OkIsChecks(r);
    if r != e {
      var at :| Burst(e, r, at);
      BurstDetected(e, r, at);
    }
  }

  /** The blocks whose records are unchanged. */
  function Untouched(body: seq<byte>, m: Overlay, idxs: seq<int>): set<int>
    requires Holds(m, idxs) && |body| == Offset(true, |idxs|)
  {
    set i | 0 <= i < |idxs| && Unchanged(body, m, idxs, i) :: idxs[i]
  }

  /**
   * Whatever else happens to a body, as long as each record is damaged only within four consecutive bytes,
   * exactly the undamaged records are applied.
   */
  lemma BurstsAccounted(body: seq<byte>, m: Overlay, blocks: nat)
    requires Fits(m, blocks) && blocks <= MAX_BLOCKS
    requires Bursts(body, m, SortedKeys(m))
    ensures Corrupted(body, m, SortedKeys(m)) && |SortedKeys(m)| == |m|
    ensures DecodeRecords(body, true, |m|, blocks).overlay
         == map k | k in m && k in Untouched(body, m, SortedKeys(m)) :: m[k]
  {
    hide SlotAt, Unchanged, Dented, DecodeRecords, Flat, Survives, Untouched, SortedKeys, Holds;
    var keys := SortedKeys(m);
    forall i | 0 <= i < |keys| ensures SlotAt(body, true, i).ok <==> Unchanged(body, m, keys, i) {
      BurstFails(body, m, keys, i);
    }
    CorruptionAccounted(body, m, blocks);
    forall k ensures Survives(Slots(body, true, |m|), keys, k) <==> k in Untouched(body, m, keys) {
      SurvivesUntouched(body, m, keys, k);
    }
  }

  lemma SurvivesUntouched(body: seq<byte>, m: Overlay, idxs: seq<int>, k: int)
    requires Holds(m, idxs) && |body| == Offset(true, |idxs|)
    requires forall i :: 0 <= i < |idxs| ==> (SlotAt(body, true, i).ok <==> Unchanged(body, m, idxs, i))
    ensures Survives(Slots(body, true, |idxs|), idxs, k) <==> k in Untouched(body, m, idxs)
  {
    hide SlotAt, Unchanged, Holds;
    var slots := Slots(body, true, |idxs|);
    assert forall i :: 0 <= i < |idxs| ==> slots[i] == SlotAt(body, true, i);
  }

  /** The record a byte of the body belongs to, and its place in the record. */
  lemma OneByteInRecord(body: seq<byte>, m: Overlay, idxs: seq<int>, at: nat, i: nat)
    requires Holds(m, idxs) && OneByte(Flat(m, idxs, true), body, at) && i < |idxs|
    ensures var r, o := at / L1_RECORD_SIZE, at % L1_RECORD_SIZE;
            if i == r then OneByte(Encode(idxs[i], m[idxs[i]], true), RecordAt(body, i), o)
            else RecordAt(body, i) == Encode(idxs[i], m[idxs[i]], true)
  {
    hide Encode, Flat;
    var f, e, b, start := Flat(m, idxs, true), Encode(idxs[i], m[idxs[i]], true), RecordAt(body, i), Offset(true, i);
    FlatAt(m, idxs, true, i);
    forall j | 0 <= j < L1_RECORD_SIZE && start + j != at ensures e[j] == b[j] {
      assert e[j] == f[start + j] && b[j] == body[start + j];
    }
    if i == at / L1_RECORD_SIZE {
      assert e[at - start] == f[at] && b[at - start] == body[at];
    }
  }

  /** What the decoder reads of a record in which one byte changed: data or index as written, and a failed CRC. */
  lemma OneByteSlot(idx: nat, data: seq<byte>, r: seq<byte>, o: nat)
    requires |data| == BLOCK_SIZE && idx < TWO_TO_THE_63 && OneByte(Encode(idx, data, true), r, o)
    ensures var s := Parse(r, true);
            !s.ok && if o < 8 then s.data == data && s.idx == ReadIndex(r) && s.idx != idx else s.idx == idx
  {
    hide Sum, Checks, LE, FromLE;
    var e := Encode(idx, data, true);
    ParseEncode(idx, data, true);
    OkIsChecks(e);
    OkIsChecks(r);
    OneByteDetected(e, r, o);
    if o < 8 {
      assert r[8..L0_RECORD_SIZE] == e[8..L0_RECORD_SIZE] == data;
      IndexTells(e, r, o);
    } else {
      assert r[..8] == e[..8];
    }
  }

  /** Different index fields read as different indices. */
  lemma IndexTells(e: seq<byte>, r: seq<byte>, o: nat)
    requires |e| == |r| >= 8 && o < 8 && e[o] != r[o]
    ensures ReadIndex(e) != ReadIndex(r)
  {
    hide FromLE;
    FromLEBound(e[..8]);
    FromLEBound(r[..8]);
    Pow256Values();
    assert e[..8][o] != r[..8][o];
    if FromLE(e[..8]) == FromLE(r[..8]) {
      FromLEInjective(e[..8], r[..8]);
    }
  }

  /** The one record hit by the byte at `at` passes for a harmless duplicate. */
  predicate PassesForDuplicate(body: seq<byte>, m: Overlay, idxs: seq<int>, at: nat)
    requires Holds(m, idxs) && |body| == Offset(true, |idxs|) && at < |body|
  {
    var r := at / L1_RECORD_SIZE;
    var read := ReadIndex(RecordAt(body, r));
    at % L1_RECORD_SIZE < 8 && read in m && m[read] == m[idxs[r]]
  }

  /**
   * One changed byte in an L1 body, wherever it lies, costs exactly the block it hits, and it is reported
   * unless it turns the index into that of another dirty block with the very same contents.
   */
  lemma OneByteInBody(body: seq<byte>, m: Overlay, blocks: nat, at: nat)
    requires Fits(m, blocks) && blocks <= MAX_BLOCKS
    requires Holds(m, SortedKeys(m)) && |SortedKeys(m)| == |m|
    requires OneByte(Flat(m, SortedKeys(m), true), body, at)
    ensures at / L1_RECORD_SIZE < |m|
    ensures DecodeRecords(body, true, |m|, blocks) ==
              Accept(m - {SortedKeys(m)[at / L1_RECORD_SIZE]},
                     if PassesForDuplicate(body, m, SortedKeys(m), at) then None else Some(Partial([], true)))
  {
    hide Flat, SlotAt, OneByte, DecodeRecords, Surviving, Corrupted, Doubled, PassesForDuplicate, Fits, Holds;
    var keys, r := SortedKeys(m), at / L1_RECORD_SIZE;
    OneByteIsInside(Flat(m, keys, true), body, at);
    OneByteCorrupts(body, m, keys, at);
    OneByteHit(body, m, keys, at, r);
    CorruptionAccounted(body, m, blocks);
    LeftWithout(body, m, keys, r);
    assert forall i :: 0 <= i < |m| ==> Slots(body, true, |m|)[i] == SlotAt(body, true, i);
  }

  lemma OneByteCorrupts(body: seq<byte>, m: Overlay, idxs: seq<int>, at: nat)
    requires Holds(m, idxs) && OneByte(Flat(m, idxs, true), body, at)
    ensures |body| == Offset(true, |idxs|) && Corrupted(body, m, idxs)
    ensures forall i :: 0 <= i < |idxs| ==> (SlotAt(body, true, i).ok <==> i != at / L1_RECORD_SIZE)
  {
    hide Flat, SlotAt, OneByte, Unchanged;
    OneByteIsInside(Flat(m, idxs, true), body, at);
    forall i | 0 <= i < |idxs|
      ensures SlotAt(body, true, i).ok <==> i != at / L1_RECORD_SIZE
      ensures Unchanged(body, m, idxs, i) || !SlotAt(body, true, i).ok
    {
      if i == at / L1_RECORD_SIZE {
        OneByteHit(body, m, idxs, at, i);
      } else {
        OneByteElsewhere(body, m, idxs, at, i);
      }
    }
  }

  /** The record that is hit fails its CRC, and doubles another only by way of its index. */
  lemma OneByteHit(body: seq<byte>, m: Overlay, idxs: seq<int>, at: nat, r: nat)
    requires Holds(m, idxs) && r == at / L1_RECORD_SIZE && r < |idxs|
    requires |body| == Offset(true, |idxs|) && at < |body|
    requires OneByte(Flat(m, idxs, true), body, at)
    ensures !SlotAt(body, true, r).ok
    ensures Doubled(SlotAt(body, true, r), m - {idxs[r]}) <==> PassesForDuplicate(body, m, idxs, at)
  {
    hide Flat, Encode, Sum, FromLE;
    OneByteInRecord(body, m, idxs, at, r);
    OneByteSlot(idxs[r], m[idxs[r]], RecordAt(body, r), at % L1_RECORD_SIZE);
  }

  lemma OneByteElsewhere(body: seq<byte>, m: Overlay, idxs: seq<int>, at: nat, i: nat)
    requires Holds(m, idxs) && OneByte(Flat(m, idxs, true), body, at) && i < |idxs| && i != at / L1_RECORD_SIZE
    ensures Unchanged(body, m, idxs, i) && SlotAt(body, true, i).ok
  {
    hide Flat, Encode, Parse;
    OneByteInRecord(body, m, idxs, at, i);
    FlatAt(m, idxs, true, i);
    UnchangedSlot(body, m, idxs, i);
  }

  lemma OneByteIsInside(p: seq<byte>, q: seq<byte>, at: nat)
    requires OneByte(p, q, at)
    ensures at < |p| == |q|
  {
  }

  lemma AllButOne(slots: seq<Slot>, keys: seq<int>, r: nat, k: int)
    requires Ascending(keys) && |slots| == |keys| && r < |keys|
    requires forall i :: 0 <= i < |keys| ==> slots[i].Whole? && (slots[i].ok <==> i != r)
    ensures Survives(slots, keys, k) <==> k in Elements(keys) && k != keys[r]
  {
    if k in Elements(keys) && k != keys[r] {
      var i :| 0 <= i < |keys| && keys[i] == k;
      assert slots[i].ok;
    }
  }

  lemma LeftWithout(body: seq<byte>, m: Overlay, keys: seq<int>, r: nat)
    requires keys == SortedKeys(m) && Holds(m, keys) && Offset(true, |keys|) == |body| && r < |keys|
    requires forall i :: 0 <= i < |keys| ==> (SlotAt(body, true, i).ok <==> i != r)
    ensures Surviving(Slots(body, true, |keys|), m, keys) == m - {keys[r]}
  {
    hide Survives, SlotAt, Elements, Holds;
    var slots := Slots(body, true, |keys|);
    assert forall i :: 0 <= i < |keys| ==> slots[i] == SlotAt(body, true, i);
    forall k | k in m ensures Survives(slots, keys, k) <==> k != keys[r] {
      AllButOne(slots, keys, r, k);
    }
  }
}
