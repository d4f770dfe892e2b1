/** Inspect: a second walk over a blob, without a base, that fills in an Info. */
module Inspector {
  import opened Bytes
  import opened Sorting
  import opened Records
  import opened RecordDecoder
  import opened WireFormat
  import opened Erasure
  import opened Geometry
  import opened Shards
  import opened ShardedFormat
  import opened Deserializer
  import opened ShardReader
  import opened Inspection

  class Info {
    var version: byte
    var tier: byte
    var blockCount: nat
    var blobSize: nat
    var bad: seq<int>
    var unattributed: nat
    var truncated: bool

    /** The fields as one value. */
    function View(): Report
      reads this
    {
      Report(version, tier, blockCount, blobSize, bad, unattributed, truncated)
    }

    /** The header's fields, nothing lost so far. */
    constructor (blob: seq<byte>)
      requires |blob| >= HEADER_SIZE
      ensures View() == HeaderReport(blob)
    {
      version, tier, blockCount, blobSize := blob[4], blob[5], BlockCount(blob), |blob|;
      bad, unattributed, truncated := [], 0, false;
    }

    /** Sorts and dedupes the list and folds the count into the flag. */
    method FinishInfo()
      modifies this`bad, this`truncated
      ensures bad == SortedSet(Elements(old(bad)))
      ensures truncated == (old(truncated) || unattributed > 0)
    {
      SortCompact(bad);
      bad := Compact(Sort(bad));
      if unattributed > 0 {
        truncated := true;
      }
    }

    /** Checks the body's length against the block count; returns how many records to scan. */
    method InspectBodyLayout(body: seq<byte>, crc: bool) returns (n: nat)
      requires bad == [] && unattributed == 0 && !truncated
      modifies this`bad, this`unattributed, this`truncated
      ensures n == ScannedRecords(|body|, crc, blockCount)
      ensures bad == SortedSet(TailBad(body, crc, blockCount)) && unattributed == TailLoss(body, crc, blockCount)
      ensures truncated == (TailSlots(body, crc, blockCount) != [])
    {
      hide ReadIndex, TailSlot;
      n := WholeRecords(crc, |body|);
      if n >= blockCount {
        if n > blockCount || Offset(crc, n) != |body| {
          truncated := true;
          n := blockCount;
        }
      } else {
        truncated := true;
        var tail := body[Offset(crc, n)..];
        if |tail| >= 8 {
          bad := bad + [ReadIndex(tail)];
        } else {
          unattributed := unattributed + 1;
        }
      }
      TailListed(body, crc, blockCount, bad);
      FinishInfo();
    }
  }

  lemma TailListed(body: seq<byte>, crc: bool, count: nat, bad: seq<int>)
    requires bad == if WholeRecords(crc, |body|) < count && |body| - Offset(crc, WholeRecords(crc, |body|)) >= 8
                    then [ReadIndex(body[Offset(crc, WholeRecords(crc, |body|))..])] else []
    ensures Elements(bad) == TailBad(body, crc, count)
  {
    hide ReadIndex;
  }

  // ----- what the walk collects

  function NegativeIn(slots: seq<Slot>): seq<int> {
    if slots == [] then []
    else
      var s := slots[|slots| - 1];
      NegativeIn(slots[..|slots| - 1]) + if s.Whole? && s.ok && s.idx < 0 then [s.idx] else []
  }

  /** The indices of records lost with a shard, whatever their range. */
  function LostIn(slots: seq<Slot>): seq<int> {
    if slots == [] then []
    else
      var s := slots[|slots| - 1];
      LostIn(slots[..|slots| - 1]) + if s.Cut? then [s.idx] else []
  }

  function GoneCount(slots: seq<Slot>): nat {
    if slots == [] then 0
    else GoneCount(slots[..|slots| - 1]) + if slots[|slots| - 1].Gone? then 1 else 0
  }

  function UnmatchedCount(skipped: seq<SkippedRec>, m: Overlay): nat {
    if skipped == [] then 0
    else
      var s := skipped[|skipped| - 1];
      UnmatchedCount(skipped[..|skipped| - 1], m) + if s.idx in m && m[s.idx] == s.data then 0 else 1
  }

  function SupersededCount(lost: seq<int>, m: Overlay): nat {
    if lost == [] then 0
    else SupersededCount(lost[..|lost| - 1], m) + if lost[|lost| - 1] in m then 1 else 0
  }

  lemma UnmatchedSnoc(skipped: seq<SkippedRec>, s: SkippedRec, m: Overlay)
    ensures UnmatchedCount(skipped + [s], m) == UnmatchedCount(skipped, m) + if s.idx in m &&
            m[s.idx] == s.data then 0 else 1
  {
    assert (skipped + [s])[..|skipped|] == skipped;
  }

  lemma SupersededSnoc(lost: seq<int>, c: int, m: Overlay)
    ensures SupersededCount(lost + [c], m) == SupersededCount(lost, m) + if c in m then 1 else 0
  {
    assert (lost + [c])[..|lost|] == lost;
  }

  /** The loss count is the sum of what the walk collects. */
  lemma {:induction false} LossSplits(slots: seq<Slot>, m: Overlay)
    ensures LossCount(slots, m)
         == GoneCount(slots) + UnmatchedCount(SkippedIn(slots), m) + SupersededCount(LostIn(slots), m)
  {
    if slots != [] {
      var init, s := slots[..|slots| - 1], slots[|slots| - 1];
      LossSplits(init, m);
      match s
      case Whole(idx, data, ok) =>
        assert LostIn(slots) == LostIn(init);
        if ok {
          assert SkippedIn(slots) == SkippedIn(init);
        } else {
          UnmatchedSnoc(SkippedIn(init), SkippedRec(idx, data), m);
        }
      case Cut(idx) =>
        assert SkippedIn(slots) == SkippedIn(init);
        SupersededSnoc(LostIn(init), idx, m);
      case Gone =>
        assert SkippedIn(slots) == SkippedIn(init) && LostIn(slots) == LostIn(init);
    }
  }

  lemma {:induction false} NegativeIff(slots: seq<Slot>, c: int)
    ensures c in NegativeIn(slots) <==>
            c < 0 && exists i :: 0 <= i < |slots| && slots[i].Whole? && slots[i].ok && slots[i].idx == c
  {
    if slots != [] {
      var init, s := slots[..|slots| - 1], slots[|slots| - 1];
      NegativeIff(init, c);
      if s.Whole? && s.ok && s.idx == c < 0 {
        assert slots[|init|] == s;
      }
    }
  }

  lemma {:induction false} LostIff(slots: seq<Slot>, c: int)
    ensures c in LostIn(slots) <==> exists i :: 0 <= i < |slots| && slots[i] == Cut(c)
  {
    if slots != [] {
      LostIff(slots[..|slots| - 1], c);
    }
  }

  lemma ListedSplits(slots: seq<Slot>, m: Overlay)
    ensures ListedIndices(slots, m) == Elements(NegativeIn(slots)) + Unapplied(LostIn(slots), m.Keys)
  {
    var a, b := ListedIndices(slots, m), Elements(NegativeIn(slots)) + Unapplied(LostIn(slots), m.Keys);
    forall c | c in a ensures c in b {
      var i :| 0 <= i < |slots| && Listed(slots[i], m) && slots[i].idx == c;
      NegativeIff(slots, c);
      LostIff(slots, c);
      assert slots[i].Cut? ==> slots[i] == Cut(c);
    }
    forall c | c in b ensures c in a {
      NegativeIff(slots, c);
      LostIff(slots, c);
      if c in Elements(NegativeIn(slots)) {
        var i :| 0 <= i < |slots| && slots[i].Whole? && slots[i].ok && slots[i].idx == c;
        assert Listed(slots[i], m);
      } else {
        var i :| 0 <= i < |slots| && slots[i] == Cut(c);
        assert Listed(slots[i], m);
      }
    }
  }

  // ----- walking

  /** The running totals of a walk over record slots. */
  class Tally {
    var applied: Overlay
    var skipped: seq<SkippedRec>
    var lost: seq<int>
    var bad: seq<int>
    var gone: nat

    /** The totals are those of the slots walked so far. */
    ghost predicate Of(slots: seq<Slot>)
      reads this
    {
      applied == Verified(slots) && skipped == SkippedIn(slots) && lost == LostIn(slots) &&
      bad == NegativeIn(slots) && gone == GoneCount(slots)
    }

    constructor ()
      ensures Of([])
    {
      applied, skipped, lost, bad, gone := map[], [], [], [], 0;
    }

    /** Accounts for the next slot. */
    method Add(ghost slots: seq<Slot>, s: Slot)
      requires Of(slots) && (s.Whole? ==> s.idx < TWO_TO_THE_63)
      modifies this
      ensures Of(slots + [s])
    {
      assert (slots + [s])[..|slots|] == slots;
      match s
      case Whole(idx, data, ok) =>
        if !ok {
          skipped := skipped + [SkippedRec(idx, data)];
        } else if idx < 0 {
          bad := bad + [idx];
        } else {
          applied := applied[idx := data];
        }
      case Cut(idx) =>
        lost := lost + [idx];
      case Gone =>
        gone := gone + 1;
    }

    /** The losses in all: how many are unattributed, and which are listed. */
    method Totals(ghost slots: seq<Slot>) returns (unattributed: nat, listed: seq<int>)
      requires Of(slots)
      ensures unattributed == LossCount(slots, Verified(slots))
      ensures Elements(listed) == ListedIndices(slots, Verified(slots))
    {
      hide Verified, SkippedIn, LostIn, NegativeIn, GoneCount, LossCount, ListedIndices, Elements;
      LossSplits(slots, Verified(slots));
      ListedSplits(slots, Verified(slots));
      var unmatched := CountUnmatched(skipped, applied);
      var superseded, unapplied := SplitLost(lost, applied);
      unattributed := gone + unmatched + superseded;
      ElementsConcat(bad, unapplied);
      listed := bad + unapplied;
    }
  }

  lemma ElementsConcat(a: seq<int>, b: seq<int>)
    ensures Elements(a + b) == Elements(a) + Elements(b)
  {
    assert forall x :: x in a + b <==> x in a || x in b;
  }

  /** Skipped records that are no bit-identical double of a verified one. */
  method CountUnmatched(skipped: seq<SkippedRec>, applied: Overlay) returns (n: nat)
    ensures n == UnmatchedCount(skipped, applied)
  {
    n := 0;
    for i := 0 to |skipped|
      invariant n == UnmatchedCount(skipped[..i], applied)
    {
      assert skipped[..i + 1] == skipped[..i] + [skipped[i]];
      UnmatchedSnoc(skipped[..i], skipped[i], applied);
      if skipped[i].idx !in applied || applied[skipped[i].idx] != skipped[i].data {
        n := n + 1;
      }
    }
    assert skipped[..|skipped|] == skipped;
  }

  /** Lost records: superseded by a verified double, or listed. */
  method SplitLost(lost: seq<int>, applied: Overlay) returns (superseded: nat, unapplied: seq<int>)
    ensures superseded == SupersededCount(lost, applied)
    ensures Elements(unapplied) == Unapplied(lost, applied.Keys)
  {
    hide Elements, Unapplied, SupersededCount;
    superseded, unapplied := 0, [];
    NoneLost(lost, applied);
    for i := 0 to |lost|
      invariant superseded == SupersededCount(lost[..i], applied)
      invariant Elements(unapplied) == Unapplied(lost[..i], applied.Keys)
    {
      assert lost[..i + 1] == lost[..i] + [lost[i]];
      SupersededSnoc(lost[..i], lost[i], applied);
      UnappliedSnoc(lost[..i], lost[i], applied.Keys);
      if lost[i] in applied {
        superseded := superseded + 1;
      } else {
        ElementsSnoc(unapplied, lost[i]);
        unapplied := unapplied + [lost[i]];
      }
    }
    assert lost[..|lost|] == lost;
  }

  lemma NoneLost(lost: seq<int>, applied: Overlay)
    ensures SupersededCount(lost[..0], applied) == 0
    ensures Elements<int>([]) == Unapplied(lost[..0], applied.Keys)
  {
  }

  lemma UnappliedSnoc(lost: seq<int>, c: int, applied: set<int>)
    ensures Unapplied(lost + [c], applied) == Unapplied(lost, applied) + if c in applied then {} else {c}
  {
    assert forall k :: k in lost + [c] <==> k in lost || k == c;
  }

  /** Walks a whole-record L1 payload. */
  method ScanL1Records(body: seq<byte>, n: nat) returns (bad: seq<int>, unattributed: nat)
    requires Offset(true, n) <= |body|
    ensures var slots := Slots(body, true, n);
            unattributed == LossCount(slots, Verified(slots)) && Elements(bad) == ListedIndices(slots, Verified(slots))
  {
    hide SlotAt, LossCount, ListedIndices, Verified, Elements, Tally.Of;
    ghost var slots := Slots(body, true, n);
    var tally := new Tally();
    assert slots[..0] == [];
    for i := 0 to n
      invariant fresh(tally) && tally.Of(slots[..i])
    {
      tally.Add(slots[..i], SlotAt(body, true, i));
      assert slots[..i + 1] == slots[..i] + [SlotAt(body, true, i)];
    }
    assert slots[..n] == slots;
    unattributed, bad := tally.Totals(slots);
  }

  /** Walks the records of a payload of which only some shards are left. */
  method ScanSalvage(
    slots: seq<ShardSlot>, n: nat, size: nat, payloadLen: nat) returns (bad: seq<int>, unattributed: nat)
    requires size > 0 && n <= |slots| && SlotsEqual(slots, size)
    ensures var all := SalvageSlots(slots, n, size, payloadLen);
            unattributed == LossCount(all, Verified(all)) && Elements(bad) == ListedIndices(all, Verified(all))
  {
    hide SalvageSlot, SlotsEqual, LossCount, ListedIndices, Verified, Elements, Tally.Of;
    ghost var all := SalvageSlots(slots, n, size, payloadLen);
    var count := WholeRecords(true, payloadLen);
    var tally := new Tally();
    assert all[..0] == [];
    for i := 0 to count
      invariant fresh(tally) && tally.Of(all[..i])
    {
      var s := ReadSalvageSlot(slots, n, size, Offset(true, i));
      tally.Add(all[..i], s);
      assert all[..i + 1] == all[..i] + [s];
    }
    assert all[..count] == all;
    unattributed, bad := tally.Totals(all);
  }

  // ----- the tiers

  /** Reports what is unrecoverable in an L2 body; false if the body is refused. */
  method InspectRSBody(code: ErasureCode, info: Info, body: seq<byte>) returns (ok: bool)
    requires WellShaped(code) && info.bad == [] && info.unattributed == 0 && !info.truncated
    modifies info
    ensures ok == InspectRs(code, old(info.View()), body).Reported?
    ensures ok ==> info.View() == InspectRs(code, old(info.View()), body).report
  {
    hide ParseMeta, Admissible, ParseSection, SlotsEqual, LossCount, ListedIndices, Verified, Elements, Missing,
      Flatten,
      SalvageSlots, Slots;
    ghost var r := info.View();
    var parsed := ParseMeta(body, info.blockCount);
    if parsed.None? {
      return false;
    }
    var g := parsed.value;
    AdmissibleShape(g, info.blockCount, |body|);
    if g.payloadLen == 0 {
      NothingScanned(r);
      return true;
    }
    var slots, missing := ParseShardSection(body[META_SIZE..], g.n + g.k, g.size);
    SectionEqual(body[META_SIZE..], g.n + g.k, g.size);
    var bad, lost := ScanShards(code, slots, missing, g);
    info.bad, info.unattributed := bad, lost;
    info.FinishInfo();
    return true;
  }

  lemma NothingScanned(r: Report)
    requires r.bad == [] && r.unattributed == 0 && !r.truncated
    ensures InspectSlots(r, []) == r
  {
    ElementsEmpty(SortedSet({}));
  }

  /** Scans the repaired payload, or walks what is left of it. */
  method ScanShards(code: ErasureCode, slots: seq<ShardSlot>, missing: nat, g: Shape) returns (bad: seq<int>, lost: nat)
    requires WellShaped(code) && 1 <= g.n && g.size > 0 && g.payloadLen <= g.n * g.size
    requires |slots| == g.n + g.k && SlotsEqual(slots, g.size) && missing == Missing(slots)
    ensures var all := ShardedSlots(code, slots, g);
            lost == LossCount(all, Verified(all)) && Elements(bad) == ListedIndices(all, Verified(all))
  {
    hide SlotsEqual, LossCount, ListedIndices, Verified, Elements, Missing, Flatten, SalvageSlots, Slots;
    if missing <= g.k && code.init(g.n, g.k) {
      var data := code.reconstruct(slots, g.n);
      if data.Some? {
        FlattenLength(data.value, g.size);
        var payload := Flatten(data.value);
        bad, lost := ScanL1Records(payload[..g.payloadLen], WholeRecords(true, g.payloadLen));
        return;
      }
    }
    bad, lost := ScanSalvage(slots, g.n, g.size, g.payloadLen);
  }

  /** Counts the self-verifying records behind an unverifiable header. */
  method CountVerified(body: seq<byte>, n: nat) returns (recovered: nat)
    requires Offset(true, n) <= |body|
    ensures recovered == OkCount(Slots(body, true, n))
  {
    hide SlotAt;
    ghost var slots := Slots(body, true, n);
    recovered := 0;
    for i := 0 to n
      invariant recovered == OkCount(slots[..i])
    {
      assert slots[..i + 1][..i] == slots[..i];
      if SlotAt(body, true, i).ok {
        recovered := recovered + 1;
      }
    }
    assert slots[..n] == slots;
  }

  /** Fills in an Info for an L0/L1 body. */
  method InspectRecordBody(info: Info, body: seq<byte>, crc: bool)
    requires info.bad == [] && info.unattributed == 0 && !info.truncated
    modifies info
    ensures info.View() == InspectRecords(old(info.View()), body, crc)
  {
    hide TailBad, TailLoss, TailSlots, LossCount, ListedIndices, Verified, Elements, Slots;
    ghost var count := info.blockCount;
    var n := info.InspectBodyLayout(body, crc);
    if crc {
      var bad, lost := ScanL1Records(body, n);
      ElementsConcat(info.bad, bad);
      info.bad := info.bad + bad;
      info.unattributed := info.unattributed + lost;
      info.FinishInfo();
    } else {
      NoScan();
      TailLossTruncates(body, crc, count);
      assert TailBad(body, crc, count) + {} == TailBad(body, crc, count);
    }
  }

  lemma NoScan()
    ensures ListedIndices([], Verified([])) == {} && LossCount([], Verified([])) == 0
  {
  }

  lemma TailLossTruncates(body: seq<byte>, crc: bool, count: nat)
    ensures TailLoss(body, crc, count) > 0 ==> TailSlots(body, crc, count) != []
  {
  }

  /** Decodes a blob's header and checks its records without a base. */
  method InspectBlob(code: ErasureCode, blob: seq<byte>) returns (info: Info?, err: Option<Error>)
    requires WellShaped(code)
    ensures match Inspect(code, blob)
            case Failed(e) => info == null && err == Some(e)
            case Reported(r) => info != null && info.View() == r && err == None
  {
    hide HeaderVerifies, InspectRecords, InspectRs, Slots, OkCount, BlockCount;
    if |blob| < HEADER_SIZE || !Recognized(blob) {
      return null, Some(Corrupt);
    }
    var i := new Info(blob);
    var body := blob[HEADER_SIZE..];
    if !HeaderVerifies(blob) {
      if !(blob[5] == TIER_L1 || blob[5] > TIER_L2) || |body| == 0 || |body| % L1_RECORD_SIZE != 0 {
        return null, Some(Corrupt);
      }
      var n := WholeRecords(true, |body|);
      var recovered := CountVerified(body, n);
      if recovered == 0 {
        return null, Some(Corrupt);
      }
      i.truncated := true;
      i.unattributed := n - recovered;
      return i, None;
    }
    if blob[5] == TIER_L0 || blob[5] == TIER_L1 {
      InspectRecordBody(i, body, blob[5] == TIER_L1);
      return i, None;
    } else if blob[5] == TIER_L2 {
      var ok := InspectRSBody(code, i, body);
      RsFails(code, HeaderReport(blob), body);
      if !ok {
        return null, Some(Corrupt);
      }
      return i, None;
    }
    return null, Some(UnsupportedTier);
  }

  lemma RsFails(code: ErasureCode, r: Report, body: seq<byte>)
    requires WellShaped(code)
    ensures InspectRs(code, r, body).Failed? ==> InspectRs(code, r, body).error == Corrupt
  {
  }
}
