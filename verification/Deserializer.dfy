/** Deserialize for L0/L1 and headerless blobs: records are applied onto a fresh device over the base. */
module Deserializer {
  import opened Bytes
  import opened Sorting
  import opened Records
  import opened RecordDecoder
  import opened WireFormat
  import opened Images
  import opened BlockDevice

  /** The unverified index and data of a record that failed its CRC. */
  datatype SkippedRec = SkippedRec(idx: int, data: seq<byte>)

  // ----- what the scan collects

  function SkippedIn(slots: seq<Slot>): seq<SkippedRec> {
    if slots == [] then []
    else
      var s := slots[|slots| - 1];
      SkippedIn(slots[..|slots| - 1]) + if s.Whole? && !s.ok then [SkippedRec(s.idx, s.data)] else []
  }

  /** The in-range indices of records that are cut off or lost with a shard. */
  function CutsIn(slots: seq<Slot>, blocks: nat): seq<int> {
    if slots == [] then []
    else
      var s := slots[|slots| - 1];
      CutsIn(slots[..|slots| - 1], blocks) + if s.Cut? && InRange(s.idx, blocks) then [s.idx] else []
  }

  /** Unattributed loss that shows before the overlay is complete. */
  predicate Flags(s: Slot, blocks: nat) {
    match s
    case Whole(idx, _, ok) => ok && !InRange(idx, blocks)
    case Cut(idx) => !InRange(idx, blocks)
    case Gone => true
  }

  predicate AnyFlags(slots: seq<Slot>, blocks: nat) {
    exists i :: 0 <= i < |slots| && Flags(slots[i], blocks)
  }

  /** The skipped record is no bit-identical double of an applied one. */
  predicate Unmatched(s: SkippedRec, m: Overlay, blocks: nat) {
    !(InRange(s.idx, blocks) && s.idx in m && m[s.idx] == s.data)
  }

  predicate AnyUnmatched(skipped: seq<SkippedRec>, m: Overlay, blocks: nat) {
    exists i :: 0 <= i < |skipped| && Unmatched(skipped[i], m, blocks)
  }

  /** The named blocks that were not recovered elsewhere. */
  function Unapplied(named: seq<int>, applied: set<int>): set<int> {
    set c | c in named && c !in applied
  }

  predicate AnyApplied(named: seq<int>, applied: set<int>) {
    exists i :: 0 <= i < |named| && named[i] in applied
  }

  /** What the collected losses amount to. */
  ghost function Settlement(
    named: seq<int>, skipped: seq<SkippedRec>, flagged: bool, m: Overlay, blocks: nat): Option<Error> {
    Verdict(
      Unapplied(named, m.Keys),
      flagged || AnyUnmatched(skipped, m, blocks) || AnyApplied(named, m.Keys))
  }

  lemma {:induction false} SkippedFrom(slots: seq<Slot>, j: nat) returns (i: nat)
    requires j < |SkippedIn(slots)|
    ensures i < |slots| && slots[i] == Whole(SkippedIn(slots)[j].idx, SkippedIn(slots)[j].data, false)
  {
    var init := slots[..|slots| - 1];
    if j < |SkippedIn(init)| {
      i := SkippedFrom(init, j);
    } else {
      i := |slots| - 1;
    }
  }

  lemma {:induction false} SkippedTo(slots: seq<Slot>, i: nat)
    requires i < |slots| && slots[i].Whole? && !slots[i].ok
    ensures SkippedRec(slots[i].idx, slots[i].data) in SkippedIn(slots)
  {
    var init := slots[..|slots| - 1];
    if i < |init| {
      SkippedTo(init, i);
    }
  }

  lemma {:induction false} CutFrom(slots: seq<Slot>, blocks: nat, c: int)
    ensures c in CutsIn(slots, blocks) <==> InRange(c, blocks) && Cut(c) in slots
  {
    if slots != [] {
      var init, s := slots[..|slots| - 1], slots[|slots| - 1];
      CutFrom(init, blocks, c);
      assert slots == init + [s];
    }
  }

  lemma UnmatchedIff(slots: seq<Slot>, m: Overlay, blocks: nat)
    ensures AnyUnmatched(SkippedIn(slots), m, blocks) <==>
              exists i :: 0 <= i < |slots| && slots[i].Whole? && !slots[i].ok && Unattributable(slots[i], m, blocks)
  {
    var skipped := SkippedIn(slots);
    if j :| 0 <= j < |skipped| && Unmatched(skipped[j], m, blocks) {
      var i := SkippedFrom(slots, j);
      assert Unattributable(slots[i], m, blocks);
    }
    if i :| 0 <= i < |slots| && slots[i].Whole? && !slots[i].ok && Unattributable(slots[i], m, blocks) {
      SkippedTo(slots, i);
      var j :| 0 <= j < |skipped| && skipped[j] == SkippedRec(slots[i].idx, slots[i].data);
      assert Unmatched(skipped[j], m, blocks);
    }
  }

  lemma CutsIff(slots: seq<Slot>, m: Overlay, blocks: nat)
    ensures AnyApplied(CutsIn(slots, blocks), m.Keys) <==>
              exists i :: 0 <= i < |slots| && slots[i].Cut? && InRange(slots[i].idx, blocks) && slots[i].idx in m
    ensures Blamed(slots, m, blocks) == Unapplied(CutsIn(slots, blocks), m.Keys)
  {
    var cuts := CutsIn(slots, blocks);
    if j :| 0 <= j < |cuts| && cuts[j] in m {
      CutFrom(slots, blocks, cuts[j]);
      var i :| 0 <= i < |slots| && slots[i] == Cut(cuts[j]);
    }
    forall i | 0 <= i < |slots| && slots[i].Cut? && InRange(slots[i].idx, blocks)
      ensures slots[i].idx in cuts
    {
      CutFrom(slots, blocks, slots[i].idx);
      assert slots[i] == Cut(slots[i].idx);
    }
    forall c | c in cuts && c !in m ensures c in Blamed(slots, m, blocks) {
      CutFrom(slots, blocks, c);
      var i :| 0 <= i < |slots| && slots[i] == Cut(c);
      assert Blamable(slots[i], m, blocks);
    }
  }

  /** Settling what was collected from the slots gives the error the slots call for. */
  lemma Settled(slots: seq<Slot>, blocks: nat)
    ensures var m := Applied(slots, blocks);
            Conclude(slots, blocks) ==
              Accept(m, Settlement(CutsIn(slots, blocks), SkippedIn(slots), AnyFlags(slots, blocks), m, blocks))
  {
    hide Applied, SkippedIn, CutsIn, AnyUnmatched;
    var m := Applied(slots, blocks);
    UnmatchedIff(slots, m, blocks);
    CutsIff(slots, m, blocks);
    assert forall i :: 0 <= i < |slots| ==>
      (Unattributable(slots[i], m, blocks) <==>
        Flags(slots[i], blocks) ||
        (slots[i].Whole? && !slots[i].ok && Unattributable(slots[i], m, blocks)) ||
        (slots[i].Cut? && InRange(slots[i].idx, blocks) && slots[i].idx in m));
  }

  // ----- settling

  /** Drops applied and repeated blocks in place, then sorts what is kept. */
  method FinalizeBad(dev: Device, bad: array<int>) returns (n: nat)
    requires dev.Valid()
    modifies bad
    ensures n <= bad.Length
    ensures bad[..n] == SortedSet(Unapplied(old(bad[..]), dev.dirty.Keys))
  {
    hide Sort, Ascending, Device.Valid, Elements, Distinct;
    ghost var was := bad[..];
    var seen: set<int> := {};
    n := 0;
    KeptNothing(was, dev.dirty.Keys);
    for i := 0 to bad.Length
      invariant n <= i && bad[i..] == was[i..]
      invariant seen == Elements(was[..i])
      invariant Distinct(bad[..n]) && Elements(bad[..n]) == Elements(was[..i]) - dev.dirty.Keys
    {
      var b := bad[i];
      assert b == was[i] by { assert b == bad[i..][0]; }
      KeepOne(was, i, bad[..n], dev.dirty.Keys);
      ghost var out := bad[..n];
      if b !in seen {
        seen := seen + {b};
        if b !in dev.dirty {
          bad[n] := b;
          n := n + 1;
          assert bad[..n] == out + [b];
        }
      }
      assert bad[i + 1..] == was[i + 1..];
    }
    assert was[..bad.Length] == was;
    SortDistinct(bad[..n]);
    KeptAll(was, dev.dirty.Keys);
    var sorted := Sort(bad[..n]);
    forall i | 0 <= i < n {
      bad[i] := sorted[i];
    }
    assert bad[..n] == sorted;
  }

  lemma KeptNothing(was: seq<int>, applied: set<int>)
    ensures Elements(was[..0]) == {} && Distinct([]) && Elements<int>([]) == {} - applied
  {
  }

  lemma KeepOne(was: seq<int>, i: nat, out: seq<int>, applied: set<int>)
    requires i < |was| && Distinct(out) && Elements(out) == Elements(was[..i]) - applied
    ensures Elements(was[..i + 1]) == Elements(was[..i]) + {was[i]}
    ensures was[i] in Elements(was[..i]) || was[i] in applied ==>
              Elements(out) == Elements(was[..i + 1]) - applied
    ensures !(was[i] in Elements(was[..i]) || was[i] in applied) ==>
              Distinct(out + [was[i]]) && Elements(out + [was[i]]) == Elements(was[..i + 1]) - applied
  {
    hide Distinct;
    assert was[..i + 1] == was[..i] + [was[i]];
    ElementsSnoc(was[..i], was[i]);
    if was[i] !in Elements(out) {
      DistinctSnoc(out, was[i]);
    }
  }

  lemma KeptAll(was: seq<int>, applied: set<int>)
    ensures Elements(was) - applied == Unapplied(was, applied)
  {
  }

  /** Whether some skipped record is no bit-identical double of an applied one. */
  method FindUnmatched(dev: Device, skipped: seq<SkippedRec>) returns (found: bool)
    requires dev.Valid()
    ensures found == AnyUnmatched(skipped, dev.Contents(), dev.Blocks())
  {
    found := false;
    for i := 0 to |skipped|
      invariant found == AnyUnmatched(skipped[..i], dev.Contents(), dev.Blocks())
    {
      var doubled := Doubles(dev, skipped[i]);
      UnmatchedSnoc(skipped, i, dev.Contents(), dev.Blocks());
      found := found || !doubled;
    }
    assert skipped[..|skipped|] == skipped;
  }

  /** Whether a named loss was superseded by an applied record. */
  method FindSuperseded(dev: Device, named: seq<int>) returns (found: bool)
    ensures found == AnyApplied(named, dev.dirty.Keys)
  {
    found := false;
    for i := 0 to |named|
      invariant found == exists j :: 0 <= j < i && named[j] in dev.dirty
    {
      found := found || named[i] in dev.dirty;
    }
  }

  /** The named blocks that were not recovered elsewhere, sorted. */
  method FinalList(dev: Device, named: seq<int>) returns (bad: seq<int>)
    requires dev.Valid()
    ensures bad == SortedSet(Unapplied(named, dev.dirty.Keys))
  {
    hide Device.Valid, Unapplied;
    var list := new int[|named|](i requires 0 <= i < |named| => named[i]);
    assert list[..] == named;
    var n := FinalizeBad(dev, list);
    bad := list[..n];
  }

  /** Suppresses bit-identical doubles, flags superseded losses, and forms the error. */
  method Settle(dev: Device, named: seq<int>, skipped: seq<SkippedRec>, flagged: bool) returns (err: Option<Error>)
    requires dev.Valid()
    ensures err == Settlement(named, skipped, flagged, dev.Contents(), dev.Blocks())
  {
    hide Device.Valid, Settlement, Unapplied;
    var unmatched := FindUnmatched(dev, skipped);
    var superseded := FindSuperseded(dev, named);
    var unattributed := flagged || unmatched || superseded;
    var bad := FinalList(dev, named);
    SettlementIs(named, skipped, flagged, dev.Contents(), dev.Blocks());
    assert dev.dirty.Keys == dev.Contents().Keys;
    err := if |bad| == 0 && !unattributed then None else Some(Partial(bad, unattributed));
  }

  lemma SettlementIs(named: seq<int>, skipped: seq<SkippedRec>, flagged: bool, m: Overlay, blocks: nat)
    ensures var bad := SortedSet(Unapplied(named, m.Keys));
            var t := flagged || AnyUnmatched(skipped, m, blocks) || AnyApplied(named, m.Keys);
            Settlement(named, skipped, flagged, m, blocks) == if bad == [] && !t then None else Some(Partial(bad, t))
  {
    hide Unapplied, AnyUnmatched, AnyApplied;
    ElementsEmpty(SortedSet(Unapplied(named, m.Keys)));
  }

  /** The skipped record's data is what was applied for the block its index names. */
  method Doubles(dev: Device, s: SkippedRec) returns (doubled: bool)
    requires dev.Valid()
    ensures doubled == !Unmatched(s, dev.Contents(), dev.Blocks())
  {
    doubled := 0 <= s.idx < dev.Blocks() && s.idx in dev.dirty && dev.dirty[s.idx].Bytes() == s.data;
  }

  lemma UnmatchedSnoc(skipped: seq<SkippedRec>, i: nat, m: Overlay, blocks: nat)
    requires i < |skipped|
    ensures AnyUnmatched(skipped[..i + 1], m, blocks) <==>
              AnyUnmatched(skipped[..i], m, blocks) || Unmatched(skipped[i], m, blocks)
  {
    var a, b := skipped[..i], skipped[..i + 1];
    if j :| 0 <= j < |a| && Unmatched(a[j], m, blocks) {
      assert Unmatched(b[j], m, blocks);
    }
    if Unmatched(skipped[i], m, blocks) {
      assert Unmatched(b[i], m, blocks);
    }
  }

  // ----- scanning records into one arena

  /** Every window of the overlay lies in the first `i` blocks of the arena. */
  ghost predicate Windows(dev: Device, arena: array<byte>, i: nat)
    reads dev
  {
    InArena(dev.dirty, arena, i)
  }

  ghost predicate InArena(dirty: map<int, Slice>, arena: array<byte>, i: nat) {
    forall k :: k in dirty ==> dirty[k].arr == arena && dirty[k].lo + BLOCK_SIZE <= i * BLOCK_SIZE
  }

  /** Copies block `i` into the arena and hands its window to the overlay. */
  method PlaceBlock(dev: Device, arena: array<byte>, i: nat, idx: int, data: seq<byte>)
    requires dev.Valid() && arena != dev.base && 0 <= idx < dev.Blocks() && |data| == BLOCK_SIZE
    requires (i + 1) * BLOCK_SIZE <= arena.Length && Windows(dev, arena, i)
    modifies dev`dirty, arena
    ensures dev.Valid() && Windows(dev, arena, i + 1)
    ensures dev.Contents() == old(dev.Contents())[idx := data]
  {
    hide Device.Contents, Device.Valid, InArena;
    FillArena(dev, arena, i, data);
    var w := Slice(arena, i * BLOCK_SIZE, BLOCK_SIZE);
    ArenaApart(dev, arena, i, w);
    ArenaGrows(dev.dirty, arena, i, idx);
    dev.Adopt(idx, w);
  }

  /** Copies a block into its place in the arena, where no window lies yet. */
  method FillArena(dev: Device, arena: array<byte>, i: nat, data: seq<byte>)
    requires dev.Valid() && arena != dev.base && |data| == BLOCK_SIZE
    requires (i + 1) * BLOCK_SIZE <= arena.Length && Windows(dev, arena, i)
    modifies arena
    ensures dev.Valid() && dev.Contents() == old(dev.Contents())
    ensures Slice(arena, i * BLOCK_SIZE, BLOCK_SIZE).Bytes() == data
  {
    hide Device.Contents, Splice;
    ghost var was := arena[..];
    CopyInto(arena, i * BLOCK_SIZE, data);
    SpliceInside(was, i * BLOCK_SIZE, data);
    assert arena[..][i * BLOCK_SIZE..i * BLOCK_SIZE + BLOCK_SIZE] == data;
    forall k | k in dev.dirty ensures dev.Dirty(k) == old(dev.Dirty(k)) {
      var v := dev.dirty[k];
      WindowKept(v, was, i * BLOCK_SIZE, data);
      assert old(v.Bytes()) == was[v.lo..v.lo + v.len];
    }
    dev.SameContents();
  }

  lemma ArenaApart(dev: Device, arena: array<byte>, i: nat, w: Slice)
    requires dev.Valid() && Windows(dev, arena, i) && w == Slice(arena, i * BLOCK_SIZE, BLOCK_SIZE)
    ensures forall k :: k in dev.dirty ==> Apart(dev.dirty[k], w) && Apart(w, dev.dirty[k])
  {
  }

  lemma ArenaGrows(dirty: map<int, Slice>, arena: array<byte>, i: nat, idx: int)
    requires InArena(dirty, arena, i)
    ensures InArena(dirty[idx := Slice(arena, i * BLOCK_SIZE, BLOCK_SIZE)], arena, i + 1)
  {
  }

  /** The first pass over `n` records: apply, skip or flag each. */
  method ScanRecords(dev: Device, arena: array<byte>, body: seq<byte>, crc: bool, n: nat)
    returns (skipped: seq<SkippedRec>, flagged: bool)
    requires dev.Valid() && dev.dirty == map[] && arena != dev.base
    requires Offset(crc, n) <= |body| && arena.Length == n * BLOCK_SIZE
    modifies dev`dirty, arena
    ensures dev.Valid() && Windows(dev, arena, n)
    ensures dev.Contents() == Applied(Slots(body, crc, n), dev.Blocks())
    ensures skipped == SkippedIn(Slots(body, crc, n)) && flagged == AnyFlags(Slots(body, crc, n), dev.Blocks())
  {
    hide Slots, SlotAt, Device.Contents, Device.Valid, Applied, SkippedIn, AnyFlags, Flags;
    ghost var slots := Slots(body, crc, n);
    skipped, flagged := [], false;
    NoSlots(dev, slots);
    for i := 0 to n
      invariant dev.Valid() && Windows(dev, arena, i)
      invariant dev.Contents() == Applied(slots[..i], dev.Blocks())
      invariant skipped == SkippedIn(slots[..i]) && flagged == AnyFlags(slots[..i], dev.Blocks())
    {
      var s := SlotAt(body, crc, i);
      NextSlot(body, crc, n, i, dev.Blocks());
      if !s.ok {
        skipped := skipped + [SkippedRec(s.idx, s.data)];
      } else if s.idx < 0 || s.idx >= dev.Blocks() {
        flagged := true;
      } else {
        PlaceBlock(dev, arena, i, s.idx, s.data);
      }
    }
    assert slots[..n] == slots;
  }

  lemma NoSlots(dev: Device, slots: seq<Slot>)
    requires dev.Valid() && dev.dirty == map[]
    ensures dev.Contents() == Applied(slots[..0], dev.Blocks())
    ensures SkippedIn(slots[..0]) == [] && !AnyFlags(slots[..0], dev.Blocks())
  {
  }

  /** How each part of the scan's result grows with the next slot. */
  lemma SlotSnoc(slots: seq<Slot>, i: nat, blocks: nat)
    requires i < |slots|
    ensures var s, head, more := slots[i], slots[..i], slots[..i + 1];
            Applied(more, blocks) ==
              (if Usable(s, blocks) then Applied(head, blocks)[s.idx := s.data] else Applied(head, blocks)) &&
            SkippedIn(more) == SkippedIn(head) + (if s.Whole? && !s.ok then [SkippedRec(s.idx, s.data)] else []) &&
            CutsIn(more, blocks) == CutsIn(head, blocks) + (if s.Cut? && InRange(s.idx, blocks) then [s.idx] else []) &&
            (AnyFlags(more, blocks) <==> AnyFlags(head, blocks) || Flags(s, blocks))
  {
    assert slots[..i + 1][..i] == slots[..i];
    FlagsSnoc(slots[..i], slots[i], blocks);
    assert slots[..i + 1] == slots[..i] + [slots[i]];
  }

  lemma NextSlot(body: seq<byte>, crc: bool, n: nat, i: nat, blocks: nat)
    requires Offset(crc, n) <= |body| && i < n
    ensures Offset(crc, i + 1) <= |body|
    ensures var slots, s := Slots(body, crc, n), SlotAt(body, crc, i);
            Applied(slots[..i + 1], blocks) ==
              (if Usable(s, blocks) then Applied(slots[..i], blocks)[s.idx := s.data]
               else Applied(slots[..i], blocks)) &&
            SkippedIn(slots[..i + 1]) ==
              SkippedIn(slots[..i]) + (if !s.ok then [SkippedRec(s.idx, s.data)] else []) &&
            (AnyFlags(slots[..i + 1], blocks) <==> AnyFlags(slots[..i], blocks) || (s.ok && !InRange(s.idx, blocks)))
  {
    hide SlotAt, Applied, SkippedIn, CutsIn, AnyFlags;
    var slots := Slots(body, crc, n);
    assert slots[i] == SlotAt(body, crc, i);
    SlotSnoc(slots, i, blocks);
  }

  lemma FlagsSnoc(slots: seq<Slot>, s: Slot, blocks: nat)
    ensures AnyFlags(slots + [s], blocks) <==> AnyFlags(slots, blocks) || Flags(s, blocks)
  {
    var t := slots + [s];
    if i :| 0 <= i < |slots| && Flags(slots[i], blocks) {
      assert Flags(t[i], blocks);
    }
    if Flags(s, blocks) {
      assert Flags(t[|slots|], blocks);
    }
  }

  /**
   * Decodes a section of L0/L1 records onto a fresh device. Exactly `count` records are applied at most;
   * the overlay's windows are disjoint parts of one new arena.
   */
  method ApplyRecords(
    body: seq<byte>, crc: bool, count: nat, base: array<byte>) returns (dev: Device, err: Option<Error>)
    requires Aligned(base.Length) && base.Length < TWO_TO_THE_63
    ensures fresh(dev) && dev.Valid() && dev.base == base && fresh(dev.Buffers())
    ensures Accept(dev.Contents(), err) == DecodeRecords(body, crc, count, dev.Blocks())
  {
    hide Slots, Conclude, Applied, SkippedIn, AnyFlags, CutsIn, Device.Contents, Device.Valid, ReadIndex, Settlement;
    dev := new Device(base);
    var blocks := dev.Blocks();
    var n := WholeRecords(crc, |body|);
    var named: seq<int> := [];
    var unattributed := false;
    if n >= count {
      if n > count || Offset(crc, n) != |body| {
        unattributed := true;
        n := count;
      }
    } else {
      var tail := body[Offset(crc, n)..];
      if |tail| >= 8 {
        var idx := ReadIndex(tail);
        if 0 <= idx < blocks {
          named := [idx];
        } else {
          unattributed := true;
        }
      } else {
        unattributed := true;
      }
    }
    var arena := new byte[n * BLOCK_SIZE];
    var skipped, flagged := ScanRecords(dev, arena, body, crc, n);
    TailNotes(TailSlot(body[Offset(crc, WholeRecords(crc, |body|))..]), blocks);
    TailCollected(body, crc, count, blocks, named, unattributed);
    Settled(LayoutSlots(body, crc, count), blocks);
    err := Settle(dev, named, skipped, flagged || unattributed);
  }

  /** The tail contributes exactly what the layout check notes down. */
  lemma TailCollected(body: seq<byte>, crc: bool, count: nat, blocks: nat, named: seq<int>, flag: bool)
    requires var tail := TailSlots(body, crc, count);
             named == CutsIn(tail, blocks) && flag == AnyFlags(tail, blocks)
    ensures var slots := Slots(body, crc, ScannedRecords(|body|, crc, count));
            var all := LayoutSlots(body, crc, count);
            Applied(all, blocks) == Applied(slots, blocks) && SkippedIn(all) == SkippedIn(slots) &&
            CutsIn(all, blocks) == named && AnyFlags(all, blocks) == (AnyFlags(slots, blocks) || flag)
  {
    hide SlotAt, TailSlots, Applied, SkippedIn, CutsIn, AnyFlags, Flags;
    var slots := Slots(body, crc, ScannedRecords(|body|, crc, count));
    var tail := TailSlots(body, crc, count);
    var all := slots + tail;
    NoCuts(slots, blocks);
    if tail == [] {
      assert all == slots;
      TailNotes(Gone, blocks);
    } else {
      TailIsOne(body, crc, count);
      assert all[..|slots|] == slots && all[..|slots| + 1] == all;
      SlotSnoc(all, |slots|, blocks);
      TailNotes(tail[0], blocks);
    }
  }

  lemma TailNotes(s: Slot, blocks: nat)
    ensures CutsIn([], blocks) == [] && !AnyFlags([], blocks) && AnyFlags([Gone], blocks) &&
            CutsIn([Gone], blocks) == []
    ensures CutsIn([s], blocks) == (if s.Cut? && InRange(s.idx, blocks) then [s.idx] else [])
    ensures AnyFlags([s], blocks) <==> Flags(s, blocks)
  {
    FlagsSnoc([], s, blocks);
    FlagsSnoc([], Gone, blocks);
  }

  lemma TailIsOne(body: seq<byte>, crc: bool, count: nat)
    requires TailSlots(body, crc, count) != []
    ensures var t := TailSlots(body, crc, count); |t| == 1 && t == [t[0]] && !t[0].Whole?
  {
  }

  lemma {:induction false} NoCuts(slots: seq<Slot>, blocks: nat)
    requires forall i :: 0 <= i < |slots| ==> slots[i].Whole?
    ensures CutsIn(slots, blocks) == []
  {
    if slots != [] {
      NoCuts(slots[..|slots| - 1], blocks);
    }
  }

  /** Scans a body behind an unverifiable header at fixed stride and applies what verifies. */
  method DeserializeHeaderless(body: seq<byte>, base: array<byte>) returns (dev: Device?, err: Option<Error>)
    requires Aligned(base.Length) && base.Length < TWO_TO_THE_63
    ensures Returned(dev, err, DecodeHeaderless(body, base.Length / BLOCK_SIZE), base)
    ensures dev != null ==> fresh(dev) && fresh(dev.Buffers())
  {
    hide Applied, Slots, SlotAt, Device.Contents, Device.Valid, SkippedIn, AnyFlags;
    if |body| == 0 || |body| % L1_RECORD_SIZE != 0 {
      return null, Some(Corrupt);
    }
    var d := new Device(base);
    var n := WholeRecords(true, |body|);
    var arena := new byte[n * BLOCK_SIZE];
    ghost var slots := Slots(body, true, n);
    ghost var blocks := d.Blocks();
    NoSlots(d, slots);
    var recovered := 0;
    for i := 0 to n
      invariant d.Valid() && Windows(d, arena, i) && fresh(d.Buffers()) && d.Blocks() == blocks
      invariant d.Contents() == Applied(slots[..i], blocks)
      invariant recovered == 0 <==> d.Contents() == map[]
    {
      var s := SlotAt(body, true, i);
      NextSlot(body, true, n, i, blocks);
      if s.ok && 0 <= s.idx < d.Blocks() {
        PlaceBlock(d, arena, i, s.idx, s.data);
        recovered := recovered + 1;
        assert s.idx in d.Contents();
      }
    }
    assert slots[..n] == slots;
    if recovered == 0 {
      return null, Some(Corrupt);
    }
    return d, Some(Partial([], true));
  }

  /** What a call of Deserialize hands back for a specified result. */
  ghost predicate Returned(dev: Device?, err: Option<Error>, r: Result, base: array<byte>)
    reads if dev == null then {} else {dev}, if dev == null then {} else dev.Buffers()
  {
    match r
    case Reject(e) => dev == null && err == Some(e)
    case Accept(m, e) => dev != null && dev.Valid() && dev.base == base && dev.Contents() == m && err == e
  }
}
