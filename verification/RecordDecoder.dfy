/**
 * What a decoder makes of a record stream, independent of the wire format that delivered it.
 * Every decoder of the package is specified by the slots it reads and by `Conclude`.
 */
module RecordDecoder {
  import opened Bytes
  import opened Sorting
  import opened Records

  datatype Option<+T> = None | Some(value: T)

  datatype Error =
    | Unaligned
    | OutOfRange
    | Corrupt
    | UnsupportedTier
    | Partial(bad: seq<int>, truncated: bool)

  /** A decoder either refuses a blob or returns an overlay, possibly with a Partial error. */
  datatype Result =
    | Reject(refusal: Error)
    | Accept(overlay: Overlay, err: Option<Error>)

  predicate InRange(idx: int, blocks: nat) {
    0 <= idx < blocks
  }

  predicate Usable(s: Slot, blocks: nat) {
    s.Whole? && s.ok && InRange(s.idx, blocks)
  }

  /** The overlay built by applying the usable records in order. */
  function Applied(slots: seq<Slot>, blocks: nat): Overlay {
    if slots == [] then map[]
    else
      var m := Applied(slots[..|slots| - 1], blocks);
      var s := slots[|slots| - 1];
      if Usable(s, blocks) then m[s.idx := s.data] else m
  }

  /** The slot is a loss no block can be blamed for, given the overlay finally applied. */
  predicate Unattributable(s: Slot, m: Overlay, blocks: nat) {
    match s
    case Whole(idx, data, true) => !InRange(idx, blocks)
    case Whole(idx, data, false) => !(InRange(idx, blocks) && idx in m && m[idx] == data)
    case Cut(idx) => !InRange(idx, blocks) || idx in m
    case Gone => true
  }

  predicate Truncated(slots: seq<Slot>, m: Overlay, blocks: nat) {
    exists i :: 0 <= i < |slots| && Unattributable(slots[i], m, blocks)
  }

  predicate Blamable(s: Slot, m: Overlay, blocks: nat) {
    s.Cut? && InRange(s.idx, blocks) && s.idx !in m
  }

  /** The lost blocks whose index is still readable. */
  function Blamed(slots: seq<Slot>, m: Overlay, blocks: nat): set<int> {
    set i | 0 <= i < |slots| && Blamable(slots[i], m, blocks) :: slots[i].idx
  }

  ghost function Verdict(bad: set<int>, truncated: bool): Option<Error> {
    if bad == {} && !truncated then None else Some(Partial(SortedSet(bad), truncated))
  }

  ghost function Conclude(slots: seq<Slot>, blocks: nat): Result {
    var m := Applied(slots, blocks);
    Accept(m, Verdict(Blamed(slots, m, blocks), Truncated(slots, m, blocks)))
  }

  // ----- last write wins

  /** Record `i` is usable and no later usable record names the same block. */
  predicate LastWrite(slots: seq<Slot>, blocks: nat, i: nat)
    requires i < |slots|
  {
    Usable(slots[i], blocks) &&
    forall j :: i < j < |slots| && Usable(slots[j], blocks) ==> slots[j].idx != slots[i].idx
  }

  lemma {:induction false} AppliedFrom(slots: seq<Slot>, blocks: nat, k: int) returns (i: nat)
    requires k in Applied(slots, blocks)
    ensures i < |slots| && LastWrite(slots, blocks, i) && slots[i].idx == k
    ensures Applied(slots, blocks)[k] == slots[i].data
  {
    var init, s := slots[..|slots| - 1], slots[|slots| - 1];
    if Usable(s, blocks) && s.idx == k {
      i := |slots| - 1;
    } else {
      i := AppliedFrom(init, blocks, k);
    }
  }

  /** The overlay holds, for every block, exactly the data of the last usable record naming it. */
  lemma {:induction false} LastWriteWins(slots: seq<Slot>, blocks: nat, i: nat)
    requires i < |slots| && LastWrite(slots, blocks, i)
    ensures slots[i].idx in Applied(slots, blocks)
    ensures Applied(slots, blocks)[slots[i].idx] == slots[i].data
  {
    var init := slots[..|slots| - 1];
    if i < |init| {
      LastWriteWins(init, blocks, i);
    }
  }

  lemma UsableIsApplied(slots: seq<Slot>, blocks: nat, i: nat)
    requires i < |slots| && Usable(slots[i], blocks)
    ensures slots[i].idx in Applied(slots, blocks)
    decreases |slots| - i
  {
    if j :| i < j < |slots| && Usable(slots[j], blocks) && slots[j].idx == slots[i].idx {
      UsableIsApplied(slots, blocks, j);
    } else {
      LastWriteWins(slots, blocks, i);
    }
  }

  predicate WholeBlocks(slots: seq<Slot>) {
    forall i :: 0 <= i < |slots| && slots[i].Whole? ==> |slots[i].data| == BLOCK_SIZE
  }

  lemma {:induction false} AppliedFits(slots: seq<Slot>, blocks: nat)
    requires WholeBlocks(slots)
    ensures Fits(Applied(slots, blocks), blocks)
  {
    forall k | k in Applied(slots, blocks)
      ensures 0 <= k < blocks && |Applied(slots, blocks)[k]| == BLOCK_SIZE
    {
      var i := AppliedFrom(slots, blocks, k);
    }
  }

  lemma {:induction false} AppliedIgnores(slots: seq<Slot>, s: Slot, blocks: nat)
    requires !Usable(s, blocks)
    ensures Applied(slots + [s], blocks) == Applied(slots, blocks)
  {
    assert (slots + [s])[..|slots|] == slots;
  }

  // ----- what the error says

  /** Whatever the stream, the reported error is well formed (the contract of PartialRecoveryError). */
  lemma ConcludeWellFormed(slots: seq<Slot>, blocks: nat)
    requires WholeBlocks(slots)
    ensures var r := Conclude(slots, blocks);
            Fits(r.overlay, blocks) &&
            (r.err.Some? ==> WellFormed(r.err.value, r.overlay, blocks))
  {
    AppliedFits(slots, blocks);
    var m := Applied(slots, blocks);
    var bad := Blamed(slots, m, blocks);
    VerdictWellFormed(bad, Truncated(slots, m, blocks), m, blocks);
  }

  /** BadBlocks ascends, lies in the base, avoids the overlay; the error names or flags some loss. */
  predicate WellFormed(e: Error, m: Overlay, blocks: nat) {
    e.Partial? && Ascending(e.bad) && (e.bad != [] || e.truncated) &&
    forall i :: 0 <= i < |e.bad| ==> InRange(e.bad[i], blocks) && e.bad[i] !in m
  }

  lemma VerdictWellFormed(bad: set<int>, truncated: bool, m: Overlay, blocks: nat)
    requires forall k :: k in bad ==> InRange(k, blocks) && k !in m
    ensures var v := Verdict(bad, truncated); v.Some? ==> WellFormed(v.value, m, blocks)
  {
    var s := SortedSet(bad);
    ElementsEmpty(s);
    assert forall i :: 0 <= i < |s| ==> s[i] in Elements(s);
  }

  /** A record that is not wholly readable is never passed over in silence. */
  lemma LossIsReported(slots: seq<Slot>, blocks: nat, i: nat)
    requires i < |slots| && !slots[i].Whole?
    ensures Conclude(slots, blocks).err.Some?
  {
    var m := Applied(slots, blocks);
    if !Unattributable(slots[i], m, blocks) {
      assert slots[i].idx in Blamed(slots, m, blocks);
    }
  }

  /** Slot `s` is no loss: a usable record, or the bit-identical double of an applied one. */
  predicate Harmless(s: Slot, m: Overlay, blocks: nat) {
    s.Whole? && InRange(s.idx, blocks) && (s.ok || (s.idx in m && m[s.idx] == s.data))
  }

  /** The error is nil exactly when every slot is harmless. */
  lemma NilErrorIff(slots: seq<Slot>, blocks: nat)
    ensures Conclude(slots, blocks).err == None <==>
            forall i :: 0 <= i < |slots| ==> Harmless(slots[i], Applied(slots, blocks), blocks)
  {
    var m := Applied(slots, blocks);
    var bad := Blamed(slots, m, blocks);
    if bad != {} {
      var k := Any(bad);
      var i :| 0 <= i < |slots| && Blamable(slots[i], m, blocks) && slots[i].idx == k;
      assert !Harmless(slots[i], m, blocks);
    }
    forall i | 0 <= i < |slots|
      ensures Harmless(slots[i], m, blocks)
           || Unattributable(slots[i], m, blocks)
           || slots[i].idx in bad
    {
      assert Blamable(slots[i], m, blocks) ==> slots[i].idx in bad;
    }
  }

  /** A loss without an index behind whole records is reported as such, whatever the records. */
  lemma GoneConcludes(slots: seq<Slot>, blocks: nat)
    requires forall i :: 0 <= i < |slots| ==> slots[i].Whole?
    ensures Conclude(slots + [Gone], blocks) == Accept(Applied(slots, blocks), Some(Partial([], true)))
  {
    hide Applied;
    var all, m := slots + [Gone], Applied(slots, blocks);
    AppliedIgnores(slots, Gone, blocks);
    assert all[|slots|] == Gone && Unattributable(all[|slots|], m, blocks);
    assert Blamed(all, m, blocks) == {};
    ElementsEmpty(SortedSet({}));
  }

  // ----- order does not matter

  /** No two usable records name the same block. */
  predicate DistinctIndices(slots: seq<Slot>, blocks: nat) {
    forall i, j :: 0 <= i < j < |slots| && Usable(slots[i], blocks) && Usable(slots[j], blocks)
      ==> slots[i].idx != slots[j].idx
  }

  lemma DistinctApplied(slots: seq<Slot>, blocks: nat, k: int, data: seq<byte>)
    requires DistinctIndices(slots, blocks)
    ensures (k in Applied(slots, blocks) && Applied(slots, blocks)[k] == data) <==>
            (InRange(k, blocks) && Whole(k, data, true) in slots)
  {
    if k in Applied(slots, blocks) {
      var i := AppliedFrom(slots, blocks, k);
      if Whole(k, data, true) in slots && InRange(k, blocks) {
        var j :| 0 <= j < |slots| && slots[j] == Whole(k, data, true);
        LastWriteWins(slots, blocks, j);
      }
    } else if Whole(k, data, true) in slots && InRange(k, blocks) {
      var j :| 0 <= j < |slots| && slots[j] == Whole(k, data, true);
      LastWriteWins(slots, blocks, j);
    }
  }

  lemma ShuffledApplied(a: seq<Slot>, b: seq<Slot>, blocks: nat)
    requires forall s :: s in a <==> s in b
    requires DistinctIndices(a, blocks) && DistinctIndices(b, blocks)
    ensures Applied(a, blocks) == Applied(b, blocks)
  {
    var m, n := Applied(a, blocks), Applied(b, blocks);
    forall k | k in m ensures k in n && n[k] == m[k] {
      DistinctApplied(a, blocks, k, m[k]);
      DistinctApplied(b, blocks, k, m[k]);
    }
    forall k | k in n ensures k in m {
      DistinctApplied(a, blocks, k, n[k]);
      DistinctApplied(b, blocks, k, n[k]);
    }
  }

  /** Decoding does not depend on the order of records whose verified indices are distinct. */
  lemma ShuffleInvariant(a: seq<Slot>, b: seq<Slot>, blocks: nat)
    requires multiset(a) == multiset(b) && DistinctIndices(a, blocks)
    ensures Conclude(a, blocks) == Conclude(b, blocks)
  {
    assert forall s :: s in a <==> s in multiset(a);
    assert forall s :: s in b <==> s in multiset(b);
    DistinctAfterShuffle(a, b, blocks);
    ShuffledApplied(a, b, blocks);
    var m := Applied(a, blocks);
    SameLosses(a, b, m, blocks);
    SameLosses(b, a, m, blocks);
    assert Blamed(a, m, blocks) == Blamed(b, m, blocks);
  }

  lemma DistinctAfterShuffle(a: seq<Slot>, b: seq<Slot>, blocks: nat)
    requires multiset(a) == multiset(b) && DistinctIndices(a, blocks)
    ensures DistinctIndices(b, blocks)
  {
    forall i, j | 0 <= i < j < |b| && Usable(b[i], blocks) && Usable(b[j], blocks)
      ensures b[i].idx != b[j].idx
    {
      if b[i] == b[j] {
        CountsTwice(b, i, j);
        CountsOnce(a, b[i]);
      } else {
        assert b[i] in multiset(a) && b[j] in multiset(a);
        var p :| 0 <= p < |a| && a[p] == b[i];
        var q :| 0 <= q < |a| && a[q] == b[j];
      }
    }
  }

  lemma SameLosses(a: seq<Slot>, b: seq<Slot>, m: Overlay, blocks: nat)
    requires forall s :: s in a ==> s in b
    ensures Truncated(a, m, blocks) ==> Truncated(b, m, blocks)
    ensures Blamed(a, m, blocks) <= Blamed(b, m, blocks)
  {
    forall i | 0 <= i < |a| ensures exists j :: 0 <= j < |b| && b[j] == a[i] {
      assert a[i] in b;
    }
  }

  // ----- intact streams

  lemma {:induction false} IntactApplied(m: Overlay, idxs: seq<int>, blocks: nat)
    requires Holds(m, idxs) && Ascending(idxs)
    requires forall i :: 0 <= i < |idxs| ==> idxs[i] < blocks
    ensures Applied(Intact(m, idxs), blocks) == map k | k in m && k in idxs :: m[k]
  {
    var slots := Intact(m, idxs);
    var a := Applied(slots, blocks);
    forall k | k in m && k in idxs ensures k in a && a[k] == m[k] {
      var i :| 0 <= i < |idxs| && idxs[i] == k;
      LastWriteWins(slots, blocks, i);
    }
    forall k | k in a ensures k in m && k in idxs {
      var i := AppliedFrom(slots, blocks, k);
    }
  }

  lemma KeysCover(m: Overlay)
    ensures forall k :: k in m <==> k in SortedKeys(m)
  {
    assert forall k :: k in m.Keys <==> k in Elements(SortedKeys(m));
  }

  lemma IntactDecodes(m: Overlay, blocks: nat)
    requires Fits(m, blocks) && blocks <= MAX_BLOCKS
    requires Holds(m, SortedKeys(m))
    ensures Conclude(Intact(m, SortedKeys(m)), blocks) == Accept(m, None)
  {
    hide Applied;
    var keys := SortedKeys(m);
    KeysCover(m);
    IntactApplied(m, keys, blocks);
    assert Applied(Intact(m, keys), blocks) == m;
    NilErrorIff(Intact(m, keys), blocks);
  }

  // ----- streams in which some records fail their CRC

  /** Every slot is the original record or a record that fails its CRC. */
  predicate Degraded(slots: seq<Slot>, m: Overlay, idxs: seq<int>) {
    Holds(m, idxs) && |slots| == |idxs| &&
    forall i :: 0 <= i < |idxs| ==>
      slots[i].Whole? && (slots[i].ok ==> slots[i] == Whole(idxs[i], m[idxs[i]], true))
  }

  /** The record for block `k` survives. */
  predicate Survives(slots: seq<Slot>, idxs: seq<int>, k: int)
    requires |slots| == |idxs|
  {
    exists i :: 0 <= i < |idxs| && idxs[i] == k && slots[i].Whole? && slots[i].ok
  }

  /** The blocks whose records survive. */
  function Surviving(slots: seq<Slot>, m: Overlay, idxs: seq<int>): Overlay
    requires |slots| == |idxs|
  {
    map k | k in m && Survives(slots, idxs, k) :: m[k]
  }

  /** The block that the record's index field names was applied with the same data. */
  predicate Doubled(s: Slot, m: Overlay)
    requires s.Whole?
  {
    s.idx in m && m[s.idx] == s.data
  }

  lemma DegradedApplied(slots: seq<Slot>, m: Overlay, idxs: seq<int>, blocks: nat)
    requires Degraded(slots, m, idxs) && Ascending(idxs)
    requires forall i :: 0 <= i < |idxs| ==> idxs[i] < blocks
    ensures Applied(slots, blocks) == Surviving(slots, m, idxs)
  {
    var a, s := Applied(slots, blocks), Surviving(slots, m, idxs);
    forall k | k in s ensures k in a && a[k] == m[k] {
      var i :| 0 <= i < |idxs| && idxs[i] == k && slots[i].ok;
      LastWriteWins(slots, blocks, i);
    }
    forall k | k in a ensures k in s {
      var i := AppliedFrom(slots, blocks, k);
    }
  }

  lemma DegradedConcludes(slots: seq<Slot>, m: Overlay, idxs: seq<int>, blocks: nat)
    requires Degraded(slots, m, idxs) && Ascending(idxs)
    requires forall i :: 0 <= i < |idxs| ==> idxs[i] < blocks
    ensures var left := Surviving(slots, m, idxs);
            var silent := forall i :: 0 <= i < |idxs| && !slots[i].ok ==> Doubled(slots[i], left);
            Conclude(slots, blocks) == Accept(left, if silent then None else Some(Partial([], true)))
  {
    hide Applied;
    DegradedApplied(slots, m, idxs, blocks);
    var left := Surviving(slots, m, idxs);
    assert Blamed(slots, left, blocks) == {};
    ElementsEmpty(SortedSet({}));
    assert forall k :: k in left ==> InRange(k, blocks);
    assert forall i :: 0 <= i < |idxs| ==>
      (Unattributable(slots[i], left, blocks) <==> !slots[i].ok && !Doubled(slots[i], left));
  }

  lemma NotDoubled(slots: seq<Slot>, m: Overlay, idxs: seq<int>, i: nat)
    requires Degraded(slots, m, idxs) && Ascending(idxs)
    requires forall j, k :: j in m && k in m && j != k ==> m[j] != m[k]
    requires i < |idxs| && !slots[i].ok && (slots[i].data == m[idxs[i]] || slots[i].idx == idxs[i])
    ensures !Doubled(slots[i], Surviving(slots, m, idxs))
  {
  }

  // ----- streams in which some records are partly or wholly unreadable

  /** Every slot is the original record, its bare index, or nothing. */
  predicate Holed(slots: seq<Slot>, m: Overlay, idxs: seq<int>) {
    Holds(m, idxs) && |slots| == |idxs| &&
    forall i :: 0 <= i < |idxs| ==>
      slots[i] == Whole(idxs[i], m[idxs[i]], true) || slots[i] == Cut(idxs[i]) || slots[i] == Gone
  }

  /** The blocks of which only the index is left. */
  function Named(slots: seq<Slot>, idxs: seq<int>): set<int>
    requires |slots| == |idxs|
  {
    set i | 0 <= i < |idxs| && slots[i].Cut? :: idxs[i]
  }

  lemma HoledApplied(slots: seq<Slot>, m: Overlay, idxs: seq<int>, blocks: nat)
    requires Holed(slots, m, idxs) && Ascending(idxs)
    requires forall i :: 0 <= i < |idxs| ==> idxs[i] < blocks
    ensures Applied(slots, blocks) == Surviving(slots, m, idxs)
  {
    hide Applied;
    var a, s := Applied(slots, blocks), Surviving(slots, m, idxs);
    forall k | k in s ensures k in a && a[k] == m[k] {
      var i :| 0 <= i < |idxs| && idxs[i] == k && slots[i].Whole? && slots[i].ok;
      LastWriteWins(slots, blocks, i);
    }
    forall k | k in a ensures k in s {
      var i := AppliedFrom(slots, blocks, k);
    }
  }

  /** Whole records are applied, bare indices are blamed, and the rest is unattributed loss. */
  lemma HoledConcludes(slots: seq<Slot>, m: Overlay, idxs: seq<int>, blocks: nat)
    requires Holed(slots, m, idxs) && Ascending(idxs)
    requires forall i :: 0 <= i < |idxs| ==> idxs[i] < blocks
    ensures Conclude(slots, blocks)
         == Accept(Surviving(slots, m, idxs), Verdict(Named(slots, idxs), Gone in slots))
  {
    hide Applied;
    HoledApplied(slots, m, idxs, blocks);
    var left := Surviving(slots, m, idxs);
    forall i | 0 <= i < |idxs|
      ensures Unattributable(slots[i], left, blocks) <==> slots[i] == Gone
      ensures Blamable(slots[i], left, blocks) <==> slots[i].Cut?
      ensures slots[i].Cut? ==> slots[i].idx == idxs[i]
    {
      assert slots[i].Cut? ==> !Survives(slots, idxs, idxs[i]);
    }
    assert Blamed(slots, left, blocks) == Named(slots, idxs);
  }
}
