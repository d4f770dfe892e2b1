/**
 * The erasure code the L2 tier relies on. Its arithmetic lives outside the package, so the code is a
 * parameter: what it must do is stated by `WellShaped`, `Corrects` and `Systematic`. Replication
 * below (one data shard) and the code of module Parity (any number of them) show that this can be met.
 */
module Erasure {
  import opened Bytes
  import opened Sorting
  import opened RecordDecoder

  type Shard = seq<byte>

  /** A shard slot; None is an erasure. */
  type ShardSlot = Option<Shard>

  datatype ErasureCode = ErasureCode(
    init: (nat, nat) -> bool,                              // can a code with n + k shards be set up
    encode: (seq<Shard>, nat) -> seq<Shard>,               // data shards, k: the parity shards
    reconstruct: (seq<ShardSlot>, nat) -> Option<seq<Shard>>  // shard slots, n: the data shards
  )

  predicate Equal(shards: seq<Shard>, size: nat) {
    forall i :: 0 <= i < |shards| ==> |shards[i]| == size
  }

  predicate SlotsEqual(slots: seq<ShardSlot>, size: nat) {
    forall i :: 0 <= i < |slots| && slots[i].Some? ==> |slots[i].value| == size
  }

  function Missing(slots: seq<ShardSlot>): nat {
    if slots == [] then 0
    else Missing(slots[..|slots| - 1]) + if slots[|slots| - 1].None? then 1 else 0
  }

  /** Shards come out in the number and size that went in. */
  ghost predicate WellShaped(code: ErasureCode) {
    (forall data: seq<Shard>, k: nat, size: nat {:trigger code.encode(data, k), Equal(data, size)} ::
       data != [] && Equal(data, size) ==>
       |code.encode(data, k)| == k && Equal(code.encode(data, k), size)) &&
    (forall slots: seq<ShardSlot>, n: nat, size: nat {:trigger code.reconstruct(slots, n), SlotsEqual(slots, size)} ::
       1 <= n <= |slots| && SlotsEqual(slots, size) && code.reconstruct(slots, n).Some? ==>
       |code.reconstruct(slots, n).value| == n && Equal(code.reconstruct(slots, n).value, size))
  }

  /** Every slot that is not erased holds the shard it should. */
  predicate Erases(slots: seq<ShardSlot>, shards: seq<Shard>) {
    |slots| == |shards| && forall i :: 0 <= i < |slots| && slots[i].Some? ==> slots[i].value == shards[i]
  }

  /** Any n of the n + k shards determine the data shards, unless these are empty. */
  ghost predicate Corrects(code: ErasureCode, n: nat, k: nat) {
    forall data: seq<Shard>, slots: seq<ShardSlot>, size: nat
      {:trigger Equal(data, size), Erases(slots, data + code.encode(data, k))} ::
      |data| == n && size > 0 && Equal(data, size) && Erases(slots, data + code.encode(data, k)) && Missing(slots) <= k
      ==> code.reconstruct(slots, n) == Some(data)
  }

  /** Reconstruction hands back the data shards that are present as they are. */
  ghost predicate Systematic(code: ErasureCode) {
    forall slots: seq<ShardSlot>, n: nat, i: nat {:trigger code.reconstruct(slots, n), slots[i]} ::
      i < n <= |slots| && slots[i].Some? && code.reconstruct(slots, n).Some? &&
      |code.reconstruct(slots, n).value| == n ==>
      code.reconstruct(slots, n).value[i] == slots[i].value
  }

  // ----- counting erasures

  lemma {:induction false} MissingBound(slots: seq<ShardSlot>, n: nat)
    requires n <= |slots| && Missing(slots) > |slots| - n
    ensures exists i :: 0 <= i < n && slots[i].None?
  {
    if |slots| > n {
      MissingBound(slots[..|slots| - 1], n);
    } else {
      MissingSome(slots);
    }
  }

  lemma MissingSome(slots: seq<ShardSlot>)
    requires Missing(slots) > 0
    ensures exists i :: 0 <= i < |slots| && slots[i].None?
  {
    if slots[|slots| - 1].Some? {
      MissingSome(slots[..|slots| - 1]);
    }
  }

  lemma {:induction false} MissingNone(slots: seq<ShardSlot>)
    requires forall x :: 0 <= x < |slots| ==> slots[x].Some?
    ensures Missing(slots) == 0
  {
    if slots != [] {
      MissingNone(slots[..|slots| - 1]);
    }
  }

  /** With all other slots filled, at most one shard is missing. */
  lemma {:induction false} MissingOne(slots: seq<ShardSlot>, i: nat)
    requires i < |slots| && forall x :: 0 <= x < |slots| && x != i ==> slots[x].Some?
    ensures Missing(slots) <= 1
  {
    var init := slots[..|slots| - 1];
    if i < |init| {
      MissingOne(init, i);
    } else {
      MissingNone(init);
    }
  }

  /** Present and missing slots together are all slots. */
  lemma {:induction false} MissingComplement(slots: seq<ShardSlot>, present: set<nat>)
    requires forall i: nat :: i in present <==> i < |slots| && slots[i].Some?
    ensures Missing(slots) + |present| == |slots|
  {
    if slots == [] {
      if present != {} {
        var i := Any(present);
        assert false;
      }
    } else {
      var last := |slots| - 1;
      MissingComplement(slots[..last], present - {last});
      if last !in present {
        assert present - {last} == present;
      }
    }
  }

  // ----- replication: one data shard, any number of parity shards

  function FirstPresent(slots: seq<ShardSlot>): ShardSlot {
    if slots == [] then None
    else if slots[0].Some? then slots[0]
    else FirstPresent(slots[1..])
  }

  function Replication(): ErasureCode {
    ErasureCode(
      (n, k) => n == 1,
      (data: seq<Shard>, k: nat) => if data == [] then [] else seq(k, _ => data[0]),
      (slots: seq<ShardSlot>, n: nat) =>
        var s := FirstPresent(slots);
        if n == 1 && s.Some? then Some([s.value]) else None)
  }

  lemma {:induction false} FirstPresentIs(slots: seq<ShardSlot>, data: Shard)
    requires forall i :: 0 <= i < |slots| && slots[i].Some? ==> slots[i].value == data
    requires exists i :: 0 <= i < |slots| && slots[i].Some?
    ensures FirstPresent(slots) == Some(data)
  {
    if slots[0].None? {
      var i :| 0 <= i < |slots| && slots[i].Some?;
      assert slots[1..][i - 1].Some?;
      FirstPresentIs(slots[1..], data);
    }
  }

  lemma AllMissing(slots: seq<ShardSlot>)
    requires forall i :: 0 <= i < |slots| ==> slots[i].None?
    ensures Missing(slots) == |slots|
  {
  }

  lemma FirstPresentEqual(slots: seq<ShardSlot>, size: nat)
    requires SlotsEqual(slots, size)
    ensures FirstPresent(slots).Some? ==> |FirstPresent(slots).value| == size
  {
    if slots != [] && slots[0].None? {
      FirstPresentEqual(slots[1..], size);
    }
  }

  lemma ReplicationCorrects(k: nat)
    ensures Corrects(Replication(), 1, k)
  {
    var code := Replication();
    forall data: seq<Shard>, slots: seq<ShardSlot>, size: nat
      | |data| == 1 && size > 0 && Equal(data, size) && Erases(slots, data + code.encode(data, k)) &&
        Missing(slots) <= k
      ensures code.reconstruct(slots, 1) == Some(data)
    {
      CopiesPresent(slots, data, k);
    }
  }

  lemma CopiesPresent(slots: seq<ShardSlot>, data: seq<Shard>, k: nat)
    requires |data| == 1 && Erases(slots, data + Replication().encode(data, k)) && Missing(slots) <= k
    ensures FirstPresent(slots) == Some(data[0]) && data == [data[0]]
  {
    var copies := Replication().encode(data, k);
    assert copies == seq(k, _ => data[0]);
    if forall i :: 0 <= i < |slots| ==> slots[i].None? {
      AllMissing(slots);
    } else {
      FirstPresentIs(slots, data[0]);
    }
  }

  lemma ReplicationSystematic()
    ensures Systematic(Replication())
  {
    hide Missing, SlotsEqual, Equal;
  }

  lemma ReplicationWellShaped()
    ensures WellShaped(Replication())
  {
    var code := Replication();
    forall slots: seq<ShardSlot>, n: nat, size: nat
      | 1 <= n <= |slots| && SlotsEqual(slots, size) && code.reconstruct(slots, n).Some?
      ensures |code.reconstruct(slots, n).value| == n && Equal(code.reconstruct(slots, n).value, size)
    {
      FirstPresentEqual(slots, size);
    }
  }
}
