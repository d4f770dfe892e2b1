/** An erasure code with one parity shard, the exclusive or of any number of data shards. */
module Parity {
  import opened Bytes
  import opened RecordDecoder
  import opened Erasure

  /** The bits at position `j` of all the shards that are present, added up without carry. */
  function ColumnSum(slots: seq<ShardSlot>, j: nat): bv8 {
    if slots == [] then 0
    else
      var s := slots[|slots| - 1];
      ColumnSum(slots[..|slots| - 1], j) ^ (if s.Some? && j < |s.value| then Bits(s.value[j]) else 0)
  }

  function Sum(slots: seq<ShardSlot>, size: nat): (s: Shard)
    ensures |s| == size
  {
    seq(size, j requires 0 <= j < size => Value(ColumnSum(slots, j)))
  }

  function Present(shards: seq<Shard>): (slots: seq<ShardSlot>)
    ensures |slots| == |shards|
  {
    seq(|shards|, i requires 0 <= i < |shards| => Some(shards[i]))
  }

  function Encode(data: seq<Shard>, k: nat): seq<Shard> {
    if data == [] then [] else seq(k, _ => Sum(Present(data), |data[0]|))
  }

  /** The data shards, the missing one made up from all the others. */
  function Reconstruct(slots: seq<ShardSlot>, n: nat): Option<seq<Shard>> {
    var some := FirstPresent(slots);
    if n > |slots| || some.None? || Missing(slots) > 1 then None
    else Some(seq(n, i requires 0 <= i < n =>
      if slots[i].Some? then slots[i].value else Sum(slots, |some.value|)))
  }

  function Code(): ErasureCode {
    ErasureCode(
      (n, k) => k == 1,
      (data: seq<Shard>, k: nat) => Encode(data, k),
      (slots: seq<ShardSlot>, n: nat) => Reconstruct(slots, n))
  }

  lemma WellShapedCode()
    ensures WellShaped(Code())
  {
    var code := Code();
    forall slots: seq<ShardSlot>, n: nat, size: nat
      | 1 <= n <= |slots| && SlotsEqual(slots, size) && code.reconstruct(slots, n).Some?
      ensures |code.reconstruct(slots, n).value| == n && Equal(code.reconstruct(slots, n).value, size)
    {
      hide Missing, Sum;
      FirstPresentEqual(slots, size);
    }
  }

  lemma SystematicCode()
    ensures Systematic(Code())
  {
    hide Missing, Sum, FirstPresent;
  }

  // ----- the missing shard is the sum of the others

  lemma {:induction false} AllPresent(slots: seq<ShardSlot>, shards: seq<Shard>, j: nat)
    requires Erases(slots, shards) && forall i :: 0 <= i < |slots| ==> slots[i].Some?
    ensures ColumnSum(slots, j) == ColumnSum(Present(shards), j)
  {
    assert slots == Present(shards);
  }

  lemma {:induction false} OneMissing(slots: seq<ShardSlot>, shards: seq<Shard>, i: nat, j: nat)
    requires Erases(slots, shards) && i < |slots| && slots[i].None? && j < |shards[i]|
    requires forall x :: 0 <= x < |slots| && x != i ==> slots[x].Some?
    ensures ColumnSum(slots, j) == ColumnSum(Present(shards), j) ^ Bits(shards[i][j])
  {
    hide Bits;
    var init, all := slots[..|slots| - 1], shards[..|shards| - 1];
    assert Present(shards)[..|shards| - 1] == Present(all);
    if i == |init| {
      AllPresent(init, all, j);
    } else {
      OneMissing(init, all, i, j);
    }
  }

  lemma WholeSum(data: seq<Shard>, size: nat, j: nat)
    requires data != [] && Equal(data, size) && j < size
    ensures ColumnSum(Present(data + Encode(data, 1)), j) == 0
  {
    hide Bits, Value;
    var parity := Sum(Present(data), size);
    assert Encode(data, 1) == [parity];
    var all := Present(data + [parity]);
    assert all[..|data|] == Present(data);
    BitsOfValue(ColumnSum(Present(data), j));
  }

  lemma {:induction false} NoneMissing(slots: seq<ShardSlot>, i: nat)
    requires i < |slots| && slots[i].None?
    ensures Missing(slots) >= 1
  {
    if i < |slots| - 1 {
      NoneMissing(slots[..|slots| - 1], i);
    }
  }

  lemma {:induction false} TwoMissing(slots: seq<ShardSlot>, i: nat, x: nat)
    requires i < x < |slots| && slots[i].None? && slots[x].None?
    ensures Missing(slots) >= 2
  {
    if x < |slots| - 1 {
      TwoMissing(slots[..|slots| - 1], i, x);
    } else {
      NoneMissing(slots[..|slots| - 1], i);
    }
  }

  lemma Recovered(data: seq<Shard>, slots: seq<ShardSlot>, size: nat, i: nat)
    requires data != [] && Equal(data, size) && Erases(slots, data + Encode(data, 1)) && Missing(slots) <= 1
    requires i < |data| && slots[i].None?
    ensures Sum(slots, size) == data[i]
  {
    hide Bits, Value, ColumnSum, Encode;
    var all := data + Encode(data, 1);
    forall x | 0 <= x < |slots| && x != i ensures slots[x].Some? {
      if slots[x].None? {
        if x < i {
          TwoMissing(slots, x, i);
        } else {
          TwoMissing(slots, i, x);
        }
      }
    }
    forall j | 0 <= j < size ensures Sum(slots, size)[j] == data[i][j] {
      OneMissing(slots, all, i, j);
      WholeSum(data, size, j);
      ValueOfBits(data[i][j]);
      assert 0 ^ Bits(data[i][j]) == Bits(data[i][j]);
    }
  }

  lemma SomePresent(slots: seq<ShardSlot>)
    requires |slots| > 1 && Missing(slots) <= 1
    ensures FirstPresent(slots).Some?
  {
    if slots[0].None? && slots[1].None? {
      TwoMissing(slots, 0, 1);
    }
    assert slots[0].None? ==> slots[1..][0].Some?;
  }

  /** With one parity shard any n of the n + 1 shards give back the data, whatever n. */
  lemma CorrectsOne(n: nat)
    requires n > 0
    ensures Corrects(Code(), n, 1)
  {
    hide Missing, Encode, Sum, FirstPresent;
    forall data: seq<Shard>, slots: seq<ShardSlot>, size: nat
      | |data| == n && size > 0 && Equal(data, size) && Erases(slots, data + Encode(data, 1)) && Missing(slots) <= 1
      ensures Reconstruct(slots, n) == Some(data)
    {
      DataRecovered(data, slots, size);
    }
  }

  lemma DataRecovered(data: seq<Shard>, slots: seq<ShardSlot>, size: nat)
    requires data != [] && Equal(data, size) && Erases(slots, data + Encode(data, 1)) && Missing(slots) <= 1
    ensures Reconstruct(slots, |data|) == Some(data)
  {
    hide Missing, Sum;
    assert |slots| == |data| + 1;
    SlotsOf(data, slots, size);
    SomePresent(slots);
    FirstPresentEqual(slots, size);
    var back := Reconstruct(slots, |data|).value;
    forall i | 0 <= i < |data| ensures back[i] == data[i] {
      if slots[i].None? {
        Recovered(data, slots, size, i);
      }
    }
    assert back == data;
  }

  lemma SlotsOf(data: seq<Shard>, slots: seq<ShardSlot>, size: nat)
    requires data != [] && Equal(data, size) && Erases(slots, data + Encode(data, 1))
    ensures SlotsEqual(slots, size)
  {
  }

  /** Of two shards it does not matter which comes first: filed under the other's number, one yields the other. */
  lemma Swapped(a: Shard, b: Shard, size: nat)
    requires |a| == |b| == size
    ensures |Encode([a, b], 1)| == 1 && |Encode([a, b], 1)[0]| == size
    ensures Reconstruct([None, Some(a), Some(Encode([a, b], 1)[0])], 2) == Some([b, a])
  {
    hide Reconstruct;
    var slots := [None, Some(a), Some(Encode([a, b], 1)[0])];
    SameSum(a, b, size);
    assert Encode([a, b], 1) == Encode([b, a], 1) == [Sum(Present([b, a]), size)];
    assert Erases(slots, [b, a] + Encode([b, a], 1));
    MissingOne(slots, 0);
    DataRecovered([b, a], slots, size);
  }

  lemma SameSum(a: Shard, b: Shard, size: nat)
    requires |a| == |b| == size
    ensures Sum(Present([a, b]), size) == Sum(Present([b, a]), size)
  {
    hide Bits, Value;
    forall j | 0 <= j < size ensures ColumnSum(Present([a, b]), j) == ColumnSum(Present([b, a]), j) {
      PairSum(a, b, j);
      PairSum(b, a, j);
    }
  }

  lemma PairSum(a: Shard, b: Shard, j: nat)
    requires j < |a| == |b|
    ensures ColumnSum(Present([a, b]), j) == Bits(a[j]) ^ Bits(b[j])
  {
    hide Bits;
    var s := Present([a, b]);
    assert s[..1] == Present([a]) && Present([a])[..0] == [];
    assert ColumnSum(Present([a]), j) == ColumnSum([], j) ^ Bits(a[j]);
  }
}
