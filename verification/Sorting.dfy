/** Ascending sequences: the model of slices.Sort and slices.Compact. */
module Sorting {

  predicate Ascending(s: seq<int>) {
    forall i, j :: 0 <= i < j < |s| ==> s[i] < s[j]
  }

  predicate NonDescending(s: seq<int>) {
    forall i, j :: 0 <= i < j < |s| ==> s[i] <= s[j]
  }

  predicate Distinct(s: seq<int>) {
    forall i, j :: 0 <= i < j < |s| ==> s[i] != s[j]
  }

  function Elements<T>(s: seq<T>): set<T> {
    set x | x in s
  }

  lemma ElementsSnoc<T>(s: seq<T>, x: T)
    ensures Elements(s + [x]) == Elements(s) + {x}
  {
    assert forall y :: y in s + [x] <==> y in s || y == x;
  }

  lemma DistinctSnoc(s: seq<int>, x: int)
    requires Distinct(s) && x !in Elements(s)
    ensures Distinct(s + [x]) && Elements(s + [x]) == Elements(s) + {x}
  {
    assert forall i :: 0 <= i < |s| ==> s[i] in Elements(s);
    ElementsSnoc(s, x);
  }

  lemma ElementsEmpty(s: seq<int>)
    ensures Elements(s) == {} <==> s == []
  {
    if s != [] {
      assert s[0] in Elements(s);
    }
  }

  lemma AscendingSnoc(s: seq<int>, x: int)
    requires Ascending(s) && forall y :: y in Elements(s) ==> y < x
    ensures Ascending(s + [x]) && Elements(s + [x]) == Elements(s) + {x}
  {
    assert forall i :: 0 <= i < |s| ==> s[i] in Elements(s);
    ElementsSnoc(s, x);
  }

  /** The elements of a finite set in strictly ascending order. */
  ghost function SortedSet(s: set<int>): (r: seq<int>)
    ensures Ascending(r)
    ensures Elements(r) == s
  {
    if s == {} then []
    else
      var m := Maximum(s);
      var init := SortedSet(s - {m});
      AscendingSnoc(init, m);
      init + [m]
  }

  ghost function Any<T>(s: set<T>): (x: T)
    requires s != {}
    ensures x in s
  {
    var y :| y in s;
    y
  }

  ghost function Maximum(s: set<int>): (m: int)
    requires s != {}
    ensures m in s
    ensures forall x :: x in s ==> x <= m
  {
    var y := Any(s);
    var rest := s - {y};
    assert s == rest + {y};
    if rest == {} then y
    else
      var m := Maximum(rest);
      if y <= m then m else y
  }

  /** An ascending sequence is determined by its set of elements. */
  lemma {:induction false} AscendingUnique(a: seq<int>, b: seq<int>)
    requires Ascending(a) && Ascending(b) && Elements(a) == Elements(b)
    ensures a == b
  {
    if a == [] || b == [] {
      ElementsEmpty(a);
      ElementsEmpty(b);
    } else {
      LastIsMaximum(a, b);
      LastIsMaximum(b, a);
      ElementsOfInit(a);
      ElementsOfInit(b);
      AscendingUnique(a[..|a| - 1], b[..|b| - 1]);
      assert a == a[..|a| - 1] + [a[|a| - 1]];
      assert b == b[..|b| - 1] + [b[|b| - 1]];
    }
  }

  lemma LastIsMaximum(a: seq<int>, b: seq<int>)
    requires Ascending(a) && Ascending(b) && Elements(a) == Elements(b) && a != [] && b != []
    ensures a[|a| - 1] <= b[|b| - 1]
  {
    assert a[|a| - 1] in Elements(b);
  }

  lemma ElementsOfInit(a: seq<int>)
    requires Ascending(a) && a != []
    ensures Elements(a[..|a| - 1]) == Elements(a) - {a[|a| - 1]}
  {
    var init := a[..|a| - 1];
    forall x | x in Elements(a) && x != a[|a| - 1] ensures x in Elements(init) {
      var i :| 0 <= i < |a| && a[i] == x;
      assert init[i] == x;
    }
  }

  lemma AscendingCardinality(a: seq<int>)
    requires Ascending(a)
    ensures |Elements(a)| == |a|
  {
    if a != [] {
      AscendingCardinality(a[..|a| - 1]);
      ElementsOfInit(a);
    }
  }

  /** slices.Sort. */
  function Sort(s: seq<int>): (r: seq<int>)
    ensures NonDescending(r) && |r| == |s|
    ensures multiset(r) == multiset(s)
  {
    if s == [] then []
    else
      assert s == s[..|s| - 1] + [s[|s| - 1]];
      Insert(Sort(s[..|s| - 1]), s[|s| - 1])
  }

  function Insert(s: seq<int>, x: int): (r: seq<int>)
    requires NonDescending(s)
    ensures NonDescending(r) && |r| == |s| + 1
    ensures multiset(r) == multiset(s) + multiset{x}
  {
    if s == [] || s[|s| - 1] <= x then s + [x]
    else
      assert s == s[..|s| - 1] + [s[|s| - 1]];
      var t := Insert(s[..|s| - 1], x);
      InsertBound(s, x, t);
      t + [s[|s| - 1]]
  }

  lemma InsertBound(s: seq<int>, x: int, t: seq<int>)
    requires NonDescending(s) && s != [] && x < s[|s| - 1]
    requires multiset(t) == multiset(s[..|s| - 1]) + multiset{x}
    ensures forall i :: 0 <= i < |t| ==> t[i] <= s[|s| - 1]
  {
    forall i | 0 <= i < |t| ensures t[i] <= s[|s| - 1] {
      assert t[i] in multiset(t);
    }
  }

  lemma SameElements(a: seq<int>, b: seq<int>)
    requires multiset(a) == multiset(b)
    ensures Elements(a) == Elements(b)
  {
    forall x ensures x in Elements(a) <==> x in Elements(b) {
      assert x in a <==> x in multiset(a);
      assert x in b <==> x in multiset(b);
    }
  }

  /** slices.Compact: keeps the first of each run of equal elements. */
  function Compact(s: seq<int>): seq<int> {
    if |s| <= 1 then s
    else if s[|s| - 1] == s[|s| - 2] then Compact(s[..|s| - 1])
    else Compact(s[..|s| - 1]) + [s[|s| - 1]]
  }

  lemma {:induction false} CompactAscends(s: seq<int>)
    requires NonDescending(s)
    ensures Ascending(Compact(s)) && Elements(Compact(s)) == Elements(s)
  {
    if |s| > 1 {
      hide NonDescending, Ascending, Elements, Compact;
      NonDescendingInit(s);
      CompactAscends(s[..|s| - 1]);
      CompactStep(s, Compact(s[..|s| - 1]));
    }
  }

  lemma CompactStep(s: seq<int>, c: seq<int>)
    requires |s| > 1 && NonDescending(s) && c == Compact(s[..|s| - 1])
    requires Ascending(c) && Elements(c) == Elements(s[..|s| - 1])
    ensures Ascending(Compact(s)) && Elements(Compact(s)) == Elements(s)
  {
    hide NonDescending, Ascending, Elements;
    var init, last := s[..|s| - 1], s[|s| - 1];
    NonDescendingInit(s);
    assert s == init + [last];
    ElementsSnoc(init, last);
    if last == s[|s| - 2] {
      AlreadyThere(init, last);
    } else {
      AllBelow(init, last);
      AscendingSnoc(c, last);
    }
  }

  lemma AlreadyThere(s: seq<int>, x: int)
    requires s != [] && s[|s| - 1] == x
    ensures Elements(s) + {x} == Elements(s)
  {
    assert x in Elements(s);
  }

  lemma AllBelow(s: seq<int>, x: int)
    requires NonDescending(s) && s != [] && s[|s| - 1] < x
    ensures forall y :: y in Elements(s) ==> y < x
  {
  }

  lemma NonDescendingInit(s: seq<int>)
    requires NonDescending(s) && |s| > 1
    ensures NonDescending(s[..|s| - 1]) && s[|s| - 2] <= s[|s| - 1]
  {
  }

  /** Sorting and then compacting lists each element once, in ascending order. */
  lemma SortCompact(s: seq<int>)
    ensures Compact(Sort(s)) == SortedSet(Elements(s))
  {
    CompactAscends(Sort(s));
    SameElements(Sort(s), s);
    AscendingUnique(Compact(Sort(s)), SortedSet(Elements(s)));
  }

  /** Sorting a list without repetitions lists its set of elements in ascending order. */
  lemma SortDistinct(s: seq<int>)
    requires Distinct(s)
    ensures Sort(s) == SortedSet(Elements(s))
  {
    SameElements(Sort(s), s);
    DistinctStaysDistinct(s, Sort(s));
    AscendingUnique(Sort(s), SortedSet(Elements(s)));
  }

  lemma DistinctStaysDistinct(s: seq<int>, t: seq<int>)
    requires Distinct(s)
    requires multiset(s) == multiset(t)
    ensures Distinct(t)
  {
    forall i, j | 0 <= i < j < |t| ensures t[i] != t[j] {
      if t[i] == t[j] {
        CountsTwice(t, i, j);
        CountsOnce(s, t[i]);
      }
    }
  }

  lemma CountsTwice<T>(t: seq<T>, i: nat, j: nat)
    requires i < j < |t| && t[i] == t[j]
    ensures multiset(t)[t[i]] >= 2
  {
    assert t == t[..j] + ([t[j]] + t[j + 1..]);
    assert t[i] in t[..j];
  }

  lemma CountsOnce<T>(s: seq<T>, x: T)
    requires forall i, j :: 0 <= i < j < |s| ==> !(s[i] == x && s[j] == x)
    ensures multiset(s)[x] <= 1
  {
    if s != [] {
      var init := s[..|s| - 1];
      assert s == init + [s[|s| - 1]];
      CountsOnce(init, x);
      if s[|s| - 1] == x {
        assert x !in init;
      }
    }
  }
}
