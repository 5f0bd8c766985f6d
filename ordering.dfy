/** The order in which the collected edits are applied: `sorted(all_updates,
    key=_sort_updates_key)`, by the original (line, column) of the old value. */
module Ordering {
  import opened Types
  import opened Patcher

  /** _sort_updates_key */
  function SortKey(e: Edit): (nat, nat) {
    (e.token.line, e.token.col)
  }

  /** Python's order on the key tuples: SortKey(a) <= SortKey(b). */
  predicate KeyLe(a: Edit, b: Edit) {
    a.token.line < b.token.line || (a.token.line == b.token.line && a.token.col <= b.token.col)
  }

  predicate Sorted(s: seq<Edit>) {
    forall i, j :: 0 <= i < j < |s| ==> KeyLe(s[i], s[j])
  }

  /** Places x after every element whose key is not larger, so that among
      equal keys the earlier-collected edit stays first. */
  function Insert(t: seq<Edit>, x: Edit): (r: seq<Edit>)
    ensures multiset(r) == multiset(t) + multiset{x}
    ensures |r| == |t| + 1
  {
    if t == [] then [x]
    else if KeyLe(t[0], x) then
      assert t == [t[0]] + t[1..];
      [t[0]] + Insert(t[1..], x)
    else
      [x] + t
  }

  lemma {:induction false} InsertSorted(t: seq<Edit>, x: Edit)
    requires Sorted(t)
    ensures Sorted(Insert(t, x))
  {
    if t != [] && KeyLe(t[0], x) {
      var rest := Insert(t[1..], x);
      InsertSorted(t[1..], x);
      forall y | y in rest ensures KeyLe(t[0], y) {
        assert y in multiset(rest);
        if y != x {
          var j :| 1 <= j < |t| && t[j] == y;
        }
      }
      assert Insert(t, x) == [t[0]] + rest;
    }
  }

  /** sorted(updates, key=_sort_updates_key), built by insertion. */
  function SortUpdates(s: seq<Edit>): (r: seq<Edit>)
    ensures multiset(r) == multiset(s)
    ensures |r| == |s|
  {
    if s == [] then []
    else
      assert s == s[..|s| - 1] + [s[|s| - 1]];
      Insert(SortUpdates(s[..|s| - 1]), s[|s| - 1])
  }

  /** The result is in non-decreasing (line, col) order. */
  lemma {:induction false} SortUpdatesSorted(s: seq<Edit>)
    ensures Sorted(SortUpdates(s))
  {
    if s != [] {
      SortUpdatesSorted(s[..|s| - 1]);
      InsertSorted(SortUpdates(s[..|s| - 1]), s[|s| - 1]);
    }
  }

  /** The edits of s with key k, in their order in s. */
  function WithKey(s: seq<Edit>, k: (nat, nat)): seq<Edit> {
    if s == [] then []
    else WithKey(s[..|s| - 1], k) + (if SortKey(s[|s| - 1]) == k then [s[|s| - 1]] else [])
  }

  lemma {:induction false} WithKeyAppend(a: seq<Edit>, b: seq<Edit>, k: (nat, nat))
    ensures WithKey(a + b, k) == WithKey(a, k) + WithKey(b, k)
  {
    if b != [] {
      var b' := b[..|b| - 1];
      assert (a + b)[..|a + b| - 1] == a + b';
      WithKeyAppend(a, b', k);
    } else {
      assert a + b == a;
    }
  }

  lemma WithKeySingle(x: Edit, k: (nat, nat))
    ensures WithKey([x], k) == if SortKey(x) == k then [x] else []
  {
    assert [x][..0] == [];
  }

  /** In a sorted sequence whose first key is larger than k, nothing has key k. */
  lemma {:induction false} WithKeyAbove(t: seq<Edit>, x: Edit)
    requires Sorted(t) && t != [] && !KeyLe(t[0], x)
    ensures WithKey(t, SortKey(x)) == []
  {
    if |t| > 1 {
      var init := t[..|t| - 1];
      WithKeyAbove(init, x);
    }
  }

  lemma InsertWithKeyBefore(t: seq<Edit>, x: Edit, k: (nat, nat))
    requires Sorted(t) && t != [] && !KeyLe(t[0], x)
    ensures WithKey(Insert(t, x), k) == WithKey(t, k) + WithKey([x], k)
  {
    assert Insert(t, x) == [x] + t;
    WithKeyAppend([x], t, k);
    WithKeySingle(x, k);
    if SortKey(x) == k {
      WithKeyAbove(t, x);
    }
  }

  lemma InsertWithKeyAfter(t: seq<Edit>, x: Edit, k: (nat, nat))
    requires t != [] && KeyLe(t[0], x)
    requires WithKey(Insert(t[1..], x), k) == WithKey(t[1..], k) + WithKey([x], k)
    ensures WithKey(Insert(t, x), k) == WithKey(t, k) + WithKey([x], k)
  {
    var rest := Insert(t[1..], x);
    assert Insert(t, x) == [t[0]] + rest;
    WithKeyAppend([t[0]], rest, k);
    WithKeyAppend([t[0]], t[1..], k);
    assert [t[0]] + t[1..] == t;
  }

  lemma {:induction false} InsertWithKey(t: seq<Edit>, x: Edit, k: (nat, nat))
    requires Sorted(t)
    ensures WithKey(Insert(t, x), k) == WithKey(t, k) + WithKey([x], k)
  {
    if t == [] {
      assert WithKey(t, k) == [];
    } else if KeyLe(t[0], x) {
      InsertWithKey(t[1..], x, k);
      InsertWithKeyAfter(t, x, k);
    } else {
      InsertWithKeyBefore(t, x, k);
    }
  }

  /** The sort is stable: for every key, the edits carrying it keep their
      collected order. */
  lemma {:induction false} SortIsStable(s: seq<Edit>, k: (nat, nat))
    ensures WithKey(SortUpdates(s), k) == WithKey(s, k)
  {
    if s != [] {
      var init := s[..|s| - 1];
      SortIsStable(init, k);
      SortUpdatesSorted(init);
      InsertWithKey(SortUpdates(init), s[|s| - 1], k);
      WithKeySingle(s[|s| - 1], k);
    }
  }

  lemma {:induction false} WithKeyMembers(s: seq<Edit>, k: (nat, nat))
    ensures forall x :: x in WithKey(s, k) <==> x in s && SortKey(x) == k
  {
    if s != [] {
      WithKeyMembers(s[..|s| - 1], k);
      assert s == s[..|s| - 1] + [s[|s| - 1]];
    }
  }

  /** In a sorted sequence the last edit carries the largest key. */
  lemma SortedLastIsMax(r: seq<Edit>, a: Edit)
    requires Sorted(r) && a in r
    ensures KeyLe(a, r[|r| - 1])
  {
    var i :| 0 <= i < |r| && r[i] == a;
  }

  /** Two sorted sequences with the same edits per key end in the same key. */
  lemma SameLastKey(r1: seq<Edit>, r2: seq<Edit>)
    requires Sorted(r1) && Sorted(r2) && r1 != [] && r2 != []
    requires forall k :: WithKey(r1, k) == WithKey(r2, k)
    ensures SortKey(r1[|r1| - 1]) == SortKey(r2[|r2| - 1])
  {
    var m1, m2 := r1[|r1| - 1], r2[|r2| - 1];
    WithKeyMembers(r1, SortKey(m2));
    WithKeyMembers(r2, SortKey(m2));
    WithKeyMembers(r1, SortKey(m1));
    WithKeyMembers(r2, SortKey(m1));
    assert m2 in WithKey(r1, SortKey(m2));
    assert m1 in WithKey(r2, SortKey(m1));
    SortedLastIsMax(r1, m2);
    SortedLastIsMax(r2, m1);
  }

  /** Removing a common last edit keeps the per-key agreement. */
  lemma DropLastAgrees(r1: seq<Edit>, r2: seq<Edit>, k: (nat, nat))
    requires r1 != [] && r2 != [] && SortKey(r1[|r1| - 1]) == SortKey(r2[|r2| - 1])
    requires WithKey(r1, k) == WithKey(r2, k)
    ensures WithKey(r1[..|r1| - 1], k) == WithKey(r2[..|r2| - 1], k)
  {
    var w1, w2 := WithKey(r1[..|r1| - 1], k), WithKey(r2[..|r2| - 1], k);
    var m1, m2 := r1[|r1| - 1], r2[|r2| - 1];
    if SortKey(m1) == k {
      assert WithKey(r1, k) == w1 + [m1];
      assert WithKey(r2, k) == w2 + [m2];
      assert |w1| == |w2|;
      assert (w1 + [m1])[..|w1|] == w1;
      assert (w2 + [m2])[..|w2|] == w2;
    } else {
      assert WithKey(r1, k) == w1 + [];
      assert WithKey(r2, k) == w2 + [];
    }
  }

  /** A stable sort is determined by its key: two sorted sequences that agree
      on the edits of every key, in order, are the same sequence. */
  lemma {:induction false} StableSortUnique(r1: seq<Edit>, r2: seq<Edit>)
    requires Sorted(r1) && Sorted(r2)
    requires forall k :: WithKey(r1, k) == WithKey(r2, k)
    ensures r1 == r2
    decreases |r1|
  {
    if r1 == [] || r2 == [] {
      var x := if r1 == [] && r2 != [] then r2[0] else if r1 != [] then r1[0] else Edit(LocatedToken([], 0, 0), []);
      WithKeyMembers(r1, SortKey(x));
      WithKeyMembers(r2, SortKey(x));
      assert r1 != [] ==> x in WithKey(r1, SortKey(x));
      assert r2 != [] ==> x in WithKey(r2, SortKey(x));
    } else {
      var m1, m2 := r1[|r1| - 1], r2[|r2| - 1];
      var i1, i2 := r1[..|r1| - 1], r2[..|r2| - 1];
      SameLastKey(r1, r2);
      var km := SortKey(m1);
      assert WithKey(r1, km)[|WithKey(r1, km)| - 1] == m1;
      assert WithKey(r2, km)[|WithKey(r2, km)| - 1] == m2;
      forall k ensures WithKey(i1, k) == WithKey(i2, k) {
        DropLastAgrees(r1, r2, k);
      }
      StableSortUnique(i1, i2);
      assert r1 == i1 + [m1] && r2 == i2 + [m2];
    }
  }

  /** SortUpdates is Python's sorted: the one sequence in (line, col) order
      that keeps, for every key, the collected order of its edits. */
  lemma SortUpdatesIsStableSort(s: seq<Edit>, r: seq<Edit>)
    requires Sorted(r) && forall k :: WithKey(r, k) == WithKey(s, k)
    ensures r == SortUpdates(s)
  {
    SortUpdatesSorted(s);
    forall k ensures WithKey(r, k) == WithKey(SortUpdates(s), k) {
      SortIsStable(s, k);
    }
    StableSortUnique(r, SortUpdates(s));
  }

  // ---------------------------------------------------------------------
  // The collection order does not matter.

  /** No two edits start at the same place. */
  predicate DistinctPositions(s: seq<Edit>) {
    forall i, j :: 0 <= i < j < |s| ==> SortKey(s[i]) != SortKey(s[j])
  }

  lemma {:induction false} WithKeyNone(s: seq<Edit>, k: (nat, nat))
    requires forall j :: 0 <= j < |s| ==> SortKey(s[j]) != k
    ensures WithKey(s, k) == []
  {
    if s != [] {
      WithKeyNone(s[..|s| - 1], k);
    }
  }

  /** With distinct positions, a key selects at most one edit. */
  lemma {:induction false} WithKeyUnique(s: seq<Edit>, k: (nat, nat))
    requires DistinctPositions(s)
    ensures |WithKey(s, k)| <= 1
  {
    if s != [] {
      var init := s[..|s| - 1];
      var x := s[|s| - 1];
      WithKeyUnique(init, k);
      if SortKey(x) == k {
        WithKeyMembers(init, k);
        forall j | 0 <= j < |init| ensures SortKey(init[j]) != k {
          assert SortKey(s[j]) != SortKey(s[|s| - 1]);
        }
        WithKeyNone(init, k);
      }
    }
  }

  /** Sequences of at most one element are equal when they have the same
      members. */
  lemma AtMostOneSameMembers(u: seq<Edit>, v: seq<Edit>)
    requires |u| <= 1 && |v| <= 1
    requires forall x :: x in u <==> x in v
    ensures u == v
  {
    if u != [] {
      assert u[0] in v;
    }
    if v != [] {
      assert v[0] in u;
    }
  }

  lemma SameMembers(a: seq<Edit>, b: seq<Edit>)
    requires multiset(a) == multiset(b)
    ensures forall x :: x in a <==> x in b
  {
    forall x ensures x in a <==> x in b {
      assert x in a <==> x in multiset(a);
      assert x in b <==> x in multiset(b);
    }
  }

  lemma WithKeySameMembers(a: seq<Edit>, b: seq<Edit>, k: (nat, nat))
    requires DistinctPositions(a) && DistinctPositions(b) && multiset(a) == multiset(b)
    ensures WithKey(a, k) == WithKey(b, k)
  {
    WithKeyUnique(a, k);
    WithKeyUnique(b, k);
    WithKeyMembers(a, k);
    WithKeyMembers(b, k);
    SameMembers(a, b);
    AtMostOneSameMembers(WithKey(a, k), WithKey(b, k));
  }

  /** Sorting forgets the order in which the hooks were visited: two
      collections of the same edits at distinct positions sort alike. */
  lemma SortForgetsCollectionOrder(a: seq<Edit>, b: seq<Edit>)
    requires DistinctPositions(a) && DistinctPositions(b) && multiset(a) == multiset(b)
    ensures SortUpdates(a) == SortUpdates(b)
  {
    SortUpdatesSorted(a);
    forall k ensures WithKey(SortUpdates(a), k) == WithKey(b, k) {
      SortIsStable(a, k);
      WithKeySameMembers(a, b, k);
    }
    SortUpdatesIsStableSort(b, SortUpdates(a));
  }

  // ---------------------------------------------------------------------
  // From the sort to the patcher's order condition.

  /** Two located old values do not share any column of the file. */
  predicate Apart(a: Edit, b: Edit) {
    a.token.line != b.token.line || SpanEnd(a) <= b.token.col || SpanEnd(b) <= a.token.col
  }

  /** No two collected edits overlap in the file. */
  predicate PairwiseApart(s: seq<Edit>) {
    forall i, j :: 0 <= i < j < |s| ==> Apart(s[i], s[j])
  }

  lemma {:induction false} InsertKeepsApart(t: seq<Edit>, x: Edit)
    requires PairwiseApart(t) && forall y :: y in t ==> Apart(x, y)
    ensures PairwiseApart(Insert(t, x))
  {
    if t != [] && KeyLe(t[0], x) {
      var rest := Insert(t[1..], x);
      InsertKeepsApart(t[1..], x);
      forall y | y in rest ensures Apart(t[0], y) {
        assert y in multiset(rest);
        if y == x {
          assert Apart(x, t[0]);
        } else {
          var j :| 1 <= j < |t| && t[j] == y;
          assert Apart(t[0], t[j]);
        }
      }
      assert Insert(t, x) == [t[0]] + rest;
    }
  }

  lemma {:induction false} SortKeepsApart(s: seq<Edit>)
    requires PairwiseApart(s)
    ensures PairwiseApart(SortUpdates(s))
  {
    if s != [] {
      var init := s[..|s| - 1];
      var x := s[|s| - 1];
      SortKeepsApart(init);
      forall y | y in SortUpdates(init) ensures Apart(x, y) {
        assert y in multiset(SortUpdates(init));
        var i :| 0 <= i < |init| && init[i] == y;
        assert Apart(s[i], s[|s| - 1]);
      }
      InsertKeepsApart(SortUpdates(init), x);
    }
  }

  /** Sorting non-overlapping, non-empty old values yields the order the
      patch loop needs: on each line, each edit starts at or after the end of
      the one before. */
  lemma SortUpdatesInPatchOrder(s: seq<Edit>)
    requires PairwiseApart(s)
    requires forall e :: e in s ==> e.token.value != []
    ensures InPatchOrder(SortUpdates(s))
  {
    SortKeepsApart(s);
    SortUpdatesSorted(s);
    var r := SortUpdates(s);
    forall i | 0 <= i < |r| ensures r[i].token.value != [] {
      assert r[i] in multiset(s);
    }
  }
}
