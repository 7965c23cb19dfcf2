/** Linear insertion and the insertion sorts that sort and stable_sort end with. */
module Insertion {
  import opened Ordering

  // v goes behind the last element of s that it is not below, looking from the end.
  function Insert<T>(lt: Order<T>, s: seq<T>, v: T): (r: seq<T>)
    ensures |r| == |s| + 1
  {
    if s == [] then [v]
    else if lt(v, s[|s| - 1]) then Insert(lt, s[..|s| - 1], v) + [s[|s| - 1]]
    else s + [v]
  }

  // The stable sort of a sequence: insert its elements one by one.
  function SortOf<T>(lt: Order<T>, s: seq<T>): (r: seq<T>)
    ensures |r| == |s|
  {
    if s == [] then [] else Insert(lt, SortOf(lt, s[..|s| - 1]), s[|s| - 1])
  }

  // The elements of s that are equivalent to x, in their order.
  ghost function Class<T>(lt: Order<T>, x: T, s: seq<T>): seq<T> {
    if s == [] then []
    else Class(lt, x, s[..|s| - 1]) + if Equivalent(lt, x, s[|s| - 1]) then [s[|s| - 1]] else []
  }

  // t has the same elements as s, and equivalent ones in the same order.
  ghost predicate StablePermutation<T(!new)>(lt: Order<T>, s: seq<T>, t: seq<T>) {
    forall x :: Class(lt, x, s) == Class(lt, x, t)
  }

  lemma {:induction false} ClassConcat<T>(lt: Order<T>, x: T, s: seq<T>, t: seq<T>)
    ensures Class(lt, x, s + t) == Class(lt, x, s) + Class(lt, x, t)
  {
    if t == [] {
      assert s + t == s;
    } else {
      assert (s + t)[..|s + t| - 1] == s + t[..|t| - 1];
      ClassConcat(lt, x, s, t[..|t| - 1]);
    }
  }

  lemma {:induction false} InsertPermutes<T>(lt: Order<T>, s: seq<T>, v: T)
    ensures multiset(Insert(lt, s, v)) == multiset(s) + multiset{v}
  {
    if s != [] {
      assert s == s[..|s| - 1] + [s[|s| - 1]];
      InsertPermutes(lt, s[..|s| - 1], v);
    }
  }

  lemma {:induction false} InsertSorts<T(!new)>(lt: Order<T>, s: seq<T>, v: T)
    requires StrictWeakOrder(lt) && Sorted(lt, s)
    ensures Sorted(lt, Insert(lt, s, v))
  {
    hide StrictWeakOrder;
    if s != [] {
      var l := s[|s| - 1];
      var init := s[..|s| - 1];
      if lt(v, l) {
        InsertSorts(lt, init, v);
        InsertPermutes(lt, init, v);
        var r := Insert(lt, init, v);
        LessThenNotLess(lt, v, l);
        forall i | 0 <= i < |r| ensures !lt(l, r[i]) {
          assert r[i] in multiset(init) + multiset{v};
        }
      } else {
        forall i | 0 <= i < |s| ensures !lt(v, s[i]) {
          if i < |s| - 1 {
            NotLessTransitive(lt, v, l, s[i]);
          }
        }
      }
    }
  }

  lemma {:induction false} InsertIsStable<T(!new)>(lt: Order<T>, s: seq<T>, v: T, x: T)
    requires StrictWeakOrder(lt)
    ensures Class(lt, x, Insert(lt, s, v)) == Class(lt, x, s + [v])
  {
    hide StrictWeakOrder;
    assert (s + [v])[..|s|] == s;
    if s != [] && lt(v, s[|s| - 1]) {
      var l := s[|s| - 1];
      var init := s[..|s| - 1];
      InsertIsStable(lt, init, v, x);
      assert (init + [v])[..|init|] == init;
      var r := Insert(lt, init, v);
      assert (r + [l])[..|r|] == r;
      DistinctClasses(lt, x, v, l);
    }
  }

  lemma DistinctClasses<T(!new)>(lt: Order<T>, x: T, v: T, l: T)
    requires StrictWeakOrder(lt) && lt(v, l)
    ensures !(Equivalent(lt, x, v) && Equivalent(lt, x, l))
  {
    hide StrictWeakOrder;
    if Equivalent(lt, x, v) && Equivalent(lt, x, l) {
      NotLessTransitive(lt, v, x, l);
    }
  }

  /** SortOf sorts, and keeps equivalent elements in order. */
  lemma {:induction false} SortOfSorts<T(!new)>(lt: Order<T>, s: seq<T>)
    requires StrictWeakOrder(lt)
    ensures Sorted(lt, SortOf(lt, s)) && StablePermutation(lt, s, SortOf(lt, s))
    ensures multiset(SortOf(lt, s)) == multiset(s)
  {
    hide StrictWeakOrder;
    if s != [] {
      var init, v := s[..|s| - 1], s[|s| - 1];
      assert s == init + [v];
      SortOfSorts(lt, init);
      var r := SortOf(lt, init);
      InsertSorts(lt, r, v);
      InsertPermutes(lt, r, v);
      forall x ensures Class(lt, x, s) == Class(lt, x, Insert(lt, r, v)) {
        InsertIsStable(lt, r, v, x);
        ClassConcat(lt, x, r, [v]);
        ClassConcat(lt, x, init, [v]);
      }
    }
  }

  lemma {:induction false} ClassMember<T(!new)>(lt: Order<T>, x: T, s: seq<T>) returns (k: nat)
    requires Class(lt, x, s) != []
    ensures k < |s| && Equivalent(lt, x, s[k])
  {
    if Equivalent(lt, x, s[|s| - 1]) {
      k := |s| - 1;
    } else {
      k := ClassMember(lt, x, s[..|s| - 1]);
    }
  }

  /** There is only one sorted arrangement that keeps equivalent elements in order. */
  lemma {:induction false} SortedStableUnique<T(!new)>(lt: Order<T>, s: seq<T>, t: seq<T>)
    requires StrictWeakOrder(lt) && Sorted(lt, s) && Sorted(lt, t) && StablePermutation(lt, s, t)
    ensures s == t
  {
    hide StrictWeakOrder;
    NonEmptyToo(lt, s, t);
    NonEmptyToo(lt, t, s);
    if s == [] {
      return;
    }
    var l, m := s[|s| - 1], t[|t| - 1];
    LastNotBelow(lt, s, t);
    LastNotBelow(lt, t, s);
    Irreflexive(lt, l);
    var c := Class(lt, l, s);
    assert c == Class(lt, l, t) && c[|c| - 1] == l && c[|c| - 1] == m;
    var s', t' := s[..|s| - 1], t[..|t| - 1];
    forall x ensures Class(lt, x, s') == Class(lt, x, t') {
      assert Class(lt, x, s) == Class(lt, x, t);
      ClassWithoutLast(lt, x, s);
      ClassWithoutLast(lt, x, t);
    }
    SortedStableUnique(lt, s', t');
  }

  lemma ClassWithoutLast<T>(lt: Order<T>, x: T, s: seq<T>)
    requires s != []
    ensures var c, d := Class(lt, x, s), Class(lt, x, s[..|s| - 1]);
      if Equivalent(lt, x, s[|s| - 1]) then c != [] && d == c[..|c| - 1] else d == c
  {
  }

  lemma NonEmptyToo<T(!new)>(lt: Order<T>, s: seq<T>, t: seq<T>)
    requires StrictWeakOrder(lt) && StablePermutation(lt, s, t)
    ensures s != [] ==> t != []
  {
    hide StrictWeakOrder;
    if s != [] {
      var x := s[|s| - 1];
      Irreflexive(lt, x);
      assert Class(lt, x, t) == Class(lt, x, s) != [];
    }
  }

  lemma LastNotBelow<T(!new)>(lt: Order<T>, s: seq<T>, t: seq<T>)
    requires StrictWeakOrder(lt) && Sorted(lt, t) && StablePermutation(lt, s, t) && s != [] && t != []
    ensures !lt(t[|t| - 1], s[|s| - 1])
  {
    hide StrictWeakOrder;
    var l, m := s[|s| - 1], t[|t| - 1];
    Irreflexive(lt, l);
    assert Class(lt, l, s) == Class(lt, l, t) != [];
    var k := ClassMember(lt, l, t);
    if k < |t| - 1 {
      NotLessTransitive(lt, m, t[k], l);
    }
  }

  /** Hence whatever sorts stably computes SortOf. */
  lemma StableSortIsSortOf<T(!new)>(lt: Order<T>, s: seq<T>, r: seq<T>)
    requires StrictWeakOrder(lt) && Sorted(lt, r) && StablePermutation(lt, s, r)
    ensures r == SortOf(lt, s)
  {
    hide StrictWeakOrder, Sorted;
    SortOfSorts(lt, s);
    forall x ensures Class(lt, x, r) == Class(lt, x, SortOf(lt, s)) {
      assert Class(lt, x, s) == Class(lt, x, r) && Class(lt, x, s) == Class(lt, x, SortOf(lt, s));
    }
    SortedStableUnique(lt, r, SortOf(lt, s));
  }

  lemma {:induction false} InsertInFront<T(!new)>(lt: Order<T>, s: seq<T>, v: T)
    requires StrictWeakOrder(lt) && Sorted(lt, s) && s != [] && lt(v, s[0])
    ensures Insert(lt, s, v) == [v] + s
  {
    hide StrictWeakOrder;
    var l := s[|s| - 1];
    if |s| > 1 {
      InsertInFront(lt, s[..|s| - 1], v);
      if !lt(v, l) {
        NotLessTransitive(lt, v, l, s[0]);
      }
      assert s == s[..|s| - 1] + [l];
    }
  }

  lemma {:induction false} InsertKeepsFirst<T>(lt: Order<T>, s: seq<T>, v: T)
    requires s != [] && !lt(v, s[0])
    ensures Insert(lt, s, v)[0] == s[0]
  {
    if |s| > 1 && lt(v, s[|s| - 1]) {
      InsertKeepsFirst(lt, s[..|s| - 1], v);
    }
  }

  // ----- on a range of an array -----

  // The state of the loop of __unguarded_linear_insert.
  ghost predicate Inserting<T>(lt: Order<T>, all: seq<T>, w: seq<T>, lo: nat, last: nat, hole: nat, v: T) {
    && lo <= hole <= last < |all| && SameOutside(all, w, lo, last + 1)
    && w[lo..hole] == all[lo..hole] && w[hole + 1..last + 1] == all[hole..last]
    && Insert(lt, all[lo..last], v) == Insert(lt, all[lo..hole], v) + all[hole..last]
  }

  lemma InsertStep<T>(lt: Order<T>, all: seq<T>, w: seq<T>, lo: nat, last: nat, hole: nat, v: T)
    requires Inserting(lt, all, w, lo, last, hole, v) && lo < hole && lt(v, w[hole - 1])
    ensures Inserting(lt, all, w[hole := w[hole - 1]], lo, last, hole - 1, v)
  {
    assert w[hole - 1] == w[lo..hole][hole - 1 - lo] == all[hole - 1];
    var s := all[lo..hole];
    assert s[..|s| - 1] == all[lo..hole - 1];
    assert all[hole - 1..last] == [all[hole - 1]] + all[hole..last];
    var u := w[hole := w[hole - 1]];
    assert u[hole..last + 1] == [w[hole - 1]] + w[hole + 1..last + 1];
    assert u[lo..hole - 1] == w[lo..hole][..hole - 1 - lo];
  }

  lemma InsertDone<T>(lt: Order<T>, all: seq<T>, w: seq<T>, lo: nat, last: nat, hole: nat, v: T)
    requires Inserting(lt, all, w, lo, last, hole, v) && lo < hole && !lt(v, w[hole - 1])
    ensures w[hole := v][lo..last + 1] == Insert(lt, all[lo..last], v)
    ensures SameOutside(all, w[hole := v], lo, last + 1)
  {
    assert w[hole - 1] == w[lo..hole][hole - 1 - lo];
    var u := w[hole := v];
    assert u[lo..last + 1] == w[lo..hole] + [v] + w[hole + 1..last + 1];
  }

  // __unguarded_linear_insert: there is an element at lo that stops the search.
  method UnguardedLinearInsert<T(!new)>(a: array<T>, ghost lo: nat, last: nat, v: T, lt: Order<T>)
    requires lo < last < a.Length && !lt(v, a[lo])
    modifies a
    ensures a[..][lo..last + 1] == Insert(lt, old(a[..])[lo..last], v)
    ensures SameOutside(old(a[..]), a[..], lo, last + 1)
  {
    hide Insert, SameOutside;
    ghost var all := a[..];
    var hole, next := last, last - 1;
    StartInserting(lt, all, lo, last, v);
    while lt(v, a[next])
      invariant lo < hole <= last && next == hole - 1
      invariant a[lo] == all[lo] && Inserting(lt, all, a[..], lo, last, hole, v)
      decreases hole
    {
      ghost var w := a[..];
      InsertStep(lt, all, w, lo, last, hole, v);
      a[hole] := a[next];
      assert a[..] == w[hole := w[hole - 1]];
      hole, next := next, next - 1;
    }
    ghost var w := a[..];
    InsertDone(lt, all, w, lo, last, hole, v);
    a[hole] := v;
    assert a[..] == w[hole := v];
  }

  lemma StartInserting<T>(lt: Order<T>, all: seq<T>, lo: nat, last: nat, v: T)
    requires lo <= last < |all|
    ensures Inserting(lt, all, all, lo, last, last, v)
  {
  }

  // copy_backward within one array, to the right by one position.
  method ShiftRight<T>(a: array<T>, first: nat, last: nat)
    requires first <= last < a.Length
    modifies a
    ensures a[..] == old(a[..])[..first + 1] + old(a[..])[first..last] + old(a[..])[last + 1..]
  {
    ghost var all := a[..];
    var i := last;
    while first != i
      invariant first <= i <= last
      invariant forall k :: 0 <= k < a.Length && !(i < k <= last) ==> a[k] == all[k]
      invariant forall k :: i < k <= last ==> a[k] == all[k - 1]
    {
      a[i] := a[i - 1];
      i := i - 1;
    }
  }

  // __linear_insert
  method LinearInsert<T(!new)>(a: array<T>, first: nat, last: nat, lt: Order<T>)
    requires StrictWeakOrder(lt) && first < last < a.Length && Sorted(lt, a[..][first..last])
    modifies a
    ensures a[..][first..last + 1] == Insert(lt, old(a[..])[first..last], old(a[last]))
    ensures SameOutside(old(a[..]), a[..], first, last + 1)
  {
    hide StrictWeakOrder, Sorted;
    var v := a[last];
    ghost var all := a[..];
    if lt(v, a[first]) {
      InsertInFront(lt, all[first..last], v);
      ShiftRight(a, first, last);
      a[first] := v;
      assert a[..][first..last + 1] == [v] + all[first..last];
    } else {
      UnguardedLinearInsert(a, first, last, v, lt);
    }
  }

  // __insertion_sort
  method InsertionSort<T(!new)>(a: array<T>, first: nat, last: nat, lt: Order<T>)
    requires StrictWeakOrder(lt) && first <= last <= a.Length
    modifies a
    ensures a[..][first..last] == SortOf(lt, old(a[..])[first..last])
    ensures SameOutside(old(a[..]), a[..], first, last)
  {
    hide StrictWeakOrder, Sorted, Insert, SortOf, SameOutside;
    ghost var all := a[..];
    FirstSorted(lt, all, first, last);
    if first == last {
      return;
    }
    var i := first + 1;
    while i != last
      invariant first < i <= last
      invariant a[..][first..i] == SortOf(lt, all[first..i])
      invariant SameOutside(all, a[..], first, i) && SameOutside(all, a[..], first, last)
    {
      ghost var w := a[..];
      SortOfSorts(lt, all[first..i]);
      LinearInsert(a, first, i, lt);
      OneMoreSorted(lt, all, w, a[..], first, i, last);
      i := i + 1;
    }
  }

  lemma FirstSorted<T>(lt: Order<T>, s: seq<T>, first: nat, last: nat)
    requires first <= last <= |s|
    ensures SameOutside(s, s, first, first) && SameOutside(s, s, first, last)
    ensures first == last ==> s[first..last] == SortOf(lt, s[first..last])
    ensures first < last ==>
              SameOutside(s, s, first, first + 1) && s[first..first + 1] == SortOf(lt, s[first..first + 1])
  {
    if first < last {
      assert s[first..first + 1] == [s[first]];
      OneSorted(lt, s[first]);
    }
  }

  lemma OneSorted<T>(lt: Order<T>, x: T)
    ensures SortOf(lt, [x]) == [x]
  {
    assert [x][..0] == [];
    assert SortOf(lt, []) == [];
  }

  lemma OneMoreSorted<T>(lt: Order<T>, all: seq<T>, w: seq<T>, u: seq<T>, first: nat, i: nat, last: nat)
    requires first < i < last <= |all| && SameOutside(all, w, first, i) && SameOutside(w, u, first, i + 1)
    requires w[first..i] == SortOf(lt, all[first..i]) && u[first..i + 1] == Insert(lt, w[first..i], w[i])
    ensures u[first..i + 1] == SortOf(lt, all[first..i + 1]) && SameOutside(all, u, first, i + 1)
    ensures SameOutside(all, u, first, last)
  {
    hide Insert;
    assert all[first..i + 1][..i - first] == all[first..i];
  }

  // __unguarded_insertion_sort: what is before from is sorted already, and its first
  // element is not above any of the rest.
  method UnguardedInsertionSort<T(!new)>(a: array<T>, ghost lo: nat, from: nat, last: nat, lt: Order<T>)
    requires StrictWeakOrder(lt) && lo < from <= last <= a.Length && Sorted(lt, a[..][lo..from])
    requires forall i :: from <= i < last ==> !lt(a[..][i], a[..][lo])
    modifies a
    ensures Sorted(lt, a[..][lo..last]) && PermutedWithin(old(a[..]), a[..], lo, last)
  {
    hide StrictWeakOrder, Sorted, Insert, PermutedWithin;
    ghost var all := a[..];
    PermutedSame(all, lo, last);
    var i := from;
    while i != last
      invariant from <= i <= last && Sorted(lt, a[..][lo..i]) && PermutedWithin(all, a[..], lo, last)
      invariant a[lo] == all[lo] && forall k :: i <= k < last ==> a[k] == all[k]
    {
      ghost var w := a[..];
      ghost var v := a[i];
      InsertSorts(lt, w[lo..i], v);
      InsertKeepsFirst(lt, w[lo..i], v);
      UnguardedLinearInsert(a, lo, i, a[i], lt);
      InsertedPermutes(lt, w, a[..], lo, i, last);
      PermutedTransitive(all, w, a[..], lo, last);
      assert a[lo] == a[..][lo..i + 1][0];
      i := i + 1;
    }
  }

  lemma InsertedPermutes<T>(lt: Order<T>, w: seq<T>, u: seq<T>, lo: nat, i: nat, last: nat)
    requires lo <= i < last <= |w| && SameOutside(w, u, lo, i + 1)
    requires u[lo..i + 1] == Insert(lt, w[lo..i], w[i])
    ensures PermutedWithin(w, u, lo, last)
  {
    hide Insert;
    InsertPermutes(lt, w[lo..i], w[i]);
    assert w[lo..i + 1] == w[lo..i] + [w[i]];
    PermutedWider(w, u, lo, i + 1, lo, last);
  }
}
