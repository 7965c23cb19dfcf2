/** Copying, binary search and merging, as stable_sort uses them. */
module Merging {
  import opened Ordering
  import opened Insertion

  // ----- what a stable merge is -----

  // merge: takes from t only what is below the first of s.
  function Merge<T>(lt: Order<T>, s: seq<T>, t: seq<T>): (r: seq<T>)
    ensures |r| == |s| + |t|
    decreases |s| + |t|
  {
    if s == [] then t
    else if t == [] then s
    else if lt(t[0], s[0]) then [t[0]] + Merge(lt, s, t[1..])
    else [s[0]] + Merge(lt, s[1..], t)
  }

  // __merge_backward: the same from the end.
  function MergeBack<T>(lt: Order<T>, s: seq<T>, t: seq<T>): (r: seq<T>)
    ensures |r| == |s| + |t|
    decreases |s| + |t|
  {
    if s == [] then t
    else if t == [] then s
    else if lt(t[|t| - 1], s[|s| - 1]) then MergeBack(lt, s[..|s| - 1], t) + [s[|s| - 1]]
    else MergeBack(lt, s, t[..|t| - 1]) + [t[|t| - 1]]
  }

  lemma MergeTakes<T>(lt: Order<T>, s: seq<T>, t: seq<T>)
    requires s != [] && t != []
    ensures Merge(lt, s, t) == if lt(t[0], s[0]) then [t[0]] + Merge(lt, s, t[1..]) else [s[0]] + Merge(lt, s[1..], t)
    ensures MergeBack(lt, s, t) ==
            if lt(t[|t| - 1], s[|s| - 1]) then MergeBack(lt, s[..|s| - 1], t) + [s[|s| - 1]]
            else MergeBack(lt, s, t[..|t| - 1]) + [t[|t| - 1]]
  {
  }

  lemma MergesOneEmpty<T>(lt: Order<T>, s: seq<T>, t: seq<T>)
    requires s == [] || t == []
    ensures Merge(lt, s, t) == MergeBack(lt, s, t) == s + t
  {
  }

  // A common element more, at the front or at the end.
  lemma OneMore<T>(m: seq<T>, s: seq<T>, t: seq<T>, x: T)
    requires multiset(m) == multiset(s) + multiset(t)
    ensures multiset([x] + m) == multiset([x] + s) + multiset(t) == multiset(s) + multiset([x] + t)
    ensures multiset(m + [x]) == multiset(s + [x]) + multiset(t) == multiset(s) + multiset(t + [x])
  {
    assert multiset([x] + m) == multiset{x} + multiset(m) && multiset(m + [x]) == multiset(m) + multiset{x};
    assert multiset([x] + s) == multiset{x} + multiset(s) && multiset(s + [x]) == multiset(s) + multiset{x};
    assert multiset([x] + t) == multiset{x} + multiset(t) && multiset(t + [x]) == multiset(t) + multiset{x};
  }

  lemma {:induction false} MergePermutes<T>(lt: Order<T>, s: seq<T>, t: seq<T>)
    ensures multiset(Merge(lt, s, t)) == multiset(s) + multiset(t)
    decreases |s| + |t|
  {
    hide Merge, MergeBack;
    if s == [] || t == [] {
      MergesOneEmpty(lt, s, t);
    } else {
      MergeTakes(lt, s, t);
      if lt(t[0], s[0]) {
        MergePermutes(lt, s, t[1..]);
        assert t == [t[0]] + t[1..];
        OneMore(Merge(lt, s, t[1..]), s, t[1..], t[0]);
      } else {
        MergePermutes(lt, s[1..], t);
        assert s == [s[0]] + s[1..];
        OneMore(Merge(lt, s[1..], t), s[1..], t, s[0]);
      }
    }
  }

  lemma {:induction false} MergeBackPermutes<T>(lt: Order<T>, s: seq<T>, t: seq<T>)
    ensures multiset(MergeBack(lt, s, t)) == multiset(s) + multiset(t)
    decreases |s| + |t|
  {
    hide Merge, MergeBack;
    if s == [] || t == [] {
      MergesOneEmpty(lt, s, t);
    } else {
      MergeTakes(lt, s, t);
      var s', x, t', y := s[..|s| - 1], s[|s| - 1], t[..|t| - 1], t[|t| - 1];
      if lt(y, x) {
        MergeBackPermutes(lt, s', t);
        assert s == s' + [x];
        OneMore(MergeBack(lt, s', t), s', t, x);
      } else {
        MergeBackPermutes(lt, s, t');
        assert t == t' + [y];
        OneMore(MergeBack(lt, s, t'), s, t', y);
      }
    }
  }

  // No element of s is below x.
  ghost predicate NoneBelow<T>(lt: Order<T>, s: seq<T>, x: T) {
    forall k :: 0 <= k < |s| ==> !lt(s[k], x)
  }

  ghost predicate NoneAbove<T>(lt: Order<T>, s: seq<T>, x: T) {
    forall k :: 0 <= k < |s| ==> !lt(x, s[k])
  }

  lemma SortedBounds<T(!new)>(lt: Order<T>, s: seq<T>, x: T)
    requires StrictWeakOrder(lt) && Sorted(lt, s) && s != []
    ensures !lt(s[0], x) ==> NoneBelow(lt, s, x)
    ensures !lt(x, s[|s| - 1]) ==> NoneAbove(lt, s, x)
  {
    hide StrictWeakOrder;
    forall k | 0 <= k < |s| && !lt(s[0], x) ensures !lt(s[k], x) {
      if k > 0 { NotLessTransitive(lt, s[k], s[0], x); }
    }
    forall k | 0 <= k < |s| && !lt(x, s[|s| - 1]) ensures !lt(x, s[k]) {
      if k < |s| - 1 { NotLessTransitive(lt, x, s[|s| - 1], s[k]); }
    }
  }

  lemma NoneBelowPermuted<T>(lt: Order<T>, m: seq<T>, s: seq<T>, t: seq<T>, x: T)
    requires multiset(m) == multiset(s) + multiset(t) && NoneBelow(lt, s, x) && NoneBelow(lt, t, x)
    ensures NoneBelow(lt, m, x)
  {
    forall k | 0 <= k < |m| ensures !lt(m[k], x) {
      assert m[k] in multiset(s) + multiset(t);
      assert m[k] in s || m[k] in t;
    }
  }

  lemma NoneAbovePermuted<T>(lt: Order<T>, m: seq<T>, s: seq<T>, t: seq<T>, x: T)
    requires multiset(m) == multiset(s) + multiset(t) && NoneAbove(lt, s, x) && NoneAbove(lt, t, x)
    ensures NoneAbove(lt, m, x)
  {
    forall k | 0 <= k < |m| ensures !lt(x, m[k]) {
      assert m[k] in multiset(s) + multiset(t);
      assert m[k] in s || m[k] in t;
    }
  }

  /** Elements above x and their classes. */
  lemma {:induction false} NoneEquivalent<T(!new)>(lt: Order<T>, x: T, s: seq<T>)
    requires forall k :: 0 <= k < |s| ==> !Equivalent(lt, x, s[k])
    ensures Class(lt, x, s) == []
  {
    if s != [] {
      NoneEquivalent(lt, x, s[..|s| - 1]);
    }
  }

  /** Moving an element across others that are all above, or all below, does not change any class. */
  lemma ClassesApart<T(!new)>(lt: Order<T>, x: T, y: T, s: seq<T>)
    requires StrictWeakOrder(lt)
    requires (forall k :: 0 <= k < |s| ==> lt(y, s[k])) || (forall k :: 0 <= k < |s| ==> lt(s[k], y))
    ensures Class(lt, x, [y] + s) == Class(lt, x, s + [y])
  {
    hide StrictWeakOrder;
    ClassConcat(lt, x, [y], s);
    ClassConcat(lt, x, s, [y]);
    assert [y][..0] == [];
    if Equivalent(lt, x, y) {
      forall k | 0 <= k < |s| ensures !Equivalent(lt, x, s[k]) {
        if lt(y, s[k]) { DistinctClasses(lt, x, y, s[k]); } else { DistinctClasses(lt, x, s[k], y); }
      }
      NoneEquivalent(lt, x, s);
    }
  }

  lemma StrictlyAbove<T(!new)>(lt: Order<T>, s: seq<T>, y: T)
    requires StrictWeakOrder(lt) && Sorted(lt, s) && s != []
    ensures lt(y, s[0]) ==> forall k :: 0 <= k < |s| ==> lt(y, s[k])
    ensures lt(s[|s| - 1], y) ==> forall k :: 0 <= k < |s| ==> lt(s[k], y)
  {
    hide StrictWeakOrder;
    forall k | 0 <= k < |s| && lt(y, s[0]) ensures lt(y, s[k]) {
      if k > 0 && !lt(y, s[k]) { NotLessTransitive(lt, y, s[k], s[0]); }
    }
    forall k | 0 <= k < |s| && lt(s[|s| - 1], y) ensures lt(s[k], y) {
      if k < |s| - 1 && !lt(s[k], y) { NotLessTransitive(lt, s[|s| - 1], s[k], y); }
    }
  }

  lemma {:induction false} MergeSorted<T(!new)>(lt: Order<T>, s: seq<T>, t: seq<T>)
    requires StrictWeakOrder(lt) && Sorted(lt, s) && Sorted(lt, t)
    ensures Sorted(lt, Merge(lt, s, t))
    decreases |s| + |t|
  {
    hide StrictWeakOrder;
    if s != [] && t != [] {
      var left := lt(t[0], s[0]);
      var y := if left then t[0] else s[0];
      var s', t' := if left then s else s[1..], if left then t[1..] else t;
      MergeSorted(lt, s', t');
      MergePermutes(lt, s', t');
      if left { LessThenNotLess(lt, y, s[0]); }
      SortedBounds(lt, s, y);
      SortedBounds(lt, t, y);
      Irreflexive(lt, y);
      NoneBelowPermuted(lt, Merge(lt, s', t'), s', t', y);
      hide Merge;
      SortedFront(lt, y, Merge(lt, s', t'));
    }
  }

  lemma SortedFront<T>(lt: Order<T>, y: T, m: seq<T>)
    requires Sorted(lt, m) && NoneBelow(lt, m, y)
    ensures Sorted(lt, [y] + m)
  {
  }

  lemma {:induction false} MergeStable<T(!new)>(lt: Order<T>, s: seq<T>, t: seq<T>, x: T)
    requires StrictWeakOrder(lt) && Sorted(lt, s)
    ensures Class(lt, x, Merge(lt, s, t)) == Class(lt, x, s + t)
    decreases |s| + |t|
  {
    hide StrictWeakOrder, Class;
    if s == [] {
      assert s + t == t;
    } else if t == [] {
      assert s + t == s;
    } else if lt(t[0], s[0]) {
      var y, t' := t[0], t[1..];
      MergeStable(lt, s, t', x);
      StrictlyAbove(lt, s, y);
      ClassesApart(lt, x, y, s);
      ClassConcat(lt, x, [y], Merge(lt, s, t'));
      ClassConcat(lt, x, [y], s + t');
      ClassConcat(lt, x, [y] + s, t');
      ClassConcat(lt, x, s + [y], t');
      assert s + t == (s + [y]) + t' && [y] + (s + t') == ([y] + s) + t';
    } else {
      var y, s' := s[0], s[1..];
      MergeStable(lt, s', t, x);
      ClassConcat(lt, x, [y], Merge(lt, s', t));
      ClassConcat(lt, x, [y], s' + t);
      assert s + t == [y] + (s' + t);
    }
  }

  lemma {:induction false} MergeBackSorted<T(!new)>(lt: Order<T>, s: seq<T>, t: seq<T>)
    requires StrictWeakOrder(lt) && Sorted(lt, s) && Sorted(lt, t)
    ensures Sorted(lt, MergeBack(lt, s, t))
    decreases |s| + |t|
  {
    hide StrictWeakOrder;
    if s != [] && t != [] {
      var right := lt(t[|t| - 1], s[|s| - 1]);
      var y := if right then s[|s| - 1] else t[|t| - 1];
      var s', t' := if right then s[..|s| - 1] else s, if right then t else t[..|t| - 1];
      MergeBackSorted(lt, s', t');
      MergeBackPermutes(lt, s', t');
      if right { LessThenNotLess(lt, t[|t| - 1], y); }
      SortedBounds(lt, s, y);
      SortedBounds(lt, t, y);
      Irreflexive(lt, y);
      NoneAbovePermuted(lt, MergeBack(lt, s', t'), s', t', y);
      SortedEnd(lt, y, MergeBack(lt, s', t'));
    }
  }

  lemma SortedEnd<T>(lt: Order<T>, y: T, m: seq<T>)
    requires Sorted(lt, m) && NoneAbove(lt, m, y)
    ensures Sorted(lt, m + [y])
  {
  }

  lemma {:induction false} MergeBackStable<T(!new)>(lt: Order<T>, s: seq<T>, t: seq<T>, x: T)
    requires StrictWeakOrder(lt) && Sorted(lt, t)
    ensures Class(lt, x, MergeBack(lt, s, t)) == Class(lt, x, s + t)
    decreases |s| + |t|
  {
    hide StrictWeakOrder, Class;
    if s == [] {
      assert s + t == t;
    } else if t == [] {
      assert s + t == s;
    } else if lt(t[|t| - 1], s[|s| - 1]) {
      var y, s' := s[|s| - 1], s[..|s| - 1];
      MergeBackStable(lt, s', t, x);
      StrictlyAbove(lt, t, y);
      ClassesApart(lt, x, y, t);
      ClassConcat(lt, x, MergeBack(lt, s', t), [y]);
      ClassConcat(lt, x, s' + t, [y]);
      ClassConcat(lt, x, s', t + [y]);
      ClassConcat(lt, x, s', [y] + t);
      assert s + t == s' + ([y] + t) && (s' + t) + [y] == s' + (t + [y]);
    } else {
      var y, t' := t[|t| - 1], t[..|t| - 1];
      MergeBackStable(lt, s, t', x);
      ClassConcat(lt, x, MergeBack(lt, s, t'), [y]);
      ClassConcat(lt, x, s + t', [y]);
      assert s + t == (s + t') + [y];
    }
  }

  /** Hence both merges compute SortOf. */
  lemma MergesAgree<T(!new)>(lt: Order<T>, s: seq<T>, t: seq<T>)
    requires StrictWeakOrder(lt) && Sorted(lt, s) && Sorted(lt, t)
    ensures Merge(lt, s, t) == MergeBack(lt, s, t) == SortOf(lt, s + t)
  {
    hide StrictWeakOrder, Sorted;
    MergeSorted(lt, s, t);
    MergeBackSorted(lt, s, t);
    forall x
      ensures Class(lt, x, s + t) == Class(lt, x, Merge(lt, s, t))
      ensures Class(lt, x, s + t) == Class(lt, x, MergeBack(lt, s, t))
    {
      MergeStable(lt, s, t, x);
      MergeBackStable(lt, s, t, x);
    }
    StableSortIsSortOf(lt, s + t, Merge(lt, s, t));
    StableSortIsSortOf(lt, s + t, MergeBack(lt, s, t));
  }
}
