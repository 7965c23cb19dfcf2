/** An element with nothing above it before it and nothing below it after it is where a sort
    would put it, up to equivalence. */
module Selection {
  import opened Ordering
  import opened Insertion

  // How many elements have the property.
  function Count<T>(s: seq<T>, p: T -> bool): (n: nat)
    ensures n <= |s|
  {
    if s == [] then 0 else (if p(s[0]) then 1 else 0) + Count(s[1..], p)
  }

  lemma {:induction false} CountConcat<T>(s: seq<T>, t: seq<T>, p: T -> bool)
    ensures Count(s + t, p) == Count(s, p) + Count(t, p)
    decreases |s|
  {
    if s == [] {
      assert s + t == t;
    } else {
      assert (s + t)[1..] == s[1..] + t;
      CountConcat(s[1..], t, p);
    }
  }

  lemma CountSplit<T>(s: seq<T>, k: nat, p: T -> bool)
    requires k <= |s|
    ensures Count(s, p) == Count(s[..k], p) + Count(s[k..], p)
  {
    assert s == s[..k] + s[k..];
    CountConcat(s[..k], s[k..], p);
  }

  lemma TakenOut<T>(t: seq<T>, i: nat)
    requires i < |t|
    ensures multiset(t[..i] + t[i + 1..]) == multiset(t) - multiset{t[i]}
  {
    var l, r := t[..i], t[i + 1..];
    assert t == l + ([t[i]] + r);
    assert multiset(t) == multiset(l) + (multiset{t[i]} + multiset(r));
  }

  lemma FirstTakenOut<T>(s: seq<T>, t: seq<T>, i: nat)
    requires s != [] && multiset(s) == multiset(t) && i < |t| && t[i] == s[0]
    ensures multiset(s[1..]) == multiset(t[..i] + t[i + 1..])
  {
    TakenOut(t, i);
    TakenOut(s, 0);
    assert s[..0] + s[0 + 1..] == s[1..];
  }

  lemma Somewhere<T>(s: seq<T>, t: seq<T>) returns (i: nat)
    requires s != [] && multiset(s) == multiset(t)
    ensures i < |t| && t[i] == s[0]
  {
    assert s[0] in multiset(s);
    assert s[0] in multiset(t);
    i :| 0 <= i < |t| && t[i] == s[0];
  }

  lemma {:induction false} CountPermuted<T>(s: seq<T>, t: seq<T>, p: T -> bool)
    requires multiset(s) == multiset(t)
    ensures Count(s, p) == Count(t, p)
    decreases |s|
  {
    if s == [] {
      assert |t| == |multiset(t)| == 0;
    } else {
      var i := Somewhere(s, t);
      FirstTakenOut(s, t, i);
      CountPermuted(s[1..], t[..i] + t[i + 1..], p);
      CountConcat(t[..i], t[i + 1..], p);
      CountSplit(t, i, p);
    }
  }

  lemma {:induction false} CountAll<T>(s: seq<T>, p: T -> bool)
    requires forall i :: 0 <= i < |s| ==> p(s[i])
    ensures Count(s, p) == |s|
    decreases |s|
  {
    if s != [] {
      CountAll(s[1..], p);
    }
  }

  lemma {:induction false} CountNone<T>(s: seq<T>, p: T -> bool)
    requires forall i :: 0 <= i < |s| ==> !p(s[i])
    ensures Count(s, p) == 0
    decreases |s|
  {
    if s != [] {
      CountNone(s[1..], p);
    }
  }

  // If only the first k elements of t have the property, not all of the first k + 1 of a
  // permutation do.
  lemma NotAsManyBefore<T>(r: seq<T>, t: seq<T>, k: nat, p: T -> bool)
    requires multiset(r) == multiset(t) && k < |t| == |r| && forall i :: k <= i < |t| ==> !p(t[i])
    ensures exists i :: 0 <= i <= k && !p(r[i])
  {
    CountPermuted(r, t, p);
    CountSplit(t, k, p);
    CountNone(t[k..], p);
    CountSplit(r, k + 1, p);
    if forall i :: 0 <= i <= k ==> p(r[i]) {
      CountAll(r[..k + 1], p);
      assert false;
    }
  }

  // If only the elements of t behind the one at k have it, not all from k on in a permutation do.
  lemma NotAsManyBehind<T>(r: seq<T>, t: seq<T>, k: nat, p: T -> bool)
    requires multiset(r) == multiset(t) && k < |t| == |r| && forall i :: 0 <= i <= k ==> !p(t[i])
    ensures exists i :: k <= i < |r| && !p(r[i])
  {
    CountPermuted(r, t, p);
    CountSplit(t, k + 1, p);
    CountNone(t[..k + 1], p);
    CountSplit(r, k, p);
    if forall i :: k <= i < |r| ==> p(r[i]) {
      CountAll(r[k..], p);
      assert false;
    }
  }

  // The element at k of the sorted range is equivalent to x.
  ghost predicate InSortedPlace<T>(lt: Order<T>, s: seq<T>, k: nat, x: T) {
    k < |SortOf(lt, s)| && Equivalent(lt, SortOf(lt, s)[k], x)
  }

  lemma SelectedIsSorted<T(!new)>(lt: Order<T>, s: seq<T>, t: seq<T>, k: nat)
    requires StrictWeakOrder(lt) && multiset(s) == multiset(t) && k < |t|
    requires forall i :: 0 <= i < k ==> !lt(t[k], t[i])
    requires forall i :: k <= i < |t| ==> !lt(t[i], t[k])
    ensures InSortedPlace(lt, s, k, t[k])
  {
    hide StrictWeakOrder, SortOf;
    var r, x := SortOf(lt, s), t[k];
    SortOfSorts(lt, s);
    assert |r| == |multiset(r)| == |multiset(t)| == |t|;
    Irreflexive(lt, x);
    if lt(r[k], x) {
      NotAsManyBefore(r, t, k, y => lt(y, x));
      var i :| 0 <= i <= k && !lt(r[i], x);
      LessThenNotLess(lt, r[k], x);
      assert i < k;
      if !lt(r[k], r[i]) { NotLessTransitive(lt, r[k], r[i], x); }
      assert false;
    }
    if lt(x, r[k]) {
      NotAsManyBehind(r, t, k, y => lt(x, y));
      var i :| k <= i < |r| && !lt(x, r[i]);
      assert k < i;
      NotLessTransitive(lt, x, r[i], r[k]);
      assert false;
    }
  }

  /** So the front of a partly sorted range is the front of the sorted one, and all of a sorted
      range is. */
  lemma FrontIsSorted<T(!new)>(lt: Order<T>, s: seq<T>, t: seq<T>, m: nat)
    requires StrictWeakOrder(lt) && multiset(s) == multiset(t) && m <= |t|
    requires Sorted(lt, t[..m]) && NotAbove(lt, t[..m], t[m..])
    ensures forall k :: 0 <= k < m ==> InSortedPlace(lt, s, k, t[k])
  {
    forall k | 0 <= k < m ensures InSortedPlace(lt, s, k, t[k]) {
      Irreflexive(lt, t[k]);
      forall i | 0 <= i < |t| ensures if i < k then !lt(t[k], t[i]) else !lt(t[i], t[k]) {
        if i < m {
          assert t[..m][i] == t[i] && t[..m][k] == t[k];
        } else {
          assert t[m..][i - m] == t[i] && t[..m][k] == t[k];
        }
      }
      SelectedIsSorted(lt, s, t, k);
    }
  }
}
