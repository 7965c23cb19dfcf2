/** inplace_merge and stable_sort without a temporary buffer. */
module StableSorting {
  import opened Ordering
  import opened Insertion
  import opened Merging
  import opened Rotation

  // ----- copying -----

  // s with the elements from d on replaced by t.
  ghost function Written<T>(s: seq<T>, d: nat, t: seq<T>): seq<T>
    requires d + |t| <= |s|
  {
    s[..d] + t + s[d + |t|..]
  }

  lemma WrittenIs<T>(s: seq<T>, d: nat, t: seq<T>, w: seq<T>)
    requires d + |t| <= |s| == |w|
    requires forall k :: 0 <= k < |s| ==> w[k] == if d <= k < d + |t| then t[k - d] else s[k]
    ensures w == Written(s, d, t)
  {
  }

  // copy; within one array only to the left.
  method Copy<T>(src: array<T>, first: nat, last: nat, dst: array<T>, d: nat)
    requires first <= last <= src.Length && d + (last - first) <= dst.Length
    requires src == dst ==> d <= first
    modifies dst
    ensures dst[..] == Written(old(dst[..]), d, old(src[first..last]))
  {
    hide Written;
    ghost var s, t := src[..], dst[..];
    var n := last - first;
    for i := 0 to n
      invariant forall k :: 0 <= k < dst.Length ==> dst[k] == if d <= k < d + i then s[first + k - d] else t[k]
      invariant src != dst ==> src[..] == s
    {
      dst[d + i] := src[first + i];
    }
    WrittenIs(t, d, s[first..last], dst[..]);
  }

  // copy_backward; within one array only to the right.
  method CopyBackward<T>(src: array<T>, first: nat, last: nat, dst: array<T>, end: nat)
    requires first <= last <= src.Length && last - first <= end <= dst.Length
    requires src == dst ==> last <= end
    modifies dst
    ensures dst[..] == Written(old(dst[..]), end - (last - first), old(src[first..last]))
  {
    hide Written;
    ghost var s, t := src[..], dst[..];
    var n := last - first;
    var i := n;
    while i > 0
      invariant 0 <= i <= n
      invariant forall k :: 0 <= k < dst.Length ==>
                dst[k] == if end - n + i <= k < end then s[first + k - (end - n)] else t[k]
      invariant src != dst ==> src[..] == s
    {
      i := i - 1;
      dst[end - n + i] := src[first + i];
    }
    WrittenIs(t, end - n, s[first..last], dst[..]);
  }

  // ----- binary search -----

  // lower_bound
  method LowerBound<T(!new)>(a: array<T>, first0: nat, last: nat, v: T, lt: Order<T>) returns (first: nat)
    requires StrictWeakOrder(lt) && first0 <= last <= a.Length && Sorted(lt, a[..][first0..last])
    ensures first0 <= first <= last
    ensures forall k :: first0 <= k < first ==> lt(a[k], v)
    ensures forall k :: first <= k < last ==> !lt(a[k], v)
  {
    hide StrictWeakOrder;
    ghost var s := a[..][first0..last];
    first := first0;
    var len: nat := last - first0;
    while len > 0
      invariant first0 <= first && first + len <= last
      invariant forall k :: first0 <= k < first ==> lt(a[k], v)
      invariant forall k :: first + len <= k < last ==> !lt(a[k], v)
    {
      var half := len / 2;
      var middle := first + half;
      if lt(a[middle], v) {
        BelowToo(lt, s, middle - first0, v);
        assert forall k :: first0 <= k <= middle ==> a[k] == s[k - first0];
        first := middle + 1;
        len := len - half - 1;
      } else {
        NotBelowToo(lt, s, middle - first0, v);
        assert forall k :: middle <= k < last ==> a[k] == s[k - first0];
        len := half;
      }
    }
  }

  lemma BelowToo<T(!new)>(lt: Order<T>, s: seq<T>, m: nat, v: T)
    requires StrictWeakOrder(lt) && Sorted(lt, s) && m < |s| && lt(s[m], v)
    ensures forall k :: 0 <= k <= m ==> lt(s[k], v)
  {
    hide StrictWeakOrder;
    forall k | 0 <= k <= m ensures lt(s[k], v) {
      if k < m && !lt(s[k], v) { NotLessTransitive(lt, s[m], s[k], v); }
    }
  }

  lemma NotBelowToo<T(!new)>(lt: Order<T>, s: seq<T>, m: nat, v: T)
    requires StrictWeakOrder(lt) && Sorted(lt, s) && m < |s| && !lt(s[m], v)
    ensures forall k :: m <= k < |s| ==> !lt(s[k], v)
  {
    hide StrictWeakOrder;
    forall k | m <= k < |s| ensures !lt(s[k], v) {
      if k > m { NotLessTransitive(lt, s[k], s[m], v); }
    }
  }

  // upper_bound
  method UpperBound<T(!new)>(a: array<T>, first0: nat, last: nat, v: T, lt: Order<T>) returns (first: nat)
    requires StrictWeakOrder(lt) && first0 <= last <= a.Length && Sorted(lt, a[..][first0..last])
    ensures first0 <= first <= last
    ensures forall k :: first0 <= k < first ==> !lt(v, a[k])
    ensures forall k :: first <= k < last ==> lt(v, a[k])
  {
    hide StrictWeakOrder;
    ghost var s := a[..][first0..last];
    first := first0;
    var len: nat := last - first0;
    while len > 0
      invariant first0 <= first && first + len <= last
      invariant forall k :: first0 <= k < first ==> !lt(v, a[k])
      invariant forall k :: first + len <= k < last ==> lt(v, a[k])
    {
      var half := len / 2;
      var middle := first + half;
      if lt(v, a[middle]) {
        AboveToo(lt, s, middle - first0, v);
        assert forall k :: middle <= k < last ==> a[k] == s[k - first0];
        len := half;
      } else {
        NotAboveToo(lt, s, middle - first0, v);
        assert forall k :: first0 <= k <= middle ==> a[k] == s[k - first0];
        first := middle + 1;
        len := len - half - 1;
      }
    }
  }

  lemma AboveToo<T(!new)>(lt: Order<T>, s: seq<T>, m: nat, v: T)
    requires StrictWeakOrder(lt) && Sorted(lt, s) && m < |s| && lt(v, s[m])
    ensures forall k :: m <= k < |s| ==> lt(v, s[k])
  {
    hide StrictWeakOrder;
    forall k | m <= k < |s| ensures lt(v, s[k]) {
      if k > m && !lt(v, s[k]) { NotLessTransitive(lt, v, s[k], s[m]); }
    }
  }

  lemma NotAboveToo<T(!new)>(lt: Order<T>, s: seq<T>, m: nat, v: T)
    requires StrictWeakOrder(lt) && Sorted(lt, s) && m < |s| && !lt(v, s[m])
    ensures forall k :: 0 <= k <= m ==> !lt(v, s[k])
  {
    hide StrictWeakOrder;
    forall k | 0 <= k <= m ensures !lt(v, s[k]) {
      if k < m { NotLessTransitive(lt, v, s[m], s[k]); }
    }
  }

  // ----- merging by splitting and rotating -----

  // The four pieces s1, s2 and t1, t2 of two sorted ranges may be merged crosswise: all
  // of t1 is below all of s2, and nothing of the first halves is above the second ones.
  ghost predicate Crosswise<T>(lt: Order<T>, s1: seq<T>, s2: seq<T>, t1: seq<T>, t2: seq<T>) {
    && (forall i, j :: 0 <= i < |t1| && 0 <= j < |s2| ==> lt(t1[i], s2[j]))
    && NotAbove(lt, s1 + t1, s2 + t2)
  }

  lemma {:induction false} ClassesCross<T(!new)>(lt: Order<T>, x: T, s: seq<T>, t: seq<T>)
    requires StrictWeakOrder(lt) && forall i, j :: 0 <= i < |t| && 0 <= j < |s| ==> lt(t[i], s[j])
    ensures Class(lt, x, s + t) == Class(lt, x, t + s)
    decreases |t|
  {
    hide StrictWeakOrder;
    if t == [] {
      assert s + t == s == t + s;
    } else {
      var y, t' := t[|t| - 1], t[..|t| - 1];
      ClassesCross(lt, x, s, t');
      ClassesApart(lt, x, y, s);
      assert s + t == (s + t') + [y] && t + s == t' + ([y] + s) && (t' + s) + [y] == t' + (s + [y]);
      ClassConcat(lt, x, s + t', [y]);
      ClassConcat(lt, x, t' + s, [y]);
      ClassConcat(lt, x, t', [y] + s);
      ClassConcat(lt, x, t', s + [y]);
    }
  }

  /** Sorting the crossed halves one by one sorts the whole. */
  lemma CrosswiseSorts<T(!new)>(lt: Order<T>, s1: seq<T>, s2: seq<T>, t1: seq<T>, t2: seq<T>)
    requires StrictWeakOrder(lt) && Crosswise(lt, s1, s2, t1, t2)
    ensures SortOf(lt, s1 + t1) + SortOf(lt, s2 + t2) == SortOf(lt, (s1 + s2) + (t1 + t2))
  {
    hide StrictWeakOrder, SortOf, Class;
    var l, r := s1 + t1, s2 + t2;
    SortOfSorts(lt, l);
    SortOfSorts(lt, r);
    NotAbovePermuted(lt, l, r, SortOf(lt, l), SortOf(lt, r));
    SortedJoin(lt, SortOf(lt, l), SortOf(lt, r));
    var whole := (s1 + s2) + (t1 + t2);
    forall x ensures Class(lt, x, whole) == Class(lt, x, SortOf(lt, l) + SortOf(lt, r)) {
      assert Class(lt, x, l) == Class(lt, x, SortOf(lt, l)) && Class(lt, x, r) == Class(lt, x, SortOf(lt, r));
      ClassConcat(lt, x, SortOf(lt, l), SortOf(lt, r));
      ClassesCross(lt, x, s2, t1);
      CrossClasses(lt, x, s1, s2, t1, t2);
    }
    StableSortIsSortOf(lt, whole, SortOf(lt, l) + SortOf(lt, r));
  }

  lemma CrossClasses<T(!new)>(lt: Order<T>, x: T, s1: seq<T>, s2: seq<T>, t1: seq<T>, t2: seq<T>)
    requires Class(lt, x, s2 + t1) == Class(lt, x, t1 + s2)
    ensures Class(lt, x, (s1 + s2) + (t1 + t2)) == Class(lt, x, s1 + t1) + Class(lt, x, s2 + t2)
  {
    hide Class;
    assert (s1 + s2) + (t1 + t2) == s1 + (s2 + t1) + t2;
    ClassConcat(lt, x, s1 + (s2 + t1), t2);
    ClassConcat(lt, x, s1, s2 + t1);
    ClassConcat(lt, x, t1, s2);
    ClassConcat(lt, x, s1, t1);
    ClassConcat(lt, x, s2, t2);
  }

  lemma SortedJoin<T>(lt: Order<T>, s: seq<T>, t: seq<T>)
    requires Sorted(lt, s) && Sorted(lt, t) && NotAbove(lt, s, t)
    ensures Sorted(lt, s + t)
  {
  }

  // The pieces of two adjacent sorted ranges.
  ghost predicate Cut<T>(lt: Order<T>, a: seq<T>, first: nat, firstCut: nat, middle: nat, secondCut: nat, last: nat) {
    && first <= firstCut <= middle <= secondCut <= last <= |a|
    && Crosswise(lt, a[first..firstCut], a[firstCut..middle], a[middle..secondCut], a[secondCut..last])
  }

  lemma CutByFirst<T(!new)>(lt: Order<T>, a: seq<T>, first: nat, firstCut: nat, middle: nat, secondCut: nat, last: nat)
    requires StrictWeakOrder(lt) && first <= firstCut < middle <= secondCut <= last <= |a|
    requires Sorted(lt, a[first..middle])
    requires forall k :: middle <= k < secondCut ==> lt(a[k], a[firstCut])
    requires forall k :: secondCut <= k < last ==> !lt(a[k], a[firstCut])
    ensures Cut(lt, a, first, firstCut, middle, secondCut, last)
  {
    hide StrictWeakOrder;
    var v := a[firstCut];
    Irreflexive(lt, v);
    forall k | first <= k < firstCut ensures !lt(v, a[k]) {
      assert !lt(a[first..middle][firstCut - first], a[first..middle][k - first]);
    }
    forall k | firstCut <= k < middle ensures !lt(a[k], v) {
      if k > firstCut { assert !lt(a[first..middle][k - first], a[first..middle][firstCut - first]); }
    }
    forall k | middle <= k < secondCut ensures !lt(v, a[k]) {
      LessThenNotLess(lt, a[k], v);
    }
    CutAround(lt, a, first, firstCut, middle, secondCut, last, v);
    forall i, j | middle <= i < secondCut && firstCut <= j < middle ensures lt(a[i], a[j]) {
      if !lt(a[i], a[j]) { NotLessTransitive(lt, a[i], a[j], v); }
    }
  }

  lemma CutBySecond<T(!new)>(lt: Order<T>, a: seq<T>, first: nat, firstCut: nat, middle: nat, secondCut: nat, last: nat)
    requires StrictWeakOrder(lt) && first <= firstCut <= middle <= secondCut < last <= |a|
    requires Sorted(lt, a[middle..last])
    requires forall k :: first <= k < firstCut ==> !lt(a[secondCut], a[k])
    requires forall k :: firstCut <= k < middle ==> lt(a[secondCut], a[k])
    ensures Cut(lt, a, first, firstCut, middle, secondCut, last)
  {
    hide StrictWeakOrder;
    var v := a[secondCut];
    Irreflexive(lt, v);
    forall k | middle <= k < secondCut ensures !lt(v, a[k]) {
      assert !lt(a[middle..last][secondCut - middle], a[middle..last][k - middle]);
    }
    forall k | secondCut <= k < last ensures !lt(a[k], v) {
      if k > secondCut { assert !lt(a[middle..last][k - middle], a[middle..last][secondCut - middle]); }
    }
    forall k | firstCut <= k < middle ensures !lt(a[k], v) {
      LessThenNotLess(lt, v, a[k]);
    }
    CutAround(lt, a, first, firstCut, middle, secondCut, last, v);
    forall i, j | middle <= i < secondCut && firstCut <= j < middle ensures lt(a[i], a[j]) {
      if !lt(a[i], a[j]) { NotLessTransitive(lt, v, a[i], a[j]); }
    }
  }

  // Everything in the first halves is not above v, and v is not above the second ones.
  lemma CutAround<T(!new)>(lt: Order<T>, a: seq<T>, first: nat, firstCut: nat, middle: nat, secondCut: nat, last: nat,
                           v: T)
    requires StrictWeakOrder(lt) && first <= firstCut <= middle <= secondCut <= last <= |a|
    requires forall k :: first <= k < firstCut || middle <= k < secondCut ==> !lt(v, a[k])
    requires forall k :: firstCut <= k < middle || secondCut <= k < last ==> !lt(a[k], v)
    ensures NotAbove(lt, a[first..firstCut] + a[middle..secondCut], a[firstCut..middle] + a[secondCut..last])
  {
    hide StrictWeakOrder;
    var l, r := a[first..firstCut] + a[middle..secondCut], a[firstCut..middle] + a[secondCut..last];
    forall i, j | 0 <= i < |l| && 0 <= j < |r| ensures !lt(r[j], l[i]) {
      assert !lt(v, l[i]) by {
        assert l[i] == a[if i < firstCut - first then first + i else middle + i - (firstCut - first)];
      }
      assert !lt(r[j], v) by {
        assert r[j] == a[if j < middle - firstCut then firstCut + j else secondCut + j - (middle - firstCut)];
      }
      NotLessTransitive(lt, r[j], v, l[i]);
    }
  }

  /** Two adjacent sorted pieces stay so when a rotation moves them. */
  lemma PiecesAfterRotation<T(!new)>(lt: Order<T>, a: seq<T>, b: seq<T>, first: nat, firstCut: nat, middle: nat,
                                     secondCut: nat, last: nat, newMiddle: nat)
    requires Cut(lt, a, first, firstCut, middle, secondCut, last) && b == Rotated(a, firstCut, middle, secondCut)
    requires newMiddle == firstCut + (secondCut - middle)
    requires Sorted(lt, a[first..middle]) && Sorted(lt, a[middle..last])
    ensures SameOutside(a, b, first, last)
    ensures b[first..firstCut] == a[first..firstCut] && b[firstCut..newMiddle] == a[middle..secondCut]
    ensures b[newMiddle..secondCut] == a[firstCut..middle] && b[secondCut..last] == a[secondCut..last]
    ensures Sorted(lt, b[first..firstCut]) && Sorted(lt, b[firstCut..newMiddle])
    ensures Sorted(lt, b[newMiddle..secondCut]) && Sorted(lt, b[secondCut..last])
  {
    hide Crosswise, Sorted;
    SlicesAfterRotation(a, b, first, firstCut, middle, secondCut, last, newMiddle);
    PartsSorted(lt, a, first, firstCut, middle);
    PartsSorted(lt, a, middle, secondCut, last);
  }

  lemma SlicesAfterRotation<T>(a: seq<T>, b: seq<T>, first: nat, firstCut: nat, middle: nat, secondCut: nat, last: nat,
                               newMiddle: nat)
    requires first <= firstCut <= middle <= secondCut <= last <= |a| && b == Rotated(a, firstCut, middle, secondCut)
    requires newMiddle == firstCut + (secondCut - middle)
    ensures SameOutside(a, b, first, last)
    ensures b[first..firstCut] == a[first..firstCut] && b[firstCut..newMiddle] == a[middle..secondCut]
    ensures b[newMiddle..secondCut] == a[firstCut..middle] && b[secondCut..last] == a[secondCut..last]
  {
  }

  lemma PartsSorted<T>(lt: Order<T>, a: seq<T>, first: nat, cut: nat, last: nat)
    requires first <= cut <= last <= |a| && Sorted(lt, a[first..last])
    ensures Sorted(lt, a[first..cut]) && Sorted(lt, a[cut..last])
  {
    assert a[first..cut] == a[first..last][..cut - first];
    assert a[cut..last] == a[first..last][cut - first..];
  }

  /** After both recursive calls the whole is sorted. */
  lemma PiecesMerged<T(!new)>(lt: Order<T>, a: seq<T>, b: seq<T>, c: seq<T>, first: nat, firstCut: nat, middle: nat,
                              secondCut: nat, last: nat, newMiddle: nat)
    requires StrictWeakOrder(lt) && Cut(lt, a, first, firstCut, middle, secondCut, last)
    requires |a| == |b| == |c| && newMiddle == firstCut + (secondCut - middle)
    requires b[first..firstCut] == a[first..firstCut] && b[firstCut..newMiddle] == a[middle..secondCut]
    requires b[newMiddle..secondCut] == a[firstCut..middle] && b[secondCut..last] == a[secondCut..last]
    requires c[first..newMiddle] == SortOf(lt, b[first..newMiddle])
    requires c[newMiddle..last] == SortOf(lt, b[newMiddle..last])
    ensures c[first..last] == SortOf(lt, a[first..last])
  {
    hide StrictWeakOrder, SortOf, Crosswise;
    var s1, s2, t1, t2 := a[first..firstCut], a[firstCut..middle], a[middle..secondCut], a[secondCut..last];
    assert a[first..last] == (s1 + s2) + (t1 + t2);
    assert b[first..newMiddle] == s1 + t1 && b[newMiddle..last] == s2 + t2;
    assert c[first..last] == c[first..newMiddle] + c[newMiddle..last];
    CrosswiseSorts(lt, s1, s2, t1, t2);
  }

  lemma SortedIsSortOf<T(!new)>(lt: Order<T>, s: seq<T>)
    requires StrictWeakOrder(lt) && Sorted(lt, s)
    ensures SortOf(lt, s) == s
  {
    hide StrictWeakOrder, SortOf;
    StableSortIsSortOf(lt, s, s);
  }

  lemma TwoSorted<T(!new)>(lt: Order<T>, x: T, y: T)
    requires StrictWeakOrder(lt)
    ensures SortOf(lt, [x, y]) == if lt(y, x) then [y, x] else [x, y]
  {
    hide StrictWeakOrder, SortOf;
    MergesAgree(lt, [x], [y]);
    assert [x] + [y] == [x, y] && [y] + [x] == [y, x];
  }

  // Where to cut two adjacent sorted ranges: the longer one in half, the other where the
  // element at that cut belongs.
  method FindCuts<T(!new)>(a: array<T>, first: nat, middle: nat, last: nat, len1: nat, len2: nat, lt: Order<T>)
    returns (firstCut: nat, secondCut: nat, len11: nat, len22: nat)
    requires StrictWeakOrder(lt) && first <= middle <= last <= a.Length
    requires Sorted(lt, a[..][first..middle]) && Sorted(lt, a[..][middle..last])
    requires len1 == middle - first && len2 == last - middle && len1 > 0 && len2 > 0 && len1 + len2 > 2
    ensures Cut(lt, a[..], first, firstCut, middle, secondCut, last)
    ensures len11 == firstCut - first && len22 == secondCut - middle
    ensures 0 < len11 + len22 < len1 + len2
  {
    hide StrictWeakOrder, Sorted, Crosswise;
    firstCut, secondCut, len11, len22 := first, middle, 0, 0;
    if len1 > len2 {
      len11 := len1 / 2;
      firstCut := firstCut + len11;
      secondCut := LowerBound(a, middle, last, a[firstCut], lt);
      len22 := secondCut - middle;
      CutByFirst(lt, a[..], first, firstCut, middle, secondCut, last);
    } else {
      len22 := len2 / 2;
      secondCut := secondCut + len22;
      firstCut := UpperBound(a, first, middle, a[secondCut], lt);
      len11 := firstCut - first;
      CutBySecond(lt, a[..], first, firstCut, middle, secondCut, last);
    }
  }

  // __merge_without_buffer
  method MergeWithoutBuffer<T(!new)>(a: array<T>, first: nat, middle: nat, last: nat, len1: nat, len2: nat,
                                     lt: Order<T>)
    requires StrictWeakOrder(lt) && first <= middle <= last <= a.Length
    requires Sorted(lt, a[..][first..middle]) && Sorted(lt, a[..][middle..last])
    requires len1 == middle - first && len2 == last - middle
    modifies a
    ensures a[..][first..last] == SortOf(lt, old(a[..])[first..last])
    ensures SameOutside(old(a[..]), a[..], first, last)
    decreases len1 + len2
  {
    hide StrictWeakOrder, Sorted, SortOf, Crosswise, Cut, Rotated;
    ghost var all := a[..];
    if len1 == 0 || len2 == 0 {
      assert all[first..last] == if len1 == 0 then all[middle..last] else all[first..middle];
      SortedIsSortOf(lt, all[first..last]);
      return;
    }
    if len1 + len2 == 2 {
      assert all[first..last] == [all[first], all[middle]];
      TwoSorted(lt, all[first], all[middle]);
      if lt(a[middle], a[first]) {
        a[first], a[middle] := a[middle], a[first];
        assert a[..][first..last] == [all[middle], all[first]];
      }
      return;
    }
    var firstCut, secondCut, len11, len22 := FindCuts(a, first, middle, last, len1, len2, lt);
    CutBounds(lt, all, first, firstCut, middle, secondCut, last);
    var newMiddle := RotateBidirectional(a, firstCut, middle, secondCut);
    ghost var b := a[..];
    PiecesAfterRotation(lt, all, b, first, firstCut, middle, secondCut, last, newMiddle);
    MergeWithoutBuffer(a, first, firstCut, newMiddle, len11, len22, lt);
    ghost var c := a[..];
    Untouched(b, c, first, newMiddle, newMiddle, secondCut);
    Untouched(b, c, first, newMiddle, secondCut, last);
    Untouched(b, c, first, newMiddle, newMiddle, last);
    MergeWithoutBuffer(a, newMiddle, secondCut, last, len1 - len11, len2 - len22, lt);
    Untouched(c, a[..], newMiddle, last, first, newMiddle);
    PiecesMerged(lt, all, b, a[..], first, firstCut, middle, secondCut, last, newMiddle);
    OutsideOfBoth(all, b, c, a[..], first, newMiddle, last);
  }

  lemma CutBounds<T>(lt: Order<T>, a: seq<T>, first: nat, firstCut: nat, middle: nat, secondCut: nat, last: nat)
    requires Cut(lt, a, first, firstCut, middle, secondCut, last)
    ensures first <= firstCut <= middle <= secondCut <= last <= |a|
  {
  }

  lemma Untouched<T>(s: seq<T>, t: seq<T>, lo: nat, hi: nat, i: nat, j: nat)
    requires SameOutside(s, t, lo, hi) && i <= j <= |s| && (j <= lo || hi <= i)
    ensures t[i..j] == s[i..j]
  {
  }

  lemma OutsideOfBoth<T>(a: seq<T>, b: seq<T>, c: seq<T>, d: seq<T>, first: nat, middle: nat, last: nat)
    requires first <= middle <= last
    requires SameOutside(a, b, first, last) && SameOutside(b, c, first, middle) && SameOutside(c, d, middle, last)
    ensures SameOutside(a, d, first, last)
  {
  }

  // __inplace_stable_sort
  method InplaceStableSort<T(!new)>(a: array<T>, first: nat, last: nat, lt: Order<T>)
    requires StrictWeakOrder(lt) && first <= last <= a.Length
    modifies a
    ensures a[..][first..last] == SortOf(lt, old(a[..])[first..last])
    ensures SameOutside(old(a[..]), a[..], first, last)
    decreases last - first
  {
    hide StrictWeakOrder, Sorted, SortOf;
    if last - first < 15 {
      InsertionSort(a, first, last, lt);
      return;
    }
    ghost var all := a[..];
    var middle := first + (last - first) / 2;
    InplaceStableSort(a, first, middle, lt);
    ghost var b := a[..];
    Untouched(all, b, first, middle, middle, last);
    InplaceStableSort(a, middle, last, lt);
    ghost var c := a[..];
    Untouched(b, c, middle, last, first, middle);
    HalvesSorted(lt, all, c, first, middle, last);
    MergeWithoutBuffer(a, first, middle, last, middle - first, last - middle, lt);
    OutsideOfAll(all, b, c, a[..], first, middle, last);
  }

  lemma OutsideOfAll<T>(a: seq<T>, b: seq<T>, c: seq<T>, d: seq<T>, first: nat, middle: nat, last: nat)
    requires first <= middle <= last
    requires SameOutside(a, b, first, middle) && SameOutside(b, c, middle, last) && SameOutside(c, d, first, last)
    ensures SameOutside(a, d, first, last)
  {
  }

  /** Sorting two parts first does not change what the whole sorts to. */
  lemma SortPartsFirst<T(!new)>(lt: Order<T>, s: seq<T>, t: seq<T>)
    requires StrictWeakOrder(lt)
    ensures SortOf(lt, SortOf(lt, s) + SortOf(lt, t)) == SortOf(lt, s + t)
    ensures Merge(lt, SortOf(lt, s), SortOf(lt, t)) == MergeBack(lt, SortOf(lt, s), SortOf(lt, t)) == SortOf(lt, s + t)
  {
    hide StrictWeakOrder, SortOf, Class, Sorted;
    SortOfSorts(lt, s);
    SortOfSorts(lt, t);
    var u := SortOf(lt, s) + SortOf(lt, t);
    SortOfSorts(lt, u);
    forall x ensures Class(lt, x, s + t) == Class(lt, x, SortOf(lt, u)) {
      assert Class(lt, x, u) == Class(lt, x, SortOf(lt, u));
      assert Class(lt, x, s) == Class(lt, x, SortOf(lt, s)) && Class(lt, x, t) == Class(lt, x, SortOf(lt, t));
      ClassConcat(lt, x, s, t);
      ClassConcat(lt, x, SortOf(lt, s), SortOf(lt, t));
    }
    StableSortIsSortOf(lt, s + t, SortOf(lt, u));
    MergesAgree(lt, SortOf(lt, s), SortOf(lt, t));
  }

  lemma HalvesSorted<T(!new)>(lt: Order<T>, a: seq<T>, c: seq<T>, first: nat, middle: nat, last: nat)
    requires StrictWeakOrder(lt) && first <= middle <= last <= |a| == |c|
    requires c[first..middle] == SortOf(lt, a[first..middle]) && c[middle..last] == SortOf(lt, a[middle..last])
    ensures Sorted(lt, c[first..middle]) && Sorted(lt, c[middle..last])
    ensures SortOf(lt, c[first..last]) == SortOf(lt, a[first..last])
  {
    hide *;
    SortOfSorts(lt, a[first..middle]);
    SortOfSorts(lt, a[middle..last]);
    SortPartsFirst(lt, a[first..middle], a[middle..last]);
    assert a[first..last] == a[first..middle] + a[middle..last];
    assert c[first..last] == c[first..middle] + c[middle..last];
  }
}
