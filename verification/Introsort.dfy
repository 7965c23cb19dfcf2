/** sort, partial_sort and nth_element. */
module Introsort {
  import opened Ordering
  import opened Insertion
  import opened Heap
  import opened Selection

  const THRESHOLD := 16

  // ----- partition around a pivot -----

  // __median
  function Median<T>(lt: Order<T>, a: T, b: T, c: T): T {
    if lt(a, b) then
      if lt(b, c) then b else if lt(a, c) then c else a
    else if lt(a, c) then a
    else if lt(b, c) then c
    else b
  }

  /** The median is one of the three, and even when it is the first, one of the others is not above it. */
  lemma MedianStops<T(!new)>(lt: Order<T>, a: T, b: T, c: T) returns (above: nat, below: nat)
    requires StrictWeakOrder(lt)
    ensures above <= 2 && !lt([a, b, c][above], Median(lt, a, b, c))
    ensures 1 <= below <= 2 && !lt(Median(lt, a, b, c), [a, b, c][below])
  {
    hide StrictWeakOrder;
    var m := Median(lt, a, b, c);
    Irreflexive(lt, m);
    if lt(a, b) {
      above := if lt(b, c) then 1 else if lt(a, c) then 2 else 0;
      below := if lt(b, c) then 1 else 2;
    } else {
      above := if lt(a, c) then 0 else if lt(b, c) then 2 else 1;
      below := if lt(a, c) then 1 else if lt(b, c) then 2 else 1;
    }
  }

  ghost predicate AllNotAbove<T>(lt: Order<T>, s: seq<T>, lo: int, hi: int, pivot: T) {
    0 <= lo <= hi <= |s| && forall i :: lo <= i < hi ==> !lt(pivot, s[i])
  }

  ghost predicate AllNotBelow<T>(lt: Order<T>, s: seq<T>, lo: int, hi: int, pivot: T) {
    0 <= lo <= hi <= |s| && forall i :: lo <= i < hi ==> !lt(s[i], pivot)
  }

  // __unguarded_partition: p and q say where the first two scans stop at the latest; after
  // an exchange, the exchanged elements stop the next scans.
  method UnguardedPartition<T(!new)>(a: array<T>, first: nat, last: nat, pivot: T, lt: Order<T>, ghost p: nat,
                                     ghost q: nat)
    returns (cut: nat)
    requires StrictWeakOrder(lt) && last <= a.Length
    requires first <= p < last && !lt(a[p], pivot)
    requires first < q < last && !lt(pivot, a[q])
    modifies a
    ensures first < cut < last
    ensures AllNotAbove(lt, a[..], first, cut, pivot) && AllNotBelow(lt, a[..], cut, last, pivot)
    ensures PermutedWithin(old(a[..]), a[..], first, last)
  {
    hide *;
    var f: nat, l: nat := first, last;
    ghost var stopUp, stopDown := p, q;
    ghost var all := a[..];
    PermutedSame(all, first, last);
    NothingSplit(lt, all, first, last, pivot, p, q);
    while true
      invariant first <= f <= l <= last && l <= a.Length && Split(lt, a[..], first, f, l, last, pivot)
      invariant Stops(lt, a[..], first, f, l, last, pivot, stopUp, stopDown)
      invariant PermutedWithin(all, a[..], first, last)
      decreases l - f
    {
      ghost var f0, l0, w := f, l, a[..];
      f, l := Scan(a, first, f, l, last, pivot, lt, stopUp, stopDown);
      if !(f < l) {
        CutHere(lt, w, first, f0, f, l, l0, last, pivot, stopUp, stopDown);
        return f;
      }
      ghost var u := w[f := w[l]][l := w[f]];
      Exchange(lt, w, u, first, f0, f, l, l0, last, pivot, stopUp, stopDown);
      SwapPermutes(w, first, last, f, l);
      PermutedTransitive(all, w, u, first, last);
      IterSwap(a, f, l);
      assert a[..] == u;
      stopDown, stopUp := f, l;
      f := f + 1;
    }
  }

  // What has been scanned is on the right side of the pivot.
  ghost predicate Split<T>(lt: Order<T>, s: seq<T>, first: nat, f: nat, l: nat, last: nat, pivot: T) {
    AllNotAbove(lt, s, first, f, pivot) && AllNotBelow(lt, s, l, last, pivot)
  }

  // Both scans will stop within the range; before the first exchange, not both at once at first.
  ghost predicate Stops<T>(lt: Order<T>, s: seq<T>, first: nat, f: nat, l: nat, last: nat, pivot: T, up: nat,
                           down: nat) {
    && f <= up < last <= |s| && !lt(s[up], pivot)
    && first <= down < l <= last && !lt(pivot, s[down])
    && (f == first ==> l == last && first < down)
    && (f > first ==> l < last && up == l)
  }

  lemma NothingSplit<T>(lt: Order<T>, s: seq<T>, first: nat, last: nat, pivot: T, up: nat, down: nat)
    requires first <= up < last <= |s| && !lt(s[up], pivot) && first < down < last && !lt(pivot, s[down])
    ensures Split(lt, s, first, first, last, last, pivot) && Stops(lt, s, first, first, last, last, pivot, up, down)
  {
  }

  // Both scans are stopped by an element on their way.
  lemma ScansStop<T>(lt: Order<T>, s: seq<T>, first: nat, f: nat, l: nat, last: nat, pivot: T, up: nat, down: nat)
    requires Split(lt, s, first, f, l, last, pivot) && Stops(lt, s, first, f, l, last, pivot, up, down)
    ensures f <= up < last && !lt(s[up], pivot) && AllNotAbove(lt, s, first, f, pivot)
    ensures down < l && !lt(pivot, s[down]) && AllNotBelow(lt, s, l, last, pivot)
  {
  }

  // The two scans, and where they stop.
  method Scan<T(!new)>(a: array<T>, ghost first: nat, f0: nat, l0: nat, ghost last: nat, pivot: T, lt: Order<T>,
                       ghost up: nat, ghost down: nat)
    returns (f: nat, l: nat)
    requires StrictWeakOrder(lt) && first <= f0 <= l0 <= last <= a.Length
    requires Split(lt, a[..], first, f0, l0, last, pivot) && Stops(lt, a[..], first, f0, l0, last, pivot, up, down)
    ensures Scanned(lt, a[..], first, f0, f, l, l0, last, pivot, up, down)
    ensures f0 <= f < last && l < l0
  {
    hide StrictWeakOrder, Split, Stops, AllNotAbove, AllNotBelow;
    ScansStop(lt, a[..], first, f0, l0, last, pivot, up, down);
    f := ScanUp(a, first, f0, pivot, lt, up);
    l := ScanDown(a, l0 - 1, last, pivot, lt, down);
  }

  ghost predicate Scanned<T>(lt: Order<T>, s: seq<T>, first: nat, f0: nat, f: nat, l: nat, l0: nat, last: nat, pivot: T,
                             up: nat, down: nat) {
    && Stops(lt, s, first, f0, l0, last, pivot, up, down) && first <= f0 <= f <= up < |s| && down <= l < l0 <= |s|
    && AllNotAbove(lt, s, first, f, pivot) && !lt(s[f], pivot)
    && AllNotBelow(lt, s, l + 1, last, pivot) && !lt(pivot, s[l])
  }

  // The range is cut where they stop, or the two elements are exchanged.
  lemma CutHere<T>(lt: Order<T>, s: seq<T>, first: nat, f0: nat, f: nat, l: nat, l0: nat, last: nat, pivot: T, up: nat,
                   down: nat)
    requires Scanned(lt, s, first, f0, f, l, l0, last, pivot, up, down) && l <= f
    ensures first < f < last && AllNotAbove(lt, s, first, f, pivot) && AllNotBelow(lt, s, f, last, pivot)
  {
  }

  lemma Exchange<T>(lt: Order<T>, s: seq<T>, u: seq<T>, first: nat, f0: nat, f: nat, l: nat, l0: nat, last: nat,
                    pivot: T, up: nat, down: nat)
    requires Scanned(lt, s, first, f0, f, l, l0, last, pivot, up, down) && f < l < |s| && u == s[f := s[l]][l := s[f]]
    ensures Split(lt, u, first, f + 1, l, last, pivot)
    ensures Stops(lt, u, first, f + 1, l, last, pivot, l, f)
  {
  }

  method ScanUp<T(!new)>(a: array<T>, ghost first: nat, from: nat, pivot: T, lt: Order<T>,
                         ghost stop: nat) returns (f: nat)
    requires StrictWeakOrder(lt) && from <= stop < a.Length && !lt(a[stop], pivot)
    requires AllNotAbove(lt, a[..], first, from, pivot)
    ensures from <= f <= stop && AllNotAbove(lt, a[..], first, f, pivot) && !lt(a[f], pivot)
  {
    hide StrictWeakOrder;
    f := from;
    while lt(a[f], pivot)
      invariant from <= f <= stop && AllNotAbove(lt, a[..], first, f, pivot)
      decreases stop - f
    {
      LessThenNotLess(lt, a[f], pivot);
      f := f + 1;
    }
  }

  method ScanDown<T(!new)>(a: array<T>, from: nat, ghost last: nat, pivot: T, lt: Order<T>,
                           ghost stop: nat) returns (l: nat)
    requires StrictWeakOrder(lt) && stop <= from < last <= a.Length && !lt(pivot, a[stop])
    requires AllNotBelow(lt, a[..], from + 1, last, pivot)
    ensures stop <= l <= from && AllNotBelow(lt, a[..], l + 1, last, pivot) && !lt(pivot, a[l])
  {
    hide StrictWeakOrder;
    l := from;
    while lt(pivot, a[l])
      invariant stop <= l <= from && AllNotBelow(lt, a[..], l + 1, last, pivot)
      decreases l
    {
      LessThenNotLess(lt, pivot, a[l]);
      l := l - 1;
    }
  }

  // The call of __unguarded_partition that sort and nth_element make.
  method MedianPartition<T(!new)>(a: array<T>, first: nat, last: nat, lt: Order<T>) returns (cut: nat)
    requires StrictWeakOrder(lt) && first + 3 <= last <= a.Length
    modifies a
    ensures first < cut < last
    ensures NotAbove(lt, a[..][first..cut], a[..][cut..last])
    ensures PermutedWithin(old(a[..]), a[..], first, last)
  {
    hide StrictWeakOrder, PermutedWithin, Median, NotAbove;
    var middle := first + (last - first) / 2;
    var pivot := Median(lt, a[first], a[middle], a[last - 1]);
    ghost var above, below := MedianStops(lt, a[first], a[middle], a[last - 1]);
    ghost var where := [first, middle, last - 1];
    cut := UnguardedPartition(a, first, last, pivot, lt, where[above], where[below]);
    SplitAtPivot(lt, a[..], first, cut, last, pivot);
  }

  lemma SplitAtPivot<T(!new)>(lt: Order<T>, s: seq<T>, first: nat, cut: nat, last: nat, pivot: T)
    requires StrictWeakOrder(lt) && AllNotAbove(lt, s, first, cut, pivot) && AllNotBelow(lt, s, cut, last, pivot)
    ensures NotAbove(lt, s[first..cut], s[cut..last])
  {
    hide StrictWeakOrder;
    var t, u := s[first..cut], s[cut..last];
    forall i, j | 0 <= i < |t| && 0 <= j < |u| ensures !lt(u[j], t[i]) {
      NotLessTransitive(lt, s[cut + j], pivot, s[first + i]);
    }
  }

  // ----- partial_sort -----

  // __partial_sort
  method PartialSort<T(!new)>(a: array<T>, first: nat, middle: nat, last: nat, lt: Order<T>)
    requires StrictWeakOrder(lt) && first <= middle <= last <= a.Length
    modifies a
    ensures Sorted(lt, a[..][first..middle]) && NotAbove(lt, a[..][first..middle], a[..][middle..last])
    ensures PermutedWithin(old(a[..]), a[..], first, last)
  {
    hide StrictWeakOrder, HeapFrom, PermutedWithin, NotAbove, Sorted;
    ghost var all := a[..];
    MakeHeap(a, first, middle, lt);
    PermutedWider(all, a[..], first, middle, first, last);
    NotAboveEmpty(lt, a[..], first, middle);
    for i := middle to last
      invariant IsHeap(lt, a[..][first..middle]) && NotAbove(lt, a[..][first..middle], a[..][middle..i])
      invariant PermutedWithin(all, a[..], first, last)
    {
      ghost var w := a[..];
      if lt(a[i], a[first]) {
        PopHeapTo(a, first, middle, i, a[i], lt);
        PermutedWider(w, a[..], first, i + 1, first, last);
        PermutedTransitive(all, w, a[..], first, last);
        ReplacedTop(lt, w, a[..], first, middle, i);
      } else {
        KeptOut(lt, w, first, middle, i);
      }
    }
    ghost var w := a[..];
    SortHeap(a, first, middle, lt);
    NotAboveAfterSort(lt, w, a[..], first, middle, last);
    PermutedWider(w, a[..], first, middle, first, last);
    PermutedTransitive(all, w, a[..], first, last);
  }

  lemma NotAboveEmpty<T>(lt: Order<T>, s: seq<T>, first: nat, middle: nat)
    requires first <= middle <= |s|
    ensures NotAbove(lt, s[first..middle], s[middle..middle])
  {
  }

  lemma NotAboveAfterSort<T>(lt: Order<T>, w: seq<T>, u: seq<T>, first: nat, middle: nat, last: nat)
    requires first <= middle <= last <= |w| && PermutedWithin(w, u, first, middle)
    requires NotAbove(lt, w[first..middle], w[middle..last])
    ensures NotAbove(lt, u[first..middle], u[middle..last])
  {
    assert u[middle..last] == w[middle..last];
    NotAbovePermuted(lt, w[first..middle], w[middle..last], u[first..middle], u[middle..last]);
  }

  lemma KeptOut<T(!new)>(lt: Order<T>, w: seq<T>, first: nat, middle: nat, i: nat)
    requires StrictWeakOrder(lt) && first <= middle <= i < |w| && !lt(w[i], w[first])
    requires IsHeap(lt, w[first..middle]) && NotAbove(lt, w[first..middle], w[middle..i])
    ensures NotAbove(lt, w[first..middle], w[middle..i + 1])
  {
    hide StrictWeakOrder, HeapFrom;
    var h, t := w[first..middle], w[middle..i + 1];
    forall k, m | 0 <= k < |h| && 0 <= m < |t| ensures !lt(t[m], h[k]) {
      if m < i - middle {
        assert t[m] == w[middle..i][m];
      } else {
        HeapTop(lt, h, k);
        NotLessTransitive(lt, w[i], w[first], h[k]);
      }
    }
  }

  lemma ReplacedTop<T(!new)>(lt: Order<T>, w: seq<T>, u: seq<T>, first: nat, middle: nat, i: nat)
    requires StrictWeakOrder(lt) && first <= middle <= i < |w| == |u| && lt(w[i], w[first])
    requires IsHeap(lt, w[first..middle]) && NotAbove(lt, w[first..middle], w[middle..i])
    requires first < i ==> u[i] == w[first]
    requires first < middle ==>
      && Elements(u[first..middle]) == Filled(w[first..middle], 0, w[i])
      && forall k :: 0 <= k < |w| && !(first <= k < middle) && k != i ==> u[k] == w[k]
    ensures NotAbove(lt, u[first..middle], u[middle..i + 1])
  {
    hide StrictWeakOrder, HeapFrom;
    if first < middle {
      var g, h, t := w[first..middle], u[first..middle], u[middle..i + 1];
      forall k, m | 0 <= k < |h| && 0 <= m < |t| ensures !lt(t[m], h[k]) {
        assert h[k] in multiset(g[0 := w[i]]);
        var n :| 0 <= n < |g| && g[0 := w[i]][n] == h[k];
        LessThenNotLess(lt, w[i], w[first]);
        HeapTop(lt, g, n);
        if m < i - middle {
          assert t[m] == w[middle..i][m];
          assert !lt(t[m], g[n]) && !lt(t[m], g[0]);
          NotLessTransitive(lt, t[m], g[0], h[k]);
        }
      }
    }
  }

  // ----- sort -----

  // Elements that are at least THRESHOLD positions apart are in order.
  ghost predicate RoughlySorted<T>(lt: Order<T>, s: seq<T>) {
    forall i, j :: 0 <= i && i + THRESHOLD <= j < |s| ==> !lt(s[j], s[i])
  }

  // Consecutive blocks, each of at most THRESHOLD elements or sorted, and none above the next.
  ghost predicate InBlocks<T>(lt: Order<T>, s: seq<T>)
    decreases |s|
  {
    || |s| <= THRESHOLD
    || Sorted(lt, s)
    || exists k :: 0 < k < |s| && NotAbove(lt, s[..k], s[k..]) && InBlocks(lt, s[..k]) && InBlocks(lt, s[k..])
  }

  // __introsort_loop
  method IntrosortLoop<T(!new)>(a: array<T>, first: nat, last: nat, depthLimit: nat, lt: Order<T>)
    requires StrictWeakOrder(lt) && first <= last <= a.Length
    modifies a
    ensures InBlocks(lt, a[..][first..last])
    ensures PermutedWithin(old(a[..]), a[..], first, last)
    decreases last - first
  {
    hide StrictWeakOrder, PermutedWithin, NotAbove, InBlocks, Sorted;
    ghost var all := a[..];
    var end, limit := last, depthLimit;
    PermutedSame(all, first, last);
    NotAboveEmpty(lt, all, first, last);
    FewAreABlock(lt, all[last..last]);
    while end - first > THRESHOLD
      invariant first <= end <= last
      invariant InBlocks(lt, a[..][end..last]) && NotAbove(lt, a[..][first..end], a[..][end..last])
      invariant PermutedWithin(all, a[..], first, last)
      decreases end
    {
      ghost var w := a[..];
      if limit == 0 {
        PartialSort(a, first, end, end, lt);
        SortedIsABlock(lt, a[..][first..end]);
        LoopStep(lt, all, w, a[..], first, first, end, last);
        return;
      }
      limit := limit - 1;
      var cut := MedianPartition(a, first, end, lt);
      ghost var u := a[..];
      LoopCut(lt, all, w, u, first, cut, end, last);
      IntrosortLoop(a, cut, end, limit, lt);
      LoopStep(lt, all, u, a[..], first, cut, end, last);
      end := cut;
    }
    FewAreABlock(lt, a[..][first..end]);
    JoinBlocks(lt, a[..], first, end, last);
  }

  lemma FewAreABlock<T>(lt: Order<T>, s: seq<T>)
    requires |s| <= THRESHOLD
    ensures InBlocks(lt, s)
  {
  }

  lemma SortedIsABlock<T>(lt: Order<T>, s: seq<T>)
    requires Sorted(lt, s)
    ensures InBlocks(lt, s)
  {
  }

  lemma JoinBlocks<T>(lt: Order<T>, s: seq<T>, first: nat, cut: nat, last: nat)
    requires first <= cut <= last <= |s|
    requires InBlocks(lt, s[first..cut]) && InBlocks(lt, s[cut..last])
    requires NotAbove(lt, s[first..cut], s[cut..last])
    ensures InBlocks(lt, s[first..last])
  {
    hide NotAbove, Sorted;
    var t, k := s[first..last], cut - first;
    assert t[..k] == s[first..cut] && t[k..] == s[cut..last];
    if k == 0 {
      assert t[k..] == t;
    } else if k == |t| {
      assert t[..k] == t;
    }
  }

  /** In blocks, elements that are far apart are in order. */
  lemma {:induction false} BlocksRoughlySorted<T>(lt: Order<T>, s: seq<T>)
    requires InBlocks(lt, s)
    ensures RoughlySorted(lt, s)
    decreases |s|
  {
    if |s| > THRESHOLD && !Sorted(lt, s) {
      hide Sorted;
      var k :| 0 < k < |s| && NotAbove(lt, s[..k], s[k..]) && InBlocks(lt, s[..k]) && InBlocks(lt, s[k..]);
      BlocksRoughlySorted(lt, s[..k]);
      BlocksRoughlySorted(lt, s[k..]);
      RoughlyJoined(lt, s, k);
    }
  }

  lemma RoughlyJoined<T>(lt: Order<T>, s: seq<T>, k: nat)
    requires k <= |s| && NotAbove(lt, s[..k], s[k..]) && RoughlySorted(lt, s[..k]) && RoughlySorted(lt, s[k..])
    ensures RoughlySorted(lt, s)
  {
    var l, r := s[..k], s[k..];
    forall i, j | 0 <= i && i + THRESHOLD <= j < |s| ensures !lt(s[j], s[i]) {
      if j < k {
        assert !lt(l[j], l[i]);
      } else if i < k {
        assert !lt(r[j - k], l[i]);
      } else {
        assert !lt(r[j - k], r[i - k]);
      }
    }
  }

  // u is w after the partition of the part before end.
  lemma LoopCut<T>(lt: Order<T>, all: seq<T>, w: seq<T>, u: seq<T>, first: nat, cut: nat, end: nat, last: nat)
    requires first <= cut <= end <= last <= |w|
    requires PermutedWithin(all, w, first, last) && PermutedWithin(w, u, first, end)
    requires InBlocks(lt, w[end..last]) && NotAbove(lt, w[first..end], w[end..last])
    requires NotAbove(lt, u[first..cut], u[cut..end])
    ensures PermutedWithin(all, u, first, last) && InBlocks(lt, u[end..last])
    ensures NotAbove(lt, u[first..end], u[end..last]) && NotAbove(lt, u[first..cut], u[cut..end])
  {
    assert u[end..last] == w[end..last];
    hide InBlocks;
    NotAboveAfterSort(lt, w, u, first, end, last);
    PermutedWider(w, u, first, end, first, last);
    PermutedTransitive(all, w, u, first, last);
  }

  // v is u after the part from cut to end has been sorted roughly.
  lemma LoopStep<T>(lt: Order<T>, all: seq<T>, u: seq<T>, v: seq<T>, first: nat, cut: nat, end: nat, last: nat)
    requires first <= cut <= end <= last <= |u|
    requires PermutedWithin(all, u, first, last) && PermutedWithin(u, v, cut, end)
    requires InBlocks(lt, u[end..last]) && NotAbove(lt, u[first..end], u[end..last])
    requires first < cut ==> NotAbove(lt, u[first..cut], u[cut..end])
    requires InBlocks(lt, v[cut..end])
    ensures PermutedWithin(all, v, first, last) && InBlocks(lt, v[cut..last])
    ensures NotAbove(lt, v[first..cut], v[cut..last])
  {
    PermutedWider(u, v, cut, end, first, last);
    PermutedTransitive(all, u, v, first, last);
    PermutedWider(u, v, cut, end, first, end);
    NotAboveAfterSort(lt, u, v, first, end, last);
    assert v[end..last] == u[end..last] && v[first..cut] == u[first..cut];
    if first < cut {
      NotAbovePermuted(lt, u[first..cut], u[cut..end], v[first..cut], v[cut..end]);
    }
    var f, g, h := v[first..end], v[cut..end], v[end..last];
    assert g == f[cut - first..];
    assert NotAbove(lt, g, h);
    JoinBlocks(lt, v, cut, end, last);
    var t, c := v[cut..last], v[first..cut];
    forall i, j | 0 <= i < |c| && 0 <= j < |t| ensures !lt(t[j], c[i]) {
      if j < |g| {
        assert !lt(g[j], c[i]);
      } else {
        assert !lt(h[j - |g|], f[i]);
      }
    }
  }

  // __final_insertion_sort
  method FinalInsertionSort<T(!new)>(a: array<T>, first: nat, last: nat, lt: Order<T>)
    requires StrictWeakOrder(lt) && first <= last <= a.Length && RoughlySorted(lt, a[..][first..last])
    modifies a
    ensures Sorted(lt, a[..][first..last]) && PermutedWithin(old(a[..]), a[..], first, last)
  {
    hide StrictWeakOrder, PermutedWithin, RoughlySorted, Sorted, SortOf;
    ghost var all := a[..];
    if last - first > THRESHOLD {
      InsertionSort(a, first, first + THRESHOLD, lt);
      ghost var w := a[..];
      SortOfSorts(lt, all[first..first + THRESHOLD]);
      FirstIsStopper(lt, all, w, first, last);
      UnguardedInsertionSort(a, first, first + THRESHOLD, last, lt);
      PermutedTransitive(all, w, a[..], first, last);
    } else {
      InsertionSort(a, first, last, lt);
      SortOfSorts(lt, all[first..last]);
      SortedPermutes(all, a[..], first, last);
    }
  }

  lemma SortedPermutes<T>(all: seq<T>, w: seq<T>, first: nat, last: nat)
    requires first <= last <= |all| && SameOutside(all, w, first, last)
    requires multiset(w[first..last]) == multiset(all[first..last])
    ensures PermutedWithin(all, w, first, last)
  {
  }

  /** The least of the first THRESHOLD elements is not above any of the others. */
  lemma FirstIsStopper<T(!new)>(lt: Order<T>, all: seq<T>, w: seq<T>, first: nat, last: nat)
    requires StrictWeakOrder(lt) && first + THRESHOLD < last <= |all| && RoughlySorted(lt, all[first..last])
    requires SameOutside(all, w, first, first + THRESHOLD) && Sorted(lt, w[first..first + THRESHOLD])
    requires multiset(w[first..first + THRESHOLD]) == multiset(all[first..first + THRESHOLD])
    ensures PermutedWithin(all, w, first, last)
    ensures forall i :: first + THRESHOLD <= i < last ==> !lt(w[i], w[first])
  {
    hide StrictWeakOrder;
    SortedPermutes(all, w, first, first + THRESHOLD);
    PermutedWider(all, w, first, first + THRESHOLD, first, last);
    var s := w[first..first + THRESHOLD];
    assert all[first] == all[first..first + THRESHOLD][0];
    assert all[first] in multiset(s);
    var k :| 0 <= k < |s| && s[k] == all[first];
    Irreflexive(lt, s[0]);
    assert !lt(s[k], s[0]);
    forall i | first + THRESHOLD <= i < last ensures !lt(w[i], w[first]) {
      assert w[i] == all[first..last][i - first];
      assert !lt(all[first..last][i - first], all[first..last][0]);
      NotLessTransitive(lt, w[i], s[k], s[0]);
    }
  }

  // __lg
  method Lg(n0: nat) returns (k: nat)
    requires n0 > 0
    ensures Pow2(k) <= n0 < Pow2(k + 1)
  {
    var n := n0;
    k := 0;
    while n != 1
      invariant 0 < n && n * Pow2(k) <= n0 < (n + 1) * Pow2(k)
    {
      HalveBounds(n, Pow2(k), n0);
      n := n / 2;
      k := k + 1;
    }
  }

  lemma HalveBounds(n: nat, p: nat, n0: nat)
    requires n * p <= n0 < (n + 1) * p
    ensures n / 2 * (2 * p) <= n0 < (n / 2 + 1) * (2 * p)
  {
    var h := n / 2;
    if n == 2 * h {
      assert h * (2 * p) == n * p && (h + 1) * (2 * p) == (n + 1) * p + p;
    } else {
      assert n == 2 * h + 1;
      assert h * (2 * p) == n * p - p && (h + 1) * (2 * p) == (n + 1) * p;
    }
  }

  // sort
  method Sort<T(!new)>(a: array<T>, first: nat, last: nat, lt: Order<T>)
    requires StrictWeakOrder(lt) && first <= last <= a.Length
    modifies a
    ensures Sorted(lt, a[..][first..last]) && PermutedWithin(old(a[..]), a[..], first, last)
  {
    hide StrictWeakOrder, RoughlySorted, PermutedWithin, InBlocks;
    ghost var all := a[..];
    PermutedSame(all, first, last);
    if first != last {
      var lg := Lg(last - first);
      IntrosortLoop(a, first, last, lg * 2, lt);
      ghost var w := a[..];
      BlocksRoughlySorted(lt, w[first..last]);
      FinalInsertionSort(a, first, last, lt);
      PermutedTransitive(all, w, a[..], first, last);
    }
  }

  // ----- nth_element -----

  // __nth_element: the element at nth is the one a full sort would put there.
  method NthElement<T(!new)>(a: array<T>, first: nat, nth: nat, last: nat, lt: Order<T>)
    requires StrictWeakOrder(lt) && first <= nth <= last <= a.Length
    modifies a
    ensures PermutedWithin(old(a[..]), a[..], first, last)
    ensures nth < last ==> AllNotAbove(lt, a[..], first, nth, a[nth]) && AllNotBelow(lt, a[..], nth, last, a[nth])
    ensures nth < last ==> InSortedPlace(lt, old(a[..])[first..last], nth - first, a[nth])
  {
    hide StrictWeakOrder, PermutedWithin, NotAbove, SortOf, InSortedPlace;
    ghost var all := a[..];
    var lo, hi := first, last;
    PermutedSame(all, first, last);
    WholeWindow(lt, all, first, last);
    while hi - lo > 3
      invariant first <= lo <= nth <= hi <= last && (nth < last ==> nth < hi)
      invariant PermutedWithin(all, a[..], first, last)
      invariant NotAbove(lt, a[..][first..lo], a[..][lo..last]) && NotAbove(lt, a[..][first..hi], a[..][hi..last])
      decreases hi - lo
    {
      ghost var w := a[..];
      var cut := MedianPartition(a, lo, hi, lt);
      WindowStep(lt, w, a[..], first, lo, cut, hi, last);
      PermutedWider(w, a[..], lo, hi, first, last);
      PermutedTransitive(all, w, a[..], first, last);
      if cut <= nth {
        lo := cut;
      } else {
        hi := cut;
      }
    }
    ghost var w := a[..];
    InsertionSort(a, lo, hi, lt);
    SortOfSorts(lt, w[lo..hi]);
    SortedPermutes(w, a[..], lo, hi);
    if nth < last {
      WindowSorted(lt, w, a[..], first, lo, nth, hi, last);
    }
    PermutedWider(w, a[..], lo, hi, first, last);
    PermutedTransitive(all, w, a[..], first, last);
    if nth < last {
      Selected(lt, all, a[..], first, nth, last);
    }
  }

  lemma Selected<T(!new)>(lt: Order<T>, all: seq<T>, w: seq<T>, first: nat, nth: nat, last: nat)
    requires StrictWeakOrder(lt) && first <= nth < last <= |all| && PermutedWithin(all, w, first, last)
    requires AllNotAbove(lt, w, first, nth, w[nth]) && AllNotBelow(lt, w, nth, last, w[nth])
    ensures InSortedPlace(lt, all[first..last], nth - first, w[nth])
  {
    hide StrictWeakOrder, SortOf;
    SelectedIsSorted(lt, all[first..last], w[first..last], nth - first);
  }

  lemma WholeWindow<T>(lt: Order<T>, s: seq<T>, first: nat, last: nat)
    requires first <= last <= |s|
    ensures NotAbove(lt, s[first..first], s[first..last]) && NotAbove(lt, s[first..last], s[last..last])
  {
  }

  lemma WindowStep<T>(lt: Order<T>, w: seq<T>, u: seq<T>, first: nat, lo: nat, cut: nat, hi: nat, last: nat)
    requires first <= lo < cut < hi <= last <= |w| && PermutedWithin(w, u, lo, hi)
    requires NotAbove(lt, w[first..lo], w[lo..last]) && NotAbove(lt, w[first..hi], w[hi..last])
    requires NotAbove(lt, u[lo..cut], u[cut..hi])
    ensures NotAbove(lt, u[first..lo], u[lo..last]) && NotAbove(lt, u[first..hi], u[hi..last])
    ensures NotAbove(lt, u[first..cut], u[cut..last])
  {
    WindowPermuted(lt, w, u, first, lo, hi, last);
    var l, r := u[first..cut], u[cut..last];
    forall i, j | 0 <= i < |l| && 0 <= j < |r| ensures !lt(r[j], l[i]) {
      if i < lo - first {
        assert !lt(u[lo..last][cut - lo + j], u[first..lo][i]);
      } else if j < hi - cut {
        assert !lt(u[cut..hi][j], u[lo..cut][i - (lo - first)]);
      } else {
        assert !lt(u[hi..last][j - (hi - cut)], u[first..hi][i]);
      }
    }
  }

  lemma WindowPermuted<T>(lt: Order<T>, w: seq<T>, u: seq<T>, first: nat, lo: nat, hi: nat, last: nat)
    requires first <= lo <= hi <= last <= |w| && PermutedWithin(w, u, lo, hi)
    requires NotAbove(lt, w[first..lo], w[lo..last]) && NotAbove(lt, w[first..hi], w[hi..last])
    ensures NotAbove(lt, u[first..lo], u[lo..last]) && NotAbove(lt, u[first..hi], u[hi..last])
  {
    assert u[first..lo] == w[first..lo] && u[hi..last] == w[hi..last];
    PermutedWider(w, u, lo, hi, lo, last);
    PermutedWider(w, u, lo, hi, first, hi);
    NotAbovePermuted(lt, w[first..lo], w[lo..last], u[first..lo], u[lo..last]);
    NotAbovePermuted(lt, w[first..hi], w[hi..last], u[first..hi], u[hi..last]);
  }

  lemma WindowSorted<T(!new)>(lt: Order<T>, w: seq<T>, u: seq<T>, first: nat, lo: nat, nth: nat, hi: nat, last: nat)
    requires StrictWeakOrder(lt) && first <= lo <= nth < hi <= last <= |w| && PermutedWithin(w, u, lo, hi)
    requires NotAbove(lt, w[first..lo], w[lo..last]) && NotAbove(lt, w[first..hi], w[hi..last])
    requires Sorted(lt, u[lo..hi])
    ensures AllNotAbove(lt, u, first, nth, u[nth]) && AllNotBelow(lt, u, nth, last, u[nth])
  {
    hide StrictWeakOrder;
    WindowPermuted(lt, w, u, first, lo, hi, last);
    Irreflexive(lt, u[nth]);
    forall i | first <= i < nth ensures !lt(u[nth], u[i]) {
      if i < lo {
        assert !lt(u[lo..last][nth - lo], u[first..lo][i - first]);
      } else {
        assert !lt(u[lo..hi][nth - lo], u[lo..hi][i - lo]);
      }
    }
    forall i | nth <= i < last ensures !lt(u[i], u[nth]) {
      if i >= hi {
        assert !lt(u[hi..last][i - hi], u[first..hi][nth - first]);
      } else if i > nth {
        assert !lt(u[lo..hi][i - lo], u[lo..hi][nth - lo]);
      }
    }
  }
}
