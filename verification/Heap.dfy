/** Heap operations on a range of an array (stl_heap.h); positions count from `first`. */
module Heap {
  import opened Ordering

  function Parent(i: int): int {
    (i - 1) / 2
  }

  // hole is top or one of its descendants.
  predicate BelowTop(hole: nat, top: nat)
    decreases hole
  {
    hole == top || (hole > top && BelowTop((hole - 1) / 2, top))
  }

  lemma BelowTopParent(hole: nat, top: nat)
    requires BelowTop(hole, top) && top < hole
    ensures top <= Parent(hole) && BelowTop(Parent(hole), top)
  {
  }

  // No element at or below position top is above its parent.
  ghost predicate HeapFrom<T>(lt: Order<T>, s: seq<T>, top: int) {
    forall i :: 0 < i < |s| && top <= Parent(i) ==> !lt(s[Parent(i)], s[i])
  }

  ghost predicate IsHeap<T>(lt: Order<T>, s: seq<T>) {
    HeapFrom(lt, s, 0)
  }

  // The same, except that whatever is at the hole does not matter; the children of the
  // hole are not above its parent.
  ghost predicate HeapButHole<T>(lt: Order<T>, s: seq<T>, top: nat, hole: nat) {
    && (forall i :: 0 < i < |s| && top <= Parent(i) && i != hole && Parent(i) != hole ==> !lt(s[Parent(i)], s[i]))
    && (top < hole < |s| ==> forall i :: 0 < i < |s| && Parent(i) == hole ==> !lt(s[Parent(hole)], s[i]))
  }

  ghost predicate NoChildAbove<T>(lt: Order<T>, s: seq<T>, hole: int, value: T) {
    forall i :: 0 < i < |s| && Parent(i) == hole ==> !lt(value, s[i])
  }

  /** The first element of a heap is the largest. */
  lemma {:induction false} HeapTop<T(!new)>(lt: Order<T>, s: seq<T>, i: int)
    requires StrictWeakOrder(lt) && IsHeap(lt, s) && 0 <= i < |s|
    ensures !lt(s[0], s[i])
    decreases i
  {
    hide StrictWeakOrder;
    if i == 0 {
      Irreflexive(lt, s[0]);
    } else {
      HeapTop(lt, s, Parent(i));
      NotLessTransitive(lt, s[0], s[Parent(i)], s[i]);
    }
  }

  // ----- sinking and lifting a hole -----

  lemma SinkStep<T(!new)>(lt: Order<T>, s: seq<T>, top: nat, hole: nat, child: nat)
    requires StrictWeakOrder(lt) && 0 < child < |s| && Parent(child) == hole
    requires HeapButHole(lt, s, top, hole)
    requires forall i :: 0 < i < |s| && Parent(i) == hole ==> !lt(s[child], s[i])
    requires BelowTop(hole, top)
    ensures HeapButHole(lt, s[hole := s[child]], top, child)
  {
    hide StrictWeakOrder;
  }

  lemma LiftStep<T(!new)>(lt: Order<T>, s: seq<T>, top: nat, hole: nat, value: T)
    requires StrictWeakOrder(lt) && top < hole < |s| && BelowTop(hole, top)
    requires HeapButHole(lt, s, top, hole) && lt(s[Parent(hole)], value)
    ensures BelowTop(Parent(hole), top)
    ensures HeapButHole(lt, s[hole := s[Parent(hole)]], top, Parent(hole))
    ensures NoChildAbove(lt, s[hole := s[Parent(hole)]], Parent(hole), value)
  {
    hide StrictWeakOrder;
    BelowTopParent(hole, top);
    var s' := s[hole := s[Parent(hole)]];
    var p := Parent(hole);
    LessThenNotLess(lt, s[p], value);
    forall i | 0 < i < |s'| && Parent(i) == p ensures !lt(value, s'[i]) {
      if i != hole {
        NotLessTransitive(lt, value, s[p], s[i]);
      }
    }
    if top < p {
      BelowTopParent(p, top);
      forall i | 0 < i < |s'| && Parent(i) == p ensures !lt(s'[Parent(p)], s'[i]) {
        if i != hole {
          NotLessTransitive(lt, s[Parent(p)], s[p], s[i]);
        }
      }
    }
  }

  lemma FillHole<T(!new)>(lt: Order<T>, s: seq<T>, top: nat, hole: nat, value: T)
    requires BelowTop(hole, top) && hole < |s| && HeapButHole(lt, s, top, hole) && NoChildAbove(lt, s, hole, value)
    requires hole == top || !lt(s[Parent(hole)], value)
    ensures HeapFrom(lt, s[hole := value], top)
  {
  }

  ghost function Elements<T>(s: seq<T>): multiset<T> {
    multiset(s)
  }

  // The elements with the one at the hole replaced by the value that is to go there.
  ghost function Filled<T>(s: seq<T>, hole: nat, value: T): multiset<T>
    requires hole < |s|
  {
    multiset(s[hole := value])
  }

  // The state of __push_heap: all is the array before, w the array now.
  ghost predicate Lifting<T>(lt: Order<T>, all: seq<T>, w: seq<T>, first: nat, len: nat, top: nat, hole: nat,
                             value: T, result: multiset<T>) {
    && SameOutside(all, w, first, first + len)
    && first + len <= |w| && hole < len && BelowTop(hole, top)
    && HeapButHole(lt, w[first..first + len], top, hole)
    && NoChildAbove(lt, w[first..first + len], hole, value)
    && Filled(w[first..first + len], hole, value) == result
  }

  lemma StartLifting<T>(lt: Order<T>, all: seq<T>, first: nat, len: nat, top: nat, hole: nat, value: T)
    requires first + len <= |all| && hole < len && BelowTop(hole, top)
    requires HeapButHole(lt, all[first..first + len], top, hole)
    requires NoChildAbove(lt, all[first..first + len], hole, value)
    ensures Lifting(lt, all, all, first, len, top, hole, value, Filled(all[first..first + len], hole, value))
  {
  }

  lemma LiftWrite<T(!new)>(lt: Order<T>, all: seq<T>, w: seq<T>, first: nat, len: nat, top: nat, hole: nat,
                           value: T, result: multiset<T>)
    requires StrictWeakOrder(lt) && Lifting(lt, all, w, first, len, top, hole, value, result)
    requires top < hole && lt(w[first + Parent(hole)], value)
    ensures Lifting(lt, all, w[first + hole := w[first + Parent(hole)]], first, len, top, Parent(hole), value, result)
  {
    hide StrictWeakOrder, HeapButHole, NoChildAbove;
    var s := w[first..first + len];
    LiftStep(lt, s, top, hole, value);
    MoveHole(s, hole, Parent(hole), value);
    WriteInRange(w, first, first + len, first + hole, s[Parent(hole)]);
  }

  lemma LastWrite<T(!new)>(lt: Order<T>, all: seq<T>, w: seq<T>, first: nat, len: nat, top: nat, hole: nat,
                           value: T, result: multiset<T>)
    requires Lifting(lt, all, w, first, len, top, hole, value, result)
    requires hole <= top || !lt(w[first + Parent(hole)], value)
    ensures var u := w[first + hole := value];
      && HeapFrom(lt, u[first..first + len], top)
      && Elements(u[first..first + len]) == result
      && SameOutside(all, u, first, first + len)
  {
    hide HeapButHole, NoChildAbove, HeapFrom;
    TopBelowTop(hole, top);
    FillHole(lt, w[first..first + len], top, hole, value);
    WriteInRange(w, first, first + len, first + hole, value);
  }

  // __push_heap
  method PushHeap<T(!new)>(a: array<T>, first: nat, ghost len: nat, holeIndex: nat, topIndex: nat, value: T,
                           lt: Order<T>)
    requires StrictWeakOrder(lt) && first + len <= a.Length && holeIndex < len && BelowTop(holeIndex, topIndex)
    requires HeapButHole(lt, a[..][first..first + len], topIndex, holeIndex)
    requires NoChildAbove(lt, a[..][first..first + len], holeIndex, value)
    modifies a
    ensures HeapFrom(lt, a[..][first..first + len], topIndex)
    ensures Elements(a[..][first..first + len]) == Filled(old(a[..])[first..first + len], holeIndex, value)
    ensures SameOutside(old(a[..]), a[..], first, first + len)
  {
    hide StrictWeakOrder, HeapButHole, HeapFrom, NoChildAbove, BelowTop, Lifting, SameOutside, Elements, Filled;
    ghost var result := Filled(a[..][first..first + len], holeIndex, value);
    ghost var all := a[..];
    StartLifting(lt, all, first, len, topIndex, holeIndex, value);
    var hole: nat := holeIndex;
    while hole > topIndex && lt(a[first + (hole - 1) / 2], value)
      invariant hole < len && Lifting(lt, all, a[..], first, len, topIndex, hole, value, result)
      decreases hole
    {
      ghost var w := a[..];
      LiftWrite(lt, all, w, first, len, topIndex, hole, value, result);
      var parent := (hole - 1) / 2;
      a[first + hole] := a[first + parent];
      assert a[..] == w[first + hole := w[first + parent]];
      hole := parent;
    }
    ghost var w := a[..];
    LastWrite(lt, all, w, first, len, topIndex, hole, value, result);
    a[first + hole] := value;
    assert a[..] == w[first + hole := value];
  }

  lemma TopBelowTop(hole: nat, top: nat)
    requires BelowTop(hole, top)
    ensures top <= hole
  {
  }

  // The state of the loop of __adjust_heap.
  ghost predicate Sinking<T>(lt: Order<T>, all: seq<T>, w: seq<T>, first: nat, len: nat, top: nat, hole: nat,
                             value: T, result: multiset<T>) {
    && SameOutside(all, w, first, first + len)
    && first + len <= |w| && hole < len && BelowTop(hole, top)
    && HeapButHole(lt, w[first..first + len], top, hole)
    && Filled(w[first..first + len], hole, value) == result
  }

  // child is a child of the hole, and no child of the hole is above it.
  ghost predicate LargestChild<T>(lt: Order<T>, s: seq<T>, hole: nat, child: nat) {
    0 < child < |s| && Parent(child) == hole && NoChildAbove(lt, s, hole, s[child])
  }

  lemma SinkWrite<T(!new)>(lt: Order<T>, all: seq<T>, w: seq<T>, first: nat, len: nat, top: nat, hole: nat,
                           value: T, result: multiset<T>, child: nat)
    requires StrictWeakOrder(lt) && Sinking(lt, all, w, first, len, top, hole, value, result)
    requires LargestChild(lt, w[first..first + len], hole, child)
    ensures Sinking(lt, all, w[first + hole := w[first + child]], first, len, top, child, value, result)
  {
    hide StrictWeakOrder, HeapButHole;
    var s := w[first..first + len];
    TopBelowTop(hole, top);
    SinkStep(lt, s, top, hole, child);
    MoveHole(s, hole, child, value);
    WriteInRange(w, first, first + len, first + hole, s[child]);
  }

  lemma TwoChildren<T(!new)>(lt: Order<T>, s: seq<T>, hole: nat, right: nat)
    requires StrictWeakOrder(lt) && right == 2 * hole + 2 < |s|
    ensures LargestChild(lt, s, hole, if lt(s[right], s[right - 1]) then right - 1 else right)
  {
    hide StrictWeakOrder;
    var child := if lt(s[right], s[right - 1]) then right - 1 else right;
    if child == right - 1 {
      LessThenNotLess(lt, s[right], s[child]);
    }
    Irreflexive(lt, s[child]);
    forall i | 0 < i < |s| && Parent(i) == hole ensures !lt(s[child], s[i]) {
      assert i == right || i == right - 1;
    }
  }

  lemma OnlyChild<T(!new)>(lt: Order<T>, s: seq<T>, hole: nat)
    requires StrictWeakOrder(lt) && 2 * hole + 2 == |s|
    ensures LargestChild(lt, s, hole, |s| - 1)
  {
    hide StrictWeakOrder;
    Irreflexive(lt, s[|s| - 1]);
  }

  lemma StartSinking<T>(lt: Order<T>, all: seq<T>, first: nat, len: nat, top: nat, value: T)
    requires first + len <= |all| && top < len && HeapFrom(lt, all[first..first + len], top + 1)
    ensures Sinking(lt, all, all, first, len, top, top, value, Filled(all[first..first + len], top, value))
  {
  }

  // The number of elements that __adjust_heap puts in order: even when it is told that
  // there are none it stores the value at position 0.
  function Room(len: nat): (n: nat)
    ensures len <= n && 0 < n
  {
    if len == 0 then 1 else len
  }

  // __adjust_heap
  method AdjustHeap<T(!new)>(a: array<T>, first: nat, holeIndex: nat, len: nat, value: T, lt: Order<T>)
    requires StrictWeakOrder(lt) && first + Room(len) <= a.Length && holeIndex < Room(len)
    requires HeapFrom(lt, a[..][first..first + Room(len)], holeIndex + 1)
    modifies a
    ensures HeapFrom(lt, a[..][first..first + Room(len)], holeIndex)
    ensures Elements(a[..][first..first + Room(len)]) == Filled(old(a[..])[first..first + Room(len)], holeIndex, value)
    ensures SameOutside(old(a[..]), a[..], first, first + Room(len))
  {
    hide StrictWeakOrder, HeapButHole, HeapFrom, NoChildAbove, BelowTop, LargestChild, Sinking, SameOutside,
      Elements, Filled;
    ghost var n := Room(len);
    ghost var all := a[..];
    ghost var result := Filled(a[..][first..first + n], holeIndex, value);
    StartSinking(lt, all, first, n, holeIndex, value);
    var hole := holeIndex;
    var secondChild := 2 * hole + 2;
    while secondChild < len
      invariant hole < n && secondChild == 2 * hole + 2
      invariant Sinking(lt, all, a[..], first, n, holeIndex, hole, value, result)
      decreases n - hole
    {
      ghost var w := a[..];
      TwoChildren(lt, w[first..first + n], hole, secondChild);
      if lt(a[first + secondChild], a[first + (secondChild - 1)]) {
        secondChild := secondChild - 1;
      }
      SinkWrite(lt, all, w, first, n, holeIndex, hole, value, result, secondChild);
      a[first + hole] := a[first + secondChild];
      assert a[..] == w[first + hole := w[first + secondChild]];
      hole := secondChild;
      secondChild := 2 * (secondChild + 1);
    }
    if secondChild == len {
      ghost var w := a[..];
      OnlyChild(lt, w[first..first + n], hole);
      SinkWrite(lt, all, w, first, n, holeIndex, hole, value, result, secondChild - 1);
      a[first + hole] := a[first + (secondChild - 1)];
      assert a[..] == w[first + hole := w[first + (secondChild - 1)]];
      hole := secondChild - 1;
    }
    ghost var w := a[..];
    SunkFacts(lt, all, w, first, n, holeIndex, hole, value, result);
    PushHeap(a, first, n, hole, holeIndex, value, lt);
    SameOutsideTransitive(all, w, a[..], first, first + n);
  }

  lemma SunkFacts<T>(lt: Order<T>, all: seq<T>, w: seq<T>, first: nat, len: nat, top: nat, hole: nat,
                     value: T, result: multiset<T>)
    requires Sinking(lt, all, w, first, len, top, hole, value, result) && 2 * hole + 2 > len
    ensures BelowTop(hole, top) && HeapButHole(lt, w[first..first + len], top, hole)
    ensures NoChildAbove(lt, w[first..first + len], hole, value)
    ensures Filled(w[first..first + len], hole, value) == result && SameOutside(all, w, first, first + len)
  {
    hide HeapButHole;
  }

  // __make_heap
  method MakeHeap<T(!new)>(a: array<T>, first: nat, last: nat, lt: Order<T>)
    requires StrictWeakOrder(lt) && first <= last <= a.Length
    modifies a
    ensures IsHeap(lt, a[..][first..last])
    ensures PermutedWithin(old(a[..]), a[..], first, last)
  {
    hide StrictWeakOrder, HeapFrom, PermutedWithin, SameOutside, Elements, Filled;
    ghost var all := a[..];
    LeavesAreHeaps(lt, all[first..last]);
    PermutedSame(all, first, last);
    if last - first < 2 {
      return;
    }
    var len := last - first;
    var parent := (len - 2) / 2;
    while true
      invariant 0 <= parent < len && HeapFrom(lt, a[..][first..last], parent + 1)
      invariant PermutedWithin(all, a[..], first, last)
      decreases parent
    {
      ghost var w := a[..];
      AdjustHeap(a, first, parent, len, a[first + parent], lt);
      AdjustedInPlace(all, w, a[..], first, last, parent);
      if parent == 0 {
        return;
      }
      parent := parent - 1;
    }
  }

  lemma LeavesAreHeaps<T>(lt: Order<T>, s: seq<T>)
    ensures |s| < 2 ==> IsHeap(lt, s)
    ensures |s| >= 2 ==> HeapFrom(lt, s, (|s| - 2) / 2 + 1)
  {
  }

  lemma AdjustedInPlace<T>(all: seq<T>, w: seq<T>, u: seq<T>, first: nat, last: nat, k: nat)
    requires PermutedWithin(all, w, first, last) && SameOutside(w, u, first, last) && first + k < last
    requires Elements(u[first..last]) == Filled(w[first..last], k, w[first + k])
    ensures PermutedWithin(all, u, first, last)
  {
    assert w[first..last][k := w[first + k]] == w[first..last];
  }

  // __pop_heap: the first element goes to position to, and value takes its place in the heap.
  method PopHeapTo<T(!new)>(a: array<T>, first: nat, last: nat, to: nat, value: T, lt: Order<T>)
    requires StrictWeakOrder(lt) && first <= last <= to < a.Length && value == a[to]
    requires IsHeap(lt, a[..][first..last])
    modifies a
    ensures IsHeap(lt, a[..][first..last])
    ensures first < to ==> a[to] == old(a[first])
    ensures first < last ==> Elements(a[..][first..last]) == Filled(old(a[..])[first..last], 0, value)
    ensures first < last ==> forall i :: 0 <= i < a.Length && !(first <= i < last) && i != to ==> a[i] == old(a[i])
    ensures PermutedWithin(old(a[..]), a[..], first, to + 1)
  {
    hide StrictWeakOrder, HeapFrom, PermutedWithin, Elements, Filled;
    ghost var all := a[..];
    a[to] := a[first];
    ghost var n := Room(last - first);
    ghost var w := a[..];
    assert w == all[to := all[first]];
    HeapWithoutTop(lt, all, w, first, last);
    AdjustHeap(a, first, 0, last - first, value, lt);
    PopPermutes(all, a[..], first, first + n, to, value);
    if first == last {
      EmptyHeap(lt, a[..][first..last]);
    }
  }

  lemma EmptyHeap<T>(lt: Order<T>, s: seq<T>)
    requires |s| <= 1
    ensures HeapFrom(lt, s, 0) && HeapFrom(lt, s, 1)
  {
  }

  lemma HeapWithoutTop<T>(lt: Order<T>, all: seq<T>, w: seq<T>, first: nat, last: nat)
    requires first <= last <= |all| == |w| && first + Room(last - first) <= |w|
    requires forall i :: first <= i < last ==> all[i] == w[i]
    requires IsHeap(lt, all[first..last])
    ensures HeapFrom(lt, w[first..first + Room(last - first)], 1)
  {
    if first < last {
      assert w[first..last] == all[first..last];
    }
  }

  lemma WrittenAndPermuted<T>(w: seq<T>, u: seq<T>, first: nat, last: nat, value: T)
    requires first < last <= |w| && SameOutside(w, u, first, last)
    requires Elements(u[first..last]) == Filled(w[first..last], 0, value)
    ensures PermutedWithin(w[first := value], u, first, last)
  {
    WriteInRange(w, first, last, first, value);
  }

  lemma WritesCommute<T>(s: seq<T>, i: nat, j: nat)
    requires i < |s| && j < |s|
    ensures s[j := s[i]][i := s[j]] == s[i := s[j]][j := s[i]]
  {
  }

  lemma PopPermutes<T>(all: seq<T>, u: seq<T>, first: nat, last: nat, to: nat, value: T)
    requires first < last <= |all| && last - 1 <= to < |all| && value == all[to]
    requires last <= to || first == to
    requires var w := all[to := all[first]];
      SameOutside(w, u, first, last) && Elements(u[first..last]) == Filled(w[first..last], 0, value)
    ensures PermutedWithin(all, u, first, to + 1)
  {
    hide *;
    var swapped := all[first := all[to]][to := all[first]];
    SwapPermutes(all, first, to + 1, first, to);
    WritesCommute(all, first, to);
    WrittenAndPermuted(all[to := all[first]], u, first, last, value);
    PermutedOnward(all, swapped, u, first, last, to + 1);
  }

  lemma PermutedOnward<T>(all: seq<T>, s: seq<T>, u: seq<T>, lo: nat, mid: nat, hi: nat)
    requires PermutedWithin(all, s, lo, hi) && PermutedWithin(s, u, lo, mid) && lo <= mid <= hi <= |s|
    ensures PermutedWithin(all, u, lo, hi)
  {
    hide *;
    PermutedWider(s, u, lo, mid, lo, hi);
    PermutedTransitive(all, s, u, lo, hi);
  }

  // pop_heap
  method PopHeap<T(!new)>(a: array<T>, first: nat, last: nat, lt: Order<T>)
    requires StrictWeakOrder(lt) && first < last <= a.Length && IsHeap(lt, a[..][first..last])
    modifies a
    ensures IsHeap(lt, a[..][first..last - 1])
    ensures NotAbove(lt, a[..][first..last - 1], [a[last - 1]])
    ensures PermutedWithin(old(a[..]), a[..], first, last)
  {
    hide StrictWeakOrder, HeapFrom, PermutedWithin, Elements, Filled, NotAbove;
    ghost var all := a[..];
    HeapPrefix(lt, all[first..last], last - 1 - first);
    assert all[first..last][..last - 1 - first] == all[first..last - 1];
    PopHeapTo(a, first, last - 1, last - 1, a[last - 1], lt);
    if first < last - 1 {
      TopNotBelow(lt, all[first..last], a[..][first..last - 1]);
    } else {
      NothingAbove(lt, a[..][first..last - 1], [a[last - 1]]);
    }
  }

  lemma NothingAbove<T>(lt: Order<T>, s: seq<T>, t: seq<T>)
    requires |s| == 0
    ensures NotAbove(lt, s, t)
  {
  }

  // The top of a heap is not less than what is left when the last element takes its place.
  lemma TopNotBelow<T(!new)>(lt: Order<T>, s: seq<T>, t: seq<T>)
    requires StrictWeakOrder(lt) && IsHeap(lt, s) && |s| > 1
    requires Elements(t) == Filled(s[..|s| - 1], 0, s[|s| - 1])
    ensures NotAbove(lt, t, [s[0]])
  {
    hide StrictWeakOrder, HeapFrom;
    var f := s[..|s| - 1][0 := s[|s| - 1]];
    forall i | 0 <= i < |t| ensures !lt(s[0], t[i]) {
      assert t[i] in multiset(f);
      var k :| 0 <= k < |f| && f[k] == t[i];
      HeapTop(lt, s, if k == 0 then |s| - 1 else k);
    }
  }

  lemma HeapPrefix<T>(lt: Order<T>, s: seq<T>, n: nat)
    requires IsHeap(lt, s) && n <= |s|
    ensures IsHeap(lt, s[..n])
  {
  }

  // sort_heap
  method SortHeap<T(!new)>(a: array<T>, first: nat, last: nat, lt: Order<T>)
    requires StrictWeakOrder(lt) && first <= last <= a.Length && IsHeap(lt, a[..][first..last])
    modifies a
    ensures Sorted(lt, a[..][first..last])
    ensures PermutedWithin(old(a[..]), a[..], first, last)
  {
    hide StrictWeakOrder, HeapFrom, PermutedWithin, NotAbove, Sorted;
    ghost var all := a[..];
    var end := last;
    PermutedSame(all, first, last);
    SortedEmpty(lt, all, first, last);
    while end - first > 1
      invariant first <= end <= last && IsHeap(lt, a[..][first..end])
      invariant Sorted(lt, a[..][end..last]) && NotAbove(lt, a[..][first..end], a[..][end..last])
      invariant PermutedWithin(all, a[..], first, last)
    {
      ghost var w := a[..];
      PopHeap(a, first, end, lt);
      SortHeapStep(lt, w, a[..], first, end, last);
      PermutedWider(w, a[..], first, end, first, last);
      PermutedTransitive(all, w, a[..], first, last);
      end := end - 1;
    }
    SortedWhole(lt, a[..], first, end, last);
  }

  lemma SortedEmpty<T>(lt: Order<T>, s: seq<T>, first: nat, last: nat)
    requires first <= last <= |s|
    ensures Sorted(lt, s[last..last]) && NotAbove(lt, s[first..last], s[last..last])
  {
  }

  lemma SortHeapStep<T>(lt: Order<T>, w: seq<T>, u: seq<T>, first: nat, end: nat, last: nat)
    requires first + 1 < end <= last <= |w| && PermutedWithin(w, u, first, end)
    requires Sorted(lt, w[end..last]) && NotAbove(lt, w[first..end], w[end..last])
    requires NotAbove(lt, u[first..end - 1], [u[end - 1]])
    ensures Sorted(lt, u[end - 1..last]) && NotAbove(lt, u[first..end - 1], u[end - 1..last])
  {
    assert u[end..last] == w[end..last];
    NotAbovePermuted(lt, w[first..end], w[end..last], u[first..end], u[end..last]);
    var h, t, h', t' := u[first..end], u[end..last], u[first..end - 1], u[end - 1..last];
    forall i, j | 0 <= i < j < |t'| ensures !lt(t'[j], t'[i]) {
      if i == 0 {
        assert h[|h| - 1] == u[end - 1] && !lt(t[j - 1], h[|h| - 1]);
      } else {
        assert !lt(t[j - 1], t[i - 1]);
      }
    }
    forall i, j | 0 <= i < |h'| && 0 <= j < |t'| ensures !lt(t'[j], h'[i]) {
      if j == 0 {
        assert !lt([u[end - 1]][0], h'[i]);
      } else {
        assert !lt(t[j - 1], h[i]);
      }
    }
  }

  lemma SortedWhole<T>(lt: Order<T>, s: seq<T>, first: nat, end: nat, last: nat)
    requires first <= end <= last <= |s| && end - first <= 1
    requires Sorted(lt, s[end..last]) && NotAbove(lt, s[first..end], s[end..last])
    ensures Sorted(lt, s[first..last])
  {
    forall i, j | 0 <= i < j < last - first ensures !lt(s[first..last][j], s[first..last][i]) {
      var k := end - first;
      if i < k {
        assert !lt(s[end..last][j - k], s[first..end][i]);
      } else {
        assert !lt(s[end..last][j - k], s[end..last][i - k]);
      }
    }
  }
}
