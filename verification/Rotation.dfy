/** The three algorithms behind rotate (stl_algo.h), one for each kind of iterator. */
module Rotation {
  import opened Ordering

  // s with the ranges from first to middle and from middle to last exchanged.
  ghost function Rotated<T>(s: seq<T>, first: nat, middle: nat, last: nat): seq<T>
    requires first <= middle <= last <= |s|
  {
    s[..first] + s[middle..last] + s[first..middle] + s[last..]
  }

  // ----- forward iterators -----

  // What the rest of the algorithm has to make of the range from first to last.
  ghost function Pending<T>(s: seq<T>, first: nat, middle: nat, first2: nat, last: nat): seq<T>
    requires first <= middle <= first2 <= last <= |s|
  {
    s[first2..last] + s[middle..first2] + s[first..middle]
  }

  ghost predicate ForwardState<T>(all: seq<T>, s: seq<T>, result: seq<T>, first0: nat, first: nat, middle: nat,
                                  first2: nat, last: nat) {
    && first0 <= first < middle <= first2 <= last <= |s| == |all|
    && s[..first] + Pending(s, first, middle, first2, last) + s[last..] == result
  }

  lemma ForwardSwap<T>(all: seq<T>, s: seq<T>, result: seq<T>, first0: nat, first: nat, middle: nat, first2: nat,
                       last: nat)
    requires ForwardState(all, s, result, first0, first, middle, first2, last) && first2 < last
    ensures var t := s[first := s[first2]][first2 := s[first]];
      if first + 1 == middle then ForwardState(all, t, result, first0, first + 1, first2 + 1, first2 + 1, last)
      else ForwardState(all, t, result, first0, first + 1, middle, first2 + 1, last)
  {
    var t := s[first := s[first2]][first2 := s[first]];
    SwapParts(s, first, middle, first2, last);
    var p, q, r := s[first + 1..middle], s[middle..first2], s[first2 + 1..last];
    var x, y := [s[first]], [s[first2]];
    assert (s[..first] + y) + (r + (q + x) + p) + s[last..] == s[..first] + ((y + r) + q + (x + p)) + s[last..];
    if first + 1 == middle {
      assert t[first + 1..first2 + 1] == t[middle..first2 + 1];
    }
  }

  lemma SwapParts<T>(s: seq<T>, first: nat, middle: nat, first2: nat, last: nat)
    requires first < middle <= first2 < last <= |s|
    ensures s[first..middle] == [s[first]] + s[first + 1..middle]
    ensures s[first2..last] == [s[first2]] + s[first2 + 1..last]
    ensures var t := s[first := s[first2]][first2 := s[first]];
      && t[..first + 1] == s[..first] + [s[first2]] && t[first + 1..middle] == s[first + 1..middle]
      && t[middle..first2 + 1] == s[middle..first2] + [s[first]]
      && t[first2 + 1..last] == s[first2 + 1..last] && t[last..] == s[last..]
  {
  }

  lemma ForwardWrap<T>(all: seq<T>, s: seq<T>, result: seq<T>, first0: nat, first: nat, middle: nat, last: nat)
    requires ForwardState(all, s, result, first0, first, middle, last, last)
    ensures ForwardState(all, s, result, first0, first, middle, middle, last)
  {
    assert s[last..last] == s[middle..middle] == [];
    assert s[last..last] + s[middle..last] + s[first..middle] == s[middle..last] + s[middle..middle] + s[first..middle];
  }

  // The algorithm for forward iterators: exchanges blocks from left to right.
  method RotateForward<T>(a: array<T>, first0: nat, middle0: nat, last: nat) returns (newMiddle: nat)
    requires first0 <= middle0 <= last <= a.Length
    modifies a
    ensures a[..] == Rotated(old(a[..]), first0, middle0, last)
    ensures newMiddle == first0 + (last - middle0)
  {
    hide ForwardState, Pending, Rotated;
    ghost var all := a[..];
    ghost var result := Rotated(all, first0, middle0, last);
    if first0 == middle0 || last == middle0 {
      RotatedByNothing(all, first0, middle0, last);
      return if first0 == middle0 then last else first0;
    }
    var first, middle := FirstRound(a, first0, middle0, last);
    newMiddle := first;
    ForwardWrap(all, a[..], result, first0, first, middle, last);
    LaterRounds(a, first0, first, middle, last, all, result);
  }

  lemma RotatedByNothing<T>(s: seq<T>, first: nat, middle: nat, last: nat)
    requires first <= middle <= last <= |s| && (first == middle || middle == last)
    ensures Rotated(s, first, middle, last) == s
  {
  }

  // Blocks are exchanged until the second range has been run through.
  method FirstRound<T>(a: array<T>, first0: nat, middle0: nat, last: nat) returns (first: nat, middle: nat)
    requires first0 < middle0 < last <= a.Length
    modifies a
    ensures first == first0 + (last - middle0)
    ensures ForwardState(old(a[..]), a[..], Rotated(old(a[..]), first0, middle0, last), first0, first, middle, last,
                         last)
  {
    hide ForwardState, Pending, Rotated;
    ghost var all := a[..];
    ghost var result := Rotated(all, first0, middle0, last);
    var first2: nat := middle0;
    first, middle := first0, middle0;
    ForwardStart(all, result, first, middle, last);
    while true
      invariant first2 < last && first - first0 == first2 - middle0
      invariant ForwardState(all, a[..], result, first0, first, middle, first2, last)
      decreases last - first2
    {
      ForwardBounds(all, a[..], result, first0, first, middle, first2, last);
      ForwardSwap(all, a[..], result, first0, first, middle, first2, last);
      IterSwap(a, first, first2);
      first, first2 := first + 1, first2 + 1;
      if first == middle {
        middle := first2;
      }
      if first2 == last {
        break;
      }
    }
  }

  // And on with what is left.
  method LaterRounds<T>(a: array<T>, ghost first0: nat, start: nat, middle0: nat, last: nat, ghost all: seq<T>,
                        ghost result: seq<T>)
    requires last <= a.Length && ForwardState(all, a[..], result, first0, start, middle0, middle0, last)
    modifies a
    ensures a[..] == result
  {
    hide ForwardState, Pending;
    var first: nat, middle: nat, first2: nat := start, middle0, middle0;
    ForwardBounds(all, a[..], result, first0, first, middle, first2, last);
    while first2 != last
      invariant first < middle <= first2 <= last && (first2 == last ==> middle == last)
      invariant ForwardState(all, a[..], result, first0, first, middle, first2, last)
      decreases last - first
    {
      ForwardSwap(all, a[..], result, first0, first, middle, first2, last);
      IterSwap(a, first, first2);
      first, first2 := first + 1, first2 + 1;
      if first == middle {
        middle := first2;
      } else if first2 == last {
        ForwardWrap(all, a[..], result, first0, first, middle, last);
        first2 := middle;
      }
      ForwardBounds(all, a[..], result, first0, first, middle, first2, last);
    }
    ForwardEnd(all, a[..], result, first0, first, last);
  }

  lemma ForwardStart<T>(all: seq<T>, result: seq<T>, first: nat, middle: nat, last: nat)
    requires first < middle < last <= |all| && result == Rotated(all, first, middle, last)
    ensures ForwardState(all, all, result, first, first, middle, middle, last)
  {
    assert all[middle..last] + all[middle..middle] + all[first..middle] == all[middle..last] + all[first..middle];
    assert all[..first] + (all[middle..last] + all[first..middle]) + all[last..] == result;
  }

  lemma ForwardBounds<T>(all: seq<T>, s: seq<T>, result: seq<T>, first0: nat, first: nat, middle: nat, first2: nat,
                         last: nat)
    requires ForwardState(all, s, result, first0, first, middle, first2, last)
    ensures first0 <= first < middle <= first2 <= last <= |s|
  {
  }

  lemma ForwardEnd<T>(all: seq<T>, s: seq<T>, result: seq<T>, first0: nat, first: nat, last: nat)
    requires ForwardState(all, s, result, first0, first, last, last, last)
    ensures s == result
  {
    var e, u := s[last..last], s[first..last];
    assert e == [] && e + e == [] && [] + u == u;
    assert s[..first] + u == s[..last];
  }

  // ----- bidirectional iterators -----

  ghost function Reversed<T>(s: seq<T>): (r: seq<T>)
    ensures |r| == |s| && forall i :: 0 <= i < |s| ==> r[i] == s[|s| - 1 - i]
  {
    seq(|s|, i requires 0 <= i < |s| => s[|s| - 1 - i])
  }

  // s with the first t and the last t elements of the range already exchanged.
  ghost predicate EndsReversed<T>(all: seq<T>, s: seq<T>, lo: nat, hi: nat, f: nat, l: nat) {
    && lo <= f <= hi && lo <= l <= hi <= |s| == |all| && f - lo == hi - l
    && (forall i :: 0 <= i < lo || hi <= i < |s| || f <= i < l ==> s[i] == all[i])
    && (forall i :: lo <= i < f || l <= i < hi ==> s[i] == all[lo + hi - 1 - i])
  }

  ghost function ReversedWithin<T>(s: seq<T>, lo: nat, hi: nat): seq<T>
    requires lo <= hi <= |s|
  {
    s[..lo] + Reversed(s[lo..hi]) + s[hi..]
  }

  lemma AllReversed<T>(all: seq<T>, s: seq<T>, lo: nat, hi: nat, f: nat, l: nat)
    requires lo <= hi && EndsReversed(all, s, lo, hi, f, l) && l <= f + 1
    ensures s == ReversedWithin(all, lo, hi)
  {
  }

  // __reverse
  method Reverse<T>(a: array<T>, first0: nat, last0: nat)
    requires first0 <= last0 <= a.Length
    modifies a
    ensures a[..] == ReversedWithin(old(a[..]), first0, last0)
  {
    var first: nat, last: nat := first0, last0;
    ghost var all := a[..];
    while true
      invariant first <= last && EndsReversed(all, a[..], first0, last0, first, last)
      decreases last - first
    {
      if first == last {
        break;
      }
      last := last - 1;
      if first == last {
        break;
      }
      a[first], a[last] := a[last], a[first];
      first := first + 1;
    }
    AllReversed(all, a[..], first0, last0, first, if first - first0 == last0 - last then last else last + 1);
  }

  // The algorithm for bidirectional iterators: two reversals, then one of the whole
  // whose first steps are done by exchanging the ends.
  method RotateBidirectional<T>(a: array<T>, first0: nat, middle: nat, last0: nat) returns (newMiddle: nat)
    requires first0 <= middle <= last0 <= a.Length
    modifies a
    ensures a[..] == Rotated(old(a[..]), first0, middle, last0)
    ensures newMiddle == first0 + (last0 - middle)
  {
    hide EndsReversed, ReversedWithin;
    ghost var all := a[..];
    if first0 == middle || last0 == middle {
      assert all == Rotated(all, first0, middle, last0);
      return if first0 == middle then last0 else first0;
    }
    Reverse(a, first0, middle);
    Reverse(a, middle, last0);
    ghost var halves := a[..];
    var first: nat, last: nat := first0, last0;
    StartReversing(halves, first0, last0);
    while first != middle && middle != last
      invariant first0 <= first <= middle <= last <= last0 && first - first0 == last0 - last
      invariant EndsReversed(halves, a[..], first0, last0, first, last)
      decreases last - first
    {
      last := last - 1;
      ghost var w := a[..];
      a[first], a[last] := a[last], a[first];
      assert a[..] == w[first := w[last]][last := w[first]];
      ReverseStep(halves, w, first0, last0, first, last);
      first := first + 1;
    }
    ghost var w := a[..];
    if first == middle {
      Reverse(a, middle, last);
      newMiddle := last;
    } else {
      Reverse(a, first, middle);
      newMiddle := first;
    }
    ReverseRest(halves, w, first0, last0, first, last);
    TwoReversals(all, first0, middle, last0);
  }

  lemma StartReversing<T>(s: seq<T>, lo: nat, hi: nat)
    requires lo <= hi <= |s|
    ensures EndsReversed(s, s, lo, hi, lo, hi)
  {
  }

  lemma ReverseStep<T>(all: seq<T>, s: seq<T>, lo: nat, hi: nat, f: nat, l: nat)
    requires EndsReversed(all, s, lo, hi, f, l + 1) && f < l
    ensures EndsReversed(all, s[f := s[l]][l := s[f]], lo, hi, f + 1, l)
  {
  }

  lemma ReverseRest<T>(all: seq<T>, s: seq<T>, lo: nat, hi: nat, f: nat, l: nat)
    requires EndsReversed(all, s, lo, hi, f, l) && f <= l
    ensures ReversedWithin(s, f, l) == ReversedWithin(all, lo, hi)
  {
  }

  lemma TwoReversals<T>(s: seq<T>, first: nat, middle: nat, last: nat)
    requires first <= middle <= last <= |s|
    ensures ReversedWithin(ReversedWithin(ReversedWithin(s, first, middle), middle, last), first, last)
         == Rotated(s, first, middle, last)
  {
  }
}
