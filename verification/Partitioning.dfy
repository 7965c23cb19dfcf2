/** stable_partition (stl_algo.h): in place by rotations, or through a buffer. */
module Partitioning {
  import opened Ordering
  import opened Rotation
  import opened StableSorting
  import opened Ranges

  // The elements with the property, in their order.
  ghost function Chosen<T>(s: seq<T>, pred: T -> bool): (r: seq<T>)
    ensures |r| <= |s|
  {
    if s == [] then [] else Chosen(s[..|s| - 1], pred) + if pred(s[|s| - 1]) then [s[|s| - 1]] else []
  }

  ghost function Not<T>(pred: T -> bool): T -> bool {
    x => !pred(x)
  }

  ghost function Others<T>(s: seq<T>, pred: T -> bool): (r: seq<T>)
    ensures |r| <= |s|
  {
    Chosen(s, Not(pred))
  }

  ghost function Partitioned<T>(s: seq<T>, pred: T -> bool): seq<T> {
    Chosen(s, pred) + Others(s, pred)
  }

  lemma {:induction false} ChosenConcat<T>(s: seq<T>, t: seq<T>, pred: T -> bool)
    ensures Chosen(s + t, pred) == Chosen(s, pred) + Chosen(t, pred)
    decreases |t|
  {
    if t == [] {
      assert s + t == s;
    } else {
      var n := |t| - 1;
      assert (s + t)[..|s + t| - 1] == s + t[..n];
      ChosenConcat(s, t[..n], pred);
    }
  }

  lemma {:induction false} ChosenOnly<T>(s: seq<T>, pred: T -> bool)
    ensures forall x :: x in Chosen(s, pred) ==> x in s && pred(x)
    decreases |s|
  {
    if s != [] {
      ChosenOnly(s[..|s| - 1], pred);
    }
  }

  lemma {:induction false} AllChosen<T>(s: seq<T>, pred: T -> bool)
    ensures (forall x :: x in s ==> pred(x)) ==> Chosen(s, pred) == s
    ensures (forall x :: x in s ==> !pred(x)) ==> Chosen(s, pred) == []
    decreases |s|
  {
    if s != [] {
      assert s == s[..|s| - 1] + [s[|s| - 1]];
      AllChosen(s[..|s| - 1], pred);
    }
  }

  lemma {:induction false} ChosenAndOthers<T>(s: seq<T>, pred: T -> bool)
    ensures |Chosen(s, pred)| + |Others(s, pred)| == |s|
    ensures multiset(Partitioned(s, pred)) == multiset(s)
    decreases |s|
  {
    if s != [] {
      var r, x := s[..|s| - 1], s[|s| - 1];
      ChosenAndOthers(r, pred);
      assert s == r + [x];
      assert multiset(Partitioned(s, pred)) == multiset(Partitioned(r, pred)) + multiset{x};
    }
  }

  // All elements with the property are in front of all others.
  ghost predicate InFront<T>(s: seq<T>, cut: nat, pred: T -> bool) {
    cut <= |s| && (forall x :: x in s[..cut] ==> pred(x)) && forall x :: x in s[cut..] ==> !pred(x)
  }

  lemma InFrontChosen<T>(t: seq<T>, cut: nat, pred: T -> bool)
    requires InFront(t, cut, pred)
    ensures cut <= |t| && Chosen(t, pred) == t[..cut] && Others(t, pred) == t[cut..]
  {
    var l, r := t[..cut], t[cut..];
    assert t == l + r;
    ChosenConcat(l, r, pred);
    ChosenConcat(l, r, Not(pred));
    AllChosen(l, pred);
    AllChosen(r, pred);
    AllChosen(l, Not(pred));
    AllChosen(r, Not(pred));
  }

  lemma PartitionedInFront<T>(s: seq<T>, pred: T -> bool)
    ensures InFront(Partitioned(s, pred), |Chosen(s, pred)|, pred)
  {
    ChosenOnly(s, pred);
    ChosenOnly(s, Not(pred));
    var t := Partitioned(s, pred);
    assert t[..|Chosen(s, pred)|] == Chosen(s, pred) && t[|Chosen(s, pred)|..] == Others(s, pred);
  }

  /** What Partitioned means: a permutation, divided by the property, in which the elements on
      either side are in their old order; and there is only one like that. */
  lemma PartitionedMeaning<T>(s: seq<T>, t: seq<T>, cut: nat, pred: T -> bool)
    ensures t == Partitioned(s, pred) && cut == |Chosen(s, pred)| <==>
            InFront(t, cut, pred) && Chosen(t, pred) == Chosen(s, pred) && Others(t, pred) == Others(s, pred)
    ensures multiset(Partitioned(s, pred)) == multiset(s)
  {
    hide Chosen, Others, InFront, Partitioned;
    ChosenAndOthers(s, pred);
    PartitionedInFront(s, pred);
    if t == Partitioned(s, pred) && cut == |Chosen(s, pred)| {
      InFrontChosen(t, cut, pred);
      FirstPart(s, pred);
    }
    if InFront(t, cut, pred) {
      InFrontChosen(t, cut, pred);
      Whole(t, cut, s, pred);
    }
  }

  lemma FirstPart<T>(s: seq<T>, pred: T -> bool)
    ensures var t, cut := Partitioned(s, pred), |Chosen(s, pred)|;
      cut <= |t| && t[..cut] == Chosen(s, pred) && t[cut..] == Others(s, pred)
  {
  }

  lemma Whole<T>(t: seq<T>, cut: nat, s: seq<T>, pred: T -> bool)
    requires cut <= |t|
    ensures t[..cut] == Chosen(s, pred) && t[cut..] == Others(s, pred) ==>
            t == Partitioned(s, pred) && cut == |Chosen(s, pred)|
  {
    assert t == t[..cut] + t[cut..];
  }

  // Both halves are partitioned; a rotation of what is between their cuts does the whole.
  lemma HalvesRotated<T>(a: seq<T>, b: seq<T>, first: nat, middle: nat, last: nat, cut1: nat, cut2: nat,
                         pred: T -> bool)
    requires first <= middle <= last <= |a| && SameOutside(a, b, first, last)
    requires b[first..middle] == Partitioned(a[first..middle], pred) && cut1 == first + |Chosen(a[first..middle], pred)|
    requires b[middle..last] == Partitioned(a[middle..last], pred) && cut2 == middle + |Chosen(a[middle..last], pred)|
    ensures first <= cut1 <= middle <= cut2 <= last
    ensures var c := Rotated(b, cut1, middle, cut2);
      SameOutside(a, c, first, last) && c[first..last] == Partitioned(a[first..last], pred)
    ensures cut1 + (cut2 - middle) == first + |Chosen(a[first..last], pred)|
  {
    hide Chosen, Others, Partitioned, Rotated;
    var x, y := a[first..middle], a[middle..last];
    assert a[first..last] == x + y;
    PartitionedParts(x, y, pred);
    PartsOf(b, first, middle, cut1, Chosen(x, pred), Others(x, pred));
    PartsOf(b, middle, last, cut2, Chosen(y, pred), Others(y, pred));
    RotatedParts(b, first, cut1, middle, cut2, last);
  }

  lemma PartitionedParts<T>(x: seq<T>, y: seq<T>, pred: T -> bool)
    ensures |Chosen(x, pred)| + |Others(x, pred)| == |x| && |Chosen(y, pred)| + |Others(y, pred)| == |y|
    ensures Partitioned(x, pred) == Chosen(x, pred) + Others(x, pred)
    ensures Partitioned(y, pred) == Chosen(y, pred) + Others(y, pred)
    ensures Chosen(x + y, pred) == Chosen(x, pred) + Chosen(y, pred)
    ensures Partitioned(x + y, pred) == Chosen(x, pred) + Chosen(y, pred) + Others(x, pred) + Others(y, pred)
  {
    hide Chosen;
    ChosenConcat(x, y, pred);
    ChosenConcat(x, y, Not(pred));
    ChosenAndOthers(x, pred);
    ChosenAndOthers(y, pred);
  }

  lemma PartsOf<T>(b: seq<T>, lo: nat, hi: nat, cut: nat, l: seq<T>, r: seq<T>)
    requires lo <= hi <= |b| && b[lo..hi] == l + r && cut == lo + |l|
    ensures cut <= hi && b[lo..cut] == l && b[cut..hi] == r
  {
    assert |l + r| == hi - lo;
    PartOfPart(b, lo, hi, 0, |l|);
    PartOfPart(b, lo, hi, |l|, hi - lo);
    assert (l + r)[..|l|] == l && (l + r)[|l|..] == r;
  }

  lemma RotatedParts<T>(b: seq<T>, first: nat, cut1: nat, middle: nat, cut2: nat, last: nat)
    requires first <= cut1 <= middle <= cut2 <= last <= |b|
    ensures var c := Rotated(b, cut1, middle, cut2);
      && SameOutside(b, c, first, last)
      && c[first..last] == b[first..cut1] + b[middle..cut2] + b[cut1..middle] + b[cut2..last]
  {
    hide SameOutside;
    var c, x := Rotated(b, cut1, middle, cut2), b[first..cut1] + b[middle..cut2] + b[cut1..middle] + b[cut2..last];
    assert b[..cut1] == b[..first] + b[first..cut1] && b[cut2..] == b[cut2..last] + b[last..];
    assert c == b[..first] + x + b[last..];
    InTheMiddle(b, c, first, last, x);
  }

  lemma InTheMiddle<T>(b: seq<T>, c: seq<T>, first: nat, last: nat, x: seq<T>)
    requires first <= last <= |b| && |x| == last - first && c == b[..first] + x + b[last..]
    ensures SameOutside(b, c, first, last) && c[first..last] == x
  {
  }

  lemma OneElement<T>(x: T, pred: T -> bool)
    ensures Partitioned([x], pred) == [x] && |Chosen([x], pred)| == if pred(x) then 1 else 0
  {
    AllChosen([x], pred);
    AllChosen([x], Not(pred));
  }

  // __inplace_stable_partition
  method InplaceStablePartition<T>(a: array<T>, first: nat, last: nat, pred: T -> bool, len: nat) returns (cut: nat)
    requires first < last <= a.Length && len == last - first
    modifies a
    ensures a[..][first..last] == Partitioned(old(a[..])[first..last], pred)
    ensures SameOutside(old(a[..]), a[..], first, last)
    ensures cut == first + |Chosen(old(a[..])[first..last], pred)|
    decreases len
  {
    hide Partitioned, Rotated;
    ghost var all := a[..];
    if len == 1 {
      assert all[first..last] == [all[first]];
      OneElement(all[first], pred);
      return if pred(a[first]) then last else first;
    }
    var middle := first + len / 2;
    var cut1 := InplaceStablePartition(a, first, middle, pred, len / 2);
    assert a[..][middle..last] == all[middle..last];
    var cut2 := InplaceStablePartition(a, middle, last, pred, len - len / 2);
    assert a[..][first..middle] == Partitioned(all[first..middle], pred);
    HalvesRotated(all, a[..], first, middle, last, cut1, cut2, pred);
    cut := RotateForward(a, cut1, middle, cut2);
  }

  // The loop of __stable_partition_adaptive after the elements of s: those with the property
  // have stayed in a, and the others are in the buffer.
  ghost predicate Sifted<T>(all: seq<T>, a: seq<T>, buffer: seq<T>, first0: nat, first: nat, last: nat,
                            result1: nat, result2: nat, pred: T -> bool) {
    && first0 <= first <= last <= |all| == |a| && result2 <= |buffer|
    && result1 == first0 + |Chosen(all[first0..first], pred)|
    && a[first0..result1] == Chosen(all[first0..first], pred)
    && buffer[..result2] == Others(all[first0..first], pred)
    && a[..first0] == all[..first0] && a[first..] == all[first..]
  }

  lemma SiftNext<T>(all: seq<T>, a: seq<T>, buffer: seq<T>, first0: nat, first: nat, last: nat,
                    result1: nat, result2: nat, pred: T -> bool)
    requires Sifted(all, a, buffer, first0, first, last, result1, result2, pred) && first < last
    ensures a[first] == all[first] && result1 <= first && result1 - first0 + result2 == first - first0
    ensures all[first0..first + 1] == all[first0..first] + [all[first]]
    ensures a[first + 1..] == all[first + 1..]
  {
    hide Chosen, Others;
    ChosenAndOthers(all[first0..first], pred);
    assert a[first..][0] == all[first..][0];
    assert a[first..][1..] == all[first..][1..];
  }

  // An element with the property is moved to the front.
  lemma SiftKept<T>(all: seq<T>, a: seq<T>, buffer: seq<T>, first0: nat, first: nat, last: nat,
                    result1: nat, result2: nat, pred: T -> bool)
    requires Sifted(all, a, buffer, first0, first, last, result1, result2, pred) && first < last && pred(all[first])
    requires result1 <= first
    ensures Sifted(all, a[result1 := all[first]], buffer, first0, first + 1, last, result1 + 1, result2, pred)
  {
    hide Chosen, Others;
    var a' := a[result1 := all[first]];
    SiftNext(all, a, buffer, first0, first, last, result1, result2, pred);
    OneMore(all[first0..first], all[first], pred);
    assert a'[first0..result1 + 1] == a[first0..result1] + [all[first]];
    assert a'[first + 1..] == a[first + 1..] && a'[..first0] == a[..first0];
  }

  // Another one is put aside.
  lemma SiftAside<T>(all: seq<T>, a: seq<T>, buffer: seq<T>, first0: nat, first: nat, last: nat,
                     result1: nat, result2: nat, pred: T -> bool)
    requires Sifted(all, a, buffer, first0, first, last, result1, result2, pred) && first < last && !pred(all[first])
    requires result2 < |buffer|
    ensures Sifted(all, a, buffer[result2 := all[first]], first0, first + 1, last, result1, result2 + 1, pred)
  {
    hide Chosen, Others;
    SiftNext(all, a, buffer, first0, first, last, result1, result2, pred);
    OneMore(all[first0..first], all[first], pred);
    assert buffer[result2 := all[first]][..result2 + 1] == buffer[..result2] + [all[first]];
  }

  lemma OneMore<T>(s: seq<T>, x: T, pred: T -> bool)
    ensures Chosen(s + [x], pred) == Chosen(s, pred) + if pred(x) then [x] else []
    ensures Others(s + [x], pred) == Others(s, pred) + if pred(x) then [] else [x]
  {
    assert (s + [x])[..|s|] == s;
  }

  lemma SiftDone<T>(all: seq<T>, a: seq<T>, buffer: seq<T>, first0: nat, last: nat, result1: nat, result2: nat,
                    pred: T -> bool)
    requires Sifted(all, a, buffer, first0, last, last, result1, result2, pred)
    ensures result1 + result2 == last
    ensures var b := Written(a, result1, buffer[..result2]);
      b[first0..last] == Partitioned(all[first0..last], pred) && SameOutside(all, b, first0, last)
  {
    hide Chosen, Others, SameOutside;
    ChosenAndOthers(all[first0..last], pred);
    var b := Written(a, result1, buffer[..result2]);
    assert a[..result1] == a[..first0] + a[first0..result1];
    assert b == all[..first0] + Partitioned(all[first0..last], pred) + all[last..];
    InTheMiddle(all, b, first0, last, Partitioned(all[first0..last], pred));
  }

  // __stable_partition_adaptive
  method StablePartitionAdaptive<T>(a: array<T>, first0: nat, last: nat, pred: T -> bool, len: nat,
                                    buffer: array<T>, bufferSize: nat) returns (cut: nat)
    requires first0 < last <= a.Length && len == last - first0
    requires buffer != a && 0 < bufferSize <= buffer.Length
    modifies a, buffer
    ensures a[..][first0..last] == Partitioned(old(a[..])[first0..last], pred)
    ensures SameOutside(old(a[..]), a[..], first0, last)
    ensures cut == first0 + |Chosen(old(a[..])[first0..last], pred)|
    decreases len
  {
    hide Partitioned, Rotated, Sifted, Chosen;
    ghost var all := a[..];
    if len <= bufferSize {
      cut := Sift(a, first0, last, pred, buffer);
    } else {
      var middle := first0 + len / 2;
      var cut1 := StablePartitionAdaptive(a, first0, middle, pred, len / 2, buffer, bufferSize);
      assert a[..][middle..last] == all[middle..last];
      var cut2 := StablePartitionAdaptive(a, middle, last, pred, len - len / 2, buffer, bufferSize);
      assert a[..][first0..middle] == Partitioned(all[first0..middle], pred);
      HalvesRotated(all, a[..], first0, middle, last, cut1, cut2, pred);
      cut := RotateForward(a, cut1, middle, cut2);
    }
  }

  // Its first case: the buffer is large enough for all others.
  method Sift<T>(a: array<T>, first0: nat, last: nat, pred: T -> bool, buffer: array<T>) returns (result1: nat)
    requires first0 <= last <= a.Length && buffer != a && last - first0 <= buffer.Length
    modifies a, buffer
    ensures a[..][first0..last] == Partitioned(old(a[..])[first0..last], pred)
    ensures SameOutside(old(a[..]), a[..], first0, last)
    ensures result1 == first0 + |Chosen(old(a[..])[first0..last], pred)|
  {
    hide Partitioned, Written, Chosen, Others;
    ghost var all := a[..];
    var first := first0;
    result1 := first0;
    var result2 := 0;
    NothingSifted(all, buffer[..], first0, last, pred);
    while first != last
      invariant Sifted(all, a[..], buffer[..], first0, first, last, result1, result2, pred)
    {
      SiftNext(all, a[..], buffer[..], first0, first, last, result1, result2, pred);
      hide Sifted;
      if pred(a[first]) {
        SiftKept(all, a[..], buffer[..], first0, first, last, result1, result2, pred);
        a[result1] := a[first];
        result1 := result1 + 1;
      } else {
        SiftAside(all, a[..], buffer[..], first0, first, last, result1, result2, pred);
        buffer[result2] := a[first];
        result2 := result2 + 1;
      }
      first := first + 1;
    }
    SiftDone(all, a[..], buffer[..], first0, last, result1, result2, pred);
    assert buffer[0..result2] == buffer[..][..result2];
    Copy(buffer, 0, result2, a, result1);
  }

  lemma NothingSifted<T>(all: seq<T>, buffer: seq<T>, first: nat, last: nat, pred: T -> bool)
    requires first <= last <= |all|
    ensures Sifted(all, all, buffer, first, first, last, first, 0, pred)
  {
  }

  /** stable_partition, whatever buffer there is: one that is null or has no room is not used. */
  method StablePartition<T>(a: array<T>, first: nat, last: nat, pred: T -> bool, buffer: array?<T>) returns (cut: nat)
    requires first <= last <= a.Length && buffer != a
    modifies a, buffer
    ensures a[..][first..last] == Partitioned(old(a[..])[first..last], pred)
    ensures SameOutside(old(a[..]), a[..], first, last)
    ensures cut == first + |Chosen(old(a[..])[first..last], pred)|
  {
    if first == last {
      cut := first;
    } else if buffer != null && buffer.Length > 0 {
      cut := StablePartitionAdaptive(a, first, last, pred, last - first, buffer, buffer.Length);
    } else {
      cut := InplaceStablePartition(a, first, last, pred, last - first);
    }
  }
}
