/** Merging and stable_sort with a temporary buffer of any size. */
module AdaptiveSorting {
  import opened Ordering
  import opened Insertion
  import opened Merging
  import opened Ranges
  import opened Rotation
  import opened StableSorting

  // ----- merging into another array, or to the left within the second one -----

  // out is what has been merged of the first i elements of s and the first j of t.
  ghost predicate MergedSoFar<T>(lt: Order<T>, s: seq<T>, t: seq<T>, i: nat, j: nat, out: seq<T>) {
    i <= |s| && j <= |t| && |out| == i + j && out + Merge(lt, s[i..], t[j..]) == Merge(lt, s, t)
  }

  lemma MergeHead<T>(lt: Order<T>, s: seq<T>, t: seq<T>)
    requires s != [] && t != []
    ensures Merge(lt, s, t) == if lt(t[0], s[0]) then [t[0]] + Merge(lt, s, t[1..]) else [s[0]] + Merge(lt, s[1..], t)
  {
  }

  lemma MergeOne<T>(lt: Order<T>, s: seq<T>, t: seq<T>, i: nat, j: nat, out: seq<T>)
    requires MergedSoFar(lt, s, t, i, j, out) && i < |s| && j < |t|
    ensures lt(t[j], s[i]) ==> MergedSoFar(lt, s, t, i, j + 1, out + [t[j]])
    ensures !lt(t[j], s[i]) ==> MergedSoFar(lt, s, t, i + 1, j, out + [s[i]])
  {
    var s', t' := s[i..], t[j..];
    MergeHead(lt, s', t');
    hide Merge;
    assert s'[1..] == s[i + 1..] && t'[1..] == t[j + 1..];
    if lt(t[j], s[i]) {
      assert out + ([t[j]] + Merge(lt, s', t'[1..])) == (out + [t[j]]) + Merge(lt, s', t'[1..]);
    } else {
      assert out + ([s[i]] + Merge(lt, s'[1..], t')) == (out + [s[i]]) + Merge(lt, s'[1..], t');
    }
  }

  lemma MergeRest<T>(lt: Order<T>, s: seq<T>, t: seq<T>, i: nat, j: nat, out: seq<T>)
    requires MergedSoFar(lt, s, t, i, j, out) && (i == |s| || j == |t|)
    ensures out + (s[i..] + t[j..]) == Merge(lt, s, t)
  {
    hide Merge, MergeBack;
    MergesOneEmpty(lt, s[i..], t[j..]);
  }

  lemma WriteNext<T>(s: seq<T>, d: nat, out: seq<T>, v: T)
    requires d + |out| < |s|
    ensures |Written(s, d, out)| == |s|
    ensures Written(s, d, out)[d + |out| := v] == Written(s, d, out + [v])
  {
  }

  lemma WriteMore<T>(s: seq<T>, d: nat, out: seq<T>, t: seq<T>)
    requires d + |out| + |t| <= |s|
    ensures |Written(s, d, out)| == |s|
    ensures Written(Written(s, d, out), d + |out|, t) == Written(s, d, out + t)
  {
  }

  // What is behind the output is as it was.
  lemma NotWritten<T>(s: seq<T>, w: seq<T>, d: nat, out: seq<T>, i: nat, j: nat)
    requires d + |out| <= i <= j <= |s| && w == Written(s, d, out)
    ensures |w| == |s| && w[i..j] == s[i..j] && (i < j ==> w[i] == s[i])
  {
  }

  lemma SliceFrom<T>(s: seq<T>, first: nat, last: nat, i: nat)
    requires first + i <= last <= |s|
    ensures s[first..last][i..] == s[first + i..last]
    ensures i < last - first ==> s[first..last][i] == s[first + i]
  {
  }

  lemma NothingMerged<T>(lt: Order<T>, s: seq<T>, t: seq<T>, all: seq<T>, d: nat)
    requires d <= |all|
    ensures MergedSoFar(lt, s, t, 0, 0, []) && Written(all, d, []) == all
  {
    hide Merge;
    assert s[0..] == s && t[0..] == t && [] + Merge(lt, s, t) == Merge(lt, s, t);
  }

  // merge
  method MergeTo<T(!new)>(a1: array<T>, first1: nat, last1: nat, a2: array<T>, first2: nat, last2: nat,
                          dst: array<T>, d: nat, lt: Order<T>)
    requires first1 <= last1 <= a1.Length && first2 <= last2 <= a2.Length
    requires d + (last1 - first1) + (last2 - first2) <= dst.Length
    requires a1 != dst && (a2 == dst ==> d + (last1 - first1) <= first2)
    modifies dst
    ensures dst[..] == Written(old(dst[..]), d, Merge(lt, old(a1[..])[first1..last1], old(a2[..])[first2..last2]))
  {
    hide *;
    ghost var all, all1, all2 := dst[..], a1[..], a2[..];
    ghost var s, t := all1[first1..last1], all2[first2..last2];
    ghost var out := [];
    var i: nat, j: nat, result: nat := first1, first2, d;
    NothingMerged(lt, s, t, all, d);
    while i != last1 && j != last2
      invariant first1 <= i <= last1 && first2 <= j <= last2
      invariant result == d + |out| && |out| == (i - first1) + (j - first2)
      invariant MergedSoFar(lt, s, t, i - first1, j - first2, out)
      invariant dst[..] == Written(all, d, out) && a1[..] == all1 && (a2 != dst ==> a2[..] == all2)
      decreases last1 - i + last2 - j
    {
      if a2 == dst {
        NotWritten(all, dst[..], d, out, j, last2);
      }
      SliceFrom(all1, first1, last1, i - first1);
      SliceFrom(all2, first2, last2, j - first2);
      ghost var w, x, y := dst[..], s[i - first1], t[j - first2];
      assert a1[i] == a1[..][i] == x && a2[j] == a2[..][j] == y;
      MergeOne(lt, s, t, i - first1, j - first2, out);
      ghost var v := if lt(y, x) then y else x;
      WriteNext(all, d, out, v);
      if lt(a2[j], a1[i]) {
        dst[result] := a2[j];
        j := j + 1;
      } else {
        dst[result] := a1[i];
        i := i + 1;
      }
      assert dst[..] == w[result := v];
      out := out + [v];
      result := result + 1;
    }
    MergeRest(lt, s, t, i - first1, j - first2, out);
    SliceFrom(all1, first1, last1, i - first1);
    SliceFrom(all2, first2, last2, j - first2);
    if a2 == dst {
      NotWritten(all, dst[..], d, out, j, last2);
    }
    CopyRests(a1, i, last1, a2, j, last2, dst, result);
    WriteMore(all, d, out, s[i - first1..] + t[j - first2..]);
  }

  // What both inputs still hold is copied, the first one first.
  method CopyRests<T>(a1: array<T>, i: nat, last1: nat, a2: array<T>, j: nat, last2: nat, dst: array<T>, d: nat)
    requires i <= last1 <= a1.Length && j <= last2 <= a2.Length && d + (last1 - i) + (last2 - j) <= dst.Length
    requires a1 != dst && (a2 == dst ==> d + (last1 - i) <= j)
    modifies dst
    ensures dst[..] == Written(old(dst[..]), d, old(a1[..])[i..last1] + old(a2[..])[j..last2])
  {
    hide Written;
    ghost var all, s, t := dst[..], a1[..][i..last1], a2[..][j..last2];
    assert a1[i..last1] == s;
    Copy(a1, i, last1, dst, d);
    if a2 == dst {
      NotWritten(all, dst[..], d, s, j, last2);
    }
    assert a2[j..last2] == a2[..][j..last2] == t;
    WriteMore(all, d, s, t);
    Copy(a2, j, last2, dst, d + (last1 - i));
  }

  // ----- merging from the end -----

  // The first i elements of s and the first j of t are still to be merged; the others are,
  // in w up to end.
  ghost predicate MergingBack<T>(lt: Order<T>, s: seq<T>, t: seq<T>, all: seq<T>, w: seq<T>, end: nat, i: nat, j: nat) {
    && i <= |s| && j <= |t| && |s| + |t| <= end <= |all| == |w|
    && var m := end - (|s| - i) - (|t| - j);
       w[..m] == all[..m] && w[end..] == all[end..] && MergeBack(lt, s[..i], t[..j]) + w[m..end] == MergeBack(lt, s, t)
  }

  lemma BackStart<T>(lt: Order<T>, s: seq<T>, t: seq<T>, all: seq<T>, end: nat)
    requires |s| + |t| <= end <= |all|
    ensures MergingBack(lt, s, t, all, all, end, |s|, |t|) && s[..|s|] == s && t[..|t|] == t
  {
    hide MergeBack;
    assert s[..|s|] == s && t[..|t|] == t && MergeBack(lt, s, t) + all[end..end] == MergeBack(lt, s, t);
  }

  lemma SamePrefix<T>(w: seq<T>, all: seq<T>, m: nat, i: nat, j: nat)
    requires i <= j <= m <= |w| && m <= |all| && w[..m] == all[..m]
    ensures w[i..j] == all[i..j]
  {
    assert w[i..j] == w[..m][i..j] && all[i..j] == all[..m][i..j];
  }

  lemma BackTake<T>(lt: Order<T>, s: seq<T>, t: seq<T>, all: seq<T>, w: seq<T>, end: nat, i: nat, j: nat, k: nat)
    requires MergingBack(lt, s, t, all, w, end, i, j) && 0 < i && 0 < j
    requires k == end - (|s| - i) - (|t| - j) - 1
    ensures k < |w|
    ensures lt(t[j - 1], s[i - 1]) ==> MergingBack(lt, s, t, all, w[k := s[i - 1]], end, i - 1, j)
    ensures !lt(t[j - 1], s[i - 1]) ==> MergingBack(lt, s, t, all, w[k := t[j - 1]], end, i, j - 1)
  {
    hide MergeBack, MergingBack;
    BackBounds(lt, s, t, all, w, end, i, j);
    var s', t' := s[..i], t[..j];
    MergeTakes(lt, s', t');
    assert s'[..i - 1] == s[..i - 1] && t'[..j - 1] == t[..j - 1];
    if lt(t[j - 1], s[i - 1]) {
      BackAdd(lt, s, t, all, w, end, i, j, i - 1, j, k, s[i - 1]);
    } else {
      BackAdd(lt, s, t, all, w, end, i, j, i, j - 1, k, t[j - 1]);
    }
  }

  lemma BackBounds<T>(lt: Order<T>, s: seq<T>, t: seq<T>, all: seq<T>, w: seq<T>, end: nat, i: nat, j: nat)
    requires MergingBack(lt, s, t, all, w, end, i, j)
    ensures i <= |s| && j <= |t| && |s| + |t| <= end <= |w|
  {
  }

  lemma BackAdd<T>(lt: Order<T>, s: seq<T>, t: seq<T>, all: seq<T>, w: seq<T>, end: nat, i: nat, j: nat,
                   i': nat, j': nat, k: nat, v: T)
    requires MergingBack(lt, s, t, all, w, end, i, j) && k == end - (|s| - i) - (|t| - j) - 1
    requires i' <= i && j' <= j && i' + j' + 1 == i + j && k < |w|
    requires MergeBack(lt, s[..i], t[..j]) == MergeBack(lt, s[..i'], t[..j']) + [v]
    ensures MergingBack(lt, s, t, all, w[k := v], end, i', j')
  {
    hide MergeBack;
    var rest := MergeBack(lt, s[..i'], t[..j']);
    BackWrite(w, all, k, end, v);
    assert (rest + [v]) + w[k + 1..end] == rest + ([v] + w[k + 1..end]);
  }

  lemma BackWrite<T>(w: seq<T>, all: seq<T>, k: nat, end: nat, v: T)
    requires k < end <= |w| == |all| && w[..k + 1] == all[..k + 1] && w[end..] == all[end..]
    ensures var u := w[k := v]; u[..k] == all[..k] && u[end..] == all[end..] && u[k..end] == [v] + w[k + 1..end]
  {
    SamePrefix(w, all, k + 1, 0, k);
  }

  lemma BackEnd<T>(lt: Order<T>, s: seq<T>, t: seq<T>, all: seq<T>, w: seq<T>, end: nat, i: nat, j: nat, r: seq<T>)
    requires MergingBack(lt, s, t, all, w, end, i, j)
    requires (i == 0 && r == t[..j]) || (j == 0 && r == s[..i])
    ensures |w| == |all|
    ensures Written(w, end - |s| - |t|, r) == Written(all, end - |s| - |t|, MergeBack(lt, s, t))
  {
    hide Merge, MergeBack;
    MergesOneEmpty(lt, s[..i], t[..j]);
    assert s[..i] + t[..j] == r;
    var m, d := end - (|s| - i) - (|t| - j), end - |s| - |t|;
    WrittenBack(w, all, d, r, m, end);
  }

  lemma WrittenBack<T>(w: seq<T>, all: seq<T>, d: nat, r: seq<T>, m: nat, end: nat)
    requires d + |r| == m <= end <= |w| == |all| && w[..m] == all[..m] && w[end..] == all[end..]
    ensures Written(w, d, r) == Written(all, d, r + w[m..end])
  {
    SamePrefix(w, all, m, 0, d);
    assert w[m..] == w[m..end] + w[end..];
    assert w[..d] + r + (w[m..end] + w[end..]) == w[..d] + (r + w[m..end]) + w[end..];
  }

  // What is left of one range when the other is used up.
  method CopyRest<T(!new)>(src: array<T>, first: nat, last: nat, dst: array<T>, result: nat, ghost end: nat,
                           ghost lt: Order<T>, ghost s: seq<T>, ghost t: seq<T>, ghost all: seq<T>, ghost i: nat,
                           ghost j: nat)
    requires first <= last <= src.Length && last - first <= result <= dst.Length && (src == dst ==> last <= result)
    requires MergingBack(lt, s, t, all, dst[..], end, i, j) && i <= |s| && j <= |t|
    requires (i == 0 && src[..][first..last] == t[..j]) || (j == 0 && src[..][first..last] == s[..i])
    requires |s| + |t| <= end && result == end - (|s| - i) - (|t| - j)
    modifies dst
    ensures |all| == dst.Length && end <= dst.Length && dst[..] == Written(all, end - |s| - |t|, MergeBack(lt, s, t))
  {
    hide *;
    BackBounds(lt, s, t, all, dst[..], end, i, j);
    BackEnd(lt, s, t, all, dst[..], end, i, j, src[..][first..last]);
    assert src[first..last] == src[..][first..last];
    CopyBackward(src, first, last, dst, result);
  }

  // The range from first to last still holds the first elements of s.
  ghost predicate Unread<T>(u: seq<T>, first: nat, last: nat, s: seq<T>) {
    first <= last <= |u| && last - first <= |s| && u[first..last] == s[..last - first]
  }

  // One element written behind what has not been read yet.
  method PutBack<T>(a1: array<T>, ghost first1: nat, ghost last1: nat,
                    a2: array<T>, ghost first2: nat, ghost last2: nat, dst: array<T>,
                    result: nat, v: T, ghost s: seq<T>, ghost t: seq<T>)
    requires result < dst.Length && (dst == a1 ==> last1 <= result) && (dst == a2 ==> last2 <= result)
    requires Unread(a1[..], first1, last1, s) && Unread(a2[..], first2, last2, t)
    modifies dst
    ensures dst[..] == old(dst[..])[result := v]
    ensures Unread(a1[..], first1, last1, s) && Unread(a2[..], first2, last2, t)
  {
    hide Unread;
    ghost var u1, u2 := a1[..], a2[..];
    dst[result] := v;
    StillUnread(u1, a1[..], first1, last1, s);
    StillUnread(u2, a2[..], first2, last2, t);
  }

  // __merge_backward. The result may lie in the array of a range, if it leaves room for the
  // other one behind it.
  method MergeBackward<T(!new)>(a1: array<T>, first1: nat, end1: nat, a2: array<T>, first2: nat, end2: nat,
                                dst: array<T>, end: nat, lt: Order<T>)
    requires first1 <= end1 <= a1.Length && first2 <= end2 <= a2.Length
    requires (end1 - first1) + (end2 - first2) <= end <= dst.Length
    requires dst == a1 ==> end1 + (end2 - first2) <= end
    requires dst == a2 ==> end2 + (end1 - first1) <= end
    modifies dst
    ensures dst[..] == Written(old(dst[..]), end - (end1 - first1) - (end2 - first2),
                               MergeBack(lt, old(a1[..])[first1..end1], old(a2[..])[first2..end2]))
  {
    hide *;
    ghost var all := dst[..];
    ghost var s, t := a1[..][first1..end1], a2[..][first2..end2];
    BackStart(lt, s, t, all, end);
    if first1 == end1 {
      CopyRest(a2, first2, end2, dst, end, end, lt, s, t, all, |s|, |t|);
      return;
    }
    if first2 == end2 {
      CopyRest(a1, first1, end1, dst, end, end, lt, s, t, all, |s|, |t|);
      return;
    }
    var last1: nat, last2: nat, result: nat := end1 - 1, end2 - 1, end;
    AllUnread(a1[..], first1, end1, s);
    AllUnread(a2[..], first2, end2, t);
    while true
      invariant first1 <= last1 < end1 && first2 <= last2 < end2
      invariant result == end - (end1 - last1 - 1) - (end2 - last2 - 1)
      invariant dst == a1 ==> last1 + 1 + (last2 + 1 - first2) <= result
      invariant dst == a2 ==> last2 + 1 + (last1 + 1 - first1) <= result
      invariant MergingBack(lt, s, t, all, dst[..], end, last1 + 1 - first1, last2 + 1 - first2)
      invariant Unread(a1[..], first1, last1 + 1, s) && Unread(a2[..], first2, last2 + 1, t)
      decreases last1 + last2
    {
      ghost var i, j := last1 + 1 - first1, last2 + 1 - first2;
      var from1 := TakeLast(a1, first1, last1, a2, first2, last2, dst, end, result, lt, s, t, all);
      result := result - 1;
      if from1 {
        if first1 == last1 {
          RestOf(a2[..], first2, last2 + 1, t);
          CopyRest(a2, first2, last2 + 1, dst, result, end, lt, s, t, all, 0, j);
          return;
        }
        last1 := last1 - 1;
      } else {
        if first2 == last2 {
          RestOf(a1[..], first1, last1 + 1, s);
          CopyRest(a1, first1, last1 + 1, dst, result, end, lt, s, t, all, i, 0);
          return;
        }
        last2 := last2 - 1;
      }
    }
  }

  // The greater of the two last elements is put in front of the result.
  method TakeLast<T(!new)>(a1: array<T>, ghost first1: nat, last1: nat, a2: array<T>, ghost first2: nat, last2: nat,
                           dst: array<T>, ghost end: nat, result: nat, lt: Order<T>, ghost s: seq<T>, ghost t: seq<T>,
                           ghost all: seq<T>)
    returns (from1: bool)
    requires first1 <= last1 && first2 <= last2 && end <= dst.Length && 0 < result
    requires Unread(a1[..], first1, last1 + 1, s) && Unread(a2[..], first2, last2 + 1, t)
    requires last1 - first1 < |s| && last2 - first2 < |t| && last1 < a1.Length && last2 < a2.Length
    requires result == end - (|s| - (last1 + 1 - first1)) - (|t| - (last2 + 1 - first2))
    requires dst == a1 ==> last1 + 1 + (last2 + 1 - first2) <= result
    requires dst == a2 ==> last2 + 1 + (last1 + 1 - first1) <= result
    requires MergingBack(lt, s, t, all, dst[..], end, last1 + 1 - first1, last2 + 1 - first2)
    modifies dst
    ensures if from1 then MergingBack(lt, s, t, all, dst[..], end, last1 - first1, last2 + 1 - first2)
            else MergingBack(lt, s, t, all, dst[..], end, last1 + 1 - first1, last2 - first2)
    ensures Unread(a1[..], first1, if from1 then last1 else last1 + 1, s)
    ensures Unread(a2[..], first2, if from1 then last2 + 1 else last2, t)
  {
    hide *;
    LastOf(a1[..], first1, last1, s);
    LastOf(a2[..], first2, last2, t);
    BackTake(lt, s, t, all, dst[..], end, last1 + 1 - first1, last2 + 1 - first2, result - 1);
    BackBounds(lt, s, t, all, dst[..], end, last1 + 1 - first1, last2 + 1 - first2);
    from1 := lt(a2[last2], a1[last1]);
    if from1 {
      PutBack(a1, first1, last1, a2, first2, last2 + 1, dst, result - 1, a1[last1], s, t);
    } else {
      PutBack(a1, first1, last1 + 1, a2, first2, last2, dst, result - 1, a2[last2], s, t);
    }
  }

  lemma LastOf<T>(u: seq<T>, first: nat, last: nat, s: seq<T>)
    requires first <= last && Unread(u, first, last + 1, s)
    ensures last < |u| && last - first < |s| && u[last] == s[last - first] && Unread(u, first, last, s)
  {
    assert u[last] == u[first..last + 1][last - first];
    assert u[first..last] == u[first..last + 1][..last - first];
  }

  lemma RestOf<T>(u: seq<T>, first: nat, last: nat, s: seq<T>)
    requires Unread(u, first, last, s)
    ensures first <= last <= |u| && last - first <= |s| && u[first..last] == s[..last - first]
  {
  }

  lemma AllUnread<T>(u: seq<T>, first: nat, last: nat, s: seq<T>)
    requires first <= last <= |u| && s == u[first..last]
    ensures Unread(u, first, last, s)
  {
  }

  // What has not been read yet is not written over.
  lemma StillUnread<T>(u: seq<T>, w: seq<T>, first: nat, last: nat, s: seq<T>)
    requires |u| == |w| && Unread(u, first, last, s) && forall k :: first <= k < last ==> w[k] == u[k]
    ensures Unread(w, first, last, s)
  {
  }

  // ----- merging adjacent ranges with a buffer -----

  lemma RotatedByCopying<T>(a: seq<T>, first: nat, middle: nat, last: nat)
    requires first <= middle <= last <= |a|
    ensures |Written(a, last - (middle - first), a[first..middle])| == |a|
    ensures Written(Written(a, last - (middle - first), a[first..middle]), first, a[middle..last]) ==
            Rotated(a, first, middle, last)
    ensures |Written(a, first, a[middle..last])| == |a|
    ensures Written(Written(a, first, a[middle..last]), last - (middle - first), a[first..middle]) ==
            Rotated(a, first, middle, last)
  {
  }

  // __rotate_adaptive
  method RotateAdaptive<T>(a: array<T>, first: nat, middle: nat, last: nat, len1: nat, len2: nat,
                           buffer: array<T>, bufferSize: nat) returns (newMiddle: nat)
    requires first <= middle <= last <= a.Length && len1 == middle - first && len2 == last - middle
    requires buffer != a && bufferSize <= buffer.Length
    modifies a, buffer
    ensures a[..] == Rotated(old(a[..]), first, middle, last)
    ensures newMiddle == first + len2
  {
    hide Written, Rotated;
    ghost var all := a[..];
    RotatedByCopying(all, first, middle, last);
    if len1 > len2 && len2 <= bufferSize {
      Copy(a, middle, last, buffer, 0);
      WrittenPart(old(buffer[..]), 0, all[middle..last]);
      assert a[first..middle] == all[first..middle] && a[middle..last] == all[middle..last];
      CopyBackward(a, first, middle, a, last);
      assert buffer[0..len2] == buffer[..][0..len2];
      Copy(buffer, 0, len2, a, first);
      newMiddle := first + len2;
    } else if len1 <= bufferSize {
      Copy(a, first, middle, buffer, 0);
      WrittenPart(old(buffer[..]), 0, all[first..middle]);
      assert a[first..middle] == all[first..middle] && a[middle..last] == all[middle..last];
      Copy(a, middle, last, a, first);
      assert buffer[0..len1] == buffer[..][0..len1];
      CopyBackward(buffer, 0, len1, a, last);
      newMiddle := last - len1;
    } else {
      newMiddle := RotateBidirectional(a, first, middle, last);
    }
  }

  lemma MergedInPlace<T(!new)>(lt: Order<T>, a: seq<T>, first: nat, middle: nat, last: nat)
    requires StrictWeakOrder(lt) && first <= middle <= last <= |a|
    requires Sorted(lt, a[first..middle]) && Sorted(lt, a[middle..last])
    ensures Merge(lt, a[first..middle], a[middle..last]) == SortOf(lt, a[first..last])
    ensures MergeBack(lt, a[first..middle], a[middle..last]) == SortOf(lt, a[first..last])
    ensures var w := Written(a, first, SortOf(lt, a[first..last]));
      w[first..last] == SortOf(lt, a[first..last]) && SameOutside(a, w, first, last)
  {
    hide StrictWeakOrder, SortOf, Merge, MergeBack, Sorted;
    MergesAgree(lt, a[first..middle], a[middle..last]);
    assert a[first..middle] + a[middle..last] == a[first..last];
    WrittenPart(a, first, SortOf(lt, a[first..last]));
  }

  // __merge_adaptive. With an empty buffer two single elements would be cut at the same
  // place for ever.
  method MergeAdaptive<T(!new)>(a: array<T>, first: nat, middle: nat, last: nat, len1: nat, len2: nat,
                                buffer: array<T>, bufferSize: nat, lt: Order<T>)
    requires StrictWeakOrder(lt) && first <= middle <= last <= a.Length
    requires Sorted(lt, a[..][first..middle]) && Sorted(lt, a[..][middle..last])
    requires len1 == middle - first && len2 == last - middle
    requires buffer != a && 0 < bufferSize <= buffer.Length
    modifies a, buffer
    ensures a[..][first..last] == SortOf(lt, old(a[..])[first..last])
    ensures SameOutside(old(a[..]), a[..], first, last)
    decreases len1 + len2
  {
    hide StrictWeakOrder, Sorted, SortOf, Cut, Rotated, Merge, MergeBack, Written, SameOutside;
    ghost var all := a[..];
    if len1 <= len2 && len1 <= bufferSize {
      assert a[first..middle] == all[first..middle];
      Copy(a, first, middle, buffer, 0);
      WrittenPart(old(buffer[..]), 0, all[first..middle]);
      MergedInPlace(lt, all, first, middle, last);
      MergeTo(buffer, 0, len1, a, middle, last, a, first, lt);
    } else if len2 <= bufferSize {
      assert a[middle..last] == all[middle..last];
      Copy(a, middle, last, buffer, 0);
      WrittenPart(old(buffer[..]), 0, all[middle..last]);
      MergedInPlace(lt, all, first, middle, last);
      MergeBackward(a, first, middle, buffer, 0, len2, a, last, lt);
    } else {
      var firstCut, secondCut, len11, len22 := FindCuts(a, first, middle, last, len1, len2, lt);
      CutBounds(lt, all, first, firstCut, middle, secondCut, last);
      var newMiddle := RotateAdaptive(a, firstCut, middle, secondCut, len1 - len11, len22, buffer, bufferSize);
      ghost var b := a[..];
      PiecesAfterRotation(lt, all, b, first, firstCut, middle, secondCut, last, newMiddle);
      MergeAdaptive(a, first, firstCut, newMiddle, len11, len22, buffer, bufferSize, lt);
      ghost var c := a[..];
      Untouched(b, c, first, newMiddle, newMiddle, secondCut);
      Untouched(b, c, first, newMiddle, secondCut, last);
      Untouched(b, c, first, newMiddle, newMiddle, last);
      MergeAdaptive(a, newMiddle, secondCut, last, len1 - len11, len2 - len22, buffer, bufferSize, lt);
      Untouched(c, a[..], newMiddle, last, first, newMiddle);
      PiecesMerged(lt, all, b, a[..], first, firstCut, middle, secondCut, last, newMiddle);
      OutsideOfBoth(all, b, c, a[..], first, newMiddle, last);
    }
  }

  // ----- bottom-up merge sort -----

  // Every run of step elements, counted from the start, sorted by itself.
  ghost function RunsSorted<T>(lt: Order<T>, s: seq<T>, step: nat): (r: seq<T>)
    requires step > 0
    ensures |r| == |s|
  {
    if |s| < step then SortOf(lt, s) else SortOf(lt, s[..step]) + RunsSorted(lt, s[step..], step)
  }

  lemma OneRun<T>(lt: Order<T>, s: seq<T>, step: nat)
    requires |s| <= step && step > 0
    ensures RunsSorted(lt, s, step) == SortOf(lt, s)
  {
    if |s| == step {
      assert s[..step] == s && s[step..] == [];
    }
  }

  lemma FirstRun<T>(lt: Order<T>, s: seq<T>, step: nat)
    requires 0 < step <= |s|
    ensures RunsSorted(lt, s, step) == SortOf(lt, s[..step]) + RunsSorted(lt, s[step..], step)
  {
  }

  lemma MergeNothing<T>(lt: Order<T>, s: seq<T>)
    ensures Merge(lt, s, []) == s
  {
  }

  /** Merging the first two runs of length step makes one of the double length. */
  lemma TwoRuns<T(!new)>(lt: Order<T>, s: seq<T>, step: nat)
    requires StrictWeakOrder(lt) && 0 < step && 2 * step <= |s|
    ensures var r := RunsSorted(lt, s, step);
      && r[2 * step..] == RunsSorted(lt, s[2 * step..], step)
      && RunsSorted(lt, s, 2 * step) == Merge(lt, r[..step], r[step..2 * step]) +
         RunsSorted(lt, s[2 * step..], 2 * step)
  {
    hide StrictWeakOrder, SortOf, Merge;
    var u := s[step..];
    assert u[..step] == s[step..2 * step] && u[step..] == s[2 * step..];
    assert s[..2 * step] == s[..step] + u[..step];
    SortPartsFirst(lt, s[..step], u[..step]);
    var r := RunsSorted(lt, s, step);
    assert r[..step] == SortOf(lt, s[..step]) && r[step..] == RunsSorted(lt, u, step);
    assert r[step..2 * step] == RunsSorted(lt, u, step)[..step] == SortOf(lt, u[..step]);
    assert r[2 * step..] == RunsSorted(lt, u, step)[step..];
  }

  /** The rest of less than two runs is merged to one. */
  lemma LastRuns<T(!new)>(lt: Order<T>, s: seq<T>, step: nat)
    requires StrictWeakOrder(lt) && 0 < step && |s| < 2 * step
    ensures var r := RunsSorted(lt, s, step); var m := if |s| < step then |s| else step;
      RunsSorted(lt, s, 2 * step) == Merge(lt, r[..m], r[m..])
  {
    hide StrictWeakOrder, SortOf, RunsSorted, Merge, MergeBack;
    var r := RunsSorted(lt, s, step);
    OneRun(lt, s, 2 * step);
    if |s| >= step {
      var u, v := s[..step], s[step..];
      assert s == u + v;
      OneRun(lt, v, step);
      FirstRun(lt, s, step);
      SortPartsFirst(lt, u, v);
      assert r[..step] == SortOf(lt, u) && r[step..] == SortOf(lt, v);
    } else {
      OneRun(lt, s, step);
      assert r[..|s|] == r && r[|s|..] == [];
      MergeNothing(lt, r);
    }
  }

  // __merge_sort_loop
  method MergeSortLoop<T(!new)>(src: array<T>, first0: nat, last: nat, dst: array<T>, d: nat, step: nat, lt: Order<T>,
                                ghost s: seq<T>)
    requires StrictWeakOrder(lt) && first0 <= last <= src.Length && d + (last - first0) <= dst.Length && src != dst
    requires step > 0 && src[..][first0..last] == RunsSorted(lt, s, step)
    modifies dst
    ensures dst[..] == Written(old(dst[..]), d, RunsSorted(lt, s, 2 * step))
  {
    hide *;
    ghost var all, given := dst[..], src[..];
    ghost var out := [];
    var first: nat, result: nat := first0, d;
    var twoStep := 2 * step;
    NothingDone(lt, s, twoStep, all, d);
    while last - first >= twoStep
      invariant first0 <= first <= last && |s| == last - first0
      invariant |out| == first - first0 && result == d + |out| && dst[..] == Written(all, d, out)
      invariant out + RunsSorted(lt, s[first - first0..], twoStep) == RunsSorted(lt, s, twoStep)
      invariant given[first..last] == RunsSorted(lt, s[first - first0..], step) && src[..] == given
    {
      NextRuns(lt, given, s, first0, first, last, step);
      ghost var merged := Merge(lt, given[first..first + step], given[first + step..first + twoStep]);
      ghost var rest := RunsSorted(lt, s[first + twoStep - first0..], twoStep);
      MergeTo(src, first, first + step, src, first + step, first + twoStep, dst, result, lt);
      WriteMore(all, d, out, merged);
      assert (out + merged) + rest == out + (merged + rest);
      out := out + merged;
      result := result + twoStep;
      first := first + twoStep;
    }
    var stepSize := if last - first < step then last - first else step;
    FinalRuns(lt, given, s, first0, first, last, step, stepSize);
    MergeTo(src, first, first + stepSize, src, first + stepSize, last, dst, result, lt);
    WriteMore(all, d, out, Merge(lt, given[first..first + stepSize], given[first + stepSize..last]));
  }

  lemma SubSlice<T>(s: seq<T>, first: nat, last: nat, i: nat, j: nat)
    requires i <= j && first + j <= last <= |s|
    ensures s[first..last][i..j] == s[first + i..first + j]
    ensures i == 0 ==> s[first..last][..j] == s[first..first + j]
    ensures j == last - first ==> s[first..last][i..] == s[first + i..last]
  {
    var u, v := s[first..last][i..j], s[first + i..first + j];
    assert |u| == |v| && forall k :: 0 <= k < |u| ==> u[k] == s[first..last][i + k] == s[first + i + k] == v[k];
  }

  lemma NextRuns<T(!new)>(lt: Order<T>, given: seq<T>, s: seq<T>, first0: nat, first: nat, last: nat, step: nat)
    requires StrictWeakOrder(lt) && first0 <= first <= last <= |given| && |s| == last - first0
    requires 0 < step && 2 * step <= last - first && given[first..last] == RunsSorted(lt, s[first - first0..], step)
    ensures given[first + 2 * step..last] == RunsSorted(lt, s[first + 2 * step - first0..], step)
    ensures RunsSorted(lt, s[first - first0..], 2 * step)
         == Merge(lt, given[first..first + step], given[first + step..first + 2 * step])
          + RunsSorted(lt, s[first + 2 * step - first0..], 2 * step)
  {
    hide *;
    var rest, r := s[first - first0..], given[first..last];
    TwoRuns(lt, rest, step);
    assert rest[2 * step..] == s[first + 2 * step - first0..];
    SubSlice(given, first, last, 0, step);
    SubSlice(given, first, last, step, 2 * step);
    SubSlice(given, first, last, 2 * step, last - first);
  }

  lemma FinalRuns<T(!new)>(lt: Order<T>, given: seq<T>, s: seq<T>, first0: nat, first: nat, last: nat, step: nat,
                           m: nat)
    requires StrictWeakOrder(lt) && first0 <= first <= last <= |given| && |s| == last - first0
    requires last - first < 2 * step && given[first..last] == RunsSorted(lt, s[first - first0..], step)
    requires m == if last - first < step then last - first else step
    ensures RunsSorted(lt, s[first - first0..], 2 * step) == Merge(lt, given[first..first + m], given[first + m..last])
  {
    hide *;
    var rest, r := s[first - first0..], given[first..last];
    LastRuns(lt, rest, step);
    assert r[..m] == given[first..first + m] && r[m..] == given[first + m..last];
  }

  lemma NothingDone<T>(lt: Order<T>, s: seq<T>, step: nat, all: seq<T>, d: nat)
    requires d <= |all| && step > 0
    ensures Written(all, d, []) == all && [] + RunsSorted(lt, s[0..], step) == RunsSorted(lt, s, step)
  {
    hide RunsSorted;
    assert s[0..] == s;
  }

  // __chunk_insertion_sort
  method ChunkInsertionSort<T(!new)>(a: array<T>, first0: nat, last: nat, chunkSize: nat, lt: Order<T>)
    requires StrictWeakOrder(lt) && first0 <= last <= a.Length && chunkSize > 0
    modifies a
    ensures a[..] == Written(old(a[..]), first0, RunsSorted(lt, old(a[..])[first0..last], chunkSize))
  {
    hide *;
    ghost var all := a[..];
    ghost var s := all[first0..last];
    ghost var out := [];
    var first: nat := first0;
    NothingDone(lt, s, chunkSize, all, first0);
    while last - first >= chunkSize
      invariant first0 <= first <= last && |out| == first - first0 && a[..] == Written(all, first0, out)
      invariant out + RunsSorted(lt, s[first - first0..], chunkSize) == RunsSorted(lt, s, chunkSize)
    {
      ghost var w := a[..];
      InsertionSort(a, first, first + chunkSize, lt);
      ChunkStep(lt, all, w, a[..], first0, first, last, chunkSize, out);
      out := out + SortOf(lt, s[first - first0..first - first0 + chunkSize]);
      first := first + chunkSize;
    }
    ghost var w := a[..];
    InsertionSort(a, first, last, lt);
    LastChunk(lt, all, w, a[..], first0, first, last, chunkSize, out);
  }

  lemma ChunkStep<T>(lt: Order<T>, all: seq<T>, w: seq<T>, w': seq<T>, first0: nat, first: nat, last: nat, step: nat,
                     out: seq<T>)
    requires 0 < step && first0 <= first && first + step <= last <= |all|
    requires |out| == first - first0 && w == Written(all, first0, out)
    requires |w| == |all| && SameOutside(w, w', first, first + step)
    requires w'[first..first + step] == SortOf(lt, w[first..first + step])
    ensures var s, i := all[first0..last], first - first0; var out' := out + SortOf(lt, s[i..i + step]);
      && w' == Written(all, first0, out') && |out'| == i + step
      && out + RunsSorted(lt, s[i..], step) == out' + RunsSorted(lt, s[i + step..], step)
  {
    hide *;
    RunOff(lt, all[first0..last], step, first - first0, out);
    ChunkSorted(lt, all, w, first0, first, first + step, last, out);
    ChangedPart(w, w', first, first + step);
  }

  lemma LastChunk<T>(lt: Order<T>, all: seq<T>, w: seq<T>, w': seq<T>, first0: nat, first: nat, last: nat, step: nat,
                     out: seq<T>)
    requires 0 < step && first0 <= first <= last <= |all| && last - first < step
    requires |out| == first - first0 && w == Written(all, first0, out)
    requires |w| == |all| && SameOutside(w, w', first, last) && w'[first..last] == SortOf(lt, w[first..last])
    ensures w' == Written(all, first0, out + RunsSorted(lt, all[first0..last][first - first0..], step))
  {
    hide *;
    var s := all[first0..last];
    RunOff(lt, s, step, first - first0, out);
    ChunkSorted(lt, all, w, first0, first, last, last, out);
    assert s[first - first0..last - first0] == s[first - first0..];
    ChangedPart(w, w', first, last);
  }

  // The next run of s, or all that is left.
  lemma RunOff<T>(lt: Order<T>, s: seq<T>, step: nat, i: nat, out: seq<T>)
    requires step > 0 && i <= |s|
    ensures i + step <= |s| ==>
      out + RunsSorted(lt, s[i..], step) == (out + SortOf(lt, s[i..i + step])) + RunsSorted(lt, s[i + step..], step)
    ensures i + step > |s| ==> RunsSorted(lt, s[i..], step) == SortOf(lt, s[i..])
  {
    hide SortOf;
    var rest := s[i..];
    if i + step <= |s| {
      assert rest[..step] == s[i..i + step] && rest[step..] == s[i + step..];
      var run, others := SortOf(lt, rest[..step]), RunsSorted(lt, rest[step..], step);
      assert out + (run + others) == (out + run) + others;
    }
  }

  // Sorting a chunk behind the output adds it to the output.
  lemma ChunkSorted<T>(lt: Order<T>, all: seq<T>, w: seq<T>, first0: nat, first: nat, end: nat, last: nat, out: seq<T>)
    requires first0 <= first <= end <= last <= |all| && |out| == first - first0 && w == Written(all, first0, out)
    ensures |w| == |all| && w[first..end] == all[first0..last][first - first0..end - first0]
    ensures Written(w, first, SortOf(lt, w[first..end])) ==
            Written(all, first0, out + SortOf(lt, all[first0..last][first - first0..end - first0]))
  {
    hide SortOf, Written;
    NotWritten(all, w, first0, out, first, end);
    PartOfPart(all, first0, last, first - first0, end - first0);
    WriteMore(all, first0, out, SortOf(lt, all[first..end]));
  }

  lemma ChangedPart<T>(s: seq<T>, t: seq<T>, lo: nat, hi: nat)
    requires lo <= hi <= |s| && SameOutside(s, t, lo, hi)
    ensures t == Written(s, lo, t[lo..hi])
  {
  }

  lemma WrittenOver<T>(s: seq<T>, d: nat, t: seq<T>, u: seq<T>)
    requires d + |t| <= |s| && |u| == |t|
    ensures |Written(s, d, t)| == |s| && Written(Written(s, d, t), d, u) == Written(s, d, u)
  {
  }

  // __merge_sort_with_buffer: two passes at a time, so that the elements are back in a.
  method MergeSortWithBuffer<T(!new)>(a: array<T>, first: nat, last: nat, buffer: array<T>, lt: Order<T>)
    requires StrictWeakOrder(lt) && first <= last <= a.Length && buffer != a && last - first <= buffer.Length
    modifies a, buffer
    ensures a[..][first..last] == SortOf(lt, old(a[..])[first..last])
    ensures SameOutside(old(a[..]), a[..], first, last)
  {
    hide StrictWeakOrder, RunsSorted, Written, SortOf, SameOutside;
    ghost var all := a[..];
    ghost var s := all[first..last];
    var len := last - first;
    var step: nat := 7;
    ChunkInsertionSort(a, first, last, step, lt);
    WrittenPart(all, first, RunsSorted(lt, s, step));
    while step < len
      invariant step > 0 && a[..] == Written(all, first, RunsSorted(lt, s, step))
      invariant a[..][first..last] == RunsSorted(lt, s, step)
      decreases len - step
    {
      ghost var was := buffer[..];
      MergeSortLoop(a, first, last, buffer, 0, step, lt, s);
      WrittenPart(was, 0, RunsSorted(lt, s, 2 * step));
      ghost var before := step;
      step := step * 2;
      MergeSortLoop(buffer, 0, len, a, first, step, lt, s);
      WrittenOver(all, first, RunsSorted(lt, s, before), RunsSorted(lt, s, 2 * step));
      step := step * 2;
      WrittenPart(all, first, RunsSorted(lt, s, step));
    }
    OneRun(lt, s, step);
    WrittenPart(all, first, SortOf(lt, s));
  }

  // __stable_sort_adaptive
  method StableSortAdaptive<T(!new)>(a: array<T>, first: nat, last: nat, buffer: array<T>, bufferSize: nat,
                                     lt: Order<T>)
    requires StrictWeakOrder(lt) && first <= last <= a.Length && buffer != a && 0 < bufferSize <= buffer.Length
    modifies a, buffer
    ensures a[..][first..last] == SortOf(lt, old(a[..])[first..last])
    ensures SameOutside(old(a[..]), a[..], first, last)
    decreases last - first
  {
    hide StrictWeakOrder, SortOf, SameOutside, Sorted;
    ghost var all := a[..];
    var len := (last - first + 1) / 2;
    var middle := first + len;
    ghost var b;
    if len > bufferSize {
      StableSortAdaptive(a, first, middle, buffer, bufferSize, lt);
      b := a[..];
      Untouched(all, b, first, middle, middle, last);
      StableSortAdaptive(a, middle, last, buffer, bufferSize, lt);
    } else {
      MergeSortWithBuffer(a, first, middle, buffer, lt);
      b := a[..];
      Untouched(all, b, first, middle, middle, last);
      MergeSortWithBuffer(a, middle, last, buffer, lt);
    }
    ghost var c := a[..];
    Untouched(b, c, middle, last, first, middle);
    HalvesSorted(lt, all, c, first, middle, last);
    MergeAdaptive(a, first, middle, last, middle - first, last - middle, buffer, bufferSize, lt);
    OutsideOfAll(all, b, c, a[..], first, middle, last);
  }

  // stable_sort; buffer is null when no memory at all could be had for it, and otherwise
  // not empty.
  method StableSort<T(!new)>(a: array<T>, first: nat, last: nat, buffer: array?<T>, lt: Order<T>)
    requires StrictWeakOrder(lt) && first <= last <= a.Length
    requires buffer != null ==> buffer != a && 0 < buffer.Length
    modifies a, buffer
    ensures a[..][first..last] == SortOf(lt, old(a[..])[first..last])
    ensures SameOutside(old(a[..]), a[..], first, last)
  {
    hide *;
    if buffer == null {
      InplaceStableSort(a, first, last, lt);
    } else {
      StableSortAdaptive(a, first, last, buffer, buffer.Length, lt);
    }
  }

  // inplace_merge, with a buffer as above.
  method InplaceMerge<T(!new)>(a: array<T>, first: nat, middle: nat, last: nat, buffer: array?<T>, lt: Order<T>)
    requires StrictWeakOrder(lt) && first <= middle <= last <= a.Length
    requires Sorted(lt, a[..][first..middle]) && Sorted(lt, a[..][middle..last])
    requires buffer != null ==> buffer != a && 0 < buffer.Length
    modifies a, buffer
    ensures a[..][first..last] == SortOf(lt, old(a[..])[first..last])
    ensures SameOutside(old(a[..]), a[..], first, last)
  {
    hide StrictWeakOrder, SortOf, Sorted;
    if first == middle || middle == last {
      assert a[..][first..last] == if first == middle then a[..][middle..last] else a[..][first..middle];
      SortedIsSortOf(lt, a[..][first..last]);
      return;
    }
    var len1, len2 := middle - first, last - middle;
    if buffer == null {
      MergeWithoutBuffer(a, first, middle, last, len1, len2, lt);
    } else {
      MergeAdaptive(a, first, middle, last, len1, len2, buffer, buffer.Length, lt);
    }
  }
}
