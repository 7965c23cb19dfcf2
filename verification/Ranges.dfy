/** Ranges of a sequence copied, filled and overwritten, as the copying loops of the containers do. */
module Ranges {
  import opened Ordering
  import opened StableSorting

  function Repeat<T>(n: int, x: T): (s: seq<T>)
    ensures |s| == if n < 0 then 0 else n
    ensures forall k :: 0 <= k < |s| ==> s[k] == x
  {
    if n <= 0 then [] else Repeat(n - 1, x) + [x]
  }

  // Division of ptrdiff_t values, which drops the fraction.
  function Truncated(a: int, b: int): int
    requires b > 0
  {
    if a >= 0 then a / b else -((-a) / b)
  }

  // One more cell of a copy from f to r, of a copy ending at r and running back, of a filled range.
  lemma CopyStep<T>(c0: seq<T>, f: nat, r: nat, i: nat, n: nat, c: seq<T>)
    requires i < n && f + n <= |c0| && r + n <= |c0| && (r <= f || f + n <= r)
    requires c == Written(c0, r, c0[f..f + i])
    ensures |c| == |c0| && c[f + i] == c0[f + i] && c[r + i] == c0[r + i]
    ensures c[r + i := c0[f + i]] == Written(c0, r, c0[f..f + (i + 1)])
  {
    assert c0[f..f + (i + 1)] == c0[f..f + i] + [c0[f + i]];
  }

  lemma CopyBackStep<T>(c0: seq<T>, l: nat, r: nat, i: nat, c: seq<T>)
    requires i < l <= r <= |c0|
    requires c == Written(c0, r - i, c0[l - i..l])
    ensures |c| == |c0| && c[l - i - 1] == c0[l - i - 1] && c[r - i - 1] == c0[r - i - 1]
    ensures c[r - i - 1 := c0[l - i - 1]] == Written(c0, r - (i + 1), c0[l - (i + 1)..l])
  {
    assert c0[l - (i + 1)..l] == [c0[l - i - 1]] + c0[l - i..l];
  }

  lemma FillStep<T>(c0: seq<T>, f: nat, i: nat, x: T, c: seq<T>)
    requires f + i < |c0|
    requires c == Written(c0, f, Repeat(i, x))
    ensures |c| == |c0| && c[f + i] == c0[f + i]
    ensures c[f + i := x] == Written(c0, f, Repeat(i + 1, x))
  {
  }

  lemma PartOfPart<T>(s: seq<T>, lo: nat, hi: nat, i: nat, j: nat)
    requires lo <= hi <= |s| && i <= j <= hi - lo
    ensures s[lo..hi][i..j] == s[lo + i..lo + j]
    ensures i == 0 ==> s[lo..hi][..j] == s[lo..lo + j]
  {
    forall k | 0 <= k < j - i ensures s[lo..hi][i..j][k] == s[lo + i..lo + j][k] {
    }
  }

  lemma WrittenAt<T>(s: seq<T>, d: nat, t: seq<T>)
    requires d + |t| <= |s|
    ensures |Written(s, d, t)| == |s|
    ensures forall k :: 0 <= k < |s| ==> Written(s, d, t)[k] == if d <= k < d + |t| then t[k - d] else s[k]
  {
  }

  lemma WrittenNone<T>(s: seq<T>, d: nat, t: seq<T>)
    requires d <= |s| && t == []
    ensures Written(s, d, t) == s
  {
  }

  lemma WrittenPart<T>(s: seq<T>, d: nat, t: seq<T>)
    requires d + |t| <= |s|
    ensures |Written(s, d, t)| == |s| && Written(s, d, t)[d..d + |t|] == t
    ensures SameOutside(s, Written(s, d, t), d, d + |t|)
  {
  }

  lemma WrittenLength<T>(s: seq<T>, d: nat, t: seq<T>)
    requires d + |t| <= |s|
    ensures |Written(s, d, t)| == |s|
  {
  }

  // The elements on either side of an erased one moved over it: one end is left to be popped.
  lemma WrittenErased<T>(v: seq<T>, i: nat)
    requires i < |v|
    ensures |Written(v, 1, v[..i])| == |v| && Written(v, 1, v[..i])[1..] == v[..i] + v[i + 1..]
    ensures |Written(v, i, v[i + 1..|v|])| == |v| && Written(v, i, v[i + 1..|v|])[..|v| - 1] == v[..i] + v[i + 1..]
  {
  }

  lemma WrittenRangeErased<T>(v: seq<T>, i: nat, j: nat)
    requires i <= j <= |v|
    ensures |Written(v, j - i, v[..i])| == |v| && Written(v, j - i, v[..i])[j - i..] == v[..i] + v[j..]
    ensures |Written(v, i, v[j..|v|])| == |v| && Written(v, i, v[j..|v|])[..|v| - (j - i)] == v[..i] + v[j..]
  {
  }
}
