/** Strict weak orders, and what sorting and merging promise about them. */
module Ordering {

  type Order<!T> = (T, T) -> bool

  // Section 25.3 of ISO/IEC 14882:1998: irreflexive, transitive, and such that being
  // equivalent is transitive.
  ghost predicate StrictWeakOrder<T(!new)>(lt: Order<T>) {
    && (forall x :: !lt(x, x))
    && (forall x, y, z :: lt(x, y) && lt(y, z) ==> lt(x, z))
    && (forall x, y, z :: Equivalent(lt, x, y) && Equivalent(lt, y, z) ==> Equivalent(lt, x, z))
  }

  predicate Equivalent<T>(lt: Order<T>, x: T, y: T) {
    !lt(x, y) && !lt(y, x)
  }

  /** "Not less" is transitive. */
  lemma NotLessTransitive<T(!new)>(lt: Order<T>, x: T, y: T, z: T)
    requires StrictWeakOrder(lt) && !lt(x, y) && !lt(y, z)
    ensures !lt(x, z)
  {
    assert lt(y, x) && lt(x, z) ==> lt(y, z);
    assert lt(x, z) && lt(z, y) ==> lt(x, y);
    assert Equivalent(lt, x, y) && Equivalent(lt, y, z) ==> Equivalent(lt, x, z);
  }

  lemma LessThenNotLess<T(!new)>(lt: Order<T>, x: T, y: T)
    requires StrictWeakOrder(lt) && lt(x, y)
    ensures !lt(y, x)
  {
  }

  lemma Irreflexive<T(!new)>(lt: Order<T>, x: T)
    requires StrictWeakOrder(lt)
    ensures !lt(x, x)
  {
  }

  ghost predicate Sorted<T>(lt: Order<T>, s: seq<T>) {
    forall i, j :: 0 <= i < j < |s| ==> !lt(s[j], s[i])
  }

  // No element of s is above an element of t.
  ghost predicate NotAbove<T>(lt: Order<T>, s: seq<T>, t: seq<T>) {
    forall i, j :: 0 <= i < |s| && 0 <= j < |t| ==> !lt(t[j], s[i])
  }

  lemma NotAbovePermuted<T>(lt: Order<T>, s: seq<T>, t: seq<T>, s': seq<T>, t': seq<T>)
    requires NotAbove(lt, s, t) && multiset(s) == multiset(s') && multiset(t) == multiset(t')
    ensures NotAbove(lt, s', t')
  {
    forall i, j | 0 <= i < |s'| && 0 <= j < |t'| ensures !lt(t'[j], s'[i]) {
      assert s'[i] in multiset(s) && t'[j] in multiset(t);
      var k :| 0 <= k < |s| && s[k] == s'[i];
      var m :| 0 <= m < |t| && t[m] == t'[j];
    }
  }

  // Only the elements from lo up to hi may differ.
  ghost predicate SameOutside<T>(s: seq<T>, t: seq<T>, lo: int, hi: int) {
    |s| == |t| && forall i :: 0 <= i < |s| && !(lo <= i < hi) ==> s[i] == t[i]
  }

  // t is s with the elements from lo up to hi permuted.
  ghost predicate PermutedWithin<T>(s: seq<T>, t: seq<T>, lo: int, hi: int) {
    0 <= lo <= hi <= |s| && SameOutside(s, t, lo, hi) && multiset(s[lo..hi]) == multiset(t[lo..hi])
  }

  lemma PermutedSame<T>(s: seq<T>, lo: int, hi: int)
    requires 0 <= lo <= hi <= |s|
    ensures PermutedWithin(s, s, lo, hi)
  {
  }

  lemma SameOutsideTransitive<T>(s: seq<T>, t: seq<T>, u: seq<T>, lo: int, hi: int)
    requires SameOutside(s, t, lo, hi) && SameOutside(t, u, lo, hi)
    ensures SameOutside(s, u, lo, hi)
  {
  }

  lemma PermutedTransitive<T>(s: seq<T>, t: seq<T>, u: seq<T>, lo: int, hi: int)
    requires PermutedWithin(s, t, lo, hi) && PermutedWithin(t, u, lo, hi)
    ensures PermutedWithin(s, u, lo, hi)
  {
  }

  /** A permutation of a part is a permutation of the whole. */
  lemma PermutedWider<T>(s: seq<T>, t: seq<T>, lo: int, hi: int, lo': int, hi': int)
    requires PermutedWithin(s, t, lo, hi) && 0 <= lo' <= lo && hi <= hi' <= |s|
    ensures PermutedWithin(s, t, lo', hi')
  {
    assert s[lo'..hi'] == s[lo'..lo] + s[lo..hi] + s[hi..hi'];
    assert t[lo'..hi'] == t[lo'..lo] + t[lo..hi] + t[hi..hi'];
    assert s[lo'..lo] == t[lo'..lo] && s[hi..hi'] == t[hi..hi'];
  }

  /** Exchanging two elements. */
  lemma SwapPermutes<T>(s: seq<T>, lo: int, hi: int, i: int, j: int)
    requires 0 <= lo <= i < hi <= |s| && lo <= j < hi
    ensures PermutedWithin(s, s[i := s[j]][j := s[i]], lo, hi)
  {
    var t := s[i := s[j]][j := s[i]];
    assert t[lo..hi] == s[lo..hi][i - lo := s[j]][j - lo := s[i]];
  }

  /** Moving an element into a hole moves the hole. */
  lemma MoveHole<T>(s: seq<T>, i: int, j: int, v: T)
    requires 0 <= i < |s| && 0 <= j < |s| && i != j
    ensures multiset(s[i := s[j]][j := v]) == multiset(s[i := v])
  {
    assert s[i := s[j]][j := v] == s[i := v][i := s[i := v][j]][j := s[i := v][i]];
  }

  /** Writing one element, seen from a range around it. */
  lemma WriteInRange<T>(s: seq<T>, lo: int, hi: int, i: int, v: T)
    requires 0 <= lo <= i < hi <= |s|
    ensures s[i := v][lo..hi] == s[lo..hi][i - lo := v]
  {
  }

  // iter_swap
  method IterSwap<T>(a: array<T>, i: nat, j: nat)
    requires i < a.Length && j < a.Length
    modifies a
    ensures a[..] == old(a[..])[i := old(a[..])[j]][j := old(a[..])[i]]
  {
    a[i], a[j] := a[j], a[i];
  }

  // The number of elements that n halvings or doublings get by with.
  function Pow2(n: nat): (p: nat)
    ensures p > 0
  {
    if n == 0 then 1 else 2 * Pow2(n - 1)
  }
}
