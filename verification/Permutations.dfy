/** next_permutation and prev_permutation. */
module Permutations {
  import opened Ordering
  import opened Rotation

  // ----- lexicographic order, up to equivalence of elements -----

  ghost predicate SamePrefix<T>(lt: Order<T>, s: seq<T>, t: seq<T>, m: nat) {
    m <= |s| && m <= |t| && forall k :: 0 <= k < m ==> Equivalent(lt, s[k], t[k])
  }

  ghost predicate LessAt<T>(lt: Order<T>, s: seq<T>, t: seq<T>, m: nat) {
    m < |s| == |t| && SamePrefix(lt, s, t, m) && lt(s[m], t[m])
  }

  ghost predicate LexLess<T>(lt: Order<T>, s: seq<T>, t: seq<T>) {
    exists m: nat :: LessAt(lt, s, t, m)
  }

  ghost predicate Permutation<T>(s: seq<T>, t: seq<T>) {
    |s| == |t| && multiset(s) == multiset(t)
  }

  // t is the least of the permutations of s that are greater than s.
  ghost predicate IsSuccessor<T(!new)>(lt: Order<T>, s: seq<T>, t: seq<T>) {
    && Permutation(s, t) && LexLess(lt, s, t)
    && forall r :: Permutation(s, r) && LexLess(lt, s, r) ==> !LexLess(lt, r, t)
  }

  ghost predicate IsGreatest<T(!new)>(lt: Order<T>, s: seq<T>) {
    forall r :: Permutation(s, r) ==> !LexLess(lt, s, r)
  }

  // ----- counting elements below a bound -----

  ghost function Count<T>(lt: Order<T>, x: T, s: seq<T>): nat {
    if s == [] then 0 else Count(lt, x, s[..|s| - 1]) + if lt(x, s[|s| - 1]) then 0 else 1
  }

  lemma {:induction false} CountConcat<T>(lt: Order<T>, x: T, s: seq<T>, t: seq<T>)
    ensures Count(lt, x, s + t) == Count(lt, x, s) + Count(lt, x, t)
  {
    if t == [] {
      assert s + t == s;
    } else {
      assert (s + t)[..|s + t| - 1] == s + t[..|t| - 1];
      CountConcat(lt, x, s, t[..|t| - 1]);
    }
  }

  lemma CountOne<T>(lt: Order<T>, x: T, y: T)
    ensures Count(lt, x, [y]) == if lt(x, y) then 0 else 1
  {
    assert [y][..0] == [];
  }

  lemma CountSplit<T>(lt: Order<T>, x: T, s: seq<T>, m: nat)
    requires m < |s|
    ensures Count(lt, x, s) == Count(lt, x, s[..m]) + (if lt(x, s[m]) then 0 else 1) + Count(lt, x, s[m + 1..])
  {
    assert s == s[..m] + ([s[m]] + s[m + 1..]);
    CountConcat(lt, x, s[..m], [s[m]] + s[m + 1..]);
    CountConcat(lt, x, [s[m]], s[m + 1..]);
    CountOne(lt, x, s[m]);
  }

  lemma RemoveSame<T>(s: seq<T>, t: seq<T>, k: nat)
    requires Permutation(s, t) && k < |t| && s[0] == t[k]
    ensures Permutation(s[1..], t[..k] + t[k + 1..])
  {
    assert s == [s[0]] + s[1..];
    assert t == t[..k] + [t[k]] + t[k + 1..];
    assert multiset(s[1..]) == multiset(s) - multiset{s[0]};
    assert multiset(t[..k] + t[k + 1..]) == multiset(t) - multiset{t[k]};
  }

  lemma {:induction false} CountPermutation<T>(lt: Order<T>, x: T, s: seq<T>, t: seq<T>)
    requires Permutation(s, t)
    ensures Count(lt, x, s) == Count(lt, x, t)
    decreases |s|
  {
    if s != [] {
      assert s[0] in multiset(t);
      var k :| 0 <= k < |t| && t[k] == s[0];
      var s', t' := s[1..], t[..k] + t[k + 1..];
      RemoveSame(s, t, k);
      CountSplit(lt, x, s, 0);
      CountSplit(lt, x, t, k);
      CountConcat(lt, x, t[..k], t[k + 1..]);
      CountPermutation(lt, x, s', t');
    }
  }

  lemma {:induction false} CountSamePrefix<T(!new)>(lt: Order<T>, x: T, s: seq<T>, t: seq<T>, m: nat)
    requires StrictWeakOrder(lt) && SamePrefix(lt, s, t, m)
    ensures Count(lt, x, s[..m]) == Count(lt, x, t[..m])
    decreases m
  {
    hide StrictWeakOrder;
    if m > 0 {
      CountSamePrefix(lt, x, s, t, m - 1);
      assert s[..m][..m - 1] == s[..m - 1] && t[..m][..m - 1] == t[..m - 1];
      assert Equivalent(lt, s[m - 1], t[m - 1]);
      if lt(x, s[m - 1]) {
        NotLessCompose(lt, x, s[m - 1], t[m - 1]);
      } else {
        NotLessTransitive(lt, x, s[m - 1], t[m - 1]);
      }
    }
  }

  lemma NotLessCompose<T(!new)>(lt: Order<T>, x: T, y: T, z: T)
    requires StrictWeakOrder(lt) && lt(x, y) && !lt(z, y)
    ensures lt(x, z)
  {
    hide StrictWeakOrder;
    if !lt(x, z) {
      NotLessTransitive(lt, x, z, y);
    }
  }

  lemma {:induction false} CountNone<T>(lt: Order<T>, x: T, s: seq<T>)
    requires forall k :: 0 <= k < |s| ==> lt(x, s[k])
    ensures Count(lt, x, s) == 0
  {
    if s != [] {
      CountNone(lt, x, s[..|s| - 1]);
    }
  }

  lemma {:induction false} CountGrows<T(!new)>(lt: Order<T>, x: T, y: T, s: seq<T>)
    requires StrictWeakOrder(lt) && lt(x, y)
    ensures Count(lt, x, s) <= Count(lt, y, s)
  {
    hide StrictWeakOrder;
    if s != [] {
      CountGrows(lt, x, y, s[..|s| - 1]);
      LessThenNotLess(lt, x, y);
      if !lt(x, s[|s| - 1]) {
        NotLessTransitive(lt, y, x, s[|s| - 1]);
      }
    }
  }

  lemma {:induction false} CountSame<T>(lt: Order<T>, x: T, y: T, s: seq<T>)
    requires forall k :: 0 <= k < |s| ==> (lt(x, s[k]) <==> lt(y, s[k]))
    ensures Count(lt, x, s) == Count(lt, y, s)
  {
    if s != [] {
      CountSame(lt, x, y, s[..|s| - 1]);
    }
  }

  // ----- sorted ends of sequences -----

  function Flip<T>(lt: Order<T>): Order<T> {
    (x, y) => lt(y, x)
  }

  lemma FlipIsOrder<T(!new)>(lt: Order<T>)
    requires StrictWeakOrder(lt)
    ensures StrictWeakOrder(Flip(lt))
  {
    var gt := Flip(lt);
    forall x, y, z | Equivalent(gt, x, y) && Equivalent(gt, y, z) ensures Equivalent(gt, x, z) {
      assert Equivalent(lt, x, y) && Equivalent(lt, y, z);
    }
  }

  // From position m on, no element is below one before it; for Flip(lt), above.
  ghost predicate AscendingFrom<T>(lt: Order<T>, s: seq<T>, m: nat) {
    forall x, y :: m <= x < y < |s| ==> !lt(s[y], s[x])
  }

  /** A sequence that ascends from m has no smaller permutation that begins the same up to m. */
  lemma AscendingIsLeast<T(!new)>(lt: Order<T>, u: seq<T>, v: seq<T>, from: nat, m: nat)
    requires StrictWeakOrder(lt) && Permutation(u, v) && AscendingFrom(lt, u, from) && from <= m
    ensures !LessAt(lt, v, u, m)
  {
    hide StrictWeakOrder;
    if LessAt(lt, v, u, m) {
      var x := v[m];
      CountPermutation(lt, x, u, v);
      CountSamePrefix(lt, x, v, u, m);
      CountSplit(lt, x, u, m);
      CountSplit(lt, x, v, m);
      Irreflexive(lt, x);
      var rest := u[m + 1..];
      forall k | 0 <= k < |rest| ensures lt(x, rest[k]) {
        assert !lt(u[m + 1 + k], u[m]);
        NotLessCompose(lt, x, u[m], rest[k]);
      }
      CountNone(lt, x, rest);
    }
  }

  lemma FlipLess<T>(lt: Order<T>, s: seq<T>, t: seq<T>, m: nat)
    requires LessAt(lt, s, t, m)
    ensures LessAt(Flip(lt), t, s, m)
  {
    forall k | 0 <= k < m ensures Equivalent(Flip(lt), t[k], s[k]) {
      assert Equivalent(lt, s[k], t[k]);
    }
  }

  /** A sequence that descends from m has no greater permutation that begins the same up to m. */
  lemma DescendingIsGreatest<T(!new)>(lt: Order<T>, u: seq<T>, v: seq<T>, from: nat, m: nat)
    requires StrictWeakOrder(lt) && Permutation(u, v) && AscendingFrom(Flip(lt), u, from) && from <= m
    ensures !LessAt(lt, u, v, m)
  {
    FlipIsOrder(lt);
    hide StrictWeakOrder;
    if LessAt(lt, u, v, m) {
      FlipLess(lt, u, v, m);
      AscendingIsLeast(Flip(lt), u, v, from, m);
    }
  }

  lemma LessAtAsymmetric<T(!new)>(lt: Order<T>, s: seq<T>, t: seq<T>, m: nat, m': nat)
    requires StrictWeakOrder(lt) && LessAt(lt, s, t, m)
    ensures !LessAt(lt, t, s, m')
  {
    hide StrictWeakOrder;
    if m < m' {
      assert !Equivalent(lt, t[m], s[m]);
    } else if m' < m {
      assert Equivalent(lt, s[m'], t[m']);
    } else {
      LessThenNotLess(lt, s[m], t[m]);
    }
  }

  // ----- the step -----

  // What a successful call does: i is the last position whose element is below the next,
  // and j the last one behind it whose element is above that of i.
  ghost predicate Step<T>(lt: Order<T>, s: seq<T>, t: seq<T>, i: nat, j: nat) {
    && i < j < |s| == |t|
    && AscendingFrom(Flip(lt), s, i + 1) && lt(s[i], s[i + 1])
    && lt(s[i], s[j]) && (forall k :: j < k < |s| ==> !lt(s[i], s[k]))
    && t == ReversedWithin(s[i := s[j]][j := s[i]], i + 1, |s|)
  }

  // The elements of t, by position.
  lemma StepElements<T>(lt: Order<T>, s: seq<T>, t: seq<T>, i: nat, j: nat)
    requires Step(lt, s, t, i, j)
    ensures i < j < |s| == |t| && Permutation(s, t)
    ensures t[i] == s[j] && forall k :: 0 <= k < i ==> t[k] == s[k]
    ensures forall k :: i < k < |s| ==> t[k] == s[i := s[j]][j := s[i]][|s| + i - k]
  {
    hide AscendingFrom, ReversedWithin;
    var w := s[i := s[j]][j := s[i]];
    SwapPermutes(s, 0, |s|, i, j);
    assert s[0..|s|] == s && w[0..|s|] == w;
    ReversedWithinPermutes(w, i + 1);
  }

  lemma ReversedWithinPermutes<T>(w: seq<T>, from: nat)
    requires from <= |w|
    ensures var t := ReversedWithin(w, from, |w|);
      && |t| == |w| && multiset(t) == multiset(w)
      && (forall k :: 0 <= k < from ==> t[k] == w[k])
      && (forall k :: from <= k < |w| ==> t[k] == w[|w| + from - 1 - k])
  {
    var end := w[from..];
    ReversedPermutes(end);
    assert w[from..|w|] == end && w == w[..from] + end;
    assert ReversedWithin(w, from, |w|) == w[..from] + Reversed(end);
  }

  lemma {:induction false} ReversedPermutes<T>(s: seq<T>)
    ensures multiset(Reversed(s)) == multiset(s)
  {
    if s != [] {
      assert s == s[..|s| - 1] + [s[|s| - 1]];
      assert Reversed(s) == [s[|s| - 1]] + Reversed(s[..|s| - 1]);
      ReversedPermutes(s[..|s| - 1]);
    }
  }

  /** After a step, the end of the sequence ascends. */
  lemma StepAscends<T(!new)>(lt: Order<T>, s: seq<T>, t: seq<T>, i: nat, j: nat)
    requires StrictWeakOrder(lt) && Step(lt, s, t, i, j)
    ensures AscendingFrom(lt, t, i + 1)
  {
    StepElements(lt, s, t, i, j);
    hide StrictWeakOrder;
    var w := s[i := s[j]][j := s[i]];
    forall x, y | i + 1 <= x < y < |w| ensures !lt(w[x], w[y]) {
      if y == j {
        assert !lt(s[x], s[j]);
        LessThenNotLess(lt, s[i], s[j]);
        NotLessTransitive(lt, s[x], s[j], s[i]);
      } else if x == j {
        assert !lt(s[i], s[y]);
      } else {
        assert !Flip(lt)(s[y], s[x]);
      }
    }
    forall x, y | i + 1 <= x < y < |t| ensures !lt(t[y], t[x]) {
      assert !lt(w[|s| + i - y], w[|s| + i - x]);
    }
  }

  /** No permutation of s has, at the pivot, an element strictly between that of s and that of t. */
  lemma NothingBetween<T(!new)>(lt: Order<T>, s: seq<T>, t: seq<T>, i: nat, j: nat, r: seq<T>)
    requires StrictWeakOrder(lt) && Step(lt, s, t, i, j) && Permutation(s, r) && SamePrefix(lt, s, r, i)
    requires lt(s[i], r[i])
    ensures !lt(r[i], s[j])
  {
    hide StrictWeakOrder;
    if lt(r[i], s[j]) {
      var x, y := s[i], r[i];
      CountPermutation(lt, x, s, r);
      CountPermutation(lt, y, s, r);
      CountSamePrefix(lt, x, s, r, i);
      CountSamePrefix(lt, y, s, r, i);
      CountSplit(lt, x, s, i);
      CountSplit(lt, y, s, i);
      CountSplit(lt, x, r, i);
      CountSplit(lt, y, r, i);
      Irreflexive(lt, x);
      Irreflexive(lt, y);
      LessThenNotLess(lt, x, y);
      CountGrows(lt, x, y, r[i + 1..]);
      var rest := s[i + 1..];
      forall k | 0 <= k < |rest| ensures lt(x, rest[k]) <==> lt(y, rest[k]) {
        if i + 1 + k <= j {
          if i + 1 + k < j { assert !Flip(lt)(s[j], s[i + 1 + k]); } else { Irreflexive(lt, s[j]); }
          NotLessCompose(lt, x, s[j], rest[k]);
          NotLessCompose(lt, y, s[j], rest[k]);
        } else {
          assert !lt(x, rest[k]);
          NotLessTransitive(lt, y, x, rest[k]);
        }
      }
      CountSame(lt, x, y, rest);
    }
  }

  /** A step leads to the least greater permutation. */
  lemma StepIsSuccessor<T(!new)>(lt: Order<T>, s: seq<T>, t: seq<T>, i: nat, j: nat)
    requires StrictWeakOrder(lt) && Step(lt, s, t, i, j)
    ensures IsSuccessor(lt, s, t)
  {
    StepElements(lt, s, t, i, j);
    forall k | 0 <= k < i ensures Equivalent(lt, s[k], t[k]) {
      Irreflexive(lt, s[k]);
    }
    assert LessAt(lt, s, t, i);
    hide StrictWeakOrder;
    forall r | Permutation(s, r) && LexLess(lt, s, r) ensures !LexLess(lt, r, t) {
      var m: nat :| LessAt(lt, s, r, m);
      forall m': nat ensures !LessAt(lt, r, t, m') {
        NothingInBetween(lt, s, t, i, j, r, m, m');
      }
    }
  }

  lemma NothingInBetween<T(!new)>(lt: Order<T>, s: seq<T>, t: seq<T>, i: nat, j: nat, r: seq<T>, m: nat, m': nat)
    requires StrictWeakOrder(lt) && Step(lt, s, t, i, j) && Permutation(s, r) && LessAt(lt, s, r, m)
    ensures !LessAt(lt, r, t, m')
  {
    hide StrictWeakOrder;
    StepElements(lt, s, t, i, j);
    if m > i {
      DescendingIsGreatest(lt, s, r, i + 1, m);
    } else if m < i {
      assert LessAt(lt, t, r, m);
      LessAtAsymmetric(lt, t, r, m, m');
    } else if m' < i {
      assert Equivalent(lt, s[m'], r[m']) && t[m'] == s[m'];
    } else if m' == i {
      NothingBetween(lt, s, t, i, j, r);
    } else {
      StepAscends(lt, s, t, i, j);
      AscendingIsLeast(lt, t, r, i + 1, m');
    }
  }

  /** A step back in the flipped order undoes a step. */
  lemma StepBack<T(!new)>(lt: Order<T>, s: seq<T>, t: seq<T>, i: nat, j: nat)
    requires StrictWeakOrder(lt) && Step(lt, s, t, i, j)
    ensures Step(Flip(lt), t, s, i, |s| + i - j)
  {
    hide *;
    StepElements(lt, s, t, i, j);
    StepAscends(lt, s, t, i, j);
    FlippedTwice(lt, t, i + 1);
    BelowAgain(lt, s, t, i, j);
    BackAgain(lt, s, t, i, j);
    StepIs(Flip(lt), t, s, i, |s| + i - j);
  }

  lemma FlippedTwice<T>(lt: Order<T>, t: seq<T>, from: nat)
    requires AscendingFrom(lt, t, from)
    ensures AscendingFrom(Flip(Flip(lt)), t, from)
  {
  }

  lemma StepIs<T>(lt: Order<T>, s: seq<T>, t: seq<T>, i: nat, j: nat)
    requires i < j < |s| == |t| && AscendingFrom(Flip(lt), s, i + 1) && lt(s[i], s[i + 1])
    requires lt(s[i], s[j]) && (forall k :: j < k < |s| ==> !lt(s[i], s[k]))
    requires t == ReversedWithin(s[i := s[j]][j := s[i]], i + 1, |s|)
    ensures Step(lt, s, t, i, j)
  {
  }

  // What the elements behind i are to the one at i after a step.
  lemma BelowAgain<T(!new)>(lt: Order<T>, s: seq<T>, t: seq<T>, i: nat, j: nat)
    requires StrictWeakOrder(lt) && Step(lt, s, t, i, j)
    ensures var j' := |s| + i - j;
      && i < j' < |t| && Flip(lt)(t[i], t[i + 1]) && Flip(lt)(t[i], t[j'])
      && forall k :: j' < k < |t| ==> !Flip(lt)(t[i], t[k])
  {
    StepElements(lt, s, t, i, j);
    hide StrictWeakOrder, ReversedWithin, Permutation;
    var gt, j', w := Flip(lt), |s| + i - j, s[i := s[j]][j := s[i]];
    // The first of the end of t is not above s[i], hence below s[j].
    assert t[i + 1] == w[|s| - 1] && t[j'] == w[j];
    if j < |s| - 1 {
      NotLessCompose2(lt, s[i], s[|s| - 1], s[j]);
    }
    forall k | j' < k < |t| ensures !gt(t[i], t[k]) {
      var x := |s| + i - k;
      assert t[k] == w[x] == s[x] && !Flip(lt)(s[j], s[x]);
    }
  }

  lemma BackAgain<T>(lt: Order<T>, s: seq<T>, t: seq<T>, i: nat, j: nat)
    requires Step(lt, s, t, i, j)
    ensures var j' := |s| + i - j; s == ReversedWithin(t[i := t[j']][j' := t[i]], i + 1, |s|)
  {
    hide Step, ReversedWithin, Permutation;
    StepElements(lt, s, t, i, j);
    var j' := |s| + i - j;
    var w' := t[i := t[j']][j' := t[i]];
    ReversedWithinPermutes(w', i + 1);
    var s' := ReversedWithin(w', i + 1, |s|);
    forall k | 0 <= k < |s| ensures s'[k] == s[k] {
      if k > i {
        assert s'[k] == w'[|s| + i - k];
      }
    }
    assert s' == s;
  }

  lemma NotLessCompose2<T(!new)>(lt: Order<T>, x: T, y: T, z: T)
    requires StrictWeakOrder(lt) && !lt(x, y) && lt(x, z)
    ensures lt(y, z)
  {
    hide StrictWeakOrder;
    if !lt(y, z) {
      NotLessTransitive(lt, x, y, z);
    }
  }

  lemma PivotIsLast<T>(lt: Order<T>, s: seq<T>, from: nat, x: nat)
    requires AscendingFrom(Flip(lt), s, from) && from <= x && x + 1 < |s|
    ensures !lt(s[x], s[x + 1])
  {
    assert !Flip(lt)(s[x + 1], s[x]);
  }

  /** There is only one step from a sequence. */
  lemma StepUnique<T>(lt: Order<T>, s: seq<T>, t: seq<T>, t': seq<T>, i: nat, j: nat, i': nat, j': nat)
    requires Step(lt, s, t, i, j) && Step(lt, s, t', i', j')
    ensures t == t'
  {
    hide AscendingFrom;
    if i < i' {
      PivotIsLast(lt, s, i + 1, i');
    } else if i' < i {
      PivotIsLast(lt, s, i' + 1, i);
    }
  }

  // ----- the algorithms -----

  lemma DescendsFurther<T(!new)>(lt: Order<T>, s: seq<T>, i: nat)
    requires StrictWeakOrder(lt) && i + 1 < |s| && AscendingFrom(Flip(lt), s, i + 1) && !lt(s[i], s[i + 1])
    ensures AscendingFrom(Flip(lt), s, i)
  {
    hide StrictWeakOrder;
    forall x, y | i <= x < y < |s| ensures !Flip(lt)(s[y], s[x]) {
      if x > i {
        assert !Flip(lt)(s[y], s[x]);
      } else if y > i + 1 {
        assert !Flip(lt)(s[y], s[i + 1]);
        NotLessTransitive(lt, s[i], s[i + 1], s[y]);
      }
    }
  }

  lemma DescendingHasNoSuccessor<T(!new)>(lt: Order<T>, s: seq<T>)
    requires StrictWeakOrder(lt) && AscendingFrom(Flip(lt), s, 0)
    ensures IsGreatest(lt, s)
    ensures Sorted(lt, Reversed(s)) && Permutation(s, Reversed(s))
  {
    hide StrictWeakOrder;
    forall r | Permutation(s, r) ensures !LexLess(lt, s, r) {
      forall m: nat ensures !LessAt(lt, s, r, m) {
        DescendingIsGreatest(lt, s, r, 0, m);
      }
    }
    ReversedPermutes(s);
    var t := Reversed(s);
    forall x, y | 0 <= x < y < |t| ensures !lt(t[y], t[x]) {
      assert !Flip(lt)(s[|s| - 1 - x], s[|s| - 1 - y]);
    }
  }

  // What next_permutation makes of a sequence, exactly.
  ghost predicate Next<T>(lt: Order<T>, s: seq<T>, t: seq<T>, more: bool) {
    if more then exists i: nat, j: nat :: Step(lt, s, t, i, j)
    else AscendingFrom(Flip(lt), s, 0) && t == Reversed(s)
  }

  /** And what it means: the least greater permutation, or from the greatest one to the sorted one. */
  lemma NextMeaning<T(!new)>(lt: Order<T>, s: seq<T>, t: seq<T>, more: bool)
    requires StrictWeakOrder(lt) && Next(lt, s, t, more)
    ensures Permutation(s, t) && (more <==> !IsGreatest(lt, s))
    ensures if more then IsSuccessor(lt, s, t) else Sorted(lt, t)
  {
    hide StrictWeakOrder;
    if more {
      var i: nat, j: nat :| Step(lt, s, t, i, j);
      StepIsSuccessor(lt, s, t, i, j);
    } else {
      DescendingHasNoSuccessor(lt, s);
    }
  }

  // Searches the end of the range for the last element that is above that at i.
  method FindLast<T(!new)>(a: array<T>, i: nat, last: nat, lt: Order<T>, ghost there: nat) returns (j: nat)
    requires i < there < last <= a.Length && lt(a[i], a[there])
    ensures i < j < last && lt(a[i], a[j]) && forall k :: j < k < last ==> !lt(a[i], a[k])
  {
    j := last - 1;
    while !lt(a[i], a[j])
      invariant there <= j < last && forall k :: j < k < last ==> !lt(a[i], a[k])
      decreases j
    {
      j := j - 1;
    }
  }

  // next_permutation
  method NextPermutation<T(!new)>(a: array<T>, first: nat, last: nat, lt: Order<T>) returns (more: bool)
    requires StrictWeakOrder(lt) && first <= last <= a.Length
    modifies a
    ensures SameOutside(old(a[..]), a[..], first, last)
    ensures Next(lt, old(a[..])[first..last], a[..][first..last], more)
  {
    hide StrictWeakOrder, ReversedWithin, AscendingFrom;
    ghost var all := a[..];
    ghost var s := all[first..last];
    if first == last || first + 1 == last {
      ShortIsDescending(lt, s);
      return false;
    }
    var i := last - 1;
    EndDescends(lt, s);
    while true
      invariant first < i < last && AscendingFrom(Flip(lt), s, i - first)
      invariant a[..] == all
      decreases i
    {
      var ii := i;
      i := i - 1;
      if lt(a[i], a[ii]) {
        var j := FindLast(a, i, last, lt, ii);
        a[i], a[j] := a[j], a[i];
        ghost var w := a[..];
        assert w == all[i := all[j]][j := all[i]];
        Reverse(a, ii, last);
        StepInRange(lt, all, a[..], first, last, i, j);
        return true;
      }
      DescendsFurther(lt, s, i - first);
      if i == first {
        Reverse(a, first, last);
        ReversedRange(all, first, last);
        return false;
      }
    }
  }

  // prev_permutation
  method PrevPermutation<T(!new)>(a: array<T>, first: nat, last: nat, lt: Order<T>) returns (more: bool)
    requires StrictWeakOrder(lt) && first <= last <= a.Length
    modifies a
    ensures SameOutside(old(a[..]), a[..], first, last)
    ensures Next(Flip(lt), old(a[..])[first..last], a[..][first..last], more)
  {
    hide StrictWeakOrder, ReversedWithin, AscendingFrom;
    FlipIsOrder(lt);
    ghost var gt := Flip(lt);
    ghost var all := a[..];
    ghost var s := all[first..last];
    if first == last || first + 1 == last {
      ShortIsDescending(gt, s);
      return false;
    }
    var i := last - 1;
    EndDescends(gt, s);
    while true
      invariant first < i < last && AscendingFrom(Flip(gt), s, i - first)
      invariant a[..] == all
      decreases i
    {
      var ii := i;
      i := i - 1;
      if lt(a[ii], a[i]) {
        var j := last - 1;
        while !lt(a[j], a[i])
          invariant ii <= j < last && forall k :: j < k < last ==> !gt(a[i], a[k])
          modifies {}
          decreases j
        {
          j := j - 1;
        }
        a[i], a[j] := a[j], a[i];
        ghost var w := a[..];
        assert w == all[i := all[j]][j := all[i]];
        Reverse(a, ii, last);
        StepInRange(gt, all, a[..], first, last, i, j);
        return true;
      }
      DescendsFurther(gt, s, i - first);
      if i == first {
        Reverse(a, first, last);
        ReversedRange(all, first, last);
        return false;
      }
    }
  }

  lemma ShortIsDescending<T>(lt: Order<T>, s: seq<T>)
    requires |s| <= 1
    ensures AscendingFrom(Flip(lt), s, 0) && s == Reversed(s)
  {
  }

  lemma EndDescends<T>(lt: Order<T>, s: seq<T>)
    requires |s| > 0
    ensures AscendingFrom(Flip(lt), s, |s| - 1)
  {
  }

  lemma ReversedRange<T>(all: seq<T>, first: nat, last: nat)
    requires first <= last <= |all|
    ensures var t := ReversedWithin(all, first, last);
      SameOutside(all, t, first, last) && t[first..last] == Reversed(all[first..last])
  {
  }

  lemma StepInRange<T>(lt: Order<T>, all: seq<T>, u: seq<T>, first: nat, last: nat, i: nat, j: nat)
    requires first <= i < i + 1 < last <= |all| && i < j < last
    requires AscendingFrom(Flip(lt), all[first..last], i + 1 - first) && lt(all[i], all[i + 1])
    requires lt(all[i], all[j]) && forall k :: j < k < last ==> !lt(all[i], all[k])
    requires u == ReversedWithin(all[i := all[j]][j := all[i]], i + 1, last)
    ensures SameOutside(all, u, first, last)
    ensures Step(lt, all[first..last], u[first..last], i - first, j - first)
  {
    hide AscendingFrom;
    var s, w := all[first..last], all[i := all[j]][j := all[i]];
    var w' := s[i - first := s[j - first]][j - first := s[i - first]];
    assert w[first..last] == w';
    assert w[i + 1..last] == w'[i + 1 - first..];
    assert u == w[..i + 1] + Reversed(w[i + 1..last]) + w[last..];
    assert u[first..last] == w'[..i + 1 - first] + Reversed(w'[i + 1 - first..]) + w'[last - first..];
    assert w'[i + 1 - first..|s|] == w'[i + 1 - first..];
    forall k | j - first < k < |s| ensures !lt(s[i - first], s[k]) {
      assert !lt(all[i], all[first + k]);
    }
  }

  /** prev_permutation undoes every successful next_permutation, element for element. */
  method NextThenPrev<T(!new)>(a: array<T>, first: nat, last: nat, lt: Order<T>) returns (more: bool, back: bool)
    requires StrictWeakOrder(lt) && first <= last <= a.Length
    modifies a
    ensures more ==> back && a[..] == old(a[..])
    ensures more <==> !IsGreatest(lt, old(a[..])[first..last])
  {
    hide StrictWeakOrder, ReversedWithin, AscendingFrom, Step;
    ghost var all := a[..];
    more := NextPermutation(a, first, last, lt);
    ghost var mid := a[..];
    back := PrevPermutation(a, first, last, lt);
    NextMeaning(lt, all[first..last], mid[first..last], more);
    if more {
      PrevUndoesNext(lt, all[first..last], mid[first..last], a[..][first..last], back);
      assert a[..] == all by {
        forall k | 0 <= k < a.Length ensures a[k] == all[k] {
          if first <= k < last { assert a[..][first..last][k - first] == all[first..last][k - first]; }
        }
      }
    }
  }

  /** In terms of what the calls do. */
  lemma PrevUndoesNext<T(!new)>(lt: Order<T>, s: seq<T>, t: seq<T>, u: seq<T>, back: bool)
    requires StrictWeakOrder(lt) && Next(lt, s, t, true) && Next(Flip(lt), t, u, back)
    ensures back && u == s
  {
    hide StrictWeakOrder;
    var i: nat, j: nat :| Step(lt, s, t, i, j);
    StepBack(lt, s, t, i, j);
    hide Step;
    NotDescendingToo(Flip(lt), t, s, i, |s| + i - j);
    var i': nat, j': nat :| Step(Flip(lt), t, u, i', j');
    StepUnique(Flip(lt), t, s, u, i, |s| + i - j, i', j');
  }

  lemma NotDescendingToo<T>(lt: Order<T>, s: seq<T>, t: seq<T>, i: nat, j: nat)
    requires Step(lt, s, t, i, j)
    ensures !AscendingFrom(Flip(lt), s, 0)
  {
    assert Flip(lt)(s[i + 1], s[i]);
  }
}
