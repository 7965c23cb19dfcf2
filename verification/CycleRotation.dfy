/**
 The algorithm behind rotate for random access iterators (stl_algo.h): moves the
 elements along the cycles of the rotation, of which there are gcd(n, k).
 */
module CycleRotation {
  import opened Ordering
  import opened Rotation

  // ----- the greatest common divisor -----

  // __gcd; the ghost results show that d divides both numbers, and is a combination of them.
  method Gcd(m0: nat, n0: nat) returns (d: nat, ghost p: int, ghost q: int, ghost u: int, ghost v: int)
    requires 0 < m0
    ensures 0 < d && m0 == p * d && n0 == q * d && d == u * m0 + v * n0
  {
    var m, n := m0, n0;
    // m0 == a m + b n, n0 == c m + e n, m == x m0 + y n0, n == z m0 + w n0
    ghost var a: int, b: int, c: int, e: int := 1, 0, 0, 1;
    ghost var x: int, y: int, z: int, w: int := 1, 0, 0, 1;
    while n != 0
      invariant 0 <= n && 0 <= m && (n == 0 ==> 0 < m) && (0 < m || 0 < n)
      invariant m0 == a * m + b * n && n0 == c * m + e * n
      invariant m == x * m0 + y * n0 && n == z * m0 + w * n0
      decreases n
    {
      var t := m % n;
      ghost var r := m / n;
      EuclidStep(m, n, r, t, a, b);
      EuclidStep(m, n, r, t, c, e);
      CombinationStep(m, n, r, t, m0, n0, x, y, z, w);
      a, b := a * r + b, a;
      c, e := c * r + e, c;
      x, y, z, w := z, w, x - r * z, y - r * w;
      m := n;
      n := t;
    }
    d, p, q, u, v := m, a, c, x, y;
  }

  lemma EuclidStep(m: int, n: int, r: int, t: int, a: int, b: int)
    requires m == r * n + t
    ensures a * m + b * n == (a * r + b) * n + a * t
  {
  }

  lemma CombinationStep(m: int, n: int, r: int, t: int, m0: int, n0: int, x: int, y: int, z: int, w: int)
    requires m == r * n + t && m == x * m0 + y * n0 && n == z * m0 + w * n0
    ensures t == (x - r * z) * m0 + (y - r * w) * n0
  {
    assert r * n == r * z * m0 + r * w * n0;
  }

  // ----- the cycles of a rotation by k of n == k + l positions -----

  // Where the element that belongs at position x comes from, and goes to.
  function Succ(x: int, k: int, l: int): int { if x < l then x + k else x - l }
  function Pred(x: int, k: int, l: int): int { if x < k then x + l else x - k }

  function Iterate(x: int, t: nat, k: int, l: int): int {
    if t == 0 then x else Succ(Iterate(x, t - 1, k, l), k, l)
  }

  lemma {:induction false} IterateForm(x: int, t: nat, k: int, l: int) returns (e: int)
    requires 0 < k && 0 < l && 0 <= x < k + l
    ensures 0 <= Iterate(x, t, k, l) < k + l && Iterate(x, t, k, l) == x + t * k - e * (k + l)
  {
    if t == 0 {
      e := 0;
    } else {
      e := IterateForm(x, t - 1, k, l);
      assert t * k == (t - 1) * k + k;
      if Iterate(x, t - 1, k, l) >= l {
        assert (e + 1) * (k + l) == e * (k + l) + (k + l);
        e := e + 1;
      }
    }
  }

  /** Some number of steps takes every position d to the right. */
  lemma StepsOfD(d: int, u: int, v: int, k: int, l: int) returns (t: nat)
    requires 0 < k && 0 < l && 0 < d && d == u * (k + l) + v * k
    ensures forall x :: 0 <= x && x + d < k + l ==> Iterate(x, t, k, l) == x + d
  {
    var c := if v < 0 then -v else 0;
    ScaledBound(c, k + l);
    assert c == 0 || c * (k + l) >= c by { assert c * (k + l) == c * (k + l - 1) + c; }
    t := v + c * (k + l);
    forall x | 0 <= x && x + d < k + l ensures Iterate(x, t, k, l) == x + d {
      StepsOfDAt(x, d, u, v, k, l, c);
    }
  }

  lemma StepsOfDAt(x: int, d: int, u: int, v: int, k: int, l: int, c: int)
    requires 0 < k && 0 < l && 0 < d && d == u * (k + l) + v * k
    requires 0 <= x && x + d < k + l && 0 <= v + c * (k + l)
    ensures Iterate(x, v + c * (k + l), k, l) == x + d
  {
    var n, t := k + l, v + c * (k + l);
    var e := IterateForm(x, t, k, l);
    StepsArithmetic(d, u, v, k, n, c);
    assert (c * k - u) * n - e * n == (c * k - u - e) * n;
    SameResidue(Iterate(x, t, k, l), x + d, n, c * k - u - e);
  }

  lemma StepsArithmetic(d: int, u: int, v: int, k: int, n: int, c: int)
    requires d == u * n + v * k
    ensures (v + c * n) * k == d + (c * k - u) * n
  {
    assert (v + c * n) * k == v * k + c * n * k;
    assert (c * k - u) * n == c * k * n - u * n;
    assert c * n * k == c * k * n;
  }

  lemma SameResidue(x: int, y: int, n: int, c: int)
    requires 0 <= x < n && 0 <= y < n && x == y + c * n
    ensures x == y
  {
    ScaledBound(c, n);
  }

  lemma ScaledBound(c: int, n: int)
    requires 0 < n
    ensures c >= 1 ==> c * n >= n
    ensures c >= 2 ==> c * n >= 2 * n
    ensures c <= -1 ==> c * n <= -n
  {
    if c >= 2 { assert (c - 2) * n >= 0; }
    if c >= 1 { assert (c - 1) * n >= 0; }
    if c <= -1 { assert (c + 1) * n <= 0; }
  }

  ghost predicate ClosedUnderSucc(s: set<int>, k: int, l: int) {
    forall x :: x in s ==> Succ(x, k, l) in s
  }

  lemma {:induction false} ClosedUnderIterate(s: set<int>, x: int, t: nat, k: int, l: int)
    requires ClosedUnderSucc(s, k, l) && x in s
    ensures Iterate(x, t, k, l) in s
  {
    if t > 0 {
      ClosedUnderIterate(s, x, t - 1, k, l);
    }
  }

  /** A closed set with position i holds all positions i, i + d, i + 2d and so on. */
  lemma {:induction false} ClosedHoldsResidues(s: set<int>, i: int, c: nat, d: int, t: nat, k: int, l: int)
    requires ClosedUnderSucc(s, k, l) && i in s && 0 <= i && 0 < d && i + c * d < k + l
    requires forall x :: 0 <= x && x + d < k + l ==> Iterate(x, t, k, l) == x + d
    ensures i + c * d in s
  {
    if c > 0 {
      assert (c - 1) * d == c * d - d;
      assert (c - 1) * d >= 0;
      ClosedHoldsResidues(s, i, c - 1, d, t, k, l);
      ClosedUnderIterate(s, i + (c - 1) * d, t, k, l);
    }
  }

  // ----- following one cycle -----

  // k and l are multiples of d, and d is a combination of k + l and k: the numbers that
  // the call of __gcd provides.
  datatype Divisor = Divisor(d: nat, kd: int, ld: int, u: int, v: int)

  ghost predicate Divides(g: Divisor, k: int, l: int) {
    0 < k && 0 < l && 0 < g.d && k == g.kd * g.d && l == g.ld * g.d && g.d == g.u * (k + l) + g.v * k
  }

  lemma DivisorBounds(g: Divisor, k: int, l: int)
    requires Divides(g, k, l)
    ensures 1 <= g.kd && 1 <= g.ld && g.d <= k && g.d <= l
    ensures k > l ==> g.kd >= 2
    ensures k / g.d == g.kd && l / g.d == g.ld
  {
    ScaledBound(g.kd, g.d);
    ScaledBound(g.ld, g.d);
    Quotient(g.kd, g.d);
    Quotient(g.ld, g.d);
  }

  lemma Quotient(c: int, d: int)
    requires 0 < d
    ensures c * d / d == c
  {
    var x := c * d;
    SameResidue(x % d, 0, d, c - x / d);
    assert (c - x / d) * d == 0;
    ScaledBound(c - x / d, d);
  }

  lemma RemainderOf(q: int, d: int, r: int)
    requires 0 <= r < d
    ensures (q * d + r) % d == r
  {
    var x := q * d + r;
    SameResidue(x % d, r, d, q - x / d);
  }

  /** The steps of a cycle stay in one residue class. */
  lemma SuccResidue(g: Divisor, k: int, l: int, z: int)
    requires Divides(g, k, l) && 0 <= z < k + l
    ensures 0 <= Succ(z, k, l) < k + l && Succ(z, k, l) % g.d == z % g.d
    ensures Pred(Succ(z, k, l), k, l) == z
  {
    if z < l {
      AddMultiple(z, g.kd, g.d);
    } else {
      AddMultiple(z - l, g.ld, g.d);
    }
  }

  lemma AddMultiple(z: int, c: int, d: int)
    requires 0 < d
    ensures (z + c * d) % d == z % d
  {
    var q, r := z / d, z % d;
    assert (q + c) * d == q * d + c * d;
    RemainderOf(q + c, d, r);
  }

  /** A position of residue i below i + l is below l. */
  lemma ResidueBelow(g: Divisor, k: int, l: int, p: int, i: int)
    requires Divides(g, k, l) && 0 <= p && p % g.d == i && p < i + l
    ensures p < l
  {
    var c := p / g.d;
    ScaledBound(g.ld - c, g.d);
    assert (g.ld - c) * g.d == l - c * g.d;
  }

  // The visited positions are those from position i, where the cycle starts, up to p.
  ghost predicate Trail(k: nat, l: nat, d: nat, i: nat, visited: set<int>, p: nat) {
    && 0 < k && 0 < l && 0 < d
    && p < k + l && p !in visited && p % d == i && (i == p || i in visited)
    && (forall z :: z in visited ==> 0 <= z < k + l && z % d == i && (Succ(z, k, l) == p || Succ(z, k, l) in visited))
    && (forall z :: (z in visited || z == p) && z != i ==> Pred(z, k, l) in visited)
  }

  // Visited positions have got their final element, and so have all positions of the
  // cycles before.
  ghost predicate Filled<T>(s0: seq<T>, s: seq<T>, k: nat, l: nat, d: nat, i: nat, visited: set<int>) {
    && 0 < d && |s| == |s0| == k + l
    && forall z :: 0 <= z < k + l ==> s[z] == if z in visited || z % d < i then s0[Succ(z, k, l)] else s0[z]
  }

  // A cycle on the way: the element of position i is kept aside, and position p may be
  // overwritten.
  ghost predicate Following<T>(s0: seq<T>, s: seq<T>, k: nat, l: nat, d: nat, i: nat, visited: set<int>, p: nat) {
    Trail(k, l, d, i, visited, p) && Filled(s0, s, k, l, d, i, visited)
  }

  lemma TrailStep(k: nat, l: nat, d: nat, i: nat, visited: set<int>, p: nat, y: nat)
    requires Trail(k, l, d, i, visited, p) && y == Succ(p, k, l) != i
    requires y < k + l && y % d == i && Pred(y, k, l) == p
    ensures y !in visited && Trail(k, l, d, i, visited + {p}, y)
  {
    hide Succ, Pred;
    assert y in visited ==> Pred(y, k, l) in visited;
  }

  lemma FilledStep<T>(s0: seq<T>, s: seq<T>, k: nat, l: nat, d: nat, i: nat, visited: set<int>, p: nat, y: nat)
    requires Filled(s0, s, k, l, d, i, visited) && p < k + l && y < k + l && y == Succ(p, k, l)
    requires y !in visited && y % d == i
    ensures Filled(s0, s[p := s[y]], k, l, d, i, visited + {p})
  {
    hide Succ;
    assert s[y] == s0[y];
  }

  lemma FollowStep<T>(g: Divisor, s0: seq<T>, s: seq<T>, k: nat, l: nat, i: nat, visited: set<int>, p: nat)
    requires Divides(g, k, l) && Following(s0, s, k, l, g.d, i, visited, p) && Succ(p, k, l) != i
    ensures Following(s0, s[p := s[Succ(p, k, l)]], k, l, g.d, i, visited + {p}, Succ(p, k, l))
  {
    var y := Succ(p, k, l);
    SuccResidue(g, k, l, p);
    hide Divides, Succ, Pred, Filled;
    TrailStep(k, l, g.d, i, visited, p, y);
    FilledStep(s0, s, k, l, g.d, i, visited, p, y);
  }

  // The state when all cycles that start before i are done.
  ghost predicate CyclesDone<T>(s0: seq<T>, s: seq<T>, k: nat, l: nat, d: nat, i: nat) {
    && 0 < d && |s| == |s0| == k + l
    && forall z :: 0 <= z < k + l ==> s[z] == if z % d < i then s0[Succ(z, k, l)] else s0[z]
  }

  lemma FollowStart<T>(s0: seq<T>, s: seq<T>, k: nat, l: nat, d: nat, i: nat)
    requires 0 < k && 0 < l && i < d <= k && CyclesDone(s0, s, k, l, d, i)
    ensures Following(s0, s, k, l, d, i, {}, i) && s[i] == s0[i]
  {
    RemainderOf(0, d, i);
  }

  /** When the cycle is closed, it has gone through the whole residue class. */
  lemma FollowEnd<T>(g: Divisor, s0: seq<T>, s: seq<T>, k: nat, l: nat, i: nat, visited: set<int>, p: nat)
    requires Divides(g, k, l) && Following(s0, s, k, l, g.d, i, visited, p) && Succ(p, k, l) == i
    ensures CyclesDone(s0, s[p := s0[i]], k, l, g.d, i + 1)
  {
    var cycle := visited + {p};
    CycleIsClass(g, cycle, k, l, i);
  }

  lemma CycleIsClass(g: Divisor, cycle: set<int>, k: nat, l: nat, i: nat)
    requires Divides(g, k, l) && ClosedUnderSucc(cycle, k, l) && i in cycle
    ensures forall z :: 0 <= z < k + l && z % g.d == i ==> z in cycle
  {
    var t := StepsOfD(g.d, g.u, g.v, k, l);
    forall z | 0 <= z < k + l && z % g.d == i ensures z in cycle {
      var c := z / g.d;
      assert z == i + c * g.d;
      ClosedHoldsResidues(cycle, i, c, g.d, t, k, l);
    }
  }

  lemma AllCyclesDone<T>(s0: seq<T>, s: seq<T>, k: nat, l: nat, d: nat)
    requires CyclesDone(s0, s, k, l, d, d)
    ensures s == s0[k..] + s0[..k]
  {
    forall z | 0 <= z < k + l ensures s[z] == (s0[k..] + s0[..k])[z] {
      assert z % d < d;
    }
  }

  // ----- when the inner loops stop -----

  lemma Products(d: int, u: int, v: int, n: int, k: int, j: int)
    requires d == u * n + v * k
    ensures j * d == u * (j * n) + v * (j * k)
  {
    assert j * (u * n + v * k) == j * (u * n) + j * (v * k);
    assert j * (u * n) == u * (j * n) && j * (v * k) == v * (j * k);
  }

  lemma Collected(u: int, v: int, c: int, e: int, m: int)
    ensures u * (c * m) + v * (e * m) == (u * c + v * e) * m
  {
    assert u * (c * m) == (u * c) * m && v * (e * m) == (v * e) * m;
  }

  /** A multiple of l is j k only if d j is one. */
  lemma EuclidLemma(g: Divisor, k: int, l: int, j: int, c: int) returns (m: int)
    requires Divides(g, k, l) && j * k == c * l
    ensures j * g.d == m * l
  {
    m := g.u * (c + j) + g.v * c;
    Products(g.d, g.u, g.v, k + l, k, j);
    assert j * (k + l) == j * k + j * l == (c + j) * l;
    Collected(g.u, g.v, c + j, c, l);
  }

  lemma EuclidLemma2(g: Divisor, k: int, l: int, j: int, c: int) returns (m: int)
    requires Divides(g, k, l) && j * l == c * k
    ensures j * g.d == m * k
  {
    m := g.u * (c + j) + g.v * j;
    Products(g.d, g.u, g.v, k + l, k, j);
    assert j * (k + l) == j * k + j * l == (c + j) * k;
    Collected(g.u, g.v, c + j, j, k);
  }

  lemma NoMultipleBetween(x: int, c: int, m: int)
    requires 0 < x && x == c * m
    ensures !(x < m)
  {
    if 0 < m { ScaledBound(c, m); }
  }

  /** With k < l, the start of the cycle is not the next position before l / d rounds. */
  lemma ShortNotYet(g: Divisor, k: int, l: int, j: int, e: int)
    requires Divides(g, k, l) && 0 <= j < g.ld && 0 <= e
    ensures j * k - e * l != l
  {
    if j * k - e * l == l {
      assert j * k == (e + 1) * l;
      var m := EuclidLemma(g, k, l, j, e + 1);
      ScaledBound(e + 1, l);
      assert 0 < j;
      BelowWhole(g.ld, j, g.d);
      NoMultipleBetween(j * g.d, m, l);
    }
  }

  lemma BelowWhole(n: int, j: int, d: int)
    requires 0 < d && 0 < j < n
    ensures 0 < j * d < n * d
  {
    ScaledBound(n - j, d);
    ScaledBound(j, d);
    Factored(n, j, d);
  }

  lemma CrossProducts(g: Divisor, k: int, l: int)
    requires Divides(g, k, l)
    ensures g.ld * k == g.kd * l
  {
    assert g.ld * (g.kd * g.d) == g.kd * (g.ld * g.d);
  }

  lemma Factored(x: int, y: int, m: int)
    ensures (x - y) * m == x * m - y * m
  {
  }

  /** With k < l, after l / d rounds it is. */
  lemma ShortAtEnd(g: Divisor, k: int, l: int, e: int, x: int)
    requires Divides(g, k, l) && k < l && x == g.ld * k - e * l && 0 < x < k + l
    ensures x == l
  {
    CrossProducts(g, k, l);
    Factored(g.kd, e, l);
    assert x == (g.kd - e) * l;
    ScaledBound(g.kd - e, l);
    assert g.kd - e == 0 ==> x == 0;
  }

  /** With k > l, the start of the cycle is not the next position before k / d - 1 rounds. */
  lemma LongNotYet(g: Divisor, k: int, l: int, j: int, e: int)
    requires Divides(g, k, l) && 0 <= j < g.kd - 1
    ensures e * k - j * l != l
  {
    if e * k - j * l == l {
      assert (j + 1) * l == e * k;
      var m := EuclidLemma2(g, k, l, j + 1, e);
      BelowWhole(g.kd, j + 1, g.d);
      NoMultipleBetween((j + 1) * g.d, m, k);
    }
  }

  /** With k > l, after k / d - 1 rounds it is. */
  lemma LongAtEnd(g: Divisor, k: int, l: int, e: int, x: int)
    requires Divides(g, k, l) && k > l && x == e * k - (g.kd - 1) * l && 0 <= x < k
    ensures x == l
  {
    CrossProducts(g, k, l);
    Factored(e, g.ld, k);
    Factored(g.kd, 1, l);
    assert x - l == (e - g.ld) * k;
    ScaledBound(e - g.ld, k);
    assert e - g.ld == 0 ==> x == l;
  }

  // ----- the algorithm -----

  // *p = *q, where q is the next position on the cycle.
  method Pull<T>(a: array<T>, first: nat, ghost k: nat, ghost l: nat, ghost i: nat, ghost g: Divisor, ghost s0: seq<T>,
                 ghost visited: set<int>, p: nat, q: nat)
    requires Divides(g, k, l) && first + k + l <= a.Length && p < k + l && q == Succ(p, k, l) != i
    requires Following(s0, a[..][first..first + k + l], k, l, g.d, i, visited, p)
    modifies a
    ensures Following(s0, a[..][first..first + k + l], k, l, g.d, i, visited + {p}, q)
    ensures q < k + l && q % g.d == i && i <= q
    ensures SameOutside(old(a[..]), a[..], first, first + k + l)
  {
    hide Following, Divides;
    ghost var n := k + l;
    FollowStep(g, s0, a[..][first..first + n], k, l, i, visited, p);
    ghost var w := a[..];
    a[first + p] := a[first + q];
    WriteInRange(w, first, first + n, first + p, w[first + q]);
    assert a[..] == w[first + p := w[first + q]];
    FollowingBounds(s0, a[..][first..first + n], k, l, g.d, i, visited + {p}, q);
  }

  lemma FollowingBounds<T>(s0: seq<T>, s: seq<T>, k: nat, l: nat, d: nat, i: nat, visited: set<int>, p: nat)
    requires Following(s0, s, k, l, d, i, visited, p)
    ensures p < k + l && 0 < d && p % d == i && i <= p
  {
    RemainderAtMost(p, d);
  }

  lemma RemainderAtMost(p: nat, d: nat)
    requires 0 < d
    ensures p % d <= p
  {
  }

  // The inner loop for k < l, on the cycle that starts at position i.
  method FollowShort<T>(a: array<T>, first: nat, k: nat, l: nat, d: nat, i: nat, ghost g: Divisor, ghost s0: seq<T>)
    returns (p: nat, ghost visited: set<int>)
    requires Divides(g, k, l) && g.d == d && k < l && i < d && first + k + l <= a.Length
    requires CyclesDone(s0, a[..][first..first + k + l], k, l, d, i)
    modifies a
    ensures Following(s0, a[..][first..first + k + l], k, l, d, i, visited, p) && p < k + l && Succ(p, k, l) == i
    ensures SameOutside(old(a[..]), a[..], first, first + k + l)
  {
    hide Following, CyclesDone, Divides;
    DivisorBounds(g, k, l);
    FollowStart(s0, a[..][first..first + k + l], k, l, d, i);
    RemainderOf(0, d, i);
    p, visited := i, {};
    ghost var e := 0;
    for j := 0 to l / d
      invariant Following(s0, a[..][first..first + k + l], k, l, d, i, visited, p)
      invariant SameOutside(old(a[..]), a[..], first, first + k + l)
      invariant 0 <= e && p - i == j * k - e * l && i <= p < k + l && p % d == i && (0 < j ==> k <= p)
    {
      ShortNotYet(g, k, l, j, e);
      if p > i + l {
        Pull(a, first, k, l, i, g, s0, visited, p, p - l);
        visited := visited + {p};
        p := p - l;
        Factored(e + 1, 1, l);
        e := e + 1;
      }
      ResidueBelow(g, k, l, p, i);
      Pull(a, first, k, l, i, g, s0, visited, p, p + k);
      visited := visited + {p};
      p := p + k;
      Factored(j + 1, 1, k);
    }
    ShortAtEnd(g, k, l, e, p - i);
  }

  // The inner loop for k > l.
  method FollowLong<T>(a: array<T>, first: nat, k: nat, l: nat, d: nat, i: nat, ghost g: Divisor, ghost s0: seq<T>)
    returns (p: nat, ghost visited: set<int>)
    requires Divides(g, k, l) && g.d == d && k > l && i < d && first + k + l <= a.Length
    requires CyclesDone(s0, a[..][first..first + k + l], k, l, d, i)
    modifies a
    ensures Following(s0, a[..][first..first + k + l], k, l, d, i, visited, p) && p < k + l && Succ(p, k, l) == i
    ensures SameOutside(old(a[..]), a[..], first, first + k + l)
  {
    hide Following, CyclesDone, Divides;
    DivisorBounds(g, k, l);
    FollowStart(s0, a[..][first..first + k + l], k, l, d, i);
    RemainderOf(0, d, i);
    p, visited := i, {};
    ghost var e := 0;
    for j := 0 to k / d - 1
      invariant Following(s0, a[..][first..first + k + l], k, l, d, i, visited, p)
      invariant SameOutside(old(a[..]), a[..], first, first + k + l)
      invariant 0 <= e && p - i == e * k - j * l && i <= p < k
    {
      if p < l {
        Pull(a, first, k, l, i, g, s0, visited, p, p + k);
        visited := visited + {p};
        p := p + k;
        Factored(e + 1, 1, k);
        e := e + 1;
      }
      LongNotYet(g, k, l, j, e);
      Pull(a, first, k, l, i, g, s0, visited, p, p - l);
      visited := visited + {p};
      p := p - l;
      Factored(j + 1, 1, l);
    }
    LongAtEnd(g, k, l, e, p - i);
  }

  // swap_ranges, with both ranges in one array.
  method SwapHalves<T>(a: array<T>, first: nat, k: nat)
    requires first + 2 * k <= a.Length
    modifies a
    ensures a[..] == Rotated(old(a[..]), first, first + k, first + 2 * k)
  {
    ghost var all := a[..];
    for i := 0 to k
      invariant forall z :: first <= z < first + i ==> a[z] == all[z + k]
      invariant forall z :: first + k <= z < first + k + i ==> a[z] == all[z - k]
      invariant forall z :: 0 <= z < first || first + i <= z < first + k || first + k + i <= z < a.Length ==>
                a[z] == all[z]
    {
      a[first + i], a[first + k + i] := a[first + k + i], a[first + i];
    }
  }

  // What the loop over the cycles does when one of the ranges is empty: there are n
  // cycles, and each of them is a single position.
  method RotateNothing<T>(a: array<T>, first: nat, last: nat)
    requires first <= last <= a.Length
    modifies a
    ensures a[..] == old(a[..])
  {
    for i := 0 to last - first
      invariant a[..] == old(a[..])
    {
      var tmp := a[first + i];
      a[first + i] := tmp;
    }
  }

  // One cycle of the algorithm for random access iterators, the one that starts at i.
  method RotateCycle<T>(a: array<T>, first: nat, k: nat, l: nat, d: nat, i: nat, ghost g: Divisor, ghost s0: seq<T>)
    requires Divides(g, k, l) && g.d == d && k != l && i < d && first + k + l <= a.Length
    requires CyclesDone(s0, a[..][first..first + k + l], k, l, d, i)
    modifies a
    ensures CyclesDone(s0, a[..][first..first + k + l], k, l, d, i + 1)
    ensures SameOutside(old(a[..]), a[..], first, first + k + l)
  {
    hide Following, CyclesDone, Divides;
    ghost var all, last := a[..], first + k + l;
    DivisorBounds(g, k, l);
    KeptAside(s0, all[first..last], k, l, d, i);
    var tmp := a[first + i];
    var p;
    ghost var visited;
    if k < l {
      p, visited := FollowShort(a, first, k, l, d, i, g, s0);
    } else {
      p, visited := FollowLong(a, first, k, l, d, i, g, s0);
    }
    FollowEnd(g, s0, a[..][first..last], k, l, i, visited, p);
    ghost var w := a[..];
    a[first + p] := tmp;
    WriteInRange(w, first, last, first + p, tmp);
    assert a[..] == w[first + p := tmp];
  }

  // The algorithm for random access iterators.
  method RotateRandomAccess<T>(a: array<T>, first: nat, middle: nat, last: nat) returns (newMiddle: nat)
    requires first <= middle <= last <= a.Length
    modifies a
    ensures a[..] == Rotated(old(a[..]), first, middle, last)
    ensures newMiddle == first + (last - middle)
  {
    hide Following, CyclesDone, Divides, SameOutside, Rotated;
    var n, k := last - first, middle - first;
    var l := n - k;
    newMiddle := first + (last - middle);
    if k == l {
      SwapHalves(a, first, k);
      return;
    }
    ghost var all := a[..];
    if k == 0 || l == 0 {
      RotateNothing(a, first, last);
      RotatedByNothing(all, first, middle, last);
      return;
    }
    var d;
    ghost var pn, pk, u, v;
    d, pn, pk, u, v := Gcd(n, k);
    ghost var g := Divisor(d, pk, pn - pk, u, v);
    DividesBoth(g, pn, k, l);
    DivisorBounds(g, k, l);
    NoCyclesDone(all[first..last], k, l, d);
    PermutedSame(all, first, last);
    for i := 0 to d
      invariant CyclesDone(all[first..last], a[..][first..last], k, l, d, i)
      invariant SameOutside(all, a[..], first, last)
    {
      ghost var w := a[..];
      RotateCycle(a, first, k, l, d, i, g, all[first..last]);
      SameOutsideTransitive(all, w, a[..], first, last);
    }
    AllCyclesDone(all[first..last], a[..][first..last], k, l, d);
    RotatedByParts(all, a[..], first, middle, last);
  }

  lemma DividesBoth(g: Divisor, pn: int, k: nat, l: nat)
    requires 0 < k && 0 < l && 0 < g.d && g.ld == pn - g.kd
    requires k + l == pn * g.d && k == g.kd * g.d && g.d == g.u * (k + l) + g.v * k
    ensures Divides(g, k, l)
  {
    Factored(pn, g.kd, g.d);
  }

  lemma NoCyclesDone<T>(s0: seq<T>, k: nat, l: nat, d: nat)
    requires |s0| == k + l && 0 < d
    ensures CyclesDone(s0, s0, k, l, d, 0)
  {
  }

  lemma KeptAside<T>(s0: seq<T>, s: seq<T>, k: nat, l: nat, d: nat, i: nat)
    requires CyclesDone(s0, s, k, l, d, i) && i < d <= k + l
    ensures s[i] == s0[i]
  {
    RemainderOf(0, d, i);
  }

  lemma RotatedByParts<T>(all: seq<T>, s: seq<T>, first: nat, middle: nat, last: nat)
    requires first <= middle <= last <= |all| && SameOutside(all, s, first, last)
    requires s[first..last] == all[first..last][middle - first..] + all[first..last][..middle - first]
    ensures s == Rotated(all, first, middle, last)
  {
    assert s == s[..first] + s[first..last] + s[last..];
    assert all[first..last][middle - first..] == all[middle..last];
    assert all[first..last][..middle - first] == all[first..middle];
    assert s[..first] == all[..first] && s[last..] == all[last..];
  }
}
