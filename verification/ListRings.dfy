/** The rings of nodes that lists are made of, and what transfer does to them. */
module ListRings {

  type Ref = nat
  type Pointers = map<Ref, Ref>

  // ----- rings -----

  // y follows x, and both know it.
  ghost predicate Link(next: Pointers, prev: Pointers, x: Ref, y: Ref) {
    x in next && next[x] == y && y in prev && prev[y] == x
  }

  ghost predicate Links(next: Pointers, prev: Pointers, c: seq<Ref>) {
    forall i :: 0 < i < |c| ==> Link(next, prev, c[i - 1], c[i])
  }

  // The header h and the nodes s form a ring.
  ghost predicate Ring(next: Pointers, prev: Pointers, h: Ref, s: seq<Ref>) {
    Links(next, prev, [h] + s + [h])
  }

  // Nothing occurs twice.
  ghost predicate Once(nodes: multiset<Ref>) {
    forall x :: nodes[x] <= 1
  }

  function NodesOf(h: Ref, s: seq<Ref>): multiset<Ref> {
    multiset{h} + multiset(s)
  }

  lemma LinksPart(next: Pointers, prev: Pointers, c: seq<Ref>, i: nat, j: nat)
    requires Links(next, prev, c) && i <= j <= |c|
    ensures Links(next, prev, c[i..j])
  {
  }

  lemma LinksJoin(next: Pointers, prev: Pointers, u: seq<Ref>, v: seq<Ref>)
    requires Links(next, prev, u) && Links(next, prev, v) && u != [] && v != []
    requires Link(next, prev, u[|u| - 1], v[0])
    ensures Links(next, prev, u + v)
  {
  }

  // Pointers change only for x, y, z.
  ghost predicate ChangedAt(p: Pointers, p': Pointers, x: Ref, y: Ref, z: Ref) {
    p.Keys <= p'.Keys && forall k <- p :: k != x && k != y && k != z ==> p'[k] == p[k]
  }

  // No pointer of u to the next is among those of x, y, z, and none back among those of k, l, f.
  ghost predicate Avoids(u: seq<Ref>, x: Ref, y: Ref, z: Ref, k: Ref, l: Ref, f: Ref) {
    && u != [] && x !in u[..|u| - 1] && y !in u[..|u| - 1] && z !in u[..|u| - 1]
    && k !in u[1..] && l !in u[1..] && f !in u[1..]
  }

  // e is the last of u, or elsewhere.
  ghost predicate EndOrElse(u: seq<Ref>, others: multiset<Ref>, e: Ref) {
    u != [] && (e == u[|u| - 1] || e in others)
  }

  ghost predicate StartOrElse(u: seq<Ref>, others: multiset<Ref>, e: Ref) {
    u != [] && (e == u[0] || e in others)
  }

  lemma NotBefore(u: seq<Ref>, others: multiset<Ref>, e: Ref)
    requires Once(multiset(u) + others) && EndOrElse(u, others, e)
    ensures e !in u[..|u| - 1]
  {
    assert u == u[..|u| - 1] + [u[|u| - 1]];
    assert (multiset(u) + others)[e] <= 1;
    assert multiset(u)[e] == multiset(u[..|u| - 1])[e] + multiset{u[|u| - 1]}[e];
  }

  lemma NotBehind(u: seq<Ref>, others: multiset<Ref>, e: Ref)
    requires Once(multiset(u) + others) && StartOrElse(u, others, e)
    ensures e !in u[1..]
  {
    assert u == [u[0]] + u[1..];
    assert (multiset(u) + others)[e] <= 1;
    assert multiset(u)[e] == multiset{u[0]}[e] + multiset(u[1..])[e];
  }

  lemma LinksFrame(next: Pointers, prev: Pointers, next': Pointers, prev': Pointers, u: seq<Ref>,
                   x: Ref, y: Ref, z: Ref, k: Ref, l: Ref, f: Ref)
    requires Links(next, prev, u) && ChangedAt(next, next', x, y, z) && ChangedAt(prev, prev', k, l, f)
    requires Avoids(u, x, y, z, k, l, f)
    ensures Links(next', prev', u)
  {
    forall i | 0 < i < |u| ensures Link(next', prev', u[i - 1], u[i]) {
      assert Link(next, prev, u[i - 1], u[i]);
      assert u[i - 1] in u[..|u| - 1] by { assert u[i - 1] == u[..|u| - 1][i - 1]; }
      assert u[i] in u[1..] by { assert u[i] == u[1..][i - 1]; }
    }
  }

  // The assignments of transfer; prev is not written before its old values are used.
  function TransferNext(next: Pointers, prev: Pointers, position: Ref, first: Ref, last: Ref): Pointers
    requires last in prev && first in prev && position in prev
  {
    next[prev[last] := position][prev[first] := last][prev[position] := first]
  }

  function TransferPrev(prev: Pointers, position: Ref, first: Ref, last: Ref): Pointers
    requires last in prev && first in prev && position in prev
  {
    prev[position := prev[last]][last := prev[first]][first := prev[position]]
  }

  lemma RingLink(next: Pointers, prev: Pointers, h: Ref, u: seq<Ref>, v: seq<Ref>)
    requires Ring(next, prev, h, u + v)
    ensures Link(next, prev, ([h] + u)[|u|], (v + [h])[0])
    ensures Links(next, prev, [h] + u) && Links(next, prev, v + [h])
  {
    var c := [h] + (u + v) + [h];
    assert c == ([h] + u) + (v + [h]);
    assert Link(next, prev, c[|u|], c[|u| + 1]);
    LinksPart(next, prev, c, 0, |u| + 1);
    LinksPart(next, prev, c, |u| + 1, |c|);
    assert c[..|u| + 1] == [h] + u && c[|u| + 1..] == v + [h];
  }

  // The six pointers that transfer writes do not belong to links that stay.
  lemma LinksKept(next: Pointers, prev: Pointers, next': Pointers, prev': Pointers, u: seq<Ref>, others: multiset<Ref>,
                  x: Ref, y: Ref, z: Ref, k: Ref, l: Ref, f: Ref)
    requires Links(next, prev, u) && ChangedAt(next, next', x, y, z) && ChangedAt(prev, prev', k, l, f)
    requires Once(multiset(u) + others)
    requires EndOrElse(u, others, x) && EndOrElse(u, others, y) && EndOrElse(u, others, z)
    requires StartOrElse(u, others, k) && StartOrElse(u, others, l) && StartOrElse(u, others, f)
    ensures Links(next', prev', u)
  {
    NotBefore(u, others, x);
    NotBefore(u, others, y);
    NotBefore(u, others, z);
    NotBehind(u, others, k);
    NotBehind(u, others, l);
    NotBehind(u, others, f);
    LinksFrame(next, prev, next', prev', u, x, y, z, k, l, f);
  }

  // The three links that transfer breaks, and the three that it makes.
  lemma Relinked(next: Pointers, prev: Pointers, x: Ref, l: Ref, y: Ref, f: Ref, z: Ref, k: Ref)
    requires Link(next, prev, x, l) && Link(next, prev, y, f) && Link(next, prev, z, k)
    requires x != y && y != z && x != z
    ensures k in prev && l in prev && f in prev && k != l && l != f && k != f
    ensures var next', prev' := TransferNext(next, prev, k, f, l), TransferPrev(prev, k, f, l);
      && ChangedAt(next, next', x, y, z) && ChangedAt(prev, prev', k, l, f)
      && Link(next', prev', x, k) && Link(next', prev', y, l) && Link(next', prev', z, f)
  {
  }

  // The nodes of two rings, with the pieces of one set off.
  lemma Totals(hx: Ref, a: seq<Ref>, m: seq<Ref>, b: seq<Ref>, hy: Ref, p: seq<Ref>, q: seq<Ref>)
    ensures var total := NodesOf(hx, a + m + b) + NodesOf(hy, p + q);
      && multiset([hx] + a) + (multiset(m) + multiset(b) + multiset([hy] + p) + multiset(q)) == total
      && multiset(b + [hx]) + (multiset(m) + multiset(a) + multiset([hy] + p) + multiset(q)) == total
      && multiset(m) + (multiset([hx] + a) + multiset(b) + multiset([hy] + p) + multiset(q)) == total
      && multiset([hy] + p) + (multiset([hx] + a) + multiset(m) + multiset(b) + multiset(q)) == total
      && multiset(q + [hy]) + (multiset([hx] + a) + multiset(m) + multiset(b) + multiset(p)) == total
  {
  }

  /** transfer takes the nodes m out of one ring and puts them into another, and leaves both
      consistent in both directions. */
  lemma TransferRings(next: Pointers, prev: Pointers, hx: Ref, a: seq<Ref>, m: seq<Ref>, b: seq<Ref>,
                      hy: Ref, p: seq<Ref>, q: seq<Ref>)
    requires m != [] && Ring(next, prev, hx, a + m + b) && Ring(next, prev, hy, p + q)
    requires Once(NodesOf(hx, a + m + b) + NodesOf(hy, p + q))
    ensures var position, first, last := (q + [hy])[0], m[0], (b + [hx])[0];
      && last in prev && first in prev && position in prev
      && var next', prev' := TransferNext(next, prev, position, first, last), TransferPrev(prev, position, first, last);
      Ring(next', prev', hx, a + b) && Ring(next', prev', hy, p + m + q)
  {
    hide Links, Once, Link, TransferNext, TransferPrev, ChangedAt, NodesOf;
    var u, v, s, t := [hx] + a, b + [hx], [hy] + p, q + [hy];
    var k, l, f := t[0], v[0], m[0];
    var x, y, z := m[|m| - 1], u[|u| - 1], s[|s| - 1];
    TransferLinks(next, prev, hx, a, m, b, hy, p, q);
    TransferEnds(hx, a, m, b, hy, p, q);
    Relinked(next, prev, x, l, y, f, z, k);
    var next', prev' := TransferNext(next, prev, k, f, l), TransferPrev(prev, k, f, l);
    Totals(hx, a, m, b, hy, p, q);
    FiveKept(next, prev, next', prev', u, v, m, s, t, multiset(a), multiset(b), multiset(p), multiset(q));
    LinksJoin(next', prev', u, v);
    LinksJoin(next', prev', s, m);
    LinksJoin(next', prev', s + m, t);
    RingAsRows(hx, a, b);
    RingAsRows(hy, p, m + q);
    assert p + (m + q) == p + m + q && s + (m + q + [hy]) == s + m + t;
  }

  // Of the five rows, all links stay; u and v, and s and t, begin or end in the same header.
  lemma FiveKept(next: Pointers, prev: Pointers, next': Pointers, prev': Pointers, u: seq<Ref>, v: seq<Ref>,
                 m: seq<Ref>, s: seq<Ref>, t: seq<Ref>,
                 a: multiset<Ref>, b: multiset<Ref>, p: multiset<Ref>, q: multiset<Ref>)
    requires u != [] && v != [] && m != [] && s != [] && t != []
    requires Links(next, prev, u) && Links(next, prev, v) && Links(next, prev, m)
    requires Links(next, prev, s) && Links(next, prev, t)
    requires ChangedAt(next, next', m[|m| - 1], u[|u| - 1], s[|s| - 1]) && ChangedAt(prev, prev', t[0], v[0], m[0])
    requires Once(multiset(u) + (multiset(m) + b + multiset(s) + q))
    requires Once(multiset(v) + (multiset(m) + a + multiset(s) + q))
    requires Once(multiset(m) + (multiset(u) + b + multiset(s) + q))
    requires Once(multiset(s) + (multiset(u) + multiset(m) + b + q))
    requires Once(multiset(t) + (multiset(u) + multiset(m) + b + p))
    requires (v[0] in b || v[0] == u[0]) && (u[|u| - 1] in a || u[|u| - 1] == v[|v| - 1])
    requires (t[0] in q || t[0] == s[0]) && (s[|s| - 1] in p || s[|s| - 1] == t[|t| - 1])
    ensures Links(next', prev', u) && Links(next', prev', v) && Links(next', prev', m)
    ensures Links(next', prev', s) && Links(next', prev', t)
  {
    hide Links, Once, ChangedAt;
    var x, y, z, k, l, f := m[|m| - 1], u[|u| - 1], s[|s| - 1], t[0], v[0], m[0];
    LinksKept(next, prev, next', prev', u, multiset(m) + b + multiset(s) + q, x, y, z, k, l, f);
    LinksKept(next, prev, next', prev', v, multiset(m) + a + multiset(s) + q, x, y, z, k, l, f);
    LinksKept(next, prev, next', prev', m, multiset(u) + b + multiset(s) + q, x, y, z, k, l, f);
    LinksKept(next, prev, next', prev', s, multiset(u) + multiset(m) + b + q, x, y, z, k, l, f);
    LinksKept(next, prev, next', prev', t, multiset(u) + multiset(m) + b + p, x, y, z, k, l, f);
  }

  lemma RingAsRows(h: Ref, a: seq<Ref>, b: seq<Ref>)
    ensures [h] + (a + b) + [h] == ([h] + a) + (b + [h])
  {
  }

  lemma OnceApart(s: seq<Ref>, t: seq<Ref>, rest: multiset<Ref>, total: multiset<Ref>, e: Ref)
    requires Once(total) && multiset(s) + multiset(t) + rest == total && e in s
    ensures e !in t
  {
    assert total[e] == multiset(s)[e] + multiset(t)[e] + rest[e];
  }

  lemma TransferLinks(next: Pointers, prev: Pointers, hx: Ref, a: seq<Ref>, m: seq<Ref>, b: seq<Ref>,
                      hy: Ref, p: seq<Ref>, q: seq<Ref>)
    requires m != [] && Ring(next, prev, hx, a + m + b) && Ring(next, prev, hy, p + q)
    ensures var u, v, s, t := [hx] + a, b + [hx], [hy] + p, q + [hy];
      && Links(next, prev, u) && Links(next, prev, v) && Links(next, prev, m) && Links(next, prev, s)
      && Links(next, prev, t)
      && Link(next, prev, m[|m| - 1], v[0]) && Link(next, prev, u[|u| - 1], m[0]) && Link(next, prev, s[|s| - 1], t[0])
  {
    hide Links, Link;
    assert a + m + b == a + (m + b) == (a + m) + b;
    RingLink(next, prev, hx, a, m + b);
    RingLink(next, prev, hx, a + m, b);
    RingLink(next, prev, hy, p, q);
    var am := [hx] + (a + m);
    LinksPart(next, prev, am, 1 + |a|, 1 + |a| + |m|);
    assert am[1 + |a|..1 + |a| + |m|] == m && am[|a + m|] == m[|m| - 1];
    assert (m + b + [hx])[0] == m[0];
  }

  lemma TransferEnds(hx: Ref, a: seq<Ref>, m: seq<Ref>, b: seq<Ref>, hy: Ref, p: seq<Ref>, q: seq<Ref>)
    requires m != [] && Once(NodesOf(hx, a + m + b) + NodesOf(hy, p + q))
    ensures var x, y, z := m[|m| - 1], ([hx] + a)[|a|], ([hy] + p)[|p|]; x != y && y != z && x != z
  {
    hide Once, NodesOf;
    var u, s := [hx] + a, [hy] + p;
    Totals(hx, a, m, b, hy, p, q);
    var total := NodesOf(hx, a + m + b) + NodesOf(hy, p + q);
    OnceApart(m, u, multiset(b) + multiset(s) + multiset(q), total, m[|m| - 1]);
    OnceApart(m, s, multiset(u) + multiset(b) + multiset(q), total, m[|m| - 1]);
    OnceApart(u, s, multiset(m) + multiset(b) + multiset(q), total, u[|u| - 1]);
  }

  lemma OtherRing(next: Pointers, prev: Pointers, next': Pointers, prev': Pointers, h: Ref, s: seq<Ref>,
                  touched: multiset<Ref>, x: Ref, y: Ref, z: Ref, k: Ref, l: Ref, f: Ref)
    requires Ring(next, prev, h, s) && ChangedAt(next, next', x, y, z) && ChangedAt(prev, prev', k, l, f)
    requires x in touched && y in touched && z in touched && k in touched && l in touched && f in touched
    requires forall e <- touched :: e !in NodesOf(h, s)
    ensures Ring(next', prev', h, s)
  {
    var c := [h] + s + [h];
    assert c[..|c| - 1] == [h] + s && c[1..] == s + [h];
    assert forall e :: e in [h] + s ==> e in NodesOf(h, s);
    assert forall e :: e in s + [h] ==> e in NodesOf(h, s);
    LinksFrame(next, prev, next', prev', c, x, y, z, k, l, f);
  }

  // ----- all lists of a program -----

  ghost predicate AllRings(next: Pointers, prev: Pointers, lists: map<Ref, seq<Ref>>) {
    forall h <- lists :: Ring(next, prev, h, lists[h])
  }

  // No node is in two lists, or twice in one.
  ghost predicate AllApart(lists: map<Ref, seq<Ref>>) {
    && (forall h <- lists :: Once(NodesOf(h, lists[h])))
    && forall h <- lists, k <- lists :: h != k ==> Once(NodesOf(h, lists[h]) + NodesOf(k, lists[k]))
  }

  ghost predicate AllBelow(lists: map<Ref, seq<Ref>>, unused: Ref) {
    forall h <- lists, n <- NodesOf(h, lists[h]) :: n < unused
  }

  lemma OnceMember(s: multiset<Ref>, t: multiset<Ref>, e: Ref)
    requires Once(s + t) && e in s
    ensures e !in t
  {
    assert (s + t)[e] == s[e] + t[e];
  }

  /** What transfer leaves of all lists. */
  lemma TransferAll(next: Pointers, prev: Pointers, lists: map<Ref, seq<Ref>>, hx: Ref, a: seq<Ref>, m: seq<Ref>,
                    b: seq<Ref>, hy: Ref, p: seq<Ref>, q: seq<Ref>)
    requires AllRings(next, prev, lists) && AllApart(lists) && hx in lists && hy in lists && hx != hy
    requires m != [] && lists[hx] == a + m + b && lists[hy] == p + q
    ensures var position, first, last := (q + [hy])[0], m[0], (b + [hx])[0];
      && position != last && position != first && first != last && last in prev && first in prev && position in prev
      && AllRings(TransferNext(next, prev, position, first, last), TransferPrev(prev, position, first, last),
                  lists[hx := a + b][hy := p + m + q])
  {
    hide Ring, Once, NodesOf, Link, TransferNext, TransferPrev, ChangedAt;
    var u, v, s, t := [hx] + a, b + [hx], [hy] + p, q + [hy];
    var k, l, f := t[0], v[0], m[0];
    var x, y, z := m[|m| - 1], u[|u| - 1], s[|s| - 1];
    TransferRings(next, prev, hx, a, m, b, hy, p, q);
    TransferLinks(next, prev, hx, a, m, b, hy, p, q);
    TransferEnds(hx, a, m, b, hy, p, q);
    Relinked(next, prev, x, l, y, f, z, k);
    var next', prev' := TransferNext(next, prev, k, f, l), TransferPrev(prev, k, f, l);
    var lists' := lists[hx := a + b][hy := p + m + q];
    var touched := NodesOf(hx, lists[hx]) + NodesOf(hy, lists[hy]);
    EndsTouched(hx, a, m, b, hy, p, q);
    forall h <- lists' ensures Ring(next', prev', h, lists'[h]) {
      if h != hx && h != hy {
        ThirdApart(lists, h, hx, hy);
        OtherRing(next, prev, next', prev', h, lists[h], touched, x, y, z, k, l, f);
      }
    }
  }

  lemma EndsTouched(hx: Ref, a: seq<Ref>, m: seq<Ref>, b: seq<Ref>, hy: Ref, p: seq<Ref>, q: seq<Ref>)
    requires m != [] && Once(NodesOf(hx, a + m + b) + NodesOf(hy, p + q))
    ensures var touched := NodesOf(hx, a + m + b) + NodesOf(hy, p + q);
      var u, v, s, t := [hx] + a, b + [hx], [hy] + p, q + [hy];
      && t[0] in touched && v[0] in touched && m[0] in touched
      && m[|m| - 1] in touched && u[|u| - 1] in touched && s[|s| - 1] in touched && t[0] != v[0]
  {
    hide Once, NodesOf;
    Totals(hx, a, m, b, hy, p, q);
    var total := NodesOf(hx, a + m + b) + NodesOf(hy, p + q);
    var u, v, s, t := [hx] + a, b + [hx], [hy] + p, q + [hy];
    TouchedBy(v, multiset(m) + multiset(a) + multiset(s) + multiset(q), total);
    TouchedBy(u, multiset(m) + multiset(b) + multiset(s) + multiset(q), total);
    TouchedBy(m, multiset(u) + multiset(b) + multiset(s) + multiset(q), total);
    TouchedBy(s, multiset(u) + multiset(m) + multiset(b) + multiset(q), total);
    TouchedBy(t, multiset(u) + multiset(m) + multiset(b) + multiset(p), total);
    PositionNotLast(hx, a, m, b, hy, p, q);
  }

  lemma PositionNotLast(hx: Ref, a: seq<Ref>, m: seq<Ref>, b: seq<Ref>, hy: Ref, p: seq<Ref>, q: seq<Ref>)
    requires Once(NodesOf(hx, a + m + b) + NodesOf(hy, p + q))
    ensures (q + [hy])[0] != (b + [hx])[0]
  {
    var x, y := NodesOf(hx, a + m + b), NodesOf(hy, p + q);
    var k, l := (q + [hy])[0], (b + [hx])[0];
    HeadMember(hy, p, q);
    HeadMember(hx, a + m, b);
    assert k in y && l in x;
    assert (x + y)[k] == x[k] + y[k];
  }

  lemma HeadMember(h: Ref, a: seq<Ref>, b: seq<Ref>)
    ensures (b + [h])[0] in NodesOf(h, a + b)
  {
    if b != [] { assert b[0] in a + b; }
  }

  lemma TouchedBy(s: seq<Ref>, rest: multiset<Ref>, total: multiset<Ref>)
    requires s != [] && multiset(s) + rest == total
    ensures s[0] in total && s[|s| - 1] in total
  {
    assert s[0] in multiset(s) && s[|s| - 1] in multiset(s);
  }

  lemma ThirdApart(lists: map<Ref, seq<Ref>>, h: Ref, hx: Ref, hy: Ref)
    requires AllApart(lists) && h in lists && hx in lists && hy in lists && h != hx && h != hy
    ensures forall e <- NodesOf(hx, lists[hx]) + NodesOf(hy, lists[hy]) :: e !in NodesOf(h, lists[h])
  {
    hide NodesOf;
    forall e <- NodesOf(hx, lists[hx]) + NodesOf(hy, lists[hy]) ensures e !in NodesOf(h, lists[h]) {
      if e in NodesOf(hx, lists[hx]) {
        OnceMember(NodesOf(hx, lists[hx]), NodesOf(h, lists[h]), e);
      } else {
        OnceMember(NodesOf(hy, lists[hy]), NodesOf(h, lists[h]), e);
      }
    }
  }

  /** Nodes that only change lists stay apart. */
  lemma TransferApart(lists: map<Ref, seq<Ref>>, hx: Ref, a: seq<Ref>, m: seq<Ref>, b: seq<Ref>, hy: Ref, p: seq<Ref>,
                      q: seq<Ref>, unused: Ref)
    requires AllApart(lists) && AllBelow(lists, unused) && hx in lists && hy in lists && hx != hy
    requires lists[hx] == a + m + b && lists[hy] == p + q
    ensures var lists' := lists[hx := a + b][hy := p + m + q]; AllApart(lists') && AllBelow(lists', unused)
  {
    hide NodesOf, Once;
    var lists' := lists[hx := a + b][hy := p + m + q];
    var total := NodesOf(hx, lists[hx]) + NodesOf(hy, lists[hy]);
    MovedNodes(hx, a, m, b, hy, p, q);
    forall h <- lists' ensures Once(NodesOf(h, lists'[h])) {
      if h == hx || h == hy { FewerOnce(NodesOf(h, lists'[h]), total); }
    }
    forall h <- lists', k <- lists' | h != k ensures Once(NodesOf(h, lists'[h]) + NodesOf(k, lists'[k])) {
      MovedPair(lists, lists', hx, hy, h, k);
    }
    forall h <- lists', n <- NodesOf(h, lists'[h]) ensures n < unused {
      if h == hx || h == hy { assert n in total; assert n in NodesOf(hx, lists[hx]) || n in NodesOf(hy, lists[hy]); }
    }
  }

  lemma MovedNodes(hx: Ref, a: seq<Ref>, m: seq<Ref>, b: seq<Ref>, hy: Ref, p: seq<Ref>, q: seq<Ref>)
    ensures NodesOf(hx, a + b) + NodesOf(hy, p + m + q) == NodesOf(hx, a + m + b) + NodesOf(hy, p + q)
  {
  }

  lemma FewerOnce(s: multiset<Ref>, t: multiset<Ref>)
    requires Once(t) && s <= t
    ensures Once(s)
  {
  }

  lemma MovedPair(lists: map<Ref, seq<Ref>>, lists': map<Ref, seq<Ref>>, hx: Ref, hy: Ref, h: Ref, k: Ref)
    requires AllApart(lists) && hx in lists && hy in lists && hx != hy && h != k && h in lists && k in lists
    requires lists'.Keys == lists.Keys && forall n <- lists :: n != hx && n != hy ==> lists'[n] == lists[n]
    requires NodesOf(hx, lists'[hx]) + NodesOf(hy, lists'[hy]) == NodesOf(hx, lists[hx]) + NodesOf(hy, lists[hy])
    ensures Once(NodesOf(h, lists'[h]) + NodesOf(k, lists'[k]))
  {
    hide NodesOf;
    var s, t := NodesOf(h, lists'[h]), NodesOf(k, lists'[k]);
    var total := NodesOf(hx, lists[hx]) + NodesOf(hy, lists[hy]);
    var both := NodesOf(hx, lists'[hx]) + NodesOf(hy, lists'[hy]);
    forall e ensures (s + t)[e] <= 1 {
      assert (s + t)[e] == s[e] + t[e] && total[e] == both[e];
      assert total[e] == NodesOf(hx, lists[hx])[e] + NodesOf(hy, lists[hy])[e] <= 1;
      assert both[e] == NodesOf(hx, lists'[hx])[e] + NodesOf(hy, lists'[hy])[e];
      PairAt(lists, h, k, e);
      PairAt(lists, h, hx, e);
      PairAt(lists, h, hy, e);
      PairAt(lists, k, hx, e);
      PairAt(lists, k, hy, e);
    }
  }

  lemma PairAt(lists: map<Ref, seq<Ref>>, h: Ref, k: Ref, e: Ref)
    requires AllApart(lists) && h in lists && k in lists
    ensures h != k ==> NodesOf(h, lists[h])[e] + NodesOf(k, lists[k])[e] <= 1
    ensures NodesOf(h, lists[h])[e] <= 1
  {
    hide NodesOf;
    if h != k {
      assert (NodesOf(h, lists[h]) + NodesOf(k, lists[k]))[e] <= 1;
    }
  }

  // ----- transfer within one list -----

  // Within a + m + n + b, either m is moved to behind n, or n to before m; the arguments of
  // transfer differ, and the effect is the same.
  function Moving(h: Ref, a: seq<Ref>, m: seq<Ref>, n: seq<Ref>, b: seq<Ref>, back: bool): (Ref, Ref, Ref)
    requires m != [] && n != []
  {
    if back then ((b + [h])[0], m[0], n[0]) else (m[0], n[0], (b + [h])[0])
  }

  lemma TotalWithin(h: Ref, a: seq<Ref>, m: seq<Ref>, n: seq<Ref>, b: seq<Ref>)
    ensures var total := NodesOf(h, a + m + n + b);
      && multiset([h] + a) + (multiset(m) + multiset(n) + multiset(b)) == total
      && multiset(m) + (multiset([h] + a) + multiset(n) + multiset(b)) == total
      && multiset(n) + (multiset([h] + a) + multiset(m) + multiset(b)) == total
      && multiset(b + [h]) + (multiset(a) + multiset(m) + multiset(n)) == total
      && NodesOf(h, a + n + m + b) == total
  {
  }

  // The rows that stay together, and the links between them.
  lemma RowsWithin(next: Pointers, prev: Pointers, h: Ref, a: seq<Ref>, m: seq<Ref>, n: seq<Ref>, b: seq<Ref>)
    requires m != [] && n != [] && Ring(next, prev, h, a + m + n + b)
    ensures var u, v := [h] + a, b + [h];
      && Links(next, prev, u) && Links(next, prev, m) && Links(next, prev, n) && Links(next, prev, v)
      && Link(next, prev, u[|u| - 1], m[0]) && Link(next, prev, m[|m| - 1], n[0])
      && Link(next, prev, n[|n| - 1], v[0])
  {
    hide Links, Link;
    assert a + m + n + b == a + (m + n + b) == (a + m) + (n + b) == (a + m + n) + b;
    RingLink(next, prev, h, a, m + n + b);
    RingLink(next, prev, h, a + m, n + b);
    RingLink(next, prev, h, a + m + n, b);
    var c := [h] + (a + m + n);
    LinksPart(next, prev, c, 1 + |a|, 1 + |a| + |m|);
    LinksPart(next, prev, c, 1 + |a| + |m|, |c|);
    assert c[1 + |a|..1 + |a| + |m|] == m;
    assert c[1 + |a| + |m|..|c|] == n;
    assert c[|a + m + n|] == n[|n| - 1];
    assert ([h] + (a + m))[|a + m|] == m[|m| - 1];
    assert (m + n + b + [h])[0] == m[0] && (n + b + [h])[0] == n[0];
  }

  lemma EndsWithin(h: Ref, a: seq<Ref>, m: seq<Ref>, n: seq<Ref>, b: seq<Ref>)
    requires m != [] && n != [] && Once(NodesOf(h, a + m + n + b))
    ensures var x, y, z := m[|m| - 1], ([h] + a)[|a|], n[|n| - 1]; x != y && y != z && x != z
  {
    hide Once, NodesOf;
    var u, total := [h] + a, NodesOf(h, a + m + n + b);
    TotalWithin(h, a, m, n, b);
    OnceApart(m, u, multiset(n) + multiset(b), total, m[|m| - 1]);
    OnceApart(m, n, multiset(u) + multiset(b), total, m[|m| - 1]);
    OnceApart(u, n, multiset(m) + multiset(b), total, u[|u| - 1]);
  }

  // The pointers of transfer, to and fro.
  ghost predicate Rewritten(next: Pointers, prev: Pointers, next': Pointers, prev': Pointers, u: seq<Ref>, m: seq<Ref>,
                            n: seq<Ref>, v: seq<Ref>)
    requires u != [] && m != [] && n != [] && v != []
  {
    && ChangedAt(next, next', u[|u| - 1], m[|m| - 1], n[|n| - 1]) && ChangedAt(prev, prev', m[0], n[0], v[0])
    && Link(next', prev', u[|u| - 1], n[0]) && Link(next', prev', n[|n| - 1], m[0])
    && Link(next', prev', m[|m| - 1], v[0])
  }

  lemma RewrittenBy(next: Pointers, prev: Pointers, h: Ref, a: seq<Ref>, m: seq<Ref>, n: seq<Ref>, b: seq<Ref>,
                    back: bool)
    requires m != [] && n != [] && Ring(next, prev, h, a + m + n + b) && Once(NodesOf(h, a + m + n + b))
    ensures var (position, first, last) := Moving(h, a, m, n, b, back);
      && position != last && position != first && first != last && last in prev && first in prev && position in prev
      && Rewritten(next, prev, TransferNext(next, prev, position, first, last),
                   TransferPrev(prev, position, first, last), [h] + a, m, n, b + [h])
  {
    hide Links, Once, Link, TransferNext, TransferPrev, ChangedAt, NodesOf, Ring;
    var u, v := [h] + a, b + [h];
    RowsWithin(next, prev, h, a, m, n, b);
    EndsWithin(h, a, m, n, b);
    var x, y, z := m[|m| - 1], u[|u| - 1], n[|n| - 1];
    if back {
      Relinked(next, prev, x, n[0], y, m[0], z, v[0]);
      ChangedToo(next, TransferNext(next, prev, v[0], m[0], n[0]), x, y, z);
      ChangedToo(prev, TransferPrev(prev, v[0], m[0], n[0]), v[0], n[0], m[0]);
    } else {
      Relinked(next, prev, z, v[0], x, n[0], y, m[0]);
      ChangedToo(next, TransferNext(next, prev, m[0], n[0], v[0]), z, x, y);
      ChangedToo(prev, TransferPrev(prev, m[0], n[0], v[0]), m[0], v[0], n[0]);
    }
  }

  lemma ChangedToo(p: Pointers, p': Pointers, x: Ref, y: Ref, z: Ref)
    requires ChangedAt(p, p', x, y, z)
    ensures ChangedAt(p, p', y, x, z) && ChangedAt(p, p', z, y, x) && ChangedAt(p, p', x, z, y)
    ensures ChangedAt(p, p', y, z, x) && ChangedAt(p, p', z, x, y)
  {
  }

  /** transfer within one ring moves the nodes, and leaves it consistent in both directions. */
  lemma TransferWithin(next: Pointers, prev: Pointers, h: Ref, a: seq<Ref>, m: seq<Ref>, n: seq<Ref>, b: seq<Ref>,
                       back: bool)
    requires m != [] && n != [] && Ring(next, prev, h, a + m + n + b) && Once(NodesOf(h, a + m + n + b))
    ensures var (position, first, last) := Moving(h, a, m, n, b, back);
      && last in prev && first in prev && position in prev
      && Ring(TransferNext(next, prev, position, first, last), TransferPrev(prev, position, first, last),
              h, a + n + m + b)
  {
    hide Links, Once, Link, TransferNext, TransferPrev, ChangedAt, NodesOf, Moving, Rewritten;
    var u, v := [h] + a, b + [h];
    RowsWithin(next, prev, h, a, m, n, b);
    RewrittenBy(next, prev, h, a, m, n, b, back);
    var (position, first, last) := Moving(h, a, m, n, b, back);
    var next', prev' := TransferNext(next, prev, position, first, last), TransferPrev(prev, position, first, last);
    RowsRewritten(next, prev, next', prev', h, a, m, n, b);
    LinksJoin(next', prev', u, n);
    LinksJoin(next', prev', u + n, m);
    LinksJoin(next', prev', u + n + m, v);
    assert [h] + (a + n + m + b) + [h] == u + n + m + v;
  }

  lemma RowsRewritten(next: Pointers, prev: Pointers, next': Pointers, prev': Pointers, h: Ref, a: seq<Ref>,
                      m: seq<Ref>, n: seq<Ref>, b: seq<Ref>)
    requires m != [] && n != [] && Ring(next, prev, h, a + m + n + b) && Once(NodesOf(h, a + m + n + b))
    requires Rewritten(next, prev, next', prev', [h] + a, m, n, b + [h])
    ensures var u, v := [h] + a, b + [h];
      && Links(next', prev', u) && Links(next', prev', n) && Links(next', prev', m) && Links(next', prev', v)
      && Link(next', prev', u[|u| - 1], n[0]) && Link(next', prev', n[|n| - 1], m[0])
      && Link(next', prev', m[|m| - 1], v[0])
  {
    hide Links, Once, Link, ChangedAt, NodesOf;
    var u, v := [h] + a, b + [h];
    RowsWithin(next, prev, h, a, m, n, b);
    TotalWithin(h, a, m, n, b);
    var x, y, z := u[|u| - 1], m[|m| - 1], n[|n| - 1];
    var k, l, f := m[0], n[0], v[0];
    LinksKept(next, prev, next', prev', u, multiset(m) + multiset(n) + multiset(b), x, y, z, k, l, f);
    LinksKept(next, prev, next', prev', m, multiset(u) + multiset(n) + multiset(b), x, y, z, k, l, f);
    LinksKept(next, prev, next', prev', n, multiset(u) + multiset(m) + multiset(b), x, y, z, k, l, f);
    LinksKept(next, prev, next', prev', v, multiset(a) + multiset(m) + multiset(n), x, y, z, k, l, f);
  }

  /** What a transfer within one list leaves of all lists. */
  lemma TransferWithinAll(next: Pointers, prev: Pointers, lists: map<Ref, seq<Ref>>, h: Ref, a: seq<Ref>, m: seq<Ref>,
                          n: seq<Ref>, b: seq<Ref>, back: bool)
    requires AllRings(next, prev, lists) && AllApart(lists) && h in lists
    requires m != [] && n != [] && lists[h] == a + m + n + b
    ensures var (position, first, last) := Moving(h, a, m, n, b, back);
      && position != last && position != first && first != last && last in prev && first in prev && position in prev
      && AllRings(TransferNext(next, prev, position, first, last), TransferPrev(prev, position, first, last),
                  lists[h := a + n + m + b])
  {
    hide Ring, Once, NodesOf, Link, TransferNext, TransferPrev, ChangedAt, Moving;
    TransferWithin(next, prev, h, a, m, n, b, back);
    RewrittenBy(next, prev, h, a, m, n, b, back);
    var (position, first, last) := Moving(h, a, m, n, b, back);
    var next', prev' := TransferNext(next, prev, position, first, last), TransferPrev(prev, position, first, last);
    var u, v, total := [h] + a, b + [h], NodesOf(h, lists[h]);
    TotalWithin(h, a, m, n, b);
    TouchedBy(u, multiset(m) + multiset(n) + multiset(b), total);
    TouchedBy(m, multiset(u) + multiset(n) + multiset(b), total);
    TouchedBy(n, multiset(u) + multiset(m) + multiset(b), total);
    TouchedBy(v, multiset(a) + multiset(m) + multiset(n), total);
    forall k <- lists | k != h ensures Ring(next', prev', k, lists[k]) {
      OthersApart(lists, h, k);
      OtherRing(next, prev, next', prev', k, lists[k], total, u[|u| - 1], m[|m| - 1], n[|n| - 1], m[0], n[0], v[0]);
    }
  }

  lemma OthersApart(lists: map<Ref, seq<Ref>>, h: Ref, k: Ref)
    requires AllApart(lists) && h in lists && k in lists && h != k
    ensures forall e <- NodesOf(h, lists[h]) :: e !in NodesOf(k, lists[k])
  {
    hide NodesOf;
    forall e <- NodesOf(h, lists[h]) ensures e !in NodesOf(k, lists[k]) {
      OnceMember(NodesOf(h, lists[h]), NodesOf(k, lists[k]), e);
    }
  }

  /** The same nodes in another order. */
  lemma SameNodesApart(lists: map<Ref, seq<Ref>>, h: Ref, s: seq<Ref>, unused: Ref)
    requires AllApart(lists) && AllBelow(lists, unused) && h in lists && NodesOf(h, s) == NodesOf(h, lists[h])
    ensures AllApart(lists[h := s]) && AllBelow(lists[h := s], unused)
  {
    hide NodesOf;
  }
}
