/** list: transfer, splice, merge, and the sort with a binary counter of runs. */
module ListSorting {
  import opened Ordering
  import opened Insertion
  import opened Merging
  import opened StableSorting
  import opened AdaptiveSorting
  import opened ListRings
  import Rotation

  // Nodes compared by what they hold.
  function ByData<T>(data: Ref -> T, lt: Order<T>): Order<Ref> {
    (x: Ref, y: Ref) => lt(data(x), data(y))
  }

  lemma ByDataOrder<T(!new)>(data: Ref -> T, lt: Order<T>)
    requires StrictWeakOrder(lt)
    ensures StrictWeakOrder(ByData(data, lt))
  {
    var nl := ByData(data, lt);
    forall x, y ensures nl(x, y) == lt(data(x), data(y)) {
    }
    forall x, y ensures Equivalent(nl, x, y) == Equivalent(lt, data(x), data(y)) {
    }
  }

  ghost predicate ListsOk(next: Pointers, prev: Pointers, lists: map<Ref, seq<Ref>>, unused: Ref) {
    AllRings(next, prev, lists) && AllApart(lists) && AllBelow(lists, unused)
  }

  // The first node from u on, or the header.
  function FirstOf(u: seq<Ref>, h: Ref): Ref {
    (u + [h])[0]
  }

  lemma NextOf(next: Pointers, prev: Pointers, lists: map<Ref, seq<Ref>>, unused: Ref, h: Ref, a: seq<Ref>, b: seq<Ref>)
    requires ListsOk(next, prev, lists, unused) && h in lists && lists[h] == a + b
    ensures var n := ([h] + a)[|a|]; n in next && next[n] == FirstOf(b, h)
    ensures b != [] ==> b[0] != h && b[0] in next && next[b[0]] == FirstOf(b[1..], h)
  {
    hide AllApart, AllBelow, Once, NodesOf;
    RingLink(next, prev, h, a, b);
    if b != [] {
      assert a + b == (a + [b[0]]) + b[1..];
      RingLink(next, prev, h, a + [b[0]], b[1..]);
      assert ([h] + (a + [b[0]]))[|a| + 1] == b[0];
      NotHeader(lists, h, b[0]);
    }
  }

  lemma NotHeader(lists: map<Ref, seq<Ref>>, h: Ref, n: Ref)
    requires AllApart(lists) && h in lists && n in lists[h]
    ensures n != h
  {
    assert Once(NodesOf(h, lists[h]));
    assert NodesOf(h, lists[h])[h] == 1 + multiset(lists[h])[h];
    assert n in multiset(lists[h]);
  }

  lemma UnusedIsNew(lists: map<Ref, seq<Ref>>, unused: Ref)
    requires AllBelow(lists, unused)
    ensures unused !in lists && forall h <- lists :: unused !in NodesOf(h, lists[h])
  {
    forall h <- lists ensures h < unused {
      assert h in NodesOf(h, lists[h]);
    }
  }

  lemma RingAdded(next: Pointers, prev: Pointers, lists: map<Ref, seq<Ref>>, unused: Ref)
    requires ListsOk(next, prev, lists, unused)
    ensures unused !in lists && ListsOk(next[unused := unused], prev[unused := unused], lists[unused := []], unused + 1)
  {
    hide Once, Ring, Links;
    UnusedIsNew(lists, unused);
    var next', prev', lists' := next[unused := unused], prev[unused := unused], lists[unused := []];
    forall h <- lists' ensures Ring(next', prev', h, lists'[h]) {
      if h != unused {
        OldRing(next, prev, h, lists[h], unused);
      } else {
        EmptyRing(next', prev', h);
      }
    }
    AddedApart(lists, unused);
  }

  lemma EmptyRing(next: Pointers, prev: Pointers, h: Ref)
    requires Link(next, prev, h, h)
    ensures Ring(next, prev, h, [])
  {
    assert [h] + [] + [h] == [h, h];
  }

  lemma AddedApart(lists: map<Ref, seq<Ref>>, unused: Ref)
    requires AllApart(lists) && AllBelow(lists, unused)
    ensures AllApart(lists[unused := []]) && AllBelow(lists[unused := []], unused + 1)
  {
    hide Once;
    UnusedIsNew(lists, unused);
    var lists' := lists[unused := []];
    assert NodesOf(unused, []) == multiset{unused};
    forall h <- lists' ensures Once(NodesOf(h, lists'[h])) {
      if h == unused { OnceOne(unused, multiset{}) by { OnceNothing(); } }
    }
    forall h <- lists', k <- lists' | h != k ensures Once(NodesOf(h, lists'[h]) + NodesOf(k, lists'[k])) {
      if h == unused {
        OnceOne(unused, NodesOf(k, lists[k]));
      } else if k == unused {
        OnceOne(unused, NodesOf(h, lists[h]));
        assert multiset{unused} + NodesOf(h, lists[h]) == NodesOf(h, lists[h]) + multiset{unused};
      }
    }
  }

  lemma OnceNothing()
    ensures Once(multiset{}) && forall n: Ref :: multiset{n} + multiset{} == multiset{n}
  {
  }

  lemma OldRing(next: Pointers, prev: Pointers, h: Ref, s: seq<Ref>, n: Ref)
    requires Ring(next, prev, h, s) && n !in NodesOf(h, s)
    ensures Ring(next[n := n], prev[n := n], h, s)
  {
    var c := [h] + s + [h];
    forall i | 0 < i < |c| ensures Link(next[n := n], prev[n := n], c[i - 1], c[i]) {
      assert Link(next, prev, c[i - 1], c[i]);
      assert forall e :: e in c ==> e in NodesOf(h, s);
      assert c[i - 1] in c && c[i] in c;
    }
  }

  lemma OnceOne(n: Ref, s: multiset<Ref>)
    requires Once(s) && n !in s
    ensures Once(multiset{n} + s)
  {
    forall e ensures (multiset{n} + s)[e] <= 1 {
      assert (multiset{n} + s)[e] == multiset{n}[e] + s[e];
    }
  }

  // What insert writes: a new node n before position.
  function InsertNext(next: Pointers, prev: Pointers, n: Ref, position: Ref): Pointers
    requires position in prev
  {
    next[n := position][prev[position] := n]
  }

  function InsertPrev(prev: Pointers, n: Ref, position: Ref): Pointers
    requires position in prev
  {
    prev[n := prev[position]][position := n]
  }

  lemma InsertRing(next: Pointers, prev: Pointers, h: Ref, p: seq<Ref>, q: seq<Ref>, n: Ref)
    requires Ring(next, prev, h, p + q) && Once(NodesOf(h, p + q)) && n !in NodesOf(h, p + q)
    ensures FirstOf(q, h) in prev && prev[FirstOf(q, h)] == ([h] + p)[|p|]
    ensures Ring(InsertNext(next, prev, n, FirstOf(q, h)), InsertPrev(prev, n, FirstOf(q, h)), h, p + [n] + q)
  {
    hide Links, Once, NodesOf;
    var s, t, position := [h] + p, q + [h], FirstOf(q, h);
    RingLink(next, prev, h, p, q);
    var before := prev[position];
    var next', prev' := InsertNext(next, prev, n, position), InsertPrev(prev, n, position);
    InsertTotals(h, p, q, n);
    LinksKept(next, prev, next', prev', s, multiset(q) + multiset{n}, n, before, n, n, position, n);
    LinksKept(next, prev, next', prev', t, multiset(p) + multiset{n}, n, before, n, n, position, n);
    var m := [n];
    OneLinks(next', prev', n);
    LinksJoin(next', prev', s, m);
    LinksJoin(next', prev', s + m, t);
    assert [h] + (p + m + q) + [h] == (s + m) + t;
  }

  lemma OneLinks(next: Pointers, prev: Pointers, n: Ref)
    ensures Links(next, prev, [n])
  {
  }

  lemma InsertTotals(h: Ref, p: seq<Ref>, q: seq<Ref>, n: Ref)
    requires Once(NodesOf(h, p + q)) && n !in NodesOf(h, p + q)
    ensures Once(multiset([h] + p) + (multiset(q) + multiset{n}))
    ensures Once(multiset(q + [h]) + (multiset(p) + multiset{n}))
    ensures n != ([h] + p)[|p|] && n != FirstOf(q, h)
    ensures NodesOf(h, p + [n] + q) == NodesOf(h, p + q) + multiset{n}
  {
    hide Once;
    OnceOne(n, NodesOf(h, p + q));
    assert multiset([h] + p) + (multiset(q) + multiset{n}) == multiset{n} + NodesOf(h, p + q);
    assert multiset(q + [h]) + (multiset(p) + multiset{n}) == multiset{n} + NodesOf(h, p + q);
    assert ([h] + p)[|p|] in multiset([h] + p) && FirstOf(q, h) in multiset(q + [h]);
  }

  lemma InsertAll(next: Pointers, prev: Pointers, lists: map<Ref, seq<Ref>>, unused: Ref, h: Ref, p: seq<Ref>,
                  q: seq<Ref>)
    requires ListsOk(next, prev, lists, unused) && h in lists && lists[h] == p + q
    ensures FirstOf(q, h) in prev && prev[FirstOf(q, h)] != unused && FirstOf(q, h) != unused
    ensures ListsOk(InsertNext(next, prev, unused, FirstOf(q, h)), InsertPrev(prev, unused, FirstOf(q, h)),
                    lists[h := p + [unused] + q], unused + 1)
  {
    hide Ring, Once, NodesOf, Links;
    var n, position := unused, FirstOf(q, h);
    UnusedIsNew(lists, unused);
    InsertRing(next, prev, h, p, q, n);
    InsertTotals(h, p, q, n);
    var before := prev[position];
    var next', prev', lists' := InsertNext(next, prev, n, position), InsertPrev(prev, n, position),
      lists[h := p + [n] + q];
    EndsHere(h, p, q);
    forall k <- lists' ensures Ring(next', prev', k, lists'[k]) {
      if k != h {
        forall e <- NodesOf(h, lists[h]) + multiset{n} ensures e !in NodesOf(k, lists[k]) {
          if e in NodesOf(h, lists[h]) { OnceMember(NodesOf(h, lists[h]), NodesOf(k, lists[k]), e); }
        }
        OtherRing(next, prev, next', prev', k, lists[k], NodesOf(h, lists[h]) + multiset{n}, n, before, n, n, position,
                  n);
      }
    }
    forall k <- lists' ensures Once(NodesOf(k, lists'[k])) {
      if k == h {
        OnceOne(n, NodesOf(h, lists[h]));
        assert multiset{n} + NodesOf(h, lists[h]) == NodesOf(h, lists[h]) + multiset{n};
      }
    }
    forall j <- lists', k <- lists' | j != k ensures Once(NodesOf(j, lists'[j]) + NodesOf(k, lists'[k])) {
      var both := NodesOf(j, lists[j]) + NodesOf(k, lists[k]);
      if j == h || k == h {
        OnceOne(n, both);
        assert NodesOf(j, lists'[j]) + NodesOf(k, lists'[k]) == multiset{n} + both;
      }
    }
  }

  lemma EndsHere(h: Ref, p: seq<Ref>, q: seq<Ref>)
    ensures ([h] + p)[|p|] in NodesOf(h, p + q) && FirstOf(q, h) in NodesOf(h, p + q)
  {
  }

  // ----- the counter of runs -----

  const COUNTERS := 64

  lemma {:induction false} Pow2Grows(i: nat, j: nat)
    requires i <= j
    ensures 0 < Pow2(i) <= Pow2(j)
  {
    if i < j {
      Pow2Grows(i, j - 1);
    } else if i > 0 {
      Pow2Grows(i - 1, i - 1);
    }
  }

  // The chunks that the runs from i up, or those below i, are sorted from; the higher a run
  // is, the older.
  ghost function Down(chunks: seq<seq<Ref>>, i: nat): seq<Ref>
    decreases |chunks| - i
  {
    if i >= |chunks| then [] else Down(chunks, i + 1) + chunks[i]
  }

  ghost function Low(chunks: seq<seq<Ref>>, i: nat): seq<Ref>
    requires i <= |chunks|
  {
    if i == 0 then [] else chunks[i - 1] + Low(chunks, i - 1)
  }

  lemma {:induction false} DownLow(chunks: seq<seq<Ref>>, i: nat)
    requires i <= |chunks|
    ensures Down(chunks, 0) == Down(chunks, i) + Low(chunks, i)
  {
    if i > 0 {
      DownLow(chunks, i - 1);
      assert Down(chunks, i - 1) == Down(chunks, i) + chunks[i - 1];
      assert (Down(chunks, i) + chunks[i - 1]) + Low(chunks, i - 1) ==
             Down(chunks, i) + (chunks[i - 1] + Low(chunks, i - 1));
    }
  }

  lemma {:induction false} DownFrame(chunks: seq<seq<Ref>>, chunks': seq<seq<Ref>>, i: nat)
    requires |chunks| == |chunks'| && forall j :: i <= j < |chunks| ==> chunks[j] == chunks'[j]
    ensures Down(chunks, i) == Down(chunks', i)
    decreases |chunks| - i
  {
    if i < |chunks| {
      DownFrame(chunks, chunks', i + 1);
    }
  }

  lemma {:induction false} DownEmpty(chunks: seq<seq<Ref>>, i: nat)
    requires forall j :: i <= j < |chunks| ==> chunks[j] == []
    ensures Down(chunks, i) == []
    decreases |chunks| - i
  {
    if i < |chunks| {
      DownEmpty(chunks, i + 1);
    }
  }

  lemma {:induction false} LowEmpty(chunks: seq<seq<Ref>>, i: nat)
    requires i <= |chunks| && forall j :: 0 <= j < i ==> chunks[j] == []
    ensures Low(chunks, i) == []
  {
    if i > 0 {
      LowEmpty(chunks, i - 1);
    }
  }

  // The lists of the program besides h, the carry and the counters, which are new, and of
  // which no two are the same.
  ghost predicate Counters(was: map<Ref, seq<Ref>>, lists: map<Ref, seq<Ref>>, h: Ref, carry: Ref, counter: seq<Ref>) {
    && |counter| == COUNTERS && h in was && carry !in was && (forall i :: 0 <= i < COUNTERS ==> counter[i] !in was)
    && (forall i :: 0 <= i < COUNTERS ==> counter[i] != carry)
    && (forall i, j :: 0 <= i < j < COUNTERS ==> counter[i] != counter[j])
    && (forall k :: k in lists <==> k in was || k == carry || k in counter)
    && forall k <- was :: k != h ==> lists[k] == was[k]
  }

  // Run i is empty, or sorted from a chunk of 2^i nodes.
  ghost predicate Runs(lists: map<Ref, seq<Ref>>, counter: seq<Ref>, chunks: seq<seq<Ref>>, lt: Order<Ref>) {
    && |chunks| == |counter| == COUNTERS
    && forall i :: 0 <= i < COUNTERS ==>
      counter[i] in lists && lists[counter[i]] == SortOf(lt, chunks[i]) && (chunks[i] == [] || |chunks[i]| == Pow2(i))
  }

  // The carry stands at i: what it holds is newer than the runs from i up, and those below
  // i are empty.
  ghost predicate Carrying(lists: map<Ref, seq<Ref>>, carry: Ref, chunks: seq<seq<Ref>>, i: nat, c: seq<Ref>,
                           total: seq<Ref>, lt: Order<Ref>) {
    && carry in lists && lists[carry] == SortOf(lt, c) && |c| == Pow2(i) && i <= |chunks| == COUNTERS
    && (forall j :: 0 <= j < i ==> chunks[j] == []) && Down(chunks, i) + c == total
  }

  lemma CarryBounds(lists: map<Ref, seq<Ref>>, carry: Ref, chunks: seq<seq<Ref>>, i: nat, c: seq<Ref>, total: seq<Ref>,
                    lt: Order<Ref>)
    requires Carrying(lists, carry, chunks, i, c, total, lt) && |total| < Pow2(COUNTERS)
    ensures i < COUNTERS
  {
    if i >= COUNTERS {
      Pow2Grows(COUNTERS, i);
    }
  }

  /** Merging run i with the carry, and exchanging the two. */
  lemma CarryStep(lists: map<Ref, seq<Ref>>, was: map<Ref, seq<Ref>>, h: Ref, counter: seq<Ref>, carry: Ref,
                  chunks: seq<seq<Ref>>, i: nat, c: seq<Ref>, total: seq<Ref>, lt: Order<Ref>)
    requires StrictWeakOrder(lt) && Counters(was, lists, h, carry, counter) && Runs(lists, counter, chunks, lt)
    requires Carrying(lists, carry, chunks, i, c, total, lt) && i < COUNTERS && chunks[i] != []
    ensures var lists' := lists[counter[i] := Merge(lt, lists[counter[i]], lists[carry])][carry := []];
      && Counters(was, lists', h, counter[i], counter[i := carry])
      && Runs(lists', counter[i := carry], chunks[i := []], lt)
      && Carrying(lists', counter[i], chunks[i := []], i + 1, chunks[i] + c, total, lt)
      && (h in lists ==> h in lists' && lists'[h] == lists[h])
  {
    hide StrictWeakOrder, SortOf, Merge, MergeBack, Down;
    var lists' := lists[counter[i] := Merge(lt, lists[counter[i]], lists[carry])][carry := []];
    SortPartsFirst(lt, chunks[i], c);
    NothingSorted(lt);
    var chunks' := chunks[i := []];
    DownFrame(chunks, chunks', i + 1);
    DownAt(chunks, i);
    assert (Down(chunks, i + 1) + chunks[i]) + c == Down(chunks', i + 1) + (chunks[i] + c);
    Exchange(was, lists, lists', h, carry, counter, i);
    RunsExchanged(lists, lists', was, h, counter, carry, chunks, i, lt);
  }

  lemma RunsExchanged(lists: map<Ref, seq<Ref>>, lists': map<Ref, seq<Ref>>, was: map<Ref, seq<Ref>>, h: Ref,
                      counter: seq<Ref>, carry: Ref, chunks: seq<seq<Ref>>, i: nat, lt: Order<Ref>)
    requires Counters(was, lists, h, carry, counter) && Runs(lists, counter, chunks, lt) && i < COUNTERS
    requires lists'.Keys == lists.Keys && carry in lists && lists'[carry] == []
    requires forall k <- lists :: k != carry && k != counter[i] ==> lists'[k] == lists[k]
    ensures Runs(lists', counter[i := carry], chunks[i := []], lt)
  {
    hide SortOf;
    NothingSorted(lt);
  }

  lemma OneCounted(nodes: seq<Ref>, k: nat)
    requires k < |nodes|
    ensures nodes[k..] != [] && nodes[k..][1..] == nodes[k + 1..] && nodes[k..][0] == nodes[k]
    ensures nodes[..k + 1] == nodes[..k] + [nodes[k]]
  {
  }

  lemma DownAt(chunks: seq<seq<Ref>>, i: nat)
    requires i < |chunks|
    ensures Down(chunks, i) == Down(chunks, i + 1) + chunks[i]
  {
  }

  lemma NothingSorted(lt: Order<Ref>)
    ensures SortOf(lt, []) == []
  {
  }

  lemma Exchange(was: map<Ref, seq<Ref>>, lists: map<Ref, seq<Ref>>, lists': map<Ref, seq<Ref>>, h: Ref, carry: Ref,
                 counter: seq<Ref>, i: nat)
    requires Counters(was, lists, h, carry, counter) && i < COUNTERS && lists'.Keys == lists.Keys
    requires forall k <- lists :: k != carry && k != counter[i] ==> lists'[k] == lists[k]
    ensures Counters(was, lists', h, counter[i], counter[i := carry])
  {
    var counter' := counter[i := carry];
    assert counter'[i] == carry;
    forall k ensures k in lists' <==> k in was || k == counter[i] || k in counter' {
      if k in counter && k != counter[i] {
        var j :| 0 <= j < COUNTERS && counter[j] == k;
        assert counter'[j] == k;
      }
      if k in counter' && k != carry {
        var j :| 0 <= j < COUNTERS && counter'[j] == k;
        assert counter[j] == k;
      }
    }
  }

  /** The carry is put into the first empty run. */
  lemma CarryDone(lists: map<Ref, seq<Ref>>, was: map<Ref, seq<Ref>>, h: Ref, counter: seq<Ref>, carry: Ref,
                  chunks: seq<seq<Ref>>, i: nat, c: seq<Ref>, total: seq<Ref>, lt: Order<Ref>)
    requires Counters(was, lists, h, carry, counter) && Runs(lists, counter, chunks, lt)
    requires Carrying(lists, carry, chunks, i, c, total, lt) && i < COUNTERS && chunks[i] == []
    ensures Counters(was, lists, h, counter[i], counter[i := carry])
    ensures Runs(lists, counter[i := carry], chunks[i := c], lt)
    ensures counter[i] in lists && lists[counter[i]] == [] && Down(chunks[i := c], 0) == total
  {
    hide SortOf, Down;
    Exchange(was, lists, lists, h, carry, counter, i);
    NothingSorted(lt);
    var chunks' := chunks[i := c];
    DownFrame(chunks, chunks', i + 1);
    DownAt(chunks, i);
    DownAt(chunks', i);
    assert Down(chunks, i + 1) + [] == Down(chunks, i + 1);
    LowEmpty(chunks', i);
    DownLow(chunks', i);
    assert Down(chunks', i) + [] == Down(chunks', i);
  }

  /** The nodes of all lists. data is what each node holds once it is made. */
  class Lists<T(!new)> {
    const data: Ref -> T
    var next: Pointers
    var prev: Pointers
    var unused: Ref
    // The nodes of each list, by its header.
    ghost var lists: map<Ref, seq<Ref>>

    ghost predicate Valid()
      reads this
    {
      ListsOk(next, prev, lists, unused)
    }

    constructor (data: Ref -> T)
      ensures Valid() && lists == map[] && this.data == data
    {
      this.data := data;
      next, prev, unused, lists := map[], map[], 0, map[];
    }

    // insert: a new node before position.
    method Insert(position: Ref, ghost h: Ref, ghost p: seq<Ref>, ghost q: seq<Ref>) returns (n: Ref)
      requires Valid() && h in lists && lists[h] == p + q && position == FirstOf(q, h)
      modifies this
      ensures Valid() && lists == old(lists)[h := p + [n] + q]
    {
      hide ListsOk;
      InsertAll(next, prev, lists, unused, h, p, q);
      n := unused;
      ghost var next', prev' := InsertNext(next, prev, n, position), InsertPrev(prev, n, position);
      unused := unused + 1;
      next := next[n := position];
      prev := prev[n := prev[position]];
      next := next[prev[position] := n];
      prev := prev[position := n];
      assert next == next' && prev == prev';
      lists := lists[h := p + [n] + q];
    }

    // The header of a new list.
    method NewList() returns (h: Ref)
      requires Valid()
      modifies this
      ensures Valid() && h !in old(lists) && lists == old(lists)[h := []]
    {
      hide ListsOk;
      RingAdded(next, prev, lists, unused);
      h := unused;
      next, prev, lists := next[h := h], prev[h := h], lists[h := []];
      unused := unused + 1;
    }

    // The header of an empty list is given back.
    method DropList(h: Ref)
      requires Valid() && h in lists && lists[h] == []
      modifies this
      ensures Valid() && lists == old(lists) - {h}
    {
      lists := lists - {h};
    }

    // The assignments of transfer.
    method Relink(position: Ref, first: Ref, last: Ref)
      requires position in prev && first in prev && last in prev && position != first && first != last
      modifies this`next, this`prev
      ensures position != last ==>
                next == old(TransferNext(next, prev, position, first, last)) &&
                prev == old(TransferPrev(prev, position, first, last))
      ensures position == last ==> next == old(next) && prev == old(prev)
    {
      if position != last {
        next := next[prev[last] := position];
        next := next[prev[first] := last];
        next := next[prev[position] := first];

        var tmp := prev[position];
        prev := prev[position := prev[last]];
        prev := prev[last := prev[first]];
        prev := prev[first := tmp];
      }
    }

    // transfer, from one list to another: moves m out of a + m + b, to between p and q.
    method Transfer(position: Ref, first: Ref, last: Ref, ghost hx: Ref, ghost a: seq<Ref>, ghost m: seq<Ref>,
                    ghost b: seq<Ref>, ghost hy: Ref, ghost p: seq<Ref>, ghost q: seq<Ref>)
      requires Valid() && hx in lists && hy in lists && hx != hy
      requires m != [] && lists[hx] == a + m + b && lists[hy] == p + q
      requires position == FirstOf(q, hy) && first == m[0] && last == FirstOf(b, hx)
      modifies this
      ensures Valid() && lists == old(lists)[hx := a + b][hy := p + m + q]
    {
      hide AllRings, AllApart, AllBelow;
      TransferAll(next, prev, lists, hx, a, m, b, hy, p, q);
      TransferApart(lists, hx, a, m, b, hy, p, q, unused);
      Relink(position, first, last);
      lists := lists[hx := a + b][hy := p + m + q];
    }

    // transfer within one list: m and n change places.
    method TransferWithin(position: Ref, first: Ref, last: Ref, ghost h: Ref, ghost a: seq<Ref>, ghost m: seq<Ref>,
                          ghost n: seq<Ref>, ghost b: seq<Ref>, ghost back: bool)
      requires Valid() && h in lists && lists[h] == a + m + n + b && m != [] && n != []
      requires (position, first, last) == Moving(h, a, m, n, b, back)
      modifies this
      ensures Valid() && lists == old(lists)[h := a + n + m + b]
    {
      hide AllRings, AllApart, AllBelow, Moving;
      TransferWithinAll(next, prev, lists, h, a, m, n, b, back);
      TotalWithin(h, a, m, n, b);
      SameNodesApart(lists, h, a + n + m + b, unused);
      Relink(position, first, last);
      lists := lists[h := a + n + m + b];
    }

    // reverse: one node after the other is moved to the front.
    method Reverse(h: Ref)
      requires Valid() && h in lists
      modifies this
      ensures Valid() && lists == old(lists)[h := Rotation.Reversed(old(lists[h]))]
    {
      hide ListsOk, FirstOf, Moving;
      var short := IsShort(h);
      ghost var was, s := lists, lists[h];
      ReverseStart(s, h);
      if !short {
        NextOf(next, prev, lists, unused, h, [], s);
        var first := next[h];
        first := next[first];
        ghost var i := 1;
        while first != h
          invariant Valid() && 1 <= i <= |s| && lists == was[h := Rotation.Reversed(s[..i]) + s[i..]]
          invariant first == FirstOf(s[i..], h)
          decreases |s| - i
        {
          ghost var r := Rotation.Reversed(s[..i]);
          var node := first;
          ReverseStep(next, prev, lists, unused, h, s, i);
          first := next[first];
          TransferWithin(next[h], node, first, h, [], r, [s[i]], s[i + 1..], false);
          i := i + 1;
        }
        ReverseEnd(next, prev, lists, unused, h, s, i);
      }
    }

    // merge: the nodes of the list at h2 go into the one at h1.
    method Merge(h1: Ref, h2: Ref, lt: Order<T>)
      requires Valid() && h1 in lists && h2 in lists && h1 != h2
      modifies this
      ensures Valid()
      ensures lists == old(lists)[h1 := Merging.Merge(ByData(data, lt), old(lists[h1]), old(lists[h2]))][h2 := []]
    {
      hide ListsOk, Merging.Merge, MergedSoFar, ByData, FirstOf, Both;
      ghost var was: map<Ref, seq<Ref>> := lists;
      ghost var s, t, nl := lists[h1], lists[h2], ByData(data, lt);
      ghost var out: seq<Ref>, i: nat, j: nat := [], 0, 0;
      MergeStart(nl, s, t);
      BothSame(was, h1, h2);
      NextOf(next, prev, lists, unused, h1, [], s);
      NextOf(next, prev, lists, unused, h2, [], t);
      var first1, first2 := next[h1], next[h2];
      while first1 != h1 && first2 != h2
        invariant Valid() && i <= |s| && j <= |t| && MergedSoFar(nl, s, t, i, j, out)
        invariant h1 in lists && h2 in lists && Both(was, lists, h1, out + s[i..], h2, t[j..])
        invariant first1 == FirstOf(s[i..], h1) && first2 == FirstOf(t[j..], h2)
        decreases |s| - i + |t| - j
      {
        BothAt(was, lists, h1, out + s[i..], h2, t[j..]);
        MergeStep(next, prev, lists, unused, h1, h2, s, t, i, j, out, nl);
        Compared(data, lt, first2, first1);
        if lt(data(first2), data(first1)) {
          var following := next[first2];
          MoveNode(first1, first2, following, h1, out, s[i..], h2, t[j], t[j + 1..], was);
          first2 := following;
          out, j := out + [t[j]], j + 1;
        } else {
          first1 := next[first1];
          out, i := out + [s[i]], i + 1;
        }
      }
      BothAt(was, lists, h1, out + s[i..], h2, t[j..]);
      Exhausted(next, prev, lists, unused, h1, h2, s, t, i, j, out);
      MergeRest(nl, s, t, i, j, out);
      assert (out + s[i..]) + t[j..] == out + (s[i..] + t[j..]);
      MergeTail(first2, h1, h2, was, out + s[i..], t[j..]);
    }

    // The first node of the second list goes between two parts of the first one.
    method MoveNode(first1: Ref, first2: Ref, following: Ref, ghost h1: Ref, ghost out: seq<Ref>, ghost s: seq<Ref>,
                    ghost h2: Ref, ghost x: Ref, ghost t: seq<Ref>, ghost was: map<Ref, seq<Ref>>)
      requires Valid() && h1 in lists && h2 in lists && h1 != h2 && Both(was, lists, h1, out + s, h2, [] + [x] + t)
      requires first1 == FirstOf(s, h1) && first2 == x && following == FirstOf(t, h2)
      modifies this
      ensures Valid() && h1 in lists && h2 in lists && Both(was, lists, h1, out + [x] + s, h2, t)
    {
      hide ListsOk, FirstOf, Both;
      ghost var before := lists;
      BothAt(was, lists, h1, out + s, h2, [] + [x] + t);
      Transfer(first1, first2, following, h2, [], [x], t, h1, out, s);
      assert [] + t == t;
      BothMoved(was, before, h1, out + s, h2, [] + [x] + t, out + [x] + s, t);
    }

    // What is left of the second list goes to the end of the first one.
    method MergeTail(first2: Ref, h1: Ref, h2: Ref, ghost was: map<Ref, seq<Ref>>, ghost s: seq<Ref>, ghost t: seq<Ref>)
      requires Valid() && h1 in lists && h2 in lists && h1 != h2 && Both(was, lists, h1, s, h2, t)
      requires first2 == FirstOf(t, h2)
      modifies this
      ensures Valid() && lists == was[h1 := s + t][h2 := []]
    {
      hide ListsOk, FirstOf, Both;
      BothAt(was, lists, h1, s, h2, t);
      HeaderOrNode(next, prev, lists, unused, h2, t);
      AtEnd(h1);
      AtEnd(h2);
      ghost var before := lists;
      ghost var none: seq<Ref> := [];
      assert none + none == none && t == none + t + none && s == s + none && s + t + none == s + t;
      if first2 != h2 {
        Transfer(h1, first2, h2, h2, none, t, none, h1, s, none);
      } else {
        assert s + t == s;
      }
      BothMoved(was, before, h1, s, h2, t, s + t, []);
      BothExactly(was, lists, h1, s + t, h2, []);
    }

    // empty()
    method IsEmpty(h: Ref) returns (empty: bool)
      requires Valid() && h in lists
      ensures empty <==> lists[h] == []
    {
      hide ListsOk;
      ghost var s := lists[h];
      assert s == [] + s;
      NextOf(next, prev, lists, unused, h, [], s);
      HeaderOrNode(next, prev, lists, unused, h, s);
      empty := next[h] == h;
    }

    // The lists that sort works with, all empty.
    method MakeCounters(ghost h: Ref) returns (carry: Ref, counter: array<Ref>)
      requires Valid() && h in lists
      modifies this
      ensures Valid() && fresh(counter) && counter.Length == COUNTERS
      ensures Counters(old(lists), lists, h, carry, counter[..]) && carry in lists && lists[carry] == []
      ensures h in lists && lists[h] == old(lists[h])
      ensures forall i :: 0 <= i < COUNTERS ==> counter[i] in lists && lists[counter[i]] == []
    {
      hide ListsOk;
      ghost var was := lists;
      carry := NewList();
      counter := new Ref[COUNTERS](_ => 0);
      for n := 0 to COUNTERS
        invariant Valid() && carry !in was && carry in lists && lists[carry] == []
        invariant forall i :: 0 <= i < n ==>
                    counter[i] !in was && counter[i] in lists && lists[counter[i]] == [] && counter[i] != carry
        invariant forall i, j :: 0 <= i < j < n ==> counter[i] != counter[j]
        invariant forall k :: k in lists <==> k in was || k == carry || k in counter[..n]
        invariant forall k <- was :: lists[k] == was[k]
      {
        var list := NewList();
        counter[n] := list;
        assert counter[..n + 1] == counter[..n] + [list];
      }
      assert counter[..COUNTERS] == counter[..];
    }

    // One turn of the outer loop of sort, with one node in the carry.
    method CarryUp(carry0: Ref, counter: array<Ref>, fill0: nat, lt: Order<T>, ghost was: map<Ref, seq<Ref>>,
                   ghost h: Ref, ghost chunks0: seq<seq<Ref>>, ghost x: Ref)
      returns (carry: Ref, fill: nat, ghost chunks: seq<seq<Ref>>)
      requires Valid() && StrictWeakOrder(lt) && counter.Length == COUNTERS && fill0 <= COUNTERS && h in lists
      requires Counters(was, lists, h, carry0, counter[..]) && Runs(lists, counter[..], chunks0, ByData(data, lt))
      requires carry0 in lists && lists[carry0] == [x] && |Down(chunks0, 0)| + 1 < Pow2(COUNTERS)
      requires forall i :: fill0 <= i < COUNTERS ==> chunks0[i] == []
      modifies this, counter
      ensures Valid() && Counters(was, lists, h, carry, counter[..])
      ensures Runs(lists, counter[..], chunks, ByData(data, lt))
      ensures carry in lists && lists[carry] == [] && Down(chunks, 0) == Down(chunks0, 0) + [x]
      ensures 0 < fill <= COUNTERS && (forall i :: fill <= i < COUNTERS ==> chunks[i] == [])
      ensures h in lists && lists[h] == old(lists[h])
    {
      hide StrictWeakOrder, ListsOk, Counters, Runs, Carrying, Merging.Merge, SortOf, ByData, Down;
      ghost var nl, total := ByData(data, lt), Down(chunks0, 0) + [x];
      ByDataOrder(data, lt);
      carry, fill, chunks := carry0, fill0, chunks0;
      ghost var c := [x];
      RunsLength(lists, counter[..], chunks, nl);
      CarryStart(lists, carry, chunks, x, nl);
      var i: nat := 0;
      while true
        invariant Valid() && h in lists && lists[h] == old(lists[h])
        invariant Counters(was, lists, h, carry, counter[..]) && Runs(lists, counter[..], chunks, nl)
        invariant i <= fill0 && |chunks| == COUNTERS && Carrying(lists, carry, chunks, i, c, total, nl)
        invariant forall j :: i <= j < COUNTERS ==> chunks[j] == chunks0[j]
        invariant forall j :: 0 <= j < i ==> chunks[j] == []
        decreases COUNTERS - i
      {
        CarryBounds(lists, carry, chunks, i, c, total, nl);
        RunAt(lists, counter[..], chunks, i, nl);
        CarryIs(was, lists, h, carry, counter[..], chunks, i, c, total, nl);
        if i >= fill0 {
          break;
        }
        var empty := IsEmpty(counter[i]);
        if empty {
          break;
        }
        CarryStep(lists, was, h, counter[..], carry, chunks, i, c, total, nl);
        ghost var w := counter[..];
        Merge(counter[i], carry, lt);
        carry, counter[i] := counter[i], carry;
        assert counter[..] == w[i := w[i]][i := counter[i]];
        c, chunks := chunks[i] + c, chunks[i := []];
        i := i + 1;
      }
      CarryDone(lists, was, h, counter[..], carry, chunks, i, c, total, nl);
      ghost var w := counter[..];
      carry, counter[i] := counter[i], carry;
      assert counter[..] == w[i := counter[i]];
      chunks := chunks[i := c];
      if i == fill {
        fill := fill + 1;
      }
    }

    // The last loop of sort: merges the runs, each into the next older one.
    method Collapse(counter: array<Ref>, fill: nat, lt: Order<T>, ghost was: map<Ref, seq<Ref>>, ghost h: Ref,
                    ghost carry: Ref, ghost chunks: seq<seq<Ref>>)
      requires Valid() && StrictWeakOrder(lt) && counter.Length == COUNTERS && 0 < fill <= COUNTERS && h in lists
      requires Counters(was, lists, h, carry, counter[..]) && Runs(lists, counter[..], chunks, ByData(data, lt))
      requires carry in lists && lists[carry] == [] && forall i :: fill <= i < COUNTERS ==> chunks[i] == []
      modifies this
      ensures Valid() && Counters(was, lists, h, carry, counter[..])
      ensures carry in lists && lists[carry] == [] && h in lists && lists[h] == old(lists[h])
      ensures forall i :: 0 <= i < COUNTERS ==> counter[i] in lists
      ensures forall i :: 0 <= i < COUNTERS && i != fill - 1 ==> lists[counter[i]] == []
      ensures lists[counter[fill - 1]] == SortOf(ByData(data, lt), Down(chunks, 0))
    {
      hide StrictWeakOrder, ListsOk, Counters, Runs, Merging.Merge, SortOf, ByData, Down, Collapsed;
      ghost var nl := ByData(data, lt);
      ByDataOrder(data, lt);
      CollapseStart(lists, counter[..], chunks, nl);
      for i := 1 to fill
        invariant Valid() && Counters(was, lists, h, carry, counter[..])
        invariant carry in lists && lists[carry] == [] && h in lists && lists[h] == old(lists[h])
        invariant Collapsed(lists, counter[..], chunks, i, nl)
      {
        CollapseStep(was, lists, h, carry, counter[..], chunks, i, nl);
        Merge(counter[i], counter[i - 1], lt);
      }
      CollapseEnd(lists, counter[..], chunks, fill, nl);
    }

    // The destructors of the lists that sort worked with.
    method DropAll(carry: Ref, counter: array<Ref>, ghost was: map<Ref, seq<Ref>>, ghost h: Ref, ghost sorted: Ref,
                   ghost result: seq<Ref>)
      requires Valid() && counter.Length == COUNTERS && Dropping(was, lists, h, carry, counter[..], sorted, result)
      modifies this
      ensures Valid() && lists == (was - {h})[sorted := result]
    {
      hide ListsOk, Dropping, Left;
      DropCarry(was, lists, h, carry, counter[..], sorted, result);
      DropList(carry);
      for n := 0 to COUNTERS
        invariant Valid() && Left(was, lists, h, counter[n..], sorted, result)
      {
        ghost var rest := counter[n + 1..];
        assert counter[n..] == [counter[n]] + rest;
        DropOne(was, lists, h, counter[n], rest, sorted, result);
        DropList(counter[n]);
      }
      DropLast(was, lists, h, counter[COUNTERS..], sorted, result);
    }

    // The first node is taken out and counted.
    method CountOne(h: Ref, carry0: Ref, counter: array<Ref>, fill0: nat, lt: Order<T>,
                    ghost was: map<Ref, seq<Ref>>, ghost chunks0: seq<seq<Ref>>)
      returns (carry: Ref, fill: nat, ghost chunks: seq<seq<Ref>>)
      requires Valid() && StrictWeakOrder(lt) && counter.Length == COUNTERS && fill0 <= COUNTERS && h in lists
      requires lists[h] != [] && |Down(chunks0, 0)| + 1 < Pow2(COUNTERS)
      requires Counters(was, lists, h, carry0, counter[..]) && Runs(lists, counter[..], chunks0, ByData(data, lt))
      requires carry0 in lists && lists[carry0] == []
      requires |chunks0| == COUNTERS && forall i :: fill0 <= i < COUNTERS ==> chunks0[i] == []
      modifies this, counter
      ensures Valid() && Counters(was, lists, h, carry, counter[..])
      ensures Runs(lists, counter[..], chunks, ByData(data, lt))
      ensures carry in lists && lists[carry] == [] && Down(chunks, 0) == Down(chunks0, 0) + [old(lists[h])[0]]
      ensures |chunks| == COUNTERS && 0 < fill <= COUNTERS && (forall i :: fill <= i < COUNTERS ==> chunks[i] == [])
      ensures h in lists && lists[h] == old(lists[h])[1..]
    {
      hide StrictWeakOrder, ListsOk, Counters, Runs, SortOf, ByData, Down;
      ghost var before: map<Ref, seq<Ref>> := lists;
      HeaderApart(was, lists, h, carry0, counter[..]);
      SpliceFirst(carry0, h);
      Spliced(was, before, lists, h, carry0, counter[..], chunks0, ByData(data, lt));
      carry, fill, chunks := CarryUp(carry0, counter, fill0, lt, was, h, chunks0, before[h][0]);
      RunsLength(lists, counter[..], chunks, ByData(data, lt));
    }

    // The outer loop of sort.
    method CountIn(h: Ref, carry0: Ref, counter: array<Ref>, lt: Order<T>, ghost was: map<Ref, seq<Ref>>)
      returns (carry: Ref, fill: nat, ghost chunks: seq<seq<Ref>>)
      requires Valid() && StrictWeakOrder(lt) && counter.Length == COUNTERS && h in lists
      requires 0 < |lists[h]| < Pow2(COUNTERS)
      requires Counters(was, lists, h, carry0, counter[..]) && carry0 in lists && lists[carry0] == []
      requires forall i :: 0 <= i < COUNTERS ==> counter[i] in lists && lists[counter[i]] == []
      modifies this, counter
      ensures Valid() && Counters(was, lists, h, carry, counter[..])
      ensures Runs(lists, counter[..], chunks, ByData(data, lt))
      ensures carry in lists && lists[carry] == [] && h in lists && lists[h] == [] && Down(chunks, 0) == old(lists[h])
      ensures 0 < fill <= COUNTERS && forall i :: fill <= i < COUNTERS ==> chunks[i] == []
    {
      hide StrictWeakOrder, ListsOk, Counters, Runs, SortOf, ByData, Down;
      ghost var nodes: seq<Ref> := lists[h];
      ghost var nl := ByData(data, lt);
      carry, fill, chunks := carry0, 0, seq(COUNTERS, _ => []);
      NoRuns(lists, counter[..], chunks, nl);
      ghost var k: nat := 0;
      assert nodes[0..] == nodes && nodes[..0] == [];
      var empty := IsEmpty(h);
      while !empty
        invariant Valid() && fill <= COUNTERS && k <= |nodes| && h in lists && lists[h] == nodes[k..]
        invariant Counters(was, lists, h, carry, counter[..]) && Runs(lists, counter[..], chunks, nl)
        invariant carry in lists && lists[carry] == [] && Down(chunks, 0) == nodes[..k] && (k > 0 ==> fill > 0)
        invariant |chunks| == COUNTERS && forall i :: fill <= i < COUNTERS ==> chunks[i] == []
        invariant empty <==> lists[h] == []
        decreases |nodes| - k
      {
        OneCounted(nodes, k);
        carry, fill, chunks := CountOne(h, carry, counter, fill, lt, was, chunks);
        k := k + 1;
        empty := IsEmpty(h);
      }
      assert nodes[..k] == nodes;
    }

    // sort: the header of the result is not that of the list. There are 64 counters, which
    // is enough for less than 2^64 nodes.
    method Sort(h: Ref, lt: Order<T>) returns (sorted: Ref)
      requires Valid() && StrictWeakOrder(lt) && h in lists && |lists[h]| < Pow2(COUNTERS)
      modifies this
      ensures Valid() && lists == (old(lists) - {h})[sorted := SortOf(ByData(data, lt), old(lists[h]))]
    {
      hide StrictWeakOrder, ListsOk, Counters, Runs, SortOf, ByData, Down, Dropping;
      ghost var was: map<Ref, seq<Ref>> := lists;
      ghost var nodes, nl := lists[h], ByData(data, lt);
      var short := IsShort(h);
      if short {
        AtMostOneSorted(nl, nodes);
        assert (was - {h})[h := nodes] == was;
        return h;
      }
      var carry0, counter := MakeCounters(h);
      var carry, fill;
      ghost var chunks;
      carry, fill, chunks := CountIn(h, carry0, counter, lt, was);
      Collapse(counter, fill, lt, was, h, carry, chunks);
      sorted := counter[fill - 1];
      ghost var c := counter[..];
      counter[fill - 1] := h;
      assert counter[..] == c[fill - 1 := h];
      SwappedIn(was, lists, h, carry, c, fill - 1);
      DropAll(carry, counter, was, h, sorted, SortOf(nl, nodes));
    }

    // Whether the length is 0 or 1.
    method IsShort(h: Ref) returns (short: bool)
      requires Valid() && h in lists
      ensures short <==> |lists[h]| <= 1
    {
      hide ListsOk;
      ghost var s := lists[h];
      assert s == [] + s;
      NextOf(next, prev, lists, unused, h, [], s);
      HeaderOrNode(next, prev, lists, unused, h, s);
      if next[h] == h {
        return true;
      }
      assert s == [s[0]] + s[1..];
      if |s| > 1 { InRing(next, prev, lists, unused, h, s[1]); }
      short := next[next[h]] == h;
    }

    // splice of the first node into an empty list
    method SpliceFirst(carry: Ref, h: Ref)
      requires Valid() && h in lists && carry in lists && carry != h && lists[carry] == [] && lists[h] != []
      modifies this
      ensures Valid() && lists == old(lists)[h := old(lists[h])[1..]][carry := [old(lists[h])[0]]]
    {
      hide ListsOk;
      ghost var s: seq<Ref> := lists[h];
      ghost var none: seq<Ref> := [];
      assert s == none + s && s == none + [s[0]] + s[1..] && none == none + none &&
             none + [s[0]] + none == [s[0]] && none + s[1..] == s[1..];
      NextOf(next, prev, lists, unused, h, none, s);
      NextOf(next, prev, lists, unused, carry, none, none);
      var position, i := next[carry], next[h];
      var j := next[i];
      Transfer(position, i, j, h, none, [s[0]], s[1..], carry, none, none);
    }
  }

  // The state of the last loop of sort.
  ghost predicate Collapsed(lists: map<Ref, seq<Ref>>, counter: seq<Ref>, chunks: seq<seq<Ref>>, i: nat,
                            lt: Order<Ref>) {
    && |chunks| == |counter| == COUNTERS && 0 < i <= COUNTERS && (forall j :: 0 <= j < COUNTERS ==> counter[j] in lists)
    && (forall j :: i <= j < COUNTERS ==> lists[counter[j]] == SortOf(lt, chunks[j]))
    && (forall j :: 0 <= j < i - 1 ==> lists[counter[j]] == [])
    && lists[counter[i - 1]] == SortOf(lt, Low(chunks, i))
  }

  lemma CollapseStart(lists: map<Ref, seq<Ref>>, counter: seq<Ref>, chunks: seq<seq<Ref>>, lt: Order<Ref>)
    requires Runs(lists, counter, chunks, lt)
    ensures Collapsed(lists, counter, chunks, 1, lt)
  {
    hide SortOf;
    assert Low(chunks, 1) == chunks[0] + Low(chunks, 0) == chunks[0];
  }

  lemma CollapseStep(was: map<Ref, seq<Ref>>, lists: map<Ref, seq<Ref>>, h: Ref, carry: Ref, counter: seq<Ref>,
                     chunks: seq<seq<Ref>>, i: nat, lt: Order<Ref>)
    requires StrictWeakOrder(lt) && Counters(was, lists, h, carry, counter) && Collapsed(lists, counter, chunks, i, lt)
    requires i < COUNTERS
    ensures counter[i] in lists && counter[i - 1] in lists && counter[i] != counter[i - 1]
    ensures
      var merged := Merge(lt, lists[counter[i]], lists[counter[i - 1]]);
      var lists' := lists[counter[i] := merged][counter[i - 1] := []];
      && Counters(was, lists', h, carry, counter) && Collapsed(lists', counter, chunks, i + 1, lt)
      && (carry in lists ==> lists'[carry] == lists[carry]) && (h in lists ==> lists'[h] == lists[h])
  {
    hide StrictWeakOrder, SortOf, Merge, MergeBack;
    SortPartsFirst(lt, chunks[i], Low(chunks, i));
    assert Low(chunks, i + 1) == chunks[i] + Low(chunks, i);
  }

  lemma CollapseEnd(lists: map<Ref, seq<Ref>>, counter: seq<Ref>, chunks: seq<seq<Ref>>, fill: nat, lt: Order<Ref>)
    requires Collapsed(lists, counter, chunks, fill, lt) && forall i :: fill <= i < COUNTERS ==> chunks[i] == []
    ensures forall i :: 0 <= i < COUNTERS ==> counter[i] in lists
    ensures forall i :: 0 <= i < COUNTERS && i != fill - 1 ==> lists[counter[i]] == []
    ensures lists[counter[fill - 1]] == SortOf(lt, Down(chunks, 0))
  {
    NothingSorted(lt);
    hide SortOf;
    DownEmpty(chunks, fill);
    DownLow(chunks, fill);
    assert [] + Low(chunks, fill) == Low(chunks, fill);
  }

  lemma AtMostOneSorted(lt: Order<Ref>, s: seq<Ref>)
    requires |s| <= 1
    ensures SortOf(lt, s) == s
  {
    if s == [] { NothingSorted(lt); } else { OneSorted(lt, s[0]); assert s == [s[0]]; }
  }

  lemma NoRuns(lists: map<Ref, seq<Ref>>, counter: seq<Ref>, chunks: seq<seq<Ref>>, lt: Order<Ref>)
    requires |chunks| == |counter| == COUNTERS && forall i :: 0 <= i < COUNTERS ==> chunks[i] == []
    requires forall i :: 0 <= i < COUNTERS ==> counter[i] in lists && lists[counter[i]] == []
    ensures Runs(lists, counter, chunks, lt) && Down(chunks, 0) == []
  {
    NothingSorted(lt);
    hide SortOf;
    DownEmpty(chunks, 0);
  }

  lemma HeaderApart(was: map<Ref, seq<Ref>>, lists: map<Ref, seq<Ref>>, h: Ref, carry: Ref, counter: seq<Ref>)
    requires Counters(was, lists, h, carry, counter)
    ensures carry != h
  {
  }

  lemma Spliced(was: map<Ref, seq<Ref>>, before: map<Ref, seq<Ref>>, lists: map<Ref, seq<Ref>>, h: Ref, carry: Ref,
                counter: seq<Ref>, chunks: seq<seq<Ref>>, lt: Order<Ref>)
    requires Counters(was, before, h, carry, counter) && Runs(before, counter, chunks, lt) && lists.Keys == before.Keys
    requires forall k <- before :: k != h && k != carry ==> lists[k] == before[k]
    ensures Counters(was, lists, h, carry, counter) && Runs(lists, counter, chunks, lt) && h in lists && carry in lists
  {
    hide SortOf;
  }

  // The counters and the carry are empty lists beside those of was, where h is among the
  // counters, and sorted holds the result.
  ghost predicate Dropping(was: map<Ref, seq<Ref>>, lists: map<Ref, seq<Ref>>, h: Ref, carry: Ref, counter: seq<Ref>,
                           sorted: Ref, result: seq<Ref>) {
    && |counter| == COUNTERS && h in was && carry !in was && sorted !in was && sorted != carry
    && carry in lists && lists[carry] == [] && sorted in lists && lists[sorted] == result
    && (forall i :: 0 <= i < COUNTERS ==> counter[i] in lists && lists[counter[i]] == [] && counter[i] != carry)
    && (forall i :: 0 <= i < COUNTERS ==> counter[i] != sorted && (counter[i] == h || counter[i] !in was))
    && (forall i, j :: 0 <= i < j < COUNTERS ==> counter[i] != counter[j])
    && (forall k :: k in lists <==> (k in was && k != h) || k == sorted || k == carry || k in counter)
    && (forall k <- was :: k != h ==> lists[k] == was[k])
  }

  // The lists whose destructors are still to come, all empty.
  ghost predicate Left(was: map<Ref, seq<Ref>>, lists: map<Ref, seq<Ref>>, h: Ref, rest: seq<Ref>, sorted: Ref,
                       result: seq<Ref>) {
    && sorted in lists && lists[sorted] == result && sorted !in rest
    && (forall i :: 0 <= i < |rest| ==> rest[i] in lists && lists[rest[i]] == [] && (rest[i] == h || rest[i] !in was))
    && (forall i, j :: 0 <= i < j < |rest| ==> rest[i] != rest[j])
    && (forall k :: k in lists <==> (k in was && k != h) || k == sorted || k in rest)
    && (forall k <- was :: k != h ==> lists[k] == was[k])
  }

  lemma DropCarry(was: map<Ref, seq<Ref>>, lists: map<Ref, seq<Ref>>, h: Ref, carry: Ref, counter: seq<Ref>,
                  sorted: Ref, result: seq<Ref>)
    requires Dropping(was, lists, h, carry, counter, sorted, result)
    ensures carry in lists && lists[carry] == [] && Left(was, lists - {carry}, h, counter[0..], sorted, result)
  {
    assert counter[0..] == counter;
  }

  lemma DropOne(was: map<Ref, seq<Ref>>, lists: map<Ref, seq<Ref>>, h: Ref, d: Ref, rest: seq<Ref>, sorted: Ref,
                result: seq<Ref>)
    requires Left(was, lists, h, [d] + rest, sorted, result)
    ensures d in lists && lists[d] == [] && Left(was, lists - {d}, h, rest, sorted, result)
  {
    var all := [d] + rest;
    assert all[0] == d && forall i :: 0 <= i < |rest| ==> rest[i] == all[i + 1];
    assert forall k :: k in all <==> k == d || k in rest;
  }

  lemma DropLast(was: map<Ref, seq<Ref>>, lists: map<Ref, seq<Ref>>, h: Ref, rest: seq<Ref>, sorted: Ref,
                 result: seq<Ref>)
    requires Left(was, lists, h, rest, sorted, result) && rest == []
    ensures lists == (was - {h})[sorted := result]
  {
  }

  lemma SwappedIn(was: map<Ref, seq<Ref>>, lists: map<Ref, seq<Ref>>, h: Ref, carry: Ref, c: seq<Ref>, n: nat)
    requires Counters(was, lists, h, carry, c) && n < COUNTERS && carry in lists && lists[carry] == []
    requires h in lists && lists[h] == []
    requires forall i :: 0 <= i < COUNTERS ==> c[i] in lists && (i != n ==> lists[c[i]] == [])
    ensures Dropping(was, lists, h, carry, c[n := h], c[n], lists[c[n]])
  {
    var counter, sorted := c[n := h], c[n];
    assert counter[n] == h;
    forall k ensures k in lists <==> (k in was && k != h) || k == sorted || k == carry || k in counter {
      if k in c && k != sorted {
        var j :| 0 <= j < COUNTERS && c[j] == k;
        assert counter[j] == k;
      }
      if k in counter && k != h {
        var j :| 0 <= j < COUNTERS && counter[j] == k;
        assert c[j] == k;
      }
    }
  }

  lemma CarryStart(lists: map<Ref, seq<Ref>>, carry: Ref, chunks: seq<seq<Ref>>, x: Ref, lt: Order<Ref>)
    requires carry in lists && lists[carry] == [x] && |chunks| == COUNTERS
    ensures Carrying(lists, carry, chunks, 0, [x], Down(chunks, 0) + [x], lt)
  {
    OneSorted(lt, x);
  }

  lemma RunsLength(lists: map<Ref, seq<Ref>>, counter: seq<Ref>, chunks: seq<seq<Ref>>, lt: Order<Ref>)
    requires Runs(lists, counter, chunks, lt)
    ensures |chunks| == |counter| == COUNTERS
  {
  }

  lemma RunAt(lists: map<Ref, seq<Ref>>, counter: seq<Ref>, chunks: seq<seq<Ref>>, i: nat, lt: Order<Ref>)
    requires Runs(lists, counter, chunks, lt) && i < COUNTERS
    ensures counter[i] in lists && lists[counter[i]] == SortOf(lt, chunks[i])
    ensures (lists[counter[i]] == [] <==> chunks[i] == [])
  {
  }

  lemma CarryIs(was: map<Ref, seq<Ref>>, lists: map<Ref, seq<Ref>>, h: Ref, carry: Ref, counter: seq<Ref>,
                chunks: seq<seq<Ref>>, i: nat, c: seq<Ref>, total: seq<Ref>, lt: Order<Ref>)
    requires Counters(was, lists, h, carry, counter) && Carrying(lists, carry, chunks, i, c, total, lt) && i < COUNTERS
    ensures carry in lists && carry != counter[i] && h != carry && h != counter[i]
  {
  }

  // All lists but those two are as they were.
  ghost predicate Both(was: map<Ref, seq<Ref>>, lists: map<Ref, seq<Ref>>, h1: Ref, s: seq<Ref>, h2: Ref, t: seq<Ref>) {
    lists == was[h1 := s][h2 := t]
  }

  lemma BothSame(was: map<Ref, seq<Ref>>, h1: Ref, h2: Ref)
    requires h1 in was && h2 in was
    ensures Both(was, was, h1, [] + was[h1][0..], h2, was[h2][0..])
  {
    assert [] + was[h1][0..] == was[h1] && was[h2][0..] == was[h2];
    assert was[h1 := was[h1]][h2 := was[h2]] == was;
  }

  lemma BothAt(was: map<Ref, seq<Ref>>, lists: map<Ref, seq<Ref>>, h1: Ref, s: seq<Ref>, h2: Ref, t: seq<Ref>)
    requires Both(was, lists, h1, s, h2, t) && h1 != h2
    ensures h1 in lists && h2 in lists && lists[h1] == s && lists[h2] == t
  {
  }

  lemma BothMoved(was: map<Ref, seq<Ref>>, lists: map<Ref, seq<Ref>>, h1: Ref, s: seq<Ref>, h2: Ref, t: seq<Ref>,
                  s': seq<Ref>, t': seq<Ref>)
    requires Both(was, lists, h1, s, h2, t) && h1 != h2
    ensures Both(was, lists[h2 := t'][h1 := s'], h1, s', h2, t') && lists == lists[h2 := t][h1 := s]
  {
  }

  lemma BothExactly(was: map<Ref, seq<Ref>>, lists: map<Ref, seq<Ref>>, h1: Ref, s: seq<Ref>, h2: Ref, t: seq<Ref>)
    requires Both(was, lists, h1, s, h2, t)
    ensures lists == was[h1 := s][h2 := t]
  {
  }

  lemma HeaderOrNode(next: Pointers, prev: Pointers, lists: map<Ref, seq<Ref>>, unused: Ref, h: Ref, t: seq<Ref>)
    requires ListsOk(next, prev, lists, unused) && h in lists && lists[h] == t
    ensures FirstOf(t, h) == h <==> t == []
    ensures t != [] ==> FirstOf(t, h) == t[0]
  {
    hide AllRings, AllBelow, AllApart;
    if t != [] {
      NotHeader(lists, h, t[0]);
    }
  }

  lemma Exhausted(next: Pointers, prev: Pointers, lists: map<Ref, seq<Ref>>, unused: Ref, h1: Ref, h2: Ref,
                  s: seq<Ref>, t: seq<Ref>, i: nat, j: nat, out: seq<Ref>)
    requires ListsOk(next, prev, lists, unused) && h1 in lists && h2 in lists && i <= |s| && j <= |t|
    requires lists[h1] == out + s[i..] && lists[h2] == t[j..]
    requires FirstOf(s[i..], h1) == h1 || FirstOf(t[j..], h2) == h2
    ensures i == |s| || j == |t|
  {
    hide ListsOk;
    HeaderOrNode(next, prev, lists, unused, h2, t[j..]);
    if i < |s| {
      assert s[i..][0] == s[i] && s[i] in lists[h1];
      InRing(next, prev, lists, unused, h1, s[i]);
    }
  }

  lemma InRing(next: Pointers, prev: Pointers, lists: map<Ref, seq<Ref>>, unused: Ref, h: Ref, n: Ref)
    requires ListsOk(next, prev, lists, unused) && h in lists && n in lists[h]
    ensures n != h
  {
    hide AllRings, AllBelow, AllApart;
    NotHeader(lists, h, n);
  }

  // One step of merge: where both cursors stand, and what follows either of them.
  lemma MergeStep(next: Pointers, prev: Pointers, lists: map<Ref, seq<Ref>>, unused: Ref, h1: Ref, h2: Ref,
                  s: seq<Ref>, t: seq<Ref>, i: nat, j: nat, out: seq<Ref>, lt: Order<Ref>)
    requires ListsOk(next, prev, lists, unused) && h1 in lists && h2 in lists && i <= |s| && j <= |t|
    requires lists[h1] == out + s[i..] && lists[h2] == t[j..] && MergedSoFar(lt, s, t, i, j, out)
    requires FirstOf(s[i..], h1) != h1 && FirstOf(t[j..], h2) != h2
    ensures i < |s| && j < |t| && FirstOf(s[i..], h1) == s[i] && FirstOf(t[j..], h2) == t[j]
    ensures s[i] in next && next[s[i]] == FirstOf(s[i + 1..], h1) && t[j] in next
    ensures next[t[j]] == FirstOf(t[j + 1..], h2)
    ensures t[j..] == [] + [t[j]] + t[j + 1..] && out + s[i..] == (out + [s[i]]) + s[i + 1..]
    ensures lt(t[j], s[i]) ==> MergedSoFar(lt, s, t, i, j + 1, out + [t[j]])
    ensures !lt(t[j], s[i]) ==> MergedSoFar(lt, s, t, i + 1, j, out + [s[i]])
  {
    hide ListsOk, MergedSoFar;
    assert s[i..] != [] && t[j..] != [];
    assert t[j..] == [] + t[j..];
    NextOf(next, prev, lists, unused, h1, out, s[i..]);
    NextOf(next, prev, lists, unused, h2, [], t[j..]);
    assert s[i..][1..] == s[i + 1..] && t[j..][1..] == t[j + 1..];
    MergeOne(lt, s, t, i, j, out);
  }

  lemma AtEnd(h: Ref)
    ensures FirstOf([], h) == h
  {
  }

  lemma ReverseStart(s: seq<Ref>, h: Ref)
    ensures |s| <= 1 ==> Rotation.Reversed(s) == s
    ensures [] + s == s && |s| > 0 ==> FirstOf(s, h) == s[0] && Rotation.Reversed(s[..1]) + s[1..] == s
  {
  }

  // The next node is moved in front of those that are reversed already.
  lemma ReverseStep(next: Pointers, prev: Pointers, lists: map<Ref, seq<Ref>>, unused: Ref, h: Ref, s: seq<Ref>, i: nat)
    requires ListsOk(next, prev, lists, unused) && h in lists && 1 <= i <= |s|
    requires lists[h] == Rotation.Reversed(s[..i]) + s[i..] && FirstOf(s[i..], h) != h
    ensures i < |s| && FirstOf(s[i..], h) == s[i] && s[i] in next && next[s[i]] == FirstOf(s[i + 1..], h)
    ensures var r := Rotation.Reversed(s[..i]);
      && lists[h] == [] + r + [s[i]] + s[i + 1..] && h in next && r != []
      && (next[h], s[i], FirstOf(s[i + 1..], h)) == Moving(h, [], r, [s[i]], s[i + 1..], false)
      && [] + [s[i]] + r + s[i + 1..] == Rotation.Reversed(s[..i + 1]) + s[i + 1..]
  {
    hide ListsOk;
    var r := Rotation.Reversed(s[..i]);
    assert s[i..] == [s[i]] + s[i + 1..];
    NextOf(next, prev, lists, unused, h, r, s[i..]);
    assert lists[h] == [] + lists[h];
    NextOf(next, prev, lists, unused, h, [], lists[h]);
    assert [s[i]] + r == Rotation.Reversed(s[..i + 1]);
  }

  lemma ReverseEnd(next: Pointers, prev: Pointers, lists: map<Ref, seq<Ref>>, unused: Ref, h: Ref, s: seq<Ref>, i: nat)
    requires ListsOk(next, prev, lists, unused) && h in lists && 1 <= i <= |s|
    requires lists[h] == Rotation.Reversed(s[..i]) + s[i..] && FirstOf(s[i..], h) == h
    ensures i == |s| && Rotation.Reversed(s[..i]) + s[i..] == Rotation.Reversed(s)
  {
    hide ListsOk;
    if i < |s| {
      assert s[i] in lists[h];
      InRing(next, prev, lists, unused, h, s[i]);
      assert false;
    }
    assert s[..i] == s;
  }

  lemma MergeStart(lt: Order<Ref>, s: seq<Ref>, t: seq<Ref>)
    ensures MergedSoFar(lt, s, t, 0, 0, []) && [] + s[0..] == s && t[0..] == t && s[0..] == s
  {
    hide Merging.Merge;
    assert s[0..] == s && t[0..] == t;
  }

  lemma Compared<T>(data: Ref -> T, lt: Order<T>, x: Ref, y: Ref)
    ensures ByData(data, lt)(x, y) == lt(data(x), data(y))
  {
  }
}
