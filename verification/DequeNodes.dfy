/** The storage of a deque: a map of pointers to nodes of one fixed size, and the iterators that
    walk over it. A cell is raw storage or holds a constructed element. */
module DequeNodes {
  import opened Ranges
  import opened StableSorting

  type Ref = nat

  datatype Cell = Raw | Full(value: int)
  datatype Pointer = Pointer(block: Ref, offset: int)

  // first is the node that the map slot numbered node points to; last is first + size.
  datatype Iterator = Iterator(cur: Pointer, first: Ref, node: int)

  type Nodes = map<Ref, seq<Cell>>

  // ----- the nodes as one row of cells -----

  // The cells of the nodes q, in order.
  ghost function Cells(q: seq<Ref>, nodes: Nodes): seq<Cell>
    requires forall i :: 0 <= i < |q| ==> q[i] in nodes
  {
    if q == [] then [] else Cells(q[..|q| - 1], nodes) + nodes[q[|q| - 1]]
  }

  // The allocated nodes are those in q, which are distinct, and the lost ones.
  ghost predicate Owned(size: int, q: seq<Ref>, nodes: Nodes, lost: set<Ref>, next: Ref) {
    && size >= 1
    && (forall i, j :: 0 <= i < j < |q| ==> q[i] != q[j])
    && (forall i :: 0 <= i < |q| ==> q[i] in nodes && q[i] !in lost)
    && (forall r :: r in nodes ==> (r in q || r in lost) && r < next && |nodes[r]| == size)
    && (forall r :: r in lost ==> r in nodes)
  }

  // A cell of the row is a cell of a node.
  lemma {:induction false} CellsAt(size: int, q: seq<Ref>, nodes: Nodes, i: int, j: int)
    requires size >= 1 && forall k :: 0 <= k < |q| ==> q[k] in nodes && |nodes[q[k]]| == size
    ensures |Cells(q, nodes)| == |q| * size
    ensures 0 <= i < |q| && 0 <= j < size ==>
              0 <= i * size + j < |q| * size && Cells(q, nodes)[i * size + j] == nodes[q[i]][j]
  {
    if q != [] {
      var p := q[..|q| - 1];
      CellsAt(size, p, nodes, i, j);
      assert (|q| - 1) * size + size == |q| * size;
      if 0 <= i < |p| && 0 <= j < size {
        assert p[i] == q[i];
        assert i * size + j < |p| * size;
      }
      if i < 0 && 0 <= j < size { assert !(0 <= i < |q|); }
    }
  }

  lemma {:induction false} CellsSame(q: seq<Ref>, nodes: Nodes, nodes': Nodes)
    requires forall i :: 0 <= i < |q| ==> q[i] in nodes && q[i] in nodes' && nodes'[q[i]] == nodes[q[i]]
    ensures Cells(q, nodes') == Cells(q, nodes)
  {
    if q != [] { CellsSame(q[..|q| - 1], nodes, nodes'); }
  }

  lemma {:induction false} CellsJoin(p: seq<Ref>, q: seq<Ref>, nodes: Nodes)
    requires forall i :: 0 <= i < |p| ==> p[i] in nodes
    requires forall i :: 0 <= i < |q| ==> q[i] in nodes
    ensures forall i :: 0 <= i < |p + q| ==> (p + q)[i] in nodes
    ensures Cells(p + q, nodes) == Cells(p, nodes) + Cells(q, nodes)
  {
    if q == [] {
      assert p + q == p;
    } else {
      var init, r := q[..|q| - 1], q[|q| - 1];
      CellsJoin(p, init, nodes);
      assert (p + q)[..|p + q| - 1] == p + init && (p + q)[|p + q| - 1] == r;
      assert (Cells(p, nodes) + Cells(init, nodes)) + nodes[r] == Cells(p, nodes) + (Cells(init, nodes) + nodes[r]);
    }
  }

  lemma CellsOne(r: Ref, nodes: Nodes)
    requires r in nodes
    ensures Cells([r], nodes) == nodes[r]
  {
    assert Cells([r][..0], nodes) == [];
  }

  // Writing one cell of a node writes one cell of the row.
  lemma CellsPut(size: int, q: seq<Ref>, nodes: Nodes, lost: set<Ref>, next: Ref, i: int, j: int, v: Cell)
    requires Owned(size, q, nodes, lost, next) && 0 <= i < |q| && 0 <= j < size
    ensures Owned(size, q, nodes[q[i] := nodes[q[i]][j := v]], lost, next)
    ensures 0 <= i * size + j < |Cells(q, nodes)|
    ensures Cells(q, nodes[q[i] := nodes[q[i]][j := v]]) == Cells(q, nodes)[i * size + j := v]
  {
    CellsAt(size, q, nodes, i, j);
    CellsAt(size, q[..i], nodes, 0, 0);
    CellsOnePut(q, nodes, i, j, v);
    Below(i, |q|, size);
  }

  lemma CellsOnePut(q: seq<Ref>, nodes: Nodes, i: int, j: int, v: Cell)
    requires forall k :: 0 <= k < |q| ==> q[k] in nodes
    requires forall k, l :: 0 <= k < l < |q| ==> q[k] != q[l]
    requires 0 <= i < |q| && 0 <= j < |nodes[q[i]]|
    ensures |Cells(q[..i], nodes)| + j < |Cells(q, nodes)|
    ensures Cells(q, nodes[q[i] := nodes[q[i]][j := v]]) == Cells(q, nodes)[|Cells(q[..i], nodes)| + j := v]
  {
    var w := nodes[q[i] := nodes[q[i]][j := v]];
    CellsAround(q, nodes, i);
    CellsAround(q, w, i);
    CellsSame(q[..i], nodes, w);
    CellsSame(q[i + 1..], nodes, w);
    PutMiddle(Cells(q[..i], nodes), nodes[q[i]], Cells(q[i + 1..], nodes), j, v);
  }

  lemma PutMiddle<T>(a: seq<T>, b: seq<T>, c: seq<T>, j: int, v: T)
    requires 0 <= j < |b|
    ensures a + b[j := v] + c == (a + b + c)[|a| + j := v]
  {
  }

  lemma CellsAround(q: seq<Ref>, nodes: Nodes, i: int)
    requires 0 <= i < |q| && forall k :: 0 <= k < |q| ==> q[k] in nodes
    ensures Cells(q, nodes) == Cells(q[..i], nodes) + nodes[q[i]] + Cells(q[i + 1..], nodes)
  {
    CellsOne(q[i], nodes);
    CellsJoin(q[..i], [q[i]], nodes);
    CellsJoin(q[..i] + [q[i]], q[i + 1..], nodes);
    assert q == q[..i] + [q[i]] + q[i + 1..];
  }

  lemma OwnedLength(size: int, q: seq<Ref>, nodes: Nodes, lost: set<Ref>, next: Ref)
    requires Owned(size, q, nodes, lost, next)
    ensures |Cells(q, nodes)| == |q| * size
  {
    CellsAt(size, q, nodes, 0, 0);
  }

  // A new node behind the others, and one in front of them.
  lemma GrownAtBack(size: int, q: seq<Ref>, nodes: Nodes, lost: set<Ref>, next: Ref)
    requires Owned(size, q, nodes, lost, next)
    ensures Owned(size, q + [next], nodes[next := Repeat(size, Raw)], lost, next + 1)
    ensures Cells(q + [next], nodes[next := Repeat(size, Raw)]) == Cells(q, nodes) + Repeat(size, Raw)
  {
    var w := nodes[next := Repeat(size, Raw)];
    CellsSame(q, nodes, w);
    CellsOne(next, w);
    CellsJoin(q, [next], w);
  }

  lemma GrownAtFront(size: int, q: seq<Ref>, nodes: Nodes, lost: set<Ref>, next: Ref)
    requires Owned(size, q, nodes, lost, next)
    ensures Owned(size, [next] + q, nodes[next := Repeat(size, Raw)], lost, next + 1)
    ensures Cells([next] + q, nodes[next := Repeat(size, Raw)]) == Repeat(size, Raw) + Cells(q, nodes)
  {
    var w := nodes[next := Repeat(size, Raw)];
    CellsSame(q, nodes, w);
    CellsOne(next, w);
    CellsJoin([next], q, w);
  }

  // The last node, or the first, given back.
  lemma DroppedAtBack(size: int, q: seq<Ref>, nodes: Nodes, lost: set<Ref>, next: Ref)
    requires Owned(size, q, nodes, lost, next) && |q| > 0
    ensures Owned(size, q[..|q| - 1], nodes - {q[|q| - 1]}, lost, next)
    ensures |Cells(q, nodes)| - size == |Cells(q[..|q| - 1], nodes - {q[|q| - 1]})|
    ensures Cells(q[..|q| - 1], nodes - {q[|q| - 1]}) == Cells(q, nodes)[..|Cells(q, nodes)| - size]
  {
    hide Owned;
    var p, r := q[..|q| - 1], q[|q| - 1];
    GivenBack(size, q, p, [], nodes, lost, next, r);
    CellsSame(p, nodes, nodes - {r});
    CellsAround(q, nodes, |q| - 1);
    assert Cells(q[|q|..], nodes) == [];
  }

  lemma DroppedAtFront(size: int, q: seq<Ref>, nodes: Nodes, lost: set<Ref>, next: Ref)
    requires Owned(size, q, nodes, lost, next) && |q| > 0
    ensures Owned(size, q[1..], nodes - {q[0]}, lost, next)
    ensures size <= |Cells(q, nodes)|
    ensures Cells(q[1..], nodes - {q[0]}) == Cells(q, nodes)[size..]
  {
    hide Owned;
    var p, r := q[1..], q[0];
    GivenBack(size, q, [], p, nodes, lost, next, r);
    CellsSame(p, nodes, nodes - {r});
    CellsAround(q, nodes, 0);
    assert Cells(q[..0], nodes) == [];
  }

  lemma PartsOwned(size: int, q: seq<Ref>, a: seq<Ref>, b: seq<Ref>, nodes: Nodes, lost: set<Ref>, next: Ref, r: Ref)
    requires Owned(size, q, nodes, lost, next) && q == a + [r] + b
    ensures forall i :: 0 <= i < |q| ==> q[i] in nodes
    ensures forall i :: 0 <= i < |a| ==> a[i] in nodes && a[i] != r
    ensures forall i :: 0 <= i < |b| ==> b[i] in nodes && b[i] != r
    ensures r in nodes && |nodes[r]| == size
  {
    assert q[|a|] == r;
    forall i | 0 <= i < |a| ensures a[i] in nodes && a[i] != r { assert q[i] == a[i]; }
    forall i | 0 <= i < |b| ensures b[i] in nodes && b[i] != r { assert q[|a| + 1 + i] == b[i]; }
  }

  // The same row without one node.
  lemma RowWithout(q: seq<Ref>, a: seq<Ref>, b: seq<Ref>, r: Ref)
    requires q == a + [r] + b && forall i, j :: 0 <= i < j < |q| ==> q[i] != q[j]
    ensures forall i, j :: 0 <= i < j < |a + b| ==> (a + b)[i] != (a + b)[j]
    ensures forall m :: m in a + b <==> m in q && m != r
  {
    var p := a + b;
    assert q[|a|] == r;
    forall i | 0 <= i < |p| ensures p[i] == q[if i < |a| then i else i + 1] { }
    forall m | m in q && m != r ensures m in p {
      var i :| 0 <= i < |q| && q[i] == m;
      assert p[if i < |a| then i else i - 1] == m;
    }
  }

  lemma GivenBack(size: int, q: seq<Ref>, a: seq<Ref>, b: seq<Ref>, nodes: Nodes, lost: set<Ref>, next: Ref, r: Ref)
    requires Owned(size, q, nodes, lost, next) && q == a + [r] + b
    ensures Owned(size, a + b, nodes - {r}, lost, next)
    ensures a == [] ==> a + b == b
    ensures b == [] ==> a + b == a
    ensures forall i :: 0 <= i < |q| ==> q[i] in nodes
    ensures forall i :: 0 <= i < |a| ==> a[i] in nodes && a[i] != r
    ensures forall i :: 0 <= i < |b| ==> b[i] in nodes && b[i] != r
    ensures r in nodes && |nodes[r]| == size
  {
    PartsOwned(size, q, a, b, nodes, lost, next, r);
    RowWithout(q, a, b, r);
    var p := a + b;
    forall i | 0 <= i < |p| ensures p[i] in nodes - {r} && p[i] !in lost {
      assert p[i] in p;
      assert p[i] in q;
    }
    assert r !in lost by { assert q[|a|] == r; }
  }

  // The first k nodes no longer used, and not given back either.
  lemma LostAtFront(size: int, q: seq<Ref>, nodes: Nodes, lost: set<Ref>, next: Ref, k: int)
    requires Owned(size, q, nodes, lost, next) && 0 <= k <= |q|
    ensures Owned(size, q[k..], nodes, lost + Members(q[..k]), next)
    ensures 0 <= k * size <= |Cells(q, nodes)|
    ensures Cells(q[k..], nodes) == Cells(q, nodes)[k * size..]
  {
    hide Cells;
    var p := q[..k];
    CellsJoin(p, q[k..], nodes);
    CellsAt(size, p, nodes, 0, 0);
    assert q == p + q[k..];
    OwnedTail(size, q, nodes, lost, next, k);
  }

  ghost function Members(q: seq<Ref>): set<Ref> {
    set r | r in q
  }

  lemma OwnedTail(size: int, q: seq<Ref>, nodes: Nodes, lost: set<Ref>, next: Ref, k: int)
    requires Owned(size, q, nodes, lost, next) && 0 <= k <= |q|
    ensures Owned(size, q[k..], nodes, lost + Members(q[..k]), next)
  {
    assert forall r :: r in q ==> r in q[..k] || r in q[k..];
    forall i | 0 <= i < |q[k..]| ensures q[k..][i] in nodes && q[k..][i] !in lost + Members(q[..k]) {
      assert q[k..][i] == q[k + i];
    }
    forall r | r in lost + Members(q[..k]) ensures r in nodes {
      if r !in lost {
        var i :| 0 <= i < k && q[i] == r;
      }
    }
  }

  // ----- iterators -----

  // it points into a node that one of the slots lo .. hi of the map m points to.
  ghost predicate Placed(size: int, m: seq<Ref>, lo: int, hi: int, it: Iterator) {
    && 0 <= lo <= it.node < hi <= |m|
    && it.first == m[it.node]
    && it.cur.block == it.first
    && 0 <= it.cur.offset < size
  }

  // The number of cells in front of it, from slot lo on.
  ghost function Place(size: int, lo: int, it: Iterator): int {
    (it.node - lo) * size + it.cur.offset
  }

  // set_node
  function SetNode(m: seq<Ref>, it: Iterator, node: int): Iterator
    requires 0 <= node < |m|
  {
    it.(first := m[node], node := node)
  }

  // operator++
  function Next(size: int, m: seq<Ref>, it: Iterator): Iterator
    requires it.cur == Pointer(it.first, size - 1) ==> 0 <= it.node + 1 < |m|
  {
    var on := it.(cur := Pointer(it.cur.block, it.cur.offset + 1));
    if on.cur == Pointer(on.first, size) then
      var moved := SetNode(m, on, on.node + 1);
      moved.(cur := Pointer(moved.first, 0))
    else
      on
  }

  // operator--
  function Previous(size: int, m: seq<Ref>, it: Iterator): Iterator
    requires it.cur == Pointer(it.first, 0) ==> 0 <= it.node - 1 < |m|
  {
    var back := if it.cur == Pointer(it.first, 0) then
                  var moved := SetNode(m, it, it.node - 1);
                  moved.(cur := Pointer(moved.first, size))
                else
                  it;
    back.(cur := Pointer(back.cur.block, back.cur.offset - 1))
  }

  // The node that operator+= moves to, counted from the present one.
  function NodeOffset(size: int, offset: int): int
    requires size > 0
  {
    if offset > 0 then Truncated(offset, size) else -Truncated(-offset - 1, size) - 1
  }

  // operator+=
  function Plus(size: int, m: seq<Ref>, it: Iterator, n: int): Iterator
    requires size > 0
    requires 0 <= it.node + (n + it.cur.offset) / size < |m|
  {
    var offset := n + it.cur.offset;
    if 0 <= offset < size then
      it.(cur := Pointer(it.cur.block, it.cur.offset + n))
    else
      NodeOffsetIsFloor(size, offset);
      var moved := SetNode(m, it, it.node + NodeOffset(size, offset));
      moved.(cur := Pointer(moved.first, offset - NodeOffset(size, offset) * size))
  }

  // operator- on two iterators
  function Difference(size: int, it: Iterator, from: Iterator): int {
    size * (it.node - from.node - 1) + it.cur.offset + (size - from.cur.offset)
  }

  // Dividing by hand as operator+= does rounds down, also for a negative offset.
  lemma NodeOffsetIsFloor(size: int, offset: int)
    requires size > 0 && !(0 <= offset < size)
    ensures NodeOffset(size, offset) == offset / size
  {
    if offset < 0 {
      var q := (-offset - 1) / size;
      assert q * size <= -offset - 1 < q * size + size;
      FloorIs(offset, size, -q - 1);
    }
  }

  lemma FloorIs(a: int, b: int, q: int)
    requires b > 0 && q * b <= a < q * b + b
    ensures a / b == q && a % b == a - q * b
  {
    var p, r := a / b, a % b;
    assert a == p * b + r && 0 <= r < b;
    assert (q + 1) * b == q * b + b && (p + 1) * b == p * b + b;
    Below(p, q + 1, b);
    Below(q, p + 1, b);
  }

  lemma NextMoves(size: int, m: seq<Ref>, lo: int, hi: int, it: Iterator)
    requires size > 0 && Placed(size, m, lo, hi, it) && Place(size, lo, it) + 1 < (hi - lo) * size
    ensures it.cur == Pointer(it.first, size - 1) ==> 0 <= it.node + 1 < |m|
    ensures Placed(size, m, lo, hi, Next(size, m, it))
    ensures Place(size, lo, Next(size, m, it)) == Place(size, lo, it) + 1
  {
    if it.cur.offset == size - 1 {
      assert (it.node + 1 - lo) * size == (it.node - lo) * size + size;
      Below(it.node + 1 - lo, hi - lo, size);
    }
  }

  lemma Below(a: int, b: int, size: int)
    requires size > 0
    ensures a < b <==> a * size < b * size
    ensures a <= b <==> a * size <= b * size
  {
  }

  lemma PreviousMoves(size: int, m: seq<Ref>, lo: int, hi: int, it: Iterator)
    requires size > 0 && Placed(size, m, lo, hi, it) && Place(size, lo, it) > 0
    ensures it.cur == Pointer(it.first, 0) ==> 0 <= it.node - 1 < |m|
    ensures Placed(size, m, lo, hi, Previous(size, m, it))
    ensures Place(size, lo, Previous(size, m, it)) == Place(size, lo, it) - 1
  {
    if it.cur.offset == 0 {
      assert (it.node - 1 - lo) * size == (it.node - lo) * size - size;
      Below(0, it.node - lo, size);
    }
  }

  // Within the slots lo .. hi, operator+= moves the place by exactly n.
  lemma PlusMoves(size: int, m: seq<Ref>, lo: int, hi: int, it: Iterator, n: int)
    requires size > 0 && Placed(size, m, lo, hi, it) && 0 <= Place(size, lo, it) + n < (hi - lo) * size
    ensures 0 <= it.node + (n + it.cur.offset) / size < |m|
    ensures Placed(size, m, lo, hi, Plus(size, m, it, n))
    ensures Place(size, lo, Plus(size, m, it, n)) == Place(size, lo, it) + n
  {
    var offset := n + it.cur.offset;
    var d := offset / size;
    FloorBounds(offset, size);
    assert (it.node + d - lo) * size == (it.node - lo) * size + d * size;
    assert (it.node + d - lo + 1) * size == (it.node + d - lo) * size + size;
    Below(0, it.node + d - lo + 1, size);
    Below(it.node + d - lo, hi - lo, size);
    if 0 <= offset < size {
      FloorIs(offset, size, 0);
    } else {
      NodeOffsetIsFloor(size, offset);
    }
  }

  lemma FloorBounds(a: int, b: int)
    requires b > 0
    ensures a / b * b <= a < a / b * b + b
  {
  }

  lemma DifferenceIsPlaces(size: int, lo: int, it: Iterator, from: Iterator)
    ensures Difference(size, it, from) == Place(size, lo, it) - Place(size, lo, from)
  {
    assert size * (it.node - from.node - 1) == (it.node - lo) * size - (from.node - lo) * size - size;
  }

  // operator- undoes operator+=.
  lemma PlusThenDifference(size: int, m: seq<Ref>, lo: int, hi: int, it: Iterator, n: int)
    requires size > 0 && Placed(size, m, lo, hi, it) && 0 <= Place(size, lo, it) + n < (hi - lo) * size
    ensures 0 <= it.node + (n + it.cur.offset) / size < |m|
    ensures Difference(size, Plus(size, m, it, n), it) == n
  {
    PlusMoves(size, m, lo, hi, it, n);
    DifferenceIsPlaces(size, lo, Plus(size, m, it, n), it);
  }

  // Comparing cur alone decides whether two iterators stand at the same place.
  lemma SamePlace(size: int, m: seq<Ref>, lo: int, hi: int, a: Iterator, b: Iterator)
    requires size > 0 && Placed(size, m, lo, hi, a) && Placed(size, m, lo, hi, b)
    requires forall i, j :: lo <= i < j < hi ==> m[i] != m[j]
    ensures a.cur == b.cur <==> a == b
    ensures a.cur == b.cur <==> Place(size, lo, a) == Place(size, lo, b)
    ensures a.node < b.node ==> Place(size, lo, a) < Place(size, lo, b)
  {
    hide Place;
    PlacesInOrder(size, lo, a, b);
    PlacesInOrder(size, lo, b, a);
    if a.cur == b.cur {
      assert m[a.node] == m[b.node];
      assert a.node == b.node;
    }
  }

  lemma PlacesInOrder(size: int, lo: int, a: Iterator, b: Iterator)
    requires 0 <= a.cur.offset < size && 0 <= b.cur.offset < size
    ensures a.node < b.node ==> Place(size, lo, a) < Place(size, lo, b)
    ensures a.node == b.node ==> (Place(size, lo, a) == Place(size, lo, b) <==> a.cur.offset == b.cur.offset)
  {
    if a.node < b.node { Below(a.node - lo + 1, b.node - lo, size); }
  }

  // The place of an iterator counted from another slot.
  lemma PlaceFrom(size: int, lo: int, lo': int, it: Iterator)
    ensures Place(size, lo', it) == Place(size, lo, it) + (lo - lo') * size
  {
    assert (it.node - lo') * size == (it.node - lo) * size + (lo - lo') * size;
  }

  // ----- what the cells hold -----

  // The cells from a on hold v; all the others are raw.
  ghost predicate Holds(c: seq<Cell>, a: int, v: seq<int>) {
    && 0 <= a && a + |v| <= |c|
    && forall k :: 0 <= k < |c| ==> c[k] == if a <= k < a + |v| then Full(v[k - a]) else Raw
  }

  lemma HoldsMoreBehind(c: seq<Cell>, a: int, v: seq<int>, n: int)
    requires Holds(c, a, v)
    ensures Holds(c + Repeat(n, Raw), a, v)
  {
  }

  lemma HoldsMoreInFront(c: seq<Cell>, a: int, v: seq<int>, n: int)
    requires Holds(c, a, v) && n >= 0
    ensures Holds(Repeat(n, Raw) + c, a + n, v)
  {
  }

  lemma HoldsPart(c: seq<Cell>, a: int, v: seq<int>, j: int, k: int)
    requires Holds(c, a, v) && 0 <= j <= a && a + |v| <= k <= |c|
    ensures Holds(c[j..k], a - j, v)
  {
  }

  lemma HoldsPut(c: seq<Cell>, a: int, v: seq<int>, x: int)
    requires Holds(c, a, v)
    ensures a + |v| < |c| ==> Holds(c[a + |v| := Full(x)], a, v + [x])
    ensures a > 0 ==> Holds(c[a - 1 := Full(x)], a - 1, [x] + v)
  {
  }

  lemma HoldsCut(c: seq<Cell>, a: int, v: seq<int>)
    requires Holds(c, a, v) && v != []
    ensures Holds(c[a + |v| - 1 := Raw], a, v[..|v| - 1])
    ensures Holds(c[a := Raw], a + 1, v[1..])
  {
  }

  // ----- a row of nodes in the map -----

  // *it, and *it = x.
  ghost predicate Readable(nodes: Nodes, it: Iterator) {
    it.cur.block in nodes && 0 <= it.cur.offset < |nodes[it.cur.block]|
  }

  function Deref(nodes: Nodes, it: Iterator): Cell
    requires Readable(nodes, it)
  {
    nodes[it.cur.block][it.cur.offset]
  }

  function Put(nodes: Nodes, it: Iterator, x: Cell): Nodes
    requires Readable(nodes, it)
  {
    nodes[it.cur.block := nodes[it.cur.block][it.cur.offset := x]]
  }

  // The slots lo .. hi of the map m point to the nodes in use.
  ghost predicate Part(size: int, m: seq<Ref>, lo: int, hi: int, nodes: Nodes, lost: set<Ref>, next: Ref) {
    0 <= lo <= hi <= |m| && Owned(size, m[lo..hi], nodes, lost, next)
  }

  ghost function Row(size: int, m: seq<Ref>, lo: int, hi: int, nodes: Nodes, lost: set<Ref>, next: Ref): seq<Cell>
    requires Part(size, m, lo, hi, nodes, lost, next)
  {
    Cells(m[lo..hi], nodes)
  }

  // The elements v stand between start and finish, and nothing stands elsewhere in the row.
  ghost predicate Wide(size: int, m: seq<Ref>, lo: int, hi: int, nodes: Nodes, lost: set<Ref>, next: Ref,
                       start: Iterator, finish: Iterator, v: seq<int>) {
    && Part(size, m, lo, hi, nodes, lost, next)
    && Placed(size, m, lo, hi, start)
    && Placed(size, m, lo, hi, finish)
    && Holds(Row(size, m, lo, hi, nodes, lost, next), Place(size, lo, start), v)
    && Place(size, lo, finish) == Place(size, lo, start) + |v|
  }

  lemma RowLength(size: int, m: seq<Ref>, lo: int, hi: int, nodes: Nodes, lost: set<Ref>, next: Ref)
    requires Part(size, m, lo, hi, nodes, lost, next)
    ensures size > 0 && |Row(size, m, lo, hi, nodes, lost, next)| == (hi - lo) * size
  {
    OwnedLength(size, m[lo..hi], nodes, lost, next);
  }

  lemma PlaceInRow(size: int, m: seq<Ref>, lo: int, hi: int, it: Iterator)
    requires size > 0 && Placed(size, m, lo, hi, it)
    ensures 0 <= Place(size, lo, it) < (hi - lo) * size
  {
    Below(it.node - lo + 1, hi - lo, size);
    Below(0, it.node - lo, size);
    assert (it.node - lo + 1) * size == (it.node - lo) * size + size;
  }

  lemma RowPut(size: int, m: seq<Ref>, lo: int, hi: int, nodes: Nodes, lost: set<Ref>, next: Ref, it: Iterator, x: Cell)
    requires Part(size, m, lo, hi, nodes, lost, next) && Placed(size, m, lo, hi, it)
    ensures Readable(nodes, it)
    ensures 0 <= Place(size, lo, it) < |Row(size, m, lo, hi, nodes, lost, next)|
    ensures Deref(nodes, it) == Row(size, m, lo, hi, nodes, lost, next)[Place(size, lo, it)]
    ensures Part(size, m, lo, hi, Put(nodes, it, x), lost, next)
    ensures Row(size, m, lo, hi, Put(nodes, it, x), lost, next) ==
            Row(size, m, lo, hi, nodes, lost, next)[Place(size, lo, it) := x]
  {
    var q, i := m[lo..hi], it.node - lo;
    assert q[i] == it.cur.block;
    CellsPut(size, q, nodes, lost, next, i, it.cur.offset, x);
    CellsAt(size, q, nodes, i, it.cur.offset);
  }

  lemma WideReadable(size: int, m: seq<Ref>, lo: int, hi: int, nodes: Nodes, lost: set<Ref>, next: Ref,
                     start: Iterator, finish: Iterator, v: seq<int>, it: Iterator, i: int)
    requires Wide(size, m, lo, hi, nodes, lost, next, start, finish, v)
    requires Placed(size, m, lo, hi, it) && Place(size, lo, it) == Place(size, lo, start) + i
    ensures Readable(nodes, it)
    ensures Deref(nodes, it) == if 0 <= i < |v| then Full(v[i]) else Raw
  {
    RowPut(size, m, lo, hi, nodes, lost, next, it, Raw);
  }

  // An element constructed at finish, and one constructed just before start.
  lemma WidePushBack(size: int, m: seq<Ref>, lo: int, hi: int, nodes: Nodes, lost: set<Ref>, next: Ref,
                     start: Iterator, finish: Iterator, v: seq<int>, x: int, finish': Iterator)
    requires Wide(size, m, lo, hi, nodes, lost, next, start, finish, v)
    requires Placed(size, m, lo, hi, finish') && Place(size, lo, finish') == Place(size, lo, finish) + 1
    ensures Readable(nodes, finish) && Deref(nodes, finish) == Raw
    ensures Wide(size, m, lo, hi, Put(nodes, finish, Full(x)), lost, next, start, finish', v + [x])
  {
    hide Row, Part, Placed, Place;
    RowPut(size, m, lo, hi, nodes, lost, next, finish, Full(x));
    HoldsPut(Row(size, m, lo, hi, nodes, lost, next), Place(size, lo, start), v, x);
  }

  lemma WidePushFront(size: int, m: seq<Ref>, lo: int, hi: int, nodes: Nodes, lost: set<Ref>, next: Ref,
                      start: Iterator, finish: Iterator, v: seq<int>, x: int, start': Iterator)
    requires Wide(size, m, lo, hi, nodes, lost, next, start, finish, v)
    requires Placed(size, m, lo, hi, start') && Place(size, lo, start') == Place(size, lo, start) - 1
    ensures Readable(nodes, start') && Deref(nodes, start') == Raw
    ensures Wide(size, m, lo, hi, Put(nodes, start', Full(x)), lost, next, start', finish, [x] + v)
  {
    hide Row, Part, Placed, Place;
    RowPut(size, m, lo, hi, nodes, lost, next, start', Full(x));
    HoldsPut(Row(size, m, lo, hi, nodes, lost, next), Place(size, lo, start), v, x);
  }

  // The last element destroyed, and the first.
  lemma WidePopBack(size: int, m: seq<Ref>, lo: int, hi: int, nodes: Nodes, lost: set<Ref>, next: Ref,
                    start: Iterator, finish: Iterator, v: seq<int>, finish': Iterator)
    requires Wide(size, m, lo, hi, nodes, lost, next, start, finish, v) && v != []
    requires Placed(size, m, lo, hi, finish') && Place(size, lo, finish') == Place(size, lo, finish) - 1
    ensures Readable(nodes, finish') && Deref(nodes, finish') == Full(v[|v| - 1])
    ensures Wide(size, m, lo, hi, Put(nodes, finish', Raw), lost, next, start, finish', v[..|v| - 1])
  {
    hide Row, Part, Placed, Place;
    RowPut(size, m, lo, hi, nodes, lost, next, finish', Raw);
    HoldsCut(Row(size, m, lo, hi, nodes, lost, next), Place(size, lo, start), v);
  }

  lemma WidePopFront(size: int, m: seq<Ref>, lo: int, hi: int, nodes: Nodes, lost: set<Ref>, next: Ref,
                     start: Iterator, finish: Iterator, v: seq<int>, start': Iterator)
    requires Wide(size, m, lo, hi, nodes, lost, next, start, finish, v) && v != []
    requires Placed(size, m, lo, hi, start') && Place(size, lo, start') == Place(size, lo, start) + 1
    ensures Readable(nodes, start) && Deref(nodes, start) == Full(v[0])
    ensures Wide(size, m, lo, hi, Put(nodes, start, Raw), lost, next, start', finish, v[1..])
  {
    hide Row, Part, Placed, Place;
    RowPut(size, m, lo, hi, nodes, lost, next, start, Raw);
    HoldsCut(Row(size, m, lo, hi, nodes, lost, next), Place(size, lo, start), v);
  }

  // A node allocated behind the row, and one in front of it.
  lemma RowGrowBehind(size: int, m: seq<Ref>, lo: int, hi: int, nodes: Nodes, lost: set<Ref>, next: Ref)
    requires Part(size, m, lo, hi, nodes, lost, next) && hi < |m|
    ensures Part(size, m[hi := next], lo, hi + 1, nodes[next := Repeat(size, Raw)], lost, next + 1)
    ensures Row(size, m[hi := next], lo, hi + 1, nodes[next := Repeat(size, Raw)], lost, next + 1) ==
            Row(size, m, lo, hi, nodes, lost, next) + Repeat(size, Raw)
  {
    hide Owned, Cells;
    GrownAtBack(size, m[lo..hi], nodes, lost, next);
    SlotAdded(m, lo, hi, next);
  }

  lemma SlotAdded(m: seq<Ref>, lo: nat, hi: nat, r: Ref)
    requires lo <= hi < |m|
    ensures m[hi := r][lo..hi + 1] == m[lo..hi] + [r]
  {
  }

  lemma RowGrowInFront(size: int, m: seq<Ref>, lo: int, hi: int, nodes: Nodes, lost: set<Ref>, next: Ref)
    requires Part(size, m, lo, hi, nodes, lost, next) && lo > 0
    ensures Part(size, m[lo - 1 := next], lo - 1, hi, nodes[next := Repeat(size, Raw)], lost, next + 1)
    ensures Row(size, m[lo - 1 := next], lo - 1, hi, nodes[next := Repeat(size, Raw)], lost, next + 1) ==
            Repeat(size, Raw) + Row(size, m, lo, hi, nodes, lost, next)
  {
    GrownAtFront(size, m[lo..hi], nodes, lost, next);
    assert m[lo - 1 := next][lo - 1..hi] == [next] + m[lo..hi];
  }

  lemma WideGrowBehind(size: int, m: seq<Ref>, lo: int, hi: int, nodes: Nodes, lost: set<Ref>, next: Ref,
      start: Iterator, finish: Iterator, v: seq<int>)
    requires Wide(size, m, lo, hi, nodes, lost, next, start, finish, v) && hi < |m|
    ensures Wide(size, m[hi := next], lo, hi + 1, nodes[next := Repeat(size, Raw)], lost, next + 1, start, finish, v)
  {
    hide Part, Row, Holds, Place;
    RowGrowBehind(size, m, lo, hi, nodes, lost, next);
    HoldsMoreBehind(Row(size, m, lo, hi, nodes, lost, next), Place(size, lo, start), v, size);
  }

  lemma WideGrowInFront(size: int, m: seq<Ref>, lo: int, hi: int, nodes: Nodes, lost: set<Ref>, next: Ref,
      start: Iterator, finish: Iterator, v: seq<int>)
    requires Wide(size, m, lo, hi, nodes, lost, next, start, finish, v) && lo > 0
    ensures Wide(size, m[lo - 1 := next], lo - 1, hi, nodes[next := Repeat(size, Raw)], lost, next + 1, start, finish,
                 v)
  {
    hide Part, Row, Holds, Place;
    RowLength(size, m, lo, hi, nodes, lost, next);
    RowGrowInFront(size, m, lo, hi, nodes, lost, next);
    HoldsMoreInFront(Row(size, m, lo, hi, nodes, lost, next), Place(size, lo, start), v, size);
    PlaceFrom(size, lo, lo - 1, start);
    PlaceFrom(size, lo, lo - 1, finish);
  }

  // The last node given back, and the first.
  lemma RowShrinkBehind(size: int, m: seq<Ref>, lo: int, hi: int, nodes: Nodes, lost: set<Ref>, next: Ref)
    requires Part(size, m, lo, hi, nodes, lost, next) && lo < hi
    ensures Part(size, m, lo, hi - 1, nodes - {m[hi - 1]}, lost, next)
    ensures size <= |Row(size, m, lo, hi, nodes, lost, next)|
    ensures Row(size, m, lo, hi - 1, nodes - {m[hi - 1]}, lost, next) ==
            Row(size, m, lo, hi, nodes, lost, next)[..|Row(size, m, lo, hi, nodes, lost, next)| - size]
  {
    hide Cells;
    DroppedAtBack(size, m[lo..hi], nodes, lost, next);
    assert m[lo..hi - 1] == m[lo..hi][..hi - lo - 1];
  }

  lemma RowShrinkInFront(size: int, m: seq<Ref>, lo: int, hi: int, nodes: Nodes, lost: set<Ref>, next: Ref)
    requires Part(size, m, lo, hi, nodes, lost, next) && lo < hi
    ensures Part(size, m, lo + 1, hi, nodes - {m[lo]}, lost, next)
    ensures 0 <= size <= |Row(size, m, lo, hi, nodes, lost, next)|
    ensures Row(size, m, lo + 1, hi, nodes - {m[lo]}, lost, next) == Row(size, m, lo, hi, nodes, lost, next)[size..]
  {
    hide Cells;
    DroppedAtFront(size, m[lo..hi], nodes, lost, next);
    assert m[lo + 1..hi] == m[lo..hi][1..];
  }

  lemma WideShrinkBehind(size: int, m: seq<Ref>, lo: int, hi: int, nodes: Nodes, lost: set<Ref>, next: Ref,
      start: Iterator, finish: Iterator, v: seq<int>)
    requires Wide(size, m, lo, hi, nodes, lost, next, start, finish, v)
    requires start.node < hi - 1 && finish.node < hi - 1
    ensures Wide(size, m, lo, hi - 1, nodes - {m[hi - 1]}, lost, next, start, finish, v)
  {
    hide Part, Row, Holds, Place;
    RowLength(size, m, lo, hi, nodes, lost, next);
    RowShrinkBehind(size, m, lo, hi, nodes, lost, next);
    PlaceInRow(size, m, lo, hi - 1, start);
    PlaceInRow(size, m, lo, hi - 1, finish);
    assert (hi - 1 - lo) * size == (hi - lo) * size - size;
    HoldsPart(Row(size, m, lo, hi, nodes, lost, next), Place(size, lo, start), v, 0, (hi - 1 - lo) * size);
  }

  lemma WideShrinkInFront(size: int, m: seq<Ref>, lo: int, hi: int, nodes: Nodes, lost: set<Ref>, next: Ref,
      start: Iterator, finish: Iterator, v: seq<int>)
    requires Wide(size, m, lo, hi, nodes, lost, next, start, finish, v)
    requires lo < start.node && lo < finish.node
    ensures Wide(size, m, lo + 1, hi, nodes - {m[lo]}, lost, next, start, finish, v)
  {
    hide Part, Row, Place;
    var c := Row(size, m, lo, hi, nodes, lost, next);
    RowLength(size, m, lo, hi, nodes, lost, next);
    RowShrinkInFront(size, m, lo, hi, nodes, lost, next);
    PlaceFrom(size, lo, lo + 1, start);
    PlaceFrom(size, lo, lo + 1, finish);
    PlaceInRow(size, m, lo + 1, hi, start);
    HoldsPart(c, Place(size, lo, start), v, size, |c|);
    assert c[size..] == c[size..|c|];
  }

  // The nodes in front of slot k neither used any more nor given back.
  lemma RowLose(size: int, m: seq<Ref>, lo: int, hi: int, nodes: Nodes, lost: set<Ref>, next: Ref, k: int)
    requires Part(size, m, lo, hi, nodes, lost, next) && lo <= k <= hi
    ensures Part(size, m, k, hi, nodes, lost + Members(m[lo..k]), next)
    ensures 0 <= (k - lo) * size <= |Row(size, m, lo, hi, nodes, lost, next)|
    ensures Row(size, m, k, hi, nodes, lost + Members(m[lo..k]), next) ==
            Row(size, m, lo, hi, nodes, lost, next)[(k - lo) * size..]
  {
    hide Cells;
    LostAtFront(size, m[lo..hi], nodes, lost, next, k - lo);
    assert m[k..hi] == m[lo..hi][k - lo..] && m[lo..k] == m[lo..hi][..k - lo];
  }

  lemma WideLose(size: int, m: seq<Ref>, lo: int, hi: int, nodes: Nodes, lost: set<Ref>, next: Ref,
      start: Iterator, finish: Iterator, v: seq<int>, k: int)
    requires Wide(size, m, lo, hi, nodes, lost, next, start, finish, v)
    requires lo <= k <= start.node && k <= finish.node
    ensures Wide(size, m, k, hi, nodes, lost + Members(m[lo..k]), next, start, finish, v)
  {
    hide Part, Row, Place;
    var c, d := Row(size, m, lo, hi, nodes, lost, next), (k - lo) * size;
    RowLength(size, m, lo, hi, nodes, lost, next);
    RowLose(size, m, lo, hi, nodes, lost, next, k);
    PlaceFrom(size, lo, k, start);
    PlaceFrom(size, lo, k, finish);
    PlaceInRow(size, m, k, hi, start);
    assert (lo - k) * size == -d;
    HoldsPart(c, Place(size, lo, start), v, d, |c|);
    assert c[d..] == c[d..|c|];
  }

  // The same nodes pointed to from the slots lo' on of another map.
  lemma WideMoved(size: int, m: seq<Ref>, lo: int, hi: int, nodes: Nodes, lost: set<Ref>, next: Ref,
      start: Iterator, finish: Iterator, v: seq<int>, m': seq<Ref>, lo': int)
    requires Wide(size, m, lo, hi, nodes, lost, next, start, finish, v)
    requires 0 <= lo' && lo' + (hi - lo) <= |m'| && m'[lo'..lo' + (hi - lo)] == m[lo..hi]
    ensures Wide(size, m', lo', lo' + (hi - lo), nodes, lost, next, SetNode(m', start, start.node - lo + lo'),
                 SetNode(m', finish, finish.node - lo + lo'), v)
  {
    hide Owned, Cells, Holds;
    assert m'[start.node - lo + lo'] == m'[lo'..lo' + (hi - lo)][start.node - lo] == m[lo..hi][start.node - lo] ==
           m[start.node];
    assert m'[finish.node - lo + lo'] == m'[lo'..lo' + (hi - lo)][finish.node - lo] ==
           m[lo..hi][finish.node - lo] == m[finish.node];
  }

  lemma WideBounds(size: int, m: seq<Ref>, lo: int, hi: int, nodes: Nodes, lost: set<Ref>, next: Ref,
      start: Iterator, finish: Iterator, v: seq<int>)
    requires Wide(size, m, lo, hi, nodes, lost, next, start, finish, v)
    ensures size > 0
    ensures Placed(size, m, lo, hi, start) && Placed(size, m, lo, hi, finish)
    ensures Place(size, lo, finish) == Place(size, lo, start) + |v|
    ensures 0 <= Place(size, lo, start) && Place(size, lo, finish) < (hi - lo) * size
  {
    hide Row, Holds, Place;
    RowLength(size, m, lo, hi, nodes, lost, next);
    PlaceInRow(size, m, lo, hi, start);
    PlaceInRow(size, m, lo, hi, finish);
  }

  lemma WideNodes(size: int, m: seq<Ref>, lo: int, hi: int, nodes: Nodes, lost: set<Ref>, next: Ref,
      start: Iterator, finish: Iterator, v: seq<int>)
    requires Wide(size, m, lo, hi, nodes, lost, next, start, finish, v)
    ensures forall i :: lo <= i < hi ==> m[i] in nodes && m[i] !in lost && |nodes[m[i]]| == size
    ensures forall i, j :: lo <= i < j < hi ==> m[i] != m[j]
    ensures forall r :: r in nodes <==> r in lost || r in Members(m[lo..hi])
  {
    hide Row, Holds, Place, Placed;
    var q := m[lo..hi];
    forall i | lo <= i < hi ensures m[i] == q[i - lo] { }
    forall i, j | lo <= i < j < hi ensures m[i] != m[j] {
      assert q[i - lo] != q[j - lo];
    }
  }

  // Whether all cells from j to k hold an element, or none does.
  ghost predicate Constructed(c: seq<Cell>, j: int, k: int) {
    0 <= j && k <= |c| && forall i :: j <= i < k ==> c[i].Full?
  }

  ghost predicate Empty(c: seq<Cell>, j: int, k: int) {
    0 <= j && k <= |c| && forall i :: j <= i < k ==> c[i].Raw?
  }

  // c is c0 with the cells from f to l copied to r.
  ghost predicate Moved(c0: seq<Cell>, f: int, l: int, r: int, c: seq<Cell>) {
    && 0 <= f <= l <= |c0| && 0 <= r && r + (l - f) <= |c0|
    && c == Written(c0, r, c0[f..l])
  }

  // c is c0 with the cells from f to l set to x.
  ghost predicate Filled(c0: seq<Cell>, f: int, l: int, x: Cell, c: seq<Cell>) {
    && 0 <= f <= l <= |c0|
    && c == Written(c0, f, Repeat(l - f, x))
  }

  // ----- elements moved and filled in -----

  lemma MovedHolds(c0: seq<Cell>, a: int, v: seq<int>, f: int, l: int, r: int, c: seq<Cell>)
    requires Holds(c0, a, v) && a <= f <= l <= a + |v| && a <= r && r + (l - f) <= a + |v|
    requires Moved(c0, f, l, r, c)
    ensures Holds(c, a, Written(v, r - a, v[f - a..l - a]))
  {
    hide Written;
    WrittenAt(c0, r, c0[f..l]);
    WrittenAt(v, r - a, v[f - a..l - a]);
  }

  lemma FilledHolds(c0: seq<Cell>, a: int, v: seq<int>, f: int, l: int, x: int, c: seq<Cell>)
    requires Holds(c0, a, v) && a <= f <= l <= a + |v| && Filled(c0, f, l, Full(x), c)
    ensures Holds(c, a, Written(v, f - a, Repeat(l - f, x)))
  {
    hide Written;
    WrittenAt(c0, f, Repeat(l - f, Full(x)));
    WrittenAt(v, f - a, Repeat(l - f, x));
  }

  // Fresh elements constructed in front of the others or behind them.
  lemma CopiedInFront(c0: seq<Cell>, a: int, v: seq<int>, n: int, c: seq<Cell>)
    requires Holds(c0, a, v) && 0 <= n <= a && n <= |v| && Moved(c0, a, a + n, a - n, c)
    ensures Holds(c, a - n, v[..n] + v)
  {
    hide Written;
    WrittenAt(c0, a - n, c0[a..a + n]);
  }

  lemma CopiedBehind(c0: seq<Cell>, a: int, v: seq<int>, n: int, c: seq<Cell>)
    requires Holds(c0, a, v) && 0 <= n <= |v| && a + |v| + n <= |c0|
    requires Moved(c0, a + |v| - n, a + |v|, a + |v|, c)
    ensures Holds(c, a, v + v[|v| - n..])
  {
    hide Written;
    WrittenAt(c0, a + |v|, c0[a + |v| - n..a + |v|]);
  }

  lemma FilledInFront(c0: seq<Cell>, a: int, v: seq<int>, n: int, x: int, c: seq<Cell>)
    requires Holds(c0, a, v) && 0 <= n <= a && Filled(c0, a - n, a, Full(x), c)
    ensures Holds(c, a - n, Repeat(n, x) + v)
  {
    hide Written, Repeat;
    WrittenAt(c0, a - n, Repeat(n, Full(x)));
  }

  lemma FilledBehind(c0: seq<Cell>, a: int, v: seq<int>, n: int, x: int, c: seq<Cell>)
    requires Holds(c0, a, v) && 0 <= n && a + |v| + n <= |c0| && Filled(c0, a + |v|, a + |v| + n, Full(x), c)
    ensures Holds(c, a, v + Repeat(n, x))
  {
    hide Written, Repeat;
    WrittenAt(c0, a + |v|, Repeat(n, Full(x)));
  }

  // The first i elements copied to the front of the gap of n cells, and the rest of it filled.
  lemma GapInFront(c0: seq<Cell>, a: int, v: seq<int>, i: int, n: int, c1: seq<Cell>)
    requires Holds(c0, a, v) && 0 <= i <= |v| && i <= n <= a && Moved(c0, a, a + i, a - n, c1)
    ensures |c1| == |c0| && Empty(c1, a - n + i, a)
  {
    hide Written;
    WrittenAt(c0, a - n, c0[a..a + i]);
  }

  lemma SpreadInFront(c0: seq<Cell>, a: int, v: seq<int>, i: int, n: int, x: int, c1: seq<Cell>, c2: seq<Cell>)
    requires Holds(c0, a, v) && 0 <= i <= |v| && i <= n <= a
    requires Moved(c0, a, a + i, a - n, c1) && Filled(c1, a - n + i, a, Full(x), c2)
    ensures Holds(c2, a - n, v[..i] + Repeat(n - i, x) + v)
  {
    hide Written, Repeat;
    WrittenAt(c0, a - n, c0[a..a + i]);
    WrittenAt(c1, a - n + i, Repeat(n - i, Full(x)));
  }

  // The gap behind the elements filled but for its last cells, to which the last elements go.
  lemma SpreadBehind(c0: seq<Cell>, a: int, v: seq<int>, i: int, n: int, x: int, c1: seq<Cell>)
    requires Holds(c0, a, v) && 0 <= i <= |v| && |v| - i <= n && a + |v| + n <= |c0|
    requires Filled(c0, a + |v|, a + i + n, Full(x), c1)
    ensures |c1| == |c0| && Holds(c1, a, v + Repeat(i + n - |v|, x))
  {
    WrittenAt(c0, a + |v|, Repeat(i + n - |v|, Full(x)));
    FilledBehind(c0, a, v, i + n - |v|, x, c1);
  }

  lemma CopiedBehindPart(c0: seq<Cell>, a: int, u: seq<int>, i: int, k: int, c: seq<Cell>)
    requires Holds(c0, a, u) && 0 <= i <= k <= |u| && a + |u| + (k - i) <= |c0|
    requires Moved(c0, a + i, a + k, a + |u|, c)
    ensures Holds(c, a, u + u[i..k])
  {
    hide Written;
    WrittenAt(c0, a + |u|, c0[a + i..a + k]);
    var w := u + u[i..k];
    forall q | 0 <= q < |c| ensures c[q] == if a <= q < a + |w| then Full(w[q - a]) else Raw {
      if a + |u| <= q < a + |w| {
        assert c[q] == c0[a + i..a + k][q - (a + |u|)] == c0[q - |u| + i];
        assert w[q - a] == u[i..k][q - a - |u|] == u[q - a - |u| + i];
      }
    }
  }

  // ----- nodes given back, and new ones -----

  // The nodes that the slots j .. k point to.
  ghost function PointedTo(m: seq<Ref>, j: int, k: int): set<Ref> {
    set i | 0 <= i < |m| && j <= i < k :: m[i]
  }

  lemma PointedToMembers(m: seq<Ref>, j: int, k: int)
    requires 0 <= j <= k <= |m|
    ensures PointedTo(m, j, k) == Members(m[j..k])
  {
    forall r | r in PointedTo(m, j, k) ensures r in m[j..k] {
      var i :| 0 <= i < |m| && j <= i < k && m[i] == r;
      assert m[j..k][i - j] == r;
    }
    forall r | r in m[j..k] ensures r in PointedTo(m, j, k) {
      var i :| 0 <= i < k - j && m[j..k][i] == r;
      assert m[j + i] == r;
    }
  }

  // All nodes from slot k on given back.
  lemma {:induction false} WideShrinkTo(size: int, m: seq<Ref>, lo: int, hi: int, nodes: Nodes, lost: set<Ref>,
                                        next: Ref, start: Iterator, finish: Iterator, v: seq<int>, k: int)
    requires Wide(size, m, lo, hi, nodes, lost, next, start, finish, v)
    requires start.node < k <= hi && finish.node < k
    ensures Wide(size, m, lo, k, nodes - PointedTo(m, k, hi), lost, next, start, finish, v)
    decreases hi - k
  {
    hide Wide;
    WideBounds(size, m, lo, hi, nodes, lost, next, start, finish, v);
    if k < hi {
      WideShrinkBehind(size, m, lo, hi, nodes, lost, next, start, finish, v);
      WideShrinkTo(size, m, lo, hi - 1, nodes - {m[hi - 1]}, lost, next, start, finish, v, k);
      assert PointedTo(m, k, hi) == {m[hi - 1]} + PointedTo(m, k, hi - 1);
      assert nodes - {m[hi - 1]} - PointedTo(m, k, hi - 1) == nodes - PointedTo(m, k, hi);
    } else {
      assert nodes - PointedTo(m, k, hi) == nodes;
    }
  }

  lemma DestroyedInFront(c0: seq<Cell>, a: int, v: seq<int>, n: int, c: seq<Cell>)
    requires Holds(c0, a, v) && 0 <= n <= |v| && Filled(c0, a, a + n, Raw, c)
    ensures Holds(c, a + n, v[n..])
  {
  }

  lemma DestroyedBehind(c0: seq<Cell>, a: int, v: seq<int>, k: int, c: seq<Cell>)
    requires Holds(c0, a, v) && 0 <= k <= |v| && Filled(c0, a + k, a + |v|, Raw, c)
    ensures Holds(c, a, v[..k])
  {
  }

  // A map with a single node.
  lemma WideFirst(size: int, m: seq<Ref>, s: int, r: Ref)
    requires size > 0 && 0 <= s < |m| && m[s] == r
    ensures var it := Iterator(Pointer(r, 0), r, s);
      Wide(size, m, s, s + 1, map[r := Repeat(size, Raw)], {}, r + 1, it, it, [])
  {
    var nodes: Nodes := map[r := Repeat(size, Raw)];
    assert m[s..s + 1] == [r];
    CellsOne(r, nodes);
  }

  // Nothing is constructed in the row yet; start is in front of it and finish n cells on.
  ghost predicate Vacant(size: int, m: seq<Ref>, lo: int, hi: int, nodes: Nodes, lost: set<Ref>, next: Ref,
                         start: Iterator, finish: Iterator, n: nat) {
    && Part(size, m, lo, hi, nodes, lost, next)
    && Placed(size, m, lo, hi, start) && start.cur.offset == 0
    && Placed(size, m, lo, hi, finish) && Place(size, lo, finish) == n
    && Holds(Row(size, m, lo, hi, nodes, lost, next), 0, [])
  }

  // One more node than n elements fill.
  function NodesFor(size: int, n: nat): (k: nat)
    requires size > 0
    ensures k >= 1
  {
    n / size + 1
  }

  lemma FinishSet(size: int, m: seq<Ref>, first: int, nodes: Nodes, lost: set<Ref>, next: Ref, start: Iterator, n: nat)
    requires size > 0 && start.node == first && start.cur.offset == 0
    requires Wide(size, m, first, first + NodesFor(size, n), nodes, lost, next, start, start, [])
    ensures 0 <= first + NodesFor(size, n) - 1 < |m|
    ensures Vacant(size, m, first, first + NodesFor(size, n), nodes, lost, next, start,
                   EndAt(size, m, first + NodesFor(size, n) - 1, n), n)
  {
    hide Part, Row, Holds;
    QuotientPlace(size, n);
  }

  // The place behind n elements, in the last of their nodes.
  function EndAt(size: int, m: seq<Ref>, last: int, n: nat): Iterator
    requires size > 0 && 0 <= last < |m|
  {
    Iterator(Pointer(m[last], n % size), m[last], last)
  }

  lemma QuotientPlace(size: int, n: nat)
    requires size > 0
    ensures n / size >= 0 && n / size * size + n % size == n && 0 <= n % size < size
  {
  }
}
