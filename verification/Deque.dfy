/** deque: a map of nodes whose used part grows at both ends. */
module Deque {
  import opened DequeNodes
  import opened Ranges
  import opened StableSorting

  datatype Op =
    | AddBack(x: int)
    | AddFront(x: int)
    | DropBack
    | DropFront
    | InsertAt(i: nat, x: int)
    | InsertCopies(i: nat, n: nat, x: int)
    | EraseAt(i: nat)
    | EraseBetween(i: nat, j: nat)
    | EraseAll

  ghost predicate Allowed(op: Op, v: seq<int>) {
    match op
    case DropBack => v != []
    case DropFront => v != []
    case InsertAt(i, x) => i <= |v|
    case InsertCopies(i, n, x) => i <= |v|
    case EraseAt(i) => i < |v|
    case EraseBetween(i, j) => i <= j <= |v|
    case _ => true
  }

  ghost function Meaning(op: Op, v: seq<int>): seq<int>
    requires Allowed(op, v)
  {
    match op
    case AddBack(x) => v + [x]
    case AddFront(x) => [x] + v
    case DropBack => v[..|v| - 1]
    case DropFront => v[1..]
    case InsertAt(i, x) => v[..i] + [x] + v[i..]
    case InsertCopies(i, n, x) => v[..i] + Repeat(n, x) + v[i..]
    case EraseAt(i) => v[..i] + v[i + 1..]
    case EraseBetween(i, j) => v[..i] + v[j..]
    case EraseAll => []
  }

  ghost predicate AllAllowed(ops: seq<Op>, v: seq<int>) {
    ops == [] || (Allowed(ops[0], v) && AllAllowed(ops[1..], Meaning(ops[0], v)))
  }

  ghost function AfterAll(ops: seq<Op>, v: seq<int>): seq<int>
    requires AllAllowed(ops, v)
  {
    if ops == [] then v else AfterAll(ops[1..], Meaning(ops[0], v))
  }

  // ----- the size of the map -----

  // The length of the map after _M_reallocate_map, and where its used part begins.
  ghost function MapSize(length: nat, used: int, toAdd: nat): (l: nat)
    ensures l >= length
  {
    if length > 2 * (used + toAdd) then length
    else length + (if length < toAdd then toAdd else length) + 2
  }

  function MapStart(length: nat, used: int, toAdd: nat, atFront: bool): int {
    (length - (used + toAdd)) / 2 + if atFront then toAdd else 0
  }

  // The length of the map after room has been made for so many nodes more: it changes only
  // when there are not as many slots left at that end.
  ghost function MapAfter(length: nat, first: int, last: int, toAdd: nat, atFront: bool): nat {
    if (if atFront then first >= toAdd else last + toAdd < length) then length
    else MapSize(length, last - first + 1, toAdd)
  }

  lemma MapRoom(length: nat, used: int, toAdd: nat, atFront: bool)
    requires 0 < used <= length
    ensures var l := MapSize(length, used, toAdd);
      var first := MapStart(l, used, toAdd, atFront);
      && 0 <= first && first + used <= l
      && if atFront then first >= toAdd else l - (first + used) >= toAdd
  {
  }

  // How many more nodes n elements need in front of or behind an end at this offset.
  ghost function NodesInFront(size: int, offset: int, n: nat): (k: int) {
    if size > 0 && n > offset then (n - offset + size - 1) / size else 0
  }

  ghost function NodesBehind(size: int, offset: int, n: nat): (k: int) {
    if size > 0 && offset + n >= size then (offset + n) / size else 0
  }

  lemma NodesForOne(size: int, offset: int)
    requires 0 <= offset < size
    ensures NodesBehind(size, offset, 1) == if offset == size - 1 then 1 else 0
    ensures NodesInFront(size, offset, 1) == if offset == 0 then 1 else 0
  {
  }

  class Deque {
    const size: int // elements in a node
    var slots: array<Ref>
    var nodes: Nodes
    var next: Ref
    var start: Iterator
    var finish: Iterator
    ghost var contents: seq<int>
    ghost var lost: set<Ref>

    // ----- the invariants -----

    ghost predicate Used(lo: int, hi: int)
      reads this, slots
    {
      Part(size, slots[..], lo, hi, nodes, lost, next)
    }

    ghost function Seen(lo: int, hi: int): seq<Cell>
      requires Used(lo, hi)
      reads this, slots
    {
      Row(size, slots[..], lo, hi, nodes, lost, next)
    }

    ghost predicate On(lo: int, hi: int, it: Iterator)
      reads this, slots
    {
      Placed(size, slots[..], lo, hi, it)
    }

    ghost function Rank(lo: int, it: Iterator): int {
      Place(size, lo, it)
    }

    ghost predicate ValidIn(lo: int, hi: int)
      reads this, slots
    {
      Wide(size, slots[..], lo, hi, nodes, lost, next, start, finish, contents)
    }

    // The nodes from that of start to that of finish are in use; the elements between the two
    // iterators are constructed, and no others.
    ghost predicate Valid()
      reads this, slots
    {
      ValidIn(start.node, finish.node + 1)
    }

    // The elements in order, counted from start; nothing else in the nodes is constructed.
    lemma Elements(it: Iterator, i: int)
      requires Valid() && On(start.node, finish.node + 1, it)
      requires Rank(start.node, it) == Rank(start.node, start) + i
      ensures Readable(nodes, it)
      ensures Deref(nodes, it) == if 0 <= i < |contents| then Full(contents[i]) else Raw
    {
      WideReadable(size, slots[..], start.node, finish.node + 1, nodes, lost, next, start, finish, contents, it, i);
    }

    // What making room leaves of the map.
    twostate predicate MapMade(toAdd: int, atFront: bool)
      reads this
    {
      && toAdd >= 0
      && slots.Length == MapAfter(old(slots.Length), old(start.node), old(finish.node), toAdd, atFront)
      && if slots.Length == old(slots.Length) then slots == old(slots) else fresh(slots)
    }

    // n elements more in front, or behind: the other end has not moved, and the map is as long
    // as the new nodes need.
    twostate predicate GrownInFront(n: nat)
      reads this
    {
      finish.cur == old(finish.cur) && MapMade(NodesInFront(size, old(start.cur.offset), n), true)
    }

    twostate predicate GrownBehind(n: nat)
      reads this
    {
      start.cur == old(start.cur) && MapMade(NodesBehind(size, old(finish.cur.offset), n), false)
    }

    // ----- construction -----

    constructor (elements: nat, n: nat, x: int)
      requires elements > 0
      ensures Valid() && fresh(slots) && size == elements
      ensures contents == Repeat(n, x) && lost == {}
      ensures var count := NodesFor(elements, n);
        && slots.Length == (if 8 < count + 2 then count + 2 else 8)
        && start.node == (slots.Length - count) / 2 && start.cur.offset == 0
    {
      size := elements;
      slots := new Ref[0];
      nodes := map[];
      next := 0;
      start := Iterator(Pointer(0, 0), 0, 0);
      finish := Iterator(Pointer(0, 0), 0, 0);
      contents := [];
      lost := {};
      new;
      InitializeMap(n);
      FillInitialize(n, x);
    }

    // start and finish are n cells apart, at the front of nodes in which nothing is constructed.
    ghost predicate Unfilled(n: nat)
      reads this, slots
    {
      Vacant(size, slots[..], start.node, finish.node + 1, nodes, lost, next, start, finish, n)
    }

    // Nodes for n elements.
    method InitializeMap(n: nat)
      requires size > 0 && next == 0 && nodes == map[] && contents == [] && lost == {}
      modifies this`slots, this`start, this`finish, this`nodes, this`next
      ensures fresh(slots) && Unfilled(n)
      ensures var count := NodesFor(size, n);
        && slots.Length == (if 8 < count + 2 then count + 2 else 8)
        && start.node == (slots.Length - count) / 2 && start.cur.offset == 0
    {
      hide Wide, Vacant, NodesFor;
      var nodesNeeded := NodesFor(size, n);
      var mapSize := if 8 < nodesNeeded + 2 then nodesNeeded + 2 else 8;
      slots := new Ref[mapSize];
      var first := (mapSize - nodesNeeded) / 2;
      CreateNodes(first, nodesNeeded);
      FinishSet(size, slots[..], first, nodes, lost, next, start, n);
      finish := SetNode(slots[..], finish, first + nodesNeeded - 1);
      finish := finish.(cur := Pointer(finish.first, n % size));
    }

    method CreateNodes(first: nat, count: nat)
      requires size > 0 && next == 0 && nodes == map[] && contents == [] && lost == {}
      requires count > 0 && first + count <= slots.Length
      modifies this`start, this`finish, this`nodes, this`next, slots
      ensures ValidIn(first, first + count) && start == finish && start.node == first && start.cur.offset == 0
    {
      hide Wide, Part, Row, Holds, Placed, Place;
      slots[first] := next;
      start := Iterator(Pointer(next, 0), next, first);
      finish := start;
      WideFirst(size, slots[..], first, next);
      nodes := map[next := Repeat(size, Raw)];
      next := next + 1;
      for i := 1 to count
        invariant ValidIn(first, first + i)
        modifies this`nodes, this`next, slots
      {
        AllocateBehind(first, first + i);
      }
    }

    // The n cells from start to finish constructed, node by node.
    method FillInitialize(n: nat, x: int)
      requires Unfilled(n)
      modifies this`nodes, this`contents
      ensures Valid() && contents == Repeat(n, x)
    {
      hide Part, Row, Holds, Place;
      ghost var lo, hi := start.node, finish.node + 1;
      StartRank();
      PlaceFrom(size, lo, lo, finish);
      RowLength(size, slots[..], lo, hi, nodes, lost, next);
      for cur := start.node to finish.node
        invariant Used(lo, hi)
        invariant Holds(Seen(lo, hi), 0, Repeat((cur - lo) * size, x))
        modifies this`nodes
      {
        Times(cur - lo, size);
        FillNode(lo, hi, cur, size, x);
      }
      PlaceOf(size, lo, finish);
      FillNode(lo, hi, finish.node, finish.cur.offset, x);
      contents := Repeat(n, x);
      Restored(lo, hi);
    }

    // The first count cells of the node at the slot cur constructed.
    method FillNode(ghost lo: int, ghost hi: int, cur: int, count: int, x: int)
      requires Used(lo, hi) && 0 <= lo <= cur < hi <= slots.Length && 0 <= count <= size
      requires Holds(Seen(lo, hi), 0, Repeat((cur - lo) * size, x))
      modifies this`nodes
      ensures Used(lo, hi) && Holds(Seen(lo, hi), 0, Repeat((cur - lo) * size + count, x))
    {
      hide Part, Row, Holds;
      ghost var base := (cur - lo) * size;
      Times(cur - lo, size);
      for j := 0 to count
        invariant Used(lo, hi) && Holds(Seen(lo, hi), 0, Repeat(base + j, x))
      {
        var it := Iterator(Pointer(slots[cur], j), slots[cur], cur);
        ghost var c := Seen(lo, hi);
        SetCell(lo, hi, it, Full(x));
        HoldsPut(c, 0, Repeat(base + j, x), x);
      }
    }

    // ----- the map of nodes -----

    // The pointers in the slots lo .. hi moved to the middle of the map, or to a larger map.
    method MoveSlots(lo: nat, hi: nat, toAdd: nat, atFront: bool) returns (newStart: nat)
      requires lo < hi <= slots.Length
      modifies this`slots, slots
      ensures slots.Length == MapSize(old(slots.Length), hi - lo, toAdd)
      ensures if slots.Length == old(slots.Length) then slots == old(slots) else fresh(slots)
      ensures newStart == MapStart(slots.Length, hi - lo, toAdd, atFront) && newStart + (hi - lo) <= slots.Length
      ensures slots[newStart..newStart + (hi - lo)] == old(slots[lo..hi])
      ensures if atFront then newStart >= toAdd else slots.Length - (newStart + (hi - lo)) >= toAdd
    {
      hide Written, MapStart;
      ghost var m := slots[..];
      MapRoom(slots.Length, hi - lo, toAdd, atFront);
      var newNodes := hi - lo + toAdd;
      if slots.Length > 2 * newNodes {
        newStart := MapStart(slots.Length, hi - lo, toAdd, atFront);
        SlideSlots(lo, hi, newStart);
      } else {
        var newSize := slots.Length + (if slots.Length < toAdd then toAdd else slots.Length) + 2;
        var newMap := new Ref[newSize];
        newStart := MapStart(newSize, hi - lo, toAdd, atFront);
        ghost var raw := newMap[..];
        Copy(slots, lo, hi, newMap, newStart);
        slots := newMap;
        WrittenPart(raw, newStart, m[lo..hi]);
      }
    }

    method SlideSlots(lo: nat, hi: nat, newStart: nat)
      requires lo < hi <= slots.Length && newStart + (hi - lo) <= slots.Length
      modifies slots
      ensures slots[newStart..newStart + (hi - lo)] == old(slots[lo..hi])
    {
      hide Written;
      ghost var m := slots[..];
      if newStart < lo {
        Copy(slots, lo, hi, slots, newStart);
      } else {
        CopyBackward(slots, lo, hi, slots, newStart + (hi - lo));
      }
      WrittenPart(m, newStart, m[lo..hi]);
    }

    method ReallocateMap(toAdd: nat, atFront: bool)
      requires Valid()
      modifies this`slots, this`start, this`finish, slots
      ensures Valid()
      ensures slots.Length == MapSize(old(slots.Length), old(finish.node - start.node + 1), toAdd)
      ensures if slots.Length == old(slots.Length) then slots == old(slots) else fresh(slots)
      ensures start.node == MapStart(slots.Length, old(finish.node - start.node + 1), toAdd, atFront)
      ensures slots[start.node..finish.node + 1] == old(slots[start.node..finish.node + 1])
      ensures start.cur == old(start.cur) && finish.cur == old(finish.cur)
      ensures finish.node - start.node == old(finish.node - start.node)
      ensures if atFront then start.node >= toAdd else slots.Length - finish.node >= toAdd + 1
    {
      hide Part, Row, Holds, Place, MapSize, MapStart;
      MapRoom(slots.Length, finish.node - start.node + 1, toAdd, atFront);
      ghost var m := slots[..];
      var lo, hi := start.node, finish.node + 1;
      assert 0 <= lo <= start.node < hi <= |m|;
      var newStart := MoveSlots(lo, hi, toAdd, atFront);
      WideMoved(size, m, lo, hi, nodes, lost, next, start, finish, contents, slots[..], newStart);
      start := SetNode(slots[..], start, newStart);
      finish := SetNode(slots[..], finish, newStart + (hi - lo) - 1);
    }

    method ReserveMapAtBack(toAdd: nat)
      requires Valid()
      modifies this`slots, this`start, this`finish, slots
      ensures Valid() && MapMade(toAdd, false)
      ensures start.cur == old(start.cur) && finish.cur == old(finish.cur)
      ensures finish.node - start.node == old(finish.node - start.node)
      ensures finish.node + toAdd < slots.Length
    {
      if toAdd + 1 > slots.Length - finish.node { ReallocateMap(toAdd, false); }
    }

    method ReserveMapAtFront(toAdd: nat)
      requires Valid()
      modifies this`slots, this`start, this`finish, slots
      ensures Valid() && MapMade(toAdd, true)
      ensures start.cur == old(start.cur) && finish.cur == old(finish.cur)
      ensures finish.node - start.node == old(finish.node - start.node)
      ensures start.node >= toAdd
    {
      if toAdd > start.node { ReallocateMap(toAdd, true); }
    }

    // *slot = allocate_node() for the slot just behind the used ones
    method AllocateBehind(ghost lo: int, hi: int)
      requires ValidIn(lo, hi) && hi < slots.Length
      modifies this`nodes, this`next, slots
      ensures ValidIn(lo, hi + 1)
    {
      hide Wide;
      ghost var m := slots[..];
      WideBounds(size, m, lo, hi, nodes, lost, next, start, finish, contents);
      WideGrowBehind(size, m, lo, hi, nodes, lost, next, start, finish, contents);
      slots[hi] := next;
      assert slots[..] == m[hi := next];
      nodes := nodes[next := Repeat(size, Raw)];
      next := next + 1;
    }

    // and for the slot just in front of them
    method AllocateInFront(lo: int, ghost hi: int)
      requires ValidIn(lo, hi) && lo > 0
      modifies this`nodes, this`next, slots
      ensures ValidIn(lo - 1, hi)
    {
      hide Wide;
      ghost var m := slots[..];
      WideBounds(size, m, lo, hi, nodes, lost, next, start, finish, contents);
      WideGrowInFront(size, m, lo, hi, nodes, lost, next, start, finish, contents);
      slots[lo - 1] := next;
      assert slots[..] == m[lo - 1 := next];
      nodes := nodes[next := Repeat(size, Raw)];
      next := next + 1;
    }

    // ----- both ends -----

    method PushBack(x: int)
      requires Valid()
      modifies this, slots
      ensures Valid() && GrownBehind(1)
      ensures contents == old(contents) + [x] && lost == old(lost)
    {
      hide Wide;
      WideBounds(size, slots[..], start.node, finish.node + 1, nodes, lost, next, start, finish, contents);
      if finish.cur != Pointer(finish.first, size - 1) {
        var on := finish.(cur := Pointer(finish.cur.block, finish.cur.offset + 1));
        WidePushBack(size, slots[..], start.node, finish.node + 1, nodes, lost, next, start, finish, contents, x, on);
        nodes := Put(nodes, finish, Full(x));
        finish := on;
        contents := contents + [x];
      } else {
        PushBackAux(x);
      }
    }

    method PushBackAux(x: int)
      requires Valid() && finish.cur == Pointer(finish.first, size - 1)
      modifies this, slots
      ensures Valid() && GrownBehind(1)
      ensures contents == old(contents) + [x] && lost == old(lost)
    {
      hide Wide, Place, MapAfter, NodesBehind;
      WideBounds(size, slots[..], start.node, finish.node + 1, nodes, lost, next, start, finish, contents);
      NodesForOne(size, size - 1);
      ReserveMapAtBack(1);
      AllocateBehind(start.node, finish.node + 1);
      WideBounds(size, slots[..], start.node, finish.node + 2, nodes, lost, next, start, finish, contents);
      var on := SetNode(slots[..], finish, finish.node + 1);
      on := on.(cur := Pointer(on.first, 0));
      assert on == Next(size, slots[..], finish);
      EndOfNode(size, start.node, finish.node + 2, finish);
      NextMoves(size, slots[..], start.node, finish.node + 2, finish);
      WidePushBack(size, slots[..], start.node, finish.node + 2, nodes, lost, next, start, finish, contents, x, on);
      nodes := Put(nodes, finish, Full(x));
      finish := on;
      contents := contents + [x];
    }

    method PushFront(x: int)
      requires Valid()
      modifies this, slots
      ensures Valid() && GrownInFront(1)
      ensures contents == [x] + old(contents) && lost == old(lost)
    {
      hide Wide;
      WideBounds(size, slots[..], start.node, finish.node + 1, nodes, lost, next, start, finish, contents);
      if start.cur != Pointer(start.first, 0) {
        var back := start.(cur := Pointer(start.cur.block, start.cur.offset - 1));
        WidePushFront(size, slots[..], start.node, finish.node + 1, nodes, lost, next, start, finish, contents, x,
                      back);
        nodes := Put(nodes, back, Full(x));
        start := back;
        contents := [x] + contents;
      } else {
        PushFrontAux(x);
      }
    }

    method PushFrontAux(x: int)
      requires Valid() && start.cur == Pointer(start.first, 0)
      modifies this, slots
      ensures Valid() && GrownInFront(1)
      ensures contents == [x] + old(contents) && lost == old(lost)
    {
      hide Wide, MapAfter, NodesInFront;
      WideBounds(size, slots[..], start.node, finish.node + 1, nodes, lost, next, start, finish, contents);
      NodesForOne(size, 0);
      ReserveMapAtFront(1);
      AllocateInFront(start.node, finish.node + 1);
      WideBounds(size, slots[..], start.node - 1, finish.node + 1, nodes, lost, next, start, finish, contents);
      var back := SetNode(slots[..], start, start.node - 1);
      back := back.(cur := Pointer(back.first, size - 1));
      assert back == Previous(size, slots[..], start);
      PreviousMoves(size, slots[..], start.node - 1, finish.node + 1, start);
      WidePushFront(size, slots[..], start.node - 1, finish.node + 1, nodes, lost, next, start, finish, contents, x,
                    back);
      start := back;
      nodes := Put(nodes, start, Full(x));
      contents := [x] + contents;
    }

    method PopBack()
      requires Valid() && contents != []
      modifies this`nodes, this`finish, this`contents
      ensures Valid()
      ensures contents == old(contents[..|contents| - 1])
    {
      hide Wide;
      WideBounds(size, slots[..], start.node, finish.node + 1, nodes, lost, next, start, finish, contents);
      if finish.cur != Pointer(finish.first, 0) {
        var back := finish.(cur := Pointer(finish.cur.block, finish.cur.offset - 1));
        WidePopBack(size, slots[..], start.node, finish.node + 1, nodes, lost, next, start, finish, contents, back);
        finish := back;
        nodes := Put(nodes, finish, Raw);
        contents := contents[..|contents| - 1];
      } else {
        PopBackAux();
      }
    }

    method PopBackAux()
      requires Valid() && contents != [] && finish.cur == Pointer(finish.first, 0)
      modifies this`nodes, this`finish, this`contents
      ensures Valid()
      ensures contents == old(contents[..|contents| - 1])
    {
      hide Wide;
      ghost var m, lo, hi, all, was := slots[..], start.node, finish.node + 1, nodes, contents;
      WideBounds(size, m, lo, hi, nodes, lost, next, start, finish, contents);
      PreviousMoves(size, m, lo, hi, finish);
      ghost var back := Previous(size, m, finish);
      WidePopBack(size, m, lo, hi, all, lost, next, start, finish, was, back);
      WideNodes(size, m, lo, hi, all, lost, next, start, finish, was);
      WideShrinkBehind(size, m, lo, hi, Put(all, back, Raw), lost, next, start, back, was[..|was| - 1]);
      nodes := nodes - {finish.first};
      finish := SetNode(slots[..], finish, finish.node - 1);
      finish := finish.(cur := Pointer(finish.first, size - 1));
      assert finish == back;
      nodes := Put(nodes, finish, Raw);
      assert nodes == Put(all, back, Raw) - {m[hi - 1]};
      contents := contents[..|contents| - 1];
    }

    method PopFront()
      requires Valid() && contents != []
      modifies this`nodes, this`start, this`contents
      ensures Valid()
      ensures contents == old(contents[1..])
    {
      hide Wide;
      WideBounds(size, slots[..], start.node, finish.node + 1, nodes, lost, next, start, finish, contents);
      if start.cur != Pointer(start.first, size - 1) {
        var on := start.(cur := Pointer(start.cur.block, start.cur.offset + 1));
        WidePopFront(size, slots[..], start.node, finish.node + 1, nodes, lost, next, start, finish, contents, on);
        nodes := Put(nodes, start, Raw);
        start := on;
        contents := contents[1..];
      } else {
        PopFrontAux();
      }
    }

    method PopFrontAux()
      requires Valid() && contents != [] && start.cur == Pointer(start.first, size - 1)
      modifies this`nodes, this`start, this`contents
      ensures Valid()
      ensures contents == old(contents[1..])
    {
      hide Wide;
      ghost var m, lo, hi, was := slots[..], start.node, finish.node + 1, contents;
      WideBounds(size, m, lo, hi, nodes, lost, next, start, finish, contents);
      NextMoves(size, m, lo, hi, start);
      ghost var on := Next(size, m, start);
      WidePopFront(size, m, lo, hi, nodes, lost, next, start, finish, was, on);
      nodes := Put(nodes, start, Raw);
      assert finish.node > lo;
      WideShrinkInFront(size, m, lo, hi, nodes, lost, next, on, finish, was[1..]);
      nodes := nodes - {start.first};
      start := SetNode(slots[..], start, start.node + 1);
      start := start.(cur := Pointer(start.first, 0));
      assert start == on;
      contents := contents[1..];
    }

    // ----- room for several elements -----

    method NewElementsAtFront(count: nat)
      requires Valid()
      modifies this`slots, this`start, this`finish, this`nodes, this`next, slots
      ensures size > 0 && ValidIn(start.node - (count + size - 1) / size, finish.node + 1)
      ensures MapMade((count + size - 1) / size, true)
      ensures start.cur == old(start.cur) && finish.cur == old(finish.cur)
      ensures finish.node - start.node == old(finish.node - start.node)
    {
      hide Wide;
      WideBounds(size, slots[..], start.node, finish.node + 1, nodes, lost, next, start, finish, contents);
      var newNodes := (count + size - 1) / size;
      ReserveMapAtFront(newNodes);
      for i := 0 to newNodes
        invariant ValidIn(start.node - i, finish.node + 1)
        modifies this`nodes, this`next, slots
      {
        AllocateInFront(start.node - i, finish.node + 1);
      }
    }

    method NewElementsAtBack(count: nat)
      requires Valid()
      modifies this`slots, this`start, this`finish, this`nodes, this`next, slots
      ensures size > 0 && ValidIn(start.node, finish.node + 1 + (count + size - 1) / size)
      ensures MapMade((count + size - 1) / size, false)
      ensures start.cur == old(start.cur) && finish.cur == old(finish.cur)
      ensures finish.node - start.node == old(finish.node - start.node)
    {
      hide Wide;
      WideBounds(size, slots[..], start.node, finish.node + 1, nodes, lost, next, start, finish, contents);
      var newNodes := (count + size - 1) / size;
      ReserveMapAtBack(newNodes);
      for i := 0 to newNodes
        invariant ValidIn(start.node, finish.node + 1 + i)
        modifies this`nodes, this`next, slots
      {
        AllocateBehind(start.node, finish.node + 1 + i);
      }
    }

    // Room for n elements in front of start: just the nodes that this takes.
    method ReserveElementsAtFront(n: nat) returns (newStart: Iterator)
      requires Valid()
      modifies this`slots, this`start, this`finish, this`nodes, this`next, slots
      ensures GrownInFront(n)
      ensures ValidIn(newStart.node, finish.node + 1) && On(newStart.node, finish.node + 1, newStart)
      ensures Rank(newStart.node, newStart) + n == Rank(newStart.node, start)
      ensures start.cur == old(start.cur) && finish.cur == old(finish.cur)
    {
      hide Wide, Place, Plus;
      WideBounds(size, slots[..], start.node, finish.node + 1, nodes, lost, next, start, finish, contents);
      ghost var lo := start.node;
      if n > start.cur.offset {
        NewElementsAtFront(n - start.cur.offset);
        lo := start.node - (n - start.cur.offset + size - 1) / size;
      } else {
        lo := start.node;
      }
      RoomInFront(size, lo, start, n);
      WideBounds(size, slots[..], lo, finish.node + 1, nodes, lost, next, start, finish, contents);
      var shift: int := 0 - n;
      PlusMoves(size, slots[..], lo, finish.node + 1, start, shift);
      newStart := Plus(size, slots[..], start, shift);
      FirstNode(size, lo, newStart);
    }

    method ReserveElementsAtBack(n: nat) returns (newFinish: Iterator)
      requires Valid()
      modifies this`slots, this`start, this`finish, this`nodes, this`next, slots
      ensures GrownBehind(n)
      ensures ValidIn(start.node, newFinish.node + 1) && On(start.node, newFinish.node + 1, newFinish)
      ensures Rank(start.node, newFinish) == Rank(start.node, finish) + n
      ensures start.cur == old(start.cur) && finish.cur == old(finish.cur)
    {
      hide Wide;
      WideBounds(size, slots[..], start.node, finish.node + 1, nodes, lost, next, start, finish, contents);
      ghost var hi := finish.node + 1;
      var vacancies := size - finish.cur.offset - 1;
      if n > vacancies {
        NewElementsAtBack(n - vacancies);
        hi := finish.node + 1 + (n - vacancies + size - 1) / size;
      } else {
        hi := finish.node + 1;
      }
      RoomBehind(size, start.node, finish, n, hi);
      WideBounds(size, slots[..], start.node, hi, nodes, lost, next, start, finish, contents);
      PlusMoves(size, slots[..], start.node, hi, finish, n);
      newFinish := Plus(size, slots[..], finish, n);
      LastNode(size, start.node, hi, newFinish);
    }

    // ----- moving elements -----

    // *it = x, which constructs or destroys the element when v or the old cell is raw.
    method SetCell(ghost lo: int, ghost hi: int, it: Iterator, v: Cell)
      requires Used(lo, hi) && On(lo, hi, it)
      modifies this`nodes
      ensures Used(lo, hi) && 0 <= Rank(lo, it) < |old(Seen(lo, hi))|
      ensures Seen(lo, hi) == old(Seen(lo, hi))[Rank(lo, it) := v]
    {
      hide Part, Row, Placed, Place;
      RowPut(size, slots[..], lo, hi, nodes, lost, next, it, v);
      nodes := Put(nodes, it, v);
    }

    method GetCell(ghost lo: int, ghost hi: int, it: Iterator) returns (v: Cell)
      requires Used(lo, hi) && On(lo, hi, it)
      ensures 0 <= Rank(lo, it) < |Seen(lo, hi)| && v == Seen(lo, hi)[Rank(lo, it)]
    {
      hide Part, Row, Placed, Place;
      RowPut(size, slots[..], lo, hi, nodes, lost, next, it, Raw);
      v := Deref(nodes, it);
    }

    // copy, to the left
    method CopyElements(ghost lo: int, ghost hi: int, first: Iterator, last: Iterator, result: Iterator)
      requires Used(lo, hi) && On(lo, hi, first) && On(lo, hi, last) && On(lo, hi, result)
      requires Rank(lo, result) <= Rank(lo, first) <= Rank(lo, last)
      requires Constructed(Seen(lo, hi), Rank(lo, result), Rank(lo, last))
      modifies this`nodes
      ensures Used(lo, hi) && Moved(old(Seen(lo, hi)), Rank(lo, first), Rank(lo, last), Rank(lo, result), Seen(lo, hi))
    {
      hide Part, Row, Placed, Place, Written;
      ghost var c0 := Seen(lo, hi);
      RowLength(size, slots[..], lo, hi, nodes, lost, next);
      Ranks(lo, hi, first);
      Ranks(lo, hi, last);
      Ranks(lo, hi, result);
      DifferenceIsPlaces(size, lo, last, first);
      var f, r := first, result;
      var n: nat := Difference(size, last, first);
      ghost var p, q := Rank(lo, first), Rank(lo, result);
      WrittenNone(c0, q, c0[p..p]);
      for i := 0 to n
        invariant Used(lo, hi) && On(lo, hi, f) && On(lo, hi, r)
        invariant Rank(lo, f) == p + i && Rank(lo, r) == q + i
        invariant Seen(lo, hi) == Written(c0, q, c0[p..p + i])
      {
        CopyStep(c0, p, q, i, n, Seen(lo, hi));
        var v := GetCell(lo, hi, f);
        assert v.Full?;
        SetCell(lo, hi, r, v);
        NextMoves(size, slots[..], lo, hi, f);
        NextMoves(size, slots[..], lo, hi, r);
        f := Next(size, slots[..], f);
        r := Next(size, slots[..], r);
      }
    }

    // copy_backward, to the right
    method CopyElementsBackward(ghost lo: int, ghost hi: int, first: Iterator, last: Iterator, result: Iterator)
      requires Used(lo, hi) && On(lo, hi, first) && On(lo, hi, last) && On(lo, hi, result)
      requires Rank(lo, first) <= Rank(lo, last) <= Rank(lo, result)
      requires Constructed(Seen(lo, hi), Rank(lo, first), Rank(lo, result))
      modifies this`nodes
      ensures Used(lo, hi)
      ensures Moved(old(Seen(lo, hi)), Rank(lo, first), Rank(lo, last),
                    Rank(lo, result) - (Rank(lo, last) - Rank(lo, first)), Seen(lo, hi))
    {
      hide Part, Row, Placed, Place, Written;
      ghost var c0 := Seen(lo, hi);
      Ranks(lo, hi, first);
      Ranks(lo, hi, last);
      Ranks(lo, hi, result);
      DifferenceIsPlaces(size, lo, last, first);
      var l, r := last, result;
      var n: nat := Difference(size, last, first);
      ghost var p, q := Rank(lo, last), Rank(lo, result);
      WrittenNone(c0, q, c0[p..p]);
      for i := 0 to n
        invariant Used(lo, hi) && On(lo, hi, l) && On(lo, hi, r)
        invariant Rank(lo, l) == p - i && Rank(lo, r) == q - i
        invariant Seen(lo, hi) == Written(c0, q - i, c0[p - i..p])
      {
        CopyBackStep(c0, p, q, i, Seen(lo, hi));
        PreviousMoves(size, slots[..], lo, hi, l);
        PreviousMoves(size, slots[..], lo, hi, r);
        l := Previous(size, slots[..], l);
        r := Previous(size, slots[..], r);
        var v := GetCell(lo, hi, l);
        assert v.Full?;
        SetCell(lo, hi, r, v);
      }
    }

    // construct(cur, *f), and both on to the next cell
    method CopyCell(ghost lo: int, ghost hi: int, f0: Iterator, cur0: Iterator) returns (f: Iterator, cur: Iterator)
      requires Used(lo, hi) && On(lo, hi, f0) && On(lo, hi, cur0)
      requires 0 <= Rank(lo, f0) && Rank(lo, f0) + 1 < |Seen(lo, hi)| && Seen(lo, hi)[Rank(lo, f0)].Full?
      requires 0 <= Rank(lo, cur0) && Rank(lo, cur0) + 1 < |Seen(lo, hi)| && Seen(lo, hi)[Rank(lo, cur0)].Raw?
      modifies this`nodes
      ensures Used(lo, hi) && Seen(lo, hi) == old(Seen(lo, hi))[Rank(lo, cur0) := old(Seen(lo, hi))[Rank(lo, f0)]]
      ensures On(lo, hi, f) && On(lo, hi, cur)
      ensures Rank(lo, f) == Rank(lo, f0) + 1 && Rank(lo, cur) == Rank(lo, cur0) + 1
    {
      hide Part, Row, Placed, Place, Next;
      RowLength(size, slots[..], lo, hi, nodes, lost, next);
      Ranks(lo, hi, f0);
      var v := GetCell(lo, hi, f0);
      ghost var before := GetCell(lo, hi, cur0);
      assert v.Full? && before.Raw?;
      SetCell(lo, hi, cur0, v);
      NextMoves(size, slots[..], lo, hi, f0);
      NextMoves(size, slots[..], lo, hi, cur0);
      f := Next(size, slots[..], f0);
      cur := Next(size, slots[..], cur0);
    }

    // uninitialized_copy, to cells apart from those copied
    method UninitializedCopy(ghost lo: int, ghost hi: int, first: Iterator, last: Iterator,
                             result: Iterator) returns (cur: Iterator)
      requires Used(lo, hi) && On(lo, hi, first) && On(lo, hi, last) && On(lo, hi, result)
      requires Rank(lo, first) <= Rank(lo, last)
      requires Constructed(Seen(lo, hi), Rank(lo, first), Rank(lo, last))
      requires Rank(lo, result) + (Rank(lo, last) - Rank(lo, first)) < |Seen(lo, hi)|
      requires Empty(Seen(lo, hi), Rank(lo, result), Rank(lo, result) + (Rank(lo, last) - Rank(lo, first)))
      modifies this`nodes
      ensures Used(lo, hi) && Moved(old(Seen(lo, hi)), Rank(lo, first), Rank(lo, last), Rank(lo, result), Seen(lo, hi))
      ensures On(lo, hi, cur) && Rank(lo, cur) == Rank(lo, result) + (Rank(lo, last) - Rank(lo, first))
    {
      hide Part, Row, Placed, Place, Written;
      ghost var c0 := Seen(lo, hi);
      RowLength(size, slots[..], lo, hi, nodes, lost, next);
      Ranks(lo, hi, first);
      Ranks(lo, hi, last);
      Ranks(lo, hi, result);
      ghost var p, q, n := Rank(lo, first), Rank(lo, result), Rank(lo, last) - Rank(lo, first);
      Apart(c0, p, q, n);
      WrittenNone(c0, q, c0[p..p]);
      hide Constructed, Empty, Next;
      var f := first;
      cur := result;
      ghost var i: nat := 0;
      SameCell(lo, hi, f, last);
      while f.cur != last.cur
        invariant i <= n
        invariant f.cur == last.cur <==> i == n
        invariant Used(lo, hi) && On(lo, hi, f) && On(lo, hi, cur)
        invariant Rank(lo, f) == p + i && Rank(lo, cur) == q + i
        invariant Seen(lo, hi) == Written(c0, q, c0[p..p + i])
        decreases n - i
      {
        CopyStep(c0, p, q, i, n, Seen(lo, hi));
        CellsReady(c0, p, q, i, n);
        f, cur := CopyCell(lo, hi, f, cur);
        i := i + 1;
        SameCell(lo, hi, f, last);
      }
    }

    lemma SameCell(lo: int, hi: int, a: Iterator, b: Iterator)
      requires Used(lo, hi) && On(lo, hi, a) && On(lo, hi, b)
      ensures a.cur == b.cur <==> Rank(lo, a) == Rank(lo, b)
      ensures a.cur == b.cur <==> a == b
    {
      ghost var q := slots[lo..hi];
      forall i, j | lo <= i < j < hi ensures slots[i] != slots[j] {
        assert q[i - lo] != q[j - lo];
      }
      SamePlace(size, slots[..], lo, hi, a, b);
    }

    // fill, uninitialized_fill and destroy: every cell from first to last set
    method SetCells(ghost lo: int, ghost hi: int, first: Iterator, last: Iterator, v: Cell)
      requires Used(lo, hi) && On(lo, hi, first) && On(lo, hi, last)
      requires Rank(lo, first) <= Rank(lo, last)
      modifies this`nodes
      ensures Used(lo, hi) && Filled(old(Seen(lo, hi)), Rank(lo, first), Rank(lo, last), v, Seen(lo, hi))
    {
      hide Part, Row, Placed, Place, Written;
      ghost var c0 := Seen(lo, hi);
      RowLength(size, slots[..], lo, hi, nodes, lost, next);
      Ranks(lo, hi, first);
      Ranks(lo, hi, last);
      ghost var p, n := Rank(lo, first), Rank(lo, last) - Rank(lo, first);
      WrittenNone(c0, p, Repeat(0, v));
      var f := first;
      ghost var i: nat := 0;
      SameCell(lo, hi, f, last);
      while f.cur != last.cur
        invariant i <= n
        invariant f.cur == last.cur <==> i == n
        invariant Used(lo, hi) && On(lo, hi, f)
        invariant Rank(lo, f) == p + i
        invariant Seen(lo, hi) == Written(c0, p, Repeat(i, v))
        decreases n - i
      {
        FillStep(c0, p, i, v, Seen(lo, hi));
        SetCell(lo, hi, f, v);
        NextMoves(size, slots[..], lo, hi, f);
        f := Next(size, slots[..], f);
        i := i + 1;
        SameCell(lo, hi, f, last);
      }
    }

    method Fill(ghost lo: int, ghost hi: int, first: Iterator, last: Iterator, x: int)
      requires Used(lo, hi) && On(lo, hi, first) && On(lo, hi, last)
      requires Rank(lo, first) <= Rank(lo, last)
      requires Constructed(Seen(lo, hi), Rank(lo, first), Rank(lo, last))
      modifies this`nodes
      ensures Used(lo, hi) && Filled(old(Seen(lo, hi)), Rank(lo, first), Rank(lo, last), Full(x), Seen(lo, hi))
    {
      SetCells(lo, hi, first, last, Full(x));
    }

    method UninitializedFill(ghost lo: int, ghost hi: int, first: Iterator, last: Iterator, x: int)
      requires Used(lo, hi) && On(lo, hi, first) && On(lo, hi, last)
      requires Rank(lo, first) <= Rank(lo, last)
      requires Empty(Seen(lo, hi), Rank(lo, first), Rank(lo, last))
      modifies this`nodes
      ensures Used(lo, hi) && Filled(old(Seen(lo, hi)), Rank(lo, first), Rank(lo, last), Full(x), Seen(lo, hi))
    {
      SetCells(lo, hi, first, last, Full(x));
    }

    method Destroy(ghost lo: int, ghost hi: int, first: Iterator, last: Iterator)
      requires Used(lo, hi) && On(lo, hi, first) && On(lo, hi, last)
      requires Rank(lo, first) <= Rank(lo, last)
      requires Constructed(Seen(lo, hi), Rank(lo, first), Rank(lo, last))
      modifies this`nodes
      ensures Used(lo, hi) && Filled(old(Seen(lo, hi)), Rank(lo, first), Rank(lo, last), Raw, Seen(lo, hi))
    {
      SetCells(lo, hi, first, last, Raw);
    }

    lemma Ranks(lo: int, hi: int, it: Iterator)
      requires Used(lo, hi) && On(lo, hi, it)
      ensures size > 0 && 0 <= Rank(lo, it) < |Seen(lo, hi)|
    {
      hide Part, Row, Placed, Place;
      RowPut(size, slots[..], lo, hi, nodes, lost, next, it, Raw);
      RowLength(size, slots[..], lo, hi, nodes, lost, next);
    }

    lemma Facts(lo: int, hi: int)
      requires ValidIn(lo, hi)
      ensures size > 0 && Used(lo, hi) && On(lo, hi, start) && On(lo, hi, finish)
      ensures Rank(lo, finish) == Rank(lo, start) + |contents|
      ensures Holds(Seen(lo, hi), Rank(lo, start), contents)
      ensures |Seen(lo, hi)| == (hi - lo) * size
      ensures 0 <= Rank(lo, start) && Rank(lo, finish) < (hi - lo) * size
      ensures 0 <= lo <= start.node < hi <= slots.Length && lo <= finish.node < hi
    {
      WideBounds(size, slots[..], lo, hi, nodes, lost, next, start, finish, contents);
      RowLength(size, slots[..], lo, hi, nodes, lost, next);
    }

    lemma Restored(lo: int, hi: int)
      requires Used(lo, hi) && On(lo, hi, start) && On(lo, hi, finish)
      requires Rank(lo, finish) == Rank(lo, start) + |contents|
      requires Holds(Seen(lo, hi), Rank(lo, start), contents)
      ensures ValidIn(lo, hi)
    {
    }

    // ----- positions -----

    ghost function IndexOf(it: Iterator): int
      reads this
    {
      Rank(start.node, it) - start.cur.offset
    }

    ghost predicate IsPosition(it: Iterator)
      reads this, slots
    {
      On(start.node, finish.node + 1, it) && 0 <= IndexOf(it) <= |contents|
    }

    // start + i
    method Position(i: nat) returns (it: Iterator)
      requires Valid() && i <= |contents|
      ensures IsPosition(it) && IndexOf(it) == i
    {
      hide Wide, Part, Row, Holds;
      Facts(start.node, finish.node + 1);
      PlusMoves(size, slots[..], start.node, finish.node + 1, start, i);
      it := Plus(size, slots[..], start, i);
    }

    method Size() returns (n: nat)
      requires Valid()
      ensures n == |contents|
    {
      hide Wide, Part, Row, Holds;
      Facts(start.node, finish.node + 1);
      DifferenceIsPlaces(size, start.node, finish, start);
      n := Difference(size, finish, start);
    }

    method At(i: nat) returns (x: int)
      requires Valid() && i < |contents|
      ensures x == contents[i]
    {
      hide Wide;
      var it := Position(i);
      Elements(it, i);
      x := Deref(nodes, it).value;
    }

    ghost function Cells0(): seq<Cell>
      requires Valid()
      reads this, slots
    {
      Facts(start.node, finish.node + 1);
      Seen(start.node, finish.node + 1)
    }

    lemma StartRank()
      ensures Rank(start.node, start) == start.cur.offset
    {
    }

    // ----- moving elements between positions -----

    method CopyWithin(first: Iterator, last: Iterator, result: Iterator)
      requires Valid() && IsPosition(first) && IsPosition(last) && IsPosition(result)
      requires IndexOf(result) <= IndexOf(first) <= IndexOf(last)
      modifies this`nodes, this`contents
      ensures Valid()
      ensures contents == Written(old(contents), IndexOf(result), old(contents)[IndexOf(first)..IndexOf(last)])
    {
      hide Wide, Part, Row, Holds, Placed, Place, Written, Moved;
      ghost var lo, hi, v, a, c0 := start.node, finish.node + 1, contents, start.cur.offset, Cells0();
      Facts(lo, hi);
      StartRank();
      ghost var f, l, r := IndexOf(first), IndexOf(last), IndexOf(result);
      MiddleConstructed(c0, a, v, r, l);
      CopyElements(lo, hi, first, last, result);
      MovedHolds(c0, a, v, a + f, a + l, a + r, Seen(lo, hi));
      contents := Written(v, r, v[f..l]);
      WrittenLength(v, r, v[f..l]);
      Restored(lo, hi);
    }

    method CopyBackwardWithin(first: Iterator, last: Iterator, result: Iterator)
      requires Valid() && IsPosition(first) && IsPosition(last) && IsPosition(result)
      requires IndexOf(first) <= IndexOf(last) <= IndexOf(result)
      modifies this`nodes, this`contents
      ensures Valid()
      ensures contents == Written(old(contents), IndexOf(result) - (IndexOf(last) - IndexOf(first)),
                                  old(contents)[IndexOf(first)..IndexOf(last)])
    {
      hide Wide, Part, Row, Holds, Placed, Place, Written, Moved;
      ghost var lo, hi, v, a, c0 := start.node, finish.node + 1, contents, start.cur.offset, Cells0();
      Facts(lo, hi);
      StartRank();
      ghost var f, l, r := IndexOf(first), IndexOf(last), IndexOf(result) - (IndexOf(last) - IndexOf(first));
      MiddleConstructed(c0, a, v, f, IndexOf(result));
      CopyElementsBackward(lo, hi, first, last, result);
      MovedHolds(c0, a, v, a + f, a + l, a + r, Seen(lo, hi));
      contents := Written(v, r, v[f..l]);
      WrittenLength(v, r, v[f..l]);
      Restored(lo, hi);
    }

    method FillWithin(first: Iterator, last: Iterator, x: int)
      requires Valid() && IsPosition(first) && IsPosition(last) && IndexOf(first) <= IndexOf(last)
      modifies this`nodes, this`contents
      ensures Valid()
      ensures contents == Written(old(contents), IndexOf(first), Repeat(IndexOf(last) - IndexOf(first), x))
    {
      hide Wide, Part, Row, Holds, Placed, Place, Written, Filled;
      ghost var lo, hi, v, a, c0 := start.node, finish.node + 1, contents, start.cur.offset, Cells0();
      Facts(lo, hi);
      StartRank();
      ghost var f, l := IndexOf(first), IndexOf(last);
      MiddleConstructed(c0, a, v, f, l);
      Fill(lo, hi, first, last, x);
      FilledHolds(c0, a, v, a + f, a + l, x, Seen(lo, hi));
      contents := Written(v, f, Repeat(l - f, x));
      WrittenLength(v, f, Repeat(l - f, x));
      Restored(lo, hi);
    }

    // ----- erasing -----

    method Erase(pos: Iterator) returns (it: Iterator)
      requires Valid() && IsPosition(pos) && IndexOf(pos) < |contents|
      modifies this`nodes, this`start, this`finish, this`contents
      ensures Valid()
      ensures if old(IndexOf(pos) < |contents| / 2) then finish == old(finish) else start == old(start)
      ensures var i := old(IndexOf(pos)); contents == old(contents)[..i] + old(contents)[i + 1..]
      ensures IsPosition(it) && IndexOf(it) == old(IndexOf(pos))
    {
      hide Wide, Part, Row, Holds, Placed, Place, Written, Moved;
      ghost var lo, hi := start.node, finish.node + 1;
      Facts(lo, hi);
      StartRank();
      NextMoves(size, slots[..], lo, hi, pos);
      var after := Next(size, slots[..], pos);
      DifferenceIsPlaces(size, lo, pos, start);
      var index: nat := Difference(size, pos, start);
      var count := Size();
      WrittenErased(contents, index);
      if index < count / 2 {
        CopyBackwardWithin(start, pos, after);
        PopFront();
      } else {
        CopyWithin(after, finish, pos);
        PopBack();
      }
      it := Position(index);
    }

    // ----- inserting one element -----

    method Front() returns (x: int)
      requires Valid() && contents != []
      ensures x == contents[0]
    {
      hide Wide;
      Facts(start.node, finish.node + 1);
      Elements(start, 0);
      x := Deref(nodes, start).value;
    }

    method Back() returns (x: int)
      requires Valid() && contents != []
      ensures x == contents[|contents| - 1]
    {
      hide Wide, Part, Row, Holds, Placed, Place;
      Facts(start.node, finish.node + 1);
      PreviousMoves(size, slots[..], start.node, finish.node + 1, finish);
      var it := Previous(size, slots[..], finish);
      Elements(it, |contents| - 1);
      x := Deref(nodes, it).value;
    }

    method Insert(pos: Iterator, x: int) returns (it: Iterator)
      requires Valid() && IsPosition(pos)
      modifies this, slots
      ensures Valid() && lost == old(lost)
      ensures if old(IndexOf(pos) == 0 || IndexOf(pos) < |contents| / 2) then GrownInFront(1) else GrownBehind(1)
      ensures var i := old(IndexOf(pos)); contents == old(contents)[..i] + [x] + old(contents)[i..]
      ensures IsPosition(it) && IndexOf(it) == old(IndexOf(pos))
    {
      hide Wide, Part, Row, Holds, Placed, Place;
      Facts(start.node, finish.node + 1);
      SameCell(start.node, finish.node + 1, pos, start);
      SameCell(start.node, finish.node + 1, pos, finish);
      StartRank();
      if pos.cur == start.cur {
        PushFront(x);
        StartRank();
        Facts(start.node, finish.node + 1);
        it := start;
      } else if pos.cur == finish.cur {
        PushBack(x);
        StartRank();
        Facts(start.node, finish.node + 1);
        PreviousMoves(size, slots[..], start.node, finish.node + 1, finish);
        it := Previous(size, slots[..], finish);
      } else {
        it := InsertAux(pos, x);
      }
    }

    method InsertAux(pos: Iterator, x: int) returns (it: Iterator)
      requires Valid() && IsPosition(pos) && 0 < IndexOf(pos) < |contents|
      modifies this, slots
      ensures Valid() && lost == old(lost)
      ensures if old(IndexOf(pos) < |contents| / 2) then GrownInFront(1) else GrownBehind(1)
      ensures var i := old(IndexOf(pos)); contents == old(contents)[..i] + [x] + old(contents)[i..]
      ensures IsPosition(it) && IndexOf(it) == old(IndexOf(pos))
    {
      hide Wide, Part, Row, Holds, Placed, Place;
      ghost var was := contents;
      StartRank();
      DifferenceIsPlaces(size, start.node, pos, start);
      var index: nat := Difference(size, pos, start);
      OpenGap(index);
      it := Position(index);
      ghost var open := contents;
      AssignAt(it, index, x);
      assert contents == open[..index] + [x] + open[index + 1..];
    }

    // One end doubled, and the elements between it and the gap at index moved.
    method OpenGap(index: nat)
      requires Valid() && 0 < index < |contents|
      modifies this, slots
      ensures Valid() && lost == old(lost)
      ensures if index < old(|contents|) / 2 then GrownInFront(1) else GrownBehind(1)
      ensures Opened(old(contents), index, contents)
    {
      hide Wide, Part, Row, Holds, Placed, Place, Written, Opened;
      ghost var was := contents;
      WrittenInserted(was, index);
      var count := Size();
      if index < count / 2 {
        var x0 := Front();
        PushFront(x0);
        ShiftFront(index);
      } else {
        var x0 := Back();
        PushBack(x0);
        ShiftBack(index);
      }
    }

    method ShiftFront(index: nat)
      requires Valid() && 0 < index && index + 1 < |contents|
      modifies this`nodes, this`contents
      ensures Valid() && contents == Written(old(contents), 1, old(contents)[2..index + 1])
    {
      var front1 := Position(1);
      var front2 := Position(2);
      var pos1 := Position(index + 1);
      CopyWithin(front2, pos1, front1);
    }

    method ShiftBack(index: nat)
      requires Valid() && 0 < index && index + 1 < |contents|
      modifies this`nodes, this`contents
      ensures Valid() && contents == Written(old(contents), index + 1, old(contents)[index..|old(contents)| - 2])
    {
      hide Wide, Part, Row, Holds, Placed, Place, Written;
      ghost var lo, hi := start.node, finish.node + 1;
      Facts(lo, hi);
      StartRank();
      PreviousMoves(size, slots[..], lo, hi, finish);
      var back1 := Previous(size, slots[..], finish);
      PreviousMoves(size, slots[..], lo, hi, back1);
      var back2 := Previous(size, slots[..], back1);
      var pos := Position(index);
      CopyBackwardWithin(pos, back2, back1);
    }

    // *it = x
    method AssignAt(it: Iterator, ghost i: nat, x: int)
      requires Valid() && IsPosition(it) && IndexOf(it) == i < |contents|
      modifies this`nodes, this`contents
      ensures Valid() && contents == old(contents)[i := x]
    {
      hide Wide, Part, Row, Placed, Place;
      Facts(start.node, finish.node + 1);
      StartRank();
      SetCell(start.node, finish.node + 1, it, Full(x));
      contents := contents[i := x];
      Restored(start.node, finish.node + 1);
    }

    // ----- inserting n copies -----

    method FillInsert(pos: Iterator, n: nat, x: int)
      requires Valid() && IsPosition(pos)
      modifies this, slots
      ensures Valid() && lost == old(lost)
      ensures if old(IndexOf(pos) == 0 || IndexOf(pos) < |contents| / 2) then GrownInFront(n) else GrownBehind(n)
      ensures var i := old(IndexOf(pos)); contents == old(contents)[..i] + Repeat(n, x) + old(contents)[i..]
    {
      hide Wide, Part, Row, Holds, Placed, Place, Written, Filled;
      Facts(start.node, finish.node + 1);
      SameCell(start.node, finish.node + 1, pos, start);
      SameCell(start.node, finish.node + 1, pos, finish);
      StartRank();
      if pos.cur == start.cur {
        FillFront(n, x);
      } else if pos.cur == finish.cur {
        FillBack(n, x);
      } else {
        FillInsertAux(pos, n, x);
      }
    }

    method FillFront(n: nat, x: int)
      requires Valid()
      modifies this, slots
      ensures Valid() && GrownInFront(n) && lost == old(lost)
      ensures contents == Repeat(n, x) + old(contents)
    {
      hide Wide, Part, Row, Holds, Placed, Place, Written, Filled;
      var newStart := ReserveElementsAtFront(n);
      ghost var lo, hi := newStart.node, finish.node + 1;
      Facts(lo, hi);
      ghost var c0, p := Seen(lo, hi), Rank(lo, start);
      Ranks(lo, hi, newStart);
      RawOutside(c0, p, contents, p - n, p);
      UninitializedFill(lo, hi, newStart, start, x);
      FilledInFront(c0, p, contents, n, x, Seen(lo, hi));
      start := newStart;
      contents := Repeat(n, x) + contents;
      Restored(lo, hi);
    }

    method FillBack(n: nat, x: int)
      requires Valid()
      modifies this, slots
      ensures Valid() && GrownBehind(n) && lost == old(lost)
      ensures contents == old(contents) + Repeat(n, x)
    {
      hide Wide, Part, Row, Holds, Placed, Place, Written, Filled;
      var newFinish := ReserveElementsAtBack(n);
      ghost var lo, hi := start.node, newFinish.node + 1;
      Facts(lo, hi);
      ghost var c0, p := Seen(lo, hi), Rank(lo, start);
      Ranks(lo, hi, newFinish);
      RawOutside(c0, p, contents, p + |contents|, p + |contents| + n);
      UninitializedFill(lo, hi, finish, newFinish, x);
      FilledBehind(c0, p, contents, n, x, Seen(lo, hi));
      finish := newFinish;
      contents := contents + Repeat(n, x);
      Restored(lo, hi);
    }

    method FillInsertAux(pos: Iterator, n: nat, x: int)
      requires Valid() && IsPosition(pos) && 0 < IndexOf(pos) < |contents|
      modifies this, slots
      ensures Valid() && lost == old(lost)
      ensures if old(IndexOf(pos) < |contents| / 2) then GrownInFront(n) else GrownBehind(n)
      ensures var i := old(IndexOf(pos)); contents == old(contents)[..i] + Repeat(n, x) + old(contents)[i..]
    {
      hide Wide, Part, Row, Holds, Placed, Place, Written;
      StartRank();
      DifferenceIsPlaces(size, start.node, pos, start);
      var before: nat := Difference(size, pos, start);
      var length := Size();
      if before < length / 2 {
        var newStart := ReserveElementsAtFront(n);
        if before >= n {
          ShiftInFront(newStart, before, n, x);
        } else {
          SpreadOverFront(newStart, before, n, x);
        }
      } else {
        var newFinish := ReserveElementsAtBack(n);
        if length - before > n {
          ShiftBehind(newFinish, length - before, n, x);
        } else {
          SpreadOverBack(newFinish, length - before, n, x);
        }
      }
    }

    // The first n elements copied to the reserved cells.
    method CopyToFront(newStart: Iterator, n: nat)
      requires ValidIn(newStart.node, finish.node + 1) && On(newStart.node, finish.node + 1, newStart)
      requires Rank(newStart.node, newStart) + n == Rank(newStart.node, start)
      requires n <= |contents|
      modifies this`nodes, this`start, this`contents
      ensures Valid() && start == newStart
      ensures contents == old(contents)[..n] + old(contents)
    {
      hide Wide, Part, Row, Holds, Placed, Place, Written, Filled, Moved;
      ghost var lo, hi, v := newStart.node, finish.node + 1, contents;
      Facts(lo, hi);
      ghost var p, c0 := Rank(lo, start), Seen(lo, hi);
      PlusMoves(size, slots[..], lo, hi, start, n);
      var startN := Plus(size, slots[..], start, n);
      Ranks(lo, hi, newStart);
      RawOutside(c0, p, v, p - n, p);
      MiddleConstructed(c0, p, v, 0, n);
      var _ := UninitializedCopy(lo, hi, start, startN, newStart);
      CopiedInFront(c0, p, v, n, Seen(lo, hi));
      start := newStart;
      contents := v[..n] + v;
      Restored(lo, hi);
    }

    // At least n elements in front of the gap: the first n go to fresh cells.
    method ShiftInFront(newStart: Iterator, before: nat, n: nat, x: int)
      requires ValidIn(newStart.node, finish.node + 1) && On(newStart.node, finish.node + 1, newStart)
      requires Rank(newStart.node, newStart) + n == Rank(newStart.node, start)
      requires n <= before <= |contents|
      modifies this`nodes, this`start, this`contents
      ensures Valid()
      ensures contents == old(contents)[..before] + Repeat(n, x) + old(contents)[before..]
    {
      hide Wide, Part, Row, Holds, Placed, Place, Written;
      ghost var v := contents;
      CopyToFront(newStart, n);
      var oldStart := Position(n);
      var startN := Position(n + n);
      var pos := Position(n + before);
      CopyWithin(startN, pos, oldStart);
      WrittenLength(v[..n] + v, n, (v[..n] + v)[n + n..n + before]);
      var hole := Position(before);
      FillWithin(hole, pos, x);
      WrittenShiftedFront(v, before, n, Repeat(n, x));
    }

    // Fewer than n: all of them go to fresh cells, with copies of x behind them.
    method SpreadOverFront(newStart: Iterator, before: nat, n: nat, x: int)
      requires ValidIn(newStart.node, finish.node + 1) && On(newStart.node, finish.node + 1, newStart)
      requires Rank(newStart.node, newStart) + n == Rank(newStart.node, start)
      requires before < n && before <= |contents|
      modifies this`nodes, this`start, this`contents
      ensures Valid()
      ensures contents == old(contents)[..before] + Repeat(n, x) + old(contents)[before..]
    {
      hide Wide, Part, Row, Holds, Placed, Place, Written;
      ghost var v := contents;
      CopyAndFillFront(newStart, before, n, x);
      var oldStart := Position(n);
      var pos := Position(n + before);
      FillWithin(oldStart, pos, x);
      WrittenSpreadFront(v, before, n, x);
    }

    method CopyAndFillFront(newStart: Iterator, before: nat, n: nat, x: int)
      requires ValidIn(newStart.node, finish.node + 1) && On(newStart.node, finish.node + 1, newStart)
      requires Rank(newStart.node, newStart) + n == Rank(newStart.node, start)
      requires before < n && before <= |contents|
      modifies this`nodes, this`start, this`contents
      ensures Valid() && start == newStart
      ensures contents == old(contents)[..before] + Repeat(n - before, x) + old(contents)
    {
      hide Wide, Part, Row, Holds, Placed, Place, Written, Filled, Moved;
      ghost var lo, hi, v := newStart.node, finish.node + 1, contents;
      Facts(lo, hi);
      ghost var p, c0 := Rank(lo, start), Seen(lo, hi);
      PlusMoves(size, slots[..], lo, hi, start, before);
      var pos := Plus(size, slots[..], start, before);
      Ranks(lo, hi, newStart);
      RawOutside(c0, p, v, p - n, p - n + before);
      MiddleConstructed(c0, p, v, 0, before);
      var mid := UninitializedCopy(lo, hi, start, pos, newStart);
      ghost var c1 := Seen(lo, hi);
      GapInFront(c0, p, v, before, n, c1);
      UninitializedFill(lo, hi, mid, start, x);
      SpreadInFront(c0, p, v, before, n, x, c1, Seen(lo, hi));
      start := newStart;
      contents := v[..before] + Repeat(n - before, x) + v;
      Restored(lo, hi);
    }

    // The last n elements copied to the reserved cells.
    method CopyToBack(newFinish: Iterator, n: nat)
      requires ValidIn(start.node, newFinish.node + 1) && On(start.node, newFinish.node + 1, newFinish)
      requires Rank(start.node, newFinish) == Rank(start.node, finish) + n
      requires n <= |contents|
      modifies this`nodes, this`finish, this`contents
      ensures Valid() && finish == newFinish
      ensures contents == old(contents) + old(contents)[|old(contents)| - n..]
    {
      hide Wide, Part, Row, Holds, Placed, Place, Written, Filled, Moved;
      ghost var lo, hi, v := start.node, newFinish.node + 1, contents;
      Facts(lo, hi);
      ghost var p, c0 := Rank(lo, start), Seen(lo, hi);
      var shift: int := 0 - n;
      PlusMoves(size, slots[..], lo, hi, finish, shift);
      var finishN := Plus(size, slots[..], finish, shift);
      Ranks(lo, hi, newFinish);
      RawOutside(c0, p, v, p + |v|, p + |v| + n);
      MiddleConstructed(c0, p, v, |v| - n, |v|);
      var _ := UninitializedCopy(lo, hi, finishN, finish, finish);
      CopiedBehind(c0, p, v, n, Seen(lo, hi));
      finish := newFinish;
      contents := v + v[|v| - n..];
      Restored(lo, hi);
    }

    // More than n elements behind the gap: the last n go to fresh cells.
    method ShiftBehind(newFinish: Iterator, after: nat, n: nat, x: int)
      requires ValidIn(start.node, newFinish.node + 1) && On(start.node, newFinish.node + 1, newFinish)
      requires Rank(start.node, newFinish) == Rank(start.node, finish) + n
      requires n < after <= |contents|
      modifies this`nodes, this`finish, this`contents
      ensures Valid()
      ensures var i := |old(contents)| - after; contents == old(contents)[..i] + Repeat(n, x) + old(contents)[i..]
    {
      hide Wide, Part, Row, Holds, Placed, Place, Written;
      ghost var v := contents;
      StartRank();
      Facts(start.node, newFinish.node + 1);
      DifferenceIsPlaces(size, start.node, finish, start);
      var length: nat := Difference(size, finish, start);
      var before: nat := length - after;
      CopyToBack(newFinish, n);
      OpenBehind(before, length, n);
      var pos := Position(before);
      var posN := Position(before + n);
      FillWithin(pos, posN, x);
      WrittenShiftedBack(v, before, n, Repeat(n, x));
    }

    method OpenBehind(before: nat, length: nat, n: nat)
      requires Valid() && before + n <= length && |contents| == length + n
      modifies this`nodes, this`contents
      ensures Valid() && |contents| == |old(contents)|
      ensures contents == Written(old(contents), before + n, old(contents)[before..length - n])
    {
      hide Wide, Part, Row, Holds, Placed, Place, Written;
      ghost var v := contents;
      var pos := Position(before);
      var finishN := Position(length - n);
      var oldFinish := Position(length);
      CopyBackwardWithin(pos, finishN, oldFinish);
      WrittenLength(v, before + n, v[before..length - n]);
    }

    // At most n: all of them go to fresh cells, with copies of x in front of them.
    method SpreadOverBack(newFinish: Iterator, after: nat, n: nat, x: int)
      requires ValidIn(start.node, newFinish.node + 1) && On(start.node, newFinish.node + 1, newFinish)
      requires Rank(start.node, newFinish) == Rank(start.node, finish) + n
      requires after <= n && after <= |contents|
      modifies this`nodes, this`finish, this`contents
      ensures Valid()
      ensures var i := |old(contents)| - after; contents == old(contents)[..i] + Repeat(n, x) + old(contents)[i..]
    {
      hide Wide, Part, Row, Holds, Placed, Place, Written;
      ghost var v := contents;
      StartRank();
      Facts(start.node, newFinish.node + 1);
      DifferenceIsPlaces(size, start.node, finish, start);
      var length: nat := Difference(size, finish, start);
      var before: nat := length - after;
      FillAndCopyBack(newFinish, before, n, x);
      var pos := Position(before);
      var oldFinish := Position(length);
      FillWithin(pos, oldFinish, x);
      WrittenSpreadBack(v, before, n, x);
    }

    method FillAndCopyBack(newFinish: Iterator, before: nat, n: nat, x: int)
      requires ValidIn(start.node, newFinish.node + 1) && On(start.node, newFinish.node + 1, newFinish)
      requires Rank(start.node, newFinish) == Rank(start.node, finish) + n
      requires before <= |contents| <= before + n
      modifies this`nodes, this`finish, this`contents
      ensures Valid() && finish == newFinish
      ensures contents == old(contents) + Repeat(before + n - |old(contents)|, x) + old(contents)[before..]
    {
      hide Wide, Part, Row, Holds, Placed, Place, Written, Filled, Moved;
      ghost var lo, hi, v := start.node, newFinish.node + 1, contents;
      Facts(lo, hi);
      ghost var p, c0 := Rank(lo, start), Seen(lo, hi);
      Ranks(lo, hi, newFinish);
      PlusMoves(size, slots[..], lo, hi, start, before);
      var pos := Plus(size, slots[..], start, before);
      PlusMoves(size, slots[..], lo, hi, pos, n);
      var posN := Plus(size, slots[..], pos, n);
      RawOutside(c0, p, v, p + |v|, p + before + n);
      UninitializedFill(lo, hi, finish, posN, x);
      ghost var c1, u := Seen(lo, hi), v + Repeat(before + n - |v|, x);
      SpreadBehind(c0, p, v, before, n, x, c1);
      RawOutside(c1, p, u, p + |u|, p + |v| + n);
      MiddleConstructed(c1, p, u, before, |v|);
      var _ := UninitializedCopy(lo, hi, pos, finish, posN);
      CopiedBehindPart(c1, p, u, before, |v|, Seen(lo, hi));
      assert u[before..|v|] == v[before..];
      finish := newFinish;
      contents := u + v[before..];
      Restored(lo, hi);
    }

    // ----- erasing a range -----

    method DestroyNodes(first: int, last: int)
      requires first < last ==> 0 <= first && last <= slots.Length
      modifies this`nodes
      ensures nodes == old(nodes) - PointedTo(slots[..], first, last)
    {
      var n := first;
      while n < last
        invariant first <= n && (n == first || n <= last)
        invariant nodes == old(nodes) - PointedTo(slots[..], first, n)
      {
        assert PointedTo(slots[..], first, n + 1) == PointedTo(slots[..], first, n) + {slots[n]};
        nodes := nodes - {slots[n]};
        n := n + 1;
      }
      if last <= first { PointedToNothing(slots[..], first, last, old(nodes)); }
    }

    // Near the front the nodes passed over are neither used any more nor given back.
    method EraseRange(first: Iterator, last: Iterator) returns (it: Iterator)
      requires Valid() && IsPosition(first) && IsPosition(last) && IndexOf(first) <= IndexOf(last)
      modifies this`nodes, this`start, this`finish, this`contents, this`lost
      ensures Valid()
      ensures if old(MovesFront(first, last)) then finish == old(finish) else start == old(start)
      ensures var i, j := old(IndexOf(first)), old(IndexOf(last)); contents == old(contents)[..i] + old(contents)[j..]
      ensures IsPosition(it) && IndexOf(it) == old(IndexOf(first))
      ensures lost == old(lost) + PointedTo(slots[..], old(start.node), start.node)
      ensures lost == old(lost) <==> old(LosesNone(first, last))
    {
      hide Wide, Part, Row, Holds, Placed, Place, Written, Filled, PointedTo;
      ghost var lo, hi := start.node, finish.node + 1;
      Facts(lo, hi);
      StartRank();
      SameCell(lo, hi, first, start);
      SameCell(lo, hi, last, finish);
      PointedToNone(slots[..], lo);
      if first.cur == start.cur && last.cur == finish.cur {
        Clear();
        Facts(start.node, finish.node + 1);
        StartRank();
        it := finish;
      } else {
        DifferenceIsPlaces(size, lo, last, first);
        DifferenceIsPlaces(size, lo, first, start);
        var n: nat := Difference(size, last, first);
        var before: nat := Difference(size, first, start);
        var count := Size();
        WrittenRangeErased(contents, before, before + n);
        if before < (count - n) / 2 {
          CopyBackwardWithin(start, first, last);
          DropFront(n);
        } else {
          CopyWithin(last, finish, first);
          DropBack(n);
        }
        it := Position(before);
      }
    }

    // Not the whole deque is erased, and there is less in front of the range than behind it.
    ghost predicate MovesFront(first: Iterator, last: Iterator)
      reads this
    {
      var i, j := IndexOf(first), IndexOf(last);
      (i != 0 || j != |contents|) && i < (|contents| - (j - i)) / 2
    }

    // The front is not moved, or start stays in its node.
    ghost predicate LosesNone(first: Iterator, last: Iterator)
      reads this
    {
      !MovesFront(first, last) || start.cur.offset + (IndexOf(last) - IndexOf(first)) < size
    }

    method DropFront(n: nat)
      requires Valid() && n <= |contents|
      modifies this`nodes, this`start, this`contents, this`lost
      ensures Valid() && contents == old(contents)[n..]
      ensures lost == old(lost) + PointedTo(slots[..], old(start.node), start.node)
      ensures lost == old(lost) <==> old(start.cur.offset) + n < size
    {
      hide Wide, Part, Row, Holds, Placed, Place, Written, Filled;
      var newStart := Position(n);
      ghost var m, lo, hi, v, c0 := slots[..], start.node, finish.node + 1, contents, Cells0();
      Facts(lo, hi);
      StartRank();
      MiddleConstructed(c0, start.cur.offset, v, 0, n);
      WideNodes(size, m, lo, hi, nodes, lost, next, start, finish, v);
      Destroy(lo, hi, start, newStart);
      DestroyedInFront(c0, start.cur.offset, v, n, Seen(lo, hi));
      NodesInOrder(lo, hi, newStart, finish);
      NodesInOrder(lo, hi, start, newStart);
      PointedToNothing(m, newStart.node, start.node, nodes);
      DestroyNodes(newStart.node, start.node);
      start := newStart;
      contents := v[n..];
      Restored(lo, hi);
      WideLose(size, m, lo, hi, nodes, lost, next, start, finish, contents, start.node);
      PointedToMembers(m, lo, start.node);
      OffsetInNode(lo, hi, newStart);
      NodeOfPlace(size, lo, newStart);
      LostNodes(m, lo, start.node, lost);
      lost := lost + PointedTo(m, lo, start.node);
    }

    method DropBack(n: nat)
      requires Valid() && n <= |contents|
      modifies this`nodes, this`finish, this`contents
      ensures Valid() && contents == old(contents)[..|old(contents)| - n]
    {
      hide Wide, Part, Row, Holds, Placed, Place, Written, Filled;
      ghost var m, lo, hi, v, c0 := slots[..], start.node, finish.node + 1, contents, Cells0();
      Facts(lo, hi);
      StartRank();
      var shift: int := 0 - n;
      PlusMoves(size, slots[..], lo, hi, finish, shift);
      var newFinish := Plus(size, slots[..], finish, shift);
      MiddleConstructed(c0, start.cur.offset, v, |v| - n, |v|);
      Destroy(lo, hi, newFinish, finish);
      DestroyedBehind(c0, start.cur.offset, v, |v| - n, Seen(lo, hi));
      NodesInOrder(lo, hi, start, newFinish);
      ghost var left := nodes;
      DestroyNodes(newFinish.node + 1, finish.node + 1);
      WideShrunk(lo, hi, left, newFinish, v[..|v| - n]);
      finish := newFinish;
      contents := v[..|v| - n];
    }

    lemma WideShrunk(lo: int, hi: int, left: Nodes, newFinish: Iterator, v: seq<int>)
      requires Part(size, slots[..], lo, hi, left, lost, next)
      requires On(lo, hi, start) && On(lo, hi, newFinish) && start.node <= newFinish.node
      requires Rank(lo, newFinish) == Rank(lo, start) + |v|
      requires Holds(Row(size, slots[..], lo, hi, left, lost, next), Rank(lo, start), v)
      ensures Wide(size, slots[..], lo, newFinish.node + 1, left - PointedTo(slots[..], newFinish.node + 1, hi), lost,
                   next, start, newFinish, v)
    {
      WideShrinkTo(size, slots[..], lo, hi, left, lost, next, start, newFinish, v, newFinish.node + 1);
    }

    lemma NodesInOrder(lo: int, hi: int, a: Iterator, b: Iterator)
      requires Used(lo, hi) && On(lo, hi, a) && On(lo, hi, b) && Rank(lo, a) <= Rank(lo, b)
      ensures lo <= a.node <= b.node < hi
    {
      Below(b.node - lo + 1, a.node - lo, size);
    }

    lemma OffsetInNode(lo: int, hi: int, it: Iterator)
      requires On(lo, hi, it)
      ensures 0 <= it.cur.offset < size
    {
    }

    method Clear()
      requires Valid()
      modifies this`nodes, this`finish, this`contents
      ensures Valid() && contents == [] && finish == start
    {
      hide Wide, Part, Row, Holds, Placed, Place, Written, Filled;
      ghost var m, lo, hi, v, c0 := slots[..], start.node, finish.node + 1, contents, Cells0();
      Facts(lo, hi);
      StartRank();
      MiddleConstructed(c0, start.cur.offset, v, 0, |v|);
      Destroy(lo, hi, start, finish);
      DestroyedBehind(c0, start.cur.offset, v, 0, Seen(lo, hi));
      ghost var left := nodes;
      DestroyNodes(start.node + 1, finish.node + 1);
      WideShrunk(lo, hi, left, start, []);
      finish := start;
      contents := [];
    }

    // ----- destruction -----

    // What remains allocated after the deque is gone.
    method Discard()
      requires Valid()
      modifies this`nodes
      ensures nodes.Keys == lost
    {
      hide Wide, Part, Row, Holds, Placed, Place, Written, Filled;
      ghost var lo, hi, c0 := start.node, finish.node + 1, Cells0();
      Facts(lo, hi);
      StartRank();
      MiddleConstructed(c0, start.cur.offset, contents, 0, |contents|);
      Destroy(lo, hi, start, finish);
      UsedKeys(lo, hi);
      DestroyNodes(start.node, finish.node + 1);
    }

    lemma UsedKeys(lo: int, hi: int)
      requires Used(lo, hi)
      ensures nodes.Keys - PointedTo(slots[..], lo, hi) == lost
    {
      PointedToMembers(slots[..], lo, hi);
    }

    // ----- runs -----

    method Execute(op: Op)
      requires Valid() && Allowed(op, contents)
      modifies this, slots
      ensures Valid() && (slots == old(slots) || fresh(slots))
      ensures contents == Meaning(op, old(contents))
      ensures !op.EraseBetween? ==> lost == old(lost)
    {
      hide Wide;
      match op
      case AddBack(x) => PushBack(x);
      case AddFront(x) => PushFront(x);
      case DropBack => PopBack();
      case DropFront => PopFront();
      case InsertAt(i, x) =>
        var pos := Position(i);
        var _ := Insert(pos, x);
      case InsertCopies(i, n, x) =>
        var pos := Position(i);
        FillInsert(pos, n, x);
      case EraseAt(i) =>
        var pos := Position(i);
        var _ := Erase(pos);
      case EraseBetween(i, j) =>
        var first := Position(i);
        var last := Position(j);
        var _ := EraseRange(first, last);
      case EraseAll => Clear();
    }

    // Any run of allowed operations keeps the invariants and does to the elements what its
    // operations do to a sequence; only erasing a range can lose nodes.
    method Run(ops: seq<Op>)
      requires Valid() && AllAllowed(ops, contents)
      modifies this, slots
      ensures Valid() && (slots == old(slots) || fresh(slots))
      ensures contents == AfterAll(ops, old(contents))
      ensures (forall k :: 0 <= k < |ops| ==> !ops[k].EraseBetween?) ==> lost == old(lost)
    {
      hide Wide;
      for i := 0 to |ops|
        invariant Valid() && (slots == old(slots) || fresh(slots))
        invariant AllAllowed(ops[i..], contents)
        invariant AfterAll(ops[i..], contents) == AfterAll(ops, old(contents))
        invariant (forall k :: 0 <= k < i ==> !ops[k].EraseBetween?) ==> lost == old(lost)
      {
        assert ops[i..][1..] == ops[i + 1..];
        Execute(ops[i]);
      }
    }
  }

  // Rounding the missing elements up to nodes leaves less than a node of room in front.
  lemma RoomInFront(size: int, lo: int, start: Iterator, n: int)
    requires 0 <= start.cur.offset < size && n >= 0
    requires var more := n - start.cur.offset; lo == start.node - if more > 0 then (more + size - 1) / size else 0
    ensures 0 <= Place(size, lo, start) - n < size
  {
    var more := n - start.cur.offset;
    if more > 0 { FloorBounds(more + size - 1, size); }
  }

  lemma RoomBehind(size: int, lo: int, finish: Iterator, n: int, hi: int)
    requires size > 0 && 0 <= finish.cur.offset < size && n >= 0
    requires var more := n - (size - finish.cur.offset - 1);
      hi == finish.node + 1 + if more > 0 then (more + size - 1) / size else 0
    ensures (hi - 1 - lo) * size <= Place(size, lo, finish) + n < (hi - lo) * size
  {
    var more := n - (size - finish.cur.offset - 1);
    var k := if more > 0 then (more + size - 1) / size else 0;
    if more > 0 { FloorBounds(more + size - 1, size); }
    assert (hi - 1 - lo) * size == (finish.node - lo) * size + k * size;
    assert (hi - lo) * size == (hi - 1 - lo) * size + size;
  }

  lemma FirstNode(size: int, lo: int, it: Iterator)
    requires size > 0 && 0 <= it.cur.offset < size && 0 <= Place(size, lo, it) < size
    ensures it.node == lo
  {
    Below(it.node - lo, 1, size);
    Below(0, it.node - lo + 1, size);
  }

  lemma LastNode(size: int, lo: int, hi: int, it: Iterator)
    requires size > 0 && 0 <= it.cur.offset < size
    requires (hi - 1 - lo) * size <= Place(size, lo, it) < (hi - lo) * size
    ensures it.node == hi - 1
  {
    Below(it.node - lo, hi - lo, size);
    Below(hi - 1 - lo, it.node - lo + 1, size);
    assert (it.node - lo + 1) * size == (it.node - lo) * size + size;
  }

  // A constructed range and an empty one of the same length do not overlap.
  lemma Apart(c: seq<Cell>, p: int, q: int, n: int)
    requires n >= 0 && Constructed(c, p, p + n) && Empty(c, q, q + n)
    ensures q <= p || p + n <= q
    ensures p <= q || q + n <= p
  {
    assert n > 0 ==> c[p].Full? && c[q].Raw?;
  }

  lemma CellsReady(c: seq<Cell>, p: int, q: int, i: int, n: int)
    requires 0 <= i < n && Constructed(c, p, p + n) && Empty(c, q, q + n)
    ensures 0 <= p && p + n <= |c| && 0 <= q && q + n <= |c| && c[p + i].Full? && c[q + i].Raw?
  {
  }

  lemma MiddleConstructed(c: seq<Cell>, a: int, v: seq<int>, j: int, k: int)
    requires Holds(c, a, v) && 0 <= j <= k <= |v|
    ensures Constructed(c, a + j, a + k)
  {
  }

  lemma WrittenInserted(v: seq<int>, i: nat)
    requires 0 < i < |v|
    ensures var w := [v[0]] + v; Opened(v, i, Written(w, 1, w[2..i + 1]))
    ensures var w := v + [v[|v| - 1]]; Opened(v, i, Written(w, i + 1, w[i..|w| - 2]))
  {
  }

  // w is v with one more element at i, whichever it is.
  ghost predicate Opened(v: seq<int>, i: nat, w: seq<int>) {
    i <= |v| && |w| == |v| + 1 && w[..i] == v[..i] && w[i + 1..] == v[i..]
  }

  lemma RawOutside(c: seq<Cell>, a: int, v: seq<int>, j: int, k: int)
    requires Holds(c, a, v) && 0 <= j && k <= |c| && (k <= a || a + |v| <= j)
    ensures Empty(c, j, k)
  {
  }

  lemma WrittenShiftedFront<T>(v: seq<T>, i: nat, n: nat, xs: seq<T>)
    requires n <= i <= |v| && |xs| == n
    ensures var v1 := v[..n] + v; Written(Written(v1, n, v1[n + n..n + i]), i, xs) == v[..i] + xs + v[i..]
  {
    var v1 := v[..n] + v;
    var v2 := Written(v1, n, v1[n + n..n + i]);
    assert v1[n + n..n + i] == v[n..i] && v1[..n] == v[..n] && v1[n + i..] == v[i..];
    assert v2[..i] == v[..i] && v2[i + n..] == v[i..];
  }

  lemma WrittenSpreadFront(v: seq<int>, i: nat, n: nat, x: int)
    requires i < n && i <= |v|
    ensures Written(v[..i] + Repeat(n - i, x) + v, n, Repeat(i, x)) == v[..i] + Repeat(n, x) + v[i..]
  {
  }

  lemma WrittenShiftedBack<T>(v: seq<T>, i: nat, n: nat, xs: seq<T>)
    requires i + n < |v| && |xs| == n
    ensures var v1 := v + v[|v| - n..]; Written(Written(v1, i + n, v1[i..|v| - n]), i, xs) == v[..i] + xs + v[i..]
  {
  }

  lemma WrittenSpreadBack(v: seq<int>, i: nat, n: nat, x: int)
    requires i <= |v| <= i + n
    ensures Written(v + Repeat(i + n - |v|, x) + v[i..], i, Repeat(|v| - i, x)) == v[..i] + Repeat(n, x) + v[i..]
  {
  }

  lemma PointedToNone(m: seq<Ref>, j: int)
    ensures PointedTo(m, j, j) == {}
  {
  }

  lemma PointedToNothing(m: seq<Ref>, j: int, k: int, nodes: Nodes)
    requires k <= j
    ensures nodes - PointedTo(m, j, k) == nodes
  {
    assert PointedTo(m, j, k) == {};
  }

  lemma NodeOfPlace(size: int, lo: int, it: Iterator)
    requires lo <= it.node && 0 <= it.cur.offset < size
    ensures it.node == lo <==> Place(size, lo, it) < size
  {
    if it.node > lo { Below(1, it.node - lo, size); }
  }

  lemma LostNodes(m: seq<Ref>, j: int, k: int, lost: set<Ref>)
    requires 0 <= j < |m| && j <= k && m[j] !in lost
    ensures lost + PointedTo(m, j, k) == lost <==> j == k
  {
    if j < k { assert m[j] in PointedTo(m, j, k); }
    if j == k { PointedToNone(m, j); }
  }

  lemma PlaceOf(size: int, lo: int, it: Iterator)
    ensures Place(size, lo, it) == (it.node - lo) * size + it.cur.offset
  {
  }

  lemma Times(k: int, size: int)
    requires k >= 0 && size >= 0
    ensures 0 <= k * size && (k + 1) * size == k * size + size
  {
  }

  /** Two elements near the front of eight erased, where a node has room for two. */
  method LoseANode() returns (d: Deque)
    ensures fresh(d) && d.Valid() && d.contents == Repeat(6, 0) && d.lost != {}
  {
    hide Wide, PointedTo;
    d := new Deque(2, 8, 0);
    var first := d.Position(1);
    var last := d.Position(3);
    d.OffsetInNode(d.start.node, d.finish.node + 1, d.start) by { d.Facts(d.start.node, d.finish.node + 1); }
    assert !d.LosesNone(first, last);
    var _ := d.EraseRange(first, last);
  }

  lemma EndOfNode(size: int, lo: int, hi: int, it: Iterator)
    requires 0 < size && lo <= it.node < hi - 1 && it.cur.offset == size - 1
    ensures Place(size, lo, it) + 1 < (hi - lo) * size
  {
    assert (it.node - lo + 1) * size == (it.node - lo) * size + size;
    Below(it.node - lo + 1, hi - lo, size);
  }
}
