/**
 The nodes of all ropes of a program, as the original keeps them on the heap: shared,
 counted, and with their flattened copies.
 */
module RopeStore {
  import opened Options
  import opened RopeTree

  // The address of a node. Addresses are handed out once and not reused.
  type Ref = nat

  datatype Node = Node(refs: nat, flat: Option<string>, body: Body)

  // capacity is the number of characters that were allocated for a leaf; flat is None for
  // it, because its flattened copy is its data.
  datatype Body =
    | LeafBody(data: string, capacity: nat)
    | ProducerBody(produced: string)
    | SubstringBody(base: Ref, start: nat, length: nat)
    | ConcatBody(left: Ref, right: Ref, total: nat, height: nat, marked: bool)
  {
    // The _M_size field.
    function Size(): nat {
      match this
      case LeafBody(d, _) => |d|
      case ProducerBody(p) => |p|
      case SubstringBody(_, _, n) => n
      case ConcatBody(_, _, n, _, _) => n
    }

    // The _M_depth field.
    function Depth(): nat {
      if ConcatBody? then height else 0
    }

    // The _M_is_balanced field.
    predicate IsBalanced() {
      ConcatBody? ==> marked
    }

    // With the mark that it is balanced.
    function Marked(): Body {
      if ConcatBody? then this.(marked := true) else this
    }

    // Children are of lower rank.
    function Rank(): nat {
      match this
      case LeafBody(_, _) => 0
      case ProducerBody(_) => 0
      case SubstringBody(_, _, _) => 1
      case ConcatBody(_, _, _, h, _) => h + 1
    }

    // The two counted references a node can hold.
    function Child(second: bool): Option<Ref> {
      match this
      case ConcatBody(l, r, _, _, _) => Some(if second then r else l)
      case SubstringBody(b, _, _) => if second then Some(b) else None
      case _ => None
    }
  }

  type Nodes = map<Ref, Node>

  // _S_rounded_up_size and _S_allocated_capacity for characters, with the trailing zero.
  function RoundedUpSize(n: nat): nat { (n + 1 + 7) / 8 * 8 }
  function AllocatedCapacity(n: nat): nat { RoundedUpSize(n) - 1 }

  /** A leaf that grows within its capacity keeps the size its memory is to be freed with. */
  lemma GrowthInPlace(n: nat, more: nat)
    requires AllocatedCapacity(n) >= n + more
    ensures RoundedUpSize(n + more) == RoundedUpSize(n)
  {
  }

  // ----- the shape of the store -----

  ghost predicate NodeOk(h: Nodes, n: Ref)
    requires n in h
  {
    match h[n].body
    case LeafBody(d, c) => d != "" && c == RoundedUpSize(|d|) && h[n].flat.None?
    case ProducerBody(p) => p != ""
    case SubstringBody(b, s, k) =>
      b in h && (h[b].body.LeafBody? || h[b].body.ProducerBody?) && 0 < k && s + k <= h[b].body.Size()
    case ConcatBody(l, r, k, d, m) =>
      && l in h && r in h
      && k == h[l].body.Size() + h[r].body.Size()
      && d == Max(h[l].body.Depth(), h[r].body.Depth()) + 1
      && (m ==> BalancedFor(k, d))
  }

  ghost predicate Shape(h: Nodes) {
    forall n <- h :: NodeOk(h, n)
  }

  // The tree below a node, as a value.
  function Tree(h: Nodes, n: Ref): (t: Rope)
    requires Shape(h) && n in h
    decreases h[n].body.Rank()
  {
    assert NodeOk(h, n);
    match h[n].body
    case LeafBody(d, _) => Leaf(d)
    case ProducerBody(p) => Producer(p)
    case SubstringBody(b, s, k) => SubstringFn(Tree(h, b), s, k)
    case ConcatBody(l, r, k, d, m) => Concatenation(Tree(h, l), Tree(h, r), k, d, m)
  }

  ghost predicate Alive(h: Nodes, r: Option<Ref>) {
    r.Some? ==> r.value in h
  }

  ghost function TreeOf(h: Nodes, r: Option<Ref>): Option<Rope>
    requires Shape(h) && Alive(h, r)
  {
    if r.None? then None else Some(Tree(h, r.value))
  }

  // _M_c_string: a node's flattened copy is what flattening it would give.
  ghost predicate FlatOk(h: Nodes)
    requires Shape(h)
  {
    forall n <- h :: h[n].flat.Some? ==> h[n].flat.value == Tree(h, n).Text()
  }

  /** The fields of a node are those of its tree. */
  lemma {:induction false} TreeFields(h: Nodes, n: Ref)
    requires Shape(h) && n in h
    ensures Tree(h, n).Valid()
    ensures Tree(h, n).Size() == h[n].body.Size() && Tree(h, n).Depth() == h[n].body.Depth()
    ensures Tree(h, n).Leaf? == h[n].body.LeafBody? && Tree(h, n).Concatenation? == h[n].body.ConcatBody?
    ensures Tree(h, n).Producer? == h[n].body.ProducerBody? && Tree(h, n).IsBalanced() == h[n].body.IsBalanced()
    decreases h[n].body.Rank()
  {
    hide BalancedFor;
    assert NodeOk(h, n);
    match h[n].body
    case LeafBody(_, _) =>
    case ProducerBody(_) =>
    case SubstringBody(b, _, _) =>
      TreeFields(h, b);
    case ConcatBody(l, r, _, _, _) =>
      TreeFields(h, l);
      TreeFields(h, r);
  }

  // ----- counting references -----

  ghost function Holders(h: Nodes, n: Ref, second: bool): set<Ref> {
    set m | m in h && h[m].body.Child(second) == Some(n)
  }

  // How many references to n other nodes hold.
  ghost function Edges(h: Nodes, n: Ref): nat {
    |Holders(h, n, false)| + |Holders(h, n, true)|
  }

  function Holds(b: Body, n: Ref, second: bool): nat {
    if b.Child(second) == Some(n) then 1 else 0
  }

  function EdgesFrom(b: Body, n: Ref): nat {
    Holds(b, n, false) + Holds(b, n, true)
  }

  // Every count is the number of references: those from outside, which roots holds, and
  // those from other nodes. No node is unreferenced, and no reference dangles.
  ghost predicate Counted(h: Nodes, roots: multiset<Ref>) {
    && (forall n <- h :: h[n].refs > 0 && h[n].refs == roots[n] + Edges(h, n))
    && (forall n <- roots :: n in h)
  }

  lemma SetWith<T>(s: set<T>, t: set<T>, x: T)
    requires x !in s && t == s + {x}
    ensures |t| == |s| + 1
  {
  }

  lemma HoldersUpdate(h: Nodes, m: Ref, node: Node, n: Ref, second: bool)
    ensures |Holders(h[m := node], n, second)|
         == |Holders(h, n, second)| - (if m in h then Holds(h[m].body, n, second) else 0) + Holds(node.body, n, second)
  {
    hide Body.Child;
    var rest := Holders(h, n, second) - {m};
    if m in h && h[m].body.Child(second) == Some(n) {
      SetWith(rest, Holders(h, n, second), m);
    } else {
      assert rest == Holders(h, n, second);
    }
    if node.body.Child(second) == Some(n) {
      SetWith(rest, Holders(h[m := node], n, second), m);
    } else {
      assert rest == Holders(h[m := node], n, second);
    }
  }

  lemma HoldersRemove(h: Nodes, m: Ref, n: Ref, second: bool)
    requires m in h
    ensures |Holders(h - {m}, n, second)| == |Holders(h, n, second)| - Holds(h[m].body, n, second)
  {
    hide Body.Child;
    if h[m].body.Child(second) == Some(n) {
      SetWith(Holders(h - {m}, n, second), Holders(h, n, second), m);
    } else {
      assert Holders(h - {m}, n, second) == Holders(h, n, second);
    }
  }

  /** Replacing or adding node m. */
  lemma EdgesUpdate(h: Nodes, m: Ref, node: Node, n: Ref)
    ensures Edges(h[m := node], n) ==
            Edges(h, n) - (if m in h then EdgesFrom(h[m].body, n) else 0) + EdgesFrom(node.body, n)
  {
    hide Holds;
    HoldersUpdate(h, m, node, n, false);
    HoldersUpdate(h, m, node, n, true);
  }

  lemma EdgesRemove(h: Nodes, m: Ref, n: Ref)
    requires m in h
    ensures Edges(h - {m}, n) == Edges(h, n) - EdgesFrom(h[m].body, n)
  {
    hide Holds;
    HoldersRemove(h, m, n, false);
    HoldersRemove(h, m, n, true);
  }

  lemma EdgeIn(h: Nodes, m: Ref, n: Ref)
    requires m in h
    ensures Edges(h, n) >= EdgesFrom(h[m].body, n)
  {
    EdgesRemove(h, m, n);
  }

  /** Two different nodes that refer to n. */
  lemma TwoEdges(h: Nodes, m: Ref, k: Ref, n: Ref)
    requires m in h && k in h && m != k
    ensures Edges(h, n) >= EdgesFrom(h[m].body, n) + EdgesFrom(h[k].body, n)
  {
    EdgesRemove(h, m, n);
    EdgeIn(h - {m}, k, n);
  }

  lemma NoEdges(h: Nodes, n: Ref)
    requires forall m <- h :: EdgesFrom(h[m].body, n) == 0
    ensures Edges(h, n) == 0
  {
    forall m <- h ensures Holds(h[m].body, n, false) == 0 && Holds(h[m].body, n, true) == 0 {
      assert EdgesFrom(h[m].body, n) == 0;
    }
    assert Holders(h, n, false) == {} && Holders(h, n, true) == {};
  }

  // ----- the invariant, and what one operation leaves of a state -----

  ghost predicate Inv(h: Nodes, next: Ref, roots: multiset<Ref>) {
    Shape(h) && FlatOk(h) && Counted(h, roots) && forall n <- h :: n < next
  }

  // Every node that is still there is the same but for counts and flattened copies.
  ghost predicate Later(h: Nodes, next: Ref, h': Nodes, next': Ref) {
    && next <= next' && (forall n <- h :: n < next)
    && forall n <- h' :: n < next ==> n in h && h'[n].body == h[n].body
  }

  lemma LaterReflexive(h: Nodes, next: Ref, roots: multiset<Ref>)
    requires Inv(h, next, roots)
    ensures Later(h, next, h, next)
  {
  }

  lemma LaterTransitive(h: Nodes, next: Ref, h': Nodes, next': Ref, h'': Nodes, next'': Ref)
    requires Later(h, next, h', next') && Later(h', next', h'', next'')
    ensures Later(h, next, h'', next'')
  {
  }

  /** A node that is still there stands for the same tree. */
  lemma {:induction false} TreeKept(h: Nodes, next: Ref, h': Nodes, next': Ref, n: Ref)
    requires Shape(h) && Shape(h') && Later(h, next, h', next') && n in h' && n < next
    ensures n in h && Tree(h', n) == Tree(h, n)
    ensures h'[n].body == h[n].body
    decreases h[n].body.Rank()
  {
    hide BalancedFor;
    assert n in h && h'[n].body == h[n].body;
    assert NodeOk(h, n) && NodeOk(h', n);
    match h[n].body
    case LeafBody(_, _) =>
    case ProducerBody(_) =>
    case SubstringBody(b, _, _) =>
      TreeKept(h, next, h', next', b);
    case ConcatBody(l, r, _, _, _) =>
      TreeKept(h, next, h', next', l);
      TreeKept(h, next, h', next', r);
  }

  /** Nodes outside of a set that nothing outside of it refers to stand for the same trees. */
  lemma {:induction false} TreeOutside(h: Nodes, h': Nodes, changed: set<Ref>, n: Ref)
    requires Shape(h) && Shape(h') && h.Keys <= h'.Keys && n in h && n !in changed
    requires forall m <- h :: m !in changed ==> h'[m].body == h[m].body
    requires forall m <- h, c <- changed :: m !in changed ==> EdgesFrom(h[m].body, c) == 0
    ensures Tree(h', n) == Tree(h, n)
    decreases h[n].body.Rank()
  {
    hide BalancedFor;
    assert NodeOk(h, n) && NodeOk(h', n);
    match h[n].body
    case LeafBody(_, _) =>
    case ProducerBody(_) =>
    case SubstringBody(b, _, _) =>
      TreeOutside(h, h', changed, b);
    case ConcatBody(l, r, _, _, _) =>
      TreeOutside(h, h', changed, l);
      TreeOutside(h, h', changed, r);
  }

  // ----- the elementary steps -----

  // Only counts and flattened copies differ.
  lemma SameTrees(h: Nodes, h': Nodes, n: Ref)
    requires Shape(h) && Shape(h') && h.Keys <= h'.Keys && n in h
    requires forall m <- h :: h'[m].body == h[m].body
    ensures Tree(h', n) == Tree(h, n)
  {
    TreeOutside(h, h', {}, n);
  }

  lemma SameEdges(h: Nodes, h': Nodes, n: Ref)
    requires h.Keys == h'.Keys
    requires forall m <- h, second :: h'[m].body.Child(second) == h[m].body.Child(second)
    ensures Edges(h', n) == Edges(h, n)
  {
    assert Holders(h', n, false) == Holders(h, n, false) && Holders(h', n, true) == Holders(h, n, true);
  }

  /** Counts do not matter for anything else. */
  lemma SameBodies(h: Nodes, h': Nodes)
    requires Shape(h) && FlatOk(h) && h.Keys == h'.Keys
    requires forall m <- h :: h'[m].body == h[m].body && h'[m].flat == h[m].flat
    ensures Shape(h') && FlatOk(h') && forall m <- h :: Edges(h', m) == Edges(h, m)
  {
    hide Tree, Edges, BalancedFor;
    forall m <- h' ensures NodeOk(h', m) {
      assert NodeOk(h, m);
    }
    forall m <- h ensures Tree(h', m) == Tree(h, m) && Edges(h', m) == Edges(h, m) {
      SameTrees(h, h', m);
      SameEdges(h, h', m);
    }
  }

  /** One reference more or less from outside. */
  lemma Recounted(h: Nodes, next: Ref, roots: multiset<Ref>, n: Ref, refs: nat, roots': multiset<Ref>)
    requires Inv(h, next, roots) && n in h && refs > 0
    requires (roots' == roots + multiset{n} && refs == h[n].refs + 1) ||
             (roots == roots' + multiset{n} && refs + 1 == h[n].refs)
    ensures var h' := h[n := h[n].(refs := refs)]; Inv(h', next, roots') && Later(h, next, h', next)
  {
    hide Tree, Edges, BalancedFor, NodeOk, Shape, FlatOk;
    var h' := h[n := h[n].(refs := refs)];
    SameBodies(h, h');
    forall m <- roots' ensures m in h' {
      if m != n { assert m in roots; }
    }
  }

  lemma AddedShape(h: Nodes, n: Ref, node: Node)
    requires Shape(h) && FlatOk(h) && n !in h && node.flat.None? && NodeOk(h[n := node], n)
    ensures var h' := h[n := node]; Shape(h') && FlatOk(h') && forall m <- h :: Tree(h', m) == Tree(h, m)
  {
    hide Tree, BalancedFor, Rope.Text;
    var h' := h[n := node];
    forall m <- h' ensures NodeOk(h', m) {
      if m != n { assert NodeOk(h, m); }
    }
    forall m <- h ensures Tree(h', m) == Tree(h, m) {
      SameTrees(h, h', m);
    }
  }

  lemma AddedCounts(h: Nodes, roots: multiset<Ref>, n: Ref, node: Node, roots': multiset<Ref>)
    requires Counted(h, roots) && n !in h && node.refs == 1 && Edges(h, n) == 0 && roots[n] == 0
    requires forall m :: roots[m] == roots'[m] + EdgesFrom(node.body, m)
    ensures Counted(h[n := node], roots' + multiset{n})
  {
    hide Edges, EdgesFrom;
    var h' := h[n := node];
    forall m <- h' ensures h'[m].refs == (roots' + multiset{n})[m] + Edges(h', m) && h'[m].refs > 0 {
      EdgesUpdate(h, n, node, m);
    }
    forall m <- roots' + multiset{n} ensures m in h' {
      if m != n { assert m in roots; }
    }
  }

  /** A new node, held from outside by the one who made it; the references it holds were
      held from outside before. */
  lemma Added(h: Nodes, next: Ref, roots: multiset<Ref>, body: Body, roots': multiset<Ref>)
    requires Inv(h, next, roots)
    requires NodeOk(h[next := Node(1, None, body)], next)
    requires forall n :: roots[n] == roots'[n] + EdgesFrom(body, n)
    ensures var h' := h[next := Node(1, None, body)];
      Inv(h', next + 1, roots' + multiset{next}) && Later(h, next, h', next + 1)
  {
    hide Tree, Edges, EdgesFrom, BalancedFor, NodeOk, Shape, FlatOk, Counted;
    NewIsUnreferenced(h, next, roots);
    AddedShape(h, next, Node(1, None, body));
    AddedCounts(h, roots, next, Node(1, None, body), roots');
  }

  /** The last reference to a node is gone: the node goes, and what it held is held from
      outside until it is released as well. */
  lemma Freed(h: Nodes, next: Ref, roots: multiset<Ref>, n: Ref, roots': multiset<Ref>)
    requires Inv(h, next, roots) && n in roots && n in h && h[n].refs == 1
    requires forall m :: roots'[m] + (if m == n then 1 else 0) == roots[m] + EdgesFrom(h[n].body, m)
    ensures var h' := h - {n}; Inv(h', next, roots') && Later(h, next, h', next)
  {
    hide Tree, Edges, EdgesFrom, BalancedFor, Rope.Text, NodeOk, Shape, FlatOk, Counted;
    LastReference(h, roots, n);
    FreedShape(h, next, n);
    ChildrenIn(h, n);
    FreedCounts(h, roots, n, roots');
  }

  lemma LastReference(h: Nodes, roots: multiset<Ref>, n: Ref)
    requires Counted(h, roots) && n in roots && n in h && h[n].refs == 1
    ensures roots[n] == 1 && Edges(h, n) == 0 && forall m <- h :: EdgesFrom(h[m].body, n) == 0
  {
    hide Edges, EdgesFrom;
    forall m <- h ensures EdgesFrom(h[m].body, n) == 0 {
      EdgeIn(h, m, n);
    }
  }

  lemma ChildrenIn(h: Nodes, n: Ref)
    requires Shape(h) && n in h
    ensures forall m :: EdgesFrom(h[n].body, m) > 0 ==> m in h && h[m].body.Rank() < h[n].body.Rank()
  {
    hide BalancedFor;
    assert NodeOk(h, n);
  }

  lemma FreedShape(h: Nodes, next: Ref, n: Ref)
    requires Shape(h) && FlatOk(h) && (forall m <- h :: m < next) && n in h
    requires forall m <- h :: EdgesFrom(h[m].body, n) == 0
    ensures Shape(h - {n}) && FlatOk(h - {n}) && Later(h, next, h - {n}, next)
  {
    hide Tree, BalancedFor, Rope.Text;
    var h' := h - {n};
    forall m <- h' ensures NodeOk(h', m) {
      assert NodeOk(h, m) && EdgesFrom(h[m].body, n) == 0;
    }
    forall m <- h' ensures Tree(h', m) == Tree(h, m) {
      TreeKept(h, next, h', next, m);
    }
  }

  lemma FreedCounts(h: Nodes, roots: multiset<Ref>, n: Ref, roots': multiset<Ref>)
    requires Counted(h, roots) && n in h && roots[n] == 1 && Edges(h, n) == 0 && EdgesFrom(h[n].body, n) == 0
    requires forall m :: roots'[m] + (if m == n then 1 else 0) == roots[m] + EdgesFrom(h[n].body, m)
    requires forall m :: EdgesFrom(h[n].body, m) > 0 ==> m in h
    ensures Counted(h - {n}, roots')
  {
    hide Edges, EdgesFrom;
    var h' := h - {n};
    forall m <- h' ensures h'[m].refs == roots'[m] + Edges(h', m) && h'[m].refs > 0 {
      EdgesRemove(h, n, m);
    }
    forall m <- roots' ensures m in h' {
      if EdgesFrom(h[n].body, m) == 0 { assert m in roots; }
    }
  }

  lemma NewIsUnreferenced(h: Nodes, next: Ref, roots: multiset<Ref>)
    requires Inv(h, next, roots)
    ensures Edges(h, next) == 0 && roots[next] == 0
  {
    hide Tree, FlatOk, BalancedFor;
    forall m <- h ensures EdgesFrom(h[m].body, next) == 0 {
      assert NodeOk(h, m);
    }
    NoEdges(h, next);
  }

  /** Flattened copies may change as long as they are right. */
  lemma Touched(h: Nodes, next: Ref, roots: multiset<Ref>, h': Nodes)
    requires Inv(h, next, roots) && h'.Keys == h.Keys
    requires forall m <- h :: h'[m].refs == h[m].refs && h'[m].body == h[m].body
    requires forall m <- h :: NodeOk(h', m) && (h'[m].flat.Some? ==> h'[m].flat.value == Tree(h, m).Text())
    ensures Inv(h', next, roots) && Later(h, next, h', next)
  {
    hide Tree, Edges, BalancedFor, Rope.Text, NodeOk;
    assert Shape(h');
    forall m <- h ensures Tree(h', m) == Tree(h, m) && Edges(h', m) == Edges(h, m) {
      SameTrees(h, h', m);
      SameEdges(h, h', m);
    }
  }

  // Node n with the mark that it is balanced.
  ghost function Remark(h: Nodes, n: Ref): Nodes
    requires n in h
  {
    h[n := h[n].(body := h[n].body.Marked())]
  }

  /** Of the trees, only those that n is part of get the mark; of n itself, it is at the root. */
  lemma {:induction false} RemarkedBelow(h: Nodes, n: Ref, m: Ref)
    requires n in h && Shape(h) && Shape(Remark(h, n)) && m in h && h[m].body.Rank() <= h[n].body.Rank()
    ensures Tree(Remark(h, n), m) == if m == n then Tree(h, n).Marked() else Tree(h, m)
    decreases h[m].body.Rank()
  {
    hide BalancedFor;
    assert NodeOk(h, m) && NodeOk(Remark(h, n), m);
    match h[m].body
    case LeafBody(_, _) =>
    case ProducerBody(_) =>
    case SubstringBody(b, _, _) =>
      RemarkedBelow(h, n, b);
    case ConcatBody(l, r, _, _, _) =>
      RemarkedBelow(h, n, l);
      RemarkedBelow(h, n, r);
  }

  /** The texts do not depend on marks. */
  lemma {:induction false} RemarkedText(h: Nodes, n: Ref, m: Ref)
    requires n in h && Shape(h) && Shape(Remark(h, n)) && m in h
    ensures Tree(Remark(h, n), m).Text() == Tree(h, m).Text()
    decreases h[m].body.Rank()
  {
    hide BalancedFor;
    assert NodeOk(h, m) && NodeOk(Remark(h, n), m);
    match h[m].body
    case LeafBody(_, _) =>
    case ProducerBody(_) =>
    case SubstringBody(b, _, _) =>
      RemarkedText(h, n, b);
    case ConcatBody(l, r, _, _, _) =>
      RemarkedText(h, n, l);
      RemarkedText(h, n, r);
  }

  lemma RemarkedShape(h: Nodes, n: Ref)
    requires Shape(h) && n in h && BalancedFor(h[n].body.Size(), h[n].body.Depth())
    ensures Shape(Remark(h, n))
  {
    hide BalancedFor;
    forall m <- Remark(h, n) ensures NodeOk(Remark(h, n), m) {
      assert NodeOk(h, m);
    }
  }

  lemma RemarkedFlat(h: Nodes, n: Ref)
    requires n in h && Shape(h) && Shape(Remark(h, n)) && FlatOk(h)
    ensures FlatOk(Remark(h, n))
  {
    hide Tree, Shape, Rope.Text;
    forall m <- h ensures Tree(Remark(h, n), m).Text() == Tree(h, m).Text() {
      RemarkedText(h, n, m);
    }
  }

  lemma RemarkedCounts(h: Nodes, roots: multiset<Ref>, n: Ref)
    requires n in h && Counted(h, roots)
    ensures Counted(Remark(h, n), roots)
  {
    hide Edges;
    forall m <- h ensures Edges(Remark(h, n), m) == Edges(h, m) {
      SameEdges(h, Remark(h, n), m);
    }
  }

  lemma Remarked(h: Nodes, next: Ref, roots: multiset<Ref>, n: Ref)
    requires Inv(h, next, roots) && n in h && BalancedFor(h[n].body.Size(), h[n].body.Depth())
    ensures Inv(Remark(h, n), next, roots) && Tree(Remark(h, n), n) == Tree(h, n).Marked()
  {
    hide Tree, BalancedFor, FlatOk, Shape, Counted;
    RemarkedShape(h, n);
    RemarkedFlat(h, n);
    RemarkedCounts(h, roots, n);
    RemarkedBelow(h, n, n);
  }

  /** Marking a node that is newer than a state, or marked already, leaves that state alone. */
  lemma LaterRemarked(h: Nodes, next: Ref, h': Nodes, next': Ref, n: Ref)
    requires Later(h, next, h', next') && n in h' && (n < next ==> h'[n].body.IsBalanced())
    ensures Later(h, next, Remark(h', n), next') && n in Remark(h', n)
  {
  }

  lemma Reflattened(h: Nodes, next: Ref, roots: multiset<Ref>, n: Ref, flat: Option<string>)
    requires Inv(h, next, roots) && n in h
    requires flat.Some? ==> !h[n].body.LeafBody? && flat.value == Tree(h, n).Text()
    ensures var h' := h[n := h[n].(flat := flat)]; Inv(h', next, roots) && Later(h, next, h', next)
  {
    hide Tree, Edges, BalancedFor, Rope.Text, Later, Counted;
    var h' := h[n := h[n].(flat := flat)];
    forall m <- h' ensures NodeOk(h', m) {
      assert NodeOk(h, m);
    }
    Touched(h, next, roots, h');
  }

  // What the node itself holds.
  function HeldBy(b: Body): multiset<Ref> {
    match b
    case ConcatBody(l, r, _, _, _) => multiset{l, r}
    case SubstringBody(b, _, _) => multiset{b}
    case _ => multiset{}
  }

  lemma HeldByEdges(b: Body, n: Ref)
    ensures HeldBy(b)[n] == EdgesFrom(b, n)
  {
  }

  lemma RootsIn(h: Nodes, next: Ref, roots: multiset<Ref>, n: Ref)
    requires Inv(h, next, roots) && n in roots
    ensures n in h && n < next && h[n].refs > 0
  {
  }

  /**
   The store. The references that are counted but held outside of it, by rope handles and
   by running operations, are in roots.
   */
  class Store {
    var nodes: Nodes
    var next: Ref
    ghost var roots: multiset<Ref>

    constructor ()
      ensures Valid() && roots == multiset{} && nodes == map[]
    {
      nodes, next, roots := map[], 0, multiset{};
    }

    ghost predicate Valid()
      reads this
    {
      Inv(nodes, next, roots)
    }

    // _M_ref_nonnil
    method Reference(n: Ref)
      requires Valid() && n in nodes
      modifies this
      ensures Valid() && roots == old(roots) + multiset{n}
      ensures next == old(next) && Later(old(nodes), next, nodes, next)
      ensures nodes.Keys == old(nodes.Keys)
    {
      hide Inv, Later, NodeOk, EdgesFrom, HeldBy;
      Recounted(nodes, next, roots, n, nodes[n].refs + 1, roots + multiset{n});
      nodes := nodes[n := nodes[n].(refs := nodes[n].refs + 1)];
      roots := roots + multiset{n};
    }

    // The constructors of leaves, function nodes, substring nodes and concatenations, for a
    // node whose references are already counted.
    method Allocate(body: Body) returns (n: Ref)
      requires Valid() && HeldBy(body) <= roots
      requires NodeOk(nodes[next := Node(1, None, body)], next)
      modifies this
      ensures n == old(next) == next - 1 && nodes == old(nodes)[n := Node(1, None, body)]
      ensures Valid() && roots == old(roots) - HeldBy(body) + multiset{n}
      ensures Later(old(nodes), old(next), nodes, next)
    {
      hide Inv, Later, NodeOk, EdgesFrom, HeldBy;
      ghost var rest := roots - HeldBy(body);
      forall m ensures roots[m] == rest[m] + EdgesFrom(body, m) {
        HeldByEdges(body, m);
      }
      Added(nodes, next, roots, body, rest);
      nodes := nodes[next := Node(1, None, body)];
      n, next := next, next + 1;
      roots := rest + multiset{n};
    }

    // _S_new_RopeLeaf
    method NewLeaf(data: string) returns (n: Ref)
      requires Valid() && data != ""
      modifies this
      ensures Valid() && roots == old(roots) + multiset{n} && n == old(next) && n in nodes
      ensures Later(old(nodes), old(next), nodes, next) && Tree(nodes, n) == Leaf(data)
      ensures nodes[n].body.LeafBody? && nodes == old(nodes)[n := nodes[n]]
    {
      hide Inv, Later, EdgesFrom;
      ghost var before := roots;
      n := Allocate(LeafBody(data, RoundedUpSize(|data|)));
      assert roots == before + multiset{n};
    }

    // _S_new_RopeFunction
    method NewFunction(produced: string) returns (n: Ref)
      requires Valid() && produced != ""
      modifies this
      ensures Valid() && roots == old(roots) + multiset{n} && n == old(next) && n in nodes
      ensures Later(old(nodes), old(next), nodes, next) && Tree(nodes, n) == Producer(produced)
    {
      hide Inv, Later, EdgesFrom;
      ghost var before := roots;
      n := Allocate(ProducerBody(produced));
      assert roots == before + multiset{n};
    }

    // _S_new_RopeSubstring
    method NewSubstring(base: Ref, start: nat, length: nat) returns (n: Ref)
      requires Valid() && base in nodes && (nodes[base].body.LeafBody? || nodes[base].body.ProducerBody?)
      requires 0 < length && start + length <= nodes[base].body.Size()
      modifies this
      ensures Valid() && roots == old(roots) + multiset{n} && n == old(next) && n in nodes
      ensures Later(old(nodes), old(next), nodes, next)
      ensures Tree(nodes, n) == SubstringFn(old(Tree(nodes, base)), start, length)
    {
      hide Shape, FlatOk, Counted, Later, EdgesFrom;
      ghost var h, t0, before := nodes, next, roots;
      Reference(base);
      TreeKept(h, t0, nodes, next, base);
      ghost var h1, t1 := nodes, next;
      n := Allocate(SubstringBody(base, start, length));
      assert roots == before + multiset{n};
      LaterTransitive(h, t0, h1, t1, nodes, next);
      TreeKept(h1, t1, nodes, next, base);
    }

    // _S_new_RopeConcatenation: takes over the references to its children.
    method NewConcatenation(left: Ref, right: Ref) returns (n: Ref)
      requires Valid() && left in roots && right in roots - multiset{left} && left in nodes && right in nodes
      modifies this
      ensures Valid() && roots == old(roots) - multiset{left} - multiset{right} + multiset{n}
      ensures n == old(next) == next - 1 && n in nodes && nodes[n].refs == 1 && nodes[n].body.ConcatBody?
      ensures nodes[n].body.Size() == old(nodes[left].body.Size() + nodes[right].body.Size())
      ensures nodes[n].body.Depth() == Max(old(nodes[left].body.Depth()), old(nodes[right].body.Depth())) + 1
      ensures Later(old(nodes), old(next), nodes, next)
      ensures Tree(nodes, n) == Concatenation(old(Tree(nodes, left)), old(Tree(nodes, right)),
                                              nodes[n].body.Size(), nodes[n].body.Depth(), false)
    {
      hide Shape, FlatOk, Counted, Later, EdgesFrom;
      ghost var h, t0, before := nodes, next, roots;
      var l, r := nodes[left].body, nodes[right].body;
      assert multiset{left, right} <= roots;
      n := Allocate(ConcatBody(left, right, l.Size() + r.Size(), Max(l.Depth(), r.Depth()) + 1, false));
      assert roots == before - multiset{left} - multiset{right} + multiset{n};
      TreeKept(h, t0, nodes, next, left);
      TreeKept(h, t0, nodes, next, right);
    }

    // _M_is_balanced = true
    method MarkBalanced(n: Ref)
      requires Valid() && n in nodes && BalancedFor(nodes[n].body.Size(), nodes[n].body.Depth())
      modifies this`nodes
      ensures Valid() && nodes == Remark(old(nodes), n)
      ensures Tree(nodes, n) == old(Tree(nodes, n)).Marked()
    {
      hide Inv, BalancedFor, Tree;
      Remarked(nodes, next, roots, n);
      nodes := nodes[n := nodes[n].(body := nodes[n].body.Marked())];
    }

    // _M_unref_nonnil
    method Unreference(n: Ref)
      requires Valid() && n in roots
      modifies this
      ensures Valid() && roots == old(roots) - multiset{n}
      ensures next == old(next) && Later(old(nodes), next, nodes, next)
      decreases if n in nodes then nodes[n].body.Rank() else 0, 2
    {
      hide Inv, Later, NodeOk, EdgesFrom, HeldBy;
      RootsIn(nodes, next, roots, n);
      var refs := nodes[n].refs - 1;
      if refs == 0 {
        FreeTree(n);
      } else {
        Recounted(nodes, next, roots, n, refs, roots - multiset{n});
        nodes := nodes[n := nodes[n].(refs := refs)];
        roots := roots - multiset{n};
      }
    }

    // _M_free_tree and the destructors. The memory of the node is released before its
    // references are, not after.
    method FreeTree(n: Ref)
      requires Valid() && n in roots && n in nodes && nodes[n].refs == 1
      modifies this
      ensures Valid() && roots == old(roots) - multiset{n}
      ensures next == old(next) && Later(old(nodes), next, nodes, next)
      decreases if n in nodes then nodes[n].body.Rank() else 0, 1
    {
      hide Inv, Later, NodeOk, EdgesFrom, HeldBy, Body.Rank;
      ghost var h, rest := nodes, roots - multiset{n};
      var body := nodes[n].body;
      FreedNode(nodes, next, roots, n);
      ChildRanks(h, next, roots, n);
      nodes := nodes - {n};
      roots := rest + HeldBy(body);
      ReleaseHeld(body, rest, h[n].body.Rank());
      LaterTransitive(h, next, h - {n}, next, nodes, next);
    }

    // What a node that is gone referred to.
    method ReleaseHeld(body: Body, ghost rest: multiset<Ref>, ghost rank: nat)
      requires Valid() && roots == rest + HeldBy(body)
      requires forall m <- HeldBy(body) :: m in nodes && nodes[m].body.Rank() < rank
      modifies this
      ensures Valid() && roots == rest
      ensures next == old(next) && Later(old(nodes), next, nodes, next)
      decreases rank, 0
    {
      hide Inv, Later, NodeOk, EdgesFrom, HeldBy, Body.Rank;
      HeldByCases(body);
      LaterReflexive(nodes, next, roots);
      match body {
        case LeafBody(_, _) =>
        case ProducerBody(_) =>
        case SubstringBody(base, _, _) =>
          Counted1(rest, base);
          Unreference(base);
        case ConcatBody(left, right, _, _, _) =>
          Counted2(rest, left, right);
          UnreferenceBoth(left, right);
      }
    }

    lemma Counted1(rest: multiset<Ref>, n: Ref)
      ensures rest + multiset{n} - multiset{n} == rest && n in rest + multiset{n}
    {
    }

    lemma Counted2(rest: multiset<Ref>, m: Ref, n: Ref)
      ensures rest + (multiset{m} + multiset{n}) - multiset{m} - multiset{n} == rest
      ensures m in rest + (multiset{m} + multiset{n}) && n in rest + (multiset{m} + multiset{n}) - multiset{m}
    {
    }

    // The destructor of a concatenation.
    method UnreferenceBoth(left: Ref, right: Ref)
      requires Valid() && left in roots && right in roots - multiset{left}
      modifies this
      ensures Valid() && roots == old(roots) - multiset{left} - multiset{right}
      ensures next == old(next) && Later(old(nodes), next, nodes, next)
      decreases if left in nodes && right in nodes then Max(nodes[left].body.Rank(), nodes[right].body.Rank()) else 0, 3
    {
      hide Inv, Later, Body.Rank;
      ghost var h := nodes;
      RootsIn(nodes, next, roots, left);
      RootsIn(nodes, next, roots, right);
      Unreference(left);
      RootsIn(nodes, next, roots, right);
      RankKept(h, next, nodes, right);
      ghost var h1 := nodes;
      Unreference(right);
      LaterTransitive(h, next, h1, next, nodes, next);
    }

    // _S_unref
    method Release(r: Option<Ref>)
      requires Valid() && (r.Some? ==> r.value in roots)
      modifies this
      ensures Valid() && roots == old(roots) - One(r)
      ensures next == old(next) && Later(old(nodes), next, nodes, next)
    {
      hide Inv, Later;
      if r.Some? {
        Unreference(r.value);
      } else {
        LaterReflexive(nodes, next, roots);
      }
    }

    // _S_ref
    method Retain(r: Option<Ref>)
      requires Valid() && (r.Some? ==> r.value in nodes)
      modifies this
      ensures Valid() && roots == old(roots) + One(r)
      ensures next == old(next) && Later(old(nodes), next, nodes, next)
      ensures nodes.Keys == old(nodes.Keys)
    {
      hide Inv, Later;
      if r.Some? {
        Reference(r.value);
      } else {
        LaterReflexive(nodes, next, roots);
      }
    }
  }

  function One(r: Option<Ref>): multiset<Ref> {
    match r
    case None => multiset{}
    case Some(n) => multiset{n}
  }

  lemma ChildRanks(h: Nodes, next: Ref, roots: multiset<Ref>, n: Ref)
    requires Inv(h, next, roots) && n in h
    ensures forall m <- HeldBy(h[n].body) :: m in h && m != n && m < next && h[m].body.Rank() < h[n].body.Rank()
  {
    hide Tree, BalancedFor, Counted, FlatOk;
    ChildrenIn(h, n);
    forall m <- HeldBy(h[n].body) ensures EdgesFrom(h[n].body, m) > 0 {
      HeldByEdges(h[n].body, m);
    }
  }

  lemma HeldByCases(b: Body)
    ensures b.LeafBody? || b.ProducerBody? ==> HeldBy(b) == multiset{}
    ensures b.SubstringBody? ==> HeldBy(b) == multiset{b.base} && b.base in HeldBy(b)
    ensures b.ConcatBody? ==>
              HeldBy(b) == multiset{b.left} + multiset{b.right} && b.left in HeldBy(b) && b.right in HeldBy(b)
  {
  }

  lemma FreedNode(h: Nodes, next: Ref, roots: multiset<Ref>, n: Ref)
    requires Inv(h, next, roots) && n in roots && n in h && h[n].refs == 1
    ensures Inv(h - {n}, next, roots - multiset{n} + HeldBy(h[n].body)) && Later(h, next, h - {n}, next)
  {
    hide Inv, Later, EdgesFrom, HeldBy;
    var after := roots - multiset{n} + HeldBy(h[n].body);
    forall m ensures after[m] + (if m == n then 1 else 0) == roots[m] + EdgesFrom(h[n].body, m) {
      HeldByEdges(h[n].body, m);
    }
    Freed(h, next, roots, n, after);
  }

  lemma RankKept(h: Nodes, next: Ref, h': Nodes, n: Ref)
    requires Later(h, next, h', next) && n in h' && n < next
    ensures n in h && h'[n].body.Rank() == h[n].body.Rank()
  {
  }

  // ----- what an operation that only builds leaves as it was -----

  // A bound for the ranks of all nodes.
  ghost function RankBound(h: Nodes): (b: nat)
    ensures forall n <- h :: h[n].body.Rank() <= b
  {
    if h == map[] then 0
    else
      var n :| n in h;
      var b := RankBound(h - {n});
      assert forall m <- h :: m != n ==> (h - {n})[m] == h[m];
      Max(b, h[n].body.Rank())
  }

  /** While no counted reference is given up, every node stays. */
  lemma {:induction false} NodeKept(h: Nodes, next: Ref, roots: multiset<Ref>, h': Nodes, next': Ref,
                                    roots': multiset<Ref>, n: Ref)
    requires Inv(h, next, roots) && Inv(h', next', roots') && Later(h, next, h', next') && roots <= roots' && n in h
    ensures n in h'
    decreases RankBound(h) - h[n].body.Rank()
  {
    hide Tree, FlatOk, BalancedFor, Rope.Text;
    if n !in roots {
      assert Edges(h, n) > 0;
      var m := SomeHolder(h, n);
      ChildrenIn(h, m);
      NodeKept(h, next, roots, h', next', roots', m);
      assert h'[m].body == h[m].body;
      assert EdgesFrom(h'[m].body, n) > 0;
      ChildrenIn(h', m);
    }
  }

  lemma SomeHolder(h: Nodes, n: Ref) returns (m: Ref)
    requires Edges(h, n) > 0
    ensures m in h && EdgesFrom(h[m].body, n) > 0
  {
    if Holders(h, n, false) != {} {
      m :| m in Holders(h, n, false);
    } else {
      m :| m in Holders(h, n, true);
    }
  }

  lemma OneKept(h: Nodes, next: Ref, roots: multiset<Ref>, h': Nodes, next': Ref, roots': multiset<Ref>, n: Ref)
    requires Inv(h, next, roots) && Inv(h', next', roots') && Later(h, next, h', next') && roots <= roots' && n in h
    ensures n in h' && Shape(h) && Shape(h') && Tree(h', n) == Tree(h, n)
    ensures h'[n].body == h[n].body
  {
    hide Tree, FlatOk, Counted, Edges, BalancedFor, Rope.Text;
    NodeKept(h, next, roots, h', next', roots', n);
    TreeKept(h, next, h', next', n);
  }

  lemma RootKept(h: Nodes, next: Ref, roots: multiset<Ref>, h': Nodes, next': Ref, roots': multiset<Ref>, n: Ref)
    requires Inv(h, next, roots) && Inv(h', next', roots') && Later(h, next, h', next') && n in roots && n in roots'
    ensures n in h && n in h' && Shape(h) && Shape(h') && Tree(h', n) == Tree(h, n)
    ensures h'[n].body == h[n].body
  {
    hide Tree, FlatOk, Edges, BalancedFor, Rope.Text;
    TreeKept(h, next, h', next', n);
  }

  lemma Shaped(h: Nodes, next: Ref, roots: multiset<Ref>)
    requires Inv(h, next, roots)
    ensures Shape(h)
  {
  }
}
