/**
 Copy on write: assigning to a character and appending in place. Both write into nodes,
 but only into nodes that nothing else refers to, so that no other rope changes.
 */
module RopeSharing {
  import opened Options
  import opened RopeTree
  import opened RopeStore
  import opened RopeForest
  import opened RopeBalance
  import opened RopeOperations

  // ----- the nodes on the way to a character -----

  // Each node of the path is the child of the one before it that holds the character, and
  // each offset is the position of the character within the text of its node.
  ghost predicate Path(h: Nodes, path: seq<Ref>, offs: seq<nat>) {
    && |path| == |offs| > 0 && (forall j :: 0 <= j < |path| ==> path[j] in h)
    && forall j :: 0 < j < |path| ==> Step(h, path[j - 1], offs[j - 1], path[j], offs[j])
  }

  ghost predicate Step(h: Nodes, n: Ref, i: nat, n': Ref, i': nat) {
    && n in h && h[n].body.ConcatBody? && h[n].body.left in h
    && var leftLen := h[h[n].body.left].body.Size();
       if i >= leftLen then n' == h[n].body.right && i' == i - leftLen else n' == h[n].body.left && i' == i
  }

  // Nothing but the path refers to the nodes on it.
  ghost predicate Exclusive(h: Nodes, path: seq<Ref>) {
    forall j :: 0 <= j < |path| ==> path[j] in h && h[path[j]].refs == 1
  }

  // Whether character i below n can be written in place: every node on the way is referenced
  // once, and the last one is a leaf.
  ghost predicate Writable(h: Nodes, n: Ref, i: nat)
    requires Shape(h) && n in h
    decreases h[n].body.Rank()
  {
    assert NodeOk(h, n);
    h[n].refs == 1 &&
    match h[n].body
    case ConcatBody(left, right, _, _, _) =>
      var leftLen := h[left].body.Size();
      if i >= leftLen then Writable(h, right, i - leftLen) else Writable(h, left, i)
    case LeafBody(_, _) => true
    case _ => false
  }

  lemma StepEdge(h: Nodes, n: Ref, i: nat, n': Ref, i': nat)
    requires Step(h, n, i, n', i')
    ensures EdgesFrom(h[n].body, n') > 0
  {
  }

  lemma StepRank(h: Nodes, n: Ref, i: nat, n': Ref, i': nat)
    requires Shape(h) && Step(h, n, i, n', i')
    ensures n' in h && h[n'].body.Rank() < h[n].body.Rank()
  {
    StepEdge(h, n, i, n', i');
    ChildrenIn(h, n);
  }

  lemma {:induction false} PathRanks(h: Nodes, path: seq<Ref>, offs: seq<nat>, i: nat, j: nat)
    requires Shape(h) && Path(h, path, offs) && i < j < |path|
    ensures h[path[j]].body.Rank() < h[path[i]].body.Rank()
    decreases j
  {
    hide Step, Shape, Body.Rank;
    assert Step(h, path[j - 1], offs[j - 1], path[j], offs[j]);
    StepRank(h, path[j - 1], offs[j - 1], path[j], offs[j]);
    if i < j - 1 {
      PathRanks(h, path, offs, i, j - 1);
    }
  }

  /** No node off the path refers to one on it. */
  lemma OffPath(h: Nodes, next: Ref, roots: multiset<Ref>, path: seq<Ref>, offs: seq<nat>, m: Ref, k: nat)
    requires Inv(h, next, roots) && Path(h, path, offs) && Exclusive(h, path) && path[0] in roots
    requires m in h && m !in path && k < |path|
    ensures EdgesFrom(h[m].body, path[k]) == 0
  {
    hide Step, Edges, EdgesFrom, FlatOk;
    if k == 0 {
      EdgeIn(h, m, path[0]);
    } else {
      StepEdge(h, path[k - 1], offs[k - 1], path[k], offs[k]);
      TwoEdges(h, m, path[k - 1], path[k]);
    }
  }

  /** No other reference from outside is to a node on the path. */
  lemma NotHeldElsewhere(h: Nodes, next: Ref, roots: multiset<Ref>, path: seq<Ref>, offs: seq<nat>, k: nat)
    requires Inv(h, next, roots) && Path(h, path, offs) && Exclusive(h, path) && path[0] in roots && k < |path|
    ensures (roots - multiset{path[0]})[path[k]] == 0
  {
    hide Step, Edges, EdgesFrom, FlatOk;
    if k > 0 {
      StepEdge(h, path[k - 1], offs[k - 1], path[k], offs[k]);
      EdgeIn(h, path[k - 1], path[k]);
    }
  }

  function Sibling(b: Body, n: Ref): Ref
    requires b.ConcatBody?
  {
    if b.left == n then b.right else b.left
  }

  // The only node that refers to one on the path is the one before it.
  lemma HolderOnPath(h: Nodes, next: Ref, roots: multiset<Ref>, path: seq<Ref>, offs: seq<nat>, m: Ref, k: nat)
    requires Inv(h, next, roots) && Path(h, path, offs) && Exclusive(h, path) && path[0] in roots
    requires m in h && k < |path| && EdgesFrom(h[m].body, path[k]) > 0
    ensures k > 0 && path[k - 1] == m
  {
    hide Step, Edges, EdgesFrom, FlatOk;
    EdgeIn(h, m, path[k]);
    if k > 0 && path[k - 1] != m {
      StepEdge(h, path[k - 1], offs[k - 1], path[k], offs[k]);
      TwoEdges(h, m, path[k - 1], path[k]);
    }
  }

  lemma OnceOnPath(h: Nodes, path: seq<Ref>, offs: seq<nat>, i: nat, j: nat)
    requires Shape(h) && Path(h, path, offs) && i < |path| && j < |path| && path[i] == path[j]
    ensures i == j
  {
    hide Shape, Step, Body.Rank;
    if i < j {
      PathRanks(h, path, offs, i, j);
    } else if j < i {
      PathRanks(h, path, offs, j, i);
    }
  }

  // A node on the path does not have the same child twice.
  lemma TwoChildren(h: Nodes, next: Ref, roots: multiset<Ref>, path: seq<Ref>, offs: seq<nat>, j: nat)
    requires Inv(h, next, roots) && Path(h, path, offs) && Exclusive(h, path) && j + 1 < |path|
    ensures h[path[j]].body.ConcatBody? && h[path[j]].body.left != h[path[j]].body.right
    ensures path[j + 1] == h[path[j]].body.left || path[j + 1] == h[path[j]].body.right
  {
    hide Edges, FlatOk, Shape;
    assert Step(h, path[j], offs[j], path[j + 1], offs[j + 1]);
    EdgeIn(h, path[j], path[j + 1]);
    assert h[path[j + 1]].refs == 1;
  }

  /** The other child of a node on the path is not on it. */
  lemma SiblingOffPath(h: Nodes, next: Ref, roots: multiset<Ref>, path: seq<Ref>, offs: seq<nat>, j: nat)
    requires Inv(h, next, roots) && Path(h, path, offs) && Exclusive(h, path) && path[0] in roots && j + 1 < |path|
    ensures h[path[j]].body.ConcatBody? && Sibling(h[path[j]].body, path[j + 1]) !in path
    ensures h[path[j]].body.left != h[path[j]].body.right
  {
    hide Edges, FlatOk, Shape, Counted, Step;
    Shaped(h, next, roots);
    TwoChildren(h, next, roots, path, offs, j);
    var x := Sibling(h[path[j]].body, path[j + 1]);
    if x in path {
      var k :| 0 <= k < |path| && path[k] == x;
      HolderOnPath(h, next, roots, path, offs, path[j], k);
      OnceOnPath(h, path, offs, k - 1, j);
    }
  }

  // ----- what writing into nodes of the path leaves as it was -----

  // The references from outside in roots stand for what they stood for.
  ghost predicate RootsKept(h: Nodes, h': Nodes, roots: multiset<Ref>) {
    Shape(h) && Shape(h') && forall n <- roots :: n in h && n in h' && Tree(h', n) == Tree(h, n)
  }

  /** If only nodes in a set change, that nothing outside of it refers to, and have no
      flattened copy left, the store stays in order and all other trees are the same. */
  lemma Patched(h: Nodes, h': Nodes, changed: set<Ref>)
    requires Shape(h) && FlatOk(h) && h'.Keys == h.Keys
    requires forall m <- h :: m !in changed ==> h'[m] == h[m]
    requires forall m <- h, c <- changed :: m !in changed ==> EdgesFrom(h[m].body, c) == 0
    requires forall m <- h :: m in changed ==> NodeOk(h', m) && h'[m].flat.None?
    ensures Shape(h') && FlatOk(h') && forall m <- h :: m !in changed ==> Tree(h', m) == Tree(h, m)
  {
    hide Tree, BalancedFor, Rope.Text;
    forall m <- h' ensures NodeOk(h', m) {
      if m !in changed {
        assert NodeOk(h, m);
        assert forall c :: EdgesFrom(h[m].body, c) > 0 ==> c !in changed;
      }
    }
    forall m <- h | m !in changed ensures Tree(h', m) == Tree(h, m) {
      TreeOutside(h, h', changed, m);
    }
  }

  ghost function Elements(path: seq<Ref>): set<Ref> {
    set n | n in path
  }

  lemma NothingPointsIn(h: Nodes, next: Ref, roots: multiset<Ref>, path: seq<Ref>, offs: seq<nat>)
    requires Inv(h, next, roots) && Path(h, path, offs) && Exclusive(h, path) && path[0] in roots
    ensures forall m <- h, c <- Elements(path) :: m !in Elements(path) ==> EdgesFrom(h[m].body, c) == 0
    ensures forall n <- roots - multiset{path[0]} :: n in h && n !in path
  {
    assert path != [];
    hide Inv, Path, Exclusive, EdgesFrom;
    forall m <- h, c <- Elements(path) | m !in Elements(path) ensures EdgesFrom(h[m].body, c) == 0 {
      var k :| 0 <= k < |path| && path[k] == c;
      OffPath(h, next, roots, path, offs, m, k);
    }
    forall n <- roots - multiset{path[0]} ensures n in h && n !in path {
      RootsIn(h, next, roots, n);
      if n in path {
        var k :| 0 <= k < |path| && path[k] == n;
        NotHeldElsewhere(h, next, roots, path, offs, k);
      }
    }
  }

  // ----- assigning to a character -----

  // No flattened copy on the path.
  ghost predicate Bare(h: Nodes, path: seq<Ref>) {
    forall j :: 0 <= j < |path| ==> path[j] in h && h[path[j]].flat.None?
  }

  // The store with one character of a leaf replaced.
  function WithChar(h: Nodes, leaf: Ref, k: nat, c: char): Nodes
    requires leaf in h && h[leaf].body.LeafBody? && k < |h[leaf].body.data|
  {
    h[leaf := h[leaf].(body := h[leaf].body.(data := h[leaf].body.data[k := c]))]
  }

  // The path leads to character k of a leaf.
  ghost predicate ToLeaf(h: Nodes, path: seq<Ref>, offs: seq<nat>, leaf: Ref, k: nat) {
    && Path(h, path, offs) && path[|path| - 1] == leaf && offs[|path| - 1] == k
    && h[leaf].body.LeafBody? && k < |h[leaf].body.data|
  }

  lemma CharShape(h: Nodes, next: Ref, roots: multiset<Ref>, path: seq<Ref>, offs: seq<nat>, leaf: Ref, k: nat, c: char)
    requires Inv(h, next, roots) && ToLeaf(h, path, offs, leaf, k) && Exclusive(h, path) && Bare(h, path)
    requires path[0] in roots
    ensures var h' := WithChar(h, leaf, k, c);
      Inv(h', next, roots) && forall n <- h :: n !in path ==> Tree(h', n) == Tree(h, n)
  {
    hide Inv, Path, Exclusive, Bare, Shape, FlatOk, Counted, Tree, Edges, EdgesFrom, NodeOk;
    LeafOnPath(h, path, offs, leaf, k);
    InParts(h, next, roots);
    var h' := WithChar(h, leaf, k, c);
    CharNodes(h, leaf, k, c);
    NothingPointsIn(h, next, roots, path, offs);
    BareNodes(h, path);
    Patched(h, h', Elements(path));
    CharCounts(h, roots, leaf, k, c);
    OutOfParts(h', next, roots);
  }

  lemma InParts(h: Nodes, next: Ref, roots: multiset<Ref>)
    requires Inv(h, next, roots)
    ensures Shape(h) && FlatOk(h) && Counted(h, roots) && forall n <- h :: n < next
  {
  }

  lemma OutOfParts(h: Nodes, next: Ref, roots: multiset<Ref>)
    requires Shape(h) && FlatOk(h) && Counted(h, roots) && forall n <- h :: n < next
    ensures Inv(h, next, roots)
  {
  }

  lemma BareNodes(h: Nodes, path: seq<Ref>)
    requires Bare(h, path)
    ensures forall n <- Elements(path) :: n in h && h[n].flat.None?
  {
  }

  lemma CharNodes(h: Nodes, leaf: Ref, k: nat, c: char)
    requires Shape(h) && leaf in h && h[leaf].body.LeafBody? && k < |h[leaf].body.data|
    ensures forall m <- h :: NodeOk(WithChar(h, leaf, k, c), m)
  {
    hide BalancedFor;
    forall m <- h ensures NodeOk(WithChar(h, leaf, k, c), m) {
      assert NodeOk(h, m);
    }
  }

  lemma CharCounts(h: Nodes, roots: multiset<Ref>, leaf: Ref, k: nat, c: char)
    requires Counted(h, roots) && leaf in h && h[leaf].body.LeafBody? && k < |h[leaf].body.data|
    ensures Counted(WithChar(h, leaf, k, c), roots)
  {
    hide Edges, EdgesFrom;
    var h' := WithChar(h, leaf, k, c);
    forall n <- h ensures Edges(h', n) == Edges(h, n) {
      EdgesUpdate(h, leaf, h'[leaf], n);
      LeafEdges(h[leaf].body, h'[leaf].body, n);
    }
  }

  lemma LeafOnPath(h: Nodes, path: seq<Ref>, offs: seq<nat>, leaf: Ref, k: nat)
    requires ToLeaf(h, path, offs, leaf, k)
    ensures leaf in path && leaf in h && path != []
  {
  }

  lemma LeafEdges(b: Body, b': Body, n: Ref)
    requires b.LeafBody? && b'.LeafBody?
    ensures EdgesFrom(b, n) == EdgesFrom(b', n) == 0
  {
  }

  /** Along the path, exactly the character at the offset of each node changes. */
  lemma {:induction false} CharAlongPath(h: Nodes, next: Ref, roots: multiset<Ref>, path: seq<Ref>, offs: seq<nat>,
                                         leaf: Ref, k: nat, c: char, j: nat)
    requires Inv(h, next, roots) && ToLeaf(h, path, offs, leaf, k) && Exclusive(h, path) && Bare(h, path)
    requires path[0] in roots
    requires j < |path|
    ensures var h' := WithChar(h, leaf, k, c);
      && Shape(h') && path[j] in h && offs[j] < |Tree(h, path[j]).Text()|
      && Tree(h', path[j]).Text() == Tree(h, path[j]).Text()[offs[j] := c]
    decreases |path| - j
  {
    hide Exclusive, Bare, Inv, Shape, Tree, Sibling;
    var h' := WithChar(h, leaf, k, c);
    Shaped(h, next, roots);
    CharShape(h, next, roots, path, offs, leaf, k, c);
    Shaped(h', next, roots);
    var n := path[j];
    if j == |path| - 1 {
      LeafTree(h, n);
      LeafTree(h', n);
    } else {
      CharAlongPath(h, next, roots, path, offs, leaf, k, c, j + 1);
      assert Step(h, n, offs[j], path[j + 1], offs[j + 1]);
      SiblingOffPath(h, next, roots, path, offs, j);
      TextParts(h, n);
      TextParts(h', n);
      var left, right := h[n].body.left, h[n].body.right;
      CharInConcat(Tree(h, left).Text(), Tree(h, right).Text(), offs[j], c);
      OtherChild(h[n].body, path[j + 1]);
    }
  }

  lemma OtherChild(b: Body, n: Ref)
    requires b.ConcatBody? && b.left != b.right
    ensures n == b.left ==> Sibling(b, n) == b.right
    ensures n == b.right ==> Sibling(b, n) == b.left
  {
  }

  lemma CharInConcat(a: string, b: string, i: nat, c: char)
    ensures i < |a| ==> (a + b)[i := c] == a[i := c] + b
    ensures |a| <= i < |a| + |b| ==> (a + b)[i := c] == a + b[i - |a| := c]
  {
  }

  /** What *slot = c does: the root's text changes at one position, and no other reference
      from outside stands for anything else than before. */
  lemma CharAssigned(h: Nodes, next: Ref, roots: multiset<Ref>, path: seq<Ref>, offs: seq<nat>, leaf: Ref, k: nat,
                     c: char, text: string)
    requires Inv(h, next, roots) && ToLeaf(h, path, offs, leaf, k) && Exclusive(h, path) && Bare(h, path)
    requires path[0] in roots
    requires Given(h, Some(path[0]), text)
    ensures offs[0] < |text| && var h' := WithChar(h, leaf, k, c);
      && Inv(h', next, roots) && Given(h', Some(path[0]), text[offs[0] := c])
      && RootsKept(h, h', roots - multiset{path[0]})
  {
    hide Path, Exclusive, Bare, Inv, Shape, Tree, Step;
    LeafOnPath(h, path, offs, leaf, k);
    var h' := WithChar(h, leaf, k, c);
    Shaped(h, next, roots);
    CharShape(h, next, roots, path, offs, leaf, k, c);
    Shaped(h', next, roots);
    CharAlongPath(h, next, roots, path, offs, leaf, k, c, 0);
    NothingPointsIn(h, next, roots, path, offs);
    RootsIn(h, next, roots, path[0]);
    GivenFields(h, Some(path[0]), text);
    TreeFields(h', path[0]);
    SizeIsTextLength(Tree(h', path[0]));
    GivenNode(h', path[0]);
  }

  // Only flattened copies differ.
  ghost predicate SameButFlat(h: Nodes, h': Nodes) {
    h.Keys == h'.Keys && forall m <- h :: h'[m].body == h[m].body && h'[m].refs == h[m].refs
  }

  lemma PathSame(h: Nodes, h': Nodes, path: seq<Ref>, offs: seq<nat>, leaf: Ref, k: nat)
    requires SameButFlat(h, h') && Path(h, path, offs)
    ensures Path(h', path, offs)
    ensures Exclusive(h, path) ==> Exclusive(h', path)
    ensures ToLeaf(h, path, offs, leaf, k) ==> ToLeaf(h', path, offs, leaf, k)
  {
    forall j | 0 < j < |path| ensures Step(h', path[j - 1], offs[j - 1], path[j], offs[j]) {
      assert Step(h, path[j - 1], offs[j - 1], path[j], offs[j]);
    }
  }

  lemma Extend(h: Nodes, path: seq<Ref>, offs: seq<nat>, n: Ref, k: nat)
    requires Path(h, path, offs) && n in h && Step(h, path[|path| - 1], offs[|path| - 1], n, k)
    ensures Path(h, path + [n], offs + [k])
  {
    hide Step;
  }

  // The loop of _S_fetch_ptr that throws away the flattened copies it has come across.
  method ClearFlats(s: Store, stack: array<Ref>, count: nat, ghost path: seq<Ref>)
    requires s.Valid() && count <= stack.Length && forall q :: 0 <= q < count ==> stack[q] in s.nodes
    requires forall j :: 0 <= j < |path| ==>
               path[j] in s.nodes && (s.nodes[path[j]].flat.Some? ==> path[j] in stack[..count])
    modifies s`nodes
    ensures s.Valid() && Later(old(s.nodes), old(s.next), s.nodes, s.next)
    ensures SameButFlat(old(s.nodes), s.nodes) && Bare(s.nodes, path)
  {
    hide Inv, Later;
    ghost var h := s.nodes;
    LaterReflexive(h, s.next, s.roots);
    var csptr: nat := count;
    while csptr > 0
      invariant csptr <= count && s.Valid() && Later(h, s.next, s.nodes, s.next) && SameButFlat(h, s.nodes)
      invariant forall q :: 0 <= q < csptr ==> stack[q] in s.nodes
      invariant forall j :: 0 <= j < |path| ==>
                  path[j] in s.nodes && (s.nodes[path[j]].flat.Some? ==> path[j] in stack[..csptr])
    {
      csptr := csptr - 1;
      var d := stack[csptr];
      ghost var h1 := s.nodes;
      Reflattened(h1, s.next, s.roots, d, None);
      s.nodes := s.nodes[d := s.nodes[d].(flat := None)];
      LaterTransitive(h, s.next, h1, s.next, s.nodes, s.next);
      assert stack[..csptr + 1] == stack[..csptr] + [d];
    }
  }

  // _S_fetch_ptr: a character that may be written in place, if every node on the way is
  // referenced once and the last one is a leaf; nothing otherwise. The stack of nodes to
  // be cleared has room for MAX_ROPE_DEPTH of them.
  method FetchPtr(s: Store, r: Ref, i: nat) returns (slot: Option<(Ref, nat)>, ghost path: seq<Ref>,
                                                     ghost offs: seq<nat>)
    requires s.Valid() && r in s.nodes && i < s.nodes[r].body.Size() && s.nodes[r].body.Depth() <= MAX_ROPE_DEPTH
    modifies s`nodes
    ensures s.Valid() && Later(old(s.nodes), old(s.next), s.nodes, s.next)
    ensures Path(s.nodes, path, offs) && path[0] == r && offs[0] == i && SameButFlat(old(s.nodes), s.nodes)
    ensures slot.Some? ==> ToLeaf(s.nodes, path, offs, slot.value.0, slot.value.1)
    ensures slot.Some? ==> Exclusive(s.nodes, path) && Bare(s.nodes, path)
    ensures slot.None? ==> s.nodes == old(s.nodes)
    ensures slot.Some? <==> old(Writable(s.nodes, r, i))
  {
    hide Inv, Later, Path, Shape, Body.Rank, Fetching, Step, ToLeaf, Exclusive, Bare, SameButFlat, Counted, Writable;
    ghost var h := s.nodes;
    LaterReflexive(h, s.next, s.roots);
    InParts(h, s.next, s.roots);
    var stack := new Ref[MAX_ROPE_DEPTH];
    var csptr: nat := 0;
    var n: Ref, k: nat := r, i;
    path, offs := [r], [i];
    FetchStart(h, r, i);
    assert stack[..csptr] == [];
    while true
      invariant s.nodes == h && n in h && k < h[n].body.Size()
      invariant csptr + h[n].body.Depth() <= MAX_ROPE_DEPTH && Fetching(h, r, i, path, offs, n, k, stack[..csptr])
      invariant Writable(h, r, i) == Writable(h, n, k)
      decreases h[n].body.Rank()
    {
      FetchPath(h, r, i, path, offs, n, k, stack[..csptr]);
      WritableHere(h, n, k);
      if s.nodes[n].refs > 1 {
        return None, path, offs;
      }
      RefsPositive(h, s.roots, n);
      match s.nodes[n].body {
        case ConcatBody(left, right, _, _, _) =>
          OneDown(h, n, k);
          ghost var cleared, was, at := stack[..csptr], n, k;
          if s.nodes[n].flat.Some? {
            stack[csptr] := n;
            csptr := csptr + 1;
          }
          assert stack[..csptr] == if h[n].flat.Some? then cleared + [n] else cleared;
          if k >= s.nodes[left].body.Size() {
            k := k - s.nodes[left].body.Size();
            n := right;
          } else {
            n := left;
          }
          FetchDown(h, r, i, path, offs, was, at, cleared, n, k);
          path, offs := path + [n], offs + [k];
        case LeafBody(_, _) =>
          FetchLeaf(h, r, i, path, offs, n, k, stack[..csptr]);
          ClearFlats(s, stack, csptr, path);
          PathSame(h, s.nodes, path, offs, n, k);
          return Some((n, k)), path, offs;
        case ProducerBody(_) =>
          return None, path, offs;
        case SubstringBody(_, _, _) =>
          return None, path, offs;
      }
    }
  }

  lemma WritableHere(h: Nodes, n: Ref, k: nat)
    requires Shape(h) && n in h
    ensures h[n].refs > 1 ==> !Writable(h, n, k)
    ensures h[n].refs == 1 && h[n].body.ConcatBody? ==>
      && h[n].body.left in h && h[n].body.right in h
      && var leftLen := h[h[n].body.left].body.Size();
         Writable(h, n, k) ==
         if k >= leftLen then Writable(h, h[n].body.right, k - leftLen) else Writable(h, h[n].body.left, k)
    ensures h[n].refs == 1 && !h[n].body.ConcatBody? ==> (Writable(h, n, k) <==> h[n].body.LeafBody?)
  {
    assert NodeOk(h, n);
  }

  // The state of the loop of _S_fetch_ptr: everything before n is referenced once, and is
  // to be cleared if it has a flattened copy.
  ghost predicate Fetching(h: Nodes, r: Ref, i: nat, path: seq<Ref>, offs: seq<nat>, n: Ref, k: nat,
                           cleared: seq<Ref>) {
    && Path(h, path, offs) && path[0] == r && offs[0] == i && path[|path| - 1] == n && offs[|offs| - 1] == k
    && (forall j :: 0 <= j < |path| - 1 ==> h[path[j]].refs == 1 && (h[path[j]].flat.Some? ==> path[j] in cleared))
    && forall q :: 0 <= q < |cleared| ==> cleared[q] in h
  }

  lemma FetchStart(h: Nodes, r: Ref, i: nat)
    requires r in h
    ensures Fetching(h, r, i, [r], [i], r, i, [])
  {
  }

  lemma FetchPath(h: Nodes, r: Ref, i: nat, path: seq<Ref>, offs: seq<nat>, n: Ref, k: nat, cleared: seq<Ref>)
    requires Fetching(h, r, i, path, offs, n, k, cleared)
    ensures Path(h, path, offs) && |path| == |offs| > 0 && path[0] == r && offs[0] == i && path[|path| - 1] == n
    ensures SameButFlat(h, h)
  {
  }

  lemma FetchDown(h: Nodes, r: Ref, i: nat, path: seq<Ref>, offs: seq<nat>, n: Ref, k: nat, cleared: seq<Ref>, n': Ref,
                  k': nat)
    requires Fetching(h, r, i, path, offs, n, k, cleared) && n in h && n' in h && h[n].refs == 1
    requires h[n].body.ConcatBody? && h[n].body.left in h
    requires var leftLen := h[h[n].body.left].body.Size();
      if k >= leftLen then n' == h[n].body.right && k' == k - leftLen else n' == h[n].body.left && k' == k
    ensures Fetching(h, r, i, path + [n'], offs + [k'], n', k', if h[n].flat.Some? then cleared + [n] else cleared)
  {
    assert Step(h, n, k, n', k');
    hide Step;
    Extend(h, path, offs, n', k');
  }

  lemma FetchLeaf(h: Nodes, r: Ref, i: nat, path: seq<Ref>, offs: seq<nat>, n: Ref, k: nat, cleared: seq<Ref>)
    requires Fetching(h, r, i, path, offs, n, k, cleared) && Shape(h)
    requires n in h && h[n].refs == 1 && h[n].body.LeafBody? && k < h[n].body.Size()
    ensures Exclusive(h, path) && ToLeaf(h, path, offs, n, k)
    ensures forall q :: 0 <= q < |cleared| ==> cleared[q] in h
    ensures forall j :: 0 <= j < |path| ==> path[j] in h && (h[path[j]].flat.Some? ==> path[j] in cleared)
  {
    hide Step;
    LeafIsBare(h, n);
  }

  lemma RefsPositive(h: Nodes, roots: multiset<Ref>, n: Ref)
    requires Counted(h, roots) && n in h
    ensures h[n].refs > 0
  {
  }

  lemma LeafIsBare(h: Nodes, n: Ref)
    requires Shape(h) && n in h && h[n].body.LeafBody?
    ensures h[n].flat.None?
  {
    assert NodeOk(h, n);
  }

  lemma OneDown(h: Nodes, n: Ref, k: nat)
    requires Shape(h) && n in h && h[n].body.ConcatBody? && k < h[n].body.Size()
    ensures var b := h[n].body;
      && b.left in h && b.right in h
      && h[b.left].body.Depth() < b.Depth() && h[b.right].body.Depth() < b.Depth()
      && h[b.left].body.Rank() < b.Rank() && h[b.right].body.Rank() < b.Rank()
      && (k >= h[b.left].body.Size() ==> k - h[b.left].body.Size() < h[b.right].body.Size())
  {
    hide BalancedFor;
    assert NodeOk(h, n);
  }

  // ----- appending in place -----

  /** What only builds keeps all references from outside. */
  lemma BuiltKept(h: Nodes, next: Ref, roots: multiset<Ref>, h': Nodes, next': Ref, roots': multiset<Ref>,
                  kept: multiset<Ref>)
    requires Inv(h, next, roots) && Inv(h', next', roots') && Later(h, next, h', next') && kept <= roots
    requires kept <= roots'
    ensures RootsKept(h, h', kept)
  {
    hide Inv, Later, Shape, Tree;
    Shaped(h, next, roots);
    Shaped(h', next', roots');
    forall n <- kept ensures n in h && n in h' && Tree(h', n) == Tree(h, n) {
      RootKept(h, next, roots, h', next', roots', n);
    }
  }

  lemma RootsKeptTransitive(h: Nodes, h': Nodes, h'': Nodes, roots: multiset<Ref>)
    requires RootsKept(h, h', roots) && RootsKept(h', h'', roots)
    ensures RootsKept(h, h'', roots)
  {
  }

  lemma RootsKeptFewer(h: Nodes, h': Nodes, roots: multiset<Ref>, fewer: multiset<Ref>)
    requires RootsKept(h, h', roots) && fewer <= roots
    ensures RootsKept(h, h', fewer)
  {
    hide Shape, Tree;
  }

  // A leaf with more characters in the memory it has, and a second reference.
  function Grown(h: Nodes, leaf: Ref, chars: string, refs: nat): Nodes
    requires leaf in h && h[leaf].body.LeafBody?
  {
    h[leaf := Node(refs, None, LeafBody(h[leaf].body.data + chars, h[leaf].body.capacity))]
  }

  predicate HasRoom(data: string, chars: string) {
    AllocatedCapacity(|data|) >= |data| + |chars|
  }

  // _S_destr_leaf_concat_char_iter
  method DestrLeafConcatCharIter(s: Store, leaf: Ref, chars: string) returns (result: Ref)
    requires s.Valid() && leaf in s.nodes && s.nodes[leaf].body.LeafBody? && chars != ""
    modifies s
    ensures result == leaf <==> old(s.nodes[leaf].refs) == 1 && HasRoom(old(s.nodes[leaf].body.data), chars)
    ensures result == leaf ==>
      && s.nodes == Grown(old(s.nodes), leaf, chars, 2)
      && s.next == old(s.next) && s.roots == old(s.roots)
    ensures result != leaf ==>
      && s.Valid() && s.roots == old(s.roots) + multiset{result} && result == old(s.next) && result in s.nodes
      && Later(old(s.nodes), old(s.next), s.nodes, s.next)
      && s.nodes[result].body.LeafBody? && s.nodes[result].body.data == old(s.nodes[leaf].body.data) + chars
      && s.nodes == old(s.nodes)[result := s.nodes[result]] && Tree(s.nodes, result) == Leaf(s.nodes[result].body.data)
  {
    hide Inv, Shape, Later, Tree;
    InParts(s.nodes, s.next, s.roots);
    RefsPositive(s.nodes, s.roots, leaf);
    LeafTree(s.nodes, leaf);
    if s.nodes[leaf].refs > 1 {
      result := LeafConcatCharIter(s, leaf, chars);
      Shaped(s.nodes, s.next, s.roots);
      LeafTree(s.nodes, result);
      return;
    }
    var oldLen := s.nodes[leaf].body.Size();
    if AllocatedCapacity(oldLen) >= oldLen + |chars| {
      s.nodes := s.nodes[leaf := Node(2, None, LeafBody(s.nodes[leaf].body.data + chars, s.nodes[leaf].body.capacity))];
      result := leaf;
    } else {
      result := LeafConcatCharIter(s, leaf, chars);
      Shaped(s.nodes, s.next, s.roots);
      LeafTree(s.nodes, result);
    }
  }

  lemma AlonePath(h: Nodes, next: Ref, roots: multiset<Ref>, r: Ref)
    requires Inv(h, next, roots) && r in roots && h[r].refs == 1
    ensures forall m <- h :: m != r ==> EdgesFrom(h[m].body, r) == 0
    ensures forall n <- roots - multiset{r} :: n in h && n != r
  {
    hide Inv, EdgesFrom;
    RootsIn(h, next, roots, r);
    assert Path(h, [r], [0]) && Exclusive(h, [r]);
    NothingPointsIn(h, next, roots, [r], [0]);
    assert Elements([r]) == {r};
    assert r in {r};
  }

  /** A leaf that only one rope refers to grows in place. */
  lemma GrownRoot(h: Nodes, next: Ref, roots: multiset<Ref>, r: Ref, chars: string)
    requires Inv(h, next, roots) && r in roots && r in h && h[r].refs == 1 && h[r].body.LeafBody?
    requires AllocatedCapacity(|h[r].body.data|) >= |h[r].body.data| + |chars|
    ensures var h' := Grown(h, r, chars, 2);
      && Inv(h', next, roots + multiset{r}) && Tree(h', r) == Leaf(h[r].body.data + chars)
      && RootsKept(h, h', roots - multiset{r})
  {
    hide Shape, FlatOk, Counted, Tree, Edges, EdgesFrom;
    var h' := Grown(h, r, chars, 2);
    AlonePath(h, next, roots, r);
    GrownLeafOk(h, h', r, chars);
    Patched(h, h', {r});
    GrownCounts(h, roots, r, chars);
    LeafTree(h', r);
  }

  lemma GrownLeafOk(h: Nodes, h': Nodes, leaf: Ref, chars: string)
    requires Shape(h) && leaf in h && h[leaf].body.LeafBody? && leaf in h'
    requires h'[leaf].body == LeafBody(h[leaf].body.data + chars, h[leaf].body.capacity) && h'[leaf].flat.None?
    requires AllocatedCapacity(|h[leaf].body.data|) >= |h[leaf].body.data| + |chars|
    ensures NodeOk(h', leaf)
  {
    assert NodeOk(h, leaf);
    GrowthInPlace(|h[leaf].body.data|, |chars|);
  }

  lemma GrownCounts(h: Nodes, roots: multiset<Ref>, r: Ref, chars: string)
    requires Counted(h, roots) && r in h && h[r].refs == 1 && h[r].body.LeafBody?
    ensures Counted(Grown(h, r, chars, 2), roots + multiset{r})
  {
    hide Edges, EdgesFrom;
    var h' := Grown(h, r, chars, 2);
    forall n <- h ensures Edges(h', n) == Edges(h, n) {
      EdgesUpdate(h, r, h'[r], n);
      LeafEdges(h[r].body, h'[r].body, n);
    }
  }

  // A concatenation with another last leaf that is longer by more characters, no flattened
  // copy, and a second reference.
  function Relinked(h: Nodes, r: Ref, right: Ref, more: nat): Nodes
    requires r in h && h[r].body.ConcatBody?
  {
    h[r := Node(2, None, h[r].body.(right := right, total := h[r].body.total + more))]
  }

  lemma RelinkedOk(h: Nodes, h': Nodes, r: Ref, right: Ref, more: nat)
    requires Shape(h) && r in h && h[r].body.ConcatBody? && h[r].body.right in h && h[h[r].body.right].body.LeafBody?
    requires r in h' && h'[r].body == h[r].body.(right := right, total := h[r].body.total + more)
    requires h[r].body.left in h && h[r].body.left in h' && h'[h[r].body.left].body == h[h[r].body.left].body
    requires right in h' && h'[right].body.LeafBody? && h'[right].body.Size() == h[h[r].body.right].body.Size() + more
    ensures NodeOk(h', r)
  {
    assert NodeOk(h, r);
  }

  /** A concatenation and its last leaf, both referred to once, grow in place. */
  lemma GrownLast(h: Nodes, next: Ref, roots: multiset<Ref>, r: Ref, chars: string, text: string)
    requires Inv(h, next, roots) && r in roots && r in h && h[r].refs == 1 && h[r].body.ConcatBody?
    requires h[r].body.right in h && h[h[r].body.right].refs == 1 && h[h[r].body.right].body.LeafBody?
    requires AllocatedCapacity(h[h[r].body.right].body.Size()) >= h[h[r].body.right].body.Size() + |chars|
    requires Given(h, Some(r), text) && |text + chars| <= MAX_SIZE
    ensures var h' := Relinked(Grown(h, h[r].body.right, chars, 1), r, h[r].body.right, |chars|);
      && Inv(h', next, roots + multiset{r}) && Given(h', Some(r), text + chars)
      && RootsKept(h, h', roots - multiset{r}) && Prolonged(Tree(h, r), Tree(h', r), chars)
  {
    hide Inv, Shape, FlatOk, Counted, Tree, Edges, EdgesFrom, NodeOk, Given;
    InParts(h, next, roots);
    var left, right := h[r].body.left, h[r].body.right;
    var h' := Relinked(Grown(h, right, chars, 1), r, right, |chars|);
    LastPath(h, next, roots, r);
    GrownLeafOk(h, h', right, chars);
    RelinkedOk(h, h', r, right, |chars|);
    Patched(h, h', {r, right});
    GrownLastCounts(h, roots, r, chars);
    OutOfParts(h', next, roots + multiset{r});
    AppendedText(h, h', r, right, chars, text);
  }

  lemma LastPath(h: Nodes, next: Ref, roots: multiset<Ref>, r: Ref)
    requires Inv(h, next, roots) && r in roots && r in h && h[r].refs == 1 && h[r].body.ConcatBody?
    requires h[r].body.right in h && h[h[r].body.right].refs == 1
    ensures forall m <- h, c <- {r, h[r].body.right} :: m != r && m != h[r].body.right ==> EdgesFrom(h[m].body, c) == 0
    ensures forall n <- roots - multiset{r} :: n in h && n != r && n != h[r].body.right
    ensures h[r].body.left in h && h[r].body.left != h[r].body.right && h[r].body.left != r && h[r].body.right != r
  {
    hide Inv, EdgesFrom, Body.Rank;
    Shaped(h, next, roots);
    var b := h[r].body;
    ConcatFields(h, r);
    ConcatRanks(h, r);
    var i := h[b.left].body.Size();
    assert Step(h, r, i, b.right, 0);
    var path := [r, b.right];
    assert Path(h, path, [i, 0]) && Exclusive(h, path);
    NothingPointsIn(h, next, roots, path, [i, 0]);
    assert Elements(path) == {r, b.right};
    SiblingOffPath(h, next, roots, path, [i, 0], 0);
  }

  lemma ConcatRanks(h: Nodes, r: Ref)
    requires Shape(h) && r in h && h[r].body.ConcatBody?
    ensures h[r].body.left != r && h[r].body.right != r
  {
    hide BalancedFor;
    assert NodeOk(h, r);
  }

  lemma GrownLastCounts(h: Nodes, roots: multiset<Ref>, r: Ref, chars: string)
    requires Counted(h, roots) && r in h && h[r].refs == 1 && h[r].body.ConcatBody?
    requires h[r].body.right in h && h[h[r].body.right].refs == 1 && h[h[r].body.right].body.LeafBody?
    ensures Counted(Relinked(Grown(h, h[r].body.right, chars, 1), r, h[r].body.right, |chars|), roots + multiset{r})
  {
    hide Edges, EdgesFrom;
    var right := h[r].body.right;
    var h1 := Grown(h, right, chars, 1);
    var h' := Relinked(h1, r, right, |chars|);
    forall n <- h ensures Edges(h', n) == Edges(h, n) {
      EdgesUpdate(h, right, h1[right], n);
      LeafEdges(h[right].body, h1[right].body, n);
      EdgesUpdate(h1, r, h'[r], n);
      SameChildren(h[r].body, h'[r].body, n);
    }
  }

  lemma SameChildren(b: Body, b': Body, n: Ref)
    requires b.ConcatBody? && b'.ConcatBody? && b.left == b'.left && b.right == b'.right
    ensures EdgesFrom(b, n) == EdgesFrom(b', n)
  {
  }

  lemma AppendedText(h: Nodes, h': Nodes, r: Ref, right': Ref, chars: string, text: string)
    requires Given(h, Some(r), text) && |text + chars| <= MAX_SIZE && r in h && h[r].body.ConcatBody?
    requires h[r].body.right in h && h[h[r].body.right].body.LeafBody? && h[r].body.left in h
    requires Shape(h') && r in h' && h'[r].body == h[r].body.(right := right', total := h[r].body.total + |chars|)
    requires right' in h' && h'[right'].body.LeafBody? && h'[right'].body.data == h[h[r].body.right].body.data + chars
    requires h[r].body.left in h' && Tree(h', h[r].body.left) == Tree(h, h[r].body.left)
    ensures Given(h', Some(r), text + chars) && Shape(h) && Prolonged(Tree(h, r), Tree(h', r), chars)
  {
    hide Tree, Given, Shape, Rope.Valid;
    GivenFields(h, Some(r), text);
    ConcatFields(h, r);
    ConcatFields(h', r);
    var left, right := h[r].body.left, h[r].body.right;
    TextParts(h, r);
    TextParts(h', r);
    LeafTree(h, right);
    LeafTree(h', right');
    TreeFields(h, r);
    TreeFields(h', r);
    var l := Tree(h, left).Text();
    assert (l + h[right].body.data) + chars == l + (h[right].body.data + chars);
    GivenNode(h', r);
  }

  /** A concatenation that is referred to once gets a new last leaf; it lets go of the old one. */
  lemma Reattached(h: Nodes, next: Ref, roots: multiset<Ref>, r: Ref, right': Ref, chars: string, text: string)
    requires Inv(h, next, roots) && r in roots && r in h && h[r].refs == 1 && h[r].body.ConcatBody?
    requires h[r].body.right in h && h[h[r].body.right].body.LeafBody?
    requires right' in roots - multiset{r} && right' in h && right' != h[r].body.right && h[right'].body.LeafBody?
    requires h[right'].body.data == h[h[r].body.right].body.data + chars
    requires Given(h, Some(r), text) && |text + chars| <= MAX_SIZE
    ensures var h' := Relinked(h, r, right', |chars|);
      && Inv(h', next, roots - multiset{right'} + multiset{r} + multiset{h[r].body.right})
      && Given(h', Some(r), text + chars)
      && RootsKept(h, h', roots - multiset{r}) && Prolonged(Tree(h, r), Tree(h', r), chars)
  {
    hide Inv, Shape, FlatOk, Counted, Tree, Edges, EdgesFrom, NodeOk, Given;
    InParts(h, next, roots);
    var left, right := h[r].body.left, h[r].body.right;
    var h' := Relinked(h, r, right', |chars|);
    AlonePath(h, next, roots, r);
    ConcatFields(h, r);
    ConcatRanks(h, r);
    RelinkedOk(h, h', r, right', |chars|);
    Patched(h, h', {r});
    ReattachedCounts(h, roots, r, right', |chars|);
    OutOfParts(h', next, roots - multiset{right'} + multiset{r} + multiset{right});
    AppendedText(h, h', r, right', chars, text);
  }

  lemma ReattachedCounts(h: Nodes, roots: multiset<Ref>, r: Ref, right': Ref, more: nat)
    requires Counted(h, roots) && r in roots && r in h && h[r].refs == 1 && h[r].body.ConcatBody?
    requires h[r].body.right in h && h[r].body.right != r && right' in roots - multiset{r} && right' in h && right' != r
    requires right' != h[r].body.right
    ensures Counted(Relinked(h, r, right', more), roots - multiset{right'} + multiset{r} + multiset{h[r].body.right})
  {
    hide Edges, EdgesFrom;
    var right := h[r].body.right;
    var h', roots' := Relinked(h, r, right', more), roots - multiset{right'} + multiset{r} + multiset{right};
    forall n <- h' ensures h'[n].refs == roots'[n] + Edges(h', n) && h'[n].refs > 0 {
      EdgesUpdate(h, r, h'[r], n);
      OtherChildren(h[r].body, h'[r].body, n);
    }
  }

  lemma OtherChildren(b: Body, b': Body, n: Ref)
    requires b.ConcatBody? && b'.ConcatBody? && b.left == b'.left
    ensures EdgesFrom(b', n) + (if n == b.right then 1 else 0) == EdgesFrom(b, n) + (if n == b'.right then 1 else 0)
  {
  }

  // The leaf case of _S_destr_concat_char_iter.
  method AppendToLeaf(s: Store, r: Ref, chars: string, ghost text: string) returns (result: Ref)
    requires s.Valid() && r in s.roots && r in s.nodes && s.nodes[r].refs == 1 && s.nodes[r].body.LeafBody?
    requires chars != "" && Given(s.nodes, Some(r), text) && |text + chars| <= MAX_SIZE
    modifies s
    ensures s.Valid() && s.roots == old(s.roots) + multiset{result} && Given(s.nodes, Some(result), text + chars)
    ensures old(s.next) <= s.next && RootsKept(old(s.nodes), s.nodes, old(s.roots) - multiset{r})
    ensures TreeOf(s.nodes, Some(result)) == Some(Leaf(text + chars))
    ensures result == r <==> HasRoom(old(s.nodes[r].body.data), chars)
  {
    hide Inv, Shape, Later, Tree, Given, RootsKept, Counted, FlatOk;
    ghost var h, t, before := s.nodes, s.next, s.roots;
    GivenFields(h, Some(r), text);
    LeafTree(h, r);
    result := DestrLeafConcatCharIter(s, r, chars);
    if result == r {
      GrownRoot(h, t, before, r, chars);
      s.roots := s.roots + multiset{r};
    } else {
      Forward(h, t, s.nodes, s.next);
      BuiltKept(h, t, before, s.nodes, s.next, s.roots, before - multiset{r});
    }
    LeafGiven(s.nodes, s.next, s.roots, result, text + chars);
  }

  lemma Forward(h: Nodes, next: Ref, h': Nodes, next': Ref)
    requires Later(h, next, h', next')
    ensures next <= next'
  {
  }

  // A tree with a longer last leaf, which keeps its mark.
  ghost predicate Prolonged(r: Rope, r': Rope, chars: string) {
    r.Concatenation? && r.right.Leaf? && r' == r.(right := Leaf(r.right.data + chars), total := r.total + |chars|)
  }

  // The case of a concatenation that ends in a short leaf. The link to a new leaf is set
  // before the old leaf is let go.
  method AppendToLastLeaf(s: Store, r: Ref, chars: string, ghost text: string)
    requires s.Valid() && r in s.roots && r in s.nodes && s.nodes[r].refs == 1 && s.nodes[r].body.ConcatBody?
    requires s.nodes[r].body.right in s.nodes && s.nodes[s.nodes[r].body.right].body.LeafBody?
    requires chars != "" && Given(s.nodes, Some(r), text) && |text + chars| <= MAX_SIZE
    modifies s
    ensures s.Valid() && s.roots == old(s.roots) + multiset{r} && Given(s.nodes, Some(r), text + chars)
    ensures old(s.next) <= s.next && RootsKept(old(s.nodes), s.nodes, old(s.roots) - multiset{r})
    ensures Prolonged(old(Tree(s.nodes, r)), Tree(s.nodes, r), chars)
  {
    hide Inv, Shape, Later, Tree, Given, RootsKept, Counted, FlatOk;
    ghost var h, t, before := s.nodes, s.next, s.roots;
    Fresh(h, t, before);
    var right := s.nodes[r].body.right;
    ConcatRanks(h, r) by { Shaped(h, t, before); }
    var newRight := DestrLeafConcatCharIter(s, right, chars);
    if newRight == right {
      GrownLast(h, t, before, r, chars, text);
      s.nodes := s.nodes[right := s.nodes[right].(refs := 1)];
      assert s.nodes == Grown(h, right, chars, 1);
      s.nodes := Relinked(s.nodes, r, right, |chars|);
      s.roots := s.roots + multiset{r};
    } else {
      ghost var h1, t1 := s.nodes, s.next;
      Built(h, t, before, h1, t1, s.roots, Some(r), text);
      OneKept(h, t, before, h1, t1, s.roots, r);
      OneOf(r);
      Reattach(s, r, newRight, chars, text, before);
      RootsKeptTransitive(h, h1, s.nodes, before - multiset{r});
    }
  }

  // Sets the link to the new leaf and lets the old one go.
  method Reattach(s: Store, r: Ref, newRight: Ref, chars: string, ghost text: string, ghost before: multiset<Ref>)
    requires s.Valid() && r in before && s.roots == before + multiset{newRight} && r in s.nodes && newRight in s.nodes
    requires s.nodes[r].refs == 1 && s.nodes[r].body.ConcatBody? && newRight != r && newRight != s.nodes[r].body.right
    requires s.nodes[r].body.right in s.nodes && s.nodes[s.nodes[r].body.right].body.LeafBody?
    requires s.nodes[newRight].body.LeafBody?
    requires s.nodes[newRight].body.data == s.nodes[s.nodes[r].body.right].body.data + chars
    requires Given(s.nodes, Some(r), text) && |text + chars| <= MAX_SIZE
    modifies s
    ensures s.Valid() && s.roots == before + multiset{r} && Given(s.nodes, Some(r), text + chars)
    ensures old(s.next) == s.next && RootsKept(old(s.nodes), s.nodes, before - multiset{r})
    ensures Prolonged(old(Tree(s.nodes, r)), Tree(s.nodes, r), chars)
  {
    hide Inv, Shape, Later, Tree, Given, RootsKept, One;
    ghost var h1, t1, roots1 := s.nodes, s.next, s.roots;
    var right := s.nodes[r].body.right;
    LinkRoots(before, r, newRight, right);
    Reattached(h1, t1, roots1, r, newRight, chars, text);
    s.nodes := Relinked(s.nodes, r, newRight, |chars|);
    s.roots := s.roots - multiset{newRight} + multiset{r} + multiset{right};
    ghost var h2 := s.nodes;
    RootsKeptFewer(h1, h2, roots1 - multiset{r}, before - multiset{r});
    OneOf(right);
    ReleaseKeeping(s, Some(right), before + multiset{r}, before - multiset{r}, r, text + chars);
    RootsKeptTransitive(h1, h2, s.nodes, before - multiset{r});
  }

  // Gives up one reference; what kept holds, and the result, are held otherwise.
  method ReleaseKeeping(s: Store, r: Option<Ref>, ghost rest: multiset<Ref>, ghost kept: multiset<Ref>,
                        ghost result: Ref, ghost text: string)
    requires s.Valid() && s.roots == rest + One(r) && kept <= rest && result in rest
    requires Given(s.nodes, Some(result), text)
    modifies s
    ensures s.Valid() && s.roots == rest && Given(s.nodes, Some(result), text)
    ensures TreeOf(s.nodes, Some(result)) == old(TreeOf(s.nodes, Some(result)))
    ensures s.next == old(s.next) && RootsKept(old(s.nodes), s.nodes, kept)
  {
    hide Inv, Shape, Later, Tree, Given, RootsKept, One;
    ghost var h, t, roots := s.nodes, s.next, s.roots;
    Released(rest, r);
    s.Release(r);
    BuiltKept(h, t, roots, s.nodes, t, s.roots, kept);
    OneOf(result);
    GivenRoot(h, t, roots, s.nodes, t, s.roots, Some(result), text);
  }

  lemma Fresh(h: Nodes, next: Ref, roots: multiset<Ref>)
    requires Inv(h, next, roots)
    ensures forall n <- h :: n < next
  {
  }

  lemma LinkRoots(before: multiset<Ref>, r: Ref, newRight: Ref, right: Ref)
    requires r in before
    ensures var roots1 := before + multiset{newRight};
      var roots2 := roots1 - multiset{newRight} + multiset{r} + multiset{right};
      && roots2 == before + multiset{r} + multiset{right}
      && before - multiset{r} <= roots1 - multiset{r} && before - multiset{r} <= before + multiset{r}
      && r in before + multiset{r}
      && (newRight != r ==> newRight in roots1 - multiset{r}) && r in roots1
  {
  }

  // When appending happens in place: in the last leaf of a concatenation that nothing else
  // refers to, and in a leaf that nothing else refers to and that has room.
  ghost predicate ExtendsLast(h: Nodes, r: Ref, chars: string)
    requires r in h
  {
    && h[r].refs == 1 && h[r].body.ConcatBody? && h[r].body.right in h && h[h[r].body.right].body.LeafBody?
    && h[h[r].body.right].body.Size() + |chars| <= COPY_MAX
  }

  ghost predicate ExtendsLeaf(h: Nodes, r: Ref, chars: string)
    requires r in h
  {
    && h[r].refs == 1 && h[r].body.LeafBody? && h[r].body.Size() + |chars| <= COPY_MAX
    && HasRoom(h[r].body.data, chars)
  }

  // _S_destr_concat_char_iter: its caller is about to give up one reference to r.
  method DestrConcatCharIter(s: Store, r: Option<Ref>, chars: string, ghost text: string) returns (result: Option<Ref>)
    requires s.Valid() && One(r) <= s.roots && Given(s.nodes, r, text) && |text + chars| <= MAX_SIZE
    modifies s
    ensures s.Valid() && s.roots == old(s.roots) + One(result) && Given(s.nodes, result, text + chars)
    ensures old(s.next) <= s.next && RootsKept(old(s.nodes), s.nodes, old(s.roots) - One(r))
    ensures if chars != "" && r.Some? && old(ExtendsLast(s.nodes, r.value, chars))
            then result == r && Prolonged(old(Tree(s.nodes, r.value)), Tree(s.nodes, r.value), chars)
            else TreeOf(s.nodes, result) == Concatenated(old(TreeOf(s.nodes, r)), LeafFor(chars))
    ensures chars != "" && r.Some? ==>
              (result == r <==> old(ExtendsLast(s.nodes, r.value, chars) || ExtendsLeaf(s.nodes, r.value, chars)))
  {
    hide Inv, Shape, Later, Tree, TreeOf, Given, RootsKept, Counted, FlatOk, Concatenated, TreeConcatOf, LeafFor;
    ghost var h, t, before := s.nodes, s.next, s.roots;
    GivenFields(h, r, text);
    if r.None? || s.nodes[r.value].refs > 1 {
      result := ConcatCharIter(s, r, chars, text);
      BuiltAnew(h, t, before, s.nodes, s.next, s.roots, r, result, text, chars);
      return;
    }
    var node := r.value;
    assert node in One(r);
    InParts(h, t, before);
    RefsPositive(h, before, node);
    if chars == "" {
      s.Reference(node);
      assert text + chars == text;
      Built(h, t, before, s.nodes, s.next, s.roots, r, text);
      NothingAppended(TreeOf(h, r));
      return r;
    }
    CharsMerge(h, t, before, node, chars);
    if s.nodes[node].body.LeafBody? {
      if s.nodes[node].body.Size() + |chars| <= COPY_MAX {
        var grown := AppendToLeaf(s, node, chars, text);
        LeafAppended(TreeOf(h, r), text, chars);
        return Some(grown);
      }
    }
    if s.nodes[node].body.ConcatBody? {
      ConcatFields(h, node);
      var right := s.nodes[node].body.right;
      if s.nodes[right].body.LeafBody? && s.nodes[right].body.Size() + |chars| <= COPY_MAX {
        AppendToLastLeaf(s, node, chars, text);
        return r;
      }
    }
    var joined := AppendLeaf(s, node, chars, text);
    result := Some(joined);
    LeafBehind(Tree(h, node), chars);
    BuiltAnew(h, t, before, s.nodes, s.next, s.roots, r, result, text, chars);
  }

  lemma NothingAppended(r: Option<Rope>)
    ensures Concatenated(r, LeafFor("")) == r
  {
  }

  lemma LeafAppended(r: Option<Rope>, text: string, chars: string)
    requires r.Some? && r.value.Leaf? && r.value.data == text && chars != ""
    requires MergesLeaves(r.value, Leaf(chars))
    ensures Concatenated(r, LeafFor(chars)) == Some(Leaf(text + chars))
  {
  }

  lemma LeafBehind(r: Rope, chars: string)
    requires chars != "" && !MergesLeaves(r, Leaf(chars))
    ensures Concatenated(Some(r), LeafFor(chars)) == TreeConcatOf(r, Leaf(chars))
  {
    hide TreeConcatOf;
  }

  // A longer text needs another node.
  lemma BuiltAnew(h: Nodes, next: Ref, roots: multiset<Ref>, h': Nodes, next': Ref, roots': multiset<Ref>,
                  r: Option<Ref>, result: Option<Ref>, text: string, chars: string)
    requires Inv(h, next, roots) && Inv(h', next', roots') && Later(h, next, h', next') && One(r) <= roots <= roots'
    requires Given(h, r, text) && Given(h', result, text + chars)
    ensures next <= next' && RootsKept(h, h', roots - One(r))
    ensures chars != "" && r.Some? ==> result != r
  {
    hide Inv, Shape, Later, Tree, Given, RootsKept;
    Built(h, next, roots, h', next', roots', r, text);
    GivenFields(h', r, text);
    GivenFields(h', result, text + chars);
    assert |text + chars| == |text| + |chars|;
  }

  lemma Built(h: Nodes, next: Ref, roots: multiset<Ref>, h': Nodes, next': Ref, roots': multiset<Ref>, r: Option<Ref>,
              text: string)
    requires Inv(h, next, roots) && Inv(h', next', roots') && Later(h, next, h', next') && roots <= roots'
    requires Given(h, r, text)
    ensures next <= next' && RootsKept(h, h', roots - One(r)) && Given(h', r, text) && TreeOf(h', r) == TreeOf(h, r)
  {
    hide Inv, Shape, Later, Tree, Given, RootsKept;
    Forward(h, next, h', next');
    BuiltKept(h, next, roots, h', next', roots', roots - One(r));
    GivenKept(h, next, roots, h', next', roots', r, text);
  }

  // ----- assignment through a reference proxy -----

  lemma GivenByRoots(h: Nodes, h': Nodes, roots: multiset<Ref>, r: Option<Ref>, text: string)
    requires RootsKept(h, h', roots) && One(r) <= roots && Given(h, r, text)
    ensures Given(h', r, text) && TreeOf(h', r) == TreeOf(h, r)
  {
    hide Tree, Shape, Rope.Valid, Rope.Text;
    if r.Some? { assert r.value in One(r); }
  }

  // operator= of a reference to one character of a rope whose tree is root. The reference
  // of the rope to root is replaced by one to the result.
  method AssignChar(s: Store, root: Ref, pos: nat, c: char, ghost text: string) returns (result: Ref)
    requires s.Valid() && root in s.roots && Given(s.nodes, Some(root), text) && pos < |text|
    modifies s
    ensures s.Valid() && s.roots == old(s.roots) - multiset{root} + multiset{result}
    ensures Given(s.nodes, Some(result), text[pos := c])
    ensures old(s.next) <= s.next && RootsKept(old(s.nodes), s.nodes, old(s.roots) - multiset{root})
    ensures old(Writable(s.nodes, root, pos)) ==> result == root && s.next == old(s.next)
  {
    hide Inv, Shape, Later, Tree, Given, RootsKept, Path, Exclusive, Bare, ToLeaf, SameButFlat, Writable;
    ghost var h, t, before := s.nodes, s.next, s.roots;
    GivenFields(h, Some(root), text);
    var slot, path, offs := FetchPtr(s, root, pos);
    ghost var h1 := s.nodes;
    Built(h, t, before, h1, t, before, Some(root), text);
    if slot.Some? {
      var leaf, k := slot.value.0, slot.value.1;
      LeafOnPath(h1, path, offs, leaf, k);
      LeafSlot(h1, path, offs, leaf, k);
      CharAssigned(h1, t, before, path, offs, leaf, k, c, text);
      s.nodes := WithChar(s.nodes, leaf, k, c);
      result := root;
      RootsKeptTransitive(h, h1, s.nodes, before - multiset{root});
      assert before - multiset{root} + multiset{root} == before;
    } else {
      result := ReplaceChar(s, root, pos, c, text);
      RootsKeptTransitive(h, h1, s.nodes, before - multiset{root});
    }
  }

  lemma LeafSlot(h: Nodes, path: seq<Ref>, offs: seq<nat>, leaf: Ref, k: nat)
    requires ToLeaf(h, path, offs, leaf, k)
    ensures leaf in h && h[leaf].body.LeafBody? && k < |h[leaf].body.data|
  {
  }

  // The rest of operator=: both sides of the character, joined around the new one.
  method ReplaceChar(s: Store, root: Ref, pos: nat, c: char, ghost text: string) returns (result: Ref)
    requires s.Valid() && root in s.roots && Given(s.nodes, Some(root), text) && pos < |text|
    modifies s
    ensures s.Valid() && s.roots == old(s.roots) - multiset{root} + multiset{result}
    ensures Given(s.nodes, Some(result), text[pos := c])
    ensures old(s.next) <= s.next && RootsKept(old(s.nodes), s.nodes, old(s.roots) - multiset{root})
  {
    hide Inv, Shape, Later, Tree, Given, RootsKept, Slice, One;
    ghost var h, t, before := s.nodes, s.next, s.roots;
    GivenFields(h, Some(root), text);
    ghost var lt, rt := Slice(text, 0, pos), Slice(text, pos + 1, |text|);
    CharParts(text, pos, c);
    var left := Substring(s, Some(root), 0, pos, text);
    ghost var h1, t1, roots1 := s.nodes, s.next, s.roots;
    GivenKept(h, t, before, h1, t1, roots1, Some(root), text);
    OneKept(h, t, before, h1, t1, roots1, root);
    var size := SizeField(s, Some(root), text);
    var right := Substring(s, Some(root), pos + 1, size, text);
    ghost var h2, t2, roots2 := s.nodes, s.next, s.roots;
    LaterTransitive(h, t, h1, t1, h2, t2);
    GivenKept(h1, t1, roots1, h2, t2, roots2, left, lt);
    BuiltKept(h, t, before, h2, t2, roots2, before - multiset{root}) by { SidesHeld(before, left, right, root); }
    Forward(h, t, h2, t2);
    result := JoinAround(s, root, left, c, right, lt, rt, before);
    RootsKeptTransitive(h, h2, s.nodes, before - multiset{root});
  }

  // Appends the character to the left side, in place if it is new, joins the right side to
  // that, and gives up the old root and everything built on the way.
  method JoinAround(s: Store, root: Ref, left: Option<Ref>, c: char, right: Option<Ref>,
                    ghost lt: string, ghost rt: string, ghost before: multiset<Ref>)
    returns (result: Ref)
    requires s.Valid() && root in before && s.roots == before + One(left) + One(right)
    requires Given(s.nodes, left, lt) && Given(s.nodes, right, rt) && |lt + [c] + rt| <= MAX_SIZE
    modifies s
    ensures s.Valid() && s.roots == before - multiset{root} + multiset{result}
    ensures Given(s.nodes, Some(result), lt + [c] + rt)
    ensures old(s.next) <= s.next && RootsKept(old(s.nodes), s.nodes, before - multiset{root})
  {
    hide Inv, Shape, Later, Tree, Given, RootsKept, One;
    ghost var h2, roots2, kept := s.nodes, s.roots, before - multiset{root};
    SidesHeld(before, left, right, root);
    var resultLeft := DestrConcatCharIter(s, left, [c], lt);
    ghost var h3, t3, roots3 := s.nodes, s.next, s.roots;
    GivenByRoots(h2, h3, roots2 - One(left), right, rt);
    RootsKeptFewer(h2, h3, roots2 - One(left), kept);
    var joined := JoinRopes(s, resultLeft, right, lt + [c], rt);
    ghost var h4, t4, roots4 := s.nodes, s.next, s.roots;
    Forward(h3, t3, h4, t4);
    GivenFields(h4, joined, lt + [c] + rt);
    result := joined.value;
    BuiltKept(h3, t3, roots3, h4, t4, roots4, kept);
    RootsKeptTransitive(h2, h3, h4, kept);
    OneOf(result);
    GiveUp(s, root, resultLeft, right, left, before, result, lt + [c] + rt);
    RootsKeptTransitive(h2, h4, s.nodes, kept);
  }

  lemma CharParts(text: string, pos: nat, c: char)
    requires pos < |text|
    ensures Slice(text, 0, pos) + [c] + Slice(text, pos + 1, |text|) == text[pos := c]
  {
  }

  lemma SidesHeld(before: multiset<Ref>, left: Option<Ref>, right: Option<Ref>, root: Ref)
    ensures var roots := before + One(left) + One(right);
      && One(left) <= roots && One(right) <= roots - One(left) && before - multiset{root} <= roots - One(left)
      && before - multiset{root} <= roots && before - multiset{root} <= before
  {
    hide One;
  }

  lemma Released(rest: multiset<Ref>, r: Option<Ref>)
    ensures rest + One(r) - One(r) == rest && (r.Some? ==> r.value in rest + One(r))
  {
  }

  // At the end of operator=: the old root and everything built on the way are given up.
  method GiveUp(s: Store, root: Ref, resultLeft: Option<Ref>, right: Option<Ref>, left: Option<Ref>,
                ghost before: multiset<Ref>, ghost result: Ref, ghost text: string)
    requires s.Valid() && root in before && Given(s.nodes, Some(result), text)
    requires s.roots == before + One(left) + One(right) + One(resultLeft) + multiset{result}
    modifies s
    ensures s.Valid() && s.roots == before - multiset{root} + multiset{result} && Given(s.nodes, Some(result), text)
    ensures s.next == old(s.next) && RootsKept(old(s.nodes), s.nodes, before - multiset{root})
  {
    hide Inv, Shape, Later, Tree, Given, RootsKept, One;
    ghost var h, kept := s.nodes, before - multiset{root};
    ghost var a := kept + multiset{result};
    AllGivenUp(before, root, left, right, resultLeft, result);
    ReleaseKeeping(s, Some(root), a + One(left) + One(right) + One(resultLeft), kept, result, text);
    ghost var h1 := s.nodes;
    ReleaseKeeping(s, resultLeft, a + One(left) + One(right), kept, result, text);
    RootsKeptTransitive(h, h1, s.nodes, kept);
    ghost var h2 := s.nodes;
    ReleaseKeeping(s, right, a + One(left), kept, result, text);
    RootsKeptTransitive(h, h2, s.nodes, kept);
    ghost var h3 := s.nodes;
    ReleaseKeeping(s, left, a, kept, result, text);
    RootsKeptTransitive(h, h3, s.nodes, kept);
  }

  lemma OneOf(r: Ref)
    ensures One(Some(r)) == multiset{r}
  {
  }

  lemma AllGivenUp(before: multiset<Ref>, root: Ref, left: Option<Ref>, right: Option<Ref>, resultLeft: Option<Ref>,
                   result: Ref)
    requires root in before
    ensures before + One(left) + One(right) + One(resultLeft) + multiset{result} ==
            before - multiset{root} + multiset{result} + One(left) + One(right) + One(resultLeft) + One(Some(root))
  {
    var x, y, z := One(left), One(right), One(resultLeft);
    assert One(Some(root)) == multiset{root} && before - multiset{root} + multiset{root} == before;
  }
}
