/**
 Concatenation and rebalancing of ropes: the mutually recursive `_S_concat`,
 `_S_tree_concat`, `_S_balance`, `_S_add_to_forest`, `_S_add_leaf_to_forest`.
 */
module RopeBalance {
  import opened Options
  import opened RopeForest
  import opened RopeStore
  import opened RopeTree

  // The forest of _S_balance; its references are counted.
  type Forest = array<Option<Ref>>

  // ----- what a forest stands for -----

  // The concatenation, in descending order, of the buckets from lo up.
  ghost function Above(f: seq<Option<Rope>>, lo: nat): string
    decreases |f| - lo
  {
    if lo >= |f| then "" else Above(f, lo + 1) + TextOf(f[lo])
  }

  // Marked, if the size allows the depth.
  ghost predicate Settled(r: Rope) {
    BalancedFor(r.Size(), r.Depth()) ==> r.IsBalanced()
  }

  // Bucket j holds trees of a size between two neighbouring table entries.
  ghost predicate InBucket(r: Rope, j: nat) {
    r.Valid() && Settled(r) && MinLen(j) <= r.Size() < MinLen(j + 1) && r.Depth() <= j + 1
  }

  ghost predicate ForestOk(f: seq<Option<Rope>>) {
    |f| == FOREST_SIZE && forall j :: 0 <= j < |f| && f[j].Some? ==> InBucket(f[j].value, j)
  }

  ghost predicate EmptyBelow(f: seq<Option<Rope>>, n: nat) {
    n <= |f| && forall j :: 0 <= j < n ==> f[j].None?
  }

  lemma {:induction false} AboveFrame(f: seq<Option<Rope>>, g: seq<Option<Rope>>, lo: nat)
    requires |f| == |g| && forall j :: lo <= j < |f| ==> f[j] == g[j]
    ensures Above(f, lo) == Above(g, lo)
    decreases |f| - lo
  {
    if lo < |f| {
      AboveFrame(f, g, lo + 1);
    }
  }

  lemma {:induction false} AboveEmpty(f: seq<Option<Rope>>, n: nat)
    requires EmptyBelow(f, n)
    ensures Above(f, 0) == Above(f, n)
  {
    if n > 0 {
      AboveEmpty(f, n - 1);
      assert Above(f, n - 1) == Above(f, n) + "";
    }
  }

  lemma NothingAbove(f: seq<Option<Rope>>)
    ensures Above(f, |f|) == ""
  {
  }

  lemma NothingIn(f: seq<Option<Rope>>)
    requires EmptyBelow(f, |f|)
    ensures Above(f, 0) == ""
  {
    AboveEmpty(f, |f|);
  }

  lemma {:induction false} BucketWithinTotal(f: seq<Option<Rope>>, lo: nat, j: nat)
    requires ForestOk(f) && lo <= j < |f| && f[j].Some?
    ensures f[j].value.Size() <= |Above(f, lo)|
    decreases j - lo
  {
    hide MinLen, Rope.Text, Rope.Valid;
    if lo < j {
      BucketWithinTotal(f, lo + 1, j);
    } else {
      SizeIsTextLength(f[j].value);
    }
  }

  // ----- when a concatenation sets off a rebalance -----

  function JoinDepth(left: Option<Rope>, right: Option<Rope>): nat {
    match (left, right)
    case (None, None) => 0
    case (None, Some(r)) => r.Depth()
    case (Some(l), None) => l.Depth()
    case (Some(l), Some(r)) => Max(l.Depth(), r.Depth()) + 1
  }

  predicate MayRebalance(left: Option<Rope>, right: Option<Rope>) {
    left.Some? && right.Some? && NeedsRebalance(SizeOf(left) + SizeOf(right), JoinDepth(left, right))
  }

  lemma FirstEntry()
    ensures MinLen(0) == 1
  {
  }

  // The two entries of the table that the trigger and max_size() are about.
  lemma KeyEntries()
    ensures MinLen(19) == 10946 && MinLen(44) == MAX_SIZE + 1
  {
    MinLenTable();
  }

  /** Roughly balanced pieces within max_size() never set off a rebalance. */
  lemma NoRebalanceWhenRoughlyBalanced(size: nat, depth: nat)
    requires size <= MAX_SIZE
    requires depth <= 1 || size >= MinLen(depth - 2)
    ensures depth <= MAX_ROPE_DEPTH && !NeedsRebalance(size, depth)
  {
    hide MinLen;
    if depth > 20 {
      KeyEntries();
      if depth > MAX_ROPE_DEPTH {
        MinLenMonotone(44, depth - 2);
      }
      MinLenMonotone(19, depth - 2);
    }
  }

  lemma NoRebalanceInBucket(size: nat, depth: nat, i: nat)
    requires size <= MAX_SIZE && depth <= i + 2 && size >= MinLen(i)
    ensures depth <= MAX_ROPE_DEPTH && !NeedsRebalance(size, depth)
    ensures depth > 1 ==> size >= MinLen(depth - 2)
  {
    if depth > 1 {
      MinLenMonotone(depth - 2, i);
    }
    NoRebalanceWhenRoughlyBalanced(size, depth);
  }

  // ----- what the pieces of a rebalance satisfy -----

  // The pieces joined out of the buckets below i: too_tiny in _S_add_leaf_to_forest, and
  // the result in the final loop of _S_balance.
  ghost predicate TinyOk(tiny: Option<Rope>, i: nat) {
    tiny.Some? ==>
      && tiny.value.Valid()
      && tiny.value.Depth() <= i + 1
      && (tiny.value.Depth() == i + 1 ==> 0 < i && tiny.value.Size() >= MinLen(i - 1))
  }

  // The piece that is being inserted, on its arrival at bucket i.
  ghost predicate InserteeOk(piece: Rope, i: nat) {
    && piece.Valid() && Settled(piece)
    && piece.Size() >= MinLen(i)
    && piece.Depth() <= i + 2
    && (piece.Depth() > 0 ==> piece.Size() >= MinLen(piece.Depth() - 1))
  }

  ghost predicate Joined(left: Option<Rope>, right: Option<Rope>, result: Rope) {
    && result.Valid() && result.Text() == TextOf(left) + TextOf(right)
    && result.Size() == SizeOf(left) + SizeOf(right)
    && result.Depth() <= JoinDepth(left, right)
  }

  /** A size of at most max_size() belongs to one of the buckets below 44. */
  lemma BucketIndexBound(size: nat, i: nat)
    requires size <= MAX_SIZE && size >= MinLen(i)
    ensures i <= 43
  {
    if 44 <= i {
      MinLenMonotone(44, i);
      KeyEntries();
    }
  }

  lemma BucketRoom(f: seq<Option<Rope>>, i: nat, rest: nat)
    requires ForestOk(f) && i < |f| && f[i].Some? && |Above(f, i)| + rest <= MAX_SIZE
    ensures f[i].value.Valid() && f[i].value.Size() + rest <= MAX_SIZE
  {
    BucketWithinTotal(f, i, i);
  }

  /** Joining bucket i with the smaller ones keeps the depth within the bound of bucket i + 1. */
  lemma SweepReady(b: Rope, tiny: Option<Rope>, i: nat)
    requires InBucket(b, i) && TinyOk(tiny, i) && b.Size() + SizeOf(tiny) <= MAX_SIZE
    ensures JoinDepth(Some(b), tiny) <= MAX_ROPE_DEPTH && !MayRebalance(Some(b), tiny)
    ensures forall joined :: Joined(Some(b), tiny, joined) ==> RoughlyBalanced(joined.Size(), joined.Depth())
  {
    NoRebalanceInBucket(b.Size() + SizeOf(tiny), JoinDepth(Some(b), tiny), i);
    forall joined | Joined(Some(b), tiny, joined)
      ensures RoughlyBalanced(joined.Size(), joined.Depth())
    {
      NoRebalanceInBucket(joined.Size(), joined.Depth(), i);
    }
  }

  /** Emptying bucket i takes its text off the end of what the buckets from i up hold. */
  lemma EmptyBucket(f: seq<Option<Rope>>, i: nat)
    requires ForestOk(f) && EmptyBelow(f, i) && i < |f|
    ensures var g := f[i := None];
      && ForestOk(g) && EmptyBelow(g, i + 1)
      && Above(f, i) == Above(g, i + 1) + TextOf(f[i])
  {
    hide MinLen;
    AboveFrame(f, f[i := None], i + 1);
  }

  lemma Associative(a: string, b: string, c: string)
    ensures (a + b) + c == a + (b + c)
  {
  }

  lemma SweepStep(tiny: Option<Rope>, b: Rope, joined: Rope, i: nat)
    requires InBucket(b, i) && TinyOk(tiny, i) && Joined(Some(b), tiny, joined)
    ensures TinyOk(Some(joined), i + 1)
  {
    hide MinLen;
  }

  /** The numbers behind the first piece: what was too small, followed by the new leaf. */
  lemma FirstPieceNumbers(tinySize: nat, tinyDepth: nat, size: nat, depth: nat, i: nat)
    requires tinyDepth <= i + 1 && (tinyDepth == i + 1 ==> 0 < i && tinySize >= MinLen(i - 1))
    requires MinLen(i) <= size < MinLen(i + 1) && MinLen(depth) <= size
    ensures tinySize + size >= MinLen(Max(tinyDepth, depth)) && Max(tinyDepth, depth) <= i + 1
  {
    if depth > i {
      MinLenMonotone(i + 1, depth);
    } else if tinyDepth <= i {
      MinLenMonotone(tinyDepth, i);
    }
  }

  lemma FirstPieceReady(tiny: Option<Rope>, r: Rope, i: nat)
    requires TinyOk(tiny, i) && r.Valid() && MinLen(r.Depth()) <= r.Size() && MinLen(i) <= r.Size() < MinLen(i + 1)
    requires SizeOf(tiny) + r.Size() <= MAX_SIZE
    ensures JoinDepth(tiny, Some(r)) <= MAX_ROPE_DEPTH && !MayRebalance(tiny, Some(r))
    ensures JoinDepth(tiny, Some(r)) <= i + 2
    ensures JoinDepth(tiny, Some(r)) > 0 ==> SizeOf(tiny) + r.Size() >= MinLen(JoinDepth(tiny, Some(r)) - 1)
  {
    var tinyDepth := if tiny.None? then 0 else tiny.value.Depth();
    FirstPieceNumbers(SizeOf(tiny), tinyDepth, r.Size(), r.Depth(), i);
    if tiny.None? && r.Depth() > 0 {
      MinLenMonotone(r.Depth() - 1, r.Depth());
    }
    NoRebalanceWhenAlmostBalanced(SizeOf(tiny) + r.Size(), JoinDepth(tiny, Some(r)));
  }

  lemma AlmostWhenLower(size: nat, depth: nat, bound: nat)
    requires depth <= bound && (bound > 0 ==> size >= MinLen(bound - 1))
    ensures depth > 0 ==> size >= MinLen(depth - 1)
  {
    if depth > 0 {
      MinLenMonotone(depth - 1, bound - 1);
    }
  }

  lemma NoRebalanceWhenAlmostBalanced(size: nat, depth: nat)
    requires size <= MAX_SIZE && (depth > 0 ==> size >= MinLen(depth - 1))
    ensures depth <= MAX_ROPE_DEPTH && !NeedsRebalance(size, depth)
  {
    if depth > 1 {
      MinLenMonotone(depth - 2, depth - 1);
    }
    NoRebalanceWhenRoughlyBalanced(size, depth);
  }

  /** The numbers behind joining the piece with an occupied bucket i. */
  lemma MeetNumbers(bSize: nat, bDepth: nat, size: nat, depth: nat, i: nat)
    requires bSize >= MinLen(i) && bDepth <= i + 1
    requires size >= MinLen(i) && depth <= i + 2 && (depth > 0 ==> size >= MinLen(depth - 1))
    ensures bSize + size >= MinLen(i + 1) && bSize + size >= MinLen(Max(bDepth, depth))
  {
    MinLenAtMostDoubles(i);
    MinLenPositive(i);
    if bDepth >= depth {
      MinLenMonotone(bDepth, i + 1);
    } else if depth >= 2 {
      MinLenMonotone(depth - 2, i);
    }
  }

  lemma MeetReady(b: Rope, piece: Rope, i: nat)
    requires InBucket(b, i) && InserteeOk(piece, i) && b.Size() + piece.Size() <= MAX_SIZE
    ensures JoinDepth(Some(b), Some(piece)) <= MAX_ROPE_DEPTH && !MayRebalance(Some(b), Some(piece))
    ensures 0 < JoinDepth(Some(b), Some(piece)) <= i + 3
    ensures b.Size() + piece.Size() >= MinLen(i + 1) > MinLen(i)
    ensures b.Size() + piece.Size() >= MinLen(JoinDepth(Some(b), Some(piece)) - 1)
  {
    hide Settled, MinLen;
    MinLenPositive(i);
    MeetNumbers(b.Size(), b.Depth(), piece.Size(), piece.Depth(), i);
    NoRebalanceWhenAlmostBalanced(b.Size() + piece.Size(), JoinDepth(Some(b), Some(piece)));
  }

  lemma MinLenAtMostDoubles(i: nat)
    ensures MinLen(i + 1) <= 2 * MinLen(i)
  {
    if i > 0 { MinLenPositive(i - 1); }
  }

  /** A piece of almost balanced depth that is short enough for bucket i fits its depth bound. */
  lemma InsertStep(piece: Rope, i: nat)
    requires piece.Valid() && Settled(piece) && MinLen(i) <= piece.Size()
    requires piece.Depth() > 0 ==> piece.Size() >= MinLen(piece.Depth() - 1)
    requires piece.Depth() <= i + 3
    ensures if piece.Size() < MinLen(i + 1) then InBucket(piece, i) else InserteeOk(piece, i + 1)
  {
    hide MinLen;
    if piece.Size() < MinLen(i + 1) && piece.Depth() > i + 1 {
      MinLenMonotone(i + 1, piece.Depth() - 1);
    }
  }

  lemma PlaceStep(g: seq<Option<Rope>>, piece: Rope, i: nat)
    requires ForestOk(g) && EmptyBelow(g, i) && i < |g| && InBucket(piece, i)
    ensures var h := g[i := Some(piece)]; ForestOk(h) && Above(h, 0) == Above(g, i + 1) + piece.Text()
  {
    hide MinLen, Rope.Valid, Rope.Text, InBucket;
    var h := g[i := Some(piece)];
    AboveFrame(g, h, i + 1);
    AboveEmpty(h, i);
  }

  ghost predicate RoughlyOk(r: Option<Rope>) {
    r.Some? ==> RoughlyBalanced(r.value.Size(), r.value.Depth()) && r.value.Depth() <= MAX_ROPE_DEPTH
  }

  lemma JoinedByConcat(left: Option<Rope>, right: Option<Rope>, joined: Option<Rope>)
    requires ValidOption(left) && ValidOption(right) && joined.Some?
    requires Concatenates(left, right, joined) && !MayRebalance(left, right)
    ensures Joined(left, right, joined.value)
  {
    SizeOfIsTextLength(left);
    SizeOfIsTextLength(right);
    SizeOfIsTextLength(joined);
  }

  // What _S_concat promises of the trees involved.
  ghost predicate Concatenates(left: Option<Rope>, right: Option<Rope>, result: Option<Rope>) {
    && ValidOption(result) && TextOf(result) == TextOf(left) + TextOf(right)
    && (left.None? ==> result == right) && (right.None? ==> result == left)
    && (left.Some? && right.Some? ==> result.Some? && result.value.Depth() <= MAX_ROPE_DEPTH)
    && (!MayRebalance(left, right) && result.Some? ==> result.value.Depth() <= JoinDepth(left, right))
  }

  // What _S_balance promises.
  ghost predicate Balanced(tree: Rope, balanced: Rope) {
    && balanced.Valid() && balanced.Text() == tree.Text()
    && RoughlyBalanced(balanced.Size(), balanced.Depth()) && balanced.Depth() <= MAX_ROPE_DEPTH
  }

  // ----- the references of a forest -----

  ghost function Held(f: seq<Option<Ref>>): multiset<Ref> {
    if f == [] then multiset{} else Held(f[..|f| - 1]) + One(f[|f| - 1])
  }

  lemma {:induction false} HeldUpdate(f: seq<Option<Ref>>, i: nat, r: Option<Ref>)
    requires i < |f|
    ensures Held(f[i := r]) + One(f[i]) == Held(f) + One(r)
  {
    hide One;
    var g, k := f[i := r], |f| - 1;
    assert Held(g) == Held(g[..k]) + One(g[k]) && Held(f) == Held(f[..k]) + One(f[k]);
    if i < k {
      assert g[..k] == f[..k][i := r] && g[k] == f[k] && f[..k][i] == f[i];
      HeldUpdate(f[..k], i, r);
      assert Held(g[..k]) + One(f[i]) == Held(f[..k]) + One(r);
      calc {
        Held(g) + One(f[i]);
        (Held(g[..k]) + One(f[i])) + One(f[k]);
        (Held(f[..k]) + One(r)) + One(f[k]);
        Held(f) + One(r);
      }
    } else {
      assert g[..k] == f[..k];
    }
  }

  lemma HeldPart(f: seq<Option<Ref>>, i: nat)
    requires i < |f|
    ensures One(f[i]) <= Held(f) && Held(f) == Held(f[i := None]) + One(f[i])
  {
    hide Held;
    HeldUpdate(f, i, None);
    assert One(None) == multiset{} && Held(f) + multiset{} == Held(f);
  }

  lemma {:induction false} HeldNothing(f: seq<Option<Ref>>)
    requires forall i :: 0 <= i < |f| ==> f[i].None?
    ensures Held(f) == multiset{}
  {
    if f != [] {
      HeldNothing(f[..|f| - 1]);
    }
  }

  // The trees that references point at.
  ghost function Trees(h: Nodes, f: seq<Option<Ref>>): (ts: seq<Option<Rope>>)
    requires Shape(h)
    ensures |ts| == |f|
  {
    seq(|f|, i requires 0 <= i < |f| => if Alive(h, f[i]) then TreeOf(h, f[i]) else None)
  }

  lemma HeldAlive(h: Nodes, next: Ref, roots: multiset<Ref>, f: seq<Option<Ref>>)
    requires Inv(h, next, roots) && Held(f) <= roots
    ensures forall i :: 0 <= i < |f| ==> Alive(h, f[i]) && (f[i].Some? ==> f[i].value in roots && f[i].value < next)
  {
    hide Shape, FlatOk, Tree;
    forall i | 0 <= i < |f| && f[i].Some? ensures f[i].value in roots {
      HeldPart(f, i);
      assert f[i].value in One(f[i]);
    }
  }

  lemma TreesKept(h: Nodes, next: Ref, h': Nodes, next': Ref, roots: multiset<Ref>, roots': multiset<Ref>,
                  f: seq<Option<Ref>>)
    requires Inv(h, next, roots) && Inv(h', next', roots') && Later(h, next, h', next')
    requires Held(f) <= roots && Held(f) <= roots'
    ensures Trees(h', f) == Trees(h, f)
  {
    hide Tree, Held, FlatOk, Counted;
    HeldAlive(h, next, roots, f);
    HeldAlive(h', next', roots', f);
    forall i | 0 <= i < |f| && f[i].Some? ensures TreeOf(h', f[i]) == TreeOf(h, f[i]) {
      TreeKept(h, next, h', next', f[i].value);
    }
  }

  lemma TreesUpdate(h: Nodes, f: seq<Option<Ref>>, i: nat, r: Option<Ref>)
    requires Shape(h) && i < |f| && Alive(h, r)
    ensures Trees(h, f[i := r]) == Trees(h, f)[i := TreeOf(h, r)]
  {
    hide Tree;
  }

  lemma TreeOptionFields(h: Nodes, r: Option<Ref>)
    requires Shape(h) && Alive(h, r)
    ensures ValidOption(TreeOf(h, r))
    ensures r.Some? ==>
              SizeOf(TreeOf(h, r)) == h[r.value].body.Size() && TreeOf(h, r).value.Depth() == h[r.value].body.Depth()
    ensures r.Some? ==> SizeOf(TreeOf(h, r)) > 0
    ensures r.Some? ==> TreeOf(h, r).value.Leaf? == h[r.value].body.LeafBody?
    ensures r.Some? ==> TreeOf(h, r).value.Concatenation? == h[r.value].body.ConcatBody?
  {
    hide Tree, Rope.Valid;
    if r.Some? {
      TreeFields(h, r.value);
      SizeIsTextLength(TreeOf(h, r).value);
    }
  }

  lemma KeptOption(h: Nodes, next: Ref, h': Nodes, next': Ref, roots: multiset<Ref>, roots': multiset<Ref>,
                   r: Option<Ref>)
    requires Inv(h, next, roots) && Inv(h', next', roots') && Later(h, next, h', next') && Alive(h, r) && Alive(h', r)
    ensures TreeOf(h', r) == TreeOf(h, r)
  {
    hide Tree, FlatOk, Counted;
    if r.Some? {
      TreeKept(h, next, h', next', r.value);
    }
  }

  // ----- the recursive operations -----

  // Whether joining two references may set off a rebalance.
  ghost predicate MayRebalanceAt(h: Nodes, left: Option<Ref>, right: Option<Ref>) {
    Shape(h) && Alive(h, left) && Alive(h, right) && MayRebalance(TreeOf(h, left), TreeOf(h, right))
  }

  // _S_tree_concat: takes over the references to both arguments.
  method TreeConcat(s: Store, left: Ref, right: Ref) returns (result: Ref)
    requires s.Valid() && left in s.roots && right in s.roots - multiset{left} && left in s.nodes && right in s.nodes
    requires s.nodes[left].body.Size() + s.nodes[right].body.Size() <= MAX_SIZE
    modifies s
    ensures s.Valid() && s.roots == old(s.roots) - multiset{left} - multiset{right} + multiset{result}
    ensures result in s.nodes
    ensures Later(old(s.nodes), old(s.next), s.nodes, s.next)
    ensures Concatenates(old(TreeOf(s.nodes, Some(left))), old(TreeOf(s.nodes, Some(right))),
                         TreeOf(s.nodes, Some(result)))
    ensures Some(Tree(s.nodes, result)) == TreeConcatOf(old(Tree(s.nodes, left)), old(Tree(s.nodes, right)))
    ensures if old(MayRebalanceAt(s.nodes, Some(left), Some(right))) then RoughlyOk(TreeOf(s.nodes, Some(result)))
            else result >= old(s.next)
    decreases if MayRebalanceAt(s.nodes, Some(left), Some(right)) then 1 else 0, 0
  {
    hide Inv, Shape, FlatOk, Counted, Later, MinLen, Tree, Rope.Valid, Concatenates, TreeConcatOf,
      BalanceOf, Balanced, RoughlyOk;
    ghost var h, t, before := s.nodes, s.next, s.roots;
    Shaped(h, t, before);
    TreeFields(h, left);
    TreeFields(h, right);
    var node := s.NewConcatenation(left, right);
    ghost var h1, t1 := s.nodes, s.next;
    Shaped(h1, t1, s.roots);
    TreeFields(h1, node);
    var depth := s.nodes[node].body.Depth();
    result := node;
    if depth > 20 && (s.nodes[node].body.Size() < 1000 || depth > MAX_ROPE_DEPTH) {
      result := BalanceNew(s, node);
      LaterTransitive(h, t, h1, t1, s.nodes, s.next);
      assert s.roots == before - multiset{left} - multiset{right} + multiset{result};
      Shaped(s.nodes, s.next, s.roots);
      JoinedOrBalanced(Tree(h, left), Tree(h, right), Tree(h1, node), Tree(s.nodes, result));
    } else {
      JoinedOrBalanced(Tree(h, left), Tree(h, right), Tree(h1, node), Tree(h1, node));
    }
  }

  lemma JoinedOrBalanced(left: Rope, right: Rope, node: Rope, result: Rope)
    requires node.Concatenation? && node.left == left && node.right == right && node.Valid()
    requires node == NodeOf(left, right)
    requires if NeedsRebalance(node.Size(), node.Depth()) then Balanced(node, result) && Some(result) == BalanceOf(node)
             else result == node
    ensures Concatenates(Some(left), Some(right), Some(result)) && Some(result) == TreeConcatOf(left, right)
    ensures MayRebalance(Some(left), Some(right)) ==> RoughlyOk(Some(result))
  {
    hide BalanceOf;
  }

  // The rebalance in _S_tree_concat: the unbalanced node is given up.
  method BalanceNew(s: Store, node: Ref) returns (balanced: Ref)
    requires s.Valid() && node in s.roots && node in s.nodes && s.nodes[node].body.Size() <= MAX_SIZE
    modifies s
    ensures s.Valid() && s.roots == old(s.roots) - multiset{node} + multiset{balanced} && balanced in s.nodes
    ensures Later(old(s.nodes), old(s.next), s.nodes, s.next)
    ensures Balanced(old(Tree(s.nodes, node)), Tree(s.nodes, balanced))
    ensures Some(Tree(s.nodes, balanced)) == BalanceOf(old(Tree(s.nodes, node)))
    decreases 0, 10
  {
    hide Inv, Shape, FlatOk, Counted, Later, Tree, Balanced, BalanceOf;
    ghost var h, t, before := s.nodes, s.next, s.roots;
    balanced := Balance(s, node);
    ghost var h1, t1, roots1 := s.nodes, s.next, s.roots;
    s.Unreference(node);
    LaterTransitive(h, t, h1, t1, s.nodes, s.next);
    assert s.roots == before - multiset{node} + multiset{balanced};
    RootKept(h1, t1, roots1, s.nodes, s.next, s.roots, balanced);
  }

  // _S_leaf_concat_char_iter
  method LeafConcatCharIter(s: Store, leaf: Ref, chars: string) returns (result: Ref)
    requires s.Valid() && leaf in s.nodes && s.nodes[leaf].body.LeafBody?
    modifies s
    ensures s.Valid() && s.roots == old(s.roots) + multiset{result} && result == old(s.next) && result in s.nodes
    ensures Later(old(s.nodes), old(s.next), s.nodes, s.next)
    ensures Tree(s.nodes, result) == Leaf(old(Tree(s.nodes, leaf).Text()) + chars)
    ensures s.nodes[result].body.LeafBody? && s.nodes == old(s.nodes)[result := s.nodes[result]]
  {
    hide FlatOk, Counted, Later;
    assert NodeOk(s.nodes, leaf);
    result := s.NewLeaf(s.nodes[leaf].body.data + chars);
  }

  // What goes into the new node of JoinLastLeaf, with a reference to each.
  method MakeLastLeaf(s: Store, node: Ref, chars: string) returns (left: Ref, rest: Ref)
    requires s.Valid() && node in s.nodes && s.nodes[node].body.ConcatBody?
    requires s.nodes[node].body.right in s.nodes && s.nodes[s.nodes[node].body.right].body.LeafBody?
    modifies s
    ensures s.Valid() && s.roots == old(s.roots) + multiset{left} + multiset{rest}
    ensures left in s.nodes && rest in s.nodes && Later(old(s.nodes), old(s.next), s.nodes, s.next)
    ensures old(Tree(s.nodes, node)).Concatenation? && old(Tree(s.nodes, node)).right.Leaf?
    ensures Tree(s.nodes, left) == old(Tree(s.nodes, node)).left
    ensures Tree(s.nodes, rest) == Leaf(old(Tree(s.nodes, node)).right.Text() + chars)
    ensures s.nodes[left].body.Size() + s.nodes[rest].body.Size() == old(s.nodes[node].body.Size()) + |chars|
    ensures Max(s.nodes[left].body.Depth(), s.nodes[rest].body.Depth()) + 1 == old(s.nodes[node].body.Depth())
    ensures s.next >= old(s.next)
  {
    hide Inv, Shape, FlatOk, Counted, Later, MinLen, Tree, Rope.Valid;
    ghost var h, t, before := s.nodes, s.next, s.roots;
    Shaped(h, t, before);
    left := s.nodes[node].body.left;
    var right := s.nodes[node].body.right;
    ConcatFields(h, node);
    rest := LeafConcatCharIter(s, right, chars);
    ghost var h1, t1, roots1 := s.nodes, s.next, s.roots;
    OneKept(h, t, before, h1, t1, roots1, left);
    s.Reference(left);
    ghost var h2, t2 := s.nodes, s.next;
    LaterTransitive(h, t, h1, t1, h2, t2);
    RootKept(h1, t1, roots1, h2, t2, s.roots, rest);
    OneKept(h1, t1, roots1, h2, t2, s.roots, left);
    TreeFields(h, node);
    TreeFields(h, right);
    LongerLeaf(h, right, h2, rest, chars);
  }

  lemma LongerLeaf(h: Nodes, right: Ref, h': Nodes, rest: Ref, chars: string)
    requires Shape(h) && right in h && h[right].body.LeafBody? && Shape(h') && rest in h'
    requires Tree(h', rest) == Leaf(Tree(h, right).Text() + chars)
    ensures h'[rest].body.Size() == h[right].body.Size() + |chars| && h'[rest].body.Depth() == 0
  {
    TreeFields(h, right);
    TreeFields(h', rest);
    SizeIsTextLength(Tree(h, right));
  }

  // A short string behind a concatenation that ends in a short leaf: a new node with a
  // longer last leaf (in _S_concat and _S_concat_char_iter).
  method JoinLastLeaf(s: Store, node: Ref, chars: string) returns (result: Ref)
    requires s.Valid() && node in s.nodes && s.nodes[node].body.ConcatBody?
    requires s.nodes[node].body.right in s.nodes && s.nodes[s.nodes[node].body.right].body.LeafBody?
    requires chars != "" && s.nodes[node].body.Size() + |chars| <= MAX_SIZE
    modifies s
    ensures s.Valid() && s.roots == old(s.roots) + multiset{result} && result in s.nodes
    ensures Later(old(s.nodes), old(s.next), s.nodes, s.next)
    ensures Concatenates(old(TreeOf(s.nodes, Some(node))), Some(Leaf(chars)), TreeOf(s.nodes, Some(result)))
    ensures old(Tree(s.nodes, node)).Concatenation? && old(Tree(s.nodes, node)).right.Leaf?
    ensures Some(Tree(s.nodes, result)) == LastLeafOf(old(Tree(s.nodes, node)), chars)
    ensures if old(NeedsRebalance(s.nodes[node].body.Size() + |chars|, s.nodes[node].body.Depth()))
            then RoughlyOk(TreeOf(s.nodes, Some(result))) else result >= old(s.next)
    decreases if NeedsRebalance(s.nodes[node].body.Size() + |chars|, s.nodes[node].body.Depth()) then 1 else 0, 1
  {
    hide Inv, Shape, FlatOk, Counted, Later, MinLen, Tree, Rope.Valid, Concatenates, TreeConcatOf, LastLeafOf,
      RoughlyOk;
    ghost var h, t, before := s.nodes, s.next, s.roots;
    Shaped(h, t, before);
    TreeFields(h, node);
    var left, rest := MakeLastLeaf(s, node, chars);
    ghost var h1, t1 := s.nodes, s.next;
    Shaped(h1, t1, s.roots);
    TreeFields(h1, left);
    TreeFields(h1, rest);
    result := TreeConcat(s, left, rest);
    LaterTransitive(h, t, h1, t1, s.nodes, s.next);
    assert s.roots == before + multiset{result};
    Shaped(s.nodes, s.next, s.roots);
    LastLeafJoined(Tree(h, node), Tree(h1, left), Tree(h, node).right, chars, Tree(s.nodes, result));
    LastLeafMade(Tree(h, node), chars);
  }

  lemma LastLeafMade(node: Rope, chars: string)
    requires node.Concatenation? && node.right.Leaf?
    ensures LastLeafOf(node, chars) == TreeConcatOf(node.left, Leaf(node.right.Text() + chars))
  {
    hide TreeConcatOf;
  }

  lemma LastLeafJoined(node: Rope, left: Rope, right: Rope, chars: string, result: Rope)
    requires node.Concatenation? && node.left == left && node.right == right && right.Leaf? && node.Valid()
    requires Concatenates(Some(left), Some(Leaf(right.Text() + chars)), Some(result))
    ensures Concatenates(Some(node), Some(Leaf(chars)), Some(result))
  {
    hide MinLen, BalancedFor;
    assert (left.Text() + right.Text()) + chars == left.Text() + (right.Text() + chars);
  }

  lemma ConcatFields(h: Nodes, n: Ref)
    requires Shape(h) && n in h && h[n].body.ConcatBody?
    ensures h[n].body.left in h && h[n].body.right in h
    ensures Tree(h, n) == Concatenation(Tree(h, h[n].body.left), Tree(h, h[n].body.right), h[n].body.Size(),
                                        h[n].body.Depth(), h[n].body.IsBalanced())
    ensures h[n].body.Size() == h[h[n].body.left].body.Size() + h[h[n].body.right].body.Size()
    ensures h[n].body.Depth() == Max(h[h[n].body.left].body.Depth(), h[h[n].body.right].body.Depth()) + 1
  {
    hide BalancedFor;
    assert NodeOk(h, n);
  }

  // The end of _S_concat.
  method ConcatNodes(s: Store, left: Ref, right: Ref) returns (result: Ref)
    requires s.Valid() && left in s.nodes && right in s.nodes
    requires s.nodes[left].body.Size() + s.nodes[right].body.Size() <= MAX_SIZE
    modifies s
    ensures s.Valid() && s.roots == old(s.roots) + multiset{result} && result in s.nodes
    ensures Later(old(s.nodes), old(s.next), s.nodes, s.next)
    ensures Concatenates(old(TreeOf(s.nodes, Some(left))), old(TreeOf(s.nodes, Some(right))),
                         TreeOf(s.nodes, Some(result)))
    ensures Some(Tree(s.nodes, result)) == TreeConcatOf(old(Tree(s.nodes, left)), old(Tree(s.nodes, right)))
    ensures if old(MayRebalanceAt(s.nodes, Some(left), Some(right))) then RoughlyOk(TreeOf(s.nodes, Some(result)))
            else result >= old(s.next)
    decreases if MayRebalanceAt(s.nodes, Some(left), Some(right)) then 1 else 0, 1
  {
    hide Inv, Shape, FlatOk, Counted, Later, MinLen, Tree, Rope.Valid, Concatenates, MayRebalance,
      TreeConcatOf, RoughlyOk;
    ghost var h, t, before := s.nodes, s.next, s.roots;
    s.Reference(left);
    ghost var h1, t1, roots1 := s.nodes, s.next, s.roots;
    OneKept(h, t, before, h1, t1, roots1, left);
    OneKept(h, t, before, h1, t1, roots1, right);
    s.Reference(right);
    ghost var h2, t2 := s.nodes, s.next;
    OneKept(h1, t1, roots1, h2, t2, s.roots, left);
    OneKept(h1, t1, roots1, h2, t2, s.roots, right);
    LaterTransitive(h, t, h1, t1, h2, t2);
    SameSize(h[left].body, h1[left].body, h2[left].body);
    SameSize(h[right].body, h1[right].body, h2[right].body);
    result := TreeConcat(s, left, right);
    LaterTransitive(h, t, h2, t2, s.nodes, s.next);
    assert s.roots == before + multiset{result};
  }

  lemma SameSize(b: Body, b1: Body, b2: Body)
    requires b == b1 == b2
    ensures b.Size() == b2.Size()
  {
  }

  // Whether _S_concat sets off a rebalance.
  ghost predicate Rebalances(left: Option<Rope>, right: Option<Rope>) {
    left.Some? && right.Some? && var l, r := left.value, right.value;
      if MergesLeaves(l, r) then l.Concatenation? && NeedsRebalance(l.Size() + r.Size(), l.Depth())
      else NeedsRebalance(l.Size() + r.Size(), Max(l.Depth(), r.Depth()) + 1)
  }

  /** Where the depths rule a rebalance out, _S_concat does not depend on rebalancing. */
  lemma ConcatenatedPlain(left: Option<Rope>, right: Option<Rope>)
    requires ValidOption(left) && ValidOption(right) && !MayRebalance(left, right)
    ensures Concatenated(left, right) == Join(left, right, false) && !Rebalances(left, right)
  {
    hide BalanceOf;
  }

  // _S_concat
  method Concat(s: Store, left: Option<Ref>, right: Option<Ref>) returns (result: Option<Ref>)
    requires s.Valid() && Alive(s.nodes, left) && Alive(s.nodes, right)
    requires SizeOf(TreeOf(s.nodes, left)) + SizeOf(TreeOf(s.nodes, right)) <= MAX_SIZE
    modifies s
    ensures s.Valid() && s.roots == old(s.roots) + One(result) && Alive(s.nodes, result)
    ensures Later(old(s.nodes), old(s.next), s.nodes, s.next)
    ensures Concatenates(old(TreeOf(s.nodes, left)), old(TreeOf(s.nodes, right)), TreeOf(s.nodes, result))
    ensures TreeOf(s.nodes, result) == Concatenated(old(TreeOf(s.nodes, left)), old(TreeOf(s.nodes, right)))
    ensures Rebalances(old(TreeOf(s.nodes, left)), old(TreeOf(s.nodes, right))) ==> RoughlyOk(TreeOf(s.nodes, result))
    ensures left.Some? && right.Some? && !old(MayRebalanceAt(s.nodes, left, right)) ==> result.value >= old(s.next)
    ensures left.None? || right.None? ==> result == if left.None? then right else left
    decreases if MayRebalanceAt(s.nodes, left, right) then 1 else 0, 2
  {
    hide Inv, Shape, FlatOk, Counted, Later, MinLen, Tree, Rope.Valid, Concatenates, TreeConcatOf, RoughlyOk;
    ghost var h, t, before := s.nodes, s.next, s.roots;
    Shaped(h, t, before);
    TreeOptionFields(h, left);
    TreeOptionFields(h, right);
    if left.None? || right.None? {
      result := if left.None? then right else left;
      s.Retain(result);
      Shaped(s.nodes, s.next, s.roots);
      KeptOption(h, t, s.nodes, s.next, before, s.roots, result);
      NothingConcatenated(TreeOf(h, result));
      return;
    }
    var l, r := left.value, right.value;
    Merging(h, l, r);
    var joined: Ref;
    if s.nodes[r].body.LeafBody? {
      LeafTree(h, r);
      if s.nodes[l].body.LeafBody? {
        if s.nodes[r].body.Size() + s.nodes[l].body.Size() <= COPY_MAX {
          joined := LeafConcatCharIter(s, l, s.nodes[r].body.data);
          LeafTree(h, l);
          LeavesConcatenated(h[l].body.data, h[r].body.data);
          return Some(joined);
        }
      } else if s.nodes[l].body.ConcatBody? {
        ConcatFields(h, l);
        var leftRight := s.nodes[l].body.right;
        if s.nodes[leftRight].body.LeafBody? && s.nodes[leftRight].body.Size() + s.nodes[r].body.Size() <= COPY_MAX {
          joined := JoinLastLeaf(s, l, s.nodes[r].body.data);
          return Some(joined);
        }
      }
    }
    joined := ConcatNodes(s, l, r);
    result := Some(joined);
  }

  // The guards of _S_concat in terms of nodes.
  ghost predicate MergesAt(h: Nodes, l: Ref, r: Ref)
    requires Shape(h) && l in h && r in h
  {
    h[r].body.LeafBody? &&
    if h[l].body.LeafBody? then h[l].body.Size() + h[r].body.Size() <= COPY_MAX
    else
      && h[l].body.ConcatBody? && h[l].body.right in h && h[h[l].body.right].body.LeafBody?
      && h[h[l].body.right].body.Size() + h[r].body.Size() <= COPY_MAX
  }

  lemma Merging(h: Nodes, l: Ref, r: Ref)
    requires Shape(h) && l in h && r in h
    ensures MergesLeaves(Tree(h, l), Tree(h, r)) <==> MergesAt(h, l, r)
  {
    hide MinLen, Tree, Rope.Valid;
    TreeFields(h, l);
    TreeFields(h, r);
    if h[l].body.ConcatBody? {
      ConcatFields(h, l);
      TreeFields(h, h[l].body.right);
    }
  }

  lemma LeafTree(h: Nodes, n: Ref)
    requires Shape(h) && n in h && h[n].body.LeafBody?
    ensures Tree(h, n) == Leaf(h[n].body.data) && h[n].body.data != ""
  {
    assert NodeOk(h, n);
  }

  lemma NothingConcatenated(tree: Option<Rope>)
    requires ValidOption(tree)
    ensures Concatenates(None, tree, tree) && Concatenates(tree, None, tree)
  {
    assert "" + TextOf(tree) == TextOf(tree) == TextOf(tree) + "";
  }

  lemma LeavesConcatenated(a: string, b: string)
    requires a != ""
    ensures Concatenates(Some(Leaf(a)), Some(Leaf(b)), Some(Leaf(a + b)))
  {
  }

  // _S_concat_and_set_balanced
  method ConcatAndSetBalanced(s: Store, left: Option<Ref>, right: Option<Ref>) returns (result: Ref)
    requires s.Valid() && Alive(s.nodes, left) && Alive(s.nodes, right) && (left.Some? || right.Some?)
    requires SizeOf(TreeOf(s.nodes, left)) + SizeOf(TreeOf(s.nodes, right)) <= MAX_SIZE
    requires !MayRebalance(TreeOf(s.nodes, left), TreeOf(s.nodes, right))
    requires JoinDepth(TreeOf(s.nodes, left), TreeOf(s.nodes, right)) <= MAX_ROPE_DEPTH
    requires left.None? ==> Settled(TreeOf(s.nodes, right).value)
    requires right.None? ==> Settled(TreeOf(s.nodes, left).value)
    modifies s
    ensures s.Valid() && s.roots == old(s.roots) + multiset{result} && result in s.nodes
    ensures Later(old(s.nodes), old(s.next), s.nodes, s.next)
    ensures Joined(old(TreeOf(s.nodes, left)), old(TreeOf(s.nodes, right)), Tree(s.nodes, result))
    ensures Some(Tree(s.nodes, result)) == Join(old(TreeOf(s.nodes, left)), old(TreeOf(s.nodes, right)), true)
    ensures Settled(Tree(s.nodes, result))
    decreases 0, 3
  {
    hide Shape, FlatOk, Counted, Later, MinLen, Tree, Rope.Valid, MayRebalance, JoinDepth, Concatenates, Concatenated,
      Remark, ConcatOf, Joined;
    ghost var h, t := s.nodes, s.next;
    ghost var l, r := TreeOf(h, left), TreeOf(h, right);
    TreeOptionFields(h, left);
    TreeOptionFields(h, right);
    ConcatenatedPlain(l, r);
    var joined := Concat(s, left, right);
    ghost var h1, t1 := s.nodes, s.next;
    Shaped(h1, t1, s.roots);
    NotNothing(l, r, TreeOf(h1, joined));
    result := joined.value;
    TreeFields(h1, result);
    JoinedByConcat(l, r, TreeOf(h1, joined));
    JoinedMarked(l, r, Tree(h1, result));
    if s.nodes[result].body.Size() >= MinLen(s.nodes[result].body.Depth()) {
      OldIsMarked(h, t, h1, t1, left, right, result);
      s.MarkBalanced(result);
      LaterRemarked(h, t, h1, t1, result);
    }
  }

  lemma JoinedMarked(left: Option<Rope>, right: Option<Rope>, joined: Rope)
    requires Joined(left, right, joined)
    ensures Joined(left, right, SetBalanced(joined)) && Settled(SetBalanced(joined))
    ensures joined.Depth() <= JoinDepth(left, right)
  {
    hide BalancedFor;
  }

  // Only one of the arguments can be marked that is not new.
  lemma OldIsMarked(h: Nodes, next: Ref, h': Nodes, next': Ref, left: Option<Ref>, right: Option<Ref>, result: Ref)
    requires Shape(h) && Shape(h') && Later(h, next, h', next') && Alive(h, left) && Alive(h, right) && result in h'
    requires left.None? || right.None? ==> Some(result) == if left.None? then right else left
    requires left.Some? && right.Some? ==> result >= next
    requires left.None? && right.Some? ==> Settled(Tree(h, right.value))
    requires right.None? && left.Some? ==> Settled(Tree(h, left.value))
    requires BalancedFor(h'[result].body.Size(), h'[result].body.Depth())
    ensures result < next ==> h'[result].body.IsBalanced()
  {
    hide BalancedFor, Tree;
    if result < next {
      TreeFields(h, result);
    }
  }

  lemma NotNothing(left: Option<Rope>, right: Option<Rope>, result: Option<Rope>)
    requires Concatenates(left, right, result) && ValidOption(left) && ValidOption(right) && (left.Some? || right.Some?)
    ensures result.Some?
  {
  }

  lemma ForestTree(h: Nodes, next: Ref, roots: multiset<Ref>, f: seq<Option<Ref>>, i: nat)
    requires Inv(h, next, roots) && Held(f) <= roots && i < |f|
    ensures Alive(h, f[i]) && Shape(h) && Trees(h, f)[i] == TreeOf(h, f[i])
    ensures f[i].Some? ==> f[i].value in roots
  {
    hide Tree, FlatOk, Counted, Held;
    HeldAlive(h, next, roots, f);
  }

  lemma TakenRoots(rest: multiset<Ref>, f: seq<Option<Ref>>, i: nat, piece: Option<Ref>, joined: Ref,
                   before: multiset<Ref>)
    requires i < |f| && f[i].Some? && before == rest + Held(f) + One(piece)
    ensures var g, after := f[i := None], rest + Held(f[i := None]) + multiset{joined};
      && f[i].value in before + multiset{joined}
      && before + multiset{joined} - multiset{f[i].value} == after + One(piece)
      && after + One(piece) - One(piece) == after
      && Held(g) <= before && Held(g) <= after && joined in after
      && (piece.Some? ==> piece.value in after + One(piece))
  {
    hide Held;
    HeldPart(f, i);
    assert One(f[i]) == multiset{f[i].value};
  }

  // What all three loops do with an occupied bucket: join it with the piece at hand, which
  // it precedes, and empty it. Only the loop of _S_balance does not mark the result.
  method JoinBucket(s: Store, forest: Forest, i: nat, piece: Option<Ref>, mark: bool, ghost rest: multiset<Ref>)
    returns (joined: Ref)
    requires s.Valid() && i < forest.Length && forest[i].Some? && Alive(s.nodes, forest[i]) && Alive(s.nodes, piece)
    requires s.roots == rest + Held(forest[..]) + One(piece)
    requires SizeOf(TreeOf(s.nodes, forest[i])) + SizeOf(TreeOf(s.nodes, piece)) <= MAX_SIZE
    requires !MayRebalance(TreeOf(s.nodes, forest[i]), TreeOf(s.nodes, piece))
    requires JoinDepth(TreeOf(s.nodes, forest[i]), TreeOf(s.nodes, piece)) <= MAX_ROPE_DEPTH
    requires mark ==> Settled(TreeOf(s.nodes, forest[i]).value)
    modifies s, forest
    ensures s.Valid() && s.roots == rest + Held(forest[..]) + multiset{joined} && joined in s.nodes
    ensures Later(old(s.nodes), old(s.next), s.nodes, s.next)
    ensures forest[..] == old(forest[..])[i := None]
    ensures Trees(s.nodes, forest[..]) == old(Trees(s.nodes, forest[..]))[i := None]
    ensures Joined(old(TreeOf(s.nodes, forest[i])), old(TreeOf(s.nodes, piece)), Tree(s.nodes, joined))
    ensures Some(Tree(s.nodes, joined)) == Join(old(TreeOf(s.nodes, forest[i])), old(TreeOf(s.nodes, piece)), mark)
    ensures mark ==> Settled(Tree(s.nodes, joined))
    decreases 0, 4
  {
    hide Inv, Shape, FlatOk, Counted, Later, MinLen, Tree, TreeOf, Rope.Valid, MayRebalance, JoinDepth, Joined, Held;
    ghost var h, t, before, f := s.nodes, s.next, s.roots, forest[..];
    ghost var g := f[i := None];
    Shaped(h, t, before);
    if mark {
      joined := ConcatAndSetBalanced(s, forest[i], piece);
    } else {
      joined := ConcatUnmarked(s, forest[i].value, piece);
    }
    ghost var h1, t1, roots1 := s.nodes, s.next, s.roots;
    TakenRoots(rest, f, i, piece, joined, before);
    s.Unreference(forest[i].value);
    ghost var h2, t2 := s.nodes, s.next;
    forest[i] := None;
    assert forest[..] == g;
    s.Release(piece);
    LaterTransitive(h1, t1, h2, t2, s.nodes, s.next);
    LaterTransitive(h, t, h1, t1, s.nodes, s.next);
    RootKept(h1, t1, roots1, s.nodes, s.next, s.roots, joined);
    TreesKept(h, t, s.nodes, s.next, before, s.roots, g);
    TreesUpdate(h, f, i, None);
    NoTree(h);
  }

  // _S_concat where it cannot set off a rebalance.
  method ConcatUnmarked(s: Store, left: Ref, right: Option<Ref>) returns (result: Ref)
    requires s.Valid() && left in s.nodes && Alive(s.nodes, right)
    requires SizeOf(TreeOf(s.nodes, Some(left))) + SizeOf(TreeOf(s.nodes, right)) <= MAX_SIZE
    requires !MayRebalance(TreeOf(s.nodes, Some(left)), TreeOf(s.nodes, right))
    modifies s
    ensures s.Valid() && s.roots == old(s.roots) + multiset{result} && result in s.nodes
    ensures Later(old(s.nodes), old(s.next), s.nodes, s.next)
    ensures Joined(old(TreeOf(s.nodes, Some(left))), old(TreeOf(s.nodes, right)), Tree(s.nodes, result))
    ensures Some(Tree(s.nodes, result)) == Join(old(TreeOf(s.nodes, Some(left))), old(TreeOf(s.nodes, right)), false)
    decreases 0, 3
  {
    hide Inv, Shape, FlatOk, Counted, Later, MinLen, Tree, Rope.Valid, MayRebalance, JoinDepth, Joined, Concatenates,
      Concatenated, ConcatOf;
    ghost var h, t, before := s.nodes, s.next, s.roots;
    Shaped(h, t, before);
    TreeOptionFields(h, Some(left));
    TreeOptionFields(h, right);
    ConcatenatedPlain(TreeOf(h, Some(left)), TreeOf(h, right));
    var joined := Concat(s, Some(left), right);
    Shaped(s.nodes, s.next, s.roots);
    NotNothing(TreeOf(h, Some(left)), TreeOf(h, right), TreeOf(s.nodes, joined));
    result := joined.value;
    JoinedByConcat(TreeOf(h, Some(left)), TreeOf(h, right), TreeOf(s.nodes, joined));
  }

  lemma NoTree(h: Nodes)
    requires Shape(h)
    ensures TreeOf(h, None) == None
  {
  }

  // One bucket of the loops that join buckets in ascending order.
  method SweepBucket(s: Store, forest: Forest, i: nat, tiny: Option<Ref>, mark: bool, ghost rest: multiset<Ref>)
    returns (joined: Option<Ref>)
    requires s.Valid() && i < forest.Length && Alive(s.nodes, tiny) && s.roots == rest + Held(forest[..]) + One(tiny)
    requires ForestOk(Trees(s.nodes, forest[..])) && EmptyBelow(Trees(s.nodes, forest[..]), i)
    requires TinyOk(TreeOf(s.nodes, tiny), i)
    requires |Above(Trees(s.nodes, forest[..]), i)| + SizeOf(TreeOf(s.nodes, tiny)) <= MAX_SIZE
    modifies s, forest
    ensures s.Valid() && Alive(s.nodes, joined) && s.roots == rest + Held(forest[..]) + One(joined)
    ensures Later(old(s.nodes), old(s.next), s.nodes, s.next)
    ensures ForestOk(Trees(s.nodes, forest[..])) && EmptyBelow(Trees(s.nodes, forest[..]), i + 1)
    ensures TinyOk(TreeOf(s.nodes, joined), i + 1)
    ensures Trees(s.nodes, forest[..]) == old(Trees(s.nodes, forest[..]))[i := None]
    ensures TreeOf(s.nodes, joined) == Met(old(Trees(s.nodes, forest[..]))[i], old(TreeOf(s.nodes, tiny)), mark)
    ensures old(RoughlyOk(TreeOf(s.nodes, tiny))) ==> RoughlyOk(TreeOf(s.nodes, joined))
    ensures Above(Trees(s.nodes, forest[..]), i + 1) + TextOf(TreeOf(s.nodes, joined))
         == old(Above(Trees(s.nodes, forest[..]), i) + TextOf(TreeOf(s.nodes, tiny)))
    decreases 0, 5
  {
    hide Inv, Shape, FlatOk, Counted, Later, MinLen, Above, JoinDepth, MayRebalance, NeedsRebalance, Rope.Valid,
      Rope.Text, InBucket, InserteeOk, Tree, TreeOf, Held, Joined, TinyOk, RoughlyOk;
    ghost var h, t, f := s.nodes, s.next, forest[..];
    Shaped(h, t, s.roots);
    ghost var ts, was := Trees(h, f), TreeOf(h, tiny);
    ForestTree(h, t, s.roots, f, i);
    EmptyBucket(ts, i);
    if forest[i].Some? {
      SomeTree(h, f[i]);
      BucketRoom(ts, i, SizeOf(was));
      InBucketOf(ts, i);
      SweepReady(ts[i].value, was, i);
      var piece := JoinBucket(s, forest, i, tiny, mark, rest);
      Shaped(s.nodes, s.next, s.roots);
      SomeTree(s.nodes, Some(piece));
      LastStep(was, ts[i].value, Tree(s.nodes, piece), i);
      JoinedText(ts[i], was, Tree(s.nodes, piece));
      joined := Some(piece);
    } else {
      joined := tiny;
      NoTree(h);
      assert forest[..] == f[i := None] == f && ts[i := None] == ts;
      TinyStep(was, i);
      assert "" + TextOf(was) == TextOf(was);
      LaterReflexive(h, t, s.roots);
    }
    Associative(Above(ts[i := None], i + 1), TextOf(ts[i]), TextOf(was));
  }

  // The first loop of _S_add_leaf_to_forest: empties the buckets that are too small for
  // a piece of this size and joins what they held.
  method CollectTooTiny(s: Store, size: nat, forest: Forest, ghost rest: multiset<Ref>)
    returns (tooTiny: Option<Ref>, i: nat)
    requires s.Valid() && s.roots == rest + Held(forest[..])
    requires 0 < size && ForestOk(Trees(s.nodes, forest[..]))
    requires |Above(Trees(s.nodes, forest[..]), 0)| + size <= MAX_SIZE
    modifies s, forest
    ensures s.Valid() && s.roots == rest + Held(forest[..]) + One(tooTiny) && Alive(s.nodes, tooTiny)
    ensures Later(old(s.nodes), old(s.next), s.nodes, s.next)
    ensures ForestOk(Trees(s.nodes, forest[..])) && EmptyBelow(Trees(s.nodes, forest[..]), i)
    ensures i <= 43 && MinLen(i) <= size < MinLen(i + 1)
    ensures TinyOk(TreeOf(s.nodes, tooTiny), i)
    ensures Above(Trees(s.nodes, forest[..]), i) + TextOf(TreeOf(s.nodes, tooTiny)) ==
            old(Above(Trees(s.nodes, forest[..]), 0))
    ensures i == BucketFor(size, 0) && TreeOf(s.nodes, tooTiny) == Swept(old(Trees(s.nodes, forest[..])), i, true)
    ensures Trees(s.nodes, forest[..]) == Emptied(old(Trees(s.nodes, forest[..])), i)
    decreases 0, 6
  {
    hide Inv, Shape, FlatOk, Counted, Later, MinLen, Above, Rope.Valid, Rope.Text, InBucket, Tree, TreeOf,
      Held, TinyOk, ForestOk, EmptyBelow, One, Alive, Trees, BucketFor, Swept, Emptied;
    NothingYet(s.nodes, s.next, s.roots);
    NothingBelow(s.nodes, forest[..]);
    ghost var ts := Trees(s.nodes, forest[..]);
    EmptiedStep(ts, 0, true);
    BucketStep(size, 0);
    ghost var h0, t0, before := s.nodes, s.next, Above(Trees(s.nodes, forest[..]), 0);
    tooTiny, i := None, 0;
    FirstEntry();
    while size >= MinLen(i + 1)
      invariant s.Valid() && s.roots == rest + Held(forest[..]) + One(tooTiny) && Alive(s.nodes, tooTiny)
      invariant Shape(s.nodes) && Later(h0, t0, s.nodes, s.next)
      invariant i <= 43 && size >= MinLen(i)
      invariant ForestOk(Trees(s.nodes, forest[..])) && EmptyBelow(Trees(s.nodes, forest[..]), i)
      invariant TinyOk(TreeOf(s.nodes, tooTiny), i)
      invariant Above(Trees(s.nodes, forest[..]), i) + TextOf(TreeOf(s.nodes, tooTiny)) == before
      invariant BucketFor(size, 0) == BucketFor(size, i) && TreeOf(s.nodes, tooTiny) == Swept(ts, i, true)
      invariant Trees(s.nodes, forest[..]) == Emptied(ts, i)
      decreases 44 - i
    {
      ghost var h, t := s.nodes, s.next;
      EmptiedStep(ts, i, true);
      BucketStep(size, i);
      TreeOptionFields(h, tooTiny);
      SizeOfIsTextLength(TreeOf(h, tooTiny));
      tooTiny := SweepBucket(s, forest, i, tooTiny, true, rest);
      LaterTransitive(h0, t0, h, t, s.nodes, s.next);
      Shaped(s.nodes, s.next, s.roots);
      BucketIndexBound(size, i + 1);
      i := i + 1;
    }
    BucketStep(size, i);
  }

  lemma NothingYet(h: Nodes, next: Ref, roots: multiset<Ref>)
    requires Inv(h, next, roots)
    ensures Shape(h) && Later(h, next, h, next) && TreeOf(h, None) == None && TinyOk(None, 0) && One(None) == multiset{}
    ensures roots + multiset{} == roots
  {
    LaterReflexive(h, next, roots);
  }

  lemma NothingBelow(h: Nodes, f: seq<Option<Ref>>)
    requires Shape(h) && ForestOk(Trees(h, f))
    ensures EmptyBelow(Trees(h, f), 0) && Alive(h, None) && |f| == FOREST_SIZE
  {
  }

  lemma SomeTree(h: Nodes, r: Option<Ref>)
    requires Shape(h) && r.Some? && Alive(h, r)
    ensures TreeOf(h, r) == Some(Tree(h, r.value))
  {
    hide Tree;
  }

  lemma InBucketOf(f: seq<Option<Rope>>, i: nat)
    requires ForestOk(f) && i < |f| && f[i].Some?
    ensures InBucket(f[i].value, i)
  {
  }

  lemma JoinedText(left: Option<Rope>, right: Option<Rope>, result: Rope)
    requires Joined(left, right, result)
    ensures result.Valid() && result.Text() == TextOf(left) + TextOf(right)
    ensures result.Size() == SizeOf(left) + SizeOf(right) && result.Depth() <= JoinDepth(left, right)
  {
  }

  lemma TinyStep(tiny: Option<Rope>, i: nat)
    requires TinyOk(tiny, i)
    ensures TinyOk(tiny, i + 1)
  {
    hide MinLen;
  }

  // The piece on its way up takes what is in bucket i with it.
  method MeetBucket(s: Store, piece: Ref, i: nat, forest: Forest, ghost rest: multiset<Ref>) returns (insertee: Ref)
    requires s.Valid() && piece in s.nodes && s.roots == rest + Held(forest[..]) + multiset{piece} && i <= 43
    requires ForestOk(Trees(s.nodes, forest[..])) && EmptyBelow(Trees(s.nodes, forest[..]), i)
    requires InserteeOk(Tree(s.nodes, piece), i)
    requires |Above(Trees(s.nodes, forest[..]), i)| + Tree(s.nodes, piece).Size() <= MAX_SIZE
    modifies s, forest
    ensures s.Valid() && Shape(s.nodes) && insertee in s.nodes
    ensures s.roots == rest + Held(forest[..]) + multiset{insertee}
    ensures Later(old(s.nodes), old(s.next), s.nodes, s.next)
    ensures Trees(s.nodes, forest[..]) == old(Trees(s.nodes, forest[..]))[i := None]
    ensures Some(Tree(s.nodes, insertee)) ==
            Met(old(Trees(s.nodes, forest[..]))[i], Some(old(Tree(s.nodes, piece))), true)
    ensures Tree(s.nodes, insertee).Text() ==
            TextOf(old(Trees(s.nodes, forest[..]))[i]) + old(Tree(s.nodes, piece)).Text()
    ensures s.nodes[insertee].body.Size() == Tree(s.nodes, insertee).Size() && Tree(s.nodes, insertee).Valid()
    ensures s.nodes[insertee].body.Size() < MinLen(i + 1) ==> InBucket(Tree(s.nodes, insertee), i)
    ensures s.nodes[insertee].body.Size() >= MinLen(i + 1) ==> InserteeOk(Tree(s.nodes, insertee), i + 1)
    decreases 0, 5
  {
    hide Inv, Shape, FlatOk, Counted, Later, MinLen, Above, JoinDepth, MayRebalance, NeedsRebalance, Rope.Valid,
      Rope.Text, InBucket, TinyOk, Tree, TreeOf, Held, Joined;
    insertee := piece;
    ghost var h, t, f := s.nodes, s.next, forest[..];
    Shaped(h, t, s.roots);
    ghost var ts, was := Trees(h, f), Tree(h, piece);
    ForestTree(h, t, s.roots, f, i);
    SizeIsTextLength(was);
    EmptyBucket(ts, i);
    SomeTree(h, Some(insertee));
    if forest[i].Some? {
      SomeTree(h, f[i]);
      BucketRoom(ts, i, was.Size());
      InBucketOf(ts, i);
      MeetReady(ts[i].value, was, i);
      insertee := JoinBucket(s, forest, i, Some(insertee), true, rest);
      Shaped(s.nodes, s.next, s.roots);
      JoinedText(ts[i], Some(was), Tree(s.nodes, insertee));
      AlmostWhenLower(Tree(s.nodes, insertee).Size(), Tree(s.nodes, insertee).Depth(), JoinDepth(ts[i], Some(was)));
    } else {
      NoTree(h);
      LaterReflexive(h, t, s.roots);
      assert f[i := None] == f && ts[i := None] == ts;
      assert "" + was.Text() == was.Text();
    }
    InsertStep(Tree(s.nodes, insertee), i);
    TreeFields(s.nodes, insertee);
  }

  // The second loop of _S_add_leaf_to_forest: carries the piece up to its bucket, joining
  // the buckets it meets.
  method InsertUpwards(s: Store, piece: Ref, start: nat, forest: Forest, ghost rest: multiset<Ref>)
    requires s.Valid() && piece in s.nodes && s.roots == rest + Held(forest[..]) + multiset{piece}
    requires ForestOk(Trees(s.nodes, forest[..])) && EmptyBelow(Trees(s.nodes, forest[..]), start)
    requires InserteeOk(Tree(s.nodes, piece), start)
    requires |Above(Trees(s.nodes, forest[..]), start)| + Tree(s.nodes, piece).Size() <= MAX_SIZE
    modifies s, forest
    ensures s.Valid() && s.roots == rest + Held(forest[..])
    ensures Later(old(s.nodes), old(s.next), s.nodes, s.next)
    ensures ForestOk(Trees(s.nodes, forest[..]))
    ensures Above(Trees(s.nodes, forest[..]), 0) ==
            old(Above(Trees(s.nodes, forest[..]), start)) + old(Tree(s.nodes, piece).Text())
    ensures start < FOREST_SIZE
    ensures Trees(s.nodes, forest[..]) ==
            Carried(old(Trees(s.nodes, forest[..])), old(Tree(s.nodes, piece)), start)
    decreases 0, 6
  {
    hide Inv, Shape, FlatOk, Counted, Later, MinLen, Above, JoinDepth, MayRebalance, NeedsRebalance, Rope.Valid,
      Rope.Text, InBucket, TinyOk, Tree, TreeOf, Held, Joined, Met, Carried;
    NothingYet(s.nodes, s.next, s.roots);
    ghost var h0, t0, after := s.nodes, s.next, Above(Trees(s.nodes, forest[..]), start) + Tree(s.nodes, piece).Text();
    var insertee, i := piece, start;
    SizeIsTextLength(Tree(s.nodes, piece));
    BucketIndexBound(Tree(s.nodes, piece).Size(), i);
    ghost var carried := Carried(Trees(s.nodes, forest[..]), Tree(s.nodes, piece), start);
    while true
      invariant s.Valid() && insertee in s.nodes && s.roots == rest + Held(forest[..]) + multiset{insertee}
      invariant Shape(s.nodes) && Later(h0, t0, s.nodes, s.next)
      invariant i <= 43 && ForestOk(Trees(s.nodes, forest[..])) && EmptyBelow(Trees(s.nodes, forest[..]), i)
      invariant InserteeOk(Tree(s.nodes, insertee), i)
      invariant Above(Trees(s.nodes, forest[..]), i) + Tree(s.nodes, insertee).Text() == after
      invariant Carried(Trees(s.nodes, forest[..]), Tree(s.nodes, insertee), i) == carried
      decreases 44 - i
    {
      ghost var h, t, ts, was := s.nodes, s.next, Trees(s.nodes, forest[..]), Tree(s.nodes, insertee);
      SizeIsTextLength(was);
      insertee := MeetBucket(s, insertee, i, forest, rest);
      LaterTransitive(h0, t0, h, t, s.nodes, s.next);
      EmptyBucket(ts, i);
      ghost var piece' := Tree(s.nodes, insertee);
      Associative(Above(ts[i := None], i + 1), TextOf(ts[i]), was.Text());
      SizeIsTextLength(piece');
      CarriedStep(ts, was, i, piece');
      if i == MAX_ROPE_DEPTH || s.nodes[insertee].body.Size() < MinLen(i + 1) {
        Placed(s.nodes, s.next, s.roots, forest[..], i, insertee, rest);
        forest[i] := Some(insertee);
        return;
      }
      BucketIndexBound(piece'.Size(), i + 1);
      i := i + 1;
    }
  }

  lemma Placed(h: Nodes, next: Ref, roots: multiset<Ref>, f: seq<Option<Ref>>, i: nat, piece: Ref, rest: multiset<Ref>)
    requires Inv(h, next, roots) && piece in h && i < |f| && roots == rest + Held(f) + multiset{piece}
    requires ForestOk(Trees(h, f)) && EmptyBelow(Trees(h, f), i + 1) && InBucket(Tree(h, piece), i)
    ensures var g := f[i := Some(piece)];
      && roots == rest + Held(g) && ForestOk(Trees(h, g)) && Trees(h, g) == Trees(h, f)[i := Some(Tree(h, piece))]
      && Above(Trees(h, g), 0) == Above(Trees(h, f), i + 1) + Tree(h, piece).Text()
  {
    hide FlatOk, Counted, MinLen, Above, Tree, Held, InBucket, Rope.Text;
    ForestTree(h, next, roots, f, i);
    assert Trees(h, f)[i].None?;
    SomeTree(h, Some(piece));
    HeldUpdate(f, i, Some(piece));
    assert f[i].None? && One(f[i]) == multiset{};
    assert Held(f[i := Some(piece)]) + multiset{} == Held(f) + multiset{piece};
    assert rest + (Held(f) + multiset{piece}) == roots;
    TreesUpdate(h, f, i, Some(piece));
    PlaceStep(Trees(h, f), Tree(h, piece), i);
  }

  // r hangs, through links of the chain, on a counted reference that is not given up.
  ghost predicate Chained(h: Nodes, rest: multiset<Ref>, chain: seq<Ref>, r: Ref) {
    && chain != [] && chain[0] in rest && chain[|chain| - 1] == r && (forall k :: 0 <= k < |chain| ==> chain[k] in h)
    && forall k :: 0 < k < |chain| ==> EdgesFrom(h[chain[k - 1]].body, chain[k]) > 0
  }

  /** So it stays, whatever else goes. */
  lemma {:induction false} ChainKept(h: Nodes, next: Ref, h': Nodes, next': Ref, roots: multiset<Ref>,
                                     roots': multiset<Ref>, rest: multiset<Ref>, chain: seq<Ref>, r: Ref)
    requires Inv(h, next, roots) && Inv(h', next', roots') && Later(h, next, h', next') && rest <= roots'
    requires Chained(h, rest, chain, r)
    ensures r in h && r in h' && Chained(h', rest, chain, r)
    ensures Shape(h) && Shape(h') && Tree(h', r) == Tree(h, r) && h'[r].body == h[r].body
  {
    hide Tree, FlatOk, Shape, Edges, EdgesFrom, BalancedFor, Counted, Later;
    var k := |chain| - 1;
    Shaped(h, next, roots);
    Shaped(h', next', roots');
    if k > 0 {
      var up := chain[..k];
      assert forall j :: 0 <= j < k ==> up[j] == chain[j];
      assert Chained(h, rest, up, chain[k - 1]);
      ChainKept(h, next, h', next', roots, roots', rest, up, chain[k - 1]);
      SameLinks(h[chain[k - 1]].body, h'[chain[k - 1]].body, r);
      ChildrenIn(h', chain[k - 1]);
      forall j | 0 < j < |chain| ensures EdgesFrom(h'[chain[j - 1]].body, chain[j]) > 0 {
        if j < k { assert up[j] == chain[j] && up[j - 1] == chain[j - 1]; }
      }
    } else {
      RootsIn(h', next', roots', r);
    }
    TreeKept(h, next, h', next', r);
  }

  lemma SameLinks(b: Body, b': Body, n: Ref)
    requires b == b'
    ensures EdgesFrom(b, n) == EdgesFrom(b', n)
  {
  }

  // _S_add_leaf_to_forest, for a balanced r that the caller keeps.
  method AddLeafToForest(s: Store, r: Ref, forest: Forest, ghost rest: multiset<Ref>, ghost chain: seq<Ref>)
    requires s.Valid() && s.roots == rest + Held(forest[..]) && Chained(s.nodes, rest, chain, r)
    requires s.nodes[r].body.IsBalanced()
    requires ForestOk(Trees(s.nodes, forest[..]))
    requires |Above(Trees(s.nodes, forest[..]), 0)| + Tree(s.nodes, r).Size() <= MAX_SIZE
    modifies s, forest
    ensures s.Valid() && s.roots == rest + Held(forest[..])
    ensures Later(old(s.nodes), old(s.next), s.nodes, s.next)
    ensures ForestOk(Trees(s.nodes, forest[..]))
    ensures Above(Trees(s.nodes, forest[..]), 0) ==
            old(Above(Trees(s.nodes, forest[..]), 0)) + old(Tree(s.nodes, r).Text())
    ensures BucketFor(old(Tree(s.nodes, r)).Size(), 0) < FOREST_SIZE
    ensures Trees(s.nodes, forest[..]) == AddLeaf(old(Trees(s.nodes, forest[..])), old(Tree(s.nodes, r)))
    decreases 0, 7
  {
    hide Inv, Shape, FlatOk, Counted, Later, MinLen, Above, Rope.Valid, Rope.Text, Tree, TreeOf, Held, Chained, TinyOk,
      ForestOk, EmptyBelow, InserteeOk, BucketFor, Swept, Emptied, Carried, Join;
    ghost var h, t, before := s.nodes, s.next, s.roots;
    Shaped(h, t, before);
    ChainIn(h, rest, chain, r);
    ghost var tree := Tree(h, r);
    TreeFields(h, r);
    SizeIsTextLength(tree);
    BalancedNode(h, r);
    var tooTiny, i := CollectTooTiny(s, s.nodes[r].body.Size(), forest, rest);
    ghost var h1, t1 := s.nodes, s.next;
    ChainKept(h, t, h1, t1, before, s.roots, rest, chain, r);
    TreeOptionFields(h1, tooTiny);
    ghost var tiny := TreeOf(h1, tooTiny);
    SizeOfIsTextLength(tiny);
    ghost var above := Above(Trees(h1, forest[..]), i);
    var insertee := JoinTooTiny(s, tooTiny, r, i, forest[..], rest);
    ghost var h2, t2 := s.nodes, s.next;
    LaterTransitive(h, t, h1, t1, h2, t2);
    Associative(above, TextOf(tiny), tree.Text());
    Shaped(h2, t2, s.roots);
    TreeFields(h2, insertee);
    SizeIsTextLength(Tree(h2, insertee));
    InsertUpwards(s, insertee, i, forest, rest);
    LaterTransitive(h, t, h2, t2, s.nodes, s.next);
  }

  // Between the loops of _S_add_leaf_to_forest.
  method JoinTooTiny(s: Store, tooTiny: Option<Ref>, r: Ref, ghost i: nat, ghost f: seq<Option<Ref>>,
                     ghost rest: multiset<Ref>)
    returns (insertee: Ref)
    requires s.Valid() && r in s.nodes && Alive(s.nodes, tooTiny) && s.roots == rest + Held(f) + One(tooTiny)
    requires TinyOk(TreeOf(s.nodes, tooTiny), i) && MinLen(Tree(s.nodes, r).Depth()) <= Tree(s.nodes, r).Size()
    requires MinLen(i) <= Tree(s.nodes, r).Size() < MinLen(i + 1) && Settled(Tree(s.nodes, r))
    requires SizeOf(TreeOf(s.nodes, tooTiny)) + Tree(s.nodes, r).Size() <= MAX_SIZE
    modifies s
    ensures s.Valid() && s.roots == rest + Held(f) + multiset{insertee} && insertee in s.nodes
    ensures Later(old(s.nodes), old(s.next), s.nodes, s.next)
    ensures Trees(s.nodes, f) == old(Trees(s.nodes, f)) && InserteeOk(Tree(s.nodes, insertee), i)
    ensures Some(Tree(s.nodes, insertee)) == Join(old(TreeOf(s.nodes, tooTiny)), Some(old(Tree(s.nodes, r))), true)
    ensures Tree(s.nodes, insertee).Text() == old(TextOf(TreeOf(s.nodes, tooTiny))) + old(Tree(s.nodes, r).Text())
    decreases 0, 4
  {
    hide Inv, Shape, FlatOk, Counted, Later, MinLen, JoinDepth, MayRebalance, NeedsRebalance, Rope.Valid,
      Rope.Text, Tree, TreeOf, Held, Joined, TinyOk, Trees, InserteeOk;
    ghost var h, t, before := s.nodes, s.next, s.roots;
    Shaped(h, t, before);
    ghost var tiny, tree := TreeOf(h, tooTiny), Tree(h, r);
    TreeFields(h, r);
    SomeTree(h, Some(r));
    FirstPieceReady(tiny, tree, i);
    insertee := ConcatAndSetBalanced(s, tooTiny, Some(r));
    ghost var h1, t1, roots1 := s.nodes, s.next, s.roots;
    FirstRoots(rest, f, tooTiny, insertee);
    s.Release(tooTiny);
    LaterTransitive(h, t, h1, t1, s.nodes, s.next);
    RootKept(h1, t1, roots1, s.nodes, s.next, s.roots, insertee);
    TreesKept(h, t, s.nodes, s.next, before, s.roots, f);
    FirstInsertee(tiny, tree, Tree(s.nodes, insertee), i);
  }

  lemma FirstInsertee(tiny: Option<Rope>, r: Rope, first: Rope, i: nat)
    requires TinyOk(tiny, i) && r.Valid() && MinLen(r.Depth()) <= r.Size() && MinLen(i) <= r.Size() < MinLen(i + 1)
    requires SizeOf(tiny) + r.Size() <= MAX_SIZE && Joined(tiny, Some(r), first) && Settled(first)
    ensures InserteeOk(first, i) && first.Text() == TextOf(tiny) + r.Text()
  {
    hide MinLen, TinyOk, JoinDepth, MayRebalance;
    FirstPieceReady(tiny, r, i);
    AlmostWhenLower(first.Size(), first.Depth(), JoinDepth(tiny, Some(r)));
  }

  lemma ChainIn(h: Nodes, rest: multiset<Ref>, chain: seq<Ref>, r: Ref)
    requires Chained(h, rest, chain, r)
    ensures r in h
  {
  }

  lemma BalancedNode(h: Nodes, r: Ref)
    requires Shape(h) && r in h && h[r].body.IsBalanced()
    ensures h[r].body.Size() >= MinLen(h[r].body.Depth())
  {
    assert NodeOk(h, r);
  }

  lemma FirstRoots(rest: multiset<Ref>, f: seq<Option<Ref>>, tooTiny: Option<Ref>, insertee: Ref)
    ensures var roots := rest + Held(f) + One(tooTiny) + multiset{insertee};
      && Held(f) <= rest + Held(f) + One(tooTiny) && Held(f) <= roots && insertee in roots
      && roots - One(tooTiny) == rest + Held(f) + multiset{insertee} && Held(f) <= rest + Held(f) + multiset{insertee}
      && (tooTiny.Some? ==> tooTiny.value in roots)
  {
    hide Held;
  }

  // _S_add_to_forest
  method AddToForest(s: Store, r: Ref, forest: Forest, ghost rest: multiset<Ref>, ghost chain: seq<Ref>)
    requires s.Valid() && s.roots == rest + Held(forest[..]) && Chained(s.nodes, rest, chain, r)
    requires ForestOk(Trees(s.nodes, forest[..]))
    requires |Above(Trees(s.nodes, forest[..]), 0)| + Tree(s.nodes, r).Size() <= MAX_SIZE
    modifies s, forest
    ensures s.Valid() && s.roots == rest + Held(forest[..])
    ensures Later(old(s.nodes), old(s.next), s.nodes, s.next)
    ensures ForestOk(Trees(s.nodes, forest[..]))
    ensures Above(Trees(s.nodes, forest[..]), 0) ==
            old(Above(Trees(s.nodes, forest[..]), 0)) + old(Tree(s.nodes, r).Text())
    ensures Trees(s.nodes, forest[..]) == AddAll(old(Trees(s.nodes, forest[..])), BalancedParts(old(Tree(s.nodes, r))))
    decreases 0, 8, s.nodes[r].body.Rank()
  {
    hide Inv, Shape, FlatOk, Counted, Later, MinLen, Above, Rope.Valid, Tree, TreeOf, Held, Chained, ForestOk,
      Body.Rank, AddLeaf, AddAll, BalancedParts;
    ghost var h, t, before := s.nodes, s.next, s.roots;
    Shaped(h, t, before);
    ChainIn(h, rest, chain, r);
    TreeFields(h, r);
    ghost var ts := Trees(h, forest[..]);
    NothingBelow(h, forest[..]);
    if s.nodes[r].body.IsBalanced() {
      AddLeafToForest(s, r, forest, rest, chain);
      WholePart(ts, Tree(h, r));
      return;
    }
    ghost var text := Above(Trees(h, forest[..]), 0);
    var left, right := s.nodes[r].body.left, s.nodes[r].body.right;
    ConcatFields(h, r);
    Links(h, rest, chain, r);
    TreeFields(h, left);
    TreeFields(h, right);
    SizeIsTextLength(Tree(h, left));
    AddToForest(s, left, forest, rest, chain + [left]);
    ghost var h1, t1, roots1 := s.nodes, s.next, s.roots;
    ChainKept(h, t, h1, t1, before, roots1, rest, chain + [right], right);
    RankSame(h, h1, right);
    AddToForest(s, right, forest, rest, chain + [right]);
    LaterTransitive(h, t, h1, t1, s.nodes, s.next);
    Associative(text, Tree(h, left).Text(), Tree(h, right).Text());
    BothParts(ts, Tree(h, r));
  }

  lemma WholePart(f: seq<Option<Rope>>, r: Rope)
    requires |f| == FOREST_SIZE && r.IsBalanced()
    ensures AddAll(f, BalancedParts(r)) == AddLeaf(f, r)
  {
    hide AddLeaf;
  }

  lemma BothParts(f: seq<Option<Rope>>, r: Rope)
    requires |f| == FOREST_SIZE && !r.IsBalanced()
    ensures AddAll(f, BalancedParts(r)) == AddAll(AddAll(f, BalancedParts(r.left)), BalancedParts(r.right))
  {
    hide AddAll;
    AddAllSplit(f, BalancedParts(r.left), BalancedParts(r.right));
  }

  lemma Links(h: Nodes, rest: multiset<Ref>, chain: seq<Ref>, r: Ref)
    requires Shape(h) && Chained(h, rest, chain, r) && h[r].body.ConcatBody?
    ensures Chained(h, rest, chain + [h[r].body.left], h[r].body.left)
    ensures Chained(h, rest, chain + [h[r].body.right], h[r].body.right)
    ensures h[h[r].body.left].body.Rank() < h[r].body.Rank() && h[h[r].body.right].body.Rank() < h[r].body.Rank()
  {
    hide Chained, BalancedFor;
    ChainIn(h, rest, chain, r);
    assert NodeOk(h, r);
    LinkTo(h, rest, chain, r, h[r].body.left);
    LinkTo(h, rest, chain, r, h[r].body.right);
  }

  lemma LinkTo(h: Nodes, rest: multiset<Ref>, chain: seq<Ref>, r: Ref, m: Ref)
    requires Chained(h, rest, chain, r) && m in h && EdgesFrom(h[r].body, m) > 0
    ensures Chained(h, rest, chain + [m], m)
  {
    hide EdgesFrom;
  }

  lemma RankSame(h: Nodes, h': Nodes, n: Ref)
    requires n in h && n in h' && h'[n].body == h[n].body
    ensures h'[n].body.Rank() == h[n].body.Rank()
  {
  }

  // _S_balance. Its result is roughly balanced, so that its abort() is never reached.
  method Balance(s: Store, r: Ref) returns (balanced: Ref)
    requires s.Valid() && r in s.roots && r in s.nodes && s.nodes[r].body.Size() <= MAX_SIZE
    modifies s
    ensures s.Valid() && s.roots == old(s.roots) + multiset{balanced} && balanced in s.nodes
    ensures Later(old(s.nodes), old(s.next), s.nodes, s.next)
    ensures Balanced(old(Tree(s.nodes, r)), Tree(s.nodes, balanced))
    ensures Some(Tree(s.nodes, balanced)) == BalanceOf(old(Tree(s.nodes, r)))
    decreases 0, 9
  {
    hide Inv, Shape, FlatOk, Counted, Later, MinLen, Above, JoinDepth, MayRebalance, NeedsRebalance, Rope.Valid,
      Rope.Text, InBucket, InserteeOk, Tree, TreeOf, Held, Joined, TinyOk, Swept, Emptied,
      Met, AddAll, BalancedParts;
    ghost var h0, t0, before := s.nodes, s.next, s.roots;
    NothingYet(h0, t0, before);
    var forest := new Option<Ref>[FOREST_SIZE](_ => None);
    EmptyForest(h0, before, forest[..], r);
    TreeFields(h0, r);
    SizeIsTextLength(Tree(h0, r));
    ghost var text := Tree(h0, r).Text();
    AddToForest(s, r, forest, before, [r]);
    Shaped(s.nodes, s.next, s.roots);
    ghost var ts := Trees(s.nodes, forest[..]);
    BalanceSteps(Tree(h0, r), ts);
    EmptiedStep(ts, 0, false);
    var result: Option<Ref> := None;
    NothingTiny(s.nodes, s.next, s.roots, Trees(s.nodes, forest[..]), text);
    for i := 0 to FOREST_SIZE
      invariant s.Valid() && s.roots == before + Held(forest[..]) + One(result) && Alive(s.nodes, result)
      invariant Shape(s.nodes) && Later(h0, t0, s.nodes, s.next)
      invariant ForestOk(Trees(s.nodes, forest[..])) && EmptyBelow(Trees(s.nodes, forest[..]), i)
      invariant TinyOk(TreeOf(s.nodes, result), i) && RoughlyOk(TreeOf(s.nodes, result))
      invariant Above(Trees(s.nodes, forest[..]), i) + TextOf(TreeOf(s.nodes, result)) == text
      invariant TreeOf(s.nodes, result) == Swept(ts, i, false) && Trees(s.nodes, forest[..]) == Emptied(ts, i)
    {
      ghost var h, t := s.nodes, s.next;
      EmptiedStep(ts, i, false);
      TreeOptionFields(h, result);
      SizeOfIsTextLength(TreeOf(h, result));
      result := SweepBucket(s, forest, i, result, false, before);
      LaterTransitive(h0, t0, h, t, s.nodes, s.next);
      Shaped(s.nodes, s.next, s.roots);
    }
    NothingAbove(Trees(s.nodes, forest[..]));
    EmptiedForest(s.nodes, s.next, s.roots, forest[..], before, result);
    TreeOptionFields(s.nodes, result);
    BalanceDone(TreeOf(s.nodes, result), Tree(h0, r));
    NoTree(s.nodes);
    SomeTree(s.nodes, result);
    balanced := result.value;
  }

  lemma BalanceSteps(r: Rope, f: seq<Option<Rope>>)
    requires f == AddAll(NoTrees(), BalancedParts(r))
    ensures BalanceOf(r) == Swept(f, FOREST_SIZE, false)
  {
    hide AddAll, Swept;
  }

  lemma EmptyForest(h: Nodes, roots: multiset<Ref>, f: seq<Option<Ref>>, r: Ref)
    requires Shape(h) && |f| == FOREST_SIZE && (forall i :: 0 <= i < |f| ==> f[i].None?) && r in roots && r in h
    ensures roots == roots + Held(f) && ForestOk(Trees(h, f)) && Above(Trees(h, f), 0) == ""
    ensures Trees(h, f) == NoTrees()
    ensures Chained(h, roots, [r], r)
  {
    hide Tree, MinLen, Above;
    HeldNothing(f);
    NothingIn(Trees(h, f));
  }

  lemma NothingTiny(h: Nodes, next: Ref, roots: multiset<Ref>, f: seq<Option<Rope>>, text: string)
    requires Inv(h, next, roots) && Above(f, 0) == "" + text
    ensures Shape(h) && TreeOf(h, None) == None && Above(f, 0) + TextOf(None) == text && TinyOk(None, 0)
    ensures RoughlyOk(None) && roots + One(None) == roots
  {
  }

  lemma LastStep(tiny: Option<Rope>, b: Rope, joined: Rope, i: nat)
    requires InBucket(b, i) && TinyOk(tiny, i) && Joined(Some(b), tiny, joined) && b.Size() + SizeOf(tiny) <= MAX_SIZE
    ensures TinyOk(Some(joined), i + 1) && RoughlyOk(Some(joined))
  {
    hide MinLen;
    SweepReady(b, tiny, i);
    SweepStep(tiny, b, joined, i);
  }

  lemma EmptiedForest(h: Nodes, next: Ref, roots: multiset<Ref>, f: seq<Option<Ref>>, before: multiset<Ref>,
                      result: Option<Ref>)
    requires Inv(h, next, roots) && roots == before + Held(f) + One(result) && EmptyBelow(Trees(h, f), |f|)
    ensures roots == before + One(result)
  {
    hide Tree, FlatOk, Counted, Held;
    HeldAlive(h, next, roots, f);
    forall i | 0 <= i < |f| ensures f[i].None? {
      assert Trees(h, f)[i].None?;
    }
    HeldNothing(f);
  }

  lemma BalanceDone(result: Option<Rope>, tree: Rope)
    requires RoughlyOk(result) && ValidOption(result) && "" + TextOf(result) == tree.Text() && tree.Valid()
    ensures result.Some? && Balanced(tree, result.value)
  {
    SizeIsTextLength(tree);
  }
}
