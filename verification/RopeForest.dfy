/**
 What _S_concat, _S_balance and the functions below them (ropeimpl.h) compute, as functions
 of trees: the exact shapes, marks included.
 */
module RopeForest {
  import opened Options
  import opened RopeTree

  const FOREST_SIZE := MAX_ROPE_DEPTH + 1

  // ----- one concatenation, without rebalancing -----

  ghost function NodeOf(left: Rope, right: Rope): Rope {
    Concatenation(left, right, left.Size() + right.Size(), Max(left.Depth(), right.Depth()) + 1, false)
  }

  // Whether _S_concat copies the right leaf into a longer one, at the end of the left tree.
  ghost predicate MergesLeaves(left: Rope, right: Rope) {
    right.Leaf? && match left
      case Leaf(_) => left.Size() + right.Size() <= COPY_MAX
      case Concatenation(_, last, _, _, _) => last.Leaf? && last.Size() + right.Size() <= COPY_MAX
      case _ => false
  }

  ghost function ConcatOf(left: Rope, right: Rope): Rope {
    if !MergesLeaves(left, right) then NodeOf(left, right)
    else if left.Leaf? then Leaf(left.data + right.data)
    else NodeOf(left.left, Leaf(left.right.data + right.data))
  }

  // The mark of _S_concat_and_set_balanced.
  ghost function SetBalanced(r: Rope): Rope {
    if BalancedFor(r.Size(), r.Depth()) then r.Marked() else r
  }

  ghost function Join(left: Option<Rope>, right: Option<Rope>, mark: bool): Option<Rope> {
    var joined := match (left, right)
      case (None, _) => right
      case (_, None) => left
      case (Some(l), Some(r)) => Some(ConcatOf(l, r));
    if mark && joined.Some? then Some(SetBalanced(joined.value)) else joined
  }

  // What each of the three loops makes of a bucket and the piece at hand.
  ghost function Met(bucket: Option<Rope>, piece: Option<Rope>, mark: bool): Option<Rope> {
    if bucket.None? then piece else Join(bucket, piece, mark)
  }

  // ----- one leaf more in the forest -----

  // The first bucket from i on that a piece of this size is not too large for.
  ghost function BucketFor(size: nat, i: nat): (j: nat)
    ensures i <= j && (i <= MAX_ROPE_DEPTH ==> j <= MAX_ROPE_DEPTH)
    decreases MAX_ROPE_DEPTH - i
  {
    if i >= MAX_ROPE_DEPTH || size < MinLen(i + 1) then i else BucketFor(size, i + 1)
  }

  // The buckets below i, joined one by one from the smallest up.
  ghost function Swept(f: seq<Option<Rope>>, i: nat, mark: bool): Option<Rope>
    requires i <= |f|
  {
    if i == 0 then None else Met(f[i - 1], Swept(f, i - 1, mark), mark)
  }

  ghost function Emptied(f: seq<Option<Rope>>, i: nat): (g: seq<Option<Rope>>)
    requires i <= |f|
    ensures |g| == |f|
  {
    seq(|f|, k requires 0 <= k < |f| => if k < i then None else f[k])
  }

  // The piece carried up from bucket i, taking with it what it meets.
  ghost function Carried(f: seq<Option<Rope>>, piece: Rope, i: nat): (g: seq<Option<Rope>>)
    requires i < |f|
    ensures |g| == |f|
    decreases |f| - i
  {
    var met := Met(f[i], Some(piece), true).value;
    if i + 1 == |f| || met.Size() < MinLen(i + 1) then f[i := Some(met)] else Carried(f[i := None], met, i + 1)
  }

  /** One bucket more of the first loop. */
  lemma EmptiedStep(f: seq<Option<Rope>>, i: nat, mark: bool)
    requires i < |f|
    ensures Emptied(f, 0) == f && Swept(f, 0, mark) == None && Emptied(f, i)[i] == f[i]
    ensures Emptied(f, i + 1) == Emptied(f, i)[i := None]
    ensures Swept(f, i + 1, mark) == Met(f[i], Swept(f, i, mark), mark)
  {
  }

  lemma BucketStep(size: nat, i: nat)
    requires i < MAX_ROPE_DEPTH
    ensures BucketFor(size, i) == if size < MinLen(i + 1) then i else BucketFor(size, i + 1)
  {
  }

  /** One bucket of the second loop. */
  lemma CarriedStep(f: seq<Option<Rope>>, piece: Rope, i: nat, met: Rope)
    requires i < |f| && Some(met) == Met(f[i], Some(piece), true)
    ensures Carried(f, piece, i) ==
              if i + 1 == |f| || met.Size() < MinLen(i + 1) then f[i := Some(met)]
              else Carried(f[i := None], met, i + 1)
  {
  }

  // The insertee between the two loops.
  ghost function Insertee(f: seq<Option<Rope>>, r: Rope): Rope
    requires BucketFor(r.Size(), 0) <= |f|
  {
    Join(Swept(f, BucketFor(r.Size(), 0), true), Some(r), true).value
  }

  ghost function AddLeaf(f: seq<Option<Rope>>, r: Rope): (g: seq<Option<Rope>>)
    requires |f| == FOREST_SIZE
    ensures |g| == |f|
  {
    var i := BucketFor(r.Size(), 0);
    Carried(Emptied(f, i), Insertee(f, r), i)
  }

  // ----- rebalancing, and concatenation with it -----

  // What _S_add_to_forest adds for a tree: its balanced parts, from left to right.
  ghost function BalancedParts(r: Rope): seq<Rope> {
    if r.IsBalanced() then [r] else BalancedParts(r.left) + BalancedParts(r.right)
  }

  ghost function AddAll(f: seq<Option<Rope>>, parts: seq<Rope>): (g: seq<Option<Rope>>)
    requires |f| == FOREST_SIZE
    ensures |g| == |f|
    decreases |parts|
  {
    if parts == [] then f else AddAll(AddLeaf(f, parts[0]), parts[1..])
  }

  ghost function NoTrees(): seq<Option<Rope>> {
    seq(FOREST_SIZE, _ => None)
  }

  // _S_balance
  ghost function BalanceOf(r: Rope): Option<Rope> {
    Swept(AddAll(NoTrees(), BalancedParts(r)), FOREST_SIZE, false)
  }

  predicate NeedsRebalance(size: nat, depth: nat) {
    depth > 20 && (size < 1000 || depth > MAX_ROPE_DEPTH)
  }

  // _S_tree_concat
  ghost function TreeConcatOf(left: Rope, right: Rope): Option<Rope> {
    var node := NodeOf(left, right);
    if NeedsRebalance(node.Size(), node.Depth()) then BalanceOf(node) else Some(node)
  }

  // The end of _S_concat where it makes the last leaf of a concatenation longer.
  ghost function LastLeafOf(node: Rope, chars: string): Option<Rope>
    requires node.Concatenation? && node.right.Leaf?
  {
    TreeConcatOf(node.left, Leaf(node.right.data + chars))
  }

  // _S_concat
  ghost function Concatenated(left: Option<Rope>, right: Option<Rope>): Option<Rope> {
    match (left, right)
    case (None, _) => right
    case (_, None) => left
    case (Some(l), Some(r)) =>
      if !MergesLeaves(l, r) then TreeConcatOf(l, r)
      else if l.Leaf? then Some(Leaf(l.data + r.data))
      else LastLeafOf(l, r.data)
  }

  /** The parts of a whole, one after the other. */
  lemma {:induction false} AddAllSplit(f: seq<Option<Rope>>, parts: seq<Rope>, more: seq<Rope>)
    requires |f| == FOREST_SIZE
    ensures AddAll(f, parts + more) == AddAll(AddAll(f, parts), more)
    decreases |parts|
  {
    hide AddLeaf;
    if parts == [] {
      assert parts + more == more;
    } else {
      AddAllSplit(AddLeaf(f, parts[0]), parts[1..], more);
      assert (parts + more)[0] == parts[0] && (parts + more)[1..] == parts[1..] + more;
    }
  }

  // ----- the assertion between the two loops, and the comment on the depth of a bucket -----

  /** When the assertion that the insertee is at most one level deeper than r holds. */
  lemma InserteeDepth(tiny: Option<Rope>, r: Rope)
    requires ValidOption(tiny) && r.Valid()
    ensures Join(tiny, Some(r), true).value.Depth() <= r.Depth() + 1 <==>
              tiny.None? || tiny.value.Depth() <= r.Depth() || (tiny.value.Depth() == 1 && MergesLeaves(tiny.value, r))
  {
  }

  lemma BucketIs(size: nat, i: nat, j: nat)
    requires i <= j <= MAX_ROPE_DEPTH && MinLen(j) <= size < MinLen(j + 1)
    ensures BucketFor(size, i) == j
    decreases j - i
  {
    hide MinLen;
    if i < j {
      MinLenMonotone(i + 1, j);
      BucketIs(size, i + 1, j);
    }
  }

  lemma OnlyTree(f: seq<Option<Rope>>, k: nat, i: nat, mark: bool)
    requires k < i <= |f| && f[k].Some? && forall j :: 0 <= j < i && j != k ==> f[j].None?
    ensures Swept(f, i, mark) == Join(f[k], None, mark)
  {
    NoneBelow(f, k, mark);
    if i > k + 1 {
      OnlyTree(f, k, i - 1, mark);
    }
  }

  lemma NoneBelow(f: seq<Option<Rope>>, i: nat, mark: bool)
    requires i <= |f| && forall j :: 0 <= j < i ==> f[j].None?
    ensures Swept(f, i, mark) == None && Emptied(f, i) == f
  {
    if i > 0 {
      NoneBelow(f, i - 1, mark);
    }
  }

  /** A leaf of five characters stands in bucket 3, and has depth 0. */
  lemma DepthIsNotTheBucket()
    ensures BucketFor(5, 0) == 3
    ensures AddLeaf(NoTrees(), Leaf("abcde")) == NoTrees()[3 := Some(Leaf("abcde"))]
    ensures Leaf("abcde").Valid() && Leaf("abcde").Depth() == 0
  {
    MinLenTable();
    BucketIs(5, 0, 3);
    NoneBelow(NoTrees(), 3, true);
  }

  /** Leaves of 24, 24 and 1000 characters: the first two meet in bucket 6 and are put into
      bucket 7, from where they are collected for the third one. */
  lemma InserteeTooDeep(a: string, b: string, c: string)
    requires |a| == |b| == 24 && |c| == 1000
    ensures BucketFor(24, 0) == 6 && BucketFor(1000, 0) == 14
    ensures var f, ab := AddLeaf(AddLeaf(NoTrees(), Leaf(a)), Leaf(b)), NodeOf(Leaf(a), Leaf(b)).Marked();
      && f == NoTrees()[7 := Some(ab)] && Insertee(f, Leaf(c)) == NodeOf(ab, Leaf(c)).Marked()
      && Insertee(f, Leaf(c)).Depth() == 2 > Leaf(c).Depth() + 1
  {
    MinLenTable();
    BucketIs(24, 0, 6);
    BucketIs(1000, 0, 14);
    var ab := NodeOf(Leaf(a), Leaf(b)).Marked();
    var one, two := NoTrees()[6 := Some(Leaf(a))], NoTrees()[7 := Some(ab)];
    NoneBelow(NoTrees(), 6, true);
    assert AddLeaf(NoTrees(), Leaf(a)) == one;
    NoneBelow(one, 6, true);
    assert one[6 := None] == NoTrees();
    assert Carried(one, Leaf(b), 6) == Carried(NoTrees(), ab, 7) == two;
    assert AddLeaf(one, Leaf(b)) == two;
    OnlyTree(two, 7, 14, true);
  }
}
