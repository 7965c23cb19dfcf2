/**
 How deep a rebalanced rope is. The bounds that _S_balance (ropeimpl.h) relies on leave room
 for the parts it starts from: parts that are longer than their depth asks for make the
 result that much shallower, however deep the rope was before.
 */
module RopeDepth {
  import opened Options
  import opened RopeBalance
  import opened RopeForest
  import opened RopeTree

  // ----- bounds with some levels to spare -----

  ghost predicate Slim(r: Rope, j: nat, slack: nat) {
    r.Valid() && MinLen(j) <= r.Size() < MinLen(j + 1) && r.Depth() + slack <= j + 1
  }

  ghost predicate SlimForest(f: seq<Option<Rope>>, slack: nat) {
    |f| == FOREST_SIZE && forall j :: 0 <= j < |f| && f[j].Some? ==> Slim(f[j].value, j, slack)
  }

  ghost predicate SlimTiny(tiny: Option<Rope>, i: nat, slack: nat) {
    tiny.Some? ==>
      && tiny.value.Valid()
      && tiny.value.Depth() + slack <= i + 1
      && (tiny.value.Depth() + slack == i + 1 ==> 0 < i && tiny.value.Size() >= MinLen(i - 1))
      && RoughlyDeep(tiny.value.Size(), tiny.value.Depth() + slack)
  }

  ghost predicate RoughlyDeep(size: nat, depth: nat) {
    depth <= 1 || size >= MinLen(depth - 2)
  }

  ghost predicate AlmostDeep(size: nat, depth: nat) {
    depth == 0 || size >= MinLen(depth - 1)
  }

  ghost predicate SlimInsertee(piece: Rope, i: nat, slack: nat) {
    && piece.Valid() && piece.Size() >= MinLen(i) && piece.Depth() + slack <= i + 2
    && AlmostDeep(piece.Size(), piece.Depth() + slack)
  }

  // The characters in all buckets.
  ghost function Total(f: seq<Option<Rope>>): nat {
    if f == [] then 0 else Total(f[..|f| - 1]) + SizeOf(f[|f| - 1])
  }

  lemma {:induction false} TotalUpdate(f: seq<Option<Rope>>, i: nat, r: Option<Rope>)
    requires i < |f|
    ensures Total(f[i := r]) + SizeOf(f[i]) == Total(f) + SizeOf(r)
  {
    var k := |f| - 1;
    if i < k {
      TotalUpdate(f[..k], i, r);
      assert f[i := r][..k] == f[..k][i := r];
    } else {
      assert f[i := r][..k] == f[..k];
    }
  }

  lemma {:induction false} TotalNothing(f: seq<Option<Rope>>)
    requires forall i :: 0 <= i < |f| ==> f[i].None?
    ensures Total(f) == 0
  {
    if f != [] {
      TotalNothing(f[..|f| - 1]);
    }
  }

  // ----- one step of the loops -----

  lemma MarkKeepsFields(r: Rope)
    ensures var m := SetBalanced(r);
      m.Size() == r.Size() && m.Depth() == r.Depth() && m.Text() == r.Text() && (r.Valid() ==> m.Valid())
  {
    hide MinLen;
  }

  lemma ConcatFacts(left: Rope, right: Rope)
    requires left.Valid() && right.Valid()
    ensures var joined := ConcatOf(left, right);
      joined.Valid() && joined.Size() == left.Size() + right.Size() &&
      joined.Depth() <= Max(left.Depth(), right.Depth()) + 1
  {
    hide MinLen;
  }

  lemma JoinFacts(left: Option<Rope>, right: Option<Rope>, mark: bool)
    requires ValidOption(left) && ValidOption(right)
    ensures var joined := Join(left, right, mark);
      && ValidOption(joined) && SizeOf(joined) == SizeOf(left) + SizeOf(right)
      && (joined.Some? <==> left.Some? || right.Some?)
      && (joined.Some? ==> joined.value.Depth() <= JoinDepth(left, right))
  {
    hide ConcatOf, SetBalanced, MinLen;
    if left.Some? && right.Some? {
      ConcatFacts(left.value, right.value);
      MarkKeepsFields(ConcatOf(left.value, right.value));
    } else if left.Some? || right.Some? {
      MarkKeepsFields(if left.Some? then left.value else right.value);
    }
  }

  lemma RoughWhenLower(size: nat, depth: nat, i: nat)
    requires depth <= i + 2 && size >= MinLen(i)
    ensures RoughlyDeep(size, depth)
  {
    if depth > 1 {
      MinLenMonotone(depth - 2, i);
    }
  }

  lemma SlimSweep(bucket: Option<Rope>, tiny: Option<Rope>, i: nat, slack: nat, mark: bool)
    requires (bucket.Some? ==> Slim(bucket.value, i, slack)) && SlimTiny(tiny, i, slack)
    ensures SlimTiny(Met(bucket, tiny, mark), i + 1, slack)
    ensures SizeOf(Met(bucket, tiny, mark)) == SizeOf(bucket) + SizeOf(tiny)
  {
    hide MinLen, RoughlyDeep, Join;
    if bucket.Some? {
      JoinFacts(bucket, tiny, mark);
      var joined := Met(bucket, tiny, mark).value;
      RoughWhenLower(joined.Size(), joined.Depth() + slack, i);
    }
  }

  /** What the smallest buckets make. */
  lemma {:induction false} SlimSwept(f: seq<Option<Rope>>, i: nat, slack: nat, mark: bool)
    requires SlimForest(f, slack) && i <= |f|
    ensures SlimTiny(Swept(f, i, mark), i, slack) && SizeOf(Swept(f, i, mark)) + Total(Emptied(f, i)) == Total(f)
    decreases i
  {
    hide MinLen, Met;
    if i == 0 {
      EmptiedStep(f, 0, mark);
    } else {
      SlimSwept(f, i - 1, slack, mark);
      EmptiedStep(f, i - 1, mark);
      SlimSweep(f[i - 1], Swept(f, i - 1, mark), i - 1, slack, mark);
      TotalUpdate(Emptied(f, i - 1), i - 1, None);
    }
  }

  lemma BucketFits(size: nat, i: nat)
    requires MinLen(i) <= size <= MAX_SIZE
    ensures var j := BucketFor(size, i); j <= 43 && MinLen(j) <= size < MinLen(j + 1)
    decreases 44 - i
  {
    hide MinLen;
    BucketIndexBound(size, i);
    BucketStep(size, i);
    if size >= MinLen(i + 1) {
      BucketIndexBound(size, i + 1);
      BucketFits(size, i + 1);
    }
  }

  lemma AlmostWhenBelow(size: nat, depth: nat, bound: nat)
    requires depth <= bound && (bound > 0 ==> size >= MinLen(bound - 1))
    ensures AlmostDeep(size, depth)
  {
    if 0 < depth {
      MinLenMonotone(depth - 1, bound - 1);
    }
  }

  lemma SlimFirst(tiny: Option<Rope>, r: Rope, i: nat, slack: nat)
    requires SlimTiny(tiny, i, slack) && r.Valid() && MinLen(r.Depth() + slack) <= r.Size()
    requires MinLen(i) <= r.Size() < MinLen(i + 1)
    ensures var first := Join(tiny, Some(r), true).value;
      SlimInsertee(first, i, slack) && first.Size() == SizeOf(tiny) + r.Size()
  {
    hide MinLen, Join, AlmostDeep;
    JoinFacts(tiny, Some(r), true);
    var first := Join(tiny, Some(r), true).value;
    var tinyDepth := if tiny.None? then 0 else tiny.value.Depth() + slack;
    FirstPieceNumbers(SizeOf(tiny), tinyDepth, r.Size(), r.Depth() + slack, i);
    AlmostWhenBelow(first.Size(), first.Depth() + slack, Max(tinyDepth, r.Depth() + slack) + 1);
  }

  lemma SlimMeet(bucket: Option<Rope>, piece: Rope, i: nat, slack: nat)
    requires (bucket.Some? ==> Slim(bucket.value, i, slack)) && SlimInsertee(piece, i, slack)
    ensures Met(bucket, Some(piece), true).Some?
    ensures var met := Met(bucket, Some(piece), true).value;
      && met.Size() == SizeOf(bucket) + piece.Size()
      && if met.Size() < MinLen(i + 1) then Slim(met, i, slack) else SlimInsertee(met, i + 1, slack)
  {
    hide MinLen, Join, AlmostDeep;
    JoinFacts(bucket, Some(piece), true);
    var met := Met(bucket, Some(piece), true).value;
    if bucket.Some? {
      var b := bucket.value;
      AlmostNumbers(b.Size(), b.Depth() + slack, piece.Size(), piece.Depth() + slack, i);
      AlmostWhenBelow(met.Size(), met.Depth() + slack, Max(b.Depth(), piece.Depth()) + slack + 1);
    } else if met.Size() < MinLen(i + 1) {
      AlmostFits(met.Size(), met.Depth() + slack, i);
    }
  }

  lemma AlmostNumbers(bSize: nat, bDepth: nat, size: nat, depth: nat, i: nat)
    requires bSize >= MinLen(i) && bDepth <= i + 1 && size >= MinLen(i) && depth <= i + 2 && AlmostDeep(size, depth)
    ensures bSize + size >= MinLen(i + 1) && bSize + size >= MinLen(Max(bDepth, depth))
  {
    MeetNumbers(bSize, bDepth, size, depth, i);
  }

  lemma AlmostFits(size: nat, depth: nat, i: nat)
    requires size < MinLen(i + 1) && AlmostDeep(size, depth)
    ensures depth <= i + 1
  {
    if depth > i + 1 {
      MinLenMonotone(i + 1, depth - 1);
    }
  }

  lemma {:induction false} SlimCarried(f: seq<Option<Rope>>, piece: Rope, i: nat, slack: nat)
    requires SlimForest(f, slack) && i < |f| && SlimInsertee(piece, i, slack) && Total(f) + piece.Size() <= MAX_SIZE
    ensures SlimForest(Carried(f, piece, i), slack) && Total(Carried(f, piece, i)) == Total(f) + piece.Size()
    decreases |f| - i
  {
    hide MinLen, Met, SlimInsertee, AlmostDeep;
    SlimMeet(f[i], piece, i, slack);
    var met := Met(f[i], Some(piece), true).value;
    TotalUpdate(f, i, None);
    TotalUpdate(f, i, Some(met));
    InserteeInRange(met, i, slack);
    if met.Size() >= MinLen(i + 1) {
      SlimCarried(f[i := None], met, i + 1, slack);
    }
  }

  lemma InserteeInRange(met: Rope, i: nat, slack: nat)
    requires met.Size() <= MAX_SIZE && (met.Size() < MinLen(i + 1) || SlimInsertee(met, i + 1, slack))
    ensures met.Size() >= MinLen(i + 1) ==> i + 1 < FOREST_SIZE
  {
    if met.Size() >= MinLen(i + 1) {
      BucketIndexBound(met.Size(), i + 1);
    }
  }

  // What _S_balance asks of a part, with some levels to spare.
  ghost predicate LongFor(r: Rope, slack: nat) {
    r.Valid() && MinLen(r.Depth() + slack) <= r.Size()
  }

  lemma SlimAdded(f: seq<Option<Rope>>, r: Rope, slack: nat)
    requires SlimForest(f, slack) && LongFor(r, slack) && Total(f) + r.Size() <= MAX_SIZE
    ensures SlimForest(AddLeaf(f, r), slack) && Total(AddLeaf(f, r)) == Total(f) + r.Size()
  {
    hide MinLen, Swept, Carried, SlimTiny, SlimInsertee, Join, Total;
    SizeIsTextLength(r);
    FirstEntry();
    BucketFits(r.Size(), 0);
    var i := BucketFor(r.Size(), 0);
    SlimSwept(f, i, slack, true);
    SlimFirst(Swept(f, i, true), r, i, slack);
    SlimCarried(Emptied(f, i), Insertee(f, r), i, slack);
  }

  ghost function Sizes(parts: seq<Rope>): nat {
    if parts == [] then 0 else parts[0].Size() + Sizes(parts[1..])
  }

  lemma {:induction false} SlimAll(f: seq<Option<Rope>>, parts: seq<Rope>, slack: nat)
    requires SlimForest(f, slack) && (forall p <- parts :: LongFor(p, slack)) && Total(f) + Sizes(parts) <= MAX_SIZE
    ensures SlimForest(AddAll(f, parts), slack) && Total(AddAll(f, parts)) == Total(f) + Sizes(parts)
    decreases |parts|
  {
    hide AddLeaf, Total, Slim, LongFor;
    if parts != [] {
      SlimAdded(f, parts[0], slack);
      SlimAll(AddLeaf(f, parts[0]), parts[1..], slack);
    }
  }

  // ----- the parts of a rope -----

  lemma {:induction false} SizesSplit(a: seq<Rope>, b: seq<Rope>)
    ensures Sizes(a + b) == Sizes(a) + Sizes(b)
  {
    if a == [] {
      assert a + b == b;
    } else {
      SizesSplit(a[1..], b);
      assert (a + b)[0] == a[0] && (a + b)[1..] == a[1..] + b;
    }
  }

  /** The balanced parts make up the whole, and are as long as their depth asks for. */
  lemma {:induction false} PartsOf(r: Rope)
    requires r.Valid()
    ensures Sizes(BalancedParts(r)) == r.Size() && forall p <- BalancedParts(r) :: LongFor(p, 0)
  {
    hide MinLen;
    if r.IsBalanced() {
      FirstEntry();
      SizeIsTextLength(r);
      assert BalancedParts(r) == [r] && Sizes([r]) == r.Size() + Sizes([]);
    } else {
      PartsOf(r.left);
      PartsOf(r.right);
      SizesSplit(BalancedParts(r.left), BalancedParts(r.right));
    }
  }

  // ----- the rebalanced rope -----

  /** As many levels as all parts have to spare, the rebalanced rope has to spare as well. */
  lemma BalanceSpares(r: Rope, slack: nat)
    requires r.Valid() && r.Size() <= MAX_SIZE
    requires forall p <- BalancedParts(r) :: MinLen(p.Depth() + slack) <= p.Size()
    ensures BalanceOf(r).Some?
    ensures var b := BalanceOf(r).value;
      b.Valid() && b.Size() == r.Size() && RoughlyBalanced(b.Size(), b.Depth() + slack)
  {
    hide MinLen, AddAll, Swept, Total, BalancedParts, Rope.Valid;
    PartsOf(r);
    SizeIsTextLength(r);
    TotalNothing(NoTrees());
    SlimAll(NoTrees(), BalancedParts(r), slack);
    var f := AddAll(NoTrees(), BalancedParts(r));
    SlimSwept(f, FOREST_SIZE, slack, false);
    assert Total(Emptied(f, FOREST_SIZE)) == 0 by { TotalNothing(Emptied(f, FOREST_SIZE)); }
    WithinTable(BalanceOf(r), slack);
  }

  lemma WithinTable(b: Option<Rope>, slack: nat)
    requires SlimTiny(b, FOREST_SIZE, slack) && SizeOf(b) <= MAX_SIZE
    ensures b.Some? ==> RoughlyBalanced(b.value.Size(), b.value.Depth() + slack)
  {
    if b.Some? && b.value.Depth() + slack > 1 {
      BucketIndexBound(b.value.Size(), b.value.Depth() + slack - 2);
    }
  }

  /** A rope of long leaves becomes shallow: its depth grows with the logarithm of its size in
      terms of its shortest leaf. */
  lemma LongLeaves(r: Rope, shortest: nat, j: nat)
    requires r.Valid() && r.Size() <= MAX_SIZE && r.Size() < MinLen(j + 1)
    requires forall p <- BalancedParts(r) :: p.Depth() == 0 && p.Size() >= MinLen(shortest)
    ensures BalanceOf(r).Some? && BalanceOf(r).value.Depth() + shortest <= j + 2
  {
    hide MinLen, BalanceOf;
    BalanceSpares(r, shortest);
    var depth := BalanceOf(r).value.Depth() + shortest;
    if depth > j + 2 {
      MinLenMonotone(j + 1, depth - 2);
    }
  }

  /** 22 leaves of 1000 characters, appended one after the other, are of depth 21 before and
      of depth 8 at most when rebalanced. */
  lemma ManyLeaves(leaves: seq<string>)
    requires |leaves| == 22 && forall s <- leaves :: |s| == 1000
    ensures Appended(leaves).Valid() && Appended(leaves).Depth() == 21
    ensures BalanceOf(Appended(leaves)).Some? && BalanceOf(Appended(leaves)).value.Depth() <= 8
  {
    MinLenTable();
    AppendedLeaves(leaves);
    LongLeaves(Appended(leaves), 14, 20);
  }

  ghost function Appended(leaves: seq<string>): Rope
    requires leaves != []
  {
    if |leaves| == 1 then Leaf(leaves[0]) else NodeOf(Appended(leaves[..|leaves| - 1]), Leaf(leaves[|leaves| - 1]))
  }

  lemma {:induction false} AppendedLeaves(leaves: seq<string>)
    requires leaves != [] && forall s <- leaves :: |s| == 1000
    ensures Appended(leaves).Valid() && Appended(leaves).Depth() == |leaves| - 1
    ensures Appended(leaves).Size() == 1000 * |leaves|
    ensures forall p <- BalancedParts(Appended(leaves)) :: p.Depth() == 0 && p.Size() == 1000
  {
    hide MinLen;
    if |leaves| > 1 {
      AppendedLeaves(leaves[..|leaves| - 1]);
    }
  }
}
