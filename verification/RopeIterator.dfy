/**
 Rope iterators: a position, a buffer of characters around it, and a cache of the last
 few nodes on the path from the root to the current leaf.
 */
module RopeIterator {
  import opened Options
  import opened RopeTree
  import opened RopeStore
  import opened RopeOperations

  const PATH_CACHE_LEN := 4
  const ITERATOR_BUF_LEN := 15

  // ----- paths: true stands for a step to the right -----

  ghost predicate OnPath(r: Rope, turns: seq<bool>)
    decreases |turns|
  {
    turns == [] || (r.Concatenation? && OnPath(if turns[0] then r.right else r.left, turns[1..]))
  }

  ghost function Descend(r: Rope, turns: seq<bool>): Rope
    requires OnPath(r, turns)
    decreases |turns|
  {
    if turns == [] then r else Descend(if turns[0] then r.right else r.left, turns[1..])
  }

  // The position of the first character of the node at the end of a path.
  ghost function Offset(r: Rope, turns: seq<bool>): nat
    requires OnPath(r, turns)
    decreases |turns|
  {
    if turns == [] then 0
    else if turns[0] then r.left.Size() + Offset(r.right, turns[1..])
    else Offset(r.left, turns[1..])
  }

  // The path from the root to the leaf that holds the character at pos.
  ghost function PathTo(r: Rope, pos: nat): seq<bool> {
    if !r.Concatenation? then []
    else if pos >= r.left.Size() then [true] + PathTo(r.right, pos - r.left.Size())
    else [false] + PathTo(r.left, pos)
  }

  ghost predicate At(r: Rope, turns: seq<bool>, node: Rope) {
    OnPath(r, turns) && Descend(r, turns) == node
  }

  lemma SliceOfAppend(a: string, b: string, lo: nat, hi: nat)
    requires lo <= hi
    ensures hi <= |b| ==> (a + b)[|a| + lo..|a| + hi] == b[lo..hi]
    ensures hi <= |a| ==> (a + b)[lo..hi] == a[lo..hi]
  {
  }

  lemma {:induction false} PathBounds(r: Rope, turns: seq<bool>)
    requires r.Valid() && OnPath(r, turns)
    ensures var n := Descend(r, turns);
      n.Valid() && n.Depth() + |turns| <= r.Depth() && Offset(r, turns) + n.Size() <= r.Size()
    decreases |turns|
  {
    hide MinLen;
    if turns != [] {
      PathBounds(if turns[0] then r.right else r.left, turns[1..]);
    }
  }

  /** A node at the end of a path stands for a piece of the whole text. */
  lemma {:induction false} PathPiece(r: Rope, turns: seq<bool>)
    requires r.Valid() && OnPath(r, turns)
    ensures var n := Descend(r, turns);
      && n.Valid() && n.Depth() + |turns| <= r.Depth()
      && Offset(r, turns) + n.Size() <= r.Size() == |r.Text()|
      && r.Text()[Offset(r, turns)..Offset(r, turns) + n.Size()] == n.Text()
    decreases |turns|
  {
    hide MinLen, Rope.Text, BalancedFor;
    PathBounds(r, turns);
    SizeIsTextLength(r);
    if turns != [] {
      var child := if turns[0] then r.right else r.left;
      PathPiece(child, turns[1..]);
      SizeIsTextLength(r.left);
      PieceOfChild(r, turns[0], Offset(child, turns[1..]), Descend(child, turns[1..]).Size());
    }
  }

  lemma PieceOfChild(r: Rope, turn: bool, lo: nat, size: nat)
    requires r.Concatenation? && r.Valid() && |r.left.Text()| == r.left.Size()
    requires lo + size <= |(if turn then r.right else r.left).Text()|
    ensures var child, shift := if turn then r.right else r.left, if turn then r.left.Size() else 0;
      && shift + lo + size <= |r.Text()|
      && r.Text()[shift + lo..shift + lo + size] == child.Text()[lo..lo + size]
  {
    hide MinLen;
    SliceOfAppend(r.left.Text(), r.right.Text(), lo, lo + size);
  }

  /** Taking one more step at the end of a path. */
  lemma {:induction false} PathExtend(r: Rope, turns: seq<bool>, turn: bool)
    requires OnPath(r, turns) && Descend(r, turns).Concatenation?
    ensures OnPath(r, turns + [turn])
    ensures var n := Descend(r, turns);
      && Descend(r, turns + [turn]) == (if turn then n.right else n.left)
      && Offset(r, turns + [turn]) == Offset(r, turns) + (if turn then n.left.Size() else 0)
    decreases |turns|
  {
    if turns != [] {
      PathExtend(if turns[0] then r.right else r.left, turns[1..], turn);
      assert (turns + [turn])[1..] == turns[1..] + [turn];
    }
  }

  /** Cutting off steps at the end of a path leaves a path; what was cut off leads on from there. */
  lemma {:induction false} PathPrefix(r: Rope, turns: seq<bool>, n: nat)
    requires OnPath(r, turns) && n <= |turns|
    ensures OnPath(r, turns[..n]) && (n < |turns| ==> Descend(r, turns[..n]).Concatenation?)
    decreases |turns|
  {
    if n > 0 {
      PathPrefix(if turns[0] then r.right else r.left, turns[1..], n - 1);
      assert turns[..n][1..] == turns[1..][..n - 1];
    }
  }

  /** The last step of a path. */
  lemma PathLastStep(r: Rope, turns: seq<bool>)
    requires OnPath(r, turns) && turns != []
    ensures var up := turns[..|turns| - 1];
      && OnPath(r, up) && Descend(r, up).Concatenation?
      && Descend(r, turns) == (if turns[|turns| - 1] then Descend(r, up).right else Descend(r, up).left)
      && Offset(r, turns) == Offset(r, up) + (if turns[|turns| - 1] then Descend(r, up).left.Size() else 0)
  {
    var up := turns[..|turns| - 1];
    PathPrefix(r, turns, |turns| - 1);
    PathExtend(r, up, turns[|turns| - 1]);
    assert up + [turns[|turns| - 1]] == turns;
  }

  /** The only path to a leaf that covers a position is the one a descent from the root takes. */
  lemma {:induction false} PathIsUnique(r: Rope, turns: seq<bool>, pos: nat)
    requires r.Valid() && OnPath(r, turns) && !Descend(r, turns).Concatenation?
    requires Offset(r, turns) <= pos < Offset(r, turns) + Descend(r, turns).Size()
    ensures turns == PathTo(r, pos)
    decreases |turns|
  {
    hide MinLen;
    if turns != [] {
      if turns[0] {
        PathIsUnique(r.right, turns[1..], pos - r.left.Size());
      } else {
        PathPiece(r.left, turns[1..]);
        PathIsUnique(r.left, turns[1..], pos);
      }
      assert turns == [turns[0]] + turns[1..];
    }
  }

  // ----- the direction bits, an unsigned char -----

  predicate Bit(dirns: nat, i: nat)
    requires i < PATH_CACHE_LEN - 1
  {
    match i
    case 0 => dirns % 2 == 1
    case 1 => dirns / 2 % 2 == 1
    case _ => dirns / 4 % 2 == 1
  }

  // The low n bits tell, from the leaf up, which way the path turned.
  ghost predicate Directions(dirns: nat, turns: seq<bool>, n: nat) {
    n < PATH_CACHE_LEN && n <= |turns| && forall i :: 0 <= i < n ==> Bit(dirns, i) == turns[|turns| - 1 - i]
  }

  // dirns <<= 1, and dirns |= 1 for a step to the right.
  function PushDirection(dirns: nat, turn: bool): nat {
    2 * dirns % 256 + if turn then 1 else 0
  }

  lemma DirectionsPush(dirns: nat, turns: seq<bool>, n: nat, turn: bool)
    requires Directions(dirns, turns, n)
    ensures Directions(PushDirection(dirns, turn), turns + [turn], if n + 1 < PATH_CACHE_LEN then n + 1 else n)
  {
    var d := PushDirection(dirns, turn);
    ShiftedByte(dirns, if turn then 1 else 0);
    var m := if n + 1 < PATH_CACHE_LEN then n + 1 else n;
    forall i | 0 <= i < m ensures Bit(d, i) == (turns + [turn])[|turns| - i] {
      if i > 0 { assert Bit(dirns, i - 1) == turns[|turns| - i]; }
    }
  }

  lemma ShiftedByte(d: nat, b: nat)
    requires b <= 1
    ensures var s := 2 * d % 256 + b; s % 2 == b && s / 2 % 2 == d % 2 && s / 4 % 2 == d / 2 % 2
  {
    var k, r := d / 128, d % 128;
    var m, t := r / 4, r % 4;
    assert d == 128 * k + 4 * m + t && m < 32;
    ByteDigits(d, k, m, t / 2, t % 2, b);
  }

  lemma ByteDigits(d: nat, k: nat, m: nat, x: nat, y: nat, b: nat)
    requires d == 128 * k + 4 * m + 2 * x + y && m < 32 && x <= 1 && y <= 1 && b <= 1
    ensures d % 2 == y && d / 2 % 2 == x && 2 * d % 256 == 8 * m + 4 * x + 2 * y
    ensures var s := 2 * d % 256 + b; s % 2 == b && s / 2 % 2 == y && s / 4 % 2 == x
  {
  }

  lemma DirectionsPop(dirns: nat, turns: seq<bool>, n: nat)
    requires Directions(dirns, turns, n) && 0 < n
    ensures Directions(dirns / 2, turns[..|turns| - 1], n - 1)
  {
    var up := turns[..|turns| - 1];
    forall i | 0 <= i < n - 1 ensures Bit(dirns / 2, i) == up[|up| - 1 - i] {
      assert Bit(dirns, i + 1) == turns[|turns| - 2 - i];
      assert dirns / 2 / 2 == dirns / 4;
    }
  }

  // ----- the buffer -----

  // The stretch of the text, as start and end, that _S_setbuf makes available for the
  // leaf at leafPos: all of a leaf, and a short window of a function or substring node.
  function Window(leaf: Rope, leafPos: nat, pos: nat): (w: (nat, nat))
    requires leaf.Valid() && !leaf.Concatenation? && leafPos <= pos < leafPos + leaf.Size()
    ensures leafPos <= w.0 <= pos < w.1 <= leafPos + leaf.Size()
    ensures !leaf.Leaf? ==> w.1 - w.0 <= ITERATOR_BUF_LEN
  {
    var leafEnd := leafPos + leaf.Size();
    if leaf.Leaf? then (leafPos, leafEnd)
    else
      var start :=
        if leafPos + ITERATOR_BUF_LEN > pos then leafPos
        else if pos - ITERATOR_BUF_LEN / 4 + ITERATOR_BUF_LEN > leafEnd then leafEnd - ITERATOR_BUF_LEN
        else pos - ITERATOR_BUF_LEN / 4;
      (start, if start + ITERATOR_BUF_LEN > leafEnd then leafEnd else start + ITERATOR_BUF_LEN)
  }

  class Iterator {
    const root: Rope
    var currentPos: nat
    var leafPos: nat
    // The characters from _M_buf_start to _M_buf_end, and _M_buf_ptr as an index into
    // them; hasBuffer says that _M_buf_ptr is not 0.
    var hasBuffer: bool
    var buffer: string
    var bufPtr: nat
    const pathEnd: array<Rope>
    var leafIndex: nat
    var directions: nat

    // The whole path that pathEnd holds the end of.
    ghost var turns: seq<bool>

    // The cached nodes are the last ones on the path, and the direction bits its last turns.
    ghost predicate PathCached()
      reads this, pathEnd
    {
      && pathEnd.Length == PATH_CACHE_LEN
      && OnPath(root, turns)
      && leafPos == Offset(root, turns)
      && CachedNodes(pathEnd[..], leafIndex, turns)
      && Directions(directions, turns, leafIndex)
    }

    ghost predicate CachedNodes(path: seq<Rope>, index: nat, turns: seq<bool>) {
      && |path| == PATH_CACHE_LEN && index < PATH_CACHE_LEN && index <= |turns|
      && forall m :: 0 <= m <= index ==> At(root, turns[..|turns| - index + m], path[m])
    }

    // The buffer holds the characters of the text around the current position, and these
    // belong to the leaf at the end of the cached path (or to the flattened root).
    ghost predicate BufferOk()
      reads this, pathEnd
    {
      && PathCached()
      && bufPtr < |buffer| && bufPtr <= currentPos
      && var start := currentPos - bufPtr;
         && leafPos <= start && start + |buffer| <= leafPos + Descend(root, turns).Size()
         && leafPos + Descend(root, turns).Size() <= |root.Text()|
         && root.Text()[start..start + |buffer|] == buffer
         && (Descend(root, turns).Concatenation? ==> turns == [] && buffer == root.Text())
    }

    ghost predicate Valid()
      reads this, pathEnd
    {
      && pathEnd.Length == PATH_CACHE_LEN
      && root.Valid() && root.Depth() <= MAX_ROPE_DEPTH
      && currentPos <= root.Size()
      && (hasBuffer ==> BufferOk())
    }

    // What a fresh _S_setcache of a root without a flattened copy leaves behind: the
    // cached path leads to the leaf with the current position, and the buffer is that
    // leaf's window around it.
    ghost predicate SetBufResult()
      requires root.Valid()
      reads this
    {
      && turns == PathTo(root, currentPos) && OnPath(root, turns)
      && leafPos == Offset(root, turns)
      && hasBuffer && bufPtr <= currentPos
      && var leaf := Descend(root, turns);
         && leaf.Valid() && !leaf.Concatenation? && leafPos <= currentPos < leafPos + leaf.Size()
         && Window(leaf, leafPos, currentPos) == (currentPos - bufPtr, currentPos - bufPtr + |buffer|)
    }

    constructor (root: Rope, pos: nat)
      requires root.Valid() && root.Depth() <= MAX_ROPE_DEPTH && pos <= root.Size()
      ensures Valid() && this.root == root && currentPos == pos && !hasBuffer && fresh(pathEnd)
    {
      this.root := root;
      currentPos := pos;
      hasBuffer := false;
      pathEnd := new Rope[PATH_CACHE_LEN](_ => root);
    }

    // _S_setbuf
    method SetBuf()
      requires pathEnd.Length == PATH_CACHE_LEN && root.Valid() && root.Depth() <= MAX_ROPE_DEPTH
      requires PathCached() && !Descend(root, turns).Concatenation?
      requires leafPos <= currentPos < leafPos + Descend(root, turns).Size()
      modifies `hasBuffer, `buffer, `bufPtr
      ensures Valid() && hasBuffer
      ensures SetBufResult()
    {
      hide MinLen, Rope.Text, Descend, OnPath, Offset, Directions, Window;
      CachedLeaf();
      var leaf := pathEnd[leafIndex];
      PathPiece(root, turns);
      SizeIsTextLength(leaf);
      PathIsUnique(root, turns, currentPos);
      var (start, end) := Window(leaf, leafPos, currentPos);
      var text := PieceText(leaf);
      buffer := text[start - leafPos..end - leafPos];
      bufPtr := currentPos - start;
      hasBuffer := true;
      SliceOfSlice(root.Text(), leafPos, leaf.Size(), start - leafPos, end - leafPos);
    }

    // The case of _S_setcache in which the root is treated as a leaf.
    method TreatRootAsLeaf(flat: string)
      requires flat == root.Text() && Valid() && currentPos < root.Size()
      modifies this, pathEnd
      ensures Valid() && hasBuffer && currentPos == old(currentPos)
    {
      hide MinLen, Rope.Text, Rope.Valid;
      SizeIsTextLength(root);
      turns := [];
      buffer := flat;
      bufPtr := currentPos;
      hasBuffer := true;
      pathEnd[0] := root;
      leafIndex := 0;
      leafPos := 0;
    }

    // The descent of _S_setcache from the root to the leaf with the current position.
    method FindLeaf(path: array<Rope>) returns (depth: nat, startPos: nat, dirns: nat, ghost t: seq<bool>)
      requires path.Length == MAX_ROPE_DEPTH + 1
      requires Valid() && currentPos < root.Size()
      modifies path
      ensures OnPath(root, t) && !Descend(root, t).Concatenation?
      ensures startPos == Offset(root, t) && startPos <= currentPos < startPos + Descend(root, t).Size()
      ensures depth == |t| && WholePath(path[..], t) && Directions(dirns, t, Min(depth, PATH_CACHE_LEN - 1))
    {
      hide MinLen, Rope.Text;
      var curr := root;
      depth, startPos, dirns, t := 0, 0, 0, [];
      path[0] := root;
      while curr.Concatenation?
        invariant OnPath(root, t) && curr == Descend(root, t) && curr.Valid()
        invariant depth == |t| <= MAX_ROPE_DEPTH
        invariant startPos == Offset(root, t) && startPos <= currentPos < startPos + curr.Size()
        invariant WholePath(path[..], t)
        invariant Directions(dirns, t, Min(depth, PATH_CACHE_LEN - 1))
        decreases curr
      {
        var turn := currentPos >= startPos + curr.left.Size();
        PathExtend(root, t, turn);
        DirectionsPush(dirns, t, Min(depth, PATH_CACHE_LEN - 1), turn);
        PathBounds(root, t + [turn]);
        dirns := PushDirection(dirns, turn);
        if turn {
          startPos := startPos + curr.left.Size();
          curr := curr.right;
        } else {
          curr := curr.left;
        }
        depth := depth + 1;
        ghost var before := path[..];
        path[depth] := curr;
        t := t + [turn];
        WholePathStep(before, path[..], t);
      }
    }

    // _S_setcache; flat is the flattened copy that the root holds of itself, if there is one.
    method SetCache(flat: Option<string>)
      requires flat.Some? ==> flat.value == root.Text()
      requires Valid()
      modifies this, pathEnd
      ensures Valid() && currentPos == old(currentPos)
      ensures hasBuffer <==> currentPos < root.Size()
      ensures hasBuffer && flat.None? ==> SetBufResult()
    {
      hide MinLen, Rope.Text, Descend, OnPath, Offset;
      if currentPos >= root.Size() {
        hasBuffer := false;
        return;
      }
      if flat.Some? {
        TreatRootAsLeaf(flat.value);
        return;
      }
      var path := new Rope[MAX_ROPE_DEPTH + 1];
      var depth, startPos, dirns;
      ghost var t;
      depth, startPos, dirns, t := FindLeaf(path);
      leafPos := startPos;
      var j := if depth + 1 < PATH_CACHE_LEN then 0 else depth + 1 - PATH_CACHE_LEN;
      ghost var from, p := j, path[..];
      var i := 0;
      while j <= depth
        invariant from <= j <= depth + 1 && i == j - from && path[..] == p
        invariant forall m :: 0 <= m < i ==> pathEnd[m] == path[from + m]
        modifies pathEnd
      {
        pathEnd[i] := path[j];
        i, j := i + 1, j + 1;
      }
      leafIndex := i - 1;
      directions := dirns;
      turns := t;
      CacheFromWholePath(path[..], pathEnd[..], leafIndex, t);
      SetBuf();
    }

    // _S_setcache_for_incr: the position has moved to the end of the buffer; the cached
    // path is that of the position before.
    method SetCacheForIncr(flat: Option<string>)
      requires flat.Some? ==> flat.value == root.Text()
      requires pathEnd.Length == PATH_CACHE_LEN && root.Valid() && root.Depth() <= MAX_ROPE_DEPTH
      requires PathCached() && currentPos <= root.Size()
      requires leafPos <= currentPos <= leafPos + Descend(root, turns).Size()
      requires Descend(root, turns).Concatenation? ==> currentPos == leafPos + Descend(root, turns).Size()
      modifies this, pathEnd
      ensures Valid() && currentPos == old(currentPos)
      ensures hasBuffer <==> currentPos < root.Size()
      ensures hasBuffer && flat.None? ==> SetBufResult()
    {
      hide MinLen, Rope.Text, Rope.Valid, Descend, OnPath, Offset;
      CachedLeaf();
      PathBounds(root, turns);
      if currentPos - leafPos < pathEnd[leafIndex].Size() {
        SetBuf();
        return;
      }
      // Leave the nodes whose right child we come from.
      ghost var t := turns;
      var index: int, startPos, dirns := leafIndex - 1, leafPos, directions;
      while index >= 0 && dirns % 2 == 1
        invariant -1 <= index < leafIndex && OnPath(root, t)
        invariant startPos == Offset(root, t) && startPos + Descend(root, t).Size() == currentPos
        invariant CachedNodes(pathEnd[..], index + 1, t) && Directions(dirns, t, index + 1)
        modifies {}
        decreases index
      {
        CachedParent(pathEnd[..], index + 1, t);
        assert Bit(dirns, 0);
        PathLastStep(root, t);
        PathBounds(root, t[..|t| - 1]);
        EndOfRightChild(Descend(root, t[..|t| - 1]));
        DirectionsPop(dirns, t, index + 1);
        startPos := startPos - pathEnd[index].left.Size();
        dirns := dirns / 2;
        t := t[..|t| - 1];
        index := index - 1;
      }
      if index < 0 {
        // The path cache is exhausted.
        hasBuffer := false;
        SetCache(flat);
        return;
      }
      NextLeaf(index, startPos, dirns, t);
      PathBounds(root, turns);
      SizeIsTextLength(Descend(root, turns));
      SetBuf();
    }

    // The loop that makes room at the end of the path cache.
    method DropOldestNode(ghost t: seq<bool>)
      requires pathEnd.Length == PATH_CACHE_LEN && CachedNodes(pathEnd[..], PATH_CACHE_LEN - 1, t)
      modifies pathEnd
      ensures CachedNodes(pathEnd[..], PATH_CACHE_LEN - 2, t)
    {
      ghost var full := pathEnd[..];
      for i := 0 to PATH_CACHE_LEN - 1
        invariant forall m :: 0 <= m < i ==> pathEnd[m] == full[m + 1]
        invariant forall m :: i <= m < PATH_CACHE_LEN ==> pathEnd[m] == full[m]
      {
        pathEnd[i] := pathEnd[i + 1];
      }
      CacheShift(full, pathEnd[..], t);
    }

    // From a left child to its right sibling, which takes its place on the cached path.
    method RightSibling(parent: nat, childPos: nat, childDirns: nat, ghost child: seq<bool>)
      returns (node: Rope, startPos: nat)
      requires pathEnd.Length == PATH_CACHE_LEN && root.Valid()
      requires OnPath(root, child) && parent + 1 < PATH_CACHE_LEN && childDirns % 2 == 0
      requires childPos == Offset(root, child) && childPos + Descend(root, child).Size() == currentPos
      requires CachedNodes(pathEnd[..], parent + 1, child) && Directions(childDirns, child, parent + 1)
      modifies pathEnd
      ensures child != [] && OnPath(root, child[..|child| - 1] + [true])
      ensures node == Descend(root, child[..|child| - 1] + [true])
      ensures startPos == Offset(root, child[..|child| - 1] + [true]) == currentPos
      ensures CachedNodes(pathEnd[..], parent + 1, child[..|child| - 1] + [true])
      ensures Directions(childDirns + 1, child[..|child| - 1] + [true], parent + 1)
    {
      hide MinLen, Rope.Text, Rope.Valid, Descend, OnPath, Offset, PushDirection;
      assert !Bit(childDirns, 0) && !child[|child| - 1];
      CachedParent(pathEnd[..], parent + 1, child);
      PathLastStep(root, child);
      ghost var up := child[..|child| - 1];
      PathExtend(root, up, true);
      RightTurnInstead(childDirns, child, parent + 1);
      startPos := childPos + pathEnd[parent].left.Size();
      node := pathEnd[parent].right;
      CacheReplaceLast(pathEnd[..], parent + 1, child, up + [true]);
      pathEnd[parent + 1] := node;
    }

    // The second half of _S_setcache_for_incr: from a left child, on to the first leaf of
    // its right sibling.
    method NextLeaf(parent: nat, childPos: nat, childDirns: nat, ghost child: seq<bool>)
      requires pathEnd.Length == PATH_CACHE_LEN && root.Valid()
      requires OnPath(root, child) && parent + 1 < PATH_CACHE_LEN && childDirns % 2 == 0
      requires childPos == Offset(root, child) && childPos + Descend(root, child).Size() == currentPos
      requires CachedNodes(pathEnd[..], parent + 1, child) && Directions(childDirns, child, parent + 1)
      modifies pathEnd, `leafIndex, `leafPos, `directions, `turns
      ensures PathCached() && !Descend(root, turns).Concatenation? && leafPos == currentPos
    {
      hide MinLen, Rope.Text, Rope.Valid, Descend, OnPath, Offset, PushDirection;
      ghost var t := child[..|child| - 1] + [true];
      var index := parent + 1;
      var node: Rope, startPos: nat := RightSibling(parent, childPos, childDirns, child);
      var dirns: nat := childDirns + 1;
      while node.Concatenation?
        invariant OnPath(root, t) && node == Descend(root, t) && startPos == Offset(root, t) == currentPos
        invariant 0 <= index < PATH_CACHE_LEN
        invariant CachedNodes(pathEnd[..], index, t) && Directions(dirns, t, index)
        modifies pathEnd
        decreases node
      {
        PathExtend(root, t, false);
        DirectionsPush(dirns, t, index, false);
        index := index + 1;
        if index == PATH_CACHE_LEN {
          DropOldestNode(t);
          index := index - 1;
        }
        CacheExtend(pathEnd[..], index - 1, t, false);
        node := node.left;
        pathEnd[index] := node;
        dirns := PushDirection(dirns, false);
        t := t + [false];
      }
      leafIndex := index;
      leafPos := startPos;
      directions := dirns;
      turns := t;
    }

    // _M_incr
    method Incr(n: nat, flat: Option<string>)
      requires flat.Some? ==> flat.value == root.Text()
      requires Valid() && currentPos + n <= root.Size()
      modifies this, pathEnd
      ensures Valid() && currentPos == old(currentPos) + n
    {
      hide MinLen, Rope.Valid;
      SizeIsTextLength(root);
      currentPos := currentPos + n;
      if hasBuffer {
        var charsLeft := |buffer| - bufPtr;
        if charsLeft > n {
          bufPtr := bufPtr + n;
        } else if charsLeft == n {
          bufPtr := bufPtr + n;
          SetCacheForIncr(flat);
        } else {
          hasBuffer := false;
        }
      }
    }

    // operator++ of a const iterator
    method Next(flat: Option<string>)
      requires flat.Some? ==> flat.value == root.Text()
      requires Valid() && currentPos < root.Size()
      modifies this, pathEnd
      ensures Valid() && currentPos == old(currentPos) + 1
    {
      hide MinLen, Rope.Valid;
      if hasBuffer && bufPtr + 1 < |buffer| {
        bufPtr := bufPtr + 1;
        currentPos := currentPos + 1;
      } else {
        Incr(1, flat);
      }
    }

    // _M_decr
    method Decr(n: nat)
      requires Valid() && n <= currentPos
      modifies this
      ensures Valid() && currentPos == old(currentPos) - n
    {
      hide MinLen, Rope.Valid;
      if hasBuffer {
        if bufPtr >= n {
          bufPtr := bufPtr - n;
        } else {
          hasBuffer := false;
        }
      }
      currentPos := currentPos - n;
    }

    // operator* of a const iterator
    method Read(flat: Option<string>) returns (c: char)
      requires flat.Some? ==> flat.value == root.Text()
      requires Valid() && currentPos < root.Size()
      modifies this, pathEnd
      ensures Valid() && hasBuffer && currentPos == old(currentPos)
      ensures currentPos < |root.Text()| && c == root.Text()[currentPos]
    {
      hide MinLen, Rope.Valid;
      SizeIsTextLength(root);
      if !hasBuffer {
        SetCache(flat);
      }
      c := buffer[bufPtr];
      ghost var start := currentPos - bufPtr;
      assert root.Text()[start..start + |buffer|][bufPtr] == c;
    }

    // One of the moves below; c_str() does nothing to the iterator.
    method Execute(move: Move, flat: Option<string>) returns (read: string)
      requires Valid() && (flat.Some? ==> flat.value == root.Text())
      requires 0 <= MovedTo(currentPos, move) <= root.Size() && (move.Dereference? ==> currentPos < root.Size())
      modifies this, pathEnd
      ensures Valid() && currentPos == MovedTo(old(currentPos), move) && |root.Text()| == root.Size()
      ensures read == if move.Dereference? then [root.Text()[old(currentPos)]] else ""
    {
      hide MinLen, Rope.Valid, Rope.Text, Iterator.BufferOk;
      SizeIsTextLength(root);
      read := "";
      match move {
        case Forward(n) => Incr(n, flat);
        case Step => Next(flat);
        case Backward(n) => Decr(n);
        case Dereference =>
          var c := Read(flat);
          read := [c];
        case CString =>
      }
    }

    lemma CachedParent(path: seq<Rope>, index: nat, t: seq<bool>)
      requires CachedNodes(path, index, t) && 0 < index
      ensures CachedNodes(path, index - 1, t[..|t| - 1])
      ensures At(root, t[..|t| - 1], path[index - 1])
    {
      hide At;
      var up := t[..|t| - 1];
      forall m | 0 <= m <= index - 1 ensures At(root, up[..|up| - (index - 1) + m], path[m]) {
        assert up[..|up| - (index - 1) + m] == t[..|t| - index + m];
      }
      assert up[..|up|] == up;
    }

    lemma CacheReplaceLast(path: seq<Rope>, index: nat, t: seq<bool>, t': seq<bool>)
      requires CachedNodes(path, index, t) && 0 < index
      requires |t'| == |t| && t'[..|t| - 1] == t[..|t| - 1] && OnPath(root, t')
      ensures CachedNodes(path[index := Descend(root, t')], index, t')
    {
      hide OnPath, Descend;
      var path' := path[index := Descend(root, t')];
      forall m | 0 <= m <= index ensures At(root, t'[..|t'| - index + m], path'[m]) {
        if m < index {
          assert t'[..|t'| - index + m] == t'[..|t| - 1][..|t| - index + m] == t[..|t| - index + m];
        } else {
          assert t'[..|t'|] == t';
        }
      }
    }

    lemma CacheExtend(path: seq<Rope>, index: nat, t: seq<bool>, turn: bool)
      requires CachedNodes(path, index, t) && index + 1 < PATH_CACHE_LEN && OnPath(root, t + [turn])
      ensures CachedNodes(path[index + 1 := Descend(root, t + [turn])], index + 1, t + [turn])
    {
      hide OnPath, Descend;
      var t' := t + [turn];
      var path' := path[index + 1 := Descend(root, t')];
      forall m | 0 <= m <= index + 1 ensures At(root, t'[..|t'| - (index + 1) + m], path'[m]) {
        if m <= index {
          assert t'[..|t'| - (index + 1) + m] == t[..|t| - index + m];
        } else {
          assert t'[..|t'|] == t';
        }
      }
    }

    lemma CacheShift(full: seq<Rope>, shifted: seq<Rope>, t: seq<bool>)
      requires CachedNodes(full, PATH_CACHE_LEN - 1, t) && |shifted| == PATH_CACHE_LEN
      requires forall m :: 0 <= m < PATH_CACHE_LEN - 1 ==> shifted[m] == full[m + 1]
      ensures CachedNodes(shifted, PATH_CACHE_LEN - 2, t)
    {
      hide At;
      forall m | 0 <= m <= PATH_CACHE_LEN - 2
        ensures At(root, t[..|t| - (PATH_CACHE_LEN - 2) + m], shifted[m])
      {
        assert At(root, t[..|t| - (PATH_CACHE_LEN - 1) + (m + 1)], full[m + 1]);
      }
    }

    ghost predicate WholePath(path: seq<Rope>, t: seq<bool>) {
      && |t| < |path|
      && forall j :: 0 <= j <= |t| ==> At(root, t[..j], path[j])
    }

    lemma WholePathStep(before: seq<Rope>, after: seq<Rope>, t: seq<bool>)
      requires t != [] && WholePath(before, t[..|t| - 1]) && |t| < |before| == |after|
      requires OnPath(root, t) && after == before[|t| := Descend(root, t)]
      ensures WholePath(after, t)
    {
      hide OnPath, Descend;
      var up := t[..|t| - 1];
      forall j | 0 <= j <= |t| ensures At(root, t[..j], after[j]) {
        if j < |t| {
          assert t[..j] == up[..j];
        } else {
          assert t[..j] == t;
        }
      }
    }

    lemma CacheFromWholePath(path: seq<Rope>, cache: seq<Rope>, index: nat, t: seq<bool>)
      requires WholePath(path, t) && index == Min(|t|, PATH_CACHE_LEN - 1) && |cache| == PATH_CACHE_LEN
      requires forall i :: 0 <= i <= index ==> cache[i] == path[|t| - index + i]
      ensures CachedNodes(cache, index, t)
    {
      hide OnPath, Descend;
    }

    lemma CachedLeaf()
      requires PathCached()
      ensures pathEnd[leafIndex] == Descend(root, turns)
    {
      assert turns[..|turns|] == turns;
      assert At(root, turns[..|turns| - leafIndex + leafIndex], pathEnd[..][leafIndex]);
    }
  }

  // ----- every run of an iterator -----

  // The members of the iterator, and c_str() of the rope it runs over, which leaves a
  // flattened copy with the root.
  datatype Move =
    | Forward(n: nat)
    | Step
    | Backward(n: nat)
    | Dereference
    | CString

  function MovedTo(pos: nat, move: Move): int {
    match move
    case Forward(n) => pos + n
    case Step => pos + 1
    case Backward(n) => pos - n
    case Dereference => pos
    case CString => pos
  }

  // The iterator stays within the rope, and is not dereferenced at its end.
  predicate Legal(size: nat, pos: nat, moves: seq<Move>)
    decreases |moves|
  {
    moves == [] || (
      && 0 <= MovedTo(pos, moves[0]) <= size
      && (moves[0].Dereference? ==> pos < size)
      && Legal(size, MovedTo(pos, moves[0]), moves[1..]))
  }

  // The characters that a run reads, by plain indexing.
  function ReadBy(text: string, pos: nat, moves: seq<Move>): string
    requires Legal(|text|, pos, moves)
    decreases |moves|
  {
    if moves == [] then ""
    else (if moves[0].Dereference? then [text[pos]] else "") + ReadBy(text, MovedTo(pos, moves[0]), moves[1..])
  }

  /** Whatever the mix of moves, an iterator over a node reads the characters at its positions. */
  method Walk(s: Store, n: Ref, start: nat, moves: seq<Move>) returns (read: string)
    requires s.Valid() && n in s.nodes && s.nodes[n].body.Depth() <= MAX_ROPE_DEPTH
    requires start <= s.nodes[n].body.Size() && Legal(s.nodes[n].body.Size(), start, moves)
    modifies s`nodes
    ensures s.Valid() && n in s.nodes && Tree(s.nodes, n) == old(Tree(s.nodes, n))
    ensures s.nodes[n].body.Size() == |Tree(s.nodes, n).Text()| == old(s.nodes[n].body.Size())
    ensures read == ReadBy(Tree(s.nodes, n).Text(), start, moves)
  {
    hide MinLen, Rope.Valid, Rope.Text, MovedTo, Iterator.BufferOk, Inv, Shape, Tree, FlatOk, Counted, Later;
    hide Legal, ReadBy;
    Shaped(s.nodes, s.next, s.roots);
    NodeAsRoot(s.nodes, s.next, s.roots, n);
    var root := Tree(s.nodes, n);
    ghost var text := root.Text();
    var it := new Iterator(root, start);
    read := "";
    AllMoves(text, start, moves);
    for k := 0 to |moves|
      invariant s.Valid() && n in s.nodes && Shape(s.nodes) && Tree(s.nodes, n) == root
      invariant s.nodes[n].body.Size() == |text|
      invariant it.Valid() && it.root == root && fresh(it) && fresh(it.pathEnd)
      invariant Legal(|text|, it.currentPos, moves[k..])
      invariant read + ReadBy(text, it.currentPos, moves[k..]) == ReadBy(text, start, moves)
    {
      MoveOn(text, it.currentPos, moves, k);
      NodeAsRoot(s.nodes, s.next, s.roots, n);
      var piece := it.Execute(moves[k], s.nodes[n].flat);
      read := read + piece;
      if moves[k].CString? {
        ghost var h := s.nodes;
        var _ := CStr(s, n);
        SameRoot(h, s.nodes, s.next, s.roots, n);
      }
    }
    NoMoves(text, it.currentPos, moves);
  }

  // The text that a run of moves reads, move by move.
  lemma AllMoves(text: string, pos: nat, moves: seq<Move>)
    requires Legal(|text|, pos, moves)
    ensures Legal(|text|, pos, moves[0..]) && "" + ReadBy(text, pos, moves[0..]) == ReadBy(text, pos, moves)
  {
    assert moves[0..] == moves;
  }

  lemma MoveOn(text: string, pos: nat, moves: seq<Move>, k: nat)
    requires k < |moves| && Legal(|text|, pos, moves[k..])
    ensures 0 <= MovedTo(pos, moves[k]) <= |text| && (moves[k].Dereference? ==> pos < |text|)
    ensures Legal(|text|, MovedTo(pos, moves[k]), moves[k + 1..])
    ensures forall read: string :: read + ReadBy(text, pos, moves[k..]) ==
              (read + (if moves[k].Dereference? then [text[pos]] else "")) +
                ReadBy(text, MovedTo(pos, moves[k]), moves[k + 1..])
  {
    hide MovedTo;
    assert moves[k..][0] == moves[k] && moves[k..][1..] == moves[k + 1..];
  }

  lemma NoMoves(text: string, pos: nat, moves: seq<Move>)
    requires Legal(|text|, pos, moves[|moves|..])
    ensures forall read: string :: read + ReadBy(text, pos, moves[|moves|..]) == read
  {
  }

  lemma SameRoot(h: Nodes, h': Nodes, next: Ref, roots: multiset<Ref>, n: Ref)
    requires Inv(h, next, roots) && Inv(h', next, roots) && Later(h, next, h', next) && n in h && n in h'
    ensures Shape(h) && Shape(h') && Tree(h', n) == Tree(h, n) && h'[n].body.Size() == h[n].body.Size()
  {
    hide Tree, FlatOk, Counted, Later;
    NodeAsRoot(h, next, roots, n);
    TreeKept(h, next, h', next, n);
    NodeAsRoot(h', next, roots, n);
  }

  lemma NodeAsRoot(h: Nodes, next: Ref, roots: multiset<Ref>, n: Ref)
    requires Inv(h, next, roots) && n in h
    ensures n < next && Tree(h, n).Valid() && Tree(h, n).Depth() == h[n].body.Depth()
    ensures h[n].body.Size() == Tree(h, n).Size() == |Tree(h, n).Text()|
    ensures h[n].flat.Some? ==> h[n].flat.value == Tree(h, n).Text()
  {
    hide Tree, Counted;
    TreeFields(h, n);
    SizeIsTextLength(Tree(h, n));
  }

  lemma EndOfRightChild(r: Rope)
    requires r.Concatenation? && r.Valid()
    ensures r.Size() == r.left.Size() + r.right.Size()
  {
  }

  lemma RightTurnInstead(dirns: nat, t: seq<bool>, n: nat)
    requires Directions(dirns, t, n) && 0 < n && dirns % 2 == 0
    ensures Directions(dirns + 1, t[..|t| - 1] + [true], n)
  {
    var t' := t[..|t| - 1] + [true];
    var d := dirns + 1;
    forall i | 0 <= i < n ensures Bit(d, i) == t'[|t'| - 1 - i] {
      if i > 0 {
        SetLowBit(dirns, i);
        assert Bit(dirns, i) == t[|t| - 1 - i];
      }
    }
  }

  lemma SetLowBit(d: nat, i: nat)
    requires d % 2 == 0 && 1 <= i < PATH_CACHE_LEN - 1
    ensures Bit(d + 1, i) == Bit(d, i)
  {
    assert (d + 1) / 2 == d / 2 && (d + 1) / 4 == d / 4;
  }
}
