/**
 Two places where the ropes of the original depart from what their names say: the ranged
 traversal of the pieces of a rope, and erasing a single character.
 */
module RopePieces {
  import opened Options
  import opened RopeTree
  import opened RopeStore
  import opened RopeOperations

  // ----- consumers of pieces -----

  datatype Consumer =
    | Flattening(buffer: string)
    | Finding(pattern: char, count: nat)

  // A consumer after a piece, and whether it wants more.
  datatype Fed = Fed(consumer: Consumer, more: bool)

  function Feed(c: Consumer, piece: string): Fed
    decreases |piece|
  {
    match c
    case Flattening(b) => Fed(Flattening(b + piece), true)
    case Finding(x, n) =>
      if piece == "" then Fed(c, true)
      else if piece[0] == x then Fed(c, false)
      else Feed(Finding(x, n + 1), piece[1..])
  }

  lemma {:induction false} FeedJoined(c: Consumer, a: string, b: string)
    ensures var f := Feed(c, a); Feed(c, a + b) == if f.more then Feed(f.consumer, b) else f
    decreases |a|
  {
    match c
    case Flattening(buffer) => assert buffer + (a + b) == buffer + a + b;
    case Finding(x, n) =>
      if a == "" {
        assert a + b == b;
      } else if a[0] != x {
        FeedJoined(Finding(x, n + 1), a[1..], b);
        assert (a + b)[1..] == a[1..] + b;
      }
  }

  // Feeding a text counts its characters before the first one that is looked for.
  lemma {:induction false} FeedCounts(x: char, n: nat, text: string)
    ensures var f := Feed(Finding(x, n), text);
            f.consumer.Finding? && f.consumer.pattern == x && n <= f.consumer.count <= n + |text|
            && (forall k :: 0 <= k < f.consumer.count - n ==> text[k] != x)
            && (f.more <==> f.consumer.count == n + |text|)
            && (!f.more ==> text[f.consumer.count - n] == x)
    decreases |text|
  {
    if text != "" && text[0] != x { FeedCounts(x, n + 1, text[1..]); }
  }

  // ----- the traversal -----

  // _S_apply_to_pieces. A function is asked for the characters from begin on; it is given
  // the number end for how many, whereas the buffer has room for end - begin. The result
  // is None as soon as the two differ.
  function ApplyToPieces(c: Consumer, r: Rope, begin: nat, end: nat): Option<Fed>
    requires r.Valid() && begin <= end <= r.Size()
    decreases r
  {
    match r
    case Concatenation(left, right, _, _, _) =>
      var n := left.Size();
      var first := if begin < n then ApplyToPieces(c, left, begin, Min(n, end)) else Some(Fed(c, true));
      if first.None? || !first.value.more then first
      else if end > n then ApplyToPieces(first.value.consumer, right, Max(n, begin) - n, end - n)
      else first
    case Leaf(data) => Some(Feed(c, data[begin..end]))
    case _ =>
      if end - begin != end then None else Some(Feed(c, PieceText(r)[begin..end]))
  }

  // The piece in which the traversal from i starts, and how far into it.
  function PieceAt(r: Rope, i: nat): (p: (Rope, nat))
    requires r.Valid() && i <= r.Size()
  {
    if r.Concatenation? then
      if i < r.left.Size() then PieceAt(r.left, i) else PieceAt(r.right, i - r.left.Size())
    else
      (r, i)
  }

  // It is a piece of the rope, and i lies in it, or at the end of the rope behind it.
  lemma {:induction false} PieceAtIsPiece(r: Rope, i: nat)
    requires r.Valid() && i <= r.Size()
    ensures PieceAt(r, i).0.Valid() && !PieceAt(r, i).0.Concatenation?
    ensures PieceAt(r, i).1 <= i && PieceAt(r, i).1 <= PieceAt(r, i).0.Size()
    ensures i < r.Size() ==> PieceAt(r, i).1 < PieceAt(r, i).0.Size()
    ensures Occurs(PieceAt(r, i).0.Text(), r.Text(), i - PieceAt(r, i).1)
  {
    hide Occurs, Rope.Text;
    OccursInParts(r);
    if r.Concatenation? {
      var n := r.left.Size();
      if i < n {
        PieceAtIsPiece(r.left, i);
        OccursWithin(PieceAt(r.left, i).0.Text(), r.left.Text(), i - PieceAt(r.left, i).1, r.Text(), 0);
      } else {
        PieceAtIsPiece(r.right, i - n);
        OccursWithin(PieceAt(r.right, i - n).0.Text(), r.right.Text(), i - n - PieceAt(r.right, i - n).1, r.Text(), n);
      }
    }
  }

  // a is the part of t from d on.
  predicate Occurs(a: string, t: string, d: int) {
    0 <= d && d + |a| <= |t| && t[d..d + |a|] == a
  }

  lemma OccursInParts(r: Rope)
    requires r.Valid()
    ensures Occurs(r.Text(), r.Text(), 0)
    ensures r.Concatenation? ==> Occurs(r.left.Text(), r.Text(), 0) && Occurs(r.right.Text(), r.Text(), r.left.Size())
  {
    if r.Concatenation? { SizeIsTextLength(r.left); }
  }

  lemma OccursWithin(a: string, b: string, d: int, t: string, e: int)
    requires Occurs(a, b, d) && Occurs(b, t, e)
    ensures Occurs(a, t, e + d)
  {
    var u, v := t[e + d..e + d + |a|], t[e..e + |b|];
    assert forall k :: 0 <= k < |a| ==> u[k] == v[d + k] == b[d..d + |a|][k];
  }

  // What a ranged traversal can start in: a leaf, or the first character of a piece.
  predicate StartsWell(r: Rope, begin: nat)
    requires r.Valid() && begin <= r.Size()
  {
    PieceAt(r, begin).0.Leaf? || PieceAt(r, begin).1 == 0
  }

  /** The traversal feeds the consumer the characters from begin to end, exactly when it does
      not start inside a function or substring piece. */
  lemma {:induction false} PiecesAreTheText(c: Consumer, r: Rope, begin: nat, end: nat)
    requires r.Valid() && begin <= end <= r.Size()
    ensures |r.Text()| == r.Size()
    ensures ApplyToPieces(c, r, begin, end).Some? <==> StartsWell(r, begin)
    ensures StartsWell(r, begin) ==> ApplyToPieces(c, r, begin, end) == Some(Feed(c, r.Text()[begin..end]))
    decreases r
  {
    SizeIsTextLength(r);
    if r.Concatenation? {
      PiecesOfConcatenation(c, r, begin, end);
    }
  }

  /** From the second character of a function piece on, the function is asked for too much. */
  lemma PieceEnteredInside()
    ensures Producer("ab").Valid() && ApplyToPieces(Flattening(""), Producer("ab"), 1, 2) == None
    ensures Leaf("ab").Valid() && ApplyToPieces(Flattening(""), Leaf("ab"), 1, 2) == Some(Fed(Flattening("b"), true))
  {
    PiecesAreTheText(Flattening(""), Producer("ab"), 1, 2);
    PiecesAreTheText(Flattening(""), Leaf("ab"), 1, 2);
    assert Leaf("ab").Text()[1..2] == "b" && "" + "b" == "b";
  }

  lemma {:induction false} PiecesOfConcatenation(c: Consumer, r: Rope, begin: nat, end: nat)
    requires r.Valid() && begin <= end <= r.Size() && r.Concatenation?
    ensures |r.Text()| == r.Size()
    ensures ApplyToPieces(c, r, begin, end).Some? <==> StartsWell(r, begin)
    ensures StartsWell(r, begin) ==> ApplyToPieces(c, r, begin, end) == Some(Feed(c, r.Text()[begin..end]))
    decreases r, 1
  {
    hide Feed, Rope.Text, Rope.Valid;
    ConcatenationText(r);
    PieceAtStart(r.right);
    if begin >= r.left.Size() {
      PiecesOnRight(c, r, begin, end);
    } else if end > r.left.Size() {
      PiecesOnBoth(c, r, begin, end);
    } else {
      PiecesAreTheText(c, r.left, begin, end);
      RangeOfLeft(r.left.Text(), r.right.Text(), begin, end);
    }
  }

  lemma ConcatenationText(r: Rope)
    requires r.Valid() && r.Concatenation?
    ensures r.left.Valid() && r.right.Valid() && r.Text() == r.left.Text() + r.right.Text()
    ensures |r.left.Text()| == r.left.Size() && |r.right.Text()| == r.right.Size()
    ensures r.Size() == r.left.Size() + r.right.Size()
  {
    SizeIsTextLength(r.left);
    SizeIsTextLength(r.right);
  }

  lemma {:induction false} PiecesOnRight(c: Consumer, r: Rope, begin: nat, end: nat)
    requires r.Valid() && r.Concatenation? && r.left.Size() <= begin <= end <= r.Size() == |r.Text()|
    ensures ApplyToPieces(c, r, begin, end).Some? <==> StartsWell(r, begin)
    ensures StartsWell(r, begin) ==> ApplyToPieces(c, r, begin, end) == Some(Feed(c, r.Text()[begin..end]))
    decreases r, 0
  {
    hide Feed, Rope.Text, Rope.Valid;
    ConcatenationText(r);
    PieceAtStart(r.right);
    var n := r.left.Size();
    if end > n {
      PiecesAreTheText(c, r.right, begin - n, end - n);
      RangeOfRight(r.left.Text(), r.right.Text(), begin, end);
    } else {
      FeedNothing(c);
      assert r.Text()[begin..end] == "";
    }
  }

  lemma {:induction false} PiecesOnBoth(c: Consumer, r: Rope, begin: nat, end: nat)
    requires r.Valid() && r.Concatenation? && begin < r.left.Size() < end <= r.Size() == |r.Text()|
    ensures ApplyToPieces(c, r, begin, end).Some? <==> StartsWell(r, begin)
    ensures StartsWell(r, begin) ==> ApplyToPieces(c, r, begin, end) == Some(Feed(c, r.Text()[begin..end]))
    decreases r, 0
  {
    hide Feed, Rope.Text, Rope.Valid, ApplyToPieces;
    ConcatenationText(r);
    BothParts(c, r, begin, end);
    var a, b, n := r.left.Text(), r.right.Text(), r.left.Size();
    PiecesAreTheText(c, r.left, begin, n);
    var f := Feed(c, a[begin..n]);
    PiecesAreTheText(f.consumer, r.right, 0, end - n);
    PieceAtStart(r.right);
    FeedJoined(c, a[begin..n], b[0..end - n]);
    RangeOfBoth(a, b, begin, end);
  }

  // From the left part on to the first end characters of the right one.
  function OnToRight(r: Rope, first: Option<Fed>, end: nat): Option<Fed>
    requires r.Valid() && r.Concatenation? && end <= r.right.Size()
  {
    if first.None? || !first.value.more then first else ApplyToPieces(first.value.consumer, r.right, 0, end)
  }

  lemma BothParts(c: Consumer, r: Rope, begin: nat, end: nat)
    requires r.Valid() && r.Concatenation? && begin < r.left.Size() < end <= r.Size()
    ensures ApplyToPieces(c, r, begin, end) ==
            OnToRight(r, ApplyToPieces(c, r.left, begin, r.left.Size()), end - r.left.Size())
    ensures StartsWell(r, begin) <==> StartsWell(r.left, begin)
  {
  }

  lemma FeedNothing(c: Consumer)
    ensures Feed(c, "") == Fed(c, true)
  {
    if c.Flattening? { assert c.buffer + "" == c.buffer; }
  }

  lemma RangeOfLeft(a: string, b: string, begin: nat, end: nat)
    requires begin <= end <= |a|
    ensures (a + b)[begin..end] == a[begin..end]
  {
  }

  lemma RangeOfBoth(a: string, b: string, begin: nat, end: nat)
    requires begin <= |a| <= end <= |a + b|
    ensures (a + b)[begin..end] == a[begin..|a|] + b[0..end - |a|]
  {
  }

  lemma RangeOfRight(a: string, b: string, begin: nat, end: nat)
    requires |a| <= begin <= end <= |a + b|
    ensures (a + b)[begin..end] == b[begin - |a|..end - |a|]
  {
  }

  lemma {:induction false} PieceAtStart(r: Rope)
    requires r.Valid()
    ensures StartsWell(r, 0) && PieceAt(r, 0).1 == 0
  {
    if r.Concatenation? {
      SizeIsTextLength(r.left);
      PieceAtStart(r.left);
    }
  }

  // ----- its users -----

  // The ranged _S_flatten, into an empty buffer.
  function FlattenRange(r: Rope, start: nat, length: nat): Option<string>
    requires r.Valid() && start + length <= r.Size()
  {
    match ApplyToPieces(Flattening(""), r, start, start + length)
    case None => None
    case Some(f) => if f.consumer.Flattening? then Some(f.consumer.buffer) else None
  }

  lemma FlattenRangeIsSlice(r: Rope, start: nat, length: nat)
    requires r.Valid() && start + length <= r.Size()
    ensures |r.Text()| == r.Size()
    ensures FlattenRange(r, start, length) ==
            if StartsWell(r, start) then Some(r.Text()[start..start + length]) else None
  {
    PiecesAreTheText(Flattening(""), r, start, start + length);
    assert "" + r.Text()[start..start + length] == r.Text()[start..start + length];
  }

  // find: the position of a character from start on, or none.
  datatype Position = At(index: nat) | Npos

  function Find(r: Rope, pattern: char, start: nat): Option<Position>
    requires r.Valid() && start <= r.Size()
  {
    match ApplyToPieces(Finding(pattern, 0), r, start, r.Size())
    case None => None
    case Some(f) =>
      var pos := start + if f.consumer.Finding? then f.consumer.count else 0;
      Some(if pos == r.Size() then Npos else At(pos))
  }

  lemma FindIsFirst(r: Rope, pattern: char, start: nat)
    requires r.Valid() && start <= r.Size()
    ensures |r.Text()| == r.Size()
    ensures Find(r, pattern, start).Some? <==> StartsWell(r, start)
    ensures Find(r, pattern, start) == Some(Npos) ==> forall k :: start <= k < |r.Text()| ==> r.Text()[k] != pattern
    ensures Find(r, pattern, start).Some? && Find(r, pattern, start).value.At? ==>
            FirstAt(r.Text(), pattern, start, Find(r, pattern, start).value.index)
  {
    hide Rope.Valid, Rope.Text, ApplyToPieces, Feed, StartsWell;
    var t := r.Text();
    PiecesAreTheText(Finding(pattern, 0), r, start, r.Size());
    var rest := t[start..r.Size()];
    FeedCounts(pattern, 0, rest);
    var f := Feed(Finding(pattern, 0), rest);
    assert forall k :: start <= k < start + f.consumer.count ==> t[k] == rest[k - start] != pattern;
    assert !f.more ==> t[start + f.consumer.count] == rest[f.consumer.count];
  }

  predicate FirstAt(t: string, x: char, start: nat, i: nat) {
    start <= i < |t| && t[i] == x && forall k :: start <= k < i ==> t[k] != x
  }

  // ----- erasing one character -----

  // erase(p) passes p + 1 as the number of characters, not as the end.
  method EraseOne(s: Store, tree: Option<Ref>, p: nat, ghost text: string) returns (result: Option<Ref>)
    requires s.Valid() && Given(s.nodes, tree, text)
    modifies s
    ensures s.Valid() && s.roots == old(s.roots) + One(result)
    ensures Later(old(s.nodes), old(s.next), s.nodes, s.next)
    ensures Given(s.nodes, result, Replaced(text, p, p + (p + 1), ""))
  {
    hide Inv, Shape, FlatOk, Counted, Later, Tree, TreeOf, Alive, Given;
    EraseOneErases(text, p);
    GivenFields(s.nodes, tree, text);
    NothingGiven(s.nodes, s.next, s.roots);
    result := Replace(s, tree, p, p + (p + 1), None, text, "");
  }

  /** It erases the one character that it should only at the front, or where at most one
      character is left. */
  lemma EraseOneErases(text: string, p: nat)
    ensures |Replaced(text, p, p + (p + 1), "")| <= |text|
    ensures Replaced(text, p, p + (p + 1), "") == Replaced(text, p, p + 1, "") <==> p == 0 || p + 1 >= |text|
  {
    assert |Replaced(text, p, p + 1, "")| == Min(p, |text|) + |text| - Min(p + 1, |text|);
    assert |Replaced(text, p, p + (p + 1), "")| == Min(p, |text|) + |text| - Min(p + (p + 1), |text|);
  }

  /** Erasing the second of four characters erases the third as well. */
  lemma EraseOneErasesTwo()
    ensures Replaced("abcd", 1, 1 + (1 + 1), "") == "ad" && Replaced("abcd", 1, 1 + 1, "") == "acd"
  {
    EraseOneErases("abcd", 1);
    assert Slice("abcd", 0, 1) == "a" && Slice("abcd", 3, 4) == "d" && Slice("abcd", 2, 4) == "cd";
    assert "a" + "" + "d" == "ad" && "a" + "" + "cd" == "acd";
  }
}
