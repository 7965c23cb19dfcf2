/**
 Substrings, replacement, insertion and character access: the operations that build new
 nodes and leave those alone that others refer to.
 */
module RopeOperations {
  import opened Options
  import opened RopeTree
  import opened RopeStore
  import opened RopeForest
  import opened RopeBalance

  // The clamped slice of a string.
  function Slice(t: string, start: nat, end: nat): string {
    if start < Min(end, |t|) then t[start..Min(end, |t|)] else ""
  }

  lemma SliceAll(t: string, end: nat)
    requires |t| <= end
    ensures Slice(t, 0, end) == t
  {
  }

  lemma SliceBounds(t: string, start: nat, end: nat)
    ensures |Slice(t, start, end)| <= |t|
    ensures Slice(t, start, end) == "" <==> start >= Min(end, |t|)
    ensures Slice(t, start, end) == Slice(t, start, Min(end, |t|))
  {
  }

  lemma SliceOfConcat(a: string, b: string, start: nat, end: nat)
    ensures end <= |a| ==> Slice(a + b, start, end) == Slice(a, start, end)
    ensures |a| <= start && |a| <= end ==> Slice(a + b, start, end) == Slice(b, start - |a|, end - |a|)
    ensures start <= |a| <= end ==> Slice(a + b, start, end) == Slice(a, start, |a|) + Slice(b, 0, end - |a|)
  {
  }

  // ----- the trees that the operations result in -----

  ghost function LeafFor(chars: string): Option<Rope> {
    if chars == "" then None else Some(Leaf(chars))
  }

  // The part of a leaf, of a function node or of a substring node: a copy if it is short, and
  // otherwise a substring node, whose base is never a substring node.
  ghost function PartOfPiece(r: Rope, start: nat, end: nat): Rope {
    if end <= start then r
    else if end - start <= LAZY_THRESHOLD then Leaf(Slice(r.Text(), start, end))
    else if r.SubstringFn? then SubstringFn(r.base, start + r.start, end - start)
    else SubstringFn(r, start, end - start)
  }

  // _S_substring
  ghost function PartOf(r: Rope, start: nat, end: nat): Option<Rope> {
    if start == 0 && r.Size() <= end then Some(r)
    else if !r.Concatenation? then
      if start < Min(end, r.Size()) then Some(PartOfPiece(r, start, Min(end, r.Size()))) else None
    else if Min(end, r.Size()) <= r.left.Size() then PartOf(r.left, start, end)
    else if r.left.Size() <= start then
      PartOf(r.right, start - r.left.Size(), Min(end, r.Size()) - r.left.Size())
    else Concatenated(PartOf(r.left, start, r.left.Size()), PartOf(r.right, 0, end - r.left.Size()))
  }

  ghost function PartOfRope(r: Option<Rope>, start: nat, end: nat): Option<Rope> {
    if r.None? then None else PartOf(r.value, start, end)
  }

  // prefix, middle and suffix
  ghost function Around(r: Option<Rope>, pos1: nat, pos2: nat, middle: Option<Rope>): Option<Rope> {
    Concatenated(Concatenated(PartOfRope(r, 0, pos1), middle), PartOfRope(r, pos2, SizeOf(r)))
  }

  // What the operations here take and result in: nothing, or a node that stands for the
  // text, at a depth that iterators and destructive updates have room for.
  ghost predicate Given(h: Nodes, r: Option<Ref>, text: string) {
    Shape(h) && Alive(h, r) && Sound(TreeOf(h, r)) && TextOf(TreeOf(h, r)) == text && |text| <= MAX_SIZE
  }

  lemma GivenFields(h: Nodes, r: Option<Ref>, text: string)
    requires Given(h, r, text)
    ensures Shape(h) && Alive(h, r) && (r.None? <==> text == "") && |text| <= MAX_SIZE
    ensures r.Some? ==> r.value in h && h[r.value].body.Size() == |text| && Tree(h, r.value).Text() == text
    ensures r.Some? ==> Tree(h, r.value).Valid() && h[r.value].body.Depth() <= MAX_ROPE_DEPTH
  {
    hide Rope.Valid, Rope.Text, Tree;
    SizeOfIsTextLength(TreeOf(h, r));
    TreeOptionFields(h, r);
  }

  lemma GivenNode(h: Nodes, n: Ref)
    requires Shape(h) && n in h && h[n].body.Depth() <= MAX_ROPE_DEPTH && h[n].body.Size() <= MAX_SIZE
    ensures Given(h, Some(n), Tree(h, n).Text())
  {
    hide Rope.Valid, Rope.Text, Tree;
    TreeFields(h, n);
    SizeIsTextLength(Tree(h, n));
  }

  /** Nothing that only builds takes away what is given. */
  lemma GivenKept(h: Nodes, next: Ref, roots: multiset<Ref>, h': Nodes, next': Ref, roots': multiset<Ref>,
                  r: Option<Ref>, text: string)
    requires Inv(h, next, roots) && Inv(h', next', roots') && Later(h, next, h', next') && roots <= roots'
    requires Given(h, r, text)
    ensures Given(h', r, text) && TreeOf(h', r) == TreeOf(h, r)
  {
    hide Tree, FlatOk, Counted, Shape, Rope.Valid, Rope.Text;
    Shaped(h', next', roots');
    if r.Some? {
      OneKept(h, next, roots, h', next', roots', r.value);
    }
  }

  lemma GivenRoot(h: Nodes, next: Ref, roots: multiset<Ref>, h': Nodes, next': Ref, roots': multiset<Ref>,
                  r: Option<Ref>, text: string)
    requires Inv(h, next, roots) && Inv(h', next', roots') && Later(h, next, h', next') && One(r) <= roots
    requires One(r) <= roots'
    requires Given(h, r, text)
    ensures Given(h', r, text) && TreeOf(h', r) == TreeOf(h, r)
  {
    hide Tree, FlatOk, Counted, Shape, Rope.Valid, Rope.Text;
    Shaped(h', next', roots');
    if r.Some? {
      assert r.value in One(r);
      RootKept(h, next, roots, h', next', roots', r.value);
    }
  }

  lemma GivenConcat(h: Nodes, h': Nodes, left: Option<Ref>, right: Option<Ref>, result: Option<Ref>, l: string,
                    r: string)
    requires Given(h, left, l) && Given(h, right, r) && |l| + |r| <= MAX_SIZE && Shape(h') && Alive(h', result)
    requires Concatenates(TreeOf(h, left), TreeOf(h, right), TreeOf(h', result))
    ensures Given(h', result, l + r)
  {
    hide Tree, MayRebalance, JoinDepth, Rope.Valid, Rope.Text;
  }

  lemma GivenSizes(h: Nodes, r: Option<Ref>, text: string)
    requires Given(h, r, text)
    ensures Alive(h, r) && Shape(h) && SizeOf(TreeOf(h, r)) == |text|
    ensures r.None? <==> TreeOf(h, r).None?
  {
    hide Rope.Valid, Rope.Text, Tree;
    SizeOfIsTextLength(TreeOf(h, r));
  }

  // _S_concat, followed by giving up its arguments if they are held for this purpose only.
  method JoinRopes(s: Store, left: Option<Ref>, right: Option<Ref>, ghost l: string, ghost r: string)
    returns (result: Option<Ref>)
    requires s.Valid() && Given(s.nodes, left, l) && Given(s.nodes, right, r) && |l| + |r| <= MAX_SIZE
    modifies s
    ensures s.Valid() && s.roots == old(s.roots) + One(result)
    ensures Later(old(s.nodes), old(s.next), s.nodes, s.next) && Given(s.nodes, result, l + r)
    ensures TreeOf(s.nodes, result) == Concatenated(old(TreeOf(s.nodes, left)), old(TreeOf(s.nodes, right)))
  {
    hide Inv, Shape, FlatOk, Counted, Later, Tree, TreeOf, Alive, Concatenates, Given, Concatenated, Rebalances;
    ghost var h := s.nodes;
    GivenSizes(h, left, l);
    GivenSizes(h, right, r);
    result := Concat(s, left, right);
    Shaped(s.nodes, s.next, s.roots);
    GivenConcat(h, s.nodes, left, right, result, l, r);
  }

  method JoinAndRelease(s: Store, left: Option<Ref>, right: Option<Ref>, ghost l: string, ghost r: string,
                        ghost rest: multiset<Ref>)
    returns (result: Option<Ref>)
    requires s.Valid() && Given(s.nodes, left, l) && Given(s.nodes, right, r) && |l| + |r| <= MAX_SIZE
    requires s.roots == rest + One(left) + One(right)
    modifies s
    ensures s.Valid() && s.roots == rest + One(result)
    ensures Later(old(s.nodes), old(s.next), s.nodes, s.next) && Given(s.nodes, result, l + r)
    ensures TreeOf(s.nodes, result) == Concatenated(old(TreeOf(s.nodes, left)), old(TreeOf(s.nodes, right)))
  {
    hide Inv, Shape, FlatOk, Counted, Later, Tree, TreeOf, Alive, Given, Concatenated;
    ghost var h, t := s.nodes, s.next;
    result := JoinRopes(s, left, right, l, r);
    ghost var h1, t1, roots1 := s.nodes, s.next, s.roots;
    BothHeld(rest, left, right, result);
    s.Release(right);
    ghost var h2, t2 := s.nodes, s.next;
    s.Release(left);
    LaterTransitive(h1, t1, h2, t2, s.nodes, s.next);
    LaterTransitive(h, t, h1, t1, s.nodes, s.next);
    GivenRoot(h1, t1, roots1, s.nodes, s.next, s.roots, result, l + r);
  }

  lemma BothHeld(rest: multiset<Ref>, left: Option<Ref>, right: Option<Ref>, result: Option<Ref>)
    ensures var roots := rest + One(left) + One(right) + One(result);
      && (right.Some? ==> right.value in roots) && (left.Some? ==> left.value in roots - One(right))
      && roots - One(right) - One(left) == rest + One(result) && One(result) <= roots
      && One(result) <= rest + One(result)
  {
  }

  // Copying out of a leaf, or calling the function of a function or substring node.
  method ReadPiece(s: Store, n: Ref) returns (text: string)
    requires s.Valid() && n in s.nodes && !s.nodes[n].body.ConcatBody?
    ensures text == Tree(s.nodes, n).Text() && |text| == s.nodes[n].body.Size()
  {
    hide FlatOk, Counted;
    assert NodeOk(s.nodes, n);
    TreeFields(s.nodes, n);
    SizeIsTextLength(Tree(s.nodes, n));
    match s.nodes[n].body
    case LeafBody(d, _) => text := d;
    case ProducerBody(p) => text := p;
    case SubstringBody(b, i, k) =>
      assert NodeOk(s.nodes, b);
      match s.nodes[b].body {
        case LeafBody(d, _) => text := d[i..i + k];
        case ProducerBody(p) => text := p[i..i + k];
      }
  }

  // _S_substring
  method Substring(s: Store, base: Option<Ref>, start: nat, endp1: nat,
                   ghost text: string) returns (result: Option<Ref>)
    requires s.Valid() && Given(s.nodes, base, text)
    modifies s
    ensures s.Valid() && s.roots == old(s.roots) + One(result)
    ensures Later(old(s.nodes), old(s.next), s.nodes, s.next) && Given(s.nodes, result, Slice(text, start, endp1))
    ensures TreeOf(s.nodes, result) == PartOfRope(old(TreeOf(s.nodes, base)), start, endp1)
    decreases if base.Some? && base.value in s.nodes then s.nodes[base.value].body.Rank() else 0, 1
  {
    hide Inv, Shape, FlatOk, Counted, Later, Tree, Given, Slice, Body.Rank, PartOfPiece, Concatenated;
    ghost var h, t, before := s.nodes, s.next, s.roots;
    GivenFields(h, base, text);
    PartSizes(h, base, text);
    SliceBounds(text, start, endp1);
    if base.None? {
      s.Retain(base);
      GivenKept(h, t, before, s.nodes, s.next, s.roots, base, text);
      return None;
    }
    var b := base.value;
    var adjusted := endp1;
    if endp1 >= s.nodes[b].body.Size() {
      if start == 0 {
        SliceAll(text, endp1);
        s.Reference(b);
        GivenKept(h, t, before, s.nodes, s.next, s.roots, base, text);
        return base;
      }
      adjusted := s.nodes[b].body.Size();
    }
    if s.nodes[b].body.ConcatBody? {
      result := SubstringOfConcatenation(s, b, start, endp1, adjusted, text);
    } else if start >= adjusted {
      NothingGiven(h, t, before);
      result := None;
    } else {
      var piece := SubstringOfPiece(s, b, start, adjusted);
      result := Some(piece);
    }
  }

  lemma NothingGiven(h: Nodes, next: Ref, roots: multiset<Ref>)
    requires Inv(h, next, roots)
    ensures Given(h, None, "") && Later(h, next, h, next) && roots == roots + One(None)
  {
  }

  // The case of a concatenation node.
  method SubstringOfConcatenation(s: Store, b: Ref, start: nat, endp1: nat, adjusted: nat, ghost text: string)
    returns (result: Option<Ref>)
    requires s.Valid() && b in s.nodes && Given(s.nodes, Some(b), text) && s.nodes[b].body.ConcatBody?
    requires adjusted == Min(endp1, s.nodes[b].body.Size())
    modifies s
    ensures s.Valid() && s.roots == old(s.roots) + One(result)
    ensures Later(old(s.nodes), old(s.next), s.nodes, s.next) && Given(s.nodes, result, Slice(text, start, endp1))
    ensures start != 0 || endp1 < old(s.nodes[b].body.Size()) ==>
              TreeOf(s.nodes, result) == PartOfRope(old(TreeOf(s.nodes, Some(b))), start, endp1)
    decreases s.nodes[b].body.Rank(), 0
  {
    hide Inv, Shape, FlatOk, Counted, Later, Tree, TreeOf, Given, Slice, Body.Rank, PartOfRope, Concatenated;
    ghost var h, t, before := s.nodes, s.next, s.roots;
    var left, right := s.nodes[b].body.left, s.nodes[b].body.right;
    ghost var l, r := Parts(h, b, text);
    var leftLen := s.nodes[left].body.Size();
    Shaped(h, t, before);
    PartOfBoth(h, b, start, endp1);
    SliceOfConcat(l, r, start, endp1);
    if adjusted <= leftLen {
      result := Substring(s, Some(left), start, endp1, l);
    } else if start >= leftLen {
      SliceBounds(text, start, endp1);
      SliceOfConcat(l, r, start, adjusted);
      result := Substring(s, Some(right), start - leftLen, adjusted - leftLen, r);
    } else {
      SliceBounds(l, start, leftLen);
      SliceBounds(r, 0, endp1 - leftLen);
      result := SubstringOfBoth(s, left, right, start, leftLen, endp1 - leftLen, l, r);
    }
  }

  // The end of the first part and the beginning of the second one.
  method SubstringOfBoth(s: Store, left: Ref, right: Ref, start: nat, leftLen: nat, end: nat, ghost l: string,
                         ghost r: string)
    returns (result: Option<Ref>)
    requires s.Valid() && left in s.nodes && right in s.nodes && |l| + |r| <= MAX_SIZE
    requires Given(s.nodes, Some(left), l) && Given(s.nodes, Some(right), r)
    modifies s
    ensures s.Valid() && s.roots == old(s.roots) + One(result)
    ensures Later(old(s.nodes), old(s.next), s.nodes, s.next)
    ensures Given(s.nodes, result, Slice(l, start, leftLen) + Slice(r, 0, end))
    ensures TreeOf(s.nodes, result) == Concatenated(PartOfRope(old(TreeOf(s.nodes, Some(left))), start, leftLen),
                                                    PartOfRope(old(TreeOf(s.nodes, Some(right))), 0, end))
    decreases Max(s.nodes[left].body.Rank(), s.nodes[right].body.Rank()), 2
  {
    hide Inv, Shape, FlatOk, Counted, Later, Tree, TreeOf, Given, Slice, Body.Rank, PartOfRope, Concatenated;
    ghost var h, t, before := s.nodes, s.next, s.roots;
    ghost var lr, rr := Slice(l, start, leftLen), Slice(r, 0, end);
    SliceBounds(l, start, leftLen);
    SliceBounds(r, 0, end);
    var leftResult := Substring(s, Some(left), start, leftLen, l);
    ghost var h1, t1, roots1 := s.nodes, s.next, s.roots;
    GivenKept(h, t, before, h1, t1, roots1, Some(right), r);
    OneKept(h, t, before, h1, t1, roots1, right);
    RankSame(h, h1, right);
    var rightResult := Substring(s, Some(right), 0, end, r);
    ghost var h2, t2 := s.nodes, s.next;
    LaterTransitive(h, t, h1, t1, h2, t2);
    GivenKept(h1, t1, roots1, h2, t2, s.roots, leftResult, lr);
    result := JoinAndRelease(s, leftResult, rightResult, lr, rr, before);
    LaterTransitive(h, t, h2, t2, s.nodes, s.next);
  }

  lemma Parts(h: Nodes, b: Ref, text: string) returns (l: string, r: string)
    requires b in h && Given(h, Some(b), text) && h[b].body.ConcatBody?
    ensures var left, right := h[b].body.left, h[b].body.right;
      && left in h && right in h && Given(h, Some(left), l) && Given(h, Some(right), r)
      && h[left].body.Rank() < h[b].body.Rank() && h[right].body.Rank() < h[b].body.Rank()
      && |l| == h[left].body.Size() > 0 && |r| == h[right].body.Size() > 0
    ensures l + r == text && |text| == h[b].body.Size() <= MAX_SIZE
  {
    hide MinLen, Rope.Valid, Tree;
    var left, right := h[b].body.left, h[b].body.right;
    ConcatFields(h, b);
    GivenFields(h, Some(b), text);
    l, r := Tree(h, left).Text(), Tree(h, right).Text();
    TreeFields(h, left);
    TreeFields(h, right);
    SizeIsTextLength(Tree(h, left));
    SizeIsTextLength(Tree(h, right));
    GivenNode(h, left);
    GivenNode(h, right);
  }

  // The cases of a leaf, a substring node and a function node.
  method SubstringOfPiece(s: Store, b: Ref, start: nat, end: nat) returns (result: Ref)
    requires s.Valid() && b in s.nodes && !s.nodes[b].body.ConcatBody?
    requires start < end <= s.nodes[b].body.Size() <= MAX_SIZE
    modifies s
    ensures s.Valid() && s.roots == old(s.roots) + multiset{result} && result in s.nodes
    ensures Later(old(s.nodes), old(s.next), s.nodes, s.next)
    ensures Given(s.nodes, Some(result), Slice(old(Tree(s.nodes, b).Text()), start, end))
    ensures Tree(s.nodes, result) == PartOfPiece(old(Tree(s.nodes, b)), start, end)
  {
    hide Inv, Shape, FlatOk, Counted, Later, Given, Tree, Slice, Rope.Text, NodeOk, Rope.Valid, PartOfPiece;
    ghost var h := s.nodes;
    Shaped(h, s.next, s.roots);
    PieceOf(h, b, start, end);
    var length := end - start;
    if length <= LAZY_THRESHOLD {
      var text := ReadPiece(s, b);
      result := s.NewLeaf(text[start..end]);
    } else if s.nodes[b].body.SubstringBody? {
      result := s.NewSubstring(s.nodes[b].body.base, start + s.nodes[b].body.start, length);
    } else {
      result := s.NewSubstring(b, start, length);
    }
    Shaped(s.nodes, s.next, s.roots);
    TreeFields(s.nodes, result);
    GivenNode(s.nodes, result);
  }

  lemma SliceOfSlice(t: string, first: nat, k: nat, start: nat, end: nat)
    requires first + k <= |t| && start <= end <= k
    ensures t[first..first + k][start..end] == t[first + start..first + end]
  {
    var u, v := t[first..first + k][start..end], t[first + start..first + end];
    assert |u| == |v| && forall i :: 0 <= i < |u| ==>
             u[i] == t[first..first + k][start + i] == t[first + start + i] == v[i];
  }

  lemma PartSizes(h: Nodes, base: Option<Ref>, text: string)
    requires Given(h, base, text)
    ensures base.Some? ==>
      && TreeOf(h, base) == Some(Tree(h, base.value)) && Tree(h, base.value).Size() == h[base.value].body.Size()
      && Tree(h, base.value).Concatenation? == h[base.value].body.ConcatBody?
    ensures base.None? ==> TreeOf(h, base) == None
  {
    if base.Some? {
      TreeFields(h, base.value);
    }
  }

  // A part of a concatenation, by the parts of its halves.
  lemma PartOfBoth(h: Nodes, b: Ref, start: nat, end: nat)
    requires Shape(h) && b in h && h[b].body.ConcatBody?
    ensures h[b].body.left in h && h[b].body.right in h
    ensures start != 0 || end < h[b].body.Size() ==>
      var l, r := TreeOf(h, Some(h[b].body.left)), TreeOf(h, Some(h[b].body.right));
      var n, adjusted := h[h[b].body.left].body.Size(), Min(end, h[b].body.Size());
      PartOfRope(TreeOf(h, Some(b)), start, end) ==
        if adjusted <= n then PartOfRope(l, start, end)
        else if n <= start then PartOfRope(r, start - n, adjusted - n)
        else Concatenated(PartOfRope(l, start, n), PartOfRope(r, 0, end - n))
  {
    hide Tree, Concatenated, MinLen, Rope.Valid, PartOf, Shape;
    ConcatFields(h, b);
    var t, left, right := Tree(h, b), h[b].body.left, h[b].body.right;
    TreeFields(h, b);
    TreeFields(h, left);
    assert t.left == Tree(h, left) && t.right == Tree(h, right) && t.Size() == h[b].body.Size();
    hide Rope.Size, Body.Size;
    if start != 0 || end < h[b].body.Size() {
      PartOfHalves(t, start, end);
    }
  }

  lemma PartOfHalves(r: Rope, start: nat, end: nat)
    requires r.Concatenation? && (start != 0 || end < r.Size())
    ensures var n, adjusted := r.left.Size(), Min(end, r.Size());
      PartOf(r, start, end) ==
        if adjusted <= n then PartOf(r.left, start, end)
        else if n <= start then PartOf(r.right, start - n, adjusted - n)
        else Concatenated(PartOf(r.left, start, n), PartOf(r.right, 0, end - n))
  {
    hide Concatenated;
  }

  // The three ways of standing for a part of a piece.
  lemma PieceOf(h: Nodes, b: Ref, start: nat, end: nat)
    requires Shape(h) && b in h && !h[b].body.ConcatBody? && start < end <= h[b].body.Size()
    ensures var text := Tree(h, b).Text();
      |text| == h[b].body.Size() && Leaf(text[start..end]).Text() == Slice(text, start, end)
    ensures !h[b].body.SubstringBody? ==>
              SubstringFn(Tree(h, b), start, end - start).Text() == Slice(Tree(h, b).Text(), start, end)
    ensures h[b].body.SubstringBody? ==>
      && h[b].body.base in h && (h[h[b].body.base].body.LeafBody? || h[h[b].body.base].body.ProducerBody?)
      && h[b].body.start + end <= h[h[b].body.base].body.Size()
      && SubstringFn(Tree(h, h[b].body.base), start + h[b].body.start, end - start).Text() ==
         Slice(Tree(h, b).Text(), start, end)
    ensures h[b].body.LeafBody? || h[b].body.ProducerBody? || h[b].body.SubstringBody?
    ensures PartOfPiece(Tree(h, b), start, end) ==
            if end - start <= LAZY_THRESHOLD then Leaf(Tree(h, b).Text()[start..end])
            else if h[b].body.SubstringBody? then
              SubstringFn(Tree(h, h[b].body.base), start + h[b].body.start, end - start)
            else SubstringFn(Tree(h, b), start, end - start)
  {
    assert NodeOk(h, b);
    TreeFields(h, b);
    SizeIsTextLength(Tree(h, b));
    if h[b].body.SubstringBody? {
      var base, first, k := h[b].body.base, h[b].body.start, h[b].body.length;
      TreeFields(h, base);
      SizeIsTextLength(Tree(h, base));
      var whole := Tree(h, base).Text();
      SliceOfSlice(whole, first, k, start, end);
    }
  }

  // _M_size, or 0 for an empty rope.
  method SizeField(s: Store, r: Option<Ref>, ghost text: string) returns (size: nat)
    requires s.Valid() && Given(s.nodes, r, text)
    ensures size == |text|
  {
    GivenFields(s.nodes, r, text);
    size := if r.None? then 0 else s.nodes[r.value].body.Size();
  }

  function Replaced(t: string, pos1: nat, pos2: nat, r: string): string {
    Slice(t, 0, pos1) + r + Slice(t, pos2, |t|)
  }

  // The static replace: prefix, then r, then suffix.
  method Replace(s: Store, tree: Option<Ref>, pos1: nat, pos2: nat, r: Option<Ref>, ghost text: string,
                 ghost middle: string)
    returns (result: Option<Ref>)
    requires s.Valid() && Given(s.nodes, tree, text) && Given(s.nodes, r, middle)
    requires |Replaced(text, pos1, pos2, middle)| <= MAX_SIZE
    modifies s
    ensures s.Valid() && s.roots == old(s.roots) + One(result)
    ensures Later(old(s.nodes), old(s.next), s.nodes, s.next)
    ensures Given(s.nodes, result, Replaced(text, pos1, pos2, middle))
    ensures TreeOf(s.nodes, result) == Around(old(TreeOf(s.nodes, tree)), pos1, pos2, old(TreeOf(s.nodes, r)))
  {
    hide Inv, Shape, FlatOk, Counted, Later, Tree, TreeOf, Given, Slice, Alive, PartOfRope, Concatenated;
    ghost var h, t, before := s.nodes, s.next, s.roots;
    GivenFields(h, tree, text);
    GivenFields(h, r, middle);
    ghost var lt, rt := Slice(text, 0, pos1), Slice(text, pos2, |text|);
    GivenSizes(h, tree, text);
    GivenSizes(h, r, middle);
    AroundFacts(TreeOf(h, tree), pos1, pos2, TreeOf(h, r));
    if tree.None? {
      s.Retain(r);
      GivenKept(h, t, before, s.nodes, s.next, s.roots, r, middle);
      SliceBounds(text, 0, pos1);
      SliceBounds(text, pos2, |text|);
      assert lt + middle + rt == middle;
      return r;
    }
    var left := Substring(s, tree, 0, pos1, text);
    ghost var h1, t1, roots1 := s.nodes, s.next, s.roots;
    GivenKept(h, t, before, h1, t1, roots1, tree, text);
    var size := SizeField(s, tree, text);
    var right := Substring(s, tree, pos2, size, text);
    ghost var h2, t2, roots2 := s.nodes, s.next, s.roots;
    LaterTransitive(h, t, h1, t1, h2, t2);
    GivenKept(h1, t1, roots1, h2, t2, roots2, left, lt);
    if r.None? {
      result := JoinAndRelease(s, left, right, lt, rt, before);
      assert lt + middle + rt == lt + rt;
    } else {
      GivenKept(h, t, before, h2, t2, roots2, r, middle);
      result := InsertBetween(s, left, r, right, lt, middle, rt, before);
    }
    LaterTransitive(h, t, h2, t2, s.nodes, s.next);
  }

  lemma AroundFacts(r: Option<Rope>, pos1: nat, pos2: nat, middle: Option<Rope>)
    ensures r.None? ==> Around(r, pos1, pos2, middle) == middle
    ensures middle.None? ==>
              Around(r, pos1, pos2, middle) == Concatenated(PartOfRope(r, 0, pos1), PartOfRope(r, pos2, SizeOf(r)))
  {
    hide PartOf;
  }

  // Joins three pieces, of which the caller gives up the first and the last.
  method InsertBetween(s: Store, left: Option<Ref>, r: Option<Ref>, right: Option<Ref>,
                       ghost lt: string, ghost middle: string, ghost rt: string, ghost rest: multiset<Ref>)
    returns (result: Option<Ref>)
    requires s.Valid() && Given(s.nodes, left, lt) && Given(s.nodes, r, middle) && Given(s.nodes, right, rt)
    requires |lt + middle + rt| <= MAX_SIZE && s.roots == rest + One(left) + One(right)
    modifies s
    ensures s.Valid() && s.roots == rest + One(result)
    ensures Later(old(s.nodes), old(s.next), s.nodes, s.next) && Given(s.nodes, result, lt + middle + rt)
    ensures TreeOf(s.nodes, result) == Concatenated(Concatenated(old(TreeOf(s.nodes, left)), old(TreeOf(s.nodes, r))),
                                                    old(TreeOf(s.nodes, right)))
  {
    hide Inv, Shape, FlatOk, Counted, Later, Tree, TreeOf, Given, Slice, Alive, One, Concatenated;
    ghost var h, t, before := s.nodes, s.next, s.roots;
    var leftResult := JoinRopes(s, left, r, lt, middle);
    ghost var h1, t1, roots1 := s.nodes, s.next, s.roots;
    GivenKept(h, t, before, h1, t1, roots1, right, rt);
    result := JoinAndRelease(s, leftResult, right, lt + middle, rt, rest + One(left));
    ghost var h2, t2, roots2 := s.nodes, s.next, s.roots;
    LaterTransitive(h, t, h1, t1, h2, t2);
    OneHeld(rest, left, result);
    s.Release(left);
    LaterTransitive(h, t, h2, t2, s.nodes, s.next);
    GivenRoot(h2, t2, roots2, s.nodes, s.next, s.roots, result, lt + middle + rt);
  }

  lemma OneHeld(rest: multiset<Ref>, left: Option<Ref>, result: Option<Ref>)
    ensures var roots := rest + One(left) + One(result);
      && (left.Some? ==> left.value in roots)
      && roots - One(left) == rest + One(result) && One(result) <= roots && One(result) <= rest + One(result)
  {
  }

  // _S_concat_char_iter
  method ConcatCharIter(s: Store, r: Option<Ref>, chars: string, ghost text: string) returns (result: Option<Ref>)
    requires s.Valid() && Given(s.nodes, r, text) && |text + chars| <= MAX_SIZE
    modifies s
    ensures s.Valid() && s.roots == old(s.roots) + One(result)
    ensures Later(old(s.nodes), old(s.next), s.nodes, s.next) && Given(s.nodes, result, text + chars)
    ensures TreeOf(s.nodes, result) == Concatenated(old(TreeOf(s.nodes, r)), LeafFor(chars))
  {
    hide Inv, FlatOk, Counted, Later, Tree, Given, Alive, MinLen, Rope.Valid, Rope.Text, TreeConcatOf, LastLeafOf;
    ghost var h, t, before := s.nodes, s.next, s.roots;
    GivenFields(h, r, text);
    hide Shape;
    if chars == "" {
      s.Retain(r);
      GivenKept(h, t, before, s.nodes, s.next, s.roots, r, text);
      assert text + chars == text;
      return r;
    }
    var n: Ref;
    if r.None? {
      n := s.NewLeaf(chars);
      LeafGiven(s.nodes, s.next, s.roots, n, chars);
      assert text + chars == chars;
      return Some(n);
    }
    var node := r.value;
    CharsMerge(h, t, before, node, chars);
    if s.nodes[node].body.LeafBody? && s.nodes[node].body.Size() + |chars| <= COPY_MAX {
      n := LeafConcatCharIter(s, node, chars);
      LeafGiven(s.nodes, s.next, s.roots, n, text + chars);
      return Some(n);
    }
    if s.nodes[node].body.ConcatBody? {
      ConcatFields(h, node);
      var right := s.nodes[node].body.right;
      if s.nodes[right].body.LeafBody? && s.nodes[right].body.Size() + |chars| <= COPY_MAX {
        TreeFields(h, right);
        n := JoinLastLeaf(s, node, chars);
        Shaped(s.nodes, s.next, s.roots);
        CharsGiven(h, s.nodes, node, n, text, chars);
        return Some(n);
      }
    }
    n := AppendLeaf(s, node, chars, text);
    result := Some(n);
  }

  // Characters are appended as a leaf of their own would be.
  lemma CharsMerge(h: Nodes, next: Ref, roots: multiset<Ref>, node: Ref, chars: string)
    requires Inv(h, next, roots) && node in h && chars != ""
    ensures Shape(h) && (MergesLeaves(Tree(h, node), Leaf(chars)) <==>
                         if h[node].body.LeafBody? then h[node].body.Size() + |chars| <= COPY_MAX
                         else
                           && h[node].body.ConcatBody? && h[node].body.right in h
                           && h[h[node].body.right].body.LeafBody?
                           && h[h[node].body.right].body.Size() + |chars| <= COPY_MAX)
    ensures TreeOf(h, Some(node)) == Some(Tree(h, node)) && Tree(h, node).Leaf? == h[node].body.LeafBody?
    ensures h[node].body.LeafBody? ==> Tree(h, node) == Leaf(Tree(h, node).Text())
  {
    hide Tree, MinLen, Rope.Valid, Counted, FlatOk;
    TreeFields(h, node);
    if h[node].body.ConcatBody? {
      ConcatFields(h, node);
      TreeFields(h, h[node].body.right);
    }
  }

  lemma LeafGiven(h: Nodes, next: Ref, roots: multiset<Ref>, n: Ref, text: string)
    requires Inv(h, next, roots) && n in h && Tree(h, n) == Leaf(text) && text != "" && |text| <= MAX_SIZE
    ensures Given(h, Some(n), text) && TreeOf(h, Some(n)) == Some(Leaf(text))
  {
    hide FlatOk, Counted, Shape, Tree;
    Shaped(h, next, roots);
  }

  lemma CharsGiven(h: Nodes, h': Nodes, node: Ref, n: Ref, text: string, chars: string)
    requires Given(h, Some(node), text) && Shape(h') && n in h' && |text + chars| <= MAX_SIZE
    requires Concatenates(TreeOf(h, Some(node)), Some(Leaf(chars)), TreeOf(h', Some(n)))
    ensures Given(h', Some(n), text + chars)
  {
    hide Tree, MayRebalance, JoinDepth, Rope.Valid;
  }

  // The end of _S_concat_char_iter and of _S_destr_concat_char_iter: a concatenation with
  // a new leaf.
  method AppendLeaf(s: Store, node: Ref, chars: string, ghost text: string) returns (result: Ref)
    requires s.Valid() && node in s.nodes && Given(s.nodes, Some(node), text) && chars != ""
    requires |text + chars| <= MAX_SIZE
    modifies s
    ensures s.Valid() && s.roots == old(s.roots) + multiset{result}
    ensures Later(old(s.nodes), old(s.next), s.nodes, s.next) && Given(s.nodes, Some(result), text + chars)
    ensures TreeOf(s.nodes, Some(result)) == TreeConcatOf(old(Tree(s.nodes, node)), Leaf(chars))
  {
    hide Inv, Shape, FlatOk, Counted, Later, Tree, Given, MinLen, Rope.Valid, Rope.Text, Concatenates, TreeConcatOf,
      RoughlyOk, MayRebalance, NeedsRebalance;
    ghost var h, t, before := s.nodes, s.next, s.roots;
    GivenFields(h, Some(node), text);
    var right := s.NewLeaf(chars);
    ghost var h1, t1, roots1 := s.nodes, s.next, s.roots;
    OneKept(h, t, before, h1, t1, roots1, node);
    s.Reference(node);
    ghost var h2, t2 := s.nodes, s.next;
    OneKept(h1, t1, roots1, h2, t2, s.roots, node);
    RootKept(h1, t1, roots1, h2, t2, s.roots, right);
    LaterTransitive(h, t, h1, t1, h2, t2);
    TreeFields(h, node);
    TreeFields(h2, node);
    TreeFields(h2, right);
    result := TreeConcat(s, node, right);
    LaterTransitive(h, t, h2, t2, s.nodes, s.next);
    assert s.roots == before + multiset{result};
    Shaped(s.nodes, s.next, s.roots);
    CharsGiven(h, s.nodes, node, result, text, chars);
  }

  // insert of characters
  method InsertChars(s: Store, tree: Option<Ref>, pos: nat, chars: string,
                     ghost text: string) returns (result: Option<Ref>)
    requires s.Valid() && Given(s.nodes, tree, text) && |Replaced(text, pos, pos, chars)| <= MAX_SIZE
    modifies s
    ensures s.Valid() && s.roots == old(s.roots) + One(result)
    ensures Later(old(s.nodes), old(s.next), s.nodes, s.next) && Given(s.nodes, result, Replaced(text, pos, pos, chars))
    ensures TreeOf(s.nodes, result) == Around(old(TreeOf(s.nodes, tree)), pos, pos, LeafFor(chars))
  {
    hide Inv, Shape, FlatOk, Counted, Later, Tree, TreeOf, Given, Slice, Alive, One, PartOfRope, Concatenated, LeafFor;
    ghost var h, t, before := s.nodes, s.next, s.roots;
    ghost var lt, rt := Slice(text, 0, pos), Slice(text, pos, |text|);
    GivenSizes(h, tree, text);
    var left := Substring(s, tree, 0, pos, text);
    ghost var h1, t1, roots1 := s.nodes, s.next, s.roots;
    GivenKept(h, t, before, h1, t1, roots1, tree, text);
    var size := SizeField(s, tree, text);
    var right := Substring(s, tree, pos, size, text);
    ghost var h2, t2, roots2 := s.nodes, s.next, s.roots;
    LaterTransitive(h, t, h1, t1, h2, t2);
    GivenKept(h1, t1, roots1, h2, t2, roots2, left, lt);
    var leftResult := ConcatCharIter(s, left, chars, lt);
    ghost var h3, t3, roots3 := s.nodes, s.next, s.roots;
    LaterTransitive(h, t, h2, t2, h3, t3);
    GivenKept(h2, t2, roots2, h3, t3, roots3, right, rt);
    result := JoinAndRelease(s, leftResult, right, lt + chars, rt, before + One(left));
    ghost var h4, t4, roots4 := s.nodes, s.next, s.roots;
    LaterTransitive(h, t, h3, t3, h4, t4);
    OneHeld(before, left, result);
    s.Release(left);
    LaterTransitive(h, t, h4, t4, s.nodes, s.next);
    GivenRoot(h4, t4, roots4, s.nodes, s.next, s.roots, result, lt + chars + rt);
  }

  // push_front
  method PushFront(s: Store, tree: Option<Ref>, c: char, ghost text: string) returns (result: Option<Ref>)
    requires s.Valid() && Given(s.nodes, tree, text) && |text| < MAX_SIZE
    modifies s
    ensures s.Valid() && s.roots == old(s.roots) + One(result)
    ensures Later(old(s.nodes), old(s.next), s.nodes, s.next) && Given(s.nodes, result, [c] + text)
    ensures TreeOf(s.nodes, result) == Concatenated(Some(Leaf([c])), old(TreeOf(s.nodes, tree)))
  {
    hide Inv, Shape, FlatOk, Counted, Later, Tree, TreeOf, Given, Alive, Concatenated;
    ghost var h, t, before := s.nodes, s.next, s.roots;
    var left := s.NewLeaf([c]);
    ghost var h1, t1, roots1 := s.nodes, s.next, s.roots;
    LeafGiven(h1, t1, roots1, left, [c]);
    GivenKept(h, t, before, h1, t1, roots1, tree, text);
    result := JoinRopes(s, Some(left), tree, [c], text);
    ghost var h2, t2, roots2 := s.nodes, s.next, s.roots;
    LaterTransitive(h, t, h1, t1, h2, t2);
    OneHeld(before, Some(left), result);
    s.Unreference(left);
    LaterTransitive(h, t, h2, t2, s.nodes, s.next);
    GivenRoot(h2, t2, roots2, s.nodes, s.next, s.roots, result, [c] + text);
  }

  // _S_fetch
  method Fetch(s: Store, r: Ref, i: nat) returns (c: char)
    requires s.Valid() && r in s.nodes && i < s.nodes[r].body.Size()
    ensures i < |Tree(s.nodes, r).Text()| && c == Tree(s.nodes, r).Text()[i]
  {
    hide Tree, Counted, Rope.Text, Rope.Valid;
    TreeFields(s.nodes, r);
    SizeIsTextLength(Tree(s.nodes, r));
    if s.nodes[r].flat.Some? {
      return s.nodes[r].flat.value[i];
    }
    var n: Ref, k: nat := r, i;
    while s.nodes[n].body.ConcatBody?
      invariant n in s.nodes && k < |Tree(s.nodes, n).Text()|
      invariant Tree(s.nodes, n).Text()[k] == Tree(s.nodes, r).Text()[i]
      decreases s.nodes[n].body.Rank()
    {
      var left, right := s.nodes[n].body.left, s.nodes[n].body.right;
      TextParts(s.nodes, n);
      if k >= s.nodes[left].body.Size() {
        k := k - s.nodes[left].body.Size();
        n := right;
      } else {
        n := left;
      }
    }
    var piece := ReadPiece(s, n);
    c := piece[k];
  }

  lemma TextParts(h: Nodes, n: Ref)
    requires Shape(h) && n in h && h[n].body.ConcatBody?
    ensures var l, r := h[n].body.left, h[n].body.right;
      && l in h && r in h && h[l].body.Rank() < h[n].body.Rank() && h[r].body.Rank() < h[n].body.Rank()
      && Tree(h, n).Text() == Tree(h, l).Text() + Tree(h, r).Text()
      && |Tree(h, l).Text()| == h[l].body.Size()
  {
    hide Tree, MinLen, Rope.Valid;
    ConcatFields(h, n);
    TreeFields(h, h[n].body.left);
    SizeIsTextLength(Tree(h, h[n].body.left));
  }

  // _S_flatten
  method Flatten(s: Store, r: Ref) returns (text: string)
    requires s.Valid() && r in s.nodes
    ensures text == Tree(s.nodes, r).Text()
    decreases s.nodes[r].body.Rank()
  {
    hide Tree, Counted, FlatOk, Rope.Text;
    if s.nodes[r].body.ConcatBody? {
      TextParts(s.nodes, r);
      var left := Flatten(s, s.nodes[r].body.left);
      var right := Flatten(s, s.nodes[r].body.right);
      text := left + right;
    } else {
      text := ReadPiece(s, r);
    }
  }

  // c_str of a rope that is not empty: what it returns is kept with the node.
  method CStr(s: Store, r: Ref) returns (text: string)
    requires s.Valid() && r in s.nodes
    modifies s`nodes
    ensures s.Valid() && Later(old(s.nodes), old(s.next), s.nodes, s.next) && s.nodes.Keys == old(s.nodes.Keys)
    ensures text == old(Tree(s.nodes, r).Text())
    ensures s.nodes[r].body.LeafBody? || s.nodes[r].flat == Some(text)
  {
    hide Tree, Counted, Rope.Text, Later;
    LaterReflexive(s.nodes, s.next, s.roots);
    if s.nodes[r].body.LeafBody? {
      text := ReadPiece(s, r);
    } else if s.nodes[r].flat.Some? {
      text := s.nodes[r].flat.value;
    } else {
      text := Flatten(s, r);
      Reflattened(s.nodes, s.next, s.roots, r, Some(text));
      s.nodes := s.nodes[r := s.nodes[r].(flat := Some(text))];
    }
  }
}
