/** Nullable pointers of the original are modelled by `Option`. */
module Options {
  datatype Option<+T> = None | Some(value: T)
}

/**
 The rope node structure: tags, size and depth fields, the table of minimal
 lengths and the balance predicates.

 A node is a value here, which is what a part of the store of module `RopeStore` stands
 for; counting references and writing into nodes in place are the subject there.
 */
module RopeTree {
  import opened Options

  const MAX_ROPE_DEPTH := 45
  const COPY_MAX := 23
  const LAZY_THRESHOLD := 128

  // _S_min_len: the Fibonacci numbers, starting from 1, 2.  The table of the original
  // has the entries 0 to 45; lemma MinLenTable gives their values.
  function MinLen(i: nat): nat {
    if i <= 1 then i + 1 else MinLen(i - 1) + MinLen(i - 2)
  }

  // max_size(): one below the second last entry of the table.
  const MAX_SIZE: nat := 1836311902

  datatype Rope =
    | Leaf(data: string)
    | Producer(produced: string)
    | SubstringFn(base: Rope, start: nat, length: nat)
    | Concatenation(left: Rope, right: Rope, total: nat, height: nat, marked: bool)
  {
    // The _M_size field.
    function Size(): nat {
      match this
      case Leaf(d) => |d|
      case Producer(p) => |p|
      case SubstringFn(_, _, n) => n
      case Concatenation(_, _, n, _, _) => n
    }

    // The _M_depth field.
    function Depth(): nat {
      if Concatenation? then height else 0
    }

    // The _M_is_balanced field: set by the constructors of all nodes but concatenations.
    predicate IsBalanced() {
      Concatenation? ==> marked
    }

    function Marked(): Rope {
      if Concatenation? then this.(marked := true) else this
    }

    // The text the node stands for; a substring node refers to a piece of its base.
    function Text(): string {
      match this
      case Leaf(d) => d
      case Producer(p) => p
      case SubstringFn(b, s, n) => if s + n <= |b.Text()| then b.Text()[s..s + n] else ""
      case Concatenation(l, r, _, _, _) => l.Text() + r.Text()
    }

    // What every constructor and every operation keeps true of a node: pieces are
    // never empty, substring nodes are never stacked, and the fields are exact.
    predicate Valid() {
      match this
      case Leaf(d) => d != ""
      case Producer(p) => p != ""
      case SubstringFn(b, s, n) => (b.Leaf? || b.Producer?) && b.Valid() && 0 < n && s + n <= b.Size()
      case Concatenation(l, r, n, h, m) =>
        && l.Valid() && r.Valid()
        && n == l.Size() + r.Size()
        && h == Max(l.Depth(), r.Depth()) + 1
        && (m ==> BalancedFor(n, h))
    }
  }

  function Max(a: nat, b: nat): nat { if a < b then b else a }
  function Min(a: nat, b: nat): nat { if a < b then a else b }

  // _S_is_balanced
  predicate BalancedFor(size: nat, depth: nat) {
    depth <= MAX_ROPE_DEPTH && size >= MinLen(depth)
  }

  // _S_is_roughly_balanced
  predicate RoughlyBalanced(size: nat, depth: nat) {
    depth <= 1 || (depth - 2 <= MAX_ROPE_DEPTH && size >= MinLen(depth - 2))
  }

  // The characters of a node that is not a concatenation.
  function PieceText(node: Rope): (text: string)
    requires node.Valid() && !node.Concatenation?
    ensures text == node.Text()
  {
    match node
    case Leaf(d) => d
    case Producer(p) => p
    case SubstringFn(Leaf(d), s, n) => d[s..s + n]
    case SubstringFn(Producer(p), s, n) => p[s..s + n]
  }

  function TextOf(r: Option<Rope>): string {
    match r
    case None => ""
    case Some(t) => t.Text()
  }

  function SizeOf(r: Option<Rope>): nat {
    match r
    case None => 0
    case Some(t) => t.Size()
  }

  predicate ValidOption(r: Option<Rope>) {
    r.Some? ==> r.value.Valid()
  }

  // Every rope handle of a program points at such a tree: well formed and of at most
  // the depth the iterators and the destructive operations have room for.
  predicate Sound(r: Option<Rope>) {
    r.Some? ==> r.value.Valid() && r.value.Depth() <= MAX_ROPE_DEPTH
  }

  /** The size field is the length of the text, in every well-formed node. */
  lemma {:induction false} SizeIsTextLength(r: Rope)
    requires r.Valid()
    ensures r.Size() == |r.Text()| && 0 < r.Size()
  {
    match r
    case Leaf(_) =>
    case Producer(_) =>
    case SubstringFn(b, _, _) => SizeIsTextLength(b);
    case Concatenation(left, right, _, _, _) =>
      SizeIsTextLength(left);
      SizeIsTextLength(right);
  }

  lemma SizeOfIsTextLength(r: Option<Rope>)
    requires ValidOption(r)
    ensures SizeOf(r) == |TextOf(r)| && (r.Some? ==> 0 < SizeOf(r))
  {
    if r.Some? { SizeIsTextLength(r.value); }
  }

  // ----- the table of minimal lengths -----

  /** The literal entries of the table. */
  lemma MinLenTable()
    ensures
      && MinLen(0) == 1 && MinLen(1) == 2 && MinLen(2) == 3 && MinLen(3) == 5
      && MinLen(4) == 8 && MinLen(5) == 13 && MinLen(6) == 21 && MinLen(7) == 34
      && MinLen(8) == 55 && MinLen(9) == 89 && MinLen(10) == 144 && MinLen(11) == 233
      && MinLen(12) == 377 && MinLen(13) == 610 && MinLen(14) == 987 && MinLen(15) == 1597
      && MinLen(16) == 2584 && MinLen(17) == 4181 && MinLen(18) == 6765 && MinLen(19) == 10946
      && MinLen(20) == 17711 && MinLen(21) == 28657 && MinLen(22) == 46368 && MinLen(23) == 75025
      && MinLen(24) == 121393 && MinLen(25) == 196418 && MinLen(26) == 317811 && MinLen(27) == 514229
      && MinLen(28) == 832040 && MinLen(29) == 1346269 && MinLen(30) == 2178309 && MinLen(31) == 3524578
      && MinLen(32) == 5702887 && MinLen(33) == 9227465 && MinLen(34) == 14930352 && MinLen(35) == 24157817
      && MinLen(36) == 39088169 && MinLen(37) == 63245986 && MinLen(38) == 102334155 && MinLen(39) == 165580141
      && MinLen(40) == 267914296 && MinLen(41) == 433494437 && MinLen(42) == 701408733 && MinLen(43) == 1134903170
      && MinLen(44) == 1836311903 && MinLen(45) == 2971215073
  {
  }

  lemma {:induction false} MinLenMonotone(i: nat, j: nat)
    requires i <= j
    ensures MinLen(i) <= MinLen(j)
    ensures i < j ==> MinLen(i) < MinLen(j)
    decreases j - i
  {
    if i < j {
      MinLenMonotone(i + 1, j);
      MinLenPositive(i);
    }
  }

  lemma {:induction false} MinLenPositive(i: nat)
    ensures 0 < MinLen(i) < MinLen(i + 1)
  {
    if i > 1 {
      MinLenPositive(i - 1);
    }
  }
}
