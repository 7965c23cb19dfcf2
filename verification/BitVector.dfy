/** bit_vector: a sequence of booleans packed into 32-bit words. */
module BitVector {
  import opened Ranges
  import opened StableSorting

  // ----- one bit of a word -----

  // 1U << i
  function Mask(i: nat): bv32
    requires i < 32
  {
    (1 as bv32) << i
  }

  function Masked(w: bv32, m: bv32): bv32 { w & m }

  function WithMask(w: bv32, m: bv32, b: bool): bv32 { if b then w | m else w & !m }

  // Reading a bit reference, and assigning to it.
  predicate Bit(w: bv32, i: nat)
    requires i < 32
  {
    Masked(w, Mask(i)) != 0
  }

  function SetBit(w: bv32, i: nat, b: bool): bv32
    requires i < 32
  {
    WithMask(w, Mask(i), b)
  }

  lemma MasksApart(i: nat, j: nat)
    requires i < 32 && j < 32 && i != j
    ensures Masked(Mask(i), Mask(j)) == 0
  {
  }

  lemma MaskNotZero(i: nat)
    requires i < 32
    ensures Mask(i) != 0
  {
  }

  lemma WithMaskApart(w: bv32, m: bv32, n: bv32, b: bool)
    requires Masked(m, n) == 0
    ensures Masked(WithMask(w, m, b), n) == Masked(w, n)
  {
  }

  lemma WithMaskHere(w: bv32, m: bv32, b: bool)
    ensures Masked(WithMask(w, m, b), m) == if b then m else 0
  {
  }

  lemma AllOnes(m: bv32)
    ensures Masked(0xFFFF_FFFF, m) == m && Masked(0, m) == 0
  {
  }

  // Assigning to one bit changes that bit alone.
  lemma SetBitAt(w: bv32, i: nat, b: bool, j: nat)
    requires i < 32 && j < 32
    ensures Bit(SetBit(w, i, b), j) == if j == i then b else Bit(w, j)
  {
    hide Mask, Masked, WithMask;
    if i == j {
      WithMaskHere(w, Mask(i), b);
      MaskNotZero(i);
    } else {
      MasksApart(i, j);
      WithMaskApart(w, Mask(i), Mask(j), b);
    }
  }

  // ----- the words as one row of bits -----

  ghost function Bits(words: seq<bv32>): (s: seq<bool>)
    ensures |s| == 32 * |words|
  {
    seq(32 * |words|, k requires 0 <= k < 32 * |words| => Bit(words[k / 32], k % 32))
  }

  lemma BitsAt(words: seq<bv32>, k: int)
    requires 0 <= k < 32 * |words|
    ensures Bits(words)[k] == Bit(words[k / 32], k % 32)
  {
  }

  lemma BitsPut(words: seq<bv32>, p: nat, i: nat, b: bool)
    requires p < |words| && i < 32
    ensures Bits(words[p := SetBit(words[p], i, b)]) == Bits(words)[32 * p + i := b]
  {
    var w := words[p := SetBit(words[p], i, b)];
    forall k | 0 <= k < 32 * |words| ensures Bits(w)[k] == Bits(words)[32 * p + i := b][k] {
      SetBitAt(words[p], i, b, k % 32);
    }
  }

  lemma BitsOfOneWord(words: seq<bv32>, x: bool)
    requires forall p :: 0 <= p < |words| ==> words[p] == if x then 0xFFFF_FFFF else 0
    ensures Bits(words) == Repeat(32 * |words|, x)
  {
    forall k | 0 <= k < 32 * |words| ensures Bits(words)[k] == x {
      BitsAt(words, k);
      AllOnes(Mask(k % 32));
      MaskNotZero(k % 32);
    }
  }

  // ----- iterators -----

  datatype BitIterator = BitIterator(word: int, offset: int)

  ghost predicate InWord(it: BitIterator) {
    0 <= it.offset < 32
  }

  ghost function Position(it: BitIterator): int {
    32 * it.word + it.offset
  }

  // bump_up
  function BumpUp(it: BitIterator): (r: BitIterator)
    ensures InWord(it) ==> InWord(r) && Position(r) == Position(it) + 1
  {
    if it.offset == 31 then BitIterator(it.word + 1, 0) else BitIterator(it.word, it.offset + 1)
  }

  // bump_down
  function BumpDown(it: BitIterator): (r: BitIterator)
    ensures InWord(it) ==> InWord(r) && Position(r) == Position(it) - 1
  {
    if it.offset == 0 then BitIterator(it.word - 1, 31) else BitIterator(it.word, it.offset - 1)
  }

  // operator+=, whose division drops the fraction and whose remainder may be negative
  function Plus(it: BitIterator, i: int): BitIterator {
    var n := i + it.offset;
    var word := it.word + Truncated(n, 32);
    var rest := n - 32 * Truncated(n, 32);
    if rest < 0 then BitIterator(word - 1, rest + 32) else BitIterator(word, rest)
  }

  // operator-
  function Difference(a: BitIterator, b: BitIterator): int {
    32 * (a.word - b.word) + a.offset - b.offset
  }

  // operator+= moves the position by exactly i, also backwards, and operator- undoes it; an
  // iterator is determined by its position.
  lemma PlusMoves(it: BitIterator, i: int)
    requires InWord(it)
    ensures InWord(Plus(it, i)) && Position(Plus(it, i)) == Position(it) + i
    ensures Difference(Plus(it, i), it) == i
    ensures Plus(Plus(it, i), -i) == it
  {
    var r := Plus(it, i);
    TruncatedRest(i + it.offset);
    TruncatedRest(-i + r.offset);
    SamePosition(Plus(r, -i), it);
  }

  lemma FromStart(i: int)
    ensures InWord(Plus(BitIterator(0, 0), i)) && Position(Plus(BitIterator(0, 0), i)) == i
  {
    TruncatedRest(i);
  }

  lemma TruncatedRest(n: int)
    ensures -32 < n - 32 * Truncated(n, 32) < 32
  {
  }

  lemma SamePosition(a: BitIterator, b: BitIterator)
    requires InWord(a) && InWord(b)
    ensures Position(a) == Position(b) <==> a == b
    ensures Position(a) < Position(b) <==> a.word < b.word || (a.word == b.word && a.offset < b.offset)
  {
  }

  ghost predicate Within(it: BitIterator, words: int) {
    InWord(it) && 0 <= Position(it) <= 32 * words
  }

  // The words that _M_bit_alloc gets for n bits.
  function WordsFor(n: nat): (words: nat)
    ensures 32 * words >= n > 32 * (words - 1)
  {
    (n + 31) / 32
  }

  // ----- copying bits -----

  // *it = b
  method AssignBit(words: array<bv32>, it: BitIterator, b: bool)
    requires Within(it, words.Length) && Position(it) < 32 * words.Length
    modifies words
    ensures Bits(words[..]) == old(Bits(words[..]))[Position(it) := b]
  {
    hide Bits, SetBit;
    ghost var w := words[..];
    words[it.word] := SetBit(words[it.word], it.offset, b);
    assert words[..] == w[it.word := SetBit(w[it.word], it.offset, b)];
    BitsPut(w, it.word, it.offset, b);
  }

  method ReadBit(words: array<bv32>, it: BitIterator) returns (b: bool)
    requires Within(it, words.Length) && Position(it) < 32 * words.Length
    ensures b == Bits(words[..])[Position(it)]
  {
    b := Bit(words[it.word], it.offset);
  }

  // The number of words after one more bit, after n more bits at once, and after reserve. It
  // grows only when there is no room left.
  ghost function RoomForOne(words: nat, size: nat): (w: nat)
    requires size <= 32 * words
    ensures w >= words && 32 * w > size && (size < 32 * words <==> w == words)
  {
    if size < 32 * words then words else WordsFor(if size != 0 then 2 * size else 32)
  }

  ghost function RoomFor(words: nat, size: nat, n: nat): (w: nat)
    requires size <= 32 * words
    ensures w >= words && 32 * w >= size + n && (size + n <= 32 * words <==> w == words)
  {
    if size + n <= 32 * words then words else WordsFor(size + if size < n then n else size)
  }

  ghost function RoomReserved(words: nat, n: nat): (w: nat)
    ensures w >= words && 32 * w >= n && (n <= 32 * words <==> w == words)
  {
    if n <= 32 * words then words else WordsFor(n)
  }

  // Room for twice as many bits, or for one word of them at first.
  method MoreWords(size: nat) returns (w: array<bv32>)
    ensures fresh(w) && w.Length == WordsFor(if size != 0 then 2 * size else 32) && size < 32 * w.Length
  {
    hide WordsFor;
    var len := if size != 0 then 2 * size else 32;
    w := new bv32[WordsFor(len)];
  }

  // *it++ = b
  method PutBit(words: array<bv32>, it: BitIterator, b: bool) returns (end: BitIterator)
    requires Within(it, words.Length) && Position(it) < 32 * words.Length
    modifies words
    ensures Bits(words[..]) == Written(old(Bits(words[..])), Position(it), [b])
    ensures Within(end, words.Length) && Position(end) == Position(it) + 1
  {
    hide Bits, SetBit, Bit;
    ghost var s := Bits(words[..]);
    AssignBit(words, it, b);
    WrittenOne(s, Position(it), b);
    end := BumpUp(it);
  }

  // copy; within one array only to the left.
  method CopyBits(src: array<bv32>, first: BitIterator, last: BitIterator, dst: array<bv32>,
                  result: BitIterator) returns (end: BitIterator)
    requires Within(first, src.Length) && Within(last, src.Length) && Within(result, dst.Length)
    requires Position(first) <= Position(last)
    requires Position(result) + (Position(last) - Position(first)) <= 32 * dst.Length
    requires src == dst ==> Position(result) <= Position(first)
    modifies dst
    ensures Bits(dst[..]) == Written(old(Bits(dst[..])), Position(result),
                                     old(Bits(src[..]))[Position(first)..Position(last)])
    ensures Within(end, dst.Length) && Position(end) == Position(result) + (Position(last) - Position(first))
  {
    hide Bit, SetBit, Bits, Written;
    ghost var s, d, p, q := Bits(src[..]), Bits(dst[..]), Position(first), Position(result);
    var n: nat := Difference(last, first);
    WrittenNone(d, q, s[p..p]);
    var f := first;
    end := result;
    for i := 0 to n
      invariant InWord(f) && Position(f) == p + i
      invariant InWord(end) && Position(end) == q + i
      invariant Bits(dst[..]) == Written(d, q, s[p..p + i])
      invariant src != dst ==> Bits(src[..]) == s
    {
      OneMoreCopied(s, d, p, q, i);
      var b := ReadBit(src, f);
      assert b == s[p + i] by {
        if src == dst { CopyStep(s, p, q, i, n, Bits(dst[..])); }
      }
      AssignBit(dst, end, b);
      f := BumpUp(f);
      end := BumpUp(end);
    }
  }

  lemma OneMoreCopied<T>(s: seq<T>, d: seq<T>, p: nat, q: nat, i: nat)
    requires p + i < |s| && q + i < |d|
    ensures |Written(d, q, s[p..p + i])| == |d|
    ensures Written(d, q, s[p..p + i])[q + i := s[p + i]] == Written(d, q, s[p..p + (i + 1)])
  {
    assert s[p..p + (i + 1)] == s[p..p + i] + [s[p + i]];
  }

  // copy_backward, to the right within one array
  method CopyBitsBackward(words: array<bv32>, first: BitIterator, last: BitIterator, result: BitIterator)
    requires Within(first, words.Length) && Within(last, words.Length) && Within(result, words.Length)
    requires Position(first) <= Position(last) <= Position(result)
    modifies words
    ensures Bits(words[..]) == Written(old(Bits(words[..])), Position(result) - (Position(last) - Position(first)),
                                       old(Bits(words[..]))[Position(first)..Position(last)])
  {
    hide Bit, SetBit, Bits, Written;
    ghost var s, p, q := Bits(words[..]), Position(last), Position(result);
    var n: nat := Difference(last, first);
    WrittenNone(s, q, s[p..p]);
    var l, r := last, result;
    for i := 0 to n
      invariant InWord(l) && Position(l) == p - i
      invariant InWord(r) && Position(r) == q - i
      invariant Bits(words[..]) == Written(s, q - i, s[p - i..p])
    {
      CopyBackStep(s, p, q, i, Bits(words[..]));
      l := BumpDown(l);
      r := BumpDown(r);
      var b := ReadBit(words, l);
      AssignBit(words, r, b);
    }
  }

  // fill
  method FillBits(words: array<bv32>, first: BitIterator, last: BitIterator, x: bool)
    requires Within(first, words.Length) && Within(last, words.Length) && Position(first) <= Position(last)
    modifies words
    ensures Bits(words[..]) == Written(old(Bits(words[..])), Position(first),
                                       Repeat(Position(last) - Position(first), x))
  {
    hide Bit, SetBit, Bits, Written;
    ghost var s, p := Bits(words[..]), Position(first);
    WrittenNone(s, p, Repeat(0, x));
    var f := first;
    ghost var i: nat := 0;
    while f != last
      invariant InWord(f) && Position(f) == p + i <= Position(last)
      invariant Bits(words[..]) == Written(s, p, Repeat(i, x))
      decreases Position(last) - Position(f)
    {
      SamePosition(f, last);
      FillStep(s, p, i, x, Bits(words[..]));
      AssignBit(words, f, x);
      f := BumpUp(f);
      i := i + 1;
    }
  }

  // ----- the vector -----

  datatype Op =
    | AddBack(x: bool)
    | DropBack
    | InsertAt(i: nat, x: bool)
    | InsertCopies(i: nat, n: nat, x: bool)
    | EraseAt(i: nat)
    | EraseBetween(i: nat, j: nat)
    | ReserveBits(n: nat)
    | ResizeTo(n: nat, x: bool)
    | AssignCopies(n: nat, x: bool)

  ghost predicate Allowed(op: Op, v: seq<bool>) {
    match op
    case DropBack => v != []
    case InsertAt(i, x) => i <= |v|
    case InsertCopies(i, n, x) => i <= |v|
    case EraseAt(i) => i < |v|
    case EraseBetween(i, j) => i <= j <= |v|
    case _ => true
  }

  ghost function Meaning(op: Op, v: seq<bool>): seq<bool>
    requires Allowed(op, v)
  {
    match op
    case AddBack(x) => v + [x]
    case DropBack => v[..|v| - 1]
    case InsertAt(i, x) => v[..i] + [x] + v[i..]
    case InsertCopies(i, n, x) => v[..i] + Repeat(n, x) + v[i..]
    case EraseAt(i) => v[..i] + v[i + 1..]
    case EraseBetween(i, j) => v[..i] + v[j..]
    case ReserveBits(n) => v
    case ResizeTo(n, x) => if n < |v| then v[..n] else v + Repeat(n - |v|, x)
    case AssignCopies(n, x) => Repeat(n, x)
  }

  ghost predicate AllAllowed(ops: seq<Op>, v: seq<bool>) {
    ops == [] || (Allowed(ops[0], v) && AllAllowed(ops[1..], Meaning(ops[0], v)))
  }

  ghost function AfterAll(ops: seq<Op>, v: seq<bool>): seq<bool>
    requires AllAllowed(ops, v)
  {
    if ops == [] then v else AfterAll(ops[1..], Meaning(ops[0], v))
  }

  // How many words there are after an operation.
  ghost function WordsToSize(words: nat, size: nat, n: nat): (w: nat)
    requires size <= 32 * words
    ensures w >= words && 32 * w >= n && (n <= 32 * words ==> w == words)
  {
    if n < size then words else RoomFor(words, size, n - size)
  }

  ghost function WordsAfter(op: Op, words: nat, size: nat): (w: nat)
    requires size <= 32 * words
    ensures w >= words
  {
    match op
    case AddBack(_) => RoomForOne(words, size)
    case InsertAt(_, _) => RoomForOne(words, size)
    case InsertCopies(_, n, _) => RoomFor(words, size, n)
    case ReserveBits(n) => RoomReserved(words, n)
    case ResizeTo(n, _) => WordsToSize(words, size, n)
    case AssignCopies(n, _) => WordsToSize(words, size, n)
    case _ => words
  }

  lemma WordsEnough(op: Op, words: nat, v: seq<bool>)
    requires Allowed(op, v) && |v| <= 32 * words
    ensures |Meaning(op, v)| <= 32 * WordsAfter(op, words, |v|)
    ensures Demand(op, v) <= 32 * words <==> WordsAfter(op, words, |v|) == words
  {
    hide RoomForOne, RoomFor, RoomReserved;
  }

  ghost function WordsAfterAll(ops: seq<Op>, words: nat, v: seq<bool>): (w: nat)
    requires AllAllowed(ops, v) && |v| <= 32 * words
    ensures w >= words
  {
    if ops == [] then words else
    WordsEnough(ops[0], words, v);
    WordsAfterAll(ops[1..], WordsAfter(ops[0], words, |v|), Meaning(ops[0], v))
  }

  // How many bits an operation needs room for, and all of a run.
  ghost function Demand(op: Op, v: seq<bool>): nat
    requires Allowed(op, v)
  {
    match op
    case ReserveBits(n) => n
    case _ => |Meaning(op, v)|
  }

  ghost predicate DemandAtMost(ops: seq<Op>, v: seq<bool>, bits: nat)
    requires AllAllowed(ops, v)
  {
    ops == [] || (Demand(ops[0], v) <= bits && DemandAtMost(ops[1..], Meaning(ops[0], v), bits))
  }

  /** The words are replaced in a run if and only if one of its operations needs more room than
      there is. */
  lemma {:induction false} WordsKept(ops: seq<Op>, words: nat, v: seq<bool>)
    requires AllAllowed(ops, v) && |v| <= 32 * words
    ensures DemandAtMost(ops, v, 32 * words) <==> WordsAfterAll(ops, words, v) == words
    decreases |ops|
  {
    hide WordsAfter, Demand;
    if ops != [] {
      WordsEnough(ops[0], words, v);
      WordsKept(ops[1..], WordsAfter(ops[0], words, |v|), Meaning(ops[0], v));
    }
  }

  class Vector {
    var words: array<bv32> // its end is the end of storage
    var finish: BitIterator

    ghost predicate Valid()
      reads this
    {
      Within(finish, words.Length)
    }

    ghost function Contents(): seq<bool>
      requires Valid()
      reads this, words
    {
      Bits(words[..])[..Position(finish)]
    }

    ghost predicate IsPosition(it: BitIterator)
      reads this
    {
      InWord(it) && 0 <= Position(it) <= Position(finish)
    }

    // The words are kept as long as there are as many, and new ones otherwise.
    twostate predicate Kept(length: nat)
      reads this
    {
      words.Length == length && if length == old(words.Length) then words == old(words) else fresh(words)
    }

    constructor (n: nat, x: bool)
      ensures Valid() && fresh(words) && Contents() == Repeat(n, x) && words.Length == WordsFor(n)
    {
      hide Bit, SetBit, Bits, Plus, WordsFor;
      var w := new bv32[WordsFor(n)];
      words := w;
      finish := Plus(BitIterator(0, 0), n);
      new;
      FromStart(n);
      FillWords(x);
    }

    // fill from the first word to the end of storage
    method FillWords(x: bool)
      requires Valid()
      modifies words
      ensures Contents() == Repeat(Position(finish), x)
    {
      for i := 0 to words.Length
        invariant forall k :: 0 <= k < i ==> words[k] == if x then 0xFFFF_FFFF else 0
        modifies words
      {
        words[i] := if x then 0xFFFF_FFFF else 0;
      }
      BitsOfOneWord(words[..], x);
    }

    method Size() returns (n: nat)
      requires Valid()
      ensures n == |Contents()|
    {
      n := Difference(finish, BitIterator(0, 0));
    }

    method Capacity() returns (n: nat)
      ensures n == 32 * words.Length
    {
      n := Difference(BitIterator(words.Length, 0), BitIterator(0, 0));
    }

    method At(i: nat) returns (b: bool)
      requires Valid() && i < |Contents()|
      ensures b == Contents()[i]
    {
      hide Bit, SetBit, Bits, Plus;
      FromStart(i);
      b := ReadBit(words, Plus(BitIterator(0, 0), i));
    }

    method PushBack(x: bool)
      requires Valid()
      modifies this, words
      ensures Valid() && Kept(RoomForOne(old(words.Length), |old(Contents())|))
      ensures Contents() == old(Contents()) + [x]
    {
      hide Bit, SetBit, Bits, Written, WordsFor;
      if finish.word != words.Length {
        ghost var was := Contents();
        AssignBit(words, finish, x);
        finish := BumpUp(finish);
        assert Contents() == was + [x];
      } else {
        InsertAux(finish, x);
      }
    }

    method InsertAux(position: BitIterator, x: bool)
      requires Valid() && IsPosition(position)
      modifies this, words
      ensures Valid() && Kept(RoomForOne(old(words.Length), |old(Contents())|))
      ensures var i := Position(position); Contents() == old(Contents())[..i] + [x] + old(Contents())[i..]
    {
      hide Bit, SetBit, Bits, Written, WordsFor;
      if finish.word != words.Length {
        InsertInPlace(position, x);
      } else {
        InsertAnew(position, x);
      }
    }

    method InsertInPlace(position: BitIterator, x: bool)
      requires Valid() && IsPosition(position) && finish.word != words.Length
      modifies this`finish, words
      ensures Valid()
      ensures var i := Position(position); Contents() == old(Contents())[..i] + [x] + old(Contents())[i..]
    {
      hide Bit, SetBit, Bits, Written;
      ghost var b, n, i := Bits(words[..]), Position(finish), Position(position);
      CopyBitsBackward(words, position, finish, BumpUp(finish));
      AssignBit(words, position, x);
      finish := BumpUp(finish);
      RoomMade(b, n, i, [x]);
      WrittenOne(Written(b, i + 1, b[i..n]), i, x);
    }

    method InsertAnew(position: BitIterator, x: bool)
      requires Valid() && IsPosition(position) && finish.word == words.Length
      modifies this
      ensures Valid() && fresh(words)
      ensures var n := |old(Contents())|; words.Length == WordsFor(if n != 0 then 2 * n else 32)
      ensures var i := Position(position); Contents() == old(Contents())[..i] + [x] + old(Contents())[i..]
    {
      hide Bit, SetBit, Bits, Written, WordsFor;
      ghost var b, n, i := Bits(words[..]), Position(finish), Position(position);
      var size := Size();
      var w := MoreWords(size);
      ghost var d := Bits(w[..]);
      var it := CopyBits(words, BitIterator(0, 0), position, w, BitIterator(0, 0));
      ghost var d1 := Bits(w[..]);
      it := PutBit(w, it, x);
      ghost var d2 := Bits(w[..]);
      var end := CopyBits(words, position, finish, w, it);
      Rebuilt(b, n, i, [x], d, d1, d2, Bits(w[..]));
      words, finish := w, end;
    }

    method Insert(position: BitIterator, x: bool) returns (it: BitIterator)
      requires Valid() && IsPosition(position)
      modifies this, words
      ensures Valid() && Kept(RoomForOne(old(words.Length), |old(Contents())|))
      ensures var i := Position(position); Contents() == old(Contents())[..i] + [x] + old(Contents())[i..]
      ensures it == position
    {
      hide Bit, SetBit, Bits, Written, Plus, RoomForOne;
      var n := Difference(position, BitIterator(0, 0));
      if finish.word != words.Length && position == finish {
        PushBack(x);
      } else {
        InsertAux(position, x);
      }
      FromStart(n);
      it := Plus(BitIterator(0, 0), n);
      SamePosition(it, position);
    }

    method FillInsert(position: BitIterator, n: nat, x: bool)
      requires Valid() && IsPosition(position)
      modifies this, words
      ensures Valid() && Kept(RoomFor(old(words.Length), |old(Contents())|, n))
      ensures var i := Position(position); Contents() == old(Contents())[..i] + Repeat(n, x) + old(Contents())[i..]
    {
      hide Bit, SetBit, Bits, Written, WordsFor;
      ghost var i := Position(position);
      if n == 0 {
        assert Contents() == Contents()[..i] + Repeat(n, x) + Contents()[i..];
        return;
      }
      var capacity := Capacity();
      var size := Size();
      if capacity - size >= n {
        FillInPlace(position, n, x);
      } else {
        FillAnew(position, n, x);
      }
    }

    method FillInPlace(position: BitIterator, n: nat, x: bool)
      requires Valid() && IsPosition(position) && Position(finish) + n <= 32 * words.Length
      modifies this`finish, words
      ensures Valid()
      ensures var i := Position(position); Contents() == old(Contents())[..i] + Repeat(n, x) + old(Contents())[i..]
    {
      hide Bit, SetBit, Bits, Written, Plus;
      ghost var b, m, i := Bits(words[..]), Position(finish), Position(position);
      PlusMoves(finish, n);
      PlusMoves(position, n);
      CopyBitsBackward(words, position, finish, Plus(finish, n));
      FillBits(words, position, Plus(position, n), x);
      finish := Plus(finish, n);
      RoomMade(b, m, i, Repeat(n, x));
    }

    method FillAnew(position: BitIterator, n: nat, x: bool)
      requires Valid() && IsPosition(position)
      modifies this
      ensures Valid() && fresh(words)
      ensures var m := |old(Contents())|; words.Length == WordsFor(m + if m < n then n else m)
      ensures var i := Position(position); Contents() == old(Contents())[..i] + Repeat(n, x) + old(Contents())[i..]
    {
      hide Bit, SetBit, Bits, Written, Plus, WordsFor;
      ghost var b, m, i := Bits(words[..]), Position(finish), Position(position);
      var size := Size();
      var len := size + if size < n then n else size;
      var w := new bv32[WordsFor(len)];
      ghost var d := Bits(w[..]);
      var it := CopyBits(words, BitIterator(0, 0), position, w, BitIterator(0, 0));
      ghost var d1 := Bits(w[..]);
      PlusMoves(it, n);
      FillBits(w, it, Plus(it, n), x);
      ghost var d2 := Bits(w[..]);
      var end := CopyBits(words, position, finish, w, Plus(it, n));
      Rebuilt(b, m, i, Repeat(n, x), d, d1, d2, Bits(w[..]));
      words, finish := w, end;
    }

    method Reserve(n: nat)
      requires Valid()
      modifies this
      ensures Valid() && Kept(RoomReserved(old(words.Length), n))
      ensures Contents() == old(Contents()) && finish == old(finish)
    {
      hide Bit, SetBit, Bits, Written, WordsFor;
      var capacity := Capacity();
      if capacity < n {
        ghost var b, m, was := Bits(words[..]), Position(finish), finish;
        var w := new bv32[WordsFor(n)];
        ghost var d := Bits(w[..]);
        finish := CopyBits(words, BitIterator(0, 0), finish, w, BitIterator(0, 0));
        words := w;
        SamePosition(finish, was);
        WrittenPart(d, 0, b[0..m]);
        assert Bits(w[..])[..m] == Bits(w[..])[0..m] == b[..m];
      }
    }

    method PopBack()
      requires Valid() && Contents() != []
      modifies this`finish
      ensures Valid() && Contents() == old(Contents())[..|old(Contents())| - 1]
    {
      finish := BumpDown(finish);
    }

    method Erase(position: BitIterator) returns (it: BitIterator)
      requires Valid() && IsPosition(position) && position != finish
      modifies this`finish, words
      ensures Valid() && it == position
      ensures var i := Position(position);
                i < |old(Contents())| && Contents() == old(Contents())[..i] + old(Contents())[i + 1..]
    {
      hide Bit, SetBit, Bits, Written, Plus;
      ghost var b, m, i := Bits(words[..]), Position(finish), Position(position);
      PlusMoves(position, 1);
      SamePosition(position, finish);
      SamePosition(Plus(position, 1), finish);
      Closed(b, m, i, i + 1);
      if Plus(position, 1) != finish {
        var _ := CopyBits(words, Plus(position, 1), finish, words, position);
      }
      finish := BumpDown(finish);
      it := position;
    }

    method EraseRange(first: BitIterator, last: BitIterator) returns (it: BitIterator)
      requires Valid() && IsPosition(first) && IsPosition(last) && Position(first) <= Position(last)
      modifies this`finish, words
      ensures Valid() && it == first
      ensures Contents() == old(Contents())[..Position(first)] + old(Contents())[Position(last)..]
    {
      hide Bit, SetBit, Bits, Written;
      Closed(Bits(words[..]), Position(finish), Position(first), Position(last));
      finish := CopyBits(words, last, finish, words, first);
      it := first;
    }

    method Resize(n: nat, x: bool)
      requires Valid()
      modifies this, words
      ensures Valid() && Kept(WordsToSize(old(words.Length), |old(Contents())|, n))
      ensures Contents() ==
              if n < |old(Contents())| then old(Contents())[..n] else old(Contents()) + Repeat(n - |old(Contents())|, x)
    {
      hide Bit, SetBit, Bits, Written, Plus;
      var size := Size();
      if n < size {
        FromStart(n);
        var _ := EraseRange(Plus(BitIterator(0, 0), n), finish);
      } else {
        FillInsert(finish, n - size, x);
      }
    }

    method AssignAll(n: nat, x: bool)
      requires Valid()
      modifies this, words
      ensures Valid() && Kept(WordsToSize(old(words.Length), |old(Contents())|, n))
      ensures Contents() == Repeat(n, x)
    {
      hide Bit, SetBit, Bits, Written, Plus;
      var size := Size();
      if n > size {
        FillWords(x);
        FillInsert(finish, n - size, x);
      } else {
        FromStart(n);
        var _ := EraseRange(Plus(BitIterator(0, 0), n), finish);
        FillWords(x);
      }
    }

    // ----- runs -----

    method Execute(op: Op)
      requires Valid() && Allowed(op, Contents())
      modifies this, words
      ensures Valid() && Kept(WordsAfter(op, old(words.Length), |old(Contents())|))
      ensures Contents() == Meaning(op, old(Contents()))
    {
      hide Bit, SetBit, Bits, Written, Plus;
      match op
      case AddBack(x) => PushBack(x);
      case DropBack => PopBack();
      case InsertAt(i, x) =>
        FromStart(i);
        var _ := Insert(Plus(BitIterator(0, 0), i), x);
      case InsertCopies(i, n, x) =>
        FromStart(i);
        FillInsert(Plus(BitIterator(0, 0), i), n, x);
      case EraseAt(i) =>
        FromStart(i);
        SamePosition(Plus(BitIterator(0, 0), i), finish);
        var _ := Erase(Plus(BitIterator(0, 0), i));
      case EraseBetween(i, j) =>
        FromStart(i);
        FromStart(j);
        var _ := EraseRange(Plus(BitIterator(0, 0), i), Plus(BitIterator(0, 0), j));
      case ReserveBits(n) => Reserve(n);
      case ResizeTo(n, x) => Resize(n, x);
      case AssignCopies(n, x) => AssignAll(n, x);
    }

    // Any run of allowed operations does to the bits what its operations do to a sequence.
    method Run(ops: seq<Op>)
      requires Valid() && AllAllowed(ops, Contents())
      modifies this, words
      ensures Valid() && Kept(WordsAfterAll(ops, old(words.Length), old(Contents())))
      ensures Contents() == AfterAll(ops, old(Contents()))
    {
      hide RoomForOne, RoomFor, RoomReserved, WordsAfter;
      for i := 0 to |ops|
        invariant Valid() && words.Length >= old(words.Length)
        invariant if words.Length == old(words.Length) then words == old(words) else fresh(words)
        invariant AllAllowed(ops[i..], Contents())
        invariant WordsAfterAll(ops[i..], words.Length, Contents()) ==
                  WordsAfterAll(ops, old(words.Length), old(Contents()))
        invariant AfterAll(ops[i..], Contents()) == AfterAll(ops, old(Contents()))
      {
        assert ops[i..][1..] == ops[i + 1..];
        Execute(ops[i]);
      }
    }
  }

  // xs in the room made between position i and the end n of the bits in use.
  lemma RoomMade<T>(b: seq<T>, n: nat, i: nat, xs: seq<T>)
    requires i <= n && n + |xs| <= |b|
    ensures |Written(b, i + |xs|, b[i..n])| == |b|
    ensures |Written(Written(b, i + |xs|, b[i..n]), i, xs)| == |b|
    ensures Written(Written(b, i + |xs|, b[i..n]), i, xs)[..n + |xs|] == b[..n][..i] + xs + b[..n][i..]
  {
  }

  // The bits before i copied to new words, xs after them, and then the rest.
  lemma Rebuilt<T>(b: seq<T>, n: nat, i: nat, xs: seq<T>, d: seq<T>, d1: seq<T>, d2: seq<T>, d3: seq<T>)
    requires i <= n <= |b| && n + |xs| <= |d| == |d1| == |d2|
    requires d1 == Written(d, 0, b[0..i]) && d2 == Written(d1, i, xs) && d3 == Written(d2, i + |xs|, b[i..n])
    ensures d3[..n + |xs|] == b[..n][..i] + xs + b[..n][i..]
  {
    assert d1[..i] == b[..n][..i];
    assert d2[..i + |xs|] == d1[..i] + xs;
    assert d3[..n + |xs|] == d2[..i + |xs|] + b[i..n];
  }

  // The bits from i to j erased by copying those behind them.
  lemma Closed<T>(b: seq<T>, n: nat, i: nat, j: nat)
    requires i <= j <= n <= |b|
    ensures Written(b, i, b[j..n])[..n - (j - i)] == b[..n][..i] + b[..n][j..]
    ensures |Written(b, i, b[j..n])| == |b|
    ensures j == n ==> b[..n - (j - i)] == b[..n][..i] + b[..n][j..]
  {
  }

  lemma WrittenOne<T>(s: seq<T>, i: nat, x: T)
    requires i < |s|
    ensures Written(s, i, [x]) == s[i := x]
  {
  }
}
