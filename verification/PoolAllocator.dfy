/**
 The pool allocator (stl_alloc.h): free lists of blocks of 8, 16, ..., 128 bytes, whose
 links are kept in the free blocks themselves, and one larger piece of memory that new
 blocks are cut from.
 */
module PoolAllocator {

  const ALIGN := 8
  const MAX_BYTES := 128
  const LISTS := MAX_BYTES / ALIGN
  const REFILL_COUNT := 20

  // _S_round_up
  function RoundUp(bytes: nat): (r: nat)
    ensures r % ALIGN == 0 && bytes <= r < bytes + ALIGN
  {
    (bytes + ALIGN - 1) / ALIGN * ALIGN
  }

  // _S_freelist_index
  function ListIndex(bytes: nat): (c: nat)
    requires 0 < bytes <= MAX_BYTES
    ensures c < LISTS && ListSize(c) == RoundUp(bytes)
  {
    (bytes + ALIGN - 1) / ALIGN - 1
  }

  // The size of the blocks on list c.
  function ListSize(c: nat): nat {
    ALIGN * (c + 1)
  }

  predicate Separate(a: nat, aEnd: nat, b: nat, bEnd: nat) {
    aEnd <= b || bEnd <= a
  }

  // ----- the memory that malloc hands out -----

  type Regions = seq<(nat, nat)>   // starts and lengths
  type Log = seq<(nat, bool)>      // lengths, and whether they were handed out

  ghost predicate Holds(regions: Regions, a: nat, b: nat) {
    exists i :: 0 <= i < |regions| && regions[i].0 <= a && b <= regions[i].0 + regions[i].1
  }

  ghost predicate DistinctStarts(regions: Regions) {
    forall i, j :: 0 <= i < j < |regions| ==> regions[i].0 != regions[j].0
  }

  // All that has been handed out.
  ghost function Obtained(regions: Regions): nat {
    if regions == [] then 0 else Obtained(regions[..|regions| - 1]) + regions[|regions| - 1].1
  }

  lemma ObtainedMore(regions: Regions, p: nat, n: nat)
    ensures Obtained(regions + [(p, n)]) == Obtained(regions) + n
  {
    assert (regions + [(p, n)])[..|regions|] == regions;
  }

  lemma {:induction false} ObtainedLess(regions: Regions, i: nat)
    requires i < |regions|
    ensures Obtained(regions[..i] + regions[i + 1..]) == Obtained(regions) - regions[i].1
    decreases |regions|
  {
    var rest, k := regions[..i] + regions[i + 1..], |regions| - 1;
    if i == k {
      assert rest == regions[..k];
    } else {
      assert rest[..k - 1] == regions[..k][..i] + regions[..k][i + 1..] && rest[k - 1] == regions[k];
      ObtainedLess(regions[..k], i);
    }
  }

  class Memory {
    var regions: Regions
    // What malloc has been asked for so far, and whether it had it.
    ghost var asked: Log

    constructor ()
      ensures regions == [] && asked == []
    {
      regions := [];
      asked := [];
    }

    predicate Overlaps(p: nat, n: nat)
      reads this
    {
      exists i :: 0 <= i < |regions| &&
                  (regions[i].0 == p || !Separate(regions[i].0, regions[i].0 + regions[i].1, p, p + n))
    }

    // malloc: fails with 0, or picks any place that is not in use.
    method Malloc(n: nat) returns (p: nat)
      modifies this
      ensures asked == old(asked) + [(n, p != 0)]
      ensures p == 0 ==> regions == old(regions)
      ensures p != 0 ==> regions == old(regions) + [(p, n)]
      ensures p != 0 && DistinctStarts(old(regions)) ==> DistinctStarts(regions)
      ensures p != 0 ==> forall a: nat, b: nat :: Holds(old(regions), a, b) ==> Separate(a, b, p, p + n)
    {
      p := *;
      if Overlaps(p, n) {
        p := 0;
      }
      if p != 0 {
        regions := regions + [(p, n)];
      }
      asked := asked + [(n, p != 0)];
    }

    // free of what malloc has returned
    method Free(p: nat, ghost i: nat)
      requires DistinctStarts(regions) && i < |regions| && regions[i].0 == p
      modifies this`regions
      ensures regions == old(regions)[..i] + old(regions)[i + 1..]
    {
      var k := 0;
      while regions[k].0 != p
        invariant k <= i
        modifies {}
        decreases i - k
      {
        k := k + 1;
      }
      regions := regions[..k] + regions[k + 1..];
    }
  }

  lemma HoldsMore(regions: Regions, p: nat, n: nat)
    ensures forall a: nat, b: nat :: Holds(regions, a, b) ==> Holds(regions + [(p, n)], a, b)
    ensures Holds(regions + [(p, n)], p, p + n)
  {
    var more := regions + [(p, n)];
    assert more[|regions|] == (p, n);
    forall a: nat, b: nat | Holds(regions, a, b) ensures Holds(more, a, b) {
      var i :| 0 <= i < |regions| && regions[i].0 <= a && b <= regions[i].0 + regions[i].1;
      assert more[i] == regions[i];
    }
  }

  ghost predicate AllHeld(regions: Regions, owned: Regions) {
    forall r :: r in owned ==> r.1 > 0 && Holds(regions, r.0, r.0 + r.1)
  }

  ghost predicate AllIn(regions: Regions, large: map<nat, nat>) {
    forall p :: p in large ==> large[p] > MAX_BYTES && (p, large[p]) in regions
  }

  ghost predicate OwnedApart(owned: Regions, large: map<nat, nat>) {
    forall r, p :: r in owned && p in large ==> Separate(r.0, r.0 + r.1, p, p + large[p])
  }

  ghost predicate LargeApart(large: map<nat, nat>) {
    forall p, q :: p in large && q in large && p != q ==> Separate(p, p + large[p], q, q + large[q])
  }

  // The regions of the pool and those that clients have got directly are different ones.
  ghost predicate Backed(regions: Regions, owned: Regions, large: map<nat, nat>) {
    && DistinctStarts(regions) && AllHeld(regions, owned) && AllIn(regions, large)
    && OwnedApart(owned, large) && LargeApart(large)
  }

  ghost predicate IsNew(regions: Regions, p: nat, n: nat) {
    && DistinctStarts(regions + [(p, n)])
    && forall a: nat, b: nat :: Holds(regions, a, b) ==> Separate(a, b, p, p + n)
  }

  lemma MemberHeld(regions: Regions, p: nat, n: nat)
    requires (p, n) in regions
    ensures Holds(regions, p, p + n)
  {
    var i :| 0 <= i < |regions| && regions[i] == (p, n);
  }

  lemma BackedStarts(regions: Regions, owned: Regions, large: map<nat, nat>)
    requires Backed(regions, owned, large)
    ensures DistinctStarts(regions)
  {
  }

  lemma HeldIsApart(regions: Regions, owned: Regions, p: nat, n: nat)
    requires AllHeld(regions, owned) && IsNew(regions, p, n)
    ensures forall r :: r in owned ==> Separate(r.0, r.0 + r.1, p, p + n)
  {
    hide DistinctStarts;
    forall r | r in owned ensures Separate(r.0, r.0 + r.1, p, p + n) {
      assert Holds(regions, r.0, r.0 + r.1);
    }
  }

  lemma PartIsApart(owned: Regions, a: nat, b: nat, p: nat, n: nat)
    requires Holds(owned, a, b) && forall r :: r in owned ==> Separate(r.0, r.0 + r.1, p, p + n)
    ensures Separate(a, b, p, p + n)
  {
    var i :| 0 <= i < |owned| && owned[i].0 <= a && b <= owned[i].0 + owned[i].1;
    assert owned[i] in owned;
  }

  lemma LargeIsApart(regions: Regions, large: map<nat, nat>, p: nat, n: nat)
    requires AllIn(regions, large) && IsNew(regions, p, n) && 0 < n
    ensures p !in large && forall q :: q in large ==> Separate(q, q + large[q], p, p + n)
  {
    hide DistinctStarts;
    forall q | q in large ensures Separate(q, q + large[q], p, p + n) {
      MemberHeld(regions, q, large[q]);
    }
  }

  lemma HeldByMore(regions: Regions, owned: Regions, large: map<nat, nat>, p: nat, n: nat)
    requires AllHeld(regions, owned) && AllIn(regions, large)
    ensures AllHeld(regions + [(p, n)], owned) && AllIn(regions + [(p, n)], large)
  {
    HoldsMore(regions, p, n);
    hide Holds;
  }

  lemma OwnedMore(regions: Regions, owned: Regions, large: map<nat, nat>, p: nat, n: nat)
    requires Backed(regions, owned, large) && IsNew(regions, p, n) && 0 < n
    ensures Backed(regions + [(p, n)], owned + [(p, n)], large)
    ensures forall a: nat, b: nat :: Holds(owned, a, b) ==> Separate(a, b, p, p + n)
  {
    HeldIsApart(regions, owned, p, n);
    LargeIsApart(regions, large, p, n);
    HeldByMore(regions, owned, large, p, n);
    HoldsMore(regions, p, n);
    hide Holds, DistinctStarts, AllIn, LargeApart;
    forall a: nat, b: nat | Holds(owned, a, b) ensures Separate(a, b, p, p + n) {
      PartIsApart(owned, a, b, p, n);
    }
  }

  lemma LargeMore(regions: Regions, owned: Regions, large: map<nat, nat>, p: nat, n: nat)
    requires Backed(regions, owned, large) && IsNew(regions, p, n) && n > MAX_BYTES
    ensures p !in large && Backed(regions + [(p, n)], owned, large[p := n])
  {
    HeldIsApart(regions, owned, p, n);
    LargeIsApart(regions, large, p, n);
    HeldByMore(regions, owned, large, p, n);
    LargeWith(regions + [(p, n)], owned, large, p, n);
    hide AllHeld, AllIn, OwnedApart, LargeApart;
  }

  lemma LargeWith(regions: Regions, owned: Regions, large: map<nat, nat>, p: nat, n: nat)
    requires AllIn(regions, large) && OwnedApart(owned, large) && LargeApart(large)
    requires (p, n) in regions && n > MAX_BYTES && p !in large
    requires forall r :: r in owned ==> Separate(r.0, r.0 + r.1, p, p + n)
    requires forall q :: q in large ==> Separate(q, q + large[q], p, p + n)
    ensures AllIn(regions, large[p := n]) && OwnedApart(owned, large[p := n]) && LargeApart(large[p := n])
  {
  }

  // What lies elsewhere is still held when another region is given back.
  lemma HoldsLess(regions: Regions, i: nat, a: nat, b: nat)
    requires i < |regions| && Holds(regions, a, b) && a < b
    requires Separate(a, b, regions[i].0, regions[i].0 + regions[i].1)
    ensures Holds(regions[..i] + regions[i + 1..], a, b)
  {
    var rest := regions[..i] + regions[i + 1..];
    var k :| 0 <= k < |regions| && regions[k].0 <= a && b <= regions[k].0 + regions[k].1;
    assert k != i;
    assert rest[if k < i then k else k - 1] == regions[k];
  }

  lemma MembersLess(regions: Regions, i: nat)
    requires i < |regions| && DistinctStarts(regions)
    ensures DistinctStarts(regions[..i] + regions[i + 1..])
    ensures forall r :: r in regions && r.0 != regions[i].0 ==> r in regions[..i] + regions[i + 1..]
  {
    var rest := regions[..i] + regions[i + 1..];
    forall k | 0 <= k < |rest| ensures rest[k] == regions[if k < i then k else k + 1] {
    }
    forall r | r in regions && r.0 != regions[i].0 ensures r in rest {
      var k :| 0 <= k < |regions| && regions[k] == r;
      assert rest[if k < i then k else k - 1] == r;
    }
  }

  lemma LargeLess(regions: Regions, owned: Regions, large: map<nat, nat>, p: nat) returns (i: nat)
    requires Backed(regions, owned, large) && p in large
    ensures i < |regions| && regions[i] == (p, large[p])
    ensures Backed(regions[..i] + regions[i + 1..], owned, large - {p})
  {
    hide Holds, DistinctStarts, LargeApart;
    assert (p, large[p]) in regions;
    i :| 0 <= i < |regions| && regions[i] == (p, large[p]);
    LargeWithout(regions, owned, large, p, i);
    LargeApartLess(large, p);
  }

  lemma LargeApartLess(large: map<nat, nat>, p: nat)
    requires LargeApart(large)
    ensures LargeApart(large - {p})
  {
  }

  lemma LargeWithout(regions: Regions, owned: Regions, large: map<nat, nat>, p: nat, i: nat)
    requires DistinctStarts(regions) && AllHeld(regions, owned) && AllIn(regions, large) && OwnedApart(owned, large)
    requires p in large && i < |regions| && regions[i] == (p, large[p])
    ensures var rest := regions[..i] + regions[i + 1..];
      && DistinctStarts(rest) && AllHeld(rest, owned) && AllIn(rest, large - {p}) && OwnedApart(owned, large - {p})
  {
    MembersLess(regions, i);
    hide Holds, DistinctStarts;
    forall r | r in owned ensures Holds(regions[..i] + regions[i + 1..], r.0, r.0 + r.1) {
      HoldsLess(regions, i, r.0, r.0 + r.1);
    }
  }

  // ----- sums over the blocks -----

  ghost function Sum(m: map<nat, nat>): nat {
    if m == map[] then 0 else var k :| k in m; m[k] + Sum(m - {k})
  }

  lemma {:induction false} SumRemove(m: map<nat, nat>, k: nat)
    requires k in m
    ensures Sum(m) == m[k] + Sum(m - {k})
    decreases |m|
  {
    var j :| j in m && Sum(m) == m[j] + Sum(m - {j});
    if j != k {
      SumRemove(m - {j}, k);
      SumRemove(m - {k}, j);
      assert m - {j} - {k} == m - {k} - {j};
    }
  }

  lemma SumAdd(m: map<nat, nat>, k: nat, v: nat)
    requires k !in m
    ensures Sum(m[k := v]) == Sum(m) + v
  {
    SumRemove(m[k := v], k);
    assert m[k := v] - {k} == m;
  }

  // ----- blocks -----

  // Blocks have sizes that belong to a list, and no byte belongs to two of them.
  ghost predicate BlocksOk(blocks: map<nat, nat>) {
    && (forall p :: p in blocks ==> 0 < p && 0 < blocks[p] <= MAX_BYTES && blocks[p] % ALIGN == 0)
    && (forall p, q :: p in blocks && q in blocks && p != q ==> Separate(p, p + blocks[p], q, q + blocks[q]))
  }

  ghost predicate Apart(blocks: map<nat, nat>, lo: nat, hi: nat) {
    forall p :: p in blocks ==> Separate(p, p + blocks[p], lo, hi)
  }

  // The starts of m blocks of n bytes that lie side by side from start on.
  ghost function Pieces(start: nat, n: nat, m: nat): (s: seq<nat>)
    ensures |s| == m
  {
    if m == 0 then [] else Pieces(start, n, m - 1) + [start + (m - 1) * n]
  }

  lemma {:induction false} PieceStarts(start: nat, n: nat, m: nat)
    ensures forall t :: 0 <= t < m ==> Pieces(start, n, m)[t] == start + t * n
  {
    if m > 0 { PieceStarts(start, n, m - 1); }
  }

  // blocks together with these.
  ghost function Cut(blocks: map<nat, nat>, start: nat, n: nat, m: nat): map<nat, nat> {
    if m == 0 then blocks else Cut(blocks, start, n, m - 1)[start + (m - 1) * n := n]
  }

  lemma {:induction false} CutBlocks(blocks: map<nat, nat>, start: nat, n: nat, m: nat, end: nat)
    requires BlocksOk(blocks) && 0 < start && 0 < n <= MAX_BYTES && n % ALIGN == 0
    requires start + m * n <= end && Apart(blocks, start, end)
    ensures var after := Cut(blocks, start, n, m);
      BlocksOk(after) && Apart(after, start + m * n, end) && Sum(after) == Sum(blocks) + m * n
  {
    hide BlocksOk, Apart;
    if m > 0 {
      Scale(m, n);
      CutBlocks(blocks, start, n, m - 1, end);
      var before, p := Cut(blocks, start, n, m - 1), start + (m - 1) * n;
      CutOne(before, p, n, end);
      SumAdd(before, p, n);
    }
  }

  lemma Scale(m: nat, n: nat)
    requires 0 < m
    ensures m * n == (m - 1) * n + n && (m - 1) * n >= 0
  {
  }

  lemma CutOne(blocks: map<nat, nat>, p: nat, n: nat, end: nat)
    requires BlocksOk(blocks) && 0 < p && 0 < n <= MAX_BYTES && n % ALIGN == 0 && p + n <= end && Apart(blocks, p, end)
    ensures p !in blocks && BlocksOk(blocks[p := n]) && Apart(blocks[p := n], p + n, end)
  {
  }

  /** The blocks after a cut are the old ones, unchanged, and the new ones. */
  lemma {:induction false} CutMembers(blocks: map<nat, nat>, start: nat, n: nat, m: nat, end: nat)
    requires BlocksOk(blocks) && 0 < n && start + m * n <= end && Apart(blocks, start, end)
    ensures var after, pieces := Cut(blocks, start, n, m), Pieces(start, n, m);
      && (forall p :: p in after <==> p in blocks || p in pieces)
      && (forall p :: p in blocks ==> p !in pieces && after[p] == blocks[p])
      && (forall p :: p in pieces ==> after[p] == n)
  {
    if m > 0 {
      Scale(m, n);
      CutMembers(blocks, start, n, m - 1, end);
      assert start + (m - 1) * n !in blocks;
    }
  }

  // ----- free lists in memory -----

  // The word at address p, where a free block keeps its link.
  function Link(mem: map<nat, nat>, p: nat): nat {
    if p in mem then mem[p] else 0
  }

  // The list that starts at head is chain.
  ghost predicate Linked(mem: map<nat, nat>, head: nat, chain: seq<nat>)
    decreases |chain|
  {
    if chain == [] then head == 0
    else head == chain[0] && head != 0 && Linked(mem, Link(mem, head), chain[1..])
  }

  lemma {:induction false} LinkedFrame(mem: map<nat, nat>, mem': map<nat, nat>, head: nat, chain: seq<nat>)
    requires Linked(mem, head, chain) && forall p :: p in chain ==> Link(mem, p) == Link(mem', p)
    ensures Linked(mem', head, chain)
    decreases |chain|
  {
    if chain != [] {
      LinkedFrame(mem, mem', Link(mem, head), chain[1..]);
    }
  }

  ghost predicate Distinct(s: seq<nat>) {
    forall i, j :: 0 <= i < j < |s| ==> s[i] != s[j]
  }

  // ----- the state of the allocator -----

  // List c is linked up, and holds only free blocks of its size, each once.
  ghost predicate ListOk(blocks: map<nat, nat>, live: set<nat>, mem: map<nat, nat>, head: nat, chain: seq<nat>,
                         c: nat) {
    && Linked(mem, head, chain) && Distinct(chain)
    && forall p :: p in chain ==> p in blocks && blocks[p] == ListSize(c) && p !in live
  }

  ghost predicate Lists(blocks: map<nat, nat>, live: set<nat>, mem: map<nat, nat>, heads: seq<nat>,
                        chains: seq<seq<nat>>) {
    && |heads| == LISTS && |chains| == LISTS
    && forall c :: 0 <= c < LISTS ==> ListOk(blocks, live, mem, heads[c], chains[c], c)
  }

  // Every block is in use, on its list, or among the pending ones.
  ghost predicate Accounted(blocks: map<nat, nat>, live: set<nat>, chains: seq<seq<nat>>, pending: seq<nat>) {
    && |chains| == LISTS && live <= blocks.Keys
    && (forall p :: p in pending ==> p in blocks && p !in live)
    && (forall p, c :: 0 <= c < LISTS && p in chains[c] ==> p !in pending)
    && (forall p :: p in blocks && p !in live && p !in pending ==>
          0 < blocks[p] <= MAX_BYTES && p in chains[ListIndex(blocks[p])])
  }

  // The blocks, and the piece from lo to hi that more are cut from, do not overlap; all
  // of it together is what has been obtained from malloc.
  ghost predicate Sizes(blocks: map<nat, nat>, lo: nat, hi: nat, heapSize: nat) {
    && BlocksOk(blocks)
    && lo <= hi && (hi - lo) % ALIGN == 0 && (lo < hi ==> 0 < lo && Apart(blocks, lo, hi))
    && Sum(blocks) + (hi - lo) == heapSize && heapSize % ALIGN == 0
  }

  ghost predicate InMemory(regions: Regions, blocks: map<nat, nat>, lo: nat, hi: nat) {
    (forall p :: p in blocks ==> Holds(regions, p, p + blocks[p])) && (lo < hi ==> Holds(regions, lo, hi))
  }

  // No block of a client is moved or resized.
  ghost predicate Undisturbed(live: set<nat>, before: map<nat, nat>, after: map<nat, nat>) {
    forall p :: p in live ==> p in before && p in after && after[p] == before[p]
  }

  // ----- cutting blocks off the piece -----

  lemma CarveSizes(blocks: map<nat, nat>, lo: nat, hi: nat, heapSize: nat, n: nat, m: nat)
    requires Sizes(blocks, lo, hi, heapSize) && 0 < n <= MAX_BYTES && n % ALIGN == 0 && 0 < m && lo + n * m <= hi
    ensures Sizes(Cut(blocks, lo, n, m), lo + n * m, hi, heapSize) && 0 < lo
  {
    hide BlocksOk, Apart, Sum, Cut;
    CutNumbers(n, m);
    Scale(m, n);
    CutBlocks(blocks, lo, n, m, hi);
    Aligned(hi - lo, m * n);
  }

  lemma CarveMembers(blocks: map<nat, nat>, live: set<nat>, mem: map<nat, nat>, heads: seq<nat>, chains: seq<seq<nat>>,
                     lo: nat, hi: nat, heapSize: nat, n: nat, m: nat)
    requires Lists(blocks, live, mem, heads, chains) && Accounted(blocks, live, chains, [])
    requires Sizes(blocks, lo, hi, heapSize) && 0 < n && 0 < m && lo + n * m <= hi
    ensures Lists(Cut(blocks, lo, n, m), live, mem, heads, chains)
    ensures Accounted(Cut(blocks, lo, n, m), live, chains, Pieces(lo, n, m))
    ensures Undisturbed(live, blocks, Cut(blocks, lo, n, m))
  {
    hide Linked, Distinct, Sum;
    Scale(m, n);
    CutMembers(blocks, lo, n, m, hi);
    var after := Cut(blocks, lo, n, m);
    forall c | 0 <= c < LISTS ensures ListOk(after, live, mem, heads[c], chains[c], c) {
      assert ListOk(blocks, live, mem, heads[c], chains[c], c);
    }
    forall p, c | 0 <= c < LISTS && p in chains[c] ensures p !in Pieces(lo, n, m) {
      assert ListOk(blocks, live, mem, heads[c], chains[c], c);
    }
  }

  lemma CarveMemory(regions: Regions, blocks: map<nat, nat>, lo: nat, hi: nat, heapSize: nat, n: nat, m: nat)
    requires InMemory(regions, blocks, lo, hi) && Sizes(blocks, lo, hi, heapSize) && 0 < n && 0 < m && lo + n * m <= hi
    ensures InMemory(regions, Cut(blocks, lo, n, m), lo + n * m, hi)
  {
    hide Sum, Holds;
    Scale(m, n);
    CutMembers(blocks, lo, n, m, hi);
    var after := Cut(blocks, lo, n, m);
    forall p | p in after ensures Holds(regions, p, p + after[p]) {
      if p in Pieces(lo, n, m) {
        PieceWithin(lo, n, m, p);
        HoldsPart(regions, lo, hi, p, p + n);
      } else {
        assert p in blocks && after[p] == blocks[p];
      }
    }
    if lo + n * m < hi {
      HoldsPart(regions, lo, hi, lo + n * m, hi);
    }
  }

  lemma HoldsPart(regions: Regions, a: nat, b: nat, c: nat, d: nat)
    requires Holds(regions, a, b) && a <= c && d <= b
    ensures Holds(regions, c, d)
  {
  }

  // ----- the rest of the piece as a block -----

  lemma LeftoverSizes(regions: Regions, blocks: map<nat, nat>, lo: nat, hi: nat, heapSize: nat)
    requires Sizes(blocks, lo, hi, heapSize) && InMemory(regions, blocks, lo, hi) && 0 < hi - lo <= MAX_BYTES
    ensures Sizes(blocks[lo := hi - lo], 0, 0, heapSize) && InMemory(regions, blocks[lo := hi - lo], 0, 0)
    ensures lo !in blocks
  {
    hide BlocksOk, Apart, Sum, Holds;
    CutOne(blocks, lo, hi - lo, hi);
    SumAdd(blocks, lo, hi - lo);
  }

  lemma LeftoverMembers(blocks: map<nat, nat>, live: set<nat>, mem: map<nat, nat>, heads: seq<nat>,
                        chains: seq<seq<nat>>, p: nat, size: nat)
    requires Lists(blocks, live, mem, heads, chains) && Accounted(blocks, live, chains, []) && p !in blocks
    ensures Lists(blocks[p := size], live, mem, heads, chains) && Accounted(blocks[p := size], live, chains, [p])
    ensures Undisturbed(live, blocks, blocks[p := size])
  {
    hide Linked, Distinct;
    forall c | 0 <= c < LISTS ensures ListOk(blocks[p := size], live, mem, heads[c], chains[c], c) {
      assert ListOk(blocks, live, mem, heads[c], chains[c], c);
    }
    forall q, c | 0 <= c < LISTS && q in chains[c] ensures q !in [p] {
      assert ListOk(blocks, live, mem, heads[c], chains[c], c);
    }
  }

  // ----- pushing and popping blocks -----

  lemma PushLists(blocks: map<nat, nat>, live: set<nat>, mem: map<nat, nat>, heads: seq<nat>, chains: seq<seq<nat>>,
                  pending: seq<nat>, p: nat, c: nat)
    requires Lists(blocks, live, mem, heads, chains) && Accounted(blocks, live, chains, pending)
    requires p in pending && 0 < p && c < LISTS && blocks[p] == ListSize(c)
    ensures Lists(blocks, live, mem[p := heads[c]], heads[c := p], chains[c := [p] + chains[c]])
  {
    var mem', heads', chains' := mem[p := heads[c]], heads[c := p], chains[c := [p] + chains[c]];
    forall b | 0 <= b < LISTS ensures ListOk(blocks, live, mem', heads'[b], chains'[b], b) {
      assert ListOk(blocks, live, mem, heads[b], chains[b], b);
      assert p !in chains[b];
      LinkedFrame(mem, mem', heads[b], chains[b]);
    }
  }

  lemma PushAccounted(blocks: map<nat, nat>, live: set<nat>, chains: seq<seq<nat>>, p: nat, c: nat)
    requires Accounted(blocks, live, chains, [p]) && c < LISTS && p in blocks && blocks[p] == ListSize(c)
    ensures Accounted(blocks, live, chains[c := [p] + chains[c]], [])
  {
    var chains' := chains[c := [p] + chains[c]];
    forall q | q in blocks && q !in live
      ensures 0 < blocks[q] <= MAX_BYTES && q in chains'[ListIndex(blocks[q])]
    {
      if q == p {
        assert chains'[c][0] == p && ListIndex(blocks[p]) == c;
      } else {
        assert q in chains[ListIndex(blocks[q])];
      }
    }
  }

  lemma PopLists(blocks: map<nat, nat>, live: set<nat>, mem: map<nat, nat>, heads: seq<nat>, chains: seq<seq<nat>>,
                 c: nat)
    requires Lists(blocks, live, mem, heads, chains) && c < LISTS == |heads| && heads[c] != 0
    ensures |chains| == |heads| == LISTS && chains[c] != [] && chains[c][0] == heads[c]
    ensures heads[c] in blocks && blocks[heads[c]] == ListSize(c) && heads[c] !in live
    ensures Lists(blocks, live, mem, heads[c := Link(mem, heads[c])], chains[c := chains[c][1..]])
  {
    assert ListOk(blocks, live, mem, heads[c], chains[c], c);
    var heads', chains' := heads[c := Link(mem, heads[c])], chains[c := chains[c][1..]];
    forall b | 0 <= b < LISTS ensures ListOk(blocks, live, mem, heads'[b], chains'[b], b) {
      assert ListOk(blocks, live, mem, heads[b], chains[b], b);
    }
  }

  lemma PopAccounted(blocks: map<nat, nat>, live: set<nat>, mem: map<nat, nat>, heads: seq<nat>, chains: seq<seq<nat>>,
                     c: nat)
    requires Lists(blocks, live, mem, heads, chains) && Accounted(blocks, live, chains, []) && c < LISTS
    requires heads[c] != 0
    requires chains[c] != [] && chains[c][0] == heads[c]
    ensures Accounted(blocks, live, chains[c := chains[c][1..]], [heads[c]])
  {
    hide Linked;
    var p, chains' := heads[c], chains[c := chains[c][1..]];
    forall b | 0 <= b < LISTS ensures ListOk(blocks, live, mem, heads[b], chains[b], b) {
    }
    assert chains[c] == [p] + chains[c][1..];
    forall q, b | 0 <= b < LISTS && q in chains'[b] ensures q !in [p] {
    }
    forall q | q in blocks && q !in live && q !in [p]
      ensures 0 < blocks[q] <= MAX_BYTES && q in chains'[ListIndex(blocks[q])]
    {
      assert q in chains[ListIndex(blocks[q])];
    }
  }

  // ----- a block as the piece -----

  lemma BreakSizes(regions: Regions, blocks: map<nat, nat>, heapSize: nat, p: nat)
    requires Sizes(blocks, 0, 0, heapSize) && InMemory(regions, blocks, 0, 0) && p in blocks
    ensures Sizes(blocks - {p}, p, p + blocks[p], heapSize) && InMemory(regions, blocks - {p}, p, p + blocks[p])
  {
    hide Sum, Holds;
    SumRemove(blocks, p);
  }

  lemma BreakMembers(blocks: map<nat, nat>, live: set<nat>, mem: map<nat, nat>, heads: seq<nat>, chains: seq<seq<nat>>,
                     p: nat)
    requires Lists(blocks, live, mem, heads, chains) && Accounted(blocks, live, chains, [p])
    ensures Lists(blocks - {p}, live, mem, heads, chains) && Accounted(blocks - {p}, live, chains, [])
    ensures Undisturbed(live, blocks, blocks - {p})
  {
    hide Linked, Distinct;
    assert p in [p];
    forall c | 0 <= c < LISTS ensures ListOk(blocks - {p}, live, mem, heads[c], chains[c], c) {
      assert ListOk(blocks, live, mem, heads[c], chains[c], c);
      assert p !in chains[c];
    }
  }

  lemma Aligned(a: int, b: int)
    requires a % ALIGN == 0 && b % ALIGN == 0
    ensures (2 * a + b) % ALIGN == 0 && (a - b) % ALIGN == 0
  {
    var p, q := a / 8, b / 8;
    assert a == 8 * p && b == 8 * q;
    assert 2 * a + b == 8 * (2 * p + q) && a - b == 8 * (p - q);
  }

  lemma CutNumbers(n: nat, m: nat)
    requires n % ALIGN == 0
    ensures n * m == m * n && m * n % ALIGN == 0
  {
    var q := n / ALIGN;
    assert m * n == m * (ALIGN * q) == ALIGN * (m * q);
  }

  lemma PieceWithin(start: nat, n: nat, m: nat, p: nat)
    requires p in Pieces(start, n, m)
    ensures start <= p && p + n <= start + m * n
  {
    PieceStarts(start, n, m);
    var t :| 0 <= t < m && Pieces(start, n, m)[t] == p;
    hide Pieces;
    AtMost(t + 1, m, n);
    assert (t + 1) * n == t * n + n;
  }

  lemma AtMost(i: nat, j: nat, n: nat)
    requires i <= j
    ensures i * n <= j * n
  {
  }

  lemma ListSizes(a: nat, b: nat)
    requires 0 < a < b <= MAX_BYTES && a % ALIGN == 0 && b % ALIGN == 0
    ensures ListSize(ListIndex(a)) == a && ListIndex(a) < ListIndex(b)
  {
  }

  lemma ExactSize(n: nat)
    requires 0 < n <= MAX_BYTES && n % ALIGN == 0
    ensures ListIndex(n) < LISTS && ListSize(ListIndex(n)) == n
  {
  }

  // Every element of s from t on holds the address of the next.
  ghost predicate LinksFrom(mem: map<nat, nat>, s: seq<nat>, t: nat) {
    forall i :: t <= i < |s| ==> s[i] != 0 && Link(mem, s[i]) == After(s, i)
  }

  function After(s: seq<nat>, i: nat): nat
    requires i < |s|
  {
    if i == |s| - 1 then 0 else s[i + 1]
  }

  lemma {:induction false} LinkedSequence(mem: map<nat, nat>, s: seq<nat>, t: nat)
    requires t <= |s| && LinksFrom(mem, s, t)
    ensures Linked(mem, if t == |s| then 0 else s[t], s[t..])
    decreases |s| - t
  {
    if t < |s| {
      LinkedSequence(mem, s, t + 1);
      var rest := s[t..];
      assert rest[0] == s[t] && rest[1..] == s[t + 1..];
      assert Link(mem, s[t]) == After(s, t);
    }
  }

  // The links before i stay when that at i is written; the last one completes the list.
  lemma LinkWritten(mem: map<nat, nat>, s: seq<nat>, n: nat, i: nat, v: nat)
    requires Distinct(s) && Spaced(s, n) && 1 <= i < |s| && forall t :: 1 <= t < i ==> Link(mem, s[t]) == s[t + 1]
    ensures forall t :: 1 <= t < i ==> Link(mem[s[i] := v], s[t]) == s[t + 1]
    ensures Link(mem[s[i] := v], s[i]) == v
    ensures v == 0 && i == |s| - 1 ==> LinksFrom(mem[s[i] := v], s, 1)
  {
    var w := mem[s[i] := v];
    if v == 0 && i == |s| - 1 {
      forall t | 1 <= t < |s| ensures s[t] != 0 && Link(w, s[t]) == After(s, t) {
        assert s[t] == s[t - 1] + n;
      }
    }
  }

  // Each one starts n behind the one before it.
  ghost predicate Spaced(s: seq<nat>, n: nat) {
    n > 0 && forall i :: 1 <= i < |s| ==> s[i] == s[i - 1] + n
  }

  lemma PiecesSpaced(start: nat, n: nat, m: nat)
    requires 0 < n && 0 < m
    ensures Pieces(start, n, m)[0] == start && Spaced(Pieces(start, n, m), n) && Distinct(Pieces(start, n, m))
  {
    PieceStarts(start, n, m);
    forall i | 1 <= i < m ensures Pieces(start, n, m)[i] == Pieces(start, n, m)[i - 1] + n {
      Scale(i, n);
    }
    forall i, j | 0 <= i < j < m ensures Pieces(start, n, m)[i] != Pieces(start, n, m)[j] {
      PiecesAscend(start, n, m, i, j);
    }
  }

  lemma {:induction false} PiecesAscend(start: nat, n: nat, m: nat, i: nat, j: nat)
    requires 0 < n && i < j < m
    ensures Pieces(start, n, m)[i] < Pieces(start, n, m)[j]
  {
    PieceStarts(start, n, m);
    Ahead(i, j, n);
    hide Pieces;
  }

  lemma Ahead(i: nat, j: nat, n: nat)
    requires 0 < n && i < j
    ensures i * n < j * n
  {
  }

  /** All but the first of the new blocks make a list; the first goes to the client. */
  lemma ServePieces(blocks: map<nat, nat>, live: set<nat>, mem: map<nat, nat>, mem': map<nat, nat>, heads: seq<nat>,
                    chains: seq<seq<nat>>, pieces: seq<nat>, n: nat, c: nat, head: nat)
    requires Lists(blocks, live, mem, heads, chains) && Accounted(blocks, live, chains, pieces) && Distinct(pieces)
    requires 0 < n <= MAX_BYTES && pieces != [] && c < LISTS && ListSize(c) == n && ListIndex(n) == c && chains[c] == []
    requires forall p :: p in pieces ==> p in blocks && blocks[p] == n
    requires forall p :: p !in pieces ==> Link(mem', p) == Link(mem, p)
    requires Linked(mem', head, pieces[1..])
    ensures Lists(blocks, live + {pieces[0]}, mem', heads[c := head], chains[c := pieces[1..]])
    ensures Accounted(blocks, live + {pieces[0]}, chains[c := pieces[1..]], [])
  {
    hide Linked, ListIndex, ListSize;
    var heads', chains', live' := heads[c := head], chains[c := pieces[1..]], live + {pieces[0]};
    assert pieces[0] in pieces;
    forall b | 0 <= b < LISTS ensures ListOk(blocks, live', mem', heads'[b], chains'[b], b) {
      assert ListOk(blocks, live, mem, heads[b], chains[b], b);
      if b != c {
        LinkedFrame(mem, mem', heads[b], chains[b]);
      }
    }
    forall p | p in blocks && p !in live'
      ensures 0 < blocks[p] <= MAX_BYTES && p in chains'[ListIndex(blocks[p])]
    {
      if p in pieces {
        assert p in pieces[1..];
      } else {
        assert p in chains[ListIndex(blocks[p])];
      }
    }
  }

  // ----- the allocator -----

  // An allocation either returns a block, or fails as malloc_alloc does when there is no
  // memory and no handler to make some.
  datatype Outcome = Block(address: nat) | OutOfMemory

  // What the allocator can serve from: the piece, the lists, and malloc.
  datatype State = State(start: nat, end: nat, heap: nat, chains: seq<seq<nat>>, asked: Log)

  function Min(a: nat, b: nat): nat { if a < b then a else b }

  function TotalBytes(size: nat, nobjs: nat): nat { size * nobjs }

  // How much malloc is asked for.
  function BytesFor(size: nat, count: nat, heapSize: nat): nat {
    2 * TotalBytes(size, count) + RoundUp(heapSize / 16)
  }

  // The lists with the left-over piece on the one of its size.
  ghost function Kept(chains: seq<seq<nat>>, start: nat, left: nat): (kept: seq<seq<nat>>)
    requires |chains| == LISTS
    ensures |kept| == LISTS
  {
    if 0 < left <= MAX_BYTES then chains[ListIndex(left) := [start] + chains[ListIndex(left)]] else chains
  }

  // The first list from c up that has a block.
  ghost function FirstFree(chains: seq<seq<nat>>, c: nat): (f: nat)
    requires c <= |chains|
    ensures c <= f <= |chains| && (f < |chains| ==> chains[f] != []) && forall b :: c <= b < f ==> chains[b] == []
    decreases |chains| - c
  {
    if c == |chains| || chains[c] != [] then c else FirstFree(chains, c + 1)
  }

  // As many blocks as there is room for, up to count, are cut off the front of the piece.
  ghost predicate CutOff(s: State, s': State, size: nat, count: nat, chunk: nat, nobjs: nat) {
    && 0 < size && s.start <= s.end && chunk == s.start && nobjs == Min(count, (s.end - s.start) / size)
    && s' == s.(start := chunk + TotalBytes(size, nobjs))
  }

  // How a piece of n bytes is replaced that is too short for one block: what is left of it
  // goes to its list; then malloc is asked, then the lists of larger blocks, then malloc again.
  ghost predicate Supplies(s: State, s': State, size: nat, n: nat, ok: bool) {
    && 0 < size <= MAX_BYTES && |s.chains| == LISTS && s.start <= s.end
    && var c, kept := FirstFree(s.chains, ListIndex(size)), Kept(s.chains, s.start, s.end - s.start);
       if s'.asked == s.asked + [(n, true)] then
         ok && s' == State(s'.start, s'.start + n, s.heap + n, kept, s'.asked)
       else if c < LISTS then
         var p := s.chains[c][0];
         ok && s' == State(p, p + ListSize(c), s.heap, kept[c := s.chains[c][1..]], s.asked + [(n, false)])
       else if ok then s' == State(s'.start, s'.start + n, s.heap + n, kept, s.asked + [(n, false), (n, true)])
       else s' == State(0, 0, s.heap, kept, s.asked + [(n, false), (n, false)])
  }

  // What _S_chunk_alloc does.
  ghost predicate Cuts(s: State, s': State, size: nat, count: nat, ok: bool, chunk: nat, nobjs: nat) {
    && s.start <= s.end
    && if s.end - s.start >= size then ok && CutOff(s, s', size, count, chunk, nobjs)
       else
         && Supplies(s, s'.(start := chunk), size, BytesFor(size, count, s.heap), ok)
         && if ok then CutOff(s'.(start := chunk), s', size, count, chunk, nobjs) else s'.start == chunk == 0
  }

  // What _S_refill does: the first of these blocks goes to the client, the others to the list.
  ghost predicate Refills(s: State, s': State, n: nat, result: Outcome) {
    && 0 < n <= MAX_BYTES && |s'.chains| == LISTS
    && var c := ListIndex(n);
       match result
       case OutOfMemory => Cuts(s, s', n, REFILL_COUNT, false, 0, 0)
       case Block(p) =>
         var nobjs := |s'.chains[c]| + 1;
         && s'.chains[c] == Pieces(p, n, nobjs)[1..]
         && Cuts(s, s'.(chains := s'.chains[c := []]), n, REFILL_COUNT, true, p, nobjs)
  }

  // What allocate does.
  ghost predicate Allocates(s: State, s': State, n: nat, result: Outcome) {
    && 0 < n && |s.chains| == LISTS
    && if n > MAX_BYTES then s' == s.(asked := s.asked + [(n, result.Block?)])
       else
         var c := ListIndex(n);
         if s.chains[c] == [] then Refills(s, s', RoundUp(n), result)
         else result == Block(s.chains[c][0]) && s' == s.(chains := s.chains[c := s.chains[c][1..]])
  }

  /** A small request fails only if nothing that is free is long enough, and malloc has refused
      twice; and then it does. */
  lemma OutOfMemoryMeans(s: State, s': State, n: nat, result: Outcome)
    requires Allocates(s, s', n, result) && n <= MAX_BYTES && s.start <= s.end
    ensures var bytes := BytesFor(RoundUp(n), REFILL_COUNT, s.heap);
      result == OutOfMemory <==>
      && s.end - s.start < RoundUp(n) && (forall c :: ListIndex(n) <= c < LISTS ==> s.chains[c] == [])
      && s'.asked == s.asked + [(bytes, false), (bytes, false)]
  {
    assert ListIndex(RoundUp(n)) == ListIndex(n);
    if s.chains[ListIndex(n)] == [] {
      var c := FirstFree(s.chains, ListIndex(n));
      if c < LISTS { assert s.chains[c] != []; }
      TwoRequests(s.asked, BytesFor(RoundUp(n), REFILL_COUNT, s.heap));
    }
  }

  lemma TwoRequests(asked: Log, n: nat)
    ensures asked + [(n, false)] != asked + [(n, true)]
    ensures forall ok :: asked + [(n, false), (n, ok)] == asked + [(n, false)] + [(n, ok)] != asked + [(n, true)]
    ensures asked + [(n, false), (n, false)] != asked + [(n, false), (n, true)]
  {
    assert (asked + [(n, false)])[|asked|] == (n, false) && (asked + [(n, true)])[|asked|] == (n, true);
    forall ok ensures asked + [(n, false), (n, ok)] == asked + [(n, false)] + [(n, ok)] != asked + [(n, true)] {
      assert |asked + [(n, false), (n, ok)]| == |asked + [(n, true)]| + 1;
    }
    assert (asked + [(n, false), (n, false)])[|asked| + 1] == (n, false);
    assert (asked + [(n, false), (n, true)])[|asked| + 1] == (n, true);
  }

  /** As long as malloc gives what it is asked for, no request fails. */
  lemma ServedWhileGranted(s: State, s': State, n: nat, result: Outcome)
    requires Allocates(s, s', n, result) && s.start <= s.end
    ensures result == OutOfMemory ==> s'.asked != [] && !s'.asked[|s'.asked| - 1].1
    ensures s.asked <= s'.asked
  {
    hide BytesFor;
    if n <= MAX_BYTES {
      OutOfMemoryMeans(s, s', n, result);
    }
  }

  class Pool {
    const memory: Memory
    const heads: array<nat>      // _S_free_list
    var mem: map<nat, nat>       // the words that the allocator writes into free blocks
    var startFree: nat
    var endFree: nat
    var heapSize: nat

    // All blocks that have been cut, with their sizes; those in use by the clients; the
    // lists as sequences; what the pool has from malloc, and what clients have from it
    // directly.
    ghost var blocks: map<nat, nat>
    ghost var live: set<nat>
    ghost var chains: seq<seq<nat>>
    ghost var owned: Regions
    ghost var large: map<nat, nat>

    // pending are blocks that are being handed over; lo and hi bound the piece that
    // blocks are cut from.
    ghost predicate Consistent(lo: nat, hi: nat, pending: seq<nat>)
      reads this, heads, memory
    {
      && Lists(blocks, live, mem, heads[..], chains)
      && Accounted(blocks, live, chains, pending)
      && Sizes(blocks, lo, hi, heapSize)
      && InMemory(owned, blocks, lo, hi)
      && Backed(memory.regions, owned, large)
    }

    ghost predicate Valid()
      reads this, heads, memory
    {
      Consistent(startFree, endFree, [])
    }

    ghost function Now(): State
      reads this, memory
    {
      State(startFree, endFree, heapSize, chains, memory.asked)
    }

    // What malloc has handed out to others than this allocator.
    ghost function Elsewhere(): int
      reads this, memory
    {
      Obtained(memory.regions) - heapSize - Sum(large)
    }

    constructor (memory: Memory)
      requires DistinctStarts(memory.regions)
      ensures Valid() && fresh(heads) && this.memory == memory
      ensures live == {} && large == map[] && Now() == State(0, 0, 0, seq(LISTS, _ => []), memory.asked)
    {
      this.memory := memory;
      heads := new nat[LISTS](_ => 0);
      mem := map[];
      startFree, endFree, heapSize := 0, 0, 0;
      blocks, live, owned, large := map[], {}, [], map[];
      chains := seq(LISTS, _ => []);
      new;
      hide Lists, Accounted, Sizes, InMemory, Backed;
      assert heads[..] == seq(LISTS, _ => 0);
      EmptyPool(memory.regions);
    }

    // The first two cases of _S_chunk_alloc: cuts blocks off the front of the piece.
    method Carve(size: nat, nobjs: nat) returns (chunk: nat)
      requires Valid() && 0 < size <= MAX_BYTES && size % ALIGN == 0 && 0 < nobjs
      requires startFree + TotalBytes(size, nobjs) <= endFree
      modifies this`startFree, this`blocks
      ensures chunk == old(startFree) && chunk != 0 && startFree == chunk + TotalBytes(size, nobjs)
      ensures Consistent(startFree, endFree, Pieces(chunk, size, nobjs))
      ensures Undisturbed(live, old(blocks), blocks)
      ensures forall p :: p in Pieces(chunk, size, nobjs) ==> p in blocks && blocks[p] == size
    {
      hide Lists, Accounted, Sizes, InMemory, Backed, Cut, Pieces, Undisturbed;
      CarveSizes(blocks, startFree, endFree, heapSize, size, nobjs);
      CarveMembers(blocks, live, mem, heads[..], chains, startFree, endFree, heapSize, size, nobjs);
      CarveMemory(owned, blocks, startFree, endFree, heapSize, size, nobjs);
      CutFacts(blocks, startFree, endFree, heapSize, size, nobjs);
      chunk := startFree;
      blocks := Cut(blocks, chunk, size, nobjs);
      startFree := startFree + TotalBytes(size, nobjs);
    }

    // Puts what is left of the piece on the list of its size.
    method KeepLeftover(size: nat)
      requires Valid() && 0 < endFree - startFree < size <= MAX_BYTES && size % ALIGN == 0
      modifies this`mem, this`chains, this`blocks, heads
      ensures Consistent(0, 0, []) && Undisturbed(live, old(blocks), blocks)
      ensures |old(chains)| == LISTS && chains == Kept(old(chains), startFree, endFree - startFree)
      ensures forall c :: ListIndex(size) <= c < LISTS ==> chains[c] == old(chains)[c]
    {
      hide Sizes, InMemory, Backed, Undisturbed, ListOk;
      var left := endFree - startFree;
      LeftoverSizes(owned, blocks, startFree, endFree, heapSize);
      LeftoverMembers(blocks, live, mem, heads[..], chains, startFree, left);
      LeftoverClass(left, size, startFree, endFree, blocks, heapSize);
      var c := ListIndex(left);
      ghost var b := blocks[startFree := left];
      PushLists(b, live, mem, heads[..], chains, [startFree], startFree, c);
      PushAccounted(b, live, chains, startFree, c);
      ghost var h := heads[..];
      blocks := b;
      mem := mem[startFree := heads[c]];
      heads[c] := startFree;
      chains := chains[c := [startFree] + chains[c]];
      assert heads[..] == h[c := startFree];
    }

    // Takes a free block of a list for the piece.
    method BreakBlock(size: nat)
      requires Consistent(0, 0, []) && 0 < size <= MAX_BYTES && size % ALIGN == 0
      requires heads.Length == LISTS && heads[ListIndex(size)] != 0
      modifies this`chains, this`blocks, this`startFree, this`endFree, heads
      ensures Valid() && Undisturbed(live, old(blocks), blocks)
      ensures |old(chains)| == LISTS && old(chains)[ListIndex(size)] != []
      ensures startFree == old(chains)[ListIndex(size)][0] && endFree == startFree + size
      ensures chains == old(chains)[ListIndex(size) := old(chains)[ListIndex(size)][1..]]
    {
      hide Lists, Accounted, Sizes, InMemory, Backed, Undisturbed;
      var c := ListIndex(size);
      var p := heads[c];
      PopLists(blocks, live, mem, heads[..], chains, c);
      PopAccounted(blocks, live, mem, heads[..], chains, c);
      BreakMembers(blocks, live, mem, heads[..][c := Link(mem, p)], chains[c := chains[c][1..]], p);
      BreakSizes(owned, blocks, heapSize, p);
      ghost var h := heads[..];
      heads[c] := Link(mem, p);
      assert heads[..] == h[c := Link(mem, p)];
      chains := chains[c := chains[c][1..]];
      blocks := blocks - {p};
      startFree := p;
      endFree := startFree + size;
    }

    // The loop of _S_chunk_alloc over the lists of blocks that are large enough.
    method TryLargerLists(size: nat) returns (found: bool)
      requires Consistent(0, 0, []) && 0 < size <= MAX_BYTES && size % ALIGN == 0
      requires chains[ListIndex(size)] == []
      modifies this`chains, this`blocks, this`startFree, this`endFree, heads
      ensures |old(chains)| == LISTS && found == (FirstFree(old(chains), ListIndex(size)) < LISTS)
      ensures if found then Valid() && Undisturbed(live, old(blocks), blocks)
              else Consistent(0, 0, []) && blocks == old(blocks) && chains == old(chains)
                   && startFree == old(startFree) && endFree == old(endFree)
      ensures found ==> var c := FirstFree(old(chains), ListIndex(size));
                && startFree == old(chains)[c][0] && endFree == startFree + ListSize(c)
                && chains == old(chains)[c := old(chains)[c][1..]]
    {
      hide Lists, Sizes, InMemory, Backed, Undisturbed, Accounted, FirstFree, ListIndex;
      StateFacts(blocks, live, mem, heads[..], chains, 0, 0, heapSize);
      ExactSize(size);
      ghost var h := heads[..];
      var i := size;
      while i <= MAX_BYTES
        invariant size <= i && i % ALIGN == 0
        invariant FirstFree(chains, ListIndex(size)) ==
                  if i <= MAX_BYTES then FirstFree(chains, ListIndex(i)) else LISTS
        modifies {}
      {
        NextList(chains, i);
        ExactSize(i);
        EmptyList(blocks, live, mem, h, chains, ListIndex(i));
        if heads[ListIndex(i)] != 0 {
          break;
        }
        i := i + ALIGN;
      }
      found := i <= MAX_BYTES;
      if found {
        BreakBlock(i);
      }
    }

    // The last case of _S_chunk_alloc: replaces the piece by a larger one.  When malloc
    // fails, the lists of blocks that are large enough are searched; when that fails too,
    // malloc_alloc::allocate gives up after another try.
    method NewPiece(size: nat, bytesToGet: nat) returns (ok: bool)
      requires Valid() && 0 < size <= MAX_BYTES && size % ALIGN == 0 && chains[ListIndex(size)] == []
      requires endFree - startFree < size <= bytesToGet && bytesToGet % ALIGN == 0
      modifies this`mem, this`chains, this`blocks, this`startFree, this`endFree, this`heapSize, this`owned
      modifies heads, memory
      ensures Valid() && Undisturbed(live, old(blocks), blocks)
      ensures |chains| == LISTS && chains[ListIndex(size)] == []
      ensures ok ==> size <= endFree - startFree
      ensures Supplies(old(Now()), Now(), size, bytesToGet, ok)
      ensures Elsewhere() == old(Elsewhere())
    {
      hide Lists, Sizes, InMemory, Backed, Undisturbed, Accounted, FirstFree;
      StateFacts(blocks, live, mem, heads[..], chains, startFree, endFree, heapSize);
      UndisturbedSame(blocks, live, chains, []);
      ghost var before := blocks;
      if endFree - startFree > 0 {
        KeepLeftover(size);
      } else {
        EmptyPiece(owned, blocks, startFree, endFree, heapSize);
      }
      ghost var kept := blocks;
      KeptSupplies(old(Now()), size);
      ok := ObtainPiece(size, bytesToGet);
      UndisturbedTransitive(live, before, kept, blocks);
    }

    method ObtainPiece(size: nat, bytesToGet: nat) returns (ok: bool)
      requires Consistent(0, 0, []) && 0 < size <= MAX_BYTES && size % ALIGN == 0 && chains[ListIndex(size)] == []
      requires size <= bytesToGet && bytesToGet % ALIGN == 0
      modifies this`chains, this`blocks, this`startFree, this`endFree, this`heapSize, this`owned, heads, memory
      ensures Valid() && Undisturbed(live, old(blocks), blocks)
      ensures |chains| == LISTS && chains[ListIndex(size)] == []
      ensures ok ==> size <= endFree - startFree
      ensures Supplies(old(Now()).(start := 0, end := 0), Now(), size, bytesToGet, ok)
      ensures Elsewhere() == old(Elsewhere())
    {
      hide Lists, Sizes, InMemory, Undisturbed, Accounted, Obtained, Backed, Sum, FirstFree;
      StateFacts(blocks, live, mem, heads[..], chains, 0, 0, heapSize);
      BackedStarts(memory.regions, owned, large);
      UndisturbedSame(blocks, live, chains, []);
      ghost var regions := memory.regions;
      startFree := memory.Malloc(bytesToGet);
      if startFree == 0 {
        var found := TryLargerLists(size);
        TwoRequests(old(memory.asked), bytesToGet);
        if found {
          return true;
        }
        endFree := 0;
        startFree := memory.Malloc(bytesToGet);
        if startFree == 0 {
          return false;
        }
      }
      Adopt(startFree, bytesToGet, regions);
      return true;
    }

    // What malloc has given becomes the piece.
    method Adopt(p: nat, n: nat, ghost before: Regions)
      requires Lists(blocks, live, mem, heads[..], chains) && Accounted(blocks, live, chains, [])
      requires Sizes(blocks, 0, 0, heapSize) && InMemory(owned, blocks, 0, 0) && Backed(before, owned, large)
      requires memory.regions == before + [(p, n)] && IsNew(before, p, n) && 0 < p && 0 < n && n % ALIGN == 0
      modifies this`startFree, this`endFree, this`heapSize, this`owned
      ensures Valid() && startFree == p && endFree == p + n && heapSize == old(heapSize) + n
      ensures Elsewhere() == Obtained(before) - old(heapSize) - Sum(large)
    {
      hide Lists, Sizes, InMemory, Accounted, Obtained, Backed, Sum;
      OwnedMore(before, owned, large, p, n);
      MoreMemory(owned, blocks, heapSize, p, n);
      ObtainedMore(before, p, n);
      owned := owned + [(p, n)];
      heapSize := heapSize + n;
      startFree := p;
      endFree := p + n;
    }

    // _S_chunk_alloc: fewer blocks than asked for may be cut, but at least one.
    method ChunkAlloc(size: nat, count: nat) returns (ok: bool, chunk: nat, nobjs: nat)
      requires Valid() && 0 < size <= MAX_BYTES && size % ALIGN == 0 && 0 < count
      requires chains[ListIndex(size)] == []
      modifies this`mem, this`chains, this`blocks, this`startFree, this`endFree, this`heapSize, this`owned
      modifies heads, memory
      ensures Undisturbed(live, old(blocks), blocks) && |chains| == LISTS && chains[ListIndex(size)] == []
      ensures if ok then chunk != 0 && 1 <= nobjs <= count && Consistent(startFree, endFree, Pieces(chunk, size, nobjs))
              else Valid()
      ensures Cuts(old(Now()), Now(), size, count, ok, chunk, nobjs)
      ensures ok ==> forall p :: p in Pieces(chunk, size, nobjs) ==> p in blocks && blocks[p] == size
      ensures Elsewhere() == old(Elsewhere())
      decreases if endFree - startFree >= size then 0 else 1
    {
      hide Lists, Sizes, InMemory, Backed, Undisturbed, Accounted, Pieces, Supplies, Cuts, BytesFor, RoundUp,
        TotalBytes;
      ghost var before, s := blocks, Now();
      StateFacts(blocks, live, mem, heads[..], chains, startFree, endFree, heapSize);
      var bytesLeft := endFree - startFree;
      if bytesLeft >= TotalBytes(size, count) {
        chunk := Carve(size, count);
        CutsAll(s, Now(), size, count, chunk, bytesLeft);
        return true, chunk, count;
      }
      if bytesLeft >= size {
        nobjs := bytesLeft / size;
        AsManyAsFit(bytesLeft, size, count, nobjs);
        chunk := Carve(size, nobjs);
        CutsSome(s, Now(), size, count, chunk, nobjs, bytesLeft);
        return true, chunk, nobjs;
      }
      var bytesToGet := BytesFor(size, count, heapSize);
      BytesToGet(size, count, heapSize);
      ok := NewPiece(size, bytesToGet);
      if !ok {
        CutsNothing(s, Now(), size, count);
        return false, 0, 0;
      }
      ghost var mid, s1 := blocks, Now();
      ok, chunk, nobjs := ChunkAlloc(size, count);
      UndisturbedTransitive(live, before, mid, blocks);
      CutsThen(s, s1, Now(), size, count, ok, chunk, nobjs);
    }

    // _S_refill: one block for the client, the others for the list.
    method Refill(n: nat) returns (result: Outcome)
      requires Valid() && 0 < n <= MAX_BYTES && n % ALIGN == 0 && chains[ListIndex(n)] == []
      modifies this`mem, this`chains, this`blocks, this`live, this`startFree, this`endFree, this`heapSize,
        this`owned, heads, memory
      ensures Valid() && Undisturbed(old(live), old(blocks), blocks)
      ensures Elsewhere() == old(Elsewhere())
      ensures match result
        case Block(p) => p !in old(live) && live == old(live) + {p} && p in blocks && blocks[p] == n
        case OutOfMemory => live == old(live)
      ensures Refills(old(Now()), Now(), n, result)
    {
      hide Lists, Sizes, InMemory, Backed, Undisturbed, Accounted, Linked, Distinct, Spaced, ListIndex, ListSize, Link,
        Cuts;
      ghost var s := Now();
      ExactSize(n);
      var ok, chunk, nobjs := ChunkAlloc(n, REFILL_COUNT);
      if !ok {
        CutsNone(s, Now(), n, REFILL_COUNT, chunk, nobjs);
        return OutOfMemory;
      }
      ghost var pieces, cut := Pieces(chunk, n, nobjs), Now();
      PiecesSpaced(chunk, n, nobjs);
      ghost var before := mem;
      var c := ListIndex(n);
      StateFacts(blocks, live, mem, heads[..], chains, startFree, endFree, heapSize);
      ghost var h := heads[..];
      EmptyList(blocks, live, mem, h, chains, c);
      PendingNotLive(blocks, live, chains, pieces, chunk);
      if nobjs > 1 {
        heads[c] := chunk + n;
        LinkPieces(chunk, n, nobjs, pieces);
      } else {
        LinkedSequence(mem, pieces, 1);
      }
      ghost var head: nat := if nobjs == 1 then 0 else chunk + n;
      assert heads[..] == h[c := head];
      ServePieces(blocks, live, before, mem, h, chains, pieces, n, c, head);
      chains := chains[c := pieces[1..]];
      live := live + {chunk};
      RefillsWith(s, cut, Now(), n, c, chunk, nobjs);
      return Block(chunk);
    }

    // The loop of _S_refill, which writes the links into the blocks.
    method LinkPieces(chunk: nat, n: nat, nobjs: nat, ghost pieces: seq<nat>)
      requires 1 < nobjs == |pieces| && pieces[1] == chunk + n && Distinct(pieces) && Spaced(pieces, n)
      modifies this`mem
      ensures forall p :: p !in pieces ==> Link(mem, p) == Link(old(mem), p)
      ensures Linked(mem, chunk + n, pieces[1..])
    {
      hide Linked, Distinct, LinksFrom;
      var next, i := chunk + n, 1;
      while true
        invariant 1 <= i < nobjs && next == pieces[i]
        invariant forall t :: 1 <= t < i ==> Link(mem, pieces[t]) == pieces[t + 1]
        invariant forall p :: p !in pieces ==> Link(mem, p) == Link(old(mem), p)
        decreases nobjs - i
      {
        var current := next;
        next := next + n;
        if nobjs - 1 == i {
          LinkWritten(mem, pieces, n, i, 0);
          mem := mem[current := 0];
          break;
        }
        LinkWritten(mem, pieces, n, i, next);
        mem := mem[current := next];
        i := i + 1;
      }
      LinkedSequence(mem, pieces, 1);
    }

    // allocate
    method Allocate(n: nat) returns (result: Outcome)
      requires Valid() && 0 < n
      modifies this, heads, memory
      ensures Valid() && Undisturbed(old(live), old(blocks), blocks)
      ensures Elsewhere() == old(Elsewhere())
      ensures match result
        case Block(p) =>
          if n <= MAX_BYTES then
            p !in old(live) && live == old(live) + {p} && p in blocks && blocks[p] == RoundUp(n) && large == old(large)
          else p !in old(large) && large == old(large)[p := n] && live == old(live)
        case OutOfMemory => live == old(live) && large == old(large)
      ensures Allocates(old(Now()), Now(), n, result)
    {
      hide Lists, Sizes, InMemory, Backed, Undisturbed, Accounted, Refills;
      StateFacts(blocks, live, mem, heads[..], chains, startFree, endFree, heapSize);
      if n > MAX_BYTES {
        result := AllocateDirectly(n);
      } else {
        result := AllocateSmall(n);
      }
    }

    // malloc_alloc::allocate, without a handler that could make some memory
    method AllocateDirectly(n: nat) returns (result: Outcome)
      requires Valid() && MAX_BYTES < n
      modifies this`large, memory
      ensures Valid() && Elsewhere() == old(Elsewhere()) && Undisturbed(live, blocks, blocks)
      ensures match result
        case Block(p) => p !in old(large) && large == old(large)[p := n]
        case OutOfMemory => large == old(large)
      ensures Now() == old(Now()).(asked := old(memory.asked) + [(n, result.Block?)])
    {
      hide Lists, Sizes, InMemory, Backed, Undisturbed, Accounted, Sum, Obtained;
      UndisturbedSame(blocks, live, chains, []);
      BackedStarts(memory.regions, owned, large);
      ghost var regions := memory.regions;
      var p := memory.Malloc(n);
      if p == 0 {
        return OutOfMemory;
      }
      LargeMore(regions, owned, large, p, n);
      ObtainedMore(regions, p, n);
      SumAdd(large, p, n);
      large := large[p := n];
      result := Block(p);
    }

    // The rest of allocate: the first block of the list, or a new one.
    method AllocateSmall(n: nat) returns (result: Outcome)
      requires Valid() && 0 < n <= MAX_BYTES
      modifies this`mem, this`chains, this`blocks, this`live, this`startFree, this`endFree, this`heapSize,
        this`owned, heads, memory
      ensures Valid() && Undisturbed(old(live), old(blocks), blocks)
      ensures Elsewhere() == old(Elsewhere())
      ensures match result
        case Block(p) => p !in old(live) && live == old(live) + {p} && p in blocks && blocks[p] == RoundUp(n)
        case OutOfMemory => live == old(live)
      ensures Allocates(old(Now()), Now(), n, result)
    {
      hide Lists, Sizes, InMemory, Backed, Undisturbed, Accounted, Refills;
      var c := ListIndex(n);
      StateFacts(blocks, live, mem, heads[..], chains, startFree, endFree, heapSize);
      EmptyList(blocks, live, mem, heads[..], chains, c);
      var p := heads[c];
      if p == 0 {
        result := Refill(RoundUp(n));
      } else {
        PopLists(blocks, live, mem, heads[..], chains, c);
        PopAccounted(blocks, live, mem, heads[..], chains, c);
        UndisturbedSame(blocks, live, chains, []);
        ghost var h := heads[..];
        heads[c] := Link(mem, p);
        assert heads[..] == h[c := Link(mem, p)];
        chains := chains[c := chains[c][1..]];
        Serve(blocks, live, mem, heads[..], chains, p);
        live := live + {p};
        result := Block(p);
      }
    }

    // What a client may give back, or write into: a block with its size.
    ghost predicate InUse(p: nat, n: nat)
      reads this
    {
      0 < n &&
      if n <= MAX_BYTES then p in live && p in blocks && blocks[p] == RoundUp(n) else p in large && large[p] == n
    }

    // deallocate
    method Deallocate(p: nat, n: nat)
      requires Valid() && InUse(p, n)
      modifies this, heads, memory
      ensures Valid() && blocks == old(blocks) && heapSize == old(heapSize) && Elsewhere() == old(Elsewhere())
      ensures |chains| == |old(chains)| == LISTS
      ensures if n <= MAX_BYTES
              then live == old(live) - {p} && large == old(large)
                   && Now() == old(Now()).(chains := old(chains)[ListIndex(n) := [p] + old(chains)[ListIndex(n)]])
              else live == old(live) && large == old(large) - {p} && Now() == old(Now())
    {
      hide Lists, Sizes, InMemory, Backed, Accounted;
      StateFacts(blocks, live, mem, heads[..], chains, startFree, endFree, heapSize);
      if n > MAX_BYTES {
        DeallocateDirectly(p, n);
        return;
      }
      var c := ListIndex(n);
      TakeBack(blocks, live, mem, heads[..], chains, startFree, endFree, heapSize, p);
      live := live - {p};
      PushLists(blocks, live, mem, heads[..], chains, [p], p, c);
      PushAccounted(blocks, live, chains, p, c);
      ghost var h := heads[..];
      mem := mem[p := heads[c]];
      heads[c] := p;
      assert heads[..] == h[c := p];
      chains := chains[c := [p] + chains[c]];
    }

    // malloc_alloc::deallocate
    method DeallocateDirectly(p: nat, ghost n: nat)
      requires Valid() && p in large && large[p] == n
      modifies this`large, memory
      ensures Valid() && large == old(large) - {p} && Elsewhere() == old(Elsewhere()) && Now() == old(Now())
    {
      hide Lists, Sizes, InMemory, Backed, Accounted, Sum, Obtained;
      ghost var i := LargeLess(memory.regions, owned, large, p);
      BackedStarts(memory.regions, owned, large);
      ObtainedLess(memory.regions, i);
      SumRemove(large, p);
      memory.Free(p, i);
      large := large - {p};
    }

    // A client writes into memory that it has been given.
    method Write(p: nat, n: nat, offset: nat, v: nat)
      requires Valid() && InUse(p, n) && offset < n
      modifies this`mem
      ensures Valid()
    {
      hide Lists, Sizes, InMemory, Backed, Accounted;
      if n <= MAX_BYTES {
        InsideBlock(blocks, startFree, endFree, heapSize, p, p + offset);
      } else {
        InsideLarge(memory.regions, owned, large, blocks, startFree, endFree, heapSize, p, p + offset);
      }
      LinksUntouched(blocks, live, mem, heads[..], chains, p + offset, v);
      mem := mem[p + offset := v];
    }
  }

  lemma EmptyPool(regions: Regions)
    requires DistinctStarts(regions)
    ensures var chains: seq<seq<nat>> := seq(LISTS, _ => []);
      Lists(map[], {}, map[], seq(LISTS, _ => 0), chains) && Accounted(map[], {}, chains, [])
    ensures Sizes(map[], 0, 0, 0) && InMemory([], map[], 0, 0) && Backed(regions, [], map[])
  {
  }

  lemma PendingNotLive(blocks: map<nat, nat>, live: set<nat>, chains: seq<seq<nat>>, pending: seq<nat>, p: nat)
    requires Accounted(blocks, live, chains, pending) && p in pending
    ensures p !in live
  {
  }

  lemma UndisturbedSame(blocks: map<nat, nat>, live: set<nat>, chains: seq<seq<nat>>, pending: seq<nat>)
    requires Accounted(blocks, live, chains, pending)
    ensures Undisturbed(live, blocks, blocks)
  {
  }

  // A block that has been taken off its list becomes a client's.
  lemma Serve(blocks: map<nat, nat>, live: set<nat>, mem: map<nat, nat>, heads: seq<nat>, chains: seq<seq<nat>>, p: nat)
    requires Lists(blocks, live, mem, heads, chains) && Accounted(blocks, live, chains, [p])
    ensures Lists(blocks, live + {p}, mem, heads, chains) && Accounted(blocks, live + {p}, chains, [])
  {
    hide Linked, Distinct;
    assert p in [p];
    forall c | 0 <= c < LISTS ensures ListOk(blocks, live + {p}, mem, heads[c], chains[c], c) {
      assert ListOk(blocks, live, mem, heads[c], chains[c], c);
      assert p !in chains[c];
    }
  }

  // A client's block becomes one that waits for its list.
  lemma TakeBack(blocks: map<nat, nat>, live: set<nat>, mem: map<nat, nat>, heads: seq<nat>, chains: seq<seq<nat>>,
                 lo: nat, hi: nat, heapSize: nat, p: nat)
    requires Lists(blocks, live, mem, heads, chains) && Accounted(blocks, live, chains, []) && p in live
    requires Sizes(blocks, lo, hi, heapSize)
    ensures Lists(blocks, live - {p}, mem, heads, chains) && Accounted(blocks, live - {p}, chains, [p])
    ensures 0 < p
  {
    hide Linked, Distinct, Sum;
    forall c | 0 <= c < LISTS ensures ListOk(blocks, live - {p}, mem, heads[c], chains[c], c) && p !in chains[c] {
      assert ListOk(blocks, live, mem, heads[c], chains[c], c);
    }
  }

  // What a client writes into its own block is none of the links.
  lemma LinksUntouched(blocks: map<nat, nat>, live: set<nat>, mem: map<nat, nat>, heads: seq<nat>,
                       chains: seq<seq<nat>>, a: nat, v: nat)
    requires Lists(blocks, live, mem, heads, chains) && forall q :: q in blocks && q !in live ==> q != a
    ensures Lists(blocks, live, mem[a := v], heads, chains)
  {
    hide Linked, Distinct;
    forall c | 0 <= c < LISTS ensures ListOk(blocks, live, mem[a := v], heads[c], chains[c], c) {
      assert ListOk(blocks, live, mem, heads[c], chains[c], c);
      LinkedFrame(mem, mem[a := v], heads[c], chains[c]);
    }
  }

  // An address in a client's block is not the address of a free one.
  lemma InsideBlock(blocks: map<nat, nat>, lo: nat, hi: nat, heapSize: nat, p: nat, a: nat)
    requires Sizes(blocks, lo, hi, heapSize) && p in blocks && p <= a < p + blocks[p]
    ensures forall q :: q in blocks && q != p ==> q != a
  {
    hide Sum;
  }

  lemma BlockNotLarge(regions: Regions, owned: Regions, large: map<nat, nat>, blocks: map<nat, nat>, lo: nat, hi: nat,
                      p: nat, q: nat)
    requires Backed(regions, owned, large) && InMemory(owned, blocks, lo, hi) && p in large && q in blocks
    ensures Separate(q, q + blocks[q], p, p + large[p])
  {
    hide AllIn, AllHeld, LargeApart, DistinctStarts;
    PartIsApart(owned, q, q + blocks[q], p, large[p]);
  }

  lemma InsideLarge(regions: Regions, owned: Regions, large: map<nat, nat>, blocks: map<nat, nat>, lo: nat, hi: nat,
                    heapSize: nat, p: nat, a: nat)
    requires Backed(regions, owned, large) && InMemory(owned, blocks, lo, hi) && Sizes(blocks, lo, hi, heapSize)
    requires p in large && p <= a < p + large[p]
    ensures forall q :: q in blocks ==> q != a
  {
    hide Sum, Backed, InMemory;
    forall q | q in blocks ensures q != a {
      BlockNotLarge(regions, owned, large, blocks, lo, hi, p, q);
    }
  }

  lemma EmptyList(blocks: map<nat, nat>, live: set<nat>, mem: map<nat, nat>, heads: seq<nat>, chains: seq<seq<nat>>,
                  c: nat)
    requires Lists(blocks, live, mem, heads, chains) && c < LISTS
    ensures heads[c] == 0 <==> chains[c] == []
  {
    assert ListOk(blocks, live, mem, heads[c], chains[c], c);
  }

  lemma StateFacts(blocks: map<nat, nat>, live: set<nat>, mem: map<nat, nat>, heads: seq<nat>, chains: seq<seq<nat>>,
                   lo: nat, hi: nat, heapSize: nat)
    requires Lists(blocks, live, mem, heads, chains) && Sizes(blocks, lo, hi, heapSize)
    ensures |heads| == |chains| == LISTS && lo <= hi && (hi - lo) % ALIGN == 0
  {
  }

  lemma EmptyPiece(regions: Regions, blocks: map<nat, nat>, lo: nat, hi: nat, heapSize: nat)
    requires Sizes(blocks, lo, hi, heapSize) && InMemory(regions, blocks, lo, hi) && lo >= hi
    ensures Sizes(blocks, 0, 0, heapSize) && InMemory(regions, blocks, 0, 0)
  {
  }

  lemma MoreMemory(regions: Regions, blocks: map<nat, nat>, heapSize: nat, p: nat, n: nat)
    requires Sizes(blocks, 0, 0, heapSize) && InMemory(regions, blocks, 0, 0) && 0 < p && n % ALIGN == 0
    requires forall a: nat, b: nat :: Holds(regions, a, b) ==> Separate(a, b, p, p + n)
    ensures Sizes(blocks, p, p + n, heapSize + n) && InMemory(regions + [(p, n)], blocks, p, p + n)
  {
    hide Sum, BlocksOk;
    HoldsMore(regions, p, n);
    assert Apart(blocks, p, p + n);
  }

  lemma UndisturbedTransitive(live: set<nat>, a: map<nat, nat>, b: map<nat, nat>, c: map<nat, nat>)
    requires Undisturbed(live, a, b) && Undisturbed(live, b, c)
    ensures Undisturbed(live, a, c)
  {
  }

  lemma AsManyAsFit(left: nat, size: nat, count: nat, fit: nat)
    requires 0 < size && 0 < count && fit == left / size
    ensures TotalBytes(size, count) <= left <==> count <= fit
    ensures size <= left <==> 1 <= fit
    ensures TotalBytes(size, fit) <= left
  {
    assert left == fit * size + left % size && 0 <= left % size < size;
    var rest := left % size;
    Fits(fit, rest, size, count);
    Fits(fit, rest, size, 1);
    Fits(fit, rest, size, fit);
  }

  lemma Fits(q: int, rest: int, size: int, count: int)
    requires 0 <= rest < size
    ensures size * count <= q * size + rest <==> count <= q
  {
    Sign(q - count, size);
    Sign(count - q - 1, size);
    Distribute(q, count, size);
    assert (count - q - 1) * size == count * size - q * size - size;
  }

  lemma Distribute(a: int, b: int, m: int)
    ensures (a - b) * m == a * m - b * m && m * b == b * m
  {
  }

  lemma NextList(chains: seq<seq<nat>>, i: nat)
    requires |chains| == LISTS && 0 < i <= MAX_BYTES && i % ALIGN == 0
    ensures chains[ListIndex(i)] != [] ==> FirstFree(chains, ListIndex(i)) == ListIndex(i)
    ensures chains[ListIndex(i)] == [] ==>
              FirstFree(chains, ListIndex(i)) ==
              if i + ALIGN <= MAX_BYTES then FirstFree(chains, ListIndex(i + ALIGN)) else LISTS
  {
    assert i + ALIGN <= MAX_BYTES ==> ListIndex(i + ALIGN) == ListIndex(i) + 1;
  }

  lemma {:induction false} FirstFreeSame(a: seq<seq<nat>>, b: seq<seq<nat>>, c: nat)
    requires |a| == |b| && c <= |a| && forall i :: c <= i < |a| ==> a[i] == b[i]
    ensures FirstFree(a, c) == FirstFree(b, c)
    decreases |a| - c
  {
    if c < |a| && a[c] == [] {
      FirstFreeSame(a, b, c + 1);
    }
  }

  // Nothing that is left over is long enough.
  lemma KeptSupplies(s: State, size: nat)
    requires 0 < size <= MAX_BYTES && size % ALIGN == 0 && |s.chains| == LISTS && s.start <= s.end < s.start + size
    requires (s.end - s.start) % ALIGN == 0
    ensures var kept, c := Kept(s.chains, s.start, s.end - s.start), FirstFree(s.chains, ListIndex(size));
      && Kept(kept, 0, 0) == kept && FirstFree(kept, ListIndex(size)) == c
      && (c < LISTS ==> kept[c] == s.chains[c])
  {
    var kept := Kept(s.chains, s.start, s.end - s.start);
    if s.end > s.start {
      ListSizes(s.end - s.start, size);
    }
    FirstFreeSame(kept, s.chains, ListIndex(size));
  }

  lemma RefillsWith(s: State, cut: State, s': State, n: nat, c: nat, chunk: nat, nobjs: nat)
    requires 0 < n <= MAX_BYTES && c == ListIndex(n) && |cut.chains| == LISTS && cut.chains[c] == [] && 0 < nobjs
    requires Cuts(s, cut, n, REFILL_COUNT, true, chunk, nobjs)
    requires s' == cut.(chains := cut.chains[c := Pieces(chunk, n, nobjs)[1..]])
    ensures Refills(s, s', n, Block(chunk))
  {
    hide Cuts, Pieces;
    assert s'.(chains := s'.chains[c := []]) == cut;
  }

  // The three ways through _S_chunk_alloc.
  lemma CutsAll(s: State, s': State, size: nat, count: nat, chunk: nat, left: nat)
    requires 0 < size && 0 < count && TotalBytes(size, count) <= left && s.start + left == s.end && chunk == s.start
    requires s' == s.(start := chunk + TotalBytes(size, count))
    ensures Cuts(s, s', size, count, true, chunk, count)
  {
    AsManyAsFit(left, size, count, left / size);
    assert s.end - s.start == left;
  }

  lemma CutsSome(s: State, s': State, size: nat, count: nat, chunk: nat, nobjs: nat, left: nat)
    requires 0 < size <= left < TotalBytes(size, count) && 0 < count && s.start + left == s.end && chunk == s.start
    requires nobjs == left / size && s' == s.(start := chunk + TotalBytes(size, nobjs))
    ensures Cuts(s, s', size, count, true, chunk, nobjs)
  {
    AsManyAsFit(left, size, count, nobjs);
    assert s.end - s.start == left;
  }

  lemma CutsNothing(s: State, s': State, size: nat, count: nat)
    requires s.start <= s.end < s.start + size && Supplies(s, s', size, BytesFor(size, count, s.heap), false)
    ensures Cuts(s, s', size, count, false, 0, 0)
  {
  }

  lemma CutsNone(s: State, s': State, size: nat, count: nat, chunk: nat, nobjs: nat)
    requires Cuts(s, s', size, count, false, chunk, nobjs)
    ensures Cuts(s, s', size, count, false, 0, 0)
  {
    hide Supplies;
  }

  lemma CutsThen(s: State, mid: State, s': State, size: nat, count: nat, ok: bool, chunk: nat, nobjs: nat)
    requires s.start <= s.end < s.start + size && Supplies(s, mid, size, BytesFor(size, count, s.heap), true)
    requires mid.start + size <= mid.end && Cuts(mid, s', size, count, ok, chunk, nobjs)
    ensures Cuts(s, s', size, count, ok, chunk, nobjs)
  {
    hide Supplies;
    assert s'.(start := chunk) == mid;
  }

  lemma Sign(c: int, m: nat)
    requires 0 < m
    ensures c >= 0 ==> c * m >= 0
    ensures c < 0 ==> c * m < 0
  {
  }

  lemma BytesToGet(size: nat, count: nat, heapSize: nat)
    requires 0 < size && size % ALIGN == 0 && 0 < count
    ensures var n := BytesFor(size, count, heapSize); n % ALIGN == 0 && size <= n
  {
    CutNumbers(size, count);
    Scale(count, size);
    Aligned(count * size, RoundUp(heapSize / 16));
  }

  lemma CutFacts(blocks: map<nat, nat>, lo: nat, hi: nat, heapSize: nat, n: nat, m: nat)
    requires Sizes(blocks, lo, hi, heapSize) && 0 < n && 0 < m && lo + n * m <= hi
    ensures forall p :: p in Pieces(lo, n, m) ==> p in Cut(blocks, lo, n, m) && Cut(blocks, lo, n, m)[p] == n
  {
    hide Sum;
    Scale(m, n);
    CutMembers(blocks, lo, n, m, hi);
  }

  lemma LeftoverClass(left: nat, size: nat, lo: nat, hi: nat, blocks: map<nat, nat>, heapSize: nat)
    requires Sizes(blocks, lo, hi, heapSize) && left == hi - lo && 0 < left < size <= MAX_BYTES && size % ALIGN == 0
    ensures 0 < lo && ListSize(ListIndex(left)) == left && ListIndex(left) < ListIndex(size)
  {
    hide Sum, BlocksOk;
    ListSizes(left, size);
  }

  // ----- every run of a client -----

  datatype Request = Allocate(bytes: nat) | Free(index: nat) | Write(target: nat, offset: nat, word: nat)

  // A block that the client holds: its address, and the bytes that were asked for.
  type Held = (nat, nat)

  // The bytes that belong to it.
  function Extent(n: nat): nat {
    if n <= MAX_BYTES then RoundUp(n) else n
  }

  ghost predicate OneHeld(h: Held, live: set<nat>, blocks: map<nat, nat>, large: map<nat, nat>) {
    && 0 < h.1
    && if h.1 <= MAX_BYTES then h.0 in live && h.0 in blocks && blocks[h.0] == RoundUp(h.1)
       else h.0 in large && large[h.0] == h.1
  }

  ghost predicate HeldOk(held: seq<Held>, live: set<nat>, blocks: map<nat, nat>, large: map<nat, nat>) {
    && (forall i :: 0 <= i < |held| ==> OneHeld(held[i], live, blocks, large))
    && (forall i, j :: 0 <= i < j < |held| && (held[i].1 <= MAX_BYTES <==> held[j].1 <= MAX_BYTES) ==>
          held[i].0 != held[j].0)
  }

  lemma HeldMore(held: seq<Held>, live: set<nat>, before: map<nat, nat>, large: map<nat, nat>, live': set<nat>,
                 after: map<nat, nat>, large': map<nat, nat>, p: nat, n: nat)
    requires HeldOk(held, live, before, large) && Undisturbed(live, before, after) && 0 < n
    requires if n <= MAX_BYTES
             then p !in live && live' == live + {p} && p in after && after[p] == RoundUp(n) && large' == large
             else p !in large && large' == large[p := n] && live' == live
    ensures HeldOk(held + [(p, n)], live', after, large')
  {
    forall i | 0 <= i < |held| ensures OneHeld(held[i], live', after, large') {
      assert OneHeld(held[i], live, before, large);
    }
  }

  lemma HeldSame(held: seq<Held>, live: set<nat>, before: map<nat, nat>, after: map<nat, nat>, large: map<nat, nat>)
    requires HeldOk(held, live, before, large) && Undisturbed(live, before, after)
    ensures HeldOk(held, live, after, large)
  {
    forall i | 0 <= i < |held| ensures OneHeld(held[i], live, after, large) {
      assert OneHeld(held[i], live, before, large);
    }
  }

  lemma HeldLess(held: seq<Held>, live: set<nat>, blocks: map<nat, nat>, large: map<nat, nat>, k: nat)
    requires HeldOk(held, live, blocks, large) && k < |held|
    ensures var small := held[k].1 <= MAX_BYTES;
      HeldOk(held[..k] + held[k + 1..], if small then live - {held[k].0} else live, blocks,
             if small then large else large - {held[k].0})
  {
    var rest, small := held[..k] + held[k + 1..], held[k].1 <= MAX_BYTES;
    forall i | 0 <= i < |rest| ensures rest[i] == held[if i < k then i else i + 1] {
    }
    forall i | 0 <= i < |rest|
      ensures OneHeld(rest[i], if small then live - {held[k].0} else live, blocks,
                      if small then large else large - {held[k].0})
    {
      assert OneHeld(rest[i], live, blocks, large);
    }
  }

  lemma HeldApart(held: seq<Held>, live: set<nat>, blocks: map<nat, nat>, regions: Regions, owned: Regions,
                  large: map<nat, nat>, lo: nat, hi: nat, heapSize: nat)
    requires HeldOk(held, live, blocks, large) && Sizes(blocks, lo, hi, heapSize) && InMemory(owned, blocks, lo, hi)
    requires Backed(regions, owned, large)
    ensures forall i, j :: 0 <= i < j < |held| ==>
      Separate(held[i].0, held[i].0 + Extent(held[i].1), held[j].0, held[j].0 + Extent(held[j].1))
  {
    hide Sum, InMemory, Holds;
    forall i, j | 0 <= i < j < |held|
      ensures Separate(held[i].0, held[i].0 + Extent(held[i].1), held[j].0, held[j].0 + Extent(held[j].1))
    {
      assert OneHeld(held[i], live, blocks, large) && OneHeld(held[j], live, blocks, large);
      if held[i].1 <= MAX_BYTES < held[j].1 {
        BlockNotLarge(regions, owned, large, blocks, lo, hi, held[j].0, held[i].0);
      } else if held[j].1 <= MAX_BYTES < held[i].1 {
        BlockNotLarge(regions, owned, large, blocks, lo, hi, held[i].0, held[j].0);
      }
    }
  }

  /** Whatever a client allocates, frees and writes into its blocks, and whatever malloc does, the
      pool stays as it should be, and the blocks that are held never overlap. */
  method Run(requests: seq<Request>) returns (pool: Pool, held: seq<Held>, failures: nat)
    requires forall r :: r in requests && r.Allocate? ==> 0 < r.bytes
    ensures fresh(pool) && pool.Valid() && HeldOk(held, pool.live, pool.blocks, pool.large)
    ensures pool.heapSize == Sum(pool.blocks) + (pool.endFree - pool.startFree)
    ensures Obtained(pool.memory.regions) == pool.heapSize + Sum(pool.large)
    ensures (forall m <- pool.memory.asked :: m.1) ==> failures == 0
    ensures forall i, j :: 0 <= i < j < |held| ==>
      Separate(held[i].0, held[i].0 + Extent(held[i].1), held[j].0, held[j].0 + Extent(held[j].1))
  {
    hide Lists, Sizes, InMemory, Backed, Accounted, Undisturbed, HeldOk, Sum, Allocates;
    var memory := new Memory();
    pool := new Pool(memory);
    held, failures := [], 0;
    NoneHeld(pool.live, pool.blocks, pool.large);
    for k := 0 to |requests|
      invariant pool.Valid() && pool.memory == memory && fresh(memory) && fresh(pool) && fresh(pool.heads)
      invariant HeldOk(held, pool.live, pool.blocks, pool.large) && pool.Elsewhere() == 0
      invariant failures == 0 || exists m <- memory.asked :: !m.1
    {
      ghost var live, before, large := pool.live, pool.blocks, pool.large;
      match requests[k]
      case Allocate(bytes) =>
        ghost var s := pool.Now();
        PieceBounds(pool.blocks, pool.startFree, pool.endFree, pool.heapSize);
        var result := pool.Allocate(bytes);
        ServedWhileGranted(s, pool.Now(), bytes, result);
        StillRefused(s.asked, memory.asked);
        if result.Block? {
          HeldMore(held, live, before, large, pool.live, pool.blocks, pool.large, result.address, bytes);
          held := held + [(result.address, bytes)];
        } else {
          HeldSame(held, live, before, pool.blocks, large);
          failures := failures + 1;
        }
      case Free(index) =>
        if index < |held| {
          HeldAt(held, live, before, large, index);
          pool.Deallocate(held[index].0, held[index].1);
          HeldLess(held, live, before, large, index);
          held := held[..index] + held[index + 1..];
        }
      case Write(target, offset, word) =>
        if target < |held| && offset < held[target].1 {
          HeldAt(held, live, before, large, target);
          pool.Write(held[target].0, held[target].1, offset, word);
        }
    }
    HeldApart(held, pool.live, pool.blocks, memory.regions, pool.owned, pool.large, pool.startFree, pool.endFree,
              pool.heapSize);
    HeapSizes(pool.blocks, pool.startFree, pool.endFree, pool.heapSize);
  }

  lemma PieceBounds(blocks: map<nat, nat>, lo: nat, hi: nat, heapSize: nat)
    requires Sizes(blocks, lo, hi, heapSize)
    ensures lo <= hi
  {
  }

  lemma StillRefused(before: Log, after: Log)
    requires before <= after
    ensures (exists m <- before :: !m.1) ==> exists m <- after :: !m.1
  {
    if m :| m in before && !m.1 {
      assert m in after;
    }
  }

  lemma HeapSizes(blocks: map<nat, nat>, lo: nat, hi: nat, heapSize: nat)
    requires Sizes(blocks, lo, hi, heapSize)
    ensures heapSize == Sum(blocks) + (hi - lo)
  {
  }

  lemma NoneHeld(live: set<nat>, blocks: map<nat, nat>, large: map<nat, nat>)
    ensures HeldOk([], live, blocks, large) && Sum(map[]) == 0
  {
  }

  lemma HeldAt(held: seq<Held>, live: set<nat>, blocks: map<nat, nat>, large: map<nat, nat>, k: nat)
    requires HeldOk(held, live, blocks, large) && k < |held|
    ensures OneHeld(held[k], live, blocks, large)
  {
  }
}
