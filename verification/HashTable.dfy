/** The hash table with chained buckets. */
module HashTable {
  import opened Options

  type Ref = nat
  type Links = map<Ref, Option<Ref>>

  // ----- chains -----

  function First(c: seq<Ref>): Option<Ref> {
    if c == [] then None else Some(c[0])
  }

  // head points at the first node of c, and each node at the next one.
  ghost predicate Linked(next: Links, head: Option<Ref>, c: seq<Ref>) {
    head == First(c) && forall i :: 0 <= i < |c| ==> c[i] in next && next[c[i]] == First(c[i + 1..])
  }

  ghost predicate Distinct(c: seq<Ref>) {
    forall i, j :: 0 <= i < j < |c| ==> c[i] != c[j]
  }

  lemma LinkedFrame(next: Links, head: Option<Ref>, c: seq<Ref>, n: Ref, to: Option<Ref>)
    requires Linked(next, head, c) && n !in c
    ensures Linked(next[n := to], head, c)
  {
  }

  lemma LinkedTail(next: Links, head: Option<Ref>, c: seq<Ref>)
    requires Linked(next, head, c) && c != []
    ensures head == Some(c[0]) && c[0] in next && Linked(next, next[c[0]], c[1..])
  {
    assert c[0 + 1..] == c[1..];
    forall i | 0 <= i < |c[1..]| ensures c[1..][i] in next && next[c[1..][i]] == First(c[1..][i + 1..]) {
      assert c[1..][i] == c[i + 1] && c[1..][i + 1..] == c[i + 1 + 1..];
    }
  }

  lemma LinkedFront(next: Links, head: Option<Ref>, c: seq<Ref>, n: Ref)
    requires Linked(next, head, c) && n !in c
    ensures Linked(next[n := head], Some(n), [n] + c)
  {
    var d := [n] + c;
    forall i | 0 <= i < |d| ensures d[i] in next[n := head] && next[n := head][d[i]] == First(d[i + 1..]) {
      if i > 0 {
        assert d[i] == c[i - 1] && d[i + 1..] == c[i - 1 + 1..];
      } else {
        assert d[1..] == c;
      }
    }
  }

  /** A new node behind node i, or node i + 1 taken out. */
  lemma LinkedBehind(next: Links, head: Option<Ref>, c: seq<Ref>, i: nat, n: Ref)
    requires Linked(next, head, c) && i < |c| && n !in c && Distinct(c)
    ensures c[i] in next && Linked(next[n := next[c[i]]][c[i] := Some(n)], head, c[..i + 1] + [n] + c[i + 1..])
  {
    var d, next' := c[..i + 1] + [n] + c[i + 1..], next[n := next[c[i]]][c[i] := Some(n)];
    forall k | 0 <= k < |d| ensures d[k] in next' && next'[d[k]] == First(d[k + 1..]) {
      if k < i {
        assert d[k] == c[k] && d[k + 1] == c[k + 1] && c[k] != c[i];
      } else if k == i {
        assert d[k + 1] == n;
      } else if k == i + 1 {
        assert d[k + 1..] == c[i + 1..];
      } else {
        assert d[k] == c[k - 1] && c[k - 1] != c[i] && d[k + 1..] == c[k - 1 + 1..];
      }
    }
  }

  lemma LinkedWithout(next: Links, head: Option<Ref>, c: seq<Ref>, i: nat)
    requires Linked(next, head, c) && i + 1 < |c| && Distinct(c)
    ensures c[i] in next && c[i + 1] in next
    ensures Linked(next[c[i] := next[c[i + 1]]], head, c[..i + 1] + c[i + 2..])
  {
    var d, next' := c[..i + 1] + c[i + 2..], next[c[i] := next[c[i + 1]]];
    assert next[c[i + 1]] == First(c[i + 1 + 1..]);
    forall k | 0 <= k < |d| ensures d[k] in next' && next'[d[k]] == First(d[k + 1..]) {
      if k < i {
        assert d[k] == c[k] && d[k + 1] == c[k + 1] && c[k] != c[i];
      } else if k == i {
        assert d[k + 1..] == c[i + 2..];
      } else {
        assert d[k] == c[k + 1] && c[k + 1] != c[i] && d[k + 1..] == c[k + 1 + 1..];
      }
    }
  }

  // ----- keys -----

  // What a table asks of its functions: equals is an equivalence that the hash respects.
  ghost predicate KeysOk<K(!new)>(hash: K -> nat, equals: (K, K) -> bool) {
    && (forall x :: equals(x, x))
    && (forall x, y :: equals(x, y) ==> equals(y, x) && hash(x) == hash(y))
    && (forall x, y, z :: equals(x, y) && equals(y, z) ==> equals(x, z))
  }

  // The nodes of a chain by their keys: equal ones are next to each other.
  ghost predicate Grouped<K>(keys: map<Ref, K>, equals: (K, K) -> bool, c: seq<Ref>) {
    && (forall i :: 0 <= i < |c| ==> c[i] in keys)
    && forall i, j, k :: 0 <= i < j < k < |c| && equals(keys[c[i]], keys[c[k]]) ==> equals(keys[c[i]], keys[c[j]])
  }

  // What holds of bucket i of n, for a chain c of nodes.
  ghost predicate ChainOk<K>(keys: map<Ref, K>, hash: K -> nat, equals: (K, K) -> bool, c: seq<Ref>, i: nat, n: nat) {
    && Distinct(c) && Grouped(keys, equals, c)
    && n > 0 && forall a :: 0 <= a < |c| ==> hash(keys[c[a]]) % n == i
  }

  /** In front of a chain, or behind an equal key, a node keeps equal keys together. */
  lemma FrontOk<K(!new)>(keys: map<Ref, K>, hash: K -> nat, equals: (K, K) -> bool, c: seq<Ref>, i: nat, n: nat, x: Ref)
    requires KeysOk(hash, equals) && ChainOk(keys, hash, equals, c, i, n) && x in keys && x !in c
    requires hash(keys[x]) % n == i
    requires forall a :: 0 < a < |c| && equals(keys[x], keys[c[a]]) ==> equals(keys[x], keys[c[0]])
    ensures ChainOk(keys, hash, equals, [x] + c, i, n)
  {
    var d := [x] + c;
    assert forall a :: 0 < a < |d| ==> d[a] == c[a - 1];
    forall a, b, k | 0 <= a < b < k < |d| && equals(keys[d[a]], keys[d[k]]) ensures equals(keys[d[a]], keys[d[b]]) {
      if a == 0 {
        assert equals(keys[x], keys[c[k - 1]]) && equals(keys[x], keys[c[0]]);
        if b > 1 {
          assert equals(keys[c[0]], keys[x]) && equals(keys[c[0]], keys[c[k - 1]]);
          assert equals(keys[c[0]], keys[c[b - 1]]);
        }
      }
    }
  }

  // Where an element behind position p of a chain comes from; the new one counts as p.
  function Source(p: nat, a: nat): nat {
    if a <= p then a else a - 1
  }

  lemma BehindLike<K(!new)>(keys: map<Ref, K>, hash: K -> nat, equals: (K, K) -> bool, c: seq<Ref>, d: seq<Ref>, p: nat)
    requires KeysOk(hash, equals) && Grouped(keys, equals, c) && |d| == |c| + 1 && p < |c|
    requires forall a :: 0 <= a < |d| ==> d[a] in keys && equals(keys[d[a]], keys[c[Source(p, a)]])
    ensures Grouped(keys, equals, d)
  {
    forall a, b, k | 0 <= a < b < k < |d| && equals(keys[d[a]], keys[d[k]]) ensures equals(keys[d[a]], keys[d[b]]) {
      var a', b', k' := Source(p, a), Source(p, b), Source(p, k);
      assert equals(keys[c[a']], keys[d[a]]) && equals(keys[c[a']], keys[d[k]]);
      assert equals(keys[c[a']], keys[c[k']]);
      if a' < b' < k' {
        assert equals(keys[c[a']], keys[c[b']]);
      }
      assert equals(keys[c[a']], keys[c[b']]);
      assert equals(keys[c[b']], keys[d[b]]);
      assert equals(keys[c[a']], keys[d[b]]);
    }
  }

  lemma BehindOk<K(!new)>(keys: map<Ref, K>, hash: K -> nat, equals: (K, K) -> bool, c: seq<Ref>, i: nat, n: nat,
                          p: nat, x: Ref)
    requires KeysOk(hash, equals) && ChainOk(keys, hash, equals, c, i, n) && p < |c| && x in keys && x !in c
    requires equals(keys[c[p]], keys[x])
    ensures ChainOk(keys, hash, equals, c[..p + 1] + [x] + c[p + 1..], i, n)
  {
    hide Grouped;
    var d := c[..p + 1] + [x] + c[p + 1..];
    GroupedIn(keys, equals, c);
    assert forall a :: 0 <= a < |d| ==> d[a] == if a == p + 1 then x else c[Source(p, a)];
    BehindLike(keys, hash, equals, c, d, p);
  }

  lemma GroupedIn<K>(keys: map<Ref, K>, equals: (K, K) -> bool, c: seq<Ref>)
    requires Grouped(keys, equals, c)
    ensures forall a :: 0 <= a < |c| ==> c[a] in keys
  {
  }

  lemma WithoutOk<K>(keys: map<Ref, K>, hash: K -> nat, equals: (K, K) -> bool, c: seq<Ref>, i: nat, n: nat, p: nat)
    requires ChainOk(keys, hash, equals, c, i, n) && p < |c|
    ensures ChainOk(keys, hash, equals, c[..p] + c[p + 1..], i, n)
  {
    var d := c[..p] + c[p + 1..];
    assert forall a :: 0 <= a < |d| ==> d[a] == c[if a < p then a else a + 1];
  }

  // ----- the whole table -----

  // buckets and chains have the same number n of entries; every node is in the chain that its
  // hash tells, and linked there.
  ghost predicate TableOk<K>(keys: map<Ref, K>, next: Links, buckets: seq<Option<Ref>>, chains: seq<seq<Ref>>,
                             hash: K -> nat, equals: (K, K) -> bool) {
    && |buckets| == |chains| > 0
    && forall i :: 0 <= i < |chains| ==>
         Linked(next, buckets[i], chains[i]) && ChainOk(keys, hash, equals, chains[i], i, |chains|)
  }

  ghost predicate Complete<K>(keys: map<Ref, K>, chains: seq<seq<Ref>>, hash: K -> nat) {
    |chains| > 0 && forall r <- keys :: r in chains[hash(keys[r]) % |chains|]
  }

  lemma InBucket<K>(keys: map<Ref, K>, next: Links, buckets: seq<Option<Ref>>, chains: seq<seq<Ref>>,
                    hash: K -> nat, equals: (K, K) -> bool, i: nat, r: Ref)
    requires TableOk(keys, next, buckets, chains, hash, equals) && i < |chains| && r in chains[i]
    ensures r in keys && hash(keys[r]) % |chains| == i
  {
    assert ChainOk(keys, hash, equals, chains[i], i, |chains|);
    var a :| 0 <= a < |chains[i]| && chains[i][a] == r;
  }

  // Keys of nodes outside of a chain do not matter for it.
  lemma ChainKeys<K>(keys: map<Ref, K>, keys': map<Ref, K>, hash: K -> nat, equals: (K, K) -> bool, c: seq<Ref>, i: nat,
                     n: nat)
    requires ChainOk(keys, hash, equals, c, i, n)
    requires forall r <- c :: r in keys && r in keys' && keys'[r] == keys[r]
    ensures ChainOk(keys', hash, equals, c, i, n)
  {
    forall a | 0 <= a < |c| ensures c[a] in keys' && keys'[c[a]] == keys[c[a]] {
      assert c[a] in c;
    }
  }

  lemma LinkedSame(next: Links, next': Links, head: Option<Ref>, c: seq<Ref>)
    requires Linked(next, head, c) && forall r <- c :: r in next ==> r in next' && next'[r] == next[r]
    ensures Linked(next', head, c)
  {
    forall i | 0 <= i < |c| ensures c[i] in next' && next'[c[i]] == First(c[i + 1..]) {
      assert c[i] in c;
    }
  }

  /** One chain changes; the nodes of the others keep their keys and links. */
  lemma TableUpdate<K>(keys: map<Ref, K>, next: Links, buckets: seq<Option<Ref>>, chains: seq<seq<Ref>>,
                       hash: K -> nat, equals: (K, K) -> bool, b: nat, keys': map<Ref, K>, next': Links,
                       head: Option<Ref>, c: seq<Ref>)
    requires TableOk(keys, next, buckets, chains, hash, equals) && b < |chains|
    requires Linked(next', head, c) && ChainOk(keys', hash, equals, c, b, |chains|)
    requires forall r <- keys :: hash(keys[r]) % |chains| != b ==> r in keys' && keys'[r] == keys[r]
    requires forall r <- keys :: hash(keys[r]) % |chains| != b ==> r in next ==> r in next' && next'[r] == next[r]
    ensures TableOk(keys', next', buckets[b := head], chains[b := c], hash, equals)
  {
    hide Linked, ChainOk;
    forall i | 0 <= i < |chains| && i != b
      ensures Linked(next', buckets[i], chains[i]) && ChainOk(keys', hash, equals, chains[i], i, |chains|)
    {
      forall r <- chains[i] ensures r in keys && hash(keys[r]) % |chains| == i {
        InBucket(keys, next, buckets, chains, hash, equals, i, r);
      }
      LinkedSame(next, next', buckets[i], chains[i]);
      ChainKeys(keys, keys', hash, equals, chains[i], i, |chains|);
    }
  }

  lemma Modulo(h: nat, n: nat)
    requires n > 0
    ensures 0 <= h % n < n
  {
  }

  // The sizes that a table can have.
  const PRIMES: seq<nat> := [
    53, 97, 193, 389, 769, 1543, 3079, 6151, 12289, 24593, 49157, 98317, 196613, 393241, 786433, 1572869, 3145739,
    6291469, 12582917, 25165843, 50331653, 100663319, 201326611,
    402653189, 805306457, 1610612741, 3221225473, 4294967291]

  // Entry k is the first that is not below n, or the last one if there is none.
  ghost predicate FirstFit(n: nat, sizes: seq<nat>, k: int) {
    0 <= k < |sizes| && (forall j :: 0 <= j < k ==> sizes[j] < n) && (sizes[k] >= n || k == |sizes| - 1)
  }

  function SizeFor(n: nat, sizes: seq<nat>): (p: nat)
    requires sizes != []
    ensures exists k :: FirstFit(n, sizes, k) && p == sizes[k]
  {
    if sizes[0] >= n || |sizes| == 1 then
      assert FirstFit(n, sizes, 0);
      sizes[0]
    else
      var p := SizeFor(n, sizes[1..]);
      OneFurther(n, sizes, p);
      p
  }

  lemma OneFurther(n: nat, sizes: seq<nat>, p: nat)
    requires |sizes| > 1 && sizes[0] < n && exists k :: FirstFit(n, sizes[1..], k) && p == sizes[1..][k]
    ensures exists k :: FirstFit(n, sizes, k) && p == sizes[k]
  {
    var k :| FirstFit(n, sizes[1..], k) && p == sizes[1..][k];
    assert forall j :: 0 < j < k + 1 ==> sizes[j] == sizes[1..][j - 1];
    assert FirstFit(n, sizes, k + 1);
  }

  ghost predicate Ascending(sizes: seq<nat>) {
    forall i :: 0 < i < |sizes| ==> sizes[i - 1] < sizes[i]
  }

  lemma {:induction false} AscendingFurther(sizes: seq<nat>, i: nat, j: nat)
    requires Ascending(sizes) && i <= j < |sizes|
    ensures sizes[i] <= sizes[j]
    decreases j - i
  {
    if i < j {
      AscendingFurther(sizes, i, j - 1);
    }
  }

  /** Of ascending sizes, the first that is not below n is the least one that is not. */
  lemma FirstIsLeast(n: nat, sizes: seq<nat>, k: int)
    requires Ascending(sizes) && FirstFit(n, sizes, k)
    ensures sizes[0] <= sizes[k] <= sizes[|sizes| - 1]
    ensures n > sizes[|sizes| - 1] ==> k == |sizes| - 1
    ensures n <= sizes[|sizes| - 1] ==>
              sizes[k] >= n && forall j :: 0 <= j < |sizes| && sizes[j] >= n ==> sizes[k] <= sizes[j]
  {
    AscendingFurther(sizes, 0, k);
    AscendingFurther(sizes, k, |sizes| - 1);
    forall j | 0 <= j < |sizes| && sizes[j] >= n ensures sizes[k] <= sizes[j] {
      AscendingFurther(sizes, k, j);
    }
  }

  lemma PrimesAscend()
    ensures Ascending(PRIMES) && |PRIMES| == 28 && PRIMES[0] == 53 && PRIMES[27] == 4294967291
  {
  }

  // __stl_next_prime: the least size that is not below n, or the largest of all.
  function NextPrime(n: nat): (p: nat)
    ensures p in PRIMES && 53 <= p <= 4294967291
    ensures if n <= 4294967291 then p >= n && forall q :: q in PRIMES && q >= n ==> p <= q else p == 4294967291
  {
    PrimesAscend();
    LeastFit(n, PRIMES);
    SizeFor(n, PRIMES)
  }

  lemma LeastFit(n: nat, sizes: seq<nat>)
    requires sizes != [] && Ascending(sizes)
    ensures var p, max := SizeFor(n, sizes), sizes[|sizes| - 1];
      && p in sizes && sizes[0] <= p <= max
      && if n <= max then p >= n && forall q :: q in sizes && q >= n ==> p <= q else p == max
  {
    var p := SizeFor(n, sizes);
    var k :| FirstFit(n, sizes, k) && p == sizes[k];
    FirstIsLeast(n, sizes, k);
  }

  // The number of buckets after resize.
  function Grown(n: nat, hint: nat): (m: nat)
    ensures m >= n && (hint <= n ==> m == n) && (m >= hint || m >= 4294967291)
  {
    if hint > n && NextPrime(hint) > n then NextPrime(hint) else n
  }

  // ----- what the operations do to the chains -----

  // The first position of a node with the key, or the length.
  ghost function FirstAt<K>(c: seq<Ref>, keys: map<Ref, K>, equals: (K, K) -> bool, key: K): (p: nat)
    ensures p <= |c| && (p < |c| ==> c[p] in keys && equals(keys[c[p]], key))
    ensures forall a :: 0 <= a < p ==> c[a] in keys ==> !equals(keys[c[a]], key)
  {
    if c == [] || (c[0] in keys && equals(keys[c[0]], key)) then 0 else FirstAt(c[1..], keys, equals, key) + 1
  }

  ghost function FirstWith<K>(c: seq<Ref>, keys: map<Ref, K>, equals: (K, K) -> bool, key: K): Option<Ref> {
    var p := FirstAt(c, keys, equals, key);
    if p < |c| then Some(c[p]) else None
  }

  lemma FirstAtIs<K>(c: seq<Ref>, keys: map<Ref, K>, equals: (K, K) -> bool, key: K, p: nat)
    requires p <= |c| && (p < |c| ==> c[p] in keys && equals(keys[c[p]], key))
    requires forall r <- c[..p] :: r in keys ==> !equals(keys[r], key)
    ensures FirstAt(c, keys, equals, key) == p
  {
    assert forall a :: 0 <= a < p ==> c[a] in c[..p];
  }

  // A new node goes in front of its chain,
  ghost function FrontOf(chains: seq<seq<Ref>>, h: nat, n: Ref): seq<seq<Ref>> {
    if chains == [] then chains else chains[h % |chains| := [n] + chains[h % |chains|]]
  }

  // or behind the first one with an equal key.
  ghost function BehindFirst<K>(chains: seq<seq<Ref>>, h: nat, n: Ref, keys: map<Ref, K>, equals: (K, K) -> bool,
                                key: K): seq<seq<Ref>> {
    if chains == [] then chains else
    var c := chains[h % |chains|];
    var p := FirstAt(c, keys, equals, key);
    if p == |c| then FrontOf(chains, h, n) else chains[h % |chains| := c[..p + 1] + [n] + c[p + 1..]]
  }

  // Resizing puts one node after the other in front of its new chain.
  ghost function PushAll<K>(chains: seq<seq<Ref>>, nodes: seq<Ref>, keys: map<Ref, K>,
                            hash: K -> nat): (u: seq<seq<Ref>>)
    ensures |u| == |chains|
  {
    if nodes == [] then chains else
    var u, x := PushAll(chains, nodes[..|nodes| - 1], keys, hash), nodes[|nodes| - 1];
    if x in keys then FrontOf(u, hash(keys[x]), x) else u
  }

  ghost function NoChains(n: nat): (u: seq<seq<Ref>>)
    ensures |u| == n
  {
    seq(n, _ => [])
  }

  ghost function Rehashed<K>(chains: seq<seq<Ref>>, n: nat, keys: map<Ref, K>, hash: K -> nat): (u: seq<seq<Ref>>)
    ensures |u| == n
  {
    if n == |chains| then chains else PushAll(NoChains(n), From(chains, 0), keys, hash)
  }

  lemma PushNone<K>(chains: seq<seq<Ref>>, keys: map<Ref, K>, hash: K -> nat)
    ensures PushAll(chains, [], keys, hash) == chains
  {
  }

  lemma PushOne<K>(chains: seq<seq<Ref>>, nodes: seq<Ref>, x: Ref, keys: map<Ref, K>, hash: K -> nat)
    requires x in keys
    ensures PushAll(chains, nodes + [x], keys, hash) == FrontOf(PushAll(chains, nodes, keys, hash), hash(keys[x]), x)
  {
    assert (nodes + [x])[..|nodes|] == nodes;
  }

  lemma {:induction false} PushAllSplit<K>(chains: seq<seq<Ref>>, a: seq<Ref>, b: seq<Ref>, keys: map<Ref, K>,
                                           hash: K -> nat)
    ensures PushAll(chains, a + b, keys, hash) == PushAll(PushAll(chains, a, keys, hash), b, keys, hash)
    decreases |b|
  {
    if b == [] {
      assert a + b == a;
    } else {
      var k := |b| - 1;
      PushAllSplit(chains, a, b[..k], keys, hash);
      assert (a + b)[..|a + b| - 1] == a + b[..k];
    }
  }

  // The nodes of a chain that stay when those with the key are erased.
  ghost function Remaining<K>(c: seq<Ref>, keys: map<Ref, K>, equals: (K, K) -> bool, key: K): seq<Ref> {
    if c == [] then []
    else (if c[0] in keys && equals(keys[c[0]], key) then [] else [c[0]]) + Remaining(c[1..], keys, equals, key)
  }

  lemma NothingRemains<K>(c: seq<Ref>, keys: map<Ref, K>, equals: (K, K) -> bool, key: K)
    ensures c == [] ==> Remaining(c, keys, equals, key) == []
  {
  }

  lemma RemainingFirst<K>(c: seq<Ref>, x: Ref, keys: map<Ref, K>, equals: (K, K) -> bool, key: K)
    requires c != [] && c[0] == x && x in keys
    ensures var kept := Remaining(c[1..], keys, equals, key);
      Remaining(c, keys, equals, key) == if equals(keys[x], key) then kept else [x] + kept
  {
    var kept := Remaining(c[1..], keys, equals, key);
    assert [] + kept == kept;
  }

  ghost function WithoutKey<K>(chains: seq<seq<Ref>>, h: nat, keys: map<Ref, K>, equals: (K, K) -> bool,
                               key: K): seq<seq<Ref>> {
    if chains == [] then chains else chains[h % |chains| := Remaining(chains[h % |chains|], keys, equals, key)]
  }

  // The nodes that do not have the key.
  ghost function Lacking<K, V>(vals: map<Ref, V>, getKey: V -> K, equals: (K, K) -> bool, key: K): map<Ref, V> {
    map r | r in vals && !equals(getKey(vals[r]), key) :: vals[r]
  }

  // The keys of the nodes of a table with these values.
  ghost function KeysOf<K, V>(vals: map<Ref, V>, getKey: V -> K): map<Ref, K> {
    map r | r in vals :: getKey(vals[r])
  }

  lemma KeyOf<K, V>(vals: map<Ref, V>, getKey: V -> K)
    ensures KeysOf(vals, getKey).Keys == vals.Keys && forall r <- vals :: KeysOf(vals, getKey)[r] == getKey(vals[r])
  {
  }

  lemma KeysWith<K, V>(vals: map<Ref, V>, getKey: V -> K, n: Ref, obj: V)
    ensures KeysOf(vals[n := obj], getKey) == KeysOf(vals, getKey)[n := getKey(obj)]
  {
  }

  lemma KeysWithout<K, V>(vals: map<Ref, V>, getKey: V -> K, n: Ref)
    ensures KeysOf(vals - {n}, getKey) == KeysOf(vals, getKey) - {n}
  {
  }

  lemma OneLess<V>(vals: map<Ref, V>, n: Ref)
    requires n in vals
    ensures |vals - {n}| == |vals| - 1
  {
    assert vals == (vals - {n})[n := vals[n]];
  }

  // ----- the values as a multiset -----

  ghost function ValuesOf<V>(vals: map<Ref, V>): multiset<V> {
    if vals == map[] then multiset{} else var r :| r in vals; ValuesOf(vals - {r}) + multiset{vals[r]}
  }

  lemma {:induction false} ValuesWithout<V>(vals: map<Ref, V>, r: Ref)
    requires r in vals
    ensures ValuesOf(vals) == ValuesOf(vals - {r}) + multiset{vals[r]}
    decreases |vals|
  {
    hide ValuesOf;
    var q := ChosenValue(vals);
    if q != r {
      OneLess(vals, q);
      OneLess(vals, r);
      ValuesWithout(vals - {q}, r);
      ValuesWithout(vals - {r}, q);
      assert vals - {q} - {r} == vals - {r} - {q};
      EitherOrder(ValuesOf(vals - {q} - {r}), vals[q], vals[r]);
    }
  }

  lemma ChosenValue<V>(vals: map<Ref, V>) returns (q: Ref)
    requires vals != map[]
    ensures q in vals && ValuesOf(vals) == ValuesOf(vals - {q}) + multiset{vals[q]}
  {
    q :| q in vals && ValuesOf(vals) == ValuesOf(vals - {q}) + multiset{vals[q]};
  }

  lemma EitherOrder<V>(m: multiset<V>, x: V, y: V)
    ensures m + multiset{x} + multiset{y} == m + multiset{y} + multiset{x}
  {
  }

  lemma ValuesWith<V>(vals: map<Ref, V>, n: Ref, obj: V)
    requires n !in vals
    ensures ValuesOf(vals[n := obj]) == ValuesOf(vals) + multiset{obj}
  {
    ValuesWithout(vals[n := obj], n);
    assert vals[n := obj] - {n} == vals;
  }

  lemma {:induction false} ValuesCount<V>(vals: map<Ref, V>)
    ensures |ValuesOf(vals)| == |vals|
    decreases |vals|
  {
    if vals != map[] {
      var r :| r in vals;
      OneLess(vals, r);
      ValuesCount(vals - {r});
      ValuesWithout(vals, r);
    }
  }

  // The values without those that have the key.
  ghost function Without<K, V>(m: multiset<V>, getKey: V -> K, equals: (K, K) -> bool, key: K): (r: multiset<V>)
    ensures r <= m && forall v <- m :: r[v] == if equals(getKey(v), key) then 0 else m[v]
    decreases |m|
  {
    if m == multiset{} then m
    else
      var v :| v in m;
      var rest := Without(m - multiset{v}, getKey, equals, key);
      if equals(getKey(v), key) then rest else rest + multiset{v}
  }

  lemma {:induction false} ValuesLacking<K, V>(vals: map<Ref, V>, getKey: V -> K, equals: (K, K) -> bool, key: K)
    ensures ValuesOf(Lacking(vals, getKey, equals, key)) == Without(ValuesOf(vals), getKey, equals, key)
    decreases |vals|
  {
    hide Without;
    var less := Lacking(vals, getKey, equals, key);
    if vals == map[] {
      assert less == map[];
      WithoutOne(multiset{}, getKey, equals, key);
    } else {
      var r :| r in vals;
      OneLess(vals, r);
      ValuesLacking(vals - {r}, getKey, equals, key);
      ValuesWithout(vals, r);
      WithoutAdd(ValuesOf(vals - {r}), getKey, equals, key, vals[r]);
      LackingOne(vals, getKey, equals, key, r);
    }
  }

  lemma WithoutOne<K, V>(m: multiset<V>, getKey: V -> K, equals: (K, K) -> bool, key: K)
    requires m == multiset{}
    ensures Without(m, getKey, equals, key) == m
  {
  }

  lemma WithoutAdd<K, V>(m: multiset<V>, getKey: V -> K, equals: (K, K) -> bool, key: K, v: V)
    ensures Without(m + multiset{v}, getKey, equals, key) ==
            if equals(getKey(v), key) then Without(m, getKey, equals, key)
            else Without(m, getKey, equals, key) + multiset{v}
  {
    hide Without;
    var a, b := Without(m, getKey, equals, key), Without(m + multiset{v}, getKey, equals, key);
    var c := if equals(getKey(v), key) then a else a + multiset{v};
    forall x <- m + multiset{v} ensures b[x] == c[x] {
      if x !in m { assert a[x] == 0; }
    }
    assert forall x <- b + c :: x in m + multiset{v};
  }

  lemma LackingOne<K, V>(vals: map<Ref, V>, getKey: V -> K, equals: (K, K) -> bool, key: K, r: Ref)
    requires r in vals
    ensures ValuesOf(Lacking(vals, getKey, equals, key)) ==
            ValuesOf(Lacking(vals - {r}, getKey, equals, key)) +
              if equals(getKey(vals[r]), key) then multiset{} else multiset{vals[r]}
  {
    hide ValuesOf;
    var less := Lacking(vals, getKey, equals, key);
    assert Lacking(vals - {r}, getKey, equals, key) == less - {r};
    if equals(getKey(vals[r]), key) {
      assert less - {r} == less;
    } else {
      ValuesWithout(less, r);
    }
  }

  ghost predicate HasKey<K, V>(m: multiset<V>, getKey: V -> K, equals: (K, K) -> bool, key: K) {
    exists v <- m :: equals(getKey(v), key)
  }

  lemma {:induction false} KeyAmongValues<K, V>(vals: map<Ref, V>, getKey: V -> K, equals: (K, K) -> bool, key: K)
    ensures HasKey(ValuesOf(vals), getKey, equals, key) <==> exists r <- vals :: equals(getKey(vals[r]), key)
  {
    hide ValuesOf;
    if HasKey(ValuesOf(vals), getKey, equals, key) {
      var v :| v in ValuesOf(vals) && equals(getKey(v), key);
      var r := NodeOfValue(vals, v);
    }
    forall r <- vals ensures vals[r] in ValuesOf(vals) {
      ValuesWithout(vals, r);
    }
  }

  lemma {:induction false} NodeOfValue<V>(vals: map<Ref, V>, v: V) returns (r: Ref)
    requires v in ValuesOf(vals)
    ensures r in vals && vals[r] == v
    decreases |vals|
  {
    r := ChosenValue(vals);
    if vals[r] != v {
      OneLess(vals, r);
      r := NodeOfValue(vals - {r}, v);
    }
  }

  datatype Op<K, V> =
    | AddUnique(obj: V)
    | AddEqual(obj: V)
    | EraseAll(key: K)
    | Rehash(hint: nat)

  // The meaning of an operation on the multiset of values.
  ghost function Meaning<K, V>(op: Op<K, V>, getKey: V -> K, equals: (K, K) -> bool, m: multiset<V>): multiset<V> {
    match op
    case AddUnique(obj) => if HasKey(m, getKey, equals, getKey(obj)) then m else m + multiset{obj}
    case AddEqual(obj) => m + multiset{obj}
    case EraseAll(key) => Without(m, getKey, equals, key)
    case Rehash(_) => m
  }

  ghost function AfterAll<K, V>(ops: seq<Op<K, V>>, getKey: V -> K, equals: (K, K) -> bool,
                                m: multiset<V>): multiset<V> {
    if ops == [] then m else AfterAll(ops[1..], getKey, equals, Meaning(ops[0], getKey, equals, m))
  }

  // The nodes that have the key; there are as many as positions in a range that is theirs.
  ghost function Having<K, V>(vals: map<Ref, V>, getKey: V -> K, equals: (K, K) -> bool, key: K): set<Ref> {
    set r | r in vals && equals(getKey(vals[r]), key)
  }

  lemma CountHaving<K, V>(vals: map<Ref, V>, getKey: V -> K, equals: (K, K) -> bool, key: K, all: seq<Ref>, i: nat,
                          j: nat)
    requires i <= j <= |all| && Distinct(all) && forall r :: r in all <==> r in vals
    requires forall p :: 0 <= p < |all| ==> (equals(getKey(vals[all[p]]), key) <==> i <= p < j)
    ensures j - i == |Having(vals, getKey, equals, key)|
  {
    CountMembers(all[i..j]);
    var s, t := Having(vals, getKey, equals, key), Members(all[i..j]);
    forall r | r in s ensures r in t {
      var p :| 0 <= p < |all| && all[p] == r;
      assert all[i..j][p - i] == r;
    }
    forall r | r in t ensures r in s {
      var p :| 0 <= p < j - i && all[i..j][p] == r;
      assert all[i + p] == r;
    }
    assert s == t;
  }

  ghost function Members(s: seq<Ref>): set<Ref> {
    set r | r in s
  }

  lemma {:induction false} CountMembers(s: seq<Ref>)
    requires Distinct(s)
    ensures |Members(s)| == |s|
  {
    if s != [] {
      var init, x := s[..|s| - 1], s[|s| - 1];
      CountMembers(init);
      assert x !in Members(init);
      assert Members(s) == Members(init) + {x};
    }
  }

  class Table<K(!new), V> {
    const hash: K -> nat
    const equals: (K, K) -> bool
    const getKey: V -> K
    // The nodes: _M_val and _M_next.
    var vals: map<Ref, V>
    var next: Links
    var unused: Ref
    var buckets: seq<Option<Ref>>
    var elements: nat
    ghost var chains: seq<seq<Ref>>

    ghost predicate Valid()
      reads this
    {
      && KeysOk(hash, equals) && TableOk(KeysOf(vals, getKey), next, buckets, chains, hash, equals)
      && Complete(KeysOf(vals, getKey), chains, hash) && elements == |vals| && forall r <- vals :: r < unused
    }

    constructor (n: nat, hash: K -> nat, equals: (K, K) -> bool, getKey: V -> K)
      requires KeysOk(hash, equals)
      ensures Valid() && vals == map[] && elements == 0 && Roomy()
      ensures |buckets| == NextPrime(n) && chains == NoChains(|buckets|)
      ensures this.hash == hash && this.equals == equals && this.getKey == getKey
    {
      this.hash, this.equals, this.getKey := hash, equals, getKey;
      vals, next, unused, elements := map[], map[], 0, 0;
      buckets, chains := seq(NextPrime(n), _ => None), NoChains(NextPrime(n));
      new;
      hide TableOk, Complete, KeysOf, NextPrime;
      NothingIn(NextPrime(n), this.hash, this.equals, this.getKey);
    }

    // The loop that find, insert_unique_noresize and insert_equal_noresize begin with.
    method Search(b: nat, key: K) returns (cur: Option<Ref>, ghost p: nat)
      requires Valid() && b < |buckets|
      ensures p <= |chains[b]| && cur == First(chains[b][p..])
      ensures (cur.Some? ==> p < |chains[b]| && cur.value == chains[b][p])
      ensures forall r <- chains[b][..p] :: r in vals && !equals(KeysOf(vals, getKey)[r], key)
      ensures cur.Some? ==> cur.value in vals && equals(getKey(vals[cur.value]), key)
      ensures cur.None? ==> p == |chains[b]|
      ensures p == FirstAt(chains[b], KeysOf(vals, getKey), equals, key)
      ensures cur == FirstWith(chains[b], KeysOf(vals, getKey), equals, key)
    {
      hide KeysOk, Complete, KeysOf, TableOk, Linked, ChainOk, FirstAt;
      ghost var keys := KeysOf(vals, getKey);
      Sizes(keys, next, buckets, chains, hash, equals);
      ghost var c := chains[b];
      KeyOf(vals, getKey);
      AllFollow(keys, next, buckets, chains, hash, equals, b);
      cur, p := buckets[b], 0;
      while cur.Some? && !equals(getKey(vals[cur.value]), key)
        invariant p <= |c| && cur == First(c[p..])
        invariant forall a :: 0 <= a < |c| ==> c[a] in vals
        invariant forall r <- c[..p] :: r in vals && !equals(keys[r], key)
        decreases |c| - p
      {
        assert cur.value == c[p] && c[..p + 1] == c[..p] + [c[p]];
        cur := next[cur.value];
        p := p + 1;
      }
      FirstAtIs(c, keys, equals, key, p);
    }

    // _M_new_node, and the links that put it in front of a chain.
    method InsertFront(b: nat, obj: V) returns (n: Ref)
      requires Valid() && b < |buckets| && b == hash(getKey(obj)) % |buckets|
      requires forall r <- chains[b] :: r in vals && !equals(KeysOf(vals, getKey)[r], getKey(obj))
      modifies this
      ensures Valid() && n == old(unused) && vals == old(vals)[n := obj] && n !in old(vals)
      ensures elements == old(elements) + 1
      ensures |buckets| == old(|buckets|) && chains == FrontOf(old(chains), hash(getKey(obj)), n)
    {
      hide KeysOk, TableOk, Complete, KeysOf;
      ghost var keys := KeysOf(vals, getKey);
      Sizes(keys, next, buckets, chains, hash, equals);
      KeyOf(vals, getKey);
      KeysWith(vals, getKey, unused, obj);
      n := unused;
      FrontReady(keys, keys[n := getKey(obj)], next, buckets, chains, hash, equals, b, n);
      chains := chains[b := [n] + chains[b]];
      vals, unused := vals[n := obj], unused + 1;
      next := next[n := buckets[b]];
      buckets := buckets[b := Some(n)];
      elements := elements + 1;
    }

    // _M_bkt_num_key
    function BucketOf(key: K): (b: nat)
      requires |buckets| > 0
      reads this
      ensures b < |buckets|
    {
      Modulo(hash(key), |buckets|);
      hash(key) % |buckets|
    }

    // find: the first node with the key in the order of iteration, if there is one.
    method Find(key: K) returns (cur: Option<Ref>)
      requires Valid()
      ensures cur.Some? ==> cur.value in vals && equals(getKey(vals[cur.value]), key)
      ensures cur.None? ==> forall r <- vals :: !equals(getKey(vals[r]), key)
      ensures cur == FirstWith(From(chains, 0), KeysOf(vals, getKey), equals, key)
    {
      hide TableOk, KeysOk, Complete, KeysOf, From, FirstWith, FirstAt;
      ghost var keys := KeysOf(vals, getKey);
      Sizes(keys, next, buckets, chains, hash, equals);
      KeyOf(vals, getKey);
      ghost var p;
      cur, p := Search(BucketOf(key), key);
      if cur.None? {
        assert chains[BucketOf(key)][..p] == chains[BucketOf(key)];
        NotFound(keys, chains, hash, equals, key, BucketOf(key));
      }
      FirstOfAll(keys, next, buckets, chains, hash, equals, key, BucketOf(key), 0);
    }

    // insert_unique_noresize
    method InsertUniqueNoResize(obj: V) returns (n: Ref, inserted: bool)
      requires Valid()
      modifies this
      ensures Valid() && |buckets| == old(|buckets|)
      ensures inserted <==> forall r <- old(vals) :: !equals(getKey(old(vals)[r]), getKey(obj))
      ensures inserted ==> n !in old(vals) && vals == old(vals)[n := obj] && elements == old(elements) + 1
      ensures !inserted ==>
                n in vals && equals(getKey(vals[n]), getKey(obj)) && vals == old(vals) && elements == old(elements)
      ensures chains == if inserted then FrontOf(old(chains), hash(getKey(obj)), n) else old(chains)
      ensures !inserted ==> Some(n) == FirstWith(From(chains, 0), KeysOf(vals, getKey), equals, getKey(obj))
    {
      hide TableOk, KeysOk, Complete, KeysOf, From, FirstWith, FirstAt, FrontOf;
      ghost var keys := KeysOf(vals, getKey);
      Sizes(keys, next, buckets, chains, hash, equals);
      KeyOf(vals, getKey);
      var b := BucketOf(getKey(obj));
      var cur, p := Search(b, getKey(obj));
      FirstOfAll(keys, next, buckets, chains, hash, equals, getKey(obj), b, 0);
      if cur.Some? {
        return cur.value, false;
      }
      assert chains[b][..p] == chains[b];
      NotFound(keys, chains, hash, equals, getKey(obj), b);
      n := InsertFront(b, obj);
      inserted := true;
    }

    // insert_equal_noresize
    method InsertEqualNoResize(obj: V) returns (n: Ref)
      requires Valid()
      modifies this
      ensures Valid() && |buckets| == old(|buckets|)
      ensures n !in old(vals) && vals == old(vals)[n := obj] && elements == old(elements) + 1
      ensures chains == BehindFirst(old(chains), hash(getKey(obj)), n, KeysOf(old(vals), getKey), equals, getKey(obj))
    {
      hide TableOk, KeysOk, Complete, KeysOf, FrontOf, FirstAt;
      ghost var keys := KeysOf(vals, getKey);
      Sizes(keys, next, buckets, chains, hash, equals);
      KeyOf(vals, getKey);
      KeysWith(vals, getKey, unused, obj);
      var b := BucketOf(getKey(obj));
      var cur, p := Search(b, getKey(obj));
      if cur.Some? {
        n := unused;
        ghost var c := chains[b];
        ghost var c' := c[..p + 1] + [n] + c[p + 1..];
        BehindReady(keys, keys[n := getKey(obj)], next, buckets, chains, hash, equals, b, p, n);
        vals, unused := vals[n := obj], unused + 1;
        next := next[n := next[cur.value]];
        next := next[cur.value := Some(n)];
        chains := chains[b := c'];
        elements := elements + 1;
      } else {
        assert chains[b][..p] == chains[b];
        n := InsertFront(b, obj);
      }
    }

    // insert_unique and insert_equal
    method InsertUnique(obj: V) returns (n: Ref, inserted: bool)
      requires Valid()
      modifies this
      ensures Valid() && |buckets| == Grown(old(|buckets|), old(elements) + 1)
      ensures inserted <==> forall r <- old(vals) :: !equals(getKey(old(vals)[r]), getKey(obj))
      ensures inserted ==> n !in old(vals) && vals == old(vals)[n := obj] && elements == old(elements) + 1
      ensures !inserted ==>
                n in vals && equals(getKey(vals[n]), getKey(obj)) && vals == old(vals) && elements == old(elements)
      ensures var rehashed := Rehashed(old(chains), |buckets|, KeysOf(old(vals), getKey), hash);
        chains == if inserted then FrontOf(rehashed, hash(getKey(obj)), n) else rehashed
      ensures !inserted ==> Some(n) == FirstWith(From(chains, 0), KeysOf(vals, getKey), equals, getKey(obj))
    {
      Resize(elements + 1);
      n, inserted := InsertUniqueNoResize(obj);
    }

    method InsertEqual(obj: V) returns (n: Ref)
      requires Valid()
      modifies this
      ensures Valid() && |buckets| == Grown(old(|buckets|), old(elements) + 1)
      ensures n !in old(vals) && vals == old(vals)[n := obj] && elements == old(elements) + 1
      ensures chains == BehindFirst(Rehashed(old(chains), |buckets|, KeysOf(old(vals), getKey), hash),
                                    hash(getKey(obj)), n, KeysOf(old(vals), getKey), equals, getKey(obj))
    {
      Resize(elements + 1);
      n := InsertEqualNoResize(obj);
    }

    // The inner loop of resize.
    method MoveBucket(bucket: nat, tmp0: seq<Option<Ref>>, ghost chains0: seq<seq<Ref>>, ghost keys: map<Ref, K>)
      returns (tmp: seq<Option<Ref>>, ghost chains': seq<seq<Ref>>)
      requires KeysOk(hash, equals) && bucket < |buckets| == |chains| && |tmp0| == |chains0|
      requires keys.Keys == vals.Keys && forall r <- vals :: keys[r] == getKey(vals[r])
      requires Moving(keys, next, buckets, chains, bucket, [], tmp0, chains0, hash, equals)
      modifies this`next, this`buckets
      ensures |buckets| == old(|buckets|) && |tmp| == |chains'| == |tmp0|
      ensures Moving(keys, next, buckets, chains, bucket + 1, [], tmp, chains', hash, equals)
      ensures chains' == PushAll(chains0, chains[bucket], keys, hash)
    {
      hide KeysOk, Moving, PushAll;
      ghost var done: seq<Ref>, o: seq<Ref> := [], chains[bucket];
      tmp, chains' := tmp0, chains0;
      PushNone(chains0, keys, hash);
      MoveBegin(keys, next, buckets, chains, bucket, tmp, chains', hash, equals);
      var first := buckets[bucket];
      while first.Some?
        invariant |buckets| == old(|buckets|) && |tmp| == |chains'| == |tmp0|
        invariant chains[bucket] == done + o && first == buckets[bucket] == First(o)
        invariant Moving(keys, next, buckets, chains, bucket, done, tmp, chains', hash, equals)
        invariant chains' == PushAll(chains0, done, keys, hash)
        decreases |o|
      {
        var x := first.value;
        MoveNode(keys, next, buckets, chains, bucket, done, o, tmp, chains', hash, equals);
        var newBucket := hash(getKey(vals[x])) % |tmp|;
        buckets := buckets[bucket := next[x]];
        next := next[x := tmp[newBucket]];
        tmp := tmp[newBucket := Some(x)];
        first := buckets[bucket];
        PushOne(chains0, done, x, keys, hash);
        chains' := chains'[newBucket := [x] + chains'[newBucket]];
        done, o := done + [x], o[1..];
      }
      assert done + o == done;
      MoveEnd(keys, next, buckets, chains, bucket, done, tmp, chains', hash, equals);
    }

    // resize: the nodes are taken from the front of each bucket and put in front of a new one.
    method Resize(hint: nat)
      requires Valid()
      modifies this
      ensures Valid() && vals == old(vals) && elements == old(elements) && unused == old(unused)
      ensures |buckets| == Grown(old(|buckets|), hint)
      ensures chains == Rehashed(old(chains), |buckets|, KeysOf(vals, getKey), hash)
    {
      hide TableOk, KeysOk, Complete, Moving, KeysOf, NextPrime, PushAll, From;
      ghost var keys := KeysOf(vals, getKey);
      Sizes(keys, next, buckets, chains, hash, equals);
      KeyOf(vals, getKey);
      var oldN := |buckets|;
      if hint <= oldN {
        return;
      }
      var n := NextPrime(hint);
      if n <= oldN {
        return;
      }
      var tmp: seq<Option<Ref>> := seq(n, _ => None);
      ghost var chains': seq<seq<Ref>> := NoChains(n);
      MoveStart(keys, next, buckets, chains, tmp, chains', hash, equals);
      for bucket := 0 to oldN
        modifies this
        invariant vals == old(vals) && elements == old(elements) && unused == old(unused)
        invariant |buckets| == |chains| == oldN && |tmp| == |chains'| == n
        invariant Moving(keys, next, buckets, chains, bucket, [], tmp, chains', hash, equals)
        invariant chains == old(chains)
        invariant PushAll(chains', From(chains, bucket), keys, hash) ==
                  PushAll(NoChains(n), From(chains, 0), keys, hash)
      {
        FromStep(chains, bucket);
        PushAllSplit(chains', chains[bucket], From(chains, bucket + 1), keys, hash);
        tmp, chains' := MoveBucket(bucket, tmp, chains', keys);
      }
      FromEnd(chains);
      PushNone(chains', keys, hash);
      MoveDone(keys, next, buckets, chains, tmp, chains', hash, equals);
      buckets, chains := tmp, chains';
    }

    // Takes out and deletes the node behind another one.
    method EraseBehind(b: nat, cur: Ref, x: Ref, ghost p: nat)
      requires Valid() && b < |chains| && p + 1 < |chains[b]| && cur == chains[b][p] && x == chains[b][p + 1]
      requires cur in next && x in next
      modifies this
      ensures Valid() && chains == old(chains)[b := old(chains[b])[..p + 1] + old(chains[b])[p + 2..]]
      ensures buckets == old(buckets)
      ensures x in old(vals) && vals == old(vals) - {x} && elements == old(elements) - 1
    {
      hide TableOk, KeysOk, Complete, KeysOf;
      ghost var keys := KeysOf(vals, getKey);
      KeyOf(vals, getKey);
      KeysWithout(vals, getKey, x);
      UnlinkBehind(keys, next, buckets, chains, hash, equals, b, p);
      OneLess(vals, x);
      next := next[cur := next[x]];
      vals, next := vals - {x}, next - {x};
      elements := elements - 1;
      chains := chains[b := chains[b][..p + 1] + chains[b][p + 2..]];
    }

    // The same for the first node of a bucket.
    method EraseFirst(b: nat, x: Ref)
      requires Valid() && b < |chains| && chains[b] != [] && x == chains[b][0] && b < |buckets| && x in next
      modifies this
      ensures Valid() && chains == old(chains)[b := old(chains[b])[1..]] && |buckets| == old(|buckets|)
      ensures x in old(vals) && vals == old(vals) - {x} && elements == old(elements) - 1
    {
      hide TableOk, KeysOk, Complete, KeysOf;
      ghost var keys := KeysOf(vals, getKey);
      KeyOf(vals, getKey);
      KeysWithout(vals, getKey, x);
      UnlinkFirst(keys, next, buckets, chains, hash, equals, b);
      OneLess(vals, x);
      buckets := buckets[b := next[x]];
      vals, next := vals - {x}, next - {x};
      elements := elements - 1;
      chains := chains[b := chains[b][1..]];
    }

    // The loop of erase(key): everything behind the first node of the bucket.
    method EraseTail(b: nat, first: Ref, key: K) returns (erased: nat)
      requires Valid() && b < |chains| == |buckets| && chains[b] != [] && first == chains[b][0]
      modifies this
      ensures Valid() && buckets == old(buckets) && |chains| == old(|chains|)
      ensures PartlyErased(old(vals), vals, equals, getKey, key, erased)
      ensures chains[b] != [] && first == chains[b][0] && NoneHas(vals, getKey, equals, key, chains[b][1..])
      ensures chains == old(chains)[b := [first] +
                        Remaining(old(chains[b])[1..], KeysOf(old(vals), getKey), equals, key)]
    {
      hide TableOk, KeysOk, Complete, KeysOf, NoneHas, PartlyErased, Remaining, Tail;
      ghost var before, was := vals, chains;
      ghost var p: nat := 0;
      erased := 0;
      var cur := first;
      Follow(KeysOf(vals, getKey), next, buckets, chains, hash, equals, b, 0);
      KeyOf(vals, getKey);
      TailStart(chains, b, vals, getKey, equals, key);
      var following := next[cur];
      while following.Some?
        invariant Valid() && buckets == old(buckets) && |chains| == old(|chains|) && p < |chains[b]|
        invariant chains[b][0] == first && cur == chains[b][p] && following == First(chains[b][p + 1..])
        invariant cur in vals && cur in next
        invariant Tail(was, chains, b, p, before, vals, getKey, equals, key, erased)
        decreases |chains[b]| - p
      {
        ghost var c := chains[b];
        Follow(KeysOf(vals, getKey), next, buckets, chains, hash, equals, b, p + 1);
        KeyOf(vals, getKey);
        var n := following.value;
        if equals(getKey(vals[n]), key) {
          TailErased(was, chains, b, p, before, vals, getKey, equals, key, erased);
          EraseBehind(b, cur, n, p);
          Follow(KeysOf(vals, getKey), next, buckets, chains, hash, equals, b, p);
          following := next[cur];
          erased := erased + 1;
        } else {
          TailKept(was, chains, b, p, before, vals, getKey, equals, key, erased);
          cur := n;
          following := next[cur];
          p := p + 1;
        }
      }
      TailDone(was, chains, b, p, before, vals, getKey, equals, key, erased);
    }

    // The bucket that erase(key) works on.
    method EraseInBucket(b: nat, key: K) returns (erased: nat)
      requires Valid() && b < |chains| == |buckets|
      modifies this
      ensures Valid() && |buckets| == |chains|
      ensures PartlyErased(old(vals), vals, equals, getKey, key, erased)
      ensures chains == old(chains)[b := Remaining(old(chains[b]), KeysOf(old(vals), getKey), equals, key)]
      ensures NoneHas(vals, getKey, equals, key, chains[b])
    {
      hide TableOk, KeysOk, Complete, KeysOf, NoneHas, PartlyErased, Remaining;
      ghost var before, was, keys, c := vals, chains, KeysOf(vals, getKey), chains[b];
      erased := 0;
      NothingErased(vals, equals, getKey, key);
      HeadOf(keys, next, buckets, chains, hash, equals, b);
      NoneHasNothing(vals, getKey, equals, key);
      NothingRemains(c, keys, equals, key);
      var first := buckets[b];
      if first.None? {
        assert was[b := c] == was;
        return;
      }
      var x := first.value;
      Follow(keys, next, buckets, chains, hash, equals, b, 0);
      KeyOf(before, getKey);
      RemainingFirst(c, x, keys, equals, key);
      ghost var kept := Remaining(c[1..], keys, equals, key);
      erased := EraseTail(b, x, key);
      ghost var tailed := vals;
      assert chains[b][1..] == kept;
      var first' := EraseHead(b, x, key);
      SameValue(before, tailed, getKey, equals, key, erased, x);
      if first' {
        StepErased(before, tailed, x, equals, getKey, key, erased);
        assert chains == was[b := kept];
        erased := erased + 1;
      }
    }

    // The first node of the bucket, behind which none has the key any more.
    method EraseHead(b: nat, x: Ref, key: K) returns (erased: bool)
      requires Valid() && b < |chains| == |buckets| && chains[b] != [] && x == chains[b][0]
      requires NoneHas(vals, getKey, equals, key, chains[b][1..])
      modifies this
      ensures Valid() && |buckets| == |chains| == old(|chains|) && x in old(vals)
      ensures erased == equals(getKey(old(vals)[x]), key)
      ensures vals == if erased then old(vals) - {x} else old(vals)
      ensures chains == if erased then old(chains)[b := old(chains)[b][1..]] else old(chains)
      ensures NoneHas(vals, getKey, equals, key, chains[b])
    {
      hide TableOk, KeysOk, Complete, KeysOf, NoneHas;
      KeyOf(vals, getKey);
      Follow(KeysOf(vals, getKey), next, buckets, chains, hash, equals, b, 0);
      ghost var d := chains[b];
      assert d == [x] + d[1..];
      erased := equals(getKey(vals[x]), key);
      if erased {
        assert x !in d[1..];
        NoneHasFewer(vals, getKey, equals, key, d[1..], x);
        EraseFirst(b, x);
        Sizes(KeysOf(vals, getKey), next, buckets, chains, hash, equals);
      } else {
        NoneHasMore(vals, getKey, equals, key, d[1..], x);
      }
    }

    // erase(key): all nodes with the key, and no others.
    method EraseKey(key: K) returns (erased: nat)
      requires Valid()
      modifies this
      ensures Valid() && |buckets| == old(|buckets|)
      ensures vals == Lacking(old(vals), getKey, equals, key)
      ensures chains == WithoutKey(old(chains), hash(key), KeysOf(old(vals), getKey), equals, key)
      ensures erased == old(|vals|) - |vals| && elements == |vals|
    {
      hide TableOk, KeysOk, Complete, KeysOf, NoneHas, PartlyErased, Lacking, Remaining;
      Sizes(KeysOf(vals, getKey), next, buckets, chains, hash, equals);
      var b := BucketOf(key);
      ghost var before := vals;
      erased := EraseInBucket(b, key);
      Sizes(KeysOf(vals, getKey), next, buckets, chains, hash, equals);
      NoneHasKeys(vals, getKey, equals, key, chains[b]);
      NotFound(KeysOf(vals, getKey), chains, hash, equals, key, b);
      ErasedAll(before, vals, getKey, equals, key, erased);
    }

    // The loop over the buckets behind bucket b, in operator++, begin and equal_range.
    method FirstFrom(b0: nat) returns (cur: Option<Ref>)
      requires Valid() && b0 <= |buckets|
      ensures cur == First(From(chains, b0))
    {
      hide KeysOk, Complete, KeysOf, TableOk, From;
      Sizes(KeysOf(vals, getKey), next, buckets, chains, hash, equals);
      var b := b0;
      while b < |buckets|
        invariant b0 <= b <= |buckets| && From(chains, b0) == From(chains, b)
      {
        HeadOf(KeysOf(vals, getKey), next, buckets, chains, hash, equals, b);
        FromStep(chains, b);
        if buckets[b].Some? {
          return buckets[b];
        }
        b := b + 1;
      }
      FromEnd(chains);
      cur := None;
    }

    // begin()
    method Begin() returns (cur: Option<Ref>)
      requires Valid()
      ensures cur == First(From(chains, 0))
    {
      cur := FirstFrom(0);
    }

    // operator++ of an iterator that stands at position p of all nodes
    method Increment(cur: Ref, ghost p: nat) returns (following: Option<Ref>)
      requires Valid() && p < |From(chains, 0)| && From(chains, 0)[p] == cur
      ensures following == First(From(chains, 0)[p + 1..])
    {
      hide KeysOk, Complete, KeysOf, TableOk, From;
      ghost var keys := KeysOf(vals, getKey);
      Sizes(keys, next, buckets, chains, hash, equals);
      KeyOf(vals, getKey);
      ghost var b, a := Position(keys, next, buckets, chains, hash, equals, p);
      Follow(keys, next, buckets, chains, hash, equals, b, a);
      following := next[cur];
      if following.None? {
        var bucket := BucketOf(getKey(vals[cur]));
        following := FirstFrom(bucket + 1);
        assert chains[b][a + 1..] + From(chains, b + 1) == From(chains, b + 1);
      }
    }

    // equal_range: of all nodes in their order, exactly those from position i to position j have the key.
    method EqualRange(key: K) returns (first: Option<Ref>, last: Option<Ref>, ghost i: nat, ghost j: nat)
      requires Valid()
      ensures i <= j <= |From(chains, 0)| && first == First(From(chains, 0)[i..]) && last == First(From(chains, 0)[j..])
      ensures forall p :: 0 <= p < |From(chains, 0)| ==>
        From(chains, 0)[p] in vals && (equals(getKey(vals[From(chains, 0)[p]]), key) <==> i <= p < j)
      ensures j - i == |Having(vals, getKey, equals, key)|
      ensures first == FirstWith(From(chains, 0), KeysOf(vals, getKey), equals, key)
    {
      hide KeysOk, Complete, KeysOf, TableOk, From, Having, FirstWith, FirstAt;
      ghost var keys, all := KeysOf(vals, getKey), From(chains, 0);
      Sizes(keys, next, buckets, chains, hash, equals);
      KeyOf(vals, getKey);
      var b := BucketOf(key);
      ghost var p, q;
      first, p := Search(b, key);
      FirstOfAll(keys, next, buckets, chains, hash, equals, key, b, 0);
      if first.None? {
        assert chains[b][..p] == chains[b];
        NotFound(keys, chains, hash, equals, key, b);
        AllNodes(keys, next, buckets, chains, hash, equals);
        i, j := |all|, |all|;
        EachOnce(keys, next, buckets, chains, hash, equals);
        CountHaving(vals, getKey, equals, key, all, i, j);
        return None, None, i, j;
      }
      last, q := EndOfRange(b, p, first.value, key);
      i, j := RangeBounds(keys, next, buckets, chains, hash, equals, key, b, p, q);
      EachOnce(keys, next, buckets, chains, hash, equals);
      CountHaving(vals, getKey, equals, key, all, i, j);
    }

    // The inner loops of equal_range.
    method EndOfRange(b: nat, ghost p: nat, first: Ref, key: K) returns (last: Option<Ref>, ghost q: nat)
      requires Valid() && b < |buckets| == |chains| && p < |chains[b]| && first == chains[b][p] && first in vals
      requires equals(getKey(vals[first]), key)
      ensures p < q <= |chains[b]| && last == First(chains[b][q..] + From(chains, b + 1))
      ensures forall a :: p <= a < q ==> chains[b][a] in vals && equals(getKey(vals[chains[b][a]]), key)
      ensures q < |chains[b]| ==> chains[b][q] in vals && !equals(getKey(vals[chains[b][q]]), key)
    {
      hide KeysOk, Complete, KeysOf, TableOk, From;
      ghost var keys, c := KeysOf(vals, getKey), chains[b];
      KeyOf(vals, getKey);
      Follow(keys, next, buckets, chains, hash, equals, b, p);
      var cur := next[first];
      q := p + 1;
      while cur.Some?
        invariant p < q <= |c| && cur == First(c[q..])
        invariant forall a :: p <= a < q ==> c[a] in vals && equals(getKey(vals[c[a]]), key)
        decreases |c| - q
      {
        Follow(keys, next, buckets, chains, hash, equals, b, q);
        assert cur.value == c[q];
        if !equals(getKey(vals[cur.value]), key) {
          return cur, q;
        }
        cur := next[cur.value];
        q := q + 1;
      }
      last := FirstFrom(b + 1);
      assert c[q..] + From(chains, b + 1) == From(chains, b + 1);
    }

    // _M_erase_bucket(b, first, last), where first is node i of the bucket, and last is node
    // j of it or null.
    method EraseBucket(b: nat, first: Option<Ref>, last: Option<Ref>, ghost i: nat, ghost j: nat)
      requires Valid() && b < |buckets| == |chains| && i < j <= |chains[b]|
      requires first == First(chains[b][i..]) && last == First(chains[b][j..])
      modifies this
      ensures Valid() && chains == old(chains)[b := ErasedInBucket(old(chains[b]), i, j)]
      ensures forall r <- vals :: r in old(vals) && vals[r] == old(vals)[r]
    {
      hide TableOk, KeysOk, Complete, KeysOf;
      ghost var c, was := chains[b], chains;
      HeadOf(KeysOf(vals, getKey), next, buckets, chains, hash, equals, b);
      Follow(KeysOf(vals, getKey), next, buckets, chains, hash, equals, b, i);
      if buckets[b] == first {
        assert c[0] == c[i] && i == 0;
        EraseUpTo(b, last, j);
        return;
      }
      assert i > 0 by { assert c[0..] == c; }
      Follow(KeysOf(vals, getKey), next, buckets, chains, hash, equals, b, 0);
      var cur := buckets[b].value;
      var following := next[cur];
      ghost var p: nat := 0;
      while following != first
        modifies {}
        invariant p < i && cur == c[p] && following == First(c[p + 1..])
        decreases i - p
      {
        assert p + 1 != i;
        Follow(KeysOf(vals, getKey), next, buckets, chains, hash, equals, b, p + 1);
        cur := following.value;
        following := next[cur];
        p := p + 1;
      }
      assert p + 1 == i by { assert c[p + 1] == c[i]; }
      EraseRest(b, cur, following, p);
    }

    // The loop of _M_erase_bucket(b, last).
    method EraseUpTo(b: nat, last: Option<Ref>, ghost j: nat)
      requires Valid() && b < |buckets| == |chains| && j <= |chains[b]| && last == First(chains[b][j..])
      modifies this
      ensures Valid() && chains == old(chains)[b := old(chains[b])[j..]]
      ensures forall r <- vals :: r in old(vals) && vals[r] == old(vals)[r]
    {
      hide TableOk, KeysOk, Complete, KeysOf;
      ghost var c, was := chains[b], chains;
      ghost var p: nat := 0;
      HeadOf(KeysOf(vals, getKey), next, buckets, chains, hash, equals, b);
      var cur := buckets[b];
      assert c[0..] == c;
      DistinctAt(KeysOf(vals, getKey), next, buckets, chains, hash, equals, b);
      while cur != last
        invariant Valid() && p <= j && |buckets| == |was| && chains == was[b := c[p..]] && cur == First(c[p..])
        invariant Distinct(c)
        invariant forall r <- vals :: r in old(vals) && vals[r] == old(vals)[r]
        decreases j - p
      {
        Follow(KeysOf(vals, getKey), next, buckets, chains, hash, equals, b, 0);
        var following := next[cur.value];
        assert c[p..][0] == c[p] && c[p..][1..] == c[p + 1..] && p < j;
        EraseFirst(b, cur.value);
        cur := following;
        p := p + 1;
      }
      SameNode(c, p, j);
    }

    // The loop behind a node that is kept: it goes on to the end of the chain.
    method EraseRest(b: nat, cur: Ref, following0: Option<Ref>, ghost p: nat)
      requires Valid() && b < |buckets| == |chains| && p < |chains[b]| && cur == chains[b][p]
      requires following0 == First(chains[b][p + 1..])
      modifies this
      ensures Valid() && chains == old(chains)[b := old(chains[b])[..p + 1]]
      ensures forall r <- vals :: r in old(vals) && vals[r] == old(vals)[r]
    {
      hide TableOk, KeysOk, Complete, KeysOf;
      ghost var c, was := chains[b], chains;
      var following := following0;
      ghost var q: nat := p + 1;
      assert c[..p + 1] + c[q..] == c;
      while following.Some?
        invariant Valid() && p < q <= |c| && |buckets| == |was| && chains == was[b := c[..p + 1] + c[q..]]
        invariant following == First(c[q..])
        invariant forall r <- vals :: r in old(vals) && vals[r] == old(vals)[r]
        decreases |c| - q
      {
        ghost var d := chains[b];
        assert d[p] == cur && d[p + 1] == c[q];
        Follow(KeysOf(vals, getKey), next, buckets, chains, hash, equals, b, p);
        Follow(KeysOf(vals, getKey), next, buckets, chains, hash, equals, b, p + 1);
        EraseBehind(b, cur, following.value, p);
        assert d[..p + 1] == c[..p + 1] && d[p + 2..] == c[q + 1..];
        assert chains[b][p + 1..] == c[q + 1..];
        Follow(KeysOf(vals, getKey), next, buckets, chains, hash, equals, b, p);
        following := next[cur];
        q := q + 1;
      }
      assert c[..p + 1] + c[q..] == c[..p + 1];
    }

    // ----- runs -----

    // At least as many buckets as elements, as long as there are sizes for it.
    ghost predicate Roomy()
      reads this
    {
      elements <= |buckets| || |buckets| >= 4294967291
    }

    method Execute(op: Op<K, V>)
      requires Valid()
      modifies this
      ensures Valid() && ValuesOf(vals) == Meaning(op, getKey, equals, old(ValuesOf(vals)))
      ensures |buckets| >= old(|buckets|)
      ensures old(Roomy()) ==> Roomy()
    {
      hide KeysOk, TableOk, Complete, KeysOf, ValuesOf, Lacking, Without, Rehashed, Grown;
      ghost var before := vals;
      match op
      case AddUnique(obj) =>
        var n, inserted := InsertUnique(obj);
        KeyAmongValues(before, getKey, equals, getKey(obj));
        if inserted { ValuesWith(before, n, obj); }
      case AddEqual(obj) =>
        var n := InsertEqual(obj);
        ValuesWith(before, n, obj);
      case EraseAll(key) =>
        var _ := EraseKey(key);
        ValuesLacking(before, getKey, equals, key);
      case Rehash(hint) => Resize(hint);
    }

    // Any run of operations does to the values what its operations do to a multiset.
    method Run(ops: seq<Op<K, V>>)
      requires Valid()
      modifies this
      ensures Valid() && ValuesOf(vals) == AfterAll(ops, getKey, equals, old(ValuesOf(vals)))
      ensures elements == |ValuesOf(vals)|
      ensures |buckets| >= old(|buckets|) && (old(Roomy()) ==> Roomy())
    {
      hide KeysOk, TableOk, Complete, KeysOf, ValuesOf, Meaning;
      for i := 0 to |ops|
        invariant Valid() && |buckets| >= old(|buckets|) && (old(Roomy()) ==> Roomy())
        invariant AfterAll(ops[i..], getKey, equals, ValuesOf(vals)) ==
                  AfterAll(ops, getKey, equals, old(ValuesOf(vals)))
      {
        assert ops[i..][1..] == ops[i + 1..];
        Execute(ops[i]);
      }
      ValuesCount(vals);
    }
  }

  lemma DistinctAt<K>(keys: map<Ref, K>, next: Links, buckets: seq<Option<Ref>>, chains: seq<seq<Ref>>,
                      hash: K -> nat, equals: (K, K) -> bool, b: nat)
    requires TableOk(keys, next, buckets, chains, hash, equals) && b < |chains|
    ensures Distinct(chains[b])
  {
    assert ChainOk(keys, hash, equals, chains[b], b, |chains|);
  }

  lemma SameNode(c: seq<Ref>, p: nat, j: nat)
    requires Distinct(c) && p <= |c| && j <= |c| && First(c[p..]) == First(c[j..])
    ensures p == j
  {
    if p < |c| { assert c[p..][0] == c[p]; }
    if j < |c| { assert c[j..][0] == c[j]; }
  }

  lemma NothingIn<K, V>(n: nat, hash: K -> nat, equals: (K, K) -> bool, getKey: V -> K)
    requires n > 0
    ensures var vals: map<Ref, V> := map[];
      && TableOk(KeysOf(vals, getKey), map[], seq(n, _ => None), NoChains(n), hash, equals)
      && Complete(KeysOf(vals, getKey), NoChains(n), hash)
  {
  }

  // All nodes in the order of iteration: the chains from bucket i on.
  ghost function From(chains: seq<seq<Ref>>, i: nat): seq<Ref>
    decreases |chains| - i
  {
    if i >= |chains| then [] else chains[i] + From(chains, i + 1)
  }

  lemma FromStep(chains: seq<seq<Ref>>, i: nat)
    requires i < |chains|
    ensures From(chains, i) == chains[i] + From(chains, i + 1)
    ensures chains[i] == [] ==> From(chains, i) == From(chains, i + 1)
    ensures chains[i] != [] ==> First(From(chains, i)) == First(chains[i])
  {
  }

  lemma FromEnd(chains: seq<seq<Ref>>)
    ensures From(chains, |chains|) == []
  {
  }

  /** Of all nodes with a key, the first is that of the bucket where the key belongs. */
  lemma {:induction false} FirstOfAll<K(!new)>(keys: map<Ref, K>, next: Links, buckets: seq<Option<Ref>>,
                                               chains: seq<seq<Ref>>, hash: K -> nat, equals: (K, K) -> bool,
                                               key: K, b: nat, i: nat)
    requires KeysOk(hash, equals) && TableOk(keys, next, buckets, chains, hash, equals)
    requires b < |chains| && b == hash(key) % |chains| && i <= |chains|
    ensures FirstWith(From(chains, i), keys, equals, key) ==
            if i <= b then FirstWith(chains[b], keys, equals, key) else None
    decreases |chains| - i
  {
    hide TableOk, FirstAt, KeysOk;
    if i == |chains| {
      FromEnd(chains);
    } else {
      FirstOfAll(keys, next, buckets, chains, hash, equals, key, b, i + 1);
      FromStep(chains, i);
      FirstOfBoth(chains[i], From(chains, i + 1), keys, equals, key);
      if i != b {
        NoneInOther(keys, next, buckets, chains, hash, equals, key, b, i);
      }
    }
  }

  lemma NoneInOther<K(!new)>(keys: map<Ref, K>, next: Links, buckets: seq<Option<Ref>>, chains: seq<seq<Ref>>,
                             hash: K -> nat, equals: (K, K) -> bool, key: K, b: nat, i: nat)
    requires KeysOk(hash, equals) && TableOk(keys, next, buckets, chains, hash, equals)
    requires b < |chains| && b == hash(key) % |chains| && i < |chains| && i != b
    ensures FirstWith(chains[i], keys, equals, key) == None
  {
    hide TableOk;
    var p := FirstAt(chains[i], keys, equals, key);
    if p < |chains[i]| {
      InBucket(keys, next, buckets, chains, hash, equals, i, chains[i][p]);
      assert false;
    }
  }

  lemma FirstOfBoth<K>(a: seq<Ref>, b: seq<Ref>, keys: map<Ref, K>, equals: (K, K) -> bool, key: K)
    ensures var f := FirstWith(a, keys, equals, key);
      FirstWith(a + b, keys, equals, key) == if f.Some? then f else FirstWith(b, keys, equals, key)
  {
    hide FirstAt;
    var p, q := FirstAt(a, keys, equals, key), FirstAt(b, keys, equals, key);
    if p < |a| {
      assert (a + b)[..p] == a[..p];
      FirstAtIs(a + b, keys, equals, key, p);
    } else {
      assert (a + b)[..|a| + q] == a + b[..q];
      FirstAtIs(a + b, keys, equals, key, |a| + q);
    }
  }

  // The node at a position of the nodes from bucket i on: node a of chain b.
  lemma {:induction false} Locate(chains: seq<seq<Ref>>, i: nat, p: nat) returns (b: nat, a: nat)
    requires i <= |chains| && p < |From(chains, i)|
    ensures i <= b < |chains| && a < |chains[b]| && From(chains, i)[p] == chains[b][a]
    ensures From(chains, i)[p + 1..] == chains[b][a + 1..] + From(chains, b + 1)
    decreases |chains| - i
  {
    FromStep(chains, i);
    if p < |chains[i]| {
      b, a := i, p;
      assert From(chains, i)[p + 1..] == chains[i][p + 1..] + From(chains, i + 1);
    } else {
      b, a := Locate(chains, i + 1, p - |chains[i]|);
      assert From(chains, i)[p + 1..] == From(chains, i + 1)[p - |chains[i]| + 1..];
    }
  }

  lemma Position<K>(keys: map<Ref, K>, next: Links, buckets: seq<Option<Ref>>, chains: seq<seq<Ref>>,
                    hash: K -> nat, equals: (K, K) -> bool, p: nat) returns (b: nat, a: nat)
    requires TableOk(keys, next, buckets, chains, hash, equals) && p < |From(chains, 0)|
    ensures b < |chains| && a < |chains[b]| && From(chains, 0)[p] == chains[b][a]
    ensures chains[b][a] in keys && hash(keys[chains[b][a]]) % |chains| == b
    ensures From(chains, 0)[p + 1..] == chains[b][a + 1..] + From(chains, b + 1)
  {
    hide TableOk;
    b, a := Locate(chains, 0, p);
    InBucket(keys, next, buckets, chains, hash, equals, b, chains[b][a]);
  }

  lemma AllNodes<K>(keys: map<Ref, K>, next: Links, buckets: seq<Option<Ref>>, chains: seq<seq<Ref>>, hash: K -> nat,
                    equals: (K, K) -> bool)
    requires TableOk(keys, next, buckets, chains, hash, equals)
    ensures forall p :: 0 <= p < |From(chains, 0)| ==> From(chains, 0)[p] in keys
  {
    hide TableOk, From;
    forall p | 0 <= p < |From(chains, 0)| ensures From(chains, 0)[p] in keys {
      var b, a := Position(keys, next, buckets, chains, hash, equals, p);
    }
  }

  // The nodes before bucket b.
  ghost function Before(chains: seq<seq<Ref>>, b: nat): seq<Ref>
    requires b <= |chains|
  {
    if b == 0 then [] else Before(chains, b - 1) + chains[b - 1]
  }

  lemma {:induction false} BeforeFrom(chains: seq<seq<Ref>>, b: nat)
    requires b <= |chains|
    ensures From(chains, 0) == Before(chains, b) + From(chains, b)
  {
    if b > 0 {
      BeforeFrom(chains, b - 1);
      FromStep(chains, b - 1);
    }
  }

  lemma {:induction false} InBefore(chains: seq<seq<Ref>>, b: nat, p: nat) returns (i: nat, a: nat)
    requires b <= |chains| && p < |Before(chains, b)|
    ensures i < b && a < |chains[i]| && Before(chains, b)[p] == chains[i][a]
  {
    if p >= |Before(chains, b - 1)| {
      i, a := b - 1, p - |Before(chains, b - 1)|;
    } else {
      i, a := InBefore(chains, b - 1, p);
    }
  }

  /** Equal keys are in one bucket and next to each other, so that they are next to each other
      among all nodes. */
  lemma RangeBounds<K(!new)>(keys: map<Ref, K>, next: Links, buckets: seq<Option<Ref>>, chains: seq<seq<Ref>>,
                             hash: K -> nat, equals: (K, K) -> bool, key: K, b: nat, p: nat,
                             q: nat) returns (i: nat, j: nat)
    requires KeysOk(hash, equals) && TableOk(keys, next, buckets, chains, hash, equals) && b < |chains|
    requires b == hash(key) % |chains|
    requires p < q <= |chains[b]|
    requires forall r <- chains[b][..p] :: r in keys && !equals(keys[r], key)
    requires forall a :: p <= a < q ==> chains[b][a] in keys && equals(keys[chains[b][a]], key)
    requires q < |chains[b]| ==> chains[b][q] in keys && !equals(keys[chains[b][q]], key)
    ensures i <= j <= |From(chains, 0)| && First(From(chains, 0)[i..]) == Some(chains[b][p])
    ensures First(From(chains, 0)[j..]) == First(chains[b][q..] + From(chains, b + 1))
    ensures forall k :: 0 <= k < |From(chains, 0)| ==>
      From(chains, 0)[k] in keys && (equals(keys[From(chains, 0)[k]], key) <==> i <= k < j)
  {
    hide TableOk, From, Before;
    var all, front, c := From(chains, 0), |Before(chains, b)|, chains[b];
    BeforeFrom(chains, b);
    FromStep(chains, b);
    i, j := front + p, front + q;
    assert all[j..] == c[q..] + From(chains, b + 1);
    assert all[i] == c[p];
    forall k | 0 <= k < |all| ensures all[k] in keys && (equals(keys[all[k]], key) <==> i <= k < j) {
      if k < front {
        var e, a := InBefore(chains, b, k);
        ElsewhereUnequal(keys, next, buckets, chains, hash, equals, key, b, e, chains[e][a]);
      } else if k < front + |c| {
        assert all[k] == c[k - front];
        WithinChain(keys, next, buckets, chains, hash, equals, key, b, p, q, k - front);
      } else {
        var e, a := Locate(chains, b + 1, k - front - |c|);
        assert all[k] == From(chains, b + 1)[k - front - |c|];
        ElsewhereUnequal(keys, next, buckets, chains, hash, equals, key, b, e, chains[e][a]);
      }
    }
  }

  lemma ElsewhereUnequal<K(!new)>(keys: map<Ref, K>, next: Links, buckets: seq<Option<Ref>>, chains: seq<seq<Ref>>,
                                  hash: K -> nat, equals: (K, K) -> bool, key: K, b: nat, e: nat, r: Ref)
    requires KeysOk(hash, equals) && TableOk(keys, next, buckets, chains, hash, equals) && b < |chains|
    requires b == hash(key) % |chains|
    requires e < |chains| && e != b && r in chains[e]
    ensures r in keys && !equals(keys[r], key)
  {
    hide TableOk;
    InBucket(keys, next, buckets, chains, hash, equals, e, r);
  }

  lemma GroupAt<K>(keys: map<Ref, K>, equals: (K, K) -> bool, c: seq<Ref>, i: nat, j: nat, k: nat)
    requires Grouped(keys, equals, c) && i < j < k < |c|
    ensures c[i] in keys && c[j] in keys && c[k] in keys
    ensures !equals(keys[c[i]], keys[c[k]]) || equals(keys[c[i]], keys[c[j]])
  {
  }

  lemma WithinChain<K(!new)>(keys: map<Ref, K>, next: Links, buckets: seq<Option<Ref>>, chains: seq<seq<Ref>>,
                             hash: K -> nat, equals: (K, K) -> bool, key: K, b: nat, p: nat, q: nat, k: nat)
    requires KeysOk(hash, equals) && TableOk(keys, next, buckets, chains, hash, equals) && b < |chains|
    requires p < q <= |chains[b]| && k < |chains[b]|
    requires forall r <- chains[b][..p] :: r in keys && !equals(keys[r], key)
    requires forall a :: p <= a < q ==> chains[b][a] in keys && equals(keys[chains[b][a]], key)
    requires q < |chains[b]| ==> chains[b][q] in keys && !equals(keys[chains[b][q]], key)
    ensures chains[b][k] in keys && (equals(keys[chains[b][k]], key) <==> p <= k < q)
  {
    hide TableOk, KeysOk;
    var c := chains[b];
    InBucket(keys, next, buckets, chains, hash, equals, b, c[k]);
    if k < p {
      assert c[k] in c[..p] by { assert c[k] == c[..p][k]; }
    } else if k > q {
      ChainAt(keys, next, buckets, chains, hash, equals, b);
      BehindRange(keys, hash, equals, key, c, p, q, k);
    }
  }

  lemma BehindRange<K(!new)>(keys: map<Ref, K>, hash: K -> nat, equals: (K, K) -> bool, key: K, c: seq<Ref>, p: nat,
                             q: nat, k: nat)
    requires KeysOk(hash, equals) && Grouped(keys, equals, c) && p < q < k < |c|
    requires equals(keys[c[p]], key) && !equals(keys[c[q]], key)
    ensures !equals(keys[c[k]], key)
  {
    hide Grouped;
    GroupAt(keys, equals, c, p, q, k);
    Unequal(hash, equals, keys[c[p]], keys[c[q]], keys[c[k]], key);
  }

  lemma Unequal<K(!new)>(hash: K -> nat, equals: (K, K) -> bool, x: K, y: K, z: K, key: K)
    requires KeysOk(hash, equals) && equals(x, key) && !equals(y, key) && (!equals(x, z) || equals(x, y))
    ensures !equals(z, key)
  {
    assert equals(x, y) ==> equals(y, x);
    assert equals(z, key) ==> equals(key, z);
  }

  lemma NoneHasNothing<K, V>(vals: map<Ref, V>, getKey: V -> K, equals: (K, K) -> bool, key: K)
    ensures NoneHas(vals, getKey, equals, key, [])
  {
  }

  // What erasing by key has done so far: nothing but nodes with the key is gone.
  ghost predicate PartlyErased<K, V>(before: map<Ref, V>, vals: map<Ref, V>, equals: (K, K) -> bool, getKey: V -> K,
                                     key: K, erased: nat) {
    && (forall r <- vals :: r in before && vals[r] == before[r])
    && (forall r <- before :: r in vals || equals(getKey(before[r]), key))
    && erased + |vals| == |before|
  }

  lemma NothingErased<K, V>(vals: map<Ref, V>, equals: (K, K) -> bool, getKey: V -> K, key: K)
    ensures PartlyErased(vals, vals, equals, getKey, key, 0)
  {
  }

  lemma StepErased<K, V>(before: map<Ref, V>, vals: map<Ref, V>, n: Ref, equals: (K, K) -> bool, getKey: V -> K, key: K,
                         erased: nat)
    requires PartlyErased(before, vals, equals, getKey, key, erased) && n in vals && equals(getKey(vals[n]), key)
    ensures PartlyErased(before, vals - {n}, equals, getKey, key, erased + 1)
  {
    OneLess(vals, n);
  }

  // Up to position p, the chain that is being erased from has only nodes that stay.
  ghost predicate Tail<K, V>(was: seq<seq<Ref>>, chains: seq<seq<Ref>>, b: nat, p: nat, before: map<Ref, V>,
                             vals: map<Ref, V>, getKey: V -> K, equals: (K, K) -> bool, key: K, erased: nat) {
    && b < |chains| == |was| && was[b] != [] && p < |chains[b]| && chains == was[b := chains[b]]
    && PartlyErased(before, vals, equals, getKey, key, erased)
    && NoneHas(vals, getKey, equals, key, chains[b][1..p + 1])
    && chains[b][1..p + 1] + Remaining(chains[b][p + 1..], KeysOf(before, getKey), equals, key) ==
       Remaining(was[b][1..], KeysOf(before, getKey), equals, key)
  }

  lemma TailStart<K, V>(chains: seq<seq<Ref>>, b: nat, vals: map<Ref, V>, getKey: V -> K, equals: (K, K) -> bool,
                        key: K)
    requires b < |chains| && chains[b] != []
    ensures Tail(chains, chains, b, 0, vals, vals, getKey, equals, key, 0)
  {
    hide Remaining, KeysOf, NoneHas;
    assert chains[b][1..1] == [] && chains[b := chains[b]] == chains;
    NoneHasNothing(vals, getKey, equals, key);
    var kept := Remaining(chains[b][1..], KeysOf(vals, getKey), equals, key);
    assert [] + kept == kept;
  }

  lemma TailErased<K(!new), V>(was: seq<seq<Ref>>, chains: seq<seq<Ref>>, b: nat, p: nat, before: map<Ref, V>,
                               vals: map<Ref, V>, getKey: V -> K, equals: (K, K) -> bool, key: K, erased: nat)
    requires Tail(was, chains, b, p, before, vals, getKey, equals, key, erased)
    requires p + 1 < |chains[b]| && Distinct(chains[b]) && chains[b][p + 1] in vals
    requires equals(getKey(vals[chains[b][p + 1]]), key)
    ensures var c := chains[b];
      Tail(was, chains[b := c[..p + 1] + c[p + 2..]], b, p, before, vals - {c[p + 1]}, getKey, equals, key, erased + 1)
  {
    hide Remaining, KeysOf, NoneHas, PartlyErased;
    var c, n := chains[b], chains[b][p + 1];
    var d := c[..p + 1] + c[p + 2..];
    StepErased(before, vals, n, equals, getKey, key, erased);
    NotBefore(c, p);
    NoneHasFewer(vals, getKey, equals, key, c[1..p + 1], n);
    RemainingStep(c, p, before, vals, getKey, equals, key, erased);
    assert d[1..p + 1] == c[1..p + 1] && d[p + 1..] == c[p + 2..];
    assert chains[b := d] == was[b := d];
  }

  lemma TailKept<K(!new), V>(was: seq<seq<Ref>>, chains: seq<seq<Ref>>, b: nat, p: nat, before: map<Ref, V>,
                             vals: map<Ref, V>, getKey: V -> K, equals: (K, K) -> bool, key: K, erased: nat)
    requires Tail(was, chains, b, p, before, vals, getKey, equals, key, erased)
    requires p + 1 < |chains[b]| && chains[b][p + 1] in vals && !equals(getKey(vals[chains[b][p + 1]]), key)
    ensures Tail(was, chains, b, p + 1, before, vals, getKey, equals, key, erased)
  {
    hide Remaining, KeysOf, NoneHas, PartlyErased;
    var c, n := chains[b], chains[b][p + 1];
    RemainingStep(c, p, before, vals, getKey, equals, key, erased);
    assert c[1..p + 2] == c[1..p + 1] + [n];
    NoneHasMore(vals, getKey, equals, key, c[1..p + 1], n);
  }

  lemma TailDone<K, V>(was: seq<seq<Ref>>, chains: seq<seq<Ref>>, b: nat, p: nat, before: map<Ref, V>,
                       vals: map<Ref, V>, getKey: V -> K, equals: (K, K) -> bool, key: K, erased: nat)
    requires Tail(was, chains, b, p, before, vals, getKey, equals, key, erased) && p + 1 >= |chains[b]|
    ensures PartlyErased(before, vals, equals, getKey, key, erased)
    ensures NoneHas(vals, getKey, equals, key, chains[b][1..])
    ensures chains == was[b := [chains[b][0]] + Remaining(was[b][1..], KeysOf(before, getKey), equals, key)]
  {
    hide KeysOf, NoneHas, PartlyErased;
    var c, kept := chains[b], Remaining(was[b][1..], KeysOf(before, getKey), equals, key);
    assert c[p + 1..] == [] && c[1..] == c[1..p + 1];
    NothingRemains(c[p + 1..], KeysOf(before, getKey), equals, key);
    assert kept == c[1..] && c == [c[0]] + kept;
  }

  // One node more behind position p: it stays or goes.
  lemma RemainingStep<K, V>(c: seq<Ref>, p: nat, before: map<Ref, V>, vals: map<Ref, V>, getKey: V -> K,
                            equals: (K, K) -> bool, key: K, erased: nat)
    requires p + 1 < |c| && PartlyErased(before, vals, equals, getKey, key, erased) && c[p + 1] in vals
    ensures var keys := KeysOf(before, getKey);
      c[1..p + 1] + Remaining(c[p + 1..], keys, equals, key) ==
      (if equals(getKey(vals[c[p + 1]]), key) then c[1..p + 1] else c[1..p + 2]) +
      Remaining(c[p + 2..], keys, equals, key)
  {
    KeyOf(before, getKey);
    var keys, x := KeysOf(before, getKey), c[p + 1];
    RemainingFirst(c[p + 1..], x, keys, equals, key);
    hide Remaining, KeysOf;
    assert c[p + 1..][1..] == c[p + 2..] && c[1..p + 2] == c[1..p + 1] + [x];
  }

  lemma SameValue<K, V>(before: map<Ref, V>, vals: map<Ref, V>, getKey: V -> K, equals: (K, K) -> bool, key: K,
                        erased: nat, x: Ref)
    requires PartlyErased(before, vals, equals, getKey, key, erased) && x in vals
    ensures x in before && vals[x] == before[x]
  {
  }

  lemma NotBefore(c: seq<Ref>, p: nat)
    requires Distinct(c) && p + 1 < |c|
    ensures c[p + 1] !in c[1..p + 1] && c[p + 1] != c[p]
  {
  }

  // None of the nodes in s has the key.
  ghost predicate NoneHas<K, V>(vals: map<Ref, V>, getKey: V -> K, equals: (K, K) -> bool, key: K, s: seq<Ref>) {
    forall r <- s :: r in vals && !equals(getKey(vals[r]), key)
  }

  lemma NoneHasFewer<K, V>(vals: map<Ref, V>, getKey: V -> K, equals: (K, K) -> bool, key: K, s: seq<Ref>, n: Ref)
    requires NoneHas(vals, getKey, equals, key, s) && n !in s
    ensures NoneHas(vals - {n}, getKey, equals, key, s)
  {
  }

  lemma NoneHasMore<K, V>(vals: map<Ref, V>, getKey: V -> K, equals: (K, K) -> bool, key: K, s: seq<Ref>, n: Ref)
    requires NoneHas(vals, getKey, equals, key, s) && n in vals && !equals(getKey(vals[n]), key)
    ensures NoneHas(vals, getKey, equals, key, s + [n]) && NoneHas(vals, getKey, equals, key, [n] + s)
  {
  }

  lemma NoneHasKeys<K, V>(vals: map<Ref, V>, getKey: V -> K, equals: (K, K) -> bool, key: K, s: seq<Ref>)
    requires NoneHas(vals, getKey, equals, key, s)
    ensures forall r <- s :: r in KeysOf(vals, getKey) && !equals(KeysOf(vals, getKey)[r], key)
  {
  }

  lemma ErasedAll<K(!new), V>(before: map<Ref, V>, vals: map<Ref, V>, getKey: V -> K, equals: (K, K) -> bool, key: K,
                              erased: nat)
    requires PartlyErased(before, vals, equals, getKey, key, erased)
    requires forall r <- KeysOf(vals, getKey) :: !equals(KeysOf(vals, getKey)[r], key)
    ensures vals == Lacking(before, getKey, equals, key) && erased == |before| - |vals|
  {
    KeyOf(vals, getKey);
    forall r <- vals ensures !equals(getKey(vals[r]), key) {
      assert !equals(KeysOf(vals, getKey)[r], key);
    }
  }

  lemma ChainAt<K>(keys: map<Ref, K>, next: Links, buckets: seq<Option<Ref>>, chains: seq<seq<Ref>>,
                   hash: K -> nat, equals: (K, K) -> bool, b: nat)
    requires TableOk(keys, next, buckets, chains, hash, equals) && b < |chains|
    ensures |buckets| == |chains| && Linked(next, buckets[b], chains[b])
    ensures ChainOk(keys, hash, equals, chains[b], b, |chains|)
  {
  }

  lemma AllFollow<K>(keys: map<Ref, K>, next: Links, buckets: seq<Option<Ref>>, chains: seq<seq<Ref>>,
                     hash: K -> nat, equals: (K, K) -> bool, b: nat)
    requires TableOk(keys, next, buckets, chains, hash, equals) && b < |chains|
    ensures |buckets| == |chains| && buckets[b] == First(chains[b]) == First(chains[b][0..])
    ensures forall p :: 0 <= p < |chains[b]| ==>
      chains[b][p] in keys && chains[b][p] in next && next[chains[b][p]] == First(chains[b][p + 1..])
  {
    hide TableOk;
    ChainAt(keys, next, buckets, chains, hash, equals, b);
    assert chains[b][0..] == chains[b];
    forall p | 0 <= p < |chains[b]|
      ensures chains[b][p] in keys && chains[b][p] in next && next[chains[b][p]] == First(chains[b][p + 1..])
    {
      Follow(keys, next, buckets, chains, hash, equals, b, p);
    }
  }

  // Node p of chain b, and what follows it.
  lemma Follow<K>(keys: map<Ref, K>, next: Links, buckets: seq<Option<Ref>>, chains: seq<seq<Ref>>,
                  hash: K -> nat, equals: (K, K) -> bool, b: nat, p: nat)
    requires TableOk(keys, next, buckets, chains, hash, equals) && b < |chains| && p < |chains[b]|
    ensures chains[b][p] in keys && chains[b][p] in next && next[chains[b][p]] == First(chains[b][p + 1..])
    ensures Distinct(chains[b])
  {
    assert Linked(next, buckets[b], chains[b]) && ChainOk(keys, hash, equals, chains[b], b, |chains|);
  }

  lemma HeadOf<K>(keys: map<Ref, K>, next: Links, buckets: seq<Option<Ref>>, chains: seq<seq<Ref>>,
                  hash: K -> nat, equals: (K, K) -> bool, b: nat)
    requires TableOk(keys, next, buckets, chains, hash, equals) && b < |chains|
    ensures b < |buckets| && buckets[b] == First(chains[b])
  {
    assert Linked(next, buckets[b], chains[b]);
  }

  lemma UnlinkBehind<K>(keys: map<Ref, K>, next: Links, buckets: seq<Option<Ref>>, chains: seq<seq<Ref>>,
                        hash: K -> nat, equals: (K, K) -> bool, b: nat, p: nat)
    requires TableOk(keys, next, buckets, chains, hash, equals) && Complete(keys, chains, hash) && b < |chains|
    requires p + 1 < |chains[b]|
    ensures var c := chains[b]; var cur, x := c[p], c[p + 1];
      var chains', next' := chains[b := c[..p + 1] + c[p + 2..]], next[cur := next[x]] - {x};
      x in keys && TableOk(keys - {x}, next', buckets, chains', hash, equals) && Complete(keys - {x}, chains', hash)
  {
    hide Complete;
    var c := chains[b];
    var cur, x := c[p], c[p + 1];
    var d := c[..p + 1] + c[p + 2..];
    assert Linked(next, buckets[b], c) && ChainOk(keys, hash, equals, c, b, |chains|);
    LinkedWithout(next, buckets[b], c, p);
    WithoutOk(keys, hash, equals, c, b, |chains|, p + 1);
    assert c[..p + 1] + c[p + 1 + 1..] == d;
    hide Linked, ChainOk;
    var next1 := next[cur := next[x]];
    Removed(keys, next1, buckets[b], c, d, hash, equals, b, |chains|, p + 1);
    InBucket(keys, next, buckets, chains, hash, equals, b, x);
    InBucket(keys, next, buckets, chains, hash, equals, b, cur);
    UpdateWithout(keys, next, next1, buckets, chains, hash, equals, b, cur, x, buckets[b], d);
    assert buckets[b := buckets[b]] == buckets;
    CompleteWithout(keys, chains, hash, b, p + 1);
  }

  lemma WithoutFirst(c: seq<Ref>)
    requires c != []
    ensures c[..0] + c[0 + 1..] == c[1..]
  {
  }

  lemma UnlinkFirst<K>(keys: map<Ref, K>, next: Links, buckets: seq<Option<Ref>>, chains: seq<seq<Ref>>,
                       hash: K -> nat, equals: (K, K) -> bool, b: nat)
    requires TableOk(keys, next, buckets, chains, hash, equals) && Complete(keys, chains, hash) && b < |chains|
    requires chains[b] != []
    ensures chains[b][0] in keys && chains[b][0] in next
    ensures TableOk(keys - {chains[b][0]}, next - {chains[b][0]}, buckets[b := next[chains[b][0]]],
                    chains[b := chains[b][1..]], hash, equals)
    ensures Complete(keys - {chains[b][0]}, chains[b := chains[b][1..]], hash)
  {
    var c, x := chains[b], chains[b][0];
    UnlinkedFirst(keys, next, buckets, chains, hash, equals, b, c, x);
    hide *;
    WithoutFirst(c);
    CompleteWithout(keys, chains, hash, b, 0);
  }

  lemma UnlinkedFirst<K>(keys: map<Ref, K>, next: Links, buckets: seq<Option<Ref>>, chains: seq<seq<Ref>>,
                         hash: K -> nat, equals: (K, K) -> bool, b: nat, c: seq<Ref>, x: Ref)
    requires TableOk(keys, next, buckets, chains, hash, equals) && b < |chains| && c == chains[b] && c != []
    requires x == c[0]
    ensures x in keys && x in next
    ensures TableOk(keys - {x}, next - {x}, buckets[b := next[x]], chains[b := c[1..]], hash, equals)
  {
    hide *;
    ChainAt(keys, next, buckets, chains, hash, equals, b);
    LinkedTail(next, buckets[b], c);
    InBucket(keys, next, buckets, chains, hash, equals, b, x);
    TailOk(keys, next, hash, equals, c, b, |chains|);
    UpdateWithout(keys, next, next, buckets, chains, hash, equals, b, x, x, next[x], c[1..]);
  }

  lemma TailOk<K>(keys: map<Ref, K>, next: Links, hash: K -> nat, equals: (K, K) -> bool, c: seq<Ref>, b: nat, n: nat)
    requires c != [] && ChainOk(keys, hash, equals, c, b, n) && c[0] in next && Linked(next, next[c[0]], c[1..])
    ensures Linked(next - {c[0]}, next[c[0]], c[1..]) && ChainOk(keys - {c[0]}, hash, equals, c[1..], b, n)
  {
    hide *;
    WithoutOk(keys, hash, equals, c, b, n, 0);
    WithoutFirst(c);
    Removed(keys, next, next[c[0]], c, c[1..], hash, equals, b, n, 0);
  }

  // A table without node x of chain b, where the link of cur may have changed.
  lemma UpdateWithout<K>(keys: map<Ref, K>, next: Links, next1: Links, buckets: seq<Option<Ref>>,
                         chains: seq<seq<Ref>>, hash: K -> nat, equals: (K, K) -> bool, b: nat, cur: Ref, x: Ref,
                         head: Option<Ref>, d: seq<Ref>)
    requires TableOk(keys, next, buckets, chains, hash, equals) && b < |chains| && x in keys && cur in keys
    requires hash(keys[x]) % |chains| == b && hash(keys[cur]) % |chains| == b
    requires forall r <- next :: r != cur ==> r in next1 && next1[r] == next[r]
    requires Linked(next1 - {x}, head, d) && ChainOk(keys - {x}, hash, equals, d, b, |chains|)
    ensures TableOk(keys - {x}, next1 - {x}, buckets[b := head], chains[b := d], hash, equals)
  {
    hide Linked, ChainOk, TableOk;
    TableUpdate(keys, next, buckets, chains, hash, equals, b, keys - {x}, next1 - {x}, head, d);
  }

  // Node p is gone from the chain, and may go from the maps.
  lemma Removed<K>(keys: map<Ref, K>, next: Links, head: Option<Ref>, c: seq<Ref>, d: seq<Ref>, hash: K -> nat,
                   equals: (K, K) -> bool, b: nat, n: nat, p: nat)
    requires ChainOk(keys, hash, equals, c, b, n) && p < |c| && d == c[..p] + c[p + 1..]
    requires Linked(next, head, d) && ChainOk(keys, hash, equals, d, b, n)
    ensures c[p] in keys && Linked(next - {c[p]}, head, d) && ChainOk(keys - {c[p]}, hash, equals, d, b, n)
  {
    forall r <- d ensures r != c[p] && r in keys {
      var a :| 0 <= a < |d| && d[a] == r;
      assert r == c[if a < p then a else a + 1];
    }
    LinkedSame(next, next - {c[p]}, head, d);
    ChainKeys(keys, keys - {c[p]}, hash, equals, d, b, n);
  }

  lemma CompleteWithout<K>(keys: map<Ref, K>, chains: seq<seq<Ref>>, hash: K -> nat, b: nat, p: nat)
    requires Complete(keys, chains, hash) && b < |chains| && p < |chains[b]|
    ensures Complete(keys - {chains[b][p]}, chains[b := chains[b][..p] + chains[b][p + 1..]], hash)
  {
    var c := chains[b];
    var x, d := c[p], c[..p] + c[p + 1..];
    forall r <- c | r != x ensures r in d {
      var a :| 0 <= a < |c| && c[a] == r;
      assert d[if a < p then a else a - 1] == r;
    }
  }

  // The state of resize: the buckets before this one are empty, done is what has been taken
  // from the front of this one, and all that has been taken is in the new table.
  ghost predicate Moving<K>(keys: map<Ref, K>, next: Links, buckets: seq<Option<Ref>>, chains: seq<seq<Ref>>,
                            bucket: nat, done: seq<Ref>, tmp: seq<Option<Ref>>, chains': seq<seq<Ref>>,
                            hash: K -> nat, equals: (K, K) -> bool) {
    && |buckets| == |chains| && bucket <= |chains| && Complete(keys, chains, hash)
    && (forall i :: 0 <= i < |chains| ==> ChainOk(keys, hash, equals, chains[i], i, |chains|))
    && (forall i :: bucket < i < |chains| ==> Linked(next, buckets[i], chains[i]))
    && (bucket < |chains| ==> done <= chains[bucket] && Linked(next, buckets[bucket], chains[bucket][|done|..]))
    && (bucket == |chains| ==> done == [])
    && TableOk(keys, next, tmp, chains', hash, equals)
    && (forall r <- keys :: r in chains'[hash(keys[r]) % |chains'|] <==> hash(keys[r]) % |chains| < bucket || r in done)
    && (done != [] ==>
          done[|done| - 1] in keys
          && First(chains'[hash(keys[done[|done| - 1]]) % |chains'|]) == Some(done[|done| - 1]))
  }

  lemma MoveStart<K>(keys: map<Ref, K>, next: Links, buckets: seq<Option<Ref>>, chains: seq<seq<Ref>>,
                     tmp: seq<Option<Ref>>, chains': seq<seq<Ref>>, hash: K -> nat, equals: (K, K) -> bool)
    requires TableOk(keys, next, buckets, chains, hash, equals) && Complete(keys, chains, hash)
    requires |tmp| == |chains'| > 0 && forall i :: 0 <= i < |tmp| ==> tmp[i] == None && chains'[i] == []
    ensures Moving(keys, next, buckets, chains, 0, [], tmp, chains', hash, equals)
    ensures |buckets| == |chains|
  {
    hide Linked, ChainOk;
    EmptyTable(keys, next, tmp, chains', hash, equals);
    assert chains[0][0..] == chains[0];
    forall r <- keys ensures r !in chains'[hash(keys[r]) % |chains'|] {
      assert chains'[hash(keys[r]) % |chains'|] == [];
    }
  }

  lemma EmptyTable<K>(keys: map<Ref, K>, next: Links, buckets: seq<Option<Ref>>, chains: seq<seq<Ref>>,
                      hash: K -> nat, equals: (K, K) -> bool)
    requires |buckets| == |chains| > 0 && forall i :: 0 <= i < |buckets| ==> buckets[i] == None && chains[i] == []
    ensures TableOk(keys, next, buckets, chains, hash, equals)
  {
  }

  lemma MoveBegin<K>(keys: map<Ref, K>, next: Links, buckets: seq<Option<Ref>>, chains: seq<seq<Ref>>, bucket: nat,
                     tmp: seq<Option<Ref>>, chains': seq<seq<Ref>>, hash: K -> nat, equals: (K, K) -> bool)
    requires Moving(keys, next, buckets, chains, bucket, [], tmp, chains', hash, equals) && bucket < |chains|
    ensures |buckets| == |chains| && buckets[bucket] == First(chains[bucket])
  {
    assert chains[bucket][0..] == chains[bucket];
  }

  lemma MoveEnd<K>(keys: map<Ref, K>, next: Links, buckets: seq<Option<Ref>>, chains: seq<seq<Ref>>, bucket: nat,
                   done: seq<Ref>, tmp: seq<Option<Ref>>, chains': seq<seq<Ref>>, hash: K -> nat,
                   equals: (K, K) -> bool)
    requires Moving(keys, next, buckets, chains, bucket, done, tmp, chains', hash, equals) && bucket < |chains|
    requires chains[bucket] == done
    ensures Moving(keys, next, buckets, chains, bucket + 1, [], tmp, chains', hash, equals)
  {
    hide TableOk, Linked;
    if bucket + 1 < |chains| { assert chains[bucket + 1][0..] == chains[bucket + 1]; }
    assert ChainOk(keys, hash, equals, chains[bucket], bucket, |chains|);
    forall r <- keys ensures r in done <==> hash(keys[r]) % |chains| == bucket {
      if r in done {
        var a :| 0 <= a < |done| && done[a] == r;
      }
    }
  }

  lemma MoveDone<K>(keys: map<Ref, K>, next: Links, buckets: seq<Option<Ref>>, chains: seq<seq<Ref>>,
                    tmp: seq<Option<Ref>>, chains': seq<seq<Ref>>, hash: K -> nat, equals: (K, K) -> bool)
    requires Moving(keys, next, buckets, chains, |chains|, [], tmp, chains', hash, equals)
    ensures TableOk(keys, next, tmp, chains', hash, equals) && Complete(keys, chains', hash)
  {
    forall r <- keys ensures r in chains'[hash(keys[r]) % |chains'|] {
      Modulo(hash(keys[r]), |chains|);
    }
  }

  /** The key fact: if a node with the same key is in the new table already, the last one that
      was moved has that key, and it is in front. */
  lemma MoveKeepsGroups<K(!new)>(keys: map<Ref, K>, next: Links, buckets: seq<Option<Ref>>, chains: seq<seq<Ref>>,
                                 bucket: nat, done: seq<Ref>, o: seq<Ref>, tmp: seq<Option<Ref>>,
                                 chains': seq<seq<Ref>>, hash: K -> nat, equals: (K, K) -> bool)
    requires KeysOk(hash, equals) && Moving(keys, next, buckets, chains, bucket, done, tmp, chains', hash, equals)
    requires bucket < |chains| && chains[bucket] == done + o && o != []
    ensures var x := o[0]; x in keys && x !in done && hash(keys[x]) % |chains| == bucket
    ensures var x := o[0]; var c := chains'[hash(keys[x]) % |chains'|];
      x !in c && forall a :: 0 < a < |c| ==>
        c[a] in keys && (equals(keys[x], keys[c[a]]) ==> equals(keys[x], keys[c[0]]))
  {
    hide Linked, Complete;
    var x, old1 := o[0], chains[bucket];
    assert ChainOk(keys, hash, equals, old1, bucket, |chains|) && old1[|done|] == x;
    var nb := hash(keys[x]) % |chains'|;
    Modulo(hash(keys[x]), |chains'|);
    var c := chains'[nb];
    assert ChainOk(keys, hash, equals, c, nb, |chains'|);
    forall k | 0 <= k < |done| ensures done[k] != x { assert done[k] == old1[k]; }
    forall a | 0 < a < |c| && equals(keys[x], keys[c[a]]) ensures equals(keys[x], keys[c[0]]) {
      var y := c[a];
      assert equals(keys[y], keys[x]) && hash(keys[y]) == hash(keys[x]) && y in c;
      assert y in done;
      var k :| 0 <= k < |done| && done[k] == y;
      var z := done[|done| - 1];
      assert old1[k] == y && old1[|done| - 1] == z;
      assert equals(keys[y], keys[y]);
      assert equals(keys[y], keys[z]);
      assert equals(keys[x], keys[z]);
    }
  }

  lemma MoveNode<K(!new)>(keys: map<Ref, K>, next: Links, buckets: seq<Option<Ref>>, chains: seq<seq<Ref>>,
                          bucket: nat, done: seq<Ref>, o: seq<Ref>, tmp: seq<Option<Ref>>, chains': seq<seq<Ref>>,
                          hash: K -> nat, equals: (K, K) -> bool)
    requires KeysOk(hash, equals) && Moving(keys, next, buckets, chains, bucket, done, tmp, chains', hash, equals)
    requires bucket < |chains| && chains[bucket] == done + o && o != []
    ensures var x := o[0]; x in keys && x in next && |tmp| == |chains'| > 0
    ensures var x := o[0]; var nb := hash(keys[x]) % |chains'|;
      Moving(keys, next[x := tmp[nb]], buckets[bucket := next[x]], chains, bucket, done + [x], tmp[nb := Some(x)],
             chains'[nb := [x] + chains'[nb]], hash, equals)
    ensures next[o[0]] == First(o[1..])
  {
    hide Linked, Complete, ChainOk;
    MoveKeepsGroups(keys, next, buckets, chains, bucket, done, o, tmp, chains', hash, equals);
    var x, nb := o[0], hash(keys[o[0]]) % |chains'|;
    Modulo(hash(keys[x]), |chains'|);
    var c := chains'[nb];
    assert Linked(next, tmp[nb], c) && ChainOk(keys, hash, equals, c, nb, |chains'|);
    FrontOk(keys, hash, equals, c, nb, |chains'|, x);
    LinkedFront(next, tmp[nb], c, x);
    TableUpdate(keys, next, tmp, chains', hash, equals, nb, keys, next[x := tmp[nb]], Some(x), [x] + c);
    MoveOld(keys, next, buckets, chains, bucket, done, o, x, tmp[nb], hash, equals);
    MoveTracked(keys, chains, chains', bucket, done, x, nb, hash);
  }

  // The old buckets after taking x from the front of one.
  lemma MoveOld<K>(keys: map<Ref, K>, next: Links, buckets: seq<Option<Ref>>, chains: seq<seq<Ref>>, bucket: nat,
                   done: seq<Ref>, o: seq<Ref>, x: Ref, to: Option<Ref>, hash: K -> nat, equals: (K, K) -> bool)
    requires |buckets| == |chains| && bucket < |chains| && chains[bucket] == done + o && o != [] && x == o[0]
    requires x in keys
    requires forall i :: 0 <= i < |chains| ==> ChainOk(keys, hash, equals, chains[i], i, |chains|)
    requires forall i :: bucket < i < |chains| ==> Linked(next, buckets[i], chains[i])
    requires Linked(next, buckets[bucket], chains[bucket][|done|..]) && hash(keys[x]) % |chains| == bucket
    ensures x in next && next[x] == First(o[1..]) && chains[bucket][|done + [x]|..] == o[1..]
    ensures done + [x] <= chains[bucket]
    ensures Linked(next[x := to], next[x], o[1..])
    ensures forall i :: bucket < i < |chains| ==> Linked(next[x := to], buckets[i], chains[i])
  {
    assert chains[bucket][|done|..] == o;
    LinkedTail(next, buckets[bucket], o);
    assert ChainOk(keys, hash, equals, chains[bucket], bucket, |chains|);
    assert x !in o[1..] by {
      assert chains[bucket][|done|] == x;
      assert forall k :: 0 <= k < |o| - 1 ==> o[1..][k] == chains[bucket][|done| + 1 + k];
    }
    LinkedFrame(next, next[x], o[1..], x, to);
    forall i | bucket < i < |chains| ensures Linked(next[x := to], buckets[i], chains[i]) {
      assert ChainOk(keys, hash, equals, chains[i], i, |chains|);
      LinkedFrame(next, buckets[i], chains[i], x, to);
    }
  }

  lemma MoveTracked<K>(keys: map<Ref, K>, chains: seq<seq<Ref>>, chains': seq<seq<Ref>>, bucket: nat, done: seq<Ref>,
                       x: Ref, nb: nat, hash: K -> nat)
    requires |chains| > 0 && nb < |chains'| && x in keys && nb == hash(keys[x]) % |chains'|
    requires forall r <- keys ::
               r in chains'[hash(keys[r]) % |chains'|] <==> hash(keys[r]) % |chains| < bucket || r in done
    ensures var moved := chains'[nb := [x] + chains'[nb]];
      && (forall r <- keys ::
            r in moved[hash(keys[r]) % |moved|] <==> hash(keys[r]) % |chains| < bucket || r in done + [x])
      && First(moved[hash(keys[x]) % |moved|]) == Some(x)
  {
  }

  lemma Sizes<K>(keys: map<Ref, K>, next: Links, buckets: seq<Option<Ref>>, chains: seq<seq<Ref>>, hash: K -> nat,
                 equals: (K, K) -> bool)
    requires TableOk(keys, next, buckets, chains, hash, equals)
    ensures |buckets| == |chains| > 0
  {
  }

  lemma NotFound<K(!new)>(keys: map<Ref, K>, chains: seq<seq<Ref>>, hash: K -> nat, equals: (K, K) -> bool, key: K,
                          b: nat)
    requires KeysOk(hash, equals) && Complete(keys, chains, hash) && b == hash(key) % |chains|
    requires forall r <- chains[b] :: r in keys ==> !equals(keys[r], key)
    ensures forall r <- keys :: !equals(keys[r], key)
  {
    forall r <- keys ensures !equals(keys[r], key) {
      assert r in chains[hash(keys[r]) % |chains|];
    }
  }

  lemma FrontReady<K(!new)>(keys: map<Ref, K>, keys': map<Ref, K>, next: Links, buckets: seq<Option<Ref>>,
                            chains: seq<seq<Ref>>, hash: K -> nat, equals: (K, K) -> bool, b: nat, n: Ref)
    requires KeysOk(hash, equals) && TableOk(keys, next, buckets, chains, hash, equals) && Complete(keys, chains, hash)
    requires b < |chains| && n !in keys && keys'.Keys == keys.Keys + {n} && forall r <- keys :: keys'[r] == keys[r]
    requires hash(keys'[n]) % |chains| == b && forall r <- chains[b] :: r in keys && !equals(keys[r], keys'[n])
    ensures TableOk(keys', next[n := buckets[b]], buckets[b := Some(n)], chains[b := [n] + chains[b]], hash, equals)
    ensures Complete(keys', chains[b := [n] + chains[b]], hash)
  {
    hide Complete;
    var c := chains[b];
    NotThere(keys, next, buckets, chains, hash, equals, b, n);
    assert Linked(next, buckets[b], c) && ChainOk(keys, hash, equals, c, b, |chains|);
    hide Linked, ChainOk;
    ChainKeys(keys, keys', hash, equals, c, b, |chains|);
    LinkedFront(next, buckets[b], c, n);
    SymmetricKeys(hash, equals);
    forall a | 0 <= a < |c| ensures !equals(keys'[n], keys'[c[a]]) { assert c[a] in c; }
    FrontOk(keys', hash, equals, c, b, |chains|, n);
    TableUpdate(keys, next, buckets, chains, hash, equals, b, keys', next[n := buckets[b]], Some(n), [n] + c);
    CompleteWith(keys, keys', chains, hash, b, [n] + c);
  }

  lemma BehindReady<K(!new)>(keys: map<Ref, K>, keys': map<Ref, K>, next: Links, buckets: seq<Option<Ref>>,
                             chains: seq<seq<Ref>>, hash: K -> nat, equals: (K, K) -> bool, b: nat, p: nat, n: Ref)
    requires KeysOk(hash, equals) && TableOk(keys, next, buckets, chains, hash, equals) && Complete(keys, chains, hash)
    requires b < |chains| && p < |chains[b]| && n !in keys && keys'.Keys == keys.Keys + {n} &&
             forall r <- keys :: keys'[r] == keys[r]
    requires hash(keys'[n]) % |chains| == b && chains[b][p] in keys && equals(keys[chains[b][p]], keys'[n])
    ensures var c := chains[b]; var cur := c[p]; cur in next && cur != n
    ensures var c := chains[b]; var cur := c[p];
      var next' := next[n := next[cur]][cur := Some(n)];
      && TableOk(keys', next', buckets, chains[b := c[..p + 1] + [n] + c[p + 1..]], hash, equals)
      && Complete(keys', chains[b := c[..p + 1] + [n] + c[p + 1..]], hash)
  {
    hide Complete;
    var c := chains[b];
    var cur, c' := c[p], c[..p + 1] + [n] + c[p + 1..];
    NotThere(keys, next, buckets, chains, hash, equals, b, n);
    assert Linked(next, buckets[b], c) && ChainOk(keys, hash, equals, c, b, |chains|);
    hide Linked, ChainOk;
    ChainDistinct(keys, hash, equals, c, b, |chains|);
    LinkedBehind(next, buckets[b], c, p, n);
    InBucket(keys, next, buckets, chains, hash, equals, b, cur);
    forall r <- c ensures r in keys { InBucket(keys, next, buckets, chains, hash, equals, b, r); }
    ChainKeys(keys, keys', hash, equals, c, b, |chains|);
    BehindOk(keys', hash, equals, c, b, |chains|, p, n);
    TableUpdate(keys, next, buckets, chains, hash, equals, b, keys', next[n := next[cur]][cur := Some(n)], buckets[b],
                c');
    assert buckets[b := buckets[b]] == buckets;
    CompleteWith(keys, keys', chains, hash, b, c');
  }

  lemma ChainDistinct<K>(keys: map<Ref, K>, hash: K -> nat, equals: (K, K) -> bool, c: seq<Ref>, i: nat, n: nat)
    requires ChainOk(keys, hash, equals, c, i, n)
    ensures Distinct(c)
  {
  }

  lemma NotThere<K>(keys: map<Ref, K>, next: Links, buckets: seq<Option<Ref>>, chains: seq<seq<Ref>>,
                    hash: K -> nat, equals: (K, K) -> bool, b: nat, n: Ref)
    requires TableOk(keys, next, buckets, chains, hash, equals) && b < |chains| && n !in keys
    ensures n !in chains[b]
  {
    if n in chains[b] {
      InBucket(keys, next, buckets, chains, hash, equals, b, n);
    }
  }

  lemma SymmetricKeys<K(!new)>(hash: K -> nat, equals: (K, K) -> bool)
    requires KeysOk(hash, equals)
    ensures forall x, y :: equals(x, y) ==> equals(y, x)
  {
  }

  // All nodes are still in their chains when chain b only gains, or loses what is gone.
  lemma CompleteWith<K>(keys: map<Ref, K>, keys': map<Ref, K>, chains: seq<seq<Ref>>, hash: K -> nat, b: nat,
                        c: seq<Ref>)
    requires Complete(keys, chains, hash) && b < |chains|
    requires forall r <- keys' :: (r in keys && keys'[r] == keys[r]) || (r in c && hash(keys'[r]) % |chains| == b)
    requires forall r <- chains[b] :: r in keys' ==> r in c
    ensures Complete(keys', chains[b := c], hash)
  {
  }

  // ----- iteration, and erasing a range -----

  /** From begin to end, every node is met once, and nothing else is. */
  lemma EachOnce<K>(keys: map<Ref, K>, next: Links, buckets: seq<Option<Ref>>, chains: seq<seq<Ref>>, hash: K -> nat,
                    equals: (K, K) -> bool)
    requires TableOk(keys, next, buckets, chains, hash, equals) && Complete(keys, chains, hash)
    ensures Distinct(From(chains, 0)) && forall r :: r in From(chains, 0) <==> r in keys
  {
    hide TableOk, From;
    AllNodes(keys, next, buckets, chains, hash, equals);
    Sizes(keys, next, buckets, chains, hash, equals);
    forall r <- keys ensures r in From(chains, 0) {
      var b := hash(keys[r]) % |chains|;
      Modulo(hash(keys[r]), |chains|);
      BeforeFrom(chains, b);
      FromStep(chains, b);
    }
    TailDistinct(keys, next, buckets, chains, hash, equals, 0);
  }

  lemma {:induction false} TailDistinct<K>(keys: map<Ref, K>, next: Links, buckets: seq<Option<Ref>>,
                                           chains: seq<seq<Ref>>, hash: K -> nat, equals: (K, K) -> bool, i: nat)
    requires TableOk(keys, next, buckets, chains, hash, equals) && i <= |chains|
    ensures Distinct(From(chains, i))
    decreases |chains| - i
  {
    hide TableOk, From;
    if i == |chains| {
      FromEnd(chains);
    } else {
      TailDistinct(keys, next, buckets, chains, hash, equals, i + 1);
      FromStep(chains, i);
      ChainAt(keys, next, buckets, chains, hash, equals, i);
      var c, rest := chains[i], From(chains, i + 1);
      forall a, k | 0 <= a < |c| && 0 <= k < |rest| ensures c[a] != rest[k] {
        var e, f := Locate(chains, i + 1, k);
        InBucket(keys, next, buckets, chains, hash, equals, e, chains[e][f]);
        InBucket(keys, next, buckets, chains, hash, equals, i, c[a]);
      }
    }
  }

  // What _M_erase_bucket(n, first, last) leaves of a chain when first is node i of it, and
  // last is node j, or null for j == |c|: behind the first node, it does not look at last.
  function ErasedInBucket(c: seq<Ref>, i: nat, j: nat): seq<Ref>
    requires i < j <= |c|
  {
    if i == 0 then c[j..] else c[..i]
  }

  /** So erasing a range within one bucket erases that range if and only if the range starts
      or ends the bucket. */
  lemma RangeErasedWhen(c: seq<Ref>, i: nat, j: nat)
    requires i < j <= |c|
    ensures ErasedInBucket(c, i, j) == c[..i] + c[j..] <==> i == 0 || j == |c|
  {
    if i > 0 && j < |c| {
      assert |c[..i] + c[j..]| > |c[..i]|;
    }
  }

  /** The middle node of three: the last one goes too. */
  lemma MiddleErasedWrongly()
    ensures ErasedInBucket([0, 1, 2], 1, 2) == [0]
    ensures [0, 1, 2][..1] + [0, 1, 2][2..] == [0, 2]
    ensures ErasedInBucket([0, 1, 2], 1, 2) != [0, 1, 2][..1] + [0, 1, 2][2..]
  {
    RangeErasedWhen([0, 1, 2], 1, 2);
  }
}
