/**
 Programs over ropes. Each rope of a program holds a pointer to a tree, and all trees share
 one store. What the ropes stand for is exactly what plain strings would give, whatever is
 shared and written in place on the way.
 */
module RopeProgram {
  import opened Options
  import opened RopeTree
  import opened RopeStore
  import opened RopeForest
  import opened RopeBalance
  import opened RopeOperations
  import opened RopeSharing

  // The members of class rope; dst and src are numbers of ropes.
  datatype Op =
    | FromChars(dst: nat, chars: string)
    | FromFunction(dst: nat, produced: string)
    | Assign(dst: nat, src: nat)
    | AppendRope(dst: nat, src: nat)
    | AppendChars(dst: nat, chars: string)
    | PushBack(dst: nat, c: char)
    | PushFront(dst: nat, c: char)
    | InsertChars(dst: nat, pos: nat, chars: string)
    | ReplaceBy(dst: nat, pos: nat, n: nat, src: nat)
    | Erase(dst: nat, pos: nat, n: nat)
    | Substr(dst: nat, src: nat, start: nat, end: nat)
    | Rebalance(dst: nat)
    | SetChar(dst: nat, pos: nat, c: char)
    | CString(dst: nat)
    | DeleteCString(dst: nat)
    | ReplaceWithCString(dst: nat)
  {
    predicate WithinRopes(n: nat) {
      dst < n && (Assign? || AppendRope? || ReplaceBy? || Substr? ==> this.src < n)
    }
  }

  // The meaning of an operation on plain strings.
  function Meaning(op: Op, texts: seq<string>): string
    requires op.WithinRopes(|texts|)
  {
    var t := texts[op.dst];
    match op
    case FromChars(_, cs) => cs
    case FromFunction(_, p) => p
    case Assign(_, s) => texts[s]
    case AppendRope(_, s) => t + texts[s]
    case AppendChars(_, cs) => t + cs
    case PushBack(_, c) => t + [c]
    case PushFront(_, c) => [c] + t
    case InsertChars(_, p, cs) => Replaced(t, p, p, cs)
    case ReplaceBy(_, p, n, s) => Replaced(t, p, p + n, texts[s])
    case Erase(_, p, n) => Replaced(t, p, p + n, "")
    case Substr(_, s, b, e) => Slice(texts[s], b, e)
    case SetChar(_, p, c) => if p < |t| then t[p := c] else t
    case Rebalance(_) => t
    case CString(_) => t
    case DeleteCString(_) => t
    case ReplaceWithCString(_) => t
  }

  // The callers' obligations: the ropes exist, results stay within max_size(), an empty
  // rope is not rebalanced, and a character that is assigned to exists.
  predicate Allowed(op: Op, texts: seq<string>) {
    && op.WithinRopes(|texts|)
    && |Meaning(op, texts)| <= MAX_SIZE
    && (op.Rebalance? ==> texts[op.dst] != "")
    && (op.SetChar? ==> op.pos < |texts[op.dst]|)
  }

  predicate AllAllowed(ops: seq<Op>, texts: seq<string>) {
    ops == [] || (Allowed(ops[0], texts) && AllAllowed(ops[1..], After(ops[0], texts)))
  }

  function After(op: Op, texts: seq<string>): seq<string>
    requires op.WithinRopes(|texts|)
  {
    texts[op.dst := Meaning(op, texts)]
  }

  function AfterAll(ops: seq<Op>, texts: seq<string>): seq<string>
    requires AllAllowed(ops, texts)
  {
    if ops == [] then texts else AfterAll(ops[1..], After(ops[0], texts))
  }

  // ----- trees -----

  // What an operation makes of the tree of its rope. Only appending characters and assigning
  // to one depend on what else refers to the nodes.
  ghost function TreeMade(op: Op, trees: seq<Option<Rope>>): Option<Rope>
    requires op.WithinRopes(|trees|)
  {
    var t := trees[op.dst];
    match op
    case FromChars(_, cs) => LeafFor(cs)
    case FromFunction(_, p) => if p == "" then None else Some(Producer(p))
    case Assign(_, s) => trees[s]
    case AppendRope(_, s) => Concatenated(t, trees[s])
    case PushBack(_, c) => Concatenated(t, LeafFor([c]))
    case PushFront(_, c) => Concatenated(LeafFor([c]), t)
    case InsertChars(_, p, cs) => Around(t, p, p, LeafFor(cs))
    case ReplaceBy(_, p, n, s) => Around(t, p, p + n, trees[s])
    case Erase(_, p, n) => Around(t, p, p + n, None)
    case Substr(_, s, b, e) => PartOfRope(trees[s], b, e)
    case Rebalance(_) => if t.None? then None else BalanceOf(t.value)
    case ReplaceWithCString(_) => LeafFor(TextOf(t))
    case _ => t
  }

  predicate Local(op: Op) {
    op.AppendChars? || op.SetChar?
  }

  ghost function TreesAfter(op: Op, trees: seq<Option<Rope>>): seq<Option<Rope>> {
    if op.WithinRopes(|trees|) then trees[op.dst := TreeMade(op, trees)] else trees
  }

  ghost function TreesAfterAll(ops: seq<Op>, trees: seq<Option<Rope>>): seq<Option<Rope>> {
    if ops == [] then trees else TreesAfterAll(ops[1..], TreesAfter(ops[0], trees))
  }

  ghost predicate Agree(trees: seq<Option<Rope>>, trees': seq<Option<Rope>>, dst: nat) {
    |trees| == |trees'| && forall i :: 0 <= i < |trees| && i != dst ==> trees[i] == trees'[i]
  }

  lemma TreeAt(h: Nodes, ropes: seq<Option<Ref>>, texts: seq<string>, i: nat)
    requires AllGiven(h, ropes, texts) && i < |ropes|
    ensures Shape(h) && Alive(h, ropes[i]) && Trees(h, ropes)[i] == TreeOf(h, ropes[i])
    ensures TextOf(Trees(h, ropes)[i]) == texts[i]
  {
    hide Tree;
    assert Given(h, ropes[i], texts[i]);
  }

  // Every rope stands for its text.
  ghost predicate AllGiven(h: Nodes, ropes: seq<Option<Ref>>, texts: seq<string>) {
    |ropes| == |texts| && forall i :: 0 <= i < |ropes| ==> Given(h, ropes[i], texts[i])
  }

  lemma RopeHeld(ropes: seq<Option<Ref>>, i: nat, j: nat)
    requires i < |ropes| && j < |ropes|
    ensures One(ropes[i]) <= Held(ropes)
    ensures i != j ==> One(ropes[i]) <= Held(ropes) - One(ropes[j])
  {
    hide Held, One;
    HeldPart(ropes, i);
    if i != j {
      HeldPart(ropes, j);
      HeldPart(ropes[j := None], i);
    }
  }

  // The ropes other than dst, after a step that kept what they hold.
  lemma OthersGiven(h: Nodes, h': Nodes, ropes: seq<Option<Ref>>, texts: seq<string>, dst: nat, kept: multiset<Ref>)
    requires AllGiven(h, ropes, texts) && dst < |ropes| && RootsKept(h, h', kept)
    requires Held(ropes) - One(ropes[dst]) <= kept
    requires Shape(h')
    ensures forall i :: 0 <= i < |ropes| && i != dst ==> Given(h', ropes[i], texts[i])
    ensures Shape(h) && Agree(Trees(h, ropes), Trees(h', ropes), dst)
  {
    hide Given, RootsKept, Held, One, Shape, Tree, TreeOf;
    TreeAt(h, ropes, texts, dst);
    forall i | 0 <= i < |ropes| && i != dst
      ensures Given(h', ropes[i], texts[i]) && Trees(h', ropes)[i] == Trees(h, ropes)[i]
    {
      RopeHeld(ropes, i, dst);
      GivenByRoots(h, h', kept, ropes[i], texts[i]);
      TreeAt(h, ropes, texts, i);
      GivenFields(h', ropes[i], texts[i]);
    }
  }

  class Program {
    const store: Store
    var ropes: seq<Option<Ref>>
    ghost var texts: seq<string>

    // n empty ropes
    constructor (n: nat)
      ensures Valid() && fresh(store) && texts == seq(n, _ => "")
    {
      store := new Store();
      ropes, texts := seq(n, _ => None), seq(n, _ => "");
      new;
      HeldNothing(ropes);
      NothingGiven(store.nodes, store.next, store.roots);
    }

    ghost predicate Valid()
      reads this, store
    {
      store.Valid() && store.roots == Held(ropes) && AllGiven(store.nodes, ropes, texts)
    }

    ghost function RopeTrees(): seq<Option<Rope>>
      requires Valid()
      reads this, store
    {
      Trees(store.nodes, ropes)
    }

    // Puts a counted result into rope dst and gives up what it held.
    method Install(dst: nat, result: Option<Ref>, ghost text: string)
      requires dst < |ropes| == |texts| && store.Valid() && store.roots == Held(ropes) + One(result)
      requires Given(store.nodes, result, text)
      requires forall i :: 0 <= i < |ropes| && i != dst ==> Given(store.nodes, ropes[i], texts[i])
      modifies this, store
      ensures Valid() && texts == old(texts)[dst := text] && ropes == old(ropes)[dst := result]
      ensures Later(old(store.nodes), old(store.next), store.nodes, store.next)
      ensures RopeTrees() == old(Trees(store.nodes, ropes))[dst := old(TreeOf(store.nodes, result))]
    {
      hide Inv, Later, Given, Held, One, Shape, Tree, TreeOf;
      ghost var h, t, roots := store.nodes, store.next, store.roots;
      var ropes' := ropes[dst := result];
      HeldUpdate(ropes, dst, result);
      assert roots == Held(ropes') + One(ropes[dst]);
      Released(Held(ropes'), ropes[dst]);
      store.Release(ropes[dst]);
      Shaped(h, t, roots);
      Shaped(store.nodes, store.next, store.roots);
      GivenFields(h, result, text);
      forall i | 0 <= i < |ropes'|
        ensures Given(store.nodes, ropes'[i], texts[dst := text][i])
        ensures Trees(store.nodes, ropes')[i] ==
                if i == dst then TreeOf(h, result) else Trees(h, ropes)[i]
      {
        RopeHeld(ropes', i, i);
        GivenRoot(h, t, roots, store.nodes, store.next, store.roots, ropes'[i], texts[dst := text][i]);
        GivenFields(h, ropes'[i], texts[dst := text][i]);
        GivenFields(store.nodes, ropes'[i], texts[dst := text][i]);
      }
      ropes := ropes';
      texts := texts[dst := text];
    }

    // One operation that builds its result.
    method Build(op: Op) returns (result: Option<Ref>)
      requires Valid() && Allowed(op, texts)
      requires !Local(op) && !op.CString? && !op.DeleteCString? && !op.ReplaceWithCString?
      modifies store
      ensures store.Valid() && store.roots == old(store.roots) + One(result)
      ensures Later(old(store.nodes), old(store.next), store.nodes, store.next)
      ensures Given(store.nodes, result, Meaning(op, texts))
      ensures TreeOf(store.nodes, result) == TreeMade(op, old(RopeTrees()))
    {
      hide Inv, Later, Given, Held, Shape, Tree, TreeOf, Slice, Concatenated, PartOfRope, Around, BalanceOf;
      TreeAt(store.nodes, ropes, texts, op.dst);
      if op.Assign? || op.AppendRope? || op.ReplaceBy? || op.Substr? {
        TreeAt(store.nodes, ropes, texts, op.src);
      }
      var t := ropes[op.dst];
      match op {
        case FromChars(_, cs) => result := Make(cs, true);
        case FromFunction(_, p) => result := Make(p, false);
        case Assign(_, s) => result := Share(s);
        case AppendRope(_, s) => result := JoinRopes(store, t, ropes[s], texts[op.dst], texts[s]);
        case PushBack(_, c) => result := ConcatCharIter(store, t, [c], texts[op.dst]);
        case PushFront(_, c) => result := RopeOperations.PushFront(store, t, c, texts[op.dst]);
        case InsertChars(_, p, cs) => result := RopeOperations.InsertChars(store, t, p, cs, texts[op.dst]);
        case ReplaceBy(_, p, n, s) => result := Replace(store, t, p, p + n, ropes[s], texts[op.dst], texts[s]);
        case Erase(_, p, n) =>
          NothingGiven(store.nodes, store.next, store.roots);
          NoTree(store.nodes);
          result := Replace(store, t, p, p + n, None, texts[op.dst], "");
        case Substr(_, s, b, e) => result := Substring(store, ropes[s], b, e, texts[s]);
        case Rebalance(_) => result := Balance(op.dst);
      }
    }

    // The constructors from characters and from a function.
    method Make(chars: string, leaf: bool) returns (result: Option<Ref>)
      requires store.Valid() && |chars| <= MAX_SIZE
      modifies store
      ensures store.Valid() && store.roots == old(store.roots) + One(result)
      ensures Later(old(store.nodes), old(store.next), store.nodes, store.next) && Given(store.nodes, result, chars)
      ensures TreeOf(store.nodes, result) ==
              if leaf then LeafFor(chars) else if chars == "" then None else Some(Producer(chars))
    {
      hide Inv, Later, Given, Shape, Tree;
      if chars == "" {
        NothingGiven(store.nodes, store.next, store.roots);
        return None;
      }
      var n: Ref;
      if leaf {
        n := store.NewLeaf(chars);
      } else {
        n := store.NewFunction(chars);
      }
      PieceGiven(store.nodes, store.next, store.roots, n, chars);
      result := Some(n);
    }

    // operator=
    method Share(src: nat) returns (result: Option<Ref>)
      requires Valid() && src < |ropes|
      modifies store
      ensures store.Valid() && store.roots == old(store.roots) + One(result)
      ensures Later(old(store.nodes), old(store.next), store.nodes, store.next)
      ensures Given(store.nodes, result, texts[src]) && result == ropes[src]
      ensures TreeOf(store.nodes, result) == old(RopeTrees())[src]
    {
      hide Inv, Later, Given, Shape, Tree, TreeOf, Held;
      TreeAt(store.nodes, ropes, texts, src);
      ghost var h, t, roots := store.nodes, store.next, store.roots;
      GivenFields(h, ropes[src], texts[src]);
      store.Retain(ropes[src]);
      GivenKept(h, t, roots, store.nodes, store.next, store.roots, ropes[src], texts[src]);
      result := ropes[src];
    }

    // balance()
    method Balance(dst: nat) returns (result: Option<Ref>)
      requires Valid() && dst < |ropes| && texts[dst] != ""
      modifies store
      ensures store.Valid() && store.roots == old(store.roots) + One(result)
      ensures Later(old(store.nodes), old(store.next), store.nodes, store.next)
      ensures Given(store.nodes, result, texts[dst])
      ensures old(RopeTrees())[dst].Some? && TreeOf(store.nodes, result) == BalanceOf(old(RopeTrees())[dst].value)
    {
      hide Inv, Later, Given, Shape, Tree, Held, BalanceOf;
      TreeAt(store.nodes, ropes, texts, dst);
      GivenFields(store.nodes, ropes[dst], texts[dst]);
      RopeHeld(ropes, dst, dst);
      assert ropes[dst].value in One(ropes[dst]);
      var balanced := RopeBalance.Balance(store, ropes[dst].value);
      BalancedGiven(store.nodes, store.next, store.roots, balanced, texts[dst]);
      result := Some(balanced);
    }

    // append of characters: in place if nothing else refers to the nodes it touches.
    method Append(dst: nat, chars: string)
      requires Valid() && dst < |ropes| && |texts[dst] + chars| <= MAX_SIZE
      modifies this, store
      ensures Valid() && texts == old(texts)[dst := old(texts)[dst] + chars] && |ropes| == old(|ropes|)
      ensures Agree(old(RopeTrees()), RopeTrees(), dst)
    {
      hide Inv, Later, Given, Held, One, Shape, RootsKept, Tree, TreeOf;
      ghost var h := store.nodes;
      RopeHeld(ropes, dst, dst);
      var result := DestrConcatCharIter(store, ropes[dst], chars, texts[dst]);
      Shaped(store.nodes, store.next, store.roots);
      OthersGiven(h, store.nodes, ropes, texts, dst, Held(ropes) - One(ropes[dst]));
      Install(dst, result, texts[dst] + chars);
    }

    // Assignment through a reference to one character.
    method SetChar(dst: nat, pos: nat, c: char)
      requires Valid() && dst < |ropes| && pos < |texts[dst]|
      modifies this, store
      ensures Valid() && texts == old(texts)[dst := old(texts)[dst][pos := c]] && |ropes| == old(|ropes|)
      ensures Agree(old(RopeTrees()), RopeTrees(), dst)
    {
      hide Inv, Later, Given, Held, One, Shape, RootsKept, Tree, TreeOf;
      ghost var h, text := store.nodes, texts[dst];
      GivenFields(h, ropes[dst], text);
      ghost var root := ropes[dst].value;
      RopeHeld(ropes, dst, dst);
      OneOf(root);
      assert root in multiset{root};
      var result := AssignChar(store, ropes[dst].value, pos, c, text);
      Shaped(store.nodes, store.next, store.roots);
      OthersGiven(h, store.nodes, ropes, texts, dst, Held(ropes) - One(ropes[dst]));
      HeldUpdate(ropes, dst, Some(result));
      OneOf(result);
      Exchanged(Held(ropes), Held(ropes[dst := Some(result)]), root, result);
      ropes := ropes[dst := Some(result)];
      texts := texts[dst := text[pos := c]];
    }

    // c_str
    method CStr(i: nat) returns (text: string)
      requires Valid() && i < |ropes|
      modifies store`nodes
      ensures Valid() && text == texts[i] && RopeTrees() == old(RopeTrees())
      ensures ropes[i].Some? ==>
        && ropes[i].value in store.nodes
        && (store.nodes[ropes[i].value].body.LeafBody? || store.nodes[ropes[i].value].flat == Some(text))
    {
      hide Inv, Later, Given, Held, Shape, Tree;
      ghost var h := store.nodes;
      GivenFields(h, ropes[i], texts[i]);
      if ropes[i].None? {
        return "";
      }
      text := RopeOperations.CStr(store, ropes[i].value);
      AllGivenKept(h, store.next, store.roots, store.nodes, ropes, texts);
    }

    // delete_c_str
    method DeleteCStr(i: nat)
      requires Valid() && i < |ropes|
      modifies store`nodes
      ensures Valid() && (ropes[i].Some? ==> ropes[i].value in store.nodes && store.nodes[ropes[i].value].flat.None?)
      ensures RopeTrees() == old(RopeTrees())
    {
      hide Inv, Later, Given, Held, Shape, Tree;
      ghost var h := store.nodes;
      GivenFields(h, ropes[i], texts[i]);
      if ropes[i].None? {
        return;
      }
      var n := ropes[i].value;
      if store.nodes[n].body.LeafBody? {
        LeafIsBare(h, n);
        return;
      }
      Reflattened(h, store.next, store.roots, n, None);
      store.nodes := store.nodes[n := store.nodes[n].(flat := None)];
      AllGivenKept(h, store.next, store.roots, store.nodes, ropes, texts);
    }

    // replace_with_c_str; the new leaf is made before the old tree is given up.
    method ReplaceWithCStr(i: nat) returns (text: string)
      requires Valid() && i < |ropes|
      modifies this, store
      ensures Valid() && texts == old(texts) && |ropes| == old(|ropes|) && text == texts[i]
      ensures ropes[i].Some? ==> ropes[i].value in store.nodes && store.nodes[ropes[i].value].body.LeafBody?
      ensures RopeTrees() == old(RopeTrees())[i := LeafFor(TextOf(old(RopeTrees())[i]))]
    {
      hide Inv, Later, Given, Held, Shape, Tree;
      ghost var h, t, roots := store.nodes, store.next, store.roots;
      GivenFields(h, ropes[i], texts[i]);
      TreeAt(h, ropes, texts, i);
      ghost var trees := Trees(h, ropes);
      if ropes[i].None? {
        assert trees[i := None] == trees;
        return "";
      }
      text := Flatten(store, ropes[i].value);
      if store.nodes[ropes[i].value].body.LeafBody? {
        LeafTree(h, ropes[i].value);
        assert trees[i := trees[i]] == trees;
        return;
      }
      var leaf := store.NewLeaf(text);
      PieceGiven(store.nodes, store.next, store.roots, leaf, text);
      BuiltGiven(h, t, roots, store.nodes, store.next, store.roots, ropes, texts);
      ghost var h1, t1, roots1 := store.nodes, store.next, store.roots;
      Install(i, Some(leaf), text);
      RopeHeld(ropes, i, i);
      LeafStays(h1, t1, roots1, store.nodes, store.next, store.roots, leaf);
    }

    method Execute(op: Op)
      requires Valid() && Allowed(op, texts)
      modifies this, store
      ensures Valid() && texts == After(op, old(texts)) && |ropes| == old(|ropes|)
      ensures Agree(old(RopeTrees()), RopeTrees(), op.dst)
      ensures !Local(op) ==> RopeTrees() == TreesAfter(op, old(RopeTrees()))
    {
      hide Inv, Later, Given, Held, Shape, Tree, Slice, LeafFor, Concatenated, PartOfRope, Around, BalanceOf;
      match op {
        case AppendChars(dst, chars) => Append(dst, chars);
        case SetChar(dst, pos, c) => SetChar(dst, pos, c);
        case CString(dst) => var text := CStr(dst);
        case DeleteCString(dst) => DeleteCStr(dst);
        case ReplaceWithCString(dst) => var text := ReplaceWithCStr(dst);
        case _ => BuildAndInstall(op);
      }
    }

    method BuildAndInstall(op: Op)
      requires Valid() && Allowed(op, texts)
      requires !Local(op) && !op.CString? && !op.DeleteCString? && !op.ReplaceWithCString?
      modifies this, store
      ensures Valid() && texts == After(op, old(texts)) && |ropes| == old(|ropes|)
      ensures RopeTrees() == TreesAfter(op, old(RopeTrees()))
    {
      hide Inv, Later, Given, Held, Shape, Tree, TreeOf, Slice, TreeMade;
      ghost var h, t, roots := store.nodes, store.next, store.roots;
      ghost var text := Meaning(op, texts);
      var result := Build(op);
      BuiltGiven(h, t, roots, store.nodes, store.next, store.roots, ropes, texts);
      Install(op.dst, result, text);
    }

    /**
     A whole program computes what it would compute with plain strings, and every count in
     the store is right all the time.
     */
    method Run(ops: seq<Op>)
      requires Valid() && AllAllowed(ops, texts)
      modifies this, store
      ensures Valid() && texts == AfterAll(ops, old(texts))
      ensures (forall op <- ops :: !Local(op)) ==> RopeTrees() == TreesAfterAll(ops, old(RopeTrees()))
    {
      hide Inv, Given, Held, Shape, Meaning, Allowed, AllGiven, TreesAfter, Agree;
      for k := 0 to |ops|
        invariant Valid() && AllAllowed(ops[k..], texts)
        invariant (forall op <- ops :: !Local(op)) ==>
                    TreesAfterAll(ops[k..], RopeTrees()) == TreesAfterAll(ops, old(RopeTrees()))
        invariant AfterAll(ops[k..], texts) == AfterAll(ops, old(texts))
      {
        assert ops[k..][0] == ops[k] && ops[k..][1..] == ops[k + 1..];
        Execute(ops[k]);
      }
    }

    // operator[]
    method At(i: nat, pos: nat) returns (c: char)
      requires Valid() && i < |ropes| && pos < |texts[i]|
      ensures c == texts[i][pos]
    {
      hide Inv, Given, Held, Shape, Tree;
      GivenFields(store.nodes, ropes[i], texts[i]);
      c := Fetch(store, ropes[i].value, pos);
    }

    // size()
    method Length(i: nat) returns (n: nat)
      requires Valid() && i < |ropes|
      ensures n == |texts[i]|
    {
      hide Inv, Given, Held;
      n := SizeField(store, ropes[i], texts[i]);
    }
  }

  lemma Exchanged(held: multiset<Ref>, held': multiset<Ref>, root: Ref, result: Ref)
    requires held' + multiset{root} == held + multiset{result} && root in held
    ensures held - multiset{root} + multiset{result} == held'
  {
    assert forall n :: held'[n] + multiset{root}[n] == (held' + multiset{root})[n];
  }

  lemma AllGivenKept(h: Nodes, next: Ref, roots: multiset<Ref>, h': Nodes, ropes: seq<Option<Ref>>, texts: seq<string>)
    requires Inv(h, next, roots) && Inv(h', next, roots) && Later(h, next, h', next) && AllGiven(h, ropes, texts)
    ensures AllGiven(h', ropes, texts) && Shape(h) && Shape(h') && Trees(h', ropes) == Trees(h, ropes)
  {
    BuiltGiven(h, next, roots, h', next, roots, ropes, texts);
  }

  lemma BuiltGiven(h: Nodes, next: Ref, roots: multiset<Ref>, h': Nodes, next': Ref, roots': multiset<Ref>,
                   ropes: seq<Option<Ref>>, texts: seq<string>)
    requires Inv(h, next, roots) && Inv(h', next', roots') && Later(h, next, h', next') && roots <= roots'
    requires AllGiven(h, ropes, texts)
    ensures AllGiven(h', ropes, texts) && Shape(h) && Shape(h') && Trees(h', ropes) == Trees(h, ropes)
  {
    hide Inv, Later, Given, Shape, Tree, TreeOf;
    Shaped(h, next, roots);
    Shaped(h', next', roots');
    forall i | 0 <= i < |ropes| ensures Given(h', ropes[i], texts[i]) && Trees(h', ropes)[i] == Trees(h, ropes)[i] {
      GivenKept(h, next, roots, h', next', roots', ropes[i], texts[i]);
      GivenFields(h, ropes[i], texts[i]);
      GivenFields(h', ropes[i], texts[i]);
    }
  }

  lemma PieceGiven(h: Nodes, next: Ref, roots: multiset<Ref>, n: Ref, text: string)
    requires Inv(h, next, roots) && n in h && text != "" && |text| <= MAX_SIZE
    requires Tree(h, n) == Leaf(text) || Tree(h, n) == Producer(text)
    ensures Given(h, Some(n), text)
  {
    hide FlatOk, Counted, Shape, Tree;
    Shaped(h, next, roots);
  }

  lemma BalancedGiven(h: Nodes, next: Ref, roots: multiset<Ref>, n: Ref, text: string)
    requires Inv(h, next, roots) && n in h && |text| <= MAX_SIZE
    requires Tree(h, n).Valid() && Tree(h, n).Text() == text && Tree(h, n).Depth() <= MAX_ROPE_DEPTH
    ensures Given(h, Some(n), text)
  {
    hide FlatOk, Counted, Shape, Tree, Rope.Valid, Rope.Text;
    Shaped(h, next, roots);
  }

  lemma LeafStays(h: Nodes, next: Ref, roots: multiset<Ref>, h': Nodes, next': Ref, roots': multiset<Ref>, n: Ref)
    requires Inv(h, next, roots) && Inv(h', next', roots') && Later(h, next, h', next') && n in roots
    requires One(Some(n)) <= roots'
    requires n in h && h[n].body.LeafBody?
    ensures n in h' && h'[n].body.LeafBody?
  {
    hide Inv, Later, Tree;
    assert n in One(Some(n));
    RootKept(h, next, roots, h', next', roots', n);
  }

  // ----- no leaks -----

  /** Without references from outside there is no node: all nodes are of use to some rope. */
  lemma {:induction false} NoNodeUnused(h: Nodes, next: Ref, n: Ref)
    requires Inv(h, next, multiset{})
    ensures n !in h
    decreases RankBound(h) - if n in h then h[n].body.Rank() else 0
  {
    hide Tree, FlatOk, Body.Rank;
    if n in h {
      var m := SomeHolder(h, n);
      ChildrenIn(h, m);
      NoNodeUnused(h, next, m);
    }
  }

  /** When all ropes are empty again, so is the store. */
  lemma NoLeaks(p: Program)
    requires p.Valid() && forall i :: 0 <= i < |p.texts| ==> p.texts[i] == ""
    ensures p.store.nodes == map[]
  {
    hide Held, Given, Inv;
    forall i | 0 <= i < |p.ropes| ensures p.ropes[i].None? {
      GivenFields(p.store.nodes, p.ropes[i], p.texts[i]);
    }
    HeldNothing(p.ropes);
    forall n ensures n !in p.store.nodes {
      NoNodeUnused(p.store.nodes, p.store.next, n);
    }
  }
}
