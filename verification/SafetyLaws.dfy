/** Which values have a safety derivation, told instruction by instruction and without tables. */
module SafetyLaws {
  import opened Bits
  import opened Wrappers
  import opened SafetyModel
  import opened SafetyMemo
  import opened SafetyOrder

  // ------------------------------------------------- derivations agree

  /** A value has one expression, whatever the table. */
  lemma {:induction false} OneExpression(p: Program, t: Table, t': Table, i: nat)
    requires AllDerived(p, t) && AllDerived(p, t') && i in t && i in t'
    ensures t[i] == t'[i]
    decreases t[i], 1
  {
    assert Derived(p, t, i) && Derived(p, t', i);
    match p.code[i].kind
    case Pure(op, os) =>
      forall k | 0 <= k < |os| ensures ExprOf(t, os[k]) == ExprOf(t', os[k]) {
        assert t[i].args[k] == ExprOf(t, os[k]);
        OneOperand(p, t, t', os[k]);
      }
      assert ArgExprs(t, os) == ArgExprs(t', os);
    case Load(ptr, owner, loaded) =>
      OneLoad(p, t, t', i);
  }

  lemma {:induction false} OneOperand(p: Program, t: Table, t': Table, o: Operand)
    requires AllDerived(p, t) && AllDerived(p, t') && Known(t, o) && Known(t', o)
    ensures ExprOf(t, o) == ExprOf(t', o)
    decreases ExprOf(t, o), 2
  {
    if o.Result? { OneExpression(p, t, t', o.inst); }
  }

  lemma {:induction false} OneLoad(p: Program, t: Table, t': Table, i: nat)
    requires AllDerived(p, t) && AllDerived(p, t') && i in t && i in t' && Derived(p, t, i) && Derived(p, t', i)
    requires p.code[i].kind.Load?
    ensures t[i] == t'[i]
    decreases t[i], 0
  {
    hide AllDerived, StoreSafe, Target;
    var Load(ptr, owner, loaded) := p.code[i].kind;
    var s := loaded.value;
    var c :| p.IsChain(c) && c[|c| - 1] == owner.value && RangeSafe(p, t, c, s) && t[i] == LoadExpr(p, t, ptr, c, s);
    var c' :| p.IsChain(c') && c'[|c'| - 1] == owner.value && RangeSafe(p, t', c', s)
      && t'[i] == LoadExpr(p, t', ptr, c', s);
    p.ChainUnique(c, c');
    OneOperand(p, t, t', ptr);
    forall k: nat | k < s.size ensures Walk(p, t, c, s.Byte(k)).value == Walk(p, t', c, s.Byte(k)).value {
      assert t[i].bytes[k] == Walk(p, t, c, s.Byte(k)).value;
      OneByteExpr(p, t, t', c, s.Byte(k));
    }
    assert t[i].bytes == t'[i].bytes;
  }

  lemma {:induction false} OneByteExpr(p: Program, t: Table, t': Table, chain: seq<Node>, a: Address)
    requires AllDerived(p, t) && AllDerived(p, t') && |chain| > 0
    requires Walk(p, t, chain, a).Some? && Walk(p, t', chain, a).Some?
    ensures Walk(p, t, chain, a) == Walk(p, t', chain, a)
    decreases Walk(p, t, chain, a).value, |chain|
  {
    var n := |chain| - 1;
    if n > 0 {
      if Target(p, chain[n]).value.Marks(a) {
        OneOperand(p, t, t', p.code[chain[n].inst].kind.pointer);
        OneOperand(p, t, t', p.code[chain[n].inst].kind.stored);
      } else {
        OneByteExpr(p, t, t', chain[..n], a);
      }
    }
  }

  function Union(t: Table, t': Table): Table { map i | i in t.Keys + t'.Keys :: if i in t then t[i] else t'[i] }

  lemma UnionDerived(p: Program, t: Table, t': Table)
    requires AllDerived(p, t) && AllDerived(p, t')
    ensures AllDerived(p, Union(t, t')) && Includes(t, Union(t, t')) && Includes(t', Union(t, t'))
  {
    var u := Union(t, t');
    forall i | i in t' ensures i in u && u[i] == t'[i] {
      if i in t { OneExpression(p, t, t', i); }
    }
    forall i | i in u ensures Derivation(p, u, i, u[i]) {
      if i in t {
        assert Derived(p, t, i);
        DerivationMonotone(p, t, u, i, t[i]);
      } else {
        assert Derived(p, t', i);
        DerivationMonotone(p, t', u, i, t'[i]);
      }
    }
  }

  lemma EmptyTable(p: Program) returns (t: Table)
    ensures AllDerived(p, t) && t == map[]
  {
    t := map[];
  }

  /** One table of everything that has a derivation. */
  lemma {:induction false} WholeTable(p: Program, n: nat) returns (t: Table)
    requires n <= |p.code|
    ensures AllDerived(p, t) && forall i: nat :: i < n && Derivable(p, i) ==> i in t
  {
    hide AllDerived;
    t := EmptyTable(p);
    if n > 0 {
      t := WholeTable(p, n - 1);
      if Derivable(p, n - 1) {
        var t' :| AllDerived(p, t') && n - 1 in t';
        UnionDerived(p, t, t');
        t := Union(t, t');
      }
    }
  }

  /** In the whole table an instruction has a derivation exactly if it is in it. */
  lemma WholeUnfolds(p: Program, t: Table, i: nat)
    requires AllDerived(p, t) && forall j: nat :: j < |p.code| && Derivable(p, j) ==> j in t
    ensures Derivable(p, i) <==> exists x :: Derivation(p, t, i, x)
    ensures Derivable(p, i) <==> i in t
  {
    if i in t {
      assert Derived(p, t, i);
    }
    if x :| Derivation(p, t, i, x) {
      if i !in t {
        var t' := t[i := x];
        forall j | j in t' ensures Derivation(p, t', j, t'[j]) {
          if j != i { assert Derived(p, t, j); }
          DerivationMonotone(p, t, t', j, t'[j]);
        }
        assert AllDerived(p, t');
      }
    }
    if Derivable(p, i) {
      var t' :| AllDerived(p, t') && i in t';
      assert Derived(p, t', i);
    }
  }

  // ------------------------------------------------- the laws

  /** An instruction without memory is derivable exactly if it is outside loops and so is every
      instruction it uses. */
  lemma PureLaw(p: Program, i: nat)
    requires i < |p.code| && p.code[i].kind.Pure?
    ensures Derivable(p, i) <==>
      !p.code[i].inLoop && forall o :: o in p.code[i].kind.operands && o.Result? ==> Derivable(p, o.inst)
  {
    hide AllDerived, Derivable;
    var t := WholeTable(p, |p.code|);
    WholeUnfolds(p, t, i);
    WholeKnown(p, t);
    var os := p.code[i].kind.operands;
    if !p.code[i].inLoop && forall o :: o in os && o.Result? ==> Derivable(p, o.inst) {
      forall k | 0 <= k < |os| ensures Known(t, os[k]) { assert os[k] in os; }
      assert Derivation(p, t, i, EApply(p.code[i].kind.op, ArgExprs(t, os)));
    }
  }

  lemma WholeKnown(p: Program, t: Table)
    requires AllDerived(p, t) && forall j: nat :: j < |p.code| && Derivable(p, j) ==> j in t
    ensures forall j :: j in t <==> Derivable(p, j)
  {
    forall j ensures j in t <==> Derivable(p, j) { WholeUnfolds(p, t, j); }
  }

  /** A definition that stores to a known place. */
  ghost predicate KnownStore(p: Program, n: Node) {
    n.Def? && n.inst < |p.code| && p.code[n.inst].kind.Store? && p.code[n.inst].kind.target.Some?
  }

  ghost predicate Covers(p: Program, n: Node, a: Address) {
    KnownStore(p, n) &&
    var s := p.code[n.inst].kind.target.value;
    s.page == a.page && s.offset <= a.offset < s.offset + s.size
  }

  /** The last definition that covers the byte is number `j` of the chain, and all after it are
      stores to known places; for 0, no store covers it and the chain starts from the entry. */
  ghost predicate LastAt(p: Program, chain: seq<Node>, j: nat, a: Address) {
    && j < |chain| && (if j == 0 then chain[0] == LiveOnEntry else Covers(p, chain[j], a))
    && forall m :: j < m < |chain| ==> KnownStore(p, chain[m]) && !Covers(p, chain[m], a)
  }

  /** A store that a load may see through. */
  ghost predicate Transparent(p: Program, n: Node) {
    KnownStore(p, n) && !p.code[n.inst].inLoop && p.code[n.inst].preds <= 1
    && (p.code[n.inst].kind.pointer.Result? ==> Derivable(p, p.code[n.inst].kind.pointer.inst))
    && (p.code[n.inst].kind.stored.Result? ==> Derivable(p, p.code[n.inst].kind.stored.inst))
  }

  ghost predicate ByteFound(p: Program, chain: seq<Node>, a: Address) {
    exists j: nat :: LastAt(p, chain, j, a) && (j > 0 ==> Transparent(p, chain[j]))
  }

  lemma SeenThrough(p: Program, t: Table, n: Node)
    requires (forall j :: j in t <==> Derivable(p, j)) && KnownStore(p, n)
    ensures StoreSafe(p, t, n.inst) <==> Transparent(p, n)
  {
    hide Derivable;
  }

  lemma {:induction false} WalkLaw(p: Program, t: Table, chain: seq<Node>, a: Address)
    requires (forall j :: j in t <==> Derivable(p, j)) && p.IsChain(chain) && a.offset < TWO64
    ensures Walk(p, t, chain, a).Some? <==> ByteFound(p, chain, a)
    decreases |chain|
  {
    hide Derivable, StoreSafe, Transparent, LastAt;
    var n := |chain| - 1;
    if n == 0 {
      AtEntry(p, chain, a);
    } else if KnownStore(p, chain[n]) {
      SeenThrough(p, t, chain[n]);
      if Covers(p, chain[n], a) {
        AtLast(p, chain, a);
      } else {
        WalkLaw(p, t, chain[..n], a);
        BeforeLast(p, chain, a);
      }
    } else {
      AtUnknown(p, chain, a);
    }
  }

  lemma AtEntry(p: Program, chain: seq<Node>, a: Address)
    requires |chain| == 1
    ensures ByteFound(p, chain, a) <==> chain[0] == LiveOnEntry
  {
    assert LastAt(p, chain, 0, a) <==> chain[0] == LiveOnEntry;
  }

  lemma AtLast(p: Program, chain: seq<Node>, a: Address)
    requires |chain| > 1 && Covers(p, chain[|chain| - 1], a)
    ensures ByteFound(p, chain, a) <==> Transparent(p, chain[|chain| - 1])
  {
    hide Transparent;
    assert LastAt(p, chain, |chain| - 1, a);
    assert forall j: nat :: LastAt(p, chain, j, a) ==> j == |chain| - 1;
  }

  lemma AtUnknown(p: Program, chain: seq<Node>, a: Address)
    requires |chain| > 1 && !KnownStore(p, chain[|chain| - 1])
    ensures !ByteFound(p, chain, a)
  {
    assert forall j: nat :: !LastAt(p, chain, j, a);
  }

  lemma BeforeLast(p: Program, chain: seq<Node>, a: Address)
    requires |chain| > 1 && KnownStore(p, chain[|chain| - 1]) && !Covers(p, chain[|chain| - 1], a)
    ensures ByteFound(p, chain, a) <==> ByteFound(p, chain[..|chain| - 1], a)
  {
    hide Transparent, KnownStore, Covers;
    var n := |chain| - 1;
    var front := chain[..n];
    forall j: nat ensures LastAt(p, chain, j, a) <==> LastAt(p, front, j, a) {
      assert j < n ==> forall m :: j < m < n ==> chain[m] == front[m];
    }
  }

  /** A load is derivable exactly if it is outside loops and joins, of at most 64 bytes at a known
      place, its pointer is derivable, and each of its bytes was last written on its chain of
      definitions by a store outside loops and joins with derivable operands, or is an entry
      byte, with no unknown definition since. */
  lemma LoadLaw(p: Program, i: nat, chain: seq<Node>)
    requires i < |p.code| && p.code[i].kind.Load? && p.IsChain(chain)
    requires p.code[i].kind.owner == Some(chain[|chain| - 1]) && p.code[i].kind.loaded.Some?
    ensures var s := p.code[i].kind.loaded.value;
      Derivable(p, i) <==>
        && !p.code[i].inLoop && p.code[i].preds <= 1 && s.size <= 64
        && (p.code[i].kind.pointer.Result? ==> Derivable(p, p.code[i].kind.pointer.inst))
        && forall k: nat :: k < s.size ==> ByteFound(p, chain, s.Byte(k))
  {
    hide AllDerived, Derivable, ByteFound;
    var t := WholeTable(p, |p.code|);
    WholeUnfolds(p, t, i);
    WholeKnown(p, t);
    var Load(ptr, owner, loaded) := p.code[i].kind;
    var s := loaded.value;
    forall k: nat ensures Walk(p, t, chain, s.Byte(k)).Some? <==> ByteFound(p, chain, s.Byte(k)) {
      WalkLaw(p, t, chain, s.Byte(k));
    }
    assert RangeSafe(p, t, chain, s) <==> forall k: nat :: k < s.size ==> ByteFound(p, chain, s.Byte(k));
    forall c | p.IsChain(c) && c[|c| - 1] == owner.value ensures c == chain { p.ChainUnique(c, chain); }
    if Known(t, ptr) && RangeSafe(p, t, chain, s) && !p.code[i].inLoop && p.code[i].preds <= 1 && s.size <= 64 {
      assert Derivation(p, t, i, LoadExpr(p, t, ptr, chain, s));
    }
  }

  /** Nothing else is: no load without a definition, without a chain or at an unknown place, and
      no phi, store or other access to memory. */
  lemma NothingElse(p: Program, i: nat)
    requires i < |p.code| && Derivable(p, i)
    ensures p.code[i].kind.Pure? || p.code[i].kind.Load?
    ensures p.code[i].kind.Load? ==> p.code[i].kind.owner.Some? && p.code[i].kind.loaded.Some?
    ensures p.code[i].kind.Load? ==>
      exists chain :: p.IsChain(chain) && chain[|chain| - 1] == p.code[i].kind.owner.value
  {
    var t :| AllDerived(p, t) && i in t;
    assert Derived(p, t, i);
  }

  /** A load among stores to known places, none of them through computed values: it is derivable
      exactly if it and the stores it sees lie outside loops and joins and it is narrow enough. */
  lemma StraightLoad(p: Program, i: nat, chain: seq<Node>)
    requires i < |p.code| && p.code[i].kind.Load? && p.IsChain(chain) && chain[0] == LiveOnEntry
    requires p.code[i].kind.owner == Some(chain[|chain| - 1]) && p.code[i].kind.loaded.Some?
    requires !p.code[i].inLoop && !p.code[i].kind.pointer.Result?
    requires forall m :: 0 < m < |chain| ==>
      (KnownStore(p, chain[m])
       && !p.code[chain[m].inst].kind.pointer.Result? && !p.code[chain[m].inst].kind.stored.Result?)
    ensures var s := p.code[i].kind.loaded.value;
      Derivable(p, i) <==>
        && p.code[i].preds <= 1 && s.size <= 64
        && forall k: nat, j: nat :: k < s.size && 0 < j < |chain| && LastAt(p, chain, j, s.Byte(k)) ==>
             !p.code[chain[j].inst].inLoop && p.code[chain[j].inst].preds <= 1
  {
    LoadLaw(p, i, chain);
    hide Derivable;
    var s := p.code[i].kind.loaded.value;
    forall k: nat | k < s.size
      ensures ByteFound(p, chain, s.Byte(k)) <==>
        forall j: nat :: 0 < j < |chain| && LastAt(p, chain, j, s.Byte(k)) ==>
          !p.code[chain[j].inst].inLoop && p.code[chain[j].inst].preds <= 1
    {
      var l := SomeLast(p, chain, s.Byte(k));
      forall j: nat | LastAt(p, chain, j, s.Byte(k)) ensures j == l {
      }
    }
  }

  /** Some definition of such a chain comes last. */
  lemma {:induction false} SomeLast(p: Program, chain: seq<Node>, a: Address) returns (j: nat)
    requires |chain| > 0 && chain[0] == LiveOnEntry && forall m :: 0 < m < |chain| ==> KnownStore(p, chain[m])
    ensures LastAt(p, chain, j, a)
    decreases |chain|
  {
    j := |chain| - 1;
    if j > 0 && !Covers(p, chain[j], a) {
      j := SomeLast(p, chain[..j], a);
      assert forall m :: j < m < |chain| - 1 ==> chain[m] == chain[..|chain| - 1][m];
    }
  }

  /** No order is wrong for a program whose loads and stores use no computed pointers or values. */
  lemma DirectInOrder(p: Program, order: seq<Node>)
    requires forall i :: 0 <= i < |p.code| && p.code[i].kind.Load? ==> !p.code[i].kind.pointer.Result?
    requires forall i :: 0 <= i < |p.code| && p.code[i].kind.Store? ==>
      !p.code[i].kind.pointer.Result? && !p.code[i].kind.stored.Result?
    ensures InOrder(p, order)
  {
    hide Derivable;
    forall k | 0 <= k < |order| ensures StoreInOrder(p, order[..k], order[k]) && LoadsInOrder(p, order[..k], order[k]) {
      forall i | LoadsAsk(p, order[..k], order[k], i) ensures !TooEarly(p, i, order[..k] + [order[k]]) {
        NoPointerAsks(p, order[..k], order[k], i);
      }
    }
  }

  lemma NoPointerAsks(p: Program, done: seq<Node>, n: Node, i: nat)
    requires forall l :: 0 <= l < |p.code| && p.code[l].kind.Load? ==> !p.code[l].kind.pointer.Result?
    requires LoadsAsk(p, done, n, i)
    ensures p.LoadAt(i, n)
  {
    hide Asked, StoreAsks;
    forall l: nat ensures !PointerAsks(p, done, n, l, i) {
    }
  }
}
