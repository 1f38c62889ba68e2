/** When the verdicts of the analysis are the right ones: a value with a derivation is refused
    only because some load with a derivation was asked about before its own node was entered. */
module SafetyExactness {
  import opened Wrappers
  import opened SafetyModel
  import opened SafetyMemo
  import opened SafetyOrder

  ghost predicate Idle(m: Memo) {
    forall i :: i in m ==> m[i] != Visiting
  }

  /** No load that has a derivation was refused for being asked about early. */
  ghost predicate Clean(p: Program, early: set<nat>) {
    forall i :: i in early ==> !Derivable(p, i)
  }

  lemma SafeIsDerivable(p: Program, m: Memo, t: Table, e: set<nat>, i: nat)
    requires MemoOk(p, m, t, e) && i in m && m[i] == Safe
    ensures Derivable(p, i)
  {
    assert AllDerived(p, t) && i in t;
  }

  lemma KnownDerives(p: Program, m: Memo, t: Table, e: set<nat>, o: Operand)
    requires MemoOk(p, m, t, e) && Known(t, o)
    ensures Derives(p, o)
  {
    if o.Result? { SafeIsDerivable(p, m, t, e, o.inst); }
  }

  // ------------------------------------------------------ completeness

  /** What a byte that resolves over one table but not over the run's rests on: a store whose
      operands have derivations there, one of which was refused. */
  lemma {:induction false} WalkBlame(p: Program, m: Memo, t: Table, d: Table, chain: seq<Node>, a: Address)
                                     returns (n: Node)
    requires TableOf(m, t) && |chain| > 0 && ChainSettled(p, m, chain)
    requires Walk(p, d, chain, a).Some? && Walk(p, t, chain, a).None?
    ensures Judgeable(p, n) && StoreSafe(p, d, n.inst)
    ensures var store := p.code[n.inst].kind;
      && Walk(p, d, chain, a).value.StoredByte?
      && Walk(p, d, chain, a).value.pointer == ExprOf(d, store.pointer)
      && Walk(p, d, chain, a).value.word == ExprOf(d, store.stored)
      && (Denied(m, store.pointer) || Denied(m, store.stored))
    decreases |chain|
  {
    var k := |chain| - 1;
    assert StoreSettled(p, m, chain[k]);
    if Target(p, chain[k]).value.Marks(a) {
      n := chain[k];
    } else {
      n := WalkBlame(p, m, t, d, chain[..k], a);
    }
  }

  /** Whatever has a derivation and was judged is safe, unless some load was asked about early. */
  lemma {:induction false} Complete(p: Program, m: Memo, t: Table, e: set<nat>, d: Table, i: nat)
    requires MemoOk(p, m, t, e) && Idle(m) && Clean(p, e) && AllDerived(p, d) && i in d && i in m
    ensures m[i] == Safe
    decreases d[i], 1
  {
    assert Derived(p, d, i);
    if m[i] == Unsafe {
      assert Refused(p, m, t, e, i);
      if p.code[i].kind.Pure? {
        PureComplete(p, m, t, e, d, i);
      } else {
        LoadComplete(p, m, t, e, d, i);
      }
    }
  }

  lemma {:induction false} OperandComplete(p: Program, m: Memo, t: Table, e: set<nat>, d: Table, o: Operand)
    requires MemoOk(p, m, t, e) && Idle(m) && Clean(p, e) && AllDerived(p, d) && Known(d, o)
    ensures !Denied(m, o)
    decreases ExprOf(d, o), 2
  {
    if o.Result? && o.inst in m { Complete(p, m, t, e, d, o.inst); }
  }

  lemma {:induction false} PureComplete(p: Program, m: Memo, t: Table, e: set<nat>, d: Table, i: nat)
    requires MemoOk(p, m, t, e) && Idle(m) && Clean(p, e) && AllDerived(p, d) && i in d
    requires Derived(p, d, i) && p.code[i].kind.Pure?
    ensures !Refused(p, m, t, e, i)
    decreases d[i], 0
  {
    var os := p.code[i].kind.operands;
    forall k | 0 <= k < |os| ensures !Denied(m, os[k]) {
      assert d[i].args[k] == ExprOf(d, os[k]);
      OperandComplete(p, m, t, e, d, os[k]);
    }
  }

  lemma {:induction false} LoadComplete(p: Program, m: Memo, t: Table, e: set<nat>, d: Table, i: nat)
    requires MemoOk(p, m, t, e) && Idle(m) && Clean(p, e) && AllDerived(p, d) && i in d
    requires Derived(p, d, i) && p.code[i].kind.Load?
    ensures !Refused(p, m, t, e, i)
    decreases d[i], 0
  {
    var Load(ptr, owner, loaded) := p.code[i].kind;
    var s := loaded.value;
    assert Derivable(p, i);
    var chain :| p.IsChain(chain) && chain[|chain| - 1] == owner.value
      && RangeSafe(p, d, chain, s) && d[i] == LoadExpr(p, d, ptr, chain, s);
    OperandComplete(p, m, t, e, d, ptr);
    forall c | p.IsChain(c) && c[|c| - 1] == owner.value && ChainSettled(p, m, c) ensures RangeSafe(p, t, c, s) {
      p.ChainUnique(c, chain);
      forall k: nat | k < s.size ensures Walk(p, t, chain, s.Byte(k)).Some? {
        assert d[i].bytes[k] == Walk(p, d, chain, s.Byte(k)).value;
        ByteComplete(p, m, t, e, d, chain, s.Byte(k));
      }
    }
  }

  lemma {:induction false} ByteComplete(p: Program, m: Memo, t: Table, e: set<nat>, d: Table, chain: seq<Node>,
                                        a: Address)
    requires MemoOk(p, m, t, e) && Idle(m) && Clean(p, e) && AllDerived(p, d)
    requires |chain| > 0 && ChainSettled(p, m, chain) && Walk(p, d, chain, a).Some?
    ensures Walk(p, t, chain, a).Some?
    decreases Walk(p, d, chain, a).value, 0
  {
    if Walk(p, t, chain, a).None? {
      var n := WalkBlame(p, m, t, d, chain, a);
      OperandComplete(p, m, t, e, d, p.code[n.inst].kind.pointer);
      OperandComplete(p, m, t, e, d, p.code[n.inst].kind.stored);
    }
  }

  lemma CompleteVerdict(p: Program, m: Memo, t: Table, e: set<nat>, i: nat)
    requires MemoOk(p, m, t, e) && Idle(m) && Clean(p, e) && Derivable(p, i) && i in m
    ensures m[i] == Safe && i in t
  {
    var d :| AllDerived(p, d) && i in d;
    Complete(p, m, t, e, d, i);
  }

  // ---------------------------------------------- what was asked is judged

  /** Once nothing is under way, asking about a judged value's operand has judged it too. */
  lemma OperandJudged(p: Program, m: Memo, t: Table, e: set<nat>, j: nat, i: nat)
    requires MemoOk(p, m, t, e) && Idle(m) && Clean(p, e) && j in m && AsksOperand(p, j, i)
    ensures i in m
  {
    var os := p.code[j].kind.operands;
    var k :| AsksAt(p, os, i, k);
    if m[j] == Safe {
      assert Derived(p, t, j) && Known(t, os[k]);
    } else {
      assert Refused(p, m, t, e, j);
      var q :| DeniedFirst(m, t, os, q);
      RefusedAfter(p, m, t, e, os, i, k, q);
    }
  }

  lemma RefusedAfter(p: Program, m: Memo, t: Table, e: set<nat>, os: seq<Operand>, i: nat, k: int, q: int)
    requires MemoOk(p, m, t, e) && Idle(m) && Clean(p, e) && AsksAt(p, os, i, k) && DeniedFirst(m, t, os, q)
    ensures i in m
  {
    if q < k {
      assert Derives(p, os[q]);
      CompleteVerdict(p, m, t, e, os[q].inst);
    } else if k < q {
      assert Known(t, os[k]);
    }
  }

  lemma {:induction false} PathJudged(p: Program, m: Memo, t: Table, e: set<nat>, path: seq<nat>)
    requires MemoOk(p, m, t, e) && Idle(m) && Clean(p, e) && IsPath(p, path) && path[0] in m
    ensures path[|path| - 1] in m
    decreases |path|
  {
    hide MemoOk, Idle, Clean, AsksOperand;
    var n := |path| - 1;
    if n > 0 {
      var front := path[..n];
      assert IsPath(p, front) && front[0] == path[0] && front[|front| - 1] == path[n - 1];
      PathJudged(p, m, t, e, front);
      assert AsksOperand(p, path[n - 1], path[n - 1 + 1]);
      OperandJudged(p, m, t, e, path[n - 1], path[n]);
    }
  }

  lemma ReachedJudged(p: Program, m: Memo, t: Table, e: set<nat>, o: Operand, i: nat)
    requires MemoOk(p, m, t, e) && Idle(m) && Clean(p, e) && AsksAbout(p, o, i) && o.inst in m
    ensures i in m
  {
    hide MemoOk, Idle, Clean, AsksOperand;
    var path :| IsPath(p, path) && path[0] == o.inst && path[|path| - 1] == i;
    PathJudged(p, m, t, e, path);
  }

  lemma StoreAskedJudged(p: Program, m: Memo, t: Table, e: set<nat>, n: Node, i: nat)
    requires MemoOk(p, m, t, e) && Idle(m) && Clean(p, e) && StoreSettled(p, m, n) && StoreAsks(p, n, i)
    ensures i in m
  {
    hide MemoOk, Idle, Clean, IsPath;
    var store := p.code[n.inst].kind;
    if AsksAbout(p, store.pointer, i) {
      ReachedJudged(p, m, t, e, store.pointer, i);
    } else {
      if Denied(m, store.pointer) { CompleteVerdict(p, m, t, e, store.pointer.inst); }
      ReachedJudged(p, m, t, e, store.stored, i);
    }
  }

  lemma PointerAskedJudged(p: Program, m: Memo, t: Table, e: set<nat>, l: nat, i: nat)
    requires MemoOk(p, m, t, e) && Idle(m) && Clean(p, e) && l in m && l !in e && PassesGuards(p, l)
    requires p.code[l].kind.owner.Some? && AsksAbout(p, p.code[l].kind.pointer, i)
    ensures i in m
  {
    var ptr := p.code[l].kind.pointer;
    assert ptr.inst in m by {
      if m[l] == Safe {
        assert Derived(p, t, l);
      } else {
        assert Refused(p, m, t, e, l);
      }
    }
    hide MemoOk, Idle, Clean;
    ReachedJudged(p, m, t, e, ptr, i);
  }

  // ------------------------------------------------------ the account

  /** Where the traversal is: between nodes, judging a store it is about to enter, past that,
      or judging the loads of a node it has entered. */
  datatype Now = Between | AtStore(node: Node) | Pushed(node: Node) | AtLoads(node: Node)

  datatype Agenda = Agenda(done: seq<Node>, now: Now) {
    function Entered(): seq<Node> { if now.AtLoads? then done + [now.node] else done }
  }

  ghost predicate AskedNow(p: Program, a: Agenda, i: nat) {
    match a.now
    case AtStore(n) => StoreAsks(p, n, i)
    case AtLoads(n) => LoadsAsk(p, a.done, n, i)
    case _ => false
  }

  predicate Finished(m: Memo, i: nat) { i in m && m[i] != Visiting }

  ghost predicate LoadsDone(p: Program, m: Memo, n: Node) {
    forall i :: p.LoadAt(i, n) ==> Finished(m, i)
  }

  /** The loads in the table belong to nodes that have been entered. */
  ghost predicate OwnersEntered(p: Program, t: Table, a: Agenda) {
    forall i :: i in t && i < |p.code| && p.code[i].kind.Load? ==>
      p.code[i].kind.owner.Some? && p.code[i].kind.owner.value in a.Entered()
  }

  /** The order has been violated by now. */
  ghost predicate Violated(p: Program, a: Agenda) {
    || !InOrder(p, a.done)
    || (!a.now.Between? && !StoreInOrder(p, a.done, a.now.node))
    || (a.now.AtLoads? && !LoadsInOrder(p, a.done, a.now.node))
  }

  /** Everything asked about at earlier nodes is judged, and in order. */
  ghost predicate UpToDate(p: Program, m: Memo, a: Agenda) {
    && InOrder(p, a.done) && (forall i :: Asked(p, a.done, i) ==> Finished(m, i))
    && (a.now.Pushed? || a.now.AtLoads? ==>
          StoreInOrder(p, a.done, a.now.node) && forall i :: StoreAsks(p, a.now.node, i) ==> Finished(m, i))
  }

  ghost predicate AskedEarly(p: Program, a: Agenda, i: nat) {
    || Asked(p, a.done, i)
    || (!a.now.Between? && StoreAsks(p, a.now.node, i))
    || (a.now.AtLoads? && LoadsAsk(p, a.done, a.now.node, i) && !p.LoadAt(i, a.now.node))
  }

  ghost predicate Account(p: Program, m: Memo, t: Table, e: set<nat>, a: Agenda) {
    && (forall n :: n in a.done ==> LoadsDone(p, m, n))
    && OwnersEntered(p, t, a)
    && (!Clean(p, e) ==> Violated(p, a))
    && (Clean(p, e) ==> UpToDate(p, m, a) && forall i :: i in e ==> AskedEarly(p, a, i))
  }

  /** Finished verdicts stay. */
  ghost predicate Settles(m: Memo, m': Memo) {
    forall i :: Finished(m, i) ==> Finished(m', i)
  }

  lemma AccountGrows(p: Program, m: Memo, t: Table, e: set<nat>, a: Agenda, m': Memo, t': Table)
    requires Account(p, m, t, e, a) && Settles(m, m') && OwnersEntered(p, t', a)
    ensures Account(p, m', t', e, a)
  {
    hide Clean, Violated, AskedEarly, InOrder, StoreInOrder, OwnersEntered;
    forall n | n in a.done ensures LoadsDone(p, m', n) {
      assert LoadsDone(p, m, n);
    }
  }

  /** Refusing a load because its node is not the active one. */
  lemma AccountEarly(p: Program, m: Memo, t: Table, e: set<nat>, a: Agenda, i: nat)
    requires Account(p, m, t, e, a) && i < |p.code| && p.code[i].kind.Load? && i in m && m[i] == Visiting
    requires a.now.AtStore? || (a.now.AtLoads? && p.code[i].kind.owner != Some(a.now.node))
    requires Clean(p, e) ==> AskedNow(p, a, i)
    ensures Account(p, m, t, e + {i}, a)
  {
    var owner := p.code[i].kind.owner;
    hide InOrder, Asked, StoreAsks, LoadsAsk, OwnersEntered;
    if owner.Some? {
      assert p.LoadAt(i, owner.value) && (owner.value in a.done ==> LoadsDone(p, m, owner.value));
    }
    assert !(owner.Some? && owner.value in a.Entered());
    if Clean(p, e) && Derivable(p, i) {
      assert TooEarly(p, i, a.Entered());
      assert Violated(p, a);
    }
    if Clean(p, e + {i}) {
      assert Clean(p, e);
    }
  }

  lemma AskOperand(p: Program, a: Agenda, j: nat, i: nat)
    requires AskedNow(p, a, j) && AsksOperand(p, j, i)
    ensures AskedNow(p, a, i)
  {
    hide AsksAbout;
    if a.now.AtStore? {
      var store := p.code[a.now.node.inst].kind;
      if AsksAbout(p, store.pointer, j) { AsksOn(p, store.pointer, j, i); } else { AsksOn(p, store.stored, j, i); }
    } else {
      assert LoadsAsk(p, a.done, a.now.node, j) && !p.LoadAt(j, a.now.node);
      var l: nat :| PointerAsks(p, a.done, a.now.node, l, j);
      AsksOn(p, p.code[l].kind.pointer, j, i);
      assert PointerAsks(p, a.done, a.now.node, l, i);
    }
  }

  lemma AskPointer(p: Program, m: Memo, t: Table, e: set<nat>, a: Agenda, l: nat)
    requires Account(p, m, t, e, a) && Clean(p, e) && l in m && m[l] == Visiting
    requires a.now.AtLoads? && p.LoadAt(l, a.now.node) && PassesGuards(p, l) && p.code[l].kind.pointer.Result?
    ensures AskedNow(p, a, p.code[l].kind.pointer.inst)
  {
    hide InOrder, Asked, StoreAsks, StoreInOrder;
    AsksItself(p, p.code[l].kind.pointer.inst);
    assert PointerAsks(p, a.done, a.now.node, l, p.code[l].kind.pointer.inst);
  }

  // ------------------------------------------------------ one judgement

  /** The active node is the one being judged, or one entered before. */
  ghost predicate Timely(a: Agenda, active: Node) {
    (a.now.AtStore? && active in a.done) || a.now == AtLoads(active)
  }

  predicate OwnedHere(p: Program, a: Agenda, i: nat) {
    i < |p.code| && p.code[i].kind.Load? ==> p.code[i].kind.owner.Some? && p.code[i].kind.owner.value in a.Entered()
  }

  lemma NotEarly(p: Program, m: Memo, t: Table, e: set<nat>, i: nat)
    requires MemoOk(p, m, t, e) && i !in m
    ensures i !in e
  {
  }

  lemma AccountVisit(p: Program, m: Memo, t: Table, e: set<nat>, a: Agenda, i: nat)
    requires Account(p, m, t, e, a) && i !in m
    ensures Account(p, m[i := Visiting], t, e, a)
  {
    AccountGrows(p, m, t, e, a, m[i := Visiting], t);
  }

  lemma AccountRefuse(p: Program, m: Memo, t: Table, e: set<nat>, a: Agenda, i: nat)
    requires Account(p, m, t, e, a)
    ensures Account(p, m[i := Unsafe], t, e, a)
  {
    AccountGrows(p, m, t, e, a, m[i := Unsafe], t);
  }

  lemma AccountAccept(p: Program, m: Memo, t: Table, e: set<nat>, a: Agenda, i: nat, x: Expr)
    requires Account(p, m, t, e, a) && OwnedHere(p, a, i)
    ensures Account(p, m[i := Safe], t[i := x], e, a)
  {
    AccountGrows(p, m, t, e, a, m[i := Safe], t[i := x]);
  }

  lemma DueStays(p: Program, e: set<nat>, e': set<nat>, a: Agenda, i: nat)
    requires e <= e' && (Clean(p, e) ==> AskedNow(p, a, i))
    ensures Clean(p, e') ==> AskedNow(p, a, i)
  {
    hide AskedNow;
  }

  lemma DueOperand(p: Program, m: Memo, t: Table, e: set<nat>, a: Agenda, i: nat, k: nat)
    requires MemoOk(p, m, t, e) && (Clean(p, e) ==> AskedNow(p, a, i))
    requires i < |p.code| && p.code[i].kind.Pure? && !p.code[i].inLoop
    requires k < |p.code[i].kind.operands| && p.code[i].kind.operands[k].Result?
    requires forall j :: 0 <= j < k ==> Known(t, p.code[i].kind.operands[j])
    ensures Clean(p, e) ==> AskedNow(p, a, p.code[i].kind.operands[k].inst)
  {
    hide MemoOk, AskedNow, Clean;
    var os := p.code[i].kind.operands;
    forall j | 0 <= j < k ensures Derives(p, os[j]) {
      KnownDerives(p, m, t, e, os[j]);
    }
    assert AsksAt(p, os, os[k].inst, k);
    if Clean(p, e) { AskOperand(p, a, i, os[k].inst); }
  }

  /** A load of the active node that has no verdict yet is judged on entering that node. */
  lemma OwnerHere(p: Program, m: Memo, t: Table, e: set<nat>, a: Agenda, active: Node, i: nat)
    requires Account(p, m, t, e, a) && Timely(a, active) && p.LoadAt(i, active) && i in m && m[i] == Visiting
    ensures a.now == AtLoads(active) && OwnedHere(p, a, i)
  {
    assert active in a.done ==> LoadsDone(p, m, active);
  }

  lemma DuePointer(p: Program, m: Memo, t: Table, e: set<nat>, a: Agenda, l: nat)
    requires Account(p, m, t, e, a) && l in m && m[l] == Visiting
    requires a.now.AtLoads? && p.LoadAt(l, a.now.node) && PassesGuards(p, l) && p.code[l].kind.pointer.Result?
    ensures Clean(p, e) ==> AskedNow(p, a, p.code[l].kind.pointer.inst)
  {
    hide Account, AskedNow, Clean;
    if Clean(p, e) { AskPointer(p, m, t, e, a, l); }
  }

  /** A store about to be entered asks about its pointer, and about its value if that is safe. */
  lemma DueStore(p: Program, m: Memo, t: Table, e: set<nat>, a: Agenda, i: nat)
    requires MemoOk(p, m, t, e) && a.now == AtStore(Def(i)) && Judgeable(p, Def(i))
    ensures var store := p.code[i].kind;
      && (store.pointer.Result? ==> AskedNow(p, a, store.pointer.inst))
      && (Known(t, store.pointer) && store.stored.Result? ==> AskedNow(p, a, store.stored.inst))
  {
    hide MemoOk, IsPath;
    var store := p.code[i].kind;
    if store.pointer.Result? { AsksItself(p, store.pointer.inst); }
    if Known(t, store.pointer) && store.stored.Result? {
      KnownDerives(p, m, t, e, store.pointer);
      AsksItself(p, store.stored.inst);
    }
  }

  // ------------------------------------------------------ from node to node

  lemma BeginStore(p: Program, m: Memo, t: Table, e: set<nat>, done: seq<Node>, n: Node)
    requires Account(p, m, t, e, Agenda(done, Between))
    ensures Account(p, m, t, e, Agenda(done, AtStore(n)))
  {
    hide Clean, InOrder, Asked, StoreAsks, StoreInOrder, LoadsDone;
  }

  lemma BeginRoot(p: Program, m: Memo, t: Table, e: set<nat>, done: seq<Node>, n: Node)
    requires Account(p, m, t, e, Agenda(done, Between)) && n.Root()
    ensures Account(p, m, t, e, Agenda(done, Pushed(n)))
  {
    hide Clean, InOrder, Asked, LoadsDone;
  }

  /** A store that has been judged was asked about in order, or some load was refused early. */
  lemma EndStore(p: Program, m: Memo, t: Table, e: set<nat>, done: seq<Node>, n: Node)
    requires Account(p, m, t, e, Agenda(done, AtStore(n))) && MemoOk(p, m, t, e) && Idle(m) && StoreSettled(p, m, n)
    ensures Account(p, m, t, e, Agenda(done, Pushed(n)))
  {
    hide InOrder, Asked, StoreAsks, LoadsDone, MemoOk, StoreSettled, Derivable;
    if Clean(p, e) {
      forall i | StoreAsks(p, n, i) ensures Finished(m, i) && !TooEarly(p, i, done) {
        StoreAskedJudged(p, m, t, e, n, i);
        if Derivable(p, i) { CompleteVerdict(p, m, t, e, i); }
      }
    }
  }

  lemma BeginLoads(p: Program, m: Memo, t: Table, e: set<nat>, done: seq<Node>, n: Node)
    requires Account(p, m, t, e, Agenda(done, Pushed(n)))
    ensures Account(p, m, t, e, Agenda(done, AtLoads(n)))
  {
    hide Clean, InOrder, Asked, StoreAsks, StoreInOrder, LoadsDone, LoadsAsk, LoadsInOrder;
  }

  lemma LoadsAskedJudged(p: Program, m: Memo, t: Table, e: set<nat>, done: seq<Node>, n: Node, i: nat)
    requires Account(p, m, t, e, Agenda(done, AtLoads(n))) && MemoOk(p, m, t, e) && Idle(m) && Clean(p, e)
    requires (forall l :: p.LoadAt(l, n) ==> l in m) && LoadsAsk(p, done, n, i)
    ensures i in m
  {
    hide InOrder, Asked, StoreAsks, LoadsDone, MemoOk, Idle, Clean, AsksAbout, StoreInOrder, OwnersEntered;
    if !p.LoadAt(i, n) {
      var l: nat :| PointerAsks(p, done, n, l, i);
      assert l in e ==> AskedEarly(p, Agenda(done, AtLoads(n)), l);
      PointerAskedJudged(p, m, t, e, l, i);
    }
  }

  lemma EndLoads(p: Program, m: Memo, t: Table, e: set<nat>, done: seq<Node>, n: Node)
    requires Account(p, m, t, e, Agenda(done, AtLoads(n))) && MemoOk(p, m, t, e) && Idle(m)
    requires forall l :: p.LoadAt(l, n) ==> l in m
    ensures Account(p, m, t, e, Agenda(done + [n], Between))
  {
    hide InOrder, Asked, StoreAsks, MemoOk, LoadsAsk, Derivable, StoreInOrder;
    var a, a' := Agenda(done, AtLoads(n)), Agenda(done + [n], Between);
    InOrderPush(p, done, n);
    forall i ensures Asked(p, done + [n], i) <==> Asked(p, done, i) || StoreAsks(p, n, i) || LoadsAsk(p, done, n, i) {
      AskedPush(p, done, n, i);
    }
    assert OwnersEntered(p, t, a');
    if Clean(p, e) {
      forall i | LoadsAsk(p, done, n, i) ensures Finished(m, i) && !TooEarly(p, i, done + [n]) {
        LoadsAskedJudged(p, m, t, e, done, n, i);
        if Derivable(p, i) { CompleteVerdict(p, m, t, e, i); }
      }
      assert UpToDate(p, m, a');
      forall i | i in e ensures AskedEarly(p, a', i) {
        assert AskedEarly(p, a, i);
      }
    }
  }

  /** The verdicts are the right ones if and only if no load with a derivation was asked about
      before its own node was entered. */
  lemma ExactlyInOrder(p: Program, m: Memo, t: Table, e: set<nat>, order: seq<Node>)
    requires Account(p, m, t, e, Agenda(order, Between)) && MemoOk(p, m, t, e) && Idle(m)
    ensures (forall i :: i in m ==> (m[i] == Safe <==> Derivable(p, i))) <==> InOrder(p, order)
  {
    hide InOrder, Asked, Derivable, LoadsDone;
    if Clean(p, e) {
      forall i | i in m ensures m[i] == Safe <==> Derivable(p, i) {
        if m[i] == Safe { SafeIsDerivable(p, m, t, e, i); }
        if Derivable(p, i) { CompleteVerdict(p, m, t, e, i); }
      }
    } else {
      var i :| i in e && Derivable(p, i);
      assert i in m && i !in t;
    }
  }
}
