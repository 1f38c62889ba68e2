/** What the safety analysis ought to find, and the order in which its traversal asks.  Nothing
    here depends on a run of the analysis: it is all read off the program. */
module SafetyOrder {
  import opened Bits
  import opened Wrappers
  import opened SafetyModel

  /** The value has a safety derivation: every load in it passes the backward walk. */
  ghost predicate Derivable(p: Program, i: nat) {
    exists t :: AllDerived(p, t) && i in t
  }

  ghost predicate Derives(p: Program, o: Operand) {
    o.Result? ==> Derivable(p, o.inst)
  }

  // ----------------------------------------------------- the visiting order

  /** The nodes of a tree in the order of a depth-first walk; `depth` bounds its height. */
  function Subtree(p: Program, n: Node, depth: nat): seq<Node>
    decreases depth, 0
  {
    if depth == 0 then [] else [n] + Forest(p, p.Children(n), depth - 1)
  }

  function Forest(p: Program, nodes: seq<Node>, depth: nat): seq<Node>
    decreases depth, |nodes| + 1
  {
    if nodes == [] then [] else Subtree(p, nodes[0], depth) + Forest(p, nodes[1..], depth)
  }

  /** More than any chain of definitions is long. */
  function Height(p: Program): nat { |p.code| + 2 }

  function Trees(p: Program, roots: seq<Node>): seq<Node> {
    if roots == [] then []
    else Trees(p, roots[..|roots| - 1]) + Subtree(p, roots[|roots| - 1], Height(p))
  }

  /** All nodes of the forest, root by root, in the order in which they are entered. */
  function Preorder(p: Program): seq<Node> { Trees(p, p.RootsUpTo(|p.code|)) }

  // ------------------------------------------------------------ who asks whom

  /** Judging the pure instruction `j` asks about its operand `i`: operands are asked in turn,
      up to the first that is refused. */
  ghost predicate AsksOperand(p: Program, j: nat, i: nat) {
    j < |p.code| && !p.code[j].inLoop && p.code[j].kind.Pure? &&
    exists k :: AsksAt(p, p.code[j].kind.operands, i, k)
  }

  ghost predicate AsksAt(p: Program, os: seq<Operand>, i: nat, k: int) {
    0 <= k < |os| && os[k] == Result(i) && forall l :: 0 <= l < k ==> Derives(p, os[l])
  }

  ghost predicate IsPath(p: Program, path: seq<nat>) {
    |path| > 0 && forall k :: 0 <= k < |path| - 1 ==> AsksOperand(p, path[k], path[k + 1])
  }

  /** Asking about `o` asks about `i`, directly or through operands. */
  ghost predicate AsksAbout(p: Program, o: Operand, i: nat) {
    o.Result? && exists path :: IsPath(p, path) && path[0] == o.inst && path[|path| - 1] == i
  }

  lemma AsksItself(p: Program, i: nat)
    ensures AsksAbout(p, Result(i), i)
  {
    assert IsPath(p, [i]);
  }

  lemma AsksOn(p: Program, o: Operand, j: nat, i: nat)
    requires AsksAbout(p, o, j) && AsksOperand(p, j, i)
    ensures AsksAbout(p, o, i)
  {
    var path :| IsPath(p, path) && path[0] == o.inst && path[|path| - 1] == j;
    assert IsPath(p, path + [i]);
  }

  predicate Judgeable(p: Program, n: Node) {
    Target(p, n).Some? && !p.code[n.inst].inLoop && p.code[n.inst].preds <= 1
  }

  /** Entering the store `n` asks about its pointer and then, if that is safe, its value. */
  ghost predicate StoreAsks(p: Program, n: Node, i: nat) {
    Judgeable(p, n) &&
    var store := p.code[n.inst].kind;
    AsksAbout(p, store.pointer, i) || (Derives(p, store.pointer) && AsksAbout(p, store.stored, i))
  }

  /** A load that passes the guards before its pointer is asked about. */
  predicate PassesGuards(p: Program, i: nat) {
    && i < |p.code| && p.code[i].kind.Load? && !p.code[i].inLoop && p.code[i].preds <= 1
    && p.code[i].kind.loaded.Some? && p.code[i].kind.loaded.value.size <= 64
  }

  /** Entering the nodes of `order` in turn asks about `i`. */
  ghost predicate Asked(p: Program, order: seq<Node>, i: nat)
    decreases |order|, 1
  {
    order != [] &&
    var n := |order| - 1;
    Asked(p, order[..n], i) || StoreAsks(p, order[n], i) || LoadsAsk(p, order[..n], order[n], i)
  }

  /** Entering node `n`, after those of `done`, asks about its loads, and about the pointers of
      those that nobody asked about before. */
  ghost predicate LoadsAsk(p: Program, done: seq<Node>, n: Node, i: nat)
    decreases |done|, 3
  {
    p.LoadAt(i, n) ||
    exists l :: PointerAsks(p, done, n, l, i)
  }

  ghost predicate PointerAsks(p: Program, done: seq<Node>, n: Node, l: nat, i: nat)
    decreases |done|, 2
  {
    p.LoadAt(l, n) && PassesGuards(p, l) && !Asked(p, done, l) && !StoreAsks(p, n, l)
      && AsksAbout(p, p.code[l].kind.pointer, i)
  }

  /** A load with a derivation that is asked about before its own node is entered. */
  ghost predicate TooEarly(p: Program, i: nat, entered: seq<Node>) {
    && Derivable(p, i) && i < |p.code| && p.code[i].kind.Load?
    && !(p.code[i].kind.owner.Some? && p.code[i].kind.owner.value in entered)
  }

  ghost predicate StoreInOrder(p: Program, done: seq<Node>, n: Node) {
    forall i :: StoreAsks(p, n, i) ==> !TooEarly(p, i, done)
  }

  ghost predicate LoadsInOrder(p: Program, done: seq<Node>, n: Node) {
    forall i :: LoadsAsk(p, done, n, i) ==> !TooEarly(p, i, done + [n])
  }

  /** Along `order`, no load with a derivation is asked about before its own node is entered. */
  ghost predicate InOrder(p: Program, order: seq<Node>) {
    forall k :: 0 <= k < |order| ==> StoreInOrder(p, order[..k], order[k]) && LoadsInOrder(p, order[..k], order[k])
  }

  lemma InOrderPush(p: Program, order: seq<Node>, n: Node)
    ensures InOrder(p, order + [n]) <==> InOrder(p, order) && StoreInOrder(p, order, n) && LoadsInOrder(p, order, n)
  {
    hide StoreInOrder, LoadsInOrder;
    var order' := order + [n];
    assert order'[..|order|] == order && order'[|order|] == n;
    assert forall k :: 0 <= k < |order| ==> order'[..k] == order[..k] && order'[k] == order[k];
    if InOrder(p, order') {
      forall k | 0 <= k < |order|
        ensures StoreInOrder(p, order[..k], order[k]) && LoadsInOrder(p, order[..k], order[k])
      {
        assert StoreInOrder(p, order'[..k], order'[k]);
      }
      assert StoreInOrder(p, order'[..|order|], order'[|order|]);
    }
  }

  lemma AskedPush(p: Program, order: seq<Node>, n: Node, i: nat)
    ensures Asked(p, order + [n], i) <==> Asked(p, order, i) || StoreAsks(p, n, i) || LoadsAsk(p, order, n, i)
  {
    hide StoreAsks, LoadsAsk;
    assert (order + [n])[..|order|] == order;
  }

  /** Entering node `k` asks about load `i` too early. */
  ghost predicate AsksTooEarly(p: Program, order: seq<Node>, k: nat, i: nat) {
    k < |order| && (
    || (StoreAsks(p, order[k], i) && TooEarly(p, i, order[..k]))
    || (LoadsAsk(p, order[..k], order[k], i) && TooEarly(p, i, order[..k] + [order[k]])))
  }

  lemma NotInOrder(p: Program, order: seq<Node>, k: nat, i: nat)
    requires AsksTooEarly(p, order, k, i)
    ensures !InOrder(p, order)
  {
    hide StoreAsks, LoadsAsk, TooEarly;
    assert !StoreInOrder(p, order[..k], order[k]) || !LoadsInOrder(p, order[..k], order[k]);
  }

  // ------------------------------------------------------------- a witness

  /** A store, a load of what it wrote, and a load through that of a byte it did not write, whose
      definition therefore is the state on entry. */
  function EarlyProgram(): Program {
    Program([
      Instruction(Store(Constant(0), Constant(7), Some(Access(0, 100, 1))), false, 0, Some(LiveOnEntry)),
      Instruction(Load(Constant(0), Some(Def(0)), Some(Access(0, 100, 1))), false, 0, None),
      Instruction(Load(Result(1), Some(LiveOnEntry), Some(Access(0, 0, 1))), false, 0, None)])
  }

  ghost function EarlyTable(): Table {
    var pointer := ELoad(EConstant(0), [StoredByte(EConstant(0), EConstant(7), 0)]);
    map[1 := pointer, 2 := ELoad(pointer, [EntryByte(Address(0, 0))])]
  }

  ghost function EarlyRun(): seq<Event> {
    var m := imap[Address(0, 100) := 7];
    [Event(0, 0, imap[], m), Event(1, 7, m, m), Event(2, 0, m, m)]
  }

  lemma EarlyStoreRuns()
    ensures EventOk(EarlyProgram(), EmptyEntry(), EarlyRun(), 0)
  {
    var e, run, s := EmptyEntry(), EarlyRun(), Access(0, 100, 1);
    assert s.Byte(0) == Address(0, 100);
    assert ByteOf(7, 0) == 7 by { assert Pow2(0) == 1; }
    assert StoreEffect(s, 7, run[0].before, run[0].after) && Reads(e, run, 0, Constant(7), 7);
    assert Reaches(e, run, 0, LiveOnEntry, run[0].before, 0);
  }

  lemma EarlyLoadsRun()
    ensures EventOk(EarlyProgram(), EmptyEntry(), EarlyRun(), 1) && EventOk(EarlyProgram(), EmptyEntry(), EarlyRun(), 2)
  {
    var e, run, s1, s2 := EmptyEntry(), EarlyRun(), Access(0, 100, 1), Access(0, 0, 1);
    var m := run[1].before;
    assert Reaches(e, run, 1, Def(0), m, 0) && AgreeOn(m, m, s1);
    assert Reaches(e, run, 2, LiveOnEntry, e.memory, 0) && AgreeOn(m, e.memory, s2);
    assert BytesIn(m, s1) == [7] && BytesIn(m, s2) == [0];
    OneByte(7);
    OneByte(0);
  }

  lemma EarlyDerivable()
    ensures Derivable(EarlyProgram(), 1) && Derivable(EarlyProgram(), 2)
  {
    var p, t := EarlyProgram(), EarlyTable();
    var c1, c2, s1, s2 := [LiveOnEntry, Def(0)], [LiveOnEntry], Access(0, 100, 1), Access(0, 0, 1);
    assert p.IsChain(c1) && p.IsChain(c2);
    assert Walk(p, t, c1, s1.Byte(0)) == Some(StoredByte(EConstant(0), EConstant(7), 0));
    assert Walk(p, t, c2, s2.Byte(0)) == Some(EntryByte(Address(0, 0)));
    assert RangeSafe(p, t, c1, s1) && LoadExpr(p, t, Constant(0), c1, s1) == t[1];
    assert RangeSafe(p, t, c2, s2) && LoadExpr(p, t, Result(1), c2, s2) == t[2];
    assert Derived(p, t, 1) && Derived(p, t, 2);
    assert AllDerived(p, t);
  }

  lemma {:induction false} FirstRoot(p: Program, n: nat)
    requires n <= |p.code|
    ensures |p.RootsUpTo(n)| > 0 && p.RootsUpTo(n)[0] == LiveOnEntry
  {
    if n > 0 { FirstRoot(p, n - 1); }
  }

  lemma {:induction false} FirstEntered(p: Program, roots: seq<Node>)
    requires roots != []
    ensures |Trees(p, roots)| > 0 && Trees(p, roots)[0] == roots[0]
  {
    if |roots| > 1 {
      FirstEntered(p, roots[..|roots| - 1]);
    } else {
      assert Trees(p, roots[..0]) == [];
      assert Subtree(p, roots[0], Height(p))[0] == roots[0];
    }
  }

  /** The program runs, and both its loads have derivations, but entering the state on entry asks
      about the pointer of one before the store that the other depends on is entered. */
  lemma EarlyProgramOutOfOrder()
    ensures EarlyProgram().WellFormed() && IsRun(EarlyProgram(), EmptyEntry(), EarlyRun())
    ensures Derivable(EarlyProgram(), 1) && Derivable(EarlyProgram(), 2)
    ensures AsksTooEarly(EarlyProgram(), Preorder(EarlyProgram()), 0, 1)
  {
    hide Derivable, EarlyProgram, EarlyRun, IsRun, Program.WellFormed, StoreAsks, LoadsAsk, TooEarly, Trees;
    EarlyRuns();
    EarlyDerivable();
    EarlyAsks();
    var p := EarlyProgram();
    FirstRoot(p, |p.code|);
    FirstEntered(p, p.RootsUpTo(|p.code|));
    var order := Preorder(p);
    assert order[..0] == [] && order[..0] + [order[0]] == [LiveOnEntry];
  }

  lemma EarlyRuns()
    ensures EarlyProgram().WellFormed() && IsRun(EarlyProgram(), EmptyEntry(), EarlyRun())
  {
    EarlyStoreRuns();
    EarlyLoadsRun();
    hide EventOk;
  }

  lemma EarlyAsks()
    ensures LoadsAsk(EarlyProgram(), [], LiveOnEntry, 1)
    ensures Derivable(EarlyProgram(), 1) ==> TooEarly(EarlyProgram(), 1, [LiveOnEntry])
  {
    hide Derivable, AsksAbout;
    AsksItself(EarlyProgram(), 1);
    assert PointerAsks(EarlyProgram(), [], LiveOnEntry, 2, 1);
  }
}
