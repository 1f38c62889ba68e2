/** The byte-safety analysis of src/passes/constant_propagation_memory.cpp: one depth-first
    walk of the memory-definition forest that carries a mutable byte map with generations,
    a default bit, an undo log and a memo table of judged values. */
module SafetyAnalysis {
  import opened Bits
  import opened Wrappers
  import opened SafetyModel
  import opened SafetyMemo
  import opened SafetyOrder
  import opened SafetyExactness

  datatype ByteState = ByteState(generation: Node, safe: bool)

  datatype Undo = Undo(address: Address, existed: bool, oldState: ByteState)

  type ByteMap = map<Address, ByteState>

  datatype Frame = Frame(access: Node, nextChild: nat, checkpoint: nat,
                         previousGeneration: Node, previousDefault: bool, entered: bool)

  /** The part of the analysis state that a pop restores. */
  datatype Layer = Layer(bytes: ByteMap, generation: Node, byDefault: bool) {
    /** An entry counts only in the generation that wrote it. */
    predicate Effective(a: Address) {
      if a in bytes && bytes[a].generation == generation then bytes[a].safe else byDefault
    }
  }

  // ------------------------------------------------------------- undo log

  function UndoOne(m: ByteMap, u: Undo): ByteMap {
    if u.existed then m[u.address := u.oldState] else m - {u.address}
  }

  /** The map after undoing every record past `checkpoint`. */
  function Undone(m: ByteMap, log: seq<Undo>, checkpoint: nat): ByteMap
    decreases |log|
  {
    if |log| <= checkpoint then m
    else Undone(UndoOne(m, log[|log| - 1]), log[..|log| - 1], checkpoint)
  }

  lemma {:induction false} UndoneInStages(m: ByteMap, log: seq<Undo>, late: nat, early: nat)
    requires early <= late <= |log|
    ensures Undone(m, log, early) == Undone(Undone(m, log, late), log[..late], early)
    decreases |log|
  {
    if |log| == late {
      assert log[..late] == log;
    } else {
      var shorter := log[..|log| - 1];
      UndoneInStages(UndoOne(m, log[|log| - 1]), shorter, late, early);
      assert shorter[..late] == log[..late];
    }
  }

  /** A layer describes the node a chain ends in: effective safety is the backward walk, and
      every entry belongs to a generation opened on the chain. */
  ghost predicate LayerOk(p: Program, t: Table, chain: seq<Node>, l: Layer)
    requires |chain| > 0
  {
    && (forall a :: l.Effective(a) == Walk(p, t, chain, a).Some?)
    && l.generation in chain
    && (forall a :: a in l.bytes ==> l.bytes[a].generation in chain)
  }

  /** The state in which a value may be judged at the last node of `chain`. */
  ghost predicate JudgingState(p: Program, chain: seq<Node>, l: Layer, m: Memo, t: Table, e: set<nat>) {
    p.WellFormed() && p.IsChain(chain) && ChainSettled(p, m, chain) && LayerOk(p, t, chain, l) && MemoOk(p, m, t, e)
  }

  lemma LayerStable(p: Program, m: Memo, t: Table, m': Memo, t': Table, chain: seq<Node>, l: Layer)
    requires TableOf(m, t) && TableOf(m', t') && Extends(m, m') && Includes(t, t')
    requires |chain| > 0 && ChainSettled(p, m, chain) && LayerOk(p, t, chain, l)
    ensures ChainSettled(p, m', chain) && LayerOk(p, t', chain, l)
  {
    forall a: Address ensures Walk(p, t, chain, a) == Walk(p, t', chain, a) {
      WalkStable(p, m, t, m', t', chain, a);
    }
    WalkStable(p, m, t, m', t', chain, Address(0, 0));
  }

  lemma JudgingStable(p: Program, chain: seq<Node>, l: Layer, m: Memo, t: Table, e: set<nat>, m': Memo, t': Table,
                      e': set<nat>)
    requires JudgingState(p, chain, l, m, t, e) && MemoOk(p, m', t', e')
    requires Extends(m, m') && Includes(t, t')
    ensures JudgingState(p, chain, l, m', t', e')
  {
    LayerStable(p, m, t, m', t', chain, l);
  }

  /** An unknown definition opens a generation in which nothing is safe. */
  lemma UnknownLayer(p: Program, m: Memo, t: Table, e: set<nat>, chain: seq<Node>, l: Layer, d: Node)
    requires JudgingState(p, chain, l, m, t, e)
    requires d.Def? && p.DefOf(d.inst, chain[|chain| - 1]) && d !in chain && Target(p, d).None?
    ensures JudgingState(p, chain + [d], Layer(l.bytes, d, false), m, t, e)
  {
  }

  /** A concrete store decides its own bytes and leaves the others to the chain above. */
  lemma StoreLayer(p: Program, m: Memo, t: Table, e: set<nat>, chain: seq<Node>, l: Layer, d: Node, l': Layer)
    requires JudgingState(p, chain, l, m, t, e)
    requires d.Def? && p.DefOf(d.inst, chain[|chain| - 1]) && Target(p, d).Some? && StoreSettled(p, m, d)
    requires l'.generation == l.generation
    requires forall a :: l'.Effective(a) == if Target(p, d).value.Marks(a) then StoreSafe(p, t, d.inst)
      else l.Effective(a)
    requires forall a :: a in l'.bytes ==>
      l'.bytes[a].generation == l.generation || (a in l.bytes && l'.bytes[a] == l.bytes[a])
    ensures JudgingState(p, chain + [d], l', m, t, e)
  {
    var chain' := chain + [d];
    assert chain'[..|chain|] == chain;
    forall a ensures l'.Effective(a) == Walk(p, t, chain', a).Some? {
    }
  }

  /** Marking a value as being visited. */
  lemma StartVisit(p: Program, chain: seq<Node>, l: Layer, m: Memo, t: Table, e: set<nat>, a: Agenda, i: nat)
    requires JudgingState(p, chain, l, m, t, e) && Account(p, m, t, e, a) && i !in m && i < |p.code|
    ensures JudgingState(p, chain, l, m[i := Visiting], t, e) && Account(p, m[i := Visiting], t, e, a)
    ensures i !in e && Extends(m, m[i := Visiting]) && Includes(t, t)
  {
    JudgingMemo(p, chain, l, m, t, e);
    NotEarly(p, m, t, e, i);
    hide MemoOk, JudgingState, Account;
    MemoVisit(p, m, t, e, i);
    AccountVisit(p, m, t, e, a, i);
    JudgingStable(p, chain, l, m, t, e, m[i := Visiting], t, e);
  }

  /** Recording the verdict on a value that was being visited. */
  lemma RecordVerdict(p: Program, chain: seq<Node>, l: Layer, m0: Memo, t0: Table, e0: set<nat>,
                      m: Memo, t: Table, e: set<nat>, a: Agenda, i: nat, safe: bool, x: Expr)
    requires JudgingState(p, chain, l, m0, t0, e0) && MemoOk(p, m, t, e) && Account(p, m, t, e, a)
    requires i !in m0 && Extends(m0[i := Visiting], m) && Includes(t0, t) && e0 <= e
    requires safe ==> (forall k :: k in m && k !in m0 && k != i ==> m[k] == Safe)
    requires safe ==> Derivation(p, t, i, x) && OwnedHere(p, a, i) && i !in e
    requires !safe ==> Refused(p, m, t, e, i)
    ensures var m', t' := m[i := if safe then Safe else Unsafe], if safe then t[i := x] else t;
      && JudgingState(p, chain, l, m', t', e) && Account(p, m', t', e, a)
      && Extends(m0, m') && Includes(t0, t') && (safe <==> i in t')
  {
    JudgingMemo(p, chain, l, m0, t0, e0);
    hide JudgingState, Account, Refused, Derivation, OwnedHere;
    var m', t' := m[i := if safe then Safe else Unsafe], if safe then t[i := x] else t;
    ExtendsRecord(m0, m, i, Visiting, if safe then Safe else Unsafe);
    if safe {
      MemoAccept(p, m0, t0, e0, m, t, e, i, x);
      AccountAccept(p, m, t, e, a, i, x);
    } else {
      MemoRefuse(p, m, t, e, i);
      AccountRefuse(p, m, t, e, a, i);
    }
    JudgingStable(p, chain, l, m0, t0, e0, m', t', e);
  }

  // ------------------------------------------------- the explicit stack

  ghost function Accesses(stack: seq<Frame>): seq<Node> {
    seq(|stack|, i requires 0 <= i < |stack| => stack[i].access)
  }

  /** Popping back to frame `i` gives exactly the layer saved when frame `i + 1` was pushed,
      and that layer still describes node `i`. */
  ghost predicate SavedOk(p: Program, t: Table, stack: seq<Frame>, below: seq<Layer>, bytes: ByteMap, log: seq<Undo>,
                          i: nat)
    requires |stack| == |below| + 1 && i < |below|
  {
    && LayerOk(p, t, Accesses(stack)[..i + 1], below[i])
    && below[i] == Layer(Undone(bytes, log, stack[i + 1].checkpoint),
                         stack[i + 1].previousGeneration, stack[i + 1].previousDefault)
  }

  ghost predicate StackOk(p: Program, m: Memo, t: Table, e: set<nat>, stack: seq<Frame>, below: seq<Layer>,
                          l: Layer, log: seq<Undo>)
  {
    && |stack| == |below| + 1
    && JudgingState(p, Accesses(stack), l, m, t, e)
    && (forall i :: 0 <= i < |below| ==> SavedOk(p, t, stack, below, l.bytes, log, i))
    && (forall i, j :: 0 <= i <= j < |stack| ==> stack[i].checkpoint <= stack[j].checkpoint <= |log|)
  }

  ghost predicate SameFrames(s: seq<Frame>, s': seq<Frame>) {
    |s| == |s'| && forall i :: 0 <= i < |s| ==>
      s'[i] == s[i].(nextChild := s'[i].nextChild, entered := s'[i].entered)
  }

  lemma RootStack(p: Program, m: Memo, t: Table, e: set<nat>, stack: seq<Frame>, root: Node)
    requires p.WellFormed() && root.Root() && MemoOk(p, m, t, e)
    requires stack == [Frame(root, 0, 0, root, root.LiveOnEntry?, false)]
    ensures StackOk(p, m, t, e, stack, [], Layer(map[], root, root.LiveOnEntry?), [])
    ensures VisitOk(p, m, root, stack, {root})
  {
    assert Accesses(stack) == [root];
  }

  /** Judging values, and bookkeeping in the frames, leave every saved layer right. */
  lemma StackGrow(p: Program, m: Memo, t: Table, e: set<nat>, stack: seq<Frame>, below: seq<Layer>, l: Layer,
                  log: seq<Undo>, m': Memo, t': Table, e': set<nat>, stack': seq<Frame>)
    requires StackOk(p, m, t, e, stack, below, l, log) && SameFrames(stack, stack')
    requires MemoOk(p, m', t', e') && Extends(m, m') && Includes(t, t')
    ensures Accesses(stack') == Accesses(stack)
    ensures StackOk(p, m', t', e', stack', below, l, log)
  {
    var chain := Accesses(stack);
    assert Accesses(stack') == chain;
    JudgingStable(p, chain, l, m, t, e, m', t', e');
    forall i | 0 <= i < |below| ensures SavedOk(p, t', stack', below, l.bytes, log, i) {
      assert SavedOk(p, t, stack, below, l.bytes, log, i);
      LayerStable(p, m, t, m', t', chain[..i + 1], below[i]);
    }
  }

  lemma StackPush(p: Program, m: Memo, t: Table, e: set<nat>, stack: seq<Frame>, below: seq<Layer>, l: Layer,
                  log: seq<Undo>, d: Node, l': Layer, log': seq<Undo>)
    requires StackOk(p, m, t, e, stack, below, l, log)
    requires JudgingState(p, Accesses(stack) + [d], l', m, t, e)
    requires |log| <= |log'| && log'[..|log|] == log && Undone(l'.bytes, log', |log|) == l.bytes
    ensures StackOk(p, m, t, e, stack + [Frame(d, 0, |log|, l.generation, l.byDefault, false)], below + [l], l', log')
  {
    hide JudgingState, LayerOk, SavedOk, Undone, MemoOk;
    var stack' := stack + [Frame(d, 0, |log|, l.generation, l.byDefault, false)];
    var below' := below + [l];
    AccessesPush(stack, stack'[|stack|]);
    JudgingLayer(p, Accesses(stack), l, m, t, e);
    forall i | 0 <= i < |below'| ensures SavedOk(p, t, stack', below', l'.bytes, log', i) {
      if i < |below| { assert SavedOk(p, t, stack, below, l.bytes, log, i); }
      SavedPush(p, t, stack, below, l, log, stack'[|stack|], l', log', i);
    }
  }

  lemma SavedPush(p: Program, t: Table, stack: seq<Frame>, below: seq<Layer>, l: Layer, log: seq<Undo>,
                  f: Frame, l': Layer, log': seq<Undo>, i: nat)
    requires |stack| == |below| + 1 && i < |stack| && LayerOk(p, t, Accesses(stack), l)
    requires i < |below| ==> SavedOk(p, t, stack, below, l.bytes, log, i) && stack[i + 1].checkpoint <= |log|
    requires f == Frame(f.access, 0, |log|, l.generation, l.byDefault, false)
    requires |log| <= |log'| && log'[..|log|] == log && Undone(l'.bytes, log', |log|) == l.bytes
    ensures SavedOk(p, t, stack + [f], below + [l], l'.bytes, log', i)
  {
    hide LayerOk;
    AccessesPush(stack, f);
    assert Accesses(stack + [f])[..i + 1] == Accesses(stack)[..i + 1];
    if i < |below| {
      UndoneInStages(l'.bytes, log', |log|, stack[i + 1].checkpoint);
    } else {
      assert Accesses(stack)[..i + 1] == Accesses(stack);
    }
  }

  lemma JudgingMemo(p: Program, chain: seq<Node>, l: Layer, m: Memo, t: Table, e: set<nat>)
    requires JudgingState(p, chain, l, m, t, e)
    ensures MemoOk(p, m, t, e)
  {
  }

  lemma JudgingLayer(p: Program, chain: seq<Node>, l: Layer, m: Memo, t: Table, e: set<nat>)
    requires JudgingState(p, chain, l, m, t, e)
    ensures |chain| > 0 && LayerOk(p, t, chain, l)
  {
  }

  lemma JudgingPrefix(p: Program, chain: seq<Node>, l: Layer, m: Memo, t: Table, e: set<nat>, n: nat, l': Layer)
    requires JudgingState(p, chain, l, m, t, e) && 0 < n <= |chain| && LayerOk(p, t, chain[..n], l')
    ensures JudgingState(p, chain[..n], l', m, t, e)
  {
  }

  /** A pop restores map, generation and default exactly. */
  lemma StackPop(p: Program, m: Memo, t: Table, e: set<nat>, stack: seq<Frame>, below: seq<Layer>, l: Layer,
                 log: seq<Undo>)
    requires StackOk(p, m, t, e, stack, below, l, log) && |stack| > 1
    ensures var top := |stack| - 1; var f := stack[top];
      && f.checkpoint <= |log|
      && Layer(Undone(l.bytes, log, f.checkpoint), f.previousGeneration, f.previousDefault) == below[top - 1]
      && StackOk(p, m, t, e, stack[..top], below[..top - 1], below[top - 1], log[..f.checkpoint])
  {
    var top := |stack| - 1;
    hide JudgingState, LayerOk;
    var f, stack', below', l' := stack[top], stack[..top], below[..top - 1], below[top - 1];
    assert SavedOk(p, t, stack, below, l.bytes, log, top - 1);
    JudgingPrefix(p, Accesses(stack), l, m, t, e, top, l');
    assert Accesses(stack') == Accesses(stack)[..top];
    forall i | 0 <= i < |below'| ensures SavedOk(p, t, stack', below', l'.bytes, log[..f.checkpoint], i) {
      assert SavedOk(p, t, stack, below, l.bytes, log, i);
      assert Accesses(stack')[..i + 1] == Accesses(stack)[..i + 1];
      UndoneInStages(l.bytes, log, f.checkpoint, stack[i + 1].checkpoint);
    }
  }

  // ---------------------------------------------------- nodes visited

  ghost function AllDefs(p: Program): set<Node> {
    set i | 0 <= i < |p.code| :: Def(i)
  }

  ghost predicate LoadsJudged(p: Program, m: Memo, n: Node) {
    forall i :: p.LoadAt(i, n) ==> i in m
  }

  /** Every visited node but the root is a definition whose parent was visited. */
  ghost predicate Connected(p: Program, root: Node, visited: set<Node>) {
    root in visited && root.Root() && forall n :: n in visited && n != root ==>
      n in AllDefs(p) && p.code[n.inst].defines.Some? && p.code[n.inst].defines.value in visited
  }

  /** Each frame has pushed exactly the children before its counter. */
  ghost predicate FramesOk(p: Program, m: Memo, stack: seq<Frame>, visited: set<Node>) {
    && (forall i :: 0 <= i < |stack| ==> stack[i].access in visited)
    && (forall i, j :: 0 <= i < j < |stack| ==> stack[i].access != stack[j].access)
    && (forall i :: 0 <= i < |stack| ==> PushedBefore(p, stack[i].access, stack[i].nextChild, visited))
    && (forall i :: 0 <= i < |stack| && stack[i].entered ==> LoadsJudged(p, m, stack[i].access))
  }

  ghost predicate PushedBefore(p: Program, n: Node, next: nat, visited: set<Node>) {
    forall k :: 0 <= k < |p.Children(n)| ==> (p.Children(n)[k] in visited <==> k < next)
  }

  /** A visited node that is no longer on the stack is done with. */
  ghost predicate LeftOk(p: Program, m: Memo, stack: seq<Frame>, visited: set<Node>) {
    forall n :: n in visited && n !in Accesses(stack) ==>
      LoadsJudged(p, m, n) && forall k :: 0 <= k < |p.Children(n)| ==> p.Children(n)[k] in visited
  }

  ghost predicate VisitOk(p: Program, m: Memo, root: Node, stack: seq<Frame>, visited: set<Node>) {
    Connected(p, root, visited) && FramesOk(p, m, stack, visited) && LeftOk(p, m, stack, visited)
  }

  lemma AccessesPush(stack: seq<Frame>, f: Frame)
    ensures Accesses(stack + [f]) == Accesses(stack) + [f.access]
  {
  }

  lemma VisitEnter(p: Program, m: Memo, m': Memo, root: Node, stack: seq<Frame>, visited: set<Node>)
    requires stack != [] && VisitOk(p, m, root, stack, visited) && Extends(m, m')
    requires LoadsJudged(p, m', stack[|stack| - 1].access)
    ensures VisitOk(p, m', root, stack[|stack| - 1 := stack[|stack| - 1].(entered := true)], visited)
  {
    var stack' := stack[|stack| - 1 := stack[|stack| - 1].(entered := true)];
    assert Accesses(stack') == Accesses(stack);
  }

  /** The next child has not been visited: a definition has one parent. */
  lemma VisitFresh(p: Program, m: Memo, root: Node, stack: seq<Frame>, visited: set<Node>)
    requires stack != [] && VisitOk(p, m, root, stack, visited)
    requires stack[|stack| - 1].nextChild < |p.Children(stack[|stack| - 1].access)|
    ensures var d := p.Children(stack[|stack| - 1].access)[stack[|stack| - 1].nextChild];
      d !in visited && d !in Accesses(stack) && d in AllDefs(p)
  {
  }

  lemma VisitPush(p: Program, m: Memo, m': Memo, root: Node, stack: seq<Frame>, visited: set<Node>, f: Frame)
    requires stack != [] && VisitOk(p, m, root, stack, visited) && Extends(m, m')
    requires stack[|stack| - 1].entered && stack[|stack| - 1].nextChild < |p.Children(stack[|stack| - 1].access)|
    requires f.access == p.Children(stack[|stack| - 1].access)[stack[|stack| - 1].nextChild] && f.nextChild == 0
      && !f.entered
    ensures VisitOk(p, m', root, Bumped(stack) + [f], visited + {f.access})
  {
    var top, visited' := |stack| - 1, visited + {f.access};
    VisitFresh(p, m, root, stack, visited);
    AccessesPush(Bumped(stack), f);
    assert Accesses(Bumped(stack)) == Accesses(stack);
    ConnectedPush(p, root, visited, stack[top].access, f.access);
    forall i | 0 <= i < |stack| ensures PushedBefore(p, stack[i].access, Bumped(stack)[i].nextChild, visited') {
      PushedAlso(p, stack[i].access, stack[i].nextChild, visited, stack[top].access, stack[top].nextChild);
    }
    FramesPush(p, m, m', stack, visited, f);
  }

  lemma PushedAlso(p: Program, n: Node, next: nat, visited: set<Node>, parent: Node, k: nat)
    requires PushedBefore(p, n, next, visited) && k < |p.Children(parent)| && (n == parent ==> k == next)
    ensures PushedBefore(p, n, if n == parent then next + 1 else next, visited + {p.Children(parent)[k]})
  {
  }

  lemma FramesPush(p: Program, m: Memo, m': Memo, stack: seq<Frame>, visited: set<Node>, f: Frame)
    requires stack != [] && FramesOk(p, m, stack, visited) && Extends(m, m') && stack[|stack| - 1].entered && !f.entered
    requires f.access !in visited && PushedBefore(p, f.access, f.nextChild, visited + {f.access})
    requires forall i :: 0 <= i < |stack| ==>
      PushedBefore(p, stack[i].access, Bumped(stack)[i].nextChild, visited + {f.access})
    ensures FramesOk(p, m', Bumped(stack) + [f], visited + {f.access})
  {
    hide PushedBefore;
  }

  /** A node visited for the first time has no visited child. */
  lemma ConnectedPush(p: Program, root: Node, visited: set<Node>, parent: Node, d: Node)
    requires Connected(p, root, visited) && parent in visited && d !in visited && d in p.Children(parent)
    ensures Connected(p, root, visited + {d}) && PushedBefore(p, d, 0, visited + {d})
  {
  }

  function Bumped(stack: seq<Frame>): seq<Frame>
    requires stack != []
  {
    stack[|stack| - 1 := stack[|stack| - 1].(nextChild := stack[|stack| - 1].nextChild + 1)]
  }

  lemma VisitPop(p: Program, m: Memo, root: Node, stack: seq<Frame>, visited: set<Node>)
    requires stack != [] && VisitOk(p, m, root, stack, visited)
    requires stack[|stack| - 1].entered && stack[|stack| - 1].nextChild >= |p.Children(stack[|stack| - 1].access)|
    ensures VisitOk(p, m, root, stack[..|stack| - 1], visited)
  {
    hide Connected, PushedBefore, LoadsJudged;
    var stack', top := stack[..|stack| - 1], stack[|stack| - 1];
    assert stack == stack' + [top];
    AccessesPush(stack', top);
    assert LoadsJudged(p, m, top.access) && PushedBefore(p, top.access, top.nextChild, visited);
    assert FramesOk(p, m, stack', visited);
    hide FramesOk;
    forall n | n in visited && n !in Accesses(stack')
      ensures LoadsJudged(p, m, n) && forall k :: 0 <= k < |p.Children(n)| ==> p.Children(n)[k] in visited
    {
      if n == top.access { AllPushed(p, n, top.nextChild, visited); }
    }
  }

  lemma AllPushed(p: Program, n: Node, next: nat, visited: set<Node>)
    requires PushedBefore(p, n, next, visited) && next >= |p.Children(n)|
    ensures forall k :: 0 <= k < |p.Children(n)| ==> p.Children(n)[k] in visited
  {
  }

  /** When the stack is empty, every node below the root has been visited. */
  lemma {:induction false} AllVisited(p: Program, m: Memo, root: Node, visited: set<Node>, chain: seq<Node>)
    requires VisitOk(p, m, root, [], visited) && p.IsChain(chain) && chain[0] == root
    ensures chain[|chain| - 1] in visited && LoadsJudged(p, m, chain[|chain| - 1])
    decreases |chain|
  {
    var n := |chain| - 1;
    if n > 0 {
      AllVisited(p, m, root, visited, chain[..n]);
      assert chain[n] in p.Children(chain[n - 1]);
    }
  }

  // --------------------------------------------------- the order of entering

  /** What is left to enter, given the frames on the stack. */
  ghost function Rest(p: Program, stack: seq<Frame>): seq<Node>
    requires |stack| <= Height(p) && forall i :: 0 <= i < |stack| ==>
      stack[i].nextChild <= |p.Children(stack[i].access)|
  {
    if stack == [] then []
    else
      var n := |stack| - 1;
      (if stack[n].entered then [] else [stack[n].access])
      + Forest(p, p.Children(stack[n].access)[stack[n].nextChild..], Height(p) - |stack|)
      + Rest(p, stack[..n])
  }

  /** The nodes entered and those still to be entered make up the walk of the tree, and the
      agenda is where the stack is. */
  ghost predicate TrailOk(p: Program, stack: seq<Frame>, a: Agenda, walk: seq<Node>) {
    && |stack| <= Height(p) && (forall i :: 0 <= i < |stack| ==> stack[i].nextChild <= |p.Children(stack[i].access)|)
    && a.done + Rest(p, stack) == walk
    && (forall i :: 0 <= i < |stack| - 1 ==> stack[i].entered)
    && (forall i :: 0 <= i < |stack| && stack[i].entered ==> stack[i].access in a.done)
    && a.now == if stack != [] && !stack[|stack| - 1].entered then Pushed(stack[|stack| - 1].access) else Between
  }

  lemma TrailRoot(p: Program, f: Frame, done: seq<Node>)
    requires f.nextChild == 0 && !f.entered
    ensures TrailOk(p, [f], Agenda(done, Pushed(f.access)), done + Subtree(p, f.access, Height(p)))
  {
    assert p.Children(f.access)[0..] == p.Children(f.access);
    assert [f][..0] == [];
    assert Rest(p, [f][..0]) == [];
    assert Rest(p, [f]) == Subtree(p, f.access, Height(p));
  }

  lemma TrailEnter(p: Program, stack: seq<Frame>, a: Agenda, walk: seq<Node>)
    requires stack != [] && !stack[|stack| - 1].entered && TrailOk(p, stack, a, walk)
    ensures TrailOk(p, stack[|stack| - 1 := stack[|stack| - 1].(entered := true)],
      Agenda(a.done + [a.now.node], Between), walk)
  {
    hide Forest;
    var n := |stack| - 1;
    var stack' := stack[n := stack[n].(entered := true)];
    assert stack'[..n] == stack[..n];
    assert Rest(p, stack) == [a.now.node] + Rest(p, stack');
  }

  lemma TrailPush(p: Program, stack: seq<Frame>, a: Agenda, walk: seq<Node>, f: Frame)
    requires stack != [] && TrailOk(p, stack, a, walk) && stack[|stack| - 1].entered && |stack| < Height(p)
    requires stack[|stack| - 1].nextChild < |p.Children(stack[|stack| - 1].access)| && f.nextChild == 0 && !f.entered
    requires f.access == p.Children(stack[|stack| - 1].access)[stack[|stack| - 1].nextChild]
    ensures TrailOk(p, Bumped(stack) + [f], Agenda(a.done, Pushed(f.access)), walk)
  {
    hide Rest, Forest;
    var bumped := Bumped(stack);
    RestPush(p, stack, f);
    assert (bumped + [f])[..|stack|] == bumped;
  }

  /** The next subtree is its first node and then the forest below it. */
  lemma RestPush(p: Program, stack: seq<Frame>, f: Frame)
    requires stack != [] && |stack| < Height(p) && stack[|stack| - 1].entered && f.nextChild == 0 && !f.entered
    requires forall i :: 0 <= i < |stack| ==> stack[i].nextChild <= |p.Children(stack[i].access)|
    requires stack[|stack| - 1].nextChild < |p.Children(stack[|stack| - 1].access)|
    requires f.access == p.Children(stack[|stack| - 1].access)[stack[|stack| - 1].nextChild]
    ensures Rest(p, Bumped(stack) + [f]) == Rest(p, stack)
  {
    hide Rest, Forest, Program.ChildrenUpTo, Program.Children;
    var n := |stack| - 1;
    var bumped, cs, k, depth := Bumped(stack), p.Children(stack[n].access), stack[n].nextChild, Height(p) - |stack|;
    ForestSplit(p, cs, k, depth);
    RestTop(p, stack);
    RestTop(p, bumped);
    assert bumped[..n] == stack[..n];
    RestTop(p, bumped + [f]);
    assert (bumped + [f])[..|stack|] == bumped;
    assert p.Children(f.access)[0..] == p.Children(f.access);
  }

  lemma ForestSplit(p: Program, cs: seq<Node>, k: nat, depth: nat)
    requires k < |cs| && depth > 0
    ensures Forest(p, cs[k..], depth)
      == [cs[k]] + Forest(p, p.Children(cs[k]), depth - 1) + Forest(p, cs[k + 1..], depth)
  {
    assert cs[k..][0] == cs[k] && cs[k..][1..] == cs[k + 1..];
  }

  lemma RestTop(p: Program, stack: seq<Frame>)
    requires stack != [] && |stack| <= Height(p)
    requires forall i :: 0 <= i < |stack| ==> stack[i].nextChild <= |p.Children(stack[i].access)|
    ensures var n := |stack| - 1;
      Rest(p, stack) == (if stack[n].entered then [] else [stack[n].access])
        + Forest(p, p.Children(stack[n].access)[stack[n].nextChild..], Height(p) - |stack|) + Rest(p, stack[..n])
  {
    hide Forest;
  }

  lemma TrailPop(p: Program, stack: seq<Frame>, a: Agenda, walk: seq<Node>)
    requires stack != [] && TrailOk(p, stack, a, walk) && stack[|stack| - 1].entered
    requires stack[|stack| - 1].nextChild >= |p.Children(stack[|stack| - 1].access)|
    ensures TrailOk(p, stack[..|stack| - 1], a, walk)
  {
    var n := |stack| - 1;
    assert p.Children(stack[n].access)[stack[n].nextChild..] == [];
    assert Rest(p, stack) == Rest(p, stack[..n]);
  }

  /** The stack never holds more than the root and every definition once. */
  lemma StackHeight(p: Program, m: Memo, root: Node, stack: seq<Frame>, visited: set<Node>)
    requires VisitOk(p, m, root, stack, visited)
    ensures |stack| < Height(p)
  {
    var all := AllDefs(p) + {root};
    var nodes := Accesses(stack);
    forall i | 0 <= i < |stack| ensures nodes[i] in all {
    }
    DistinctBound(nodes, all);
    DefsCount(p, |p.code|);
  }

  lemma {:induction false} DistinctBound(nodes: seq<Node>, all: set<Node>)
    requires (forall i :: 0 <= i < |nodes| ==> nodes[i] in all) && forall i, j :: 0 <= i < j < |nodes| ==>
      nodes[i] != nodes[j]
    ensures |nodes| <= |all|
  {
    if nodes != [] {
      var n := |nodes| - 1;
      DistinctBound(nodes[..n], all - {nodes[n]});
    }
  }

  lemma {:induction false} DefsCount(p: Program, n: nat)
    requires n <= |p.code|
    ensures |set i | 0 <= i < n :: Def(i)| <= n
  {
    if n > 0 {
      DefsCount(p, n - 1);
      assert (set i | 0 <= i < n :: Def(i)) == (set i | 0 <= i < n - 1 :: Def(i)) + {Def(n - 1)};
    }
  }

  lemma NothingLeft(p: Program, a: Agenda, walk: seq<Node>)
    requires TrailOk(p, [], a, walk)
    ensures a == Agenda(walk, Between)
  {
    assert a.done + [] == a.done;
  }

  lemma TreesPush(p: Program, roots: seq<Node>, root: Node)
    ensures Trees(p, roots + [root]) == Trees(p, roots) + Subtree(p, root, Height(p))
  {
    assert (roots + [root])[..|roots|] == roots;
  }

  lemma MemoTable(p: Program, m: Memo, t: Table, e: set<nat>)
    requires MemoOk(p, m, t, e)
    ensures TableOf(m, t) && AllDerived(p, t)
  {
  }

  ghost predicate JudgedBelow(p: Program, m: Memo, root: Node) {
    forall chain :: p.IsChain(chain) && chain[0] == root ==> LoadsJudged(p, m, chain[|chain| - 1])
  }

  lemma JudgedBelowStable(p: Program, m: Memo, m': Memo, root: Node)
    requires JudgedBelow(p, m, root) && Extends(m, m')
    ensures JudgedBelow(p, m', root)
  {
    forall chain | p.IsChain(chain) && chain[0] == root ensures LoadsJudged(p, m', chain[|chain| - 1]) {
      assert LoadsJudged(p, m, chain[|chain| - 1]);
    }
  }

  lemma NothingJudged(p: Program)
    ensures MemoOk(p, map[], map[], {}) && Account(p, map[], map[], {}, Agenda([], Between))
  {
  }

  /** Every load that some chain leads to has a verdict. */
  ghost predicate AllLoadsJudged(p: Program, m: Memo) {
    forall chain, i :: p.IsChain(chain) && p.LoadAt(i, chain[|chain| - 1]) ==> i in m
  }

  lemma LoadsOfAllChains(p: Program, m: Memo)
    requires forall r :: r in p.RootsUpTo(|p.code|) ==> JudgedBelow(p, m, r)
    ensures AllLoadsJudged(p, m)
  {
    forall chain, i | p.IsChain(chain) && p.LoadAt(i, chain[|chain| - 1]) ensures i in m {
      RootListed(p, chain, i);
      assert LoadsJudged(p, m, chain[|chain| - 1]);
    }
  }

  /** The root of every chain that ends in a load's owner is one of the listed roots. */
  lemma RootListed(p: Program, chain: seq<Node>, i: nat)
    requires p.IsChain(chain) && p.LoadAt(i, chain[|chain| - 1])
    ensures chain[0] in p.RootsUpTo(|p.code|)
  {
    if |chain| > 1 {
      assert p.DefOf(chain[1].inst, chain[0]);
    }
  }

  class Analysis {
    const p: Program
    var byteSafety: ByteMap
    var undoLog: seq<Undo>
    var valueSafety: Memo
    var activeAccess: Node
    var activeGeneration: Node
    var defaultSafety: bool
    ghost var table: Table          // the expression of every value judged safe
    ghost var early: set<nat>       // loads judged while another access was active
    ghost var agenda: Agenda        // which nodes have been entered, and what is being judged

    constructor (program: Program)
      ensures p == program && valueSafety == map[] && table == map[] && early == {} && agenda == Agenda([], Between)
    {
      p := program;
      byteSafety, undoLog, valueSafety := map[], [], map[];
      activeAccess, activeGeneration, defaultSafety := LiveOnEntry, LiveOnEntry, false;
      table, early, agenda := map[], {}, Agenda([], Between);
    }

    ghost function Current(): Layer
      reads this
    {
      Layer(byteSafety, activeGeneration, defaultSafety)
    }

    ghost function Unjudged(): set<nat>
      reads this
    {
      set i | 0 <= i < |p.code| && i !in valueSafety
    }

    ghost predicate Ready(chain: seq<Node>)
      reads this
    {
      && |chain| > 0 && activeAccess == chain[|chain| - 1]
      && JudgingState(p, chain, Current(), valueSafety, table, early)
      && Account(p, valueSafety, table, early, agenda) && Timely(agenda, activeAccess)
    }

    /** No judgement is under way. */
    ghost predicate Quiet()
      reads `valueSafety
    {
      Idle(valueSafety)
    }

    method RangeIsSafe(access: Access) returns (safe: bool)
      ensures safe <==> forall i: nat :: i < access.size ==> Current().Effective(access.Byte(i))
    {
      for i := 0 to access.size
        invariant forall k: nat :: k < i ==> Current().Effective(access.Byte(k))
      {
        var a := access.Byte(i);
        var byte := if a in byteSafety && byteSafety[a].generation == activeGeneration
                    then byteSafety[a].safe else defaultSafety;
        if !byte {
          assert !Current().Effective(access.Byte(i));
          return false;
        }
      }
      return true;
    }

    /** Changes the effective safety of one byte, and logs how to undo it.  The erase happens
        only where the map holds an entry of the active generation. */
    method SetByteSafety(a: Address, safe: bool)
      modifies `byteSafety, `undoLog
      ensures forall b :: Current().Effective(b) == if b == a then safe else old(Current()).Effective(b)
      ensures |old(undoLog)| <= |undoLog| && undoLog[..|old(undoLog)|] == old(undoLog)
      ensures Undone(byteSafety, undoLog, |old(undoLog)|) == old(byteSafety)
      ensures forall b :: b in byteSafety ==>
        byteSafety[b].generation == activeGeneration || (b in old(byteSafety) && byteSafety[b] == old(byteSafety)[b])
    {
      var existed := a in byteSafety;
      var hasCurrent := existed && byteSafety[a].generation == activeGeneration;
      var current := if hasCurrent then byteSafety[a].safe else defaultSafety;
      if current == safe {
        return;
      }
      var oldState := if existed then byteSafety[a] else ByteState(LiveOnEntry, false);
      undoLog := undoLog + [Undo(a, existed, oldState)];
      if safe == defaultSafety {
        assert hasCurrent;
        byteSafety := byteSafety - {a};
      } else {
        byteSafety := byteSafety[a := ByteState(activeGeneration, safe)];
      }
      assert undoLog[..|undoLog| - 1] == old(undoLog);
      assert UndoOne(byteSafety, undoLog[|undoLog| - 1]) == old(byteSafety);
    }

    method Rollback(checkpoint: nat)
      requires checkpoint <= |undoLog|
      modifies `byteSafety, `undoLog
      ensures byteSafety == Undone(old(byteSafety), old(undoLog), checkpoint)
      ensures undoLog == old(undoLog)[..checkpoint]
    {
      while |undoLog| > checkpoint
        invariant checkpoint <= |undoLog| <= |old(undoLog)|
        invariant undoLog == old(undoLog)[..|undoLog|]
        invariant Undone(byteSafety, undoLog, checkpoint) == Undone(old(byteSafety), old(undoLog), checkpoint)
      {
        var undo := undoLog[|undoLog| - 1];
        if undo.existed {
          byteSafety := byteSafety[undo.address := undo.oldState];
        } else {
          byteSafety := byteSafety - {undo.address};
        }
        undoLog := undoLog[..|undoLog| - 1];
      }
    }

    /** What every judgement keeps and only ever adds to. */
    twostate predicate Grown()
      reads this
    {
      && Extends(old(valueSafety), valueSafety) && Includes(old(table), table) && old(early) <= early
      && (forall i :: i in valueSafety && i !in old(valueSafety) ==> valueSafety[i] != Visiting)
    }

    twostate predicate OnlySafeAdded()
      reads this
    {
      forall i :: i in valueSafety && i !in old(valueSafety) ==> valueSafety[i] == Safe
    }

    /** Only loads without a verdict are refused for being asked about early. */
    twostate predicate NewEarly()
      reads this
    {
      forall i :: i in early && i !in old(early) ==> i !in old(valueSafety)
    }

    /** As long as no load with a derivation was refused early, what is asked about is what the
        program says is asked about here. */
    ghost predicate Due(i: nat)
      reads `early, `agenda
    {
      Clean(p, early) ==> AskedNow(p, agenda, i)
    }

    /** Judges a value, with memoisation.  A true answer means that everything judged on the
        way is safe as well. */
    method IsSafeValue(o: Operand, ghost chain: seq<Node>) returns (safe: bool)
      requires Ready(chain) && p.InRange(o) && (o.Result? ==> Due(o.inst))
      modifies `valueSafety, `table, `early
      ensures Ready(chain) && Grown() && NewEarly()
      ensures safe ==> OnlySafeAdded()
      ensures safe <==> Known(table, o)
      ensures !safe ==> Denied(valueSafety, o)
      ensures o.Result? ==> o.inst in valueSafety
      decreases Unjudged(), 1
    {
      if o.Result? {
        if o.inst in valueSafety {
          safe := valueSafety[o.inst] == Safe;
        } else {
          safe := Judge(o.inst, chain);
        }
      } else {
        safe := true;
      }
    }

    method Judge(i: nat, ghost chain: seq<Node>) returns (safe: bool)
      requires Ready(chain) && i < |p.code| && i !in valueSafety && Due(i)
      modifies `valueSafety, `table, `early
      ensures Ready(chain) && Grown() && NewEarly()
      ensures safe ==> OnlySafeAdded()
      ensures i in valueSafety && valueSafety[i] == if safe then Safe else Unsafe
      ensures safe <==> i in table
      decreases Unjudged(), 0
    {
      ghost var m0, t0, e0, l := valueSafety, table, early, Current();
      hide MemoOk, JudgingState, Refused, Derivation, Extends, Includes, Account, Clean, AskedNow, OwnedHere;
      StartVisit(p, chain, l, m0, t0, e0, agenda, i);
      valueSafety := valueSafety[i := Visiting];
      assert i in old(Unjudged()) && i !in Unjudged();
      ghost var x;
      safe, x := Inspect(i, chain);
      RecordVerdict(p, chain, l, m0, t0, e0, valueSafety, table, early, agenda, i, safe, x);
      table := if safe then table[i := x] else table;
      valueSafety := valueSafety[i := if safe then Safe else Unsafe];
    }

    /** The verdict on a value that has just been marked as being visited. */
    method Inspect(i: nat, ghost chain: seq<Node>) returns (safe: bool, ghost x: Expr)
      requires Ready(chain) && i in valueSafety && valueSafety[i] == Visiting && i < |p.code| && Due(i) && i !in early
      modifies `valueSafety, `table, `early
      ensures Ready(chain) && Grown() && MemoOk(p, valueSafety, table, early)
      ensures forall k :: k in early && k !in old(early) ==> k !in old(valueSafety) || (k == i && !safe)
      ensures safe ==> OnlySafeAdded() && Derivation(p, table, i, x) && OwnedHere(p, agenda, i)
      ensures !safe ==> Refused(p, valueSafety, table, early, i)
      decreases Unjudged(), 3
    {
      hide MemoOk, Account, Clean, AskedNow;
      x := EConstant(0);
      var kind := p.code[i].kind;
      if p.code[i].inLoop {
        safe := false;
      } else if kind.Pure? {
        safe, x := OperandsSafe(i, chain);
      } else if kind.Load? {
        safe, x := LoadSafe(i, chain);
      } else {
        safe := false;
      }
    }

    method OperandsSafe(i: nat, ghost chain: seq<Node>) returns (safe: bool, ghost x: Expr)
      requires Ready(chain) && i in valueSafety && valueSafety[i] == Visiting
      requires i < |p.code| && p.code[i].kind.Pure? && !p.code[i].inLoop
      requires Due(i) && forall k :: 0 <= k < |p.code[i].kind.operands| ==> p.InRange(p.code[i].kind.operands[k])
      modifies `valueSafety, `table, `early
      ensures Ready(chain) && Grown() && NewEarly()
      ensures safe ==> OnlySafeAdded() && Derivation(p, table, i, x)
      ensures !safe ==> Refused(p, valueSafety, table, early, i)
      decreases Unjudged(), 2
    {
      hide MemoOk, JudgingState, Program.WellFormed, Account, Clean, AskedNow;
      var os := p.code[i].kind.operands;
      for k := 0 to |os|
        invariant Ready(chain) && Grown() && OnlySafeAdded() && NewEarly() && Due(i)
        invariant forall j :: 0 <= j < k ==> Known(table, os[j])
      {
        assert Unjudged() <= old(Unjudged());
        JudgingMemo(p, chain, Current(), valueSafety, table, early);
        if os[k].Result? { DueOperand(p, valueSafety, table, early, agenda, i, k); }
        var operand := IsSafeValue(os[k], chain);
        DueStays(p, old(early), early, agenda, i);
        if !operand {
          assert DeniedFirst(valueSafety, table, os, k);
          return false, EConstant(0);
        }
      }
      return true, EApply(p.code[i].kind.op, ArgExprs(table, os));
    }

    method LoadSafe(i: nat, ghost chain: seq<Node>) returns (safe: bool, ghost x: Expr)
      requires Ready(chain) && i in valueSafety && valueSafety[i] == Visiting
      requires i < |p.code| && p.code[i].kind.Load? && !p.code[i].inLoop && p.InRange(p.code[i].kind.pointer) && Due(i)
      modifies `valueSafety, `table, `early
      ensures Ready(chain) && Grown()
      ensures forall k :: k in early && k !in old(early) ==> k !in old(valueSafety) || (k == i && !safe)
      ensures safe ==> OnlySafeAdded() && Derivation(p, table, i, x) && OwnedHere(p, agenda, i)
      ensures !safe ==> Refused(p, valueSafety, table, early, i)
      decreases Unjudged(), 2
    {
      hide Account, Clean, AskedNow;
      var Load(ptr, owner, loaded) := p.code[i].kind;
      x := EConstant(0);
      safe := p.code[i].preds <= 1 && owner == Some(activeAccess) && loaded.Some? && loaded.value.size <= 64;
      if !safe {
        if owner != Some(activeAccess) {
          MemoEarly(p, valueSafety, table, early, i);
          AccountEarly(p, valueSafety, table, early, agenda, i);
          early := early + {i};
        }
        return;
      }
      OwnerHere(p, valueSafety, table, early, agenda, activeAccess, i);
      if ptr.Result? { DuePointer(p, valueSafety, table, early, agenda, i); }
      safe := IsSafeValue(ptr, chain);
      if !safe {
        return;
      }
      safe := RangeIsSafe(loaded.value);
      if safe {
        assert RangeSafe(p, table, chain, loaded.value);
        x := LoadExpr(p, table, ptr, chain, loaded.value);
      } else {
        assert !RangeSafe(p, table, chain, loaded.value);
        assert RangeRefused(p, valueSafety, table, owner.value, loaded.value);
      }
    }

    /** Judges every load whose defining access is the active node. */
    method JudgeLoads(ghost chain: seq<Node>)
      requires Ready(chain) && agenda.now == AtLoads(activeAccess)
      modifies `valueSafety, `table, `early
      ensures Ready(chain) && Grown()
      ensures forall i :: p.LoadAt(i, activeAccess) ==> i in valueSafety
    {
      var loads := p.Loads(activeAccess);
      hide JudgingState, Account, Clean;
      for k := 0 to |loads|
        invariant Ready(chain) && Grown()
        invariant forall j :: 0 <= j < k ==> loads[j] in valueSafety
      {
        assert LoadsAsk(p, agenda.done, activeAccess, loads[k]);
        var _ := IsSafeValue(Result(loads[k]), chain);
      }
    }

    /** Marks the bytes of a store, one by one, up to the end of the offset range. */
    method MarkBytes(s: Access, safe: bool)
      requires s.Fits64()
      modifies `byteSafety, `undoLog
      ensures forall b :: Current().Effective(b) == if s.Marks(b) then safe else old(Current()).Effective(b)
      ensures |old(undoLog)| <= |undoLog| && undoLog[..|old(undoLog)|] == old(undoLog)
      ensures Undone(byteSafety, undoLog, |old(undoLog)|) == old(byteSafety)
      ensures forall b :: b in byteSafety ==>
        byteSafety[b].generation == activeGeneration || (b in old(byteSafety) && byteSafety[b] == old(byteSafety)[b])
    {
      var i := 0;
      while i < s.size
        invariant i <= s.size && s.offset + i <= TWO64
        invariant forall b :: Current().Effective(b) == if s.(size := i).Marks(b) then safe
          else old(Current()).Effective(b)
        invariant |old(undoLog)| <= |undoLog| && undoLog[..|old(undoLog)|] == old(undoLog)
        invariant Undone(byteSafety, undoLog, |old(undoLog)|) == old(byteSafety)
        invariant forall b :: b in byteSafety ==>
          byteSafety[b].generation == activeGeneration || (b in old(byteSafety) && byteSafety[b] == old(byteSafety)[b])
      {
        var byteOffset := (s.offset + i) % TWO64;
        if byteOffset < s.offset {
          break;
        }
        ghost var log := undoLog;
        SetByteSafety(Address(s.page, byteOffset), safe);
        UndoneInStages(byteSafety, undoLog, |log|, |old(undoLog)|);
        assert undoLog[..|old(undoLog)|] == undoLog[..|log|][..|old(undoLog)|] == log[..|old(undoLog)|];
        i := i + 1;
      }
    }

    /** The effect of entering the definition `d` below the last node of `chain`. */
    method ApplyDefinition(d: Node, ghost chain: seq<Node>)
      requires Ready(chain) && Quiet() && d.Def? && p.DefOf(d.inst, activeAccess) && d !in chain
        && agenda.now == AtStore(d)
      modifies `valueSafety, `table, `early, `byteSafety, `undoLog, `activeGeneration, `defaultSafety
      ensures Grown() && StoreSettled(p, valueSafety, d) && Account(p, valueSafety, table, early, agenda)
      ensures JudgingState(p, chain + [d], Current(), valueSafety, table, early)
      ensures JudgingState(p, chain, old(Current()), valueSafety, table, early)
      ensures |old(undoLog)| <= |undoLog| && undoLog[..|old(undoLog)|] == old(undoLog)
      ensures Undone(byteSafety, undoLog, |old(undoLog)|) == old(byteSafety)
    {
      hide Account, Clean, AskedNow;
      var i := d.inst;
      if !p.code[i].kind.Store? || p.code[i].kind.target.None? {
        activeGeneration := d;
        defaultSafety := false;
        UnknownLayer(p, valueSafety, table, early, chain, old(Current()), d);
      } else {
        var store := p.code[i].kind;
        assert p.InRange(store.pointer) && p.InRange(store.stored) && store.target.value.Fits64();
        var storeIsSafe := StoreIsSafe(i, chain);
        MarkBytes(store.target.value, storeIsSafe);
        StoreLayer(p, valueSafety, table, early, chain, old(Current()), d, Current());
      }
    }

    method StoreIsSafe(i: nat, ghost chain: seq<Node>) returns (safe: bool)
      requires Ready(chain) && Quiet() && agenda.now == AtStore(Def(i)) && Target(p, Def(i)).Some?
      requires p.InRange(p.code[i].kind.pointer) && p.InRange(p.code[i].kind.stored)
      modifies `valueSafety, `table, `early
      ensures Ready(chain) && Grown()
      ensures safe == StoreSafe(p, table, i) && StoreSettled(p, valueSafety, Def(i))
    {
      hide AllDerived, Refused, LayerOk, ChainSettled, Program.WellFormed, Account, Clean, AskedNow;
      safe := false;
      if !p.code[i].inLoop && p.code[i].preds <= 1 {
        DueStore(p, valueSafety, table, early, agenda, i);
        safe := IsSafeValue(p.code[i].kind.pointer, chain);
        if safe {
          DueStore(p, valueSafety, table, early, agenda, i);
          safe := IsSafeValue(p.code[i].kind.stored, chain);
        }
      }
    }

    /** What the traversal keeps between two nodes. */
    ghost predicate TraversalOk(stack: seq<Frame>, below: seq<Layer>, root: Node, visited: set<Node>, walk: seq<Node>)
      reads this
    {
      && Quiet() && MemoOk(p, valueSafety, table, early) && VisitOk(p, valueSafety, root, stack, visited)
      && (stack != [] ==> StackOk(p, valueSafety, table, early, stack, below, Current(), undoLog))
      && TrailOk(p, stack, agenda, walk) && Account(p, valueSafety, table, early, agenda)
    }

    /** First arrival at the top frame's node: judge the loads it owns. */
    method Enter(stack: seq<Frame>, ghost below: seq<Layer>, ghost root: Node, ghost visited: set<Node>,
                 ghost walk: seq<Node>)
      returns (stack': seq<Frame>)
      requires stack != [] && activeAccess == stack[|stack| - 1].access && !stack[|stack| - 1].entered
      requires TraversalOk(stack, below, root, visited, walk)
      modifies `valueSafety, `table, `early, `agenda
      ensures Extends(old(valueSafety), valueSafety)
      ensures stack' == stack[|stack| - 1 := stack[|stack| - 1].(entered := true)]
      ensures TraversalOk(stack', below, root, visited, walk)
    {
      hide SavedOk, FramesOk, Connected, LeftOk, LayerOk, ChainSettled, Undone, Account, Rest;
      var top := |stack| - 1;
      stack' := stack[top := stack[top].(entered := true)];
      ghost var done := agenda.done;
      BeginLoads(p, valueSafety, table, early, done, activeAccess);
      agenda := Agenda(done, AtLoads(activeAccess));
      JudgeLoads(Accesses(stack));
      EndLoads(p, valueSafety, table, early, done, activeAccess);
      agenda := Agenda(done + [activeAccess], Between);
      StackGrow(p, old(valueSafety), old(table), old(early), stack, below, Current(), undoLog,
                valueSafety, table, early, stack');
      VisitEnter(p, old(valueSafety), valueSafety, root, stack, visited);
      TrailEnter(p, stack, old(agenda), walk);
    }

    /** Descends into the next child of the top frame's node. */
    method Push(stack: seq<Frame>, ghost below: seq<Layer>, ghost root: Node, ghost visited: set<Node>,
                ghost walk: seq<Node>)
      returns (stack': seq<Frame>)
      requires stack != [] && activeAccess == stack[|stack| - 1].access
        && TraversalOk(stack, below, root, visited, walk)
      requires stack[|stack| - 1].entered && stack[|stack| - 1].nextChild < |p.Children(activeAccess)|
      modifies this
      ensures Extends(old(valueSafety), valueSafety)
      ensures var d := p.Children(old(activeAccess))[stack[|stack| - 1].nextChild];
        TraversalOk(stack', below + [old(Current())], root, visited + {d}, walk)
    {
      hide MemoOk, SavedOk, FramesOk, Connected, LeftOk, LayerOk, ChainSettled, Undone, Account, Rest;
      var top := |stack| - 1;
      var d := p.Children(stack[top].access)[stack[top].nextChild];
      var checkpoint, generation, byDefault := |undoLog|, activeGeneration, defaultSafety;
      var bumped := Bumped(stack);
      ghost var done := agenda.done;
      VisitFresh(p, valueSafety, root, stack, visited);
      StackHeight(p, valueSafety, root, stack, visited);
      BeginStore(p, valueSafety, table, early, done, d);
      agenda := Agenda(done, AtStore(d));
      ApplyDefinition(d, Accesses(stack));
      JudgingMemo(p, Accesses(stack), old(Current()), valueSafety, table, early);
      EndStore(p, valueSafety, table, early, done, d);
      agenda := Agenda(done, Pushed(d));
      StackGrow(p, old(valueSafety), old(table), old(early), stack, below, old(Current()), old(undoLog),
                valueSafety, table, early, bumped);
      StackPush(p, valueSafety, table, early, bumped, below, old(Current()), old(undoLog), d, Current(), undoLog);
      stack' := bumped + [Frame(d, 0, checkpoint, generation, byDefault, false)];
      VisitPush(p, old(valueSafety), valueSafety, root, stack, visited, stack'[|stack|]);
      TrailPush(p, stack, old(agenda), walk, stack'[|stack|]);
    }

    /** Leaves the top frame's node. */
    method Pop(stack: seq<Frame>, ghost below: seq<Layer>)
      requires stack != []
      requires StackOk(p, valueSafety, table, early, stack, below, Current(), undoLog)
      modifies `byteSafety, `undoLog, `activeGeneration, `defaultSafety
      ensures |stack| == |below| + 1
      ensures |stack| > 1 ==>
        Current() == below[|below| - 1] &&
        StackOk(p, valueSafety, table, early, stack[..|stack| - 1], below[..|below| - 1], Current(), undoLog)
    {
      hide JudgingState, SavedOk;
      var frame := stack[|stack| - 1];
      if |stack| > 1 {
        StackPop(p, valueSafety, table, early, stack, below, Current(), undoLog);
      }
      Rollback(frame.checkpoint);
      activeGeneration, defaultSafety := frame.previousGeneration, frame.previousDefault;
    }

    /** Makes the top frame's node the active one and, the first time, judges its loads. */
    method Arrive(stack: seq<Frame>, ghost below: seq<Layer>, ghost root: Node, ghost visited: set<Node>,
                  ghost walk: seq<Node>)
      returns (stack': seq<Frame>)
      requires stack != [] && TraversalOk(stack, below, root, visited, walk)
      modifies `activeAccess, `valueSafety, `table, `early, `agenda
      ensures TraversalOk(stack', below, root, visited, walk) && Extends(old(valueSafety), valueSafety)
      ensures |stack'| == |stack| && stack'[|stack| - 1].entered && activeAccess == stack'[|stack| - 1].access
    {
      hide MemoOk, StackOk, VisitOk, TrailOk, Account;
      var top := |stack| - 1;
      stack' := stack;
      activeAccess := stack[top].access;
      if !stack[top].entered {
        stack' := Enter(stack, below, root, visited, walk);
      }
    }

    /** Pops the top frame when no child is left. */
    method Leave(stack: seq<Frame>, ghost below: seq<Layer>, ghost root: Node, ghost visited: set<Node>,
                 ghost walk: seq<Node>)
      returns (stack': seq<Frame>, ghost below': seq<Layer>)
      requires stack != [] && TraversalOk(stack, below, root, visited, walk)
      requires stack[|stack| - 1].entered && stack[|stack| - 1].nextChild >= |p.Children(stack[|stack| - 1].access)|
      modifies `byteSafety, `undoLog, `activeGeneration, `defaultSafety
      ensures TraversalOk(stack', below', root, visited, walk) && stack' == stack[..|stack| - 1]
    {
      hide MemoOk, StackOk, VisitOk, TrailOk, Account;
      VisitPop(p, valueSafety, root, stack, visited);
      TrailPop(p, stack, agenda, walk);
      Pop(stack, below);
      stack', below' := stack[..|stack| - 1], if |stack| > 1 then below[..|stack| - 2] else below;
    }

    /** One round of the traversal loop: descend if a child is left, else leave the node. */
    method Step(stack: seq<Frame>, ghost below: seq<Layer>, ghost root: Node, ghost visited: set<Node>,
                ghost walk: seq<Node>)
      returns (stack': seq<Frame>, ghost below': seq<Layer>, ghost visited': set<Node>)
      requires stack != [] && TraversalOk(stack, below, root, visited, walk)
      modifies this
      ensures TraversalOk(stack', below', root, visited', walk) && Extends(old(valueSafety), valueSafety)
      ensures AllDefs(p) - visited' < AllDefs(p) - visited || (visited' == visited && |stack'| < |stack|)
    {
      hide MemoOk, StackOk, VisitOk, TrailOk, Account, Undone;
      var top := |stack| - 1;
      below', visited' := below, visited;
      stack' := Arrive(stack, below, root, visited, walk);
      var children := p.Children(stack'[top].access);
      if stack'[top].nextChild < |children| {
        VisitFresh(p, valueSafety, root, stack', visited);
        below', visited' := below + [Current()], visited + {children[stack'[top].nextChild]};
        assert children[stack'[top].nextChild] in (AllDefs(p) - visited) - (AllDefs(p) - visited');
        stack' := Push(stack', below, root, visited, walk);
      } else {
        stack', below' := Leave(stack', below, root, visited, walk);
      }
    }

    /** Walks the tree below one root, entering its nodes in depth-first order.  Every node
        reached has all its loads judged. */
    method Traverse(root: Node)
      requires p.WellFormed() && root.Root() && Quiet() && MemoOk(p, valueSafety, table, early)
      requires agenda.now == Between && Account(p, valueSafety, table, early, agenda)
      modifies this
      ensures Quiet() && MemoOk(p, valueSafety, table, early) && Account(p, valueSafety, table, early, agenda)
      ensures agenda == Agenda(old(agenda.done) + Subtree(p, root, Height(p)), Between)
      ensures Extends(old(valueSafety), valueSafety) && JudgedBelow(p, valueSafety, root)
    {
      hide MemoOk, StackOk, VisitOk, Rest, Account, Subtree;
      byteSafety, undoLog := map[], [];
      activeGeneration, defaultSafety := root, root.LiveOnEntry?;
      var stack := [Frame(root, 0, 0, root, root.LiveOnEntry?, false)];
      ghost var done := agenda.done;
      ghost var below: seq<Layer>, visited, walk := [], {root}, done + Subtree(p, root, Height(p));
      RootStack(p, valueSafety, table, early, stack, root);
      TrailRoot(p, stack[0], done);
      BeginRoot(p, valueSafety, table, early, done, root);
      agenda := Agenda(done, Pushed(root));
      while stack != []
        invariant TraversalOk(stack, below, root, visited, walk) && Extends(old(valueSafety), valueSafety)
        decreases AllDefs(p) - visited, |stack|
      {
        stack, below, visited := Step(stack, below, root, visited, walk);
      }
      NothingLeft(p, agenda, walk);
      forall chain | p.IsChain(chain) && chain[0] == root ensures LoadsJudged(p, valueSafety, chain[|chain| - 1]) {
        AllVisited(p, valueSafety, root, visited, chain);
      }
    }

    /** The whole analysis.  Every load has a verdict; every safe value has a derivation (so that
        `SafeValuesAreFixed` applies to it); and the verdicts are right for everything judged if
        and only if the depth-first order asks about no load with a derivation before it enters
        that load's own node. */
    method Run()
      requires p.WellFormed() && valueSafety == map[] && table == map[] && early == {} && agenda == Agenda([], Between)
      modifies this
      ensures TableOf(valueSafety, table) && AllDerived(p, table) && AllLoadsJudged(p, valueSafety)
      ensures forall i :: i in valueSafety && valueSafety[i] == Safe ==> Derivable(p, i)
      ensures (forall i :: i in valueSafety ==> (valueSafety[i] == Safe <==> Derivable(p, i))) <==>
        InOrder(p, Preorder(p))
    {
      hide MemoOk, JudgedBelow, AllDerived, Account, InOrder, Derivable, Subtree;
      NothingJudged(p);
      var roots := p.RootsUpTo(|p.code|);
      for k := 0 to |roots|
        invariant Quiet() && MemoOk(p, valueSafety, table, early) && Account(p, valueSafety, table, early, agenda)
        invariant agenda == Agenda(Trees(p, roots[..k]), Between)
        invariant forall j :: 0 <= j < k ==> JudgedBelow(p, valueSafety, roots[j])
      {
        ghost var m := valueSafety;
        Traverse(roots[k]);
        TreesPush(p, roots[..k], roots[k]);
        assert roots[..k + 1] == roots[..k] + [roots[k]];
        forall j | 0 <= j < k ensures JudgedBelow(p, valueSafety, roots[j]) {
          JudgedBelowStable(p, m, valueSafety, roots[j]);
        }
      }
      assert roots[..|roots|] == roots;
      LoadsOfAllChains(p, valueSafety);
      MemoTable(p, valueSafety, table, early);
      forall i | i in valueSafety && valueSafety[i] == Safe ensures Derivable(p, i) {
        SafeIsDerivable(p, valueSafety, table, early, i);
      }
      ExactlyInOrder(p, valueSafety, table, early, agenda.done);
    }
  }

  /** If the depth-first order asks about a derivable load too early, be it for a store or for
      another load, the analysis refuses a value that has a derivation. */
  method Misjudge(p: Program, ghost k: nat, ghost i: nat) returns (m: Memo)
    requires p.WellFormed() && AsksTooEarly(p, Preorder(p), k, i)
    ensures AllLoadsJudged(p, m) && exists j :: j in m && m[j] != Safe && Derivable(p, j)
  {
    hide AsksTooEarly, InOrder, AllLoadsJudged, Derivable;
    var analysis := new Analysis(p);
    analysis.Run();
    NotInOrder(p, Preorder(p), k, i);
    m := analysis.valueSafety;
  }
}
