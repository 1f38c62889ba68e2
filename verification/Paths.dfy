/** The simulation invariant of symbolic exploration: how the emitted code, the explored
    paths and the machine correspond, and how growing the code keeps it. */
module Paths {
  import opened Terms
  import opened States
  import opened Machine

  /** A path under exploration: the open block it ends in, and the saved context. */
  datatype Path = Path(block: nat, pc: nat, sym: Sym, constraints: seq<Term>)

  datatype Kind = Returned | Undecoded | Unlifted | Unresolved

  datatype Ended = Ended(path: Path, kind: Kind)

  /** What is being lifted: a machine, its initial memory image and the entry point. */
  datatype World = World(machine: Decoder, image: Sym, entry: nat)

  /** How many machine steps lead to the end of a block. */
  type Depths = map<nat, nat>

  ghost function MachineAt(w: World, s: Assignment, n: nat): MState {
    RunMachine(w.machine, MState(w.entry, Start(w.image, s)), n)
  }

  /** Where the emitted code leads on input `s`. */
  ghost function Final(w: World, blocks: seq<Block>, s: Assignment): (nat, State)
    requires Forward(blocks) && |blocks| > 0
  {
    Follow(blocks, 0, Start(w.image, s))
  }

  ghost predicate Agrees(w: World, d: nat, p: Path, pcKnown: bool, c: State, s: Assignment) {
    && Holds(p.constraints, s)
    && Represents(p.sym, s, c)
    && MachineAt(w, s, d).state == c
    && (pcKnown ==> MachineAt(w, s, d).pc == p.pc)
  }

  /** On every input that the code leads to the path's block, the machine is at the path's
      program counter in the state the saved symbolic state describes. */
  ghost predicate Simulates(w: World, blocks: seq<Block>, depth: Depths, p: Path, pcKnown: bool)
    requires Forward(blocks) && |blocks| > 0
  {
    p.block < |blocks| && p.block in depth &&
    forall s :: Final(w, blocks, s).0 == p.block ==> Agrees(w, depth[p.block], p, pcKnown, Final(w, blocks, s).1, s)
  }

  predicate EndedAt(blocks: seq<Block>, e: Ended)
    requires e.path.block < |blocks|
  {
    match e.kind
    case Returned => blocks[e.path.block].exit == Return && e.path.pc == 0
    case Unlifted => blocks[e.path.block].exit == Trap && e.path.pc != 0
    case _ => blocks[e.path.block].exit == Open && e.path.pc != 0
  }

  ghost predicate Separate(live: seq<Path>, ended: set<Ended>) {
    && (forall i, j :: 0 <= i < j < |live| ==> live[i].block != live[j].block)
    && (forall i, e :: 0 <= i < |live| && e in ended ==> live[i].block != e.path.block)
  }

  ghost predicate Accounted(b: nat, live: seq<Path>, ended: set<Ended>) {
    (exists i :: 0 <= i < |live| && live[i].block == b) || (exists e :: e in ended && e.path.block == b)
  }

  /** The invariant.  The last live path is the current one; while an instruction is being
      finished its program counter is not known yet. */
  ghost predicate Inv(w: World, blocks: seq<Block>, depth: Depths, live: seq<Path>, known: bool, ended: set<Ended>) {
    && |blocks| > 0 && Forward(blocks) && Separate(live, ended)
    && (forall i :: 0 <= i < |live| ==>
          Simulates(w, blocks, depth, live[i], known || i < |live| - 1) && blocks[live[i].block].exit == Open)
    && (forall e :: e in ended ==> Simulates(w, blocks, depth, e.path, e.kind != Unresolved) && EndedAt(blocks, e))
    && (forall b :: 0 <= b < |blocks| && blocks[b].Leaf() ==> Accounted(b, live, ended))
  }

  /** Every input ends in exactly one leaf, which belongs to a live or an ended path. */
  lemma EveryInputHasItsLeaf(w: World, blocks: seq<Block>, depth: Depths, live: seq<Path>, known: bool,
                             ended: set<Ended>, s: Assignment)
    requires Inv(w, blocks, depth, live, known, ended)
    ensures Accounted(Final(w, blocks, s).0, live, ended)
    ensures forall i :: 0 <= i < |live| && live[i].block == Final(w, blocks, s).0 ==> Holds(live[i].constraints, s)
    ensures forall e :: e in ended && e.path.block == Final(w, blocks, s).0 ==> Holds(e.path.constraints, s)
  {
    forall i | 0 <= i < |live| && live[i].block == Final(w, blocks, s).0 ensures Holds(live[i].constraints, s) {
      assert Simulates(w, blocks, depth, live[i], known || i < |live| - 1);
    }
    forall e | e in ended && e.path.block == Final(w, blocks, s).0 ensures Holds(e.path.constraints, s) {
      assert Simulates(w, blocks, depth, e.path, e.kind != Unresolved);
    }
  }

  /** Meaning preservation: where the emitted code returns, the machine has stopped, in the
      same state. */
  lemma ReturnsLikeTheMachine(w: World, blocks: seq<Block>, depth: Depths, live: seq<Path>, known: bool,
                              ended: set<Ended>, s: Assignment)
    requires Inv(w, blocks, depth, live, known, ended)
    requires blocks[Final(w, blocks, s).0].exit == Return
    ensures exists n: nat :: MachineAt(w, s, n) == MState(0, Final(w, blocks, s).1)
  {
    var b := Final(w, blocks, s).0;
    assert Accounted(b, live, ended);
    assert forall i :: 0 <= i < |live| ==> live[i].block != b;
    var e :| e in ended && e.path.block == b;
    assert EndedAt(blocks, e) && Simulates(w, blocks, depth, e.path, e.kind != Unresolved);
    assert MachineAt(w, s, depth[b]) == MState(0, Final(w, blocks, s).1);
  }

  /** A finished exploration without failures is a translation: on every input the machine
      stops, in the state the emitted code returns. */
  lemma CompleteTranslation(w: World, blocks: seq<Block>, depth: Depths, ended: set<Ended>, s: Assignment)
    requires Inv(w, blocks, depth, [], true, ended) && forall e :: e in ended ==> e.kind == Returned
    ensures blocks[Final(w, blocks, s).0].exit == Return
    ensures exists n: nat :: MachineAt(w, s, n) == MState(0, Final(w, blocks, s).1)
  {
    var b := Final(w, blocks, s).0;
    assert Accounted(b, [], ended);
    var e :| e in ended && e.path.block == b;
    assert EndedAt(blocks, e);
    ReturnsLikeTheMachine(w, blocks, depth, [], true, ended, s);
  }

  /** How an ended path ends: with a return exactly at program counter zero.  On every input that
      ends there the code returns exactly if the machine has stopped, but for a jump that could
      not be resolved: there it never returns, though on some inputs the machine may stop. */
  lemma EndsLikeTheMachine(w: World, blocks: seq<Block>, depth: Depths, live: seq<Path>, known: bool,
                           ended: set<Ended>, e: Ended, s: Assignment)
    requires Inv(w, blocks, depth, live, known, ended) && e in ended
    ensures e.path.block < |blocks| && e.path.block in depth
    ensures blocks[e.path.block].exit == Return <==> e.path.pc == 0
    ensures Final(w, blocks, s).0 == e.path.block && e.kind != Unresolved ==>
      (blocks[e.path.block].exit == Return <==> MachineAt(w, s, depth[e.path.block]).pc == 0)
    ensures e.kind == Unresolved ==> blocks[e.path.block].exit == Open
  {
    assert EndedAt(blocks, e) && Simulates(w, blocks, depth, e.path, e.kind != Unresolved);
  }

  // ------------------------------------------------------ growing the code

  ghost predicate NewLeaves(blocks: seq<Block>, after: seq<Block>, at: nat, news: seq<Path>) {
    && (forall i :: 0 <= i < |news| ==>
          (|blocks| <= news[i].block < |after| || news[i].block == at < |after|) && after[news[i].block].exit == Open)
    && (forall i, j :: 0 <= i < j < |news| ==> news[i].block != news[j].block)
    && (forall b :: 0 <= b < |after| && (b >= |blocks| || b == at) && after[b].Leaf() ==>
          exists i :: 0 <= i < |news| && news[i].block == b)
  }

  ghost predicate SameDepths(depth: Depths, depth': Depths, n: nat, at: nat) {
    forall b :: b in depth && b < n && b != at ==> b in depth' && depth'[b] == depth[b]
  }

  lemma FinalGrafted(w: World, blocks: seq<Block>, after: seq<Block>, at: nat, s: Assignment)
    requires Grafted(blocks, after, at)
    ensures var (leaf, c) := Final(w, blocks, s);
      && Final(w, after, s) == (if leaf == at then LeaveBlock(after, at, c) else (leaf, c))
      && (leaf == at ==> Final(w, after, s).0 == at || Final(w, after, s).0 >= |blocks|)
  {
    FollowGrafted(blocks, after, at, 0, Start(w.image, s));
  }

  /** Paths that end elsewhere are not affected. */
  lemma SimulatesGrafted(w: World, blocks: seq<Block>, depth: Depths, after: seq<Block>, depth': Depths, at: nat,
                         q: Path, pcKnown: bool)
    requires Grafted(blocks, after, at) && SameDepths(depth, depth', |blocks|, at)
    requires Simulates(w, blocks, depth, q, pcKnown) && q.block != at
    ensures Simulates(w, after, depth', q, pcKnown)
  {
    forall s | Final(w, after, s).0 == q.block
      ensures Agrees(w, depth'[q.block], q, pcKnown, Final(w, after, s).1, s)
    {
      FinalGrafted(w, blocks, after, at, s);
    }
  }

  /** Replacing the current path by new paths that agree with the machine keeps the invariant. */
  lemma GraftInv(w: World, blocks: seq<Block>, depth: Depths, stack: seq<Path>, p: Path, known: bool, ended: set<Ended>,
                 after: seq<Block>, depth': Depths, news: seq<Path>, known': bool)
    requires Inv(w, blocks, depth, stack + [p], known, ended)
    requires Grafted(blocks, after, p.block) && SameDepths(depth, depth', |blocks|, p.block)
    requires NewLeaves(blocks, after, p.block, news) && news != []
    requires forall i :: 0 <= i < |news| ==> Simulates(w, after, depth', news[i], known' || i < |news| - 1)
    ensures Inv(w, after, depth', stack + news, known', ended)
  {
    hide Simulates, Grafted;
    var live, live' := stack + [p], stack + news;
    assert live[|stack|] == p;
    assert Forward(after) && p.block < |blocks| <= |after| && forall b :: 0 <= b < |blocks| && b != p.block ==>
      after[b] == blocks[b] by {
      GraftedFacts(blocks, after, p.block);
    }
    forall i | 0 <= i < |live'|
      ensures Simulates(w, after, depth', live'[i], known' || i < |live'| - 1)
      ensures live'[i].block < |after| && after[live'[i].block].exit == Open
    {
      if i < |stack| {
        assert live'[i] == live[i];
        assert Simulates(w, blocks, depth, live[i], known || i < |live| - 1);
        SimulatesGrafted(w, blocks, depth, after, depth', p.block, live[i], true);
        SimulatesBlock(w, blocks, depth, live[i], true);
      } else {
        assert live'[i] == news[i - |stack|];
      }
    }
    forall e | e in ended
      ensures Simulates(w, after, depth', e.path, e.kind != Unresolved) && e.path.block < |after| && EndedAt(after, e)
    {
      SimulatesGrafted(w, blocks, depth, after, depth', p.block, e.path, e.kind != Unresolved);
      SimulatesBlock(w, blocks, depth, e.path, e.kind != Unresolved);
    }
    SeparateGrafted(w, blocks, depth, stack, p, known, ended, after, news);
    forall b | 0 <= b < |after| && after[b].Leaf() ensures Accounted(b, live', ended) {
      AccountedGrafted(blocks, stack, p, ended, after, news, b);
    }
  }

  lemma GraftedFacts(blocks: seq<Block>, after: seq<Block>, at: nat)
    requires Grafted(blocks, after, at)
    ensures Forward(after) && at < |blocks| <= |after|
    ensures forall b :: 0 <= b < |blocks| && b != at ==> after[b] == blocks[b]
  {
  }

  lemma SimulatesBlock(w: World, blocks: seq<Block>, depth: Depths, q: Path, pcKnown: bool)
    requires |blocks| > 0 && Forward(blocks) && Simulates(w, blocks, depth, q, pcKnown)
    ensures q.block < |blocks| && q.block in depth
  {
  }

  lemma SeparateGrafted(w: World, blocks: seq<Block>, depth: Depths, stack: seq<Path>, p: Path, known: bool,
                        ended: set<Ended>, after: seq<Block>, news: seq<Path>)
    requires Inv(w, blocks, depth, stack + [p], known, ended) && NewLeaves(blocks, after, p.block, news)
    ensures Separate(stack + news, ended)
  {
    var live, live' := stack + [p], stack + news;
    assert live[|stack|] == p;
    forall i | 0 <= i < |stack| ensures live'[i] == live[i] && live'[i].block < |blocks| && live'[i].block != p.block {
      assert Simulates(w, blocks, depth, live[i], known || i < |live| - 1);
    }
    forall e | e in ended ensures e.path.block < |blocks| && e.path.block != p.block {
      assert Simulates(w, blocks, depth, e.path, e.kind != Unresolved);
    }
    forall i, e | 0 <= i < |live'| && e in ended ensures live'[i].block != e.path.block {
      if i >= |stack| { assert live'[i] == news[i - |stack|]; }
    }
    forall i, j | 0 <= i < j < |live'| ensures live'[i].block != live'[j].block {
      if j >= |stack| {
        assert live'[j] == news[j - |stack|];
        if i >= |stack| { assert live'[i] == news[i - |stack|]; }
      }
    }
  }

  lemma AccountedGrafted(blocks: seq<Block>, stack: seq<Path>, p: Path, ended: set<Ended>,
                         after: seq<Block>, news: seq<Path>, b: nat)
    requires forall b :: 0 <= b < |blocks| && blocks[b].Leaf() ==> Accounted(b, stack + [p], ended)
    requires |blocks| <= |after| && forall b :: 0 <= b < |blocks| && b != p.block ==> after[b] == blocks[b]
    requires NewLeaves(blocks, after, p.block, news) && b < |after| && after[b].Leaf()
    ensures Accounted(b, stack + news, ended)
  {
    var live, live' := stack + [p], stack + news;
    if b >= |blocks| || b == p.block {
      var i :| 0 <= i < |news| && news[i].block == b;
      assert live'[|stack| + i].block == b;
    } else {
      assert Accounted(b, live, ended);
      if i :| 0 <= i < |live| && live[i].block == b {
        assert i < |stack| && live'[i].block == b;
      }
    }
  }

  /** Rewriting the context of the current path in place. */
  lemma CurrentInv(w: World, blocks: seq<Block>, depth: Depths, stack: seq<Path>, p: Path, known: bool,
                   ended: set<Ended>, q: Path)
    requires Inv(w, blocks, depth, stack + [p], known, ended) && q.block == p.block < |blocks| && p.block in depth
    requires forall s :: Final(w, blocks, s).0 == p.block ==>
      Agrees(w, depth[p.block], q, true, Final(w, blocks, s).1, s)
    ensures Inv(w, blocks, depth, stack + [q], true, ended)
  {
    assert (stack + [p])[|stack|] == p;
    assert Simulates(w, blocks, depth, [q][0], true);
    GraftInv(w, blocks, depth, stack, p, known, ended, blocks, depth, [q], true);
  }

  /** Emitting a block below the current one and moving into it. */
  lemma LinkInv(w: World, blocks: seq<Block>, depth: Depths, stack: seq<Path>, p: Path, ended: set<Ended>,
                body: seq<Action>, d: nat, q: Path, known: bool)
    requires Inv(w, blocks, depth, stack + [p], true, ended) && q.block == |blocks| && p.block < |blocks|
    requires forall s :: Final(w, blocks, s).0 == p.block ==>
      Agrees(w, d, q, known, RunBody(body, Final(w, blocks, s).1), s)
    ensures Inv(w, Link(blocks, p.block, body), depth[|blocks| := d], stack + [q], known, ended)
    ensures forall s :: Final(w, Link(blocks, p.block, body), s).0 == |blocks| ==>
      Final(w, blocks, s).0 == p.block
        && Final(w, Link(blocks, p.block, body), s).1 == RunBody(body, Final(w, blocks, s).1)
  {
    var after, depth' := Link(blocks, p.block, body), depth[|blocks| := d];
    assert (stack + [p])[|stack|] == p;
    LinkGrafts(blocks, p.block, body);
    forall s | Final(w, after, s).0 == |blocks|
      ensures Final(w, blocks, s).0 == p.block && Final(w, after, s).1 == RunBody(body, Final(w, blocks, s).1)
    {
      FinalGrafted(w, blocks, after, p.block, s);
    }
    assert Simulates(w, after, depth', [q][0], known);
    GraftInv(w, blocks, depth, stack, p, true, ended, after, depth', [q], known);
  }

  /** Forking at the end of the current block: the second path is entered first. */
  lemma ForkInv(w: World, blocks: seq<Block>, depth: Depths, stack: seq<Path>, p: Path, known: bool, ended: set<Ended>,
                cond: Term, no: Path, yes: Path)
    requires Inv(w, blocks, depth, stack + [p], known, ended) && p.block < |blocks| && p.block in depth
    requires yes.block == |blocks| && no.block == |blocks| + 1
    requires forall s :: Final(w, blocks, s).0 == p.block ==>
      Agrees(w, depth[p.block], if True(cond, Final(w, blocks, s).1) then yes else no, true, Final(w, blocks, s).1, s)
    ensures Inv(w, Fork(blocks, p.block, cond, [], []),
                depth[|blocks| := depth[p.block]][|blocks| + 1 := depth[p.block]], stack + [no, yes], true, ended)
  {
    hide Agrees, True;
    var after := Fork(blocks, p.block, cond, [], []);
    var depth' := depth[|blocks| := depth[p.block]][|blocks| + 1 := depth[p.block]];
    assert (stack + [p])[|stack|] == p;
    ForkGrafts(blocks, p.block, cond, [], []);
    forall i, s | 0 <= i < 2 && Final(w, after, s).0 == [no, yes][i].block
      ensures Agrees(w, depth'[[no, yes][i].block], [no, yes][i], true, Final(w, after, s).1, s)
    {
      FinalGrafted(w, blocks, after, p.block, s);
    }
    NewPair(blocks, after, p.block, no, yes);
    GraftInv(w, blocks, depth, stack, p, known, ended, after, depth', [no, yes], true);
  }

  lemma NewPair(blocks: seq<Block>, after: seq<Block>, at: nat, no: Path, yes: Path)
    requires |after| >= |blocks| + 2 && at < |blocks| && !after[at].Leaf()
    requires yes.block == |after| - 2 && no.block == |after| - 1
    requires after[|after| - 1].exit == Open && after[|after| - 2].exit == Open
    requires forall b :: |blocks| <= b < |after| - 2 ==> !after[b].Leaf()
    ensures NewLeaves(blocks, after, at, [no, yes])
  {
    assert [no, yes][0].block == |after| - 1 && [no, yes][1].block == |after| - 2;
  }

  /** A block, a fork at its end, and one more assignment on each side. */
  lemma LinkForkInv(w: World, blocks: seq<Block>, depth: Depths, stack: seq<Path>, p: Path, ended: set<Ended>,
                    body: seq<Action>, cond: Term, onYes: seq<Action>, onNo: seq<Action>, d: nat, no: Path, yes: Path)
    requires Inv(w, blocks, depth, stack + [p], true, ended) && p.block < |blocks|
    requires yes.block == |blocks| + 1 && no.block == |blocks| + 2
    requires forall s :: Final(w, blocks, s).0 == p.block ==>
      var c := RunBody(body, Final(w, blocks, s).1);
      if True(cond, c) then Agrees(w, d, yes, true, RunBody(onYes, c), s)
        else Agrees(w, d, no, true, RunBody(onNo, c), s)
    ensures Inv(w, Fork(Link(blocks, p.block, body), |blocks|, cond, onYes, onNo),
                depth[|blocks| + 1 := d][|blocks| + 2 := d], stack + [no, yes], true, ended)
  {
    hide Agrees, True;
    var after := Fork(Link(blocks, p.block, body), |blocks|, cond, onYes, onNo);
    var depth' := depth[|blocks| + 1 := d][|blocks| + 2 := d];
    assert (stack + [p])[|stack|] == p;
    LinkForkGrafts(blocks, p.block, body, cond, onYes, onNo);
    forall i, s | 0 <= i < 2 && Final(w, after, s).0 == [no, yes][i].block
      ensures Agrees(w, depth'[[no, yes][i].block], [no, yes][i], true, Final(w, after, s).1, s)
    {
      FinalGrafted(w, blocks, after, p.block, s);
    }
    NewPair(blocks, after, p.block, no, yes);
    GraftInv(w, blocks, depth, stack, p, true, ended, after, depth', [no, yes], true);
  }

  /** Ending the current path. */
  lemma EndInv(w: World, blocks: seq<Block>, depth: Depths, stack: seq<Path>, p: Path, known: bool, ended: set<Ended>,
               exit: Exit, kind: Kind)
    requires Inv(w, blocks, depth, stack + [p], known, ended) && p.block < |blocks|
    requires known || kind == Unresolved
    requires match kind
      case Returned => exit == Return && p.pc == 0
      case Unlifted => exit == Trap && p.pc != 0
      case _ => exit == Open && p.pc != 0
    ensures Inv(w, Seal(blocks, p.block, exit), depth, stack, true, ended + {Ended(p, kind)})
  {
    var live, after, ended' := stack + [p], Seal(blocks, p.block, exit), ended + {Ended(p, kind)};
    assert live[|stack|] == p;
    SealGrafts(blocks, p.block, exit);
    hide Simulates;
    forall i | 0 <= i < |stack|
      ensures Simulates(w, after, depth, stack[i], true) && stack[i].block < |after|
        && after[stack[i].block].exit == Open
    {
      assert live[i] == stack[i];
      SimulatesSealed(w, blocks, depth, p.block, exit, live[i], true);
    }
    forall e | e in ended'
      ensures Simulates(w, after, depth, e.path, e.kind != Unresolved) && e.path.block < |after| && EndedAt(after, e)
    {
      if e in ended {
        SimulatesSealed(w, blocks, depth, p.block, exit, e.path, e.kind != Unresolved);
      } else {
        assert Simulates(w, blocks, depth, live[|stack|], known);
        SimulatesWeaker(w, blocks, depth, p, known, kind != Unresolved);
        SimulatesSealed(w, blocks, depth, p.block, exit, p, kind != Unresolved);
      }
    }
    assert Separate(stack, ended') by { assert forall i :: 0 <= i < |stack| ==> live[i] == stack[i]; }
    forall b | 0 <= b < |after| && after[b].Leaf() ensures Accounted(b, stack, ended') {
      AccountedEnd(stack, p, ended, kind, b);
    }
  }

  lemma SimulatesWeaker(w: World, blocks: seq<Block>, depth: Depths, q: Path, k: bool, k': bool)
    requires |blocks| > 0 && Forward(blocks) && Simulates(w, blocks, depth, q, k) && (k' ==> k)
    ensures Simulates(w, blocks, depth, q, k')
  {
  }

  lemma SimulatesSealed(w: World, blocks: seq<Block>, depth: Depths, at: nat, exit: Exit, q: Path, pcKnown: bool)
    requires |blocks| > 0 && Forward(blocks) && at < |blocks| && blocks[at].Leaf() && !exit.Jump? && !exit.Branch?
    requires Simulates(w, blocks, depth, q, pcKnown)
    ensures Forward(Seal(blocks, at, exit)) && Simulates(w, Seal(blocks, at, exit), depth, q, pcKnown)
    ensures q.block < |Seal(blocks, at, exit)|
  {
    SealGrafts(blocks, at, exit);
    forall s ensures Final(w, Seal(blocks, at, exit), s) == Final(w, blocks, s) {
      FinalGrafted(w, blocks, Seal(blocks, at, exit), at, s);
    }
  }

  lemma AccountedEnd(stack: seq<Path>, p: Path, ended: set<Ended>, kind: Kind, b: nat)
    requires Accounted(b, stack + [p], ended)
    ensures Accounted(b, stack, ended + {Ended(p, kind)})
  {
    var live, ended' := stack + [p], ended + {Ended(p, kind)};
    if i :| 0 <= i < |live| && live[i].block == b {
      if i < |stack| {
        assert stack[i].block == b;
      } else {
        assert Ended(p, kind) in ended';
      }
    } else {
      var e :| e in ended && e.path.block == b;
      assert e in ended';
    }
  }

  // ------------------------------------------------------- disjointness

  ghost predicate Disjoint(cs: seq<Term>, ds: seq<Term>) {
    forall s :: !(Holds(cs, s) && Holds(ds, s))
  }

  ghost predicate Apart(live: seq<Path>, ended: set<Ended>) {
    && (forall i, j :: 0 <= i < j < |live| ==> Disjoint(live[i].constraints, live[j].constraints))
    && (forall i, e :: 0 <= i < |live| && e in ended ==> Disjoint(live[i].constraints, e.path.constraints))
    && (forall e, e' :: e in ended && e' in ended && e != e' ==> Disjoint(e.path.constraints, e'.path.constraints))
  }

  ghost predicate Refines(p: Path, q: Path) {
    forall s :: Holds(q.constraints, s) ==> Holds(p.constraints, s)
  }

  lemma ApartOne(stack: seq<Path>, p: Path, ended: set<Ended>, q: Path)
    requires Apart(stack + [p], ended) && Refines(p, q)
    ensures Apart(stack + [q], ended)
  {
    var live, live' := stack + [p], stack + [q];
    assert live[|stack|] == p && live'[|stack|] == q;
    forall i, j | 0 <= i < j < |live'| ensures Disjoint(live'[i].constraints, live'[j].constraints) {
      assert Disjoint(live[i].constraints, live[j].constraints);
    }
    forall i, e | 0 <= i < |live'| && e in ended ensures Disjoint(live'[i].constraints, e.path.constraints) {
      assert Disjoint(live[i].constraints, e.path.constraints);
    }
  }

  lemma ApartTwo(stack: seq<Path>, p: Path, ended: set<Ended>, q: Path, r: Path)
    requires Apart(stack + [p], ended) && Refines(p, q) && Refines(p, r) && Disjoint(q.constraints, r.constraints)
    ensures Apart(stack + [q, r], ended)
  {
    var live, live' := stack + [p], stack + [q, r];
    assert live[|stack|] == p && live'[|stack|] == q && live'[|stack| + 1] == r;
    forall i, j | 0 <= i < j < |live'| ensures Disjoint(live'[i].constraints, live'[j].constraints) {
      if i < |stack| { assert Disjoint(live[i].constraints, live[if j < |stack| then j else |stack|].constraints); }
    }
    forall i, e | 0 <= i < |live'| && e in ended ensures Disjoint(live'[i].constraints, e.path.constraints) {
      assert Disjoint(live[if i < |stack| then i else |stack|].constraints, e.path.constraints);
    }
  }

  lemma ApartEnd(stack: seq<Path>, p: Path, ended: set<Ended>, kind: Kind)
    requires Apart(stack + [p], ended)
    ensures Apart(stack, ended + {Ended(p, kind)})
  {
    var live := stack + [p];
    assert live[|stack|] == p;
    forall i, j | 0 <= i < j < |stack| ensures Disjoint(stack[i].constraints, stack[j].constraints) {
      assert Disjoint(live[i].constraints, live[j].constraints);
    }
    forall i | 0 <= i < |stack| ensures Disjoint(stack[i].constraints, p.constraints) {
      assert Disjoint(live[i].constraints, live[|stack|].constraints);
    }
    forall i, e | 0 <= i < |stack| && e in ended ensures Disjoint(stack[i].constraints, e.path.constraints) {
      assert Disjoint(live[i].constraints, e.path.constraints);
    }
    forall e | e in ended ensures Disjoint(p.constraints, e.path.constraints) {
      assert Disjoint(live[|stack|].constraints, e.path.constraints);
    }
  }

  lemma ApartPair(live: seq<Path>, ended: set<Ended>, i: nat, j: nat)
    requires Apart(live, ended) && i < |live| && j < |live| && i != j
    ensures Disjoint(live[i].constraints, live[j].constraints)
  {
    assert Disjoint(live[if i < j then i else j].constraints, live[if i < j then j else i].constraints);
  }

  /** With disjoint constraints, a path's constraints hold on exactly the inputs that the
      emitted code leads to it. */
  lemma ConstraintsSelectThePath(w: World, blocks: seq<Block>, depth: Depths, live: seq<Path>, ended: set<Ended>,
                                 i: nat, s: Assignment)
    requires Inv(w, blocks, depth, live, true, ended) && Apart(live, ended) && i < |live|
    ensures Holds(live[i].constraints, s) <==> Final(w, blocks, s).0 == live[i].block
  {
    EveryInputHasItsLeaf(w, blocks, depth, live, true, ended, s);
    var b := Final(w, blocks, s).0;
    if Holds(live[i].constraints, s) {
      forall j | 0 <= j < |live| && j != i ensures live[j].block != b {
        ApartPair(live, ended, i, j);
      }
      forall e | e in ended ensures e.path.block != b {
        assert Disjoint(live[i].constraints, e.path.constraints);
      }
    }
  }
}
