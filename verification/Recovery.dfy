/** Control-flow recovery: the exploration loop of src/arch/arch.cpp in its two recovery
    modes, over an arbitrary lifter. */
module Recovery {
  import opened Bits
  import opened Wrappers

  /** What lifting an instruction leads to.  Direct jumps, solved branches and solved indirect
      jumps continue; branches, two-target jumps and conditional moves may fork. */
  datatype Outcome =
    | Undecodable
    | Unliftable
    | Continue(next: nat)
    | Fork(taken: nat, saved: nat)
    | Unresolved
  {
    predicate Lifted() { Continue? || Fork? || Unresolved? }

    predicate InRange() {
      match this
      case Continue(n) => n < TWO64
      case Fork(t, s) => t < TWO64 && s < TWO64
      case _ => true
    }

    function Targets(): set<nat> {
      match this
      case Continue(n) => {n}
      case Fork(t, s) => {t, s}
      case _ => {}
    }
  }

  /** Numbers below `n` are at most `n` many. */
  lemma {:induction false} BoundedSize(s: set<nat>, n: nat)
    requires forall x :: x in s ==> x < n
    ensures |s| <= n
  {
    if n == 0 {
      assert s == {};
    } else {
      BoundedSize(s - {n - 1}, n - 1);
      assert s <= (s - {n - 1}) + {n - 1};
      if n - 1 in s { assert |s| == |s - {n - 1}| + 1; } else { assert s - {n - 1} == s; }
    }
  }

  // ------------------------------------------------ merging by program counter

  /** How far a run has come: the block recorded for a program counter, the program counter of
      every recorded block, where each recorded instruction led, where lifting failed, and the
      program counters still to be taken up, the current one last. */
  datatype Progress = Progress(cfg: map<nat, nat>, blocks: seq<nat>, reached: map<nat, set<nat>>,
                               failed: set<nat>, waiting: seq<nat>, rounds: nat)
  {
    /** A program counter that was reached is done with or still to be taken up. */
    predicate Handled(pc: nat) { pc == 0 || pc in cfg || pc in failed || pc in waiting }

    /** Wherever recorded code leads is handled. */
    ghost predicate Closed() {
      reached.Keys == cfg.Keys && forall p, t :: p in reached && t in reached[p] ==> Handled(t)
    }

    ghost predicate Inv() {
      && (forall t :: t in waiting ==> t < TWO64)
      && OneBlockEach(cfg, blocks)
      && Closed()
      && rounds + |waiting| <= 2 * |cfg| + 1
    }

    /** A path ends; the others still wait.  `gaveUp` is where lifting failed, if it did. */
    function Ended(others: seq<nat>, gaveUp: set<nat>): Progress {
      this.(failed := failed + gaveUp, waiting := others, rounds := rounds + 1)
    }

    /** A program counter gets a block; its code leads to `targets`, to be taken up. */
    function Recorded(pc: nat, others: seq<nat>, targets: set<nat>, news: seq<nat>): Progress {
      Progress(cfg[pc := |blocks|], blocks + [pc], reached[pc := targets], failed, others + news, rounds + 1)
    }
  }

  /** Recorded program counters and recorded blocks pair up one to one. */
  ghost predicate OneBlockEach(cfg: map<nat, nat>, blocks: seq<nat>) {
    && (forall p :: p in cfg ==> 0 < p < TWO64 && cfg[p] < |blocks| && blocks[cfg[p]] == p)
    && (forall i :: 0 <= i < |blocks| ==> blocks[i] in cfg && cfg[blocks[i]] == i)
  }

  /** Everything handled in one state is handled in the other. */
  ghost predicate Inherits(g: Progress, g': Progress) {
    forall t :: g.Handled(t) ==> g'.Handled(t)
  }

  /** Ending a path at a program counter that is handled without it loses nothing. */
  lemma EndInv(g: Progress, pc: nat, others: seq<nat>, gaveUp: set<nat>)
    requires g.Inv() && g.waiting == others + [pc] && g.Ended(others, gaveUp).Handled(pc)
    ensures g.Ended(others, gaveUp).Inv() && Inherits(g, g.Ended(others, gaveUp))
  {
    var g' := g.Ended(others, gaveUp);
    forall t | g.Handled(t) ensures g'.Handled(t) {
    }
    assert g'.Closed();
    hide Progress.Closed, Progress.Handled, OneBlockEach;
    forall t | t in others ensures t < TWO64 { assert t in others + [pc]; }
  }

  lemma RecordInherits(g: Progress, pc: nat, others: seq<nat>, targets: set<nat>, news: seq<nat>)
    requires g.Closed() && g.waiting == others + [pc] && forall t :: t in targets ==> t in news
    ensures g.Recorded(pc, others, targets, news).Closed() && Inherits(g, g.Recorded(pc, others, targets, news))
  {
    var g' := g.Recorded(pc, others, targets, news);
    forall t | g.Handled(t) ensures g'.Handled(t) {
      if t in others { assert t in others + news; }
    }
    forall p, t | p in g'.reached && t in g'.reached[p] ensures g'.Handled(t) {
      if p == pc { assert t in news && t in others + news; } else { assert g.Handled(t); }
    }
  }

  /** A program counter that gets a block need not wait any more; what its code leads to does. */
  lemma RecordInv(g: Progress, pc: nat, others: seq<nat>, targets: set<nat>, news: seq<nat>)
    requires g.Inv() && g.waiting == others + [pc] && pc != 0 && pc !in g.cfg
    requires |news| <= 2 && (forall t :: t in targets ==> t in news) && (forall t :: t in news ==> t < TWO64)
    ensures var g' := g.Recorded(pc, others, targets, news);
      g'.Inv() && Inherits(g, g') && |g'.cfg| == |g.cfg| + 1
  {
    RecordInherits(g, pc, others, targets, news);
    hide Progress.Closed, Inherits, Progress.Handled;
    assert pc in others + [pc];
    forall t | t in others ensures t < TWO64 { assert t in others + [pc]; }
  }

  class CfgRecovery {
    var pc: nat
    var cfg: map<nat, nat>        // the block recorded for a program counter
    var blocks: seq<nat>          // the program counter of every recorded block
    var unexplored: seq<nat>
    var running: bool
    var rounds: nat
    ghost var failed: set<nat>              // decoding or lifting failed there
    ghost var reached: map<nat, set<nat>>   // where each recorded instruction led

    constructor (entry: nat)
      requires entry < TWO64
      ensures Valid() && cfg == map[] && reached == map[] && failed == {} && rounds == 0
      ensures running && Now().Handled(entry)
    {
      pc, cfg, blocks, unexplored, running, rounds := entry, map[], [], [], true, 0;
      failed, reached := {}, map[];
    }

    /** The program counters still to be taken up: the saved ones and the current one. */
    ghost function Waiting(): seq<nat>
      reads this
    {
      if running then unexplored + [pc] else unexplored
    }

    ghost function Now(): Progress
      reads this
    {
      Progress(cfg, blocks, reached, failed, Waiting(), rounds)
    }

    ghost predicate Valid()
      reads this
    {
      Now().Inv() && (running || unexplored == [])
    }

    ghost function Unlifted(): int
      reads this
    {
      TWO64 - |cfg|
    }

    /** Takes up the most recently saved path, or stops when there is none. */
    method NextPath()
      requires running
      modifies `pc, `unexplored, `running
      ensures Waiting() == old(unexplored) && (running || unexplored == [])
    {
      if unexplored == [] {
        running := false;
      } else {
        var n := |unexplored| - 1;
        pc, unexplored := unexplored[n], unexplored[..n];
      }
    }

    /** The current path ends. */
    method EndPath(ghost gaveUp: set<nat>)
      requires Valid() && running && (pc == 0 || pc in cfg || pc in gaveUp)
      modifies this
      ensures Valid() && rounds == old(rounds) + 1 && cfg == old(cfg) && Waiting() == old(unexplored)
      ensures failed == old(failed) + gaveUp && reached == old(reached) && blocks == old(blocks)
      ensures Inherits(old(Now()), Now())
    {
      hide Progress.Inv, Inherits;
      EndInv(Now(), pc, unexplored, gaveUp);
      NextPath();
      failed, rounds := failed + gaveUp, rounds + 1;
    }

    /** One round.  Either a program counter that had no block gets one, or a path ends. */
    method Round(outcome: Outcome)
      requires Valid() && running && outcome.InRange()
      modifies this
      ensures Valid() && rounds == old(rounds) + 1
      ensures Inherits(old(Now()), Now())
      ensures forall p :: p in old(cfg) ==> p in cfg && cfg[p] == old(cfg)[p]
      ensures |cfg| > |old(cfg)| || (cfg == old(cfg) && |Waiting()| < |old(Waiting())|)
      ensures if old(pc) != 0 && old(pc) !in old(cfg) && outcome.Lifted()
        then cfg == old(cfg)[old(pc) := |old(blocks)|] && reached == old(reached)[old(pc) := outcome.Targets()]
          && blocks == old(blocks) + [old(pc)]
        else cfg == old(cfg) && reached == old(reached) && blocks == old(blocks)
      ensures failed == old(failed) + if old(pc) == 0 || old(pc) in old(cfg) || outcome.Lifted() then {} else {old(pc)}
      ensures match outcome
        case Continue(next) => old(pc) != 0 && old(pc) !in old(cfg) ==>
          running && pc == next && unexplored == old(unexplored)
        case Fork(taken, saved) => old(pc) != 0 && old(pc) !in old(cfg) ==>
          running && pc == taken && unexplored == old(unexplored) + [saved]
        case _ => Waiting() == old(unexplored)
    {
      hide Progress.Inv, Inherits;
      if pc == 0 || pc in cfg {
        EndPath({});
      } else if !outcome.Lifted() {
        EndPath({pc});
      } else {
        Record(outcome);
      }
    }

    method Record(outcome: Outcome)
      requires Valid() && running && pc != 0 && pc !in cfg
      requires outcome.InRange() && outcome.Lifted()
      modifies this
      ensures Valid() && rounds == old(rounds) + 1 && failed == old(failed)
      ensures cfg == old(cfg)[old(pc) := |old(blocks)|] && |cfg| == |old(cfg)| + 1
      ensures reached == old(reached)[old(pc) := outcome.Targets()] && blocks == old(blocks) + [old(pc)]
      ensures outcome.Continue? ==> running && pc == outcome.next && unexplored == old(unexplored)
      ensures outcome.Fork? ==> running && pc == outcome.taken && unexplored == old(unexplored) + [outcome.saved]
      ensures outcome.Unresolved? ==> Waiting() == old(unexplored)
      ensures Inherits(old(Now()), Now())
    {
      hide Progress.Inv, Inherits, Progress.Handled;
      ghost var g := Now();
      var current := pc;
      ghost var news;
      match outcome {
        case Continue(next) =>
          pc, news := next, [next];
        case Fork(taken, saved) =>
          news := [saved, taken];
          assert unexplored + [saved, taken] == unexplored + [saved] + [taken];
          unexplored := unexplored + [saved];
          pc := taken;
        case Unresolved =>
          news := [];
          assert unexplored + [] == unexplored;
          NextPath();
      }
      RecordInv(g, current, old(unexplored), outcome.Targets(), news);
      reached, rounds := reached[old(pc) := outcome.Targets()], rounds + 1;
      cfg, blocks := cfg[current := |blocks|], blocks + [current];
      assert Now() == g.Recorded(current, old(unexplored), outcome.Targets(), news);
    }
  }

  /** Lifting leads from a program counter to exactly these. */
  ghost predicate LeadsTo(outcome: Outcome, targets: set<nat>) {
    match outcome
    case Continue(next) => targets == {next}
    case Fork(taken, saved) => targets == {taken, saved}
    case Unresolved => targets == {}
    case _ => false
  }

  /** The whole run terminates, for every lifter, after at most two rounds per recorded
      program counter and one more; no program counter gets two blocks, and wherever recorded
      code leads there is a recorded block, the function's end, or a failure to lift.  What was
      recorded and what failed is what the lifter said in some round. */
  method RecoverCfg(entry: nat, lift: (nat, nat) -> Outcome) returns (c: CfgRecovery)
    requires entry < TWO64
    requires forall p, n :: match lift(p, n)
      case Continue(next) => next < TWO64
      case Fork(taken, saved) => taken < TWO64 && saved < TWO64
      case _ => true
    ensures c.Valid() && !c.running && c.rounds <= 2 * |c.cfg| + 1
    ensures OneBlockEach(c.cfg, c.blocks)
    ensures c.Now().waiting == [] && c.reached.Keys == c.cfg.Keys
    ensures entry == 0 || entry in c.cfg || entry in c.failed
    ensures forall p, t :: p in c.cfg && t in c.reached[p] ==> t == 0 || t in c.cfg || t in c.failed
    ensures forall p :: p in c.cfg ==> exists n: nat :: n < c.rounds && LeadsTo(lift(p, n), c.reached[p])
    ensures forall t :: t in c.failed ==>
      exists n: nat :: n < c.rounds && (lift(t, n).Undecodable? || lift(t, n).Unliftable?)
    ensures entry != 0 && (forall p, n :: !lift(p, n).Undecodable? && !lift(p, n).Unliftable?) ==>
      entry in c.cfg && c.failed == {}
  {
    hide Explained, Progress.Inv, Progress.Closed, Progress.Handled, OneBlockEach;
    c := new CfgRecovery(entry);
    ExplainedFirst(c.Now(), lift);
    while c.running
      invariant c.Valid() && fresh(c) && c.Now().Handled(entry)
      invariant Explained(c.Now(), lift)
      decreases c.Unlifted(), |c.Waiting()|
    {
      hide Inherits;
      ghost var g, pc, n := c.Now(), c.pc, c.rounds;
      c.Round(lift(c.pc, c.rounds));
      StillHandled(g, c.Now(), entry);
      ExplainedNext(g, c.Now(), pc, n, lift);
      Bounded(c.Now());
    }
    Finished(c.Now(), entry, lift);
  }

  lemma Bounded(g: Progress)
    requires g.Inv()
    ensures |g.cfg| <= TWO64
  {
    BoundedSize(g.cfg.Keys, TWO64);
  }

  lemma ExplainedFirst(g: Progress, lift: (nat, nat) -> Outcome)
    requires g.cfg == map[] && g.reached == map[] && g.failed == {}
    ensures Explained(g, lift)
  {
  }

  /** When nothing waits any more. */
  lemma Finished(g: Progress, entry: nat, lift: (nat, nat) -> Outcome)
    requires g.Inv() && g.waiting == [] && g.Handled(entry) && Explained(g, lift)
    ensures OneBlockEach(g.cfg, g.blocks) && g.rounds <= 2 * |g.cfg| + 1
    ensures entry == 0 || entry in g.cfg || entry in g.failed
    ensures g.reached.Keys == g.cfg.Keys
    ensures forall p, t :: p in g.cfg && t in g.reached[p] ==> t == 0 || t in g.cfg || t in g.failed
    ensures forall p :: p in g.cfg ==> exists n: nat :: n < g.rounds && LeadsTo(lift(p, n), g.reached[p])
    ensures forall t :: t in g.failed ==>
      exists n: nat :: n < g.rounds && (lift(t, n).Undecodable? || lift(t, n).Unliftable?)
    ensures (forall p, n :: !lift(p, n).Undecodable? && !lift(p, n).Unliftable?) ==> g.failed == {}
  {
    hide OneBlockEach, LeadsTo;
    forall p, t | p in g.cfg && t in g.reached[p] ensures t == 0 || t in g.cfg || t in g.failed {
      assert p in g.reached && g.Handled(t);
    }
  }

  /** What was recorded and what failed is what the lifter said in some round before. */
  ghost predicate Explained(g: Progress, lift: (nat, nat) -> Outcome) {
    && g.reached.Keys == g.cfg.Keys
    && (forall p :: p in g.cfg ==> exists n: nat :: n < g.rounds && LeadsTo(lift(p, n), g.reached[p]))
    && (forall t :: t in g.failed ==>
          exists n: nat :: n < g.rounds && (lift(t, n).Undecodable? || lift(t, n).Unliftable?))
  }

  lemma ExplainedNext(g: Progress, g': Progress, pc: nat, n: nat, lift: (nat, nat) -> Outcome)
    requires Explained(g, lift) && n == g.rounds && g'.rounds == n + 1
    requires if pc != 0 && pc !in g.cfg && lift(pc, n).Lifted()
      then g'.cfg == g.cfg[pc := |g.blocks|] && g'.reached == g.reached[pc := lift(pc, n).Targets()]
      else g'.cfg == g.cfg && g'.reached == g.reached
    requires g'.failed == g.failed + if pc == 0 || pc in g.cfg || lift(pc, n).Lifted() then {} else {pc}
    ensures Explained(g', lift)
  {
    hide Outcome.Targets;
    forall p | p in g'.cfg ensures exists m: nat :: m < g'.rounds && LeadsTo(lift(p, m), g'.reached[p]) {
      if p !in g.cfg {
        Leads(lift(pc, n));
        assert LeadsTo(lift(pc, n), g'.reached[pc]);
      } else {
        var m: nat :| m < n && LeadsTo(lift(p, m), g.reached[p]);
        assert m < g'.rounds;
      }
    }
    forall t | t in g'.failed
      ensures exists m: nat :: m < g'.rounds && (lift(t, m).Undecodable? || lift(t, m).Unliftable?)
    {
      if t in g.failed {
        var m: nat :| m < n && (lift(t, m).Undecodable? || lift(t, m).Unliftable?);
        assert m < g'.rounds;
      } else {
        assert lift(t, n).Undecodable? || lift(t, n).Unliftable?;
      }
    }
  }

  lemma Leads(outcome: Outcome)
    requires outcome.Lifted()
    ensures LeadsTo(outcome, outcome.Targets())
  {
  }

  lemma StillHandled(g: Progress, g': Progress, pc: nat)
    requires Inherits(g, g') && g.Handled(pc)
    ensures g'.Handled(pc)
  {
  }

  // ------------------------------------------------ specialising by path

  /** The emitted blocks.  Block 0 is the entry; every other block hangs below the block that
      was open when it was made.  `tags` gives the virtual program counter a block was recorded
      under, `closings` the edges back to recorded blocks with the counter that matched. */
  datatype Graph = Graph(parents: seq<nat>, tags: seq<Option<nat>>, closings: seq<Closing>)

  datatype Closing = Closing(source: nat, target: nat, vpc: nat)

  ghost predicate IsTree(g: Graph) {
    && 0 < |g.parents| == |g.tags|
    && forall b :: 0 < b < |g.parents| ==> g.parents[b] < b
  }

  ghost predicate Ancestor(g: Graph, a: nat, b: nat)
    requires IsTree(g)
    decreases b
  {
    a == b || (0 < b < |g.parents| && Ancestor(g, a, g.parents[b]))
  }

  /** The block nearest the entry, on the way to `b`, recorded under `vpc`. */
  ghost function FirstTagged(g: Graph, vpc: nat, b: nat): Option<nat>
    requires IsTree(g) && b < |g.parents|
    decreases b
  {
    var above := if b == 0 then None else FirstTagged(g, vpc, g.parents[b]);
    if above.Some? then above else if g.tags[b] == Some(vpc) then Some(b) else None
  }

  lemma {:induction false} FirstTaggedIsAncestor(g: Graph, vpc: nat, b: nat)
    requires IsTree(g) && b < |g.parents| && FirstTagged(g, vpc, b).Some?
    ensures Ancestor(g, FirstTagged(g, vpc, b).value, b)
    ensures FirstTagged(g, vpc, b).value < |g.tags| && g.tags[FirstTagged(g, vpc, b).value] == Some(vpc)
  {
    if b != 0 && FirstTagged(g, vpc, g.parents[b]).Some? {
      FirstTaggedIsAncestor(g, vpc, g.parents[b]);
    }
  }

  lemma {:induction false} AncestorTransitive(g: Graph, a: nat, b: nat, c: nat)
    requires IsTree(g) && Ancestor(g, a, b) && Ancestor(g, b, c)
    ensures Ancestor(g, a, c)
    decreases c
  {
    if b != c { AncestorTransitive(g, a, b, g.parents[c]); }
  }

  /** The graph before a block was added, or before an open block was tagged, seen from blocks
      that are not affected. */
  ghost predicate Extends(g: Graph, g': Graph, n: nat)
    requires IsTree(g) && IsTree(g')
  {
    && n <= |g.parents| <= |g'.parents|
    && (forall b :: 0 <= b < n ==> g'.parents[b] == g.parents[b] && g'.tags[b] == g.tags[b])
  }

  lemma {:induction false} ChainStable(g: Graph, g': Graph, n: nat, vpc: nat, b: nat)
    requires IsTree(g) && IsTree(g') && Extends(g, g', n) && b < n
    ensures FirstTagged(g', vpc, b) == FirstTagged(g, vpc, b)
    decreases b
  {
    if b != 0 { ChainStable(g, g', n, vpc, g.parents[b]); }
  }

  /** PATH is exactly the first-recorded table of the chain above the insertion block. */
  ghost predicate IsPathOf(g: Graph, path: map<nat, nat>, at: nat) {
    && IsTree(g) && at < |g.parents|
    && forall v :: FirstTagged(g, v, at) == (if v in path then Some(path[v]) else None)
  }

  lemma PathStable(g: Graph, g': Graph, n: nat, path: map<nat, nat>, at: nat)
    requires IsPathOf(g, path, at) && IsTree(g') && Extends(g, g', n) && at < n
    ensures IsPathOf(g', path, at)
  {
    forall v ensures FirstTagged(g', v, at) == FirstTagged(g, v, at) {
      ChainStable(g, g', n, v, at);
    }
  }

  /** A new block below `parent`, recorded under the tag if there is one. */
  function AddBlock(g: Graph, parent: nat, tag: Option<nat>): Graph {
    g.(parents := g.parents + [parent], tags := g.tags + [tag])
  }

  /** Every closing edge goes to the ancestor that was first recorded under its counter. */
  ghost predicate ClosingsOk(g: Graph) {
    && IsTree(g)
    && forall c :: c in g.closings ==> c.source < |g.parents| && FirstTagged(g, c.vpc, c.source) == Some(c.target)
  }

  lemma ClosingsStable(g: Graph, g': Graph)
    requires ClosingsOk(g) && IsTree(g') && Extends(g, g', |g.parents|) && g'.closings == g.closings
    ensures ClosingsOk(g')
  {
    forall c | c in g'.closings ensures FirstTagged(g', c.vpc, c.source) == Some(c.target) {
      ChainStable(g, g', |g.parents|, c.vpc, c.source);
    }
  }

  /** An unrecorded block below `at` sees what `at` sees; recording it, unless its counter is
      on the path already, keeps the table exact. */
  lemma AddBlockSees(g: Graph, path: map<nat, nat>, at: nat, tag: Option<nat>)
    requires IsPathOf(g, path, at)
    ensures IsTree(AddBlock(g, at, tag)) && Extends(g, AddBlock(g, at, tag), |g.parents|)
    ensures IsPathOf(AddBlock(g, at, tag), Emplace(path, tag, |g.parents|), |g.parents|)
  {
    var g', b := AddBlock(g, at, tag), |g.parents|;
    var path' := Emplace(path, tag, b);
    forall v ensures FirstTagged(g', v, b) == (if v in path' then Some(path'[v]) else None) {
      ChainStable(g, g', b, v, at);
      assert FirstTagged(g, v, at) == (if v in path then Some(path[v]) else None);
    }
  }

  /** `try_emplace`: the first block recorded under a counter stays. */
  function Emplace(path: map<nat, nat>, tag: Option<nat>, block: nat): map<nat, nat> {
    if tag.None? || tag.value in path then path else path[tag.value := block]
  }

  /** A saved path: insertion block, program counter, virtual program counter, pending virtual
      jump, and its own copy of PATH. */
  datatype Snapshot = Snapshot(at: nat, pc: nat, vpc: nat, vjmp: bool, path: map<nat, nat>)

  ghost predicate SavedOk(g: Graph, saved: seq<Snapshot>) {
    forall s :: s in saved ==> IsPathOf(g, s.path, s.at)
  }

  lemma SavedStable(g: Graph, g': Graph, saved: seq<Snapshot>)
    requires SavedOk(g, saved) && IsTree(g) && IsTree(g') && Extends(g, g', |g.parents|)
    ensures SavedOk(g', saved)
  {
    forall s | s in saved ensures IsPathOf(g', s.path, s.at) {
      PathStable(g, g', |g.parents|, s.path, s.at);
    }
  }

  /** What callbacks leave in VPC and VJMP. */
  datatype Signal = Signal(vpc: nat, vjmp: bool)

  /** What one round meets: the callbacks when the instruction's block is opened, what lifting
      leads to, and the callbacks at the jump. */
  datatype Stimulus = Stimulus(onOpen: Signal, outcome: Outcome, onJump: Signal)

  /** Where a recovery stands: on a path, with others saved, or at its end. */
  datatype Tour =
    | Going(pc: nat, vpc: nat, vjmp: bool, path: map<nat, nat>, at: nat, graph: Graph, saved: seq<Snapshot>)
    | Stopped(graph: Graph)

  /** The last saved path becomes current. */
  ghost function Resumed(graph: Graph, saved: seq<Snapshot>): Tour {
    if saved == [] then Stopped(graph)
    else
      var n := |saved| - 1;
      Going(saved[n].pc, saved[n].vpc, saved[n].vjmp, saved[n].path, saved[n].at, graph, saved[..n])
  }

  /** What one round does.  A path ends at the function's end, where a virtual jump meets a
      counter on PATH, where decoding or lifting fails, and at a jump that cannot be resolved. */
  ghost function After(t: Tour, s: Stimulus): Tour {
    if t.Stopped? then t
    else if t.pc == 0 then Resumed(t.graph, t.saved)
    else if t.vjmp && t.vpc in t.path then
      Resumed(t.graph.(closings := t.graph.closings + [Closing(t.at, t.path[t.vpc], t.vpc)]), t.saved)
    else
      var n, v := |t.graph.parents|, s.onOpen.vpc;
      var parents, tags := t.graph.parents + [t.at], t.graph.tags + [Some(v)];
      var path := if v in t.path then t.path else t.path[v := n];
      var recorded := Graph(parents, tags, t.graph.closings);
      match s.outcome
      case Undecodable => Resumed(t.graph, t.saved)
      case Unliftable => Resumed(Graph(parents, t.graph.tags + [None], t.graph.closings), t.saved)
      case Unresolved => Resumed(recorded, t.saved)
      case Continue(next) => Going(next, s.onJump.vpc, s.onJump.vjmp, path, n, recorded, t.saved)
      case Fork(taken, other) =>
        Going(taken, s.onJump.vpc, s.onJump.vjmp, path, n + 1,
              Graph(parents + [n, n], tags + [None, None], t.graph.closings),
              t.saved + [Snapshot(n + 2, other, v, s.onOpen.vjmp, path)])
  }

  ghost function AfterAll(t: Tour, stimuli: seq<Stimulus>): Tour {
    if stimuli == [] then t else After(AfterAll(t, stimuli[..|stimuli| - 1]), stimuli[|stimuli| - 1])
  }

  class VcfgRecovery {
    var pc: nat
    var vpc: nat
    var vjmp: bool
    var path: map<nat, nat>
    var at: nat
    var graph: Graph
    var saved: seq<Snapshot>
    var running: bool

    constructor (entry: nat)
      ensures Valid() && Now() == Going(entry, 0, false, map[], 0, Graph([0], [None], []), [])
    {
      pc, vpc, vjmp, path := entry, 0, false, map[];
      at, graph, saved, running := 0, Graph([0], [None], []), [], true;
    }

    ghost function Now(): Tour
      reads this
    {
      if running then Going(pc, vpc, vjmp, path, at, graph, saved) else Stopped(graph)
    }

    ghost predicate Valid()
      reads this
    {
      && ClosingsOk(graph) && SavedOk(graph, saved)
      && (running ==> IsPathOf(graph, path, at))
    }

    /** Adds a block below the insertion block and moves there. */
    method Open(tag: Option<nat>)
      requires Valid() && running
      modifies `graph, `at, `path
      ensures Valid() && at == |old(graph).parents| && graph == AddBlock(old(graph), old(at), tag)
      ensures path == Emplace(old(path), tag, at)
      ensures IsPathOf(graph, old(path), old(at))
    {
      hide IsPathOf, ClosingsOk, SavedOk;
      AddBlockSees(graph, path, at, tag);
      IsPathOfTree(graph, path, at);
      var g := AddBlock(graph, at, tag);
      ClosingsStable(graph, g);
      SavedStable(graph, g, saved);
      PathStable(graph, g, |graph.parents|, path, at);
      path, at, graph := Emplace(path, tag, |graph.parents|), |graph.parents|, g;
    }

    method NextPath()
      requires Valid()
      modifies `pc, `vpc, `vjmp, `path, `at, `saved, `running
      ensures Valid() && Now() == Resumed(graph, old(saved))
    {
      if saved == [] {
        running := false;
      } else {
        var s := saved[|saved| - 1];
        saved := saved[..|saved| - 1];
        pc, vpc, vjmp, path, at := s.pc, s.vpc, s.vjmp, s.path, s.at;
        running := true;
      }
    }

    /** The edge back, and the end of the path, when a virtual jump meets a counter on PATH. */
    method CloseLoop() returns (closed: bool)
      requires Valid() && running
      modifies `graph, `vjmp
      ensures Valid() && !vjmp
      ensures closed <==> old(vjmp) && vpc in path
      ensures graph == if closed then old(graph).(closings := old(graph).closings + [Closing(at, path[vpc], vpc)])
        else old(graph)
    {
      closed := vjmp && vpc in path;
      if closed {
        CloseKeeps(graph, saved, path, at, vpc);
        graph := graph.(closings := graph.closings + [Closing(at, path[vpc], vpc)]);
      }
      vjmp := false;
    }

    /** Both ways get a block; the second way is saved with its own copy of PATH. */
    method ForkPath(taken: nat, other: nat)
      requires Valid() && running
      modifies `graph, `at, `path, `saved, `pc
      ensures Valid() && pc == taken && at == |old(graph).parents| && path == old(path)
      ensures graph == AddBlock(AddBlock(old(graph), old(at), None), old(at), None)
      ensures saved == old(saved) + [Snapshot(|old(graph).parents| + 1, other, vpc, vjmp, old(path))]
    {
      var here := at;
      Open(None);
      var jump := at;
      at := here;
      Open(None);
      PathStable(old(graph), graph, |old(graph).parents|, path, here);
      saved := saved + [Snapshot(at, other, vpc, vjmp, path)];
      at, pc := jump, taken;
    }

    /** One round of the exploration loop. */
    method Round(s: Stimulus)
      requires Valid() && running
      modifies this
      ensures Valid() && Now() == After(old(Now()), s)
    {
      hide IsPathOf, ClosingsOk, SavedOk;
      if pc == 0 {
        NextPath();
        return;
      }
      var closed := CloseLoop();
      if closed || s.outcome.Undecodable? {
        NextPath();
        return;
      }
      vpc, vjmp := s.onOpen.vpc, s.onOpen.vjmp;
      if s.outcome.Unliftable? {
        Open(None);
        NextPath();
        return;
      }
      Open(Some(vpc));
      match s.outcome {
        case Continue(next) =>
          pc, vpc, vjmp := next, s.onJump.vpc, s.onJump.vjmp;
        case Fork(taken, other) =>
          ghost var n, g := at, graph;
          ForkPath(taken, other);
          assert graph.parents == g.parents + [n, n] && graph.tags == g.tags + [None, None];
          vpc, vjmp := s.onJump.vpc, s.onJump.vjmp;
        case Unresolved =>
          NextPath();
      }
    }
  }

  lemma IsPathOfTree(g: Graph, path: map<nat, nat>, at: nat)
    requires IsPathOf(g, path, at)
    ensures IsTree(g) && at < |g.parents|
  {
  }

  lemma CloseKeeps(g: Graph, saved: seq<Snapshot>, path: map<nat, nat>, at: nat, vpc: nat)
    requires ClosingsOk(g) && SavedOk(g, saved) && IsPathOf(g, path, at) && vpc in path
    ensures var g' := g.(closings := g.closings + [Closing(at, path[vpc], vpc)]);
            ClosingsOk(g') && SavedOk(g', saved) && IsPathOf(g', path, at)
  {
    var g' := g.(closings := g.closings + [Closing(at, path[vpc], vpc)]);
    SavedStable(g, g', saved);
    PathStable(g, g', |g.parents|, path, at);
    forall c | c in g'.closings ensures c.source < |g.parents| && FirstTagged(g', c.vpc, c.source) == Some(c.target) {
      assert c in g.closings || c == Closing(at, path[vpc], vpc);
      ChainStable(g, g', |g.parents|, c.vpc, c.source);
    }
  }

  /** A walk along tree edges and closing edges. */
  ghost predicate Edge(g: Graph, x: nat, y: nat) {
    || (0 < y < |g.parents| && g.parents[y] == x)
    || (exists c :: c in g.closings && c.source == x && c.target == y)
  }

  ghost predicate IsWalk(g: Graph, w: seq<nat>) {
    && |w| > 0 && w[0] == 0
    && forall i :: 0 <= i < |w| - 1 ==> Edge(g, w[i], w[i + 1])
  }

  /** Every way from the entry to a block passes each of its ancestors: ancestors dominate. */
  lemma {:induction false} AncestorsDominate(g: Graph, w: seq<nat>, a: nat)
    requires ClosingsOk(g) && IsWalk(g, w) && Ancestor(g, a, w[|w| - 1])
    ensures a in w
    decreases |w|
  {
    var last := w[|w| - 1];
    if a == last || |w| == 1 {
      assert last in w;
    } else {
      var front, before := w[..|w| - 1], w[|w| - 2];
      assert Edge(g, w[|w| - 2], w[|w| - 2 + 1]);
      if 0 < last < |g.parents| && g.parents[last] == before {
        AncestorsDominate(g, front, a);
      } else {
        var c :| c in g.closings && c.source == before && c.target == last;
        FirstTaggedIsAncestor(g, c.vpc, before);
        AncestorTransitive(g, a, last, before);
        AncestorsDominate(g, front, a);
      }
    }
  }

  /** The recovered graph is a tree plus edges back to blocks that dominate their sources. */
  lemma ClosingTargetsDominate(g: Graph, c: Closing, w: seq<nat>)
    requires ClosingsOk(g) && c in g.closings && IsWalk(g, w) && w[|w| - 1] == c.source
    ensures Ancestor(g, c.target, c.source) && c.target in w
    ensures c.target < |g.tags| && g.tags[c.target] == Some(c.vpc)
  {
    FirstTaggedIsAncestor(g, c.vpc, c.source);
    AncestorsDominate(g, w, c.target);
  }

  lemma StaysStopped(t: Tour, s: Stimulus)
    requires t.Stopped?
    ensures After(t, s) == t
  {
  }

  /** Every prefix of every run keeps PATH to its own ancestor chain and closes edges only to
      dominating blocks. */
  method RecoverVcfg(entry: nat, stimuli: seq<Stimulus>) returns (v: VcfgRecovery)
    ensures v.Valid()
    ensures v.Now() == AfterAll(Going(entry, 0, false, map[], 0, Graph([0], [None], []), []), stimuli)
    ensures v.running ==> IsPathOf(v.graph, v.path, v.at)
    ensures forall c, w :: c in v.graph.closings && IsWalk(v.graph, w) && w[|w| - 1] == c.source ==> c.target in w
  {
    hide After;
    v := new VcfgRecovery(entry);
    ghost var start := v.Now();
    for i := 0 to |stimuli|
      invariant fresh(v) && v.Valid() && v.Now() == AfterAll(start, stimuli[..i])
    {
      assert stimuli[..i + 1][..i] == stimuli[..i];
      if v.running {
        v.Round(stimuli[i]);
      } else {
        StaysStopped(v.Now(), stimuli[i]);
      }
    }
    assert stimuli[..|stimuli|] == stimuli;
    forall c, w | c in v.graph.closings && IsWalk(v.graph, w) && w[|w| - 1] == c.source ensures c.target in w {
      ClosingTargetsDominate(v.graph, c, w);
    }
  }
}
