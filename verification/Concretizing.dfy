/** The whole constant propagation pass: the safety analysis decides which loads may become
    constants, and folding replaces them and what follows from them
    (src/passes/constant_propagation.cpp:128-149, constant_propagation_memory.cpp:358-389). */
module Concretizing {
  import opened Bits
  import opened Wrappers
  import opened Places
  import opened SafetyModel
  import opened SafetyMemo
  import opened SafetyOrder
  import opened SafetyLaws
  import opened SafetyAnalysis
  import Folding = SsaFolding

  /** Some run from this entry state executes the instruction with this value. */
  ghost predicate Attained(p: Program, e: Entry, i: nat, v: nat) {
    exists r: seq<Event>, j :: IsRun(p, e, r) && 0 <= j < |r| && r[j].inst == i && r[j].value == v
  }

  /** For every replaced instruction that the run executes, the executor has seen its literal: on
      some run from the same entry state, such as the one the executor followed. */
  ghost predicate LiteralsSeen(p: Program, known: map<nat, nat>, replaced: set<nat>, e: Entry, run: seq<Event>) {
    forall k :: 0 <= k < |run| && run[k].inst in replaced && run[k].inst in known ==>
      Attained(p, e, run[k].inst, known[run[k].inst])
  }

  /** The table justifies the replacements: each has an expression that nothing undefined flows
      into, and no load is walked past a store that writes it. */
  ghost predicate Justifies(p: Program, t: Table, known: map<nat, nat>, replaced: set<nat>) {
    && AllClear(p, t) && AllDerived(p, t)
    && forall i :: i in replaced ==> i in t && i in known && Determined(t[i])
  }

  ghost predicate SameOperand(o: Folding.Operand, q: Operand) {
    match o
    case Constant(v) => q == Constant(v)
    case Result(i) => q == Result(i)
    case Other => !q.Constant? && !q.Result?
  }

  /** What folding may replace are instructions without effects and outside loops, with the same
      operands in both views of the code; loads are in the code and are not among them. */
  ghost predicate SameCode(p: Program, ir: Folding.Ir, eligible: set<nat>) {
    && (forall i :: i in eligible && i in ir ==> SameInstruction(p, ir, i))
    && (forall i :: 0 <= i < |p.code| && p.code[i].kind.Load? ==> i in ir && i !in eligible)
  }

  ghost predicate SameInstruction(p: Program, ir: Folding.Ir, i: nat)
    requires i in ir
  {
    i < |p.code| && !p.code[i].inLoop && p.code[i].kind.Pure? && |ir[i]| == |p.code[i].kind.operands| &&
    forall k :: 0 <= k < |ir[i]| ==> SameOperand(ir[i][k], p.code[i].kind.operands[k])
  }

  /** A run as folding sees it. */
  ghost function Trace(run: seq<Event>): seq<Folding.Event> {
    seq(|run|, k requires 0 <= k < |run| => Folding.Event(run[k].inst, run[k].value))
  }

  /** The loads with the verdict safe, in program order. */
  method SafeLoads(p: Program, m: Memo) returns (loads: seq<nat>)
    ensures Folding.Distinct(loads)
    ensures forall i: nat :: i in loads <==> i < |p.code| && p.code[i].kind.Load? && i in m && m[i] == Safe
  {
    loads := [];
    for n := 0 to |p.code|
      invariant Folding.Distinct(loads)
      invariant forall i: nat :: i in loads <==> i < n && p.code[i].kind.Load? && i in m && m[i] == Safe
    {
      if p.code[n].kind.Load? && n in m && m[n] == Safe {
        loads := loads + [n];
      }
    }
  }

  /** An instruction whose operands all have expressions has one too. */
  lemma PureDerivable(p: Program, t: Table, i: nat) returns (t': Table)
    requires AllDerived(p, t) && i < |p.code| && !p.code[i].inLoop && p.code[i].kind.Pure?
    requires forall k :: 0 <= k < |p.code[i].kind.operands| ==> Known(t, p.code[i].kind.operands[k])
    ensures AllDerived(p, t') && Includes(t, t') && i in t'
  {
    t' := t;
    if i !in t {
      var x := EApply(p.code[i].kind.op, ArgExprs(t, p.code[i].kind.operands));
      t' := t[i := x];
      assert Derivation(p, t, i, x);
      forall j | j in t' ensures Derived(p, t', j) {
        assert j != i ==> Derived(p, t, j);
        DerivationMonotone(p, t, t', j, t'[j]);
      }
    }
  }

  /** Everything the worklist folds has a fixed expression, because it rests on replaced loads and
      on what was folded before it. */
  lemma {:induction false} FoldedDerivable(p: Program, ir: Folding.Ir, eligible: set<nat>, t: Table, loads: seq<nat>,
                                           dead: seq<nat>, n: nat) returns (t': Table)
    requires AllDerived(p, t) && SameCode(p, ir, eligible) && n <= |dead|
    requires (forall l :: l in loads ==> l in t) && (forall i :: i in dead ==> i in eligible)
    requires forall k :: 0 <= k < |dead| ==> Folding.Founded(ir, loads, dead, k)
    ensures AllDerived(p, t') && Includes(t, t') && forall k :: 0 <= k < n ==> dead[k] in t'
  {
    hide AllDerived;
    t' := t;
    if n > 0 {
      t' := FoldedDerivable(p, ir, eligible, t, loads, dead, n - 1);
      var i, before := dead[n - 1], t';
      assert Folding.Founded(ir, loads, dead, n - 1) && SameInstruction(p, ir, i);
      forall k | 0 <= k < |ir[i]| ensures Known(t', p.code[i].kind.operands[k]) {
        assert SameOperand(ir[i][k], p.code[i].kind.operands[k]) && ir[i][k] in ir[i];
      }
      t' := PureDerivable(p, t', i);
      assert Includes(before, t');
    }
  }

  lemma AttainedIsFixed(p: Program, t: Table, e: Entry, i: nat, v: nat)
    requires AllClear(p, t) && AllDerived(p, t) && i in t && Determined(t[i]) && Attained(p, e, i, v)
    ensures v == Eval(t[i], e)
  {
    hide AllClear, AllDerived, IsRun, Determined, Eval;
    var r: seq<Event>, j :| IsRun(p, e, r) && 0 <= j < |r| && r[j].inst == i && r[j].value == v;
    SafeValuesAreFixed(p, t, e, r, |r|);
  }

  /** On every run, every replaced instruction has its constant whenever it executes if and only
      if the executor has seen those constants on runs from the same entry state. */
  lemma ReplacedRight(p: Program, t: Table, known: map<nat, nat>, replaced: set<nat>, e: Entry, run: seq<Event>)
    requires Justifies(p, t, known, replaced) && IsRun(p, e, run)
    ensures Folding.Right(Trace(run), known, replaced) <==> LiteralsSeen(p, known, replaced, e, run)
  {
    hide AllClear, AllDerived, IsRun, Determined, Eval, Attained;
    forall k | 0 <= k < |run| && run[k].inst in replaced
      ensures run[k].value == known[run[k].inst] <==> Attained(p, e, run[k].inst, known[run[k].inst])
    {
      var i := run[k].inst;
      assert Attained(p, e, i, run[k].value) by { AttainedHere(p, e, run, k); }
      AttainedIsFixed(p, t, e, i, run[k].value);
      if Attained(p, e, i, known[i]) { AttainedIsFixed(p, t, e, i, known[i]); }
    }
    if Folding.Right(Trace(run), known, replaced) {
      forall k | 0 <= k < |run| && run[k].inst in replaced ensures run[k].value == known[run[k].inst] {
        assert Trace(run)[k].inst in replaced;
      }
    }
  }

  lemma AttainedHere(p: Program, e: Entry, run: seq<Event>, k: nat)
    requires IsRun(p, e, run) && k < |run|
    ensures Attained(p, e, run[k].inst, run[k].value)
  {
    hide IsRun;
  }

  /** Leaving out the replaced instructions turns every run of the old code whose literals the
      executor has seen into a run of the new code with the same visible events. */
  ghost predicate Preserves(p: Program, ir: Folding.Ir, ir': Folding.Ir, known: map<nat, nat>, replaced: set<nat>) {
    forall e, run, silent, may ::
      IsRun(p, e, run) && LiteralsSeen(p, known, replaced, e, run) && replaced <= silent
      && Folding.IsRun(ir, silent, may, Trace(run)) && Folding.Lenient(may) ==>
        var kept := Folding.Kept(Trace(run), replaced);
        Folding.IsRun(ir', silent, may, kept) && Folding.Visible(kept, silent) == Folding.Visible(Trace(run), silent)
  }

  lemma PassPreserves(p: Program, ir: Folding.Ir, t: Table, known: map<nat, nat>, replaced: set<nat>)
    requires Justifies(p, t, known, replaced) && Folding.FitsWhereUsed(ir, known, replaced)
    ensures Preserves(p, ir, Folding.AfterPass(ir, known, replaced), known, replaced)
  {
    hide AllClear, AllDerived, Determined, Folding.FitsWhereUsed, LiteralsSeen, Folding.Right;
    hide IsRun, Folding.IsRun, Folding.Lenient, Folding.AfterPass, Folding.Kept, Folding.Visible;
    forall e, run, silent, may
      | IsRun(p, e, run) && LiteralsSeen(p, known, replaced, e, run) && replaced <= silent
        && Folding.IsRun(ir, silent, may, Trace(run)) && Folding.Lenient(may)
      ensures var kept := Folding.Kept(Trace(run), replaced);
        && Folding.IsRun(Folding.AfterPass(ir, known, replaced), silent, may, kept)
        && Folding.Visible(kept, silent) == Folding.Visible(Trace(run), silent)
    {
      ReplacedRight(p, t, known, replaced, e, run);
      Folding.RunsPreserved(ir, known, replaced, silent, may, Trace(run));
    }
  }

  ghost predicate AllDetermined(t: Table, dead: seq<nat>)
    requires forall i :: i in dead ==> i in t
  {
    forall i :: i in dead ==> Determined(t[i])
  }

  /** In order, the loads replaced are those that have a derivation and a literal. */
  lemma LoadsReplaced(p: Program, m: Memo, known: map<nat, nat>, dead: seq<nat>)
    requires AllLoadsJudged(p, m)
    requires forall l: nat :: l in dead <==>
      l < |p.code| && p.code[l].kind.Load? && l in m && m[l] == Safe && l in known
    ensures (forall i :: i in m ==> (m[i] == Safe <==> Derivable(p, i))) ==>
      forall i: nat :: i < |p.code| && p.code[i].kind.Load? ==> (i in dead <==> i in known && Derivable(p, i))
  {
    forall i: nat | i < |p.code| && p.code[i].kind.Load? && Derivable(p, i) ensures i in m {
      NothingElse(p, i);
      hide Derivable;
      var chain :| p.IsChain(chain) && chain[|chain| - 1] == p.code[i].kind.owner.value;
      assert p.LoadAt(i, chain[|chain| - 1]);
    }
  }

  /** The whole pass.  It replaces exactly the derivable loads with a literal, if the analysis
      asks in order, and what can be folded after them.  It only replaces instructions whose value
      is one expression of the entry state, given by the table `t`.  If no load in it is walked
      past a store that writes it, nothing undefined flows into a replaced value and no wide value
      is cut, every run whose literals the executor has seen is preserved. */
  method Concretize(p: Program, f: Folding.Function) returns (dead: seq<nat>, ghost t: Table)
    requires p.WellFormed() && SameCode(p, f.ir, f.eligible)
    modifies f
    ensures f.ir == Folding.AfterPass(old(f.ir), f.known, Folding.Elements(dead))
    ensures AllDerived(p, t) && forall i :: i in dead ==> i in t && i in f.known
    ensures AllClear(p, t) && AllDetermined(t, dead)
            && Folding.FitsWhereUsed(old(f.ir), f.known, Folding.Elements(dead)) ==>
      Preserves(p, old(f.ir), f.ir, f.known, Folding.Elements(dead))
    ensures InOrder(p, Preorder(p)) ==> forall i: nat :: i < |p.code| && p.code[i].kind.Load? ==>
      (i in dead <==> i in f.known && Derivable(p, i))
    ensures forall i :: i in dead && !(i < |p.code| && p.code[i].kind.Load?) ==> i in f.eligible && i in old(f.ir)
    ensures forall i, j ::
      i in f.ir && i in old(f.ir) && j in dead && Folding.Result(j) in old(f.ir)[i] && i in f.eligible ==>
        i !in f.known || exists o :: o in f.ir[i] && !o.Constant?
  {
    hide AllDerived, AllClear, Determined, Preserves, Program.WellFormed, InOrder, Derivable, AllLoadsJudged;
    hide Folding.AfterPass, Folding.FitsWhereUsed, Folding.Foldable, Folding.Uses, Folding.Founded;
    ghost var ir := f.ir;
    var analysis := new Analysis(p);
    analysis.Run();
    var loads := SafeLoads(p, analysis.valueSafety);
    var deadLoads, deadValues := Folding.PropagateConstants(f, loads);
    dead := deadLoads + deadValues;
    forall i | i in deadValues ensures i in f.eligible && i in f.known && i in ir {
      assert i in Folding.Elements(deadValues);
    }
    forall i | i in deadLoads ensures i < |p.code| && p.code[i].kind.Load? { assert i in loads; }
    t := FoldedDerivable(p, ir, f.eligible, analysis.table, deadLoads, deadValues, |deadValues|);
    forall i | i in dead ensures i in t && i in f.known {
      if i in deadValues { var k :| 0 <= k < |deadValues| && deadValues[k] == i; assert deadValues[k] in t; }
    }
    LoadsReplaced(p, analysis.valueSafety, f.known, deadLoads);
    if AllClear(p, t) && AllDetermined(t, dead) && Folding.FitsWhereUsed(ir, f.known, Folding.Elements(dead)) {
      PassPreserves(p, ir, t, f.known, Folding.Elements(dead));
    }
  }

  // ------------------------------------------------------- what the literals mean

  /** The two sides of a fork, each with a load of the same entry byte. */
  function ForkedProgram(): Program {
    var load := Instruction(Load(Constant(0), Some(LiveOnEntry), Some(Access(0, 0, 1))), false, 0, None);
    Program([load, load])
  }

  ghost function ByteEntry(b: nat): Entry { Entry(imap[], imap[Address(0, 0) := b], imap[]) }

  ghost function SideRun(side: nat, b: nat): seq<Event> {
    [Event(side, b, ByteEntry(b).memory, ByteEntry(b).memory)]
  }

  /** Each side may know another literal of the same entry byte, because it is only reached from
      entry states with that byte: the literals of both sides count as seen. */
  lemma BothSidesSeen(known: map<nat, nat>, side: nat)
    requires side < 2 && side in known
    ensures IsRun(ForkedProgram(), ByteEntry(known[side]), SideRun(side, known[side]))
    ensures LiteralsSeen(ForkedProgram(), known, {0, 1}, ByteEntry(known[side]), SideRun(side, known[side]))
  {
    var p, b := ForkedProgram(), known[side];
    var e, run, s := ByteEntry(b), SideRun(side, b), Access(0, 0, 1);
    assert Reaches(e, run, 0, LiveOnEntry, e.memory, 0) && AgreeOn(e.memory, e.memory, s);
    assert BytesIn(e.memory, s) == [b];
    OneByte(b);
    assert EventOk(p, e, run, 0);
    AttainedHere(p, e, run, 0);
  }

  /** Pointers to data memory are formed from addresses by page selection, and a store through
      one never reaches the end of the offset range. */
  lemma FormedNeverWraps(page: nat, a: nat, n: nat)
    requires a < TWO64 && n <= HALF
    ensures !Access(page, Translate(a).offset, n).Wraps()
  {
  }
}
