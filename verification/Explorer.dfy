/** Symbolic exploration as src/arch/arch.cpp performs it: lift an instruction, emit a block,
    fork at symbolic branches, and keep the other side on a stack of saved paths. */
module Explorer {
  import opened Bits
  import opened Terms
  import opened Solver
  import opened States
  import opened SymbolicAccess
  import opened Machine
  import opened Paths
  import opened Fetching
  import opened Trails

  /** Forming a pointer from an address that cannot be enumerated throws out of the loop. */
  datatype Status = Successful | ExploreOtherPaths | Thrown

  // ------------------------------------------------- one instruction

  lemma WordAsBool(t: Term)
    requires Typed(t, 1)
    ensures AsBool(t).WellSorted() && AsBool(t).IsBool() && Over(AsBool(t))
  {
    assert Pow2(1) == 2;
    var one := Value(1, 1);
    assert one.WellSorted() && Over(one);
    var b := Equal(t, one);
    assert Over(b) && b.WellSorted();
  }

  lemma FullBodyTyped(i: Instr)
    requires InstrTyped(i)
    ensures BodyTyped(FullBody(i))
  {
    if i.CondMove? {
      WordAsBool(i.cond);
      assert Typed(Choice(i), BitsOf(i.dest));
    }
  }

  /** An indirect jump can be followed: its target is a literal or has one or two values. */
  ghost predicate JumpResolved(o: Oracle, i: Instr, sym: Sym, constraints: seq<Term>) {
    i.Indirect? ==>
      var next := o.rewrite(Subst(i.address, sym));
      next.IsValue() || FewValues(next, constraints)
  }

  /** The instruction at the path's program counter can be lifted and left. */
  ghost predicate CanLift(w: World, o: Oracle, p: Path) {
    p.pc != 0 && exists bytes ::
      && IsConcretePrefix(p.sym, p.pc, bytes) && w.machine.decode(p.pc, bytes).Decoded?
      && Leavable(o, w.machine.decode(p.pc, bytes).instr, p.sym, p.constraints)
  }

  /** The emulator forms every address, and the jump, if it is indirect, can be followed. */
  ghost predicate Leavable(o: Oracle, i: Instr, sym: Sym, constraints: seq<Term>) {
    && AccessesOk(o, constraints, FullBody(i), sym)
    && JumpResolved(o, i, Emulate(o, constraints, FullBody(i), sym), constraints)
  }

  /** Some access of the instruction at the path's program counter cannot be formed. */
  ghost predicate Throws(w: World, o: Oracle, p: Path) {
    p.pc != 0 && exists bytes ::
      && IsConcretePrefix(p.sym, p.pc, bytes) && w.machine.decode(p.pc, bytes).Decoded?
      && !AccessesOk(o, p.constraints, FullBody(w.machine.decode(p.pc, bytes).instr), p.sym)
  }

  lemma NotAtEnd(w: World, o: Oracle, p: Path)
    requires p.pc == 0
    ensures !CanLift(w, o, p) && !Throws(w, o, p)
  {
  }

  lemma CanLiftBy(w: World, o: Oracle, p: Path, bytes: seq<nat>)
    requires IsConcretePrefix(p.sym, p.pc, bytes)
    ensures CanLift(w, o, p) <==>
      && p.pc != 0 && w.machine.decode(p.pc, bytes).Decoded?
      && Leavable(o, w.machine.decode(p.pc, bytes).instr, p.sym, p.constraints)
    ensures Throws(w, o, p) <==>
      && p.pc != 0 && w.machine.decode(p.pc, bytes).Decoded?
      && !AccessesOk(o, p.constraints, FullBody(w.machine.decode(p.pc, bytes).instr), p.sym)
  {
    hide IsConcretePrefix, Leavable, AccessesOk, FullBody;
    forall bs | IsConcretePrefix(p.sym, p.pc, bs) ensures bs == bytes {
      ConcretePrefixUnique(p.sym, p.pc, bytes, bs);
    }
  }

  /** Lifting what was decoded from the concrete bytes is a step of the machine. */
  lemma StepAgrees(w: World, o: Oracle, d: nat, p: Path, bytes: seq<nat>, c: State, s: Assignment)
    requires w.machine.Lawful() && o.Sound() && o.Decisive() && Agrees(w, d, p, true, c, s) && p.pc != 0
    requires bytes <= FetchBytes(c, p.pc) && w.machine.decode(p.pc, bytes).Decoded?
    requires AccessesOk(o, p.constraints, FullBody(w.machine.decode(p.pc, bytes).instr), p.sym)
    ensures var i := w.machine.decode(p.pc, bytes).instr; var c' := RunBody(FullBody(i), c);
      && MachineAt(w, s, d + 1) == MState(Next(i, c'), c')
      && Represents(Emulate(o, p.constraints, FullBody(i), p.sym), s, c')
  {
    var i := w.machine.decode(p.pc, bytes).instr;
    assert w.machine.decode(p.pc, FetchBytes(c, p.pc)) == w.machine.decode(p.pc, bytes);
    assert InstrTyped(i);
    FullBodyTyped(i);
    hide Emulate, AccessesOk;
    EmulateRepresents(o, p.constraints, FullBody(i), p.sym, s, c);
  }

  predicate IsCondition(t: Term) { t.WellSorted() && t.Width() == 1 && !t.IsBool() }

  /** A condition word is true exactly when it is not zero. */
  lemma ConditionWord(t: Term, s: Assignment)
    requires IsCondition(t)
    ensures True(t, s) <==> Eval(t, s) != 0
    ensures Eval(AsBool(t), s) != 0 <==> True(t, s)
    ensures Eval(Negated(t), s) != 0 <==> !True(t, s)
  {
    EvalFits(t, s);
    assert Pow2(1) == 2;
    hide Pow2;
    var one := Value(1, 1);
    assert AsBool(t) == Equal(t, one);
    assert Eval(one, s) == 1;
    assert Eval(Equal(t, one), s) == Bit(Eval(t, s) == 1);
  }

  lemma LiteralValue(t: Term)
    requires t.IsValue()
    ensures forall s :: Eval(t, s) == t.value
  {
  }

  lemma NothingAssumed()
    ensures forall s :: Holds([], s)
  {
  }

  /** The two sides of a fork have the constraints of the whole, split by the condition. */
  lemma SplitConstraints(cs: seq<Term>, condition: Term)
    requires IsCondition(condition)
    ensures forall s :: Holds(cs + [AsBool(condition)], s) <==> Holds(cs, s) && True(condition, s)
    ensures forall s :: Holds(cs + [Negated(condition)], s) <==> Holds(cs, s) && !True(condition, s)
  {
    hide Holds;
    forall s
      ensures Holds(cs + [AsBool(condition)], s) <==> Holds(cs, s) && True(condition, s)
      ensures Holds(cs + [Negated(condition)], s) <==> Holds(cs, s) && !True(condition, s)
    {
      HoldsPush(cs, AsBool(condition), s);
      HoldsPush(cs, Negated(condition), s);
      ConditionWord(condition, s);
    }
  }

  lemma MoveTyped(i: Instr)
    requires InstrTyped(i) && i.CondMove?
    ensures BodyTyped(i.body) && Typed(i.cond, 1) && BodyTyped(i.body + [Assign(i.dest, i.onTrue)])
      && BodyTyped(i.body + [Assign(i.dest, i.onFalse)])
    ensures BodyTyped([Assign(i.dest, i.onTrue)]) && BodyTyped([Assign(i.dest, i.onFalse)])
  {
  }

  lemma DecodedTyped(m: Decoder, pc: nat, bytes: seq<nat>)
    requires m.Lawful() && m.decode(pc, bytes).Decoded?
    ensures InstrTyped(m.decode(pc, bytes).instr)
  {
  }

  /** Each side of a forked conditional move agrees with the machine on its own inputs. */
  lemma MoveAgrees(w: World, o: Oracle, d: nat, p: Path, bytes: seq<nat>, c: State, s: Assignment, no: Path, yes: Path)
    requires w.machine.Lawful() && o.Sound() && o.Decisive() && Agrees(w, d, p, true, c, s) && p.pc != 0
    requires bytes <= FetchBytes(c, p.pc) && w.machine.decode(p.pc, bytes).Decoded?
    requires w.machine.decode(p.pc, bytes).instr.CondMove?
    requires var i := w.machine.decode(p.pc, bytes).instr; var base := Emulate(o, p.constraints, i.body, p.sym);
      && AccessesOk(o, p.constraints, FullBody(i), p.sym)
      && yes == p.(block := yes.block, pc := i.next, sym := Emulate(o, p.constraints, [Assign(i.dest, i.onTrue)], base))
      && no == p.(block := no.block, pc := i.next, sym := Emulate(o, p.constraints, [Assign(i.dest, i.onFalse)], base))
    ensures var i := w.machine.decode(p.pc, bytes).instr; var c' := RunBody(i.body, c);
      if True(i.cond, c') then Agrees(w, d + 1, yes, true, RunBody([Assign(i.dest, i.onTrue)], c'), s)
      else Agrees(w, d + 1, no, true, RunBody([Assign(i.dest, i.onFalse)], c'), s)
  {
    hide Decoder.Lawful, Oracle.Sound, Oracle.Decisive, Represents, Holds, BodyTyped, True, FetchBytes, AccessesOk;
    hide Emulate;
    var i := w.machine.decode(p.pc, bytes).instr;
    var base, c' := Emulate(o, p.constraints, i.body, p.sym), RunBody(i.body, c);
    MoveAccesses(o, p.constraints, i, p.sym);
    DecodedTyped(w.machine, p.pc, bytes);
    MoveTyped(i);
    StepAgrees(w, o, d, p, bytes, c, s);
    EmulateRepresents(o, p.constraints, i.body, p.sym, s, c);
    AssignAccess(o, p.constraints, Assign(i.dest, i.onTrue), base);
    AssignAccess(o, p.constraints, Assign(i.dest, i.onFalse), base);
    EmulateRepresents(o, p.constraints, [Assign(i.dest, i.onTrue)], base, s, c');
    EmulateRepresents(o, p.constraints, [Assign(i.dest, i.onFalse)], base, s, c');
    MoveChoice(i, c);
  }

  lemma PairTyped(p: Path, q: Path)
    requires SymTyped(p.sym) && SymTyped(q.sym)
    ensures AllTyped([p, q])
  {
  }

  /** The choice at the end of a conditional move is no access. */
  lemma MoveAccesses(o: Oracle, cs: seq<Term>, i: Instr, sym: Sym)
    requires i.CondMove?
    ensures AccessesOk(o, cs, FullBody(i), sym) <==> AccessesOk(o, cs, i.body, sym)
    ensures forall t :: AccessesOk(o, cs, i.body + [Assign(i.dest, t)], sym) <==> AccessesOk(o, cs, i.body, sym)
  {
    forall t ensures AccessesOk(o, cs, i.body + [Assign(i.dest, t)], sym) <==> AccessesOk(o, cs, i.body, sym) {
      assert (i.body + [Assign(i.dest, t)])[..|i.body|] == i.body;
    }
  }

  lemma AssignAccess(o: Oracle, cs: seq<Term>, a: Action, sym: Sym)
    requires a.Assign?
    ensures AccessesOk(o, cs, [a], sym)
  {
    assert AccessesOk(o, cs, [a][..0], sym);
  }

  lemma RunBodyPush(body: seq<Action>, a: Action, c: State)
    ensures RunBody(body + [a], c) == Perform(a, RunBody(body, c))
  {
    assert (body + [a])[..|body|] == body;
  }

  /** Storing the selected operand is what the choice of a conditional move stores. */
  lemma MoveChoice(i: Instr, c: State)
    requires i.CondMove?
    ensures var c' := RunBody(i.body, c);
      RunBody(FullBody(i), c) == RunBody([Assign(i.dest, if True(i.cond, c') then i.onTrue else i.onFalse)], c')
    ensures var c' := RunBody(i.body, c);
      RunBody(FullBody(i), c) == RunBody(i.body + [Assign(i.dest, if True(i.cond, c') then i.onTrue else i.onFalse)], c)
  {
    var c' := RunBody(i.body, c);
    var a := Assign(i.dest, if True(i.cond, c') then i.onTrue else i.onFalse);
    RunBodyPush(i.body, Assign(i.dest, Choice(i)), c);
    RunBodyPush(i.body, a, c);
    RunBodyPush([], a, c');
    assert [] + [a] == [a];
  }

  /** Forking at a conditional move keeps the invariant. */
  lemma MoveForks(w: World, o: Oracle, blocks: seq<Block>, depth: Depths, stack: seq<Path>, p: Path, ended: set<Ended>,
                  i: Instr, bytes: seq<nat>, no: Path, yes: Path)
    requires w.machine.Lawful() && o.Sound() && o.Decisive()
    requires p.block < |blocks| && p.block in depth && p.pc != 0 && SymTyped(p.sym)
      && AccessesOk(o, p.constraints, FullBody(i), p.sym)
    requires Inv(w, blocks, depth, stack + [p], true, ended) && AllTyped(stack + [p])
    requires w.machine.decode(p.pc, bytes) == Decoded(i) && i.CondMove?
    requires forall s, c :: Represents(p.sym, s, c) ==> bytes <= FetchBytes(c, p.pc)
    requires var base := Emulate(o, p.constraints, i.body, p.sym);
      && yes == p.(block := |blocks| + 1, pc := i.next,
                   sym := Emulate(o, p.constraints, [Assign(i.dest, i.onTrue)], base))
      && no == p.(block := |blocks| + 2, pc := i.next,
                  sym := Emulate(o, p.constraints, [Assign(i.dest, i.onFalse)], base))
    ensures var d := depth[p.block] + 1;
      Inv(w, Fork(Link(blocks, p.block, Lower(o, p.constraints, i.body, p.sym)), |blocks|, i.cond,
                  [Assign(i.dest, i.onTrue)], [Assign(i.dest, i.onFalse)]),
          depth[|blocks| + 1 := d][|blocks| + 2 := d], stack + [no, yes], true, ended)
    ensures AllTyped(stack + [no, yes])
  {
    hide Represents, Holds, SymTyped, Oracle.Sound, Oracle.Decisive, Decoder.Lawful, BodyTyped, True, AllTyped;
    hide FetchBytes;
    hide RunBody, Emulate, Lower, AccessesOk, InstrTyped, Fork, Link;
    var d, base, emitted := depth[p.block] + 1, Emulate(o, p.constraints, i.body, p.sym),
      Lower(o, p.constraints, i.body, p.sym);
    var onTrue, onFalse := [Assign(i.dest, i.onTrue)], [Assign(i.dest, i.onFalse)];
    MoveAccesses(o, p.constraints, i, p.sym);
    DecodedTyped(w.machine, p.pc, bytes);
    MoveTyped(i);
    EmulateTyped(o, p.constraints, i.body, p.sym);
    EmulateTyped(o, p.constraints, onTrue, base);
    EmulateTyped(o, p.constraints, onFalse, base);
    PairTyped(no, yes);
    TypedReplaced(stack, p, [no, yes]);
    LiveAgrees(w, blocks, depth, stack, p, ended);
    hide Inv, Agrees;
    forall s | Final(w, blocks, s).0 == p.block
      ensures var c := RunBody(emitted, Final(w, blocks, s).1);
        if True(i.cond, c) then Agrees(w, d, yes, true, RunBody(onTrue, c), s)
          else Agrees(w, d, no, true, RunBody(onFalse, c), s)
    {
      AgreesRepresents(w, depth[p.block], p, Final(w, blocks, s).1, s);
      LowerRuns(o, p.constraints, i.body, p.sym, s, Final(w, blocks, s).1);
      MoveAgrees(w, o, depth[p.block], p, bytes, Final(w, blocks, s).1, s, no, yes);
    }
    LinkForkInv(w, blocks, depth, stack, p, ended, emitted, i.cond, onTrue, onFalse, d, no, yes);
  }

  /** What the invariant says of the last live path. */
  lemma LiveAgrees(w: World, blocks: seq<Block>, depth: Depths, stack: seq<Path>, p: Path, ended: set<Ended>)
    requires Inv(w, blocks, depth, stack + [p], true, ended)
    ensures p.block in depth && |blocks| > 0 && Forward(blocks)
    ensures forall s :: Final(w, blocks, s).0 == p.block ==>
      Agrees(w, depth[p.block], p, true, Final(w, blocks, s).1, s)
  {
    assert (stack + [p])[|stack|] == p;
    assert Simulates(w, blocks, depth, (stack + [p])[|stack|], true);
  }

  lemma AgreesRepresents(w: World, d: nat, p: Path, c: State, s: Assignment)
    requires Agrees(w, d, p, true, c, s)
    ensures Represents(p.sym, s, c) && Holds(p.constraints, s)
  {
  }

  lemma SolvedMove(o: Oracle, cs: seq<Term>, i: Instr, sym: Sym, s: Assignment, c: State)
    requires o.Sound() && o.Decisive() && InstrTyped(i) && i.CondMove? && Represents(sym, s, c) && Holds(cs, s)
    requires AccessesOk(o, cs, i.body, sym) && o.rewrite(Subst(i.cond, Emulate(o, cs, i.body, sym))).IsValue()
    ensures var chosen := if o.rewrite(Subst(i.cond, Emulate(o, cs, i.body, sym))).value != 0 then i.onTrue
      else i.onFalse;
      RunBody(i.body + [Assign(i.dest, chosen)], c) == RunBody(FullBody(i), c)
  {
    hide Emulate, AccessesOk, RunBody, Holds;
    MoveTyped(i);
    var after, c' := Emulate(o, cs, i.body, sym), RunBody(i.body, c);
    EmulateRepresents(o, cs, i.body, sym, s, c);
    var t := Subst(i.cond, after);
    SubstTyped(i.cond, after);
    SubstEval(i.cond, after, s, c');
    ConditionWord(i.cond, c');
    assert Eval(o.rewrite(t), s) == Eval(t, s);
    MoveChoice(i, c);
  }

  lemma EqualValue(address: Term, target: nat, c: State)
    ensures Eval(Equal(address, Value(64, target)), c) != 0 <==> Eval(address, c) == target
  {
    assert Eval(Value(64, target), c) == target;
  }

  /** The emitted comparison that separates two jump targets. */
  lemma TargetCondition(address: Term, target: nat)
    requires Typed(address, 64) && target < Pow2(64)
    ensures Typed(Ite(Equal(address, Value(64, target)), Value(1, 1), Value(1, 0)), 1)
    ensures forall c :: True(Ite(Equal(address, Value(64, target)), Value(1, 1), Value(1, 0)), c) <==>
      Eval(address, c) == target
  {
    TargetTyped(address, target);
    hide Pow2, True, Typed, Over, Term.WellSorted;
    var e := Equal(address, Value(64, target));
    var cond := Ite(e, Value(1, 1), Value(1, 0));
    forall c ensures True(cond, c) <==> Eval(address, c) == target {
      EqualValue(address, target, c);
      assert Eval(cond, c) == if Eval(e, c) != 0 then Eval(Value(1, 1), c) else Eval(Value(1, 0), c);
      ConditionWord(cond, c);
    }
  }

  lemma TargetTyped(address: Term, target: nat)
    requires Typed(address, 64) && target < Pow2(64)
    ensures Typed(Ite(Equal(address, Value(64, target)), Value(1, 1), Value(1, 0)), 1)
  {
    assert Pow2(1) == 2;
    hide Pow2;
    var literal := Value(64, target);
    var e := Equal(address, literal);
    assert literal.WellSorted() && Over(literal);
    assert e.WellSorted() && Over(e);
    assert Value(1, 1).WellSorted() && Value(1, 0).WellSorted();
    assert Over(Value(1, 1)) && Over(Value(1, 0));
    var cond := Ite(e, Value(1, 1), Value(1, 0));
    assert Over(cond) && cond.WellSorted();
  }

  // ----------------------------------------------- register solving

  /** Replaces registers that the constraints force to one value by that literal. */
  method SolveContext(o: Oracle, registers: seq<Name>, sym: Sym, constraints: seq<Term>) returns (solved: Sym)
    requires o.Sound() && SymTyped(sym)
    ensures SymTyped(solved)
    ensures forall s, c :: Holds(constraints, s) && Represents(sym, s, c) ==> Represents(solved, s, c)
    ensures forall n :: n !in registers ==> Lookup(solved, n) == Lookup(sym, n)
    ensures forall n :: n in registers && SimplifyUnder(o, Lookup(sym, n), constraints).IsValue() ==>
      Lookup(solved, n).IsValue()
    ensures forall n :: Lookup(solved, n) == Lookup(sym, n) || Lookup(solved, n).IsValue()
  {
    hide SimplifyUnder, Represents, Holds;
    solved := sym;
    for k := 0 to |registers|
      invariant forall n :: n !in registers[..k] ==> Lookup(solved, n) == Lookup(sym, n)
      invariant forall n :: n in registers[..k] && SimplifyUnder(o, Lookup(sym, n), constraints).IsValue() ==>
        Lookup(solved, n).IsValue()
      invariant forall n :: Lookup(solved, n) == Lookup(sym, n) || Lookup(solved, n).IsValue()
      invariant SymTyped(solved)
      invariant forall s, c :: Holds(constraints, s) && Represents(sym, s, c) ==> Represents(solved, s, c)
    {
      assert registers[..k + 1] == registers[..k] + [registers[k]];
      SimplifyUnderTyped(o, Lookup(solved, registers[k]), constraints);
      var t := SimplifyUnder(o, Lookup(solved, registers[k]), constraints);
      if t.IsValue() {
        forall s, c | Holds(constraints, s) && Represents(sym, s, c)
          ensures Represents(solved[registers[k] := t], s, c)
        {
          SolvedRepresents(o, solved, constraints, registers[k], s, c);
        }
        solved := solved[registers[k] := t];
      }
    }
  }

  lemma SolvedRepresents(o: Oracle, sym: Sym, constraints: seq<Term>, r: Name, s: Assignment, c: State)
    requires o.Sound() && Holds(constraints, s) && Represents(sym, s, c)
    requires SimplifyUnder(o, Lookup(sym, r), constraints).IsValue()
    ensures Represents(sym[r := SimplifyUnder(o, Lookup(sym, r), constraints)], s, c)
  {
    hide Eval, Holds, Cell, SimplifyUnder;
    var t := Lookup(sym, r);
    SimplifyUnderTyped(o, t, constraints);
    SimplifyUnderKeepsMeaning(o, t, constraints, s);
    assert Eval(t, s) == Cell(c, r);
    var sym' := sym[r := SimplifyUnder(o, t, constraints)];
    forall n ensures Eval(Lookup(sym', n), s) == Cell(c, n) {
      assert Eval(Lookup(sym, n), s) == Cell(c, n);
    }
  }

  predicate AllTyped(live: seq<Path>) {
    forall i :: 0 <= i < |live| ==> SymTyped(live[i].sym)
  }

  lemma TypedReplaced(stack: seq<Path>, p: Path, news: seq<Path>)
    requires AllTyped(stack + [p]) && AllTyped(news)
    ensures AllTyped(stack + news)
  {
    forall i | 0 <= i < |stack| ensures SymTyped((stack + news)[i].sym) { assert (stack + [p])[i] == stack[i]; }
  }

  /** Registers are solved; memory is not. */
  predicate OnlyRegisters(registers: seq<Name>) { forall n :: n in registers ==> !n.PageByte? }

  lemma SolvedSharpens(registers: seq<Name>, sym: Sym, solved: Sym, cs: seq<Term>, c: Term)
    requires OnlyRegisters(registers) && SymTyped(solved)
    requires forall n :: n !in registers ==> Lookup(solved, n) == Lookup(sym, n)
    ensures Sharpens(Saved(solved, cs + [c]), Saved(sym, cs))
  {
    hide SymTyped, Lookup;
    assert SameMemory(solved, sym);
    ConstrainedSharpens(sym, cs, [c], solved);
  }

  /** The invariant holds of an empty entry block. */
  lemma StartInv(w: World)
    requires SymTyped(w.image)
    ensures var p := Path(0, w.entry, w.image, []);
      Inv(w, [Block([], Open)], map[0 := 0], [p], true, {}) && Apart([p], {}) && AllTyped([p])
  {
    var p, blocks := Path(0, w.entry, w.image, []), [Block([], Open)];
    forall s ensures Agrees(w, 0, p, true, Final(w, blocks, s).1, s) {
      StartRepresented(w.image, s);
    }
    hide Agrees, Final;
    assert [p][0] == p && Simulates(w, blocks, map[0 := 0], [p][0], true);
  }

  // ---------------------------------------------------- the explorer

  class Cpu {
    const w: World
    const o: Oracle
    const registers: seq<Name>
    const opaqueSolving: bool
    const forkAtCmovs: bool

    var pc: nat
    var sym: Sym
    var pathConstraints: seq<Term>
    var insertPoint: nat
    var unexplored: seq<Path>
    var blocks: seq<Block>
    var running: bool
    ghost var depth: Depths
    ghost var ended: set<Ended>
    ghost var log: seq<Step>      // what has been done to the symbolic state

    ghost predicate ConfigOk() {
      w.machine.Lawful() && SymTyped(w.image) && o.Sound() && o.Decisive() && OnlyRegisters(registers)
    }

    /** The log accounts for the current state and for every saved path. */
    ghost predicate Logged()
      reads `log, `sym, `pathConstraints, `unexplored
    {
      IsLog(o, w.image, log, Saved(sym, pathConstraints), unexplored)
    }

    ghost function Current(): Path
      reads this
    {
      Path(insertPoint, pc, sym, pathConstraints)
    }

    ghost function Live(): seq<Path>
      reads this
    {
      if running then unexplored + [Current()] else unexplored
    }

    /** `known` is false between lifting an instruction and deciding where control goes. */
    ghost predicate Exploring(known: bool)
      reads this
    {
      && ConfigOk()
      && Inv(w, blocks, depth, Live(), known, ended)
      && (!forkAtCmovs ==> Apart(Live(), ended))
      && AllTyped(Live())
      && Logged()
    }

    ghost predicate Valid()
      reads this
    {
      Exploring(true) && (!running ==> unexplored == [])
    }

    constructor (world: World, oracle: Oracle, regs: seq<Name>, solveOpaque: bool, cmovs: bool)
      requires world.machine.Lawful() && SymTyped(world.image) && oracle.Sound() && oracle.Decisive()
      requires OnlyRegisters(regs)
      ensures w == world && o == oracle && registers == regs && opaqueSolving == solveOpaque && forkAtCmovs == cmovs
      ensures Valid() && running && ended == {} && depth == map[0 := 0] && log == []
      ensures Current() == Path(0, world.entry, world.image, []) && unexplored == [] && blocks == [Block([], Open)]
    {
      w, o, registers, opaqueSolving, forkAtCmovs := world, oracle, regs, solveOpaque, cmovs;
      pc, sym, pathConstraints := world.entry, world.image, [];
      insertPoint, unexplored, blocks, running := 0, [], [Block([], Open)], true;
      depth, ended, log := map[0 := 0], {}, [];
      new;
      hide *;
      StartInv(w);
      LogStarts(o, w.image);
      assert Live() == [Path(0, w.entry, w.image, [])];
    }

    // Where the emitted code leads on an input; total, so that contracts can use it freely.

    ghost predicate Here(s: Assignment)
      reads this
    {
      |blocks| > 0 && Forward(blocks) && Final(w, blocks, s).0 == insertPoint
    }

    ghost function Reached(s: Assignment): State
      reads this
    {
      if |blocks| > 0 && Forward(blocks) then Final(w, blocks, s).1 else s
    }

    ghost function Steps(): nat
      reads this
    {
      if insertPoint in depth then depth[insertPoint] else 0
    }

    /** The machine at the end of the current path. */
    ghost function MachineHere(s: Assignment): MState
      reads this
    {
      MachineAt(w, s, Steps())
    }

    /** What the invariant says of the current path. */
    lemma CurrentAgrees(known: bool)
      requires running && Exploring(known)
      ensures insertPoint < |blocks| && insertPoint in depth && blocks[insertPoint].exit == Open && Forward(blocks)
      ensures ConfigOk() && SymTyped(sym) && Inv(w, blocks, depth, unexplored + [Current()], known, ended)
      ensures forall s :: Here(s) ==> Agrees(w, Steps(), Current(), known, Reached(s), s)
    {
      assert Live()[|unexplored|] == Current();
      assert Simulates(w, blocks, depth, Live()[|unexplored|], known);
    }

    /** No ended path shares the current block. */
    lemma CurrentNotEnded(known: bool, kind: Kind)
      requires running && Exploring(known)
      ensures Ended(Current(), kind) !in ended
    {
      hide Simulates, Apart, AllTyped;
      assert Live()[|unexplored|] == Current();
    }

    /** Control goes to one known place: a straight or direct instruction, a solved branch or
        a solved indirect jump.  `assumed` is added to the path constraints. */
    method Continue(next: nat, assumed: seq<Term>)
      requires running && Exploring(false)
      requires forall s :: Here(s) ==> MachineHere(s).pc == next && Holds(assumed, s)
      modifies `pc, `pathConstraints, `log
      ensures Valid() && pc == next && pathConstraints == old(pathConstraints) + assumed
    {
      hide IsLog, Sharpens;
      CurrentAgrees(false);
      ghost var p, q := Current(), Current().(pc := next, constraints := pathConstraints + assumed);
      forall s ensures Holds(q.constraints, s) <==> Holds(p.constraints, s) && Holds(assumed, s) {
        HoldsConcat(p.constraints, assumed, s);
      }
      hide Holds, Inv, Represents, SymTyped, Apart;
      forall s | Final(w, blocks, s).0 == p.block ensures Agrees(w, depth[p.block], q, true, Final(w, blocks, s).1, s) {
        assert Here(s);
      }
      CurrentInv(w, blocks, depth, unexplored, p, false, ended, q);
      if !forkAtCmovs { ApartOne(unexplored, p, ended, q); }
      TypedReplaced(unexplored, p, [q]);
      ConstrainedSharpens(sym, pathConstraints, assumed, sym);
      LogRefined(o, w.image, log, SavedOf(p), unexplored, SavedOf(q));
      log := log + [Refined(SavedOf(q))];
      pc, pathConstraints := next, pathConstraints + assumed;
    }

    /** The condition the emulator holds is the condition of the state reached. */
    lemma ConditionHere(cond: Term, known: bool)
      requires running && Exploring(known) && Typed(cond, 1)
      ensures IsCondition(Subst(cond, sym)) && IsCondition(o.rewrite(Subst(cond, sym))) && insertPoint < |blocks|
      ensures forall s :: Here(s) ==>
        (True(cond, Reached(s)) <==> True(Subst(cond, sym), s))
          && (True(cond, Reached(s)) <==> True(o.rewrite(Subst(cond, sym)), s))
    {
      CurrentAgrees(known);
      hide Inv, True, SymTyped;
      SubstTyped(cond, sym);
      forall s | Here(s)
        ensures True(cond, Reached(s)) <==> True(Subst(cond, sym), s)
        ensures True(cond, Reached(s)) <==> True(o.rewrite(Subst(cond, sym)), s)
      {
        SubstEval(cond, sym, s, Reached(s));
        ConditionWord(cond, Reached(s));
        ConditionWord(Subst(cond, sym), s);
        ConditionWord(o.rewrite(Subst(cond, sym)), s);
      }
    }

    /** Forks the path at a condition of the state reached, unless it is an opaque predicate. */
    method Branching(cond: Term, jumpPc: nat, fallthroughPc: nat)
      requires running && Exploring(false) && Typed(cond, 1)
      requires forall s :: Here(s) ==> MachineHere(s).pc == if True(cond, Reached(s)) then jumpPc else fallthroughPc
      modifies this
      ensures Valid() && running && ended == old(ended) && old(unexplored) <= unexplored
        && |unexplored| <= |old(unexplored)| + 1
      ensures Steps() == old(Steps()) && |blocks| >= |old(blocks)|
      ensures unexplored == old(unexplored) <==> old(opaqueSolving && o.rewrite(Subst(cond, sym)).IsValue())
      ensures unexplored == old(unexplored) ==>
        var condition := old(o.rewrite(Subst(cond, sym)));
        && blocks == old(blocks) && pc == (if condition.value != 0 then jumpPc else fallthroughPc)
        && pathConstraints
             == old(pathConstraints) + [if condition.value != 0 then AsBool(condition) else Negated(condition)]
      ensures unexplored != old(unexplored) ==> pc == jumpPc && unexplored[|old(unexplored)|].pc == fallthroughPc
    {
      ConditionHere(cond, false);
      assert o.Sound();
      hide Inv, True, Exploring, Oracle.Sound;
      var condition := Subst(cond, sym);
      if opaqueSolving {
        condition := o.rewrite(condition);
        if condition.IsValue() {
          forall s | Here(s)
            ensures True(condition, s) <==> condition.value != 0
            ensures Holds([if condition.value != 0 then AsBool(condition) else Negated(condition)], s)
          {
            ConditionWord(condition, s);
          }
          if condition.value != 0 {
            Continue(jumpPc, [AsBool(condition)]);
          } else {
            Continue(fallthroughPc, [Negated(condition)]);
          }
          return;
        }
      }
      ForkPath(cond, condition, jumpPc, fallthroughPc);
    }

    /** Saves the fallthrough side on the stack and goes on with the taken side. */
    method ForkPath(cond: Term, condition: Term, jumpPc: nat, fallthroughPc: nat)
      requires running && Exploring(false) && IsCondition(condition)
      requires forall s :: Here(s) ==>
        (True(cond, Reached(s)) <==> True(condition, s))
          && MachineHere(s).pc == if True(condition, s) then jumpPc else fallthroughPc
      requires insertPoint < |blocks|
      modifies this
      ensures Valid() && running && ended == old(ended) && |unexplored| == |old(unexplored)| + 1
        && old(unexplored) <= unexplored
      ensures Steps() == old(Steps()) && blocks == Fork(old(blocks), old(insertPoint), cond, [], [])
      ensures pc == jumpPc && insertPoint == |old(blocks)|
        && pathConstraints == old(pathConstraints) + [AsBool(condition)]
      ensures var saved := unexplored[|old(unexplored)|];
        saved.pc == fallthroughPc && saved.block == |old(blocks)| + 1
          && saved.constraints == old(pathConstraints) + [Negated(condition)]
      ensures var saved := unexplored[|old(unexplored)|];
        forall n :: n in registers && SimplifyUnder(o, Lookup(old(sym), n), saved.constraints).IsValue() ==>
          Lookup(saved.sym, n).IsValue()
      ensures forall n :: n in registers && SimplifyUnder(o, Lookup(old(sym), n), pathConstraints).IsValue() ==>
        Lookup(sym, n).IsValue()
    {
      hide Inv, Apart, AllTyped, Represents, Holds, SymTyped, Oracle.Sound, Oracle.Decisive, Decoder.Lawful, BodyTyped;
      hide Forward, IsLog, Sharpens;
      CurrentAgrees(false);
      var taken, notTaken := pathConstraints + [AsBool(condition)], pathConstraints + [Negated(condition)];
      var fallthroughSym := SolveContext(o, registers, sym, notTaken);
      var jumpSym := SolveContext(o, registers, sym, taken);
      ghost var no, yes := Path(|blocks| + 1, fallthroughPc, fallthroughSym, notTaken),
        Path(|blocks|, jumpPc, jumpSym, taken);
      ForkKeeps(cond, condition, no, yes);
      ForkLogged(condition, no, yes);
      log := log + [Forked(SavedOf(no)), Refined(SavedOf(yes))];
      hide *;
      depth := depth[|blocks| := depth[insertPoint]][|blocks| + 1 := depth[insertPoint]];
      unexplored := unexplored + [Path(|blocks| + 1, fallthroughPc, fallthroughSym, notTaken)];
      blocks, insertPoint := Fork(blocks, insertPoint, cond, [], []), |blocks|;
      pc, sym, pathConstraints := jumpPc, jumpSym, taken;
      assert unexplored + [yes] == old(unexplored) + [no, yes];
    }

    lemma ForkLogged(condition: Term, no: Path, yes: Path)
      requires Logged() && ConfigOk() && SymTyped(no.sym) && SymTyped(yes.sym)
      requires forall n :: n !in registers ==>
        Lookup(no.sym, n) == Lookup(sym, n) && Lookup(yes.sym, n) == Lookup(sym, n)
      requires yes.constraints == pathConstraints + [AsBool(condition)]
        && no.constraints == pathConstraints + [Negated(condition)]
      ensures IsLog(o, w.image, log + [Forked(SavedOf(no)), Refined(SavedOf(yes))], SavedOf(yes), unexplored + [no])
    {
      hide IsLog, Sharpens, SymTyped, Lookup, Oracle.Sound, Oracle.Decisive, Decoder.Lawful;
      SolvedSharpens(registers, sym, no.sym, pathConstraints, Negated(condition));
      SolvedSharpens(registers, sym, yes.sym, pathConstraints, AsBool(condition));
      LogForked(o, w.image, log, Saved(sym, pathConstraints), unexplored, no, SavedOf(yes));
    }

    lemma ForkKeeps(cond: Term, condition: Term, no: Path, yes: Path)
      requires running && Exploring(false) && IsCondition(condition)
      requires forall s :: Here(s) ==>
        (True(cond, Reached(s)) <==> True(condition, s))
          && MachineHere(s).pc == if True(condition, s) then yes.pc else no.pc
      requires yes.block == |blocks| && no.block == |blocks| + 1 && SymTyped(yes.sym) && SymTyped(no.sym)
      requires yes.constraints == pathConstraints + [AsBool(condition)]
        && no.constraints == pathConstraints + [Negated(condition)]
      requires forall s, c :: Holds(yes.constraints, s) && Represents(sym, s, c) ==> Represents(yes.sym, s, c)
      requires forall s, c :: Holds(no.constraints, s) && Represents(sym, s, c) ==> Represents(no.sym, s, c)
      ensures insertPoint in depth && insertPoint < |blocks|
      ensures Inv(w, Fork(blocks, insertPoint, cond, [], []),
                  depth[|blocks| := depth[insertPoint]][|blocks| + 1 := depth[insertPoint]], unexplored + [no, yes],
                    true, ended)
      ensures !forkAtCmovs ==> Apart(unexplored + [no, yes], ended)
      ensures AllTyped(unexplored + [no, yes])
    {
      hide Inv, Apart, Represents, Holds, SymTyped, Oracle.Sound, Oracle.Decisive, Decoder.Lawful, BodyTyped, Forward;
      hide True;
      CurrentAgrees(false);
      ghost var p := Current();
      SplitConstraints(p.constraints, condition);
      forall s | Final(w, blocks, s).0 == p.block
        ensures var c := Final(w, blocks, s).1;
          Agrees(w, depth[p.block], if True(cond, c) then yes else no, true, c, s)
      {
        assert Here(s);
      }
      ForkInv(w, blocks, depth, unexplored, p, false, ended, cond, no, yes);
      if !forkAtCmovs { ApartTwo(unexplored, p, ended, no, yes); }
      TypedReplaced(unexplored, p, [no, yes]);
    }

    /** Emits the block of a decoded instruction and moves into it.  `body` has, on every input
        that gets here, the effect of the instruction's actions; the emitted code has the effect
        of `body`. */
    method EmitBlock(i: Instr, body: seq<Action>, ghost bytes: seq<nat>)
      requires running && Exploring(true) && pc != 0
      requires w.machine.decode(pc, bytes) == Decoded(i) && BodyTyped(body)
      requires AccessesOk(o, pathConstraints, FullBody(i), sym) && AccessesOk(o, pathConstraints, body, sym)
      requires forall s, c :: Represents(sym, s, c) ==> bytes <= FetchBytes(c, pc)
      requires forall s :: Here(s) ==> RunBody(body, Reached(s)) == RunBody(FullBody(i), Reached(s))
      modifies `sym, `blocks, `insertPoint, `depth, `log
      ensures Exploring(false) && Steps() == old(Steps()) + 1
      ensures old(insertPoint) < |old(blocks)| && insertPoint == |old(blocks)|
      ensures sym == Emulate(o, pathConstraints, body, old(sym))
      ensures blocks == Link(old(blocks), old(insertPoint), Lower(o, pathConstraints, body, old(sym)))
      ensures forall s :: Here(s) ==> MachineHere(s).pc == Next(i, Reached(s))
    {
      hide Inv, Apart, AllTyped, Represents, Holds, SymTyped, Oracle.Sound, Oracle.Decisive, Decoder.Lawful, BodyTyped;
      hide Forward;
      hide Emulate, Lower, AccessesOk, RunBody, IsLog;
      EmitKeeps(i, body, bytes);
      LogEmulated(o, w.image, log, SavedOf(Current()), unexplored, body);
      log := log + [Emulated(body)];
      var emitted := Lower(o, pathConstraints, body, sym);
      ghost var q := Path(|blocks|, pc, Emulate(o, pathConstraints, body, sym), pathConstraints);
      depth := depth[|blocks| := Steps() + 1];
      blocks, insertPoint, sym := Link(blocks, insertPoint, emitted), |blocks|, Emulate(o, pathConstraints, body, sym);
      forall s | Here(s) ensures MachineHere(s).pc == Next(i, Reached(s)) {
        assert Final(w, blocks, s).0 == q.block;
      }
    }

    lemma EmitKeeps(i: Instr, body: seq<Action>, bytes: seq<nat>)
      requires running && Exploring(true) && pc != 0
      requires w.machine.decode(pc, bytes) == Decoded(i) && BodyTyped(body)
      requires AccessesOk(o, pathConstraints, FullBody(i), sym) && AccessesOk(o, pathConstraints, body, sym)
      requires forall s, c :: Represents(sym, s, c) ==> bytes <= FetchBytes(c, pc)
      requires forall s :: Here(s) ==> RunBody(body, Reached(s)) == RunBody(FullBody(i), Reached(s))
      ensures insertPoint < |blocks|
      ensures var q := Path(|blocks|, pc, Emulate(o, pathConstraints, body, sym), pathConstraints);
        var after := Link(blocks, insertPoint, Lower(o, pathConstraints, body, sym));
        && Forward(after) && Inv(w, after, depth[|blocks| := Steps() + 1], unexplored + [q], false, ended)
        && (!forkAtCmovs ==> Apart(unexplored + [q], ended))
        && AllTyped(unexplored + [q])
        && forall s :: Final(w, after, s).0 == |blocks| ==>
             MachineAt(w, s, Steps() + 1).pc == Next(i, Final(w, after, s).1)
    {
      hide Inv, Apart, AllTyped, Represents, Holds, SymTyped, Oracle.Sound, Oracle.Decisive, Decoder.Lawful, BodyTyped;
      hide Forward;
      hide Emulate, Lower, AccessesOk, RunBody;
      CurrentAgrees(true);
      var p, d := Current(), Steps() + 1;
      var emitted := Lower(o, pathConstraints, body, sym);
      var q := Path(|blocks|, pc, Emulate(o, pathConstraints, body, sym), pathConstraints);
      forall s | Final(w, blocks, s).0 == p.block
        ensures Agrees(w, d, q, false, RunBody(emitted, Final(w, blocks, s).1), s)
        ensures MachineAt(w, s, d).pc == Next(i, RunBody(emitted, Final(w, blocks, s).1))
      {
        assert Here(s);
        StepAgrees(w, o, Steps(), p, bytes, Reached(s), s);
        EmulateRepresents(o, pathConstraints, body, sym, s, Reached(s));
        LowerRuns(o, pathConstraints, body, sym, s, Reached(s));
      }
      LinkInv(w, blocks, depth, unexplored, p, ended, emitted, d, q, false);
      if !forkAtCmovs { ApartOne(unexplored, p, ended, q); }
      EmulateTyped(o, pathConstraints, body, sym);
      TypedReplaced(unexplored, p, [q]);
    }

    /** A conditional move whose condition is not a literal: a block, a fork at its end, and
        the selected store on each side.  The path constraints stay as they are. */
    method ForkAtMove(i: Instr, ghost bytes: seq<nat>)
      requires running && Exploring(true) && pc != 0 && forkAtCmovs && AccessesOk(o, pathConstraints, FullBody(i), sym)
      requires w.machine.decode(pc, bytes) == Decoded(i) && i.CondMove?
      requires forall s, c :: Represents(sym, s, c) ==> bytes <= FetchBytes(c, pc)
      modifies this
      ensures Valid() && running && ended == old(ended) && Steps() == old(Steps()) + 1 && |blocks| > |old(blocks)|
        && pc == i.next
      ensures old(unexplored) <= unexplored && |unexplored| == |old(unexplored)| + 1
        && unexplored[|old(unexplored)|].pc == i.next
      ensures old(insertPoint) < |old(blocks)| && pathConstraints == old(pathConstraints)
        && unexplored[|old(unexplored)|].constraints == pathConstraints
      ensures var block := Link(old(blocks), old(insertPoint), Lower(o, pathConstraints, i.body, old(sym)));
        blocks == Fork(block, |old(blocks)|, i.cond, [Assign(i.dest, i.onTrue)], [Assign(i.dest, i.onFalse)])
    {
      hide Inv, Apart, AllTyped, Represents, Holds, SymTyped, Oracle.Sound, Oracle.Decisive, Decoder.Lawful, BodyTyped;
      hide Forward, IsLog, Emulate, Lower, AccessesOk, True, FetchBytes, FullBody;
      var onTrue, onFalse := [Assign(i.dest, i.onTrue)], [Assign(i.dest, i.onFalse)];
      var base, emitted := Emulate(o, pathConstraints, i.body, sym), Lower(o, pathConstraints, i.body, sym);
      var trueSym, falseSym := Emulate(o, pathConstraints, onTrue, base), Emulate(o, pathConstraints, onFalse, base);
      var n := |blocks|;
      ghost var no, yes := Path(n + 2, i.next, falseSym, pathConstraints),
        Path(n + 1, i.next, trueSym, pathConstraints);
      MoveKeeps(i, bytes, no, yes);
      log := log + [Emulated(i.body), Forked(SavedOf(no)), Refined(SavedOf(yes))];
      ghost var d := Steps() + 1;
      unexplored := unexplored + [Path(n + 2, i.next, falseSym, pathConstraints)];
      depth := depth[n + 1 := d][n + 2 := d];
      blocks, insertPoint := Fork(Link(blocks, insertPoint, emitted), n, i.cond, onTrue, onFalse), n + 1;
      pc, sym := i.next, trueSym;
      assert unexplored + [yes] == old(unexplored) + [no, yes];
    }

    lemma MoveKeeps(i: Instr, bytes: seq<nat>, no: Path, yes: Path)
      requires running && Exploring(true) && pc != 0 && AccessesOk(o, pathConstraints, FullBody(i), sym)
      requires w.machine.decode(pc, bytes) == Decoded(i) && i.CondMove?
      requires forall s, c :: Represents(sym, s, c) ==> bytes <= FetchBytes(c, pc)
      requires var base := Emulate(o, pathConstraints, i.body, sym); var cs := pathConstraints;
        && yes == Path(|blocks| + 1, i.next, Emulate(o, cs, [Assign(i.dest, i.onTrue)], base), cs)
        && no == Path(|blocks| + 2, i.next, Emulate(o, cs, [Assign(i.dest, i.onFalse)], base), cs)
      ensures insertPoint < |blocks| && insertPoint in depth && ConfigOk()
      ensures var d := Steps() + 1;
        Inv(w, Fork(Link(blocks, insertPoint, Lower(o, pathConstraints, i.body, sym)), |blocks|, i.cond,
                    [Assign(i.dest, i.onTrue)], [Assign(i.dest, i.onFalse)]),
            depth[|blocks| + 1 := d][|blocks| + 2 := d], unexplored + [no, yes], true, ended)
      ensures AllTyped(unexplored + [no, yes])
      ensures IsLog(o, w.image, log + [Emulated(i.body), Forked(SavedOf(no)), Refined(SavedOf(yes))], SavedOf(yes),
                    unexplored + [no])
    {
      hide Inv, Apart, AllTyped, Represents, Holds, SymTyped, Oracle.Sound, Oracle.Decisive, Decoder.Lawful, BodyTyped;
      hide Forward, IsLog, InstrTyped, Emulate, Lower, AccessesOk, Link, Fork, FetchBytes, FullBody;
      DecodedTyped(w.machine, pc, bytes);
      CurrentAgrees(true);
      MoveForks(w, o, blocks, depth, unexplored, Current(), ended, i, bytes, no, yes);
      MoveLogged(i, Emulate(o, pathConstraints, i.body, sym), no, yes);
    }

    lemma MoveLogged(i: Instr, base: Sym, no: Path, yes: Path)
      requires Logged() && ConfigOk() && SymTyped(sym) && InstrTyped(i) && i.CondMove?
      requires base == Emulate(o, pathConstraints, i.body, sym)
      requires no.sym == Emulate(o, pathConstraints, [Assign(i.dest, i.onFalse)], base)
      requires yes.sym == Emulate(o, pathConstraints, [Assign(i.dest, i.onTrue)], base)
      requires no.constraints == pathConstraints && yes.constraints == pathConstraints
      ensures IsLog(o, w.image, log + [Emulated(i.body), Forked(SavedOf(no)), Refined(SavedOf(yes))], SavedOf(yes),
                    unexplored + [no])
    {
      hide IsLog, Sharpens, SymTyped, Emulate, Oracle.Sound, Oracle.Decisive, Decoder.Lawful, Typed, BodyTyped;
      ghost var now, middle := SavedOf(Current()), log + [Emulated(i.body)];
      LogEmulated(o, w.image, log, now, unexplored, i.body);
      EmulateTyped(o, pathConstraints, i.body, sym);
      AssignedSharpens(o, base, pathConstraints, i.dest, i.onFalse);
      AssignedSharpens(o, base, pathConstraints, i.dest, i.onTrue);
      LogForked(o, w.image, middle, now.(sym := base), unexplored, no, SavedOf(yes));
      assert middle + [Forked(SavedOf(no)), Refined(SavedOf(yes))]
          == log + [Emulated(i.body), Forked(SavedOf(no)), Refined(SavedOf(yes))];
    }

    /** A conditional move, under the fork option. */
    method HandleConditionalMove(i: Instr, ghost bytes: seq<nat>)
      requires running && Exploring(true) && pc != 0 && forkAtCmovs && AccessesOk(o, pathConstraints, FullBody(i), sym)
      requires w.machine.decode(pc, bytes) == Decoded(i) && i.CondMove?
      requires forall s, c :: Represents(sym, s, c) ==> bytes <= FetchBytes(c, pc)
      modifies this
      ensures Valid() && running && ended == old(ended) && Steps() == old(Steps()) + 1 && |blocks| > |old(blocks)|
        && pc == i.next
      ensures old(unexplored) <= unexplored && |unexplored| == |old(unexplored)|
        + if opaqueSolving && o.rewrite(Subst(i.cond, Emulate(o, old(pathConstraints), i.body, old(sym)))).IsValue()
          then 0 else 1
    {
      hide Inv, Apart, AllTyped, Represents, Holds, SymTyped, Oracle.Sound, Oracle.Decisive, Decoder.Lawful, BodyTyped;
      hide Forward, RunBody, Emulate, AccessesOk, Subst, InstrTyped, FetchBytes, FullBody, Typed, Exploring;
      CurrentAgrees(true);
      DecodedTyped(w.machine, pc, bytes);
      MoveTyped(i);
      MoveAccesses(o, pathConstraints, i, sym);
      var condition := o.rewrite(Subst(i.cond, Emulate(o, pathConstraints, i.body, sym)));
      if opaqueSolving && condition.IsValue() {
        var chosen := if condition.value != 0 then i.onTrue else i.onFalse;
        forall s | Here(s)
          ensures RunBody(i.body + [Assign(i.dest, chosen)], Reached(s)) == RunBody(FullBody(i), Reached(s))
        {
          SolvedMove(o, pathConstraints, i, sym, s, Reached(s));
        }
        EmitBlock(i, i.body + [Assign(i.dest, chosen)], bytes);
        NothingAssumed();
        Continue(i.next, []);
      } else {
        ForkAtMove(i, bytes);
      }
    }

    /** An indirect jump: follow a known target, fork on two, give up otherwise. */
    method IndirectJump(i: Instr) returns (status: Status)
      requires running && Exploring(false) && i.Indirect? && Typed(i.address, 64)
      requires forall s :: Here(s) ==> MachineHere(s).pc == Next(i, Reached(s))
      modifies this
      ensures running && ended == old(ended) && Steps() == old(Steps()) && |blocks| >= |old(blocks)| && status != Thrown
      ensures status == ExploreOtherPaths ==> unchanged(this)
      ensures old(unexplored) <= unexplored && |unexplored| <= |old(unexplored)| + 1
      ensures if status == Successful then Valid() else Exploring(false)
      ensures status == Successful <==> JumpResolved(o, i, old(sym), old(pathConstraints))
      ensures var next := o.rewrite(Subst(i.address, old(sym)));
        next.IsValue() ==> pc == next.value && unexplored == old(unexplored)
    {
      hide Inv, Apart, AllTyped, Represents, Holds, SymTyped, Oracle.Sound, Oracle.Decisive, Decoder.Lawful, Forward;
      hide True, Typed, Exploring;
      hide Covers, Attainable, Eval, Equal, FewValues, Enumerable;
      CurrentAgrees(false);
      AddressHere(i.address);
      NothingAssumed();
      var next := o.rewrite(Subst(i.address, sym));
      status := Successful;
      if next.IsValue() {
        LiteralValue(next);
        Continue(next.value, []);
      } else {
        var targets, result := PossibleValues(o, next, pathConstraints);
        FewValuesExact(next, pathConstraints, targets);
        if |targets| == 1 {
          CoveredByFew(next, pathConstraints, targets);
          Continue(targets[0].value, []);
        } else if |targets| == 2 {
          CoveredByFew(next, pathConstraints, targets);
          TargetCondition(i.address, targets[0].value);
          Branching(Ite(Equal(i.address, Value(64, targets[0].value)), Value(1, 1), Value(1, 0)), targets[0].value,
            targets[1].value);
        } else {
          status := ExploreOtherPaths;
        }
      }
    }

    lemma AddressHere(address: Term)
      requires running && Exploring(false) && Typed(address, 64)
      ensures o.rewrite(Subst(address, sym)).WellSorted() && o.rewrite(Subst(address, sym)).Width() == 64
      ensures forall s :: Here(s) ==>
        Eval(o.rewrite(Subst(address, sym)), s) == Eval(address, Reached(s)) && Holds(pathConstraints, s)
    {
      hide Inv, Apart, AllTyped, Represents, Holds, SymTyped;
      CurrentAgrees(false);
      SubstTyped(address, sym);
      forall s | Here(s)
        ensures Eval(o.rewrite(Subst(address, sym)), s) == Eval(address, Reached(s)) && Holds(pathConstraints, s)
      {
        SubstEval(address, sym, s, Reached(s));
      }
    }

    lemma EndKeeps(exit: Exit, kind: Kind)
      requires running && Exploring(kind != Unresolved)
      requires match kind
        case Returned => exit == Return && pc == 0
        case Unlifted => exit == Trap && pc != 0
        case _ => exit == Open && pc != 0
      ensures insertPoint < |blocks| && Ended(Current(), kind) !in ended && ConfigOk()
      ensures Inv(w, Seal(blocks, insertPoint, exit), depth, unexplored, true, ended + {Ended(Current(), kind)})
      ensures !forkAtCmovs ==> Apart(unexplored, ended + {Ended(Current(), kind)})
      ensures AllTyped(unexplored)
    {
      hide Inv, Apart, AllTyped, SymTyped, Oracle.Sound, Oracle.Decisive, Decoder.Lawful, Forward;
      CurrentNotEnded(kind != Unresolved, kind);
      CurrentAgrees(kind != Unresolved);
      EndInv(w, blocks, depth, unexplored, Current(), kind != Unresolved, ended, exit, kind);
      if !forkAtCmovs { ApartEnd(unexplored, Current(), ended, kind); }
      TypedReplaced(unexplored, Current(), []);
      assert unexplored + [] == unexplored;
    }

    /** Ends the current path and takes the next one off the stack, if any. */
    method EndPath(exit: Exit, ghost kind: Kind)
      requires running && Exploring(kind != Unresolved)
      requires match kind
        case Returned => exit == Return && pc == 0
        case Unlifted => exit == Trap && pc != 0
        case _ => exit == Open && pc != 0
      modifies this
      ensures Valid() && ended == old(ended) + {Ended(old(Current()), kind)} && |ended| == |old(ended)| + 1
      ensures old(insertPoint) < |old(blocks)| && blocks == Seal(old(blocks), old(insertPoint), exit)
      ensures running <==> old(unexplored) != []
      ensures running ==> old(unexplored) == unexplored + [Current()]
    {
      hide Inv, Apart, AllTyped, SymTyped, Oracle.Sound, Oracle.Decisive, Decoder.Lawful, Forward, Seal, Holds;
      EndKeeps(exit, kind);
      ended := ended + {Ended(Current(), kind)};
      blocks := Seal(blocks, insertPoint, exit);
      NextPath();
    }

    /** Restores the most recently saved path, or stops when there is none. */
    method NextPath()
      requires running && Logged()
      modifies `unexplored, `insertPoint, `pc, `sym, `pathConstraints, `running, `log
      ensures Logged()
      ensures Live() == old(unexplored) && (running <==> old(unexplored) != []) && (!running ==> unexplored == [])
      ensures running ==> old(unexplored) == unexplored + [Current()]
    {
      if unexplored == [] {
        running := false;
      } else {
        hide IsLog;
        LogResumed(o, w.image, log, Saved(sym, pathConstraints), unexplored);
        log := log + [Resumed];
        var path := unexplored[|unexplored| - 1];
        unexplored := unexplored[..|unexplored| - 1];
        insertPoint, pc, sym, pathConstraints := path.block, path.pc, path.sym, path.constraints;
      }
    }

    /** Lifts a decoded instruction and decides where the path goes on. */
    method LiftInstruction(i: Instr, ghost bytes: seq<nat>) returns (status: Status)
      requires running && Exploring(true) && pc != 0
      requires w.machine.decode(pc, bytes) == Decoded(i)
      requires forall s, c :: Represents(sym, s, c) ==> bytes <= FetchBytes(c, pc)
      modifies this
      ensures status == Thrown ==> unchanged(this)
      ensures status != Thrown ==>
        running && ended == old(ended) && Steps() == old(Steps()) + 1 && |blocks| > |old(blocks)|
      ensures status == ExploreOtherPaths ==>
        && unexplored == old(unexplored) && Exploring(false) && pc == old(pc) && insertPoint == |old(blocks)|
        && old(insertPoint) < |old(blocks)|
        && blocks == Link(old(blocks), old(insertPoint), Lower(o, old(pathConstraints), i.body, old(sym)))
      ensures old(unexplored) <= unexplored && |unexplored| <= |old(unexplored)| + 1
      ensures status == Successful ==> Valid()
      ensures status == Thrown <==> !AccessesOk(o, old(pathConstraints), FullBody(i), old(sym))
      ensures status == Successful <==> Leavable(o, i, old(sym), old(pathConstraints))
      ensures status == Successful && (i.Plain? || i.Direct? || (i.CondMove? && !forkAtCmovs)) ==>
        && unexplored == old(unexplored) && pathConstraints == old(pathConstraints)
        && pc == if i.Direct? then i.target else i.next
      ensures status == Successful && i.CondMove? && forkAtCmovs ==>
        pc == i.next && |unexplored| == |old(unexplored)|
          + if opaqueSolving && o.rewrite(Subst(i.cond, Emulate(o, old(pathConstraints), i.body, old(sym)))).IsValue()
            then 0 else 1
      ensures status == Successful && i.Conditional? ==>
        var cond := o.rewrite(Subst(i.cond, Emulate(o, old(pathConstraints), i.body, old(sym))));
        if opaqueSolving && cond.IsValue()
          then unexplored == old(unexplored) && pc == if cond.value != 0 then i.taken else i.notTaken
          else |unexplored| == |old(unexplored)| + 1 && pc == i.taken && unexplored[|old(unexplored)|].pc == i.notTaken
      ensures status == Successful && i.Indirect? ==>
        var next := o.rewrite(Subst(i.address, Emulate(o, old(pathConstraints), i.body, old(sym))));
        next.IsValue() ==> pc == next.value && unexplored == old(unexplored)
    {
      hide Inv, Apart, AllTyped, Represents, Holds, SymTyped, Oracle.Sound, Oracle.Decisive, Decoder.Lawful, BodyTyped;
      hide Forward;
      hide True, Typed, FewValues, AccessesOk, Emulate, Lower, RunBody, Exploring;
      if !AccessesOk(o, pathConstraints, FullBody(i), sym) {
        return Thrown;
      }
      CurrentAgrees(true);
      DecodedTyped(w.machine, pc, bytes);
      FullBodyTyped(i);
      status := Successful;
      if i.CondMove? && forkAtCmovs {
        HandleConditionalMove(i, bytes);
        return;
      }
      EmitBlock(i, FullBody(i), bytes);
      NothingAssumed();
      match i {
        case Conditional(_, cond, taken, notTaken) => Branching(cond, taken, notTaken);
        case Indirect(_, _) => status := IndirectJump(i);
        case Direct(_, target) => Continue(target, []);
        case Plain(_, next) => Continue(next, []);
        case CondMove(_, _, _, _, _, next) => Continue(next, []);
      }
    }

    /** One round of the exploration loop.  Either the current path makes one machine step, or it
        ends and the next saved path becomes current, or an access throws.  A path ends in a
        return at program counter zero, in a trap where lifting fails, and otherwise nowhere. */
    method ProcessInstruction() returns (thrown: bool, ghost lifted: bool, ghost bytes: seq<nat>)
      requires Valid() && running
      modifies this
      ensures Valid() && (lifted <==> old(CanLift(w, o, Current()))) && (thrown <==> old(Throws(w, o, Current())))
      ensures thrown ==> unchanged(this)
      ensures lifted ==>
        running && ended == old(ended) && Steps() == old(Steps()) + 1 && |unexplored| <= |old(unexplored)| + 1
      ensures !lifted && !thrown ==> old(ended) <= ended && |ended| == |old(ended)| + 1 && |Live()| == |old(Live())| - 1
      ensures !thrown ==> |blocks| + |ended| > |old(blocks)| + |old(ended)|
      ensures !lifted && !thrown ==>
        if old(unexplored) == [] then !running else running && old(unexplored) == unexplored + [Current()]
      ensures old(insertPoint) < |old(blocks)|
      ensures old(pc) == 0 ==>
        && !lifted && !thrown && ended == old(ended) + {Ended(old(Current()), Returned)}
        && blocks == old(blocks)[old(insertPoint) := Block(old(blocks)[old(insertPoint)].body, Return)]
      ensures old(pc) != 0 ==> IsConcretePrefix(old(sym), old(pc), bytes)
      ensures old(pc) != 0 && w.machine.decode(old(pc), bytes).Undecodable? ==>
        !lifted && !thrown && ended == old(ended) + {Ended(old(Current()), Undecoded)} && blocks == old(blocks)
      ensures old(pc) != 0 && w.machine.decode(old(pc), bytes).Unliftable? ==>
        && !lifted && !thrown && |blocks| == |old(blocks)| + 1 && blocks[|old(blocks)|] == Block([], Trap)
        && ended == old(ended) + {Ended(old(Current()).(block := |old(blocks)|), Unlifted)}
      ensures old(pc) != 0 && w.machine.decode(old(pc), bytes).Decoded? && !lifted && !thrown ==>
        && |blocks| == |old(blocks)| + 1 && blocks[|old(blocks)|].exit == Open
        && exists p: Path :: p.block == |old(blocks)| && p.pc == old(pc) && ended == old(ended) + {Ended(p, Unresolved)}
    {
      hide Inv, Apart, AllTyped, Represents, Holds, SymTyped, Oracle.Sound, Oracle.Decisive, Decoder.Lawful, BodyTyped;
      hide Forward;
      hide True, Typed, CanLift, Throws, IsConcretePrefix, JumpResolved, Emulate, FullBody, AccessesOk;
      lifted, thrown, bytes := false, false, [];
      if pc == 0 {
        NotAtEnd(w, o, Current());
        EndPath(Return, Returned);
        return;
      }
      CurrentAgrees(true);
      var fetched := FetchConcrete(sym, pc);
      bytes := fetched;
      CanLiftBy(w, o, Current(), bytes);
      match w.machine.decode(pc, fetched) {
        case Undecodable =>
          EndPath(Open, Undecoded);
        case Unliftable =>
          EmitTrap();
          EndPath(Trap, Unlifted);
        case Decoded(i) =>
          var status := LiftInstruction(i, bytes);
          if status == Successful {
            lifted := true;
          } else if status == Thrown {
            thrown := true;
          } else {
            EndPath(Open, Unresolved);
          }
      }
    }

    /** A block for an instruction that could not be lifted. */
    method EmitTrap()
      requires Valid() && running
      modifies `blocks, `insertPoint, `depth
      ensures Valid() && running && pc == old(pc) && old(insertPoint) < |old(blocks)|
      ensures blocks == Link(old(blocks), old(insertPoint), []) && insertPoint == |old(blocks)|
    {
      hide Inv, Apart, AllTyped, Represents, Holds, SymTyped, Oracle.Sound, Oracle.Decisive, Decoder.Lawful, BodyTyped;
      hide Forward, True, Typed;
      CurrentAgrees(true);
      ghost var p, q := Current(), Current().(block := |blocks|);
      forall s | Final(w, blocks, s).0 == p.block
        ensures Agrees(w, depth[p.block], q, true, RunBody([], Final(w, blocks, s).1), s)
      {
        assert Here(s);
      }
      LinkInv(w, blocks, depth, unexplored, p, ended, [], depth[p.block], q, true);
      if !forkAtCmovs { ApartOne(unexplored, p, ended, q); }
      PairTyped(q, q);
      assert [q, q][..1] == [q];
      TypedReplaced(unexplored, p, [q]);
      depth := depth[|blocks| := depth[insertPoint]];
      blocks, insertPoint := Link(blocks, insertPoint, []), |blocks|;
    }

    /** Any number of rounds, from any reachable state.  Each emits a block or ends a path, and
        the loop stops early only when no path is left or an access throws. */
    method Run(rounds: nat) returns (done: nat, thrown: bool)
      requires Valid()
      modifies this
      ensures Valid() && done <= rounds && (done < rounds ==> !running || thrown)
      ensures thrown ==> running && Throws(w, o, Current())
      ensures |blocks| + |ended| >= |old(blocks)| + |old(ended)| + done
    {
      done, thrown := 0, false;
      while done < rounds && running && !thrown
        invariant Valid() && done <= rounds && (thrown ==> running && Throws(w, o, Current()))
        invariant |blocks| + |ended| >= |old(blocks)| + |old(ended)| + done
        decreases rounds - done, !thrown
      {
        hide *;
        ghost var lifted, bytes;
        thrown, lifted, bytes := ProcessInstruction();
        if !thrown {
          done := done + 1;
        }
      }
    }
  }

  // ------------------------------------------------- a jump that may stop the machine

  /** One instruction: a jump to the address in a register. */
  function JumpingWorld(): World {
    World(Decoder((pc, bytes) => if pc == 1 then Decoded(Indirect([], Symbol(Register(0), 64))) else Undecodable),
          map[], 1)
  }

  lemma JumpingLawful()
    ensures JumpingWorld().machine.Lawful()
  {
    assert Typed(Symbol(Register(0), 64), 64);
  }

  lemma JumpUnresolved(o: Oracle, p: Path)
    requires o.Sound() && o.Decisive() && p == Path(0, 1, map[], [])
    ensures !CanLift(JumpingWorld(), o, p) && !Throws(JumpingWorld(), o, p)
  {
    var t := o.rewrite(Symbol(Register(0), 64));
    TooManyAddresses(o);
    RegisterTakes(o, 0);
    assert IsAddress(t);
    ResolveMeans(o, [], t);
    hide Resolve, Enumerates, Covers, Eval, Oracle.Sound, Oracle.Decisive;
    FewAreEnumerable(t, []);
    assert Subst(Symbol(Register(0), 64), map[]) == Symbol(Register(0), 64);
  }

  /** With zero in the register the machine stops after the jump. */
  lemma JumpStops(s: Assignment)
    requires s == imap[Register(0) := 0]
    ensures MachineAt(JumpingWorld(), s, 1).pc == 0
  {
    var w := JumpingWorld();
    var start := MState(1, Start(map[], s));
    assert RunMachine(w.machine, start, 0) == start;
    assert RunBody([], start.state) == start.state;
    ZeroSymbol(s, Register(0), 64);
    ZeroSymbol(start.state, Register(0), 64);
  }

  /** Where a jump cannot be resolved the code does not return, although the machine may stop. */
  method UnresolvedMayStop(o: Oracle) returns (cpu: Cpu)
    requires o.Sound() && o.Decisive()
    ensures cpu.Valid() && !cpu.running && cpu.w == JumpingWorld() && |cpu.blocks| > 0 && Forward(cpu.blocks)
    ensures var s: Assignment := imap[Register(0) := 0];
      cpu.blocks[Final(cpu.w, cpu.blocks, s).0].exit == Open && MachineAt(cpu.w, s, 1).pc == 0
  {
    JumpingLawful();
    cpu := new Cpu(JumpingWorld(), o, [], false, false);
    JumpUnresolved(o, cpu.Current());
    var thrown, lifted, bytes := cpu.ProcessInstruction();
    ghost var s: Assignment := imap[Register(0) := 0];
    JumpStops(s);
    EveryInputHasItsLeaf(cpu.w, cpu.blocks, cpu.depth, [], true, cpu.ended, s);
  }
}
