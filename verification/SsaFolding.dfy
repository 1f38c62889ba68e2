/** Folding of constants in src/passes/constant_propagation.cpp: loads found safe and
    instructions with constant operands are replaced by constants, and the replaced
    instructions are erased. */
module SsaFolding {
  import opened Bits
  import opened Wrappers

  /** Other stands for undef and poison, which never count as constants, and for arguments. */
  datatype Operand = Constant(value: nat) | Other | Result(inst: nat)

  type Ir = map<nat, seq<Operand>>

  /** The constant a folded value becomes: whatever its width, only 64 bits are kept. */
  function Folded(v: nat): nat { Mod64(v) }

  function ReplaceUse(o: Operand, j: nat, c: nat): Operand { if o == Result(j) then Constant(c) else o }

  function ReplaceAllUses(ir: Ir, j: nat, c: nat): Ir {
    map i | i in ir :: seq(|ir[i]|, k requires 0 <= k < |ir[i]| => ReplaceUse(ir[i][k], j, c))
  }

  /** The operand, and the code, after every instruction of `done` has been replaced. */
  function Replaced(o: Operand, known: map<nat, nat>, done: set<nat>): Operand {
    if o.Result? && o.inst in done && o.inst in known then Constant(Folded(known[o.inst])) else o
  }

  function Substituted(ir: Ir, known: map<nat, nat>, done: set<nat>): Ir {
    map i | i in ir :: seq(|ir[i]|, k requires 0 <= k < |ir[i]| => Replaced(ir[i][k], known, done))
  }

  lemma ReplaceOne(ir: Ir, known: map<nat, nat>, done: set<nat>, j: nat)
    requires j in known
    ensures ReplaceAllUses(Substituted(ir, known, done), j, Folded(known[j])) == Substituted(ir, known, done + {j})
  {
    hide Mod64;
    var a, b := ReplaceAllUses(Substituted(ir, known, done), j, Folded(known[j])), Substituted(ir, known, done + {j});
    forall i | i in ir ensures a[i] == b[i] {
    }
  }

  lemma ReplaceNone(ir: Ir, known: map<nat, nat>)
    ensures Substituted(ir, known, {}) == ir
  {
    forall i | i in ir ensures Substituted(ir, known, {})[i] == ir[i] {
    }
  }

  /** `eligible` collects what does not change while folding: neither load, store, phi nor
      terminator, no side effects, of integer type, outside loops and joined blocks, unable to
      create undefined values, safe to speculate, and tracked by the symbolic executor. */
  predicate Candidate(ir: Ir, eligible: set<nat>, i: nat) {
    i in ir && i in eligible && forall o :: o in ir[i] ==> o.Constant?
  }

  predicate Foldable(ir: Ir, eligible: set<nat>, known: map<nat, nat>, i: nat) {
    Candidate(ir, eligible, i) && i in known
  }

  predicate Distinct(s: seq<nat>) { forall i, j :: 0 <= i < j < |s| ==> s[i] != s[j] }

  predicate Uses(ir: Ir, i: nat, j: nat) { i in ir && Result(j) in ir[i] }

  function Elements(s: seq<nat>): set<nat> { set x | x in s }

  /** A function's code, and for each instruction whose symbolic value is concrete and of the
      instruction's own width, that value. */
  class Function {
    var ir: Ir
    const eligible: set<nat>
    const known: map<nat, nat>

    constructor (ir: Ir, eligible: set<nat>, known: map<nat, nat>)
      ensures this.ir == ir && this.eligible == eligible && this.known == known
    {
      this.ir, this.eligible, this.known := ir, eligible, known;
    }
  }

  method CollectUsers(ir: Ir, j: nat) returns (users: seq<nat>)
    ensures forall i :: i in users <==> Uses(ir, i, j)
  {
    users := [];
    var rest := ir.Keys;
    while rest != {}
      invariant rest <= ir.Keys
      invariant forall i :: i in users <==> i !in rest && Uses(ir, i, j)
    {
      var i :| i in rest;
      if Result(j) in ir[i] { users := users + [i]; }
      rest := rest - {i};
    }
  }

  method Enqueue(i: nat, folded: set<nat>, worklist: seq<nat>, queued: set<nat>) returns (worklist': seq<nat>,
                 queued': set<nat>)
    requires Distinct(worklist) && queued == Elements(worklist) && folded !! queued
    ensures Distinct(worklist') && queued' == Elements(worklist') && folded !! queued'
    ensures queued' == if i in folded then queued else queued + {i}
  {
    worklist', queued' := worklist, queued;
    if i !in folded && i !in queued {
      worklist', queued' := worklist + [i], queued + {i};
      assert Elements(worklist') == Elements(worklist) + {i};
    }
  }

  method EnqueueAll(items: seq<nat>, folded: set<nat>, worklist: seq<nat>, queued: set<nat>)
    returns (worklist': seq<nat>, queued': set<nat>)
    requires Distinct(worklist) && queued == Elements(worklist) && folded !! queued
    ensures Distinct(worklist') && queued' == Elements(worklist') && folded !! queued'
    ensures queued' == queued + (Elements(items) - folded)
  {
    worklist', queued' := worklist, queued;
    for k := 0 to |items|
      invariant Distinct(worklist') && queued' == Elements(worklist') && folded !! queued'
      invariant queued' == queued + (Elements(items[..k]) - folded)
    {
      worklist', queued' := Enqueue(items[k], folded, worklist', queued');
      assert items[..k + 1] == items[..k] + [items[k]];
      assert Elements(items[..k + 1]) == Elements(items[..k]) + {items[k]};
    }
    assert items[..|items|] == items;
  }

  /** Everything that was queued for a reason (a seed or a user of a replaced instruction) is
      folded, still queued, or cannot be folded. */
  ghost predicate Settled(start: Ir, ir: Ir, eligible: set<nat>, known: map<nat, nat>, seeds: seq<nat>,
                          folded: set<nat>, queued: set<nat>) {
    forall i :: (i in seeds || exists j :: j in folded && Uses(start, i, j)) ==>
      i in folded || i in queued || !Foldable(ir, eligible, known, i)
  }

  /** The operands of instruction `dead[k]` are constants, or were replaced before it. */
  ghost predicate Founded(ir: Ir, base: seq<nat>, dead: seq<nat>, k: nat)
    requires k < |dead|
  {
    dead[k] in ir && forall o :: o in ir[dead[k]] ==>
      o.Constant? || (o.Result? && (o.inst in base || o.inst in dead[..k]))
  }

  /** The code so far, in terms of the code at the start. */
  ghost predicate FoldState(start: Ir, ir: Ir, known: map<nat, nat>, eligible: set<nat>, folded: set<nat>,
                            dead: seq<nat>) {
    && ir == Substituted(start, known, folded)
    && Distinct(dead) && folded == Elements(dead) && folded <= known.Keys * start.Keys * eligible
    && (forall j :: j in folded ==> Candidate(ir, eligible, j))
    && (forall k :: 0 <= k < |dead| ==> Founded(start, [], dead, k))
  }

  lemma FoldStep(start: Ir, ir: Ir, known: map<nat, nat>, eligible: set<nat>, folded: set<nat>, dead: seq<nat>, i: nat)
    requires FoldState(start, ir, known, eligible, folded, dead) && Foldable(ir, eligible, known, i) && i !in folded
    ensures FoldState(start, ReplaceAllUses(ir, i, Folded(known[i])), known, eligible, folded + {i}, dead + [i])
    ensures ir == Substituted(start, known, folded)
  {
    hide Mod64;
    ReplaceOne(start, known, folded, i);
    assert Elements(dead + [i]) == Elements(dead) + {i};
    var ir' := ReplaceAllUses(ir, i, Folded(known[i]));
    forall j | j in folded + {i} ensures Candidate(ir', eligible, j) {
      assert Candidate(ir, eligible, j);
    }
    forall k | 0 <= k <= |dead| ensures Founded(start, [], dead + [i], k) {
      if k < |dead| {
        assert Founded(start, [], dead, k) && (dead + [i])[..k] == dead[..k];
      } else {
        ConstantOperands(start, known, folded, i);
        assert (dead + [i])[..k] == dead;
      }
    }
  }

  /** Operands that have become constants were constants or have been replaced. */
  lemma ConstantOperands(start: Ir, known: map<nat, nat>, done: set<nat>, i: nat)
    requires i in start && forall o :: o in Substituted(start, known, done)[i] ==> o.Constant?
    ensures forall o :: o in start[i] ==> o.Constant? || (o.Result? && o.inst in done)
  {
    hide Mod64;
    forall o | o in start[i] ensures o.Constant? || (o.Result? && o.inst in done) {
      var k :| 0 <= k < |start[i]| && start[i][k] == o;
      assert Substituted(start, known, done)[i][k].Constant?;
    }
  }

  /** The same in terms of the code before the loads were replaced. */
  lemma FoundedBefore(start: Ir, known: map<nat, nat>, loads: seq<nat>, dead: seq<nat>, k: nat)
    requires k < |dead| && Founded(Substituted(start, known, Elements(loads)), [], dead, k)
    ensures Founded(start, loads, dead, k)
  {
    hide Mod64;
    var i := dead[k];
    forall o | o in start[i] ensures o.Constant? || (o.Result? && (o.inst in loads || o.inst in dead[..k])) {
      var n :| 0 <= n < |start[i]| && start[i][n] == o;
      assert Substituted(start, known, Elements(loads))[i][n] == Replaced(o, known, Elements(loads));
      assert Replaced(o, known, Elements(loads)) in Substituted(start, known, Elements(loads))[i];
    }
  }

  /** Replacing `i` makes only its own users foldable, and those are queued again. */
  lemma StillSettled(start: Ir, ir: Ir, eligible: set<nat>, known: map<nat, nat>, seeds: seq<nat>, folded: set<nat>,
                     queued: set<nat>, i: nat, users: seq<nat>, queued': set<nat>)
    requires Settled(start, ir, eligible, known, seeds, folded, queued + {i}) && i in known && i !in folded
    requires ir == Substituted(start, known, folded) && forall u :: u in users <==> Uses(ir, u, i)
    requires queued' == queued + (Elements(users) - (folded + {i}))
    ensures Settled(start, ReplaceAllUses(ir, i, Folded(known[i])), eligible, known, seeds, folded + {i}, queued')
  {
    hide Mod64;
    var ir' := ReplaceAllUses(ir, i, Folded(known[i]));
    forall u | (u in seeds || exists j :: j in folded + {i} && Uses(start, u, j)) && u !in folded + {i} && u !in queued'
      ensures !Foldable(ir', eligible, known, u)
    {
      assert u !in users;
      if u in ir {
        UserSurvives(start, known, folded, u, i);
        assert ir'[u] == ir[u];
      }
    }
  }

  /** A use of an instruction not yet replaced is still there. */
  lemma UserSurvives(start: Ir, known: map<nat, nat>, folded: set<nat>, u: nat, i: nat)
    requires i !in folded
    ensures Uses(start, u, i) <==> Uses(Substituted(start, known, folded), u, i)
  {
    hide Mod64;
    var ir := Substituted(start, known, folded);
    if Uses(start, u, i) {
      var k :| 0 <= k < |start[u]| && start[u][k] == Result(i);
      assert ir[u][k] == Result(i);
    }
    if Uses(ir, u, i) {
      var k :| 0 <= k < |ir[u]| && ir[u][k] == Result(i);
      assert start[u][k] == Result(i);
    }
  }

  /** The worklist.  It terminates, replaces each instruction at most once, changes nothing but
      uses of replaced instructions, and stops only when no seed and no user of a replaced
      instruction can be folded any more. */
  method PropagateSsaValues(f: Function, seeds: seq<nat>) returns (dead: seq<nat>)
    modifies f
    ensures FoldState(old(f.ir), f.ir, f.known, f.eligible, Elements(dead), dead)
    ensures Settled(old(f.ir), f.ir, f.eligible, f.known, seeds, Elements(dead), {})
  {
    hide Substituted, ReplaceAllUses, Mod64, FoldState, Settled;
    ghost var start := f.ir;
    dead := [];
    var worklist, queued, folded := [], {}, {};
    worklist, queued := EnqueueAll(seeds, folded, worklist, queued);
    NothingFolded(f.ir, f.known, f.eligible, seeds);
    assert queued == Elements(seeds);
    while worklist != []
      invariant Distinct(worklist) && queued == Elements(worklist) && folded !! queued
      invariant FoldState(start, f.ir, f.known, f.eligible, folded, dead)
      invariant Settled(start, f.ir, f.eligible, f.known, seeds, folded, queued)
      decreases |start| - |folded|, |worklist|
    {
      var i := worklist[0];
      PopFront(worklist);
      ghost var all := queued;
      worklist, queued := worklist[1..], queued - {i};
      if i !in folded && Candidate(f.ir, f.eligible, i) && i in f.known {
        var users := CollectUsers(f.ir, i);
        ghost var ir, before, was := f.ir, queued, folded;
        FoldStep(start, f.ir, f.known, f.eligible, folded, dead, i);
        folded := folded + {i};
        f.ir := ReplaceAllUses(f.ir, i, Folded(f.known[i]));
        dead := dead + [i];
        worklist, queued := EnqueueAll(users, folded, worklist, queued);
        assert before + {i} == all;
        StillSettled(start, ir, f.eligible, f.known, seeds, was, before, i, users, queued);
        FoldedBound(start, f.ir, f.known, f.eligible, folded, dead);
      } else {
        SettledWithout(start, f.ir, f.eligible, f.known, seeds, folded, all, i);
      }
    }
    FoldedAreDead(start, f.ir, f.known, f.eligible, folded, dead);
  }

  lemma NothingFolded(ir: Ir, known: map<nat, nat>, eligible: set<nat>, seeds: seq<nat>)
    ensures FoldState(ir, ir, known, eligible, {}, []) && Settled(ir, ir, eligible, known, seeds, {}, Elements(seeds))
  {
    ReplaceNone(ir, known);
  }

  /** An instruction that cannot be folded may leave the queue. */
  lemma SettledWithout(start: Ir, ir: Ir, eligible: set<nat>, known: map<nat, nat>, seeds: seq<nat>, folded: set<nat>,
                       queued: set<nat>, i: nat)
    requires Settled(start, ir, eligible, known, seeds, folded, queued)
    requires i in folded || !Foldable(ir, eligible, known, i)
    ensures Settled(start, ir, eligible, known, seeds, folded, queued - {i})
  {
  }

  lemma FoldedAreDead(start: Ir, ir: Ir, known: map<nat, nat>, eligible: set<nat>, folded: set<nat>, dead: seq<nat>)
    requires FoldState(start, ir, known, eligible, folded, dead)
    ensures folded == Elements(dead)
  {
  }

  lemma PopFront(worklist: seq<nat>)
    requires worklist != [] && Distinct(worklist)
    ensures Distinct(worklist[1..]) && Elements(worklist[1..]) == Elements(worklist) - {worklist[0]}
      && worklist[0] in Elements(worklist)
  {
    forall x | x in Elements(worklist) - {worklist[0]} ensures x in worklist[1..] {
      var k :| 0 <= k < |worklist| && worklist[k] == x;
      assert worklist[1..][k - 1] == x;
    }
  }

  lemma FoldedBound(start: Ir, ir: Ir, known: map<nat, nat>, eligible: set<nat>, folded: set<nat>, dead: seq<nat>)
    requires FoldState(start, ir, known, eligible, folded, dead)
    ensures |folded| <= |start|
  {
    assert start.Keys == folded + (start.Keys - folded);
  }

  /** Replaced instructions have no uses left. */
  lemma NoUsesLeft(start: Ir, known: map<nat, nat>, done: set<nat>, i: nat, j: nat)
    requires j in done && j in known
    ensures !Uses(Substituted(start, known, done), i, j)
  {
    hide Mod64;
    var ir := Substituted(start, known, done);
    if i in ir {
      forall k | 0 <= k < |ir[i]| ensures ir[i][k] != Result(j) {
      }
    }
  }

  /** Erases, last to first, the instructions without uses; here that is all of them. */
  method EraseDead(f: Function, instructions: seq<nat>)
    requires forall i, j :: j in instructions ==> !Uses(f.ir, i, j)
    modifies f
    ensures f.ir == old(f.ir) - Elements(instructions)
  {
    var n := |instructions|;
    assert f.ir - {} == f.ir;
    while n > 0
      invariant 0 <= n <= |instructions|
      invariant f.ir == old(f.ir) - Elements(instructions[n..])
    {
      n := n - 1;
      assert instructions[n..] == [instructions[n]] + instructions[n + 1..];
      assert Elements(instructions[n..]) == {instructions[n]} + Elements(instructions[n + 1..]);
      if forall i :: i in f.ir ==> Result(instructions[n]) !in f.ir[i] {
        f.ir := f.ir - {instructions[n]};
      } else {
        var i :| i in f.ir && Result(instructions[n]) in f.ir[i];
        assert Uses(old(f.ir), i, instructions[n]);
        assert false;
      }
    }
    assert instructions[0..] == instructions;
  }

  /** Loads judged safe, with a concrete value of the load's own type, become constants; their
      users are where folding starts. */
  method ConcretizeLoads(f: Function, loads: seq<nat>) returns (dead: seq<nat>, seeds: seq<nat>)
    requires Distinct(loads) && forall l :: l in loads ==> l in f.ir
    modifies f
    ensures Distinct(dead) && forall l :: l in dead <==> l in loads && l in f.known
    ensures f.ir == Substituted(old(f.ir), f.known, Elements(dead))
    ensures forall i :: i in seeds <==> exists l :: l in dead && Uses(old(f.ir), i, l)
  {
    hide Substituted, Mod64;
    ghost var start := f.ir;
    dead, seeds := [], [];
    ReplaceNone(f.ir, f.known);
    assert Elements(dead) == {};
    for k := 0 to |loads|
      invariant Distinct(dead) && (forall l :: l in dead <==> l in loads[..k] && l in f.known)
      invariant f.ir == Substituted(start, f.known, Elements(dead))
      invariant forall i :: i in seeds <==> exists l :: l in dead && Uses(start, i, l)
    {
      var l := loads[k];
      assert loads[..k + 1] == loads[..k] + [l];
      assert l !in loads[..k];
      if l in f.known {
        var users := CollectUsers(f.ir, l);
        forall i ensures Uses(start, i, l) <==> i in users {
          UserSurvives(start, f.known, Elements(dead), i, l);
        }
        ReplaceOne(start, f.known, Elements(dead), l);
        assert Elements(dead + [l]) == Elements(dead) + {l};
        f.ir := ReplaceAllUses(f.ir, l, Folded(f.known[l]));
        dead, seeds := dead + [l], seeds + users;
      }
    }
    assert loads[..|loads|] == loads;
  }

  lemma SubstitutedTwice(ir: Ir, known: map<nat, nat>, a: set<nat>, b: set<nat>)
    ensures Substituted(Substituted(ir, known, a), known, b) == Substituted(ir, known, a + b)
  {
    hide Mod64;
    var x, y := Substituted(Substituted(ir, known, a), known, b), Substituted(ir, known, a + b);
    forall i | i in ir ensures x[i] == y[i] {
    }
  }

  /** What is left after the pass: the code with every use of a replaced instruction replaced,
      without the replaced instructions. */
  function AfterPass(ir: Ir, known: map<nat, nat>, replaced: set<nat>): Ir {
    Substituted(ir, known, replaced) - replaced
  }

  /** The whole pass.  Nothing that used a replaced instruction can be folded any more. */
  method PropagateConstants(f: Function, loads: seq<nat>) returns (deadLoads: seq<nat>, deadValues: seq<nat>)
    requires Distinct(loads) && forall l :: l in loads ==> l in f.ir && l !in f.eligible
    modifies f
    ensures Distinct(deadLoads + deadValues) && (forall l :: l in deadLoads <==> l in loads && l in f.known)
    ensures Elements(deadValues) <= f.known.Keys * old(f.ir).Keys * f.eligible
    ensures f.ir == AfterPass(old(f.ir), f.known, Elements(deadLoads + deadValues))
    ensures forall k :: 0 <= k < |deadValues| ==> Founded(old(f.ir), deadLoads, deadValues, k)
    ensures forall i, j ::
      i in f.ir && i in old(f.ir) && j in deadLoads + deadValues && Result(j) in old(f.ir)[i] && i in f.eligible ==>
        i !in f.known || exists o :: o in f.ir[i] && !o.Constant?
  {
    hide Substituted, Mod64;
    ghost var start := f.ir;
    var seeds;
    deadLoads, seeds := ConcretizeLoads(f, loads);
    ghost var middle := f.ir;
    deadValues := PropagateSsaValues(f, seeds);
    forall k | 0 <= k < |deadValues| ensures Founded(start, deadLoads, deadValues, k) {
      FoundedBefore(start, f.known, deadLoads, deadValues, k);
    }
    hide Founded;
    ghost var replaced := Elements(deadLoads + deadValues);
    assert replaced == Elements(deadLoads) + Elements(deadValues);
    SubstitutedTwice(start, f.known, Elements(deadLoads), Elements(deadValues));
    forall i, j | j in replaced ensures !Uses(f.ir, i, j) {
      NoUsesLeft(start, f.known, replaced, i, j);
    }
    forall i, j | i in f.ir && i !in replaced && j in replaced && Uses(start, i, j)
      ensures !Foldable(f.ir, f.eligible, f.known, i)
    {
      if j !in deadLoads { UserSurvives(start, f.known, Elements(deadLoads), i, j); }
    }
    ghost var whole := f.ir;
    EraseDead(f, deadValues);
    forall i, j | j in deadLoads ensures !Uses(f.ir, i, j) {
      assert !Uses(whole, i, j);
    }
    EraseDead(f, deadLoads);
    assert f.ir == whole - replaced;
    forall i, j | i in f.ir && j in deadLoads + deadValues && Uses(start, i, j)
      ensures !Foldable(f.ir, f.eligible, f.known, i)
    {
      assert i in whole && f.ir[i] == whole[i] && j in replaced && i !in replaced;
      assert !Foldable(whole, f.eligible, f.known, i);
    }
    NotFoldable(f.ir, f.eligible, f.known);
    DistinctConcat(deadLoads, deadValues);
    SubstitutedKeys(start, f.known, Elements(deadLoads));
  }

  /** What keeps an eligible instruction with a known value from being folded. */
  lemma NotFoldable(ir: Ir, eligible: set<nat>, known: map<nat, nat>)
    ensures forall i :: i in ir && i in eligible && !Foldable(ir, eligible, known, i) ==>
      i !in known || exists o :: o in ir[i] && !o.Constant?
  {
  }

  lemma DistinctConcat(a: seq<nat>, b: seq<nat>)
    requires Distinct(a) && Distinct(b) && Elements(a) !! Elements(b)
    ensures Distinct(a + b)
  {
    forall i, j | 0 <= i < |a| <= j < |a| + |b| ensures (a + b)[i] != (a + b)[j] {
      assert a[i] in Elements(a) && b[j - |a|] in Elements(b);
    }
  }

  lemma SubstitutedKeys(ir: Ir, known: map<nat, nat>, done: set<nat>)
    ensures Substituted(ir, known, done).Keys == ir.Keys
  {
  }

  // ---------------------------------------------------------------- runs

  /** One executed instruction and the value it had. */
  datatype Event = Event(inst: nat, value: nat)

  /** The value an instruction had when it last ran. */
  ghost function Latest(run: seq<Event>, j: nat): Option<nat> {
    if run == [] then None
    else if run[|run| - 1].inst == j then Some(run[|run| - 1].value)
    else Latest(run[..|run| - 1], j)
  }

  /** An undefined operand, or one that has not been computed (a phi's other edge), has no
      value; arguments never change, so they are part of what an instruction does. */
  ghost function ValueOf(o: Operand, run: seq<Event>): Option<nat> {
    match o
    case Constant(c) => Some(c)
    case Other => None
    case Result(j) => Latest(run, j)
  }

  ghost function Args(os: seq<Operand>, run: seq<Event>): seq<Option<nat>> {
    seq(|os|, k requires 0 <= k < |os| => ValueOf(os[k], run))
  }

  /** The events others can depend on: everything but the instructions without effects. */
  ghost function Visible(run: seq<Event>, silent: set<nat>): seq<Event> {
    if run == [] then []
    else
      var front, last := run[..|run| - 1], run[|run| - 1];
      if last.inst in silent then Visible(front, silent) else Visible(front, silent) + [last]
  }

  /** What an instruction may do: from its operands and the visible past, the values it may
      give.  Loads and control flow depend on the past. */
  type Behaviour = (nat, seq<Option<nat>>, seq<Event>, nat) -> bool

  ghost predicate IsRun(ir: Ir, silent: set<nat>, may: Behaviour, run: seq<Event>) {
    run == [] ||
    var front, last := run[..|run| - 1], run[|run| - 1];
    && IsRun(ir, silent, may, front)
    && last.inst in ir && may(last.inst, Args(ir[last.inst], front), Visible(front, silent), last.value)
  }

  ghost predicate Refines(args: seq<Option<nat>>, args': seq<Option<nat>>) {
    |args| == |args'| && forall k :: 0 <= k < |args| ==> args[k].None? || args[k] == args'[k]
  }

  /** What an instruction does without looking at an operand, it does whatever that operand is. */
  ghost predicate Lenient(may: Behaviour) {
    forall i, args, args', past, v :: Refines(args, args') && may(i, args, past, v) ==> may(i, args', past, v)
  }

  /** The events of the instructions that are kept. */
  ghost function Kept(run: seq<Event>, replaced: set<nat>): seq<Event> {
    if run == [] then []
    else
      var front, last := run[..|run| - 1], run[|run| - 1];
      if last.inst in replaced then Kept(front, replaced) else Kept(front, replaced) + [last]
  }

  lemma {:induction false} KeptLatest(run: seq<Event>, replaced: set<nat>, j: nat)
    requires j !in replaced
    ensures Latest(Kept(run, replaced), j) == Latest(run, j)
  {
    if run != [] {
      var front, last := run[..|run| - 1], run[|run| - 1];
      KeptLatest(front, replaced, j);
      if last.inst !in replaced { assert (Kept(front, replaced) + [last])[..|Kept(front, replaced)|]
        == Kept(front, replaced); }
    }
  }

  lemma {:induction false} KeptVisible(run: seq<Event>, replaced: set<nat>, silent: set<nat>)
    requires replaced <= silent
    ensures Visible(Kept(run, replaced), silent) == Visible(run, silent)
  {
    if run != [] {
      var front, last := run[..|run| - 1], run[|run| - 1];
      KeptVisible(front, replaced, silent);
      if last.inst !in replaced { assert (Kept(front, replaced) + [last])[..|Kept(front, replaced)|]
        == Kept(front, replaced); }
    }
  }

  /** Replaced instructions have their known value whenever they run. */
  ghost predicate Right(run: seq<Event>, known: map<nat, nat>, replaced: set<nat>) {
    forall t :: 0 <= t < |run| && run[t].inst in replaced ==> run[t].inst in known && run[t].value == known[run[t].inst]
  }

  lemma {:induction false} LatestRight(run: seq<Event>, known: map<nat, nat>, replaced: set<nat>, j: nat)
    requires Right(run, known, replaced) && j in replaced && j in known
    ensures Latest(run, j) in {None, Some(known[j])}
  {
    if run != [] {
      LatestRight(run[..|run| - 1], known, replaced, j);
    }
  }

  /** Every replaced value that a remaining instruction uses fits 64 bits. */
  ghost predicate FitsWhereUsed(ir: Ir, known: map<nat, nat>, replaced: set<nat>) {
    forall i, j :: j in replaced && j in known && i !in replaced && Uses(ir, i, j) ==> known[j] < TWO64
  }

  lemma ArgsRefined(os: seq<Operand>, os': seq<Operand>, run: seq<Event>, known: map<nat, nat>, replaced: set<nat>)
    requires Right(run, known, replaced) && replaced <= known.Keys
    requires forall k :: 0 <= k < |os| && os[k].Result? && os[k].inst in replaced ==> known[os[k].inst] < TWO64
    requires |os'| == |os| && forall k :: 0 <= k < |os| ==> os'[k] == Replaced(os[k], known, replaced)
    ensures Refines(Args(os, run), Args(os', Kept(run, replaced)))
  {
    hide Latest, Kept, Right;
    forall k | 0 <= k < |os| && os[k].Result?
      ensures ValueOf(os[k], run) in {None, ValueOf(os'[k], Kept(run, replaced))}
    {
      if os[k].inst in replaced {
        LatestRight(run, known, replaced, os[k].inst);
      } else {
        KeptLatest(run, replaced, os[k].inst);
      }
    }
  }

  lemma StepPreserved(ir: Ir, known: map<nat, nat>, replaced: set<nat>, silent: set<nat>, may: Behaviour,
                      front: seq<Event>, last: Event)
    requires replaced <= silent && replaced <= known.Keys && FitsWhereUsed(ir, known, replaced)
      && Right(front, known, replaced) && Lenient(may)
    requires last.inst in ir && last.inst !in replaced
      && may(last.inst, Args(ir[last.inst], front), Visible(front, silent), last.value)
    ensures var ir', kept := AfterPass(ir, known, replaced), Kept(front, replaced);
            last.inst in ir' && may(last.inst, Args(ir'[last.inst], kept), Visible(kept, silent), last.value)
  {
    hide Args, Visible, Kept, Right, Refines, Mod64;
    var i, ir' := last.inst, AfterPass(ir, known, replaced);
    KeptVisible(front, replaced, silent);
    forall k | 0 <= k < |ir[i]| && ir[i][k].Result? && ir[i][k].inst in replaced ensures known[ir[i][k].inst] < TWO64 {
      assert Uses(ir, i, ir[i][k].inst);
    }
    ArgsRefined(ir[i], ir'[i], front, known, replaced);
    assert may(i, Args(ir'[i], Kept(front, replaced)), Visible(front, silent), last.value);
  }

  /** Folding preserves every remaining value: leave the replaced instructions out of any run
      of the old code and what remains is a run of the new code, with the same visible events. */
  lemma {:induction false} RunsPreserved(ir: Ir, known: map<nat, nat>, replaced: set<nat>, silent: set<nat>,
                                         may: Behaviour, run: seq<Event>)
    requires IsRun(ir, silent, may, run) && Lenient(may) && Right(run, known, replaced)
    requires replaced <= silent && replaced <= known.Keys && FitsWhereUsed(ir, known, replaced)
    ensures IsRun(AfterPass(ir, known, replaced), silent, may, Kept(run, replaced))
    ensures Visible(Kept(run, replaced), silent) == Visible(run, silent)
  {
    hide Args, Visible, Lenient, AfterPass, FitsWhereUsed;
    KeptVisible(run, replaced, silent);
    if run != [] {
      var front, last := run[..|run| - 1], run[|run| - 1];
      RunsPreserved(ir, known, replaced, silent, may, front);
      if last.inst !in replaced {
        StepPreserved(ir, known, replaced, silent, may, front, last);
        var kept := Kept(front, replaced);
        assert (kept + [last])[..|kept|] == kept;
      }
    }
  }

  /** Every run with right values survives, whatever the instructions do. */
  ghost predicate PreservesRuns(ir: Ir, known: map<nat, nat>, replaced: set<nat>, silent: set<nat>) {
    forall may: Behaviour, run: seq<Event> ::
      IsRun(ir, silent, may, run) && Lenient(may) && Right(run, known, replaced) ==>
        IsRun(AfterPass(ir, known, replaced), silent, may, Kept(run, replaced))
  }

  /** The exact condition: a constant keeps only 64 bits of a value, so runs are preserved if
      and only if no remaining instruction uses a replaced value of more. */
  lemma PreservesExactly(ir: Ir, known: map<nat, nat>, replaced: set<nat>, silent: set<nat>)
    requires replaced <= silent && replaced <= known.Keys && replaced <= ir.Keys
    ensures PreservesRuns(ir, known, replaced, silent) <==> FitsWhereUsed(ir, known, replaced)
  {
    if FitsWhereUsed(ir, known, replaced) {
      forall may: Behaviour, run: seq<Event> | IsRun(ir, silent, may, run) && Lenient(may)
        && Right(run, known, replaced)
        ensures IsRun(AfterPass(ir, known, replaced), silent, may, Kept(run, replaced))
      {
        RunsPreserved(ir, known, replaced, silent, may, run);
      }
    } else {
      var i, j :| j in replaced && j in known && i !in replaced && Uses(ir, i, j) && known[j] >= TWO64;
      WideValueIsCut(ir, known, replaced, silent, i, j);
    }
  }

  /** Instruction `j` gives `wide`, and `i` runs only if its operand `k` is `wide`. */
  ghost function Insists(i: nat, j: nat, k: nat, wide: nat): Behaviour {
    (x, args, past, v) => if x == j then v == wide else x == i && k < |args| && args[k] == Some(wide)
  }

  lemma OldCodeRuns(ir: Ir, silent: set<nat>, i: nat, j: nat, k: nat, wide: nat)
    requires i in ir && j in ir && i != j && k < |ir[i]| && ir[i][k] == Result(j)
    ensures IsRun(ir, silent, Insists(i, j, k, wide), [Event(j, wide), Event(i, 0)])
  {
    hide Visible;
    var may, first, second := Insists(i, j, k, wide), Event(j, wide), Event(i, 0);
    assert [first][..0] == [] && IsRun(ir, silent, may, [first]);
    assert [first, second][..1] == [first];
    assert Args(ir[i], [first])[k] == Latest([first], j) == Some(wide);
  }

  lemma NewCodeStops(ir: Ir, known: map<nat, nat>, replaced: set<nat>, silent: set<nat>, i: nat, j: nat, k: nat)
    requires i in ir && i !in replaced && j in replaced && j in known && k < |ir[i]| && ir[i][k] == Result(j)
      && known[j] >= TWO64
    ensures !IsRun(AfterPass(ir, known, replaced), silent, Insists(i, j, k, known[j]), [Event(i, 0)])
  {
    hide Visible;
    var ir' := AfterPass(ir, known, replaced);
    assert ir'[i][k] == Constant(Mod64(known[j]));
    assert [Event(i, 0)][..0] == [];
    assert Args(ir'[i], [])[k] == Some(Mod64(known[j]));
  }

  /** One use of a value of more than 64 bits is enough to lose a run. */
  lemma WideValueIsCut(ir: Ir, known: map<nat, nat>, replaced: set<nat>, silent: set<nat>, i: nat, j: nat)
    requires replaced <= known.Keys && j in replaced && j in ir && i !in replaced && Uses(ir, i, j) && known[j] >= TWO64
    ensures !PreservesRuns(ir, known, replaced, silent)
  {
    hide IsRun, AfterPass, Args, Visible;
    var k :| 0 <= k < |ir[i]| && ir[i][k] == Result(j);
    var may, first, second := Insists(i, j, k, known[j]), Event(j, known[j]), Event(i, 0);
    OldCodeRuns(ir, silent, i, j, k, known[j]);
    NewCodeStops(ir, known, replaced, silent, i, j, k);
    KeptPair(first, second, replaced);
    assert Lenient(may) && Right([first, second], known, replaced);
  }

  lemma KeptPair(first: Event, second: Event, replaced: set<nat>)
    requires first.inst in replaced && second.inst !in replaced
    ensures Kept([first, second], replaced) == [second]
  {
    assert [first, second][..1] == [first] && [first][..0] == [];
    assert Kept([first], replaced) == [];
  }
}
