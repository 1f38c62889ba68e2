/** What exploration does to its symbolic state, step by step: emulating a block, refining the
    registers and constraints of the current path, saving another path, resuming the last one
    saved. */
module Trails {
  import opened Terms
  import opened Solver
  import opened Places
  import opened States
  import opened Machine
  import opened Paths

  datatype Saved = Saved(sym: Sym, constraints: seq<Term>)

  datatype Trail = Trail(now: Saved, others: seq<Saved>)

  datatype Step = Emulated(body: seq<Action>) | Refined(next: Saved) | Forked(other: Saved) | Resumed

  function Play(o: Oracle, t: Trail, s: Step): Trail {
    match s
    case Emulated(body) => t.(now := t.now.(sym := Emulate(o, t.now.constraints, body, t.now.sym)))
    case Refined(next) => t.(now := next)
    case Forked(other) => t.(others := t.others + [other])
    case Resumed =>
      if t.others == [] then t else Trail(t.others[|t.others| - 1], t.others[..|t.others| - 1])
  }

  ghost predicate SameMemory(a: Sym, b: Sym) {
    forall p: Place :: Lookup(a, PlaceName(p)) == Lookup(b, PlaceName(p))
  }

  /** Fewer inputs, and the same memory: only registers have been made more precise. */
  ghost predicate Sharpens(s: Saved, was: Saved) {
    && SymTyped(s.sym) && SameMemory(s.sym, was.sym)
    && forall a :: Holds(s.constraints, a) ==> Holds(was.constraints, a)
  }

  ghost predicate Legal(t: Trail, s: Step) {
    match s
    case Emulated(body) => BodyTyped(body)
    case Refined(next) => Sharpens(next, t.now)
    case Forked(other) => Sharpens(other, t.now)
    case Resumed => true
  }

  function PlayAll(o: Oracle, t: Trail, steps: seq<Step>): Trail {
    if steps == [] then t else Play(o, PlayAll(o, t, steps[..|steps| - 1]), steps[|steps| - 1])
  }

  ghost predicate LegalAll(o: Oracle, t: Trail, steps: seq<Step>) {
    steps == [] ||
    var n := |steps| - 1;
    LegalAll(o, t, steps[..n]) && Legal(PlayAll(o, t, steps[..n]), steps[n])
  }

  lemma PlayPush(o: Oracle, t: Trail, steps: seq<Step>, s: Step)
    ensures PlayAll(o, t, steps + [s]) == Play(o, PlayAll(o, t, steps), s)
    ensures LegalAll(o, t, steps + [s]) <==> LegalAll(o, t, steps) && Legal(PlayAll(o, t, steps), s)
  {
    hide Play, Legal;
    assert (steps + [s])[..|steps|] == steps;
  }

  lemma PlayNothing(o: Oracle, t: Trail)
    ensures PlayAll(o, t, []) == t
  {
  }

  lemma {:induction false} PlayNext(o: Oracle, t: Trail, steps: seq<Step>, n: nat)
    requires LegalAll(o, t, steps) && n < |steps|
    ensures Legal(PlayAll(o, t, steps[..n]), steps[n])
    ensures PlayAll(o, t, steps[..n + 1]) == Play(o, PlayAll(o, t, steps[..n]), steps[n])
    decreases |steps|
  {
    hide Play, Legal;
    var m := |steps| - 1;
    if n < m {
      PlayNext(o, t, steps[..m], n);
      assert steps[..m][..n] == steps[..n] && steps[..m][..n + 1] == steps[..n + 1];
    } else {
      assert steps[..n + 1] == steps;
    }
  }

  // ------------------------------------------------------- the log of an exploration

  function SavedOf(p: Path): Saved { Saved(p.sym, p.constraints) }

  function SavedAll(paths: seq<Path>): seq<Saved> {
    seq(|paths|, i requires 0 <= i < |paths| => SavedOf(paths[i]))
  }

  /** Playing the log from the image leads to this state and these saved paths. */
  ghost predicate IsLog(o: Oracle, image: Sym, log: seq<Step>, now: Saved, others: seq<Path>) {
    var origin := Trail(Saved(image, []), []);
    LegalAll(o, origin, log) && PlayAll(o, origin, log) == Trail(now, SavedAll(others))
  }

  lemma LogStarts(o: Oracle, image: Sym)
    ensures IsLog(o, image, [], Saved(image, []), [])
  {
    assert SavedAll([]) == [];
  }

  lemma LogStep(o: Oracle, image: Sym, log: seq<Step>, now: Saved, others: seq<Path>, s: Step, now': Saved,
                others': seq<Path>)
    requires IsLog(o, image, log, now, others) && Legal(Trail(now, SavedAll(others)), s)
    requires Play(o, Trail(now, SavedAll(others)), s) == Trail(now', SavedAll(others'))
    ensures IsLog(o, image, log + [s], now', others')
  {
    hide Play, Legal, PlayAll, LegalAll;
    PlayPush(o, Trail(Saved(image, []), []), log, s);
  }

  lemma LogRefined(o: Oracle, image: Sym, log: seq<Step>, now: Saved, others: seq<Path>, next: Saved)
    requires IsLog(o, image, log, now, others) && Sharpens(next, now)
    ensures IsLog(o, image, log + [Refined(next)], next, others)
  {
    hide IsLog, Sharpens;
    LogStep(o, image, log, now, others, Refined(next), next, others);
  }

  lemma LogEmulated(o: Oracle, image: Sym, log: seq<Step>, now: Saved, others: seq<Path>, body: seq<Action>)
    requires IsLog(o, image, log, now, others) && BodyTyped(body)
    ensures IsLog(o, image, log + [Emulated(body)], now.(sym := Emulate(o, now.constraints, body, now.sym)), others)
  {
    hide IsLog, BodyTyped, Emulate;
    var now' := now.(sym := Emulate(o, now.constraints, body, now.sym));
    LogStep(o, image, log, now, others, Emulated(body), now', others);
  }

  /** The other side of a fork is saved, and the path goes on along its own. */
  lemma LogForked(o: Oracle, image: Sym, log: seq<Step>, now: Saved, others: seq<Path>, other: Path, next: Saved)
    requires IsLog(o, image, log, now, others) && Sharpens(SavedOf(other), now) && Sharpens(next, now)
    ensures IsLog(o, image, log + [Forked(SavedOf(other)), Refined(next)], next, others + [other])
  {
    hide IsLog, Sharpens;
    assert SavedAll(others + [other]) == SavedAll(others) + [SavedOf(other)];
    LogStep(o, image, log, now, others, Forked(SavedOf(other)), now, others + [other]);
    LogRefined(o, image, log + [Forked(SavedOf(other))], now, others + [other], next);
    assert log + [Forked(SavedOf(other))] + [Refined(next)] == log + [Forked(SavedOf(other)), Refined(next)];
  }

  lemma LogResumed(o: Oracle, image: Sym, log: seq<Step>, now: Saved, others: seq<Path>)
    requires IsLog(o, image, log, now, others) && others != []
    ensures IsLog(o, image, log + [Resumed], SavedOf(others[|others| - 1]), others[..|others| - 1])
  {
    hide IsLog;
    var n := |others| - 1;
    assert SavedAll(others)[..n] == SavedAll(others[..n]);
    LogStep(o, image, log, now, others, Resumed, SavedOf(others[n]), others[..n]);
  }

  // ------------------------------------------------------- what only changes registers

  lemma ConstrainedSharpens(sym: Sym, cs: seq<Term>, more: seq<Term>, sym': Sym)
    requires SymTyped(sym') && SameMemory(sym', sym)
    ensures Sharpens(Saved(sym', cs + more), Saved(sym, cs))
  {
    hide SymTyped, SameMemory, Holds;
    forall a | Holds(cs + more, a) ensures Holds(cs, a) { HoldsConcat(cs, more, a); }
  }

  /** An assignment leaves memory alone. */
  lemma AssignedSharpens(o: Oracle, sym: Sym, cs: seq<Term>, target: Name, term: Term)
    requires o.Sound() && o.Decisive() && SymTyped(sym) && ActionTyped(Assign(target, term))
    ensures Sharpens(Saved(Emulate(o, cs, [Assign(target, term)], sym), cs), Saved(sym, cs))
  {
    var a := Assign(target, term);
    EmulateOne(o, cs, a, sym);
    ActionEmulatesTyped(o, cs, a, sym);
    var sym' := EmulateAction(o, cs, a, sym);
    hide Emulate, Subst, SymTyped;
    assert SameMemory(sym', sym);
    assert cs + [] == cs;
    ConstrainedSharpens(sym, cs, [], sym');
  }

  lemma EmulateOne(o: Oracle, cs: seq<Term>, a: Action, sym: Sym)
    ensures Emulate(o, cs, [a], sym) == EmulateAction(o, cs, a, sym)
  {
    assert [a][..0] == [];
  }
}
