/** The machine being lifted, the emulation of its instructions, and the emitted blocks.

    Instruction semantics are given as actions over the current state: assignments of terms, and
    loads and stores at computed addresses.  One definition serves the machine, the emulator (by
    substitution and by resolving addresses) and the emitted blocks. */
module Machine {
  import opened Bits
  import opened Terms
  import opened Solver
  import opened Places
  import opened States
  import opened SymbolicAccess

  const FETCH: nat := 15

  /** The last two are what the builder emits for an access: a fixed place for one candidate, a
      chain of selects for several. */
  datatype Action =
    | Assign(target: Name, term: Term)
    | Load(target: Name, address: Term)
    | Store(address: Term, value: Term)
    | LoadAmong(target: Name, address: Term, candidates: seq<nat>)
    | StoreAmong(address: Term, candidates: seq<nat>, value: Term)

  datatype Instr =
    | Plain(body: seq<Action>, next: nat)
    | Conditional(body: seq<Action>, cond: Term, taken: nat, notTaken: nat)
    | Direct(body: seq<Action>, target: nat)
    | Indirect(body: seq<Action>, address: Term)
    | CondMove(body: seq<Action>, dest: Name, cond: Term, onTrue: Term, onFalse: Term, next: nat)

  datatype Decoding = Undecodable | Unliftable | Decoded(instr: Instr)

  // ------------------------------------------------------------- typing

  /** Every symbol of the term is a whole register or byte. */
  predicate Over(t: Term) {
    match t
    case Value(_, _) => true
    case Symbol(n, w) => w == BitsOf(n)
    case Extract(a, _, _) => Over(a)
    case Concat(a, b) => Over(a) && Over(b)
    case ZeroExtend(a, _) => Over(a)
    case Binary(_, a, b) => Over(a) && Over(b)
    case Ite(c, a, b) => Over(c) && Over(a) && Over(b)
    case Compare(_, a, b) => Over(a) && Over(b)
    case Not(a) => Over(a)
  }

  predicate Typed(t: Term, w: nat) { t.WellSorted() && Over(t) && t.Width() == w && !t.IsBool() }

  /** An action of an instruction, with operands of the right widths.  Memory is only reached by
      loads and stores, of at most 64 bits. */
  predicate ActionTyped(a: Action) {
    match a
    case Assign(target, term) => !target.PageByte? && Typed(term, BitsOf(target))
    case Load(target, address) =>
      !target.PageByte? && Typed(address, 64) && BitsOf(target) % 8 == 0 && 0 < BitsOf(target) <= 64
    case Store(address, value) => Typed(address, 64) && Typed(value, value.Width()) && IsWord(value)
    case _ => false
  }

  predicate BodyTyped(body: seq<Action>) {
    forall i :: 0 <= i < |body| ==> ActionTyped(body[i])
  }

  predicate InstrTyped(i: Instr) {
    BodyTyped(i.body) &&
    match i
    case Conditional(_, cond, _, _) => Typed(cond, 1)
    case Indirect(_, address) => Typed(address, 64)
    case CondMove(_, dest, cond, onTrue, onFalse, _) =>
      !dest.PageByte? && Typed(cond, 1) && Typed(onTrue, BitsOf(dest)) && Typed(onFalse, BitsOf(dest))
    case _ => true
  }

  /** The accesses of the machine, of 8, 16, 32 and 64 bits, and assignments of registers. */
  lemma SizesTyped(bits: nat, id: nat, address: Term, value: Term, word: Term)
    requires bits in {8, 16, 32, 64} && Typed(address, 64) && Typed(value, bits) && Typed(word, 64)
    ensures ActionTyped(Load(Temp(id, bits / 8), address)) && ActionTyped(Store(address, value))
    ensures ActionTyped(Assign(Register(id), word))
    ensures InstrTyped(Plain([Store(address, value)], 0)) && InstrTyped(Direct([Assign(Register(id), word)], 0))
    ensures InstrTyped(Indirect([Load(Temp(id, bits / 8), address)], word))
  {
    hide Over, Term.WellSorted, Term.Width;
  }

  // ------------------------------------------------------ machine steps

  datatype Decoder = Decoder(decode: (nat, seq<nat>) -> Decoding) {
    /** Decoding a prefix of the bytes, when it succeeds, decodes the instruction. */
    ghost predicate Lawful() {
      && (forall pc, bs, bs' :: !decode(pc, bs).Undecodable? && bs <= bs' ==> decode(pc, bs') == decode(pc, bs))
      && (forall pc, bs :: decode(pc, bs).Decoded? ==> InstrTyped(decode(pc, bs).instr))
    }
  }

  datatype MState = MState(pc: nat, state: State)

  ghost function Perform(a: Action, c: State): State {
    match a
    case Assign(target, term) => c[target := Eval(term, c)]
    case Load(target, address) => c[target := LoadWord(c, Translate(Eval(address, c)), BitsOf(target) / 8)]
    case Store(address, value) => StoreWord(c, Translate(Eval(address, c)), value.Width() / 8, Eval(value, c))
    case LoadAmong(target, address, candidates) =>
      if candidates == [] then c else c[target := EmittedLoad(c, Eval(address, c), candidates, BitsOf(target) / 8)]
    case StoreAmong(address, candidates, value) =>
      if |candidates| == 1 then StoreWord(c, Translate(candidates[0]), value.Width() / 8, Eval(value, c))
      else EmittedStore(c, Eval(address, c), candidates, value.Width() / 8, Eval(value, c))
  }

  ghost function RunBody(body: seq<Action>, c: State): State
    decreases |body|
  {
    if body == [] then c else Perform(body[|body| - 1], RunBody(body[..|body| - 1], c))
  }

  function Choice(i: Instr): Term
    requires i.CondMove?
  {
    Ite(AsBool(i.cond), i.onTrue, i.onFalse)
  }

  /** All assignments of an instruction; a conditional move stores a choice last. */
  function FullBody(i: Instr): seq<Action> {
    if i.CondMove? then i.body + [Assign(i.dest, Choice(i))] else i.body
  }

  /** Where control goes, from the state after the assignments. */
  ghost function Next(i: Instr, c: State): nat {
    match i
    case Plain(_, next) => next
    case Conditional(_, cond, taken, notTaken) => if True(cond, c) then taken else notTaken
    case Direct(_, target) => target
    case Indirect(_, address) => Eval(address, c)
    case CondMove(_, _, _, _, _, next) => next
  }

  ghost function FetchBytes(c: State, pc: nat): seq<nat> {
    seq<nat>(FETCH, (i: nat) => Cell(c, PageByte(GLOBAL_PAGE, (pc + i) % TWO64)))
  }

  /** A step of the machine; it has stopped once its program counter is zero. */
  ghost function Step(m: Decoder, s: MState): MState {
    if s.pc == 0 then s else
    match m.decode(s.pc, FetchBytes(s.state, s.pc))
    case Decoded(i) => var c := RunBody(FullBody(i), s.state); MState(Next(i, c), c)
    case _ => s
  }

  ghost function RunMachine(m: Decoder, s: MState, n: nat): MState {
    if n == 0 then s else Step(m, RunMachine(m, s, n - 1))
  }

  // ---------------------------------------------------- emulation

  /** The state in which the machine starts on input `s`. */
  ghost function Start(image: Sym, s: Assignment): State {
    imap n: Name | true :: Eval(Lookup(image, n), s)
  }

  lemma StartRepresented(image: Sym, s: Assignment)
    requires SymTyped(image)
    ensures Represents(image, s, Start(image, s))
  {
    hide Eval, Truncate;
    forall n: Name ensures Eval(Lookup(image, n), s) == Cell(Start(image, s), n) {
      EvalFits(Lookup(image, n), s);
      TruncateSmall(Eval(Lookup(image, n), s), BitsOf(n));
    }
  }

  function Subst(t: Term, sym: Sym): Term {
    match t
    case Value(_, _) => t
    case Symbol(n, _) => Lookup(sym, n)
    case Extract(a, high, low) => Extract(Subst(a, sym), high, low)
    case Concat(a, b) => Concat(Subst(a, sym), Subst(b, sym))
    case ZeroExtend(a, n) => ZeroExtend(Subst(a, sym), n)
    case Binary(op, a, b) => Binary(op, Subst(a, sym), Subst(b, sym))
    case Ite(c, a, b) => Ite(Subst(c, sym), Subst(a, sym), Subst(b, sym))
    case Compare(equal, a, b) => Compare(equal, Subst(a, sym), Subst(b, sym))
    case Not(a) => Not(Subst(a, sym))
  }

  lemma {:induction false} SubstTyped(t: Term, sym: Sym)
    requires SymTyped(sym) && Over(t) && t.WellSorted()
    ensures Subst(t, sym).WellSorted() && Subst(t, sym).Width() == t.Width()
    ensures t.IsBool() <==> Subst(t, sym).IsBool()
  {
    match t
    case Value(_, _) =>
    case Symbol(_, _) =>
      assert Lookup(sym, t.name).Width() == BitsOf(t.name) != 1;
    case Extract(a, _, _) => SubstTyped(a, sym);
    case ZeroExtend(a, _) => SubstTyped(a, sym);
    case Not(a) => SubstTyped(a, sym);
    case Ite(c, a, b) => SubstTyped(c, sym); SubstTyped(a, sym); SubstTyped(b, sym);
    case Concat(a, b) => SubstTyped(a, sym); SubstTyped(b, sym);
    case Binary(_, a, b) => SubstTyped(a, sym); SubstTyped(b, sym);
    case Compare(_, a, b) => SubstTyped(a, sym); SubstTyped(b, sym);
  }

  /** Emulating a term symbolically and evaluating equals evaluating it in the state. */
  lemma {:induction false} SubstEval(t: Term, sym: Sym, s: Assignment, c: State)
    requires Represents(sym, s, c) && Over(t) && t.WellSorted()
    ensures Eval(Subst(t, sym), s) == Eval(t, c)
  {
    hide SymbolValue, Operate, SymTyped, BitsOf, Truncate, ShiftLeft, ShiftRight;
    match t
    case Value(_, _) =>
    case Symbol(_, _) =>
    case Extract(a, _, _) => SubstEval(a, sym, s, c);
    case ZeroExtend(a, _) => SubstEval(a, sym, s, c);
    case Not(a) => SubstEval(a, sym, s, c);
    case Ite(x, a, b) => SubstEval(x, sym, s, c); SubstEval(a, sym, s, c); SubstEval(b, sym, s, c);
    case Concat(a, b) => SubstEval(a, sym, s, c); SubstEval(b, sym, s, c); SubstTyped(b, sym);
    case Binary(_, a, b) => SubstEval(a, sym, s, c); SubstEval(b, sym, s, c); SubstTyped(a, sym);
    case Compare(_, a, b) => SubstEval(a, sym, s, c); SubstEval(b, sym, s, c);
  }

  /** The address of an access as the emulator sees it. */
  function AddressTerm(o: Oracle, a: Action, sym: Sym): Term
    requires !a.Assign?
  {
    o.rewrite(Subst(a.address, sym))
  }

  /** Emulating an action: stored values are simplified as they are written, and addresses are
      resolved under the path constraints. */
  function EmulateAction(o: Oracle, cs: seq<Term>, a: Action, sym: Sym): Sym {
    match a
    case Assign(target, term) => sym[target := o.rewrite(Subst(term, sym))]
    case Load(target, _) =>
      var n := BitsOf(target) / 8;
      if n == 0 then sym else sym[target := o.rewrite(LoadSym(o, cs, sym, AddressTerm(o, a, sym), n))]
    case Store(_, value) =>
      var val := Subst(value, sym);
      if val.Width() / 8 == 0 then sym else StoreSym(o, cs, sym, AddressTerm(o, a, sym), val)
    case _ => sym
  }

  /** The emulator runs a block. */
  function Emulate(o: Oracle, cs: seq<Term>, body: seq<Action>, sym: Sym): Sym
    decreases |body|
  {
    if body == [] then sym else EmulateAction(o, cs, body[|body| - 1], Emulate(o, cs, body[..|body| - 1], sym))
  }

  /** The address of the access, if the action is one, can be formed. */
  predicate Accessible(o: Oracle, cs: seq<Term>, a: Action, sym: Sym) {
    !a.Assign? ==> !Resolve(o, cs, AddressTerm(o, a, sym)).TooMany?
  }

  /** Emulating the block does not throw. */
  predicate AccessesOk(o: Oracle, cs: seq<Term>, body: seq<Action>, sym: Sym)
    decreases |body|
  {
    body == [] ||
    var n := |body| - 1;
    AccessesOk(o, cs, body[..n], sym) && Accessible(o, cs, body[n], Emulate(o, cs, body[..n], sym))
  }

  function Numbered(candidates: seq<Term>): seq<nat> {
    seq(|candidates|, i requires 0 <= i < |candidates| => if candidates[i].Value? then candidates[i].value else 0)
  }

  /** What the builder emits for an action. */
  function LowerAction(o: Oracle, cs: seq<Term>, a: Action, sym: Sym): Action {
    if a.Assign? then a
    else
      var r := Resolve(o, cs, AddressTerm(o, a, sym));
      var candidates := if r.Resolved? then Numbered(r.candidates) else [];
      match a
      case Load(target, address) => LoadAmong(target, address, candidates)
      case Store(address, value) => StoreAmong(address, candidates, value)
      case _ => a
  }

  function Lower(o: Oracle, cs: seq<Term>, body: seq<Action>, sym: Sym): seq<Action>
    decreases |body|
  {
    if body == [] then []
    else
      var n := |body| - 1;
      Lower(o, cs, body[..n], sym) + [LowerAction(o, cs, body[n], Emulate(o, cs, body[..n], sym))]
  }

  // -------------------------------------------- emulation is right

  lemma AddressTermMeans(o: Oracle, a: Action, sym: Sym, s: Assignment, c: State)
    requires o.Sound() && ActionTyped(a) && !a.Assign? && SymTyped(sym)
    ensures IsAddress(AddressTerm(o, a, sym))
    ensures Represents(sym, s, c) ==> Eval(AddressTerm(o, a, sym), s) == Eval(a.address, c)
  {
    hide Eval, Subst;
    SubstTyped(a.address, sym);
    if Represents(sym, s, c) { SubstEval(a.address, sym, s, c); }
  }

  lemma StoredValueMeans(a: Action, sym: Sym, s: Assignment, c: State)
    requires ActionTyped(a) && a.Store? && SymTyped(sym)
    ensures IsWord(Subst(a.value, sym)) && Subst(a.value, sym).Width() == a.value.Width()
    ensures Represents(sym, s, c) ==> Eval(Subst(a.value, sym), s) == Eval(a.value, c)
  {
    hide Eval, Subst;
    SubstTyped(a.value, sym);
    if Represents(sym, s, c) { SubstEval(a.value, sym, s, c); }
  }

  lemma ActionEmulatesTyped(o: Oracle, cs: seq<Term>, a: Action, sym: Sym)
    requires o.Sound() && o.Decisive() && ActionTyped(a) && SymTyped(sym)
    ensures SymTyped(EmulateAction(o, cs, a, sym))
  {
    hide Subst, Resolve, LoadSym, StoreSym;
    match a
    case Assign(_, term) => SubstTyped(term, sym);
    case Load(target, _) =>
      AddressTermMeans(o, a, sym, imap[], imap[]);
      LoadSymEval(o, cs, sym, AddressTerm(o, a, sym), BitsOf(target) / 8, imap[]);
    case Store(_, value) =>
      AddressTermMeans(o, a, sym, imap[], imap[]);
      StoredValueMeans(a, sym, imap[], imap[]);
      StoreSymTyped(o, cs, sym, AddressTerm(o, a, sym), Subst(value, sym));
  }

  lemma {:induction false} EmulateTyped(o: Oracle, cs: seq<Term>, body: seq<Action>, sym: Sym)
    requires o.Sound() && o.Decisive() && BodyTyped(body) && SymTyped(sym)
    ensures SymTyped(Emulate(o, cs, body, sym))
    decreases |body|
  {
    hide EmulateAction, SymTyped, ActionTyped, Oracle.Sound, Oracle.Decisive;
    if body != [] {
      var n := |body| - 1;
      EmulateTyped(o, cs, body[..n], sym);
      ActionEmulatesTyped(o, cs, body[n], Emulate(o, cs, body[..n], sym));
    }
  }

  /** Updating one name in both states. */
  lemma UpdateRepresents(sym: Sym, s: Assignment, c: State, target: Name, t: Term, v: nat)
    requires Represents(sym, s, c) && t.WellSorted() && t.Width() == BitsOf(target) && Eval(t, s) == v
    requires target.PageByte? ==> Near(t)
    ensures Represents(sym[target := t], s, c[target := v])
  {
    hide Eval, Truncate;
    EvalFits(t, s);
    TruncateSmall(v, BitsOf(target));
    var sym', c' := sym[target := t], c[target := v];
    forall n ensures Eval(Lookup(sym', n), s) == Cell(c', n) {
      assert Eval(Lookup(sym, n), s) == Cell(c, n);
    }
  }

  lemma LoadRepresents(o: Oracle, cs: seq<Term>, a: Action, sym: Sym, s: Assignment, c: State)
    requires o.Sound() && o.Decisive() && ActionTyped(a) && a.Load? && Represents(sym, s, c) && Holds(cs, s)
    requires Accessible(o, cs, a, sym)
    ensures Represents(EmulateAction(o, cs, a, sym), s, Perform(a, c))
  {
    hide Eval, Holds, Resolve, LoadSym, Translate, LittleEndian, Subst;
    var address, n := AddressTerm(o, a, sym), BitsOf(a.target) / 8;
    AddressTermMeans(o, a, sym, s, c);
    LoadSymEval(o, cs, sym, address, n, s);
    var place := Translate(Eval(address, s));
    SameBytes(sym, s, c, place, n);
    var t := LoadSym(o, cs, sym, address, n);
    assert Eval(o.rewrite(t), s) == Eval(t, s) == LoadWord(c, place, n);
    UpdateRepresents(sym, s, c, a.target, o.rewrite(t), LoadWord(c, place, n));
  }

  lemma SameBytes(sym: Sym, s: Assignment, c: State, place: Place, n: nat)
    requires Represents(sym, s, c)
    ensures SymBytes(sym, place, n, s) == LoadBytes(c, place, n)
  {
    hide Eval, Lookup, Cell;
    assert forall i :: 0 <= i < n ==> SymBytes(sym, place, n, s)[i] == LoadBytes(c, place, n)[i];
  }

  lemma StoreRepresents(o: Oracle, cs: seq<Term>, a: Action, sym: Sym, s: Assignment, c: State)
    requires o.Sound() && o.Decisive() && ActionTyped(a) && a.Store? && Represents(sym, s, c) && Holds(cs, s)
    requires Accessible(o, cs, a, sym)
    ensures Represents(EmulateAction(o, cs, a, sym), s, Perform(a, c))
  {
    hide Eval, Holds, Resolve, StoreSym, StoreWord, StoredName, Translate, Subst, Cell, Lookup, Oracle.Sound;
    hide Oracle.Decisive;
    var address, val := AddressTerm(o, a, sym), Subst(a.value, sym);
    AddressTermMeans(o, a, sym, s, c);
    StoredValueMeans(a, sym, s, c);
    ActionEmulatesTyped(o, cs, a, sym);
    var place, n, v := Translate(Eval(address, s)), val.Width() / 8, Eval(val, s);
    forall name
      ensures Eval(Lookup(StoreSym(o, cs, sym, address, val), name), s) == Cell(StoreWord(c, place, n, v), name)
    {
      StoreSymEval(o, cs, sym, address, val, name, s);
      StoreWordCell(c, place, n, v, name);
      assert Eval(Lookup(sym, name), s) == Cell(c, name);
    }
  }

  lemma ActionRepresents(o: Oracle, cs: seq<Term>, a: Action, sym: Sym, s: Assignment, c: State)
    requires o.Sound() && o.Decisive() && ActionTyped(a) && Represents(sym, s, c) && Holds(cs, s)
    requires Accessible(o, cs, a, sym)
    ensures Represents(EmulateAction(o, cs, a, sym), s, Perform(a, c))
  {
    match a
    case Assign(target, term) =>
      hide Eval, Subst;
      SubstTyped(term, sym);
      SubstEval(term, sym, s, c);
      UpdateRepresents(sym, s, c, target, o.rewrite(Subst(term, sym)), Eval(term, c));
    case Load(_, _) => LoadRepresents(o, cs, a, sym, s, c);
    case Store(_, _) => StoreRepresents(o, cs, a, sym, s, c);
  }

  /** Emulating a block keeps the symbolic state a description of the machine's state, for every
      input that satisfies the path constraints, unless the emulator throws. */
  lemma {:induction false} EmulateRepresents(o: Oracle, cs: seq<Term>, body: seq<Action>, sym: Sym, s: Assignment,
                                             c: State)
    requires o.Sound() && o.Decisive() && BodyTyped(body) && Represents(sym, s, c) && Holds(cs, s)
    requires AccessesOk(o, cs, body, sym)
    ensures Represents(Emulate(o, cs, body, sym), s, RunBody(body, c))
    decreases |body|
  {
    hide EmulateAction, Perform, ActionTyped, Accessible, Represents, Holds, Oracle.Sound, Oracle.Decisive;
    if body != [] {
      var n := |body| - 1;
      EmulateRepresents(o, cs, body[..n], sym, s, c);
      ActionRepresents(o, cs, body[n], Emulate(o, cs, body[..n], sym), s, RunBody(body[..n], c));
    }
  }

  // -------------------------------------------- the emitted code is right

  lemma NumberedListed(candidates: seq<Term>, v: nat)
    requires CandidatesOk(candidates) && Listed(v, candidates)
    ensures v in Numbered(candidates) && Numbered(candidates) != []
    ensures forall i, j :: 0 <= i < j < |candidates| ==> Numbered(candidates)[i] != Numbered(candidates)[j]
  {
    var i :| 0 <= i < |candidates| && candidates[i].Value? && candidates[i].value == v;
    assert Numbered(candidates)[i] == v;
  }

  /** On every input that satisfies the constraints the emitted accesses do what the machine's
      own access does. */
  lemma LowerActionRuns(o: Oracle, cs: seq<Term>, a: Action, sym: Sym, s: Assignment, c: State)
    requires o.Sound() && o.Decisive() && ActionTyped(a) && Represents(sym, s, c) && Holds(cs, s)
    requires Accessible(o, cs, a, sym)
    ensures Perform(LowerAction(o, cs, a, sym), c) == Perform(a, c)
  {
    hide Holds, Resolve, Represents, Eval, Perform, ActionTyped, Oracle.Sound, Oracle.Decisive, AddressTerm;
    if !a.Assign? {
      var candidates := AddressListed(o, cs, a, sym, s, c);
      PerformAmong(a, Numbered(candidates), c);
      assert LowerAction(o, cs, a, sym) == if a.Load? then LoadAmong(a.target, a.address, Numbered(candidates))
                                           else StoreAmong(a.address, Numbered(candidates), a.value) by {
        assert a.Load? || a.Store? by { NoEmitted(a); }
      }
    }
  }

  lemma NoEmitted(a: Action)
    requires ActionTyped(a)
    ensures a.Assign? || a.Load? || a.Store?
  {
  }

  /** The run-time address is one of the distinct candidates. */
  lemma AddressListed(o: Oracle, cs: seq<Term>, a: Action, sym: Sym, s: Assignment, c: State)
    returns (candidates: seq<Term>)
    requires o.Sound() && o.Decisive() && ActionTyped(a) && !a.Assign? && Represents(sym, s, c) && Holds(cs, s)
    requires Accessible(o, cs, a, sym)
    ensures Resolve(o, cs, AddressTerm(o, a, sym)) == Resolved(candidates)
    ensures IsCandidateOf(Eval(a.address, c), Numbered(candidates)) && (a.Load? || a.Store?)
  {
    hide Holds, Resolve, Eval, AddressTerm, Lookup, Cell, Enumerable, Term.WellSorted, Term.Width;
    AddressTermMeans(o, a, sym, s, c);
    ResolveMeans(o, cs, AddressTerm(o, a, sym));
    candidates := Resolve(o, cs, AddressTerm(o, a, sym)).candidates;
    assert Listed(Eval(AddressTerm(o, a, sym), s), candidates);
    NumberedListed(candidates, Eval(a.address, c));
  }

  ghost predicate IsCandidateOf(v: nat, candidates: seq<nat>) {
    v in candidates && forall i, j :: 0 <= i < j < |candidates| ==> candidates[i] != candidates[j]
  }

  lemma PerformAmong(a: Action, candidates: seq<nat>, c: State)
    requires (a.Load? || a.Store?) && IsCandidateOf(Eval(a.address, c), candidates)
    ensures a.Load? ==> Perform(LoadAmong(a.target, a.address, candidates), c) == Perform(a, c)
    ensures a.Store? ==> Perform(StoreAmong(a.address, candidates, a.value), c) == Perform(a, c)
  {
    hide Eval, EmittedLoad, EmittedStore, StoreWord, LoadWord, Translate;
    var v := Eval(a.address, c);
    if a.Load? {
      EmittedLoadCorrect(c, v, candidates, BitsOf(a.target) / 8);
    } else if |candidates| > 1 {
      EmittedStoreIsStore(c, v, candidates, a.value.Width() / 8, Eval(a.value, c));
    }
  }

  lemma {:induction false} LowerRuns(o: Oracle, cs: seq<Term>, body: seq<Action>, sym: Sym, s: Assignment, c: State)
    requires o.Sound() && o.Decisive() && BodyTyped(body) && Represents(sym, s, c) && Holds(cs, s)
    requires AccessesOk(o, cs, body, sym)
    ensures RunBody(Lower(o, cs, body, sym), c) == RunBody(body, c)
    decreases |body|
  {
    hide EmulateAction, Perform, ActionTyped, Accessible, Represents, Holds, Oracle.Sound, Oracle.Decisive, LowerAction;
    if body != [] {
      var n := |body| - 1;
      LowerRuns(o, cs, body[..n], sym, s, c);
      EmulateRepresents(o, cs, body[..n], sym, s, c);
      var sym', front := Emulate(o, cs, body[..n], sym), Lower(o, cs, body[..n], sym);
      LowerActionRuns(o, cs, body[n], sym', s, RunBody(body[..n], c));
      assert (front + [LowerAction(o, cs, body[n], sym')])[..|front|] == front;
    }
  }

  /** Every access is emitted for the places enumerated, and nothing else changes. */
  lemma {:induction false} LowerForm(o: Oracle, cs: seq<Term>, body: seq<Action>, sym: Sym, i: nat)
    requires i < |body|
    ensures |Lower(o, cs, body, sym)| == |body|
    ensures var a, e := body[i], Lower(o, cs, body, sym)[i];
      match a
      case Assign(_, _) => e == a
      case Load(target, address) => e.LoadAmong? && e.target == target && e.address == address
        && NumbersOf(o, cs, a, Emulate(o, cs, body[..i], sym), e.candidates)
      case Store(address, value) => e.StoreAmong? && e.address == address && e.value == value
        && NumbersOf(o, cs, a, Emulate(o, cs, body[..i], sym), e.candidates)
      case _ => true
    decreases |body|
  {
    hide Emulate, NumbersOf;
    var n := |body| - 1;
    LowerLength(o, cs, body[..n], sym);
    if i < n {
      LowerForm(o, cs, body[..n], sym, i);
      assert body[..n][..i] == body[..i];
    } else if body[n].Load? || body[n].Store? {
      EnumeratedPlaces(o, cs, body[n], Emulate(o, cs, body[..n], sym));
    }
  }

  lemma {:induction false} LowerLength(o: Oracle, cs: seq<Term>, body: seq<Action>, sym: Sym)
    ensures |Lower(o, cs, body, sym)| == |body|
    decreases |body|
  {
    if body != [] { LowerLength(o, cs, body[..|body| - 1], sym); }
  }

  /** The numbers are those of the addresses that the access resolves to. */
  ghost predicate NumbersOf(o: Oracle, cs: seq<Term>, a: Action, sym: Sym, numbers: seq<nat>)
    requires !a.Assign?
  {
    var r := Resolve(o, cs, o.rewrite(Subst(a.address, sym)));
    r.Resolved? ==>
      && |numbers| == |r.candidates|
      && forall k :: 0 <= k < |numbers| && r.candidates[k].Value? ==> numbers[k] == r.candidates[k].value
  }

  lemma EnumeratedPlaces(o: Oracle, cs: seq<Term>, a: Action, sym: Sym)
    requires a.Load? || a.Store?
    ensures NumbersOf(o, cs, a, sym, LowerAction(o, cs, a, sym).candidates)
  {
    hide Resolve;
  }

  // -------------------------------------------- why a wild store must throw

  /** A store at the address in a register. */
  function WildStore(): Action { Store(Symbol(Register(0), 64), Value(8, 1)) }

  lemma RegisterTakes(o: Oracle, v: nat)
    requires o.Sound() && v < TWO64
    ensures Eval(o.rewrite(Symbol(Register(0), 64)), imap[Register(0) := v]) == v
  {
    Pow2Of64();
    TruncateSmall(v, 64);
  }

  /** An unconstrained register is no literal and has more values than can be enumerated. */
  lemma TooManyAddresses(o: Oracle)
    requires o.Sound() && o.Decisive()
    ensures Resolve(o, [], o.rewrite(Symbol(Register(0), 64))).TooMany?
  {
    var t := o.rewrite(Symbol(Register(0), 64));
    assert IsAddress(Symbol(Register(0), 64)) && IsAddress(t);
    RegisterTakes(o, 0);
    RegisterTakes(o, 1);
    ResolveMeans(o, [], t);
    hide Eval, Resolve, Oracle.Sound;
    NoLiteral(t, imap[Register(0) := 0], imap[Register(0) := 1]);
    assert Holds([], imap[]);
    forall values | 0 < |values| <= LIMIT ensures !Enumerates(t, [], values) {
      if Covers(t, [], values) {
        forall v: nat | v < LIMIT + 1 ensures v in Numbers(values) {
          RegisterTakes(o, v);
          assert Holds([], imap[Register(0) := v]);
          NumbersAreListed(values, v);
        }
        TooSmall(Numbers(values), LIMIT + 1);
        NumbersAreListed(values, 0);
      }
    }
  }

  lemma NoLiteral(t: Term, s: Assignment, s': Assignment)
    requires Eval(t, s) != Eval(t, s')
    ensures !t.IsValue()
  {
  }

  lemma {:induction false} TooSmall(numbers: set<nat>, n: nat)
    requires forall v: nat :: v < n ==> v in numbers
    ensures |numbers| >= n
  {
    if n > 0 { TooSmall(numbers - {n - 1}, n - 1); }
  }

  /** The memory ignores a store at an unresolved address.  If emulation went on after one, the
      symbolic state would no longer describe the machine: whatever the solver, such a store is
      not accessible, and dropping it breaks the description for some input. */
  lemma DroppedStoreBreaks(o: Oracle)
    requires o.Sound() && o.Decisive()
    ensures ActionTyped(WildStore()) && !Accessible(o, [], WildStore(), map[])
    ensures var s: Assignment := imap[]; var c := Start(map[], s);
      Represents(map[], s, c) && !Represents(EmulateAction(o, [], WildStore(), map[]), s, Perform(WildStore(), c))
  {
    var a, s: Assignment, sym: Sym := WildStore(), imap[], map[];
    var c := Start(sym, s);
    StartRepresented(sym, s);
    TooManyAddresses(o);
    WildStoreTyped();
    assert EmulateAction(o, [], a, sym) == sym;
    hide Eval, Resolve, Perform, Start;
    WildStoreWrites(c, s);
  }

  lemma WildStoreTyped()
    ensures ActionTyped(WildStore())
  {
    assert Pow2(8) == 256;
    assert Value(8, 1).WellSorted();
  }

  lemma WildStoreWrites(c: State, s: Assignment)
    requires s == imap[] && c == Start(map[], s)
    ensures var name := PlaceName(Translate(0));
      Cell(Perform(WildStore(), c), name) == 1 && Eval(Lookup(map[], name), s) == 0
  {
    var name := PlaceName(Translate(0));
    ZeroSymbol(s, Register(0), 64);
    ZeroSymbol(s, name, 8);
    ZeroSymbol(c, Register(0), 64);
    hide Pow2, Truncate, SymbolValue, StoreWord;
    StoreWordCell(c, Translate(0), 1, 1, name);
    FirstByte();
  }

  lemma ZeroSymbol(s: Assignment, n: Name, w: nat)
    requires n in s ==> s[n] == 0
    ensures Eval(Symbol(n, w), s) == 0
  {
    hide Pow2;
    QuotientUnique(0, Pow2(w), 0, 0);
  }

  lemma FirstByte()
    ensures ByteOf(1, 0) == 1
  {
    assert Pow2(0) == 1;
  }

  // ----------------------------------------------------- emitted blocks

  datatype Exit = Open | Jump(target: nat) | Branch(cond: Term, yes: nat, no: nat) | Return | Trap

  datatype Block = Block(body: seq<Action>, exit: Exit) {
    predicate Leaf() { !exit.Jump? && !exit.Branch? }
  }

  /** Control only flows to blocks created later. */
  ghost predicate Forward(blocks: seq<Block>) {
    forall b :: 0 <= b < |blocks| ==>
      match blocks[b].exit
      case Jump(t) => b < t < |blocks|
      case Branch(_, y, n) => b < y < |blocks| && b < n < |blocks|
      case _ => true
  }

  /** The leaf block that running the emitted code from block `b` ends in, with the state. */
  ghost function Follow(blocks: seq<Block>, b: nat, c: State): (nat, State)
    requires Forward(blocks) && b < |blocks|
    ensures b <= Follow(blocks, b, c).0 < |blocks| && blocks[Follow(blocks, b, c).0].Leaf()
    decreases |blocks| - b
  {
    var c := RunBody(blocks[b].body, c);
    match blocks[b].exit
    case Jump(t) => Follow(blocks, t, c)
    case Branch(cond, y, n) => Follow(blocks, if True(cond, c) then y else n, c)
    case _ => (b, c)
  }

  /** `after` only adds to `before`: the exit of the open block `at`, and new blocks. */
  ghost predicate Grafted(before: seq<Block>, after: seq<Block>, at: nat) {
    && Forward(before) && Forward(after) && |before| <= |after| && at < |before|
    && before[at].Leaf() && after[at].body == before[at].body
    && (match after[at].exit
        case Jump(t) => t >= |before|
        case Branch(_, y, n) => y >= |before| && n >= |before|
        case _ => true)
    && forall b :: 0 <= b < |before| && b != at ==> after[b] == before[b]
  }

  ghost function LeaveBlock(blocks: seq<Block>, b: nat, c: State): (nat, State)
    requires Forward(blocks) && b < |blocks|
  {
    match blocks[b].exit
    case Jump(t) => Follow(blocks, t, c)
    case Branch(cond, y, n) => Follow(blocks, if True(cond, c) then y else n, c)
    case _ => (b, c)
  }

  /** Growing the code at one open block changes nothing for runs that end elsewhere. */
  lemma {:induction false} FollowGrafted(before: seq<Block>, after: seq<Block>, at: nat, b: nat, c: State)
    requires Grafted(before, after, at) && b < |before|
    ensures var (leaf, c') := Follow(before, b, c);
      Follow(after, b, c) == if leaf == at then LeaveBlock(after, at, c') else (leaf, c')
    decreases |before| - b
  {
    var c' := RunBody(before[b].body, c);
    match before[b].exit
    case Jump(t) => FollowGrafted(before, after, at, t, c');
    case Branch(cond, y, n) => FollowGrafted(before, after, at, if True(cond, c') then y else n, c');
    case _ =>
  }

  // What the builder emits.

  function Link(blocks: seq<Block>, at: nat, body: seq<Action>): seq<Block>
    requires at < |blocks|
  {
    blocks[at := blocks[at].(exit := Jump(|blocks|))] + [Block(body, Open)]
  }

  function Fork(blocks: seq<Block>, at: nat, cond: Term, yes: seq<Action>, no: seq<Action>): seq<Block>
    requires at < |blocks|
  {
    blocks[at := blocks[at].(exit := Branch(cond, |blocks|, |blocks| + 1))] + [Block(yes, Open), Block(no, Open)]
  }

  function Seal(blocks: seq<Block>, at: nat, exit: Exit): seq<Block>
    requires at < |blocks|
  {
    blocks[at := blocks[at].(exit := exit)]
  }

  lemma LinkGrafts(blocks: seq<Block>, at: nat, body: seq<Action>)
    requires Forward(blocks) && at < |blocks| && blocks[at].Leaf()
    ensures Grafted(blocks, Link(blocks, at, body), at)
    ensures forall c :: LeaveBlock(Link(blocks, at, body), at, c) == (|blocks|, RunBody(body, c))
  {
  }

  ghost function AfterFork(n: nat, cond: Term, yes: seq<Action>, no: seq<Action>, c: State): (nat, State) {
    if True(cond, c) then (n, RunBody(yes, c)) else (n + 1, RunBody(no, c))
  }

  lemma ForkGrafts(blocks: seq<Block>, at: nat, cond: Term, yes: seq<Action>, no: seq<Action>)
    requires Forward(blocks) && at < |blocks| && blocks[at].Leaf()
    ensures Grafted(blocks, Fork(blocks, at, cond, yes, no), at)
    ensures forall c :: LeaveBlock(Fork(blocks, at, cond, yes, no), at, c) == AfterFork(|blocks|, cond, yes, no, c)
  {
  }

  /** A block and then a fork at its end, as a forking conditional move emits. */
  lemma LinkForkGrafts(blocks: seq<Block>, at: nat, body: seq<Action>, cond: Term, yes: seq<Action>, no: seq<Action>)
    requires Forward(blocks) && at < |blocks| && blocks[at].Leaf()
    ensures var n := |blocks|; var after := Fork(Link(blocks, at, body), n, cond, yes, no);
      && Grafted(blocks, after, at)
      && forall c :: LeaveBlock(after, at, c) == AfterFork(n + 1, cond, yes, no, RunBody(body, c))
  {
    var n := |blocks|;
    var mid := Link(blocks, at, body);
    var after := Fork(mid, n, cond, yes, no);
    LinkGrafts(blocks, at, body);
    ForkGrafts(mid, n, cond, yes, no);
    forall c ensures LeaveBlock(after, at, c) == AfterFork(n + 1, cond, yes, no, RunBody(body, c)) {
      FollowGrafted(mid, after, n, n, c);
      assert Follow(mid, n, c) == (n, RunBody(body, c));
    }
  }

  lemma SealGrafts(blocks: seq<Block>, at: nat, exit: Exit)
    requires Forward(blocks) && at < |blocks| && blocks[at].Leaf() && !exit.Jump? && !exit.Branch?
    ensures Grafted(blocks, Seal(blocks, at, exit), at)
    ensures forall c :: LeaveBlock(Seal(blocks, at, exit), at, c) == (at, c)
  {
  }
}
