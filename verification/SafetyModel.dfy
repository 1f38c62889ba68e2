/** The program seen by the memory-load concretizer: instructions with their place in the
    memory-definition forest, the definition chains of that forest, and the runs of the
    program.  The forest, the loop information and the concrete addresses are inputs. */
module SafetyModel {
  import opened Bits
  import opened Wrappers

  datatype Address = Address(page: nat, offset: nat)

  /** `size` bytes at a known offset of a known page; offsets are 64-bit and wrap. */
  datatype Access = Access(page: nat, offset: nat, size: nat) {
    function Byte(i: nat): Address {
      Address(page, (offset + i) % TWO64)
    }

    /** The bytes that the marking loop of a store visits: it stops at the end of the
        64-bit offset range instead of wrapping. */
    predicate Marks(a: Address) {
      a.page == page && offset <= a.offset < offset + size && a.offset < TWO64
    }

    ghost predicate Writes(a: Address) {
      exists i: nat :: i < size && Byte(i) == a
    }

    predicate Fits64() {
      offset < TWO64 && size < TWO64
    }

    predicate Wraps() {
      offset + size > TWO64
    }
  }

  /** Undefined stands for undef and poison, which pass for constants but have no one value. */
  datatype Operand = Constant(value: nat) | Undefined | Argument(index: nat) | Result(inst: nat)

  /** A node of the memory-definition forest. */
  datatype Node = LiveOnEntry | MemoryPhi(id: nat) | Def(inst: nat) {
    predicate Root() { !Def? }
  }

  datatype Kind =
    | Phi
    | Load(pointer: Operand, owner: Option<Node>, loaded: Option<Access>)
    | Store(pointer: Operand, stored: Operand, target: Option<Access>)
    | OtherMemory
    | Pure(op: nat, operands: seq<Operand>)

  /** `defines` is the defining access of an instruction that is a memory definition. */
  datatype Instruction = Instruction(kind: Kind, inLoop: bool, preds: nat, defines: Option<Node>)

  datatype Program = Program(code: seq<Instruction>) {

    ghost predicate WellFormed() {
      && (forall i, k :: 0 <= i < |code| && code[i].kind.Pure? && 0 <= k < |code[i].kind.operands| ==>
            InRange(code[i].kind.operands[k]))
      && (forall i :: 0 <= i < |code| && code[i].kind.Load? ==> InRange(code[i].kind.pointer))
      && (forall i :: 0 <= i < |code| && code[i].kind.Store? ==>
            InRange(code[i].kind.pointer) && InRange(code[i].kind.stored))
      && (forall i :: 0 <= i < |code| && code[i].kind.Store? && code[i].kind.target.Some? ==>
            code[i].kind.target.value.Fits64())
    }

    predicate InRange(o: Operand) {
      o.Result? ==> o.inst < |code|
    }

    predicate DefOf(i: nat, parent: Node) {
      i < |code| && code[i].defines == Some(parent)
    }

    /** Definitions of `parent` among the first `n` instructions, in program order. */
    function ChildrenUpTo(parent: Node, n: nat): (c: seq<Node>)
      requires n <= |code|
      ensures forall k :: 0 <= k < |c| ==> c[k].Def? && c[k].inst < n && DefOf(c[k].inst, parent)
      ensures forall j, k :: 0 <= j < k < |c| ==> c[j].inst < c[k].inst
      ensures forall i :: 0 <= i < n && DefOf(i, parent) ==> Def(i) in c
    {
      if n == 0 then []
      else if DefOf(n - 1, parent) then ChildrenUpTo(parent, n - 1) + [Def(n - 1)]
      else ChildrenUpTo(parent, n - 1)
    }

    function Children(parent: Node): seq<Node> {
      ChildrenUpTo(parent, |code|)
    }

    predicate LoadAt(i: nat, owner: Node) {
      i < |code| && code[i].kind.Load? && code[i].kind.owner == Some(owner)
    }

    function LoadsUpTo(owner: Node, n: nat): (c: seq<nat>)
      requires n <= |code|
      ensures forall k :: 0 <= k < |c| ==> LoadAt(c[k], owner)
      ensures forall i :: 0 <= i < n && LoadAt(i, owner) ==> i in c
    {
      if n == 0 then []
      else if LoadAt(n - 1, owner) then LoadsUpTo(owner, n - 1) + [n - 1]
      else LoadsUpTo(owner, n - 1)
    }

    function Loads(owner: Node): seq<nat> {
      LoadsUpTo(owner, |code|)
    }

    /** The forest roots in the order the traversal takes them. */
    function RootsUpTo(n: nat): (r: seq<Node>)
      requires n <= |code|
      ensures forall k :: 0 <= k < |r| ==> r[k].Root()
      ensures LiveOnEntry in r
      ensures forall i, p :: 0 <= i < n && DefOf(i, p) && p.Root() ==> p in r
      ensures forall i, p :: 0 <= i < n && LoadAt(i, p) && p.Root() ==> p in r
    {
      if n == 0 then [LiveOnEntry]
      else
        var r := RootsUpTo(n - 1);
        var i := code[n - 1];
        var r := if i.defines.Some? then AddRoot(r, i.defines.value) else r;
        if i.kind.Load? && i.kind.owner.Some? then AddRoot(r, i.kind.owner.value) else r
    }

    static function AddRoot(r: seq<Node>, n: Node): seq<Node> {
      if n.MemoryPhi? && n !in r then r + [n] else r
    }

    /** A root followed by definitions, each the defining access of the next. */
    ghost predicate IsChain(chain: seq<Node>) {
      && |chain| > 0
      && chain[0].Root()
      && forall k :: 0 < k < |chain| ==> chain[k].Def? && DefOf(chain[k].inst, chain[k - 1])
    }

    /** A definition has one defining access, so a node has at most one chain. */
    lemma {:induction false} ChainUnique(c: seq<Node>, d: seq<Node>)
      requires IsChain(c) && IsChain(d) && c[|c| - 1] == d[|d| - 1]
      ensures c == d
    {
      var m, n := |c| - 1, |d| - 1;
      if m > 0 && n > 0 {
        ChainUnique(c[..m], d[..n]);
        assert c == c[..m] + [c[m]] && d == d[..n] + [d[n]];
      }
    }
  }

  /** Expressions over the entry state.  A load and a stored byte also name the expression of
      their pointer: it does not matter for the value, but it makes an expression a whole
      derivation, with everything it rests on inside it. */
  datatype Expr =
    | EConstant(value: nat)
    | EUndefined
    | EArgument(index: nat)
    | EApply(op: nat, args: seq<Expr>)
    | ELoad(pointer: Expr, bytes: seq<ByteExpr>)

  datatype ByteExpr = EntryByte(address: Address) | StoredByte(pointer: Expr, word: Expr, index: nat)

  /** The expressions of the instructions judged safe so far. */
  type Table = map<nat, Expr>

  predicate Known(t: Table, o: Operand) {
    o.Result? ==> o.inst in t
  }

  function ExprOf(t: Table, o: Operand): Expr
    requires Known(t, o)
  {
    match o
    case Constant(v) => EConstant(v)
    case Undefined => EUndefined
    case Argument(k) => EArgument(k)
    case Result(i) => t[i]
  }

  /** A store whose bytes become safe: outside loops and joins, with safe operands. */
  predicate StoreSafe(p: Program, t: Table, i: nat)
    requires i < |p.code| && p.code[i].kind.Store?
  {
    && !p.code[i].inLoop && p.code[i].preds <= 1
    && Known(t, p.code[i].kind.pointer) && Known(t, p.code[i].kind.stored)
  }

  function Target(p: Program, n: Node): Option<Access> {
    if n.Def? && n.inst < |p.code| && p.code[n.inst].kind.Store? then p.code[n.inst].kind.target else None
  }

  /** The slow form of the analysis: walk a chain backwards from its last node until a
      definition that is unknown or covers the byte decides; the root decides last. */
  function Walk(p: Program, t: Table, chain: seq<Node>, a: Address): Option<ByteExpr>
    requires |chain| > 0
    decreases |chain|
  {
    var n := |chain| - 1;
    if n == 0 then (if chain[0].LiveOnEntry? then Some(EntryByte(a)) else None)
    else match Target(p, chain[n])
      case None => None
      case Some(s) =>
        if s.Marks(a) then
          if StoreSafe(p, t, chain[n].inst)
          then
            var store := p.code[chain[n].inst].kind;
            Some(StoredByte(ExprOf(t, store.pointer), ExprOf(t, store.stored), a.offset - s.offset))
          else None
        else Walk(p, t, chain[..n], a)
  }

  ghost predicate RangeSafe(p: Program, t: Table, chain: seq<Node>, s: Access)
    requires |chain| > 0
  {
    forall i: nat :: i < s.size ==> Walk(p, t, chain, s.Byte(i)).Some?
  }

  /** The expression of a load all of whose bytes the walk resolves. */
  ghost function LoadExpr(p: Program, t: Table, ptr: Operand, chain: seq<Node>, s: Access): Expr
    requires |chain| > 0 && Known(t, ptr) && RangeSafe(p, t, chain, s)
  {
    ELoad(ExprOf(t, ptr), seq(s.size, (i: nat) requires i < s.size => Walk(p, t, chain, s.Byte(i)).value))
  }

  function ArgExprs(t: Table, os: seq<Operand>): seq<Expr>
    requires forall k :: 0 <= k < |os| ==> Known(t, os[k])
  {
    seq(|os|, k requires 0 <= k < |os| => ExprOf(t, os[k]))
  }

  /** `x` unfolds the safety derivation of instruction `i` over the table `t`. */
  ghost predicate Derivation(p: Program, t: Table, i: nat, x: Expr) {
    i < |p.code| && !p.code[i].inLoop &&
    match p.code[i].kind
    case Pure(op, os) =>
      (forall k :: 0 <= k < |os| ==> Known(t, os[k])) && x == EApply(op, ArgExprs(t, os))
    case Load(ptr, owner, loaded) =>
      p.code[i].preds <= 1 && owner.Some? && loaded.Some? && loaded.value.size <= 64 && Known(t, ptr) &&
      exists chain :: p.IsChain(chain) && chain[|chain| - 1] == owner.value
        && RangeSafe(p, t, chain, loaded.value) && x == LoadExpr(p, t, ptr, chain, loaded.value)
    case _ => false
  }

  ghost predicate Derived(p: Program, t: Table, i: nat)
    requires i in t
  {
    Derivation(p, t, i, t[i])
  }

  ghost predicate AllDerived(p: Program, t: Table) {
    forall i :: i in t ==> Derived(p, t, i)
  }

  // ------------------------------------------------------------------ runs

  type Memory = imap<Address, nat>
  type Words = imap<nat, nat>
  type Operations = imap<(nat, seq<nat>), nat>

  ghost function At(m: Memory, a: Address): nat { if a in m then m[a] else 0 }
  ghost function Arg(w: Words, k: nat): nat { if k in w then w[k] else 0 }
  ghost function Apply(f: Operations, op: nat, vs: seq<nat>): nat { if (op, vs) in f then f[(op, vs)] else 0 }

  /** What a run starts from, and the meaning of the operations. */
  datatype Entry = Entry(args: Words, memory: Memory, ops: Operations)

  /** One executed instruction, with the memory before and after it. */
  datatype Event = Event(inst: nat, value: nat, before: Memory, after: Memory)

  ghost predicate Reads(e: Entry, run: seq<Event>, j: nat, o: Operand, v: nat)
    requires j <= |run|
  {
    match o
    case Constant(c) => v == c
    case Undefined => true
    case Argument(k) => v == Arg(e.args, k)
    case Result(i) => exists k :: 0 <= k < j && run[k].inst == i && run[k].value == v
  }

  ghost predicate ReadsAll(e: Entry, run: seq<Event>, j: nat, os: seq<Operand>, vs: seq<nat>)
    requires j <= |run|
  {
    |vs| == |os| && forall k :: 0 <= k < |os| ==> Reads(e, run, j, os[k], vs[k])
  }

  /** `m` holds at `a` what the memory held when definition `n` last took effect.  This is
      what the forest promises; it promises nothing below a join. */
  ghost predicate Reaches(e: Entry, run: seq<Event>, j: nat, n: Node, m: Memory, k: int)
    requires j <= |run|
  {
    match n
    case LiveOnEntry => m == e.memory
    case MemoryPhi(_) => true
    case Def(d) => 0 <= k < j && run[k].inst == d && m == run[k].after
  }

  ghost predicate AgreeOn(m: Memory, m': Memory, s: Access) {
    forall i: nat :: i < s.size ==> At(m, s.Byte(i)) == At(m', s.Byte(i))
  }

  ghost predicate StoreEffect(s: Access, v: nat, before: Memory, after: Memory) {
    && (forall a :: !s.Writes(a) ==> At(after, a) == At(before, a))
    && (forall i: nat :: i < s.size ==> At(after, s.Byte(i)) == ByteOf(v, i))
  }

  ghost function BytesIn(m: Memory, s: Access): seq<nat> {
    seq(s.size, (i: nat) => At(m, s.Byte(i)))
  }

  ghost function ReadWord(m: Memory, s: Access): nat {
    LittleEndian(BytesIn(m, s))
  }

  ghost predicate EventOk(p: Program, e: Entry, run: seq<Event>, j: nat)
    requires j < |run|
  {
    var ev := run[j];
    ev.inst < |p.code| &&
    (p.code[ev.inst].defines.Some? ==>
      exists k :: Reaches(e, run, j, p.code[ev.inst].defines.value, ev.before, k)) &&
    match p.code[ev.inst].kind
    case Pure(op, os) => exists vs :: ReadsAll(e, run, j, os, vs) && ev.value == Apply(e.ops, op, vs)
    case Load(_, owner, loaded) =>
      loaded.Some? ==>
        && ev.value == ReadWord(ev.before, loaded.value)
        && (owner.Some? ==> exists m, k :: Reaches(e, run, j, owner.value, m, k) && AgreeOn(ev.before, m, loaded.value))
    case Store(_, stored, target) =>
      target.Some? ==> exists v :: Reads(e, run, j, stored, v) && StoreEffect(target.value, v, ev.before, ev.after)
    case _ => true
  }

  ghost predicate IsRun(p: Program, e: Entry, run: seq<Event>) {
    forall j :: 0 <= j < |run| ==> EventOk(p, e, run, j)
  }

  ghost function Eval(x: Expr, e: Entry): nat {
    match x
    case EConstant(v) => v
    case EUndefined => 0
    case EArgument(k) => Arg(e.args, k)
    case EApply(op, args) => Apply(e.ops, op, seq(|args|, k requires 0 <= k < |args| => Eval(args[k], e)))
    case ELoad(_, bytes) => LittleEndian(seq(|bytes|, k requires 0 <= k < |bytes| => EvalByte(bytes[k], e)))
  }

  ghost function EvalByte(b: ByteExpr, e: Entry): nat {
    match b
    case EntryByte(a) => At(e.memory, a)
    case StoredByte(_, w, i) => ByteOf(Eval(w, e), i)
  }

  /** No undefined value flows into the value of the expression. */
  ghost predicate Determined(x: Expr) {
    match x
    case EUndefined => false
    case EApply(_, args) => forall k :: 0 <= k < |args| ==> Determined(args[k])
    case ELoad(_, bytes) => forall k :: 0 <= k < |bytes| ==> DeterminedByte(bytes[k])
    case _ => true
  }

  ghost predicate DeterminedByte(b: ByteExpr) {
    b.StoredByte? ==> Determined(b.word)
  }

  // ------------------------------------------------------------- soundness

  ghost predicate NoStoreWraps(p: Program) {
    forall i :: 0 <= i < |p.code| && p.code[i].kind.Store? && p.code[i].kind.target.Some? ==>
      !p.code[i].kind.target.value.Wraps()
  }

  /** The marking loop visits exactly the bytes the store writes, unless the store runs past
      the end of the offset range: then it misses every wrapped byte. */
  lemma MarksExactlyTheWrittenBytes(s: Access)
    requires s.Fits64()
    ensures (forall a :: s.Marks(a) <==> s.Writes(a)) <==> !s.Wraps()
  {
    if s.Wraps() {
      var a := s.Byte(TWO64 - s.offset);
      assert a == Address(s.page, 0);
      assert s.Writes(a);
      assert !s.Marks(a);
    } else {
      forall a ensures s.Marks(a) <==> s.Writes(a) {
        if s.Marks(a) {
          assert s.Byte(a.offset - s.offset) == a;
        }
        if s.Writes(a) {
          WrittenIsMarked(s, a);
        }
      }
    }
  }

  lemma WrittenIsMarked(s: Access, a: Address)
    requires !s.Wraps() && s.Writes(a)
    ensures s.Marks(a)
  {
    var i: nat :| i < s.size && s.Byte(i) == a;
    assert s.offset + i < TWO64;
  }

  /** The backward walk for byte `a` passes over no store that writes it, as the wrapped part of
      a store that runs past the end of the offset range does. */
  ghost predicate WalkClear(p: Program, chain: seq<Node>, a: Address)
    requires |chain| > 0
    decreases |chain|
  {
    var n := |chain| - 1;
    n > 0 && Target(p, chain[n]).Some? && !Target(p, chain[n]).value.Marks(a) ==>
      !Target(p, chain[n]).value.Writes(a) && WalkClear(p, chain[..n], a)
  }

  ghost predicate RangeClear(p: Program, chain: seq<Node>, s: Access)
    requires |chain| > 0
  {
    forall k: nat :: k < s.size ==> WalkClear(p, chain, s.Byte(k))
  }

  /** No byte of the load is walked past a store that writes it. */
  ghost predicate ReadsClear(p: Program, i: nat) {
    i < |p.code| && p.code[i].kind.Load? && p.code[i].kind.owner.Some? && p.code[i].kind.loaded.Some? ==>
      forall chain :: p.IsChain(chain) && chain[|chain| - 1] == p.code[i].kind.owner.value ==>
        RangeClear(p, chain, p.code[i].kind.loaded.value)
  }

  /** The condition for soundness: true of every program none of whose stores wraps. */
  ghost predicate AllClear(p: Program, t: Table) {
    forall i :: i in t ==> ReadsClear(p, i)
  }

  lemma {:induction false} NoWrapClear(p: Program, chain: seq<Node>, a: Address)
    requires NoStoreWraps(p) && p.IsChain(chain)
    ensures WalkClear(p, chain, a)
    decreases |chain|
  {
    var n := |chain| - 1;
    if n > 0 && Target(p, chain[n]).Some? && !Target(p, chain[n]).value.Marks(a) {
      if Target(p, chain[n]).value.Writes(a) { WrittenIsMarked(Target(p, chain[n]).value, a); }
      NoWrapClear(p, chain[..n], a);
    }
  }

  lemma NoStoreWrapsClear(p: Program, t: Table)
    requires NoStoreWraps(p)
    ensures AllClear(p, t)
  {
    hide NoStoreWraps, WalkClear;
    forall i, chain | i in t && i < |p.code| && p.IsChain(chain) && p.code[i].kind.Load? && p.code[i].kind.loaded.Some?
      ensures RangeClear(p, chain, p.code[i].kind.loaded.value)
    {
      forall k: nat ensures WalkClear(p, chain, p.code[i].kind.loaded.value.Byte(k)) {
        NoWrapClear(p, chain, p.code[i].kind.loaded.value.Byte(k));
      }
    }
  }

  /** Every earlier event of a safe instruction produced its expression's value, unless that is
      undefined. */
  ghost predicate FixedBefore(t: Table, e: Entry, run: seq<Event>, j: nat)
    requires j <= |run|
  {
    forall k :: 0 <= k < j && run[k].inst in t && Determined(t[run[k].inst]) ==> run[k].value == Eval(t[run[k].inst], e)
  }

  lemma ReadsFixed(t: Table, e: Entry, run: seq<Event>, j: nat, o: Operand, v: nat)
    requires j <= |run| && FixedBefore(t, e, run, j) && Known(t, o) && Reads(e, run, j, o, v)
    requires Determined(ExprOf(t, o))
    ensures v == Eval(ExprOf(t, o), e)
  {
  }

  /** The memory a chain's last definition left holds, at every byte the backward walk
      resolves, the value of the byte expression it resolves to. */
  lemma {:induction false} WalkFixed(p: Program, t: Table, e: Entry, run: seq<Event>, j: nat,
                                     chain: seq<Node>, m: Memory, k: int, a: Address)
    requires IsRun(p, e, run) && j <= |run| && FixedBefore(t, e, run, j)
    requires p.IsChain(chain) && Reaches(e, run, j, chain[|chain| - 1], m, k) && WalkClear(p, chain, a)
    requires a.offset < TWO64 && Walk(p, t, chain, a).Some? && DeterminedByte(Walk(p, t, chain, a).value)
    ensures At(m, a) == EvalByte(Walk(p, t, chain, a).value, e)
    decreases |chain|
  {
    var n := |chain| - 1;
    if n > 0 {
      var d := chain[n].inst;
      var s := Target(p, chain[n]).value;
      assert EventOk(p, e, run, k);
      var stored := p.code[d].kind.stored;
      var v :| Reads(e, run, k, stored, v) && StoreEffect(s, v, run[k].before, run[k].after);
      if s.Marks(a) {
        var i := a.offset - s.offset;
        assert s.Byte(i) == a;
        ReadsFixed(t, e, run, k, stored, v);
      } else {
        var k' :| Reaches(e, run, k, p.code[d].defines.value, run[k].before, k');
        WalkFixed(p, t, e, run, k, chain[..n], run[k].before, k', a);
      }
    }
  }

  lemma LoadFixed(p: Program, t: Table, e: Entry, run: seq<Event>, j: nat)
    requires IsRun(p, e, run) && j < |run| && FixedBefore(t, e, run, j) && ReadsClear(p, run[j].inst)
    requires run[j].inst in t && Derived(p, t, run[j].inst) && p.code[run[j].inst].kind.Load?
    requires Determined(t[run[j].inst])
    ensures run[j].value == Eval(t[run[j].inst], e)
  {
    var ev := run[j];
    var kind := p.code[ev.inst].kind;
    var s := kind.loaded.value;
    var chain :| p.IsChain(chain) && chain[|chain| - 1] == kind.owner.value
      && RangeSafe(p, t, chain, s) && t[ev.inst] == LoadExpr(p, t, kind.pointer, chain, s);
    assert EventOk(p, e, run, j);
    var m, k :| Reaches(e, run, j, kind.owner.value, m, k) && AgreeOn(ev.before, m, s);
    var bytes := t[ev.inst].bytes;
    assert RangeClear(p, chain, s);
    hide Derived, EventOk, IsRun, ReadsClear, WalkClear, Program.IsChain;
    forall i: nat | i < s.size ensures At(ev.before, s.Byte(i)) == EvalByte(bytes[i], e) {
      assert bytes[i] == Walk(p, t, chain, s.Byte(i)).value && DeterminedByte(bytes[i]);
      WalkFixed(p, t, e, run, j, chain, m, k, s.Byte(i));
    }
    assert BytesIn(ev.before, s)
        == seq(|bytes|, i requires 0 <= i < |bytes| => EvalByte(bytes[i], e));
  }

  lemma PureFixed(p: Program, t: Table, e: Entry, run: seq<Event>, j: nat)
    requires IsRun(p, e, run) && j < |run| && FixedBefore(t, e, run, j)
    requires run[j].inst in t && Derived(p, t, run[j].inst) && p.code[run[j].inst].kind.Pure?
    requires Determined(t[run[j].inst])
    ensures run[j].value == Eval(t[run[j].inst], e)
  {
    var ev := run[j];
    var os := p.code[ev.inst].kind.operands;
    assert EventOk(p, e, run, j);
    var vs :| ReadsAll(e, run, j, os, vs) && ev.value == Apply(e.ops, p.code[ev.inst].kind.op, vs);
    var args := ArgExprs(t, os);
    assert t[ev.inst] == EApply(p.code[ev.inst].kind.op, args);
    forall k | 0 <= k < |os| ensures vs[k] == Eval(args[k], e) {
      assert Determined(args[k]);
      ReadsFixed(t, e, run, j, os[k], vs[k]);
    }
    assert vs == seq(|args|, k requires 0 <= k < |args| => Eval(args[k], e));
  }

  lemma StepFixed(p: Program, t: Table, e: Entry, run: seq<Event>, j: nat)
    requires AllClear(p, t) && AllDerived(p, t) && IsRun(p, e, run) && j < |run| && FixedBefore(t, e, run, j)
    requires run[j].inst in t && Determined(t[run[j].inst])
    ensures run[j].value == Eval(t[run[j].inst], e)
  {
    assert Derived(p, t, run[j].inst);
    if p.code[run[j].inst].kind.Load? {
      LoadFixed(p, t, e, run, j);
    } else {
      PureFixed(p, t, e, run, j);
    }
  }

  /** Soundness: if no load is walked past a store that writes it, then on every run every
      execution of an instruction with a derived expression produces the value of that one
      expression over the entry state, unless something undefined flows into it. */
  lemma {:induction false} SafeValuesAreFixed(p: Program, t: Table, e: Entry, run: seq<Event>, j: nat)
    requires AllClear(p, t) && AllDerived(p, t) && IsRun(p, e, run) && j <= |run|
    ensures FixedBefore(t, e, run, j)
  {
    hide IsRun, AllClear, Eval, Determined, AllDerived;
    if j > 0 {
      SafeValuesAreFixed(p, t, e, run, j - 1);
      if run[j - 1].inst in t && Determined(t[run[j - 1].inst]) {
        StepFixed(p, t, e, run, j - 1);
      }
    }
  }

  /** A two-byte store at the last offset, then a load of offset 0. */
  function WrappingProgram(): Program {
    Program([
      Instruction(Store(Constant(0), Constant(0xFFFF), Some(Access(0, TWO64 - 1, 2))), false, 0, Some(LiveOnEntry)),
      Instruction(Load(Constant(0), Some(Def(0)), Some(Access(0, 0, 1))), false, 0, None)])
  }

  ghost function WrappingTable(): Table { map[1 := ELoad(EConstant(0), [EntryByte(Address(0, 0))])] }

  ghost function EmptyEntry(): Entry { Entry(imap[], imap[], imap[]) }

  ghost function WrappedMemory(): Memory {
    imap[Address(0, TWO64 - 1) := 0xFF, Address(0, 0) := 0xFF]
  }

  ghost function WrappingRun(): seq<Event> {
    [Event(0, 0, imap[], WrappedMemory()), Event(1, 0xFF, WrappedMemory(), WrappedMemory())]
  }

  lemma WrappingDerived()
    ensures AllDerived(WrappingProgram(), WrappingTable())
  {
    var p, t, l := WrappingProgram(), WrappingTable(), Access(0, 0, 1);
    var chain := [LiveOnEntry, Def(0)];
    assert p.IsChain(chain);
    assert chain[..1] == [LiveOnEntry];
    assert Walk(p, t, chain, l.Byte(0)) == Some(EntryByte(Address(0, 0)));
    assert RangeSafe(p, t, chain, l);
    assert LoadExpr(p, t, Constant(0), chain, l) == t[1];
    assert Derived(p, t, 1);
  }

  lemma WrappedBytes()
    ensures StoreEffect(Access(0, TWO64 - 1, 2), 0xFFFF, imap[], WrappedMemory())
  {
    var s := Access(0, TWO64 - 1, 2);
    BothBytes();
    hide ByteOf;
    assert s.Byte(0) == Address(0, TWO64 - 1) && s.Byte(1) == Address(0, 0);
  }

  lemma BothBytes()
    ensures ByteOf(0xFFFF, 0) == 0xFF && ByteOf(0xFFFF, 1) == 0xFF
  {
    assert Pow2(8) == 256;
  }

  lemma WrappingStoreRuns()
    ensures EventOk(WrappingProgram(), EmptyEntry(), WrappingRun(), 0)
  {
    var e, run, s := EmptyEntry(), WrappingRun(), Access(0, TWO64 - 1, 2);
    WrappedBytes();
    hide StoreEffect;
    assert Reads(e, run, 0, Constant(0xFFFF), 0xFFFF);
    assert Reaches(e, run, 0, LiveOnEntry, run[0].before, 0);
  }

  lemma WrappingLoadRuns()
    ensures EventOk(WrappingProgram(), EmptyEntry(), WrappingRun(), 1)
  {
    var e, run, l := EmptyEntry(), WrappingRun(), Access(0, 0, 1);
    var m := run[1].before;
    assert Reaches(e, run, 1, Def(0), m, 0) && AgreeOn(m, m, l);
    assert BytesIn(m, l) == [0xFF];
    assert ReadWord(m, l) == 0xFF;
  }

  /** Without the bound on stores soundness fails: the load's byte was overwritten by the
      wrapped half of the store, and its derivation still resolves to the entry byte. */
  lemma WrappedStoreBreaksSoundness()
    ensures AllDerived(WrappingProgram(), WrappingTable())
    ensures IsRun(WrappingProgram(), EmptyEntry(), WrappingRun())
    ensures !FixedBefore(WrappingTable(), EmptyEntry(), WrappingRun(), |WrappingRun()|)
  {
    hide EventOk, AllDerived;
    WrappingDerived();
    WrappingStoreRuns();
    WrappingLoadRuns();
    var bs, e, run := WrappingTable()[1].bytes, EmptyEntry(), WrappingRun();
    assert seq(|bs|, k requires 0 <= k < |bs| => EvalByte(bs[k], e)) == [0];
    assert run[1].inst in WrappingTable() && run[1].value == 0xFF;
  }

  /** A store of undef, then a load of the same byte. */
  function UndefinedProgram(): Program {
    Program([
      Instruction(Store(Constant(0), Undefined, Some(Access(0, 0, 1))), false, 0, Some(LiveOnEntry)),
      Instruction(Load(Constant(0), Some(Def(0)), Some(Access(0, 0, 1))), false, 0, None)])
  }

  ghost function UndefinedTable(): Table {
    map[1 := ELoad(EConstant(0), [StoredByte(EConstant(0), EUndefined, 0)])]
  }

  ghost function UndefinedRun(b: nat): seq<Event> {
    var m := imap[Address(0, 0) := b];
    [Event(0, 0, imap[], m), Event(1, b, m, m)]
  }

  lemma UndefinedDerived()
    ensures AllDerived(UndefinedProgram(), UndefinedTable())
  {
    var p, t, l := UndefinedProgram(), UndefinedTable(), Access(0, 0, 1);
    var chain := [LiveOnEntry, Def(0)];
    assert p.IsChain(chain);
    assert Walk(p, t, chain, l.Byte(0)) == Some(StoredByte(EConstant(0), EUndefined, 0));
    assert RangeSafe(p, t, chain, l) && LoadExpr(p, t, Constant(0), chain, l) == t[1];
    assert Derived(p, t, 1);
  }

  lemma UndefinedRuns(b: nat)
    requires b < 256
    ensures IsRun(UndefinedProgram(), EmptyEntry(), UndefinedRun(b))
  {
    var e, run, s := EmptyEntry(), UndefinedRun(b), Access(0, 0, 1);
    assert s.Byte(0) == Address(0, 0);
    assert ByteOf(b, 0) == b by { assert Pow2(0) == 1; }
    assert StoreEffect(s, b, run[0].before, run[0].after) && Reads(e, run, 0, Undefined, b);
    assert Reaches(e, run, 0, LiveOnEntry, run[0].before, 0);
    assert EventOk(UndefinedProgram(), e, run, 0);
    var m := run[1].before;
    assert Reaches(e, run, 1, Def(0), m, 0) && AgreeOn(m, m, s);
    assert BytesIn(m, s) == [b];
    OneByte(b);
    assert EventOk(UndefinedProgram(), e, run, 1);
  }

  /** An undefined value passes for a constant, so a load of its bytes is judged safe; from one
      entry state it has any value at all. */
  lemma UndefinedHasNoValue()
    ensures AllDerived(UndefinedProgram(), UndefinedTable()) && NoStoreWraps(UndefinedProgram())
    ensures forall b: nat :: b < 256 ==>
      IsRun(UndefinedProgram(), EmptyEntry(), UndefinedRun(b)) && UndefinedRun(b)[1].value == b
  {
    UndefinedDerived();
    hide IsRun, AllDerived;
    forall b: nat | b < 256 ensures IsRun(UndefinedProgram(), EmptyEntry(), UndefinedRun(b)) { UndefinedRuns(b); }
  }
}
