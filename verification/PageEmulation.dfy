/** The emulator's page memory and the symbolic state of exploration: accesses through cells,
    candidates and copy-on-write pages do on the pages what exploration says of its terms. */
module PageEmulation {
  import opened Bits
  import opened Terms
  import opened Solver
  import opened Places
  import opened States
  import opened SymbolicAccess
  import opened Emulator
  import opened Machine
  import opened Fetching
  import opened Trails
  import opened Wrappers

  /** On every input that satisfies the constraints the pages hold what the terms say. */
  ghost predicate Mirrors(dm: DataMemory, sym: Sym, cs: seq<Term>)
    reads dm, dm.stack, dm.main, dm.stack.memory, dm.main.memory
  {
    forall p: Place, s: Assignment :: Holds(cs, s) ==> dm.View(p, s) == Eval(Lookup(sym, PlaceName(p)), s)
  }

  lemma NamedPlace(place: Place, n: nat, v: nat, p: Place, before: nat)
    ensures StoredName(place, n, v, PlaceName(p), before) == StoredAt(place, n, v, p, before)
  {
    assert PlaceOf(PlaceName(p)) == p;
  }

  /** A store on the pages keeps them a mirror of the stored terms. */
  method StoreMirrored(dm: DataMemory, cs: seq<Term>, ghost sym: Sym, address: Term, val: Term)
    requires dm.Valid() && SymTyped(sym) && Mirrors(dm, sym, cs) && IsAddress(address) && IsWord(val)
    modifies dm.stack`memory, dm.main`memory, dm.stack.memory, dm.main.memory
    ensures dm.Valid() && dm.Moved(old(dm.stack.memory), old(dm.main.memory))
    ensures Mirrors(dm, StoreSym(dm.o, cs, sym, dm.o.rewrite(address), val), cs)
  {
    hide Eval, Holds, Lookup, Translate, StoredAt, StoredName, StoreSym, Resolve, SymTyped, Enumerable, Term.Width;
    hide Term.WellSorted;
    hide Oracle.Sound, Oracle.Decisive;
    SimplifiedAddress(dm.o, address);
    var t := dm.o.rewrite(address);
    ResolveMeans(dm.o, cs, t);
    if t.IsValue() {
      dm.WritePlace(Translate(t.value), val);
    } else {
      var resolved := dm.WriteMemory(cs, Pointer(false, address), val);
    }
    ghost var sym' := StoreSym(dm.o, cs, sym, t, val);
    forall p: Place, s: Assignment | Holds(cs, s) ensures dm.View(p, s) == Eval(Lookup(sym', PlaceName(p)), s) {
      if Resolve(dm.o, cs, t).TooMany? {
        DroppedStore(dm.o, cs, sym, t, val);
      } else {
        StoreSymEval(dm.o, cs, sym, t, val, PlaceName(p), s);
        NamedPlace(Translate(Eval(t, s)), val.Width() / 8, Eval(val, s), p, old(dm.View(p, s)));
      }
    }
  }

  lemma DroppedStore(o: Oracle, cs: seq<Term>, sym: Sym, address: Term, val: Term)
    requires Resolve(o, cs, address).TooMany? && val.Width() / 8 > 0
    ensures StoreSym(o, cs, sym, address, val) == sym
  {
  }

  /** A load from the pages changes no byte and has the value of the loaded term. */
  method LoadMirrored(dm: DataMemory, cs: seq<Term>, ghost sym: Sym, address: Term, n: nat) returns (word: Term)
    requires dm.Valid() && SymTyped(sym) && Mirrors(dm, sym, cs) && IsAddress(address) && 0 < n <= 8
    modifies dm.stack`memory, dm.main`memory, dm.stack.memory, dm.main.memory
    ensures dm.Valid() && dm.Moved(old(dm.stack.memory), old(dm.main.memory)) && Mirrors(dm, sym, cs)
    ensures forall s :: Holds(cs, s) ==> Eval(word, s) == Eval(LoadSym(dm.o, cs, sym, dm.o.rewrite(address), n), s)
  {
    hide Eval, Holds, Lookup, Translate, LoadSym, Resolve, SymTyped, Enumerable, Term.Width, Term.WellSorted;
    hide LittleEndian;
    hide Oracle.Sound, Oracle.Decisive;
    SimplifiedAddress(dm.o, address);
    var t := dm.o.rewrite(address);
    ResolveMeans(dm.o, cs, t);
    if t.IsValue() {
      word := dm.ReadPlace(Translate(t.value), n);
    } else {
      var resolved;
      word, resolved := dm.ReadMemory(cs, Pointer(false, address), n);
    }
    forall s | Holds(cs, s) ensures Eval(word, s) == Eval(LoadSym(dm.o, cs, sym, t, n), s) {
      if Resolve(dm.o, cs, t).TooMany? {
        UnknownLoad(dm.o, cs, sym, t, n);
      } else {
        LoadSymEval(dm.o, cs, sym, t, n, s);
        MirroredWord(dm, sym, cs, Translate(Eval(t, s)), n, s);
      }
    }
  }

  lemma UnknownLoad(o: Oracle, cs: seq<Term>, sym: Sym, address: Term, n: nat)
    requires Resolve(o, cs, address).TooMany? && n > 0
    ensures LoadSym(o, cs, sym, address, n) == Symbol(UnknownRead(address), 8 * n)
  {
  }

  lemma MirroredWord(dm: DataMemory, sym: Sym, cs: seq<Term>, place: Place, n: nat, s: Assignment)
    requires Mirrors(dm, sym, cs) && Holds(cs, s)
    ensures dm.WordAt(place, n, s) == LittleEndian(SymBytes(sym, place, n, s))
  {
    hide Eval, Holds, Lookup, LittleEndian;
    var bytes := if place.onStack then dm.stack.BytesAtBase(place.offset, n, s)
      else dm.main.BytesAtBase(place.offset, n, s);
    forall i | 0 <= i < n ensures bytes[i] == SymBytes(sym, place, n, s)[i] {
      var p := Place(place.onStack, Mod64(place.offset + i));
      assert bytes[i] == dm.View(p, s) && ByteName(place, i) == PlaceName(p);
    }
    assert bytes == SymBytes(sym, place, n, s);
  }

  // ------------------------------------------------------- whole blocks

  /** Pages mirror any state with the same memory, on fewer inputs as well. */
  lemma MirrorsKept(dm: DataMemory, sym: Sym, cs: seq<Term>, sym': Sym)
    requires Mirrors(dm, sym, cs) && SameMemory(sym', sym)
    ensures Mirrors(dm, sym', cs)
  {
    hide Holds, Lookup;
    forall p: Place, s: Assignment | Holds(cs, s) ensures dm.View(p, s) == Eval(Lookup(sym', PlaceName(p)), s) {
      assert Lookup(sym', PlaceName(p)) == Lookup(sym, PlaceName(p));
    }
  }

  lemma TargetKeepsMemory(sym: Sym, target: Name, t: Term)
    requires !target.PageByte?
    ensures SameMemory(sym[target := t], sym)
  {
  }

  /** One action of a block on the pages. */
  method ActionMirrored(dm: DataMemory, cs: seq<Term>, sym: Sym, a: Action)
    requires dm.Valid() && SymTyped(sym) && Mirrors(dm, sym, cs) && ActionTyped(a)
    modifies dm.stack`memory, dm.main`memory, dm.stack.memory, dm.main.memory
    ensures dm.Valid() && dm.Moved(old(dm.stack.memory), old(dm.main.memory))
    ensures Mirrors(dm, EmulateAction(dm.o, cs, a, sym), cs)
  {
    hide Eval, Holds, Lookup, Mirrors, StoreSym, LoadSym, Resolve, SymTyped, Subst, SameMemory;
    hide Oracle.Sound, Oracle.Decisive, Term.Width, Term.WellSorted;
    ghost var sym' := EmulateAction(dm.o, cs, a, sym);
    match a {
      case Assign(target, term) =>
        TargetKeepsMemory(sym, target, dm.o.rewrite(Subst(term, sym)));
        MirrorsKept(dm, sym, cs, sym');
      case Load(target, address) =>
        AddressFormed(dm.o, a, sym);
        var word := LoadMirrored(dm, cs, sym, Subst(address, sym), BitsOf(target) / 8);
        TargetKeepsMemory(sym, target, sym'[target]);
        MirrorsKept(dm, sym, cs, sym');
      case Store(address, value) =>
        AddressFormed(dm.o, a, sym);
        StoredValueMeans(a, sym, imap[], imap[]);
        StoreMirrored(dm, cs, sym, Subst(address, sym), Subst(value, sym));
    }
  }

  lemma AddressFormed(o: Oracle, a: Action, sym: Sym)
    requires ActionTyped(a) && !a.Assign? && SymTyped(sym)
    ensures IsAddress(Subst(a.address, sym))
  {
    SubstTyped(a.address, sym);
  }

  /** A whole block on the pages keeps them a mirror of the emulated state. */
  method EmulateMirrored(dm: DataMemory, cs: seq<Term>, sym: Sym, body: seq<Action>)
    requires dm.Valid() && SymTyped(sym) && Mirrors(dm, sym, cs) && BodyTyped(body)
    modifies dm.stack`memory, dm.main`memory, dm.stack.memory, dm.main.memory
    ensures dm.Valid() && dm.Moved(old(dm.stack.memory), old(dm.main.memory))
    ensures Mirrors(dm, Emulate(dm.o, cs, body, sym), cs)
  {
    hide Mirrors, SymTyped, EmulateAction, ActionTyped, Oracle.Sound, Oracle.Decisive;
    var now := sym;
    for k := 0 to |body|
      invariant dm.Valid() && dm.Moved(old(dm.stack.memory), old(dm.main.memory))
      invariant now == Emulate(dm.o, cs, body[..k], sym) && SymTyped(now) && Mirrors(dm, now, cs)
    {
      assert body[..k + 1][..k] == body[..k];
      ActionMirrored(dm, cs, now, body[k]);
      ActionEmulatesTyped(dm.o, cs, body[k], now);
      now := EmulateAction(dm.o, cs, body[k], now);
    }
    assert body[..|body|] == body;
  }

  // ------------------------------------------------------- fetching from pages

  /** The address of byte `i` at a program counter. */
  function FetchAddress(pc: nat, i: nat): nat { Mod64(pc + i) }

  /** What the fetch makes of the cell at an address of the global page. */
  function PageFetched(dm: DataMemory, a: nat): Option<nat>
    reads dm, dm.main, dm.main.memory
  {
    if dm.main.Holds(a) && dm.main.Find(a).value.IsValue()
    then Some(CutByte(dm.main.Find(a).value.value, 8 * dm.main.Find(a).which)) else None
  }

  /** The cell holds one of the first eight bytes of its value. */
  predicate FirstEight(dm: DataMemory, a: nat)
    reads dm, dm.main, dm.main.memory
  {
    dm.main.Holds(a) ==> dm.main.Find(a).which < 8
  }

  /** The bytes fetched from the cells.  While every cell they come from holds one of the first
      eight bytes of its value, they are those the machine fetches, on every input. */
  method FetchMirrored(dm: DataMemory, ghost cs: seq<Term>, ghost sym: Sym, pc: nat) returns (bytes: seq<nat>)
    requires dm.Valid() && Mirrors(dm, sym, cs)
    ensures |bytes| <= FETCH && forall i :: 0 <= i < |bytes| ==> PageFetched(dm, FetchAddress(pc, i)) == Some(bytes[i])
    ensures |bytes| < FETCH ==> PageFetched(dm, FetchAddress(pc, |bytes|)).None?
    ensures (forall i :: 0 <= i < |bytes| ==>
               (dm.main.Holds(FetchAddress(pc, i)) ==> dm.main.Find(FetchAddress(pc, i)).which < 8)) ==>
      forall s, c :: Holds(cs, s) && Represents(sym, s, c) ==> bytes <= FetchBytes(c, pc)
  {
    hide Holds, Represents, FetchBytes, Mirrors, CutByte, PageFetched;
    bytes := [];
    while |bytes| < FETCH
      invariant |bytes| <= FETCH
      invariant forall i :: 0 <= i < |bytes| ==> PageFetched(dm, FetchAddress(pc, i)) == Some(bytes[i])
    {
      var b := PageFetched(dm, FetchAddress(pc, |bytes|));
      if b.None? {
        break;
      }
      bytes := bytes + [b.value];
    }
    if forall i :: 0 <= i < |bytes| ==> FirstEight(dm, FetchAddress(pc, i)) {
      forall s, c | Holds(cs, s) && Represents(sym, s, c) ensures bytes <= FetchBytes(c, pc) {
        MirroredFetch(dm, cs, sym, pc, bytes, s, c);
      }
    }
  }

  lemma MirroredFetch(dm: DataMemory, cs: seq<Term>, sym: Sym, pc: nat, bytes: seq<nat>, s: Assignment, c: State)
    requires dm.Valid() && Mirrors(dm, sym, cs) && Holds(cs, s) && Represents(sym, s, c) && |bytes| <= FETCH
    requires forall i :: 0 <= i < |bytes| ==>
      PageFetched(dm, FetchAddress(pc, i)) == Some(bytes[i]) && FirstEight(dm, FetchAddress(pc, i))
    ensures bytes <= FetchBytes(c, pc)
  {
    hide Holds, Lookup, Cell, CutByte, SymTyped, Pow2;
    forall i | 0 <= i < |bytes| ensures bytes[i] == FetchBytes(c, pc)[i] {
      var a := FetchAddress(pc, i);
      assert PageFetched(dm, a) == Some(bytes[i]) && FirstEight(dm, a);
      var n, cell := PlaceName(Place(false, a)), dm.main.Find(a);
      assert dm.View(Place(false, a), s) == Eval(Lookup(sym, n), s) == Cell(c, n);
      NearByte(cell.value.value, 8 * cell.which);
      assert bytes[i] == ByteOf(Eval(cell.value, s), cell.which);
    }
  }
}
