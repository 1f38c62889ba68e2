/** Machine states and their symbolic images, and accesses to the memory in them.

    A state assigns a word to every register and temporary and a byte to every memory cell; a
    symbolic state assigns terms.  Memory is on two pages, as in src/arch/arch.cpp. */
module States {
  import opened Bits
  import opened Terms
  import opened Places

  const GLOBAL_PAGE: nat := 0
  const STACK_PAGE: nat := 1

  type State = Assignment

  function BitsOf(n: Name): nat {
    match n
    case Register(_) => 64
    case Temp(_, bytes) => 8 * bytes
    case _ => 8
  }

  ghost function Cell(c: State, n: Name): nat { SymbolValue(c, n, BitsOf(n)) }

  // ---------------------------------------------------- symbolic states

  type Sym = map<Name, Term>

  function Lookup(sym: Sym, n: Name): Term {
    if n in sym then sym[n] else Symbol(n, BitsOf(n))
  }

  /** A byte of a literal is one of the literal's low 64 bits. */
  predicate Near(t: Term) { t.Extract? && t.arg.IsValue() ==> t.high < 64 }

  predicate SymTyped(sym: Sym) {
    forall n :: n in sym ==> sym[n].WellSorted() && sym[n].Width() == BitsOf(n) && (n.PageByte? ==> Near(sym[n]))
  }

  /** Under input `s`, the symbolic state evaluates to the concrete state `c`. */
  ghost predicate Represents(sym: Sym, s: Assignment, c: State) {
    SymTyped(sym) && forall n :: Eval(Lookup(sym, n), s) == Cell(c, n)
  }

  // ---------------------------------------------------- memory of a state

  function PlaceName(p: Place): Name { PageByte(if p.onStack then STACK_PAGE else GLOBAL_PAGE, p.offset) }

  predicate NamesPlace(n: Name) { n.PageByte? && n.page in {GLOBAL_PAGE, STACK_PAGE} }

  function PlaceOf(n: Name): Place
    requires NamesPlace(n)
  {
    Place(n.page == STACK_PAGE, n.address)
  }

  /** Byte `i` of a word at a place. */
  function ByteName(place: Place, i: nat): Name { PlaceName(Place(place.onStack, Mod64(place.offset + i))) }

  /** The name is one of the `n` bytes at the place. */
  predicate Within(place: Place, n: nat, name: Name) { NamesPlace(name) && InAccess(place, n, PlaceOf(name)) }

  /** What a store of `n` bytes of `v` at `place` leaves under a name that held `before`. */
  ghost function StoredName(place: Place, n: nat, v: nat, name: Name, before: nat): nat {
    if NamesPlace(name) then StoredAt(place, n, v, PlaceOf(name), before) else before
  }

  ghost function StoreWord(c: State, place: Place, n: nat, v: nat): State {
    imap name: Name | true :: StoredName(place, n, v, name, Cell(c, name))
  }

  ghost function LoadBytes(c: State, place: Place, n: nat): (b: seq<nat>)
    ensures |b| == n && forall i :: 0 <= i < n ==> b[i] == Cell(c, ByteName(place, i)) && b[i] < 256
  {
    assert Pow2(8) == 256;
    seq<nat>(n, i requires 0 <= i < n => Cell(c, ByteName(place, i)))
  }

  ghost function LoadWord(c: State, place: Place, n: nat): nat { LittleEndian(LoadBytes(c, place, n)) }

  lemma CellBound(c: State, name: Name)
    ensures Cell(c, name) < Pow2(BitsOf(name))
    ensures !name.Register? && !name.Temp? ==> Cell(c, name) < 256
  {
    assert Pow2(8) == 256;
  }

  /** The cells after a store. */
  lemma StoreWordCell(c: State, place: Place, n: nat, v: nat, name: Name)
    ensures Cell(StoreWord(c, place, n, v), name) == StoredName(place, n, v, name, Cell(c, name))
  {
    assert Pow2(8) == 256;
    hide Truncate, Pow2;
    var w := StoredName(place, n, v, name, Cell(c, name));
    CellBound(c, name);
    TruncateSmall(w, BitsOf(name));
  }

  // ----------------------------------------- the emitted load/select/store code

  /** For each candidate in turn: load, select on the address, store. */
  ghost function EmittedStore(c: State, addr: nat, candidates: seq<nat>, n: nat, v: nat): State
    decreases |candidates|
  {
    if candidates == [] then c
    else
      var k := |candidates| - 1;
      var c' := EmittedStore(c, addr, candidates[..k], n, v);
      var place := Translate(candidates[k]);
      StoreWord(c', place, n, if addr == candidates[k] then v else LoadWord(c', place, n))
  }

  /** The chain of selects, with the first candidate's load as its default. */
  ghost function EmittedLoad(c: State, addr: nat, candidates: seq<nat>, n: nat): nat
    requires candidates != []
    decreases |candidates|
  {
    var k := |candidates| - 1;
    if k == 0 || addr == candidates[k] then LoadWord(c, Translate(candidates[k]), n)
    else EmittedLoad(c, addr, candidates[..k], n)
  }

  lemma StoreBackByte(c: State, place: Place, n: nat, name: Name)
    requires place.offset < TWO64 && Within(place, n, name)
    ensures ByteOf(LoadWord(c, place, n), Index(place.offset, name.address)) == Cell(c, name)
  {
    hide Mod64, Cell;
    var i := Index(place.offset, name.address);
    assert Mod64(place.offset + i) == name.address;
    assert ByteName(place, i) == name;
    BytesReadBack(LoadBytes(c, place, n), i);
  }

  /** Storing a choice between the new word and the word already there is a guarded store. */
  lemma ChosenStore(c: State, hit: bool, place: Place, n: nat, v: nat, name: Name)
    requires place.offset < TWO64
    ensures StoredName(place, n, if hit then v else LoadWord(c, place, n), name, Cell(c, name))
         == if hit then StoredName(place, n, v, name, Cell(c, name)) else Cell(c, name)
  {
    hide LoadWord, Cell;
    if Within(place, n, name) { StoreBackByte(c, place, n, name); }
  }

  /** The emitted stores leave what one store at the address leaves, for any overlapping but
      distinct candidates, if the address is one of them; otherwise they change nothing. */
  lemma {:induction false} EmittedStoreCorrect(c: State, addr: nat, candidates: seq<nat>, n: nat, v: nat, name: Name)
    requires forall i, j :: 0 <= i < j < |candidates| ==> candidates[i] != candidates[j]
    ensures Cell(EmittedStore(c, addr, candidates, n, v), name)
         == if addr in candidates then StoredName(Translate(addr), n, v, name, Cell(c, name)) else Cell(c, name)
    decreases |candidates|
  {
    if candidates != [] {
      hide StoreWord, StoredName, Cell, Translate, LoadWord;
      var k := |candidates| - 1;
      EmittedStoreCorrect(c, addr, candidates[..k], n, v, name);
      var c', d := EmittedStore(c, addr, candidates[..k], n, v), candidates[k];
      assert candidates == candidates[..k] + [d];
      StoreWordCell(c', Translate(d), n, if addr == d then v else LoadWord(c', Translate(d), n), name);
      ChosenStore(c', addr == d, Translate(d), n, v, name);
    }
  }

  /** As states: the emitted stores are one store at the address. */
  lemma EmittedStoreIsStore(c: State, addr: nat, candidates: seq<nat>, n: nat, v: nat)
    requires addr in candidates && forall i, j :: 0 <= i < j < |candidates| ==> candidates[i] != candidates[j]
    ensures EmittedStore(c, addr, candidates, n, v) == StoreWord(c, Translate(addr), n, v)
  {
    var x, y := EmittedStore(c, addr, candidates, n, v), StoreWord(c, Translate(addr), n, v);
    EmittedStoreTotal(c, addr, candidates, n, v);
    forall name: Name ensures name in x && name in y && x[name] == y[name] {
      EmittedStoreCorrect(c, addr, candidates, n, v, name);
      StoreWordCell(c, Translate(addr), n, v, name);
    }
  }

  /** The last store leaves every cell in its range. */
  lemma EmittedStoreTotal(c: State, addr: nat, candidates: seq<nat>, n: nat, v: nat)
    requires candidates != []
    ensures forall name: Name :: name in EmittedStore(c, addr, candidates, n, v)
    ensures forall name: Name ::
      EmittedStore(c, addr, candidates, n, v)[name] == Cell(EmittedStore(c, addr, candidates, n, v), name)
  {
    var k := |candidates| - 1;
    var c', place := EmittedStore(c, addr, candidates[..k], n, v), Translate(candidates[k]);
    var w := if addr == candidates[k] then v else LoadWord(c', place, n);
    forall name: Name ensures StoreWord(c', place, n, w)[name] == Cell(StoreWord(c', place, n, w), name) {
      StoreWordCell(c', place, n, w, name);
    }
  }

  lemma {:induction false} EmittedLoadCorrect(c: State, addr: nat, candidates: seq<nat>, n: nat)
    requires addr in candidates
    ensures EmittedLoad(c, addr, candidates, n) == LoadWord(c, Translate(addr), n)
    decreases |candidates|
  {
    hide LoadWord;
    var k := |candidates| - 1;
    if k > 0 && addr != candidates[k] {
      EmittedLoadCorrect(c, addr, candidates[..k], n);
    }
  }
}
