/** Loads and stores of the emulator on a symbolic state: the address is resolved to a list of
    candidates, or nowhere, or the emulator gives up (src/arch/emulator.cpp, src/arch/arch.cpp). */
module SymbolicAccess {
  import opened Bits
  import opened Terms
  import opened Solver
  import opened Places
  import opened States

  // ------------------------------------------------------- the address

  /** A literal or enumerated address; none at all, when no input satisfies the constraints; or
      more values than can be enumerated, for which forming a pointer throws. */
  datatype Resolution = Resolved(candidates: seq<Term>) | Nowhere | TooMany

  function Resolve(o: Oracle, cs: seq<Term>, address: Term): Resolution {
    if address.IsValue() then Resolved([address])
    else
      var values := Enumerate(o, address, cs);
      if |values| == 1 || (|values| > 1 && o.check(Excluding(address, cs, values)).Unsat?) then Resolved(values)
      else if values == [] then Nowhere
      else TooMany
  }

  predicate IsAddress(t: Term) { t.WellSorted() && t.Width() == 64 }

  ghost predicate CandidatesOk(candidates: seq<Term>) {
    && candidates != []
    && (forall i :: 0 <= i < |candidates| ==>
      candidates[i].Value? && candidates[i].bits == 64 && candidates[i].value < TWO64)
    && (forall i, j :: 0 <= i < j < |candidates| ==> candidates[i] != candidates[j])
  }

  /** With a decisive solver: resolved exactly for literals and addresses of one to 20 values, and
      then complete; nowhere only where nothing can get; too many exactly for the others. */
  lemma ResolveMeans(o: Oracle, cs: seq<Term>, address: Term)
    requires o.Sound() && o.Decisive() && IsAddress(address)
    ensures var r := Resolve(o, cs, address);
      && (r.Resolved? <==> address.IsValue() || Enumerable(address, cs))
      && (r.Resolved? ==> CandidatesOk(r.candidates) && Covers(address, cs, r.candidates))
      && (r.Nowhere? ==> forall s :: !Holds(cs, s))
      && (r.TooMany? <==> !address.IsValue() && !Enumerable(address, cs) && exists s :: Holds(cs, s))
  {
    Pow2Of64();
    hide Holds, Pow2, Eval, Excluding, Enumerate, Oracle.Sound, Oracle.Decisive;
    if address.IsValue() {
      LiteralCovered(cs, address);
    } else {
      EnumerateMeans(o, address, cs);
      var values := Enumerate(o, address, cs);
      if values == [] { NothingHolds(address, cs); }
      hide Covers, Enumerable, Attainable;
      assert forall i :: 0 <= i < |values| ==> values[i].value < Pow2(64);
    }
  }

  lemma LiteralCovered(cs: seq<Term>, literal: Term)
    requires literal.IsValue()
    ensures Covers(literal, cs, [literal])
  {
    forall s | Holds(cs, s) ensures Listed(Eval(literal, s), [literal]) {
      assert [literal][0].value == Eval(literal, s);
    }
  }

  lemma NothingHolds(t: Term, cs: seq<Term>)
    requires Covers(t, cs, [])
    ensures forall s :: !Holds(cs, s)
  {
    hide Holds;
    forall s ensures !Holds(cs, s) {
      assert !Listed(Eval(t, s), []);
    }
  }

  // ------------------------------------------------------- bytes of a symbolic state

  /** The state after the first `i` bytes of `val` have been written: each cell holds a byte of
      the simplified value. */
  function WriteBytes(o: Oracle, sym: Sym, place: Place, val: Term, i: nat): Sym {
    if i == 0 then sym
    else WriteBytes(o, sym, place, val, i - 1)[ByteName(place, i - 1) := ByteTerm(o.rewrite(val), i - 1)]
  }

  /** A value of whole bytes, at most eight, as the machine's accesses are. */
  predicate IsWord(val: Term) {
    val.WellSorted() && val.Width() % 8 == 0 && 0 < val.Width() <= 64
  }

  lemma {:induction false} WriteBytesAt(o: Oracle, sym: Sym, place: Place, val: Term, i: nat, name: Name)
    requires place.offset < TWO64 && i <= 256
    ensures Lookup(WriteBytes(o, sym, place, val, i), name)
         == if Within(place, i, name) then ByteTerm(o.rewrite(val), Index(place.offset, name.address))
           else Lookup(sym, name)
  {
    hide Mod64;
    if i > 0 {
      WriteBytesAt(o, sym, place, val, i - 1, name);
    }
  }

  /** For every input, a write leaves the bytes of the value at its range. */
  lemma WriteBytesEval(o: Oracle, sym: Sym, place: Place, val: Term, name: Name, s: Assignment)
    requires o.Sound() && place.offset < TWO64 && IsWord(val)
    ensures Eval(Lookup(WriteBytes(o, sym, place, val, val.Width() / 8), name), s)
         == StoredName(place, val.Width() / 8, Eval(val, s), name, Eval(Lookup(sym, name), s))
  {
    hide ByteTerm, WriteBytes, Eval, Lookup, Term.WellSorted, Term.Width;
    var n := val.Width() / 8;
    WriteBytesAt(o, sym, place, val, n, name);
    if Within(place, n, name) {
      ByteTermMeans(o.rewrite(val), Index(place.offset, name.address), s);
    }
  }

  lemma {:induction false} WriteBytesTyped(o: Oracle, sym: Sym, place: Place, val: Term, i: nat)
    requires o.Sound() && SymTyped(sym) && IsWord(val) && 8 * i <= val.Width()
    ensures SymTyped(WriteBytes(o, sym, place, val, i))
  {
    hide Eval;
    if i > 0 {
      WriteBytesTyped(o, sym, place, val, i - 1);
      ByteTermMeans(o.rewrite(val), i - 1, imap[]);
    }
  }

  /** The word of `n` bytes at a place. */
  function ReadBytes(sym: Sym, place: Place, n: nat): Term
    requires n > 0
  {
    var top := Lookup(sym, ByteName(place, n - 1));
    if n == 1 then top else Concat(top, ReadBytes(sym, place, n - 1))
  }

  /** The bytes of a symbolic state under an input. */
  ghost function SymBytes(sym: Sym, place: Place, n: nat, s: Assignment): (b: seq<nat>)
    ensures |b| == n && forall i :: 0 <= i < n ==> b[i] == Eval(Lookup(sym, ByteName(place, i)), s)
  {
    seq<nat>(n, i requires 0 <= i < n => Eval(Lookup(sym, ByteName(place, i)), s))
  }

  lemma ByteLookup(sym: Sym, place: Place, i: nat)
    requires SymTyped(sym)
    ensures Lookup(sym, ByteName(place, i)).WellSorted() && Lookup(sym, ByteName(place, i)).Width() == 8
  {
  }

  lemma {:induction false} ReadBytesMeans(sym: Sym, place: Place, n: nat, s: Assignment)
    requires SymTyped(sym) && n > 0
    ensures ReadBytes(sym, place, n).WellSorted() && ReadBytes(sym, place, n).Width() == 8 * n
    ensures Eval(ReadBytes(sym, place, n), s) == LittleEndian(SymBytes(sym, place, n, s))
  {
    hide LittleEndian, Lookup, Pow2, ShiftLeft, SymTyped;
    ByteLookup(sym, place, n - 1);
    var top := Lookup(sym, ByteName(place, n - 1));
    var low := SymBytes(sym, place, n - 1, s);
    assert SymBytes(sym, place, n, s) == low + [Eval(top, s)];
    TopByte(low, Eval(top, s));
    if n == 1 {
      NoBytes(low, Eval(top, s));
    } else {
      ReadBytesMeans(sym, place, n - 1, s);
    }
  }

  /** One more significant byte. */
  lemma TopByte(low: seq<nat>, b: nat)
    ensures LittleEndian(low + [b]) == ShiftLeft(b, 8 * |low|) + LittleEndian(low)
  {
    OneByte(b);
    ShiftedByte(b, 8 * |low|);
    hide *;
    LittleEndianConcat(low, [b]);
  }

  lemma ShiftedByte(b: nat, k: nat)
    ensures ShiftLeft(b, k) == Pow2(k) * b
  {
    hide Pow2;
  }

  lemma NoBytes(low: seq<nat>, b: nat)
    requires low == []
    ensures ShiftLeft(b, 8 * |low|) + LittleEndian(low) == b
  {
  }

  // ------------------------------------------------------- stores

  /** One candidate: read back, choose, write. */
  function StoreOne(o: Oracle, sym: Sym, address: Term, candidate: Term, val: Term): Sym
    requires candidate.Value? && val.Width() / 8 > 0
  {
    var place, n := Translate(candidate.value), val.Width() / 8;
    WriteBytes(o, sym, place, Ite(Equal(address, candidate), val, ReadBytes(sym, place, n)), n)
  }

  function StoreAll(o: Oracle, sym: Sym, address: Term, candidates: seq<Term>, val: Term): Sym
    requires (forall i :: 0 <= i < |candidates| ==> candidates[i].Value?) && val.Width() / 8 > 0
    decreases |candidates|
  {
    if candidates == [] then sym
    else
      var k := |candidates| - 1;
      StoreOne(o, StoreAll(o, sym, address, candidates[..k], val), address, candidates[k], val)
  }

  lemma LiteralAddress(candidate: Term)
    requires candidate.Value? && candidate.bits == 64 && candidate.value < TWO64
    ensures IsAddress(candidate)
  {
    Pow2Of64();
  }

  lemma SymBytesBound(sym: Sym, place: Place, n: nat, s: Assignment)
    requires SymTyped(sym)
    ensures forall i :: 0 <= i < n ==> SymBytes(sym, place, n, s)[i] < 256
  {
    assert Pow2(8) == 256;
    forall i | 0 <= i < n ensures SymBytes(sym, place, n, s)[i] < 256 {
      ByteLookup(sym, place, i);
      EvalFits(Lookup(sym, ByteName(place, i)), s);
    }
  }

  /** The byte read back is the byte that was there. */
  lemma ReadBackByte(sym: Sym, place: Place, n: nat, name: Name, s: Assignment)
    requires SymTyped(sym) && n > 0 && place.offset < TWO64 && Within(place, n, name)
    ensures ByteOf(Eval(ReadBytes(sym, place, n), s), Index(place.offset, name.address)) == Eval(Lookup(sym, name), s)
  {
    hide Mod64, Lookup, Eval, ReadBytes, LittleEndian, SymTyped;
    var i := Index(place.offset, name.address);
    assert Mod64(place.offset + i) == name.address;
    assert ByteName(place, i) == name;
    ReadBytesMeans(sym, place, n, s);
    SymBytesBound(sym, place, n, s);
    BytesReadBack(SymBytes(sym, place, n, s), i);
  }

  lemma StoreOneEval(o: Oracle, sym: Sym, address: Term, candidate: Term, val: Term, name: Name, s: Assignment)
    requires o.Sound() && SymTyped(sym) && IsAddress(address) && IsWord(val)
    requires candidate.Value? && candidate.bits == 64 && candidate.value < TWO64
    ensures Eval(Lookup(StoreOne(o, sym, address, candidate, val), name), s)
         == if Eval(address, s) == candidate.value
            then StoredName(Translate(candidate.value), val.Width() / 8, Eval(val, s), name, Eval(Lookup(sym, name), s))
            else Eval(Lookup(sym, name), s)
  {
    hide Eval, Lookup, Term.WellSorted, Term.Width, WriteBytes, ReadBytes, Translate, Oracle.Sound, SymTyped, Equal;
    var place, n := Translate(candidate.value), val.Width() / 8;
    ReadBytesMeans(sym, place, n, s);
    LiteralAddress(candidate);
    ChoiceSorted(address, candidate, val, ReadBytes(sym, place, n));
    ChoiceValue(address, candidate, val, ReadBytes(sym, place, n), s);
    WriteBytesEval(o, sym, place, Ite(Equal(address, candidate), val, ReadBytes(sym, place, n)), name, s);
    if Within(place, n, name) { ReadBackByte(sym, place, n, name, s); }
  }

  lemma StoreOneTyped(o: Oracle, sym: Sym, address: Term, candidate: Term, val: Term)
    requires o.Sound() && SymTyped(sym) && IsAddress(address) && IsWord(val)
    requires candidate.Value? && candidate.bits == 64 && candidate.value < TWO64
    ensures SymTyped(StoreOne(o, sym, address, candidate, val))
  {
    hide Eval, Lookup, Term.WellSorted, Term.Width, WriteBytes, ReadBytes, Translate, Oracle.Sound, SymTyped, Equal;
    var place, n := Translate(candidate.value), val.Width() / 8;
    ReadBytesMeans(sym, place, n, imap[]);
    LiteralAddress(candidate);
    ChoiceSorted(address, candidate, val, ReadBytes(sym, place, n));
    WriteBytesTyped(o, sym, place, Ite(Equal(address, candidate), val, ReadBytes(sym, place, n)), n);
  }

  ghost predicate AllLiterals(candidates: seq<Term>) {
    forall i :: 0 <= i < |candidates| ==>
      candidates[i].Value? && candidates[i].bits == 64 && candidates[i].value < TWO64
  }

  /** The chain of guarded stores is one store at the address the input selects. */
  lemma {:induction false} StoreAllEval(o: Oracle, sym: Sym, address: Term, candidates: seq<Term>, val: Term,
                                        name: Name, s: Assignment)
    requires o.Sound() && SymTyped(sym) && IsAddress(address) && IsWord(val) && AllLiterals(candidates)
    requires forall i, j :: 0 <= i < j < |candidates| ==> candidates[i] != candidates[j]
    ensures SymTyped(StoreAll(o, sym, address, candidates, val))
    ensures Eval(Lookup(StoreAll(o, sym, address, candidates, val), name), s)
         == if Listed(Eval(address, s), candidates)
            then StoredName(Translate(Eval(address, s)), val.Width() / 8, Eval(val, s), name,
              Eval(Lookup(sym, name), s))
            else Eval(Lookup(sym, name), s)
    decreases |candidates|
  {
    hide Eval, Lookup, Term.WellSorted, Term.Width, StoreOne, StoredName, Translate, Oracle.Sound, SymTyped;
    if candidates != [] {
      var k := |candidates| - 1;
      var before, c := StoreAll(o, sym, address, candidates[..k], val), candidates[k];
      StoreAllEval(o, sym, address, candidates[..k], val, name, s);
      StoreOneEval(o, before, address, c, val, name, s);
      StoreOneTyped(o, before, address, c, val);
      ListedSplit(Eval(address, s), candidates);
      NotListedTwice(candidates, s);
    }
  }

  lemma ListedSplit(v: nat, candidates: seq<Term>)
    requires candidates != [] && AllLiterals(candidates)
    ensures var k := |candidates| - 1; Listed(v, candidates) <==> Listed(v, candidates[..k]) || candidates[k].value == v
  {
    var k := |candidates| - 1;
    assert candidates == candidates[..k] + [candidates[k]];
  }

  lemma NotListedTwice(candidates: seq<Term>, s: Assignment)
    requires candidates != [] && AllLiterals(candidates)
    requires forall i, j :: 0 <= i < j < |candidates| ==> candidates[i] != candidates[j]
    ensures var k := |candidates| - 1; !Listed(candidates[k].value, candidates[..k])
  {
  }

  /** A store of the emulator. */
  function StoreSym(o: Oracle, cs: seq<Term>, sym: Sym, address: Term, val: Term): Sym
    requires val.Width() / 8 > 0
  {
    match Resolve(o, cs, address)
    case Resolved(candidates) =>
      if |candidates| == 1 && candidates[0].Value?
      then WriteBytes(o, sym, Translate(candidates[0].value), val, val.Width() / 8)
      else if forall i :: 0 <= i < |candidates| ==> candidates[i].Value? then StoreAll(o, sym, address, candidates, val)
      else sym
    case _ => sym
  }

  /** For every input that satisfies the constraints it leaves what one store at the address the
      input selects leaves, unless the emulator throws. */
  lemma StoreSymEval(o: Oracle, cs: seq<Term>, sym: Sym, address: Term, val: Term, name: Name, s: Assignment)
    requires o.Sound() && o.Decisive() && SymTyped(sym) && IsAddress(address) && IsWord(val)
    requires !Resolve(o, cs, address).TooMany? && Holds(cs, s)
    ensures Eval(Lookup(StoreSym(o, cs, sym, address, val), name), s)
         == StoredName(Translate(Eval(address, s)), val.Width() / 8, Eval(val, s), name, Eval(Lookup(sym, name), s))
  {
    hide Eval, Lookup, Term.WellSorted, Term.Width, StoreAll, WriteBytes, StoredName, Translate, Oracle.Sound;
    hide Oracle.Decisive, SymTyped;
    hide Holds, Resolve, Enumerable;
    ResolveMeans(o, cs, address);
    var candidates := Resolve(o, cs, address).candidates;
    assert Listed(Eval(address, s), candidates);
    if |candidates| == 1 {
      WriteBytesEval(o, sym, Translate(candidates[0].value), val, name, s);
    } else {
      StoreAllEval(o, sym, address, candidates, val, name, s);
    }
  }

  lemma StoreSymTyped(o: Oracle, cs: seq<Term>, sym: Sym, address: Term, val: Term)
    requires o.Sound() && o.Decisive() && SymTyped(sym) && IsAddress(address) && IsWord(val)
    ensures SymTyped(StoreSym(o, cs, sym, address, val))
  {
    hide Eval, Lookup, Term.WellSorted, Term.Width, StoreAll, WriteBytes, Translate, Oracle.Sound, Oracle.Decisive;
    hide SymTyped;
    hide Holds, Resolve, Enumerable, Covers;
    ResolveMeans(o, cs, address);
    if Resolve(o, cs, address).Resolved? {
      var candidates := Resolve(o, cs, address).candidates;
      if |candidates| == 1 {
        WriteBytesTyped(o, sym, Translate(candidates[0].value), val, val.Width() / 8);
      } else {
        StoreAllEval(o, sym, address, candidates, val, Register(0), imap[]);
      }
    }
  }

  // ------------------------------------------------------- loads

  function LoadAll(sym: Sym, address: Term, candidates: seq<Term>, n: nat): Term
    requires candidates != [] && (forall i :: 0 <= i < |candidates| ==> candidates[i].Value?) && n > 0
    decreases |candidates|
  {
    var k := |candidates| - 1;
    var word := ReadBytes(sym, Translate(candidates[k].value), n);
    if k == 0 then word else Ite(Equal(address, candidates[k]), word, LoadAll(sym, address, candidates[..k], n))
  }

  lemma {:induction false} LoadAllMeans(sym: Sym, address: Term, candidates: seq<Term>, n: nat, s: Assignment)
    requires SymTyped(sym) && IsAddress(address) && candidates != [] && AllLiterals(candidates) && 0 < n <= 8
    ensures LoadAll(sym, address, candidates, n).WellSorted() && LoadAll(sym, address, candidates, n).Width() == 8 * n
    ensures Listed(Eval(address, s), candidates) ==>
      Eval(LoadAll(sym, address, candidates, n), s) == LittleEndian(SymBytes(sym, Translate(Eval(address, s)), n, s))
    decreases |candidates|
  {
    hide Eval, Lookup, Term.WellSorted, Term.Width, Translate, SymTyped, ReadBytes, LittleEndian, SymBytes, Equal;
    var k := |candidates| - 1;
    var word := ReadBytes(sym, Translate(candidates[k].value), n);
    ReadBytesMeans(sym, Translate(candidates[k].value), n, s);
    ListedSplit(Eval(address, s), candidates);
    if k > 0 {
      LoadAllMeans(sym, address, candidates[..k], n, s);
      LiteralAddress(candidates[k]);
      ChoiceSorted(address, candidates[k], word, LoadAll(sym, address, candidates[..k], n));
      ChoiceValue(address, candidates[k], word, LoadAll(sym, address, candidates[..k], n), s);
    }
  }

  /** A load of the emulator. */
  function LoadSym(o: Oracle, cs: seq<Term>, sym: Sym, address: Term, n: nat): Term
    requires n > 0
  {
    match Resolve(o, cs, address)
    case Resolved(candidates) =>
      if candidates != [] && forall i :: 0 <= i < |candidates| ==>
        candidates[i].Value? then LoadAll(sym, address, candidates, n)
      else Symbol(UnknownRead(address), 8 * n)
    case _ => Symbol(UnknownRead(address), 8 * n)
  }

  lemma LoadSymEval(o: Oracle, cs: seq<Term>, sym: Sym, address: Term, n: nat, s: Assignment)
    requires o.Sound() && o.Decisive() && SymTyped(sym) && IsAddress(address) && 0 < n <= 8
    ensures LoadSym(o, cs, sym, address, n).WellSorted() && LoadSym(o, cs, sym, address, n).Width() == 8 * n
    ensures !Resolve(o, cs, address).TooMany? && Holds(cs, s) ==>
      Eval(LoadSym(o, cs, sym, address, n), s) == LittleEndian(SymBytes(sym, Translate(Eval(address, s)), n, s))
  {
    hide Eval, Lookup, Translate, SymTyped, LoadAll, LittleEndian, SymBytes, Oracle.Sound, Oracle.Decisive;
    hide Holds, Resolve, Enumerable;
    ResolveMeans(o, cs, address);
    var r := Resolve(o, cs, address);
    if r.Resolved? { LoadAllMeans(sym, address, r.candidates, n, s); }
  }
}
