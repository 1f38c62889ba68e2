/** Memory accesses of the emulator: pages behind 64-bit addresses, and loads and stores at
    symbolic addresses turned into choices over enumerated candidates
    (src/arch/emulator.cpp, src/arch/arch.cpp). */
module Emulator {
  import opened Bits
  import opened Terms
  import opened Solver
  import opened Memory
  import opened Places

  // ------------------------------------------------- symbolic accesses

  /** A pointer value: an offset in a page, or an unresolved 64-bit address. */
  datatype Pointer = Pointer(onStack: bool, address: Term)

  lemma ChoiceCovers(a: Term, candidates: seq<Term>, i: nat, current: Term, rest: Term, s: Assignment, word: nat)
    requires i < |candidates| && candidates[i].Value? && Listed(Eval(a, s), candidates[..i + 1])
    requires Eval(a, s) == candidates[i].value ==> Eval(current, s) == word
    requires Listed(Eval(a, s), candidates[..i]) ==> Eval(rest, s) == word
    ensures Eval(Ite(Equal(a, candidates[i]), current, rest), s) == word
  {
    ChoiceValue(a, candidates[i], current, rest, s);
    hide Eval;
    assert candidates[..i + 1] == candidates[..i] + [candidates[i]];
  }

  lemma NothingStored(v: nat, candidates: seq<Term>)
    ensures !Listed(v, candidates[..0])
  {
  }

  lemma FirstListed(v: nat, candidates: seq<Term>)
    requires |candidates| > 0 && candidates[0].Value?
    ensures Listed(v, candidates[..1]) ==> v == candidates[0].value
  {
  }

  lemma NotHit(place: Place, n: nat, v: nat, p: Place, before: nat)
    ensures Guarded(false, place, n, v, p, before) == before
  {
  }

  /** The guarded store at the next candidate extends the list: distinct candidates are hit at
      most once, so no store overwrites an earlier hit. */
  lemma OneMore(a: Term, candidates: seq<Term>, i: nat, val: Term, p: Place, s: Assignment, before: nat)
    requires DistinctValues(a, candidates) && i < |candidates|
    ensures var v, n := Eval(a, s), val.Width() / 8;
      Guarded(v == candidates[i].value, Translate(candidates[i].value), n, Eval(val, s), p,
              Guarded(Listed(v, candidates[..i]), Translate(v), n, Eval(val, s), p, before))
      == Guarded(Listed(v, candidates[..i + 1]), Translate(v), n, Eval(val, s), p, before)
  {
    hide StoredAt, Translate, Eval, Term.Width;
    var v := Eval(a, s);
    assert Listed(v, candidates[..i + 1]) <==> Listed(v, candidates[..i]) || v == candidates[i].value by {
      assert candidates[..i + 1] == candidates[..i] + [candidates[i]];
    }
  }

  lemma SimplifiedAddress(o: Oracle, address: Term)
    requires o.Sound() && address.WellSorted() && address.Width() == 64
    ensures o.rewrite(address).WellSorted() && o.rewrite(address).Width() == 64
    ensures forall s :: Eval(o.rewrite(address), s) == Eval(address, s)
    ensures o.rewrite(address).IsValue() ==>
      o.rewrite(address).value < TWO64 && forall s :: Eval(address, s) == o.rewrite(address).value
  {
    Pow2Of64();
  }

  lemma SortedCandidates(a: Term, candidates: seq<Term>)
    requires DistinctValues(a, candidates) && a.Width() == 64
    requires forall i :: 0 <= i < |candidates| ==> candidates[i].value < Pow2(a.Width())
    ensures forall i :: 0 <= i < |candidates| ==>
      candidates[i].Value? && candidates[i].WellSorted() && candidates[i].Width() == 64
  {
  }

  lemma SymbolSorted(n: Name, w: nat)
    ensures Symbol(n, w).WellSorted() && Symbol(n, w).Width() == w
  {
  }

  lemma CoveredIsListed(a: Term, constraints: seq<Term>, candidates: seq<Term>, s: Assignment)
    requires Covers(a, constraints, candidates) && Terms.Holds(constraints, s)
    ensures Listed(Eval(a, s), candidates)
  {
  }

  // ------------------------------------------------- accesses at known addresses

  datatype Access = Write(address: nat, value: Term) | Read(address: nat, size: nat)

  function SizeOf(x: Access): nat { if x.Write? then x.value.Width() / 8 else x.size }

  /** A whole number of bytes, at an address where the access stays on one page. */
  predicate AccessOk(x: Access) {
    && x.address < TWO64 && 0 < SizeOf(x) < 256 && !Crosses(x.address, SizeOf(x))
    && (x.Write? ==> x.value.WellSorted() && x.value.Width() % 8 == 0)
  }

  lemma AccessMeans(x: Access)
    ensures AccessOk(x) <==>
      && x.address < TWO64 && 0 < SizeOf(x) <= 255 && !Crosses(x.address, SizeOf(x))
      && (x.Write? ==> x.value.WellSorted() && x.value.Width() % 8 == 0)
  {
  }

  /** What a sequence of accesses does to one flat memory, and what it reads there. */
  ghost function FlatAfter(m: FlatMemory, accesses: seq<Access>, s: Assignment): (r: FlatMemory)
    requires IsFlat(m)
    ensures IsFlat(r)
  {
    if accesses == [] then m
    else
      var before, last := FlatAfter(m, accesses[..|accesses| - 1], s), accesses[|accesses| - 1];
      if last.Write? then FlatWrite(before, last.address, SizeOf(last), Eval(last.value, s)) else before
  }

  ghost function FlatReads(m: FlatMemory, accesses: seq<Access>, s: Assignment): seq<nat>
    requires IsFlat(m)
  {
    if accesses == [] then []
    else
      var front, last := accesses[..|accesses| - 1], accesses[|accesses| - 1];
      if last.Write? then FlatReads(m, front, s)
      else FlatReads(m, front, s) + [FlatRead(FlatAfter(m, front, s), last.address, last.size)]
  }

  ghost function Values(terms: seq<Term>, s: Assignment): seq<nat> {
    seq<nat>(|terms|, i requires 0 <= i < |terms| => Eval(terms[i], s))
  }

  // ------------------------------------------------- the two data pages

  class DataMemory {
    const o: Oracle
    const stack: MemPage
    const main: MemPage

    constructor (oracle: Oracle, stackPage: MemPage, mainPage: MemPage)
      ensures o == oracle && stack == stackPage && main == mainPage
    {
      o, stack, main := oracle, stackPage, mainPage;
    }

    ghost predicate Valid()
      reads this, stack, main, stack.memory, main.memory
    {
      stack.Valid() && main.Valid() && stack.id != main.id && o.Sound() && o.Decisive()
    }

    /** Storage shared with snapshots has not been touched; the pages only move to new storage. */
    twostate predicate Moved(stackWas: Storage, mainWas: Storage)
      reads stack, main, stack.memory, main.memory, stackWas, mainWas
    {
      stack.Isolated(stackWas) && main.Isolated(mainWas)
    }

    ghost function View(p: Place, s: Assignment): nat
      reads this, stack, main, stack.memory, main.memory
    {
      if p.onStack then stack.ByteAt(p.offset, s) else main.ByteAt(p.offset, s)
    }

    /** The word of `n` bytes at a place. */
    ghost function WordAt(place: Place, n: nat, s: Assignment): nat
      reads this, stack, main, stack.memory, main.memory
    {
      LittleEndian(if place.onStack then stack.BytesAtBase(place.offset, n, s)
        else main.BytesAtBase(place.offset, n, s))
    }

    method WritePlace(place: Place, val: Term)
      requires Valid() && place.offset < TWO64
      requires val.WellSorted() && val.Width() % 8 == 0 && val.Width() < 8 * 256
      modifies stack`memory, main`memory, stack.memory, main.memory
      ensures Valid() && Moved(old(stack.memory), old(main.memory))
      ensures forall p, s :: View(p, s) == StoredAt(place, val.Width() / 8, Eval(val, s), p, old(View(p, s)))
    {
      hide CellsOk, Stored, Eval, Oracle.Sound, Oracle.Decisive, Term.WellSorted, Term.Width;
      if place.onStack {
        stack.WriteValue(o, place.offset, val);
      } else {
        main.WriteValue(o, place.offset, val);
      }
    }

    method ReadPlace(place: Place, n: nat) returns (t: Term)
      requires Valid() && n > 0
      modifies stack`memory, main`memory, stack.memory, main.memory
      ensures Valid() && Moved(old(stack.memory), old(main.memory)) && t.WellSorted() && t.Width() == 8 * n
      ensures forall p, s :: View(p, s) == old(View(p, s))
      ensures forall q, m, s :: WordAt(q, m, s) == old(WordAt(q, m, s))
      ensures forall s :: Eval(t, s) == WordAt(place, n, s)
    {
      hide CellsOk, Eval, Oracle.Sound, Oracle.Decisive, LittleEndian;
      if place.onStack {
        t := stack.Read(place.offset, n);
      } else {
        t := main.Read(place.offset, n);
      }
    }

    /** Reads the word at a candidate; its bytes are the bytes in view there. */
    method ReadOld(candidate: nat, n: nat) returns (t: Term)
      requires Valid() && n > 0
      modifies stack`memory, main`memory, stack.memory, main.memory
      ensures Valid() && Moved(old(stack.memory), old(main.memory)) && t.WellSorted() && t.Width() == 8 * n
      ensures forall p, s :: View(p, s) == old(View(p, s))
      ensures forall p: Place, s :: InAccess(Translate(candidate), n, p) ==>
        ByteOf(Eval(t, s), Index(Translate(candidate).offset, p.offset)) == View(p, s)
    {
      t := ReadPlace(Translate(candidate), n);
      hide CellsOk, Eval, Oracle.Sound, Oracle.Decisive, ByteOf, Term.Width, Term.WellSorted, Mod64, LittleEndian;
      ghost var place := Translate(candidate);
      ghost var page := if place.onStack then stack else main;
      forall p: Place, s | InAccess(place, n, p)
        ensures ByteOf(Eval(t, s), Index(place.offset, p.offset)) == View(p, s)
      {
        page.ByteInRange(place.offset, n, p.offset, s);
        BytesReadBack(page.BytesAtBase(place.offset, n, s), Index(place.offset, p.offset));
      }
    }

    /** One candidate of a store: read the old word, choose, write back. */
    method StoreCandidate(a: Term, candidate: Term, val: Term)
      requires Valid() && candidate.Value? && candidate.WellSorted() && candidate.Width() == 64
      requires a.WellSorted() && a.Width() == 64
      requires val.WellSorted() && val.Width() % 8 == 0 && 0 < val.Width() < 8 * 256
      modifies stack`memory, main`memory, stack.memory, main.memory
      ensures Valid() && Moved(old(stack.memory), old(main.memory))
      ensures var here := Translate(candidate.value); forall p, s ::
        View(p, s) == Guarded(Eval(a, s) == candidate.value, here, val.Width() / 8, Eval(val, s), p, old(View(p, s)))
    {
      hide CellsOk, Oracle.Sound, Oracle.Decisive, Guarded, StoredAt, Eval, Equal, Translate, ByteOf, Term.Width;
      hide Term.WellSorted;
      var place, n := Translate(candidate.value), val.Width() / 8;
      var oldVal := ReadOld(candidate.value, n);
      label Before:
      var updated := Ite(Equal(a, candidate), val, oldVal);
      ChoiceSorted(a, candidate, val, oldVal);
      WritePlace(place, updated);
      forall p, s
        ensures View(p, s) == Guarded(Eval(a, s) == candidate.value, place, n, Eval(val, s), p, old(View(p, s)))
      {
        ChoiceValue(a, candidate, val, oldVal, s);
        GuardedStore(Eval(a, s) == candidate.value, place, n, Eval(val, s), Eval(oldVal, s), p, old(View(p, s)));
      }
    }

    /** The value that must be in view after a store whose address is one of the listed values. */
    ghost function AfterStore(a: Term, listed: seq<Term>, val: Term, p: Place, s: Assignment, before: nat): nat {
      Guarded(Listed(Eval(a, s), listed), Translate(Eval(a, s)), val.Width() / 8, Eval(val, s), p, before)
    }

    /** Stores at every candidate in turn, each reading back what the earlier ones wrote. */
    method StoreCandidates(a: Term, candidates: seq<Term>, val: Term)
      requires Valid() && DistinctValues(a, candidates) && a.WellSorted() && a.Width() == 64
      requires forall i :: 0 <= i < |candidates| ==> candidates[i].WellSorted() && candidates[i].Width() == 64
      requires val.WellSorted() && val.Width() % 8 == 0 && 0 < val.Width() < 8 * 256
      modifies stack`memory, main`memory, stack.memory, main.memory
      ensures Valid() && Moved(old(stack.memory), old(main.memory))
      ensures forall p, s :: View(p, s) == AfterStore(a, candidates, val, p, s, old(View(p, s)))
    {
      hide CellsOk, Oracle.Sound, Oracle.Decisive, Guarded, Eval, Translate, Term.Width, Term.WellSorted;
      forall p, s ensures View(p, s) == AfterStore(a, candidates[..0], val, p, s, View(p, s)) {
        NothingStored(Eval(a, s), candidates);
        NotHit(Translate(Eval(a, s)), val.Width() / 8, Eval(val, s), p, View(p, s));
      }
      for i := 0 to |candidates|
        invariant Valid() && Moved(old(stack.memory), old(main.memory))
        invariant forall p, s :: View(p, s) == AfterStore(a, candidates[..i], val, p, s, old(View(p, s)))
      {
        label Round:
        StoreCandidate(a, candidates[i], val);
        forall p, s ensures View(p, s) == AfterStore(a, candidates[..i + 1], val, p, s, old(View(p, s))) {
          OneMore(a, candidates, i, val, p, s, old(View(p, s)));
        }
      }
      assert candidates[..|candidates|] == candidates;
    }

    /** The address is a literal, or the constraints leave it one to 20 values. */
    ghost predicate Resolvable(pointer: Pointer, constraints: seq<Term>) {
      o.rewrite(pointer.address).IsValue() || Enumerable(o.rewrite(pointer.address), constraints)
    }

    /** A store through a pointer.  A symbolic address is resolved if the solver lists all its
        values; an unresolved one leaves the memory as it is. */
    method WriteMemory(constraints: seq<Term>, pointer: Pointer, val: Term) returns (resolved: bool)
      requires Valid() && pointer.address.WellSorted() && pointer.address.Width() == 64
      requires val.WellSorted() && val.Width() % 8 == 0 && 0 < val.Width() < 8 * 256
      modifies stack`memory, main`memory, stack.memory, main.memory
      ensures Valid() && Moved(old(stack.memory), old(main.memory))
      ensures resolved && !o.rewrite(pointer.address).IsValue() ==> forall p, s :: Terms.Holds(constraints, s) ==>
        View(p, s) == StoredAt(Translate(Eval(pointer.address, s)), val.Width() / 8, Eval(val, s), p, old(View(p, s)))
      ensures resolved && o.rewrite(pointer.address).IsValue() ==> forall p, s ::
        View(p, s) == StoredAt(Place(pointer.onStack, Eval(pointer.address, s)), val.Width() / 8, Eval(val, s), p,
          old(View(p, s)))
      ensures !resolved ==> forall p, s :: View(p, s) == old(View(p, s))
      ensures resolved <==> Resolvable(pointer, constraints)
    {
      hide CellsOk, Oracle.Sound, Oracle.Decisive, Eval, Translate, StoredAt, Enumerable, Covers, Attainable;
      hide DistinctValues, Listed, Pow2, Terms.Holds, Term.Width, Term.WellSorted;
      var a := o.rewrite(pointer.address);
      SimplifiedAddress(o, pointer.address);
      if a.IsValue() {
        WritePlace(Place(pointer.onStack, a.value), val);
        return true;
      }
      var candidates, result := PossibleValues(o, a, constraints);
      EnumerableMeans(a, constraints);
      SortedCandidates(a, candidates);
      if |candidates| == 1 {
        CoveredByFew(a, constraints, candidates);
        WritePlace(Translate(candidates[0].value), val);
        return true;
      }
      if |candidates| > 1 && result.Unsat? {
        StoreCandidates(a, candidates, val);
        forall p, s | Terms.Holds(constraints, s)
          ensures View(p, s) == StoredAt(Translate(Eval(pointer.address, s)), val.Width() / 8, Eval(val, s), p,
            old(View(p, s)))
        {
          CoveredIsListed(a, constraints, candidates, s);
        }
        return true;
      }
      return false;
    }

    /** Loads every candidate and chooses; the first one is the default of the chain. */
    method LoadCandidates(a: Term, candidates: seq<Term>, n: nat) returns (t: Term)
      requires Valid() && DistinctValues(a, candidates) && a.WellSorted() && a.Width() == 64 && n > 0
        && |candidates| > 0
      requires forall i :: 0 <= i < |candidates| ==> candidates[i].WellSorted() && candidates[i].Width() == 64
      modifies stack`memory, main`memory, stack.memory, main.memory
      ensures Valid() && Moved(old(stack.memory), old(main.memory)) && t.WellSorted() && t.Width() == 8 * n
      ensures forall p, s :: View(p, s) == old(View(p, s))
      ensures forall s :: Listed(Eval(a, s), candidates) ==> Eval(t, s) == WordAt(Translate(Eval(a, s)), n, s)
    {
      hide CellsOk, Oracle.Sound, Oracle.Decisive, Eval, Equal, Translate, Term.Width, Term.WellSorted, LittleEndian;
      hide WordAt, View, Listed;
      t := ReadPlace(Translate(candidates[0].value), n);
      forall s ensures Listed(Eval(a, s), candidates[..1]) ==> Eval(a, s) == candidates[0].value {
        FirstListed(Eval(a, s), candidates);
      }
      for i := 1 to |candidates|
        invariant Valid() && Moved(old(stack.memory), old(main.memory)) && t.WellSorted() && t.Width() == 8 * n
        invariant forall p, s :: View(p, s) == old(View(p, s))
        invariant forall s :: Listed(Eval(a, s), candidates[..i]) ==> Eval(t, s) == WordAt(Translate(Eval(a, s)), n, s)
      {
        ghost var rest := t;
        var current := ReadPlace(Translate(candidates[i].value), n);
        t := Ite(Equal(a, candidates[i]), current, t);
        ChoiceSorted(a, candidates[i], current, rest);
        forall s | Listed(Eval(a, s), candidates[..i + 1]) ensures Eval(t, s) == WordAt(Translate(Eval(a, s)), n, s) {
          ChoiceCovers(a, candidates, i, current, rest, s, WordAt(Translate(Eval(a, s)), n, s));
        }
      }
      assert candidates[..|candidates|] == candidates;
    }

    /** A load through a pointer: the first candidate needs no guard. */
    method ReadMemory(constraints: seq<Term>, pointer: Pointer, n: nat) returns (t: Term, resolved: bool)
      requires Valid() && pointer.address.WellSorted() && pointer.address.Width() == 64 && n > 0
      modifies stack`memory, main`memory, stack.memory, main.memory
      ensures Valid() && Moved(old(stack.memory), old(main.memory))
      ensures forall p, s :: View(p, s) == old(View(p, s))
      ensures t.WellSorted() && t.Width() == 8 * n
      ensures resolved && o.rewrite(pointer.address).IsValue() ==>
        forall s :: Eval(t, s) == WordAt(Place(pointer.onStack, Eval(pointer.address, s)), n, s)
      ensures resolved && !o.rewrite(pointer.address).IsValue() ==>
        forall s :: Terms.Holds(constraints, s) ==> Eval(t, s) == WordAt(Translate(Eval(pointer.address, s)), n, s)
      ensures resolved <==> Resolvable(pointer, constraints)
      ensures !resolved ==> t == Symbol(UnknownRead(o.rewrite(pointer.address)), 8 * n)
    {
      hide CellsOk, Oracle.Sound, Oracle.Decisive, Eval, Translate, Enumerable, Covers, Attainable, DistinctValues;
      hide Listed, Pow2, Terms.Holds, Term.Width, Term.WellSorted, LittleEndian;
      var a := o.rewrite(pointer.address);
      SimplifiedAddress(o, pointer.address);
      if a.IsValue() {
        t := ReadPlace(Place(pointer.onStack, a.value), n);
        return t, true;
      }
      var candidates, result := PossibleValues(o, a, constraints);
      EnumerableMeans(a, constraints);
      SortedCandidates(a, candidates);
      if |candidates| == 1 {
        CoveredByFew(a, constraints, candidates);
        t := ReadPlace(Translate(candidates[0].value), n);
        return t, true;
      }
      if |candidates| > 1 && result.Unsat? {
        t := LoadCandidates(a, candidates, n);
        forall s | Terms.Holds(constraints, s) ensures Eval(t, s) == WordAt(Translate(Eval(pointer.address, s)), n, s) {
          CoveredIsListed(a, constraints, candidates, s);
        }
        return t, true;
      }
      SymbolSorted(UnknownRead(a), 8 * n);
      return Symbol(UnknownRead(a), 8 * n), false;
    }

    /** The pages, seen as one memory addressed by 64-bit addresses. */
    ghost function FlatView(s: Assignment): (m: FlatMemory)
      reads this, stack, main, stack.memory, main.memory
      ensures IsFlat(m) && forall b: nat :: b < TWO64 ==> m[b] == View(Translate(b), s)
    {
      imap b: nat | b < TWO64 :: View(Translate(b), s)
    }

    method WriteFlat(x: Access)
      requires Valid() && AccessOk(x) && x.Write?
      modifies stack`memory, main`memory, stack.memory, main.memory
      ensures Valid() && Moved(old(stack.memory), old(main.memory))
      ensures forall s :: FlatView(s) == FlatWrite(old(FlatView(s)), x.address, SizeOf(x), Eval(x.value, s))
    {
      hide CellsOk, Oracle.Sound, Oracle.Decisive, Eval, Translate, StoredAt, Stored, Term.Width, Term.WellSorted;
      hide Crosses;
      WritePlace(Translate(x.address), x.value);
      forall s ensures FlatView(s) == FlatWrite(old(FlatView(s)), x.address, SizeOf(x), Eval(x.value, s)) {
        forall b: nat | b < TWO64
          ensures FlatView(s)[b] == Stored(x.address, SizeOf(x), Eval(x.value, s), b, old(View(Translate(b), s)))
        {
          FlatStore(x.address, SizeOf(x), Eval(x.value, s), b, old(View(Translate(b), s)));
        }
      }
    }

    method ReadFlat(x: Access) returns (t: Term)
      requires Valid() && AccessOk(x) && x.Read?
      modifies stack`memory, main`memory, stack.memory, main.memory
      ensures Valid() && Moved(old(stack.memory), old(main.memory))
      ensures forall s :: FlatView(s) == old(FlatView(s)) && Eval(t, s) == FlatRead(FlatView(s), x.address, x.size)
    {
      hide CellsOk, Oracle.Sound, Oracle.Decisive, Eval, Term.Width, Term.WellSorted, LittleEndian;
      t := ReadPlace(Translate(x.address), x.size);
      forall s ensures FlatView(s) == old(FlatView(s)) && Eval(t, s) == FlatRead(FlatView(s), x.address, x.size) {
        FlatWord(x.address, x.size, s);
      }
    }

    /** The word on the page is the word of the flat memory. */
    lemma FlatWord(a: nat, n: nat, s: Assignment)
      requires a < TWO64 && n <= HALF && !Crosses(a, n)
      ensures WordAt(Translate(a), n, s) == FlatRead(FlatView(s), a, n)
    {
      hide LittleEndian, Translate, MemPage.ByteAt, Mod64;
      FlatUnlessCrossing(a, n);
      var m := FlatView(s);
      var place := Translate(a);
      var bytes := if place.onStack then stack.BytesAtBase(place.offset, n, s)
        else main.BytesAtBase(place.offset, n, s);
      var flat := FlatBytes(m, a, n);
      forall i: nat | i < n ensures bytes[i] == flat[i] {
        assert AccessByte(a, i) == Translate(Advance(a, i));
        assert bytes[i] == View(AccessByte(a, i), s);
      }
      assert bytes == flat;
    }

    /** Any sequence of accesses that do not cross the ends of the stack window leaves, for every
        input, what it leaves in one flat memory, and reads what it reads there. */
    method Perform(accesses: seq<Access>) returns (words: seq<Term>)
      requires Valid() && forall i :: 0 <= i < |accesses| ==>
        var x, n := accesses[i], SizeOf(accesses[i]);
        && x.address < TWO64 && 0 < n <= 255 && !Crosses(x.address, n)
        && (x.Write? ==> x.value.WellSorted() && x.value.Width() % 8 == 0)
      modifies stack`memory, main`memory, stack.memory, main.memory
      ensures Valid() && Moved(old(stack.memory), old(main.memory))
      ensures forall s :: FlatView(s) == FlatAfter(old(FlatView(s)), accesses, s)
      ensures forall s :: Values(words, s) == FlatReads(old(FlatView(s)), accesses, s)
    {
      hide CellsOk, Oracle.Sound, Oracle.Decisive, Eval, Term.Width, Term.WellSorted, FlatRead, FlatWrite;
      hide AccessOk, Crosses;
      forall i | 0 <= i < |accesses| ensures AccessOk(accesses[i]) { AccessMeans(accesses[i]); }
      words := [];
      for k := 0 to |accesses|
        invariant Valid() && Moved(old(stack.memory), old(main.memory))
        invariant forall s :: FlatView(s) == FlatAfter(old(FlatView(s)), accesses[..k], s)
        invariant forall s :: Values(words, s) == FlatReads(old(FlatView(s)), accesses[..k], s)
      {
        assert accesses[..k + 1][..k] == accesses[..k];
        if accesses[k].Write? {
          WriteFlat(accesses[k]);
        } else {
          ghost var before := words;
          var t := ReadFlat(accesses[k]);
          words := words + [t];
          forall s ensures Values(words, s) == Values(before, s) + [Eval(t, s)] {
          }
        }
      }
      assert accesses[..|accesses|] == accesses;
    }
  }
}
