/** Fetching instruction bytes from cells that may hold bytes of wider literals
    (src/arch/arch.cpp:294-314). */
module Fetching {
  import opened Wrappers
  import opened Bits
  import opened Terms
  import opened States
  import opened Machine

  /** The literal is cut to 64 bits, shifted and cut to a byte. */
  function CutByte(v: nat, low: nat): nat { ShiftRight(Mod64(v), low) % 256 }

  /** Cutting to a multiple first changes no remainder. */
  lemma CutToMultiple(q: nat, e: nat, f: nat)
    requires f > 0 && e == 256 * f
    ensures q % e % 256 == q % 256
  {
    var r := q % e;
    assert q == e * (q / e) + r;
    assert e * (q / e) == (f * (q / e)) * 256;
    QuotientUnique(q, 256, f * (q / e) + r / 256, r % 256);
  }

  lemma NearByte(v: nat, low: nat)
    requires low + 8 <= 64
    ensures CutByte(v, low) == ShiftRight(v, low) % 256
  {
    Pow2Of64();
    hide Pow2;
    Pow2Add(low, 64 - low);
    Pow2Add(8, 56 - low);
    var d, e := Pow2(low), Pow2(64 - low);
    CutQuotient(v, d, e);
    CutToMultiple(v / d, e, Pow2(56 - low));
  }

  lemma HighWord(k: nat)
    ensures Mod64(Pow2(64 + k)) == 0
  {
    Pow2Of64();
    Pow2Add(64, k);
    QuotientUnique(Pow2(64 + k), TWO64, Pow2(k), 0);
  }

  lemma OnlyByte(i: nat)
    ensures ByteOf(0, i) == 0 && ByteOf(Pow2(8 * i), i) == 1
  {
    QuotientUnique(0, Pow2(8 * i), 0, 0);
    QuotientUnique(Pow2(8 * i), Pow2(8 * i), 1, 0);
  }

  /** Nothing computed from the low 64 bits is byte `which` of every literal of `total` bytes, so
      it does not matter what a shift by 64 bits or more does. */
  lemma LostByte(total: nat, which: nat, f: nat -> nat)
    requires 8 <= which < total
    ensures exists v: nat :: v < Pow2(8 * total) && f(Mod64(v)) != ByteOf(v, which)
  {
    var v := Pow2(8 * which);
    HighWord(8 * which - 64);
    OnlyByte(which);
    Pow2Add(8 * which, 8 * (total - which));
    Pow2Above(8 * (total - which));
    assert Pow2(8 * total) > v by { MulAway(Pow2(8 * (total - which)) - 1, v); }
    assert Pow2(8 * total) > 0;
    assert f(Mod64(0)) != ByteOf(0, which) || f(Mod64(v)) != ByteOf(v, which);
  }

  /** The fetched byte of a cell is the cell's byte, for every literal, exactly when it is one of
      the literal's first eight. */
  lemma CutByteExact(total: nat, which: nat)
    requires which < total
    ensures (forall v: nat :: v < Pow2(8 * total) ==> CutByte(v, 8 * which) == ByteOf(v, which)) <==> which < 8
  {
    if which < 8 {
      forall v: nat ensures CutByte(v, 8 * which) == ByteOf(v, which) { NearByte(v, 8 * which); }
    } else {
      LostByte(total, which, (x: nat) => ShiftRight(x, 8 * which) % 256);
    }
  }

  // ------------------------------------------------------- fetching from a symbolic state

  /** What the fetch makes of a cell: nothing unless the whole stored value is a literal. */
  function FetchedFrom(t: Term): Option<nat> {
    match t
    case Value(_, v) => Some(CutByte(v, 0))
    case Extract(Value(_, v), _, low) => Some(CutByte(v, low))
    case _ => None
  }

  function FetchedCell(pc: nat, i: nat): Name { PageByte(GLOBAL_PAGE, (pc + i) % TWO64) }

  function Fetched(sym: Sym, pc: nat, i: nat): Option<nat> {
    var n := FetchedCell(pc, i);
    if n in sym then FetchedFrom(sym[n]) else None
  }

  /** The bytes fetched at the program counter: at most 15, up to the first that is not one. */
  predicate IsConcretePrefix(sym: Sym, pc: nat, bytes: seq<nat>) {
    && |bytes| <= FETCH
    && (forall i :: 0 <= i < |bytes| ==> Fetched(sym, pc, i) == Some(bytes[i]))
    && (|bytes| < FETCH ==> Fetched(sym, pc, |bytes|).None?)
  }

  method FetchConcrete(sym: Sym, pc: nat) returns (bytes: seq<nat>)
    requires SymTyped(sym)
    ensures IsConcretePrefix(sym, pc, bytes)
    ensures |bytes| <= 15 && (|bytes| < 15 ==> Fetched(sym, pc, |bytes|).None?)
    ensures forall s, c :: Represents(sym, s, c) ==> bytes <= FetchBytes(c, pc)
  {
    hide Represents, SymTyped, FetchBytes, FetchedFrom;
    bytes := [];
    while |bytes| < FETCH
      invariant |bytes| <= FETCH
      invariant forall i :: 0 <= i < |bytes| ==> Fetched(sym, pc, i) == Some(bytes[i])
    {
      var b := Fetched(sym, pc, |bytes|);
      if b.None? {
        break;
      }
      bytes := bytes + [b.value];
    }
    ConcretePrefixFetched(sym, pc, bytes);
  }

  /** There is one such prefix. */
  lemma ConcretePrefixUnique(sym: Sym, pc: nat, bs: seq<nat>, bs': seq<nat>)
    requires IsConcretePrefix(sym, pc, bs) && IsConcretePrefix(sym, pc, bs')
    ensures bs == bs'
  {
    hide Fetched;
    assert |bs| == |bs'|;
    assert forall i :: 0 <= i < |bs| ==> Some(bs[i]) == Some(bs'[i]);
  }

  /** A fetched byte is the byte its term stands for. */
  lemma FetchedByteRight(t: Term, s: Assignment)
    requires t.WellSorted() && t.Width() == 8 && Near(t) && FetchedFrom(t).Some?
    ensures FetchedFrom(t).value == Eval(t, s)
  {
    assert Pow2(8) == 256;
    assert Pow2(0) == 1;
    hide Pow2;
    if t.Value? { NearByte(t.value, 0); } else { NearByte(t.arg.value, t.low); }
  }

  /** The fetched bytes are those the machine fetches, whatever the input. */
  lemma ConcretePrefixFetched(sym: Sym, pc: nat, bytes: seq<nat>)
    requires IsConcretePrefix(sym, pc, bytes)
    ensures forall s, c :: Represents(sym, s, c) ==> bytes <= FetchBytes(c, pc)
  {
    hide FetchedFrom, Eval, Cell, Near, Term.WellSorted, Term.Width;
    forall s, c | Represents(sym, s, c) ensures bytes <= FetchBytes(c, pc) {
      forall i | 0 <= i < |bytes| ensures bytes[i] == FetchBytes(c, pc)[i] {
        var n := FetchedCell(pc, i);
        assert Fetched(sym, pc, i) == Some(bytes[i]);
        assert Eval(Lookup(sym, n), s) == Cell(c, n);
        FetchedByteRight(sym[n], s);
      }
    }
  }
}
