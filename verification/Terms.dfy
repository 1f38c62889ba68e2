/** Solver terms and their values.  A bit-vector term has a width; comparison and negation
    terms are of the solver's boolean sort and evaluate to 0 or 1. */
module Terms {
  import opened Bits

  /** A free symbol: a register's entry value, the entry byte of a page, a value computed within
      a block, or the unknown result of a load at an unresolved address. */
  datatype Name =
    | Register(id: nat)
    | PageByte(page: nat, address: nat)
    | Temp(id: nat, bytes: nat)
    | UnknownRead(pointer: Term)

  type Assignment = imap<Name, nat>

  datatype Op = Add | Urem | Shl | Lshr

  datatype Term =
    | Value(bits: nat, value: nat)
    | Symbol(name: Name, bits: nat)
    | Extract(arg: Term, high: nat, low: nat)
    | Concat(upper: Term, lower: Term)
    | ZeroExtend(arg: Term, amount: nat)
    | Binary(op: Op, left: Term, right: Term)
    | Ite(test: Term, yes: Term, no: Term)
    | Compare(equal: bool, left: Term, right: Term)
    | Not(arg: Term)
  {
    predicate IsBool() { Compare? || Not? }

    /** The term is a literal of the solver. */
    predicate IsValue() { Value? }

    function Width(): nat {
      match this
      case Value(w, _) => w
      case Symbol(_, w) => w
      case Extract(_, high, low) => if low <= high then high - low + 1 else 0
      case Concat(a, b) => a.Width() + b.Width()
      case ZeroExtend(a, n) => a.Width() + n
      case Binary(_, a, _) => a.Width()
      case Ite(_, a, _) => a.Width()
      case _ => 1
    }

    predicate WellSorted() {
      match this
      case Value(w, v) => v < Pow2(w)
      case Symbol(_, _) => true
      case Extract(a, high, low) => low <= high < a.Width() && a.WellSorted()
      case Concat(a, b) => a.WellSorted() && b.WellSorted()
      case ZeroExtend(a, _) => a.WellSorted()
      case Binary(_, a, b) => a.WellSorted() && b.WellSorted() && a.Width() == b.Width()
      case Ite(c, a, b) => c.IsBool() && c.WellSorted() && a.WellSorted() && b.WellSorted() && a.Width() == b.Width()
      case Compare(_, a, b) => a.WellSorted() && b.WellSorted() && a.Width() == b.Width()
      case Not(a) => a.IsBool() && a.WellSorted()
    }
  }

  function Equal(a: Term, b: Term): Term { Compare(true, a, b) }

  function Distinct(a: Term, b: Term): Term { Compare(false, a, b) }

  function Bit(b: bool): nat { if b then 1 else 0 }

  function SymbolValue(s: Assignment, n: Name, bits: nat): (v: nat)
    ensures v < Pow2(bits)
  {
    Truncate(if n in s then s[n] else 0, bits)
  }

  /** The operations on words of `w` bits. */
  function Operate(op: Op, w: nat, a: nat, b: nat): nat {
    match op
    case Add => Truncate(a + b, w)
    case Urem => if b == 0 then a else a % b
    case Shl => Truncate(ShiftLeft(a, b), w)
    case Lshr => ShiftRight(a, b)
  }

  function Eval(t: Term, s: Assignment): nat {
    match t
    case Value(_, v) => v
    case Symbol(n, w) => SymbolValue(s, n, w)
    case Extract(a, high, low) => Truncate(ShiftRight(Eval(a, s), low), t.Width())
    case Concat(a, b) => ShiftLeft(Eval(a, s), b.Width()) + Eval(b, s)
    case ZeroExtend(a, _) => Eval(a, s)
    case Binary(op, a, b) => Operate(op, a.Width(), Eval(a, s), Eval(b, s))
    case Ite(c, a, b) => if Eval(c, s) != 0 then Eval(a, s) else Eval(b, s)
    case Compare(equal, a, b) => Bit((Eval(a, s) == Eval(b, s)) == equal)
    case Not(a) => Bit(Eval(a, s) == 0)
  }

  lemma OperateFits(op: Op, w: nat, a: nat, b: nat)
    requires a < Pow2(w) && b < Pow2(w)
    ensures Operate(op, w, a, b) < Pow2(w)
  {
    if op.Lshr? { QuotientSmaller(a, Pow2(b)); }
  }

  lemma ConcatFits(x: nat, w: nat, y: nat, w': nat)
    requires x < Pow2(w) && y < Pow2(w')
    ensures ShiftLeft(x, w') + y < Pow2(w + w') && ShiftLeft(0, w') == 0
  {
    hide Pow2;
    Pow2Add(w, w');
    PairFits(x, Pow2(w), y, Pow2(w'));
  }

  /** A well-sorted term evaluates within its width. */
  lemma {:induction false} EvalFits(t: Term, s: Assignment)
    requires t.WellSorted()
    ensures Eval(t, s) < Pow2(t.Width())
  {
    assert Pow2(1) == 2;
    hide Pow2, Operate, Truncate, ShiftRight, ShiftLeft;
    match t
    case Concat(a, b) =>
      EvalFits(a, s);
      EvalFits(b, s);
      ConcatFits(Eval(a, s), a.Width(), Eval(b, s), b.Width());
    case ZeroExtend(a, n) =>
      EvalFits(a, s);
      ConcatFits(0, n, Eval(a, s), a.Width());
    case Binary(op, a, b) =>
      EvalFits(a, s);
      EvalFits(b, s);
      OperateFits(op, a.Width(), Eval(a, s), Eval(b, s));
    case Ite(c, a, b) =>
      EvalFits(a, s);
      EvalFits(b, s);
    case _ =>
  }

  /** Byte `i` of a term. */
  function ByteTerm(t: Term, i: nat): Term { Extract(t, 8 * i + 7, 8 * i) }

  lemma ByteTermMeans(t: Term, i: nat, s: Assignment)
    requires t.WellSorted() && 8 * i + 7 < t.Width()
    ensures ByteTerm(t, i).WellSorted() && ByteTerm(t, i).Width() == 8
      && Eval(ByteTerm(t, i), s) == ByteOf(Eval(t, s), i)
  {
    assert Pow2(8) == 256;
    hide Pow2;
  }

  /** A choice by comparing with a literal. */
  lemma ChoiceValue(a: Term, candidate: Term, val: Term, other: Term, s: Assignment)
    requires candidate.Value?
    ensures Eval(Ite(Equal(a, candidate), val, other), s)
      == if Eval(a, s) == candidate.value then Eval(val, s) else Eval(other, s)
  {
    assert Eval(Equal(a, candidate), s) == Bit(Eval(a, s) == Eval(candidate, s));
  }

  lemma ChoiceSorted(a: Term, candidate: Term, val: Term, other: Term)
    requires a.WellSorted() && candidate.WellSorted() && a.Width() == candidate.Width()
    requires val.WellSorted() && other.WellSorted() && val.Width() == other.Width()
    ensures Ite(Equal(a, candidate), val, other).WellSorted()
      && Ite(Equal(a, candidate), val, other).Width() == val.Width()
  {
  }

  /** A word as a boolean: boolean terms as they are, words compared with one. */
  function AsBool(t: Term): Term {
    if t.IsBool() then t else Equal(t, Value(t.Width(), 1))
  }

  function Negated(t: Term): Term { Not(AsBool(t)) }

  ghost predicate True(t: Term, s: Assignment) { Eval(AsBool(t), s) != 0 }

  ghost predicate Holds(constraints: seq<Term>, s: Assignment) {
    forall i :: 0 <= i < |constraints| ==> Eval(constraints[i], s) != 0
  }

  lemma HoldsPush(cs: seq<Term>, c: Term, s: Assignment)
    ensures Holds(cs + [c], s) <==> Holds(cs, s) && Eval(c, s) != 0
  {
    if Holds(cs + [c], s) {
      forall i | 0 <= i < |cs| ensures Eval(cs[i], s) != 0 { assert (cs + [c])[i] == cs[i]; }
      assert (cs + [c])[|cs|] == c;
    }
  }

  lemma HoldsConcat(cs: seq<Term>, ds: seq<Term>, s: Assignment)
    ensures Holds(cs + ds, s) <==> Holds(cs, s) && Holds(ds, s)
  {
    if Holds(cs + ds, s) {
      assert forall i :: 0 <= i < |cs| ==> (cs + ds)[i] == cs[i];
      assert forall i :: 0 <= i < |ds| ==> (cs + ds)[|cs| + i] == ds[i];
    }
  }
}
