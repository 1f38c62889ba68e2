/** The terms built for LLVM's bit intrinsics in src/arch/emulator.cpp, against the meanings the
    LLVM Language Reference gives them. */
module Intrinsics {
  import opened Bits
  import opened Terms

  /** Operands of one intrinsic share a width of at least one bit; the code keeps widths in
      eight bits. */
  predicate Operand(t: Term, w: nat) {
    0 < w < 256 && t.WellSorted() && t.Width() == w
  }

  // ------------------------------------------------------------- funnel shifts

  function ShiftAmount(s: Term, w: nat): Term {
    ZeroExtend(Binary(Urem, s, Value(w, w)), w)
  }

  function Fshl(x: Term, y: Term, s: Term, w: nat): Term
    requires w > 0
  {
    Extract(Binary(Shl, Concat(x, y), ShiftAmount(s, w)), 2 * w - 1, w)
  }

  function Fshr(x: Term, y: Term, s: Term, w: nat): Term
    requires w > 0
  {
    Extract(Binary(Lshr, Concat(x, y), ShiftAmount(s, w)), w - 1, 0)
  }

  /** The shift-or definitions. */
  function FunnelLeft(x: nat, y: nat, k: nat, w: nat): nat
    requires k <= w
  {
    BitOr(Truncate(ShiftLeft(x, k), w), ShiftRight(y, w - k))
  }

  function FunnelRight(x: nat, y: nat, k: nat, w: nat): nat
    requires k <= w
  {
    BitOr(Truncate(ShiftLeft(x, w - k), w), ShiftRight(y, k))
  }

  lemma {:induction false} OrCommutes(a: nat, b: nat)
    ensures BitOr(a, b) == BitOr(b, a)
  {
    if a != 0 || b != 0 { OrCommutes(a / 2, b / 2); }
  }

  /** A word of `p == u * v` values, multiplied by `u`: the part that stays below `p`. */
  lemma MulCut(x: nat, u: nat, v: nat, p: nat)
    requires u > 0 && v > 0 && p == u * v
    ensures p > 0 && x * u == (x / v) * p + (x % v) * u && 0 <= (x % v) * u && (x % v) * u + u <= p
  {
    var q, r := x / v, x % v;
    assert x * u == q * p + r * u by { assert x == q * v + r; assert (q * v + r) * u == q * (u * v) + r * u; }
    assert p > 0 && r * u + u <= p by {
      MulAway(v - r, u);
      assert (v - r) * u == u * v - r * u;
      MulAway(v, u);
    }
    assert r * u >= 0;
  }

  lemma QuotientBelow(y: nat, u: nat, v: nat, p: nat)
    requires u > 0 && v > 0 && p == u * v && y < p
    ensures 0 <= y / v < u
  {
    assert y == (y / v) * v + y % v;
    assert (u - y / v) * v == u * v - (y / v) * v;
    MulAway(u - y / v, v);
    QuotientNatural(y, v);
  }

  /** The upper half of a double word shifted left. */
  lemma ShiftedUpperHalf(x: nat, y: nat, u: nat, v: nat, p: nat)
    requires u > 0 && v > 0 && p == u * v && y < p
    ensures p > 0 && ((x * p + y) * u / p) % p == (x % v) * u + y / v
  {
    MulCut(x, u, v, p);
    MulCut(y, u, v, p);
    QuotientBelow(y, u, v, p);
    UpperQuotient(x, y, u, y / v, (y % v) * u, p);
    SumBelow(x * u, y / v, x / v, (x % v) * u, u, p);
  }

  lemma UpperQuotient(x: nat, y: nat, u: nat, h: nat, r: nat, p: nat)
    requires p > 0 && y * u == h * p + r && r < p
    ensures (x * p + y) * u / p == x * u + h
  {
    assert (x * p + y) * u == (x * u + h) * p + r by {
      assert (x * p + y) * u == (x * u) * p + y * u;
      assert (x * u + h) * p == (x * u) * p + h * p;
    }
    QuotientUnique((x * p + y) * u, p, x * u + h, r);
  }

  /** Adding less than `v` to a remainder that leaves room for it. */
  lemma SumBelow(z: nat, q: nat, h: nat, r: nat, v: nat, p: nat)
    requires p > 0 && q < v && z == h * p + r && r + v <= p
    ensures (z + q) % p == r + q
  {
    QuotientUnique(z + q, p, h, r + q);
  }

  /** The lower half of a double word shifted right. */
  lemma ShiftedLowerHalf(x: nat, y: nat, u: nat, v: nat, p: nat)
    requires u > 0 && v > 0 && p == u * v && p == v * u && y < p
    ensures p > 0 && ((x * p + y) / u) % p == (x % u) * v + y / u
  {
    MulCut(x, v, u, p);
    QuotientBelow(y, v, u, p);
    LowerQuotient(x, y, u, v, p);
    SumBelow(x * v, y / u, x / u, (x % u) * v, v, p);
  }

  lemma LowerQuotient(x: nat, y: nat, u: nat, v: nat, p: nat)
    requires u > 0 && p == u * v
    ensures (x * p + y) / u == x * v + y / u
  {
    var q, r := y / u, y % u;
    assert x * p + y == (x * v + q) * u + r by {
      assert (x * v + q) * u == x * (v * u) + q * u;
      assert y == q * u + r;
    }
    QuotientUnique(x * p + y, u, x * v + q, r);
  }

  /** The two parts of a funnel: the kept low part moved up, and the high part moved down. */
  lemma CutParts(x: nat, y: nat, u: nat, v: nat, p: nat)
    requires u > 0 && v > 0 && p == u * v && y < p
    ensures p > 0 && (x * u) % p == (x % v) * u && 0 <= y / v < u
  {
    MulCut(x, u, v, p);
    QuotientBelow(y, u, v, p);
    SumBelow(x * u, 0, x / v, (x % v) * u, u, p);
  }

  lemma FunnelLeftSum(x: nat, y: nat, k: nat, w: nat)
    requires k <= w && x < Pow2(w) && y < Pow2(w)
    ensures FunnelLeft(x, y, k, w) == (x % Pow2(w - k)) * Pow2(k) + y / Pow2(w - k)
  {
    hide BitOr, Pow2;
    var u, v := Pow2(k), Pow2(w - k);
    Pow2Add(k, w - k);
    CutParts(x, y, u, v, Pow2(w));
    OrDisjoint(y / v, x % v, k);
    OrCommutes(y / v, (x % v) * u);
  }

  lemma FunnelRightSum(x: nat, y: nat, k: nat, w: nat)
    requires k <= w && x < Pow2(w) && y < Pow2(w)
    ensures FunnelRight(x, y, k, w) == (x % Pow2(k)) * Pow2(w - k) + y / Pow2(k)
  {
    hide BitOr, Pow2;
    var u, v := Pow2(k), Pow2(w - k);
    Pow2Add(k, w - k);
    assert v * u == u * v;
    CutParts(x, y, v, u, Pow2(w));
    OrDisjoint(y / u, x % u, w - k);
    OrCommutes(y / u, (x % u) * v);
  }

  /** The amount is the third operand modulo the width, and below the width. */
  lemma ShiftAmountMeans(s: Term, w: nat, a: Assignment)
    requires Operand(s, w)
    ensures ShiftAmount(s, w).WellSorted() && ShiftAmount(s, w).Width() == 2 * w
    ensures Eval(ShiftAmount(s, w), a) == Eval(s, a) % w
  {
    hide Pow2, Truncate, ShiftRight, ShiftLeft;
    Pow2Above(w);
    var amount := Binary(Urem, s, Value(w, w));
    assert Value(w, w).WellSorted();
    assert amount.WellSorted() && amount.Width() == w;
    assert Eval(amount, a) == Operate(Urem, w, Eval(s, a), w) == Eval(s, a) % w;
  }

  /** Shifting a double word left and taking its upper half, in plain arithmetic. */
  lemma UpperHalf(x: nat, y: nat, k: nat, w: nat)
    requires k <= w && x < Pow2(w) && y < Pow2(w)
    ensures Truncate(ShiftRight(Truncate(ShiftLeft(ShiftLeft(x, w) + y, k), 2 * w), w), w) == FunnelLeft(x, y, k, w)
  {
    hide Pow2, FunnelLeft;
    var u, v := Pow2(k), Pow2(w - k);
    Pow2Add(k, w - k);
    Pow2Add(w, w);
    assert 2 * w == w + w;
    UpperHalfOf(x, y, u, v, Pow2(w), Pow2(2 * w));
    FunnelLeftSum(x, y, k, w);
  }

  lemma UpperHalfOf(x: nat, y: nat, u: nat, v: nat, p: nat, pp: nat)
    requires u > 0 && v > 0 && p == u * v && p > 0 && pp == p * p && pp > 0 && y < p
    ensures (x * p + y) * u % pp / p % p == (x % v) * u + y / v
  {
    ShiftedUpperHalf(x, y, u, v, p);
    CutQuotient((x * p + y) * u, p, p);
    QuotientUnique((x % v) * u + y / v, p, 0, (x % v) * u + y / v);
  }

  lemma LowerHalf(x: nat, y: nat, k: nat, w: nat)
    requires k <= w && x < Pow2(w) && y < Pow2(w)
    ensures Truncate(ShiftRight(ShiftRight(ShiftLeft(x, w) + y, k), 0), w) == FunnelRight(x, y, k, w)
  {
    Pow2Add(k, w - k);
    FunnelRightSum(x, y, k, w);
    LowerHalfOf(x, y, k, Pow2(k), Pow2(w - k), w, Pow2(w));
  }

  lemma LowerHalfOf(x: nat, y: nat, k: nat, u: nat, v: nat, w: nat, p: nat)
    requires u == Pow2(k) && v > 0 && p == Pow2(w) == u * v && y < p
    ensures Truncate(ShiftRight(ShiftRight(ShiftLeft(x, w) + y, k), 0), w) == (x % u) * v + y / u
  {
    assert Pow2(0) == 1;
    hide Pow2;
    assert u * v == v * u;
    ShiftedLowerHalf(x, y, u, v, p);
    assert ShiftRight(ShiftLeft(x, w) + y, k) == (x * p + y) / u;
  }

  lemma FshlMeans(x: Term, y: Term, s: Term, w: nat, a: Assignment)
    requires Operand(x, w) && Operand(y, w) && Operand(s, w)
    ensures Fshl(x, y, s, w).WellSorted() && Fshl(x, y, s, w).Width() == w
    ensures Eval(Fshl(x, y, s, w), a) == FunnelLeft(Eval(x, a), Eval(y, a), Eval(s, a) % w, w)
  {
    hide Pow2, BitOr, Truncate, ShiftLeft, ShiftRight, FunnelLeft, ShiftAmount;
    ShiftAmountMeans(s, w, a);
    EvalFits(x, a);
    EvalFits(y, a);
    UpperHalf(Eval(x, a), Eval(y, a), Eval(s, a) % w, w);
    var wide := Concat(x, y);
    assert wide.WellSorted() && wide.Width() == 2 * w;
    var shifted := Binary(Shl, wide, ShiftAmount(s, w));
    assert shifted.WellSorted() && shifted.Width() == 2 * w;
    assert Eval(shifted, a) == Operate(Shl, 2 * w, Eval(wide, a), Eval(s, a) % w);
  }

  lemma FshrMeans(x: Term, y: Term, s: Term, w: nat, a: Assignment)
    requires Operand(x, w) && Operand(y, w) && Operand(s, w)
    ensures Fshr(x, y, s, w).WellSorted() && Fshr(x, y, s, w).Width() == w
    ensures Eval(Fshr(x, y, s, w), a) == FunnelRight(Eval(x, a), Eval(y, a), Eval(s, a) % w, w)
  {
    hide Pow2, BitOr, Truncate, ShiftLeft, ShiftRight, FunnelRight, ShiftAmount;
    ShiftAmountMeans(s, w, a);
    EvalFits(x, a);
    EvalFits(y, a);
    LowerHalf(Eval(x, a), Eval(y, a), Eval(s, a) % w, w);
    var wide := Concat(x, y);
    assert wide.WellSorted() && wide.Width() == 2 * w;
    var shifted := Binary(Lshr, wide, ShiftAmount(s, w));
    assert shifted.WellSorted() && shifted.Width() == 2 * w;
    assert Eval(shifted, a) == Operate(Lshr, 2 * w, Eval(wide, a), Eval(s, a) % w);
  }

  /** Funnel shifts of one operand rotate it, and the two rotations undo each other. */
  lemma RotationsUndo(x: nat, k: nat, w: nat)
    requires k <= w && x < Pow2(w)
    ensures var l := FunnelLeft(x, x, k, w);
            l < Pow2(w) && FunnelRight(l, l, k, w) == x
    ensures var r := FunnelRight(x, x, k, w);
            r < Pow2(w) && FunnelLeft(r, r, k, w) == x
  {
    hide Pow2, FunnelLeft, FunnelRight;
    var u, v := Pow2(k), Pow2(w - k);
    Pow2Add(k, w - k);
    FunnelLeftSum(x, x, k, w);
    FunnelRightSum(x, x, k, w);
    SwapHalves(x, u, v);
    assert v * u == u * v;
    SwapHalves(x, v, u);
    FunnelRightSum(FunnelLeft(x, x, k, w), FunnelLeft(x, x, k, w), k, w);
    FunnelLeftSum(FunnelRight(x, x, k, w), FunnelRight(x, x, k, w), k, w);
  }

  lemma SwapHalves(x: nat, u: nat, v: nat)
    requires u > 0 && v > 0 && x < u * v
    ensures var l := (x % v) * u + x / v;
            l < u * v && (l % u) * v + l / u == x
  {
    var l := (x % v) * u + x / v;
    QuotientBelow(x, u, v, u * v);
    MulCut(x, u, v, u * v);
    assert (x % v) * u >= 0;
    QuotientUnique(l, u, x % v, x / v);
    assert x == (x / v) * v + x % v;
  }

  /** On terms: rotating left and then right by the same operand gives the first back. */
  lemma RotateBack(x: Term, s: Term, w: nat, a: Assignment)
    requires Operand(x, w) && Operand(s, w)
    ensures var l := Fshl(x, x, s, w); Operand(l, w) && Eval(Fshr(l, l, s, w), a) == Eval(x, a)
    ensures var r := Fshr(x, x, s, w); Operand(r, w) && Eval(Fshl(r, r, s, w), a) == Eval(x, a)
  {
    hide Fshl, Fshr, FunnelLeft, FunnelRight, Eval, Pow2;
    FshlMeans(x, x, s, w, a);
    FshrMeans(x, x, s, w, a);
    var l, r := Fshl(x, x, s, w), Fshr(x, x, s, w);
    FshrMeans(l, l, s, w, a);
    FshlMeans(r, r, s, w, a);
    EvalFits(x, a);
    RotationsUndo(Eval(x, a), Eval(s, a) % w, w);
  }

  // ------------------------------------------------------------- byte swap

  function SwapTerm(src: Term, n: nat): Term
    requires n > 0
  {
    if n == 1 then Extract(src, 7, 0)
    else Concat(SwapTerm(src, n - 1), Extract(src, 8 * (n - 1) + 7, 8 * (n - 1)))
  }

  method BuildSwap(src: Term) returns (t: Term)
    requires src.Width() % 8 == 0 && src.Width() > 0
    ensures t == SwapTerm(src, src.Width() / 8)
  {
    t := Extract(src, 7, 0);
    var i := 8;
    while i < src.Width()
      invariant i % 8 == 0 && 8 <= i <= src.Width() && t == SwapTerm(src, i / 8)
    {
      t := Concat(t, Extract(src, i + 7, i));
      i := i + 8;
    }
  }

  function Reversed(s: seq<nat>): (r: seq<nat>)
    ensures |r| == |s| && forall i :: 0 <= i < |s| ==> r[i] == s[|s| - 1 - i]
  {
    if s == [] then [] else Reversed(s[1..]) + [s[0]]
  }

  /** Extracting byte `i` of a term. */
  lemma ExtractByte(src: Term, i: nat, a: Assignment)
    requires src.WellSorted() && 8 * i + 7 < src.Width()
    ensures var b := Extract(src, 8 * i + 7, 8 * i);
            b.WellSorted() && b.Width() == 8 && Eval(b, a) == ByteOf(Eval(src, a), i)
  {
    assert Pow2(8) == 256;
    hide Pow2;
  }

  /** The swapped term has the bytes of its operand in the opposite order. */
  lemma {:induction false} SwapMeans(src: Term, n: nat, a: Assignment)
    requires src.WellSorted() && n > 0 && 8 * n <= src.Width()
    ensures SwapTerm(src, n).WellSorted() && SwapTerm(src, n).Width() == 8 * n
    ensures Eval(SwapTerm(src, n), a) == LittleEndian(Reversed(Bytes(Eval(src, a), n)))
  {
    var v := Eval(src, a);
    ExtractByte(src, n - 1, a);
    if n == 1 {
      OneSwapped(v);
    } else {
      SwapMeans(src, n - 1, a);
      MoreSwapped(v, n - 1);
      hide Bytes, Reversed, LittleEndian, Pow2, ByteOf, Truncate, ShiftRight;
      var low := Extract(src, 8 * (n - 1) + 7, 8 * (n - 1));
      assert Eval(SwapTerm(src, n), a) == ShiftLeft(Eval(SwapTerm(src, n - 1), a), 8) + Eval(low, a);
    }
  }

  lemma OneSwapped(v: nat)
    ensures LittleEndian(Reversed(Bytes(v, 1))) == ByteOf(v, 0)
  {
    BytesAt(v, 1, 0);
    var r := Reversed(Bytes(v, 1));
    assert r == [ByteOf(v, 0)] && r[1..] == [];
  }

  lemma MoreSwapped(v: nat, n: nat)
    ensures LittleEndian(Reversed(Bytes(v, n + 1))) == ShiftLeft(LittleEndian(Reversed(Bytes(v, n))), 8) + ByteOf(v, n)
  {
    assert Pow2(8) == 256;
    hide ByteOf, Pow2;
    var s, t := Reversed(Bytes(v, n)), Reversed(Bytes(v, n + 1));
    BytesAt(v, n + 1, n);
    forall i | 0 <= i < n ensures t[1..][i] == s[i] {
      BytesAt(v, n + 1, n - 1 - i);
      BytesAt(v, n, n - 1 - i);
    }
    assert t[1..] == s;
  }

  /** Swapping twice gives the operand back. */
  lemma SwapTwice(src: Term, n: nat, a: Assignment)
    requires src.WellSorted() && n > 0 && src.Width() == 8 * n
    ensures Eval(SwapTerm(SwapTerm(src, n), n), a) == Eval(src, a)
  {
    hide SwapTerm, Bytes, LittleEndian, Eval;
    var v, t := Eval(src, a), SwapTerm(src, n);
    SwapMeans(src, n, a);
    SwapMeans(t, n, a);
    var bytes := Bytes(v, n);
    forall i | 0 <= i < n ensures bytes[i] < 256 { BytesAt(v, n, i); }
    BytesOfAssembled(Reversed(bytes));
    assert Reversed(Reversed(bytes)) == bytes;
    AssembleBytes(v, n);
    EvalFits(src, a);
    TruncateSmall(v, 8 * n);
  }

  // ------------------------------------------------------------- counting bits

  function BitAt(v: nat, i: nat): (b: nat)
    ensures b < 2
  {
    v / Pow2(i) % 2
  }

  function ExtractBit(src: Term, i: nat): Term { Extract(src, i, i) }

  lemma ExtractBitMeans(src: Term, i: nat, a: Assignment)
    requires src.WellSorted() && i < src.Width()
    ensures ExtractBit(src, i).WellSorted() && ExtractBit(src, i).Width() == 1
    ensures Eval(ExtractBit(src, i), a) == BitAt(Eval(src, a), i)
  {
    assert Pow2(1) == 2;
    hide Pow2;
  }

  function IsSet(src: Term, i: nat): Term { Equal(ExtractBit(src, i), Value(1, 1)) }

  lemma IsSetMeans(src: Term, i: nat, a: Assignment)
    requires src.WellSorted() && i < src.Width()
    ensures IsSet(src, i).WellSorted() && IsSet(src, i).IsBool()
      && (Eval(IsSet(src, i), a) != 0 <==> BitAt(Eval(src, a), i) == 1)
  {
    ExtractBitMeans(src, i, a);
    assert Value(1, 1).WellSorted() by { assert Pow2(1) == 2; }
    hide BitAt, ExtractBit;
  }

  /** Trailing zeroes, after the loop has come down to bit `i`. */
  function CttzTerm(src: Term, w: nat, i: nat): Term
    requires i <= w
    decreases w - i
  {
    if i == w then Value(w, w) else Ite(IsSet(src, i), Value(w, i), CttzTerm(src, w, i + 1))
  }

  method BuildCttz(src: Term, w: nat) returns (t: Term)
    ensures t == CttzTerm(src, w, 0)
  {
    t := Value(w, w);
    var i := w;
    while i > 0
      invariant 0 <= i <= w && t == CttzTerm(src, w, i)
    {
      i := i - 1;
      t := Ite(IsSet(src, i), Value(w, i), t);
    }
  }

  /** Leading zeroes, after the loop has gone up to bit `i`. */
  function CtlzTerm(src: Term, w: nat, i: nat): Term
    requires i <= w
  {
    if i == 0 then Value(w, w) else Ite(IsSet(src, i - 1), Value(w, w - i), CtlzTerm(src, w, i - 1))
  }

  method BuildCtlz(src: Term, w: nat) returns (t: Term)
    ensures t == CtlzTerm(src, w, w)
  {
    t := Value(w, w);
    for i := 0 to w
      invariant t == CtlzTerm(src, w, i)
    {
      t := Ite(IsSet(src, i), Value(w, w - 1 - i), t);
    }
  }

  lemma CountFits(w: nat, k: nat, a: Assignment)
    requires k <= w
    ensures Value(w, k).WellSorted() && Value(w, k).Width() == w && Eval(Value(w, k), a) == k
  {
    Pow2Above(w);
  }

  /** One link of the chain: a literal if the bit is set, else the rest. */
  lemma PickMeans(test: Term, w: nat, k: nat, rest: Term, a: Assignment)
    requires test.WellSorted() && test.IsBool() && Value(w, k).WellSorted() && rest.WellSorted() && rest.Width() == w
    ensures var t := Ite(test, Value(w, k), rest);
            t.WellSorted() && t.Width() == w && Eval(t, a) == if Eval(test, a) != 0 then k else Eval(rest, a)
  {
    hide Pow2;
  }

  lemma {:induction false} CttzFrom(src: Term, w: nat, i: nat, a: Assignment)
    requires Operand(src, w) && i <= w
    ensures CttzTerm(src, w, i).WellSorted() && CttzTerm(src, w, i).Width() == w
    ensures var r, v := Eval(CttzTerm(src, w, i), a), Eval(src, a);
            i <= r <= w && (forall j :: i <= j < r ==> BitAt(v, j) == 0) && (r < w ==> BitAt(v, r) == 1)
    decreases w - i
  {
    hide BitAt, IsSet, Pow2, Eval, Term.WellSorted, Term.Width;
    CountFits(w, i, a);
    if i < w {
      CttzFrom(src, w, i + 1, a);
      IsSetMeans(src, i, a);
      PickMeans(IsSet(src, i), w, i, CttzTerm(src, w, i + 1), a);
    }
  }

  lemma {:induction false} CtlzFrom(src: Term, w: nat, i: nat, a: Assignment)
    requires Operand(src, w) && i <= w
    ensures CtlzTerm(src, w, i).WellSorted() && CtlzTerm(src, w, i).Width() == w
    ensures var r, v := Eval(CtlzTerm(src, w, i), a), Eval(src, a);
            w - i <= r <= w && (forall j :: w - r <= j < i ==> BitAt(v, j) == 0) && (r < w ==> BitAt(v, w - 1 - r) == 1)
  {
    hide BitAt, IsSet, Pow2, Eval, Term.WellSorted, Term.Width;
    CountFits(w, w - i, a);
    if i > 0 {
      CtlzFrom(src, w, i - 1, a);
      IsSetMeans(src, i - 1, a);
      PickMeans(IsSet(src, i - 1), w, w - i, CtlzTerm(src, w, i - 1), a);
    }
  }

  /** Below `r` all bits are clear exactly for multiples of 2^r. */
  lemma {:induction false} LowBitsClear(v: nat, r: nat)
    requires forall j :: 0 <= j < r ==> BitAt(v, j) == 0
    ensures v % Pow2(r) == 0
  {
    if r > 0 {
      LowBitsClear(v, r - 1);
      assert BitAt(v, r - 1) == 0;
      var p := Pow2(r - 1);
      DivDivRemainder(v, v / p, p, 2);
      assert p * 2 == Pow2(r);
    }
  }

  /** The lowest set bit; the width for zero. */
  lemma CttzMeans(src: Term, w: nat, a: Assignment)
    requires Operand(src, w)
    ensures var r, v := Eval(CttzTerm(src, w, 0), a), Eval(src, a);
            r <= w && v % Pow2(r) == 0 && (r < w ==> v / Pow2(r) % 2 == 1) && (r == w <==> v == 0)
  {
    hide CttzTerm, Eval;
    CttzFrom(src, w, 0, a);
    var r, v := Eval(CttzTerm(src, w, 0), a), Eval(src, a);
    LowBitsClear(v, r);
    EvalFits(src, a);
    if r == w {
      TruncateSmall(v, w);
    } else {
      assert BitAt(v, r) == 1;
      assert 0 / Pow2(r) == 0 by { QuotientUnique(0, Pow2(r), 0, 0); }
    }
  }

  /** From bit `i` upwards all bits are clear exactly for numbers below 2^i. */
  lemma {:induction false} HighBitsClear(v: nat, i: nat, w: nat)
    requires i <= w && v < Pow2(w) && forall j :: i <= j < w ==> BitAt(v, j) == 0
    ensures v < Pow2(i)
    decreases w
  {
    if i < w {
      assert BitAt(v, w - 1) == 0;
      QuotientBelow(v, 2, Pow2(w - 1), Pow2(w));
      var p := Pow2(w - 1);
      assert v / p == 0;
      assert v == p * (v / p) + v % p;
      HighBitsClear(v, i, w - 1);
    }
  }

  /** The distance of the highest set bit from the top; the width for zero. */
  lemma CtlzMeans(src: Term, w: nat, a: Assignment)
    requires Operand(src, w)
    ensures var r, v := Eval(CtlzTerm(src, w, w), a), Eval(src, a);
            r <= w && v < Pow2(w - r) && (r < w ==> v >= Pow2(w - r - 1))
  {
    hide CtlzTerm, Eval, Pow2;
    CtlzFrom(src, w, w, a);
    EvalFits(src, a);
    var r, v := Eval(CtlzTerm(src, w, w), a), Eval(src, a);
    HighBitsClear(v, w - r, w);
    if r < w && v < Pow2(w - r - 1) {
      QuotientUnique(v, Pow2(w - r - 1), 0, v);
    }
  }

  // ------------------------------------------------------------- population count

  function WideBit(src: Term, w: nat, i: nat): Term
    requires w > 0
  {
    ZeroExtend(ExtractBit(src, i), w - 1)
  }

  function CtpopTerm(src: Term, w: nat, n: nat): Term
    requires n > 0 && w > 0
  {
    if n == 1 then WideBit(src, w, 0) else Binary(Add, CtpopTerm(src, w, n - 1), WideBit(src, w, n - 1))
  }

  method BuildCtpop(src: Term, w: nat) returns (t: Term)
    requires w > 0
    ensures t == CtpopTerm(src, w, w)
  {
    t := WideBit(src, w, 0);
    for i := 1 to w
      invariant t == CtpopTerm(src, w, i)
    {
      t := Binary(Add, t, WideBit(src, w, i));
    }
  }

  function BitSum(v: nat, n: nat): (s: nat)
    ensures s <= n
  {
    if n == 0 then 0 else BitSum(v, n - 1) + BitAt(v, n - 1)
  }

  /** The number of ones in the binary representation. */
  function PopCount(v: nat): nat { if v == 0 then 0 else v % 2 + PopCount(v / 2) }

  /** No partial sum overflows: `n` bits never count past the width. */
  lemma {:induction false} CtpopFrom(src: Term, w: nat, n: nat, a: Assignment)
    requires Operand(src, w) && 0 < n <= w
    ensures CtpopTerm(src, w, n).WellSorted() && CtpopTerm(src, w, n).Width() == w
    ensures Eval(CtpopTerm(src, w, n), a) == BitSum(Eval(src, a), n)
  {
    hide BitAt, WideBit, Pow2, Eval, Term.WellSorted, Term.Width, Operand;
    var v := Eval(src, a);
    WideBitMeans(src, w, n - 1, a);
    if n == 1 {
      assert BitSum(v, 1) == BitSum(v, 0) + BitAt(v, 0);
    } else {
      CtpopFrom(src, w, n - 1, a);
      SumFits(CtpopTerm(src, w, n - 1), WideBit(src, w, n - 1), w, n, a);
    }
  }

  lemma WideBitMeans(src: Term, w: nat, i: nat, a: Assignment)
    requires Operand(src, w) && i < w
    ensures WideBit(src, w, i).WellSorted() && WideBit(src, w, i).Width() == w
      && Eval(WideBit(src, w, i), a) == BitAt(Eval(src, a), i)
  {
    hide BitAt, ExtractBit;
    ExtractBitMeans(src, i, a);
  }

  lemma SumFits(t: Term, u: Term, w: nat, n: nat, a: Assignment)
    requires t.WellSorted() && u.WellSorted() && t.Width() == u.Width() == w && n <= w && Eval(t, a) + Eval(u, a) <= n
    ensures Binary(Add, t, u).WellSorted() && Binary(Add, t, u).Width() == w
      && Eval(Binary(Add, t, u), a) == Eval(t, a) + Eval(u, a)
  {
    hide Pow2, Truncate;
    Pow2Above(w);
    TruncateSmall(Eval(t, a) + Eval(u, a), w);
  }

  lemma {:induction false} BitSumIsPopCount(v: nat, n: nat)
    requires v < Pow2(n)
    ensures BitSum(v, n) == PopCount(v)
  {
    if n > 0 {
      assert v / 2 < Pow2(n - 1);
      BitSumIsPopCount(v / 2, n - 1);
      BitSumHalf(v, n - 1);
    }
  }

  /** The lowest bit and the bits of the half. */
  lemma {:induction false} BitSumHalf(v: nat, n: nat)
    ensures BitSum(v, n + 1) == v % 2 + BitSum(v / 2, n)
  {
    assert Pow2(0) == 1;
    if n == 0 {
      assert BitSum(v, 1) == BitSum(v, 0) + BitAt(v, 0);
    } else {
      BitSumHalf(v, n - 1);
      DivDiv(v, 2, Pow2(n - 1));
      assert 2 * Pow2(n - 1) == Pow2(n);
      assert BitAt(v, n) == BitAt(v / 2, n - 1);
    }
  }

  lemma CtpopMeans(src: Term, w: nat, a: Assignment)
    requires Operand(src, w)
    ensures Eval(CtpopTerm(src, w, w), a) == PopCount(Eval(src, a))
  {
    hide CtpopTerm, BitSum, PopCount;
    CtpopFrom(src, w, w, a);
    EvalFits(src, a);
    BitSumIsPopCount(Eval(src, a), w);
  }
}
