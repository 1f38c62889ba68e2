/** The byte scalarizer of src/passes/memory_scalarizer.cpp: every load and store of more than
    one byte on a stack slot becomes a chain of byte operations. */
module Scalarizer {
  import opened Bits
  import opened Wrappers
  import opened Places

  /** Every 64-bit address holds a byte. */
  ghost predicate Total(m: FlatMemory) {
    IsFlat(m) && forall a: nat :: a < TWO64 ==> m[a] < 256
  }

  /** A pure instruction tree.  `Apply` is any computation of the program's own; the others are
      what the pass emits.  `Gep` adds an 8-bit index. */
  datatype Expr =
    | Var(name: nat)
    | Apply(f: (nat, nat) -> nat, x: Expr, y: Expr)
    | Trunc8(e: Expr)
    | Lshr(e: Expr, amount: nat)
    | Zext(e: Expr)
    | Shl(e: Expr, amount: nat, width: nat)
    | Or(x: Expr, y: Expr)
    | Gep(e: Expr, index: nat)
    | LoadByte(e: Expr)

  /** A load or store of `size` bytes; `slot` says that the pointer leads back to an alloca. */
  datatype Instr =
    | Store(pointer: Expr, value: Expr, size: nat, slot: bool)
    | Load(result: nat, pointer: Expr, size: nat, slot: bool)
    | Assign(result: nat, e: Expr)

  datatype State = State(env: map<nat, nat>, memory: FlatMemory)

  /** An 8-bit index is sign-extended to the width of the pointer. */
  function SignExtend8(i: nat): nat
    requires i < 256
  {
    if i < 128 then i else TWO64 - 256 + i
  }

  /** As a signed number the index is the one it is modulo 256 between -128 and 128. */
  lemma SignExtended(i: nat)
    requires i < 256
    ensures if i < 0x80 then SignExtend8(i) == i else SignExtend8(i) + (0x100 - i) == 0x1_0000_0000_0000_0000
  {
  }

  ghost function Eval(e: Expr, s: State): nat
    requires Total(s.memory)
  {
    match e
    case Var(x) => if x in s.env then s.env[x] else 0
    case Apply(f, x, y) => f(Eval(x, s), Eval(y, s))
    case Trunc8(a) => Truncate(Eval(a, s), 8)
    case Lshr(a, k) => ShiftRight(Eval(a, s), k)
    case Zext(a) => Eval(a, s)
    case Shl(a, k, w) => Truncate(ShiftLeft(Eval(a, s), k), w)
    case Or(x, y) => BitOr(Eval(x, s), Eval(y, s))
    case Gep(a, i) => Advance(Mod64(Eval(a, s)), SignExtend8(i % 256))
    case LoadByte(a) => s.memory[Mod64(Eval(a, s))]
  }

  /** The address that a pointer is. */
  ghost function Pointer(e: Expr, s: State): (a: nat)
    requires Total(s.memory)
    ensures a < TWO64
  {
    Mod64(Eval(e, s))
  }

  ghost function Exec(i: Instr, s: State): State
    requires Total(s.memory)
  {
    match i
    case Store(p, v, n, _) => s.(memory := FlatWrite(s.memory, Pointer(p, s), n, Eval(v, s)))
    case Load(r, p, n, _) => s.(env := s.env[r := FlatRead(s.memory, Pointer(p, s), n)])
    case Assign(r, e) => s.(env := s.env[r := Eval(e, s)])
  }

  lemma ExecTotal(i: Instr, s: State)
    requires Total(s.memory)
    ensures Total(Exec(i, s).memory)
  {
    hide Mod64, ByteOf;
  }

  ghost function Run(program: seq<Instr>, s: State): (r: State)
    requires Total(s.memory)
    ensures Total(r.memory)
  {
    if program == [] then s
    else
      var before := Run(program[..|program| - 1], s);
      ExecTotal(program[|program| - 1], before);
      Exec(program[|program| - 1], before)
  }

  lemma RunSnoc(program: seq<Instr>, i: Instr, s: State)
    requires Total(s.memory)
    ensures Run(program + [i], s) == Exec(i, Run(program, s))
  {
    assert (program + [i])[..|program|] == program;
  }

  lemma {:induction false} RunConcat(p: seq<Instr>, q: seq<Instr>, s: State)
    requires Total(s.memory)
    ensures Run(p + q, s) == Run(q, Run(p, s))
    decreases |q|
  {
    hide Exec, Total;
    if q == [] {
      assert p + q == p;
    } else {
      var n := |q| - 1;
      RunConcat(p, q[..n], s);
      assert p + q == (p + q[..n]) + [q[n]];
      RunSnoc(p + q[..n], q[n], s);
    }
  }

  // ------------------------------------------------------------- what the pass emits

  /** The `i` first byte stores of a wide store of `value` at `pointer`. */
  function StoreOps(pointer: nat, value: nat, slot: bool, i: nat): seq<Instr> {
    if i == 0 then []
    else if i == 1 then [Store(Var(pointer), Trunc8(Var(value)), 1, slot)]
    else StoreOps(pointer, value, slot,
      i - 1) + [Store(Gep(Var(pointer), i - 1), Trunc8(Lshr(Var(value), 8 * (i - 1))), 1, slot)]
  }

  /** The value after `i` byte loads of a load of `width` bits. */
  function LoadExpr(pointer: nat, width: nat, i: nat): Expr
    requires i > 0
  {
    if i == 1 then Zext(LoadByte(Var(pointer)))
    else Or(LoadExpr(pointer, width, i - 1), Shl(Zext(LoadByte(Gep(Var(pointer), i - 1))), 8 * (i - 1), width))
  }

  /** A wide store and then one byte more. */
  lemma StoreOneMore(m: FlatMemory, a: nat, n: nat, v: nat, b: nat)
    requires Total(m) && a < TWO64 && n < TWO64 && ByteOf(b, 0) == ByteOf(v, n)
    ensures IsFlat(FlatWrite(m, a, n, v))
    ensures FlatWrite(FlatWrite(m, a, n, v), Advance(a, n), 1, b) == FlatWrite(m, a, n + 1, v)
  {
    hide Advance, Index, ByteOf;
    var m2, m3 := FlatWrite(FlatWrite(m, a, n, v), Advance(a, n), 1, b), FlatWrite(m, a, n + 1, v);
    AdvanceBound(a, n);
    forall c | c in m ensures m2[c] == m3[c] {
      IndexAdvance(a, c, n);
      IndexAdvance(Advance(a, n), c, 0);
      AdvanceNowhere(Advance(a, n));
    }
    assert m2 == m3;
  }

  lemma AdvanceBound(a: nat, n: nat)
    ensures Advance(a, n) < TWO64
  {
  }

  lemma AdvanceNowhere(a: nat)
    requires a < TWO64
    ensures Advance(a, 0) == a && Mod64(a) == a
  {
  }

  /** Shifting right and truncating picks one byte. */
  lemma PickedByte(v: nat, i: nat)
    ensures ByteOf(Truncate(ShiftRight(v, 8 * i), 8), 0) == ByteOf(v, i)
    ensures i == 0 ==> ByteOf(Truncate(v, 8), 0) == ByteOf(v, i)
  {
    assert Pow2(8) == 256 && Pow2(0) == 1;
    hide Pow2;
  }

  /** Up to 128 byte stores write what the wide store writes. */
  lemma {:induction false} StoreOpsMeans(x: nat, y: nat, slot: bool, i: nat, s: State)
    requires Total(s.memory) && i <= 128
    ensures Run(StoreOps(x, y, slot, i), s)
      == s.(memory := FlatWrite(s.memory, Pointer(Var(x), s), i, Eval(Var(y), s)))
  {
    hide FlatWrite, Exec, Eval, Total, Pointer;
    if i == 0 {
      NothingStored(s.memory, Pointer(Var(x), s), Eval(Var(y), s));
    } else {
      StoreOpsMeans(x, y, slot, i - 1, s);
      StoreOpsSplit(x, y, slot, i, s);
      StoreLast(s, Run(StoreOps(x, y, slot, i - 1), s), x, y, slot, i, LastOp(x, y, slot, i));
    }
  }

  lemma NothingStored(m: FlatMemory, a: nat, v: nat)
    requires Total(m)
    ensures FlatWrite(m, a, 0, v) == m
  {
    assert FlatWrite(m, a, 0, v) == m;
  }

  lemma StoreLast(s: State, before: State, x: nat, y: nat, slot: bool, i: nat, last: Instr)
    requires Total(s.memory) && Total(before.memory) && 0 < i <= 128
    requires before == s.(memory := FlatWrite(s.memory, Pointer(Var(x), s), i - 1, Eval(Var(y), s)))
    requires last == LastOp(x, y, slot, i)
    ensures Exec(last, before) == s.(memory := FlatWrite(s.memory, Pointer(Var(x), s), i, Eval(Var(y), s)))
  {
    hide FlatWrite, ByteOf, Truncate, ShiftRight, Advance, Mod64;
    var p, v := Pointer(Var(x), s), Eval(Var(y), s);
    assert Eval(Var(x), before) == Eval(Var(x), s) && Eval(Var(y), before) == v;
    PickedByte(v, i - 1);
    AdvanceBound(p, i - 1);
    AdvanceNowhere(p);
    AdvanceNowhere(Advance(p, i - 1));
    assert Pointer(last.pointer, before) == Advance(p, i - 1);
    if i > 1 { assert Eval(Lshr(Var(y), 8 * (i - 1)), before) == ShiftRight(v, 8 * (i - 1)); }
    StoreOneMore(s.memory, p, i - 1, v, Eval(last.value, before));
  }

  lemma FlatBytesSnoc(m: FlatMemory, a: nat, n: nat)
    requires Total(m)
    ensures FlatBytes(m, a, n + 1) == FlatBytes(m, a, n) + [m[Advance(a, n)]]
  {
    hide Advance;
  }

  /** Byte `i` of a word of `width` bits, put in its place. */
  lemma ShiftInPlace(low: nat, b: nat, i: nat, width: nat)
    requires low < Pow2(8 * i) && b < 256 && 8 * (i + 1) <= width
    ensures BitOr(low, Truncate(ShiftLeft(b, 8 * i), width)) == low + Pow2(8 * i) * b
  {
    hide BitOr, Truncate;
    var k, rest := 8 * i, width - 8 * (i + 1);
    assert b * Pow2(k) < Pow2(width) by {
      Pow2Add(8, k);
      Pow2Add(8 + k, rest);
      assert Pow2(8) == 256;
      PairFits(b, 256, 0, Pow2(k));
      MulGrows(Pow2(8 + k), Pow2(rest));
    }
    TruncateSmall(b * Pow2(k), width);
    OrDisjoint(low, b, k);
  }

  /** Up to 128 byte loads, shifted and or-ed, give the little-endian value. */
  lemma {:induction false} LoadExprMeans(x: nat, width: nat, i: nat, s: State)
    requires Total(s.memory) && 0 < i <= 128 && 8 * i <= width
    ensures Eval(LoadExpr(x, width, i), s) == FlatRead(s.memory, Pointer(Var(x), s), i)
  {
    if i == 1 {
      var p := Pointer(Var(x), s);
      AdvanceNowhere(p);
      hide Advance, Mod64;
      assert FlatBytes(s.memory, p, 1) == [s.memory[p]];
      OneByte(s.memory[p]);
    } else {
      hide *;
      LoadExprMeans(x, width, i - 1, s);
      LoadLast(x, width, i, s);
    }
  }

  lemma LoadLast(x: nat, width: nat, i: nat, s: State)
    requires Total(s.memory) && 1 < i <= 128 && 8 * i <= width
    requires Eval(LoadExpr(x, width, i - 1), s) == FlatRead(s.memory, Pointer(Var(x), s), i - 1)
    ensures Eval(LoadExpr(x, width, i), s) == FlatRead(s.memory, Pointer(Var(x), s), i)
  {
    hide Advance, BitOr, Truncate, ShiftLeft, LittleEndian, FlatBytes, Pow2, Mod64;
    var m, p := s.memory, Pointer(Var(x), s);
    AdvanceBound(p, i - 1);
    var low, b := FlatBytes(m, p, i - 1), m[Advance(p, i - 1)];
    FlatBytesSnoc(m, p, i - 1);
    LittleEndianConcat(low, [b]);
    OneByte(b);
    LoadedBound(m, p, i - 1);
    ShiftInPlace(LittleEndian(low), b, i - 1, width);
    AdvanceNowhere(Advance(p, i - 1));
    var byte := LoadByte(Gep(Var(x), i - 1));
    assert Eval(Gep(Var(x), i - 1), s) == Advance(p, i - 1);
    assert Eval(Zext(byte), s) == b;
    assert Eval(Shl(Zext(byte), 8 * (i - 1), width), s) == Truncate(ShiftLeft(b, 8 * (i - 1)), width);
  }

  lemma LoadedBound(m: FlatMemory, a: nat, n: nat)
    requires Total(m)
    ensures |FlatBytes(m, a, n)| == n && LittleEndian(FlatBytes(m, a, n)) < Pow2(8 * n)
    ensures forall j :: 0 <= j < n ==> FlatBytes(m, a, n)[j] < 256
  {
    LittleEndianBound(FlatBytes(m, a, n));
  }

  // ------------------------------------------------------------- accesses that are too wide

  /** No byte operation reaches offset 128: no sign-extended 8-bit index denotes it. */
  lemma NeverOffset128(a: nat, i: nat)
    requires i < 256 && a < TWO64
    ensures Advance(a, SignExtend8(i)) != Advance(a, 128) && a != Advance(a, 128) && Advance(a, 128) < TWO64
  {
    AdvanceBound(a, 128);
    AdvanceNowhere(a);
    IndexAdvance(a, Advance(a, 128), 128);
    IndexAdvance(a, Advance(a, 128), SignExtend8(i));
    IndexAdvance(a, Advance(a, 128), 0);
  }

  /** A byte store changes no other address. */
  lemma StoreByteElsewhere(m: FlatMemory, q: nat, b: nat, a: nat)
    requires Total(m) && a < TWO64 && q < TWO64 && a != q
    ensures FlatWrite(m, q, 1, b)[a] == m[a]
  {
  }

  /** The byte operation that writes byte `i - 1`. */
  function LastOp(x: nat, y: nat, slot: bool, i: nat): Instr
    requires i > 0
  {
    if i == 1 then Store(Var(x), Trunc8(Var(y)), 1, slot)
      else Store(Gep(Var(x), i - 1), Trunc8(Lshr(Var(y), 8 * (i - 1))), 1, slot)
  }

  lemma StoreOpsSplit(x: nat, y: nat, slot: bool, i: nat, s: State)
    requires Total(s.memory) && i > 0
    ensures Run(StoreOps(x, y, slot, i), s) == Exec(LastOp(x, y, slot, i), Run(StoreOps(x, y, slot, i - 1), s))
  {
    hide Exec, Total, Run;
    RunSnoc(StoreOps(x, y, slot, i - 1), LastOp(x, y, slot, i), s);
    assert StoreOps(x, y, slot, i) == StoreOps(x, y, slot, i - 1) + [LastOp(x, y, slot, i)];
  }

  lemma SamePointer(x: nat, s: State, s': State)
    requires Total(s.memory) && Total(s'.memory) && s'.env == s.env
    ensures Eval(Var(x), s') == Eval(Var(x), s)
  {
  }

  lemma {:induction false} StoreOpsMiss(x: nat, y: nat, slot: bool, i: nat, s: State)
    requires Total(s.memory) && i < 256
    ensures Run(StoreOps(x, y, slot, i), s).env == s.env
    ensures var far := Advance(Pointer(Var(x), s), 128);
      Run(StoreOps(x, y, slot, i), s).memory[far] == s.memory[far]
  {
    if i > 0 {
      hide Advance, Exec, Eval, Run, StoreOps;
      StoreOpsMiss(x, y, slot, i - 1, s);
      var before := Run(StoreOps(x, y, slot, i - 1), s);
      StoreOpsSplit(x, y, slot, i, s);
      SamePointer(x, s, before);
      AdvanceBound(Pointer(Var(x), s), 128);
      MissLast(before, x, LastOp(x, y, slot, i), i);
    }
  }

  lemma MissLast(s: State, x: nat, last: Instr, i: nat)
    requires Total(s.memory) && 0 < i < 256 && last.Store? && last.size == 1
    requires last.pointer == if i == 1 then Var(x) else Gep(Var(x), i - 1)
    ensures Exec(last, s).env == s.env && Exec(last, s).memory.Keys == s.memory.Keys
    ensures var far := Advance(Pointer(Var(x), s), 128); far < TWO64 && Exec(last, s).memory[far] == s.memory[far]
  {
    hide Advance, Mod64;
    var p, q := Pointer(Var(x), s), Pointer(last.pointer, s);
    NeverOffset128(p, i - 1);
    AdvanceBound(p, SignExtend8(i - 1));
    AdvanceNowhere(Advance(p, SignExtend8(i - 1)));
    StoreByteElsewhere(s.memory, q, Eval(last.value, s), Advance(p, 128));
  }

  /** A memory of zeroes but for one byte. */
  ghost function ZeroBut(at: nat, b: nat): (m: FlatMemory)
    requires b < 256
    ensures Total(m) && forall a: nat :: a < TWO64 ==> m[a] == (if a == at then b else 0)
  {
    imap a: nat | a < TWO64 && Mod64(a) == a :: if a == at then b else 0
  }

  ghost predicate StoreAgrees(x: nat, y: nat, slot: bool, n: nat) {
    forall s: State | Total(s.memory) ::
      Run(StoreOps(x, y, slot, n % 256), s) == Exec(Store(Var(x), Var(y), n, slot), s)
  }

  /** The byte stores agree with the wide store in every state exactly up to 128 bytes.  (Beyond
      255 the counter wraps as well.) */
  lemma StoreExact(x: nat, y: nat, slot: bool, n: nat)
    ensures StoreAgrees(x, y, slot, n) <==> n <= 128
  {
    if n <= 128 {
      hide Run, StoreOps, FlatWrite, Total;
      assert n % 256 == n;
      forall s: State | Total(s.memory)
        ensures Run(StoreOps(x, y, slot, n), s) == Exec(Store(Var(x), Var(y), n, slot), s)
      {
        StoreOpsMeans(x, y, slot, n, s);
      }
    } else {
      hide *;
      StoreFails(x, y, slot, n);
    }
  }

  lemma StoreFails(x: nat, y: nat, slot: bool, n: nat)
    requires n > 128
    ensures !StoreAgrees(x, y, slot, n)
  {
    hide Pow2, Run, StoreOps, Exec, Advance;
    var s := State(map[y := Pow2(8 * 128)], ZeroBut(0, 0));
    StoreOpsMiss(x, y, slot, n % 256, s);
    WideStoreReaches(s, x, y, slot, n);
  }

  lemma WideStoreReaches(s: State, x: nat, y: nat, slot: bool, n: nat)
    requires Total(s.memory) && n > 128 && Eval(Var(y), s) == Pow2(8 * 128)
    ensures var far := Advance(Pointer(Var(x), s), 128);
      far < TWO64 && Exec(Store(Var(x), Var(y), n, slot), s).memory[far] == 1
  {
    hide Pow2, Advance, Index;
    var p, v := Pointer(Var(x), s), Pow2(8 * 128);
    AdvanceBound(p, 128);
    IndexAdvance(p, Advance(p, 128), 128);
    QuotientUnique(v, v, 1, 0);
  }

  /** The value of the byte loads does not depend on the byte at offset 128. */
  lemma {:induction false} LoadExprMisses(x: nat, width: nat, i: nat, s: State, s': State)
    requires Total(s.memory) && Total(s'.memory) && 0 < i < 256 && s'.env == s.env
    requires forall a: nat :: a < TWO64 && a != Advance(Pointer(Var(x), s), 128) ==> s'.memory[a] == s.memory[a]
    ensures Eval(LoadExpr(x, width, i), s') == Eval(LoadExpr(x, width, i), s)
  {
    hide Advance, Mod64, BitOr, Truncate, ShiftLeft;
    var p := Pointer(Var(x), s);
    NeverOffset128(p, i - 1);
    assert Pointer(Var(x), s') == p;
    if i == 1 {
      assert Eval(LoadByte(Var(x)), s') == Eval(LoadByte(Var(x)), s);
    } else {
      LoadExprMisses(x, width, i - 1, s, s');
      AdvanceBound(p, SignExtend8(i - 1));
      AdvanceNowhere(Advance(p, SignExtend8(i - 1)));
      var byte := LoadByte(Gep(Var(x), i - 1));
      assert Eval(byte.e, s') == Eval(byte.e, s) == Advance(p, SignExtend8(i - 1));
      assert Eval(byte, s') == Eval(byte, s);
      assert Eval(Zext(byte), s') == Eval(Zext(byte), s);
      assert Eval(Shl(Zext(byte), 8 * (i - 1), width), s') == Eval(Shl(Zext(byte), 8 * (i - 1), width), s);
    }
  }

  /** Memories that differ at offset 128 give different wide loads. */
  lemma WideLoadSees(m: FlatMemory, m': FlatMemory, a: nat, n: nat)
    requires Total(m) && Total(m') && n > 128 && m[Advance(a, 128)] != m'[Advance(a, 128)]
    ensures FlatRead(m, a, n) != FlatRead(m', a, n)
  {
    hide Advance, LittleEndian, Bytes;
    var bs, bs' := FlatBytes(m, a, n), FlatBytes(m', a, n);
    LoadedBound(m, a, n);
    LoadedBound(m', a, n);
    BytesOfAssembled(bs);
    BytesOfAssembled(bs');
    assert bs[128] != bs'[128];
  }

  /** What replaces a load: nothing at all when the 8-bit counter never enters its loop. */
  function LoadValue(x: nat, n: nat): Option<Expr> {
    if n % 256 == 0 then None else Some(LoadExpr(x, 8 * n, n % 256))
  }

  /** The byte loads agree with the wide load in every state exactly up to 128 bytes. */
  lemma LoadExact(r: nat, x: nat, slot: bool, n: nat)
    requires n > 0
    ensures LoadAgrees(r, x, slot, n) <==> n <= 128
  {
    if n <= 128 {
      forall s: State | Total(s.memory)
        ensures Exec(Assign(r, LoadValue(x, n).value), s) == Exec(Load(r, Var(x), n, slot), s)
      {
        LoadExprMeans(x, 8 * n, n, s);
      }
    } else {
      LoadFails(r, x, slot, n);
    }
  }

  lemma LoadFails(r: nat, x: nat, slot: bool, n: nat)
    requires n > 128
    ensures !LoadAgrees(r, x, slot, n)
  {
    hide Advance, Mod64, LoadExpr, FlatRead;
    if n % 256 != 0 {
      var s := State(map[], ZeroBut(0, 0));
      var p := Pointer(Var(x), s);
      AdvanceBound(p, 128);
      var s' := State(map[], ZeroBut(Advance(p, 128), 1));
      LoadExprMisses(x, 8 * n, n % 256, s, s');
      WideLoadSees(s.memory, s'.memory, p, n);
      var scalar, wide := Assign(r, LoadValue(x, n).value), Load(r, Var(x), n, slot);
      assert Exec(scalar, s).env[r] == Exec(scalar, s').env[r];
      assert Exec(wide, s).env[r] != Exec(wide, s').env[r];
    }
  }

  ghost predicate LoadAgrees(r: nat, x: nat, slot: bool, n: nat) {
    && LoadValue(x, n).Some?
    && forall s: State | Total(s.memory) ::
      Exec(Assign(r, LoadValue(x, n).value), s) == Exec(Load(r, Var(x), n, slot), s)
  }

  // ------------------------------------------------------------- the pass

  /** Loads and stores the pass splits. */
  predicate Eligible(i: Instr) {
    !i.Assign? && i.size > 1 && i.slot
  }

  /** The operands of loads and stores are values computed before. */
  predicate OperandsNamed(i: Instr) {
    && (i.Store? ==> i.pointer.Var? && i.value.Var?)
    && (i.Load? ==> i.pointer.Var?)
  }

  method SplitStore(x: nat, y: nat, n: nat, slot: bool) returns (out: seq<Instr>)
    ensures out == StoreOps(x, y, slot, n % 256)
    ensures forall i :: i in out ==> !Eligible(i)
  {
    var size := n % 256;
    out := [];
    for i := 0 to size
      invariant out == StoreOps(x, y, slot, i)
      invariant forall j :: j in out ==> !Eligible(j)
    {
      if i == 0 {
        out := out + [Store(Var(x), Trunc8(Var(y)), 1, slot)];
      } else {
        out := out + [Store(Gep(Var(x), i), Trunc8(Lshr(Var(y), 8 * i)), 1, slot)];
      }
    }
  }

  method SplitLoad(x: nat, n: nat) returns (value: Option<Expr>)
    ensures value == LoadValue(x, n)
  {
    var size := n % 256;
    value := None;
    for i := 0 to size
      invariant value == if i == 0 then None else Some(LoadExpr(x, 8 * n, i))
    {
      if i == 0 {
        value := Some(Zext(LoadByte(Var(x))));
      } else {
        value := Some(Or(value.value, Shl(Zext(LoadByte(Gep(Var(x), i))), 8 * i, 8 * n)));
      }
    }
  }

  /** The instructions that replace one instruction; None where the pass uses a null value. */
  function Split(i: Instr): Option<seq<Instr>>
    requires OperandsNamed(i)
  {
    if !Eligible(i) then Some([i])
    else match i
      case Store(p, v, n, slot) => Some(StoreOps(p.name, v.name, slot, n % 256))
      case Load(r, p, n, _) =>
        (match LoadValue(p.name, n)
         case None => None
         case Some(e) => Some([Assign(r, e)]))
  }

  method SplitInstr(i: Instr) returns (out: Option<seq<Instr>>)
    requires OperandsNamed(i)
    ensures out == Split(i)
    ensures out.Some? ==> forall j :: j in out.value ==> !Eligible(j)
  {
    if !Eligible(i) { return Some([i]); }
    match i
    case Store(p, v, n, slot) =>
      var ops := SplitStore(p.name, v.name, n, slot);
      out := Some(ops);
    case Load(r, p, n, _) =>
      var value := SplitLoad(p.name, n);
      out := if value.Some? then Some([Assign(r, value.value)]) else None;
  }

  lemma RunOne(i: Instr, s: State)
    requires Total(s.memory)
    ensures Run([i], s) == Exec(i, s)
  {
    RunSnoc([], i, s);
    assert [] + [i] == [i];
  }

  lemma SplitMeans(i: Instr, s: State)
    requires Total(s.memory) && OperandsNamed(i) && (Eligible(i) ==> i.size <= 128)
    ensures Split(i).Some? && Run(Split(i).value, s) == Exec(i, s)
  {
    hide FlatWrite, FlatRead, LoadExpr, StoreOps, Run, Total, Pointer;
    if Eligible(i) && i.Store? {
      StoreOpsMeans(i.pointer.name, i.value.name, i.slot, i.size, s);
    } else {
      if Eligible(i) { LoadExprMeans(i.pointer.name, 8 * i.size, i.size, s); }
      RunOne(Split(i).value[0], s);
      assert [Split(i).value[0]] == Split(i).value;
    }
  }

  ghost predicate SameMeaning(p: seq<Instr>, q: seq<Instr>) {
    forall s: State | Total(s.memory) :: Run(p, s) == Run(q, s)
  }

  lemma SameItself(p: seq<Instr>)
    ensures SameMeaning(p, p)
  {
  }

  lemma SplitKeepsMeaning(done: seq<Instr>, i: Instr, out: seq<Instr>)
    requires SameMeaning(out, done) && OperandsNamed(i) && (Eligible(i) ==> i.size <= 128)
    ensures Split(i).Some? && SameMeaning(out + Split(i).value, done + [i])
  {
    SplitMeans(i, State(map[], ZeroBut(0, 0)));
    forall s: State | Total(s.memory) ensures Run(out + Split(i).value, s) == Run(done + [i], s) {
      hide Split, Exec, Eligible, OperandsNamed;
      RunConcat(out, Split(i).value, s);
      RunSnoc(done, i, s);
      SplitMeans(i, Run(out, s));
    }
  }

  /** The whole pass.  On programs whose split accesses are at most 128 bytes wide the result
      computes the same values and the same memory; no wide access to a slot is left. */
  method Scalarize(program: seq<Instr>) returns (out: Option<seq<Instr>>)
    requires forall i :: i in program ==> OperandsNamed(i)
    ensures (forall i :: i in program && !i.Assign? && i.slot ==> i.size <= 128) ==>
      out.Some? && SameMeaning(out.value, program)
    ensures out.Some? ==> forall i :: i in out.value ==> i.Assign? || i.size <= 1 || !i.slot
    ensures out.None? <==> exists i :: i in program && i.Load? && i.slot && i.size > 1 && i.size % 256 == 0
  {
    hide Run, SameMeaning, StoreOps, LoadExpr;
    var ops: seq<Instr> := [];
    SameItself(ops);
    for k := 0 to |program|
      invariant (forall i :: i in program[..k] && Eligible(i) ==> i.size <= 128) ==> SameMeaning(ops, program[..k])
      invariant forall i :: i in ops ==> !Eligible(i)
      invariant forall i :: i in program[..k] && Eligible(i) && i.Load? ==> i.size % 256 != 0
    {
      var next := SplitInstr(program[k]);
      assert program[k] in program;
      assert program[..k + 1] == program[..k] + [program[k]];
      if next.None? { return None; }
      if forall i :: i in program[..k + 1] && Eligible(i) ==> i.size <= 128 {
        SplitKeepsMeaning(program[..k], program[k], ops);
      }
      ops := ops + next.value;
    }
    assert program[..|program|] == program;
    out := Some(ops);
  }
}
