/** Symbolic byte memory: pages of cells, the three ways a read is assembled, and
    copy-on-write page storage (src/memory/memory.cpp, include/vexa/memory/memory.hpp). */
module Memory {
  import opened Bits
  import opened Terms
  import opened Solver
  import opened Places

  /** One byte of a stored value: byte `which` of the `total` bytes of `value`. */
  datatype Cell = Cell(value: Term, total: nat, which: nat)

  type Cells = map<nat, Cell>

  predicate CellOk(c: Cell) {
    c.value.WellSorted() && c.value.Width() == 8 * c.total && c.which < c.total
  }

  predicate CellsOk(m: Cells) {
    forall a :: a in m ==> CellOk(m[a])
  }

  ghost function CellByte(c: Cell, s: Assignment): (b: nat)
    ensures b < 256
  {
    ByteOf(Eval(c.value, s), c.which)
  }

  // ------------------------------------------------------- assembling

  ghost function CellBytes(cells: seq<Cell>, s: Assignment): (b: seq<nat>)
    ensures |b| == |cells| && forall j :: 0 <= j < |b| ==> b[j] == CellByte(cells[j], s) && b[j] < 256
  {
    seq(|cells|, j requires 0 <= j < |cells| => CellByte(cells[j], s))
  }

  predicate SameValue(c: Cell, d: Cell) { c.value == d.value && c.total == d.total }

  /** The cells hold consecutive bytes of one stored value. */
  ghost predicate OneField(cells: seq<Cell>)
    requires |cells| > 0
  {
    forall j :: 0 <= j < |cells| ==>
      SameValue(cells[j], cells[|cells| - 1]) && cells[j].which == cells[|cells| - 1].which - (|cells| - 1 - j)
  }

  /** Analyses the bytes from the most significant down. */
  method Analyze(cells: seq<Cell>) returns (merged: bool, aligned: bool)
    requires |cells| > 0
    ensures merged && aligned <==> OneField(cells)
  {
    var n := |cells|;
    var last := cells[n - 1];
    merged, aligned := true, true;
    for i := 0 to n
      invariant merged <==> forall j :: n - i <= j < n ==> SameValue(cells[j], last)
      invariant aligned <==> forall j :: n - i <= j < n ==> cells[j].which == last.which - (n - 1 - j)
    {
      if !SameValue(cells[n - 1 - i], last) {
        merged := false;
      }
      if cells[n - 1 - i].which != last.which - i {
        aligned := false;
      }
    }
  }

  /** The cells hold the bytes of `v` from byte `k` on. */
  ghost predicate BytesFrom(cells: seq<Cell>, v: Term, k: nat)
    requires |cells| > 0
  {
    forall j :: 0 <= j < |cells| ==> cells[j] == Cell(v, cells[0].total, k + j)
  }

  /** Builds the term of a read from the cells of its bytes, lowest address first: the stored
      value itself, a bit field of it, or a concatenation of single bytes. */
  method Assemble(cells: seq<Cell>) returns (t: Term)
    requires |cells| > 0 && forall j :: 0 <= j < |cells| ==> CellOk(cells[j])
    ensures t.WellSorted() && t.Width() == 8 * |cells|
    ensures forall s :: Eval(t, s) == LittleEndian(CellBytes(cells, s))
    ensures forall v: Term, k: nat :: BytesFrom(cells, v, k) ==>
      t == if |cells| == cells[0].total then v else Extract(v, 8 * k + 8 * |cells| - 1, 8 * k)
  {
    var n := |cells|;
    var last := cells[n - 1];
    var merged, aligned := Analyze(cells);
    if merged && aligned && n == last.total {
      MergedRead(cells);
      t := last.value;
    } else if merged && aligned {
      MergedRead(cells);
      var low := cells[0].which * 8;
      t := Extract(last.value, low + 8 * n - 1, low);
    } else {
      t := ConcatBytes(cells);
    }
  }

  lemma MergedRead(cells: seq<Cell>)
    requires |cells| > 0 && forall j :: 0 <= j < |cells| ==> CellOk(cells[j])
    requires OneField(cells)
    ensures var n := |cells|; var last := cells[n - 1]; var low := cells[0].which * 8;
      && (n == last.total ==> forall s :: Eval(last.value, s) == LittleEndian(CellBytes(cells, s)))
      && (var t := Extract(last.value, low + 8 * n - 1, low);
          t.WellSorted() && t.Width() == 8 * n && forall s :: Eval(t, s) == LittleEndian(CellBytes(cells, s)))
  {
    var n := |cells|;
    var last, k := cells[n - 1], cells[0].which;
    var t := Extract(last.value, k * 8 + 8 * n - 1, k * 8);
    assert SameValue(cells[0], last) && last.which == k + n - 1;
    forall s
      ensures Eval(t, s) == LittleEndian(CellBytes(cells, s))
      ensures n == last.total ==> Eval(last.value, s) == LittleEndian(CellBytes(cells, s))
    {
      FieldBytes(cells, k, last, s);
      if n == last.total { WholeField(last.value, n, s); }
    }
  }

  /** The cells of one field assemble to the field. */
  lemma FieldBytes(cells: seq<Cell>, k: nat, last: Cell, s: Assignment)
    requires forall j :: 0 <= j < |cells| ==> SameValue(cells[j], last) && cells[j].which == k + j
    ensures LittleEndian(CellBytes(cells, s)) == Truncate(ShiftRight(Eval(last.value, s), 8 * k), 8 * |cells|)
  {
    hide LittleEndian, Truncate, ShiftRight, ByteOf, Eval;
    ConsecutiveBytes(Eval(last.value, s), k, CellBytes(cells, s));
  }

  lemma WholeField(t: Term, n: nat, s: Assignment)
    requires t.WellSorted() && t.Width() == 8 * n
    ensures Truncate(ShiftRight(Eval(t, s), 0), 8 * n) == Eval(t, s)
  {
    EvalFits(t, s);
    assert Pow2(0) == 1;
    hide Pow2, Truncate, Eval;
    TruncateSmall(Eval(t, s), 8 * n);
  }

  /** Concatenates the bytes one by one, from the most significant down. */
  method ConcatBytes(cells: seq<Cell>) returns (t: Term)
    requires |cells| > 0 && forall j :: 0 <= j < |cells| ==> CellOk(cells[j])
    ensures t.WellSorted() && t.Width() == 8 * |cells|
    ensures forall s :: Eval(t, s) == LittleEndian(CellBytes(cells, s))
  {
    var n := |cells|;
    t := CellTerm(cells[n - 1]);
    SingleByte(cells[n - 1]);
    forall s ensures Eval(t, s) == LittleEndian(CellBytes(cells[n - 1..], s)) {
      assert CellBytes(cells[n - 1..], s) == [CellByte(cells[n - 1], s)];
    }
    for i := 1 to n
      invariant t.WellSorted() && t.Width() == 8 * i
      invariant forall s :: Eval(t, s) == LittleEndian(CellBytes(cells[n - i..], s))
    {
      var c := cells[n - 1 - i];
      SingleByte(c);
      ghost var upper := t;
      t := Concat(t, CellTerm(c));
      forall s ensures Eval(t, s) == LittleEndian(CellBytes(cells[n - 1 - i..], s)) {
        NextByte(cells[n - 1 - i..], upper, s);
      }
    }
    assert cells[0..] == cells;
  }

  function CellTerm(c: Cell): Term { ByteTerm(c.value, c.which) }

  lemma SingleByte(c: Cell)
    requires CellOk(c)
    ensures CellTerm(c).WellSorted() && CellTerm(c).Width() == 8
    ensures forall s :: Eval(CellTerm(c), s) == CellByte(c, s)
  {
    assert Pow2(8) == 256;
  }

  lemma NextByte(cells: seq<Cell>, upper: Term, s: Assignment)
    requires |cells| > 0 && CellOk(cells[0]) && Eval(upper, s) == LittleEndian(CellBytes(cells[1..], s))
    ensures Eval(Concat(upper, CellTerm(cells[0])), s) == LittleEndian(CellBytes(cells, s))
  {
    SingleByte(cells[0]);
    assert CellBytes(cells, s)[1..] == CellBytes(cells[1..], s);
    assert Pow2(8) == 256;
  }

  // ------------------------------------------------------------ pages

  /** Storage that a page and any number of snapshots may share. */
  class Storage {
    var cells: Cells
    var useCount: nat
    ghost const owner: nat  // the page that created it

    constructor (contents: Cells, ghost page: nat)
      ensures cells == contents && useCount == 1 && owner == page
    {
      cells, useCount, owner := contents, 1, page;
    }
  }

  /** The cells after the first `i` bytes of `v` have been written at `base`. */
  function WithBytes(m: Cells, base: nat, v: Term, total: nat, i: nat): Cells {
    if i == 0 then m else WithBytes(m, base, v, total, i - 1)[Mod64(base + i - 1) := Cell(v, total, i - 1)]
  }

  lemma {:induction false} WithBytesAt(m: Cells, base: nat, v: Term, total: nat, i: nat, a: nat)
    requires base < TWO64 && i <= 256
    ensures var m' := WithBytes(m, base, v, total, i);
      if a < TWO64 && Index(base, a) < i then a in m' && m'[a] == Cell(v, total, Index(base, a))
      else (a in m' <==> a in m) && (a in m ==> m'[a] == m[a])
  {
    if i > 0 {
      WithBytesAt(m, base, v, total, i - 1, a);
    }
  }

  lemma CellsWith(o: Oracle, val: Term, m: Cells, a: nat, i: nat)
    requires o.Sound() && val.WellSorted() && val.Width() % 8 == 0 && i < val.Width() / 8 && CellsOk(m)
    ensures CellsOk(m[a := Cell(o.rewrite(val), val.Width() / 8, i)])
  {
  }

  lemma RewrittenValue(o: Oracle, val: Term, s: Assignment)
    requires o.Sound()
    ensures Eval(o.rewrite(val), s) == Eval(val, s)
  {
  }

  /** The cell of a byte that was never written: a symbol of its own. */
  function FreshCell(page: nat, a: nat): Cell { Cell(Symbol(PageByte(page, a), 8), 1, 0) }

  class MemPage {
    const id: nat
    var memory: Storage
    var initial: Cells
    var isSealed: bool

    constructor (page: nat)
      ensures id == page && initial == map[] && !isSealed && fresh(memory)
      ensures memory.cells == map[] && memory.useCount == 1 && memory.owner == id
    {
      id, initial, isSealed := page, map[], false;
      memory := new Storage(map[], page);
    }

    ghost predicate Valid()
      reads this, memory
    {
      memory.useCount >= 1 && memory.owner == id && CellsOk(memory.cells) && CellsOk(initial)
    }

    function Holds(a: nat): bool
      reads this, memory
    {
      a in memory.cells || a in initial
    }

    /** Written cells hide the initial ones. */
    function Find(a: nat): Cell
      requires Holds(a)
      reads this, memory
    {
      if a in memory.cells then memory.cells[a] else initial[a]
    }

    predicate At(a: nat, c: Cell)
      reads this, memory
    {
      Holds(a) && Find(a) == c
    }

    function Fresh(a: nat): Cell { FreshCell(id, a) }

    /** The byte at an address: the cell's, or the entry byte of an address never written. */
    ghost function ByteAt(a: nat, s: Assignment): (b: nat)
      reads this, memory
      ensures b < 256
    {
      CellByte(if Holds(a) then Find(a) else Fresh(a), s)
    }

    ghost function BytesAtBase(base: nat, n: nat, s: Assignment): (b: seq<nat>)
      reads this, memory
      ensures |b| == n && forall i :: 0 <= i < n ==> b[i] == ByteAt(Mod64(base + i), s) && b[i] < 256
    {
      seq<nat>(n, i requires 0 <= i < n reads this, memory => ByteAt(Mod64(base + i), s))
    }

    lemma ByteInRange(base: nat, n: nat, a: nat, s: Assignment)
      requires base < TWO64 && a < TWO64 && Index(base, a) < n
      ensures BytesAtBase(base, n, s)[Index(base, a)] == ByteAt(a, s)
    {
      hide Mod64;
      assert Mod64(base + Index(base, a)) == a;
    }

    /** Writes one cell, first leaving shared storage for a private copy. */
    method Write(a: nat, cell: Cell)
      requires memory.useCount >= 1 && memory.owner == id
      modifies this`memory, memory
      ensures memory.cells == old(memory.cells)[a := cell] && memory.useCount == 1 && memory.owner == id
      ensures old(memory.useCount) == 1 ==> memory == old(memory)
      ensures old(memory.useCount) > 1 ==>
        fresh(memory) && old(memory).cells == old(memory.cells) && old(memory).useCount == old(memory.useCount) - 1
    {
      if memory.useCount != 1 {
        var copy := new Storage(memory.cells, id);
        memory.useCount := memory.useCount - 1;
        memory := copy;
      }
      memory.cells := memory.cells[a := cell];
    }

    method Seal()
      modifies this`isSealed
      ensures isSealed
    {
      isSealed := true;
    }

    method Initialize(a: nat, value: Term)
      requires memory.useCount >= 1 && memory.owner == id
      modifies this`memory, this`initial, memory
      ensures isSealed ==> initial == old(initial) && memory.cells == old(memory.cells)[a := Cell(value, 1, 0)]
      ensures !isSealed ==>
        memory == old(memory) && memory.cells == old(memory.cells) && initial == old(initial)[a := Cell(value, 1, 0)]
      ensures old(memory.useCount) > 1 ==> old(memory).cells == old(memory.cells)
    {
      if isSealed {
        Write(a, Cell(value, 1, 0));
      } else {
        initial := initial[a := Cell(value, 1, 0)];
      }
    }

    /** Storage shared with a snapshot has not been touched; a page only moves to new storage. */
    twostate predicate Isolated(was: Storage)
      reads this, memory, was
    {
      if memory == was then
        was.useCount == old(was.useCount) && (was.useCount > 1 ==> was.cells == old(was.cells))
      else
        && fresh(memory) && memory.useCount == 1 && old(was.useCount) > 1
        && was.useCount == old(was.useCount) - 1 && was.cells == old(was.cells)
    }

    /** Stores a value at a concrete address, one cell per byte.  Widths of 256 bytes and more
        are taken modulo 256, as the 8-bit byte count does. */
    method WriteValue(o: Oracle, base: nat, val: Term)
      requires Valid() && o.Sound() && base < TWO64
      requires val.WellSorted() && val.Width() % 8 == 0 && val.Width() < 8 * 256
      modifies this`memory, memory
      ensures Valid() && Isolated(old(memory))
      ensures forall a, s :: ByteAt(a, s) == Stored(base, val.Width() / 8, Eval(val, s), a, old(ByteAt(a, s)))
    {
      hide CellsOk, CellOk, Mod64, ByteOf, Oracle.Sound, Term.WellSorted, Term.Width, Eval;
      var byteSize := (val.Width() / 8) % 256;
      var v := o.rewrite(val);
      for i := 0 to byteSize
        invariant Valid() && Isolated(old(memory))
        invariant memory.cells == WithBytes(old(memory.cells), base, v, byteSize, i)
      {
        CellsWith(o, val, memory.cells, Mod64(base + i), i);
        Write(Mod64(base + i), Cell(v, byteSize, i));
      }
      forall a, s ensures ByteAt(a, s) == Stored(base, byteSize, Eval(val, s), a, old(ByteAt(a, s))) {
        hide WithBytes;
        WithBytesAt(old(memory.cells), base, v, byteSize, byteSize, a);
        RewrittenValue(o, val, s);
      }
    }

    /** Reads a byte, materialising a symbol for one that was never written. */
    method ReadByte(a: nat) returns (c: Cell)
      requires Valid()
      modifies this`memory, memory
      ensures Valid() && Isolated(old(memory)) && CellOk(c)
      ensures Holds(a) && Find(a) == c
      ensures forall b :: old(Holds(b)) ==> Holds(b) && Find(b) == old(Find(b))
      ensures forall b :: Holds(b) && !old(Holds(b)) ==> b == a && c == Fresh(a)
    {
      if Holds(a) {
        c := Find(a);
      } else {
        c := Fresh(a);
        Write(a, c);
      }
    }

    /** The cells of `n` bytes, lowest address first, fetched from the top down. */
    method ReadCells(base: nat, n: nat) returns (cells: seq<Cell>)
      requires Valid()
      modifies this`memory, memory
      ensures Valid() && Isolated(old(memory)) && |cells| == n
      ensures forall b :: old(Holds(b)) ==> Holds(b) && Find(b) == old(Find(b))
      ensures forall b :: Holds(b) && !old(Holds(b)) ==> Find(b) == Fresh(b)
      ensures forall j :: 0 <= j < n ==> CellOk(cells[j]) && At(Mod64(base + j), cells[j])
    {
      cells := [];
      for i := 0 to n
        invariant Valid() && Isolated(old(memory)) && |cells| == i
        invariant forall b :: old(Holds(b)) ==> Holds(b) && Find(b) == old(Find(b))
        invariant forall b :: Holds(b) && !old(Holds(b)) ==> Find(b) == Fresh(b)
        invariant forall j :: 0 <= j < i ==> CellOk(cells[j]) && At(Mod64(base + n - i + j), cells[j])
      {
        var c := ReadByte(Mod64(base + n - 1 - i));
        ghost var before := cells;
        cells := [c] + cells;
        hide CellOk, CellsOk;
        forall j | 0 <= j < i + 1 ensures CellOk(cells[j]) && At(Mod64(base + n - (i + 1) + j), cells[j]) {
          if j > 0 { assert cells[j] == before[j - 1]; }
        }
      }
    }

    /** Reads `n` bytes at a concrete address.  The view of the page does not change. */
    method Read(base: nat, n: nat) returns (t: Term)
      requires Valid() && 0 < n
      modifies this`memory, memory
      ensures Valid() && Isolated(old(memory)) && t.WellSorted() && t.Width() == 8 * n
      ensures forall a, s :: ByteAt(a, s) == old(ByteAt(a, s))
      ensures forall b, m, s :: BytesAtBase(b, m, s) == old(BytesAtBase(b, m, s))
      ensures forall s :: Eval(t, s) == LittleEndian(BytesAtBase(base, n, s))
    {
      hide CellOk, CellsOk;
      var cells := ReadCells(base, n);
      t := Assemble(cells);
      forall b, m, s ensures BytesAtBase(b, m, s) == old(BytesAtBase(b, m, s)) {
        assert forall i :: 0 <= i < m ==> BytesAtBase(b, m, s)[i] == old(BytesAtBase(b, m, s))[i];
      }
      forall s ensures Eval(t, s) == LittleEndian(BytesAtBase(base, n, s)) {
        assert CellBytes(cells, s) == BytesAtBase(base, n, s);
      }
    }
  }
}
