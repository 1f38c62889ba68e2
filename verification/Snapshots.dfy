/** Memory snapshots that share page storage until somebody writes
    (take_snapshot and restore_snapshot of src/memory/memory.cpp). */
module Snapshots {
  import opened Wrappers
  import opened Memory

  datatype PageState = PageState(page: MemPage, memory: Storage)

  type MemState = seq<PageState>

  ghost function Owned(ss: MemState): multiset<Storage> {
    if ss == [] then multiset{} else multiset{ss[0].memory} + Owned(ss[1..])
  }

  class SharedMemory {
    var pages: seq<MemPage>
    var nextId: nat
    ghost var byId: map<nat, MemPage>     // every page object that exists
    ghost var storages: set<Storage>      // every storage that exists
    ghost var held: multiset<Storage>     // the references owned by outstanding snapshots

    constructor ()
      ensures Valid() && pages == [] && nextId == 0 && byId == map[] && storages == {} && held == multiset{}
    {
      pages, nextId, byId, storages, held := [], 0, map[], {}, multiset{};
    }

    ghost predicate PageKnown(p: MemPage)
      reads `byId
    {
      p.id in byId && byId[p.id] == p
    }

    /** The use count of a storage is the number of its owners: its page, while that still
        uses it, and the snapshots that hold it. */
    ghost predicate Counted(s: Storage)
      reads `byId, `held, s`useCount, byId.Values`memory
    {
      s.owner in byId && s.useCount == held[s] + if byId[s.owner].memory == s then 1 else 0
    }

    ghost predicate Valid()
      reads this, byId.Values`memory, storages`useCount
    {
      && (forall i :: i in byId ==>
        i < nextId && byId[i].id == i && byId[i].memory in storages && byId[i].memory.owner == i)
      && (forall i :: 0 <= i < |pages| ==> PageKnown(pages[i]))
      && (forall s :: s in held ==> s in storages)
      && (forall s :: s in storages ==> Counted(s))
    }

    /** A state that was captured from this memory, one entry per page. */
    ghost predicate Captured(ss: MemState)
      reads `byId, `storages
    {
      && (forall i :: 0 <= i < |ss| ==>
        PageKnown(ss[i].page) && ss[i].memory in storages && ss[i].memory.owner == ss[i].page.id)
      && (forall i, j :: 0 <= i < j < |ss| ==> ss[i].page != ss[j].page)
    }

    method Allocate() returns (page: MemPage)
      requires Valid()
      modifies this
      ensures Valid() && fresh(page) && fresh(page.memory) && page.memory.cells == map[]
      ensures page.id == old(nextId) && nextId == old(nextId) + 1
      ensures pages == old(pages) + [page] && byId == old(byId)[page.id := page] && page.id !in old(byId)
      ensures storages == old(storages) + {page.memory} && held == old(held)
    {
      IdsBelow();
      hide Valid;
      page := new MemPage(nextId);
      pages, byId, storages := pages + [page], byId[nextId := page], storages + {page.memory};
      nextId := nextId + 1;
      AllocatedValid(page);
    }

    lemma IdsBelow()
      requires Valid()
      ensures nextId !in byId
    {
    }

    /** A page that nobody knew, with storage that nobody holds. */
    twostate lemma AllocatedValid(new page: MemPage)
      requires old(Valid()) && fresh(page.memory) && page.id == old(nextId) && nextId == old(nextId) + 1
      requires page.memory.useCount == 1 && page.memory.owner == page.id && held == old(held)
      requires pages == old(pages) + [page] && byId == old(byId)[page.id := page]
      requires storages == old(storages) + {page.memory}
      requires forall i :: i in old(byId) ==> byId[i].memory == old(byId[i].memory)
      requires forall s :: s in old(storages) ==> s.useCount == old(s.useCount)
      ensures Valid()
    {
      assert page.memory !in held;
      forall s | s in storages ensures Counted(s) {
        if s in old(storages) { assert old(Counted(s)); }
      }
    }

    /** Any single-cell write, whoever else shares the page's storage: no storage held by a
        snapshot changes, and no other page changes. */
    method Write(page: MemPage, a: nat, cell: Cell)
      requires Valid() && PageKnown(page)
      modifies this`storages, page`memory, page.memory
      ensures Valid() && page.memory.cells == old(page.memory.cells)[a := cell]
      ensures old(storages) <= storages && fresh(storages - old(storages))
      ensures forall s :: s in held ==> s.cells == old(s.cells)
      ensures forall s :: s in old(storages) && s.owner != page.id ==> s.cells == old(s.cells)
    {
      KnownStorage(page);
      hide Valid;
      page.Write(a, cell);
      storages := storages + {page.memory};
      assert {page.memory} == set p | p in {page} :: p.memory;
      MovedValid({page});
    }

    lemma KnownStorage(page: MemPage)
      requires Valid() && PageKnown(page)
      ensures page.memory in storages && page.memory.owner == page.id && page.memory.useCount >= 1
      ensures forall i :: i in byId && byId[i] != page ==> byId[i].memory != page.memory
      ensures forall s :: s in held ==> s in storages
    {
      assert Counted(page.memory);
    }

    /** Whatever some pages do to themselves, leaving shared storage before they write: the memory
        is valid again once their storage is counted in, and held storage has not changed. */
    twostate lemma MovedValid(moved: set<MemPage>)
      requires old(Valid()) && forall p :: p in moved ==> old(PageKnown(p))
      requires byId == old(byId) && held == old(held) && pages == old(pages) && nextId == old(nextId)
      requires storages == old(storages) + set p | p in moved :: p.memory
      requires forall p :: p in moved ==> p.memory.owner == p.id && p.Isolated(old(p.memory))
      requires forall i :: i in byId && byId[i] !in moved ==> byId[i].memory == old(byId[i].memory)
      requires forall s :: s in old(storages) && s !in (set p | p in moved :: old(p.memory)) ==>
        s.useCount == old(s.useCount) && s.cells == old(s.cells)
      ensures Valid() && forall s :: s in held ==> s.cells == old(s.cells)
    {
      forall s | s in storages ensures Counted(s) {
        if s in old(storages) { assert old(Counted(s)); }
      }
      forall s | s in held ensures s.cells == old(s.cells) { assert old(Counted(s)); }
    }

    // Copying, assigning and dropping a reference, as a shared pointer does.

    method Share(page: MemPage) returns (p: PageState)
      requires Valid() && PageKnown(page)
      modifies this`held, page.memory`useCount
      ensures Valid() && p == PageState(page, page.memory) && held == old(held) + multiset{page.memory}
    {
      assert Counted(page.memory);
      page.memory.useCount := page.memory.useCount + 1;
      held := held + multiset{page.memory};
      forall s | s in storages ensures Counted(s) { assert old(Counted(s)); }
      return PageState(page, page.memory);
    }

    method Assign(p: PageState)
      requires Valid() && PageKnown(p.page) && p.memory in storages && p.memory.owner == p.page.id
      modifies p.page`memory, p.page.memory`useCount, p.memory`useCount
      ensures Valid() && p.page.memory == p.memory
    {
      assert Counted(p.memory) && Counted(p.page.memory);
      if p.page.memory != p.memory {
        p.page.memory.useCount := p.page.memory.useCount - 1;
        p.memory.useCount := p.memory.useCount + 1;
        p.page.memory := p.memory;
        forall s | s in storages ensures Counted(s) { assert old(Counted(s)); }
      }
    }

    method Release(p: PageState)
      requires Valid() && p.memory in held
      modifies this`held, p.memory`useCount
      ensures Valid() && held == old(held) - multiset{p.memory}
    {
      HeldCounted(p.memory);
      hide Valid;
      p.memory.useCount := p.memory.useCount - 1;
      held := held - multiset{p.memory};
      ReleasedValid(p.memory);
    }

    lemma HeldCounted(s: Storage)
      requires Valid() && s in held
      ensures s in storages && s.useCount >= 1
    {
      assert Counted(s);
    }

    twostate lemma ReleasedValid(s: Storage)
      requires old(Valid()) && s in old(held) && held == old(held) - multiset{s}
      requires byId == old(byId) && pages == old(pages) && nextId == old(nextId) && storages == old(storages)
      requires s.useCount == old(s.useCount) - 1
      requires forall t :: t in storages && t != s ==> t.useCount == old(t.useCount)
      requires forall i :: i in byId ==> byId[i].memory == old(byId[i].memory)
      ensures Valid()
    {
      forall t | t in storages ensures Counted(t) { assert old(Counted(t)); }
    }

    /** Captures the storage of every page by reference. */
    method TakeSnapshot() returns (ss: MemState)
      requires Valid() && PagesDistinct()
      modifies this`held, storages`useCount
      ensures Valid() && Captured(ss) && |ss| == |pages| && held == old(held) + Owned(ss)
      ensures forall i :: 0 <= i < |pages| ==> ss[i] == PageState(pages[i], pages[i].memory)
    {
      hide Valid, Captured, Owned;
      OwnedNothing();
      ss := [];
      for k := 0 to |pages|
        invariant Valid() && |ss| == k && held == old(held) + Owned(ss)
        invariant forall i :: 0 <= i < k ==> ss[i] == PageState(pages[i], pages[i].memory)
      {
        KnownPage(k);
        var p := Share(pages[k]);
        OwnedPush(ss, p);
        ss := ss + [p];
      }
      CapturedAll(ss);
    }

    ghost predicate PagesDistinct()
      reads `pages
    {
      forall i, j :: 0 <= i < j < |pages| ==> pages[i] != pages[j]
    }

    lemma KnownPage(k: nat)
      requires Valid() && k < |pages|
      ensures PageKnown(pages[k]) && pages[k].memory in storages && pages[k].memory.owner == pages[k].id
    {
    }

    lemma CapturedAll(ss: MemState)
      requires Valid() && PagesDistinct() && |ss| == |pages|
      requires forall i :: 0 <= i < |pages| ==> ss[i] == PageState(pages[i], pages[i].memory)
      ensures Captured(ss)
    {
      forall i | 0 <= i < |ss|
        ensures PageKnown(ss[i].page) && ss[i].memory in storages && ss[i].memory.owner == ss[i].page.id
      {
        KnownPage(i);
      }
    }

    lemma CapturedDistinct(ss: MemState, k: nat)
      requires Captured(ss) && k < |ss|
      ensures forall i :: 0 <= i < |ss| && i != k ==> ss[i].page != ss[k].page
    {
    }

    lemma CapturedPage(ss: MemState, k: nat)
      requires Valid() && Captured(ss) && k < |ss|
      ensures PageKnown(ss[k].page) && ss[k].page.memory in storages && ss[k].memory in storages
      ensures ss[k].memory.owner == ss[k].page.id && ss[k].page in byId.Values
    {
    }

    method SetPages(ss: MemState)
      requires Valid() && Captured(ss)
      modifies this`pages
      ensures Valid() && Captured(ss) && PagesDistinct()
      ensures |pages| == |ss| && forall i :: 0 <= i < |ss| ==> pages[i] == ss[i].page
    {
      pages := seq(|ss|, i requires 0 <= i < |ss| => ss[i].page);
    }

    /** Puts the captured storage back under every captured page. */
    method RestoreSnapshot(ss: MemState)
      requires Valid() && Captured(ss)
      modifies this`pages, byId.Values`memory, storages`useCount
      ensures Valid() && |pages| == |ss| && PagesDistinct()
      ensures forall i :: 0 <= i < |ss| ==> pages[i] == ss[i].page && pages[i].memory == ss[i].memory
    {
      hide Valid, Captured;
      SetPages(ss);
      for k := 0 to |ss|
        invariant Valid() && Captured(ss)
        invariant PagesDistinct() && |pages| == |ss| && forall i :: 0 <= i < |ss| ==> pages[i] == ss[i].page
        invariant forall i :: 0 <= i < k ==> ss[i].page.memory == ss[i].memory
      {
        CapturedPage(ss, k);
        CapturedDistinct(ss, k);
        Assign(ss[k]);
      }
    }

    /** Drops a snapshot. */
    method DropSnapshot(ss: MemState)
      requires Valid() && Owned(ss) <= held
      modifies this`held, storages`useCount
      ensures Valid() && held == old(held) - Owned(ss)
    {
      hide Valid, Owned;
      OwnedPrefixes(ss);
      for k := 0 to |ss|
        invariant Valid() && held == old(held) - Owned(ss[..k])
      {
        HeldInStorages(ss[k].memory);
        Release(ss[k]);
      }
    }

    lemma HeldInStorages(s: Storage)
      requires Valid()
      ensures s in held ==> s in storages
    {
    }
  }

  lemma OwnedNothing()
    ensures Owned([]) == multiset{}
  {
  }

  lemma OwnedPrefixes(ss: MemState)
    ensures Owned(ss[..0]) == multiset{} && Owned(ss[..|ss|]) == Owned(ss)
    ensures forall k :: 0 <= k < |ss| ==> Owned(ss[..k + 1]) == Owned(ss[..k]) + multiset{ss[k].memory}
    ensures forall k :: 0 <= k < |ss| ==> Owned(ss[..k]) + multiset{ss[k].memory} <= Owned(ss)
  {
    assert ss[..|ss|] == ss;
    forall k | 0 <= k < |ss|
      ensures Owned(ss[..k + 1]) == Owned(ss[..k]) + multiset{ss[k].memory}
      ensures Owned(ss[..k]) + multiset{ss[k].memory} <= Owned(ss)
    {
      assert ss[..k + 1] == ss[..k] + [ss[k]];
      OwnedPush(ss[..k], ss[k]);
      OwnedSplit(ss, k);
    }
  }

  lemma {:induction false} OwnedSplit(ss: MemState, k: nat)
    requires k < |ss|
    ensures Owned(ss[..k]) + multiset{ss[k].memory} <= Owned(ss)
  {
    if k == 0 {
      assert ss[..0] == [];
    } else {
      OwnedSplit(ss[1..], k - 1);
      assert ss[..k][1..] == ss[1..][..k - 1];
    }
  }

  lemma {:induction false} OwnedPush(ss: MemState, p: PageState)
    ensures Owned(ss + [p]) == Owned(ss) + multiset{p.memory}
  {
    if ss == [] {
      assert ss + [p] == [p];
    } else {
      OwnedPush(ss[1..], p);
      assert (ss + [p])[1..] == ss[1..] + [p];
    }
  }

  // ---------------------------------------------------- whole sessions

  /** A read materialises the cell it does not find, which writes the page. */
  datatype Operation =
    | NewPage(image: Cells)
    | WriteCell(page: nat, address: nat, cell: Cell)
    | ReadCell(page: nat, address: nat)
    | Take
    | Restore(snapshot: nat)
    | Drop(snapshot: nat)

  datatype PageCopy = PageCopy(id: nat, image: Cells, cells: Cells) {
    predicate Has(a: nat) { a in cells || a in image }

    /** The cell that a reader of the address gets. */
    function Found(a: nat): Cell {
      if a in cells then cells[a] else if a in image then image[a] else FreshCell(id, a)
    }

    function With(a: nat, cell: Cell): PageCopy { this.(cells := cells[a := cell]) }
  }

  /** The reference: pages by position, snapshots as deep copies. */
  datatype Copies = Copies(made: nat, pages: seq<PageCopy>, snapshots: seq<seq<PageCopy>>)

  function WithoutIndex<T>(s: seq<T>, k: nat): seq<T>
    requires k < |s|
  {
    s[..k] + s[k + 1..]
  }

  function Apply(c: Copies, op: Operation): Copies {
    match op
    case NewPage(image) => c.(made := c.made + 1, pages := c.pages + [PageCopy(c.made, image, map[])])
    case WriteCell(p, a, cell) => if p < |c.pages| then c.(pages := c.pages[p := c.pages[p].With(a, cell)]) else c
    case ReadCell(p, a) =>
      if p < |c.pages| && !c.pages[p].Has(a) then c.(pages := c.pages[p := c.pages[p].With(a, c.pages[p].Found(a))])
        else c
    case Take => c.(snapshots := c.snapshots + [c.pages])
    case Restore(k) => if k < |c.snapshots| then c.(pages := c.snapshots[k]) else c
    case Drop(k) => if k < |c.snapshots| then c.(snapshots := WithoutIndex(c.snapshots, k)) else c
  }

  function ApplyAll(ops: seq<Operation>): Copies {
    if ops == [] then Copies(0, [], []) else Apply(ApplyAll(ops[..|ops| - 1]), ops[|ops| - 1])
  }

  ghost function OwnedAll(live: seq<MemState>): multiset<Storage> {
    if live == [] then multiset{} else Owned(live[0]) + OwnedAll(live[1..])
  }

  class Session {
    const memory: SharedMemory
    var live: seq<MemState>
    ghost var copies: Copies

    constructor ()
      ensures Valid() && Owns() && copies == Copies(0, [], [])
      ensures memory.pages == [] && memory.nextId == 0 && memory.byId == map[]
      ensures fresh(memory) && fresh(memory.byId.Values) && fresh(memory.storages)
    {
      memory := new SharedMemory();
      live, copies := [], Copies(0, [], []);
    }

    ghost predicate Owns()
      reads this, memory`held, memory`pages, memory`nextId
    {
      memory.held == OwnedAll(live) && memory.PagesDistinct() && copies.made == memory.nextId
    }

    /** Every page and every outstanding snapshot has the cells of the reference. */
    ghost predicate Valid()
      reads this, memory, memory.byId.Values, memory.storages
    {
      && memory.Valid() && Owns()
      && |copies.pages| == |memory.pages| && |copies.snapshots| == |live|
      && (forall i :: 0 <= i < |memory.pages| ==> PageIs(memory.pages[i], copies.pages[i]))
      && (forall k :: 0 <= k < |live| ==> CellsAre(live[k], copies.snapshots[k]))
    }

    ghost predicate PageIs(p: MemPage, copy: PageCopy)
      reads memory`byId, memory`storages, memory.byId.Values, memory.storages`cells
    {
      && memory.PageKnown(p) && p.memory in memory.storages
      && copy == PageCopy(p.id, p.initial, p.memory.cells)
    }

    ghost predicate CellsAre(ss: MemState, copy: seq<PageCopy>)
      reads memory`byId, memory`storages, memory.byId.Values`initial, memory.storages`cells
    {
      && memory.Captured(ss) && |copy| == |ss|
      && forall i :: 0 <= i < |ss| ==> copy[i] == PageCopy(ss[i].page.id, ss[i].page.initial, ss[i].memory.cells)
    }

    method TakeSnapshot()
      requires Valid()
      modifies this, memory`held, memory.storages`useCount
      ensures Valid() && copies == Apply(old(copies), Take)
    {
      hide SharedMemory.Valid, SharedMemory.Captured, Owned, OwnedAll;
      var ss := memory.TakeSnapshot();
      assert CellsAre(ss, copies.pages);
      OwnedAllPush(live, ss);
      live := live + [ss];
      copies := Apply(copies, Take);
    }

    method RestoreSnapshot(k: nat)
      requires Valid()
      modifies this, memory`pages, memory.byId.Values`memory, memory.storages`useCount
      ensures Valid() && copies == Apply(old(copies), Restore(k))
    {
      hide SharedMemory.Valid, Owned, OwnedAll;
      if k < |live| {
        ghost var was := live[k];
        assert CellsAre(was, copies.snapshots[k]);
        memory.RestoreSnapshot(live[k]);
        assert CellsAre(was, copies.snapshots[k]);
        copies := Apply(copies, Restore(k));
        forall i | 0 <= i < |memory.pages| ensures PageIs(memory.pages[i], copies.pages[i]) {}
        hide PageIs, CellsAre, SharedMemory.Captured;
      }
    }

    method WriteCell(p: nat, a: nat, cell: Cell)
      requires Valid()
      modifies this, memory`storages, memory.byId.Values`memory, memory.storages
      ensures Valid() && copies == Apply(old(copies), Operation.WriteCell(p, a, cell))
      ensures fresh(memory.storages - old(memory.storages)) && memory.byId == old(memory.byId)
    {
      hide SharedMemory.Valid, Owned, OwnedAll;
      if p < |memory.pages| {
        var pages := memory.pages;
        forall i | 0 <= i < |pages|
          ensures pages[i].memory.owner == pages[i].id && pages[i].memory in memory.storages
            && memory.PageKnown(pages[i])
        {
          memory.KnownPage(i);
        }
        forall k, i | 0 <= k < |live| && 0 <= i < |live[k]| ensures live[k][i].memory in memory.held {
          OwnedAllHas(live, k, i);
        }
        memory.Write(pages[p], a, cell);
        copies := Apply(copies, Operation.WriteCell(p, a, cell));
        memory.KnownPage(p);
        forall i | 0 <= i < |pages| ensures PageIs(pages[i], copies.pages[i]) {
          if i != p { assert old(PageIs(memory.pages[i], copies.pages[i])) && pages[i].id != pages[p].id; }
        }
        forall k | 0 <= k < |live| ensures CellsAre(live[k], copies.snapshots[k]) {
          assert old(CellsAre(live[k], copies.snapshots[k]));
        }
        hide PageIs, CellsAre, SharedMemory.Captured;
        assert memory.Valid() && Owns();
      }
    }

    /** The session after its pages, and nothing else, have changed: every snapshot is as it was. */
    twostate lemma SettledValid()
      requires old(Valid()) && memory.Valid() && live == old(live)
      requires memory.byId == old(memory.byId) && memory.held == old(memory.held) && memory.pages == old(memory.pages)
      requires memory.nextId == old(memory.nextId) && old(memory.storages) <= memory.storages
      requires forall s :: s in memory.held ==> s.cells == old(s.cells)
      requires forall i :: i in memory.byId ==> memory.byId[i].initial == old(memory.byId[i].initial)
      requires copies.made == old(copies).made && copies.snapshots == old(copies).snapshots
      requires |copies.pages| == |memory.pages|
      requires forall i :: 0 <= i < |memory.pages| ==> PageIs(memory.pages[i], copies.pages[i])
      ensures Valid()
    {
      hide SharedMemory.Valid, Owned, OwnedAll, PageIs;
      forall k | 0 <= k < |live| ensures CellsAre(live[k], copies.snapshots[k]) {
        assert old(CellsAre(live[k], copies.snapshots[k]));
        forall i | 0 <= i < |live[k]| ensures live[k][i].memory in memory.held { OwnedAllHas(live, k, i); }
      }
    }

    method DropSnapshot(k: nat)
      requires Valid()
      modifies this, memory`held, memory.storages`useCount
      ensures Valid() && copies == Apply(old(copies), Drop(k))
    {
      hide SharedMemory.Valid, SharedMemory.Captured, Owned, OwnedAll;
      if k < |live| {
        OwnedAllWithout(live, k);
        memory.DropSnapshot(live[k]);
        live := WithoutIndex(live, k);
        assert Owns();
        copies := Apply(copies, Drop(k));
        forall j | 0 <= j < |live| ensures CellsAre(live[j], copies.snapshots[j]) {
          assert old(CellsAre(live[if j < k then j else j + 1], copies.snapshots[if j < k then j else j + 1]));
        }
        hide PageIs, CellsAre;
      }
    }

    /** A reader gets the cell that it would get from a deep copy. */
    method ReadCell(p: nat, a: nat) returns (cell: Option<Cell>)
      requires Valid()
      modifies this, memory`storages, memory.byId.Values`memory, memory.storages
      ensures Valid() && copies == Apply(old(copies), Operation.ReadCell(p, a))
      ensures cell == if p < |old(copies).pages| then Some(old(copies).pages[p].Found(a)) else None
      ensures fresh(memory.storages - old(memory.storages)) && memory.byId == old(memory.byId)
    {
      hide SharedMemory.Valid, Owned, OwnedAll;
      if p < |memory.pages| {
        var page := memory.pages[p];
        assert PageIs(page, copies.pages[p]);
        if page.Holds(a) {
          cell := Some(page.Find(a));
        } else {
          cell := Some(page.Fresh(a));
          WriteCell(p, a, page.Fresh(a));
        }
      } else {
        cell := None;
      }
    }

    /** A page whose image, if it has one, is loaded before anything else can happen to it. */
    method NewPage(image: Cells)
      requires Valid()
      modifies this, memory
      ensures Valid() && copies == Apply(old(copies), Operation.NewPage(image))
      ensures |memory.pages| == |old(memory.pages)| + 1 && old(memory.pages) <= memory.pages
      ensures memory.byId == old(memory.byId)[old(memory.nextId) := memory.pages[|old(memory.pages)|]]
      ensures memory.nextId == old(memory.nextId) + 1
      ensures fresh(memory.storages - old(memory.storages)) && fresh(memory.byId.Values - old(memory.byId.Values))
    {
      hide SharedMemory.Valid, Owned, OwnedAll;
      ghost var pages := memory.pages;
      var page := memory.Allocate();
      page.initial := image;
      copies := Apply(copies, Operation.NewPage(image));
      forall i | 0 <= i < |memory.pages| ensures PageIs(memory.pages[i], copies.pages[i]) {
        if i < |pages| { assert old(PageIs(memory.pages[i], copies.pages[i])); }
      }
      forall k | 0 <= k < |live| ensures CellsAre(live[k], copies.snapshots[k]) {
        assert old(CellsAre(live[k], copies.snapshots[k]));
      }
    }

    method Do(op: Operation)
      requires Valid()
      modifies this, memory, memory.byId.Values`memory, memory.storages
      ensures Valid() && copies == Apply(old(copies), op)
      ensures fresh(memory.storages - old(memory.storages)) && fresh(memory.byId.Values - old(memory.byId.Values))
    {
      hide Valid, Apply;
      match op {
        case NewPage(image) => NewPage(image);
        case WriteCell(p, a, cell) => WriteCell(p, a, cell);
        case ReadCell(p, a) => var _ := ReadCell(p, a);
        case Take => TakeSnapshot();
        case Restore(k) => RestoreSnapshot(k);
        case Drop(k) => DropSnapshot(k);
      }
    }
  }

  /** Copy-on-write refines deep copying: after any sequence of operations, every page and
      every outstanding snapshot holds exactly what a deep-copying memory would hold. */
  method Replay(ops: seq<Operation>) returns (session: Session)
    ensures session.Valid() && session.copies == ApplyAll(ops)
  {
    hide Session.Valid, Apply, ApplyAll;
    ApplyNothing();
    session := new Session();
    for n := 0 to |ops|
      invariant session.Valid() && session.copies == ApplyAll(ops[..n])
      invariant fresh(session) && fresh(session.memory) && fresh(session.memory.byId.Values)
        && fresh(session.memory.storages)
    {
      ApplyNext(ops, n);
      session.Do(ops[n]);
    }
    assert ops[..|ops|] == ops;
  }

  lemma ApplyNothing()
    ensures ApplyAll([]) == Copies(0, [], [])
  {
  }

  lemma ApplyNext(ops: seq<Operation>, n: nat)
    requires n < |ops|
    ensures ApplyAll(ops[..n + 1]) == Apply(ApplyAll(ops[..n]), ops[n])
  {
    assert ops[..n + 1][..n] == ops[..n];
  }

  // --------------------------------------------- what operations undo

  lemma {:induction false} ApplyAllConcat(ops: seq<Operation>, more: seq<Operation>, op: Operation)
    ensures ApplyAll(ops + more + [op]) == Apply(ApplyAll(ops + more), op)
  {
    assert (ops + more + [op])[..|ops + more|] == ops + more;
  }

  /** A snapshot stays as it was taken, whatever happens to the pages, until a snapshot is
      dropped. */
  lemma {:induction false} SnapshotStays(ops: seq<Operation>, more: seq<Operation>)
    requires forall op :: op in more ==> !op.Drop?
    ensures var n := |ApplyAll(ops).snapshots|; var after := ApplyAll(ops + [Take] + more);
      n < |after.snapshots| && after.snapshots[n] == ApplyAll(ops).pages
    decreases |more|
  {
    hide ApplyAll, Apply;
    var n := |ApplyAll(ops).snapshots|;
    if more == [] {
      Taken(ApplyAll(ops));
      assert ops + [Take] + more == ops + [Take];
      ApplyAllConcat(ops, [], Take);
      assert ops + [] == ops;
    } else {
      var front, op := more[..|more| - 1], more[|more| - 1];
      SnapshotStays(ops, front);
      assert ops + [Take] + more == ops + [Take] + front + [op];
      ApplyAllConcat(ops + [Take], front, op);
      SnapshotKept(ApplyAll(ops + [Take] + front), op, n);
    }
  }

  lemma Taken(c: Copies)
    ensures Apply(c, Take).snapshots == c.snapshots + [c.pages]
  {
  }

  lemma SnapshotKept(c: Copies, op: Operation, n: nat)
    requires !op.Drop? && n < |c.snapshots|
    ensures n < |Apply(c, op).snapshots| && Apply(c, op).snapshots[n] == c.snapshots[n]
  {
  }

  /** Restoring a snapshot brings every page back as it was when the snapshot was taken. */
  lemma TakeThenRestore(ops: seq<Operation>, more: seq<Operation>)
    requires forall op :: op in more ==> !op.Drop?
    ensures ApplyAll(ops + [Take] + more + [Restore(|ApplyAll(ops).snapshots|)]).pages == ApplyAll(ops).pages
  {
    SnapshotStays(ops, more);
    ApplyAllConcat(ops + [Take], more, Restore(|ApplyAll(ops).snapshots|));
  }

  /** A written cell is what a reader finds, at its address and nowhere else. */
  lemma WrittenIsFound(ops: seq<Operation>, p: nat, a: nat, cell: Cell, q: nat, b: nat)
    requires p < |ApplyAll(ops).pages| && q < |ApplyAll(ops).pages|
    ensures var after := ApplyAll(ops + [WriteCell(p, a, cell)]).pages;
      |after| == |ApplyAll(ops).pages|
      && after[q].Found(b) == if p == q && a == b then cell else ApplyAll(ops).pages[q].Found(b)
  {
    assert ops + [] == ops;
    ApplyAllConcat(ops, [], WriteCell(p, a, cell));
  }

  // --------------------------------------------- reads leave no trace

  ghost predicate SamePage(p: PageCopy, q: PageCopy) {
    p.id == q.id && p.image == q.image && forall a :: p.Found(a) == q.Found(a)
  }

  ghost predicate SamePages(ps: seq<PageCopy>, qs: seq<PageCopy>) {
    |ps| == |qs| && forall i :: 0 <= i < |ps| ==> SamePage(ps[i], qs[i])
  }

  ghost predicate SameView(c: Copies, d: Copies) {
    && c.made == d.made && SamePages(c.pages, d.pages) && |c.snapshots| == |d.snapshots|
    && forall k :: 0 <= k < |c.snapshots| ==> SamePages(c.snapshots[k], d.snapshots[k])
  }

  function WithoutReads(ops: seq<Operation>): seq<Operation> {
    if ops == [] then []
    else
      var n := |ops| - 1;
      WithoutReads(ops[..n]) + if ops[n].ReadCell? then [] else [ops[n]]
  }

  lemma ApplySame(c: Copies, d: Copies, op: Operation)
    requires SameView(c, d)
    ensures SameView(Apply(c, op), if op.ReadCell? then d else Apply(d, op))
  {
    hide SamePage;
    match op
    case WriteCell(p, a, cell) => if p < |c.pages| { WithSame(c.pages[p], d.pages[p], a, cell); }
    case ReadCell(p, a) => if p < |c.pages| && !c.pages[p].Has(a) { MaterialisedSame(c.pages[p], d.pages[p], a); }
    case NewPage(image) => SameItself(PageCopy(c.made, image, map[]));
    case _ =>
  }

  lemma WithSame(p: PageCopy, q: PageCopy, a: nat, cell: Cell)
    requires SamePage(p, q)
    ensures SamePage(p.With(a, cell), q.With(a, cell))
  {
    forall b ensures p.With(a, cell).Found(b) == q.With(a, cell).Found(b) { assert p.Found(b) == q.Found(b); }
  }

  lemma MaterialisedSame(p: PageCopy, q: PageCopy, a: nat)
    requires SamePage(p, q) && !p.Has(a)
    ensures SamePage(p.With(a, p.Found(a)), q)
  {
    forall b ensures p.With(a, p.Found(a)).Found(b) == q.Found(b) { assert p.Found(b) == q.Found(b); }
  }

  lemma SameItself(p: PageCopy)
    ensures SamePage(p, p)
  {
  }

  /** The cells that reads materialise are never noticed: every page and every snapshot shows
      what it would show had nothing been read. */
  lemma {:induction false} ReadsLeaveNoTrace(ops: seq<Operation>)
    ensures SameView(ApplyAll(ops), ApplyAll(WithoutReads(ops)))
  {
    hide SameView, Apply;
    if ops == [] {
      NothingSame();
    } else {
      var n := |ops| - 1;
      var before := WithoutReads(ops[..n]);
      ReadsLeaveNoTrace(ops[..n]);
      ApplySame(ApplyAll(ops[..n]), ApplyAll(before), ops[n]);
      assert (before + [ops[n]])[..|before|] == before;
      assert WithoutReads(ops) == if ops[n].ReadCell? then before else before + [ops[n]];
    }
  }

  lemma NothingSame()
    ensures SameView(Copies(0, [], []), Copies(0, [], []))
  {
  }

  lemma {:induction false} OwnedHas(ss: MemState, i: nat)
    requires i < |ss|
    ensures ss[i].memory in Owned(ss)
  {
    if i > 0 { OwnedHas(ss[1..], i - 1); }
  }

  lemma {:induction false} OwnedAllHas(live: seq<MemState>, k: nat, i: nat)
    requires k < |live| && i < |live[k]|
    ensures live[k][i].memory in OwnedAll(live)
  {
    if k == 0 { OwnedHas(live[0], i); } else { OwnedAllHas(live[1..], k - 1, i); }
  }

  lemma {:induction false} OwnedAllWithout(live: seq<MemState>, k: nat)
    requires k < |live|
    ensures OwnedAll(live) == OwnedAll(WithoutIndex(live, k)) + Owned(live[k])
  {
    var rest := WithoutIndex(live, k);
    if k == 0 {
      assert rest == live[1..];
    } else {
      OwnedAllWithout(live[1..], k - 1);
      assert rest[1..] == WithoutIndex(live[1..], k - 1) && rest[0] == live[0];
    }
  }

  lemma {:induction false} OwnedAllPush(live: seq<MemState>, ss: MemState)
    ensures OwnedAll(live + [ss]) == OwnedAll(live) + Owned(ss)
  {
    hide Owned;
    if live == [] {
      assert live + [ss] == [ss];
    } else {
      OwnedAllPush(live[1..], ss);
      assert (live + [ss])[1..] == live[1..] + [ss];
    }
  }
}
