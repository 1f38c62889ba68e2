/** Exploration on the page memory: every block is emulated on two pages of copy-on-write
    storage, every saved path is a snapshot that shares it, and resuming a path restores the
    snapshot (src/arch/arch.cpp:32-41, 583-613, src/memory/memory.cpp:134-150). */
module PageExploration {
  import opened Terms
  import opened Solver
  import opened Places
  import opened States
  import opened Machine
  import opened Trails
  import opened Memory
  import opened Emulator
  import opened PageEmulation
  import opened Snapshots
  import opened Explorer

  /** The two data pages as values, the global one first. */
  ghost predicate DataPages(pages: seq<PageCopy>) {
    && |pages| == 2 && pages[0].id == GLOBAL_PAGE && pages[1].id == STACK_PAGE
    && forall i :: 0 <= i < 2 ==> CellsOk(pages[i].image) && CellsOk(pages[i].cells)
  }

  ghost function CopyView(pages: seq<PageCopy>, p: Place, s: Assignment): nat
    requires |pages| == 2
  {
    CellByte(pages[if p.onStack then 1 else 0].Found(p.offset), s)
  }

  /** On every input that satisfies the constraints the pages hold what the terms say. */
  ghost predicate CopyMirrors(pages: seq<PageCopy>, now: Saved) {
    && DataPages(pages) && SymTyped(now.sym)
    && forall p: Place, s: Assignment :: Holds(now.constraints, s) ==>
         CopyView(pages, p, s) == Eval(Lookup(now.sym, PlaceName(p)), s)
  }

  /** The pages mirror the current state, and every snapshot the path saved with it. */
  ghost predicate AllMirrored(c: Copies, t: Trail) {
    && CopyMirrors(c.pages, t.now) && |c.snapshots| == |t.others|
    && forall k :: 0 <= k < |t.others| ==> CopyMirrors(c.snapshots[k], t.others[k])
  }

  lemma SharpenedMirrors(pages: seq<PageCopy>, was: Saved, next: Saved)
    requires CopyMirrors(pages, was) && Sharpens(next, was)
    ensures CopyMirrors(pages, next)
  {
    hide Holds, Lookup, Eval;
    forall p: Place, s: Assignment | Holds(next.constraints, s)
      ensures CopyView(pages, p, s) == Eval(Lookup(next.sym, PlaceName(p)), s)
    {
      assert Lookup(next.sym, PlaceName(p)) == Lookup(was.sym, PlaceName(p));
    }
  }

  lemma RefinedMirrored(c: Copies, t: Trail, next: Saved)
    requires AllMirrored(c, t) && Sharpens(next, t.now)
    ensures AllMirrored(c, t.(now := next))
  {
    hide CopyMirrors, Sharpens;
    SharpenedMirrors(c.pages, t.now, next);
  }

  lemma ForkedMirrored(c: Copies, t: Trail, other: Saved)
    requires AllMirrored(c, t) && Sharpens(other, t.now)
    ensures AllMirrored(Apply(c, Take), t.(others := t.others + [other]))
  {
    hide CopyMirrors, Sharpens;
    SharpenedMirrors(c.pages, t.now, other);
  }

  lemma ResumedMirrored(c: Copies, t: Trail)
    requires AllMirrored(c, t) && t.others != []
    ensures var n := |t.others| - 1;
      AllMirrored(Apply(Apply(c, Restore(n)), Drop(n)), Trail(t.others[n], t.others[..n]))
  {
    hide CopyMirrors;
    var n := |t.others| - 1;
    var c' := Apply(Apply(c, Restore(n)), Drop(n));
    assert c'.pages == c.snapshots[n] && c'.snapshots == c.snapshots[..n];
  }

  lemma PageIds(s: Session, i: nat)
    requires s.Valid() && i < |s.copies.pages|
    ensures |s.memory.pages| == |s.copies.pages| && s.memory.pages[i].id == s.copies.pages[i].id
  {
    assert s.PageIs(s.memory.pages[i], s.copies.pages[i]);
  }

  /** New pages that mirror a new state; the snapshots stay. */
  lemma PagesMirrored(c: Copies, t: Trail, pages: seq<PageCopy>, now: Saved)
    requires AllMirrored(c, t) && CopyMirrors(pages, now)
    ensures AllMirrored(c.(pages := pages), t.(now := now))
  {
  }

  class PagedExplorer {
    const session: Session
    const dm: DataMemory
    var trail: Trail

    ghost predicate Valid()
      reads this, session, session.memory, session.memory.byId.Values, session.memory.storages
    {
      && session.Valid() && AllMirrored(session.copies, trail) && dm.o.Sound() && dm.o.Decisive()
      && dm.main.id == GLOBAL_PAGE && dm.stack.id == STACK_PAGE
      && session.memory.byId == map[GLOBAL_PAGE := dm.main, STACK_PAGE := dm.stack]
    }

    /** The pages of the session are those of the data memory. */
    lemma KnownPages()
      requires Valid()
      ensures session.memory.Valid() && session.memory.pages == [dm.main, dm.stack]
      ensures dm.main in session.memory.byId.Values && dm.stack in session.memory.byId.Values
      ensures dm.main.memory in session.memory.storages && dm.stack.memory in session.memory.storages
      ensures session.copies.pages == [PageCopy(dm.main.id, dm.main.initial, dm.main.memory.cells),
                                       PageCopy(dm.stack.id, dm.stack.initial, dm.stack.memory.cells)]
      ensures dm.main.memory.owner == dm.main.id && dm.stack.memory.owner == dm.stack.id
      ensures dm.main.memory.useCount >= 1 && dm.stack.memory.useCount >= 1
    {
      hide CellsOk, Eval, Holds, Lookup;
      var m := session.memory;
      assert session.PageIs(m.pages[0], session.copies.pages[0]) && session.PageIs(m.pages[1], session.copies.pages[1]);
      assert m.byId[GLOBAL_PAGE] == dm.main && m.byId[STACK_PAGE] == dm.stack;
      assert m.Counted(dm.main.memory) && m.Counted(dm.stack.memory);
    }

    constructor (oracle: Oracle, image: Sym, mainImage: Cells, stackImage: Cells)
      requires oracle.Sound() && oracle.Decisive()
      requires CopyMirrors([PageCopy(GLOBAL_PAGE, mainImage, map[]), PageCopy(STACK_PAGE, stackImage, map[])],
                           Saved(image, []))
      ensures Valid() && dm.o == oracle && trail == Trail(Saved(image, []), [])
      ensures fresh(session) && fresh(session.memory) && fresh(session.memory.byId.Values)
      ensures fresh(session.memory.storages)
    {
      hide CopyMirrors, Session.Valid;
      var s := new Session();
      s.NewPage(mainImage);
      s.NewPage(stackImage);
      PageIds(s, 0);
      PageIds(s, 1);
      ghost var copied := [PageCopy(GLOBAL_PAGE, mainImage, map[]), PageCopy(STACK_PAGE, stackImage, map[])];
      assert s.copies.pages == copied && s.copies.snapshots == [];
      assert s.memory.byId == map[GLOBAL_PAGE := s.memory.pages[0], STACK_PAGE := s.memory.pages[1]];
      session := s;
      dm := new DataMemory(oracle, s.memory.pages[1], s.memory.pages[0]);
      trail := Trail(Saved(image, []), []);
    }

    /** The data memory is fit for use and shows what the session's pages show. */
    lemma DataReady()
      requires Valid()
      ensures dm.Valid() && Mirrors(dm, trail.now.sym, trail.now.constraints) && SymTyped(trail.now.sym)
    {
      KnownPages();
      hide CellsOk, Eval, Holds, Lookup, SymTyped, CellByte;
      var pages := session.copies.pages;
      assert CellsOk(pages[0].image) && CellsOk(pages[1].image) && CellsOk(pages[0].cells) && CellsOk(pages[1].cells);
      forall p: Place, s: Assignment ensures dm.View(p, s) == CopyView(pages, p, s) {
      }
    }

    /** What the data memory shows, the copies of its pages show. */
    lemma CopiesShow()
      requires dm.Valid() && Mirrors(dm, trail.now.sym, trail.now.constraints) && SymTyped(trail.now.sym)
      requires dm.main.id == GLOBAL_PAGE && dm.stack.id == STACK_PAGE
      ensures CopyMirrors([PageCopy(dm.main.id, dm.main.initial, dm.main.memory.cells),
                           PageCopy(dm.stack.id, dm.stack.initial, dm.stack.memory.cells)], trail.now)
    {
      hide CellsOk, Eval, Holds, Lookup, SymTyped, CellByte;
      var pages := [PageCopy(dm.main.id, dm.main.initial, dm.main.memory.cells),
                    PageCopy(dm.stack.id, dm.stack.initial, dm.stack.memory.cells)];
      forall p: Place, s: Assignment ensures dm.View(p, s) == CopyView(pages, p, s) {
      }
    }

    /** The pages, seen apart from the session. */
    ghost predicate PagesReady()
      reads this, session, session.memory, session.memory.byId.Values, session.memory.storages, dm.main, dm.stack
    {
      && session.memory.Valid() && session.memory.byId == map[GLOBAL_PAGE := dm.main, STACK_PAGE := dm.stack]
      && dm.main.id == GLOBAL_PAGE && dm.stack.id == STACK_PAGE
      && dm.main.memory in session.memory.storages && dm.stack.memory in session.memory.storages
    }

    method EmulateOnPages(cs: seq<Term>, sym: Sym, body: seq<Action>)
      requires PagesReady() && dm.Valid() && SymTyped(sym) && Mirrors(dm, sym, cs) && BodyTyped(body)
      modifies session.memory`storages, dm.stack`memory, dm.main`memory, dm.stack.memory, dm.main.memory
      ensures PagesReady() && dm.Valid() && Mirrors(dm, Emulate(dm.o, cs, body, sym), cs)
      ensures fresh(session.memory.storages - old(session.memory.storages))
      ensures old(session.memory.storages) <= session.memory.storages
      ensures forall s :: s in session.memory.held ==> s in old(session.memory.storages) && s.cells == old(s.cells)
    {
      hide CellsOk, SymTyped, Emulate, BodyTyped, Oracle.Sound, Oracle.Decisive, Mirrors, SharedMemory.Valid;
      EmulateMirrored(dm, cs, sym, body);
      session.memory.storages := session.memory.storages + {dm.main.memory, dm.stack.memory};
      session.memory.MovedValid({dm.main, dm.stack});
    }

    /** A block is emulated on the pages; snapshots that share their storage do not change. */
    method EmulateBlock(body: seq<Action>)
      requires Valid() && BodyTyped(body)
      modifies this, session, session.memory, session.memory.byId.Values`memory, session.memory.storages
      ensures Valid() && trail == Play(dm.o, old(trail), Emulated(body))
      ensures Grown()
    {
      hide CellsOk, Eval, Holds, Lookup, SymTyped, Emulate, BodyTyped, Oracle.Sound, Oracle.Decisive, Mirrors;
      hide Session.Valid, SharedMemory.Valid, AllMirrored, CopyMirrors, DataMemory.Valid;
      KnownPages();
      DataReady();
      var now := trail.now;
      EmulateOnPages(now.constraints, now.sym, body);
      session.copies := session.copies.(pages := [PageCopy(dm.main.id, dm.main.initial, dm.main.memory.cells),
                                                  PageCopy(dm.stack.id, dm.stack.initial, dm.stack.memory.cells)]);
      session.SettledValid();
      trail := Play(dm.o, trail, Emulated(body));
      EmulateTyped(dm.o, now.constraints, body, now.sym);
      CopiesShow();
      PagesMirrored(old(session.copies), old(trail), session.copies.pages, trail.now);
    }

    /** New storage is new, and the pages stay the same two. */
    twostate predicate Grown()
      reads this, session, session.memory
    {
      fresh(session.memory.storages - old(session.memory.storages)) && session.memory.byId == old(session.memory.byId)
    }

    method SavePath(other: Saved)
      requires Valid() && Sharpens(other, trail.now)
      modifies this, session, session.memory, session.memory.byId.Values`memory, session.memory.storages
      ensures Valid() && trail == Play(dm.o, old(trail), Forked(other)) && Grown()
    {
      hide Session.Valid, AllMirrored, Sharpens, Oracle.Sound, Oracle.Decisive, Apply;
      ForkedMirrored(session.copies, trail, other);
      session.TakeSnapshot();
      trail := trail.(others := trail.others + [other]);
    }

    method ResumePath()
      requires Valid()
      modifies this, session, session.memory, session.memory.byId.Values`memory, session.memory.storages
      ensures Valid() && trail == Play(dm.o, old(trail), Resumed) && Grown()
    {
      hide Session.Valid, AllMirrored, Oracle.Sound, Oracle.Decisive, Apply;
      if trail.others != [] {
        var n := |trail.others| - 1;
        ResumedMirrored(session.copies, trail);
        session.RestoreSnapshot(n);
        session.DropSnapshot(n);
        trail := Trail(trail.others[n], trail.others[..n]);
      }
    }

    method TakeStep(step: Step)
      requires Valid() && Legal(trail, step)
      modifies this, session, session.memory, session.memory.byId.Values`memory, session.memory.storages
      ensures Valid() && trail == Play(dm.o, old(trail), step) && Grown()
    {
      hide Session.Valid, AllMirrored, Sharpens, BodyTyped, Emulate, Oracle.Sound, Oracle.Decisive;
      match step {
        case Emulated(body) => EmulateBlock(body);
        case Refined(next) =>
          RefinedMirrored(session.copies, trail, next);
          trail := trail.(now := next);
        case Forked(other) => SavePath(other);
        case Resumed => ResumePath();
      }
    }
  }

  /** Any exploration on pages: after any legal sequence of steps the two pages hold what the
      current terms say, and every snapshot what the terms saved with it say. */
  method PlayOnPages(oracle: Oracle, image: Sym, mainImage: Cells, stackImage: Cells, steps: seq<Step>)
    returns (pages: PagedExplorer)
    requires oracle.Sound() && oracle.Decisive()
    requires CopyMirrors([PageCopy(GLOBAL_PAGE, mainImage, map[]), PageCopy(STACK_PAGE, stackImage, map[])],
                         Saved(image, []))
    requires LegalAll(oracle, Trail(Saved(image, []), []), steps)
    ensures pages.Valid() && pages.dm.o == oracle && pages.trail == PlayAll(oracle, Trail(Saved(image, []), []), steps)
  {
    hide PagedExplorer.Valid, LegalAll, PlayAll, Play, Legal, CopyMirrors, Oracle.Sound, Oracle.Decisive;
    ghost var origin := Trail(Saved(image, []), []);
    pages := new PagedExplorer(oracle, image, mainImage, stackImage);
    PlayNothing(oracle, origin);
    for n := 0 to |steps|
      invariant pages.Valid() && pages.dm.o == oracle && pages.trail == PlayAll(oracle, origin, steps[..n])
      invariant fresh(pages) && fresh(pages.session) && fresh(pages.session.memory)
      invariant fresh(pages.session.memory.byId.Values) && fresh(pages.session.memory.storages)
    {
      PlayNext(oracle, origin, steps, n);
      pages.TakeStep(steps[n]);
    }
    assert steps[..|steps|] == steps;
  }

  /** The exploration of a machine, carried out on shared pages.  On every input that leads to
      the current block they hold the machine's memory, and each snapshot mirrors its path. */
  method ExploreOnPages(cpu: Cpu, mainImage: Cells, stackImage: Cells, steps: seq<Step>) returns (pages: PagedExplorer)
    requires cpu.Valid() && steps == cpu.log
    requires CopyMirrors([PageCopy(GLOBAL_PAGE, mainImage, map[]), PageCopy(STACK_PAGE, stackImage, map[])],
                         Saved(cpu.w.image, []))
    ensures pages.Valid() && pages.trail == Trail(Saved(cpu.sym, cpu.pathConstraints), SavedAll(cpu.unexplored))
    ensures cpu.running ==> forall p: Place, s: Assignment :: cpu.Here(s) ==>
      pages.dm.View(p, s) == States.Cell(cpu.MachineHere(s).state, PlaceName(p))
    ensures |pages.session.copies.snapshots| == |cpu.unexplored|
    ensures forall k :: 0 <= k < |cpu.unexplored| ==>
      CopyMirrors(pages.session.copies.snapshots[k], SavedOf(cpu.unexplored[k]))
  {
    hide LegalAll, PlayAll, CopyMirrors, Oracle.Sound, Oracle.Decisive, Decoder.Lawful, Session.Valid;
    pages := PlayOnPages(cpu.o, cpu.w.image, mainImage, stackImage, steps);
    if cpu.running {
      hide AllMirrored;
      pages.DataReady();
      forall p: Place, s: Assignment | cpu.Here(s)
        ensures pages.dm.View(p, s) == States.Cell(cpu.MachineHere(s).state, PlaceName(p))
      {
        MachineMemory(cpu, p, s);
      }
    }
  }

  lemma MachineMemory(cpu: Cpu, p: Place, s: Assignment)
    requires cpu.Valid() && cpu.running && cpu.Here(s)
    ensures Holds(cpu.pathConstraints, s)
    ensures Eval(Lookup(cpu.sym, PlaceName(p)), s) == States.Cell(cpu.MachineHere(s).state, PlaceName(p))
  {
    cpu.CurrentAgrees(true);
  }
}
