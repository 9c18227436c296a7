/** Demand paging: the page-table code, the page-fault handler and the typed allocation of
    user address space (vmm.c) on top of the physical allocator. */
module DemandPaging {
  import opened Layouts
  import opened BlockNodes
  import opened ListSteps
  import opened AllocatorState
  import opened AllocatorTheorems
  import opened PageAllocator
  import opened PageTables
  import opened FrameOwnership
  import opened AddressSpace

  class Kernel {
    /** The physical allocator and the block lists. */
    const vmm: Vmm
    /** The address of the root table. */
    const cr3: nat
    /** The process whose address space is current. */
    const process: nat
    /** The page tables by address. */
    var tables: Tables
    /** Where each table belongs. */
    ghost var home: map<nat, Home>

    constructor (vmm: Vmm, cr3: nat, process: nat, tables: Tables, ghost home: map<nat, Home>)
      ensures this.vmm == vmm && this.cr3 == cr3 && this.process == process
      ensures this.tables == tables && this.home == home
    {
      this.vmm, this.cr3, this.process := vmm, cr3, process;
      this.tables, this.home := tables, home;
    }

    ghost predicate Paging()
      reads this, vmm
    {
      Sound(vmm.View(), tables, home, cr3)
    }

    // ------------------------------------------------------------ mapping

    /** alloc_physical_memory(1, 0): a page, or 0 if none is left. */
    method TakeFreePage() returns (page: nat)
      requires Paging()
      modifies vmm
      ensures page == 0 <==> PageCount(Free(old(vmm.View()))) == 0
      ensures page == 0 ==> vmm.View() == old(vmm.View())
      ensures page != 0 ==> PageTaken(old(vmm.View()), vmm.View(), page) && vmm.pending == 0
      ensures page != 0 ==> OnlyList(old(vmm.View()), vmm.View(), MemoryMap, {})
    {
      hide Valid, Tree, AllocResult, Layout, PageCount, OnlyList;
      ghost var st := vmm.View();
      page := vmm.AllocPhysical(1, 0);
      ghost var status :| AllocResult(st, vmm.View(), 0, 1, 0, page, status);
      PageOrNone(st, vmm.View(), page, status);
    }

    /** The table below entry `va` of table `frame`, created if there is none (vmm.c:398-405,
        417-424, 436-443). Starved stands for the use of address 0 as a table. */
    method NextTable(frame: nat, level: nat, ghost l: nat, va: nat) returns (child: nat, starved: bool)
      requires Paging() && 1 <= l < level <= 4
      requires OnPath(home, frame, level, va) && frame in tables && |tables[frame]| == ENTRIES
      requires Reaches(tables, cr3, 4, frame, level, va)
      requires Present(tables[frame][Index(va, level)]) ==> (level < 4 ==> !Huge(tables[frame][Index(va, level)]))
      modifies this`tables, this`home, vmm
      ensures starved ==> vmm.View() == old(vmm.View()) && tables == old(tables) && home == old(home)
      ensures starved ==>
        Room(old(vmm.View()), old(tables), frame, level, l, va) < 0 && PageCount(Free(vmm.View())) == 0
      ensures !starved ==> TableStep(old(vmm.View()), old(tables), old(home), vmm.View(), tables, home, cr3, 1)
      ensures !starved ==> OnPath(home, child, level - 1, va) && child in tables && |tables[child]| == ENTRIES
      ensures !starved ==> Reaches(tables, cr3, 4, child, level - 1, va)
      ensures !starved ==>
        Room(vmm.View(), tables, child, level - 1, l, va) == Room(old(vmm.View()), old(tables), frame, level, l, va)
    {
      hide Valid, Tree, TablesHeld, TableStep, Reaches, OnlyList, Layout, PageCount, AddTable, AddHome, PageTaken,
           Room, TableWord, AddrOf, Missing;
      ghost var st, t0, home0 := vmm.View(), tables, home;
      var i := Index(va, level);
      if !Present(tables[frame][i]) {
        var page := TakeFreePage();
        if page == 0 {
          NoRoom(st, t0, frame, level, l, va);
          return 0, true;
        }
        AddTableStep(st, t0, home0, vmm.View(), cr3, frame, i, page);
        AddedRoom(st, t0, home0, vmm.View(), cr3, frame, i, page, level, l, va);
        tables := tables[frame := Row(tables[frame], i, TableWord(page))];
        tables := tables[page := EmptyTable()];
        home := AddHome(home, frame, i, page);
        AddTableIs(t0, frame, i, page);
        AddedEntry(st, t0, home0, vmm.View(), cr3, frame, i, page, level, va);
        SoundAfter(st, t0, home0, vmm.View(), tables, home, cr3, 1);
      } else {
        TableStepNone(st, t0, home0, cr3);
        NextRoom(st, t0, frame, level, l, va);
      }
      child := AddrOf(tables[frame][i]);
      TreeOf(vmm.View(), tables, home, cr3);
      ChildOf(vmm.View(), tables, home, cr3, frame, level, va);
      starved := false;
    }

    /** One table level further down the path of `va`, keeping account of what was done
        since the state `st`, `t`, `home0`. */
    method Descend(frame: nat, level: nat, ghost l: nat, va: nat, ghost st: State, ghost t: Tables,
                   ghost home0: map<nat, Home>)
      returns (child: nat, starved: bool)
      requires Paging() && 1 <= l < level <= 4 && home0.Keys == t.Keys
      requires OnPath(home, frame, level, va) && Reaches(tables, cr3, 4, frame, level, va)
      requires TableStep(st, t, home0, vmm.View(), tables, home, cr3, 4 - level)
      requires NoLarger(t, cr3, 4, l, va)
      modifies this`tables, this`home, vmm
      ensures Paging() && TableStep(st, t, home0, vmm.View(), tables, home, cr3, 5 - level)
      ensures starved ==>
        Room(old(vmm.View()), old(tables), frame, level, l, va) < 0 && PageCount(Free(vmm.View())) == 0
      ensures !starved ==> OnPath(home, child, level - 1, va) && Reaches(tables, cr3, 4, child, level - 1, va)
      ensures !starved ==> child in tables && |tables[child]| == ENTRIES
      ensures !starved ==>
        Room(vmm.View(), tables, child, level - 1, l, va) == Room(old(vmm.View()), old(tables), frame, level, l, va)
    {
      hide Sound, Valid, Tree, TablesHeld, TableStep, Reaches, NoLarger, PageCount, Layout, Present, Huge, Prefix,
           Held, OnlyList, Room;
      ghost var st1, t1, home1 := vmm.View(), tables, home;
      SoundAfter(st, t, home0, st1, t1, home1, cr3, 4 - level);
      StepNoLarger(st, t, home0, st1, t1, home1, cr3, 4 - level, l, va);
      NextReady(st1, t1, home1, cr3, frame, level, l, va);
      child, starved := NextTable(frame, level, l, va);
      if starved {
        TableStepMore(st, t, home0, st1, t1, home1, cr3, 4 - level, 5 - level);
      } else {
        SoundAfter(st1, t1, home1, vmm.View(), tables, home, cr3, 1);
        TableStepTrans(st, t, home0, st1, t1, home1, vmm.View(), tables, home, cr3, 4 - level, 1);
      }
    }

    /** The word of a page and then its attributes (vmm.c:412-413, 431-432, 448-453). */
    method WriteLeaf(frame: nat, level: nat, va: nat, pa: nat, attr: Attr)
      requires frame in tables && Index(va, level) < |tables[frame]|
      modifies this`tables
      ensures tables == SetEntry(old(tables), frame, Index(va, level), WithAttr(LeafWord(pa, level), attr))
    {
      hide LeafWord, WithAttr, Prefix, SetEntry;
      ghost var t := tables;
      var i := Index(va, level);
      SetEntryTwice(t, frame, i, LeafWord(pa, level), WithAttr(LeafWord(pa, level), attr));
      tables := SetEntry(tables, frame, i, LeafWord(pa, level));
      tables := SetEntry(tables, frame, i, WithAttr(tables[frame][i], attr));
    }

    /** The body of the loop of virtual_mapping: one page of level `level`. It is starved of
        tables exactly if there are fewer free pages than tables missing on the path. */
    method MapPage(pa: nat, va: nat, level: nat, attr: Attr) returns (starved: bool)
      requires Paging() && 1 <= level <= 3 && pa % Span(level) == 0 && pa + PAGE <= BIT63
      requires NoLarger(tables, cr3, 4, level, va)
      modifies this`tables, this`home, vmm
      ensures Paging()
      ensures OneMapping(old(vmm.View()), old(tables), old(home), vmm.View(), tables, home, cr3, va, level, pa, attr,
        starved)
    {
      hide Sound, TableStep, Reaches, NoLarger, PageCount, Layout, Present, Huge, Prefix, Held, OnlyList, LeafWord,
           WithAttr, BaseOf, Span, SetEntry, AttrOf, OnePageRights, Room, Missing;
      ghost var st, t, home0 := vmm.View(), tables, home;
      StartAtRoot(st, t, home, cr3, va);
      var frame;
      frame, starved := DescendTo(va, level, st, t, home0);
      RoomAtRoot(st, t, cr3, level, va);
      if starved {
        return;
      }
      RoomAtLeaf(vmm.View(), tables, frame, level, va);
      LeafWordFields(pa, level, attr);
      MapDone(st, t, home0, vmm.View(), tables, home, cr3, frame, va, level, pa, WithAttr(LeafWord(pa, level), attr));
      WriteLeaf(frame, level, va, pa, attr);
      MappedSound(st, t, home0, vmm.View(), tables, home, cr3, va, level, pa, attr);
    }

    /** The tables from the root down to level `level` on the path of `va` (vmm.c:395-446). */
    method DescendTo(va: nat, level: nat, ghost st: State, ghost t: Tables, ghost home0: map<nat, Home>)
      returns (frame: nat, starved: bool)
      requires Paging() && 1 <= level <= 3 && st == vmm.View() && t == tables && home0 == home && home0.Keys == t.Keys
      requires OnPath(home, cr3, 4, va) && Reaches(tables, cr3, 4, cr3, 4, va)
      requires TableStep(st, t, home0, st, t, home0, cr3, 0) && NoLarger(t, cr3, 4, level, va)
      modifies this`tables, this`home, vmm
      ensures Paging() && TableStep(st, t, home0, vmm.View(), tables, home, cr3, 4 - level)
      ensures starved ==> Room(st, t, cr3, 4, level, va) < 0 && PageCount(Free(vmm.View())) == 0
      ensures !starved ==>
        OnPath(home, frame, level, va) && Reaches(tables, cr3, 4, frame, level, va) && frame in tables
      ensures !starved ==> Room(vmm.View(), tables, frame, level, level, va) == Room(st, t, cr3, 4, level, va)
    {
      hide Sound, TableStep, Reaches, NoLarger, PageCount, Layout, Present, Huge, Prefix, Held, OnlyList, Room, Missing;
      frame, starved := Descend(cr3, 4, level, va, st, t, home0);
      if starved {
        TableStepMore(st, t, home0, vmm.View(), tables, home, cr3, 1, 4 - level);
        return;
      }
      if level < 3 {
        frame, starved := Descend(frame, 3, level, va, st, t, home0);
        if starved {
          TableStepMore(st, t, home0, vmm.View(), tables, home, cr3, 2, 4 - level);
          return;
        }
        if level < 2 {
          frame, starved := Descend(frame, 2, level, va, st, t, home0);
        }
      }
    }

    /** virtual_mapping. The physical address is rounded down to the page size. If the tables
        run out, the pages before the one that lacks its tables are mapped. */
    method VirtualMapping(pa: nat, va: nat, pageCount: nat, pageType: nat, attr: Attr)
      returns (starved: bool, ghost done: nat)
      requires Paging() && MappingAllowed(tables, cr3, pa, va, pageCount, pageType + 1)
      modifies this`tables, this`home, vmm
      ensures Paging()
      ensures MappingDone(old(vmm.View()), old(tables), old(home), vmm.View(), tables, home, cr3, pa, va, pageCount,
                          pageType + 1, attr, starved, done)
    {
      hide Sound, PageMapped, PagesTaken, RunMapped, NoLarger, PageCount, Layout, Span, PageAt, RunRights, TableStep,
           Missing;
      ghost var st, t, home0 := vmm.View(), tables, home;
      var l := pageType + 1;
      var base := LeafBase(pa, l);
      var phyAddr, addr := base, va;
      var i := 0;
      RunMappedNone(t, cr3, va, l, base);
      RunRightsNone(t, cr3, va, l, attr);
      MappingStart(st, t, home, cr3, va, l, base, pa, pageCount);
      while i < pageCount
        invariant i <= pageCount && phyAddr == PageAt(base, l, i) && addr == PageAt(va, l, i)
        invariant Paging() && PagesTaken(st, vmm.View(), i * (4 - l))
        invariant RunMapped(t, tables, cr3, va, l, base, i) && RunRights(t, tables, cr3, va, l, i, attr)
        invariant NoLargerRun(tables, cr3, va, l, pageCount)
        invariant i == 0 ==> vmm.View() == st && tables == t && home == home0
        invariant i == 1 ==> OneMapping(st, t, home0, vmm.View(), tables, home, cr3, va, l, base, attr, false)
      {
        ghost var st1, t1, home1 := vmm.View(), tables, home;
        MappingReady(st, st1, base, pa, l, i, pageCount);
        MissingBound(t1, cr3, l, addr);
        starved := MapPage(phyAddr, addr, l, attr);
        if starved {
          MulGap(i, pageCount, 4 - l);
          StarvedMapping(st, t, st1, t1, home1, vmm.View(), tables, home, cr3, va, l, base, i, i * (4 - l), 4 - l,
                         pageCount * (4 - l), attr);
          return true, i;
        }
        RunShort(l, i, pageCount);
        MappingNext(st, t, home0, st1, t1, home1, vmm.View(), tables, home, cr3, va, l, base, i, pageCount,
                    attr);
        phyAddr := phyAddr + Span(l);
        addr := addr + Span(l);
        i := i + 1;
        NextPageAt(base, l, i);
        NextPageAt(va, l, i);
      }
      return false, i;
    }

    // ------------------------------------------------------------ looking up

    /** search_page_entry: the entry that maps `va`, found through the four levels. */
    method SearchPageEntry(va: nat) returns (slot: Option<Slot>)
      requires Paging()
      ensures slot == Walk(tables, cr3, 4, va)
    {
      hide Valid, TablesHeld, Tree, Present, Huge, AddrOf, Prefix, OnPath;
      StartTable(vmm.View(), tables, home, cr3, va);
      var e4 := tables[cr3][Index(va, 4)];
      if !Present(e4) {
        return None;
      }
      var pdpt := AddrOf(e4);
      BelowTable(vmm.View(), tables, home, cr3, cr3, 4, va);
      var e3 := tables[pdpt][Index(va, 3)];
      if !Present(e3) {
        return None;
      }
      if Huge(e3) {
        return Some(Slot(pdpt, Index(va, 3), 3));
      }
      var pd := AddrOf(e3);
      BelowTable(vmm.View(), tables, home, cr3, pdpt, 3, va);
      var e2 := tables[pd][Index(va, 2)];
      if !Present(e2) {
        return None;
      }
      if Huge(e2) {
        return Some(Slot(pd, Index(va, 2), 2));
      }
      var pt := AddrOf(e2);
      BelowTable(vmm.View(), tables, home, cr3, pd, 2, va);
      if !Present(tables[pt][Index(va, 1)]) {
        return None;
      }
      return Some(Slot(pt, Index(va, 1), 1));
    }

    /** physical_address of a mapped address. */
    method PhysicalAddress(va: nat) returns (pa: nat)
      requires Paging() && Translate(tables, cr3, va).Some?
      ensures Some(pa) == Translate(tables, cr3, va)
      ensures InLinear(va) && LinearMap(tables, cr3) ==> pa == va - LINEAR
    {
      hide Sound, Walk, BaseOf, Span;
      var slot := SearchPageEntry(va);
      var s := slot.value;
      pa := BaseOf(tables[s.frame][s.index], s.level) + va % Span(s.level);
    }

    // ------------------------------------------------------------ page faults

    /** The invariant of the running address space. */
    ghost predicate Running()
      reads this, vmm
    {
      Inv(vmm.View(), tables, home, cr3, process)
    }

    /** The pages that the fault handler and the heap map: a page of physical memory is taken
        and mapped at `va` (vmm.c:53, 473-480). */
    method MapFreshPage(va: nat, attr: Attr) returns (starved: bool, ghost st1: State, page: nat)
      requires Running() && Private(PageAround(va)) && attr == PageRights(PageAround(va))
      requires PageAround(va) < USER_END ==> Covers(Blocks(vmm.View(), process), PageAround(va), COMMIT)
      modifies this`tables, this`home, vmm
      ensures Running() && Blocks(vmm.View(), process) == Blocks(old(vmm.View()), process)
      ensures starved <==> PageCount(Free(old(vmm.View()))) < 1 + Missing(old(tables), cr3, 4, 1, va)
      ensures starved ==> TablesOnly(old(vmm.View()), old(tables), vmm.View(), tables, cr3)
      ensures starved ==> PageCount(Free(vmm.View())) == 0
      ensures !starved ==>
        PageCount(Free(vmm.View())) + 1 + Missing(old(tables), cr3, 4, 1, va) == PageCount(Free(old(vmm.View())))
      ensures !starved ==>
        FrameMapped(old(vmm.View()), old(tables), old(home), st1, vmm.View(), tables, home, cr3, va, page, attr)
      ensures !starved ==> RightsAt(tables, cr3, va) == Some(attr)
    {
      hide RightsAt, RunRights, PageRights, Sound, FramesOwned, SmallPages, Guarded, Committed, Partition, Covers,
           PageTaken, PageMapped, PagesTaken, RunMapped, MappingAllowed, Layout, PageCount, OnlyList, Private, Span,
           Missing, TableStep, TablesOnly;
      ghost var st, t, home0 := vmm.View(), tables, home;
      page := TakeFreePage();
      st1 := vmm.View();
      if page == 0 {
        NothingDone(st, t, home, cr3);
        return true, st1, 0;
      }
      TakenKeepsInv(st, t, home, st1, cr3, process, page);
      FreshReady(st, t, st1, cr3, va, page);
      ghost var done;
      starved, done := VirtualMapping(page, va, 1, 0, attr);
      if starved {
        TablesKeepInv(st1, t, home0, vmm.View(), tables, home, cr3, process, 3);
        TablesOnlyTrans(st, t, st1, t, vmm.View(), tables, cr3);
      } else {
        FrameMappedKeepsInv(st, t, home0, st1, vmm.View(), tables, home, cr3, process, va, page);
      }
    }

    /** The search of the page-fault handler for a committed block (vmm.c:45-57). */
    method InCommittedBlock(va: nat) returns (found: bool)
      requires Running()
      ensures found == Covers(Blocks(vmm.View(), process), va, COMMIT)
    {
      hide Structured, Valid, Tree, TablesHeld, FramesOwned, SmallPages, Guarded, Committed, Partition, AllPlaced,
           Layout;
      ghost var st := vmm.View();
      ghost var s := Blocks(st, process);
      ghost var ps := vmm.lists[Vmma(process)];
      BlocksPlaced(st, tables, home, cr3, process);
      WalkAt(st, Vmma(process), 0);
      var node := vmm.heads[Vmma(process)];
      ghost var i := 0;
      while node != 0
        invariant i <= |ps| && node == (if i == |ps| then 0 else ps[i])
        invariant i < |ps| ==> ps[i] > 0
        invariant forall j :: 0 <= j < i ==> !(s[j].Has(va) && s[j].kind == COMMIT)
        decreases |ps| - i
      {
        AtNode(st, Vmma(process), i);
        var pmm := vmm.mem[node];
        if pmm.addr <= va && pmm.addr + pmm.size > va && pmm.kind == COMMIT {
          assert s[i].Has(va);
          return true;
        }
        node := pmm.next;
        i := i + 1;
      }
      return false;
    }

    /** INT0E. */
    method PageFault(va: nat) returns (outcome: Outcome)
      requires Running()
      modifies this`tables, this`home, vmm
      ensures Running() && Blocks(vmm.View(), process) == Blocks(old(vmm.View()), process)
      ensures FaultDone(old(vmm.View()), old(tables), old(home), vmm.View(), tables, home, cr3, process, va, outcome)
      ensures outcome == Served ==>
        RightsAt(tables, cr3, va) == Some(Attr(true, !InLinear(va), false))
    {
      hide RightsAt, Sound, FramesOwned, SmallPages, Guarded, Committed, Partition, Covers, PageMapped, Layout,
           PageCount, OnlyList, Private, Span, Missing, TablesOnly, FrameMapped, FaultDone;
      ghost var st, t, home0 := vmm.View(), tables, home;
      if va >= LINEAR {
        if va < HEAP {
          var starved := LinearFault(va);
          LinearFaultDone(st, t, home0, vmm.View(), tables, home, cr3, process, va, starved);
          if !starved { LinearFaultMeaning(st, t, home0, vmm.View(), tables, home, cr3, process, va); }
          return if starved then Starved else Served;
        }
      }
      if va >= 0x100 && va < USER_END {
        var found := InCommittedBlock(va);
        if found {
          BlocksPlaced(st, t, home, cr3, process);
          CommittedPage(Blocks(st, process), va);
          var starved, st1, page := MapFreshPage(va, Attr(true, true, false));
          UserFaultDone(st, t, home0, st1, vmm.View(), tables, home, cr3, process, va, page, starved);
          return if starved then Starved else Served;
        }
      } else {
        OutsideUser(Blocks(st, process), va);
      }
      PanicDone(st, t, home, cr3, process, va);
      return Panicked;
    }

    /** An access of the current process to `va`, in the private page `x`: it faults exactly if
        the page is not mapped. */
    method Access(va: nat, x: nat) returns (outcome: Outcome)
      requires Running() && Private(x)
      modifies this`tables, this`home, vmm
      ensures Running() && Blocks(vmm.View(), process) == Blocks(old(vmm.View()), process)
      ensures AccessDone(old(vmm.View()), old(tables), old(home), vmm.View(), tables, home, cr3, process, va, x,
        outcome)
    {
      hide Inv, Private, Mapped, FaultDone, Layout, Walk, Translate, RightsAt, Valid, PageCleared, BaseOf, PageAround;
      ghost var st, t := vmm.View(), tables;
      InvFacts(st, t, home, cr3, process);
      var slot := SearchPageEntry(x);
      if slot.Some? {
        SlotMaps(st, t, home, cr3, process, x, slot.value);
        return Served;
      }
      NotMapped(st, t, cr3, x);
      outcome := PageFault(va);
    }

    /** A fault in the linear window (vmm.c:33-41). */
    method LinearFault(va: nat) returns (starved: bool)
      requires Running() && InLinear(va)
      modifies this`tables, this`home, vmm
      ensures Running() && Blocks(vmm.View(), process) == Blocks(old(vmm.View()), process)
      ensures starved <==> PageCount(Free(old(vmm.View()))) < Missing(old(tables), cr3, 4, 2, LargePage(va))
      ensures starved ==> TablesOnly(old(vmm.View()), old(tables), vmm.View(), tables, cr3)
      ensures !starved ==> PageMapped(old(vmm.View()), old(tables), old(home), vmm.View(), tables, home, cr3,
                                      LargePage(va), 2, LinearPage(va), Attr(true, false, false))
    {
      hide RightsAt, RunRights, Sound, FramesOwned, SmallPages, Guarded, Committed, Partition, PageMapped, PagesTaken,
           RunMapped, MappingAllowed, Layout, PageCount, OnlyList, Span, Missing, TableStep, TablesOnly, LargePage,
           LinearPage;
      ghost var st, t, home0 := vmm.View(), tables, home;
      LinearRounding(va);
      LinearReady(t, cr3, va);
      ghost var done;
      starved, done := VirtualMapping(LinearPage(va), LargePage(va), 1, 1, Attr(true, false, false));
      if starved {
        TablesKeepInv(st, t, home0, vmm.View(), tables, home, cr3, process, 2);
      } else {
        LinearMappedKeepsInv(st, t, home0, vmm.View(), tables, home, cr3, process, va);
      }
    }

    // ------------------------------------------------------------ typed allocation

    /** vmm_uncommit on user pages, which are 4K pages: the frames of the mapped pages are
        freed and their entries cleared. */
    method Uncommit(addr: nat, pageCount: nat) returns (starved: bool)
      requires Running() && addr % PAGE == 0 && addr + pageCount * PAGE <= USER_END
      modifies this`tables, vmm
      ensures starved <==> AnyMapped(old(tables), cr3, addr, pageCount) && !NodeRoom(old(vmm.View()))
      ensures !starved ==> Running()
      ensures !starved ==>
        UncommitDone(old(vmm.View()), old(tables), vmm.View(), tables, cr3, process, addr, pageCount)
      ensures !starved ==> UncommitSpares(old(vmm.View()), old(tables), vmm.View(), tables, cr3, addr, pageCount)
    {
      hide Sound, FramesOwned, SmallPages, Guarded, Committed, Partition, Covers, Layout, PageCleared, Uncommitted,
           NodeRoom, AnyMapped, UncommitSpares, Mapped;
      ghost var st, t := vmm.View(), tables;
      UncommittedNone(st, t, cr3, addr);
      NoneMapped(st, t, cr3, addr);
      starved := false;
      var i := 0;
      while i < pageCount
        invariant i <= pageCount && Running()
        invariant AnyMapped(t, cr3, addr, i) ==> NodeRoom(st)
        invariant UncommitSpares(st, t, vmm.View(), tables, cr3, addr, i)
        invariant UncommitDone(st, t, vmm.View(), tables, cr3, process, addr, i)
      {
        ghost var st1, t1 := vmm.View(), tables;
        PagesBelow(addr, i, pageCount);
        NextPage(st, t, st1, t1, cr3, addr, i, pageCount);
        starved := UncommitPage(addr + i * PAGE);
        if starved {
          return;
        }
        UncommittedNext(st, t, st1, t1, vmm.View(), tables, cr3, addr, i);
        SparesNext(st, t, st1, t1, vmm.View(), tables, cr3, addr, i);
        i := i + 1;
      }
    }

    /** One iteration of vmm_uncommit. */
    method UncommitPage(va: nat) returns (starved: bool)
      requires Running() && Private(va)
      modifies this`tables, vmm
      ensures starved <==> Mapped(old(tables), cr3, va) && !NodeRoom(old(vmm.View()))
      ensures !starved ==> Running()
      ensures !starved && Mapped(old(tables), cr3, va) ==> Free(vmm.View()) != []
      ensures !starved ==> PageCleared(old(vmm.View()), old(tables), vmm.View(), tables, cr3, va)
      ensures !starved ==> Vmma(process) in old(vmm.View()).lists && Vmma(process) in vmm.View().lists
      ensures !starved ==> vmm.View().lists[Vmma(process)] == old(vmm.View()).lists[Vmma(process)]
      ensures !starved ==> Blocks(vmm.View(), process) == Blocks(old(vmm.View()), process)
    {
      hide Inv, Sound, Layout, PageCleared, BaseOf, Span, BlockAdded, Addable, Private, Walk, SetEntry,
           Valid, NodeRoom, Translate;
      ghost var st, t := vmm.View(), tables;
      InvFacts(st, t, home, cr3, process);
      var slot := SearchPageEntry(va);
      if slot.None? {
        NotMapped(st, t, cr3, va);
        return false;
      }
      var s := slot.value;
      SlotMaps(st, t, home, cr3, process, va, s);
      var frame := BaseOf(tables[s.frame][s.index], 1) + va % PAGE;
      starved := vmm.FreePhysical(frame, 1);
      if starved {
        return;
      }
      ClearDone(st, t, home, vmm.View(), cr3, process, va, s);
      tables := SetEntry(tables, s.frame, s.index, 0);
      FreedSome(st, vmm.View(), Frame(frame));
    }

    /** vmm_alloc on the blocks of the process (virt != 0). */
    method TypedAlloc(hint: nat, pageCount: nat, kind: nat) returns (reply: Reply)
      requires Running()
      modifies this`tables, vmm
      ensures !reply.OutOfNodes? ==> Running()
      ensures TypedDone(old(vmm.View()), old(tables), vmm.View(), tables, cr3, process, hint, pageCount, kind, reply)
    {
      hide Sound, Structured, Valid, FramesOwned, SmallPages, Guarded, Committed, Partition, Covers, Layout, AllPlaced,
           Uncommitted, AlignUp, TurnDone, TurnStarves;
      ghost var st, t := vmm.View(), tables;
      ghost var s := Blocks(st, process);
      ghost var ps := vmm.lists[Vmma(process)];
      var addr := From(hint);
      if pageCount == 0 {
        return Returned(addr, 0);
      }
      if kind > 4 {
        return Returned(0, 1);
      }
      BlocksPlaced(st, tables, home, cr3, process);
      WalkAt(st, Vmma(process), 0);
      var node := vmm.heads[Vmma(process)];
      ghost var i := 0;
      ghost var least := if Wanted(kind).Some? then pageCount else 0;
      while node != 0
        invariant vmm.View() == st && tables == t && Running()
        invariant i <= |ps| && node == (if i == |ps| then 0 else ps[i])
        invariant i < |ps| ==> ps[i] > 0
        invariant forall j :: 0 <= j < i ==> !Fits(s[j], addr, least, 1, Wanted(kind))
        decreases |ps| - i
      {
        AtNode(st, Vmma(process), i);
        var r := vmm.mem[node];
        AlignOne(if r.addr < addr then addr else r.addr);
        var allocAddr := if r.addr < addr then addr else r.addr;
        if r.addr + r.size > allocAddr {
          var allocSize := (r.addr + r.size - allocAddr) / PAGE;
          if Wanted(kind).None? || (r.kind == Wanted(kind).value && allocSize >= pageCount) {
            FirstFitIs(s, addr, least, 1, Wanted(kind), i);
            reply := ServeFrom(node, i, hint, pageCount, kind);
            return;
          }
        }
        node := r.next;
        i := i + 1;
      }
      FirstFitIs(s, addr, least, 1, Wanted(kind), i);
      return Returned(0, 1);
    }

    /** The turns of the loop from the first that serves the request on. The second one, if
        the first kept its block, starts below the next block, at its first page. */
    method ServeFrom(node: Ptr, ghost i: nat, hint: nat, pageCount: nat, kind: nat) returns (reply: Reply)
      requires Running() && pageCount > 0 && kind <= 4
      requires Vmma(process) in vmm.lists && i < |vmm.lists[Vmma(process)]| && node == vmm.lists[Vmma(process)][i]
      requires i == Serving(Blocks(vmm.View(), process), From(hint), pageCount, kind)
      modifies this`tables, vmm
      ensures !reply.OutOfNodes? ==> Running()
      ensures TypedDone(old(vmm.View()), old(tables), vmm.View(), tables, cr3, process, hint, pageCount, kind, reply)
    {
      hide Inv, Partition, Layout, AllPlaced, TurnDone, TurnStarves, Serving, ServingTurn, From, PagesServed, FitAt,
           Structured, Valid, TypedDone, Least, InBlock, SecondAt;
      ghost var st, t := vmm.View(), tables;
      ghost var s := Blocks(st, process);
      InvParts(st, t, home, cr3, process);
      FromAligned(hint);
      ServingFacts(s, From(hint), pageCount, kind);
      AtNode(st, Vmma(process), i);
      var r := vmm.mem[node];
      var addr := if r.addr < From(hint) then From(hint) else r.addr;
      var n := Least((r.addr + r.size - addr) / PAGE, pageCount);
      if n < pageCount && r.kind == kind {
        if r.next == 0 {
          LastTurn(s, From(hint), pageCount, kind);
          TurnFails(st, t, cr3, process, hint, pageCount, kind);
          return Returned(0, 1);
        }
        SecondTurn(s, From(hint), pageCount, kind);
        reply := ServeNext(r.next, i + 1, hint, pageCount, kind, addr + n, pageCount - n);
        return;
      }
      FirstTurn(s, From(hint), pageCount, kind);
      var starved := ServeTurn(node, i, addr, n, kind);
      TurnAnswers(st, t, vmm.View(), tables, cr3, process, hint, pageCount, kind, Turn(i, addr, n, pageCount - n),
                  starved);
      if starved {
        return OutOfNodes;
      }
      return if n < pageCount then Strayed(addr + n) else Returned((addr + n - pageCount) % WORD64, 0);
    }

    /** The turn after the one that kept its block: it serves the `left` pages that remain, or
        as many of them as its block has. */
    method ServeNext(node: Ptr, ghost i: nat, ghost hint: nat, pageCount: nat, kind: nat, cursor: nat, left: nat)
      returns (reply: Reply)
      requires Running() && pageCount > 0 && kind <= 4
      requires Vmma(process) in vmm.lists && i < |vmm.lists[Vmma(process)]| && node == vmm.lists[Vmma(process)][i]
      requires SecondAt(Blocks(vmm.View(), process), From(hint), pageCount, kind, i, cursor, left)
      modifies this`tables, vmm
      ensures !reply.OutOfNodes? ==> Running()
      ensures TypedDone(old(vmm.View()), old(tables), vmm.View(), tables, cr3, process, hint, pageCount, kind, reply)
    {
      hide Inv, Partition, Layout, AllPlaced, TurnDone, TurnStarves, ServingTurn, From, Structured, Valid, TypedDone;
      ghost var st, t := vmm.View(), tables;
      InvParts(st, t, home, cr3, process);
      AtNode(st, Vmma(process), i);
      var r := vmm.mem[node];
      var addr := if r.addr < cursor then cursor else r.addr;
      var n := Least((r.addr + r.size - addr) / PAGE, left);
      var starved := ServeTurn(node, i, addr, n, kind);
      TurnAnswers(st, t, vmm.View(), tables, cr3, process, hint, pageCount, kind, Turn(i, addr, n, left - n), starved);
      if starved {
        return OutOfNodes;
      }
      return if n < left then Strayed(addr + n) else Returned((addr + n - pageCount) % WORD64, 0);
    }

    /** One turn: the block is split and the run in it retyped (vmm.c:269-316). */
    method ServeTurn(node: Ptr, ghost i: nat, at: nat, n: nat, kind: nat) returns (starved: bool)
      requires Running() && kind <= 4
      requires Vmma(process) in vmm.lists && i < |vmm.lists[Vmma(process)]| && node == vmm.lists[Vmma(process)][i]
      requires InBlock(Blocks(vmm.View(), process), i, at, n)
      requires Wanted(kind).Some? ==> Blocks(vmm.View(), process)[i].kind == Wanted(kind).value
      modifies this`tables, vmm
      ensures starved <==> TurnStarves(old(vmm.View()), old(tables), cr3, process, i, at, n, kind)
      ensures !starved ==> Running()
      ensures !starved ==>
        TurnDone(old(vmm.View()), old(tables), vmm.View(), tables, cr3, process, i, at, n, kind)
    {
      hide Inv, Valid, Structured, Partition, Layout, AllPlaced, Uncommitted, TurnDone, UserStep, Retype, RetypeStarves,
           TurnStarves, UncommitSpares, AnyMapped, NodeRoom;
      ghost var st, t := vmm.View(), tables;
      ghost var s := Blocks(st, process);
      InvParts(st, t, home, cr3, process);
      RunInUser(s, i, at, n);
      AtNode(st, Vmma(process), i);
      UncommittedNone(st, t, cr3, at);
      NoneMapped(st, t, cr3, at);
      var r := vmm.mem[node];
      if r.kind == kind {
        KeptDone(st, t, cr3, process, i, at, n, kind);
        KeptNeverStarves(st, t, cr3, process, i, at, n, kind);
        return false;
      }
      var blkType := NewKind(kind, r.kind);
      if r.kind == COMMIT && (kind == UNCOMMIT || kind == FREE) {
        starved := Uncommit(at, n);
        if starved {
          UncommitStarves(st, t, cr3, process, i, at, n, kind);
          return;
        }
      }
      ghost var st1, t1 := vmm.View(), tables;
      InvParts(st1, t1, home, cr3, process);
      TurnStarvesIff(st, t, st1, t1, cr3, process, i, at, n, kind);
      starved := vmm.RetypeRun(Vmma(process), node, i, at, n * PAGE, blkType);
      if !starved {
        RetypeDone(st, t, home, st1, t1, vmm.View(), cr3, process, i, at, n, kind);
      }
    }

    /** virtual_alloc for the current process, in the kernel. */
    method VirtualAlloc(hint: nat, pageCount: nat, kind: nat) returns (reply: Reply)
      requires Running() && hint < WORD64 && pageCount < WORD64
      modifies this`tables, vmm
      ensures !reply.OutOfNodes? ==> Running()
      ensures RequestDone(old(vmm.View()), old(tables), vmm.View(), tables, cr3, process, hint, pageCount, kind, reply)
    {
      hide Inv, Layout, From, TypedDone;
      if (hint + pageCount * PAGE) % WORD64 > USER_END {
        return Returned(0, WORD64 - 1);
      }
      reply := TypedAlloc(hint, pageCount, kind);
    }
  }
}
