/** Whole runs of the memory manager: its start, and what every sequence of page faults,
    virtual_alloc calls and heap growth keeps. */
module KernelRuns {
  import opened Layouts
  import opened BlockNodes
  import opened ListSteps
  import opened AllocatorState
  import opened AllocatorTheorems
  import opened PageAllocator
  import opened PageTables
  import opened FrameOwnership
  import opened AddressSpace
  import opened AddressSpaceTheorems
  import opened DemandPaging

  // ---------------------------------------------------------------- the boot tables

  /** Where the boot loader's root table, its table of 512G and its four page directories lie
      (PAGING of the system table, core.h:34, which lies at address 0). */
  const ROOT: nat := 0x1000
  const PDPT: nat := 0x2000
  const FIRST_PD: nat := 0x3000

  function DirectoryAt(n: nat): nat { FIRST_PD + n * PAGE }

  /** Entry `j` of directory `n`: a writable 2M page mapped to its own address. */
  function LargeEntry(n: nat, j: nat): nat { (n * ENTRIES + j) * 0x20_0000 + 0x83 }

  function Directory(n: nat): (s: seq<nat>)
    ensures |s| == ENTRIES
  {
    seq(ENTRIES, j requires 0 <= j < ENTRIES => LargeEntry(n, j))
  }

  function RootTable(): (s: seq<nat>)
    ensures |s| == ENTRIES
  {
    EmptyTable()[256 := PDPT + 3]
  }

  function LowTable(): (s: seq<nat>)
    ensures |s| == ENTRIES
  {
    EmptyTable()[0 := DirectoryAt(0) + 3][1 := DirectoryAt(1) + 3][2 := DirectoryAt(2) + 3][3 := DirectoryAt(3) + 3]
  }

  /** The tables the kernel starts with (EFI/src/main.c:675-689): the first 4G of the linear
      window; the entry of the user half has been cleared (main.c:30). */
  function BootTables(): Tables {
    map[ROOT := RootTable(), PDPT := LowTable(),
        DirectoryAt(0) := Directory(0), DirectoryAt(1) := Directory(1),
        DirectoryAt(2) := Directory(2), DirectoryAt(3) := Directory(3)]
  }

  function BootHome(): map<nat, Home> {
    map[ROOT := Home(4, 0), PDPT := Home(3, 256),
        DirectoryAt(0) := Home(2, 0x2_0000), DirectoryAt(1) := Home(2, 0x2_0001),
        DirectoryAt(2) := Home(2, 0x2_0002), DirectoryAt(3) := Home(2, 0x2_0003)]
  }

  lemma LargeEntryFields(n: nat, j: nat)
    requires n < 4 && j < ENTRIES
    ensures var e := LargeEntry(n, j);
      Present(e) && Huge(e) && BaseOf(e, 2) == (n * ENTRIES + j) * 0x20_0000 && AttrOf(e) == KERNEL_PAGE
  {
    var pa := (n * ENTRIES + j) * 0x20_0000;
    DivModUnique(pa, (n * ENTRIES + j) * ENTRIES, 0, PAGE);
    DivModUnique(pa, n * ENTRIES + j, 0, 0x20_0000);
    LowBits(pa, 0x83);
    BaseBits(pa, 0x83, 2);
    HighBit(pa + 0x83, false);
  }

  lemma PointerFields(page: nat)
    requires page % PAGE == 0 && page < LIMIT
    ensures var e := page + 3; Present(e) && !Huge(e) && AddrOf(e) == page && AttrOf(e) == KERNEL_PAGE
  {
    LowBits(page, 3);
    BaseBits(page, 3, 1);
    HighBit(page + 3, false);
  }

  /** The entries of the boot tables. */
  lemma BootEntries()
    ensures var t := BootTables();
      && t.Keys == {ROOT, PDPT, DirectoryAt(0), DirectoryAt(1), DirectoryAt(2), DirectoryAt(3)}
      && t[ROOT] == RootTable() && t[PDPT] == LowTable()
      && forall n :: 0 <= n < 4 ==> DirectoryAt(n) in t && t[DirectoryAt(n)] == Directory(n)
  {
    hide RootTable, LowTable, Directory;
  }

  lemma BootTree()
    ensures Tree(BootTables(), BootHome(), ROOT)
  {
    var t, home := BootTables(), BootHome();
    BootEntries();
    ZeroNotPresent();
    forall f | f in t
      ensures |t[f]| == ENTRIES && f % PAGE == 0 && 1 <= home[f].level <= 4
    {
    }
    forall f, i | f in t && 0 <= i < |t[f]| && Points(t, home, f, i)
      ensures var a := AddrOf(t[f][i]); a in t && home[a] == Home(home[f].level - 1, home[f].prefix * ENTRIES + i)
    {
      BootPointer(f, i);
    }
  }

  lemma BootPointer(f: nat, i: nat)
    requires f in BootTables() && i < ENTRIES && Points(BootTables(), BootHome(), f, i)
    ensures var t, home := BootTables(), BootHome();
      var a := AddrOf(t[f][i]); a in t && home[a] == Home(home[f].level - 1, home[f].prefix * ENTRIES + i)
  {
    var t, home := BootTables(), BootHome();
    BootEntries();
    ZeroNotPresent();
    if f == ROOT {
      assert EmptyTable()[i] == 0;
      PointerFields(PDPT);
    } else if f == PDPT {
      assert EmptyTable()[i] == 0;
      PointerFields(DirectoryAt(i));
    } else {
      var n := (f - FIRST_PD) / PAGE;
      assert t[f] == Directory(n);
      LargeEntryFields(n, i);
    }
  }

  lemma PrivateIndex(x: nat)
    requires Private(PageAround(x))
    ensures Index(x, 4) != 256
  {
    var z := x % SPACE;
    var y := PageAround(x);
    assert y <= z < y + PAGE;
    if y < USER_END { assert z < USER_END; }
  }

  lemma LinearIndex(x: nat)
    requires InLinear(x)
    ensures Index(x, 4) == 256
  {
    var w := x - LINEAR;
    DivModUnique(x, LINEAR / SPACE, USER_END + w, SPACE);
    DivModUnique(USER_END + w, 256, w, Span(4));
  }

  /** The boot tables map no private page and hold no 1G page. */
  lemma BootWalks(x: nat)
    ensures Private(PageAround(x)) ==> Walk(BootTables(), ROOT, 4, x).None? && NoLarger(BootTables(), ROOT, 4, 1, x)
    ensures InLinear(x) ==> NoLarger(BootTables(), ROOT, 4, 2, x)
  {
    hide Index, PageAround, Private, InLinear, LowTable, Directory;
    BootEntries();
    ZeroNotPresent();
    if Private(PageAround(x)) {
      PrivateIndex(x);
      assert EmptyTable()[Index(x, 4)] == 0;
    }
    if InLinear(x) {
      LinearIndex(x);
      PointerFields(PDPT);
      BootLow(x);
    }
  }

  lemma BootLow(x: nat)
    ensures NoLarger(BootTables(), PDPT, 3, 2, x)
  {
    hide Index, Directory, RootTable;
    BootEntries();
    ZeroNotPresent();
    var i := Index(x, 3);
    assert EmptyTable()[i] == 0;
    if i < 4 { PointerFields(DirectoryAt(i)); }
  }

  /** The indices of an address of the linear window, by its offset. */
  lemma LinearIndices(x: nat, w: nat)
    requires InLinear(x) && w == x - LINEAR
    ensures Index(x, 4) == 256 && Index(x, 3) == w / 0x4000_0000 && Index(x, 2) == w / 0x20_0000 % ENTRIES
    ensures x % Span(2) == w % 0x20_0000
  {
    LinearIndex(x);
    DivModUnique(x, LINEAR / SPACE, USER_END + w, SPACE);
    DivModUnique(USER_END + w, 0x2_0000 + w / 0x4000_0000, w % 0x4000_0000, 0x4000_0000);
    DivModUnique(0x2_0000 + w / 0x4000_0000, 256, w / 0x4000_0000, ENTRIES);
    DivModUnique(USER_END + w, 0x400_0000 + w / 0x20_0000, w % 0x20_0000, 0x20_0000);
    ModShift(w / 0x20_0000);
    DivModUnique(x, LINEAR / 0x20_0000 + w / 0x20_0000, w % 0x20_0000, 0x20_0000);
  }

  lemma ModShift(q: nat)
    ensures (0x400_0000 + q) % ENTRIES == q % ENTRIES
  {
    DivModUnique(0x400_0000 + q, 0x2_0000 + q / ENTRIES, q % ENTRIES, ENTRIES);
  }

  /** The boot tables map the first 4G of the linear window, each address to its offset, for the
      kernel only, and nothing else of the window. */
  lemma BootLinear(x: nat)
    requires InLinear(x)
    ensures Translate(BootTables(), ROOT, x) == if x < LINEAR + 0x1_0000_0000 then Some(x - LINEAR) else None
    ensures RightsAt(BootTables(), ROOT, x) == if x < LINEAR + 0x1_0000_0000 then Some(KERNEL_PAGE) else None
    ensures Granted(BootTables(), ROOT, 4, 2, x) == KERNEL_PAGE
  {
    hide Index, LowTable, Directory, LargeEntry, AttrOf, BaseOf, Span;
    var w := x - LINEAR;
    var n, j := w / 0x4000_0000, w / 0x20_0000 % ENTRIES;
    BootEntries();
    ZeroNotPresent();
    hide BootTables;
    LinearIndices(x, w);
    PointerFields(PDPT);
    LowEntry(n);
    if n < 4 {
      DirectoryEntry(n, j);
      LargeEntryFields(n, j);
      WholeOffset(w, n, j);
    }
  }

  lemma LowEntry(i: nat)
    requires i < ENTRIES
    ensures if i < 4 then LowTable()[i] == DirectoryAt(i) + 3 else LowTable()[i] == 0
    ensures i < 4 ==>
      && Present(LowTable()[i]) && !Huge(LowTable()[i]) && AddrOf(LowTable()[i]) == DirectoryAt(i)
      && AttrOf(LowTable()[i]) == KERNEL_PAGE
  {
    assert EmptyTable()[i] == 0;
    if i < 4 { PointerFields(DirectoryAt(i)); }
  }

  lemma DirectoryEntry(n: nat, j: nat)
    requires j < ENTRIES
    ensures Directory(n)[j] == LargeEntry(n, j)
  {
  }

  lemma WholeOffset(w: nat, n: nat, j: nat)
    requires n == w / 0x4000_0000 && j == w / 0x20_0000 % ENTRIES
    ensures (n * ENTRIES + j) * 0x20_0000 + w % 0x20_0000 == w
  {
    Split2M(w);
  }

  lemma BootUnmapped()
    ensures SmallPages(BootTables(), ROOT) && forall x: nat :: !Mapped(BootTables(), ROOT, x)
    ensures Guarded(BootTables(), ROOT)
  {
    hide NoLarger, Walk, BootTables, Private, InLinear, Granted, RightsAt;
    forall x: nat
      ensures Private(PageAround(x)) ==> NoLarger(BootTables(), ROOT, 4, 1, x)
      ensures InLinear(x) ==> NoLarger(BootTables(), ROOT, 4, 2, x)
      ensures !Mapped(BootTables(), ROOT, x)
    {
      BootWalks(x);
      if Private(x) { PrivateAround(x); }
    }
    forall x: nat | InLinear(x)
      ensures Granted(BootTables(), ROOT, 4, 2, x) == KERNEL_PAGE
      ensures Translate(BootTables(), ROOT, x).Some? ==>
        Translate(BootTables(), ROOT, x) == Some(x - LINEAR) && RightsAt(BootTables(), ROOT, x) == Some(KERNEL_PAGE)
    {
      BootLinear(x);
    }
    forall x: nat, y: nat | Private(y) && y == PageAround(x)
      ensures Granted(BootTables(), ROOT, 4, 1, x) == ALL
    {
      BootGranted(x);
    }
  }

  /** There is no pointer above a private page yet. */
  lemma BootGranted(x: nat)
    requires Private(PageAround(x))
    ensures Granted(BootTables(), ROOT, 4, 1, x) == ALL
  {
    hide Index, PageAround, Private, LowTable, Directory;
    BootEntries();
    ZeroNotPresent();
    PrivateIndex(x);
    assert EmptyTable()[Index(x, 4)] == 0;
  }

  // ---------------------------------------------------------------- start

  /** The low megabyte is neither free nor made of slab pages. */
  lemma LowHeld(st: State, regions: seq<Region>, n: nat, f: nat)
    requires Valid(st) && Collected(st, regions, n) && f % PAGE == 0 && f + PAGE <= 0x100000
    ensures Held(st, f)
  {
    hide Structured, Layout, IsFree, InSlab;
    FreeFacts(st);
    var s := Free(st);
    forall i | 0 <= i < |s|
      ensures s[i].ApartFrom(Frame(f))
    {
      BlockStartFree(st, i);
      assert InUsable(regions[..n], s[i].addr);
    }
    if f in st.slabs {
      SlabHolds(st.slabs, f);
    }
  }

  lemma BlockStartFree(st: State, i: nat)
    requires Canonical(Free(st)) && AllFree(Free(st)) && i < |Free(st)|
    ensures IsFree(st, Free(st)[i].addr)
  {
    hide Layout;
    assert Free(st)[i].Has(Free(st)[i].addr);
  }

  lemma SlabHolds(slabs: seq<nat>, f: nat)
    requires f in slabs
    ensures InSlab(slabs, f)
  {
    var j :| 0 <= j < |slabs| && slabs[j] == f;
  }

  lemma BootHeld(st: State, st': State, regions: seq<Region>, n: nat)
    requires Valid(st) && Collected(st, regions, n) && SlabsGrew(st, st') && Free(st') == FreeAfter(st, st'.slabs)
    ensures TablesHeld(st', BootTables())
  {
    hide Valid, Collected, Held, SlabsGrew, FreeAfter, Layout;
    BootEntries();
    hide BootTables;
    forall f | f in BootTables()
      ensures Held(st', f)
    {
      LowHeld(st, regions, n, f);
      HeldUnchanged(st, st', f);
    }
  }

  lemma BootInv(st: State, st': State, regions: seq<Region>, process: nat)
    requires Valid(st) && Collected(st, regions, |regions|) && SlabsGrew(st, st') &&
      Free(st') == FreeAfter(st, st'.slabs)
    requires Valid(st') && st'.pending == 0 && Vmma(process) in st'.lists
    requires Blocks(st', process) == [Range(0x1000, 0x7FFFFFFFF * PAGE, FREE)]
    ensures Inv(st', BootTables(), BootHome(), ROOT, process)
  {
    hide Valid, Collected, SlabsGrew, FreeAfter, Layout, Tree, TablesHeld, BootTables, BootHome, Mapped, SmallPages,
         Guarded;
    BootTree();
    BootHeld(st, st', regions, |regions|);
    BootUnmapped();
    NewSpaceInv(st', BootTables(), BootHome(), ROOT, process);
  }

  /** The first 4G of the linear window are mapped, each address to its offset; nothing else of
      the window is, and no private page. */
  ghost predicate WindowMapped(t: Tables, root: nat) {
    && (forall x: nat :: x < 0x1_0000_0000 ==> Translate(t, root, LINEAR + x) == Some(x))
    && (forall x: nat :: LINEAR + 0x1_0000_0000 <= x < HEAP ==> Translate(t, root, x).None?)
    && (forall x: nat :: !Mapped(t, root, x))
  }

  lemma BootWindow()
    ensures WindowMapped(BootTables(), ROOT)
  {
    hide BootTables, Translate, Mapped, SmallPages, Guarded, Granted, RightsAt;
    BootUnmapped();
    forall x: nat | InLinear(x)
      ensures Translate(BootTables(), ROOT, x) == if x < LINEAR + 0x1_0000_0000 then Some(x - LINEAR) else None
    {
      BootLinear(x);
    }
  }

  /** setup_memory and the first process on the tables of the boot loader: the kernel runs if
      and only if the first usable region is larger than a page. */
  method Boot(regions: seq<Region>, process: nat) returns (kernel: Kernel?)
    requires RegionsOk(regions)
    ensures kernel != null <==>
      FirstUsable(regions) < |regions| && regions[FirstUsable(regions)].size > PAGE
    ensures kernel != null ==>
      && fresh(kernel) && fresh(kernel.vmm) && kernel.Running() && kernel.process == process
      && PageCount(Free(kernel.vmm.View())) + 2 >= regions[FirstUsable(regions)].size / PAGE
      && Blocks(kernel.vmm.View(), process) == [Range(0x1000, 0x7FFFFFFFF * PAGE, FREE)]
    ensures kernel != null ==> WindowMapped(kernel.tables, kernel.cr3)
  {
    hide Inv, Valid, Collected, Started, Layout, PageCount, FreeAfter, FirstUsable, RegionsOk, Hollow, BootTables,
         BootHome, WindowMapped;
    BootWindow();
    var vmm := new Vmm();
    var hollow := vmm.SetupMemory(regions);
    if hollow {
      return null;
    }
    ghost var st := vmm.View();
    if FirstUsable(regions) < |regions| { SetUpFacts(st, regions, |regions|); }
    if vmm.blockHeap == 0 {
      return null;
    }
    SetUpParts(st, regions);
    var starved := vmm.CreateAddressSpace(process);
    SpareKept(st, vmm.View());
    BootInv(st, vmm.View(), regions, process);
    kernel := new Kernel(vmm, ROOT, process, BootTables(), BootHome());
  }

  lemma SetUpParts(st: State, regions: seq<Region>)
    requires SetUp(st, regions, |regions|)
    ensures Collected(st, regions, |regions|) && st.lists.Keys == {MemoryMap} && NodeRoom(st)
    ensures PageCount(Free(st)) + 1 >= regions[FirstUsable(regions)].size / PAGE
  {
    hide Collected, Layout, PageCount, Valid;
  }

  // ---------------------------------------------------------------- runs

  /** The memory manager's state: the stores of the allocator, and the page tables. */
  datatype World = World(st: State, tables: Tables, home: map<nat, Home>)

  /** What happens to it: a page fault, a virtual_alloc request of the current process, or a
      page more for the kernel's heap. */
  datatype Call =
    | Fault(va: nat)
    | Request(hint: nat, pages: nat, kind: nat)
    | HeapPage(va: nat)
  {
    predicate Sensible() {
      match this
      case Fault(_) => true
      case Request(hint, pages, _) => hint < WORD64 && pages < WORD64
      case HeapPage(va) => USER_END <= PageAround(va) && Private(PageAround(va))
    }
  }

  ghost predicate WorldInv(w: World, root: nat, process: nat) {
    Inv(w.st, w.tables, w.home, root, process)
  }

  /** The uses of the frame `f` exclude each other: free memory, slab page, page table, or the
      frame of one private page, which if it is a user page lies in a committed block. */
  ghost predicate UsedOnce(w: World, root: nat, process: nat, f: nat) {
    && (FrameFree(w.st, f) ==>
        f !in w.st.slabs && f !in w.tables && forall x: nat :: !FrameMappedAt(w.tables, root, x, f))
    && (f in w.st.slabs ==> f !in w.tables && forall x: nat :: !FrameMappedAt(w.tables, root, x, f))
    && (f in w.tables ==> forall x: nat :: !FrameMappedAt(w.tables, root, x, f))
    && (forall x: nat, y: nat :: FrameMappedAt(w.tables, root, x, f) && FrameMappedAt(w.tables, root, y, f) ==> x == y)
    && (forall x: nat :: FrameMappedAt(w.tables, root, x, f) && x < USER_END ==>
          Covers(Blocks(w.st, process), x, COMMIT))
  }

  ghost predicate OneUse(w: World, root: nat, process: nat) {
    forall f: nat :: f % PAGE == 0 ==> UsedOnce(w, root, process, f)
  }

  /** Every private page that is mapped is writable, and open to user code if and only if it lies
      in user space; every mapped address of the linear window stands for its offset, for the
      kernel only. */
  ghost predicate RightsHold(w: World, root: nat) {
    && (forall x: nat :: Mapped(w.tables, root, x) ==>
          RightsAt(w.tables, root, x) == Some(Attr(true, x < USER_END, false)))
    && (forall x: nat :: InLinear(x) && Translate(w.tables, root, x).Some? ==>
          Translate(w.tables, root, x) == Some(x - LINEAR)
          && RightsAt(w.tables, root, x) == Some(Attr(true, false, false)))
  }

  lemma InvRights(w: World, root: nat, process: nat)
    requires WorldInv(w, root, process)
    ensures RightsHold(w, root)
  {
    hide Sound, FramesOwned, SmallPages, Committed, Partition, OpenPaths, Mapped, Translate, RightsAt,
         InLinear, Layout;
  }

  lemma InvOneUse(w: World, root: nat, process: nat)
    requires WorldInv(w, root, process)
    ensures OneUse(w, root, process)
  {
    hide Inv, FrameFree, FrameMappedAt, Layout, Covers;
    forall f: nat | f % PAGE == 0
      ensures UsedOnce(w, root, process, f)
    {
      OneUsePerFrame(w.st, w.tables, w.home, root, process, f);
    }
  }

  /** A request does not return: it runs out of list nodes, or strays after its first turn. */
  ghost predicate RequestStops(st: State, t: Tables, root: nat, process: nat, hint: nat, pages: nat, kind: nat) {
    var s := Blocks(st, process);
    var u := ServingTurn(s, From(hint), pages, kind);
    && (hint + pages * PAGE) % WORD64 <= USER_END && pages > 0 && kind <= 4 && u.block < |s|
    && !(u.left > 0 && s[u.block].kind == kind)
    && (TurnStarves(st, t, root, process, u.block, u.at, u.pages, kind) || Strays(s, From(hint), pages, kind))
  }

  lemma RequestStopsIff(st: State, t: Tables, st': State, t': Tables, root: nat, process: nat, hint: nat, pages: nat,
                        kind: nat, reply: Reply)
    requires RequestDone(st, t, st', t', root, process, hint, pages, kind, reply)
    ensures reply.Returned? <==> !RequestStops(st, t, root, process, hint, pages, kind)
  {
    hide Layout, From, ServingTurn, TurnStarves, TurnDone;
  }

  /** The call does not return: the fault panics, there are fewer free pages than the call needs,
      or the request does not return. */
  ghost predicate Stopped(w: World, call: Call, root: nat, process: nat) {
    match call
    case Fault(va) =>
      if InLinear(va) then PageCount(Free(w.st)) < Missing(w.tables, root, 4, 2, LargePage(va))
      else
        || !(va >= 0x100 && Covers(Blocks(w.st, process), va, COMMIT))
        || PageCount(Free(w.st)) < 1 + Missing(w.tables, root, 4, 1, va)
    case Request(hint, pages, kind) => RequestStops(w.st, w.tables, root, process, hint, pages, kind)
    case HeapPage(va) => PageCount(Free(w.st)) < 1 + Missing(w.tables, root, 4, 1, va)
  }

  /** What a call that returns does. */
  ghost predicate CallDone(w: World, w': World, call: Call, root: nat, process: nat) {
    match call
    case Fault(va) =>
      FaultDone(w.st, w.tables, w.home, w'.st, w'.tables, w'.home, root, process, va, Served)
    case Request(hint, pages, kind) =>
      && w'.home == w.home
      && exists addr: nat, status: nat ::
           RequestDone(w.st, w.tables, w'.st, w'.tables, root, process, hint, pages, kind, Returned(addr, status))
    case HeapPage(va) =>
      && Blocks(w'.st, process) == Blocks(w.st, process)
      && exists st1: State, page: nat ::
           FrameMapped(w.st, w.tables, w.home, st1, w'.st, w'.tables, w'.home, root, va, page,
                       Attr(true, false, false))
  }

  /** The worlds that a sequence of calls leads through. */
  ghost predicate Trace(ws: seq<World>, calls: seq<Call>, root: nat, process: nat) {
    && |ws| == |calls| + 1
    && (forall i :: 0 <= i < |ws| ==>
          WorldInv(ws[i], root, process) && OneUse(ws[i], root, process) && RightsHold(ws[i], root))
    && (forall i, j :: 0 <= i < |calls| && j == i + 1 ==> CallStep(ws[i], ws[j], calls[i], root, process))
  }

  ghost predicate CallStep(w: World, w': World, call: Call, root: nat, process: nat) {
    !Stopped(w, call, root, process) && CallDone(w, w', call, root, process)
  }

  ghost function WorldOf(k: Kernel): World
    reads k, k.vmm
  {
    World(k.vmm.View(), k.tables, k.home)
  }

  /** One call. */
  method Step(k: Kernel, call: Call) returns (stopped: bool)
    requires k.Running() && call.Sensible()
    modifies k`tables, k`home, k.vmm
    ensures stopped <==> Stopped(old(WorldOf(k)), call, k.cr3, k.process)
    ensures !stopped ==> k.Running() && CallDone(old(WorldOf(k)), WorldOf(k), call, k.cr3, k.process)
  {
    hide Inv, FaultDone, RequestDone, FrameMapped, TablesOnly, PageCount, Missing, Layout, Covers, LargePage,
         Private, RightsAt, Granted, RequestStops;
    ghost var w := WorldOf(k);
    match call {
      case Fault(va) =>
        var outcome := k.PageFault(va);
        FaultOutcome(w, WorldOf(k), k.cr3, k.process, va, outcome);
        return outcome != Served;
      case Request(hint, pages, kind) =>
        var reply := k.VirtualAlloc(hint, pages, kind);
        RequestStopsIff(w.st, w.tables, k.vmm.View(), k.tables, k.cr3, k.process, hint, pages, kind, reply);
        return !reply.Returned?;
      case HeapPage(va) =>
        var starved, st1, page := k.MapFreshPage(va, Attr(true, false, false));
        return starved;
    }
  }

  lemma FaultOutcome(w: World, w': World, root: nat, process: nat, va: nat, outcome: Outcome)
    requires FaultDone(w.st, w.tables, w.home, w'.st, w'.tables, w'.home, root, process, va, outcome)
    ensures outcome != Served <==> Stopped(w, Fault(va), root, process)
    ensures outcome == Served ==> CallDone(w, w', Fault(va), root, process)
  {
    hide PageMapped, FrameMapped, TablesOnly, PageCount, Missing, Layout, Covers, LargePage, LinearPage;
  }

  /** Every sequence of calls keeps the invariant and the single use of frames in every state,
      up to the first call that does not return. */
  method Run(k: Kernel, calls: seq<Call>) returns (done: nat, ghost ws: seq<World>)
    requires k.Running() && forall i :: 0 <= i < |calls| ==> calls[i].Sensible()
    modifies k`tables, k`home, k.vmm
    ensures done <= |calls| && Trace(ws, calls[..done], k.cr3, k.process) && ws[0] == old(WorldOf(k))
    ensures done < |calls| ==> Stopped(ws[done], calls[done], k.cr3, k.process)
    ensures done == |calls| ==> k.Running() && ws[done] == WorldOf(k)
  {
    hide Inv, Stopped, CallDone, OneUse, RightsHold;
    ws := [WorldOf(k)];
    done := 0;
    InvOneUse(ws[0], k.cr3, k.process);
    InvRights(ws[0], k.cr3, k.process);
    while done < |calls|
      invariant done <= |calls| && k.Running()
      invariant Trace(ws, calls[..done], k.cr3, k.process) && ws[0] == old(WorldOf(k)) && ws[done] == WorldOf(k)
    {
      var stopped := Step(k, calls[done]);
      if stopped {
        return;
      }
      InvOneUse(WorldOf(k), k.cr3, k.process);
      InvRights(WorldOf(k), k.cr3, k.process);
      TraceNext(ws, calls, k.cr3, k.process, done, WorldOf(k));
      ws := ws + [WorldOf(k)];
      done := done + 1;
    }
  }

  lemma TraceNext(ws: seq<World>, calls: seq<Call>, root: nat, process: nat, n: nat, w: World)
    requires n < |calls| && Trace(ws, calls[..n], root, process)
    requires WorldInv(w, root, process) && OneUse(w, root, process) && RightsHold(w, root)
    requires !Stopped(ws[n], calls[n], root, process) && CallDone(ws[n], w, calls[n], root, process)
    ensures Trace(ws + [w], calls[..n + 1], root, process)
  {
    hide WorldInv, OneUse, RightsHold, Stopped, CallDone;
    var all, done := ws + [w], calls[..n + 1];
    forall i, j | 0 <= i < |done| && j == i + 1
      ensures CallStep(all[i], all[j], done[i], root, process)
    {
      assert all[i] == ws[i] && done[i] == calls[i];
      if i < n {
        assert all[j] == ws[j] && done[i] == calls[..n][i];
      } else {
        assert all[j] == w;
      }
    }
    forall i | 0 <= i < |all|
      ensures WorldInv(all[i], root, process) && OneUse(all[i], root, process) && RightsHold(all[i], root)
    {
      assert i < |ws| ==> all[i] == ws[i];
    }
  }

  // ---------------------------------------------------------------- pages over runs

  /** The request unmaps page `x`. */
  ghost predicate RequestUnmaps(st: State, process: nat, hint: nat, pages: nat, kind: nat, x: nat) {
    var s := Blocks(st, process);
    var u := ServingTurn(s, From(hint), pages, kind);
    u.block < |s| && Unmaps(kind, s[u.block].kind) && InRun(x, u.at, u.pages)
  }

  /** The call is a fault or heap growth at the page, or a request that unmaps it. */
  ghost predicate Touches(w: World, call: Call, process: nat, x: nat) {
    match call
    case Fault(va) => !InLinear(va) && PageAround(va) == x
    case Request(hint, pages, kind) => RequestUnmaps(w.st, process, hint, pages, kind, x)
    case HeapPage(va) => PageAround(va) == x
  }

  lemma CallKeepsPage(w: World, w': World, call: Call, root: nat, process: nat, x: nat)
    requires CallDone(w, w', call, root, process)
    requires Private(x) && !Touches(w, call, process, x)
    ensures Translate(w'.tables, root, x) == Translate(w.tables, root, x)
  {
    hide Inv, Translate, Layout, Covers, Missing, PageCount, RequestUnmaps, RequestDone, FaultDone, FrameMapped;
    PrivateAround(x);
    match call
    case Fault(va) =>
      FaultKeepsPage(w, w', root, process, va, x);
    case Request(hint, pages, kind) =>
      var addr: nat, status: nat :|
        RequestDone(w.st, w.tables, w'.st, w'.tables, root, process, hint, pages, kind, Returned(addr, status));
      RequestKeepsPage(w.st, w.tables, w'.st, w'.tables, root, process, hint, pages, kind, addr, status, x);
    case HeapPage(va) =>
      var st1: State, page: nat :|
        FrameMapped(w.st, w.tables, w.home, st1, w'.st, w'.tables, w'.home, root, va, page, Attr(true, false, false));
      MappedElsewhere(st1, w, w', root, va, page, Attr(true, false, false), x);
  }

  lemma RequestKeepsPage(st: State, t: Tables, st': State, t': Tables, root: nat, process: nat, hint: nat, pages: nat,
                         kind: nat, addr: nat, status: nat, x: nat)
    requires RequestDone(st, t, st', t', root, process, hint, pages, kind, Returned(addr, status))
    requires Private(x) && !RequestUnmaps(st, process, hint, pages, kind, x)
    ensures Translate(t', root, x) == Translate(t, root, x)
  {
    hide Translate, Layout, From, ServingTurn, Retyped, TurnStarves, Held, BacksIn;
    PrivateSmall(x);
  }

  lemma MappedElsewhere(st1: State, w: World, w': World, root: nat, va: nat, page: nat, a: Attr, x: nat)
    requires FrameMapped(w.st, w.tables, w.home, st1, w'.st, w'.tables, w'.home, root, va, page, a)
    requires Private(x) && PageAround(va) != x
    ensures Translate(w'.tables, root, x) == Translate(w.tables, root, x)
  {
    hide Translate, Sound, PagesTaken, NoLarger, Held, PageTaken, OnlyList, RightsAt, Granted;
    PrivateAround(x);
    SamePageIs(x, va);
  }

  lemma FaultKeepsPage(w: World, w': World, root: nat, process: nat, va: nat, x: nat)
    requires FaultDone(w.st, w.tables, w.home, w'.st, w'.tables, w'.home, root, process, va, Served)
    requires Private(x) && (InLinear(va) || PageAround(va) != x)
    ensures Translate(w'.tables, root, x) == Translate(w.tables, root, x)
  {
    hide Translate, Sound, PagesTaken, NoLarger, Held, PageTaken, OnlyList, RightsAt, Granted, Layout, Covers, Missing,
         PageCount, FrameMapped, LargePage, LinearPage;
    if InLinear(va) {
      LinearRounding(va);
      PrivateAround(x);
      LinearNotPrivate(x, x, LargePage(va));
    } else {
      var st1: State, page: nat :|
        FrameMapped(w.st, w.tables, w.home, st1, w'.st, w'.tables, w'.home, root, va, page, Attr(true, true, false));
      MappedElsewhere(st1, w, w', root, va, page, Attr(true, true, false), x);
    }
  }

  /** Over every run a page that no call touches keeps its frame, or stays without one. */
  lemma {:induction false} RunKeepsPage(ws: seq<World>, calls: seq<Call>, root: nat, process: nat, x: nat, n: nat)
    requires Trace(ws, calls, root, process) && Private(x) && n <= |calls|
    requires forall i :: 0 <= i < n ==> !Touches(ws[i], calls[i], process, x)
    ensures Translate(ws[n].tables, root, x) == Translate(ws[0].tables, root, x)
  {
    hide WorldInv, OneUse, RightsHold, Stopped, CallDone, Touches, Translate, Private;
    if n > 0 {
      RunKeepsPage(ws, calls, root, process, x, n - 1);
      CallKeepsPage(ws[n - 1], ws[n], calls[n - 1], root, process, x);
    }
  }
}
