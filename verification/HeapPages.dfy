/** The pages under the heaps: the kernel heap's are mapped one by one (expand_heap of vmm.c),
    a user heap's are committed and get their frames on the first access, until heap_free
    discards them. */
module HeapPages {
  import opened Layouts
  import opened BlockNodes
  import opened ListSteps
  import opened AllocatorState
  import opened PageTables
  import opened FrameOwnership
  import opened AddressSpace
  import opened AddressSpaceTheorems
  import opened DemandPaging
  import opened HeapBlocks

  /** The low 48 bits of the kernel heap's start, and the bytes from there to the end of the
      address space. */
  const HEAP_LOW: nat := 0x8080_0000_0000
  const HEAP_ROOM: nat := 0x7F80_0000_0000

  /** The pages of a heap of `n` pages: those of the kernel heap are mapped; those of a user
      heap are committed, and only the resident ones may be mapped. */
  ghost predicate Paged(k: Kernel, user: bool, base: nat, n: nat, resident: set<nat>)
    reads k, k.vmm
  {
    && k.Running()
    && if user then
         && base % PAGE == 0 && base + n * PAGE <= USER_END
         && RunOf(Blocks(k.vmm.View(), k.process), base, n, COMMIT)
         && OnlyResident(k.tables, k.cr3, base, n, resident)
       else
         && base == HEAP && n * PAGE <= HEAP_ROOM
         && AllMapped(k.tables, k.cr3, n)
  }

  /** A committed range that a process has touched the first page of at most. */
  ghost predicate FreshlyCommitted(k: Kernel, base: nat, n: nat)
    reads k, k.vmm
  {
    && k.Running() && base % PAGE == 0 && base + n * PAGE <= USER_END
    && RunOf(Blocks(k.vmm.View(), k.process), base, n, COMMIT)
    && OnlyResident(k.tables, k.cr3, base, n, {0})
  }

  lemma FreshPaged(k: Kernel, base: nat, n: nat)
    requires FreshlyCommitted(k, base, n)
    ensures Paged(k, true, base, n, {0})
  {
    hide Mapped, Inv, RunOf, OnlyResident, Layout;
  }

  lemma NoPagesPaged(k: Kernel)
    requires k.Running()
    ensures Paged(k, false, HEAP, 0, {})
  {
    hide Mapped, Inv;
  }

  /** Page `p` of a heap that starts at `base`. */
  function HeapPageAt(base: nat, p: nat): nat { base + p * PAGE }

  ghost predicate OnlyResident(t: Tables, root: nat, base: nat, n: nat, resident: set<nat>) {
    forall p: nat, x: nat :: p < n && x == HeapPageAt(base, p) && Mapped(t, root, x) ==> p in resident
  }

  /** Every page of the kernel heap is mapped, writable and closed to user code. */
  ghost predicate AllMapped(t: Tables, root: nat, n: nat) {
    forall p: nat, x: nat :: p < n && x == HeapPageAt(HEAP_LOW, p) ==>
      Mapped(t, root, x) && RightsAt(t, root, x) == Some(Attr(true, false, false))
  }

  /** So is every byte of it. */
  lemma HeapByteRights(t: Tables, root: nat, n: nat, x: nat)
    requires AllMapped(t, root, n) && n * PAGE <= HEAP_ROOM && HEAP <= x < HEAP + n * PAGE
    ensures RightsAt(t, root, x) == Some(Attr(true, false, false))
  {
    hide Rights, Mapped, SamePage, HeapPageAt;
    var p := (x - HEAP) / PAGE;
    var y := HeapPageAt(HEAP_LOW, p);
    PageOfByte(x, n, p);
    assert Mapped(t, root, y) && RightsAt(t, root, y) == Some(Attr(true, false, false));
    SamePageRights(t, root, 4, y, x);
  }

  lemma PageOfByte(x: nat, n: nat, p: nat)
    requires n * PAGE <= HEAP_ROOM && HEAP <= x < HEAP + n * PAGE && p == (x - HEAP) / PAGE
    ensures p < n && SamePage(x, HeapPageAt(HEAP_LOW, p), 1)
  {
    var w := x - HEAP;
    MulGap(n, p, PAGE);
    LowAddress(x, HEAP_LOW + w);
    LowAddress(HEAP_LOW + p * PAGE, HEAP_LOW + p * PAGE);
    PageNumberOf(w, p);
    PageNumberOf(p * PAGE, p);
  }

  lemma LowAddress(x: nat, y: nat)
    requires y < SPACE && (x == y || x == HEAP - HEAP_LOW + y)
    ensures x % SPACE == y
  {
    DivModUnique(x, if x == y then 0 else HEAP / SPACE, y, SPACE);
  }

  lemma PageNumberOf(w: nat, p: nat)
    requires p * PAGE <= w < p * PAGE + PAGE
    ensures (HEAP_LOW + w) / PAGE == HEAP_LOW / PAGE + p
  {
    DivModUnique(HEAP_LOW + w, HEAP_LOW / PAGE + p, w - p * PAGE, PAGE);
  }

  /** The page behind a kernel heap. */
  lemma NextHeapPage(n: nat)
    requires n * PAGE + PAGE <= HEAP_ROOM
    ensures var x := HeapPageAt(HEAP_LOW, n);
      PageAround(HEAP + n * PAGE) == x && Private(x) && x >= USER_END
    ensures forall p: nat :: p < n ==> HeapPageAt(HEAP_LOW, p) != HeapPageAt(HEAP_LOW, n)
  {
    DivModUnique(HEAP + n * PAGE, HEAP / SPACE, HEAP_LOW + n * PAGE, SPACE);
  }

  lemma KernelHalf(p: nat)
    ensures HeapPageAt(HEAP_LOW, p) >= USER_END
  {
  }

  lemma RunningOpen(k: Kernel)
    requires k.Running()
    ensures OpenPages(k.tables, k.cr3)
  {
    hide Sound, FramesOwned, SmallPages, Committed, Partition, OpenPages, OpenPaths, LinearMap, Layout;
  }

  lemma HeapPageMapped(st: State, t: Tables, home: map<nat, Home>, st1: State, st': State, t': Tables,
                       home': map<nat, Home>, root: nat, n: nat, page: nat)
    requires n * PAGE + PAGE <= HEAP_ROOM && AllMapped(t, root, n)
    requires FrameMapped(st, t, home, st1, st', t', home', root, HEAP + n * PAGE, page, Attr(true, false, false))
    requires OpenPages(t', root)
    ensures AllMapped(t', root, n + 1)
  {
    hide Translate, Sound, PagesTaken, NoLarger, Held, PageTaken, OnlyList, RightsAt, Granted, PageAround, HeapPageAt;
    NextHeapPage(n);
    forall p: nat, x: nat | p < n + 1 && x == HeapPageAt(HEAP_LOW, p)
      ensures Mapped(t', root, x) && RightsAt(t', root, x) == Some(Attr(true, false, false))
    {
      KernelHalf(p);
      if p < n { assert Mapped(t, root, x); }
      HeapPageElsewhere(st1, t, home, st', t', home', root, n, page, x);
    }
  }

  lemma HeapPageElsewhere(st1: State, t: Tables, home: map<nat, Home>, st': State, t': Tables, home': map<nat, Home>,
                          root: nat, n: nat, page: nat, x: nat)
    requires n * PAGE + PAGE <= HEAP_ROOM && Private(x)
    requires PageMapped(st1, t, home, st', t', home', root, HEAP + n * PAGE, 1, page, Attr(true, false, false))
    ensures Translate(t', root, x) == if x == HeapPageAt(HEAP_LOW, n) then Some(page) else Translate(t, root, x)
  {
    hide Translate, Sound, PagesTaken, NoLarger, Held, RightsAt, Granted, HeapPageAt;
    NextHeapPage(n);
    PrivateAround(x);
    SamePageIs(x, HEAP + n * PAGE);
  }

  lemma TablesKeepMapped(t: Tables, t': Tables, root: nat, n: nat)
    requires AllMapped(t, root, n) && forall x: nat :: Translate(t', root, x) == Translate(t, root, x)
    requires OpenPages(t', root)
    ensures AllMapped(t', root, n)
  {
    hide Translate, RightsAt, HeapPageAt, Private;
    forall p: nat, x: nat | p < n && x == HeapPageAt(HEAP_LOW, p)
      ensures Mapped(t', root, x) && RightsAt(t', root, x) == Some(Attr(true, false, false))
    {
      KernelHalf(p);
      assert Mapped(t, root, x);
    }
  }

  /** There are too few free pages to map page `n` of the kernel heap, its tables included. */
  ghost predicate Short(st: State, t: Tables, root: nat, n: nat) {
    PageCount(Free(st)) < 1 + Missing(t, root, 4, 1, HEAP + n * PAGE)
  }

  /** Free memory or the room of the heap is used up. */
  ghost predicate Spent(st: State, n: nat) {
    PageCount(Free(st)) == 0 || n * PAGE + PAGE > HEAP_ROOM
  }

  /** One more page for a kernel heap of `n` pages (vmm.c:468-480, 489-493): a free frame is
      mapped behind it. Starved stands for a halt for want of a page, for a table at address
      0, or for an address beyond the end of the address space. */
  method MapHeapPage(k: Kernel, n: nat, ghost resident: set<nat>) returns (starved: bool)
    requires Paged(k, false, HEAP, n, resident)
    modifies k`tables, k`home, k.vmm
    ensures starved <==> n * PAGE + PAGE > HEAP_ROOM || Short(old(k.vmm.View()), old(k.tables), k.cr3, n)
    ensures Paged(k, false, HEAP, if starved then n else n + 1, resident)
    ensures starved ==> Spent(k.vmm.View(), n)
    ensures !starved ==>
      PageCount(Free(k.vmm.View())) + 1 + Missing(old(k.tables), k.cr3, 4, 1, HEAP + n * PAGE)
        == PageCount(Free(old(k.vmm.View())))
  {
    hide FrameMapped, TablesOnly, PageCount, Missing, Layout, Kernel.Running, AllMapped, Mapped, OpenPages;
    if n * PAGE + PAGE > HEAP_ROOM {
      return true;
    }
    NextHeapPage(n);
    ghost var st, t, home0 := k.vmm.View(), k.tables, k.home;
    MissingBound(t, k.cr3, 1, HEAP + n * PAGE);
    ghost var st1;
    var page;
    starved, st1, page := k.MapFreshPage(HEAP + n * PAGE, Attr(true, false, false));
    RunningOpen(k);
    if starved {
      NothingMoved(st, t, k.vmm.View(), k.tables, k.cr3);
      TablesKeepMapped(t, k.tables, k.cr3, n);
    } else {
      HeapPageMapped(st, t, home0, st1, k.vmm.View(), k.tables, k.home, k.cr3, n, page);
    }
  }

  lemma NothingMoved(st: State, t: Tables, st': State, t': Tables, root: nat)
    requires TablesOnly(st, t, st', t', root)
    ensures forall x: nat :: Translate(t', root, x) == Translate(t, root, x)
  {
    hide Held, Translate, OnlyList;
  }

  /** Four pages are enough for one: a frame and three tables. */
  lemma ShortOfFour(st: State, t: Tables, root: nat, n: nat)
    ensures Short(st, t, root, n) ==> PageCount(Free(st)) < 4
    ensures Missing(t, root, 4, 1, HEAP + n * PAGE) <= 3
  {
    hide PageCount, Layout;
    MissingBound(t, root, 1, HEAP + n * PAGE);
  }

  lemma PagedMore(k: Kernel, user: bool, base: nat, n: nat, resident: set<nat>, resident': set<nat>)
    requires Paged(k, user, base, n, resident) && resident <= resident'
    ensures Paged(k, user, base, n, resident')
  {
    hide Mapped, Inv, RunOf, AllMapped;
  }

  // ---------------------------------------------------------------- discarding

  /** The run is unmapped, its frames are given back, and it is committed still. */
  ghost predicate RunDiscarded(st: State, t: Tables, st': State, t': Tables, root: nat, process: nat, at: nat, n: nat) {
    && Blocks(st', process) == Blocks(st, process)
    && (forall x: nat :: Translate(t', root, x) == if InRun(x % SPACE, at, n) then None else Translate(t, root, x))
    && (forall f: nat :: f % PAGE == 0 ==> (Held(st', f) <==> Held(st, f) && !BacksIn(t, root, at, n, f)))
  }

  /** What the kernel keeps of a process's memory. */
  datatype Memory = Memory(st: State, tables: Tables, root: nat, process: nat)

  ghost function MemoryOf(k: Kernel): Memory
    reads k, k.vmm
  {
    Memory(k.vmm.View(), k.tables, k.cr3, k.process)
  }

  /** Discarding the run runs out of list nodes. */
  ghost predicate DiscardStarves(m: Memory, at: nat, n: nat) {
    TurnStarves(m.st, m.tables, m.root, m.process, Serving(Blocks(m.st, m.process), at, n, UNCOMMIT), at, n, UNCOMMIT)
  }

  /** The two calls at the end of heap_free (vmm.c:613-614). The page in front of the run is
      committed too: it holds the header of the block. So only the first call can run out of
      nodes. */
  method DiscardRun(k: Kernel, at: nat, n: nat) returns (stuck: bool)
    requires k.Running() && n > 0 && at > 0 && at % PAGE == 0 && at + n * PAGE <= USER_END
    requires RunOf(Blocks(k.vmm.View(), k.process), at, n, COMMIT)
    requires Covers(Blocks(k.vmm.View(), k.process), at - 1, COMMIT)
    modifies k`tables, k.vmm
    ensures stuck <==> DiscardStarves(old(MemoryOf(k)), at, n)
    ensures !stuck ==> k.Running()
    ensures !stuck ==> RunDiscarded(old(k.vmm.View()), old(k.tables), k.vmm.View(), k.tables, k.cr3, k.process, at, n)
  {
    hide Inv, TypedDone, RequestDone, RunOf, Partition, Layout, AllPlaced, RunDiscarded, TurnStarves, Serving, Covers,
         Retyped;
    ghost var st, t := k.vmm.View(), k.tables;
    var reply := k.VirtualAlloc(at, n, UNCOMMIT);
    ghost var st1, t1 := k.vmm.View(), k.tables;
    UncommitServed(st, t, k.home, st1, t1, k.cr3, k.process, at, n, reply);
    if !reply.Returned? {
      return true;
    }
    reply := k.VirtualAlloc(reply.addr, n, COMMIT);
    CommitServed(st, t, st1, t1, k.home, k.vmm.View(), k.tables, k.cr3, k.process, at, n, reply);
    RunIsDiscarded(st, t, k.home, st1, t1, k.vmm.View(), k.tables, k.cr3, k.process, at, n);
    return false;
  }

  lemma UncommitServed(st: State, t: Tables, home: map<nat, Home>, st1: State, t1: Tables, root: nat, process: nat,
                       at: nat, n: nat, reply: Reply)
    requires Inv(st, t, home, root, process) && n > 0 && at % PAGE == 0 && at + n * PAGE <= USER_END
    requires RunOf(Blocks(st, process), at, n, COMMIT)
    requires RequestDone(st, t, st1, t1, root, process, at, n, UNCOMMIT, reply)
    ensures reply == if DiscardStarves(Memory(st, t, root, process), at, n) then OutOfNodes else Returned(at, 0)
    ensures TypedDone(st, t, st1, t1, root, process, at, n, UNCOMMIT, reply)
    ensures reply.Returned? ==> Retyped(Blocks(st, process), Blocks(st1, process), at, n, RESERVE)
  {
    hide Sound, FramesOwned, SmallPages, Guarded, Committed, TypedDone, RequestDone, RunOf, Partition, Layout,
         TurnStarves, Serving, Retyped;
    InUserSpace(st, t, st1, t1, root, process, at, n, UNCOMMIT, reply);
    DiscardServed(st, t, st1, t1, root, process, at, n, UNCOMMIT, reply);
  }

  lemma CommitServed(st: State, t: Tables, st1: State, t1: Tables, home: map<nat, Home>, st2: State, t2: Tables,
                     root: nat, process: nat, at: nat, n: nat, reply: Reply)
    requires Inv(st, t, home, root, process) && Inv(st1, t1, home, root, process)
    requires n > 0 && at > 0 && at % PAGE == 0 && at + n * PAGE <= USER_END
    requires Covers(Blocks(st, process), at - 1, COMMIT)
    requires Retyped(Blocks(st, process), Blocks(st1, process), at, n, RESERVE)
    requires RequestDone(st1, t1, st2, t2, root, process, at, n, COMMIT, reply)
    ensures reply == Returned(at, 0) && TypedDone(st1, t1, st2, t2, root, process, at, n, COMMIT, reply)
  {
    hide Inv, TypedDone, RequestDone, RunOf, Partition, Layout, TurnStarves, Serving, Retyped, Covers;
    InvParts(st, t, home, root, process);
    InvParts(st1, t1, home, root, process);
    RetypedRun(Blocks(st, process), Blocks(st1, process), at, n, RESERVE);
    InUserSpace(st1, t1, st2, t2, root, process, at, n, COMMIT, reply);
    CommitNeverStarves(st, st1, t1, root, process, at, n);
    DiscardServed(st1, t1, st2, t2, root, process, at, n, COMMIT, reply);
  }

  lemma InUserSpace(st: State, t: Tables, st1: State, t1: Tables, root: nat, process: nat, at: nat, n: nat, kind: nat,
                    reply: Reply)
    requires at + n * PAGE <= USER_END && RequestDone(st, t, st1, t1, root, process, at, n, kind, reply)
    ensures TypedDone(st, t, st1, t1, root, process, at, n, kind, reply) && at < WORD64
  {
    hide TypedDone, Layout;
  }

  lemma RunIsDiscarded(st: State, t: Tables, home: map<nat, Home>, st1: State, t1: Tables, st2: State, t2: Tables,
                       root: nat, process: nat, at: nat, n: nat)
    requires Inv(st, t, home, root, process) && n > 0 && at % PAGE == 0 && at + n * PAGE <= USER_END
    requires RunOf(Blocks(st, process), at, n, COMMIT)
    requires TypedDone(st, t, st1, t1, root, process, at, n, UNCOMMIT, Returned(at, 0))
    requires TypedDone(st1, t1, st2, t2, root, process, at, n, COMMIT, Returned(at, 0))
    ensures RunDiscarded(st, t, st2, t2, root, process, at, n)
  {
    hide Sound, FramesOwned, SmallPages, Guarded, Committed, TypedDone, RunOf, Partition, Layout, Translate, Held,
         BacksIn;
    DiscardMeaning(st, t, st1, t1, st2, t2, root, process, at, n);
  }

  /** Discarding pages of a user heap keeps it paged, the pages no longer resident. */
  lemma DiscardedPaged(t: Tables, t': Tables, root: nat, base: nat, n: nat, lo: nat, hi: nat, resident: set<nat>,
                       resident': set<nat>)
    requires OnlyResident(t, root, base, n, resident) && base + n * PAGE <= USER_END && lo <= hi
    requires forall x: nat ::
      Translate(t', root, x) == if InRun(x % SPACE, base + lo * PAGE, hi - lo) then None else Translate(t, root, x)
    requires forall p: nat :: p in resident && !(lo <= p < hi) ==> p in resident'
    ensures OnlyResident(t', root, base, n, resident')
  {
    hide Translate;
    forall p: nat, x: nat | p < n && x == HeapPageAt(base, p) && Mapped(t', root, x)
      ensures p in resident'
    {
      PrivateSmall(x);
      assert Mapped(t, root, x);
      if lo <= p < hi { PageOfRunIs(base, lo, hi, p); }
    }
  }

  lemma PageOfRunIs(base: nat, lo: nat, hi: nat, p: nat)
    requires lo <= p < hi
    ensures InRun(base + p * PAGE, base + lo * PAGE, hi - lo)
  {
  }

  lemma SubRun(s: seq<Range>, base: nat, n: nat, lo: nat, hi: nat, k: nat)
    requires RunOf(s, base, n, k) && lo <= hi <= n
    ensures RunOf(s, base + lo * PAGE, hi - lo, k)
  {
    hide Covers;
  }

  lemma ByteBefore(s: seq<Range>, base: nat, n: nat, lo: nat, k: nat)
    requires RunOf(s, base, n, k) && 0 < lo <= n
    ensures base + lo * PAGE > 0 && Covers(s, base + lo * PAGE - 1, k)
  {
    hide Covers;
  }

  /** Pages `lo` to `hi` of a user heap lose their memory and stay committed; `left` are the
      resident pages besides them. */
  method DiscardHeapRun(k: Kernel, ghost base: nat, ghost n: nat, addr2: nat, addr3: nat, ghost lo: nat, ghost hi: nat,
                        ghost resident: set<nat>, ghost left: set<nat>) returns (stuck: bool)
    requires Paged(k, true, base, n, resident) && 0 < lo < hi <= n
    requires addr2 == base + lo * PAGE && addr3 == base + hi * PAGE
    requires forall p: nat :: p in resident && !(lo <= p < hi) ==> p in left
    modifies k`tables, k.vmm
    ensures stuck <==> DiscardStarves(old(MemoryOf(k)), HeapPageAt(base, lo), hi - lo)
    ensures !stuck ==> Paged(k, true, base, n, left)
  {
    hide Mapped, Inv, RunOf, OnlyResident, Layout, RunDiscarded, Covers, DiscardStarves;
    ghost var st, t := k.vmm.View(), k.tables;
    RunBounds(base, lo, hi, n);
    SubRun(Blocks(st, k.process), base, n, lo, hi, COMMIT);
    ByteBefore(Blocks(st, k.process), base, n, lo, COMMIT);
    stuck := DiscardRun(k, addr2, (addr3 - addr2) / PAGE);
    if stuck {
      return;
    }
    RunGone(st, t, k.vmm.View(), k.tables, k.cr3, k.process, base, n, lo, hi, resident, left);
  }

  lemma RunBounds(base: nat, lo: nat, hi: nat, n: nat)
    requires base % PAGE == 0 && lo < hi <= n && base + n * PAGE <= USER_END
    ensures var at := base + lo * PAGE;
      at % PAGE == 0 && (base + hi * PAGE - at) / PAGE == hi - lo && at + (hi - lo) * PAGE <= USER_END
  {
    MulGap(hi, n, PAGE);
    Regroup(lo, 1, hi - lo, PAGE);
    DivModUnique((hi - lo) * PAGE, hi - lo, 0, PAGE);
  }

  lemma RunGone(st: State, t: Tables, st': State, t': Tables, root: nat, process: nat, base: nat, n: nat, lo: nat,
                hi: nat, resident: set<nat>, left: set<nat>)
    requires lo <= hi && RunDiscarded(st, t, st', t', root, process, base + lo * PAGE, hi - lo)
    requires OnlyResident(t, root, base, n, resident) && base + n * PAGE <= USER_END
    requires forall p: nat :: p in resident && !(lo <= p < hi) ==> p in left
    ensures OnlyResident(t', root, base, n, left) && Blocks(st', process) == Blocks(st, process)
  {
    hide Mapped, Translate, Held, BacksIn, OnlyResident, Layout;
    DiscardedPaged(t, t', root, base, n, lo, hi, resident, left);
  }

  // ---------------------------------------------------------------- accesses

  /** An access to address `va`, in page `x`, needs more free pages than there are: the page is
      not mapped, and frame and missing tables exceed them. */
  ghost predicate TouchStarves(m: Memory, x: nat, va: nat) {
    !Mapped(m.tables, m.root, x) && PageCount(Free(m.st)) < 1 + Missing(m.tables, m.root, 4, 1, va)
  }

  /** Address `va` lies in page `p` of the user heap at `base`. */
  ghost predicate InHeapPage(base: nat, p: nat, va: nat) {
    && PageAround(va) == HeapPageAt(base, p) && va / PAGE * PAGE == HeapPageAt(base, p)
    && Private(HeapPageAt(base, p)) && 0x100 <= va < USER_END && !InLinear(va)
  }

  /** An access of the process to page `p` of its heap: if the page is not mapped it faults. */
  method TouchPage(k: Kernel, ghost base: nat, ghost n: nat, ghost p: nat, va: nat, ghost resident: set<nat>)
    returns (outcome: Outcome)
    requires Paged(k, true, base, n, resident) && InHeapPage(base, p, va)
    requires Covers(Blocks(k.vmm.View(), k.process), va, COMMIT)
    modifies k`tables, k`home, k.vmm
    ensures outcome != Panicked && (outcome == Starved <==> TouchStarves(old(MemoryOf(k)), HeapPageAt(base, p), va))
    ensures Paged(k, true, base, n, if outcome == Served then resident + {p} else resident)
    ensures outcome == Served ==> Mapped(k.tables, k.cr3, HeapPageAt(base, p))
  {
    hide Inv, RunOf, Mapped, OnlyResident, Covers, Layout, AccessDone, HeapPageAt, TouchStarves, Private;
    ghost var st, t, home := k.vmm.View(), k.tables, k.home;
    InvFacts(st, t, home, k.cr3, k.process);
    outcome := k.Access(va, va / PAGE * PAGE);
    Accessed(st, t, home, k.vmm.View(), k.tables, k.home, k.cr3, k.process, base, n, p, va, resident, outcome);
  }

  /** What an access to page `p` of the heap does to the heap's pages. */
  lemma Accessed(st: State, t: Tables, home: map<nat, Home>, st': State, t': Tables, home': map<nat, Home>, root: nat,
                 process: nat, base: nat, n: nat, p: nat, va: nat, resident: set<nat>, outcome: Outcome)
    requires InHeapPage(base, p, va) && Covers(Blocks(st, process), va, COMMIT)
    requires Sound(st, t, home, root) && OnlyResident(t, root, base, n, resident)
    requires AccessDone(st, t, home, st', t', home', root, process, va, HeapPageAt(base, p), outcome)
    ensures outcome != Panicked
    ensures outcome == Starved <==> TouchStarves(Memory(st, t, root, process), HeapPageAt(base, p), va)
    ensures OnlyResident(t', root, base, n, if outcome == Served then resident + {p} else resident)
    ensures outcome == Served ==> Mapped(t', root, HeapPageAt(base, p))
  {
    hide Sound, Mapped, OnlyResident, Covers, Layout, PageCount, Missing, HeapPageAt, FaultDone;
    if Mapped(t, root, HeapPageAt(base, p)) {
      ResidentMore(t, root, base, n, resident, p);
    } else {
      Faulted(st, t, home, st', t', home', root, process, base, n, p, va, resident, outcome);
    }
  }

  /** Where word `i` of a user heap lies. */
  lemma WordPage(base: nat, n: nat, i: nat)
    requires base % PAGE == 0 && base > 0 && i / WORDS_PER_PAGE < n && base + n * PAGE <= USER_END
    ensures InHeapPage(base, i / WORDS_PER_PAGE, base + 8 * i)
  {
    var p, r := i / WORDS_PER_PAGE, i % WORDS_PER_PAGE;
    var x := base + p * PAGE;
    assert base + 8 * i == x + 8 * r;
    MulGap(p, n, PAGE);
    DivModUnique(x, base / PAGE + p, 0, PAGE);
    DivModUnique(x + 8 * r, base / PAGE + p, 8 * r, PAGE);
  }

  lemma WordCommitted(s: seq<Range>, base: nat, n: nat, i: nat)
    requires RunOf(s, base, n, COMMIT) && i / WORDS_PER_PAGE < n
    ensures Covers(s, base + 8 * i, COMMIT)
  {
    hide Covers;
    MulGap(i / WORDS_PER_PAGE, n, PAGE);
    assert base <= base + 8 * i < base + n * PAGE;
  }

  lemma WordPaged(k: Kernel, base: nat, n: nat, i: nat, resident: set<nat>)
    requires Paged(k, true, base, n, resident) && base > 0 && i / WORDS_PER_PAGE < n
    ensures InHeapPage(base, i / WORDS_PER_PAGE, base + 8 * i)
    ensures Covers(Blocks(k.vmm.View(), k.process), base + 8 * i, COMMIT)
  {
    hide Mapped, Inv, RunOf, OnlyResident, Layout, InHeapPage;
    WordPage(base, n, i);
    WordCommitted(Blocks(k.vmm.View(), k.process), base, n, i);
  }

  lemma ResidentMore(t: Tables, root: nat, base: nat, n: nat, resident: set<nat>, p: nat)
    requires OnlyResident(t, root, base, n, resident)
    ensures OnlyResident(t, root, base, n, resident + {p})
  {
    hide Mapped, HeapPageAt;
  }

  /** What a fault in page `p` of the heap does to the heap's pages. */
  lemma Faulted(st: State, t: Tables, home: map<nat, Home>, st': State, t': Tables, home': map<nat, Home>, root: nat,
                process: nat, base: nat, n: nat, p: nat, va: nat, resident: set<nat>, outcome: Outcome)
    requires PageAround(va) == HeapPageAt(base, p) && Private(HeapPageAt(base, p))
    requires 0x100 <= va && !InLinear(va) && Covers(Blocks(st, process), va, COMMIT)
    requires Sound(st, t, home, root) && OnlyResident(t, root, base, n, resident)
    requires FaultDone(st, t, home, st', t', home', root, process, va, outcome)
    ensures outcome != Panicked
    ensures outcome == Starved <==> PageCount(Free(st)) < 1 + Missing(t, root, 4, 1, va)
    ensures outcome == Starved ==> OnlyResident(t', root, base, n, resident)
    ensures outcome == Served ==>
      OnlyResident(t', root, base, n, resident + {p}) && Mapped(t', root, HeapPageAt(base, p))
  {
    hide Sound, Mapped, OnlyResident, Covers, Layout, PageCount, Missing, HeapPageAt, FrameMapped, TablesOnly;
    if outcome == Served {
      var st1: State, page: nat :|
        FrameMapped(st, t, home, st1, st', t', home', root, va, page, Attr(true, true, false));
      FrameMappedStep(st, t, home, st1, st', t', home', root, va, page, Attr(true, true, false));
      SteppedResident(st, t, st', t', root, base, n, p, va, resident, page);
    } else {
      NothingMoved(st, t, st', t', root);
      SameResident(t, t', root, base, n, resident);
    }
  }

  lemma SteppedResident(st: State, t: Tables, st': State, t': Tables, root: nat, base: nat, n: nat, p: nat, va: nat,
                        resident: set<nat>, page: nat)
    requires OnlyResident(t, root, base, n, resident) && FrameStep(st, t, st', t', root, va, page)
    requires PageAround(va) == HeapPageAt(base, p) && Private(HeapPageAt(base, p))
    ensures OnlyResident(t', root, base, n, resident + {p}) && Mapped(t', root, HeapPageAt(base, p))
  {
    hide Translate, Held, Private;
    forall q: nat, x: nat | q < n && x == HeapPageAt(base, q) && Mapped(t', root, x)
      ensures q in resident + {p}
    {
      if q != p { assert Mapped(t, root, x); }
    }
  }

  lemma SameResident(t: Tables, t': Tables, root: nat, base: nat, n: nat, resident: set<nat>)
    requires OnlyResident(t, root, base, n, resident)
    requires forall x: nat :: Translate(t', root, x) == Translate(t, root, x)
    ensures OnlyResident(t', root, base, n, resident)
  {
    hide Translate, HeapPageAt, Private;
    forall q: nat, x: nat | q < n && x == HeapPageAt(base, q) && Mapped(t', root, x)
      ensures q in resident
    {
      assert Mapped(t, root, x);
    }
  }
}
