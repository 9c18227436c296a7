/** Runs of a process on its heap: allocations, frees and accesses, with the page faults that
    the accesses take. */
module HeapRuns {
  import opened Layouts
  import opened BlockNodes
  import opened AllocatorState
  import opened AllocatorTheorems
  import opened PageTables
  import opened FrameOwnership
  import opened AddressSpace
  import opened AddressSpaceTheorems
  import opened DemandPaging
  import opened KernelRuns
  import opened HeapBlocks
  import opened HeapPages
  import opened Heap

  // ---------------------------------------------------------------- the start of a user heap

  /** The range that the request for a heap was given: committed, with no page mapped. */
  lemma StartServed(st: State, t: Tables, home: map<nat, Home>, st1: State, t1: Tables, root: nat, process: nat,
                    n: nat, base: nat)
    requires Inv(st, t, home, root, process) && n > 0
    requires RequestDone(st, t, st1, t1, root, process, 0, n, COMMITXF, Returned(base, 0))
    ensures base % PAGE == 0 && PAGE <= base && base + n * PAGE <= USER_END
    ensures RunOf(Blocks(st1, process), base, n, COMMIT) && OnlyResident(t1, root, base, n, {})
  {
    hide Inv, TypedDone, Layout, RunOf, Mapped;
    FreshlyServed(st, t, home, st1, t1, root, process, 0, n, base);
    forall p: nat, x: nat | p < n && x == HeapPageAt(base, p)
      ensures !Mapped(t1, root, x)
    {
      MulGap(p, n, PAGE);
      assert InRun(x, base, n);
    }
  }

  /** The first access to it. */
  lemma StartTouched(st1: State, t1: Tables, home1: map<nat, Home>, st2: State, t2: Tables, home2: map<nat, Home>,
                     root: nat, process: nat, base: nat, n: nat, outcome: Outcome)
    requires Inv(st1, t1, home1, root, process) && n > 0
    requires base % PAGE == 0 && PAGE <= base && base + n * PAGE <= USER_END
    requires RunOf(Blocks(st1, process), base, n, COMMIT) && OnlyResident(t1, root, base, n, {})
    requires AccessDone(st1, t1, home1, st2, t2, home2, root, process, base, base, outcome)
    ensures outcome != Panicked
    ensures outcome == Starved <==> TouchStarves(Memory(st1, t1, root, process), base, base)
    ensures outcome == Served ==> OnlyResident(t2, root, base, n, {0})
  {
    hide Sound, FramesOwned, SmallPages, Guarded, Committed, Partition, Layout, RunOf, Mapped, OnlyResident, AccessDone,
         TouchStarves, InHeapPage;
    WordPage(base, n, 0);
    WordCommitted(Blocks(st1, process), base, n, 0);
    assert HeapPageAt(base, 0) == base;
    Accessed(st1, t1, home1, st2, t2, home2, root, process, base, n, 0, base, {}, outcome);
    assert {} + {0} == {0};
  }

  /** The address space is new, `n` pages fit it, and five pages are free. */
  ghost predicate RoomForHeap(st: State, process: nat, n: nat) {
    && Blocks(st, process) == [Range(0x1000, 0x7FFFFFFFF * PAGE, FREE)] && n <= 0x7FFFFFFFF
    && PageCount(Free(st)) >= 5
  }

  /** In a new address space the request takes the first pages of user space, and leaves enough
      free pages for the first access if there were five. */
  lemma NewSpaceStart(st: State, t: Tables, mid: Memory, n: nat, reply: Reply)
    requires RoomForHeap(st, mid.process, n) && n > 0
    requires RequestDone(st, t, mid.st, mid.tables, mid.root, mid.process, 0, n, COMMITXF, reply)
    ensures reply == Returned(0x1000, 0) && !TouchStarves(mid, 0x1000, 0x1000)
  {
    hide Layout, RequestDone, Mapped, Missing;
    NewSpaceServed(st, t, mid.st, mid.tables, mid.root, mid.process, n, reply);
    MissingBound(mid.tables, mid.root, 1, 0x1000);
  }

  /** The first calls of a process (user.c:22-28): a COMMITXF request for the range of its heap,
      and the write of the first header, which faults. There is no heap if the request is not
      served, or the fault finds too few free pages; in a new address space there is one, at the
      start of user space, if five pages are free. `contents` is what the words hold once they
      have memory. */
  method StartHeap(k: Kernel, n: nat, contents: seq<nat>) returns (h: Heap?, ghost reply: Reply, ghost mid: Memory)
    requires k.Running() && 0 < n < WORD64 && |contents| == WORDS_PER_PAGE * n
    modifies k`tables, k`home, k.vmm
    ensures RequestDone(old(k.vmm.View()), old(k.tables), mid.st, mid.tables, k.cr3, k.process, 0, n, COMMITXF, reply)
    ensures h == null <==>
      !(reply.Returned? && reply.status == 0) || TouchStarves(mid, reply.addr, reply.addr)
    ensures h != null ==> fresh(h) && h.Valid() && h.user && h.kernel == k && h.base == reply.addr
    ensures h != null ==> h.blocks == [Block(WORDS_PER_PAGE * n - 1, false)]
    ensures RoomForHeap(old(k.vmm.View()), k.process, n) ==> h != null && h.base == 0x1000
  {
    hide Inv, RequestDone, TypedDone, Blocks, AccessDone, TouchStarves, RunOf, Mapped, OnlyResident, FreshlyCommitted,
         PageCount, Layout, RoomForHeap;
    ghost var st, t, home := k.vmm.View(), k.tables, k.home;
    var answer := k.VirtualAlloc(0, n, COMMITXF);
    reply, mid := answer, MemoryOf(k);
    if RoomForHeap(st, k.process, n) {
      NewSpaceStart(st, t, mid, n, reply);
    }
    if !answer.Returned? {
      return null, reply, mid;
    }
    if answer.status != 0 {
      return null, reply, mid;
    }
    var base := answer.addr;
    ghost var st1, t1, home1 := k.vmm.View(), k.tables, k.home;
    StartServed(st, t, home, st1, t1, k.cr3, k.process, n, base);
    PagePrivate(base, n);
    var outcome := k.Access(base, base);
    StartTouched(st1, t1, home1, k.vmm.View(), k.tables, k.home, k.cr3, k.process, base, n, outcome);
    if outcome == Starved {
      return null, reply, mid;
    }
    StartFresh(k, base, n);
    h := new Heap.User(k, base, n, contents);
  }

  /** On a kernel that has just started, with seven pages in the first usable region, the process
      gets its heap, at the start of user space. */
  method BootHeap(regions: seq<Region>, process: nat, n: nat, contents: seq<nat>) returns (k: Kernel?, h: Heap?)
    requires RegionsOk(regions) && 0 < n <= 0x7FFFFFFFF && |contents| == WORDS_PER_PAGE * n
    requires FirstUsable(regions) < |regions| && regions[FirstUsable(regions)].size >= 7 * PAGE
    ensures k != null && h != null && fresh(k) && fresh(h) && h.kernel == k && k.process == process
    ensures h.Valid() && h.user && h.base == 0x1000 && h.blocks == [Block(WORDS_PER_PAGE * n - 1, false)]
  {
    hide RegionsOk, FirstUsable, RequestDone, TouchStarves, WindowMapped, Tiled, Coalesced, Vacated, HeaderPages, Paged,
         PageCount, Layout, Inv;
    k := Boot(regions, process);
    ghost var reply, mid;
    h, reply, mid := StartHeap(k, n, contents);
  }

  lemma PagePrivate(base: nat, n: nat)
    requires base % PAGE == 0 && n > 0 && base + n * PAGE <= USER_END
    ensures Private(base)
  {
  }

  lemma StartFresh(k: Kernel, base: nat, n: nat)
    requires k.Running() && base % PAGE == 0 && base + n * PAGE <= USER_END
    requires RunOf(Blocks(k.vmm.View(), k.process), base, n, COMMIT)
    requires OnlyResident(k.tables, k.cr3, base, n, {0})
    ensures FreshlyCommitted(k, base, n)
  {
    hide Inv, RunOf, OnlyResident, Blocks;
  }

  // ---------------------------------------------------------------- runs

  /** The block chain of a heap and the process memory under it. */
  datatype Snapshot = Snapshot(bs: seq<Block>, memory: Memory)

  datatype HeapCall =
    | Alloc(request: nat)
    | Release(addr: nat)
    | Access(word: nat)
  {
    predicate Sensible() { Alloc? ==> request < WORD64 }
  }

  /** The call does not return: the request runs the kernel's growth code, the free runs out of
      list nodes, or the access is none of the process's or finds too few free pages. */
  ghost predicate HeapStops(s: Snapshot, base: nat, call: HeapCall) {
    match call
    case Alloc(request) => FillsLast(s.bs, RoundRequest(request) / 8)
    case Release(addr) => FreeingStarves(s.memory, s.bs, base, addr)
    case Access(i) =>
      !InUse(s.bs, i) || TouchStarves(s.memory, HeapPageAt(base, i / WORDS_PER_PAGE), base + 8 * i)
  }

  /** What a call that returns does. */
  ghost predicate HeapStep(s: Snapshot, s': Snapshot, base: nat, call: HeapCall) {
    match call
    case Alloc(request) =>
      var w := RoundRequest(request) / 8;
      && s'.memory == s.memory && s.bs != []
      && if FirstFree(s.bs, w) == |s.bs| then s'.bs == s.bs else Allocated(s.bs, s'.bs, w, FirstFree(s.bs, w))
    case Release(addr) =>
      && (NoPayload(s.bs, base, addr) ==> s' == s)
      && forall k :: 0 <= k < |s.bs| && PayloadAddress(s.bs, base, k, addr) ==> s'.bs == Released(s.bs, k)
    case Access(i) =>
      s'.bs == s.bs && Mapped(s'.memory.tables, s'.memory.root, HeapPageAt(base, i / WORDS_PER_PAGE))
  }

  /** No page wholly inside a free payload of the heap is mapped. */
  ghost predicate FreeUnmapped(s: Snapshot, base: nat) {
    forall j: nat, p: nat :: j < |s.bs| && !s.bs[j].used && PageInside(s.bs, j, p) ==>
      !Mapped(s.memory.tables, s.memory.root, HeapPageAt(base, p))
  }

  ghost function SnapshotOf(h: Heap): Snapshot
    reads h, h.kernel, h.kernel.vmm
  {
    Snapshot(h.blocks, MemoryOf(h.kernel))
  }

  lemma ValidUnmapped(h: Heap)
    requires h.Valid() && h.user
    ensures FreeUnmapped(SnapshotOf(h), h.base) && Coalesced(h.blocks)
  {
    hide Pos, Tiled, HeaderPages, Mapped, HeapPageAt, RunOf, Inv;
    var bs := h.blocks;
    forall j: nat, p: nat | j < |bs| && !bs[j].used && PageInside(bs, j, p)
      ensures !Mapped(h.kernel.tables, h.kernel.cr3, HeapPageAt(h.base, p))
    {
      InsideHeap(h.words, bs, j, p);
    }
  }

  lemma InsideHeap(words: seq<nat>, bs: seq<Block>, j: nat, p: nat)
    requires Tiled(words, bs) && j < |bs| && PageInside(bs, j, p)
    ensures p < |words| / WORDS_PER_PAGE
  {
    PosNext(bs, j);
    PosMonotone(bs, j, |bs|);
  }

  /** The snapshots that a sequence of calls leads through. */
  ghost predicate HeapTrace(ss: seq<Snapshot>, base: nat, calls: seq<HeapCall>) {
    && |ss| == |calls| + 1
    && (forall i :: 0 <= i < |ss| ==> FreeUnmapped(ss[i], base) && Coalesced(ss[i].bs))
    && (forall i, j :: 0 <= i < |calls| && j == i + 1 ==> HeapReturned(ss[i], ss[j], base, calls[i]))
  }

  ghost predicate HeapReturned(s: Snapshot, s': Snapshot, base: nat, call: HeapCall) {
    !HeapStops(s, base, call) && HeapStep(s, s', base, call)
  }

  /** Word `i` of block `k` is in use exactly if the block is. */
  lemma UseOfWord(bs: seq<Block>, k: nat, i: nat)
    requires k < |bs| && InPayload(bs, k, i)
    ensures InUse(bs, i) <==> bs[k].used
  {
    hide Pos;
    forall j | 0 <= j < |bs| && j != k
      ensures !InPayload(bs, j, i) && Pos(bs, j) != i
    {
      if j < k { PosMonotone(bs, j, k); } else { PosMonotone(bs, k, j); }
    }
    PosNext(bs, k);
  }

  lemma BeyondHeap(bs: seq<Block>, i: nat)
    requires i >= Pos(bs, |bs|)
    ensures !InUse(bs, i)
  {
    hide Pos;
    forall j | 0 <= j < |bs|
      ensures !InPayload(bs, j, i) && Pos(bs, j) != i
    {
      PosMonotone(bs, j, |bs|);
    }
  }

  /** Whether word `i` is the process's to access. */
  method Uses(h: Heap, i: nat) returns (mine: bool)
    requires h.Valid() && h.user
    ensures mine <==> InUse(h.blocks, i)
    ensures mine ==> i < |h.words|
  {
    hide Pos, InUse, HeaderPages, Vacated, Paged, IsUsing, IsLast, Coalesced;
    ghost var bs, k := h.blocks, 0;
    var head := 0;
    PosStart(bs);
    while true
      invariant k < |bs| && head == Pos(bs, k) && head <= i
      decreases |bs| - k
    {
      HeaderFacts(h.words, bs, k);
      PosNext(bs, k);
      if i == head {
        HeaderInUse(bs, k);
        return true;
      }
      if i <= head + h.words[head] / 8 {
        UseOfWord(bs, k, i);
        return IsUsing(h.words[head]);
      }
      if IsLast(h.words[head]) {
        BeyondHeap(bs, i);
        return false;
      }
      head := head + 1 + h.words[head] / 8;
      k := k + 1;
    }
  }

  lemma HeaderInUse(bs: seq<Block>, k: nat)
    requires k < |bs|
    ensures InUse(bs, Pos(bs, k))
  {
    hide Pos;
  }

  lemma AllocStep(s: Snapshot, s': Snapshot, base: nat, request: nat, n: nat, pages: nat, answer: Answer, spent: bool)
    requires s.bs != [] && s'.memory == s.memory && answer != GrewInUser
    requires AllocOutcome(s.bs, s'.bs, true, n, pages, RoundRequest(request) / 8, base, answer, spent)
    ensures HeapStep(s, s', base, Alloc(request))
  {
    hide Allocated, Grown, HaltedAt, RoundRequest;
    if FirstFree(s.bs, RoundRequest(request) / 8) < |s.bs| { ServesFirst(s.bs, RoundRequest(request) / 8); }
  }

  lemma ServesFirst(bs: seq<Block>, w: nat)
    requires bs != [] && FirstFree(bs, w) < |bs|
    ensures ServingBlock(bs, w) == FirstFree(bs, w)
  {
  }

  lemma FreeStep(s: Snapshot, s': Snapshot, base: nat, addr: nat, words: seq<nat>, resident: set<nat>, words': seq<nat>,
                 resident': set<nat>)
    requires NoPayload(s.bs, base, addr) ==> s' == s
    requires forall k :: 0 <= k < |s.bs| && PayloadAddress(s.bs, base, k, addr) ==>
      FreeOutcome(s.bs, words, resident, s'.bs, words', resident', true, k)
    ensures HeapStep(s, s', base, Release(addr))
  {
    hide PayloadAddress, Released, Window, PayloadsKept, NoPayload;
  }

  /** One call. */
  method Perform(h: Heap, call: HeapCall) returns (stopped: bool)
    requires h.Valid() && h.user && call.Sensible()
    modifies h, h.kernel`tables, h.kernel`home, h.kernel.vmm
    ensures stopped <==> HeapStops(old(SnapshotOf(h)), h.base, call)
    ensures !stopped ==> h.Valid() && HeapStep(old(SnapshotOf(h)), SnapshotOf(h), h.base, call)
  {
    hide Tiled, Coalesced, Vacated, HeaderPages, Paged, HeapStep, AllocOutcome, FreeOutcome, FreeingStarves, FillsLast,
         InUse, TouchStarves, Mapped, PayloadsKept, NoPayload, PayloadAddress, HeapPageAt, RoundRequest, Spent, Short,
         PageCount, Missing;
    ghost var s, words, resident := SnapshotOf(h), h.words, h.resident;
    match call {
      case Alloc(request) =>
        ghost var n, pages := |h.words| / WORDS_PER_PAGE, h.Spare();
        var answer := h.HeapAlloc(request);
        if answer == GrewInUser {
          return true;
        }
        AllocStep(s, SnapshotOf(h), h.base, request, n, pages, answer, h.UsedUp());
        return false;
      case Release(addr) =>
        stopped := h.HeapFree(addr);
        if !stopped {
          FreeStep(s, SnapshotOf(h), h.base, addr, words, resident, h.words, h.resident);
        }
      case Access(i) =>
        var mine := Uses(h, i);
        if !mine {
          return true;
        }
        var outcome := h.Touch(i);
        if outcome == Starved {
          return true;
        }
        TouchStep(s, SnapshotOf(h), h.base, i);
        return false;
    }
  }

  lemma TouchStep(s: Snapshot, s': Snapshot, base: nat, i: nat)
    requires s'.bs == s.bs && Mapped(s'.memory.tables, s'.memory.root, HeapPageAt(base, i / WORDS_PER_PAGE))
    ensures HeapStep(s, s', base, Access(i))
  {
    hide Mapped, HeapPageAt;
  }

  /** Over every run no page wholly inside a free payload is mapped, in any state, up to the
      first call that does not return. */
  method RunHeap(h: Heap, calls: seq<HeapCall>) returns (done: nat, ghost ss: seq<Snapshot>)
    requires h.Valid() && h.user && forall i :: 0 <= i < |calls| ==> calls[i].Sensible()
    modifies h, h.kernel`tables, h.kernel`home, h.kernel.vmm
    ensures done <= |calls| && HeapTrace(ss, h.base, calls[..done]) && ss[0] == old(SnapshotOf(h))
    ensures done < |calls| ==> HeapStops(ss[done], h.base, calls[done])
    ensures done == |calls| ==> h.Valid() && ss[done] == SnapshotOf(h)
  {
    hide FreeUnmapped, HeapStops, HeapStep, Tiled, Coalesced, Vacated, HeaderPages, Paged;
    ss := [SnapshotOf(h)];
    done := 0;
    ValidUnmapped(h);
    while done < |calls|
      invariant done <= |calls| && h.Valid()
      invariant HeapTrace(ss, h.base, calls[..done]) && ss[0] == old(SnapshotOf(h)) && ss[done] == SnapshotOf(h)
    {
      var stopped := Perform(h, calls[done]);
      if stopped {
        return;
      }
      ValidUnmapped(h);
      HeapTraceNext(ss, h.base, calls, done, SnapshotOf(h));
      ss := ss + [SnapshotOf(h)];
      done := done + 1;
    }
  }

  lemma HeapTraceNext(ss: seq<Snapshot>, base: nat, calls: seq<HeapCall>, n: nat, s: Snapshot)
    requires n < |calls| && HeapTrace(ss, base, calls[..n]) && FreeUnmapped(s, base) && Coalesced(s.bs)
    requires !HeapStops(ss[n], base, calls[n]) && HeapStep(ss[n], s, base, calls[n])
    ensures HeapTrace(ss + [s], base, calls[..n + 1])
  {
    hide FreeUnmapped, HeapStops, HeapStep, Coalesced;
    var all, done := ss + [s], calls[..n + 1];
    forall i, j | 0 <= i < |done| && j == i + 1
      ensures HeapReturned(all[i], all[j], base, done[i])
    {
      assert all[i] == ss[i] && done[i] == calls[i];
      if i < n {
        assert all[j] == ss[j] && done[i] == calls[..n][i];
      } else {
        assert all[j] == s;
      }
    }
    forall i | 0 <= i < |all|
      ensures FreeUnmapped(all[i], base) && Coalesced(all[i].bs)
    {
      assert i < |ss| ==> all[i] == ss[i];
    }
  }
}
