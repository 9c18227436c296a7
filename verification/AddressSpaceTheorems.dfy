/** What the invariant of a running address space and the contracts of its operations mean
    together. */
module AddressSpaceTheorems {
  import opened Layouts
  import opened BlockNodes
  import opened ListSteps
  import opened NodeCounts
  import opened AllocatorState
  import opened PageTables
  import opened FrameOwnership
  import opened AddressSpace

  // ---------------------------------------------------------------- ownership

  ghost predicate FrameFree(st: State, f: nat) { !Apart(Free(st), Frame(f)) }

  ghost predicate FrameMappedAt(t: Tables, root: nat, x: nat, f: nat) {
    Mapped(t, root, x) && Translate(t, root, x) == Some(f)
  }

  /** No frame has two uses: free memory, slab page, page table, or the frame of one private
      page; and a user page has a frame only inside a committed block. */
  lemma OneUsePerFrame(st: State, t: Tables, home: map<nat, Home>, root: nat, process: nat, f: nat)
    requires Inv(st, t, home, root, process) && f % PAGE == 0
    ensures FrameFree(st, f) ==> f !in st.slabs && f !in t && forall x: nat :: !FrameMappedAt(t, root, x, f)
    ensures f in st.slabs ==> f !in t && forall x: nat :: !FrameMappedAt(t, root, x, f)
    ensures f in t ==> forall x: nat :: !FrameMappedAt(t, root, x, f)
    ensures forall x: nat, y: nat :: FrameMappedAt(t, root, x, f) && FrameMappedAt(t, root, y, f) ==> x == y
    ensures forall x: nat :: FrameMappedAt(t, root, x, f) && x < USER_END ==> Covers(Blocks(st, process), x, COMMIT)
  {
    hide Valid, Tree, Translate, Partition, Private, SmallPages, Guarded, Layout, Covers, Apart;
    if FrameFree(st, f) { FreeNotSlabPage(st, f); }
  }

  lemma FreeNotSlabPage(st: State, f: nat)
    requires Valid(st) && FrameFree(st, f)
    ensures f !in st.slabs
  {
    hide Structured, Layout, Canonical, AllPlaced, AllFree;
    FreeFacts(st);
  }

  /** The single free block of a new process is a partition of its address space. */
  lemma NewSpacePartition()
    ensures Partition([Range(0x1000, 0x7FFFFFFFF * PAGE, FREE)])
  {
    var s := [Range(0x1000, 0x7FFFFFFFF * PAGE, FREE)];
    forall x: nat | PAGE <= x < USER_END
      ensures InSomeBlock(s, x)
    {
      assert s[0].Has(x);
      assert Covers(s, x, FREE);
    }
  }

  /** A new process starts with the invariant. */
  lemma NewSpaceInv(st: State, t: Tables, home: map<nat, Home>, root: nat, process: nat)
    requires Sound(st, t, home, root) && Vmma(process) in st.lists
    requires Blocks(st, process) == [Range(0x1000, 0x7FFFFFFFF * PAGE, FREE)]
    requires SmallPages(t, root) && Guarded(t, root) && forall x: nat :: !Mapped(t, root, x)
    ensures Inv(st, t, home, root, process)
  {
    hide Sound, Layout, Mapped, Partition, SmallPages, Guarded, Translate, Held;
    NewSpacePartition();
  }

  // ---------------------------------------------------------------- typed allocation

  /** Retyping a run back to the type it had restores the identical blocks. */
  lemma RetypeBack(s: seq<Range>, s1: seq<Range>, s2: seq<Range>, i: nat, at: nat, n: nat, kind: nat)
    requires Canonical(s) && i < |s| && s[i].addr <= at && at + n * PAGE <= s[i].End()
    requires Retyped(s, s1, at, n, kind) && Retyped(s1, s2, at, n, s[i].kind)
    ensures s2 == s
  {
    RetypedSame(s, i, at, n);
    hide Canonical, Covers, InRun;
    CanonicalUnique(s2, s);
  }

  /** A RESERVE, COMMIT or COMMITXF request that succeeds takes the lowest run that is reserved,
      for a COMMIT, and free for the others; the run then has the new type and every other byte
      keeps its type. */
  lemma TypedServed(st: State, t: Tables, st': State, t': Tables, root: nat, process: nat,
                    hint: nat, pages: nat, kind: nat, addr: nat, taken: nat)
    requires Partition(Blocks(st, process)) && pages > 0 && (kind == RESERVE || kind == COMMIT || kind == COMMITXF)
    requires TypedDone(st, t, st', t', root, process, hint, pages, kind, Returned(addr, 0))
    requires taken == if kind == COMMIT then RESERVE else FREE
    ensures From(hint) <= addr && RunOf(Blocks(st, process), addr, pages, taken)
    ensures RunOf(Blocks(st', process), addr, pages, if kind == RESERVE then RESERVE else COMMIT)
    ensures forall m: nat :: From(hint) <= m && RunOf(Blocks(st, process), m, pages, taken) ==> addr <= m
    ensures forall x: nat, k: nat :: !InRun(x, addr, pages) ==>
      (Covers(Blocks(st', process), x, k) <==> Covers(Blocks(st, process), x, k))
    ensures forall x: nat :: Translate(t', root, x) == Translate(t, root, x)
  {
    hide Layout, Translate, Held, From, AlignUp, Covers, Fits, FitAt, ServingTurn, Spare, NodesNeeded, AnyMapped;
    var s := Blocks(st, process);
    PartitionCanonical(s);
    WantedTurn(s, From(hint), pages, kind);
    hide Partition, Canonical;
    FirstFitSound(s, From(hint), pages, 1, Wanted(kind));
    forall m: nat | From(hint) <= m && RunOf(s, m, pages, taken)
      ensures addr <= m
    {
      FirstFitLowest(s, From(hint), pages, 1, Wanted(kind), m, taken);
    }
    NotInEmpty(addr);
  }

  /** The run that a COMMITXF request was given is committed, inside user space, and none of its
      pages is mapped yet. */
  lemma FreshlyServed(st: State, t: Tables, home: map<nat, Home>, st': State, t': Tables, root: nat, process: nat,
                      hint: nat, pages: nat, addr: nat)
    requires Inv(st, t, home, root, process) && pages > 0
    requires TypedDone(st, t, st', t', root, process, hint, pages, COMMITXF, Returned(addr, 0))
    ensures addr % PAGE == 0 && PAGE <= addr && addr + pages * PAGE <= USER_END
    ensures RunOf(Blocks(st', process), addr, pages, COMMIT)
    ensures forall x: nat :: InRun(x, addr, pages) ==> !Mapped(t', root, x)
  {
    hide Sound, FramesOwned, SmallPages, Guarded, Translate, Held, Layout, Partition, AllPlaced, TypedDone, Covers,
         Private, Serving, FitAt, ServingTurn, From;
    var s := Blocks(st, process);
    BlocksPlaced(st, t, home, root, process);
    PartitionCanonical(s);
    FromAligned(hint);
    TypedServed(st, t, st', t', root, process, hint, pages, COMMITXF, addr, FREE);
    ServedRun(st, t, st', t', root, process, hint, pages, addr);
    hide Canonical;
    forall x: nat | InRun(x, addr, pages)
      ensures !Mapped(t', root, x)
    {
      assert Covers(s, x, FREE);
      if Mapped(t, root, x) { OneType(s, x, FREE, COMMIT); }
    }
  }

  /** In a new address space a COMMITXF request from address 0 that fits user space takes its first
      pages, unless it needs a node for the rest of user space and there is none to be had. */
  lemma NewSpaceServed(st: State, t: Tables, st': State, t': Tables, root: nat, process: nat, n: nat, reply: Reply)
    requires Blocks(st, process) == [Range(0x1000, 0x7FFFFFFFF * PAGE, FREE)] && 0 < n <= 0x7FFFFFFFF
    requires RequestDone(st, t, st', t', root, process, 0, n, COMMITXF, reply)
    ensures reply == if Free(st) == [] && Spare(st) < (if n < 0x7FFFFFFFF then 1 else 0) then OutOfNodes
                     else Returned(0x1000, 0)
    ensures reply.Returned? ==> PageCount(Free(st')) + 1 >= PageCount(Free(st))
  {
    hide Layout, Uncommitted, Spare, PageCount, Canonical, Mapped, From, TypedDone, ServingTurn, AnyMapped;
    var s := Blocks(st, process);
    FromAligned(0);
    NewSpaceTurn(s, n);
    NewSpaceTyped(st, t, st', t', root, process, n, reply);
  }

  lemma NewSpaceTurn(s: seq<Range>, n: nat)
    requires s == [Range(0x1000, 0x7FFFFFFFF * PAGE, FREE)] && 0 < n <= 0x7FFFFFFFF
    ensures ServingTurn(s, 0, n, COMMITXF) == Turn(0, 0x1000, n, 0)
  {
    AlignOne(0x1000);
    assert Fits(s[0], 0, n, 1, Wanted(COMMITXF));
  }

  lemma NewSpaceTyped(st: State, t: Tables, st': State, t': Tables, root: nat, process: nat, n: nat, reply: Reply)
    requires Blocks(st, process) == [Range(0x1000, 0x7FFFFFFFF * PAGE, FREE)] && 0 < n <= 0x7FFFFFFFF
    requires TypedDone(st, t, st', t', root, process, 0, n, COMMITXF, reply)
    requires From(0) == 0 && ServingTurn(Blocks(st, process), 0, n, COMMITXF) == Turn(0, 0x1000, n, 0)
    ensures reply == if Free(st) == [] && Spare(st) < (if n < 0x7FFFFFFFF then 1 else 0) then OutOfNodes
                     else Returned(0x1000, 0)
    ensures reply.Returned? ==> PageCount(Free(st')) + 1 >= PageCount(Free(st))
  {
    hide Layout, Uncommitted, Spare, PageCount, Canonical, Mapped, From, ServingTurn, AnyMapped, Retyped;
    AnswersStart(0x1000, 0, n);
  }

  lemma ServedRun(st: State, t: Tables, st': State, t': Tables, root: nat, process: nat, hint: nat, pages: nat,
                  addr: nat)
    requires Partition(Blocks(st, process)) && AllPlaced(Blocks(st, process)) && pages > 0 && From(hint) % PAGE == 0
    requires TypedDone(st, t, st', t', root, process, hint, pages, COMMITXF, Returned(addr, 0))
    ensures addr % PAGE == 0 && PAGE <= addr && addr + pages * PAGE <= USER_END
  {
    hide Layout, Partition, AllPlaced, Serving, FitAt, ServingTurn, From, TurnStarves, TurnDone;
    var s := Blocks(st, process);
    WantedTurn(s, From(hint), pages, COMMITXF);
    ServingFacts(s, From(hint), pages, COMMITXF);
    RunInUser(s, Serving(s, From(hint), pages, COMMITXF), addr, pages);
  }

  lemma NotInEmpty(at: nat)
    ensures forall x: nat :: !InRun(x, at, 0)
  {
  }

  /** A request that stays in the block that serves it is done in one turn, and answered with
      the start of its run. */
  lemma OneTurn(s: seq<Range>, lo: nat, pages: nat, kind: nat)
    requires InOneBlock(s, lo, pages, kind) && Serving(s, lo, pages, kind) < |s|
    ensures var i := Serving(s, lo, pages, kind);
      ServingTurn(s, lo, pages, kind) == Turn(i, FitAt(s[i], lo, 1), pages, 0)
  {
    hide FitAt, Serving;
  }

  lemma AnswersStart(at: nat, i: nat, pages: nat)
    requires at < WORD64
    ensures LastReply(Turn(i, at, pages, 0), pages) == Returned(at, 0)
  {
  }

  lemma WantedTurn(s: seq<Range>, lo: nat, pages: nat, kind: nat)
    requires Partition(s) && Wanted(kind).Some?
    ensures var i := Serving(s, lo, pages, kind);
      i < |s| ==>
        && ServingTurn(s, lo, pages, kind) == Turn(i, FitAt(s[i], lo, 1), pages, 0)
        && LastReply(Turn(i, FitAt(s[i], lo, 1), pages, 0), pages) == Returned(FitAt(s[i], lo, 1), 0)
    ensures var i := Serving(s, lo, pages, kind);
      i == |s| ==> ServingTurn(s, lo, pages, kind).block == |s|
  {
    var i := Serving(s, lo, pages, kind);
    if i < |s| {
      WantedInOneBlock(s, lo, pages, kind);
      OneTurn(s, lo, pages, kind);
      PartitionInside(s, i);
      OneBlockAt(s, lo, pages, kind, i);
      AnswersStart(FitAt(s[i], lo, 1), i, pages);
    }
  }

  lemma WantedInOneBlock(s: seq<Range>, lo: nat, pages: nat, kind: nat)
    requires Wanted(kind).Some?
    ensures InOneBlock(s, lo, pages, kind)
  {
    hide FitAt;
  }

  /** It fails exactly when the address space holds no such run. */
  lemma TypedFailsIff(st: State, t: Tables, st': State, t': Tables, root: nat, process: nat,
                      hint: nat, pages: nat, kind: nat, reply: Reply, taken: nat)
    requires Partition(Blocks(st, process)) && pages > 0 && (kind == RESERVE || kind == COMMIT || kind == COMMITXF)
    requires TypedDone(st, t, st', t', root, process, hint, pages, kind, reply)
    requires taken == if kind == COMMIT then RESERVE else FREE
    ensures reply == Returned(0, 1) <==>
      !exists m: nat :: From(hint) <= m && RunOf(Blocks(st, process), m, pages, taken)
  {
    hide Layout, From, AlignUp, Covers, Fits, FitAt, Uncommitted, Retyped, ServingTurn, TurnStarves;
    var s := Blocks(st, process);
    PartitionCanonical(s);
    WantedTurn(s, From(hint), pages, kind);
    hide Partition, Canonical;
    FirstFitSound(s, From(hint), pages, 1, Wanted(kind));
    if m: nat :| From(hint) <= m && RunOf(s, m, pages, taken) {
      FirstFitLowest(s, From(hint), pages, 1, Wanted(kind), m, taken);
    }
  }

  /** A FREE or UNCOMMIT request stays within the block that serves it exactly if its pages,
      from the first page of user space on, have one type, or it starts above user space. */
  lemma InOneBlockIff(s: seq<Range>, lo: nat, pages: nat, kind: nat)
    requires Partition(s) && AllPlaced(s) && lo % PAGE == 0 && pages > 0 && (kind == FREE || kind == UNCOMMIT)
    ensures var from := if lo < PAGE then PAGE else lo;
      InOneBlock(s, lo, pages, kind) <==> lo >= USER_END || exists k: nat :: RunOf(s, from, pages, k)
  {
    PartitionCanonical(s);
    var from := if lo < PAGE then PAGE else lo;
    if lo >= USER_END {
      NothingBeyond(s, lo, pages, kind);
    } else {
      assert InSomeBlock(s, from);
      hide Canonical, AllPlaced, FitAt, Serving, InOneBlock;
      var k: nat :| Covers(s, from, k);
      var b :| 0 <= b < |s| && s[b].Has(from) && s[b].kind == k;
      ServesFrom(s, lo, from, pages, kind, b);
      hide Partition;
      OneTypeIff(s, b, from, pages);
    }
  }

  // ---------------------------------------------------------------- requests over several blocks

  /** The turn that serves the request leaves pages to serve, and frees the node from which the
      walk goes on. */
  predicate Strays(s: seq<Range>, lo: nat, pages: nat, kind: nat) {
    var u := ServingTurn(s, lo, pages, kind);
    pages > 0 && kind <= 4 && u.block < |s| && u.left > 0 && s[u.block].kind != kind
  }

  /** The first page of user space from `lo` on. */
  function UserFrom(lo: nat): nat { if lo < PAGE then PAGE else lo }

  /** What a request's serving turn covers: the pages before it have the type asked for, its own
      pages the type of its block; it reaches the end of the request or of its block. */
  lemma TurnCovers(s: seq<Range>, lo: nat, pages: nat, kind: nat)
    requires Partition(s) && AllPlaced(s) && lo % PAGE == 0 && pages > 0 && Wanted(kind).None? && lo < USER_END
    ensures var u := ServingTurn(s, lo, pages, kind);
      && u.block < |s| && InBlock(s, u.block, u.at, u.pages)
      && UserFrom(lo) <= u.at && u.at + (u.pages + u.left) * PAGE == UserFrom(lo) + pages * PAGE
      && (u.left > 0 ==> u.at + u.pages * PAGE == s[u.block].End())
      && (u.left > 0 && s[u.block].kind == kind ==> u.block == |s| - 1)
      && (u.at > UserFrom(lo) ==> kind == FREE && s[u.block].kind != FREE)
      && (forall x: nat :: UserFrom(lo) <= x < u.at ==> Covers(s, x, kind))
  {
    hide Partition, AllPlaced, ServingTurn, FitAt, Serving, PagesServed;
    var from := UserFrom(lo);
    var i := FirstServes(s, lo, pages, kind);
    PartitionInside(s, i);
    ServingFacts(s, lo, pages, kind);
    var at, n := FitAt(s[i], lo, 1), PagesServed(s[i], FitAt(s[i], lo, 1), pages);
    TakenInside(s, i, at, pages);
    if s[i].kind == kind && n < pages {
      if i + 1 < |s| {
        SecondTurn(s, lo, pages, kind);
        NextBlock(s, i);
        BlockPlaced(s, i + 1);
        forall x: nat | from <= x < s[i + 1].addr
          ensures Covers(s, x, kind)
        {
          assert s[i].Has(x);
        }
        SecondEnd(s[i + 1], pages - n);
      } else {
        OnlyTurn(s, lo, pages, kind);
      }
    } else {
      FirstTurn(s, lo, pages, kind);
    }
  }

  lemma SecondEnd(r: Range, left: nat)
    requires Placed(r)
    ensures Least(r.size / PAGE, left) < left ==> r.addr + Least(r.size / PAGE, left) * PAGE == r.End()
  {
  }

  /** The first block is kept and is the last. */
  lemma OnlyTurn(s: seq<Range>, lo: nat, pages: nat, kind: nat)
    requires Serving(s, lo, pages, kind) + 1 == |s|
    ensures var i := Serving(s, lo, pages, kind);
      var n := PagesServed(s[i], FitAt(s[i], lo, 1), pages);
      ServingTurn(s, lo, pages, kind) == Turn(i, FitAt(s[i], lo, 1), n, pages - n)
  {
    hide FitAt, PagesServed, Serving;
  }

  /** The block that holds the first address a request may use serves it, from there. */
  lemma FirstServes(s: seq<Range>, lo: nat, pages: nat, kind: nat) returns (b: nat)
    requires Partition(s) && pages > 0 && Wanted(kind).None? && lo < USER_END
    ensures b == Serving(s, lo, pages, kind) < |s| && s[b].Has(UserFrom(lo)) && FitAt(s[b], lo, 1) == UserFrom(lo)
  {
    PartitionCanonical(s);
    var from := UserFrom(lo);
    assert InSomeBlock(s, from);
    var k: nat :| Covers(s, from, k);
    b :| 0 <= b < |s| && s[b].Has(from) && s[b].kind == k;
    hide Canonical;
    hide Partition, Serving, FitAt, InOneBlock;
    ServesFrom(s, lo, from, pages, kind, b);
  }

  /** A page of the run has a type that is not the one asked for, and the next page of the run
      has another type. */
  ghost predicate TypeEndsIn(s: seq<Range>, from: nat, pages: nat, kind: nat, x: nat, k: nat) {
    && from <= x && x % PAGE == 0 && x + PAGE < from + pages * PAGE
    && k != kind && Covers(s, x, k) && !Covers(s, x + PAGE, k)
  }

  /** A FREE or UNCOMMIT request strays exactly if the type of its pages changes somewhere in
      the run, but for a change after pages that are free already if that is what is asked. */
  lemma StraysIff(s: seq<Range>, lo: nat, pages: nat, kind: nat)
    requires Partition(s) && AllPlaced(s) && lo % PAGE == 0 && pages > 0 && (kind == FREE || kind == UNCOMMIT)
    ensures Strays(s, lo, pages, kind) <==> exists x: nat, k: nat :: TypeEndsIn(s, UserFrom(lo), pages, kind, x, k)
  {
    hide AllPlaced, ServingTurn, Covers;
    if lo >= USER_END {
      NeverServed(s, lo, pages, kind);
      assert forall x: nat, k: nat :: Covers(s, x, k) ==> InSomeBlock(s, x);
    } else {
      TurnCovers(s, lo, pages, kind);
      hide Partition;
      var u := ServingTurn(s, lo, pages, kind);
      if Strays(s, lo, pages, kind) { StrayEnds(s, UserFrom(lo), pages, kind, u); }
      forall x: nat, k: nat | TypeEndsIn(s, UserFrom(lo), pages, kind, x, k)
        ensures Strays(s, lo, pages, kind)
      {
        EndStrays(s, UserFrom(lo), pages, kind, u, x, k);
      }
    }
  }

  lemma NeverServed(s: seq<Range>, lo: nat, pages: nat, kind: nat)
    requires Partition(s) && lo >= USER_END && Wanted(kind).None?
    ensures ServingTurn(s, lo, pages, kind).block == |s|
  {
    hide AlignUp;
    var i := Serving(s, lo, pages, kind);
    if i < |s| {
      PartitionInside(s, i);
      AlignOne(lo);
      assert false;
    }
  }

  /** The last page of a turn that strays. */
  lemma StrayEnds(s: seq<Range>, from: nat, pages: nat, kind: nat, u: Turn)
    requires Canonical(s) && u.block < |s| && InBlock(s, u.block, u.at, u.pages) && from <= u.at
    requires u.left > 0 && u.at + u.pages * PAGE == s[u.block].End() && s[u.block].kind != kind
    requires u.at + (u.pages + u.left) * PAGE == from + pages * PAGE
    ensures TypeEndsIn(s, from, pages, kind, s[u.block].End() - PAGE, s[u.block].kind)
  {
    var end := s[u.block].End();
    assert s[u.block].Has(end - PAGE);
    forall j | 0 <= j < |s| && s[j].kind == s[u.block].kind
      ensures !s[j].Has(end)
    {
    }
    LastPageOf(u.at, u.pages);
  }

  lemma LastPageOf(at: nat, n: nat)
    requires at % PAGE == 0 && n > 0
    ensures at + n * PAGE >= PAGE && at <= at + n * PAGE - PAGE && (at + n * PAGE - PAGE) % PAGE == 0
  {
    DivModUnique(at + n * PAGE - PAGE, at / PAGE + n - 1, 0, PAGE);
  }

  /** A change of type within the run leaves pages to serve. */
  lemma EndStrays(s: seq<Range>, from: nat, pages: nat, kind: nat, u: Turn, x: nat, k: nat)
    requires Partition(s) && u.block < |s| && InBlock(s, u.block, u.at, u.pages) && from <= u.at
    requires u.at + (u.pages + u.left) * PAGE == from + pages * PAGE
    requires u.left > 0 ==> u.at + u.pages * PAGE == s[u.block].End()
    requires u.left > 0 && s[u.block].kind == kind ==> u.block == |s| - 1
    requires forall y: nat :: from <= y < u.at ==> Covers(s, y, kind)
    requires TypeEndsIn(s, from, pages, kind, x, k)
    ensures u.left > 0 && s[u.block].kind != kind
  {
    PartitionCanonical(s);
    hide Partition;
    if x < u.at {
      OneType(s, x, k, kind);
      assert false;
    } else if x < s[u.block].End() {
      assert s[u.block].Has(x);
      KindUnique(s, u.block, x, k);
      assert !s[u.block].Has(x + PAGE);
    } else if u.left > 0 && u.block == |s| - 1 {
      assert false;
    }
  }

  /** A FREE or UNCOMMIT request that is answered has changed the type of exactly its run, from
      the first page of user space on, and left no page of it mapped. The address it answers is
      that of the run if and only if the run lay in one block. */
  lemma RunServed(st: State, t: Tables, home: map<nat, Home>, st': State, t': Tables, root: nat, process: nat,
                  hint: nat, pages: nat, kind: nat, addr: nat)
    requires Inv(st, t, home, root, process) && pages > 0 && (kind == FREE || kind == UNCOMMIT)
      && From(hint) < USER_END
    requires TypedDone(st, t, st', t', root, process, hint, pages, kind, Returned(addr, 0))
    ensures var s, from := Blocks(st, process), UserFrom(From(hint));
      && Retyped(s, Blocks(st', process), from, pages,
                 if kind == FREE || Covers(s, from, FREE) then FREE else RESERVE)
      && (forall x: nat :: Private(x) ==>
            Translate(t', root, x) == if InRun(x, from, pages) then None else Translate(t, root, x))
      && (addr == from <==> InOneBlock(s, From(hint), pages, kind))
  {
    hide Sound, Held, Translate, Layout, AllPlaced, Partition, FramesOwned, SmallPages, Guarded, ServingTurn, From,
         Retyped, TypedDone, Uncommitted, InOneBlock, Covers, Committed, LastReply, Canonical, InBlock, InRun, Private;
    var s, lo := Blocks(st, process), From(hint);
    BlocksPlaced(st, t, home, root, process);
    FromAligned(hint);
    TurnCovers(s, lo, pages, kind);
    var u := ServingTurn(s, lo, pages, kind);
    ReturnedTurn(st, t, st', t', root, process, hint, pages, kind, addr);
    ReturnedWhole(s, lo, pages, kind, u, addr);
    PartitionCanonical(s);
    RunInUser(s, u.block, u.at, u.pages);
    WholeRetyped(s, Blocks(st', process), UserFrom(lo), pages, kind, u);
    UncommittedRun(st, t, st', t', root, u.at, if Unmaps(kind, s[u.block].kind) then u.pages else 0);
    WholeUnmapped(t, t', root, s, UserFrom(lo), pages, kind, u);
  }

  lemma ReturnedTurn(st: State, t: Tables, st': State, t': Tables, root: nat, process: nat, hint: nat, pages: nat,
                     kind: nat, addr: nat)
    requires pages > 0 && TypedDone(st, t, st', t', root, process, hint, pages, kind, Returned(addr, 0))
    ensures var u := ServingTurn(Blocks(st, process), From(hint), pages, kind);
      && kind <= 4 && LastReply(u, pages) == Returned(addr, 0)
      && TurnDone(st, t, st', t', root, process, u.block, u.at, u.pages, kind)
  {
    hide Layout, From, ServingTurn, TurnStarves, TurnDone, LastReply;
  }

  /** The address answered: short of the run's last turn by a page count instead of bytes. */
  lemma ReturnedWhole(s: seq<Range>, lo: nat, pages: nat, kind: nat, u: Turn, addr: nat)
    requires Partition(s) && AllPlaced(s) && lo % PAGE == 0 && pages > 0 && Wanted(kind).None? && lo < USER_END
    requires u == ServingTurn(s, lo, pages, kind) && LastReply(u, pages) == Returned(addr, 0) && kind <= 4
    ensures u.left == 0 && (addr == UserFrom(lo) <==> InOneBlock(s, lo, pages, kind))
    ensures addr == u.at - (pages - u.pages)
  {
    hide AllPlaced, ServingTurn, InOneBlock, Serving, FitAt;
    TurnCovers(s, lo, pages, kind);
    RunInUser(s, u.block, u.at, u.pages);
    var b := FirstServes(s, lo, pages, kind);
    ServesFrom(s, lo, UserFrom(lo), pages, kind, b);
    if InOneBlock(s, lo, pages, kind) {
      OneTurn(s, lo, pages, kind);
    }
    if u.at == UserFrom(lo) {
      PartitionCanonical(s);
      OneBlockFrom(s, u.block, b, u.at, pages);
    }
  }

  lemma OneBlockFrom(s: seq<Range>, i: nat, b: nat, at: nat, pages: nat)
    requires Canonical(s) && InBlock(s, i, at, pages) && b < |s| && s[b].Has(at)
    ensures (s[b].End() - at) / PAGE >= pages
  {
    assert s[i].Has(at);
    WholeRoom(at, s[b].End(), pages);
  }

  lemma WholeRetyped(s: seq<Range>, s': seq<Range>, from: nat, pages: nat, kind: nat, u: Turn)
    requires Canonical(s) && u.block < |s| && InBlock(s, u.block, u.at, u.pages) && from <= u.at
    requires u.at + u.pages * PAGE == from + pages * PAGE && (kind == FREE || kind == UNCOMMIT)
    requires u.at > from ==> kind == FREE
    requires forall x: nat :: from <= x < u.at ==> Covers(s, x, kind)
    requires Retyped(s, s', u.at, u.pages, NewKind(kind, s[u.block].kind))
    ensures Retyped(s, s', from, pages, if kind == FREE || Covers(s, from, FREE) then FREE else RESERVE)
  {
    hide Canonical, Covers;
    HeldBy(s, u.block, u.at);
    forall x: nat, k: nat | from <= x < u.at
      ensures Covers(s, x, k) <==> k == kind
    {
      if Covers(s, x, k) { OneType(s, x, k, kind); }
    }
  }

  lemma UncommittedRun(st: State, t: Tables, st': State, t': Tables, root: nat, lo: nat, n: nat)
    requires Uncommitted(st, t, st', t', root, lo, n)
    ensures forall x: nat :: Translate(t', root, x) == if InRun(x % SPACE, lo, n) then None else Translate(t, root, x)
  {
    hide Translate, Held;
  }

  lemma HeldBy(s: seq<Range>, i: nat, x: nat)
    requires Canonical(s) && i < |s| && s[i].Has(x)
    ensures forall k: nat :: Covers(s, x, k) <==> k == s[i].kind
  {
    forall k: nat | Covers(s, x, k)
      ensures k == s[i].kind
    {
      KindUnique(s, i, x, k);
    }
  }

  lemma WholeUnmapped(t: Tables, t': Tables, root: nat, s: seq<Range>, from: nat, pages: nat, kind: nat, u: Turn)
    requires Canonical(s) && Committed(t, root, s) && from + pages * PAGE <= USER_END
    requires u.block < |s| && InBlock(s, u.block, u.at, u.pages) && from <= u.at
    requires u.at + u.pages * PAGE == from + pages * PAGE && (kind == FREE || kind == UNCOMMIT)
    requires u.at > from ==> kind == FREE
    requires forall x: nat :: from <= x < u.at ==> Covers(s, x, kind)
    requires var n := if Unmaps(kind, s[u.block].kind) then u.pages else 0;
      forall x: nat :: Translate(t', root, x) == if InRun(x % SPACE, u.at, n) then None else Translate(t, root, x)
    ensures forall x: nat :: Private(x) ==>
      Translate(t', root, x) == if InRun(x, from, pages) then None else Translate(t, root, x)
  {
    hide Canonical, Covers, Translate;
    forall x: nat | Private(x)
      ensures Translate(t', root, x) == if InRun(x, from, pages) then None else Translate(t, root, x)
    {
      PrivateSmall(x);
      if InRun(x, from, pages) && Mapped(t, root, x) {
        if x < u.at {
          OneType(s, x, COMMIT, kind);
        } else {
          HasRun(s[u.block], u.at, u.pages, x);
          HeldBy(s, u.block, x);
        }
      }
    }
  }

  lemma OneType(s: seq<Range>, x: nat, k: nat, k': nat)
    requires Canonical(s) && Covers(s, x, k) && Covers(s, x, k')
    ensures k == k'
  {
    var i :| 0 <= i < |s| && s[i].Has(x) && s[i].kind == k;
    KindUnique(s, i, x, k');
  }

  /** The user space of an example: one page of type `k`, a committed page, and the rest. */
  function TwoPages(k: nat, rest: nat): seq<Range> {
    [Range(0x1000, PAGE, k), Range(0x2000, PAGE, COMMIT), Range(0x3000, USER_END - 0x3000, rest)]
  }

  lemma TwoPagesPartition(k: nat, rest: nat)
    requires k < COMMIT && rest < COMMIT
    ensures Partition(TwoPages(k, rest)) && AllPlaced(TwoPages(k, rest))
  {
    var s := TwoPages(k, rest);
    forall x: nat | PAGE <= x < USER_END
      ensures InSomeBlock(s, x)
    {
      var i := if x < 0x2000 then 0 else if x < 0x3000 then 1 else 2;
      assert s[i].Has(x);
      assert Covers(s, x, s[i].kind);
    }
  }

  /** UNCOMMIT of a reserved and a committed page strays after the first: the cursor is one byte
      into it, and the committed page is not yet served. */
  lemma StrayExample()
    ensures var s := TwoPages(RESERVE, FREE);
      && Partition(s) && AllPlaced(s)
      && Strays(s, 0x1000, 2, UNCOMMIT) && !InOneBlock(s, 0x1000, 2, UNCOMMIT)
      && ServingTurn(s, 0x1000, 2, UNCOMMIT) == Turn(0, 0x1000, 1, 1)
      && LastReply(Turn(0, 0x1000, 1, 1), 2) == Strayed(0x1001)
  {
    hide Partition, AllPlaced;
    TwoPagesPartition(RESERVE, FREE);
    AlignOne(0x1000);
  }

  /** FREE of a free and a committed page at 0x1000 is served, but answered with 0x1FFF. */
  lemma WrongAnswerExample()
    ensures var s := TwoPages(FREE, RESERVE);
      && Partition(s) && AllPlaced(s)
      && !Strays(s, 0x1000, 2, FREE) && !InOneBlock(s, 0x1000, 2, FREE)
      && LastReply(ServingTurn(s, 0x1000, 2, FREE), 2) == Returned(0x1FFF, 0)
  {
    hide Partition, AllPlaced;
    TwoPagesPartition(FREE, RESERVE);
    AlignOne(0x1000);
  }

  lemma NothingBeyond(s: seq<Range>, lo: nat, pages: nat, kind: nat)
    requires Partition(s) && lo >= USER_END && Wanted(kind).None?
    ensures InOneBlock(s, lo, pages, kind)
  {
    hide AlignUp;
    var i := Serving(s, lo, pages, kind);
    if i < |s| {
      PartitionInside(s, i);
      AlignOne(lo);
      assert false;
    }
  }

  /** The block that holds the first address a request may use serves it. */
  lemma ServesFrom(s: seq<Range>, lo: nat, from: nat, pages: nat, kind: nat, b: nat)
    requires Partition(s) && Canonical(s) && pages > 0 && Wanted(kind).None?
    requires from == (if lo < PAGE then PAGE else lo) && b < |s| && s[b].Has(from)
    ensures InOneBlock(s, lo, pages, kind) <==> (s[b].End() - from) / PAGE >= pages
    ensures Serving(s, lo, pages, kind) == b && FitAt(s[b], lo, 1) == from
  {
    hide Partition, AlignUp, InOneBlock;
    PartitionInside(s, b);
    AlignOne(lo);
    forall j | 0 <= j < b
      ensures !Fits(s[j], lo, 0, 1, None)
    {
      PartitionInside(s, j);
    }
    AlignOne(if s[b].addr < lo then lo else s[b].addr);
    assert Fits(s[b], lo, 0, 1, None);
    FirstFitIs(s, lo, 0, 1, None, b);
    OneBlockAt(s, lo, pages, kind, b);
  }

  lemma OneTypeIff(s: seq<Range>, b: nat, from: nat, pages: nat)
    requires Canonical(s) && AllPlaced(s) && b < |s| && s[b].Has(from) && from % PAGE == 0 && pages > 0
    ensures (s[b].End() - from) / PAGE >= pages <==> exists k: nat :: RunOf(s, from, pages, k)
  {
    assert Placed(s[b]);
    WholeRoom(from, s[b].End(), pages);
    if k: nat :| RunOf(s, from, pages, k) {
      var i := RunInOneBlock(s, from, pages, k);
      assert s[i].Has(from);
      assert i == b;
    }
    if from + pages * PAGE <= s[b].End() {
      forall x: nat | from <= x < from + pages * PAGE
        ensures Covers(s, x, s[b].kind)
      {
        assert s[b].Has(x);
      }
      assert RunOf(s, from, pages, s[b].kind);
    }
  }

  lemma WholeRoom(from: nat, end: nat, pages: nat)
    requires from <= end && from % PAGE == 0
    ensures (end - from) / PAGE >= pages <==> from + pages * PAGE <= end
  {
    MulGap(pages, (end - from) / PAGE, PAGE);
    MulGap((end - from) / PAGE, pages, PAGE);
  }

  /** Discarding pages the way the heap does, UNCOMMIT and then COMMIT of the same run of a
      committed block, leaves the blocks as they were and the run unmapped, its frames given
      back. */
  lemma DiscardMeaning(st: State, t: Tables, st1: State, t1: Tables, st2: State, t2: Tables, root: nat, process: nat,
      at: nat, n: nat)
    requires Partition(Blocks(st, process)) && n > 0 && at < WORD64 && at % PAGE == 0
    requires RunOf(Blocks(st, process), at, n, COMMIT)
    requires TypedDone(st, t, st1, t1, root, process, at, n, UNCOMMIT, Returned(at, 0))
    requires TypedDone(st1, t1, st2, t2, root, process, at, n, COMMIT, Returned(at, 0))
    ensures Blocks(st2, process) == Blocks(st, process)
    ensures forall x: nat :: Translate(t2, root, x) == if InRun(x % SPACE, at, n) then None else Translate(t, root, x)
    ensures forall f: nat :: f % PAGE == 0 ==> (Held(st2, f) <==> Held(st, f) && !BacksIn(t, root, at, n, f))
  {
    var s := Blocks(st, process);
    PartitionCanonical(s);
    hide Partition, Layout, Translate, Held, BacksIn, TypedDone, Retyped, Canonical, Covers;
    var i := RunInOneBlock(s, at, n, COMMIT);
    DiscardServes(st, t, st1, t1, root, process, at, n);
    RetypedRun(s, Blocks(st1, process), at, n, RESERVE);
    RetypedPartition(s, Blocks(st1, process), i, at, n, RESERVE);
    CommitBack(st1, t1, st2, t2, root, process, at, n);
    RetypeBack(s, Blocks(st1, process), Blocks(st2, process), i, at, n, RESERVE);
    NotInEmpty(at);
    NoFrames(t1, root, at);
  }

  /** Both requests of a discard are served where they are asked for. */
  lemma DiscardServed(st: State, t: Tables, st1: State, t1: Tables, root: nat, process: nat, at: nat, n: nat,
                      kind: nat, reply: Reply)
    requires Partition(Blocks(st, process)) && n > 0 && at < WORD64 && at % PAGE == 0
    requires (kind == UNCOMMIT && RunOf(Blocks(st, process), at, n, COMMIT)) ||
      (kind == COMMIT && RunOf(Blocks(st, process), at, n, RESERVE))
    requires TypedDone(st, t, st1, t1, root, process, at, n, kind, reply)
    ensures var i := Serving(Blocks(st, process), at, n, kind);
      reply == if TurnStarves(st, t, root, process, i, at, n, kind) then OutOfNodes else Returned(at, 0)
    ensures reply.Returned? && kind == UNCOMMIT ==> Retyped(Blocks(st, process), Blocks(st1, process), at, n, RESERVE)
  {
    var s := Blocks(st, process);
    PartitionCanonical(s);
    FromOf(at);
    DiscardTurn(s, at, n, kind);
    hide Partition, Layout, Uncommitted, RunOf, Covers, Serving, ServingTurn, From, Retyped, TurnStarves;
    AnswersStart(at, Serving(s, at, n, kind), n);
  }

  lemma DiscardTurn(s: seq<Range>, at: nat, n: nat, kind: nat)
    requires Canonical(s) && n > 0
    requires (kind == UNCOMMIT && RunOf(s, at, n, COMMIT)) || (kind == COMMIT && RunOf(s, at, n, RESERVE))
    ensures var i := Serving(s, at, n, kind);
      && i < |s| && s[i].kind == (if kind == UNCOMMIT then COMMIT else RESERVE)
      && s[i].addr <= at && at + n * PAGE <= s[i].End()
      && ServingTurn(s, at, n, kind) == Turn(i, at, n, 0)
  {
    hide RunOf, Covers, FitAt, Fits, InOneBlock;
    AlignOne(at);
    var k := if kind == UNCOMMIT then COMMIT else RESERVE;
    var i := RunInOneBlock(s, at, n, k);
    RunRoom(s[i], at, n);
    if kind == UNCOMMIT {
      FirstBeyond(s, at, n, i);
    } else {
      FirstFitLowest(s, at, n, 1, Wanted(kind), at, RESERVE);
      ServesAt(s, at, n, i);
    }
    OneBlockAt(s, at, n, kind, i);
    OneTurn(s, at, n, kind);
  }

  /** A COMMIT request is served by the block that holds the address it asks for, if the run
      lies in it. */
  lemma ServesAt(s: seq<Range>, at: nat, n: nat, i: nat)
    requires Canonical(s) && i < |s| && s[i].Has(at) && s[i].kind == RESERVE && (s[i].End() - at) / PAGE >= n
    ensures Serving(s, at, n, COMMIT) == i
  {
    AlignOne(at);
    assert Fits(s[i], at, n, 1, Some(RESERVE));
    FirstFitIs(s, at, n, 1, Some(RESERVE), i);
  }

  lemma RunRoom(r: Range, at: nat, n: nat)
    requires r.addr <= at && at + n * PAGE <= r.End()
    ensures FitAt(r, at, 1) == at && (r.End() - at) / PAGE >= n
  {
    AlignOne(at);
    MulGap((r.End() - at) / PAGE + 1, n, PAGE);
  }

  lemma RetypedRun(s: seq<Range>, s': seq<Range>, at: nat, n: nat, kind: nat)
    requires Retyped(s, s', at, n, kind)
    ensures RunOf(s', at, n, kind)
  {
    hide Canonical, Covers;
  }

  lemma NoFrames(t: Tables, root: nat, at: nat)
    ensures forall f: nat :: !BacksIn(t, root, at, 0, f)
  {
    hide Translate, Private;
    NotInEmpty(at);
  }

  lemma FromOf(at: nat)
    requires at % PAGE == 0 && at < WORD64
    ensures From(at) == at
  {
    hide AlignUp;
    AlignExact(at, at / PAGE, PAGE);
  }

  lemma DiscardServes(st: State, t: Tables, st1: State, t1: Tables, root: nat, process: nat, at: nat, n: nat)
    requires Partition(Blocks(st, process)) && n > 0 && at < WORD64 && at % PAGE == 0
    requires RunOf(Blocks(st, process), at, n, COMMIT)
    requires TypedDone(st, t, st1, t1, root, process, at, n, UNCOMMIT, Returned(at, 0))
    ensures Retyped(Blocks(st, process), Blocks(st1, process), at, n, RESERVE)
    ensures Uncommitted(st, t, st1, t1, root, at, n)
  {
    var s := Blocks(st, process);
    PartitionCanonical(s);
    FromOf(at);
    DiscardTurn(s, at, n, UNCOMMIT);
    hide Partition, Layout, Uncommitted, RunOf, Covers, Serving, ServingTurn, From, Retyped, TurnStarves;
  }

  /** The first block that reaches beyond an address is the one that holds it. */
  lemma FirstBeyond(s: seq<Range>, at: nat, n: nat, i: nat)
    requires Canonical(s) && i < |s| && s[i].Has(at)
    ensures Serving(s, at, n, UNCOMMIT) == i
  {
    AlignOne(at);
    assert Fits(s[i], at, 0, 1, None);
    FirstFitIs(s, at, 0, 1, None, i);
  }

  lemma CommitBack(st1: State, t1: Tables, st2: State, t2: Tables, root: nat, process: nat, at: nat, n: nat)
    requires TypedDone(st1, t1, st2, t2, root, process, at, n, COMMIT, Returned(at, 0)) && n > 0
    requires Partition(Blocks(st1, process)) && at < WORD64 && at % PAGE == 0
    requires RunOf(Blocks(st1, process), at, n, RESERVE)
    ensures Retyped(Blocks(st1, process), Blocks(st2, process), at, n, COMMIT)
    ensures Uncommitted(st1, t1, st2, t2, root, at, 0)
  {
    var s := Blocks(st1, process);
    PartitionCanonical(s);
    FromOf(at);
    DiscardTurn(s, at, n, COMMIT);
    hide Partition, Layout, Uncommitted, RunOf, Covers, Serving, ServingTurn, From, Retyped, TurnStarves;
  }

  lemma KeptOutside(s: seq<Range>, s': seq<Range>, at: nat, n: nat, kind: nat, x: nat, k: nat)
    requires Retyped(s, s', at, n, kind) && !InRun(x, at, n) && Covers(s, x, k)
    ensures Covers(s', x, k) && Canonical(s')
  {
    hide Covers, Canonical;
  }

  /** A run committed again goes back into the block of the page in front of it. */
  lemma CommitNeedsNone(s: seq<Range>, s1: seq<Range>, at: nat, n: nat)
    requires Canonical(s) && n > 0 && at > 0 && Covers(s, at - 1, COMMIT) && Retyped(s, s1, at, n, RESERVE)
    ensures var i := Serving(s1, at, n, COMMIT);
      i < |s1| && NodesNeeded(s1, i, at, n * PAGE, NewKind(COMMIT, s1[i].kind)) == 0
  {
    RetypedRun(s, s1, at, n, RESERVE);
    KeptOutside(s, s1, at, n, RESERVE, at - 1, COMMIT);
    hide RunOf, Covers, Serving, ServingTurn, Retyped, InRun, Canonical;
    DiscardTurn(s1, at, n, COMMIT);
    JoinsInFront(s1, Serving(s1, at, n, COMMIT), at, COMMIT);
  }

  /** The second request of a discard never runs out of nodes, if the page in front of the run
      is committed. */
  lemma CommitNeverStarves(st: State, st1: State, t1: Tables, root: nat, process: nat, at: nat, n: nat)
    requires Canonical(Blocks(st, process)) && n > 0 && Valid(st1) && st1.pending == 0
    requires at > 0 && Covers(Blocks(st, process), at - 1, COMMIT)
    requires Retyped(Blocks(st, process), Blocks(st1, process), at, n, RESERVE)
    ensures !TurnStarves(st1, t1, root, process, Serving(Blocks(st1, process), at, n, COMMIT), at, n, COMMIT)
  {
    hide Layout, Covers, Serving, Retyped, Valid, Spare, AnyMapped, Canonical, NodesNeeded;
    CommitNeedsNone(Blocks(st, process), Blocks(st1, process), at, n);
    NodeRoomIff(st1);
  }

  lemma RoomBetween(s: seq<Range>, j: nat, b: nat)
    requires Canonical(s) && j < b < |s|
    ensures j + 1 < b ==> s[j].End() < s[b].addr
  {
    if j + 1 < b { assert s[j].End() <= s[j + 1].addr && s[j + 1].End() <= s[b].addr; }
  }

  lemma JoinsInFront(s: seq<Range>, b: nat, at: nat, kind: nat)
    requires Canonical(s) && b < |s| && s[b].Has(at) && at > 0 && Covers(s, at - 1, kind) && s[b].kind != kind
    ensures s[b].addr == at && JoinsBefore(s, b, kind)
  {
    var j :| 0 <= j < |s| && s[j].Has(at - 1) && s[j].kind == kind;
    assert j < b;
    assert s[j].End() <= s[b].addr;
    RoomBetween(s, j, b);
  }
}
