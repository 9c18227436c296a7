/** What the page-run allocator guarantees about sets of addresses. */
module AllocatorTheorems {
  import opened Layouts
  import opened BlockNodes
  import opened ListSteps
  import opened SlabSteps
  import opened AllocatorState

  ghost predicate InSlab(slabs: seq<nat>, x: nat) {
    exists j :: 0 <= j < |slabs| && slabs[j] <= x < slabs[j] + PAGE
  }

  /** Address `x` is free physical memory. */
  ghost predicate IsFree(st: State, x: nat) {
    Covers(Free(st), x, 0)
  }

  /** The addresses of `pages` pages from `m` are all free. */
  ghost predicate RunFree(st: State, m: nat, pages: nat) {
    forall x: nat :: m <= x < m + pages * PAGE ==> IsFree(st, x)
  }

  lemma OnlyFreeKind(s: seq<Range>, x: nat, k: nat)
    requires AllFree(s) && Covers(s, x, k)
    ensures k == 0
  {
  }

  lemma TakePageCovers(s: seq<Range>, x: nat, k: nat)
    requires Canonical(s) && AllPlaced(s) && s != []
    ensures Covers(TakePage(s), x, k) <==> Covers(s, x, k) && !(s[0].addr <= x < s[0].addr + PAGE)
  {
    PagesInBlock(s, 0);
    RemoveCovers(s, 0, s[0].addr, PAGE, x, k);
  }

  lemma InSlabGrown(slabs: seq<nat>, page: nat, x: nat)
    ensures InSlab(slabs + [page], x) <==> InSlab(slabs, x) || page <= x < page + PAGE
  {
    var all := slabs + [page];
    assert all[|slabs|] == page;
    if InSlab(slabs, x) {
      var j :| 0 <= j < |slabs| && slabs[j] <= x < slabs[j] + PAGE;
      assert all[j] == slabs[j];
    }
    if InSlab(all, x) {
      var j :| 0 <= j < |all| && all[j] <= x < all[j] + PAGE;
      assert j < |slabs| ==> slabs[j] == all[j];
    }
  }

  /** No free address is in a slab page. */
  lemma FreeNotSlab(st: State, x: nat)
    requires Valid(st) && IsFree(st, x)
    ensures !InSlab(st.slabs, x)
  {
    hide Structured, Layout;
    FreeFacts(st);
    var s := Free(st);
    var i :| 0 <= i < |s| && s[i].Has(x);
    forall j | 0 <= j < |st.slabs|
      ensures !(st.slabs[j] <= x < st.slabs[j] + PAGE)
    {
      assert s[i].ApartFrom(Range(st.slabs[j], PAGE, 0));
    }
  }

  /** The layout form of a run of free pages. */
  lemma RunFreeIsRunOf(st: State, m: nat, pages: nat)
    requires AllFree(Free(st))
    ensures RunFree(st, m, pages) <==> RunOf(Free(st), m, pages, 0)
    ensures forall k: nat :: pages > 0 && RunOf(Free(st), m, pages, k) ==> k == 0
  {
    hide Layout;
    if RunFree(st, m, pages) {
      forall x: nat | m <= x < m + pages * PAGE
        ensures Covers(Free(st), x, 0)
      {
        assert IsFree(st, x);
      }
    }
    forall k: nat | pages > 0 && RunOf(Free(st), m, pages, k)
      ensures k == 0
    {
      assert Covers(Free(st), m, k);
      OnlyFreeKind(Free(st), m, k);
    }
  }

  /** What the index and address found by first fit mean for free memory. */
  lemma FitMeaning(st: State, lo: nat, pages: nat, align: nat)
    requires Canonical(Free(st)) && AllPlaced(Free(st)) && AllFree(Free(st)) && lo % PAGE == 0 && pages > 0
    requires FirstFit(Free(st), lo, pages, Pow2(align), None) < |Free(st)|
    ensures var s, i := Free(st), FirstFit(Free(st), lo, pages, Pow2(align), None);
      var addr := FitAt(s[i], lo, Pow2(align));
      && s[i].addr <= addr && addr + pages * PAGE <= s[i].End()
      && lo <= addr && addr % PAGE == 0 && addr % Pow2(align) == 0
      && RunFree(st, addr, pages)
      && forall m: nat :: lo <= m < addr && m % Pow2(align) == 0 ==> !RunFree(st, m, pages)
  {
    hide Layout, AlignUp, Pow2, RunOf, RunFree, Canonical, AllPlaced, AllFree;
    var s, unit := Free(st), Pow2(align);
    var i := FirstFit(s, lo, pages, unit, None);
    FirstFitSound(s, lo, pages, unit, None);
    FitFacts(s, i, lo, pages, align);
    var addr := FitAt(s[i], lo, unit);
    RunFreeIsRunOf(st, addr, pages);
    forall m: nat | lo <= m < addr && m % unit == 0
      ensures !RunFree(st, m, pages)
    {
      RunFreeIsRunOf(st, m, pages);
      if RunFree(st, m, pages) {
        FirstFitLowest(s, lo, pages, unit, None, m, 0);
      }
    }
  }

  /** A granted physical run: aligned, wholly free before, and the lowest such run; exactly it
      is no longer free afterwards, apart from a page the allocator may keep for its nodes. */
  lemma AllocationIsLowestFit(st: State, st': State, hint: nat, pages: nat, align: nat, addr: nat)
    requires Valid(st) && Valid(st') && pages > 0
    requires AllocResult(st, st', hint, pages, align, addr, 0)
    ensures align <= 63 && From(hint) <= addr && addr % PAGE == 0 && addr % Pow2(align) == 0
    ensures hint <= WORD64 - PAGE ==> hint <= addr
    ensures RunFree(st, addr, pages)
    ensures forall m: nat :: From(hint) <= m < addr && m % Pow2(align) == 0 ==> !RunFree(st, m, pages)
    ensures forall x: nat :: IsFree(st', x) <==>
      IsFree(st, x) && !(addr <= x < addr + pages * PAGE) && !InSlab(st'.slabs, x)
    ensures forall x: nat :: InSlab(st'.slabs, x) && !InSlab(st.slabs, x) ==>
      IsFree(st, x) && !(addr <= x < addr + pages * PAGE)
  {
    hide Valid, Layout, FreeBecame, RunFree, InSlab, IsFree, From, Pow2, Canonical, AllPlaced, AllFree,
         ClearOfSlabs, Fits, Misplaced;
    var s, lo := Free(st), From(hint);
    var i := FirstFit(s, lo, pages, Pow2(align), None);
    FreeFacts(st);
    FromAligned(hint);
    FromNotBelow(hint);
    FitMeaning(st, lo, pages, align);
    CarvedOk(s, i, addr, pages, st.slabs);
    var r := Carve(s, i, addr, pages * PAGE);
    forall x: nat
      ensures IsFree(st', x) <==> IsFree(st, x) && !(addr <= x < addr + pages * PAGE) && !InSlab(st'.slabs, x)
      ensures InSlab(st'.slabs, x) && !InSlab(st.slabs, x) ==> IsFree(st, x) && !(addr <= x < addr + pages * PAGE)
    {
      CarvedFree(st, st', r, i, addr, pages, x);
    }
  }

  lemma FromNotBelow(hint: nat)
    ensures hint <= WORD64 - PAGE ==> hint <= From(hint)
  {
    AlignUpIsLeast(hint, PAGE);
    AlignUpBelow(hint, PAGE);
    if hint == WORD64 - PAGE { AlignExact(hint, hint / PAGE, PAGE); }
  }

  lemma CarvedFree(st: State, st': State, r: seq<Range>, i: nat, addr: nat, pages: nat, x: nat)
    requires Valid(st) && i < |Free(st)| && pages > 0
    requires var s := Free(st);
      && s[i].addr <= addr && addr + pages * PAGE <= s[i].End()
      && r == Remove(s, i, addr, pages * PAGE) && Canonical(r) && AllPlaced(r) && AllFree(r)
    requires FreeBecame(st, st', r, {})
    ensures IsFree(st', x) <==> IsFree(st, x) && !(addr <= x < addr + pages * PAGE) && !InSlab(st'.slabs, x)
    ensures InSlab(st'.slabs, x) && !InSlab(st.slabs, x) ==> IsFree(st, x) && !(addr <= x < addr + pages * PAGE)
  {
    hide Structured, Layout, OnlyList, Remove, Canonical, AllPlaced;
    var s := Free(st);
    FreeFacts(st);
    RemoveCovers(s, i, addr, pages * PAGE, x, 0);
    if IsFree(st, x) { FreeNotSlab(st, x); }
    if st'.slabs != st.slabs {
      TakePageCovers(r, x, 0);
      InSlabGrown(st.slabs, r[0].addr, x);
      if r[0].addr <= x < r[0].addr + PAGE {
        assert r[0].Has(x) && r[0].kind == 0;
        assert Covers(r, x, 0);
      }
    }
  }

  /** A physical allocation fails, without touching anything, exactly when no suitable run of
      free pages exists anywhere (or the alignment is out of range); it is misplaced instead
      of answered with a failure exactly when the aligned address wraps and some block ends
      high enough. */
  lemma AllocationFailsIff(st: State, st': State, hint: nat, pages: nat, align: nat, addr: nat, status: nat)
    requires Valid(st) && pages > 0
    requires AllocResult(st, st', hint, pages, align, addr, status)
    ensures status != 0 <==>
      align > 63 || !exists m: nat :: From(hint) <= m && m % Pow2(align) == 0 && RunFree(st, m, pages)
    ensures status != 0 ==> st' == st && addr == 0 && (status == 2 <==> Misplaced(st, hint, pages, align))
  {
    hide Valid, Layout, FreeBecame, RunFree, RunOf, From, Pow2, Canonical, AllPlaced, AllFree, ClearOfSlabs, Fits;
    var s, lo, unit := Free(st), From(hint), Pow2(align);
    FreeFacts(st);
    FirstFitFailsIff(s, lo, pages, unit, None);
    if Misplaced(st, hint, pages, align) { MisplacedNoFit(st, hint, pages, align); }
    hide Misplaced;
    if m: nat :| lo <= m && m % unit == 0 && RunFree(st, m, pages) {
      RunFreeIsRunOf(st, m, pages);
    }
    if m: nat, k: nat :| lo <= m && m % unit == 0 && RunOf(s, m, pages, k) {
      RunFreeIsRunOf(st, m, pages);
    }
  }

  lemma MisplacedNoFit(st: State, hint: nat, pages: nat, align: nat)
    requires AllPlaced(Free(st)) && Misplaced(st, hint, pages, align)
    ensures FirstFit(Free(st), From(hint), pages, Pow2(align), None) == |Free(st)|
  {
    hide Layout, From, Pow2, AlignUp, ReachesUp;
    FromAligned(hint);
    var s, lo, unit := Free(st), From(hint), Pow2(align);
    forall j | 0 <= j < |s|
      ensures !Fits(s[j], lo, pages, unit, None)
    {
      AlignedInWord(s[j], lo, align);
      AlignUpIsLeast(lo, unit);
    }
    FirstFitIs(s, lo, pages, unit, None, |s|);
  }

  /** Alignments up to a page are never misplaced. */
  lemma SmallAlignPlaced(st: State, hint: nat, pages: nat, align: nat)
    requires align <= 12
    ensures !Misplaced(st, hint, pages, align)
  {
    hide Layout, From;
    FromAligned(hint);
    Pow2Page();
    Pow2Add(12 - align, align);
    hide Pow2;
    MulGap(1, Pow2(12 - align), Pow2(align));
    LastPage(From(hint));
  }

  lemma LastPage(lo: nat)
    requires lo % PAGE == 0 && lo < WORD64
    ensures lo + PAGE <= WORD64
  {
  }

  /** Whatever memory is free, one page asked for above 2^63 with alignment 63 is misplaced,
      and the page at address 0 that it would get is not free. */
  lemma MisplacedExample(st: State)
    requires Valid(st) && Free(st) != []
    ensures Misplaced(st, 0x8000_0000_0000_1000, 1, 63) && !IsFree(st, 0)
  {
    hide Valid, Layout, Pow2, AlignUp;
    FreeFacts(st);
    Pow2Word();
    AlignExact(0x8000_0000_0000_1000, 0x8_0000_0000_0000 + 1, PAGE);
    FirstEnd(Free(st));
    MisplacedAt(st, 0x8000_0000_0000_1000, 1, 63, 0);
  }

  lemma FirstEnd(s: seq<Range>)
    requires Canonical(s) && AllPlaced(s) && s != []
    ensures s[0].End() / PAGE >= 1 && !Covers(s, 0, 0)
  {
    PagesInBlock(s, 0);
  }

  /** Freeing a run adds exactly it to the free memory, apart from a page the allocator may
      keep for its nodes. */
  lemma FreeingAddsExactly(st: State, st': State, b: Range, x: nat)
    requires Valid(st) && Addable(st, MemoryMap, b) && BlockAdded(st, st', MemoryMap, b)
    ensures IsFree(st', x) <==> (IsFree(st, x) || b.Has(x)) && !InSlab(st'.slabs, x)
    ensures InSlab(st'.slabs, x) && !InSlab(st.slabs, x) ==> IsFree(st, x) && !b.Has(x)
  {
    hide Structured, Layout, NoLoose, Canonical, AllPlaced;
    var s := Free(st);
    FreeFacts(st);
    if IsFree(st, x) { FreeNotSlab(st, x); }
    if b.Has(x) { RangeNotSlab(st.slabs, b, x); }
    if st'.slabs == st.slabs {
      InsertCovers(s, b, x, 0);
    } else {
      var t := TakePage(s);
      TakePageOk(s, st.slabs);
      PagesInBlock(s, 0);
      RemoveApart(s, 0, s[0].addr, PAGE, b);
      InsertCovers(t, b, x, 0);
      TakePageCovers(s, x, 0);
      InSlabGrown(st.slabs, s[0].addr, x);
      if s[0].addr <= x < s[0].addr + PAGE {
        assert s[0].Has(x) && s[0].kind == 0 && s[0].ApartFrom(b);
        assert Covers(s, x, 0);
      }
    }
  }

  lemma RangeNotSlab(slabs: seq<nat>, b: Range, x: nat)
    requires b.Has(x) && forall i :: 0 <= i < |slabs| ==> b.ApartFrom(Range(slabs[i], PAGE, 0))
    ensures !InSlab(slabs, x)
  {
    forall j | 0 <= j < |slabs|
      ensures !(slabs[j] <= x < slabs[j] + PAGE)
    {
      assert b.ApartFrom(Range(slabs[j], PAGE, 0));
    }
  }

  /** What was allocated may be freed. */
  lemma AllocatedAddable(st: State, st1: State, hint: nat, pages: nat, align: nat, addr: nat)
    requires Valid(st) && Valid(st1) && pages > 0 && AllocResult(st, st1, hint, pages, align, addr, 0)
    ensures Addable(st1, MemoryMap, Range(addr, pages * PAGE, 0))
  {
    hide Valid, Layout, InSlab, IsFree, AllocResult, Placed, Apart, Canonical, AllPlaced, AllFree, ClearOfSlabs;
    var b := Range(addr, pages * PAGE, 0);
    FreeFacts(st1);
    PlacedRun(st, st1, hint, pages, align, addr);
    forall x: nat | b.Has(x)
      ensures !IsFree(st1, x) && !InSlab(st1.slabs, x)
    {
      RunTaken(st, st1, hint, pages, align, addr, x);
    }
    NotFreeApart(st1, b);
    ApartFromSlabs(st1.slabs, b);
  }

  lemma RunTaken(st: State, st1: State, hint: nat, pages: nat, align: nat, addr: nat, x: nat)
    requires Valid(st) && Valid(st1) && pages > 0 && AllocResult(st, st1, hint, pages, align, addr, 0)
    requires addr <= x < addr + pages * PAGE
    ensures !IsFree(st1, x) && !InSlab(st1.slabs, x)
  {
    hide Valid, Layout, RunFree, InSlab, IsFree, Pow2, From, AllocResult;
    AllocationIsLowestFit(st, st1, hint, pages, align, addr);
    RunNotSlab(st, addr, pages, x);
  }

  lemma NotFreeApart(st: State, b: Range)
    requires Valid(st) && b.size > 0 && forall x: nat :: b.Has(x) ==> !IsFree(st, x)
    ensures Apart(Free(st), b)
  {
    hide Valid, Layout, Apart, Covers;
    FreeFacts(st);
    forall x: nat, k: nat | b.Has(x)
      ensures !Covers(Free(st), x, k)
    {
      assert !IsFree(st, x);
      if Covers(Free(st), x, k) { OnlyFreeKind(Free(st), x, k); }
    }
    ApartIffUncovered(Free(st), b);
  }

  lemma ApartFromSlabs(slabs: seq<nat>, b: Range)
    requires b.size > 0 && forall x: nat :: b.Has(x) ==> !InSlab(slabs, x)
    ensures forall j :: 0 <= j < |slabs| ==> b.ApartFrom(Range(slabs[j], PAGE, 0))
  {
    hide InSlab;
    forall j | 0 <= j < |slabs|
      ensures b.ApartFrom(Range(slabs[j], PAGE, 0))
    {
      var x := if b.addr > slabs[j] then b.addr else slabs[j];
      if x < slabs[j] + PAGE { SlabHolds(slabs, j, x); }
    }
  }

  lemma SlabHolds(slabs: seq<nat>, j: nat, x: nat)
    requires j < |slabs| && slabs[j] <= x < slabs[j] + PAGE
    ensures InSlab(slabs, x)
  {
  }

  lemma RunNotSlab(st: State, addr: nat, pages: nat, x: nat)
    requires Valid(st) && RunFree(st, addr, pages) && addr <= x < addr + pages * PAGE
    ensures !InSlab(st.slabs, x) && IsFree(st, x)
  {
    hide Valid, InSlab, IsFree;
    FreeNotSlab(st, x);
  }

  lemma PlacedRun(st: State, st1: State, hint: nat, pages: nat, align: nat, addr: nat)
    requires Valid(st) && pages > 0 && AllocResult(st, st1, hint, pages, align, addr, 0)
    ensures Placed(Range(addr, pages * PAGE, 0))
  {
    hide Valid, Layout, FreeBecame, From, Pow2, Canonical, AllFree, ClearOfSlabs, Misplaced, AlignUp, Fits;
    var s, lo := Free(st), From(hint);
    var i := FirstFit(s, lo, pages, Pow2(align), None);
    FreeFacts(st);
    FromAligned(hint);
    FitFacts(s, i, lo, pages, align);
    BlockPlaced(s, i);
    hide AllPlaced, FirstFit, FitAt;
    DivModUnique(pages * PAGE, pages, 0, PAGE);
  }

  /** Allocating a run and freeing exactly it again restores the identical block sequence,
      unless one of the two calls turned a free page into a slab page; in that case the free
      memory is the old one without the new slab pages. */
  lemma AllocThenFreeRestores(st: State, st1: State, st2: State, hint: nat, pages: nat, align: nat, addr: nat)
    requires Valid(st) && Valid(st1) && Valid(st2) && pages > 0
    requires AllocResult(st, st1, hint, pages, align, addr, 0)
    requires BlockAdded(st1, st2, MemoryMap, Range(addr, pages * PAGE, 0))
    ensures forall x: nat :: IsFree(st2, x) <==> IsFree(st, x) && !InSlab(st2.slabs, x)
    ensures st2.slabs == st.slabs ==> Free(st2) == Free(st)
  {
    hide Valid, Layout, OnlyList, Addable, AllocResult, InSlab, SlabsGrew, FreeAfter, IsFree, NoLoose;
    AllocationIsLowestFit(st, st1, hint, pages, align, addr);
    AllocatedAddable(st, st1, hint, pages, align, addr);
    SlabsMonotone(st, st1, st2, hint, pages, align, addr);
    forall x: nat
      ensures IsFree(st2, x) <==> IsFree(st, x) && !InSlab(st2.slabs, x)
      ensures st2.slabs == st.slabs ==> (IsFree(st2, x) <==> IsFree(st, x))
    {
      FreeingAddsExactly(st1, st2, Range(addr, pages * PAGE, 0), x);
      if IsFree(st, x) { FreeNotSlab(st, x); }
    }
    if st2.slabs == st.slabs { SameFree(st, st2); }
  }

  /** Stores with the same free addresses have the same free block list. */
  lemma SameFree(st: State, st': State)
    requires Valid(st) && Valid(st') && forall x: nat :: IsFree(st', x) <==> IsFree(st, x)
    ensures Free(st') == Free(st)
  {
    hide Valid, Layout, Covers;
    FreeFacts(st);
    FreeFacts(st');
    forall x: nat, k: nat
      ensures Covers(Free(st'), x, k) <==> Covers(Free(st), x, k)
    {
      if Covers(Free(st'), x, k) { OnlyFreeKind(Free(st'), x, k); }
      if Covers(Free(st), x, k) { OnlyFreeKind(Free(st), x, k); }
      assert IsFree(st', x) <==> IsFree(st, x);
    }
    CanonicalUnique(Free(st'), Free(st));
  }

  lemma SlabsMonotone(st: State, st1: State, st2: State, hint: nat, pages: nat, align: nat, addr: nat)
    requires AllocResult(st, st1, hint, pages, align, addr, 0) && pages > 0
    requires SlabsGrew(st1, st2)
    ensures st.slabs <= st1.slabs <= st2.slabs
    ensures forall x: nat :: InSlab(st1.slabs, x) ==> InSlab(st2.slabs, x)
  {
  }

  // ---------------------------------------------------------------- freeing many runs

  /** The stores that freeing the runs `bs` one after the other leads through. */
  ghost predicate Freeings(sts: seq<State>, bs: seq<Range>) {
    && |sts| == |bs| + 1
    && (forall j :: 0 <= j < |sts| ==> Valid(sts[j]))
    && (forall j, k :: 0 <= j < |bs| && k == j + 1 ==> FreeStep(sts[j], sts[k], bs[j]))
  }

  ghost predicate FreeStep(st: State, st': State, b: Range) {
    Addable(st, MemoryMap, b) && BlockAdded(st, st', MemoryMap, b)
  }

  ghost predicate InSome(bs: seq<Range>, x: nat) {
    exists b :: b in bs && b.Has(x)
  }

  /** Freeing runs adds exactly them to the free memory, apart from pages that became slab
      pages on the way. */
  lemma {:induction false} FreeingsAdd(sts: seq<State>, bs: seq<Range>, x: nat)
    requires Freeings(sts, bs)
    ensures IsFree(sts[|bs|], x) <==> (IsFree(sts[0], x) || InSome(bs, x)) && !InSlab(sts[|bs|].slabs, x)
    ensures InSlab(sts[0].slabs, x) ==> InSlab(sts[|bs|].slabs, x)
    ensures InSlab(sts[|bs|].slabs, x) && !InSlab(sts[0].slabs, x) ==> IsFree(sts[0], x) || InSome(bs, x)
  {
    hide Valid, Addable, BlockAdded, IsFree, InSlab;
    var n := |bs|;
    if n == 0 {
      if IsFree(sts[0], x) { FreeNotSlab(sts[0], x); }
    } else {
      var before, rest := sts[..n], bs[..n - 1];
      forall j, k | 0 <= j < |rest| && k == j + 1
        ensures FreeStep(before[j], before[k], rest[j])
      {
        assert before[j] == sts[j] && rest[j] == bs[j] && before[k] == sts[k];
      }
      FreeingsAdd(before, rest, x);
      assert bs == rest + [bs[n - 1]];
      assert InSome(bs, x) <==> InSome(rest, x) || bs[n - 1].Has(x);
      FreeingAddsExactly(sts[n - 1], sts[n], bs[n - 1], x);
      AddedKeepsSlabs(sts[n - 1], sts[n], bs[n - 1], x);
    }
  }

  lemma AddedKeepsSlabs(st: State, st': State, b: Range, x: nat)
    requires BlockAdded(st, st', MemoryMap, b)
    ensures InSlab(st.slabs, x) ==> InSlab(st'.slabs, x)
  {
    hide Layout, FreeAfter, NodesLeft, NoLoose, InSlab, Insert;
    SlabsGrewKeeps(st, st', x);
  }

  /** The order in which runs are freed does not matter: the addresses that are free or in
      slab pages are the same in the end, and so is the block list if the slab pages are. */
  lemma FreeingOrderIrrelevant(sts: seq<State>, bs: seq<Range>, us: seq<State>, cs: seq<Range>)
    requires Freeings(sts, bs) && Freeings(us, cs) && sts[0] == us[0] && multiset(bs) == multiset(cs)
    ensures var st, u := sts[|bs|], us[|cs|];
      && (forall x: nat :: IsFree(st, x) || InSlab(st.slabs, x) <==> IsFree(u, x) || InSlab(u.slabs, x))
      && (st.slabs == u.slabs ==> Free(st) == Free(u))
  {
    hide Valid, Addable, BlockAdded, IsFree, InSlab, Layout;
    var st, u := sts[|bs|], us[|cs|];
    forall x: nat
      ensures IsFree(st, x) || InSlab(st.slabs, x) <==> IsFree(u, x) || InSlab(u.slabs, x)
      ensures st.slabs == u.slabs ==> (IsFree(st, x) <==> IsFree(u, x))
    {
      FreeingsAdd(sts, bs, x);
      FreeingsAdd(us, cs, x);
      SameMembers(bs, cs, x);
    }
    if st.slabs == u.slabs { SameFree(u, st); }
  }

  lemma SameMembers(bs: seq<Range>, cs: seq<Range>, x: nat)
    requires multiset(bs) == multiset(cs)
    ensures InSome(bs, x) <==> InSome(cs, x)
  {
    assert forall b :: b in bs <==> b in multiset(bs);
    assert forall b :: b in cs <==> b in multiset(cs);
  }

  // ---------------------------------------------------------------- start-up

  /** A firmware memory region; type 1 is free memory. The low megabyte is left alone. */
  datatype Region = Region(addr: nat, size: nat, kind: nat) {
    ghost predicate Usable() { addr >= 0x100000 && kind == 1 }

    function Block(): Range { Range(addr, size, 0) }
  }

  /** Address `x` lies in a free region above the low megabyte. */
  ghost predicate InUsable(regions: seq<Region>, x: nat) {
    exists i :: 0 <= i < |regions| && regions[i].addr >= 0x100000 && regions[i].kind == 1 &&
      regions[i].addr <= x < regions[i].addr + regions[i].size
  }

  /** The usable regions are page runs that do not overlap. */
  ghost predicate RegionsOk(regions: seq<Region>) {
    && (forall i :: 0 <= i < |regions| && regions[i].Usable() ==> regions[i].size > 0 && Placed(regions[i].Block()))
    && (forall i, j :: 0 <= i < j < |regions| && regions[i].Usable() && regions[j].Usable() ==>
          regions[i].Block().ApartFrom(regions[j].Block()))
  }

  /** Index of the first usable region. */
  ghost function FirstUsable(regions: seq<Region>): (i: nat)
    ensures i <= |regions|
    ensures forall j :: 0 <= j < i ==> !regions[j].Usable()
    ensures i < |regions| ==> regions[i].Usable()
  {
    if regions == [] then 0 else if regions[0].Usable() then 0 else 1 + FirstUsable(regions[1..])
  }

  /** Free memory is the usable memory of the first `n` regions without the slab pages, and
      the slab pages lie in that memory. */
  ghost predicate Collected(st: State, regions: seq<Region>, n: nat) {
    && n <= |regions|
    && (forall x: nat :: IsFree(st, x) <==> InUsable(regions[..n], x) && !InSlab(st.slabs, x))
    && (forall x: nat :: InSlab(st.slabs, x) ==> InUsable(regions[..n], x))
  }

  lemma InUsableNext(regions: seq<Region>, n: nat, x: nat)
    requires n < |regions|
    ensures InUsable(regions[..n + 1], x) <==>
      InUsable(regions[..n], x) || (regions[n].Usable() && regions[n].Block().Has(x))
  {
    var a, b := regions[..n], regions[..n + 1];
    if InUsable(a, x) {
      var i :| 0 <= i < |a| && a[i].Usable() && a[i].Block().Has(x);
      assert b[i] == a[i];
    }
    if InUsable(b, x) {
      var i :| 0 <= i < |b| && b[i].Usable() && b[i].Block().Has(x);
      assert i < n ==> a[i] == b[i];
    }
    assert b[n] == regions[n];
  }

  lemma CollectedSkip(st: State, regions: seq<Region>, n: nat)
    requires Collected(st, regions, n) && n < |regions| && !regions[n].Usable()
    ensures Collected(st, regions, n + 1)
  {
    hide Layout, InSlab, InUsable;
    forall x: nat
      ensures InUsable(regions[..n + 1], x) <==> InUsable(regions[..n], x)
    {
      InUsableNext(regions, n, x);
    }
  }

  /** The usable regions before the `n`-th do not overlap it. */
  lemma NotYetUsed(regions: seq<Region>, n: nat, x: nat)
    requires RegionsOk(regions) && n < |regions| && regions[n].Usable() && regions[n].Block().Has(x)
    ensures !InUsable(regions[..n], x)
  {
    var a := regions[..n];
    forall i | 0 <= i < |a| && a[i].Usable()
      ensures !a[i].Block().Has(x)
    {
      assert regions[i].Block().ApartFrom(regions[n].Block());
    }
  }

  /** The next usable region may be added. */
  lemma RegionAddable(st: State, regions: seq<Region>, n: nat)
    requires Valid(st) && Collected(st, regions, n) && n < |regions| && regions[n].Usable() && RegionsOk(regions)
    ensures Addable(st, MemoryMap, regions[n].Block())
  {
    hide Structured, Layout, InUsable;
    FreeFacts(st);
    var b := regions[n].Block();
    forall x: nat, k: nat | b.Has(x)
      ensures !Covers(Free(st), x, k)
    {
      NotYetUsed(regions, n, x);
      assert !IsFree(st, x);
      if Covers(Free(st), x, k) { OnlyFreeKind(Free(st), x, k); }
    }
    ApartIffUncovered(Free(st), b);
    forall j | 0 <= j < |st.slabs|
      ensures b.ApartFrom(Range(st.slabs[j], PAGE, 0))
    {
      var x := if b.addr > st.slabs[j] then b.addr else st.slabs[j];
      if b.Has(x) {
        NotYetUsed(regions, n, x);
        assert !InSlab(st.slabs, x);
      }
    }
  }

  lemma CollectedAdd(st: State, st': State, regions: seq<Region>, n: nat)
    requires Valid(st) && Collected(st, regions, n) && n < |regions| && regions[n].Usable()
    requires Addable(st, MemoryMap, regions[n].Block()) && BlockAdded(st, st', MemoryMap, regions[n].Block())
    ensures Collected(st', regions, n + 1)
  {
    hide Valid, Layout, InUsable, InSlab, IsFree, Addable, FreeAfter, NodesLeft, NoLoose;
    forall x: nat
      ensures IsFree(st', x) <==> InUsable(regions[..n + 1], x) && !InSlab(st'.slabs, x)
      ensures InSlab(st'.slabs, x) ==> InUsable(regions[..n + 1], x)
    {
      InUsableNext(regions, n, x);
      FreeingAddsExactly(st, st', regions[n].Block(), x);
      SlabsGrewKeeps(st, st', x);
    }
  }

  lemma SlabsGrewKeeps(st: State, st': State, x: nat)
    requires SlabsGrew(st, st')
    ensures InSlab(st.slabs, x) ==> InSlab(st'.slabs, x)
  {
    if st'.slabs != st.slabs { InSlabGrown(st.slabs, Free(st)[0].addr, x); }
  }

  /** The store before set-up: no list nodes, no slab page. */
  ghost predicate Pristine(st: State) {
    st == State(map[], 0, map[MemoryMap := 0], [], map[], map[MemoryMap := []], 0)
  }

  /** The store whose only slab page is `page`, with nothing free yet. */
  ghost predicate FirstSlab(st: State, page: nat) {
    st == State(ZeroPage(page), page, map[MemoryMap := 0], [page], map[], map[MemoryMap := []], 0)
  }

  lemma FirstSlabPool(st: State, page: nat)
    requires FirstSlab(st, page) && page > 0 && page % PAGE == 0
    ensures PoolOk(st)
  {
    hide ZeroPage;
    ZeroPageSlots(page, Header(page));
    assert st.owner.Keys == {};
    FreeInEmpty({}, page, NODES_PER_PAGE);
    assert st.slabs[0] == page;
    forall p | IsSlot(st.slabs, p)
      ensures p in st.mem && !st.mem[p].vald
    {
      ZeroPageSlots(page, p);
    }
    assert Marked(st.mem, st.slabs, {}, 0);
    assert Chain(st.mem, st.slabs, 0);
    assert Counted(st.mem, st.slabs, {});
  }

  lemma FirstSlabValid(st: State, page: nat)
    requires FirstSlab(st, page) && page > 0 && page % PAGE == 0
    ensures Valid(st) && NoLoose(st) && Free(st) == [] && LastFree(st) == NODES_PER_PAGE
  {
    hide PoolOk, ZeroPage;
    FirstSlabPool(st, page);
    ZeroPageSlots(page, Header(page));
    assert Linked(st.mem, 0, []);
  }

  /** What set-up has collected after the region that supplied the first slab page. */
  lemma {:induction false} CollectedFirst(st: State, st': State, regions: seq<Region>, n: nat)
    requires n == FirstUsable(regions) < |regions| && RegionsOk(regions) && regions[n].size > PAGE
    requires FirstSlab(st, regions[n].addr)
    requires var b := Range(regions[n].addr + PAGE, regions[n].size - PAGE, 0);
      Addable(st, MemoryMap, b) && BlockAdded(st, st', MemoryMap, b)
    ensures Collected(st', regions, n + 1)
  {
    hide Valid, Layout, ZeroPage, InUsable, BlockAdded, Addable, LastFree, Covers;
    var page := regions[n].addr;
    assert Placed(regions[n].Block());
    FirstSlabValid(st, page);
    var b := Range(page + PAGE, regions[n].size - PAGE, 0);
    SlabsOfAdded(st, st', b);
    forall x: nat
      ensures IsFree(st', x) <==> InUsable(regions[..n + 1], x) && !InSlab(st'.slabs, x)
      ensures InSlab(st'.slabs, x) ==> InUsable(regions[..n + 1], x)
    {
      NoneUsable(regions, n, x);
      InUsableNext(regions, n, x);
      FreeingAddsExactly(st, st', b, x);
      NothingFree(st, x);
      assert st'.slabs[0] == page;
    }
  }

  lemma NothingFree(st: State, x: nat)
    requires Free(st) == []
    ensures !IsFree(st, x)
  {
    hide Layout;
  }

  lemma SlabsOfAdded(st: State, st': State, b: Range)
    requires BlockAdded(st, st', MemoryMap, b) && Free(st) == []
    ensures st'.slabs == st.slabs
  {
    hide Layout, LastFree, NoLoose;
  }

  lemma NoneUsable(regions: seq<Region>, n: nat, x: nat)
    requires n <= FirstUsable(regions)
    ensures !InUsable(regions[..n], x)
  {
    var a := regions[..n];
    forall i | 0 <= i < |a|
      ensures !a[i].Usable()
    {
      assert a[i] == regions[i];
    }
  }

  lemma FirstAddable(st: State, regions: seq<Region>, n: nat)
    requires n < |regions| && regions[n].Usable() && RegionsOk(regions) && regions[n].size > PAGE
    requires FirstSlab(st, regions[n].addr)
    ensures Addable(st, MemoryMap, Range(regions[n].addr + PAGE, regions[n].size - PAGE, 0))
  {
    hide ZeroPage;
    assert Placed(regions[n].Block());
  }

  lemma FirstSlabReady(st: State, regions: seq<Region>, n: nat)
    requires n < |regions| && regions[n].Usable() && RegionsOk(regions)
    requires st == State(map[] + ZeroPage(regions[n].addr), regions[n].addr, map[MemoryMap := 0], [regions[n].addr],
                         map[], map[MemoryMap := []], 0)
    ensures FirstSlab(st, regions[n].addr)
    ensures Valid(st) && NoLoose(st) && NodeRoom(st) && Free(st) == [] && regions[n].addr + PAGE < LIMIT
  {
    hide ZeroPage, Valid, NoLoose, LastFree;
    assert Placed(regions[n].Block());
    assert map[] + ZeroPage(regions[n].addr) == ZeroPage(regions[n].addr);
    FirstSlabValid(st, regions[n].addr);
  }

  lemma SomeBlockHeap(st: State)
    requires Valid(st)
    ensures st.blockHeap != 0
  {
    hide ListsOk, Counted, Marked, LayoutsOk, AllFree, ClearOfSlabs, LastFree;
    PoolParts(st);
  }

  /** What set-up leaves: the allocator's invariant, no node leaked, no list but the physical
      one, and free pages. */
  ghost predicate Started(st: State, pages: nat) {
    && Valid(st) && NoLoose(st) && st.pending == 0 && st.lists.Keys == {MemoryMap}
    && Free(st) != [] && PageCount(Free(st)) >= pages
  }

  /** Set-up after the first `n` regions, one of them usable. */
  ghost predicate SetUp(st: State, regions: seq<Region>, n: nat) {
    && FirstUsable(regions) < n <= |regions| && regions[FirstUsable(regions)].size > PAGE
    && Started(st, regions[FirstUsable(regions)].size / PAGE - 1) && Collected(st, regions, n)
  }

  lemma SetUpFacts(st: State, regions: seq<Region>, n: nat)
    requires SetUp(st, regions, n)
    ensures NodeRoom(st) && Valid(st) && st.pending == 0 && st.blockHeap != 0
    ensures FirstUsable(regions) < |regions| && regions[FirstUsable(regions)].size > PAGE
  {
    hide Layout, PageCount, Structured, Collected, NoLoose;
    SomeBlockHeap(st);
  }

  lemma SetUpSkip(st: State, regions: seq<Region>, n: nat)
    requires SetUp(st, regions, n) && n < |regions| && !regions[n].Usable()
    ensures SetUp(st, regions, n + 1)
  {
    hide Started, Collected;
    CollectedSkip(st, regions, n);
  }

  /** Adding a block adds its pages, less one that may have become a slab page. */
  lemma AddedCount(st: State, st': State, b: Range)
    requires Valid(st) && Addable(st, MemoryMap, b) && BlockAdded(st, st', MemoryMap, b)
    ensures Free(st') != []
    ensures PageCount(Free(st')) + (if st'.slabs == st.slabs then 0 else 1) == PageCount(Free(st)) + b.size / PAGE
  {
    hide Structured, Layout, LastFree, NoLoose, PageCount, TakePage, Insert, NodesCounted, Canonical, AllPlaced,
         AllFree, ClearOfSlabs;
    FreeFacts(st);
    InsertNonempty(FreeAfter(st, st'.slabs), b);
    if st'.slabs != st.slabs {
      TakePageOk(Free(st), st.slabs);
      TakePageCount(Free(st));
      TakePageClear(Free(st), b);
    }
    InsertPageCount(FreeAfter(st, st'.slabs), b);
  }

  lemma TakePageClear(s: seq<Range>, b: Range)
    requires Canonical(s) && AllPlaced(s) && s != [] && Apart(s, b)
    ensures Apart(TakePage(s), b)
  {
    PagesInBlock(s, 0);
    RemoveApart(s, 0, s[0].addr, PAGE, b);
  }

  lemma FirstStarted(st: State, st': State, regions: seq<Region>, n: nat)
    requires n < |regions| && regions[n].Usable() && RegionsOk(regions) && regions[n].size > PAGE
    requires FirstSlab(st, regions[n].addr) && Valid(st')
    requires var b := Range(regions[n].addr + PAGE, regions[n].size - PAGE, 0);
      Addable(st, MemoryMap, b) && BlockAdded(st, st', MemoryMap, b)
    ensures Started(st', regions[n].size / PAGE - 1)
  {
    hide ZeroPage, Layout, PageCount, Addable, BlockAdded, Valid, NoLoose, LastFree, Placed;
    var b := Range(regions[n].addr + PAGE, regions[n].size - PAGE, 0);
    RegionPlaced(regions, n);
    FirstSlabValid(st, regions[n].addr);
    SlabsOfAdded(st, st', b);
    AddedCount(st, st', b);
    AddedNoLoose(st, st', b);
    PagesLess(regions[n].size);
    NoPages();
  }

  lemma NoPages()
    ensures PageCount([]) == 0
  {
  }

  lemma RegionPlaced(regions: seq<Region>, n: nat)
    requires n < |regions| && regions[n].Usable() && RegionsOk(regions)
    ensures regions[n].addr > 0 && regions[n].addr % PAGE == 0 && regions[n].size >= PAGE
  {
    assert Placed(regions[n].Block());
  }

  lemma PagesLess(size: nat)
    requires size > PAGE
    ensures (size - PAGE) / PAGE == size / PAGE - 1
  {
  }

  lemma StartedMore(st: State, st': State, pages: nat, b: Range)
    requires Started(st, pages) && Addable(st, MemoryMap, b) && BlockAdded(st, st', MemoryMap, b) && Valid(st')
    ensures Started(st', pages)
  {
    hide Layout, PageCount, BlockAdded, Valid, NoLoose, Apart;
    WholePages(b);
    AddedCount(st, st', b);
    AddedNoLoose(st, st', b);
  }

  lemma WholePages(b: Range)
    requires Placed(b) && b.size > 0
    ensures b.size / PAGE >= 1
  {
  }

  /** The physical list holds one empty block, so it is not canonical. */
  ghost predicate Hollow(st: State, addr: nat) {
    Structured(st) && MemoryMap in st.lists && Free(st) == [Range(addr, 0, 0)] && !Canonical(Free(st))
  }

  lemma HollowDone(st: State, st2: State, st3: State, st4: State, blk: Ptr, addr: nat)
    requires Valid(st) && Free(st) == [] && NodeGranted(st, st2, blk) && MemoryMap in st2.lists
    requires blk in st2.mem && st3 == st2.(mem := st2.mem[blk := Node(0, 0, addr, 0, 0, true)])
    requires Structured(st3) && Layout(st3, MemoryMap) == Layout(st2, MemoryMap)
    requires BlockInserted(st3, st4, MemoryMap, blk)
    ensures Hollow(st4, addr)
  {
    hide Structured, Layout, OnlyList, LastFree, NodesLeft, Valid;
    InsertedFacts(st3, st4, MemoryMap, blk);
    assert Free(st4)[0].size == 0;
  }

  lemma InsertNonempty(s: seq<Range>, b: Range)
    ensures Insert(s, b) != []
  {
  }

  /** A store with one more, empty, list. */
  lemma EmptyListValid(st: State, st': State, root: Root)
    requires Valid(st) && root !in st.lists && root != MemoryMap
    requires st' == st.(heads := st.heads[root := 0], lists := st.lists[root := []])
    ensures Valid(st') && Layout(st', root) == []
    ensures Free(st') == Free(st) && LastFree(st') == LastFree(st)
    ensures forall r :: r in st.lists ==> Layout(st', r) == Layout(st, r)
  {
    hide PoolOk, ListsOk, Linked, Owned, Canonical, AllPlaced, AllFree, ClearOfSlabs;
    EmptyListStructured(st, st', root);
    StructuredOf(st);
    HeadsOf(st);
    assert |Ranges(st'.mem, [])| == 0;
    EmptyLayoutOk();
  }

  lemma EmptyLinked(mem: map<Ptr, Node>)
    ensures Linked(mem, 0, [])
  {
  }

  lemma EmptyLayoutOk()
    ensures Canonical([]) && AllPlaced([])
  {
  }

  lemma EmptyListStructured(st: State, st': State, root: Root)
    requires Valid(st) && root !in st.lists
    requires st' == st.(heads := st.heads[root := 0], lists := st.lists[root := []])
    ensures Structured(st')
  {
    hide Chain, Counted, Marked, LayoutsOk, AllFree, ClearOfSlabs, LastFree, Linked;
    EmptyLinked(st.mem);
  }

  lemma AddedNoLoose(st: State, st': State, b: Range)
    requires BlockAdded(st, st', MemoryMap, b) && NoLoose(st)
    ensures NoLoose(st') && st'.pending == st.pending && st'.lists.Keys == st.lists.Keys
  {
  }

  lemma AddressSpaceAddable(st: State, root: Root)
    requires root in st.lists && root != MemoryMap && Layout(st, root) == []
    ensures Addable(st, root, Range(0x1000, 0x7FFFFFFFF * PAGE, 0))
  {
  }

  lemma AddressSpaceDone(st: State, st': State, root: Root)
    requires BlockAdded(st, st', root, Range(0x1000, 0x7FFFFFFFF * PAGE, 0)) && root in st.lists
    requires root != MemoryMap && Layout(st, root) == []
    ensures st'.lists.Keys == st.lists.Keys && Layout(st', root) == [Range(0x1000, 0x7FFFFFFFF * PAGE, 0)]
    ensures SlabsGrew(st, st') && Free(st') == FreeAfter(st, st'.slabs)
    ensures forall r :: r in st.lists && r != root && r != MemoryMap ==>
      r in st'.lists && Layout(st', r) == Layout(st, r)
    ensures st'.pending == st.pending && (NoLoose(st) ==> NoLoose(st'))
  {
    hide Layout, LastFree, TakePage, NoLoose;
  }
}
