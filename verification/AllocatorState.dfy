/** The allocator's invariant, and the meaning of its operations on whole layouts. */
module AllocatorState {
  import opened Layouts
  import opened BlockNodes
  import opened ListSteps
  import opened SlabSteps
  import opened NodeCounts

  ghost predicate LayoutsOk(st: State) {
    forall r :: r in st.lists ==> Canonical(Layout(st, r)) && AllPlaced(Layout(st, r))
  }

  /** The free physical memory of a store. */
  ghost function Free(st: State): seq<Range> {
    Layout(st, MemoryMap)
  }

  /** The invariant between list operations: every list is canonical, the free memory holds
      no slab page, and the last slab page has nodes to spare. While a slab refill is running
      the last page may be one node lower. */
  ghost predicate Valid(st: State) {
    && Structured(st) && LayoutsOk(st)
    && AllFree(Free(st)) && ClearOfSlabs(Free(st), st.slabs)
    && LastFree(st) >= if st.pending == 0 then 4 else 3
  }

  // ---------------------------------------------------------------- placement

  lemma JoinPlaced(a: Range, b: Range)
    requires Placed(a) && Placed(b) && Absorbs(a, b)
    ensures Placed(Join(a, b))
  {
  }

  lemma {:induction false} InsertPlaced(s: seq<Range>, b: Range)
    requires AllPlaced(s) && Placed(b)
    ensures AllPlaced(Insert(s, b))
  {
    if s != [] {
      if Absorbs(s[0], b) {
        JoinPlaced(s[0], b);
        var m := Join(s[0], b);
        if |s| > 1 && Absorbs(m, s[1]) { JoinPlaced(m, s[1]); }
      } else if Absorbs(b, s[0]) {
        JoinPlaced(b, s[0]);
      } else if s[0].addr < b.addr {
        InsertPlaced(s[1..], b);
      }
    }
  }

  lemma InsertFree(s: seq<Range>, b: Range)
    requires AllFree(s) && b.kind == 0
    ensures AllFree(Insert(s, b))
  {
    forall j | 0 <= j < |Insert(s, b)|
      ensures Insert(s, b)[j].kind == 0
    {
      InsertStarts(s, b, j);
    }
  }

  lemma InsertClear(s: seq<Range>, b: Range, slabs: seq<nat>)
    requires Canonical(s) && Apart(s, b) && b.size > 0 && ClearOfSlabs(s, slabs)
    requires forall i :: 0 <= i < |slabs| ==> b.ApartFrom(Range(slabs[i], PAGE, 0))
    ensures ClearOfSlabs(Insert(s, b), slabs)
  {
    forall i | 0 <= i < |slabs|
      ensures Apart(Insert(s, b), Range(slabs[i], PAGE, 0))
    {
      InsertKeepsApart(s, b, Range(slabs[i], PAGE, 0));
    }
  }

  /** Every block of a carved layout lies inside a block of the layout it was carved from. */
  lemma RemoveInside(s: seq<Range>, i: nat, at: nat, size: nat, j: nat)
    requires i < |s| && s[i].addr <= at && at + size <= s[i].End() && j < |Remove(s, i, at, size)|
    ensures var r := Remove(s, i, at, size)[j];
      exists k :: 0 <= k < |s| && s[k].addr <= r.addr && r.End() <= s[k].End() && s[k].kind == r.kind &&
        (s[k] == r || k == i)
  {
    var r := Remove(s, i, at, size)[j];
    var n := |Remove(s, i, at, size)|;
    if j < i {
      assert r == s[j];
    } else if j >= i + (n - (|s| - 1)) {
      assert r == s[j - (n - (|s| - 1)) + 1];
    } else {
      assert s[i].addr <= r.addr && r.End() <= s[i].End() && s[i].kind == r.kind;
    }
  }

  lemma RemoveApart(s: seq<Range>, i: nat, at: nat, size: nat, c: Range)
    requires i < |s| && s[i].addr <= at && at + size <= s[i].End() && Apart(s, c)
    ensures Apart(Remove(s, i, at, size), c)
  {
    forall j | 0 <= j < |Remove(s, i, at, size)|
      ensures Remove(s, i, at, size)[j].ApartFrom(c)
    {
      RemoveInside(s, i, at, size, j);
    }
  }

  lemma RemovePlaced(s: seq<Range>, i: nat, at: nat, size: nat)
    requires AllPlaced(s) && i < |s| && s[i].addr <= at && at + size <= s[i].End()
    requires at % PAGE == 0 && size % PAGE == 0
    ensures AllPlaced(Remove(s, i, at, size))
  {
    hide Placed;
    var left := Piece(s[i].addr, at - s[i].addr, s[i].kind);
    var right := Piece(at + size, s[i].End() - (at + size), s[i].kind);
    PartPlaced(s[i], s[i].addr, at - s[i].addr);
    PagesAdd(at, size);
    PartPlaced(s[i], at + size, s[i].End() - (at + size));
    assert AllPlaced(left) && AllPlaced(right);
  }

  lemma PagesAdd(a: nat, b: nat)
    requires a % PAGE == 0 && b % PAGE == 0
    ensures (a + b) % PAGE == 0 && (a >= b ==> (a - b) % PAGE == 0)
  {
  }

  /** A page-aligned part of a placed range is placed. */
  lemma PartPlaced(r: Range, at: nat, size: nat)
    requires Placed(r) && r.addr <= at && at + size <= r.End() && (at == r.addr || at % PAGE == 0)
    requires (at + size) % PAGE == 0 || at + size == r.End()
    ensures Placed(Range(at, size, r.kind))
  {
    PagesAdd(r.addr, r.size);
    PagesAdd(at + size, at);
  }

  lemma RemoveFree(s: seq<Range>, i: nat, at: nat, size: nat)
    requires AllFree(s) && i < |s| && s[i].addr <= at && at + size <= s[i].End()
    ensures AllFree(Remove(s, i, at, size))
  {
    forall j | 0 <= j < |Remove(s, i, at, size)|
      ensures Remove(s, i, at, size)[j].kind == 0
    {
      RemoveInside(s, i, at, size, j);
    }
  }

  lemma RemoveClear(s: seq<Range>, i: nat, at: nat, size: nat, slabs: seq<nat>)
    requires i < |s| && s[i].addr <= at && at + size <= s[i].End() && ClearOfSlabs(s, slabs)
    ensures ClearOfSlabs(Remove(s, i, at, size), slabs)
  {
    forall k | 0 <= k < |slabs|
      ensures Apart(Remove(s, i, at, size), Range(slabs[k], PAGE, 0))
    {
      RemoveApart(s, i, at, size, Range(slabs[k], PAGE, 0));
    }
  }

  // ---------------------------------------------------------------- alignment

  lemma {:induction false} Pow2Add(a: nat, b: nat)
    ensures Pow2(a + b) == Pow2(a) * Pow2(b)
  {
    if a > 0 {
      Pow2Add(a - 1, b);
      assert Pow2(a + b) == 2 * Pow2(a - 1 + b);
    }
  }

  lemma Pow2Page()
    ensures Pow2(12) == PAGE
  {
    assert Pow2(4) == 16;
    Pow2Add(4, 4);
    Pow2Add(8, 4);
  }

  lemma MulAssoc(a: nat, b: nat, c: nat)
    ensures a * (b * c) == (a * b) * c
  {
  }

  lemma AlignSmall(x: nat, align: nat)
    requires x % PAGE == 0 && align <= 12
    ensures AlignUp(x, Pow2(align)) == x
  {
    Pow2Page();
    Pow2Add(12 - align, align);
    hide AlignUp, Pow2;
    AlignFactor(x, x / PAGE, Pow2(12 - align), Pow2(align), PAGE);
  }

  lemma AlignFactor(x: nat, k: nat, w: nat, unit: nat, page: nat)
    requires unit > 0 && w * unit == page && x == k * page
    ensures AlignUp(x, unit) == x
  {
    hide AlignUp;
    MulAssoc(k, w, unit);
    AlignExact(x, k * w, unit);
  }

  lemma AlignLarge(x: nat, align: nat)
    requires align >= 12
    ensures AlignUp(x, Pow2(align)) % PAGE == 0
  {
    Pow2Page();
    Pow2Add(align - 12, 12);
    hide Pow2;
    MultipleOfFactor((x + Pow2(align) - 1) / Pow2(align), Pow2(align - 12), PAGE, Pow2(align));
  }

  lemma MultipleOfFactor(q: nat, w: nat, page: nat, unit: nat)
    requires page > 0 && unit == w * page
    ensures (q * unit) % page == 0
  {
    MulAssoc(q, w, page);
    DivModUnique(q * unit, q * w, 0, page);
  }

  /** On page-aligned blocks every power-of-two alignment gives a page-aligned run. */
  lemma FitPageAligned(r: Range, lo: nat, align: nat)
    requires r.addr % PAGE == 0 && lo % PAGE == 0
    ensures FitAt(r, lo, Pow2(align)) % PAGE == 0
    ensures align <= 12 ==> FitAt(r, lo, Pow2(align)) == if r.addr < lo then lo else r.addr
  {
    hide AlignUp;
    var x := if r.addr < lo then lo else r.addr;
    if align <= 12 { AlignSmall(x, align); } else { AlignLarge(x, align); }
  }

  lemma AlignExact(x: nat, q: nat, unit: nat)
    requires unit > 0 && x == q * unit
    ensures AlignUp(x, unit) == x
  {
    DivModUnique(x + unit - 1, q, unit - 1, unit);
  }

  // ---------------------------------------------------------------- what an operation leaves free

  /** The lowest page of a layout, as a run. */
  function TakePage(s: seq<Range>): seq<Range> {
    if s != [] && s[0].size >= PAGE then TakeFirst(s) else s
  }

  /** The free memory is now `r`, or `r` without its lowest page, which became a slab page.
      Only the physical list and the nodes `extra` changed. */
  ghost predicate FreeBecame(st: State, st': State, r: seq<Range>, extra: set<Ptr>) {
    && OnlyList(st, st', MemoryMap, extra) && st'.pending == st.pending
    && ((st'.slabs == st.slabs && Free(st') == r) ||
        (r != [] && r[0].size >= PAGE && st'.slabs == st.slabs + [r[0].addr] && Free(st') == TakePage(r)))
  }

  /** The block `i` without a run, if the run lies in it. */
  function Carve(s: seq<Range>, i: nat, at: nat, size: nat): seq<Range> {
    if i < |s| && s[i].addr <= at && at + size <= s[i].End() then Remove(s, i, at, size) else s
  }

  /** Rounding the address `lo` up to a multiple of `unit` leaves the 64 bits: it gives 0. */
  predicate AlignWraps(lo: nat, unit: nat) { lo + unit > WORD64 }

  /** Some block ends at least so many pages above address 0. */
  ghost predicate ReachesUp(s: seq<Range>, pages: nat) {
    exists j :: 0 <= j < |s| && s[j].End() / PAGE >= pages
  }

  /** The request would be served at address 0, outside every block: the address asked for
      wraps when it is aligned, and the test against the end of a block passes. */
  ghost predicate Misplaced(st: State, hint: nat, pages: nat, align: nat) {
    align <= 63 && AlignWraps(From(hint), Pow2(align)) && ReachesUp(Free(st), pages)
  }

  /** What a physical allocation answers and leaves behind. Status 2 stands for the carving at
      address 0 of a misplaced request; the model stops before it. */
  ghost predicate AllocResult(st: State, st': State, hint: nat, pages: nat, align: nat, addr: nat, status: nat) {
    var s, lo, unit := Free(st), From(hint), Pow2(align);
    var i := FirstFit(s, lo, pages, unit, None);
    if pages == 0 then
      st' == st && addr == lo && status == 0
    else if Misplaced(st, hint, pages, align) then
      st' == st && addr == 0 && status == 2
    else if align > 63 || i == |s| then
      st' == st && addr == 0 && status == 1
    else
      && addr == FitAt(s[i], lo, unit) && status == 0
      && FreeBecame(st, st', Carve(s, i, addr, pages * PAGE), {})
      && (hint == 0 && align == 0 ==> st'.slabs == st.slabs && st'.owner.Keys <= st.owner.Keys)
  }

  /** What an allocated node is: fresh, zeroed, owned by nobody else. Making room for it
      may have turned the lowest free page into a slab page. */
  ghost predicate NodeGranted(st: State, st': State, v: Ptr) {
    && v !in st.owner && v in st'.owner && st'.owner[v] == Loose
    && v in st'.mem && st'.mem[v] == Node(0, 0, 0, 0, 0, true)
    && FreeBecame(st, st', Free(st), {v})
    && NodesLeft(st, st')
  }

  /** How many free nodes the last slab page counts after one node was taken; a page is
      added only when the last one runs low. */
  ghost predicate NodesLeft(st: State, st': State) {
    if st'.slabs == st.slabs then LastFree(st') + 1 >= LastFree(st)
    else LastFree(st) <= 4 && LastFree(st') >= NODES_PER_PAGE
  }

  /** A node allocation would have to add a slab page. */
  ghost predicate NeedsSlab(st: State) {
    && LastFree(st) <= 4
    && forall i :: 0 <= i < |st.slabs| - 1 && Header(st.slabs[i]) in st.mem ==> st.mem[Header(st.slabs[i])].size == 0
  }

  /** A node can be allocated: no slab page is needed, or there is a page to make one of. */
  ghost predicate NodeRoom(st: State) {
    NeedsSlab(st) ==> Free(st) != []
  }

  lemma FreeFacts(st: State)
    requires Valid(st)
    ensures Structured(st) && MemoryMap in st.lists
    ensures Canonical(Free(st)) && AllPlaced(Free(st)) && AllFree(Free(st)) && ClearOfSlabs(Free(st), st.slabs)
  {
    HeadsOf(st);
  }

  lemma PagesInBlock(s: seq<Range>, j: nat)
    requires Canonical(s) && AllPlaced(s) && j < |s|
    ensures s[j].size >= PAGE && s[j].addr % PAGE == 0 && s[j].addr > 0
  {
  }

  /** The invariant after an operation on the physical list. */
  lemma ValidAfter(st: State, st': State, extra: set<Ptr>)
    requires Valid(st) && Structured(st') && OnlyList(st, st', MemoryMap, extra)
    requires Canonical(Free(st')) && AllPlaced(Free(st')) && AllFree(Free(st')) && ClearOfSlabs(Free(st'), st'.slabs)
    requires LastFree(st') >= if st'.pending == 0 then 4 else 3
    ensures Valid(st')
  {
    hide Structured, Ranges, Canonical, AllPlaced, AllFree, ClearOfSlabs;
  }

  /** The facts about a fit that the carving code relies on. */
  lemma FitFacts(s: seq<Range>, i: nat, lo: nat, pages: nat, align: nat)
    requires Canonical(s) && AllPlaced(s) && lo % PAGE == 0 && pages > 0
    requires i < |s| && Fits(s[i], lo, pages, Pow2(align), None)
    ensures var at := FitAt(s[i], lo, Pow2(align));
      && s[i].addr <= at && at + pages * PAGE <= s[i].End() && at % PAGE == 0 && at >= lo
      && (lo == 0 && align == 0 ==> at == s[i].addr)
  {
    AlignUpIsLeast(if s[i].addr < lo then lo else s[i].addr, Pow2(align));
    FitPageAligned(s[i], lo, align);
  }

  lemma CarvedOk(s: seq<Range>, i: nat, at: nat, pages: nat, slabs: seq<nat>)
    requires Canonical(s) && AllPlaced(s) && AllFree(s) && ClearOfSlabs(s, slabs)
    requires i < |s| && s[i].addr <= at && at + pages * PAGE <= s[i].End() && at % PAGE == 0 && pages > 0
    ensures var r := Remove(s, i, at, pages * PAGE);
      Canonical(r) && AllPlaced(r) && AllFree(r) && ClearOfSlabs(r, slabs)
  {
    RemoveCanonical(s, i, at, pages * PAGE);
    RemovePlaced(s, i, at, pages * PAGE);
    RemoveFree(s, i, at, pages * PAGE);
    RemoveClear(s, i, at, pages * PAGE, slabs);
  }

  /** Carving that only reshaped or deleted block `i`. */
  lemma CarveDone(st: State, st': State, i: nat, at: nat, pages: nat)
    requires Valid(st) && Structured(st') && OnlyList(st, st', MemoryMap, {})
    requires st'.slabs == st.slabs && st'.pending == st.pending && LastFree(st') >= LastFree(st)
    requires var s := Free(st);
      && i < |s| && s[i].addr <= at && at + pages * PAGE <= s[i].End() && at % PAGE == 0 && pages > 0
      && Free(st') == Remove(s, i, at, pages * PAGE)
    ensures Valid(st') && FreeBecame(st, st', Carve(Free(st), i, at, pages * PAGE), {})
  {
    hide Structured, OnlyList, Canonical, AllPlaced, AllFree, ClearOfSlabs, Remove;
    FreeFacts(st);
    CarvedOk(Free(st), i, at, pages, st.slabs);
    ValidAfter(st, st', {});
  }

  lemma RemoveLeftEdge(s: seq<Range>, i: nat, size: nat)
    requires i < |s| && 0 < size < s[i].size
    ensures Remove(s, i, s[i].addr, size) == s[i := Range(s[i].addr + size, s[i].size - size, s[i].kind)]
  {
    assert s[i := Range(s[i].addr + size, s[i].size - size, s[i].kind)] ==
      s[..i] + [Range(s[i].addr + size, s[i].size - size, s[i].kind)] + s[i + 1..];
  }

  lemma RemoveRightEdge(s: seq<Range>, i: nat, at: nat, size: nat)
    requires i < |s| && s[i].addr < at && at + size == s[i].End()
    ensures Remove(s, i, at, size) == s[i := Range(s[i].addr, at - s[i].addr, s[i].kind)]
  {
    assert s[i := Range(s[i].addr, at - s[i].addr, s[i].kind)] ==
      s[..i] + [Range(s[i].addr, at - s[i].addr, s[i].kind)] + s[i + 1..];
  }

  lemma RemoveWhole(s: seq<Range>, i: nat)
    requires i < |s|
    ensures Remove(s, i, s[i].addr, s[i].size) == Without(s, i)
  {
  }

  /** Inserting a range above the lowest block leaves the lowest page where it is. */
  lemma InsertKeepsLowest(s: seq<Range>, b: Range)
    requires Canonical(s) && Apart(s, b) && s != [] && s[0].size >= PAGE && s[0].addr < b.addr
    ensures Insert(s, b) != [] && Insert(s, b)[0].addr == s[0].addr && Insert(s, b)[0].size >= PAGE
  {
  }

  /** Taking the lowest page before or after inserting a higher range is the same. */
  lemma TakePageInsert(s: seq<Range>, b: Range)
    requires Canonical(s) && Apart(s, b) && b.size > 0 && s != [] && s[0].size >= PAGE
    requires s[0].addr < b.addr
    ensures Insert(s, b) != [] && Insert(s, b)[0].addr == s[0].addr && Insert(s, b)[0].size >= PAGE
    ensures Apart(TakePage(s), b) && Insert(TakePage(s), b) == TakePage(Insert(s, b))
  {
    hide Insert, Remove, Covers;
    assert s[0].ApartFrom(b);
    InsertKeepsLowest(s, b);
    var r := Insert(s, b);
    InsertCanonical(s, b);
    RemoveCanonical(s, 0, s[0].addr, PAGE);
    RemoveCanonical(r, 0, s[0].addr, PAGE);
    RemoveApart(s, 0, s[0].addr, PAGE, b);
    hide Canonical, Apart;
    InsertCanonical(TakePage(s), b);
    forall x: nat, k: nat
      ensures Covers(Insert(TakePage(s), b), x, k) <==> Covers(TakePage(r), x, k)
    {
      InsertCovers(TakePage(s), b, x, k);
      RemoveCovers(s, 0, s[0].addr, PAGE, x, k);
      RemoveCovers(r, 0, s[0].addr, PAGE, x, k);
      InsertCovers(s, b, x, k);
    }
    CanonicalUnique(Insert(TakePage(s), b), TakePage(r));
  }

  /** A slab page taken off the free memory is a new page clear of what is left. */
  lemma TakePageOk(s: seq<Range>, slabs: seq<nat>)
    requires Canonical(s) && AllPlaced(s) && AllFree(s) && ClearOfSlabs(s, slabs) && s != []
    ensures s[0].size >= PAGE && s[0].addr > 0 && s[0].addr % PAGE == 0 && s[0].addr !in slabs
    ensures var r := TakePage(s);
      Canonical(r) && AllPlaced(r) && AllFree(r) && ClearOfSlabs(r, slabs + [s[0].addr])
  {
    hide Canonical, AllPlaced, Apart, Remove, ClearOfSlabs, Insert;
    PagesInBlock(s, 0);
    var page := s[0].addr;
    FirstNotSlab(s, slabs);
    CarvedOk(s, 0, page, 1, slabs);
    RemoveThenInsert(s, 0, page, PAGE);
    ClearOfOneMore(TakePage(s), slabs, page, s[0].kind);
  }

  lemma FirstNotSlab(s: seq<Range>, slabs: seq<nat>)
    requires ClearOfSlabs(s, slabs) && s != [] && s[0].size >= PAGE
    ensures s[0].addr !in slabs
  {
    forall k | 0 <= k < |slabs|
      ensures slabs[k] != s[0].addr
    {
      assert s[0].ApartFrom(Range(slabs[k], PAGE, 0));
    }
  }

  lemma ClearOfOneMore(s: seq<Range>, slabs: seq<nat>, page: nat, kind: nat)
    requires ClearOfSlabs(s, slabs) && Apart(s, Range(page, PAGE, kind))
    ensures ClearOfSlabs(s, slabs + [page])
  {
    assert Apart(s, Range(page, PAGE, 0));
  }

  // ---------------------------------------------------------------- page counts

  lemma {:induction false} PageCountSplit(s: seq<Range>, t: seq<Range>)
    ensures PageCount(s + t) == PageCount(s) + PageCount(t)
    decreases s
  {
    if s == [] {
      assert s + t == t;
    } else {
      PageCountSplit(s[1..], t);
      assert (s + t)[1..] == s[1..] + t;
    }
  }

  /** Taking the lowest page costs one page. */
  lemma TakePageCount(s: seq<Range>)
    requires Canonical(s) && AllPlaced(s)
    ensures s != [] ==> PageCount(TakePage(s)) == PageCount(s) - 1
    ensures s != [] <==> PageCount(s) > 0
  {
    if s != [] {
      PagesInBlock(s, 0);
      assert Placed(s[0]);
      var rest := Piece(s[0].addr + PAGE, s[0].End() - (s[0].addr + PAGE), s[0].kind);
      assert TakePage(s) == rest + s[1..];
      PageCountSplit(rest, s[1..]);
    }
  }

  /** Inserting adds the pages of the range. */
  lemma {:induction false} InsertPageCount(s: seq<Range>, b: Range)
    requires Canonical(s) && AllPlaced(s) && Placed(b) && b.size > 0 && Apart(s, b)
    ensures PageCount(Insert(s, b)) == PageCount(s) + b.size / PAGE
  {
    if s == [] {
      assert [b][1..] == [];
    } else if Absorbs(s[0], b) || Absorbs(b, s[0]) {
      MergedPageCount(s, b);
    } else if s[0].addr < b.addr {
      InsertPageCount(s[1..], b);
      assert Insert(s, b)[1..] == Insert(s[1..], b);
    } else {
      assert Insert(s, b)[1..] == s;
    }
  }

  lemma MergedPageCount(s: seq<Range>, b: Range)
    requires Canonical(s) && AllPlaced(s) && Placed(b) && b.size > 0 && Apart(s, b) && s != []
    requires Absorbs(s[0], b) || Absorbs(b, s[0])
    ensures PageCount(Insert(s, b)) == PageCount(s) + b.size / PAGE
  {
    PagesInBlock(s, 0);
    assert Placed(s[0]) && s[0].ApartFrom(b);
    var m := Join(s[0], b);
    if Absorbs(s[0], b) && |s| > 1 && Absorbs(m, s[1]) {
      PagesInBlock(s, 1);
      assert Placed(s[1]) && s[1].ApartFrom(b);
      assert s[1..][1..] == s[2..];
    }
  }

  // ---------------------------------------------------------------- node allocation

  /** A change of the store that keeps every layout and every owned node but `p`. */
  lemma ValidKept(st: State, st': State)
    requires Valid(st) && Structured(st') && st'.lists.Keys == st.lists.Keys && st'.slabs == st.slabs
    requires forall r :: r in st.lists ==> Layout(st', r) == Layout(st, r)
    requires LastFree(st') >= if st'.pending == 0 then 4 else 3
    ensures Valid(st') && Free(st') == Free(st)
  {
    hide Structured, Layout, Canonical, AllPlaced, AllFree, ClearOfSlabs;
    HeadsOf(st);
  }

  lemma GrantOnlyList(st: State, st': State, p: Ptr)
    requires st'.lists == st.lists && st'.owner == st.owner[p := Loose] && p !in st.owner
    requires forall r :: r in st.lists ==> Layout(st', r) == Layout(st, r)
    requires forall q :: q in st.owner ==> q in st.mem && q in st'.mem && st'.mem[q] == st.mem[q]
    ensures OnlyList(st, st', MemoryMap, {p})
  {
  }

  /** Handing out a free slot without a refill. */
  lemma GrantDone(st: State, st': State, i: nat, p: Ptr)
    requires Valid(st) && st.pending == 0 && FreeSlot(st, i, p) && IsGranted(st, st', i, p, true)
    requires i == |st.slabs| - 1 ==> LastFree(st) > 4
    ensures Valid(st') && NodeGranted(st, st', p)
  {
    hide Structured, Layout, OnlyList, LastFree;
    GrantedOk(st, st', i, p, true);
    ValidKept(st, st');
    GrantOnlyList(st, st', p);
  }

  /** Choosing the slot and marking the last slab page while its refill is under way. */
  lemma PendDone(st: State, st': State, i: nat, p: Ptr)
    requires Valid(st) && st.pending == 0 && FreeSlot(st, i, p) && IsGranted(st, st', i, p, false)
    requires i == |st.slabs| - 1
    ensures Valid(st') && Free(st') == Free(st) && OnlyList(st, st', MemoryMap, {p})
  {
    hide Structured, Layout, OnlyList, LastFree;
    GrantedOk(st, st', i, p, false);
    FreeSlotPositive(st, i, p);
    ValidKept(st, st');
    GrantOnlyList(st, st', p);
  }

  lemma FreeSlotPositive(st: State, i: nat, p: Ptr)
    requires Structured(st) && FreeSlot(st, i, p)
    ensures p > 0
  {
    FreeSlotFacts(st, i, p);
  }

  /** One page allocated from nonempty free memory is its lowest page, and no list but the
      physical one is touched. */
  lemma OnePage(st: State, st': State, addr: nat, status: nat)
    requires Valid(st) && Free(st) != [] && AllocResult(st, st', 0, 1, 0, addr, status)
    ensures status == 0 && addr == Free(st)[0].addr && addr > 0
    ensures Free(st') == TakePage(Free(st)) && st'.slabs == st.slabs && st'.pending == st.pending
    ensures OnlyList(st, st', MemoryMap, {})
  {
    hide OnlyList, Structured, Layout;
    var s := Free(st);
    FreeFacts(st);
    PagesInBlock(s, 0);
    FitPageAligned(s[0], 0, 0);
    FromAligned(0);
    NotMisplaced(st, 0, 1, 0);
    assert Fits(s[0], 0, 1, Pow2(0), None);
    assert FirstFit(s, 0, 1, Pow2(0), None) == 0;
  }

  /** One page allocated: the lowest, or address 0 if there is none. */
  lemma OnePageOrNone(st: State, st': State, addr: nat, status: nat)
    requires Valid(st) && AllocResult(st, st', 0, 1, 0, addr, status)
    ensures addr == 0 <==> Free(st) == []
    ensures if addr == 0 then st' == st else PageGranted(st, st', addr)
  {
    hide OnlyList, Structured, Layout, LayoutsOk, AllFree, ClearOfSlabs, LastFree;
    if Free(st) != [] { OnePage(st, st', addr, status); }
  }

  /** The lowest page was taken off the free memory, and no other list was touched. */
  ghost predicate PageGranted(st: State, st': State, addr: nat) {
    && Free(st) != [] && addr == Free(st)[0].addr
    && Free(st') == TakePage(Free(st)) && st'.slabs == st.slabs && st'.pending == st.pending
    && OnlyList(st, st', MemoryMap, {})
  }

  /** Handing out a slot after the refill gave the chain a new slab page. */
  lemma RefillDone(st: State, st1: State, st2: State, st3: State, i: nat, p: Ptr, page: nat)
    requires Valid(st) && st.pending == 0 && FreeSlot(st, i, p) && IsGranted(st, st1, i, p, false)
    requires i == |st.slabs| - 1 && Free(st) != [] && LastFree(st) <= 4
    requires Valid(st2) && OnlyList(st1, st2, MemoryMap, {}) && st2.slabs == st1.slabs && st2.pending == p
    requires page == Free(st)[0].addr && Free(st2) == TakePage(Free(st))
    requires IsGrown(st2, st3, page)
    ensures Valid(st3) && NodeGranted(st, st3, p)
  {
    hide Structured, OnlyList, LastFree, GrownMem, GrantedMem, Layout, Canonical, AllPlaced, AllFree, TakeFirst;
    PendDone(st, st1, i, p);
    FreeFacts(st);
    TakePageOk(Free(st), st.slabs);
    FreeSlotPositive(st, i, p);
    StructuredOf(st2);
    GrownOk(st2, st3, page, i);
    GrownOnly(st2, st3, p);
    OnlyListWiden(st1, st2, MemoryMap, {p});
    OnlyListTrans(st, st1, st2, MemoryMap, {p});
    OnlyListTrans(st, st2, st3, MemoryMap, {p});
    HeadsOf(st2);
    assert Free(st3) == Free(st2);
    assert LastFree(st3) == NODES_PER_PAGE;
    ValidGrown(st2, st3, page);
    PendingOwned(st2);
  }

  lemma StructuredOf(st: State)
    requires Valid(st)
    ensures Structured(st)
  {
  }

  lemma PendingOwned(st: State)
    requires Structured(st) && st.pending != 0
    ensures st.pending in st.owner && st.owner[st.pending] == Loose
  {
  }

  lemma GrownOnly(st: State, st': State, p: Ptr)
    requires st'.lists == st.lists && st'.owner == st.owner
    requires forall r :: r in st.lists ==> Layout(st', r) == Layout(st, r)
    requires forall q :: q in st.owner && q != p ==> q in st.mem && q in st'.mem && st'.mem[q] == st.mem[q]
    ensures OnlyList(st, st', MemoryMap, {p})
  {
  }

  lemma ValidGrown(st: State, st': State, page: nat)
    requires Valid(st) && Structured(st') && st'.lists == st.lists && st'.slabs == st.slabs + [page]
    requires forall r :: r in st.lists ==> Layout(st', r) == Layout(st, r)
    requires ClearOfSlabs(Free(st), st.slabs + [page]) && LastFree(st') >= 4
    ensures Valid(st')
  {
    hide Structured, Layout, Canonical, AllPlaced, AllFree, ClearOfSlabs;
    HeadsOf(st);
  }

  lemma ValidFacts(st: State)
    requires Valid(st) && st.pending == 0
    ensures Structured(st) && LastFree(st) >= 4 && MemoryMap in st.lists
  {
    HeadsOf(st);
  }

  /** What the slot found by the node search tells about its page. */
  lemma GrantFacts(st: State, k: nat, val: Ptr)
    requires Structured(st) && st.pending == 0 && FreeSlot(st, k, val)
    ensures var h := Header(st.slabs[k]);
      && h in st.mem && st.mem[h].size > 0 && val in st.mem && val != h
      && (st.mem[h].addr == 0 <==> k == |st.slabs| - 1)
      && (k == |st.slabs| - 1 ==> st.mem[h].size == LastFree(st))
  {
    hide PoolOk, ListsOk, LastFree;
    FreeSlotFacts(st, k, val);
    SlabFacts(st, k);
    if k + 1 < |st.slabs| { SlabFacts(st, k + 1); }
  }

  /** A slab page is needed exactly if the search ended in the last page and leaves it low. */
  lemma RoomFacts(st: State, k: nat)
    requires k < |st.slabs| && Header(st.slabs[k]) in st.mem && st.mem[Header(st.slabs[k])].size > 0
    requires forall j :: 0 <= j < k && Header(st.slabs[j]) in st.mem ==> st.mem[Header(st.slabs[j])].size == 0
    ensures NeedsSlab(st) <==> k == |st.slabs| - 1 && LastFree(st) <= 4
    ensures NodeRoom(st) <==> !(k == |st.slabs| - 1 && LastFree(st) <= 4 && Free(st) == [])
  {
    hide Layout, LastFree;
  }

  /** While the refill runs the header stays where it was, outside the new page. */
  lemma RefillFacts(st: State, st1: State, st2: State, k: nat, val: Ptr, page: nat)
    requires Valid(st) && st.pending == 0 && FreeSlot(st, k, val) && IsGranted(st, st1, k, val, false)
    requires k == |st.slabs| - 1 && Free(st) != [] && page == Free(st)[0].addr
    requires Valid(st2) && st2.slabs == st1.slabs
    ensures page % PAGE == 0 && Header(st.slabs[k]) in st2.mem
    ensures Header(st.slabs[k]) !in ZeroPage(page) && val !in ZeroPage(page) && val != Header(st.slabs[k])
  {
    hide Structured, LastFree, Layout, GrantedMem;
    FreeFacts(st);
    TakePageOk(Free(st), st.slabs);
    SlabsAligned(st);
    OutsideNewPage(st.slabs, page, k);
    HeaderIn(st2, k);
    FreeSlotFactsOf(st, k, val);
  }

  lemma FreeSlotFactsOf(st: State, i: nat, p: Ptr)
    requires Structured(st) && FreeSlot(st, i, p)
    ensures p != Header(st.slabs[i])
  {
    FreeSlotFacts(st, i, p);
  }

  lemma SlabsAligned(st: State)
    requires Structured(st)
    ensures forall j :: 0 <= j < |st.slabs| ==> st.slabs[j] % PAGE == 0
  {
    hide ListsOk, Counted, Marked;
    PoolParts(st);
    hide PoolOk;
  }

  lemma HeaderIn(st: State, k: nat)
    requires Valid(st) && k < |st.slabs|
    ensures Header(st.slabs[k]) in st.mem
  {
    hide ListsOk, Counted, Marked, LayoutsOk, AllFree, ClearOfSlabs;
    PoolParts(st);
  }

  lemma FirstFitIs(s: seq<Range>, lo: nat, pages: nat, unit: nat, want: Option<nat>, i: nat)
    requires unit > 0 && i <= |s|
    requires forall j :: 0 <= j < i ==> !Fits(s[j], lo, pages, unit, want)
    requires i < |s| ==> Fits(s[i], lo, pages, unit, want)
    ensures FirstFit(s, lo, pages, unit, want) == i
  {
    hide Fits;
    var k := FirstFit(s, lo, pages, unit, want);
    assert k < |s| ==> Fits(s[k], lo, pages, unit, want);
  }

  lemma DeletedFacts(st: State, st': State, root: Root, i: nat)
    requires BlockDeleted(st, st', root, i)
    ensures Structured(st') && OnlyList(st, st', root, {}) && st'.slabs == st.slabs && st'.pending == st.pending
    ensures Layout(st', root) == Without(Layout(st, root), i) && LastFree(st') >= LastFree(st)
    ensures st'.owner.Keys <= st.owner.Keys
  {
  }

  // ---------------------------------------------------------------- freeing

  /** What inserting the block of node `blk` does to a valid store, for any list. */
  lemma InsertedFacts(st: State, st': State, root: Root, blk: Ptr)
    requires BlockInserted(st, st', root, blk)
    ensures Structured(st') && OnlyList(st, st', root, {blk}) && st'.slabs == st.slabs && st'.pending == st.pending
    ensures blk in st.mem && Layout(st', root) == Insert(Layout(st, root), st.mem[blk].Block())
    ensures LastFree(st') >= LastFree(st) && (blk in st'.owner ==> st'.owner[blk] == Of(root))
  {
  }

  lemma GrantedFacts(st: State, st': State, v: Ptr)
    requires NodeGranted(st, st', v)
    ensures v !in st.owner && v in st'.owner && st'.owner[v] == Loose
    ensures v in st'.mem && st'.mem[v] == FRESH_NODE
    ensures OnlyList(st, st', MemoryMap, {v}) && st'.pending == st.pending
    ensures FreeBecame(st, st', Free(st), {v}) && NodesLeft(st, st')
  {
  }

  /** The new range of a free block keeps the free memory well formed. */
  lemma FreedLayoutOk(s: seq<Range>, b: Range, slabs: seq<nat>)
    requires Canonical(s) && AllPlaced(s) && AllFree(s) && ClearOfSlabs(s, slabs)
    requires Apart(s, b) && b.size > 0 && Placed(b) && b.kind == 0
    requires forall i :: 0 <= i < |slabs| ==> b.ApartFrom(Range(slabs[i], PAGE, 0))
    ensures var r := Insert(s, b); Canonical(r) && AllPlaced(r) && AllFree(r) && ClearOfSlabs(r, slabs)
  {
    InsertCanonical(s, b);
    InsertPlaced(s, b);
    InsertFree(s, b);
    InsertClear(s, b, slabs);
  }

  /** Giving a loose node a range and inserting it into the free list. */
  lemma FreeInsertDone(st2: State, st3: State, st4: State, v: Ptr, n: Node)
    requires Valid(st2) && st2.pending == 0 && v in st2.owner && st2.owner[v] == Loose && v in st2.mem
    requires n.vald == st2.mem[v].vald && n.kind == 0 && st3 == st2.(mem := st2.mem[v := n])
    requires n.size > 0 && Placed(n.Block()) && Apart(Free(st2), n.Block())
    requires forall i :: 0 <= i < |st2.slabs| ==> n.Block().ApartFrom(Range(st2.slabs[i], PAGE, 0))
    requires BlockInserted(st3, st4, MemoryMap, v)
    ensures Valid(st4) && OnlyList(st2, st4, MemoryMap, {v}) && Free(st4) == Insert(Free(st2), n.Block())
    ensures st4.slabs == st2.slabs && st4.pending == 0 && (v in st4.owner ==> st4.owner[v] == Of(MemoryMap))
    ensures LastFree(st4) >= LastFree(st2)
  {
    hide Structured, OnlyList, LastFree, Layout, BlockInserted, Canonical, AllPlaced, AllFree, ClearOfSlabs, Insert,
         Apart;
    FreeFacts(st2);
    ValidFacts(st2);
    BlkInMem(st2, v);
    LooseSetOk(st2, st3, MemoryMap, v, n);
    InsertedFacts(st3, st4, MemoryMap, v);
    FreedLayoutOk(Free(st2), n.Block(), st2.slabs);
    OnlyListTrans(st2, st3, st4, MemoryMap, {v});
    ValidAfter(st2, st4, {v});
  }

  /** A node that was not owned before and belongs to the list now is no outside change. */
  lemma OnlyListAbsorbed(st: State, st': State, root: Root, v: Ptr)
    requires OnlyList(st, st', root, {v}) && v !in st.owner && (v in st'.owner ==> st'.owner[v] == Of(root))
    ensures OnlyList(st, st', root, {})
  {
  }

  /** The slab pages of a store whose free memory is `s` or `TakePage(s)` are clear of a
      range that is clear of `s` and of the old slab pages. */
  lemma GrownSlabsClear(st: State, st': State, v: Ptr, b: Range)
    requires NodeGranted(st, st', v) && Valid(st)
    requires Apart(Free(st), b) && forall i :: 0 <= i < |st.slabs| ==> b.ApartFrom(Range(st.slabs[i], PAGE, 0))
    ensures Apart(Free(st'), b) && forall i :: 0 <= i < |st'.slabs| ==> b.ApartFrom(Range(st'.slabs[i], PAGE, 0))
  {
    hide Structured, OnlyList, LastFree, Layout;
    FreeFacts(st);
    var s := Free(st);
    if st'.slabs != st.slabs {
      RemoveApart(s, 0, s[0].addr, PAGE, b);
      assert s[0].ApartFrom(b);
    }
  }

  /** Carving out of the middle of block `i` is complete. */
  lemma CarveRightDone(st: State, st1: State, st2: State, st4: State, i: nat, at: nat, pages: nat, v: Ptr)
    requires Valid(st) && Valid(st1) && i < |Free(st)| && pages > 0 && at % PAGE == 0 && st1.slabs == st.slabs
    requires var s := Free(st);
      && s[i].addr < at && at + pages * PAGE < s[i].End()
      && Free(st1) == s[i := Range(s[i].addr, at - s[i].addr, s[i].kind)]
    requires OnlyList(st, st1, MemoryMap, {}) && st1.pending == st.pending && st1.owner == st.owner
    requires NodeGranted(st1, st2, v)
    requires OnlyList(st2, st4, MemoryMap, {v}) && st4.slabs == st2.slabs && st4.pending == st2.pending
    requires v in st4.owner ==> st4.owner[v] == Of(MemoryMap)
    requires var b := Range(at + pages * PAGE, Free(st)[i].End() - (at + pages * PAGE), Free(st)[i].kind);
      Free(st4) == Insert(Free(st2), b)
    ensures FreeBecame(st, st4, Carve(Free(st), i, at, pages * PAGE), {})
  {
    hide Structured, OnlyList, LastFree, Layout, NodeGranted, Insert, Remove, Canonical, AllPlaced, AllFree,
         ClearOfSlabs;
    var s := Free(st);
    var b := Range(at + pages * PAGE, s[i].End() - (at + pages * PAGE), s[i].kind);
    FreeFacts(st);
    FreeFacts(st1);
    ShrinkThenInsert(s, i, at, pages * PAGE);
    GrantedFacts(st1, st2, v);
    OnlyListWiden(st, st1, MemoryMap, {v});
    OnlyListTrans(st, st1, st2, MemoryMap, {v});
    OnlyListTrans(st, st2, st4, MemoryMap, {v});
    OnlyListAbsorbed(st, st4, MemoryMap, v);
    PagesInBlock(Free(st1), 0);
    LowerBlock(s, i, at, pages * PAGE);
    TakePageInsert(Free(st1), b);
  }

  lemma LowerBlock(s: seq<Range>, i: nat, at: nat, size: nat)
    requires Canonical(s) && i < |s| && s[i].addr < at && at + size < s[i].End()
    ensures s[i := Range(s[i].addr, at - s[i].addr, s[i].kind)][0].addr < at + size
  {
  }

  /** Block `i` cut down to the part below `at`. */
  lemma LeftPartValid(st: State, st1: State, i: nat, at: nat)
    requires Valid(st) && st.pending == 0 && i < |Free(st)| && at % PAGE == 0
    requires Free(st)[i].addr < at < Free(st)[i].End()
    requires var s := Free(st); IsReshaped(st, st1, MemoryMap, i, Range(s[i].addr, at - s[i].addr, s[i].kind))
    ensures Valid(st1) && NodeRoom(st1)
    ensures var s := Free(st); Free(st1) == s[i := Range(s[i].addr, at - s[i].addr, s[i].kind)]
    ensures OnlyList(st, st1, MemoryMap, {}) && st1.slabs == st.slabs && st1.pending == 0 && st1.owner == st.owner
  {
    hide Structured, OnlyList, LastFree, Layout, Canonical, AllPlaced, AllFree, ClearOfSlabs, NeedsSlab, Remove;
    var s := Free(st);
    StructuredOf(st);
    ReshapedOk(st, st1, MemoryMap, i, Range(s[i].addr, at - s[i].addr, s[i].kind));
    FreeFacts(st);
    PagesLeft(s, i, at);
    RemoveRightEdge(s, i, at, s[i].End() - at);
    CarveDone(st, st1, i, at, (s[i].End() - at) / PAGE);
  }

  lemma PagesLeft(s: seq<Range>, i: nat, at: nat)
    requires AllPlaced(s) && i < |s| && s[i].addr < at < s[i].End() && at % PAGE == 0
    ensures (s[i].End() - at) / PAGE * PAGE == s[i].End() - at && (s[i].End() - at) / PAGE > 0
  {
    assert Placed(s[i]);
  }

  /** The part of block `i` above the run is a range the free memory can take back. */
  lemma RightPartApart(st: State, st1: State, st2: State, i: nat, at: nat, pages: nat, v: Ptr)
    requires Valid(st) && Valid(st1) && i < |Free(st)| && pages > 0 && at % PAGE == 0 && st1.slabs == st.slabs
    requires var s := Free(st);
      && s[i].addr < at && at + pages * PAGE < s[i].End()
      && Free(st1) == s[i := Range(s[i].addr, at - s[i].addr, s[i].kind)]
    requires NodeGranted(st1, st2, v)
    ensures var b := Range(at + pages * PAGE, Free(st)[i].End() - (at + pages * PAGE), Free(st)[i].kind);
      && b.size > 0 && b.kind == 0 && Placed(b) && Apart(Free(st2), b)
      && forall j :: 0 <= j < |st2.slabs| ==> b.ApartFrom(Range(st2.slabs[j], PAGE, 0))
  {
    hide Structured, OnlyList, LastFree, Layout, NodeGranted, Insert, Remove, LayoutsOk, Placed, Apart, Canonical,
         AllPlaced, ClearOfSlabs, AllFree;
    var s := Free(st);
    FreeFacts(st);
    var b := Range(at + pages * PAGE, s[i].End() - (at + pages * PAGE), s[i].kind);
    ShrinkThenInsert(s, i, at, pages * PAGE);
    RightPartPlaced(s, i, at, pages, st.slabs);
    GrownSlabsClear(st1, st2, v, b);
  }

  lemma RightPartPlaced(s: seq<Range>, i: nat, at: nat, pages: nat, slabs: seq<nat>)
    requires AllPlaced(s) && AllFree(s) && ClearOfSlabs(s, slabs) && i < |s| && at % PAGE == 0
    requires s[i].addr < at && at + pages * PAGE < s[i].End()
    ensures var b := Range(at + pages * PAGE, s[i].End() - (at + pages * PAGE), s[i].kind);
      && Placed(b) && b.kind == 0 && forall j :: 0 <= j < |slabs| ==> b.ApartFrom(Range(slabs[j], PAGE, 0))
  {
    assert Placed(s[i]);
    forall j | 0 <= j < |slabs|
      ensures Range(at + pages * PAGE, s[i].End() - (at + pages * PAGE), 0).ApartFrom(Range(slabs[j], PAGE, 0))
    {
      assert s[i].ApartFrom(Range(slabs[j], PAGE, 0));
    }
  }

  /** A loose node with its range filled in can be inserted. */
  lemma LooseReady(st2: State, st3: State, root: Root, blk: Ptr, n: Node)
    requires Valid(st2) && st2.pending == 0 && root in st2.lists
    requires blk in st2.owner && st2.owner[blk] == Loose && blk in st2.mem
    requires n.vald == st2.mem[blk].vald && st3 == st2.(mem := st2.mem[blk := n])
    ensures Structured(st3) && AllPlaced(Layout(st3, root)) && Layout(st3, root) == Layout(st2, root) && blk > 0
  {
    hide Structured, OnlyList, LastFree, Layout, Canonical, AllPlaced, AllFree, ClearOfSlabs;
    ValidFacts(st2);
    BlkInMem(st2, blk);
    LooseSetOk(st2, st3, root, blk, n);
  }

  lemma AllocDone(st: State, st': State, i: nat, hint: nat, pages: nat, align: nat, addr: nat)
    requires pages > 0 && align <= 63 && !Misplaced(st, hint, pages, align)
    requires var s, lo, unit := Free(st), From(hint), Pow2(align);
      i < |s| && FirstFit(s, lo, pages, unit, None) == i && addr == FitAt(s[i], lo, unit)
    requires FreeBecame(st, st', Carve(Free(st), i, addr, pages * PAGE), {})
    requires hint == 0 && align == 0 ==> st'.slabs == st.slabs && st'.owner.Keys <= st.owner.Keys
    ensures AllocResult(st, st', hint, pages, align, addr, 0)
  {
  }

  lemma AllocFailed(st: State, hint: nat, pages: nat, align: nat)
    requires pages > 0 && !Misplaced(st, hint, pages, align)
    requires align <= 63 ==> FirstFit(Free(st), From(hint), pages, Pow2(align), None) == |Free(st)|
    ensures AllocResult(st, st, hint, pages, align, 0, 1)
  {
  }

  lemma AllocNothing(st: State, hint: nat, align: nat)
    ensures AllocResult(st, st, hint, 0, align, From(hint), 0)
  {
  }

  /** Block `r` was tried in vain. */
  predicate PassedOver(r: Range, lo: nat, pages: nat, unit: nat)
    requires unit > 0
  {
    !Fits(r, lo, pages, unit, None) && (AlignWraps(lo, unit) ==> r.End() / PAGE < pages)
  }

  lemma NotMisplaced(st: State, hint: nat, pages: nat, align: nat)
    requires align > 63 || !AlignWraps(From(hint), Pow2(align)) ||
      forall j :: 0 <= j < |Free(st)| ==> PassedOver(Free(st)[j], From(hint), pages, Pow2(align))
    ensures !Misplaced(st, hint, pages, align)
  {
    hide Layout, From, Pow2, Fits;
  }

  lemma MisplacedAt(st: State, hint: nat, pages: nat, align: nat, i: nat)
    requires align <= 63 && AlignWraps(From(hint), Pow2(align)) && i < |Free(st)| && Free(st)[i].End() / PAGE >= pages
    ensures Misplaced(st, hint, pages, align)
  {
    hide Layout, From, Pow2;
  }

  lemma BlockPlaced(s: seq<Range>, i: nat)
    requires AllPlaced(s) && i < |s|
    ensures Placed(s[i])
  {
  }

  lemma AllocMisplaced(st: State, hint: nat, pages: nat, align: nat)
    requires pages > 0 && Misplaced(st, hint, pages, align)
    ensures AllocResult(st, st, hint, pages, align, 0, 2)
  {
  }

  /** A request starts to look at the first page boundary from its hint on; in the last page of
      the 64-bit space there is none, and it starts at address 0. */
  lemma FromAligned(hint: nat)
    ensures From(hint) % PAGE == 0 && From(hint) < WORD64 && (hint == 0 ==> From(hint) == 0)
    ensures hint < WORD64 ==>
      if hint <= WORD64 - PAGE then hint <= From(hint) < hint + PAGE else From(hint) == 0
  {
    AlignUpIsLeast(hint, PAGE);
    ModPage(AlignUp(hint, PAGE));
  }

  lemma ModPage(x: nat)
    requires x % PAGE == 0
    ensures x % WORD64 % PAGE == 0
  {
  }

  lemma Pow2Word()
    ensures Pow2(63) == 0x8000_0000_0000_0000 && Pow2(64) == WORD64
  {
    assert Pow2(3) == 8 && Pow2(1) == 2;
    Pow2Page();
    hide Pow2;
    Pow2Add(12, 12);
    Pow2Add(24, 24);
    Pow2Add(48, 12);
    Pow2Add(60, 3);
    Pow2Add(63, 1);
  }

  lemma UnitBound(align: nat)
    requires align <= 63
    ensures Pow2(align) <= 0x8000_0000_0000_0000
  {
    Pow2Word();
    hide Pow2;
    Pow2Add(align, 63 - align);
    MulGap(1, Pow2(63 - align), Pow2(align));
  }

  lemma UnitDivides(align: nat)
    requires align <= 63
    ensures Pow2(64 - align) * Pow2(align) == WORD64
  {
    Pow2Word();
    hide Pow2;
    Pow2Add(64 - align, align);
  }

  /** The rounding of the allocation loop in 64 bits: a block of memory never wraps it, and an
      address that wraps becomes 0, above every block before and below every block after. */
  lemma AlignedInWord(r: Range, lo: nat, align: nat)
    requires Placed(r) && lo < WORD64 && align <= 63
    ensures var x, unit := if r.addr < lo then lo else r.addr, Pow2(align);
      && AlignUp(x, unit) % WORD64 == (if AlignWraps(lo, unit) then 0 else FitAt(r, lo, unit))
      && (AlignWraps(lo, unit) ==> r.End() < lo)
  {
    hide AlignUp, Pow2;
    UnitBound(align);
    var x, unit := if r.addr < lo then lo else r.addr, Pow2(align);
    if AlignWraps(lo, unit) {
      UnitDivides(align);
      AlignsToEnd(x, Pow2(64 - align), unit, WORD64);
    } else {
      AlignUpBelow(x, unit);
    }
  }

  lemma AlignsToEnd(x: nat, q: nat, unit: nat, end: nat)
    requires unit > 0 && end == q * unit && x <= end < x + unit
    ensures AlignUp(x, unit) == end
  {
    DivModUnique(x + unit - 1, q, x + unit - 1 - end, unit);
  }

  lemma AlignUpBelow(x: nat, unit: nat)
    requires unit > 0
    ensures AlignUp(x, unit) < x + unit
  {
  }

  // ---------------------------------------------------------------- adding a block to any list

  /** Every taken node is in a list: none has leaked. */
  ghost predicate NoLoose(st: State) {
    forall p :: p in st.owner ==> st.owner[p].Of?
  }

  /** At most one slab page was added, made of the lowest free page. */
  ghost predicate SlabsGrew(st: State, st': State) {
    st'.slabs == st.slabs ||
    (Free(st) != [] && st'.slabs == st.slabs + [Free(st)[0].addr])
  }

  /** The free memory once the slab pages have become `slabs`. */
  ghost function FreeAfter(st: State, slabs: seq<nat>): seq<Range> {
    if slabs == st.slabs then Free(st) else TakePage(Free(st))
  }

  /** List `root` gained the range `b`; the node it needed may have cost a free page. */
  ghost predicate BlockAdded(st: State, st': State, root: Root, b: Range) {
    && st'.lists.Keys == st.lists.Keys && st'.pending == st.pending
    && SlabsGrew(st, st')
    && (forall r :: r in st.lists && r != root && r != MemoryMap ==>
        st'.lists[r] == st.lists[r] && Layout(st', r) == Layout(st, r))
    && (root == MemoryMap ==> Free(st') == Insert(FreeAfter(st, st'.slabs), b))
    && (root != MemoryMap ==> Layout(st', root) == Insert(Layout(st, root), b) && Free(st') == FreeAfter(st, st'.slabs))
    && (NoLoose(st) ==> NoLoose(st'))
    && NodesLeft(st, st')
    && NodesCounted(st, st', root)
  }

  /** Without a new slab page list `root` took as many nodes as it has blocks more. */
  ghost predicate NodesCounted(st: State, st': State, root: Root) {
    st'.slabs == st.slabs ==> |st'.owner| + |Layout(st, root)| == |st.owner| + |Layout(st', root)|
  }

  /** `b` may be added to list `root`. */
  ghost predicate Addable(st: State, root: Root, b: Range) {
    && root in st.lists && b.size > 0 && Placed(b) && Apart(Layout(st, root), b)
    && (root == MemoryMap ==>
          b.kind == 0 && forall i :: 0 <= i < |st.slabs| ==> b.ApartFrom(Range(st.slabs[i], PAGE, 0)))
  }

  lemma GrantedStep(st: State, st': State, v: Ptr)
    requires NodeGranted(st, st', v)
    ensures SlabsGrew(st, st') && Free(st') == FreeAfter(st, st'.slabs)
  {
  }

  lemma GrantedAddable(st: State, st': State, v: Ptr, root: Root, b: Range)
    requires Valid(st) && NodeGranted(st, st', v) && Addable(st, root, b)
    ensures Addable(st', root, b)
  {
    hide Structured, LastFree, Ranges, Canonical, AllPlaced, AllFree, ClearOfSlabs;
    if root == MemoryMap {
      GrownSlabsClear(st, st', v, b);
    }
  }

  lemma UserInsertDone(st2: State, st3: State, st4: State, root: Root, v: Ptr, n: Node)
    requires Valid(st2) && st2.pending == 0 && v in st2.owner && st2.owner[v] == Loose && v in st2.mem
    requires root in st2.lists && root != MemoryMap
    requires n.vald == st2.mem[v].vald && st3 == st2.(mem := st2.mem[v := n])
    requires n.size > 0 && Placed(n.Block()) && Apart(Layout(st2, root), n.Block())
    requires BlockInserted(st3, st4, root, v)
    ensures Valid(st4) && OnlyList(st2, st4, root, {v}) && Layout(st4, root) == Insert(Layout(st2, root), n.Block())
    ensures Free(st4) == Free(st2)
    ensures st4.slabs == st2.slabs && st4.pending == 0 && (v in st4.owner ==> st4.owner[v] == Of(root))
    ensures LastFree(st4) >= LastFree(st2)
  {
    hide Structured, LastFree, Ranges, BlockInserted, Canonical, AllPlaced, AllFree, ClearOfSlabs, Insert, Apart;
    ValidFacts(st2);
    BlkInMem(st2, v);
    LooseSetOk(st2, st3, root, v, n);
    InsertedFacts(st3, st4, root, v);
    InsertCanonical(Layout(st2, root), n.Block());
    InsertPlaced(Layout(st2, root), n.Block());
    OnlyListTrans(st2, st3, st4, root, {v});
  }

  lemma AddedDone(st: State, st2: State, st4: State, root: Root, v: Ptr, b: Range)
    requires NodeGranted(st, st2, v) && root in st.lists && Valid(st) && Valid(st2) && Valid(st4)
    requires OnlyList(st2, st4, root, {v}) && Layout(st4, root) == Insert(Layout(st2, root), b)
    requires st4.slabs == st2.slabs && st4.pending == st2.pending && (v in st4.owner ==> st4.owner[v] == Of(root))
    requires LastFree(st4) >= LastFree(st2)
    ensures BlockAdded(st, st4, root, b)
  {
    hide Ranges, Insert, Valid, NodesCounted;
    GrantedStep(st, st2, v);
    AddedCounted(st, st2, st4, root, v);
  }

  lemma AddedCounted(st: State, st2: State, st4: State, root: Root, v: Ptr)
    requires NodeGranted(st, st2, v) && root in st.lists && Valid(st) && Valid(st2) && Valid(st4)
    requires OnlyList(st2, st4, root, {v}) && st4.slabs == st2.slabs && (v in st4.owner ==> st4.owner[v] == Of(root))
    ensures NodesCounted(st, st4, root)
  {
    hide Structured, Layout, LayoutsOk, ClearOfSlabs, AllFree, LastFree;
    if st2.slabs == st.slabs {
      FreeFacts(st);
      GrantedOne(st, st2, v);
      TakenInCount(st2, st4, root, v);
      SameLayout(st, st2, root, v);
    }
  }

  /** Without a new slab page an allocated node is one more, and no list changed. */
  lemma GrantedOne(st: State, st': State, v: Ptr)
    requires NodeGranted(st, st', v) && st'.slabs == st.slabs && Structured(st) && Structured(st')
    requires MemoryMap in st.lists
    ensures |st'.owner| == |st.owner| + 1
  {
    hide Structured, Layout, LastFree, OnlyList;
    GrantCount(st, st', MemoryMap, v);
  }

  lemma SameLayout(st: State, st': State, root: Root, v: Ptr)
    requires NodeGranted(st, st', v) && st'.slabs == st.slabs && root in st.lists
    ensures Layout(st', root) == Layout(st, root) && root in st'.lists
  {
    hide Layout, LastFree;
  }

  // ---------------------------------------------------------------- retyping a run of a user list

  /** A node can be allocated exactly if there is a spare one, or a page to make nodes of. */
  lemma NodeRoomIff(st: State)
    requires Valid(st) && st.pending == 0
    ensures NodeRoom(st) <==> Free(st) != [] || Spare(st) >= 1
    ensures Spare(st) >= 0
  {
    hide ListsOk, PoolOk, LayoutsOk, ClearOfSlabs, AllFree, Layout, Spare, LastFree;
    SpareCount(st);
  }

  /** Several node allocations and insertions into the user list `root`, whose layout became
      `r`: at most one slab page was added on the way. */
  ghost predicate UserStep(st: State, st': State, root: Root, r: seq<Range>, nodes: nat) {
    && root in st.lists && root != MemoryMap
    && st'.lists.Keys == st.lists.Keys && st'.pending == st.pending
    && SlabsGrew(st, st') && Free(st') == FreeAfter(st, st'.slabs)
    && (forall q :: q in st.lists && q != root && q != MemoryMap ==>
        st'.lists[q] == st.lists[q] && Layout(st', q) == Layout(st, q))
    && Layout(st', root) == r
    && (NoLoose(st) ==> NoLoose(st'))
    && (if st'.slabs == st.slabs then |st'.owner| + |Layout(st, root)| == |st.owner| + |r|
        else LastFree(st') + nodes >= NODES_PER_PAGE + 1)
  }

  /** Whether the next node allocation of such a series succeeds. */
  lemma UserStepRoom(st: State, st': State, root: Root, r: seq<Range>, nodes: nat)
    requires UserStep(st, st', root, r, nodes) && nodes <= 100 && Valid(st') && st'.pending == 0
    ensures NodeRoom(st') <==> Free(st) != [] || Spare(st) + |Layout(st, root)| >= |r| + 1
  {
    hide Layout, LastFree, TakePage, Valid, NodeRoom;
    NodeRoomIff(st');
    if st'.slabs != st.slabs {
      EnoughInLast(st');
    }
  }

  lemma EnoughInLast(st: State)
    requires LastFree(st) > 4
    ensures NodeRoom(st)
  {
    hide Layout, LastFree;
  }

  lemma UserStepAdd(st: State, st1: State, st2: State, root: Root, s: seq<Range>, b: Range, nodes: nat)
    requires UserStep(st, st1, root, s, nodes) && nodes <= 100 && BlockAdded(st1, st2, root, b)
    ensures UserStep(st, st2, root, Insert(s, b), nodes + 1)
  {
    hide Layout, LastFree, Insert, TakePage;
  }

  lemma UserStepDelete(st: State, st': State, root: Root, i: nat)
    requires BlockDeleted(st, st', root, i) && root != MemoryMap && Valid(st)
    ensures UserStep(st, st', root, Without(Layout(st, root), i), 0) && Valid(st') && st'.pending == st.pending
  {
    hide Structured, Layout, LastFree, TakePage, Canonical, AllPlaced, AllFree, ClearOfSlabs;
    StructuredOf(st);
    DeletedCount(st, st', root, i);
    LayoutLength(st, root);
    ValidLists(st);
    DeletedLayoutOk(Layout(st, root), i);
    DeletedNoLoose(st, st', root, i);
  }

  lemma ValidLists(st: State)
    requires Valid(st)
    ensures MemoryMap in st.lists && forall r :: r in st.lists ==> Canonical(Layout(st, r)) && AllPlaced(Layout(st, r))
  {
    hide Structured, Layout, Canonical, AllPlaced, AllFree, ClearOfSlabs;
    StructuredOf(st);
    HeadsOf(st);
  }

  lemma DeletedLayoutOk(s: seq<Range>, i: nat)
    requires Canonical(s) && AllPlaced(s) && i < |s|
    ensures Canonical(Without(s, i)) && AllPlaced(Without(s, i))
  {
  }

  lemma DeletedNoLoose(st: State, st': State, root: Root, i: nat)
    requires BlockDeleted(st, st', root, i)
    ensures NoLoose(st) ==> NoLoose(st')
  {
    hide Structured, Layout, LastFree;
  }

  /** A retyping runs out of nodes: no page is free to make nodes of, and it needs more than
      the spare ones and the one of the block that it takes out. */
  ghost predicate RetypeStarves(st: State, root: Root, i: nat, at: nat, size: nat, kind: nat) {
    i < |Layout(st, root)| && Free(st) == [] && Spare(st) < NodesNeeded(Layout(st, root), i, at, size, kind)
  }

  lemma NeededAtLeast(s: seq<Range>, i: nat, at: nat, size: nat, kind: nat)
    requires i < |s| && s[i].addr <= at && at + size <= s[i].End()
    ensures at > s[i].addr ==> NodesNeeded(s, i, at, size, kind) >= 1
    ensures at + size == s[i].End() ==> NodesNeeded(s, i, at, size, kind) == if at > s[i].addr then 1 else 0
  {
  }

  lemma RetypeAddable(st: State, root: Root, b: Range)
    requires root in st.lists && root != MemoryMap && b.size > 0 && Placed(b) && Apart(Layout(st, root), b)
    ensures Addable(st, root, b)
  {
  }

  lemma UserStepFacts(st: State, st': State, root: Root, r: seq<Range>, nodes: nat)
    requires UserStep(st, st', root, r, nodes)
    ensures root in st'.lists && root != MemoryMap && Layout(st', root) == r && st'.pending == st.pending
    ensures UserStep(st, st', root, r, nodes + 1)
  {
  }

  lemma PartsPlaced(s: seq<Range>, i: nat, at: nat, size: nat, kind: nat)
    requires AllPlaced(s) && i < |s| && s[i].addr <= at && at + size <= s[i].End()
    requires at % PAGE == 0 && size % PAGE == 0
    ensures Placed(LeftOf(s[i], at)) && Placed(Range(at, size, kind))
    ensures RightOf(s[i], at + size).size > 0 ==> Placed(RightOf(s[i], at + size))
  {
    assert Placed(s[i]);
  }

  lemma LayoutLength(st: State, root: Root)
    requires root in st.lists
    ensures |Layout(st, root)| == |st.lists[root]|
  {
  }
}
