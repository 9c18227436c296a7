/** Who holds a physical page frame: the free list, a slab page, a page table, or one 4K
    mapping. */
module FrameOwnership {
  import opened Layouts
  import opened BlockNodes
  import opened ListSteps
  import opened AllocatorState
  import opened PageTables

  function Frame(f: nat): Range { Range(f, PAGE, 0) }

  /** Frame `f` is neither free nor a slab page. */
  ghost predicate Held(st: State, f: nat) {
    Apart(Free(st), Frame(f)) && f !in st.slabs
  }

  ghost predicate TablesHeld(st: State, t: Tables) {
    forall f :: f in t ==> Held(st, f)
  }

  /** One page was taken off the free memory. */
  ghost predicate PageTaken(st: State, st': State, page: nat) {
    && Valid(st) && Valid(st') && Free(st) != [] && page == Free(st)[0].addr
    && Free(st') == TakePage(Free(st)) && st'.slabs == st.slabs
  }

  lemma FirstNotApart(s: seq<Range>, f: nat)
    requires Canonical(s) && AllPlaced(s) && s != [] && Apart(s, Frame(f))
    ensures f != s[0].addr
  {
    PagesInBlock(s, 0);
    assert s[0].ApartFrom(Frame(f));
  }

  lemma TakePageApart(s: seq<Range>, b: Range)
    requires Canonical(s) && AllPlaced(s) && Apart(s, b)
    ensures Apart(TakePage(s), b)
  {
    if s != [] {
      PagesInBlock(s, 0);
      RemoveApart(s, 0, s[0].addr, PAGE, b);
    }
  }

  lemma TakenHeld(st: State, st': State, page: nat)
    requires PageTaken(st, st', page)
    ensures page % PAGE == 0 && page > 0 && page + PAGE < LIMIT && Held(st', page) && !Held(st, page)
    ensures forall f :: Held(st, f) ==> Held(st', f) && f != page
  {
    hide Structured, Layout, Canonical, AllPlaced, AllFree, TakePage, Apart;
    FreeFacts(st);
    TakePageOk(Free(st), st.slabs);
    TakenClear(Free(st), st.slabs);
    forall f | Held(st, f)
      ensures Held(st', f) && f != page
    {
      FirstNotApart(Free(st), f);
      TakePageApart(Free(st), Frame(f));
    }
    if Held(st, page) { FirstNotApart(Free(st), page); }
  }

  lemma TakenClear(s: seq<Range>, slabs: seq<nat>)
    requires Canonical(s) && AllPlaced(s) && AllFree(s) && ClearOfSlabs(s, slabs) && s != []
    ensures Apart(TakePage(s), Frame(s[0].addr)) && s[0].addr + PAGE < LIMIT
  {
    hide Remove, Apart;
    TakePageOk(s, slabs);
    var all := slabs + [s[0].addr];
    assert all[|slabs|] == s[0].addr;
    PagesInBlock(s, 0);
    assert Placed(s[0]);
  }

  /** Node allocations that may have turned the lowest free page into a slab page. */
  lemma HeldAfterStep(st: State, st': State, f: nat)
    requires Valid(st) && SlabsGrew(st, st') && Free(st') == FreeAfter(st, st'.slabs) && Held(st, f)
    ensures Held(st', f)
  {
    hide Structured, Layout, Canonical, AllPlaced, AllFree, ClearOfSlabs, TakePage, Apart;
    FreeFacts(st);
    if st'.slabs != st.slabs {
      FirstNotApart(Free(st), f);
      TakePageApart(Free(st), Frame(f));
    }
  }

  lemma FramesApart(a: nat, f: nat)
    requires a % PAGE == 0 && f % PAGE == 0 && a != f
    ensures Frame(a).ApartFrom(Frame(f))
  {
  }

  /** Freeing frame `a` keeps every other held frame held. */
  lemma HeldAfterFree(st: State, st': State, a: nat, f: nat)
    requires Valid(st) && Addable(st, MemoryMap, Frame(a)) && BlockAdded(st, st', MemoryMap, Frame(a))
    requires Held(st, f) && a % PAGE == 0 && f % PAGE == 0 && a != f
    ensures Held(st', f)
  {
    hide Structured, Layout, Canonical, AllPlaced, AllFree, ClearOfSlabs, TakePage, NodesLeft, NoLoose, Insert, Apart;
    FreeFacts(st);
    FramesApart(a, f);
    var s := Free(st);
    TakePageApart(s, Frame(f));
    if st'.slabs != st.slabs {
      FirstNotApart(s, f);
      TakePageOk(s, st.slabs);
      TakePageApart(s, Frame(a));
    }
    InsertKeepsApart(FreeAfter(st, st'.slabs), Frame(a), Frame(f));
  }

  /** A held frame that nobody uses may be freed. */
  lemma HeldAddable(st: State, f: nat)
    requires Valid(st) && Held(st, f) && f % PAGE == 0 && f > 0 && f + PAGE < LIMIT
    ensures Addable(st, MemoryMap, Frame(f))
  {
    hide Structured, Layout;
    StructuredOf(st);
    SlabsAlignedOf(st);
    forall i | 0 <= i < |st.slabs|
      ensures Frame(f).ApartFrom(Range(st.slabs[i], PAGE, 0))
    {
      assert st.slabs[i] in st.slabs;
      FramesApart(f, st.slabs[i]);
    }
    HeadsOf(st);
  }

  lemma SlabsAlignedOf(st: State)
    requires Structured(st)
    ensures forall j :: 0 <= j < |st.slabs| ==> st.slabs[j] % PAGE == 0
  {
    hide PoolOk, ListsOk;
    SlabsAligned(st);
  }

  // ---------------------------------------------------------------- steps of the mapping code

  /** The paging structures are sound: a tree of tables none of which is free memory. */
  ghost predicate Sound(st: State, t: Tables, home: map<nat, Home>, root: nat) {
    Valid(st) && st.pending == 0 && Tree(t, home, root) && TablesHeld(st, t)
  }

  /** Pages were taken off the free memory, at most `n`, and nothing else happened. */
  ghost predicate PagesTaken(st: State, st': State, n: nat) {
    && OnlyList(st, st', MemoryMap, {}) && st'.slabs == st.slabs && st'.pending == st.pending
    && (forall f :: Held(st, f) ==> Held(st', f))
    && PageCount(Free(st')) + n >= PageCount(Free(st))
  }

  /** Tables may have been added, out of free pages, without any effect on a translation. */
  ghost predicate TableStep(st: State, t: Tables, home: map<nat, Home>, st': State, t': Tables, home': map<nat, Home>,
      root: nat, n: nat) {
    && Sound(st', t', home', root) && PagesTaken(st, st', n)
    && t.Keys <= t'.Keys && home.Keys <= home'.Keys
    && (forall f :: f in t && f in home ==> home'[f] == home[f])
    && (forall f :: f in t' && f !in t ==> !Held(st, f))
    && (forall x: nat :: Translate(t', root, x) == Translate(t, root, x))
    && (forall x: nat :: RightsAt(t', root, x) == RightsAt(t, root, x))
    && (forall x: nat, l: nat :: 1 <= l ==> Granted(t', root, 4, l, x) == Granted(t, root, 4, l, x))
    && (forall x: nat, l: nat :: 1 <= l && NoLarger(t, root, 4, l, x) ==> NoLarger(t', root, 4, l, x))
    && (forall f: nat, l: nat, x: nat :: 1 <= l && Reaches(t, root, 4, f, l, x) ==> Reaches(t', root, 4, f, l, x))
  }

  lemma TableStepRefl(st: State, t: Tables, home: map<nat, Home>, root: nat)
    requires Sound(st, t, home, root)
    ensures TableStep(st, t, home, st, t, home, root, 0)
  {
    hide Valid, Tree, NoLarger, Reaches, Translate, RightsAt, Granted, Held, Layout, PageCount;
    SelfOnly(st);
  }

  lemma SelfOnly(st: State)
    requires Valid(st)
    ensures OnlyList(st, st, MemoryMap, {})
  {
    hide LayoutsOk, AllFree, ClearOfSlabs, LastFree, ListsOk, Layout;
    StructuredOf(st);
    OwnedInMemOf(st);
  }

  lemma OwnedInMemOf(st: State)
    requires Structured(st)
    ensures forall q :: q in st.owner ==> q in st.mem
  {
    hide PoolOk, ListsOk;
    OwnedInMem(st);
  }

  lemma PagesTakenTrans(st: State, st1: State, st2: State, n: nat, m: nat)
    requires PagesTaken(st, st1, n) && PagesTaken(st1, st2, m)
    ensures PagesTaken(st, st2, n + m)
  {
    hide Held, OnlyList, Layout, PageCount;
    OnlyListTrans(st, st1, st2, MemoryMap, {});
  }

  lemma TableStepTrans(st: State, t: Tables, home: map<nat, Home>, st1: State, t1: Tables, home1: map<nat, Home>,
                       st2: State, t2: Tables, home2: map<nat, Home>, root: nat, n: nat, m: nat)
    requires home.Keys == t.Keys && home1.Keys == t1.Keys
    requires TableStep(st, t, home, st1, t1, home1, root, n) && TableStep(st1, t1, home1, st2, t2, home2, root, m)
    ensures TableStep(st, t, home, st2, t2, home2, root, n + m)
  {
    hide Sound, PagesTaken, NoLarger, Reaches, Translate, RightsAt, Granted, Held;
    PagesTakenTrans(st, st1, st2, n, m);
    HeldBack(st, st1, n);
  }

  lemma HeldBack(st: State, st1: State, n: nat)
    requires PagesTaken(st, st1, n)
    ensures forall f :: !Held(st1, f) ==> !Held(st, f)
  {
    hide Held;
  }

  /** Taking a page and linking it in as a table is a table step. */
  lemma AddTableStep(st: State, t: Tables, home: map<nat, Home>, st': State, root: nat, f: nat, i: nat, page: nat)
    requires Sound(st, t, home, root) && PageTaken(st, st', page)
    requires OnlyList(st, st', MemoryMap, {}) && st'.pending == st.pending
    requires f in t && f in home && i < ENTRIES && home[f].level > 1 && i < |t[f]| && !Present(t[f][i])
    ensures page !in t && CanAdd(t, home, root, f, i, page)
    ensures TableStep(st, t, home, st', AddTable(t, f, i, page), AddHome(home, f, i, page), root, 1)
  {
    hide Valid, Tree, Held, OnlyList, AddTable, AddHome, Present, Translate, RightsAt, Granted, NoLarger, Reaches,
         TakePage, PageCount;
    TakenHeld(st, st', page);
    var t', home' := AddTable(t, f, i, page), AddHome(home, f, i, page);
    TakenCount(st, st', page);
    TreeKeys(t, home, root);
    AddTableKeys(t, home, f, i, page);
    AddTableTree(t, home, root, f, i, page);
    forall x: nat
      ensures Translate(t', root, x) == Translate(t, root, x) && RightsAt(t', root, x) == RightsAt(t, root, x)
    {
      AddTableTranslate(t, home, root, f, i, page, x);
    }
    forall x: nat, l: nat | 1 <= l
      ensures Granted(t', root, 4, l, x) == Granted(t, root, 4, l, x)
    {
      RootOnPath(t, home, root, x);
      AddTableGranted(t, home, root, f, i, page, root, 4, l, x);
    }
    forall x: nat, l: nat | 1 <= l && NoLarger(t, root, 4, l, x)
      ensures NoLarger(t', root, 4, l, x)
    {
      RootOnPath(t, home, root, x);
      AddTableNoLarger(t, home, root, f, i, page, root, 4, l, x);
    }
    forall g: nat, l: nat, x: nat | 1 <= l && Reaches(t, root, 4, g, l, x)
      ensures Reaches(t', root, 4, g, l, x)
    {
      RootOnPath(t, home, root, x);
      AddTableReaches(t, home, root, f, i, page, root, 4, g, l, x);
    }
  }

  lemma TreeKeys(t: Tables, home: map<nat, Home>, root: nat)
    requires Tree(t, home, root)
    ensures home.Keys == t.Keys && root in t
  {
  }

  lemma TakenCount(st: State, st': State, page: nat)
    requires PageTaken(st, st', page)
    ensures PageCount(Free(st')) == PageCount(Free(st)) - 1
  {
    hide Structured, Layout, Canonical, AllPlaced, AllFree, ClearOfSlabs, TakePage, PageCount;
    FreeFacts(st);
    TakePageCount(Free(st));
  }

  lemma AddTableKeys(t: Tables, home: map<nat, Home>, f: nat, i: nat, page: nat)
    requires f in t && f in home && i < |t[f]| && home[f].level > 0 && page !in t && page !in home
    ensures var t', home' := AddTable(t, f, i, page), AddHome(home, f, i, page);
      && t'.Keys == t.Keys + {page} && home'.Keys == home.Keys + {page}
      && (forall g :: g in home ==> home'[g] == home[g])
  {
  }

  // ---------------------------------------------------------------- mapping one page

  /** Address `x` lies in the page of the level around `va`. */
  ghost predicate SamePage(x: nat, va: nat, l: nat) {
    Prefix(x, l) == Prefix(va, l)
  }

  /** One page of level `l` around `va` was mapped to `base`; every other address translates
      as before. */
  ghost predicate OnePageMapped(t: Tables, t': Tables, root: nat, va: nat, l: nat, base: nat) {
    forall x: nat :: Translate(t', root, x) ==
      if SamePage(x, va, l) then Some(base + x % Span(l)) else Translate(t, root, x)
  }

  /** The page of level `l` around `va` allows what `a` and the pointers above it allow; every
      other address allows what it did. */
  ghost predicate OnePageRights(t: Tables, t': Tables, root: nat, va: nat, l: nat, a: Attr) {
    && (forall x: nat :: RightsAt(t', root, x) ==
          if SamePage(x, va, l) then Some(Both(Granted(t, root, 4, l, x), a)) else RightsAt(t, root, x))
    && (forall x: nat, k: nat :: 1 <= k && (l <= k || !SamePage(x, va, l)) ==>
          Granted(t', root, 4, k, x) == Granted(t, root, 4, k, x))
  }

  /** What mapping one page of level `l` with attributes `a` does. */
  ghost predicate PageMapped(st: State, t: Tables, home: map<nat, Home>, st': State, t': Tables, home': map<nat, Home>,
                             root: nat, va: nat, l: nat, base: nat, a: Attr) {
    && 1 <= l <= 3
    && Sound(st', t', home', root) && PagesTaken(st, st', 4 - l)
    && OnePageMapped(t, t', root, va, l, base) && OnePageRights(t, t', root, va, l, a)
    && (forall x: nat, k: nat :: 1 <= k && (l <= k || !SamePage(x, va, l)) && NoLarger(t, root, 4, k, x) ==>
        NoLarger(t', root, 4, k, x))
    && (forall g :: g in t' && g !in t ==> !Held(st, g))
  }

  /** Writing the leaf after the tables are in place completes the mapping. */
  lemma MapDone(st: State, t: Tables, home: map<nat, Home>, st1: State, t1: Tables, home1: map<nat, Home>,
                root: nat, f: nat, va: nat, l: nat, base: nat, e: nat)
    requires home.Keys == t.Keys && 1 <= l <= 3
    requires TableStep(st, t, home, st1, t1, home1, root, 4 - l)
    requires OnPath(home1, f, l, va) && Reaches(t1, root, 4, f, l, va) && f in t1
    requires Present(e) && (Huge(e) <==> l > 1) && BaseOf(e, l) == base
    ensures Index(va, l) < |t1[f]|
    ensures PageMapped(st, t, home, st1, SetEntry(t1, f, Index(va, l), e), home1, root, va, l, base, AttrOf(e))
  {
    hide Valid, Tree, Held, Translate, RightsAt, Granted, NoLarger, Reaches, PagesTaken, TablesHeld, SetEntry, Present,
         Huge, BaseOf, Span, Prefix, AttrOf;
    var i := Index(va, l);
    RootHome(t1, home1, root, f);
    assert Terminal(e, l);
    SetEntryTree(t1, home1, root, f, i, e);
    var t2 := SetEntry(t1, f, i, e);
    SetEntryKeys(t1, f, i, e);
    TablesHeldSame(st1, t1, t2);
    forall x: nat
      ensures Translate(t2, root, x) == if SamePage(x, va, l) then Some(base + x % Span(l)) else Translate(t, root, x)
    {
      SetEntryTranslate(t1, home1, root, f, e, va, x);
    }
    forall x: nat
      ensures RightsAt(t2, root, x) ==
        if SamePage(x, va, l) then Some(Both(Granted(t, root, 4, l, x), AttrOf(e))) else RightsAt(t, root, x)
    {
      SetEntryTranslate(t1, home1, root, f, e, va, x);
    }
    forall x: nat, k: nat | 1 <= k && (l <= k || !SamePage(x, va, l))
      ensures Granted(t2, root, 4, k, x) == Granted(t, root, 4, k, x)
    {
      RootOnPath(t1, home1, root, x);
      if l <= k {
        SetEntryGranted(t1, home1, root, f, i, e, root, 4, k, x);
      } else {
        SetEntryGrantedElsewhere(t1, home1, root, f, e, va, root, 4, k, x);
      }
    }
    forall x: nat, k: nat | 1 <= k && (l <= k || !SamePage(x, va, l)) && NoLarger(t, root, 4, k, x)
      ensures NoLarger(t2, root, 4, k, x)
    {
      RootOnPath(t1, home1, root, x);
      if l <= k {
        SetEntryNoLarger(t1, home1, root, f, i, e, root, 4, k, x);
      } else {
        SetEntryNoLargerElsewhere(t1, home1, root, f, e, va, root, 4, k, x);
      }
    }
  }

  lemma SetEntryKeys(t: Tables, f: nat, i: nat, e: nat)
    requires f in t && i < |t[f]|
    ensures SetEntry(t, f, i, e).Keys == t.Keys
  {
  }

  lemma TablesHeldSame(st: State, t: Tables, t': Tables)
    requires TablesHeld(st, t) && t'.Keys == t.Keys
    ensures TablesHeld(st, t')
  {
  }

  /** A page, or none because free memory is exhausted. */
  lemma PageOrNone(st: State, st': State, page: nat, status: nat)
    requires Valid(st) && AllocResult(st, st', 0, 1, 0, page, status)
    ensures page == 0 <==> PageCount(Free(st)) == 0
    ensures page == 0 ==> st' == st
    ensures page != 0 && Valid(st') ==> PageTaken(st, st', page)
    ensures page != 0 ==> OnlyList(st, st', MemoryMap, {}) && st'.pending == st.pending
  {
    hide Structured, Layout, Canonical, AllPlaced, AllFree, ClearOfSlabs, AllocResult, OnlyList, PageCount;
    FreeFacts(st);
    TakePageCount(Free(st));
    OnePageOrNone(st, st', page, status);
  }

  /** Free pages beyond those for the tables that are missing below a table. */
  ghost function Room(st: State, t: Tables, frame: nat, level: nat, l: nat, va: nat): int {
    PageCount(Free(st)) - Missing(t, frame, level, l, va)
  }

  /** Adding a missing table uses up one page and one missing table. */
  lemma AddedRoom(st: State, t: Tables, home: map<nat, Home>, st': State, root: nat, f: nat, i: nat, page: nat,
                  level: nat, l: nat, va: nat)
    requires PageTaken(st, st', page) && f in t && |t[f]| == ENTRIES && i == Index(va, level)
    requires !Present(t[f][i]) && 1 <= l < level <= 4 && CanAdd(t, home, root, f, i, page)
    ensures Room(st', AddTable(t, f, i, page), page, level - 1, l, va) == Room(st, t, f, level, l, va)
    ensures AddrOf(TableWord(page)) == page
  {
    hide Layout, PageCount, Valid, TakePage, TableWord, EmptyTable, Present, Tree;
    TakenCount(st, st', page);
    MissingEmpty(AddTable(t, f, i, page), page, level - 1, l, va);
    TableWordFields(page);
  }

  lemma NextRoom(st: State, t: Tables, f: nat, level: nat, l: nat, va: nat)
    requires f in t && |t[f]| == ENTRIES && Present(t[f][Index(va, level)]) && l < level
    ensures Room(st, t, AddrOf(t[f][Index(va, level)]), level - 1, l, va) == Room(st, t, f, level, l, va)
  {
    hide Layout, PageCount;
  }

  lemma NoRoom(st: State, t: Tables, f: nat, level: nat, l: nat, va: nat)
    requires f in t && |t[f]| == ENTRIES && !Present(t[f][Index(va, level)]) && l < level
    requires PageCount(Free(st)) == 0
    ensures Room(st, t, f, level, l, va) < 0
  {
    hide Layout, PageCount;
  }

  lemma RoomAtRoot(st: State, t: Tables, root: nat, l: nat, va: nat)
    ensures Room(st, t, root, 4, l, va) == PageCount(Free(st)) - Missing(t, root, 4, l, va)
  {
  }

  lemma RoomAtLeaf(st: State, t: Tables, f: nat, l: nat, va: nat)
    ensures Room(st, t, f, l, l, va) == PageCount(Free(st))
  {
    hide PageCount, Layout;
  }

  lemma MissingBound(t: Tables, root: nat, l: nat, va: nat)
    requires 1 <= l <= 3
    ensures Missing(t, root, 4, l, va) <= 4 - l
  {
  }

  lemma TableStepMore(st: State, t: Tables, home: map<nat, Home>, st': State, t': Tables, home': map<nat, Home>,
                      root: nat, n: nat, m: nat)
    requires TableStep(st, t, home, st', t', home', root, n) && n <= m
    ensures TableStep(st, t, home, st', t', home', root, m) && Sound(st', t', home', root)
  {
    hide Sound, NoLarger, Reaches, Translate, RightsAt, Granted, Held, OnlyList, PageCount, Layout;
  }

  lemma TableStepNone(st: State, t: Tables, home: map<nat, Home>, root: nat)
    requires Sound(st, t, home, root)
    ensures TableStep(st, t, home, st, t, home, root, 1)
  {
    hide Sound, NoLarger, Reaches, Translate, RightsAt, Granted, Held, OnlyList, PageCount;
    TableStepRefl(st, t, home, root);
  }

  /** The entry through which a new table was added. */
  lemma AddedEntry(st: State, t: Tables, home: map<nat, Home>, st': State, root: nat, f: nat, i: nat, page: nat,
      level: nat, va: nat)
    requires page !in t && CanAdd(t, home, root, f, i, page) && i == Index(va, level) && OnPath(home, f, level, va) &&
      2 <= level <= 4
    requires TableStep(st, t, home, st', AddTable(t, f, i, page), AddHome(home, f, i, page), root, 1)
    requires Reaches(t, root, 4, f, level, va)
    ensures var t', home' := AddTable(t, f, i, page), AddHome(home, f, i, page);
      && f in t' && |t'[f]| == ENTRIES && t'[f][i] == TableWord(page) && Present(t'[f][i]) && !Huge(t'[f][i])
      && OnPath(home', f, level, va) && Reaches(t', root, 4, f, level, va)
  {
    hide Tree, Sound, PagesTaken, NoLarger, Reaches, Translate, RightsAt, Granted, TableWord, Present, Huge, EmptyTable,
         Held;
    TableWordFields(page);
    RootHome(t, home, root, f);
  }

  /** A present pointer leads to a table on the path. */
  lemma ChildOf(st: State, t: Tables, home: map<nat, Home>, root: nat, f: nat, level: nat, va: nat)
    requires Tree(t, home, root) && 2 <= level <= 4 && f in t && |t[f]| == ENTRIES && OnPath(home, f, level, va)
    requires Present(t[f][Index(va, level)]) && (level < 4 ==> !Huge(t[f][Index(va, level)]))
    requires Reaches(t, root, 4, f, level, va)
    ensures var a := AddrOf(t[f][Index(va, level)]);
      && OnPath(home, a, level - 1, va) && a in t && |t[a]| == ENTRIES && Reaches(t, root, 4, a, level - 1, va)
  {
    hide Reaches, Present, Huge, AddrOf, Index, Prefix;
    NextOnPath(t, home, root, f, level, va);
    ReachesNext(t, root, 4, f, level, va);
  }

  lemma AddTableIs(t: Tables, f: nat, i: nat, page: nat)
    requires f in t && i < |t[f]|
    ensures AddTable(t, f, i, page) == t[f := Row(t[f], i, TableWord(page))][page := EmptyTable()]
  {
  }

  lemma SoundAfter(st: State, t: Tables, home: map<nat, Home>, st': State, t': Tables, home': map<nat, Home>,
      root: nat, n: nat)
    requires TableStep(st, t, home, st', t', home', root, n)
    ensures Sound(st', t', home', root) && home'.Keys == t'.Keys && PagesTaken(st, st', n)
  {
    hide Valid, TablesHeld, PagesTaken;
  }

  lemma TreeOf(st: State, t: Tables, home: map<nat, Home>, root: nat)
    requires Sound(st, t, home, root)
    ensures Tree(t, home, root) && st.pending == 0 && Valid(st)
  {
  }

  /** The mapping code starts at the root table. */
  lemma StartAtRoot(st: State, t: Tables, home: map<nat, Home>, root: nat, va: nat)
    requires Sound(st, t, home, root)
    ensures OnPath(home, root, 4, va) && Reaches(t, root, 4, root, 4, va)
    ensures TableStep(st, t, home, st, t, home, root, 0) && home.Keys == t.Keys
  {
    hide Valid, TablesHeld, TableStep;
    RootOnPath(t, home, root, va);
    TableStepRefl(st, t, home, root);
  }

  /** A table on a path without large pages may be descended from. */
  lemma NextReady(st: State, t: Tables, home: map<nat, Home>, root: nat, f: nat, level: nat, l: nat, va: nat)
    requires Sound(st, t, home, root) && OnPath(home, f, level, va) && Reaches(t, root, 4, f, level, va)
    requires NoLarger(t, root, 4, l, va) && 1 <= l < level <= 4
    ensures f in t && |t[f]| == ENTRIES
    ensures Present(t[f][Index(va, level)]) ==> (level < 4 ==> !Huge(t[f][Index(va, level)]))
  {
    hide Valid, TablesHeld, Reaches, NoLarger, Present, Huge, Prefix, AddrOf;
    TreeKeys(t, home, root);
    RootHome(t, home, root, f);
    if Present(t[f][Index(va, level)]) { NoLargerAt(t, root, 4, f, level, l, va); }
  }

  lemma StepNoLarger(st: State, t: Tables, home: map<nat, Home>, st': State, t': Tables, home': map<nat, Home>,
      root: nat, n: nat, l: nat, va: nat)
    requires TableStep(st, t, home, st', t', home', root, n) && NoLarger(t, root, 4, l, va) && l >= 1
    ensures NoLarger(t', root, 4, l, va)
  {
    hide Sound, PagesTaken, NoLarger, Reaches, Translate, RightsAt, Granted, Held;
  }

  lemma SetEntryTwice(t: Tables, f: nat, i: nat, e: nat, e': nat)
    requires f in t && i < |t[f]|
    ensures var t1 := SetEntry(t, f, i, e);
      && f in t1 && i < |t1[f]| && t1[f][i] == e
      && SetEntry(t1, f, i, e') == SetEntry(t, f, i, e')
  {
    var t1 := SetEntry(t, f, i, e);
    assert t1[f][i := e'] == t[f][i := e'];
  }

  lemma MappedSound(st: State, t: Tables, home: map<nat, Home>, st': State, t': Tables, home': map<nat, Home>,
      root: nat, va: nat, l: nat, base: nat, a: Attr)
    requires PageMapped(st, t, home, st', t', home', root, va, l, base, a)
    ensures Sound(st', t', home', root) && PagesTaken(st, st', 4 - l) && home'.Keys == t'.Keys
  {
    hide Valid, TablesHeld, PagesTaken, NoLarger, OnePageMapped, OnePageRights;
  }

  // ---------------------------------------------------------------- mapping a run of pages

  /** An address in page `j` of the run of pages of level `l` at `va`. */
  function PageAt(va: nat, l: nat, j: nat): nat { va + j * Span(l) }

  /** `n` pages of level `l` from `va` on were mapped to `base` and up; every address
      elsewhere translates as before. */
  ghost predicate RunMapped(t: Tables, t': Tables, root: nat, va: nat, l: nat, base: nat, n: nat) {
    && (forall j: nat, x: nat :: j < n && SamePage(x, PageAt(va, l, j), l) ==>
          Translate(t', root, x) == Some(PageAt(base, l, j) + x % Span(l)))
    && (forall x: nat :: (forall j: nat :: j < n ==> !SamePage(x, PageAt(va, l, j), l)) ==>
          Translate(t', root, x) == Translate(t, root, x))
  }

  lemma RunMappedNone(t: Tables, root: nat, va: nat, l: nat, base: nat)
    ensures RunMapped(t, t, root, va, l, base, 0)
  {
  }

  lemma RunMappedNext(t: Tables, t1: Tables, t2: Tables, root: nat, va: nat, l: nat, base: nat, i: nat)
    requires 1 <= l <= 3 && i * Span(l) < SPACE
    requires RunMapped(t, t1, root, va, l, base, i)
    requires OnePageMapped(t1, t2, root, PageAt(va, l, i), l, PageAt(base, l, i))
    ensures RunMapped(t, t2, root, va, l, base, i + 1)
  {
    hide Translate, RightsAt, Granted, PageAt, SamePage, Span;
    forall j: nat, x: nat | j < i && SamePage(x, PageAt(va, l, j), l)
      ensures !SamePage(x, PageAt(va, l, i), l)
    {
      EarlierPage(x, va, l, j, i);
    }
  }

  lemma EarlierPage(x: nat, va: nat, l: nat, j: nat, i: nat)
    requires 1 <= l <= 3 && i * Span(l) < SPACE && j < i && SamePage(x, PageAt(va, l, j), l)
    ensures !SamePage(x, PageAt(va, l, i), l)
  {
    hide Span, Prefix;
    MulGap(i - j, i, Span(l));
    PagesDistinct(va, i, j, l);
  }

  /** On an aligned run inside the address space: address `va + y` translates to `base + y`,
      and the addresses outside the run translate as before. */
  lemma RunMappedMeaning(t: Tables, t': Tables, root: nat, va: nat, l: nat, base: nat, n: nat, x: nat)
    requires 1 <= l <= 3 && RunMapped(t, t', root, va, l, base, n)
    requires va % Span(l) == 0 && va + n * Span(l) <= SPACE && x < SPACE
    ensures Translate(t', root, x) ==
      if va <= x < va + n * Span(l) then Some(base + (x - va)) else Translate(t, root, x)
  {
    hide Translate, RightsAt, Granted, Span, Prefix;
    if va <= x < va + n * Span(l) {
      var j := (x - va) / Span(l);
      InPage(x, va, j, n, Span(l));
      PageOfRun(x, va, l, j);
    } else {
      forall j: nat | j < n
        ensures !SamePage(x, PageAt(va, l, j), l)
      {
        NotInPage(x, va, l, j, n);
      }
    }
  }

  lemma NotInPage(x: nat, va: nat, l: nat, j: nat, n: nat)
    requires 1 <= l <= 3 && va % Span(l) == 0 && va + n * Span(l) <= SPACE && x < SPACE && j < n
    requires !(va <= x < va + n * Span(l))
    ensures !SamePage(x, PageAt(va, l, j), l)
  {
    hide Span;
    ChunkOutside(x, va, j, n, Span(l));
    SmallMod(x);
    SmallMod(PageAt(va, l, j));
  }

  lemma SmallMod(x: nat)
    requires x < SPACE
    ensures x % SPACE == x
  {
  }

  lemma ChunkOutside(x: nat, va: nat, j: nat, n: nat, unit: nat)
    requires unit > 0 && va % unit == 0 && j < n && !(va <= x < va + n * unit)
    ensures x / unit != (va + j * unit) / unit && va + j * unit < va + n * unit
  {
    MulGap(j, n, unit);
    if x / unit == (va + j * unit) / unit { SameChunk(x, va, j, unit); }
  }

  lemma InPage(x: nat, va: nat, j: nat, n: nat, unit: nat)
    requires unit > 0 && va % unit == 0 && va <= x < va + n * unit && j == (x - va) / unit
    ensures j < n && va + j * unit <= x < va + j * unit + unit && x % unit == x - (va + j * unit)
  {
    MulGap(n, j, unit);
    DivModUnique(x - va, j, (x - va) % unit, unit);
    AlignedSum(va, j, unit);
    var q := (va + j * unit) / unit;
    assert va + j * unit == q * unit;
    DivModUnique(x, q, x - (va + j * unit), unit);
  }

  lemma AlignedSum(va: nat, j: nat, unit: nat)
    requires unit > 0 && va % unit == 0
    ensures (va + j * unit) % unit == 0 && (va + j * unit) / unit == va / unit + j
  {
    Regroup(va / unit, 1, j, unit);
    DivModUnique(va + j * unit, va / unit + j, 0, unit);
  }

  lemma PageOfRun(x: nat, va: nat, l: nat, j: nat)
    requires 1 <= l <= 3 && va % Span(l) == 0 && x < SPACE && va + j * Span(l) <= x < va + j * Span(l) + Span(l)
    ensures Prefix(x, l) == Prefix(PageAt(va, l, j), l)
  {
    hide Span;
    AlignedSum(va, j, Span(l));
    DivModUnique(x, va / Span(l) + j, x - (va + j * Span(l)), Span(l));
    SmallMod(x);
    SmallMod(PageAt(va, l, j));
  }

  lemma SameChunk(x: nat, va: nat, j: nat, unit: nat)
    requires unit > 0 && va % unit == 0 && x / unit == (va + j * unit) / unit
    ensures va + j * unit <= x < va + j * unit + unit
  {
    AlignedSum(va, j, unit);
    Regroup(va / unit, 1, j, unit);
  }

  /** The pages of the run allow what `a` and the pointers above them allow, every other address
      what it did. */
  ghost predicate RunRights(t: Tables, t': Tables, root: nat, va: nat, l: nat, n: nat, a: Attr) {
    && (forall j: nat, x: nat :: j < n && SamePage(x, PageAt(va, l, j), l) ==>
          RightsAt(t', root, x) == Some(Both(Granted(t, root, 4, l, x), a)))
    && (forall x: nat :: (forall j: nat :: j < n ==> !SamePage(x, PageAt(va, l, j), l)) ==>
          RightsAt(t', root, x) == RightsAt(t, root, x))
    && (forall x: nat :: Granted(t', root, 4, l, x) == Granted(t, root, 4, l, x))
  }

  lemma RunRightsNext(t: Tables, t1: Tables, t2: Tables, root: nat, va: nat, l: nat, i: nat, a: Attr)
    requires 1 <= l <= 3 && i * Span(l) < SPACE && RunRights(t, t1, root, va, l, i, a)
    requires OnePageRights(t1, t2, root, PageAt(va, l, i), l, a)
    ensures RunRights(t, t2, root, va, l, i + 1, a)
  {
    hide RightsAt, Granted, PageAt, SamePage, Span;
    forall j: nat, x: nat | j < i && SamePage(x, PageAt(va, l, j), l)
      ensures !SamePage(x, PageAt(va, l, i), l)
    {
      EarlierPage(x, va, l, j, i);
    }
  }

  lemma RunRightsNone(t: Tables, root: nat, va: nat, l: nat, a: Attr)
    ensures RunRights(t, t, root, va, l, 0, a)
  {
  }

  lemma RunShort(l: nat, i: nat, n: nat)
    requires i < n && n * Span(l) <= SPACE
    ensures i * Span(l) < SPACE
  {
    hide Span;
    MulGap(i, n, Span(l));
  }

  lemma SelfPage(x: nat, l: nat)
    ensures SamePage(x, x, l)
  {
  }

  lemma PagesTakenMore(st: State, st1: State, st2: State, i: nat, k: nat)
    requires PagesTaken(st, st1, i * k) && PagesTaken(st1, st2, k)
    ensures PagesTaken(st, st2, (i + 1) * k)
  {
    hide PagesTaken;
    PagesTakenTrans(st, st1, st2, i * k, k);
    Regroup(i, 1, 1, k);
  }

  /** No page of the run lies under a larger page. */
  ghost predicate NoLargerRun(t: Tables, root: nat, va: nat, l: nat, n: nat) {
    forall j: nat, x: nat :: j < n && x == PageAt(va, l, j) ==> NoLarger(t, root, 4, l, x)
  }

  /** What virtual_mapping needs to map `n` pages of level `l`: addresses of pages in range,
      and no larger page in the way. */
  ghost predicate MappingAllowed(t: Tables, root: nat, pa: nat, va: nat, n: nat, l: nat) {
    && 1 <= l <= 3 && pa + n * Span(l) + PAGE <= BIT63 && n * Span(l) <= SPACE
    && NoLargerRun(t, root, va, l, n)
  }

  /** The physical address rounded down to a page of the level. */
  function LeafBase(pa: nat, l: nat): nat { pa / Span(l) * Span(l) }

  /** The page of the level that holds the address. */
  lemma LeafBaseIs(pa: nat, l: nat)
    ensures LeafBase(pa, l) % Span(l) == 0 && LeafBase(pa, l) <= pa < LeafBase(pa, l) + Span(l)
  {
    hide Span;
    DivModUnique(LeafBase(pa, l), pa / Span(l), 0, Span(l));
  }

  /** What virtual_mapping does: the first `done` pages of the run are mapped, all of them
      unless the tables run out, which `n * (4 - l)` free pages rule out. One page is starved
      of tables exactly if there are fewer free pages than tables missing on its path. */
  ghost predicate MappingDone(st: State, t: Tables, home: map<nat, Home>, st': State, t': Tables, home': map<nat, Home>,
                              root: nat, pa: nat, va: nat, n: nat, l: nat, a: Attr, starved: bool, done: nat) {
    && 1 <= l <= 3 && done <= n && (starved <==> done < n)
    && PagesTaken(st, st', n * (4 - l))
    && RunMapped(t, t', root, va, l, LeafBase(pa, l), done) && RunRights(t, t', root, va, l, done, a)
    && (PageCount(Free(st)) >= n * (4 - l) ==> !starved)
    && (n == 1 ==> OneMapping(st, t, home, st', t', home', root, va, l, LeafBase(pa, l), a, starved))
  }

  ghost predicate OneMapping(st: State, t: Tables, home: map<nat, Home>, st': State, t': Tables, home': map<nat, Home>,
                             root: nat, va: nat, l: nat, base: nat, a: Attr, starved: bool) {
    && 1 <= l <= 3
    && (starved <==> PageCount(Free(st)) < Missing(t, root, 4, l, va))
    && (if starved then PageCount(Free(st')) == 0
        else PageCount(Free(st')) + Missing(t, root, 4, l, va) == PageCount(Free(st)))
    && if starved then TableStep(st, t, home, st', t', home', root, 4 - l)
       else PageMapped(st, t, home, st', t', home', root, va, l, base, a)
  }

  /** The tables ran out below page `i` of the run. */
  lemma StarvedMapping(st: State, t: Tables, st1: State, t1: Tables, home1: map<nat, Home>, st2: State, t2: Tables,
                       home2: map<nat, Home>, root: nat, va: nat, l: nat, base: nat, i: nat, took: nat, k: nat,
                       total: nat, a: Attr)
    requires PagesTaken(st, st1, took) && took + k <= total && RunMapped(t, t1, root, va, l, base, i)
    requires 1 <= l && RunRights(t, t1, root, va, l, i, a) && TableStep(st1, t1, home1, st2, t2, home2, root, k)
    ensures PagesTaken(st, st2, total) && RunMapped(t, t2, root, va, l, base, i)
    ensures RunRights(t, t2, root, va, l, i, a)
  {
    hide Sound, PagesTaken, NoLarger, Reaches, Translate, RightsAt, Granted, Held, Span, PageAt, SamePage;
    PagesTakenTrans(st, st1, st2, took, k);
    PagesTakenAtMost(st, st2, took + k, total);
  }

  lemma PagesTakenAtMost(st: State, st': State, n: nat, m: nat)
    requires PagesTaken(st, st', n) && n <= m
    ensures PagesTaken(st, st', m)
  {
    hide Held, OnlyList, Layout, PageCount;
  }

  lemma NextPageAt(va: nat, l: nat, i: nat)
    requires i > 0
    ensures PageAt(va, l, i) == PageAt(va, l, i - 1) + Span(l)
  {
    Regroup(i - 1, 1, 1, Span(l));
  }

  lemma MappingStart(st: State, t: Tables, home: map<nat, Home>, root: nat, va: nat, l: nat, base: nat, pa: nat, n: nat)
    requires Sound(st, t, home, root) && base == LeafBase(pa, l)
    ensures PagesTaken(st, st, 0) && PageAt(base, l, 0) == base && PageAt(va, l, 0) == va
    ensures base <= pa
  {
    hide Valid, Tree, TablesHeld, Span, Held, Layout, PageCount;
    SelfOnly(st);
    MulDown(pa, Span(l));
  }

  lemma MulDown(pa: nat, unit: nat)
    requires unit > 0
    ensures pa / unit * unit <= pa && pa / unit * unit % unit == 0
  {
    DivModUnique(pa / unit * unit, pa / unit, 0, unit);
  }

  /** The next page of the run is aligned, in range, and there are pages for its tables. */
  lemma MappingReady(st: State, st1: State, base: nat, pa: nat, l: nat, i: nat, n: nat)
    requires 1 <= l <= 3 && base == LeafBase(pa, l) && i < n && pa + n * Span(l) + PAGE <= BIT63
    requires PagesTaken(st, st1, i * (4 - l))
    ensures PageAt(base, l, i) % Span(l) == 0 && PageAt(base, l, i) + PAGE <= BIT63
    ensures PageCount(Free(st)) >= n * (4 - l) ==> PageCount(Free(st1)) >= 4 - l
  {
    hide Span, OnlyList, Held, PageCount, Layout;
    MulDown(pa, Span(l));
    AlignedSum(base, i, Span(l));
    MulGap(i, n, Span(l));
    MulGap(i, n, 4 - l);
  }

  lemma MappingNext(st: State, t: Tables, home: map<nat, Home>, st1: State, t1: Tables, home1: map<nat, Home>,
                    st2: State, t2: Tables, home2: map<nat, Home>, root: nat, va: nat, l: nat, base: nat,
                    i: nat, n: nat, a: Attr)
    requires 1 <= l <= 3 && i < n && n * Span(l) <= SPACE
    requires PagesTaken(st, st1, i * (4 - l)) && RunMapped(t, t1, root, va, l, base, i)
    requires RunRights(t, t1, root, va, l, i, a)
    requires NoLargerRun(t1, root, va, l, n)
    requires PageMapped(st1, t1, home1, st2, t2, home2, root, PageAt(va, l, i), l, PageAt(base, l, i), a)
    ensures Sound(st2, t2, home2, root) && PagesTaken(st, st2, (i + 1) * (4 - l))
    ensures RunMapped(t, t2, root, va, l, base, i + 1) && RunRights(t, t2, root, va, l, i + 1, a)
    ensures NoLargerRun(t2, root, va, l, n)
  {
    hide Span, PagesTaken, RunMapped, NoLarger, Sound, OnePageMapped, OnePageRights, RunRights, PageAt, SamePage;
    PagesTakenMore(st, st1, st2, i, 4 - l);
    MulGap(i, n, Span(l));
    RunMappedNext(t, t1, t2, root, va, l, base, i);
    RunRightsNext(t, t1, t2, root, va, l, i, a);
  }

  lemma StartTable(st: State, t: Tables, home: map<nat, Home>, root: nat, va: nat)
    requires Sound(st, t, home, root)
    ensures root in t && |t[root]| == ENTRIES && OnPath(home, root, 4, va)
  {
    hide Valid, TablesHeld;
    RootOnPath(t, home, root, va);
  }

  lemma BelowTable(st: State, t: Tables, home: map<nat, Home>, root: nat, f: nat, level: nat, va: nat)
    requires Sound(st, t, home, root) && 2 <= level <= 4 && f in t && |t[f]| == ENTRIES && OnPath(home, f, level, va)
    requires Present(t[f][Index(va, level)]) && (level < 4 ==> !Huge(t[f][Index(va, level)]))
    ensures var a := AddrOf(t[f][Index(va, level)]); a in t && |t[a]| == ENTRIES && OnPath(home, a, level - 1, va)
  {
    hide Valid, TablesHeld, Present, Huge, AddrOf, Prefix;
    NextOnPath(t, home, root, f, level, va);
    TreeKeys(t, home, root);
    RootHome(t, home, root, AddrOf(t[f][Index(va, level)]));
  }

  // ---------------------------------------------------------------- giving a frame back

  lemma SomeOverlap(s: seq<Range>, b: Range) returns (x: nat, k: nat)
    requires Canonical(s) && b.size > 0 && !Apart(s, b)
    ensures b.Has(x) && Covers(s, x, k)
  {
    hide Canonical, Apart, Covers;
    ApartIffUncovered(s, b);
    x, k :| b.Has(x) && Covers(s, x, k);
  }

  /** A frame that overlaps the free memory still does when another page becomes a slab page. */
  lemma OverlapKept(s: seq<Range>, f: nat)
    requires Canonical(s) && AllPlaced(s) && f % PAGE == 0 && !Apart(s, Frame(f)) && s != [] && f != s[0].addr
    ensures !Apart(TakePage(s), Frame(f))
  {
    PagesInBlock(s, 0);
    hide Canonical, AllPlaced, Apart, Covers, Remove;
    var x, k := SomeOverlap(s, Frame(f));
    FramesApart(s[0].addr, f);
    RemoveCovers(s, 0, s[0].addr, PAGE, x, k);
    OverlapIsCover(TakePage(s), f, x, k);
  }

  lemma OverlapIsCover(s: seq<Range>, f: nat, x: nat, k: nat)
    requires Covers(s, x, k) && Frame(f).Has(x)
    ensures !Apart(s, Frame(f))
  {
    var i :| 0 <= i < |s| && s[i].Has(x) && s[i].kind == k;
    assert !s[i].ApartFrom(Frame(f));
  }

  /** Inserting keeps an overlap, and the inserted range overlaps itself. */
  lemma InsertOverlap(s: seq<Range>, b: Range, f: nat)
    requires Canonical(s) && Apart(s, b) && b.size > 0
    requires !Apart(s, Frame(f)) || b == Frame(f)
    ensures !Apart(Insert(s, b), Frame(f))
  {
    hide Canonical, Apart, Covers, Insert;
    var x: nat, k: nat := f, 0;
    if b != Frame(f) { x, k := SomeOverlap(s, Frame(f)); }
    InsertCovers(s, b, x, k);
    OverlapIsCover(Insert(s, b), f, x, k);
  }

  /** Frame `a` was given back: of all page frames, it alone is no longer held. */
  lemma FrameGivenBack(st: State, st': State, a: nat, f: nat)
    requires Valid(st) && Addable(st, MemoryMap, Frame(a)) && BlockAdded(st, st', MemoryMap, Frame(a))
    requires a % PAGE == 0 && f % PAGE == 0
    ensures Held(st', f) <==> Held(st, f) && f != a
  {
    hide Structured, Layout, Canonical, AllPlaced, AllFree, ClearOfSlabs, TakePage, NodesLeft, NoLoose, Insert, Apart;
    FreeFacts(st);
    if Held(st, f) && f != a {
      HeldAfterFree(st, st', a, f);
    } else {
      var s := Free(st);
      var r := FreeAfter(st, st'.slabs);
      AfterGrowth(st, st'.slabs, Frame(a));
      if f != a && f !in st'.slabs && r != s { OverlapKept(s, f); }
      if f !in st'.slabs { InsertOverlap(r, Frame(a), f); }
    }
  }

  /** The free memory after at most one page became a slab page. */
  lemma AfterGrowth(st: State, slabs: seq<nat>, b: Range)
    requires Valid(st) && Apart(Free(st), b) &&
      (slabs == st.slabs || (Free(st) != [] && slabs == st.slabs + [Free(st)[0].addr]))
    ensures Canonical(FreeAfter(st, slabs)) && Apart(FreeAfter(st, slabs), b)
    ensures slabs != st.slabs ==> Free(st)[0].addr in slabs && FreeAfter(st, slabs) == TakePage(Free(st))
    ensures forall f :: f in st.slabs ==> f in slabs
  {
    hide Structured, Layout, Canonical, AllPlaced, AllFree, ClearOfSlabs, Apart, TakePage;
    FreeFacts(st);
    if slabs != st.slabs {
      TakePageOk(Free(st), st.slabs);
      TakePageApart(Free(st), b);
      assert slabs[|st.slabs|] == Free(st)[0].addr;
    }
  }

  /** Node allocations keep exactly the held frames held: the page that became a slab page
      was free. */
  lemma HeldUnchanged(st: State, st': State, f: nat)
    requires Valid(st) && SlabsGrew(st, st') && Free(st') == FreeAfter(st, st'.slabs) && f % PAGE == 0
    ensures Held(st', f) <==> Held(st, f)
  {
    hide Structured, Layout, Canonical, AllPlaced, AllFree, ClearOfSlabs, TakePage, Apart;
    if Held(st, f) {
      HeldAfterStep(st, st', f);
    } else {
      FreeFacts(st);
      if st'.slabs != st.slabs {
        assert st'.slabs[|st.slabs|] == Free(st)[0].addr;
        if f !in st'.slabs { OverlapKept(Free(st), f); }
      }
    }
  }
}
