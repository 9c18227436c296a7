/** The invariant of a running address space: user pages lie in committed blocks, every user
    and kernel-heap page has a frame of its own, and the frames of free memory, slab pages,
    page tables and mapped pages are different frames. */
module AddressSpace {
  import opened Layouts
  import opened BlockNodes
  import opened ListSteps
  import opened NodeCounts
  import opened AllocatorState
  import opened AllocatorTheorems
  import opened PageTables
  import opened FrameOwnership

  const USER_END: nat := 0x8000_0000_0000
  const LINEAR: nat := 0xFFFF_8000_0000_0000
  const HEAP: nat := 0xFFFF_8080_0000_0000
  const FREE: nat := 0
  const RESERVE: nat := 1
  const COMMIT: nat := 2
  const COMMITXF: nat := 3
  const UNCOMMIT: nat := 4

  /** A page, by its low 48 bits, that only demand paging and the kernel heap map: the user
      half, and the space from the kernel heap's start on. */
  predicate Private(x: nat) {
    x % PAGE == 0 && (x < USER_END || 0x8080_0000_0000 <= x < SPACE)
  }

  ghost predicate Mapped(t: Tables, root: nat, x: nat) {
    Private(x) && Translate(t, root, x).Some?
  }

  /** Frame `f` can back a page: it is allocated and no slab page or table. */
  ghost predicate Backs(st: State, t: Tables, f: nat) {
    f % PAGE == 0 && f > 0 && f + PAGE < LIMIT && Held(st, f) && f !in t
  }

  /** Every private page has a frame of its own. */
  ghost predicate FramesOwned(st: State, t: Tables, root: nat) {
    && (forall x: nat :: Mapped(t, root, x) ==> Backs(st, t, Translate(t, root, x).value))
    && (forall x: nat, y: nat :: Mapped(t, root, x) && Mapped(t, root, y) && x != y ==>
          Translate(t, root, x) != Translate(t, root, y))
  }

  /** Private pages are mapped as 4K pages, and no 1G page lies over the linear window. */
  ghost predicate SmallPages(t: Tables, root: nat) {
    && (forall x: nat, y: nat :: Private(y) && y == x % SPACE / PAGE * PAGE ==> NoLarger(t, root, 4, 1, x))
    && (forall x: nat :: InLinear(x) ==> NoLarger(t, root, 4, 2, x))
  }

  /** The pages of the kernel are writable and closed to user code. */
  const KERNEL_PAGE := Attr(true, false, false)

  /** The rights of a private page: user pages are open to user code, pages of the kernel heap
      are not; all are writable. */
  function PageRights(x: nat): Attr { if x < USER_END then Attr(true, true, false) else KERNEL_PAGE }

  /** The pointers above private pages allow everything, those above the linear window writes. */
  ghost predicate OpenPaths(t: Tables, root: nat) {
    && (forall x: nat, y: nat :: Private(y) && y == PageAround(x) ==> Granted(t, root, 4, 1, x) == ALL)
    && (forall x: nat :: InLinear(x) ==> Granted(t, root, 4, 2, x).write && !Granted(t, root, 4, 2, x).exed)
  }

  /** Every mapped private page has its rights, by the words of all levels. */
  ghost predicate OpenPages(t: Tables, root: nat) {
    forall x: nat :: Mapped(t, root, x) ==> RightsAt(t, root, x) == Some(PageRights(x))
  }

  /** Wherever the linear window is mapped, an address of it stands for its offset in the window,
      and the page has the rights of the kernel. */
  ghost predicate LinearMap(t: Tables, root: nat) {
    forall x: nat :: InLinear(x) && Translate(t, root, x).Some? ==>
      Translate(t, root, x) == Some(x - LINEAR) && RightsAt(t, root, x) == Some(KERNEL_PAGE)
  }

  ghost predicate Guarded(t: Tables, root: nat) {
    OpenPaths(t, root) && OpenPages(t, root) && LinearMap(t, root)
  }

  /** User pages are mapped in committed blocks only. */
  ghost predicate Committed(t: Tables, root: nat, s: seq<Range>) {
    forall x: nat :: x < USER_END && Mapped(t, root, x) ==> Covers(s, x, COMMIT)
  }

  ghost predicate InSomeBlock(s: seq<Range>, x: nat) {
    exists k: nat :: Covers(s, x, k)
  }

  /** The blocks partition the user half above the first page, with types FREE to COMMIT. */
  ghost predicate Partition(s: seq<Range>) {
    && Canonical(s)
    && (forall x: nat :: InSomeBlock(s, x) <==> PAGE <= x < USER_END)
    && (forall x: nat, k: nat :: Covers(s, x, k) ==> k <= COMMIT)
  }

  /** The blocks of a process. */
  ghost function Blocks(st: State, process: nat): seq<Range> {
    Layout(st, Vmma(process))
  }

  ghost predicate Inv(st: State, t: Tables, home: map<nat, Home>, root: nat, process: nat) {
    && Sound(st, t, home, root) && Vmma(process) in st.lists
    && FramesOwned(st, t, root) && SmallPages(t, root) && Guarded(t, root)
    && Committed(t, root, Blocks(st, process)) && Partition(Blocks(st, process))
  }

  // ---------------------------------------------------------------- a page gets a frame

  /** The private page that an address lies in. */
  function PageAround(va: nat): (x: nat)
    ensures x % PAGE == 0 && x < SPACE
  {
    va % SPACE / PAGE * PAGE
  }

  lemma SamePageIs(x: nat, va: nat)
    requires x < SPACE && x % PAGE == 0
    ensures SamePage(x, va, 1) <==> x == PageAround(va)
    ensures x % Span(1) == 0
  {
  }

  /** A free page was taken and mapped at `va`; the tables on the way came from free pages too. */
  ghost predicate FrameMapped(st: State, t: Tables, home: map<nat, Home>, st1: State, st': State, t': Tables,
      home': map<nat, Home>,
                              root: nat, va: nat, page: nat, a: Attr) {
    && PageTaken(st, st1, page) && OnlyList(st, st1, MemoryMap, {})
    && PageMapped(st1, t, home, st', t', home', root, va, 1, page, a)
  }

  /** What the ownership argument needs of a mapping step. */
  ghost predicate FrameStep(st: State, t: Tables, st': State, t': Tables, root: nat, va: nat, page: nat) {
    && (forall f :: Held(st, f) ==> Held(st', f) && f !in t' - t.Keys)
    && page % PAGE == 0 && page > 0 && page + PAGE < LIMIT
    && !Held(st, page) && Held(st', page) && page !in t'
    && (forall x: nat :: Private(x) ==>
          Translate(t', root, x) == if x == PageAround(va) then Some(page) else Translate(t, root, x))
  }

  lemma FrameMappedStep(st: State, t: Tables, home: map<nat, Home>, st1: State, st': State, t': Tables,
      home': map<nat, Home>,
                        root: nat, va: nat, page: nat, a: Attr)
    requires Sound(st, t, home, root) && FrameMapped(st, t, home, st1, st', t', home', root, va, page, a)
    ensures FrameStep(st, t, st', t', root, va, page)
  {
    hide Valid, Tree, Held, OnlyList, NoLarger, Translate, PageCount, Layout, Span, Prefix, TakePage;
    TakenHeld(st, st1, page);
    forall x: nat | Private(x)
      ensures Translate(t', root, x) == if x == PageAround(va) then Some(page) else Translate(t, root, x)
    {
      SamePageIs(x, va);
    }
  }

  lemma FrameStepOwned(st: State, t: Tables, st': State, t': Tables, root: nat, va: nat, page: nat)
    requires FramesOwned(st, t, root) && FrameStep(st, t, st', t', root, va, page)
    ensures FramesOwned(st', t', root)
  {
    hide Held, Translate, Private;
    forall x: nat | Mapped(t', root, x) && x != PageAround(va)
      ensures Mapped(t, root, x) && Backs(st, t, Translate(t, root, x).value)
    {
    }
  }

  /** The physical list changed only. */
  lemma BlocksKept(st: State, st': State, process: nat)
    requires OnlyList(st, st', MemoryMap, {}) && Vmma(process) in st.lists
    ensures Vmma(process) in st'.lists && Blocks(st', process) == Blocks(st, process)
  {
    hide Layout;
  }

  lemma SmallPagesKept(st: State, t: Tables, home: map<nat, Home>, st': State, t': Tables, home': map<nat, Home>,
      root: nat, va: nat, l: nat, base: nat, a: Attr)
    requires SmallPages(t, root) && PageMapped(st, t, home, st', t', home', root, va, l, base, a) && l <= 2
    requires l == 1 || forall y: nat, x: nat :: Private(y) && y == PageAround(x) ==> !SamePage(x, va, l)
    ensures SmallPages(t', root)
  {
    hide Sound, PagesTaken, OnePageMapped, OnePageRights, NoLarger, SamePage, Held;
  }

  /** No page of the linear window is private. */
  lemma LinearOutside(x: nat)
    requires InLinear(x)
    ensures !Private(PageAround(x))
  {
    DivModUnique(x, LINEAR / SPACE, x - LINEAR + USER_END, SPACE);
  }

  /** A private page is mapped with its rights. */
  lemma PageGuarded(t: Tables, t': Tables, root: nat, va: nat, page: nat)
    requires Guarded(t, root) && Private(PageAround(va))
    requires OnePageMapped(t, t', root, va, 1, page) && OnePageRights(t, t', root, va, 1, PageRights(PageAround(va)))
    ensures Guarded(t', root)
    ensures RightsAt(t', root, va) == Some(PageRights(PageAround(va)))
  {
    hide Translate, RightsAt, Granted, SamePage, Private, InLinear, PageAround, Span;
    forall x: nat | Mapped(t', root, x)
      ensures RightsAt(t', root, x) == Some(PageRights(x))
    {
      PrivateAround(x);
      SamePageIs(x, va);
      if !SamePage(x, va, 1) { assert Mapped(t, root, x); }
    }
    forall x: nat | InLinear(x)
      ensures !SamePage(x, va, 1)
    {
      LinearOutside(x);
      if SamePage(x, va, 1) { SameAround(x, va); }
    }
    SelfPage(va, 1);
  }

  lemma SameAround(x: nat, va: nat)
    requires SamePage(x, va, 1)
    ensures PageAround(x) == PageAround(va)
  {
  }

  /** A 2M page of the linear window is mapped to its offset. */
  lemma LinearGuarded(t: Tables, t': Tables, root: nat, va: nat)
    requires Guarded(t, root) && InLinear(va)
    requires OnePageMapped(t, t', root, LargePage(va), 2, LinearPage(va))
    requires OnePageRights(t, t', root, LargePage(va), 2, KERNEL_PAGE)
    ensures Guarded(t', root)
  {
    hide Translate, RightsAt, Granted, SamePage, Private, InLinear, PageAround, Span, LargePage, LinearPage;
    LinearRounding(va);
    forall x: nat, y: nat | Private(y) && y == PageAround(x)
      ensures !SamePage(x, LargePage(va), 2)
    {
      LinearNotPrivate(x, y, LargePage(va));
    }
    forall x: nat | Private(x)
      ensures PageAround(x) == x
    {
      PrivateAround(x);
    }
    forall x: nat | Mapped(t', root, x)
      ensures RightsAt(t', root, x) == Some(PageRights(x))
    {
      assert Mapped(t, root, x);
    }
    forall x: nat | InLinear(x) && SamePage(x, LargePage(va), 2)
      ensures LinearPage(va) + x % Span(2) == x - LINEAR
    {
      SameLarge(x, va);
    }
  }

  lemma SameLarge(x: nat, va: nat)
    requires InLinear(x) && InLinear(va) && SamePage(x, LargePage(va), 2)
    ensures LinearPage(va) + x % Span(2) == x - LINEAR
  {
    hide SamePage, LargePage, LinearPage, Span;
    LinearRounding(va);
    LinearRounding(x);
    OffsetOf(x, va);
  }

  /** Changes that keep every translation, right and pointer keep the rights of the space. */
  lemma SameGuarded(t: Tables, t': Tables, root: nat)
    requires Guarded(t, root) && forall x: nat :: Translate(t', root, x) == Translate(t, root, x)
    requires forall x: nat :: RightsAt(t', root, x) == RightsAt(t, root, x)
    requires forall x: nat, l: nat :: 1 <= l ==> Granted(t', root, 4, l, x) == Granted(t, root, 4, l, x)
    ensures Guarded(t', root)
  {
    hide Translate, RightsAt, Granted, Private, InLinear, PageAround;
    forall x: nat | Mapped(t', root, x)
      ensures RightsAt(t', root, x) == Some(PageRights(x))
    {
      assert Mapped(t, root, x);
    }
    assert OpenPages(t', root);
    assert LinearMap(t', root);
    assert OpenPaths(t', root);
  }

  /** So does unmapping a private page. */
  lemma ClearedGuarded(t: Tables, home: map<nat, Home>, t': Tables, root: nat, x: nat, s: Slot)
    requires Tree(t, home, root) && SmallPages(t, root) && Guarded(t, root)
    requires Private(x) && Walk(t, root, 4, x) == Some(s)
    requires s.frame in t && s.index < |t[s.frame]| && t' == SetEntry(t, s.frame, s.index, 0)
    ensures Guarded(t', root)
  {
    hide Translate, RightsAt, Granted, Private, InLinear, Walk, SetEntry, Tree, SmallPages, Prefix, Span,
         BaseOf, Reaches, AttrOf;
    SlotOfPage(t, home, root, x, s);
    RootHome(t, home, root, s.frame);
    ZeroNotPresent();
    forall y: nat
      ensures Translate(t', root, y) == if Prefix(y, 1) == Prefix(x, 1) then None else Translate(t, root, y)
      ensures RightsAt(t', root, y) == if Prefix(y, 1) == Prefix(x, 1) then None else RightsAt(t, root, y)
    {
      SetEntryTranslate(t, home, root, s.frame, 0, x, y);
    }
    forall y: nat, l: nat | 1 <= l
      ensures Granted(t', root, 4, l, y) == Granted(t, root, 4, l, y)
    {
      RootOnPath(t, home, root, y);
      SetEntryGranted(t, home, root, s.frame, s.index, 0, root, 4, l, y);
    }
    forall y: nat | Mapped(t', root, y)
      ensures RightsAt(t', root, y) == Some(PageRights(y))
    {
      assert Mapped(t, root, y);
    }
  }

  /** Mapping a free page at a private address keeps the invariant, if a user address lies
      in a committed block. */
  lemma FrameMappedKeepsInv(st: State, t: Tables, home: map<nat, Home>, st1: State, st': State, t': Tables,
      home': map<nat, Home>,
                            root: nat, process: nat, va: nat, page: nat)
    requires Inv(st, t, home, root, process) && Private(PageAround(va))
    requires FrameMapped(st, t, home, st1, st', t', home', root, va, page, PageRights(PageAround(va)))
    requires PageAround(va) < USER_END ==> Covers(Blocks(st, process), PageAround(va), COMMIT)
    ensures Inv(st', t', home', root, process) && Blocks(st', process) == Blocks(st, process)
    ensures RightsAt(t', root, va) == Some(PageRights(PageAround(va)))
  {
    hide Valid, Tree, TablesHeld, Held, NoLarger, Translate, PageCount, Layout, Span, Prefix, TakePage, PageMapped,
         Partition, Covers, OnlyList, Private, FramesOwned, SmallPages, Guarded, PageRights, OnePageMapped,
         OnePageRights;
    FrameMappedStep(st, t, home, st1, st', t', home', root, va, page, PageRights(PageAround(va)));
    MappedRights(st1, t, home, st', t', home', root, va, 1, page, PageRights(PageAround(va)));
    PageGuarded(t, t', root, va, page);
    FrameStepOwned(st, t, st', t', root, va, page);
    SmallPagesKept(st1, t, home, st', t', home', root, va, 1, page, PageRights(PageAround(va)));
    MappedSound(st1, t, home, st', t', home', root, va, 1, page, PageRights(PageAround(va)));
    BlocksKept(st, st1, process);
    TakenOnly(st1, st', 3);
    BlocksKept(st1, st', process);
    StepCommitted(st, t, st', t', root, va, page, Blocks(st, process));
  }

  lemma MappedRights(st: State, t: Tables, home: map<nat, Home>, st': State, t': Tables, home': map<nat, Home>,
                     root: nat, va: nat, l: nat, base: nat, a: Attr)
    requires PageMapped(st, t, home, st', t', home', root, va, l, base, a)
    ensures OnePageMapped(t, t', root, va, l, base) && OnePageRights(t, t', root, va, l, a)
  {
    hide Sound, PagesTaken, OnePageMapped, OnePageRights, NoLarger, SamePage, Held;
  }

  lemma TakenOnly(st: State, st': State, n: nat)
    requires PagesTaken(st, st', n)
    ensures OnlyList(st, st', MemoryMap, {}) && forall f :: Held(st, f) ==> Held(st', f)
  {
    hide OnlyList, Held, PageCount, Layout;
  }

  lemma StepCommitted(st: State, t: Tables, st': State, t': Tables, root: nat, va: nat, page: nat, s: seq<Range>)
    requires Committed(t, root, s) && FrameStep(st, t, st', t', root, va, page)
    requires PageAround(va) < USER_END ==> Covers(s, PageAround(va), COMMIT)
    ensures Committed(t', root, s)
  {
    hide Held, Translate, Private, Covers;
  }

  // ---------------------------------------------------------------- the linear map

  /** Mapping a 2M page of the linear window touches no private page. */
  lemma LinearNotPrivate(x: nat, y: nat, va: nat)
    requires LINEAR <= va < HEAP && Private(y) && y == PageAround(x)
    ensures !SamePage(x, va, 2)
  {
    assert va % SPACE == va - LINEAR + USER_END;
  }

  lemma LinearMappedKeepsInv(st: State, t: Tables, home: map<nat, Home>, st': State, t': Tables, home': map<nat, Home>,
                             root: nat, process: nat, va: nat)
    requires Inv(st, t, home, root, process) && InLinear(va)
    requires PageMapped(st, t, home, st', t', home', root, LargePage(va), 2, LinearPage(va), KERNEL_PAGE)
    ensures Inv(st', t', home', root, process) && Blocks(st', process) == Blocks(st, process)
  {
    hide Valid, Tree, TablesHeld, Held, NoLarger, Translate, PageCount, Layout, Span, Prefix, Partition, Covers,
         OnlyList, SmallPages, Guarded, SamePage, Private, OnePageRights, LargePage, LinearPage;
    LinearRounding(va);
    var x0, base := LargePage(va), LinearPage(va);
    forall y: nat, x: nat | Private(y) && y == PageAround(x)
      ensures !SamePage(x, x0, 2)
    {
      LinearNotPrivate(x, y, x0);
    }
    MappedRights(st, t, home, st', t', home', root, x0, 2, base, KERNEL_PAGE);
    LinearGuarded(t, t', root, va);
    SmallPagesKept(st, t, home, st', t', home', root, x0, 2, base, KERNEL_PAGE);
    MappedSound(st, t, home, st', t', home', root, x0, 2, base, KERNEL_PAGE);
    TakenOnly(st, st', 2);
    BlocksKept(st, st', process);
    forall x: nat | Private(x)
      ensures Translate(t', root, x) == Translate(t, root, x)
    {
      PrivateAround(x);
      LinearNotPrivate(x, x, x0);
    }
    SameFrames(st, t, st', t', root);
    SameCommitted(t, t', root, Blocks(st, process));
  }

  lemma PrivateAround(x: nat)
    requires Private(x)
    ensures PageAround(x) == x
  {
  }

  lemma PrivateSmall(x: nat)
    requires Private(x)
    ensures x % SPACE == x
  {
  }

  lemma SameFrames(st: State, t: Tables, st': State, t': Tables, root: nat)
    requires FramesOwned(st, t, root) && forall x: nat :: Private(x) ==> Translate(t', root, x) == Translate(t, root, x)
    requires forall f :: Held(st, f) ==> Held(st', f)
    requires forall g :: g in t' && g !in t ==> !Held(st, g)
    ensures FramesOwned(st', t', root)
  {
    hide Held, Translate, Private;
    forall x: nat | Mapped(t', root, x)
      ensures Mapped(t, root, x) && Backs(st, t, Translate(t, root, x).value)
    {
    }
  }

  lemma SameCommitted(t: Tables, t': Tables, root: nat, s: seq<Range>)
    requires Committed(t, root, s) && forall x: nat :: Private(x) ==> Translate(t', root, x) == Translate(t, root, x)
    ensures Committed(t', root, s)
  {
    hide Translate, Private, Covers;
  }

  // ---------------------------------------------------------------- a page is unmapped

  /** The page `x` is no longer mapped, and its frame alone is no longer held. */
  ghost predicate PageCleared(st: State, t: Tables, st': State, t': Tables, root: nat, x: nat) {
    if Translate(t, root, x).None? then st' == st && t' == t
    else
      && t'.Keys == t.Keys
      && (forall y: nat :: Translate(t', root, y) == if SamePage(y, x, 1) then None else Translate(t, root, y))
      && (forall f: nat :: f % PAGE == 0 ==> (Held(st', f) <==> Held(st, f) && f != Translate(t, root, x).value))
  }

  /** Freeing the frame of the private page `x` and clearing its entry. */
  lemma ClearDone(st: State, t: Tables, home: map<nat, Home>, st': State, root: nat, process: nat, x: nat, s: Slot)
    requires Inv(st, t, home, root, process) && Mapped(t, root, x) && Walk(t, root, 4, x) == Some(s)
    requires Valid(st') && BlockAdded(st, st', MemoryMap, Frame(Translate(t, root, x).value))
    ensures s.frame in t && s.index < |t[s.frame]| && s.level == 1
    ensures var t' := SetEntry(t, s.frame, s.index, 0);
      PageCleared(st, t, st', t', root, x) && Inv(st', t', home, root, process)
    ensures Vmma(process) in st'.lists && st'.lists[Vmma(process)] == st.lists[Vmma(process)]
    ensures Blocks(st', process) == Blocks(st, process)
  {
    hide Valid, Tree, Held, NoLarger, Translate, Layout, Span, Prefix, Partition, Covers, SmallPages, Guarded,
         FramesOwned, Private, Committed, SetEntry, BlockAdded, Walk;
    var a := Translate(t, root, x).value;
    SlotOfPage(t, home, root, x, s);
    var t' := SetEntry(t, s.frame, s.index, 0);
    OwnedFrame(st, t, root, x);
    SetEntryKeys(t, s.frame, s.index, 0);
    ZeroNotPresent();
    RootHome(t, home, root, s.frame);
    SetEntryTree(t, home, root, s.frame, s.index, 0);
    forall y: nat
      ensures Translate(t', root, y) == if SamePage(y, x, 1) then None else Translate(t, root, y)
    {
      SetEntryTranslate(t, home, root, s.frame, 0, x, y);
    }
    FrameAddable(st, a);
    forall f: nat | f % PAGE == 0
      ensures Held(st', f) <==> Held(st, f) && f != a
    {
      FrameGivenBack(st, st', a, f);
    }
    ClearedTables(st, t, home, st', t', root, a);
    ClearedSmall(t, home, root, s);
    ClearedGuarded(t, home, t', root, x, s);
    ClearedOwned(st, t, st', t', root, x);
    ClearedCommitted(t, t', root, x, Blocks(st, process));
    AddedElsewhere(st, st', a, process);
  }

  lemma OwnedFrame(st: State, t: Tables, root: nat, x: nat)
    requires FramesOwned(st, t, root) && Mapped(t, root, x)
    ensures Translate(t, root, x).Some? && Backs(st, t, Translate(t, root, x).value)
  {
    hide Translate, Held, Private;
  }

  lemma FrameAddable(st: State, a: nat)
    requires Valid(st) && a % PAGE == 0 && a > 0 && a + PAGE < LIMIT && Held(st, a)
    ensures Addable(st, MemoryMap, Frame(a))
  {
    hide Valid, Held, Addable;
    HeldAddable(st, a);
  }

  lemma SlotOfPage(t: Tables, home: map<nat, Home>, root: nat, x: nat, s: Slot)
    requires Tree(t, home, root) && SmallPages(t, root) && Private(x) && Walk(t, root, 4, x) == Some(s)
    ensures s.frame in t && s.frame in home && s.index == Index(x, 1) && s.index < |t[s.frame]| && s.level == 1
    ensures home[s.frame].level == 1 && OnPath(home, s.frame, 1, x) && Reaches(t, root, 4, s.frame, 1, x)
  {
    hide Walk, Reaches, NoLarger, Private, Prefix;
    RootOnPath(t, home, root, x);
    WalkEnds(t, home, root, root, 4, x);
    PrivatePage(x);
    WalkLevel(t, root, 4, 1, x);
  }

  lemma PrivatePage(x: nat)
    requires Private(x)
    ensures Private(x % SPACE / PAGE * PAGE) && x % SPACE / PAGE * PAGE == x
  {
  }

  lemma ClearedTables(st: State, t: Tables, home: map<nat, Home>, st': State, t': Tables, root: nat, a: nat)
    requires TablesHeld(st, t) && Tree(t, home, root) && a !in t && t'.Keys == t.Keys
    requires forall f: nat :: f % PAGE == 0 ==> (Held(st', f) <==> Held(st, f) && f != a)
    ensures TablesHeld(st', t')
  {
    hide Held;
  }

  lemma ClearedSmall(t: Tables, home: map<nat, Home>, root: nat, s: Slot)
    requires Tree(t, home, root) && SmallPages(t, root) && s.frame in t && s.index < |t[s.frame]| && s.index < ENTRIES
    requires s.frame in home && home[s.frame].level == 1
    ensures SmallPages(SetEntry(t, s.frame, s.index, 0), root)
  {
    hide Private, NoLarger, SetEntry, InLinear;
    forall x: nat, y: nat | Private(y) && y == x % SPACE / PAGE * PAGE
      ensures NoLarger(SetEntry(t, s.frame, s.index, 0), root, 4, 1, x)
    {
      RootOnPath(t, home, root, x);
      SetEntryNoLarger(t, home, root, s.frame, s.index, 0, root, 4, 1, x);
    }
    forall x: nat | InLinear(x)
      ensures NoLarger(SetEntry(t, s.frame, s.index, 0), root, 4, 2, x)
    {
      RootOnPath(t, home, root, x);
      SetEntryNoLarger(t, home, root, s.frame, s.index, 0, root, 4, 2, x);
    }
  }

  lemma ClearedOwned(st: State, t: Tables, st': State, t': Tables, root: nat, x: nat)
    requires FramesOwned(st, t, root) && Mapped(t, root, x) && PageCleared(st, t, st', t', root, x)
    ensures FramesOwned(st', t', root)
  {
    hide Held, Translate, Prefix;
    forall y: nat | Mapped(t', root, y)
      ensures Mapped(t, root, y) && y != x && Translate(t', root, y) == Translate(t, root, y)
    {
    }
    hide Private, SamePage;
    assert forall y: nat :: Mapped(t', root, y) ==> Backs(st, t, Translate(t, root, y).value);
  }

  lemma ClearedCommitted(t: Tables, t': Tables, root: nat, x: nat, s: seq<Range>)
    requires Committed(t, root, s)
    requires forall y: nat :: Translate(t', root, y) == if SamePage(y, x, 1) then None else Translate(t, root, y)
    ensures Committed(t', root, s)
  {
    hide Translate, Private, Prefix, Covers;
  }

  lemma AddedElsewhere(st: State, st': State, a: nat, process: nat)
    requires BlockAdded(st, st', MemoryMap, Frame(a)) && Vmma(process) in st.lists
    ensures Vmma(process) in st'.lists && st'.lists[Vmma(process)] == st.lists[Vmma(process)]
    ensures Blocks(st', process) == Blocks(st, process) && st'.pending == st.pending
  {
    hide Layout, Insert, FreeAfter, NodesLeft, NoLoose;
  }

  // ---------------------------------------------------------------- a run of pages is unmapped

  predicate InRun(x: nat, lo: nat, n: nat) { lo <= x < lo + n * PAGE }

  /** Frame `f` backs a page of the run. */
  ghost predicate BacksIn(t: Tables, root: nat, lo: nat, n: nat, f: nat) {
    exists x: nat :: InRun(x, lo, n) && Mapped(t, root, x) && Translate(t, root, x) == Some(f)
  }

  /** The pages of the run are no longer mapped, and exactly the frames that backed them are
      no longer held. */
  ghost predicate Uncommitted(st: State, t: Tables, st': State, t': Tables, root: nat, lo: nat, n: nat) {
    && t'.Keys == t.Keys
    && (forall x: nat :: Translate(t', root, x) == if InRun(x % SPACE, lo, n) then None else Translate(t, root, x))
    && (forall f: nat :: f % PAGE == 0 ==> (Held(st', f) <==> Held(st, f) && !BacksIn(t, root, lo, n, f)))
  }

  lemma UncommittedNone(st: State, t: Tables, root: nat, lo: nat)
    ensures Uncommitted(st, t, st, t, root, lo, 0)
  {
    hide Held, Translate;
  }

  lemma RunGrows(x: nat, lo: nat, i: nat)
    requires lo % PAGE == 0 && lo + i * PAGE < SPACE
    ensures InRun(x % SPACE, lo, i + 1) <==> InRun(x % SPACE, lo, i) || SamePage(x, lo + i * PAGE, 1)
  {
  }

  lemma UncommittedNext(st: State, t: Tables, st1: State, t1: Tables, st2: State, t2: Tables, root: nat, lo: nat,
      i: nat)
    requires lo % PAGE == 0 && lo + i * PAGE + PAGE <= USER_END
    requires Uncommitted(st, t, st1, t1, root, lo, i) && PageCleared(st1, t1, st2, t2, root, lo + i * PAGE)
    ensures Uncommitted(st, t, st2, t2, root, lo, i + 1)
  {
    hide Held, Translate, Prefix, SamePage, InRun, Private, BacksIn;
    var x := lo + i * PAGE;
    PageInRun(lo, i);
    forall y: nat
      ensures Translate(t2, root, y) == if InRun(y % SPACE, lo, i + 1) then None else Translate(t, root, y)
    {
      RunGrows(y, lo, i);
      if Translate(t1, root, x).None? && SamePage(y, x, 1) { SamePageSame(t1, root, x, y); }
    }
    forall f: nat | f % PAGE == 0
      ensures Held(st2, f) <==> Held(st, f) && !BacksIn(t, root, lo, i + 1, f)
    {
      BacksInNext(t, root, lo, i, f);
    }
  }

  lemma PageInRun(lo: nat, i: nat)
    requires lo % PAGE == 0 && lo + i * PAGE + PAGE <= USER_END
    ensures var x := lo + i * PAGE; Private(x) && x % SPACE == x && !InRun(x, lo, i) && InRun(x, lo, i + 1)
    ensures forall y: nat :: Private(y) && InRun(y, lo, i + 1) ==> InRun(y, lo, i) || y == lo + i * PAGE
  {
    forall y: nat | Private(y) && InRun(y, lo, i + 1) && !InRun(y, lo, i)
      ensures y == lo + i * PAGE
    {
      OnePageFrom(lo + i * PAGE, y);
    }
  }

  lemma OnePageFrom(x: nat, y: nat)
    requires x % PAGE == 0 && y % PAGE == 0 && x <= y < x + PAGE
    ensures y == x
  {
  }

  /** Addresses of one page are mapped alike. */
  lemma {:induction false} SamePageWalk(t: Tables, g: nat, level: nat, x: nat, y: nat)
    requires level <= 4 && SamePage(y, x, 1)
    ensures Walk(t, g, level, y) == Walk(t, g, level, x)
    decreases level
  {
    if level > 0 && g in t && |t[g]| == ENTRIES {
      SharedPath(y, x, 1, level);
      SamePageWalk(t, AddrOf(t[g][Index(x, level)]), level - 1, x, y);
    }
  }

  lemma {:induction false} SamePageRights(t: Tables, g: nat, level: nat, x: nat, y: nat)
    requires level <= 4 && SamePage(y, x, 1)
    ensures Rights(t, g, level, y) == Rights(t, g, level, x)
    decreases level
  {
    if level > 0 && g in t && |t[g]| == ENTRIES {
      SharedPath(y, x, 1, level);
      SamePageRights(t, AddrOf(t[g][Index(x, level)]), level - 1, x, y);
    }
  }

  lemma SamePageSame(t: Tables, root: nat, x: nat, y: nat)
    requires SamePage(y, x, 1) && Translate(t, root, x).None?
    ensures Translate(t, root, y).None?
  {
    SamePageWalk(t, root, 4, x, y);
  }

  lemma BacksInNext(t: Tables, root: nat, lo: nat, i: nat, f: nat)
    requires lo % PAGE == 0 && lo + i * PAGE + PAGE <= USER_END
    ensures BacksIn(t, root, lo, i + 1, f) <==>
      BacksIn(t, root, lo, i, f) || Translate(t, root, lo + i * PAGE) == Some(f)
  {
    hide Translate, Private, InRun;
    PageInRun(lo, i);
    RunsNested(lo, i);
    if Translate(t, root, lo + i * PAGE) == Some(f) { assert Mapped(t, root, lo + i * PAGE); }
  }

  lemma RunsNested(lo: nat, i: nat)
    ensures forall y: nat :: InRun(y, lo, i) ==> InRun(y, lo, i + 1)
  {
  }

  // ---------------------------------------------------------------- typed allocation

  /** The type a block must have for a request, if the request asks for one. */
  function Wanted(kind: nat): Option<nat> {
    if kind == RESERVE || kind == COMMITXF then Some(FREE)
    else if kind == COMMIT then Some(RESERVE)
    else None
  }

  /** The type a request gives the run, taken from a block of type `old'`. */
  function NewKind(kind: nat, old': nat): nat {
    if kind == COMMITXF then COMMIT
    else if kind == UNCOMMIT then (if old' == FREE then FREE else RESERVE)
    else kind
  }

  /** The block that serves a request: the first that reaches beyond the address and, for the
      requests that ask for a type, has it and has room. */
  function Serving(s: seq<Range>, lo: nat, pages: nat, kind: nat): (i: nat)
    ensures i <= |s|
  {
    FirstFit(s, lo, if Wanted(kind).Some? then pages else 0, 1, Wanted(kind))
  }

  /** The run of the request lies in the block that serves it. The requests that take whatever
      type there is may reach beyond it. */
  predicate InOneBlock(s: seq<Range>, lo: nat, pages: nat, kind: nat) {
    var i := Serving(s, lo, pages, kind);
    i < |s| ==> Fits(s[i], lo, pages, 1, None)
  }

  lemma OneBlockAt(s: seq<Range>, lo: nat, pages: nat, kind: nat, i: nat)
    requires i == Serving(s, lo, pages, kind) && i < |s|
    ensures InOneBlock(s, lo, pages, kind) <==> (s[i].End() - FitAt(s[i], lo, 1)) / PAGE >= pages
    ensures s[i].End() > FitAt(s[i], lo, 1)
  {
    hide FitAt;
  }

  /** The layout with the type of exactly the run changed. */
  ghost predicate Retyped(s: seq<Range>, s': seq<Range>, at: nat, n: nat, kind: nat) {
    && Canonical(s')
    && (forall x: nat, k: nat :: Covers(s', x, k) <==> if InRun(x, at, n) then k == kind else Covers(s, x, k))
  }

  /** Whether a request unmaps its run. */
  predicate Unmaps(kind: nat, old': nat) { old' == COMMIT && (kind == FREE || kind == UNCOMMIT) }

  function Least(a: nat, b: nat): (m: nat)
    ensures m <= a && m <= b
  {
    if a < b then a else b
  }

  /** The part of a run of `pages` pages from `at` that lies in a block. */
  function PagesServed(r: Range, at: nat, pages: nat): (n: nat)
    ensures n <= pages
  {
    Least(if r.End() > at then (r.End() - at) / PAGE else 0, pages)
  }

  /** One turn of the allocation loop: `pages` pages from `at` in block `block` are served,
      and `left` pages of the request are not yet. */
  datatype Turn = Turn(block: nat, at: nat, pages: nat, left: nat)

  /** The turn of the loop that serves a request, if any does. A block that has the type asked
      for already is kept, so that the loop goes on to the block behind it. */
  function ServingTurn(s: seq<Range>, lo: nat, pages: nat, kind: nat): (u: Turn)
    ensures u.block <= |s| && u.pages + u.left <= pages
  {
    var i := Serving(s, lo, pages, kind);
    if i == |s| then Turn(i, 0, 0, pages)
    else
      var at := FitAt(s[i], lo, 1);
      var n := PagesServed(s[i], at, pages);
      if n < pages && s[i].kind == kind && i + 1 < |s| then
        var m := PagesServed(s[i + 1], s[i + 1].addr, pages - n);
        Turn(i + 1, s[i + 1].addr, m, pages - n - m)
      else Turn(i, at, n, pages - n)
  }

  ghost predicate AnyMapped(t: Tables, root: nat, lo: nat, n: nat) {
    exists x: nat :: InRun(x, lo, n) && Mapped(t, root, x)
  }

  /** A turn runs out of list nodes, to free the first frame or to retype the run. A frame
      that was freed is a page to make nodes of. */
  ghost predicate TurnStarves(st: State, t: Tables, root: nat, process: nat, i: nat, at: nat, n: nat, kind: nat) {
    var s := Blocks(st, process);
    && i < |s| && s[i].kind != kind && Free(st) == []
    && if Unmaps(kind, s[i].kind) && AnyMapped(t, root, at, n) then Spare(st) < 1
       else Spare(st) < NodesNeeded(s, i, at, n * PAGE, NewKind(kind, s[i].kind))
  }

  /** What a turn does: the type of exactly its run changes, and the run is unmapped if the
      request asks for it. One that frees no frame takes at most one page for list nodes. */
  ghost predicate TurnDone(st: State, t: Tables, st': State, t': Tables, root: nat, process: nat, i: nat, at: nat,
                           n: nat, kind: nat) {
    var s := Blocks(st, process);
    && i < |s|
    && Retyped(s, Blocks(st', process), at, n, NewKind(kind, s[i].kind))
    && Uncommitted(st, t, st', t', root, at, if Unmaps(kind, s[i].kind) then n else 0)
    && (!Unmaps(kind, s[i].kind) ==> PageCount(Free(st')) + 1 >= PageCount(Free(st)))
  }

  /** How a typed allocation ends. Strayed: pages are left to serve, and the next turn would
      start from the link of the node that this one has freed (vmm.c:236, 282); the cursor has
      moved by a number of pages instead of bytes (vmm.c:346). OutOfNodes: a node was taken
      from address 0 for want of a free page. */
  datatype Reply = Returned(addr: nat, status: nat) | Strayed(cursor: nat) | OutOfNodes

  /** What a typed allocation answers and does, up to the turn in which it strays. */
  ghost predicate TypedDone(st: State, t: Tables, st': State, t': Tables, root: nat, process: nat,
                            hint: nat, pages: nat, kind: nat, reply: Reply) {
    var s := Blocks(st, process);
    var u := ServingTurn(s, From(hint), pages, kind);
    if pages == 0 then st' == st && t' == t && reply == Returned(From(hint), 0)
    else if kind > 4 || u.block == |s| || (u.left > 0 && s[u.block].kind == kind) then
      st' == st && t' == t && reply == Returned(0, 1)
    else if TurnStarves(st, t, root, process, u.block, u.at, u.pages, kind) then reply == OutOfNodes
    else
      && TurnDone(st, t, st', t', root, process, u.block, u.at, u.pages, kind)
      && reply == LastReply(u, pages)
  }

  /** The answer is the cursor less the number of pages asked for (vmm.c:347-351). */
  function LastReply(u: Turn, pages: nat): Reply {
    if u.left > 0 then Strayed(u.at + u.pages) else Returned((u.at + u.pages - pages) % WORD64, 0)
  }

  /** What virtual_alloc does: a request that ends above user space, in 64 bits, fails with -1
      and changes nothing; the rest are typed allocations. */
  ghost predicate RequestDone(st: State, t: Tables, st': State, t': Tables, root: nat, process: nat,
                              hint: nat, pages: nat, kind: nat, reply: Reply) {
    if (hint + pages * PAGE) % WORD64 > USER_END then st' == st && t' == t && reply == Returned(0, WORD64 - 1)
    else TypedDone(st, t, st', t', root, process, hint, pages, kind, reply)
  }

  lemma PartitionInside(s: seq<Range>, i: nat)
    requires Partition(s) && i < |s|
    ensures PAGE <= s[i].addr && s[i].End() <= USER_END && s[i].kind <= COMMIT
  {
    hide Canonical;
    SomeSize(s, i);
    assert Covers(s, s[i].addr, s[i].kind) && Covers(s, s[i].End() - 1, s[i].kind);
    assert InSomeBlock(s, s[i].addr) && InSomeBlock(s, s[i].End() - 1);
  }

  lemma SomeSize(s: seq<Range>, i: nat)
    requires Canonical(s) && i < |s|
    ensures s[i].size > 0
  {
  }

  lemma KindUnique(s: seq<Range>, i: nat, x: nat, k: nat)
    requires Canonical(s) && i < |s| && s[i].Has(x) && Covers(s, x, k)
    ensures k == s[i].kind
  {
  }

  /** A block of the address space, and a run in it. */
  ghost predicate InBlock(s: seq<Range>, i: nat, at: nat, n: nat) {
    i < |s| && s[i].addr <= at && at % PAGE == 0 && n > 0 && at + n * PAGE <= s[i].End()
  }

  /** The block that serves a request, and the part of the run in it. */
  lemma ServingFacts(s: seq<Range>, lo: nat, pages: nat, kind: nat)
    requires Partition(s) && AllPlaced(s) && lo % PAGE == 0 && pages > 0
    requires Serving(s, lo, pages, kind) < |s|
    ensures var i := Serving(s, lo, pages, kind);
      var at := FitAt(s[i], lo, 1);
      var n := PagesServed(s[i], at, pages);
      && at == (if s[i].addr < lo then lo else s[i].addr) && at < s[i].End()
      && n == Least((s[i].End() - at) / PAGE, pages)
      && InBlock(s, i, at, n)
      && (Wanted(kind).Some? ==> s[i].kind == Wanted(kind).value && n == pages)
  {
    var i := Serving(s, lo, pages, kind);
    AlignOne(if s[i].addr < lo then lo else s[i].addr);
    TakenInside(s, i, if s[i].addr < lo then lo else s[i].addr, pages);
    hide Partition, AllPlaced, Placed;
  }

  lemma TakenInside(s: seq<Range>, i: nat, at: nat, pages: nat)
    requires AllPlaced(s) && i < |s| && s[i].addr <= at < s[i].End() && at % PAGE == 0 && pages > 0
    ensures InBlock(s, i, at, PagesServed(s[i], at, pages))
    ensures PagesServed(s[i], at, pages) < pages ==> at + PagesServed(s[i], at, pages) * PAGE == s[i].End()
  {
    assert Placed(s[i]);
    hide AllPlaced;
    var room := (s[i].End() - at) / PAGE;
    WholePagesOf(s[i].End() - at);
    MulMonotone(PagesServed(s[i], at, pages), room, PAGE);
  }

  lemma WholePagesOf(size: nat)
    requires size % PAGE == 0 && size > 0
    ensures size / PAGE * PAGE == size && size / PAGE > 0
  {
  }

  /** Behind a block of the address space the next one follows, with another type. */
  lemma NextBlock(s: seq<Range>, i: nat)
    requires Partition(s) && i + 1 < |s|
    ensures s[i].End() == s[i + 1].addr && s[i].kind != s[i + 1].kind
  {
    PartitionInside(s, i);
    PartitionInside(s, i + 1);
    assert InSomeBlock(s, s[i].End());
    var k: nat :| Covers(s, s[i].End(), k);
    var j :| 0 <= j < |s| && s[j].Has(s[i].End());
    assert j == i + 1;
  }

  /** A run in a block of the address space lies in user space, below the field limit. */
  lemma RunInUser(s: seq<Range>, i: nat, at: nat, n: nat)
    requires Partition(s) && InBlock(s, i, at, n)
    ensures PAGE <= at && at + n * PAGE <= USER_END && s[i].kind <= COMMIT
  {
    PartitionInside(s, i);
  }

  lemma AlignOne(x: nat)
    ensures AlignUp(x, 1) == x
  {
  }

  /** A request that keeps the type of its block keeps the layout. */
  lemma RetypedSame(s: seq<Range>, i: nat, at: nat, n: nat)
    requires Canonical(s) && i < |s| && s[i].addr <= at && at + n * PAGE <= s[i].End()
    ensures Retyped(s, s, at, n, s[i].kind)
  {
    forall x: nat, k: nat | InRun(x, at, n)
      ensures Covers(s, x, k) <==> k == s[i].kind
    {
      assert s[i].Has(x);
      if Covers(s, x, k) { KindUnique(s, i, x, k); }
    }
  }

  lemma RetypedIs(s: seq<Range>, i: nat, at: nat, n: nat, kind: nat)
    requires Canonical(s) && i < |s| && s[i].addr <= at && at + n * PAGE <= s[i].End() && n > 0
    ensures Retyped(s, Retype(s, i, at, n * PAGE, kind), at, n, kind)
  {
    hide Canonical, Covers, Retype;
    RetypeMeaning(s, i, at, n * PAGE, kind);
  }

  /** The partition of the user half survives a retyping inside one block. */
  lemma RetypedPartition(s: seq<Range>, s': seq<Range>, i: nat, at: nat, n: nat, kind: nat)
    requires Partition(s) && i < |s| && s[i].addr <= at && at + n * PAGE <= s[i].End() && kind <= COMMIT
    requires Retyped(s, s', at, n, kind)
    ensures Partition(s')
  {
    hide Canonical, InRun;
    forall x: nat
      ensures InSomeBlock(s', x) <==> InSomeBlock(s, x)
    {
      if InRun(x, at, n) {
        RunInBlock(s, i, at, n, x);
        assert Covers(s', x, kind);
      } else if InSomeBlock(s, x) {
        var k: nat :| Covers(s, x, k);
        assert Covers(s', x, k);
      }
    }
  }

  lemma RunInBlock(s: seq<Range>, i: nat, at: nat, n: nat, x: nat)
    requires i < |s| && s[i].addr <= at && at + n * PAGE <= s[i].End() && InRun(x, at, n)
    ensures Covers(s, x, s[i].kind)
  {
    assert s[i].Has(x);
  }

  /** After a request, user pages are still mapped in committed blocks only: its run either
      was unmapped, or could not have been mapped, or became committed. */
  lemma RetypedCommitted(t: Tables, t': Tables, root: nat, s: seq<Range>, s': seq<Range>, i: nat, at: nat, n: nat,
      kind: nat, unmap: bool)
    requires Partition(s) && i < |s| && s[i].addr <= at && at + n * PAGE <= s[i].End()
    requires Committed(t, root, s) && Retyped(s, s', at, n, NewKind(kind, s[i].kind)) && kind <= 4
    requires unmap == Unmaps(kind, s[i].kind) && (Wanted(kind).Some? ==> s[i].kind == Wanted(kind).value)
    requires forall x: nat ::
      Translate(t', root, x) == if InRun(x % SPACE, at, if unmap then n else 0) then None else Translate(t, root, x)
    ensures Committed(t', root, s')
  {
    hide Canonical, Translate, Covers, InRun;
    forall x: nat | x < USER_END && Mapped(t', root, x)
      ensures Covers(s', x, COMMIT)
    {
      assert x % SPACE == x;
      assert Mapped(t, root, x);
      if InRun(x, at, n) && s[i].kind != COMMIT {
        HasRun(s[i], at, n, x);
        KindUnique(s, i, x, COMMIT);
      } else if InRun(x, at, n) {
        HasRun(s[i], at, n, x);
      }
    }
  }

  lemma HasRun(r: Range, at: nat, n: nat, x: nat)
    requires r.addr <= at && at + n * PAGE <= r.End() && InRun(x, at, n)
    ensures r.Has(x)
  {
  }

  // ---------------------------------------------------------------- the invariant after a request

  /** Node allocations for the lists of a process: the paging structures stay sound. */
  lemma NodesKeepFrames(st: State, st': State, t: Tables, home: map<nat, Home>, root: nat)
    requires Sound(st, t, home, root) && FramesOwned(st, t, root) && Valid(st') && st'.pending == 0
    requires SlabsGrew(st, st') && Free(st') == FreeAfter(st, st'.slabs)
    ensures Sound(st', t, home, root) && FramesOwned(st', t, root)
    ensures forall f: nat :: f % PAGE == 0 ==> (Held(st', f) <==> Held(st, f))
  {
    hide Valid, Held, FreeAfter, Layout, Translate, Private;
    forall f: nat | f % PAGE == 0
      ensures Held(st', f) <==> Held(st, f)
    {
      HeldUnchanged(st, st', f);
    }
  }

  /** The run was unmapped if the request asks for it; then its type was changed. */
  lemma ServedDone(st: State, t: Tables, home: map<nat, Home>, st1: State, t1: Tables, st2: State, root: nat,
                   process: nat, i: nat, at: nat, n: nat, kind: nat)
    requires Inv(st, t, home, root, process) && Inv(st1, t1, home, root, process)
    requires InBlock(Blocks(st, process), i, at, n) && kind <= 4
    requires Wanted(kind).Some? ==> Blocks(st, process)[i].kind == Wanted(kind).value
    requires Blocks(st1, process) == Blocks(st, process)
    requires Uncommitted(st, t, st1, t1, root, at, if Unmaps(kind, Blocks(st, process)[i].kind) then n else 0)
    requires Valid(st2) && st2.pending == 0 && SlabsGrew(st1, st2) && Free(st2) == FreeAfter(st1, st2.slabs)
    requires Vmma(process) in st2.lists && (!Unmaps(kind, Blocks(st, process)[i].kind) ==> st1 == st)
    requires Retyped(Blocks(st, process), Blocks(st2, process), at, n, NewKind(kind, Blocks(st, process)[i].kind))
    ensures Inv(st2, t1, home, root, process)
    ensures TurnDone(st, t, st2, t1, root, process, i, at, n, kind)
  {
    hide Sound, Held, FreeAfter, Layout, Translate, Private, Canonical, InRun, FramesOwned, SmallPages, Guarded, Covers,
         Partition, Committed, Retyped, BacksIn, Valid, PageCount, SlabsGrew;
    var s, s' := Blocks(st, process), Blocks(st2, process);
    SoundValid(st1, t1, home, root);
    SpareKept(st1, st2);
    RunInUser(s, i, at, n);
    NodesKeepFrames(st1, st2, t1, home, root);
    RetypedPartition(s, s', i, at, n, NewKind(kind, s[i].kind));
    RetypedCommitted(t, t1, root, s, s', i, at, n, kind, Unmaps(kind, s[i].kind));
    UncommittedHeld(st, t, st1, t1, st2, root, at, if Unmaps(kind, s[i].kind) then n else 0);
  }

  lemma SoundValid(st: State, t: Tables, home: map<nat, Home>, root: nat)
    requires Sound(st, t, home, root)
    ensures Valid(st)
  {
    hide Valid, Tree, TablesHeld;
  }

  /** Node allocations take at most one page. */
  lemma SpareKept(st: State, st': State)
    requires Valid(st) && SlabsGrew(st, st') && Free(st') == FreeAfter(st, st'.slabs)
    ensures PageCount(Free(st')) + 1 >= PageCount(Free(st))
  {
    hide Structured, Layout, Canonical, AllPlaced, AllFree, ClearOfSlabs, PageCount, TakePage;
    FreeFacts(st);
    TakePageCount(Free(st));
  }

  lemma UncommittedHeld(st: State, t: Tables, st1: State, t1: Tables, st2: State, root: nat, lo: nat, n: nat)
    requires Uncommitted(st, t, st1, t1, root, lo, n)
    requires forall f: nat :: f % PAGE == 0 ==> (Held(st2, f) <==> Held(st1, f))
    ensures Uncommitted(st, t, st2, t1, root, lo, n)
  {
    hide Held, Translate, BacksIn;
  }

  // ---------------------------------------------------------------- page faults

  lemma TakenSound(st: State, t: Tables, home: map<nat, Home>, st1: State, root: nat, page: nat)
    requires Sound(st, t, home, root) && PageTaken(st, st1, page) && st1.pending == 0
    ensures Sound(st1, t, home, root)
  {
    hide Valid, Held, Tree, TakePage, Layout;
    TakenHeld(st, st1, page);
  }

  /** The page just taken can be mapped at a private address. */
  lemma FreshReady(st: State, t: Tables, st1: State, root: nat, va: nat, page: nat)
    requires PageTaken(st, st1, page) && SmallPages(t, root) && Private(PageAround(va))
    ensures MappingAllowed(t, root, page, va, 1, 1) && LeafBase(page, 1) == page
    ensures PageCount(Free(st1)) == PageCount(Free(st)) - 1
  {
    hide Valid, Held, NoLarger, TakePage, Layout, PageCount, Private;
    TakenHeld(st, st1, page);
    TakenCount(st, st1, page);
  }

  /** A committed block that covers an address covers the page of it. */
  lemma CommittedPage(s: seq<Range>, va: nat)
    requires Partition(s) && AllPlaced(s) && Covers(s, va, COMMIT)
    ensures va < USER_END && PageAround(va) < USER_END && Covers(s, PageAround(va), COMMIT) && Private(PageAround(va))
    ensures PageRights(PageAround(va)) == Attr(true, true, false)
  {
    hide Canonical;
    var i :| 0 <= i < |s| && s[i].Has(va) && s[i].kind == COMMIT;
    PartitionInside(s, i);
    assert Placed(s[i]);
    assert s[i].Has(PageAround(va));
  }

  predicate InLinear(va: nat) { LINEAR <= va < HEAP }

  /** The 2M page of an address. */
  function LargePage(va: nat): nat { va / 0x20_0000 * 0x20_0000 }

  /** The physical 2M page behind a linear-map address: `addr & 0x7FFFE00000`. */
  function LinearPage(va: nat): nat { va % 0x80_0000_0000 / 0x20_0000 * 0x20_0000 }

  /** The handler's outcomes. Starved stands for the use of address 0 as a frame or a table. */
  datatype Outcome = Served | Panicked | Starved

  /** What the page-fault handler does: a page of the linear window is mapped; a page of a
      committed block is backed by a free frame; anything else panics. It is starved exactly
      if there are fewer free pages than it needs, the missing tables included. */
  ghost predicate FaultDone(st: State, t: Tables, home: map<nat, Home>, st': State, t': Tables, home': map<nat, Home>,
                            root: nat, process: nat, va: nat, outcome: Outcome) {
    if InLinear(va) then
      if PageCount(Free(st)) < Missing(t, root, 4, 2, LargePage(va)) then
        outcome == Starved && TablesOnly(st, t, st', t', root)
      else
        && outcome == Served
        && PageMapped(st, t, home, st', t', home', root, LargePage(va), 2, LinearPage(va), Attr(true, false, false))
    else if va >= 0x100 && Covers(Blocks(st, process), va, COMMIT) then
      if PageCount(Free(st)) < 1 + Missing(t, root, 4, 1, va) then
        outcome == Starved && TablesOnly(st, t, st', t', root)
      else
        && outcome == Served
        && exists st1: State, page: nat ::
             FrameMapped(st, t, home, st1, st', t', home', root, va, page, Attr(true, true, false))
    else
      outcome == Panicked && st' == st && t' == t && home' == home
  }

  /** What an access to `va`, in page `x`, does: nothing if the page is mapped, else a fault. */
  ghost predicate AccessDone(st: State, t: Tables, home: map<nat, Home>, st': State, t': Tables, home': map<nat, Home>,
                             root: nat, process: nat, va: nat, x: nat, outcome: Outcome) {
    if Mapped(t, root, x) then outcome == Served && st' == st && t' == t && home' == home
    else FaultDone(st, t, home, st', t', home', root, process, va, outcome)
  }

  /** Pages may have been taken off the free memory, with no effect on any translation. */
  ghost predicate TablesOnly(st: State, t: Tables, st': State, t': Tables, root: nat) {
    && OnlyList(st, st', MemoryMap, {})
    && (forall f :: Held(st, f) ==> Held(st', f))
    && (forall x: nat :: Translate(t', root, x) == Translate(t, root, x))
  }

  lemma NothingDone(st: State, t: Tables, home: map<nat, Home>, root: nat)
    requires Sound(st, t, home, root)
    ensures TablesOnly(st, t, st, t, root)
  {
    hide Held, Translate, Valid, OnlyList;
    SelfOnly(st);
  }

  lemma LinearFaultDone(st: State, t: Tables, home: map<nat, Home>, st': State, t': Tables, home': map<nat, Home>,
                        root: nat, process: nat, va: nat, starved: bool)
    requires InLinear(va) && (starved <==> PageCount(Free(st)) < Missing(t, root, 4, 2, LargePage(va)))
    requires if starved then TablesOnly(st, t, st', t', root)
             else PageMapped(st, t, home, st', t', home', root, LargePage(va), 2, LinearPage(va),
                             Attr(true, false, false))
    ensures FaultDone(st, t, home, st', t', home', root, process, va, if starved then Starved else Served)
  {
    hide TablesOnly, PageMapped, PageCount, Missing, Layout, LargePage, LinearPage;
  }

  lemma UserFaultDone(st: State, t: Tables, home: map<nat, Home>, st1: State, st': State, t': Tables,
                      home': map<nat, Home>, root: nat, process: nat, va: nat, page: nat, starved: bool)
    requires 0x100 <= va < USER_END && Covers(Blocks(st, process), va, COMMIT)
    requires starved <==> PageCount(Free(st)) < 1 + Missing(t, root, 4, 1, va)
    requires if starved then TablesOnly(st, t, st', t', root)
             else FrameMapped(st, t, home, st1, st', t', home', root, va, page, Attr(true, true, false))
    ensures FaultDone(st, t, home, st', t', home', root, process, va, if starved then Starved else Served)
  {
    hide TablesOnly, FrameMapped, PageCount, Missing, Layout, Covers;
  }

  lemma PanicDone(st: State, t: Tables, home: map<nat, Home>, root: nat, process: nat, va: nat)
    requires !InLinear(va) && !(va >= 0x100 && Covers(Blocks(st, process), va, COMMIT))
    ensures FaultDone(st, t, home, st, t, home, root, process, va, Panicked)
  {
    hide PageCount, Missing, Layout, Covers;
  }

  /** Added tables keep the invariant. */
  lemma TablesKeepInv(st: State, t: Tables, home: map<nat, Home>, st': State, t': Tables, home': map<nat, Home>,
                      root: nat, process: nat, n: nat)
    requires Inv(st, t, home, root, process) && TableStep(st, t, home, st', t', home', root, n)
    ensures Inv(st', t', home', root, process) && Blocks(st', process) == Blocks(st, process)
    ensures TablesOnly(st, t, st', t', root)
  {
    hide Sound, Held, NoLarger, Reaches, Translate, RightsAt, Granted, Guarded, Layout, Private, InLinear, Partition,
         Covers, OnlyList, PageCount;
    BlocksKept(st, st', process);
    SameFrames(st, t, st', t', root);
    SameGuarded(t, t', root);
  }

  /** So does taking a page off the free memory. */
  lemma TakenKeepsInv(st: State, t: Tables, home: map<nat, Home>, st': State, root: nat, process: nat, page: nat)
    requires Inv(st, t, home, root, process) && PageTaken(st, st', page) && st'.pending == 0
    requires OnlyList(st, st', MemoryMap, {})
    ensures Inv(st', t, home, root, process) && Blocks(st', process) == Blocks(st, process)
    ensures TablesOnly(st, t, st', t, root)
  {
    hide Sound, Held, Translate, Layout, Private, SmallPages, Guarded, Partition, Covers, OnlyList, Valid, TakePage;
    TakenSound(st, t, home, st', root, page);
    TakenHeld(st, st', page);
    BlocksKept(st, st', process);
    SameFrames(st, t, st', t, root);
  }

  lemma TablesOnlyTrans(st: State, t: Tables, st1: State, t1: Tables, st2: State, t2: Tables, root: nat)
    requires TablesOnly(st, t, st1, t1, root) && TablesOnly(st1, t1, st2, t2, root)
    ensures TablesOnly(st, t, st2, t2, root)
  {
    hide Held, Translate, OnlyList;
    OnlyListTrans(st, st1, st2, MemoryMap, {});
  }

  lemma LinearRounding(va: nat)
    requires InLinear(va)
    ensures var x := LargePage(va);
      InLinear(x) && SamePage(va, x, 2) && LinearPage(va) + va % Span(2) == va - LINEAR
    ensures LeafBase(LinearPage(va), 2) == LinearPage(va) && LinearPage(va) < 0x80_0000_0000
    ensures LargePage(va) + va % Span(2) == va
  {
    var w := va - LINEAR;
    var q, r := w / 0x20_0000, w % 0x20_0000;
    LinearParts(va, w, q, r);
    LinearParts(LINEAR + q * 0x20_0000, q * 0x20_0000, q, 0);
  }

  /** Where an address lies in the 2M page of another. */
  lemma OffsetOf(x: nat, va: nat)
    requires InLinear(x) && InLinear(va) && SamePage(x, LargePage(va), 2)
    ensures LargePage(x) == LargePage(va) && LinearPage(x) == LinearPage(va)
  {
    var w, v := x - LINEAR, va - LINEAR;
    LinearParts(x, w, w / 0x20_0000, w % 0x20_0000);
    LinearParts(va, v, v / 0x20_0000, v % 0x20_0000);
    LinearParts(LINEAR + v / 0x20_0000 * 0x20_0000, v / 0x20_0000 * 0x20_0000, v / 0x20_0000, 0);
  }

  lemma LinearParts(va: nat, w: nat, q: nat, r: nat)
    requires va == LINEAR + w && w < 0x80_0000_0000 && w == q * 0x20_0000 + r && r < 0x20_0000
    ensures va / 0x20_0000 == LINEAR / 0x20_0000 + q && va % 0x20_0000 == r
    ensures va % 0x80_0000_0000 == w && w / 0x20_0000 == q
    ensures va % SPACE == USER_END + w && (USER_END + w) / 0x20_0000 == USER_END / 0x20_0000 + q
  {
    DivModUnique(va, LINEAR / 0x20_0000 + q, r, 0x20_0000);
    DivModUnique(w, q, r, 0x20_0000);
    DivModUnique(va, LINEAR / 0x80_0000_0000, w, 0x80_0000_0000);
    DivModUnique(va, LINEAR / SPACE, USER_END + w, SPACE);
    DivModUnique(USER_END + w, USER_END / 0x20_0000 + q, r, 0x20_0000);
  }

  /** In the linear window a served fault maps the address to its offset in the window. */
  lemma LinearFaultMeaning(st: State, t: Tables, home: map<nat, Home>, st': State, t': Tables, home': map<nat, Home>,
                           root: nat, process: nat, va: nat)
    requires InLinear(va) && FaultDone(st, t, home, st', t', home', root, process, va, Served)
    ensures Translate(t', root, va) == Some(va - LINEAR)
    ensures Inv(st', t', home', root, process) ==> RightsAt(t', root, va) == Some(Attr(true, false, false))
  {
    hide Translate, RightsAt, Granted, Sound, PagesTaken, NoLarger, Held, SamePage, Span, LinearPage, Layout,
         FramesOwned, SmallPages, Committed, Partition;
    LinearRounding(va);
  }

  /** In user space a served fault backs the page of the address with a frame that was free
      and leaves every other page as it was; the invariant holds again. */
  lemma UserFaultMeaning(st: State, t: Tables, home: map<nat, Home>, st': State, t': Tables, home': map<nat, Home>,
                         root: nat, process: nat, va: nat)
    returns (page: nat)
    requires Inv(st, t, home, root, process) && 0x100 <= va < USER_END
    requires FaultDone(st, t, home, st', t', home', root, process, va, Served)
    ensures Free(st) != [] && page == Free(st)[0].addr && !Held(st, page) && Held(st', page)
    ensures Translate(t', root, va) == Some(page + va % PAGE)
    ensures RightsAt(t', root, va) == Some(Attr(true, true, false))
    ensures forall x: nat :: x % SPACE / PAGE != va / PAGE ==>
      Translate(t', root, x) == Translate(t, root, x) && RightsAt(t', root, x) == RightsAt(t, root, x)
    ensures Inv(st', t', home', root, process) && Blocks(st', process) == Blocks(st, process)
  {
    hide Translate, RightsAt, Granted, Sound, PagesTaken, NoLarger, Held, Layout, FramesOwned, SmallPages, Guarded,
         Committed, Partition, Covers, TakePage, Valid, OnlyList;
    var st1: State, p: nat :|
      FrameMapped(st, t, home, st1, st', t', home', root, va, p, Attr(true, true, false));
    page := p;
    FaultKeepsInv(st, t, home, st1, st', t', home', root, process, va, page);
    TakenHeldBy(st, st1, page);
    SamePageUser(va);
  }

  lemma SamePageUser(va: nat)
    requires va < USER_END
    ensures SamePage(va, va, 1) && va % Span(1) == va % PAGE
    ensures forall x: nat :: SamePage(x, va, 1) <==> x % SPACE / PAGE == va / PAGE
  {
  }

  lemma TakenHeldBy(st: State, st1: State, page: nat)
    requires PageTaken(st, st1, page)
    ensures !Held(st, page) && Held(st1, page) && Free(st) != [] && page == Free(st)[0].addr
  {
    hide Held, Valid, TakePage, Layout;
    TakenHeld(st, st1, page);
  }

  lemma FaultKeepsInv(st: State, t: Tables, home: map<nat, Home>, st1: State, st': State, t': Tables, home': map<nat,
      Home>,
                      root: nat, process: nat, va: nat, page: nat)
    requires Inv(st, t, home, root, process)
    requires FrameMapped(st, t, home, st1, st', t', home', root, va, page, Attr(true, true, false))
    requires Covers(Blocks(st, process), va, COMMIT)
    ensures Inv(st', t', home', root, process) && Blocks(st', process) == Blocks(st, process)
    ensures OnePageMapped(t, t', root, va, 1, page) && forall f :: Held(st1, f) ==> Held(st', f)
    ensures OnePageRights(t, t', root, va, 1, Attr(true, true, false))
    ensures RightsAt(t', root, va) == Some(Attr(true, true, false))
  {
    hide Translate, NoLarger, Held, Layout, FramesOwned, SmallPages, Guarded, Committed, Partition, Covers, TakePage,
         Valid, OnlyList, Tree, TablesHeld, OnePageMapped, AllPlaced, PageCount;
    BlocksPlaced(st, t, home, root, process);
    CommittedPage(Blocks(st, process), va);
    FrameMappedKeepsInv(st, t, home, st1, st', t', home', root, process, va, page);
  }

  lemma BlocksPlaced(st: State, t: Tables, home: map<nat, Home>, root: nat, process: nat)
    requires Sound(st, t, home, root) && Vmma(process) in st.lists
    ensures AllPlaced(Blocks(st, process)) && Valid(st) && Structured(st) && st.pending == 0
  {
    hide Structured, Layout, AllPlaced, Canonical, Tree, TablesHeld, ClearOfSlabs, AllFree;
  }

  lemma LinearReady(t: Tables, root: nat, va: nat)
    requires InLinear(va) && SmallPages(t, root)
    ensures MappingAllowed(t, root, LinearPage(va), LargePage(va), 1, 2)
  {
    hide NoLarger, Private;
    LinearRounding(va);
    assert LinearPage(va) <= va % 0x80_0000_0000;
  }

  lemma OutsideUser(s: seq<Range>, va: nat)
    requires Partition(s) && !(0x100 <= va < USER_END)
    ensures !Covers(s, va, COMMIT)
  {
    hide Canonical, Covers;
    assert !InSomeBlock(s, va);
  }

  // ---------------------------------------------------------------- steps of the allocation code

  /** What unmapping a run of user pages does, the blocks of the process left alone. */
  ghost predicate UncommitDone(st: State, t: Tables, st': State, t': Tables, root: nat, process: nat, lo: nat, n: nat) {
    && Uncommitted(st, t, st', t', root, lo, n)
    && Vmma(process) in st.lists && Vmma(process) in st'.lists
    && st'.lists[Vmma(process)] == st.lists[Vmma(process)] && Blocks(st', process) == Blocks(st, process)
  }

  /** After unmapping a run there are free pages if any page of it had a frame, and nothing
      has changed if none had. */
  ghost predicate UncommitSpares(st: State, t: Tables, st': State, t': Tables, root: nat, lo: nat, n: nat) {
    if AnyMapped(t, root, lo, n) then Free(st') != [] else st' == st && t' == t
  }

  lemma NoneMapped(st: State, t: Tables, root: nat, lo: nat)
    ensures !AnyMapped(t, root, lo, 0) && UncommitSpares(st, t, st, t, root, lo, 0)
  {
    hide Mapped, Layout;
  }

  lemma AnyMappedNext(t: Tables, root: nat, lo: nat, i: nat)
    requires lo % PAGE == 0 && lo + i * PAGE + PAGE <= USER_END
    ensures AnyMapped(t, root, lo, i + 1) <==> AnyMapped(t, root, lo, i) || Mapped(t, root, lo + i * PAGE)
  {
    hide Translate, Private;
    PageInRun(lo, i);
    RunsNested(lo, i);
    hide InRun;
  }

  lemma AnyMappedMore(t: Tables, root: nat, lo: nat, i: nat, n: nat)
    requires i <= n && AnyMapped(t, root, lo, i)
    ensures AnyMapped(t, root, lo, n)
  {
    hide Mapped;
    var x: nat :| InRun(x, lo, i) && Mapped(t, root, x);
    MulMonotone(i, n, PAGE);
    assert InRun(x, lo, n);
  }

  /** What is known of the next page of a run that is being unmapped: it is mapped still if it
      was, and there is room for a node if a frame was freed before. */
  lemma NextPage(st: State, t: Tables, st1: State, t1: Tables, root: nat, lo: nat, i: nat, n: nat)
    requires lo % PAGE == 0 && i < n && lo + n * PAGE <= USER_END
    requires Uncommitted(st, t, st1, t1, root, lo, i) && UncommitSpares(st, t, st1, t1, root, lo, i)
    ensures Mapped(t1, root, lo + i * PAGE) <==> Mapped(t, root, lo + i * PAGE)
    ensures AnyMapped(t, root, lo, i + 1) <==> AnyMapped(t, root, lo, i) || Mapped(t, root, lo + i * PAGE)
    ensures AnyMapped(t, root, lo, i + 1) ==> AnyMapped(t, root, lo, n)
    ensures if AnyMapped(t, root, lo, i) then NodeRoom(st1) else st1 == st
  {
    hide Translate, Held, BacksIn, Layout, NeedsSlab, AnyMapped;
    PagesBelow(lo, i, n);
    PageInRun(lo, i);
    AnyMappedNext(t, root, lo, i);
    if AnyMapped(t, root, lo, i + 1) { AnyMappedMore(t, root, lo, i + 1, n); }
  }

  lemma SparesNext(st: State, t: Tables, st1: State, t1: Tables, st2: State, t2: Tables, root: nat, lo: nat, i: nat)
    requires lo % PAGE == 0 && lo + i * PAGE + PAGE <= USER_END
    requires UncommitSpares(st, t, st1, t1, root, lo, i) && PageCleared(st1, t1, st2, t2, root, lo + i * PAGE)
    requires Mapped(t1, root, lo + i * PAGE) <==> Mapped(t, root, lo + i * PAGE)
    requires Mapped(t1, root, lo + i * PAGE) ==> Free(st2) != []
    ensures UncommitSpares(st, t, st2, t2, root, lo, i + 1)
  {
    hide Translate, Held, Layout, AnyMapped;
    AnyMappedNext(t, root, lo, i);
    PageInRun(lo, i);
  }

  lemma PagesBelow(addr: nat, i: nat, n: nat)
    requires i < n && addr % PAGE == 0 && addr + n * PAGE <= USER_END
    ensures Private(addr + i * PAGE) && addr + i * PAGE + PAGE <= USER_END
  {
  }

  lemma NotMapped(st: State, t: Tables, root: nat, x: nat)
    requires Walk(t, root, 4, x).None?
    ensures PageCleared(st, t, st, t, root, x) && !Mapped(t, root, x)
  {
    hide Walk, Held;
  }

  /** The entry found for a private page, and its frame, which may be freed. */
  lemma SlotMaps(st: State, t: Tables, home: map<nat, Home>, root: nat, process: nat, x: nat, s: Slot)
    requires Inv(st, t, home, root, process) && Private(x) && Walk(t, root, 4, x) == Some(s)
    ensures s.frame in t && s.index < |t[s.frame]| && s.level == 1 && Mapped(t, root, x)
    ensures Translate(t, root, x) == Some(BaseOf(t[s.frame][s.index], 1) + x % PAGE)
    ensures Valid(st) && st.pending == 0
    ensures Addable(st, MemoryMap, Frame(BaseOf(t[s.frame][s.index], 1) + x % PAGE))
  {
    hide Valid, Walk, Tree, Held, NoLarger, Layout, Prefix, Partition, Covers, FramesOwned, SmallPages, Guarded,
         Private, Committed, Addable, BaseOf;
    SlotOfPage(t, home, root, x, s);
    OwnedFrame(st, t, root, x);
    FrameAddable(st, Translate(t, root, x).value);
  }

  /** After a frame was freed there are free pages. */
  lemma FreedSome(st: State, st': State, b: Range)
    requires BlockAdded(st, st', MemoryMap, b)
    ensures Free(st') != []
  {
    hide Layout, LastFree, TakePage, NoLoose, NodesCounted;
    InsertNonempty(FreeAfter(st, st'.slabs), b);
  }

  lemma RetypeDone(st: State, t: Tables, home: map<nat, Home>, st1: State, t1: Tables, st2: State, root: nat,
                   process: nat, i: nat, at: nat, n: nat, kind: nat)
    requires Inv(st, t, home, root, process) && Inv(st1, t1, home, root, process)
    requires InBlock(Blocks(st, process), i, at, n) && kind <= 4
    requires Wanted(kind).Some? ==> Blocks(st, process)[i].kind == Wanted(kind).value
    requires Blocks(st1, process) == Blocks(st, process)
    requires Uncommitted(st, t, st1, t1, root, at, if Unmaps(kind, Blocks(st, process)[i].kind) then n else 0)
    requires Valid(st2) && (!Unmaps(kind, Blocks(st, process)[i].kind) ==> st1 == st)
    requires var k := NewKind(kind, Blocks(st, process)[i].kind);
      UserStep(st1, st2, Vmma(process), Retype(Layout(st1, Vmma(process)), i, at, n * PAGE, k), 3)
    ensures Inv(st2, t1, home, root, process)
    ensures TurnDone(st, t, st2, t1, root, process, i, at, n, kind)
  {
    hide Valid, Tree, TablesHeld, Layout, FramesOwned, SmallPages, Guarded, Committed, Partition, Covers, Uncommitted,
         Canonical, AllPlaced, Retype, FreeAfter, LastFree, Retyped, TurnDone;
    BlocksPlaced(st, t, home, root, process);
    PartitionCanonical(Blocks(st, process));
    RetypedIs(Blocks(st, process), i, at, n, NewKind(kind, Blocks(st, process)[i].kind));
    ServedDone(st, t, home, st1, t1, st2, root, process, i, at, n, kind);
  }

  lemma PartitionCanonical(s: seq<Range>)
    requires Partition(s)
    ensures Canonical(s)
  {
  }

  /** A block that has the type asked for is left as it is. */
  lemma KeptDone(st: State, t: Tables, root: nat, process: nat, i: nat, at: nat, n: nat, kind: nat)
    requires Partition(Blocks(st, process)) && InBlock(Blocks(st, process), i, at, n)
    requires Blocks(st, process)[i].kind == kind && (Wanted(kind).Some? ==> kind == Wanted(kind).value)
    ensures TurnDone(st, t, st, t, root, process, i, at, n, kind)
  {
    hide Layout, Partition, Uncommitted, Canonical, Retyped;
    PartitionCanonical(Blocks(st, process));
    UncommittedNone(st, t, root, at);
    RunInUser(Blocks(st, process), i, at, n);
    KeptKind(kind);
    RetypedSame(Blocks(st, process), i, at, n);
  }

  lemma KeptKind(kind: nat)
    requires kind <= COMMIT && (Wanted(kind).Some? ==> kind == Wanted(kind).value)
    ensures kind == FREE && NewKind(kind, kind) == kind && !Unmaps(kind, kind)
  {
  }

  // ---------------------------------------------------------------- the turns of a request

  /** The request is served in the first turn, wholly or in part. */
  lemma FirstTurn(s: seq<Range>, lo: nat, pages: nat, kind: nat)
    requires Partition(s) && AllPlaced(s) && lo % PAGE == 0 && pages > 0
    requires Serving(s, lo, pages, kind) < |s|
    requires var i := Serving(s, lo, pages, kind);
      !(s[i].kind == kind && PagesServed(s[i], FitAt(s[i], lo, 1), pages) < pages)
    ensures var i := Serving(s, lo, pages, kind);
      var n := PagesServed(s[i], FitAt(s[i], lo, 1), pages);
      ServingTurn(s, lo, pages, kind) == Turn(i, FitAt(s[i], lo, 1), n, pages - n)
  {
    hide FitAt, Partition, AllPlaced, PagesServed, Serving;
  }

  /** The first block is kept and is the last. */
  lemma LastTurn(s: seq<Range>, lo: nat, pages: nat, kind: nat)
    requires var i := Serving(s, lo, pages, kind);
      i + 1 == |s| && s[i].kind == kind && PagesServed(s[i], FitAt(s[i], lo, 1), pages) < pages
    ensures var u := ServingTurn(s, lo, pages, kind);
      u.block < |s| && u.left > 0 && s[u.block].kind == kind
  {
    hide FitAt, PagesServed, Serving;
  }

  /** The request goes on in block `i`, at its first page, with `left` pages to serve. */
  ghost predicate SecondAt(s: seq<Range>, lo: nat, pages: nat, kind: nat, i: nat, cursor: nat, left: nat) {
    && i < |s| && left <= pages
    && var n := Least(s[i].size / PAGE, left);
    && ServingTurn(s, lo, pages, kind) == Turn(i, s[i].addr, n, left - n)
    && InBlock(s, i, s[i].addr, n) && cursor <= s[i].addr && s[i].kind != kind && Wanted(kind).None?
  }

  /** The first block is kept and the next one serves the rest, wholly or in part, from its
      first page. */
  lemma SecondTurn(s: seq<Range>, lo: nat, pages: nat, kind: nat)
    requires Partition(s) && AllPlaced(s) && lo % PAGE == 0 && pages > 0
    requires var i := Serving(s, lo, pages, kind);
      i + 1 < |s| && s[i].kind == kind && PagesServed(s[i], FitAt(s[i], lo, 1), pages) < pages
    ensures var i := Serving(s, lo, pages, kind);
      var at := FitAt(s[i], lo, 1);
      var n := PagesServed(s[i], at, pages);
      SecondAt(s, lo, pages, kind, i + 1, at + n, pages - n)
  {
    hide FitAt, AllPlaced, PagesServed, Serving, Partition, Canonical;
    var i := Serving(s, lo, pages, kind);
    ServingFacts(s, lo, pages, kind);
    NextBlock(s, i);
    PartitionCanonical(s);
    SomeSize(s, i + 1);
    BlockPlaced(s, i + 1);
    TakenInside(s, i + 1, s[i + 1].addr, pages - PagesServed(s[i], FitAt(s[i], lo, 1), pages));
    SecondServed(s[i + 1], pages - PagesServed(s[i], FitAt(s[i], lo, 1), pages));
  }

  lemma SecondServed(r: Range, pages: nat)
    ensures PagesServed(r, r.addr, pages) == Least(r.size / PAGE, pages)
  {
  }

  /** A request whose serving turn is done, or ran out of nodes. */
  lemma TurnAnswers(st: State, t: Tables, st': State, t': Tables, root: nat, process: nat, hint: nat, pages: nat,
                    kind: nat, u: Turn, starved: bool)
    requires pages > 0 && kind <= 4 && u == ServingTurn(Blocks(st, process), From(hint), pages, kind)
    requires u.block < |Blocks(st, process)| && !(u.left > 0 && Blocks(st, process)[u.block].kind == kind)
    requires starved <==> TurnStarves(st, t, root, process, u.block, u.at, u.pages, kind)
    requires !starved ==> TurnDone(st, t, st', t', root, process, u.block, u.at, u.pages, kind)
    ensures TypedDone(st, t, st', t', root, process, hint, pages, kind,
                      if starved then OutOfNodes else LastReply(u, pages))
  {
    hide Layout, From, ServingTurn, TurnStarves, TurnDone, LastReply;
  }

  lemma TurnFails(st: State, t: Tables, root: nat, process: nat, hint: nat, pages: nat, kind: nat)
    requires pages > 0
    requires var s := Blocks(st, process);
      var u := ServingTurn(s, From(hint), pages, kind);
      u.block < |s| && u.left > 0 && s[u.block].kind == kind
    ensures TypedDone(st, t, st, t, root, process, hint, pages, kind, Returned(0, 1))
  {
    hide Layout, From, ServingTurn, TurnStarves, TurnDone, LastReply;
  }

  lemma KeptNeverStarves(st: State, t: Tables, root: nat, process: nat, i: nat, at: nat, n: nat, kind: nat)
    requires i < |Blocks(st, process)| && Blocks(st, process)[i].kind == kind
    ensures !TurnStarves(st, t, root, process, i, at, n, kind)
  {
    hide Layout, Spare, AnyMapped;
  }

  /** A turn that cannot free its first frame. */
  lemma UncommitStarves(st: State, t: Tables, root: nat, process: nat, i: nat, at: nat, n: nat, kind: nat)
    requires Valid(st) && st.pending == 0 && i < |Blocks(st, process)| && Unmaps(kind, Blocks(st, process)[i].kind)
    requires AnyMapped(t, root, at, n) && !NodeRoom(st)
    ensures TurnStarves(st, t, root, process, i, at, n, kind)
  {
    hide Layout, Spare, AnyMapped, Valid, NodeRoom;
    NodeRoomIff(st);
  }

  /** A turn whose run is unmapped, if that was asked for, runs out of nodes exactly if the
      retyping does. */
  lemma TurnStarvesIff(st: State, t: Tables, st1: State, t1: Tables, root: nat, process: nat, i: nat, at: nat,
                       n: nat, kind: nat)
    requires Valid(st) && st.pending == 0 && i < |Blocks(st, process)| && Blocks(st, process)[i].kind != kind
    requires Blocks(st1, process) == Blocks(st, process)
    requires if Unmaps(kind, Blocks(st, process)[i].kind) then
               UncommitSpares(st, t, st1, t1, root, at, n) && (AnyMapped(t, root, at, n) ==> NodeRoom(st))
             else st1 == st
    ensures TurnStarves(st, t, root, process, i, at, n, kind) <==>
      RetypeStarves(st1, Vmma(process), i, at, n * PAGE, NewKind(kind, Blocks(st, process)[i].kind))
  {
    hide Layout, Spare, AnyMapped, Valid, NodeRoom, NodesNeeded;
    NodeRoomIff(st);
  }

  lemma InvParts(st: State, t: Tables, home: map<nat, Home>, root: nat, process: nat)
    requires Inv(st, t, home, root, process)
    ensures Sound(st, t, home, root) && Vmma(process) in st.lists && Partition(Blocks(st, process))
    ensures AllPlaced(Blocks(st, process)) && Valid(st) && Structured(st) && st.pending == 0
    ensures |Blocks(st, process)| == |st.lists[Vmma(process)]| && Canonical(Blocks(st, process))
  {
    hide Tree, TablesHeld, FramesOwned, SmallPages, Guarded, Committed, Layout, Structured, AllPlaced, Canonical;
    BlocksPlaced(st, t, home, root, process);
    LayoutLength(st, Vmma(process));
    PartitionCanonical(Blocks(st, process));
  }

  lemma InvFacts(st: State, t: Tables, home: map<nat, Home>, root: nat, process: nat)
    requires Inv(st, t, home, root, process)
    ensures Sound(st, t, home, root) && Vmma(process) in st.lists
  {
  }
}
