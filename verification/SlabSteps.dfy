/** Taking a node from its slab page and adding a slab page, as facts about two stores. */
module SlabSteps {
  import opened Layouts
  import opened BlockNodes
  import opened ListSteps

  /** A node as vmm_alloc_node hands it out. */
  const FRESH_NODE := Node(0, 0, 0, 0, 0, true)

  /** The parts of the pool invariant. */
  lemma PoolParts(st: State)
    requires PoolOk(st)
    ensures Chain(st.mem, st.slabs, if st.pending == 0 then 0 else 1) && st.blockHeap == st.slabs[0]
    ensures Counted(st.mem, st.slabs, st.owner.Keys)
    ensures Marked(st.mem, st.slabs, st.owner.Keys, st.pending)
  {
  }

  /** A free slot of a slab page exists when the header counts one. */
  lemma FreeSlotExists(mem: map<Ptr, Node>, slabs: seq<nat>, taken: set<Ptr>, i: nat)
    requires Counted(mem, slabs, taken) && i < |slabs| && Header(slabs[i]) in mem && mem[Header(slabs[i])].size > 0
    ensures exists j :: 0 <= j < NODES_PER_PAGE && slabs[i] + NODE_SIZE * j !in taken
  {
    if forall j :: 0 <= j < NODES_PER_PAGE ==> slabs[i] + NODE_SIZE * j in taken {
      FreeInFull(taken, slabs[i], NODES_PER_PAGE);
    }
  }

  lemma SlotNumber(page: nat, j: nat)
    requires j < NODES_PER_PAGE
    ensures SlotIn(page, page + NODE_SIZE * j)
  {
  }

  /** Slot `p` of slab page `i` is free. */
  ghost predicate FreeSlot(st: State, i: nat, p: Ptr) {
    && i < |st.slabs| && SlotIn(st.slabs[i], p) && p !in st.owner
  }

  lemma FreeSlotCounted(mem: map<Ptr, Node>, slabs: seq<nat>, taken: set<Ptr>, i: nat, p: Ptr)
    requires Counted(mem, slabs, taken) && i < |slabs| && Header(slabs[i]) in mem
    requires slabs[i] % PAGE == 0 && SlotIn(slabs[i], p) && p !in taken
    ensures mem[Header(slabs[i])].size > 0
  {
    SlotPage(slabs[i], p);
    FreeInTake(taken, (p - slabs[i]) / NODE_SIZE, slabs[i], NODES_PER_PAGE);
  }

  lemma ChainSlot(mem: map<Ptr, Node>, slabs: seq<nat>, end: nat, i: nat, p: Ptr)
    requires Chain(mem, slabs, end) && i < |slabs| && SlotIn(slabs[i], p)
    ensures p in mem && Header(slabs[i]) in mem && p != Header(slabs[i]) && p > 0
    ensures slabs[i] % PAGE == 0 && PageOf(p) == slabs[i]
    ensures forall j :: 0 <= j < |slabs| ==> Header(slabs[j]) != p
  {
    assert IsSlot(slabs, p);
    SlotPage(slabs[i], p);
    forall j | 0 <= j < |slabs|
      ensures Header(slabs[j]) != p
    {
      HeaderNotSlot(slabs, j);
    }
  }

  lemma FreeSlotFacts(st: State, i: nat, p: Ptr)
    requires PoolOk(st) && FreeSlot(st, i, p)
    ensures p in st.mem && Header(st.slabs[i]) in st.mem && p != Header(st.slabs[i]) && p > 0
    ensures st.mem[Header(st.slabs[i])].size > 0
    ensures PageOf(p) == st.slabs[i]
  {
    hide Chain, Counted, Marked, PoolOk, SlotIn;
    PoolParts(st);
    ChainSlot(st.mem, st.slabs, if st.pending == 0 then 0 else 1, i, p);
    FreeSlotCounted(st.mem, st.slabs, st.owner.Keys, i, p);
  }

  /** Node memory once the count of slab page `i` has been lowered, the last page's link
      has become `end`, and, with `live` set, slot `p` has been initialised. */
  function GrantedMem(mem: map<Ptr, Node>, slabs: seq<nat>, i: nat, p: Ptr, end: nat, live: bool): map<Ptr, Node>
    requires i < |slabs| && Header(slabs[i]) in mem && mem[Header(slabs[i])].size > 0
  {
    var h := Header(slabs[i]);
    var m := mem[h := mem[h].(size := mem[h].size - 1,
                              addr := if i == |slabs| - 1 then end else mem[h].addr)];
    if live then m[p := FRESH_NODE] else m
  }

  lemma GrantedChain(mem: map<Ptr, Node>, slabs: seq<nat>, end0: nat, i: nat, p: Ptr, end: nat, live: bool)
    requires Chain(mem, slabs, end0) && i < |slabs| && SlotIn(slabs[i], p)
    requires Header(slabs[i]) in mem && mem[Header(slabs[i])].size > 0
    requires i == |slabs| - 1 || end == end0
    ensures Chain(GrantedMem(mem, slabs, i, p, end, live), slabs, end)
  {
    ChainSlot(mem, slabs, end0, i, p);
  }

  lemma GrantedCounted(mem: map<Ptr, Node>, slabs: seq<nat>, end0: nat, taken: set<Ptr>, i: nat, p: Ptr, end: nat,
      live: bool)
    requires Chain(mem, slabs, end0) && Counted(mem, slabs, taken)
    requires i < |slabs| && SlotIn(slabs[i], p) && p !in taken
    requires Header(slabs[i]) in mem && mem[Header(slabs[i])].size > 0
    ensures Counted(GrantedMem(mem, slabs, i, p, end, live), slabs, taken + {p})
  {
    ChainSlot(mem, slabs, end0, i, p);
    FreeInOtherPages(taken, slabs, i, p);
    SlotPage(slabs[i], p);
    FreeInTake(taken, (p - slabs[i]) / NODE_SIZE, slabs[i], NODES_PER_PAGE);
  }

  lemma GrantedMarked(mem: map<Ptr, Node>, slabs: seq<nat>, taken: set<Ptr>, i: nat, p: Ptr, end: nat, live: bool)
    requires forall j :: 0 <= j < |slabs| ==> slabs[j] > 0
    requires i < |slabs| && SlotIn(slabs[i], p) && p !in taken && p in mem
    requires Marked(mem, slabs, taken, 0) && !IsSlot(slabs, Header(slabs[i]))
    requires Header(slabs[i]) in mem && mem[Header(slabs[i])].size > 0
    ensures Marked(GrantedMem(mem, slabs, i, p, end, live), slabs, taken + {p}, if live then 0 else p)
  {
    assert IsSlot(slabs, p);
  }

  lemma PoolFromParts(st: State, taken: set<Ptr>, end: nat)
    requires st.owner.Keys == taken && end == if st.pending == 0 then 0 else 1
    requires Chain(st.mem, st.slabs, end) && st.blockHeap == st.slabs[0]
    requires Counted(st.mem, st.slabs, taken) && Marked(st.mem, st.slabs, taken, st.pending)
    requires st.pending != 0 ==> st.pending in st.owner && st.owner[st.pending] == Loose
    ensures PoolOk(st)
  {
    hide Chain, Counted, Marked;
  }

  /** The store once slot `p` of page `i` has been handed out. With `live` unset the VALD
      bit is still to be set and the last page's link holds the mark 1. */
  ghost predicate IsGranted(st: State, st': State, i: nat, p: Ptr, live: bool) {
    && i < |st.slabs| && Header(st.slabs[i]) in st.mem && st.mem[Header(st.slabs[i])].size > 0
    && st' == st.(mem := GrantedMem(st.mem, st.slabs, i, p, if live then 0 else 1, live),
                  owner := st.owner[p := Loose],
                  pending := if live then 0 else p)
  }

  lemma GrantedPool(st: State, st': State, i: nat, p: Ptr, live: bool)
    requires PoolOk(st) && st.pending == 0 && FreeSlot(st, i, p) && IsGranted(st, st', i, p, live)
    requires live || i == |st.slabs| - 1
    ensures PoolOk(st')
  {
    hide Chain, Counted, Marked, PoolOk, IsSlot, GrantedMem, SlotIn;
    PoolParts(st);
    FreeSlotFacts(st, i, p);
    HeaderNotSlotOf(st, i);
    var end := if live then 0 else 1;
    GrantedChain(st.mem, st.slabs, 0, i, p, end, live);
    GrantedCounted(st.mem, st.slabs, 0, st.owner.Keys, i, p, end, live);
    GrantedMarked(st.mem, st.slabs, st.owner.Keys, i, p, end, live);
    assert st'.owner.Keys == st.owner.Keys + {p};
    PoolFromParts(st', st.owner.Keys + {p}, end);
  }

  lemma HeaderNotSlotOf(st: State, i: nat)
    requires PoolOk(st) && i < |st.slabs|
    ensures !IsSlot(st.slabs, Header(st.slabs[i]))
    ensures forall j :: 0 <= j < |st.slabs| ==> st.slabs[j] > 0
  {
    HeaderNotSlot(st.slabs, i);
  }

  lemma GrantedFrame(st: State, st': State, i: nat, p: Ptr, live: bool)
    requires PoolOk(st) && FreeSlot(st, i, p) && IsGranted(st, st', i, p, live)
    ensures forall q :: q in st.owner ==> q in st.mem && q in st'.mem && st'.mem[q] == st.mem[q]
  {
    hide PoolOk;
    OwnedInMem(st);
    HeaderNotOwned(st, i);
  }

  lemma GrantedLast(st: State, st': State, i: nat, p: Ptr, live: bool)
    requires PoolOk(st) && FreeSlot(st, i, p) && IsGranted(st, st', i, p, live)
    ensures LastFree(st') == LastFree(st) - if i == |st.slabs| - 1 then 1 else 0
  {
    hide PoolOk, Chain, Counted, Marked, SlotIn;
    PoolParts(st);
    ChainSlot(st.mem, st.slabs, if st.pending == 0 then 0 else 1, i, p);
    ChainLast(st.mem, st.slabs, if st.pending == 0 then 0 else 1, i);
  }

  lemma ChainLast(mem: map<Ptr, Node>, slabs: seq<nat>, end: nat, i: nat)
    requires Chain(mem, slabs, end) && i < |slabs|
    ensures Header(slabs[|slabs| - 1]) in mem
    ensures i != |slabs| - 1 ==> Header(slabs[i]) != Header(slabs[|slabs| - 1])
  {
  }

  /** Handing out a free slot keeps the store well formed and changes no list. */
  lemma GrantedOk(st: State, st': State, i: nat, p: Ptr, live: bool)
    requires Structured(st) && st.pending == 0 && FreeSlot(st, i, p) && IsGranted(st, st', i, p, live)
    requires live || i == |st.slabs| - 1
    ensures Structured(st')
    ensures forall r :: r in st.lists ==> Layout(st', r) == Layout(st, r)
    ensures forall q :: q in st.owner ==> q in st.mem && q in st'.mem && st'.mem[q] == st.mem[q]
    ensures LastFree(st') == LastFree(st) - if i == |st.slabs| - 1 then 1 else 0
  {
    hide PoolOk, ListsOk, Ranges, GrantedMem;
    GrantedPool(st, st', i, p, live);
    GrantedFrame(st, st', i, p, live);
    ListsFrame(st, st');
    GrantedLast(st, st', i, p, live);
  }

  // ---------------------------------------------------------------- a new slab page

  /** The first `n` nodes of a page, zeroed. */
  function ZeroNodes(page: nat, n: nat): map<Ptr, Node> {
    if n == 0 then map[] else ZeroNodes(page, n - 1)[page + NODE_SIZE * (n - 1) := ZERO_NODE]
  }

  /** A page of zeroed nodes with a full header. */
  function ZeroPage(page: nat): map<Ptr, Node> {
    ZeroNodes(page, PAGE / NODE_SIZE)[Header(page) := ZERO_NODE.(size := NODES_PER_PAGE)]
  }

  lemma {:induction false} ZeroNodesAt(page: nat, n: nat, q: Ptr)
    ensures q in ZeroNodes(page, n) <==> page <= q < page + NODE_SIZE * n && (q - page) % NODE_SIZE == 0
    ensures q in ZeroNodes(page, n) ==> ZeroNodes(page, n)[q] == ZERO_NODE
  {
    if n > 0 { ZeroNodesAt(page, n - 1, q); }
  }

  /** Node memory once `page` has joined the chain behind `last`, and slot `p` has been
      initialised. */
  function GrownMem(mem: map<Ptr, Node>, last: nat, page: nat, p: Ptr): map<Ptr, Node>
    requires Header(last) in mem
  {
    (mem + ZeroPage(page))[Header(last) := mem[Header(last)].(addr := page)][p := FRESH_NODE]
  }

  ghost predicate NewPage(slabs: seq<nat>, page: nat) {
    page > 0 && page % PAGE == 0 && page !in slabs
  }

  lemma ZeroPageSlots(page: nat, q: Ptr)
    requires page % PAGE == 0
    ensures SlotIn(page, q) ==> q in ZeroPage(page) && ZeroPage(page)[q] == ZERO_NODE
    ensures q in ZeroPage(page) ==> page <= q < page + PAGE
    ensures Header(page) in ZeroPage(page) && ZeroPage(page)[Header(page)] == ZERO_NODE.(size := NODES_PER_PAGE)
  {
    hide ZeroNodes;
    ZeroNodesAt(page, PAGE / NODE_SIZE, q);
  }

  /** The slots and headers of other slab pages lie outside a new page. */
  lemma OutsideNewPage(slabs: seq<nat>, page: nat, i: nat)
    requires forall j :: 0 <= j < |slabs| ==> slabs[j] % PAGE == 0
    requires NewPage(slabs, page) && i < |slabs|
    ensures Header(slabs[i]) !in ZeroPage(page) && Header(slabs[i]) != Header(page)
    ensures forall q :: SlotIn(slabs[i], q) ==> q !in ZeroPage(page)
  {
    hide ZeroPage, SlotIn, Header;
    assert slabs[i] in slabs;
    HeaderInPage(slabs[i]);
    HeaderInPage(page);
    OtherPage(page, slabs[i], Header(slabs[i]));
    forall q | SlotIn(slabs[i], q)
      ensures q !in ZeroPage(page)
    {
      SlotInPage(slabs[i], q);
      OtherPage(page, slabs[i], q);
    }
  }

  lemma HeaderInPage(page: nat)
    ensures page <= Header(page) < page + PAGE
  {
  }

  lemma SlotInPage(page: nat, q: nat)
    requires SlotIn(page, q)
    ensures page <= q < page + PAGE
  {
  }

  /** What lies in another page is not in a zeroed page. */
  lemma OtherPage(page: nat, other: nat, q: nat)
    requires page % PAGE == 0 && other % PAGE == 0 && page != other && other <= q < other + PAGE
    ensures q !in ZeroPage(page) && !(page <= q < page + PAGE)
  {
    hide ZeroPage;
    MulGap(page / PAGE, other / PAGE, PAGE);
    MulGap(other / PAGE, page / PAGE, PAGE);
    ZeroPageSlots(page, q);
    SlotBounds(page, q);
  }

  lemma SlotBounds(page: nat, q: nat)
    ensures SlotIn(page, q) || q == Header(page) ==> page <= q < page + PAGE
  {
  }

  lemma GrownNodes(mem: map<Ptr, Node>, slabs: seq<nat>, end: nat, page: nat, i: nat, p: Ptr)
    requires Chain(mem, slabs, end) && NewPage(slabs, page) && i < |slabs| && SlotIn(slabs[i], p)
    ensures var last := slabs[|slabs| - 1];
      && Header(last) in mem
      && var mem' := GrownMem(mem, last, page, p);
      && (forall j :: 0 <= j < |slabs| ==> Header(slabs[j]) in mem && Header(slabs[j]) in mem')
      && (forall j :: 0 <= j < |slabs| ==>
            mem'[Header(slabs[j])] ==
              if j == |slabs| - 1 then mem[Header(last)].(addr := page) else mem[Header(slabs[j])])
      && Header(page) in mem' && mem'[Header(page)] == ZERO_NODE.(size := NODES_PER_PAGE)
  {
    ChainSlot(mem, slabs, end, i, p);
    OutsideNewPage(slabs, page, i);
    ZeroPageSlots(page, Header(page));
    assert p != Header(page) by { ZeroPageSlots(page, p); }
    forall j | 0 <= j < |slabs|
      ensures Header(slabs[j]) !in ZeroPage(page) && Header(slabs[j]) != Header(page)
    {
      OutsideNewPage(slabs, page, j);
    }
  }

  lemma GrownSlots(mem: map<Ptr, Node>, slabs: seq<nat>, end: nat, page: nat, i: nat, p: Ptr, q: Ptr)
    requires Chain(mem, slabs, end) && NewPage(slabs, page) && i < |slabs| && SlotIn(slabs[i], p)
    requires Header(slabs[|slabs| - 1]) in mem && IsSlot(slabs + [page], q)
    ensures var mem' := GrownMem(mem, slabs[|slabs| - 1], page, p);
      && q in mem'
      && (q == p ==> mem'[q] == FRESH_NODE)
      && (q != p && SlotIn(page, q) ==> mem'[q] == ZERO_NODE && !IsSlot(slabs, q))
      && (q != p && !SlotIn(page, q) ==> IsSlot(slabs, q) && q in mem && mem'[q] == mem[q])
  {
    ZeroPageSlots(page, q);
    HeaderNotSlot(slabs, |slabs| - 1);
    var all := slabs + [page];
    var j :| 0 <= j < |all| && SlotIn(all[j], q);
    if SlotIn(page, q) {
      SlotPage(page, q);
      forall k | 0 <= k < |slabs|
        ensures !SlotIn(slabs[k], q)
      {
        OutsideNewPage(slabs, page, k);
      }
      assert !IsSlot(slabs, q);
      assert Header(slabs[|slabs| - 1]) != q by { OutsideNewPage(slabs, page, |slabs| - 1); }
    } else {
      assert all[j] == slabs[j];
      assert IsSlot(slabs, q);
      OutsideNewPage(slabs, page, j);
      ChainSlot(mem, slabs, end, j, q);
    }
  }

  lemma GrownChain(mem: map<Ptr, Node>, slabs: seq<nat>, end: nat, page: nat, i: nat, p: Ptr)
    requires Chain(mem, slabs, end) && NewPage(slabs, page) && i < |slabs| && SlotIn(slabs[i], p)
    requires Header(slabs[|slabs| - 1]) in mem
    ensures Chain(GrownMem(mem, slabs[|slabs| - 1], page, p), slabs + [page], 0)
  {
    hide GrownMem, IsSlot, SlotIn;
    GrownNodes(mem, slabs, end, page, i, p);
    var mem' := GrownMem(mem, slabs[|slabs| - 1], page, p);
    forall q | IsSlot(slabs + [page], q)
      ensures q in mem'
    {
      GrownSlots(mem, slabs, end, page, i, p, q);
    }
  }

  lemma GrownCounted(mem: map<Ptr, Node>, slabs: seq<nat>, end: nat, taken: set<Ptr>, page: nat, i: nat, p: Ptr)
    requires Chain(mem, slabs, end) && NewPage(slabs, page) && i < |slabs| && SlotIn(slabs[i], p)
    requires Header(slabs[|slabs| - 1]) in mem
    requires Counted(mem, slabs, taken) && forall q :: q in taken ==> IsSlot(slabs, q)
    ensures Counted(GrownMem(mem, slabs[|slabs| - 1], page, p), slabs + [page], taken)
  {
    hide GrownMem;
    GrownNodes(mem, slabs, end, page, i, p);
    forall j | 0 <= j < NODES_PER_PAGE
      ensures page + NODE_SIZE * j !in taken
    {
      var q := page + NODE_SIZE * j;
      SlotNumber(page, j);
      ZeroPageSlots(page, q);
      if IsSlot(slabs, q) {
        var k :| 0 <= k < |slabs| && SlotIn(slabs[k], q);
        OutsideNewPage(slabs, page, k);
      }
    }
    FreeInEmpty(taken, page, NODES_PER_PAGE);
  }

  lemma GrownMarked(mem: map<Ptr, Node>, slabs: seq<nat>, end: nat, taken: set<Ptr>, page: nat, i: nat, p: Ptr)
    requires Chain(mem, slabs, end) && NewPage(slabs, page) && i < |slabs| && SlotIn(slabs[i], p)
    requires Header(slabs[|slabs| - 1]) in mem
    requires Marked(mem, slabs, taken, p) && p in taken
    ensures Marked(GrownMem(mem, slabs[|slabs| - 1], page, p), slabs + [page], taken, 0)
  {
    hide GrownMem, SlotIn, IsSlot;
    var mem' := GrownMem(mem, slabs[|slabs| - 1], page, p);
    forall q | q in taken
      ensures IsSlot(slabs + [page], q)
    {
      IsSlotGrown(slabs, page, q);
    }
    forall q | IsSlot(slabs + [page], q)
      ensures q in mem' && (mem'[q].vald <==> q in taken && q != 0)
    {
      GrownSlots(mem, slabs, end, page, i, p, q);
      SlotPositive(mem, slabs, end, page, q);
    }
  }

  lemma IsSlotGrown(slabs: seq<nat>, page: nat, q: Ptr)
    requires IsSlot(slabs, q)
    ensures IsSlot(slabs + [page], q)
  {
    var j :| 0 <= j < |slabs| && SlotIn(slabs[j], q);
    assert (slabs + [page])[j] == slabs[j];
  }

  lemma SlotPositive(mem: map<Ptr, Node>, slabs: seq<nat>, end: nat, page: nat, q: Ptr)
    requires Chain(mem, slabs, end) && page > 0 && IsSlot(slabs + [page], q)
    ensures q > 0
  {
  }

  /** The store once the slab refill for the pending node `p` is complete. */
  ghost predicate IsGrown(st: State, st': State, page: nat) {
    && st.slabs != [] && Header(st.slabs[|st.slabs| - 1]) in st.mem
    && st' == st.(mem := GrownMem(st.mem, st.slabs[|st.slabs| - 1], page, st.pending),
                  slabs := st.slabs + [page],
                  pending := 0)
  }

  lemma GrownPool(st: State, st': State, page: nat, i: nat)
    requires PoolOk(st) && st.pending != 0 && NewPage(st.slabs, page) && IsGrown(st, st', page)
    requires i < |st.slabs| && SlotIn(st.slabs[i], st.pending)
    ensures PoolOk(st')
  {
    hide Chain, Counted, Marked, PoolOk, IsSlot, GrownMem, SlotIn;
    PoolParts(st);
    PoolSlots(st);
    GrownChain(st.mem, st.slabs, 1, page, i, st.pending);
    GrownCounted(st.mem, st.slabs, 1, st.owner.Keys, page, i, st.pending);
    GrownMarked(st.mem, st.slabs, 1, st.owner.Keys, page, i, st.pending);
    PoolFromParts(st', st.owner.Keys, 0);
  }

  lemma PoolSlots(st: State)
    requires PoolOk(st)
    ensures forall q :: q in st.owner ==> IsSlot(st.slabs, q)
    ensures st.pending != 0 ==> st.pending in st.owner && st.owner[st.pending] == Loose
  {
  }

  lemma GrownFrame(st: State, st': State, page: nat, i: nat)
    requires PoolOk(st) && st.pending != 0 && NewPage(st.slabs, page) && IsGrown(st, st', page)
    requires i < |st.slabs| && SlotIn(st.slabs[i], st.pending)
    ensures forall q :: q in st.owner && q != st.pending ==> q in st.mem && q in st'.mem && st'.mem[q] == st.mem[q]
    ensures st.pending in st'.mem && st'.mem[st.pending] == FRESH_NODE && LastFree(st') == NODES_PER_PAGE
  {
    hide PoolOk, Chain, GrownMem, Marked, Counted, SlotIn, IsSlot;
    PoolParts(st);
    PoolSlots(st);
    GrownNodes(st.mem, st.slabs, 1, page, i, st.pending);
    forall q | q in st.owner
      ensures q != st.pending ==> q in st.mem && q in st'.mem && st'.mem[q] == st.mem[q]
      ensures q == st.pending ==> q in st'.mem && st'.mem[q] == FRESH_NODE
    {
      IsSlotGrown(st.slabs, page, q);
      GrownSlots(st.mem, st.slabs, 1, page, i, st.pending, q);
    }
  }

  /** Completing a slab refill keeps the store well formed and changes no list. */
  lemma GrownOk(st: State, st': State, page: nat, i: nat)
    requires Structured(st) && st.pending != 0 && NewPage(st.slabs, page) && IsGrown(st, st', page)
    requires i < |st.slabs| && SlotIn(st.slabs[i], st.pending)
    ensures Structured(st')
    ensures forall r :: r in st.lists ==> Layout(st', r) == Layout(st, r)
    ensures forall q :: q in st.owner && q != st.pending ==> q in st.mem && q in st'.mem && st'.mem[q] == st.mem[q]
    ensures st.pending in st'.mem && st'.mem[st.pending] == FRESH_NODE && LastFree(st') == NODES_PER_PAGE
  {
    hide PoolOk, ListsOk, Ranges, GrownMem;
    GrownPool(st, st', page, i);
    GrownFrame(st, st', page, i);
    PoolSlots(st);
    ListsFrame(st, st');
  }

  // ---------------------------------------------------------------- searching the slabs

  lemma SlabFacts(st: State, k: nat)
    requires Structured(st) && st.pending == 0 && k < |st.slabs|
    ensures st.blockHeap == st.slabs[0] && Header(st.slabs[k]) in st.mem
    ensures k + 1 < |st.slabs| ==> st.mem[Header(st.slabs[k])].addr == st.slabs[k + 1]
    ensures k + 1 == |st.slabs| ==>
      LastFree(st) == st.mem[Header(st.slabs[k])].size && st.mem[Header(st.slabs[k])].addr == 0
    ensures st.slabs[k] > 0
  {
    PoolParts(st);
    hide PoolOk, ListsOk, Counted, Marked, IsSlot;
  }

  lemma FreeSlotOf(st: State, k: nat) returns (j: nat)
    requires Structured(st) && k < |st.slabs| && Header(st.slabs[k]) in st.mem && st.mem[Header(st.slabs[k])].size > 0
    ensures j < NODES_PER_PAGE && st.slabs[k] + NODE_SIZE * j !in st.owner
  {
    hide PoolOk, ListsOk, Counted, Marked, Chain;
    PoolParts(st);
    FreeSlotExists(st.mem, st.slabs, st.owner.Keys, k);
    j :| 0 <= j < NODES_PER_PAGE && st.slabs[k] + NODE_SIZE * j !in st.owner.Keys;
  }

  /** Node `p` exists and its VALD bit says whether it is taken. */
  ghost predicate SlotMarked(st: State, p: Ptr) {
    p in st.mem && (st.mem[p].vald <==> p in st.owner)
  }

  lemma SlotVald(st: State, k: nat, i: nat)
    requires Structured(st) && st.pending == 0 && k < |st.slabs| && i < NODES_PER_PAGE
    ensures SlotMarked(st, st.slabs[k] + NODE_SIZE * i)
  {
    hide PoolOk, ListsOk, Counted;
    PoolParts(st);
    SlotNumber(st.slabs[k], i);
    var p := st.slabs[k] + NODE_SIZE * i;
    ChainSlot(st.mem, st.slabs, 0, k, p);
    assert IsSlot(st.slabs, p);
  }

  lemma SomeSlab(st: State)
    requires Structured(st)
    ensures st.slabs != []
  {
    PoolParts(st);
  }
}
