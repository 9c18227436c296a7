/** The node memory of the block lists: slab pages of 127 nodes and a header each
    (vmm.c), and the doubly linked lists threaded through the nodes (pmm.h). A pointer is
    the physical address of the node: the code sets the high bits of the linear window in it,
    which adds a constant as long as the page lies below 512 GiB, where the window ends. 0 is
    the null pointer. */
module BlockNodes {
  import opened Layouts

  type Ptr = nat

  const NODE_SIZE: nat := 32
  const NODES_PER_PAGE: nat := 127
  const HEADER_OFFSET: nat := 4064

  /** Sizes live in a 56-bit field; every address handled here fits it. */
  const LIMIT: nat := 0x100_0000_0000_0000

  datatype Root = MemoryMap | Vmma(process: nat)

  datatype Owner = Loose | Of(root: Root)

  datatype Node = Node(prev: Ptr, next: Ptr, addr: nat, size: nat, kind: nat, vald: bool) {
    function Block(): Range { Range(addr, size, kind) }
  }

  const ZERO_NODE := Node(0, 0, 0, 0, 0, false)

  function PageOf(p: Ptr): nat { p / PAGE * PAGE }

  function Header(page: nat): Ptr { page + HEADER_OFFSET }

  predicate SlotIn(page: nat, p: Ptr) {
    page <= p < page + HEADER_OFFSET && (p - page) % NODE_SIZE == 0
  }

  ghost predicate IsSlot(slabs: seq<nat>, p: Ptr) {
    exists i :: 0 <= i < |slabs| && SlotIn(slabs[i], p)
  }

  /** Number of the first `n` slots of `page` that are not taken. */
  ghost function FreeIn(taken: set<Ptr>, page: nat, n: nat): nat {
    if n == 0 then 0
    else FreeIn(taken, page, n - 1) + (if page + NODE_SIZE * (n - 1) in taken then 0 else 1)
  }

  lemma FreeInOther(taken: set<Ptr>, p: Ptr, page: nat, n: nat)
    requires forall j :: 0 <= j < n ==> page + NODE_SIZE * j != p
    ensures FreeIn(taken + {p}, page, n) == FreeIn(taken, page, n)
    ensures FreeIn(taken - {p}, page, n) == FreeIn(taken, page, n)
  {
    if n > 0 { FreeInOther(taken, p, page, n - 1); }
  }

  /** Taking a slot lowers the page's count by one. */
  lemma FreeInTake(taken: set<Ptr>, j: nat, page: nat, n: nat)
    requires j < n && page + NODE_SIZE * j !in taken
    ensures FreeIn(taken, page, n) > 0
    ensures FreeIn(taken + {page + NODE_SIZE * j}, page, n) == FreeIn(taken, page, n) - 1
  {
    var p := page + NODE_SIZE * j;
    if j == n - 1 {
      FreeInOther(taken, p, page, n - 1);
    } else {
      FreeInTake(taken, j, page, n - 1);
    }
  }

  lemma FreeInFull(taken: set<Ptr>, page: nat, n: nat)
    requires forall j :: 0 <= j < n ==> page + NODE_SIZE * j in taken
    ensures FreeIn(taken, page, n) == 0
  {
    if n > 0 { FreeInFull(taken, page, n - 1); }
  }

  lemma FreeInEmpty(taken: set<Ptr>, page: nat, n: nat)
    requires forall j :: 0 <= j < n ==> page + NODE_SIZE * j !in taken
    ensures FreeIn(taken, page, n) == n
  {
    if n > 0 { FreeInEmpty(taken, page, n - 1); }
  }

  ghost predicate Distinct(ps: seq<Ptr>) {
    forall i, j :: 0 <= i < j < |ps| ==> ps[i] != ps[j]
  }

  /** The slab pages are distinct nonzero pages, chained through their headers; the last
      link is `end`. All their slots and headers are node memory. */
  ghost predicate Chain(mem: map<Ptr, Node>, slabs: seq<nat>, end: nat) {
    && slabs != [] && Distinct(slabs)
    && (forall i :: 0 <= i < |slabs| ==> slabs[i] > 0 && slabs[i] % PAGE == 0)
    && (forall i :: 0 <= i < |slabs| ==> Header(slabs[i]) in mem)
    && (forall p :: IsSlot(slabs, p) ==> p in mem)
    && mem[Header(slabs[|slabs| - 1])].addr == end
    && (forall i, j :: 0 <= i < j < |slabs| && j == i + 1 ==> mem[Header(slabs[i])].addr == slabs[j])
  }

  /** Header counts are the numbers of slots not taken. */
  ghost predicate Counted(mem: map<Ptr, Node>, slabs: seq<nat>, taken: set<Ptr>) {
    forall i :: 0 <= i < |slabs| && Header(slabs[i]) in mem ==>
      mem[Header(slabs[i])].size == FreeIn(taken, slabs[i], NODES_PER_PAGE)
  }

  /** The VALD bits are set exactly on the taken slots, the pending one excepted. */
  ghost predicate Marked(mem: map<Ptr, Node>, slabs: seq<nat>, taken: set<Ptr>, pending: Ptr) {
    && (forall p :: p in taken ==> IsSlot(slabs, p))
    && (forall p :: IsSlot(slabs, p) && p in mem ==> (mem[p].vald <==> p in taken && p != pending))
  }

  /** `ps` is the list of nodes reached from `head` by NEXT, with PREV its inverse. */
  ghost predicate Linked(mem: map<Ptr, Node>, head: Ptr, ps: seq<Ptr>) {
    && Distinct(ps)
    && head == (if ps == [] then 0 else ps[0])
    && (forall i :: 0 <= i < |ps| ==> ps[i] > 0 && ps[i] in mem)
    && (ps != [] ==> mem[ps[0]].prev == 0 && mem[ps[|ps| - 1]].next == 0)
    && (forall i, j :: 0 <= i < j < |ps| && j == i + 1 ==>
          mem[ps[i]].next == ps[j] && mem[ps[j]].prev == ps[i])
  }

  /** The layout the list denotes. */
  ghost function Ranges(mem: map<Ptr, Node>, ps: seq<Ptr>): (s: seq<Range>)
    ensures |s| == |ps|
    ensures forall i :: 0 <= i < |ps| && ps[i] in mem ==> s[i] == mem[ps[i]].Block()
  {
    seq(|ps|, i requires 0 <= i < |ps| => if ps[i] in mem then mem[ps[i]].Block() else Range(0, 0, 0))
  }

  lemma SlotPage(page: nat, p: Ptr)
    requires page % PAGE == 0 && SlotIn(page, p)
    ensures PageOf(p) == page && p == page + NODE_SIZE * ((p - page) / NODE_SIZE)
    ensures (p - page) / NODE_SIZE < NODES_PER_PAGE && p != Header(page)
  {
  }

  /** No header is a slot. */
  lemma HeaderNotSlot(slabs: seq<nat>, i: nat)
    requires forall i :: 0 <= i < |slabs| ==> slabs[i] % PAGE == 0
    requires i < |slabs|
    ensures !IsSlot(slabs, Header(slabs[i]))
  {
    forall j | 0 <= j < |slabs|
      ensures !SlotIn(slabs[j], Header(slabs[i]))
    {
    }
  }

  /** A taken or freed slot changes the count of its own page only. */
  lemma FreeInOtherPages(taken: set<Ptr>, slabs: seq<nat>, i: nat, p: Ptr)
    requires forall i :: 0 <= i < |slabs| ==> slabs[i] % PAGE == 0
    requires Distinct(slabs) && i < |slabs| && SlotIn(slabs[i], p)
    ensures forall j :: 0 <= j < |slabs| && j != i ==>
      && FreeIn(taken + {p}, slabs[j], NODES_PER_PAGE) == FreeIn(taken, slabs[j], NODES_PER_PAGE)
      && FreeIn(taken - {p}, slabs[j], NODES_PER_PAGE) == FreeIn(taken, slabs[j], NODES_PER_PAGE)
  {
    forall j | 0 <= j < |slabs| && j != i
      ensures FreeIn(taken + {p}, slabs[j], NODES_PER_PAGE) == FreeIn(taken, slabs[j], NODES_PER_PAGE)
      ensures FreeIn(taken - {p}, slabs[j], NODES_PER_PAGE) == FreeIn(taken, slabs[j], NODES_PER_PAGE)
    {
      FreeInOther(taken, p, slabs[j], NODES_PER_PAGE);
    }
  }

  // ---------------------------------------------------------------- the whole store

  /** The state of the block lists and their node memory. */
  datatype State = State(
    mem: map<Ptr, Node>,
    blockHeap: Ptr,
    heads: map<Root, Ptr>,
    slabs: seq<nat>,
    owner: map<Ptr, Owner>,
    lists: map<Root, seq<Ptr>>,
    pending: Ptr)

  /** The slab pages, their counts and VALD bits agree with who owns which node. */
  ghost predicate PoolOk(st: State) {
    match st
    case State(mem, blockHeap, heads, slabs, owner, lists, pending) =>
      && Chain(mem, slabs, if pending == 0 then 0 else 1)
      && blockHeap == slabs[0]
      && Counted(mem, slabs, owner.Keys)
      && Marked(mem, slabs, owner.Keys, pending)
      && (pending != 0 ==> pending in owner && owner[pending] == Loose)
  }

  /** The members of each list are exactly the nodes it owns. */
  ghost predicate Owned(owner: map<Ptr, Owner>, lists: map<Root, seq<Ptr>>) {
    && (forall r, p :: r in lists && p in lists[r] ==> p in owner && owner[p] == Of(r))
    && (forall p :: p in owner && owner[p].Of? ==> owner[p].root in lists && p in lists[owner[p].root])
  }

  /** Every list is properly linked and owns exactly the nodes marked as its own. */
  ghost predicate ListsOk(st: State) {
    match st
    case State(mem, blockHeap, heads, slabs, owner, lists, pending) =>
      && heads.Keys == lists.Keys && MemoryMap in lists
      && (forall r :: r in lists ==> Linked(mem, heads[r], lists[r]))
      && Owned(owner, lists)
  }

  ghost predicate Structured(st: State) {
    PoolOk(st) && ListsOk(st)
  }

  /** The layout of list `r`. */
  ghost function Layout(st: State, r: Root): seq<Range> {
    if r in st.lists then Ranges(st.mem, st.lists[r]) else []
  }

  lemma HeaderNotOwned(st: State, i: nat)
    requires PoolOk(st) && i < |st.slabs|
    ensures Header(st.slabs[i]) !in st.owner
  {
    HeaderNotSlot(st.slabs, i);
  }

  lemma OwnedInMem(st: State)
    requires PoolOk(st)
    ensures forall q :: q in st.owner ==> q in st.mem
  {
  }

  // ---------------------------------------------------------------- freeing a node

  function FreedMem(mem: map<Ptr, Node>, p: Ptr, h: Ptr): map<Ptr, Node>
    requires p in mem && h in mem && p != h
  {
    mem[p := mem[p].(vald := false)][h := mem[h].(size := mem[h].size + 1)]
  }

  lemma FreedChain(mem: map<Ptr, Node>, slabs: seq<nat>, end: nat, i: nat, p: Ptr)
    requires Chain(mem, slabs, end) && i < |slabs| && SlotIn(slabs[i], p)
    ensures p in mem && p != Header(slabs[i])
    ensures Chain(FreedMem(mem, p, Header(slabs[i])), slabs, end)
  {
    assert IsSlot(slabs, p);
    HeaderNotSlot(slabs, i);
    forall j | 0 <= j < |slabs|
      ensures Header(slabs[j]) != p
    {
      HeaderNotSlot(slabs, j);
    }
  }

  lemma FreedCounted(mem: map<Ptr, Node>, slabs: seq<nat>, end: nat, taken: set<Ptr>, i: nat, p: Ptr)
    requires Chain(mem, slabs, end) && Counted(mem, slabs, taken)
    requires i < |slabs| && SlotIn(slabs[i], p) && p in taken && p in mem && p != Header(slabs[i])
    ensures Counted(FreedMem(mem, p, Header(slabs[i])), slabs, taken - {p})
  {
    FreeInOtherPages(taken, slabs, i, p);
    SlotPage(slabs[i], p);
    var j := (p - slabs[i]) / NODE_SIZE;
    FreeInTake(taken - {p}, j, slabs[i], NODES_PER_PAGE);
    assert taken - {p} + {p} == taken;
    forall j | 0 <= j < |slabs|
      ensures Header(slabs[j]) != p
    {
      HeaderNotSlot(slabs, j);
    }
  }

  lemma FreedMarked(mem: map<Ptr, Node>, slabs: seq<nat>, taken: set<Ptr>, pending: Ptr, i: nat, p: Ptr)
    requires forall i :: 0 <= i < |slabs| ==> slabs[i] % PAGE == 0
    requires Marked(mem, slabs, taken, pending) && p in taken && p != pending
    requires i < |slabs| && SlotIn(slabs[i], p) && p in mem && Header(slabs[i]) in mem && p != Header(slabs[i])
    ensures Marked(FreedMem(mem, p, Header(slabs[i])), slabs, taken - {p}, pending)
  {
    HeaderNotSlot(slabs, i);
  }

  lemma LinkedFrame(mem: map<Ptr, Node>, mem': map<Ptr, Node>, head: Ptr, ps: seq<Ptr>)
    requires Linked(mem, head, ps)
    requires forall i :: 0 <= i < |ps| ==> ps[i] in mem' && mem'[ps[i]] == mem[ps[i]]
    ensures Linked(mem', head, ps) && Ranges(mem', ps) == Ranges(mem, ps)
  {
  }

  /** What freeing a node does to the store: VALD cleared, one more free slot counted. */
  ghost function Freed(st: State, i: nat, p: Ptr): State
    requires i < |st.slabs| && p in st.mem && Header(st.slabs[i]) in st.mem && p != Header(st.slabs[i])
  {
    st.(mem := FreedMem(st.mem, p, Header(st.slabs[i])), owner := st.owner - {p})
  }

  lemma SlotInMem(st: State, i: nat, p: Ptr)
    requires PoolOk(st) && i < |st.slabs| && SlotIn(st.slabs[i], p)
    ensures p in st.mem && Header(st.slabs[i]) in st.mem && p != Header(st.slabs[i])
  {
    assert IsSlot(st.slabs, p);
  }

  /** The pool invariant once node `p` has been given up, from its parts. */
  lemma PoolWithout(st: State, st': State, p: Ptr)
    requires PoolOk(st) && p != st.pending
    requires st' == st.(mem := st'.mem, owner := st.owner - {p})
    requires Chain(st'.mem, st.slabs, if st.pending == 0 then 0 else 1)
    requires Counted(st'.mem, st.slabs, st.owner.Keys - {p})
    requires Marked(st'.mem, st.slabs, st.owner.Keys - {p}, st.pending)
    ensures PoolOk(st')
  {
    hide Chain, Counted, Marked;
    assert st'.owner.Keys == st.owner.Keys - {p};
  }

  lemma SlabOf(st: State, p: Ptr) returns (i: nat)
    requires Structured(st) && p in st.owner
    ensures i < |st.slabs| && SlotIn(st.slabs[i], p) && PageOf(p) == st.slabs[i]
  {
    i :| 0 <= i < |st.slabs| && SlotIn(st.slabs[i], p);
    SlotPage(st.slabs[i], p);
  }

  lemma FreedPoolOk(st: State, i: nat, p: Ptr)
    requires PoolOk(st) && p in st.owner && p != st.pending
    requires i < |st.slabs| && SlotIn(st.slabs[i], p)
    ensures p in st.mem && p != Header(st.slabs[i]) && PoolOk(Freed(st, i, p))
  {
    var end := if st.pending == 0 then 0 else 1;
    SlotInMem(st, i, p);
    FreedChain(st.mem, st.slabs, end, i, p);
    FreedCounted(st.mem, st.slabs, end, st.owner.Keys, i, p);
    FreedMarked(st.mem, st.slabs, st.owner.Keys, st.pending, i, p);
    PoolWithout(st, Freed(st, i, p), p);
  }

  lemma FreedMemFrame(mem: map<Ptr, Node>, taken: set<Ptr>, p: Ptr, h: Ptr)
    requires p in mem && h in mem && p != h
    requires h !in taken && forall q :: q in taken ==> q in mem
    ensures forall q :: q in taken && q != p ==> q in FreedMem(mem, p, h) && FreedMem(mem, p, h)[q] == mem[q]
  {
  }

  lemma FreedFrame(st: State, i: nat, p: Ptr)
    requires PoolOk(st) && p in st.owner
    requires i < |st.slabs| && SlotIn(st.slabs[i], p) && p in st.mem && p != Header(st.slabs[i])
    ensures forall q :: q in st.owner && q != p ==>
      q in st.mem && q in Freed(st, i, p).mem && Freed(st, i, p).mem[q] == st.mem[q]
  {
    HeaderNotOwned(st, i);
    OwnedInMem(st);
    FreedMemFrame(st.mem, st.owner.Keys, p, Header(st.slabs[i]));
  }

  /** A list survives any change of the store that keeps its own nodes. */
  lemma ListKept(st: State, mem': map<Ptr, Node>, r: Root)
    requires ListsOk(st) && r in st.lists
    requires forall q :: q in st.owner && st.owner[q] == Of(r) ==> q in st.mem && q in mem' && mem'[q] == st.mem[q]
    ensures Linked(mem', st.heads[r], st.lists[r])
    ensures Ranges(mem', st.lists[r]) == Layout(st, r)
  {
    forall i | 0 <= i < |st.lists[r]|
      ensures st.lists[r][i] in mem' && st.lists[r][i] in st.mem && mem'[st.lists[r][i]] == st.mem[st.lists[r][i]]
    {
      assert st.lists[r][i] in st.lists[r];
    }
    LinkedFrame(st.mem, mem', st.heads[r], st.lists[r]);
  }

  lemma OwnedFrame(owner: map<Ptr, Owner>, owner': map<Ptr, Owner>, lists: map<Root, seq<Ptr>>)
    requires Owned(owner, lists)
    requires forall p :: p in owner && owner[p].Of? ==> p in owner' && owner'[p] == owner[p]
    requires forall p :: p in owner' && owner'[p].Of? ==> p in owner && owner[p] == owner'[p]
    ensures Owned(owner', lists)
  {
  }

  /** Lists survive any change of the store that keeps their nodes and their ownership. */
  lemma ListsFrame(st: State, st': State)
    requires ListsOk(st) && st'.heads == st.heads && st'.lists == st.lists
    requires forall p :: p in st.owner && st.owner[p].Of? ==>
      p in st'.owner && st'.owner[p] == st.owner[p] && p in st.mem && p in st'.mem && st'.mem[p] == st.mem[p]
    requires forall p :: p in st'.owner && st'.owner[p].Of? ==> p in st.owner && st.owner[p] == st'.owner[p]
    ensures ListsOk(st')
    ensures forall r :: r in st.lists ==> Layout(st', r) == Layout(st, r)
  {
    hide Linked, Owned, Ranges;
    OwnedFrame(st.owner, st'.owner, st.lists);
    forall r | r in st.lists
      ensures Linked(st'.mem, st.heads[r], st.lists[r]) && Layout(st', r) == Layout(st, r)
    {
      ListKept(st, st'.mem, r);
    }
  }

  lemma FreedListsOk(st: State, i: nat, p: Ptr)
    requires Structured(st) && p in st.owner && st.owner[p] == Loose
    requires i < |st.slabs| && SlotIn(st.slabs[i], p) && p in st.mem && p != Header(st.slabs[i])
    ensures ListsOk(Freed(st, i, p))
    ensures forall r :: r in st.lists ==> Layout(Freed(st, i, p), r) == Layout(st, r)
  {
    hide PoolOk, ListsOk, Layout, FreedMem;
    SlotInMem(st, i, p);
    FreedFrame(st, i, p);
    ListsFrame(st, Freed(st, i, p));
  }

  // ---------------------------------------------------------------- relinking

  /** Changing links and ranges of owned nodes keeps the pool invariant. */
  lemma PoolFrame(st: State, st': State)
    requires PoolOk(st)
    requires st'.slabs == st.slabs && st'.blockHeap == st.blockHeap && st'.pending == st.pending
    requires st'.owner.Keys == st.owner.Keys && st'.mem.Keys == st.mem.Keys
    requires st.pending != 0 ==> st'.owner[st.pending] == Loose
    requires forall p :: p in st.mem && p !in st.owner ==> st'.mem[p] == st.mem[p]
    requires forall p :: p in st.mem && p in st.owner ==> st'.mem[p].vald == st.mem[p].vald
    ensures PoolOk(st')
  {
    forall i | 0 <= i < |st.slabs|
      ensures Header(st.slabs[i]) in st.mem && st'.mem[Header(st.slabs[i])] == st.mem[Header(st.slabs[i])]
    {
      HeaderNotOwned(st, i);
    }
    ChainFrame(st.mem, st'.mem, st.slabs, if st.pending == 0 then 0 else 1);
    assert Marked(st'.mem, st.slabs, st.owner.Keys, st.pending);
  }

  lemma ChainFrame(mem: map<Ptr, Node>, mem': map<Ptr, Node>, slabs: seq<nat>, end: nat)
    requires Chain(mem, slabs, end) && mem'.Keys == mem.Keys
    requires forall i :: 0 <= i < |slabs| ==> mem'[Header(slabs[i])] == mem[Header(slabs[i])]
    ensures Chain(mem', slabs, end)
  {
  }

  /** Bypassing node `i` leaves a properly linked list of the others. */
  lemma LinkedWithout(mem: map<Ptr, Node>, mem': map<Ptr, Node>, head: Ptr, head': Ptr, ps: seq<Ptr>, i: nat)
    requires Linked(mem, head, ps) && i < |ps|
    requires forall j :: 0 <= j < |ps| ==> ps[j] in mem'
    requires forall j :: 0 <= j < |ps| ==> mem'[ps[j]].next == if j + 1 == i then mem[ps[i]].next else mem[ps[j]].next
    requires forall j :: 0 <= j < |ps| ==> mem'[ps[j]].prev == if j == i + 1 then mem[ps[i]].prev else mem[ps[j]].prev
    requires head' == if i == 0 then mem[ps[i]].next else head
    ensures Linked(mem', head', Without(ps, i))
  {
    var qs := Without(ps, i);
    assert forall j :: 0 <= j < |qs| ==> qs[j] == if j < i then ps[j] else ps[j + 1];
    if i + 1 < |ps| {
      assert mem[ps[i]].next == ps[i + 1] && mem[ps[i + 1]].prev == ps[i];
    }
    if i > 0 {
      assert mem[ps[i - 1]].next == ps[i] && mem[ps[i]].prev == ps[i - 1];
    }
    forall j, k | 0 <= j < k < |qs| && k == j + 1
      ensures mem'[qs[j]].next == qs[k] && mem'[qs[k]].prev == qs[j]
    {
      if k < i {
        assert mem[ps[j]].next == ps[k];
      } else if j >= i {
        assert mem[ps[j + 1]].next == ps[k + 1];
      }
    }
  }

  /** The nodes of a list with one more. */
  lemma WithAt(ps: seq<Ptr>, i: nat, p: Ptr)
    requires i <= |ps|
    ensures var qs := With(ps, i, p);
      |qs| == |ps| + 1 && forall j :: 0 <= j < |qs| ==>
          qs[j] == if j < i then ps[j] else if j == i then p else ps[j - 1]
    ensures Distinct(ps) && p !in ps ==> Distinct(With(ps, i, p))
  {
  }

  /** Putting `p` between node `i - 1` and node `i` gives a properly linked list. */
  lemma LinkedWith(mem: map<Ptr, Node>, mem': map<Ptr, Node>, head: Ptr, head': Ptr, ps: seq<Ptr>, i: nat, p: Ptr)
    requires Linked(mem, head, ps) && i <= |ps| && p !in ps && p > 0 && p in mem'
    requires forall j :: 0 <= j < |ps| ==> ps[j] in mem'
    requires forall j :: 0 <= j < |ps| ==> mem'[ps[j]].next == if j + 1 == i then p else mem[ps[j]].next
    requires forall j :: 0 <= j < |ps| ==> mem'[ps[j]].prev == if j == i then p else mem[ps[j]].prev
    requires mem'[p].prev == if i == 0 then 0 else ps[i - 1]
    requires mem'[p].next == if i == |ps| then 0 else ps[i]
    requires head' == if i == 0 then p else head
    ensures Linked(mem', head', With(ps, i, p))
  {
    hide Distinct;
    var qs := With(ps, i, p);
    WithAt(ps, i, p);
    forall j, k | 0 <= j < k < |qs| && k == j + 1
      ensures mem'[qs[j]].next == qs[k] && mem'[qs[k]].prev == qs[j]
    {
      if k < i {
        assert mem[ps[j]].next == ps[k];
      } else if j > i {
        assert mem[ps[j - 1]].next == ps[k - 1];
      }
    }
  }

  /** Ownership after node `p` left list `root`, or entered it. */
  lemma OwnedWith(st: State, st': State, root: Root, p: Ptr)
    requires Owned(st.owner, st.lists) && root in st.lists && p in st.owner
    requires st'.lists.Keys == st.lists.Keys && st'.owner.Keys == st.owner.Keys
    requires forall r :: r in st.lists && r != root ==> st'.lists[r] == st.lists[r]
    requires forall q :: q in st.owner && q != p ==> st'.owner[q] == st.owner[q]
    requires st.owner[p] == Loose || st.owner[p] == Of(root)
    requires st'.owner[p] == Loose || st'.owner[p] == Of(root)
    requires forall q :: q in st'.lists[root] <==>
      (q in st.lists[root] && q != p) || (q == p && st'.owner[p] == Of(root))
    ensures Owned(st'.owner, st'.lists)
  {
  }

  /** All lists stay well formed when node `p` leaves list `root`, or enters it. */
  lemma ListsWith(st: State, st': State, root: Root, p: Ptr)
    requires ListsOk(st) && root in st.lists && p in st.owner
    requires st'.lists.Keys == st.lists.Keys && st'.heads.Keys == st.heads.Keys
    requires forall r :: r in st.lists && r != root ==> st'.lists[r] == st.lists[r] && st'.heads[r] == st.heads[r]
    requires forall q :: q in st.owner && st.owner[q] != Of(root) && q != p ==>
      q in st.mem && q in st'.mem && st'.mem[q] == st.mem[q]
    requires st.owner[p] == Loose || st.owner[p] == Of(root)
    requires Linked(st'.mem, st'.heads[root], st'.lists[root])
    requires Owned(st'.owner, st'.lists)
    ensures ListsOk(st')
    ensures forall r :: r in st.lists && r != root ==> Layout(st', r) == Layout(st, r)
  {
    hide Linked, Owned, Ranges;
    forall r | r in st.lists && r != root
      ensures Linked(st'.mem, st'.heads[r], st'.lists[r]) && Layout(st', r) == Layout(st, r)
    {
      ListKept(st, st'.mem, r);
    }
  }

  lemma WithoutMembers(ps: seq<Ptr>, i: nat)
    requires Distinct(ps) && i < |ps|
    ensures forall q :: q in Without(ps, i) <==> q in ps && q != ps[i]
  {
    var qs := Without(ps, i);
    forall q | q in ps && q != ps[i]
      ensures q in qs
    {
      var j :| 0 <= j < |ps| && ps[j] == q;
      assert qs[if j < i then j else j - 1] == q;
    }
    forall q | q in qs
      ensures q in ps && q != ps[i]
    {
      var j :| 0 <= j < |qs| && qs[j] == q;
      assert q == ps[if j < i then j else j + 1];
    }
  }

  lemma WithMembers(ps: seq<Ptr>, i: nat, p: Ptr)
    requires i <= |ps|
    ensures forall q :: q in With(ps, i, p) <==> q in ps || q == p
  {
    var qs := With(ps, i, p);
    assert qs[i] == p;
    forall q | q in ps
      ensures q in qs
    {
      var j :| 0 <= j < |ps| && ps[j] == q;
      assert qs[if j < i then j else j + 1] == q;
    }
  }
}
