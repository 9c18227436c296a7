/** What each store of the list code of pmm.c and vmm.c does to the well-formedness of the
    block lists, as facts about two stores. */
module ListSteps {
  import opened Layouts
  import opened BlockNodes

  /** A block the allocator handles: page aligned, above page 0, below the field limit. */
  predicate Placed(r: Range) {
    r.addr > 0 && r.addr % PAGE == 0 && r.size % PAGE == 0 && r.End() < LIMIT
  }

  ghost predicate AllPlaced(s: seq<Range>) {
    forall i :: 0 <= i < |s| ==> Placed(s[i])
  }

  /** Physical memory blocks carry the type of free memory. */
  ghost predicate AllFree(s: seq<Range>) {
    forall i :: 0 <= i < |s| ==> s[i].kind == 0
  }

  ghost predicate ClearOfSlabs(s: seq<Range>, slabs: seq<nat>) {
    forall i :: 0 <= i < |slabs| ==> Apart(s, Range(slabs[i], PAGE, 0))
  }

  /** Between two stores nothing outside list `root` and the nodes `extra` changed. */
  ghost predicate OnlyList(st: State, st': State, root: Root, extra: set<Ptr>) {
    && st'.lists.Keys == st.lists.Keys
    && (forall r :: r in st.lists && r != root ==> st'.lists[r] == st.lists[r] && Layout(st', r) == Layout(st, r))
    && (forall p :: p in st.owner && st.owner[p] != Of(root) && p !in extra ==>
          && p in st'.owner && st'.owner[p] == st.owner[p]
          && p in st.mem && p in st'.mem && st'.mem[p] == st.mem[p])
    && (forall p :: p in st'.owner && st'.owner[p] != Of(root) && p !in extra ==>
          p in st.owner && st.owner[p] == st'.owner[p])
  }

  /** Free slots counted by the header of the last slab page. */
  ghost function LastFree(st: State): nat {
    if st.slabs != [] && Header(st.slabs[|st.slabs| - 1]) in st.mem
    then st.mem[Header(st.slabs[|st.slabs| - 1])].size
    else 0
  }

  /** Node `p`, which no list holds, went back to its slab page; nothing else changed. */
  ghost predicate NodeFreed(st: State, st': State, p: Ptr) {
    && Structured(st')
    && st' == st.(mem := st'.mem, owner := st.owner - {p})
    && (forall r :: r in st.lists ==> Layout(st', r) == Layout(st, r))
    && (forall q :: q in st'.owner ==> q in st.mem && q in st'.mem && st'.mem[q] == st.mem[q])
    && LastFree(st') >= LastFree(st)
  }

  lemma FreedIsNodeFreed(st: State, i: nat, p: Ptr)
    requires Structured(st) && p in st.owner && st.owner[p] == Loose && p != st.pending
    requires i < |st.slabs| && SlotIn(st.slabs[i], p)
    ensures p in st.mem && Header(st.slabs[i]) in st.mem && p != Header(st.slabs[i])
    ensures NodeFreed(st, Freed(st, i, p), p)
  {
    hide Owned, Linked, Chain, Counted, Marked, Ranges;
    SlotInMem(st, i, p);
    HeaderNotOwned(st, |st.slabs| - 1);
    FreedPoolOk(st, i, p);
    FreedListsOk(st, i, p);
    FreedFrame(st, i, p);
  }

  // ---------------------------------------------------------------- unlinking, purely

  function UnlinkedMem(mem: map<Ptr, Node>, blk: Ptr): map<Ptr, Node>
    requires blk in mem
    requires mem[blk].prev != 0 ==> mem[blk].prev in mem
    requires mem[blk].next != 0 ==> mem[blk].next in mem
  {
    var l, r := mem[blk].prev, mem[blk].next;
    var m := if l != 0 then mem[l := mem[l].(next := r)] else mem;
    if r != 0 then m[r := m[r].(prev := l)] else m
  }

  function UnlinkedHeads(heads: map<Root, Ptr>, root: Root, n: Node): map<Root, Ptr> {
    if n.prev != 0 then heads else heads[root := n.next]
  }

  /** The neighbours of a linked node. */
  lemma Neighbours(mem: map<Ptr, Node>, head: Ptr, ps: seq<Ptr>, i: nat)
    requires Linked(mem, head, ps) && i < |ps|
    ensures ps[i] in mem && ps[i] > 0
    ensures mem[ps[i]].prev == if i == 0 then 0 else ps[i - 1]
    ensures mem[ps[i]].next == if i + 1 == |ps| then 0 else ps[i + 1]
    ensures i > 0 ==> ps[i - 1] in mem && ps[i - 1] > 0 && ps[i - 1] != ps[i]
    ensures i + 1 < |ps| ==> ps[i + 1] in mem && ps[i + 1] > 0 && ps[i + 1] != ps[i]
  {
    if i > 0 { assert mem[ps[i]].prev == ps[i - 1]; }
    if i + 1 < |ps| { assert mem[ps[i]].next == ps[i + 1]; }
  }

  lemma UnlinkedLinked(mem: map<Ptr, Node>, heads: map<Root, Ptr>, root: Root, ps: seq<Ptr>, i: nat)
    requires root in heads && Linked(mem, heads[root], ps) && i < |ps|
    ensures ps[i] in mem
    ensures mem[ps[i]].prev != 0 ==> mem[ps[i]].prev in mem
    ensures mem[ps[i]].next != 0 ==> mem[ps[i]].next in mem
    ensures Linked(UnlinkedMem(mem, ps[i]), UnlinkedHeads(heads, root, mem[ps[i]])[root], Without(ps, i))
  {
    Neighbours(mem, heads[root], ps, i);
    var mem' := UnlinkedMem(mem, ps[i]);
    forall j | 0 <= j < |ps|
      ensures mem'[ps[j]].next == if j + 1 == i then mem[ps[i]].next else mem[ps[j]].next
      ensures mem'[ps[j]].prev == if j == i + 1 then mem[ps[i]].prev else mem[ps[j]].prev
    {
    }
    LinkedWithout(mem, mem', heads[root], UnlinkedHeads(heads, root, mem[ps[i]])[root], ps, i);
  }

  /** Only `p` and nodes of list `root` differ between the two node memories, and no VALD bit. */
  ghost predicate OnlyNodes(st: State, mem': map<Ptr, Node>, root: Root, p: Ptr) {
    && mem'.Keys == st.mem.Keys
    && (forall q :: q in st.mem && q != p && (q !in st.owner || st.owner[q] != Of(root)) ==> mem'[q] == st.mem[q])
    && (forall q :: q in st.mem ==> mem'[q].vald == st.mem[q].vald)
  }

  /** As above, and no block's range differs either. */
  ghost predicate OnlyLinks(st: State, mem': map<Ptr, Node>, root: Root, p: Ptr) {
    && OnlyNodes(st, mem', root, p)
    && (forall q :: q in st.mem ==> mem'[q].Block() == st.mem[q].Block())
  }

  lemma ListNode(st: State, root: Root, i: nat)
    requires ListsOk(st) && root in st.lists && i < |st.lists[root]|
    ensures root in st.heads && Linked(st.mem, st.heads[root], st.lists[root])
    ensures st.lists[root][i] in st.owner && st.owner[st.lists[root][i]] == Of(root)
  {
    assert st.lists[root][i] in st.lists[root];
  }

  /** The neighbours of a list node are nodes of the same list. */
  lemma NeighboursOwned(st: State, root: Root, i: nat)
    requires ListsOk(st) && root in st.lists && i < |st.lists[root]|
    ensures var b := st.lists[root][i];
      && b in st.mem
      && (st.mem[b].prev != 0 ==>
          st.mem[b].prev in st.mem && st.mem[b].prev in st.owner && st.owner[st.mem[b].prev] == Of(root))
      && (st.mem[b].next != 0 ==>
          st.mem[b].next in st.mem && st.mem[b].next in st.owner && st.owner[st.mem[b].next] == Of(root))
  {
    ListNode(st, root, i);
    Neighbours(st.mem, st.heads[root], st.lists[root], i);
    if i > 0 { ListNode(st, root, i - 1); }
    if i + 1 < |st.lists[root]| { ListNode(st, root, i + 1); }
  }

  lemma UnlinkedOnlyLinks(st: State, root: Root, b: Ptr)
    requires b in st.mem
    requires st.mem[b].prev != 0 ==>
      st.mem[b].prev in st.mem && st.mem[b].prev in st.owner && st.owner[st.mem[b].prev] == Of(root)
    requires st.mem[b].next != 0 ==>
      st.mem[b].next in st.mem && st.mem[b].next in st.owner && st.owner[st.mem[b].next] == Of(root)
    ensures OnlyLinks(st, UnlinkedMem(st.mem, b), root, b)
  {
  }

  lemma RelinkedPool(st: State, st': State, root: Root, p: Ptr)
    requires PoolOk(st) && p in st.owner && p != st.pending
    requires st'.owner.Keys == st.owner.Keys
    requires forall q :: q in st.owner && q != p ==> st'.owner[q] == st.owner[q]
    requires st'.slabs == st.slabs && st'.blockHeap == st.blockHeap && st'.pending == st.pending
    requires OnlyNodes(st, st'.mem, root, p)
    ensures PoolOk(st')
  {
    assert st.pending != 0 ==> st.pending in st.owner && st.owner[st.pending] == Loose;
    hide PoolOk;
    PoolFrame(st, st');
  }

  /** Structure after a change of links in list `root` and of one node's ownership. */
  lemma RelinkedOk(st: State, st': State, root: Root, p: Ptr)
    requires Structured(st) && root in st.lists && p in st.owner && p != st.pending
    requires st.owner[p] == Loose || st.owner[p] == Of(root)
    requires p in st'.owner && (st'.owner[p] == Loose || st'.owner[p] == Of(root))
    requires st'.owner == st.owner[p := st'.owner[p]]
    requires st'.slabs == st.slabs && st'.blockHeap == st.blockHeap && st'.pending == st.pending
    requires st'.lists.Keys == st.lists.Keys && st'.heads.Keys == st.heads.Keys
    requires forall r :: r in st.lists && r != root ==>
      r in st.heads && st'.lists[r] == st.lists[r] && st'.heads[r] == st.heads[r]
    requires OnlyNodes(st, st'.mem, root, p)
    requires Linked(st'.mem, st'.heads[root], st'.lists[root])
    requires forall q :: q in st'.lists[root] <==>
      (q in st.lists[root] && q != p) || (q == p && st'.owner[p] == Of(root))
    ensures Structured(st') && OnlyList(st, st', root, {p})
  {
    hide Linked, Chain, Counted, Marked, Ranges, PoolOk, Owned;
    RelinkedPool(st, st', root, p);
    OwnedInMem(st);
    OwnedWith(st, st', root, p);
    ListsWith(st, st', root, p);
  }

  /** Node `i` of list `root` left the list and went back to its slab page. */
  ghost predicate BlockDeleted(st: State, st': State, root: Root, i: nat) {
    && root in st.lists && i < |st.lists[root]|
    && Structured(st') && OnlyList(st, st', root, {})
    && st'.slabs == st.slabs && st'.blockHeap == st.blockHeap && st'.pending == st.pending
    && st'.owner == st.owner - {st.lists[root][i]}
    && st'.lists == st.lists[root := Without(st.lists[root], i)]
    && Layout(st', root) == Without(Layout(st, root), i)
    && (forall q :: q in st'.owner ==> q in st.mem && q in st'.mem && st'.mem[q].Block() == st.mem[q].Block())
    && LastFree(st') >= LastFree(st)
  }

  lemma RangesWithout(mem: map<Ptr, Node>, mem': map<Ptr, Node>, ps: seq<Ptr>, i: nat)
    requires i < |ps|
    requires forall j :: 0 <= j < |ps| ==> ps[j] in mem && ps[j] in mem' && mem'[ps[j]].Block() == mem[ps[j]].Block()
    ensures Ranges(mem', Without(ps, i)) == Without(Ranges(mem, ps), i)
  {
  }

  /** The store after node `i` of list `root` was bypassed and belongs to no list. */
  ghost predicate IsUnlinked(st: State, st': State, root: Root, i: nat) {
    && root in st.lists && root in st.heads && i < |st.lists[root]|
    && var b := st.lists[root][i];
    && b in st.mem
    && (st.mem[b].prev != 0 ==> st.mem[b].prev in st.mem)
    && (st.mem[b].next != 0 ==> st.mem[b].next in st.mem)
    && st' == st.(mem := UnlinkedMem(st.mem, b),
                  heads := UnlinkedHeads(st.heads, root, st.mem[b]),
                  owner := st.owner[b := Loose],
                  lists := st.lists[root := Without(st.lists[root], i)])
  }

  lemma CanUnlink(st: State, root: Root, i: nat)
    requires Structured(st) && root in st.lists && i < |st.lists[root]|
    ensures root in st.heads
    ensures var b := st.lists[root][i];
      && b in st.mem
      && (st.mem[b].prev != 0 ==> st.mem[b].prev in st.mem)
      && (st.mem[b].next != 0 ==> st.mem[b].next in st.mem)
  {
    ListNode(st, root, i);
    NeighboursOwned(st, root, i);
  }

  lemma UnlinkedParts(st: State, st': State, root: Root, i: nat)
    requires Structured(st) && IsUnlinked(st, st', root, i)
    ensures var b := st.lists[root][i];
      && b in st.owner && st.owner[b] == Of(root) && b != st.pending
      && OnlyLinks(st, st'.mem, root, b)
      && Linked(st'.mem, st'.heads[root], Without(st.lists[root], i))
      && Distinct(st.lists[root])
  {
    ListNode(st, root, i);
    NeighboursOwned(st, root, i);
    UnlinkedOnlyLinks(st, root, st.lists[root][i]);
    UnlinkedLinked(st.mem, st.heads, root, st.lists[root], i);
  }

  lemma UnlinkedOk(st: State, st': State, root: Root, i: nat)
    requires Structured(st) && IsUnlinked(st, st', root, i)
    ensures Structured(st') && OnlyList(st, st', root, {st.lists[root][i]})
    ensures st.lists[root][i] in st.owner && st.owner[st.lists[root][i]] == Of(root) && st.lists[root][i] != st.pending
    ensures Layout(st', root) == Without(Layout(st, root), i)
    ensures OnlyLinks(st, st'.mem, root, st.lists[root][i])
  {
    hide Structured, OnlyList, Linked;
    var ps := st.lists[root];
    var b := ps[i];
    UnlinkedParts(st, st', root, i);
    InMem(st, root);
    RangesWithout(st.mem, st'.mem, ps, i);
    WithoutMembers(ps, i);
    HeadsOf(st);
    RelinkedOk(st, st', root, b);
  }

  lemma InMem(st: State, root: Root)
    requires Structured(st) && root in st.lists
    ensures forall j :: 0 <= j < |st.lists[root]| ==> st.lists[root][j] in st.mem
  {
  }

  lemma HeadsOf(st: State)
    requires Structured(st)
    ensures st.heads.Keys == st.lists.Keys && MemoryMap in st.lists
  {
  }

  lemma UnlinkedLast(st: State, st': State, root: Root, i: nat)
    requires Structured(st) && IsUnlinked(st, st', root, i)
    requires OnlyLinks(st, st'.mem, root, st.lists[root][i]) && st.lists[root][i] in st.owner
    ensures LastFree(st') == LastFree(st)
  {
    HeaderNotOwned(st, |st.slabs| - 1);
  }

  lemma DeletedOk(st: State, st1: State, st2: State, root: Root, i: nat)
    requires Structured(st) && IsUnlinked(st, st1, root, i)
    requires NodeFreed(st1, st2, st.lists[root][i])
    ensures BlockDeleted(st, st2, root, i)
  {
    hide Structured, Ranges, Layout, LastFree, Linked, UnlinkedMem, UnlinkedHeads;
    var b := st.lists[root][i];
    UnlinkedOk(st, st1, root, i);
    UnlinkedLast(st, st1, root, i);
    assert st2.owner == st.owner - {b};
  }

  // ---------------------------------------------------------------- reshaping a block

  /** Block `i` of list `root` now spans `r`. */
  ghost predicate IsReshaped(st: State, st': State, root: Root, i: nat, r: Range) {
    && root in st.lists && i < |st.lists[root]| && st.lists[root][i] in st.mem
    && var p := st.lists[root][i];
    && r.kind == st.mem[p].kind
    && st' == st.(mem := st.mem[p := st.mem[p].(addr := r.addr, size := r.size)])
  }

  lemma LinkedReshaped(mem: map<Ptr, Node>, head: Ptr, ps: seq<Ptr>, i: nat, r: Range)
    requires Linked(mem, head, ps) && i < |ps| && r.kind == mem[ps[i]].kind
    ensures var mem' := mem[ps[i] := mem[ps[i]].(addr := r.addr, size := r.size)];
      Linked(mem', head, ps) && Ranges(mem', ps) == Ranges(mem, ps)[i := r]
  {
  }

  lemma ReshapedOk(st: State, st': State, root: Root, i: nat, r: Range)
    requires Structured(st) && IsReshaped(st, st', root, i, r)
    ensures Structured(st') && OnlyList(st, st', root, {})
    ensures Layout(st', root) == Layout(st, root)[i := r]
    ensures LastFree(st') == LastFree(st)
  {
    hide OnlyList, Linked, Ranges, Structured;
    var p := st.lists[root][i];
    CanReshape(st, root, i);
    LinkedReshaped(st.mem, st.heads[root], st.lists[root], i, r);
    HeadsOf(st);
    MembersOwned(st, root);
    assert p in st.lists[root];
    assert st.owner[p := st.owner[p]] == st.owner;
    RelinkedOk(st, st', root, p);
    OnlyListNarrow(st, st', root, p);
    LastFreeKept(st, st', root, p);
  }

  lemma CanReshape(st: State, root: Root, i: nat)
    requires Structured(st) && root in st.lists && i < |st.lists[root]|
    ensures var p := st.lists[root][i];
      && p in st.owner && st.owner[p] == Of(root) && p != st.pending && p in st.mem
      && root in st.heads && Linked(st.mem, st.heads[root], st.lists[root])
  {
    ListNode(st, root, i);
  }

  lemma MembersOwned(st: State, root: Root)
    requires Structured(st) && root in st.lists
    ensures forall q :: q in st.lists[root] ==> q in st.owner && st.owner[q] == Of(root)
  {
    hide PoolOk, Linked;
  }

  lemma OnlyListNarrow(st: State, st': State, root: Root, p: Ptr)
    requires OnlyList(st, st', root, {p}) && p in st.owner && st.owner[p] == Of(root)
    requires p in st'.owner ==> st'.owner[p] == Of(root)
    ensures OnlyList(st, st', root, {})
  {
  }

  // ---------------------------------------------------------------- linking a block in

  /** Node `blk` was put before position `i` of list `root`. */
  ghost predicate IsLinkedIn(st: State, st': State, root: Root, i: nat, blk: Ptr) {
    && root in st.lists && i <= |st.lists[root]|
    && var ps := st.lists[root];
    && st'.mem.Keys == st.mem.Keys && st'.heads.Keys == st.heads.Keys
    && (forall q :: q in st.mem ==> st'.mem[q] == st.mem[q].(
          prev := if q == blk then (if i == 0 then 0 else ps[i - 1])
                  else if i < |ps| && q == ps[i] then blk else st.mem[q].prev,
          next := if q == blk then (if i == |ps| then 0 else ps[i])
                  else if i > 0 && q == ps[i - 1] then blk else st.mem[q].next))
    && root in st.heads
    && st'.heads == (if i == 0 then st.heads[root := blk] else st.heads)
    && st' == st.(mem := st'.mem, heads := st'.heads, owner := st.owner[blk := Of(root)],
                  lists := st.lists[root := With(ps, i, blk)])
  }

  /** The stores of the linking code in order: the cell, then PREV and NEXT. */
  function LinkInMem(mem: map<Ptr, Node>, prev: Ptr, node: Ptr, blk: Ptr): map<Ptr, Node>
    requires blk in mem && (prev != 0 ==> prev in mem) && (node != 0 ==> node in mem)
  {
    var m := if prev != 0 then mem[prev := mem[prev].(next := blk)] else mem;
    var m := m[blk := m[blk].(prev := prev)];
    if node != 0 then
      var m := m[blk := m[blk].(next := node)];
      m[node := m[node].(prev := blk)]
    else m
  }

  lemma LinkInMemIs(st: State, st': State, root: Root, i: nat, prev: Ptr, node: Ptr, blk: Ptr)
    requires root in st.lists && root in st.heads && i <= |st.lists[root]| && blk in st.mem
    requires prev == if i == 0 then 0 else st.lists[root][i - 1]
    requires node == if i == |st.lists[root]| then 0 else st.lists[root][i]
    requires i > 0 ==> prev in st.mem && prev != blk && prev > 0
    requires i < |st.lists[root]| ==> node in st.mem && node != blk && node > 0
    requires i > 0 && i < |st.lists[root]| ==> prev != node
    requires st.mem[blk].next == 0
    requires st' == st.(mem := LinkInMem(st.mem, prev, node, blk),
                        heads := if i == 0 then st.heads[root := blk] else st.heads,
                        owner := st.owner[blk := Of(root)],
                        lists := st.lists[root := With(st.lists[root], i, blk)])
    ensures IsLinkedIn(st, st', root, i, blk)
  {
  }

  lemma LinkedInOnly(st: State, st': State, root: Root, i: nat, blk: Ptr)
    requires IsLinkedIn(st, st', root, i, blk)
    requires forall q :: q in st.lists[root] ==> q in st.owner && st.owner[q] == Of(root)
    ensures OnlyLinks(st, st'.mem, root, blk)
  {
    var ps := st.lists[root];
    if i > 0 { assert ps[i - 1] in ps; }
    if i < |ps| { assert ps[i] in ps; }
  }

  lemma LinkedInLinked(mem: map<Ptr, Node>, mem': map<Ptr, Node>, head: Ptr, head': Ptr, ps: seq<Ptr>, i: nat, blk: Ptr)
    requires Linked(mem, head, ps) && i <= |ps| && blk !in ps && blk > 0 && blk in mem && mem'.Keys == mem.Keys
    requires forall q :: q in mem ==> mem'[q] == mem[q].(
          prev := if q == blk then (if i == 0 then 0 else ps[i - 1])
                  else if i < |ps| && q == ps[i] then blk else mem[q].prev,
          next := if q == blk then (if i == |ps| then 0 else ps[i])
                  else if i > 0 && q == ps[i - 1] then blk else mem[q].next)
    requires head' == if i == 0 then blk else head
    ensures Linked(mem', head', With(ps, i, blk))
  {
    LinkedWith(mem, mem', head, head', ps, i, blk);
  }

  lemma LinkedInParts(st: State, st': State, root: Root, i: nat, blk: Ptr)
    requires Structured(st) && IsLinkedIn(st, st', root, i, blk)
    requires blk in st.owner && st.owner[blk] == Loose
    ensures blk !in st.lists[root]
    ensures OnlyLinks(st, st'.mem, root, blk)
    ensures Linked(st'.mem, st'.heads[root], With(st.lists[root], i, blk))
  {
    hide Structured, Linked, OnlyLinks;
    MembersOwned(st, root);
    LinkedInOnly(st, st', root, i, blk);
    BlkInMem(st, blk);
    ListLinked(st, root);
    LinkedInLinked(st.mem, st'.mem, st.heads[root], st'.heads[root], st.lists[root], i, blk);
  }

  lemma ListLinked(st: State, root: Root)
    requires Structured(st) && root in st.lists
    ensures root in st.heads && Linked(st.mem, st.heads[root], st.lists[root])
  {
  }

  lemma BlkInMem(st: State, blk: Ptr)
    requires Structured(st) && blk in st.owner
    ensures blk in st.mem && blk > 0
  {
  }

  lemma RangesWith(mem: map<Ptr, Node>, mem': map<Ptr, Node>, ps: seq<Ptr>, i: nat, p: Ptr)
    requires i <= |ps| && p in mem'
    requires forall j :: 0 <= j < |ps| ==> ps[j] in mem && ps[j] in mem' && mem'[ps[j]].Block() == mem[ps[j]].Block()
    ensures Ranges(mem', With(ps, i, p)) == With(Ranges(mem, ps), i, mem'[p].Block())
  {
  }

  lemma LinkedInOk(st: State, st': State, root: Root, i: nat, blk: Ptr)
    requires Structured(st) && IsLinkedIn(st, st', root, i, blk)
    requires blk in st.owner && st.owner[blk] == Loose && blk != st.pending
    ensures Structured(st') && OnlyList(st, st', root, {blk})
    ensures blk in st.mem && Layout(st', root) == With(Layout(st, root), i, st.mem[blk].Block())
    ensures LastFree(st') == LastFree(st)
  {
    hide Structured, OnlyList, Linked;
    LinkedInParts(st, st', root, i, blk);
    BlkInMem(st, blk);
    InMem(st, root);
    RangesWith(st.mem, st'.mem, st.lists[root], i, blk);
    WithMembers(st.lists[root], i, blk);
    HeadsOf(st);
    RelinkedOk(st, st', root, blk);
    LastFreeKept(st, st', root, blk);
  }

  lemma LastFreeKept(st: State, st': State, root: Root, p: Ptr)
    requires Structured(st) && st'.slabs == st.slabs && OnlyNodes(st, st'.mem, root, p) && p in st.owner
    ensures LastFree(st') == LastFree(st)
  {
    HeaderNotOwned(st, |st.slabs| - 1);
  }

  // ---------------------------------------------------------------- the insertion walk

  /** The walk has passed the first `i` blocks. */
  ghost predicate Passed(s: seq<Range>, b: Range, i: nat) {
    i <= |s| && Insert(s, b) == s[..i] + Insert(s[i..], b)
  }

  lemma PassOne(s: seq<Range>, b: Range, i: nat)
    requires Passed(s, b, i) && i < |s|
    requires !Absorbs(s[i], b) && !Absorbs(b, s[i]) && s[i].addr < b.addr
    ensures Passed(s, b, i + 1)
  {
    assert s[i..][0] == s[i] && s[i..][1..] == s[i + 1..];
    assert s[..i] + [s[i]] == s[..i + 1];
  }

  lemma Tail(s: seq<Range>, i: nat)
    requires i < |s|
    ensures s[i..][0] == s[i] && s[i..][1..] == s[i + 1..]
    ensures i + 1 < |s| ==> s[i..][1] == s[i + 1] && s[i..][2..] == s[i + 2..]
  {
  }

  /** The walk ends by linking the new block in before position `i`. */
  lemma WalkLinks(s: seq<Range>, b: Range, i: nat)
    requires Passed(s, b, i)
    requires i < |s| ==> !Absorbs(s[i], b) && !Absorbs(b, s[i]) && s[i].addr >= b.addr
    ensures Insert(s, b) == With(s, i, b)
  {
    if i < |s| { Tail(s, i); }
    assert s[..i] + ([b] + s[i..]) == With(s, i, b);
  }

  /** The walk ends with the new block growing downwards over block `i`. */
  lemma WalkOverwrites(s: seq<Range>, b: Range, i: nat)
    requires Passed(s, b, i) && i < |s| && !Absorbs(s[i], b) && Absorbs(b, s[i])
    ensures Insert(s, b) == s[i := Join(b, s[i])]
  {
    Tail(s, i);
    assert s[..i] + ([Join(b, s[i])] + s[i + 1..]) == s[i := Join(b, s[i])];
  }

  /** Block `i` merged with its right neighbour if it absorbs it. */
  ghost function MergeAt(s: seq<Range>, i: nat): seq<Range>
    requires i < |s|
  {
    if i + 1 < |s| && Absorbs(s[i], s[i + 1]) then Without(s[i := Join(s[i], s[i + 1])], i + 1) else s
  }

  /** The walk ends with block `i` growing over the new block, and then perhaps over its
      right neighbour. */
  lemma WalkAbsorbs(s: seq<Range>, b: Range, i: nat)
    requires Passed(s, b, i) && i < |s| && Absorbs(s[i], b)
    ensures Insert(s, b) == MergeAt(s[i := Join(s[i], b)], i)
  {
    Tail(s, i);
    var m := Join(s[i], b);
    var t := s[i := m];
    if i + 1 < |s| && Absorbs(m, s[i + 1]) {
      var n := Join(m, s[i + 1]);
      assert s[..i] + ([n] + s[i + 2..]) == Without(t[i := n], i + 1);
    } else {
      assert s[..i] + ([m] + s[i + 1..]) == t;
    }
  }

  /** The store stayed well formed, only list `root` changed, and node `blk` belongs to
      that list or to nobody. */
  ghost predicate ListStep(st: State, st': State, root: Root, blk: Ptr) {
    && root in st.lists && blk in st.mem
    && Structured(st') && OnlyList(st, st', root, {blk})
    && st'.slabs == st.slabs && st'.blockHeap == st.blockHeap && st'.pending == st.pending
    && st'.owner.Keys <= st.owner.Keys && (blk in st'.owner ==> st'.owner[blk] == Of(root))
    && LastFree(st') >= LastFree(st)
  }

  /** Node `blk` went into list `root`, as a node of its own or merged into its neighbours. */
  ghost predicate BlockInserted(st: State, st': State, root: Root, blk: Ptr) {
    && ListStep(st, st', root, blk)
    && Layout(st', root) == Insert(Layout(st, root), st.mem[blk].Block())
  }

  lemma OnlyListTrans(st: State, st1: State, st2: State, root: Root, extra: set<Ptr>)
    requires OnlyList(st, st1, root, extra) && OnlyList(st1, st2, root, extra)
    ensures OnlyList(st, st2, root, extra)
  {
  }

  lemma OnlyListWiden(st: State, st': State, root: Root, extra: set<Ptr>)
    requires OnlyList(st, st', root, {})
    ensures OnlyList(st, st', root, extra)
  {
  }

  lemma FreedOnlyList(st: State, st': State, root: Root, p: Ptr)
    requires NodeFreed(st, st', p)
    ensures OnlyList(st, st', root, {p})
  {
    hide Structured, Layout, LastFree;
  }

  /** Block `i` absorbed the block of node `blk`, and `blk` was freed. */
  lemma AbsorbFirst(st: State, st1: State, st2: State, root: Root, i: nat, r: Range, blk: Ptr)
    requires Structured(st) && IsReshaped(st, st1, root, i, r) && NodeFreed(st1, st2, blk)
    requires blk in st.owner
    ensures ListStep(st, st2, root, blk) && blk !in st2.owner
    ensures Layout(st2, root) == Layout(st, root)[i := r]
    ensures st2.lists == st.lists && st2.pending == st.pending
  {
    ReshapedOk(st, st1, root, i, r);
    FreedOnlyList(st1, st2, root, blk);
    BlkInMem(st, blk);
    hide Structured, OnlyList;
    OnlyListWiden(st, st1, root, {blk});
    OnlyListTrans(st, st1, st2, root, {blk});
  }

  /** The absorbing block `i` also took over its right neighbour, which was deleted. */
  lemma AbsorbSecond(st: State, st2: State, st3: State, st4: State, root: Root, i: nat, r: Range, blk: Ptr)
    requires ListStep(st, st2, root, blk) && blk !in st2.owner
    requires IsReshaped(st2, st3, root, i, r) && BlockDeleted(st3, st4, root, i + 1)
    ensures ListStep(st, st4, root, blk)
    ensures Layout(st4, root) == Without(Layout(st2, root)[i := r], i + 1)
  {
    ReshapedOk(st2, st3, root, i, r);
    hide Structured, OnlyList;
    OnlyListWiden(st2, st3, root, {blk});
    OnlyListWiden(st3, st4, root, {blk});
    OnlyListTrans(st, st2, st3, root, {blk});
    OnlyListTrans(st, st3, st4, root, {blk});
  }

  lemma StepStructured(st: State, st': State, root: Root, blk: Ptr)
    requires ListStep(st, st', root, blk)
    ensures Structured(st')
  {
  }

  /** The nodes around a position of the list are list nodes, and `blk` is none of them. */
  lemma BesidePosition(st: State, root: Root, i: nat, blk: Ptr)
    requires Structured(st) && root in st.lists && i <= |st.lists[root]|
    requires blk in st.owner && st.owner[blk] == Loose
    ensures var ps := st.lists[root];
      && (i > 0 ==> ps[i - 1] in st.mem && ps[i - 1] != blk && ps[i - 1] > 0)
      && (i < |ps| ==> ps[i] in st.mem && ps[i] != blk && ps[i] > 0)
      && (i > 0 && i < |ps| ==> ps[i - 1] != ps[i])
  {
    if i > 0 { ListNode(st, root, i - 1); }
    if i < |st.lists[root]| { ListNode(st, root, i); }
  }

  lemma ReplacedEnds(s: seq<Range>, t: seq<Range>, i: nat, b: Range)
    requires AllPlaced(s) && i < |s| && t == s[i := Join(s[i], b)] && b.End() < LIMIT
    ensures forall j :: 0 <= j < |t| ==> t[j].End() < LIMIT
  {
  }

  lemma PassNone(s: seq<Range>, b: Range)
    ensures Passed(s, b, 0)
  {
    assert s[0..] == s;
  }

  lemma LooseVald(st: State, blk: Ptr)
    requires Structured(st) && blk in st.owner && blk != st.pending
    ensures blk in st.mem && st.mem[blk].vald && blk > 0
  {
    NodeVald(st, blk);
  }

  /** What the link cell before position `i` holds. */
  lemma WalkAt(st: State, root: Root, i: nat)
    requires Structured(st) && root in st.lists && i <= |st.lists[root]|
    ensures root in st.heads && |Layout(st, root)| == |st.lists[root]|
    ensures i == 0 ==> st.heads[root] == if |st.lists[root]| == 0 then 0 else st.lists[root][0]
    ensures i > 0 ==> st.lists[root][i - 1] in st.mem
    ensures i > 0 ==> st.mem[st.lists[root][i - 1]].next == if i == |st.lists[root]| then 0 else st.lists[root][i]
    ensures i < |st.lists[root]| ==> st.lists[root][i] > 0
  {
    ListLinked(st, root);
    if i > 0 { Neighbours(st.mem, st.heads[root], st.lists[root], i - 1); }
    if i < |st.lists[root]| { Neighbours(st.mem, st.heads[root], st.lists[root], i); }
  }

  /** Facts about the list a walk is in. */
  lemma AtNode(st: State, root: Root, i: nat)
    requires Structured(st) && root in st.lists && i < |st.lists[root]|
    ensures var p := st.lists[root][i];
      && p in st.owner && st.owner[p] == Of(root) && p != st.pending && p > 0
      && p in st.mem && st.mem[p].vald && st.mem[p].Block() == Layout(st, root)[i]
      && st.mem[p].next == (if i + 1 == |st.lists[root]| then 0 else st.lists[root][i + 1])
      && (i + 1 < |st.lists[root]| ==> st.lists[root][i + 1] > 0)
      && |Layout(st, root)| == |st.lists[root]|
  {
    ListNode(st, root, i);
    Neighbours(st.mem, st.heads[root], st.lists[root], i);
    NodeVald(st, st.lists[root][i]);
  }

  lemma NodeVald(st: State, p: Ptr)
    requires PoolOk(st) && p in st.owner && p != st.pending
    ensures p in st.mem && st.mem[p].vald && p > 0
  {
    assert IsSlot(st.slabs, p);
  }

  /** Writing a node that is in no list changes no list. */
  lemma LooseSetOk(st: State, st': State, root: Root, blk: Ptr, n: Node)
    requires Structured(st) && root in st.lists && blk in st.owner && st.owner[blk] == Loose && blk != st.pending
    requires blk in st.mem && n.vald == st.mem[blk].vald && st' == st.(mem := st.mem[blk := n])
    ensures Structured(st') && OnlyList(st, st', root, {blk})
    ensures Layout(st', root) == Layout(st, root) && LastFree(st') == LastFree(st)
  {
    hide Linked, OnlyList, Structured, Ranges;
    MembersOwned(st, root);
    ListLinked(st, root);
    HeadsOf(st);
    LooseFrame(st, st', root, blk);
    assert st.owner[blk := st.owner[blk]] == st.owner;
    RelinkedOk(st, st', root, blk);
    LastFreeKept(st, st', root, blk);
  }

  lemma LooseFrame(st: State, st': State, root: Root, blk: Ptr)
    requires root in st.lists && root in st.heads && Linked(st.mem, st.heads[root], st.lists[root])
    requires forall q :: q in st.lists[root] ==> q in st.owner && st.owner[q] == Of(root)
    requires blk in st.owner && st.owner[blk] == Loose
    requires st'.mem.Keys == st.mem.Keys && forall q :: q in st.mem && q != blk ==> st'.mem[q] == st.mem[q]
    ensures Linked(st'.mem, st.heads[root], st.lists[root])
    ensures Ranges(st'.mem, st.lists[root]) == Ranges(st.mem, st.lists[root])
  {
    forall i | 0 <= i < |st.lists[root]|
      ensures st.lists[root][i] != blk
    {
      assert st.lists[root][i] in st.lists[root];
    }
    LinkedFrame(st.mem, st'.mem, st.heads[root], st.lists[root]);
  }

  /** The new block grew over block `i`, which took its range; `blk` was freed. */
  lemma OverwriteDone(st: State, st1: State, st2: State, st3: State, root: Root, i: nat, r: Range, blk: Ptr)
    requires Structured(st) && root in st.lists && blk in st.owner && st.owner[blk] == Loose && blk != st.pending
    requires blk in st.mem && st1 == st.(mem := st.mem[blk := st.mem[blk].(size := r.size)])
    requires IsReshaped(st1, st2, root, i, r) && NodeFreed(st2, st3, blk)
    ensures ListStep(st, st3, root, blk)
    ensures Layout(st3, root) == Layout(st, root)[i := r]
  {
    LooseSetOk(st, st1, root, blk, st.mem[blk].(size := r.size));
    AbsorbFirst(st1, st2, st3, root, i, r, blk);
    hide Structured, OnlyList;
    OnlyListTrans(st, st1, st3, root, {blk});
  }

  /** Node `blk` was linked in before position `i`. */
  lemma LinkDone(st: State, st': State, root: Root, i: nat, blk: Ptr)
    requires Structured(st) && IsLinkedIn(st, st', root, i, blk)
    requires blk in st.owner && st.owner[blk] == Loose && blk != st.pending
    ensures ListStep(st, st', root, blk)
    ensures Layout(st', root) == With(Layout(st, root), i, st.mem[blk].Block())
  {
    hide Structured, OnlyList;
    LinkedInOk(st, st', root, i, blk);
  }
}
