/** The block lists and the page-run allocator (pmm.c, and vmm_alloc / vmm_free /
    vmm_alloc_node / vmm_free_node / setup_memory of vmm.c) over mutable node memory.
    Every method is proved against the pure layout operations of `Layouts`. */
module PageAllocator {
  import opened Layouts
  import opened BlockNodes
  import opened ListSteps
  import opened SlabSteps
  import opened NodeCounts
  import opened AllocatorState
  import opened AllocatorTheorems

  /** The C pointer to a cell that holds a list pointer: a list root or a NEXT field. */
  datatype LinkRef = RootCell(root: Root) | NextCell(node: Ptr)

  /** The 56-bit SIZE field. */
  function Field56(x: nat): nat { x % LIMIT }

  class Vmm {
    var mem: map<Ptr, Node>
    var blockHeap: Ptr
    var heads: map<Root, Ptr>

    /** The slab pages in chain order. */
    ghost var slabs: seq<nat>
    /** Who holds each taken node. */
    ghost var owner: map<Ptr, Owner>
    /** The nodes of each list in order. */
    ghost var lists: map<Root, seq<Ptr>>
    /** The node chosen by a node allocation whose slab refill is still running, or 0. */
    ghost var pending: Ptr

    ghost function View(): State
      reads this
    {
      State(mem, blockHeap, heads, slabs, owner, lists, pending)
    }

    constructor ()
      ensures Pristine(View())
    {
      mem, blockHeap, heads := map[], 0, map[MemoryMap := 0];
      slabs, owner, lists, pending := [], map[], map[MemoryMap := []], 0;
    }

    // ------------------------------------------------------------ cells

    function Load(ref: LinkRef): Ptr
      requires ref.RootCell? ==> ref.root in heads
      requires ref.NextCell? ==> ref.node in mem
      reads this
    {
      match ref
      case RootCell(r) => heads[r]
      case NextCell(p) => mem[p].next
    }

    method Store(ref: LinkRef, p: Ptr)
      requires ref.RootCell? ==> ref.root in heads
      requires ref.NextCell? ==> ref.node in mem
      modifies this`mem, this`heads
      ensures heads == if ref.RootCell? then old(heads)[ref.root := p] else old(heads)
      ensures mem == if ref.NextCell? then old(mem)[ref.node := old(mem)[ref.node].(next := p)] else old(mem)
    {
      match ref
      case RootCell(r) => heads := heads[r := p];
      case NextCell(q) => mem := mem[q := mem[q].(next := p)];
    }

    // ------------------------------------------------------------ pmm.c

    /** pmm_merge: `dst` takes over `src` if it absorbs it. */
    method Merge(dst: Ptr, src: Ptr) returns (merged: bool)
      requires dst in mem && src in mem
      requires mem[dst].Block().End() < LIMIT && mem[src].Block().End() < LIMIT
      modifies this`mem
      ensures merged == (old(mem)[dst].vald && old(mem)[src].vald &&
        Absorbs(old(mem)[dst].Block(), old(mem)[src].Block()))
      ensures mem == if !merged then old(mem) else
        old(mem)[dst := old(mem)[dst].(size := Join(old(mem)[dst].Block(), old(mem)[src].Block()).size)]
    {
      var d, s := mem[dst], mem[src];
      if !d.vald || !s.vald {
        return false;
      }
      if d.kind != s.kind {
        return false;
      }
      if s.addr >= d.addr && s.addr <= d.addr + d.size {
        var z := s.addr + s.size;
        if d.addr + d.size > z {
          z := d.addr + d.size;
        }
        mem := mem[dst := d.(size := Field56(z - d.addr))];
        return true;
      }
      return false;
    }

    /** vmm_free_node: give node `p` back to its slab page. */
    method FreeNode(p: Ptr)
      requires Structured(View()) && p in owner && owner[p] == Loose && p != pending
      modifies this`mem, this`owner
      ensures NodeFreed(old(View()), View(), p)
    {
      hide Structured, NodeFreed, SlotIn;
      ghost var st := View();
      ghost var i := SlabOf(st, p);
      FreedIsNodeFreed(st, i, p);
      var h := Header(PageOf(p));
      mem := mem[p := mem[p].(vald := false)];
      mem := mem[h := mem[h].(size := mem[h].size + 1)];
      owner := owner - {p};
      assert View() == Freed(st, i, p);
    }

    /** pmm_delete_link: take node `i` out of list `root` and free it. */
    method DeleteLink(root: Root, blk: Ptr, ghost i: nat)
      requires Structured(View()) && root in lists && i < |lists[root]| && blk == lists[root][i]
      modifies this`mem, this`heads, this`owner, this`lists
      ensures BlockDeleted(old(View()), View(), root, i)
    {
      hide Structured, BlockDeleted, NodeFreed, OnlyList, OnlyLinks;
      ghost var st := View();
      CanUnlink(st, root, i);
      var lnode, rnode := mem[blk].prev, mem[blk].next;
      if lnode != 0 {
        Store(NextCell(lnode), mem[blk].next);
      } else {
        Store(RootCell(root), mem[blk].next);
      }
      if rnode != 0 {
        mem := mem[rnode := mem[rnode].(prev := lnode)];
      }
      owner := owner[blk := Loose];
      lists := lists[root := Without(lists[root], i)];
      ghost var st1 := View();
      assert IsUnlinked(st, st1, root, i);
      UnlinkedOk(st, st1, root, i);
      FreeNode(blk);
      DeletedOk(st, st1, View(), root, i);
    }

    /** The end of the walk where `node` has just absorbed `blk` (pmm.c:41-45). */
    method AfterAbsorb(root: Root, node: Ptr, blk: Ptr, ghost i: nat, ghost st: State, ghost b: Range)
      requires Structured(st) && root in st.lists && i < |st.lists[root]| && node == st.lists[root][i]
      requires IsReshaped(st, View(), root, i, Join(Layout(st, root)[i], b))
      requires blk in st.owner && st.owner[blk] == Loose && blk != st.pending && b == st.mem[blk].Block()
      requires AllPlaced(Layout(st, root)) && b.End() < LIMIT
      requires Passed(Layout(st, root), b, i) && Absorbs(Layout(st, root)[i], b)
      modifies this
      ensures BlockInserted(st, View(), root, blk)
    {
      hide Structured, NodeFreed, Passed, ListStep, Insert, AllPlaced, Join, Absorbs;
      ghost var s := Layout(st, root);
      ghost var m := Join(s[i], b);
      ghost var st1 := View();
      ReshapedOk(st, st1, root, i, m);
      WalkAbsorbs(s, b, i);
      FreeNode(blk);
      ghost var st2 := View();
      AbsorbFirst(st, st1, st2, root, i, m, blk);
      StepStructured(st, st2, root, blk);
      ReplacedEnds(s, Layout(st2, root), i, b);
      AtNode(st2, root, i);
      var next := mem[node].next;
      if next != 0 {
        MergeNext(root, node, next, i, st, blk);
      }
    }

    /** Merging `node` with its right neighbour `next` if they now touch (pmm.c:43-44). */
    method MergeNext(root: Root, node: Ptr, next: Ptr, ghost i: nat, ghost st: State, ghost blk: Ptr)
      requires ListStep(st, View(), root, blk) && blk !in owner
      requires root in lists && i + 1 < |lists[root]| && node == lists[root][i] && next == lists[root][i + 1]
      requires forall j :: 0 <= j < |Layout(View(), root)| ==> Layout(View(), root)[j].End() < LIMIT
      modifies this
      ensures ListStep(st, View(), root, blk)
      ensures Layout(View(), root) == MergeAt(Layout(old(View()), root), i)
    {
      hide Structured, BlockDeleted, ListStep;
      ghost var st2 := View();
      ghost var s := Layout(st2, root);
      StepStructured(st, st2, root, blk);
      AtNode(st2, root, i);
      AtNode(st2, root, i + 1);
      var merged := Merge(node, next);
      if merged {
        ghost var st3 := View();
        ReshapedOk(st2, st3, root, i, Join(s[i], s[i + 1]));
        DeleteLink(root, next, i + 1);
        AbsorbSecond(st, st2, st3, View(), root, i, Join(s[i], s[i + 1]), blk);
      }
    }

    /** The end of the walk where `blk` has just taken over `node` (pmm.c:48-52). */
    method AfterOverwrite(root: Root, node: Ptr, blk: Ptr, ghost i: nat, ghost st: State)
      requires Structured(st) && root in st.lists && i < |st.lists[root]| && node == st.lists[root][i]
      requires blk in st.owner && st.owner[blk] == Loose && blk != st.pending && blk in st.mem
      requires Passed(Layout(st, root), st.mem[blk].Block(), i)
      requires !Absorbs(Layout(st, root)[i], st.mem[blk].Block()) && Absorbs(st.mem[blk].Block(), Layout(st, root)[i])
      requires var joined := Join(st.mem[blk].Block(), Layout(st, root)[i]);
        View() == st.(mem := st.mem[blk := st.mem[blk].(size := joined.size)])
      modifies this
      ensures BlockInserted(st, View(), root, blk)
    {
      hide Structured, NodeFreed, Passed, ListStep, Insert, OnlyList;
      ghost var r := Join(st.mem[blk].Block(), Layout(st, root)[i]);
      ghost var st1 := View();
      LooseSetOk(st, st1, root, blk, st.mem[blk].(size := r.size));
      WalkOverwrites(Layout(st, root), st.mem[blk].Block(), i);
      AtNode(st, root, i);
      mem := mem[node := mem[node].(addr := mem[blk].addr)];
      mem := mem[node := mem[node].(size := mem[blk].size)];
      ghost var st2 := View();
      ReshapedOk(st1, st2, root, i, r);
      FreeNode(blk);
      OverwriteDone(st, st1, st2, View(), root, i, r, blk);
    }

    /** The end of the walk that links `blk` in before `node` (pmm.c:56-60), or, with no
        node left, at the end of the list (pmm.c:65-66). */
    method LinkBefore(root: Root, lref: LinkRef, prev: Ptr, node: Ptr, blk: Ptr, ghost i: nat)
      requires Structured(View()) && root in lists && i <= |lists[root]|
      requires lref == if i == 0 then RootCell(root) else NextCell(lists[root][i - 1])
      requires prev == if i == 0 then 0 else lists[root][i - 1]
      requires node == if i == |lists[root]| then 0 else lists[root][i]
      requires blk in owner && owner[blk] == Loose && blk != pending && blk in mem && mem[blk].next == 0
      requires Passed(Layout(View(), root), mem[blk].Block(), i)
      requires i < |lists[root]| ==>
        var a, b := Layout(View(), root)[i], mem[blk].Block();
        !Absorbs(a, b) && !Absorbs(b, a) && a.addr >= b.addr
      modifies this`mem, this`heads, this`owner, this`lists
      ensures BlockInserted(old(View()), View(), root, blk)
    {
      hide Structured, Passed, ListStep, Insert, IsLinkedIn;
      ghost var st := View();
      WalkLinks(Layout(st, root), mem[blk].Block(), i);
      HeadsOf(st);
      BesidePosition(st, root, i, blk);
      Store(lref, blk);
      mem := mem[blk := mem[blk].(prev := prev)];
      if node != 0 {
        mem := mem[blk := mem[blk].(next := node)];
        mem := mem[node := mem[node].(prev := blk)];
      }
      owner := owner[blk := Of(root)];
      lists := lists[root := With(lists[root], i, blk)];
      assert mem == LinkInMem(st.mem, prev, node, blk);
      LinkInMemIs(st, View(), root, i, prev, node, blk);
      LinkDone(st, View(), root, i, blk);
    }

    /** pmm_insert_link: put the block of node `blk` into list `root`. */
    method InsertLink(root: Root, blk: Ptr)
      requires Structured(View()) && root in lists
      requires blk in owner && owner[blk] == Loose && blk != pending
      requires blk in mem && mem[blk].next == 0 && mem[blk].Block().End() < LIMIT
      requires AllPlaced(Layout(View(), root))
      modifies this
      ensures BlockInserted(old(View()), View(), root, blk)
    {
      hide Structured, ListStep, Insert, Passed, BlockInserted;
      ghost var st := View();
      ghost var s := Layout(st, root);
      ghost var b := mem[blk].Block();
      ghost var ps := lists[root];
      HeadsOf(st);
      LooseVald(st, blk);
      var lref := RootCell(root);
      var prev: Ptr := 0;
      ghost var i := 0;
      PassNone(s, b);
      WalkAt(st, root, 0);
      while Load(lref) != 0
        invariant View() == st
        invariant i <= |ps| && Passed(s, b, i)
        invariant lref == if i == 0 then RootCell(root) else NextCell(ps[i - 1])
        invariant prev == if i == 0 then 0 else ps[i - 1]
        invariant lref.NextCell? ==> lref.node in mem
        invariant Load(lref) == if i == |ps| then 0 else ps[i]
        invariant i < |ps| ==> ps[i] > 0
        decreases |ps| - i
      {
        var node := Load(lref);
        AtNode(st, root, i);
        var merged := Merge(node, blk);
        if merged {
          AfterAbsorb(root, node, blk, i, st, b);
          return;
        }
        merged := Merge(blk, node);
        if merged {
          AfterOverwrite(root, node, blk, i, st);
          return;
        }
        if mem[node].addr >= mem[blk].addr {
          LinkBefore(root, lref, prev, node, blk, i);
          return;
        }
        PassOne(s, b, i);
        prev := node;
        lref := NextCell(node);
        i := i + 1;
        WalkAt(st, root, i);
      }
      LinkBefore(root, lref, prev, 0, blk, i);
    }

    // ------------------------------------------------------------ vmm.c: nodes

    /** The search of vmm_alloc_node (vmm.c:105-130): the first slab page that counts a free
        node, and its first slot without VALD. The searches cannot fail, so the repair of a
        wrong count (vmm.c:126) and the panic (vmm.c:131-135) are never reached. */
    method FindFreeNode() returns (blks: Ptr, val: Ptr, ghost k: nat)
      requires Structured(View()) && pending == 0 && LastFree(View()) > 0
      ensures k < |slabs| && blks == slabs[k] && FreeSlot(View(), k, val)
      ensures forall j :: 0 <= j < k && Header(slabs[j]) in mem ==> mem[Header(slabs[j])].size == 0
    {
      hide Structured, LastFree;
      ghost var st := View();
      blks := blockHeap;
      k := 0;
      SomeSlab(st);
      SlabFacts(st, 0);
      while mem[Header(blks)].size == 0
        invariant k < |slabs| && blks == slabs[k] && Header(blks) in mem
        invariant forall j :: 0 <= j < k && Header(slabs[j]) in mem ==> mem[Header(slabs[j])].size == 0
        decreases |slabs| - k
      {
        SlabFacts(st, k);
        blks := mem[Header(blks)].addr;
        k := k + 1;
        SlabFacts(st, k);
      }
      val := FindFreeSlot(blks, k);
    }

    method FindFreeSlot(blks: Ptr, ghost k: nat) returns (val: Ptr)
      requires Structured(View()) && pending == 0
      requires k < |slabs| && blks == slabs[k] && Header(blks) in mem && mem[Header(blks)].size > 0
      ensures FreeSlot(View(), k, val)
    {
      hide Structured;
      ghost var st := View();
      ghost var j := FreeSlotOf(st, k);
      var i := 0;
      SlotVald(st, k, 0);
      while mem[blks + NODE_SIZE * i].vald
        invariant i <= j && blks + NODE_SIZE * i in mem
        invariant mem[blks + NODE_SIZE * i].vald <==> blks + NODE_SIZE * i in owner
        decreases j - i
      {
        i := i + 1;
        SlotVald(st, k, i);
      }
      SlotNumber(blks, i);
      val := blks + NODE_SIZE * i;
    }

    /** Zero the words of a new slab page and set its count (vmm.c:142-145). */
    method ClearPage(page: nat)
      requires page % PAGE == 0
      modifies this`mem
      ensures mem == old(mem) + ZeroPage(page)
    {
      var i := 0;
      while i < PAGE / NODE_SIZE
        invariant i <= PAGE / NODE_SIZE
        invariant mem == old(mem) + ZeroNodes(page, i)
      {
        mem := mem[page + NODE_SIZE * i := ZERO_NODE];
        i := i + 1;
      }
      ZeroNodesAt(page, i, Header(page));
      mem := mem[Header(page) := mem[Header(page)].(size := NODES_PER_PAGE)];
    }

    /** vmm_alloc_node: a fresh node. A slab page running low first gets a successor, taken
        with the very allocator the nodes serve; VALD is set only after that. Starved stands
        for the use of address 0 as a slab page, when no page is left to make one of. */
    method AllocNode() returns (val: Ptr, starved: bool)
      requires Valid(View()) && pending == 0
      modifies this
      ensures starved <==> !NodeRoom(old(View()))
      ensures Valid(View())
      ensures if starved then pending == val && Free(View()) == [] else NodeGranted(old(View()), View(), val)
      decreases 1, 1
    {
      hide Structured, LastFree, Valid, NodeGranted, AllocResult, OnlyList, ZeroPage, NodeRoom;
      ghost var st := View();
      ValidFacts(st);
      var blks;
      ghost var k;
      blks, val, k := FindFreeNode();
      GrantFacts(st, k, val);
      RoomFacts(st, k);
      var h := Header(blks);
      mem := mem[h := mem[h].(size := mem[h].size - 1)];
      if mem[h].size < 4 && mem[h].addr == 0 {
        mem := mem[h := mem[h].(addr := 1)];
        owner := owner[val := Loose];
        pending := val;
        assert IsGranted(st, View(), k, val, false);
        starved := RefillSlab(st, k, blks, val);
      } else {
        owner := owner[val := Loose];
        mem := mem[val := Node(0, 0, 0, 0, 0, true)];
        assert IsGranted(st, View(), k, val, true);
        GrantDone(st, View(), k, val);
        starved := false;
      }
    }

    /** The slab refill inside vmm_alloc_node (vmm.c:137-153): the pending node `val` keeps
        VALD clear while one page is allocated, cleared and chained behind `blks`. */
    method RefillSlab(ghost st: State, ghost k: nat, blks: Ptr, val: Ptr) returns (starved: bool)
      requires Valid(st) && st.pending == 0 && FreeSlot(st, k, val) && k == |st.slabs| - 1 && blks == st.slabs[k]
      requires LastFree(st) <= 4 && IsGranted(st, View(), k, val, false)
      modifies this
      ensures starved <==> Free(st) == []
      ensures Valid(View()) && if starved then pending == val && Free(View()) == [] else NodeGranted(st, View(), val)
      decreases 1, 0
    {
      hide Structured, LastFree, Valid, NodeGranted, AllocResult, OnlyList, GrantedMem, ZeroPage;
      ghost var st1 := View();
      PendDone(st, st1, k, val);
      var page, status := VmmAlloc(0, 1, 0);
      ghost var st2 := View();
      OnePageOrNone(st1, st2, page, status);
      if page == 0 {
        return true;
      }
      RefillFacts(st, st1, st2, k, val, page);
      ClearPage(page);
      mem := mem[Header(blks) := mem[Header(blks)].(addr := page)];
      slabs := slabs + [page];
      mem := mem[val := Node(0, 0, 0, 0, 0, true)];
      pending := 0;
      assert IsGrown(st2, View(), page);
      RefillDone(st, st1, st2, View(), k, val, page);
      return false;
    }

    /** vmm_alloc on the physical list (virt == 0): the lowest suitably aligned run. */
    method VmmAlloc(hint: nat, pageCount: nat, align: nat) returns (addr: nat, status: nat)
      requires Valid(View())
      requires pending != 0 ==> hint == 0 && align == 0
      modifies this
      ensures Valid(View()) && AllocResult(old(View()), View(), hint, pageCount, align, addr, status)
      decreases if hint == 0 && align == 0 then 0 else 2, 2
    {
      hide Structured, Valid, FreeBecame, AllocResult, Misplaced, AlignUp, Pow2, From, Canonical, AllPlaced, AllFree,
           ClearOfSlabs, Layout, FitAt;
      ghost var st := View();
      ghost var s := Free(st);
      FreeFacts(st);
      FromAligned(hint);
      addr := From(hint);
      if pageCount == 0 {
        AllocNothing(st, hint, align);
        return addr, 0;
      }
      if align > 63 {
        NotMisplaced(st, hint, pageCount, align);
        AllocFailed(st, hint, pageCount, align);
        return 0, 1;
      }
      var unit := Pow2(align);
      ghost var i := 0;
      ghost var ps := lists[MemoryMap];
      WalkAt(st, MemoryMap, 0);
      var node := heads[MemoryMap];
      while node != 0
        invariant View() == st && i <= |ps| && node == (if i == |ps| then 0 else ps[i])
        invariant i < |ps| ==> ps[i] > 0
        invariant forall j :: 0 <= j < i ==> PassedOver(s[j], addr, pageCount, unit)
        decreases |ps| - i
      {
        AtNode(st, MemoryMap, i);
        BlockPlaced(s, i);
        AlignedInWord(s[i], addr, align);
        var allocAddr := AlignUp(if mem[node].addr < addr then addr else mem[node].addr, unit) % WORD64;
        if mem[node].addr + mem[node].size > allocAddr {
          var allocSize := (mem[node].addr + mem[node].size - allocAddr) / PAGE;
          if allocSize >= pageCount {
            if addr + unit > WORD64 {
              MisplacedAt(st, hint, pageCount, align, i);
              AllocMisplaced(st, hint, pageCount, align);
              return 0, 2;
            }
            NotMisplaced(st, hint, pageCount, align);
            FirstFitIs(s, addr, pageCount, unit, None, i);
            FitFacts(s, i, addr, pageCount, align);
            CarveAt(node, i, allocAddr, pageCount);
            AllocDone(st, View(), i, hint, pageCount, align, allocAddr);
            return allocAddr, 0;
          }
        }
        node := mem[node].next;
        i := i + 1;
      }
      FirstFitIs(s, addr, pageCount, unit, None, i);
      NotMisplaced(st, hint, pageCount, align);
      AllocFailed(st, hint, pageCount, align);
      return 0, 1;
    }

    /** Taking the run `[at, at + pages)` out of block `i` of the free list (vmm.c:318-341). */
    method CarveAt(node: Ptr, ghost i: nat, at: nat, pages: nat)
      requires Valid(View()) && i < |lists[MemoryMap]| && node == lists[MemoryMap][i] && pages > 0
      requires var s := Free(View());
        s[i].addr <= at && at + pages * PAGE <= s[i].End() && at % PAGE == 0
      requires pending != 0 ==> at == Free(View())[i].addr
      modifies this
      ensures Valid(View()) && FreeBecame(old(View()), View(), Carve(Free(old(View())), i, at, pages * PAGE), {})
      ensures at == Free(old(View()))[i].addr ==> slabs == old(slabs) && owner.Keys <= old(owner).Keys
      decreases if at == Free(View())[i].addr then 0 else 2, 1
    {
      hide Structured, Valid, FreeBecame, OnlyList, LastFree, BlockDeleted;
      ghost var st := View();
      ghost var s := Free(st);
      FreeFacts(st);
      AtNode(st, MemoryMap, i);
      var end := mem[node].addr + mem[node].size;
      var newAddr := at + pages * PAGE;
      var size := end - newAddr;
      if at != mem[node].addr {
        mem := mem[node := mem[node].(size := at - mem[node].addr)];
        ghost var st1 := View();
        ReshapedOk(st, st1, MemoryMap, i, Range(s[i].addr, at - s[i].addr, s[i].kind));
        if size != 0 {
          CarveRight(st, i, at, pages, size);
        } else {
          RemoveRightEdge(s, i, at, pages * PAGE);
          CarveDone(st, st1, i, at, pages);
        }
      } else if size != 0 {
        mem := mem[node := mem[node].(addr := newAddr)];
        mem := mem[node := mem[node].(size := size)];
        ghost var st1 := View();
        ReshapedOk(st, st1, MemoryMap, i, Range(newAddr, size, s[i].kind));
        RemoveLeftEdge(s, i, pages * PAGE);
        CarveDone(st, st1, i, at, pages);
      } else {
        DeleteLink(MemoryMap, node, i);
        DeletedFacts(st, View(), MemoryMap, i);
        RemoveWhole(s, i);
        CarveDone(st, View(), i, at, pages);
      }
    }

    /** The block of the run has been cut down to its left part; its right part becomes a
        block of its own (vmm.c:324-330). */
    method CarveRight(ghost st: State, ghost i: nat, at: nat, pages: nat, size: nat)
      requires Valid(st) && st.pending == 0 && i < |Free(st)| && pages > 0 && at % PAGE == 0
      requires var s := Free(st);
        && s[i].addr < at && at + pages * PAGE < s[i].End()
        && size == s[i].End() - (at + pages * PAGE)
        && IsReshaped(st, View(), MemoryMap, i, Range(s[i].addr, at - s[i].addr, s[i].kind))
      modifies this
      ensures Valid(View()) && FreeBecame(st, View(), Carve(Free(st), i, at, pages * PAGE), {})
      decreases 2, 0
    {
      hide Structured, Valid, NodeGranted, FreeBecame, OnlyList, LastFree, BlockInserted, Canonical, AllPlaced, Apart,
           Insert;
      ghost var s := Free(st);
      ghost var st1 := View();
      LeftPartValid(st, st1, i, at);
      var newAddr := at + pages * PAGE;
      var blk, starved := AllocNode();
      ghost var st2 := View();
      GrantedFacts(st1, st2, blk);
      RightPartApart(st, st1, st2, i, at, pages, blk);
      mem := mem[blk := mem[blk].(addr := newAddr)];
      mem := mem[blk := mem[blk].(size := size)];
      ghost var st3 := View();
      LooseReady(st2, st3, MemoryMap, blk, mem[blk]);
      InsertLink(MemoryMap, blk);
      FreeInsertDone(st2, st3, View(), blk, st3.mem[blk]);
      CarveRightDone(st, st1, st2, View(), i, at, pages, blk);
    }

    /** A new node holding `b`, inserted into list `root`. */
    method AddBlock(root: Root, addr: nat, size: nat, kind: nat) returns (starved: bool)
      requires Valid(View()) && pending == 0 && Addable(View(), root, Range(addr, size, kind))
      modifies this
      ensures starved <==> !NodeRoom(old(View()))
      ensures !starved ==> Valid(View()) && BlockAdded(old(View()), View(), root, Range(addr, size, kind))
    {
      hide Structured, Valid, NodeGranted, OnlyList, LastFree, BlockInserted, AllPlaced, Apart, Insert, Layout,
           BlockAdded, NodeRoom;
      ghost var st := View();
      ghost var b := Range(addr, size, kind);
      var blk;
      blk, starved := AllocNode();
      if starved {
        return;
      }
      ghost var st2 := View();
      GrantedFacts(st, st2, blk);
      GrantedAddable(st, st2, blk, root, b);
      mem := mem[blk := mem[blk].(addr := addr)];
      mem := mem[blk := mem[blk].(size := size)];
      mem := mem[blk := mem[blk].(kind := kind)];
      ghost var st3 := View();
      LooseReady(st2, st3, root, blk, mem[blk]);
      InsertLink(root, blk);
      if root == MemoryMap {
        FreeInsertDone(st2, st3, View(), blk, st3.mem[blk]);
      } else {
        UserInsertDone(st2, st3, View(), root, blk, st3.mem[blk]);
      }
      AddedDone(st, st2, View(), root, blk, b);
    }

    /** vmm_free: the page run goes into list `root` as free memory. */
    method VmmFree(root: Root, addr: nat, pageCount: nat) returns (starved: bool)
      requires Valid(View()) && pending == 0
      requires Addable(View(), root, Range(addr, pageCount * PAGE, 0))
      modifies this
      ensures starved <==> !NodeRoom(old(View()))
      ensures !starved ==> Valid(View()) && BlockAdded(old(View()), View(), root, Range(addr, pageCount * PAGE, 0))
    {
      starved := AddBlock(root, addr, pageCount * PAGE, 0);
    }

    /** alloc_physical_memory: address 0 stands for failure. */
    method AllocPhysical(pageCount: nat, align: nat) returns (addr: nat)
      requires Valid(View()) && pending == 0
      modifies this
      ensures Valid(View())
      ensures exists status :: AllocResult(old(View()), View(), 0, pageCount, align, addr, status)
    {
      var status;
      addr, status := VmmAlloc(0, pageCount, align);
    }

    /** free_physical_memory. */
    method FreePhysical(addr: nat, pageCount: nat) returns (starved: bool)
      requires Valid(View()) && pending == 0
      requires Addable(View(), MemoryMap, Range(addr, pageCount * PAGE, 0))
      modifies this
      ensures starved <==> !NodeRoom(old(View()))
      ensures !starved ==>
        Valid(View()) && BlockAdded(old(View()), View(), MemoryMap, Range(addr, pageCount * PAGE, 0))
    {
      starved := VmmFree(MemoryMap, addr, pageCount);
    }

    /** Inserting a piece of a split block, if there is anything of it (vmm.c:291-315). */
    method AddPiece(root: Root, addr: nat, size: nat, kind: nat, ghost st: State, ghost s: seq<Range>, ghost nodes: nat)
      returns (starved: bool)
      requires Valid(View()) && pending == 0 && nodes < 3
      requires Valid(st) && UserStep(st, View(), root, s, nodes)
      requires size > 0 ==> Placed(Range(addr, size, kind)) && Apart(s, Range(addr, size, kind))
      modifies this
      ensures starved <==> size > 0 && Free(st) == [] && Spare(st) + |Layout(st, root)| <= |s|
      ensures !starved ==> Valid(View()) && pending == 0
      ensures !starved ==> UserStep(st, View(), root, InsertPiece(s, Range(addr, size, kind)), nodes + 1)
    {
      hide Valid, UserStep, BlockAdded, Insert, Addable, NodeRoom, Apart, Placed, Layout, Spare;
      ghost var st1 := View();
      starved := false;
      UserStepFacts(st, st1, root, s, nodes);
      if size != 0 {
        UserStepRoom(st, st1, root, s, nodes);
        RetypeAddable(st1, root, Range(addr, size, kind));
        starved := AddBlock(root, addr, size, kind);
        if starved {
          return;
        }
        UserStepAdd(st, st1, View(), root, s, Range(addr, size, kind), nodes);
        UserStepFacts(st, View(), root, Insert(s, Range(addr, size, kind)), nodes + 1);
      }
    }

    /** The surgery of the typed allocation (vmm.c:279-315): block `i` of list `root` is taken
        out and its left part, the run with its new type, and its right part are put back. */
    method RetypeRun(root: Root, node: Ptr, ghost i: nat, at: nat, size: nat, kind: nat) returns (starved: bool)
      requires Valid(View()) && pending == 0
      requires root in lists && root != MemoryMap && i < |lists[root]| && node == lists[root][i]
      requires var r := Layout(View(), root)[i];
        r.addr <= at && at + size <= r.End() && size > 0 && at % PAGE == 0 && size % PAGE == 0
      modifies this
      ensures starved <==> RetypeStarves(old(View()), root, i, at, size, kind)
      ensures !starved ==> Valid(View())
      ensures !starved ==>
        UserStep(old(View()), View(), root, Retype(Layout(old(View()), root), i, at, size, kind), 3)
    {
      hide Valid, Structured, UserStep, BlockDeleted, Insert, Apart, InsertPiece, Canonical, AllPlaced, Layout, Spare,
           NodesNeeded;
      ghost var st := View();
      ghost var s := Layout(st, root);
      StructuredOf(st);
      ValidLists(st);
      AtNode(st, root, i);
      var leftAddr := mem[node].addr;
      var leftSize := at - leftAddr;
      var leftKind := mem[node].kind;
      var rightAddr := at + size;
      var rightSize := mem[node].addr + mem[node].size - rightAddr;
      RetypeSteps(s, i, at, size, kind);
      PartsPlaced(s, i, at, size, kind);
      RetypeLengths(s, i, at, size, kind);
      NeededAtLeast(s, i, at, size, kind);
      NodeRoomIff(st);
      DeleteLink(root, node, i);
      UserStepDelete(st, View(), root, i);
      ghost var d := Without(s, i);
      starved := AddPiece(root, leftAddr, leftSize, leftKind, st, d, 0);
      if starved {
        return;
      }
      ghost var d1 := InsertPiece(d, LeftOf(s[i], at));
      starved := AddPiece(root, at, size, kind, st, d1, 1);
      if starved {
        return;
      }
      ghost var d2 := InsertPiece(d1, Range(at, size, kind));
      starved := AddPiece(root, rightAddr, rightSize, leftKind, st, d2, 2);
    }

    // ------------------------------------------------------------ start-up

    /** setup_memory: every free region above the low megabyte becomes free memory; the first
        page of the first one becomes the first slab page. If that leaves nothing of it, the
        walk starts with an empty block, which no list of this allocator may hold; the model
        stops there. */
    method SetupMemory(regions: seq<Region>) returns (hollow: bool)
      requires Pristine(View()) && RegionsOk(regions)
      modifies this
      ensures hollow <==> FirstUsable(regions) < |regions| && regions[FirstUsable(regions)].size == PAGE
      ensures hollow ==> Hollow(View(), regions[FirstUsable(regions)].addr + PAGE)
      ensures FirstUsable(regions) == |regions| ==> Pristine(View())
      ensures !hollow && FirstUsable(regions) < |regions| ==> SetUp(View(), regions, |regions|)
    {
      hide Valid, NoLoose, Collected, Started, SetUp, RegionsOk, Hollow, FirstUsable;
      ghost var n := FirstUsable(regions);
      hollow := false;
      var i := 0;
      while i < |regions|
        invariant i <= |regions|
        invariant i <= n ==> Pristine(View())
        invariant i > n ==> SetUp(View(), regions, i)
      {
        if regions[i].addr >= 0x100000 && regions[i].kind == 1 {
          hollow := AddRegion(regions, i);
          if hollow {
            return;
          }
        } else if i > n {
          SetUpSkip(View(), regions, i);
        }
        i := i + 1;
      }
      if n < |regions| { SetUpFacts(View(), regions, i); }
    }

    /** A usable region (vmm.c:174-191). */
    method AddRegion(regions: seq<Region>, i: nat) returns (hollow: bool)
      requires RegionsOk(regions) && i < |regions| && regions[i].Usable()
      requires i >= FirstUsable(regions)
      requires if i == FirstUsable(regions) then Pristine(View()) else SetUp(View(), regions, i)
      modifies this
      ensures hollow <==> i == FirstUsable(regions) && regions[i].size == PAGE
      ensures if hollow then Hollow(View(), regions[i].addr + PAGE) else SetUp(View(), regions, i + 1)
    {
      hide Valid, NoLoose, Collected, BlockAdded, Addable, FirstSlab, Started, RegionsOk, Hollow, FirstUsable, Layout,
           ZeroPage;
      ghost var n := FirstUsable(regions);
      var addr, size := regions[i].addr, regions[i].size;
      RegionPlaced(regions, i);
      if i > n { SetUpFacts(View(), regions, i); }
      if blockHeap == 0 {
        blockHeap := addr;
        ClearPage(addr);
        slabs := [addr];
        FirstSlabReady(View(), regions, i);
        addr := addr + PAGE;
        size := size - PAGE;
        if size == 0 {
          AddHollow(addr);
          return true;
        }
        FirstAddable(View(), regions, i);
      } else {
        RegionAddable(View(), regions, i);
      }
      ghost var st := View();
      var starved := AddBlock(MemoryMap, addr, size, 0);
      if i == n {
        CollectedFirst(st, View(), regions, i);
        FirstStarted(st, View(), regions, i);
      } else {
        CollectedAdd(st, View(), regions, i);
        StartedMore(st, View(), regions[n].size / PAGE - 1, Range(addr, size, 0));
      }
      return false;
    }

    /** The block of size zero that a first region of one page leaves behind. */
    method AddHollow(addr: nat)
      requires Valid(View()) && pending == 0 && NodeRoom(View()) && Free(View()) == [] && addr < LIMIT
      modifies this
      ensures Hollow(View(), addr)
    {
      hide Structured, Valid, NodeGranted, OnlyList, LastFree, BlockInserted, AllPlaced, Insert, Layout;
      ghost var st := View();
      var blk, starved := AllocNode();
      ghost var st2 := View();
      GrantedFacts(st, st2, blk);
      FreeFacts(st2);
      mem := mem[blk := mem[blk].(addr := addr)];
      ghost var st3 := View();
      LooseReady(st2, st3, MemoryMap, blk, mem[blk]);
      InsertLink(MemoryMap, blk);
      HollowDone(st, st2, st3, View(), blk, addr);
    }

    /** create_process up to the first use of its address space: one free block over
        `[0x1000, 0x800000000000)` (proc.c:12-17). */
    method CreateAddressSpace(process: nat) returns (starved: bool)
      requires Valid(View()) && pending == 0 && Vmma(process) !in lists
      modifies this
      ensures starved <==> !NodeRoom(old(View()))
      ensures !starved ==> Valid(View()) && pending == 0 && lists.Keys == old(lists).Keys + {Vmma(process)}
      ensures !starved ==> Layout(View(), Vmma(process)) == [Range(0x1000, 0x7FFFFFFFF * PAGE, 0)]
      ensures !starved ==> SlabsGrew(old(View()), View()) && Free(View()) == FreeAfter(old(View()), slabs)
      ensures !starved ==>
        forall r :: r in old(lists) && r != MemoryMap ==> Layout(View(), r) == Layout(old(View()), r)
    {
      hide Valid, BlockAdded, Addable, Layout, LastFree;
      ghost var st := View();
      heads := heads[Vmma(process) := 0];
      lists := lists[Vmma(process) := []];
      ghost var st1 := View();
      EmptyListValid(st, st1, Vmma(process));
      AddressSpaceAddable(View(), Vmma(process));
      starved := AddBlock(Vmma(process), 0x1000, 0x7FFFFFFFF * PAGE, 0);
      if starved {
        return;
      }
      AddressSpaceDone(st1, View(), Vmma(process));
    }
  }
}