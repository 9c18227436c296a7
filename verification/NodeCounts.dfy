/** Counting the nodes of the slab pages: how many are free in all, and how many a change of
    one list takes or gives back. */
module NodeCounts {
  import opened Layouts
  import opened BlockNodes
  import opened ListSteps
  import opened SlabSteps

  /** Free slots of the first `n` slab pages. */
  ghost function FreeSum(taken: set<Ptr>, slabs: seq<nat>, n: nat): nat
    requires n <= |slabs|
  {
    if n == 0 then 0 else FreeSum(taken, slabs, n - 1) + FreeIn(taken, slabs[n - 1], NODES_PER_PAGE)
  }

  ghost predicate Pages(slabs: seq<nat>) {
    Distinct(slabs) && forall i :: 0 <= i < |slabs| ==> slabs[i] % PAGE == 0
  }

  lemma {:induction false} FreeSumEmpty(slabs: seq<nat>, n: nat)
    requires n <= |slabs|
    ensures FreeSum({}, slabs, n) == NODES_PER_PAGE * n
  {
    if n > 0 {
      FreeSumEmpty(slabs, n - 1);
      FreeInEmpty({}, slabs[n - 1], NODES_PER_PAGE);
    }
  }

  /** Taking a slot of page `i` lowers the sum by one. */
  lemma {:induction false} FreeSumTake(taken: set<Ptr>, slabs: seq<nat>, n: nat, i: nat, p: Ptr)
    requires Pages(slabs) && n <= |slabs| && i < |slabs| && SlotIn(slabs[i], p) && p !in taken
    ensures FreeSum(taken + {p}, slabs, n) + (if i < n then 1 else 0) == FreeSum(taken, slabs, n)
  {
    if n > 0 {
      FreeSumTake(taken, slabs, n - 1, i, p);
      SlotPage(slabs[i], p);
      if i == n - 1 {
        FreeInTake(taken, (p - slabs[i]) / NODE_SIZE, slabs[i], NODES_PER_PAGE);
      } else {
        FreeInOtherPages(taken, slabs, i, p);
      }
    }
  }

  /** Free and taken slots together are all slots. */
  lemma {:induction false} FreeSumCount(taken: set<Ptr>, slabs: seq<nat>)
    requires Pages(slabs) && forall p :: p in taken ==> IsSlot(slabs, p)
    ensures FreeSum(taken, slabs, |slabs|) + |taken| == NODES_PER_PAGE * |slabs|
    decreases |taken|
  {
    if taken == {} {
      FreeSumEmpty(slabs, |slabs|);
    } else {
      var p :| p in taken;
      var rest := taken - {p};
      FreeSumCount(rest, slabs);
      var i :| 0 <= i < |slabs| && SlotIn(slabs[i], p);
      FreeSumTake(rest, slabs, |slabs|, i, p);
      assert rest + {p} == taken;
    }
  }

  lemma {:induction false} FreeSumZero(taken: set<Ptr>, slabs: seq<nat>, n: nat)
    requires n <= |slabs|
    ensures FreeSum(taken, slabs, n) == 0 <==> forall i :: 0 <= i < n ==> FreeIn(taken, slabs[i], NODES_PER_PAGE) == 0
  {
    if n > 0 { FreeSumZero(taken, slabs, n - 1); }
  }

  /** The free nodes beyond the four that the last slab page keeps for its own successor. */
  ghost function Spare(st: State): int {
    NODES_PER_PAGE * |st.slabs| - |st.owner| - 4
  }

  /** The slots not taken are at least those that the last header counts, and just those if and
      only if the earlier headers count none. */
  lemma FreeBesideLast(mem: map<Ptr, Node>, slabs: seq<nat>, taken: set<Ptr>)
    requires Pages(slabs) && slabs != [] && Counted(mem, slabs, taken)
    requires forall p :: p in taken ==> IsSlot(slabs, p)
    requires forall i :: 0 <= i < |slabs| ==> Header(slabs[i]) in mem
    ensures var n := |slabs| - 1;
      && NODES_PER_PAGE * |slabs| - |taken| >= mem[Header(slabs[n])].size
      && (NODES_PER_PAGE * |slabs| - |taken| == mem[Header(slabs[n])].size <==>
          forall i :: 0 <= i < n && Header(slabs[i]) in mem ==> mem[Header(slabs[i])].size == 0)
  {
    hide IsSlot, FreeIn, Pages;
    var n := |slabs| - 1;
    FreeSumCount(taken, slabs);
    FreeSumZero(taken, slabs, n);
    assert FreeSum(taken, slabs, n + 1) == FreeSum(taken, slabs, n) + mem[Header(slabs[n])].size;
  }

  lemma PoolPages(st: State)
    requires PoolOk(st)
    ensures Pages(st.slabs) && st.slabs != [] && Counted(st.mem, st.slabs, st.owner.Keys)
    ensures forall p :: p in st.owner.Keys ==> IsSlot(st.slabs, p)
    ensures forall i :: 0 <= i < |st.slabs| ==> Header(st.slabs[i]) in st.mem
  {
    hide IsSlot, Counted;
    PoolParts(st);
  }

  /** The nodes that can be taken before a slab page is needed are exactly the spare ones. */
  lemma SpareCount(st: State)
    requires PoolOk(st)
    ensures Spare(st) >= LastFree(st) - 4
    ensures Spare(st) == LastFree(st) - 4 <==>
      forall i :: 0 <= i < |st.slabs| - 1 && Header(st.slabs[i]) in st.mem ==> st.mem[Header(st.slabs[i])].size == 0
  {
    hide PoolOk, IsSlot, Counted, Pages;
    PoolPages(st);
    FreeBesideLast(st.mem, st.slabs, st.owner.Keys);
    assert |st.owner.Keys| == |st.owner|;
  }

  // ---------------------------------------------------------------- nodes taken by a list

  ghost function NodesOf(st: State, root: Root): set<Ptr> {
    set p | p in st.owner && st.owner[p] == Of(root)
  }

  ghost function Members(ps: seq<Ptr>): set<Ptr> { set p | p in ps }

  lemma {:induction false} DistinctCount(ps: seq<Ptr>)
    requires Distinct(ps)
    ensures |Members(ps)| == |ps|
  {
    if ps != [] {
      var n := |ps| - 1;
      DistinctCount(ps[..n]);
      assert ps == ps[..n] + [ps[n]];
      assert Members(ps) == Members(ps[..n]) + {ps[n]};
    }
  }

  lemma NodesOfCount(st: State, root: Root)
    requires Structured(st) && root in st.lists
    ensures |NodesOf(st, root)| == |Layout(st, root)|
  {
    hide PoolOk;
    DistinctCount(st.lists[root]);
    assert NodesOf(st, root) == Members(st.lists[root]);
  }

  /** The nodes held outside list `root`. */
  ghost function Elsewhere(st: State, root: Root): set<Ptr> {
    set p | p in st.owner && st.owner[p] != Of(root)
  }

  lemma OwnerCount(st: State, root: Root)
    requires Structured(st) && root in st.lists
    ensures |st.owner| == |Layout(st, root)| + |Elsewhere(st, root)|
  {
    hide Structured, Layout;
    NodesOfCount(st, root);
    assert st.owner.Keys == NodesOf(st, root) + Elsewhere(st, root);
    assert |st.owner.Keys| == |st.owner|;
  }

  lemma ElsewhereGains(st: State, st': State, root: Root, v: Ptr)
    requires OnlyList(st, st', root, {v}) && v !in st.owner && v in st'.owner && st'.owner[v] == Loose
    ensures |Elsewhere(st', root)| == |Elsewhere(st, root)| + 1
  {
    hide Layout;
    assert Elsewhere(st', root) == Elsewhere(st, root) + {v};
  }

  lemma ElsewhereLoses(st: State, st': State, root: Root, v: Ptr)
    requires OnlyList(st, st', root, {v}) && v in st.owner && st.owner[v] == Loose
    requires v in st'.owner ==> st'.owner[v] == Of(root)
    ensures |Elsewhere(st, root)| == |Elsewhere(st', root)| + 1
  {
    hide Layout;
    assert Elsewhere(st, root) == Elsewhere(st', root) + {v};
  }

  /** A fresh loose node, with no other change outside the physical list and none of its length. */
  lemma GrantCount(st: State, st': State, root: Root, v: Ptr)
    requires Structured(st) && Structured(st') && root in st.lists && OnlyList(st, st', root, {v})
    requires |Layout(st', root)| == |Layout(st, root)|
    requires v !in st.owner && v in st'.owner && st'.owner[v] == Loose
    ensures |st'.owner| == |st.owner| + 1
  {
    hide Structured, Layout, Elsewhere;
    OwnerCount(st, root);
    OwnerCount(st', root);
    ElsewhereGains(st, st', root, v);
  }

  /** A loose node that list `root` took in, or that went back to its slab page. */
  lemma TakenInCount(st: State, st': State, root: Root, v: Ptr)
    requires Structured(st) && Structured(st') && root in st.lists && OnlyList(st, st', root, {v})
    requires v in st.owner && st.owner[v] == Loose && (v in st'.owner ==> st'.owner[v] == Of(root))
    ensures |st'.owner| + |Layout(st, root)| + 1 == |st.owner| + |Layout(st', root)|
  {
    hide Structured, Layout, Elsewhere;
    OwnerCount(st, root);
    OwnerCount(st', root);
    ElsewhereLoses(st, st', root, v);
  }

  lemma OneLess(owner: map<Ptr, Owner>, p: Ptr)
    requires p in owner
    ensures |owner - {p}| + 1 == |owner|
  {
    assert (owner - {p}).Keys == owner.Keys - {p};
    assert |(owner - {p}).Keys| == |owner - {p}| && |owner.Keys| == |owner|;
  }

  /** A deleted block gives one node back. */
  lemma DeletedCount(st: State, st': State, root: Root, i: nat)
    requires Structured(st) && BlockDeleted(st, st', root, i)
    ensures |st'.owner| + 1 == |st.owner|
  {
    hide Layout, LastFree, PoolOk, OnlyList, Linked, Owned;
    ListNode(st, root, i);
    OneLess(st.owner, st.lists[root][i]);
  }

  // ---------------------------------------------------------------- nodes a retyping needs

  /** The block in front of block `i` touches it and has type `kind`. */
  predicate JoinsBefore(s: seq<Range>, i: nat, kind: nat) {
    0 < i < |s| && s[i - 1].End() == s[i].addr && s[i - 1].kind == kind
  }

  /** The nodes that a retyping needs besides the one of the block it takes out: one for each
      further part of the block, unless the run joins the part or the block in front of it. */
  function NodesNeeded(s: seq<Range>, i: nat, at: nat, size: nat, kind: nat): nat
    requires i < |s|
  {
    if at > s[i].addr then (if at + size < s[i].End() && kind != s[i].kind then 2 else 1)
    else if at + size < s[i].End() && !JoinsBefore(s, i, kind) then 1
    else 0
  }

  /** The first `i` blocks lie before `b` and do not grow over it. */
  ghost predicate LeftAlone(s: seq<Range>, b: Range, i: nat) {
    i <= |s| && forall j :: 0 <= j < i ==> s[j].addr < b.addr && !Absorbs(s[j], b)
  }

  lemma {:induction false} PassMany(s: seq<Range>, b: Range, i: nat)
    requires LeftAlone(s, b, i)
    ensures Passed(s, b, i)
  {
    hide Passed;
    if i == 0 {
      PassNone(s, b);
    } else {
      PassMany(s, b, i - 1);
      PassOne(s, b, i - 1);
    }
  }

  /** A range with a gap behind it becomes a block of its own, or is taken over. */
  lemma InsertedLength(s: seq<Range>, b: Range, i: nat)
    requires LeftAlone(s, b, i)
    requires i < |s| && !Absorbs(s[i], b) ==> s[i].addr > b.End()
    requires i < |s| && Absorbs(s[i], b) && i + 1 < |s| ==> s[i + 1].addr > b.End() && s[i + 1].addr > s[i].End()
    ensures |Insert(s, b)| == |s| + if i < |s| && Absorbs(s[i], b) then 0 else 1
    ensures !(i < |s| && Absorbs(s[i], b)) ==> Insert(s, b) == With(s, i, b)
  {
    hide Insert;
    PassMany(s, b, i);
    hide Passed;
    if i < |s| && Absorbs(s[i], b) {
      WalkAbsorbs(s, b, i);
    } else {
      WalkLinks(s, b, i);
    }
  }

  /** The lists on the way through a retyping, with a left part. */
  lemma LengthsWithLeft(s: seq<Range>, i: nat, at: nat, size: nat, kind: nat)
    requires Canonical(s) && i < |s| && s[i].addr < at && at + size < s[i].End() && size > 0
    ensures var d1 := Insert(Without(s, i), LeftOf(s[i], at));
      |d1| == |s| && |Insert(d1, Range(at, size, kind))| == |s| + if kind == s[i].kind then 0 else 1
  {
    hide Insert;
    var d, l, m := Without(s, i), LeftOf(s[i], at), Range(at, size, kind);
    InsertedLength(d, l, i);
    var d1 := Insert(d, l);
    assert d1[i] == l && forall j :: i < j < |d1| ==> d1[j] == s[j];
    assert forall j :: 0 <= j < i ==> d1[j] == s[j];
    InsertedLength(d1, m, if kind == s[i].kind then i else i + 1);
  }

  /** With a left part the first insertion makes a block of its own. */
  lemma LeftLength(s: seq<Range>, i: nat, at: nat)
    requires Canonical(s) && i < |s| && s[i].addr < at < s[i].End()
    ensures |Insert(Without(s, i), LeftOf(s[i], at))| == |s|
  {
    hide Insert;
    InsertedLength(Without(s, i), LeftOf(s[i], at), i);
  }

  lemma LengthsWithoutLeft(s: seq<Range>, i: nat, size: nat, kind: nat)
    requires Canonical(s) && i < |s| && 0 < size < s[i].size
    ensures |Insert(Without(s, i), Range(s[i].addr, size, kind))| == |s| - if JoinsBefore(s, i, kind) then 1 else 0
  {
    hide Insert;
    InsertedLength(Without(s, i), Range(s[i].addr, size, kind), if JoinsBefore(s, i, kind) then i - 1 else i);
  }

  /** How long the list is before the run and before the right part go in. */
  lemma RetypeLengths(s: seq<Range>, i: nat, at: nat, size: nat, kind: nat)
    requires Canonical(s) && i < |s| && s[i].addr <= at && at + size <= s[i].End() && size > 0
    ensures var d1 := InsertPiece(Without(s, i), LeftOf(s[i], at));
      && |d1| == |s| - (if at > s[i].addr then 0 else 1)
      && (at + size < s[i].End() ==>
          |InsertPiece(d1, Range(at, size, kind))| == |s| - 1 + NodesNeeded(s, i, at, size, kind))
  {
    hide Insert, Canonical, JoinsBefore;
    if at > s[i].addr {
      LeftLength(s, i, at);
      if at + size < s[i].End() { LengthsWithLeft(s, i, at, size, kind); }
    } else if at + size < s[i].End() {
      LengthsWithoutLeft(s, i, size, kind);
    }
  }
}
