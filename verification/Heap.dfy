/** The in-band heap of vmm.c over mutable words: heap_alloc, heap_free and expand_heap, with
    the pages under it supplied and taken back by the kernel. */
module Heap {
  import opened Layouts
  import opened AllocatorState
  import opened PageTables
  import opened AddressSpace
  import opened DemandPaging
  import opened HeapBlocks
  import opened HeapPages

  /** The rounding of a request: at least 8 bytes, up to a multiple of 8, in 64 bits. */
  function RoundRequest(n: nat): nat {
    (if n == 0 then 15 else n + 7) % WORD64 / 8 * 8
  }

  /** A request is rounded to no less than it asks for exactly when it is not in the last
      seven sizes of the 64-bit range, which wrap around to zero. No other is rounded to less
      than 8 bytes, or by 8 bytes or more, but that the empty one takes 8. */
  lemma RoundRequestIff(n: nat)
    requires n < WORD64
    ensures RoundRequest(n) % 8 == 0
    ensures RoundRequest(n) >= n <==> n <= WORD64 - 8
    ensures n > WORD64 - 8 ==> RoundRequest(n) == 0
    ensures n <= WORD64 - 8 ==> RoundRequest(n) >= 8
    ensures n <= WORD64 - 8 ==> RoundRequest(n) < n + if n == 0 then 9 else 8
  {
    var x := if n == 0 then 15 else n + 7;
    if x < WORD64 {
      DivModUnique(x, 0, x, WORD64);
      UpToEight(x);
    } else {
      DivModUnique(x, 1, x - WORD64, WORD64);
      DivModUnique(x - WORD64, 0, x - WORD64, 8);
    }
  }

  /** Rounding down to a multiple of 8. */
  lemma UpToEight(x: nat)
    ensures var r := x / 8 * 8; r % 8 == 0 && r <= x < r + 8
  {
    DivModUnique(x / 8 * 8, x / 8, 0, 8);
  }

  /** The heap an operation starts from: one page, if there was none. */
  function Start(bs: seq<Block>): seq<Block> {
    if bs == [] then [Block(WORDS_PER_PAGE - 1, false)] else bs
  }

  /** Pages by which the last block grows so that it exceeds `w` words. */
  function Growth(size: nat, w: nat): nat {
    if size > w then 0 else (w - size) / WORDS_PER_PAGE + 1
  }

  /** The block that serves a request: the first free one with room, else the last. */
  function ServingBlock(bs: seq<Block>, w: nat): (k: nat)
    requires bs != []
    ensures k < |bs|
  {
    if FirstFree(bs, w) < |bs| then FirstFree(bs, w) else |bs| - 1
  }

  function PagesNeeded(bs: seq<Block>, w: nat): nat
    requires bs != []
  {
    if ServingBlock(bs, w) == |bs| - 1 then Growth(bs[|bs| - 1].size, w) else 0
  }

  /** What a served allocation of `w` words does to the blocks. */
  ghost predicate Allocated(bs: seq<Block>, bs': seq<Block>, w: nat, k: nat)
    requires bs != []
  {
    var s := Grown(bs, WORDS_PER_PAGE * PagesNeeded(bs, w));
    && k == ServingBlock(bs, w)
    && k < |s| && !s[k].used && w <= s[k].size && bs' == Taken(s, k, w)
  }

  lemma GrowthExceeds(size: nat, w: nat)
    ensures size + WORDS_PER_PAGE * Growth(size, w) > w
    ensures Growth(size, w) > 0 ==> size + WORDS_PER_PAGE * (Growth(size, w) - 1) <= w
  {
  }

  lemma GrowthIs(size: nat, w: nat, g: nat)
    requires size + WORDS_PER_PAGE * g > w && (g > 0 ==> size + WORDS_PER_PAGE * (g - 1) <= w)
    ensures g == Growth(size, w)
  {
  }

  /** After a served allocation: the blocks are well formed, exactly the new payload has come
      to the live ones, and the heap has grown by the pages needed. */
  lemma AllocatedMeaning(bs: seq<Block>, bs': seq<Block>, w: nat, k: nat, p: nat, n: nat)
    requires Coalesced(bs) && Allocated(bs, bs', w, k)
    ensures Coalesced(bs') && (LiveAt(bs', p, n) <==> LiveAt(bs, p, n) || (p == Pos(bs, k) + 1 && n == w))
  {
    hide Splice, LiveAt, Taken, Pos;
    var d := WORDS_PER_PAGE * PagesNeeded(bs, w);
    var s := Grown(bs, d);
    GrownSame(bs, d, p, n);
    GrownPos(bs, d, k);
    if k == |bs| - 1 { GrowthExceeds(bs[k].size, w); }
    TakenCoalesced(s, k, w);
    TakenLive(s, k, w, p, n);
  }

  lemma GrownPos(bs: seq<Block>, d: nat, k: nat)
    requires bs != [] && k < |bs|
    ensures Pos(Grown(bs, d), k) == Pos(bs, k)
  {
    PosPrefix(bs, Grown(bs, d), k);
  }

  /** Rounding an address up and down to pages, in words from the page-aligned heap start. */
  lemma PageUp(base: nat, i: nat)
    requires base % PAGE == 0
    ensures (base + 8 * i + 0xFFF) / PAGE * PAGE == base + PAGE * ((i + 511) / WORDS_PER_PAGE)
  {
  }

  lemma PageDown(base: nat, i: nat)
    requires base % PAGE == 0
    ensures (base + 8 * i) / PAGE * PAGE == base + PAGE * (i / WORDS_PER_PAGE)
  {
  }

  /** The comparison of the header word, flags and all, with the size asked for. */
  lemma EnoughWord(b: Block, last: bool, allocSize: nat)
    requires allocSize % 8 == 0 && !b.used
    ensures WordOf(b, last) >= allocSize <==> b.size >= allocSize / 8
  {
  }

  /** Some page of words. */
  function Blank(n: nat): (words: seq<nat>)
    ensures |words| == n
  {
    if n == 0 then [] else [0] + Blank(n - 1)
  }

  /** The request exactly fills the last block, the only one with room for it. Since the last
      block must stay free, the code grows the heap before it splits the block, in user mode
      too (vmm.c:512-513), where only the kernel's page tables could be changed. */
  predicate FillsLast(bs: seq<Block>, w: nat) {
    bs != [] && FirstFree(bs, w) == |bs| - 1 && bs[|bs| - 1].size == w
  }

  /** A request that some block has room for needs the heap to grow exactly if it fills the
      last block. */
  lemma GrowsDespiteRoomIff(bs: seq<Block>, w: nat)
    requires bs != [] && FirstFree(bs, w) < |bs|
    ensures PagesNeeded(bs, w) > 0 <==> FillsLast(bs, w)
  {
  }

  /** A request can reach the growth code in user mode: in a fresh user heap of `n` pages, a
      request for all of its payload. */
  lemma FreshUserHeapFills(n: nat)
    requires n > 0 && n * PAGE <= WORD64
    ensures FillsLast([Block(WORDS_PER_PAGE * n - 1, false)], RoundRequest(n * PAGE - 8) / 8)
  {
    var w := WORDS_PER_PAGE * n - 1;
    DivModUnique(8 * w + 7, w, 7, 8);
    assert RoundRequest(n * PAGE - 8) == 8 * w;
  }

  /** What heap_alloc answers: an address; null, for want of room in user mode; the halt of
      expand_heap, for want of pages. The last two stand for what the model does not follow:
      the growth code run in user mode, and a first heap page at address 0. */
  datatype Answer = Given(addr: nat) | NoRoom | Halted | GrewInUser | NoFirstPage

  /** A heap of `n` pages halted after growing by `g` pages, with `pages` free pages before:
      one more may have needed four, or reached beyond the end of the address space. */
  predicate HaltedAt(bs: seq<Block>, bs': seq<Block>, n: nat, pages: nat, g: nat)
    requires bs != []
  {
    bs' == Grown(bs, WORDS_PER_PAGE * g) && (pages < 4 * (g + 1) || (n + g + 1) * PAGE > HEAP_ROOM)
  }

  /** The outcome of a request of `w` words on a kernel or user heap of `n` pages, with `pages`
      free pages of physical memory; `spent` tells whether they are used up afterwards. */
  ghost predicate AllocOutcome(bs: seq<Block>, bs': seq<Block>, user: bool, n: nat, pages: nat, w: nat,
      base: nat, answer: Answer, spent: bool)
    requires bs != []
  {
    if user && FirstFree(bs, w) == |bs| then
      answer == NoRoom && bs' == bs
    else if user && PagesNeeded(bs, w) > 0 then
      answer == GrewInUser && bs' == bs
    else if answer == Halted then
      spent && exists g: nat :: g < PagesNeeded(bs, w) && HaltedAt(bs, bs', n, pages, g)
    else
      && Allocated(bs, bs', w, ServingBlock(bs, w))
      && answer == Given(base + 8 * (Pos(bs, ServingBlock(bs, w)) + 1))
  }

  lemma OutcomeWithout(bs: seq<Block>, n: nat, pages: nat, w: nat, base: nat, spent: bool)
    requires bs != [] && (FirstFree(bs, w) == |bs| || PagesNeeded(bs, w) > 0)
    ensures var answer := if FirstFree(bs, w) == |bs| then NoRoom else GrewInUser;
      AllocOutcome(bs, bs, true, n, pages, w, base, answer, spent)
  {
    hide PagesNeeded, FirstFree;
  }

  lemma OutcomeHalted(bs: seq<Block>, bs': seq<Block>, n: nat, pages: nat, w: nat, base: nat, g: nat)
    requires bs != [] && g < PagesNeeded(bs, w) && HaltedAt(bs, bs', n, pages, g)
    ensures AllocOutcome(bs, bs', false, n, pages, w, base, Halted, true)
  {
    hide PagesNeeded, FirstFree, HaltedAt;
  }

  lemma OutcomeGiven(bs: seq<Block>, bs': seq<Block>, user: bool, n: nat, pages: nat, w: nat, base: nat, k: nat, g: nat,
                     spent: bool)
    requires bs != [] && k == ServingBlock(bs, w) && g == PagesNeeded(bs, w)
    requires user ==> FirstFree(bs, w) < |bs| && g == 0
    requires var s := Grown(bs, WORDS_PER_PAGE * g); k < |s| && !s[k].used && w <= s[k].size && bs' == Taken(s, k, w)
    ensures AllocOutcome(bs, bs', user, n, pages, w, base, Given(base + 8 * (Pos(bs, k) + 1)), spent)
  {
    hide PagesNeeded, FirstFree, Taken, Pos, Grown, ServingBlock;
  }

  /** With four free pages for each page needed, and room for them, a kernel request is served. */
  lemma EnoughPages(bs: seq<Block>, bs': seq<Block>, n: nat, pages: nat, w: nat, base: nat, answer: Answer, spent: bool)
    requires bs != [] && AllocOutcome(bs, bs', false, n, pages, w, base, answer, spent)
    requires pages >= 4 * PagesNeeded(bs, w) && (n + PagesNeeded(bs, w)) * PAGE <= HEAP_ROOM
    ensures answer.Given? && Allocated(bs, bs', w, ServingBlock(bs, w))
  {
    hide Allocated, Pos, PagesNeeded;
  }

  /** The address that a request is given is that of a payload of at least 8 bytes and the bytes
      asked for, less than 8 more; it is the only one that has become live. */
  lemma GivenMeaning(bs: seq<Block>, bs': seq<Block>, user: bool, n: nat, pages: nat, request: nat, base: nat,
                     addr: nat, spent: bool) returns (p: nat, w: nat)
    requires bs != [] && Coalesced(bs) && request <= WORD64 - 8
    requires AllocOutcome(bs, bs', user, n, pages, RoundRequest(request) / 8, base, Given(addr), spent)
    ensures addr == base + 8 * p && w >= 1 && (if request == 0 then w == 1 else request <= 8 * w < request + 8)
    ensures forall q: nat, m: nat :: LiveAt(bs', q, m) <==> LiveAt(bs, q, m) || (q == p && m == w)
    ensures Coalesced(bs')
  {
    hide Allocated, Pos, PagesNeeded, LiveAt, ServingBlock, RoundRequest, FirstFree;
    RoundRequestIff(request);
    w := RoundRequest(request) / 8;
    var k := ServingBlock(bs, w);
    p := Pos(bs, k) + 1;
    AllocatedMeaning(bs, bs', w, k, p, w);
    forall q: nat, m: nat
      ensures LiveAt(bs', q, m) <==> LiveAt(bs, q, m) || (q == p && m == w)
    {
      AllocatedMeaning(bs, bs', w, k, q, m);
    }
  }

  /** A user request runs the kernel's growth code exactly if it fills the last block. */
  lemma GrewInUserIff(bs: seq<Block>, bs': seq<Block>, n: nat, pages: nat, w: nat, base: nat, answer: Answer,
                      spent: bool)
    requires bs != [] && AllocOutcome(bs, bs', true, n, pages, w, base, answer, spent)
    ensures answer == GrewInUser <==> FillsLast(bs, w)
  {
    hide Allocated, Pos, PagesNeeded;
    if FirstFree(bs, w) < |bs| { GrowsDespiteRoomIff(bs, w); }
  }

  lemma HeaderFacts(words: seq<nat>, bs: seq<Block>, k: nat)
    requires Tiled(words, bs) && k < |bs|
    ensures var h := Pos(bs, k);
      && h + 1 + bs[k].size <= |words|
      && (IsUsing(words[h]) <==> bs[k].used) && (IsLast(words[h]) <==> k == |bs| - 1)
      && SizeOf(words[h]) == 8 * bs[k].size && words[h] / 8 == bs[k].size
      && words[h] == WordOf(bs[k], k == |bs| - 1)
      && words[h] % 8 == (if bs[k].used then 1 else 0) + (if k == |bs| - 1 then 2 else 0)
  {
    hide WordOf, Pos, SizeOf, IsUsing, IsLast;
    assert HeaderAt(words, bs, k);
    WordFields(bs[k], k == |bs| - 1);
    PosMonotone(bs, k, |bs|);
  }

  lemma KeptNone(bs: seq<Block>, words: seq<nat>)
    requires Tiled(words, bs)
    ensures PayloadsKept(bs, words, words, 0)
  {
    forall i: nat | LiveWord(bs, i, 0)
      ensures i < |words|
    {
      var j :| 0 <= j < |bs| && bs[j].used && InPayload(bs, j, i);
      PosMonotone(bs, j, |bs|);
    }
  }

  lemma KeptFromStart(bs: seq<Block>, words: seq<nat>, words1: seq<nat>, words2: seq<nat>)
    requires bs != [] ==> words1 == words && PayloadsKept(bs, words1, words2, 0)
    ensures PayloadsKept(bs, words, words2, 0)
  {
  }

  lemma TakenNonempty(bs: seq<Block>, k: nat, w: nat)
    requires k < |bs| && w <= bs[k].size
    ensures Taken(bs, k, w) != []
  {
  }

  lemma GrowthMore(bs: seq<Block>, w: nat, g: nat)
    requires bs != [] && bs[|bs| - 1].size + WORDS_PER_PAGE * g <= w &&
      (ServingBlock(bs, w) == |bs| - 1 || FirstFree(bs, w) == |bs|)
    ensures PagesNeeded(bs, w) > g
  {
  }

  lemma GrownAt(bs: seq<Block>, d: nat, k: nat)
    requires k < |bs|
    ensures var s := Grown(bs, d);
      && |s| == |bs| && s[k].used == bs[k].used && Pos(s, k) == Pos(bs, k)
      && s[k].size == bs[k].size + if k == |bs| - 1 then d else 0
  {
    GrownPos(bs, d, k);
  }

  lemma Chosen(bs: seq<Block>, w: nat, k: nat, found: bool)
    requires Coalesced(bs) && k < |bs|
    requires found == (FirstFree(bs, w) < |bs|) && (if found then k == FirstFree(bs, w) else k == |bs| - 1)
    ensures k == ServingBlock(bs, w) && !bs[k].used && (found ==> bs[k].size >= w)
  {
  }

  lemma GrowthEnds(bs: seq<Block>, w: nat, k: nat, g: nat)
    requires bs != [] && k < |bs| && k == ServingBlock(bs, w)
    requires bs[k].size + WORDS_PER_PAGE * g >= w && (k < |bs| - 1 ==> g == 0)
    requires k == |bs| - 1 ==>
      bs[k].size + WORDS_PER_PAGE * g > w && (g > 0 ==> bs[k].size + WORDS_PER_PAGE * (g - 1) <= w)
    ensures g == PagesNeeded(bs, w)
  {
    if k == |bs| - 1 { GrowthIs(bs[k].size, w, g); }
  }

  /** `addr` is the address heap_alloc gave for the payload of block `k`. */
  predicate PayloadAddress(bs: seq<Block>, base: nat, k: nat, addr: nat)
    requires k < |bs|
  {
    base + 8 * (Pos(bs, k) + 1) == addr
  }

  lemma OnePayloadAddress(bs: seq<Block>, base: nat, k: nat, addr: nat)
    requires k < |bs| && PayloadAddress(bs, base, k, addr)
    ensures forall j :: 0 <= j < |bs| && PayloadAddress(bs, base, j, addr) ==> j == k
  {
    forall j | 0 <= j < |bs| && j != k
      ensures Pos(bs, j) != Pos(bs, k)
    {
      if j < k { PosMonotone(bs, j, k); } else { PosMonotone(bs, k, j); }
    }
  }

  predicate Between(lo: nat, p: nat, hi: nat) { lo <= p < hi }

  function PageRange(lo: nat, hi: nat): set<nat> {
    set p: nat | p < hi && Between(lo, p, hi)
  }

  lemma PageRangeUnique(lo: nat, hi: nat, lo': nat, hi': nat)
    requires lo < hi && lo' < hi' && PageRange(lo, hi) == PageRange(lo', hi')
    ensures lo' == lo && hi' == hi
  {
    assert lo in PageRange(lo, hi) && hi - 1 in PageRange(lo, hi);
    assert lo' in PageRange(lo', hi') && hi' - 1 in PageRange(lo', hi');
  }

  /** Giving the pages `gone` of a heap back to the kernel runs out of list nodes. */
  ghost predicate GivingStarves(m: Memory, base: nat, gone: set<nat>) {
    exists lo: nat, hi: nat ::
      lo < hi && gone == PageRange(lo, hi) && DiscardStarves(m, HeapPageAt(base, lo), hi - lo)
  }

  lemma GivingStarvesIff(m: Memory, base: nat, lo: nat, hi: nat)
    requires lo < hi
    ensures GivingStarves(m, base, PageRange(lo, hi)) <==> DiscardStarves(m, HeapPageAt(base, lo), hi - lo)
  {
    hide DiscardStarves, PageRange, HeapPageAt;
    forall lo': nat, hi': nat | lo' < hi' && PageRange(lo, hi) == PageRange(lo', hi')
      ensures lo' == lo && hi' == hi
    {
      PageRangeUnique(lo, hi, lo', hi');
    }
  }

  /** Freeing the payload at `addr` gives pages back and runs out of list nodes. */
  ghost predicate FreeingStarves(m: Memory, bs: seq<Block>, base: nat, addr: nat) {
    exists i :: 0 <= i < |bs| && PayloadAddress(bs, base, i, addr) && GivingStarves(m, base, Window(bs, i))
  }

  lemma FreeingStarvesIff(m: Memory, bs: seq<Block>, base: nat, i: nat, addr: nat)
    requires i < |bs| && PayloadAddress(bs, base, i, addr)
    ensures FreeingStarves(m, bs, base, addr) <==> GivingStarves(m, base, Window(bs, i))
  {
    hide GivingStarves, Window, PayloadAddress;
    OnePayloadAddress(bs, base, i, addr);
  }

  /** `addr` is no payload address. */
  ghost predicate NoPayload(bs: seq<Block>, base: nat, addr: nat) {
    forall k :: 0 <= k < |bs| ==> !PayloadAddress(bs, base, k, addr)
  }

  lemma NoPayloadNeverStarves(m: Memory, bs: seq<Block>, base: nat, addr: nat)
    requires NoPayload(bs, base, addr)
    ensures !FreeingStarves(m, bs, base, addr)
  {
    hide GivingStarves, Window, PayloadAddress;
  }

  lemma AddressAbove(bs: seq<Block>, base: nat)
    requires base > 0
    ensures NoPayload(bs, base, 0)
  {
  }

  lemma NothingStarves(m: Memory, base: nat)
    ensures !GivingStarves(m, base, {})
  {
    hide DiscardStarves, HeapPageAt;
    forall lo: nat, hi: nat | lo < hi
      ensures PageRange(lo, hi) != {}
    {
      assert lo in PageRange(lo, hi);
    }
  }

  /** The contents of the pages `gone` are lost. */
  predicate Discarded(words: seq<nat>, words': seq<nat>, gone: set<nat>) {
    |words'| == |words| && forall i :: 0 <= i < |words| && i / WORDS_PER_PAGE !in gone ==> words'[i] == words[i]
  }

  /** What heap_free does to the block `k` it was given: if the block is live, it is merged
      with free neighbours, every other live payload keeps its contents, and a user heap gives
      the pages of the window back. If it is free already, nothing changes. */
  ghost predicate FreeOutcome(bs: seq<Block>, words: seq<nat>, resident: set<nat>, bs': seq<Block>, words': seq<nat>,
      resident': set<nat>, user: bool, k: nat)
    requires k < |bs|
  {
    && (user ==> resident' == resident - Window(bs, k))
    && bs' == Released(bs, k)
    && if !bs[k].used then bs' == bs && words' == words
    else
      (forall except: nat :: except == Pos(bs, k) + 1 ==> PayloadsKept(bs, words, words', except))
  }

  /** The header words that freeing block `k` looks at. */
  lemma Neighbourhood(words: seq<nat>, bs: seq<Block>, k: nat)
    requires Tiled(words, bs) && k < |bs|
    ensures var h := Pos(bs, k);
      && h < |words| && words[h] == 8 * bs[k].size + (if bs[k].used then 1 else 0) + (if k == |bs| - 1 then 2 else 0)
      && (k > 0 ==> Pos(bs, k - 1) + 1 + bs[k - 1].size == h
                    && words[Pos(bs, k - 1)] == 8 * bs[k - 1].size + if bs[k - 1].used then 1 else 0)
    ensures k + 1 < |bs| ==>
      var n := Pos(bs, k + 1);
      && n == Pos(bs, k) + 1 + bs[k].size && n < |words|
      && words[n] == 8 * bs[k + 1].size + (if bs[k + 1].used then 1 else 0) + (if k + 1 == |bs| - 1 then 2 else 0)
  {
    assert HeaderAt(words, bs, k);
    if k > 0 { PosNext(bs, k - 1); assert HeaderAt(words, bs, k - 1); }
    if k + 1 < |bs| { PosNext(bs, k); assert HeaderAt(words, bs, k + 1); }
  }

  /** The cases of freeing block `k`: the last block is free, so its neighbours are used; a
      block before it is merged if it is free, and a block behind it is. */
  lemma MergeShape(bs: seq<Block>, k: nat)
    requires Coalesced(bs) && k < |bs|
    ensures k > 0 && !bs[k - 1].used ==> bs[k].used && k < |bs| - 1
    ensures k == |bs| - 1 ==> !bs[k].used
    ensures k + 1 < |bs| && !bs[k + 1].used ==> bs[k].used
    ensures MergedSize(bs, k) ==
      (if k > 0 && !bs[k - 1].used then bs[k - 1].size + 1 else 0) + bs[k].size
        + if k < |bs| - 1 && !bs[k + 1].used then bs[k + 1].size + 1 else 0
    ensures MergeHi(bs, k) == |bs| <==> k == |bs| - 1 || (k + 1 == |bs| - 1 && !bs[k + 1].used)
  {
  }

  function JoinPrev(words: seq<nat>, heap: nat, prev: nat): seq<nat>
    requires heap < |words| && prev < |words|
  {
    if prev != heap && !IsUsing(words[prev]) then words[prev := words[prev] + 8 + SizeOf(words[heap])] else words
  }

  function JoinNext(words: seq<nat>, h: nat): seq<nat>
    requires h < |words| && (!IsLast(words[h]) ==> h + 1 + words[h] / 8 < |words|)
  {
    if IsLast(words[h]) then words else
    var next := h + 1 + words[h] / 8;
    if IsUsing(words[next]) then words else words[h := words[h] + 8 + SizeOf(words[next]) + words[next] % 8]
  }

  /** The header of the block freed so far, its neighbour before it taken in, and the words
      changed on the way. */
  ghost predicate HalfMerged(words: seq<nat>, words': seq<nat>, bs: seq<Block>, k: nat, h: nat)
    requires k < |bs|
  {
    var before := k > 0 && !bs[k - 1].used;
    && |words'| == |words| && h < |words| && h == (if before then Pos(bs, k - 1) else Pos(bs, k))
    && words'[h] == 8 * ((if before then bs[k - 1].size + 1 else 0) + bs[k].size) + (if k == |bs| - 1 then 2 else 0)
    && h + 1 + words'[h] / 8 == Pos(bs, k) + 1 + bs[k].size
    && (IsLast(words'[h]) <==> k == |bs| - 1)
    && forall i :: 0 <= i < |words| && i != h && i != Pos(bs, k) ==> words'[i] == words[i]
  }

  lemma AfterPrev(words: seq<nat>, words1: seq<nat>, words2: seq<nat>, bs: seq<Block>, k: nat, prev: nat, h: nat)
    requires Tiled(words, bs) && Coalesced(bs) && k < |bs|
    requires Pos(bs, k) < |words| &&
      (if k == 0 then prev == Pos(bs, k) else prev == Pos(bs, k - 1) && prev < Pos(bs, k))
    requires var heap := Pos(bs, k); words1 == words[heap := words[heap] - if IsUsing(words[heap]) then 1 else 0]
    requires words2 == JoinPrev(words1, Pos(bs, k), prev)
    requires h == if prev != Pos(bs, k) && !IsUsing(words1[prev]) then prev else Pos(bs, k)
    ensures HalfMerged(words, words2, bs, k, h)
    ensures k + 1 < |bs| ==> h + 1 + words2[h] / 8 < |words2|
  {
    hide Pos, Tiled, Coalesced, IsUsing, SizeOf, IsLast, MergedSize, MergeHi, MergeLo;
    Neighbourhood(words, bs, k);
    MergeShape(bs, k);
    FlagsOf(bs[k].size, bs[k].used, k == |bs| - 1);
    FlagsOf(bs[k].size, false, k == |bs| - 1);
    if k > 0 {
      FlagsOf(bs[k - 1].size, bs[k - 1].used, false);
      FlagsOf(bs[k - 1].size + 1 + bs[k].size, false, k == |bs| - 1);
    }
  }

  lemma AfterNext(words: seq<nat>, words2: seq<nat>, words3: seq<nat>, bs: seq<Block>, k: nat, h: nat)
    requires Tiled(words, bs) && Coalesced(bs) && k < |bs| && HalfMerged(words, words2, bs, k, h)
    requires (!IsLast(words2[h]) ==> h + 1 + words2[h] / 8 < |words2|) && words3 == JoinNext(words2, h)
    ensures MergedWords(words, words3, bs, k) && h == Pos(bs, MergeLo(bs, k))
  {
    hide Pos, Tiled, Coalesced, MergedSize, MergedWords, WordOf, MergeHi, IsLast, IsUsing, SizeOf;
    Neighbourhood(words, bs, k);
    MergeShape(bs, k);
    if k < |bs| - 1 {
      var n, last := Pos(bs, k + 1), k + 1 == |bs| - 1;
      assert words2[n] == words[n];
      FlagsOf(bs[k + 1].size, bs[k + 1].used, last);
    }
    MergedIs(words, words3, bs, k, h);
  }

  /** Adding size and flags of a word, and its USING flag. */
  lemma FlagsOf(size: nat, used: bool, last: bool)
    ensures var w := 8 * size + (if used then 1 else 0) + (if last then 2 else 0);
      && (IsUsing(w) <==> used) && (IsLast(w) <==> last) && SizeOf(w) == 8 * size && w / 8 == size
      && w % 8 == (if used then 1 else 0) + if last then 2 else 0
  {
    WordBits(size, if used then 1 else 0, if last then 1 else 0);
  }

  lemma MergedIs(words: seq<nat>, words': seq<nat>, bs: seq<Block>, k: nat, h: nat)
    requires Tiled(words, bs) && Coalesced(bs) && k < |bs| && |words'| == |words|
    requires h == if k > 0 && !bs[k - 1].used then Pos(bs, k - 1) else Pos(bs, k)
    requires h < |words| && words'[h] == 8 * MergedSize(bs, k) + if MergeHi(bs, k) == |bs| then 2 else 0
    requires forall i :: 0 <= i < |words| && i != h && i != Pos(bs, k) ==> words'[i] == words[i]
    ensures MergedWords(words, words', bs, k)
  {
    hide Pos, Coalesced, MergedSize;
    MergeShape(bs, k);
    MergedExtent(bs, k);
    HeaderFacts(words, bs, k);
    if !bs[k].used { FreedWord(bs, k); }
  }

  lemma MergedHead(words: seq<nat>, words': seq<nat>, bs: seq<Block>, k: nat)
    requires k < |bs| && MergedWords(words, words', bs, k)
    ensures var lo := Pos(bs, MergeLo(bs, k));
      |words'| == |words| && lo < |words| && words'[lo] / 8 == MergedSize(bs, k)
  {
    hide Pos, MergedSize, MergeLo, MergeHi;
  }

  lemma FreedWord(bs: seq<Block>, k: nat)
    requires Coalesced(bs) && k < |bs| && !bs[k].used
    ensures WordOf(bs[k], k == |bs| - 1) == 8 * MergedSize(bs, k) + if MergeHi(bs, k) == |bs| then 2 else 0
  {
    ReleasedFree(bs, k);
  }

  /** The words after the header of the merged block has been written. */
  ghost predicate MergedWords(words: seq<nat>, words': seq<nat>, bs: seq<Block>, k: nat)
    requires k < |bs|
  {
    var lo, hi := Pos(bs, MergeLo(bs, k)), Pos(bs, MergeHi(bs, k));
    && |words'| == |words| && lo < |words|
    && words'[lo] == WordOf(Block(MergedSize(bs, k), false), MergeHi(bs, k) == |bs|)
    && (forall i :: 0 <= i < |words| && !(lo <= i < hi) ==> words'[i] == words[i])
    && (!bs[k].used ==> words' == words)
  }

  lemma MergeDone(words: seq<nat>, words': seq<nat>, bs: seq<Block>, k: nat)
    requires Tiled(words, bs) && Coalesced(bs) && k < |bs| && MergedWords(words, words', bs, k)
    ensures Tiled(words', Released(bs, k)) && Coalesced(Released(bs, k))
    ensures forall except: nat :: except == Pos(bs, k) + 1 ==> PayloadsKept(bs, words, words', except)
    ensures !bs[k].used ==> Released(bs, k) == bs && words' == words
  {
    hide Pos, Tiled, Coalesced, WordOf, Released, PayloadsKept, MergedSize, MergeLo, MergeHi;
    ReleasedTiled(words, words', bs, k, Pos(bs, MergeLo(bs, k)));
    ReleasedCoalesced(bs, k);
    forall except: nat | except == Pos(bs, k) + 1
      ensures PayloadsKept(bs, words, words', except)
    {
      ReleasedKeeps(words, words', bs, k, except);
    }
    if !bs[k].used { ReleasedFree(bs, k); }
  }

  /** The window in addresses. */
  lemma WindowAddresses(bs: seq<Block>, k: nat, base: nat, addr2: int, addr3: int)
    requires k < |bs| && base % PAGE == 0
    requires var start, merged := Pos(bs, k) + 1, Pos(bs, MergeLo(bs, k)) + 1;
      && addr2 == base + PAGE * WindowLo(merged, start)
      && addr3 == base + PAGE * WindowHi(merged + MergedSize(bs, k), start + bs[k].size)
    ensures (addr2 - base) % PAGE == 0 && (addr3 - base) % PAGE == 0 && addr2 >= base && addr3 >= base
    ensures forall p: nat :: p in Window(bs, k) <==> (addr2 - base) / PAGE <= p < (addr3 - base) / PAGE
  {
    hide Pos, MergeLo, MergedSize, WindowLo, WindowHi;
    var start, merged := Pos(bs, k) + 1, Pos(bs, MergeLo(bs, k)) + 1;
    WindowSigns(merged, merged + MergedSize(bs, k), start, start + bs[k].size);
    PagesOf(addr2 - base, WindowLo(merged, start));
    PagesOf(addr3 - base, WindowHi(merged + MergedSize(bs, k), start + bs[k].size));
    forall p: nat
      ensures p in Window(bs, k) <==> (addr2 - base) / PAGE <= p < (addr3 - base) / PAGE
    {
      WindowIs(bs, k, p);
    }
  }

  /** The bounds of the window clamped in addresses. */
  lemma Clamped(base: nat, merged: nat, last: nat, start: nat, end: nat)
    ensures var a := base + PAGE * ((merged + 511) / WORDS_PER_PAGE);
      var b := base + PAGE * ((start + 511) / WORDS_PER_PAGE) - 0x1000;
      base + PAGE * WindowLo(merged, start) == if a < b then b else a
    ensures var a, b := base + PAGE * (last / WORDS_PER_PAGE), base + PAGE * (end / WORDS_PER_PAGE) + 0x1000;
      base + PAGE * WindowHi(last, end) == if a > b then b else a
  {
  }

  lemma NoWindow(bs: seq<Block>, k: nat, base: nat, addr2: int, addr3: int)
    requires k < |bs| && addr2 >= addr3
    requires forall p: nat :: p in Window(bs, k) <==> (addr2 - base) / PAGE <= p < (addr3 - base) / PAGE
    ensures Window(bs, k) == {}
  {
    hide Window;
  }

  lemma WindowSigns(lo: nat, hi: nat, start: nat, end: nat)
    ensures WindowLo(lo, start) >= 0 && WindowHi(hi, end) >= 0
  {
  }

  lemma PagesOf(x: int, q: int)
    requires x == PAGE * q
    ensures x / PAGE == q && x % PAGE == 0
  {
  }

  /** Losing pages of the window changes no header and no live payload. */
  lemma FreeDone(words: seq<nat>, words1: seq<nat>, words2: seq<nat>, resident: set<nat>, resident': set<nat>,
      bs: seq<Block>, k: nat, user: bool)
    requires k < |bs| && Tiled(words, bs) && Coalesced(bs) && MergedWords(words, words1, bs, k)
    requires user ==> Vacated(bs, resident) && HeaderPages(bs) <= resident
    requires user ==> Discarded(words1, words2, Window(bs, k) * resident) && resident' == resident - Window(bs, k)
    requires !user ==> words2 == words1
    ensures Tiled(words2, Released(bs, k)) && Coalesced(Released(bs, k)) && Released(bs, k) != []
    ensures user ==> Vacated(Released(bs, k), resident') && HeaderPages(Released(bs, k)) <= resident'
    ensures FreeOutcome(bs, words, resident, Released(bs, k), words2, resident', user, k)
  {
    hide Pos, Tiled, Vacated, PayloadsKept, Window, HeaderPages, MergeLo, MergeHi, MergedSize, WordOf, Released,
         Coalesced;
    if user {
      WindowComplete(bs, resident, k);
      ReleasedHeaders(bs, k);
      if !bs[k].used { WindowOfFree(bs, resident, k); }
      LostWords(words, words1, words2, resident, bs, k);
    }
    MergeDone(words, words2, bs, k);
    ReleasedSome(bs, k);
  }

  lemma ReleasedSome(bs: seq<Block>, k: nat)
    requires k < |bs|
    ensures Released(bs, k) != []
  {
  }

  lemma LostWords(words: seq<nat>, words1: seq<nat>, words2: seq<nat>, resident: set<nat>, bs: seq<Block>, k: nat)
    requires k < |bs| && MergedWords(words, words1, bs, k) && Discarded(words1, words2, Window(bs, k) * resident)
    requires !bs[k].used ==> Window(bs, k) * resident == {}
    ensures MergedWords(words, words2, bs, k)
  {
    hide Pos, Window, MergeLo, MergeHi, MergedSize, WordOf, HeaderPages;
    var lo, hi := Pos(bs, MergeLo(bs, k)), Pos(bs, MergeHi(bs, k));
    forall i: nat | i < |words| && i / WORDS_PER_PAGE in Window(bs, k)
      ensures lo < i < hi
    {
      WindowSafe(bs, k, i / WORDS_PER_PAGE);
    }
    assert !bs[k].used ==> words2 == words1;
  }

  class Heap {
    /** The kernel that supplies the pages, with the process of a user heap current. */
    const kernel: Kernel
    /** Where the heap starts. */
    const base: nat
    /** Whether this is the heap of a user process, which gives pages back but cannot grow. */
    const user: bool
    /** The words of the heap. */
    var words: seq<nat>

    /** The pages of a user heap that may have memory. */
    var resident: set<nat>

    /** The blocks of the heap in order. */
    ghost var blocks: seq<Block>

    ghost predicate Valid()
      reads this, kernel, kernel.vmm
    {
      && base % PAGE == 0 && base > 0 && (!user ==> base == HEAP)
      && (words == [] <==> blocks == [])
      && (blocks != [] ==> Tiled(words, blocks) && Coalesced(blocks)) && |words| % WORDS_PER_PAGE == 0
      && (user ==> words != [] && Vacated(blocks, resident) && HeaderPages(blocks) <= resident)
      && Paged(kernel, user, base, |words| / WORDS_PER_PAGE, resident)
    }

    /** The free pages of physical memory. */
    ghost function Spare(): nat
      reads kernel.vmm
    {
      PageCount(Free(kernel.vmm.View()))
    }

    /** Free memory, or the room for the heap, is used up. */
    ghost predicate UsedUp()
      reads this, kernel.vmm
    {
      Spent(kernel.vmm.View(), |words| / WORDS_PER_PAGE)
    }

    /** A kernel heap before its first use. */
    constructor Kernel(kernel: Kernel)
      requires kernel.Running()
      ensures Valid() && !user && blocks == [] && this.kernel == kernel && base == HEAP
    {
      hide Paged, Inv;
      this.kernel, this.base, this.user := kernel, HEAP, false;
      words, blocks, resident := [], [], {};
      new;
      NoPagesPaged(kernel);
    }

    /** The heap of a user process: one free block over a committed range of `n` pages, none of
        which has memory except the first (user.c:22-28). */
    constructor User(kernel: Kernel, base: nat, n: nat, contents: seq<nat>)
      requires base % PAGE == 0 && base > 0 && n > 0 && |contents| == WORDS_PER_PAGE * n
      requires FreshlyCommitted(kernel, base, n)
      ensures Valid() && user && blocks == [Block(WORDS_PER_PAGE * n - 1, false)]
      ensures this.kernel == kernel && this.base == base
    {
      hide Paged, FreshlyCommitted;
      this.kernel, this.base, this.user := kernel, base, true;
      words := contents[0 := n * PAGE - 8 + 2];
      blocks, resident := [Block(WORDS_PER_PAGE * n - 1, false)], {0};
      new;
      PagesBehind(n, 0, |words|);
      OneBlock(words, WORDS_PER_PAGE * n - 1);
      FreshPaged(kernel, base, n);
    }

    /** expand_heap: one more page behind the last block, whose header is at `heap`. What the
        page holds is not known. */
    method ExpandHeap(heap: nat) returns (halted: bool)
      requires Valid() && !user && blocks != [] && heap == Pos(blocks, |blocks| - 1)
      modifies this, kernel`tables, kernel`home, kernel.vmm
      ensures Valid()
      ensures halted <==> var n := |old(words)| / WORDS_PER_PAGE;
        n * PAGE + PAGE > HEAP_ROOM || Short(old(kernel.vmm.View()), old(kernel.tables), kernel.cr3, n)
      ensures halted ==> blocks == old(blocks) && words == old(words) && UsedUp()
      ensures !halted ==> blocks == Grown(old(blocks), WORDS_PER_PAGE) && |words| == |old(words)| + WORDS_PER_PAGE
      ensures Spare() + (if halted then old(Spare()) else 4) >= old(Spare())
      ensures PayloadsKept(old(blocks), old(words), words, 0)
      ensures heap == Pos(blocks, |blocks| - 1) && |blocks| == |old(blocks)|
    {
      hide Pos, PayloadsKept, Grown, Paged, Short, Spent, PageCount, Missing, Tiled, Coalesced, Vacated, HeaderPages;
      ghost var n, before := |words| / WORDS_PER_PAGE, words;
      ShortOfFour(kernel.vmm.View(), kernel.tables, kernel.cr3, n);
      KeptNone(blocks, words);
      halted := MapHeapPage(kernel, |words| / WORDS_PER_PAGE, resident);
      if halted {
        return;
      }
      assert |Blank(WORDS_PER_PAGE)| == WORDS_PER_PAGE;
      var more: seq<nat> :| |more| == WORDS_PER_PAGE;
      LastInside(words, blocks);
      words := words + more;
      words := words[heap := words[heap] + 0x1000];
      PagesBehind(n, 1, |words|);
      PrefixUpdate(before, more, heap, before[heap] + 0x1000);
      GrownByPage(before, words, more, blocks);
      blocks := Grown(blocks, WORDS_PER_PAGE);
    }

    /** The search of heap_alloc (vmm.c:504-541) for a free block with room; without one it
        ends at the last block. */
    method FindFree(allocSize: nat) returns (found: bool, heap: nat, ghost k: nat)
      requires Valid() && blocks != [] && allocSize % 8 == 0
      ensures k < |blocks| && heap == Pos(blocks, k) && found == (FirstFree(blocks, allocSize / 8) < |blocks|)
      ensures if found then k == FirstFree(blocks, allocSize / 8) else k == |blocks| - 1
    {
      hide Pos, WordOf, Paged;
      heap, k := 0, 0;
      ghost var w := allocSize / 8;
      PosStart(blocks);
      while true
        invariant k < |blocks| && heap == Pos(blocks, k)
        invariant forall j :: 0 <= j < k ==> blocks[j].used || blocks[j].size < w
        decreases |blocks| - k
      {
        assert HeaderAt(words, blocks, k);
        WordFields(blocks[k], k == |blocks| - 1);
        if !blocks[k].used { EnoughWord(blocks[k], k == |blocks| - 1, allocSize); }
        var word := words[heap];
        if !IsUsing(word) && word >= allocSize {
          FirstFreeIs(blocks, w, k);
          return true, heap, k;
        }
        if IsLast(word) {
          FirstFreeIs(blocks, w, |blocks|);
          return false, heap, k;
        }
        PosNext(blocks, k);
        heap := heap + 1 + word / 8;
        k := k + 1;
      }
    }

    /** heap_alloc. */
    method HeapAlloc(request: nat) returns (answer: Answer)
      requires Valid() && request < WORD64
      modifies this, kernel`tables, kernel`home, kernel.vmm
      ensures Valid() && PayloadsKept(old(blocks), old(words), words, 0)
      ensures answer == NoFirstPage <==>
        old(blocks) == [] && Short(old(kernel.vmm.View()), old(kernel.tables), kernel.cr3, 0)
      ensures answer == NoFirstPage ==> blocks == []
      ensures answer != NoFirstPage ==>
        var first := if old(blocks) == [] then 1 + Missing(old(kernel.tables), kernel.cr3, 4, 1, HEAP) else 0;
        && first <= old(Spare())
        && AllocOutcome(Start(old(blocks)), blocks, user,
                        if old(blocks) == [] then 1 else |old(words)| / WORDS_PER_PAGE,
                        old(Spare()) - first, RoundRequest(request) / 8, base, answer, UsedUp())
      ensures user ==> (answer == GrewInUser <==> FillsLast(old(blocks), RoundRequest(request) / 8))
      ensures user ==> MemoryOf(kernel) == old(MemoryOf(kernel))
    {
      hide Pos, LiveWord, Allocated, Tiled, Coalesced, Taken, FirstFree, Grown, AllocOutcome, FillsLast, Paged, Short,
           Spent, PageCount, Missing;
      ghost var words0, blocks0 := words, blocks;
      if words == [] {
        var starved := CreateHeap();
        if starved {
          KeptFromStart(blocks, words, words, words);
          return NoFirstPage;
        }
      }
      ghost var words1, blocks1, pages1 := words, blocks, Spare();
      var allocSize := RoundRequest(request);
      RoundRequestIff(request);
      answer := Serve(allocSize);
      KeptFromStart(blocks0, words0, words1, words);
      if user {
        GrewInUserIff(blocks1, blocks, |words1| / WORDS_PER_PAGE, pages1, allocSize / 8, base, answer, UsedUp());
      }
    }

    /** The first use of the kernel heap (vmm.c:486-496). */
    method CreateHeap() returns (starved: bool)
      requires Valid() && !user && words == []
      modifies this, kernel`tables, kernel`home, kernel.vmm
      ensures Valid() && (starved <==> Short(old(kernel.vmm.View()), old(kernel.tables), kernel.cr3, 0))
      ensures starved ==> words == [] && blocks == []
      ensures !starved ==> blocks == [Block(WORDS_PER_PAGE - 1, false)] && |words| == WORDS_PER_PAGE
      ensures !starved ==> Spare() + 1 + Missing(old(kernel.tables), kernel.cr3, 4, 1, HEAP) == old(Spare())
    {
      hide Paged, Short, Spent, PageCount, Missing;
      starved := MapHeapPage(kernel, 0, resident);
      if starved {
        return;
      }
      assert |Blank(WORDS_PER_PAGE)| == WORDS_PER_PAGE;
      var page: seq<nat> :| |page| == WORDS_PER_PAGE;
      words := page[0 := 0xFF8 + 2];
      blocks := [Block(WORDS_PER_PAGE - 1, false)];
      OneBlock(words, WORDS_PER_PAGE - 1);
    }

    /** The search and the growth loops of heap_alloc (vmm.c:503-551). After growing, the
        second round of the outer loop finds the last block at once. */
    method Serve(allocSize: nat) returns (answer: Answer)
      requires Valid() && blocks != [] && allocSize % 8 == 0
      modifies this, kernel`tables, kernel`home, kernel.vmm
      ensures Valid() && answer != NoFirstPage
      ensures AllocOutcome(old(blocks), blocks, user, |old(words)| / WORDS_PER_PAGE, old(Spare()), allocSize / 8, base,
                           answer, UsedUp())
      ensures PayloadsKept(old(blocks), old(words), words, 0)
      ensures user ==> MemoryOf(kernel) == old(MemoryOf(kernel))
    {
      hide Pos, Tiled, Coalesced, Taken, Grown, WordOf, Vacated, FirstFree, ServingBlock, PagesNeeded, SizeOf, IsLast,
           IsUsing, PayloadsKept, Paged, Short, Spent, PageCount, AllocOutcome, HaltedAt, HeaderPages;
      ghost var s, words0, w, n, p0 := blocks, words, allocSize / 8, |words| / WORDS_PER_PAGE, Spare();
      var found, heap;
      ghost var k;
      found, heap, k := FindFree(allocSize);
      KeptNone(s, words);
      ghost var g := 0;
      if !found {
        if user {
          OutcomeWithout(s, n, p0, w, base, UsedUp());
          return NoRoom;
        }
        var halted;
        g, halted := GrowTo(heap, allocSize);
        if halted {
          GrowthMore(s, w, g);
          OutcomeHalted(s, blocks, n, p0, w, base, g);
          return Halted;
        }
      }
      Chosen(s, w, k, found);
      GrownTwice(s, 0, 0);
      GrownAt(s, WORDS_PER_PAGE * g, k);
      HeaderFacts(words, blocks, k);
      if IsLast(words[heap]) && SizeOf(words[heap]) == allocSize {
        GrowthMore(s, w, g);
        if user {
          OutcomeWithout(s, n, p0, w, base, UsedUp());
          return GrewInUser;
        }
        var halted := OneMore(heap, s, words0, n, g, p0);
        if halted {
          OutcomeHalted(s, blocks, n, p0, w, base, g);
          return Halted;
        }
        g := g + 1;
      }
      GrownAt(s, WORDS_PER_PAGE * g, k);
      GrowthEnds(s, w, k, g);
      answer := Hand(heap, k, allocSize, s, words0, n, g, p0);
    }

    /** The chosen block is split and its payload handed out. */
    method Hand(heap: nat, ghost k: nat, allocSize: nat, ghost s: seq<Block>, ghost words0: seq<nat>, ghost n: nat,
                ghost g: nat, ghost pages: nat) returns (answer: Answer)
      requires HasGrown(s, words0, n, g) && Valid() && Coalesced(s) && k < |s| && allocSize % 8 == 0
      requires k == ServingBlock(s, allocSize / 8) && g == PagesNeeded(s, allocSize / 8)
      requires user ==> FirstFree(s, allocSize / 8) < |s| && g == 0
      requires k < |blocks| && heap == Pos(blocks, k) && heap == Pos(s, k) && !blocks[k].used
      requires allocSize / 8 <= blocks[k].size && (k == |blocks| - 1 ==> allocSize / 8 < blocks[k].size)
      modifies this`words, this`blocks, this`resident
      ensures Valid() && answer != NoFirstPage && PayloadsKept(s, words0, words, 0)
      ensures AllocOutcome(s, blocks, user, n, pages, allocSize / 8, base, answer, UsedUp())
    {
      hide Pos, Tiled, Coalesced, Taken, Grown, WordOf, Vacated, FirstFree, ServingBlock, PagesNeeded, PayloadsKept,
           Paged, Spent, PageCount, AllocOutcome, HeaderPages;
      ghost var words2 := words;
      Split(heap, k, allocSize);
      KeptTwice(s, WORDS_PER_PAGE * g, words0, words2, words);
      OutcomeGiven(s, blocks, user, n, pages, allocSize / 8, base, k, g, UsedUp());
      return Given(base + 8 * (heap + 1));
    }

    /** The heap has grown by `g` pages from one of `n` pages with the blocks `s`. */
    ghost predicate HasGrown(s: seq<Block>, words0: seq<nat>, n: nat, g: nat)
      reads this
    {
      && s != [] && blocks == Grown(s, WORDS_PER_PAGE * g) && PayloadsKept(s, words0, words, 0)
      && |words| == WORDS_PER_PAGE * (n + g)
    }

    /** A page more. */
    method OneMore(heap: nat, ghost s: seq<Block>, ghost words0: seq<nat>, ghost n: nat, ghost g: nat, ghost pages: nat)
      returns (halted: bool)
      requires HasGrown(s, words0, n, g) && blocks != [] && heap == Pos(blocks, |blocks| - 1)
      requires Valid() && !user && Coalesced(s) && Spare() + 4 * g >= pages
      modifies this, kernel`tables, kernel`home, kernel.vmm
      ensures HasGrown(s, words0, n, if halted then g else g + 1) && blocks != [] && heap == Pos(blocks, |blocks| - 1)
      ensures Valid() && (!halted ==> Spare() + 4 * (g + 1) >= pages)
      ensures halted ==> UsedUp() && s != [] && HaltedAt(s, blocks, n, pages, g)
    {
      hide Pos, Tiled, Coalesced, Grown, WordOf, Vacated, PayloadsKept, Paged, Short, Spent, PageCount, HeaderPages;
      ghost var words1 := words;
      PagesBehind(n, g, |words|);
      ShortOfFour(kernel.vmm.View(), kernel.tables, kernel.cr3, |words| / WORDS_PER_PAGE);
      halted := ExpandHeap(heap);
      KeptTwice(s, WORDS_PER_PAGE * g, words0, words1, words);
      GrownTwice(s, WORDS_PER_PAGE * g, WORDS_PER_PAGE);
    }

    /** The loop that grows the last block until it holds the request (vmm.c:545-549). */
    method GrowTo(heap: nat, allocSize: nat) returns (ghost g: nat, halted: bool)
      requires Valid() && !user && blocks != [] && heap == Pos(blocks, |blocks| - 1) && allocSize % 8 == 0
      modifies this, kernel`tables, kernel`home, kernel.vmm
      ensures Valid() && HasGrown(old(blocks), old(words), |old(words)| / WORDS_PER_PAGE, g)
      ensures !halted ==> Spare() + 4 * g >= old(Spare())
      ensures var size, w := old(blocks)[|old(blocks)| - 1].size, allocSize / 8;
        && (g > 0 ==> size + WORDS_PER_PAGE * (g - 1) < w)
        && (if halted then size + WORDS_PER_PAGE * g < w else size + WORDS_PER_PAGE * g >= w)
      ensures halted ==>
        UsedUp() && HaltedAt(old(blocks), blocks, |old(words)| / WORDS_PER_PAGE, old(Spare()), g)
    {
      hide Pos, Tiled, Coalesced, WordOf, Vacated, Paged, Short, Spent, PageCount, PayloadsKept, HaltedAt, Grown,
           HeaderPages, SizeOf;
      ghost var s, words0, n, p0 := blocks, words, |words| / WORDS_PER_PAGE, Spare();
      g := 0;
      GrownTwice(s, 0, 0);
      KeptNone(s, words);
      HeaderFacts(words, blocks, |blocks| - 1);
      while SizeOf(words[heap]) < allocSize
        invariant Valid() && blocks != [] && heap == Pos(blocks, |blocks| - 1) && heap < |words|
        invariant HasGrown(s, words0, n, g) && Spare() + 4 * g >= p0
        invariant SizeOf(words[heap]) == 8 * (s[|s| - 1].size + WORDS_PER_PAGE * g)
        invariant g > 0 ==> s[|s| - 1].size + WORDS_PER_PAGE * (g - 1) < allocSize / 8
        decreases allocSize - SizeOf(words[heap])
      {
        halted := OneMore(heap, s, words0, n, g, p0);
        if halted {
          return g, true;
        }
        g := g + 1;
        GrownAt(s, WORDS_PER_PAGE * g, |s| - 1);
        HeaderFacts(words, blocks, |blocks| - 1);
      }
      halted := false;
    }

    /** The chosen block is marked used, and what it has too much becomes a free block
        (vmm.c:514-533). */
    method Split(heap: nat, ghost k: nat, allocSize: nat)
      requires Valid() && k < |blocks| && heap == Pos(blocks, k) && !blocks[k].used && allocSize % 8 == 0
      requires allocSize / 8 <= blocks[k].size && (k == |blocks| - 1 ==> allocSize / 8 < blocks[k].size)
      modifies this`words, this`blocks, this`resident
      ensures Valid() && blocks == Taken(old(blocks), k, allocSize / 8) && |words| == |old(words)|
      ensures PayloadsKept(old(blocks), old(words), words, 0)
    {
      hide Pos, LiveWord, Tiled, Coalesced, HeaderAt, Vacated, Taken, HeaderPages, Splice, Paged;
      ghost var bs, w, words0 := blocks, allocSize / 8, words;
      HeaderFacts(words, blocks, k);
      var blockFlag := words[heap] % 8;
      var blockSize := SizeOf(words[heap]);
      words := words[heap := words[heap] + 1];
      resident := resident + {heap / WORDS_PER_PAGE};
      if blockSize > allocSize {
        words := words[heap := allocSize + 1];
        var rest := heap + 1 + allocSize / 8;
        resident := resident + {rest / WORDS_PER_PAGE};
        words := words[rest := blockSize - allocSize - 8];
        words := words[rest := words[rest] + blockFlag];
      }
      TakenTiled(words0, words, bs, k, w);
      TakenCoalesced(bs, k, w);
      TakenKeeps(words0, words, bs, k, w);
      TakenNonempty(bs, k, w);
      if user { TakenResident(bs, old(resident), resident, k, w); }
      PagedMore(kernel, user, base, |words| / WORDS_PER_PAGE, old(resident), resident);
      blocks := Taken(bs, k, w);
    }

    // ------------------------------------------------------------ accesses

    /** The process of a user heap accesses word `i`, of a live payload or a header: the access
        faults if its page is not mapped, and the kernel maps it. */
    method Touch(i: nat) returns (outcome: Outcome)
      requires Valid() && user && i < |words| && InUse(blocks, i)
      modifies this`resident, kernel`tables, kernel`home, kernel.vmm
      ensures Valid() && outcome != Panicked
      ensures outcome == Starved <==>
        TouchStarves(old(MemoryOf(kernel)), HeapPageAt(base, i / WORDS_PER_PAGE), base + 8 * i)
      ensures outcome == Served ==> Mapped(kernel.tables, kernel.cr3, HeapPageAt(base, i / WORDS_PER_PAGE))
    {
      hide Pos, Tiled, Coalesced, Vacated, HeaderPages, InUse, Paged, Mapped, TouchStarves, WordOf, HeapPageAt,
           InHeapPage, Covers;
      TouchVacated(blocks, resident, i);
      PageOfWord(|words|, i);
      WordPaged(kernel, base, |words| / WORDS_PER_PAGE, i, resident);
      outcome := TouchPage(kernel, base, |words| / WORDS_PER_PAGE, i / WORDS_PER_PAGE, base + 8 * i, resident);
      if outcome == Served {
        resident := resident + {i / WORDS_PER_PAGE};
      }
    }

    // ------------------------------------------------------------ freeing

    /** heap_free. Stuck stands for a list node taken from address 0, for want of a free page,
        in the calls that give pages back. */
    method HeapFree(addr: nat) returns (stuck: bool)
      requires Valid()
      modifies this, kernel`tables, kernel.vmm
      ensures stuck <==> user && old(FreeingStarves(MemoryOf(kernel), blocks, base, addr))
      ensures !stuck ==> Valid() && |words| == |old(words)|
      ensures NoPayload(old(blocks), base, addr) ==>
        && !stuck && words == old(words) && blocks == old(blocks) && resident == old(resident)
        && MemoryOf(kernel) == old(MemoryOf(kernel))
      ensures !stuck ==> forall k :: 0 <= k < |old(blocks)| && PayloadAddress(old(blocks), base, k, addr) ==>
        FreeOutcome(old(blocks), old(words), old(resident), blocks, words, resident, user, k)
    {
      hide Pos, Tiled, Coalesced, Vacated, FreeOutcome, IsLast, SizeOf, IsUsing, WordOf, Paged, PageCount,
           FreeingStarves, GivingStarves, Window;
      stuck := false;
      if words == [] {
        NoPayloadNeverStarves(MemoryOf(kernel), blocks, base, addr);
        return;
      }
      if addr == 0 {
        AddressAbove(blocks, base);
        NoPayloadNeverStarves(MemoryOf(kernel), blocks, base, addr);
        return;
      }
      var heap, prev := 0, 0;
      ghost var k := 0;
      ghost var bs := blocks;
      PosStart(blocks);
      while true
        invariant Valid() && blocks == bs && words == old(words) && resident == old(resident) && !stuck
        invariant MemoryOf(kernel) == old(MemoryOf(kernel))
        invariant k < |bs| && heap == Pos(bs, k) && (k > 0 ==> prev == Pos(bs, k - 1) && prev < heap) &&
          (k == 0 ==> prev == heap)
        invariant forall j :: 0 <= j < k ==> !PayloadAddress(bs, base, j, addr)
        decreases |bs| - k
      {
        HeaderFacts(words, bs, k);
        if base + 8 * (heap + 1) == addr {
          OnePayloadAddress(bs, base, k, addr);
          FreeingStarvesIff(MemoryOf(kernel), bs, base, k, addr);
          stuck := FreeBlock(heap, prev, k);
          assert PayloadAddress(old(blocks), base, k, addr);
          return;
        }
        if IsLast(words[heap]) {
          NoPayloadNeverStarves(MemoryOf(kernel), bs, base, addr);
          return;
        }
        prev := heap;
        PosNext(bs, k);
        heap := heap + 1 + words[heap] / 8;
        k := k + 1;
      }
    }

    /** The found block is freed and merged with free neighbours (vmm.c:573-596). `prev` is the
        header before it, or its own if it is the first. */
    method FreeBlock(heap: nat, prev: nat, ghost k: nat) returns (stuck: bool)
      requires Valid() && k < |blocks| && heap == Pos(blocks, k)
      requires if k == 0 then prev == heap else prev == Pos(blocks, k - 1) && prev < heap
      modifies this, kernel`tables, kernel.vmm
      ensures stuck <==> user && old(GivingStarves(MemoryOf(kernel), base, Window(blocks, k)))
      ensures !stuck ==> Valid() && |words| == |old(words)|
      ensures !stuck ==> FreeOutcome(old(blocks), old(words), old(resident), blocks, words, resident, user, k)
    {
      hide Pos, Tiled, Coalesced, Vacated, Released, PayloadsKept, Window, HeaderPages, MergeLo, MergeHi, MergedSize,
           MergedWords, FreeOutcome, WordOf, JoinPrev, JoinNext, Paged, PageCount, GivingStarves;
      ghost var bs, words0 := blocks, words;
      Neighbourhood(words, bs, k);
      var start, end := heap + 1, heap + 1 + words[heap] / 8;
      var h := MergeAround(heap, prev, bs, k);
      MergeDone(words0, words, bs, k);
      MergedHead(words0, words, bs, k);
      stuck := FinishFree(h, start, end, bs, words0, k);
    }

    /** The block is marked free and merged with its free neighbours. */
    method MergeAround(heap: nat, prev: nat, ghost bs: seq<Block>, ghost k: nat) returns (h: nat)
      requires Tiled(words, bs) && Coalesced(bs) && k < |bs| && heap == Pos(bs, k)
      requires if k == 0 then prev == heap else prev == Pos(bs, k - 1) && prev < heap
      modifies this`words
      ensures MergedWords(old(words), words, bs, k) && h == Pos(bs, MergeLo(bs, k))
    {
      hide Pos, Tiled, Coalesced, MergeLo, MergeHi, MergedSize, MergedWords, WordOf, JoinPrev, JoinNext;
      ghost var words0 := words;
      Neighbourhood(words, bs, k);
      if IsUsing(words[heap]) {
        words := words[heap := words[heap] - 1];
      }
      ghost var words1 := words;
      h := MergePrev(heap, prev);
      AfterPrev(words0, words1, words, bs, k, prev, h);
      ghost var words2 := words;
      MergeNext(h);
      AfterNext(words0, words2, words, bs, k, h);
    }

    /** The merge with a free block before (vmm.c:581-586). */
    method MergePrev(heap: nat, prev: nat) returns (h: nat)
      requires heap < |words| && prev < |words|
      modifies this`words
      ensures h == (if prev != heap && !IsUsing(old(words)[prev]) then prev else heap)
      ensures words == JoinPrev(old(words), heap, prev)
    {
      h := heap;
      if prev != heap && !IsUsing(words[prev]) {
        words := words[prev := words[prev] + 8 + SizeOf(words[heap])];
        h := prev;
      }
    }

    /** The merge with a free block behind (vmm.c:588-596). The size word of a free block that
        is not the last has no flags, so adding the neighbour's flags sets them. */
    method MergeNext(h: nat)
      requires h < |words| && (!IsLast(words[h]) ==> h + 1 + words[h] / 8 < |words|)
      modifies this`words
      ensures words == JoinNext(old(words), h)
    {
      if !IsLast(words[h]) {
        var next := h + 1 + words[h] / 8;
        if !IsUsing(words[next]) {
          words := words[h := words[h] + 8 + SizeOf(words[next])];
          words := words[h := words[h] + words[next] % 8];
        }
      }
    }

    /** The blocks after the merge; in user mode, the pages given back. */
    method FinishFree(h: nat, start: nat, end: nat, ghost bs: seq<Block>, ghost words0: seq<nat>, ghost k: nat)
      returns (stuck: bool)
      requires k < |bs| && blocks == bs && Tiled(words, Released(bs, k)) && Coalesced(Released(bs, k))
      requires Tiled(words0, bs) && Coalesced(bs) && MergedWords(words0, words, bs, k)
      requires base % PAGE == 0 && base > 0 && (!user ==> base == HEAP) && |words| % WORDS_PER_PAGE == 0
      requires user ==> Vacated(bs, resident) && HeaderPages(bs) <= resident
      requires Paged(kernel, user, base, |words| / WORDS_PER_PAGE, resident)
      requires start == Pos(bs, k) + 1 && end == start + bs[k].size && h == Pos(bs, MergeLo(bs, k))
      modifies this, kernel`tables, kernel.vmm
      ensures stuck <==> user && old(GivingStarves(MemoryOf(kernel), base, Window(bs, k)))
      ensures !stuck ==> Valid() && |words| == |words0|
      ensures !stuck ==> FreeOutcome(bs, words0, old(resident), blocks, words, resident, user, k)
    {
      hide Pos, Tiled, Coalesced, Vacated, Released, PayloadsKept, Window, HeaderPages, MergeLo, MergeHi, MergedSize,
           MergedWords, WordOf, Paged, PageCount, Discarded, GivingStarves;
      ghost var words1 := words;
      MergedHead(words0, words, bs, k);
      MergedInside(words0, bs, k);
      stuck := false;
      if user {
        stuck := DiscardPages(h, start, end, bs, k);
        if stuck {
          return;
        }
      }
      FreeDone(words0, words1, words, old(resident), resident, bs, k, user);
      blocks := Released(bs, k);
    }

    /** The end of heap_free in user mode: the pages wholly inside the merged payload, around
        the freed block, are uncommitted and committed again (vmm.c:599-616). */
    method DiscardPages(h: nat, start: nat, end: nat, ghost bs: seq<Block>, ghost k: nat) returns (stuck: bool)
      requires user && k < |bs| && base % PAGE == 0 && base > 0
      requires start == Pos(bs, k) + 1 && end == start + bs[k].size && h == Pos(bs, MergeLo(bs, k))
      requires h < |words| && words[h] / 8 == MergedSize(bs, k) && h + 1 + words[h] / 8 <= |words|
      requires Paged(kernel, true, base, |words| / WORDS_PER_PAGE, resident)
      modifies this`words, this`resident, kernel`tables, kernel.vmm
      ensures stuck <==> old(GivingStarves(MemoryOf(kernel), base, Window(bs, k)))
      ensures !stuck ==>
        && |words| == |old(words)| && resident == old(resident) - Window(bs, k)
        && Discarded(old(words), words, Window(bs, k) * old(resident))
        && Paged(kernel, true, base, |words| / WORDS_PER_PAGE, resident)
    {
      hide Pos, MergeLo, MergeHi, MergedSize, Window, Paged, PageCount, Discarded, WindowLo, WindowHi, GivingStarves;
      var addr2, addr3 := Bounds(h, start, end, bs, k);
      WindowAddresses(bs, k, base, addr2, addr3);
      if addr2 < addr3 {
        PagesBetween(base, addr2, addr3, |words| / WORDS_PER_PAGE);
        WindowPages(bs, k, (addr2 - base) / PAGE, (addr3 - base) / PAGE);
        WindowAboveFirst(bs, k, (addr2 - base) / PAGE);
        stuck := Decommit(addr2, addr3, (addr2 - base) / PAGE, (addr3 - base) / PAGE);
      } else {
        NoWindow(bs, k, base, addr2, addr3);
        NothingStarves(MemoryOf(kernel), base);
        assert Window(bs, k) * resident == {} && resident - Window(bs, k) == resident;
        SameWords(words);
        stuck := false;
      }
    }

    /** The first and the last address of the pages to give back (vmm.c:570-611). */
    method Bounds(h: nat, start: nat, end: nat, ghost bs: seq<Block>, ghost k: nat) returns (addr2: int, addr3: int)
      requires k < |bs| && base % PAGE == 0 && base > 0
      requires start == Pos(bs, k) + 1 && end == start + bs[k].size && h == Pos(bs, MergeLo(bs, k))
      requires h < |words| && words[h] / 8 == MergedSize(bs, k) && h + 1 + words[h] / 8 <= |words|
      ensures addr3 <= base + |words| / WORDS_PER_PAGE * PAGE
      ensures var merged := Pos(bs, MergeLo(bs, k)) + 1;
        && addr2 == base + PAGE * WindowLo(merged, start)
        && addr3 == base + PAGE * WindowHi(merged + MergedSize(bs, k), start + bs[k].size)
    {
      hide Pos, MergeLo, MergeHi, MergedSize, WindowLo, WindowHi;
      var last := h + 1 + words[h] / 8;
      Clamped(base, h + 1, last, start, end);
      var addr0 := UpTo(base, start);
      var addr1 := DownTo(base, end);
      addr2 := UpTo(base, h + 1);
      addr3 := DownTo(base, last);
      WindowInHeap(base, last, |words|, addr3);
      if addr2 < addr0 - 0x1000 {
        addr2 := addr0 - 0x1000;
      }
      if addr3 > addr1 + 0x1000 {
        addr3 := addr1 + 0x1000;
      }
    }

    /** An address rounded up and down to pages. */
    method UpTo(base: nat, i: nat) returns (addr: nat)
      requires base % PAGE == 0
      ensures addr == base + PAGE * ((i + 511) / WORDS_PER_PAGE)
    {
      PageUp(base, i);
      addr := (base + 8 * i + 0xFFF) / PAGE * PAGE;
    }

    method DownTo(base: nat, i: nat) returns (addr: nat)
      requires base % PAGE == 0
      ensures addr == base + PAGE * (i / WORDS_PER_PAGE)
    {
      PageDown(base, i);
      addr := (base + 8 * i) / PAGE * PAGE;
    }

    /** virtual_alloc with UNCOMMIT and then COMMIT of the heap pages `lo` to `hi`: they lose
        their memory, and what pages with memory held is lost. */
    method Decommit(addr2: nat, addr3: nat, ghost lo: nat, ghost hi: nat) returns (stuck: bool)
      requires Paged(kernel, true, base, |words| / WORDS_PER_PAGE, resident)
      requires 0 < lo < hi <= |words| / WORDS_PER_PAGE
      requires addr2 == base + lo * PAGE && addr3 == base + hi * PAGE
      modifies this`words, this`resident, kernel`tables, kernel.vmm
      ensures stuck <==> old(GivingStarves(MemoryOf(kernel), base, PageRange(lo, hi)))
      ensures !stuck ==>
        && |words| == |old(words)| && resident == old(resident) - PageRange(lo, hi)
        && Discarded(old(words), words, PageRange(lo, hi) * old(resident))
        && Paged(kernel, true, base, |words| / WORDS_PER_PAGE, resident)
    {
      hide Paged, PageCount, DiscardStarves, GivingStarves, HeapPageAt;
      GivingStarvesIff(MemoryOf(kernel), base, lo, hi);
      stuck := DiscardHeapRun(kernel, base, |words| / WORDS_PER_PAGE, addr2, addr3, lo, hi, resident,
                              resident - PageRange(lo, hi));
      if stuck {
        return;
      }
      PageOffset(base, lo, addr2);
      PageOffset(base, hi, addr3);
      var gone := PageRange((addr2 - base) / PAGE, (addr3 - base) / PAGE);
      assert Discarded(words, words, gone * resident);
      var left: seq<nat> :| Discarded(words, left, gone * resident);
      SameLength(words, left, gone * resident);
      words := left;
      resident := resident - gone;
    }
  }

  lemma PrefixUpdate(a: seq<nat>, b: seq<nat>, i: nat, x: nat)
    requires i < |a|
    ensures (a + b)[i] == a[i] && (a + b)[i := x] == a[i := x] + b
  {
  }

  lemma PageOfWord(size: nat, i: nat)
    requires i < size && size % WORDS_PER_PAGE == 0
    ensures i / WORDS_PER_PAGE < size / WORDS_PER_PAGE
  {
  }

  lemma MergedInside(words: seq<nat>, bs: seq<Block>, k: nat)
    requires Tiled(words, bs) && k < |bs|
    ensures Pos(bs, MergeLo(bs, k)) + 1 + MergedSize(bs, k) <= |words|
  {
    hide Pos;
    MergedExtent(bs, k);
    if MergeHi(bs, k) < |bs| { PosMonotone(bs, MergeHi(bs, k), |bs|); }
  }

  /** The window as a range of pages. */
  lemma WindowPages(bs: seq<Block>, k: nat, lo: nat, hi: nat)
    requires k < |bs| && lo < hi && forall p: nat :: p in Window(bs, k) <==> lo <= p < hi
    ensures Window(bs, k) == PageRange(lo, hi) && lo in Window(bs, k)
  {
    hide Window;
    assert lo in Window(bs, k);
  }

  /** The first page of the heap holds a header. */
  lemma WindowAboveFirst(bs: seq<Block>, k: nat, lo: nat)
    requires k < |bs| && lo in Window(bs, k)
    ensures lo > 0
  {
    hide Window, Released;
    WindowSafe(bs, k, lo);
  }

  lemma PageOffset(base: nat, p: nat, addr: nat)
    requires addr == base + p * PAGE
    ensures (addr - base) / PAGE == p
  {
    DivModUnique(p * PAGE, p, 0, PAGE);
  }

  lemma SameLength(words: seq<nat>, words': seq<nat>, gone: set<nat>)
    requires Discarded(words, words', gone)
    ensures |words'| == |words|
  {
  }

  lemma SameWords(words: seq<nat>)
    ensures Discarded(words, words, {})
  {
  }

  lemma WindowInHeap(base: nat, last: nat, size: nat, addr3: nat)
    requires base % PAGE == 0 && last <= size && addr3 == base + PAGE * (last / WORDS_PER_PAGE)
    ensures addr3 <= base + size / WORDS_PER_PAGE * PAGE
  {
    MulGap(last / WORDS_PER_PAGE, size / WORDS_PER_PAGE, PAGE);
  }

  lemma PagesBetween(base: nat, addr2: nat, addr3: nat, n: nat)
    requires base <= addr2 < addr3 <= base + n * PAGE && (addr2 - base) % PAGE == 0 && (addr3 - base) % PAGE == 0
    ensures var lo, hi := (addr2 - base) / PAGE, (addr3 - base) / PAGE;
      lo < hi <= n && addr2 == base + lo * PAGE && addr3 == base + hi * PAGE
  {
    MulGap(n, (addr3 - base) / PAGE, PAGE);
    MulGap((addr3 - base) / PAGE, (addr2 - base) / PAGE, PAGE);
  }

  /** A heap of `n` pages after growing by `g` pages. */
  lemma PagesBehind(n: nat, g: nat, size: nat)
    requires size == WORDS_PER_PAGE * n + WORDS_PER_PAGE * g
    ensures size / WORDS_PER_PAGE == n + g
  {
  }

  lemma OneBlock(words: seq<nat>, size: nat)
    requires |words| == size + 1 && words[0] == 8 * size + 2
    ensures Tiled(words, [Block(size, false)]) && Coalesced([Block(size, false)]) && Vacated([Block(size, false)], {0})
  {
    var bs := [Block(size, false)];
    assert Pos(bs, 1) == Pos(bs, 0) + 1 + size;
    assert HeaderAt(words, bs, 0);
  }

  // ---------------------------------------------------------------- what the operations mean

  /** Freeing a live block takes exactly its payload off the live ones, and leaves the last
      block free and no two free neighbours. */
  lemma FreedMeaning(bs: seq<Block>, words: seq<nat>, resident: set<nat>, bs': seq<Block>, words': seq<nat>,
      resident': set<nat>,
                     user: bool, k: nat, p: nat, n: nat)
    requires Coalesced(bs) && k < |bs| && bs[k].used
    requires FreeOutcome(bs, words, resident, bs', words', resident', user, k)
    ensures Coalesced(bs') && (LiveAt(bs', p, n) <==> LiveAt(bs, p, n) && p != Pos(bs, k) + 1)
  {
    hide Pos, LiveAt, Coalesced, Released, PayloadsKept, HeaderPages, Window;
    ReleasedCoalesced(bs, k);
    ReleasedLive(bs, k, p, n);
  }

  /** Giving back at once what was allocated restores the identical blocks. */
  lemma AllocThenFree(bs: seq<Block>, k: nat, w: nat)
    requires Coalesced(bs) && k < |bs| && !bs[k].used && w <= bs[k].size && (k == |bs| - 1 ==> w < bs[k].size)
    ensures k < |Taken(bs, k, w)| && Taken(bs, k, w)[k] == Block(w, true) && Released(Taken(bs, k, w), k) == bs
  {
    var cs, mid := Taken(bs, k, w), Pieces(bs[k].size, w);
    SpliceBack(bs, k, mid);
    assert k > 0 ==> cs[k - 1] == bs[k - 1];
    assert MergeLo(cs, k) == k;
    if bs[k].size == w {
      assert cs[k + 1] == bs[k + 1];
      assert MergeHi(cs, k) == k + 1 && MergedSize(cs, k) == w;
    } else {
      assert cs[k + 1] == Block(bs[k].size - w - 1, false);
      assert MergeHi(cs, k) == k + 2 && MergedSize(cs, k) == bs[k].size;
    }
    assert bs[k] == Block(bs[k].size, false);
  }

  /** Putting the old block back for its pieces. */
  lemma SpliceBack(bs: seq<Block>, k: nat, mid: seq<Block>)
    requires k < |bs|
    ensures var cs := Splice(bs, k, 1, mid);
      && |cs| == |bs| - 1 + |mid| && (forall j :: k <= j < k + |mid| ==> cs[j] == mid[j - k])
      && Splice(cs, k, |mid|, [bs[k]]) == bs
  {
    var cs := Splice(bs, k, 1, mid);
    assert cs[..k] == bs[..k] && cs[k + |mid|..] == bs[k + 1..];
    assert bs == bs[..k] + [bs[k]] + bs[k + 1..];
  }

  /** The addresses heap_alloc gives are multiples of 8, inside the heap, and their payloads
      are as long as the rounded request. */
  lemma AllocatedPayload(words: seq<nat>, bs: seq<Block>, base: nat, p: nat, n: nat)
    requires Tiled(words, bs) && base % PAGE == 0 && LiveAt(bs, p, n)
    ensures (base + 8 * p) % 8 == 0 && 0 < p && p + n <= |words|
  {
    hide WordOf;
    var k :| 0 <= k < |bs| && IsLive(bs, k, 0, p, n);
    PosMonotone(bs, k, |bs|);
  }
}
