/** The chain of blocks of the in-band heap (expand_heap, heap_alloc and heap_free of vmm.c):
    a header word with size and flags, then the payload, then the next header. Sizes and
    positions are counted in 8-byte words from the start of the heap. */
module HeapBlocks {
  import opened Layouts

  const WORDS_PER_PAGE: nat := 512

  datatype Block = Block(size: nat, used: bool)

  /** The header word of a block: its payload size in bytes, HEAP_FLAG_USING and
      HEAP_FLAG_LAST. */
  function WordOf(b: Block, last: bool): nat {
    8 * b.size + (if b.used then 1 else 0) + (if last then 2 else 0)
  }

  predicate IsUsing(word: nat) { word % 2 == 1 }

  predicate IsLast(word: nat) { word / 2 % 2 == 1 }

  /** `*heap & ~7` and `*heap >> 3`. */
  function SizeOf(word: nat): nat { word / 8 * 8 }

  lemma WordFields(b: Block, last: bool)
    ensures var w := WordOf(b, last);
      && (IsUsing(w) <==> b.used) && (IsLast(w) <==> last)
      && SizeOf(w) == 8 * b.size && w / 8 == b.size && w % 8 == (if b.used then 1 else 0) + (if last then 2 else 0)
  {
    WordBits(b.size, if b.used then 1 else 0, if last then 1 else 0);
  }

  /** A size in units of 8 and two flag bits. */
  lemma WordBits(size: nat, u: nat, l: nat)
    requires u <= 1 && l <= 1
    ensures var w := 8 * size + u + 2 * l; w / 8 == size && w % 8 == u + 2 * l && w % 2 == u && w / 2 % 2 == l
  {
    var w := 8 * size + u + 2 * l;
    DivModUnique(w, size, u + 2 * l, 8);
    DivModUnique(w, 4 * size + l, u, 2);
    DivModUnique(4 * size + l, 2 * size, l, 2);
  }

  /** Where the header of block `k` is. */
  function Pos(bs: seq<Block>, k: nat): nat
    requires k <= |bs|
  {
    if k == 0 then 0 else Pos(bs, k - 1) + 1 + bs[k - 1].size
  }

  lemma {:induction false} PosMonotone(bs: seq<Block>, j: nat, k: nat)
    requires j < k <= |bs|
    ensures Pos(bs, j) + 1 + bs[j].size <= Pos(bs, k)
  {
    if j < k - 1 { PosMonotone(bs, j, k - 1); }
  }

  lemma {:induction false} PosPrefix(bs: seq<Block>, cs: seq<Block>, k: nat)
    requires k <= |bs| && k <= |cs| && forall j :: 0 <= j < k ==> bs[j] == cs[j]
    ensures Pos(bs, k) == Pos(cs, k)
  {
    if k > 0 { PosPrefix(bs, cs, k - 1); }
  }

  lemma {:induction false} PosShift(bs: seq<Block>, cs: seq<Block>, k: nat, m: nat, i: nat)
    requires k + i <= |bs| && m + i <= |cs|
    requires forall a, b :: k <= a < k + i && b == a - k + m ==> bs[a] == cs[b]
    ensures Pos(bs, k + i) - Pos(bs, k) == Pos(cs, m + i) - Pos(cs, m)
  {
    if i > 0 {
      PosShift(bs, cs, k, m, i - 1);
      assert bs[k + i - 1] == cs[m + i - 1];
    }
  }

  ghost predicate HeaderAt(words: seq<nat>, bs: seq<Block>, k: nat)
    requires k < |bs|
  {
    Pos(bs, k) < |words| && words[Pos(bs, k)] == WordOf(bs[k], k == |bs| - 1)
  }

  /** The blocks tile the heap, each header where the one before it ends. */
  ghost predicate Tiled(words: seq<nat>, bs: seq<Block>) {
    && bs != [] && Pos(bs, |bs|) == |words|
    && forall k :: 0 <= k < |bs| ==> HeaderAt(words, bs, k)
  }

  /** The last block is free and no two neighbours are free. */
  ghost predicate Coalesced(bs: seq<Block>) {
    && bs != [] && !bs[|bs| - 1].used
    && forall i, j :: 0 <= i < j < |bs| && j == i + 1 ==> bs[i].used || bs[j].used
  }

  /** A live payload of `n` words starts at word `p`. */
  ghost predicate LiveAt(bs: seq<Block>, p: nat, n: nat) {
    exists k :: 0 <= k < |bs| && IsLive(bs, k, 0, p, n)
  }

  /** Word `i` belongs to a live payload other than the one at `except`. */
  ghost predicate LiveWord(bs: seq<Block>, i: nat, except: nat) {
    exists k :: 0 <= k < |bs| && bs[k].used && InPayload(bs, k, i) && Pos(bs, k) + 1 != except
  }

  predicate InPayload(bs: seq<Block>, k: nat, i: nat)
    requires k < |bs|
  {
    Pos(bs, k) + 1 <= i < Pos(bs, k) + 1 + bs[k].size
  }

  /** The words of the live payloads, those of the payload at `except` left out, are the same. */
  ghost predicate PayloadsKept(bs: seq<Block>, words: seq<nat>, words': seq<nat>, except: nat) {
    forall i: nat :: LiveWord(bs, i, except) ==> i < |words| && i < |words'| && words'[i] == words[i]
  }

  /** Live payloads lie inside the heap, clear of each other and of every header. */
  lemma LivePayloadsDisjoint(bs: seq<Block>, p: nat, n: nat, q: nat, m: nat)
    requires LiveAt(bs, p, n) && LiveAt(bs, q, m) && p != q
    ensures p + n < q || q + m < p
  {
    var k :| 0 <= k < |bs| && IsLive(bs, k, 0, p, n);
    var l :| 0 <= l < |bs| && IsLive(bs, l, 0, q, m);
    if k < l { PosMonotone(bs, k, l); } else if l < k { PosMonotone(bs, l, k); }
  }

  lemma HeaderOutsidePayload(bs: seq<Block>, k: nat, j: nat)
    requires k < |bs| && j < |bs|
    ensures !(Pos(bs, j) + 1 <= Pos(bs, k) < Pos(bs, j) + 1 + bs[j].size)
  {
    if k < j { PosMonotone(bs, k, j); } else if j < k { PosMonotone(bs, j, k); }
  }

  // ---------------------------------------------------------------- replacing blocks

  /** Blocks `k` to `k + n` replaced by `mid`. */
  function Splice(bs: seq<Block>, k: nat, n: nat, mid: seq<Block>): seq<Block>
    requires k + n <= |bs|
  {
    bs[..k] + mid + bs[k + n..]
  }

  lemma SpliceBefore(bs: seq<Block>, k: nat, n: nat, mid: seq<Block>, j: nat)
    requires k + n <= |bs| && j <= k
    ensures Pos(Splice(bs, k, n, mid), j) == Pos(bs, j) && (j < k ==> Splice(bs, k, n, mid)[j] == bs[j])
  {
    PosPrefix(bs, Splice(bs, k, n, mid), j);
  }

  lemma SpliceWithin(bs: seq<Block>, k: nat, n: nat, mid: seq<Block>, j: nat)
    requires k + n <= |bs| && j <= |mid|
    ensures var cs := Splice(bs, k, n, mid);
      |cs| == |bs| - n + |mid| && Pos(cs, k + j) == Pos(bs, k) + Pos(mid, j) && (j < |mid| ==> cs[k + j] == mid[j])
  {
    SpliceBefore(bs, k, n, mid, k);
    PosShift(mid, Splice(bs, k, n, mid), 0, k, j);
  }

  lemma SpliceAfter(bs: seq<Block>, k: nat, n: nat, mid: seq<Block>, j: nat)
    requires k + n <= j <= |bs| && Pos(mid, |mid|) == Pos(bs, k + n) - Pos(bs, k)
    ensures var cs := Splice(bs, k, n, mid);
      |cs| == |bs| - n + |mid| && Pos(cs, j - n + |mid|) == Pos(bs, j) && (j < |bs| ==> cs[j - n + |mid|] == bs[j])
  {
    SpliceWithin(bs, k, n, mid, |mid|);
    PosShift(bs, Splice(bs, k, n, mid), k + n, k + |mid|, j - (k + n));
  }

  /** Blocks were replaced by blocks of the same total extent, and their headers written. */
  lemma SpliceTiled(words: seq<nat>, words': seq<nat>, bs: seq<Block>, k: nat, n: nat, mid: seq<Block>, start: nat,
      last: bool)
    requires k + n <= |bs| && start == Pos(bs, k) && last == (k + n == |bs|)
    requires Tiled(words, bs) && n > 0 && mid != []
    requires Pos(mid, |mid|) == Pos(bs, k + n) - Pos(bs, k)
    requires |words'| == |words|
    requires forall j :: 0 <= j < |bs| && (j < k || k + n <= j) ==> HeaderAt(words', bs, j)
    requires forall j :: 0 <= j < |mid| ==> PieceAt(words', start, mid, j, last)
    ensures Tiled(words', Splice(bs, k, n, mid))
  {
    var cs := Splice(bs, k, n, mid);
    SpliceAfter(bs, k, n, mid, |bs|);
    hide Pos, WordOf, Splice;
    forall j | 0 <= j < |cs|
      ensures HeaderAt(words', cs, j)
    {
      if j < k {
        SpliceBefore(bs, k, n, mid, j);
        assert HeaderAt(words', bs, j);
      } else if k + |mid| <= j {
        SpliceAfter(bs, k, n, mid, j - |mid| + n);
        assert HeaderAt(words', bs, j - |mid| + n);
      } else {
        SpliceWithin(bs, k, n, mid, j - k);
        assert PieceAt(words', start, mid, j - k, last);
      }
    }
  }

  /** The header of the piece `j` of `mid`, when the pieces start at word `start`. */
  ghost predicate PieceAt(words: seq<nat>, start: nat, mid: seq<Block>, j: nat, last: bool)
    requires j < |mid|
  {
    start + Pos(mid, j) < |words| && words[start + Pos(mid, j)] == WordOf(mid[j], last && j == |mid| - 1)
  }

  /** Block `j` is a live payload of `m` words at word `p`. */
  ghost predicate IsLive(bs: seq<Block>, j: nat, start: nat, p: nat, m: nat)
    requires j < |bs|
  {
    bs[j] == Block(m, true) && start + Pos(bs, j) + 1 == p
  }

  /** Which payloads are live after blocks were replaced. */
  lemma SpliceLive(bs: seq<Block>, k: nat, n: nat, mid: seq<Block>, p: nat, m: nat)
    requires k + n <= |bs| && Pos(mid, |mid|) == Pos(bs, k + n) - Pos(bs, k)
    ensures LiveAt(Splice(bs, k, n, mid), p, m) <==>
      || (exists j :: 0 <= j < |bs| && (j < k || k + n <= j) && IsLive(bs, j, 0, p, m))
      || (exists j :: 0 <= j < |mid| && IsLive(mid, j, Pos(bs, k), p, m))
  {
    var cs := Splice(bs, k, n, mid);
    SpliceAfter(bs, k, n, mid, |bs|);
    hide Pos, Splice;
    if LiveAt(cs, p, m) {
      var j :| 0 <= j < |cs| && IsLive(cs, j, 0, p, m);
      if j < k {
        SpliceBefore(bs, k, n, mid, j);
        assert IsLive(bs, j, 0, p, m);
      } else if k + |mid| <= j {
        SpliceAfter(bs, k, n, mid, j - |mid| + n);
        assert IsLive(bs, j - |mid| + n, 0, p, m);
      } else {
        SpliceWithin(bs, k, n, mid, j - k);
        assert IsLive(mid, j - k, Pos(bs, k), p, m);
      }
    }
    forall j | 0 <= j < |bs| && (j < k || k + n <= j) && IsLive(bs, j, 0, p, m)
      ensures LiveAt(cs, p, m)
    {
      if j < k {
        SpliceBefore(bs, k, n, mid, j);
        assert IsLive(cs, j, 0, p, m);
      } else {
        SpliceAfter(bs, k, n, mid, j);
        assert IsLive(cs, j - n + |mid|, 0, p, m);
      }
    }
    forall j | 0 <= j < |mid| && IsLive(mid, j, Pos(bs, k), p, m)
      ensures LiveAt(cs, p, m)
    {
      SpliceWithin(bs, k, n, mid, j);
      assert IsLive(cs, k + j, 0, p, m);
    }
  }

  // ---------------------------------------------------------------- allocating

  /** The pieces an allocation of `w` words makes of a free block of `size` words. */
  function Pieces(size: nat, w: nat): (mid: seq<Block>)
    requires w <= size
    ensures Pos(mid, |mid|) == 1 + size
  {
    if size == w then [Block(w, true)] else
    var mid := [Block(w, true), Block(size - w - 1, false)];
    assert Pos(mid, 2) == Pos(mid, 1) + 1 + (size - w - 1) && Pos(mid, 1) == 1 + w;
    mid
  }

  function Taken(bs: seq<Block>, k: nat, w: nat): seq<Block>
    requires k < |bs| && w <= bs[k].size
  {
    Splice(bs, k, 1, Pieces(bs[k].size, w))
  }

  /** The first free block with room, or the number of blocks. */
  function FirstFree(bs: seq<Block>, w: nat): (k: nat)
    ensures k <= |bs| && (k < |bs| ==> !bs[k].used && bs[k].size >= w)
    ensures forall j :: 0 <= j < k ==> bs[j].used || bs[j].size < w
  {
    if bs == [] then 0
    else if !bs[0].used && bs[0].size >= w then 0
    else 1 + FirstFree(bs[1..], w)
  }

  lemma FirstFreeIs(bs: seq<Block>, w: nat, k: nat)
    requires k <= |bs| && (k < |bs| ==> !bs[k].used && bs[k].size >= w)
    requires forall j :: 0 <= j < k ==> bs[j].used || bs[j].size < w
    ensures FirstFree(bs, w) == k
  {
    var i := FirstFree(bs, w);
    assert i < |bs| ==> !bs[i].used && bs[i].size >= w;
  }

  /** The headers of the pieces written over the free block `k`. */
  ghost predicate TakenWords(words: seq<nat>, words': seq<nat>, bs: seq<Block>, k: nat, w: nat)
    requires k < |bs| && w <= bs[k].size
  {
    var h, last := Pos(bs, k), k == |bs| - 1;
    && |words'| == |words| && h + 1 + bs[k].size <= |words|
    && words'[h] == WordOf(Block(w, true), last && bs[k].size == w)
    && (bs[k].size > w ==> words'[h + 1 + w] == WordOf(Block(bs[k].size - w - 1, false), last))
    && forall i :: 0 <= i < |words| && i != h && (bs[k].size == w || i != h + 1 + w) ==> words'[i] == words[i]
  }

  lemma TakenTiled(words: seq<nat>, words': seq<nat>, bs: seq<Block>, k: nat, w: nat)
    requires Tiled(words, bs) && k < |bs| && w <= bs[k].size && TakenWords(words, words', bs, k, w)
    ensures Tiled(words', Taken(bs, k, w))
  {
    var mid := Pieces(bs[k].size, w);
    hide WordOf, Splice;
    forall j | 0 <= j < |bs| && j != k
      ensures HeaderAt(words', bs, j)
    {
      assert HeaderAt(words, bs, j);
      HeaderOutsidePayload(bs, j, k);
      if j < k { PosMonotone(bs, j, k); } else { PosMonotone(bs, k, j); }
    }
    var start, last := Pos(bs, k), k + 1 == |bs|;
    forall j | 0 <= j < |mid|
      ensures PieceAt(words', start, mid, j, last)
    {
      if j == 1 { assert Pos(mid, 1) == 1 + w; }
    }
    SpliceTiled(words, words', bs, k, 1, mid, start, last);
  }

  lemma TakenCoalesced(bs: seq<Block>, k: nat, w: nat)
    requires Coalesced(bs) && k < |bs| && !bs[k].used && w <= bs[k].size && (k == |bs| - 1 ==> w < bs[k].size)
    ensures Coalesced(Taken(bs, k, w))
  {
    var cs, mid := Taken(bs, k, w), Pieces(bs[k].size, w);
    forall i, j | 0 <= i < j < |cs| && j == i + 1
      ensures cs[i].used || cs[j].used
    {
      if j < k {
        assert cs[i] == bs[i] && cs[j] == bs[j];
      } else if i >= k + |mid| {
        assert cs[i] == bs[i - |mid| + 1] && cs[j] == bs[j - |mid| + 1];
      } else if i == k + |mid| - 1 && |mid| == 2 {
        assert cs[j] == bs[k + 1];
      }
    }
  }

  /** The live payloads after an allocation: the old ones and the new one. */
  lemma TakenLive(bs: seq<Block>, k: nat, w: nat, p: nat, m: nat)
    requires k < |bs| && !bs[k].used && w <= bs[k].size
    ensures LiveAt(Taken(bs, k, w), p, m) <==> LiveAt(bs, p, m) || (p == Pos(bs, k) + 1 && m == w)
  {
    var mid := Pieces(bs[k].size, w);
    SpliceLive(bs, k, 1, mid, p, m);
    assert IsLive(mid, 0, Pos(bs, k), p, m) <==> p == Pos(bs, k) + 1 && m == w;
    assert |mid| > 1 ==> !IsLive(mid, 1, Pos(bs, k), p, m);
    assert !IsLive(bs, k, 0, p, m);
    hide Pos, Splice, Pieces;
  }

  /** An allocation writes no word of a live payload. */
  lemma TakenKeeps(words: seq<nat>, words': seq<nat>, bs: seq<Block>, k: nat, w: nat)
    requires Tiled(words, bs) && k < |bs| && !bs[k].used && w <= bs[k].size && TakenWords(words, words', bs, k, w)
    ensures PayloadsKept(bs, words, words', 0)
  {
    hide WordOf;
    forall i: nat | LiveWord(bs, i, 0)
      ensures i < |words| && words'[i] == words[i]
    {
      var j :| 0 <= j < |bs| && bs[j].used && InPayload(bs, j, i);
      PosMonotone(bs, j, |bs|);
      if j < k { PosMonotone(bs, j, k); } else { PosMonotone(bs, k, j); }
    }
  }

  // ---------------------------------------------------------------- growing

  /** The last block longer by `d` words. */
  function Grown(bs: seq<Block>, d: nat): seq<Block>
    requires bs != []
  {
    bs[|bs| - 1 := Block(bs[|bs| - 1].size + d, bs[|bs| - 1].used)]
  }

  lemma GrownTiled(words: seq<nat>, more: seq<nat>, bs: seq<Block>)
    requires Tiled(words, bs)
    ensures var h := Pos(bs, |bs| - 1);
      && h < |words| && h + 1 + bs[|bs| - 1].size == |words|
      && Tiled(words[h := words[h] + 8 * |more|] + more, Grown(bs, |more|))
  {
    hide Pos, WordOf;
    var n := |bs| - 1;
    var h, cs := Pos(bs, n), Grown(bs, |more|);
    assert HeaderAt(words, bs, n);
    PosPrefix(bs, cs, n);
    PosNext(bs, n);
    PosNext(cs, n);
    LongerWord(bs[n], |more|);
    var words' := words[h := words[h] + 8 * |more|] + more;
    forall k | 0 <= k < |cs|
      ensures HeaderAt(words', cs, k)
    {
      assert HeaderAt(words, bs, k);
      PosPrefix(bs, cs, k);
      if k < n { PosMonotone(bs, k, n); }
    }
  }

  lemma LongerWord(b: Block, d: nat)
    ensures WordOf(b, true) + 8 * d == WordOf(Block(b.size + d, b.used), true)
  {
  }

  lemma GrownSame(bs: seq<Block>, d: nat, p: nat, n: nat)
    requires Coalesced(bs)
    ensures Coalesced(Grown(bs, d)) && (LiveAt(Grown(bs, d), p, n) <==> LiveAt(bs, p, n))
    ensures |Grown(bs, d)| == |bs| && Pos(Grown(bs, d), |bs| - 1) == Pos(bs, |bs| - 1)
  {
    var cs := Grown(bs, d);
    PosPrefix(bs, cs, |bs| - 1);
    forall k | 0 <= k < |bs|
      ensures IsLive(cs, k, 0, p, n) <==> IsLive(bs, k, 0, p, n)
    {
      PosPrefix(bs, cs, k);
    }
  }

  lemma GrownTwice(bs: seq<Block>, d: nat, e: nat)
    requires bs != []
    ensures Grown(bs, 0) == bs && Grown(Grown(bs, d), e) == Grown(bs, d + e)
  {
  }

  lemma GrownLiveWord(bs: seq<Block>, d: nat, i: nat)
    requires Coalesced(bs)
    ensures LiveWord(Grown(bs, d), i, 0) <==> LiveWord(bs, i, 0)
  {
    var cs := Grown(bs, d);
    forall k | 0 <= k < |bs|
      ensures Pos(cs, k) == Pos(bs, k)
    {
      PosPrefix(bs, cs, k);
    }
    if LiveWord(bs, i, 0) {
      var k :| 0 <= k < |bs| && bs[k].used && InPayload(bs, k, i);
      assert InPayload(cs, k, i);
    }
    if LiveWord(cs, i, 0) {
      var k :| 0 <= k < |cs| && cs[k].used && InPayload(cs, k, i);
      assert InPayload(bs, k, i);
    }
  }

  /** Writing headers and adding words at the end keeps the live payloads. */
  lemma GrownKeeps(words: seq<nat>, words': seq<nat>, bs: seq<Block>)
    requires Tiled(words, bs) && Coalesced(bs) && |words| <= |words'|
    requires forall i :: 0 <= i < |words| && i != Pos(bs, |bs| - 1) ==> words'[i] == words[i]
    ensures PayloadsKept(bs, words, words', 0)
  {
    forall i: nat | LiveWord(bs, i, 0)
      ensures i < |words| && words'[i] == words[i]
    {
      var j :| 0 <= j < |bs| && bs[j].used && InPayload(bs, j, i);
      PosMonotone(bs, j, |bs| - 1);
      PosMonotone(bs, |bs| - 1, |bs|);
    }
  }

  /** The last block grown by a page of arbitrary words. */
  lemma GrownByPage(words: seq<nat>, words': seq<nat>, more: seq<nat>, bs: seq<Block>)
    requires Tiled(words, bs) && Coalesced(bs) && |more| == WORDS_PER_PAGE && Pos(bs, |bs| - 1) < |words|
    requires var h := Pos(bs, |bs| - 1); words' == words[h := words[h] + 8 * WORDS_PER_PAGE] + more
    ensures var cs := Grown(bs, WORDS_PER_PAGE);
      && Tiled(words', cs) && Coalesced(cs) && cs != [] && |cs| == |bs| && Pos(cs, |cs| - 1) == Pos(bs, |bs| - 1)
      && PayloadsKept(bs, words, words', 0)
  {
    hide Pos, LiveWord, WordOf, HeaderAt, PayloadsKept, Grown;
    GrownTiled(words, more, bs);
    GrownSame(bs, WORDS_PER_PAGE, 0, 0);
    GrownKeeps(words, words', bs);
  }

  lemma LastInside(words: seq<nat>, bs: seq<Block>)
    requires Tiled(words, bs)
    ensures Pos(bs, |bs| - 1) < |words|
  {
    hide Pos;
    assert HeaderAt(words, bs, |bs| - 1);
  }

  lemma KeptTwice(bs: seq<Block>, d: nat, words: seq<nat>, words1: seq<nat>, words2: seq<nat>)
    requires Coalesced(bs) && PayloadsKept(bs, words, words1, 0) && PayloadsKept(Grown(bs, d), words1, words2, 0)
    ensures PayloadsKept(bs, words, words2, 0)
  {
    hide LiveWord;
    forall i: nat | LiveWord(bs, i, 0)
      ensures LiveWord(Grown(bs, d), i, 0)
    {
      GrownLiveWord(bs, d, i);
    }
  }

  // ---------------------------------------------------------------- freeing

  /** First and one-past-last of the blocks that become one when block `k` is freed. */
  function MergeLo(bs: seq<Block>, k: nat): (lo: nat)
    requires k < |bs|
    ensures lo <= k
  {
    if k > 0 && !bs[k - 1].used then k - 1 else k
  }

  function MergeHi(bs: seq<Block>, k: nat): (hi: nat)
    requires k < |bs|
    ensures k < hi <= |bs|
  {
    if k + 1 < |bs| && !bs[k + 1].used then k + 2 else k + 1
  }

  function MergedSize(bs: seq<Block>, k: nat): nat
    requires k < |bs|
  {
    (if k > 0 && !bs[k - 1].used then bs[k - 1].size + 1 else 0) + bs[k].size
      + (if k + 1 < |bs| && !bs[k + 1].used then bs[k + 1].size + 1 else 0)
  }

  function Released(bs: seq<Block>, k: nat): seq<Block>
    requires k < |bs|
  {
    Splice(bs, MergeLo(bs, k), MergeHi(bs, k) - MergeLo(bs, k), [Block(MergedSize(bs, k), false)])
  }

  lemma PosNext(bs: seq<Block>, k: nat)
    requires k < |bs|
    ensures Pos(bs, k + 1) == Pos(bs, k) + 1 + bs[k].size
  {
  }

  lemma MergedExtent(bs: seq<Block>, k: nat)
    requires k < |bs|
    ensures var mid := [Block(MergedSize(bs, k), false)];
      Pos(mid, 1) == Pos(bs, MergeHi(bs, k)) - Pos(bs, MergeLo(bs, k))
    ensures Pos(bs, MergeHi(bs, k)) == Pos(bs, MergeLo(bs, k)) + 1 + MergedSize(bs, k) <= Pos(bs, |bs|)
    ensures Pos(bs, MergeLo(bs, k)) <= Pos(bs, k)
    ensures Pos(bs, k) + 1 + bs[k].size <= Pos(bs, MergeHi(bs, k))
  {
    hide Pos;
    var hi := MergeHi(bs, k);
    PosNext(bs, k);
    PosNext([Block(MergedSize(bs, k), false)], 0);
    if k + 1 < |bs| { PosNext(bs, k + 1); }
    if k > 0 { PosNext(bs, k - 1); }
    PosStart(bs);
    PosStart([Block(MergedSize(bs, k), false)]);
    if hi < |bs| { PosMonotone(bs, hi, |bs|); }
  }

  lemma PosStart(bs: seq<Block>)
    ensures Pos(bs, 0) == 0
  {
  }

  lemma ReleasedTiled(words: seq<nat>, words': seq<nat>, bs: seq<Block>, k: nat, start: nat)
    requires Tiled(words, bs) && k < |bs| && |words'| == |words|
    requires start == Pos(bs, MergeLo(bs, k)) < |words|
    requires words'[start] == WordOf(Block(MergedSize(bs, k), false), MergeHi(bs, k) == |bs|)
    requires forall i :: 0 <= i < |words| && !(start <= i < Pos(bs, MergeHi(bs, k))) ==> words'[i] == words[i]
    ensures Tiled(words', Released(bs, k))
  {
    hide WordOf, Splice, MergeLo, MergeHi, MergedSize, Pos;
    var lo, hi := MergeLo(bs, k), MergeHi(bs, k);
    var mid := [Block(MergedSize(bs, k), false)];
    MergedExtent(bs, k);
    PosStart(mid);
    forall j | 0 <= j < |bs| && (j < lo || hi <= j)
      ensures HeaderAt(words', bs, j)
    {
      assert HeaderAt(words, bs, j);
      if j < lo { PosMonotone(bs, j, lo); } else if hi < j { PosMonotone(bs, hi, j); }
    }
    assert PieceAt(words', start, mid, 0, hi == |bs|);
    SpliceTiled(words, words', bs, lo, hi - lo, mid, start, hi == |bs|);
  }

  lemma ReleasedCoalesced(bs: seq<Block>, k: nat)
    requires Coalesced(bs) && k < |bs|
    ensures Coalesced(Released(bs, k))
  {
    var lo, hi, cs := MergeLo(bs, k), MergeHi(bs, k), Released(bs, k);
    forall i, j | 0 <= i < j < |cs| && j == i + 1
      ensures cs[i].used || cs[j].used
    {
      if j < lo {
        assert cs[i] == bs[i] && cs[j] == bs[j];
      } else if j == lo {
        assert cs[i] == bs[lo - 1];
      } else if i == lo {
        assert cs[j] == bs[hi];
      } else {
        assert cs[i] == bs[i - 1 + (hi - lo)] && cs[j] == bs[j - 1 + (hi - lo)];
      }
    }
  }

  /** The live payloads after freeing: all but the freed one. */
  lemma ReleasedLive(bs: seq<Block>, k: nat, p: nat, m: nat)
    requires k < |bs|
    ensures LiveAt(Released(bs, k), p, m) <==> LiveAt(bs, p, m) && p != Pos(bs, k) + 1
  {
    hide Pos, Splice, MergedSize;
    var lo, hi := MergeLo(bs, k), MergeHi(bs, k);
    var mid := [Block(MergedSize(bs, k), false)];
    MergedExtent(bs, k);
    SpliceLive(bs, lo, hi - lo, mid, p, m);
    assert !IsLive(mid, 0, Pos(bs, lo), p, m);
    forall j | 0 <= j < |bs| && j != k && IsLive(bs, j, 0, p, m)
      ensures p != Pos(bs, k) + 1 && (j < lo || hi <= j)
    {
      if j < k { PosMonotone(bs, j, k); } else { PosMonotone(bs, k, j); }
    }
  }

  /** Freeing writes no word of another live payload, as long as it stays inside the merged
      block. */
  lemma ReleasedKeeps(words: seq<nat>, words': seq<nat>, bs: seq<Block>, k: nat, start: nat)
    requires Tiled(words, bs) && k < |bs| && start == Pos(bs, k) + 1 && |words'| == |words|
    requires forall i :: 0 <= i < |words| && !(Pos(bs, MergeLo(bs, k)) <= i < Pos(bs, MergeHi(bs, k))) ==>
      words'[i] == words[i]
    ensures PayloadsKept(bs, words, words', start)
  {
    hide WordOf, MergedSize;
    var lo, hi := MergeLo(bs, k), MergeHi(bs, k);
    forall i: nat | LiveWord(bs, i, start)
      ensures i < |words| && i < |words'| && words'[i] == words[i]
    {
      var j :| 0 <= j < |bs| && bs[j].used && InPayload(bs, j, i) && Pos(bs, j) + 1 != start;
      PosMonotone(bs, j, |bs|);
      if j < lo { PosMonotone(bs, j, lo); } else if hi < j { PosMonotone(bs, hi, j); }
    }
  }

  // ---------------------------------------------------------------- pages of free payloads

  /** Page `p` of the heap lies wholly inside the payload of block `k`. */
  predicate PageInside(bs: seq<Block>, k: nat, p: nat)
    requires k < |bs|
  {
    Pos(bs, k) + 1 <= WORDS_PER_PAGE * p && WORDS_PER_PAGE * p + WORDS_PER_PAGE <= Pos(bs, k) + 1 + bs[k].size
  }

  /** No page wholly inside a free payload has memory. */
  ghost predicate Vacated(bs: seq<Block>, resident: set<nat>) {
    forall k: nat, p: nat :: k < |bs| && !bs[k].used && PageInside(bs, k, p) ==> p !in resident
  }

  /** The pages that hold a header. */
  function HeaderPages(bs: seq<Block>): set<nat> {
    set k: nat | k < |bs| :: Pos(bs, k) / WORDS_PER_PAGE
  }

  lemma NoHeaderInside(bs: seq<Block>, k: nat, p: nat)
    requires k < |bs| && PageInside(bs, k, p)
    ensures p !in HeaderPages(bs)
  {
    hide Pos;
    forall j: nat | j < |bs|
      ensures Pos(bs, j) / WORDS_PER_PAGE != p
    {
      HeaderOutsidePayload(bs, j, k);
    }
  }

  /** Using a live payload does not bring a page of a free payload back. */
  lemma TouchKeepsVacated(bs: seq<Block>, resident: set<nat>, i: nat, k: nat)
    requires Vacated(bs, resident) && k < |bs| && bs[k].used && InPayload(bs, k, i)
    ensures Vacated(bs, resident + {i / WORDS_PER_PAGE})
  {
    hide Pos;
    forall j: nat | j < |bs| && !bs[j].used && PageInside(bs, j, i / WORDS_PER_PAGE)
      ensures false
    {
      if j < k { PosMonotone(bs, j, k); } else { PosMonotone(bs, k, j); }
    }
  }

  /** Word `i` is a header or belongs to a live payload. */
  ghost predicate InUse(bs: seq<Block>, i: nat) {
    LiveWord(bs, i, 0) || exists k :: 0 <= k < |bs| && i == Pos(bs, k)
  }

  /** Using headers and live payloads brings no page of a free payload back. */
  lemma TouchVacated(bs: seq<Block>, resident: set<nat>, i: nat)
    requires Vacated(bs, resident) && HeaderPages(bs) <= resident && InUse(bs, i)
    ensures Vacated(bs, resident + {i / WORDS_PER_PAGE}) && HeaderPages(bs) <= resident + {i / WORDS_PER_PAGE}
  {
    hide Pos, HeaderPages, Vacated, InPayload;
    if LiveWord(bs, i, 0) {
      var k :| 0 <= k < |bs| && bs[k].used && InPayload(bs, k, i);
      TouchKeepsVacated(bs, resident, i, k);
    } else {
      var k :| 0 <= k < |bs| && i == Pos(bs, k);
      HeaderOfPage(bs, k);
      assert resident + {i / WORDS_PER_PAGE} == resident;
    }
  }

  lemma HeaderOfPage(bs: seq<Block>, k: nat)
    requires k < |bs|
    ensures Pos(bs, k) / WORDS_PER_PAGE in HeaderPages(bs)
  {
    hide Pos;
  }

  /** After an allocation. */
  lemma TakenVacated(bs: seq<Block>, resident: set<nat>, k: nat, w: nat)
    requires Vacated(bs, resident) && k < |bs| && !bs[k].used && w <= bs[k].size
    ensures Vacated(Taken(bs, k, w), resident + HeaderPages(Taken(bs, k, w)))
  {
    hide Pos, HeaderPages;
    var cs, mid := Taken(bs, k, w), Pieces(bs[k].size, w);
    PosNext(bs, k);
    forall j: nat, p: nat | j < |cs| && !cs[j].used && PageInside(cs, j, p)
      ensures p !in resident + HeaderPages(cs)
    {
      NoHeaderInside(cs, j, p);
      if j < k {
        SpliceBefore(bs, k, 1, mid, j);
        assert PageInside(bs, j, p);
      } else if k + |mid| <= j {
        SpliceAfter(bs, k, 1, mid, j - |mid| + 1);
        assert PageInside(bs, j - |mid| + 1, p);
      } else {
        SpliceWithin(bs, k, 1, mid, j - k);
        PieceStarts(bs[k].size, w);
        assert PageInside(bs, k, p);
      }
    }
  }

  lemma PieceStarts(size: nat, w: nat)
    requires w <= size
    ensures var mid := Pieces(size, w); Pos(mid, 0) == 0 && (|mid| > 1 ==> Pos(mid, 1) == 1 + w)
  {
    var mid := Pieces(size, w);
    if |mid| > 1 { PosNext(mid, 0); }
  }

  /** The headers an allocation writes are the only pages it can bring in. */
  lemma TakenResident(bs: seq<Block>, resident: set<nat>, resident': set<nat>, k: nat, w: nat)
    requires Vacated(bs, resident) && HeaderPages(bs) <= resident && k < |bs| && !bs[k].used && w <= bs[k].size
    requires resident' == resident + {Pos(bs, k) / WORDS_PER_PAGE} +
      if bs[k].size > w then {(Pos(bs, k) + 1 + w) / WORDS_PER_PAGE} else {}
    ensures Vacated(Taken(bs, k, w), resident') && HeaderPages(Taken(bs, k, w)) <= resident'
  {
    hide Pos, Splice, Vacated, Pieces;
    var cs, mid := Taken(bs, k, w), Pieces(bs[k].size, w);
    TakenVacated(bs, resident, k, w);
    TakenPositions(bs, k, w);
    VacatedLess(cs, resident + HeaderPages(cs), resident');
  }

  lemma VacatedLess(bs: seq<Block>, resident: set<nat>, resident': set<nat>)
    requires Vacated(bs, resident) && resident' <= resident
    ensures Vacated(bs, resident')
  {
    hide PageInside;
  }

  /** The headers after an allocation: the old ones and that of the rest. */
  lemma TakenPositions(bs: seq<Block>, k: nat, w: nat)
    requires k < |bs| && w <= bs[k].size
    ensures var cs := Taken(bs, k, w);
      && Pos(bs, k) / WORDS_PER_PAGE in HeaderPages(cs)
      && (bs[k].size > w ==> (Pos(bs, k) + 1 + w) / WORDS_PER_PAGE in HeaderPages(cs))
      && forall p :: p in HeaderPages(cs) ==>
           p in HeaderPages(bs) || (bs[k].size > w && p == (Pos(bs, k) + 1 + w) / WORDS_PER_PAGE)
  {
    hide Pos, Splice;
    var cs, mid := Taken(bs, k, w), Pieces(bs[k].size, w);
    PieceStarts(bs[k].size, w);
    PosNext(bs, k);
    SpliceWithin(bs, k, 1, mid, 0);
    if |mid| > 1 { SpliceWithin(bs, k, 1, mid, 1); }
    forall j: nat | j < |cs|
      ensures var p := Pos(cs, j) / WORDS_PER_PAGE;
        p in HeaderPages(bs) || (bs[k].size > w && p == (Pos(bs, k) + 1 + w) / WORDS_PER_PAGE)
    {
      if j < k {
        SpliceBefore(bs, k, 1, mid, j);
      } else if k + |mid| <= j {
        SpliceAfter(bs, k, 1, mid, j - |mid| + 1);
      }
    }
  }

  /** The pages that freeing gives back: those wholly inside the merged payload, from the
      page of the freed header to the page of the successor's header. */
  function WindowLo(merged: nat, start: nat): int {
    var a, b := (merged + 511) / WORDS_PER_PAGE, (start + 511) / WORDS_PER_PAGE - 1;
    if a < b then b else a
  }

  function WindowHi(merged: nat, end: nat): int {
    var a, b := merged / WORDS_PER_PAGE, end / WORDS_PER_PAGE + 1;
    if a > b then b else a
  }

  predicate InWindow(bs: seq<Block>, k: nat, p: nat)
    requires k < |bs|
  {
    var start, merged := Pos(bs, k) + 1, Pos(bs, MergeLo(bs, k)) + 1;
    WindowLo(merged, start) <= p < WindowHi(merged + MergedSize(bs, k), start + bs[k].size)
  }

  function Window(bs: seq<Block>, k: nat): set<nat>
    requires k < |bs|
  {
    set p: nat | p < Pos(bs, |bs|) && InWindow(bs, k, p)
  }

  lemma WindowIs(bs: seq<Block>, k: nat, p: nat)
    requires k < |bs|
    ensures p in Window(bs, k) <==> InWindow(bs, k, p)
  {
    hide Pos, MergedSize;
    MergedExtent(bs, k);
  }

  /** Safe: a page given back holds no header and no live payload word. */
  lemma WindowSafe(bs: seq<Block>, k: nat, p: nat)
    requires k < |bs| && p in Window(bs, k)
    ensures PageInside(Released(bs, k), MergeLo(bs, k), p)
    ensures p !in HeaderPages(Released(bs, k))
    ensures forall i: nat :: i / WORDS_PER_PAGE == p ==> !LiveWord(Released(bs, k), i, 0)
    ensures Pos(bs, MergeLo(bs, k)) < WORDS_PER_PAGE * p &&
      WORDS_PER_PAGE * p + WORDS_PER_PAGE <= Pos(bs, MergeHi(bs, k))
  {
    hide MergedSize, HeaderPages;
    var cs, lo := Released(bs, k), MergeLo(bs, k);
    var mid := [Block(MergedSize(bs, k), false)];
    MergedExtent(bs, k);
    PosStart(mid);
    SpliceWithin(bs, lo, MergeHi(bs, k) - lo, mid, 0);
    NoHeaderInside(cs, lo, p);
    forall i: nat, j | i / WORDS_PER_PAGE == p && 0 <= j < |cs| && cs[j].used
      ensures !InPayload(cs, j, i)
    {
      if j < lo { PosMonotone(cs, j, lo); } else { PosMonotone(cs, lo, j); }
    }
  }

  /** Complete: after the window is given back no page wholly inside a free payload has
      memory. */
  lemma WindowComplete(bs: seq<Block>, resident: set<nat>, k: nat)
    requires Vacated(bs, resident) && k < |bs|
    ensures Vacated(Released(bs, k), resident - Window(bs, k))
  {
    hide Pos, MergedSize, Window, MergeLo, MergeHi, Released, PageInside;
    var cs := Released(bs, k);
    forall j: nat, p: nat | j < |cs| && !cs[j].used && PageInside(cs, j, p)
      ensures p !in resident - Window(bs, k)
    {
      if p !in Window(bs, k) { var i := PageInsideBefore(bs, k, j, p); }
    }
  }

  /** A page wholly inside a free payload after freeing, but outside the window, lay inside one
      before. */
  lemma PageInsideBefore(bs: seq<Block>, k: nat, j: nat, p: nat) returns (i: nat)
    requires k < |bs| && j < |Released(bs, k)| && !Released(bs, k)[j].used && PageInside(Released(bs, k), j, p)
    requires p !in Window(bs, k)
    ensures i < |bs| && !bs[i].used && PageInside(bs, i, p)
  {
    hide Pos, MergedSize, Window, MergeLo, MergeHi, Splice;
    var lo, hi := MergeLo(bs, k), MergeHi(bs, k);
    var mid := [Block(MergedSize(bs, k), false)];
    MergedExtent(bs, k);
    PosStart(mid);
    if j < lo {
      SpliceBefore(bs, lo, hi - lo, mid, j);
      i := j;
    } else if lo < j {
      i := j - 1 + (hi - lo);
      LengthAfter(bs, lo, hi, mid);
      SpliceAfter(bs, lo, hi - lo, mid, i);
    } else {
      SpliceWithin(bs, lo, hi - lo, mid, 0);
      OutsideWindow(bs, k, p);
      i := if k > 0 && !bs[k - 1].used && PageInside(bs, k - 1, p) then k - 1 else k + 1;
    }
  }

  lemma LengthAfter(bs: seq<Block>, lo: nat, hi: nat, mid: seq<Block>)
    requires lo <= hi <= |bs|
    ensures |Splice(bs, lo, hi - lo, mid)| == |bs| - (hi - lo) + |mid|
  {
  }

  /** A page inside the merged payload but outside the window lay inside a neighbour's free
      payload before. */
  lemma OutsideWindow(bs: seq<Block>, k: nat, p: nat)
    requires k < |bs| && p !in Window(bs, k)
    requires Pos(bs, MergeLo(bs, k)) + 1 <= WORDS_PER_PAGE * p
    requires WORDS_PER_PAGE * p + WORDS_PER_PAGE <= Pos(bs, MergeLo(bs, k)) + 1 + MergedSize(bs, k)
    ensures
      || (k > 0 && !bs[k - 1].used && PageInside(bs, k - 1, p))
      || (k + 1 < |bs| && !bs[k + 1].used && PageInside(bs, k + 1, p))
  {
    WindowIs(bs, k, p);

    PosNext(bs, k);
    if k > 0 { PosNext(bs, k - 1); }
  }

  /** The headers left after freeing are old headers, outside the window. */
  lemma ReleasedHeaders(bs: seq<Block>, k: nat)
    requires k < |bs|
    ensures HeaderPages(Released(bs, k)) <= HeaderPages(bs) - Window(bs, k)
  {
    hide Pos, MergedSize, Window, MergeLo, MergeHi;
    var lo, hi, cs := MergeLo(bs, k), MergeHi(bs, k), Released(bs, k);
    var mid := [Block(MergedSize(bs, k), false)];
    MergedExtent(bs, k);
    PosStart(mid);
    forall j: nat | j < |cs|
      ensures Pos(cs, j) / WORDS_PER_PAGE in HeaderPages(bs)
    {
      if j < lo {
        SpliceBefore(bs, lo, hi - lo, mid, j);
      } else if lo < j {
        SpliceAfter(bs, lo, hi - lo, mid, j - 1 + (hi - lo));
      } else {
        SpliceWithin(bs, lo, hi - lo, mid, 0);
      }
    }
    forall p: nat | p in Window(bs, k)
      ensures p !in HeaderPages(cs)
    {
      WindowSafe(bs, k, p);
    }
  }

  /** Freeing a free block again is no change. */
  lemma ReleasedFree(bs: seq<Block>, k: nat)
    requires Coalesced(bs) && k < |bs| && !bs[k].used
    ensures MergeLo(bs, k) == k && MergeHi(bs, k) == k + 1 && MergedSize(bs, k) == bs[k].size
    ensures Released(bs, k) == bs
  {
  }

  lemma WindowOfFree(bs: seq<Block>, resident: set<nat>, k: nat)
    requires Coalesced(bs) && k < |bs| && !bs[k].used && Vacated(bs, resident)
    ensures Window(bs, k) * resident == {}
  {
    hide Window;
    ReleasedFree(bs, k);
    forall p | p in Window(bs, k)
      ensures p !in resident
    {
      WindowSafe(bs, k, p);
    }
  }
}
