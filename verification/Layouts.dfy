/** Typed address ranges kept as an address-sorted, maximally coalesced sequence:
    the value a block list of pmm.c denotes, and the pure form of what the list
    operations of pmm.c and vmm.c do to it. */
module Layouts {

  const PAGE: nat := 4096

  /** Machine words are numbers below this one. */
  const WORD64: nat := 0x1_0000_0000_0000_0000

  datatype Option<+T> = None | Some(value: T)

  datatype Range = Range(addr: nat, size: nat, kind: nat) {
    function End(): nat { addr + size }

    predicate Has(x: nat) { addr <= x < addr + size }

    predicate ApartFrom(other: Range) {
      End() <= other.addr || other.End() <= addr
    }
  }

  /** Address `x` lies in a block of type `k`: the typed address map of a layout. */
  ghost predicate Covers(s: seq<Range>, x: nat, k: nat) {
    exists i :: 0 <= i < |s| && s[i].Has(x) && s[i].kind == k
  }

  /** The two layouts denote the same typed address map. */
  ghost predicate SameMap(s: seq<Range>, t: seq<Range>) {
    forall x: nat, k: nat :: Covers(s, x, k) <==> Covers(t, x, k)
  }

  /** Nonempty blocks, in address order, disjoint, and no two touching blocks of one type. */
  ghost predicate Canonical(s: seq<Range>) {
    && (forall i :: 0 <= i < |s| ==> s[i].size > 0)
    && (forall i, j :: 0 <= i < j < |s| ==>
          s[i].End() <= s[j].addr && (s[i].kind == s[j].kind ==> s[i].End() < s[j].addr))
  }

  ghost predicate Apart(s: seq<Range>, b: Range) {
    forall i :: 0 <= i < |s| ==> s[i].ApartFrom(b)
  }

  // ---------------------------------------------------------------- insertion

  /** `dst` and `src` have one type and `src` starts inside `dst` or right at its end. */
  predicate Absorbs(dst: Range, src: Range) {
    dst.kind == src.kind && dst.addr <= src.addr <= dst.End()
  }

  /** `dst` grown to the later of the two ends. */
  function Join(dst: Range, src: Range): Range {
    var z := if dst.End() > src.End() then dst.End() else src.End();
    Range(dst.addr, if z >= dst.addr then z - dst.addr else 0, dst.kind)
  }

  /** The pure form of the insertion walk. */
  function Insert(s: seq<Range>, b: Range): seq<Range> {
    if s == [] then [b]
    else if Absorbs(s[0], b) then
      var m := Join(s[0], b);
      if |s| > 1 && Absorbs(m, s[1]) then [Join(m, s[1])] + s[2..] else [m] + s[1..]
    else if Absorbs(b, s[0]) then [Join(b, s[0])] + s[1..]
    else if s[0].addr >= b.addr then [b] + s
    else [s[0]] + Insert(s[1..], b)
  }

  lemma CoversCons(r: Range, s: seq<Range>, x: nat, k: nat)
    ensures Covers([r] + s, x, k) <==> (r.Has(x) && r.kind == k) || Covers(s, x, k)
  {
    var t := [r] + s;
    if Covers(t, x, k) {
      var i :| 0 <= i < |t| && t[i].Has(x) && t[i].kind == k;
      assert i > 0 ==> t[i] == s[i - 1];
    }
    if Covers(s, x, k) {
      var i :| 0 <= i < |s| && s[i].Has(x) && s[i].kind == k;
      assert t[i + 1] == s[i];
    }
    assert t[0] == r;
  }

  lemma CoversConcat(s: seq<Range>, t: seq<Range>, x: nat, k: nat)
    ensures Covers(s + t, x, k) <==> Covers(s, x, k) || Covers(t, x, k)
  {
    var u := s + t;
    if Covers(u, x, k) {
      var i :| 0 <= i < |u| && u[i].Has(x) && u[i].kind == k;
      assert if i < |s| then u[i] == s[i] else u[i] == t[i - |s|];
    }
    if Covers(s, x, k) {
      var i :| 0 <= i < |s| && s[i].Has(x) && s[i].kind == k;
      assert u[i] == s[i];
    }
    if Covers(t, x, k) {
      var i :| 0 <= i < |t| && t[i].Has(x) && t[i].kind == k;
      assert u[|s| + i] == t[i];
    }
  }

  /** Insertion adds the new range to the typed address map and nothing else. */
  lemma {:induction false} InsertCovers(s: seq<Range>, b: Range, x: nat, k: nat)
    requires Canonical(s) && Apart(s, b)
    ensures Covers(Insert(s, b), x, k) <==> Covers(s, x, k) || (b.Has(x) && b.kind == k)
  {
    if s == [] {
      CoversCons(b, [], x, k);
    } else if Absorbs(s[0], b) {
      var m := Join(s[0], b);
      assert s == [s[0]] + s[1..];
      CoversCons(s[0], s[1..], x, k);
      if |s| > 1 && Absorbs(m, s[1]) {
        assert s[1..] == [s[1]] + s[2..];
        CoversCons(s[1], s[2..], x, k);
        CoversCons(Join(m, s[1]), s[2..], x, k);
      } else {
        CoversCons(m, s[1..], x, k);
      }
    } else if Absorbs(b, s[0]) {
      assert s == [s[0]] + s[1..];
      CoversCons(s[0], s[1..], x, k);
      CoversCons(Join(b, s[0]), s[1..], x, k);
    } else if s[0].addr >= b.addr {
      CoversCons(b, s, x, k);
    } else {
      assert s == [s[0]] + s[1..];
      CoversCons(s[0], s[1..], x, k);
      CoversCons(s[0], Insert(s[1..], b), x, k);
      InsertCovers(s[1..], b, x, k);
    }
  }

  /** Every block of the result starts where an old block or the new range starts. */
  lemma {:induction false} InsertStarts(s: seq<Range>, b: Range, j: nat)
    requires j < |Insert(s, b)|
    ensures var r := Insert(s, b)[j];
      (r.addr == b.addr && r.kind == b.kind) ||
      exists i :: 0 <= i < |s| && s[i].addr == r.addr && s[i].kind == r.kind
  {
    if s == [] {
    } else if Absorbs(s[0], b) {
      var m := Join(s[0], b);
      if |s| > 1 && Absorbs(m, s[1]) {
        assert j > 0 ==> Insert(s, b)[j] == s[j + 1];
      } else {
        assert j > 0 ==> Insert(s, b)[j] == s[j];
      }
      assert j == 0 ==> Insert(s, b)[j].addr == s[0].addr;
    } else if Absorbs(b, s[0]) {
      assert j > 0 ==> Insert(s, b)[j] == s[j];
    } else if s[0].addr >= b.addr {
      assert j > 0 ==> Insert(s, b)[j] == s[j - 1];
    } else if j > 0 {
      InsertStarts(s[1..], b, j - 1);
      var r := Insert(s[1..], b)[j - 1];
      if !(r.addr == b.addr && r.kind == b.kind) {
        var i :| 0 <= i < |s[1..]| && s[1..][i].addr == r.addr && s[1..][i].kind == r.kind;
        assert s[i + 1] == s[1..][i];
      }
    } else {
      assert Insert(s, b)[0] == s[0];
    }
  }

  lemma ConsCanonical(r: Range, s: seq<Range>)
    requires Canonical(s) && r.size > 0
    requires forall j :: 0 <= j < |s| ==>
      r.End() <= s[j].addr && (r.kind == s[j].kind ==> r.End() < s[j].addr)
    ensures Canonical([r] + s)
  {
  }

  /** Where the new range meets the first block, the result is canonical at once. */
  lemma InsertFirstCanonical(s: seq<Range>, b: Range)
    requires Canonical(s) && Apart(s, b) && b.size > 0 && s != []
    requires Absorbs(s[0], b) || Absorbs(b, s[0]) || s[0].addr >= b.addr
    ensures Canonical(Insert(s, b))
  {
    if Absorbs(s[0], b) {
      var m := Join(s[0], b);
      assert m.End() == b.End();
      if |s| > 1 && Absorbs(m, s[1]) {
        ConsCanonical(Join(m, s[1]), s[2..]);
      } else {
        ConsCanonical(m, s[1..]);
      }
    } else if Absorbs(b, s[0]) {
      ConsCanonical(Join(b, s[0]), s[1..]);
    } else {
      ConsCanonical(b, s);
    }
  }

  /** Insertion of a nonempty range disjoint from the layout keeps it canonical: the
      three-way merge of left neighbour, new range and right neighbour included. */
  lemma {:induction false} InsertCanonical(s: seq<Range>, b: Range)
    requires Canonical(s) && Apart(s, b) && b.size > 0
    ensures Canonical(Insert(s, b))
  {
    if s == [] {
    } else if Absorbs(s[0], b) || Absorbs(b, s[0]) || s[0].addr >= b.addr {
      InsertFirstCanonical(s, b);
    } else {
      var t := Insert(s[1..], b);
      InsertCanonical(s[1..], b);
      forall j | 0 <= j < |t|
        ensures s[0].End() <= t[j].addr && (s[0].kind == t[j].kind ==> s[0].End() < t[j].addr)
      {
        InsertStarts(s[1..], b, j);
      }
      ConsCanonical(s[0], t);
    }
  }

  /** Some block of the range's type contains or touches its start. */
  ghost predicate Touched(s: seq<Range>, b: Range) {
    exists i :: 0 <= i < |s| && Absorbs(s[i], b)
  }

  lemma TouchedTail(s: seq<Range>, b: Range)
    requires s != [] && !Absorbs(s[0], b)
    ensures Touched(s, b) <==> Touched(s[1..], b)
  {
    if Touched(s, b) {
      var i :| 0 <= i < |s| && Absorbs(s[i], b);
      assert s[1..][i - 1] == s[i];
    }
    if Touched(s[1..], b) {
      var i :| 0 <= i < |s[1..]| && Absorbs(s[1..][i], b);
      assert s[i + 1] == s[1..][i];
    }
  }

  /** What an empty range does: it is absorbed without trace by a block of its type
      that it touches, and otherwise stays behind as an empty block. */
  lemma {:induction false} InsertEmpty(s: seq<Range>, b: Range)
    requires Canonical(s) && Apart(s, b) && b.size == 0
    ensures Touched(s, b) ==> Insert(s, b) == s
    ensures !Touched(s, b) ==> exists j :: 0 <= j < |Insert(s, b)| && Insert(s, b)[j].size == 0
  {
    if s == [] {
      assert Insert(s, b)[0] == b;
    } else if Absorbs(s[0], b) {
      assert Join(s[0], b) == s[0];
      assert [s[0]] + s[1..] == s;
    } else if s[0].addr >= b.addr {
      assert Insert(s, b)[0] == b;
    } else {
      TouchedTail(s, b);
      InsertEmpty(s[1..], b);
      var t := Insert(s[1..], b);
      assert [s[0]] + s[1..] == s;
      if !Touched(s, b) {
        var j :| 0 <= j < |t| && t[j].size == 0;
        assert Insert(s, b)[j + 1] == t[j];
      }
    }
  }

  /** The exact condition under which an insertion keeps the list canonical. */
  lemma InsertCanonicalIff(s: seq<Range>, b: Range)
    requires Canonical(s) && Apart(s, b)
    ensures Canonical(Insert(s, b)) <==> b.size > 0 || Touched(s, b)
  {
    if b.size > 0 {
      InsertCanonical(s, b);
    } else {
      InsertEmpty(s, b);
    }
  }

  // ---------------------------------------------------------------- uniqueness

  lemma CanonicalHeads(s: seq<Range>, t: seq<Range>)
    requires Canonical(s) && Canonical(t) && SameMap(s, t) && s != []
    ensures t != [] && t[0].addr <= s[0].addr
  {
    assert s[0].Has(s[0].addr);
    assert Covers(s, s[0].addr, s[0].kind);
    assert Covers(t, s[0].addr, s[0].kind);
  }

  lemma NotCoveredAtEnd(s: seq<Range>)
    requires Canonical(s) && s != []
    ensures !Covers(s, s[0].End(), s[0].kind)
  {
    forall i | 0 <= i < |s| && s[i].kind == s[0].kind
      ensures !s[i].Has(s[0].End())
    {
    }
  }

  lemma CanonicalHeadEnds(s: seq<Range>, t: seq<Range>)
    requires Canonical(s) && Canonical(t) && SameMap(s, t) && s != [] && t != []
    requires s[0].addr == t[0].addr
    ensures s[0].kind == t[0].kind && t[0].End() <= s[0].End()
  {
    var a := s[0].addr;
    assert s[0].Has(a);
    assert Covers(s, a, s[0].kind);
    assert Covers(t, a, s[0].kind);
    var i :| 0 <= i < |t| && t[i].Has(a) && t[i].kind == s[0].kind;
    assert i == 0;
    var x := s[0].End();
    NotCoveredAtEnd(s);
    assert !Covers(t, x, s[0].kind);
    assert !t[0].Has(x);
  }

  /** A coalesced layout is determined by its typed address map. */
  lemma {:induction false} CanonicalUnique(s: seq<Range>, t: seq<Range>)
    requires Canonical(s) && Canonical(t) && SameMap(s, t)
    ensures s == t
  {
    if s == [] {
      if t != [] { CanonicalHeads(t, s); }
    } else {
      CanonicalHeads(s, t);
      CanonicalHeads(t, s);
      CanonicalHeadEnds(s, t);
      CanonicalHeadEnds(t, s);
      assert s == [s[0]] + s[1..] && t == [t[0]] + t[1..];
      forall x: nat, k: nat
        ensures Covers(s[1..], x, k) <==> Covers(t[1..], x, k)
      {
        CoversCons(s[0], s[1..], x, k);
        CoversCons(t[0], t[1..], x, k);
        assert Covers(s, x, k) <==> Covers(t, x, k);
      }
      CanonicalUnique(s[1..], t[1..]);
    }
  }

  // ---------------------------------------------------------------- freeing in any order

  lemma ApartIffUncovered(s: seq<Range>, b: Range)
    requires Canonical(s) && b.size > 0
    ensures Apart(s, b) <==> forall x: nat, k: nat :: b.Has(x) ==> !Covers(s, x, k)
  {
    if forall x: nat, k: nat :: b.Has(x) ==> !Covers(s, x, k) {
      forall i | 0 <= i < |s|
        ensures s[i].ApartFrom(b)
      {
        var x := if s[i].addr > b.addr then s[i].addr else b.addr;
        if b.Has(x) {
          assert !Covers(s, x, s[i].kind);
          assert !s[i].Has(x);
        }
      }
    }
  }

  lemma InsertKeepsApart(s: seq<Range>, b: Range, c: Range)
    requires Canonical(s) && Apart(s, b) && b.size > 0 && Apart(s, c) && c.size > 0 && b.ApartFrom(c)
    ensures Apart(Insert(s, b), c)
  {
    InsertCanonical(s, b);
    ApartIffUncovered(s, c);
    forall x: nat, k: nat | c.Has(x)
      ensures !Covers(Insert(s, b), x, k)
    {
      InsertCovers(s, b, x, k);
    }
    ApartIffUncovered(Insert(s, b), c);
  }

  /** Nonempty ranges, disjoint from each other and from the layout. */
  ghost predicate Releasable(s: seq<Range>, bs: seq<Range>) {
    && (forall i :: 0 <= i < |bs| ==> bs[i].size > 0 && Apart(s, bs[i]))
    && (forall i, j :: 0 <= i < j < |bs| ==> bs[i].ApartFrom(bs[j]))
  }

  function InsertAll(s: seq<Range>, bs: seq<Range>): seq<Range>
    decreases bs
  {
    if bs == [] then s else InsertAll(Insert(s, bs[0]), bs[1..])
  }

  lemma ReleasableTail(s: seq<Range>, bs: seq<Range>)
    requires Canonical(s) && Releasable(s, bs) && bs != []
    ensures Canonical(Insert(s, bs[0])) && Releasable(Insert(s, bs[0]), bs[1..])
  {
    InsertCanonical(s, bs[0]);
    forall i | 0 <= i < |bs[1..]|
      ensures Apart(Insert(s, bs[0]), bs[1..][i])
    {
      InsertKeepsApart(s, bs[0], bs[i + 1]);
    }
  }

  lemma {:induction false} InsertAllCovers(s: seq<Range>, bs: seq<Range>)
    requires Canonical(s) && Releasable(s, bs)
    ensures Canonical(InsertAll(s, bs))
    ensures forall x: nat, k: nat ::
      Covers(InsertAll(s, bs), x, k) <==>
      Covers(s, x, k) || exists b :: b in bs && b.Has(x) && b.kind == k
    decreases bs
  {
    if bs != [] {
      ReleasableTail(s, bs);
      InsertAllCovers(Insert(s, bs[0]), bs[1..]);
      forall x: nat, k: nat
        ensures Covers(InsertAll(s, bs), x, k) <==>
          Covers(s, x, k) || exists b :: b in bs && b.Has(x) && b.kind == k
      {
        InsertCovers(s, bs[0], x, k);
        assert bs == [bs[0]] + bs[1..];
      }
    }
  }

  /** Releasing the same disjoint ranges in any two orders gives the identical block list. */
  lemma ReleaseOrderIrrelevant(s: seq<Range>, bs: seq<Range>, cs: seq<Range>)
    requires Canonical(s) && Releasable(s, bs) && Releasable(s, cs)
    requires forall b :: b in bs <==> b in cs
    ensures InsertAll(s, bs) == InsertAll(s, cs)
  {
    InsertAllCovers(s, bs);
    InsertAllCovers(s, cs);
    CanonicalUnique(InsertAll(s, bs), InsertAll(s, cs));
  }

  // ---------------------------------------------------------------- first fit

  function Pow2(k: nat): (r: nat)
    ensures r > 0
  {
    if k == 0 then 1 else 2 * Pow2(k - 1)
  }

  /** Rounding up to a multiple of `unit`, a power of two: `(x + unit - 1) & ~(unit - 1)`. */
  function AlignUp(x: nat, unit: nat): nat
    requires unit > 0
  {
    (x + unit - 1) / unit * unit
  }

  /** Where a request starts to look: rounded up to a page, in 64 bits. */
  function From(hint: nat): nat { AlignUp(hint, PAGE) % WORD64 }

  /** The lowest multiple of `unit` that is not below `x`. */
  lemma AlignUpIsLeast(x: nat, unit: nat)
    requires unit > 0
    ensures AlignUp(x, unit) >= x && AlignUp(x, unit) % unit == 0
    ensures forall m: nat :: m >= x && m % unit == 0 ==> AlignUp(x, unit) <= m
  {
    var q := (x + unit - 1) / unit;
    DivModUnique(q * unit, q, 0, unit);
    assert q * unit <= x + unit - 1 < q * unit + unit;
    forall m: nat | m >= x && m % unit == 0
      ensures AlignUp(x, unit) <= m
    {
      var k := m / unit;
      assert m == k * unit;
      MulGap(q, k, unit);
      MulGap(k, q, unit);
    }
  }

  lemma MulMonotone(a: nat, b: nat, unit: nat)
    requires a <= b
    ensures a * unit <= b * unit
  {
  }

  lemma MulGap(a: nat, b: nat, unit: nat)
    ensures a < b ==> a * unit + unit <= b * unit
    ensures a <= b ==> a * unit <= b * unit
  {
    if a < b {
      MulMonotone(a + 1, b, unit);
      assert (a + 1) * unit == a * unit + unit;
    } else if a == b {
    }
  }

  lemma DivModUnique(x: nat, q: nat, r: nat, unit: nat)
    requires unit > 0 && r < unit && x == q * unit + r
    ensures x / unit == q && x % unit == r
  {
    var d := x / unit;
    assert x == d * unit + x % unit;
    MulGap(d, q, unit);
    MulGap(q, d, unit);
  }

  /** Where a run may start in block `r`, not below `lo` and on a multiple of `unit`. */
  function FitAt(r: Range, lo: nat, unit: nat): nat
    requires unit > 0
  {
    AlignUp(if r.addr < lo then lo else r.addr, unit)
  }

  /** Block `r`, of the wanted type if one is wanted, has room for `pages` pages from there. */
  predicate Fits(r: Range, lo: nat, pages: nat, unit: nat, want: Option<nat>)
    requires unit > 0
  {
    && r.End() > FitAt(r, lo, unit)
    && (r.End() - FitAt(r, lo, unit)) / PAGE >= pages
    && (want.Some? ==> r.kind == want.value)
  }

  /** Index of the first block that fits, or the length of the list. */
  function FirstFit(s: seq<Range>, lo: nat, pages: nat, unit: nat, want: Option<nat>): (i: nat)
    requires unit > 0
    ensures i <= |s|
    ensures forall j :: 0 <= j < i ==> !Fits(s[j], lo, pages, unit, want)
    ensures i < |s| ==> Fits(s[i], lo, pages, unit, want)
  {
    if s == [] then 0
    else if Fits(s[0], lo, pages, unit, want) then 0
    else 1 + FirstFit(s[1..], lo, pages, unit, want)
  }

  /** The addresses `[m, m + pages * PAGE)` all lie in blocks of type `k`. */
  ghost predicate RunOf(s: seq<Range>, m: nat, pages: nat, k: nat) {
    forall x: nat :: m <= x < m + pages * PAGE ==> Covers(s, x, k)
  }

  /** In a coalesced layout a contiguous run of one type lies in a single block. */
  lemma RunInOneBlock(s: seq<Range>, m: nat, pages: nat, k: nat) returns (i: nat)
    requires Canonical(s) && pages > 0 && RunOf(s, m, pages, k)
    ensures i < |s| && s[i].kind == k && s[i].addr <= m && m + pages * PAGE <= s[i].End()
  {
    assert Covers(s, m, k);
    i :| 0 <= i < |s| && s[i].Has(m) && s[i].kind == k;
    var x := s[i].End();
    forall j | 0 <= j < |s| && s[j].kind == k
      ensures !s[j].Has(x)
    {
    }
    assert !Covers(s, x, k);
  }

  /** The run found by first fit is aligned, not below `lo`, and inside one block of the type. */
  lemma FirstFitSound(s: seq<Range>, lo: nat, pages: nat, unit: nat, want: Option<nat>)
    requires unit > 0
    ensures var i := FirstFit(s, lo, pages, unit, want);
      i < |s| ==>
        var at := FitAt(s[i], lo, unit);
        && lo <= at && at % unit == 0
        && s[i].addr <= at && at + pages * PAGE <= s[i].End()
        && RunOf(s, at, pages, s[i].kind)
        && (want.Some? ==> s[i].kind == want.value)
  {
    var i := FirstFit(s, lo, pages, unit, want);
    if i < |s| {
      AlignUpIsLeast(if s[i].addr < lo then lo else s[i].addr, unit);
      var at := FitAt(s[i], lo, unit);
      forall x: nat | at <= x < at + pages * PAGE
        ensures Covers(s, x, s[i].kind)
      {
        assert s[i].Has(x);
      }
    }
  }

  /** First fit finds the lowest aligned run: whenever any suitable run of a single type
      exists at `m`, the search succeeds, at an address not above `m`. */
  lemma FirstFitLowest(s: seq<Range>, lo: nat, pages: nat, unit: nat, want: Option<nat>, m: nat, k: nat)
    requires Canonical(s) && unit > 0 && pages > 0
    requires lo <= m && m % unit == 0 && RunOf(s, m, pages, k) && (want.Some? ==> k == want.value)
    ensures var i := FirstFit(s, lo, pages, unit, want);
      i < |s| && FitAt(s[i], lo, unit) <= m
  {
    var b := RunInOneBlock(s, m, pages, k);
    AlignUpIsLeast(if s[b].addr < lo then lo else s[b].addr, unit);
    var at := FitAt(s[b], lo, unit);
    assert at <= m;
    assert Fits(s[b], lo, pages, unit, want);
    var i := FirstFit(s, lo, pages, unit, want);
    if i < b {
      AlignUpIsLeast(if s[i].addr < lo then lo else s[i].addr, unit);
    }
  }

  /** The search fails exactly when the typed address map holds no suitable run at all. */
  lemma FirstFitFailsIff(s: seq<Range>, lo: nat, pages: nat, unit: nat, want: Option<nat>)
    requires Canonical(s) && unit > 0 && pages > 0
    ensures FirstFit(s, lo, pages, unit, want) == |s| <==>
      !exists m: nat, k: nat ::
        lo <= m && m % unit == 0 && RunOf(s, m, pages, k) && (want.Some? ==> k == want.value)
  {
    var i := FirstFit(s, lo, pages, unit, want);
    FirstFitSound(s, lo, pages, unit, want);
    if m: nat, k: nat :|
      lo <= m && m % unit == 0 && RunOf(s, m, pages, k) && (want.Some? ==> k == want.value)
    {
      FirstFitLowest(s, lo, pages, unit, want, m, k);
    }
  }

  // ---------------------------------------------------------------- removal

  function Piece(addr: nat, size: nat, kind: nat): seq<Range> {
    if size == 0 then [] else [Range(addr, size, kind)]
  }

  /** Block `i` without the addresses `[at, at + size)`. */
  function Remove(s: seq<Range>, i: nat, at: nat, size: nat): seq<Range>
    requires i < |s| && s[i].addr <= at && at + size <= s[i].End()
  {
    s[..i] + (Piece(s[i].addr, at - s[i].addr, s[i].kind) +
              Piece(at + size, s[i].End() - (at + size), s[i].kind)) + s[i + 1..]
  }

  lemma CoversPiece(addr: nat, size: nat, kind: nat, x: nat, k: nat)
    ensures Covers(Piece(addr, size, kind), x, k) <==> addr <= x < addr + size && k == kind
  {
    if size > 0 {
      assert Piece(addr, size, kind)[0].Has(x) <==> addr <= x < addr + size;
    }
  }

  lemma CoversAround(s: seq<Range>, i: nat, mid: seq<Range>, x: nat, k: nat)
    requires i < |s|
    ensures Covers(s[..i] + mid + s[i + 1..], x, k) <==>
      Covers(s[..i], x, k) || Covers(mid, x, k) || Covers(s[i + 1..], x, k)
  {
    CoversConcat(s[..i] + mid, s[i + 1..], x, k);
    CoversConcat(s[..i], mid, x, k);
  }

  lemma CoversSplitAt(s: seq<Range>, i: nat, x: nat, k: nat)
    requires i < |s|
    ensures Covers(s, x, k) <==>
      Covers(s[..i], x, k) || (s[i].Has(x) && s[i].kind == k) || Covers(s[i + 1..], x, k)
  {
    CoversAround(s, i, [s[i]], x, k);
    assert s == s[..i] + [s[i]] + s[i + 1..];
    CoversCons(s[i], [], x, k);
  }

  /** Neighbours of block `i` do not reach into it. */
  lemma NeighboursOutside(s: seq<Range>, i: nat, x: nat, k: nat)
    requires Canonical(s) && i < |s| && s[i].Has(x)
    ensures !Covers(s[..i], x, k) && !Covers(s[i + 1..], x, k)
  {
    var left, right := s[..i], s[i + 1..];
    forall j | 0 <= j < |left|
      ensures !left[j].Has(x)
    {
      assert left[j] == s[j];
    }
    forall j | 0 <= j < |right|
      ensures !right[j].Has(x)
    {
      assert right[j] == s[i + 1 + j];
    }
  }

  /** Removal takes exactly the run out of the typed address map. */
  lemma RemoveCovers(s: seq<Range>, i: nat, at: nat, size: nat, x: nat, k: nat)
    requires Canonical(s) && i < |s| && s[i].addr <= at && at + size <= s[i].End()
    ensures Covers(Remove(s, i, at, size), x, k) <==> Covers(s, x, k) && !(at <= x < at + size)
  {
    var left := Piece(s[i].addr, at - s[i].addr, s[i].kind);
    var right := Piece(at + size, s[i].End() - (at + size), s[i].kind);
    CoversAround(s, i, left + right, x, k);
    CoversConcat(left, right, x, k);
    CoversPiece(s[i].addr, at - s[i].addr, s[i].kind, x, k);
    CoversPiece(at + size, s[i].End() - (at + size), s[i].kind, x, k);
    CoversSplitAt(s, i, x, k);
    if s[i].Has(x) {
      NeighboursOutside(s, i, x, k);
    }
  }

  lemma SpliceCanonical(s: seq<Range>, i: nat, mid: seq<Range>)
    requires Canonical(s) && i < |s| && Canonical(mid)
    requires forall j :: 0 <= j < |mid| ==>
      s[i].addr <= mid[j].addr && mid[j].End() <= s[i].End() && mid[j].kind == s[i].kind
    ensures Canonical(s[..i] + mid + s[i + 1..])
  {
    var r := s[..i] + mid + s[i + 1..];
    forall j {:trigger r[j]} | 0 <= j < |r|
      ensures r[j] == if j < i then s[j] else if j < i + |mid| then mid[j - i] else s[j - |mid| + 1]
    {
    }
  }

  lemma RemoveCanonical(s: seq<Range>, i: nat, at: nat, size: nat)
    requires Canonical(s) && i < |s| && s[i].addr <= at && at + size <= s[i].End() && size > 0
    ensures Canonical(Remove(s, i, at, size))
  {
    var left := Piece(s[i].addr, at - s[i].addr, s[i].kind);
    var right := Piece(at + size, s[i].End() - (at + size), s[i].kind);
    SpliceCanonical(s, i, left + right);
  }

  /** Giving back exactly what was taken restores the identical sequence of blocks. */
  lemma RemoveThenInsert(s: seq<Range>, i: nat, at: nat, size: nat)
    requires Canonical(s) && i < |s| && s[i].addr <= at && at + size <= s[i].End() && size > 0
    ensures Apart(Remove(s, i, at, size), Range(at, size, s[i].kind))
    ensures Insert(Remove(s, i, at, size), Range(at, size, s[i].kind)) == s
  {
    var b := Range(at, size, s[i].kind);
    var r := Remove(s, i, at, size);
    RemoveCanonical(s, i, at, size);
    forall x: nat, k: nat | b.Has(x)
      ensures !Covers(r, x, k)
    {
      RemoveCovers(s, i, at, size, x, k);
    }
    ApartIffUncovered(r, b);
    InsertCanonical(r, b);
    forall x: nat, k: nat
      ensures Covers(Insert(r, b), x, k) <==> Covers(s, x, k)
    {
      InsertCovers(r, b, x, k);
      RemoveCovers(s, i, at, size, x, k);
      if b.Has(x) {
        assert s[i].Has(x);
        NeighboursOutside(s, i, x, k);
        CoversSplitAt(s, i, x, k);
      }
    }
    CanonicalUnique(Insert(r, b), s);
  }

  /** The list surgery of a left-aligned carve (shrink block `i` to its left part, then
      insert the right part) is removal. */
  lemma ShrinkThenInsert(s: seq<Range>, i: nat, at: nat, size: nat)
    requires Canonical(s) && i < |s| && s[i].addr < at && at + size < s[i].End() && size > 0
    ensures var left := s[i := Range(s[i].addr, at - s[i].addr, s[i].kind)];
            var right := Range(at + size, s[i].End() - (at + size), s[i].kind);
      Canonical(left) && Apart(left, right) && Insert(left, right) == Remove(s, i, at, size)
  {
    var r := Remove(s, i, at, size);
    var right := Range(at + size, s[i].End() - (at + size), s[i].kind);
    var left := s[i := Range(s[i].addr, at - s[i].addr, s[i].kind)];
    RemoveCanonical(s, i, at, size);
    assert r[i + 1] == right;
    assert Remove(r, i + 1, right.addr, right.size) == left by {
      assert r[..i + 1] == left[..i + 1];
      assert r[i + 2..] == left[i + 1..];
    }
    RemoveThenInsert(r, i + 1, right.addr, right.size);
    RemoveCanonical(r, i + 1, right.addr, right.size);
  }

  function Without<T>(s: seq<T>, i: nat): seq<T>
    requires i < |s|
  {
    s[..i] + s[i + 1..]
  }

  function With<T>(s: seq<T>, i: nat, x: T): seq<T>
    requires i <= |s|
  {
    s[..i] + [x] + s[i..]
  }

  /** Taking the lowest page off the list. */
  function TakeFirst(s: seq<Range>): seq<Range>
    requires s != [] && s[0].size >= PAGE
  {
    Remove(s, 0, s[0].addr, PAGE)
  }

  // ---------------------------------------------------------------- page accounting

  function PageCount(s: seq<Range>): nat {
    if s == [] then 0 else s[0].size / PAGE + PageCount(s[1..])
  }

  // ---------------------------------------------------------------- retyping

  /** Insertion of a range that may be empty, in which case nothing is inserted. */
  function InsertPiece(s: seq<Range>, b: Range): seq<Range> {
    if b.size == 0 then s else Insert(s, b)
  }

  function LeftOf(r: Range, at: nat): Range
    requires r.addr <= at
  {
    Range(r.addr, at - r.addr, r.kind)
  }

  function RightOf(r: Range, end: nat): Range
    requires end <= r.End()
  {
    Range(end, r.End() - end, r.kind)
  }

  /** Block `i` taken out of the layout, and its left part, the run `[at, at + size)` with
      type `kind`, and its right part put back. */
  function Retype(s: seq<Range>, i: nat, at: nat, size: nat, kind: nat): seq<Range>
    requires i < |s| && s[i].addr <= at && at + size <= s[i].End()
  {
    InsertPiece(
      InsertPiece(
        InsertPiece(Without(s, i), LeftOf(s[i], at)),
        Range(at, size, kind)),
      RightOf(s[i], at + size))
  }

  lemma WithoutCovers(s: seq<Range>, i: nat, x: nat, k: nat)
    requires Canonical(s) && i < |s|
    ensures Canonical(Without(s, i))
    ensures Covers(Without(s, i), x, k) <==> Covers(s, x, k) && !s[i].Has(x)
  {
    CoversConcat(s[..i], s[i + 1..], x, k);
    CoversSplitAt(s, i, x, k);
    if s[i].Has(x) { NeighboursOutside(s, i, x, k); }
  }

  lemma WithoutApart(s: seq<Range>, i: nat, b: Range)
    requires Canonical(s) && i < |s| && s[i].addr <= b.addr && b.End() <= s[i].End()
    ensures Apart(Without(s, i), b)
  {
    var d := Without(s, i);
    forall j | 0 <= j < |d|
      ensures d[j].ApartFrom(b)
    {
      assert d[j] == if j < i then s[j] else s[j + 1];
    }
  }

  lemma InsertPieceStep(s: seq<Range>, b: Range)
    requires Canonical(s) && Apart(s, b)
    ensures Canonical(InsertPiece(s, b))
    ensures forall x: nat, k: nat :: Covers(InsertPiece(s, b), x, k) <==> Covers(s, x, k) || (b.Has(x) && k == b.kind)
    ensures forall c: Range :: c.size > 0 && Apart(s, c) && b.ApartFrom(c) ==> Apart(InsertPiece(s, b), c)
  {
    if b.size > 0 {
      InsertCanonical(s, b);
      forall x: nat, k: nat
        ensures Covers(Insert(s, b), x, k) <==> Covers(s, x, k) || (b.Has(x) && k == b.kind)
      {
        InsertCovers(s, b, x, k);
      }
      forall c: Range | c.size > 0 && Apart(s, c) && b.ApartFrom(c)
        ensures Apart(Insert(s, b), c)
      {
        InsertKeepsApart(s, b, c);
      }
    }
  }

  /** The three insertions of a retyping meet their preconditions. */
  lemma RetypeSteps(s: seq<Range>, i: nat, at: nat, size: nat, kind: nat)
    requires Canonical(s) && i < |s| && s[i].addr <= at && at + size <= s[i].End() && size > 0
    ensures var d := Without(s, i);
      var d1 := InsertPiece(d, LeftOf(s[i], at));
      var d2 := InsertPiece(d1, Range(at, size, kind));
      && Canonical(d) && Apart(d, LeftOf(s[i], at))
      && Canonical(d1) && Apart(d1, Range(at, size, kind))
      && Canonical(d2) && (RightOf(s[i], at + size).size > 0 ==> Apart(d2, RightOf(s[i], at + size)))
  {
    hide Insert, Covers;
    var l, m, r := LeftOf(s[i], at), Range(at, size, kind), RightOf(s[i], at + size);
    WithoutCovers(s, i, 0, 0);
    WithoutApart(s, i, l);
    WithoutApart(s, i, m);
    WithoutApart(s, i, r);
    InsertPieceStep(Without(s, i), l);
    InsertPieceStep(InsertPiece(Without(s, i), l), m);
  }

  /** A retyping changes the type of exactly the run and re-establishes coalescing. */
  lemma RetypeMeaning(s: seq<Range>, i: nat, at: nat, size: nat, kind: nat)
    requires Canonical(s) && i < |s| && s[i].addr <= at && at + size <= s[i].End() && size > 0
    ensures Canonical(Retype(s, i, at, size, kind))
    ensures forall x: nat, k: nat ::
      Covers(Retype(s, i, at, size, kind), x, k) <==>
      if at <= x < at + size then k == kind else Covers(s, x, k)
  {
    hide Insert, InsertPiece;
    var l, m, r := LeftOf(s[i], at), Range(at, size, kind), RightOf(s[i], at + size);
    var d := Without(s, i);
    var d1 := InsertPiece(d, l);
    var d2 := InsertPiece(d1, m);
    RetypeSteps(s, i, at, size, kind);
    InsertPieceStep(d, l);
    InsertPieceStep(d1, m);
    if r.size > 0 {
      InsertPieceStep(d2, r);
    } else {
      EmptyPiece(d2, r);
    }
    forall x: nat, k: nat
      ensures Covers(Retype(s, i, at, size, kind), x, k) <==>
        if at <= x < at + size then k == kind else Covers(s, x, k)
    {
      WithoutCovers(s, i, x, k);
      CoversSplitAt(s, i, x, k);
      if s[i].Has(x) { NeighboursOutside(s, i, x, k); }
    }
  }

  lemma EmptyPiece(s: seq<Range>, b: Range)
    requires b.size == 0
    ensures InsertPiece(s, b) == s
  {
  }
}
