/** The boot loader's normalisation of the UEFI memory map (EFI/src/main.c): the descriptors
    are sorted by start and neighbours of one type are merged, both in place. The input is
    defined in section 7.2 of the UEFI Specification. */
module BootMemoryMap {
  import opened Layouts

  datatype Descriptor = Descriptor(kind: nat, start: nat, pages: nat, attribute: nat) {
    function End(): nat { start + pages * PAGE }

    function Block(): Range { Range(start, pages * PAGE, kind) }
  }

  // ---------------------------------------------------------------- sorting

  ghost predicate SortedUpTo(s: seq<Descriptor>, n: nat) {
    forall i, j :: 0 <= i < j < |s| && i < n ==> s[i].start <= s[j].start
  }

  /** The same descriptors in some order. */
  ghost predicate Permuted(s: seq<Descriptor>, t: seq<Descriptor>) {
    |s| == |t| && multiset(s) == multiset(t)
  }

  function Swapped(s: seq<Descriptor>, i: nat, j: nat): seq<Descriptor>
    requires i < |s| && j < |s|
  {
    s[i := s[j]][j := s[i]]
  }

  lemma SwapPermutes(s: seq<Descriptor>, i: nat, j: nat)
    requires i < |s| && j < |s|
    ensures Permuted(s, Swapped(s, i, j))
  {
  }

  /** Moving the least of the rest to its front sorts one more. */
  lemma SwapSorts(s: seq<Descriptor>, i: nat, min: nat)
    requires i <= min < |s| && SortedUpTo(s, i) && forall j :: i <= j < |s| ==> s[min].start <= s[j].start
    ensures SortedUpTo(Swapped(s, i, min), i + 1)
  {
  }

  /** SortMemoryMap: a selection sort of the first `count` descriptors. */
  method SortMemoryMap(entries: array<Descriptor>, count: nat)
    requires count <= entries.Length
    modifies entries
    ensures SortedUpTo(entries[..count], count) && Permuted(old(entries[..count]), entries[..count])
    ensures entries[count..] == old(entries[count..])
  {
    var i := 0;
    while i < count
      invariant i <= count && SortedUpTo(entries[..count], i)
      invariant Permuted(old(entries[..count]), entries[..count])
      invariant entries[count..] == old(entries[count..])
    {
      ghost var s := entries[..count];
      var min := Least(entries, i, count);
      SwapSorts(s, i, min);
      SwapPermutes(s, i, min);
      if min != i {
        var desc := entries[i];
        entries[i] := entries[min];
        entries[min] := desc;
      }
      assert entries[..count] == Swapped(s, i, min);
      i := i + 1;
    }
  }

  /** The inner loop: the first of the least of the rest. */
  method Least(entries: array<Descriptor>, i: nat, count: nat) returns (min: nat)
    requires i < count <= entries.Length
    ensures i <= min < count && forall j :: i <= j < count ==> entries[min].start <= entries[j].start
  {
    min := i;
    var j := i + 1;
    while j < count
      invariant i <= min < j <= count && forall k :: i <= k < j ==> entries[min].start <= entries[k].start
    {
      if entries[j].start < entries[min].start {
        min := j;
      }
      j := j + 1;
    }
  }

  // ---------------------------------------------------------------- compacting

  /** The test of CompactMemoryMap: `b` has the type of `a` and starts where `a` ends, in 64
      bits. */
  predicate Mergeable(a: Descriptor, b: Descriptor) {
    b.kind == a.kind && a.End() % WORD64 == b.start
  }

  function Longer(a: Descriptor, b: Descriptor): Descriptor {
    a.(pages := (a.pages + b.pages) % WORD64)
  }

  /** The compacted descriptors `done`, the last of them still open, and the ones to come. */
  function CompactOnto(done: seq<Descriptor>, rest: seq<Descriptor>): (s: seq<Descriptor>)
    requires done != []
    ensures |done| <= |s| <= |done| + |rest|
    decreases rest
  {
    if rest == [] then done
    else if Mergeable(done[|done| - 1], rest[0]) then
      CompactOnto(done[|done| - 1 := Longer(done[|done| - 1], rest[0])], rest[1..])
    else CompactOnto(done + [rest[0]], rest[1..])
  }

  function Compacted(s: seq<Descriptor>): seq<Descriptor>
    requires s != []
  {
    CompactOnto([s[0]], s[1..])
  }

  lemma CompactStart(s: seq<Descriptor>)
    requires s != []
    ensures Compacted(s) == CompactOnto([s[0]], s[1..])
  {
  }

  lemma CompactNext(done: seq<Descriptor>, s: seq<Descriptor>, j: nat)
    requires done != [] && j < |s|
    ensures CompactOnto(done, s[j..]) ==
      if Mergeable(done[|done| - 1], s[j])
      then CompactOnto(done[|done| - 1 := Longer(done[|done| - 1], s[j])], s[j + 1..])
      else CompactOnto(done + [s[j]], s[j + 1..])
  {
    assert s[j..][1..] == s[j + 1..];
  }

  lemma CompactEnd(done: seq<Descriptor>, s: seq<Descriptor>)
    requires done != []
    ensures CompactOnto(done, s[|s|..]) == done
  {
  }

  /** CompactMemoryMap: the first `count` descriptors are compacted in place and their new
      number is returned. For a count of 0 the code answers 1 and changes nothing. */
  method CompactMemoryMap(entries: array<Descriptor>, count: nat) returns (n: nat)
    requires count <= entries.Length
    modifies entries
    ensures count == 0 ==> n == 1 && entries[..] == old(entries[..])
    ensures count > 0 ==> 1 <= n <= count && entries[..n] == Compacted(old(entries[..count]))
    ensures entries[count..] == old(entries[count..])
  {
    hide CompactOnto, Compacted;
    ghost var s := entries[..count];
    if count > 0 {
      CompactStart(s);
      assert entries[..1] == [s[0]];
    }
    var i, j := 0, 1;
    while j < count
      invariant if count == 0 then i == 0 && j == 1 else i < j <= count
      invariant entries[count..] == old(entries[count..]) && (count == 0 ==> entries[..] == old(entries[..]))
      invariant forall k :: j <= k < count ==> entries[k] == s[k]
      invariant count > 0 ==> CompactOnto(entries[..i + 1], s[j..]) == Compacted(s)
    {
      ghost var done := entries[..i + 1];
      CompactNext(done, s, j);
      if entries[j].kind == entries[i].kind &&
          (entries[i].start + entries[i].pages * PAGE) % WORD64 == entries[j].start {
        entries[i] := entries[i].(pages := (entries[i].pages + entries[j].pages) % WORD64);
        assert entries[..i + 1] == done[i := Longer(done[i], s[j])];
      } else {
        i := i + 1;
        if i != j {
          entries[i] := entries[j];
        }
        assert entries[..i + 1] == done + [s[j]];
      }
      j := j + 1;
    }
    if count > 0 { CompactEnd(entries[..i + 1], s); }
    return i + 1;
  }

  // ---------------------------------------------------------------- what compaction keeps

  /** The page map: address `x` has type `k`. */
  ghost predicate TypeAt(s: seq<Descriptor>, x: nat, k: nat) {
    exists i :: 0 <= i < |s| && s[i].Block().Has(x) && s[i].kind == k
  }

  /** Every descriptor ends below the top of the 64-bit address space. */
  ghost predicate Sane(s: seq<Descriptor>) {
    forall i :: 0 <= i < |s| ==> s[i].End() < WORD64
  }

  /** No two consecutive descriptors could be merged. */
  ghost predicate Settled(s: seq<Descriptor>) {
    forall i, j :: 0 <= i < j < |s| && j == i + 1 ==> !Mergeable(s[i], s[j])
  }

  lemma TypeAtAppend(s: seq<Descriptor>, t: seq<Descriptor>, x: nat, k: nat)
    ensures TypeAt(s + t, x, k) <==> TypeAt(s, x, k) || TypeAt(t, x, k)
  {
    forall i | 0 <= i < |s|
      ensures (s + t)[i] == s[i]
    {
    }
    forall i | 0 <= i < |t|
      ensures (s + t)[|s| + i] == t[i]
    {
    }
  }

  lemma TypeAtOne(d: Descriptor, x: nat, k: nat)
    ensures TypeAt([d], x, k) <==> d.Block().Has(x) && d.kind == k
  {
    assert [d][0] == d;
  }

  /** Merging the last descriptor with the next one keeps the page map. */
  lemma LongerKeeps(done: seq<Descriptor>, d: Descriptor, x: nat, k: nat)
    requires done != [] && done[|done| - 1].End() < WORD64 && d.End() < WORD64 && Mergeable(done[|done| - 1], d)
    ensures var a := done[|done| - 1];
      var t := done[|done| - 1 := Longer(a, d)];
      && Longer(a, d).End() == d.End()
      && (TypeAt(t, x, k) <==> TypeAt(done, x, k) || TypeAt([d], x, k))
  {
    var n := |done| - 1;
    var a := done[n];
    assert done == done[..n] + [a] && done[n := Longer(a, d)] == done[..n] + [Longer(a, d)];
    TypeAtAppend(done[..n], [a], x, k);
    TypeAtAppend(done[..n], [Longer(a, d)], x, k);
    TypeAtOne(a, x, k);
    TypeAtOne(d, x, k);
    TypeAtOne(Longer(a, d), x, k);
    PagesFit(a, d);
  }

  lemma PagesFit(a: Descriptor, d: Descriptor)
    requires a.End() < WORD64 && d.End() < WORD64 && Mergeable(a, d)
    ensures Longer(a, d) == a.(pages := a.pages + d.pages) && a.End() == d.start
  {
  }

  /** Compaction keeps the type of every page, and leaves no consecutive mergeable pair. */
  lemma {:induction false} CompactKeeps(done: seq<Descriptor>, rest: seq<Descriptor>, x: nat, k: nat)
    requires done != [] && Sane(done) && Sane(rest) && Settled(done)
    ensures TypeAt(CompactOnto(done, rest), x, k) <==> TypeAt(done, x, k) || TypeAt(rest, x, k)
    ensures Settled(CompactOnto(done, rest))
    decreases rest
  {
    if rest != [] {
      var a, d := done[|done| - 1], rest[0];
      assert rest == [d] + rest[1..];
      TypeAtAppend([d], rest[1..], x, k);
      if Mergeable(a, d) {
        LongerKeeps(done, d, x, k);
        SettledLonger(done, d);
        CompactKeeps(done[|done| - 1 := Longer(a, d)], rest[1..], x, k);
      } else {
        TypeAtAppend(done, [d], x, k);
        SettledAppend(done, d);
        CompactKeeps(done + [d], rest[1..], x, k);
      }
    }
  }

  lemma SettledLonger(done: seq<Descriptor>, d: Descriptor)
    requires done != [] && Sane(done) && d.End() < WORD64 && Settled(done) && Mergeable(done[|done| - 1], d)
    ensures var t := done[|done| - 1 := Longer(done[|done| - 1], d)]; Sane(t) && Settled(t)
  {
    PagesFit(done[|done| - 1], d);
  }

  lemma SettledAppend(done: seq<Descriptor>, d: Descriptor)
    requires done != [] && Settled(done) && !Mergeable(done[|done| - 1], d)
    ensures Settled(done + [d])
  {
  }

  /** What CompactMemoryMap leaves: the same page map, and nothing left to merge. */
  lemma CompactedMeaning(s: seq<Descriptor>, x: nat, k: nat)
    requires s != [] && Sane(s)
    ensures TypeAt(Compacted(s), x, k) <==> TypeAt(s, x, k)
    ensures Settled(Compacted(s)) && 1 <= |Compacted(s)| <= |s|
  {
    assert s == [s[0]] + s[1..];
    TypeAtAppend([s[0]], s[1..], x, k);
    CompactKeeps([s[0]], s[1..], x, k);
  }

  // ---------------------------------------------------------------- the normal form

  /** Sorted descriptors that do not overlap and are not empty. */
  ghost predicate Laid(s: seq<Descriptor>) {
    && (forall i :: 0 <= i < |s| ==> s[i].pages > 0 && s[i].End() < WORD64)
    && (forall i, j :: 0 <= i < j < |s| ==> s[i].End() <= s[j].start)
  }

  function Blocks(s: seq<Descriptor>): (b: seq<Range>)
    ensures |b| == |s| && forall i :: 0 <= i < |s| ==> b[i] == s[i].Block()
  {
    seq(|s|, i requires 0 <= i < |s| => s[i].Block())
  }

  lemma {:induction false} CompactLaid(done: seq<Descriptor>, rest: seq<Descriptor>)
    requires done != [] && Laid(done + rest)
    ensures Laid(CompactOnto(done, rest))
    decreases rest
  {
    if rest == [] {
      assert done + rest == done;
    } else {
      var n := |done| - 1;
      var a, d := done[n], rest[0];
      assert (done + rest)[n] == a && (done + rest)[n + 1] == d;
      if Mergeable(a, d) {
        PagesFit(a, d);
        var t := done[n := Longer(a, d)];
        LaidMerge(done + rest, n, t + rest[1..]);
        CompactLaid(t, rest[1..]);
      } else {
        assert done + [d] + rest[1..] == done + rest;
        CompactLaid(done + [d], rest[1..]);
      }
    }
  }

  lemma LaidMerge(u: seq<Descriptor>, n: nat, v: seq<Descriptor>)
    requires Laid(u) && n + 1 < |u| && Mergeable(u[n], u[n + 1]) && |v| == |u| - 1
    requires v[n] == Longer(u[n], u[n + 1])
    requires forall i, j :: 0 <= i < |v| && i != n && j == (if i < n then i else i + 1) ==> v[i] == u[j]
    ensures Laid(v)
  {
    PagesFit(u[n], u[n + 1]);
    assert v[n].End() == u[n + 1].End() && v[n].start == u[n].start && v[n].pages > 0;
    forall i | 0 <= i < |v|
      ensures v[i].pages > 0 && v[i].End() < WORD64
    {
      if i != n { assert v[i] == u[if i < n then i else i + 1]; }
    }
    forall i, j | 0 <= i < j < |v|
      ensures v[i].End() <= v[j].start
    {
      var a := if i < n then i else i + 1;
      var b := if j <= n then j else j + 1;
      assert v[i].End() == u[a].End();
      assert v[j].start == u[b].start;
    }
  }

  /** On a sorted map without overlaps the result is canonical: it depends only on the page
      map, not on how the firmware cut it into descriptors. */
  lemma NormalForm(s: seq<Descriptor>, t: seq<Descriptor>)
    requires s != [] && t != [] && Laid(s) && Laid(t)
    requires forall x: nat, k: nat :: TypeAt(s, x, k) <==> TypeAt(t, x, k)
    ensures Blocks(Compacted(s)) == Blocks(Compacted(t))
  {
    CompactedCanonical(s);
    CompactedCanonical(t);
    forall x: nat, k: nat
      ensures Covers(Blocks(Compacted(s)), x, k) <==> Covers(Blocks(Compacted(t)), x, k)
    {
      CompactedMeaning(s, x, k);
      CompactedMeaning(t, x, k);
      BlocksCover(Compacted(s), x, k);
      BlocksCover(Compacted(t), x, k);
    }
    CanonicalUnique(Blocks(Compacted(s)), Blocks(Compacted(t)));
  }

  lemma BlocksCover(s: seq<Descriptor>, x: nat, k: nat)
    ensures Covers(Blocks(s), x, k) <==> TypeAt(s, x, k)
  {
    if TypeAt(s, x, k) {
      var i :| 0 <= i < |s| && s[i].Block().Has(x) && s[i].kind == k;
      assert Blocks(s)[i].Has(x);
    }
  }

  lemma CompactedCanonical(s: seq<Descriptor>)
    requires s != [] && Laid(s)
    ensures Canonical(Blocks(Compacted(s)))
  {
    assert s == [s[0]] + s[1..];
    CompactLaid([s[0]], s[1..]);
    CompactedMeaning(s, 0, 0);
    var c := Compacted(s);
    var b := Blocks(c);
    hide Compacted;
    forall i, j | 0 <= i < j < |b|
      ensures b[i].End() <= b[j].addr && (b[i].kind == b[j].kind ==> b[i].End() < b[j].addr)
    {
      if j == i + 1 {
        assert !Mergeable(c[i], c[j]);
      } else {
        assert c[i].End() <= c[i + 1].start && c[i + 1].End() <= c[j].start;
      }
    }
  }

  // ---------------------------------------------------------------- from the firmware's map

  /** Nonempty descriptors below the top of the address space that do not overlap, in the
      order the firmware gives them. */
  ghost predicate Scattered(s: seq<Descriptor>) {
    && (forall i :: 0 <= i < |s| ==> s[i].pages > 0 && s[i].End() < WORD64)
    && (forall i, j :: 0 <= i < j < |s| ==> Disjoint(s[i], s[j]))
  }

  predicate Disjoint(a: Descriptor, b: Descriptor) { a.End() <= b.start || b.End() <= a.start }

  /** No descriptor occurs twice. */
  lemma OccursOnce(s: seq<Descriptor>, i: nat)
    requires Scattered(s) && i < |s|
    ensures multiset(s)[s[i]] == 1
  {
    var before, behind := s[..i], s[i + 1..];
    assert s == before + [s[i]] + behind;
    forall j | 0 <= j < |before|
      ensures before[j] != s[i]
    {
      assert Disjoint(s[j], s[i]);
    }
    forall j | 0 <= j < |behind|
      ensures behind[j] != s[i]
    {
      assert Disjoint(s[i], s[i + 1 + j]);
    }
  }

  lemma DifferentPlaces(t: seq<Descriptor>, i: nat, j: nat)
    requires i < j < |t| && multiset(t)[t[j]] == 1
    ensures t[i] != t[j]
  {
    assert t == t[..j] + [t[j]] + t[j + 1..];
    assert t[..j][i] == t[i];
    assert t[i] in multiset(t[..j]);
  }

  lemma MemberOf(s: seq<Descriptor>, t: seq<Descriptor>, i: nat) returns (p: nat)
    requires Permuted(s, t) && i < |t|
    ensures p < |s| && s[p] == t[i]
  {
    assert t[i] in multiset(t);
    assert t[i] in multiset(s);
    p :| 0 <= p < |s| && s[p] == t[i];
  }

  /** Sorting descriptors that do not overlap lays them out. */
  lemma SortedIsLaid(s: seq<Descriptor>, t: seq<Descriptor>)
    requires Scattered(s) && Permuted(s, t) && SortedUpTo(t, |t|)
    ensures Laid(t)
  {
    forall i | 0 <= i < |t|
      ensures t[i].pages > 0 && t[i].End() < WORD64
    {
      var p := MemberOf(s, t, i);
    }
    forall i, j | 0 <= i < j < |t|
      ensures t[i].End() <= t[j].start
    {
      var p := MemberOf(s, t, i);
      var q := MemberOf(s, t, j);
      OccursOnce(s, q);
      DifferentPlaces(t, i, j);
      assert if p < q then Disjoint(s[p], s[q]) else Disjoint(s[q], s[p]);
    }
  }

  lemma PermutedTypes(s: seq<Descriptor>, t: seq<Descriptor>, x: nat, k: nat)
    requires Permuted(s, t)
    ensures TypeAt(s, x, k) <==> TypeAt(t, x, k)
  {
    if TypeAt(t, x, k) {
      var i :| 0 <= i < |t| && t[i].Block().Has(x) && t[i].kind == k;
      var p := MemberOf(s, t, i);
    }
    if TypeAt(s, x, k) {
      var i :| 0 <= i < |s| && s[i].Block().Has(x) && s[i].kind == k;
      var p := MemberOf(t, s, i);
    }
  }

  lemma ScatteredSane(s: seq<Descriptor>, t: seq<Descriptor>)
    requires Scattered(s) && Permuted(s, t)
    ensures Sane(t)
  {
    forall i | 0 <= i < |t|
      ensures t[i].End() < WORD64
    {
      var p := MemberOf(s, t, i);
    }
  }

  /** The two steps of the boot loader (EFI/src/main.c:579-580) on any map without overlaps:
      the result is the canonical form of its page map. */
  method NormalizeMemoryMap(entries: array<Descriptor>, count: nat) returns (n: nat)
    requires 0 < count <= entries.Length
    modifies entries
    ensures 1 <= n <= count && entries[count..] == old(entries[count..])
    ensures Scattered(old(entries[..count])) ==>
      && Canonical(Blocks(entries[..n]))
      && forall x: nat, k: nat :: TypeAt(entries[..n], x, k) <==> TypeAt(old(entries[..count]), x, k)
  {
    hide Compacted, SortedUpTo, Permuted, Scattered, Laid, Sane, Blocks, Canonical, TypeAt;
    ghost var s := entries[..count];
    SortMemoryMap(entries, count);
    ghost var t := entries[..count];
    n := CompactMemoryMap(entries, count);
    if Scattered(s) {
      SortedIsLaid(s, t);
      ScatteredSane(s, t);
      CompactedCanonical(t);
      forall x: nat, k: nat
        ensures TypeAt(Compacted(t), x, k) <==> TypeAt(s, x, k)
      {
        PermutedTypes(s, t, x, k);
        CompactedMeaning(t, x, k);
      }
    }
  }
}
