/** Four-level page tables (section 4.5 of volume 3A of the Intel 64 and IA-32 Architectures
    Software Developer's Manual) as vmm.c walks and builds them. A table is a page of 512
    words; a bit test or mask of the C code is written as arithmetic on the word. */
module PageTables {
  import opened Layouts

  const ENTRIES: nat := 512
  const BIT63: nat := 0x8000_0000_0000_0000
  const SPACE: nat := 0x1_0000_0000_0000

  /** Bytes mapped by one entry of a table of level 1 (4K) to 4 (512G). */
  function Span(level: nat): (s: nat)
    ensures s > 0
  {
    if level <= 1 then 0x1000
    else if level == 2 then 0x20_0000
    else if level == 3 then 0x4000_0000
    else if level == 4 then 0x80_0000_0000
    else SPACE
  }

  /** The part of a virtual address that selects an entry of a table of the level. */
  function Prefix(va: nat, level: nat): nat { va % SPACE / Span(level) }

  /** The index into a table of the level. */
  function Index(va: nat, level: nat): (i: nat)
    ensures i < ENTRIES
  {
    Prefix(va, level) % ENTRIES
  }

  lemma Split4K(y: nat)
    ensures y / 0x1000 == y / 0x20_0000 * ENTRIES + y / 0x1000 % ENTRIES
  {
  }

  lemma Split2M(y: nat)
    ensures y / 0x20_0000 == y / 0x4000_0000 * ENTRIES + y / 0x20_0000 % ENTRIES
  {
  }

  lemma Split1G(y: nat)
    ensures y / 0x4000_0000 == y / 0x80_0000_0000 * ENTRIES + y / 0x4000_0000 % ENTRIES
  {
  }

  lemma Split512G(y: nat)
    ensures y / 0x80_0000_0000 == y / SPACE * ENTRIES + y / 0x80_0000_0000 % ENTRIES
  {
  }

  lemma PrefixStep(va: nat, level: nat)
    requires 1 <= level <= 4
    ensures Prefix(va, level) == Prefix(va, level + 1) * ENTRIES + Index(va, level)
    ensures Prefix(va, 5) == 0
  {
    var y := va % SPACE;
    match level
    case 1 => Split4K(y);
    case 2 => Split2M(y);
    case 3 => Split1G(y);
    case _ => Split512G(y);
  }

  /** Addresses share an entry of level `level + 1` when they share one of level `level`. */
  lemma PrefixCoarser(x: nat, va: nat, level: nat)
    requires 1 <= level <= 4 && Prefix(x, level) == Prefix(va, level)
    ensures Prefix(x, level + 1) == Prefix(va, level + 1) && Index(x, level) == Index(va, level)
  {
    PrefixStep(x, level);
    PrefixStep(va, level);
  }

  lemma PrefixFiner(x: nat, va: nat, level: nat)
    requires 1 <= level <= 4 && Prefix(x, level + 1) == Prefix(va, level + 1) && Index(x, level) == Index(va, level)
    ensures Prefix(x, level) == Prefix(va, level)
  {
    PrefixStep(x, level);
    PrefixStep(va, level);
  }

  // ---------------------------------------------------------------- entries

  predicate Present(e: nat) { e % 2 == 1 }

  predicate Huge(e: nat) { e / 128 % 2 == 1 }

  /** `e & ~(0xFFF | PAGING_EXED)`: the address field. */
  function AddrOf(e: nat): nat { e % BIT63 / PAGE * PAGE }

  /** `e & ~(offset mask | PAGING_EXED)`: the page base of a leaf of the level. */
  function BaseOf(e: nat, level: nat): nat { e % BIT63 / Span(level) * Span(level) }

  /** PAGING_WRITE, PAGING_USER and PAGING_EXED of an attribute word. */
  datatype Attr = Attr(write: bool, user: bool, exed: bool)

  function AttrBits(a: Attr): nat {
    (if a.write then 2 else 0) + (if a.user then 4 else 0) + (if a.exed then BIT63 else 0)
  }

  /** modify_page_attr: the three attribute bits replaced. */
  function WithAttr(e: nat, a: Attr): nat {
    e - (if e / 2 % 2 == 1 then 2 else 0) - (if e / 4 % 2 == 1 then 4 else 0) - (if e >= BIT63 then BIT63 else 0)
      + AttrBits(a)
  }

  /** The attributes a word carries. */
  function AttrOf(e: nat): Attr { Attr(e / 2 % 2 == 1, e / 4 % 2 == 1, e >= BIT63) }

  /** The word of a page of the given level before its attributes are set. */
  function LeafWord(pa: nat, level: nat): nat { pa + 1 + (if level > 1 then 128 else 0) }

  /** The word that points to a table: present, writable, user. */
  function TableWord(page: nat): nat { page + 7 }

  /** The low bits of a word with an aligned page address. */
  lemma LowBits(pa: nat, low: nat)
    requires pa % PAGE == 0 && low < 256
    ensures (pa + low) % 2 == low % 2
    ensures (pa + low) / 2 % 2 == low / 2 % 2
    ensures (pa + low) / 4 % 2 == low / 4 % 2
    ensures (pa + low) / 128 % 2 == low / 128 % 2
  {
    var q := pa / PAGE;
    Shifted(q, low);
    Parity(q * 2048, low);
    Parity(q * 1024, low / 2);
    Parity(q * 512, low / 4);
    Parity(q * 16, low / 128);
    assert pa + low == q * 4096 + low;
  }

  lemma Parity(a: nat, b: nat)
    ensures (2 * a + b) % 2 == b % 2
  {
  }

  lemma Shifted(q: nat, low: nat)
    ensures (q * 4096 + low) % 2 == low % 2
    ensures (q * 4096 + low) / 2 == q * 2048 + low / 2
    ensures (q * 4096 + low) / 4 == q * 1024 + low / 4
    ensures (q * 4096 + low) / 128 == q * 32 + low / 128
  {
  }

  lemma BaseBits(pa: nat, low: nat, level: nat)
    requires 1 <= level <= 3 && pa % Span(level) == 0 && low < 256
    ensures (pa + low) / Span(level) * Span(level) == pa
  {
    if level == 1 {
    } else if level == 2 {
    } else {
    }
  }

  lemma SpanPages(pa: nat, level: nat)
    requires 1 <= level <= 3 && pa % Span(level) == 0
    ensures pa % PAGE == 0
  {
  }

  /** The low byte of a leaf before and after its attributes are set. */
  function LowByte(level: nat): nat { 1 + (if level > 1 then 128 else 0) }

  function AttrLow(a: Attr): nat { (if a.write then 2 else 0) + (if a.user then 4 else 0) }

  lemma WithAttrOnLeaf(pa: nat, level: nat, a: Attr)
    requires pa % PAGE == 0 && pa + PAGE <= BIT63
    ensures WithAttr(LeafWord(pa, level), a) == pa + (LowByte(level) + AttrLow(a)) + (if a.exed then BIT63 else 0)
  {
    LowBits(pa, LowByte(level));
  }

  /** A leaf as built and attributed maps its page at its level. */
  lemma LeafWordFields(pa: nat, level: nat, a: Attr)
    requires 1 <= level <= 3 && pa % Span(level) == 0 && pa + PAGE <= BIT63
    ensures var e := WithAttr(LeafWord(pa, level), a);
      Present(e) && BaseOf(e, level) == pa && (Huge(e) <==> level > 1) && e < 2 * BIT63 && AttrOf(e) == a
  {
    hide Span, WithAttr, LeafWord;
    SpanPages(pa, level);
    var low := LowByte(level) + AttrLow(a);
    LeafByte(level, a);
    WithAttrOnLeaf(pa, level, a);
    LowBits(pa, low);
    BaseBits(pa, low, level);
    HighBit(pa + low, a.exed);
    LowSum(pa, low);
  }

  lemma LeafByte(level: nat, a: Attr)
    requires 1 <= level <= 3
    ensures var low := LowByte(level) + AttrLow(a);
      && low < 256 && low % 2 == 1 && (low / 128 % 2 == 1 <==> level > 1)
      && (low / 2 % 2 == 1 <==> a.write) && (low / 4 % 2 == 1 <==> a.user)
  {
  }

  lemma LowSum(pa: nat, low: nat)
    requires pa % PAGE == 0 && pa + PAGE <= BIT63 && low < 256
    ensures pa + low < BIT63
  {
  }

  lemma HighBit(x: nat, high: bool)
    requires x < BIT63
    ensures var e := x + if high then BIT63 else 0;
      && e % BIT63 == x && e % 2 == x % 2 && e / 128 % 2 == x / 128 % 2
      && e / 2 % 2 == x / 2 % 2 && e / 4 % 2 == x / 4 % 2 && (e >= BIT63 <==> high)
  {
    if high {
      assert (x + BIT63) / 128 == x / 128 + BIT63 / 128;
      assert (x + BIT63) / 2 == x / 2 + BIT63 / 2;
      assert (x + BIT63) / 4 == x / 4 + BIT63 / 4;
    }
  }

  lemma TableWordFields(page: nat)
    requires page % PAGE == 0 && page + PAGE <= BIT63
    ensures var e := TableWord(page);
      Present(e) && !Huge(e) && AddrOf(e) == page && e < 2 * BIT63 && AttrOf(e) == ALL
  {
    LowBits(page, 7);
    BaseBits(page, 7, 1);
    HighBit(page + 7, false);
  }

  // ---------------------------------------------------------------- walking

  type Tables = map<nat, seq<nat>>

  /** An entry: the table page, the index, and the level of the table. */
  datatype Slot = Slot(frame: nat, index: nat, level: nat)

  /** The entry that decides an address: search_page_entry started at a table of a level. */
  function Walk(t: Tables, frame: nat, level: nat, va: nat): Option<Slot>
    decreases level
  {
    if level == 0 || frame !in t || |t[frame]| != ENTRIES then None
    else
      var e := t[frame][Index(va, level)];
      if !Present(e) then None
      else if level == 1 || (level < 4 && Huge(e)) then Some(Slot(frame, Index(va, level), level))
      else Walk(t, AddrOf(e), level - 1, va)
  }

  /** physical_address: the translation of an address, if it has one. */
  function Translate(t: Tables, root: nat, va: nat): Option<nat> {
    var w := Walk(t, root, 4, va);
    if w.None? then None
    else
      var s := w.value;
      if s.frame in t && s.index < |t[s.frame]|
      then Some(BaseOf(t[s.frame][s.index], s.level) + va % Span(s.level))
      else None
  }

  /** What two entries on one walk allow together: an access needs the write and the user bit
      of both, and execution neither's disable bit. */
  function Both(a: Attr, b: Attr): Attr { Attr(a.write && b.write, a.user && b.user, a.exed || b.exed) }

  const ALL := Attr(true, true, false)

  /** What an access to the address may do, by the words of every level of its walk from a table
      on; none if the address is not mapped. */
  function Rights(t: Tables, frame: nat, level: nat, va: nat): Option<Attr>
    decreases level
  {
    if level == 0 || frame !in t || |t[frame]| != ENTRIES then None
    else
      var e := t[frame][Index(va, level)];
      if !Present(e) then None
      else if level == 1 || (level < 4 && Huge(e)) then Some(AttrOf(e))
      else
        var below := Rights(t, AddrOf(e), level - 1, va);
        if below.None? then None else Some(Both(AttrOf(e), below.value))
  }

  function RightsAt(t: Tables, root: nat, va: nat): Option<Attr> { Rights(t, root, 4, va) }

  /** What the pointers above the tables of level `l` on the walk for `va` allow. Where there is
      no pointer yet nothing is ruled out. */
  function Granted(t: Tables, frame: nat, level: nat, l: nat, va: nat): Attr
    decreases level
  {
    if level <= l || frame !in t || |t[frame]| != ENTRIES then ALL
    else
      var e := t[frame][Index(va, level)];
      if !Present(e) || (level < 4 && Huge(e)) then ALL
      else Both(AttrOf(e), Granted(t, AddrOf(e), level - 1, l, va))
  }

  /** Where a table belongs: its level, and the address prefix all its translations share. */
  datatype Home = Home(level: nat, prefix: nat)

  /** The entry `i` of table `f` points to a table. */
  ghost predicate Points(t: Tables, home: map<nat, Home>, f: nat, i: nat)
    requires f in t && f in home && i < |t[f]|
  {
    var e := t[f][i];
    Present(e) && home[f].level > 1 && (home[f].level < 4 ==> !Huge(e))
  }

  /** The tables form a tree: every table has one home, and entries lead to the table of the
      matching home. */
  ghost predicate Tree(t: Tables, home: map<nat, Home>, root: nat) {
    && home.Keys == t.Keys && root in t && home[root] == Home(4, 0)
    && (forall f :: f in t ==> |t[f]| == ENTRIES && f % PAGE == 0 && 1 <= home[f].level <= 4)
    && (forall f, i :: f in t && 0 <= i < |t[f]| && Points(t, home, f, i) ==>
          var a := AddrOf(t[f][i]);
          a in t && home[a] == Home(home[f].level - 1, home[f].prefix * ENTRIES + i))
  }

  /** The table is on the path of the address. */
  ghost predicate OnPath(home: map<nat, Home>, frame: nat, level: nat, va: nat) {
    frame in home && home[frame] == Home(level, Prefix(va, level + 1))
  }

  lemma RootOnPath(t: Tables, home: map<nat, Home>, root: nat, va: nat)
    requires Tree(t, home, root)
    ensures OnPath(home, root, 4, va)
  {
  }

  lemma NextOnPath(t: Tables, home: map<nat, Home>, root: nat, frame: nat, level: nat, va: nat)
    requires Tree(t, home, root) && OnPath(home, frame, level, va) && level > 1
    requires Present(t[frame][Index(va, level)]) && (level < 4 ==> !Huge(t[frame][Index(va, level)]))
    ensures OnPath(home, AddrOf(t[frame][Index(va, level)]), level - 1, va)
  {
    PrefixStep(va, level);
    assert Points(t, home, frame, Index(va, level));
  }

  /** The walk for `va` from table `frame` of `level` passes table `target` of level `l`. */
  ghost predicate Reaches(t: Tables, frame: nat, level: nat, target: nat, l: nat, va: nat)
    decreases level
  {
    if level <= l then level == l && frame == target
    else
      && frame in t && |t[frame]| == ENTRIES
      && var e := t[frame][Index(va, level)];
      && Present(e) && (level < 4 ==> !Huge(e))
      && Reaches(t, AddrOf(e), level - 1, target, l, va)
  }

  /** No large page lies above level `l` on the walk for `va`. */
  ghost predicate NoLarger(t: Tables, frame: nat, level: nat, l: nat, va: nat)
    decreases level
  {
    level <= l || frame !in t || |t[frame]| != ENTRIES ||
    var e := t[frame][Index(va, level)];
    !Present(e) || ((level < 4 ==> !Huge(e)) && NoLarger(t, AddrOf(e), level - 1, l, va))
  }

  /** How many tables the mapping code would have to add below table `frame` of `level` to
      reach the tables of level `l` on the path of `va`. */
  function Missing(t: Tables, frame: nat, level: nat, l: nat, va: nat): (n: nat)
    ensures n <= if level <= l then 0 else level - l
    decreases level
  {
    if level <= l || frame !in t || |t[frame]| != ENTRIES then 0
    else if Present(t[frame][Index(va, level)]) then Missing(t, AddrOf(t[frame][Index(va, level)]), level - 1, l, va)
    else level - l
  }

  /** A table of zeros lacks everything below. */
  lemma MissingEmpty(t: Tables, frame: nat, level: nat, l: nat, va: nat)
    requires frame in t && t[frame] == EmptyTable() && l <= level
    ensures Missing(t, frame, level, l, va) == level - l
  {
    ZeroNotPresent();
    assert level > l ==> t[frame][Index(va, level)] == 0;
  }

  // ---------------------------------------------------------------- writing one entry

  function Row(words: seq<nat>, i: nat, e: nat): seq<nat>
    requires i < |words|
  {
    words[i := e]
  }

  /** Word `e` written to entry `i` of table `f`. */
  function SetEntry(t: Tables, f: nat, i: nat, e: nat): Tables
    requires f in t && i < |t[f]|
  {
    t[f := Row(t[f], i, e)]
  }

  /** The entry holds the same word in both. */
  ghost predicate SameEntry(t: Tables, t': Tables, s: Slot) {
    && s.frame in t && s.frame in t' && s.index < |t[s.frame]| && s.index < |t'[s.frame]|
    && t'[s.frame][s.index] == t[s.frame][s.index]
  }

  /** A word that is no pointer to a table when it stands in a table of the level. */
  predicate Terminal(e: nat, level: nat) {
    !Present(e) || level == 1 || (level < 4 && Huge(e))
  }

  lemma SetEntryTree(t: Tables, home: map<nat, Home>, root: nat, f: nat, i: nat, e: nat)
    requires Tree(t, home, root) && f in t && i < ENTRIES && Terminal(e, home[f].level)
    ensures i < |t[f]| && Tree(SetEntry(t, f, i, e), home, root)
  {
    var t' := SetEntry(t, f, i, e);
    forall g, j | g in t' && 0 <= j < |t'[g]| && Points(t', home, g, j)
      ensures var a := AddrOf(t'[g][j]); a in t' && home[a] == Home(home[g].level - 1, home[g].prefix * ENTRIES + j)
    {
      assert Points(t, home, g, j);
    }
  }

  /** Entries of tables of other prefixes are not on the walk. */
  lemma {:induction false} WalkElsewhere(t: Tables, home: map<nat, Home>, root: nat, f: nat, e: nat, va: nat, g: nat,
      level: nat, x: nat)
    requires Tree(t, home, root) && f in t && OnPath(home, f, home[f].level, va) && Terminal(e, home[f].level)
    requires OnPath(home, g, level, x) && level <= 4
    requires Prefix(x, home[f].level) != Prefix(va, home[f].level)
    ensures var t' := SetEntry(t, f, Index(va, home[f].level), e);
      var w := Walk(t, g, level, x);
      && Walk(t', g, level, x) == w && Rights(t', g, level, x) == Rights(t, g, level, x)
      && (w.Some? ==> SameEntry(t, t', w.value))
    decreases level
  {
    hide AttrOf;
    var t' := SetEntry(t, f, Index(va, home[f].level), e);
    if level > 0 {
      if g == f && Index(x, level) == Index(va, level) { PrefixFiner(x, va, level); }
      var w := t[g][Index(x, level)];
      if Present(w) && level > 1 && (level < 4 ==> !Huge(w)) {
        NextOnPath(t, home, root, g, level, x);
        WalkElsewhere(t, home, root, f, e, va, AddrOf(w), level - 1, x);
      }
    }
  }

  /** The walk for an address that shares the entry ends at it. */
  lemma {:induction false} WalkHere(t: Tables, home: map<nat, Home>, root: nat, f: nat, e: nat, va: nat, g: nat,
      level: nat, x: nat)
    requires Tree(t, home, root) && f in t && Terminal(e, home[f].level)
    requires OnPath(home, g, level, va) && home[f].level <= level <= 4
    requires Reaches(t, g, level, f, home[f].level, va)
    requires Prefix(x, home[f].level) == Prefix(va, home[f].level)
    ensures var t' := SetEntry(t, f, Index(va, home[f].level), e);
      && Walk(t', g, level, x) == (if Present(e) then Some(Slot(f, Index(va, home[f].level), home[f].level)) else None)
      && Rights(t', g, level, x) ==
         if Present(e) then Some(Both(Granted(t, g, level, home[f].level, x), AttrOf(e))) else None
    decreases level
  {
    hide AttrOf;
    var l := home[f].level;
    SharedPath(x, va, l, level);
    if level > l {
      var w := t[g][Index(va, level)];
      NextOnPath(t, home, root, g, level, va);
      WalkHere(t, home, root, f, e, va, AddrOf(w), level - 1, x);
    }
  }

  lemma {:induction false} SharedPath(x: nat, va: nat, l: nat, level: nat)
    requires 1 <= l <= level <= 4 && Prefix(x, l) == Prefix(va, l)
    ensures Prefix(x, level) == Prefix(va, level) && Index(x, level) == Index(va, level)
    decreases level
  {
    if l < level {
      SharedPath(x, va, l, level - 1);
      PrefixCoarser(x, va, level - 1);
    }
    PrefixCoarser(x, va, level);
  }

  lemma RootHome(t: Tables, home: map<nat, Home>, root: nat, f: nat)
    requires Tree(t, home, root) && f in t
    ensures f in home && 1 <= home[f].level <= 4 && |t[f]| == ENTRIES
  {
  }

  /** Writing a leaf, or clearing an entry, changes the translation of exactly the addresses
      the entry stands for. */
  lemma SetEntryTranslate(t: Tables, home: map<nat, Home>, root: nat, f: nat, e: nat, va: nat, x: nat)
    requires Tree(t, home, root) && f in t && OnPath(home, f, home[f].level, va) && Terminal(e, home[f].level)
    requires Reaches(t, root, 4, f, home[f].level, va)
    ensures var l := home[f].level;
      var t' := SetEntry(t, f, Index(va, l), e);
      Translate(t', root, x) ==
        if Prefix(x, l) != Prefix(va, l) then Translate(t, root, x)
        else if Present(e) then Some(BaseOf(e, l) + x % Span(l))
        else None
    ensures var l := home[f].level;
      var t' := SetEntry(t, f, Index(va, l), e);
      RightsAt(t', root, x) ==
        if Prefix(x, l) != Prefix(va, l) then RightsAt(t, root, x)
        else if Present(e) then Some(Both(Granted(t, root, 4, l, x), AttrOf(e)))
        else None
  {
    hide BaseOf, Span, Prefix, Walk, Rights, Granted, Reaches, Tree, OnPath, AttrOf;
    RootOnPath(t, home, root, va);
    RootOnPath(t, home, root, x);
    RootHome(t, home, root, f);
    if Prefix(x, home[f].level) != Prefix(va, home[f].level) {
      WalkElsewhere(t, home, root, f, e, va, root, 4, x);
    } else {
      WalkHere(t, home, root, f, e, va, root, 4, x);
    }
  }

  // ---------------------------------------------------------------- adding a table

  /** A zeroed table. */
  function EmptyTable(): (s: seq<nat>)
    ensures |s| == ENTRIES && forall i :: 0 <= i < |s| ==> s[i] == 0
  {
    Zeros(ENTRIES)
  }

  function Zeros(n: nat): (s: seq<nat>)
    ensures |s| == n && forall i :: 0 <= i < |s| ==> s[i] == 0
  {
    if n == 0 then [] else [0] + Zeros(n - 1)
  }

  /** A zeroed table at `page`, pointed to by entry `i` of table `f`. */
  function AddTable(t: Tables, f: nat, i: nat, page: nat): Tables
    requires f in t && i < |t[f]|
  {
    SetEntry(t, f, i, TableWord(page))[page := EmptyTable()]
  }

  function AddHome(home: map<nat, Home>, f: nat, i: nat, page: nat): map<nat, Home>
    requires f in home && home[f].level > 0
  {
    home[page := Home(home[f].level - 1, home[f].prefix * ENTRIES + i)]
  }

  /** Entry `i` of table `f` may get a new table at `page`. */
  ghost predicate CanAdd(t: Tables, home: map<nat, Home>, root: nat, f: nat, i: nat, page: nat) {
    && Tree(t, home, root) && f in t && i < ENTRIES && home[f].level > 1 && !Present(t[f][i])
    && page !in t && page % PAGE == 0 && page + PAGE <= BIT63
  }

  lemma AddTableTree(t: Tables, home: map<nat, Home>, root: nat, f: nat, i: nat, page: nat)
    requires CanAdd(t, home, root, f, i, page)
    ensures Tree(AddTable(t, f, i, page), AddHome(home, f, i, page), root)
  {
    hide TableWord, Present, Huge, AddrOf;
    TableWordFields(page);
    ZeroNotPresent();
    var t', home' := AddTable(t, f, i, page), AddHome(home, f, i, page);
    assert home'.Keys == t'.Keys;
    forall g, j | g in t' && 0 <= j < |t'[g]| && Points(t', home', g, j)
      ensures var a := AddrOf(t'[g][j]); a in t' && home'[a] == Home(home'[g].level - 1, home'[g].prefix * ENTRIES + j)
    {
      assert g != page;
      if g != f || j != i { assert Points(t, home, g, j); }
    }
  }

  lemma ZeroNotPresent()
    ensures !Present(0) && forall i :: 0 <= i < ENTRIES ==> EmptyTable()[i] == 0
  {
  }

  /** A new empty table changes no walk. */
  lemma {:induction false} AddTableWalk(t: Tables, home: map<nat, Home>, root: nat, f: nat, i: nat, page: nat, g: nat,
      level: nat, x: nat)
    requires CanAdd(t, home, root, f, i, page) && OnPath(home, g, level, x) && level <= 4
    ensures var t' := AddTable(t, f, i, page);
      var w := Walk(t, g, level, x);
      && Walk(t', g, level, x) == w && Rights(t', g, level, x) == Rights(t, g, level, x)
      && (w.Some? ==> SameEntry(t, t', w.value))
    decreases level
  {
    hide TableWord, Huge, AddrOf, AttrOf;
    TableWordFields(page);
    ZeroNotPresent();
    if level > 0 {
      var w := t[g][Index(x, level)];
      if Present(w) && level > 1 && (level < 4 ==> !Huge(w)) {
        NextOnPath(t, home, root, g, level, x);
        AddTableWalk(t, home, root, f, i, page, AddrOf(w), level - 1, x);
      }
    }
  }

  lemma AddTableTranslate(t: Tables, home: map<nat, Home>, root: nat, f: nat, i: nat, page: nat, x: nat)
    requires CanAdd(t, home, root, f, i, page)
    ensures Translate(AddTable(t, f, i, page), root, x) == Translate(t, root, x)
    ensures RightsAt(AddTable(t, f, i, page), root, x) == RightsAt(t, root, x)
  {
    hide Rights, Walk, AttrOf;
    RootOnPath(t, home, root, x);
    AddTableWalk(t, home, root, f, i, page, root, 4, x);
  }

  // ---------------------------------------------------------------- paths under change

  /** A walk that passes table `f` goes on to the table its entry points to. */
  lemma {:induction false} ReachesNext(t: Tables, frame: nat, level: nat, f: nat, l: nat, va: nat)
    requires Reaches(t, frame, level, f, l, va) && l > 1 && f in t && |t[f]| == ENTRIES
    requires Present(t[f][Index(va, l)]) && (l < 4 ==> !Huge(t[f][Index(va, l)]))
    ensures Reaches(t, frame, level, AddrOf(t[f][Index(va, l)]), l - 1, va)
    decreases level
  {
    if level > l {
      ReachesNext(t, AddrOf(t[frame][Index(va, level)]), level - 1, f, l, va);
    }
  }

  /** A table on a walk with no large page above level `l` meets no large page itself. */
  lemma {:induction false} NoLargerAt(t: Tables, frame: nat, level: nat, f: nat, k: nat, l: nat, va: nat)
    requires Reaches(t, frame, level, f, k, va) && NoLarger(t, frame, level, l, va) && l < k && f in t &&
      |t[f]| == ENTRIES
    requires Present(t[f][Index(va, k)])
    ensures k < 4 ==> !Huge(t[f][Index(va, k)])
    decreases level
  {
    if level > k {
      NoLargerAt(t, AddrOf(t[frame][Index(va, level)]), level - 1, f, k, l, va);
    }
  }

  lemma {:induction false} AddTableNoLarger(t: Tables, home: map<nat, Home>, root: nat, f: nat, i: nat, page: nat,
      g: nat, level: nat, l: nat, x: nat)
    requires CanAdd(t, home, root, f, i, page) && OnPath(home, g, level, x) && level <= 4 && l >= 1
    requires NoLarger(t, g, level, l, x)
    ensures NoLarger(AddTable(t, f, i, page), g, level, l, x)
    decreases level
  {
    hide TableWord, Huge, AddrOf, EmptyTable;
    TableWordFields(page);
    ZeroNotPresent();
    if level > l {
      var w := t[g][Index(x, level)];
      if Present(w) {
        NextOnPath(t, home, root, g, level, x);
        AddTableNoLarger(t, home, root, f, i, page, AddrOf(w), level - 1, l, x);
      }
    }
  }

  /** A new table allows everything, as the missing one did. */
  lemma {:induction false} AddTableGranted(t: Tables, home: map<nat, Home>, root: nat, f: nat, i: nat, page: nat,
      g: nat, level: nat, l: nat, x: nat)
    requires CanAdd(t, home, root, f, i, page) && OnPath(home, g, level, x) && level <= 4 && l >= 1
    ensures Granted(AddTable(t, f, i, page), g, level, l, x) == Granted(t, g, level, l, x)
    decreases level
  {
    hide TableWord, Huge, AddrOf, EmptyTable, AttrOf;
    TableWordFields(page);
    ZeroNotPresent();
    if level > l {
      var w := t[g][Index(x, level)];
      if Present(w) && (level < 4 ==> !Huge(w)) {
        NextOnPath(t, home, root, g, level, x);
        AddTableGranted(t, home, root, f, i, page, AddrOf(w), level - 1, l, x);
      }
    }
  }

  lemma {:induction false} AddTableReaches(t: Tables, home: map<nat, Home>, root: nat, f: nat, i: nat, page: nat,
      g: nat, level: nat, target: nat, l: nat, x: nat)
    requires CanAdd(t, home, root, f, i, page) && OnPath(home, g, level, x) && level <= 4 && l >= 1
    requires Reaches(t, g, level, target, l, x)
    ensures Reaches(AddTable(t, f, i, page), g, level, target, l, x)
    decreases level
  {
    hide TableWord, Huge, AddrOf, EmptyTable;
    if level > l {
      var w := t[g][Index(x, level)];
      NextOnPath(t, home, root, g, level, x);
      AddTableReaches(t, home, root, f, i, page, AddrOf(w), level - 1, target, l, x);
    }
  }

  /** Writing a terminal word over a terminal word keeps the walks above it. */
  lemma {:induction false} SetEntryNoLarger(t: Tables, home: map<nat, Home>, root: nat, f: nat, i: nat, e: nat,
      g: nat, level: nat, l: nat, x: nat)
    requires Tree(t, home, root) && f in t && i < ENTRIES && i < |t[f]| && home[f].level <= l
    requires OnPath(home, g, level, x) && level <= 4 && l >= 1
    requires NoLarger(t, g, level, l, x)
    ensures NoLarger(SetEntry(t, f, i, e), g, level, l, x)
    decreases level
  {
    if level > l {
      var w := t[g][Index(x, level)];
      if Present(w) {
        NextOnPath(t, home, root, g, level, x);
        SetEntryNoLarger(t, home, root, f, i, e, AddrOf(w), level - 1, l, x);
      }
    }
  }

  lemma {:induction false} SetEntryGranted(t: Tables, home: map<nat, Home>, root: nat, f: nat, i: nat, e: nat,
      g: nat, level: nat, l: nat, x: nat)
    requires Tree(t, home, root) && f in t && i < ENTRIES && i < |t[f]| && home[f].level <= l
    requires OnPath(home, g, level, x) && level <= 4 && l >= 1
    ensures Granted(SetEntry(t, f, i, e), g, level, l, x) == Granted(t, g, level, l, x)
    decreases level
  {
    hide AttrOf;
    if level > l {
      var w := t[g][Index(x, level)];
      if Present(w) && (level < 4 ==> !Huge(w)) {
        NextOnPath(t, home, root, g, level, x);
        SetEntryGranted(t, home, root, f, i, e, AddrOf(w), level - 1, l, x);
      }
    }
  }

  lemma {:induction false} SetEntryGrantedElsewhere(t: Tables, home: map<nat, Home>, root: nat, f: nat, e: nat,
      va: nat, g: nat, level: nat, l: nat, x: nat)
    requires Tree(t, home, root) && f in t && OnPath(home, f, home[f].level, va) && Index(va, home[f].level) < |t[f]|
    requires OnPath(home, g, level, x) && level <= 4 && l >= 1
    requires Prefix(x, home[f].level) != Prefix(va, home[f].level)
    ensures Granted(SetEntry(t, f, Index(va, home[f].level), e), g, level, l, x) == Granted(t, g, level, l, x)
    decreases level
  {
    hide AttrOf;
    if level > l {
      if g == f && Index(x, level) == Index(va, level) { PrefixFiner(x, va, level); }
      var w := t[g][Index(x, level)];
      if Present(w) && (level < 4 ==> !Huge(w)) {
        NextOnPath(t, home, root, g, level, x);
        SetEntryGrantedElsewhere(t, home, root, f, e, va, AddrOf(w), level - 1, l, x);
      }
    }
  }

  /** Writing an entry keeps the walks of addresses that do not share it. */
  lemma {:induction false} SetEntryNoLargerElsewhere(t: Tables, home: map<nat, Home>, root: nat, f: nat, e: nat,
      va: nat, g: nat, level: nat, l: nat, x: nat)
    requires Tree(t, home, root) && f in t && OnPath(home, f, home[f].level, va) && Index(va, home[f].level) < |t[f]|
    requires OnPath(home, g, level, x) && level <= 4 && l >= 1
    requires Prefix(x, home[f].level) != Prefix(va, home[f].level) && NoLarger(t, g, level, l, x)
    ensures NoLarger(SetEntry(t, f, Index(va, home[f].level), e), g, level, l, x)
    decreases level
  {
    if level > l {
      if g == f && Index(x, level) == Index(va, level) { PrefixFiner(x, va, level); }
      var w := t[g][Index(x, level)];
      if Present(w) {
        NextOnPath(t, home, root, g, level, x);
        SetEntryNoLargerElsewhere(t, home, root, f, e, va, AddrOf(w), level - 1, l, x);
      }
    }
  }

  /** The entry a walk ends at is on the path of the address and reached by its walk. */
  lemma {:induction false} WalkEnds(t: Tables, home: map<nat, Home>, root: nat, g: nat, level: nat, va: nat)
    requires Tree(t, home, root) && OnPath(home, g, level, va) && level <= 4
    requires Walk(t, g, level, va).Some?
    ensures var s := Walk(t, g, level, va).value;
      && s.frame in t && 1 <= s.level <= level && s.index == Index(va, s.level) && s.index < |t[s.frame]|
      && OnPath(home, s.frame, s.level, va) && Reaches(t, g, level, s.frame, s.level, va)
      && Present(t[s.frame][s.index]) && (s.level < 4 && s.level > 1 ==> Huge(t[s.frame][s.index]))
    decreases level
  {
    var e := t[g][Index(va, level)];
    if level > 1 && !(level < 4 && Huge(e)) {
      NextOnPath(t, home, root, g, level, va);
      WalkEnds(t, home, root, AddrOf(e), level - 1, va);
    }
  }

  /** A walk that meets no large page above level `l` ends at `l` or below. */
  lemma {:induction false} WalkLevel(t: Tables, g: nat, level: nat, l: nat, va: nat)
    requires NoLarger(t, g, level, l, va) && Walk(t, g, level, va).Some? && 1 <= l <= 4
    ensures Walk(t, g, level, va).value.level <= l
    decreases level
  {
    if level > l { WalkLevel(t, AddrOf(t[g][Index(va, level)]), level - 1, l, va); }
  }

  // ---------------------------------------------------------------- consecutive pages

  lemma PageNumber(va: nat, j: nat, unit: nat, m: nat)
    requires unit > 0 && m > 0
    ensures (va + j * unit) % (unit * m) / unit == (va / unit + j) % m
  {
    var y := va / unit + j;
    Regroup(va / unit, 1, j, unit);
    assert va + j * unit == y * unit + va % unit;
    NumberAt(y, va % unit, y / m, y % m, unit, m);
  }

  lemma NumberAt(y: nat, r: nat, q: nat, w: nat, unit: nat, m: nat)
    requires unit > 0 && m > 0 && y == q * m + w && w < m && r < unit
    ensures unit * m > 0 && (y * unit + r) % (unit * m) / unit == w
  {
    Regroup(q, m, w, unit);
    MulGap(w, m, unit);
    MulGap(0, m, unit);
    DivModUnique(y * unit + r, q, w * unit + r, unit * m);
    DivModUnique(w * unit + r, w, r, unit);
  }

  lemma Regroup(q: nat, m: nat, w: nat, unit: nat)
    ensures (q * m + w) * unit == q * (unit * m) + w * unit
  {
  }

  lemma ResiduesDiffer(a: nat, i: nat, j: nat, m: nat)
    requires j < i && i - j < m
    ensures (a + i) % m != (a + j) % m
  {
    var p, q := (a + i) / m, (a + j) / m;
    MulGap(p, q, m);
    MulGap(q, p, m);
    assert a + i == p * m + (a + i) % m && a + j == q * m + (a + j) % m;
  }

  /** Pages of a run that does not wrap around the address space are different pages. */
  lemma PagesDistinct(va: nat, i: nat, j: nat, level: nat)
    requires 1 <= level <= 3 && j < i && (i - j) * Span(level) < SPACE
    ensures Prefix(va + j * Span(level), level) != Prefix(va + i * Span(level), level)
  {
    var unit := Span(level);
    var m := SPACE / unit;
    assert unit * m == SPACE;
    MulGap(m, i - j, unit);
    PageNumber(va, j, unit, m);
    PageNumber(va, i, unit, m);
    ResiduesDiffer(va / unit, i, j, m);
  }
}
