/** The run-list decoder of the boot loader's NTFS code (EFI/src/ntfs.c): variable-width
    little-endian counts and signed cluster deltas, summed in 64 bits. */
module RunList {
  import opened Layouts

  /** `256^n`. */
  function Base(n: nat): (b: nat)
    ensures b > 0 && (n > 0 ==> b % 2 == 0)
  {
    if n == 0 then 1 else 256 * Base(n - 1)
  }

  /** A run: how many clusters, how far its start is from the start of the run before it, and
      the widths both numbers are written with. */
  datatype Run = Run(count: nat, delta: int, countSize: nat, offsetSize: nat)

  predicate ValidRun(r: Run) {
    && r.countSize <= 8 && r.count < Base(r.countSize)
    && 1 <= r.offsetSize <= 7 && -(Base(r.offsetSize) / 2) <= r.delta < Base(r.offsetSize) / 2
  }

  // ---------------------------------------------------------------- the encoding

  function Bytes(v: nat, n: nat): (s: seq<nat>)
    ensures |s| == n
  {
    if n == 0 then [] else [v % 256] + Bytes(v / 256, n - 1)
  }

  /** The two's-complement value of a delta in the width of the run. */
  function Complement(r: Run): nat
    requires ValidRun(r)
  {
    if r.delta < 0 then r.delta + Base(r.offsetSize) else r.delta
  }

  function EncodeRun(r: Run): (s: seq<nat>)
    requires ValidRun(r)
    ensures |s| == 1 + r.countSize + r.offsetSize
  {
    [r.offsetSize * 16 + r.countSize] + Bytes(r.count, r.countSize) + Bytes(Complement(r), r.offsetSize)
  }

  ghost predicate ValidRuns(runs: seq<Run>) {
    forall i :: 0 <= i < |runs| ==> ValidRun(runs[i])
  }

  function Encode(runs: seq<Run>): seq<nat>
    requires ValidRuns(runs)
  {
    if runs == [] then [] else EncodeRun(runs[0]) + Encode(runs[1..])
  }

  /** Two runs as they stand on disk: 24 clusters from 0x5634 on, and 3 clusters 16 before that. */
  lemma EncodeExample()
    ensures Encode([Run(0x18, 0x5634, 1, 2), Run(3, -16, 1, 1)]) == [0x21, 0x18, 0x34, 0x56, 0x11, 0x03, 0xF0]
  {
    var a, b := Run(0x18, 0x5634, 1, 2), Run(3, -16, 1, 1);
    assert Base(1) == 0x100 && Base(2) == 0x1_0000;
    assert Bytes(0x18, 1) == [0x18] && Bytes(0x56, 1) == [0x56] && Bytes(0x5634, 2) == [0x34] + Bytes(0x56, 1);
    assert Bytes(3, 1) == [3] && Bytes(0xF0, 1) == [0xF0];
    assert [a, b][1..] == [b] && [b][1..] == [];
    assert EncodeRun(a) == [0x21, 0x18, 0x34, 0x56] && EncodeRun(b) == [0x11, 0x03, 0xF0];
    assert Encode([b]) == EncodeRun(b) + Encode([]);
  }

  // ---------------------------------------------------------------- what a run list means

  /** Clusters of the first `k` runs. */
  function CountBefore(runs: seq<Run>, k: nat): nat
    requires k <= |runs|
  {
    if k == 0 then 0 else CountBefore(runs, k - 1) + runs[k - 1].count
  }

  /** Start of run `k - 1`: the sum of the first `k` deltas. */
  function StartOf(runs: seq<Run>, k: nat): int
    requires k <= |runs|
  {
    if k == 0 then 0 else StartOf(runs, k - 1) + runs[k - 1].delta
  }

  /** Virtual cluster `vcn` lies in run `k`. */
  predicate InRunOf(runs: seq<Run>, k: nat, vcn: nat)
    requires k < |runs|
  {
    CountBefore(runs, k) <= vcn < CountBefore(runs, k + 1)
  }

  lemma {:induction false} CountMonotone(runs: seq<Run>, j: nat, k: nat)
    requires j <= k <= |runs|
    ensures CountBefore(runs, j) <= CountBefore(runs, k)
  {
    if j < k { CountMonotone(runs, j, k - 1); }
  }

  /** At most one run holds a virtual cluster. */
  lemma OneRun(runs: seq<Run>, j: nat, k: nat, vcn: nat)
    requires j < |runs| && k < |runs| && InRunOf(runs, j, vcn) && InRunOf(runs, k, vcn)
    ensures j == k
  {
    if j < k { CountMonotone(runs, j + 1, k); } else if k < j { CountMonotone(runs, k + 1, j); }
  }

  // ---------------------------------------------------------------- decoding numbers

  /** The value of little-endian bytes. */
  function Little(s: seq<nat>): nat {
    if s == [] then 0 else s[0] + 256 * Little(s[1..])
  }

  lemma {:induction false} LittleOfBytes(v: nat, n: nat)
    requires v < Base(n)
    ensures Little(Bytes(v, n)) == v
  {
    if n > 0 {
      LittleOfBytes(v / 256, n - 1);
      assert Bytes(v, n)[1..] == Bytes(v / 256, n - 1);
    }
  }

  lemma {:induction false} LittleAppend(s: seq<nat>, b: nat)
    ensures Little(s + [b]) == Little(s) + b * Base(|s|)
  {
    if s == [] {
      assert s + [b] == [b];
    } else {
      LittleAppend(s[1..], b);
      assert (s + [b])[1..] == s[1..] + [b];
    }
  }

  lemma BaseSteps()
    ensures Base(1) == 0x100 && Base(2) == 0x1_0000 && Base(3) == 0x100_0000 && Base(4) == 0x1_0000_0000
    ensures Base(5) == 0x100_0000_0000 && Base(6) == 0x1_0000_0000_0000 && Base(7) == 0x100_0000_0000_0000
    ensures Base(8) == WORD64
  {
    assert Base(2) == 256 * Base(1) && Base(3) == 256 * Base(2) && Base(4) == 256 * Base(3);
    assert Base(5) == 256 * Base(4) && Base(6) == 256 * Base(5) && Base(7) == 256 * Base(6);
  }

  lemma {:induction false} BaseBound(n: nat)
    requires n <= 8
    ensures Base(n) <= WORD64
  {
    BaseSteps();
    hide Base;
    BaseGrows(n, 8);
  }

  lemma {:induction false} BaseGrows(m: nat, n: nat)
    requires m <= n
    ensures Base(m) <= Base(n)
    decreases n - m
  {
    if m < n { BaseGrows(m + 1, n); }
  }

  /** A 64-bit word standing for an integer. */
  function Wrap(x: int): nat { x % WORD64 }

  /** The sign extension of an `n`-byte number: all higher bits set if its top bit is. */
  function SignExtend(v: nat, n: nat): nat
    requires 1 <= n <= 7
  {
    BaseBound(n);
    if v / (Base(n) / 2) % 2 == 1 then v + (WORD64 - Base(n)) else v
  }

  /** Sign extension of the encoded delta is the delta in 64 bits. */
  lemma SignExtended(r: Run)
    requires ValidRun(r)
    ensures Base(r.offsetSize) <= WORD64
    ensures SignExtend(Complement(r), r.offsetSize) == Wrap(r.delta)
  {
    var b := Base(r.offsetSize);
    BaseSteps();
    assert r.offsetSize in {1, 2, 3, 4, 5, 6, 7};
    HalfBit(Complement(r), b / 2);
    assert r.delta < 0 ==> Complement(r) >= b / 2;
  }

  lemma HalfBit(v: nat, half: nat)
    requires half > 0 && v < 2 * half
    ensures v / half % 2 == 1 <==> v >= half
  {
    DivModUnique(v, if v >= half then 1 else 0, if v >= half then v - half else v, half);
  }

  lemma WrapSum(x: int, y: int)
    ensures Wrap(Wrap(x) + Wrap(y)) == Wrap(x + y) && Wrap(Wrap(x) + y) == Wrap(x + y)
  {
    var a, b := x / WORD64, y / WORD64;
    WrapLaps(x + y, -a - b);
    WrapLaps(x + y, -a);
    assert Wrap(x) == x - a * WORD64 && Wrap(y) == y - b * WORD64;
  }

  lemma WrapZero()
    ensures Wrap(0) == 0
  {
  }

  lemma WrapLaps(x: int, k: int)
    ensures Wrap(x + k * WORD64) == Wrap(x)
  {
  }

  // ---------------------------------------------------------------- the decoder

  /** The loops that collect a number byte by byte; a byte shifted above the bytes before it
      is or-ed in, that is, added. */
  method ReadLittle(bytes: seq<nat>, at: nat, n: nat) returns (v: nat)
    requires at + n <= |bytes|
    ensures v == Little(bytes[at..at + n])
  {
    v := 0;
    var i := 0;
    var shifted := 1;
    while i < n
      invariant i <= n && v == Little(bytes[at..at + i]) && shifted == Base(i)
    {
      LittleAppend(bytes[at..at + i], bytes[at + i]);
      assert bytes[at..at + i + 1] == bytes[at..at + i] + [bytes[at + i]];
      v := v + bytes[at + i] * shifted;
      shifted := shifted * 256;
      i := i + 1;
    }
  }

  /** The parts of the first run of an encoded list. */
  lemma FirstRun(bytes: seq<nat>, at: nat, end: nat, runs: seq<Run>)
    requires ValidRuns(runs) && runs != [] && at <= end <= |bytes| && bytes[at..end] == Encode(runs)
    ensures var r := runs[0];
      var next := at + 1 + r.countSize + r.offsetSize;
      && next <= end && bytes[at] == r.offsetSize * 16 + r.countSize
      && bytes[at + 1..at + 1 + r.countSize] == Bytes(r.count, r.countSize)
      && bytes[at + 1 + r.countSize..next] == Bytes(Complement(r), r.offsetSize)
      && bytes[next..end] == Encode(runs[1..])
  {
    hide Bytes, Complement, Encode, ValidRun;
    var r := runs[0];
    FirstEncoded(runs);
    Slices(bytes, at, end, [r.offsetSize * 16 + r.countSize], Bytes(r.count, r.countSize),
        Bytes(Complement(r), r.offsetSize), Encode(runs[1..]));
  }

  lemma FirstEncoded(runs: seq<Run>)
    requires ValidRuns(runs) && runs != []
    ensures var r := runs[0];
      Encode(runs) == [r.offsetSize * 16 + r.countSize] + Bytes(r.count, r.countSize) +
          Bytes(Complement(r), r.offsetSize) + Encode(runs[1..])
  {
    hide Bytes, Complement, ValidRun;
  }

  lemma Slices(bytes: seq<nat>, at: nat, end: nat, w: seq<nat>, x: seq<nat>, y: seq<nat>, z: seq<nat>)
    requires at <= end <= |bytes| && bytes[at..end] == w + x + y + z && |w| == 1
    ensures var c, next := at + 1 + |x|, at + 1 + |x| + |y|;
      next <= end && bytes[at] == w[0] && bytes[at + 1..c] == x && bytes[c..next] == y && bytes[next..end] == z
  {
    var s := bytes[at..end];
    var c, next := 1 + |x|, 1 + |x| + |y|;
    assert s[0] == w[0] && s[1..c] == x && s[c..next] == y && s[next..] == z;
    Subslice(bytes, at, end, 1, c);
    Subslice(bytes, at, end, c, next);
    Subslice(bytes, at, end, next, |s|);
  }

  lemma Subslice(bytes: seq<nat>, at: nat, end: nat, i: nat, j: nat)
    requires at <= end <= |bytes| && i <= j <= end - at
    ensures bytes[at..end][i..j] == bytes[at + i..at + j]
  {
    var a, b := bytes[at..end][i..j], bytes[at + i..at + j];
    assert |a| == |b|;
    forall k | 0 <= k < |a|
      ensures a[k] == b[k]
    {
    }
    assert a == b;
  }

  /** One encoded run read from `at` on (EFI/src/ntfs.c:14-22), its header given. */
  method ReadRun(bytes: seq<nat>, start: nat, header: nat) returns (at: nat, clusterCount: nat, clusterOffset: nat)
    requires start + header % 16 + header / 16 <= |bytes| && 1 <= header / 16 <= 7
    ensures var c := start + header % 16;
      && at == c + header / 16
      && clusterCount == Little(bytes[start..c]) && clusterOffset == SignExtend(Little(bytes[c..at]), header / 16)
  {
    var clusterCountSize, clusterOffsetSize := header % 16, header / 16;
    at := start;
    clusterCount := ReadLittle(bytes, at, clusterCountSize);
    at := at + clusterCountSize;
    clusterOffset := ReadLittle(bytes, at, clusterOffsetSize);
    at := at + clusterOffsetSize;
    clusterOffset := SignExtend(clusterOffset, clusterOffsetSize);
  }

  /** ntfs_logical_cluster_number on the encoded `runs`, which end at `end` or at a zero
      header. A virtual cluster inside run `k` gives the start of the run plus the distance
      into it, in 64 bits; one past the end gives 0. */
  method LogicalClusterNumber(bytes: seq<nat>, end: nat, vcn: nat, ghost runs: seq<Run>,
      ghost stop: nat) returns (lcn: nat)
    requires ValidRuns(runs) && stop <= end <= |bytes| && bytes[..stop] == Encode(runs)
    requires stop < end ==> bytes[stop] == 0
    ensures forall k :: 0 <= k < |runs| && InRunOf(runs, k, vcn) ==>
      lcn == Wrap(StartOf(runs, k + 1) + (vcn - CountBefore(runs, k)))
    ensures vcn >= CountBefore(runs, |runs|) ==> lcn == 0
  {
    hide Encode, EncodeRun, Bytes, Little, Base, Complement, SignExtend, ValidRun, Wrap, InRunOf;
    WrapZero();
    var at, prevLcn, rest := 0, 0, vcn;
    ghost var k := 0;
    assert bytes[0..stop] == Encode(runs[0..]);
    while at < end
      invariant k <= |runs| && at <= stop && bytes[at..stop] == Encode(runs[k..])
      invariant prevLcn == Wrap(StartOf(runs, k)) && vcn == CountBefore(runs, k) + rest
      decreases end - at
    {
      var header := bytes[at];
      EncodeEmpty(runs[k..]);
      if k < |runs| {
        RunDecoded(bytes, at, stop, runs, k);
      }
      if header == 0 {
        break;
      }
      var clusterCount, clusterOffset;
      at, clusterCount, clusterOffset := ReadRun(bytes, at + 1, header);
      WrapSum(StartOf(runs, k), runs[k].delta);
      prevLcn := Wrap(prevLcn + clusterOffset);
      if rest < clusterCount {
        WrapSum(StartOf(runs, k + 1), rest);
        OnlyRun(runs, k, vcn, rest);
        CountMonotone(runs, k + 1, |runs|);
        return Wrap(prevLcn + rest);
      }
      rest := rest - clusterCount;
      k := k + 1;
    }
    EncodeEmpty(runs[k..]);
    PastEnd(runs, vcn);
    return 0;
  }

  lemma EncodeEmpty(runs: seq<Run>)
    requires ValidRuns(runs)
    ensures runs == [] <==> Encode(runs) == []
  {
  }

  lemma OnlyRun(runs: seq<Run>, k: nat, vcn: nat, rest: nat)
    requires k < |runs| && vcn == CountBefore(runs, k) + rest && rest < runs[k].count
    ensures forall j :: 0 <= j < |runs| && InRunOf(runs, j, vcn) ==> j == k
  {
    forall j | 0 <= j < |runs| && InRunOf(runs, j, vcn)
      ensures j == k
    {
      OneRun(runs, j, k, vcn);
    }
  }

  lemma PastEnd(runs: seq<Run>, vcn: nat)
    requires vcn >= CountBefore(runs, |runs|)
    ensures forall k :: 0 <= k < |runs| ==> !InRunOf(runs, k, vcn)
  {
    forall k | 0 <= k < |runs|
      ensures !InRunOf(runs, k, vcn)
    {
      CountMonotone(runs, k + 1, |runs|);
    }
  }

  /** What the decoder reads of run `k`. */
  lemma RunDecoded(bytes: seq<nat>, at: nat, stop: nat, runs: seq<Run>, k: nat)
    requires ValidRuns(runs) && k < |runs| && at <= stop <= |bytes| && bytes[at..stop] == Encode(runs[k..])
    ensures at < |bytes|
    ensures var r, header := runs[k], bytes[at];
      var c := at + 1 + r.countSize;
      && header != 0 && header % 16 == r.countSize && header / 16 == r.offsetSize && 1 <= r.offsetSize <= 7
      && c + r.offsetSize <= stop
      && Little(bytes[at + 1..c]) == r.count
      && SignExtend(Little(bytes[c..c + r.offsetSize]), r.offsetSize) == Wrap(r.delta)
      && bytes[c + r.offsetSize..stop] == Encode(runs[k + 1..])
  {
    hide Base, Little, Bytes, Encode, SignExtend;
    var r := runs[k];
    FirstRun(bytes, at, stop, runs[k..]);
    assert runs[k..][1..] == runs[k + 1..];
    LittleOfBytes(r.count, r.countSize);
    LittleOfBytes(Complement(r), r.offsetSize);
    SignExtended(r);
  }
}
