/** The reentrant spin lock of async.c as the interleaved memory accesses of many cores. CORE
    and CONT are 16-bit words; the increment and the decrement of CONT are a read and a write
    of their own. Core `i` stores `i + 1`. */
module ReentrantLock {

  const WORD: nat := 0x10000

  /** Where a core stands: between calls, or before the next memory access of async_lock
      (`Read` to `Store`) or async_unlock (`Fetch` to `Release`). */
  datatype Place =
    | Between
    | Read            // while (core != lock->CORE)
    | Exchange        // _InterlockedCompareExchange16
    | Load            // lock->CONT++, its read
    | Store(next: nat)
    | Fetch           // lock->CONT--, its read
    | Put(next: nat)
    | Test            // if (!lock->CONT)
    | Release         // lock->CORE = 0

  /** A core: where it stands, and how many of its calls of async_lock it has not undone. */
  datatype Core = Core(place: Place, depth: nat)

  datatype System = System(owner: nat, count: nat, cores: seq<Core>)

  /** The memory access or call that core `i` makes next; `unlock` tells what it calls if it
      stands between calls. Only a core inside calls async_unlock. */
  ghost predicate Step(s: System, i: nat, unlock: bool, s': System) {
    i < |s.cores| && var c := s.cores[i];
    match c.place
    case Between =>
      if unlock then c.depth > 0 && s' == Moved(s, i, Core(Fetch, c.depth))
      else s' == Moved(s, i, Core(Read, c.depth))
    case Read =>
      s' == Moved(s, i, Core(if s.owner == i + 1 then Load else Exchange, c.depth))
    case Exchange =>
      s' == Moved(s, i, Core(Read, c.depth)).(owner := if s.owner == 0 then i + 1 else s.owner)
    case Load =>
      s' == Moved(s, i, Core(Store((s.count + 1) % WORD), c.depth))
    case Store(next) =>
      s' == Moved(s, i, Core(Between, c.depth + 1)).(count := next)
    case Fetch =>
      s' == Moved(s, i, Core(Put((s.count + WORD - 1) % WORD), c.depth))
    case Put(next) =>
      c.depth > 0 && s' == Moved(s, i, Core(Test, c.depth - 1)).(count := next)
    case Test =>
      s' == Moved(s, i, Core(if s.count == 0 then Release else Between, c.depth))
    case Release =>
      s' == Moved(s, i, Core(Between, c.depth)).(owner := 0)
  }

  function Moved(s: System, i: nat, c: Core): System
    requires i < |s.cores|
  {
    s.(cores := s.cores[i := c])
  }

  /** Core `c` holds the lock, in a call or between calls. */
  predicate Holds(c: Core) {
    c.depth > 0 || c.place.Load? || c.place.Store? || c.place.Fetch? || c.place.Put? || c.place.Test? ||
    c.place.Release?
  }

  /** What each place of core `i` says about the shared words. */
  ghost predicate CoreOk(s: System, i: nat)
    requires i < |s.cores|
  {
    var c := s.cores[i];
    && (Holds(c) ==> s.owner == i + 1)
    && (s.owner == i + 1 ==> s.count == c.depth % WORD && !c.place.Exchange? && (c.depth == 0 ==> !c.place.Between?))
    && (c.place.Store? ==> c.place.next == (c.depth + 1) % WORD)
    && (c.place.Fetch? ==> c.depth > 0)
    && (c.place.Put? ==> c.depth > 0 && c.place.next == (c.depth - 1) % WORD)
    && (c.place.Release? ==> s.count == 0)
  }

  ghost predicate Inv(s: System) {
    && s.owner <= |s.cores| && (s.owner == 0 ==> s.count == 0)
    && forall i :: 0 <= i < |s.cores| ==> CoreOk(s, i)
  }

  /** At most one core holds the lock; CORE names it, and CONT is its nesting depth as long
      as that fits 16 bits. CORE is 0 only if nobody holds the lock. */
  lemma MutualExclusion(s: System, i: nat, j: nat)
    requires Inv(s) && i < |s.cores| && j < |s.cores| && Holds(s.cores[i])
    ensures Holds(s.cores[j]) ==> i == j
    ensures s.owner == i + 1
    ensures s.count == s.cores[i].depth % WORD
    ensures s.cores[i].depth < WORD ==> s.count == s.cores[i].depth
  {
    assert CoreOk(s, i) && CoreOk(s, j);
  }

  lemma StartInv(n: nat)
    ensures Inv(Start(n)) && Shallow(Start(n))
  {
  }

  lemma CountUp(depth: nat)
    ensures (depth % WORD + 1) % WORD == (depth + 1) % WORD
  {
  }

  lemma CountDown(depth: nat)
    requires depth > 0
    ensures (depth % WORD + WORD - 1) % WORD == (depth - 1) % WORD
  {
  }

  /** Every step of every core keeps the invariant, with one exception: the lock is dropped
      while its owner is still inside. */
  lemma StepKeepsInv(s: System, i: nat, unlock: bool, s': System)
    requires Inv(s) && Step(s, i, unlock, s')
    ensures Inv(s') <==> !(s.cores[i].place.Release? && s.cores[i].depth > 0)
  {
    var c := s.cores[i];
    assert CoreOk(s, i);
    CountUp(c.depth);
    if c.depth > 0 { CountDown(c.depth); }
    hide Holds;
    if s.cores[i].place.Release? && s.cores[i].depth > 0 {
      DroppedInside(s', i);
    } else {
      forall j | 0 <= j < |s'.cores|
        ensures CoreOk(s', j)
      {
        assert CoreOk(s, j);
        if j == i { MoverOk(s, i, unlock, s'); } else { OtherOk(s, i, unlock, s', j); }
      }
    }
  }

  lemma DroppedInside(s: System, i: nat)
    requires i < |s.cores| && s.cores[i].depth > 0 && s.owner == 0
    ensures !Inv(s)
  {
    assert !CoreOk(s, i);
  }

  /** The core that moved. */
  lemma MoverOk(s: System, i: nat, unlock: bool, s': System)
    requires Inv(s) && Step(s, i, unlock, s') && !(s.cores[i].place.Release? && s.cores[i].depth > 0)
    ensures CoreOk(s', i)
  {
    var c := s.cores[i];
    assert CoreOk(s, i);
    CountUp(c.depth);
    if c.depth > 0 { CountDown(c.depth); }
  }

  /** The others: their places stay, and the shared words changed only under the owner or
      when the lock was free. */
  lemma OtherOk(s: System, i: nat, unlock: bool, s': System, j: nat)
    requires Inv(s) && Step(s, i, unlock, s') && j < |s.cores| && j != i
    ensures j < |s'.cores| && CoreOk(s', j)
  {
    assert CoreOk(s, i) && CoreOk(s, j);
  }

  /** The lock is about to be dropped exactly when the depth, counted in 16 bits, is zero: so
      it is dropped too early exactly when a depth of a positive multiple of 65536 is left. */
  lemma DropsIff(s: System, i: nat, s': System)
    requires Inv(s) && i < |s.cores| && s.cores[i].place.Test? && Step(s, i, false, s')
    ensures s'.cores[i].place.Release? <==> s.cores[i].depth % WORD == 0
    ensures s'.cores[i].place.Release? && s'.cores[i].depth > 0 <==>
      s.cores[i].depth > 0 && s.cores[i].depth % WORD == 0
  {
    assert CoreOk(s, i);
  }

  /** No core of the system nests more than 65536 deep. */
  ghost predicate Bounded(s: System) {
    forall i :: 0 <= i < |s.cores| ==> s.cores[i].depth <= WORD
  }

  /** So after a decrement a depth fits 16 bits. */
  ghost predicate Shallow(s: System) {
    forall i :: 0 <= i < |s.cores| && (s.cores[i].place.Test? || s.cores[i].place.Release?) ==> s.cores[i].depth < WORD
  }

  lemma StepShallow(s: System, i: nat, unlock: bool, s': System)
    requires Bounded(s) && Shallow(s) && Step(s, i, unlock, s')
    ensures Shallow(s')
  {
  }

  /** A run: `who[j]` makes step `j`, and calls async_unlock if it stands between calls and
      `calls[j]` says so. */
  ghost predicate IsRun(run: seq<System>, who: seq<nat>, calls: seq<bool>) {
    && |run| == |who| + 1 == |calls| + 1
    && forall j, k :: 0 <= j < |who| && k == j + 1 ==> Step(run[j], who[j], calls[j], run[k])
  }

  /** Before the first call: nobody is inside. */
  function Start(n: nat): System { System(0, 0, seq(n, _ => Core(Between, 0))) }

  /** Over every interleaving of any number of cores, none of which nests deeper than 65536,
      the invariant holds in every state. */
  lemma {:induction false} EveryRunExcludes(run: seq<System>, who: seq<nat>, calls: seq<bool>, k: nat)
    requires IsRun(run, who, calls) && k < |run| && run[0] == Start(|run[0].cores|)
    requires forall j :: 0 <= j < |run| ==> Bounded(run[j])
    ensures Inv(run[k]) && Shallow(run[k])
  {
    hide Inv, Step, Bounded, Shallow;
    if k == 0 {
      StartInv(|run[0].cores|);
    } else {
      EveryRunExcludes(run, who, calls, k - 1);
      ReleaseIsLast(run[k - 1], who[k - 1]);
      StepIndex(run[k - 1], who[k - 1], calls[k - 1], run[k]);
      StepKeepsInv(run[k - 1], who[k - 1], calls[k - 1], run[k]);
      StepShallow(run[k - 1], who[k - 1], calls[k - 1], run[k]);
    }
  }

  lemma StepIndex(s: System, i: nat, unlock: bool, s': System)
    requires Step(s, i, unlock, s')
    ensures i < |s.cores|
  {
  }

  /** Below the bound a core drops the lock only when it is no longer inside. */
  lemma ReleaseIsLast(s: System, i: nat)
    requires Inv(s) && Shallow(s)
    ensures i < |s.cores| && s.cores[i].place.Release? ==> s.cores[i].depth == 0
  {
    if i < |s.cores| && s.cores[i].place.Release? {
      assert CoreOk(s, i);
      assert Holds(s.cores[i]);
    }
  }

  // ---------------------------------------------------------------- beyond the bound

  /** Core 0 holds the lock `depth` deep and stands at `place`, nobody else is inside. */
  function Nested(n: nat, place: Place, depth: nat, count: nat): System
    requires n > 0
  {
    System(1, count, Start(n).cores[0 := Core(place, depth)])
  }

  ghost predicate DeepestIs(s: System, depth: nat) {
    forall i :: 0 <= i < |s.cores| ==> s.cores[i].depth <= depth
  }

  /** A run from the start of `n` cores to `last` that nests no deeper than `depth`. */
  ghost predicate RunTo(run: seq<System>, who: seq<nat>, calls: seq<bool>, n: nat, last: System, depth: nat) {
    && IsRun(run, who, calls) && run[0] == Start(n) && run[|who|] == last
    && forall j :: 0 <= j < |run| ==> DeepestIs(run[j], depth)
  }

  ghost predicate Reachable(n: nat, last: System, depth: nat) {
    exists run: seq<System>, who: seq<nat>, calls: seq<bool> :: RunTo(run, who, calls, n, last, depth)
  }

  lemma StartReachable(n: nat, depth: nat)
    ensures Reachable(n, Start(n), depth)
  {
    assert RunTo([Start(n)], [], [], n, Start(n), depth);
  }

  lemma Onward(n: nat, s: System, i: nat, unlock: bool, s': System, depth: nat)
    requires Reachable(n, s, depth) && Step(s, i, unlock, s') && DeepestIs(s', depth)
    ensures Reachable(n, s', depth)
  {
    hide Step, DeepestIs;
    var run: seq<System>, who: seq<nat>, calls: seq<bool> :| RunTo(run, who, calls, n, s, depth);
    var run', who', calls' := run + [s'], who + [i], calls + [unlock];
    forall j, k | 0 <= j < |who'| && k == j + 1
      ensures Step(run'[j], who'[j], calls'[j], run'[k])
    {
      assert j < |who| ==> who'[j] == who[j] && calls'[j] == calls[j] && run'[k] == run[k];
    }
    assert RunTo(run', who', calls', n, s', depth);
  }

  lemma Deeper(n: nat, s: System, depth: nat, more: nat)
    requires Reachable(n, s, depth) && depth <= more
    ensures Reachable(n, s, more)
  {
    var run: seq<System>, who: seq<nat>, calls: seq<bool> :| RunTo(run, who, calls, n, s, depth);
    hide Step;
    assert RunTo(run, who, calls, n, s, more);
  }

  /** Core 0 can call async_lock any number of times. */
  lemma {:induction false} NestReachable(n: nat, depth: nat)
    requires n > 0 && depth > 0
    ensures Reachable(n, Nested(n, Between, depth, depth % WORD), depth)
  {
    hide Reachable;
    if depth == 1 {
      var s := Start(n);
      StartReachable(n, 1);
      var s1 := Moved(s, 0, Core(Read, 0));
      Onward(n, s, 0, false, s1, 1);
      var s2 := Moved(s, 0, Core(Exchange, 0));
      Onward(n, s1, 0, false, s2, 1);
      var s3 := Nested(n, Read, 0, 0);
      Onward(n, s2, 0, false, s3, 1);
      LockOnce(n, 0, s3);
    } else {
      NestReachable(n, depth - 1);
      var s := Nested(n, Between, depth - 1, (depth - 1) % WORD);
      Deeper(n, s, depth - 1, depth);
      var s3 := Nested(n, Read, depth - 1, (depth - 1) % WORD);
      Onward(n, s, 0, false, s3, depth);
      LockOnce(n, depth - 1, s3);
    }
  }

  /** The end of async_lock on a core that holds the lock. */
  lemma LockOnce(n: nat, depth: nat, s: System)
    requires n > 0 && s == Nested(n, Read, depth, depth % WORD) && Reachable(n, s, depth + 1)
    ensures Reachable(n, Nested(n, Between, depth + 1, (depth + 1) % WORD), depth + 1)
  {
    hide Reachable;
    CountUp(depth);
    var s1 := Nested(n, Load, depth, depth % WORD);
    Onward(n, s, 0, false, s1, depth + 1);
    var s2 := Nested(n, Store((depth + 1) % WORD), depth, depth % WORD);
    Onward(n, s1, 0, false, s2, depth + 1);
    Onward(n, s2, 0, false, Nested(n, Between, depth + 1, (depth + 1) % WORD), depth + 1);
  }

  /** The bound of 65536 cannot be raised by one: 65537 calls of async_lock and one of
      async_unlock drop the lock with its owner 65536 deep inside. */
  lemma BoundIsTight(n: nat)
    requires n > 0
    ensures var s := Nested(n, Between, WORD, 0).(owner := 0); Reachable(n, s, WORD + 1) && !Inv(s)
  {
    hide Reachable;
    NestReachable(n, WORD + 1);
    var s := Nested(n, Between, WORD + 1, 1);
    var s1 := Nested(n, Fetch, WORD + 1, 1);
    Onward(n, s, 0, true, s1, WORD + 1);
    var s2 := Nested(n, Put(0), WORD + 1, 1);
    Onward(n, s1, 0, false, s2, WORD + 1);
    var s3 := Nested(n, Test, WORD, 0);
    Onward(n, s2, 0, false, s3, WORD + 1);
    var s4 := Nested(n, Release, WORD, 0);
    Onward(n, s3, 0, false, s4, WORD + 1);
    var s5 := Nested(n, Between, WORD, 0).(owner := 0);
    Onward(n, s4, 0, false, s5, WORD + 1);
    DroppedInside(s5, 0);
  }

  /** Then a second core gets in. */
  lemma TwoCoresInside(n: nat) returns (s: System)
    requires n > 1
    ensures Reachable(n, s, WORD + 1) && |s.cores| == n && Holds(s.cores[0]) && Holds(s.cores[1])
  {
    hide Reachable;
    BoundIsTight(n);
    var s0 := Nested(n, Between, WORD, 0).(owner := 0);
    var s1 := Moved(s0, 1, Core(Read, 0));
    Onward(n, s0, 1, false, s1, WORD + 1);
    var s2 := Moved(s0, 1, Core(Exchange, 0));
    Onward(n, s1, 1, false, s2, WORD + 1);
    var s3 := Moved(s0, 1, Core(Read, 0)).(owner := 2);
    Onward(n, s2, 1, false, s3, WORD + 1);
    s := Moved(s0, 1, Core(Load, 0)).(owner := 2);
    Onward(n, s3, 1, false, s, WORD + 1);
  }
}
