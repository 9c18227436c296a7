/** The queue pair of nvme.c: nvm_express_submission and nvm_express_completion, used one
    command at a time. */
module NvmeQueue {
  import opened Layouts
  import opened CycleBits

  /** A submission entry: the command and its identifier. */
  datatype Command = Command(opcode: nat, id: nat)

  /** A completion entry: identifier, status and phase tag. */
  datatype Completion = Completion(id: nat, status: nat, phase: nat)

  // ---------------------------------------------------------------- identifiers

  /** The identifier after `id`, in 16 bits; 0 and 0xFFFF are skipped. */
  function NextId(id: nat): nat {
    var d := (id + 1) % 0x10000;
    if d == 0xFFFF || d == 0 then 1 else d
  }

  /** The identifier of the `k`-th submission, counted from 1; 0 before the first. */
  function IdAt(k: nat): nat {
    if k == 0 then 0 else (k - 1) % 0xFFFE + 1
  }

  lemma IdAtNext(k: nat)
    ensures IdAt(k + 1) == NextId(IdAt(k))
  {
  }

  /** No identifier is 0 or 0xFFFF, and 65534 consecutive submissions have different ones;
      the next one repeats the first. */
  lemma IdsDistinct(j: nat, k: nat)
    requires 0 < j < k
    ensures 1 <= IdAt(k) <= 0xFFFE
    ensures k < j + 0xFFFE ==> IdAt(j) != IdAt(k)
    ensures k == j + 0xFFFE ==> IdAt(j) == IdAt(k)
  {
  }

  // ---------------------------------------------------------------- rings

  /** Every submission carries the identifier of its place. */
  ghost predicate Numbered(sent: seq<Command>) {
    forall k :: 0 <= k < |sent| ==> sent[k].id == IdAt(k + 1)
  }

  /** Slot and lap of the entry at position `p` of a ring of `n` slots. */
  function Place(p: nat, n: nat): nat { if n == 0 then 0 else p % n }

  function Round(p: nat, n: nat): nat { if n == 0 then 0 else p / n }

  /** The index moves on as the C code moves it, and the lap with it. */
  lemma NextPlace(p: nat, n: nat)
    requires n > 0
    ensures Place(p, n) < n
    ensures Place(p + 1, n) == if Place(p, n) == n - 1 then 0 else Place(p, n) + 1
    ensures Round(p + 1, n) == Round(p, n) + if Place(p, n) == n - 1 then 1 else 0
  {
    var q, r := p / n, p % n;
    assert p == q * n + r;
    if r == n - 1 {
      assert (q + 1) * n == p + 1;
      DivModUnique(p + 1, q + 1, 0, n);
    } else {
      DivModUnique(p + 1, q, r + 1, n);
    }
  }

  /** The submission ring holds the commands not fetched yet. */
  ghost predicate Fetchable(slots: seq<Command>, sent: seq<Command>, fetched: nat) {
    && |slots| > 0 && fetched <= |sent| < fetched + |slots|
    && forall k, s :: fetched <= k < |sent| && s == Place(k, |slots|) && s < |slots| ==> slots[s] == sent[k]
  }

  lemma SubmitEntry(slots: seq<Command>, sent: seq<Command>, fetched: nat, command: Command)
    requires Fetchable(slots, sent, fetched) && |sent| + 1 < fetched + |slots|
    ensures Place(|sent|, |slots|) < |slots|
    ensures Fetchable(slots[Place(|sent|, |slots|) := command], sent + [command], fetched)
  {
    NextPlace(|sent|, |slots|);
    hide Place;
    forall k: nat | fetched <= k < |sent|
      ensures Place(k, |slots|) != Place(|sent|, |slots|)
    {
      PlacesDiffer(k, |sent|, |slots|);
    }
  }

  lemma SubmitReady(slots: seq<Command>, sent: seq<Command>, fetched: nat, command: Command, size: nat)
    requires Fetchable(slots, sent, fetched) && |sent| < fetched + size && |slots| == size + 1
    ensures Place(|sent|, size + 1) < |slots|
    ensures Fetchable(slots[Place(|sent|, size + 1) := command], sent + [command], fetched)
  {
    hide Place;
    SubmitEntry(slots, sent, fetched, command);
  }

  lemma FetchedBounds(slots: seq<Command>, sent: seq<Command>, fetched: nat)
    requires Fetchable(slots, sent, fetched)
    ensures fetched <= |sent| < fetched + |slots|
  {
  }

  lemma PlacesDiffer(j: nat, k: nat, n: nat)
    requires j < k < j + n
    ensures Place(j, n) != Place(k, n)
  {
    if j % n == k % n { SameSlot(j, k, n); }
  }

  /** The place behind the last completion is that of the first one not seen exactly if a ring
      less one are outstanding. */
  lemma RoomByBell(seen: nat, count: nat, n: nat)
    requires seen <= count < seen + n
    ensures Place(count + 1, n) == Place(seen, n) <==> count + 1 == seen + n
  {
    if count + 1 < seen + n {
      hide Place;
      PlacesDiffer(seen, count + 1, n);
    } else {
      DivModUnique(seen + n, seen / n + 1, seen % n, n);
    }
  }

  lemma FetchEntry(slots: seq<Command>, sent: seq<Command>, fetched: nat)
    requires Fetchable(slots, sent, fetched) && fetched < |sent|
    ensures Place(fetched, |slots|) < |slots| && slots[Place(fetched, |slots|)] == sent[fetched]
    ensures Fetchable(slots, sent, fetched + 1)
  {
    NextPlace(fetched, |slots|);
    hide Place;
  }

  /** The completion ring after the entries `posted`. */
  ghost predicate Posted(slots: seq<Completion>, posted: seq<(nat, nat)>) {
    |slots| > 0 && forall s :: 0 <= s < |slots| ==> slots[s] == EntryAt(posted, |slots|, s)
  }

  function EntryAt(posted: seq<(nat, nat)>, n: nat, s: nat): Completion
    requires s < n
  {
    var h := Holds(posted, n, s);
    if h.None? then Completion(0, 0, 0) else Completion(h.value.item.0, h.value.item.1, h.value.bit)
  }

  lemma PostEntry(slots: seq<Completion>, posted: seq<(nat, nat)>, id: nat, status: nat)
    requires Posted(slots, posted)
    ensures Place(|posted|, |slots|) < |slots|
    ensures Posted(slots[Place(|posted|, |slots|) := Completion(id, status, Bit(Round(|posted|, |slots|)))],
                   posted + [(id, status)])
  {
    hide Holds, Bit;
    var n := |slots|;
    HoldsNext(posted, n, (id, status), 0);
    forall s | 0 <= s < n
      ensures slots[|posted| % n := Completion(id, status, Bit(|posted| / n))][s] ==
        EntryAt(posted + [(id, status)], n, s)
    {
      HoldsNext(posted, n, (id, status), s);
    }
  }

  /** The phase test: the entry the driver waits at has the phase of the lap exactly when it
      was posted in this lap. */
  lemma PhaseTest(slots: seq<Completion>, posted: seq<(nat, nat)>, seen: nat)
    requires Posted(slots, posted) && seen <= |posted| <= seen + |slots|
    ensures Place(seen, |slots|) < |slots|
    ensures slots[Place(seen, |slots|)].phase == Bit(Round(seen, |slots|)) <==> seen < |posted|
    ensures seen < |posted| ==>
      slots[Place(seen, |slots|)] == Completion(posted[seen].0, posted[seen].1, Bit(Round(seen, |slots|)))
  {
    hide Holds;
    if seen < |posted| { HoldsPending(posted, |slots|, seen); } else { HoldsStale(posted, |slots|); }
  }

  /** A submission and a completion queue, with the controller's side of both. */
  class QueuePair {
    /** The submission queue: COID, SIZE, INDX and doorbell. */
    const sq: array<Command>
    const sqSize: nat
    var coid: nat
    var sqIndx: nat
    var sqBell: nat
    /** The completion queue: SIZE, INDX, CYCL and doorbell. */
    const cq: array<Completion>
    const cqSize: nat
    var cqIndx: nat
    var cycl: nat
    var cqBell: nat
    /** The controller's side: submission head, completion tail and phase. */
    var head: nat
    var tail: nat
    var phase: nat

    ghost var sent: seq<Command>
    ghost var fetched: nat
    ghost var posted: seq<(nat, nat)>
    ghost var seen: nat

    ghost predicate Valid()
      reads this, sq, cq
    {
      && sq.Length == sqSize + 1 && cq.Length == cqSize + 1 && 0 < sqSize <= 0xFF && 0 < cqSize <= 0xFF
      && coid == IdAt(|sent|) && Numbered(sent)
      && sqIndx == Place(|sent|, sqSize + 1) && sqBell == sqIndx
      && Fetchable(sq[..], sent, fetched) && head == Place(fetched, sqSize + 1)
      && Posted(cq[..], posted) && seen <= |posted| <= seen + cqSize
      && cqIndx == Place(seen, cqSize + 1) && cycl == Bit(Round(seen, cqSize + 1)) && cqBell == cqIndx
      && tail == Place(|posted|, cqSize + 1) && phase == Bit(Round(|posted|, cqSize + 1))
    }

    /** The queues as nvme_controller_setup makes them (nvme.c:174-185). */
    constructor (sqSize: nat, cqSize: nat)
      requires 0 < sqSize <= 0xFF && 0 < cqSize <= 0xFF
      ensures Valid() && fresh(sq) && fresh(cq) && sent == [] && fetched == 0 && posted == [] && seen == 0
      ensures forall i :: 0 <= i < sq.Length ==> sq[i] == Command(0, 0)
    {
      sq := new Command[sqSize + 1](_ => Command(0, 0));
      cq := new Completion[cqSize + 1](_ => Completion(0, 0, 0));
      this.sqSize, this.cqSize := sqSize, cqSize;
      coid, sqIndx, sqBell := 0, 0, 0;
      cqIndx, cycl, cqBell := 0, 1, 0;
      head, tail, phase := 0, 0, 1;
      sent, fetched, posted, seen := [], 0, [], 0;
    }

    /** nvm_express_submission, with room in the queue. */
    method Submission(opcode: nat) returns (id: nat)
      requires Valid() && |sent| < fetched + sqSize
      modifies this`coid, this`sqIndx, this`sqBell, this`sent, sq
      ensures Valid() && id == IdAt(|sent|) && sent == old(sent) + [Command(opcode, id)]
    {
      hide Bit, Posted, IdAt, Fetchable, Place, Round;
      ghost var count := |sent|;
      IdAtNext(count);
      NextPlace(count, sq.Length);
      coid := (coid + 1) % 0x10000;
      if coid == 0xFFFF || coid == 0 {
        coid := 1;
      }
      id := coid;
      SubmitReady(sq[..], sent, fetched, Command(opcode, id), sqSize);
      sq[sqIndx] := Command(opcode, id);
      if sqIndx >= sqSize {
        sqIndx := 0;
      } else {
        sqIndx := sqIndx + 1;
      }
      sqBell := sqIndx;
      sent := sent + [Command(opcode, id)];
    }

    /** The controller taking one command and posting its completion. It goes by the doorbells:
        there is a command if the submission bell is ahead of its head, and room for the
        completion if its next tail is not the place that the completion bell names. */
    method Execute(status: nat) returns (done: bool)
      requires Valid()
      modifies this`head, this`tail, this`phase, this`fetched, this`posted, cq
      ensures Valid() && (done <==> old(fetched) < |sent| && |old(posted)| < seen + cqSize)
      ensures done ==> fetched == old(fetched) + 1 && posted == old(posted) + [(sent[old(fetched)].id, status)]
      ensures !done ==> fetched == old(fetched) && posted == old(posted)
    {
      hide Bit, IdAt, Posted, Numbered, Fetchable, Place, Round;
      FetchedBounds(sq[..], sent, fetched);
      NextPlace(fetched, sq.Length);
      NextPlace(|posted|, cq.Length);
      if |sent| > fetched { PlacesDiffer(fetched, |sent|, sq.Length); }
      RoomByBell(seen, |posted|, cq.Length);
      if head == sqBell || (if tail == cqSize then 0 else tail + 1) == cqBell {
        return false;
      }
      done := true;
      FetchEntry(sq[..], sent, fetched);
      BitFlips(Round(|posted|, cq.Length));
      var command := sq[head];
      PostEntry(cq[..], posted, command.id, status);
      cq[tail] := Completion(command.id, status, phase);
      head := if head == sqSize then 0 else head + 1;
      fetched := fetched + 1;
      if tail == cqSize {
        tail := 0;
        phase := 1 - phase;
      } else {
        tail := tail + 1;
      }
      posted := posted + [(command.id, status)];
    }

    /** One round of the polling loop of nvm_express_completion. */
    method Poll() returns (comp: Option<Completion>)
      requires Valid()
      modifies this`cqIndx, this`cycl, this`cqBell, this`seen
      ensures Valid()
      ensures comp.Some? <==> old(seen) < |posted|
      ensures comp.Some? ==>
        comp.value.id == posted[old(seen)].0 && comp.value.status == posted[old(seen)].1 && seen == old(seen) + 1
      ensures comp.None? ==> seen == old(seen)
    {
      hide Bit, IdAt, Posted, Numbered, Fetchable, Place, Round;
      PhaseTest(cq[..], posted, seen);
      assert cq[..][cqIndx] == cq[cqIndx];
      if cq[cqIndx].phase != cycl {
        return None;
      }
      comp := Some(cq[cqIndx]);
      NextPlace(seen, cq.Length);
      BitFlips(Round(seen, cq.Length));
      if cqIndx == cqSize {
        cqIndx := 0;
        cycl := 1 - cycl;
      } else {
        cqIndx := cqIndx + 1;
      }
      cqBell := cqIndx;
      seen := seen + 1;
    }

    /** One command from submission to completion, as nvm_express_transfer issues it
        (nvme.c:63-66): the controller executes it while the driver polls, `idle` rounds in
        vain. The completion carries the identifier just submitted, and nothing is
        outstanding before and after. */
    method Transfer(opcode: nat, status: nat, idle: nat) returns (id: nat, comp: Completion)
      requires Valid() && fetched == |sent| && seen == |posted|
      modifies this, sq, cq
      ensures Valid() && fetched == |sent| && seen == |posted|
      ensures id == IdAt(|sent|) && sent == old(sent) + [Command(opcode, id)]
      ensures comp.id == id && comp.status == status && posted == old(posted) + [(id, status)]
    {
      hide Bit, IdAt, Posted, Numbered, Fetchable, Place, Round;
      FetchedBounds(sq[..], sent, fetched);
      id := Submission(opcode);
      var round := 0;
      var answer: Option<Completion> := None;
      while answer.None?
        invariant Valid() && sent == old(sent) + [Command(opcode, id)] && id == IdAt(|sent|) && round <= idle + 1
        invariant round <= idle ==> fetched == |sent| - 1 && seen == |posted| && posted == old(posted) && answer.None?
        invariant round > idle ==> fetched == |sent| && posted == old(posted) + [(id, status)]
        invariant round > idle && answer.None? ==> seen == |posted| - 1
        invariant answer.Some? ==>
          round > idle && seen == |posted| && answer.value.id == id && answer.value.status == status
        decreases idle + 1 - round, answer.None?
      {
        if round == idle {
          var done := Execute(status);
        }
        if round <= idle {
          round := round + 1;
        }
        answer := Poll();
      }
      comp := answer.value;
    }
  }
}
