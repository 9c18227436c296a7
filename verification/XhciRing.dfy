/** The transfer and event rings of xhc_ring.c with their cycle bits (sections 4.9.2 to 4.9.4
    of the xHCI specification), and the commands sent one at a time through them (xhci.c). */
module XhciRing {
  import opened Layouts
  import opened CycleBits

  /** The endpoint a transfer event belongs to. */
  datatype Endpoint = Endpoint(slot: nat, id: nat)

  /** The fields of a TRB (xhc_trb.h): its data, its type, and those of events, the completion
      code and the endpoint. */
  datatype Content = Content(data: nat, kind: nat, code: nat, endpoint: Endpoint)

  /** A TRB: its fields, and the bits of the control word that drive the ring protocol. */
  datatype Trb = Trb(payload: Content, cycle: nat, link: bool, toggle: bool)

  const ZERO := Content(0, 0, 0, Endpoint(0, 0))
  const ZERO_TRB := Trb(ZERO, 0, false, false)

  /** Slots of a linked ring before its link, and of an unlinked ring. */
  const LINKED: nat := 255
  const UNLINKED: nat := 256

  /** The lap and index of the producer of a linked ring after `p` TRBs: the index stays one
      past the last slot until the next TRB needs the wrap. */
  function Lap(p: nat): nat { if p == 0 then 0 else (p - 1) / LINKED }

  function IndexAt(p: nat): nat { p - LINKED * Lap(p) }

  /** What slot `s` of a ring of `n` slots holds after the payloads `sent`. */
  function Held(sent: seq<Content>, n: nat, s: nat): Trb
    requires s < n
  {
    var h := Holds(sent, n, s);
    if h.None? then ZERO_TRB else Trb(h.value.item, h.value.bit, false, false)
  }

  // ---------------------------------------------------------------- linked rings

  /** The slots of a linked ring after the payloads `sent`, its link in the last slot. */
  ghost predicate LinkedSlots(slots: seq<Trb>, sent: seq<Content>) {
    && |slots| == LINKED + 1
    && (forall s :: 0 <= s < LINKED ==> slots[s] == Held(sent, LINKED, s))
    && slots[LINKED].link && slots[LINKED].toggle
    && slots[LINKED].cycle == (if Lap(|sent|) == 0 then 1 else Bit(Lap(|sent|) - 1))
  }

  /** Where the controller stands after taking `taken` TRBs: at the next one, or still at the
      link before it. */
  ghost predicate StandsAt(deq: nat, ccs: nat, taken: nat) {
    || (deq == taken % LINKED && ccs == Bit(taken / LINKED))
    || (taken > 0 && taken % LINKED == 0 && deq == LINKED && ccs == Bit(taken / LINKED - 1))
  }

  /** The slots after one more TRB, the link rewritten first if the lap is full. */
  lemma EnqueueSlots(slots: seq<Trb>, slots': seq<Trb>, sent: seq<Content>, payload: Content)
    requires LinkedSlots(slots, sent) && |slots'| == |slots|
    requires var i, wrap := IndexAt(|sent|), IndexAt(|sent|) == LINKED;
      && slots' == (if wrap then slots[LINKED := Trb(slots[LINKED].payload, Bit(Lap(|sent|)), true, true)] else slots)
           [if wrap then 0 else i := Trb(payload, Bit(if wrap then Lap(|sent|) + 1 else Lap(|sent|)), false, false)]
    ensures LinkedSlots(slots', sent + [payload])
    ensures var wrap := IndexAt(|sent|) == LINKED;
      IndexAt(|sent| + 1) == (if wrap then 0 else IndexAt(|sent|)) + 1 &&
          Lap(|sent| + 1) == if wrap then Lap(|sent|) + 1 else Lap(|sent|)
  {
    NextIndex(|sent|);
    hide Holds, Lap, IndexAt, Bit;
    forall s | 0 <= s < LINKED
      ensures slots'[s] == Held(sent + [payload], LINKED, s)
    {
      HoldsNext(sent, LINKED, payload, s);
    }
  }

  lemma NextIndex(p: nat)
    ensures var wrap := IndexAt(p) == LINKED;
      && IndexAt(p) <= LINKED && IndexAt(p + 1) == (if wrap then 0 else IndexAt(p)) + 1
      && Lap(p + 1) == (if wrap then Lap(p) + 1 else Lap(p))
      && p % LINKED == (if wrap then 0 else IndexAt(p)) && p / LINKED == if wrap then Lap(p) + 1 else Lap(p)
  {
  }

  /** A linked ring: the driver's side (INDX, CYCL) and the controller's side (dequeue pointer
      and consumer cycle state). */
  class LinkedRing {
    const ring: array<Trb>
    var indx: nat
    var cycl: nat
    var deq: nat
    var ccs: nat

    /** Everything ever enqueued, and how much of it the controller has taken. */
    ghost var sent: seq<Content>
    ghost var taken: nat

    ghost predicate Valid()
      reads this, ring
    {
      && LinkedSlots(ring[..], sent)
      && indx == IndexAt(|sent|) && cycl == Bit(Lap(|sent|))
      && taken <= |sent| <= taken + LINKED && StandsAt(deq, ccs, taken)
    }

    /** xhc_transfer_ring_create with a link, and the controller told to start at slot 0 with
        cycle state 1. */
    constructor ()
      ensures Valid() && fresh(ring) && sent == [] && taken == 0
    {
      ring := new Trb[LINKED + 1](_ => ZERO_TRB);
      indx, cycl, deq, ccs := 0, 1, 0, 1;
      sent, taken := [], 0;
      new;
      ring[LINKED] := Trb(ZERO, 1, true, true);
    }

    /** xhc_queue_transfer: fewer than 255 TRBs may be outstanding. */
    method QueueTransfer(payload: Content) returns (slot: nat)
      requires Valid() && |sent| < taken + LINKED
      modifies this`indx, this`cycl, this`sent, ring
      ensures Valid() && sent == old(sent) + [payload]
      ensures slot < LINKED && ring[slot] == Trb(payload, cycl, false, false)
    {
      hide Held, Lap, IndexAt, Bit;
      ghost var slots, sent0 := ring[..], sent;
      NextIndex(|sent|);
      if indx == LINKED {
        ring[LINKED] := Trb(ring[LINKED].payload, cycl, true, true);
        BitFlips(Lap(|sent|));
        cycl := 1 - cycl;
        indx := 0;
      }
      ring[indx] := Trb(payload, cycl, false, false);
      slot := indx;
      indx := indx + 1;
      sent := sent + [payload];
      EnqueueSlots(slots, ring[..], sent0, payload);
    }

    /** The controller fetching its next TRB, by the cycle-bit rules. */
    method Fetch() returns (trb: Option<Content>)
      requires Valid()
      modifies this`deq, this`ccs, this`taken
      ensures Valid() && trb == if old(taken) < |sent| then Some(sent[old(taken)]) else None
      ensures taken == if old(taken) < |sent| then old(taken) + 1 else old(taken)
    {
      hide Held, Lap, IndexAt, Bit, LinkedSlots;
      if deq == LINKED {
        AtLink(ring[..], sent, taken);
        assert ring[..][LINKED] == ring[LINKED];
        if ring[LINKED].cycle != ccs {
          return None;
        }
        BitFlips(taken / LINKED - 1);
        deq := 0;
        if ring[LINKED].toggle {
          ccs := 1 - ccs;
        }
      }
      AtSlot(ring[..], sent, taken);
      assert ring[..][deq] == ring[deq];
      if ring[deq].cycle != ccs {
        return None;
      }
      trb := Some(ring[deq].payload);
      NextStand(taken);
      deq := deq + 1;
      taken := taken + 1;
    }
  }

  /** The slot the controller stands at holds the next TRB, or one of another lap. */
  lemma AtSlot(slots: seq<Trb>, sent: seq<Content>, taken: nat)
    requires LinkedSlots(slots, sent) && taken <= |sent| <= taken + LINKED
    ensures taken % LINKED < LINKED < |slots|
    ensures taken < |sent| ==> slots[taken % LINKED] == Trb(sent[taken], Bit(taken / LINKED), false, false)
    ensures taken == |sent| ==> slots[taken % LINKED].cycle != Bit(taken / LINKED)
  {
    hide Holds, Bit;
    if taken < |sent| { HoldsPending(sent, LINKED, taken); } else { HoldsStale(sent, LINKED); }
  }

  /** The controller passes the link only after the driver has set it for the lap, that is,
      as soon as there is a TRB behind it. */
  lemma AtLink(slots: seq<Trb>, sent: seq<Content>, taken: nat)
    requires LinkedSlots(slots, sent) && taken <= |sent| <= taken + LINKED && taken > 0 && taken % LINKED == 0
    ensures |slots| > LINKED && slots[LINKED].toggle
    ensures taken < |sent| ==> slots[LINKED].cycle == Bit(taken / LINKED - 1)
    ensures slots[LINKED].cycle == Bit(taken / LINKED - 1) ==> taken < |sent| || taken == LINKED
  {
    hide Held;
  }

  lemma NextStand(taken: nat)
    ensures StandsAt(taken % LINKED + 1, Bit(taken / LINKED), taken + 1)
  {
  }

  /** The bound of 255 is exact: with 255 TRBs outstanding, one more takes the slot of the
      next one to be fetched, and the controller finds the bit of another lap there. */
  lemma OverrunHidesNext(slots: seq<Trb>, sent: seq<Content>, taken: nat, payload: Content)
    requires LinkedSlots(slots, sent + [payload]) && |sent| == taken + LINKED
    ensures slots[taken % LINKED].payload == payload && slots[taken % LINKED].cycle != Bit(taken / LINKED)
  {
    hide Holds, Bit, Lap;
    OneLapBack(|sent|, LINKED);
    HoldsNext(sent, LINKED, payload, taken % LINKED);
    BitFlips(taken / LINKED);
  }

  // ---------------------------------------------------------------- event rings

  const TYPE_TRANSFER_EVENT: nat := 32
  const TYPE_COMMAND_COMPLETION: nat := 33

  ghost predicate UnlinkedSlots(slots: seq<Trb>, posted: seq<Content>) {
    && |slots| == UNLINKED
    && forall s :: 0 <= s < UNLINKED ==> slots[s] == Held(posted, UNLINKED, s)
  }

  lemma PostSlots(slots: seq<Trb>, posted: seq<Content>, payload: Content)
    requires UnlinkedSlots(slots, posted)
    ensures |posted| % UNLINKED < |slots|
    ensures UnlinkedSlots(slots[|posted| % UNLINKED := Trb(payload, Bit(|posted| / UNLINKED), false, false)],
                          posted + [payload])
  {
    hide Holds, Bit;
    forall s | 0 <= s < UNLINKED
      ensures slots[|posted| % UNLINKED := Trb(payload, Bit(|posted| / UNLINKED), false, false)][s] ==
        Held(posted + [payload], UNLINKED, s)
    {
      HoldsNext(posted, UNLINKED, payload, s);
    }
  }

  lemma NextSlot(p: nat)
    ensures (p + 1) % UNLINKED == (if p % UNLINKED == 255 then 0 else p % UNLINKED + 1)
    ensures (p + 1) / UNLINKED == p / UNLINKED + if p % UNLINKED == 255 then 1 else 0
  {
  }

  /** An unlinked ring: the controller posts, the driver pops. */
  class EventRing {
    const ring: array<Trb>
    var indx: nat
    var cycl: nat
    /** The controller's enqueue pointer and producer cycle state. */
    var enq: nat
    var pcs: nat

    ghost var posted: seq<Content>
    ghost var popped: nat

    ghost predicate Valid()
      reads this, ring
    {
      && UnlinkedSlots(ring[..], posted) && popped <= |posted| <= popped + UNLINKED
      && indx == popped % UNLINKED && cycl == Bit(popped / UNLINKED)
      && enq == |posted| % UNLINKED && pcs == Bit(|posted| / UNLINKED)
    }

    /** xhc_transfer_ring_create without a link. */
    constructor ()
      ensures Valid() && fresh(ring) && posted == [] && popped == 0
    {
      ring := new Trb[UNLINKED](_ => ZERO_TRB);
      indx, cycl, enq, pcs := 0, 1, 0, 1;
      posted, popped := [], 0;
    }

    /** The controller posting an event; it never overruns the driver. */
    method Post(payload: Content)
      requires Valid() && |posted| < popped + UNLINKED
      modifies this`enq, this`pcs, this`posted, ring
      ensures Valid() && posted == old(posted) + [payload]
    {
      hide Holds, Bit;
      PostSlots(ring[..], posted, payload);
      NextSlot(|posted|);
      BitFlips(|posted| / UNLINKED);
      ring[enq] := Trb(payload, pcs, false, false);
      enq := enq + 1;
      if enq == UNLINKED {
        enq := 0;
        pcs := 1 - pcs;
      }
      posted := posted + [payload];
    }

    /** xhc_event_ring_pop. The index is a byte. */
    method Pop() returns (event: Option<Content>)
      requires Valid()
      modifies this`indx, this`cycl, this`popped
      ensures Valid() && event == if old(popped) < |posted| then Some(posted[old(popped)]) else None
      ensures popped == if old(popped) < |posted| then old(popped) + 1 else old(popped)
    {
      hide Held, Bit, UnlinkedSlots;
      AtEvent(ring[..], posted, popped);
      assert ring[..][indx] == ring[indx];
      if ring[indx].cycle != cycl {
        return None;
      }
      event := Some(ring[indx].payload);
      NextSlot(popped);
      BitFlips(popped / UNLINKED);
      indx := (indx + 1) % 0x100;
      if indx == 0 {
        cycl := 1 - cycl;
      }
      popped := popped + 1;
    }
  }

  lemma AtEvent(slots: seq<Trb>, posted: seq<Content>, popped: nat)
    requires UnlinkedSlots(slots, posted) && popped <= |posted| <= popped + UNLINKED
    ensures popped % UNLINKED < |slots|
    ensures popped < |posted| ==> slots[popped % UNLINKED] == Trb(posted[popped], Bit(popped / UNLINKED), false, false)
    ensures popped == |posted| ==> slots[popped % UNLINKED].cycle != Bit(popped / UNLINKED)
  {
    hide Holds, Bit;
    if popped < |posted| { HoldsPending(posted, UNLINKED, popped); } else { HoldsStale(posted, UNLINKED); }
  }

  // ---------------------------------------------------------------- commands, one at a time

  /** The last command completion among events, or what was there before. */
  function LastCompletion(events: seq<Content>, comp: Content): Content {
    if events == [] then comp
    else if events[|events| - 1].kind == TYPE_COMMAND_COMPLETION then events[|events| - 1]
    else LastCompletion(events[..|events| - 1], comp)
  }

  /** The last transfer event of the endpoint, or what was there before. */
  function LastTransfer(events: seq<Content>, e: Endpoint, comp: Option<Content>): Option<Content> {
    if events == [] then comp
    else
      var last := events[|events| - 1];
      if last.kind == TYPE_TRANSFER_EVENT && last.endpoint == e then Some(last)
      else LastTransfer(events[..|events| - 1], e, comp)
  }

  /** What a set of endpoint rings has as COMP of one of them. */
  function CompAt(transfers: map<Endpoint, Content>, e: Endpoint): Option<Content> {
    if e in transfers then Some(transfers[e]) else None
  }

  /** Every endpoint ring has the last transfer event for it in COMP. */
  ghost predicate Received(transfers: map<Endpoint, Content>, events: seq<Content>, before: map<Endpoint, Content>) {
    forall e :: CompAt(transfers, e) == LastTransfer(events, e, CompAt(before, e))
  }

  lemma LastNone(comp: Content, before: map<Endpoint, Content>)
    ensures LastCompletion([], comp) == comp && Received(before, [], before)
  {
  }

  lemma OneMoreTaken(posted: seq<Content>, first: nat, popped: nat, event: Content)
    requires first < popped <= |posted| && posted[popped - 1] == event
    ensures posted[first..popped] == posted[first..popped - 1] + [event]
  {
  }

  /** The effect of one more event. */
  lemma HandleIs(events: seq<Content>, event: Content, comp: Content, before: map<Endpoint, Content>)
    ensures LastCompletion(events + [event], comp) ==
      if event.kind == TYPE_COMMAND_COMPLETION then event else LastCompletion(events, comp)
    ensures forall transfers: map<Endpoint, Content> :: Received(transfers, events, before) ==>
      Received(if event.kind == TYPE_TRANSFER_EVENT then transfers[event.endpoint := event] else transfers,
               events + [event], before)
  {
    assert (events + [event])[..|events|] == events;
  }

  predicate NoCompletion(events: seq<Content>) {
    forall i :: 0 <= i < |events| ==> events[i].kind != TYPE_COMMAND_COMPLETION
  }

  lemma {:induction false} LastOfNone(events: seq<Content>, comp: Content)
    requires NoCompletion(events)
    ensures LastCompletion(events, comp) == comp
    decreases |events|
  {
    if events != [] { LastOfNone(events[..|events| - 1], comp); }
  }

  lemma LastNext(events: seq<Content>, event: Content, comp: Content)
    ensures LastCompletion(events + [event], comp) ==
      if event.kind == TYPE_COMMAND_COMPLETION then event else LastCompletion(events, comp)
  {
    assert (events + [event])[..|events|] == events;
  }

  /** What happens while a command is awaited: the controller fetches a command or posts an
      event, or the interrupt handles the pending events. */
  datatype Move = Take | Post(payload: Content) | Interrupt

  /** The schedule answers the command with `reply`: the controller posts no other completion,
      fetches the command before it posts this one, as move `at`, and the interrupt comes
      behind, as move `seen`. */
  ghost predicate Answers(moves: seq<Move>, reply: Content, taken: nat, at: nat, seen: nat) {
    && taken < at < seen < |moves|
    && moves[taken].Take? && moves[at] == Post(reply) && moves[seen].Interrupt?
    && reply.kind == TYPE_COMMAND_COMPLETION && reply.code != 0
    && (forall i :: 0 <= i < |moves| && moves[i].Post? && i != at ==>
        moves[i].payload.kind != TYPE_COMMAND_COMPLETION)
    && (forall i :: at < i < seen ==> !moves[i].Interrupt?)
  }

  class Controller {
    const command: LinkedRing
    const event: EventRing
    /** COMP of the command ring. */
    var comp: Content
    /** COMP of the transfer rings. */
    var transfers: map<Endpoint, Content>

    ghost predicate Valid()
      reads this, command, command.ring, event, event.ring
    {
      command.ring != event.ring && command.Valid() && event.Valid()
    }

    constructor ()
      ensures Valid() && fresh(command) && fresh(command.ring) && fresh(event) && fresh(event.ring)
      ensures command.sent == [] && command.taken == 0 && event.posted == [] && event.popped == 0 && transfers == map[]
    {
      command := new LinkedRing();
      event := new EventRing();
      comp, transfers := ZERO, map[];
    }

    /** The events the driver has not handled yet. */
    ghost function Pending(): seq<Content>
      requires event.popped <= |event.posted|
      reads this, event
    {
      event.posted[event.popped..]
    }

    /** xhc_event_ring_process: every pending event is handled in order; a command completion
        lands in COMP of the command ring, a transfer event in COMP of its endpoint's. */
    method ProcessEvents()
      requires Valid()
      modifies this`comp, this`transfers, event
      ensures Valid() && event.popped == |event.posted| && event.posted == old(event.posted)
      ensures comp == LastCompletion(old(Pending()), old(comp))
      ensures Received(transfers, old(Pending()), old(transfers))
      ensures event.ring[..] == old(event.ring[..])
    {
      hide Bit, Holds, UnlinkedSlots, LinkedSlots, StandsAt, LastCompletion, Received;
      ghost var first := event.popped;
      LastNone(old(comp), old(transfers));
      assert event.posted[first..first] == [];
      while true
        invariant Valid() && first <= event.popped && event.posted == old(event.posted)
        invariant comp == LastCompletion(event.posted[first..event.popped], old(comp))
        invariant Received(transfers, event.posted[first..event.popped], old(transfers))
        decreases |event.posted| - event.popped
      {
        var blk := event.Pop();
        if blk.None? {
          break;
        }
        OneMoreTaken(event.posted, first, event.popped, blk.value);
        HandleIs(event.posted[first..event.popped - 1], blk.value, old(comp), old(transfers));
        Handle(blk.value);
      }
      assert event.posted[first..event.popped] == event.posted[first..];
    }

    /** One event (xhci.c:271-297). */
    method Handle(event: Content)
      modifies this`comp, this`transfers
      ensures comp == if event.kind == TYPE_COMMAND_COMPLETION then event else old(comp)
      ensures transfers ==
        if event.kind == TYPE_TRANSFER_EVENT then old(transfers)[event.endpoint := event] else old(transfers)
    {
      if event.kind == TYPE_TRANSFER_EVENT {
        transfers := transfers[event.endpoint := event];
      } else if event.kind == TYPE_COMMAND_COMPLETION {
        comp := event;
      }
    }

    /** xhci_send_command against every schedule of the controller and the interrupt that
        answers the command: the wait ends at the interrupt behind the completion, with its
        code. With no command outstanding before, there is none after, so every command meets
        the bound of the ring. */
    method SendCommand(trb: Content, moves: seq<Move>, reply: Content, ghost taken: nat, ghost at: nat, ghost seen: nat)
      returns (code: nat)
      requires Valid() && command.taken == |command.sent| && NoCompletion(Pending())
      requires Answers(moves, reply, taken, at, seen) && |Pending()| + |moves| <= UNLINKED
      modifies this, command, command.ring, event, event.ring
      ensures Valid() && command.taken == |command.sent| && NoCompletion(Pending())
      ensures command.sent == old(command.sent) + [trb] && comp == reply && code == reply.code
    {
      hide UnlinkedSlots, LinkedSlots, StandsAt, Bit, Holds, LastCompletion;
      LastOfNone(Pending(), comp.(code := 0));
      var slot := command.QueueTransfer(trb);
      comp := comp.(code := 0);
      ghost var cleared := comp;
      var i := 0;
      while comp.code == 0
        invariant Valid() && i <= seen + 1 && |Pending()| + (|moves| - i) <= UNLINKED
        invariant command.sent == old(command.sent) + [trb]
        invariant command.taken == |command.sent| || (command.taken == |command.sent| - 1 && i <= taken)
        invariant comp == if i <= seen then cleared else reply
        invariant i <= seen ==> LastCompletion(Pending(), comp) == if i <= at then comp else reply
        invariant i > seen ==> Pending() == []
        decreases |moves| - i
      {
        match moves[i] {
          case Take =>
            var fetched := command.Fetch();
          case Post(payload) =>
            ghost var before := Pending();
            LastNext(before, payload, comp);
            event.Post(payload);
            assert Pending() == before + [payload];
          case Interrupt =>
            ProcessEvents();
            LastOfNone([], comp);
        }
        i := i + 1;
      }
      code := comp.code;
    }
  }
}
