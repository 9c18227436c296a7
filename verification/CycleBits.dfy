/** Rings whose entries carry the bit of the lap they were written in, so that a reader can
    tell a new entry from one of the lap before: the cycle bit of xHCI rings (section 4.9.2 of
    the xHCI specification) and the phase tag of NVMe completion queues (section 4.2.4 of the
    NVM Express Base Specification). */
module CycleBits {
  import opened Layouts

  /** The cycle bit of a lap. */
  function Bit(lap: nat): nat { (lap + 1) % 2 }

  /** An item and the bit written with it. */
  datatype Lapped<+T> = Lapped(item: T, bit: nat)

  /** What slot `s` of a ring of `n` slots holds after the items `sent`: the last one written
      to it, with the bit of its lap, if there is one. */
  function Holds<T>(sent: seq<T>, n: nat, s: nat): Option<Lapped<T>>
    requires s < n
  {
    if |sent| <= s then None
    else
      var p := LastWriter(|sent|, n, s);
      Some(Lapped(sent[p], Bit(p / n)))
  }

  /** The last position below `count` that falls on slot `s`. */
  function LastWriter(count: nat, n: nat, s: nat): (p: nat)
    requires s < n && s < count
    ensures p < count && p % n == s && p + n >= count
  {
    var q := (count - 1 - s) / n;
    SlotOf(q, n, s);
    q * n + s
  }

  lemma SlotOf(q: nat, n: nat, s: nat)
    requires s < n
    ensures (q * n + s) % n == s && (q * n + s) / n == q
  {
    DivModUnique(q * n + s, q, s, n);
  }

  /** Positions on the same slot less than a lap apart are the same. */
  lemma SameSlot(p: nat, q: nat, n: nat)
    requires n > 0 && p % n == q % n && p <= q < p + n
    ensures p == q
  {
    SameLap(p / n, q / n, p % n, n);
  }

  lemma SameLap(a: nat, b: nat, r: nat, n: nat)
    requires n > 0 && a * n + r <= b * n + r < a * n + r + n
    ensures a == b
  {
    MulGap(a, b, n);
    MulGap(b, a, n);
  }

  lemma LastWriterIs(count: nat, n: nat, p: nat)
    requires n > 0 && p < count <= p + n
    ensures p % n < n && p % n < count && LastWriter(count, n, p % n) == p
  {
    var l := LastWriter(count, n, p % n);
    if p <= l { SameSlot(p, l, n); } else { SameSlot(l, p, n); }
  }

  /** A reader less than a lap behind finds the entry it waits for, with the bit of its lap. */
  lemma HoldsPending<T>(sent: seq<T>, n: nat, c: nat)
    requires n > 0 && c < |sent| <= c + n
    ensures c % n < n && Holds(sent, n, c % n) == Some(Lapped(sent[c], Bit(c / n)))
  {
    LastWriterIs(|sent|, n, c);
  }

  /** The slot that the next item will take carries the bit of another lap, or nothing. */
  lemma HoldsStale<T>(sent: seq<T>, n: nat)
    requires n > 0
    ensures |sent| % n < n
    ensures var h := Holds(sent, n, |sent| % n);
      if h.None? then Bit(|sent| / n) == 1 else h.value.bit != Bit(|sent| / n)
  {
    var count := |sent|;
    if count >= n {
      OneLapBack(count, n);
      hide Bit;
      LastWriterIs(count, n, count - n);
      BitFlips(count / n - 1);
    } else {
      SlotOf(0, n, count);
    }
  }

  lemma OneLapBack(count: nat, n: nat)
    requires 0 < n <= count
    ensures count / n >= 1 && (count - n) % n == count % n && (count - n) / n == count / n - 1
  {
    var q, r := count / n, count % n;
    assert count == q * n + r;
    MulGap(q, 0, n);
    assert q >= 1;
    assert (q - 1) * n + r == count - n;
    DivModUnique(count - n, q - 1, r, n);
  }

  /** One more item changes the slot it falls on and no other. */
  lemma HoldsNext<T>(sent: seq<T>, n: nat, item: T, s: nat)
    requires n > 0 && s < n
    ensures |sent| % n < n
    ensures Holds(sent + [item], n, s) ==
      if s == |sent| % n then Some(Lapped(item, Bit(|sent| / n))) else Holds(sent, n, s)
  {
    var count := |sent|;
    assert count == count / n * n + count % n;
    if s == count % n {
      LastWriterIs(count + 1, n, count);
    } else if s < count {
      var p := LastWriter(count, n, s);
      var q := LastWriter(count + 1, n, s);
      if p <= q { SameSlot(p, q, n); } else { SameSlot(q, p, n); }
    } else if s == count {
      SlotOf(0, n, s);
    }
  }

  lemma BitFlips(lap: nat)
    ensures Bit(lap) <= 1 && Bit(lap + 1) == 1 - Bit(lap)
  {
  }
}
