/** Mapping tickets to slots of the circular slot store.

    `ConcurrentCircularArray.calcOffset` is not part of this model; for a
    power-of-two capacity its mask `ticket & (capacity - 1)` equals
    `ticket % capacity` on the non-negative tickets the queue uses, and
    that is how it is defined here. */
module Offsets {

  /** The slot that holds ticket `ticket`. */
  function CalcOffset(ticket: int, capacity: int): (offset: int)
    requires capacity > 0
    ensures 0 <= offset < capacity
  {
    ticket % capacity
  }

  /** Euclidean division has one quotient and one remainder. */
  lemma DivModUnique(x: int, c: int, q: int, r: int)
    requires c > 0 && 0 <= r < c && x == q * c + r
    ensures x / c == q && x % c == r
  {
    var q', r' := x / c, x % c;
    assert x == q' * c + r';
    if q' < q {
      assert (q - q') * c >= c by { MulAtLeast(q - q', c); }
      assert false;
    } else if q < q' {
      assert (q' - q) * c >= c by { MulAtLeast(q' - q, c); }
      assert false;
    }
  }

  /** A positive multiple of `c` is at least `c`. */
  lemma MulAtLeast(k: int, c: int)
    requires k >= 1 && c > 0
    ensures k * c >= c
  {
  }

  /** Tickets `capacity` apart share a slot: after `capacity` further
      reservations a producer reuses the slot of the oldest ticket. */
  lemma OffsetPeriodic(ticket: int, capacity: int)
    requires capacity > 0
    ensures CalcOffset(ticket + capacity, capacity) == CalcOffset(ticket, capacity)
  {
    DivModUnique(ticket + capacity, capacity, ticket / capacity + 1, ticket % capacity);
  }

  /** Fewer than `capacity` tickets apart, two tickets never share a slot:
      every ticket in flight has a slot of its own. */
  lemma OffsetsDistinct(t1: int, t2: int, capacity: int)
    requires capacity > 0 && t1 < t2 < t1 + capacity
    ensures CalcOffset(t1, capacity) != CalcOffset(t2, capacity)
  {
    if CalcOffset(t1, capacity) == CalcOffset(t2, capacity) {
      var d := t2 / capacity - t1 / capacity;
      assert t2 - t1 == d * capacity;
      if d >= 1 {
        MulAtLeast(d, capacity);
      }
      assert false;
    }
  }
}
