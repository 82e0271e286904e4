/** Callers of `MpscConcurrentQueue` that use nothing but its contracts. */
module MpscClient {
  import opened Nullable
  import opened MpscQueue
  import M = MpscModel

  /** Capacity two: `a` and `b` are accepted, `c` is refused while the queue
      is full, accepted once `a` has been polled, and the polls then hand
      out `a`, `b`, `c` and finally `null`. */
  method CapacityTwoScenario<E>(a: E, b: E, c: E)
    returns (offered: seq<Outcome<bool>>, polled: seq<Option<E>>)
    ensures offered == [Returned(true), Returned(true), Returned(false), Returned(true)]
    ensures polled == [Some(a), Some(b), Some(c), None]
  {
    var q := new MpscConcurrentQueue<E>(2);
    var o1 := q.Offer(Some(a));
    var o2 := q.Offer(Some(b));
    var o3 := q.Offer(Some(c));
    var p1 := q.Poll();
    var o4 := q.Offer(Some(c));
    var p2 := q.Poll();
    var p3 := q.Poll();
    var p4 := q.Poll();
    offered, polled := [o1, o2, o3, o4], [p1, p2, p3, p4];
  }

  /** Two producers load `tail` while it is 0. The first reserves ticket 0;
      the second's compare-and-set then fails and leaves the queue as it
      was, and its retry on the tail it loads afresh succeeds. The consumer
      receives the elements in ticket order. */
  method TicketRaceScenario<E>(a: E, b: E)
    returns (first: Outcome<int>, second: Outcome<int>, retry: Outcome<int>, polled: seq<Option<E>>)
    ensures first == Returned(M.SUCCESS) && second == Returned(M.CAS_FAILED)
    ensures retry == Returned(M.SUCCESS)
    ensures polled == [Some(a), Some(b), None]
  {
    var q := new MpscConcurrentQueue<E>(4);
    first := q.TryOffer(Some(a), 0);
    second := q.TryOffer(Some(b), 0);
    retry := q.TryOffer(Some(b), q.tail);
    var p1 := q.Poll();
    var p2 := q.Poll();
    var p3 := q.Poll();
    polled := [p1, p2, p3];
  }

  /** Offering `null` throws and leaves the queue untouched. */
  method NullOfferScenario<E>(a: E) returns (offered: Outcome<bool>, tried: Outcome<int>, size: int)
    ensures offered == NullPointerException && tried == NullPointerException
    ensures size == 1
  {
    var q := new MpscConcurrentQueue<E>(2);
    var _ := q.Offer(Some(a));
    offered := q.Offer(None);
    tried := q.TryOffer(None, q.tail);
    size := q.Size();
  }
}
