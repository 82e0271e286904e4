/** The reference behaviour the queue is meant to have, written without
    tickets, slots or caches: a bounded first-in-first-out sequence of
    elements that refuses `null`. The lock-free queue is proved to behave
    like this one, call for call. */
module BoundedFifo {
  import opened Nullable

  /** Offering to a queue holding `q`: `null` is refused with an exception,
      a full queue answers `false`, otherwise the element joins the back. */
  function Offer<E>(q: seq<E>, capacity: int, e: Option<E>): (Outcome<bool>, seq<E>)
  {
    if e.None? then (NullPointerException, q)
    else if |q| >= capacity then (Returned(false), q)
    else (Returned(true), q + [e.value])
  }

  /** Polling: an empty queue answers `null`, otherwise the front element
      leaves the queue and is returned. */
  function Poll<E>(q: seq<E>): (Option<E>, seq<E>)
  {
    if q == [] then (None, q) else (Some(q[0]), q[1..])
  }

  /** Peeking: the front element, or `null` when the queue is empty. */
  function Peek<E>(q: seq<E>): Option<E>
  {
    if q == [] then None else Some(q[0])
  }

  /** A single-threaded call on the queue, and what it answers. */
  datatype Call<E> = OfferCall(e: Option<E>) | PollCall
  datatype Reply<E> = Offered(outcome: Outcome<bool>) | Polled(element: Option<E>)

  function Step<E>(q: seq<E>, capacity: int, call: Call<E>): (Reply<E>, seq<E>)
  {
    match call
    case OfferCall(e) => var (r, q') := Offer(q, capacity, e); (Offered(r), q')
    case PollCall => var (r, q') := Poll(q); (Polled(r), q')
  }

  /** The replies to a sequence of calls, in order, and the final contents. */
  function Apply<E>(q: seq<E>, capacity: int, calls: seq<Call<E>>): (seq<Reply<E>>, seq<E>)
    decreases |calls|
  {
    if calls == [] then ([], q)
    else
      var (reply, q') := Step(q, capacity, calls[0]);
      var (replies, q'') := Apply(q', capacity, calls[1..]);
      ([reply] + replies, q'')
  }

  /** One offer per element of `xs`, in order. */
  function Offers<E>(xs: seq<E>): (calls: seq<Call<E>>)
    ensures |calls| == |xs|
  {
    if xs == [] then [] else [OfferCall(Some(xs[0]))] + Offers(xs[1..])
  }

  /** `n` polls. */
  function Polls<E>(n: nat): (calls: seq<Call<E>>)
    ensures |calls| == n
  {
    if n == 0 then [] else [PollCall] + Polls(n - 1)
  }

  /** `n` offers answered `true`. */
  function Accepted<E>(n: nat): (replies: seq<Reply<E>>)
    ensures |replies| == n
  {
    if n == 0 then [] else [Offered(Returned(true))] + Accepted(n - 1)
  }

  /** The polls that hand out the elements of `xs`, in order. */
  function Delivered<E>(xs: seq<E>): (replies: seq<Reply<E>>)
    ensures |replies| == |xs|
  {
    if xs == [] then [] else [Polled(Some(xs[0]))] + Delivered(xs[1..])
  }

  /** Running two batches of calls is running the second from where the
      first left the queue. */
  lemma {:induction false} ApplyAppend<E>(q: seq<E>, capacity: int, c1: seq<Call<E>>, c2: seq<Call<E>>)
    ensures Apply(q, capacity, c1 + c2).0
            == Apply(q, capacity, c1).0 + Apply(Apply(q, capacity, c1).1, capacity, c2).0
    ensures Apply(q, capacity, c1 + c2).1 == Apply(Apply(q, capacity, c1).1, capacity, c2).1
    decreases |c1|
  {
    if c1 == [] {
      assert c1 + c2 == c2;
    } else {
      assert (c1 + c2)[0] == c1[0];
      assert (c1 + c2)[1..] == c1[1..] + c2;
      var q' := Step(q, capacity, c1[0]).1;
      ApplyAppend(q', capacity, c1[1..], c2);
    }
  }

  /** While there is room, every offer is accepted and its element joins
      the back in order. */
  lemma {:induction false} OffersFill<E>(q: seq<E>, capacity: int, xs: seq<E>)
    requires |q| + |xs| <= capacity
    ensures Apply(q, capacity, Offers(xs)) == (Accepted(|xs|), q + xs)
    decreases |xs|
  {
    if xs == [] {
      assert q + xs == q;
    } else {
      var q' := q + [xs[0]];
      ApplyCons(q, capacity, OfferCall(Some(xs[0])), Offers(xs[1..]));
      OffersFill(q', capacity, xs[1..]);
      assert q' + xs[1..] == q + xs;
    }
  }

  /** Running a call followed by more calls. */
  lemma ApplyCons<E>(q: seq<E>, capacity: int, call: Call<E>, rest: seq<Call<E>>)
    ensures Apply(q, capacity, [call] + rest)
            == ([Step(q, capacity, call).0] + Apply(Step(q, capacity, call).1, capacity, rest).0,
                Apply(Step(q, capacity, call).1, capacity, rest).1)
  {
  }

  /** `n` polls on a queue holding at least `n` elements hand out its first
      `n` elements, oldest first. */
  lemma {:induction false} PollsDrain<E>(q: seq<E>, capacity: int, n: nat)
    requires n <= |q|
    ensures Apply(q, capacity, Polls(n)) == (Delivered(q[..n]), q[n..])
    decreases n
  {
    if n > 0 {
      assert Polls<E>(n)[1..] == Polls(n - 1);
      PollsDrain(q[1..], capacity, n - 1);
      assert q[1..][..n - 1] == q[..n][1..];
      assert q[1..][n - 1..] == q[n..];
    }
  }

  /** First in, first out: offering `xs` to a queue with room for them and
      then polling it empty hands out what it held, then `xs`, in order. */
  lemma OffersThenPolls<E>(q: seq<E>, capacity: int, xs: seq<E>)
    requires |q| + |xs| <= capacity
    ensures Apply(q, capacity, Offers(xs) + Polls(|q| + |xs|))
            == (Accepted(|xs|) + Delivered(q + xs), [])
  {
    ApplyAppend(q, capacity, Offers(xs), Polls(|q| + |xs|));
    OffersFill(q, capacity, xs);
    PollsDrain(q + xs, capacity, |q| + |xs|);
    assert (q + xs)[..|q| + |xs|] == q + xs;
  }
}
