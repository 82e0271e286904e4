/** The queue's state and operations as values: one `State` holds the three
    counters and the slot store, and each operation of `MpscConcurrentQueue`
    is a function from the state before the call to its answer and the state
    after it. Memory ordering is gone: every load and store is a plain read
    or write, and the compare-and-set on `tail` is a sequential one. */
module MpscModel {
  import opened Nullable
  import opened Offsets
  import F = BoundedFifo

  /** The answers of `tryOffer`. */
  const FULL := 1
  const CAS_FAILED := -1
  const SUCCESS := 0

  /** `tail`: tickets reserved by producers; `head`: tickets consumed;
      `headCache`: the producers' possibly stale copy of `head`;
      `buffer`: the slot store, `None` marking an empty slot. */
  datatype State<E> = State(capacity: int, tail: int, head: int, headCache: int,
                            buffer: seq<Option<E>>)

  ghost predicate Shaped<E>(s: State<E>)
  {
    s.capacity > 0 && |s.buffer| == s.capacity
  }

  /** The slot that ticket `ticket` uses. */
  function SlotOf<E>(s: State<E>, ticket: int): Option<E>
    requires Shaped(s)
  {
    s.buffer[CalcOffset(ticket, s.capacity)]
  }

  /** The class invariant: the cache never runs ahead of `head`, at most
      `capacity` tickets are outstanding, the slots of the outstanding
      tickets `[head, tail)` are occupied and the slots of the tickets
      `[tail, head + capacity)`, which are all the other slots, are empty. */
  ghost predicate Inv<E>(s: State<E>)
  {
    && Shaped(s)
    && 0 <= s.headCache <= s.head <= s.tail <= s.head + s.capacity
    && (forall t :: s.head <= t < s.tail ==> SlotOf(s, t).Some?)
    && (forall t :: s.tail <= t < s.head + s.capacity ==> SlotOf(s, t).None?)
  }

  /** The elements in the queue, oldest first: those of tickets `[head, tail)`. */
  ghost function Elements<E>(s: State<E>): (xs: seq<E>)
    requires Inv(s)
    ensures |xs| == s.tail - s.head
    ensures forall k :: 0 <= k < |xs| ==> SlotOf(s, s.head + k) == Some(xs[k])
  {
    seq(s.tail - s.head, k requires 0 <= k < s.tail - s.head => SlotOf(s, s.head + k).value)
  }

  /** A freshly constructed queue: all counters zero, all slots empty. */
  function Init<E>(capacity: int): (s: State<E>)
    requires capacity > 0
    ensures Inv(s) && Elements(s) == [] && s.capacity == capacity
  {
    State(capacity, 0, 0, 0, seq(capacity, _ => None))
  }

  /** The fullness test shared by `offer` and `tryOffer`: against the cached
      head first, and, only when the cache says "might be full", against
      the real head. */
  predicate SeenFull<E>(s: State<E>, wrapPoint: int)
  {
    s.headCache <= wrapPoint && s.head <= wrapPoint
  }

  /** The cache refresh: when the cache says "might be full" but the real
      head says otherwise, the cache takes the value of the real head. */
  function Refresh<E>(s: State<E>, wrapPoint: int): State<E>
  {
    if s.headCache <= wrapPoint then s.(headCache := s.head) else s
  }

  /** A won reservation of ticket `ticket` (`tail` moves to `ticket + 1`),
      then the store of `e` into that ticket's slot. */
  function Publish<E>(s: State<E>, ticket: int, e: Option<E>): (s': State<E>)
    requires Shaped(s)
    ensures Shaped(s')
  {
    s.(tail := ticket + 1, buffer := s.buffer[CalcOffset(ticket, s.capacity) := e])
  }

  /** `offer(e)`, run by a single thread, whose compare-and-set on `tail`
      therefore succeeds on its first attempt. */
  function Offer<E>(s: State<E>, e: Option<E>): (r: (Outcome<bool>, State<E>))
    requires Shaped(s)
    ensures Shaped(r.1)
  {
    if e.None? then (NullPointerException, s)
    else
      var wrapPoint := s.tail - s.capacity;
      if SeenFull(s, wrapPoint) then (Returned(false), s)
      else (Returned(true), Publish(Refresh(s, wrapPoint), s.tail, e))
  }

  /** `tryOffer(e)`, where `observedTail` is the value the producer loaded
      from `tail`. `tail` starts at 0 and only grows, so that load returned a
      value in `[0, tail]`; another producer may have moved `tail` on since,
      in which case the one compare-and-set fails. */
  function TryOffer<E>(s: State<E>, e: Option<E>, observedTail: int): (r: (Outcome<int>, State<E>))
    requires Shaped(s) && 0 <= observedTail <= s.tail
    ensures Shaped(r.1)
  {
    if e.None? then (NullPointerException, s)
    else
      var wrapPoint := observedTail - s.capacity;
      if SeenFull(s, wrapPoint) then (Returned(FULL), s)
      else
        var refreshed := Refresh(s, wrapPoint);
        if refreshed.tail != observedTail then (Returned(CAS_FAILED), refreshed)
        else (Returned(SUCCESS), Publish(refreshed, observedTail, e))
  }

  /** `poll()`: an empty head slot means nothing to take; otherwise the slot
      is cleared and `head` advances. */
  function Poll<E>(s: State<E>): (r: (Option<E>, State<E>))
    requires Shaped(s)
    ensures Shaped(r.1)
  {
    var offset := CalcOffset(s.head, s.capacity);
    var e := s.buffer[offset];
    if e.None? then (None, s)
    else (e, s.(buffer := s.buffer[offset := None], head := s.head + 1))
  }

  /** `peek()`: the contents of the head slot. */
  function Peek<E>(s: State<E>): Option<E>
    requires Shaped(s)
  {
    SlotOf(s, s.head)
  }

  /** `size()`. */
  function Size<E>(s: State<E>): int
  {
    s.tail - s.head
  }

  /** Storing an element under the next ticket of a queue that has room
      keeps the invariant and adds the element at the back. */
  lemma PublishNext<E>(s: State<E>, x: E)
    requires Inv(s) && s.tail - s.head < s.capacity
    ensures Inv(Publish(s, s.tail, Some(x)))
    ensures Elements(Publish(s, s.tail, Some(x))) == Elements(s) + [x]
  {
    var s' := Publish(s, s.tail, Some(x));
    forall t | s.head <= t < s'.tail
      ensures SlotOf(s', t).Some?
    {
      if t < s.tail {
        OffsetsDistinct(t, s.tail, s.capacity);
        assert SlotOf(s', t) == SlotOf(s, t);
      }
    }
    forall t | s'.tail <= t < s.head + s.capacity
      ensures SlotOf(s', t).None?
    {
      OffsetsDistinct(s.tail, t, s.capacity);
      assert SlotOf(s', t) == SlotOf(s, t);
    }
    assert Inv(s');
    var xs, xs' := Elements(s), Elements(s');
    forall k | 0 <= k < |xs'|
      ensures xs'[k] == (xs + [x])[k]
    {
      if k < |xs| {
        OffsetsDistinct(s.head + k, s.tail, s.capacity);
        assert SlotOf(s', s.head + k) == SlotOf(s, s.head + k);
      }
    }
  }

  /** Refreshing the cache from the real head keeps the invariant and the
      contents. */
  lemma RefreshKeeps<E>(s: State<E>, wrapPoint: int)
    requires Inv(s)
    ensures Inv(Refresh(s, wrapPoint))
    ensures Elements(Refresh(s, wrapPoint)) == Elements(s)
  {
    var s' := Refresh(s, wrapPoint);
    assert forall t :: SlotOf(s', t) == SlotOf(s, t);
    assert Inv(s');
  }

  /** A single-threaded `offer` is a bounded FIFO offer: it refuses `null`
      with an exception and changes nothing, answers `false` and changes
      nothing exactly when the queue holds `capacity` elements, and
      otherwise stores `e` in the slot of the old `tail`, advances `tail`
      by one and adds `e` at the back. `head` never moves, and the cache is
      only ever set to the real head, only when it said "might be full". */
  lemma OfferRefines<E>(s: State<E>, e: Option<E>)
    requires Inv(s)
    ensures var (r, s') := Offer(s, e);
      && Inv(s')
      && (r, Elements(s')) == F.Offer(Elements(s), s.capacity, e)
      && s'.capacity == s.capacity && s'.head == s.head
      && (r == Returned(true) ==>
            s'.tail == s.tail + 1 && s'.buffer == s.buffer[CalcOffset(s.tail, s.capacity) := e])
      && (r != Returned(true) ==> s' == s)
      && (s'.headCache == s.headCache
          || (s'.headCache == s.head && s.headCache <= s.tail - s.capacity < s.head))
  {
    if e.Some? {
      var wrapPoint := s.tail - s.capacity;
      if !SeenFull(s, wrapPoint) {
        RefreshKeeps(s, wrapPoint);
        PublishNext(Refresh(s, wrapPoint), e.value);
      }
    }
  }

  /** `tryOffer` answers exactly one of FULL, CAS_FAILED and SUCCESS for a
      non-null element. FULL exactly when the real head is at or below
      the wrap point of the observed tail, which happens only when the
      observed tail is current and the queue holds `capacity` elements, and
      then nothing changes;
      SUCCESS exactly when the observed tail is the current one and the
      queue has room, and then `e` joins the back; otherwise CAS_FAILED,
      when at most the cache has been refreshed. */
  lemma TryOfferRefines<E>(s: State<E>, e: Option<E>, observedTail: int)
    requires Inv(s) && 0 <= observedTail <= s.tail
    ensures var (r, s') := TryOffer(s, e, observedTail);
      && Inv(s')
      && s'.capacity == s.capacity && s'.head == s.head
      && (e.None? ==> r == NullPointerException && s' == s)
      && (e.Some? ==> r.Returned? && r.value in {FULL, CAS_FAILED, SUCCESS})
      && (r == Returned(FULL) <==> e.Some? && s.head <= observedTail - s.capacity)
      && (r == Returned(SUCCESS) <==>
            e.Some? && observedTail == s.tail && s.tail - s.head < s.capacity)
      && (r == Returned(FULL) ==> s' == s)
      && (r == Returned(FULL) ==> observedTail == s.tail && s.tail - s.head == s.capacity)
      && (r == Returned(CAS_FAILED) ==> s' == s.(headCache := s'.headCache))
      && (r == Returned(SUCCESS) ==>
            s'.tail == s.tail + 1 && s'.buffer == s.buffer[CalcOffset(s.tail, s.capacity) := e])
      && Elements(s') == (if r == Returned(SUCCESS) then Elements(s) + [e.value] else Elements(s))
      && (s'.headCache == s.headCache
          || (s'.headCache == s.head && s.headCache <= observedTail - s.capacity < s.head))
  {
    if e.Some? {
      var wrapPoint := observedTail - s.capacity;
      if !SeenFull(s, wrapPoint) {
        RefreshKeeps(s, wrapPoint);
        if observedTail == s.tail {
          PublishNext(Refresh(s, wrapPoint), e.value);
        }
      }
    }
  }

  /** With no other producer about, `tryOffer` on the tail it just read
      behaves as `offer`: the compare-and-set cannot fail, FULL stands for
      `false` and SUCCESS for `true`. */
  lemma TryOfferAloneIsOffer<E>(s: State<E>, e: Option<E>)
    requires Inv(s)
    ensures TryOffer(s, e, s.tail).1 == Offer(s, e).1
    ensures TryOffer(s, e, s.tail).0 != Returned(CAS_FAILED)
    ensures Offer(s, e).0 == Returned(true) <==> TryOffer(s, e, s.tail).0 == Returned(SUCCESS)
    ensures Offer(s, e).0 == Returned(false) <==> TryOffer(s, e, s.tail).0 == Returned(FULL)
  {
  }

  /** Taking the oldest element out of a non-empty queue (clearing its slot
      and advancing `head`) keeps the invariant and drops that element from
      the front. */
  lemma TakeOldest<E>(s: State<E>)
    requires Inv(s) && s.head < s.tail
    ensures var s' := s.(buffer := s.buffer[CalcOffset(s.head, s.capacity) := None], head := s.head + 1);
      Inv(s') && Elements(s') == Elements(s)[1..]
  {
    var s' := s.(buffer := s.buffer[CalcOffset(s.head, s.capacity) := None], head := s.head + 1);
    forall t | s'.head <= t < s.tail
      ensures SlotOf(s', t).Some?
    {
      OffsetsDistinct(s.head, t, s.capacity);
      assert SlotOf(s', t) == SlotOf(s, t);
    }
    forall t | s.tail <= t < s'.head + s.capacity
      ensures SlotOf(s', t).None?
    {
      if t == s.head + s.capacity {
        OffsetPeriodic(s.head, s.capacity);
      } else {
        OffsetsDistinct(s.head, t, s.capacity);
        assert SlotOf(s', t) == SlotOf(s, t);
      }
    }
    assert Inv(s');
    var xs, xs' := Elements(s), Elements(s');
    forall k | 0 <= k < |xs'|
      ensures xs'[k] == xs[1..][k]
    {
      OffsetsDistinct(s.head, s.head + 1 + k, s.capacity);
      assert SlotOf(s', s'.head + k) == SlotOf(s, s.head + (k + 1));
    }
  }

  /** `poll` is a FIFO poll: on an empty queue it answers `null` and changes
      nothing; otherwise it answers the oldest element, clears that
      element's slot and advances `head` by one, leaving `tail` and the
      cache alone. */
  lemma PollRefines<E>(s: State<E>)
    requires Inv(s)
    ensures var (r, s') := Poll(s);
      && Inv(s')
      && (r, Elements(s')) == F.Poll(Elements(s))
      && s'.capacity == s.capacity && s'.tail == s.tail && s'.headCache == s.headCache
      && (r.None? ==> s' == s)
      && (r.Some? ==>
            s'.head == s.head + 1
            && s'.buffer == s.buffer[CalcOffset(s.head, s.capacity) := None])
  {
    if s.head == s.tail {
      assert SlotOf(s, s.head).None?;
    } else {
      assert SlotOf(s, s.head) == Some(Elements(s)[0]);
      TakeOldest(s);
    }
  }

  /** `peek` answers the oldest element, or `null` on an empty queue. */
  lemma PeekRefines<E>(s: State<E>)
    requires Inv(s)
    ensures Peek(s) == F.Peek(Elements(s))
  {
  }

  /** `size` is the number of elements, between zero and the capacity. */
  lemma SizeBounds<E>(s: State<E>)
    requires Inv(s)
    ensures Size(s) == |Elements(s)| && 0 <= Size(s) <= s.capacity
  {
  }

  /** One single-threaded call. */
  function Step<E>(s: State<E>, call: F.Call<E>): (r: (F.Reply<E>, State<E>))
    requires Shaped(s)
    ensures Shaped(r.1)
  {
    match call
    case OfferCall(e) => var (r, s') := Offer(s, e); (F.Offered(r), s')
    case PollCall => var (r, s') := Poll(s); (F.Polled(r), s')
  }

  /** A sequence of single-threaded calls: their replies and the final state. */
  function Run<E>(s: State<E>, calls: seq<F.Call<E>>): (r: (seq<F.Reply<E>>, State<E>))
    requires Shaped(s)
    ensures Shaped(r.1) && |r.0| == |calls|
    decreases |calls|
  {
    if calls == [] then ([], s)
    else
      var (reply, s') := Step(s, calls[0]);
      var (replies, s'') := Run(s', calls[1..]);
      ([reply] + replies, s'')
  }

  /** Any sequence of offers and polls on the queue answers exactly as the
      bounded FIFO queue holding the same elements, and leaves the same
      elements behind. */
  lemma {:induction false} RunRefines<E>(s: State<E>, calls: seq<F.Call<E>>)
    requires Inv(s)
    ensures Inv(Run(s, calls).1) && Run(s, calls).1.capacity == s.capacity
    ensures Run(s, calls).0 == F.Apply(Elements(s), s.capacity, calls).0
    ensures Elements(Run(s, calls).1) == F.Apply(Elements(s), s.capacity, calls).1
    decreases |calls|
  {
    if calls != [] {
      match calls[0] {
        case OfferCall(e) => OfferRefines(s, e);
        case PollCall => PollRefines(s);
      }
      var s' := Step(s, calls[0]).1;
      RunRefines(s', calls[1..]);
    }
  }

  /** First in, first out: `n` offers followed by polls until the queue is
      empty hand out the elements already queued, then the offered ones, in
      the order they were offered, provided they all fit. */
  lemma FifoDelivery<E>(s: State<E>, xs: seq<E>)
    requires Inv(s) && |Elements(s)| + |xs| <= s.capacity
    ensures Run(s, F.Offers(xs) + F.Polls(|Elements(s)| + |xs|)).0
            == F.Accepted(|xs|) + F.Delivered(Elements(s) + xs)
    ensures Inv(Run(s, F.Offers(xs) + F.Polls(|Elements(s)| + |xs|)).1)
    ensures Run(s, F.Offers(xs) + F.Polls(|Elements(s)| + |xs|)).1.head
            == Run(s, F.Offers(xs) + F.Polls(|Elements(s)| + |xs|)).1.tail
  {
    var q := Elements(s);
    var calls := F.Offers(xs) + F.Polls(|q| + |xs|);
    RunRefines(s, calls);
    F.OffersThenPolls(q, s.capacity, xs);
    var final := Run(s, calls).1;
    assert Elements(final) == [];
    assert |Elements(final)| == final.tail - final.head;
  }
}
