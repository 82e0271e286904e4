/** `MpscConcurrentQueue`: a bounded ring-buffer queue for many producers and
    one consumer. The padded superclasses of the Java class collapse into one
    class holding the three counters, the capacity and the slot store; the
    volatile, ordered and plain loads of fields and slots become plain reads,
    `casTail` a sequential compare-and-set. */
module MpscQueue {
  import opened Nullable
  import opened Offsets
  import M = MpscModel
  import F = BoundedFifo

  class MpscConcurrentQueue<E> {
    const capacity: int
    const buffer: array<Option<E>>
    var tail: int
    var headCache: int
    var head: int

    /** The object's state as a value of the model. */
    ghost function Snapshot(): M.State<E>
      reads this, buffer
    {
      M.State(capacity, tail, head, headCache, buffer[..])
    }

    ghost predicate Valid()
      reads this, buffer
    {
      M.Inv(Snapshot())
    }

    /** The queued elements, oldest first. */
    ghost function Elements(): seq<E>
      reads this, buffer
      requires Valid()
    {
      M.Elements(Snapshot())
    }

    /** A queue with `capacity` empty slots and all counters at zero. */
    constructor (capacity: int)
      requires capacity > 0
      ensures Valid() && fresh(buffer)
      ensures Snapshot() == M.Init(capacity) && Elements() == []
    {
      this.capacity := capacity;
      buffer := new Option<E>[capacity](_ => None);
      tail, headCache, head := 0, 0, 0;
      new;
      assert buffer[..] == M.Init<E>(capacity).buffer;
    }

    /** Compare-and-set on `tail`: it changes only if it held `expected`. */
    method CasTail(expected: int, newValue: int) returns (swapped: bool)
      modifies this`tail
      ensures swapped <==> old(tail) == expected
      ensures tail == if swapped then newValue else old(tail)
    {
      swapped := tail == expected;
      if swapped {
        tail := newValue;
      }
    }

    method SvHeadCache(v: int)
      modifies this`headCache
      ensures headCache == v
    {
      headCache := v;
    }

    method SoHead(v: int)
      modifies this`head
      ensures head == v
    {
      head := v;
    }

    /** Adds `e` at the back unless the queue is full; `null` is refused. */
    method Offer(e: Option<E>) returns (r: Outcome<bool>)
      requires Valid()
      modifies this, buffer
      ensures Valid()
      ensures (r, Snapshot()) == M.Offer(old(Snapshot()), e)
      ensures (r, Elements()) == F.Offer(old(Elements()), capacity, e)
    {
      ghost var s := Snapshot();
      M.OfferRefines(s, e);
      if e.None? {
        return NullPointerException;
      }
      var currHeadCache := headCache;
      var currentTail := tail;
      var swapped := false;
      while !swapped
        invariant buffer[..] == s.buffer && head == s.head && currHeadCache == s.headCache
        invariant !swapped ==> tail == s.tail && headCache == s.headCache
        invariant swapped ==> currentTail == s.tail && tail == s.tail + 1
        invariant swapped ==> !M.SeenFull(s, currentTail - capacity)
        invariant swapped ==> headCache == M.Refresh(s, currentTail - capacity).headCache
        decreases if swapped then 0 else 1
      {
        currentTail := tail;
        var wrapPoint := currentTail - capacity;
        if currHeadCache <= wrapPoint {
          var currHead := head;
          if currHead <= wrapPoint {
            return Returned(false);
          }
          SvHeadCache(currHead);
        }
        swapped := CasTail(currentTail, currentTail + 1);
      }
      var offset := CalcOffset(currentTail, capacity);
      buffer[offset] := e;
      return Returned(true);
    }

    /** One attempt at adding `e`, where `observedTail` is the value this
        producer loaded from `tail` (under contention possibly an old one).
        Answers FULL, CAS_FAILED or SUCCESS; `null` is refused. */
    method TryOffer(e: Option<E>, observedTail: int) returns (r: Outcome<int>)
      requires Valid() && 0 <= observedTail <= tail
      modifies this, buffer
      ensures Valid()
      ensures (r, Snapshot()) == M.TryOffer(old(Snapshot()), e, observedTail)
      ensures e.Some? ==> r.Returned? && r.value in {M.FULL, M.CAS_FAILED, M.SUCCESS}
      ensures r == Returned(M.FULL) ==> observedTail == old(tail) && old(Size()) == capacity
      ensures Elements() == if r == Returned(M.SUCCESS) then old(Elements()) + [e.value]
                            else old(Elements())
    {
      ghost var s := Snapshot();
      M.TryOfferRefines(s, e, observedTail);
      if e.None? {
        return NullPointerException;
      }
      var currentTail := observedTail;
      var currHeadCache := headCache;
      var wrapPoint := currentTail - capacity;
      if currHeadCache <= wrapPoint {
        var currHead := head;
        if currHead <= wrapPoint {
          return Returned(M.FULL);
        }
        SvHeadCache(currHead);
      }
      var swapped := CasTail(currentTail, currentTail + 1);
      if !swapped {
        return Returned(M.CAS_FAILED);
      }
      var offset := CalcOffset(currentTail, capacity);
      buffer[offset] := e;
      return Returned(M.SUCCESS);
    }

    /** Takes the oldest element out, or answers `null` if there is none. */
    method Poll() returns (r: Option<E>)
      requires Valid()
      modifies this, buffer
      ensures Valid()
      ensures (r, Snapshot()) == M.Poll(old(Snapshot()))
      ensures (r, Elements()) == F.Poll(old(Elements()))
    {
      ghost var s := Snapshot();
      M.PollRefines(s);
      var currHead := head;
      var offset := CalcOffset(currHead, capacity);
      var e := buffer[offset];
      if e.None? {
        return None;
      }
      buffer[offset] := None;
      SoHead(currHead + 1);
      return e;
    }

    /** The oldest element, or `null` if there is none; nothing changes. */
    function Peek(): (r: Option<E>)
      reads this, buffer
      requires Valid()
      ensures r == F.Peek(Elements())
    {
      M.PeekRefines(Snapshot());
      buffer[CalcOffset(head, capacity)]
    }

    /** The number of queued elements. */
    function Size(): (n: int)
      reads this, buffer
      requires Valid()
      ensures n == |Elements()| && 0 <= n <= capacity
    {
      tail - head
    }

    /** The capacity given at construction, the number of slots. */
    function Capacity(): (n: int)
      reads this, buffer
      requires Valid()
      ensures n == buffer.Length && n > 0
    {
      capacity
    }

    /** The consumer's view: the queue itself. */
    function Consumer(): (q: MpscConcurrentQueue<E>)
      ensures q == this
    {
      this
    }

    /** The producers' view: the queue itself. */
    function Producer(): (q: MpscConcurrentQueue<E>)
      ensures q == this
    {
      this
    }
  }
}
