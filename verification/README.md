# MpscConcurrentQueue, modelled in Dafny

A model of JCTools' `MpscConcurrentQueue`: a bounded ring-buffer queue through
which many producer threads hand elements to a single consumer thread. Producers
reserve a ticket by a compare-and-set on the `tail` counter and publish their
element into the slot `ticket mod capacity`. The consumer drains the slot of
`head`, clears it and advances `head`. Producers keep `headCache`, a lazily
refreshed copy of `head`, so that they read the consumer's counter only when the
queue might be full.

The model is sequential: each operation runs alone. Loads and stores of fields
and slots are plain reads and writes, and `casTail` is a sequential
compare-and-set.

Files and modules:

- `nullable.dfy` (`Nullable`): `Option` stands for a nullable element
  reference. `Outcome` is a call that returns or throws `NullPointerException`.
- `offsets.dfy` (`Offsets`): `CalcOffset(ticket, capacity) = ticket % capacity`.
  Two lemmas say which tickets share a slot: tickets fewer than `capacity`
  apart never do, and tickets exactly `capacity` apart always do.
- `bounded_fifo.dfy` (`BoundedFifo`): the reference behaviour. It is a bounded
  FIFO sequence that refuses `null`. Sequences of calls run on it through
  `Apply`, and it has the first-in-first-out lemma `OffersThenPolls`.
- `mpsc_model.dfy` (`MpscModel`): the queue's state as a value (`State`) and
  its operations as functions of it.
  - `Inv` is the class invariant: `0 <= headCache <= head <= tail <= head + capacity`.
    The slots of tickets `[head, tail)` are occupied and the slots of tickets
    `[tail, head + capacity)`, which are all the others, are empty.
  - `Elements` reads the queued elements out of the slots.
  - The lemmas prove that every operation keeps `Inv` and behaves, call for
    call, like the reference queue.
- `mpsc_queue.dfy` (`MpscQueue`): the class `MpscConcurrentQueue` itself.
  - It has the fields `capacity`, `buffer` (an `array<Option<E>>`), `tail`,
    `headCache` and `head`.
  - `offer`, `tryOffer` and `poll` are methods that update them in place.
    Each one ensures that the new state is the model function applied to the
    old state. For `offer` and `poll` the answer and the elements change as
    the reference queue's do. `tryOffer`, which the reference queue lacks,
    states directly that its elements grow by `e` exactly when it answers 0.
  - `peek`, `size`, `capacity`, `consumer` and `producer` are read-only
    functions.
- `mpsc_client.dfy` (`MpscClient`): callers that use only the class's contracts.
  - The capacity-two scenario: `a`, `b` accepted; `c` refused; `a` polled; `c`
    accepted; then `b`, `c`, `null` polled.
  - A lost ticket race seen through `tryOffer`.
  - `null` offers.

`tryOffer` takes one more parameter than the Java method, `observedTail`. It is
the value that the method's load of `tail` returned. `tail` starts at 0 and only
grows, so that value lies in `[0, tail]`, and the method requires this. Under
contention another producer may move `tail` between that load and the
compare-and-set. Passing an older value than the current `tail` exercises the
CAS-failure branch (`-1`). Passing the current `tail` gives the single-threaded
call. `TryOfferAloneIsOffer` shows
that in that case `-1` cannot occur.

`offer`'s do-while retry loop is a `while` loop around `CasTail`. Run alone, it
always wins on its first pass.

The fullness test compares against `capacity` itself. The queue refuses an
element when `head <= tail - capacity`, so all `capacity` slots are used, and a
full queue holds exactly `capacity` elements. The model requires only
`capacity > 0`. With `%` in place of the slot store's mask, nothing depends on
a power of two.

## Model

| member | source | states |
|---|---|---|
| `Offsets.CalcOffset` | jctools-core/src/main/java/org/jctools/queues/MpscConcurrentQueue.java:149-150 | the offset of a ticket is a slot index, in `[0, capacity)` |
| `MpscModel.Init` | jctools-core/src/main/java/org/jctools/queues/MpscConcurrentQueue.java:126-128 | a new queue (counters zero, slots empty) satisfies the class invariant and holds no elements |
| `MpscModel.OfferRefines` | jctools-core/src/main/java/org/jctools/queues/MpscConcurrentQueue.java:131-152 | about `MpscModel.Offer`: `offer` keeps the invariant. It throws on `null` and changes nothing. It answers `false` and changes nothing exactly when `capacity` elements are queued. Otherwise it stores `e` in slot `calcOffset(old tail)`, advances `tail` by one, appends `e` and answers `true`. `head` never changes, and `headCache` is only set to `head`, only when it was at or below the wrap point |
| `MpscModel.TryOfferRefines` | jctools-core/src/main/java/org/jctools/queues/MpscConcurrentQueue.java:154-180 | about `MpscModel.TryOffer`, for an observed tail in `[0, tail]`: `tryOffer` keeps the invariant and answers exactly one of 1, -1, 0 for a non-null element. It answers 1 iff `head <= observedTail - capacity`, which happens only when the observed tail is current and `capacity` elements are queued, and then nothing changes. It answers 0 iff the observed tail is current and there is room, and then `e` is stored at the old tail's slot and appended. It answers -1 otherwise, and then only `headCache` may change, to `head`. `null` throws and changes nothing |
| `MpscModel.TryOfferAloneIsOffer` | jctools-core/src/main/java/org/jctools/queues/MpscConcurrentQueue.java:131-180 | relates `MpscModel.TryOffer` to `MpscModel.Offer`: on the tail it has just read, `tryOffer` never answers -1 and has the effect of `offer`: 0 where `offer` answers `true`, 1 where it answers `false` |
| `MpscModel.PollRefines` | jctools-core/src/main/java/org/jctools/queues/MpscConcurrentQueue.java:183-195 | about `MpscModel.Poll`: `poll` keeps the invariant. On an empty queue it answers `null` and changes nothing. Otherwise it answers the oldest element, clears that slot, advances `head` by exactly one and drops that element from the front. `tail` and `headCache` are untouched |
| `MpscModel.PeekRefines` | jctools-core/src/main/java/org/jctools/queues/MpscConcurrentQueue.java:197-200 | about `MpscModel.Peek`: the head slot holds the oldest element, or `null` when the queue is empty |
| `MpscModel.SizeBounds` | jctools-core/src/main/java/org/jctools/queues/MpscConcurrentQueue.java:202-205 | about `MpscModel.Size`: `tail - head` is the number of queued elements and lies in `[0, capacity]` |
| `MpscModel.RunRefines` | jctools-core/src/main/java/org/jctools/queues/MpscConcurrentQueue.java:131-195 | about `MpscModel.Run` of `MpscModel.Offer` and `MpscModel.Poll` calls: any sequence of offers and polls keeps the invariant and gets the same answers as the bounded FIFO reference queue holding the same elements, leaving the same elements behind |
| `MpscModel.FifoDelivery` | jctools-core/src/main/java/org/jctools/queues/MpscConcurrentQueue.java:131-195 | offering elements that fit and then polling until empty: every offer answers `true`, and the polls hand out the queued elements, then the offered ones, in insertion order, leaving `head == tail` |
| `MpscQueue.MpscConcurrentQueue.constructor` | jctools-core/src/main/java/org/jctools/queues/MpscConcurrentQueue.java:126-128 | establishes the invariant with `capacity` empty slots, all counters zero and no elements |
| `MpscQueue.MpscConcurrentQueue.CasTail` | jctools-core/src/main/java/org/jctools/queues/MpscConcurrentQueue.java:55-57 | succeeds iff `tail` held the expected value, and only then sets it to the new value |
| `MpscQueue.MpscConcurrentQueue.SvHeadCache` | jctools-core/src/main/java/org/jctools/queues/MpscConcurrentQueue.java:81-83 | `headCache` becomes the given value; nothing else changes |
| `MpscQueue.MpscConcurrentQueue.SoHead` | jctools-core/src/main/java/org/jctools/queues/MpscConcurrentQueue.java:116-118 | `head` becomes the given value; nothing else changes |
| `MpscQueue.MpscConcurrentQueue.Offer` | jctools-core/src/main/java/org/jctools/queues/MpscConcurrentQueue.java:131-152 | keeps the invariant. The new state is the model's `Offer` of the old one. The answer and the new elements are the reference queue's bounded offer of `e` |
| `MpscQueue.MpscConcurrentQueue.TryOffer` | jctools-core/src/main/java/org/jctools/queues/MpscConcurrentQueue.java:158-180 | for an observed tail in `[0, tail]`, keeps the invariant. It answers 1 only when that tail is current and the queue is full. The new state is the model's `TryOffer` of the old one. A non-null element gets one of 1, -1, 0, and the elements grow by `e` exactly when the answer is 0 |
| `MpscQueue.MpscConcurrentQueue.Poll` | jctools-core/src/main/java/org/jctools/queues/MpscConcurrentQueue.java:183-195 | keeps the invariant. The new state is the model's `Poll` of the old one. It answers and removes the oldest element, or answers `null` on an empty queue |
| `MpscQueue.MpscConcurrentQueue.Peek` | jctools-core/src/main/java/org/jctools/queues/MpscConcurrentQueue.java:197-200 | answers the oldest element, or `null` on an empty queue, and changes nothing |
| `MpscQueue.MpscConcurrentQueue.Size` | jctools-core/src/main/java/org/jctools/queues/MpscConcurrentQueue.java:202-205 | the number of queued elements, in `[0, capacity]` |
| `MpscQueue.MpscConcurrentQueue.Capacity` | jctools-core/src/main/java/org/jctools/queues/MpscConcurrentQueue.java:217-220 | the capacity is the number of slots and is positive; the constructor fixes it at the value given |
| `MpscQueue.MpscConcurrentQueue.Consumer` | jctools-core/src/main/java/org/jctools/queues/MpscConcurrentQueue.java:207-210 | the consumer view is the queue itself, not a copy |
| `MpscQueue.MpscConcurrentQueue.Producer` | jctools-core/src/main/java/org/jctools/queues/MpscConcurrentQueue.java:212-215 | the producer view is the queue itself, not a copy |
| `MpscClient.CapacityTwoScenario` | jctools-core/src/main/java/org/jctools/queues/MpscConcurrentQueue.java:131-195 | with capacity 2, offers of a, b, c, (poll), c answer true, true, false, true, and the polls return a, b, c, null |
| `MpscClient.TicketRaceScenario` | jctools-core/src/main/java/org/jctools/queues/MpscConcurrentQueue.java:158-195 | a `tryOffer` on a tail another producer has already advanced answers -1 and changes no elements. Its retry on the fresh tail answers 0, and the consumer gets the elements in ticket order |
| `MpscClient.NullOfferScenario` | jctools-core/src/main/java/org/jctools/queues/MpscConcurrentQueue.java:131-161 | offering `null` to `offer` or `tryOffer` throws `NullPointerException` and leaves the queue's size as it was |

## Left out

- Cache-line padding fields and the padding superclasses carry no behaviour, so
  the model has a single class.
- The `Unsafe` field-offset lookups, `compareAndSwapLong` and `putOrderedLong`
  are JVM intrinsics. They are modelled as a plain compare-and-set and a plain
  write.
- The model does not distinguish volatile, ordered and plain accesses. Memory
  ordering only matters between threads. `lvTail`, `lvHead`, `lvHeadCache`,
  `lvElement` and `lpElement` are direct reads of the field or slot, not
  separate members.
- Interleavings of several producers are not modelled, because the model is
  sequential. This covers the unbounded CAS retry of `offer` and `size()`'s
  approximate value under concurrency. A rival producer appears only as an
  out-of-date `observedTail` given to `tryOffer`.
- A reserved ticket whose slot is still empty cannot occur in the model.
  `MpscModel.Publish` reserves the ticket and stores the element in one step,
  and the invariant requires the slots of `[head, tail)` to be occupied. So
  `poll`'s "cannot see the next element yet" case, where a producer has won
  the compare-and-set but not yet stored, is only reached on an empty queue.
  `MpscModel.Poll` still handles an empty head slot as the source does.
- MpscQueue.MpscConcurrentQueue.Offer: its retry loop always ends after one
  pass, because no other producer can move `tail` between its load and its
  compare-and-set.
- MpscQueue.MpscConcurrentQueue.Size: does not model the `(int)` narrowing
  cast. Nor does the model capture 64-bit wrap-around of `tail`, `head` or
  `headCache`. The counters are unbounded integers, and a 64-bit counter does
  not wrap in practice.
- `ConcurrentCircularArray` is not part of this model: the slot store's
  allocation, any rounding of the capacity and its index mask. Slots are an
  array of exactly `capacity` entries, and a ticket's slot is
  `ticket % capacity`.
- The rest of `java.util.Queue` (iteration, bulk operations, `isEmpty`, …) is
  not implemented in `MpscConcurrentQueue.java` itself, so it is not modelled.
