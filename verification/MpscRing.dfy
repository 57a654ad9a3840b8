/** The multi-producer single-consumer ring: a ticket counter and a sequence number per slot,
    as a state machine over the atomic steps of `push` and `pop`, with any number of producers
    interleaved in any order. Counters are unbounded. */
module MpscRing {
  import opened Modular

  /** Where a producer stands inside `push`. */
  datatype Producer<T> =
    | Resting
    | TailLoaded(item: T, ticket: nat)      // current_tail has been loaded
    | SlotFree(item: T, ticket: nat)        // the slot's sequence equalled current_tail
    | MustReload(item: T)                   // the slot's sequence was ahead of current_tail
    | Claimed(item: T, ticket: nat)         // the compare-exchange succeeded
    | Written(item: T, ticket: nat)         // the slot's data has been stored
  {
    /** Between winning the exchange and publishing, a producer owns its ticket's slot. */
    predicate Busy() { Claimed? || Written? }
    predicate Owns(t: nat) { Busy() && ticket == t }
  }

  /** Where the consumer stands inside `pop`. */
  datatype Consumer<T> =
    | Waiting
    | Ready                                 // the head slot's sequence matched
    | HasRead(value: T)
    | Released(value: T)                    // the slot's sequence has been reset

  datatype Slot<T> = Slot(sequence: nat, data: T)

  datatype Ring<T> = Ring(
    slots: seq<Slot<T>>,
    head: nat,
    tail: nat,
    producers: seq<Producer<T>>,
    consumer: Consumer<T>,
    claimed: seq<T>,                        // history: the item of each ticket, in ticket order
    popped: seq<T>)                         // history: the values returned by pop, in order
  {
    function Size(): nat { |slots| }

    /** Tickets below this one have had their slot given back. */
    function Freed(): nat { if consumer.Released? then head + 1 else head }
  }

  datatype Step<T> =
    | BeginPush(p: nat, item: T)
    | LoadSequence(p: nat)
    | ReloadTail(p: nat)
    | ExchangeSucceeds(p: nat)
    | ExchangeFails(p: nat)                 // also the spurious failures of the weak form
    | WriteData(p: nat)
    | Publish(p: nat)
    | CheckHead
    | ReadData
    | ReleaseSlot
    | AdvanceHead

  ghost predicate Initial<T>(s: Ring<T>) {
    && s.Size() > 0
    && (forall i :: 0 <= i < s.Size() ==> s.slots[i].sequence == i)
    && s.head == s.tail == 0
    && (forall p :: 0 <= p < |s.producers| ==> s.producers[p].Resting?)
    && s.consumer.Waiting?
    && s.claimed == s.popped == []
  }

  function At<T>(slots: seq<Slot<T>>, t: nat): Slot<T>
    requires |slots| > 0
  {
    slots[Index(t, |slots|)]
  }

  function Store<T>(s: Ring<T>, t: nat, slot: Slot<T>): Ring<T>
    requires s.Size() > 0
  {
    s.(slots := s.slots[Index(t, s.Size()) := slot])
  }

  function Move<T>(s: Ring<T>, p: nat, next: Producer<T>): Ring<T>
    requires p < |s.producers|
  {
    s.(producers := s.producers[p := next])
  }

  /** Whether a step can be taken: the thread taking it stands at that point of the code. */
  predicate Enabled<T>(s: Ring<T>, step: Step<T>) {
    s.Size() > 0 &&
    match step
    case BeginPush(p, _) => p < |s.producers| && s.producers[p].Resting?
    case LoadSequence(p) => p < |s.producers| && s.producers[p].TailLoaded?
    case ReloadTail(p) => p < |s.producers| && s.producers[p].MustReload?
    case ExchangeSucceeds(p) => p < |s.producers| && s.producers[p].SlotFree? && s.tail == s.producers[p].ticket
    case ExchangeFails(p) => p < |s.producers| && s.producers[p].SlotFree?
    case WriteData(p) => p < |s.producers| && s.producers[p].Claimed?
    case Publish(p) => p < |s.producers| && s.producers[p].Written?
    case CheckHead => s.consumer.Waiting?
    case ReadData => s.consumer.Ready?
    case ReleaseSlot => s.consumer.HasRead?
    case AdvanceHead => s.consumer.Released?
  }

  /** The effect of an atomic step. */
  function Next<T>(s: Ring<T>, step: Step<T>): (after: Ring<T>)
    requires Enabled(s, step)
    ensures after.Size() == s.Size() && |after.producers| == |s.producers|
  {
    match step
    case BeginPush(p, item) => Move(s, p, TailLoaded(item, s.tail))
    case LoadSequence(p) =>
      var me := s.producers[p];
      var diff := At(s.slots, me.ticket).sequence - me.ticket;
      if diff == 0 then Move(s, p, SlotFree(me.item, me.ticket))
      else if diff < 0 then Move(s, p, Resting)
      else Move(s, p, MustReload(me.item))
    case ReloadTail(p) => Move(s, p, TailLoaded(s.producers[p].item, s.tail))
    case ExchangeSucceeds(p) =>
      var me := s.producers[p];
      Move(s, p, Claimed(me.item, me.ticket)).(tail := s.tail + 1, claimed := s.claimed + [me.item])
    case ExchangeFails(p) => Move(s, p, TailLoaded(s.producers[p].item, s.tail))
    case WriteData(p) =>
      var me := s.producers[p];
      Move(Store(s, me.ticket, At(s.slots, me.ticket).(data := me.item)), p, Written(me.item, me.ticket))
    case Publish(p) =>
      var me := s.producers[p];
      Move(Store(s, me.ticket, At(s.slots, me.ticket).(sequence := me.ticket + 1)), p, Resting)
    case CheckHead => if At(s.slots, s.head).sequence == s.head + 1 then s.(consumer := Ready) else s
    case ReadData => s.(consumer := HasRead(At(s.slots, s.head).data))
    case ReleaseSlot =>
      Store(s, s.head, At(s.slots, s.head).(sequence := s.head + s.Size())).(consumer := Released(s.consumer.value))
    case AdvanceHead => s.(head := s.head + 1, consumer := Waiting, popped := s.popped + [s.consumer.value])
  }

  // ---- the invariant --------------------------------------------------------

  /** A ticket's item sits published in its slot. */
  ghost predicate Published<T>(slots: seq<Slot<T>>, claimed: seq<T>, t: nat)
    requires |slots| > 0 && t < |claimed|
  {
    At(slots, t) == Slot(t + 1, claimed[t])
  }

  ghost predicate SomeOwner<T>(producers: seq<Producer<T>>, t: nat) {
    exists p :: 0 <= p < |producers| && producers[p].Owns(t)
  }

  /** The window of live tickets: at most one per slot, all claimed ones recorded. */
  ghost predicate WindowOk<T>(s: Ring<T>) {
    && s.Size() >= 2
    && s.Freed() <= s.tail <= s.Freed() + s.Size()
    && |s.claimed| == s.tail
  }

  /** Tickets not claimed yet find their slot free; claimed ones are being filled or are published. */
  ghost predicate SlotsOk<T>(s: Ring<T>)
    requires WindowOk(s)
  {
    && (forall t: nat :: s.tail <= t < s.Freed() + s.Size() ==> At(s.slots, t).sequence == t)
    && (forall t: nat :: s.Freed() <= t < s.tail ==> SomeOwner(s.producers, t) || Published(s.slots, s.claimed, t))
  }

  ghost predicate ProducerOk<T>(s: Ring<T>, me: Producer<T>)
    requires s.Size() > 0 && |s.claimed| == s.tail
  {
    match me
    case Resting => true
    case MustReload(_) => true
    case TailLoaded(_, t) => t <= s.tail
    case SlotFree(_, t) => t <= s.tail && (t == s.tail ==> t < s.Freed() + s.Size())
    case Claimed(item, t) => s.Freed() <= t < s.tail && At(s.slots, t).sequence == t && s.claimed[t] == item
    case Written(item, t) => s.Freed() <= t < s.tail && At(s.slots, t) == Slot(t, item) && s.claimed[t] == item
  }

  ghost predicate ProducersOk<T>(s: Ring<T>)
    requires WindowOk(s)
  {
    && (forall p :: 0 <= p < |s.producers| ==> ProducerOk(s, s.producers[p]))
    && (forall p, q :: 0 <= p < q < |s.producers| && s.producers[p].Busy() && s.producers[q].Busy()
          ==> s.producers[p].ticket != s.producers[q].ticket)
  }

  ghost predicate ConsumerOk<T>(s: Ring<T>)
    requires WindowOk(s)
  {
    && s.popped == s.claimed[..s.head]
    && match s.consumer
       case Waiting => true
       case Ready => s.head < s.tail && Published(s.slots, s.claimed, s.head)
       case HasRead(v) => s.head < s.tail && Published(s.slots, s.claimed, s.head) && v == s.claimed[s.head]
       case Released(v) => s.head < s.tail && v == s.claimed[s.head]
  }

  ghost predicate Inv<T>(s: Ring<T>) {
    WindowOk(s) && SlotsOk(s) && ProducersOk(s) && ConsumerOk(s)
  }

  // ---- slots and tickets ----------------------------------------------------

  /** Within a window of `size` tickets no two share a slot. */
  lemma DistinctSlots(a: nat, b: nat, low: nat, size: nat)
    requires size > 0 && low <= a < low + size && low <= b < low + size && a != b
    ensures Index(a, size) != Index(b, size)
  {
    ModDistinct(a, b, low, size);
  }

  lemma SameSlot(t: nat, size: nat)
    requires size > 0
    ensures Index(t + size, size) == Index(t, size)
  {
    ModShift(t, size);
  }

  // ---- every step keeps the invariant ---------------------------------------

  lemma InitialInv<T>(s: Ring<T>)
    requires Initial(s) && s.Size() >= 2
    ensures Inv(s)
  {
    forall t: nat | t < s.Size() ensures At(s.slots, t).sequence == t {
      assert t % s.Size() == t;
    }
  }

  /** A producer that owns nothing before or after moves on: loads, reloads and failed exchanges. */
  lemma QuietMoveKeepsInv<T>(s: Ring<T>, p: nat, next: Producer<T>)
    requires Inv(s) && p < |s.producers| && !s.producers[p].Busy() && !next.Busy() && ProducerOk(s, next)
    ensures Inv(Move(s, p, next))
  {
    hide Index;
    var after := Move(s, p, next);
    forall t: nat | s.Freed() <= t < s.tail && SomeOwner(s.producers, t) ensures SomeOwner(after.producers, t) {
      var q :| 0 <= q < |s.producers| && s.producers[q].Owns(t);
      assert after.producers[q].Owns(t);
    }
    forall q | 0 <= q < |after.producers| ensures ProducerOk(after, after.producers[q]) {
      assert q == p || after.producers[q] == s.producers[q];
    }
  }

  /** At the sequence load: the slot's number and the ticket decide between free, taken and full. */
  lemma LoadedSequence<T>(s: Ring<T>, t: nat)
    requires Inv(s) && t <= s.tail
    ensures At(s.slots, t).sequence == t && t == s.tail ==> t < s.Freed() + s.Size()
    ensures At(s.slots, t).sequence < t ==> t == s.tail == s.Freed() + s.Size()
  {
    hide Index;
    var low, size := s.Freed(), s.Size();
    if t == low + size {
      SameSlot(low, size);
      assert At(s.slots, t) == At(s.slots, low);
      OwnedOrPublished(s, low);
    } else if t < low {
      if At(s.slots, t).sequence < t {
        var u := SlotTicket(s, t);
        assert false;
      }
    } else if t < s.tail {
      OwnedOrPublished(s, t);
    }
  }

  /** A claimed ticket's slot carries its own number until it is published, then the next. */
  lemma OwnedOrPublished<T>(s: Ring<T>, t: nat)
    requires Inv(s) && s.Freed() <= t < s.tail
    ensures At(s.slots, t).sequence == t || (At(s.slots, t).sequence == t + 1 && Published(s.slots, s.claimed, t))
    ensures SomeOwner(s.producers, t) <==> At(s.slots, t).sequence == t
  {
    hide Index;
    if SomeOwner(s.producers, t) {
      var p :| 0 <= p < |s.producers| && s.producers[p].Owns(t);
      assert ProducerOk(s, s.producers[p]);
    }
  }

  /** The live ticket that shares a slot with an old one. */
  lemma SlotTicket<T>(s: Ring<T>, t: nat) returns (u: nat)
    requires Inv(s) && t < s.Freed()
    ensures s.Freed() <= u < s.Freed() + s.Size() && At(s.slots, u) == At(s.slots, t)
    ensures At(s.slots, t).sequence >= u > t
  {
    hide Index;
    u := Lift(t, s.Freed(), s.Size());
    if u < s.tail {
      OwnedOrPublished(s, u);
    }
  }

  lemma Lift(t: nat, low: nat, size: nat) returns (u: nat)
    requires size > 0 && t < low
    ensures low <= u < low + size && Index(u, size) == Index(t, size)
    decreases low - t
  {
    hide Index;
    SameSlot(t, size);
    if t + size >= low {
      u := t + size;
    } else {
      u := Lift(t + size, low, size);
    }
  }

  lemma ExchangeKeepsInv<T>(s: Ring<T>, p: nat)
    requires Inv(s) && Enabled(s, ExchangeSucceeds(p))
    ensures Inv(Next(s, ExchangeSucceeds(p)))
  {
    hide Index;
    var after := Next(s, ExchangeSucceeds(p));
    var me := s.producers[p];
    assert ProducerOk(s, me);
    forall t: nat | after.Freed() <= t < after.tail
      ensures SomeOwner(after.producers, t) || Published(after.slots, after.claimed, t)
    {
      if t == s.tail {
        assert after.producers[p].Owns(t);
      } else if SomeOwner(s.producers, t) {
        var q :| 0 <= q < |s.producers| && s.producers[q].Owns(t);
        assert after.producers[q].Owns(t);
      }
    }
    forall q | 0 <= q < |after.producers| ensures ProducerOk(after, after.producers[q]) {
      if q != p {
        assert ProducerOk(s, s.producers[q]);
      }
    }
    forall q | 0 <= q < |s.producers| && s.producers[q].Busy() ensures s.producers[q].ticket < s.tail {
      assert ProducerOk(s, s.producers[q]);
    }
  }

  /** An owner touches its own slot only: every other live ticket's slot is as before. */
  lemma OtherSlots<T>(s: Ring<T>, t: nat, slot: Slot<T>)
    requires Inv(s) && s.Freed() <= t < s.tail
    ensures At(Store(s, t, slot).slots, t) == slot
    ensures forall u: nat :: s.Freed() <= u < s.Freed() + s.Size() && u != t ==>
              At(Store(s, t, slot).slots, u) == At(s.slots, u)
  {
    hide Index;
    forall u: nat | s.Freed() <= u < s.Freed() + s.Size() && u != t
      ensures At(Store(s, t, slot).slots, u) == At(s.slots, u)
    {
      DistinctSlots(t, u, s.Freed(), s.Size());
    }
  }

  /** No other producer and no reading consumer is at an owned slot. */
  lemma OwnerIsAlone<T>(s: Ring<T>, p: nat)
    requires Inv(s) && p < |s.producers| && s.producers[p].Busy()
    ensures s.Freed() <= s.producers[p].ticket < s.tail
    ensures forall q :: 0 <= q < |s.producers| && q != p && s.producers[q].Busy() ==>
              && s.Freed() <= s.producers[q].ticket < s.tail
              && s.producers[q].ticket != s.producers[p].ticket
              && Index(s.producers[q].ticket, s.Size()) != Index(s.producers[p].ticket, s.Size())
    ensures s.consumer.Ready? || s.consumer.HasRead? ==>
              && s.head != s.producers[p].ticket
              && Index(s.head, s.Size()) != Index(s.producers[p].ticket, s.Size())
  {
    hide Index;
    var t := s.producers[p].ticket;
    assert ProducerOk(s, s.producers[p]);
    forall q | 0 <= q < |s.producers| && q != p && s.producers[q].Busy()
      ensures && s.Freed() <= s.producers[q].ticket < s.tail
              && s.producers[q].ticket != t && Index(s.producers[q].ticket, s.Size()) != Index(t, s.Size())
    {
      assert ProducerOk(s, s.producers[q]);
      DistinctSlots(s.producers[q].ticket, t, s.Freed(), s.Size());
    }
    if s.consumer.Ready? || s.consumer.HasRead? {
      DistinctSlots(s.head, t, s.Freed(), s.Size());
    }
  }

  lemma WriteKeepsInv<T>(s: Ring<T>, p: nat)
    requires Inv(s) && Enabled(s, WriteData(p))
    ensures Inv(Next(s, WriteData(p)))
  {
    hide Index;
    var after := Next(s, WriteData(p));
    var me := s.producers[p];
    OwnerIsAlone(s, p);
    OtherSlots(s, me.ticket, At(s.slots, me.ticket).(data := me.item));
    assert ProducerOk(s, me);
    forall t: nat | after.Freed() <= t < after.tail
      ensures SomeOwner(after.producers, t) || Published(after.slots, after.claimed, t)
    {
      if t == me.ticket {
        assert after.producers[p].Owns(t);
      } else if SomeOwner(s.producers, t) {
        var q :| 0 <= q < |s.producers| && s.producers[q].Owns(t);
        assert after.producers[q].Owns(t);
      }
    }
    forall q | 0 <= q < |after.producers| ensures ProducerOk(after, after.producers[q]) {
      if q != p {
        assert ProducerOk(s, s.producers[q]);
      }
    }
  }

  lemma PublishKeepsInv<T>(s: Ring<T>, p: nat)
    requires Inv(s) && Enabled(s, Publish(p))
    ensures Inv(Next(s, Publish(p)))
  {
    hide Index;
    var after := Next(s, Publish(p));
    var me := s.producers[p];
    OwnerIsAlone(s, p);
    OtherSlots(s, me.ticket, At(s.slots, me.ticket).(sequence := me.ticket + 1));
    assert ProducerOk(s, me);
    forall t: nat | after.Freed() <= t < after.tail
      ensures SomeOwner(after.producers, t) || Published(after.slots, after.claimed, t)
    {
      if t == me.ticket {
        assert Published(after.slots, after.claimed, t);
      } else if SomeOwner(s.producers, t) {
        var q :| 0 <= q < |s.producers| && s.producers[q].Owns(t);
        assert after.producers[q].Owns(t);
      }
    }
    forall q | 0 <= q < |after.producers| ensures ProducerOk(after, after.producers[q]) {
      if q != p {
        assert ProducerOk(s, s.producers[q]);
      }
    }
  }

  lemma CheckKeepsInv<T>(s: Ring<T>)
    requires Inv(s) && Enabled(s, CheckHead)
    ensures Inv(Next(s, CheckHead))
  {
    hide Index;
    if At(s.slots, s.head).sequence == s.head + 1 {
      assert s.head < s.tail;
      OwnedOrPublished(s, s.head);
      SameProducers(s, s.(consumer := Ready));
    }
  }

  /** Steps that change neither slots, producers nor the freed mark keep their part of the invariant. */
  lemma SameProducers<T>(s: Ring<T>, after: Ring<T>)
    requires Inv(s) && after.slots == s.slots && after.producers == s.producers
    requires after.tail == s.tail && after.claimed == s.claimed && after.Freed() == s.Freed()
    ensures WindowOk(after) && SlotsOk(after) && ProducersOk(after)
  {
    hide Index;
    forall t: nat | after.Freed() <= t < after.tail
      ensures SomeOwner(after.producers, t) || Published(after.slots, after.claimed, t)
    {
      if SomeOwner(s.producers, t) {
        var q :| 0 <= q < |s.producers| && s.producers[q].Owns(t);
        assert after.producers[q].Owns(t);
      } else {
        assert Published(s.slots, s.claimed, t);
      }
    }
    forall q | 0 <= q < |after.producers| ensures ProducerOk(after, after.producers[q]) {
      assert ProducerOk(s, s.producers[q]);
    }
  }

  lemma ReleaseKeepsInv<T>(s: Ring<T>)
    requires Inv(s) && Enabled(s, ReleaseSlot)
    ensures Inv(Next(s, ReleaseSlot))
  {
    hide Index;
    var after := Next(s, ReleaseSlot);
    OtherSlots(s, s.head, At(s.slots, s.head).(sequence := s.head + s.Size()));
    SameSlot(s.head, s.Size());
    OwnedOrPublished(s, s.head);
    forall t: nat | after.tail <= t < after.Freed() + after.Size() ensures At(after.slots, t).sequence == t {
      if t == s.head + s.Size() {
        assert At(after.slots, t) == At(after.slots, s.head);
      }
    }
    forall t: nat | after.Freed() <= t < after.tail
      ensures SomeOwner(after.producers, t) || Published(after.slots, after.claimed, t)
    {
      if SomeOwner(s.producers, t) {
        var q :| 0 <= q < |s.producers| && s.producers[q].Owns(t);
        assert after.producers[q].Owns(t);
      } else {
        assert Published(s.slots, s.claimed, t);
      }
    }
    forall q | 0 <= q < |after.producers| ensures ProducerOk(after, after.producers[q]) {
      assert ProducerOk(s, s.producers[q]);
      if s.producers[q].Busy() {
        OwnerIsAlone(s, q);
      }
    }
  }

  lemma NextKeepsInv<T>(s: Ring<T>, step: Step<T>)
    requires Inv(s) && Enabled(s, step)
    ensures Inv(Next(s, step))
  {
    match step
    case BeginPush(p, item) => QuietMoveKeepsInv(s, p, TailLoaded(item, s.tail));
    case LoadSequence(p) =>
      assert ProducerOk(s, s.producers[p]);
      LoadedSequence(s, s.producers[p].ticket);
      QuietMoveKeepsInv(s, p, Next(s, step).producers[p]);
    case ReloadTail(p) => QuietMoveKeepsInv(s, p, TailLoaded(s.producers[p].item, s.tail));
    case ExchangeSucceeds(p) => ExchangeKeepsInv(s, p);
    case ExchangeFails(p) => QuietMoveKeepsInv(s, p, TailLoaded(s.producers[p].item, s.tail));
    case WriteData(p) => WriteKeepsInv(s, p);
    case Publish(p) => PublishKeepsInv(s, p);
    case CheckHead => CheckKeepsInv(s);
    case ReadData => SameProducers(s, Next(s, step));
    case ReleaseSlot => ReleaseKeepsInv(s);
    case AdvanceHead => SameProducers(s, Next(s, step));
  }

  // ---- runs -----------------------------------------------------------------

  /** The states a schedule of steps passes through are all enabled. */
  predicate RunFrom<T>(s: Ring<T>, steps: seq<Step<T>>)
    decreases |steps|
  {
    steps == [] || (Enabled(s, steps[0]) && RunFrom(Next(s, steps[0]), steps[1..]))
  }

  function After<T>(s: Ring<T>, steps: seq<Step<T>>): (end: Ring<T>)
    requires RunFrom(s, steps)
    ensures end.Size() == s.Size() && |end.producers| == |s.producers|
    decreases |steps|
  {
    if steps == [] then s else After(Next(s, steps[0]), steps[1..])
  }

  lemma {:induction false} RunKeepsInv<T>(s: Ring<T>, steps: seq<Step<T>>)
    requires Inv(s) && RunFrom(s, steps)
    ensures Inv(After(s, steps))
    decreases |steps|
  {
    if steps != [] {
      NextKeepsInv(s, steps[0]);
      RunKeepsInv(Next(s, steps[0]), steps[1..]);
    }
  }

  /** In every run, pop has returned exactly the first `head` claimed items, in ticket order. */
  lemma PopsInTicketOrder<T>(s: Ring<T>, steps: seq<Step<T>>)
    requires Initial(s) && s.Size() >= 2 && RunFrom(s, steps)
    ensures var e := After(s, steps);
            e.head <= |e.claimed| && |e.claimed| == e.tail && e.popped == e.claimed[..e.head]
  {
    InitialInv(s);
    RunKeepsInv(s, steps);
  }

  /** In every run, no slot is owned twice, and the consumer never reads an owned slot. */
  lemma SlotsAreExclusive<T>(s: Ring<T>, steps: seq<Step<T>>, p: nat)
    requires Initial(s) && s.Size() >= 2 && RunFrom(s, steps)
    requires p < |After(s, steps).producers| && After(s, steps).producers[p].Busy()
    ensures var e := After(s, steps);
            var mine := Index(e.producers[p].ticket, e.Size());
            && (forall q :: 0 <= q < |e.producers| && q != p && e.producers[q].Busy() ==>
                  Index(e.producers[q].ticket, e.Size()) != mine)
            && (e.consumer.Ready? || e.consumer.HasRead? ==> Index(e.head, e.Size()) != mine)
  {
    InitialInv(s);
    RunKeepsInv(s, steps);
    OwnerIsAlone(After(s, steps), p);
  }

  /** In every run, a push gives up only when every slot holds a claimed, unreleased ticket. */
  lemma FullOnlyWhenFull<T>(s: Ring<T>, steps: seq<Step<T>>, p: nat)
    requires Initial(s) && s.Size() >= 2 && RunFrom(s, steps)
    requires Enabled(After(s, steps), LoadSequence(p))
    ensures var e := After(s, steps);
            Next(e, LoadSequence(p)).producers[p].Resting? ==> e.tail - e.Freed() == e.Size()
  {
    InitialInv(s);
    RunKeepsInv(s, steps);
    var e := After(s, steps);
    assert ProducerOk(e, e.producers[p]);
    LoadedSequence(e, e.producers[p].ticket);
  }

  /** In every run, once nobody is filling the head ticket its item can be popped: none is lost. */
  lemma NothingIsLost<T>(s: Ring<T>, steps: seq<Step<T>>)
    requires Initial(s) && s.Size() >= 2 && RunFrom(s, steps)
    requires After(s, steps).consumer.Waiting?
    ensures var e := After(s, steps);
            Next(e, CheckHead).consumer.Ready? <==> e.head < e.tail && !SomeOwner(e.producers, e.head)
  {
    InitialInv(s);
    RunKeepsInv(s, steps);
    var e := After(s, steps);
    if e.head < e.tail {
      OwnedOrPublished(e, e.head);
    }
  }

  // ---- ticket order is call order -------------------------------------------

  lemma {:induction false} RunSplits<T>(s: Ring<T>, a: seq<Step<T>>, b: seq<Step<T>>)
    requires RunFrom(s, a + b)
    ensures RunFrom(s, a) && RunFrom(After(s, a), b) && After(s, a + b) == After(After(s, a), b)
    decreases |a|
  {
    hide Enabled, Next;
    if a == [] {
      assert a + b == b;
    } else {
      assert (a + b)[0] == a[0] && (a + b)[1..] == a[1..] + b;
      RunSplits(Next(s, a[0]), a[1..], b);
    }
  }

  /** Producer `q` is at rest, or still in the push of `item` that it began when the tail stood at
      `from` or later. */
  ghost predicate Pushing<T>(s: Ring<T>, q: nat, item: T, from: nat) {
    && q < |s.producers| && from <= s.tail
    && var me := s.producers[q];
       me.Resting? || (me.item == item && (me.MustReload? || from <= me.ticket))
  }

  ghost predicate SamePush<T>(steps: seq<Step<T>>, q: nat) {
    forall k :: 0 <= k < |steps| ==> !(steps[k].BeginPush? && steps[k].p == q)
  }

  lemma {:induction false} RunKeepsPushing<T>(s: Ring<T>, steps: seq<Step<T>>, q: nat, item: T, from: nat)
    requires RunFrom(s, steps) && SamePush(steps, q) && Pushing(s, q, item, from)
    ensures Pushing(After(s, steps), q, item, from)
    decreases |steps|
  {
    if steps != [] {
      RunKeepsPushing(Next(s, steps[0]), steps[1..], q, item, from);
    }
  }

  lemma {:induction false} ClaimedGrows<T>(s: Ring<T>, steps: seq<Step<T>>)
    requires RunFrom(s, steps)
    ensures s.tail <= After(s, steps).tail
    decreases |steps|
  {
    if steps != [] {
      ClaimedGrows(Next(s, steps[0]), steps[1..]);
    }
  }

  /** In every run: when a push has won its ticket before another one begins, the later call's
      ticket is larger. With pops in ticket order, items come out in the order of their calls. */
  lemma TicketsRespectCalls<T>(s: Ring<T>, first: seq<Step<T>>, between: seq<Step<T>>, q: nat, item: T,
                               later: seq<Step<T>>, p: nat)
    requires Initial(s) && s.Size() >= 2
    requires RunFrom(s, first + (between + ([BeginPush(q, item)] + later))) && SamePush(later, q)
    requires RunFrom(s, first) && p < |s.producers| && After(s, first).producers[p].Busy()
    requires q < |s.producers|
    ensures var e := After(s, first + (between + ([BeginPush(q, item)] + later)));
            e.producers[q].Busy() ==>
              && After(s, first).producers[p].ticket < e.producers[q].ticket < |e.claimed|
              && e.claimed[e.producers[q].ticket] == item
  {
    var begin := [BeginPush(q, item)] + later;
    RunSplits(s, first, between + begin);
    var m := After(s, first);
    RunSplits(m, between, begin);
    var n := After(m, between);
    assert begin[1..] == later;
    InitialInv(s);
    RunKeepsInv(s, first);
    OwnerIsAlone(m, p);
    ClaimedGrows(m, between);
    RunKeepsInv(s, first + (between + begin));
    var t := Next(n, BeginPush(q, item));
    assert Pushing(t, q, item, n.tail);
    RunKeepsPushing(t, later, q, item, n.tail);
    var e := After(s, first + (between + begin));
    assert e == After(t, later);
    if e.producers[q].Busy() {
      OwnerIsAlone(e, q);
    }
  }

  // ---- every call comes to its end ------------------------------------------

  /** In every run, whatever the step: a push that ends without having written its item ends because
      every slot holds a claimed, unreleased ticket. */
  lemma GivesUpOnlyWhenFull<T>(s: Ring<T>, steps: seq<Step<T>>, step: Step<T>, p: nat)
    requires Initial(s) && s.Size() >= 2 && RunFrom(s, steps) && Enabled(After(s, steps), step)
    requires p < |s.producers|
    ensures var e := After(s, steps);
            !e.producers[p].Resting? && !e.producers[p].Written? && Next(e, step).producers[p].Resting?
            ==> e.tail - e.Freed() == e.Size()
  {
    InitialInv(s);
    RunKeepsInv(s, steps);
    var e := After(s, steps);
    hide Inv, Index;
    if step == LoadSequence(p) {
      LoadedByProducer(e, p);
    }
  }

  lemma LoadedByProducer<T>(s: Ring<T>, p: nat)
    requires Inv(s) && Enabled(s, LoadSequence(p))
    ensures var t := s.producers[p].ticket;
            && t <= s.tail
            && (At(s.slots, t).sequence < t ==> t == s.tail == s.Freed() + s.Size())
  {
    assert ProducerOk(s, s.producers[p]);
    LoadedSequence(s, s.producers[p].ticket);
  }

  /** With the current tail in hand, the sequence load decides: on a full ring the push gives up, on
      any other it goes on. */
  lemma FreshLoadDecides<T>(s: Ring<T>, p: nat)
    requires Inv(s) && Enabled(s, LoadSequence(p)) && s.producers[p].ticket == s.tail
    ensures var item := s.producers[p].item;
            Next(s, LoadSequence(p)) == if s.tail - s.Freed() == s.Size() then Move(s, p, Resting)
                                        else Move(s, p, SlotFree(item, s.tail))
  {
    hide Index;
    if s.tail == s.Freed() + s.Size() {
      SameSlot(s.Freed(), s.Size());
      assert At(s.slots, s.tail) == At(s.slots, s.Freed());
      OwnedOrPublished(s, s.Freed());
    } else {
      assert At(s.slots, s.tail).sequence == s.tail;
    }
  }

  /** In every run, a push with the current tail in hand gives up if and only if the ring is full. */
  lemma FullPushGivesUp<T>(s: Ring<T>, steps: seq<Step<T>>, p: nat)
    requires Initial(s) && s.Size() >= 2 && RunFrom(s, steps) && Enabled(After(s, steps), LoadSequence(p))
    requires After(s, steps).producers[p].ticket == After(s, steps).tail
    ensures var e := After(s, steps);
            Next(e, LoadSequence(p)).producers[p].Resting? <==> e.tail - e.Freed() == e.Size()
  {
    InitialInv(s);
    RunKeepsInv(s, steps);
    FreshLoadDecides(After(s, steps), p);
  }

  /** Steps of producer `p` and of nobody else. */
  predicate Mine<T>(steps: seq<Step<T>>, p: nat) {
    forall k :: 0 <= k < |steps| ==>
      match steps[k]
      case BeginPush(q, _) => q == p
      case LoadSequence(q) => q == p
      case ReloadTail(q) => q == p
      case ExchangeSucceeds(q) => q == p
      case ExchangeFails(q) => q == p
      case WriteData(q) => q == p
      case Publish(q) => q == p
      case _ => false
  }

  /** The item has got the next ticket, sits published in its slot, and nothing else has changed. */
  ghost predicate Pushed<T>(s: Ring<T>, a: Ring<T>, p: nat, item: T)
    requires s.Size() > 0 && p < |s.producers|
  {
    && a.Size() == s.Size() && a.claimed == s.claimed + [item] && a.tail == s.tail + 1
    && a.producers == s.producers[p := Resting]
    && a.head == s.head && a.consumer == s.consumer && a.popped == s.popped
    && a.slots == s.slots[Index(s.tail, s.Size()) := Slot(s.tail + 1, item)]
  }

  lemma StepFirst<T>(s: Ring<T>, step: Step<T>, rest: seq<Step<T>>, p: nat) returns (steps: seq<Step<T>>)
    requires Enabled(s, step) && Mine([step], p) && Mine(rest, p) && RunFrom(Next(s, step), rest)
    ensures steps == [step] + rest && Mine(steps, p)
    ensures RunFrom(s, steps) && After(s, steps) == After(Next(s, step), rest)
  {
    assert [step][0] == step;
    steps := [step] + rest;
    assert steps[1..] == rest;
    hide Enabled, Next;
  }

  lemma WonPush<T>(s: Ring<T>, p: nat) returns (steps: seq<Step<T>>)
    requires Inv(s) && p < |s.producers| && s.producers[p].SlotFree? && s.producers[p].ticket == s.tail
    ensures Mine(steps, p) && RunFrom(s, steps) && Pushed(s, After(s, steps), p, s.producers[p].item)
  {
    var item := s.producers[p].item;
    var a := Next(s, ExchangeSucceeds(p));
    var b := Next(a, WriteData(p));
    var c := Next(b, Publish(p));
    hide Index, Inv;
    assert RunFrom(c, []) && After(c, []) == c;
    assert Pushed(s, c, p, item);
    steps := StepFirst(b, Publish(p), [], p);
    steps := StepFirst(a, WriteData(p), steps, p);
    steps := StepFirst(s, ExchangeSucceeds(p), steps, p);
  }

  lemma FreshPush<T>(s: Ring<T>, p: nat) returns (steps: seq<Step<T>>)
    requires Inv(s) && p < |s.producers| && s.producers[p].TailLoaded? && s.producers[p].ticket == s.tail
    requires s.tail - s.Freed() < s.Size()
    ensures Mine(steps, p) && RunFrom(s, steps) && Pushed(s, After(s, steps), p, s.producers[p].item)
  {
    FreshLoadDecides(s, p);
    NextKeepsInv(s, LoadSequence(p));
    var next := Next(s, LoadSequence(p));
    hide Inv, Next, Index;
    steps := WonPush(next, p);
    MovedPushed(s, next, After(next, steps), p);
    steps := StepFirst(s, LoadSequence(p), steps, p);
  }

  lemma MovedPushed<T>(s: Ring<T>, next: Ring<T>, a: Ring<T>, p: nat)
    requires s.Size() > 0 && p < |s.producers| == |next.producers|
    requires !s.producers[p].Resting? && !next.producers[p].Resting?
    requires next == Move(s, p, next.producers[p]) && next.producers[p].item == s.producers[p].item
    requires Pushed(next, a, p, next.producers[p].item)
    ensures Pushed(s, a, p, s.producers[p].item)
  {
    hide Index;
  }

  lemma ReloadedPush<T>(s: Ring<T>, p: nat, step: Step<T>) returns (steps: seq<Step<T>>)
    requires Inv(s) && p < |s.producers| && s.tail - s.Freed() < s.Size()
    requires (s.producers[p].MustReload? && step == ReloadTail(p))
             || (s.producers[p].SlotFree? && step == ExchangeFails(p))
    ensures Mine(steps, p) && RunFrom(s, steps) && Pushed(s, After(s, steps), p, s.producers[p].item)
  {
    NextKeepsInv(s, step);
    var next := Next(s, step);
    assert next.producers[p] == TailLoaded(s.producers[p].item, s.tail);
    assert next == Move(s, p, next.producers[p]) && next.Freed() == s.Freed();
    hide Inv, Next, Index;
    steps := FreshPush(next, p);
    MovedPushed(s, next, After(next, steps), p);
    steps := StepFirst(s, step, steps, p);
  }

  /** What the sequence load of a stale tail leads to: never to giving up. */
  lemma StaleLoad<T>(s: Ring<T>, p: nat)
    requires Inv(s) && Enabled(s, LoadSequence(p)) && s.producers[p].ticket < s.tail
    ensures var item, next := s.producers[p].item, Next(s, LoadSequence(p));
            next == Move(s, p, SlotFree(item, s.producers[p].ticket)) || next == Move(s, p, MustReload(item))
  {
    LoadedByProducer(s, p);
    hide Inv, Index;
  }

  /** From any point of a push before its ticket is won, on a ring that is not full, the producer's
      own steps bring the item in: it is the next one claimed, and published. */
  lemma PushGoesThrough<T>(s: Ring<T>, p: nat) returns (steps: seq<Step<T>>)
    requires Inv(s) && p < |s.producers| && !s.producers[p].Resting? && !s.producers[p].Busy()
    requires s.tail - s.Freed() < s.Size()
    ensures Mine(steps, p) && RunFrom(s, steps) && Pushed(s, After(s, steps), p, s.producers[p].item)
  {
    var me := s.producers[p];
    assert ProducerOk(s, me);
    if me.MustReload? {
      steps := ReloadedPush(s, p, ReloadTail(p));
    } else if me.SlotFree? {
      if me.ticket == s.tail {
        steps := WonPush(s, p);
      } else {
        steps := ReloadedPush(s, p, ExchangeFails(p));
      }
    } else if me.ticket == s.tail {
      steps := FreshPush(s, p);
    } else {
      StaleLoad(s, p);
      NextKeepsInv(s, LoadSequence(p));
      var next := Next(s, LoadSequence(p));
      assert next.Freed() == s.Freed();
      hide Inv, Next, Index;
      if next.producers[p].SlotFree? {
        steps := ReloadedPush(next, p, ExchangeFails(p));
      } else {
        steps := ReloadedPush(next, p, ReloadTail(p));
      }
      MovedPushed(s, next, After(next, steps), p);
      steps := StepFirst(s, LoadSequence(p), steps, p);
    }
  }

  /** In every run: a producer that starts a push on a ring that is not full, or is in the middle of
      one and has no ticket yet, brings its item in by its own steps. */
  lemma PushCompletes<T>(s: Ring<T>, steps: seq<Step<T>>, p: nat, item: T) returns (more: seq<Step<T>>)
    requires Initial(s) && s.Size() >= 2 && RunFrom(s, steps) && p < |s.producers|
    requires var e := After(s, steps);
             && e.tail - e.Freed() < e.Size() && !e.producers[p].Busy()
             && (e.producers[p].Resting? || e.producers[p].item == item)
    ensures Mine(more, p) && RunFrom(After(s, steps), more)
    ensures Pushed(After(s, steps), After(After(s, steps), more), p, item)
  {
    InitialInv(s);
    RunKeepsInv(s, steps);
    var e := After(s, steps);
    if e.producers[p].Resting? {
      NextKeepsInv(e, BeginPush(p, item));
      var next := Next(e, BeginPush(p, item));
      assert next == Move(e, p, TailLoaded(item, e.tail)) && next.Freed() == e.Freed();
      hide Inv, Next, Index;
      more := PushGoesThrough(next, p);
      assert next.producers[p := Resting] == e.producers[p := Resting];
      more := StepFirst(e, BeginPush(p, item), more, p);
    } else {
      more := PushGoesThrough(e, p);
    }
  }

  /** In every run: an item the consumer has found ready is returned by its three remaining steps,
      and nothing else changes but the slot it gives back. */
  lemma PopCompletes<T>(s: Ring<T>, steps: seq<Step<T>>)
    requires Initial(s) && s.Size() >= 2 && RunFrom(s, steps) && After(s, steps).consumer.Ready?
    ensures var e, pop := After(s, steps), [ReadData, ReleaseSlot, AdvanceHead];
            && e.head < |e.claimed| && RunFrom(e, pop)
            && var a := After(e, pop);
               && a.popped == e.popped + [e.claimed[e.head]] && a.head == e.head + 1 && a.consumer == Waiting
               && a.producers == e.producers && a.tail == e.tail && a.claimed == e.claimed
               && a.slots == e.slots[Index(e.head, e.Size()) := At(e.slots, e.head).(sequence := e.head + e.Size())]
  {
    InitialInv(s);
    RunKeepsInv(s, steps);
    PopSteps(After(s, steps));
  }

  lemma PopSteps<T>(e: Ring<T>)
    requires Inv(e) && e.consumer.Ready?
    ensures var pop := [ReadData, ReleaseSlot, AdvanceHead];
            && e.head < |e.claimed| && RunFrom(e, pop)
            && var a := After(e, pop);
               && a.popped == e.popped + [e.claimed[e.head]] && a.head == e.head + 1 && a.consumer == Waiting
               && a.producers == e.producers && a.tail == e.tail && a.claimed == e.claimed
               && a.slots == e.slots[Index(e.head, e.Size()) := At(e.slots, e.head).(sequence := e.head + e.Size())]
  {
    assert At(e.slots, e.head) == Slot(e.head + 1, e.claimed[e.head]);
    hide Index, Inv;
    ThreeSteps(e, ReadData, ReleaseSlot, AdvanceHead);
  }

  lemma ThreeSteps<T>(s: Ring<T>, x: Step<T>, y: Step<T>, z: Step<T>)
    requires Enabled(s, x) && Enabled(Next(s, x), y) && Enabled(Next(Next(s, x), y), z)
    ensures RunFrom(s, [x, y, z]) && After(s, [x, y, z]) == Next(Next(Next(s, x), y), z)
  {
    hide Enabled, Next;
    assert [x, y, z][1..] == [y, z] && [y, z][1..] == [z] && [z][1..] == [];
    var c := Next(Next(Next(s, x), y), z);
    assert RunFrom(c, []) && After(c, []) == c;
    assert RunFrom(Next(Next(s, x), y), [z]) && After(Next(Next(s, x), y), [z]) == c;
    assert RunFrom(Next(s, x), [y, z]) && After(Next(s, x), [y, z]) == c;
  }

  // ---- one slot is not enough -----------------------------------------------

  /** A single-slot ring with one producer, at the given point of the scenario. */
  function Single(slot: Slot<int>, head: nat, tail: nat, producer: Producer<int>, consumer: Consumer<int>,
                  claimed: seq<int>, popped: seq<int>): Ring<int>
  {
    Ring([slot], head, tail, [producer], consumer, claimed, popped)
  }

  lemma OneStep(s: Ring<int>, step: Step<int>, next: Ring<int>, rest: seq<Step<int>>) returns (steps: seq<Step<int>>)
    requires Enabled(s, step) && Next(s, step) == next && RunFrom(next, rest)
    ensures steps == [step] + rest && RunFrom(s, steps) && After(s, steps) == After(next, rest)
  {
    steps := [step] + rest;
    assert steps[1..] == rest;
  }

  /** The first push runs to completion. */
  lemma SingleFirstPush(rest: seq<Step<int>>) returns (steps: seq<Step<int>>)
    requires RunFrom(Single(Slot(1, 10), 0, 1, Resting, Waiting, [10], []), rest)
    ensures var s := Single(Slot(0, 0), 0, 0, Resting, Waiting, [], []);
            RunFrom(s, steps) && After(s, steps) == After(Single(Slot(1, 10), 0, 1, Resting, Waiting, [10], []), rest)
  {
    hide Index, RunFrom, After;
    var s5 := Single(Slot(1, 10), 0, 1, Resting, Waiting, [10], []);
    var s4 := Single(Slot(0, 10), 0, 1, Written(10, 0), Waiting, [10], []);
    var s3 := Single(Slot(0, 0), 0, 1, Claimed(10, 0), Waiting, [10], []);
    var s2 := Single(Slot(0, 0), 0, 0, SlotFree(10, 0), Waiting, [], []);
    var s1 := Single(Slot(0, 0), 0, 0, TailLoaded(10, 0), Waiting, [], []);
    steps := OneStep(s4, Publish(0), s5, rest);
    steps := OneStep(s3, WriteData(0), s4, steps);
    steps := OneStep(s2, ExchangeSucceeds(0), s3, steps);
    steps := OneStep(s1, LoadSequence(0), s2, steps);
    steps := OneStep(Single(Slot(0, 0), 0, 0, Resting, Waiting, [], []), BeginPush(0, 10), s1, steps);
  }

  /** The filled slot's sequence equals the next ticket, so a second push claims and overwrites it. */
  lemma SingleSecondPush(rest: seq<Step<int>>) returns (steps: seq<Step<int>>)
    requires RunFrom(Single(Slot(1, 20), 0, 2, Written(20, 1), Waiting, [10, 20], []), rest)
    ensures var s := Single(Slot(1, 10), 0, 1, Resting, Waiting, [10], []);
            && RunFrom(s, steps)
            && After(s, steps) == After(Single(Slot(1, 20), 0, 2, Written(20, 1), Waiting, [10, 20], []), rest)
  {
    hide Index, RunFrom, After;
    var s4 := Single(Slot(1, 20), 0, 2, Written(20, 1), Waiting, [10, 20], []);
    var s3 := Single(Slot(1, 10), 0, 2, Claimed(20, 1), Waiting, [10, 20], []);
    var s2 := Single(Slot(1, 10), 0, 1, SlotFree(20, 1), Waiting, [10], []);
    var s1 := Single(Slot(1, 10), 0, 1, TailLoaded(20, 1), Waiting, [10], []);
    steps := OneStep(s3, WriteData(0), s4, rest);
    steps := OneStep(s2, ExchangeSucceeds(0), s3, steps);
    steps := OneStep(s1, LoadSequence(0), s2, steps);
    steps := OneStep(Single(Slot(1, 10), 0, 1, Resting, Waiting, [10], []), BeginPush(0, 20), s1, steps);
  }

  lemma SinglePop() returns (steps: seq<Step<int>>)
    ensures var s := Single(Slot(1, 20), 0, 2, Written(20, 1), Waiting, [10, 20], []);
            && RunFrom(s, steps)
            && After(s, steps) == Single(Slot(1, 20), 1, 2, Written(20, 1), Waiting, [10, 20], [20])
  {
    hide Index;
    var p, c := Written(20, 1), [10, 20];
    steps := OneStep(Single(Slot(1, 20), 0, 2, p, Released(20), c, []), AdvanceHead,
                     Single(Slot(1, 20), 1, 2, p, Waiting, c, [20]), []);
    steps := OneStep(Single(Slot(1, 20), 0, 2, p, HasRead(20), c, []), ReleaseSlot,
                     Single(Slot(1, 20), 0, 2, p, Released(20), c, []), steps);
    steps := OneStep(Single(Slot(1, 20), 0, 2, p, Ready, c, []), ReadData,
                     Single(Slot(1, 20), 0, 2, p, HasRead(20), c, []), steps);
    steps := OneStep(Single(Slot(1, 20), 0, 2, p, Waiting, c, []), CheckHead,
                     Single(Slot(1, 20), 0, 2, p, Ready, c, []), steps);
  }

  /** With a single slot, which the static assertion admits, the first pop returns the second item. */
  lemma OneSlotLosesOrder() returns (s: Ring<int>, steps: seq<Step<int>>)
    ensures Initial(s) && s.Size() == 1 && RunFrom(s, steps)
    ensures After(s, steps).claimed == [10, 20] && After(s, steps).popped == [20]
  {
    hide RunFrom, After;
    s := Single(Slot(0, 0), 0, 0, Resting, Waiting, [], []);
    steps := SinglePop();
    steps := SingleSecondPush(steps);
    steps := SingleFirstPush(steps);
  }

  /** Ticket order holds in all runs of a ring of the given size. */
  ghost predicate OrderedForSize(size: nat) {
    forall s: Ring<int>, steps: seq<Step<int>> | Initial(s) && s.Size() == size && RunFrom(s, steps) ::
      After(s, steps).popped <= After(s, steps).claimed
  }

  /** The sizes for which the ring is a queue are exactly those of at least two slots. */
  lemma OrderedIffTwoSlots(size: nat)
    requires size > 0
    ensures OrderedForSize(size) <==> size >= 2
  {
    if size >= 2 {
      forall s: Ring<int>, steps: seq<Step<int>> | Initial(s) && s.Size() == size && RunFrom(s, steps)
        ensures After(s, steps).popped <= After(s, steps).claimed
      {
        PopsInTicketOrder(s, steps);
      }
    } else {
      var s, steps := OneSlotLosesOrder();
      assert After(s, steps).popped[0] != After(s, steps).claimed[0];
    }
  }
}
