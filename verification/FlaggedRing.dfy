/** The single-producer single-consumer queue with a ready flag per slot. */
module FlaggedRing {
  import opened Modular
  import opened BoundedFifo

  datatype Producer<T> =
    | Resting
    | Room(item: T)      // the head was seen not to be next
    | Valued(item: T)    // the slot's value has been stored
    | Flagged(item: T)   // the slot's ready flag has been set

  datatype Consumer<T> =
    | Waiting
    | NotEmpty           // the tail was seen to differ from the head
    | Ready              // the slot's ready flag was seen set
    | Holding(value: T)
    | Cleared(value: T)  // the slot's ready flag has been cleared

  datatype Element<T> = Element(value: T, ready: bool)

  /** The last two fields record history: all items ever published and how many were taken. */
  datatype Ring<T> = Ring(
    buffer: seq<Element<T>>, head: nat, tail: nat,
    producer: Producer<T>, consumer: Consumer<T>,
    published: seq<T>, taken: nat)
  {
    function Capacity(): nat { |buffer| }

    function Queue(): seq<T>
      requires taken <= |published|
    {
      published[taken..]
    }
  }

  datatype Step<T> =
    | BeginPush(item: T) | WriteValue | SetReady | PublishTail
    | CheckTail | CheckReady | ReadValue | ClearReady | PublishHead

  ghost predicate Initial<T>(s: Ring<T>) {
    && s.Capacity() > 0 && s.head == s.tail == 0
    && (forall i :: 0 <= i < s.Capacity() ==> !s.buffer[i].ready)
    && s.producer == Resting && s.consumer == Waiting
    && s.published == [] && s.taken == 0
  }

  predicate Enabled<T>(s: Ring<T>, step: Step<T>) {
    && s.Capacity() > 0 && s.head < s.Capacity() && s.tail < s.Capacity()
    && match step
       case BeginPush(_) => s.producer.Resting?
       case WriteValue => s.producer.Room?
       case SetReady => s.producer.Valued?
       case PublishTail => s.producer.Flagged?
       case CheckTail => s.consumer.Waiting?
       case CheckReady => s.consumer.NotEmpty?
       case ReadValue => s.consumer.Ready?
       case ClearReady => s.consumer.Holding?
       case PublishHead => s.consumer.Cleared?
  }

  function Next<T>(s: Ring<T>, step: Step<T>): (r: (Ring<T>, Event<T>))
    requires Enabled(s, step)
    ensures r.0.Capacity() == s.Capacity()
  {
    var nextTail := Advance(s.tail, s.Capacity());
    match step
    case BeginPush(item) =>
      if nextTail == s.head then (s, Full) else (s.(producer := Room(item)), Quiet)
    case WriteValue =>
      (s.(buffer := s.buffer[s.tail := s.buffer[s.tail].(value := s.producer.item)],
          producer := Valued(s.producer.item)), Quiet)
    case SetReady =>
      (s.(buffer := s.buffer[s.tail := s.buffer[s.tail].(ready := true)],
          producer := Flagged(s.producer.item)), Quiet)
    case PublishTail =>
      (s.(tail := nextTail, producer := Resting, published := s.published + [s.producer.item]), Put(s.producer.item))
    case CheckTail => if s.head == s.tail then (s, Empty) else (s.(consumer := NotEmpty), Quiet)
    case CheckReady =>
      if !s.buffer[s.head].ready then (s.(consumer := Waiting), Empty) else (s.(consumer := Ready), Quiet)
    case ReadValue => (s.(consumer := Holding(s.buffer[s.head].value)), Quiet)
    case ClearReady =>
      (s.(buffer := s.buffer[s.head := s.buffer[s.head].(ready := false)],
          consumer := Cleared(s.consumer.value)), Quiet)
    case PublishHead =>
      (s.(head := Advance(s.head, s.Capacity()), consumer := Waiting, taken := s.taken + 1), Take(s.consumer.value))
  }

  // ---- the invariant --------------------------------------------------------

  ghost predicate IndicesOk<T>(s: Ring<T>) {
    && s.Capacity() > 0
    && s.taken <= |s.published| < s.taken + s.Capacity()
    && s.head == Index(s.taken, s.Capacity())
    && s.tail == Index(|s.published|, s.Capacity())
  }

  /** Live slots hold their item and are flagged, but for the one the consumer has just cleared. */
  ghost predicate SlotsOk<T>(s: Ring<T>)
    requires s.Capacity() > 0
  {
    forall k: nat :: s.taken <= k < |s.published| ==>
      && s.buffer[Index(k, s.Capacity())].value == s.published[k]
      && (s.buffer[Index(k, s.Capacity())].ready <==> !(k == s.taken && s.consumer.Cleared?))
  }

  ghost predicate ThreadsOk<T>(s: Ring<T>)
    requires IndicesOk(s)
  {
    && (!s.producer.Resting? ==> |s.published| + 1 < s.taken + s.Capacity())
    && (s.producer.Valued? || s.producer.Flagged? ==> s.buffer[s.tail].value == s.producer.item)
    && (s.producer.Flagged? ==> s.buffer[s.tail].ready)
    && (!s.consumer.Waiting? ==> s.taken < |s.published|)
    && (s.consumer.Holding? || s.consumer.Cleared? ==> s.consumer.value == s.published[s.taken])
  }

  ghost predicate Inv<T>(s: Ring<T>) {
    IndicesOk(s) && SlotsOk(s) && ThreadsOk(s)
  }

  /** The slots of different outstanding items, and the tail slot, are all different. */
  lemma SlotsDiffer<T>(s: Ring<T>, j: nat)
    requires IndicesOk(s) && s.taken <= j <= |s.published|
    ensures forall k: nat :: s.taken <= k <= |s.published| && k != j ==>
              Index(k, s.Capacity()) != Index(j, s.Capacity())
  {
    forall k: nat | s.taken <= k <= |s.published| && k != j ensures Index(k, s.Capacity()) != Index(j, s.Capacity()) {
      ModDistinct(j, k, s.taken, s.Capacity());
    }
  }

  lemma InitialInv<T>(s: Ring<T>)
    requires Initial(s)
    ensures Inv(s)
  {
    ModSmall(0, s.Capacity());
  }

  lemma ProducerStepRefines<T>(s: Ring<T>, step: Step<T>)
    requires Inv(s) && Enabled(s, step)
    requires step.BeginPush? || step.WriteValue? || step.SetReady? || step.PublishTail?
    ensures Inv(Next(s, step).0)
    ensures Allows(s.Queue(), Next(s, step).1, Next(s, step).0.Queue(), s.Capacity() - 1)
  {
    hide Index, Advance;
    var after := Next(s, step).0;
    SlotsDiffer(s, |s.published|);
    AdvanceIndex(|s.published|, s.Capacity());
    IndicesMeet(s.taken, |s.published| + 1, s.Capacity());
    if step.PublishTail? {
      assert after.published[after.taken..] == s.published[s.taken..] + [s.producer.item];
    }
  }

  lemma ConsumerStepRefines<T>(s: Ring<T>, step: Step<T>)
    requires Inv(s) && Enabled(s, step)
    requires step.CheckTail? || step.CheckReady? || step.ReadValue? || step.ClearReady? || step.PublishHead?
    ensures Inv(Next(s, step).0)
    ensures Allows(s.Queue(), Next(s, step).1, Next(s, step).0.Queue(), s.Capacity() - 1)
  {
    hide Index, Advance;
    SlotsDiffer(s, s.taken);
    AdvanceIndex(s.taken, s.Capacity());
    IndicesMeet(s.taken, |s.published|, s.Capacity());
    if step.PublishHead? {
      assert s.published[s.taken + 1..] == s.published[s.taken..][1..];
    }
  }

  lemma StepRefines<T>(s: Ring<T>, step: Step<T>)
    requires Inv(s) && Enabled(s, step)
    ensures Inv(Next(s, step).0)
    ensures Allows(s.Queue(), Next(s, step).1, Next(s, step).0.Queue(), s.Capacity() - 1)
  {
    if step.BeginPush? || step.WriteValue? || step.SetReady? || step.PublishTail? {
      ProducerStepRefines(s, step);
    } else {
      ConsumerStepRefines(s, step);
    }
  }

  // ---- runs -----------------------------------------------------------------

  predicate RunFrom<T>(s: Ring<T>, steps: seq<Step<T>>)
    decreases |steps|
  {
    steps == [] || (Enabled(s, steps[0]) && RunFrom(Next(s, steps[0]).0, steps[1..]))
  }

  function Run<T>(s: Ring<T>, steps: seq<Step<T>>): (r: (Ring<T>, seq<Event<T>>))
    requires RunFrom(s, steps)
    ensures r.0.Capacity() == s.Capacity()
    decreases |steps|
  {
    if steps == [] then (s, [])
    else
      var (t, e) := Next(s, steps[0]);
      var (u, trace) := Run(t, steps[1..]);
      (u, [e] + trace)
  }

  lemma {:induction false} RunRefines<T>(s: Ring<T>, steps: seq<Step<T>>)
    requires Inv(s) && RunFrom(s, steps)
    ensures Inv(Run(s, steps).0)
    ensures Accepts(s.Queue(), Run(s, steps).1, Run(s, steps).0.Queue(), s.Capacity() - 1)
    decreases |steps|
  {
    hide Next, Enabled, SlotsOk, ThreadsOk, Possible, Effect;
    if steps != [] {
      StepRefines(s, steps[0]);
      var (t, e) := Next(s, steps[0]);
      RunRefines(t, steps[1..]);
      assert Run(s, steps).1[1..] == Run(t, steps[1..]).1;
    }
  }

  /** Every run refines the queue of capacity N - 1; items come out once each and in order. */
  lemma RingIsFifo<T>(s: Ring<T>, steps: seq<Step<T>>)
    requires Initial(s) && RunFrom(s, steps)
    ensures var (e, trace) := Run(s, steps);
            && e.taken <= |e.published|
            && Accepts([], trace, e.Queue(), e.Capacity() - 1)
            && Puts(trace) == Takes(trace) + e.Queue()
  {
    InitialInv(s);
    RunRefines(s, steps);
    var (e, trace) := Run(s, steps);
    AcceptedConserves([], trace, e.Queue(), e.Capacity() - 1);
    assert [] + Puts(trace) == Puts(trace);
  }

  /** In every run, once the head was seen to differ from the tail the slot is ready: the
      not-ready branch of try_pop is dead. */
  lemma NotReadyIsUnreachable<T>(s: Ring<T>, steps: seq<Step<T>>)
    requires Initial(s) && RunFrom(s, steps)
    requires Enabled(Run(s, steps).0, CheckReady)
    ensures Next(Run(s, steps).0, CheckReady).0.consumer.Ready?
  {
    InitialInv(s);
    RunRefines(s, steps);
  }

  // ---- every call comes to its end ------------------------------------------

  /** In every run, whatever the step: a push ends only by showing the Put of the item it began with,
      is refused at its start exactly when N - 1 items are queued, and keeps its item. */
  lemma PushEnds<T>(s: Ring<T>, steps: seq<Step<T>>, step: Step<T>)
    requires Initial(s) && RunFrom(s, steps) && Enabled(Run(s, steps).0, step)
    ensures var e := Run(s, steps).0;
            var (t, event) := Next(e, step);
            && e.taken <= |e.published|
            && (!e.producer.Resting? && t.producer.Resting? ==> event == Put(e.producer.item))
            && (!e.producer.Resting? && !t.producer.Resting? ==> t.producer.item == e.producer.item)
            && (e.producer.Resting? && !t.producer.Resting? ==> step == BeginPush(t.producer.item))
            && (step.BeginPush? ==> (event == Full <==> |e.Queue()| == s.Capacity() - 1))
            && (step.BeginPush? ==> (t.producer.Resting? <==> event == Full))
  {
    InitialInv(s);
    RunRefines(s, steps);
    var e := Run(s, steps).0;
    hide Index, Advance, SlotsOk;
    AdvanceIndex(|e.published|, e.Capacity());
    IndicesMeet(e.taken, |e.published| + 1, e.Capacity());
  }

  /** In every run: the consumer finds nothing exactly when nothing is queued, and comes back from
      what it has found only with the front item. */
  lemma PopEnds<T>(s: Ring<T>, steps: seq<Step<T>>, step: Step<T>)
    requires Initial(s) && RunFrom(s, steps) && Enabled(Run(s, steps).0, step)
    ensures var e := Run(s, steps).0;
            var (t, event) := Next(e, step);
            && e.taken <= |e.published|
            && (step == CheckTail ==> (event == Empty <==> e.Queue() == []))
            && (step == CheckTail ==> (t.consumer.Waiting? <==> e.Queue() == []))
            && (!e.consumer.Waiting? && t.consumer.Waiting? ==> e.Queue() != [] && event == Take(e.Queue()[0]))
  {
    InitialInv(s);
    RunRefines(s, steps);
    var e := Run(s, steps).0;
    IndicesMeet(e.taken, |e.published|, e.Capacity());
    if step == CheckReady {
      assert e.buffer[Index(e.taken, e.Capacity())].ready;
    }
    hide Index, Advance;
  }

  lemma RunFirst<T>(s: Ring<T>, step: Step<T>, rest: seq<Step<T>>)
    requires Enabled(s, step) && RunFrom(Next(s, step).0, rest)
    ensures RunFrom(s, [step] + rest)
    ensures var (t, e) := Next(s, step);
            Run(s, [step] + rest) == (Run(t, rest).0, [e] + Run(t, rest).1)
  {
    assert ([step] + rest)[1..] == rest;
    hide Enabled, Next;
  }

  lemma RunOne<T>(s: Ring<T>, step: Step<T>)
    requires Enabled(s, step)
    ensures RunFrom(s, [step]) && Run(s, [step]) == (Next(s, step).0, [Next(s, step).1])
  {
    hide Enabled, Next;
    var (t, e) := Next(s, step);
    assert RunFrom(t, []) && Run(t, []) == (t, []);
    RunFirst(s, step, []);
    assert [step] + [] == [step] && [e] + [] == [e];
  }

  /** What a push of `item` that was not refused has done when it has ended. */
  ghost predicate Pushes<T>(s: Ring<T>, r: (Ring<T>, seq<Event<T>>), item: T) {
    var (e, trace) := r;
    && e.producer.Resting? && e.consumer == s.consumer && e.taken == s.taken && e.head == s.head
    && e.published == s.published + [item] && Puts(trace) == [item]
  }

  lemma PushesFirst<T>(s: Ring<T>, step: Step<T>, rest: seq<Step<T>>, item: T)
    requires Enabled(s, step) && RunFrom(Next(s, step).0, rest)
    requires var (t, e) := Next(s, step);
             && e == Quiet && t.published == s.published && t.taken == s.taken
             && t.head == s.head && t.consumer == s.consumer
             && Pushes(t, Run(t, rest), item)
    ensures RunFrom(s, [step] + rest) && Pushes(s, Run(s, [step] + rest), item)
  {
    RunFirst(s, step, rest);
    hide Enabled, Next, Run;
    var trace := Run(Next(s, step).0, rest).1;
    assert ([Quiet] + trace)[1..] == trace && [] + Puts(trace) == Puts(trace);
  }

  /** The producer's remaining steps from any point of a push. */
  lemma FinishPush<T>(s: Ring<T>) returns (steps: seq<Step<T>>)
    requires Inv(s) && !s.producer.Resting?
    ensures forall k :: 0 <= k < |steps| ==> steps[k].WriteValue? || steps[k].SetReady? || steps[k].PublishTail?
    ensures RunFrom(s, steps) && Pushes(s, Run(s, steps), s.producer.item)
    decreases if s.producer.Room? then 2 else if s.producer.Valued? then 1 else 0
  {
    var step: Step<T> := if s.producer.Room? then WriteValue else if s.producer.Valued? then SetReady else PublishTail;
    var (t, e) := Next(s, step);
    if s.producer.Flagged? {
      steps := [step];
      RunOne(s, step);
      assert [e][1..] == [] && Puts([e]) == [s.producer.item];
      hide Index, Advance;
    } else {
      ProducerStepRefines(s, step);
      hide Index, Advance, Run, RunFrom, Pushes, Inv;
      var rest := FinishPush(t);
      PushesFirst(s, step, rest, s.producer.item);
      steps := [step] + rest;
    }
  }

  /** In every run a push, begun or about to begin on a queue of fewer than N - 1 items, is brought to
      its end by the producer's own steps: the item is put into the queue. */
  lemma PushCompletes<T>(s: Ring<T>, steps: seq<Step<T>>, item: T) returns (more: seq<Step<T>>)
    requires Initial(s) && RunFrom(s, steps)
    requires var e := Run(s, steps).0;
             if e.producer.Resting? then |e.published| - e.taken < s.Capacity() - 1 else e.producer.item == item
    ensures RunFrom(Run(s, steps).0, more) && Pushes(Run(s, steps).0, Run(Run(s, steps).0, more), item)
  {
    InitialInv(s);
    RunRefines(s, steps);
    var e := Run(s, steps).0;
    if e.producer.Resting? {
      BeginNotFull(e, item);
      ProducerStepRefines(e, BeginPush(item));
      var t := Next(e, BeginPush(item)).0;
      hide Index, Advance, Run, RunFrom, Pushes, Inv;
      var rest := FinishPush(t);
      PushesFirst(e, BeginPush(item), rest, item);
      more := [BeginPush(item)] + rest;
    } else {
      more := FinishPush(e);
    }
  }

  lemma BeginNotFull<T>(e: Ring<T>, item: T)
    requires Inv(e) && e.producer.Resting? && |e.Queue()| < e.Capacity() - 1
    ensures Next(e, BeginPush(item)) == (e.(producer := Room(item)), Quiet)
  {
    hide Index, Advance, SlotsOk;
    AdvanceIndex(|e.published|, e.Capacity());
    IndicesMeet(e.taken, |e.published| + 1, e.Capacity());
  }

  /** In every run a waiting consumer's own steps return the front item, and refuse exactly when the
      queue is empty. */
  lemma PopCompletes<T>(s: Ring<T>, steps: seq<Step<T>>) returns (more: seq<Step<T>>)
    requires Initial(s) && RunFrom(s, steps) && Run(s, steps).0.consumer.Waiting?
    ensures var e := Run(s, steps).0;
            && e.taken <= |e.published| && RunFrom(e, more)
            && var (a, trace) := Run(e, more);
               && a.producer == e.producer && a.published == e.published && a.tail == e.tail && a.consumer.Waiting?
               && (if e.Queue() == [] then more == [CheckTail] && trace == [Empty] && a == e
                   else more == [CheckTail, CheckReady, ReadValue, ClearReady, PublishHead]
                        && trace == [Quiet, Quiet, Quiet, Quiet, Take(e.Queue()[0])] && a.taken == e.taken + 1)
  {
    InitialInv(s);
    RunRefines(s, steps);
    more := PopSteps(Run(s, steps).0);
  }

  lemma PopSteps<T>(e: Ring<T>) returns (more: seq<Step<T>>)
    requires Inv(e) && e.consumer.Waiting?
    ensures RunFrom(e, more)
    ensures var (a, trace) := Run(e, more);
            && a.producer == e.producer && a.published == e.published && a.tail == e.tail && a.consumer.Waiting?
            && (if e.Queue() == [] then more == [CheckTail] && trace == [Empty] && a == e
                else more == [CheckTail, CheckReady, ReadValue, ClearReady, PublishHead]
                     && trace == [Quiet, Quiet, Quiet, Quiet, Take(e.Queue()[0])] && a.taken == e.taken + 1)
  {
    IndicesMeet(e.taken, |e.published|, e.Capacity());
    assert e.Queue() != [] ==> e.buffer[e.head] == Element(e.Queue()[0], true);
    hide Index, Advance, Inv;
    if e.Queue() == [] {
      more := [CheckTail];
      RunOne(e, CheckTail);
    } else {
      var t := Next(e, CheckTail).0;
      var u := Next(t, CheckReady).0;
      var v := Next(u, ReadValue).0;
      var w := Next(v, ClearReady).0;
      RunOne(w, PublishHead);
      RunFirst(v, ClearReady, [PublishHead]);
      RunFirst(u, ReadValue, [ClearReady] + [PublishHead]);
      RunFirst(t, CheckReady, [ReadValue] + ([ClearReady] + [PublishHead]));
      RunFirst(e, CheckTail, [CheckReady] + ([ReadValue] + ([ClearReady] + [PublishHead])));
      more := [CheckTail] + ([CheckReady] + ([ReadValue] + ([ClearReady] + [PublishHead])));
      assert more == [CheckTail, CheckReady, ReadValue, ClearReady, PublishHead];
    }
  }
}
