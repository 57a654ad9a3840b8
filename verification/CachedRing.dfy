/** The single-producer single-consumer ring whose producer keeps a cached copy of the head:
    wrapped indices, one slot left unused, steps interleaved in any order. */
module CachedRing {
  import opened Modular
  import opened BoundedFifo

  datatype Producer<T> =
    | Resting
    | Refresh(item: T)       // the cached head says full
    | Room(item: T)          // a free slot has been established
    | Constructed(item: T)   // the item sits in the slot at the tail

  datatype Consumer<T> = Waiting | Ready | Holding(value: T)

  /** The last three fields record history: all items ever published, and how many had been
      taken when the head, respectively the cached head, was stored. */
  datatype Ring<T> = Ring(
    buffer: seq<T>, head: nat, tail: nat, cachedHead: nat,
    producer: Producer<T>, consumer: Consumer<T>,
    published: seq<T>, taken: nat, takenAtCache: nat)
  {
    function Capacity(): nat { |buffer| }

    /** The queue the ring stands for. */
    function Queue(): seq<T>
      requires taken <= |published|
    {
      published[taken..]
    }
  }

  datatype Step<T> = BeginEnqueue(item: T) | ReadHead | Construct | PublishTail | CheckTail | TakeItem | PublishHead

  ghost predicate Initial<T>(s: Ring<T>) {
    && s.Capacity() > 0 && s.head == s.tail == s.cachedHead == 0
    && s.producer == Resting && s.consumer == Waiting
    && s.published == [] && s.taken == s.takenAtCache == 0
  }

  predicate Enabled<T>(s: Ring<T>, step: Step<T>) {
    && s.Capacity() > 0 && s.head < s.Capacity() && s.tail < s.Capacity()
    && match step
       case BeginEnqueue(_) => s.producer.Resting?
       case ReadHead => s.producer.Refresh?
       case Construct => s.producer.Room?
       case PublishTail => s.producer.Constructed?
       case CheckTail => s.consumer.Waiting?
       case TakeItem => s.consumer.Ready?
       case PublishHead => s.consumer.Holding?
  }

  /** A step's effect and what it shows. */
  function Next<T>(s: Ring<T>, step: Step<T>): (r: (Ring<T>, Event<T>))
    requires Enabled(s, step)
    ensures r.0.Capacity() == s.Capacity()
  {
    var nextTail := Advance(s.tail, s.Capacity());
    match step
    case BeginEnqueue(item) =>
      (s.(producer := if nextTail == s.cachedHead then Refresh(item) else Room(item)), Quiet)
    case ReadHead =>
      var t := s.(cachedHead := s.head, takenAtCache := s.taken);
      if nextTail == s.head then (t.(producer := Resting), Full) else (t.(producer := Room(s.producer.item)), Quiet)
    case Construct =>
      (s.(buffer := s.buffer[s.tail := s.producer.item], producer := Constructed(s.producer.item)), Quiet)
    case PublishTail =>
      (s.(tail := nextTail, producer := Resting, published := s.published + [s.producer.item]), Put(s.producer.item))
    case CheckTail => if s.head == s.tail then (s, Empty) else (s.(consumer := Ready), Quiet)
    case TakeItem => (s.(consumer := Holding(s.buffer[s.head])), Quiet)
    case PublishHead =>
      (s.(head := Advance(s.head, s.Capacity()), consumer := Waiting, taken := s.taken + 1), Take(s.consumer.value))
  }

  // ---- the invariant --------------------------------------------------------

  /** Indices are the wrapped histories; the cached head lags the head, and never lets more than
      capacity - 1 items be outstanding. */
  ghost predicate IndicesOk<T>(s: Ring<T>) {
    && s.Capacity() > 0
    && s.takenAtCache <= s.taken <= |s.published| < s.takenAtCache + s.Capacity()
    && s.head == Index(s.taken, s.Capacity())
    && s.tail == Index(|s.published|, s.Capacity())
    && s.cachedHead == Index(s.takenAtCache, s.Capacity())
  }

  ghost predicate SlotsOk<T>(s: Ring<T>)
    requires s.Capacity() > 0
  {
    forall k: nat :: s.taken <= k < |s.published| ==> s.buffer[Index(k, s.Capacity())] == s.published[k]
  }

  ghost predicate ThreadsOk<T>(s: Ring<T>)
    requires IndicesOk(s)
  {
    && (s.producer.Room? || s.producer.Constructed? ==> |s.published| + 1 < s.takenAtCache + s.Capacity())
    && (s.producer.Constructed? ==> s.buffer[s.tail] == s.producer.item)
    && (!s.consumer.Waiting? ==> s.taken < |s.published|)
    && (s.consumer.Holding? ==> s.consumer.value == s.published[s.taken])
  }

  ghost predicate Inv<T>(s: Ring<T>) {
    IndicesOk(s) && SlotsOk(s) && ThreadsOk(s)
  }

  /** The producer's slot is never one that holds a live item, however stale the cached head. */
  lemma TailSlotIsFree<T>(s: Ring<T>, k: nat)
    requires Inv(s) && s.taken <= k < |s.published|
    ensures Index(k, s.Capacity()) != s.tail
  {
    ModDistinct(k, |s.published|, s.takenAtCache, s.Capacity());
  }

  lemma InitialInv<T>(s: Ring<T>)
    requires Initial(s)
    ensures Inv(s)
  {
    ModSmall(0, s.Capacity());
  }

  lemma BeginRefines<T>(s: Ring<T>, item: T)
    requires Inv(s) && Enabled(s, BeginEnqueue(item))
    ensures Inv(Next(s, BeginEnqueue(item)).0)
  {
    hide Index, Advance;
    AdvanceIndex(|s.published|, s.Capacity());
    IndicesMeet(s.takenAtCache, |s.published| + 1, s.Capacity());
  }

  lemma ReadHeadRefines<T>(s: Ring<T>)
    requires Inv(s) && Enabled(s, ReadHead)
    ensures Inv(Next(s, ReadHead).0)
    ensures Next(s, ReadHead).1.Full? ==> |s.Queue()| == s.Capacity() - 1
  {
    hide Index, Advance;
    AdvanceIndex(|s.published|, s.Capacity());
    IndicesMeet(s.taken, |s.published| + 1, s.Capacity());
  }

  lemma ConstructRefines<T>(s: Ring<T>)
    requires Inv(s) && Enabled(s, Construct)
    ensures Inv(Next(s, Construct).0)
  {
    hide Index, Advance;
    forall k: nat | s.taken <= k < |s.published| ensures Index(k, s.Capacity()) != s.tail {
      TailSlotIsFree(s, k);
    }
  }

  lemma PublishTailRefines<T>(s: Ring<T>)
    requires Inv(s) && Enabled(s, PublishTail)
    ensures Inv(Next(s, PublishTail).0)
    ensures Next(s, PublishTail).0.Queue() == s.Queue() + [s.producer.item] && |s.Queue()| < s.Capacity() - 1
  {
    hide Index, Advance;
    AdvanceIndex(|s.published|, s.Capacity());
    var after := Next(s, PublishTail).0;
    assert after.published[after.taken..] == s.published[s.taken..] + [s.producer.item];
  }

  lemma CheckTailRefines<T>(s: Ring<T>)
    requires Inv(s) && Enabled(s, CheckTail)
    ensures Inv(Next(s, CheckTail).0)
    ensures Next(s, CheckTail).1.Empty? ==> s.Queue() == []
  {
    hide Index, Advance;
    IndicesMeet(s.taken, |s.published|, s.Capacity());
  }

  lemma TakeItemRefines<T>(s: Ring<T>)
    requires Inv(s) && Enabled(s, TakeItem)
    ensures Inv(Next(s, TakeItem).0)
    ensures Next(s, TakeItem).0.consumer.value == s.Queue()[0]
  {
    hide Index, Advance;
    assert s.buffer[Index(s.taken, s.Capacity())] == s.published[s.taken];
  }

  lemma PublishHeadRefines<T>(s: Ring<T>)
    requires Inv(s) && Enabled(s, PublishHead)
    ensures Inv(Next(s, PublishHead).0)
    ensures s.Queue() != [] && s.consumer.value == s.Queue()[0] && Next(s, PublishHead).0.Queue() == s.Queue()[1..]
  {
    hide Index, Advance;
    AdvanceIndex(s.taken, s.Capacity());
    assert s.published[s.taken + 1..] == s.published[s.taken..][1..];
  }

  /** Every step is a step of a queue of capacity - 1, or invisible. */
  lemma StepRefines<T>(s: Ring<T>, step: Step<T>)
    requires Inv(s) && Enabled(s, step)
    ensures Inv(Next(s, step).0)
    ensures Allows(s.Queue(), Next(s, step).1, Next(s, step).0.Queue(), s.Capacity() - 1)
  {
    hide Index, Advance, SlotsOk;
    match step
    case BeginEnqueue(item) => BeginRefines(s, item);
    case ReadHead => ReadHeadRefines(s);
    case Construct => ConstructRefines(s);
    case PublishTail => PublishTailRefines(s);
    case CheckTail => CheckTailRefines(s);
    case TakeItem => TakeItemRefines(s);
    case PublishHead => PublishHeadRefines(s);
  }

  // ---- runs -----------------------------------------------------------------

  predicate RunFrom<T>(s: Ring<T>, steps: seq<Step<T>>)
    decreases |steps|
  {
    steps == [] || (Enabled(s, steps[0]) && RunFrom(Next(s, steps[0]).0, steps[1..]))
  }

  /** The final state of a run and the trace it shows. */
  function Run<T>(s: Ring<T>, steps: seq<Step<T>>): (r: (Ring<T>, seq<Event<T>>))
    requires RunFrom(s, steps)
    ensures r.0.Capacity() == s.Capacity()
    decreases |steps|
  {
    if steps == [] then (s, [])
    else
      var (t, e) := Next(s, steps[0]);
      var (u, trace) := Run(t, steps[1..]);
      (u, [e] + trace)
  }

  lemma {:induction false} RunRefines<T>(s: Ring<T>, steps: seq<Step<T>>)
    requires Inv(s) && RunFrom(s, steps)
    ensures Inv(Run(s, steps).0)
    ensures Accepts(s.Queue(), Run(s, steps).1, Run(s, steps).0.Queue(), s.Capacity() - 1)
    decreases |steps|
  {
    hide Next, Enabled, SlotsOk, ThreadsOk, Possible, Effect;
    if steps != [] {
      StepRefines(s, steps[0]);
      var (t, e) := Next(s, steps[0]);
      RunRefines(t, steps[1..]);
      var trace := Run(s, steps).1;
      assert trace[1..] == Run(t, steps[1..]).1;
    }
  }

  /** Every run refines the queue of capacity N - 1; items come out once each and in order, and
      the cached head never runs ahead of the head. */
  lemma RingIsFifo<T>(s: Ring<T>, steps: seq<Step<T>>)
    requires Initial(s) && RunFrom(s, steps)
    ensures var (e, trace) := Run(s, steps);
            && e.taken <= |e.published|
            && Accepts([], trace, e.Queue(), e.Capacity() - 1)
            && Puts(trace) == Takes(trace) + e.Queue()
            && e.takenAtCache <= e.taken
  {
    InitialInv(s);
    RunRefines(s, steps);
    var (e, trace) := Run(s, steps);
    AcceptedConserves([], trace, e.Queue(), e.Capacity() - 1);
    assert [] + Puts(trace) == Puts(trace);
  }

  /** In every run the slot about to be constructed in holds no live item. */
  lemma NoLiveOverwrite<T>(s: Ring<T>, steps: seq<Step<T>>)
    requires Initial(s) && RunFrom(s, steps)
    requires Enabled(Run(s, steps).0, Construct)
    ensures var e := Run(s, steps).0;
            && e.taken <= |e.published|
            && Next(e, Construct).0.Queue() == e.Queue()
            && forall k: nat :: e.taken <= k < |e.published| ==>
                 Next(e, Construct).0.buffer[Index(k, e.Capacity())] == e.published[k]
  {
    InitialInv(s);
    RunRefines(s, steps);
    ConstructRefines(Run(s, steps).0);
  }

  // ---- every call comes to its end ------------------------------------------

  /** In every run, whatever the step: an enqueue ends only by showing the Put of the item it began
      with, or Full on a queue that is full; until then it keeps its item, only its beginning starts it,
      and the head is looked at again exactly when the cached one leaves no room. */
  lemma EnqueueEnds<T>(s: Ring<T>, steps: seq<Step<T>>, step: Step<T>)
    requires Initial(s) && RunFrom(s, steps) && Enabled(Run(s, steps).0, step)
    ensures var e := Run(s, steps).0;
            var (t, event) := Next(e, step);
            && e.taken <= |e.published|
            && (!e.producer.Resting? && t.producer.Resting? ==>
                  event == Put(e.producer.item) || (event == Full && |e.Queue()| == s.Capacity() - 1))
            && (!e.producer.Resting? && !t.producer.Resting? ==> t.producer.item == e.producer.item)
            && (e.producer.Resting? && !t.producer.Resting? ==> step == BeginEnqueue(t.producer.item))
            && (e.producer.Resting? && step.BeginEnqueue? ==>
                  && !t.producer.Resting?
                  && (t.producer.Refresh? <==> |e.published| - e.takenAtCache == s.Capacity() - 1))
  {
    InitialInv(s);
    RunRefines(s, steps);
    var e := Run(s, steps).0;
    if step == ReadHead {
      ReadHeadRefines(e);
    }
    hide Index, Advance, SlotsOk;
    AdvanceIndex(|e.published|, e.Capacity());
    IndicesMeet(e.takenAtCache, |e.published| + 1, e.Capacity());
  }

  /** In every run: the refreshed check shows Full exactly when N - 1 items are queued, and the
      consumer finds nothing exactly when none is; it then comes back only with the front item. */
  lemma ChecksAreExact<T>(s: Ring<T>, steps: seq<Step<T>>, step: Step<T>)
    requires Initial(s) && RunFrom(s, steps) && Enabled(Run(s, steps).0, step)
    ensures var e := Run(s, steps).0;
            var (t, event) := Next(e, step);
            && e.taken <= |e.published|
            && (step == ReadHead ==> (event == Full <==> |e.Queue()| == s.Capacity() - 1))
            && (step == CheckTail ==> (event == Empty <==> e.Queue() == []))
            && (step == CheckTail ==> (t.consumer.Waiting? <==> e.Queue() == []))
            && (!e.consumer.Waiting? && t.consumer.Waiting? ==> e.Queue() != [] && event == Take(e.Queue()[0]))
  {
    InitialInv(s);
    RunRefines(s, steps);
    var e := Run(s, steps).0;
    hide Index, Advance, SlotsOk;
    AdvanceIndex(|e.published|, e.Capacity());
    IndicesMeet(e.taken, |e.published| + 1, e.Capacity());
    IndicesMeet(e.taken, |e.published|, e.Capacity());
  }

  lemma RunFirst<T>(s: Ring<T>, step: Step<T>, rest: seq<Step<T>>)
    requires Enabled(s, step) && RunFrom(Next(s, step).0, rest)
    ensures RunFrom(s, [step] + rest)
    ensures var (t, e) := Next(s, step);
            Run(s, [step] + rest) == (Run(t, rest).0, [e] + Run(t, rest).1)
  {
    assert ([step] + rest)[1..] == rest;
    hide Enabled, Next;
  }

  lemma RunOne<T>(s: Ring<T>, step: Step<T>)
    requires Enabled(s, step)
    ensures RunFrom(s, [step]) && Run(s, [step]) == (Next(s, step).0, [Next(s, step).1])
  {
    hide Enabled, Next;
    var (t, e) := Next(s, step);
    assert RunFrom(t, []) && Run(t, []) == (t, []);
    RunFirst(s, step, []);
    assert [step] + [] == [step] && [e] + [] == [e];
  }

  /** What an enqueue of `item` has done when it has ended: the item is queued, or the queue was full
      and is as before; the consumer's side has not moved. */
  ghost predicate Enqueues<T>(s: Ring<T>, r: (Ring<T>, seq<Event<T>>), item: T)
    requires s.taken <= |s.published|
  {
    var (e, trace) := r;
    && e.producer.Resting? && e.consumer == s.consumer && e.taken == s.taken && e.head == s.head
    && (if |s.Queue()| < s.Capacity() - 1
        then e.published == s.published + [item] && Puts(trace) == [item]
        else e.published == s.published && Puts(trace) == [] && trace != [] && trace[|trace| - 1] == Full)
  }

  lemma EnqueuesFirst<T>(s: Ring<T>, step: Step<T>, rest: seq<Step<T>>, item: T)
    requires Enabled(s, step) && RunFrom(Next(s, step).0, rest)
    requires var (t, e) := Next(s, step);
             && e == Quiet && t.published == s.published && t.taken == s.taken <= |s.published|
             && t.head == s.head && t.consumer == s.consumer && t.Capacity() == s.Capacity()
             && Enqueues(t, Run(t, rest), item)
    ensures RunFrom(s, [step] + rest) && Enqueues(s, Run(s, [step] + rest), item)
  {
    RunFirst(s, step, rest);
    hide Enabled, Next, Run;
    var trace := Run(Next(s, step).0, rest).1;
    assert ([Quiet] + trace)[1..] == trace && [] + Puts(trace) == Puts(trace);
    assert trace != [] ==> ([Quiet] + trace)[|trace|] == trace[|trace| - 1];
  }

  predicate ProducerSteps<T>(steps: seq<Step<T>>) {
    forall k :: 0 <= k < |steps| ==>
      steps[k].BeginEnqueue? || steps[k].ReadHead? || steps[k].Construct? || steps[k].PublishTail?
  }

  lemma FinishPublish<T>(s: Ring<T>) returns (steps: seq<Step<T>>)
    requires Inv(s) && s.producer.Constructed?
    ensures ProducerSteps(steps) && RunFrom(s, steps) && Enqueues(s, Run(s, steps), s.producer.item)
  {
    steps := [PublishTail];
    var (t, e) := Next(s, PublishTail);
    RunOne(s, PublishTail);
    assert [e][1..] == [] && Puts([e]) == [s.producer.item];
    hide Index, Advance;
  }

  lemma FinishConstruct<T>(s: Ring<T>) returns (steps: seq<Step<T>>)
    requires Inv(s) && s.producer.Room?
    ensures ProducerSteps(steps) && RunFrom(s, steps) && Enqueues(s, Run(s, steps), s.producer.item)
  {
    ConstructRefines(s);
    hide Index, Advance, Run, RunFrom, Enqueues;
    var rest := FinishPublish(Next(s, Construct).0);
    EnqueuesFirst(s, Construct, rest, s.producer.item);
    steps := [Construct] + rest;
  }

  lemma FinishRefresh<T>(s: Ring<T>) returns (steps: seq<Step<T>>)
    requires Inv(s) && s.producer.Refresh?
    ensures ProducerSteps(steps) && RunFrom(s, steps) && Enqueues(s, Run(s, steps), s.producer.item)
  {
    ReadHeadRefines(s);
    var (t, e) := Next(s, ReadHead);
    ReadHeadFull(s);
    if e == Full {
      steps := [ReadHead];
      RunOne(s, ReadHead);
      assert [e][1..] == [] && Puts([e]) == [];
      hide Index, Advance;
    } else {
      hide Index, Advance, Run, RunFrom, Enqueues;
      var rest := FinishConstruct(t);
      EnqueuesFirst(s, ReadHead, rest, s.producer.item);
      steps := [ReadHead] + rest;
    }
  }

  lemma ReadHeadFull<T>(s: Ring<T>)
    requires Inv(s) && s.producer.Refresh?
    ensures Next(s, ReadHead).1 == Full <==> |s.Queue()| == s.Capacity() - 1
    ensures Next(s, ReadHead).1 != Full ==> |s.Queue()| < s.Capacity() - 1
  {
    hide Index, Advance, SlotsOk;
    AdvanceIndex(|s.published|, s.Capacity());
    IndicesMeet(s.taken, |s.published| + 1, s.Capacity());
  }

  lemma FinishEnqueue<T>(s: Ring<T>) returns (steps: seq<Step<T>>)
    requires Inv(s) && !s.producer.Resting?
    ensures ProducerSteps(steps) && RunFrom(s, steps) && Enqueues(s, Run(s, steps), s.producer.item)
  {
    match s.producer
    case Refresh(_) => steps := FinishRefresh(s);
    case Room(_) => steps := FinishConstruct(s);
    case Constructed(_) => steps := FinishPublish(s);
  }

  /** In every run an enqueue, begun or about to begin, is brought to its end by the producer's own
      steps: the item is put into the queue if fewer than N - 1 are queued, and refused otherwise,
      however stale the cached head. */
  lemma EnqueueCompletes<T>(s: Ring<T>, steps: seq<Step<T>>, item: T) returns (more: seq<Step<T>>)
    requires Initial(s) && RunFrom(s, steps)
    requires Run(s, steps).0.producer.Resting? || Run(s, steps).0.producer.item == item
    ensures var e := Run(s, steps).0;
            e.taken <= |e.published| && ProducerSteps(more) && RunFrom(e, more) && Enqueues(e, Run(e, more), item)
  {
    InitialInv(s);
    RunRefines(s, steps);
    var e := Run(s, steps).0;
    if e.producer.Resting? {
      BeginRefines(e, item);
      var t := Next(e, BeginEnqueue(item)).0;
      hide Index, Advance, Run, RunFrom, Enqueues;
      var rest := FinishEnqueue(t);
      EnqueuesFirst(e, BeginEnqueue(item), rest, item);
      more := [BeginEnqueue(item)] + rest;
    } else {
      more := FinishEnqueue(e);
    }
  }

  /** In every run a waiting consumer's own steps return the front item, and refuse exactly when the
      queue is empty. */
  lemma DequeueCompletes<T>(s: Ring<T>, steps: seq<Step<T>>) returns (more: seq<Step<T>>)
    requires Initial(s) && RunFrom(s, steps) && Run(s, steps).0.consumer.Waiting?
    ensures var e := Run(s, steps).0;
            && e.taken <= |e.published| && RunFrom(e, more)
            && var (a, trace) := Run(e, more);
               && a.producer == e.producer && a.published == e.published && a.tail == e.tail && a.consumer.Waiting?
               && (if e.Queue() == [] then more == [CheckTail] && trace == [Empty] && a == e
                   else more == [CheckTail, TakeItem, PublishHead]
                        && trace == [Quiet, Quiet, Take(e.Queue()[0])] && a.taken == e.taken + 1)
  {
    InitialInv(s);
    RunRefines(s, steps);
    more := DequeueSteps(Run(s, steps).0);
  }

  lemma DequeueSteps<T>(e: Ring<T>) returns (more: seq<Step<T>>)
    requires Inv(e) && e.consumer.Waiting?
    ensures RunFrom(e, more)
    ensures var (a, trace) := Run(e, more);
            && a.producer == e.producer && a.published == e.published && a.tail == e.tail && a.consumer.Waiting?
            && (if e.Queue() == [] then more == [CheckTail] && trace == [Empty] && a == e
                else more == [CheckTail, TakeItem, PublishHead]
                     && trace == [Quiet, Quiet, Take(e.Queue()[0])] && a.taken == e.taken + 1)
  {
    IndicesMeet(e.taken, |e.published|, e.Capacity());
    assert e.Queue() != [] ==> e.buffer[e.head] == e.Queue()[0];
    hide Index, Advance, Inv;
    var t := Next(e, CheckTail).0;
    if e.Queue() == [] {
      more := [CheckTail];
      RunOne(e, CheckTail);
    } else {
      var u := Next(t, TakeItem).0;
      RunOne(u, PublishHead);
      RunFirst(t, TakeItem, [PublishHead]);
      RunFirst(e, CheckTail, [TakeItem] + [PublishHead]);
      more := [CheckTail] + ([TakeItem] + [PublishHead]);
      assert more == [CheckTail, TakeItem, PublishHead];
    }
  }
}
