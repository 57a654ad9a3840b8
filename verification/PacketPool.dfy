/** Ownership of packet buffers: a locked free list, one receiver, one ring and one worker per
    worker thread, all interleaved in any order. A push is a check, a slot write and a tail store;
    a pop is a check, a slot read and a head store; other threads may step in between. */
module PacketPool {
  import opened Modular
  import opened IndexQueues

  const POOL_SIZE := 2000
  const RING_SIZE := 1024
  const WORKER_THREADS := 4

  type Buffer = nat

  datatype Receiver =
    | Idle
    | Acquired(buf: Buffer)                       // taken from the pool, packet not read yet
    | Dispatching(buf: Buffer, failures: nat)     // in the push loop, after that many full rings
    | HasRoom(buf: Buffer)                        // the ring at the worker index was seen not to be full
    | SlotWritten(buf: Buffer)                    // stored in the tail slot, the tail not moved yet

  datatype Worker =
    | Polling
    | NotEmpty                                    // its ring was seen not to be empty
    | HasRead(buf: Buffer)                        // read from the head slot, the head not moved yet
    | Holding(buf: Buffer)

  datatype System = System(
    free: seq<Buffer>,
    receiver: Receiver,
    rings: seq<Cells<Buffer>>,
    workers: seq<Worker>,
    workerIndex: nat)

  datatype Step =
    | Acquire | ReceiveFails | ReceiveSucceeds | CheckRoom | WriteSlot | StoreTail
    | CheckRing(w: nat) | ReadSlot(w: nat) | StoreHead(w: nat) | WorkerRelease(w: nat)

  ghost predicate Shaped(s: System) {
    && |s.rings| == |s.workers| == WORKER_THREADS && s.workerIndex < WORKER_THREADS
    && forall i :: 0 <= i < |s.rings| ==> InRange(s.rings[i]) && |s.rings[i].buffer| == RING_SIZE
  }

  ghost predicate Initial(s: System) {
    && Shaped(s)
    && s.free == seq(POOL_SIZE, i => i) && s.receiver == Idle && s.workerIndex == 0
    && (forall i :: 0 <= i < |s.rings| ==> s.rings[i].head == s.rings[i].tail == 0)
    && forall w :: 0 <= w < |s.workers| ==> s.workers[w] == Polling
  }

  ghost predicate Enabled(s: System, step: Step) {
    Shaped(s) &&
    match step
    case Acquire => s.receiver.Idle?
    case ReceiveFails => s.receiver.Acquired?
    case ReceiveSucceeds => s.receiver.Acquired?
    case CheckRoom => s.receiver.Dispatching?
    case WriteSlot => s.receiver.HasRoom?
    case StoreTail => s.receiver.SlotWritten?
    case CheckRing(w) => w < WORKER_THREADS && s.workers[w].Polling?
    case ReadSlot(w) => w < WORKER_THREADS && s.workers[w].NotEmpty?
    case StoreHead(w) => w < WORKER_THREADS && s.workers[w].HasRead?
    case WorkerRelease(w) => w < WORKER_THREADS && s.workers[w].Holding?
  }

  function WithTail(ring: Cells<Buffer>): Cells<Buffer>
    requires ring.buffer != []
  {
    ring.(tail := Advance(ring.tail, |ring.buffer|))
  }

  function WithHead(ring: Cells<Buffer>): Cells<Buffer>
    requires ring.buffer != []
  {
    ring.(head := Advance(ring.head, |ring.buffer|))
  }

  function WithSlot(ring: Cells<Buffer>, b: Buffer): Cells<Buffer>
    requires ring.tail < |ring.buffer|
  {
    ring.(buffer := ring.buffer[ring.tail := b])
  }

  ghost function Next(s: System, step: Step): System
    requires Enabled(s, step)
  {
    match step
    case Acquire =>
      if s.free == [] then s  // the packet is read into scratch space and dropped
      else s.(free := s.free[1..], receiver := Acquired(s.free[0]))
    case ReceiveFails => s.(free := s.free + [s.receiver.buf], receiver := Idle)
    case ReceiveSucceeds => s.(receiver := Dispatching(s.receiver.buf, 0))
    case CheckRoom =>
      var ring := s.rings[s.workerIndex];
      if WithTail(ring).tail != ring.head then s.(receiver := HasRoom(s.receiver.buf))
      else s.(receiver := Dispatching(s.receiver.buf, s.receiver.failures + 1),
              workerIndex := Advance(s.workerIndex, WORKER_THREADS))
    case WriteSlot =>
      var ring := s.rings[s.workerIndex];
      s.(rings := s.rings[s.workerIndex := WithSlot(ring, s.receiver.buf)], receiver := SlotWritten(s.receiver.buf))
    case StoreTail =>
      s.(rings := s.rings[s.workerIndex := WithTail(s.rings[s.workerIndex])], receiver := Idle,
         workerIndex := Advance(s.workerIndex, WORKER_THREADS))
    case CheckRing(w) =>
      if s.rings[w].head == s.rings[w].tail then s else s.(workers := s.workers[w := NotEmpty])
    case ReadSlot(w) =>
      s.(workers := s.workers[w := HasRead(s.rings[w].buffer[s.rings[w].head])])
    case StoreHead(w) =>
      s.(rings := s.rings[w := WithHead(s.rings[w])], workers := s.workers[w := Holding(s.workers[w].buf)])
    case WorkerRelease(w) =>
      s.(free := s.free + [s.workers[w].buf], workers := s.workers[w := Polling])
  }

  // ---- where the buffers are ------------------------------------------------

  ghost function InRings(rings: seq<Cells<Buffer>>): multiset<Buffer>
    requires forall i :: 0 <= i < |rings| ==> InRange(rings[i])
  {
    if rings == [] then multiset{}
    else InRings(rings[..|rings| - 1]) + multiset(Contents(rings[|rings| - 1]))
  }

  /** A buffer read but not yet taken out by the head store still counts as the ring's. */
  ghost function Held(o: Worker): multiset<Buffer> {
    if o.Holding? then multiset{o.buf} else multiset{}
  }

  ghost function AtWorkers(workers: seq<Worker>): multiset<Buffer> {
    if workers == [] then multiset{}
    else AtWorkers(workers[..|workers| - 1]) + Held(workers[|workers| - 1])
  }

  ghost function AtReceiver(r: Receiver): multiset<Buffer> {
    if r.Idle? then multiset{} else multiset{r.buf}
  }

  /** Every place a buffer can be, with multiplicity. */
  ghost function Located(s: System): multiset<Buffer>
    requires Shaped(s)
  {
    multiset(s.free) + AtReceiver(s.receiver) + InRings(s.rings) + AtWorkers(s.workers)
  }

  ghost function AllBuffers(): multiset<Buffer> {
    multiset(seq(POOL_SIZE, i => i))
  }

  lemma InRingsLast(rings: seq<Cells<Buffer>>)
    requires rings != [] && forall j :: 0 <= j < |rings| ==> InRange(rings[j])
    ensures InRings(rings) == InRings(rings[..|rings| - 1]) + multiset(Contents(rings[|rings| - 1]))
  {
    hide Contents;
  }

  lemma {:induction false} InRingsUpdate(rings: seq<Cells<Buffer>>, i: nat, c: Cells<Buffer>)
    requires (forall j :: 0 <= j < |rings| ==> InRange(rings[j])) && i < |rings| && InRange(c)
    ensures InRings(rings[i := c]) + multiset(Contents(rings[i])) == InRings(rings) + multiset(Contents(c))
  {
    hide Contents, InRange, InRings;
    var n := |rings| - 1;
    var front := rings[..n];
    InRingsLast(rings);
    InRingsLast(rings[i := c]);
    if i < n {
      assert rings[i := c][..n] == front[i := c] && front[i] == rings[i];
      InRingsUpdate(front, i, c);
      AddSame(InRings(front[i := c]), multiset(Contents(rings[i])), InRings(front), multiset(Contents(c)),
              multiset(Contents(rings[n])));
    } else {
      assert rings[i := c][..n] == front;
      Swapped(InRings(front), multiset(Contents(rings[i])), multiset(Contents(c)));
    }
  }

  lemma Swapped(a: multiset<Buffer>, x: multiset<Buffer>, y: multiset<Buffer>)
    ensures a + y + x == a + x + y
  {
  }

  lemma {:induction false} AtWorkersUpdate(workers: seq<Worker>, w: nat, o: Worker)
    requires w < |workers|
    ensures AtWorkers(workers[w := o]) + Held(workers[w]) == AtWorkers(workers) + Held(o)
  {
    hide Held;
    var n := |workers| - 1;
    if w < n {
      assert workers[w := o][..n] == workers[..n][w := o];
      AtWorkersUpdate(workers[..n], w, o);
      assert AtWorkers(workers[w := o]) == AtWorkers(workers[..n][w := o]) + Held(workers[n]);
      AddSame(AtWorkers(workers[..n][w := o]), Held(workers[w]), AtWorkers(workers[..n]), Held(o), Held(workers[n]));
    } else {
      assert workers[w := o][..n] == workers[..n];
    }
  }

  lemma Cancel(a: multiset<Buffer>, x: multiset<Buffer>, b: multiset<Buffer>, y: multiset<Buffer>)
    requires a + x == b + (x + y)
    ensures a == b + y
  {
    forall k ensures a[k] == (b + y)[k] {
      assert (a + x)[k] == (b + (x + y))[k];
    }
  }

  lemma AddSame(a: multiset<Buffer>, x: multiset<Buffer>, b: multiset<Buffer>, y: multiset<Buffer>, l: multiset<Buffer>)
    requires a + x == b + y
    ensures (a + l) + x == (b + l) + y
  {
    forall k ensures ((a + l) + x)[k] == ((b + l) + y)[k] {
      assert (a + x)[k] == (b + y)[k];
    }
  }

  /** Any two rings together hold no more than all rings do. */
  lemma {:induction false} TwoRings(rings: seq<Cells<Buffer>>, i: nat, j: nat)
    requires (forall k :: 0 <= k < |rings| ==> InRange(rings[k])) && i < j < |rings|
    ensures |Contents(rings[i])| + |Contents(rings[j])| <= |InRings(rings)|
  {
    hide Contents;
    var n := |rings| - 1;
    if j < n {
      TwoRings(rings[..n], i, j);
    } else {
      OneRing(rings[..n], i);
    }
  }

  lemma {:induction false} OneRing(rings: seq<Cells<Buffer>>, i: nat)
    requires (forall k :: 0 <= k < |rings| ==> InRange(rings[k])) && i < |rings|
    ensures |Contents(rings[i])| <= |InRings(rings)|
  {
    hide Contents;
    var n := |rings| - 1;
    if i < n {
      OneRing(rings[..n], i);
    }
  }

  // ---- the invariant --------------------------------------------------------

  predicate Roomy(ring: Cells<Buffer>)
    requires InRange(ring)
  {
    CaseSize(ring) < |ring.buffer| - 1
  }

  /** What the receiver has seen of the ring at the worker index still holds: workers only make room,
      and after one failed check the next ring has some. */
  ghost predicate ReceiverOk(r: Receiver, ring: Cells<Buffer>)
    requires InRange(ring)
  {
    match r
    case Dispatching(_, failures) => failures <= 1 && (failures == 1 ==> Roomy(ring))
    case HasRoom(_) => Roomy(ring)
    case SlotWritten(b) => Roomy(ring) && ring.buffer[ring.tail] == b
    case _ => true
  }

  /** What a worker has seen of its ring still holds: the receiver only appends. */
  ghost predicate WorkerOk(worker: Worker, ring: Cells<Buffer>)
    requires InRange(ring)
  {
    match worker
    case NotEmpty => Contents(ring) != []
    case HasRead(b) => Contents(ring) != [] && Contents(ring)[0] == b
    case _ => true
  }

  /** Each buffer is in exactly one place, and every thread's knowledge of its ring is current. */
  ghost predicate Inv(s: System) {
    && Shaped(s)
    && Located(s) == AllBuffers()
    && ReceiverOk(s.receiver, s.rings[s.workerIndex])
    && forall w :: 0 <= w < WORKER_THREADS ==> WorkerOk(s.workers[w], s.rings[w])
  }

  lemma AllBuffersOnce(b: nat)
    ensures AllBuffers()[b] == if b < POOL_SIZE then 1 else 0
    ensures |AllBuffers()| == POOL_SIZE
  {
    CountUp(POOL_SIZE, b);
  }

  lemma {:induction false} CountUp(n: nat, b: nat)
    ensures multiset(seq(n, i => i))[b] == if b < n then 1 else 0
    ensures |multiset(seq(n, i => i))| == n
  {
    if n > 0 {
      CountUp(n - 1, b);
      var all: seq<nat> := seq(n, i => i);
      assert all == seq(n - 1, i => i) + [n - 1];
    }
  }

  lemma InitialInv(s: System)
    requires Initial(s)
    ensures Inv(s)
  {
    NoneInRings(s.rings);
    NoneAtWorkers(s.workers);
  }

  lemma {:induction false} NoneInRings(rings: seq<Cells<Buffer>>)
    requires forall i :: 0 <= i < |rings| ==> InRange(rings[i]) && rings[i].head == rings[i].tail
    ensures InRings(rings) == multiset{}
  {
    if rings != [] {
      NoneInRings(rings[..|rings| - 1]);
      assert Contents(rings[|rings| - 1]) == [];
    }
  }

  lemma {:induction false} NoneAtWorkers(workers: seq<Worker>)
    requires forall w :: 0 <= w < |workers| ==> workers[w] == Polling
    ensures AtWorkers(workers) == multiset{}
  {
    if workers != [] {
      NoneAtWorkers(workers[..|workers| - 1]);
    }
  }

  /** Pigeonhole: a full ring leaves room in every other one. */
  lemma OnlyOneFull(s: System, i: nat, j: nat)
    requires Shaped(s) && Located(s) == AllBuffers()
    requires i < WORKER_THREADS && j < WORKER_THREADS && i != j && |Contents(s.rings[i])| == RING_SIZE - 1
    ensures |Contents(s.rings[j])| < RING_SIZE - 1
  {
    hide Contents, AllBuffers;
    AllBuffersOnce(0);
    TwoRings(s.rings, if i < j then i else j, if i < j then j else i);
    assert |Located(s)| >= |InRings(s.rings)|;
  }

  // ---- the steps on a ring --------------------------------------------------

  /** Writing the tail slot changes nothing live. */
  lemma SlotIsNotLive(ring: Cells<Buffer>, b: Buffer)
    requires InRange(ring)
    ensures var after := WithSlot(ring, b);
            InRange(after) && |after.buffer| == |ring.buffer| && Contents(after) == Contents(ring)
            && after.buffer[after.tail] == b
  {
    assert Contents(WithSlot(ring, b)) == Contents(ring);
  }

  /** Storing the tail appends what the tail slot holds. */
  lemma TailAppends(ring: Cells<Buffer>)
    requires InRange(ring) && Roomy(ring)
    ensures var after := WithTail(ring);
            InRange(after) && |after.buffer| == |ring.buffer|
            && Contents(after) == Contents(ring) + [ring.buffer[ring.tail]]
  {
    ModuloEnqueueIsAppend(ring, ring.buffer[ring.tail]);
    assert ring.buffer[ring.tail := ring.buffer[ring.tail]] == ring.buffer;
    hide Contents, Advance;
  }

  /** The room check sees exactly whether the ring is full. */
  lemma RoomIsSeen(ring: Cells<Buffer>)
    requires InRange(ring)
    ensures WithTail(ring).tail != ring.head <==> Roomy(ring)
  {
    FullIs(ring);
    hide Advance;
  }

  /** Storing the head removes the front. */
  lemma HeadRemoves(ring: Cells<Buffer>)
    requires InRange(ring) && Contents(ring) != []
    ensures var after := WithHead(ring);
            InRange(after) && |after.buffer| == |ring.buffer| && Contents(after) == Contents(ring)[1..]
            && after.buffer == ring.buffer && after.tail == ring.tail && Contents(ring)[0] == ring.buffer[ring.head]
  {
    ModuloDequeueIsFront(ring);
  }

  // ---- every step keeps the invariant ---------------------------------------

  lemma CheckRoomKeepsInv(s: System)
    requires Inv(s) && Enabled(s, CheckRoom)
    ensures Inv(Next(s, CheckRoom))
  {
    hide Contents, AllBuffers, InRings, AtWorkers, Advance, WithTail;
    var ring := s.rings[s.workerIndex];
    RoomIsSeen(ring);
    assert Located(Next(s, CheckRoom)) == Located(s);
    if !Roomy(ring) {
      NextWorker(s.workerIndex);
      OnlyOneFull(s, s.workerIndex, Advance(s.workerIndex, WORKER_THREADS));
    }
  }

  lemma NextWorker(w: nat)
    requires w < WORKER_THREADS
    ensures Advance(w, WORKER_THREADS) != w
  {
  }

  lemma WriteSlotKeepsInv(s: System)
    requires Inv(s) && Enabled(s, WriteSlot)
    ensures Inv(Next(s, WriteSlot))
  {
    hide Contents, AllBuffers, InRings, AtWorkers, WithSlot;
    var i, buf := s.workerIndex, s.receiver.buf;
    var ring := s.rings[i];
    SlotIsNotLive(ring, buf);
    InRingsUpdate(s.rings, i, WithSlot(ring, buf));
    Cancel(InRings(s.rings[i := WithSlot(ring, buf)]), multiset(Contents(ring)), InRings(s.rings), multiset{});
    assert Located(Next(s, WriteSlot)) == Located(s);
  }

  lemma StoreTailConserves(s: System)
    requires Inv(s) && Enabled(s, StoreTail) && Shaped(Next(s, StoreTail))
    ensures Located(Next(s, StoreTail)) == Located(s)
  {
    hide Contents, AllBuffers, InRings, AtWorkers, WithTail, Advance, WorkerOk;
    var i, buf := s.workerIndex, s.receiver.buf;
    var ring := s.rings[i];
    TailAppends(ring);
    InRingsUpdate(s.rings, i, WithTail(ring));
    Cancel(InRings(s.rings[i := WithTail(ring)]), multiset(Contents(ring)), InRings(s.rings), multiset{buf});
  }

  lemma StoreTailKeepsInv(s: System)
    requires Inv(s) && Enabled(s, StoreTail)
    ensures Inv(Next(s, StoreTail))
  {
    hide Contents, AllBuffers, Located, WithTail, Advance;
    TailAppends(s.rings[s.workerIndex]);
    StoreTailConserves(s);
  }

  lemma MovesOn(a: multiset<Buffer>, from: multiset<Buffer>, to: multiset<Buffer>, b: multiset<Buffer>)
    ensures a + from + (to + b) == a + (from + b) + to
  {
  }

  lemma StoreHeadConserves(s: System, w: nat)
    requires Inv(s) && Enabled(s, StoreHead(w)) && Shaped(Next(s, StoreHead(w)))
    ensures Located(Next(s, StoreHead(w))) == Located(s)
  {
    hide Contents, AllBuffers, InRings, AtWorkers, WithHead, ReceiverOk;
    var ring, buf := s.rings[w], s.workers[w].buf;
    var after := WithHead(ring);
    HeadRemoves(ring);
    InRingsUpdate(s.rings, w, after);
    AtWorkersUpdate(s.workers, w, Holding(buf));
    var q := Contents(ring);
    assert q == [buf] + q[1..];
    var rings, rest := InRings(s.rings), InRings(s.rings[w := after]);
    Cancel(rings, multiset(Contents(after)), rest, multiset{buf});
    var workers := AtWorkers(s.workers);
    Cancel(AtWorkers(s.workers[w := Holding(buf)]), multiset{}, workers, multiset{buf});
    MovesOn(multiset(s.free) + AtReceiver(s.receiver), rest, workers, multiset{buf});
  }

  lemma StoreHeadKeepsInv(s: System, w: nat)
    requires Inv(s) && Enabled(s, StoreHead(w))
    ensures Inv(Next(s, StoreHead(w)))
  {
    hide Contents, AllBuffers, Located, WithHead;
    HeadRemoves(s.rings[w]);
    StoreHeadConserves(s, w);
  }

  /** A worker that neither takes nor gives a buffer. */
  lemma QuietWorkerKeepsInv(s: System, w: nat, o: Worker)
    requires Inv(s) && w < WORKER_THREADS && !s.workers[w].Holding? && !o.Holding? && WorkerOk(o, s.rings[w])
    ensures Inv(s.(workers := s.workers[w := o]))
  {
    hide Contents, AllBuffers, InRings, AtWorkers;
    AtWorkersUpdate(s.workers, w, o);
    Cancel(AtWorkers(s.workers[w := o]), multiset{}, AtWorkers(s.workers), multiset{});
    assert AtWorkers(s.workers[w := o]) == AtWorkers(s.workers);
    assert Located(s.(workers := s.workers[w := o])) == Located(s);
  }

  lemma MovesBack(free: multiset<Buffer>, a: multiset<Buffer>, x: multiset<Buffer>, from: multiset<Buffer>,
                  b: multiset<Buffer>)
    ensures (free + b) + a + x + from == free + a + x + (from + b)
  {
  }

  lemma WorkerReleaseConserves(s: System, w: nat)
    requires Inv(s) && Enabled(s, WorkerRelease(w))
    ensures Located(Next(s, WorkerRelease(w))) == Located(s)
  {
    hide Contents, AllBuffers, InRings, AtWorkers, ReceiverOk, WorkerOk;
    var b := s.workers[w].buf;
    AtWorkersUpdate(s.workers, w, Polling);
    var rest := AtWorkers(s.workers[w := Polling]);
    Cancel(AtWorkers(s.workers), multiset{}, rest, multiset{b});
    MovesBack(multiset(s.free), AtReceiver(s.receiver), InRings(s.rings), rest, multiset{b});
  }

  lemma WorkerReleaseKeepsInv(s: System, w: nat)
    requires Inv(s) && Enabled(s, WorkerRelease(w))
    ensures Inv(Next(s, WorkerRelease(w)))
  {
    hide Contents, AllBuffers, Located;
    WorkerReleaseConserves(s, w);
  }

  /** Moves between the free list and the receiver. */
  lemma ReceiverKeepsInv(s: System, after: System)
    requires Inv(s) && after.rings == s.rings && after.workers == s.workers && after.workerIndex == s.workerIndex
    requires after.receiver.Idle? || after.receiver.Acquired?
             || (after.receiver.Dispatching? && after.receiver.failures == 0)
    requires multiset(after.free) + AtReceiver(after.receiver) == multiset(s.free) + AtReceiver(s.receiver)
    ensures Inv(after)
  {
    hide Contents, AllBuffers, InRings, AtWorkers, AtReceiver;
    assert Located(after) == Located(s);
  }

  lemma TakenFromFree(free: seq<Buffer>)
    requires free != []
    ensures multiset(free[1..]) + multiset{free[0]} == multiset(free)
  {
    assert free == [free[0]] + free[1..];
  }

  lemma CheckRingKeepsInv(s: System, w: nat)
    requires Inv(s) && Enabled(s, CheckRing(w))
    ensures Inv(Next(s, CheckRing(w)))
  {
    hide AllBuffers, InRings, AtWorkers;
    if s.rings[w].head != s.rings[w].tail {
      QuietWorkerKeepsInv(s, w, NotEmpty);
    }
  }

  lemma ReadSlotKeepsInv(s: System, w: nat)
    requires Inv(s) && Enabled(s, ReadSlot(w))
    ensures Inv(Next(s, ReadSlot(w)))
  {
    hide AllBuffers, InRings, AtWorkers, Contents;
    HeadRemoves(s.rings[w]);
    QuietWorkerKeepsInv(s, w, HasRead(s.rings[w].buffer[s.rings[w].head]));
  }

  lemma NextKeepsInv(s: System, step: Step)
    requires Inv(s) && Enabled(s, step)
    ensures Inv(Next(s, step))
  {
    hide Inv;
    match step
    case Acquire =>
      if s.free != [] {
        TakenFromFree(s.free);
        ReceiverKeepsInv(s, Next(s, step));
      }
    case ReceiveFails => ReceiverKeepsInv(s, Next(s, step));
    case ReceiveSucceeds => ReceiverKeepsInv(s, Next(s, step));
    case CheckRoom => CheckRoomKeepsInv(s);
    case WriteSlot => WriteSlotKeepsInv(s);
    case StoreTail => StoreTailKeepsInv(s);
    case CheckRing(w) => CheckRingKeepsInv(s, w);
    case ReadSlot(w) => ReadSlotKeepsInv(s, w);
    case StoreHead(w) => StoreHeadKeepsInv(s, w);
    case WorkerRelease(w) => WorkerReleaseKeepsInv(s, w);
  }

  // ---- runs -----------------------------------------------------------------

  ghost predicate RunFrom(s: System, steps: seq<Step>)
    decreases |steps|
  {
    steps == [] || (Enabled(s, steps[0]) && RunFrom(Next(s, steps[0]), steps[1..]))
  }

  ghost function After(s: System, steps: seq<Step>): System
    requires RunFrom(s, steps)
    decreases |steps|
  {
    if steps == [] then s else After(Next(s, steps[0]), steps[1..])
  }

  lemma {:induction false} RunKeepsInv(s: System, steps: seq<Step>)
    requires Inv(s) && RunFrom(s, steps)
    ensures Inv(After(s, steps))
    decreases |steps|
  {
    hide Inv, Next, Enabled;
    if steps != [] {
      NextKeepsInv(s, steps[0]);
      RunKeepsInv(Next(s, steps[0]), steps[1..]);
    }
  }

  /** In every run each of the buffers is in exactly one place, and nothing else is anywhere. */
  lemma EachBufferOnce(s: System, steps: seq<Step>, b: nat)
    requires Initial(s) && RunFrom(s, steps)
    ensures Shaped(After(s, steps)) && Located(After(s, steps))[b] == if b < 2000 then 1 else 0
  {
    InitialInv(s);
    RunKeepsInv(s, steps);
    AllBuffersOnce(b);
  }

  /** In every run at most one ring is full. */
  lemma AtMostOneFull(s: System, steps: seq<Step>, i: nat, j: nat)
    requires Initial(s) && RunFrom(s, steps) && i < j < 4
    ensures Shaped(After(s, steps))
    ensures var rings := After(s, steps).rings;
            |rings| == 4 && (|Contents(rings[i])| < 1023 || |Contents(rings[j])| < 1023)
  {
    InitialInv(s);
    RunKeepsInv(s, steps);
    var e := After(s, steps);
    if |Contents(e.rings[i])| == RING_SIZE - 1 {
      OnlyOneFull(e, i, j);
    }
  }

  /** In every run the dispatch loop meets at most one full ring per packet: the second check finds
      room, and that room is still there when the tail is stored. */
  lemma DispatchWithinTwo(s: System, steps: seq<Step>)
    requires Initial(s) && RunFrom(s, steps)
    ensures var e := After(s, steps);
            && (Enabled(e, CheckRoom) ==> e.receiver.failures <= 1)
            && (Enabled(e, CheckRoom) && e.receiver.failures == 1 ==> Next(e, CheckRoom).receiver.HasRoom?)
            && (e.receiver.HasRoom? || e.receiver.SlotWritten? ==>
                  Shaped(e) && |Contents(e.rings[e.workerIndex])| < RING_SIZE - 1)
  {
    InitialInv(s);
    RunKeepsInv(s, steps);
    var e := After(s, steps);
    RoomIsSeen(e.rings[e.workerIndex]);
  }

  /** In every run a worker takes out exactly the buffer it read, and the receiver's slot write never
      lands on a buffer in flight. */
  lemma ReadIsTaken(s: System, steps: seq<Step>, w: nat)
    requires Initial(s) && RunFrom(s, steps) && w < WORKER_THREADS
    requires Enabled(After(s, steps), StoreHead(w))
    ensures var e := After(s, steps);
            && Contents(e.rings[w]) != [] && Contents(e.rings[w])[0] == e.workers[w].buf
            && e.rings[w].buffer[e.rings[w].head] == e.workers[w].buf
            && InRange(WithHead(e.rings[w])) && Contents(WithHead(e.rings[w])) == Contents(e.rings[w])[1..]
  {
    InitialInv(s);
    RunKeepsInv(s, steps);
    HeadRemoves(After(s, steps).rings[w]);
  }

  // ---- where a packet goes --------------------------------------------------

  /** A step leaves a ring's contents alone, but for the tail store at the worker index, which appends
      the receiver's buffer, and its own worker's head store, which hands its front to the worker. */
  lemma RingsAreQueues(s: System, steps: seq<Step>, step: Step, i: nat)
    requires Initial(s) && RunFrom(s, steps) && Enabled(After(s, steps), step) && i < 4
    ensures var e := After(s, steps);
            var t := Next(e, step);
            && Shaped(e) && Shaped(t)
            && (if step.StoreTail? && i == e.workerIndex then
                  Contents(t.rings[i]) == Contents(e.rings[i]) + [e.receiver.buf] && t.receiver == Idle
                else if step == StoreHead(i) then
                  && Contents(e.rings[i]) == [t.workers[i].buf] + Contents(t.rings[i])
                  && t.workers[i].Holding?
                else Contents(t.rings[i]) == Contents(e.rings[i]))
  {
    InitialInv(s);
    RunKeepsInv(s, steps);
    var e := After(s, steps);
    NextKeepsInv(e, step);
    StepOnRing(e, step, i);
  }

  lemma StepOnRing(e: System, step: Step, i: nat)
    requires Inv(e) && Enabled(e, step) && i < WORKER_THREADS && Shaped(Next(e, step))
    ensures var t := Next(e, step);
            if step.StoreTail? && i == e.workerIndex then
              Contents(t.rings[i]) == Contents(e.rings[i]) + [e.receiver.buf] && t.receiver == Idle
            else if step == StoreHead(i) then
              Contents(e.rings[i]) == [t.workers[i].buf] + Contents(t.rings[i]) && t.workers[i].Holding?
            else Contents(t.rings[i]) == Contents(e.rings[i])
  {
    hide Contents, Located, AllBuffers, Advance;
    match step
    case WriteSlot => SlotIsNotLive(e.rings[e.workerIndex], e.receiver.buf);
    case StoreTail => TailAppends(e.rings[e.workerIndex]);
    case StoreHead(w) =>
      HeadRemoves(e.rings[w]);
      var q := Contents(e.rings[w]);
      assert q == [q[0]] + q[1..];
    case _ =>
  }

  lemma RunSteps(s: System, step: Step, rest: seq<Step>)
    requires Enabled(s, step) && RunFrom(Next(s, step), rest)
    ensures RunFrom(s, [step] + rest) && After(s, [step] + rest) == After(Next(s, step), rest)
  {
    assert ([step] + rest)[1..] == rest;
    hide Enabled, Next;
  }

  /** The buffer `b` has joined ring `target`, the index stands one further, and nothing else has
      changed. */
  ghost predicate Dispatched(s: System, a: System, b: Buffer, target: nat)
    requires Shaped(s) && target < WORKER_THREADS
  {
    && Shaped(a) && a.receiver == Idle && a.free == s.free && a.workers == s.workers
    && a.workerIndex == (target + 1) % 4
    && (forall i :: 0 <= i < 4 && i != target ==> a.rings[i] == s.rings[i])
    && Contents(a.rings[target]) == Contents(s.rings[target]) + [b]
  }

  lemma StoresInRing(s: System) returns (steps: seq<Step>)
    requires Inv(s) && s.receiver.HasRoom?
    ensures steps == [WriteSlot, StoreTail] && RunFrom(s, steps)
    ensures Dispatched(s, After(s, steps), s.receiver.buf, s.workerIndex)
  {
    var i, b := s.workerIndex, s.receiver.buf;
    var t := Next(s, WriteSlot);
    WriteSlotKeepsInv(s);
    SlotIsNotLive(s.rings[i], b);
    TailAppends(t.rings[i]);
    hide Contents, Located, AllBuffers;
    var u := Next(t, StoreTail);
    assert RunFrom(u, []) && After(u, []) == u;
    RunSteps(t, StoreTail, []);
    RunSteps(s, WriteSlot, [StoreTail] + []);
    steps := [WriteSlot] + ([StoreTail] + []);
    assert steps == [WriteSlot, StoreTail];
  }

  /** The first ring with room, at the worker index or right behind it. */
  function Target(s: System): nat
    requires s.workerIndex < |s.rings| && InRange(s.rings[s.workerIndex])
  {
    if Roomy(s.rings[s.workerIndex]) then s.workerIndex else (s.workerIndex + 1) % 4
  }

  lemma CheckedOnce(s: System)
    requires Inv(s) && s.receiver.Dispatching?
    ensures var ring, b := s.rings[s.workerIndex], s.receiver.buf;
            Next(s, CheckRoom) ==
              if Roomy(ring) then s.(receiver := HasRoom(b))
              else s.(receiver := Dispatching(b, s.receiver.failures + 1), workerIndex := (s.workerIndex + 1) % 4)
    ensures var ring := s.rings[s.workerIndex];
            if Roomy(ring) then |Contents(ring)| < 1023 else |Contents(ring)| == 1023
    ensures s.receiver.failures == 1 ==> Roomy(s.rings[s.workerIndex])
  {
    RoomIsSeen(s.rings[s.workerIndex]);
    hide Located, AllBuffers, WithTail, WorkerOk;
  }

  lemma ChecksFindRoom(s: System) returns (steps: seq<Step>)
    requires Inv(s) && s.receiver.Dispatching? && s.receiver.failures == 0
    ensures RunFrom(s, steps) && Target(s) < WORKER_THREADS
    ensures steps == [CheckRoom] || steps == [CheckRoom, CheckRoom]
    ensures |Contents(s.rings[Target(s)])| < 1023
    ensures Target(s) == s.workerIndex || |Contents(s.rings[s.workerIndex])| == 1023
    ensures After(s, steps) == s.(receiver := HasRoom(s.receiver.buf), workerIndex := Target(s))
  {
    CheckedOnce(s);
    var t := Next(s, CheckRoom);
    if Roomy(s.rings[s.workerIndex]) {
      OneCheck(s);
      steps := [CheckRoom];
    } else {
      CheckRoomKeepsInv(s);
      hide Contents, Roomy, Located, AllBuffers, WorkerOk, After, RunFrom, Next;
      CheckedOnce(t);
      TwoChecks(s);
      steps := [CheckRoom, CheckRoom];
    }
  }

  lemma OneCheck(s: System)
    requires Enabled(s, CheckRoom)
    ensures RunFrom(s, [CheckRoom]) && After(s, [CheckRoom]) == Next(s, CheckRoom)
  {
    var t := Next(s, CheckRoom);
    hide Enabled, Next;
    assert RunFrom(t, []) && After(t, []) == t;
    RunSteps(s, CheckRoom, []);
    assert [CheckRoom] + [] == [CheckRoom];
  }

  lemma TwoChecks(s: System)
    requires Enabled(s, CheckRoom) && Enabled(Next(s, CheckRoom), CheckRoom)
    ensures RunFrom(s, [CheckRoom, CheckRoom])
    ensures After(s, [CheckRoom, CheckRoom]) == Next(Next(s, CheckRoom), CheckRoom)
  {
    hide Enabled, Next;
    OneCheck(Next(s, CheckRoom));
    RunSteps(s, CheckRoom, [CheckRoom]);
    assert [CheckRoom] + [CheckRoom] == [CheckRoom, CheckRoom];
  }

  lemma {:induction false} RunJoins(s: System, a: seq<Step>, b: seq<Step>)
    requires RunFrom(s, a) && RunFrom(After(s, a), b)
    ensures RunFrom(s, a + b) && After(s, a + b) == After(After(s, a), b)
    decreases |a|
  {
    hide Enabled, Next;
    if a == [] {
      assert a + b == b;
    } else {
      assert (a + b)[0] == a[0] && (a + b)[1..] == a[1..] + b;
      RunJoins(Next(s, a[0]), a[1..], b);
    }
  }

  lemma DispatchSteps(s: System) returns (steps: seq<Step>, target: nat)
    requires Inv(s) && s.receiver.Dispatching? && s.receiver.failures == 0
    ensures target == s.workerIndex || (target == (s.workerIndex + 1) % 4 && |Contents(s.rings[s.workerIndex])| == 1023)
    ensures target < WORKER_THREADS && |Contents(s.rings[target])| < 1023
    ensures steps == [CheckRoom, WriteSlot, StoreTail] || steps == [CheckRoom, CheckRoom, WriteSlot, StoreTail]
    ensures RunFrom(s, steps) && Dispatched(s, After(s, steps), s.receiver.buf, target)
  {
    var checks := ChecksFindRoom(s);
    target := Target(s);
    RunKeepsInv(s, checks);
    var t := After(s, checks);
    hide Inv, Contents, Target;
    var stores := StoresInRing(t);
    RunJoins(s, checks, stores);
    steps := checks + stores;
  }

  lemma DispatchedFrom(s: System, t: System, a: System, b: Buffer, target: nat)
    requires Shaped(s) && Shaped(t) && target < WORKER_THREADS && t == s.(receiver := t.receiver)
    requires Dispatched(t, a, b, target)
    ensures Dispatched(s, a, b, target)
  {
    hide Contents;
  }

  lemma Arrived(e: System) returns (t: System)
    requires Inv(e) && e.receiver.Acquired?
    ensures Enabled(e, ReceiveSucceeds) && t == Next(e, ReceiveSucceeds) && Inv(t)
    ensures t == e.(receiver := Dispatching(e.receiver.buf, 0))
  {
    NextKeepsInv(e, ReceiveSucceeds);
    t := Next(e, ReceiveSucceeds);
    hide Inv;
  }

  lemma ArrivedSteps(e: System) returns (more: seq<Step>, target: nat)
    requires Inv(e) && e.receiver.Acquired?
    ensures target < 4 && |Contents(e.rings[target])| < 1023
    ensures target == e.workerIndex
            || (target == (e.workerIndex + 1) % 4 && |Contents(e.rings[e.workerIndex])| == 1023)
    ensures more == [ReceiveSucceeds, CheckRoom, WriteSlot, StoreTail]
            || more == [ReceiveSucceeds, CheckRoom, CheckRoom, WriteSlot, StoreTail]
    ensures RunFrom(e, more) && Dispatched(e, After(e, more), e.receiver.buf, target)
  {
    var t := Arrived(e);
    hide Inv, Contents, Next, Dispatched, Enabled;
    var rest;
    rest, target := DispatchSteps(t);
    DispatchedFrom(e, t, After(t, rest), t.receiver.buf, target);
    RunSteps(e, ReceiveSucceeds, rest);
    more := [ReceiveSucceeds] + rest;
  }

  /** From every state of a run in which the receiver has a buffer and a packet arrives in it, the
      receiver's own steps bring it to the first ring with room at or behind the worker index, behind
      everything already there; at most two checks do. */
  lemma PacketReachesRing(s: System, steps: seq<Step>) returns (more: seq<Step>, target: nat)
    requires Initial(s) && RunFrom(s, steps) && After(s, steps).receiver.Acquired?
    ensures var e := After(s, steps);
            && Shaped(e) && target < 4 && |Contents(e.rings[target])| < 1023
            && (target == e.workerIndex
                || (target == (e.workerIndex + 1) % 4 && |Contents(e.rings[e.workerIndex])| == 1023))
            && (more == [ReceiveSucceeds, CheckRoom, WriteSlot, StoreTail]
                || more == [ReceiveSucceeds, CheckRoom, CheckRoom, WriteSlot, StoreTail])
            && RunFrom(e, more) && Dispatched(e, After(e, more), e.receiver.buf, target)
  {
    InitialInv(s);
    RunKeepsInv(s, steps);
    var e := After(s, steps);
    more, target := ArrivedSteps(e);
  }

  /** In every run a polling worker whose ring is not empty takes the front buffer by its own steps
      and gives it back to the pool; with an empty ring it goes on polling. */
  lemma WorkerHandsBack(s: System, steps: seq<Step>, w: nat)
    requires Initial(s) && RunFrom(s, steps) && w < 4 && |After(s, steps).workers| == 4
    requires After(s, steps).workers[w].Polling?
    ensures var e, round := After(s, steps), [CheckRing(w), ReadSlot(w), StoreHead(w), WorkerRelease(w)];
            && Shaped(e)
            && (Contents(e.rings[w]) == [] ==> Enabled(e, CheckRing(w)) && Next(e, CheckRing(w)) == e)
            && (Contents(e.rings[w]) != [] ==>
                  && RunFrom(e, round)
                  && var a := After(e, round);
                     && Shaped(a) && a.receiver == e.receiver && a.workers == e.workers
                     && a.free == e.free + [Contents(e.rings[w])[0]]
                     && Contents(a.rings[w]) == Contents(e.rings[w])[1..]
                     && forall i :: 0 <= i < 4 && i != w ==> a.rings[i] == e.rings[i])
  {
    InitialInv(s);
    RunKeepsInv(s, steps);
    WorkerRound(After(s, steps), w);
  }

  lemma WorkerRound(e: System, w: nat)
    requires Inv(e) && w < WORKER_THREADS && e.workers[w].Polling?
    ensures var round := [CheckRing(w), ReadSlot(w), StoreHead(w), WorkerRelease(w)];
            && (Contents(e.rings[w]) == [] ==> Enabled(e, CheckRing(w)) && Next(e, CheckRing(w)) == e)
            && (Contents(e.rings[w]) != [] ==>
                  && RunFrom(e, round)
                  && var a := After(e, round);
                     && Shaped(a) && a.receiver == e.receiver && a.workers == e.workers
                     && a.free == e.free + [Contents(e.rings[w])[0]]
                     && Contents(a.rings[w]) == Contents(e.rings[w])[1..]
                     && forall i :: 0 <= i < 4 && i != w ==> a.rings[i] == e.rings[i])
  {
    EmptyIs(e.rings[w]);
    if Contents(e.rings[w]) != [] {
      WorkerSteps(e, w);
      hide Contents, Inv, Next, WithHead;
      FourSteps(e, CheckRing(w), ReadSlot(w), StoreHead(w), WorkerRelease(w));
    }
  }

  lemma WorkerSteps(e: System, w: nat)
    requires Inv(e) && w < WORKER_THREADS && e.workers[w].Polling? && Contents(e.rings[w]) != []
    ensures Enabled(e, CheckRing(w))
    ensures var a := Next(e, CheckRing(w));
            Enabled(a, ReadSlot(w)) &&
            var b := Next(a, ReadSlot(w));
            Enabled(b, StoreHead(w)) &&
            var c := Next(b, StoreHead(w));
            Enabled(c, WorkerRelease(w)) &&
            Next(c, WorkerRelease(w))
              == e.(free := e.free + [Contents(e.rings[w])[0]], rings := e.rings[w := WithHead(e.rings[w])])
    ensures var ring := WithHead(e.rings[w]);
            InRange(ring) && |ring.buffer| == RING_SIZE && Contents(ring) == Contents(e.rings[w])[1..]
  {
    EmptyIs(e.rings[w]);
    HeadRemoves(e.rings[w]);
    hide Contents, Located, AllBuffers, WithHead, ReceiverOk, WorkerOk;
    var o := e.workers;
    assert o[w := NotEmpty][w := HasRead(e.rings[w].buffer[e.rings[w].head])]
            [w := Holding(e.rings[w].buffer[e.rings[w].head])][w := Polling] == o;
  }

  lemma FourSteps(s: System, x: Step, y: Step, z: Step, v: Step)
    requires Enabled(s, x) && Enabled(Next(s, x), y) && Enabled(Next(Next(s, x), y), z)
    requires Enabled(Next(Next(Next(s, x), y), z), v)
    ensures RunFrom(s, [x, y, z, v]) && After(s, [x, y, z, v]) == Next(Next(Next(Next(s, x), y), z), v)
  {
    hide Enabled, Next;
    var a := Next(s, x);
    var b := Next(a, y);
    var c := Next(b, z);
    var d := Next(c, v);
    assert RunFrom(d, []) && After(d, []) == d;
    RunSteps(c, v, []);
    RunSteps(b, z, [v] + []);
    RunSteps(a, y, [z] + ([v] + []));
    RunSteps(s, x, [y] + ([z] + ([v] + [])));
    assert [x, y, z, v] == [x] + ([y] + ([z] + ([v] + [])));
  }

  lemma EmptyIs(ring: Cells<Buffer>)
    requires InRange(ring)
    ensures Contents(ring) == [] <==> ring.head == ring.tail
  {
  }

  /** In every run: taking from the pool takes its first buffer, if there is one, and a failed receive
      puts the buffer behind the others. */
  lemma PoolIsQueue(s: System, steps: seq<Step>)
    requires Initial(s) && RunFrom(s, steps)
    ensures var e := After(s, steps);
            && (Enabled(e, Acquire) ==>
                  var t := Next(e, Acquire);
                  t.rings == e.rings && t.workers == e.workers && t.workerIndex == e.workerIndex &&
                  if e.free == [] then t == e else t.receiver.Acquired? && e.free == [t.receiver.buf] + t.free)
            && (Enabled(e, ReceiveFails) ==>
                  Next(e, ReceiveFails) == e.(free := e.free + [e.receiver.buf], receiver := Idle))
  {
    var e := After(s, steps);
    if e.free != [] {
      assert e.free == [e.free[0]] + e.free[1..];
    }
  }
}
