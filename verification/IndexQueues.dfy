/** Two bounded queues over a ring array: one advances its indices with a bit mask and computes
    its size by a wrapping subtraction, the other with `%` and a two-case formula. */
module IndexQueues {
  import opened Modular
  import opened Options

  // ---- masks ----------------------------------------------------------------

  /** Bitwise and of two naturals. */
  function BitAnd(a: nat, b: nat): (r: nat)
    ensures r <= b
    decreases a
  {
    if a == 0 || b == 0 then 0
    else (if a % 2 == 1 && b % 2 == 1 then 1 else 0) + 2 * BitAnd(a / 2, b / 2)
  }

  function Pow2(k: nat): (r: nat)
    ensures r > 0
  {
    if k == 0 then 1 else 2 * Pow2(k - 1)
  }

  lemma ModDouble(x: nat, m: nat)
    requires m > 0
    ensures x % (2 * m) == x % 2 + 2 * ((x / 2) % m)
  {
    var q, r := (x / 2) / m, (x / 2) % m;
    assert x / 2 == m * q + r;
    assert x == (2 * m) * q + (2 * r + x % 2) by {
      assert 2 * (m * q) == (2 * m) * q;
    }
    DivModUnique(x, 2 * m, q, 2 * r + x % 2);
  }

  /** Masking with a power of two less one is taking the remainder. */
  lemma {:induction false} MaskIsMod(x: nat, k: nat)
    ensures BitAnd(x, Pow2(k) - 1) == x % Pow2(k)
    decreases k
  {
    if k > 0 {
      var m := Pow2(k - 1);
      MaskIsMod(x / 2, k - 1);
      ModDouble(x, m);
      AndStep(x, m - 1);
    }
  }

  /** One bit of the bitwise and with an odd number. */
  lemma AndStep(x: nat, h: nat)
    ensures BitAnd(x, 2 * h + 1) == x % 2 + 2 * BitAnd(x / 2, h)
  {
    assert (2 * h + 1) / 2 == h && (2 * h + 1) % 2 == 1;
  }

  lemma {:induction false} Pow2Split(j: nat, k: nat)
    ensures Pow2(j + k) == Pow2(j) * Pow2(k)
    decreases k
  {
    if k > 0 {
      Pow2Split(j, k - 1);
      MulDouble(Pow2(j), Pow2(k - 1));
      assert j + k - 1 == j + (k - 1);
    }
  }

  lemma MulDouble(a: int, b: int)
    ensures a * (2 * b) == 2 * (a * b)
  {
  }

  /** `size_t` subtraction. */
  function WrapSub(a: nat, b: nat): nat {
    (a - b) % Pow2(64)
  }

  /** Subtract-and-mask agrees with the two-case formula. */
  lemma MaskedDifference(head: nat, tail: nat, k: nat)
    requires k <= 64 && head < Pow2(k) && tail < Pow2(k)
    ensures BitAnd(WrapSub(tail, head), Pow2(k) - 1) == if tail >= head then tail - head else Pow2(k) - head + tail
  {
    hide Pow2, BitAnd;
    var n, m := Pow2(k), Pow2(64 - k);
    Pow2Split(k, 64 - k);
    assert k + (64 - k) == 64;
    MulLe(n, 1, m);
    MaskIsMod(WrapSub(tail, head), k);
    if tail >= head {
      ModSmall(tail - head, n * m);
      ModSmall(tail - head, n);
    } else {
      DivModUnique(tail - head, n * m, -1, n * m + tail - head);
      assert n * m + tail - head == n * (m - 1) + (n - head + tail) by {
        assert n * (m - 1) == n * m - n;
      }
      DivModUnique(n * m + tail - head, n, m - 1, n - head + tail);
    }
  }

  // ---- the queues as functions of their cells -------------------------------

  datatype Cells<T> = Cells(buffer: seq<T>, head: nat, tail: nat)

  predicate InRange<T>(c: Cells<T>) {
    c.head < |c.buffer| && c.tail < |c.buffer|
  }

  /** The capacity is a power of two that a 64-bit size can index. */
  predicate Fits<T>(c: Cells<T>, k: nat) {
    k <= 64 && |c.buffer| == Pow2(k) && InRange(c)
  }

  function MaskNext(i: nat, n: nat): (r: nat)
    requires n > 0
    ensures r < n
  {
    BitAnd(i + 1, n - 1)
  }

  /** Writes the element at the tail and moves the tail on, unless that would meet the head. */
  function Enqueued<T>(c: Cells<T>, x: T, nextTail: nat): (Cells<T>, bool)
    requires c.tail < |c.buffer|
  {
    if nextTail == c.head then (c, false) else (Cells(c.buffer[c.tail := x], c.head, nextTail), true)
  }

  function Dequeued<T>(c: Cells<T>, nextHead: nat): (Cells<T>, Option<T>)
    requires c.head < |c.buffer|
  {
    if c.head == c.tail then (c, None) else (Cells(c.buffer, nextHead, c.tail), Some(c.buffer[c.head]))
  }

  function MaskSize<T>(c: Cells<T>): nat
    requires |c.buffer| > 0
  {
    BitAnd(WrapSub(c.tail, c.head), |c.buffer| - 1)
  }

  function CaseSize<T>(c: Cells<T>): nat
    requires c.head <= |c.buffer|
  {
    if c.tail >= c.head then c.tail - c.head else |c.buffer| - c.head + c.tail
  }

  // ---- the queue they both are ----------------------------------------------

  /** The `i`-th cell from the head, going round. */
  function CellAt(head: nat, i: nat, n: nat): nat {
    if head + i < n then head + i else head + i - n
  }

  ghost function Contents<T>(c: Cells<T>): (q: seq<T>)
    requires InRange(c)
    ensures |q| == CaseSize(c) < |c.buffer|
  {
    seq(CaseSize(c), i requires 0 <= i < CaseSize(c) => c.buffer[CellAt(c.head, i, |c.buffer|)])
  }

  lemma AdvanceIs(i: nat, n: nat)
    requires i < n
    ensures Advance(i, n) == if i + 1 == n then 0 else i + 1
  {
    if i + 1 == n {
      ModShift(0, n);
    } else {
      ModSmall(i + 1, n);
    }
  }

  lemma MaskNextIs(i: nat, k: nat)
    ensures MaskNext(i, Pow2(k)) == Advance(i, Pow2(k))
  {
    MaskIsMod(i + 1, k);
  }

  /** For any capacity: enqueueing appends, and is refused exactly when one cell short of full. */
  lemma ModuloEnqueueIsAppend<T>(c: Cells<T>, x: T)
    requires InRange(c)
    ensures var (d, ok) := Enqueued(c, x, Advance(c.tail, |c.buffer|));
            && InRange(d) && |d.buffer| == |c.buffer|
            && (ok <==> |Contents(c)| < |c.buffer| - 1)
            && Contents(d) == if ok then Contents(c) + [x] else Contents(c)
  {
    hide Advance;
    AdvanceIs(c.tail, |c.buffer|);
    var (d, ok) := Enqueued(c, x, Advance(c.tail, |c.buffer|));
    if ok {
      assert Contents(d) == Contents(c) + [x];
    }
  }

  /** For any capacity: dequeueing removes the front, and is refused exactly when empty. */
  lemma ModuloDequeueIsFront<T>(c: Cells<T>)
    requires InRange(c)
    ensures var (d, r) := Dequeued(c, Advance(c.head, |c.buffer|));
            && InRange(d) && |d.buffer| == |c.buffer|
            && r == (if Contents(c) == [] then None else Some(Contents(c)[0]))
            && Contents(d) == if Contents(c) == [] then [] else Contents(c)[1..]
  {
    hide Advance;
    AdvanceIs(c.head, |c.buffer|);
    var (d, r) := Dequeued(c, Advance(c.head, |c.buffer|));
    if r.Some? {
      assert Contents(d) == Contents(c)[1..];
    }
  }

  /** The mask form of a power-of-two capacity appends alike. */
  lemma EnqueueIsAppend<T>(c: Cells<T>, x: T, k: nat)
    requires Fits(c, k)
    ensures var (d, ok) := Enqueued(c, x, MaskNext(c.tail, |c.buffer|));
            && Enqueued(c, x, Advance(c.tail, |c.buffer|)) == (d, ok)
            && Fits(d, k)
            && (ok <==> |Contents(c)| < |c.buffer| - 1)
            && Contents(d) == if ok then Contents(c) + [x] else Contents(c)
  {
    hide Pow2, Contents, Advance, MaskNext, Enqueued;
    MaskNextIs(c.tail, k);
    ModuloEnqueueIsAppend(c, x);
  }

  /** The mask form of a power-of-two capacity removes the front alike. */
  lemma DequeueIsFront<T>(c: Cells<T>, k: nat)
    requires Fits(c, k)
    ensures var (d, r) := Dequeued(c, MaskNext(c.head, |c.buffer|));
            && Dequeued(c, Advance(c.head, |c.buffer|)) == (d, r)
            && Fits(d, k)
            && r == (if Contents(c) == [] then None else Some(Contents(c)[0]))
            && Contents(d) == if Contents(c) == [] then [] else Contents(c)[1..]
  {
    hide Pow2, Contents, Advance, MaskNext, Dequeued;
    MaskNextIs(c.head, k);
    ModuloDequeueIsFront(c);
  }

  lemma SizeIsLength<T>(c: Cells<T>, k: nat)
    requires Fits(c, k)
    ensures MaskSize(c) == CaseSize(c) == |Contents(c)|
  {
    hide Pow2, BitAnd;
    MaskedDifference(c.head, c.tail, k);
  }

  // ---- every operation sequence ---------------------------------------------

  datatype Op<T> = Enqueue(x: T) | Dequeue | Size | IsFull

  datatype Reply<T> = Accepted(ok: bool) | Removed(item: Option<T>) | Counted(n: nat)

  function MaskStep<T>(c: Cells<T>, op: Op<T>): (r: (Cells<T>, Reply<T>))
    requires InRange(c)
    ensures InRange(r.0)
  {
    match op
    case Enqueue(x) => var (d, ok) := Enqueued(c, x, MaskNext(c.tail, |c.buffer|)); (d, Accepted(ok))
    case Dequeue => var (d, item) := Dequeued(c, MaskNext(c.head, |c.buffer|)); (d, Removed(item))
    case Size => (c, Counted(MaskSize(c)))
    case IsFull => (c, Accepted(MaskNext(c.tail, |c.buffer|) == c.head))
  }

  function ModuloStep<T>(c: Cells<T>, op: Op<T>): (r: (Cells<T>, Reply<T>))
    requires InRange(c)
    ensures InRange(r.0)
  {
    match op
    case Enqueue(x) => var (d, ok) := Enqueued(c, x, Advance(c.tail, |c.buffer|)); (d, Accepted(ok))
    case Dequeue => var (d, item) := Dequeued(c, Advance(c.head, |c.buffer|)); (d, Removed(item))
    case Size => (c, Counted(CaseSize(c)))
    case IsFull => (c, Accepted(Advance(c.tail, |c.buffer|) == c.head))
  }

  function MaskRun<T>(c: Cells<T>, ops: seq<Op<T>>): seq<Reply<T>>
    requires InRange(c)
    decreases |ops|
  {
    if ops == [] then [] else
    var (d, reply) := MaskStep(c, ops[0]);
    [reply] + MaskRun(d, ops[1..])
  }

  function ModuloRun<T>(c: Cells<T>, ops: seq<Op<T>>): seq<Reply<T>>
    requires InRange(c)
    decreases |ops|
  {
    if ops == [] then [] else
    var (d, reply) := ModuloStep(c, ops[0]);
    [reply] + ModuloRun(d, ops[1..])
  }

  /** The reference: a list that holds at most `capacity` elements. */
  function ListStep<T>(q: seq<T>, op: Op<T>, capacity: nat): (seq<T>, Reply<T>) {
    match op
    case Enqueue(x) => if |q| < capacity then (q + [x], Accepted(true)) else (q, Accepted(false))
    case Dequeue => if q == [] then (q, Removed(None)) else (q[1..], Removed(Some(q[0])))
    case Size => (q, Counted(|q|))
    case IsFull => (q, Accepted(|q| == capacity))
  }

  function ListRun<T>(q: seq<T>, ops: seq<Op<T>>, capacity: nat): seq<Reply<T>>
    decreases |ops|
  {
    if ops == [] then [] else
    var (r, reply) := ListStep(q, ops[0], capacity);
    [reply] + ListRun(r, ops[1..], capacity)
  }

  lemma StepsAgree<T>(c: Cells<T>, op: Op<T>, k: nat)
    requires Fits(c, k)
    ensures MaskStep(c, op) == ModuloStep(c, op)
    ensures Fits(MaskStep(c, op).0, k)
    ensures ListStep(Contents(c), op, |c.buffer| - 1) == (Contents(MaskStep(c, op).0), MaskStep(c, op).1)
  {
    hide Pow2, BitAnd, Advance, MaskNext, Contents, CaseSize, MaskSize, Enqueued, Dequeued;
    match op
    case Enqueue(x) => EnqueueIsAppend(c, x, k);
    case Dequeue => DequeueIsFront(c, k);
    case Size => SizeIsLength(c, k);
    case IsFull =>
      MaskNextIs(c.tail, k);
      FullIs(c);
  }

  lemma FullIs<T>(c: Cells<T>)
    requires InRange(c)
    ensures Advance(c.tail, |c.buffer|) == c.head <==> |Contents(c)| == |c.buffer| - 1
  {
    hide Advance;
    AdvanceIs(c.tail, |c.buffer|);
  }

  lemma ModuloStepIsList<T>(c: Cells<T>, op: Op<T>)
    requires InRange(c)
    ensures var (d, reply) := ModuloStep(c, op);
            |d.buffer| == |c.buffer| && ListStep(Contents(c), op, |c.buffer| - 1) == (Contents(d), reply)
  {
    hide Advance, Contents, Enqueued, Dequeued;
    match op
    case Enqueue(x) => ModuloEnqueueIsAppend(c, x);
    case Dequeue => ModuloDequeueIsFront(c);
    case Size =>
    case IsFull => FullIs(c);
  }

  /** For any capacity the modulo-indexed queue answers every operation sequence as the list does. */
  lemma {:induction false} ModuloQueueIsList<T>(c: Cells<T>, ops: seq<Op<T>>)
    requires InRange(c)
    ensures ModuloRun(c, ops) == ListRun(Contents(c), ops, |c.buffer| - 1)
    decreases |ops|
  {
    hide ModuloStep, ListStep, Contents;
    if ops != [] {
      ModuloStepIsList(c, ops[0]);
      ModuloQueueIsList(ModuloStep(c, ops[0]).0, ops[1..]);
    }
  }

  /** On every operation sequence both queues answer exactly as the bounded list does. */
  lemma {:induction false} QueuesAgree<T>(c: Cells<T>, ops: seq<Op<T>>, k: nat)
    requires Fits(c, k)
    ensures MaskRun(c, ops) == ModuloRun(c, ops) == ListRun(Contents(c), ops, |c.buffer| - 1)
    decreases |ops|
  {
    hide MaskStep, ModuloStep, ListStep, Contents, Pow2;
    if ops != [] {
      StepsAgree(c, ops[0], k);
      QueuesAgree(MaskStep(c, ops[0]).0, ops[1..], k);
    }
  }

  // ---- the objects ----------------------------------------------------------

  /** The mask-indexed queue. */
  class MaskQueue<T(0)> {
    const buffer: array<T>
    ghost const k: nat
    var head: nat
    var tail: nat

    ghost function State(): Cells<T>
      reads this, buffer
    {
      Cells(buffer[..], head, tail)
    }

    ghost predicate Valid()
      reads this, buffer
    {
      Fits(State(), k)
    }

    constructor (capacity: nat, ghost k: nat)
      requires k <= 64 && capacity == Pow2(k)
      ensures Valid() && fresh(buffer) && buffer.Length == capacity && Contents(State()) == []
    {
      buffer := new T[capacity];
      this.k := k;
      head, tail := 0, 0;
    }

    method Enqueue(element: T) returns (ok: bool)
      requires Valid()
      modifies this`tail, buffer
      ensures Valid()
      ensures (State(), Accepted(ok)) == MaskStep(old(State()), Op.Enqueue(element))
      ensures ok <==> old(|Contents(State())|) < buffer.Length - 1
      ensures Contents(State()) == if ok then old(Contents(State())) + [element] else old(Contents(State()))
    {
      ghost var before := State();
      EnqueueIsAppend(before, element, k);
      hide Pow2, Contents, BitAnd, InRange;
      var nextTail := BitAnd(tail + 1, buffer.Length - 1);
      if nextTail == head {
        return false;
      }
      buffer[tail] := element;
      assert buffer[..] == before.buffer[before.tail := element];
      tail := nextTail;
      assert State() == Enqueued(before, element, nextTail).0;
      ok := true;
    }

    method Dequeue() returns (element: Option<T>)
      requires Valid()
      modifies this`head
      ensures Valid()
      ensures (State(), Removed(element)) == MaskStep(old(State()), Op.Dequeue)
      ensures element == if old(Contents(State())) == [] then None else Some(old(Contents(State())[0]))
      ensures Contents(State()) == if old(Contents(State())) == [] then [] else old(Contents(State())[1..])
    {
      DequeueIsFront(State(), k);
      hide Pow2, Contents;
      if head == tail {
        return None;
      }
      element := Some(buffer[head]);
      head := BitAnd(head + 1, buffer.Length - 1);
    }

    method Size() returns (n: nat)
      requires Valid()
      ensures n == |Contents(State())|
    {
      SizeIsLength(State(), k);
      n := BitAnd(WrapSub(tail, head), buffer.Length - 1);
    }
  }

  /** The modulo-indexed queue; any capacity. */
  class ModuloQueue<T(0)> {
    const buffer: array<T>
    var head: nat
    var tail: nat

    ghost function State(): Cells<T>
      reads this, buffer
    {
      Cells(buffer[..], head, tail)
    }

    ghost predicate Valid()
      reads this, buffer
    {
      InRange(State())
    }

    constructor (capacity: nat)
      requires capacity > 0
      ensures Valid() && fresh(buffer) && buffer.Length == capacity && Contents(State()) == []
    {
      buffer := new T[capacity];
      head, tail := 0, 0;
    }

    method Push(item: T) returns (ok: bool)
      requires Valid()
      modifies this`tail, buffer
      ensures Valid()
      ensures (State(), Accepted(ok)) == ModuloStep(old(State()), Op.Enqueue(item))
      ensures ok <==> old(|Contents(State())|) < buffer.Length - 1
      ensures Contents(State()) == if ok then old(Contents(State())) + [item] else old(Contents(State()))
    {
      ghost var before := State();
      ModuloEnqueueIsAppend(before, item);
      hide Contents, InRange;
      var nextTail := (tail + 1) % buffer.Length;
      if nextTail == head {
        return false;
      }
      buffer[tail] := item;
      assert buffer[..] == before.buffer[before.tail := item];
      tail := nextTail;
      assert State() == Enqueued(before, item, nextTail).0;
      ok := true;
    }

    method Pop() returns (item: Option<T>)
      requires Valid()
      modifies this`head
      ensures Valid()
      ensures (State(), Removed(item)) == ModuloStep(old(State()), Op.Dequeue)
      ensures item == if old(Contents(State())) == [] then None else Some(old(Contents(State())[0]))
      ensures Contents(State()) == if old(Contents(State())) == [] then [] else old(Contents(State())[1..])
    {
      ModuloDequeueIsFront(State());
      hide Contents;
      if head == tail {
        return None;
      }
      item := Some(buffer[head]);
      head := (head + 1) % buffer.Length;
    }

    method Size() returns (n: nat)
      requires Valid()
      ensures n == |Contents(State())|
    {
      n := if tail >= head then tail - head else buffer.Length - head + tail;
    }
  }
}
