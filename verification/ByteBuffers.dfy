/** The two sliding byte buffers: both are byte queues, and neither grows beyond twice what it
    ever had to hold. */
module ByteBuffers {
  import opened Bytes

  /** The bookkeeping of a buffer: capacity, read position, write position. */
  datatype Layout = Layout(capacity: nat, read: nat, write: nat) {
    predicate Valid() { read <= write <= capacity }
    function Live(): nat requires Valid() { write - read }
  }

  function Max(a: nat, b: nat): nat { if a >= b then a else b }

  // ---- Buffer: slides when that is enough, else grows at the tail -----------

  function SlideOrGrow(l: Layout, len: nat): (r: Layout)
    requires l.Valid()
    ensures r.Valid() && r.Live() == l.Live() && r.write + len <= r.capacity
  {
    if len <= l.capacity - l.write then l
    else if len <= l.read + (l.capacity - l.write) then Layout(l.capacity, 0, l.Live())
    else Layout(l.write + len, l.read, l.write)
  }

  function Appended(l: Layout, len: nat): (r: Layout)
    requires l.Valid()
    ensures r.Valid() && r.Live() == l.Live() + len
  {
    if len == 0 then l
    else var e := SlideOrGrow(l, len); e.(write := e.write + len)
  }

  function Consumed(l: Layout, n: nat): (r: Layout)
    requires l.Valid() && n <= l.Live()
    ensures r.Valid() && r.Live() == l.Live() - n
  {
    l.(read := l.read + n)
  }

  // ---- SimpleBuffer: compacts, or doubles into a new block ------------------

  function CompactOrDouble(l: Layout, len: nat): (r: Layout)
    requires l.Valid()
    ensures r.Valid() && r.Live() == l.Live() && r.write + len <= r.capacity
  {
    var available := l.capacity - l.write;
    if available >= len then l
    else if l.read + available >= len then Layout(l.capacity, 0, l.Live())
    else Layout(Max(l.capacity * 2, l.write + len), 0, l.Live())
  }

  function SimpleAppended(l: Layout, len: nat): (r: Layout)
    requires l.Valid()
    ensures r.Valid() && r.Live() == l.Live() + len
  {
    var e := CompactOrDouble(l, len); e.(write := e.write + len)
  }

  function SimpleConsumed(l: Layout, n: nat): (r: Layout)
    requires l.Valid() && n <= l.Live()
    ensures r.Valid() && r.Live() == l.Live() - n
  {
    var m := l.(read := l.read + n);
    if m.write == m.read then Layout(m.capacity, 0, 0)
    else if m.read > m.capacity / 2 then Layout(m.capacity, 0, m.Live())
    else m
  }

  // ---- every run of appends and in-bounds reads -----------------------------

  datatype Op = Append(data: seq<byte>) | Consume(n: nat)

  /** The reference byte queue. */
  function QueueStep(q: seq<byte>, op: Op): seq<byte> {
    match op
    case Append(data) => q + data
    case Consume(n) => if n <= |q| then q[n..] else q
  }

  predicate InBounds(q: seq<byte>, ops: seq<Op>)
    decreases |ops|
  {
    ops == [] || ((ops[0].Consume? ==> ops[0].n <= |q|) && InBounds(QueueStep(q, ops[0]), ops[1..]))
  }

  /** The most bytes live at any time of a run. */
  function Peak(q: seq<byte>, ops: seq<Op>): (p: nat)
    ensures p >= |q|
    decreases |ops|
  {
    if ops == [] then |q| else Max(|q|, Peak(QueueStep(q, ops[0]), ops[1..]))
  }

  function BufferRun(l: Layout, q: seq<byte>, ops: seq<Op>): Layout
    requires l.Valid() && l.Live() == |q| && InBounds(q, ops)
    decreases |ops|
  {
    if ops == [] then l
    else
      BufferRun(match ops[0] case Append(data) => Appended(l, |data|) case Consume(n) => Consumed(l, n),
                QueueStep(q, ops[0]), ops[1..])
  }

  function SimpleRun(l: Layout, q: seq<byte>, ops: seq<Op>): Layout
    requires l.Valid() && l.Live() == |q| && InBounds(q, ops)
    decreases |ops|
  {
    if ops == [] then l
    else
      SimpleRun(match ops[0] case Append(data) => SimpleAppended(l, |data|) case Consume(n) => SimpleConsumed(l, n),
                QueueStep(q, ops[0]), ops[1..])
  }

  /** In every run the capacity stays within the bound it starts with or twice the peak. */
  lemma {:induction false} BufferCapacityBounded(l: Layout, q: seq<byte>, ops: seq<Op>, bound: nat)
    requires l.Valid() && l.Live() == |q| && InBounds(q, ops) && l.capacity <= bound
    ensures BufferRun(l, q, ops).capacity <= Max(bound, 2 * Peak(q, ops))
    decreases |ops|
  {
    if ops != [] {
      var next := QueueStep(q, ops[0]);
      match ops[0]
      case Append(data) => BufferCapacityBounded(Appended(l, |data|), next, ops[1..], Max(bound, 2 * |next|));
      case Consume(n) => BufferCapacityBounded(Consumed(l, n), next, ops[1..], bound);
    }
  }

  lemma {:induction false} SimpleCapacityBounded(l: Layout, q: seq<byte>, ops: seq<Op>, bound: nat)
    requires l.Valid() && l.Live() == |q| && InBounds(q, ops) && l.capacity <= bound
    ensures SimpleRun(l, q, ops).capacity <= Max(bound, 2 * Peak(q, ops))
    decreases |ops|
  {
    if ops != [] {
      var next := QueueStep(q, ops[0]);
      match ops[0]
      case Append(data) => SimpleCapacityBounded(SimpleAppended(l, |data|), next, ops[1..], Max(bound, 2 * |next|));
      case Consume(n) => SimpleCapacityBounded(SimpleConsumed(l, n), next, ops[1..], bound);
    }
  }

  // ---- the objects ----------------------------------------------------------

  const BUFFER_DEFAULT_SIZE := 1024
  const SIMPLE_DEFAULT_SIZE := 4096

  /** `memcpy` of `data` to offset `at`, extending the bytes that start at `from`. */
  method CopyInto(buffer: array<byte>, ghost from: nat, at: nat, data: seq<byte>)
    requires from <= at && at + |data| <= buffer.Length
    modifies buffer
    ensures buffer[from..at + |data|] == old(buffer[from..at]) + data
  {
    forall i | 0 <= i < |data| {
      buffer[at + i] := data[i];
    }
    assert buffer[at..at + |data|] == data;
    assert buffer[from..at] == old(buffer[from..at]);
    assert buffer[from..at + |data|] == buffer[from..at] + buffer[at..at + |data|];
  }

  class Buffer {
    var buffer: array<byte>
    var readerOffset: nat
    var writerOffset: nat

    ghost function Shape(): Layout
      reads this
    {
      Layout(buffer.Length, readerOffset, writerOffset)
    }

    ghost predicate Valid()
      reads this
    {
      Shape().Valid()
    }

    /** The readable bytes. */
    ghost function Contents(): (q: seq<byte>)
      requires Valid()
      reads this, buffer
      ensures |q| == Shape().Live()
    {
      buffer[readerOffset..writerOffset]
    }

    constructor ()
      ensures fresh(buffer) && buffer.Length == 1024 && readerOffset == 0 && writerOffset == 0
    {
      buffer := new byte[BUFFER_DEFAULT_SIZE];
      readerOffset, writerOffset := 0, 0;
    }

    method EnsureWritableSpaceEnough(len: nat)
      requires Valid()
      modifies this, buffer
      ensures Valid() && (buffer == old(buffer) || fresh(buffer))
      ensures Shape() == SlideOrGrow(old(Shape()), len) && Contents() == old(Contents())
      ensures len <= old(buffer.Length - writerOffset) ==>
                buffer == old(buffer) && readerOffset == old(readerOffset) && writerOffset == old(writerOffset)
      ensures old(buffer.Length - writerOffset) < len <= old(readerOffset + buffer.Length - writerOffset) ==>
                buffer == old(buffer) && readerOffset == 0 && writerOffset == old(writerOffset - readerOffset)
      ensures old(readerOffset + buffer.Length - writerOffset) < len ==>
                && buffer.Length == old(writerOffset) + len
                && readerOffset == old(readerOffset) && writerOffset == old(writerOffset)
    {
      if len == 0 || len <= buffer.Length - writerOffset {
        return;
      }
      var rsz := writerOffset - readerOffset;
      if len <= readerOffset + (buffer.Length - writerOffset) {
        forall i | 0 <= i < rsz {
          buffer[i] := buffer[readerOffset + i];
        }
        readerOffset, writerOffset := 0, rsz;
      } else {
        var grown := new byte[writerOffset + len];
        forall i | 0 <= i < buffer.Length {
          grown[i] := buffer[i];
        }
        buffer := grown;
      }
    }

    method WriteAndPushOffSet(data: seq<byte>)
      requires Valid()
      modifies this, buffer
      ensures Valid() && (buffer == old(buffer) || fresh(buffer))
      ensures Contents() == old(Contents()) + data && Shape() == Appended(old(Shape()), |data|)
    {
      if |data| == 0 {
        return;
      }
      EnsureWritableSpaceEnough(|data|);
      CopyInto(buffer, readerOffset, writerOffset, data);
      writerOffset := writerOffset + |data|;
    }

    method ReadAndPushOffSet(len: nat) returns (data: seq<byte>)
      requires Valid() && len <= |Contents()|
      modifies this
      ensures Valid() && buffer == old(buffer)
      ensures data == old(Contents())[..len] && Contents() == old(Contents())[len..]
      ensures Shape() == Consumed(old(Shape()), len)
    {
      data := buffer[readerOffset..readerOffset + len];
      readerOffset := readerOffset + len;
    }
  }

  class SimpleBuffer {
    var buffer: array<byte>
    var readPos: nat
    var writePos: nat

    ghost function Shape(): Layout
      reads this
    {
      Layout(buffer.Length, readPos, writePos)
    }

    ghost predicate Valid()
      reads this
    {
      Shape().Valid()
    }

    ghost function Contents(): (q: seq<byte>)
      requires Valid()
      reads this, buffer
      ensures |q| == Shape().Live()
    {
      buffer[readPos..writePos]
    }

    constructor (initialCapacity: nat)
      ensures fresh(buffer) && buffer.Length == initialCapacity && readPos == 0 && writePos == 0
    {
      buffer := new byte[initialCapacity];
      readPos, writePos := 0, 0;
    }

    method Compact()
      requires Valid()
      modifies this, buffer
      ensures Valid() && buffer == old(buffer) && Contents() == old(Contents())
      ensures Shape() == Layout(old(buffer.Length), 0, old(Shape().Live()))
    {
      if readPos > 0 {
        var dataSize := writePos - readPos;
        forall i | 0 <= i < dataSize {
          buffer[i] := buffer[readPos + i];
        }
        readPos, writePos := 0, dataSize;
      }
    }

    method EnsureCapacity(len: nat)
      requires Valid()
      modifies this, buffer
      ensures Valid() && (buffer == old(buffer) || fresh(buffer))
      ensures Shape() == CompactOrDouble(old(Shape()), len) && Contents() == old(Contents())
      ensures len <= old(buffer.Length - writePos) ==>
                buffer == old(buffer) && readPos == old(readPos) && writePos == old(writePos)
      ensures old(buffer.Length - writePos) < len ==> readPos == 0 && writePos == old(writePos - readPos)
      ensures old(buffer.Length - writePos) < len <= old(readPos + buffer.Length - writePos) ==> buffer == old(buffer)
      ensures old(readPos + buffer.Length - writePos) < len ==>
                buffer.Length == if old(2 * buffer.Length) >= old(writePos) + len then old(2 * buffer.Length)
                                 else old(writePos) + len
    {
      var available := buffer.Length - writePos;
      if available >= len {
        return;
      }
      if readPos + available >= len {
        Compact();
      } else {
        var newSize := Max(buffer.Length * 2, writePos + len);
        var s := writePos - readPos;
        var newBuffer := new byte[newSize];
        forall i | 0 <= i < s {
          newBuffer[i] := buffer[readPos + i];
        }
        buffer, readPos, writePos := newBuffer, 0, s;
      }
    }

    method Write(data: seq<byte>)
      requires Valid()
      modifies this, buffer
      ensures Valid() && (buffer == old(buffer) || fresh(buffer))
      ensures Contents() == old(Contents()) + data && Shape() == SimpleAppended(old(Shape()), |data|)
      ensures buffer.Length >= old(buffer.Length)
    {
      EnsureCapacity(|data|);
      CopyInto(buffer, readPos, writePos, data);
      writePos := writePos + |data|;
    }

    /** `data()`: the live bytes from the front. */
    method Data(len: nat) returns (data: seq<byte>)
      requires Valid() && len <= |Contents()|
      ensures data == Contents()[..len]
    {
      data := buffer[readPos..writePos][..len];
    }

    /** The source does not check `len`; its callers stay within the live bytes. */
    method Advance(len: nat)
      requires Valid() && len <= |Contents()|
      modifies this, buffer
      ensures Valid() && buffer == old(buffer)
      ensures Contents() == old(Contents())[len..] && Shape() == SimpleConsumed(old(Shape()), len)
      ensures Contents() == [] ==> readPos == 0 && writePos == 0
      ensures Contents() != [] ==>
                readPos == (if old(readPos) + len > buffer.Length / 2 then 0 else old(readPos) + len)
    {
      readPos := readPos + len;
      if writePos == readPos {
        readPos, writePos := 0, 0;
      } else if readPos > buffer.Length / 2 {
        Compact();
      }
    }
  }

  // ---- both objects on one run ----------------------------------------------

  function QueueRun(q: seq<byte>, ops: seq<Op>): seq<byte>
    decreases |ops|
  {
    if ops == [] then q else QueueRun(QueueStep(q, ops[0]), ops[1..])
  }

  /** From here the run `ops` ends in the given layouts and contents. */
  ghost predicate EndsIn(l: Layout, m: Layout, q: seq<byte>, ops: seq<Op>, end: (Layout, Layout, seq<byte>)) {
    && l.Valid() && m.Valid() && l.Live() == m.Live() == |q| && InBounds(q, ops)
    && (BufferRun(l, q, ops), SimpleRun(m, q, ops), QueueRun(q, ops)) == end
  }

  lemma EndsInStep(l: Layout, m: Layout, q: seq<byte>, ops: seq<Op>, end: (Layout, Layout, seq<byte>))
    requires ops != [] && EndsIn(l, m, q, ops, end)
    ensures l.Valid() && m.Valid() && l.Live() == m.Live() == |q| && (ops[0].Consume? ==> ops[0].n <= |q|)
    ensures EndsIn(if ops[0].Append? then Appended(l, |ops[0].data|) else Consumed(l, ops[0].n),
                   if ops[0].Append? then SimpleAppended(m, |ops[0].data|) else SimpleConsumed(m, ops[0].n),
                   QueueStep(q, ops[0]), ops[1..], end)
  {
    hide Appended, Consumed, SimpleAppended, SimpleConsumed;
  }

  /** One operation, done by both objects. */
  method StepBoth(buffer: Buffer, simple: SimpleBuffer, op: Op)
    requires buffer.Valid() && simple.Valid() && buffer.buffer != simple.buffer
    requires buffer.Contents() == simple.Contents() && (op.Consume? ==> op.n <= |buffer.Contents()|)
    modifies buffer, buffer.buffer, simple, simple.buffer
    ensures buffer.Valid() && simple.Valid() && buffer.buffer != simple.buffer
    ensures buffer.buffer == old(buffer.buffer) || fresh(buffer.buffer)
    ensures simple.buffer == old(simple.buffer) || fresh(simple.buffer)
    ensures buffer.Contents() == simple.Contents() == QueueStep(old(buffer.Contents()), op)
    ensures buffer.Shape() == if op.Append? then Appended(old(buffer.Shape()), |op.data|)
                              else Consumed(old(buffer.Shape()), op.n)
    ensures simple.Shape() == if op.Append? then SimpleAppended(old(simple.Shape()), |op.data|)
                              else SimpleConsumed(old(simple.Shape()), op.n)
  {
    hide Appended, Consumed, SimpleAppended, SimpleConsumed;
    match op
    case Append(data) =>
      buffer.WriteAndPushOffSet(data);
      simple.Write(data);
    case Consume(n) =>
      var _ := buffer.ReadAndPushOffSet(n);
      simple.Advance(n);
  }

  /** Over every run of appends and in-bounds reads, two buffers that start with the same bytes hold
      exactly the reference queue, within the capacity bound. */
  method RunBoth(buffer: Buffer, simple: SimpleBuffer, ops: seq<Op>)
    requires buffer.Valid() && simple.Valid() && buffer.buffer != simple.buffer
    requires buffer.Contents() == simple.Contents() && InBounds(buffer.Contents(), ops)
    modifies buffer, buffer.buffer, simple, simple.buffer
    ensures buffer.Valid() && simple.Valid()
    ensures buffer.Contents() == simple.Contents() == QueueRun(old(buffer.Contents()), ops)
    ensures var bound := 2 * Peak(old(buffer.Contents()), ops);
            && buffer.Shape().capacity <= Max(old(buffer.Shape().capacity), bound)
            && simple.Shape().capacity <= Max(old(simple.Shape().capacity), bound)
  {
    ghost var l, m, q := buffer.Shape(), simple.Shape(), buffer.Contents();
    BufferCapacityBounded(l, q, ops, l.capacity);
    SimpleCapacityBounded(m, q, ops, m.capacity);
    ghost var end := (BufferRun(l, q, ops), SimpleRun(m, q, ops), QueueRun(q, ops));
    assert EndsIn(l, m, q, ops, end);
    hide EndsIn, BufferRun, SimpleRun, QueueRun, Peak, InBounds;
    FeedBoth(buffer, simple, ops, end);
  }

  /** Both objects fed the operations one by one. */
  method FeedBoth(buffer: Buffer, simple: SimpleBuffer, ops: seq<Op>, ghost end: (Layout, Layout, seq<byte>))
    requires buffer.Valid() && simple.Valid() && buffer.buffer != simple.buffer
    requires buffer.Contents() == simple.Contents()
    requires EndsIn(buffer.Shape(), simple.Shape(), buffer.Contents(), ops, end)
    modifies buffer, buffer.buffer, simple, simple.buffer
    ensures buffer.Valid() && simple.Valid()
    ensures (buffer.Shape(), simple.Shape(), buffer.Contents()) == end && simple.Contents() == buffer.Contents()
    decreases |ops|
  {
    if ops != [] {
      EndsInStep(buffer.Shape(), simple.Shape(), buffer.Contents(), ops, end);
      hide EndsIn, QueueStep, Appended, Consumed, SimpleAppended, SimpleConsumed;
      StepBoth(buffer, simple, ops[0]);
      FeedBoth(buffer, simple, ops[1..], end);
    }
  }
}
