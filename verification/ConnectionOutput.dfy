/** The output path of a connection inside its loop thread: sending, write readiness, shutdown
    and release. A message callback may send but does not shut the connection down. */
module ConnectionOutput {
  import opened Bytes

  datatype Statu = Connecting | Connected | Disconnecting | Disconnected

  /** The fields of the connection, the releases queued on the loop, and history: the bytes
      accepted for sending, the bytes the socket took, and whether some release was queued other
      than by shutting down. */
  datatype Output = Output(
    statu: Statu, obuffer: seq<byte>, writeInterest: bool, queuedReleases: nat, released: bool,
    accepted: seq<byte>, written: seq<byte>, forced: bool)

  const FRESH := Output(Connecting, [], false, 0, false, [], [], false)

  datatype Op =
    | Established
    | Send(data: seq<byte>)
    | WriteReady(taken: nat)                     // the socket takes that many bytes; 0 for EAGAIN or EINTR
    | WriteFails(sends: seq<seq<byte>>)          // what the message callback sends meanwhile
    | Shutdown(sends: seq<seq<byte>>)
    | PeerClosed(sends: seq<seq<byte>>)
    | RunRelease

  predicate Enabled(s: Output, op: Op) {
    match op
    case Established => s.statu.Connecting?
    case WriteReady(taken) => s.writeInterest && !s.released && taken <= |s.obuffer|
    case WriteFails(_) => s.writeInterest && !s.released
    case RunRelease => s.queuedReleases > 0
    case _ => true
  }

  function SendInLoop(s: Output, data: seq<byte>): Output {
    if s.statu.Disconnected? then s
    else s.(obuffer := s.obuffer + data, accepted := s.accepted + data, writeInterest := true)
  }

  function SendAll(s: Output, sends: seq<seq<byte>>): Output
    decreases |sends|
  {
    if sends == [] then s else SendAll(SendInLoop(s, sends[0]), sends[1..])
  }

  function Joined(sends: seq<seq<byte>>): seq<byte> {
    if sends == [] then [] else sends[0] + Joined(sends[1..])
  }

  lemma {:induction false} SendAllJoins(s: Output, sends: seq<seq<byte>>)
    ensures var t := SendAll(s, sends);
            if s.statu.Disconnected? then t == s
            else
              && t.accepted == s.accepted + Joined(sends) && t.obuffer == s.obuffer + Joined(sends)
              && t == s.(accepted := t.accepted, obuffer := t.obuffer, writeInterest := t.writeInterest)
    decreases |sends|
  {
    if sends == [] {
      assert s.accepted + [] == s.accepted && s.obuffer + [] == s.obuffer;
    } else {
      SendAllJoins(SendInLoop(s, sends[0]), sends[1..]);
      assert s.accepted + (sends[0] + Joined(sends[1..])) == (s.accepted + sends[0]) + Joined(sends[1..]);
      assert s.obuffer + (sends[0] + Joined(sends[1..])) == (s.obuffer + sends[0]) + Joined(sends[1..]);
    }
  }

  function Release(s: Output): Output {
    s.(queuedReleases := s.queuedReleases + 1)
  }

  function WriteHandler(s: Output, taken: nat): Output
    requires taken <= |s.obuffer|
  {
    var t := s.(written := s.written + s.obuffer[..taken], obuffer := s.obuffer[taken..]);
    if t.obuffer != [] then t
    else
      var u := t.(writeInterest := false);
      if u.statu.Disconnecting? then Release(u) else u
  }

  function ShutdownInLoop(s: Output, sends: seq<seq<byte>>): Output {
    Finished(SendAll(s.(statu := Disconnecting), sends))
  }

  function Finished(s: Output): Output {
    if s.obuffer != [] then s.(writeInterest := true) else Release(s)
  }

  function Apply(s: Output, op: Op): Output
    requires Enabled(s, op)
  {
    match op
    case Established => s.(statu := Connected)
    case Send(data) => SendInLoop(s, data)
    case WriteReady(taken) => WriteHandler(s, taken)
    case WriteFails(sends) => Release(SendAll(s, sends)).(forced := true)
    case Shutdown(sends) => ShutdownInLoop(s, sends)
    case PeerClosed(sends) => Release(SendAll(s, sends)).(forced := true)
    case RunRelease =>
      s.(statu := Disconnected, writeInterest := false, released := true, queuedReleases := s.queuedReleases - 1)
  }

  // ---- the invariant --------------------------------------------------------

  /** Nothing is lost or reordered, and unsent bytes have write interest. */
  ghost predicate Streaming(s: Output) {
    && s.written + s.obuffer == s.accepted
    && (s.obuffer != [] ==> s.writeInterest)
    && (s.statu.Disconnected? ==> s.released)
  }

  /** A release queued by shutting down finds the first `n` accepted bytes written. */
  ghost predicate Flushed(s: Output, n: nat) {
    n <= |s.accepted| && (s.queuedReleases > 0 && !s.forced ==> n <= |s.written|)
  }

  /** Before the first release has run. */
  ghost predicate Inv(s: Output, n: nat) {
    !s.released ==> Streaming(s) && Flushed(s, n)
  }

  lemma SendKeepsInv(s: Output, data: seq<byte>)
    requires !s.released && Streaming(s)
    ensures var t := SendInLoop(s, data);
            && !t.released && Streaming(t) && t.written == s.written && t.forced == s.forced
            && t.queuedReleases == s.queuedReleases && t.accepted == s.accepted + data && t.statu == s.statu
  {
    assert s.written + (s.obuffer + data) == (s.written + s.obuffer) + data;
  }

  lemma {:induction false} SendAllKeepsInv(s: Output, sends: seq<seq<byte>>)
    requires !s.released && Streaming(s)
    ensures var t := SendAll(s, sends);
            && !t.released && Streaming(t) && t.written == s.written && t.forced == s.forced
            && t.queuedReleases == s.queuedReleases && s.accepted <= t.accepted && t.statu == s.statu
    decreases |sends|
  {
    if sends != [] {
      SendKeepsInv(s, sends[0]);
      hide Streaming, SendInLoop;
      SendAllKeepsInv(SendInLoop(s, sends[0]), sends[1..]);
    }
  }

  lemma WriteKeepsInv(s: Output, taken: nat, n: nat)
    requires !s.released && Streaming(s) && Flushed(s, n) && taken <= |s.obuffer|
    ensures Inv(WriteHandler(s, taken), n) && WriteHandler(s, taken).accepted == s.accepted
  {
    assert s.written + s.obuffer[..taken] + s.obuffer[taken..] == s.written + s.obuffer;
  }

  lemma ShutdownKeepsInv(s: Output, sends: seq<seq<byte>>, n: nat)
    requires !s.released && Streaming(s) && Flushed(s, n)
    ensures Inv(ShutdownInLoop(s, sends), n) && !ShutdownInLoop(s, sends).released
  {
    var t := s.(statu := Disconnecting);
    SendAllKeepsInv(t, sends);
    var u := SendAll(t, sends);
    assert u.obuffer == [] ==> u.written == u.accepted;
  }

  lemma ApplyKeepsInv(s: Output, op: Op, n: nat)
    requires Inv(s, n) && Enabled(s, op)
    ensures Inv(Apply(s, op), n)
  {
    if s.released {
      ReleasedStays(s, op);
    } else {
      match op
      case Send(data) => SendKeepsInv(s, data);
      case WriteReady(taken) => WriteKeepsInv(s, taken, n);
      case WriteFails(sends) => SendAllKeepsInv(s, sends);
      case Shutdown(sends) => ShutdownKeepsInv(s, sends, n);
      case PeerClosed(sends) => SendAllKeepsInv(s, sends);
      case _ =>
    }
  }

  lemma {:induction false} SendAllReleased(s: Output, sends: seq<seq<byte>>)
    ensures SendAll(s, sends).released == s.released
    decreases |sends|
  {
    if sends != [] {
      SendAllReleased(SendInLoop(s, sends[0]), sends[1..]);
    }
  }

  lemma ReleasedStays(s: Output, op: Op)
    requires s.released && Enabled(s, op)
    ensures Apply(s, op).released
  {
    match op
    case WriteFails(sends) => SendAllReleased(s, sends);
    case Shutdown(sends) => SendAllReleased(s.(statu := Disconnecting), sends);
    case PeerClosed(sends) => SendAllReleased(s, sends);
    case _ =>
  }

  // ---- runs -----------------------------------------------------------------

  predicate RunFrom(s: Output, ops: seq<Op>)
    decreases |ops|
  {
    ops == [] || (Enabled(s, ops[0]) && RunFrom(Apply(s, ops[0]), ops[1..]))
  }

  function After(s: Output, ops: seq<Op>): Output
    requires RunFrom(s, ops)
    decreases |ops|
  {
    if ops == [] then s else After(Apply(s, ops[0]), ops[1..])
  }

  lemma {:induction false} RunKeepsInv(s: Output, ops: seq<Op>, n: nat)
    requires Inv(s, n) && RunFrom(s, ops)
    ensures Inv(After(s, ops), n)
    decreases |ops|
  {
    hide Inv, Apply, Enabled;
    if ops != [] {
      ApplyKeepsInv(s, ops[0], n);
      RunKeepsInv(Apply(s, ops[0]), ops[1..], n);
    }
  }

  /** In every run, until release: bytes written and bytes buffered are the accepted bytes in
      order, and a non-empty buffer has write interest on. */
  lemma StreamIsPreserved(ops: seq<Op>)
    requires RunFrom(FRESH, ops) && !After(FRESH, ops).released
    ensures var e := After(FRESH, ops);
            e.written + e.obuffer == e.accepted && (e.obuffer != [] ==> e.writeInterest)
  {
    RunKeepsInv(FRESH, ops, 0);
  }

  /** However the run goes on after this shutdown, when the first release runs, and no release was
      queued for another reason, every byte accepted before the shutdown has been written. */
  ghost predicate ShutdownFlushes(s: Output, sends: seq<seq<byte>>) {
    forall ops | RunFrom(ShutdownInLoop(s, sends), ops) ::
      var e := After(ShutdownInLoop(s, sends), ops);
      !e.released && !e.forced && Enabled(e, RunRelease) ==> s.accepted <= e.written
  }

  /** A shutdown keeps that promise exactly when it finds no release queued or nothing unsent. */
  lemma ShutdownFlushesIff(s: Output, sends: seq<seq<byte>>)
    requires !s.released && !s.forced && Streaming(s)
    ensures ShutdownFlushes(s, sends) <==> s.queuedReleases == 0 || s.obuffer == []
  {
    var t, n := ShutdownInLoop(s, sends), |s.accepted|;
    ShutdownKeepsStream(s, sends);
    if s.queuedReleases == 0 || s.obuffer == [] {
      forall ops | RunFrom(t, ops) ensures
        var e := After(t, ops); !e.released && !e.forced && Enabled(e, RunRelease) ==> s.accepted <= e.written
      {
        RunKeepsInv(t, ops, n);
        RunExtends(t, ops);
        var e := After(t, ops);
        if !e.released && !e.forced && Enabled(e, RunRelease) {
          assert e.written == e.accepted[..|e.written|] && s.accepted == e.accepted[..n];
        }
      }
    } else {
      assert After(t, []) == t && RunFrom(t, []);
      assert |s.written| < |s.accepted|;
    }
  }

  lemma ShutdownKeepsStream(s: Output, sends: seq<seq<byte>>)
    requires !s.released && !s.forced && Streaming(s)
    ensures var t := ShutdownInLoop(s, sends);
            && !t.released && !t.forced && Streaming(t) && s.accepted <= t.accepted && t.written == s.written
            && (s.queuedReleases > 0 ==> t.queuedReleases > 0)
            && (s.queuedReleases == 0 || s.obuffer == [] ==> Inv(t, |s.accepted|))
  {
    SendAllKeepsInv(s.(statu := Disconnecting), sends);
    var u := SendAll(s.(statu := Disconnecting), sends);
    assert u.obuffer == [] ==> u.written == u.accepted;
    assert s.obuffer == [] ==> s.written == s.accepted;
  }

  lemma {:induction false} SendAllExtends(s: Output, sends: seq<seq<byte>>)
    ensures s.accepted <= SendAll(s, sends).accepted
    decreases |sends|
  {
    if sends != [] {
      SendAllExtends(SendInLoop(s, sends[0]), sends[1..]);
    }
  }

  lemma ApplyExtends(s: Output, op: Op)
    requires Enabled(s, op)
    ensures s.accepted <= Apply(s, op).accepted
  {
    match op
    case WriteFails(sends) => SendAllExtends(s, sends);
    case Shutdown(sends) => SendAllExtends(s.(statu := Disconnecting), sends);
    case PeerClosed(sends) => SendAllExtends(s, sends);
    case _ =>
  }

  lemma {:induction false} RunExtends(s: Output, ops: seq<Op>)
    requires RunFrom(s, ops)
    ensures s.accepted <= After(s, ops).accepted
    decreases |ops|
  {
    hide Apply, Enabled;
    if ops != [] {
      ApplyExtends(s, ops[0]);
      RunExtends(Apply(s, ops[0]), ops[1..]);
    }
  }

  /** The promise can fail: shut down, send, shut down again before the release has run. */
  lemma LateShutdownDrops() returns (ops: seq<Op>)
    ensures RunFrom(FRESH, ops)
    ensures var e := After(FRESH, ops); !e.released && !e.forced && e.obuffer == [7] && !ShutdownFlushes(e, [])
  {
    ops := [Shutdown([]), Send([7])];
    var a := Apply(FRESH, Shutdown([]));
    OneOp(a, Send([7]), []);
    OneOp(FRESH, Shutdown([]), [Send([7])]);
    assert [Send([7])] == [Send([7])] + [] && ops == [Shutdown([])] + [Send([7])];
    ShutdownFlushesIff(After(FRESH, ops), []);
  }

  lemma OneOp(s: Output, op: Op, rest: seq<Op>)
    requires Enabled(s, op) && RunFrom(Apply(s, op), rest)
    ensures RunFrom(s, [op] + rest) && After(s, [op] + rest) == After(Apply(s, op), rest)
  {
    assert ([op] + rest)[1..] == rest;
  }

  // ---- a shutdown comes to its end ------------------------------------------

  /** While disconnecting, either something is still to be written or the release is queued. */
  ghost predicate Closing(s: Output) {
    !s.released && s.statu.Disconnecting? && s.obuffer == [] ==> s.queuedReleases > 0
  }

  lemma {:induction false} SendAllBuffer(s: Output, sends: seq<seq<byte>>)
    ensures var t := SendAll(s, sends);
            && t.statu == s.statu && t.queuedReleases == s.queuedReleases
            && (t.obuffer == [] ==> s.obuffer == [])
    decreases |sends|
  {
    if sends != [] {
      SendAllBuffer(SendInLoop(s, sends[0]), sends[1..]);
    }
  }

  lemma ApplyKeepsClosing(s: Output, op: Op)
    requires Closing(s) && Enabled(s, op)
    ensures Closing(Apply(s, op))
  {
    match op
    case WriteFails(sends) => SendAllBuffer(s, sends);
    case Shutdown(sends) => SendAllBuffer(s.(statu := Disconnecting), sends);
    case PeerClosed(sends) => SendAllBuffer(s, sends);
    case RunRelease =>
    case _ => if s.released { ReleasedStays(s, op); }
  }

  lemma {:induction false} RunKeepsClosing(s: Output, ops: seq<Op>)
    requires Closing(s) && RunFrom(s, ops)
    ensures Closing(After(s, ops))
    decreases |ops|
  {
    hide Closing, Apply, Enabled;
    if ops != [] {
      ApplyKeepsClosing(s, ops[0]);
      RunKeepsClosing(Apply(s, ops[0]), ops[1..]);
    }
  }

  /** In every run: a connection that is shutting down with nothing left to write has its release
      queued. */
  lemma DrainedIsReleased(ops: seq<Op>)
    requires RunFrom(FRESH, ops)
    ensures var e := After(FRESH, ops);
            !e.released && e.statu == Disconnecting && e.obuffer == [] ==> e.queuedReleases > 0
  {
    RunKeepsClosing(FRESH, ops);
  }

  /** A run of write events that takes `n` bytes in all. */
  predicate Writes(ops: seq<Op>, n: nat) {
    if ops == [] then n == 0
    else ops[0].WriteReady? && ops[0].taken <= n && Writes(ops[1..], n - ops[0].taken)
  }

  /** In every run, a write event moves exactly the first unsent bytes to the socket. */
  lemma WriteMovesFirst(ops: seq<Op>, n: nat)
    requires RunFrom(FRESH, ops) && !After(FRESH, ops).released && Enabled(After(FRESH, ops), WriteReady(n))
    ensures var e := After(FRESH, ops);
            var t := Apply(e, WriteReady(n));
            && |e.written| + n <= |e.accepted|
            && t.written == e.accepted[..|e.written| + n] && t.accepted == e.accepted
            && t.obuffer == e.accepted[|e.written| + n..]
            && (t.writeInterest <==> t.obuffer != []) && !t.released && t.statu == e.statu
            && t.queuedReleases == e.queuedReleases + if t.obuffer == [] && e.statu == Disconnecting then 1 else 0
  {
    RunKeepsInv(FRESH, ops, 0);
    var e := After(FRESH, ops);
    assert e.accepted == e.written + e.obuffer;
  }

  lemma {:induction false} WritesDrain(s: Output, ops: seq<Op>)
    requires !s.released && Streaming(s) && s.statu.Disconnecting? && s.obuffer != []
    requires RunFrom(s, ops) && Writes(ops, |s.obuffer|)
    ensures var e := After(s, ops);
            && !e.released && e.accepted == s.accepted && e.written == s.accepted && e.obuffer == []
            && Enabled(e, RunRelease)
    decreases |ops|
  {
    assert ops != [];
    var t := Apply(s, ops[0]);
    assert s.obuffer[..ops[0].taken] + s.obuffer[ops[0].taken..] == s.obuffer;
    assert t.written + t.obuffer == s.accepted by {
      assert s.written + s.obuffer[..ops[0].taken] + t.obuffer == s.written + s.obuffer;
    }
    if t.obuffer == [] {
      OnlyEmptyWrites(t, ops[1..]);
      assert t.written + [] == t.written;
    } else {
      WritesDrain(t, ops[1..]);
    }
  }

  /** Once drained nothing more is written: write interest is off. */
  lemma OnlyEmptyWrites(t: Output, ops: seq<Op>)
    requires RunFrom(t, ops) && Writes(ops, 0) && !t.writeInterest
    ensures ops == []
  {
  }

  /** In every run: after a shutdown that leaves bytes to write, any write events that take them all
      lead to a queued release with every accepted byte written; one such event is enough. */
  lemma ShutdownEnds(ops: seq<Op>, sends: seq<seq<byte>>, writes: seq<Op>)
    requires RunFrom(FRESH, ops) && !After(FRESH, ops).released
    requires var t := ShutdownInLoop(After(FRESH, ops), sends);
             RunFrom(t, writes) && Writes(writes, |t.obuffer|)
    ensures var t := ShutdownInLoop(After(FRESH, ops), sends);
            var e := After(t, writes);
            && t.statu == Disconnecting && !e.released && e.written == t.accepted && Enabled(e, RunRelease)
            && e.obuffer == []
    ensures var t := ShutdownInLoop(After(FRESH, ops), sends);
            t.obuffer != [] ==>
              RunFrom(t, [WriteReady(|t.obuffer|)]) && Writes([WriteReady(|t.obuffer|)], |t.obuffer|)
  {
    RunKeepsInv(FRESH, ops, 0);
    var e := After(FRESH, ops);
    SendAllKeepsInv(e.(statu := Disconnecting), sends);
    var t := ShutdownInLoop(e, sends);
    assert Streaming(t) && t.statu == Disconnecting && !t.released;
    if t.obuffer != [] {
      WritesDrain(t, writes);
      assert [WriteReady(|t.obuffer|)][1..] == [];
    } else {
      OnlyEmptyOps(t, writes);
    }
  }

  /** With an empty buffer write events change nothing but queue releases. */
  lemma {:induction false} OnlyEmptyOps(t: Output, ops: seq<Op>)
    requires RunFrom(t, ops) && Writes(ops, 0) && t.obuffer == [] && !t.released
    requires Streaming(t) && t.queuedReleases > 0
    ensures var e := After(t, ops);
            !e.released && e.obuffer == [] && e.written == t.accepted && e.queuedReleases > 0
    decreases |ops|
  {
    assert t.written + [] == t.written;
    if ops != [] {
      var u := Apply(t, ops[0]);
      assert t.written + [] == u.written;
      OnlyEmptyOps(u, ops[1..]);
    }
  }

  // ---- the object -----------------------------------------------------------

  class Connection {
    var statu: Statu
    var obuffer: seq<byte>
    var writeInterest: bool
    var queuedReleases: nat
    var released: bool
    ghost var accepted: seq<byte>
    ghost var written: seq<byte>
    ghost var forced: bool

    ghost function State(): Output
      reads this
    {
      Output(statu, obuffer, writeInterest, queuedReleases, released, accepted, written, forced)
    }

    constructor ()
      ensures State() == FRESH && Inv(State(), 0)
    {
      statu, obuffer, writeInterest, queuedReleases, released := Connecting, [], false, 0, false;
      accepted, written, forced := [], [], false;
    }

    method SendInLoop(buf: seq<byte>)
      requires Inv(State(), 0)
      modifies this
      ensures State() == Apply(old(State()), Send(buf)) && Inv(State(), 0)
      ensures accepted == if old(statu) == Disconnected then old(accepted) else old(accepted) + buf
      ensures obuffer == if old(statu) == Disconnected then old(obuffer) else old(obuffer) + buf
      ensures writeInterest == (old(writeInterest) || old(statu) != Disconnected)
      ensures statu == old(statu) && written == old(written) && queuedReleases == old(queuedReleases)
    {
      ApplyKeepsInv(State(), Send(buf), 0);
      if statu == Disconnected {
        return;
      }
      obuffer, accepted := obuffer + buf, accepted + buf;
      if !writeInterest {
        writeInterest := true;
      }
    }

    /** A successful write event: the socket took `ret` bytes. */
    method WriteHandler(ret: nat)
      requires Inv(State(), 0) && Enabled(State(), WriteReady(ret))
      modifies this
      ensures State() == Apply(old(State()), WriteReady(ret)) && Inv(State(), 0)
      ensures written == old(written) + old(obuffer)[..ret] && obuffer == old(obuffer)[ret..]
      ensures writeInterest == (old(writeInterest) && obuffer != []) && statu == old(statu)
      ensures queuedReleases == old(queuedReleases) + if obuffer == [] && statu == Disconnecting then 1 else 0
    {
      ApplyKeepsInv(State(), WriteReady(ret), 0);
      written := written + obuffer[..ret];
      obuffer := obuffer[ret..];
      if |obuffer| == 0 {
        writeInterest := false;
        if statu == Disconnecting {
          queuedReleases := queuedReleases + 1;
        }
      }
    }

    /** The message callback's sends, one by one. */
    method SendEach(sends: seq<seq<byte>>)
      modifies this
      ensures State() == SendAll(old(State()), sends)
      ensures accepted == if old(statu) == Disconnected then old(accepted) else old(accepted) + Joined(sends)
      ensures obuffer == if old(statu) == Disconnected then old(obuffer) else old(obuffer) + Joined(sends)
      ensures statu == old(statu) && written == old(written) && queuedReleases == old(queuedReleases)
      ensures released == old(released) && forced == old(forced)
    {
      SendAllJoins(State(), sends);
      ghost var whole := SendAll(State(), sends);
      var i := 0;
      assert sends[0..] == sends;
      while i < |sends|
        invariant i <= |sends| && SendAll(State(), sends[i..]) == whole
      {
        assert sends[i..][0] == sends[i] && sends[i..][1..] == sends[i + 1..];
        if statu != Disconnected {
          obuffer, accepted, writeInterest := obuffer + sends[i], accepted + sends[i], true;
        }
        i := i + 1;
      }
    }

    /** The end of a shutdown: keep writing what is buffered, or queue the release. */
    method Finish()
      modifies this
      ensures State() == Finished(old(State()))
      ensures queuedReleases == old(queuedReleases) + if obuffer == [] then 1 else 0
      ensures obuffer == old(obuffer) && statu == old(statu) && accepted == old(accepted) && written == old(written)
    {
      if |obuffer| > 0 {
        if !writeInterest {
          writeInterest := true;
        }
      }
      if |obuffer| == 0 {
        queuedReleases := queuedReleases + 1;
      }
    }

    /** `sends` is what the message callback sends when there is unread input. */
    method ShutdownInLoop(sends: seq<seq<byte>>)
      requires Inv(State(), 0)
      modifies this
      ensures State() == Apply(old(State()), Shutdown(sends)) && Inv(State(), 0)
      ensures statu == Disconnecting && accepted == old(accepted) + Joined(sends)
      ensures obuffer == old(obuffer) + Joined(sends) && written == old(written)
      ensures queuedReleases == old(queuedReleases) + if obuffer == [] then 1 else 0
    {
      ApplyKeepsInv(State(), Shutdown(sends), 0);
      hide Inv, SendAll, Joined;
      statu := Disconnecting;
      SendEach(sends);
      Finish();
    }

    /** A failed write, a peer close or an error: let the callback finish, then queue the release. */
    method CloseHandler(sends: seq<seq<byte>>)
      requires Inv(State(), 0)
      modifies this
      ensures State() == Apply(old(State()), PeerClosed(sends)) && Inv(State(), 0)
      ensures accepted == if old(statu) == Disconnected then old(accepted) else old(accepted) + Joined(sends)
      ensures queuedReleases == old(queuedReleases) + 1 && statu == old(statu) && written == old(written)
    {
      ApplyKeepsInv(State(), PeerClosed(sends), 0);
      hide Inv, SendAll, Joined;
      SendEach(sends);
      queuedReleases := queuedReleases + 1;
      forced := true;
    }

    /** A write event whose write fails. */
    method WriteError(sends: seq<seq<byte>>)
      requires Inv(State(), 0) && Enabled(State(), WriteFails(sends))
      modifies this
      ensures State() == Apply(old(State()), WriteFails(sends)) && Inv(State(), 0)
      ensures accepted == if old(statu) == Disconnected then old(accepted) else old(accepted) + Joined(sends)
      ensures queuedReleases == old(queuedReleases) + 1 && statu == old(statu) && written == old(written)
    {
      ApplyKeepsInv(State(), WriteFails(sends), 0);
      hide Inv, SendAll, Joined;
      SendEach(sends);
      queuedReleases := queuedReleases + 1;
      forced := true;
    }

    method EstablishedInLoop()
      requires Inv(State(), 0) && Enabled(State(), Established)
      modifies this
      ensures State() == Apply(old(State()), Established) && Inv(State(), 0)
      ensures statu == Connected && obuffer == old(obuffer) && accepted == old(accepted) && written == old(written)
      ensures writeInterest == old(writeInterest) && queuedReleases == old(queuedReleases) && released == old(released)
    {
      ApplyKeepsInv(State(), Established, 0);
      statu := Connected;
    }

    method ReleaseInLoop()
      requires Inv(State(), 0) && Enabled(State(), RunRelease)
      modifies this
      ensures State() == Apply(old(State()), RunRelease) && Inv(State(), 0)
      ensures statu == Disconnected && !writeInterest && released && queuedReleases == old(queuedReleases) - 1
      ensures obuffer == old(obuffer) && written == old(written) && accepted == old(accepted)
    {
      statu, writeInterest, released, queuedReleases := Disconnected, false, true, queuedReleases - 1;
    }
  }
}
