/** The event loop's task queue and its eventfd wake-up: any number of pushing threads, the loop
    thread among them, interleaved with the loop's wait, read, swap and execute. */
module EventLoop {

  /** Where the loop thread stands in `Run`. */
  datatype Loop<T> =
    | Waiting                      // in epoll_wait
    | Handling(readable: bool)     // epoll_wait returned; whether the eventfd was among the ready ones
    | BeforeSwap                   // event handlers done
    | Executing(batch: seq<T>)     // running the swapped-out tasks

  const LOOP_THREAD: nat := 0
  const COUNTER_MAX: nat := 0xFFFF_FFFF_FFFF_FFFE

  /** `pushed` and `executed` record history. */
  datatype State<T> = State(
    tasks: seq<T>,
    counter: nat,             // the eventfd's counter
    writing: set<nat>,        // threads between push_back and the eventfd write
    loop: Loop<T>,
    pushed: seq<T>,
    executed: seq<T>)

  datatype Step<T> =
    | PushTask(thread: nat, task: T)
    | WriteEventfd(thread: nat)
    | InterruptedWrite(thread: nat)   // write() fails with EINTR and the code returns silently
    | Wake
    | ReadEventfd
    | HandleOthers
    | SwapTasks
    | ExecuteTask
    | WaitAgain

  ghost predicate Initial<T>(s: State<T>) {
    s == State([], 0, {}, Waiting, [], [])
  }

  ghost predicate Enabled<T>(s: State<T>, step: Step<T>) {
    match step
    case PushTask(thread, _) =>
      thread !in s.writing && (thread == LOOP_THREAD ==> s.loop.Handling? || s.loop.Executing?)
    case WriteEventfd(thread) => thread in s.writing
    case InterruptedWrite(thread) => thread in s.writing
    case Wake => s.loop.Waiting?
    case ReadEventfd => s.loop.Handling? && s.loop.readable && LOOP_THREAD !in s.writing
    case HandleOthers => s.loop.Handling? && !s.loop.readable && LOOP_THREAD !in s.writing
    case SwapTasks => s.loop.BeforeSwap?
    case ExecuteTask => s.loop.Executing? && s.loop.batch != [] && LOOP_THREAD !in s.writing
    case WaitAgain => s.loop.Executing? && s.loop.batch == [] && LOOP_THREAD !in s.writing
  }

  ghost function Next<T>(s: State<T>, step: Step<T>): State<T>
    requires Enabled(s, step)
  {
    match step
    case PushTask(thread, task) =>
      s.(tasks := s.tasks + [task], pushed := s.pushed + [task], writing := s.writing + {thread})
    case WriteEventfd(thread) =>
      // at its maximum the counter is left alone (EAGAIN)
      s.(counter := if s.counter < COUNTER_MAX then s.counter + 1 else s.counter, writing := s.writing - {thread})
    case InterruptedWrite(thread) => s.(writing := s.writing - {thread})
    case Wake => s.(loop := Handling(s.counter > 0))
    case ReadEventfd => s.(counter := 0, loop := Handling(false))
    case HandleOthers => s.(loop := BeforeSwap)
    case SwapTasks => s.(tasks := [], loop := Executing(s.tasks))
    case ExecuteTask => s.(executed := s.executed + [s.loop.batch[0]], loop := Executing(s.loop.batch[1..]))
    case WaitAgain => s.(loop := Waiting)
  }

  /** Tasks taken from the queue but not run yet. */
  ghost function Batch<T>(s: State<T>): seq<T> {
    if s.loop.Executing? then s.loop.batch else []
  }

  /** A queued task always has a wake-up coming: a positive counter, a pending write, or a loop
      that is already on its way to the swap. */
  ghost predicate WakeupComing<T>(s: State<T>) {
    s.tasks != [] ==> s.counter > 0 || s.writing != {} || s.loop.Handling? || s.loop.BeforeSwap?
  }

  /** Every pushed task is executed, in the batch or queued, in push order. */
  ghost predicate InOrder<T>(s: State<T>) {
    s.executed + Batch(s) + s.tasks == s.pushed
  }

  lemma NextKeepsOrder<T>(s: State<T>, step: Step<T>)
    requires InOrder(s) && Enabled(s, step)
    ensures InOrder(Next(s, step))
  {
    match step
    case PushTask(_, task) =>
      assert s.executed + Batch(s) + (s.tasks + [task]) == (s.executed + Batch(s) + s.tasks) + [task];
    case SwapTasks =>
      assert s.executed + [] + s.tasks == s.executed + s.tasks + [];
    case ExecuteTask =>
      var b := s.loop.batch;
      assert (s.executed + [b[0]]) + b[1..] + s.tasks == s.executed + b + s.tasks;
    case _ =>
  }

  lemma NextKeepsWakeup<T>(s: State<T>, step: Step<T>)
    requires WakeupComing(s) && Enabled(s, step) && !step.InterruptedWrite?
    ensures WakeupComing(Next(s, step))
  {
    match step
    case PushTask(thread, _) => assert thread in Next(s, step).writing;
    case _ =>
  }

  // ---- runs -----------------------------------------------------------------

  ghost predicate RunFrom<T>(s: State<T>, steps: seq<Step<T>>)
    decreases |steps|
  {
    steps == [] || (Enabled(s, steps[0]) && RunFrom(Next(s, steps[0]), steps[1..]))
  }

  ghost function After<T>(s: State<T>, steps: seq<Step<T>>): State<T>
    requires RunFrom(s, steps)
    decreases |steps|
  {
    if steps == [] then s else After(Next(s, steps[0]), steps[1..])
  }

  ghost predicate Uninterrupted<T>(steps: seq<Step<T>>) {
    forall k :: 0 <= k < |steps| ==> !steps[k].InterruptedWrite?
  }

  lemma {:induction false} RunKeeps<T>(s: State<T>, steps: seq<Step<T>>)
    requires RunFrom(s, steps) && InOrder(s)
    ensures InOrder(After(s, steps))
    ensures WakeupComing(s) && Uninterrupted(steps) ==> WakeupComing(After(s, steps))
    decreases |steps|
  {
    hide InOrder, WakeupComing, Enabled, Next;
    if steps != [] {
      NextKeepsOrder(s, steps[0]);
      if WakeupComing(s) && Uninterrupted(steps) {
        NextKeepsWakeup(s, steps[0]);
      }
      RunKeeps(Next(s, steps[0]), steps[1..]);
    }
  }

  /** In every run, tasks are executed exactly once each, in push order. */
  lemma ExecutedInPushOrder<T>(s: State<T>, steps: seq<Step<T>>)
    requires Initial(s) && RunFrom(s, steps)
    ensures var e := After(s, steps); e.executed + Batch(e) + e.tasks == e.pushed && e.executed <= e.pushed
  {
    RunKeeps(s, steps);
    var e := After(s, steps);
    assert e.executed + (Batch(e) + e.tasks) == e.executed + Batch(e) + e.tasks;
  }

  /** A loop that waits with tasks queued will be woken. */
  ghost predicate NoLostWakeup<T>(s: State<T>) {
    s.loop.Waiting? && s.tasks != [] ==> s.counter > 0 || s.writing != {}
  }

  /** In every run whose eventfd writes are not interrupted, no wake-up is lost. */
  lemma WakeupNeverLost<T>(s: State<T>, steps: seq<Step<T>>)
    requires Initial(s) && RunFrom(s, steps) && Uninterrupted(steps)
    ensures NoLostWakeup(After(s, steps))
  {
    RunKeeps(s, steps);
  }

  /** An interrupted write is enough to lose one: the loop waits, a task is queued, nothing is coming. */
  lemma InterruptedWriteLosesWakeup() returns (s: State<int>, steps: seq<Step<int>>)
    ensures Initial(s) && RunFrom(s, steps) && !NoLostWakeup(After(s, steps))
  {
    s := State([], 0, {}, Waiting, [], []);
    var t := Next(s, PushTask(1, 7));
    var u := Next(t, InterruptedWrite(1));
    steps := [PushTask(1, 7), InterruptedWrite(1)];
    assert steps[1..] == [InterruptedWrite(1)] && steps[1..][1..] == [];
    assert t.writing == {1} && u.writing == {} && u.tasks == [7];
    assert RunFrom(u, steps[1..][1..]) && RunFrom(t, steps[1..]);
    assert After(s, steps) == u;
  }

  // ---- exactly when a wake-up is lost, told from the steps ------------------

  /** The loop has gone back to epoll_wait and not come out of it. */
  ghost predicate LoopWaits<T>(steps: seq<Step<T>>) {
    steps == [] ||
    var last := steps[|steps| - 1];
    last.WaitAgain? || (!last.Wake? && LoopWaits(steps[..|steps| - 1]))
  }

  /** A task was pushed after the last swap. */
  ghost predicate PushedSinceSwap<T>(steps: seq<Step<T>>) {
    steps != [] &&
    var last := steps[|steps| - 1];
    last.PushTask? || (!last.SwapTasks? && PushedSinceSwap(steps[..|steps| - 1]))
  }

  /** An eventfd write went through after the last read. */
  ghost predicate WrittenSinceRead<T>(steps: seq<Step<T>>) {
    steps != [] &&
    var last := steps[|steps| - 1];
    last.WriteEventfd? || (!last.ReadEventfd? && WrittenSinceRead(steps[..|steps| - 1]))
  }

  /** Pushes whose eventfd write has neither gone through nor been interrupted. */
  ghost function PendingWrites<T>(steps: seq<Step<T>>): int {
    if steps == [] then 0
    else
      var last := steps[|steps| - 1];
      PendingWrites(steps[..|steps| - 1]) +
      if last.PushTask? then 1 else if last.WriteEventfd? || last.InterruptedWrite? then -1 else 0
  }

  /** The state is what the steps say. */
  ghost predicate StepsTell<T>(s: State<T>, steps: seq<Step<T>>) {
    && (s.loop.Waiting? <==> LoopWaits(steps))
    && (s.tasks != [] <==> PushedSinceSwap(steps))
    && (s.counter > 0 <==> WrittenSinceRead(steps))
    && |s.writing| == PendingWrites(steps)
  }

  lemma {:induction false} RunSplits<T>(s: State<T>, steps: seq<Step<T>>, n: nat)
    requires RunFrom(s, steps) && n < |steps|
    ensures RunFrom(s, steps[..n]) && Enabled(After(s, steps[..n]), steps[n])
    ensures RunFrom(s, steps[..n + 1]) && After(s, steps[..n + 1]) == Next(After(s, steps[..n]), steps[n])
    decreases |steps|
  {
    hide Enabled, Next;
    var front := steps[..n + 1];
    assert front[0] == steps[0];
    if n > 0 {
      assert front[1..] == steps[1..][..n] && steps[..n][1..] == steps[1..][..n - 1];
      RunSplits(Next(s, steps[0]), steps[1..], n - 1);
    } else {
      assert front[1..] == [];
    }
  }

  lemma StepTells<T>(s: State<T>, steps: seq<Step<T>>, step: Step<T>)
    requires StepsTell(s, steps) && Enabled(s, step)
    ensures StepsTell(Next(s, step), steps + [step])
  {
    assert (steps + [step])[..|steps|] == steps;
  }

  lemma {:induction false} RunTells<T>(s: State<T>, steps: seq<Step<T>>, n: nat)
    requires Initial(s) && RunFrom(s, steps) && n <= |steps|
    ensures RunFrom(s, steps[..n]) && StepsTell(After(s, steps[..n]), steps[..n])
    decreases n
  {
    if n > 0 {
      RunTells(s, steps, n - 1);
      RunSplits(s, steps, n - 1);
      hide StepsTell, Next, Enabled;
      StepTells(After(s, steps[..n - 1]), steps[..n - 1], steps[n - 1]);
      assert steps[..n - 1] + [steps[n - 1]] == steps[..n];
    }
  }

  /** A run leaves a wake-up lost exactly when the loop is back in epoll_wait, a task was pushed after
      the last swap, every push has had its write, and no write since the last read went through. */
  lemma WakeupLostIff<T>(s: State<T>, steps: seq<Step<T>>)
    requires Initial(s) && RunFrom(s, steps)
    ensures !NoLostWakeup(After(s, steps)) <==>
              LoopWaits(steps) && PushedSinceSwap(steps) && PendingWrites(steps) == 0 && !WrittenSinceRead(steps)
  {
    RunTells(s, steps, |steps|);
    assert steps[..|steps|] == steps;
    hide LoopWaits, PushedSinceSwap, WrittenSinceRead, PendingWrites;
    var e := After(s, steps);
    assert e.writing == {} <==> |e.writing| == 0;
  }

  // ---- every queued task can be driven to execution -------------------------

  /** No push and no interruption: pending writes and the loop's own steps. */
  ghost predicate OwnSteps<T>(steps: seq<Step<T>>) {
    forall k :: 0 <= k < |steps| ==> !steps[k].PushTask? && !steps[k].InterruptedWrite?
  }

  lemma {:induction false} RunJoins<T>(s: State<T>, a: seq<Step<T>>, b: seq<Step<T>>)
    requires RunFrom(s, a) && RunFrom(After(s, a), b)
    ensures RunFrom(s, a + b) && After(s, a + b) == After(After(s, a), b)
    decreases |a|
  {
    hide Enabled, Next;
    if a == [] {
      assert a + b == b;
    } else {
      assert (a + b)[0] == a[0] && (a + b)[1..] == a[1..] + b;
      RunJoins(Next(s, a[0]), a[1..], b);
    }
  }

  lemma StepFirst<T>(s: State<T>, step: Step<T>, rest: seq<Step<T>>) returns (steps: seq<Step<T>>)
    requires Enabled(s, step) && !step.PushTask? && !step.InterruptedWrite?
    requires OwnSteps(rest) && RunFrom(Next(s, step), rest)
    ensures OwnSteps(steps) && RunFrom(s, steps) && After(s, steps) == After(Next(s, step), rest)
  {
    steps := [step] + rest;
    assert steps[1..] == rest;
    hide Enabled, Next;
  }

  /** The pending writes go through, in any order. */
  lemma {:induction false} DrainWrites<T>(s: State<T>) returns (steps: seq<Step<T>>)
    requires WakeupComing(s)
    ensures OwnSteps(steps) && RunFrom(s, steps)
    ensures var e := After(s, steps); e == s.(writing := {}, counter := e.counter) && WakeupComing(e)
    decreases |s.writing|
  {
    steps := [];
    if s.writing != {} {
      var thread :| thread in s.writing;
      var next := Next(s, WriteEventfd(thread));
      assert |next.writing| < |s.writing|;
      var rest := DrainWrites(next);
      steps := StepFirst(s, WriteEventfd(thread), rest);
    }
  }

  lemma {:induction false} ExecuteBatch<T>(s: State<T>) returns (steps: seq<Step<T>>)
    requires s.loop.Executing? && s.writing == {}
    ensures OwnSteps(steps) && RunFrom(s, steps)
    ensures After(s, steps) == s.(executed := s.executed + s.loop.batch, loop := Executing([]))
    decreases |s.loop.batch|
  {
    steps := [];
    var batch := s.loop.batch;
    if batch == [] {
      assert s.executed + batch == s.executed;
    } else {
      var rest := ExecuteBatch(Next(s, ExecuteTask));
      assert s.executed + [batch[0]] + batch[1..] == s.executed + batch;
      steps := StepFirst(s, ExecuteTask, rest);
    }
  }

  /** From behind the event handlers one swap and one batch do. */
  lemma SwapAndExecute<T>(s: State<T>) returns (steps: seq<Step<T>>)
    requires s.loop.BeforeSwap? && s.writing == {}
    ensures OwnSteps(steps) && RunFrom(s, steps)
    ensures After(s, steps) == s.(tasks := [], executed := s.executed + s.tasks, loop := Executing([]))
  {
    var rest := ExecuteBatch(Next(s, SwapTasks));
    steps := StepFirst(s, SwapTasks, rest);
  }

  lemma HandleAndExecute<T>(s: State<T>) returns (steps: seq<Step<T>>)
    requires s.loop.Handling? && s.writing == {}
    ensures OwnSteps(steps) && RunFrom(s, steps)
    ensures var e := After(s, steps);
            e == s.(tasks := [], executed := s.executed + s.tasks, loop := Executing([]), counter := e.counter)
  {
    if s.loop.readable {
      var next := Next(s, ReadEventfd);
      var rest := SwapAndExecute(Next(next, HandleOthers));
      var more := StepFirst(next, HandleOthers, rest);
      steps := StepFirst(s, ReadEventfd, more);
    } else {
      var rest := SwapAndExecute(Next(s, HandleOthers));
      steps := StepFirst(s, HandleOthers, rest);
    }
  }

  /** A waiting loop with tasks is woken by the counter and executes them. */
  lemma WakeAndExecute<T>(s: State<T>) returns (steps: seq<Step<T>>)
    requires s.loop.Waiting? && s.writing == {} && WakeupComing(s)
    ensures OwnSteps(steps) && RunFrom(s, steps)
    ensures var e := After(s, steps); e.tasks == [] && Batch(e) == [] && e.executed == s.executed + s.tasks
  {
    steps := [];
    if s.tasks == [] {
      assert s.executed + s.tasks == s.executed;
    } else {
      var rest := HandleAndExecute(Next(s, Wake));
      steps := StepFirst(s, Wake, rest);
    }
  }

  lemma LoopDrains<T>(s: State<T>) returns (steps: seq<Step<T>>)
    requires s.writing == {} && WakeupComing(s)
    ensures OwnSteps(steps) && RunFrom(s, steps)
    ensures var e := After(s, steps); e.tasks == [] && Batch(e) == []
  {
    match s.loop
    case Waiting => steps := WakeAndExecute(s);
    case Handling(_) => steps := HandleAndExecute(s);
    case BeforeSwap => steps := SwapAndExecute(s);
    case Executing(_) =>
      var first := ExecuteBatch(s);
      var t := After(s, first);
      var u := Next(t, WaitAgain);
      var rest := WakeAndExecute(u);
      var more := StepFirst(t, WaitAgain, rest);
      RunJoins(s, first, more);
      steps := first + more;
  }

  lemma {:induction false} OwnStepsPushNothing<T>(s: State<T>, steps: seq<Step<T>>)
    requires RunFrom(s, steps) && OwnSteps(steps)
    ensures After(s, steps).pushed == s.pushed
    decreases |steps|
  {
    if steps != [] {
      OwnStepsPushNothing(Next(s, steps[0]), steps[1..]);
    }
  }

  /** From every state of a run without interrupted writes the pending writes and the loop's own steps
      lead to a state in which every pushed task has been executed, in push order. */
  lemma QueuedTasksRun<T>(s: State<T>, steps: seq<Step<T>>) returns (more: seq<Step<T>>)
    requires Initial(s) && RunFrom(s, steps) && Uninterrupted(steps)
    ensures OwnSteps(more) && RunFrom(s, steps + more)
    ensures After(s, steps + more).executed == After(s, steps).pushed
  {
    RunKeeps(s, steps);
    var e := After(s, steps);
    var writes := DrainWrites(e);
    var f := After(e, writes);
    var rest := LoopDrains(f);
    RunJoins(e, writes, rest);
    more := writes + rest;
    RunJoins(s, steps, more);
    OwnStepsPushNothing(e, more);
    RunKeeps(e, more);
    var g := After(e, more);
    assert g.executed + Batch(g) + g.tasks == g.executed;
  }

  // ---- what was pushed, and what a round of the loop does -------------------

  /** The tasks of a run's pushes, in order. */
  function Pushes<T>(steps: seq<Step<T>>): seq<T> {
    if steps == [] then []
    else Pushes(steps[..|steps| - 1]) + if steps[|steps| - 1].PushTask? then [steps[|steps| - 1].task] else []
  }

  lemma {:induction false} PushedIs<T>(s: State<T>, steps: seq<Step<T>>, n: nat)
    requires Initial(s) && RunFrom(s, steps) && n <= |steps|
    ensures RunFrom(s, steps[..n]) && After(s, steps[..n]).pushed == Pushes(steps[..n])
    decreases n
  {
    if n > 0 {
      PushedIs(s, steps, n - 1);
      RunSplits(s, steps, n - 1);
      assert steps[..n][..n - 1] == steps[..n - 1];
    }
  }

  /** In every run: executed, taken and queued tasks are, in this order, exactly the tasks of the run's
      pushes, each once. */
  lemma PushesAreExecutedInOrder<T>(s: State<T>, steps: seq<Step<T>>)
    requires Initial(s) && RunFrom(s, steps)
    ensures var e := After(s, steps); e.executed + Batch(e) + e.tasks == Pushes(steps)
  {
    ExecutedInPushOrder(s, steps);
    PushedIs(s, steps, |steps|);
    assert steps[..|steps|] == steps;
  }

  /** A write adds one, up to the counter's maximum, and ends the thread's push. */
  lemma WriteAdds<T>(s: State<T>, thread: nat)
    requires Enabled(s, WriteEventfd(thread))
    ensures var t := Next(s, WriteEventfd(thread));
            && t.counter == (if s.counter < 0xFFFF_FFFF_FFFF_FFFE then s.counter + 1 else s.counter)
            && t == s.(counter := t.counter, writing := s.writing - {thread})
  {
  }

  lemma BackToWaiting<T>(s: State<T>) returns (steps: seq<Step<T>>)
    requires s.loop.BeforeSwap? && s.writing == {}
    ensures OwnSteps(steps) && RunFrom(s, steps)
    ensures After(s, steps) == s.(tasks := [], executed := s.executed + s.tasks, loop := Waiting)
  {
    var swap := SwapAndExecute(s);
    var t := After(s, swap);
    var u := Next(t, WaitAgain);
    assert RunFrom(u, []) && After(u, []) == u;
    var wait := StepFirst(t, WaitAgain, []);
    RunJoins(s, swap, wait);
    steps := swap + wait;
  }

  /** A loop that is woken reads the eventfd before it goes on, so that a round without further
      pushes ends with a counter of zero, no task left, and the loop asleep. */
  lemma RoundClears<T>(s: State<T>) returns (steps: seq<Step<T>>)
    requires s.loop.Waiting? && s.writing == {}
    ensures OwnSteps(steps) && RunFrom(s, [Wake] + steps)
    ensures Next(s, Wake).loop.Handling?
    ensures After(s, [Wake] + steps)
         == s.(counter := 0, tasks := [], executed := s.executed + s.tasks, loop := Waiting)
  {
    var t := Next(s, Wake);
    var rest;
    if t.loop.readable {
      var u := Next(t, ReadEventfd);
      var v := Next(u, HandleOthers);
      var back := BackToWaiting(v);
      var others := StepFirst(u, HandleOthers, back);
      rest := StepFirst(t, ReadEventfd, others);
    } else {
      var v := Next(t, HandleOthers);
      var back := BackToWaiting(v);
      rest := StepFirst(t, HandleOthers, back);
    }
    steps := rest;
    assert ([Wake] + steps)[1..] == steps;
  }
}
