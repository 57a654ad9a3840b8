/** When the callbacks of the timer wheel run, told from the operations alone: a task's delay
    starts with its add and again with every refresh that finds it. */
module TimerSchedule {
  import opened Timers

  // ---- what the operations say of the task an add made ----------------------

  predicate IsAdd(ops: seq<Op>, a: nat) {
    a < |ops| && ops[a].AddOp?
  }

  function CountAdds(ops: seq<Op>): nat {
    if ops == [] then 0
    else CountAdds(ops[..|ops| - 1]) + if ops[|ops| - 1].AddOp? then 1 else 0
  }

  /** The task object that operation `a` made. */
  function TaskOf(ops: seq<Op>, a: nat): Ref
    requires a <= |ops|
  {
    CountAdds(ops[..a])
  }

  /** Looking up the id leads to the task of `a`: since then the id was neither added again nor
      released, and no task of that id, this one or an older one, has expired. */
  predicate Found(ops: seq<Op>, a: nat)
    requires IsAdd(ops, a)
    decreases |ops|, 4
  {
    |ops| == a + 1 ||
    var front, last, id := ops[..|ops| - 1], ops[|ops| - 1], ops[a].id;
    && Found(front, a)
    && !(last.AddOp? && last.id == id) && last != ReleaseOp(id)
    && !(last.TickOp? && exists b :: 0 <= b < |front| && front[b].AddOp? && front[b].id == id && OnLastTick(front, b))
  }

  /** Ticks since the add, or since the last refresh that found the task. */
  function Idle(ops: seq<Op>, a: nat): nat
    requires IsAdd(ops, a)
    decreases |ops|, 1
  {
    if |ops| == a + 1 then 0
    else
      var front, last := ops[..|ops| - 1], ops[|ops| - 1];
      if last.TickOp? then Idle(front, a) + 1
      else if last == RefreshOp(ops[a].id) && Found(front, a) then 0
      else Idle(front, a)
  }

  /** The task has never been idle for its whole delay. */
  predicate Alive(ops: seq<Op>, a: nat)
    requires IsAdd(ops, a)
    decreases |ops|, 2
  {
    |ops| == a + 1 || (Alive(ops[..|ops| - 1], a) && Idle(ops, a) < Delay(ops[a].timeout))
  }

  /** The next tick is the one the task is due in. */
  predicate OnLastTick(ops: seq<Op>, a: nat)
    requires IsAdd(ops, a)
    decreases |ops|, 3
  {
    Alive(ops, a) && Idle(ops, a) + 1 == Delay(ops[a].timeout)
  }

  /** Some cancel found the task. */
  predicate Cancelled(ops: seq<Op>, a: nat)
    requires IsAdd(ops, a)
  {
    |ops| > a + 1 &&
    var front, last := ops[..|ops| - 1], ops[|ops| - 1];
    Cancelled(front, a) || (last == CancelOp(ops[a].id) && Found(front, a))
  }

  /** Operation `j` is the tick a whole delay after the add, or after the last refresh that found the
      task, and no cancel found it. */
  predicate DueIn(ops: seq<Op>, a: nat, j: nat) {
    a < j < |ops| && ops[a].AddOp? && ops[j].TickOp?
    && OnLastTick(ops[..j], a) && !Cancelled(ops[..j], a)
  }

  // ---- one operation further ------------------------------------------------

  lemma AddedNow(ops: seq<Op>, id: Id, timeout: nat)
    ensures var all, n := ops + [AddOp(id, timeout)], |ops|;
            && IsAdd(all, n) && Found(all, n) && Alive(all, n) && Idle(all, n) == 0 && !Cancelled(all, n)
            && TaskOf(all, n) == CountAdds(ops)
  {
    assert (ops + [AddOp(id, timeout)])[..|ops|] == ops;
  }

  lemma TellingSnoc(ops: seq<Op>, last: Op, a: nat)
    requires IsAdd(ops, a)
    ensures var all, id := ops + [last], ops[a].id;
            && IsAdd(all, a) && all[a] == ops[a] && TaskOf(all, a) == TaskOf(ops, a)
            && Idle(all, a) == (if last.TickOp? then Idle(ops, a) + 1
                                else if last == RefreshOp(id) && Found(ops, a) then 0
                                else Idle(ops, a))
            && (Alive(all, a) <==> Alive(ops, a) && Idle(all, a) < Delay(ops[a].timeout))
            && (Cancelled(all, a) <==> Cancelled(ops, a) || (last == CancelOp(id) && Found(ops, a)))
            && (Found(all, a) <==>
                  && Found(ops, a) && !(last.AddOp? && last.id == id) && last != ReleaseOp(id)
                  && !(last.TickOp? && SomeExpires(ops, id)))
  {
    var all := ops + [last];
    assert all[..|ops|] == ops && all[..a] == ops[..a];
  }

  /** A task of that id is on its last tick. */
  predicate SomeExpires(ops: seq<Op>, id: Id) {
    exists b :: 0 <= b < |ops| && ops[b].AddOp? && ops[b].id == id && OnLastTick(ops, b)
  }

  lemma {:induction false} AliveIdle(ops: seq<Op>, a: nat)
    requires IsAdd(ops, a) && Alive(ops, a)
    ensures Idle(ops, a) < Delay(ops[a].timeout)
  {
    DelayIsTimeout(ops[a].timeout);
  }

  lemma {:induction false} CountAddsGrows(ops: seq<Op>, a: nat, b: nat)
    requires a <= b <= |ops|
    ensures TaskOf(ops, a) <= TaskOf(ops, b)
    ensures a < b && ops[a].AddOp? ==> TaskOf(ops, a) < TaskOf(ops, b)
    decreases b
  {
    if a < b {
      assert ops[..b][..b - 1] == ops[..b - 1];
      CountAddsGrows(ops, a, b - 1);
    }
  }

  // ---- the table is what the operations say ---------------------------------

  predicate TableOk(t: Table) {
    && t.due.Keys == t.tasks.Keys
    && (forall id :: id in t.timers ==> t.timers[id] in t.tasks && t.tasks[t.timers[id]].id == id)
    && forall r :: r in t.tasks ==> r < t.created
  }

  ghost predicate AddTells(t: Table, ops: seq<Op>, a: nat)
    requires IsAdd(ops, a)
  {
    var r, id, timeout := TaskOf(ops, a), ops[a].id, ops[a].timeout;
    && r < t.created
    && (r in t.tasks <==> Alive(ops, a))
    && (r in t.tasks && r in t.due ==>
          && t.tasks[r] == Task(id, timeout, Cancelled(ops, a))
          && t.due[r] + Idle(ops, a) == t.now + Delay(timeout))
    && (Found(ops, a) <==> id in t.timers && t.timers[id] == r)
  }

  predicate HasAdd(ops: seq<Op>, r: Ref) {
    exists a :: 0 <= a < |ops| && ops[a].AddOp? && TaskOf(ops, a) == r
  }

  ghost predicate Tells(t: Table, ops: seq<Op>) {
    && TableOk(t) && t.created == CountAdds(ops)
    && (forall a :: 0 <= a < |ops| && ops[a].AddOp? ==> AddTells(t, ops, a))
    && forall r :: r in t.tasks ==> HasAdd(ops, r)
  }

  lemma StepOk(t: Table, op: Op)
    requires TableOk(t)
    ensures TableOk(TableStep(t, op).0)
  {
    if op.TickOp? {
      var u := TableStep(t, op).0;
      forall id | id in u.timers ensures u.timers[id] in u.tasks {
        assert t.timers[id] !in DueRefs(t);
      }
    }
  }

  lemma AddStepTells(t: Table, ops: seq<Op>, id: Id, timeout: nat, a: nat)
    requires TableOk(t) && t.created == CountAdds(ops) && IsAdd(ops, a) && AddTells(t, ops, a)
    ensures AddTells(TableStep(t, AddOp(id, timeout)).0, ops + [AddOp(id, timeout)], a)
  {
    TellingSnoc(ops, AddOp(id, timeout), a);
    if Alive(ops, a) {
      AliveIdle(ops, a);
    }
    hide Found, Idle, Alive, Cancelled, TaskOf, Delay;
  }

  lemma NewAddTells(t: Table, ops: seq<Op>, id: Id, timeout: nat)
    requires TableOk(t) && t.created == CountAdds(ops)
    ensures AddTells(TableStep(t, AddOp(id, timeout)).0, ops + [AddOp(id, timeout)], |ops|)
  {
    AddedNow(ops, id, timeout);
    hide Found, Idle, Alive, Cancelled, TaskOf, Delay;
  }

  lemma TouchStepTells(t: Table, ops: seq<Op>, op: Op, a: nat)
    requires TableOk(t) && IsAdd(ops, a) && AddTells(t, ops, a) && (op.RefreshOp? || op.CancelOp? || op.ReleaseOp?)
    ensures AddTells(TableStep(t, op).0, ops + [op], a)
  {
    TellingSnoc(ops, op, a);
    DelayIsTimeout(ops[a].timeout);
    if Alive(ops, a) {
      AliveIdle(ops, a);
    }
    hide Found, Idle, Alive, Cancelled, TaskOf, Delay;
  }

  lemma TickStepTells(t: Table, ops: seq<Op>, a: nat)
    requires Tells(t, ops) && IsAdd(ops, a)
    ensures AddTells(TableStep(t, TickOp).0, ops + [TickOp], a)
  {
    assert AddTells(t, ops, a);
    TellingSnoc(ops, TickOp, a);
    if Alive(ops, a) {
      AliveIdle(ops, a);
    }
    TickErases(t, ops, ops[a].id);
    hide Found, Idle, Alive, Cancelled, TaskOf, Delay, SomeExpires, IdsOf, Tells;
  }

  lemma DueIsLastTick(t: Table, ops: seq<Op>, a: nat)
    requires TableOk(t) && IsAdd(ops, a) && AddTells(t, ops, a)
    ensures TaskOf(ops, a) in DueRefs(t) <==> OnLastTick(ops, a)
  {
    hide Found, Idle, Alive, Cancelled, TaskOf, Delay;
  }

  /** A tick erases an id exactly when a task of that id is on its last tick. */
  lemma TickErases(t: Table, ops: seq<Op>, id: Id)
    requires Tells(t, ops)
    ensures id in IdsOf(t.tasks, DueRefs(t)) <==> SomeExpires(ops, id)
  {
    hide Found, Idle, Alive, Cancelled, TaskOf, Delay, OnLastTick, DueRefs;
    if id in IdsOf(t.tasks, DueRefs(t)) {
      var r :| r in DueRefs(t) && r in t.tasks && t.tasks[r].id == id;
      var b :| 0 <= b < |ops| && ops[b].AddOp? && TaskOf(ops, b) == r;
      assert AddTells(t, ops, b);
      DueIsLastTick(t, ops, b);
      assert ops[b].id == id;
    }
    if SomeExpires(ops, id) {
      var b :| 0 <= b < |ops| && ops[b].AddOp? && ops[b].id == id && OnLastTick(ops, b);
      assert AddTells(t, ops, b);
      DueIsLastTick(t, ops, b);
      LastTickIsAlive(ops, b);
      assert TaskOf(ops, b) in DueRefs(t) && TaskOf(ops, b) in t.tasks;
    }
  }

  lemma LastTickIsAlive(ops: seq<Op>, a: nat)
    requires IsAdd(ops, a) && OnLastTick(ops, a)
    ensures Alive(ops, a)
  {
  }

  lemma HasAddSnoc(ops: seq<Op>, op: Op, r: Ref)
    requires HasAdd(ops, r) || (op.AddOp? && r == CountAdds(ops))
    ensures HasAdd(ops + [op], r)
  {
    var all := ops + [op];
    assert all[..|ops|] == ops;
    if HasAdd(ops, r) {
      var a :| 0 <= a < |ops| && ops[a].AddOp? && TaskOf(ops, a) == r;
      assert all[a].AddOp? && all[..a] == ops[..a];
      assert TaskOf(all, a) == r;
    } else {
      assert all[|ops|].AddOp? && TaskOf(all, |ops|) == r;
    }
  }

  lemma CountSnoc(ops: seq<Op>, op: Op)
    ensures CountAdds(ops + [op]) == CountAdds(ops) + if op.AddOp? then 1 else 0
  {
    assert (ops + [op])[..|ops|] == ops;
  }

  lemma OneStepTells(t: Table, ops: seq<Op>, op: Op, a: nat)
    requires Tells(t, ops) && IsAdd(ops + [op], a)
    ensures AddTells(TableStep(t, op).0, ops + [op], a)
  {
    if a == |ops| {
      NewAddTells(t, ops, op.id, op.timeout);
    } else {
      assert IsAdd(ops, a) && AddTells(t, ops, a);
      match op
      case AddOp(id, timeout) => AddStepTells(t, ops, id, timeout, a);
      case TickOp => TickStepTells(t, ops, a);
      case _ => TouchStepTells(t, ops, op, a);
    }
  }

  lemma StepTells(t: Table, ops: seq<Op>, op: Op)
    requires Tells(t, ops)
    ensures Tells(TableStep(t, op).0, ops + [op])
  {
    var u, all := TableStep(t, op).0, ops + [op];
    StepOk(t, op);
    CountSnoc(ops, op);
    forall a | 0 <= a < |all| && all[a].AddOp? ensures AddTells(u, all, a) {
      OneStepTells(t, ops, op, a);
    }
    forall r | r in u.tasks ensures HasAdd(all, r) {
      assert r in t.tasks || (op.AddOp? && r == t.created);
      HasAddSnoc(ops, op, r);
    }
  }

  function TableAfter(t: Table, ops: seq<Op>): Table
    decreases |ops|
  {
    if ops == [] then t else TableStep(TableAfter(t, ops[..|ops| - 1]), ops[|ops| - 1]).0
  }

  /** On every run the table holds exactly what the operations say of each add. */
  lemma {:induction false} TableTells(ops: seq<Op>)
    ensures Tells(TableAfter(START, ops), ops)
  {
    hide Tells, TableStep;
    if ops == [] {
      TellsNothing();
    } else {
      var n := |ops| - 1;
      TableTells(ops[..n]);
      StepTells(TableAfter(START, ops[..n]), ops[..n], ops[n]);
      assert ops[..n] + [ops[n]] == ops;
    }
  }

  lemma TellsNothing()
    ensures Tells(START, [])
  {
  }

  // ---- the schedule, on all runs --------------------------------------------

  lemma {:induction false} TableAfterCons(t: Table, ops: seq<Op>)
    requires ops != []
    ensures TableAfter(t, ops) == TableAfter(TableStep(t, ops[0]).0, ops[1..])
    decreases |ops|
  {
    var n := |ops| - 1;
    if n == 0 {
      assert ops[..0] == [] && ops[1..] == [];
    } else {
      assert ops[..n][1..] == ops[1..][..n - 1];
      TableAfterCons(t, ops[..n]);
    }
  }

  lemma {:induction false} TableRunAt(t: Table, ops: seq<Op>, j: nat)
    requires j < |ops|
    ensures TableRun(t, ops)[j] == TableStep(TableAfter(t, ops[..j]), ops[j]).1
    decreases |ops|
  {
    hide TableStep;
    if j > 0 {
      TableRunAt(TableStep(t, ops[0]).0, ops[1..], j - 1);
      TableAfterCons(t, ops[..j]);
      assert ops[..j][1..] == ops[1..][..j - 1];
    }
  }

  /** The tasks due in operation `j`, by the operations. */
  ghost function DueTasks(ops: seq<Op>, j: nat): set<Ref>
    requires j < |ops|
  {
    set a | 0 <= a < j && DueIn(ops, a, j) :: TaskOf(ops, a)
  }

  lemma PrefixTask(ops: seq<Op>, a: nat, j: nat)
    requires a <= j <= |ops|
    ensures TaskOf(ops[..j], a) == TaskOf(ops, a)
  {
    assert ops[..j][..a] == ops[..a];
  }

  lemma FiredIsDue(t: Table, ops: seq<Op>, a: nat, j: nat)
    requires a < j < |ops| && ops[a].AddOp? && TableOk(t) && AddTells(t, ops[..j], a)
    ensures TaskOf(ops, a) in TableStep(t, ops[j]).1 <==> DueIn(ops, a, j)
  {
    PrefixTask(ops, a, j);
    DueIsLastTick(t, ops[..j], a);
    hide Found, Idle, Alive, Cancelled, TaskOf, Delay, DueRefs;
    if OnLastTick(ops[..j], a) {
      LastTickIsAlive(ops[..j], a);
    }
  }

  lemma TableFiresWhenDue(ops: seq<Op>, j: nat)
    requires j < |ops|
    ensures TableRun(START, ops)[j] == DueTasks(ops, j)
  {
    var front := ops[..j];
    var t := TableAfter(START, front);
    TableRunAt(START, ops, j);
    TableTells(front);
    hide DueIn, TaskOf, AddTells, TableRun, TableAfter;
    forall a | 0 <= a < j && ops[a].AddOp? ensures TaskOf(ops, a) in TableStep(t, ops[j]).1 <==> DueIn(ops, a, j) {
      assert front[a].AddOp?;
      FiredIsDue(t, ops, a, j);
    }
    forall a | 0 <= a < j && DueIn(ops, a, j) ensures ops[a].AddOp? {
      DueIsAdd(ops, a, j);
    }
    forall r | r in TableStep(t, ops[j]).1 ensures r in DueTasks(ops, j) {
      assert r in t.tasks;
      var a :| 0 <= a < |front| && front[a].AddOp? && TaskOf(front, a) == r;
      PrefixTask(ops, a, j);
    }
  }

  lemma DueIsAdd(ops: seq<Op>, a: nat, j: nat)
    requires DueIn(ops, a, j)
    ensures a < j < |ops| && ops[a].AddOp?
  {
  }

  lemma TaskOfInjective(ops: seq<Op>, a: nat, b: nat)
    requires IsAdd(ops, a) && IsAdd(ops, b) && TaskOf(ops, a) == TaskOf(ops, b)
    ensures a == b
  {
    CountAddsGrows(ops, if a < b then a else b, if a < b then b else a);
  }

  /** On every run of a new wheel, whatever its operations: the callback of the task that an add made
      runs in an operation if and only if that is the tick a whole delay after the add, or after the
      last refresh that found the task, and no cancel found it. */
  lemma FiresOnSchedule(ops: seq<Op>, a: nat, j: nat)
    requires IsAdd(ops, a) && j < |ops|
    ensures Sound(EMPTY)
    ensures TaskOf(ops, a) in WheelRun(EMPTY, ops)[j] <==> DueIn(ops, a, j)
  {
    CallbacksAreDueTasks(ops, j);
    var r := TaskOf(ops, a);
    assert r in WheelRun(EMPTY, ops)[j] <==> r in (set q | q in WheelRun(EMPTY, ops)[j]);
    hide DueIn, TaskOf, WheelRun;
    if r in DueTasks(ops, j) {
      var b :| 0 <= b < j && DueIn(ops, b, j) && TaskOf(ops, b) == r;
      DueIsAdd(ops, b, j);
      TaskOfInjective(ops, a, b);
    }
    if DueIn(ops, a, j) {
      DueIsAdd(ops, a, j);
    }
  }

  /** In every operation of every run the callbacks are those of the tasks due then, each once. */
  lemma CallbacksAreDueTasks(ops: seq<Op>, j: nat)
    requires j < |ops|
    ensures Sound(EMPTY) && Lists(WheelRun(EMPTY, ops)[j], DueTasks(ops, j))
    ensures |WheelRun(EMPTY, ops)[j]| == |DueTasks(ops, j)|
  {
    InitiallyRelated();
    WheelIsTable(EMPTY, START, ops, j);
    TableFiresWhenDue(ops, j);
    hide Lists, WheelRun, DueTasks, TableRun;
    ListsCount(WheelRun(EMPTY, ops)[j], DueTasks(ops, j));
  }

  lemma {:induction false} AliveBefore(ops: seq<Op>, a: nat, n: nat)
    requires IsAdd(ops, a) && Alive(ops, a) && a < n <= |ops|
    ensures Alive(ops[..n], a) && Idle(ops[..n], a) < Delay(ops[a].timeout)
    decreases |ops|
  {
    if n == |ops| {
      assert ops[..n] == ops;
      AliveIdle(ops, a);
    } else {
      var front := ops[..|ops| - 1];
      assert front[..n] == ops[..n];
      AliveBefore(front, a, n);
    }
  }

  lemma NotDueTwice(ops: seq<Op>, a: nat, j: nat, k: nat)
    requires a < j < k < |ops| && ops[a].AddOp? && ops[j].TickOp? && OnLastTick(ops[..j], a)
    ensures !Alive(ops[..k], a)
  {
    TellingSnoc(ops[..j], ops[j], a);
    assert ops[..j] + [ops[j]] == ops[..j + 1] == ops[..k][..j + 1];
    if Alive(ops[..k], a) {
      AliveBefore(ops[..k], a, j + 1);
    }
  }

  /** An add makes its callback run at most once in a whole run. */
  lemma OncePerAdd(ops: seq<Op>, a: nat, j: nat, k: nat)
    requires DueIn(ops, a, j) && DueIn(ops, a, k)
    ensures j == k
  {
    if j < k {
      NotDueTwice(ops, a, j, k);
    } else if k < j {
      NotDueTwice(ops, a, k, j);
    }
  }

  // ---- being found, in closed form ------------------------------------------

  /** Operation `i` takes the id's entry away from the task of `a`. */
  predicate Unlinks(ops: seq<Op>, a: nat, i: nat)
    requires IsAdd(ops, a) && a < i < |ops|
  {
    var id := ops[a].id;
    || (ops[i].AddOp? && ops[i].id == id)
    || ops[i] == ReleaseOp(id)
    || (ops[i].TickOp? && exists b :: 0 <= b <= a && ops[b].AddOp? && ops[b].id == id && OnLastTick(ops[..i], b))
  }

  /** A task is found exactly while nothing since its add was a newer add of its id, a release of its
      id, or the expiry of the task itself or of an older task of its id. */
  lemma {:induction false} FoundIff(ops: seq<Op>, a: nat)
    requires IsAdd(ops, a)
    ensures Found(ops, a) <==> forall i :: a < i < |ops| ==> !Unlinks(ops, a, i)
    decreases |ops|
  {
    if |ops| > a + 1 {
      var n := |ops| - 1;
      var front := ops[..n];
      FoundIff(front, a);
      forall i | a < i < n ensures Unlinks(ops, a, i) <==> Unlinks(front, a, i) {
        assert front[..i] == ops[..i];
        assert forall b :: 0 <= b <= a ==> front[b] == ops[b];
      }
      if Found(front, a) {
        NoNewerAdd(front, a);
      }
      LastUnlinks(ops, a);
    }
  }

  lemma NoNewerAdd(ops: seq<Op>, a: nat)
    requires IsAdd(ops, a) && forall i :: a < i < |ops| ==> !Unlinks(ops, a, i)
    ensures forall b :: a < b < |ops| && ops[b].AddOp? ==> ops[b].id != ops[a].id
  {
    forall b | a < b < |ops| && ops[b].AddOp? ensures ops[b].id != ops[a].id {
      assert !Unlinks(ops, a, b);
    }
  }

  lemma LastUnlinks(ops: seq<Op>, a: nat)
    requires IsAdd(ops, a) && |ops| > a + 1
    requires Found(ops[..|ops| - 1], a) ==>
               forall b :: a < b < |ops| - 1 && ops[b].AddOp? ==> ops[b].id != ops[a].id
    ensures Found(ops, a) <==> Found(ops[..|ops| - 1], a) && !Unlinks(ops, a, |ops| - 1)
  {
    var front := ops[..|ops| - 1];
    forall b | 0 <= b < |front| ensures front[b] == ops[b] {
    }
  }

  // ---- without live re-adds the id alone tells ------------------------------

  /** Whether the id has not been released by hand since it was last added. */
  predicate Reachable(ops: seq<Op>, id: Id) {
    if ops == [] then false
    else
      var last := ops[|ops| - 1];
      if last.AddOp? && last.id == id then true
      else if last == ReleaseOp(id) then false
      else Reachable(ops[..|ops| - 1], id)
  }

  /** Ticks since the id was last added, or refreshed while its task could be found. */
  function IdleTicks(ops: seq<Op>, id: Id): nat {
    if ops == [] then 0
    else
      var front, last := ops[..|ops| - 1], ops[|ops| - 1];
      if last.TickOp? then IdleTicks(front, id) + 1
      else if (last.AddOp? && last.id == id) || (last == RefreshOp(id) && Reachable(front, id)) then 0
      else IdleTicks(front, id)
  }

  /** Operation `a` added the id, and the task it made has not been idle for its whole delay since. */
  predicate AliveSince(ops: seq<Op>, id: Id, a: nat) {
    && a < |ops| && ops[a].AddOp? && ops[a].id == id
    && (forall i :: a < i < |ops| ==> !(ops[i].AddOp? && ops[i].id == id))
    && (forall i :: a < i <= |ops| ==> IdleTicks(ops[..i], id) < Delay(ops[a].timeout))
  }

  /** The id has been cancelled since operation `a`, while its task could be found. */
  predicate CancelledSince(ops: seq<Op>, id: Id, a: nat) {
    exists c :: a < c < |ops| && ops[c] == CancelOp(id) && Reachable(ops[..c], id)
  }

  /** No id is added while the task of an earlier add is still alive. */
  predicate NoLiveReAdd(ops: seq<Op>) {
    forall j, a :: 0 <= a < j < |ops| && ops[j].AddOp? ==> !AliveSince(ops[..j], ops[j].id, a)
  }

  /** Operation `j` is the tick a whole delay after the id's add in `a` or its last refresh, and the
      id was not cancelled since. */
  predicate DueById(ops: seq<Op>, id: Id, a: nat, j: nat) {
    && a < j < |ops| && ops[j].TickOp?
    && AliveSince(ops[..j], id, a) && !CancelledSince(ops[..j], id, a)
    && IdleTicks(ops[..j + 1], id) == Delay(ops[a].timeout)
  }

  lemma AliveSnoc(ops: seq<Op>, last: Op, id: Id, a: nat)
    requires !(last.AddOp? && last.id == id)
    ensures var all := ops + [last];
            AliveSince(all, id, a) <==> AliveSince(ops, id, a) && IdleTicks(all, id) < Delay(ops[a].timeout)
  {
    var all := ops + [last];
    assert all[..|ops|] == ops && all[..|all|] == all;
    forall i | 0 <= i <= |ops| ensures all[..i] == ops[..i] {
    }
    if AliveSince(ops, id, a) && IdleTicks(all, id) < Delay(ops[a].timeout) {
      forall i | a < i <= |all| ensures IdleTicks(all[..i], id) < Delay(all[a].timeout) {
        assert i <= |ops| ==> all[..i] == ops[..i];
      }
    }
    if AliveSince(all, id, a) {
      assert a != |ops|;
      forall i | a < i <= |ops| ensures IdleTicks(ops[..i], id) < Delay(ops[a].timeout) {
        assert all[..i] == ops[..i];
      }
      assert IdleTicks(all[..|all|], id) < Delay(all[a].timeout);
    }
  }

  lemma CancelledSnoc(ops: seq<Op>, last: Op, id: Id, a: nat)
    requires a < |ops|
    ensures CancelledSince(ops + [last], id, a) <==>
              CancelledSince(ops, id, a) || (last == CancelOp(id) && Reachable(ops, id))
  {
    var all := ops + [last];
    assert all[..|ops|] == ops;
    if CancelledSince(ops, id, a) {
      var c :| a < c < |ops| && ops[c] == CancelOp(id) && Reachable(ops[..c], id);
      assert all[c] == CancelOp(id) && all[..c] == ops[..c];
    }
    if last == CancelOp(id) && Reachable(ops, id) {
      assert all[|ops|] == CancelOp(id) && Reachable(all[..|ops|], id);
    }
    if CancelledSince(all, id, a) {
      var c :| a < c < |all| && all[c] == CancelOp(id) && Reachable(all[..c], id);
      if c < |ops| {
        assert ops[c] == CancelOp(id) && all[..c] == ops[..c];
      }
    }
  }

  lemma ByIdSnoc(ops: seq<Op>, last: Op, id: Id)
    ensures var all := ops + [last];
            && (Reachable(all, id) <==>
                  (last.AddOp? && last.id == id) || (last != ReleaseOp(id) && Reachable(ops, id)))
            && IdleTicks(all, id) ==
                 if last.TickOp? then IdleTicks(ops, id) + 1
                 else if (last.AddOp? && last.id == id) || (last == RefreshOp(id) && Reachable(ops, id)) then 0
                 else IdleTicks(ops, id)
  {
    assert (ops + [last])[..|ops|] == ops;
  }

  /** Of a living task, the id tells everything. */
  ghost predicate IdTells(ops: seq<Op>, a: nat)
    requires IsAdd(ops, a)
  {
    var id := ops[a].id;
    && (AliveSince(ops, id, a) <==> Alive(ops, a))
    && (Alive(ops, a) ==>
          && Idle(ops, a) == IdleTicks(ops, id)
          && (Found(ops, a) <==> Reachable(ops, id))
          && (Cancelled(ops, a) <==> CancelledSince(ops, id, a)))
  }

  lemma IdTellsAtFirst(ops: seq<Op>, a: nat)
    requires IsAdd(ops, a) && |ops| == a + 1
    ensures IdTells(ops, a)
  {
    ByIdSnoc(ops[..a], ops[a], ops[a].id);
    assert ops[..a] + [ops[a]] == ops && ops[..a + 1] == ops;
    DelayIsTimeout(ops[a].timeout);
  }

  /** While a task lives, no other task of its id does. */
  lemma NoOtherAlive(ops: seq<Op>, n: nat, a: nat, b: nat)
    requires NoLiveReAdd(ops) && IsAdd(ops, a) && IsAdd(ops, b) && a < n <= |ops| && b < n && a != b
    requires ops[a].id == ops[b].id && AliveSince(ops[..n], ops[a].id, a)
    requires b < a ==> IdTells(ops[..a], b)
    ensures !Alive(ops[..n], b)
  {
    assert ops[..n][b] == ops[b];
    assert b < a;
    assert !AliveSince(ops[..a], ops[a].id, b);
    assert ops[..n][..a] == ops[..a];
    if Alive(ops[..n], b) {
      AliveBefore(ops[..n], b, a);
    }
  }

  lemma IdTellsNext(ops: seq<Op>, last: Op, a: nat)
    requires IsAdd(ops, a) && IdTells(ops, a)
    requires last.AddOp? && last.id == ops[a].id ==> !AliveSince(ops, ops[a].id, a)
    requires Alive(ops, a) ==>
               forall b :: 0 <= b < |ops| && b != a && ops[b].AddOp? && ops[b].id == ops[a].id ==> !OnLastTick(ops, b)
    ensures IdTells(ops + [last], a)
  {
    var all, id := ops + [last], ops[a].id;
    TellingSnoc(ops, last, a);
    ByIdSnoc(ops, last, id);
    if last.AddOp? && last.id == id {
      assert all[|ops|] == last;
    } else {
      AliveSnoc(ops, last, id, a);
      CancelledSnoc(ops, last, id, a);
      if Alive(all, a) && last.TickOp? {
        assert !OnLastTick(ops, a);
      }
    }
    hide AliveSince, CancelledSince, Reachable, IdleTicks, Found, Idle, Alive, Cancelled, Delay;
  }

  lemma {:induction false} IdTellsAll(ops: seq<Op>, n: nat, a: nat)
    requires NoLiveReAdd(ops) && IsAdd(ops, a) && a < n <= |ops|
    ensures IdTells(ops[..n], a)
    decreases n
  {
    if n == a + 1 {
      IdTellsAtFirst(ops[..n], a);
    } else {
      var front := ops[..n - 1];
      IdTellsAll(ops, n - 1, a);
      if Alive(front, a) {
        forall b | 0 <= b < |front| && b != a && front[b].AddOp? && front[b].id == front[a].id
          ensures !OnLastTick(front, b)
        {
          if b < a {
            IdTellsAll(ops, a, b);
          }
          NoOtherAlive(ops, n - 1, a, b);
        }
      }
      assert front + [ops[n - 1]] == ops[..n];
      IdTellsNext(front, ops[n - 1], a);
    }
  }

  lemma DueByIdIsDue(ops: seq<Op>, a: nat, j: nat)
    requires a < j < |ops| && ops[a].AddOp? && IdTells(ops[..j], a)
    ensures DueIn(ops, a, j) <==> DueById(ops, ops[a].id, a, j)
  {
    var front := ops[..j];
    ByIdSnoc(front, ops[j], ops[a].id);
    assert front + [ops[j]] == ops[..j + 1];
    hide AliveSince, CancelledSince, Reachable, IdleTicks, Found, Idle, Alive, Cancelled, Delay;
  }

  /** On every run without live re-adds the schedule can be read off the id. */
  lemma FiresById(ops: seq<Op>, a: nat, j: nat)
    requires NoLiveReAdd(ops) && IsAdd(ops, a) && j < |ops|
    ensures Sound(EMPTY)
    ensures TaskOf(ops, a) in WheelRun(EMPTY, ops)[j] <==> DueById(ops, ops[a].id, a, j)
  {
    FiresOnSchedule(ops, a, j);
    if a < j {
      IdTellsAll(ops, j, a);
      hide NoLiveReAdd, IdTells, WheelRun, TaskOf, DueIn, DueById;
      DueByIdIsDue(ops, a, j);
    }
  }

  /** The wheel after an id was added twice. */
  lemma AddedTwice() returns (v: Wheel, u: Wheel)
    ensures Sound(EMPTY) && v == WheelStep(EMPTY, AddOp(7, 1)).0 && Sound(v) && u == WheelStep(v, AddOp(7, 2)).0
    ensures Sound(u) && u.tick == 0
    ensures forall i :: 0 <= i < CAPACITY ==> u.slots[i] == if i == 1 then [0] else if i == 2 then [1] else []
    ensures u.tasks == map[0 := Task(7, 1, false), 1 := Task(7, 2, false)]
  {
    v := Add(EMPTY, 7, 1);
    OpsKeepSound(EMPTY, AddOp(7, 1));
    OpsKeepSound(v, AddOp(7, 2));
    u := Add(v, 7, 2);
  }

  lemma AddedTwiceTick(w: Wheel)
    requires Sound(w) && w.tick == 0
    requires forall i :: 0 <= i < CAPACITY ==> w.slots[i] == if i == 1 then [0] else if i == 2 then [1] else []
    requires w.tasks == map[0 := Task(7, 1, false), 1 := Task(7, 2, false)]
    ensures var (e, fired) := Stepped(w); 0 in fired && 7 !in e.timers && 1 in e.tasks
  {
    var gone := Expiring(w.slots, 1);
    assert w.slots[1][0] == 0;
    assert 0 in gone && 1 !in gone;
    assert 0 in Uncancelled(w.tasks, gone) && 7 in IdsOf(w.tasks, gone);
    var v := w.(tick := 1);
    assert Sound(v);
    hide Sound, Clear, Expiring, IdsOf, Uncancelled;
    ClearExpires(v, 1);
    assert 0 in (set r | r in Clear(v, 1).1);
  }

  lemma ThreeOps(w: Wheel, a: Op, b: Op, c: Op, v: Wheel, u: Wheel)
    requires Sound(w) && v == WheelStep(w, a).0 && Sound(v) && u == WheelStep(v, b).0 && Sound(u)
    ensures WheelRun(w, [a, b, c])[2] == WheelStep(u, c).1 && WheelAfter(w, [a, b, c]) == WheelStep(u, c).0
  {
    hide Sound, WheelStep;
    OpsKeepSound(u, c);
    assert [a, b, c][1..] == [b, c] && [b, c][1..] == [c] && [c][1..] == [];
    var e := WheelStep(u, c).0;
    assert WheelAfter(e, []) == e;
    assert WheelRun(u, [c])[0] == WheelStep(u, c).1 && WheelAfter(u, [c]) == e;
    assert WheelRun(v, [b, c])[1] == WheelStep(u, c).1 && WheelAfter(v, [b, c]) == e;
  }

  /** Re-adding a live id leaves the schedule by id: the first task's callback runs although a newer
      task has its id, and its destructor takes the newer task's entry out of `timers_`, so that the
      newer task is alive and cannot be found. */
  lemma LiveReAddBreaksSchedule()
    ensures var ops := [AddOp(7, 1), AddOp(7, 2), TickOp];
            && Sound(EMPTY) && TaskOf(ops, 0) in WheelRun(EMPTY, ops)[2] && !DueById(ops, 7, 0, 2)
            && Alive(ops, 1) && !Found(ops, 1)
            && 7 !in WheelAfter(EMPTY, ops).timers && 1 in WheelAfter(EMPTY, ops).tasks
  {
    var ops := [AddOp(7, 1), AddOp(7, 2), TickOp];
    var v, u := AddedTwice();
    AddedTwiceTick(u);
    AddedTwiceTold(ops);
    hide Sound, WheelRun, WheelAfter, DueById, Stepped, Alive, Found;
    ThreeOps(EMPTY, AddOp(7, 1), AddOp(7, 2), TickOp, v, u);
  }

  lemma AddedTwiceTold(ops: seq<Op>)
    requires ops == [AddOp(7, 1), AddOp(7, 2), TickOp]
    ensures TaskOf(ops, 0) == 0 && Alive(ops, 1) && !Found(ops, 1) && !DueById(ops, 7, 0, 2)
  {
    var one, two: seq<Op> := [AddOp(7, 1)], [AddOp(7, 1), AddOp(7, 2)];
    assert ops[..0] == [] && one + [AddOp(7, 2)] == two && two + [TickOp] == ops && ops[..2] == two;
    AddedNow([], 7, 1);
    AddedNow(one, 7, 2);
    assert [] + [AddOp(7, 1)] == one;
    TellingSnoc(one, AddOp(7, 2), 0);
    TellingSnoc(two, TickOp, 1);
    hide Alive, Found, Idle;
    assert Delay(1) == 1 && Delay(2) == 2;
    assert two[0].AddOp? && two[0].id == 7 && OnLastTick(two, 0);
    assert two[1].AddOp? && two[1].id == 7;
    assert !AliveSince(two, 7, 0);
  }

  // ---- the object -----------------------------------------------------------

  /** A new wheel object put through a whole run: the callbacks of each operation. */
  method Drive(ops: seq<Op>) returns (fired: seq<seq<Ref>>)
    ensures Sound(EMPTY) && fired == WheelRun(EMPTY, ops)
    ensures forall j :: 0 <= j < |ops| ==> Lists(fired[j], DueTasks(ops, j))
  {
    var wheel := new TimerWheel();
    hide Sound, WheelStep, WheelRun, DueTasks, Lists;
    fired := [];
    assert ops[0..] == ops;
    for i := 0 to |ops|
      invariant fresh(wheel) && Sound(wheel.State()) && |fired| == i
      invariant WheelRun(EMPTY, ops) == fired + WheelRun(wheel.State(), ops[i..])
    {
      WheelRunUnfold(wheel.State(), ops, i);
      ghost var rest := WheelRun(wheel.State(), ops[i..]);
      var callbacks := wheel.Perform(ops[i]);
      assert fired + rest == fired + [callbacks] + rest[1..];
      fired := fired + [callbacks];
    }
    assert ops[|ops|..] == [];
    WheelRunNone(wheel.State());
    forall j | 0 <= j < |ops| ensures Lists(fired[j], DueTasks(ops, j)) {
      CallbacksAreDueTasks(ops, j);
    }
  }
}
