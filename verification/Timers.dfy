/** The hashed timer wheel with shared-ownership expiry, against a plain table of deadlines.
    A task object lives as long as some slot holds a pointer to it; its destructor runs the
    callback. Timer callbacks do not re-enter the wheel. */
module Timers {
  import opened Modular

  const CAPACITY: nat := 60

  type Id = nat
  type Ref = nat       // identity of a task object

  datatype Task = Task(id: Id, timeout: nat, cancelled: bool)

  datatype Wheel = Wheel(
    tick: nat,
    slots: seq<seq<Ref>>,
    timers: map<Id, Ref>,     // weak pointers by id
    tasks: map<Ref, Task>,    // the task objects alive
    created: nat)

  predicate Shaped(w: Wheel) {
    |w.slots| == CAPACITY && w.tick < CAPACITY
  }

  /** Every pointer in a slot is to a living task, and every weak pointer locks to its own task. */
  ghost predicate Sound(w: Wheel) {
    && Shaped(w)
    && (forall i, r :: 0 <= i < CAPACITY && r in w.slots[i] ==> r in w.tasks)
    && (forall id :: id in w.timers ==> w.timers[id] in w.tasks && w.tasks[w.timers[id]].id == id)
    && (forall r :: r in w.tasks ==> r < w.created)
  }

  const EMPTY := Wheel(0, seq(CAPACITY, i => []), map[], map[], 0)

  // ---- operations -----------------------------------------------------------

  function Push(slots: seq<seq<Ref>>, pos: nat, r: Ref): seq<seq<Ref>>
    requires pos < |slots|
  {
    slots[pos := slots[pos] + [r]]
  }

  function Add(w: Wheel, id: Id, timeout: nat): Wheel
    requires Shaped(w)
  {
    var r := w.created;
    Wheel(w.tick, Push(w.slots, (w.tick + timeout) % CAPACITY, r), w.timers[id := r],
          w.tasks[r := Task(id, timeout, false)], r + 1)
  }

  function Refresh(w: Wheel, id: Id): Wheel
    requires Sound(w)
  {
    if id !in w.timers then w
    else
      var r := w.timers[id];
      w.(slots := Push(w.slots, (w.tick + w.tasks[r].timeout) % CAPACITY, r))
  }

  function Cancel(w: Wheel, id: Id): Wheel
    requires Sound(w)
  {
    if id !in w.timers then w
    else
      var r := w.timers[id];
      w.(tasks := w.tasks[r := w.tasks[r].(cancelled := true)])
  }

  /** Taking an id out of `timers_`; the task itself lives on in its slots. */
  function Release(w: Wheel, id: Id): Wheel {
    w.(timers := w.timers - {id})
  }

  predicate Occurs(slots: seq<seq<Ref>>, r: Ref) {
    exists i :: 0 <= i < |slots| && r in slots[i]
  }

  /** The destructor: run the callback unless cancelled, then release the id. */
  function Destroy(w: Wheel, r: Ref): (Wheel, seq<Ref>)
    requires r in w.tasks
  {
    var task := w.tasks[r];
    (Release(w, task.id).(tasks := w.tasks - {r}), if task.cancelled then [] else [r])
  }

  /** Dropping the first pointer of a slot destroys the task if it was the last pointer. */
  function DropFirst(w: Wheel, t: nat): (Wheel, seq<Ref>)
    requires t < |w.slots| && w.slots[t] != []
  {
    var r := w.slots[t][0];
    var v := w.(slots := w.slots[t := w.slots[t][1..]]);
    if Occurs(v.slots, r) || r !in v.tasks then (v, []) else Destroy(v, r)
  }

  /** Clearing a slot; the second component lists the tasks whose callbacks run. */
  function Clear(w: Wheel, t: nat): (Wheel, seq<Ref>)
    requires t < |w.slots|
    decreases |w.slots[t]|
  {
    if w.slots[t] == [] then (w, [])
    else
      var (v, now) := DropFirst(w, t);
      var (u, later) := Clear(v, t);
      (u, now + later)
  }

  lemma ClearUnfold(w: Wheel, t: nat)
    requires t < |w.slots|
    ensures w.slots[t] == [] ==> Clear(w, t) == (w, [])
    ensures w.slots[t] != [] ==>
              var (v, now) := DropFirst(w, t); t < |v.slots| && Clear(w, t) == (Clear(v, t).0, now + Clear(v, t).1)
  {
  }

  function Stepped(w: Wheel): (Wheel, seq<Ref>)
    requires Shaped(w)
  {
    var v := w.(tick := (w.tick + 1) % CAPACITY);
    Clear(v, v.tick)
  }

  // ---- what clearing a slot does --------------------------------------------

  predicate OccursElsewhere(slots: seq<seq<Ref>>, t: nat, r: Ref) {
    exists i :: 0 <= i < |slots| && i != t && r in slots[i]
  }

  /** The tasks whose last pointers are in slot `t`. */
  function Expiring(slots: seq<seq<Ref>>, t: nat): set<Ref>
    requires t < |slots|
  {
    set r | r in slots[t] && !OccursElsewhere(slots, t, r)
  }

  function IdsOf(tasks: map<Ref, Task>, refs: set<Ref>): set<Id> {
    set r | r in refs && r in tasks :: tasks[r].id
  }

  function Uncancelled(tasks: map<Ref, Task>, refs: set<Ref>): set<Ref> {
    set r | r in refs && r in tasks && !tasks[r].cancelled
  }

  /** A sequence that lists a set, each element once. */
  predicate Lists(s: seq<Ref>, refs: set<Ref>) {
    (set r | r in s) == refs && forall i, j :: 0 <= i < j < |s| ==> s[i] != s[j]
  }

  lemma {:induction false} ListsCount(s: seq<Ref>, refs: set<Ref>)
    requires Lists(s, refs)
    ensures |s| == |refs|
  {
    if s != [] {
      var last, front := s[|s| - 1], s[..|s| - 1];
      assert s == front + [last];
      assert (set r | r in front) == refs - {last};
      ListsCount(front, refs - {last});
    } else {
      assert refs == {};
    }
  }

  lemma ListsMore(r: Ref, later: seq<Ref>, refs: set<Ref>)
    requires Lists(later, refs) && r !in refs
    ensures Lists([r] + later, refs + {r})
  {
    assert forall q :: q in later <==> q in refs by {
      forall q ensures q in later <==> q in refs {
        assert q in later <==> q in (set x | x in later);
      }
    }
  }

  lemma DropFirstExpiring(w: Wheel, t: nat)
    requires Sound(w) && t < CAPACITY && w.slots[t] != []
    ensures var (v, now) := DropFirst(w, t);
            var r := w.slots[t][0];
            && Sound(v) && v.slots == w.slots[t := w.slots[t][1..]] && v.tick == w.tick && v.created == w.created
            && (if Occurs(v.slots, r) then
                  && v.tasks == w.tasks && v.timers == w.timers && now == []
                  && Expiring(w.slots, t) == Expiring(v.slots, t)
                else && v.tasks == w.tasks - {r} && v.timers == w.timers - {w.tasks[r].id}
                     && r !in Expiring(v.slots, t) && Expiring(w.slots, t) == Expiring(v.slots, t) + {r}
                     && now == (if w.tasks[r].cancelled then [] else [r]))
  {
    var r := w.slots[t][0];
    var slots := w.slots[t := w.slots[t][1..]];
    forall q ensures OccursElsewhere(slots, t, q) <==> OccursElsewhere(w.slots, t, q) {
      if OccursElsewhere(w.slots, t, q) {
        var i :| 0 <= i < |w.slots| && i != t && q in w.slots[i];
        assert q in slots[i];
      }
    }
    forall q ensures q in w.slots[t] <==> q == r || q in slots[t] {
      assert w.slots[t] == [r] + slots[t];
    }
    assert Occurs(slots, r) <==> r in slots[t] || OccursElsewhere(slots, t, r) by {
      if r in slots[t] {
        assert 0 <= t < |slots| && r in slots[t];
      }
    }
    forall i, q | 0 <= i < CAPACITY && q in slots[i] ensures q in w.slots[i] && (q == r ==> Occurs(slots, r)) {
      assert i == t ==> slots[i] == w.slots[t][1..];
    }
  }

  lemma FirstThenLater(tasks: map<Ref, Task>, rest: set<Ref>, r: Ref, now: seq<Ref>, later: seq<Ref>)
    requires r in tasks && r !in rest && now == if tasks[r].cancelled then [] else [r]
    requires Lists(later, Uncancelled(tasks - {r}, rest))
    ensures Lists(now + later, Uncancelled(tasks, rest + {r}))
  {
    var before := Uncancelled(tasks - {r}, rest);
    if tasks[r].cancelled {
      assert Uncancelled(tasks, rest + {r}) == before;
      assert now + later == later;
    } else {
      assert Uncancelled(tasks, rest + {r}) == before + {r};
      ListsMore(r, later, before);
    }
  }

  /** Clearing a slot destroys exactly the tasks that expire there, and runs the callbacks of those
      not cancelled, each once. */
  lemma {:induction false} ClearExpires(w: Wheel, t: nat)
    requires Sound(w) && t < CAPACITY
    ensures var (u, fired) := Clear(w, t);
            && Sound(u) && u.slots == w.slots[t := []] && u.tick == w.tick && u.created == w.created
            && u.tasks == w.tasks - Expiring(w.slots, t)
            && u.timers == w.timers - IdsOf(w.tasks, Expiring(w.slots, t))
            && Lists(fired, Uncancelled(w.tasks, Expiring(w.slots, t)))
    decreases |w.slots[t]|
  {
    SlotsLength(w, t);
    hide Sound;
    if w.slots[t] == [] {
      assert w.slots[t := []] == w.slots;
      assert Expiring(w.slots, t) == {};
    } else {
      var (v, now) := DropFirst(w, t);
      var (u, later) := Clear(v, t);
      var r := w.slots[t][0];
      DropFirstExpiring(w, t);
      ClearExpires(v, t);
      assert w.slots[t := w.slots[t][1..]][t := []] == w.slots[t := []];
      if !Occurs(v.slots, r) {
        LastPointer(w.tasks, w.timers, Expiring(v.slots, t), r);
        FirstThenLater(w.tasks, Expiring(v.slots, t), r, now, later);
      }
    }
  }

  lemma SlotsLength(w: Wheel, t: nat)
    requires Sound(w) && t < CAPACITY
    ensures |w.slots| == CAPACITY && (w.slots[t] != [] ==> w.slots[t][0] in w.tasks)
  {
    assert w.slots[t] != [] ==> w.slots[t][0] in w.slots[t];
  }

  lemma LastPointer(tasks: map<Ref, Task>, timers: map<Id, Ref>, rest: set<Ref>, r: Ref)
    requires r in tasks && r !in rest
    ensures (tasks - {r}) - rest == tasks - (rest + {r})
    ensures (timers - {tasks[r].id}) - IdsOf(tasks - {r}, rest) == timers - IdsOf(tasks, rest + {r})
  {
    assert IdsOf(tasks, rest + {r}) == {tasks[r].id} + IdsOf(tasks - {r}, rest) by {
      forall id | id in IdsOf(tasks, rest + {r}) ensures id in {tasks[r].id} + IdsOf(tasks - {r}, rest) {
        var q :| q in rest + {r} && q in tasks && tasks[q].id == id;
        if q != r {
          assert q in tasks - {r} && (tasks - {r})[q] == tasks[q];
        }
      }
      forall id | id in IdsOf(tasks - {r}, rest) ensures id in IdsOf(tasks, rest + {r}) {
        var q :| q in rest && q in tasks - {r} && (tasks - {r})[q].id == id;
        assert q in rest + {r} && tasks[q].id == id;
      }
    }
  }

  // ---- the reference: a table of deadlines ----------------------------------

  /** The task objects with the tick in which each is due, and who can be found by id. */
  datatype Table = Table(now: nat, timers: map<Id, Ref>, tasks: map<Ref, Task>, due: map<Ref, nat>, created: nat)

  const START := Table(0, map[], map[], map[], 0)

  /** After how many ticks a slot chosen for `timeout` is cleared. */
  function Delay(timeout: nat): nat {
    if timeout % CAPACITY == 0 then CAPACITY else timeout % CAPACITY
  }

  /** The delay is the timeout asked for exactly when that is between 1 and 60. */
  lemma DelayIsTimeout(timeout: nat)
    ensures Delay(timeout) == timeout <==> 1 <= timeout <= 60
    ensures 1 <= Delay(timeout) <= 60 && Delay(timeout) % 60 == timeout % 60
  {
  }

  datatype Op =
    | AddOp(id: Id, timeout: nat) | RefreshOp(id: Id) | CancelOp(id: Id) | ReleaseOp(id: Id) | TickOp

  /** The id's task can be found. */
  predicate Known(t: Table, id: Id) {
    id in t.timers && t.timers[id] in t.tasks
  }

  function DueRefs(t: Table): set<Ref> {
    set r | r in t.due && t.due[r] == t.now + 1
  }

  /** The second component: the tasks whose callbacks run. */
  function TableStep(t: Table, op: Op): (Table, set<Ref>) {
    match op
    case AddOp(id, timeout) =>
      var r := t.created;
      (Table(t.now, t.timers[id := r], t.tasks[r := Task(id, timeout, false)],
             t.due[r := t.now + Delay(timeout)], r + 1), {})
    case RefreshOp(id) =>
      if !Known(t, id) then (t, {})
      else (t.(due := t.due[t.timers[id] := t.now + Delay(t.tasks[t.timers[id]].timeout)]), {})
    case CancelOp(id) =>
      if !Known(t, id) then (t, {})
      else (t.(tasks := t.tasks[t.timers[id] := t.tasks[t.timers[id]].(cancelled := true)]), {})
    case ReleaseOp(id) => (t.(timers := t.timers - {id}), {})
    case TickOp =>
      var gone := DueRefs(t);
      (Table(t.now + 1, t.timers - IdsOf(t.tasks, gone), t.tasks - gone, t.due - gone, t.created),
       Uncancelled(t.tasks, gone))
  }

  function WheelStep(w: Wheel, op: Op): (Wheel, seq<Ref>)
    requires Sound(w)
  {
    match op
    case AddOp(id, timeout) => (Add(w, id, timeout), [])
    case RefreshOp(id) => (Refresh(w, id), [])
    case CancelOp(id) => (Cancel(w, id), [])
    case ReleaseOp(id) => (Release(w, id), [])
    case TickOp => Stepped(w)
  }

  // ---- in all runs the weak pointers lock -----------------------------------

  lemma ClearSound(w: Wheel)
    requires Sound(w)
    ensures Sound(Stepped(w).0)
  {
    var v := w.(tick := (w.tick + 1) % CAPACITY);
    ClearExpires(v, v.tick);
  }

  /** Every operation, re-adding or releasing a live id included, leaves every `timers_` entry on a live task. */
  lemma OpsKeepSound(w: Wheel, op: Op)
    requires Sound(w)
    ensures Sound(WheelStep(w, op).0)
  {
    match op
    case AddOp(id, timeout) =>
      var pos := (w.tick + timeout) % CAPACITY;
      assert forall i, r :: 0 <= i < CAPACITY && r in Push(w.slots, pos, w.created)[i] ==>
                              r in w.slots[i] || r == w.created;
    case RefreshOp(id) =>
      if id in w.timers {
        var r := w.timers[id];
        var pos := (w.tick + w.tasks[r].timeout) % CAPACITY;
        assert forall i, q :: 0 <= i < CAPACITY && q in Push(w.slots, pos, r)[i] ==> q in w.slots[i] || q == r;
      }
    case CancelOp(id) =>
    case ReleaseOp(id) =>
    case TickOp => ClearSound(w);
  }

  /** The wheel after a run, whatever its operations. */
  function WheelAfter(w: Wheel, ops: seq<Op>): Wheel
    requires Sound(w)
    decreases |ops|
  {
    if ops == [] then w else
    OpsKeepSound(w, ops[0]);
    WheelAfter(WheelStep(w, ops[0]).0, ops[1..])
  }

  /** In all runs, re-adds and releases of live ids included, every `timers_` entry refers to a live task of that id. */
  lemma {:induction false} WeakPointersLock(w: Wheel, ops: seq<Op>, id: Id)
    requires Sound(w)
    ensures var v := WheelAfter(w, ops);
            id in v.timers ==> v.timers[id] in v.tasks && v.tasks[v.timers[id]].id == id
    decreases |ops|
  {
    if ops != [] {
      OpsKeepSound(w, ops[0]);
      hide Sound, WheelStep;
      WeakPointersLock(WheelStep(w, ops[0]).0, ops[1..], id);
    }
  }

  // ---- the wheel is the table -----------------------------------------------

  /** A task's last pointer sits where the wheel will be at its deadline: there is one in that
      slot, and none in a slot that is cleared later. */
  ghost predicate TaskOnTime(slots: seq<seq<Ref>>, now: nat, r: Ref, due: nat, timeout: nat) {
    && |slots| == CAPACITY
    && now < due <= now + Delay(timeout)
    && r in slots[due % CAPACITY]
    && forall time :: now < time <= now + CAPACITY && r in slots[time % CAPACITY] ==> time <= due
  }

  ghost predicate OnTime(slots: seq<seq<Ref>>, t: Table) {
    && t.due.Keys == t.tasks.Keys
    && forall r :: r in t.tasks ==> TaskOnTime(slots, t.now, r, t.due[r], t.tasks[r].timeout)
  }

  /** Wheel and table hold the same tasks, and every task's last pointer is on time. */
  ghost predicate Related(w: Wheel, t: Table) {
    && Sound(w) && w.tick == t.now % CAPACITY
    && w.timers == t.timers && w.tasks == t.tasks && w.created == t.created
    && OnTime(w.slots, t)
  }

  lemma InitiallyRelated()
    ensures Related(EMPTY, START)
  {
  }

  /** The slot chosen at `tick` for `timeout` is the one reached after the delay. */
  lemma ChosenSlot(now: nat, timeout: nat)
    ensures (now % CAPACITY + timeout) % CAPACITY == (now + Delay(timeout)) % CAPACITY
  {
  }

  /** Within the next turn of the wheel a slot is visited once. */
  lemma VisitOnce(now: nat, a: nat, b: nat)
    requires now < a <= now + CAPACITY && now < b <= now + CAPACITY && a % CAPACITY == b % CAPACITY
    ensures a == b
  {
    if a != b {
      ModDistinct(a, b, now + 1, CAPACITY);
    }
  }

  /** When slot `i` is cleared next. */
  lemma TimeOf(now: nat, i: nat) returns (time: nat)
    requires i < CAPACITY
    ensures now < time <= now + CAPACITY && time % CAPACITY == i
  {
    var at := (now + 1) % CAPACITY;
    time := now + 1 + (if i >= at then i - at else i + CAPACITY - at);
  }

  /** A pointer pushed for the coming delay becomes the task's last. */
  lemma PushSelf(slots: seq<seq<Ref>>, now: nat, r: Ref, timeout: nat)
    requires |slots| == CAPACITY
    requires forall time :: now < time <= now + CAPACITY && r in slots[time % CAPACITY] ==> time <= now + Delay(timeout)
    ensures TaskOnTime(Push(slots, (now % CAPACITY + timeout) % CAPACITY, r), now, r, now + Delay(timeout), timeout)
  {
    var due := now + Delay(timeout);
    ChosenSlot(now, timeout);
    DelayIsTimeout(timeout);
    var after := Push(slots, due % CAPACITY, r);
    forall time | now < time <= now + CAPACITY && r in after[time % CAPACITY] ensures time <= due {
      if time % CAPACITY == due % CAPACITY {
        VisitOnce(now, time, due);
      }
    }
  }

  /** Another task's pointer changes nothing. */
  lemma PushOther(slots: seq<seq<Ref>>, now: nat, r: Ref, due: nat, timeout: nat, pos: nat, q: Ref)
    requires TaskOnTime(slots, now, r, due, timeout) && pos < CAPACITY && q != r
    ensures TaskOnTime(Push(slots, pos, q), now, r, due, timeout)
  {
    assert forall i :: 0 <= i < CAPACITY ==> (r in Push(slots, pos, q)[i] <==> r in slots[i]);
  }

  /** Clearing the slot of the new time spares the pointers of tasks due later. */
  lemma ClearedOnTime(slots: seq<seq<Ref>>, now: nat, r: Ref, due: nat, timeout: nat)
    requires TaskOnTime(slots, now, r, due, timeout) && due != now + 1
    ensures TaskOnTime(slots[(now + 1) % CAPACITY := []], now + 1, r, due, timeout)
  {
    var after := slots[(now + 1) % CAPACITY := []];
    DelayIsTimeout(timeout);
    ModDistinct(due, now + 1, now + 1, CAPACITY);
    forall time | now + 1 < time <= now + 1 + CAPACITY && r in after[time % CAPACITY] ensures time <= due {
      if time == now + 1 + CAPACITY {
        ModShift(now + 1, CAPACITY);
      }
    }
  }

  lemma PushNew(w: Wheel, now: nat, timeout: nat)
    requires Sound(w)
    ensures TaskOnTime(Push(w.slots, (now % CAPACITY + timeout) % CAPACITY, w.created), now, w.created,
                       now + Delay(timeout), timeout)
  {
    assert w.created !in w.tasks;
    assert forall i :: 0 <= i < CAPACITY ==> w.created !in w.slots[i];
    PushSelf(w.slots, now, w.created, timeout);
  }

  lemma PushAgain(slots: seq<seq<Ref>>, now: nat, r: Ref, due: nat, timeout: nat)
    requires TaskOnTime(slots, now, r, due, timeout)
    ensures TaskOnTime(Push(slots, (now % CAPACITY + timeout) % CAPACITY, r), now, r, now + Delay(timeout), timeout)
  {
    PushSelf(slots, now, r, timeout);
  }

  lemma AddKeepsOnTime(w: Wheel, now: nat, id: Id, timeout: nat, r: Ref, due: nat)
    requires Sound(w) && w.tick == now % CAPACITY && r in w.tasks
    requires TaskOnTime(w.slots, now, r, due, w.tasks[r].timeout)
    ensures r != w.created && TaskOnTime(Add(w, id, timeout).slots, now, r, due, w.tasks[r].timeout)
  {
    hide TaskOnTime, Push;
    PushOther(w.slots, now, r, due, w.tasks[r].timeout, (w.tick + timeout) % CAPACITY, w.created);
  }

  lemma AddRelated(w: Wheel, t: Table, id: Id, timeout: nat)
    requires Related(w, t)
    ensures Related(Add(w, id, timeout), TableStep(t, AddOp(id, timeout)).0)
  {
    var v, u := Add(w, id, timeout), TableStep(t, AddOp(id, timeout)).0;
    OpsKeepSound(w, AddOp(id, timeout));
    PushNew(w, t.now, timeout);
    hide TaskOnTime, Push, Delay, Sound;
    forall r | r in u.tasks ensures TaskOnTime(v.slots, u.now, r, u.due[r], u.tasks[r].timeout) {
      if r != w.created {
        AddKeepsOnTime(w, t.now, id, timeout, r, t.due[r]);
      }
    }
  }

  lemma RefreshedSlots(w: Wheel, id: Id)
    requires Sound(w) && id in w.timers
    ensures var r := w.timers[id];
            r in w.tasks && Refresh(w, id).slots == Push(w.slots, (w.tick + w.tasks[r].timeout) % CAPACITY, r)
  {
  }

  lemma RefreshOnTime(w: Wheel, now: nat, id: Id, r: Ref, due: nat)
    requires Sound(w) && w.tick == now % CAPACITY && id in w.timers && r in w.tasks
    requires TaskOnTime(w.slots, now, r, due, w.tasks[r].timeout)
    ensures var next := if r == w.timers[id] then now + Delay(w.tasks[r].timeout) else due;
            TaskOnTime(Refresh(w, id).slots, now, r, next, w.tasks[r].timeout)
  {
    var touched := w.timers[id];
    RefreshedSlots(w, id);
    hide TaskOnTime, Push, Delay, Refresh, Sound;
    if r == touched {
      PushAgain(w.slots, now, r, due, w.tasks[r].timeout);
    } else {
      PushOther(w.slots, now, r, due, w.tasks[r].timeout, (w.tick + w.tasks[touched].timeout) % CAPACITY, touched);
    }
  }

  lemma RefreshKnown(w: Wheel, t: Table, id: Id)
    requires Related(w, t) && id in w.timers
    ensures var u, r := TableStep(t, RefreshOp(id)).0, w.timers[id];
            r in t.tasks && u == t.(due := t.due[r := t.now + Delay(t.tasks[r].timeout)])
    ensures var v := Refresh(w, id); Sound(v) && v == w.(slots := v.slots)
  {
    hide TaskOnTime, Delay;
    OpsKeepSound(w, RefreshOp(id));
  }

  lemma RefreshedOnTime(w: Wheel, t: Table, id: Id, u: Table)
    requires Sound(w) && w.tick == t.now % CAPACITY && w.tasks == t.tasks && OnTime(w.slots, t) && id in w.timers
    requires var r := w.timers[id];
             r in t.tasks && u == t.(due := t.due[r := t.now + Delay(t.tasks[r].timeout)])
    ensures OnTime(Refresh(w, id).slots, u)
  {
    hide TaskOnTime, Delay, Sound, Refresh;
    forall r | r in u.tasks ensures TaskOnTime(Refresh(w, id).slots, u.now, r, u.due[r], u.tasks[r].timeout) {
      RefreshOnTime(w, t.now, id, r, t.due[r]);
    }
  }

  lemma RefreshRelated(w: Wheel, t: Table, id: Id)
    requires Related(w, t)
    ensures Related(Refresh(w, id), TableStep(t, RefreshOp(id)).0)
  {
    RelatedSound(w, t);
    if id in w.timers {
      RefreshKnown(w, t, id);
      hide Delay, Sound, Refresh, TableStep, OnTime;
      RefreshedOnTime(w, t, id, TableStep(t, RefreshOp(id)).0);
    }
  }

  lemma CancelRelated(w: Wheel, t: Table, id: Id)
    requires Related(w, t)
    ensures Related(Cancel(w, id), TableStep(t, CancelOp(id)).0)
  {
    OpsKeepSound(w, CancelOp(id));
    hide TaskOnTime;
  }

  /** The tasks that expire in a step are exactly those due at the new time. */
  lemma ExpiringAreDue(slots: seq<seq<Ref>>, now: nat, r: Ref, due: nat, timeout: nat)
    requires TaskOnTime(slots, now, r, due, timeout)
    ensures r in Expiring(slots, (now + 1) % CAPACITY) <==> due == now + 1
  {
    var at := (now + 1) % CAPACITY;
    DelayIsTimeout(timeout);
    if r in Expiring(slots, at) {
      VisitOnce(now, due, now + 1);
    } else if due == now + 1 && OccursElsewhere(slots, at, r) {
      var i :| 0 <= i < |slots| && i != at && r in slots[i];
      var time := TimeOf(now, i);
    }
  }

  /** What a step does to the wheel. */
  lemma StepExpires(w: Wheel, at: nat)
    requires Sound(w) && at == (w.tick + 1) % CAPACITY
    ensures var (v, fired) := Stepped(w);
            var gone := Expiring(w.slots, at);
            && Sound(v) && v.slots == w.slots[at := []] && v.tick == at && v.created == w.created
            && v.tasks == w.tasks - gone && v.timers == w.timers - IdsOf(w.tasks, gone)
            && Lists(fired, Uncancelled(w.tasks, gone))
  {
    assert Sound(w.(tick := at));
    hide Sound, Clear, Expiring, IdsOf, Uncancelled, Lists;
    ClearExpires(w.(tick := at), at);
  }

  lemma ExpiringIsDueRefs(w: Wheel, t: Table)
    requires Related(w, t)
    ensures Expiring(w.slots, (t.now + 1) % CAPACITY) == DueRefs(t)
  {
    var at := (t.now + 1) % CAPACITY;
    forall r ensures r in Expiring(w.slots, at) <==> r in DueRefs(t) {
      if r in t.tasks {
        hide Expiring, TaskOnTime, Sound;
        ExpiringAreDue(w.slots, t.now, r, t.due[r], t.tasks[r].timeout);
      } else {
        assert forall i :: 0 <= i < CAPACITY ==> r !in w.slots[i];
      }
    }
  }

  lemma TickLeaves(t: Table)
    requires t.due.Keys == t.tasks.Keys
    ensures var u, gone := TableStep(t, TickOp).0, DueRefs(t);
            && u.now == t.now + 1 && u.timers == t.timers - IdsOf(t.tasks, gone) && u.tasks == t.tasks - gone
            && u.created == t.created && u.due.Keys == u.tasks.Keys
            && TableStep(t, TickOp).1 == Uncancelled(t.tasks, gone)
            && forall r :: r in u.tasks ==> r in t.tasks && u.due[r] == t.due[r] != t.now + 1
  {
    hide IdsOf, Uncancelled;
  }

  lemma TickedOnTime(slots: seq<seq<Ref>>, t: Table)
    requires |slots| == CAPACITY && OnTime(slots, t)
    ensures OnTime(slots[(t.now + 1) % CAPACITY := []], TableStep(t, TickOp).0)
  {
    TickLeaves(t);
    hide TaskOnTime, TableStep, DueRefs, IdsOf, Uncancelled;
    var u := TableStep(t, TickOp).0;
    forall r | r in u.tasks
      ensures TaskOnTime(slots[(t.now + 1) % CAPACITY := []], u.now, r, u.due[r], u.tasks[r].timeout)
    {
      ClearedOnTime(slots, t.now, r, t.due[r], t.tasks[r].timeout);
    }
  }

  /** A step of the wheel is a tick of the table: same callbacks, each once, and what is left agrees. */
  lemma TickRelated(w: Wheel, t: Table)
    requires Related(w, t)
    ensures Related(Stepped(w).0, TableStep(t, TickOp).0)
    ensures Lists(Stepped(w).1, TableStep(t, TickOp).1)
  {
    ModAdd(t.now, 1, CAPACITY);
    ExpiringIsDueRefs(w, t);
    TickLeaves(t);
    TickedOnTime(w.slots, t);
    hide Sound, Expiring, IdsOf, Uncancelled, Stepped, Lists, OnTime, TableStep, DueRefs;
    StepExpires(w, (t.now + 1) % CAPACITY);
  }

  // ---- runs -----------------------------------------------------------------

  /** The tasks whose callbacks run in each operation, by the table. */
  function TableRun(t: Table, ops: seq<Op>): (out: seq<set<Ref>>)
    ensures |out| == |ops|
    decreases |ops|
  {
    if ops == [] then [] else
    var (u, fired) := TableStep(t, ops[0]);
    [fired] + TableRun(u, ops[1..])
  }

  /** The tasks whose callbacks run in each operation, in order, by the wheel. */
  function WheelRun(w: Wheel, ops: seq<Op>): (out: seq<seq<Ref>>)
    requires Sound(w)
    ensures |out| == |ops|
    decreases |ops|
  {
    if ops == [] then [] else
    OpsKeepSound(w, ops[0]);
    var (v, fired) := WheelStep(w, ops[0]);
    [fired] + WheelRun(v, ops[1..])
  }

  lemma OpRelated(w: Wheel, t: Table, op: Op)
    requires Related(w, t)
    ensures Related(WheelStep(w, op).0, TableStep(t, op).0)
    ensures Lists(WheelStep(w, op).1, TableStep(t, op).1)
  {
    match op
    case AddOp(id, timeout) => hide Related; AddRelated(w, t, id, timeout);
    case RefreshOp(id) => hide Related; RefreshRelated(w, t, id);
    case CancelOp(id) => hide Related; CancelRelated(w, t, id);
    case ReleaseOp(id) => hide OnTime; OpsKeepSound(w, op);
    case TickOp => hide Related; TickRelated(w, t);
  }

  lemma RelatedSound(w: Wheel, t: Table)
    requires Related(w, t)
    ensures Sound(w)
  {
  }

  /** On every run, whatever its operations, the wheel runs in each operation exactly the table's
      callbacks, each once. */
  lemma {:induction false} WheelIsTable(w: Wheel, t: Table, ops: seq<Op>, j: nat)
    requires Related(w, t) && j < |ops|
    ensures Sound(w)
    ensures Lists(WheelRun(w, ops)[j], TableRun(t, ops)[j])
    decreases |ops|
  {
    RelatedSound(w, t);
    OpRelated(w, t, ops[0]);
    OpsKeepSound(w, ops[0]);
    hide Related, Sound, WheelStep, TableStep, Lists;
    if j > 0 {
      WheelIsTable(WheelStep(w, ops[0]).0, TableStep(t, ops[0]).0, ops[1..], j - 1);
    }
  }

  // ---- the object -----------------------------------------------------------

  class TimerWheel {
    var tick: nat
    var slots: seq<seq<Ref>>
    var timers: map<Id, Ref>
    var tasks: map<Ref, Task>
    var created: nat

    ghost function State(): Wheel
      reads this
    {
      Wheel(tick, slots, timers, tasks, created)
    }

    constructor ()
      ensures State() == EMPTY && Sound(State()) && |slots| == 60 && tick == 0
    {
      tick, slots, timers, tasks, created := 0, seq(CAPACITY, i => []), map[], map[], 0;
    }

    method AddTimerTask(id: Id, timeout: nat)
      requires Sound(State())
      modifies this
      ensures Sound(State()) && State() == Add(old(State()), id, timeout)
    {
      OpsKeepSound(State(), AddOp(id, timeout));
      var tsp := created;
      created := created + 1;
      tasks := tasks[tsp := Task(id, timeout, false)];
      timers := timers[id := tsp];
      var pos := (tick + timeout) % CAPACITY;
      slots := slots[pos := slots[pos] + [tsp]];
    }

    method RefreshTimerTask(id: Id)
      requires Sound(State())
      modifies this
      ensures Sound(State()) && State() == Refresh(old(State()), id)
    {
      OpsKeepSound(State(), RefreshOp(id));
      if id !in timers {
        return;
      }
      var tsp := timers[id];
      var timeout := tasks[tsp].timeout;
      var pos := (tick + timeout) % CAPACITY;
      slots := slots[pos := slots[pos] + [tsp]];
    }

    method CancelTimerTask(id: Id)
      requires Sound(State())
      modifies this
      ensures Sound(State()) && State() == Cancel(old(State()), id)
    {
      OpsKeepSound(State(), CancelOp(id));
      if id !in timers {
        return;
      }
      var tsp := timers[id];
      tasks := tasks[tsp := tasks[tsp].(cancelled := true)];
    }

    /** The caller's release of an id, and the one a destroyed task makes. */
    method ReleaseTimerTask(id: Id)
      requires Sound(State())
      modifies this
      ensures Sound(State()) && State() == Release(old(State()), id)
    {
      OpsKeepSound(State(), ReleaseOp(id));
      timers := timers - {id};
    }

    /** Destroys the first pointer of the current slot, and the task with it if it was the last. */
    method DropPointer() returns (callbacks: seq<Ref>)
      requires |slots| == CAPACITY && tick < CAPACITY && slots[tick] != []
      modifies this
      ensures |slots| == CAPACITY && tick == old(tick) && |slots[tick]| < old(|slots[tick]|)
      ensures (State(), callbacks) == DropFirst(old(State()), tick)
    {
      callbacks := [];
      var tsp := slots[tick][0];
      slots := slots[tick := slots[tick][1..]];
      if !Occurs(slots, tsp) && tsp in tasks {
        var task := tasks[tsp];
        if !task.cancelled {
          callbacks := [tsp];
        }
        timers := timers - {task.id};
        tasks := tasks - {tsp};
      }
    }

    /** Drops the current slot's pointers one by one. */
    method ClearSlot() returns (callbacks: seq<Ref>)
      requires |slots| == CAPACITY && tick < CAPACITY
      modifies this
      ensures tick == old(tick) && (State(), callbacks) == Clear(old(State()), tick)
    {
      ghost var whole := Clear(State(), tick);
      hide DropFirst, Clear;
      callbacks := [];
      assert callbacks + whole.1 == whole.1;
      while slots[tick] != []
        invariant |slots| == CAPACITY && tick < CAPACITY && tick == old(tick)
        invariant whole == (Clear(State(), tick).0, callbacks + Clear(State(), tick).1)
        decreases |slots[tick]|
      {
        ClearUnfold(State(), tick);
        var now := DropPointer();
        ghost var later := Clear(State(), tick).1;
        assert callbacks + (now + later) == callbacks + now + later;
        callbacks := callbacks + now;
      }
      ClearUnfold(State(), tick);
      assert callbacks + [] == callbacks;
    }

    /** Moves the hand one slot on and clears that slot. */
    method Step() returns (callbacks: seq<Ref>)
      requires Sound(State())
      modifies this
      ensures Sound(State()) && (State(), callbacks) == Stepped(old(State()))
    {
      ClearSound(State());
      hide Clear;
      tick := (tick + 1) % CAPACITY;
      callbacks := ClearSlot();
    }

    method Perform(op: Op) returns (callbacks: seq<Ref>)
      requires Sound(State())
      modifies this
      ensures Sound(State()) && (State(), callbacks) == WheelStep(old(State()), op)
    {
      hide Sound, Stepped, Add, Refresh, Cancel, Release;
      callbacks := [];
      match op
      case AddOp(id, timeout) => AddTimerTask(id, timeout);
      case RefreshOp(id) => RefreshTimerTask(id);
      case CancelOp(id) => CancelTimerTask(id);
      case ReleaseOp(id) => ReleaseTimerTask(id);
      case TickOp => callbacks := Step();
    }
  }

  lemma WheelRunUnfold(w: Wheel, ops: seq<Op>, i: nat)
    requires Sound(w) && i < |ops|
    ensures var (v, fired) := WheelStep(w, ops[i]);
            Sound(v) && WheelRun(w, ops[i..]) == [fired] + WheelRun(v, ops[i + 1..])
  {
    OpsKeepSound(w, ops[i]);
    assert ops[i..][0] == ops[i] && ops[i..][1..] == ops[i + 1..];
    hide Sound, WheelStep;
  }

  lemma WheelRunNone(w: Wheel)
    requires Sound(w)
    ensures WheelRun(w, []) == []
  {
  }
}
