/**
 Round-robin scheduling with sleeping tasks (task/task.c), over a fixed task list.

 The clock is read afresh for every task looked at: `clock(k)` is what the k-th reading
 shows, and later readings show no less.  Tasks are numbered by their place in the list.
 */
module Scheduler {
  import opened Basics

  ghost predicate Monotone(clock: nat -> nat) {
    forall j: nat, k: nat :: j <= k ==> clock(j) <= clock(k)
  }

  // -------------------------------------------------------------- one decision

  /** `task_asleep` at the k-th reading. */
  predicate Asleep(deadline: nat, clock: nat -> nat, k: nat) { deadline > clock(k) }

  /** The loop of `task_get_next_non_sleeping_task` from task `i`: it stops at the end of the list. */
  function Scan(deadlines: seq<nat>, clock: nat -> nat, i: nat, k: nat): (r: (Option<nat>, nat))
    requires i <= |deadlines|
    ensures r.0.Some? ==> i <= r.0.value < |deadlines|
    ensures r.1 >= k
    decreases |deadlines| - i
  {
    if i == |deadlines| then (None, k)
    else if Asleep(deadlines[i], clock, k) then Scan(deadlines, clock, i + 1, k + 1)
    else (Some(i), k + 1)
  }

  /** Where the search begins: after the current task, or at the head when that is the tail. */
  function Begin(n: nat, current: nat): nat { if current + 1 < n then current + 1 else 0 }

  /** By that reading some task that the search comes to is awake. */
  predicate Reached(deadlines: seq<nat>, clock: nat -> nat, current: nat, horizon: nat) {
    exists i :: Begin(|deadlines|, current) <= i < |deadlines| && deadlines[i] <= clock(horizon)
  }

  /** `task_next`: search again and again until a task is found, which is by `horizon`. */
  function NextTask(deadlines: seq<nat>, clock: nat -> nat, current: nat, k: nat, horizon: nat): (r: (nat, nat))
    requires current < |deadlines| && Monotone(clock) && Reached(deadlines, clock, current, horizon)
    ensures Begin(|deadlines|, current) <= r.0 < |deadlines| && r.1 > k
    decreases if k < horizon then horizon - k else 0
  {
    var (found, k') := Scan(deadlines, clock, Begin(|deadlines|, current), k);
    SearchGoesOn(deadlines, clock, current, k, horizon);
    if found.Some? then (found.value, k') else NextTask(deadlines, clock, current, k', horizon)
  }

  lemma NextTaskStep(deadlines: seq<nat>, clock: nat -> nat, current: nat, k: nat, horizon: nat)
    requires current < |deadlines| && Monotone(clock) && Reached(deadlines, clock, current, horizon)
    ensures var (found, k') := Scan(deadlines, clock, Begin(|deadlines|, current), k);
            && NextTask(deadlines, clock, current, k, horizon) ==
               (if found.Some? then (found.value, k') else NextTask(deadlines, clock, current, k', horizon))
            && k' > k && (found == None ==> k < horizon)
  {
    SearchGoesOn(deadlines, clock, current, k, horizon);
  }

  /** A search that comes back empty has taken readings, all of them before `horizon`. */
  lemma SearchGoesOn(deadlines: seq<nat>, clock: nat -> nat, current: nat, k: nat, horizon: nat)
    requires current < |deadlines| && Monotone(clock) && Reached(deadlines, clock, current, horizon)
    ensures var (found, k') := Scan(deadlines, clock, Begin(|deadlines|, current), k);
            k' > k && (found == None ==> k < horizon)
  {
    var begin := Begin(|deadlines|, current);
    ScanReads(deadlines, clock, begin, k);
    if Scan(deadlines, clock, begin, k).0 == None {
      var i :| begin <= i < |deadlines| && deadlines[i] <= clock(horizon);
      assert Asleep(deadlines[i], clock, k + i - begin);
    }
  }

  /** The loop of `task_next` can end exactly when such a reading comes: until then every search is empty. */
  lemma EndsExactly(deadlines: seq<nat>, clock: nat -> nat, current: nat)
    requires current < |deadlines| && Monotone(clock)
    ensures (exists k :: Scan(deadlines, clock, Begin(|deadlines|, current), k).0.Some?) <==>
            exists horizon :: Reached(deadlines, clock, current, horizon)
  {
    var begin := Begin(|deadlines|, current);
    if horizon :| Reached(deadlines, clock, current, horizon) {
      SearchGoesOn(deadlines, clock, current, horizon, horizon);
      assert Scan(deadlines, clock, begin, horizon).0.Some?;
    }
    if k :| Scan(deadlines, clock, begin, k).0.Some? {
      ScanReads(deadlines, clock, begin, k);
      assert Reached(deadlines, clock, current, Scan(deadlines, clock, begin, k).1 - 1);
    }
  }

  /** Every task looked at costs a reading; all passed over were asleep, the one found was not. */
  lemma {:induction false} ScanReads(deadlines: seq<nat>, clock: nat -> nat, i: nat, k: nat)
    requires i <= |deadlines|
    ensures var (found, k') := Scan(deadlines, clock, i, k);
            && (found == None ==>
                  && k' == k + |deadlines| - i
                  && forall j :: i <= j < |deadlines| ==> Asleep(deadlines[j], clock, k + j - i))
            && (found.Some? ==>
                  && k' == k + found.value - i + 1 && !Asleep(deadlines[found.value], clock, k' - 1)
                  && forall j :: i <= j < found.value ==> Asleep(deadlines[j], clock, k + j - i))
    decreases |deadlines| - i
  {
    if i < |deadlines| && Asleep(deadlines[i], clock, k) {
      ScanReads(deadlines, clock, i + 1, k + 1);
    }
  }

  lemma ScanStep(deadlines: seq<nat>, clock: nat -> nat, i: nat, k: nat)
    requires i < |deadlines|
    ensures Scan(deadlines, clock, i, k) ==
            if Asleep(deadlines[i], clock, k) then Scan(deadlines, clock, i + 1, k + 1) else (Some(i), k + 1)
    ensures Scan(deadlines, clock, |deadlines|, k) == (None, k)
  {
  }

  /** Nobody is dispatched before the wake time, and nobody awake is passed over. */
  lemma {:induction false} NextTaskExact(deadlines: seq<nat>, clock: nat -> nat, current: nat, k: nat, horizon: nat)
    requires current < |deadlines| && Monotone(clock) && Reached(deadlines, clock, current, horizon)
    ensures var (next, k') := NextTask(deadlines, clock, current, k, horizon);
            && deadlines[next] <= clock(k' - 1)
            && (forall j :: Begin(|deadlines|, current) <= j < next ==> deadlines[j] > clock(k))
            && (current + 1 < |deadlines| ==> current < next)
    decreases if k < horizon then horizon - k else 0
  {
    var begin := Begin(|deadlines|, current);
    var (found, k1) := Scan(deadlines, clock, begin, k);
    ScanReads(deadlines, clock, begin, k);
    if found == None {
      NextTaskExact(deadlines, clock, current, k1, horizon);
      assert clock(k) <= clock(k1);
    } else {
      forall j | begin <= j < found.value ensures deadlines[j] > clock(k) {
        assert Asleep(deadlines[j], clock, k + j - begin);
      }
    }
  }

  /**
   When the search comes back empty although somebody is awake: exactly when the current
   task is not the tail, all after it sleep and somebody up to it (itself, say) does not.
   */
  lemma BlockedExactly(deadlines: seq<nat>, now: nat, current: nat)
    requires current < |deadlines|
    ensures Scan(deadlines, k => now, Begin(|deadlines|, current), 0).0 == None &&
            (exists i :: 0 <= i < |deadlines| && deadlines[i] <= now)
            <==>
            current + 1 < |deadlines| && (forall j :: current < j < |deadlines| ==> deadlines[j] > now) &&
            exists i :: 0 <= i <= current && deadlines[i] <= now
  {
    var begin := Begin(|deadlines|, current);
    ScanReads(deadlines, k => now, begin, 0);
    var found := Scan(deadlines, k => now, begin, 0).0;
    if found == None {
      forall j | begin <= j < |deadlines| ensures deadlines[j] > now {
        assert Asleep(deadlines[j], k => now, 0 + j - begin);
      }
    } else {
      assert deadlines[found.value] <= now;
    }
  }

  // ------------------------------------------------------------- bounded bypass

  /** The wake times, the place of the current task and the number of readings so far. */
  datatype State = State(deadlines: seq<nat>, current: nat, k: nat)

  /** A task is put to sleep, or `task_next` looks for another. */
  datatype Event = Sleep(task: nat, microseconds: nat) | Next(horizon: nat)

  ghost predicate Possible(s: State, e: Event, clock: nat -> nat) {
    && s.current < |s.deadlines| && Monotone(clock)
    && if e.Sleep? then e.task < |s.deadlines| else Reached(s.deadlines, clock, s.current, e.horizon)
  }

  ghost function Step(s: State, e: Event, clock: nat -> nat): State
    requires Possible(s, e, clock)
  {
    match e
    case Sleep(task, microseconds) => State(s.deadlines[task := clock(s.k) + microseconds], s.current, s.k + 1)
    case Next(horizon) =>
      var (next, k') := NextTask(s.deadlines, clock, s.current, s.k, horizon);
      State(s.deadlines, next, k')
  }

  ghost predicate StepTo(s: State, e: Event, t: State, clock: nat -> nat) {
    Possible(s, e, clock) && t == Step(s, e, clock)
  }

  /** `es` is a run that goes through `ss`. */
  ghost predicate IsRun(ss: seq<State>, es: seq<Event>, clock: nat -> nat) {
    && |ss| == |es| + 1 && ss[0].current < |ss[0].deadlines|
    && forall t :: 0 <= t < |es| ==> StepTo(ss[t], es[t], ss[t + 1], clock)
  }

  function Dispatches(es: seq<Event>): (n: nat)
    ensures n <= |es|
  {
    if es == [] then 0 else Dispatches(es[..|es| - 1]) + if es[|es| - 1].Next? then 1 else 0
  }

  predicate Awake(s: State, i: nat, clock: nat -> nat) { i < |s.deadlines| && s.deadlines[i] <= clock(s.k) }

  /** Event `t` dispatches task `i`. */
  predicate Dispatched(ss: seq<State>, es: seq<Event>, t: nat, i: nat) {
    t < |es| && t + 1 < |ss| && es[t].Next? && ss[t + 1].current == i
  }

  /** A dispatch of `next` after `current` that does not pass over `i`. */
  predicate Fair(n: nat, current: nat, next: nat, i: nat) {
    Begin(n, current) <= next < n && (Begin(n, current) <= i ==> next <= i)
  }

  /** A task that is awake stays so through every event but its own sleep, and no dispatch passes it over. */
  lemma StepIsFair(s: State, e: Event, clock: nat -> nat, i: nat)
    requires Possible(s, e, clock) && Awake(s, i, clock) && !(e.Sleep? && e.task == i)
    ensures var t := Step(s, e, clock);
            && |t.deadlines| == |s.deadlines| && Awake(t, i, clock) && t.k > s.k && t.current < |t.deadlines|
            && if e.Next? then Fair(|s.deadlines|, s.current, t.current, i) else t.current == s.current
  {
    hide NextTask;
    if e.Next? {
      NextTaskExact(s.deadlines, clock, s.current, s.k, e.horizon);
    }
  }

  /** How far `d` comes after `i`, round the list. */
  function Rank(n: nat, i: nat, d: nat): int { if d > i then d - i - 1 else n + d - i - 1 }

  lemma RankGrows(n: nat, i: nat, current: nat, next: nat)
    requires i < n && current < n && Fair(n, current, next, i) && next != i
    ensures 0 <= Rank(n, i, next) < n - 1
    ensures current == i || Rank(n, i, current) < Rank(n, i, next)
  {
  }

  /** From a dispatch of a task that stays awake to its next one, at most n - 1 others are dispatched. */
  lemma {:induction false} BoundedBypass(ss: seq<State>, es: seq<Event>, clock: nat -> nat, i: nat)
    requires IsRun(ss, es, clock) && ss[0].current == i && Awake(ss[0], i, clock)
    requires forall t :: 0 <= t < |es| ==> !(es[t].Sleep? && es[t].task == i) && !Dispatched(ss, es, t, i)
    ensures var n, last := |ss[0].deadlines|, ss[|es|];
            && Dispatches(es) <= n - 1 && |last.deadlines| == n && last.current < n && Awake(last, i, clock)
            && if Dispatches(es) == 0 then last.current == i else Dispatches(es) - 1 <= Rank(n, i, last.current) < n - 1
    decreases |es|
  {
    hide Step, Awake, Fair;
    if es != [] {
      var m, n := |es| - 1, |ss[0].deadlines|;
      var es', ss' := es[..m], ss[..m + 1];
      assert IsRun(ss', es', clock) by {
        forall t | 0 <= t < m ensures StepTo(ss'[t], es'[t], ss'[t + 1], clock) {
          assert StepTo(ss[t], es[t], ss[t + 1], clock);
        }
      }
      forall t | 0 <= t < m ensures !(es'[t].Sleep? && es'[t].task == i) && !Dispatched(ss', es', t, i) {
        assert !(es[t].Sleep? && es[t].task == i) && !Dispatched(ss, es, t, i);
      }
      BoundedBypass(ss', es', clock, i);
      assert ss'[m] == ss[m] && StepTo(ss[m], es[m], ss[m + 1], clock) && !Dispatched(ss, es, m, i);
      StepIsFair(ss[m], es[m], clock, i);
      if es[m].Next? {
        RankGrows(n, i, ss[m].current, ss[m + 1].current);
      }
    }
  }

  /** Hence a task that does not go to sleep again runs again within n dispatches of its own. */
  lemma RunsAgain(ss: seq<State>, es: seq<Event>, clock: nat -> nat, i: nat)
    requires IsRun(ss, es, clock) && ss[0].current == i && Awake(ss[0], i, clock)
    requires Dispatches(es) >= |ss[0].deadlines|
    requires forall t :: 0 <= t < |es| ==> !(es[t].Sleep? && es[t].task == i)
    ensures exists t: nat :: Dispatched(ss, es, t, i) && Dispatches(es[..t]) < |ss[0].deadlines|
  {
    hide Step, Awake;
    var t := FirstDispatch(ss, es, i, 0);
    var m := if t < |es| then t else |es|;
    var es', ss' := es[..m], ss[..m + 1];
    assert IsRun(ss', es', clock) by {
      forall u | 0 <= u < m ensures StepTo(ss'[u], es'[u], ss'[u + 1], clock) {
        assert StepTo(ss[u], es[u], ss[u + 1], clock);
      }
    }
    forall u | 0 <= u < m ensures !(es'[u].Sleep? && es'[u].task == i) && !Dispatched(ss', es', u, i) {
      assert !(es[u].Sleep? && es[u].task == i) && !Dispatched(ss, es, u, i);
    }
    BoundedBypass(ss', es', clock, i);
    assert es[..|es|] == es;
  }

  /** The first event from `t` on that dispatches task `i`, or the number of events. */
  function FirstDispatch(ss: seq<State>, es: seq<Event>, i: nat, t: nat): (r: nat)
    requires t <= |es|
    ensures t <= r <= |es| && (r < |es| ==> Dispatched(ss, es, r, i))
    ensures forall u :: t <= u < r ==> !Dispatched(ss, es, u, i)
    decreases |es| - t
  {
    if t == |es| || Dispatched(ss, es, t, i) then t else FirstDispatch(ss, es, i, t + 1)
  }

  /** A task that has just been dispatched is awake, so that `RunsAgain` applies to it. */
  lemma DispatchedIsAwake(s: State, horizon: nat, clock: nat -> nat)
    requires Possible(s, Next(horizon), clock)
    ensures var t := Step(s, Next(horizon), clock);
            t.current < |t.deadlines| && Awake(t, t.current, clock)
  {
    hide NextTask;
    NextTaskExact(s.deadlines, clock, s.current, s.k, horizon);
    var k' := Step(s, Next(horizon), clock).k;
    assert clock(k' - 1) <= clock(k');
  }

  // ------------------------------------------------------------------- in place

  class Task {
    var next: Task?
    var sleepUntil: nat

    constructor ()
      ensures next == null && sleepUntil == 0
    {
      next, sleepUntil := null, 0;
    }
  }

  function Deadlines(ts: seq<Task>): (r: seq<nat>)
    reads ts
    ensures |r| == |ts| && forall i :: 0 <= i < |ts| ==> r[i] == ts[i].sleepUntil
  {
    if ts == [] then [] else Deadlines(ts[..|ts| - 1]) + [ts[|ts| - 1].sleepUntil]
  }

  /** The place-th entry of the list, if it goes that far. */
  function Place(ts: seq<Task>, i: nat): Task? { if i < |ts| then ts[i] else null }

  predicate Linked(ts: seq<Task>, i: nat)
    reads ts
    requires i < |ts|
  {
    ts[i].next == Place(ts, i + 1)
  }

  function Found(ts: seq<Task>, place: Option<nat>): Task? { if place.Some? then Place(ts, place.value) else null }

  class Kernel {
    const clock: nat -> nat
    var readings: nat
    var head: Task?
    var tail: Task?
    var current: Task?
    /** The list from the head, and the place of the current task. */
    ghost var tasks: seq<Task>
    ghost var at: nat

    ghost predicate Valid()
      reads this, tasks
    {
      && Monotone(clock) && Ends()
      && (forall i, j :: 0 <= i < j < |tasks| ==> tasks[i] != tasks[j])
      && forall i :: 0 <= i < |tasks| ==> Linked(tasks, i)
    }

    /** Without a task there is neither head, nor tail, nor current task. */
    ghost predicate Ends()
      reads this
    {
      if tasks == [] then head == null && tail == null && current == null && at == 0
      else at < |tasks| && head == tasks[0] && current == tasks[at] && tail == tasks[|tasks| - 1]
    }

    ghost function Now(): State
      reads this, tasks
    {
      State(Deadlines(tasks), at, readings)
    }

    constructor (clock: nat -> nat)
      requires Monotone(clock)
      ensures Valid() && tasks == [] && this.clock == clock && readings == 0
    {
      this.clock := clock;
      readings, head, tail, current := 0, null, null, null;
      tasks, at := [], 0;
    }

    /** `task_new`, from where the task is made: the first one is the current one, others become the tail. */
    method TaskNew() returns (task: Task)
      requires Valid()
      modifies this, tail
      ensures Valid() && fresh(task) && tasks == old(tasks) + [task] && readings == old(readings)
      ensures at == old(at) && (old(tasks) == [] ==> current == task)
      ensures Deadlines(tasks) == old(Deadlines(tasks)) + [0]
    {
      hide Deadlines, Monotone;
      task := new Task();
      ghost var before := tasks;
      tasks := tasks + [task];
      if head == null {
        head, tail, current := task, task, task;
      } else {
        tail.next := task;
        tail := task;
      }
      forall i | 0 <= i < |tasks| ensures Linked(tasks, i) {
        if i + 1 < |before| {
          assert old(Linked(before, i));
        }
      }
      AppendedDeadline(before, task);
    }

    twostate lemma AppendedDeadline(before: seq<Task>, new task: Task)
      requires tasks == before + [task] && task.sleepUntil == 0
      requires forall t :: t in before ==> t.sleepUntil == old(t.sleepUntil)
      ensures Deadlines(tasks) == old(Deadlines(before)) + [0]
    {
    }

    lemma Parts()
      requires Valid()
      ensures Monotone(clock) && Ends() && (tasks != [] ==> tasks[at].next == Place(tasks, at + 1))
    {
      assert tasks != [] ==> Linked(tasks, at);
    }

    lemma NextIs(i: nat)
      requires Valid() && i < |tasks|
      ensures tasks[i].next == Place(tasks, i + 1)
    {
      assert Linked(tasks, i);
    }

    /** `task_asleep`, which reads the clock. */
    method TaskAsleep(task: Task) returns (asleep: bool)
      requires Valid()
      modifies this`readings
      ensures Valid() && readings == old(readings) + 1 && asleep == Asleep(task.sleepUntil, clock, old(readings))
    {
      hide Monotone;
      asleep := task.sleepUntil > clock(readings);
      readings := readings + 1;
    }

    /** `task_sleep`; for a task of the list that is the event of a run. */
    method TaskSleep(task: Task, microseconds: nat)
      requires Valid()
      modifies this`readings, task`sleepUntil
      ensures Valid() && readings == old(readings) + 1 && task.sleepUntil == clock(old(readings)) + microseconds
      ensures forall i :: 0 <= i < |tasks| && tasks[i] == task ==>
              StepTo(old(Now()), Sleep(i, microseconds), Now(), clock)
    {
      hide Monotone, Deadlines;
      ghost var before := Now();
      task.sleepUntil := clock(readings) + microseconds;
      readings := readings + 1;
      forall i | 0 <= i < |tasks| ensures Linked(tasks, i) {
        assert old(Linked(tasks, i));
      }
      forall i | 0 <= i < |tasks| && tasks[i] == task ensures StepTo(before, Sleep(i, microseconds), Now(), clock) {
        assert Deadlines(tasks) == before.deadlines[i := clock(before.k) + microseconds];
      }
    }

    /** `task_get_next_non_sleeping_task`, which fails without a task. */
    method GetNextNonSleepingTask() returns (ok: bool, task: Task?, ghost place: Option<nat>)
      requires Valid()
      modifies this`readings
      ensures Valid() && ok == (tasks != [])
      ensures ok ==> (place, readings) == Scan(Deadlines(tasks), clock, Begin(|tasks|, at), old(readings))
      ensures ok ==> task == Found(tasks, place)
      ensures !ok ==> task == null && readings == old(readings)
    {
      hide Scan, Deadlines, Asleep, Kernel.Valid;
      Parts();
      place := None;
      task := head;
      if current != null {
        task := current.next;
      }
      if task == null {
        task := head;
        if task == null {
          return false, null, None;
        }
      }
      ghost var ds, i := Deadlines(tasks), Begin(|tasks|, at);
      ghost var whole := Scan(ds, clock, i, readings);
      while task != null
        invariant Valid() && i <= |tasks| && task == Place(tasks, i) && ds == Deadlines(tasks)
        invariant whole == Scan(ds, clock, i, readings)
        decreases |tasks| - i
      {
        ScanStep(ds, clock, i, readings);
        var asleep := TaskAsleep(task);
        if !asleep {
          return true, task, Some(i);
        }
        NextIs(i);
        task := task.next;
        i := i + 1;
      }
      ScanStep(ds, clock, |tasks| - 1, readings);
      ok := true;
    }

    /** `task_next`, up to the switch; it panics without a task. */
    method TaskNext(ghost horizon: nat) returns (panicked: bool)
      requires Valid() && (tasks != [] ==> Reached(Deadlines(tasks), clock, at, horizon))
      modifies this`readings, this`current, this`at
      ensures Valid() && panicked == (tasks == [])
      ensures if panicked then Now() == old(Now()) else StepTo(old(Now()), Next(horizon), Now(), clock)
    {
      hide Scan, Deadlines, NextTask, Kernel.Valid, Reached, Monotone;
      Parts();
      ghost var ds := Deadlines(tasks);
      if tasks != [] {
        NextTaskStep(ds, clock, at, readings, horizon);
      }
      var ok, nextTask;
      ghost var place: Option<nat>;
      ok, nextTask, place := GetNextNonSleepingTask();
      if !ok {
        return true;
      }
      ghost var whole := NextTask(ds, clock, at, old(readings), horizon);
      while nextTask == null
        invariant Valid() && at == old(at) && ds == Deadlines(tasks) && at < |tasks|
        invariant nextTask == Found(tasks, place) && (place.Some? ==> place.value < |tasks|)
        invariant whole == if place.Some? then (place.value, readings) else NextTask(ds, clock, at, readings, horizon)
        decreases if readings < horizon then horizon - readings else 0, if nextTask == null then 1 else 0
      {
        NextTaskStep(ds, clock, at, readings, horizon);
        ok, nextTask, place := GetNextNonSleepingTask();
      }
      Switch(nextTask, place.value);
      panicked := false;
    }

    /** `task_switch`, without the change of page tables. */
    method Switch(task: Task, ghost place: nat)
      requires Valid() && place < |tasks| && tasks[place] == task
      modifies this`current, this`at
      ensures Valid() && at == place
    {
      current := task;
      at := place;
    }
  }
}
