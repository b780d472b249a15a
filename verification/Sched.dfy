// The counter scheduler and the life of task slots.
module Sched {
  import opened Wrappers

  const NR_TASKS: nat := 16

  datatype State = RUNNING | STOPPED

  datatype Task = Task(state: State, priority: int, counter: int, exitState: int) {
    predicate Runs() { state == RUNNING }
  }

  // ---- the choice ----------------------------------------------------------

  ghost predicate AnyRunning(ts: seq<Task>) {
    exists i :: 0 <= i < |ts| && ts[i].Runs()
  }

  /** A running task of maximal counter; among equals the one in the highest slot. */
  ghost predicate IsChoice(ts: seq<Task>, k: nat) {
    && k < |ts| && ts[k].Runs()
    && (forall j :: 0 <= j < |ts| && ts[j].Runs() ==> ts[j].counter <= ts[k].counter)
    && (forall j :: k < j < |ts| && ts[j].Runs() ==> ts[j].counter < ts[k].counter)
  }

  lemma ChoiceUnique(ts: seq<Task>, j: nat, k: nat)
    requires IsChoice(ts, j) && IsChoice(ts, k)
    ensures j == k
  {
  }

  function RefillTask(t: Task): Task {
    if t.Runs() then t.(counter := t.counter / 2 + t.priority) else t
  }

  function Refill(ts: seq<Task>): (r: seq<Task>)
    ensures |r| == |ts| && forall i :: 0 <= i < |ts| ==> r[i] == RefillTask(ts[i])
  {
    seq(|ts|, i requires 0 <= i < |ts| => RefillTask(ts[i]))
  }

  /** Everything but the counter. */
  ghost predicate SameSlot(t: Task, u: Task) {
    u.state == t.state && u.priority == t.priority && u.exitState == t.exitState && (!t.Runs() ==> u == t)
  }

  /** Only counters of running tasks differ. */
  ghost predicate CountersOnly(ts: seq<Task>, us: seq<Task>) {
    |us| == |ts| && forall i :: 0 <= i < |ts| ==> SameSlot(ts[i], us[i])
  }

  /** What every running task keeps. */
  ghost predicate TasksOk(ts: seq<Task>) {
    forall i :: 0 <= i < |ts| && ts[i].Runs() ==> ts[i].priority >= 1 && 0 <= ts[i].counter <= ts[i].priority
  }

  ghost predicate Exhausted(ts: seq<Task>) {
    forall i :: 0 <= i < |ts| && ts[i].Runs() ==> ts[i].counter == 0
  }

  /** Every running task has its full share. */
  function Full(ts: seq<Task>): (r: seq<Task>)
    ensures |r| == |ts|
  {
    seq(|ts|, i requires 0 <= i < |ts| => if ts[i].Runs() then ts[i].(counter := ts[i].priority) else ts[i])
  }

  /** When the scheduler refills, no counter is left to carry over. */
  lemma RefillIsFull(ts: seq<Task>)
    requires Exhausted(ts)
    ensures Refill(ts) == Full(ts)
  {
  }

  /** ts' and k are what schedule makes of ts. */
  ghost predicate Scheduled(ts: seq<Task>, ts': seq<Task>, k: nat) {
    ts' == (if Exhausted(ts) then Full(ts) else ts) && IsChoice(ts', k)
  }

  // ---- counting running slots ----------------------------------------------

  function Running(ts: seq<Task>): nat {
    if ts == [] then 0 else (if ts[0].Runs() then 1 else 0) + Running(ts[1..])
  }

  lemma {:induction false} RunningUpdate(ts: seq<Task>, i: nat, t: Task)
    requires i < |ts|
    ensures Running(ts[i := t]) == Running(ts) - (if ts[i].Runs() then 1 else 0) + (if t.Runs() then 1 else 0)
    ensures ts[i].Runs() ==> Running(ts) > 0
  {
    if i == 0 {
      assert ts[i := t][1..] == ts[1..];
    } else {
      RunningUpdate(ts[1..], i - 1, t);
      assert ts[i := t][1..] == ts[1..][i - 1 := t];
    }
  }

  lemma {:induction false} RunningSame(ts: seq<Task>, us: seq<Task>)
    requires |ts| == |us| && forall i :: 0 <= i < |ts| ==> ts[i].state == us[i].state
    ensures Running(ts) == Running(us)
  {
    if ts != [] {
      RunningSame(ts[1..], us[1..]);
    }
  }

  /** The state between events. */
  ghost predicate SchedInv(ts: seq<Task>, current: nat, num: int) {
    && |ts| == NR_TASKS && TasksOk(ts) && current < NR_TASKS
    && num == Running(ts)
    && (AnyRunning(ts) ==> ts[current].Runs() && ts[current].counter >= 1)
  }

  class Scheduler {
    const task_pool: array<Task>
    var num_running_task: int
    var current: nat

    ghost predicate Valid()
      reads this, task_pool
    {
      SchedInv(task_pool[..], current, num_running_task)
    }

    /** task_init: slot 0 runs with priority 1, every other slot is stopped. */
    constructor ()
      ensures Valid() && current == 0 && num_running_task == 1 && fresh(task_pool)
      ensures forall i: nat :: i < NR_TASKS ==> (task_pool[i].Runs() <==> i == 0)
      ensures task_pool[0].priority == 1 && task_pool[0].counter == 1
    {
      task_pool := new Task[NR_TASKS](_ => Task(STOPPED, 0, 0, 0));
      current := 0;
      num_running_task := 1;
      new;
      ghost var zero := task_pool[..];
      NoneRunning(zero);
      task_pool[0] := Task(RUNNING, 1, 1, 0);
      RunningUpdate(zero, 0, Task(RUNNING, 1, 1, 0));
      assert task_pool[..] == zero[0 := Task(RUNNING, 1, 1, 0)];
    }

    /** schedule.  With no running task it falls back to slot 0. */
    method Schedule()
      requires task_pool.Length == NR_TASKS && TasksOk(task_pool[..])
      modifies this`current, task_pool
      ensures TasksOk(task_pool[..])
      ensures if AnyRunning(old(task_pool[..])) then Scheduled(old(task_pool[..]), task_pool[..], current)
              else task_pool[..] == old(task_pool[..]) && current == 0
      ensures CountersOnly(old(task_pool[..]), task_pool[..])
    {
      ghost var ts := task_pool[..];
      var i: int, c: int, next: nat := NR_TASKS, -1, 0;
      ghost var refills := 0;
      while true
        invariant i == NR_TASKS && next < NR_TASKS && 0 <= refills <= 1
        invariant refills == 0 ==> c == -1 && next == 0 && task_pool[..] == ts
        invariant refills == 1 ==> c == 0 && Exhausted(ts) && AnyRunning(ts) && task_pool[..] == Full(ts)
        decreases 1 - refills
      {
        i := i - 1;
        while i >= 0
          invariant -1 <= i < NR_TASKS && next < NR_TASKS
          invariant refills == 0 ==> task_pool[..] == ts
          invariant refills == 1 ==> task_pool[..] == Full(ts)
          invariant c >= (if refills == 0 then -1 else 0) && (c == -1 ==> next == 0)
          invariant forall j :: i < j < NR_TASKS && task_pool[j].Runs() ==> task_pool[j].counter <= c
          invariant c == (if refills == 0 then -1 else 0) || (i < next && IsChoiceAbove(task_pool[..], next, i, c))
          decreases i
        {
          if task_pool[i].state == RUNNING && task_pool[i].counter > c {
            c := task_pool[i].counter;
            next := i;
          }
          i := i - 1;
        }
        if c != 0 { break; }
        assert refills == 0 ==> Exhausted(ts) && AnyRunning(ts);
        i := 0;
        while i < NR_TASKS
          invariant 0 <= i <= NR_TASKS
          invariant forall j :: 0 <= j < NR_TASKS ==> task_pool[j] == if j < i then RefillTask(ts[j]) else ts[j]
        {
          if task_pool[i].state == RUNNING {
            task_pool[i] := task_pool[i].(counter := task_pool[i].counter / 2 + task_pool[i].priority);
          }
          i := i + 1;
        }
        RefillIsFull(ts);
        assert task_pool[..] == Full(ts);
        refills := 1;
      }
      if next != current { current := next; }
    }

    /** do_timer, with schedule as its slow path. */
    method DoTimer()
      requires Valid() && AnyRunning(task_pool[..])
      modifies this`current, task_pool
      ensures Valid() && AnyRunning(task_pool[..])
      ensures Ticks(old(task_pool[..]), old(current), task_pool[..], current)
      ensures CountersOnly(old(task_pool[..]), task_pool[..])
      // the task stays while its share lasts; then the next one is the first of those with the most left
      ensures var t := old(task_pool[current]);
              t.counter > 1 ==> current == old(current)
                                && task_pool[..] == old(task_pool[..])[current := t.(counter := t.counter - 1)]
      ensures old(task_pool[current].counter) == 1 ==> IsChoice(task_pool[..], current)
    {
      ghost var ts := task_pool[..];
      var t := task_pool[current];
      task_pool[current] := t.(counter := t.counter - 1);
      assert task_pool[..] == Charged(ts, current);
      RunningSame(ts, Charged(ts, current));
      if t.counter - 1 > 0 { return; }
      assert task_pool[current].Runs();
      Schedule();
      RunningSame(Charged(ts, old(current)), task_pool[..]);
      ChoiceHasShare(Charged(ts, old(current)), task_pool[..], current);
    }

    /** find_empty_task: the lowest stopped slot above 0; the running count already includes it. */
    method FindEmptyTask() returns (i: nat)
      requires task_pool.Length == NR_TASKS
      modifies this`num_running_task
      ensures 1 <= i <= NR_TASKS && forall j :: 1 <= j < i ==> task_pool[j].state != STOPPED
      ensures i < NR_TASKS ==> task_pool[i].state == STOPPED
      ensures num_running_task == old(num_running_task) + (if i < NR_TASKS then 1 else 0)
    {
      i := 1;
      while i < NR_TASKS
        invariant 1 <= i <= NR_TASKS && forall j :: 1 <= j < i ==> task_pool[j].state != STOPPED
      {
        if task_pool[i].state == STOPPED { break; }
        i := i + 1;
      }
      if i != NR_TASKS { num_running_task := num_running_task + 1; }
    }

    /** privilege_task_create.  None: the pool is full and the kernel spins. */
    method PrivilegeTaskCreate(priority: int) returns (r: Option<nat>)
      requires Valid() && AnyRunning(task_pool[..]) && priority >= 1
      modifies this`num_running_task, task_pool
      ensures Valid() && current == old(current)
      ensures r.None? <==> forall i :: 1 <= i < NR_TASKS ==> old(task_pool[..])[i].Runs()
      ensures r.None? ==> task_pool[..] == old(task_pool[..])
      ensures r.Some? ==> r.value < NR_TASKS && Created(old(task_pool[..]), task_pool[..], r.value,
                                                       Task(RUNNING, priority, priority, old(task_pool[..])[r.value].exitState))
    {
      ghost var ts := task_pool[..];
      var i := FindEmptyTask();
      if i == NR_TASKS { return None; }
      var t := task_pool[i].(state := RUNNING, priority := priority, counter := priority);
      task_pool[i] := t;
      assert task_pool[..] == ts[i := t];
      RunningUpdate(ts, i, t);
      r := Some(i);
    }

    /** The slot sys_fork fills: the child is a copy of the current task with a full share. */
    method ForkTask() returns (child: nat)
      requires Valid() && AnyRunning(task_pool[..])
      requires exists i :: 1 <= i < NR_TASKS && !task_pool[i].Runs()
      modifies this`num_running_task, task_pool
      ensures Valid() && current == old(current)
      ensures var t := old(task_pool[current]);
              Created(old(task_pool[..]), task_pool[..], child, t.(counter := t.priority))
    {
      ghost var ts := task_pool[..];
      child := FindEmptyTask();
      assert child < NR_TASKS;
      var t := task_pool[current].(counter := task_pool[current].priority);
      task_pool[child] := t;
      assert task_pool[..] == ts[child := t];
      RunningUpdate(ts, child, t);
    }

    /** sys_exit */
    method Exit(status: int)
      requires Valid() && AnyRunning(task_pool[..])
      modifies this, task_pool
      ensures var ts := Stopped(old(task_pool[..]), old(current), status);
              if AnyRunning(ts) then Valid() && Scheduled(ts, task_pool[..], current)
              else task_pool[..] == ts && current == 0 && num_running_task == 0
      ensures task_pool[old(current)] == old(task_pool[current]).(state := STOPPED, exitState := status)
      ensures num_running_task == old(num_running_task) - 1
      ensures AnyRunning(task_pool[..]) ==> Valid() && current != old(current)
      ensures forall i: nat :: i < NR_TASKS && i != old(current) ==> SameSlot(old(task_pool[..])[i], task_pool[i])
    {
      ghost var ts := task_pool[..];
      var t := task_pool[current].(state := STOPPED, exitState := status);
      task_pool[current] := t;
      assert task_pool[..] == Stopped(ts, current, status) == ts[current := t];
      RunningUpdate(ts, current, t);
      num_running_task := num_running_task - 1;
      Schedule();
      if AnyRunning(ts[old(current) := t]) {
        RunningSame(ts[old(current) := t], task_pool[..]);
        ChoiceHasShare(ts[old(current) := t], task_pool[..], current);
      } else {
        NoneRunning(task_pool[..]);
      }
    }

    /** sys_kill: false is the error return. */
    method Kill(pid: int) returns (ok: bool)
      requires Valid() && AnyRunning(task_pool[..])
      modifies this`num_running_task, task_pool
      ensures Valid() && AnyRunning(task_pool[..]) && current == old(current)
      ensures ok <==> 0 <= pid < NR_TASKS && pid != current && old(task_pool[..])[pid].Runs()
      ensures task_pool[..] == if ok then Stopped(old(task_pool[..]), pid, 1) else old(task_pool[..])
      ensures ok ==> task_pool[pid] == old(task_pool[..])[pid].(state := STOPPED, exitState := 1)
      ensures num_running_task == old(num_running_task) - (if ok then 1 else 0)
      ensures forall i: nat :: i < NR_TASKS && i != pid ==> task_pool[i] == old(task_pool[..])[i]
    {
      if pid == current || pid < 0 || pid >= NR_TASKS { return false; }
      ghost var ts := task_pool[..];
      if task_pool[pid].state != RUNNING { return false; }
      var t := task_pool[pid].(state := STOPPED, exitState := 1);
      task_pool[pid] := t;
      assert task_pool[..] == ts[pid := t];
      RunningUpdate(ts, pid, t);
      num_running_task := num_running_task - 1;
      assert task_pool[..][current].Runs();
      ok := true;
    }
  }

  function Stopped(ts: seq<Task>, i: nat, status: int): seq<Task>
    requires i < |ts|
  {
    ts[i := ts[i].(state := STOPPED, exitState := status)]
  }

  /** The lowest stopped slot above 0 now holds t, which runs with a full share. */
  ghost predicate Created(ts: seq<Task>, ts': seq<Task>, i: nat, t: Task) {
    && 1 <= i < |ts| && !ts[i].Runs() && (forall j :: 1 <= j < i ==> ts[j].Runs())
    && t.Runs() && t.counter == t.priority && ts' == ts[i := t]
  }

  /** One tick is charged to slot k. */
  function Charged(ts: seq<Task>, k: nat): seq<Task>
    requires k < |ts|
  {
    ts[k := ts[k].(counter := ts[k].counter - 1)]
  }

  /** What one timer interrupt does. */
  ghost predicate Ticks(ts: seq<Task>, cur: nat, ts': seq<Task>, cur': nat)
    requires cur < |ts|
  {
    var c := Charged(ts, cur);
    if c[cur].counter > 0 then ts' == c && cur' == cur else Scheduled(c, ts', cur')
  }

  /** After schedule the chosen task has at least one tick to spend. */
  lemma ChoiceHasShare(ts: seq<Task>, ts': seq<Task>, k: nat)
    requires TasksOk(ts) && AnyRunning(ts) && Scheduled(ts, ts', k)
    ensures TasksOk(ts') && ts'[k].Runs() && ts'[k].counter >= 1
  {
    if !Exhausted(ts) {
      var i :| 0 <= i < |ts| && ts[i].Runs() && ts[i].counter != 0;
      assert ts'[i].counter <= ts'[k].counter;
    }
  }

  /** Among the slots above i, slot k holds the first maximal counter met from the top. */
  ghost predicate IsChoiceAbove(ts: seq<Task>, k: nat, i: int, c: int) {
    && i < k < |ts| && ts[k].Runs() && ts[k].counter == c
    && (forall j :: k < j < |ts| && ts[j].Runs() ==> ts[j].counter < c)
  }

  lemma {:induction false} NoneRunning(ts: seq<Task>)
    requires forall i :: 0 <= i < |ts| ==> !ts[i].Runs()
    ensures Running(ts) == 0
  {
    if ts != [] { NoneRunning(ts[1..]); }
  }

  // ---- fairness ------------------------------------------------------------

  datatype Sys = Sys(ts: seq<Task>, cur: nat)

  ghost predicate SysOk(s: Sys) {
    && TasksOk(s.ts) && s.cur < |s.ts| && s.ts[s.cur].Runs() && s.ts[s.cur].counter >= 1
  }

  /** run[j] is the state before tick j; nothing but ticks happens, so the runnable set is fixed. */
  ghost predicate TickRun(run: seq<Sys>) {
    && run != [] && SysOk(run[0])
    && forall j: nat :: j + 1 < |run| ==> TickAt(run, j)
  }

  ghost predicate TickAt(run: seq<Sys>, j: nat)
    requires j + 1 < |run|
  {
    TickStep(run[j], run[j + 1])
  }

  ghost predicate TickStep(s: Sys, s': Sys) {
    s.cur < |s.ts| && Ticks(s.ts, s.cur, s'.ts, s'.cur)
  }

  /** A task that became current stays so, tick after tick, until its whole counter is spent. */
  lemma {:induction false} WholeShare(run: seq<Sys>, j: nat, d: nat)
    requires TickRun(run) && j + d < |run| && run[j].cur < |run[j].ts| && d < run[j].ts[run[j].cur].counter
    ensures var s, k := run[j], run[j].cur;
            run[j + d].cur == k && run[j + d].ts == s.ts[k := s.ts[k].(counter := s.ts[k].counter - d)]
  {
    if d > 0 {
      WholeShare(run, j, d - 1);
      assert TickAt(run, j + d - 1);
    }
  }

  /** How many of the first n ticks find task t current. */
  ghost function Served(run: seq<Sys>, n: nat, t: nat): nat
    requires n <= |run|
  {
    if n == 0 then 0 else (if run[0].cur == t then 1 else 0) + Served(run[1..], n - 1, t)
  }

  /** The ticks that all running tasks together still have to spend. */
  function Remaining(ts: seq<Task>): int {
    if ts == [] then 0 else (if ts[0].Runs() then ts[0].counter else 0) + Remaining(ts[1..])
  }

  /** The length of an epoch: the sum of the priorities of the running tasks. */
  function Epoch(ts: seq<Task>): int { Remaining(Full(ts)) }

  lemma {:induction false} RemainingUpdate(ts: seq<Task>, i: nat, t: Task)
    requires i < |ts| && ts[i].Runs() && t.Runs()
    ensures Remaining(ts[i := t]) == Remaining(ts) - ts[i].counter + t.counter
  {
    if i == 0 {
      assert ts[i := t][1..] == ts[1..];
    } else {
      RemainingUpdate(ts[1..], i - 1, t);
      assert ts[i := t][1..] == ts[1..][i - 1 := t];
    }
  }

  lemma {:induction false} RemainingZero(ts: seq<Task>)
    requires TasksOk(ts)
    ensures Remaining(ts) >= 0 && (Remaining(ts) == 0 <==> Exhausted(ts))
    ensures forall i :: 0 <= i < |ts| && ts[i].Runs() ==> ts[i].counter <= Remaining(ts)
  {
    if ts != [] {
      RemainingZero(ts[1..]);
      assert forall i :: 1 <= i < |ts| ==> ts[i] == ts[1..][i - 1];
      assert Exhausted(ts) <==> Exhausted(ts[1..]) && (ts[0].Runs() ==> ts[0].counter == 0);
    }
  }

  lemma FullOk(ts: seq<Task>)
    requires TasksOk(ts)
    ensures TasksOk(Full(ts)) && Full(Full(ts)) == Full(ts)
  {
  }

  /** One tick spends one unit of the current task, and refills when it was the last. */
  lemma TickSpends(s: Sys, s': Sys)
    requires SysOk(s) && TickStep(s, s')
    ensures SysOk(s') && |s'.ts| == |s.ts| && Full(s'.ts) == Full(s.ts)
    ensures Remaining(s.ts) >= 1
    ensures s'.ts == if Remaining(s.ts) == 1 then Full(s.ts) else Charged(s.ts, s.cur)
    ensures Remaining(Charged(s.ts, s.cur)) == Remaining(s.ts) - 1
  {
    var c := Charged(s.ts, s.cur);
    RemainingUpdate(s.ts, s.cur, c[s.cur]);
    RemainingZero(s.ts);
    RemainingZero(c);
    assert Full(c) == Full(s.ts);
    assert c[s.cur].Runs();
    FullOk(s.ts);
    if c[s.cur].counter == 0 { ChoiceHasShare(c, s'.ts, s'.cur); }
  }

  lemma RunTail(run: seq<Sys>)
    requires TickRun(run) && |run| > 1
    ensures TickRun(run[1..])
  {
    assert TickAt(run, 0);
    TickSpends(run[0], run[1]);
    forall j: nat | j + 1 < |run[1..]| ensures TickAt(run[1..], j) {
      assert TickAt(run, j + 1);
    }
  }

  /** Until the counters run out each running task is current for exactly as many ticks as its
      counter says; then all shares are full again. */
  lemma {:induction false} EpochEnds(run: seq<Sys>, t: nat)
    requires TickRun(run) && |run| == Remaining(run[0].ts) + 1
    requires t < |run[0].ts| && run[0].ts[t].Runs()
    ensures Served(run, |run| - 1, t) == run[0].ts[t].counter
    ensures run[|run| - 1].ts == Full(run[0].ts) && SysOk(run[|run| - 1])
    decreases |run|
  {
    RemainingZero(run[0].ts);
    assert TickAt(run, 0);
    TickSpends(run[0], run[1]);
    var rest := run[1..];
    if Remaining(run[0].ts) == 1 {
      assert Served(rest, 0, t) == 0;
      LastUnit(run[0].ts, run[0].cur, t);
    } else {
      RunTail(run);
      EpochEnds(rest, t);
    }
  }

  /** When one unit is left it belongs to the current task. */
  lemma LastUnit(ts: seq<Task>, cur: nat, t: nat)
    requires TasksOk(ts) && Remaining(ts) == 1 && cur < |ts| && ts[cur].Runs() && ts[cur].counter >= 1
    requires t < |ts| && ts[t].Runs()
    ensures ts[t].counter == if t == cur then 1 else 0
  {
    var c := Charged(ts, cur);
    RemainingUpdate(ts, cur, c[cur]);
    RemainingZero(ts);
    RemainingZero(c);
    assert t != cur ==> c[t] == ts[t];
  }

  lemma {:induction false} ServedSplit(run: seq<Sys>, a: nat, b: nat, t: nat)
    requires a + b <= |run|
    ensures Served(run, a + b, t) == Served(run, a, t) + Served(run[a..], b, t)
    ensures Served(run, a, t) == Served(run[..a], a, t)
  {
    if a == 0 {
      assert run[0..] == run;
    } else {
      ServedSplit(run[1..], a - 1, b, t);
      assert run[1..][a - 1..] == run[a..] && run[1..][..a - 1] == run[..a][1..];
    }
  }

  /** The run from tick a on. */
  lemma {:induction false} RunFrom(run: seq<Sys>, a: nat)
    requires TickRun(run) && a < |run|
    ensures TickRun(run[a..]) && Full(run[a].ts) == Full(run[0].ts)
    ensures |run[a].ts| == |run[0].ts|
  {
    if a > 0 {
      RunFrom(run, a - 1);
      assert run[a - 1..][0] == run[a - 1];
      assert TickAt(run, a - 1);
      TickSpends(run[a - 1], run[a]);
    }
    forall j: nat | j + 1 < |run[a..]| ensures TickAt(run[a..], j) {
      assert TickAt(run, a + j);
    }
  }

  lemma RunUpTo(run: seq<Sys>, n: nat)
    requires TickRun(run) && 0 < n <= |run|
    ensures TickRun(run[..n])
  {
    forall j: nat | j + 1 < n ensures TickAt(run[..n], j) {
      assert TickAt(run, j);
    }
  }

  /** Fairness: over the remaining counters and k further epochs, a running task is current for
      exactly its counter and k times its priority. */
  lemma EpochFairness(run: seq<Sys>, k: nat, t: nat)
    requires TickRun(run) && |run| == Remaining(run[0].ts) + k * Epoch(run[0].ts) + 1
    requires t < |run[0].ts| && run[0].ts[t].Runs() && Remaining(run[0].ts) >= 0 && Epoch(run[0].ts) >= 0
    ensures Served(run, |run| - 1, t) == run[0].ts[t].counter + k * run[0].ts[t].priority
    ensures run[|run| - 1].ts == Full(run[0].ts)
  {
    hide Served, Remaining, Epoch, TickRun, Full;
    Epochs(run, k, t);
  }

  function Times(k: nat, x: int): int { k * x }

  lemma TimesNext(k: nat, x: nat)
    requires k > 0
    ensures Times(k, x) == Times(k - 1, x) + x >= x
  {
    assert (k - 1) * x >= 0;
  }

  /** The same, epoch by epoch. */
  lemma {:induction false} Epochs(run: seq<Sys>, k: nat, t: nat)
    requires TickRun(run) && |run| == Remaining(run[0].ts) + Times(k, Epoch(run[0].ts)) + 1
    requires t < |run[0].ts| && run[0].ts[t].Runs() && Remaining(run[0].ts) >= 0 && Epoch(run[0].ts) >= 0
    ensures Served(run, |run| - 1, t) == run[0].ts[t].counter + Times(k, run[0].ts[t].priority)
    ensures run[|run| - 1].ts == Full(run[0].ts)
    decreases k
  {
    if k == 0 {
      EpochEnds(run, t);
    } else {
      hide Served, Remaining, Epoch, TickRun, SysOk, Full, Times;
      var n := Remaining(run[0].ts);
      TimesNext(k, Epoch(run[0].ts));
      TimesNext(k, run[0].ts[t].priority);
      AfterDrain(run, n, t);
      FullAt(run[0].ts, t);
      Epochs(run[n..], k - 1, t);
      assert run[n..][|run| - n - 1] == run[|run| - 1];
    }
  }

  lemma FullAt(ts: seq<Task>, t: nat)
    requires t < |ts| && ts[t].Runs()
    ensures t < |Full(ts)| && Full(ts)[t] == ts[t].(counter := ts[t].priority)
  {
  }

  lemma TasksOfRun(run: seq<Sys>)
    requires TickRun(run)
    ensures TasksOk(run[0].ts)
  {
  }

  /** The first n ticks, with n the remaining counters, end at a refill. */
  lemma DrainPrefix(run: seq<Sys>, n: nat, t: nat)
    requires TickRun(run) && n == Remaining(run[0].ts) && n < |run|
    requires t < |run[0].ts| && run[0].ts[t].Runs()
    ensures run[n].ts == Full(run[0].ts) && Served(run, n, t) == run[0].ts[t].counter
  {
    var first := run[..n + 1];
    RunUpTo(run, n + 1);
    hide Served, Remaining, TickRun, SysOk, TasksOk;
    EpochEnds(first, t);
    ServedSplit(first, n, 0, t);
    ServedSplit(run, n, 0, t);
    assert first[..n] == run[..n];
  }

  /** The run that is left after them. */
  lemma AfterDrain(run: seq<Sys>, n: nat, t: nat)
    requires TickRun(run) && n == Remaining(run[0].ts) && n < |run|
    requires t < |run[0].ts| && run[0].ts[t].Runs()
    ensures TickRun(run[n..]) && run[n..][0].ts == Full(run[0].ts)
    ensures Remaining(run[n..][0].ts) == Epoch(run[n..][0].ts) == Epoch(run[0].ts)
    ensures Full(run[n..][0].ts) == Full(run[0].ts)
    ensures Served(run, |run| - 1, t) == run[0].ts[t].counter + Served(run[n..], |run| - 1 - n, t)
  {
    TasksOfRun(run);
    FullOk(run[0].ts);
    DrainPrefix(run, n, t);
    RunFrom(run, n);
    ServedSplit(run, n, |run| - 1 - n, t);
    hide *;
    assert run[n..][0] == run[n];
    SameEpoch(run[0].ts, run[n].ts);
  }

  lemma SameEpoch(ts: seq<Task>, us: seq<Task>)
    requires us == Full(ts) && Full(us) == us
    ensures Remaining(us) == Epoch(us) == Epoch(ts) && Full(us) == Full(ts)
  {
  }

  lemma {:induction false} ServedBound(run: seq<Sys>, n: nat, t: nat)
    requires n <= |run|
    ensures Served(run, n, t) <= n
    ensures Served(run, n, t) > 0 ==> exists j :: 0 <= j < n && run[j].cur == t
  {
    if n > 0 {
      ServedBound(run[1..], n - 1, t);
      if Served(run[1..], n - 1, t) > 0 {
        var j :| 0 <= j < n - 1 && run[1..][j].cur == t;
        assert run[j + 1].cur == t;
      }
    }
  }

  /** No running task waits longer than the remaining counters plus one epoch less its own share. */
  lemma WaitingBound(run: seq<Sys>, t: nat)
    requires TickRun(run) && t < |run[0].ts| && run[0].ts[t].Runs()
    requires |run| == Remaining(run[0].ts) + Epoch(run[0].ts) + 1
    ensures exists j :: 0 <= j <= Remaining(run[0].ts) + Epoch(run[0].ts) - run[0].ts[t].priority && run[j].cur == t
  {
    var n, e, p := Remaining(run[0].ts), Epoch(run[0].ts), run[0].ts[t].priority;
    RemainingZero(run[0].ts);
    FullOk(run[0].ts);
    RemainingZero(Full(run[0].ts));
    EpochFairness(run, 1, t);
    assert Full(run[0].ts)[t].counter == p <= e;
    ServedSplit(run, n + e - p + 1, p - 1, t);
    ServedBound(run[n + e - p + 1..], p - 1, t);
    ServedBound(run, n + e - p + 1, t);
  }
}
