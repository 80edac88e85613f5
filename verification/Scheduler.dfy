/** The scheduler of kernel/sched.c:68-116 with the timer, sys_nice and the counter of a forked task. */
module Scheduler {

  datatype State = RUNNING | INTERRUPTIBLE | UNINTERRUPTIBLE | ZOMBIE | STOPPED
  datatype Slot = Empty | Task(state: State, signal: bool, counter: int, priority: int)
  type Tasks = t: seq<Slot> | |t| == 64 witness seq(64, i => Empty)

  /** The task table and the number of the current task. */
  datatype Cpu = Cpu(task: Tasks, current: nat)

  predicate Runnable(t: Tasks, i: nat) { 1 <= i < 64 && t[i].Task? && t[i].state.RUNNING? }

  /** schedule's first loop: an expired alarm is a signal, and a signal wakes an interruptible task. */
  function Signalled(slot: Slot, rang: bool): Slot
  {
    if slot.Empty? then slot
    else
      var signal := slot.signal || rang;
      slot.(signal := signal, state := if signal && slot.state.INTERRUPTIBLE? then RUNNING else slot.state)
  }

  function WakePass(t: Tasks, alarms: set<nat>): Tasks
  {
    seq(64, i requires 0 <= i < 64 => if i == 0 then t[0] else Signalled(t[i], i in alarms))
  }

  /** The scan for the largest counter, from task i - 1 down to task 1: the counter and the task. */
  function Scan(t: Tasks, i: nat, c: int, next: nat): (int, nat)
    requires i <= 64
  {
    if i <= 1 then (c, next)
    else if Runnable(t, i - 1) && t[i - 1].counter > c then Scan(t, i - 1, t[i - 1].counter, i - 1)
    else Scan(t, i - 1, c, next)
  }

  function Recompute(t: Tasks): Tasks
  {
    seq(64, i requires 0 <= i < 64 => if i == 0 || t[i].Empty? then t[i]
        else t[i].(counter := t[i].counter / 2 + t[i].priority))
  }

  /** The choosing part of schedule, with the counters recomputed when all runnable tasks have used theirs up. */
  function Choose(t: Tasks): (Tasks, nat)
  {
    var (c, next) := Scan(t, 64, -1, 0);
    if c != 0 then (t, next) else (Recompute(t), Scan(Recompute(t), 64, -1, 0).1)
  }

  function Schedule(s: Cpu, alarms: set<nat>): Cpu
  {
    var (t, next) := Choose(WakePass(s.task, alarms));
    Cpu(t, next)
  }

  // ----- what happens to the tasks -----

  /** Block is any call that puts the current task in another state and then calls schedule; alarms are
      those that have expired when schedule looks. */
  datatype Event =
    | UserTick(alarms: set<nat>)
    | KernelTick
    | Block(state: State, alarms: set<nat>)
    | Yield(alarms: set<nat>)
    | Wake(i: nat)
    | Signal(i: nat)
    | Release(i: nat)
    | Nice(increment: int)
    | Fork(i: nat)

  function SetTask(s: Cpu, i: nat, slot: Slot): Cpu
    requires i < 64
  {
    s.(task := s.task[i := slot])
  }

  /** do_timer up to its call of schedule. */
  function Tick(s: Cpu): Cpu
    requires s.current < 64 && s.task[s.current].Task?
  {
    var slot := s.task[s.current];
    SetTask(s, s.current, slot.(counter := if slot.counter - 1 > 0 then slot.counter - 1 else 0))
  }

  predicate Valid(s: Cpu) { s.current < 64 && s.task[s.current].Task? }

  function Step(s: Cpu, e: Event): Cpu
    requires Valid(s)
  {
    var slot := s.task[s.current];
    match e
    case UserTick(alarms) => if slot.counter - 1 > 0 then Tick(s) else Schedule(Tick(s), alarms)
    case KernelTick => Tick(s)
    case Block(state, alarms) => if s.current == 0 then s
        else Schedule(SetTask(s, s.current, slot.(state := state)), alarms)
    case Yield(alarms) => Schedule(s, alarms)
    case Wake(i) => if i < 64 && s.task[i].Task? then SetTask(s, i, s.task[i].(state := RUNNING)) else s
    case Signal(i) => if i < 64 && s.task[i].Task? then SetTask(s, i, s.task[i].(signal := true)) else s
    case Release(i) => if 1 <= i < 64 && i != s.current && s.task[i].Task?
        && s.task[i].state.ZOMBIE? then SetTask(s, i, Empty) else s
    case Nice(increment) => if slot.priority - increment > 0
        then SetTask(s, s.current, slot.(priority := slot.priority - increment)) else s
    case Fork(i) => if 1 <= i < 64
        && s.task[i].Empty? then SetTask(s, i, Task(RUNNING, false, slot.priority, slot.priority)) else s
  }

  // ----- what schedule chooses -----

  lemma {:induction false} ScanPicks(t: Tasks, i: nat, c: int, next: nat)
    requires i <= 64
    ensures
      var (c', n) := Scan(t, i, c, next);
      && c' >= c && (forall j: nat | Runnable(t, j) && j < i :: t[j].counter <= c')
      && ((c' == c && n == next) ||
          (c' > c && n < i && Runnable(t, n) && t[n].counter == c' && forall j: nat | n < j < i && Runnable(t, j) ::
              t[j].counter < c'))
    decreases i
  {
    if i > 1 {
      var take := Runnable(t, i - 1) && t[i - 1].counter > c;
      ScanPicks(t, i - 1, if take then t[i - 1].counter else c, if take then i - 1 else next);
    }
  }

  /** Every task has a priority of at least 1 and a counter that is not negative. */
  predicate Sound(t: Tasks)
  {
    forall i | 0 <= i < 64 && t[i].Task? :: t[i].priority >= 1 && t[i].counter >= 0
  }

  /** Task n is the runnable task with the largest counter, the last such task in the table; 0 when no task is
      runnable. */
  ghost predicate Picked(t: Tasks, n: nat)
  {
    if n == 0 then forall j: nat :: !Runnable(t, j)
    else Runnable(t, n) && forall j: nat | Runnable(t, j) ::
        t[j].counter < t[n].counter || (t[j].counter == t[n].counter && j <= n)
  }

  /** The counters are recomputed at most once: after that the scan does not answer 0. */
  lemma RecomputeOnce(t: Tasks)
    requires Sound(t)
    ensures Sound(Recompute(t)) && Scan(Recompute(t), 64, -1, 0).0 != 0
  {
    ScanPicks(Recompute(t), 64, -1, 0);
  }

  /** schedule picks the runnable task with the largest counter, and recomputes exactly when some task is
      runnable and no runnable task has any counter left. */
  lemma ChoosePicks(t: Tasks)
    requires Sound(t)
    ensures
      var (t', n) := Choose(t);
      && Sound(t') && n < 64 && Picked(t', n) && (n != 0 ==> t'[n].counter > 0)
      && t' == if (exists j: nat :: Runnable(t, j))
      && (forall j: nat | Runnable(t, j) :: t[j].counter == 0) then Recompute(t) else t
  {
    ScanPicks(t, 64, -1, 0);
    ScanPicks(Recompute(t), 64, -1, 0);
    RecomputeOnce(t);
    hide Scan;
    var (c, n) := Scan(t, 64, -1, 0);
    if c == 0 {
      assert Runnable(t, n) && Runnable(Recompute(t), n);
    }
  }

  /** Task j is runnable, or sleeps interruptibly with a signal, if only that of an alarm gone off. */
  predicate MayRun(s: Cpu, alarms: set<nat>, j: nat)
  {
    && 1 <= j < 64 && s.task[j].Task?
    && (s.task[j].state.RUNNING? || (s.task[j].state.INTERRUPTIBLE? && (s.task[j].signal || j in alarms)))
  }

  /** Some task may run and none that may has any counter left. */
  ghost predicate UsedUp(s: Cpu, alarms: set<nat>)
  {
    (exists j: nat :: MayRun(s, alarms, j)) && forall j: nat | MayRun(s, alarms, j) :: s.task[j].counter == 0
  }

  /** What schedule leaves of a task: its priority, its state unless it may run now, and its counter, of which half
      is left, rounded down, on top of the priority when all counters are used up. */
  ghost predicate Rescheduled(b: Slot, a: Slot, rang: bool, mayRun: bool, usedUp: bool)
  {
    if b.Empty? then a.Empty?
    else
      && a.Task? && a.priority == b.priority && (a.signal <==> b.signal || rang)
      && (if mayRun then a.state.RUNNING? else a.state == b.state)
      && (if usedUp then 2 * (a.counter - b.priority) <= b.counter <= 2 * (a.counter - b.priority) + 1
         else a.counter == b.counter)
  }

  /** schedule, told from the table before it: whom it wakes, when it hands out new counters, and which of the
      tasks that may run it chooses. */
  lemma ScheduleSpec(s: Cpu, alarms: set<nat>)
    requires Sound(s.task)
    ensures
      var s' := Schedule(s, alarms);
      && s'.task[0] == s.task[0]
      && (forall i: nat | 1 <= i < 64 ::
            Rescheduled(s.task[i], s'.task[i], i in alarms, MayRun(s, alarms, i), UsedUp(s, alarms)))
      && s'.current < 64
      && (if s'.current == 0 then forall j: nat :: !MayRun(s, alarms, j)
          else
            && MayRun(s, alarms, s'.current)
            && forall j: nat | MayRun(s, alarms, j) ::
              s'.task[j].counter < s'.task[s'.current].counter
              || (s'.task[j].counter == s'.task[s'.current].counter && j <= s'.current))
  {
    var t := WakePass(s.task, alarms);
    forall j: nat ensures Runnable(t, j) <==> MayRun(s, alarms, j) {}
    ChoosePicks(t);
    hide Choose;
    var (t', n) := Choose(t);
    forall j: nat ensures Runnable(t', j) <==> MayRun(s, alarms, j) {}
    forall i: nat | 1 <= i < 64
      ensures Rescheduled(s.task[i], t'[i], i in alarms, MayRun(s, alarms, i), UsedUp(s, alarms)) {}
  }

  /** Nothing changes but task i. */
  ghost predicate OnlyTask(s: Cpu, s': Cpu, i: nat)
  {
    s'.current == s.current && forall j | 0 <= j < 64 && j != i :: s'.task[j] == s.task[j]
  }

  /** The events that do not call schedule: a task woken, or signalled in an interruptible sleep, may run; only a
      zombie is released, and not by itself; sys_nice takes the increment off the priority unless that used it up;
      a new task takes over the priority of the current one and starts with as much counter. */
  lemma EventEffects(s: Cpu, i: nat, increment: int)
    requires Valid(s) && Sound(s.task) && 1 <= i < 64
    ensures
      var s' := Step(s, Wake(i));
      OnlyTask(s, s', i) && (s.task[i].Task? ==> MayRun(s', {}, i)) && (s.task[i].Empty? ==> s' == s)
    ensures
      var s' := Step(s, Signal(i));
      && OnlyTask(s, s', i) && (s.task[i].Task? <==> s'.task[i].Task?)
      && (s.task[i].Task? && s.task[i].state.INTERRUPTIBLE? ==> MayRun(s', {}, i))
    ensures
      var s' := Step(s, Release(i));
      && OnlyTask(s, s', i)
      && (s'.task[i].Empty? <==> s.task[i].Empty? || (s.task[i].state.ZOMBIE? && i != s.current))
      && (s'.task[i].Empty? || s'.task[i] == s.task[i])
    ensures
      var s' := Step(s, Nice(increment));
      && OnlyTask(s, s', s.current) && s'.task[s.current].Task? && s'.task[s.current].priority >= 1
      && (s'.task[s.current].priority == s.task[s.current].priority - increment
         || (s' == s && s.task[s.current].priority <= increment))
    ensures
      var s' := Step(s, Fork(i));
      && OnlyTask(s, s', i)
      && (if s.task[i].Task? then s' == s
         else
           && MayRun(s', {}, i) && !s'.task[i].signal
           && s'.task[i].priority == s.task[s.current].priority == s'.task[i].counter)
  {
    hide Schedule;
  }

  // ----- progress -----

  /** The counters of the tasks below n, other than those of task 0 and task who. */
  function Sum(t: Tasks, who: nat, n: nat): (r: int)
    requires n <= 64
  {
    if n <= 1 then 0 else Sum(t, who, n - 1) + if n - 1 != who && t[n - 1].Task? then t[n - 1].counter else 0
  }

  lemma {:induction false} SumSet(t: Tasks, who: nat, n: nat, i: nat, slot: Slot)
    requires 1 <= i < 64 && n <= 64
    ensures Sum(t[i := slot], who, n) == Sum(t, who, n) +
              (if i < n && i != who
                  then (if slot.Task? then slot.counter else 0) - (if t[i].Task? then t[i].counter else 0) else 0)
  {
    if n > 1 { SumSet(t, who, n - 1, i, slot); }
  }

  lemma {:induction false} SumSame(t: Tasks, t': Tasks, who: nat, n: nat)
    requires n <= 64 && forall i | 1 <= i < n ::
      t'[i].Task? == t[i].Task? && (t[i].Task? ==> t'[i].counter == t[i].counter)
    ensures Sum(t', who, n) == Sum(t, who, n)
  {
    if n > 1 { SumSame(t, t', who, n - 1); }
  }

  lemma {:induction false} SumAtLeast(t: Tasks, who: nat, n: nat, i: nat)
    requires n <= 64 && Sound(t)
    ensures Sum(t, who, n) >= if 1 <= i < n && i != who && t[i].Task? then t[i].counter else 0
  {
    if n > 1 { SumAtLeast(t, who, n - 1, i); }
  }

  /** Task who is runnable with a positive counter, and another task is running. */
  predicate Waiting(s: Cpu, who: nat)
  {
    && Sound(s.task) && Runnable(s.task, who) && s.task[who].counter > 0
    && 1 <= s.current < 64 && s.current != who && s.task[s.current].Task?
  }

  /** The user ticks that may still come before task who is chosen. */
  function Budget(s: Cpu, who: nat): int
    requires Waiting(s, who)
  {
    Sum(s.task, who, 64) + if s.task[s.current].counter == 0 then 1 else 0
  }

  /** As long as a runnable task has counter left, schedule only moves on to a task with counter left. */
  lemma ScheduleWaits(s: Cpu, alarms: set<nat>, who: nat)
    requires Sound(s.task) && Runnable(s.task, who) && s.task[who].counter > 0
    ensures
      var s' := Schedule(s, alarms);
      && (s'.current != who ==> Waiting(s', who) && s'.task[s'.current].counter > 0)
      && s'.current < 64 && Runnable(s'.task, who) && s'.task[who].counter > 0
      && Sound(s'.task) && Sum(s'.task, who, 64) == Sum(s.task, who, 64)
  {
    var t := WakePass(s.task, alarms);
    ChoosePicks(t);
    hide Choose;
    assert Runnable(t, who);
    SumSame(s.task, t, who, 64);
  }

  /** The counter that a fork gives to the new task: the priority of its parent. */
  function Granted(s: Cpu, e: Event): int
    requires Valid(s)
  {
    if e.Fork? && 1 <= e.i < 64 && s.task[e.i].Empty? then s.task[s.current].priority else 0
  }

  /** Every event keeps task who waiting or lets it run, and every user tick uses up the budget, to which only a
      fork adds. */
  lemma StepWaits(s: Cpu, e: Event, who: nat)
    requires Waiting(s, who)
    ensures
      var s' := Step(s, e);
      || s'.current == who
      || (Waiting(s', who)
         && Budget(s', who) + (if e.UserTick? then 1 else 0) <= Budget(s, who) + Granted(s, e))
  {
    hide Schedule, Sum;
    var slot := s.task[s.current];
    SumAtLeast(s.task, who, 64, s.current);
    match e
    case UserTick(alarms) =>
      SumSet(s.task, who, 64, s.current, Tick(s).task[s.current]);
      ScheduleWaits(Tick(s), alarms, who);
    case KernelTick => SumSet(s.task, who, 64, s.current, Tick(s).task[s.current]);
    case Block(state, alarms) =>
      var s1 := SetTask(s, s.current, slot.(state := state));
      SumSet(s.task, who, 64, s.current, slot.(state := state));
      ScheduleWaits(s1, alarms, who);
    case Yield(alarms) => ScheduleWaits(s, alarms, who);
    case Wake(i) => SumSame(s.task, Step(s, e).task, who, 64);
    case Signal(i) => SumSame(s.task, Step(s, e).task, who, 64);
    case Release(i) =>
      if 1 <= i < 64 { SumSet(s.task, who, 64, i, Empty); }
    case Nice(increment) => SumSame(s.task, Step(s, e).task, who, 64);
    case Fork(i) =>
      if 1 <= i < 64 { SumSet(s.task, who, 64, i, Task(RUNNING, false, slot.priority, slot.priority)); }
  }

  function UserTicks(es: seq<Event>): nat
  {
    if es == [] then 0 else UserTicks(es[1..]) + if es[0].UserTick? then 1 else 0
  }

  /** Task who is not chosen during the events es. */
  predicate Unchosen(s: Cpu, es: seq<Event>, who: nat)
    decreases |es|
  {
    Valid(s) && s.current != who && (es != [] ==> Unchosen(Step(s, es[0]), es[1..], who))
  }

  /** The counters handed to new tasks during the events es. */
  function AllGranted(s: Cpu, es: seq<Event>, who: nat): int
    requires Unchosen(s, es, who)
    decreases |es|
  {
    if es == [] then 0 else Granted(s, es[0]) + AllGranted(Step(s, es[0]), es[1..], who)
  }

  lemma {:induction false} WaitsWithinBudget(s: Cpu, es: seq<Event>, who: nat)
    requires Waiting(s, who) && Unchosen(s, es, who)
    ensures UserTicks(es) < Budget(s, who) + AllGranted(s, es, who)
    decreases |es|
  {
    hide Step, Sum, Granted;
    SumAtLeast(s.task, who, 64, s.current);
    if es != [] {
      StepWaits(s, es[0], who);
      WaitsWithinBudget(Step(s, es[0]), es[1..], who);
    }
  }

  /** From any call of schedule, a runnable task with a positive counter is chosen before as many user
      ticks have passed as the counters of the other tasks, and of those they fork, add up to. */
  lemma Progress(s: Cpu, alarms: set<nat>, es: seq<Event>, who: nat)
    requires Sound(s.task) && Runnable(s.task, who) && s.task[who].counter > 0
    requires Unchosen(Schedule(s, alarms), es, who)
    ensures UserTicks(es) < Sum(s.task, who, 64) + AllGranted(Schedule(s, alarms), es, who)
  {
    hide Schedule, Sum, AllGranted;
    ScheduleWaits(s, alarms, who);
    WaitsWithinBudget(Schedule(s, alarms), es, who);
  }

  /** A task left alone keeps the processor for as many user ticks as its counter says: each takes one from it,
      and the last one calls schedule. */
  lemma {:induction false} QuantumLasts(s: Cpu, alarms: seq<set<nat>>)
    requires Valid(s) && 0 < |alarms| <= s.task[s.current].counter
    ensures
      var c, n := s.task[s.current].counter, |alarms|;
      var left := SetTask(s, s.current, s.task[s.current].(counter := c - n));
      TickRun(s, alarms) == if n < c then left else Schedule(left, alarms[n - 1])
    decreases |alarms|
  {
    hide Schedule;
    if |alarms| > 1 {
      var s1 := Step(s, UserTick(alarms[0]));
      assert s1 == SetTask(s, s.current, s.task[s.current].(counter := s.task[s.current].counter - 1));
      QuantumLasts(s1, alarms[1..]);
      assert s1.task[s.current := s1.task[s.current].(counter := s.task[s.current].counter - |alarms|)]
          == s.task[s.current := s.task[s.current].(counter := s.task[s.current].counter - |alarms|)];
    }
  }

  /** User ticks, with the alarms that have gone off at each. */
  function TickRun(s: Cpu, alarms: seq<set<nat>>): Cpu
    decreases |alarms|
  {
    if alarms == [] || !Valid(s) then s
    else if |alarms| == 1 then Step(s, UserTick(alarms[0]))
    else TickRun(Step(s, UserTick(alarms[0])), alarms[1..])
  }

  // ----- bounds -----

  /** What a run keeps to: priorities stay as they are, or at most n. */
  datatype Cap = Fixed | AtMost(n: nat)

  /** Counters stay below twice the priority, or below twice the bound on all priorities. */
  predicate Capped(t: Tasks, cap: Cap)
  {
    Sound(t) && forall i | 0 <= i < 64 && t[i].Task? ::
      if cap.Fixed? then t[i].counter <= 2 * t[i].priority - 1
          else t[i].counter <= 2 * cap.n - 1 && t[i].priority <= cap.n
  }

  predicate Allowed(s: Cpu, e: Event, cap: Cap)
    requires Valid(s)
  {
    e.Nice? ==> if cap.Fixed? then e.increment == 0 else s.task[s.current].priority - e.increment <= cap.n
  }

  lemma ScheduleCapped(s: Cpu, alarms: set<nat>, cap: Cap)
    requires Capped(s.task, cap) && s.task[0].Task?
    ensures Capped(Schedule(s, alarms).task, cap) && Valid(Schedule(s, alarms)) && Schedule(s, alarms).task[0].Task?
  {
    var t := WakePass(s.task, alarms);
    assert Capped(t, cap);
    ChoosePicks(t);
    hide Choose;
    RecomputeCapped(t, cap);
  }

  lemma RecomputeCapped(t: Tasks, cap: Cap)
    requires Capped(t, cap)
    ensures Capped(Recompute(t), cap)
  {}

  lemma SetCapped(s: Cpu, i: nat, slot: Slot, cap: Cap)
    requires Capped(s.task, cap) && i < 64
    requires slot.Task? ==> slot.priority >= 1 && slot.counter >= 0
    requires slot.Task? ==> if cap.Fixed? then slot.counter <= 2 * slot.priority - 1
             else slot.counter <= 2 * cap.n - 1 && slot.priority <= cap.n
    ensures Capped(SetTask(s, i, slot).task, cap)
  {}

  lemma StepCapped(s: Cpu, e: Event, cap: Cap)
    requires Valid(s) && s.task[0].Task? && Capped(s.task, cap) && Allowed(s, e, cap)
    ensures var s' := Step(s, e); Valid(s') && s'.task[0].Task? && Capped(s'.task, cap)
  {
    hide Schedule;
    var slot := s.task[s.current];
    SetCapped(s, s.current, Tick(s).task[s.current], cap);
    match e
    case UserTick(alarms) => ScheduleCapped(Tick(s), alarms, cap);
    case KernelTick =>
    case Block(state, alarms) =>
      SetCapped(s, s.current, slot.(state := state), cap);
      ScheduleCapped(SetTask(s, s.current, slot.(state := state)), alarms, cap);
    case Yield(alarms) => ScheduleCapped(s, alarms, cap);
    case Wake(i) => if i < 64 && s.task[i].Task? { SetCapped(s, i, s.task[i].(state := RUNNING), cap); }
    case Signal(i) => if i < 64 && s.task[i].Task? { SetCapped(s, i, s.task[i].(signal := true), cap); }
    case Release(i) => if i < 64 { SetCapped(s, i, Empty, cap); }
    case Nice(increment) =>
      if slot.priority - increment > 0 {
        SetCapped(s, s.current, slot.(priority := slot.priority - increment), cap);
      }
    case Fork(i) =>
      if i < 64 { SetCapped(s, i, Task(RUNNING, false, slot.priority, slot.priority), cap); }
  }

  predicate AllowedRun(s: Cpu, es: seq<Event>, cap: Cap)
    decreases |es|
  {
    Valid(s) && (es != [] ==> Allowed(s, es[0], cap) && AllowedRun(Step(s, es[0]), es[1..], cap))
  }

  function Run(s: Cpu, es: seq<Event>, cap: Cap): Cpu
    requires AllowedRun(s, es, cap)
    decreases |es|
  {
    if es == [] then s else Run(Step(s, es[0]), es[1..], cap)
  }

  lemma {:induction false} RunCapped(s: Cpu, es: seq<Event>, cap: Cap)
    requires s.task[0].Task? && Capped(s.task, cap) && AllowedRun(s, es, cap)
    ensures Capped(Run(s, es, cap).task, cap)
    decreases |es|
  {
    hide Step;
    if es != [] {
      StepCapped(s, es[0], cap);
      RunCapped(Step(s, es[0]), es[1..], cap);
    }
  }

  /** The table at boot: task 0 alone, with counter and priority 15. */
  function Boot(): Cpu { Cpu(seq(64, i => if i == 0 then Task(RUNNING, false, 15, 15) else Empty), 0) }

  /** With priorities fixed no counter ever exceeds twice its priority less one. */
  lemma CountersStayBounded(es: seq<Event>, i: nat)
    requires AllowedRun(Boot(), es, Fixed) && i < 64
    ensures
      var slot := Run(Boot(), es, Fixed).task[i];
      slot.Task? ==> 0 <= slot.counter <= 2 * slot.priority - 1
  {
    RunCapped(Boot(), es, Fixed);
    hide Run;
  }

  /** While sys_nice keeps every priority at most cap, no counter exceeds twice cap less one; priorities stay
      positive. */
  lemma NicedCountersStayBounded(es: seq<Event>, cap: nat, i: nat)
    requires cap >= 15 && AllowedRun(Boot(), es, AtMost(cap)) && i < 64
    ensures
      var slot := Run(Boot(), es, AtMost(cap)).task[i];
      slot.Task? ==> 0 <= slot.counter <= 2 * cap - 1 && 1 <= slot.priority <= cap
  {
    RunCapped(Boot(), es, AtMost(cap));
    hide Run;
  }
}
