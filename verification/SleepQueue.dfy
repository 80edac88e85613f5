/** sleep_on and wake_up (kernel/sched.c:125-139, 162-168) as a transition system.  The queue behind a
    queue head has no list of its own: each sleeper keeps the previous head in the local variable tmp on
    its kernel stack and wakes that task when it runs again itself. */
module SleepQueue {
  import opened Counting

  /** asleep is TASK_UNINTERRUPTIBLE.  A task inside sleep_on holds tmp, 0 for NULL; since is the time it
      went in, a history variable. */
  datatype Task = Task(asleep: bool, inside: bool, tmp: nat, since: nat)

  /** The queue heads hold task numbers, 0 for NULL; task 0 never sleeps. */
  datatype Sys = Sys(head: seq<nat>, task: seq<Task>, clock: nat)

  datatype Event = Sleep(t: nat, q: nat) | Wake(q: nat) | Resume(t: nat)

  function SetAwake(task: seq<Task>, t: nat): (r: seq<Task>)
    ensures |r| == |task|
  {
    if 0 < t < |task| then task[t := task[t].(asleep := false)] else task
  }

  /** Sleep is sleep_on up to its call of schedule; Resume is the rest of it, when the woken task runs. */
  function Step(s: Sys, e: Event): Sys
  {
    match e
    case Sleep(t, q) =>
      if 0 < t < |s.task| && q < |s.head| && !s.task[t].asleep && !s.task[t].inside
      then Sys(s.head[q := t], s.task[t := Task(true, true, s.head[q], s.clock)], s.clock + 1)
      else s
    case Wake(q) =>
      if q < |s.head| && s.head[q] != 0 then s.(head := s.head[q := 0], task := SetAwake(s.task, s.head[q])) else s
    case Resume(t) =>
      if 0 < t < |s.task| && s.task[t].inside && !s.task[t].asleep
      then s.(task := SetAwake(s.task[t := s.task[t].(inside := false, tmp := 0)], s.task[t].tmp))
      else s
  }

  function Tmps(task: seq<Task>): (r: seq<nat>)
    ensures |r| == |task| && forall t | 0 <= t < |task| :: r[t] == task[t].tmp
  {
    seq(|task|, t requires 0 <= t < |task| => task[t].tmp)
  }

  /** How many queue heads and pending tmps refer to task t. */
  function Refs(s: Sys, t: nat): nat { Count(s.head, t) + Count(Tmps(s.task), t) }

  predicate Asleep(s: Sys, t: nat) { 0 < t < |s.task| && s.task[t].asleep }

  ghost predicate Inv(s: Sys)
  {
    && |s.task| > 0 && !s.task[0].inside && !s.task[0].asleep
    && (forall t: nat | t < |s.task| ::
      (s.task[t].asleep ==> s.task[t].inside) && (!s.task[t].inside ==> s.task[t].tmp == 0))
    && (forall t: nat | t != 0 :: Refs(s, t) == if Asleep(s, t) then 1 else 0)
    && (forall t: nat | t < |s.task| && s.task[t].inside ::
          s.task[t].since < s.clock
              && (s.task[t].tmp != 0 ==> Asleep(s, s.task[t].tmp) && s.task[s.task[t].tmp].since < s.task[t].since))
  }

  lemma RefsAt(s: Sys, t: nat)
    ensures forall q | 0 <= q < |s.head| && s.head[q] == t :: Refs(s, t) >= 1
    ensures forall u | 0 <= u < |s.task| && s.task[u].tmp == t :: Refs(s, t) >= 1
  {}

  lemma RefsSleep(s: Sys, t: nat, q: nat, x: nat)
    requires 0 < t < |s.task| && q < |s.head| && !s.task[t].asleep && !s.task[t].inside && s.task[t].tmp == 0 && x != 0
    ensures Refs(Step(s, Sleep(t, q)), x) == Refs(s, x) + if x == t then 1 else 0
  {
    CountUpdate(s.head, q, t, x);
    CountUpdate(Tmps(s.task), t, s.head[q], x);
    assert Tmps(Step(s, Sleep(t, q)).task) == Tmps(s.task)[t := s.head[q]];
  }

  lemma TmpsAwake(task: seq<Task>, t: nat)
    ensures Tmps(SetAwake(task, t)) == Tmps(task)
  {}

  lemma RefsWake(s: Sys, q: nat, x: nat)
    requires q < |s.head| && s.head[q] != 0 && x != 0
    ensures Refs(Step(s, Wake(q)), x) + (if x == s.head[q] then 1 else 0) == Refs(s, x)
  {
    CountUpdate(s.head, q, 0, x);
    TmpsAwake(s.task, s.head[q]);
  }

  lemma RefsResume(s: Sys, t: nat, x: nat)
    requires 0 < t < |s.task| && s.task[t].inside && !s.task[t].asleep && x != 0
    ensures Refs(Step(s, Resume(t)), x) + (if x == s.task[t].tmp then 1 else 0) == Refs(s, x)
  {
    var task1 := s.task[t := s.task[t].(inside := false, tmp := 0)];
    CountUpdate(Tmps(s.task), t, 0, x);
    TmpsAwake(task1, s.task[t].tmp);
    assert Tmps(task1) == Tmps(s.task)[t := 0];
  }

  lemma SleepKeeps(s: Sys, t: nat, q: nat)
    requires Inv(s) && 0 < t < |s.task| && q < |s.head| && !s.task[t].asleep && !s.task[t].inside
    ensures Inv(Step(s, Sleep(t, q)))
  {
    var s' := Step(s, Sleep(t, q));
    RefsAt(s, s.head[q]);
    RefsAt(s, t);
    hide Refs;
    forall x: nat | x != 0 ensures Refs(s', x) == if Asleep(s', x) then 1 else 0 {
      RefsSleep(s, t, q, x);
    }
  }

  lemma WakeKeeps(s: Sys, q: nat)
    requires Inv(s) && q < |s.head| && s.head[q] != 0
    ensures Inv(Step(s, Wake(q)))
  {
    var s' := Step(s, Wake(q));
    var h := s.head[q];
    RefsAt(s, h);
    RefsAt(s', h);
    hide Refs;
    forall x: nat | x != 0 ensures Refs(s', x) == if Asleep(s', x) then 1 else 0 {
      RefsWake(s, q, x);
    }
  }

  lemma ResumeKeeps(s: Sys, t: nat)
    requires Inv(s) && 0 < t < |s.task| && s.task[t].inside && !s.task[t].asleep
    ensures Inv(Step(s, Resume(t)))
  {
    var s' := Step(s, Resume(t));
    var h := s.task[t].tmp;
    RefsAt(s', h);
    hide Refs;
    forall x: nat | x != 0 ensures Refs(s', x) == if Asleep(s', x) then 1 else 0 {
      RefsResume(s, t, x);
    }
  }

  lemma StepKeeps(s: Sys, e: Event)
    requires Inv(s)
    ensures Inv(Step(s, e))
  {
    hide Inv, Refs, SetAwake;
    match e
    case Sleep(t, q) => if 0 < t < |s.task| && q < |s.head| && !s.task[t].asleep
        && !s.task[t].inside { SleepKeeps(s, t, q); }
    case Wake(q) => if q < |s.head| && s.head[q] != 0 { WakeKeeps(s, q); }
    case Resume(t) => if 0 < t < |s.task| && s.task[t].inside && !s.task[t].asleep { ResumeKeeps(s, t); }
  }

  function Run(s: Sys, es: seq<Event>): Sys
  {
    if es == [] then s else Step(Run(s, es[..|es| - 1]), es[|es| - 1])
  }

  lemma {:induction false} RunKeeps(s: Sys, es: seq<Event>)
    requires Inv(s)
    ensures Inv(Run(s, es))
  {
    hide Inv, Step;
    if es != [] {
      RunKeeps(s, es[..|es| - 1]);
      StepKeeps(Run(s, es[..|es| - 1]), es[|es| - 1]);
    }
  }

  function Start(queues: nat,
      tasks: nat): Sys { Sys(seq(queues, q => 0), seq(tasks, t => Task(false, false, 0, 0)), 0) }

  lemma StartIsInv(queues: nat, tasks: nat)
    requires tasks > 0
    ensures Inv(Start(queues, tasks))
  {}

  /** Over every interleaving of sleep_on, wake_up and resumption, a sleeping task is referred to exactly
      once, by a queue head or another task's pending tmp, and any other task not at all. */
  lemma SleeperReferredOnce(queues: nat, tasks: nat, es: seq<Event>, t: nat)
    requires tasks > 0 && t != 0
    ensures var s := Run(Start(queues, tasks), es); Refs(s, t) == if Asleep(s, t) then 1 else 0
  {
    StartIsInv(queues, tasks);
    RunKeeps(Start(queues, tasks), es);
  }

  // ----- chains -----

  /** The tasks a sleeper will wake one after the other: t, the task its tmp names, and so on.  The
      chains end: a tmp always names a task that went to sleep earlier. */
  ghost function Chain(s: Sys, t: nat): seq<nat>
    requires Inv(s)
    decreases if Asleep(s, t) then s.task[t].since + 1 else 0
  {
    if Asleep(s, t) then [t] + Chain(s, s.task[t].tmp) else []
  }

  /** Sleepers keep their chains whatever else happens, until they are woken. */
  lemma {:induction false} ChainStays(s: Sys, e: Event, t: nat)
    requires Inv(s) && Inv(Step(s, e)) && Asleep(Step(s, e), t) && Asleep(s, t)
    ensures Chain(Step(s, e), t) == Chain(s, t)
    decreases s.task[t].since
  {
    var s', u := Step(s, e), s.task[t].tmp;
    hide Refs;
    assert s'.task[t] == s.task[t];
    if Asleep(s, u) {
      if !Asleep(s', u) { TmpSleeps(s', t); }
      ChainStays(s, e, u);
    } else {
      assert u == 0;
    }
  }

  lemma TmpSleeps(s: Sys, t: nat)
    requires Inv(s) && t < |s.task| && s.task[t].inside && s.task[t].tmp != 0
    ensures Asleep(s, s.task[t].tmp)
  {}

  /** t sleeps in the chain of a task that has been woken and will wake the rest when it runs. */
  ghost predicate Covered(s: Sys, t: nat)
    requires Inv(s)
  {
    exists r: nat :: r < |s.task| && s.task[r].inside && !s.task[r].asleep && t in Chain(s, s.task[r].tmp)
  }

  /** t sleeps in the chain of a queue head. */
  ghost predicate Queued(s: Sys, t: nat)
    requires Inv(s)
  {
    exists q: nat :: q < |s.head| && t in Chain(s, s.head[q])
  }

  lemma {:induction false} ChainThrough(s: Sys, a: nat, r: nat, t: nat)
    requires Inv(s) && r in Chain(s, a) && Asleep(s, r) && s.task[r].tmp == t && Asleep(s, t)
    ensures t in Chain(s, a)
    decreases if Asleep(s, a) then s.task[a].since + 1 else 0
  {
    hide Refs;
    if Asleep(s, a) && a != r { ChainThrough(s, s.task[a].tmp, r, t); }
  }

  /** No sleeper is lost: it stands in the chain of a queue head or of a woken task that has not run yet. */
  lemma {:induction false} NoLostSleeper(s: Sys, t: nat)
    requires Inv(s) && Asleep(s, t)
    ensures Queued(s, t) || Covered(s, t)
    decreases s.clock - s.task[t].since
  {
    assert Refs(s, t) == 1;
    if Count(s.head, t) >= 1 {
      var q := CountWitness(s.head, t);
      assert t in Chain(s, s.head[q]);
    } else {
      var r := CountWitness(Tmps(s.task), t);
      assert t in Chain(s, s.task[r].tmp);
      if s.task[r].asleep {
        assert Asleep(s, r);
        NoLostSleeper(s, r);
        hide Inv, Refs;
        if Queued(s, r) {
          var q: nat :| q < |s.head| && r in Chain(s, s.head[q]);
          ChainThrough(s, s.head[q], r, t);
        } else {
          var w: nat :| w < |s.task| && s.task[w].inside && !s.task[w].asleep && r in Chain(s, s.task[w].tmp);
          ChainThrough(s, s.task[w].tmp, r, t);
        }
      }
    }
  }

  /** When every queue is empty and no woken task is still inside sleep_on, nobody sleeps. */
  lemma NobodyLeftBehind(s: Sys, t: nat)
    requires Inv(s) && (forall q | 0 <= q < |s.head| :: s.head[q] == 0)
    requires forall r | 0 <= r < |s.task| && s.task[r].inside :: s.task[r].asleep
    ensures !Asleep(s, t)
  {
    if Asleep(s, t) { NoLostSleeper(s, t); }
  }

  /** A step leaves every task as it was that it does not concern. */
  lemma RootStays(s: Sys, e: Event, r: nat)
    requires Inv(s) && r < |s.task| && s.task[r].inside && !s.task[r].asleep && e != Resume(r)
    ensures Step(s, e).task[r] == s.task[r] && |Step(s, e).task| == |s.task|
  {
    hide Refs;
  }

  lemma RootPasses(s: Sys, r: nat)
    requires Inv(s) && r < |s.task| && s.task[r].inside && !s.task[r].asleep && s.task[r].tmp != 0
    ensures
      var s', u := Step(s, Resume(r)), s.task[r].tmp;
      u < |s'.task| == |s.task| && s'.task[u] == s.task[u].(asleep := false) && s'.task[u].inside
  {
    hide Refs;
  }

  /** Once a task has been woken the sleepers in its chain stay covered until they are awake themselves. */
  lemma CoveredStays(s: Sys, e: Event, t: nat)
    requires Inv(s) && Covered(s, t) && Asleep(s, t) && Inv(Step(s, e)) && Asleep(Step(s, e), t)
    ensures Covered(Step(s, e), t)
  {
    var s' := Step(s, e);
    var r: nat :| r < |s.task| && s.task[r].inside && !s.task[r].asleep && t in Chain(s, s.task[r].tmp);
    var u := s.task[r].tmp;
    TmpSleeps(s, r);
    if e == Resume(r) {
      RootPasses(s, r);
      hide Inv, Step;
      assert t in Chain(s, s.task[u].tmp);
      TmpSleeps(s, u);
      TmpSleeps(s', u);
      ChainStays(s, e, s.task[u].tmp);
    } else {
      RootStays(s, e, r);
      hide Inv, Step;
      TmpSleeps(s', r);
      ChainStays(s, e, u);
    }
  }

  /** wake_up covers everybody who sleeps behind the queue head. */
  lemma WakeCovers(s: Sys, q: nat, t: nat)
    requires Inv(s) && q < |s.head| && t in Chain(s, s.head[q]) && Inv(Step(s, Wake(q))) && Asleep(Step(s, Wake(q)), t)
    ensures Covered(Step(s, Wake(q)), t)
  {
    var s', h := Step(s, Wake(q)), s.head[q];
    var u := s.task[h].tmp;
    assert t in Chain(s, u);
    assert Asleep(s', u) by { TmpSleeps(s', h); }
    ChainStays(s, Wake(q), u);
  }

  /** Task t never becomes runnable during the run es. */
  predicate SleepsOn(s: Sys, es: seq<Event>, t: nat)
  {
    Asleep(Run(s, es), t) && (es != [] ==> SleepsOn(s, es[..|es| - 1], t))
  }

  /** One wake_up is enough: as long as a task that slept behind the queue head then has not become
      runnable, some woken task still has to run; when all of those have run, the whole chain is runnable. */
  lemma {:induction false} OneWakeIsEnough(s: Sys, q: nat, es: seq<Event>, t: nat)
    requires Inv(s) && q < |s.head| && t in Chain(s, s.head[q]) && SleepsOn(Step(s, Wake(q)), es, t)
    ensures
      var s' := Run(Step(s, Wake(q)), es);
      Inv(s') && Covered(s', t) && exists r :: 0 <= r < |s'.task| && s'.task[r].inside && !s'.task[r].asleep
  {
    hide Chain, Step, Refs, Inv;
    var s1 := Step(s, Wake(q));
    StepKeeps(s, Wake(q));
    if es == [] {
      WakeCovers(s, q, t);
    } else {
      var es0 := es[..|es| - 1];
      OneWakeIsEnough(s, q, es0, t);
      StepKeeps(Run(s1, es0), es[|es| - 1]);
      assert Asleep(Run(s1, es0), t) by { assert SleepsOn(s1, es0, t); }
      CoveredStays(Run(s1, es0), es[|es| - 1], t);
    }
  }

  function Resumes(ts: seq<nat>): (es: seq<Event>)
    ensures |es| == |ts| && forall i | 0 <= i < |ts| :: es[i] == Resume(ts[i])
  {
    seq(|ts|, i requires 0 <= i < |ts| => Resume(ts[i]))
  }

  lemma {:induction false} RunFirst(s: Sys, e: Event, es: seq<Event>)
    ensures Run(s, [e] + es) == Run(Step(s, e), es)
  {
    hide Step;
    var all := [e] + es;
    if es == [] {
      assert all[..0] == [] && Run(s, []) == s;
    } else {
      assert all[..|all| - 1] == [e] + es[..|es| - 1];
      RunFirst(s, e, es[..|es| - 1]);
    }
  }

  predicate Out(s: Sys, t: nat) { t < |s.task| && !s.task[t].asleep && !s.task[t].inside }

  /** Resuming others does not put a task back to sleep. */
  lemma {:induction false} OutStays(s: Sys, ts: seq<nat>, t: nat)
    requires Out(s, t)
    ensures Out(Run(s, Resumes(ts)), t)
  {
    if ts != [] {
      OutStays(s, ts[..|ts| - 1], t);
      assert Resumes(ts)[..|ts| - 1] == Resumes(ts[..|ts| - 1]);
    }
  }

  lemma {:induction false} ResumeChain(s: Sys, r: nat, t: nat)
    requires Inv(s) && 0 < r < |s.task| && s.task[r].inside && !s.task[r].asleep
      && (t == r || t in Chain(s, s.task[r].tmp))
    ensures Out(Run(s, Resumes([r] + Chain(s, s.task[r].tmp))), t)
    decreases s.task[r].since
  {
    var u, rest := s.task[r].tmp, Chain(s, s.task[r].tmp);
    var s1 := Step(s, Resume(r));
    assert Resumes([r] + rest) == [Resume(r)] + Resumes(rest);
    RunFirst(s, Resume(r), Resumes(rest));
    if t == r {
      OutStays(s1, rest, r);
    } else {
      StepKeeps(s, Resume(r));
      RootPasses(s, r);
      TmpSleeps(s, r);
      ChainKept(s, r);
      assert rest == [u] + Chain(s, s.task[u].tmp);
      ResumeChain(s1, u, t);
    }
  }

  lemma ChainKept(s: Sys, r: nat)
    requires Inv(s) && r < |s.task| && s.task[r].inside && !s.task[r].asleep && s.task[r].tmp != 0
      && Inv(Step(s, Resume(r)))
    ensures
      var u := s.task[r].tmp;
      u < |s.task| && Chain(Step(s, Resume(r)), s.task[u].tmp) == Chain(s, s.task[u].tmp)
  {
    var u := s.task[r].tmp;
    RootPasses(s, r);
    TmpSleeps(s, r);
    hide Refs;
    if s.task[u].tmp != 0 {
      TmpSleeps(s, u);
      TmpSleeps(Step(s, Resume(r)), u);
      hide Step;
      ChainStays(s, Resume(r), s.task[u].tmp);
    }
  }

  /** One wake_up, and then running the woken tasks in turn, takes the whole chain out of sleep_on. */
  lemma WakeThenResumeAll(s: Sys, q: nat, t: nat)
    requires Inv(s) && q < |s.head| && t in Chain(s, s.head[q])
    ensures Out(Run(Step(s, Wake(q)), Resumes(Chain(s, s.head[q]))), t)
  {
    var s1, h := Step(s, Wake(q)), s.head[q];
    StepKeeps(s, Wake(q));
    var u := s.task[h].tmp;
    assert Chain(s1, u) == Chain(s, u) by {
      if u != 0 {
        TmpSleeps(s, h);
        TmpSleeps(s1, h);
        hide Step;
        ChainStays(s, Wake(q), u);
      }
    }
    ResumeChain(s1, h, t);
  }

  /** Nobody else falls asleep, wakes up or leaves sleep_on. */
  ghost predicate OnlySleeper(s: Sys, s': Sys, t: nat)
  {
    && |s'.task| == |s.task|
    && forall u: nat | u != t && u < |s.task| ::
      (Asleep(s', u) <==> Asleep(s, u)) && s'.task[u].inside == s.task[u].inside
  }

  /** A task that goes to sleep stands in front of those that slept on the queue before; other queues stay. */
  lemma SleepJoins(s: Sys, t: nat, q: nat)
    requires Inv(s) && 0 < t < |s.task| && q < |s.head| && !s.task[t].inside
    ensures
      var s' := Step(s, Sleep(t, q));
      && Inv(s') && Asleep(s', t) && OnlySleeper(s, s', t) && |s'.head| == |s.head|
      && Chain(s', s'.head[q]) == [t] + Chain(s, s.head[q])
      && forall p: nat | p < |s.head| && p != q :: Chain(s', s'.head[p]) == Chain(s, s.head[p])
  {
    var e := Sleep(t, q);
    var s' := Step(s, e);
    StepKeeps(s, e);
    HeadsSleep(s);
    hide Refs, Chain;
    forall p: nat | p < |s.head| ensures Chain(s', s.head[p]) == Chain(s, s.head[p]) {
      if s.head[p] == 0 { NoChain(s); NoChain(s'); } else { ChainStays(s, e, s.head[p]); }
    }
    ChainStarts(s', t);
  }

  lemma NoChain(s: Sys)
    requires Inv(s)
    ensures Chain(s, 0) == []
  {
    hide Refs;
  }

  lemma ChainStarts(s: Sys, t: nat)
    requires Inv(s) && Asleep(s, t)
    ensures Chain(s, t) == [t] + Chain(s, s.task[t].tmp)
  {
    hide Refs;
  }

  lemma HeadsSleep(s: Sys)
    requires Inv(s)
    ensures forall q: nat | q < |s.head| && s.head[q] != 0 :: Asleep(s, s.head[q])
  {
    forall q: nat | q < |s.head| && s.head[q] != 0 ensures Asleep(s, s.head[q]) { RefsAt(s, s.head[q]); }
  }

  /** wake_up wakes the task at the head of its queue and nobody else, and leaves that queue empty. */
  lemma WakeRouses(s: Sys, q: nat)
    requires Inv(s) && q < |s.head|
    ensures
      var s', h := Step(s, Wake(q)), s.head[q];
      && s'.head == s.head[q := 0] && !Asleep(s', h) && OnlySleeper(s, s', h)
      && (h != 0 ==> Asleep(s, h) && s'.task[h].inside)
  {
    HeadsSleep(s);
    hide Refs;
  }

  /** A woken task that runs leaves sleep_on and wakes the task its tmp names, and nobody else. */
  lemma ResumeRouses(s: Sys, t: nat)
    requires Inv(s) && 0 < t < |s.task| && s.task[t].inside && !s.task[t].asleep
    ensures
      var s', u := Step(s, Resume(t)), s.task[t].tmp;
      && s'.head == s.head && |s'.task| == |s.task| && Out(s', t) && !Asleep(s', u)
      && (u != 0 ==> Asleep(s, u) && s'.task[u].inside)
      && forall x: nat | x != u && x != t && x < |s.task| ::
        (Asleep(s', x) <==> Asleep(s, x)) && s'.task[x].inside == s.task[x].inside
  {
    if s.task[t].tmp != 0 { TmpSleeps(s, t); }
    hide Refs;
  }
}
