/** schedule, do_timer and sys_nice (kernel/sched.c:68-116, 170-180, 218-223) on the task array. */
module SchedulerCode {
  import opened Scheduler

  class Kernel {
    const task: array<Slot>
    var current: nat

    ghost predicate Ready()
      reads this, task
    {
      task.Length == 64 && Sound(task[..]) && Valid(Cpu(task[..], current))
    }

    ghost function State(): Cpu
      requires task.Length == 64
      reads this, task
    {
      Cpu(task[..], current)
    }

    constructor ()
      ensures fresh(task) && Ready() && State() == Boot()
    {
      task := new Slot[64](i => if i == 0 then Task(RUNNING, false, 15, 15) else Empty);
      current := 0;
      new;
      assert task[..] == Boot().task;
    }

    /** The loop over alarms and signals at the start of schedule. */
    method WakeSignalled(alarms: set<nat>)
      requires task.Length == 64
      modifies task
      ensures task[..] == WakePass(old(task[..]), alarms)
    {
      var p := 63;
      while p > 0
        invariant 0 <= p <= 63
        invariant forall i | 0 <= i < 64 ::
          task[i] == if i > p then Signalled(old(task[i]), i in alarms) else old(task[i])
      {
        if task[p].Task? {
          if p in alarms {
            task[p] := task[p].(signal := true);
          }
          if task[p].signal && task[p].state.INTERRUPTIBLE? {
            task[p] := task[p].(state := RUNNING);
          }
        }
        p := p - 1;
      }
    }

    /** The scan for the runnable task with the largest counter. */
    method FindNext() returns (c: int, next: nat)
      requires task.Length == 64
      ensures (c, next) == Scan(task[..], 64, -1, 0)
    {
      c, next := -1, 0;
      var i := 64;
      while true
        invariant 1 <= i <= 64
        invariant Scan(task[..], i, c, next) == Scan(task[..], 64, -1, 0)
        decreases i
      {
        i := i - 1;
        if i == 0 { return; }
        if task[i].Empty? { continue; }
        if task[i].state.RUNNING? && task[i].counter > c {
          c, next := task[i].counter, i;
        }
      }
    }

    method RecomputeCounters()
      requires task.Length == 64
      modifies task
      ensures task[..] == Recompute(old(task[..]))
    {
      var p := 63;
      while p > 0
        invariant 0 <= p <= 63
        invariant forall i | 0 <= i < 64 :: task[i] == if i > p then Recompute(old(task[..]))[i] else old(task[i])
      {
        if task[p].Task? {
          task[p] := task[p].(counter := task[p].counter / 2 + task[p].priority);
        }
        p := p - 1;
      }
    }

    /** schedule: the loop runs at most twice. */
    method Schedule(alarms: set<nat>)
      requires task.Length == 64 && Sound(task[..])
      modifies this, task
      ensures State() == Scheduler.Schedule(old(State()), alarms) && Sound(task[..]) && current < 64
    {
      WakeSignalled(alarms);
      ghost var t: Tasks := task[..];
      assert Sound(t);
      ChoosePicks(t);
      ghost var turns := 0;
      hide Scan, Recompute;
      var next;
      while true
        invariant turns <= 1 && Sound(task[..])
        invariant task[..] == if turns == 0 then t else Recompute(t)
        invariant turns == 1 ==> Scan(t, 64, -1, 0).0 == 0
        decreases 1 - turns
      {
        var c;
        c, next := FindNext();
        if c != 0 { break; }
        if turns == 1 { RecomputeOnce(t); }
        RecomputeOnce(task[..]);
        RecomputeCounters();
        turns := turns + 1;
      }
      current := next;
    }

    /** do_timer; cpl tells whether the tick found the task in user mode. */
    method DoTimer(cpl: bool, alarms: set<nat>)
      requires Ready()
      modifies this, task
      ensures State() == Step(old(State()), if cpl then UserTick(alarms) else KernelTick)
    {
      ghost var s := State();
      hide Scheduler.Schedule;
      task[current] := task[current].(counter := task[current].counter - 1);
      if task[current].counter > 0 {
        assert task[..] == Tick(s).task;
        return;
      }
      task[current] := task[current].(counter := 0);
      assert task[..] == Tick(s).task;
      if !cpl { return; }
      Schedule(alarms);
    }

    /** sys_nice. */
    method Nice(increment: int)
      requires Ready()
      modifies task
      ensures State() == Step(old(State()), Event.Nice(increment))
    {
      if task[current].priority - increment > 0 {
        task[current] := task[current].(priority := task[current].priority - increment);
      }
    }
  }
}
