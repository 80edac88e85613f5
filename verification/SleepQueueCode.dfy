/** sleep_on and wake_up (kernel/sched.c:125-139, 162-168) on the tasks and queue heads.  sleep_on is cut
    at its call of schedule, where other tasks run; tmp is kept for each task in its kernel stack. */
module SleepQueueCode {
  import opened SleepQueue

  class Kernel {
    const head: array<nat>
    const task: array<Task>
    var clock: nat

    ghost function State(): Sys
      reads this, head, task
    {
      Sys(head[..], task[..], clock)
    }

    constructor (queues: nat, tasks: nat)
      requires tasks > 0
      ensures fresh(head) && fresh(task) && State() == Start(queues, tasks)
    {
      head := new nat[queues](q => 0);
      task := new Task[tasks](t => Task(false, false, 0, 0));
      clock := 0;
      new;
      assert head[..] == Start(queues, tasks).head && task[..] == Start(queues, tasks).task;
    }

    /** sleep_on as far as its call of schedule. */
    method SleepOn(current: nat, p: nat)
      requires p < head.Length && 0 < current < task.Length && !task[current].asleep && !task[current].inside
      requires head as object != task as object
      modifies this, head, task
      ensures State() == Step(old(State()), Sleep(current, p))
    {
      var tmp := head[p];
      head[p] := current;
      task[current] := Task(true, true, tmp, clock);
      clock := clock + 1;
    }

    /** The rest of sleep_on, once the task runs again. */
    method SleepOnReturns(current: nat)
      requires 0 < current < task.Length && task[current].inside && !task[current].asleep
      requires task[current].tmp < task.Length
      modifies task
      ensures State() == Step(old(State()), Resume(current))
    {
      var tmp := task[current].tmp;
      task[current] := task[current].(inside := false, tmp := 0);
      if tmp != 0 {
        task[tmp] := task[tmp].(asleep := false);
      }
    }

    /** wake_up. */
    method WakeUp(p: nat)
      requires p < head.Length && head[p] < task.Length && head as object != task as object
      modifies head, task
      ensures State() == Step(old(State()), Wake(p))
    {
      if head[p] != 0 {
        task[head[p]] := task[head[p]].(asleep := false);
        head[p] := 0;
      }
    }
  }
}
