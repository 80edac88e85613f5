/** How each operation on the memory of a task ends, told from the page tables and the free frames before it
    (mm/memory.c:208-259, kernel/fork.c, kernel/exit.c). */
module PagingOutcome {
  import opened Paging
  import opened PagingSteps
  import opened PagingLoops
  import opened PagingRun
  import opened PagingDirectory
  import PagingUnverified

  /** With free frames left an access to (d, i) finds its page, or gets one, and a page table if there is none. */
  ghost predicate FaultServed(m: Mem, d: nat, i: nat, free: int)
    requires Shape(m) && d < SIZE
  {
    Mapped(m, d, i) || free >= if Dir(m, d) then 1 else 2
  }

  /** A store also needs a frame where the page is read-only and not private. */
  ghost predicate WriteServed(m: Mem, d: nat, i: nat)
    requires Shape(m) && d < SIZE
  {
    && FaultServed(m, d, i, Free(m))
    && (Mapped(m, d, i) && !Pte(m, d, i).rw && !Private(m, Pte(m, d, i).frame) ==> Free(m) >= 1)
  }

  /** verify_area needs a frame for each page it replaces, the page fault behind it those that are left. */
  ghost predicate DeliverServed(m: Mem, page: nat, n: nat, to: nat)
    requires Shape(m) && to < SIZE * SIZE
  {
    var left := Free(m) - Needed(m, page, n, []);
    left >= 0 && FaultServed(m, to / SIZE, to % SIZE, left)
  }

  /** How an operation ends: a task without memory is killed, a call that cannot be is refused. */
  ghost function Foreseen(s: Sys, op: Op): Outcome
    requires Shape(s.m) && |s.task| == NR_TASKS
  {
    if op.Reap? then
      if 1 <= op.p < NR_TASKS && s.task[op.p].Zombie? then Done else Refused
    else if !LiveTask(s, op.p) then Refused
    else
      match op
      case Fork(p) =>
        if (exists nr :: 1 <= nr < NR_TASKS && s.task[nr].Vacant?) && Free(s.m) >= 1 + Tables(s.m, WINDOW * p, WINDOW)
        then Done else Refused
      case Exit(_) => Done
      case Exec(_) => Done
      case Reap(_) => Done
      case Touch(p, rel, i) =>
        if rel >= WINDOW || i >= SIZE then Refused
        else if FaultServed(s.m, WINDOW * p + rel, i, Free(s.m)) then Done else Killed
      case Write(p, rel, i, off, _) =>
        if rel >= WINDOW || i >= SIZE || off >= SIZE then Refused
        else if WriteServed(s.m, WINDOW * p + rel, i) then Done else Killed
      case Deliver(p, page, n, to, off, _) =>
        if !(page <= to < page + n <= WINDOW * SIZE && off < SIZE) then Refused
        else if DeliverServed(s.m, WINDOW * p * SIZE + page, n, WINDOW * p * SIZE + to) then Done else Killed
  }

  lemma TouchEnds(s: Sys, p: nat, rel: nat, i: nat)
    requires SysInv(s) && LiveTask(s, p) && rel < WINDOW && i < SIZE
    ensures var d := WINDOW * p + rel;
            DoTouch(s, p, d, i).1 == if FaultServed(s.m, d, i, Free(s.m)) then Done else Killed
  {
    hide Refs; hide Exact; hide At; hide NoPage; hide DoExit; hide Shape; hide Free;
    SysShape(s);
    if !Mapped(s.m, WINDOW * p + rel, i) { NoPageStep(s.m, Held(s), WINDOW * p + rel, i); }
  }

  /** A kernel store without verify_area, which ignores the write bit, needs no more than the page fault does. */
  lemma PutEnds(s: Sys, p: nat, rel: nat, i: nat, off: nat, w: Word)
    requires SysInv(s) && LiveTask(s, p) && rel < WINDOW && i < SIZE && off < SIZE
    ensures Shape(s.m)
    ensures var d := WINDOW * p + rel;
            PagingUnverified.DoPut(s, p, d, i, off, w).1 == if FaultServed(s.m, d, i, Free(s.m)) then Done else Killed
  {
    SysShape(s);
    TouchEnds(s, p, rel, i);
    hide SysInv; hide Shape; hide DoTouch; hide FaultServed; hide Free; hide Mapped; hide Pte;
  }

  lemma WriteEnds(s: Sys, p: nat, rel: nat, i: nat, off: nat, w: Word)
    requires SysInv(s) && LiveTask(s, p) && rel < WINDOW && i < SIZE && off < SIZE
    ensures var d := WINDOW * p + rel;
            DoWrite(s, p, d, i, off, w).1 == if WriteServed(s.m, d, i) then Done else Killed
  {
    hide Refs; hide Exact; hide At; hide Inv; hide Shape; hide DoTouch; hide UnWp; hide Store; hide DoExit; hide View;
    hide EagerStep; hide Refines; hide Free;
    SysShape(s);
    var d := WINDOW * p + rel;
    ObservedRefines(s);
    TouchStep(s, p, rel, i, Observed(s));
    TouchEnds(s, p, rel, i);
    var (s1, out) := DoTouch(s, p, d, i);
    SysShape(s1);
    if out == Done && !Pte(s1.m, d, i).rw {
      UnWpStep(s1.m, Held(s1), d, i);
      UnWpOk(s1.m, Held(s1), d, i);
    }
  }

  lemma DeliverEnds(s: Sys, p: nat, page: nat, n: nat, to: nat, off: nat, w: Word)
    requires SysInv(s) && LiveTask(s, p) && page <= to < page + n <= WINDOW * SIZE && off < SIZE
    ensures var first, at := WINDOW * p * SIZE + page, WINDOW * p * SIZE + to;
            DoDeliver(s, p, first, n, at, off, w).1 == if DeliverServed(s.m, first, n, at) then Done else Killed
  {
    hide Refs; hide Exact; hide At; hide Inv; hide Shape; hide DoTouch; hide VerifyArea; hide Store; hide DoExit;
    hide Shows; hide Own; hide Owned; hide Refines; hide SysInv; hide ShowsOutside; hide Look; hide View;
    hide EagerStep; hide Free; hide FaultServed;
    SysShape(s);
    var f := Observed(s);
    ObservedRefines(s);
    var first, at := WINDOW * p * SIZE + page, WINDOW * p * SIZE + to;
    var d, i := at / SIZE, at % SIZE;
    assert d == WINDOW * p + to / SIZE;
    VerifyRefines(s, p, first, n, f);
    VerifyLeaves(s, first, n, d, i);
    var (m1, ok) := VerifyArea(s.m, first, n);
    if ok {
      var s1 := s.(m := m1);
      SysShape(s1);
      TouchStep(s1, p, to / SIZE, i, f.(pages := Owned(f.pages, first, n, s.m.ram[0])));
      TouchEnds(s1, p, to / SIZE, i);
    }
  }

  lemma VerifyLeaves(s: Sys, first: nat, n: nat, d: nat, i: nat)
    requires SysInv(s) && 16 * SIZE <= first && first + n <= SIZE * SIZE && 16 <= d < SIZE && i < SIZE
    ensures var (m1, ok) := VerifyArea(s.m, first, n);
            var left := Free(s.m) - Needed(s.m, first, n, []);
            && Shape(m1) && (ok <==> left >= 0)
            && (ok ==> FaultServed(m1, d, i, Free(m1)) == FaultServed(s.m, d, i, left))
  {
    SysIsInv(s);
    hide VerifyArea; hide SysInv; hide Free; hide Inv; hide Shape;
    NothingGone(s.m, first);
    VerifyAreaOk(s.m, s.m, Held(s), first, n, []);
    VerifyAreaUnshares(s.m, Held(s), first, n);
    SameDirectory(s.m, VerifyArea(s.m, first, n).0);
  }

  lemma ForkEnds(s: Sys, p: nat)
    requires SysInv(s) && LiveTask(s, p)
    ensures DoFork(s, p).1 == Foreseen(s, Fork(p))
  {
    SysShape(s);
    hide SysInv; hide Shape; hide Tables; hide Free; hide DoFork; hide FirstVacant; hide LiveTask;
    ForkDirectory(s, p);
    VacantSlot(s.task);
    ForkOutcome(s, p);
  }

  lemma VacantSlot(task: seq<Slot>)
    requires |task| == NR_TASKS
    ensures FirstVacant(task, 1) < NR_TASKS <==> exists nr :: 1 <= nr < NR_TASKS && task[nr].Vacant?
  {
    hide FirstVacant;
    var nr := FirstVacant(task, 1);
    if nr < NR_TASKS { assert task[nr].Vacant?; }
  }

  lemma ForkOutcome(s: Sys, p: nat)
    requires Shape(s.m) && LiveTask(s, p)
    ensures DoFork(s, p).1 != Killed
  {
    hide CopyTables; hide FreeTables;
  }

  /** Every operation ends as foreseen: an access is served exactly when there are frames for what it needs, a
      fork exactly when there is a vacant slot and a frame for the task structure and each page table, and a
      wait exactly when the child is a zombie. */
  lemma OutcomeForeseen(s: Sys, op: Op)
    requires SysInv(s)
    ensures Shape(s.m) && |s.task| == NR_TASKS && Step(s, op).1 == Foreseen(s, op)
  {
    SysShape(s);
    hide Step; hide SysInv; hide Shape; hide LiveTask; hide Foreseen;
    if !LiveTask(s, op.p) && !op.Reap? {
      StepOfNobody(s, op);
      NobodyForeseen(s, op);
    } else {
      match op
      case Fork(p) => StepFork(s, p); ForkEnds(s, p);
      case Exit(p) => PlainEnds(s, op);
      case Exec(p) => PlainEnds(s, op);
      case Reap(p) => PlainEnds(s, op);
      case Touch(p, rel, i) => TouchForeseen(s, p, rel, i);
      case Write(p, rel, i, off, w) => WriteForeseen(s, p, rel, i, off, w);
      case Deliver(p, page, n, to, off, w) => DeliverForeseen(s, p, page, n, to, off, w);
    }
  }

  lemma NobodyForeseen(s: Sys, op: Op)
    requires Shape(s.m) && |s.task| == NR_TASKS && !LiveTask(s, op.p) && !op.Reap?
    ensures Foreseen(s, op) == Refused
  {
    hide Shape; hide LiveTask;
  }

  lemma PlainEnds(s: Sys, op: Op)
    requires Shape(s.m) && |s.task| == NR_TASKS && (op.Reap? || ((op.Exit? || op.Exec?) && LiveTask(s, op.p)))
    ensures Step(s, op).1 == Foreseen(s, op)
  {
    hide Shape; hide DoExit; hide DoExec;
  }

  lemma TouchForeseen(s: Sys, p: nat, rel: nat, i: nat)
    requires SysInv(s) && LiveTask(s, p) && Shape(s.m) && |s.task| == NR_TASKS
    ensures Step(s, Touch(p, rel, i)).1 == Foreseen(s, Touch(p, rel, i))
  {
    hide Step; hide SysInv; hide Shape; hide DoTouch; hide FaultServed; hide LiveTask; hide Free;
    StepTouch(s, p, rel, i);
    if rel < WINDOW && i < SIZE { TouchEnds(s, p, rel, i); }
  }

  lemma WriteForeseen(s: Sys, p: nat, rel: nat, i: nat, off: nat, w: Word)
    requires SysInv(s) && LiveTask(s, p) && Shape(s.m) && |s.task| == NR_TASKS
    ensures Step(s, Write(p, rel, i, off, w)).1 == Foreseen(s, Write(p, rel, i, off, w))
  {
    hide Step; hide SysInv; hide Shape; hide DoWrite; hide WriteServed; hide LiveTask; hide Free;
    StepWrite(s, p, rel, i, off, w);
    if rel < WINDOW && i < SIZE && off < SIZE { WriteEnds(s, p, rel, i, off, w); }
  }

  lemma DeliverForeseen(s: Sys, p: nat, page: nat, n: nat, to: nat, off: nat, w: Word)
    requires SysInv(s) && LiveTask(s, p) && Shape(s.m) && |s.task| == NR_TASKS
    ensures Step(s, Deliver(p, page, n, to, off, w)).1 == Foreseen(s, Deliver(p, page, n, to, off, w))
  {
    hide Step; hide SysInv; hide Shape; hide DoDeliver; hide DeliverServed; hide LiveTask; hide Free;
    StepDeliver(s, p, page, n, to, off, w);
    if page <= to < page + n <= WINDOW * SIZE && off < SIZE { DeliverEnds(s, p, page, n, to, off, w); }
  }
}
