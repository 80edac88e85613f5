/** The page directory is frame 0, which the first fork maps read-only into task 1.  What a program reads
    there changes with every page table that is hung in or taken out: exactly when that is. */
module PagingDirectory {
  import opened Paging
  import opened PagingSteps
  import opened PagingLoops
  import opened PagingRun

  ghost predicate HasTable(m: Mem, p: nat)
    requires Shape(m) && p < NR_TASKS
  {
    exists d :: WINDOW * p <= d < WINDOW * p + WINDOW && Dir(m, d)
  }

  /** A page fault at (d, i) with free frames left hangs a table in, or ends the task, which takes its tables out. */
  ghost predicate FaultMoves(m: Mem, p: nat, d: nat, i: nat, free: int)
    requires Shape(m) && p < NR_TASKS && d < SIZE
  {
    !Mapped(m, d, i) && if Dir(m, d) then free == 0 else free >= 2 || HasTable(m, p)
  }

  /** The operation hangs a page table into the directory or takes one out: seen from the state before it. */
  ghost predicate MovesTable(s: Sys, op: Op)
    requires Shape(s.m) && op.p < NR_TASKS
  {
    LiveTask(s, op.p) &&
    match op
    case Fork(p) =>
      FirstVacant(s.task, 1) < NR_TASKS && Free(s.m) >= 1 + Tables(s.m, WINDOW * p, WINDOW) && HasTable(s.m, p)
    case Exit(p) => HasTable(s.m, p)
    case Exec(p) => HasTable(s.m, p)
    case Reap(p) => false
    case Touch(p, rel, i) => rel < WINDOW && i < SIZE && FaultMoves(s.m, p, WINDOW * p + rel, i, Free(s.m))
    case Write(p, rel, i, off, w) => rel < WINDOW && i < SIZE && off < SIZE && WriteMoves(s.m, p, WINDOW * p + rel, i)
    case Deliver(p, page, n, to, off, w) =>
      page <= to < page + n <= WINDOW * SIZE && off < SIZE
          && DeliverMoves(s.m, p, WINDOW * p * SIZE + page, n, WINDOW * p * SIZE + to)
  }

  /** A store whose page fault does, or whose write fault finds a shared page and no frame. */
  ghost predicate WriteMoves(m: Mem, p: nat, d: nat, i: nat)
    requires Shape(m) && p < NR_TASKS && d < SIZE
  {
    FaultMoves(m, p, d, i, Free(m))
        || (Mapped(m, d, i) && !Pte(m, d, i).rw && !Private(m, Pte(m, d, i).frame) && Free(m) == 0)
  }

  /** A system call whose verify_area runs out of frames, or whose store then faults and does. */
  ghost predicate DeliverMoves(m: Mem, p: nat, page: nat, n: nat, to: nat)
    requires Shape(m) && p < NR_TASKS && to < SIZE * SIZE
  {
    if Free(m) < Needed(m, page, n, []) then HasTable(m, p)
    else FaultMoves(m, p, to / SIZE, to % SIZE, Free(m) - Needed(m, page, n, []))
  }

  lemma SameHasTable(m: Mem, m': Mem, p: nat)
    requires Shape(m) && Shape(m') && p < NR_TASKS && m'.ram[0] == m.ram[0]
    ensures HasTable(m', p) == HasTable(m, p)
  {
    SameDirectory(m, m');
    if d: nat :| WINDOW * p <= d < WINDOW * p + WINDOW && Dir(m, d) { assert Dir(m', d); }
  }

  lemma ExitDirectory(s: Sys, p: nat)
    requires SysInv(s) && LiveTask(s, p)
    ensures DoExit(s, p).m.ram[0] != s.m.ram[0] <==> HasTable(s.m, p)
  {
    hide Refs; hide Exact; hide At; hide FreeTables;
    FreeTablesLoop(s.m, Held(s), WINDOW * p, WINDOW);
    if HasTable(s.m, p) {
      var d :| WINDOW * p <= d < WINDOW * p + WINDOW && Dir(s.m, d);
      assert !Dir(DoExit(s, p).m, d);
    } else {
      NothingThere(s.m, WINDOW * p, WINDOW * p, WINDOW);
    }
  }

  lemma TouchDirectory(s: Sys, p: nat, rel: nat, i: nat)
    requires SysInv(s) && LiveTask(s, p) && rel < WINDOW && i < SIZE
    ensures DoTouch(s, p, WINDOW * p + rel, i).0.m.ram[0] != s.m.ram[0]
      <==> FaultMoves(s.m, p, WINDOW * p + rel, i, Free(s.m))
  {
    hide Refs; hide Exact; hide At; hide NoPage; hide DoExit; hide Shape; hide View; hide Free;
    SysShape(s);
    var d := WINDOW * p + rel;
    if !Mapped(s.m, d, i) {
      NoPageStep(s.m, Held(s), d, i);
      var (m1, ok, lost) := NoPage(s.m, d, i);
      if ok {
        if Dir(s.m, d) { NoPageInTable(s.m, d, i); }
      } else {
        ObservedRefines(s);
        PageLost(s, m1, lost, Observed(s));
        SameHasTable(s.m, m1, p);
        ExitDirectory(s.(m := m1, lost := Hold(s.lost, lost, 1)), p);
      }
    }
  }

  lemma NoPageInTable(m: Mem, d: nat, i: nat)
    requires Shape(m) && d < SIZE && i < SIZE && Dir(m, d)
    ensures NoPage(m, d, i).0.ram[0] == m.ram[0]
  {}

  lemma WriteDirectory(s: Sys, p: nat, rel: nat, i: nat, off: nat, w: Word)
    requires SysInv(s) && LiveTask(s, p) && rel < WINDOW && i < SIZE && off < SIZE
    ensures DoWrite(s, p, WINDOW * p + rel, i, off, w).0.m.ram[0] != s.m.ram[0]
      <==> WriteMoves(s.m, p, WINDOW * p + rel, i)
  {
    hide Refs; hide Exact; hide At; hide Inv; hide Shape; hide DoTouch; hide UnWp; hide Store; hide DoExit; hide View;
    hide EagerStep; hide Refines; hide Free; hide FaultMoves; hide HasTable;
    SysShape(s);
    var d := WINDOW * p + rel;
    ObservedRefines(s);
    TouchStep(s, p, rel, i, Observed(s));
    TouchDirectory(s, p, rel, i);
    if Mapped(s.m, d, i) { MappedFaultless(s.m, p, d, i, Free(s.m)); }
    var (s1, out) := DoTouch(s, p, d, i);
    SysShape(s1);
    if out == Done {
      if Pte(s1.m, d, i).rw {
        StoreStep(s1.m, Held(s1), d, i, off, w);
      } else {
        UnWpStep(s1.m, Held(s1), d, i);
        UnWpOk(s1.m, Held(s1), d, i);
        var (m2, ok) := UnWp(s1.m, T(s1.m, d), i);
        if ok {
          StoreStep(m2, Held(s1), d, i, off, w);
        } else {
          ExitDirectory(s1, p);
        }
      }
    }
  }

  lemma MappedFaultless(m: Mem, p: nat, d: nat, i: nat, free: int)
    requires Shape(m) && p < NR_TASKS && d < SIZE && Mapped(m, d, i)
    ensures !FaultMoves(m, p, d, i, free)
    ensures WINDOW * p <= d < WINDOW * p + WINDOW ==> HasTable(m, p)
  {}

  lemma DeliverDirectory(s: Sys, p: nat, page: nat, n: nat, to: nat, off: nat, w: Word)
    requires SysInv(s) && LiveTask(s, p) && page <= to < page + n <= WINDOW * SIZE && off < SIZE
    ensures DoDeliver(s, p, WINDOW * p * SIZE + page, n, WINDOW * p * SIZE + to, off, w).0.m.ram[0] != s.m.ram[0]
       <==> DeliverMoves(s.m, p, WINDOW * p * SIZE + page, n, WINDOW * p * SIZE + to)
  {
    hide Refs; hide Exact; hide At; hide Inv; hide Shape; hide DoTouch; hide VerifyArea; hide Store; hide DoExit;
    hide Shows; hide Own;
    hide Owned; hide Refines; hide SysInv; hide ShowsOutside; hide Look; hide View; hide EagerStep; hide Free;
    hide FaultMoves; hide HasTable;
    SysShape(s);
    var f := Observed(s);
    ObservedRefines(s);
    var first, at := WINDOW * p * SIZE + page, WINDOW * p * SIZE + to;
    var d, i := at / SIZE, at % SIZE;
    assert d == WINDOW * p + to / SIZE;
    VerifyRefines(s, p, first, n, f);
    VerifyFaults(s, p, first, n, d, i);
    var (m1, ok) := VerifyArea(s.m, first, n);
    var s1 := s.(m := m1);
    SysShape(s1);
    if !ok {
      ExitDirectory(s1, p);
    } else {
      TouchStep(s1, p, to / SIZE, i, f.(pages := Owned(f.pages, first, n, s.m.ram[0])));
      TouchDirectory(s1, p, to / SIZE, i);
      var (s2, out) := DoTouch(s1, p, d, i);
      SysShape(s2);
      SysIsInv(s2);
      if out == Done { StoreStep(s2.m, Held(s2), d, i, off, w); }
    }
  }

  /** What verify_area leaves for the page fault behind it. */
  lemma VerifyFaults(s: Sys, p: nat, first: nat, n: nat, d: nat, i: nat)
    requires SysInv(s) && LiveTask(s, p) && 16 * SIZE <= first && first + n <= SIZE * SIZE && 16 <= d < SIZE && i < SIZE
    ensures var (m1, ok) := VerifyArea(s.m, first, n);
            var need := Needed(s.m, first, n, []);
            && Shape(m1) && HasTable(m1, p) == HasTable(s.m, p)
            && (ok <==> Free(s.m) >= need)
            && (ok ==> FaultMoves(m1, p, d, i, Free(m1)) == FaultMoves(s.m, p, d, i, Free(s.m) - need))
  {
    SysIsInv(s);
    hide VerifyArea; hide SysInv; hide HasTable; hide Free; hide Inv; hide Shape;
    NothingGone(s.m, first);
    VerifyAreaOk(s.m, s.m, Held(s), first, n, []);
    VerifyAreaUnshares(s.m, Held(s), first, n);
    var m1 := VerifyArea(s.m, first, n).0;
    SameDirectory(s.m, m1);
    SameHasTable(s.m, m1, p);
  }

  lemma NothingGone(m: Mem, page: nat)
    requires Shape(m)
    ensures Follows(m, m, page, [])
  {}

  lemma SysIsInv(s: Sys)
    requires SysInv(s)
    ensures |s.lost| == PAGES && Inv(s.m, Held(s))
  {}

  lemma ForkDirectory(s: Sys, p: nat)
    requires SysInv(s) && LiveTask(s, p)
    ensures var (s', out) := DoFork(s, p);
            && (out == Done <==> FirstVacant(s.task, 1) < NR_TASKS && Free(s.m) >= 1 + Tables(s.m, WINDOW * p, WINDOW))
            && (s'.m.ram[0] != s.m.ram[0] <==> out == Done && HasTable(s.m, p))
  {
    hide Refs; hide Exact; hide At; hide TablesUnshared; hide HeldAlone; hide GoodEntry; hide CopyTables;
    hide FreeTables; hide Free; hide Row; hide HasTable; hide Tidy; hide View;
    var nr := FirstVacant(s.task, 1);
    if nr < NR_TASKS {
      GetFreePageStep(s.m, Held(s));
      FreeIsCounted(s.m);
      var (m1, page) := GetFreePage(s.m);
      if page != 0 {
        SameDirectory(s.m, m1);
        SameTables(s.m, m1, WINDOW * p, WINDOW);
        SameHasTable(s.m, m1, p);
        CopyTablesFree(m1, Hold(Held(s), page, 1), WINDOW * p, WINDOW * nr, WINDOW);
        CopyDirectory(m1, Hold(Held(s), page, 1), p, nr);
        ObservedRefines(s);
        ForkStep(s, p, Observed(s));
      }
    }
  }

  lemma CopyDirectory(m: Mem, held: seq<nat>, p: nat, nr: nat)
    requires Inv(m, held) && 1 <= p < NR_TASKS && 1 <= nr < NR_TASKS && p != nr
    requires forall d | WINDOW * nr <= d < WINDOW * nr + WINDOW :: !Dir(m, d)
    ensures var (m', ok) := CopyTables(m, WINDOW * p, WINDOW * nr, WINDOW, SIZE);
            ok ==> (m'.ram[0] != m.ram[0] <==> HasTable(m, p))
  {
    hide Refs; hide Exact; hide At; hide TablesUnshared; hide HeldAlone; hide GoodEntry; hide CopyTables; hide Row;
    var (m', ok) := CopyTables(m, WINDOW * p, WINDOW * nr, WINDOW, SIZE);
    CopyTablesLoop(m, held, WINDOW * p, WINDOW * nr, WINDOW);
    if HasTable(m, p) {
      var d :| WINDOW * p <= d < WINDOW * p + WINDOW && Dir(m, d);
      assert !Dir(m, d - WINDOW * p + WINDOW * nr);
      assert ok ==> Dir(m', d - WINDOW * p + WINDOW * nr);
    } else {
      NothingThere(m, WINDOW * p, WINDOW * nr, WINDOW);
    }
  }

  /** The page directory changes exactly with the operations that hang in a page table or take one out. */
  lemma DirectoryMovesIff(s: Sys, op: Op)
    requires SysInv(s) && op.p < NR_TASKS
    ensures Step(s, op).0.m.ram[0] != s.m.ram[0] <==> MovesTable(s, op)
  {
    SysShape(s);
    hide Step; hide SysInv; hide Shape; hide LiveTask; hide MovesTable;
    if !LiveTask(s, op.p) {
      DeadMoves(s, op);
    } else {
      match op
      case Fork(p) => ForkMoves(s, p);
      case Exit(p) => ExitMoves(s, p);
      case Exec(p) => ExitMoves(s, p);
      case Reap(p) => ReapMoves(s, p);
      case Touch(p, rel, i) => TouchMoves(s, p, rel, i);
      case Write(p, rel, i, off, w) => StoreMoves(s, p, rel, i, off, w);
      case Deliver(p, page, n, to, off, w) => CallMoves(s, p, page, n, to, off, w);
    }
  }

  lemma ForkMoves(s: Sys, p: nat)
    requires SysInv(s) && LiveTask(s, p)
    ensures Step(s, Fork(p)).0.m.ram[0] != s.m.ram[0] <==> MovesTable(s, Fork(p))
  {
    SysShape(s);
    hide Step; hide SysInv; hide Shape; hide HasTable; hide Free; hide Tables; hide FirstVacant; hide DoFork;
    StepFork(s, p);
    ForkDirectory(s, p);
  }

  lemma ExitMoves(s: Sys, p: nat)
    requires SysInv(s) && LiveTask(s, p)
    ensures Step(s, Exit(p)).0.m.ram[0] != s.m.ram[0] <==> MovesTable(s, Exit(p))
    ensures Step(s, Exec(p)).0.m.ram[0] != s.m.ram[0] <==> MovesTable(s, Exec(p))
  {
    SysShape(s);
    hide Step; hide SysInv; hide Shape; hide HasTable; hide DoExit;
    StepExit(s, p);
    ExitDirectory(s, p);
  }

  lemma TouchMoves(s: Sys, p: nat, rel: nat, i: nat)
    requires SysInv(s) && LiveTask(s, p)
    ensures Step(s, Touch(p, rel, i)).0.m.ram[0] != s.m.ram[0] <==> MovesTable(s, Touch(p, rel, i))
  {
    SysShape(s);
    hide Step; hide SysInv; hide Shape; hide FaultMoves; hide Free; hide DoTouch; hide MovesTable; hide LiveTask;
    StepTouch(s, p, rel, i);
    MovesTouch(s, p, rel, i);
    if rel < WINDOW && i < SIZE { TouchDirectory(s, p, rel, i); }
  }

  lemma MovesTouch(s: Sys, p: nat, rel: nat, i: nat)
    requires Shape(s.m) && LiveTask(s, p)
    ensures MovesTable(s, Touch(p, rel, i))
      <==> rel < WINDOW && i < SIZE && FaultMoves(s.m, p, WINDOW * p + rel, i, Free(s.m))
  {
    hide Shape; hide FaultMoves; hide Free;
  }

  lemma StoreMoves(s: Sys, p: nat, rel: nat, i: nat, off: nat, w: Word)
    requires SysInv(s) && LiveTask(s, p)
    ensures Step(s, Write(p, rel, i, off, w)).0.m.ram[0] != s.m.ram[0] <==> MovesTable(s, Write(p, rel, i, off, w))
  {
    SysShape(s);
    hide Step; hide SysInv; hide Shape; hide WriteMoves; hide DoWrite; hide MovesTable; hide LiveTask;
    StepWrite(s, p, rel, i, off, w);
    MovesWrite(s, p, rel, i, off, w);
    if rel < WINDOW && i < SIZE && off < SIZE { WriteDirectory(s, p, rel, i, off, w); }
  }

  lemma MovesWrite(s: Sys, p: nat, rel: nat, i: nat, off: nat, w: Word)
    requires Shape(s.m) && LiveTask(s, p)
    ensures MovesTable(s, Write(p, rel, i, off, w))
       <==> rel < WINDOW && i < SIZE && off < SIZE && WriteMoves(s.m, p, WINDOW * p + rel, i)
  {
    hide Shape; hide WriteMoves;
  }

  lemma MovesDeliver(s: Sys, p: nat, page: nat, n: nat, to: nat, off: nat, w: Word)
    requires Shape(s.m) && LiveTask(s, p)
    ensures MovesTable(s, Deliver(p, page, n, to, off, w))
       <==> (page <= to < page + n <= WINDOW * SIZE && off < SIZE
             && DeliverMoves(s.m, p, WINDOW * p * SIZE + page, n, WINDOW * p * SIZE + to))
  {
    hide Shape; hide DeliverMoves;
  }

  lemma CallMoves(s: Sys, p: nat, page: nat, n: nat, to: nat, off: nat, w: Word)
    requires SysInv(s) && LiveTask(s, p)
    ensures Step(s, Deliver(p, page, n, to, off, w)).0.m.ram[0] != s.m.ram[0]
      <==> MovesTable(s, Deliver(p, page, n, to, off, w))
  {
    SysShape(s);
    hide Step; hide SysInv; hide Shape; hide DeliverMoves; hide DoDeliver; hide MovesTable; hide LiveTask;
    StepDeliver(s, p, page, n, to, off, w);
    MovesDeliver(s, p, page, n, to, off, w);
    if page <= to < page + n <= WINDOW * SIZE && off < SIZE { DeliverDirectory(s, p, page, n, to, off, w); }
  }

  lemma DeadMoves(s: Sys, op: Op)
    requires Shape(s.m) && op.p < NR_TASKS && !LiveTask(s, op.p)
    ensures Step(s, op).0.m.ram[0] == s.m.ram[0] && !MovesTable(s, op)
  {
    hide Step; hide Shape; hide LiveTask;
    if op.Reap? { ReapMoves(s, op.p); } else { StepOfNobody(s, op); }
  }

  lemma ReapMoves(s: Sys, p: nat)
    requires Shape(s.m) && p < NR_TASKS
    ensures Step(s, Reap(p)).0.m.ram[0] == s.m.ram[0] && !MovesTable(s, Reap(p))
  {}

  lemma StepFork(s: Sys, p: nat)
    requires Shape(s.m) && LiveTask(s, p)
    ensures Step(s, Fork(p)) == DoFork(s, p)
  {
    hide DoFork;
  }

  lemma StepExit(s: Sys, p: nat)
    requires Shape(s.m) && LiveTask(s, p)
    ensures Step(s, Exit(p)).0 == DoExit(s, p) && Step(s, Exec(p)).0.m == DoExit(s, p).m
  {
    hide FreeTables;
  }

  /** What another task reads is unchanged exactly unless the address shows the page directory and the
      operation hangs in a page table or takes one out. */
  lemma OthersReadTheSameIff(s: Sys, op: Op, d: nat, i: nat)
    requires SysInv(s) && op.p < NR_TASKS && (op.Touch? || op.Write? || op.Deliver? || op.Exit? || op.Exec?)
    requires 16 <= d < SIZE && i < SIZE && !(WINDOW * op.p <= d < WINDOW * op.p + WINDOW)
    ensures var s' := Step(s, op).0;
            Read(At(s'.m, d, i), s'.m.ram[0]) == Read(At(s.m, d, i), s.m.ram[0])
            <==> !(At(s.m, d, i) == Directory && MovesTable(s, op))
  {
    hide SysInv; hide Step; hide At; hide MovesTable; hide Shape;
    SysShape(s);
    OthersUnaffected(s, op, d, i);
    DirectoryMovesIff(s, op);
  }
}
