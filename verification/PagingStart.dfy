/** The memory that boot/head.s sets up, the fork of task 0 that makes task 1, and the runs from there. */
module PagingStart {
  import opened Counting
  import opened Paging
  import opened PagingSteps
  import opened PagingLoops
  import opened PagingRun
  import opened PagingDirectory

  const SHARED: nat := 0xA0    // pages of kernel space that the first fork maps into task 1

  /** After setup_paging: frames 1 and 2 are page tables that map the 8 MB of memory to themselves, the
      paging area is free, and there is no task but task 0.  The other frames hold anything. */
  ghost predicate Booted(s: Sys)
  {
    && Shape(s.m)
    && s.m.memMap == seq(PAGES, k => 0)
    && s.m.ram[0] == [Entry(1), Entry(2)] + seq(SIZE - 2, d => ZERO)
    && s.m.ram[1] == seq(SIZE, i requires 0 <= i => Entry(i))
    && s.m.ram[2] == seq(SIZE, i requires 0 <= i => Entry(SIZE + i))
    && s.task == seq(NR_TASKS, p => Vacant)
    && s.lost == seq(PAGES, k => 0)
  }

  /** copy_process in task 0, whose segments lie at 0 and are 640 kB long. */
  function FirstFork(s: Sys): (r: (Sys, Outcome))
    requires Shape(s.m) && |s.task| == NR_TASKS
  {
    var nr := FirstVacant(s.task, 1);
    if nr == NR_TASKS then (s, Refused)
    else
      var (m1, page) := GetFreePage(s.m);
      if page == 0 then (s, Refused)
      else
        var (m2, ok) := CopyTables(m1, 0, WINDOW * nr, 1, SHARED);
        if !ok then (s.(m := FreePage(FreeTables(m2, WINDOW * nr, 1), page)), Refused)
        else (s.(m := m2, task := s.task[nr := Live(page)]), Done)
  }

  /** What the first fork gives task 1: the page directory, and the pages of the kernel image behind it. */
  ghost function FirstSeen(m: Mem, i: nat): Seen
    requires Shape(m) && i < HIGH
  {
    if i == 0 then Directory else Shown(m.ram[i])
  }

  ghost function FirstFlat(s: Sys): Flat
    requires Shape(s.m)
  {
    Flat(seq(NR_TASKS, p => if p == 1 then LIVE else NONE),
         map i: nat | i < SHARED :: (WINDOW, i) := FirstSeen(s.m, i))
  }

  lemma BootIsConsistent(s: Sys)
    requires Booted(s)
    ensures SysInv(s) && Free(s.m) == PAGES
      && (forall d, i | 16 <= d < SIZE && 0 <= i < SIZE :: At(s.m, d, i) == Nothing)
  {
    AllFree(s.m.memMap);
    forall k | 0 <= k < PAGES ensures Held(s)[k] == 0 {
      if Count(TaskPages(s.task), LOW + k) >= 1 { var p := CountWitness(TaskPages(s.task), LOW + k); }
    }
    forall d | 0 <= d < SIZE ensures Rows(s.m)[d] == [] {
      assert d >= 16 ==> s.m.ram[0][d] == ZERO;
    }
    forall f: nat | LOW <= f < HIGH ensures Refs(s.m, f) == 0 {
      assert forall d | 0 <= d < SIZE :: Count(Rows(s.m)[d], f) == 0;
      TotalZero<nat>(Rows(s.m), f);
    }
  }

  lemma {:induction false} AllFree(memMap: seq<nat>)
    requires forall k | 0 <= k < |memMap| :: memMap[k] == 0
    ensures Count(memMap, 0) == |memMap|
  {
    if memMap != [] {
      AllFree(memMap[1..]);
      assert memMap == [memMap[0]] + memMap[1..];
    }
  }

  /** An entry of a kernel page table that names a low frame is shared: only the copy's table changes. */
  lemma SharedEntryStep(m: Mem, held: seq<nat>, kt: nat, td: nat, i: nat)
    requires Inv(m, held) && 16 <= td < SIZE && Dir(m, td) && 0 < kt < LOW && i < LOW
    requires m.ram[kt][i] == Entry(i) && m.ram[T(m, td)][i] == ZERO
    ensures LOW <= T(m, td) < HIGH
    ensures var m' := CopyEntry(m, kt, T(m, td), i);
            && Inv(m', held) && OnlyAt(m, m', td, i, FirstSeen(m, i))
            && m' == SetWord(m, T(m, td), i, Entry(i).(rw := false))
  {
    hide Refs;
    InvApart(m, held);
    var m' := CopyEntry(m, kt, T(m, td), i);
    assert Shape(m') && m'.ram[0] == m.ram[0];
    SameDirectory(m, m');
    forall f | LOW <= f < HIGH ensures Refs(m', f) == Refs(m, f) {
      SetPteRefs(m, td, i, Entry(i).(rw := false), f);
    }
    forall e, j | 16 <= e < SIZE && 0 <= j < SIZE && Dir(m', e) ensures GoodEntry(m', Pte(m', e, j)) {
      assert GoodEntry(m, Pte(m, e, j));
    }
    forall e, j | 16 <= e < SIZE && 0 <= j < SIZE
      ensures At(m', e, j) == if (e, j) == (td, i) then FirstSeen(m, i) else At(m, e, j)
    {
      if Mapped(m, e, j) { PageIsNoTable(m, held, e, j, td); }
    }
  }

  lemma {:induction false} SharedEntriesLoop(m: Mem, held: seq<nat>, kt: nat, td: nat, k: nat, n: nat)
    requires Inv(m, held) && 16 <= td < SIZE && Dir(m, td) && 0 < kt < LOW && k <= n <= LOW
    requires forall j | k <= j < n :: m.ram[kt][j] == Entry(j)
    requires forall j | k <= j < SIZE :: m.ram[T(m, td)][j] == ZERO
    ensures LOW <= T(m, td) < HIGH
    ensures var m' := CopyEntries(m, kt, T(m, td), k, n);
            && Inv(m', held) && m'.ram[0] == m.ram[0] && m'.memMap == m.memMap
            && (forall d, i | 16 <= d < SIZE && 0 <= i < SIZE ::
                  At(m', d, i) == if d == td && k <= i < n then FirstSeen(m, i) else At(m, d, i))
    decreases n - k
  {
    hide Refs; hide At; hide Exact; hide GoodEntry; hide HeldAlone;
    if k < n {
      SharedEntryStep(m, held, kt, td, k);
      var m1 := CopyEntry(m, kt, T(m, td), k);
      SameDirectory(m, m1);
      SharedEntriesLoop(m1, held, kt, td, k + 1, n);
    }
  }

  lemma LowFramesStay(m: Mem, held: seq<nat>, d: nat, f: nat)
    requires Inv(m, held) && 16 <= d < SIZE && 0 < f < LOW
    ensures AddTable(m, d).0.ram[f] == m.ram[f]
  {
    hide Refs;
    GetFreePageStep(m, held);
  }

  lemma FirstCopy(m: Mem, held: seq<nat>)
    requires Inv(m, held) && Free(m) > 0 && Dir(m, 0) && T(m, 0) == 1
      && m.ram[1] == seq(SIZE, i requires 0 <= i => Entry(i))
    requires forall d | 16 <= d < SIZE :: !Dir(m, d)
    ensures var (m', ok) := CopyTables(m, 0, WINDOW, 1, SHARED);
            && ok && Inv(m', held) && Free(m') == Free(m) - 1
            && (forall d | 16 <= d < SIZE :: Dir(m', d) <==> d == WINDOW)
            && (forall d, i | 16 <= d < SIZE && 0 <= i < SIZE ::
                  At(m', d, i) == if d == WINDOW && i < SHARED then FirstSeen(m, i) else At(m, d, i))
  {
    hide Refs; hide At; hide Exact; hide GoodEntry; hide HeldAlone; hide AddTable; hide CopyEntries;
    AddTableStep(m, held, WINDOW);
    AddTableFree(m, WINDOW);
    var m1 := AddTable(m, WINDOW).0;
    DirectoryBut(m, m1, WINDOW, Entry(T(m1, WINDOW)));
    forall f | 0 < f < LOW ensures m1.ram[f] == m.ram[f] { LowFramesStay(m, held, WINDOW, f); }
    SharedEntriesLoop(m1, held, 1, WINDOW, 0, SHARED);
    var m2 := CopyEntries(m1, 1, T(m1, WINDOW), 0, SHARED);
    SameDirectory(m1, m2);
    assert CopyTables(m, 0, WINDOW, 1, SHARED) == (m2, true);
    forall d, i | 16 <= d < SIZE && 0 <= i < SIZE
      ensures At(m2, d, i) == if d == WINDOW && i < SHARED then FirstSeen(m, i) else At(m, d, i)
    {
      assert d == WINDOW && i < SHARED ==> FirstSeen(m1, i) == FirstSeen(m, i);
    }
  }

  /** The first fork succeeds and leaves a consistent system: task 1 shows the page directory at address 0
      and the kernel image behind it, all read-only. */
  lemma FirstForkStep(s: Sys)
    requires Booted(s)
    ensures var (s', out) := FirstFork(s);
            && out == Done && SysInv(s') && Refines(s', FirstFlat(s)) && Free(s'.m) == PAGES - 2
            && s'.task == s.task[1 := s'.task[1]] && LiveTask(s', 1)
            && (forall d | 16 <= d < SIZE :: Dir(s'.m, d) <==> d == WINDOW)
  {
    hide Refs; hide At; hide Exact; hide GoodEntry; hide HeldAlone; hide TablesUnshared; hide CopyTables; hide Free;
    BootIsConsistent(s);
    GetFreePageStep(s.m, Held(s));
    FreeIsCounted(s.m);
    var (m1, page) := GetFreePage(s.m);
    SameDirectory(s.m, m1);
    FirstCopy(m1, Hold(Held(s), page, 1));
    HeldUpdate(s, 1, Live(page));
    var s' := FirstFork(s).0;
    assert Held(s') == Held(s.(task := s.task[1 := Live(page)]));
    assert StatusOf(s'.task) == FirstFlat(s).status;
    forall d, i | 16 <= d < SIZE && 0 <= i < SIZE ensures At(s'.m, d, i) == Look(FirstFlat(s).pages, d, i) {
      assert i < SHARED ==> FirstSeen(m1, i) == FirstSeen(s.m, i);
      assert At(m1, d, i) == At(s.m, d, i);
    }
  }

  /** Every run from the first fork on: each address of each task shows what it would show if every fork
      copied all pages, and the reference counts stay exact. */
  lemma RunsFromBootRefineEager(s: Sys, ops: seq<Op>)
    requires Booted(s)
    ensures var (s', events) := Run(FirstFork(s).0, ops);
            SysInv(s') && Refines(s', EagerRun(FirstFlat(s), ops, events))
  {
    hide SysInv; hide Refines; hide FirstFork; hide FirstFlat;
    FirstForkStep(s);
    SysShape(FirstFork(s).0);
    CowRefinesEager(FirstFork(s).0, ops, FirstFlat(s));
  }

  /** The plain statement fails: once init has forked, the exit of its child changes what init reads at
      address 0. */
  lemma DirectoryShowsThrough(s: Sys)
    requires Booted(s)
    ensures var s1 := FirstFork(s).0;
            var (s2, forked) := Step(s1, Fork(1));
            var s3 := Step(s2, Exit(2)).0;
            && forked == Done && LiveTask(s2, 1) && LiveTask(s2, 2)
            && At(s2.m, WINDOW, 0) == At(s3.m, WINDOW, 0) == Directory
            && Read(At(s2.m, WINDOW, 0), s2.m.ram[0]) != Read(At(s3.m, WINDOW, 0), s3.m.ram[0])
  {
    FirstForkStep(s);
    var s1 := FirstFork(s).0;
    SysShape(s1);
    InitForks(s, s1);
    hide SysInv; hide Step; hide At; hide Shape; hide Booted; hide FirstFork; hide MovesTable; hide Refines;
    var s2 := Step(s1, Fork(1)).0;
    OthersUnaffected(s2, Exit(2), WINDOW, 0);
    OthersReadTheSameIff(s2, Exit(2), WINDOW, 0);
    ExitMovesTable(s2, 2);
  }

  lemma ExitMovesTable(s: Sys, p: nat)
    requires Shape(s.m) && LiveTask(s, p) && HasTable(s.m, p)
    ensures MovesTable(s, Exit(p))
  {}

  lemma InitForks(s: Sys, s1: Sys)
    requires Booted(s) && s1 == FirstFork(s).0 && SysInv(s1) && Refines(s1, FirstFlat(s)) && LiveTask(s1, 1)
    requires Free(s1.m) == PAGES - 2 && s1.task == s.task[1 := s1.task[1]]
    requires forall d | 16 <= d < SIZE :: Dir(s1.m, d) <==> d == WINDOW
    ensures var (s2, out) := Step(s1, Fork(1));
            && out == Done && SysInv(s2) && LiveTask(s2, 1) && LiveTask(s2, 2)
            && At(s2.m, WINDOW, 0) == At(s2.m, 2 * WINDOW, 0) == Directory && HasTable(s2.m, 2)
  {
    SysShape(s1);
    assert FirstVacant(s1.task, 1) == FirstVacant(s1.task, 2) == 2;
    OneTable(s1.m);
    hide At; hide Free; hide SysInv; hide Shape; hide FirstVacant; hide Dir; hide HasTable; hide Tables; hide FirstFork;
    hide Refines; hide Booted;
    ForkDirectory(s1, 1);
    ForkStep(s1, 1, FirstFlat(s));
    var s2 := DoFork(s1, 1).0;
    StepFork(s1, 1);
    ForkGivesTask(s1, 1);
    ChildSees(s1, s2, FirstFlat(s), s1.m.ram[0]);
  }

  lemma ForkGivesTask(s: Sys, p: nat)
    requires Shape(s.m) && LiveTask(s, p)
    ensures DoFork(s, p).1 == Done ==>
      FirstVacant(s.task, 1) < |s.task|
      && DoFork(s, p).0.task == s.task[FirstVacant(s.task, 1) := Live(GetFreePage(s.m).1)]
  {
    hide CopyTables; hide FreeTables;
  }

  lemma ChildSees(s1: Sys, s2: Sys, f: Flat, directory: Page)
    requires Shape(s1.m) && Shape(s2.m) && Refines(s1, f) && Look(f.pages, WINDOW, 0) == Directory
    requires |s1.task| == NR_TASKS && FirstVacant(s1.task, 1) == 2
    requires Refines(s2, EagerStep(f, Fork(1), Event(Done, directory)))
    ensures At(s2.m, WINDOW, 0) == At(s2.m, 2 * WINDOW, 0) == Directory && HasTable(s2.m, 2)
  {
    hide At; hide Shape; hide FirstVacant; hide Dir; hide HasTable; hide Copied;
    var f2 := EagerStep(f, Fork(1), Event(Done, directory));
    SameFirst(s1.task, 1);
    LookFork(f.pages, 1, 2, WINDOW, 0);
    LookFork(f.pages, 1, 2, 2 * WINDOW, 0);
    assert At(s2.m, WINDOW, 0) == Look(f2.pages, WINDOW, 0);
    assert At(s2.m, 2 * WINDOW, 0) == Look(f2.pages, 2 * WINDOW, 0) == Directory;
    SeenHasTable(s2.m, 2);
  }

  lemma SeenHasTable(m: Mem, p: nat)
    requires Shape(m) && 1 <= p < NR_TASKS && At(m, WINDOW * p, 0) != Nothing
    ensures HasTable(m, p)
  {}

  lemma OneTable(m: Mem)
    requires Shape(m) && forall d | 16 <= d < SIZE :: Dir(m, d) <==> d == WINDOW
    ensures Tables(m, WINDOW, WINDOW) == 1
  {
    NoTables(m, WINDOW + 1, WINDOW - 1);
  }

  lemma {:induction false} NoTables(m: Mem, d: nat, n: nat)
    requires Shape(m) && d + n <= SIZE && forall e | d <= e < d + n :: !Dir(m, e)
    ensures Tables(m, d, n) == 0
    decreases n
  {
    if n > 0 { NoTables(m, d + 1, n - 1); }
  }
}
