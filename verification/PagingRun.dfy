/** Runs of fork, exit, exec, wait, page faults, user stores and kernel stores (mm/memory.c with kernel/fork.c
    and kernel/exit.c), compared with a machine whose fork copies every page at once. */
module PagingRun {
  import opened Counting
  import opened Paging
  import opened PagingSteps
  import opened PagingLoops

  const NR_TASKS: nat := 64
  const WINDOW: nat := 16      // directory entries per task: 0x4000000 >> 22

  /** A task slot with the frame of its task structure.  Task 0 lives in the kernel image. */
  datatype Slot = Vacant | Live(page: nat) | Zombie(page: nat)

  /** lost[k] counts the references to frame LOW+k that a failed page fault left behind. */
  datatype Sys = Sys(m: Mem, task: seq<Slot>, lost: seq<nat>)

  /** An operation of task p; addresses are a directory entry within its window, a table entry, a word.
      Deliver is a system call that verifies n pages from the one numbered page in the window on and then
      stores to the page numbered to among them. */
  datatype Op =
    | Fork(p: nat)
    | Exit(p: nat)
    | Exec(p: nat)
    | Reap(p: nat)
    | Touch(p: nat, rel: nat, i: nat)
    | Write(p: nat, rel: nat, i: nat, off: nat, w: Word)
    | Deliver(p: nat, page: nat, n: nat, to: nat, off: nat, w: Word)

  datatype Outcome = Done | Refused | Killed

  /** What a run shows of a step: how it ended, and the page directory it started with. */
  datatype Event = Event(out: Outcome, directory: Page)

  // ----- the machine of the code -----

  /** find_empty_process: the first vacant slot from k on, NR_TASKS when there is none. */
  function FirstVacant(task: seq<Slot>, k: nat): (nr: nat)
    requires k <= |task|
    ensures k <= nr <= |task| && (nr < |task| ==> task[nr].Vacant?)
    ensures forall j | k <= j < nr :: !task[j].Vacant?
    decreases |task| - k
  {
    if k == |task| || task[k].Vacant? then k else FirstVacant(task, k + 1)
  }

  predicate LiveTask(s: Sys, p: nat)
  {
    1 <= p < |s.task| == NR_TASKS && s.task[p].Live?
  }

  /** do_exit: both segments' page tables are freed, the task structure stays until the parent waits. */
  function DoExit(s: Sys, p: nat): (r: Sys)
    requires Shape(s.m) && LiveTask(s, p)
  {
    s.(m := FreeTables(s.m, WINDOW * p, WINDOW), task := s.task[p := Zombie(s.task[p].page)])
  }

  /** The point of no return in do_execve: both segments' page tables are freed, the task goes on. */
  function DoExec(s: Sys, p: nat): (r: Sys)
    requires Shape(s.m) && LiveTask(s, p)
  {
    s.(m := FreeTables(s.m, WINDOW * p, WINDOW))
  }

  /** copy_process with copy_mem. */
  function DoFork(s: Sys, p: nat): (r: (Sys, Outcome))
    requires Shape(s.m) && LiveTask(s, p)
  {
    var nr := FirstVacant(s.task, 1);
    if nr == NR_TASKS then (s, Refused)
    else
      var (m1, page) := GetFreePage(s.m);
      if page == 0 then (s, Refused)
      else
        var (m2, ok) := CopyTables(m1, WINDOW * p, WINDOW * nr, WINDOW, SIZE);
        if !ok then (s.(m := FreePage(FreeTables(m2, WINDOW * nr, WINDOW), page)), Refused)
        else (s.(m := m2, task := s.task[nr := Live(page)]), Done)
  }

  /** An access to an unmapped address; out of memory the task exits with SIGSEGV. */
  function DoTouch(s: Sys, p: nat, d: nat, i: nat): (r: (Sys, Outcome))
    requires Shape(s.m) && LiveTask(s, p) && d < SIZE && i < SIZE
  {
    if Mapped(s.m, d, i) then (s, Done)
    else
      var (m1, ok, lost) := NoPage(s.m, d, i);
      if ok then (s.(m := m1), Done)
      else (DoExit(s.(m := m1, lost := Hold(s.lost, lost, 1)), p), Killed)
  }

  /** A store: the page fault or the write fault if the processor raises one, then the store itself. */
  function DoWrite(s: Sys, p: nat, d: nat, i: nat, off: nat, w: Word): (r: (Sys, Outcome))
    requires Shape(s.m) && LiveTask(s, p) && d < SIZE && i < SIZE && off < SIZE
  {
    var (s1, out) := DoTouch(s, p, d, i);
    if out.Killed? || !Mapped(s1.m, d, i) then (s1, out)
    else if Pte(s1.m, d, i).rw then (s1.(m := Store(s1.m, Pte(s1.m, d, i).frame, off, w)), Done)
    else
      var (m2, ok) := UnWp(s1.m, T(s1.m, d), i);
      if !ok || !Mapped(m2, d, i) then (DoExit(s1, p), Killed)
      else (s1.(m := Store(m2, Pte(m2, d, i).frame, off, w)), Done)
  }

  /** verify_area, then a store by the kernel, which the processor does not check against the write bit. */
  function DoDeliver(s: Sys, p: nat, page: nat, n: nat, to: nat, off: nat, w: Word): (r: (Sys, Outcome))
    requires Shape(s.m) && LiveTask(s, p) && page <= to < page + n <= SIZE * SIZE && off < SIZE
  {
    var (m1, ok) := VerifyArea(s.m, page, n);
    if !ok then (DoExit(s.(m := m1), p), Killed)
    else
      var (d, i) := (to / SIZE, to % SIZE);
      var (s2, out) := DoTouch(s.(m := m1), p, d, i);
      if out.Killed? || !Mapped(s2.m, d, i) then (s2, out)
      else (s2.(m := Store(s2.m, Pte(s2.m, d, i).frame, off, w)), Done)
  }

  ghost function Step(s: Sys, op: Op): (r: (Sys, Outcome))
    requires Shape(s.m)
    ensures Shape(r.0.m)
  {
    if !LiveTask(s, op.p) && !op.Reap? then (s, Refused)
    else
      match op
      case Fork(p) => DoFork(s, p)
      case Exit(p) => (DoExit(s, p), Done)
      case Exec(p) => (DoExec(s, p), Done)
      case Reap(p) =>
        if 1 <= p < |s.task| && s.task[p].Zombie?
        then (s.(m := FreePage(s.m, s.task[p].page), task := s.task[p := Vacant]), Done)
        else (s, Refused)
      case Touch(p, rel, i) =>
        if rel < WINDOW && i < SIZE then DoTouch(s, p, WINDOW * p + rel, i) else (s, Refused)
      case Write(p, rel, i, off, w) =>
        if rel < WINDOW && i < SIZE && off < SIZE then DoWrite(s, p, WINDOW * p + rel, i, off, w) else (s, Refused)
      case Deliver(p, page, n, to, off, w) =>
        if page <= to < page + n <= WINDOW * SIZE && off < SIZE
        then DoDeliver(s, p, WINDOW * p * SIZE + page, n, WINDOW * p * SIZE + to, off, w) else (s, Refused)
  }

  /** The state and the events after a run. */
  ghost function Run(s: Sys, ops: seq<Op>): (r: (Sys, seq<Event>))
    requires Shape(s.m)
    ensures Shape(r.0.m) && |r.1| == |ops|
    decreases |ops|
  {
    if ops == [] then (s, [])
    else
      var (s1, out) := Step(s, ops[0]);
      var (s2, events) := Run(s1, ops[1..]);
      (s2, [Event(out, s.m.ram[0])] + events)
  }

  // ----- the machine with eager copying -----

  datatype Status = NONE | LIVE | ZOMBIE
  type Pages = map<(nat, nat), Seen>

  /** The task table and, per directory and table entry, what is visible there. */
  datatype Flat = Flat(status: seq<Status>, pages: Pages)

  ghost function Look(pages: Pages, d: nat, i: nat): Seen
  {
    if (d, i) in pages then pages[(d, i)] else Nothing
  }

  /** The pages of all tasks but p. */
  ghost function Without(pages: Pages, p: nat): Pages
  {
    map a | a in pages && !(WINDOW * p <= a.0 < WINDOW * p + WINDOW) :: pages[a]
  }

  /** All pages of task p, copied to the window of task nr. */
  ghost function Copied(pages: Pages, p: nat, nr: nat): Pages
  {
    map d: nat, i: nat | WINDOW * nr <= d < WINDOW * nr + WINDOW && 0 <= i < SIZE && Source(d, i, p, nr) in pages
      :: (d, i) := pages[Source(d, i, p, nr)]
  }

  /** The address in task p that corresponds to address (d, i) of task nr. */
  ghost function Source(d: nat, i: nat, p: nat, nr: nat): (nat, nat)
    requires d >= WINDOW * nr
  {
    (d - WINDOW * nr + WINDOW * p, i)
  }

  ghost function FirstNone(status: seq<Status>, k: nat): (nr: nat)
    requires k <= |status|
    ensures k <= nr <= |status| && (nr < |status| ==> status[nr] == NONE)
    ensures forall j | k <= j < nr :: status[j] != NONE
    decreases |status| - k
  {
    if k == |status| || status[k] == NONE then k else FirstNone(status, k + 1)
  }

  ghost function EagerExit(f: Flat, p: nat): Flat
    requires p < |f.status|
  {
    Flat(f.status[p := ZOMBIE], Without(f.pages, p))
  }

  /** A store: an empty address gets a cleared page first, one that shows the directory a copy of it. */
  ghost function EagerStore(f: Flat, d: nat, i: nat, off: nat, w: Word, directory: Page): Flat
  {
    var page := Read(Look(f.pages, d, i), directory);
    if off < |page| then f.(pages := f.pages[(d, i) := Shown(page[off := w])]) else f
  }

  /** The addresses of the pages numbered from first to first + n get copies where they show the directory. */
  ghost function Owned(pages: Pages, first: nat, n: nat, directory: Page): Pages
  {
    map a | a in pages ::
        if a.1 < SIZE && first <= a.0 * SIZE + a.1 < first + n then Own(pages[a], directory) else pages[a]
  }

  /** One operation with unlimited memory; the event tells how it ended in the machine above, and what
      an address showing the page directory reads. */
  ghost function EagerStep(f: Flat, op: Op, e: Event): Flat
  {
    if e.out == Refused || op.p >= |f.status| then f
    else if e.out == Killed then EagerExit(f, op.p)
    else
      match op
      case Fork(p) =>
        var nr := FirstNone(f.status, 1);
        if nr == |f.status| then f
        else Flat(f.status[nr := LIVE], f.pages + Copied(f.pages, p, nr))
      case Exit(p) => EagerExit(f, p)
      case Exec(p) => f.(pages := Without(f.pages, p))
      case Reap(p) => f.(status := f.status[p := NONE])
      case Touch(p, rel, i) =>
        if Look(f.pages, WINDOW * p + rel, i) != Nothing then f
        else f.(pages := f.pages[(WINDOW * p + rel, i) := Shown(ZeroPage())])
      case Write(p, rel, i, off, w) => EagerStore(f, WINDOW * p + rel, i, off, w, e.directory)
      case Deliver(p, page, n, to, off, w) =>
        var at := WINDOW * p * SIZE + to;
        var f1 := f.(pages := Owned(f.pages, WINDOW * p * SIZE + page, n, e.directory));
        EagerStore(f1, at / SIZE, at % SIZE, off, w, e.directory)
  }

  ghost function EagerRun(f: Flat, ops: seq<Op>, events: seq<Event>): Flat
    requires |ops| == |events|
    decreases |ops|
  {
    if ops == [] then f else EagerRun(EagerStep(f, ops[0], events[0]), ops[1..], events[1..])
  }

  // ----- the correspondence -----

  /** Every user address shows in m what it shows in the eager machine. */
  ghost predicate Shows(m: Mem, pages: Pages)
    requires Shape(m)
  {
    forall d, i | 16 <= d < SIZE && 0 <= i < SIZE :: At(m, d, i) == Look(pages, d, i)
  }

  ghost function StatusOf(task: seq<Slot>): (st: seq<Status>)
    ensures |st| == |task|
  {
    seq(|task|, k requires 0 <= k < |task| =>
      match task[k] case Vacant => NONE case Live(_) => LIVE case Zombie(_) => ZOMBIE)
  }

  ghost predicate Refines(s: Sys, f: Flat)
    requires Shape(s.m)
  {
    StatusOf(s.task) == f.status && Shows(s.m, f.pages)
  }

  ghost function TaskPages(task: seq<Slot>): (ps: seq<nat>)
    ensures |ps| == |task|
  {
    seq(|task|, k requires 0 <= k < |task| => if task[k].Vacant? then 0 else task[k].page)
  }

  /** The references the kernel holds: task structures and lost pages. */
  ghost function Held(s: Sys): (held: seq<nat>)
    requires |s.lost| == PAGES
    ensures |held| == PAGES
  {
    seq(PAGES, k requires 0 <= k < PAGES => HeldAt(s, k))
  }

  ghost function HeldAt(s: Sys, k: nat): nat
    requires k < |s.lost|
  {
    s.lost[k] + Count(TaskPages(s.task), LOW + k)
  }

  ghost predicate SysInv(s: Sys)
  {
    && |s.task| == NR_TASKS && |s.lost| == PAGES
    && Inv(s.m, Held(s))
    && (forall p | 1 <= p < NR_TASKS && !s.task[p].Vacant? :: LOW <= s.task[p].page < HIGH)
    && (forall p, d | 1 <= p < NR_TASKS && !s.task[p].Live? && WINDOW * p <= d < WINDOW * p + WINDOW :: !Dir(s.m, d))
  }

  lemma HeldUpdate(s: Sys, p: nat, slot: Slot)
    requires |s.lost| == PAGES && p < |s.task|
    requires s.task[p].Vacant? ==> slot.Live? && LOW <= slot.page < HIGH
    requires !s.task[p].Vacant? ==> slot.Vacant? && LOW <= s.task[p].page < HIGH
    ensures Held(s.(task := s.task[p := slot]))
         == Hold(Held(s), if slot.Vacant? then s.task[p].page else slot.page, if slot.Vacant? then -1 else 1)
  {
    var s' := s.(task := s.task[p := slot]);
    var v := if slot.Vacant? then 0 else slot.page;
    assert TaskPages(s'.task) == TaskPages(s.task)[p := v];
    var g := if slot.Vacant? then s.task[p].page else slot.page;
    forall k | 0 <= k < PAGES
      ensures Held(s')[k] == Hold(Held(s), g, if slot.Vacant? then -1 else 1)[k]
    {
      CountUpdate(TaskPages(s.task), p, v, LOW + k);
    }
  }

  lemma HeldZombie(s: Sys, p: nat)
    requires |s.lost| == PAGES && LiveTask(s, p)
    ensures Held(s.(task := s.task[p := Zombie(s.task[p].page)])) == Held(s)
  {
    assert TaskPages(s.task[p := Zombie(s.task[p].page)]) == TaskPages(s.task);
  }

  lemma {:induction false} SameFirst(task: seq<Slot>, k: nat)
    requires k <= |task|
    ensures FirstNone(StatusOf(task), k) == FirstVacant(task, k)
    decreases |task| - k
  {
    if k < |task| { SameFirst(task, k + 1); }
  }

  /** Outside the window of task p every address shows what it shows in the eager machine. */
  ghost predicate ShowsOutside(m: Mem, pages: Pages, p: nat)
    requires Shape(m)
  {
    forall d, i | 16 <= d < SIZE && 0 <= i < SIZE && !(WINDOW * p <= d < WINDOW * p + WINDOW) ::
        At(m, d, i) == Look(pages, d, i)
  }

  lemma ExitStep(s: Sys, p: nat, f: Flat)
    requires SysInv(s) && LiveTask(s, p) && StatusOf(s.task) == f.status && ShowsOutside(s.m, f.pages, p)
    ensures SysInv(DoExit(s, p)) && Refines(DoExit(s, p), EagerExit(f, p))
  {
    hide Refs; hide Exact; hide At; hide FreeTables;
    FreeTablesLoop(s.m, Held(s), WINDOW * p, WINDOW);
    HeldZombie(s, p);
    var s' := DoExit(s, p);
    assert Held(s') == Held(s.(task := s.task[p := Zombie(s.task[p].page)]));
    assert StatusOf(s'.task) == StatusOf(s.task)[p := ZOMBIE];
  }

  lemma ExecStep(s: Sys, p: nat, f: Flat)
    requires SysInv(s) && LiveTask(s, p) && Refines(s, f)
    ensures SysInv(DoExec(s, p)) && Refines(DoExec(s, p), f.(pages := Without(f.pages, p)))
  {
    hide Refs; hide Exact; hide At; hide FreeTables;
    FreeTablesLoop(s.m, Held(s), WINDOW * p, WINDOW);
    assert Held(DoExec(s, p)) == Held(s);
  }

  lemma ForkStep(s: Sys, p: nat, f: Flat)
    requires SysInv(s) && LiveTask(s, p) && Refines(s, f)
    ensures var (s', out) := DoFork(s, p);
            && SysInv(s') && Refines(s', EagerStep(f, Fork(p), Event(out, s.m.ram[0])))
            && (out == Refused ==> s'.m.memMap == s.m.memMap && s'.m.ram[0] == s.m.ram[0] && s'.task == s.task)
  {
    hide Refs; hide Exact; hide At;
    var nr := FirstVacant(s.task, 1);
    SameFirst(s.task, 1);
    if nr < NR_TASKS {
      GetFreePageStep(s.m, Held(s));
      var (m1, page) := GetFreePage(s.m);
      if page != 0 {
        SameDirectory(s.m, m1);
        if CopyTables(m1, WINDOW * p, WINDOW * nr, WINDOW, SIZE).1 {
          ForkDone(s, p, nr, page, f);
        } else {
          ForkUndone(s, p, nr, page, f);
        }
      }
    }
  }

  lemma ForkDone(s: Sys, p: nat, nr: nat, page: nat, f: Flat)
    requires SysInv(s) && LiveTask(s, p) && Refines(s, f) && nr == FirstVacant(s.task, 1) < NR_TASKS
    requires page == GetFreePage(s.m).1 != 0
    requires CopyTables(GetFreePage(s.m).0, WINDOW * p, WINDOW * nr, WINDOW, SIZE).1
    ensures var s' := DoFork(s, p).0;
            SysInv(s') && Refines(s', Flat(f.status[nr := LIVE], f.pages + Copied(f.pages, p, nr)))
  {
    hide Refs; hide Exact; hide At; hide TablesUnshared; hide HeldAlone; hide GoodEntry; hide CopyTables;
    GetFreePageStep(s.m, Held(s));
    var m1 := GetFreePage(s.m).0;
    var h1 := Hold(Held(s), page, 1);
    SameDirectory(s.m, m1);
    CopyTablesLoop(m1, h1, WINDOW * p, WINDOW * nr, WINDOW);
    HeldUpdate(s, nr, Live(page));
    var s' := DoFork(s, p).0;
    assert Held(s') == Held(s.(task := s.task[nr := Live(page)]));
    assert StatusOf(s'.task) == StatusOf(s.task)[nr := LIVE];
    ForkShows(s.m, m1, s'.m, p, nr, f.pages);
  }

  lemma ForkShows(m: Mem, m1: Mem, m2: Mem, p: nat, nr: nat, pages: Pages)
    requires Shape(m) && Shape(m1) && Shape(m2) && SameView(m, m1) && Shows(m, pages)
    requires 1 <= p < NR_TASKS && 1 <= nr < NR_TASKS && p != nr
    requires forall d, i | 16 <= d < SIZE && 0 <= i < SIZE && !(WINDOW * nr <= d < WINDOW * nr + WINDOW) ::
      At(m2, d, i) == At(m1, d, i)
    requires forall d, i | WINDOW * nr <= d < WINDOW * nr + WINDOW && 0 <= i < SIZE ::
      At(m2, d, i) == At(m1, d - WINDOW * nr + WINDOW * p, i)
    requires forall d | WINDOW * nr <= d < WINDOW * nr + WINDOW :: !Dir(m, d)
    ensures Shows(m2, pages + Copied(pages, p, nr))
  {
    NothingInWindow(m, nr);
    hide At; hide Shape; hide Dir; hide Look; hide Copied;
    forall d, i | 16 <= d < SIZE && 0 <= i < SIZE
      ensures At(m2, d, i) == Look(pages + Copied(pages, p, nr), d, i)
    {
      LookFork(pages, p, nr, d, i);
      if WINDOW * nr <= d < WINDOW * nr + WINDOW {
        assert At(m, d, i) == Nothing;
      }
    }
  }

  lemma LookFork(pages: Pages, p: nat, nr: nat, d: nat, i: nat)
    requires i < SIZE
    ensures Look(pages + Copied(pages, p, nr), d, i)
         == if WINDOW * nr <= d < WINDOW * nr + WINDOW && (d - WINDOW * nr + WINDOW * p, i) in pages
            then Look(pages, d - WINDOW * nr + WINDOW * p, i) else Look(pages, d, i)
  {
    if WINDOW * nr <= d < WINDOW * nr + WINDOW {
      assert Source(d, i, p, nr) == (d - WINDOW * nr + WINDOW * p, i);
    }
    assert (d, i) in Copied(pages, p, nr) <==> WINDOW * nr <= d < WINDOW * nr + WINDOW && Source(d, i, p, nr) in pages;
  }

  lemma NothingInWindow(m: Mem, nr: nat)
    requires Shape(m) && nr < NR_TASKS && forall d | WINDOW * nr <= d < WINDOW * nr + WINDOW :: !Dir(m, d)
    ensures forall d, i | WINDOW * nr <= d < WINDOW * nr + WINDOW && 0 <= i < SIZE :: At(m, d, i) == Nothing
  {}

  /** A fork that runs out of memory half-way leaves every count as it was. */
  lemma ForkUndone(s: Sys, p: nat, nr: nat, page: nat, f: Flat)
    requires SysInv(s) && LiveTask(s, p) && Refines(s, f) && nr == FirstVacant(s.task, 1) < NR_TASKS
    requires page == GetFreePage(s.m).1 != 0
    requires !CopyTables(GetFreePage(s.m).0, WINDOW * p, WINDOW * nr, WINDOW, SIZE).1
    ensures var s' := DoFork(s, p).0;
            SysInv(s') && Refines(s', f) && s'.m.memMap == s.m.memMap && s'.m.ram[0] == s.m.ram[0]
  {
    hide Refs; hide Exact; hide At; hide CopyTables; hide FreeTables; hide GoodEntry; hide TablesUnshared;
    hide HeldAlone;
    GetFreePageStep(s.m, Held(s));
    var m1 := GetFreePage(s.m).0;
    var h1 := Hold(Held(s), page, 1);
    SameDirectory(s.m, m1);
    CopyThenFreeRestores(m1, h1, WINDOW * p, WINDOW * nr, WINDOW);
    var m3 := FreeTables(CopyTables(m1, WINDOW * p, WINDOW * nr, WINDOW, SIZE).0, WINDOW * nr, WINDOW);
    HeldHasNoRefs(m3, h1, page);
    FreeHeldStep(m3, h1, page);
    assert Hold(h1, page, -1) == Held(s);
    var s' := DoFork(s, p).0;
    assert s'.m == FreePage(m3, page);
    SameDirectory(m3, s'.m);
    assert Held(s') == Held(s);
    assert s'.m.memMap == s.m.memMap;
  }

  lemma ReapStep(s: Sys, p: nat, f: Flat)
    requires SysInv(s) && 1 <= p < NR_TASKS && s.task[p].Zombie? && Refines(s, f)
    ensures var s' := s.(m := FreePage(s.m, s.task[p].page), task := s.task[p := Vacant]);
            SysInv(s') && Refines(s', f.(status := f.status[p := NONE]))
  {
    hide Refs; hide Exact; hide At; hide Held; hide StatusOf;
    var page := s.task[p].page;
    var s' := s.(m := FreePage(s.m, page), task := s.task[p := Vacant]);
    HeldOfTask(s, p);
    HeldHasNoRefs(s.m, Held(s), page);
    FreeHeldStep(s.m, Held(s), page);
    HeldUpdate(s, p, Vacant);
    SameHeld(s', s.(task := s.task[p := Vacant]));
    SameDirectory(s.m, s'.m);
    StatusUpdate(s.task, p, Vacant);
  }

  lemma SameHeld(s: Sys, s': Sys)
    requires |s.lost| == PAGES && s'.lost == s.lost && s'.task == s.task
    ensures Held(s') == Held(s)
  {}

  lemma StatusUpdate(task: seq<Slot>, p: nat, slot: Slot)
    requires p < |task|
    ensures StatusOf(task[p := slot])
      == StatusOf(task)[p := match slot case Vacant => NONE case Live(_) => LIVE case Zombie(_) => ZOMBIE]
  {}

  lemma HeldOfTask(s: Sys, p: nat)
    requires |s.lost| == PAGES && p < |s.task| && !s.task[p].Vacant? && LOW <= s.task[p].page < HIGH
    ensures Held(s)[s.task[p].page - LOW] >= 1
  {
    assert TaskPages(s.task)[p] == s.task[p].page;
    CountPositive(TaskPages(s.task), p);
  }

  lemma TouchStep(s: Sys, p: nat, rel: nat, i: nat, f: Flat)
    requires SysInv(s) && LiveTask(s, p) && Refines(s, f) && rel < WINDOW && i < SIZE
    ensures var (d, (s', out)) := (WINDOW * p + rel, DoTouch(s, p, WINDOW * p + rel, i));
            && SysInv(s') && Refines(s', EagerStep(f, Touch(p, rel, i), Event(out, s.m.ram[0]))) && out != Refused
            && (out == Done ==> s'.task == s.task && Mapped(s'.m, d, i))
            && (out == Done && !Mapped(s.m, d, i) ==> Pte(s'.m, d, i).rw)
            && (Mapped(s.m, d, i) ==> out == Done && s' == s)
  {
    hide Refs; hide Exact; hide At; hide NoPage; hide DoExit; hide Shape;
    var d := WINDOW * p + rel;
    SysShape(s);
    MappedIsSeen(s.m, Held(s), d, i);
    assert At(s.m, d, i) == Look(f.pages, d, i);
    if !Mapped(s.m, d, i) {
      NoPageStep(s.m, Held(s), d, i);
      var (m1, ok, lost) := NoPage(s.m, d, i);
      if ok {
        Touched(s, m1, p, d, i, f);
      } else {
        var s1 := s.(m := m1, lost := Hold(s.lost, lost, 1));
        PageLost(s, m1, lost, f);
        RefinesOutside(s1, f, p);
        ExitStep(s1, p, f);
      }
    }
  }

  lemma SysShape(s: Sys)
    requires SysInv(s)
    ensures Shape(s.m) && |s.task| == NR_TASKS && |s.lost| == PAGES
  {
  }

  lemma Touched(s: Sys, m1: Mem, p: nat, d: nat, i: nat, f: Flat)
    requires SysInv(s) && LiveTask(s, p) && Refines(s, f) && WINDOW * p <= d < WINDOW * p + WINDOW && i < SIZE
    requires Inv(m1, Held(s)) && OnlyAt(s.m, m1, d, i, Shown(ZeroPage()))
    requires forall e | 16 <= e < SIZE && e != d :: Dir(m1, e) == Dir(s.m, e)
    ensures SysInv(s.(m := m1)) && Refines(s.(m := m1), f.(pages := f.pages[(d, i) := Shown(ZeroPage())]))
  {
    hide Refs; hide Exact; hide At; hide GoodEntry; hide TablesUnshared; hide HeldAlone;
    assert Held(s.(m := m1)) == Held(s);
  }

  lemma PageLost(s: Sys, m1: Mem, lost: nat, f: Flat)
    requires SysInv(s) && Refines(s, f) && (lost == 0 || LOW <= lost < HIGH)
    requires Inv(m1, Hold(Held(s), lost, 1)) && SameView(s.m, m1) && m1.ram[0] == s.m.ram[0]
    ensures var s1 := s.(m := m1, lost := Hold(s.lost, lost, 1)); SysInv(s1) && Refines(s1, f)
  {
    hide Refs; hide Exact; hide At; hide GoodEntry; hide TablesUnshared; hide HeldAlone;
    var s1 := s.(m := m1, lost := Hold(s.lost, lost, 1));
    assert Held(s1) == Hold(Held(s), lost, 1);
    SameDirectory(s.m, m1);
  }

  lemma MappedIsSeen(m: Mem, held: seq<nat>, d: nat, i: nat)
    requires Inv(m, held) && 16 <= d < SIZE && i < SIZE
    ensures Mapped(m, d, i) <==> At(m, d, i) != Nothing
    ensures Mapped(m, d, i) && (Pte(m, d, i).rw || Private(m, Pte(m, d, i).frame)) ==>
      LOW <= Pte(m, d, i).frame < HIGH && At(m, d, i) == Shown(m.ram[Pte(m, d, i).frame])
  {}

  lemma WriteStep(s: Sys, p: nat, rel: nat, i: nat, off: nat, w: Word, f: Flat)
    requires SysInv(s) && LiveTask(s, p) && Refines(s, f) && rel < WINDOW && i < SIZE && off < SIZE
    ensures var (s', out) := DoWrite(s, p, WINDOW * p + rel, i, off, w);
            SysInv(s') && Refines(s', EagerStep(f, Write(p, rel, i, off, w), Event(out, s.m.ram[0]))) && out != Refused
  {
    hide Refs; hide Exact; hide At; hide Inv; hide Shape; hide DoTouch; hide UnWp; hide Store; hide DoExit; hide Shows;
    hide EagerStore; hide Own;
    var d := WINDOW * p + rel;
    SysShape(s);
    TouchStep(s, p, rel, i, f);
    var (s1, out) := DoTouch(s, p, d, i);
    SysShape(s1);
    if out == Done {
      var e := Event(Done, s.m.ram[0]);
      var f1 := EagerStep(f, Touch(p, rel, i), e);
      TouchThenStore(f, p, rel, i, off, w, s.m.ram[0]);
      if Pte(s1.m, d, i).rw {
        StoreRefines(s1, d, i, off, w, f1, s.m.ram[0]);
      } else {
        UnWpStep(s1.m, Held(s1), d, i);
        var (m2, ok) := UnWp(s1.m, T(s1.m, d), i);
        if ok {
          var s2 := s1.(m := m2);
          var f2 := f1.(pages := f1.pages[(d, i) := Own(Look(f1.pages, d, i), s.m.ram[0])]);
          Unshared(s1, m2, d, i, f1);
          StoreRefines(s2, d, i, off, w, f2, s.m.ram[0]);
          SeenPage(s1, d, i, f1);
          OwnThenStore(f1, d, i, off, w, s.m.ram[0]);
        } else {
          RefinesOutside(s1, f1, p);
          ExitStep(s1, p, f1);
          TouchThenExit(f, p, rel, i, e);
        }
      }
    }
  }

  lemma RefinesOutside(s: Sys, f: Flat, p: nat)
    requires Shape(s.m) && Refines(s, f)
    ensures ShowsOutside(s.m, f.pages, p) && StatusOf(s.task) == f.status
  {
    hide At; hide Look;
  }

  lemma SeenPage(s: Sys, d: nat, i: nat, f: Flat)
    requires SysInv(s) && Refines(s, f) && 16 <= d < SIZE && Mapped(s.m, d, i)
    ensures Look(f.pages, d, i) != Nothing && |Read(Look(f.pages, d, i), s.m.ram[0])| == SIZE
  {
    assert At(s.m, d, i) == Look(f.pages, d, i);
    assert GoodEntry(s.m, Pte(s.m, d, i));
  }

  lemma Unshared(s: Sys, m1: Mem, d: nat, i: nat, f: Flat)
    requires SysInv(s) && Refines(s, f) && Inv(m1, Held(s)) && 16 <= d < SIZE && i < SIZE
    requires OnlyAt(s.m, m1, d, i, Own(At(s.m, d, i), s.m.ram[0])) && m1.ram[0] == s.m.ram[0]
    ensures SysInv(s.(m := m1))
    ensures Refines(s.(m := m1), f.(pages := f.pages[(d, i) := Own(Look(f.pages, d, i), s.m.ram[0])]))
  {
    hide Refs; hide Exact; hide At; hide GoodEntry; hide TablesUnshared; hide HeldAlone; hide Own;
    assert Held(s.(m := m1)) == Held(s);
    SameDirectory(s.m, m1);
    assert At(s.m, d, i) == Look(f.pages, d, i);
  }

  lemma StoreRefines(s: Sys, d: nat, i: nat, off: nat, w: Word, f: Flat, directory: Page)
    requires SysInv(s) && Refines(s, f) && 16 <= d < SIZE && Mapped(s.m, d, i) && off < SIZE
      && (Pte(s.m, d, i).rw || Private(s.m, Pte(s.m, d, i).frame))
    ensures var s' := s.(m := Store(s.m, Pte(s.m, d, i).frame, off, w));
            SysInv(s') && Refines(s', EagerStore(f, d, i, off, w, directory))
  {
    hide Refs; hide Exact; hide At;
    var s' := s.(m := Store(s.m, Pte(s.m, d, i).frame, off, w));
    MappedIsSeen(s.m, Held(s), d, i);
    StoreStep(s.m, Held(s), d, i, off, w);
    SameDirectory(s.m, s'.m);
    assert Held(s') == Held(s);
    assert At(s.m, d, i) == Look(f.pages, d, i);
  }

  lemma TouchThenStore(f: Flat, p: nat, rel: nat, i: nat, off: nat, w: Word, directory: Page)
    requires p < |f.status| && off < SIZE
    ensures var e := Event(Done, directory);
            EagerStep(f, Write(p, rel, i, off, w), e)
            == EagerStore(EagerStep(f, Touch(p, rel, i), e), WINDOW * p + rel, i, off, w, directory)
  {
    var d := WINDOW * p + rel;
    if Look(f.pages, d, i) == Nothing {
      assert f.pages[(d, i) := Shown(ZeroPage())][(d, i) := Shown(ZeroPage()[off := w])]
          == f.pages[(d, i) := Shown(ZeroPage()[off := w])];
    }
  }

  lemma OwnThenStore(f: Flat, d: nat, i: nat, off: nat, w: Word, directory: Page)
    requires Look(f.pages, d, i) != Nothing && off < |Read(Look(f.pages, d, i), directory)|
    ensures EagerStore(f.(pages := f.pages[(d, i) := Own(Look(f.pages, d, i), directory)]), d, i, off, w, directory)
         == EagerStore(f, d, i, off, w, directory)
  {
    var page := Read(Look(f.pages, d, i), directory);
    assert f.pages[(d, i) := Shown(page)][(d, i) := Shown(page[off := w])] == f.pages[(d, i) := Shown(page[off := w])];
  }

  /** A task killed between its page fault and its store loses the new page with everything else. */
  lemma TouchThenExit(f: Flat, p: nat, rel: nat, i: nat, e: Event)
    requires p < |f.status| && rel < WINDOW && e.out == Done
    ensures EagerExit(EagerStep(f, Touch(p, rel, i), e), p) == EagerExit(f, p)
  {
    var f1 := EagerStep(f, Touch(p, rel, i), e);
    assert Without(f1.pages, p) == Without(f.pages, p);
  }

  lemma DeliverStep(s: Sys, p: nat, page: nat, n: nat, to: nat, off: nat, w: Word, f: Flat)
    requires SysInv(s) && LiveTask(s, p) && Refines(s, f) && page <= to < page + n <= WINDOW * SIZE && off < SIZE
    ensures var (s', out) := DoDeliver(s, p, WINDOW * p * SIZE + page, n, WINDOW * p * SIZE + to, off, w);
            SysInv(s') && Refines(s', EagerStep(f, Deliver(p, page, n, to, off, w), Event(out, s.m.ram[0])))
                && out != Refused
  {
    hide Refs; hide Exact; hide At; hide Inv; hide Shape; hide DoTouch; hide VerifyArea; hide Store; hide DoExit;
    hide Shows; hide EagerStore; hide Own; hide Owned; hide Refines; hide SysInv; hide ShowsOutside; hide Look;
    SysShape(s);
    var first, at := WINDOW * p * SIZE + page, WINDOW * p * SIZE + to;
    var d, i := at / SIZE, at % SIZE;
    VerifyRefines(s, p, first, n, f);
    var (m1, ok) := VerifyArea(s.m, first, n);
    var s1 := s.(m := m1);
    RefinesStatus(s, f);
    if !ok {
      ExitStep(s1, p, f);
    } else {
      var f1 := f.(pages := Owned(f.pages, first, n, s.m.ram[0]));
      TouchStep(s1, p, d - WINDOW * p, i, f1);
      var (s2, out) := DoTouch(s1, p, d, i);
      SysShape(s2);
      OwnedThenExit(f, p, first, n, s.m.ram[0]);
      if out == Done {
        var f2 := EagerStep(f1, Touch(p, d - WINDOW * p, i), Event(Done, s.m.ram[0]));
        TouchThenStore(f1, p, d - WINDOW * p, i, off, w, s.m.ram[0]);
        StoreRefines(s2, d, i, off, w, f2, s.m.ram[0]);
      }
    }
  }

  lemma VerifyRefines(s: Sys, p: nat, first: nat, n: nat, f: Flat)
    requires SysInv(s) && LiveTask(s, p) && Refines(s, f) && WINDOW * p * SIZE <= first
      && first + n <= (WINDOW * p + WINDOW) * SIZE
    ensures var (m1, ok) := VerifyArea(s.m, first, n);
            && SysInv(s.(m := m1)) && m1.ram[0] == s.m.ram[0] && ShowsOutside(m1, f.pages, p)
            && StatusOf(s.task) == f.status
            && (ok ==> Refines(s.(m := m1), f.(pages := Owned(f.pages, first, n, s.m.ram[0]))))
            && (ok ==> WritableIn(m1, first, n))
  {
    hide Refs; hide Exact; hide At; hide GoodEntry; hide TablesUnshared; hide HeldAlone; hide Own; hide VerifyArea;
    VerifyAreaUnshares(s.m, Held(s), first, n);
    var (m1, ok) := VerifyArea(s.m, first, n);
    SameDirectory(s.m, m1);
    assert Held(s.(m := m1)) == Held(s);
    forall d, i | 16 <= d < SIZE && 0 <= i < SIZE
      ensures Look(Owned(f.pages, first, n, s.m.ram[0]), d, i)
           == if first <= d * SIZE + i < first + n then Own(At(s.m, d, i), s.m.ram[0]) else At(s.m, d, i)
    {
      LookOwned(f.pages, first, n, s.m.ram[0], d, i);
      assert At(s.m, d, i) == Look(f.pages, d, i);
    }
  }

  lemma LookOwned(pages: Pages, first: nat, n: nat, directory: Page, d: nat, i: nat)
    requires i < SIZE
    ensures Look(Owned(pages, first, n, directory), d, i)
         == if first <= d * SIZE + i < first + n then Own(Look(pages, d, i), directory) else Look(pages, d, i)
  {}

  lemma OwnedThenExit(f: Flat, p: nat, first: nat, n: nat, directory: Page)
    requires p < |f.status| && WINDOW * p * SIZE <= first && first + n <= (WINDOW * p + WINDOW) * SIZE
    ensures EagerExit(f.(pages := Owned(f.pages, first, n, directory)), p) == EagerExit(f, p)
  {
    hide Own;
    assert Without(Owned(f.pages, first, n, directory), p) == Without(f.pages, p);
  }

  lemma RefinesStatus(s: Sys, f: Flat)
    requires Shape(s.m) && Refines(s, f)
    ensures |f.status| == |s.task|
  {}

  // ----- main results -----

  lemma StepRefines(s: Sys, op: Op, f: Flat)
    requires SysInv(s) && Refines(s, f)
    ensures var (s', out) := Step(s, op); SysInv(s') && Refines(s', EagerStep(f, op, Event(out, s.m.ram[0])))
  {
    SysShape(s);
    hide Step; hide EagerStep; hide Refines; hide SysInv; hide Shape; hide LiveTask;
    if !LiveTask(s, op.p) && !op.Reap? {
      StepOfNobody(s, op);
      RefusedEager(f, op, Event(Refused, s.m.ram[0]));
    } else {
      match op
      case Fork(p) => ForkRefines(s, p, f);
      case Exit(p) => ExitRefines(s, p, f);
      case Exec(p) => ExecRefines(s, p, f);
      case Reap(p) => ReapRefines(s, p, f);
      case Touch(p, rel, i) => TouchRefines(s, p, rel, i, f);
      case Write(p, rel, i, off, w) => WriteRefines(s, p, rel, i, off, w, f);
      case Deliver(p, page, n, to, off, w) => DeliverRefines(s, p, page, n, to, off, w, f);
    }
  }

  lemma StepOfNobody(s: Sys, op: Op)
    requires Shape(s.m) && !LiveTask(s, op.p) && !op.Reap?
    ensures Step(s, op) == (s, Refused)
  {
    hide Shape; hide LiveTask;
  }

  lemma ForkRefines(s: Sys, p: nat, f: Flat)
    requires SysInv(s) && Refines(s, f)
    ensures var (s', out) := Step(s, Fork(p)); SysInv(s') && Refines(s', EagerStep(f, Fork(p), Event(out, s.m.ram[0])))
  {
    SysShape(s);
    hide DoFork; hide DoExit; hide DoTouch; hide DoWrite; hide DoDeliver; hide EagerStore; hide Refines; hide SysInv;
    hide Shape; hide FirstNone; hide Copied; hide Without;
    if LiveTask(s, p) { ForkStep(s, p, f); }
  }

  lemma ExitRefines(s: Sys, p: nat, f: Flat)
    requires SysInv(s) && Refines(s, f)
    ensures var (s', out) := Step(s, Exit(p)); SysInv(s') && Refines(s', EagerStep(f, Exit(p), Event(out, s.m.ram[0])))
  {
    SysShape(s);
    hide DoFork; hide DoExit; hide DoTouch; hide DoWrite; hide DoDeliver; hide EagerStore; hide Refines; hide SysInv;
    hide Shape; hide FirstNone; hide Copied; hide Without;
    if LiveTask(s, p) { RefinesStatus(s, f); RefinesOutside(s, f, p); ExitStep(s, p, f); }
  }

  lemma ExecRefines(s: Sys, p: nat, f: Flat)
    requires SysInv(s) && LiveTask(s, p) && Refines(s, f)
    ensures var (s', out) := Step(s, Exec(p)); SysInv(s') && Refines(s', EagerStep(f, Exec(p), Event(out, s.m.ram[0])))
  {
    SysShape(s);
    hide DoExec; hide Refines; hide SysInv; hide Shape; hide Without;
    RefinesStatus(s, f);
    ExecStep(s, p, f);
  }

  lemma StepTouch(s: Sys, p: nat, rel: nat, i: nat)
    requires Shape(s.m) && LiveTask(s, p)
    ensures Step(s, Touch(p, rel, i)) == if rel < WINDOW && i < SIZE then DoTouch(s, p, WINDOW * p + rel, i)
      else (s, Refused)
  {
    hide Shape; hide DoTouch;
  }

  lemma TouchRefines(s: Sys, p: nat, rel: nat, i: nat, f: Flat)
    requires SysInv(s) && LiveTask(s, p) && Refines(s, f)
    ensures var (s', out) := Step(s, Touch(p, rel, i));
            SysInv(s') && Refines(s', EagerStep(f, Touch(p, rel, i), Event(out, s.m.ram[0])))
  {
    SysShape(s);
    hide Step; hide EagerStep; hide Refines; hide SysInv; hide Shape; hide DoTouch; hide LiveTask;
    StepTouch(s, p, rel, i);
    RefusedEager(f, Touch(p, rel, i), Event(Refused, s.m.ram[0]));
    if rel < WINDOW && i < SIZE { TouchStep(s, p, rel, i, f); }
  }

  lemma StepWrite(s: Sys, p: nat, rel: nat, i: nat, off: nat, w: Word)
    requires Shape(s.m) && LiveTask(s, p)
    ensures Step(s, Write(p, rel, i, off, w))
         == if rel < WINDOW && i < SIZE && off < SIZE then DoWrite(s, p, WINDOW * p + rel, i, off, w) else (s, Refused)
  {
    hide Shape; hide DoWrite;
  }

  lemma StepDeliver(s: Sys, p: nat, page: nat, n: nat, to: nat, off: nat, w: Word)
    requires Shape(s.m) && LiveTask(s, p)
    ensures Step(s, Deliver(p, page, n, to, off, w))
         == if page <= to < page + n <= WINDOW * SIZE && off < SIZE
            then DoDeliver(s, p, WINDOW * p * SIZE + page, n, WINDOW * p * SIZE + to, off, w) else (s, Refused)
  {
    hide Shape; hide DoDeliver;
  }

  lemma RefusedEager(f: Flat, op: Op, e: Event)
    requires e.out == Refused
    ensures EagerStep(f, op, e) == f
  {}

  lemma WriteRefines(s: Sys, p: nat, rel: nat, i: nat, off: nat, w: Word, f: Flat)
    requires SysInv(s) && LiveTask(s, p) && Refines(s, f)
    ensures var (s', out) := Step(s, Write(p, rel, i, off, w));
            SysInv(s') && Refines(s', EagerStep(f, Write(p, rel, i, off, w), Event(out, s.m.ram[0])))
  {
    SysShape(s);
    hide Step; hide EagerStep; hide Refines; hide SysInv; hide Shape; hide DoWrite; hide LiveTask;
    StepWrite(s, p, rel, i, off, w);
    RefusedEager(f, Write(p, rel, i, off, w), Event(Refused, s.m.ram[0]));
    if rel < WINDOW && i < SIZE && off < SIZE { WriteStep(s, p, rel, i, off, w, f); }
  }

  lemma DeliverRefines(s: Sys, p: nat, page: nat, n: nat, to: nat, off: nat, w: Word, f: Flat)
    requires SysInv(s) && LiveTask(s, p) && Refines(s, f)
    ensures var (s', out) := Step(s, Deliver(p, page, n, to, off, w));
            SysInv(s') && Refines(s', EagerStep(f, Deliver(p, page, n, to, off, w), Event(out, s.m.ram[0])))
  {
    SysShape(s);
    hide Step; hide EagerStep; hide Refines; hide SysInv; hide Shape; hide DoDeliver; hide LiveTask;
    StepDeliver(s, p, page, n, to, off, w);
    RefusedEager(f, Deliver(p, page, n, to, off, w), Event(Refused, s.m.ram[0]));
    if page <= to < page + n <= WINDOW * SIZE && off < SIZE { DeliverStep(s, p, page, n, to, off, w, f); }
  }

  lemma ReapRefines(s: Sys, p: nat, f: Flat)
    requires SysInv(s) && Refines(s, f)
    ensures var (s', out) := Step(s, Reap(p)); SysInv(s') && Refines(s', EagerStep(f, Reap(p), Event(out, s.m.ram[0])))
  {
    SysShape(s);
    RefinesStatus(s, f);
    if 1 <= p < NR_TASKS && s.task[p].Zombie? { ReapStep(s, p, f); }
  }

  /** Copy-on-write refines eager copying: over every run, every address of every task shows what it
      would show if fork had copied all pages, and the reference counts stay exact.  An address that shows
      the page directory shows it until something is stored there. */
  lemma {:induction false} CowRefinesEager(s: Sys, ops: seq<Op>, f: Flat)
    requires SysInv(s) && Refines(s, f)
    ensures var (s', events) := Run(s, ops); SysInv(s') && Refines(s', EagerRun(f, ops, events))
    decreases |ops|
  {
    SysShape(s);
    hide SysInv; hide Refines; hide Step; hide EagerStep;
    if ops != [] {
      StepRefines(s, ops[0], f);
      var (s1, out) := Step(s, ops[0]);
      var e := Event(out, s.m.ram[0]);
      CowRefinesEager(s1, ops[1..], EagerStep(f, ops[0], e));
      var events := Run(s1, ops[1..]).1;
      assert ([e] + events)[1..] == events;
    }
  }

  ghost function View(m: Mem): Pages
    requires Shape(m)
  {
    map d: nat, i: nat | 16 <= d < SIZE && 0 <= i < SIZE && At(m, d, i) != Nothing :: (d, i) := At(m, d, i)
  }

  ghost function Observed(s: Sys): Flat
    requires Shape(s.m)
  {
    Flat(StatusOf(s.task), View(s.m))
  }

  lemma ObservedRefines(s: Sys)
    requires Shape(s.m)
    ensures Refines(s, Observed(s))
  {
    hide At; hide Shape;
  }

  /** A store, an exec, a page fault, or a kernel store behind verify_area of task p, even one that kills it,
      changes nothing another task sees. */
  lemma OthersUnaffected(s: Sys, op: Op, d: nat, i: nat)
    requires SysInv(s) && (op.Touch? || op.Write? || op.Deliver? || op.Exit? || op.Exec?)
    requires 16 <= d < SIZE && i < SIZE && !(WINDOW * op.p <= d < WINDOW * op.p + WINDOW)
    ensures At(Step(s, op).0.m, d, i) == At(s.m, d, i)
  {
    SysShape(s);
    var f := Observed(s);
    ObservedRefines(s);
    StepRefines(s, op, f);
    hide At; hide SysInv; hide Shape; hide View; hide EagerStep; hide DoTouch; hide DoWrite; hide DoDeliver;
    hide DoExit;
    var (s', out) := Step(s, op);
    EagerOthers(f, op, Event(out, s.m.ram[0]), d, i);
  }

  lemma EagerOthers(f: Flat, op: Op, e: Event, d: nat, i: nat)
    requires i < SIZE && !(WINDOW * op.p <= d < WINDOW * op.p + WINDOW)
      && (op.Touch? || op.Write? || op.Deliver? || op.Exit? || op.Exec?)
    requires e.out != Refused && (op.Touch? || op.Write?) ==> op.rel < WINDOW && op.i < SIZE
    requires e.out != Refused && op.Deliver? ==> op.page <= op.to < op.page + op.n <= WINDOW * SIZE
    ensures Look(EagerStep(f, op, e).pages, d, i) == Look(f.pages, d, i)
  {
    hide Own; hide Owned;
    if op.Deliver? && e.out == Done {
      LookOwned(f.pages, WINDOW * op.p * SIZE + op.page, op.n, e.directory, d, i);
      var at := WINDOW * op.p * SIZE + op.to;
      assert WINDOW * op.p <= at / SIZE < WINDOW * op.p + WINDOW;
    }
  }
}
