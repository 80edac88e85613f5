/** Kernel stores to user memory without verify_area: sys_pipe puts its two descriptor numbers with
    put_fs_long (fs/pipe.c:89-90).  The processor does not check them against the write bit, so that they
    reach every address that shares the page. */
module PagingUnverified {
  import opened Counting
  import opened Paging
  import opened PagingSteps
  import opened PagingLoops
  import opened PagingRun
  import opened PagingDirectory
  import opened PagingStart

  /** put_fs_long of task p at word off of address (d, i): the page fault, if it is not mapped, then the store. */
  function DoPut(s: Sys, p: nat, d: nat, i: nat, off: nat, w: Word): (r: (Sys, Outcome))
    requires Shape(s.m) && LiveTask(s, p) && d < SIZE && i < SIZE && off < SIZE
  {
    var (s1, out) := DoTouch(s, p, d, i);
    if out.Killed? || !Mapped(s1.m, d, i) || Pte(s1.m, d, i).frame >= HIGH then (s1, out)
    else (s1.(m := SetWord(s1.m, Pte(s1.m, d, i).frame, off, w)), Done)
  }

  // ----- whom the store reaches -----

  /** A store to frame f, other than the page directory, is seen at every address that maps f and nowhere else. */
  lemma PutReaches(m: Mem, held: seq<nat>, d: nat, i: nat, off: nat, w: Word)
    requires Inv(m, held) && 16 <= d < SIZE && Mapped(m, d, i) && Pte(m, d, i).frame != 0 && off < SIZE
    ensures Pte(m, d, i).frame < HIGH
    ensures var f := Pte(m, d, i).frame;
            var m' := SetWord(m, f, off, w);
            && Shape(m') && m'.ram[0] == m.ram[0]
            && forall e, j | 16 <= e < SIZE && 0 <= j < SIZE ::
                 At(m', e, j) == if Mapped(m, e, j) && Pte(m, e, j).frame == f then Shown(m.ram[f][off := w])
                     else At(m, e, j)
  {
    hide Refs, Exact;
    assert GoodEntry(m, Pte(m, d, i));
    var f := Pte(m, d, i).frame;
    var m' := SetWord(m, f, off, w);
    assert Shape(m') && m'.ram[0] == m.ram[0];
    SameDirectory(m, m');
    forall e, j | 16 <= e < SIZE && 0 <= j < SIZE
      ensures At(m', e, j) == if Mapped(m, e, j) && Pte(m, e, j).frame == f then Shown(m.ram[f][off := w])
        else At(m, e, j)
    {
      if Dir(m, e) { PageIsNoTable(m, held, d, i, e); }
    }
  }

  /** Every other address shows what it showed, and the kernel image is as it was. */
  ghost predicate Contained(m: Mem, m': Mem, d: nat, i: nat)
  {
    && Shape(m) && Shape(m')
    && (forall e, j | 16 <= e < SIZE && 0 <= j < SIZE && (e, j) != (d, i) :: At(m', e, j) == At(m, e, j))
    && (forall f | 0 <= f < LOW :: m'.ram[f] == m.ram[f])
  }

  /** A store that changes a word is contained exactly if the page is private. */
  lemma PutContainedIff(m: Mem, held: seq<nat>, d: nat, i: nat, off: nat, w: Word)
    requires Inv(m, held) && 16 <= d < SIZE && Mapped(m, d, i) && off < SIZE
    requires Pte(m, d, i).frame < HIGH ==> m.ram[Pte(m, d, i).frame][off] != w
    ensures Pte(m, d, i).frame < HIGH
    ensures Contained(m, SetWord(m, Pte(m, d, i).frame, off, w), d, i) <==> Private(m, Pte(m, d, i).frame)
  {
    hide Refs, Exact, At;
    assert GoodEntry(m, Pte(m, d, i));
    var f := Pte(m, d, i).frame;
    if f < LOW {
      assert SetWord(m, f, off, w).ram[f][off] != m.ram[f][off];
    } else {
      PutReaches(m, held, d, i, off, w);
      if Private(m, f) {
        PrivateIsAlone(m, held, d, i);
      } else {
        var e, j := SharedWith(m, held, d, i);
        MappedShows(m, e, j);
        assert m.ram[f][off := w][off] != m.ram[f][off];
      }
    }
  }

  lemma MappedShows(m: Mem, d: nat, i: nat)
    requires Shape(m) && 16 <= d < SIZE && Mapped(m, d, i) && 0 < Pte(m, d, i).frame < HIGH
    ensures At(m, d, i) == Shown(m.ram[Pte(m, d, i).frame])
  {}

  lemma PrivateIsAlone(m: Mem, held: seq<nat>, d: nat, i: nat)
    requires Inv(m, held) && 16 <= d < SIZE && Mapped(m, d, i) && Private(m, Pte(m, d, i).frame)
    ensures forall e: nat, j: nat | 16 <= e < SIZE && Mapped(m, e, j) && (e, j) != (d, i) ::
      Pte(m, e, j).frame != Pte(m, d, i).frame
  {
    hide Refs;
    forall e: nat, j: nat | 16 <= e < SIZE && Mapped(m, e, j) && (e, j) != (d, i)
        ensures Pte(m, e, j).frame != Pte(m, d, i).frame {
      if Pte(m, e, j).frame == Pte(m, d, i).frame { TwoPages(m, e, j, d, i); }
    }
  }

  /** A page of the paging area that is not private is mapped at a second address. */
  lemma SharedWith(m: Mem, held: seq<nat>, d: nat, i: nat) returns (e: nat, j: nat)
    requires Inv(m, held) && 16 <= d < SIZE && Mapped(m, d, i) && LOW <= Pte(m, d, i).frame < HIGH
      && !Private(m, Pte(m, d, i).frame)
    ensures 16 <= e < SIZE && Mapped(m, e, j) && (e, j) != (d, i) && Pte(m, e, j).frame == Pte(m, d, i).frame
  {
    hide Total;
    var f := Pte(m, d, i).frame;
    RefsOfPage(m, d, i);
    assert held[f - LOW] == 0 && Refs(m, f) >= 2;
    var k;
    e, k := SecondReference(m, d, i);
    if k == 0 { PageIsNoTable(m, held, d, i, e); }
    j := k - 1;
  }

  lemma SecondReference(m: Mem, d: nat, i: nat) returns (e: nat, k: nat)
    requires Shape(m) && 16 <= d < SIZE && Mapped(m, d, i) && Refs(m, Pte(m, d, i).frame) >= 2
      && Pte(m, d, i).frame != 0
    ensures 16 <= e < SIZE && Dir(m, e) && k < |Row(m, e)| && Row(m, e)[k] == Pte(m, d, i).frame && (e, k) != (d, i + 1)
  {
    hide Total;
    var f := Pte(m, d, i).frame;
    var row := Row(m, d)[i + 1 := 0];
    assert Row(m, d)[i + 1] == f;
    CountUpdate(Row(m, d), i + 1, 0, f);
    TotalUpdate(Rows(m), d, row, f);
    var rows := Rows(m)[d := row];
    e := TotalWitness(rows, f);
    k := CountWitness(rows[e], f);
    assert |rows[e]| == |Row(m, e)|;
  }

  // ----- a store that is contained acts as a store of the program -----

  lemma PutRefines(s: Sys, p: nat, rel: nat, i: nat, off: nat, w: Word, f: Flat)
    requires SysInv(s) && LiveTask(s, p) && Refines(s, f) && rel < WINDOW && i < SIZE && off < SIZE
    requires Mapped(s.m, WINDOW * p + rel, i) ==> Private(s.m, Pte(s.m, WINDOW * p + rel, i).frame)
    ensures var (s', out) := DoPut(s, p, WINDOW * p + rel, i, off, w);
            SysInv(s') && Refines(s', EagerStep(f, Write(p, rel, i, off, w), Event(out, s.m.ram[0])))
  {
    hide Refs; hide Exact; hide At; hide Inv; hide Shape; hide DoTouch; hide Shows; hide EagerStore; hide Own;
    var d := WINDOW * p + rel;
    SysShape(s);
    TouchStep(s, p, rel, i, f);
    var (s1, out) := DoTouch(s, p, d, i);
    SysShape(s1);
    if out == Done {
      SysIsInv(s1);
      MappedIsSeen(s1.m, Held(s1), d, i);
      TouchThenStore(f, p, rel, i, off, w, s.m.ram[0]);
      StoreRefines(s1, d, i, off, w, EagerStep(f, Touch(p, rel, i), Event(Done, s.m.ram[0])), s.m.ram[0]);
    }
  }

  // ----- after a fork the store reaches the parent -----

  /** The frame an address names: 0 where nothing is mapped or the page directory is. */
  function FrameAt(m: Mem, d: nat, i: nat): nat
    requires Shape(m)
  {
    if Mapped(m, d, i) then Pte(m, d, i).frame else 0
  }

  lemma {:induction false} CopyEntriesFrames(m: Mem, held: seq<nat>, fd: nat, td: nat, k: nat)
    requires Inv(m, held) && 16 <= fd < SIZE && 16 <= td < SIZE && fd != td && k <= SIZE && Dir(m, fd) && Dir(m, td)
    requires forall j | k <= j < SIZE :: m.ram[T(m, td)][j] == ZERO
    ensures T(m, fd) < HIGH && T(m, td) < HIGH
    ensures var m' := CopyEntries(m, T(m, fd), T(m, td), k, SIZE);
            forall i | k <= i < SIZE :: FrameAt(m', td, i) == FrameAt(m, fd, i)
    ensures var m' := CopyEntries(m, T(m, fd), T(m, td), k, SIZE);
            forall i | 0 <= i < k :: FrameAt(m', td, i) == FrameAt(m, td, i)
    decreases SIZE - k
  {
    hide Refs; hide At; hide CopyEntry; hide Exact; hide FrameAt; hide GoodEntry; hide HeldAlone; hide Tidy;
    InvApart(m, held);
    if k < SIZE {
      CopyEntryStep(m, held, fd, td, k);
      CopyEntryFrames(m, held, fd, td, k);
      var m1 := CopyEntry(m, T(m, fd), T(m, td), k);
      SameDirectory(m, m1);
      CopyEntriesFrames(m1, held, fd, td, k + 1);
    }
  }

  lemma CopyEntryFrames(m: Mem, held: seq<nat>, fd: nat, td: nat, k: nat)
    requires Shape(m) && Apart(m) && 16 <= fd < SIZE && 16 <= td < SIZE && fd != td && k < SIZE && Dir(m, fd)
      && Dir(m, td)
    requires m.ram[T(m, td)][k] == ZERO
    ensures T(m, fd) < HIGH && T(m, td) < HIGH
    ensures var m' := CopyEntry(m, T(m, fd), T(m, td), k);
            && Shape(m') && FrameAt(m', td, k) == FrameAt(m, fd, k)
            && forall i | 0 <= i < SIZE ::
              FrameAt(m', fd, i) == FrameAt(m, fd, i) && (i != k ==> FrameAt(m', td, i) == FrameAt(m, td, i))
  {
    var m' := CopyEntry(m, T(m, fd), T(m, td), k);
    assert m'.ram[0] == m.ram[0];
    SameDirectory(m, m');
  }

  lemma CopyTableFrames(m: Mem, held: seq<nat>, from: nat, to: nat)
    requires Inv(m, held) && 16 <= from < SIZE && 16 <= to < SIZE && from != to && !Dir(m, to)
    ensures var r := CopyTable(m, from, to, SIZE);
            r.1 ==> forall i | 0 <= i < SIZE :: FrameAt(r.0, to, i) == FrameAt(m, from, i)
  {
    hide Refs; hide At; hide Row; hide Exact; hide AddTable; hide CopyEntries; hide GoodEntry; hide HeldAlone;
    hide Tidy;
    if Dir(m, from) {
      AddTableStep(m, held, to);
      AddTableRows(m, held, to);
      var (m1, ok) := AddTable(m, to);
      if ok {
        assert Dir(m1, from) && m1.ram[T(m1, to)] == ZeroPage();
        CopyEntriesFrames(m1, held, from, to, 0);
        RowFrames(m, m1, from);
      }
    }
  }

  /** Equal rows name equal frames. */
  lemma RowFrames(m: Mem, m': Mem, d: nat)
    requires Shape(m) && Shape(m') && 16 <= d < SIZE && Row(m', d) == Row(m, d)
    ensures forall i | 0 <= i < SIZE :: FrameAt(m', d, i) == FrameAt(m, d, i)
  {
    forall i | 0 <= i < SIZE ensures FrameAt(m', d, i) == FrameAt(m, d, i) {
      assert |Row(m, d)| == if Dir(m, d) then SIZE + 1 else 0;
      assert |Row(m', d)| == if Dir(m', d) then SIZE + 1 else 0;
      if Dir(m, d) {
        assert Row(m, d)[i + 1] == FrameAt(m, d, i);
        assert Row(m', d)[i + 1] == FrameAt(m', d, i);
      }
    }
  }

  lemma {:induction false} CopyTablesFrames(m: Mem, held: seq<nat>, from: nat, to: nat, n: nat, r: (Mem, bool))
    requires Shape(m) && Inv(m, held) && 16 <= from && 16 <= to && from + n <= SIZE && to + n <= SIZE
    requires from + n <= to || to + n <= from
    requires forall d | to <= d < to + n :: !Dir(m, d)
    requires r == CopyTables(m, from, to, n, SIZE) && r.1
    ensures Shape(r.0) && forall d, i | to <= d < to + n && 0 <= i < SIZE ::
      FrameAt(r.0, d, i) == FrameAt(m, d - to + from, i)
    decreases n
  {
    hide *;
    CopyTablesTurn(m, from, to, n);
    CopyTurns(m, held, from, to, n, r);
    InvShape(r.0, held);
    if n > 0 {
      CopyTableStep(m, held, from, to);
      CopyTableFrames(m, held, from, to);
      var m1 := CopyTable(m, from, to, SIZE).0;
      EmptyStill(m, m1, from, to, n);
      CopyTurns(m1, held, from + 1, to + 1, n - 1, r);
      CopyTablesFrames(m1, held, from + 1, to + 1, n - 1, r);
      FramesTogether(m, m1, r.0, from, to, n, r.1);
    }
  }

  lemma FramesTogether(m: Mem, m1: Mem, m': Mem, from: nat, to: nat, n: nat, ok: bool)
    requires Shape(m) && Shape(m1) && Shape(m') && n > 0 && 16 <= from && 16 <= to && from + n <= SIZE && to + n <= SIZE
    requires from + n <= to || to + n <= from
    requires TablesCopied(m, m1, from, to, 1, true) && TablesCopied(m1, m', from + 1, to + 1, n - 1, ok)
    requires forall i | 0 <= i < SIZE :: FrameAt(m1, to, i) == FrameAt(m, from, i)
    requires forall d, i | to + 1 <= d < to + n && 0 <= i < SIZE ::
      FrameAt(m', d, i) == FrameAt(m1, d - (to + 1) + (from + 1), i)
    ensures forall d, i | to <= d < to + n && 0 <= i < SIZE :: FrameAt(m', d, i) == FrameAt(m, d - to + from, i)
  {
    hide At; hide Row; hide FrameAt;
    forall d, i | to <= d < to + n && 0 <= i < SIZE ensures FrameAt(m', d, i) == FrameAt(m, d - to + from, i) {
      if d == to {
        RowFrames(m1, m', to);
      } else {
        RowFrames(m, m1, d - to + from);
        assert FrameAt(m', d, i) == FrameAt(m1, d - (to + 1) + (from + 1), i);
      }
    }
  }

  /** fork leaves parent and child the same frames. */
  lemma ForkFrames(s: Sys, p: nat, rel: nat, i: nat)
    requires SysInv(s) && LiveTask(s, p) && rel < WINDOW && i < SIZE && DoFork(s, p).1 == Done
    ensures var (m', nr) := (DoFork(s, p).0.m, FirstVacant(s.task, 1));
            && nr < NR_TASKS && Shape(m')
            && FrameAt(m', WINDOW * p + rel, i) == FrameAt(s.m, WINDOW * p + rel, i)
              == FrameAt(m', WINDOW * nr + rel, i)
  {
    hide Refs; hide Exact; hide At; hide TablesUnshared; hide HeldAlone; hide GoodEntry; hide Tidy; hide CopyTables;
    hide FreeTables;
    hide Row; hide FrameAt;
    var nr := FirstVacant(s.task, 1);
    GetFreePageStep(s.m, Held(s));
    var (m1, page) := GetFreePage(s.m);
    SameDirectory(s.m, m1);
    TakenFrames(s.m, Held(s), WINDOW * p + rel, i);
    var r := CopyTables(m1, WINDOW * p, WINDOW * nr, WINDOW, SIZE);
    CopyTablesFrames(m1, Hold(Held(s), page, 1), WINDOW * p, WINDOW * nr, WINDOW, r);
    CopyTablesLoop(m1, Hold(Held(s), page, 1), WINDOW * p, WINDOW * nr, WINDOW);
    RowFrames(m1, r.0, WINDOW * p + rel);
    assert FrameAt(r.0, WINDOW * nr + rel, i) == FrameAt(m1, WINDOW * nr + rel - WINDOW * nr + WINDOW * p, i);
  }

  lemma TakenFrames(m: Mem, held: seq<nat>, d: nat, i: nat)
    requires Inv(m, held) && 16 <= d < SIZE && i < SIZE && GetFreePage(m).1 != 0
    ensures Shape(GetFreePage(m).0) && FrameAt(GetFreePage(m).0, d, i) == FrameAt(m, d, i)
  {
    hide Refs;
    GetFreePageStep(m, held);
    SameDirectory(m, GetFreePage(m).0);
  }

  /** v' shows the page that v shows, with w at word off. */
  predicate Stored(v: Seen, v': Seen, off: nat, w: Word)
  {
    v.Shown? && off < |v.page| && v' == Shown(v.page[off := w])
  }

  /** After a fork a store of this kind by the child, to any page but one that shows the page directory,
      is seen by the parent, and at the same address. */
  lemma PutReachesParent(s: Sys, p: nat, s1: Sys, nr: nat, rel: nat, i: nat, off: nat, w: Word)
    requires Shape(s.m) && SysInv(s) && LiveTask(s, p) && rel < WINDOW && i < SIZE && off < SIZE
    requires Step(s, Fork(p)) == (s1, Done) && nr == FirstVacant(s.task, 1) && FrameAt(s.m, WINDOW * p + rel, i) != 0
    ensures SysInv(s1) && LiveTask(s1, nr) && At(s1.m, WINDOW * p + rel, i) == At(s.m, WINDOW * p + rel, i)
    ensures PutSeen(s1, DoPut(s1, nr, WINDOW * nr + rel, i, off, w).0, WINDOW * p + rel, WINDOW * nr + rel, i, off, w)
  {
    hide At; hide DoFork; hide DoPut; hide FrameAt; hide PutSeen; hide SysInv; hide Inv; hide Shape; hide Refines;
    hide EagerStep;
    hide FirstVacant; hide Step;
    StepFork(s, p);
    ObservedRefines(s);
    ForkStep(s, p, Observed(s));
    ForkFrames(s, p, rel, i);
    ForkGivesTask(s, p);
    FramesSeen(s, p, rel, i);
    PutOnShared(s1, nr, WINDOW * p + rel, WINDOW * nr + rel, i, off, w);
  }

  /** Addresses (d, i) and (d', i) showed the same page, and show it with w stored. */
  ghost predicate PutSeen(s: Sys, s': Sys, d: nat, d': nat, i: nat, off: nat, w: Word)
  {
    && Shape(s.m) && Shape(s'.m)
    && At(s.m, d', i) == At(s.m, d, i) && At(s'.m, d', i) == At(s'.m, d, i)
    && Stored(At(s.m, d, i), At(s'.m, d, i), off, w)
  }

  lemma FramesSeen(s: Sys, p: nat, rel: nat, i: nat)
    requires SysInv(s) && LiveTask(s, p) && rel < WINDOW && i < SIZE && DoFork(s, p).1 == Done
    requires FrameAt(s.m, WINDOW * p + rel, i) != 0 && Shape(DoFork(s, p).0.m)
    ensures At(s.m, WINDOW * p + rel, i).Shown?
      && At(DoFork(s, p).0.m, WINDOW * p + rel, i) == At(s.m, WINDOW * p + rel, i)
  {
    hide Refs; hide Exact; hide DoFork;
    var d := WINDOW * p + rel;
    assert GoodEntry(s.m, Pte(s.m, d, i));
    ParentKeepsView(s, p, rel, i);
  }

  lemma ParentKeepsView(s: Sys, p: nat, rel: nat, i: nat)
    requires SysInv(s) && LiveTask(s, p) && rel < WINDOW && i < SIZE && DoFork(s, p).1 == Done
      && Shape(DoFork(s, p).0.m)
    ensures At(DoFork(s, p).0.m, WINDOW * p + rel, i) == At(s.m, WINDOW * p + rel, i)
  {
    hide Refs; hide Exact; hide At; hide TablesUnshared; hide HeldAlone; hide GoodEntry; hide Tidy; hide CopyTables;
    hide FreeTables; hide Row;
    var nr := FirstVacant(s.task, 1);
    GetFreePageStep(s.m, Held(s));
    var (m1, page) := GetFreePage(s.m);
    SameDirectory(s.m, m1);
    CopyTablesLoop(m1, Hold(Held(s), page, 1), WINDOW * p, WINDOW * nr, WINDOW);
  }

  lemma PutOnShared(s: Sys, p: nat, d: nat, d': nat, i: nat, off: nat, w: Word)
    requires SysInv(s) && LiveTask(s, p) && 16 <= d < SIZE && 16 <= d' < SIZE && i < SIZE && off < SIZE
    requires FrameAt(s.m, d, i) == FrameAt(s.m, d', i) != 0
    ensures PutSeen(s, DoPut(s, p, d', i, off, w).0, d, d', i, off, w)
  {
    hide Refs; hide Exact;
    assert GoodEntry(s.m, Pte(s.m, d', i));
    MappedShows(s.m, d, i);
    MappedShows(s.m, d', i);
    PutReaches(s.m, Held(s), d', i, off, w);
    hide At;
  }

  /** From boot: init forks, and the child's pipe call changes what init reads; with its argument at address 0
      it writes a descriptor number into the page directory. */
  lemma PipeReachesInit(s: Sys, off: nat, w: Word)
    requires Booted(s) && off < SIZE && s.m.ram[1][off] != w
    ensures var s1 := FirstFork(s).0;
            var (s2, forked) := Step(s1, Fork(1));
            && forked == Done && LiveTask(s2, 2)
            && var s3, s4 := DoPut(s2, 2, 2 * WINDOW, 1, off, w).0, DoPut(s2, 2, 2 * WINDOW, 0, off, w).0;
            && Shape(s3.m) && At(s3.m, WINDOW, 1) != At(s2.m, WINDOW, 1)
            && |s4.m.ram| == HIGH && s4.m.ram[0] == s2.m.ram[0][off := w]
  {
    FirstForkStep(s);
    var s1 := FirstFork(s).0;
    SysShape(s1);
    InitForks(s, s1);
    StepFork(s1, 1);
    ImageFrame(s, s1);
    FirstSlots(s1);
    hide SysInv; hide Step; hide At; hide Booted; hide FirstFork; hide Refines; hide DoFork; hide FrameAt; hide DoPut;
    hide Shape; hide FirstVacant;
    var s2 := DoFork(s1, 1).0;
    PutReachesParent(s1, 1, s2, 2, 0, 1, off, w);
    PutOnDirectory(s2, 2, 2 * WINDOW, off, w);
    assert s.m.ram[1][off := w][off] != s.m.ram[1][off];
  }

  lemma FirstSlots(s1: Sys)
    requires |s1.task| == NR_TASKS && s1.task[1].Live? && s1.task[2].Vacant?
    ensures FirstVacant(s1.task, 1) == 2
  {
    assert FirstVacant(s1.task, 2) == 2;
  }

  /** Page 1 of task 1 shows kernel frame 1. */
  lemma ImageFrame(s: Sys, s1: Sys)
    requires Booted(s) && Shape(s1.m) && Refines(s1, FirstFlat(s))
    ensures At(s1.m, WINDOW, 1) == Shown(s.m.ram[1]) && FrameAt(s1.m, WINDOW, 1) != 0
  {
    assert At(s1.m, WINDOW, 1) == Look(FirstFlat(s).pages, WINDOW, 1);
  }

  lemma PutOnDirectory(s: Sys, p: nat, d: nat, off: nat, w: Word)
    requires Shape(s.m) && LiveTask(s, p) && d < SIZE && off < SIZE && At(s.m, d, 0) == Directory
    ensures var s' := DoPut(s, p, d, 0, off, w).0; |s'.m.ram| == HIGH && s'.m.ram[0] == s.m.ram[0][off := w]
  {}
}
