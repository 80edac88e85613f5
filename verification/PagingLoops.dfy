/** The loops of copy_page_tables and free_page_tables, and the faults of mm/memory.c. */
module PagingLoops {
  import opened Counting
  import opened Paging
  import opened PagingSteps

  /** The inner loop of copy_page_tables, from entry k to entry n. */
  function CopyEntries(m: Mem, ft: nat, tt: nat, k: nat, n: nat): (r: Mem)
    requires Shape(m) && 0 < ft < HIGH && 0 < tt < HIGH && k <= n <= SIZE
    ensures Shape(r) && r.ram[0] == m.ram[0]
    decreases n - k
  {
    if k == n then m else CopyEntries(CopyEntry(m, ft, tt, k), ft, tt, k + 1, n)
  }

  /** One turn of the outer loop of copy_page_tables; false when there is no page for the table. */
  function CopyTable(m: Mem, from: nat, to: nat, nr: nat): (r: (Mem, bool))
    requires Shape(m) && from < SIZE && to < SIZE && nr <= SIZE
    ensures Shape(r.0)
  {
    if !Dir(m, from) then (m, true)
    else
      var (m1, ok) := AddTable(m, to);
      if ok then (CopyEntries(m1, T(m1, from), T(m1, to), 0, nr), true) else (m, false)
  }

  /** copy_page_tables over n directory entries, nr entries of each; false when memory ran out. */
  function CopyTables(m: Mem, from: nat, to: nat, n: nat, nr: nat): (r: (Mem, bool))
    requires Shape(m) && from + n <= SIZE && to + n <= SIZE && nr <= SIZE
    ensures Shape(r.0)
    decreases n
  {
    if n == 0 then (m, true)
    else
      var (m1, ok) := CopyTable(m, from, to, nr);
      if ok then CopyTables(m1, from + 1, to + 1, n - 1, nr) else (m1, false)
  }

  /** The inner loop of free_page_tables. */
  function ClearEntries(m: Mem, t: nat, k: nat): (r: Mem)
    requires Shape(m) && 0 < t < HIGH && k <= SIZE
    ensures Shape(r) && r.ram[0] == m.ram[0]
    decreases SIZE - k
  {
    if k == SIZE then m else ClearEntries(ClearEntry(m, t, k), t, k + 1)
  }

  /** free_page_tables over n directory entries. */
  function FreeTables(m: Mem, d: nat, n: nat): (r: Mem)
    requires Shape(m) && d + n <= SIZE
    ensures Shape(r)
    decreases n
  {
    if n == 0 then m
    else if !Dir(m, d) then FreeTables(m, d + 1, n - 1)
    else FreeTables(DropTable(ClearEntries(m, T(m, d), 0), d), d + 1, n - 1)
  }

  /** do_no_page: the page fault on an unmapped address.  The last component is the page that is lost
      when get_free_page succeeds but the page table cannot be allocated; 0 when none is. */
  function NoPage(m: Mem, d: nat, i: nat): (r: (Mem, bool, nat))
    requires Shape(m) && d < SIZE && i < SIZE
    ensures Shape(r.0)
  {
    var (m1, page) := GetFreePage(m);
    if page == 0 then (m, false, 0)
    else
      var (m2, ok) := if Dir(m1, d) then (m1, true) else AddTable(m1, d);
      if ok then (Install(m2, d, i, page), true, 0) else (m1, false, page)
  }

  /** write_verify: un-share the page at (d, i) when it is present and read-only. */
  function WriteVerify(m: Mem, d: nat, i: nat): (r: (Mem, bool))
    requires Shape(m) && d < SIZE && i < SIZE
    ensures Shape(r.0)
  {
    if Mapped(m, d, i) && !Pte(m, d, i).rw then UnWp(m, T(m, d), i) else (m, true)
  }

  /** verify_area over n pages from linear page number page on; false when memory ran out. */
  function VerifyArea(m: Mem, page: nat, n: nat): (r: (Mem, bool))
    requires Shape(m) && page + n <= SIZE * SIZE
    ensures Shape(r.0)
    decreases n
  {
    if n == 0 then (m, true)
    else
      var (m1, ok) := WriteVerify(m, page / SIZE, page % SIZE);
      if ok then VerifyArea(m1, page + 1, n - 1) else (m1, false)
  }

  // ----- what the loops achieve -----

  lemma CopyEntryRows(m: Mem, fd: nat, td: nat, i: nat)
    requires Shape(m) && Apart(m) && 16 <= fd < SIZE && 16 <= td < SIZE && fd != td && i < SIZE
    requires Dir(m, fd) && Dir(m, td)
    ensures var m' := CopyEntry(m, T(m, fd), T(m, td), i);
            && Shape(m') && m'.ram[0] == m.ram[0]
            && forall d | 0 <= d < SIZE && d != td :: Row(m', d) == Row(m, d)
  {
    var m' := CopyEntry(m, T(m, fd), T(m, td), i);
    assert Shape(m') && m'.ram[0] == m.ram[0];
    SameDirectory(m, m');
    forall d | 0 <= d < SIZE && d != td ensures Row(m', d) == Row(m, d) {
      if d == fd { assert Frames(m'.ram[T(m, fd)]) == Frames(m.ram[T(m, fd)]); }
    }
  }

  lemma ClearEntryRows(m: Mem, d: nat, i: nat)
    requires Shape(m) && Apart(m) && 16 <= d < SIZE && i < SIZE && Dir(m, d)
    ensures var m' := ClearEntry(m, T(m, d), i);
            && Shape(m') && m'.ram[0] == m.ram[0]
            && forall e | 0 <= e < SIZE && e != d :: Row(m', e) == Row(m, e)
  {
    var m' := ClearEntry(m, T(m, d), i);
    assert Shape(m') && m'.ram[0] == m.ram[0];
    SameDirectory(m, m');
  }

  lemma DropTableRows(m: Mem, d: nat)
    requires Shape(m) && Apart(m) && 16 <= d < SIZE && Dir(m, d)
    ensures var m' := DropTable(m, d);
            && Shape(m') && !Dir(m', d)
            && forall e | 0 <= e < SIZE && e != d :: Dir(m', e) == Dir(m, e) && Row(m', e) == Row(m, e)
  {
    var m' := DropTable(m, d);
    assert Shape(m') && m'.ram[0] == m.ram[0][d := ZERO];
    DirectoryBut(m, m', d, ZERO);
  }

  lemma AddTableRows(m: Mem, held: seq<nat>, d: nat)
    requires Inv(m, held) && 16 <= d < SIZE && !Dir(m, d)
    ensures var m' := AddTable(m, d).0;
            && Shape(m')
            && forall e | 0 <= e < SIZE && e != d :: Dir(m', e) == Dir(m, e) && Row(m', e) == Row(m, e)
  {
    GetFreePageStep(m, held);
    var (m1, t) := GetFreePage(m);
    if t != 0 {
      var m' := SetWord(m1, 0, d, Entry(t));
      assert Shape(m') && m'.ram[0] == m.ram[0][d := Entry(t)];
      DirectoryBut(m, m', d, Entry(t));
      InvApart(m, held);
    }
  }

  lemma {:induction false} CopyEntriesLoop(m: Mem, held: seq<nat>, fd: nat, td: nat, k: nat, n: nat)
    requires Inv(m, held) && 16 <= fd < SIZE && 16 <= td < SIZE && fd != td && k <= n <= SIZE
    requires Dir(m, fd) && Dir(m, td)
    requires forall j | k <= j < SIZE :: m.ram[T(m, td)][j] == ZERO
    ensures T(m, fd) < HIGH && T(m, td) < HIGH
    ensures var m' := CopyEntries(m, T(m, fd), T(m, td), k, n);
            && Inv(m', held)
            && (forall d, i | 16 <= d < SIZE && 0 <= i < SIZE ::
                  At(m', d, i) == if d == td && k <= i < n then At(m, fd, i) else At(m, d, i))
            && (forall d | 0 <= d < SIZE && d != td :: Row(m', d) == Row(m, d))
    decreases n - k
  {
    hide Refs; hide At; hide Row; hide CopyEntry; hide Exact;
    InvApart(m, held);
    if k < n {
      CopyEntryStep(m, held, fd, td, k);
      var m1 := CopyEntry(m, T(m, fd), T(m, td), k);
      SameDirectory(m, m1);
      CopyEntryRows(m, fd, td, k);
      CopyEntriesLoop(m1, held, fd, td, k + 1, n);
    }
  }

  /** From m to m', n whole page tables were copied, if ok: every copied address shows what the original
      shows.  In any case nothing seen elsewhere changed, and no entry elsewhere maps another frame. */
  ghost predicate TablesCopied(m: Mem, m': Mem, from: nat, to: nat, n: nat, ok: bool)
  {
    && Shape(m) && Shape(m') && from + n <= SIZE && to + n <= SIZE
    && (forall d, i | 16 <= d < SIZE && 0 <= i < SIZE && !(to <= d < to + n) :: At(m', d, i) == At(m, d, i))
    && (ok ==> forall d, i | to <= d < to + n && 0 <= i < SIZE :: At(m', d, i) == At(m, d - to + from, i))
    && (ok ==> forall d | to <= d < to + n :: Dir(m', d) == Dir(m, d - to + from))
    && (forall d | 0 <= d < SIZE && !(to <= d < to + n) :: m'.ram[0][d] == m.ram[0][d] && Row(m', d) == Row(m, d))
  }

  /** copy_page_tables with whole tables: on success every copied address shows the parent's page; in
      any case no page seen elsewhere changes, and no entry elsewhere maps another frame. */
  lemma CopyTablesLoop(m: Mem, held: seq<nat>, from: nat, to: nat, n: nat)
    requires Inv(m, held) && 16 <= from && 16 <= to && from + n <= SIZE && to + n <= SIZE
    requires from + n <= to || to + n <= from
    requires forall d | to <= d < to + n :: !Dir(m, d)
    ensures var r := CopyTables(m, from, to, n, SIZE); Inv(r.0, held) && TablesCopied(m, r.0, from, to, n, r.1)
  {
    hide *;
    InvShape(m, held);
    CopyTurns(m, held, from, to, n, CopyTables(m, from, to, n, SIZE));
  }

  lemma {:induction false} CopyTurns(m: Mem, held: seq<nat>, from: nat, to: nat, n: nat, r: (Mem, bool))
    requires Shape(m) && Inv(m, held) && 16 <= from && 16 <= to && from + n <= SIZE && to + n <= SIZE
    requires from + n <= to || to + n <= from
    requires forall d | to <= d < to + n :: !Dir(m, d)
    requires r == CopyTables(m, from, to, n, SIZE)
    ensures Inv(r.0, held) && TablesCopied(m, r.0, from, to, n, r.1)
    decreases n
  {
    hide *;
    CopyTablesTurn(m, from, to, n);
    if n == 0 {
      NothingCopied(m, from, to, 0, true);
    } else {
      CopyTableStep(m, held, from, to);
      var (m1, ok) := CopyTable(m, from, to, SIZE);
      if ok {
        EmptyStill(m, m1, from, to, n);
        CopyTurns(m1, held, from + 1, to + 1, n - 1, r);
        CopiedTogether(m, m1, r.0, from, to, n, r.1);
      } else {
        NothingCopied(m, from, to, n, false);
      }
    }
  }

  lemma CopyTablesTurn(m: Mem, from: nat, to: nat, n: nat)
    requires Shape(m) && from + n <= SIZE && to + n <= SIZE
    ensures n == 0 ==> CopyTables(m, from, to, n, SIZE) == (m, true)
    ensures n > 0 ==>
      var r := CopyTable(m, from, to, SIZE);
      CopyTables(m, from, to, n, SIZE) == if r.1 then CopyTables(r.0, from + 1, to + 1, n - 1, SIZE) else r
  {
    hide CopyTable;
  }

  lemma NothingCopied(m: Mem, from: nat, to: nat, n: nat, ok: bool)
    requires Shape(m) && from + n <= SIZE && to + n <= SIZE && (ok ==> n == 0)
    ensures TablesCopied(m, m, from, to, n, ok)
  {}

  lemma EmptyStill(m: Mem, m2: Mem, from: nat, to: nat, n: nat)
    requires Shape(m) && Shape(m2) && n > 0 && from + n <= SIZE && to + n <= SIZE
      && TablesCopied(m, m2, from, to, 1, true)
    requires forall d | to <= d < to + n :: !Dir(m, d)
    ensures forall d | to + 1 <= d < to + n :: !Dir(m2, d)
  {
    forall d | to + 1 <= d < to + n ensures !Dir(m2, d) {
      assert m2.ram[0][d] == m.ram[0][d] && !Dir(m, d);
    }
  }

  lemma CopiedTogether(m: Mem, m2: Mem, m': Mem, from: nat, to: nat, n: nat, ok: bool)
    requires Shape(m) && Shape(m2) && Shape(m') && n > 0 && from + n <= SIZE && to + n <= SIZE
      && (from + n <= to || to + n <= from)
    requires TablesCopied(m, m2, from, to, 1, true) && TablesCopied(m2, m', from + 1, to + 1, n - 1, ok) && 16 <= from
      && 16 <= to
    ensures TablesCopied(m, m', from, to, n, ok)
  {
    hide At; hide Row;
    forall d: nat | d < SIZE && !(to <= d < to + n) ensures m'.ram[0][d] == m.ram[0][d] && Row(m', d) == Row(m, d) {
      assert m'.ram[0][d] == m2.ram[0][d] && Row(m', d) == Row(m2, d) && Row(m2, d) == Row(m, d);
    }
    forall d: nat, i: nat | 16 <= d < SIZE && i < SIZE && !(to <= d < to + n) ensures At(m', d, i) == At(m, d, i) {
      assert At(m', d, i) == At(m2, d, i);
    }
    if ok {
      forall d: nat | to <= d < to + n ensures Dir(m', d) == Dir(m, d - to + from) {
        if d == to {
          assert m'.ram[0][to] == m2.ram[0][to] && Dir(m2, to) == Dir(m, to - to + from);
        } else {
          assert Dir(m', d) == Dir(m2, d - (to + 1) + (from + 1));
          assert m2.ram[0][d - to + from] == m.ram[0][d - to + from];
        }
      }
      forall d: nat, i: nat | to <= d < to + n && i < SIZE ensures At(m', d, i) == At(m, d - to + from, i) {
        if d == to {
          assert At(m', to, i) == At(m2, to, i);
          assert At(m2, to, i) == At(m, to - to + from, i);
        } else {
          assert At(m', d, i) == At(m2, d - (to + 1) + (from + 1), i);
          assert At(m2, d - to + from, i) == At(m, d - to + from, i);
        }
      }
    }
  }

  lemma CopyTableStep(m: Mem, held: seq<nat>, from: nat, to: nat)
    requires Inv(m, held) && 16 <= from < SIZE && 16 <= to < SIZE && from != to && !Dir(m, to)
    ensures var (m1, ok) := CopyTable(m, from, to, SIZE);
            && (!ok ==> m1 == m)
            && (ok ==> Inv(m1, held) && TablesCopied(m, m1, from, to, 1, true))
  {
    hide Refs; hide At; hide Row; hide Exact; hide AddTable; hide CopyEntries; hide GoodEntry; hide HeldAlone;
    hide Tidy;
    if !Dir(m, from) {
      EmptyDirectoryEntry(m, from, to);
    } else {
      AddTableStep(m, held, to);
      AddTableRows(m, held, to);
      var (m1, ok) := AddTable(m, to);
      if ok {
        assert Dir(m1, from) && m1.ram[T(m1, to)] == ZeroPage();
        CopyEntriesLoop(m1, held, from, to, 0, SIZE);
        SameDirectory(m1, CopyEntries(m1, T(m1, from), T(m1, to), 0, SIZE));
      }
    }
  }

  lemma EmptyDirectoryEntry(m: Mem, from: nat, to: nat)
    requires Shape(m) && from < SIZE && to < SIZE && !Dir(m, from) && !Dir(m, to)
    ensures TablesCopied(m, m, from, to, 1, true)
  {}

  lemma {:induction false} ClearEntriesLoop(m: Mem, held: seq<nat>, d: nat, k: nat)
    requires Inv(m, held) && 16 <= d < SIZE && k <= SIZE && Dir(m, d)
    requires forall j | 0 <= j < k :: m.ram[T(m, d)][j] == ZERO
    ensures T(m, d) < HIGH
    ensures var m' := ClearEntries(m, T(m, d), k);
            && Inv(m', held) && m'.ram[T(m, d)] == ZeroPage()
            && (forall e, i | 16 <= e < SIZE && 0 <= i < SIZE && e != d :: At(m', e, i) == At(m, e, i))
            && (forall e | 0 <= e < SIZE && e != d :: Row(m', e) == Row(m, e))
    decreases SIZE - k
  {
    hide Refs; hide At; hide Row; hide ClearEntry; hide Exact;
    InvApart(m, held);
    if k < SIZE {
      ClearEntryStep(m, held, d, k);
      ClearEntryRows(m, d, k);
      var m1 := ClearEntry(m, T(m, d), k);
      SameDirectory(m, m1);
      ClearEntriesLoop(m1, held, d, k + 1);
    } else {
      assert m.ram[T(m, d)] == ZeroPage();
    }
  }

  /** free_page_tables: nothing is mapped in the range afterwards, and all else stays as it was. */
  lemma {:induction false} FreeTablesLoop(m: Mem, held: seq<nat>, d: nat, n: nat)
    requires Inv(m, held) && 16 <= d && d + n <= SIZE
    ensures var m' := FreeTables(m, d, n);
            && Inv(m', held)
            && (forall e, i | 16 <= e < SIZE && 0 <= i < SIZE ::
              At(m', e, i) == if d <= e < d + n then Nothing else At(m, e, i))
            && (forall e | d <= e < d + n :: !Dir(m', e))
            && (forall e | 0 <= e < SIZE && !(d <= e < d + n) :: m'.ram[0][e] == m.ram[0][e] && Row(m', e) == Row(m, e))
    decreases n
  {
    hide Refs; hide Row; hide ClearEntry; hide Exact; hide ClearEntries; hide DropTable; hide GoodEntry; hide HeldAlone;
    if n > 0 {
      if !Dir(m, d) {
        FreeTablesLoop(m, held, d + 1, n - 1);
      } else {
        ClearEntriesLoop(m, held, d, 0);
        var m1 := ClearEntries(m, T(m, d), 0);
        SameDirectory(m, m1);
        DropTableStep(m1, held, d);
        InvApart(m1, held);
        DropTableRows(m1, d);
        FreeTablesLoop(DropTable(m1, d), held, d + 1, n - 1);
      }
    }
  }

  /** The counts follow from the rows: two consistent memories whose rows agree have equal counts. */
  lemma SameRowsSameCounts(m: Mem, m': Mem, held: seq<nat>)
    requires Inv(m, held) && Inv(m', held)
    requires forall d | 0 <= d < SIZE :: Row(m', d) == Row(m, d)
    ensures m'.memMap == m.memMap
  {
    assert Rows(m') == Rows(m);
    forall k | 0 <= k < PAGES ensures m'.memMap[k] == m.memMap[k] {
      assert m.memMap[(LOW + k) - LOW] == Refs(m, LOW + k) + held[k];
      assert m'.memMap[(LOW + k) - LOW] == Refs(m', LOW + k) + held[k];
    }
  }

  /** copy_page_tables, complete or cut short by lack of memory, then free_page_tables of the copy:
      every reference count is what it was, and nobody's pages changed. */
  lemma CopyThenFreeRestores(m: Mem, held: seq<nat>, from: nat, to: nat, n: nat)
    requires Inv(m, held) && 16 <= from && 16 <= to && from + n <= SIZE && to + n <= SIZE
    requires from + n <= to || to + n <= from
    requires forall d | to <= d < to + n :: !Dir(m, d)
    ensures var m' := FreeTables(CopyTables(m, from, to, n, SIZE).0, to, n);
            && Inv(m', held) && m'.memMap == m.memMap && SameView(m, m') && m'.ram[0] == m.ram[0]
  {
    hide Refs;
    var m1 := CopyTables(m, from, to, n, SIZE).0;
    CopyTablesLoop(m, held, from, to, n);
    FreeTablesLoop(m1, held, to, n);
    var m' := FreeTables(m1, to, n);
    SameRowsSameCounts(m, m', held);
    forall d | 0 <= d < SIZE ensures m'.ram[0][d] == m.ram[0][d] {
      if to <= d < to + n { assert !Dir(m, d) && !Dir(m', d); }
    }
  }

  /** do_exit frees the range of the code segment first and then that of the data segment, which
      contains it: together the same as the second alone. */
  lemma {:induction false} FreeTwice(m: Mem, d: nat, c: nat, n: nat)
    requires Shape(m) && d + n <= SIZE && c <= n
    ensures FreeTables(FreeTables(m, d, c), d, n) == FreeTables(m, d, n)
    decreases c
  {
    hide ClearEntries;
    if c > 0 {
      var m1 := if !Dir(m, d) then m else DropTable(ClearEntries(m, T(m, d), 0), d);
      FreeLeavesEarlier(m1, d, d + 1, c - 1);
      FreeTwice(m1, d + 1, c - 1, n - 1);
    }
  }

  lemma {:induction false} FreeLeavesEarlier(m: Mem, e: nat, d: nat, n: nat)
    requires Shape(m) && e < d && d + n <= SIZE
    ensures Dir(FreeTables(m, d, n), e) == Dir(m, e)
    decreases n
  {
    hide ClearEntries;
    if n > 0 {
      var m1 := if !Dir(m, d) then m else DropTable(ClearEntries(m, T(m, d), 0), d);
      FreeLeavesEarlier(m1, e, d + 1, n - 1);
    }
  }

  /** The page fault: on success the address shows a cleared page; when the table allocation fails,
      which is when exactly one frame was free and the page table missing, the page just taken stays counted
      although nothing refers to it. */
  lemma NoPageStep(m: Mem, held: seq<nat>, d: nat, i: nat)
    requires Inv(m, held) && 16 <= d < SIZE && i < SIZE && !Mapped(m, d, i)
    ensures var (m', ok, lost) := NoPage(m, d, i);
            && (ok ==> lost == 0 && Inv(m', held) && OnlyAt(m, m', d, i, Shown(ZeroPage()))
                       && Mapped(m', d, i) && Pte(m', d, i).rw)
            && (!ok ==> SameView(m, m') && m'.ram[0] == m.ram[0] && Inv(m', Hold(held, lost, 1)))
            && (ok <==> Free(m) >= if Dir(m, d) then 1 else 2)
            && (lost != 0 <==> !Dir(m, d) && Free(m) == 1)
            && (lost != 0 ==> LOW <= lost < HIGH && held[lost - LOW] == 0)
            && (forall e | 16 <= e < SIZE && e != d :: Dir(m', e) == Dir(m, e))
  {
    hide Refs; hide Free;
    GetFreePageStep(m, held);
    FreeIsCounted(m);
    var (m1, page) := GetFreePage(m);
    if page != 0 {
      FreeIsCounted(m1);
      var h1 := Hold(held, page, 1);
      SameDirectory(m, m1);
      if Dir(m1, d) {
        InstallStep(m1, h1, d, i, page);
      } else {
        AddTableStep(m1, h1, d);
        AddTableRows(m1, h1, d);
        var (m2, ok) := AddTable(m1, d);
        if ok {
          HeldHasNoRefs(m2, h1, page);
          AddTableKeeps(m1, h1, d, page);
          InstallStep(m2, h1, d, i, page);
        }
      }
      assert Hold(h1, page, -1) == held;
    }
  }

  /** The write fault fails exactly at a shared page, or one of the kernel image, with no frame free. */
  lemma UnWpOk(m: Mem, held: seq<nat>, d: nat, i: nat)
    requires Inv(m, held) && 16 <= d < SIZE && Mapped(m, d, i)
    ensures T(m, d) < HIGH
    ensures UnWp(m, T(m, d), i).1 <==> Private(m, Pte(m, d, i).frame) || Free(m) > 0
  {
    assert GoodEntry(m, Pte(m, d, i));
    FreeIsCounted(m);
    hide Free; hide Refs;
  }

  /** The number of free frames. */
  ghost function Free(m: Mem): nat { Count(m.memMap, 0) }

  lemma FreeIsCounted(m: Mem)
    requires |m.memMap| == PAGES && |m.ram| == HIGH
    ensures var (m1, page) := GetFreePage(m);
            (page == 0 <==> Free(m) == 0) && (page != 0 ==> Free(m1) == Free(m) - 1)
  {
    var k := LastFree(m.memMap, PAGES);
    if k > 0 {
      CountPositive(m.memMap, k - 1);
      CountUpdate(m.memMap, k - 1, 1, 0);
    } else if Free(m) > 0 {
      var j := CountWitness(m.memMap, 0);
    }
  }

  /** The number of page tables among n directory entries. */
  ghost function Tables(m: Mem, d: nat, n: nat): nat
    requires Shape(m) && d + n <= SIZE
    decreases n
  {
    if n == 0 then 0 else (if Dir(m, d) then 1 else 0) + Tables(m, d + 1, n - 1)
  }

  lemma {:induction false} SameTables(m: Mem, m': Mem, d: nat, n: nat)
    requires Shape(m) && Shape(m') && d + n <= SIZE
    requires forall e | d <= e < d + n :: Dir(m', e) == Dir(m, e)
    ensures Tables(m', d, n) == Tables(m, d, n)
    decreases n
  {
    if n > 0 { SameTables(m, m', d + 1, n - 1); }
  }

  lemma {:induction false} CopyEntriesFree(m: Mem, held: seq<nat>, fd: nat, td: nat, k: nat, n: nat)
    requires Inv(m, held) && 16 <= fd < SIZE && 16 <= td < SIZE && fd != td && k <= n <= SIZE
    requires Dir(m, fd) && Dir(m, td)
    requires forall j | k <= j < SIZE :: m.ram[T(m, td)][j] == ZERO
    ensures T(m, fd) < HIGH && T(m, td) < HIGH
    ensures Free(CopyEntries(m, T(m, fd), T(m, td), k, n)) == Free(m)
    decreases n - k
  {
    hide Refs; hide At; hide Row; hide CopyEntry; hide Exact; hide Free;
    InvApart(m, held);
    if k < n {
      CopyEntryStep(m, held, fd, td, k);
      var m1 := CopyEntry(m, T(m, fd), T(m, td), k);
      SameDirectory(m, m1);
      CopyEntryFree(m, held, fd, td, k);
      CopyEntriesFree(m1, held, fd, td, k + 1, n);
    }
  }

  /** The count that fork raises was not zero. */
  lemma CopyEntryFree(m: Mem, held: seq<nat>, fd: nat, td: nat, i: nat)
    requires Inv(m, held) && 16 <= fd < SIZE && 16 <= td < SIZE && i < SIZE && Dir(m, fd) && Dir(m, td)
    requires T(m, fd) < HIGH && T(m, td) < HIGH
    ensures Free(CopyEntry(m, T(m, fd), T(m, td), i)) == Free(m)
  {
    hide Refs;
    if Mapped(m, fd, i) && Pte(m, fd, i).frame >= LOW {
      assert GoodEntry(m, Pte(m, fd, i));
      RefsOfPage(m, fd, i);
      var k := Pte(m, fd, i).frame - LOW;
      CountUpdate(m.memMap, k, m.memMap[k] + 1, 0);
    }
  }

  /** copy_page_tables succeeds exactly when there is a free frame for each page table. */
  lemma {:induction false} CopyTablesFree(m: Mem, held: seq<nat>, from: nat, to: nat, n: nat)
    requires Inv(m, held) && 16 <= from && 16 <= to && from + n <= SIZE && to + n <= SIZE
    requires from + n <= to || to + n <= from
    requires forall d | to <= d < to + n :: !Dir(m, d)
    ensures CopyTables(m, from, to, n, SIZE).1 <==> Free(m) >= Tables(m, from, n)
    decreases n
  {
    InvShape(m, held);
    hide CopyTable; hide Inv; hide Shape; hide TablesCopied; hide Free;
    if n > 0 {
      CopyTableStep(m, held, from, to);
      CopyTableFree(m, held, from, to);
      var (m1, ok) := CopyTable(m, from, to, SIZE);
      if ok {
        InvShape(m1, held);
        EmptyStill(m, m1, from, to, n);
        CopiedTables(m, m1, from, to, n);
        CopyTablesFree(m1, held, from + 1, to + 1, n - 1);
      }
    }
  }

  lemma CopiedTables(m: Mem, m1: Mem, from: nat, to: nat, n: nat)
    requires Shape(m) && Shape(m1) && n > 0 && from + n <= SIZE && to + n <= SIZE && (from + n <= to || to + n <= from)
    requires TablesCopied(m, m1, from, to, 1, true)
    ensures Tables(m1, from + 1, n - 1) == Tables(m, from + 1, n - 1)
  {
    forall d | from + 1 <= d < from + n ensures Dir(m1, d) == Dir(m, d) {
      assert m1.ram[0][d] == m.ram[0][d];
    }
    SameTables(m, m1, from + 1, n - 1);
  }

  lemma CopyTableFree(m: Mem, held: seq<nat>, from: nat, to: nat)
    requires Inv(m, held) && 16 <= from < SIZE && 16 <= to < SIZE && from != to && !Dir(m, to)
    ensures var (m1, ok) := CopyTable(m, from, to, SIZE);
            && (ok <==> !Dir(m, from) || Free(m) > 0)
            && (ok ==> Free(m1) == Free(m) - if Dir(m, from) then 1 else 0)
  {
    hide Refs; hide At; hide Row; hide Exact; hide AddTable; hide CopyEntries; hide GoodEntry; hide HeldAlone;
    hide Tidy; hide Free;
    if Dir(m, from) {
      AddTableStep(m, held, to);
      AddTableRows(m, held, to);
      AddTableFree(m, to);
      var (m1, ok) := AddTable(m, to);
      if ok {
        assert Dir(m1, from) && m1.ram[T(m1, to)] == ZeroPage();
        CopyEntriesFree(m1, held, from, to, 0, SIZE);
      }
    }
  }

  lemma AddTableFree(m: Mem, d: nat)
    requires Shape(m) && d < SIZE
    ensures var (m', ok) := AddTable(m, d); (ok <==> Free(m) > 0) && (ok ==> Free(m') == Free(m) - 1)
  {
    FreeIsCounted(m);
  }

  /** With no page table in the range there is nothing to do. */
  lemma {:induction false} NothingThere(m: Mem, d: nat, to: nat, n: nat)
    requires Shape(m) && d + n <= SIZE && to + n <= SIZE && forall e | d <= e < d + n :: !Dir(m, e)
    ensures FreeTables(m, d, n) == m && CopyTables(m, d, to, n, SIZE) == (m, true)
    decreases n
  {
    if n > 0 { NothingThere(m, d + 1, to + 1, n - 1); }
  }

  lemma HeldHasNoRefs(m: Mem, held: seq<nat>, f: nat)
    requires Inv(m, held) && LOW <= f < HIGH && held[f - LOW] > 0
    ensures Refs(m, f) == 0 && held[f - LOW] == 1
  {}

  /** The table is another frame than a page the kernel holds. */
  lemma AddTableKeeps(m: Mem, held: seq<nat>, d: nat, f: nat)
    requires Inv(m, held) && 16 <= d < SIZE && !Dir(m, d) && LOW <= f < HIGH && held[f - LOW] > 0
    ensures AddTable(m, d).0.ram[f] == m.ram[f]
  {
    hide Refs;
    GetFreePageStep(m, held);
  }

  /** The addresses of the pages numbered from lo to hi show what they showed, the page directory as a
      copy; all others are as they were. */
  ghost predicate OwnedFrom(m: Mem, m': Mem, lo: nat, hi: nat)
    requires Shape(m) && Shape(m')
  {
    forall e, j | 16 <= e < SIZE && 0 <= j < SIZE ::
      At(m', e, j) == if lo <= e * SIZE + j < hi then Own(At(m, e, j), m.ram[0]) else At(m, e, j)
  }

  /** The same addresses are mapped, and what was writable is. */
  ghost predicate KeepsEntries(m: Mem, m': Mem)
    requires Shape(m) && Shape(m')
  {
    && (forall e: nat, j: nat | 16 <= e < SIZE && Mapped(m', e, j) :: Mapped(m, e, j))
    && (forall e: nat, j: nat | 16 <= e < SIZE && Mapped(m, e, j) ::
      Mapped(m', e, j) && (Pte(m, e, j).rw ==> Pte(m', e, j).rw))
  }

  ghost predicate WritableIn(m: Mem, page: nat, n: nat)
    requires Shape(m) && page + n <= SIZE * SIZE
  {
    forall q | page <= q < page + n && Mapped(m, q / SIZE, q % SIZE) :: Pte(m, q / SIZE, q % SIZE).rw
  }

  /** After verify_area every present page of the area is writable, so that a kernel store there reaches
      nobody else.  Nobody's pages changed, except that an address of the area that showed the page
      directory has a copy of it; out of memory this holds of the first pages of the area. */
  lemma VerifyAreaUnshares(m: Mem, held: seq<nat>, page: nat, n: nat)
    requires Inv(m, held) && 16 * SIZE <= page && page + n <= SIZE * SIZE
    ensures Shape(m) && var (m', ok) := VerifyArea(m, page, n);
            Inv(m', held) && AreaVerified(m, m', page, n, ok)
  {
    hide *;
    InvShape(m, held);
    VerifyTurns(m, held, page, n, VerifyArea(m, page, n));
  }

  lemma {:induction false} VerifyTurns(m: Mem, held: seq<nat>, page: nat, n: nat, r: (Mem, bool))
    requires Shape(m) && Inv(m, held) && 16 * SIZE <= page && page + n <= SIZE * SIZE && r == VerifyArea(m, page, n)
    ensures Inv(r.0, held) && AreaVerified(m, r.0, page, n, r.1)
    decreases n
  {
    hide *;
    VerifyAreaTurn(m, page, n);
    if n == 0 {
      NothingVerified(m, page, 0, true);
    } else {
      WriteVerifyStep(m, held, page);
      var (m1, ok) := WriteVerify(m, page / SIZE, page % SIZE);
      if ok {
        VerifyTurns(m1, held, page + 1, n - 1, r);
        AreaTogether(m, m1, r.0, page, n, r.1);
      } else {
        NothingVerified(m, page, n, false);
      }
    }
  }

  /** m' is m after verify_area on n pages, of which the first were verified when it failed. */
  ghost predicate AreaVerified(m: Mem, m': Mem, page: nat, n: nat, ok: bool)
  {
    && Shape(m) && Shape(m') && page + n <= SIZE * SIZE
    && m'.ram[0] == m.ram[0] && KeepsEntries(m, m')
    && (ok ==> OwnedFrom(m, m', page, page + n) && WritableIn(m', page, n))
    && (!ok ==> exists k :: page <= k <= page + n && OwnedFrom(m, m', page, k))
  }

  lemma NothingVerified(m: Mem, page: nat, n: nat, ok: bool)
    requires Shape(m) && page + n <= SIZE * SIZE && (ok ==> n == 0)
    ensures AreaVerified(m, m, page, n, ok)
  {
    assert OwnedFrom(m, m, page, page);
  }

  lemma AreaTogether(m: Mem, m1: Mem, m2: Mem, page: nat, n: nat, ok: bool)
    requires Shape(m) && Shape(m1) && Shape(m2) && n > 0 && page + n <= SIZE * SIZE && 16 * SIZE <= page
    requires AreaVerified(m, m1, page, 1, true) && AreaVerified(m1, m2, page + 1, n - 1, ok)
    ensures AreaVerified(m, m2, page, n, ok)
  {
    hide Shape; hide OwnedFrom; hide KeepsEntries; hide WritableIn;
    var k :| page + 1 <= k <= page + n && OwnedFrom(m1, m2, page + 1, k) && (ok ==> k == page + n);
    OwnedTogether(m, m1, m2, page, k);
    EntriesTogether(m, m1, m2, page, n);
  }

  lemma OwnedTogether(m: Mem, m1: Mem, m2: Mem, page: nat, k: nat)
    requires Shape(m) && Shape(m1) && Shape(m2) && m1.ram[0] == m.ram[0] && page < k
    requires OwnedFrom(m, m1, page, page + 1) && OwnedFrom(m1, m2, page + 1, k)
    ensures OwnedFrom(m, m2, page, k)
  {
    hide At; hide Own; hide Shape;
  }

  lemma EntriesTogether(m: Mem, m1: Mem, m2: Mem, page: nat, n: nat)
    requires Shape(m) && Shape(m1) && Shape(m2) && n > 0 && page + n <= SIZE * SIZE && 16 * SIZE <= page
    requires KeepsEntries(m, m1) && KeepsEntries(m1, m2) && WritableIn(m1, page, 1)
    ensures KeepsEntries(m, m2) && (WritableIn(m2, page + 1, n - 1) ==> WritableIn(m2, page, n))
  {
    assert KeepsEntries(m, m2) by { hide Shape; }
  }

  lemma InvShape(m: Mem, held: seq<nat>)
    requires Inv(m, held)
    ensures Shape(m) && |m.ram| == HIGH && |m.ram[0]| == SIZE
  {}

  lemma WriteVerifyStep(m: Mem, held: seq<nat>, page: nat)
    requires Inv(m, held) && 16 * SIZE <= page < SIZE * SIZE
    ensures Shape(m) && var (m', ok) := WriteVerify(m, page / SIZE, page % SIZE);
            Inv(m', held) && AreaVerified(m, m', page, 1, ok) && (!ok ==> m' == m)
  {
    hide Refs; hide Exact; hide At; hide GoodEntry; hide HeldAlone; hide TablesUnshared; hide UnWp; hide Own;
    var d, i := page / SIZE, page % SIZE;
    assert page == d * SIZE + i;
    if Mapped(m, d, i) && !Pte(m, d, i).rw { UnWpStep(m, held, d, i); } else { WritableIsOwn(m, held, d, i); }
    assert OwnedFrom(m, WriteVerify(m, d, i).0, page, if WriteVerify(m, d, i).1 then page + 1 else page);
  }

  /** The entry of a page, cleared where nothing is mapped. */
  function EntryAt(m: Mem, q: nat): Word
    requires Shape(m)
  {
    if q < SIZE * SIZE && Mapped(m, q / SIZE, q % SIZE) then Pte(m, q / SIZE, q % SIZE) else ZERO
  }

  /** Whether verify_area must replace page q when each frame in gone has lost a reference. */
  predicate MustReplace(m: Mem, q: nat, gone: seq<nat>)
    requires Shape(m)
  {
    var w := EntryAt(m, q);
    w.present && !w.rw && !(LOW <= w.frame < HIGH && m.memMap[w.frame - LOW] == 1 + Count(gone, w.frame))
  }

  /** How many pages of an area verify_area replaces by copies: the read-only ones that are shared when their
      turn comes. */
  function Needed(m: Mem, page: nat, n: nat, gone: seq<nat>): nat
    requires Shape(m)
    decreases n
  {
    if n == 0 then 0
    else if MustReplace(m, page, gone) then 1 + Needed(m, page + 1, n - 1, gone + [EntryAt(m, page).frame])
    else Needed(m, page + 1, n - 1, gone)
  }

  /** From page on, m has the entries of m0, and the frames they name have lost the references in gone. */
  ghost predicate Follows(m0: Mem, m: Mem, page: nat, gone: seq<nat>)
    requires Shape(m0) && Shape(m)
  {
    forall q: nat | page <= q < SIZE * SIZE :: FollowsAt(m0, m, q, gone)
  }

  ghost predicate FollowsAt(m0: Mem, m: Mem, q: nat, gone: seq<nat>)
    requires Shape(m0) && Shape(m)
  {
    var w := EntryAt(m0, q);
    && EntryAt(m, q) == w
    && (w.present && LOW <= w.frame < HIGH ==>
      m.memMap[w.frame - LOW] + Count(gone, w.frame) == m0.memMap[w.frame - LOW])
  }

  /** verify_area succeeds exactly when there is a free frame for each page it replaces. */
  lemma VerifyAreaOk(m0: Mem, m: Mem, held: seq<nat>, page: nat, n: nat, gone: seq<nat>)
    requires Shape(m0) && Inv(m, held) && 16 * SIZE <= page && page + n <= SIZE * SIZE && Follows(m0, m, page, gone)
    ensures var (m', ok) := VerifyArea(m, page, n);
            && (ok <==> Free(m) >= Needed(m0, page, n, gone))
            && (ok ==> Free(m') == Free(m) - Needed(m0, page, n, gone))
  {
    hide *;
    InvShape(m, held);
    NeededTurns(m0, m, held, page, n, gone, VerifyArea(m, page, n));
  }

  lemma {:induction false} NeededTurns(m0: Mem, m: Mem, held: seq<nat>, page: nat, n: nat, gone: seq<nat>,
      r: (Mem, bool))
    requires Shape(m0) && Shape(m) && Inv(m, held) && 16 * SIZE <= page && page + n <= SIZE * SIZE
    requires Follows(m0, m, page, gone) && r == VerifyArea(m, page, n)
    ensures r.1 <==> Free(m) >= Needed(m0, page, n, gone)
    ensures r.1 ==> Free(r.0) == Free(m) - Needed(m0, page, n, gone)
    decreases n
  {
    hide *;
    VerifyAreaTurn(m, page, n);
    NeededTurn(m0, page, n, gone);
    if n > 0 {
      WriteVerifyStep(m, held, page);
      WriteVerifyFree(m0, m, held, page, gone);
      var (m1, ok) := WriteVerify(m, page / SIZE, page % SIZE);
      if ok {
        var gone' := if MustReplace(m0, page, gone) then gone + [EntryAt(m0, page).frame] else gone;
        NeededTurns(m0, m1, held, page + 1, n - 1, gone', r);
      }
    }
  }

  lemma VerifyAreaTurn(m: Mem, page: nat, n: nat)
    requires Shape(m) && page + n <= SIZE * SIZE
    ensures n == 0 ==> VerifyArea(m, page, n) == (m, true)
    ensures n > 0 ==>
      var r := WriteVerify(m, page / SIZE, page % SIZE);
      VerifyArea(m, page, n) == if r.1 then VerifyArea(r.0, page + 1, n - 1) else r
  {
    hide WriteVerify, Shape;
  }

  lemma NeededTurn(m: Mem, page: nat, n: nat, gone: seq<nat>)
    requires Shape(m)
    ensures n == 0 ==> Needed(m, page, n, gone) == 0
    ensures n > 0 ==>
      var must := MustReplace(m, page, gone);
      Needed(m, page, n, gone)
      == (if must then 1 else 0) + Needed(m, page + 1, n - 1, if must then gone + [EntryAt(m, page).frame] else gone)
  {
    hide MustReplace, EntryAt, Shape;
  }

  lemma WriteVerifyFree(m0: Mem, m: Mem, held: seq<nat>, page: nat, gone: seq<nat>)
    requires Shape(m0) && Shape(m) && Inv(m, held) && 16 * SIZE <= page < SIZE * SIZE && Follows(m0, m, page, gone)
    ensures var (m', ok) := WriteVerify(m, page / SIZE, page % SIZE);
            var must := MustReplace(m0, page, gone);
            && (ok <==> !must || Free(m) > 0)
            && (ok ==> Free(m') == Free(m) - if must then 1 else 0)
            && (ok ==> Follows(m0, m', page + 1, if must then gone + [EntryAt(m0, page).frame] else gone))
  {
    hide Refs, Exact, GoodEntry;
    var d, i := page / SIZE, page % SIZE;
    assert FollowsAt(m0, m, page, gone);
    if Mapped(m, d, i) && !Pte(m, d, i).rw {
      UnWpStep(m, held, d, i);
      UnWpOk(m, held, d, i);
      MustIsShared(m0, m, page, gone);
      if UnWp(m, T(m, d), i).1 {
        UnWpCounts(m, held, d, i);
        UnWpFollows(m0, m, held, page, gone);
      }
    }
  }

  lemma MustIsShared(m0: Mem, m: Mem, page: nat, gone: seq<nat>)
    requires Shape(m0) && Shape(m) && page < SIZE * SIZE && Follows(m0, m, page, gone)
    requires Mapped(m, page / SIZE, page % SIZE) && !Pte(m, page / SIZE, page % SIZE).rw
    ensures MustReplace(m0, page, gone) <==> !Private(m, Pte(m, page / SIZE, page % SIZE).frame)
  {
    assert FollowsAt(m0, m, page, gone);
    hide Count;
  }

  /** What the write fault does to the counts. */
  lemma UnWpCounts(m: Mem, held: seq<nat>, d: nat, i: nat)
    requires Inv(m, held) && 16 <= d < SIZE && Mapped(m, d, i) && UnWp(m, T(m, d), i).1
    ensures var (m', f) := (UnWp(m, T(m, d), i).0, Pte(m, d, i).frame);
            CountsAfter(m.memMap, m'.memMap, f)
  {
    hide Refs, Exact;
    var f := Pte(m, d, i).frame;
    assert GoodEntry(m, Pte(m, d, i));
    MappedIsCounted(m, held, d * SIZE + i);
    var m' := UnWp(m, T(m, d), i).0;
    hide CountsAfter;
    if Private(m, f) {
      assert m'.memMap == m.memMap;
      PrivateCounts(m.memMap, f);
    } else {
      var k := LastFree(m.memMap, PAGES);
      ReplacedCounts(m.memMap, m'.memMap, k - 1, f);
    }
  }

  /** The counts after an entry on frame f was made writable: a shared frame loses a reference, and a free
      one is taken in its place. */
  ghost predicate CountsAfter(memMap: seq<nat>, memMap': seq<nat>, f: nat)
  {
    && |memMap| == |memMap'| == PAGES
    && var private := LOW <= f < HIGH && memMap[f - LOW] == 1;
    && Count(memMap', 0) == Count(memMap, 0) - (if private then 0 else 1)
    && forall k | 0 <= k < PAGES && memMap[k] > 0 :: memMap'[k] == memMap[k] - if LOW + k == f && !private then 1 else 0
  }

  lemma PrivateCounts(memMap: seq<nat>, f: nat)
    requires |memMap| == PAGES && LOW <= f < HIGH && memMap[f - LOW] == 1
    ensures CountsAfter(memMap, memMap, f)
  {}

  lemma ReplacedCounts(memMap: seq<nat>, memMap': seq<nat>, t: nat, f: nat)
    requires |memMap| == PAGES && t < PAGES && memMap[t] == 0 && f < HIGH
    requires f >= LOW ==> memMap[f - LOW] > 1
    requires memMap' == if f >= LOW then memMap[t := 1][f - LOW := memMap[f - LOW] - 1] else memMap[t := 1]
    ensures CountsAfter(memMap, memMap', f)
  {
    hide Count;
    CountUpdate(memMap, t, 1, 0);
    if f >= LOW {
      var mid := memMap[t := 1];
      assert mid[f - LOW] == memMap[f - LOW] && f - LOW != t;
      CountUpdate(mid, f - LOW, memMap[f - LOW] - 1, 0);
    }
  }

  lemma MappedIsCounted(m: Mem, held: seq<nat>, q: nat)
    requires Inv(m, held) && 16 * SIZE <= q < SIZE * SIZE
    ensures EntryAt(m, q).present && LOW <= EntryAt(m, q).frame < HIGH ==> m.memMap[EntryAt(m, q).frame - LOW] > 0
  {
    hide Refs;
    if Mapped(m, q / SIZE, q % SIZE) { RefsOfPage(m, q / SIZE, q % SIZE); }
  }

  lemma UnWpEntry(m: Mem, held: seq<nat>, d: nat, i: nat, q: nat)
    requires Inv(m, held) && 16 <= d < SIZE && Mapped(m, d, i) && 16 * SIZE <= q && q != d * SIZE + i
    ensures T(m, d) < HIGH && EntryAt(UnWp(m, T(m, d), i).0, q) == EntryAt(m, q)
  {
    UnWpStep(m, held, d, i);
    hide Inv, UnWp;
    assert q == q / SIZE * SIZE + q % SIZE;
  }

  lemma UnWpFollows(m0: Mem, m: Mem, held: seq<nat>, page: nat, gone: seq<nat>)
    requires Shape(m0) && Inv(m, held) && 16 * SIZE <= page < SIZE * SIZE && Follows(m0, m, page, gone)
    requires var (d, i) := (page / SIZE, page % SIZE); Mapped(m, d, i) && UnWp(m, T(m, d), i).1
    ensures var (d, i) := (page / SIZE, page % SIZE);
            var (m', f) := (UnWp(m, T(m, d), i).0, Pte(m, d, i).frame);
            Follows(m0, m', page + 1, if Private(m, f) then gone else gone + [f])
  {
    InvShape(m, held);
    var d, i := page / SIZE, page % SIZE;
    var m', f := UnWp(m, T(m, d), i).0, Pte(m, d, i).frame;
    UnWpCounts(m, held, d, i);
    hide Inv, UnWp, Count, EntryAt, Mapped, Shape, FollowsAt, CountsAfter;
    var gone' := if Private(m, f) then gone else gone + [f];
    forall q: nat | page + 1 <= q < SIZE * SIZE ensures FollowsAt(m0, m', q, gone') {
      assert FollowsAt(m0, m, q, gone);
      UnWpEntry(m, held, d, i, q);
      MappedIsCounted(m, held, q);
      FollowsAtNext(m0, m, m', q, f, gone);
    }
  }

  lemma FollowsAtNext(m0: Mem, m: Mem, m': Mem, q: nat, f: nat, gone: seq<nat>)
    requires Shape(m0) && Shape(m) && Shape(m') && FollowsAt(m0, m, q, gone) && EntryAt(m', q) == EntryAt(m, q)
    requires CountsAfter(m.memMap, m'.memMap, f)
    requires EntryAt(m, q).present && LOW <= EntryAt(m, q).frame < HIGH ==> m.memMap[EntryAt(m, q).frame - LOW] > 0
    ensures FollowsAt(m0, m', q, if Private(m, f) then gone else gone + [f])
  {
    CountSnoc(gone, f, EntryAt(m0, q).frame);
    hide Count, EntryAt, Shape;
  }

  lemma CountSnoc(row: seq<nat>, v: nat, x: nat)
    ensures Count(row + [v], x) == Count(row, x) + if v == x then 1 else 0
  {}

  /** No writable entry shows the page directory. */
  lemma WritableIsOwn(m: Mem, held: seq<nat>, d: nat, i: nat)
    requires Inv(m, held) && 16 <= d < SIZE && i < SIZE && (Mapped(m, d, i) ==> Pte(m, d, i).rw)
    ensures Own(At(m, d, i), m.ram[0]) == At(m, d, i)
  {
    hide Refs;
    if Mapped(m, d, i) { assert GoodEntry(m, Pte(m, d, i)); }
  }
}
