/** Each step of the paging code keeps the reference counts exact, and what it does to the pages that
    user programs see. */
module PagingSteps {
  import opened Paging

  /** What a program sees at an address: nothing, a page, or the page directory itself, whose contents
      move with every page table that is hung in or taken out. */
  datatype Seen = Nothing | Directory | Shown(page: Page)

  /** What a program sees through entry i of directory entry d. */
  ghost function At(m: Mem, d: nat, i: nat): Seen
    requires Shape(m)
  {
    if 16 <= d && Mapped(m, d, i) && Pte(m, d, i).frame < HIGH
    then if Pte(m, d, i).frame == 0 then Directory else Shown(m.ram[Pte(m, d, i).frame])
    else Nothing
  }

  /** The page a program reads where it sees v, with the directory as given. */
  function Read(v: Seen, directory: Page): Page
  {
    match v
    case Nothing => ZeroPage()
    case Directory => directory
    case Shown(page) => page
  }

  /** What an address shows once it has been made writable. */
  function Own(v: Seen, directory: Page): Seen
  {
    if v == Nothing then Nothing else Shown(Read(v, directory))
  }

  ghost predicate SameView(m: Mem, m': Mem)
    requires Shape(m) && Shape(m')
  {
    forall d, i | 16 <= d < SIZE && 0 <= i < SIZE :: At(m', d, i) == At(m, d, i)
  }

  /** Only what is seen at (d, i) changed, to v. */
  ghost predicate OnlyAt(m: Mem, m': Mem, d: nat, i: nat, v: Seen)
    requires Shape(m) && Shape(m')
  {
    && At(m', d, i) == v
    && forall d', i' | 16 <= d' < SIZE && 0 <= i' < SIZE && (d', i') != (d, i) :: At(m', d', i') == At(m, d', i')
  }

  /** The kernel gains or gives up delta references to frame f. */
  function Hold(held: seq<nat>, f: nat, delta: int): (h: seq<nat>)
    ensures |h| == |held|
  {
    if LOW <= f < LOW + |held| && held[f - LOW] + delta >= 0
    then held[f - LOW := held[f - LOW] + delta] else held
  }

  lemma SameDirectory(m: Mem, m': Mem)
    requires Shape(m) && Shape(m') && m'.ram[0] == m.ram[0]
    ensures forall d {:trigger Dir(m', d)} {:trigger T(m', d)} | 0 <= d < SIZE ::
      Dir(m', d) == Dir(m, d) && T(m', d) == T(m, d)
  {}

  lemma DirectoryBut(m: Mem, m': Mem, d: nat, w: Word)
    requires Shape(m) && Shape(m') && d < SIZE && m'.ram[0] == m.ram[0][d := w]
    ensures Dir(m', d) == w.present && T(m', d) == w.frame
    ensures forall e {:trigger Dir(m', e)} {:trigger T(m', e)} | 0 <= e < SIZE && e != d ::
      Dir(m', e) == Dir(m, e) && T(m', e) == T(m, e)
  {}

  /** A page handed out by get_free_page is a cleared page that nobody refers to. */
  lemma GetFreePageStep(m: Mem, held: seq<nat>)
    requires Inv(m, held)
    ensures var (m', t) := GetFreePage(m);
            && (t == 0 ==> m' == m && forall k | 0 <= k < PAGES :: m.memMap[k] != 0)
            && (t != 0 ==>
                && LOW <= t < HIGH && m.memMap[t - LOW] == 0 && Loose(m, t)
                && Inv(m', Hold(held, t, 1)) && SameView(m, m') && Loose(m', t)
                && m' == Mem(m.memMap[t - LOW := 1], m.ram[t := ZeroPage()])
                && held[t - LOW] == 0 && Refs(m', t) == 0)
  {
    hide Refs;
    InvApart(m, held);
    var k := LastFree(m.memMap, PAGES);
    if k > 0 {
      var t := LOW + k - 1;
      FreeIsLoose(m, held, t);
      TakePage(m, held, t);
    }
  }

  lemma TakePage(m: Mem, held: seq<nat>, t: nat)
    requires Inv(m, held) && LOW <= t < HIGH && m.memMap[t - LOW] == 0
    requires Loose(m, t) && Refs(m, t) == 0 && held[t - LOW] == 0
    ensures var m' := Mem(m.memMap[t - LOW := 1], m.ram[t := ZeroPage()]);
            Inv(m', Hold(held, t, 1)) && SameView(m, m') && Loose(m', t) && Refs(m', t) == 0
  {
    hide Refs;
    var m' := Mem(m.memMap[t - LOW := 1], m.ram[t := ZeroPage()]);
    InvApart(m, held);
    assert Shape(m') && m'.ram[0] == m.ram[0];
    SameDirectory(m, m');
    TakePageRefs(m, t);
    assert Exact(m', Hold(held, t, 1));
    forall d, j | 16 <= d < SIZE && 0 <= j < SIZE && Dir(m', d)
      ensures GoodEntry(m', Pte(m', d, j)) && Pte(m', d, j) == Pte(m, d, j)
    {
      assert GoodEntry(m, Pte(m, d, j));
    }
  }

  lemma TakePageRefs(m: Mem, t: nat)
    requires Shape(m) && Apart(m) && Loose(m, t) && t < HIGH
    ensures var m' := Mem(m.memMap[t - LOW := 1], m.ram[t := ZeroPage()]);
            Shape(m') && forall f | LOW <= f < HIGH :: Refs(m', f) == Refs(m, f)
  {
    hide Refs;
    var m' := Mem(m.memMap[t - LOW := 1], m.ram[t := ZeroPage()]);
    var m1 := m.(ram := m.ram[t := ZeroPage()]);
    assert Shape(m1) && Shape(m');
    forall f | LOW <= f < HIGH ensures Refs(m', f) == Refs(m, f) {
      DataRefs(m, t, ZeroPage(), f);
      SameRamRefs(m1, m', f);
    }
  }

  /** free_page on a page the kernel holds. */
  lemma FreeHeldStep(m: Mem, held: seq<nat>, f: nat)
    requires Inv(m, held) && LOW <= f < HIGH && held[f - LOW] >= 1 && Refs(m, f) == 0
    ensures var m' := FreePage(m, f); Inv(m', Hold(held, f, -1)) && SameView(m, m') && m'.ram == m.ram
  {
    hide Refs;
    var m' := FreePage(m, f);
    assert Shape(m') && m'.ram[0] == m.ram[0];
    SameDirectory(m, m');
    forall g | LOW <= g < HIGH ensures Refs(m', g) == Refs(m, g) { SameRamRefs(m, m', g); }
    forall d | 16 <= d < SIZE && Dir(m, d) ensures T(m, d) != f { RefsOfTable(m, d); }
    forall d, i | 16 <= d < SIZE && 0 <= i < SIZE && Dir(m, d) ensures GoodEntry(m', Pte(m', d, i)) {
      assert GoodEntry(m, Pte(m, d, i));
      if Mapped(m, d, i) { RefsOfPage(m, d, i); }
    }
  }

  /** One entry copied: the child sees the parent's page, both read-only, and the count grows by one. */
  lemma CopyEntryStep(m: Mem, held: seq<nat>, fd: nat, td: nat, i: nat)
    requires Inv(m, held) && 16 <= fd < SIZE && 16 <= td < SIZE && fd != td && i < SIZE
    requires Dir(m, fd) && Dir(m, td) && m.ram[T(m, td)][i] == ZERO
    ensures T(m, fd) < HIGH && T(m, td) < HIGH
    ensures var m' := CopyEntry(m, T(m, fd), T(m, td), i);
            && Inv(m', held) && m'.ram[0] == m.ram[0]
            && OnlyAt(m, m', td, i, At(m, fd, i))
            && (forall j | 0 <= j < SIZE && j != i :: m'.ram[T(m, td)][j] == m.ram[T(m, td)][j])
  {
    hide Refs;
    InvApart(m, held);
    if Mapped(m, fd, i) {
      assert GoodEntry(m, Pte(m, fd, i));
      RefsOfPage(m, fd, i);
      CopyEntryExact(m, held, fd, td, i);
      CopyKeepsEntries(m, held, fd, td, i);
      CopyKeepsView(m, held, fd, td, i);
    }
  }

  lemma CopyEntryExact(m: Mem, held: seq<nat>, fd: nat, td: nat, i: nat)
    requires Shape(m) && Apart(m) && Exact(m, held) && 16 <= fd < SIZE && 16 <= td < SIZE && fd != td && i < SIZE
    requires Dir(m, fd) && Dir(m, td) && m.ram[T(m, td)][i] == ZERO
    requires Mapped(m, fd, i) && Pte(m, fd, i).frame < HIGH
    ensures var m' := CopyEntry(m, T(m, fd), T(m, td), i);
            Shape(m') && m'.ram[0] == m.ram[0] && Exact(m', held)
  {
    hide Refs;
    var ft, tt := T(m, fd), T(m, td);
    var w := m.ram[ft][i];
    var w' := w.(rw := false);
    var m1 := SetWord(m, tt, i, w');
    assert Shape(m1) && m1.ram[0] == m.ram[0];
    SameDirectory(m, m1);
    var m2 := if w.frame < LOW then m1 else SetWord(m1, ft, i, w');
    var m' := CopyEntry(m, ft, tt, i);
    assert Shape(m2) && Shape(m') && m'.ram == m2.ram && m2.ram[0] == m.ram[0];
    forall f | LOW <= f < HIGH ensures m'.memMap[f - LOW] == Refs(m', f) + held[f - LOW] {
      SetPteRefs(m, td, i, w', f);
      if w.frame >= LOW { SetPteRefs(m1, fd, i, w', f); }
      SameRamRefs(m2, m', f);
    }
  }

  lemma CopyKeepsEntries(m: Mem, held: seq<nat>, fd: nat, td: nat, i: nat)
    requires Inv(m, held) && 16 <= fd < SIZE && 16 <= td < SIZE && fd != td && i < SIZE
    requires Dir(m, fd) && Dir(m, td) && Mapped(m, fd, i) && T(m, td) < HIGH
    ensures var m' := CopyEntry(m, T(m, fd), T(m, td), i);
            && Shape(m') && TablesUnshared(m')
            && forall d, j | 16 <= d < SIZE && 0 <= j < SIZE && Dir(m', d) :: GoodEntry(m', Pte(m', d, j))
  {
    hide Refs;
    InvApart(m, held);
    var w := Pte(m, fd, i);
    assert GoodEntry(m, w);
    var m' := CopyEntry(m, T(m, fd), T(m, td), i);
    assert Shape(m') && m'.ram[0] == m.ram[0];
    SameDirectory(m, m');
    forall d | 16 <= d < SIZE && Dir(m', d)
      ensures LOW <= T(m', d) < HIGH && m'.memMap[T(m', d) - LOW] == 1
    {
      PageIsNoTable(m, held, fd, i, d);
    }
    forall d, j | 16 <= d < SIZE && 0 <= j < SIZE && Dir(m', d)
      ensures GoodEntry(m', Pte(m', d, j))
    {
      assert GoodEntry(m, Pte(m, d, j));
      if Mapped(m, d, j) && (d, j) != (fd, i) && Pte(m, d, j).frame == w.frame {
        TwoPages(m, d, j, fd, i);
      }
    }
  }

  lemma CopyKeepsView(m: Mem, held: seq<nat>, fd: nat, td: nat, i: nat)
    requires Inv(m, held) && 16 <= fd < SIZE && 16 <= td < SIZE && fd != td && i < SIZE
    requires Dir(m, fd) && Dir(m, td) && m.ram[T(m, td)][i] == ZERO && m.ram[T(m, fd)][i].present
    requires T(m, fd) != T(m, td)
    ensures var m' := CopyEntry(m, T(m, fd), T(m, td), i);
            Shape(m') && OnlyAt(m, m', td, i, At(m, fd, i))
  {
    hide Refs;
    var ft, tt := T(m, fd), T(m, td);
    var m' := CopyEntry(m, ft, tt, i);
    assert Shape(m') && m'.ram[0] == m.ram[0];
    SameDirectory(m, m');
    InvApart(m, held);
    // only the two tables changed, and no mapped frame is a table
    assert forall f | 0 <= f < HIGH && f != ft && f != tt :: m'.ram[f] == m.ram[f];
    forall d, j | 16 <= d < SIZE && 0 <= j < SIZE
      ensures At(m', d, j) == if (d, j) == (td, i) then At(m, fd, i) else At(m, d, j)
    {
      if Mapped(m, d, j) {
        PageIsNoTable(m, held, d, j, fd);
        PageIsNoTable(m, held, d, j, td);
      }
      PageIsNoTable(m, held, fd, i, fd);
      PageIsNoTable(m, held, fd, i, td);
    }
  }

  /** One entry cleared by free_page_tables: the page is no longer seen there, all else stays. */
  lemma ClearEntryStep(m: Mem, held: seq<nat>, d: nat, i: nat)
    requires Inv(m, held) && 16 <= d < SIZE && i < SIZE && Dir(m, d)
    ensures T(m, d) < HIGH
    ensures Mapped(m, d, i) ==> Pte(m, d, i).frame < HIGH
    ensures Mapped(m, d, i) && Pte(m, d, i).frame >= LOW ==> m.memMap[Pte(m, d, i).frame - LOW] > 0
    ensures var m' := ClearEntry(m, T(m, d), i);
            Inv(m', held) && m'.ram == m.ram[T(m, d) := m.ram[T(m, d)][i := ZERO]] && OnlyAt(m, m', d, i, Nothing)
  {
    hide Refs;
    InvApart(m, held);
    var w := Pte(m, d, i);
    assert GoodEntry(m, w);
    if w.present { RefsOfPage(m, d, i); }
    ClearEntryExact(m, held, d, i);
    ClearKeepsEntries(m, held, d, i);
    ClearEntryView(m, held, d, i);
  }

  lemma ClearEntryExact(m: Mem, held: seq<nat>, d: nat, i: nat)
    requires Shape(m) && Apart(m) && Exact(m, held) && 16 <= d < SIZE && i < SIZE && Dir(m, d)
    requires Mapped(m, d, i) ==> Pte(m, d, i).frame < HIGH
    requires Mapped(m, d, i) && Pte(m, d, i).frame >= LOW ==> m.memMap[Pte(m, d, i).frame - LOW] > 0
    ensures var m' := ClearEntry(m, T(m, d), i);
            Shape(m') && m'.ram == m.ram[T(m, d) := m.ram[T(m, d)][i := ZERO]] && Exact(m', held)
  {
    hide Refs;
    var m' := ClearEntry(m, T(m, d), i);
    var m1 := SetWord(m, T(m, d), i, ZERO);
    assert Shape(m1) && Shape(m') && m'.ram == m1.ram;
    forall f | LOW <= f < HIGH ensures Refs(m', f) == Refs(m, f) - Hit(Pte(m, d, i), f) {
      SetPteRefs(m, d, i, ZERO, f);
      SameRamRefs(m1, m', f);
    }
  }

  lemma ClearEntryView(m: Mem, held: seq<nat>, d: nat, i: nat)
    requires Inv(m, held) && 16 <= d < SIZE && i < SIZE && Dir(m, d)
    requires T(m, d) < HIGH && Shape(ClearEntry(m, T(m, d), i))
    ensures OnlyAt(m, ClearEntry(m, T(m, d), i), d, i, Nothing)
  {
    hide Refs;
    InvApart(m, held);
    var m' := ClearEntry(m, T(m, d), i);
    assert m'.ram[0] == m.ram[0];
    SameDirectory(m, m');
    forall e, j | 16 <= e < SIZE && 0 <= j < SIZE
      ensures At(m', e, j) == if (e, j) == (d, i) then Nothing else At(m, e, j)
    {
      if Mapped(m, e, j) { PageIsNoTable(m, held, e, j, d); }
    }
  }

  lemma ClearKeepsEntries(m: Mem, held: seq<nat>, d: nat, i: nat)
    requires Inv(m, held) && 16 <= d < SIZE && i < SIZE && Dir(m, d) && T(m, d) < HIGH
    ensures var m' := ClearEntry(m, T(m, d), i);
            && Shape(m') && TablesUnshared(m')
            && forall e, j | 16 <= e < SIZE && 0 <= j < SIZE && Dir(m', e) :: GoodEntry(m', Pte(m', e, j))
  {
    hide Refs;
    InvApart(m, held);
    var w := Pte(m, d, i);
    assert GoodEntry(m, w);
    var m' := ClearEntry(m, T(m, d), i);
    assert Shape(m') && m'.ram[0] == m.ram[0];
    SameDirectory(m, m');
    forall e | 16 <= e < SIZE && Dir(m', e) ensures LOW <= T(m', e) < HIGH && m'.memMap[T(m', e) - LOW] == 1 {
      if w.present { PageIsNoTable(m, held, d, i, e); }
    }
    forall e, j | 16 <= e < SIZE && 0 <= j < SIZE && Dir(m', e)
      ensures GoodEntry(m', Pte(m', e, j))
    {
      assert GoodEntry(m, Pte(m, e, j));
      if w.present && Mapped(m, e, j) && (e, j) != (d, i) && Pte(m, e, j).frame == w.frame {
        TwoPages(m, e, j, d, i);
      }
    }
  }

  /** An emptied table is given back. */
  lemma DropTableStep(m: Mem, held: seq<nat>, d: nat)
    requires Inv(m, held) && 16 <= d < SIZE && Dir(m, d) && m.ram[T(m, d)] == ZeroPage()
    ensures var m' := DropTable(m, d);
            && Inv(m', held) && SameView(m, m') && m'.ram == m.ram[0 := m.ram[0][d := ZERO]]
  {
    hide Refs;
    InvApart(m, held);
    RefsOfTable(m, d);
    DropTableExact(m, held, d);
    var m' := DropTable(m, d);
    DirectoryBut(m, m', d, ZERO);
    forall e, j | 16 <= e < SIZE && 0 <= j < SIZE && Dir(m', e)
      ensures GoodEntry(m', Pte(m', e, j)) && Pte(m', e, j) == Pte(m, e, j)
    {
      assert GoodEntry(m, Pte(m, e, j));
      if Mapped(m, e, j) { PageIsNoTable(m, held, e, j, d); }
    }
    DropTableView(m, held, d);
  }

  lemma DropTableExact(m: Mem, held: seq<nat>, d: nat)
    requires Shape(m) && Apart(m) && Exact(m, held) && TablesUnshared(m)
    requires 16 <= d < SIZE && Dir(m, d) && m.ram[T(m, d)] == ZeroPage()
    ensures var m' := DropTable(m, d);
            Shape(m') && Exact(m', held) && TablesUnshared(m') && m'.ram == m.ram[0 := m.ram[0][d := ZERO]]
  {
    hide Refs;
    var m' := DropTable(m, d);
    DropTableAllRefs(m, d);
    DirectoryBut(m, m', d, ZERO);
    RefsOfTable(m, d);
    assert m'.memMap == m.memMap[T(m, d) - LOW := 0];
  }

  lemma DropTableAllRefs(m: Mem, d: nat)
    requires Shape(m) && Apart(m) && 16 <= d < SIZE && Dir(m, d) && m.ram[T(m, d)] == ZeroPage()
    ensures var m' := DropTable(m, d);
            && Shape(m') && m'.ram == m.ram[0 := m.ram[0][d := ZERO]]
            && forall f | LOW <= f < HIGH :: Refs(m', f) == Refs(m, f) - (if T(m, d) == f then 1 else 0)
  {
    hide Refs;
    var m' := DropTable(m, d);
    var m1 := SetWord(m, 0, d, ZERO);
    assert Shape(m1) && Shape(m') && m'.ram == m1.ram;
    forall f | LOW <= f < HIGH ensures Refs(m', f) == Refs(m, f) - (if T(m, d) == f then 1 else 0) {
      DropTableRefs(m, d, f);
      SameRamRefs(m1, m', f);
    }
  }

  lemma DropTableView(m: Mem, held: seq<nat>, d: nat)
    requires Inv(m, held) && 16 <= d < SIZE && Dir(m, d) && m.ram[T(m, d)] == ZeroPage()
    requires Shape(DropTable(m, d)) && DropTable(m, d).ram == m.ram[0 := m.ram[0][d := ZERO]]
    ensures SameView(m, DropTable(m, d))
  {
    hide Refs;
    var m' := DropTable(m, d);
    DirectoryBut(m, m', d, ZERO);
    InvApart(m, held);
    forall e, j | 16 <= e < SIZE && 0 <= j < SIZE ensures At(m', e, j) == At(m, e, j) {
      if Mapped(m, e, j) { RefsOfPage(m, e, j); assert GoodEntry(m, Pte(m, e, j)); }
    }
  }

  /** A fresh table hung into an empty directory entry maps nothing. */
  lemma AddTableStep(m: Mem, held: seq<nat>, d: nat)
    requires Inv(m, held) && 16 <= d < SIZE && !Dir(m, d)
    ensures var (m', ok) := AddTable(m, d);
            && Inv(m', held) && SameView(m, m')
            && (!ok ==> m' == m)
            && (ok ==> Dir(m', d) && m'.ram[0] == m.ram[0][d := Entry(T(m', d))] && m'.ram[T(m', d)] == ZeroPage())
  {
    hide Refs;
    GetFreePageStep(m, held);
    var (m1, t) := GetFreePage(m);
    if t != 0 { HangTable(m1, Hold(held, t, 1), d, t); }
  }

  lemma HangTable(m: Mem, held: seq<nat>, d: nat, t: nat)
    requires Inv(m, held) && 16 <= d < SIZE && !Dir(m, d)
    requires LOW <= t < HIGH && held[t - LOW] == 1 && Refs(m, t) == 0 && Loose(m, t) && m.ram[t] == ZeroPage()
    ensures var m' := SetWord(m, 0, d, Entry(t));
            && Inv(m', Hold(held, t, -1)) && SameView(m, m')
            && Dir(m', d) && T(m', d) == t && m'.ram[0] == m.ram[0][d := Entry(t)] && m'.ram[t] == ZeroPage()
  {
    hide Refs;
    InvApart(m, held);
    var m' := SetWord(m, 0, d, Entry(t));
    assert Shape(m') && m'.ram[0] == m.ram[0][d := Entry(t)];
    DirectoryBut(m, m', d, Entry(t));
    forall f | LOW <= f < HIGH ensures m'.memMap[f - LOW] == Refs(m', f) + Hold(held, t, -1)[f - LOW] {
      AddTableRefs(m, d, t, f);
    }
    forall e, j | 16 <= e < SIZE && 0 <= j < SIZE && Dir(m', e)
      ensures GoodEntry(m', Pte(m', e, j))
    {
      if e != d { assert GoodEntry(m, Pte(m, e, j)); }
    }
    HangTableView(m, held, d, t);
  }

  lemma HangTableView(m: Mem, held: seq<nat>, d: nat, t: nat)
    requires Inv(m, held) && 16 <= d < SIZE && !Dir(m, d)
    requires LOW <= t < HIGH && m.ram[t] == ZeroPage() && Shape(SetWord(m, 0, d, Entry(t)))
    ensures SameView(m, SetWord(m, 0, d, Entry(t)))
  {
    hide Refs;
    InvApart(m, held);
    var m' := SetWord(m, 0, d, Entry(t));
    DirectoryBut(m, m', d, Entry(t));
    forall e, j | 16 <= e < SIZE && 0 <= j < SIZE ensures At(m', e, j) == At(m, e, j) {
      if Mapped(m, e, j) { assert GoodEntry(m, Pte(m, e, j)); }
    }
  }

  /** A page the kernel holds alone is put at an unmapped address, writable. */
  lemma InstallStep(m: Mem, held: seq<nat>, d: nat, i: nat, f: nat)
    requires Inv(m, held) && 16 <= d < SIZE && i < SIZE && Dir(m, d) && !Mapped(m, d, i)
    requires LOW <= f < HIGH && held[f - LOW] == 1 && Refs(m, f) == 0
    ensures var m' := Install(m, d, i, f);
            && Inv(m', Hold(held, f, -1)) && m'.ram[0] == m.ram[0]
            && OnlyAt(m, m', d, i, Shown(m.ram[f]))
  {
    hide Refs;
    InvApart(m, held);
    var m' := Install(m, d, i, f);
    assert Shape(m') && m'.ram[0] == m.ram[0];
    SameDirectory(m, m');
    forall g | LOW <= g < HIGH ensures Refs(m', g) == Refs(m, g) + Hit(Entry(f), g) {
      SetPteRefs(m, d, i, Entry(f), g);
    }
    assert Exact(m', Hold(held, f, -1));
    forall e, j | 16 <= e < SIZE && 0 <= j < SIZE && Dir(m', e)
      ensures GoodEntry(m', Pte(m', e, j))
    {
      assert GoodEntry(m, Pte(m, e, j));
    }
    RefsOfTable(m, d);
    forall e, j | 16 <= e < SIZE && 0 <= j < SIZE
      ensures At(m', e, j) == if (e, j) == (d, i) then Shown(m.ram[f]) else At(m, e, j)
    {
      if Mapped(m, e, j) { PageIsNoTable(m, held, e, j, d); }
    }
  }

  /** The write fault leaves the faulting entry writable and changes no page anybody sees, except that an
      address showing the page directory gets a copy of it. */
  lemma UnWpStep(m: Mem, held: seq<nat>, d: nat, i: nat)
    requires Inv(m, held) && 16 <= d < SIZE && Mapped(m, d, i)
    ensures T(m, d) < HIGH && Pte(m, d, i).frame < HIGH
    ensures var (m', ok) := UnWp(m, T(m, d), i);
            && Inv(m', held) && m'.ram[0] == m.ram[0]
            && (ok ==> OnlyAt(m, m', d, i, Own(At(m, d, i), m.ram[0])))
            && (!ok ==> m' == m)
            && (ok ==> Mapped(m', d, i) && Pte(m', d, i).rw)
            && (forall e: nat, j: nat | 16 <= e < SIZE && Mapped(m, e, j) && (e, j) != (d, i) ::
              Mapped(m', e, j) && Pte(m', e, j) == Pte(m, e, j))
            && (forall e: nat, j: nat | 16 <= e < SIZE && Mapped(m', e, j) :: Mapped(m, e, j))
  {
    hide Refs;
    InvApart(m, held);
    var w := Pte(m, d, i);
    assert GoodEntry(m, w);
    if w.frame >= LOW && m.memMap[w.frame - LOW] == 1 {
      MakeWritable(m, held, d, i);
    } else {
      GetFreePageStep(m, held);
      if GetFreePage(m).1 != 0 { CopyOnWrite(m, held, d, i); }
    }
  }

  lemma MakeWritable(m: Mem, held: seq<nat>, d: nat, i: nat)
    requires Inv(m, held) && 16 <= d < SIZE && Mapped(m, d, i)
    requires LOW <= Pte(m, d, i).frame < HIGH && m.memMap[Pte(m, d, i).frame - LOW] == 1
    ensures var m' := SetWord(m, T(m, d), i, Pte(m, d, i).(rw := true));
            && Inv(m', held) && SameView(m, m')
            && (forall e: nat, j: nat | 16 <= e < SIZE && Mapped(m, e, j) && (e, j) != (d, i) ::
              Mapped(m', e, j) && Pte(m', e, j) == Pte(m, e, j))
            && (forall e: nat, j: nat | 16 <= e < SIZE && Mapped(m', e, j) :: Mapped(m, e, j))
  {
    hide Refs;
    InvApart(m, held);
    var w := Pte(m, d, i);
    var m' := SetWord(m, T(m, d), i, w.(rw := true));
    assert Shape(m') && m'.ram[0] == m.ram[0];
    SameDirectory(m, m');
    forall f | LOW <= f < HIGH ensures Refs(m', f) == Refs(m, f) {
      SetPteRefs(m, d, i, w.(rw := true), f);
    }
    forall e, j | 16 <= e < SIZE && 0 <= j < SIZE && Dir(m', e)
      ensures GoodEntry(m', Pte(m', e, j))
    {
      assert GoodEntry(m, Pte(m, e, j));
    }
    forall e, j | 16 <= e < SIZE && 0 <= j < SIZE ensures At(m', e, j) == At(m, e, j) {
      if Mapped(m, e, j) { PageIsNoTable(m, held, e, j, d); }
    }
  }

  /** The copying branch: t is a fresh frame, which takes the place of the shared frame. */
  lemma CopyOnWrite(m: Mem, held: seq<nat>, d: nat, i: nat)
    requires Inv(m, held) && 16 <= d < SIZE && Mapped(m, d, i)
    requires T(m, d) < HIGH && Pte(m, d, i).frame < HIGH
    requires Pte(m, d, i).frame < LOW || m.memMap[Pte(m, d, i).frame - LOW] != 1
    requires GetFreePage(m).1 != 0
    ensures var m' := UnWp(m, T(m, d), i).0;
            && Inv(m', held) && OnlyAt(m, m', d, i, Own(At(m, d, i), m.ram[0])) && m'.ram[0] == m.ram[0]
            && Mapped(m', d, i) && Pte(m', d, i).rw
            && (forall e: nat, j: nat | 16 <= e < SIZE && Mapped(m, e, j) && (e, j) != (d, i) ::
              Mapped(m', e, j) && Pte(m', e, j) == Pte(m, e, j))
            && (forall e: nat, j: nat | 16 <= e < SIZE && Mapped(m', e, j) :: Mapped(m, e, j))
  {
    hide Refs;
    InvApart(m, held);
    var w, t := Pte(m, d, i), GetFreePage(m).1;
    assert GoodEntry(m, w);
    GetFreePageStep(m, held);
    FreeIsLoose(m, held, t);
    PageIsNoTable(m, held, d, i, d);
    RefsOfPage(m, d, i);
    var m' := UnWp(m, T(m, d), i).0;
    var c := Swapped(m, d, i, t);
    assert c == m' by { SwappedIsUnWp(m, d, i, t); }
    SwapExact(m, held, d, i, t);
    SwapEntries(m, held, d, i, t);
    SwapView(m, held, d, i, t);
  }

  /** The memory after the copying branch of un_wp_page, as one update of the counts and two frames. */
  ghost function Swapped(m: Mem, d: nat, i: nat, t: nat): Mem
    requires Shape(m) && d < SIZE && Mapped(m, d, i) && LOW <= t < HIGH && Pte(m, d, i).frame < HIGH
  {
    var w := Pte(m, d, i);
    Bump(Mem(m.memMap[t - LOW := 1],
             m.ram[t := m.ram[w.frame]][T(m, d) := m.ram[T(m, d)][i := Entry(t)]]), w.frame, -1)
  }

  lemma SwappedIsUnWp(m: Mem, d: nat, i: nat, t: nat)
    requires Shape(m) && d < SIZE && Mapped(m, d, i) && LOW <= t < HIGH && Pte(m, d, i).frame < HIGH
    requires t == GetFreePage(m).1 && t != T(m, d) && t != Pte(m, d, i).frame && Pte(m, d, i).frame != T(m, d)
    requires Pte(m, d, i).frame < LOW || m.memMap[Pte(m, d, i).frame - LOW] != 1
    ensures UnWp(m, T(m, d), i).0 == Swapped(m, d, i, t)
  {
    hide Refs;
    var w := Pte(m, d, i);
    var tab := m.ram[T(m, d)][i := Entry(t)];
    assert m.ram[t := ZeroPage()][T(m, d) := tab][t := m.ram[w.frame]] == m.ram[t := m.ram[w.frame]][T(m, d) := tab];
  }

  lemma SwapExact(m: Mem, held: seq<nat>, d: nat, i: nat, t: nat)
    requires Shape(m) && Apart(m) && Exact(m, held) && 16 <= d < SIZE && Mapped(m, d, i)
    requires LOW <= t < HIGH && Loose(m, t) && m.memMap[t - LOW] == 0 && Pte(m, d, i).frame < HIGH
    requires Pte(m, d, i).frame >= LOW ==> m.memMap[Pte(m, d, i).frame - LOW] > 0
    ensures Shape(Swapped(m, d, i, t)) && Swapped(m, d, i, t).ram[0] == m.ram[0] && Exact(Swapped(m, d, i, t), held)
  {
    hide Refs;
    SwapAllRefs(m, d, i, t);
    var w := Pte(m, d, i);
    var m' := Swapped(m, d, i, t);
    assert w.frame != t;
    assert m'.memMap == if w.frame < LOW then m.memMap[t - LOW := 1]
                        else m.memMap[t - LOW := 1][w.frame - LOW := m.memMap[w.frame - LOW] - 1];
  }

  lemma SwapAllRefs(m: Mem, d: nat, i: nat, t: nat)
    requires Shape(m) && Apart(m) && 16 <= d < SIZE && Mapped(m, d, i)
    requires LOW <= t < HIGH && Loose(m, t) && Pte(m, d, i).frame < HIGH
    ensures var (m', w) := (Swapped(m, d, i, t), Pte(m, d, i));
            && Shape(m') && m'.ram[0] == m.ram[0]
            && forall f | LOW <= f < HIGH :: Refs(m', f) == Refs(m, f) - Hit(w, f) + (if t == f then 1 else 0)
  {
    hide Refs;
    var w := Pte(m, d, i);
    var m' := Swapped(m, d, i, t);
    var m1 := m.(ram := m.ram[t := m.ram[w.frame]]);
    assert Shape(m1) && m1.ram[0] == m.ram[0];
    SameDirectory(m, m1);
    var m2 := SetWord(m1, T(m, d), i, Entry(t));
    assert Shape(m2) && Shape(m') && m'.ram == m2.ram && m'.ram[0] == m.ram[0];
    forall f | LOW <= f < HIGH ensures Refs(m', f) == Refs(m, f) - Hit(w, f) + (if t == f then 1 else 0) {
      DataRefs(m, t, m.ram[w.frame], f);
      SetPteRefs(m1, d, i, Entry(t), f);
      SameRamRefs(m2, m', f);
    }
  }

  lemma SwapEntries(m: Mem, held: seq<nat>, d: nat, i: nat, t: nat)
    requires Inv(m, held) && 16 <= d < SIZE && Mapped(m, d, i)
    requires LOW <= t < HIGH && Loose(m, t) && m.memMap[t - LOW] == 0 && Pte(m, d, i).frame < HIGH
    requires Pte(m, d, i).frame < LOW || m.memMap[Pte(m, d, i).frame - LOW] != 1
    ensures var m' := Swapped(m, d, i, t);
            && Shape(m') && TablesUnshared(m')
            && (forall e, j | 16 <= e < SIZE && 0 <= j < SIZE && Dir(m', e) :: GoodEntry(m', Pte(m', e, j)))
            && Mapped(m', d, i) && Pte(m', d, i).rw
            && (forall e: nat, j: nat | 16 <= e < SIZE && Mapped(m, e, j) && (e, j) != (d, i) ::
              Mapped(m', e, j) && Pte(m', e, j) == Pte(m, e, j))
            && (forall e: nat, j: nat | 16 <= e < SIZE && Mapped(m', e, j) :: Mapped(m, e, j))
  {
    hide Refs;
    InvApart(m, held);
    var w := Pte(m, d, i);
    var m' := Swapped(m, d, i, t);
    assert Shape(m') && m'.ram[0] == m.ram[0];
    SameDirectory(m, m');
    forall e | 16 <= e < SIZE && Dir(m', e) ensures LOW <= T(m', e) < HIGH && m'.memMap[T(m', e) - LOW] == 1 {
      PageIsNoTable(m, held, d, i, e);
    }
    forall e, j | 16 <= e < SIZE && 0 <= j < SIZE && Dir(m, e)
      ensures Pte(m', e, j) == if (e, j) == (d, i) then Entry(t) else Pte(m, e, j)
    {
    }
    forall e, j | 16 <= e < SIZE && 0 <= j < SIZE && Dir(m', e)
      ensures GoodEntry(m', Pte(m', e, j))
    {
      assert GoodEntry(m, Pte(m, e, j));
      if Mapped(m, e, j) && (e, j) != (d, i) && Pte(m, e, j).frame == w.frame && w.frame >= LOW {
        TwoPages(m, e, j, d, i);
      }
    }
  }

  lemma SwapView(m: Mem, held: seq<nat>, d: nat, i: nat, t: nat)
    requires Inv(m, held) && 16 <= d < SIZE && Mapped(m, d, i)
    requires LOW <= t < HIGH && Loose(m, t) && Pte(m, d, i).frame < HIGH && Shape(Swapped(m, d, i, t))
    ensures OnlyAt(m, Swapped(m, d, i, t), d, i, Own(At(m, d, i), m.ram[0]))
  {
    hide Refs;
    InvApart(m, held);
    var m' := Swapped(m, d, i, t);
    assert m'.ram[0] == m.ram[0];
    SameDirectory(m, m');
    PageIsNoTable(m, held, d, i, d);
    forall e, j | 16 <= e < SIZE && 0 <= j < SIZE
      ensures At(m', e, j) == if (e, j) == (d, i) then Own(At(m, d, i), m.ram[0]) else At(m, e, j)
    {
      if Mapped(m, e, j) { PageIsNoTable(m, held, e, j, d); }
    }
  }

  /** A store to a private page, as every writable one is, reaches the page of its own address and nothing
      else: no table and no other page. */
  lemma StoreStep(m: Mem, held: seq<nat>, d: nat, i: nat, off: nat, w: Word)
    requires Inv(m, held) && 16 <= d < SIZE && Mapped(m, d, i) && off < SIZE
      && (Pte(m, d, i).rw || Private(m, Pte(m, d, i).frame))
    ensures Pte(m, d, i).frame < HIGH
    ensures var f := Pte(m, d, i).frame;
            var m' := Store(m, f, off, w);
            && Inv(m', held) && m'.ram[0] == m.ram[0]
            && OnlyAt(m, m', d, i, Shown(m.ram[f][off := w]))
  {
    hide Refs;
    InvApart(m, held);
    var f := Pte(m, d, i).frame;
    assert GoodEntry(m, Pte(m, d, i));
    RefsOfPage(m, d, i);
    var m' := Store(m, f, off, w);
    forall e | 16 <= e < SIZE && Dir(m, e) ensures T(m, e) != f { PageIsNoTable(m, held, d, i, e); }
    forall g | LOW <= g < HIGH ensures Shape(m') && Refs(m', g) == Refs(m, g) {
      DataRefs(m, f, m.ram[f][off := w], g);
    }
    assert Shape(m') && m'.ram[0] == m.ram[0];
    SameDirectory(m, m');
    forall e, j | 16 <= e < SIZE && 0 <= j < SIZE && Dir(m', e)
      ensures GoodEntry(m', Pte(m', e, j))
    {
      assert GoodEntry(m, Pte(m, e, j));
    }
    forall e, j | 16 <= e < SIZE && 0 <= j < SIZE
      ensures At(m', e, j) == if (e, j) == (d, i) then Shown(m.ram[f][off := w]) else At(m, e, j)
    {
      if Mapped(m, e, j) && (e, j) != (d, i) && Pte(m, e, j).frame == f { TwoPages(m, e, j, d, i); }
    }
  }
}
