/** Demand paging with copy-on-write (mm/memory.c).

    Physical memory is an array of frames of 1024 words; the page directory is frame 0 and page
    tables are ordinary frames, so a store to the wrong frame could damage a table.  A 32-bit word is
    the record of the bit fields that the code masks out of it. */
module Paging {
  import opened Counting

  const LOW: nat := 0x200      // LOW_MEM >> 12, with BUFFER_END at 2 MB
  const HIGH: nat := 0x800     // HIGH_MEMORY >> 12
  const PAGES: nat := 0x600    // PAGING_PAGES
  const SIZE: nat := 1024      // words in a frame

  /** Bits 31..12, bit 1, bit 0, and the remaining bits (the user bit is 1). */
  datatype Word = Word(frame: nat, rw: bool, present: bool, rest: nat)
  const ZERO := Word(0, false, false, 0)
  type Page = seq<Word>

  datatype Mem = Mem(memMap: seq<nat>, ram: seq<Page>)

  function Entry(frame: nat): Word { Word(frame, true, true, 1) }   // frame | 7

  function ZeroPage(): Page { seq(SIZE, i => ZERO) }

  ghost predicate Shape(m: Mem)
  {
    && |m.memMap| == PAGES
    && |m.ram| == HIGH
    && (forall f | 0 <= f < HIGH :: |m.ram[f]| == SIZE)
    && (forall d | 0 <= d < SIZE && m.ram[0][d].present :: 0 < m.ram[0][d].frame < HIGH)
  }

  predicate Dir(m: Mem, d: nat)
    requires |m.ram| == HIGH && |m.ram[0]| == SIZE && d < SIZE
  {
    m.ram[0][d].present
  }

  /** The frame of the page table of directory entry d. */
  function T(m: Mem, d: nat): nat
    requires |m.ram| == HIGH && |m.ram[0]| == SIZE && d < SIZE
  {
    m.ram[0][d].frame
  }

  predicate Mapped(m: Mem, d: nat, i: nat)
    requires Shape(m)
  {
    d < SIZE && i < SIZE && Dir(m, d) && m.ram[T(m, d)][i].present
  }

  function Pte(m: Mem, d: nat, i: nat): Word
    requires Shape(m) && d < SIZE && i < SIZE && Dir(m, d)
  {
    m.ram[T(m, d)][i]
  }

  // ----- single steps of the code -----

  function Bump(m: Mem, f: nat, delta: int): Mem
  {
    if LOW <= f < HIGH && |m.memMap| == PAGES && m.memMap[f - LOW] + delta >= 0
    then m.(memMap := m.memMap[f - LOW := m.memMap[f - LOW] + delta])
    else m
  }

  function SetWord(m: Mem, f: nat, i: nat, w: Word): Mem
    requires f < |m.ram| && i < |m.ram[f]|
  {
    m.(ram := m.ram[f := m.ram[f][i := w]])
  }

  /** One more than the index of the last zero among the first n counts, 0 when there is none. */
  function LastFree(memMap: seq<nat>, n: nat): (k: nat)
    requires n <= |memMap|
    ensures k <= n
    ensures k > 0 ==> memMap[k - 1] == 0
    ensures forall j | k <= j < n :: memMap[j] != 0
  {
    if n == 0 then 0 else if memMap[n - 1] == 0 then n else LastFree(memMap, n - 1)
  }

  /** get_free_page: the last free frame, marked used and cleared; frame 0 stands for "none". */
  function GetFreePage(m: Mem): (r: (Mem, nat))
    requires |m.memMap| == PAGES && |m.ram| == HIGH
  {
    var k := LastFree(m.memMap, PAGES);
    if k == 0 then (m, 0)
    else (Mem(m.memMap[k - 1 := 1], m.ram[LOW + k - 1 := ZeroPage()]), LOW + k - 1)
  }

  /** free_page, up to the panics. */
  function FreePage(m: Mem, f: nat): Mem { Bump(m, f, -1) }

  /** One turn of the inner loop of free_page_tables. */
  function ClearEntry(m: Mem, t: nat, i: nat): Mem
    requires t < |m.ram| && i < |m.ram[t]|
  {
    SetWord(if m.ram[t][i].present then FreePage(m, m.ram[t][i].frame) else m, t, i, ZERO)
  }

  /** The end of a turn of the outer loop of free_page_tables. */
  function DropTable(m: Mem, d: nat): Mem
    requires |m.ram| == HIGH && |m.ram[0]| == SIZE && d < SIZE
  {
    SetWord(FreePage(m, T(m, d)), 0, d, ZERO)
  }

  /** One turn of the inner loop of copy_page_tables. */
  function CopyEntry(m: Mem, ft: nat, tt: nat, i: nat): Mem
    requires ft < |m.ram| && tt < |m.ram| && i < |m.ram[ft]| && |m.ram[tt]| == |m.ram[ft]|
  {
    var w := m.ram[ft][i];
    if !w.present then m
    else
      var w' := w.(rw := false);
      var m1 := SetWord(m, tt, i, w');
      if w.frame < LOW then m1 else Bump(SetWord(m1, ft, i, w'), w.frame, 1)
  }

  /** put_page once the table exists. */
  function Install(m: Mem, d: nat, i: nat, f: nat): Mem
    requires Shape(m) && d < SIZE && i < SIZE && Dir(m, d)
  {
    SetWord(m, T(m, d), i, Entry(f))
  }

  /** The table allocation shared by put_page and copy_page_tables. */
  function AddTable(m: Mem, d: nat): (r: (Mem, bool))
    requires Shape(m) && d < SIZE
  {
    var (m1, t) := GetFreePage(m);
    if t == 0 then (m, false) else (SetWord(m1, 0, d, Entry(t)), true)
  }

  /** un_wp_page on entry i of table t; false when out of memory.  No user entry maps a frame outside
      physical memory (Inv). */
  function UnWp(m: Mem, t: nat, i: nat): (r: (Mem, bool))
    requires Shape(m) && 0 < t < HIGH && i < SIZE
    ensures Shape(r.0)
  {
    var src := m.ram[t][i].frame;
    if LOW <= src < HIGH && m.memMap[src - LOW] == 1 then
      (SetWord(m, t, i, m.ram[t][i].(rw := true)), true)
    else
      var (m1, dst) := GetFreePage(m);
      if dst == 0 || src >= HIGH then (m, false)
      else
        var m2 := SetWord(Bump(m1, src, -1), t, i, Entry(dst));
        (m2.(ram := m2.ram[dst := m2.ram[src]]), true)
  }

  /** The store that the processor makes to word off of frame f. */
  function Store(m: Mem, f: nat, off: nat, w: Word): (r: Mem)
    requires Shape(m) && off < SIZE
    ensures Shape(r)
  {
    if 0 < f < HIGH then SetWord(m, f, off, w) else m
  }

  // ----- exact reference counts -----

  /** The frames that directory entry d refers to: its table and the pages mapped there. */
  ghost function Row(m: Mem, d: nat): seq<nat>
    requires Shape(m) && d < SIZE
  {
    if d < 16 || !Dir(m, d) then []
    else [T(m, d)] + Frames(m.ram[T(m, d)])
  }

  ghost function Frames(page: Page): (fs: seq<nat>)
    ensures |fs| == |page|
  {
    seq(|page|, i requires 0 <= i < |page| => if page[i].present then page[i].frame else 0)
  }

  ghost function Rows(m: Mem): (rows: seq<seq<nat>>)
    requires Shape(m)
    ensures |rows| == SIZE
    ensures forall d | 0 <= d < SIZE :: rows[d] == Row(m, d)
  {
    seq(SIZE, d requires 0 <= d < SIZE => Row(m, d))
  }

  ghost function Refs(m: Mem, f: nat): nat
    requires Shape(m)
  {
    Total(Rows(m), f)
  }

  /** User page tables are frames of the paging area, one per directory entry. */
  ghost predicate Apart(m: Mem)
    requires Shape(m)
  {
    && (forall d | 16 <= d < SIZE && Dir(m, d) :: LOW <= T(m, d) < HIGH)
    && (forall d, d' | 16 <= d < SIZE && 16 <= d' < SIZE && d != d' && Dir(m, d) && Dir(m, d') :: T(m, d) != T(m, d'))
  }

  /** held[k] counts the references to frame LOW+k that the kernel keeps elsewhere. */
  ghost predicate Exact(m: Mem, held: seq<nat>)
    requires Shape(m)
  {
    |held| == PAGES && forall f | LOW <= f < HIGH :: m.memMap[f - LOW] == Refs(m, f) + held[f - LOW]
  }

  /** A writable user entry maps a frame of the paging area that nobody else refers to.  A read-only one may
      map any frame, also frame 0, the page directory: the first fork gives task 1 such an entry. */
  ghost predicate GoodEntry(m: Mem, w: Word)
    requires Shape(m)
  {
    w.present ==> w.frame < HIGH && (w.rw ==> Private(m, w.frame))
  }

  ghost predicate Inv(m: Mem, held: seq<nat>)
  {
    && Shape(m)
    && Exact(m, held)
    && TablesUnshared(m)
    && HeldAlone(m, held)
    && Tidy(m)
    && (forall d, i | 16 <= d < SIZE && 0 <= i < SIZE && Dir(m, d) :: GoodEntry(m, Pte(m, d, i)))
  }

  /** Directory entries of user space that are not present are cleared. */
  ghost predicate Tidy(m: Mem)
    requires Shape(m)
  {
    forall d | 16 <= d < SIZE && !Dir(m, d) :: m.ram[0][d] == ZERO
  }

  /** A frame of the paging area that is referred to once. */
  predicate Private(m: Mem, f: nat)
    requires |m.memMap| == PAGES
  {
    LOW <= f < HIGH && m.memMap[f - LOW] == 1
  }

  /** A page table is referred to by its directory entry alone. */
  ghost predicate TablesUnshared(m: Mem)
    requires Shape(m)
  {
    forall d | 16 <= d < SIZE && Dir(m, d) :: LOW <= T(m, d) < HIGH && m.memMap[T(m, d) - LOW] == 1
  }

  /** A page the kernel holds is in no page table. */
  ghost predicate HeldAlone(m: Mem, held: seq<nat>)
    requires Shape(m)
  {
    |held| == PAGES && forall k | 0 <= k < PAGES && held[k] > 0 :: m.memMap[k] == 1
  }

  lemma RefsOfTable(m: Mem, d: nat)
    requires Shape(m) && 16 <= d < SIZE && Dir(m, d)
    ensures Refs(m, T(m, d)) >= 1
  {
    hide Total;
    CountPositive(Row(m, d), 0);
    TotalAtLeast(Rows(m), d, T(m, d));
  }

  lemma RefsOfPage(m: Mem, d: nat, i: nat)
    requires Shape(m) && 16 <= d < SIZE && Mapped(m, d, i)
    ensures Refs(m, Pte(m, d, i).frame) >= 1
  {
    hide Total;
    assert Row(m, d)[i + 1] == Pte(m, d, i).frame;
    CountPositive(Row(m, d), i + 1);
    TotalAtLeast(Rows(m), d, Pte(m, d, i).frame);
  }

  lemma TwoTables(m: Mem, d: nat, d': nat)
    requires Shape(m) && 16 <= d < SIZE && 16 <= d' < SIZE && d != d' && Dir(m, d) && Dir(m, d')
    requires T(m, d) == T(m, d')
    ensures Refs(m, T(m, d)) >= 2
  {
    hide Total;
    CountPositive(Row(m, d), 0);
    CountPositive(Row(m, d'), 0);
    TotalTwoRows(Rows(m), d, d', T(m, d));
  }

  lemma TableAndPage(m: Mem, d: nat, d': nat, i: nat)
    requires Shape(m) && 16 <= d < SIZE && 16 <= d' < SIZE && Dir(m, d) && Mapped(m, d', i)
    requires T(m, d) == Pte(m, d', i).frame
    ensures Refs(m, T(m, d)) >= 2
  {
    hide Total;
    assert Row(m, d')[i + 1] == Pte(m, d', i).frame;
    if d == d' {
      CountTwice(Row(m, d), 0, i + 1);
      TotalAtLeast(Rows(m), d, T(m, d));
    } else {
      CountPositive(Row(m, d), 0);
      CountPositive(Row(m, d'), i + 1);
      TotalTwoRows(Rows(m), d, d', T(m, d));
    }
  }

  lemma TwoPages(m: Mem, d: nat, i: nat, d': nat, i': nat)
    requires Shape(m) && 16 <= d < SIZE && 16 <= d' < SIZE && (d != d' || i != i')
    requires Mapped(m, d, i) && Mapped(m, d', i') && Pte(m, d, i).frame == Pte(m, d', i').frame
    ensures Refs(m, Pte(m, d, i).frame) >= 2
  {
    hide Total;
    var f := Pte(m, d, i).frame;
    assert Row(m, d)[i + 1] == f && Row(m, d')[i' + 1] == f;
    if d == d' {
      CountTwice(Row(m, d), (if i < i' then i else i') + 1, (if i < i' then i' else i) + 1);
      TotalAtLeast(Rows(m), d, f);
    } else {
      CountPositive(Row(m, d), i + 1);
      CountPositive(Row(m, d'), i' + 1);
      TotalTwoRows(Rows(m), d, d', f);
    }
  }

  lemma InvApart(m: Mem, held: seq<nat>)
    requires Inv(m, held)
    ensures Apart(m)
  {
    forall d, d' | 16 <= d < SIZE && 16 <= d' < SIZE && d != d' && Dir(m, d) && Dir(m, d')
      ensures T(m, d) != T(m, d')
    {
      if T(m, d) == T(m, d') { TwoTables(m, d, d'); }
    }
  }

  /** A frame that no row refers to is neither a table nor mapped. */
  ghost predicate Loose(m: Mem, f: nat)
    requires Shape(m)
  {
    && f >= LOW
    && (forall d | 16 <= d < SIZE && Dir(m, d) :: T(m, d) != f)
    && (forall d, i | 16 <= d < SIZE && Mapped(m, d, i) :: Pte(m, d, i).frame != f)
  }

  lemma FreeIsLoose(m: Mem, held: seq<nat>, f: nat)
    requires Inv(m, held) && LOW <= f < HIGH && m.memMap[f - LOW] == 0
    ensures Loose(m, f) && Refs(m, f) == 0 && held[f - LOW] == 0
  {
    forall d | 16 <= d < SIZE && Dir(m, d) ensures T(m, d) != f {
      RefsOfTable(m, d);
    }
    forall d, i | 16 <= d < SIZE && Mapped(m, d, i) ensures Pte(m, d, i).frame != f {
      RefsOfPage(m, d, i);
    }
  }

  /** A mapped frame is never a page table. */
  lemma PageIsNoTable(m: Mem, held: seq<nat>, d: nat, i: nat, d': nat)
    requires Inv(m, held) && 16 <= d < SIZE && 16 <= d' < SIZE && Mapped(m, d, i) && Dir(m, d')
    ensures Pte(m, d, i).frame != T(m, d')
  {
    hide Refs, GoodEntry, HeldAlone, Tidy;
    if Pte(m, d, i).frame == T(m, d') { TableAndPage(m, d', d, i); }
  }

  // ----- how the rows move -----

  function Key(w: Word): nat { if w.present then w.frame else 0 }

  function Hit(w: Word, f: nat): int { if w.present && w.frame == f then 1 else 0 }

  lemma SetPteRefs(m: Mem, d: nat, i: nat, w: Word, f: nat)
    requires Shape(m) && Apart(m) && 16 <= d < SIZE && i < SIZE && Dir(m, d) && f >= LOW
    ensures var m' := SetWord(m, T(m, d), i, w);
            Shape(m') && Refs(m', f) == Refs(m, f) - Hit(Pte(m, d, i), f) + Hit(w, f)
  {
    hide Total;
    var m' := SetWord(m, T(m, d), i, w);
    var row := Row(m, d)[i + 1 := Key(w)];
    assert Shape(m');
    assert Row(m', d) == row;
    assert Rows(m') == Rows(m)[d := row];
    TotalUpdate(Rows(m), d, row, f);
    CountUpdate(Row(m, d), i + 1, Key(w), f);
    assert Row(m, d)[i + 1] == Key(Pte(m, d, i));
  }

  /** The references depend on the frames alone. */
  lemma SameRamRefs(m: Mem, m': Mem, f: nat)
    requires Shape(m) && Shape(m') && m'.ram == m.ram
    ensures Refs(m', f) == Refs(m, f)
  {
    hide Total;
    assert Rows(m') == Rows(m);
  }

  /** Changing a frame that is not a page table changes no reference. */
  lemma DataRefs(m: Mem, g: nat, page: Page, f: nat)
    requires Shape(m) && Apart(m) && 0 < g < HIGH && |page| == SIZE
    requires forall d | 16 <= d < SIZE && Dir(m, d) :: T(m, d) != g
    ensures var m' := m.(ram := m.ram[g := page]); Shape(m') && Refs(m', f) == Refs(m, f)
  {
    hide Total;
    var m' := m.(ram := m.ram[g := page]);
    assert Rows(m') == Rows(m);
  }

  /** Hanging a cleared table into an empty directory entry adds one reference, to the table. */
  lemma AddTableRefs(m: Mem, d: nat, t: nat, f: nat)
    requires Shape(m) && Apart(m) && 16 <= d < SIZE && !Dir(m, d) && LOW <= t < HIGH && f >= LOW
    requires m.ram[t] == ZeroPage()
    ensures var m' := SetWord(m, 0, d, Entry(t));
            Shape(m') && Refs(m', f) == Refs(m, f) + (if t == f then 1 else 0)
  {
    hide Total;
    var m' := SetWord(m, 0, d, Entry(t));
    var row := [t] + Frames(ZeroPage());
    assert Row(m', d) == row;
    assert Rows(m') == Rows(m)[d := row];
    TotalUpdate(Rows(m), d, row, f);
    EmptyTable(f);
    assert multiset(row) == multiset([t]) + multiset(Frames(ZeroPage()));
  }

  lemma EmptyTable(f: nat)
    requires f >= LOW
    ensures Count(Frames(ZeroPage()), f) == 0
  {}

  lemma DropTableRefs(m: Mem, d: nat, f: nat)
    requires Shape(m) && Apart(m) && 16 <= d < SIZE && Dir(m, d) && f >= LOW
    requires m.ram[T(m, d)] == ZeroPage()
    ensures var m' := SetWord(m, 0, d, ZERO);
            Shape(m') && Refs(m', f) == Refs(m, f) - (if T(m, d) == f then 1 else 0)
  {
    hide Total;
    var m' := SetWord(m, 0, d, ZERO);
    assert Rows(m') == Rows(m)[d := []];
    TotalUpdate(Rows(m), d, [], f);
    EmptyTable(f);
    assert multiset(Row(m, d)) == multiset([T(m, d)]) + multiset(Frames(ZeroPage()));
  }
}
