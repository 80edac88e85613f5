/** The routines of mm/memory.c on the arrays they update, each equal to its specification. */
module PagingCode {
  import opened Paging
  import opened PagingSteps
  import opened PagingLoops

  class Memory {
    const memMap: array<nat>
    const ram: array<Page>

    ghost function Abs(): Mem
      reads memMap, ram
    {
      Mem(memMap[..], ram[..])
    }

    ghost predicate Valid()
      reads memMap, ram
    {
      Shape(Abs())
    }

    method GetFreePage() returns (page: nat)
      requires Valid()
      modifies memMap, ram
      ensures Valid() && (Abs(), page) == Paging.GetFreePage(old(Abs()))
    {
      var k := PAGES;
      while k > 0 && memMap[k - 1] != 0
        invariant 0 <= k <= PAGES
        invariant LastFree(memMap[..], PAGES) == LastFree(memMap[..], k)
      {
        k := k - 1;
      }
      if k == 0 { return 0; }
      memMap[k - 1] := 1;
      ram[LOW + k - 1] := ZeroPage();
      page := LOW + k - 1;
    }

    /** The guard excludes both panics. */
    method FreePage(f: nat)
      requires Valid() && (f >= LOW ==> f < HIGH && memMap[f - LOW] > 0)
      modifies memMap
      ensures Valid() && Abs() == Paging.FreePage(old(Abs()), f)
    {
      if f < LOW { return; }
      memMap[f - LOW] := memMap[f - LOW] - 1;
    }

    /** No panic can occur: held witnesses that the counts are exact. */
    method FreePageTables(from: nat, size: nat, ghost held: seq<nat>)
      requires Valid() && 16 <= from && from + size <= SIZE && Inv(Abs(), held)
      modifies memMap, ram
      ensures Valid() && Abs() == FreeTables(old(Abs()), from, size)
    {
      var d, n := from, size;
      while n > 0
        invariant Valid() && Inv(Abs(), held) && d == from + size - n && 0 <= n <= size
        invariant FreeTables(Abs(), d, n) == FreeTables(old(Abs()), from, size)
      {
        if ram[0][d].present {
          FreeOneTable(d, held);
        }
        d, n := d + 1, n - 1;
      }
    }

    /** One turn of the outer loop of free_page_tables. */
    method FreeOneTable(d: nat, ghost held: seq<nat>)
      requires Valid() && 16 <= d < SIZE && Inv(Abs(), held) && Dir(Abs(), d)
      modifies memMap, ram
      ensures Valid() && Inv(Abs(), held)
      ensures Abs() == DropTable(ClearEntries(old(Abs()), T(old(Abs()), d), 0), d)
    {
      hide Refs; hide ClearEntry; hide GoodEntry; hide HeldAlone; hide Exact;
      var t := ram[0][d].frame;
      ghost var m0 := Abs();
      var nr := 0;
      while nr < SIZE
        invariant 0 <= nr <= SIZE && Valid() && Inv(Abs(), held) && ram[0] == m0.ram[0]
        invariant ClearEntries(Abs(), t, nr) == ClearEntries(m0, t, 0)
        invariant forall j | 0 <= j < nr :: ram[t][j] == ZERO
      {
        ghost var m := Abs();
        ClearEntryStep(m, held, d, nr);
        ClearWord(t, nr);
        nr := nr + 1;
      }
      ghost var m1 := Abs();
      assert m1.ram[t] == ZeroPage();
      SameDirectory(m0, m1);
      DropTableStep(m1, held, d);
      DropWord(d);
    }

    /** One turn of the inner loop of free_page_tables. */
    method ClearWord(t: nat, i: nat)
      requires Valid() && 0 < t < HIGH && i < SIZE
      requires var w := ram[t][i]; w.present && w.frame >= LOW ==> w.frame < HIGH && memMap[w.frame - LOW] > 0
      modifies memMap, ram
      ensures Valid() && Abs() == ClearEntry(old(Abs()), t, i)
    {
      if ram[t][i].present { FreePage(ram[t][i].frame); }
      ram[t] := ram[t][i := ZERO];
    }

    method DropWord(d: nat)
      requires Valid() && d < SIZE && ram[0][d].present && LOW <= ram[0][d].frame && memMap[ram[0][d].frame - LOW] > 0
      modifies memMap, ram
      ensures Valid() && Abs() == DropTable(old(Abs()), d)
    {
      FreePage(ram[0][d].frame);
      ram[0] := ram[0][d := ZERO];
    }

    /** copy_page_tables; -1 when memory ran out.  The entries of the copy must be empty, which is the
        code's own panic. */
    method CopyPageTables(from: nat, to: nat, size: nat, nr: nat) returns (err: int)
      requires Valid() && from + size <= SIZE && to + size <= SIZE && nr <= SIZE
      requires from + size <= to || to + size <= from
      requires forall d | to <= d < to + size :: !Dir(Abs(), d)
      modifies memMap, ram
      ensures Valid() && err == (if CopyTables(old(Abs()), from, to, size, nr).1 then 0 else -1)
      ensures Abs() == CopyTables(old(Abs()), from, to, size, nr).0
    {
      hide PagingLoops.CopyTable;
      var f, t, n := from, to, size;
      while n > 0
        invariant 0 <= n <= size && f == from + size - n && t == to + size - n && Valid()
        invariant CopyTables(Abs(), f, t, n, nr) == CopyTables(old(Abs()), from, to, size, nr)
      {
        var ok := CopyTable(f, t, nr);
        if !ok { return -1; }
        f, t, n := f + 1, t + 1, n - 1;
      }
      return 0;
    }

    /** One turn of the outer loop of copy_page_tables. */
    method CopyTable(f: nat, t: nat, nr: nat) returns (ok: bool)
      requires Valid() && f < SIZE && t < SIZE && f != t && nr <= SIZE
      modifies memMap, ram
      ensures Valid() && (Abs(), ok) == PagingLoops.CopyTable(old(Abs()), f, t, nr)
    {
      hide CopyEntries;
      ok := true;
      if ram[0][f].present {
        ok := NewTable(t);
        if ok {
          assert Dir(Abs(), f) && Dir(Abs(), t);
          CopyOneTable(ram[0][f].frame, ram[0][t].frame, nr);
        }
      }
    }

    method NewTable(d: nat) returns (ok: bool)
      requires Valid() && d < SIZE
      modifies memMap, ram
      ensures Valid() && (Abs(), ok) == AddTable(old(Abs()), d)
      ensures ok ==> Dir(Abs(), d)
      ensures forall e | 0 <= e < SIZE && e != d ::
        Dir(Abs(), e) == Dir(old(Abs()), e) && T(Abs(), e) == T(old(Abs()), e)
    {
      var t := GetFreePage();
      if t == 0 { return false; }
      ram[0] := ram[0][d := Entry(t)];
      ok := true;
    }

    method CopyOneTable(ft: nat, tt: nat, nr: nat)
      requires Valid() && 0 < ft < HIGH && 0 < tt < HIGH && nr <= SIZE
      modifies memMap, ram
      ensures Valid() && Abs() == CopyEntries(old(Abs()), ft, tt, 0, nr)
    {
      var k := 0;
      while k < nr
        invariant 0 <= k <= nr && Valid()
        invariant CopyEntries(Abs(), ft, tt, k, nr) == CopyEntries(old(Abs()), ft, tt, 0, nr)
      {
        CopyWord(ft, tt, k);
        k := k + 1;
      }
    }

    /** One turn of the inner loop of copy_page_tables. */
    method CopyWord(ft: nat, tt: nat, i: nat)
      requires Valid() && 0 < ft < HIGH && 0 < tt < HIGH && i < SIZE
      modifies memMap, ram
      ensures Valid() && Abs() == CopyEntry(old(Abs()), ft, tt, i)
    {
      var page := ram[ft][i];
      if !page.present { return; }
      page := page.(rw := false);
      ram[tt] := ram[tt][i := page];
      if page.frame >= LOW {
        ram[ft] := ram[ft][i := page];
        if page.frame < HIGH { memMap[page.frame - LOW] := memMap[page.frame - LOW] + 1; }
      }
    }

    /** put_page for a page taken by get_free_page; false when the table cannot be allocated. */
    method PutPage(page: nat, d: nat, i: nat) returns (ok: bool)
      requires Valid() && d < SIZE && i < SIZE
      modifies memMap, ram
      ensures Valid()
      ensures var m := old(Abs());
              var (m1, ok1) := if Dir(m, d) then (m, true) else AddTable(m, d);
              ok == ok1 && Abs() == if ok then Install(m1, d, i, page) else m
    {
      ok := true;
      if !ram[0][d].present { ok := NewTable(d); }
      if ok {
        var t := ram[0][d].frame;
        ram[t] := ram[t][i := Entry(page)];
      }
    }

    /** do_no_page, up to the exit of the task; lost is a page taken but not placed. */
    method DoNoPage(d: nat, i: nat) returns (ok: bool, lost: nat)
      requires Valid() && d < SIZE && i < SIZE
      modifies memMap, ram
      ensures Valid() && (Abs(), ok, lost) == NoPage(old(Abs()), d, i)
    {
      var page := GetFreePage();
      if page == 0 { return false, 0; }
      ok := PutPage(page, d, i);
      lost := if ok then 0 else page;
    }

    /** un_wp_page, up to the exit of the task. */
    method UnWpPage(t: nat, i: nat) returns (ok: bool)
      requires Valid() && 0 < t < HIGH && i < SIZE && ram[t][i].frame < HIGH
      requires ram[t][i].frame >= LOW ==> memMap[ram[t][i].frame - LOW] > 0
      modifies memMap, ram
      ensures Valid() && (Abs(), ok) == UnWp(old(Abs()), t, i)
    {
      var oldPage := ram[t][i].frame;
      if oldPage >= LOW && memMap[oldPage - LOW] == 1 {
        ram[t] := ram[t][i := ram[t][i].(rw := true)];
        return true;
      }
      var newPage := GetFreePage();
      if newPage == 0 { return false; }
      if oldPage >= LOW { memMap[oldPage - LOW] := memMap[oldPage - LOW] - 1; }
      ram[t] := ram[t][i := Entry(newPage)];
      ram[newPage] := ram[oldPage];
      ok := true;
    }

    /** write_verify; held witnesses that the counts are exact. */
    method WriteVerify(d: nat, i: nat, ghost held: seq<nat>) returns (ok: bool)
      requires Valid() && 16 <= d < SIZE && i < SIZE && Inv(Abs(), held)
      modifies memMap, ram
      ensures Valid() && Inv(Abs(), held) && (Abs(), ok) == PagingLoops.WriteVerify(old(Abs()), d, i)
    {
      hide Refs; hide UnWp; hide Exact;
      if !ram[0][d].present { return true; }
      var t := ram[0][d].frame;
      if ram[t][i].present && !ram[t][i].rw {
        UnWpStep(Abs(), held, d, i);
        SharedCount(Abs(), held, d, i);
        ok := UnWpPage(t, i);
      } else {
        ok := true;
      }
    }

    /** verify_area; the loop of kernel/fork.c.  base is the start of the data segment.  Every byte of the
        area lies in one of the pages verified, and each of these pages holds a byte of it. */
    method VerifyArea(addr: nat, size: int, base: nat, ghost held: seq<nat>) returns (ok: bool)
      requires Valid() && Inv(Abs(), held)
      requires 16 * SIZE * BYTES <= base && base % BYTES == 0
      requires base + addr < SIZE * SIZE * BYTES && base + addr + size <= SIZE * SIZE * BYTES
      modifies memMap, ram
      ensures Valid()
      ensures (base + addr) / BYTES + PagesOf(addr, size) <= SIZE * SIZE
      ensures (Abs(), ok) == PagingLoops.VerifyArea(old(Abs()), (base + addr) / BYTES, PagesOf(addr, size))
    {
      hide Inv; hide PagingLoops.WriteVerify; hide PagesOf;
      AreaFits(addr, size, base);
      ghost var first, n, k := (base + addr) / BYTES, PagesOf(addr, size), 0;
      var start, left := addr, size;
      left := left + start % BYTES;
      start := start - start % BYTES;
      start := start + base;
      while left > 0
        invariant 0 <= k <= n && start == (first + k) * BYTES && left == size + addr % BYTES - k * BYTES
        invariant Valid() && Inv(Abs(), held)
        invariant PagingLoops.VerifyArea(Abs(), first + k, n - k) == PagingLoops.VerifyArea(old(Abs()), first, n)
      {
        left := left - BYTES;
        assert start / BYTES == first + k;
        ok := WriteVerify(start / BYTES / SIZE, start / BYTES % SIZE, held);
        if !ok { return; }
        start := start + BYTES;
        k := k + 1;
      }
      ok := true;
    }
  }

  const BYTES: nat := 4096     // bytes in a page

  /** The number of pages that verify_area visits. */
  function PagesOf(addr: nat, size: int): nat
  {
    if addr % BYTES + size > 0 then (addr % BYTES + size - 1) / BYTES + 1 else 0
  }

  lemma AreaFits(addr: nat, size: int, base: nat)
    requires base % BYTES == 0 && base + addr < SIZE * SIZE * BYTES && base + addr + size <= SIZE * SIZE * BYTES
    ensures (base + addr) / BYTES == base / BYTES + addr / BYTES
    ensures (base + addr) / BYTES + PagesOf(addr, size) <= SIZE * SIZE
    ensures var (n, total) := (PagesOf(addr, size), addr % BYTES + size);
            if total > 0 then (n - 1) * BYTES < total <= n * BYTES else n == 0
  {}

  /** The pages visited are those that hold a byte of the area. */
  lemma AreaIsCovered(addr: nat, size: nat, page: nat)
    requires size > 0
    ensures addr / BYTES <= page < addr / BYTES + PagesOf(addr, size)
       <==> exists a :: addr <= a < addr + size && a / BYTES == page
  {
    if addr / BYTES <= page < addr / BYTES + PagesOf(addr, size) {
      var a := if page == addr / BYTES then addr else page * BYTES;
      assert addr <= a < addr + size && a / BYTES == page;
    }
  }

  lemma SharedCount(m: Mem, held: seq<nat>, d: nat, i: nat)
    requires Inv(m, held) && 16 <= d < SIZE && Mapped(m, d, i)
    ensures Pte(m, d, i).frame < HIGH
    ensures Pte(m, d, i).frame >= LOW ==> m.memMap[Pte(m, d, i).frame - LOW] > 0
  {
    assert GoodEntry(m, Pte(m, d, i));
    RefsOfPage(m, d, i);
  }
}
