/** copy_strings, the page placement of change_ldt and create_tables (fs/exec.c:60-160) as loops over the
    argument pages and the new user memory. */
module ExecArgsCode {
  import opened ExecArgs
  import opened Counting

  class ExecImage {
    const page: array<bool>     // page[i] != 0
    const area: array<Byte>     // byte k of the area is byte k % 4096 of page k / 4096
    const user: array<Byte>     // the data segment of the new program
    var free: nat               // free pages
    var table: bool             // the page table of the top 4 MB of the data segment exists

    ghost predicate Ready()
      reads this
    {
      page.Length == 32 && area.Length == 131072 && user.Length == 0x4000000 && area != user
    }

    /** The free pages and those taken for the arguments. */
    ghost function Pages(): nat
      reads this, page
    {
      free + Count(page[..], true)
    }

    /** get_free_page for argument page i: a page of zeros, if there is one. */
    method GetPage(i: nat) returns (ok: bool)
      requires Ready() && i < 32 && !page[i]
      modifies this`free, page, area
      ensures Ready() && ok == (old(free) > 0) && free == (if ok then old(free) - 1 else 0) && Pages() == old(Pages())
      ensures page[..] == if ok then old(page[..])[i := true] else old(page[..])
      ensures forall k | 0 <= k < 131072 && k / 4096 != i :: area[k] == old(area[k])
    {
      if free == 0 { return false; }
      free := free - 1;
      CountUpdate(page[..], i, true, true);
      page[i] := true;
      ClearPage(i);
      return true;
    }

    method ClearPage(i: nat)
      requires Ready() && i < 32
      modifies area
      ensures forall k | 0 <= k < 131072 :: area[k] == if k / 4096 == i then 0 else old(area[k])
    {
      for k := 4096 * i to 4096 * i + 4096
        invariant forall j | 0 <= j < 131072 :: area[j] == if j / 4096 == i && j < k then 0 else old(area[j])
      {
        area[k] := 0;
      }
    }

    /** The loop that gets the missing pages from the one that holds byte start up to the first one present.
        Where p less the length has wrapped around, start lies far beyond the pages. */
    method GetPages(start: nat, ghost p: nat) returns (ok: bool)
      requires Ready() && p <= 131072 && if start <= p then PagesFrom(page[..], p) else start >= 131072
      modifies this`free, page, area
      ensures Ready() && area[p..] == old(area[p..]) && Pages() == old(Pages())
      ensures start <= p ==> ok == (old(free) >= Need(p, p - start))
      ensures start <= p && ok ==> free == old(free) - Need(p, p - start) && PagesFrom(page[..], start)
      ensures start > p ==> ok && free == old(free) && page[..] == old(page[..])
    {
      var i := start / 4096;
      while i < 32 && !page[i]
        invariant Ready() && Pages() == old(Pages())
        invariant start > p ==> i >= 32 && free == old(free) && page[..] == old(page[..])
        invariant start <= p ==> start / 4096 <= i <= p / 4096 <= 32 && free == old(free) - (i - start / 4096)
        invariant start <= p ==> forall k | 0 <= k < 32 :: page[k] <==> start / 4096 <= k < i || k >= p / 4096
        invariant forall k | p <= k < 131072 :: area[k] == old(area[k])
      {
        var got := GetPage(i);
        if !got { return false; }
        i := i + 1;
      }
      return true;
    }

    /** The copy of one string with its 0, from its end at byte p down. */
    method CopyDown(s: Text, p: nat) returns (e: Ending)
      requires Ready() && p <= 131072
      requires p > 0 ==> PagesFrom(page[..], if |s| < p then p - |s| - 1 else p)
      modifies area
      ensures e == if |s| < p then Copied(p - |s| - 1) else if p >= 4096 then Panic else Stray
      ensures e.Copied? ==> area[e.p..] == s + [0] + old(area[p..])
    {
      var text := s + [0];
      var len := |text|;
      var q := p;
      while len > 0
        invariant 0 <= len <= |text| && q == p - |text| + len && (|s| >= p ==> q >= p / 4096 * 4096)
        invariant forall k | q <= k < p :: area[k] == text[k - (p - |text|)]
        invariant forall k | p <= k < 131072 :: area[k] == old(area[k])
      {
        if q == 0 { return Stray; }           // page[0xFFFFF]
        q := q - 1;
        len := len - 1;
        if !page[q / 4096] { return Panic; }
        area[q] := text[len];
      }
      e := Copied(q);
    }

    /** One turn of the loop of copy_strings, with the end of the string at byte p.  Its own test for a string
        that does not fit compares an unsigned number with 0 and never succeeds. */
    method CopyString(s: Text, p: nat) returns (e: Ending)
      requires Ready() && p <= 131072 && (p > 0 ==> PagesFrom(page[..], p)) && |s| < 0x4000000
      modifies this`free, page, area
      ensures Ready() && Pages() == old(Pages())
      ensures e == StringEnding(s, old(free), p)
      ensures e.Copied? ==>
        free == old(free) - Need(p, p - e.p) && PagesFrom(page[..], e.p) && area[e.p..] == s + [0] + old(area[p..])
    {
      hide PagesFrom;
      var len := |s| + 1;
      WrapsAround(p, len);
      var ok := GetPages((p - len) % 0x1_0000_0000, p);
      if !ok { return Refused; }
      e := CopyDown(s, p);
    }

    /** copy_strings. */
    method CopyStrings(argv: seq<Text>, p: nat) returns (e: Ending)
      requires Ready() && p <= 131072 && (p > 0 ==> PagesFrom(page[..], p)) && forall k | 0 <= k < |argv| ::
        |argv[k]| < 0x4000000
      modifies this`free, page, area
      ensures Ready() && Pages() == old(Pages())
      ensures e == CopyEnding(argv, old(free), p)
      ensures e.Copied? ==>
        e.p == p - |Flat(argv)| && free == old(free) - Need(p, |Flat(argv)|)
        && area[e.p..] == Flat(argv) + old(area[p..])
      ensures e.Copied? && p > 0 ==> PagesFrom(page[..], e.p)
    {
      hide Flat, PagesFrom, CopyEnding, StringEnding, Need;
      var q, argc := p, |argv|;
      FlatEnds(argv);
      NeedSplit(p, p, p);
      assert argv[..argc] == argv;
      while argc > 0
        invariant Ready() && 0 <= argc <= |argv| && 0 <= q <= p && q == p - |Flat(argv[argc..])|
          && (p > 0 ==> PagesFrom(page[..], q))
        invariant Pages() == old(Pages()) && free == old(free) - Need(p, p - q)
          && area[q..] == Flat(argv[argc..]) + old(area[p..])
        invariant CopyEnding(argv, old(free), p) == CopyEnding(argv[..argc], free, q)
      {
        argc := argc - 1;
        FlatDrop(argv, argc);
        EndingNext(argv, argc, free, q);
        ghost var was := Flat(argv[argc + 1..]);
        e := CopyString(argv[argc], q);
        if !e.Copied? { return; }
        NeedSplit(p, q, e.p);
        q := e.p;
        assert argv[argc] + [0] + (was + old(area[p..])) == (argv[argc] + [0] + was) + old(area[p..]);
      }
      assert argv[0..] == argv;
      NoStringLeft(argv[..0], free, q);
      e := Copied(q);
    }

    /** put_page of every argument page, the last one just below the top of the segment.  The first of them
        takes one more page for the page table; without one no page is placed, which change_ldt does not notice. */
    method PlacePages()
      requires Ready()
      modifies this`free, this`table, user
      ensures Ready()
      ensures table || true !in page[..] ==> Placed(area[..], page[..], user[..])
      ensures !table ==> user[..] == old(user[..])
      ensures table <==> old(table) || (old(free) > 0 && true in page[..])
      ensures free == if table && !old(table) then old(free) - 1 else old(free)
    {
      var i := 32;
      while i > 0
        invariant 0 <= i <= 32
        invariant table <==> old(table) || (old(free) > 0 && exists j :: i <= j < 32 && page[j])
        invariant free == if table && !old(table) then old(free) - 1 else old(free)
        invariant !table ==> user[..] == old(user[..])
        invariant table ==>
          forall j, k | i <= j < 32 && page[j] && 4096 * j <= k < 4096 * (j + 1) ::
              user[0x4000000 - 131072 + k] == area[k]
      {
        i := i - 1;
        if page[i] {
          var ok := PutPage();
          if ok { PlacePage(i); }
        }
      }
    }

    /** put_page, as far as the page table goes. */
    method PutPage() returns (ok: bool)
      modifies this`free, this`table
      ensures ok == (old(table) || old(free) > 0) && table == ok
      ensures free == if old(table) || old(free) == 0 then old(free) else old(free) - 1
    {
      if !table {
        if free == 0 { return false; }
        free := free - 1;
        table := true;
      }
      ok := true;
    }

    method PlacePage(i: nat)
      requires Ready() && i < 32
      modifies user
      ensures forall k | 4096 * i <= k < 4096 * (i + 1) :: user[0x4000000 - 131072 + k] == area[k]
      ensures forall k | 0 <= k < 0x4000000 && !(4096 * i <= k - (0x4000000 - 131072) < 4096 * (i + 1)) ::
        user[k] == old(user[k])
    {
      var k := 4096 * i;
      while k < 4096 * (i + 1)
        invariant 4096 * i <= k <= 4096 * (i + 1)
        invariant forall j | 4096 * i <= j < k :: user[0x4000000 - 131072 + j] == area[j]
        invariant forall j | 0 <= j < 0x4000000 && !(4096 * i <= j - (0x4000000 - 131072) < 4096 * (i + 1)) ::
          user[j] == old(user[j])
      {
        user[0x4000000 - 131072 + k] := area[k];
        k := k + 1;
      }
    }

    /** put_fs_long. */
    method PutFsLong(v: nat, a: nat)
      requires user.Length == 0x4000000 && a + 4 <= 0x4000000
      modifies user
      ensures user[..] == PutLong(old(user[..]), a, v)
    {
      user[a], user[a + 1], user[a + 2], user[a + 3] := v % 256, v / 256 % 256, v / 65536 % 256, v / 16777216 % 256;
    }

    /** One of the two pointer loops. */
    method FillTable(slot: nat, p: nat, n: nat) returns (q: nat)
      requires user.Length == 0x4000000 && slot + 4 * (n + 1) <= 0x4000000 && p <= 0x4000000
      modifies user
      ensures (user[..], q) == Fill(old(user[..]), slot, p, n)
    {
      hide PutLong, After;
      var left, at := n, slot;
      q := p;
      while left > 0
        invariant 0 <= left <= n && at == slot + 4 * (n - left) && q <= 0x4000000
        invariant Fill(user[..], at, q, left) == Fill(old(user[..]), slot, p, n)
      {
        PutFsLong(q, at);
        at := at + 4;
        q := SkipString(q);
        left := left - 1;
      }
      PutFsLong(0, at);
    }

    /** while (get_fs_byte(p++)). */
    method SkipString(p: nat) returns (q: nat)
      requires user.Length == 0x4000000 && p <= 0x4000000
      ensures q == After(user[..], p)
    {
      q := p;
      while q < 0x4000000
        invariant p <= q <= 0x4000000 && After(user[..], p) == After(user[..], q)
        decreases 0x4000000 - q
      {
        q := q + 1;
        if user[q - 1] == 0 { return; }
      }
    }

    /** create_tables. */
    method CreateTables(p: nat, argc: nat, envc: nat) returns (sp: nat)
      requires user.Length == 0x4000000 && p <= 0x4000000 && 4 * (argc + envc + 3) <= p - p % 4
      modifies user
      ensures (user[..], sp) == Tables(old(user[..]), p, argc, envc)
    {
      hide PutLong, Fill;
      sp := p - p % 4;
      sp := sp - 4 * (envc + 1);
      var envp := sp;
      sp := sp - 4 * (argc + 1);
      var argv := sp;
      sp := sp - 4;
      PutFsLong(argc, sp);
      var q := FillTable(argv, p, argc);
      var _ := FillTable(envp, q, envc);
    }

    /** The argument part of do_execve, for strings of user memory.  Where it refuses it gives back the pages it
        took; where the strings are laid and a page is left for the page table, the new program finds its arguments. */
    method PassArguments(argv: seq<Text>, envp: seq<Text>) returns (e: Ending, sp: nat, ghost low: nat)
      requires Ready() && (forall i | 0 <= i < 32 :: !page[i])
      requires (forall k | 0 <= k < |argv| :: |argv[k]| < 0x4000000)
        && (forall k | 0 <= k < |envp| :: |envp[k]| < 0x4000000)
      modifies this`free, this`table, page, area, user
      ensures Ready() && e == ExecEnding(argv, envp, old(free))
      ensures e.Refused? ==> free == old(free) && table == old(table) && user[..] == old(user[..])
      ensures e.Copied? && (old(table) || old(free) > Need(131072, |Flat(envp)| + |Flat(argv)|)) ==>
        && sp + 4 * (|argv| + |envp| + 3) <= low && low <= 0x4000000 && GetLong(user[..], sp) == |argv|
        && TableOf(user[..], sp + 4, argv, low) && TableOf(user[..], sp + 4 + 4 * (|argv| + 1), envp, low)
        && old(free) - Need(131072, |Flat(envp)| + |Flat(argv)|) - 1 <= free
        && free <= old(free) - Need(131072, |Flat(envp)| + |Flat(argv)|)
    {
      hide Flat, TableOf, Tables, GetLong, Placed, CopyEnding, Need;
      NeedSplit(131072, 131072, 131072);
      sp, low := 0, 0;
      NoPageTaken(page[..]);
      e := CopyStrings(envp, 131072);
      if e.Panic? || e.Stray? { return; }
      var p := if e.Copied? then e.p else 0;
      StartsAtZero(argv, free);
      e := CopyStrings(argv, p);
      if e.Panic? || e.Stray? { return; }
      if e == Copied(0) || e.Refused? {
        FreePages();
        e := Refused;
        return;
      }
      NeedSplit(131072, p, e.p);
      FlatSplit(argv, envp);
      assert area[e.p..] == Flat(argv + envp) by { assert Flat(argv) + (Flat(envp) + []) == Flat(argv) + Flat(envp); }
      sp, low := SetUp(argv, envp, e.p);
    }

    /** change_ldt's placement of the pages and create_tables, with the strings laid from byte p of the area on. */
    method SetUp(argv: seq<Text>, envp: seq<Text>, start: nat) returns (sp: nat, ghost low: nat)
      requires Ready() && 0 < start <= 131072 && PagesFrom(page[..], start) && area[start..] == Flat(argv + envp)
      requires |argv| + |envp| <= 131072
      modifies this`free, this`table, user
      ensures Ready() && old(free) - 1 <= free <= old(free)
      ensures old(table) || old(free) > 0 ==>
        && sp + 4 * (|argv| + |envp| + 3) <= low && low <= 0x4000000 && GetLong(user[..], sp) == |argv|
        && TableOf(user[..], sp + 4, argv, low) && TableOf(user[..], sp + 4 + 4 * (|argv| + 1), envp, low)
    {
      hide Flat, TableOf, Tables, GetLong, Placed, PagesFrom;
      PlacePages();
      if table || true !in page[..] {
        ArgumentsRoundTrip(area[..], page[..], user[..], start, argv, envp);
      }
      var p := start + 0x4000000 - 131072;
      low := p;
      sp := CreateTables(p, |argv|, |envp|);
    }

    /** The argument pages are given back. */
    method FreePages()
      requires Ready()
      modifies this`free
      ensures Ready() && free == old(Pages())
    {
      var i := 0;
      assert page[..0] == [];
      while i < 32
        invariant 0 <= i <= 32 && free == old(free) + Count(page[..i], true)
      {
        assert page[..i + 1] == page[..i] + [page[i]];
        if page[i] { free := free + 1; }
        i := i + 1;
      }
      assert page[..32] == page[..];
    }
  }

  lemma NoPageTaken(page: seq<bool>)
    requires forall i | 0 <= i < |page| :: !page[i]
    ensures Count(page, true) == 0
  {
    if Count(page, true) >= 1 { var i := CountWitness(page, true); }
  }

  lemma FlatEnds(ss: seq<Text>)
    ensures ss[|ss|..] == [] && Flat(ss[|ss|..]) == []
  {}

  lemma NoStringLeft(ss: seq<Text>, free: nat, p: nat)
    requires ss == []
    ensures CopyEnding(ss, free, p) == Copied(p)
  {}

  /** From byte 0 any string goes astray. */
  lemma StartsAtZero(ss: seq<Text>, free: nat)
    ensures CopyEnding(ss, free, 0) == if ss == [] then Copied(0) else Stray
  {}

  lemma EndingNext(ss: seq<Text>, k: nat, free: nat, p: nat)
    requires k < |ss|
    ensures
      var e := StringEnding(ss[k], free, p);
      CopyEnding(ss[..k + 1], free, p) == if e.Copied? then CopyEnding(ss[..k], free - Need(p, p - e.p), e.p) else e
  {
    assert ss[..k + 1][..k] == ss[..k];
  }

  /** p less a length, as an unsigned number. */
  lemma WrapsAround(p: nat, len: nat)
    requires p <= 131072 && len <= 0x4000000
    ensures (p - len) % 0x1_0000_0000 == if len <= p then p - len else p - len + 0x1_0000_0000
  {}
}
