/** Arguments of a new program (fs/exec.c:60-136, 155-160, 421-422, 450-451): the strings are copied
    downwards into up to 32 pages, the pages are put at the top of the new data segment, and
    create_tables builds the pointer tables below the strings. */
module ExecArgs {

  type Byte = b: int | 0 <= b < 256

  /** A C string without its final 0. */
  type Text = s: seq<Byte> | forall k | 0 <= k < |s| :: s[k] != 0

  /** The strings one after the other, each with its final 0. */
  function Flat(ss: seq<Text>): (r: seq<Byte>)
    ensures |r| >= |ss|
  {
    if ss == [] then [] else Flat(ss[..|ss| - 1]) + ss[|ss| - 1] + [0]
  }

  lemma FlatLast(ss: seq<Text>)
    requires ss != []
    ensures Flat(ss) == Flat(ss[..|ss| - 1]) + ss[|ss| - 1] + [0]
  {}

  lemma {:induction false} FlatFirst(ss: seq<Text>)
    requires ss != []
    ensures Flat(ss) == ss[0] + [0] + Flat(ss[1..])
  {
    var n := |ss| - 1;
    if n == 0 {
      assert ss[..0] == [] && ss[1..] == [];
    } else {
      FlatFirst(ss[..n]);
      assert ss[..n][1..] == ss[1..][..n - 1] && ss[1..][n - 1] == ss[n] && ss[..n][0] == ss[0];
      FlatLast(ss);
      FlatLast(ss[1..]);
      hide Flat;
      calc {
        Flat(ss);
        Flat(ss[..n]) + ss[n] + [0];
        (ss[0] + [0] + Flat(ss[1..][..n - 1])) + ss[n] + [0];
        ss[0] + [0] + (Flat(ss[1..][..n - 1]) + ss[n] + [0]);
        ss[0] + [0] + Flat(ss[1..]);
      }
    }
  }

  lemma FlatDrop(ss: seq<Text>, k: nat)
    requires k < |ss|
    ensures Flat(ss[k..]) == ss[k] + [0] + Flat(ss[k + 1..])
  {
    FlatFirst(ss[k..]);
    assert ss[k..][1..] == ss[k + 1..];
  }

  // ----- words in user memory -----

  type Memory = m: seq<Byte> | |m| == 0x4000000 witness seq(0x4000000, i => 0)

  /** put_fs_long: four bytes, the lowest first. */
  function PutLong(m: Memory, a: nat, v: nat): (r: Memory)
    requires a + 4 <= 0x4000000
  {
    m[a := v % 256][a + 1 := v / 256 % 256][a + 2 := v / 65536 % 256][a + 3 := v / 16777216 % 256]
  }

  function GetLong(m: Memory, a: nat): nat
    requires a + 4 <= 0x4000000
  {
    m[a] as int + 256 * (m[a + 1] as int) + 65536 * (m[a + 2] as int) + 16777216 * (m[a + 3] as int)
  }

  lemma LongRoundTrip(m: Memory, a: nat, v: nat)
    requires a + 4 <= 0x4000000 && v < 0x1_0000_0000
    ensures GetLong(PutLong(m, a, v), a) == v
  {
    Digits(v);
    var m' := PutLong(m, a, v);
    assert m'[a] == v % 256 && m'[a + 1] == v / 256 % 256 && m'[a + 2] == v / 65536 % 256
        && m'[a + 3] == v / 16777216 % 256;
    hide PutLong;
  }

  lemma Digits(v: nat)
    requires v < 0x1_0000_0000
    ensures v == v % 256 + 256 * (v / 256 % 256) + 65536 * (v / 65536 % 256) + 16777216 * (v / 16777216 % 256)
  {
    Div256(v);
    Div256(v / 256);
    Div256(v / 65536);
  }

  lemma Div256(v: nat)
    ensures v == 256 * (v / 256) + v % 256
    ensures v / 256 / 256 == v / 65536 && v / 65536 / 256 == v / 16777216
  {}

  lemma PutLongFrame(m: Memory, a: nat, v: nat)
    requires a + 4 <= 0x4000000
    ensures forall k | 0 <= k < 0x4000000 && !(a <= k < a + 4) :: PutLong(m, a, v)[k] == m[k]
  {}

  // ----- create_tables -----

  /** The address after the 0 that ends the string at p; the end of memory when there is none. */
  function After(m: Memory, p: nat): (q: nat)
    requires p <= 0x4000000
    ensures p <= q <= 0x4000000
    decreases 0x4000000 - p
  {
    if p == 0x4000000 then p else if m[p] == 0 then p + 1 else After(m, p + 1)
  }

  /** One of the two loops of create_tables: n pointers from slot on to the strings from p on, then a 0. */
  function Fill(m: Memory, slot: nat, p: nat, n: nat): (r: (Memory, nat))
    requires slot + 4 * (n + 1) <= 0x4000000 && p <= 0x4000000
    ensures r.1 <= 0x4000000
    decreases n
  {
    if n == 0 then (PutLong(m, slot, 0), p)
    else
      var m1 := PutLong(m, slot, p);
      Fill(m1, slot + 4, After(m1, p), n - 1)
  }

  /** create_tables: the new memory and the stack pointer it returns. */
  function Tables(m: Memory, p: nat, argc: nat, envc: nat): (Memory, nat)
    requires p <= 0x4000000 && 4 * (argc + envc + 3) <= p - p % 4
  {
    var envp := p - p % 4 - 4 * (envc + 1);
    var argv := envp - 4 * (argc + 1);
    var sp := argv - 4;
    var m1 := PutLong(m, sp, argc);
    var (m2, p2) := Fill(m1, argv, p, argc);
    (Fill(m2, envp, p2, envc).0, sp)
  }

  predicate StringAt(m: Memory, a: nat, s: Text)
  {
    a + |s| < 0x4000000 && m[a..a + |s|] == s && m[a + |s|] == 0
  }

  /** The strings ss stand one after the other from address p on. */
  predicate Laid(m: Memory, p: nat, ss: seq<Text>)
  {
    p + |Flat(ss)| <= 0x4000000 && m[p..p + |Flat(ss)|] == Flat(ss)
  }

  /** A table at slot whose pointers, none below low, name the strings ss in order and which ends with a 0. */
  predicate TableOf(m: Memory, slot: nat, ss: seq<Text>, low: nat)
  {
    && slot + 4 * (|ss| + 1) <= 0x4000000
    && (forall i | 0 <= i < |ss| :: GetLong(m, slot + 4 * i) >= low && StringAt(m, GetLong(m, slot + 4 * i), ss[i]))
    && GetLong(m, slot + 4 * |ss|) == 0
  }

  lemma {:induction false} AfterString(m: Memory, p: nat, s: Text, k: nat)
    requires StringAt(m, p, s) && k <= |s|
    ensures After(m, p + k) == p + |s| + 1
    decreases |s| - k
  {
    if k < |s| {
      assert m[p + k] == m[p..p + |s|][k];
      AfterString(m, p, s, k + 1);
    }
  }

  lemma LaidFirst(m: Memory, p: nat, ss: seq<Text>)
    requires Laid(m, p, ss) && ss != []
    ensures StringAt(m, p, ss[0]) && Laid(m, p + |ss[0]| + 1, ss[1..]) && |Flat(ss)| == |ss[0]| + 1 + |Flat(ss[1..])|
  {
    FlatFirst(ss);
    hide Flat;
    Parts(m, p, ss[0], Flat(ss[1..]));
  }

  lemma Parts(m: seq<Byte>, p: nat, a: seq<Byte>, b: seq<Byte>)
    requires p + |a| + 1 + |b| <= |m| && m[p..p + |a| + 1 + |b|] == a + [0] + b
    ensures m[p..p + |a|] == a && m[p + |a|] == 0 && m[p + |a| + 1..p + |a| + 1 + |b|] == b
  {
    var n := |a| + 1 + |b|;
    forall k | 0 <= k < n ensures m[p + k] == (a + [0] + b)[k] {
      assert m[p + k] == m[p..p + n][k];
    }
    forall k | 0 <= k < |a| ensures m[p..p + |a|][k] == a[k] {
      assert m[p + k] == (a + [0] + b)[k];
    }
    assert m[p + |a|] == (a + [0] + b)[|a|];
    forall k | 0 <= k < |b| ensures m[p + |a| + 1..p + n][k] == b[k] {
      assert m[p + (|a| + 1 + k)] == (a + [0] + b)[|a| + 1 + k];
    }
  }

  /** Memory that agrees from p on holds the same strings there. */
  lemma LaidSame(m: Memory, m': Memory, p: nat, ss: seq<Text>)
    requires Laid(m, p, ss) && forall k | p <= k < 0x4000000 :: m'[k] == m[k]
    ensures Laid(m', p, ss)
  {}

  lemma StringSame(m: Memory, m': Memory, a: nat, s: Text)
    requires StringAt(m, a, s) && forall k | a <= k < 0x4000000 :: m'[k] == m[k]
    ensures StringAt(m', a, s)
  {}

  /** Filling a table that lies below the strings leaves a table of them, moves past them, and changes nothing else. */
  lemma {:induction false} FillGives(m: Memory, slot: nat, p: nat, ss: seq<Text>, low: nat)
    requires low <= p && Laid(m, p, ss) && slot + 4 * (|ss| + 1) <= p <= 0x4000000
    ensures
      var (m', p') := Fill(m, slot, p, |ss|);
      && p' == p + |Flat(ss)| && TableOf(m', slot, ss, low)
      && (forall k | 0 <= k < 0x4000000 && !(slot <= k < slot + 4 * (|ss| + 1)) :: m'[k] == m[k])
    decreases |ss|
  {
    hide PutLong, GetLong, StringAt, Laid, Flat, After;
    if ss == [] {
      FlatOfNone();
      LongRoundTrip(m, slot, 0);
      PutLongFrame(m, slot, 0);
    } else {
      var m1 := PutLong(m, slot, p);
      PutLongFrame(m, slot, p);
      LaidSame(m, m1, p, ss);
      LaidFirst(m1, p, ss);
      AfterString(m1, p, ss[0], 0);
      var q := p + |ss[0]| + 1;
      FillGives(m1, slot + 4, q, ss[1..], low);
      var m' := Fill(m1, slot + 4, q, |ss| - 1).0;
      LongRoundTrip(m, slot, p);
      TableGrows(m1, m', slot, p, ss, low);
    }
  }

  lemma FlatOfNone()
    ensures Flat([]) == []
  {}

  lemma TableGrows(m1: Memory, m': Memory, slot: nat, p: nat, ss: seq<Text>, low: nat)
    requires low <= p && ss != [] && slot + 4 * (|ss| + 1) <= p <= 0x4000000 && GetLong(m1, slot) == p
      && StringAt(m1, p, ss[0]) && TableOf(m', slot + 4, ss[1..], low)
    requires forall k | 0 <= k < 0x4000000 && !(slot + 4 <= k < slot + 4 + 4 * |ss|) :: m'[k] == m1[k]
    ensures TableOf(m', slot, ss, low)
  {
    hide GetLong, StringAt;
    LongSame(m1, m', slot);
    StringSame(m1, m', p, ss[0]);
    forall i | 0 <= i < |ss|
        ensures GetLong(m', slot + 4 * i) >= low && StringAt(m', GetLong(m', slot + 4 * i), ss[i]) {
      if i > 0 { assert slot + 4 * i == slot + 4 + 4 * (i - 1) && ss[i] == ss[1..][i - 1]; }
    }
    assert slot + 4 * |ss| == slot + 4 + 4 * |ss[1..]|;
  }

  /** A table stays good while it and the memory from low on stay as they are. */
  lemma TableSame(m: Memory, m': Memory, slot: nat, ss: seq<Text>, low: nat)
    requires TableOf(m, slot, ss, low) && forall k | slot <= k < slot + 4 * (|ss| + 1) :: m'[k] == m[k]
    requires forall k | low <= k < 0x4000000 :: m'[k] == m[k]
    ensures TableOf(m', slot, ss, low)
  {
    forall i | 0 <= i <= |ss| ensures GetLong(m', slot + 4 * i) == GetLong(m, slot + 4 * i) {}
    hide GetLong;
    forall i | 0 <= i < |ss| ensures StringAt(m', GetLong(m', slot + 4 * i), ss[i]) {
      StringSame(m, m', GetLong(m, slot + 4 * i), ss[i]);
    }
  }

  lemma {:induction false} FlatSplit(a: seq<Text>, b: seq<Text>)
    ensures Flat(a + b) == Flat(a) + Flat(b)
  {
    if b == [] {
      assert a + b == a;
    } else {
      assert (a + b)[..|a + b| - 1] == a + b[..|b| - 1];
      FlatSplit(a, b[..|b| - 1]);
    }
  }

  lemma LaidSplit(m: Memory, p: nat, a: seq<Text>, b: seq<Text>)
    requires Laid(m, p, a + b)
    ensures Laid(m, p, a) && Laid(m, p + |Flat(a)|, b)
  {
    FlatSplit(a, b);
    var all := m[p..p + |Flat(a + b)|];
    assert m[p..p + |Flat(a)|] == all[..|Flat(a)|] && m[p + |Flat(a)|..p + |Flat(a + b)|] == all[|Flat(a)|..];
  }

  /** create_tables under the strings of argv and envp, one after the other from p on: argc stands at the
      stack pointer, then the table of argv, then that of envp; the tables end below the strings, which
      are not changed, and nothing below the stack pointer is. */
  lemma TablesNameStrings(m: Memory, p: nat, argv: seq<Text>, envp: seq<Text>)
    requires Laid(m, p, argv + envp) && p <= 0x4000000 && 4 * (|argv| + |envp| + 3) <= p - p % 4
    ensures
      var (m', sp) := Tables(m, p, |argv|, |envp|);
      var av, ev := sp + 4, sp + 4 + 4 * (|argv| + 1);
      && sp % 4 == 0 && ev + 4 * (|envp| + 1) == p - p % 4
      && GetLong(m', sp) == |argv| && TableOf(m', av, argv, p) && TableOf(m', ev, envp, p)
      && (forall k | 0 <= k < 0x4000000 && !(sp <= k < p - p % 4) :: m'[k] == m[k])
  {
    hide PutLong, GetLong, Laid, StringAt, Flat, TableOf, Fill;
    var ev := p - p % 4 - 4 * (|envp| + 1);
    var av := ev - 4 * (|argv| + 1);
    var sp := av - 4;
    var m1 := PutLong(m, sp, |argv|);
    PutLongFrame(m, sp, |argv|);
    LongRoundTrip(m, sp, |argv|);
    LaidSame(m, m1, p, argv + envp);
    LaidSplit(m1, p, argv, envp);
    FillGives(m1, av, p, argv, p);
    var (m2, q) := Fill(m1, av, p, |argv|);
    LaidSame(m1, m2, q, envp);
    LaidFits(m2, q, envp);
    FillGives(m2, ev, q, envp, p);
    var m' := Fill(m2, ev, q, |envp|).0;
    TableSame(m2, m', av, argv, p);
    LongSame(m1, m', sp);
  }

  lemma LaidFits(m: Memory, p: nat, ss: seq<Text>)
    requires Laid(m, p, ss)
    ensures p <= 0x4000000
  {}

  lemma LongSame(m: Memory, m': Memory, a: nat)
    requires a + 4 <= 0x4000000 && forall k | a <= k < a + 4 :: m'[k] == m[k]
    ensures GetLong(m', a) == GetLong(m, a)
  {}

  // ----- the pages the strings are copied into -----

  /** Exactly the pages from the one that holds byte p of the area on are allocated. */
  predicate PagesFrom(page: seq<bool>, p: nat)
  {
    |page| == 32 && forall i | 0 <= i < 32 :: page[i] <==> i >= p / 4096
  }

  /** How many pages copy_strings must get to go from byte p down by n bytes. */
  function Need(p: nat, n: nat): int { p / 4096 - (p - n) / 4096 }

  /** Every byte from p on lies in an allocated page. */
  lemma TouchedPages(page: seq<bool>, p: nat, k: nat)
    requires PagesFrom(page, p) && p <= k < 131072
    ensures page[k / 4096]
  {}

  // ----- how copying ends -----

  /** Copied(p) is a return with the strings from byte p of the area on, Refused a return of 0 for want of pages.
      Panic stops the kernel; after Stray it has read an entry far outside the 32 of page. */
  datatype Ending = Copied(p: nat) | Refused | Panic | Stray

  /** One string of copy_strings, with its end at byte p of the area and free pages left.  A string longer
      than p wraps around, where no page is fetched: the copy runs down to the first missing page, or
      below byte 0. */
  function StringEnding(s: Text, free: nat, p: nat): (e: Ending)
    ensures e.Copied? ==> e.p + |s| + 1 == p && 0 <= Need(p, p - e.p) <= free
  {
    var len := |s| + 1;
    if len > p then (if p >= 4096 then Panic else Stray)
    else if free < Need(p, len) then Refused
    else Copied(p - len)
  }

  /** copy_strings, from the last string to the first. */
  function CopyEnding(ss: seq<Text>, free: nat, p: nat): (e: Ending)
    ensures e.Copied? ==> e.p <= p && 0 <= Need(p, p - e.p) <= free
    decreases |ss|
  {
    if ss == [] then Copied(p)
    else
      match StringEnding(ss[|ss| - 1], free, p)
      case Copied(q) => CopyEnding(ss[..|ss| - 1], free - Need(p, p - q), q)
      case e => e
  }

  /** The two calls in do_execve: the second starts from whatever the first returned, and only then is a
      return of 0 noticed. */
  function ExecEnding(argv: seq<Text>, envp: seq<Text>, free: nat): Ending
  {
    match CopyEnding(envp, free, 131072)
    case Panic => Panic
    case Stray => Stray
    case Refused => if argv == [] then Refused else Stray
    case Copied(p) =>
      var e := CopyEnding(argv, free - Need(131072, 131072 - p), p);
      if e == Copied(0) then Refused else e
  }

  /** Strings are laid exactly when they fit and the pages suffice. */
  lemma {:induction false} CopyEndingIs(ss: seq<Text>, free: nat, p: nat)
    ensures CopyEnding(ss, free, p).Copied? <==> |Flat(ss)| <= p && free >= Need(p, |Flat(ss)|)
    ensures CopyEnding(ss, free, p).Copied? ==> CopyEnding(ss, free, p).p == p - |Flat(ss)|
    ensures |Flat(ss)| <= p && free < Need(p, |Flat(ss)|) ==> CopyEnding(ss, free, p).Refused?
    decreases |ss|
  {
    if ss != [] {
      var n := |ss| - 1;
      FlatLast(ss);
      var e := StringEnding(ss[n], free, p);
      if e.Copied? { CopyEndingIs(ss[..n], free - Need(p, p - e.p), e.p); }
      hide Flat;
    }
  }

  /** The arguments of a program are laid exactly when they take less than the 131072 bytes and the pages
      suffice.  When they take less, the kernel goes astray exactly when the pages do not suffice for the
      environment already and there is an argument: the second call then starts at byte 0. */
  lemma ExecEndingIs(argv: seq<Text>, envp: seq<Text>, free: nat)
    ensures
      var e, size := ExecEnding(argv, envp, free), |Flat(envp)| + |Flat(argv)|;
      && (e.Copied? <==> size < 131072 && free >= Need(131072, size))
      && (e.Copied? ==> e.p == 131072 - size)
      && (size < 131072 ==> (e.Stray? <==> argv != [] && free < Need(131072, |Flat(envp)|)))
      && (size < 131072 ==> !e.Panic?)
  {
    hide CopyEnding, Flat, Need;
    var a, b := |Flat(envp)|, |Flat(argv)|;
    FlatSome(argv);
    CopyEndingIs(envp, free, 131072);
    if a + b <= 131072 { NeedSplit(131072, 131072 - a, 131072 - a - b); }
    var e := CopyEnding(envp, free, 131072);
    if e.Copied? { CopyEndingIs(argv, free - Need(131072, a), e.p); }
  }

  lemma NeedSplit(p: nat, q: nat, r: nat)
    requires r <= q <= p
    ensures 0 <= Need(q, q - r) && Need(p, p - q) + Need(q, q - r) == Need(p, p - r) && Need(p, 0) == 0
  {}

  lemma FlatSome(ss: seq<Text>)
    ensures Flat(ss) == [] <==> ss == []
  {}

  /** Such an input: no free page, one argument and one environment string. */
  lemma ArgumentsGoAstray()
    ensures ExecEnding([[1]], [[1]], 0) == Stray
  {
    var s: Text := [1];
    assert [s] != [] && |[s]| == 1;
    assert CopyEnding([s], 0, 131072) == Refused;
  }

  /** The user memory after change_ldt has put the allocated pages at its top. */
  ghost predicate Placed(area: seq<Byte>, page: seq<bool>, m: Memory)
    requires |area| == 131072 && |page| == 32
  {
    forall i, k | 0 <= i < 32 && page[i] && 4096 * i <= k < 4096 * (i + 1) :: m[0x4000000 - 131072 + k] == area[k]
  }

  /** Where byte p of the area ends up in the data segment. */
  function UserAddress(p: nat): (q: nat)
    ensures q == 0x4000000 - 131072 + p
  {
    0x4000000 - 131072 + p
  }

  /** What stood at byte p of the area stands as far below the top of user memory. */
  lemma PlacedStrings(area: seq<Byte>, page: seq<bool>, m: Memory, p: nat, ss: seq<Text>)
    requires |area| == 131072 && p <= 131072 && PagesFrom(page, p) && Placed(area, page, m) && area[p..] == Flat(ss)
    ensures Laid(m, UserAddress(p), ss)
  {
    var q := UserAddress(p);
    forall k | p <= k < 131072 ensures m[0x4000000 - 131072 + k] == area[k] {
      TouchedPages(page, p, k);
      assert page[k / 4096] && 4096 * (k / 4096) <= k < 4096 * (k / 4096 + 1);
    }
    assert m[q..q + |Flat(ss)|] == area[p..];
  }

  /** create_tables below strings that begin at q builds, in this order below q, argc, a table that names the
      strings of argv in order and one that names those of envp, and changes nothing else. */
  ghost predicate TablesStand(m: Memory, q: nat, argv: seq<Text>, envp: seq<Text>)
  {
    && q <= 0x4000000 && 4 * (|argv| + |envp| + 3) <= q - q % 4
    && var (m', sp) := Tables(m, q, |argv|, |envp|);
    var av, ev := sp + 4, sp + 4 + 4 * (|argv| + 1);
    && GetLong(m', sp) == |argv| && TableOf(m', av, argv, q) && TableOf(m', ev, envp, q) && ev + 4 * (|envp| + 1) <= q
    && (forall k | 0 <= k < 0x4000000 && !(sp <= k < q) :: m'[k] == m[k])
  }

  /** All arguments of a program come back: copied to the area, placed, and with the tables built, the
      pointer tables name, in order, strings equal to those given; the tables do not overlap the strings. */
  lemma ArgumentsRoundTrip(area: seq<Byte>, page: seq<bool>, m: Memory, p: nat, argv: seq<Text>, envp: seq<Text>)
    requires |area| == 131072 && 0 < p <= 131072 && PagesFrom(page, p) && Placed(area, page, m)
      && area[p..] == Flat(argv + envp)
    ensures TablesStand(m, UserAddress(p), argv, envp)
  {
    hide TablesStand, Laid, Flat, Placed, PagesFrom;
    PlacedStrings(area, page, m, p, argv + envp);
    assert |argv| + |envp| == |argv + envp| <= |Flat(argv + envp)| == |area[p..]| == 131072 - p;
    TablesBelow(m, UserAddress(p), argv, envp);
  }

  /** Strings at the top of user memory leave room for their tables. */
  lemma TablesBelow(m: Memory, q: nat, argv: seq<Text>, envp: seq<Text>)
    requires Laid(m, q, argv + envp) && 0x4000000 - 131072 <= q <= 0x4000000 && |argv| + |envp| <= 0x4000000 - q
    ensures TablesStand(m, q, argv, envp)
  {
    hide Tables, TableOf, GetLong, Laid, Flat;
    TablesFit(q, |argv|, |envp|);
    TablesNameStrings(m, q, argv, envp);
  }

  lemma TablesFit(q: nat, argc: nat, envc: nat)
    requires 0x4000000 - 131072 <= q <= 0x4000000 && argc + envc <= 0x4000000 - q
    ensures 4 * (argc + envc + 3) <= q - q % 4
  {}
}
