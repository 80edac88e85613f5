/** The table of encrypted files (fs/security.c:393-459, include/linux/security.h:17-18).  The two hash
    macros are not parenthesised, so probe i of inode x is (x%61 + i*1 + x%60) % 61: linear probing. */
module EncTable {

  const EINVAL: int := 22

  /** A hash of a key: HKEY_SIZE characters. */
  type HKey = k: seq<char> | |k| == 14 witness NO_KEY

  const NO_KEY: seq<char> := seq(14, i => '\0')

  /** An e_dir: the inode number, 0 in a free slot, and the hash of the key it was encrypted with. */
  datatype Entry = Entry(ino: nat, key: HKey)
  type Table = t: seq<Entry> | |t| == 61 witness seq(61, i => Entry(0, NO_KEY))

  function Slot(k: int): (s: nat)
    ensures s < 61
  {
    k % 61
  }

  function Home(x: nat): nat { x % 61 + x % 60 }

  function Probe(x: nat, i: nat): (s: nat)
    ensures s < 61
  {
    Slot(Home(x) + i)
  }

  /** How many probes come before slot s in the probe order of x. */
  function Dist(x: nat, s: nat): (d: nat)
    ensures d < 61
  {
    Slot(s - Home(x))
  }

  /** The slot j in front of s. */
  function Back(s: nat, j: nat): (r: nat)
    ensures r < 61
  {
    Slot(s - j)
  }

  lemma BackEq(s: nat, j: nat, j': nat)
    requires j < 61 && j' < 61
    ensures Back(s, j) == Back(s, j') <==> j == j'
  {}

  lemma BackZero(s: nat)
    requires s < 61
    ensures Back(s, 0) == s
  {}

  /** The probes of x before slot s are the Dist(x, s) slots in front of s. */
  lemma ProbeBack(x: nat, s: nat, j: nat)
    requires s < 61 && j <= Dist(x, s)
    ensures Probe(x, Dist(x, s) - j) == Back(s, j)
  {
    hide Home;
    SlotShift(s - Home(x), Home(x) - j);
  }

  lemma SlotShift(a: int, b: int)
    ensures Slot(Slot(a) + b) == Slot(a + b)
  {}

  lemma DistOfProbe(x: nat, i: nat)
    requires i < 61
    ensures Probe(x, i) < 61 && Dist(x, Probe(x, i)) == i
  {}

  /** The probe number of a search: the first i from the given one whose slot holds x or is free. */
  function FindFrom(t: Table, x: nat, i: nat): (r: nat)
    requires i <= 61
    ensures i <= r <= 61
    ensures r < 61 ==> t[Probe(x, r)].ino == x || t[Probe(x, r)].ino == 0
    ensures forall j: nat | i <= j < r :: t[Probe(x, j)].ino != x && t[Probe(x, j)].ino != 0
    decreases 61 - i
  {
    if i == 61 || t[Probe(x, i)].ino == x || t[Probe(x, i)].ino == 0 then i else FindFrom(t, x, i + 1)
  }

  /** search_func; -1 is ERR_NOT_FND. */
  function Search(t: Table, x: nat): int
  {
    var i := FindFrom(t, x, 0);
    if i < 61 && t[Probe(x, i)].ino == x then Probe(x, i) else -1
  }

  /** add_func: the table and the slot used, or -1 (ERR_ALR_ENC) when the inode is met first. */
  function Add(t: Table, e: Entry): (Table, int)
  {
    var i := FindFrom(t, e.ino, 0);
    if i == 61 || t[Probe(e.ino, i)].ino == e.ino then (t, -1) else (t[Probe(e.ino, i) := e], Probe(e.ino, i))
  }

  function Clear(t: Table, s: nat): Table
    requires s < 61
  {
    t[s := t[s].(ino := 0)]
  }

  /** The loop of remove_func after the entry was found, from probe i on: entries up to the next free
      slot are taken out and added again.  An entry taken out comes back nearer to its home slot, or where
      it was, or not at all, so that the loop ends in every table with a free slot. */
  function Reinsert(t: Table, x: nat, i: nat): Table
    requires HasFree(t)
    decreases Weight(t, 61), Gap(t, Probe(x, i), 61)
  {
    var s := Probe(x, i);
    if t[s].ino == 0 then t
    else
      TurnShrinks(t, s);
      NextGap(t, x, i);
      Reinsert(Turn(t, s), x, i + 1)
  }

  /** One turn of that loop, on slot s. */
  function Turn(t: Table, s: nat): Table
    requires s < 61
  {
    Add(Clear(t, s), t[s]).0
  }

  /** remove_func with the hash of the current key.  The probe counter is stepped twice after the
      entry was found (lines 428 and 435). */
  function Remove(t: Table, x: nat, key: HKey): (Table, int)
  {
    var i := FindFrom(t, x, 0);
    if i == 61 || t[Probe(x, i)].ino != x then (t, -1)
    else if t[Probe(x, i)].key != key then (t, -EINVAL)
    else
      ClearHasFree(t, Probe(x, i));
      (Reinsert(Clear(t, Probe(x, i)), x, i + 2), 1)
  }

  // ----- why the loop of remove_func ends -----

  /** One for an entry and one for each slot between its home and slot s. */
  function Load(e: Entry, s: nat): nat
    requires s < 61
  {
    if e.ino == 0 then 0 else 1 + Dist(e.ino, s)
  }

  function Weight(t: Table, n: nat): nat
    requires n <= 61
  {
    if n == 0 then 0 else Weight(t, n - 1) + Load(t[n - 1], n - 1)
  }

  /** How many of the n slots from s on stand before the first free one. */
  function Gap(t: Table, s: nat, n: nat): nat
    decreases n
  {
    if n == 0 || t[Slot(s)].ino == 0 then 0 else 1 + Gap(t, s + 1, n - 1)
  }

  lemma {:induction false} WeightSet(t: Table, s: nat, e: Entry, n: nat)
    requires s < 61 && n <= 61
    ensures Weight(t[s := e], n) == Weight(t, n) + if s < n then Load(e, s) - Load(t[s], s) else 0
  {
    hide Load;
    if n > 0 { WeightSet(t, s, e, n - 1); }
  }

  lemma ClearHasFree(t: Table, s: nat)
    requires s < 61
    ensures HasFree(Clear(t, s))
  {
    assert Clear(t, s)[s].ino == 0;
  }

  lemma TurnShrinks(t: Table, s: nat)
    requires HasFree(t) && s < 61 && t[s].ino != 0
    ensures HasFree(Turn(t, s)) && (Turn(t, s) == t || Weight(Turn(t, s), 61) < Weight(t, 61))
  {
    hide Slot, Probe, Dist, Weight, FindFrom;
    var t1, e, x, d := Clear(t, s), t[s], t[s].ino, Dist(t[s].ino, s);
    ClearHasFree(t, s);
    ProbeBack(x, s, 0);
    BackZero(s);
    assert t1[Probe(x, d)].ino == 0;
    var j := FindFrom(t1, x, 0);
    assert j <= d;
    WeightSet(t, s, t[s].(ino := 0), 61);
    if t1[Probe(x, j)].ino != x {
      var u := Probe(x, j);
      DistOfProbe(x, j);
      assert Turn(t, s) == t1[u := e];
      if j == d {
        assert Turn(t, s) == t;
      } else {
        WeightSet(t1, u, e, 61);
        assert Turn(t, s)[s].ino == 0;
      }
    }
  }

  lemma {:induction false} GapStable(t: Table, s: nat, o: nat, n: nat)
    requires o < n && t[Slot(s + o)].ino == 0
    ensures Gap(t, s, n) <= o && Gap(t, s, n + 1) == Gap(t, s, n)
    decreases n
  {
    if t[Slot(s)].ino != 0 { GapStable(t, s + 1, o - 1, n - 1); }
  }

  /** Where nothing moves the free slot comes nearer. */
  lemma NextGap(t: Table, x: nat, i: nat)
    requires HasFree(t) && t[Probe(x, i)].ino != 0
    ensures Gap(t, Probe(x, i + 1), 61) < Gap(t, Probe(x, i), 61)
  {
    var s := Probe(x, i);
    var f: nat :| f < 61 && t[f].ino == 0;
    var o := StepsTo(s, f);
    SlotShift(Home(x) + i, 1);
    hide Slot, Home;
    assert s + o == s + 1 + (o - 1);
    GapStable(t, s + 1, o - 1, 60);
    SameGap(t, s + 1, Probe(x, i + 1), 61);
  }

  lemma StepsTo(s: nat, f: nat) returns (o: nat)
    requires s < 61 && f < 61 && s != f
    ensures 1 <= o < 61 && Slot(s + o) == f && Slot(s) == s
  {
    o := if f > s then f - s else f - s + 61;
  }

  lemma {:induction false} SameGap(t: Table, s: nat, s': nat, n: nat)
    requires Slot(s) == Slot(s')
    ensures Gap(t, s, n) == Gap(t, s', n)
    decreases n
  {
    if n > 0 {
      NextSlot(s, s');
      SameGap(t, s + 1, s' + 1, n - 1);
    }
  }

  lemma NextSlot(s: nat, s': nat)
    requires Slot(s) == Slot(s')
    ensures Slot(s + 1) == Slot(s' + 1)
  {
    SlotShift(s, 1);
    SlotShift(s', 1);
  }

  // ----- what a good table is -----

  predicate HasFree(t: Table) { exists s :: 0 <= s < 61 && t[s].ino == 0 }

  predicate Distinct(t: Table)
  {
    forall s, s' | 0 <= s < s' < 61 && t[s].ino != 0 && t[s'].ino != 0 :: t[s].ino != t[s'].ino
  }

  /** No free slot stands before slot s in the probe order of x. */
  predicate PathFull(t: Table, x: nat, s: nat)
  {
    forall j: nat | 1 <= j <= Dist(x, s) :: t[Back(s, j)].ino != 0
  }

  ghost predicate Good(t: Table)
  {
    && Distinct(t)
    && forall s: nat | s < 61 && t[s].ino != 0 :: PathFull(t, t[s].ino, s)
  }

  function Members(t: Table): set<Entry> { set s | 0 <= s < 61 && t[s].ino != 0 :: t[s] }

  predicate Has(t: Table, x: nat) { exists s :: 0 <= s < 61 && t[s].ino == x }

  // ----- searching and adding -----

  /** A search ends at a free slot or at the entry it looks for. */
  lemma FreeStops(t: Table, x: nat)
    requires HasFree(t) || Has(t, x)
    ensures FindFrom(t, x, 0) < 61
  {
    var s: nat :| s < 61 && (t[s].ino == 0 || t[s].ino == x);
    ProbeBack(x, s, 0);
    BackZero(s);
    hide FindFrom, Probe, Dist;
    assert t[Probe(x, Dist(x, s))].ino == t[s].ino;
  }

  /** A search for a stored inode finds it exactly when no free slot stands before it. */
  lemma SearchAt(t: Table, x: nat, s: nat)
    requires Distinct(t) && s < 61 && x != 0 && t[s].ino == x
    ensures Search(t, x) == (if PathFull(t, x, s) then s else -1)
  {
    hide FindFrom, Slot, Back, Dist, Probe;
    var i, d := FindFrom(t, x, 0), Dist(x, s);
    ProbeBack(x, s, 0);
    BackZero(s);
    assert Probe(x, d) == s;
    assert i <= d;
    ProbeBack(x, s, d - i);
    BackEq(s, d - i, 0);
    if !PathFull(t, x, s) {
      var j: nat :| 1 <= j <= d && t[Back(s, j)].ino == 0;
      ProbeBack(x, s, j);
      assert i <= d - j;
    }
  }

  lemma SearchNone(t: Table, x: nat)
    requires !Has(t, x)
    ensures Search(t, x) == -1
  {}

  /** In a good table search succeeds exactly for members, and at their slot. */
  lemma SearchIsExact(t: Table, x: nat)
    requires Good(t) && x != 0
    ensures (Search(t, x) >= 0) == Has(t, x)
    ensures Search(t, x) >= 0 ==> t[Search(t, x)].ino == x
  {
    hide Search, PathFull;
    if Has(t, x) {
      var s: nat :| s < 61 && t[s].ino == x;
      SearchAt(t, x, s);
    } else {
      SearchNone(t, x);
    }
  }

  /** Where add puts an entry: the first free slot of its probe order. */
  lemma AddAt(t: Table, e: Entry, s: nat)
    requires s < 61 && e.ino != 0 && !Has(t, e.ino) && t[s].ino == 0 && PathFull(t, e.ino, s)
    ensures Add(t, e) == (t[s := e], s)
  {
    hide FindFrom, Slot, Back, Dist, Probe;
    var x, i, d := e.ino, FindFrom(t, e.ino, 0), Dist(e.ino, s);
    ProbeBack(x, s, 0);
    BackZero(s);
    assert Probe(x, d) == s;
    assert i <= d;
    ProbeBack(x, s, d - i);
  }

  lemma FirstFree(t: Table, x: nat) returns (s: nat)
    requires HasFree(t) && !Has(t, x)
    ensures s < 61 && t[s].ino == 0 && PathFull(t, x, s)
  {
    FreeStops(t, x);
    hide FindFrom, Slot, Back, Dist, Probe;
    var i := FindFrom(t, x, 0);
    s := Probe(x, i);
    DistOfProbe(x, i);
    forall j: nat | 1 <= j <= i ensures t[Back(s, j)].ino != 0 {
      ProbeBack(x, s, j);
    }
  }

  /** add_func rejects exactly the members and otherwise adds one, leaving every other slot as it was. */
  lemma AddIsExact(t: Table, e: Entry)
    requires Good(t) && HasFree(t) && e.ino != 0
    ensures
      var (t', r) := Add(t, e);
      && (r == -1) == Has(t, e.ino)
      && (r == -1 ==> t' == t)
      && (r != -1 ==> Good(t') && 0 <= r < 61 && t[r].ino == 0 && t' == t[r := e] && Members(t') == Members(t) + {e})
  {
    if Has(t, e.ino) {
      SearchIsExact(t, e.ino);
    } else {
      var s := FirstFree(t, e.ino);
      AddAt(t, e, s);
      hide Add, Back, Dist;
      GoodAfter(t, e, s);
      MembersSet(t, s, e);
    }
  }

  lemma GoodAfter(t: Table, e: Entry, s: nat)
    requires Good(t) && s < 61 && e.ino != 0 && !Has(t, e.ino) && t[s].ino == 0 && PathFull(t, e.ino, s)
    ensures Good(t[s := e])
  {}

  lemma MembersSet(t: Table, s: nat, e: Entry)
    requires s < 61 && t[s].ino == 0 && e.ino != 0
    ensures Members(t[s := e]) == Members(t) + {e}
  {
    assert t[s := e][s] == e;
    forall m | m in Members(t) ensures m in Members(t[s := e]) {
      var s' :| 0 <= s' < 61 && t[s'].ino != 0 && t[s'] == m;
      assert t[s := e][s'] == m;
    }
  }

  function Empty(): Table { seq(61, i => Entry(0, NO_KEY)) }

  /** The table after adding the entries of es one after the other to an empty table. */
  function AddAll(es: seq<Entry>): Table
  {
    if es == [] then Empty() else Add(AddAll(es[..|es| - 1]), es[|es| - 1]).0
  }

  /** The entries that count: the first one for each inode. */
  function Accepted(es: seq<Entry>): set<Entry>
  {
    if es == [] then {}
    else
      var before, e := Accepted(es[..|es| - 1]), es[|es| - 1];
      if exists m :: m in before && m.ino == e.ino then before else before + {e}
  }

  lemma HasIsMember(t: Table, x: nat)
    requires x != 0
    ensures Has(t, x) <==> exists m :: m in Members(t) && m.ino == x
  {}

  /** Every entry of es has an inode number and meets a table with a free slot. */
  predicate FreeKept(es: seq<Entry>)
  {
    es == [] || (FreeKept(es[..|es| - 1]) && HasFree(AddAll(es[..|es| - 1])) && es[|es| - 1].ino != 0)
  }

  lemma EmptyIsGood()
    ensures Good(Empty()) && Members(Empty()) == {}
  {}

  lemma {:induction false} AddAllIsGood(es: seq<Entry>)
    requires FreeKept(es)
    ensures Good(AddAll(es)) && Members(AddAll(es)) == Accepted(es)
  {
    hide Add, Good, Members, Has, HasFree;
    EmptyIsGood();
    if es != [] {
      var es0, e := es[..|es| - 1], es[|es| - 1];
      AddAllIsGood(es0);
      AddIsExact(AddAll(es0), e);
      HasIsMember(AddAll(es0), e.ino);
    }
  }

  /** After any adds to an empty table, with a free slot kept, the table holds exactly the first entry
      given for each inode: search succeeds for those inodes alone, at a slot with that entry. */
  lemma TableIsASet(es: seq<Entry>, x: nat)
    requires x != 0 && FreeKept(es)
    ensures
      var t, r := AddAll(es), Search(AddAll(es), x);
      && (r >= 0 <==> exists m :: m in Accepted(es) && m.ino == x)
      && (r >= 0 ==> r < 61 && t[r] in Accepted(es) && t[r].ino == x)
  {
    hide Add, AddAll, Search, Has;
    AddAllIsGood(es);
    SearchIsExact(AddAll(es), x);
    HasIsMember(AddAll(es), x);
    var t, r := AddAll(es), Search(AddAll(es), x);
    SearchRange(t, x);
    if r >= 0 { assert t[r] in Members(t); }
  }

  lemma SearchRange(t: Table, x: nat)
    ensures -1 <= Search(t, x) < 61
  {}
}
