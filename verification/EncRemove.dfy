/** What remove_func (fs/security.c:412-445) does to a good table: it always ends and keeps every other
    entry, but since it skips the slot after the removed entry that one entry may no longer be found. */
module EncRemove {
  import opened EncTable

  /** The slot at offset o from slot r, going round the table. */
  function At(r: nat, o: int): (s: nat)
    ensures s < 61
  {
    Slot(r + o)
  }

  lemma AtEq(r: nat, o: int, o': int)
    requires -61 < o - o' < 61
    ensures At(r, o) == At(r, o') <==> o == o'
  {}

  lemma AtBack(r: nat, o: int, j: nat)
    ensures Back(At(r, o), j) == At(r, o - j)
  {}

  lemma AtZero(r: nat)
    requires r < 61
    ensures At(r, 0) == r && At(r, 61) == r
  {}

  lemma AtRound(r: nat, o: int)
    ensures At(r, o - 61) == At(r, o)
  {}

  lemma OffsetOf(r: nat, s: nat) returns (o: nat)
    requires s < 61 && r < 61
    ensures o < 61 && At(r, o) == s
  {
    o := if s >= r then s - r else s - r + 61;
  }

  /** Some entry further on has the slots from offset 0 on in its probe order. */
  predicate Crossed(t0: Table, r: nat, p: int)
  {
    exists o: int :: 2 <= o < p && t0[At(r, o)].ino != 0 && Dist(t0[At(r, o)].ino, At(r, o)) >= o
  }

  /** The state of the loop about to look at offset p: t is t0 with the entry at r gone and those at offsets
      2 to p-1 added again, which leaves the one hole at offset q. */
  ghost predicate Mid(t0: Table, t: Table, r: nat, q: int, p: int)
    requires r < 61
  {
    && 0 <= q < p && 2 <= p <= 61 && (q == 0 || q >= 2)
    && Distinct(t) && Members(t) == Members(t0) - {t0[r]}
    && (forall s: nat | s < 61 :: (t[s].ino != 0) == (t0[s].ino != 0 && s != At(r, q)))
    && (forall s: nat | s < 61 && t[s].ino != 0 :: PathFull(t0, t[s].ino, s))
    && (forall o: int | o == 1 || p <= o < 61 :: t[At(r, o)] == t0[At(r, o)])
    && (forall o: int | 2 <= o < p :: t0[At(r, o)].ino != 0)
    && (forall o: int | 0 <= o < p && o != 1 && t[At(r, o)].ino != 0 :: PathFull(t, t[At(r, o)].ino, At(r, o)))
    && (q == 0) == !Crossed(t0, r, p)
  }

  lemma MidAtStart(t: Table, r: nat)
    requires Good(t) && r < 61 && t[r].ino != 0
    ensures Mid(t, Clear(t, r), r, 0, 2)
  {
    AtZero(r);
    AtEq(r, 0, 1);
    forall o: int | 1 <= o < 61 ensures At(r, o) != r {
      AtEq(r, o, 0);
    }
    MembersClear(t, r);
    hide At, PathFull;
  }

  lemma MembersClear(t: Table, s: nat)
    requires Distinct(t) && s < 61 && t[s].ino != 0
    ensures Members(Clear(t, s)) == Members(t) - {t[s]}
  {
    var t' := Clear(t, s);
    forall m | m in Members(t) - {t[s]} ensures m in Members(t') {
      var s' :| 0 <= s' < 61 && t[s'].ino != 0 && t[s'] == m;
      assert t'[s'] == m;
    }
    forall m | m in Members(t') ensures m in Members(t) - {t[s]} {
      var s' :| 0 <= s' < 61 && t'[s'].ino != 0 && t'[s'] == m;
      assert t[s'] == m;
    }
  }

  /** An entry whose probe order crosses the hole crosses every slot between. */
  lemma PathHas(t: Table, x: nat, r: nat, p: int, o: int)
    requires 0 <= p - o <= Dist(x, At(r, p)) && p != o && PathFull(t, x, At(r, p))
    ensures t[At(r, o)].ino != 0
  {
    hide At, Back, Dist, Slot;
    AtBack(r, p, p - o);
    assert t[Back(At(r, p), p - o)].ino != 0;
  }

  /** Taking the entry at offset p out and adding it again moves it to the hole if its probe order crosses
      the hole, and otherwise puts it back. */
  lemma WhereItGoes(t0: Table, t: Table, r: nat, q: int, p: int)
    requires Good(t0) && r < 61 && t0[r].ino != 0 && Mid(t0, t, r, q, p) && p < 61 && t[At(r, p)].ino != 0
    ensures
      var s, e := At(r, p), t[At(r, p)];
      Add(Clear(t, s), e).0 == if Dist(e.ino, s) >= p - q then Clear(t, s)[At(r, q) := e] else t
  {
    hide At, Back, Dist, Slot, Add;
    var s, e, t1 := At(r, p), t[At(r, p)], Clear(t, At(r, p));
    var d := Dist(e.ino, s);
    AtEq(r, p, q);
    assert !Has(t1, e.ino);
    var to := if d >= p - q then At(r, q) else s;
    if d >= p - q {
      DistShort(e.ino, r, p, q);
    }
    forall j: nat | 1 <= j <= Dist(e.ino, to) ensures t1[Back(to, j)].ino != 0 {
      var o := if d >= p - q then q - j else p - j;
      AtBack(r, if d >= p - q then q else p, j);
      PathHas(t0, e.ino, r, p, o);
      AtEq(r, o, p);
      AtEq(r, o, q);
    }
    AddAt(t1, e, to);
    if d < p - q { assert t1[s := e] == t; }
  }

  lemma DistShort(x: nat, r: nat, p: int, q: int)
    requires 0 <= p - q <= Dist(x, At(r, p))
    ensures Dist(x, At(r, q)) == Dist(x, At(r, p)) - (p - q)
  {
    hide Home;
    var k: int := 0 - Home(x);
    SlotShift(r + p, k);
    SlotShift(r + q, k);
    SlotMinus(r + p + k, p - q);
  }

  lemma SlotMinus(a: int, k: nat)
    requires k <= Slot(a)
    ensures Slot(a - k) == Slot(a) - k
  {}

  lemma CrossedNext(t0: Table, r: nat, p: int)
    requires p >= 2 && t0[At(r, p)].ino != 0
    ensures Crossed(t0, r, p + 1) == (Crossed(t0, r, p) || Dist(t0[At(r, p)].ino, At(r, p)) >= p)
  {}

  /** Once an entry has crossed the removed slot, some slot further on is free. */
  lemma FreeAhead(t0: Table, r: nat, p: int) returns (f: int)
    requires Good(t0) && HasFree(t0) && r < 61 && t0[r].ino != 0 && 2 <= p <= 61 && Crossed(t0, r, p)
    requires forall o: int | 2 <= o < p :: t0[At(r, o)].ino != 0
    ensures p <= f < 61 && t0[At(r, f)].ino == 0 && t0[At(r, 1)].ino != 0
  {
    var o: int :| 2 <= o < p && t0[At(r, o)].ino != 0 && Dist(t0[At(r, o)].ino, At(r, o)) >= o;
    var s: nat :| s < 61 && t0[s].ino == 0;
    f := OffsetOf(r, s);
    AtZero(r);
    hide At, Dist, Slot;
    PathHas(t0, t0[At(r, o)].ino, r, o, 1);
  }

  /** No probe order of an entry short of offset p reaches round to offset p. */
  lemma NotRound(t0: Table, r: nat, o: int, p: int, f: int, x: nat, j: nat)
    requires 0 <= o < p < f < 61 && t0[At(r, f)].ino == 0 && PathFull(t0, x, At(r, o)) && 1 <= j <= Dist(x, At(r, o))
    ensures Back(At(r, o), j) != At(r, p)
  {
    hide At, Dist, Slot, Back;
    AtBack(r, o, j);
    if Back(At(r, o), j) == At(r, p) {
      AtRound(r, p);
      AtEq(r, o - j, p - 61);
      AtRound(r, f);
      AtBack(r, o, o - (f - 61));
    }
  }

  lemma MembersMove(t: Table, s: nat, to: nat)
    requires s < 61 && to < 61 && s != to && t[to].ino == 0 && t[s].ino != 0
    ensures Members(Clear(t, s)[to := t[s]]) == Members(t)
  {
    var t': Table := Clear(t, s)[to := t[s]];
    forall m | m in Members(t) ensures m in Members(t') {
      var s' :| 0 <= s' < 61 && t[s'].ino != 0 && t[s'] == m;
      assert t'[if s' == s then to else s'] == m;
    }
    forall m | m in Members(t') ensures m in Members(t) {
      var s' :| 0 <= s' < 61 && t'[s'].ino != 0 && t'[s'] == m;
      assert t[if s' == to then s else s'] == m;
    }
  }

  lemma MovedPath(t0: Table, t: Table, r: nat, q: int, p: int)
    requires r < 61 && Mid(t0, t, r, q, p) && p < 61 && t[At(r, p)].ino != 0 && Dist(t[At(r, p)].ino, At(r, p)) >= p - q
    ensures PathFull(t0, t[At(r, p)].ino, At(r, q))
  {
    hide At, Dist, Slot, Back;
    var x := t[At(r, p)].ino;
    DistShort(x, r, p, q);
    forall j: nat | 1 <= j <= Dist(x, At(r, q)) ensures t0[Back(At(r, q), j)].ino != 0 {
      AtBack(r, q, j);
      PathHas(t0, x, r, p, q - j);
    }
  }

  /** After the move the entries short of p + 1 stand on full paths. */
  lemma MovePaths(t0: Table, t': Table, r: nat, p: int, f: int)
    requires r < 61 && 0 <= p < f < 61 && t0[At(r, f)].ino == 0
    requires forall s: nat | s < 61 :: (t'[s].ino != 0) == (t0[s].ino != 0 && s != At(r, p))
    requires forall s: nat | s < 61 && t'[s].ino != 0 :: PathFull(t0, t'[s].ino, s)
    ensures forall o: int | 0 <= o < p + 1 && o != 1 && t'[At(r, o)].ino != 0 ::
      PathFull(t', t'[At(r, o)].ino, At(r, o))
  {
    hide At, Dist, Slot, Back;
    forall o: int | 0 <= o < p + 1 && o != 1 && t'[At(r, o)].ino != 0 ensures PathFull(t', t'[At(r, o)].ino, At(r, o)) {
      var x := t'[At(r, o)].ino;
      assert PathFull(t0, x, At(r, o));
      forall j: nat | 1 <= j <= Dist(x, At(r, o)) ensures t'[Back(At(r, o), j)].ino != 0 {
        NotRound(t0, r, o, p, f, x, j);
      }
    }
  }

  lemma DistinctMove(t: Table, s: nat, to: nat)
    requires Distinct(t) && s < 61 && to < 61 && s != to && t[to].ino == 0 && t[s].ino != 0
    ensures Distinct(Clear(t, s)[to := t[s]])
  {}

  /** The hole moves to offset p, into the entry's old place. */
  lemma MidMove(t0: Table, t: Table, r: nat, q: int, p: int)
    requires Good(t0) && HasFree(t0) && r < 61 && t0[r].ino != 0 && Mid(t0, t, r, q, p) && p < 61
      && t[At(r, p)].ino != 0
    requires Dist(t[At(r, p)].ino, At(r, p)) >= p - q
    ensures Mid(t0, Clear(t, At(r, p))[At(r, q) := t[At(r, p)]], r, p, p + 1)
  {
    hide At, Dist, Slot, Back, Good, HasFree, PathFull, Members, Distinct, Crossed;
    var s, to, e := At(r, p), At(r, q), t[At(r, p)];
    var t': Table := Clear(t, s)[to := e];
    AtEq(r, p, q);
    AtZero(r);
    MembersMove(t, s, to);
    DistinctMove(t, s, to);
    MovedPath(t0, t, r, q, p);
    CrossedNext(t0, r, p);
    MovedCrosses(t0, t, r, q, p);
    var f := FreeAhead(t0, r, p + 1);
    MovePaths(t0, t', r, p, f);
    forall o: int | o == 1 || p + 1 <= o < 61 ensures t'[At(r, o)] == t0[At(r, o)] {
      AtEq(r, o, p);
      AtEq(r, o, q);
    }
  }

  lemma MovedCrosses(t0: Table, t: Table, r: nat, q: int, p: int)
    requires r < 61 && Mid(t0, t, r, q, p) && p < 61 && t[At(r, p)].ino != 0 && Dist(t[At(r, p)].ino, At(r, p)) >= p - q
    ensures t0[At(r, p)].ino != 0 && Crossed(t0, r, p + 1)
  {}

  lemma MidStay(t0: Table, t: Table, r: nat, q: int, p: int)
    requires Good(t0) && r < 61 && t0[r].ino != 0 && Mid(t0, t, r, q, p) && p < 61 && t[At(r, p)].ino != 0
    requires Dist(t[At(r, p)].ino, At(r, p)) < p - q
    ensures Mid(t0, t, r, q, p + 1)
  {
    hide At, Dist, Slot, Back;
    CrossedNext(t0, r, p);
    var x := t[At(r, p)].ino;
    forall j: nat | 1 <= j <= Dist(x, At(r, p)) ensures t[Back(At(r, p), j)].ino != 0 {
      AtBack(r, p, j);
      PathHas(t0, x, r, p, p - j);
      AtEq(r, p - j, q);
    }
    hide Members, Crossed, Distinct;
  }

  /** The loop is over before it has gone round the table. */
  lemma EndsInTime(t0: Table, t: Table, r: nat, q: int)
    requires Good(t0) && HasFree(t0) && r < 61 && t0[r].ino != 0 && Mid(t0, t, r, q, 61)
    ensures t[At(r, 61)].ino == 0
  {
    hide At, Dist, PathFull, Members, Distinct, Good, HasFree;
    AtZero(r);
    if q != 0 { var f := FreeAhead(t0, r, 61); }
  }

  lemma ProbeAt(x: nat, m: nat, p: nat)
    ensures Probe(x, m + p) == At(Probe(x, m), p)
  {
    hide Home;
    SlotShift(Home(x) + m, p);
  }

  lemma MidStep(t0: Table, t: Table, r: nat, q: int, p: int) returns (q': int)
    requires Good(t0) && HasFree(t0) && r < 61 && t0[r].ino != 0 && Mid(t0, t, r, q, p) && t[At(r, p)].ino != 0
    ensures p < 61 && Mid(t0, Add(Clear(t, At(r, p)), t[At(r, p)]).0, r, q', p + 1)
  {
    hide At, Dist, Slot, Back, Good, HasFree, Add, Mid;
    MidShape(t0, t, r, q, p);
    if p == 61 {
      EndsInTime(t0, t, r, q);
    } else {
      WhereItGoes(t0, t, r, q, p);
      if Dist(t[At(r, p)].ino, At(r, p)) >= p - q {
        q' := p;
        MidMove(t0, t, r, q, p);
      } else {
        q' := q;
        MidStay(t0, t, r, q, p);
      }
    }
  }

  lemma MidShape(t0: Table, t: Table, r: nat, q: int, p: int)
    requires r < 61 && Mid(t0, t, r, q, p)
    ensures 0 <= q < p && 2 <= p <= 61
  {}

  /** The loop of remove_func keeps its invariant and stops at a free slot. */
  lemma {:induction false} ReinsertMid(t0: Table, t: Table, r: nat, x: nat, m: nat, q: int, p: int)
      returns (q': int, p': int)
    requires Good(t0) && HasFree(t0) && r < 61 && t0[r].ino != 0 && Mid(t0, t, r, q, p) && m <= 60 && r == Probe(x, m)
      && HasFree(t)
    ensures Mid(t0, Reinsert(t, x, m + p), r, q', p') && Reinsert(t, x, m + p)[At(r, p')].ino == 0
    decreases 61 - p
  {
    hide At, Dist, Slot, Back, Good, HasFree, Add, Mid, Probe, Clear;
    MidShape(t0, t, r, q, p);
    ProbeAt(x, m, p);
    if t[At(r, p)].ino == 0 {
      q', p' := q, p;
    } else {
      var q1 := MidStep(t0, t, r, q, p);
      TurnShrinks(t, At(r, p));
      q', p' := ReinsertMid(t0, Turn(t, At(r, p)), r, x, m, q1, p + 1);
    }
  }

  /** When the loop ends, every entry but the one after the removed slot has a full path. */
  lemma EndPath(t0: Table, t: Table, r: nat, q: int, p: int, s: nat)
    requires Good(t0) && HasFree(t0) && r < 61 && t0[r].ino != 0 && Mid(t0, t, r, q, p) && t[At(r, p)].ino == 0
    requires s < 61 && t[s].ino != 0 && s != At(r, 1)
    ensures PathFull(t, t[s].ino, s)
  {
    var o := OffsetOf(r, s);
    hide At, Dist, Slot, Back;
    if o > p {
      AtEq(r, p, q);
      forall j: nat | 1 <= j <= Dist(t[s].ino, s) ensures t[Back(s, j)].ino != 0 {
        AtBack(r, o, j);
        if o - j <= p { PathHas(t0, t[s].ino, r, o, p); }
        AtEq(r, o - j, q);
      }
    }
  }

  /** The entry after the removed slot keeps a full path only if its path is empty or the hole has moved. */
  lemma EndPathNext(t0: Table, t: Table, r: nat, q: int, p: int)
    requires Good(t0) && HasFree(t0) && r < 61 && t0[r].ino != 0 && Mid(t0, t, r, q, p) && t[At(r, 1)].ino != 0
    ensures PathFull(t, t[At(r, 1)].ino, At(r, 1)) == (q != 0 || Dist(t[At(r, 1)].ino, At(r, 1)) == 0)
  {
    var x, s := t[At(r, 1)].ino, At(r, 1);
    hide At, Dist, Slot, Back;
    AtBack(r, 1, 1);
    if q != 0 {
      var f := FreeAhead(t0, r, p);
      forall j: nat | 1 <= j <= Dist(x, s) ensures t[Back(s, j)].ino != 0 {
        NotRound(t0, r, 1, q, f, x, j);
      }
    }
  }

  /** Whether some entry crosses the removed slot does not depend on how far the loop has looked. */
  lemma EndCrossed(t0: Table, t: Table, r: nat, q: int, p: int)
    requires Good(t0) && r < 61 && t0[r].ino != 0 && Mid(t0, t, r, q, p) && t[At(r, p)].ino == 0
    ensures (q != 0) == Crossed(t0, r, 61)
  {
    hide At, Dist, Slot, Back;
    if Crossed(t0, r, 61) && !Crossed(t0, r, p) {
      var o: int :| 2 <= o < 61 && t0[At(r, o)].ino != 0 && Dist(t0[At(r, o)].ino, At(r, o)) >= o;
      assert o >= p;
      if o > p { PathHas(t0, t0[At(r, o)].ino, r, o, p); }
      AtEq(r, p, q);
    }
  }

  /** remove_func of a stored inode with the right key: it ends, drops that entry, and neither loses nor
      duplicates another one. */
  lemma RemoveKeepsOthers(t: Table, x: nat, key: HKey)
    requires Good(t) && HasFree(t) && x != 0 && Search(t, x) >= 0 && t[Search(t, x)].key == key
    ensures
      var (t', code) := Remove(t, x, key);
      code == 1 && Distinct(t') && Members(t') == Members(t) - {t[Search(t, x)]}
  {
    var q, p := RemoveMid(t, x, key);
    hide Good, HasFree, Search, Remove, PathFull, At, Crossed;
  }

  lemma RemoveMid(t: Table, x: nat, key: HKey) returns (q: int, p: int)
    requires Good(t) && HasFree(t) && x != 0 && Search(t, x) >= 0 && t[Search(t, x)].key == key
    ensures
      var (t', code) := Remove(t, x, key);
      code == 1 && Mid(t, t', Search(t, x), q, p) && t'[At(Search(t, x), p)].ino == 0
  {
    hide FindFrom, At, Mid, Good, HasFree, Reinsert;
    var m, r := FindFrom(t, x, 0), Search(t, x);
    MidAtStart(t, r);
    ClearHasFree(t, r);
    q, p := ReinsertMid(t, Clear(t, r), r, x, m, 0, 2);
  }

  /** All other entries can still be found after a removal if and only if the slot after the removed entry
      was free, or held an entry at the first slot of its probe order, or some entry further on had the
      removed slot in its probe order.  Whatever happens, only the entry in that slot can be lost. */
  lemma RemoveFindable(t: Table, x: nat, key: HKey)
    requires Good(t) && HasFree(t) && x != 0 && Search(t, x) >= 0 && t[Search(t, x)].key == key
    ensures
      var t', r := Remove(t, x, key).0, Search(t, x);
      var next := t[At(r, 1)].ino;
      && (forall y | y != 0 && y != x && y != next && Has(t, y) :: Search(t', y) >= 0)
      && ((forall y | y != 0 && y != x && Has(t, y) :: Search(t', y) >= 0) <==>
            Harmless(t, r))
  {
    var q, p := RemoveMid(t, x, key);
    var t', r := Remove(t, x, key).0, Search(t, x);
    hide Remove;
    EndCrossed(t, t', r, q, p);
    var next := t[At(r, 1)].ino;
    RemoveKeepsOthers(t, x, key);
    hide Members, Crossed, Reinsert, Dist, At, Mid, Good, HasFree, Search;
    forall y: nat | y != 0 && y != x && Has(t, y) ensures Has(t', y) && (y != next ==> Search(t', y) >= 0) {
      StillThere(t, t', x, y, r);
      var s: nat :| s < 61 && t'[s].ino == y;
      SearchAt(t', y, s);
      NextStays(t, t', r, q, p);
      if y != next { EndPath(t, t', r, q, p, s); }
    }
    if next != 0 {
      NextStays(t, t', r, q, p);
      EndPathNext(t, t', r, q, p);
      SearchAt(t', next, At(r, 1));
      NextIsOther(t, x, r);
    }
  }

  /** The slot after slot r is free, or holds an entry at the first slot of its probe order, or some entry
      further on has slot r in its probe order. */
  predicate Harmless(t: Table, r: nat)
  {
    var next := t[At(r, 1)].ino;
    next == 0 || Dist(next, At(r, 1)) == 0 || Crossed(t, r, 61)
  }

  /** Under the same condition, and no other, the table is as good after the removal as before. */
  lemma RemoveKeepsGood(t: Table, x: nat, key: HKey)
    requires Good(t) && HasFree(t) && x != 0 && Search(t, x) >= 0 && t[Search(t, x)].key == key
    ensures Good(Remove(t, x, key).0) <==> Harmless(t, Search(t, x))
  {
    var q, p := RemoveMid(t, x, key);
    var t', r := Remove(t, x, key).0, Search(t, x);
    hide Remove;
    EndCrossed(t, t', r, q, p);
    NextStays(t, t', r, q, p);
    RemoveKeepsOthers(t, x, key);
    if t[At(r, 1)].ino != 0 { EndPathNext(t, t', r, q, p); }
    hide Members, Crossed, Reinsert, Dist, At, Mid, HasFree, Search, PathFull;
    forall s: nat | s < 61 && t'[s].ino != 0 && s != At(r, 1) ensures PathFull(t', t'[s].ino, s) {
      EndPath(t, t', r, q, p, s);
    }
  }

  // ----- runs -----

  datatype Op = AddOp(e: Entry) | RemoveOp(x: nat, key: HKey)

  function Step(t: Table, op: Op): Table
  {
    match op
    case AddOp(e) => Add(t, e).0
    case RemoveOp(x, key) => Remove(t, x, key).0
  }

  /** What the calls mean: a map from inodes to the hashes of their keys. */
  type Keys = map<nat, HKey>

  function KeysStep(k: Keys, op: Op): Keys
  {
    match op
    case AddOp(e) => if e.ino in k then k else k[e.ino := e.key]
    case RemoveOp(x, key) => if x in k && k[x] == key then k - {x} else k
  }

  /** A call meets a table with a free slot, and a removal that takes an entry out is harmless. */
  predicate Safe(t: Table, op: Op)
  {
    HasFree(t) &&
    match op
    case AddOp(e) => e.ino != 0
    case RemoveOp(x, key) => x != 0 && (Search(t, x) >= 0 && t[Search(t, x)].key == key ==> Harmless(t, Search(t, x)))
  }

  function Run(t: Table, ops: seq<Op>): Table
    decreases |ops|
  {
    if ops == [] then t else Run(Step(t, ops[0]), ops[1..])
  }

  function KeysRun(k: Keys, ops: seq<Op>): Keys
    decreases |ops|
  {
    if ops == [] then k else KeysRun(KeysStep(k, ops[0]), ops[1..])
  }

  predicate AllSafe(t: Table, ops: seq<Op>)
    decreases |ops|
  {
    ops == [] || (Safe(t, ops[0]) && AllSafe(Step(t, ops[0]), ops[1..]))
  }

  /** A good table that stores exactly k. */
  ghost predicate Stores(t: Table, k: Keys)
  {
    Good(t) && forall e: Entry :: e in Members(t) <==> e.ino != 0 && e.ino in k && k[e.ino] == e.key
  }

  lemma StepStores(t: Table, k: Keys, op: Op)
    requires Stores(t, k) && HasFree(t) && (op.AddOp? ==> op.e.ino != 0) && (op.RemoveOp? ==> op.x != 0)
    ensures Stores(Step(t, op), KeysStep(k, op)) <==> Safe(t, op)
  {
    hide Add, Remove, Search, HasFree, Harmless, Members, Good, Has;
    match op
    case AddOp(e) =>
      AddIsExact(t, e);
      HasIsMember(t, e.ino);
      if Has(t, e.ino) { var m :| m in Members(t) && m.ino == e.ino; }
      if e.ino in k { assert Entry(e.ino, k[e.ino]) in Members(t); }
    case RemoveOp(x, key) =>
      RemoveRefuses(t, x, key);
      HasIsMember(t, x);
      FoundIs(t, k, x);
      if Search(t, x) >= 0 && t[Search(t, x)].key == key {
        RemoveKeepsGood(t, x, key);
        RemoveKeepsOthers(t, x, key);
      }
  }

  lemma FoundIs(t: Table, k: Keys, x: nat)
    requires Stores(t, k) && x != 0
    ensures Search(t, x) >= 0 <==> x in k
    ensures Search(t, x) >= 0 ==> Search(t, x) < 61 && t[Search(t, x)] == Entry(x, k[x])
  {
    SearchIsExact(t, x);
    HasIsMember(t, x);
    SearchRange(t, x);
    hide Search, Good, Has;
    if Search(t, x) >= 0 { assert t[Search(t, x)] in Members(t); }
    if x in k { assert Entry(x, k[x]) in Members(t); }
  }

  lemma {:induction false} RunStores(t: Table, k: Keys, ops: seq<Op>)
    requires Stores(t, k) && AllSafe(t, ops)
    ensures Stores(Run(t, ops), KeysRun(k, ops))
    decreases |ops|
  {
    hide Stores, Safe, Step, KeysStep;
    if ops != [] {
      SafeHasFree(t, ops[0]);
      StepStores(t, k, ops[0]);
      RunStores(Step(t, ops[0]), KeysStep(k, ops[0]), ops[1..]);
    }
  }

  /** Over every run of adds and removals of an empty table that keeps a free slot and takes out only
      harmlessly, the table is the map from inodes to hashes: search finds exactly its inodes, each with its hash. */
  lemma TableIsAMap(ops: seq<Op>, x: nat)
    requires AllSafe(Empty(), ops) && x != 0
    ensures
      var (t, k) := (Run(Empty(), ops), KeysRun(map[], ops));
      var r := Search(t, x);
      Stores(t, k) && (r >= 0 <==> x in k) && (r >= 0 ==> r < 61 && t[r] == Entry(x, k[x]))
  {
    EmptyStores();
    RunStores(Empty(), map[], ops);
    FoundIs(Run(Empty(), ops), KeysRun(map[], ops), x);
    hide Stores, Search, Run, KeysRun;
  }

  lemma SafeHasFree(t: Table, op: Op)
    requires Safe(t, op)
    ensures HasFree(t) && (op.AddOp? ==> op.e.ino != 0) && (op.RemoveOp? ==> op.x != 0)
  {}

  lemma EmptyStores()
    ensures Stores(Empty(), map[])
  {
    EmptyIsGood();
  }

  lemma StillThere(t: Table, t': Table, x: nat, y: nat, r: nat)
    requires r < 61 && t[r].ino == x && Members(t') == Members(t) - {t[r]} && y != 0 && y != x && Has(t, y)
    ensures Has(t', y)
  {
    HasIsMember(t, y);
    HasIsMember(t', y);
  }

  lemma NextStays(t: Table, t': Table, r: nat, q: int, p: int)
    requires r < 61 && Mid(t, t', r, q, p)
    ensures t'[At(r, 1)] == t[At(r, 1)]
  {}

  lemma NextIsOther(t: Table, x: nat, r: nat)
    requires Good(t) && r < 61 && t[r].ino == x && t[At(r, 1)].ino != 0
    ensures t[At(r, 1)].ino != x && Has(t, t[At(r, 1)].ino)
  {}

  /** remove_func answers -1 for an inode that search does not find, in a good table one that is not stored,
      and -EINVAL for a wrong key, and then changes nothing. */
  lemma RemoveRefuses(t: Table, x: nat, key: HKey)
    requires x != 0
    ensures Search(t, x) < 0 ==> Remove(t, x, key) == (t, -1)
    ensures Search(t, x) >= 0 && t[Search(t, x)].key != key ==> Remove(t, x, key) == (t, -EINVAL)
    ensures Good(t) ==> (Has(t, x) <==> Search(t, x) >= 0)
  {
    if Good(t) { SearchIsExact(t, x); }
    hide FindFrom, Reinsert, Good;
  }

  /** Inodes 1 and 3661 share their first slot; after removing inode 1, inode 3661 is stored but not found. */
  lemma RemoveLosesOne(key: HKey)
    ensures
      var t := AddAll([Entry(1, key), Entry(3661, key)]);
      var t' := Remove(t, 1, key).0;
      Entry(3661, key) in Members(t') && Search(t', 3661) == -1
  {
    var e, f := Entry(1, key), Entry(3661, key);
    var t1: Table := Empty()[2 := e];
    var t: Table := t1[3 := f];
    assert AddAll([e, f]) == t by {
      assert [e, f][..1] == [e] && [e][..0] == [];
      assert Probe(1, 0) == 2 && Probe(3661, 0) == 2 && Probe(3661, 1) == 3;
      assert AddAll([]) == Empty();
      assert FindFrom(Empty(), 1, 0) == 0;
      assert AddAll([e]) == t1;
      assert FindFrom(t1, 3661, 0) == 1;
    }
    assert FindFrom(t, 1, 0) == 0 && Probe(1, 0) == 2;
    var t' := Clear(t, 2);
    ClearHasFree(t, 2);
    assert Reinsert(t', 1, 2) == t' by { assert Probe(1, 2) == 4; }
    assert FindFrom(t', 3661, 0) == 0 && Probe(3661, 0) == 2;
    assert t'[3] == f;
  }
}
