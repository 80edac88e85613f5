/** truncate (fs/truncate.c) frees exactly the zones its inode reached, each of them once. */
module Truncate {
  import opened Zones

  // ----- the order in which zones are freed -----

  /** The zone numbers in block b from word j on. */
  function Words(b: Block, j: nat): (zs: seq<nat>)
    requires |b| == BLOCK && j <= WORDS
    decreases WORDS - j
  {
    if j == WORDS then []
    else (if GetWord(b, j) != 0 then [GetWord(b, j)] else []) + Words(b, j + 1)
  }

  /** free_ind: the entries of table t, then t itself. */
  function IndList(fs: Fs, t: nat): (zs: seq<nat>)
    requires Shape(fs) && t < 0x1_0000
  {
    if t == 0 then [] else Words(fs.store[t], 0) + [t]
  }

  /** The loop of free_dind over table t from word j on. */
  function TableLists(fs: Fs, t: nat, j: nat): (zs: seq<nat>)
    requires Shape(fs) && t < 0x1_0000 && j <= WORDS
    decreases WORDS - j
  {
    if j == WORDS then [] else IndList(fs, GetWord(fs.store[t], j)) + TableLists(fs, t, j + 1)
  }

  /** free_dind. */
  function DindList(fs: Fs, t: nat): (zs: seq<nat>)
    requires Shape(fs) && t < 0x1_0000
  {
    if t == 0 then [] else TableLists(fs, t, 0) + [t]
  }

  /** The loop over the direct zones from k on. */
  function DirectList(zone: seq<nat>, k: nat): (zs: seq<nat>)
    requires |zone| == 9 && k <= 7
    decreases 7 - k
  {
    if k == 7 then [] else (if zone[k] != 0 then [zone[k]] else []) + DirectList(zone, k + 1)
  }

  function FreedList(fs: Fs, i: nat): (zs: seq<nat>)
    requires Shape(fs) && i < |fs.inodes|
  {
    var zone := fs.inodes[i].zone;
    DirectList(zone, 0) + IndList(fs, zone[7]) + DindList(fs, zone[8])
  }

  function FreeAll(fs: Fs, zs: seq<nat>): (r: Fs)
    requires Shape(fs)
    ensures Shape(r) && r.store == fs.store && r.inodes == fs.inodes && r.first == fs.first && r.nzones == fs.nzones
    decreases |zs|
  {
    if zs == [] then fs else FreeAll(FreeBlock(fs, zs[0]), zs[1..])
  }

  const NO_ZONES: seq<nat> := [0, 0, 0, 0, 0, 0, 0, 0, 0]

  /** truncate. */
  function TruncateInode(fs: Fs, i: nat): (r: Fs)
    requires Shape(fs) && i < |fs.inodes|
    ensures Shape(r)
  {
    if fs.inodes[i].kind.OTHER? then fs
    else
      var r := FreeAll(fs, FreedList(fs, i));
      r.(inodes := r.inodes[i := r.inodes[i].(zone := NO_ZONES, size := 0)])
  }

  // ----- membership -----

  lemma {:induction false} WordsMembers(b: Block, j: nat, x: nat)
    requires |b| == BLOCK && j <= WORDS
    ensures x in Words(b, j) <==> x != 0 && exists k :: j <= k < WORDS && GetWord(b, k) == x
    decreases WORDS - j
  {
    if j < WORDS {
      WordsMembers(b, j + 1, x);
    }
  }

  ghost predicate InTable(fs: Fs, t: nat, x: nat)
    requires Shape(fs) && t < 0x1_0000
  {
    t != 0 && (x == t || (x != 0 && exists k :: 0 <= k < WORDS && GetWord(fs.store[t], k) == x))
  }

  lemma IndMembers(fs: Fs, t: nat, x: nat)
    requires Shape(fs) && t < 0x1_0000
    ensures x in IndList(fs, t) <==> InTable(fs, t, x)
  {
    if t != 0 { WordsMembers(fs.store[t], 0, x); }
  }

  lemma {:induction false} TableMembers(fs: Fs, t: nat, j: nat, x: nat)
    requires Shape(fs) && t < 0x1_0000 && j <= WORDS
    ensures x in TableLists(fs, t, j) <==> exists l :: j <= l < WORDS && InTable(fs, GetWord(fs.store[t], l), x)
    decreases WORDS - j
  {
    hide InTable; hide IndList; hide GetWord;
    if j < WORDS {
      IndMembers(fs, GetWord(fs.store[t], j), x);
      TableMembers(fs, t, j + 1, x);
      if exists l :: j <= l < WORDS && InTable(fs, GetWord(fs.store[t], l), x) {
        var l :| j <= l < WORDS && InTable(fs, GetWord(fs.store[t], l), x);
        if l > j { assert x in TableLists(fs, t, j + 1); }
      }
    }
  }

  lemma {:induction false} DirectMembers(zone: seq<nat>, k: nat, x: nat)
    requires |zone| == 9 && k <= 7
    ensures x in DirectList(zone, k) <==> x != 0 && exists l :: k <= l < 7 && zone[l] == x
    decreases 7 - k
  {
    if k < 7 { DirectMembers(zone, k + 1, x); }
  }

  ghost predicate Reached(fs: Fs, i: nat, x: nat)
    requires Shape(fs) && i < |fs.inodes|
  {
    x != 0 && exists p :: ValidPos(p) && At(fs, i, p) == x
  }

  /** The freed zones are exactly those the inode reached. */
  lemma FreedIsReached(fs: Fs, i: nat, x: nat)
    requires Shape(fs) && i < |fs.inodes|
    ensures x in FreedList(fs, i) <==> Reached(fs, i, x)
  {
    hide FreedList; hide At;
    if x in FreedList(fs, i) {
      var p := WhereFreed(fs, i, x);
    }
    if Reached(fs, i, x) {
      var p :| ValidPos(p) && At(fs, i, p) == x;
      ReachedIsFreed(fs, i, p);
    }
  }

  lemma WhereFreed(fs: Fs, i: nat, x: nat) returns (p: Pos)
    requires Shape(fs) && i < |fs.inodes| && x in FreedList(fs, i)
    ensures ValidPos(p) && At(fs, i, p) == x != 0
  {
    var zone := fs.inodes[i].zone;
    if x in DirectList(zone, 0) {
      DirectMembers(zone, 0, x);
      var l :| 0 <= l < 7 && zone[l] == x;
      p := Direct(l);
    } else if x in IndList(fs, zone[7]) {
      p := WhereInTable(fs, i, Ind, x);
    } else {
      p := WhereInDind(fs, i, x);
    }
  }

  lemma ReachedIsFreed(fs: Fs, i: nat, p: Pos)
    requires Shape(fs) && i < |fs.inodes| && ValidPos(p) && At(fs, i, p) != 0
    ensures At(fs, i, p) in FreedList(fs, i)
  {
    var zone := fs.inodes[i].zone;
    var x := At(fs, i, p);
    match p
    case Direct(k) => DirectMembers(zone, 0, x); assert zone[k] == x;
    case Ind => IndMembers(fs, zone[7], x);
    case IndEntry(j) => IndMembers(fs, zone[7], x); assert GetWord(fs.store[zone[7]], j) == x;
    case Dind =>
    case DindTable(j) => DindIsFreed(fs, i, p, j);
    case DindEntry(j, k) => DindIsFreed(fs, i, p, j);
  }

  lemma DindIsFreed(fs: Fs, i: nat, p: Pos, j: nat)
    requires Shape(fs) && i < |fs.inodes| && ValidPos(p) && At(fs, i, p) != 0
    requires p == DindTable(j) || (p.DindEntry? && p.j == j)
    ensures At(fs, i, p) in FreedList(fs, i)
  {
    var t, x := fs.inodes[i].zone[8], At(fs, i, p);
    TableMembers(fs, t, 0, x);
    hide IndList, TableLists, DirectList;
    if p.DindEntry? { assert GetWord(fs.store[GetWord(fs.store[t], j)], p.k) == x; }
    assert InTable(fs, GetWord(fs.store[t], j), x);
  }

  // ----- no zone is freed twice -----

  ghost predicate NoDup(zs: seq<nat>)
  {
    forall a, b | 0 <= a < b < |zs| :: zs[a] != zs[b]
  }

  lemma NoDupConcat(xs: seq<nat>, ys: seq<nat>)
    requires NoDup(xs) && NoDup(ys) && (forall x | x in xs :: x !in ys)
    ensures NoDup(xs + ys)
  {
    forall a, b | 0 <= a < b < |xs + ys| ensures (xs + ys)[a] != (xs + ys)[b] {
      if a < |xs| <= b { assert xs[a] in xs && ys[b - |xs|] in ys; }
    }
  }

  lemma {:induction false} WordsNoDup(b: Block, j: nat)
    requires |b| == BLOCK && j <= WORDS
    requires forall k, l | 0 <= k < WORDS && 0 <= l < WORDS && GetWord(b, k) != 0 && GetWord(b, k) == GetWord(b, l) ::
      k == l
    ensures NoDup(Words(b, j))
    decreases WORDS - j
  {
    hide GetWord;
    if j < WORDS {
      WordsNoDup(b, j + 1);
      WordsMembers(b, j + 1, GetWord(b, j));
      if GetWord(b, j) != 0 { NoDupConcat([GetWord(b, j)], Words(b, j + 1)); }
    }
  }

  /** The table at position p of an inode, with its entries at the positions e. */
  lemma IndNoDup(fs: Fs, i: nat, p: Pos)
    requires Forest(fs) && i < |fs.inodes| && (p.Ind? || (p.DindTable? && p.j < WORDS))
    ensures NoDup(IndList(fs, At(fs, i, p)))
  {
    var t := At(fs, i, p);
    if t != 0 {
      forall k, l | 0 <= k < WORDS && 0 <= l < WORDS && GetWord(fs.store[t], k) != 0
          && GetWord(fs.store[t], k) == GetWord(fs.store[t], l)
        ensures k == l
      {
        EntryAt(fs, i, p, k);
        EntryAt(fs, i, p, l);
        Unique(fs, i, Child(p, k), i, Child(p, l));
      }
      WordsNoDup(fs.store[t], 0);
      forall x | x in Words(fs.store[t], 0) ensures x !in [t] {
        WordsMembers(fs.store[t], 0, x);
        var k :| 0 <= k < WORDS && GetWord(fs.store[t], k) == x;
        EntryAt(fs, i, p, k);
        if x == t { Unique(fs, i, p, i, Child(p, k)); }
      }
      NoDupConcat(Words(fs.store[t], 0), [t]);
    }
  }

  function Child(p: Pos, k: nat): Pos
  {
    if p.Ind? then IndEntry(k) else if p.DindTable? then DindEntry(p.j, k) else p
  }

  lemma EntryAt(fs: Fs, i: nat, p: Pos, k: nat)
    requires Shape(fs) && i < |fs.inodes| && k < WORDS && (p.Ind? || (p.DindTable? && p.j < WORDS)) && At(fs, i, p) != 0
    ensures At(fs, i, Child(p, k)) == GetWord(fs.store[At(fs, i, p)], k)
  {}

  lemma Unique(fs: Fs, i: nat, p: Pos, i': nat, q: Pos)
    requires Shape(fs) && Disjoint(fs) && i < |fs.inodes| && ValidPos(p) && i' < |fs.inodes| && ValidPos(q)
    requires At(fs, i, p) != 0 && At(fs, i, p) == At(fs, i', q)
    ensures i == i' && p == q
  {}

  /** A zone in the list of a table is at the table's position or below it. */
  lemma WhereInTable(fs: Fs, i: nat, p: Pos, x: nat) returns (q: Pos)
    requires Shape(fs) && i < |fs.inodes| && (p.Ind? || (p.DindTable? && p.j < WORDS))
    requires x in IndList(fs, At(fs, i, p))
    ensures ValidPos(q) && At(fs, i, q) == x != 0 && (q == p || Parent(q) == p)
  {
    IndMembers(fs, At(fs, i, p), x);
    if x == At(fs, i, p) { return p; }
    var k :| 0 <= k < WORDS && GetWord(fs.store[At(fs, i, p)], k) == x;
    EntryAt(fs, i, p, k);
    return Child(p, k);
  }

  lemma WhereInTables(fs: Fs, i: nat, j: nat, x: nat) returns (q: Pos)
    requires Shape(fs) && i < |fs.inodes| && At(fs, i, Dind) != 0 && j <= WORDS
      && x in TableLists(fs, At(fs, i, Dind), j)
    ensures ValidPos(q) && At(fs, i, q) == x != 0 && (q.DindTable? || q.DindEntry?) && q.j >= j
  {
    var t := At(fs, i, Dind);
    TableMembers(fs, t, j, x);
    var l :| j <= l < WORDS && InTable(fs, GetWord(fs.store[t], l), x);
    assert At(fs, i, DindTable(l)) == GetWord(fs.store[t], l);
    IndMembers(fs, GetWord(fs.store[t], l), x);
    q := WhereInTable(fs, i, DindTable(l), x);
  }

  lemma TablesApart(fs: Fs, i: nat, j: nat, x: nat)
    requires Forest(fs) && i < |fs.inodes| && At(fs, i, Dind) != 0 && j < WORDS
    requires x in IndList(fs, At(fs, i, DindTable(j)))
    ensures x !in TableLists(fs, At(fs, i, Dind), j + 1)
  {
    hide At; hide IndList; hide TableLists;
    if x in TableLists(fs, At(fs, i, Dind), j + 1) {
      var q := WhereInTable(fs, i, DindTable(j), x);
      var r := WhereInTables(fs, i, j + 1, x);
      Unique(fs, i, q, i, r);
    }
  }

  lemma {:induction false} TablesNoDup(fs: Fs, i: nat, j: nat)
    requires Forest(fs) && i < |fs.inodes| && At(fs, i, Dind) != 0 && j <= WORDS
    ensures NoDup(TableLists(fs, At(fs, i, Dind), j))
    decreases WORDS - j
  {
    if j < WORDS {
      var t := At(fs, i, Dind);
      var u := GetWord(fs.store[t], j);
      assert At(fs, i, DindTable(j)) == u;
      hide At; hide GetWord; hide IndList; hide Forest;
      TablesNoDup(fs, i, j + 1);
      IndNoDup(fs, i, DindTable(j));
      forall x | x in IndList(fs, u) ensures x !in TableLists(fs, t, j + 1) {
        TablesApart(fs, i, j, x);
      }
      NoDupConcat(IndList(fs, u), TableLists(fs, t, j + 1));
    }
  }

  lemma {:induction false} DirectNoDup(fs: Fs, i: nat, k: nat)
    requires Forest(fs) && i < |fs.inodes| && k <= 7
    ensures NoDup(DirectList(fs.inodes[i].zone, k))
    decreases 7 - k
  {
    var zone := fs.inodes[i].zone;
    if k < 7 {
      DirectNoDup(fs, i, k + 1);
      DirectMembers(zone, k + 1, zone[k]);
      if zone[k] != 0 {
        if zone[k] in DirectList(zone, k + 1) {
          var l :| k + 1 <= l < 7 && zone[l] == zone[k];
          Unique(fs, i, Direct(k), i, Direct(l));
        }
        NoDupConcat([zone[k]], DirectList(zone, k + 1));
      }
    }
  }

  lemma DindNoDup(fs: Fs, i: nat)
    requires Forest(fs) && i < |fs.inodes|
    ensures NoDup(DindList(fs, At(fs, i, Dind)))
  {
    var t := At(fs, i, Dind);
    if t != 0 {
      TablesNoDup(fs, i, 0);
      forall x | x in TableLists(fs, t, 0) ensures x !in [t] {
        var q := WhereInTables(fs, i, 0, x);
        if x == t { Unique(fs, i, q, i, Dind); }
      }
      NoDupConcat(TableLists(fs, t, 0), [t]);
    }
  }

  /** No zone is freed twice. */
  lemma FreedNoDup(fs: Fs, i: nat)
    requires Forest(fs) && i < |fs.inodes|
    ensures NoDup(FreedList(fs, i))
  {
    var zone := fs.inodes[i].zone;
    var ds, ins, dis := DirectList(zone, 0), IndList(fs, zone[7]), DindList(fs, zone[8]);
    DirectNoDup(fs, i, 0);
    IndNoDup(fs, i, Ind);
    DindNoDup(fs, i);
    forall x | x in ds ensures x !in ins && x !in dis {
      DirectMembers(zone, 0, x);
      var l :| 0 <= l < 7 && zone[l] == x;
      if x in ins { var q := WhereInTable(fs, i, Ind, x); Unique(fs, i, Direct(l), i, q); }
      if x in dis { var q := WhereInDind(fs, i, x); Unique(fs, i, Direct(l), i, q); }
    }
    forall x | x in ins ensures x !in dis {
      var q := WhereInTable(fs, i, Ind, x);
      if x in dis { var r := WhereInDind(fs, i, x); Unique(fs, i, q, i, r); }
    }
    NoDupConcat(ds, ins);
    NoDupConcat(ds + ins, dis);
  }

  lemma WhereInDind(fs: Fs, i: nat, x: nat) returns (q: Pos)
    requires Shape(fs) && i < |fs.inodes| && x in DindList(fs, At(fs, i, Dind))
    ensures ValidPos(q) && At(fs, i, q) == x != 0 && (q.Dind? || q.DindTable? || q.DindEntry?)
  {
    if x == At(fs, i, Dind) { return Dind; }
    q := WhereInTables(fs, i, 0, x);
  }

  // ----- the bitmap -----

  lemma {:induction false} FreeAllBits(fs: Fs, zs: seq<nat>, z: nat)
    requires Shape(fs) && fs.first <= z < fs.nzones && (forall x | x in zs :: fs.first <= x < fs.nzones)
    ensures Marked(FreeAll(fs, zs), z) <==> Marked(fs, z) && z !in zs
    ensures FreeAll(fs, zs).bits[0] == fs.bits[0]
    decreases |zs|
  {
    if zs != [] {
      assert zs[0] in zs && forall x | x in zs[1..] :: x in zs;
      FreeAllBits(FreeBlock(fs, zs[0]), zs[1..], z);
    }
  }

  /** The panic "bit already cleared" is unreachable: at each step the bit of the next zone is set. */
  lemma NeverCleared(fs: Fs, i: nat, k: nat)
    requires Forest(fs) && i < |fs.inodes| && k < |FreedList(fs, i)|
    ensures Marked(FreeAll(fs, FreedList(fs, i)[..k]), FreedList(fs, i)[k])
  {
    hide FreedList; hide FreeAll; hide At; hide Disjoint; hide Reached;
    var zs := FreedList(fs, i);
    FreedNoDup(fs, i);
    AllFreedMarked(fs, i);
    assert zs[k] in zs && forall x | x in zs[..k] :: x in zs;
    FreeAllBits(fs, zs[..k], zs[k]);
  }

  lemma AllFreedMarked(fs: Fs, i: nat)
    requires Forest(fs) && i < |fs.inodes|
    ensures forall x | x in FreedList(fs, i) :: Marked(fs, x)
  {
    hide FreedList; hide At;
    var zs := FreedList(fs, i);
    forall x | x in zs ensures Marked(fs, x) {
      FreedIsReached(fs, i, x);
    }
  }

  /** truncate: the bits of exactly the zones the inode reached are cleared, the inode maps nothing, and
      every other inode keeps its tree. */
  lemma TruncateSpec(fs: Fs, i: nat)
    requires Forest(fs) && i < |fs.inodes| && !fs.inodes[i].kind.OTHER?
    ensures var fs' := TruncateInode(fs, i);
            && Forest(fs') && fs'.store == fs.store && fs'.first == fs.first && fs'.nzones == fs.nzones
            && (forall z | fs.first <= z < fs.nzones :: Marked(fs', z) <==> Marked(fs, z) && !Reached(fs, i, z))
            && fs'.inodes == fs.inodes[i := fs.inodes[i].(zone := NO_ZONES, size := 0)]
            && (forall p | ValidPos(p) :: At(fs', i, p) == 0)
            && (forall j, p | 0 <= j < |fs.inodes| && j != i && ValidPos(p) :: At(fs', j, p) == At(fs, j, p))
  {
    hide At; hide Marked; hide Reached; hide Disjoint; hide FreedList;
    var fs' := TruncateInode(fs, i);
    ClearedBits(fs, i);
    forall j, p | 0 <= j < |fs.inodes| && ValidPos(p)
      ensures At(fs', j, p) == if j == i then 0 else At(fs, j, p)
    {
      AtAfter(fs, fs', i, j, p);
    }
    StillForest(fs, fs', i);
  }

  lemma AtAfter(fs: Fs, fs': Fs, i: nat, j: nat, p: Pos)
    requires Shape(fs) && Shape(fs') && i < |fs.inodes| && j < |fs.inodes| && ValidPos(p) && fs'.store == fs.store
    requires fs'.inodes == fs.inodes[i := fs.inodes[i].(zone := NO_ZONES, size := 0)]
    ensures At(fs', j, p) == if j == i then 0 else At(fs, j, p)
  {}

  lemma ClearedBits(fs: Fs, i: nat)
    requires Forest(fs) && i < |fs.inodes| && !fs.inodes[i].kind.OTHER?
    ensures var fs' := TruncateInode(fs, i);
            && fs'.bits[0]
            && forall z | fs.first <= z < fs.nzones :: Marked(fs', z) <==> Marked(fs, z) && !Reached(fs, i, z)
  {
    hide FreedList; hide FreeAll; hide At; hide Disjoint; hide Reached;
    var zs := FreedList(fs, i);
    AllFreedMarked(fs, i);
    BitZeroKept(fs, zs);
    forall z | fs.first <= z < fs.nzones
      ensures Marked(TruncateInode(fs, i), z) <==> Marked(fs, z) && !Reached(fs, i, z)
    {
      FreeAllBits(fs, zs, z);
      FreedIsReached(fs, i, z);
    }
  }

  lemma StillForest(fs: Fs, fs': Fs, i: nat)
    requires Forest(fs) && Shape(fs') && i < |fs.inodes| == |fs'.inodes| && fs'.first == fs.first
      && fs'.nzones == fs.nzones
    requires fs'.bits[0] && forall z | fs.first <= z < fs.nzones ::
      Marked(fs', z) <==> Marked(fs, z) && !Reached(fs, i, z)
    requires forall j, p | 0 <= j < |fs.inodes| && ValidPos(p) :: At(fs', j, p) == if j == i then 0 else At(fs, j, p)
    ensures Forest(fs')
  {
    hide At;
    forall j, p | 0 <= j < |fs'.inodes| && ValidPos(p) && At(fs', j, p) != 0 ensures Marked(fs', At(fs', j, p)) {
      assert Marked(fs, At(fs, j, p));
      assert !Reached(fs, i, At(fs, j, p));
    }
  }

  lemma {:induction false} BitZeroKept(fs: Fs, zs: seq<nat>)
    requires Shape(fs)
    ensures FreeAll(fs, zs).bits[0] == fs.bits[0]
    decreases |zs|
  {
    if zs != [] { BitZeroKept(FreeBlock(fs, zs[0]), zs[1..]); }
  }
}
