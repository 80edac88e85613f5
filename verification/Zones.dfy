/** Zones of a device and the block trees of its inodes (fs/bitmap.c, fs/inode.c). */
module Zones {
  const BLOCK: nat := 1024
  const WORDS: nat := 512            // zone numbers in an indirect block
  const BITS: nat := 8192            // bits in a zone map block
  const MAX_BLOCKS: nat := 262663    // 7 + 512 + 512 * 512

  type Byte = x: int | 0 <= x < 256
  type Block = seq<Byte>

  datatype Kind = REG | DIR | OTHER
  datatype Inode = Inode(kind: Kind, size: nat, zone: seq<nat>)

  /** bits are the loaded zone map blocks one after the other: bit b stands for zone first - 1 + b.
      store holds the contents of every zone as the buffer cache shows them. */
  datatype Fs = Fs(first: nat, nzones: nat, bits: seq<bool>, store: seq<Block>, inodes: seq<Inode>)

  ghost predicate Shape(fs: Fs)
  {
    && 1 <= fs.first && fs.nzones <= 0x1_0000
    && BITS <= |fs.bits| <= 8 * BITS && |fs.bits| % BITS == 0
    && fs.nzones < fs.first + |fs.bits|
    && |fs.store| == 0x1_0000
    && (forall z | 0 <= z < 0x1_0000 :: |fs.store[z]| == BLOCK)
    && (forall i | 0 <= i < |fs.inodes| :: |fs.inodes[i].zone| == 9)
    && (forall i, k | 0 <= i < |fs.inodes| && 0 <= k < 9 :: fs.inodes[i].zone[k] < 0x1_0000)
  }

  // ----- little-endian words in a block -----

  function GetWord(b: Block, j: nat): (w: nat)
    requires |b| == BLOCK && j < WORDS
    ensures w < 0x1_0000
  {
    b[2 * j] as int + 256 * b[2 * j + 1] as int
  }

  function PutWord(b: Block, j: nat, w: nat): (r: Block)
    requires |b| == BLOCK && j < WORDS && w < 0x1_0000
    ensures |r| == BLOCK
  {
    b[2 * j := w % 256][2 * j + 1 := w / 256]
  }

  lemma PutGet(b: Block, j: nat, w: nat, k: nat)
    requires |b| == BLOCK && j < WORDS && k < WORDS && w < 0x1_0000
    ensures GetWord(PutWord(b, j, w), k) == if k == j then w else GetWord(b, k)
  {}

  function ZeroBlock(): (b: Block)
    ensures |b| == BLOCK && (forall k | 0 <= k < BLOCK :: b[k] == 0)
  {
    seq(BLOCK, k => 0)
  }

  // ----- positions in a block tree -----

  /** The places of an inode's tree that hold a zone number. */
  datatype Pos =
    | Direct(k: nat)
    | Ind
    | IndEntry(j: nat)
    | Dind
    | DindTable(j: nat)
    | DindEntry(j: nat, k: nat)

  predicate ValidPos(p: Pos)
  {
    match p
    case Direct(k) => k < 7
    case Ind => true
    case IndEntry(j) => j < WORDS
    case Dind => true
    case DindTable(j) => j < WORDS
    case DindEntry(j, k) => j < WORDS && k < WORDS
  }

  /** The zone number at a position; 0 when nothing is mapped there. */
  function At(fs: Fs, i: nat, p: Pos): (z: nat)
    requires Shape(fs) && i < |fs.inodes| && ValidPos(p)
    ensures z < 0x1_0000
  {
    var zone := fs.inodes[i].zone;
    match p
    case Direct(k) => zone[k]
    case Ind => zone[7]
    case IndEntry(j) => if zone[7] == 0 then 0 else GetWord(fs.store[zone[7]], j)
    case Dind => zone[8]
    case DindTable(j) => if zone[8] == 0 then 0 else GetWord(fs.store[zone[8]], j)
    case DindEntry(j, k) =>
      var t := if zone[8] == 0 then 0 else GetWord(fs.store[zone[8]], j);
      if t == 0 then 0 else GetWord(fs.store[t], k)
  }

  /** Where bmap looks for block b of a file. */
  function PosOf(b: nat): (p: Pos)
    requires b < MAX_BLOCKS
    ensures ValidPos(p) && DataPos(p)
  {
    if b < 7 then Direct(b)
    else if b < 519 then IndEntry(b - 7)
    else DindEntry((b - 519) / WORDS, (b - 519) % WORDS)
  }

  predicate DataPos(p: Pos) { p.Direct? || p.IndEntry? || p.DindEntry? }

  lemma PosOfInjective(b: nat, c: nat)
    requires b < MAX_BLOCKS && c < MAX_BLOCKS && PosOf(b) == PosOf(c)
    ensures b == c
  {}

  // ----- allocation -----

  /** find_first_zero over the zone map blocks in turn: the first clear bit from k on. */
  function FirstClear(bits: seq<bool>, k: nat): (b: nat)
    requires k <= |bits|
    ensures k <= b <= |bits| && (b < |bits| ==> !bits[b])
    ensures forall j | k <= j < b :: bits[j]
    decreases |bits| - k
  {
    if k == |bits| || !bits[k] then k else FirstClear(bits, k + 1)
  }

  /** new_block: the first free zone, cleared; 0 when there is none.  A bit beyond the last zone is
      set all the same. */
  function NewBlock(fs: Fs): (r: (Fs, nat))
    requires Shape(fs)
  {
    var b := FirstClear(fs.bits, 0);
    if b == |fs.bits| then (fs, 0)
    else
      var fs1 := fs.(bits := fs.bits[b := true]);
      var z := b + fs.first - 1;
      if z >= fs.nzones then (fs1, 0)
      else (fs1.(store := fs.store[z := ZeroBlock()]), z)
  }

  /** free_block; a zone outside the data zones, or a clear bit, is a panic there. */
  function FreeBlock(fs: Fs, z: nat): (r: Fs)
    requires Shape(fs)
    ensures Shape(r)
  {
    if fs.first <= z < fs.nzones then fs.(bits := fs.bits[z - fs.first + 1 := false]) else fs
  }

  /** Store zone number z at position p, whose parent table exists. */
  function SetAt(fs: Fs, i: nat, p: Pos, z: nat): Fs
    requires Shape(fs) && i < |fs.inodes| && ValidPos(p) && z < 0x1_0000
  {
    match p
    case Direct(k) => SetZone(fs, i, k, z)
    case Ind => SetZone(fs, i, 7, z)
    case Dind => SetZone(fs, i, 8, z)
    case IndEntry(j) => SetEntry(fs, At(fs, i, Ind), j, z)
    case DindTable(j) => SetEntry(fs, At(fs, i, Dind), j, z)
    case DindEntry(j, k) => SetEntry(fs, At(fs, i, DindTable(j)), k, z)
  }

  function SetZone(fs: Fs, i: nat, k: nat, z: nat): Fs
    requires i < |fs.inodes| && k < |fs.inodes[i].zone|
  {
    fs.(inodes := fs.inodes[i := fs.inodes[i].(zone := fs.inodes[i].zone[k := z])])
  }

  function SetEntry(fs: Fs, t: nat, j: nat, z: nat): Fs
    requires t < |fs.store| && |fs.store[t]| == BLOCK && j < WORDS && z < 0x1_0000
  {
    fs.(store := fs.store[t := PutWord(fs.store[t], j, z)])
  }

  /** One level of _bmap with create: the zone at p, allocated if there is none. */
  function Ensure(fs: Fs, i: nat, p: Pos): (r: (Fs, nat))
    requires Shape(fs) && i < |fs.inodes| && ValidPos(p)
    ensures Shape(r.0) && |r.0.inodes| == |fs.inodes| && r.1 < 0x1_0000
  {
    if At(fs, i, p) != 0 then (fs, At(fs, i, p))
    else
      var (fs1, z) := NewBlock(fs);
      if z == 0 then (fs1, 0) else (SetAt(fs1, i, p, z), z)
  }

  /** bmap. */
  function Bmap(fs: Fs, i: nat, b: nat): (z: nat)
    requires Shape(fs) && i < |fs.inodes| && b < MAX_BLOCKS
    ensures z < 0x1_0000
  {
    At(fs, i, PosOf(b))
  }

  /** create_block: the tables on the way are allocated first, and stay when a later level fails. */
  function CreateBlock(fs: Fs, i: nat, b: nat): (r: (Fs, nat))
    requires Shape(fs) && i < |fs.inodes| && b < MAX_BLOCKS
    ensures Shape(r.0) && |r.0.inodes| == |fs.inodes| && r.1 < 0x1_0000
  {
    if b < 7 then Ensure(fs, i, Direct(b))
    else if b < 519 then
      var (fs1, t) := Ensure(fs, i, Ind);
      if t == 0 then (fs1, 0) else Ensure(fs1, i, IndEntry(b - 7))
    else
      var (fs1, t) := Ensure(fs, i, Dind);
      if t == 0 then (fs1, 0)
      else
        var (fs2, u) := Ensure(fs1, i, DindTable((b - 519) / WORDS));
        if u == 0 then (fs2, 0) else Ensure(fs2, i, DindEntry((b - 519) / WORDS, (b - 519) % WORDS))
  }

  // ----- the forest invariant -----

  ghost predicate Marked(fs: Fs, z: nat)
    requires Shape(fs)
  {
    fs.first <= z < fs.nzones && fs.bits[z - fs.first + 1]
  }

  /** Every zone in a tree is a data zone whose bit is set; bit 0 stands for no zone. */
  ghost predicate AllMarked(fs: Fs)
    requires Shape(fs)
  {
    && fs.bits[0]
    && forall i, p | 0 <= i < |fs.inodes| && ValidPos(p) && At(fs, i, p) != 0 :: Marked(fs, At(fs, i, p))
  }

  /** No zone is at two positions, of one inode or of two. */
  ghost predicate Disjoint(fs: Fs)
    requires Shape(fs)
  {
    forall i, p, i', p' {:trigger At(fs, i, p), At(fs, i', p')} |
      0 <= i < |fs.inodes| && 0 <= i' < |fs.inodes| && ValidPos(p) && ValidPos(p') &&
      At(fs, i, p) != 0 && At(fs, i, p) == At(fs, i', p') :: i == i' && p == p'
  }

  ghost predicate Forest(fs: Fs)
  {
    Shape(fs) && AllMarked(fs) && Disjoint(fs)
  }

  /** The table that holds position p; p itself for the nine zone numbers in the inode. */
  function Parent(p: Pos): Pos
  {
    match p
    case IndEntry(_) => Ind
    case DindTable(_) => Dind
    case DindEntry(j, _) => DindTable(j)
    case _ => p
  }

  /** A zone handed out by new_block was in no tree; allocating it changes no tree. */
  lemma NewBlockStep(fs: Fs)
    requires Forest(fs)
    ensures var (fs', z) := NewBlock(fs);
            && Forest(fs') && fs'.inodes == fs.inodes && fs'.first == fs.first && fs'.nzones == fs.nzones
            && (forall i, p | 0 <= i < |fs.inodes| && ValidPos(p) :: At(fs', i, p) == At(fs, i, p))
            && (forall i, p | 0 <= i < |fs.inodes| && ValidPos(p) && At(fs, i, p) != 0 ::
              fs'.store[At(fs, i, p)] == fs.store[At(fs, i, p)])
            && (forall y | fs.first <= y < fs.nzones && Marked(fs, y) :: Marked(fs', y))
            && (z != 0 ==> Marked(fs', z) && !Marked(fs, z) && fs'.store[z] == ZeroBlock()
                           && forall i, p | 0 <= i < |fs.inodes| && ValidPos(p) :: At(fs, i, p) != z)
            && (z == 0 ==> forall y | fs.first <= y < fs.nzones :: Marked(fs, y))
  {
    var (fs', z) := NewBlock(fs);
    var b := FirstClear(fs.bits, 0);
    if b < |fs.bits| {
      assert Shape(fs');
      assert z != 0 ==> b != 0 && z == b + fs.first - 1 && !Marked(fs, z);
      hide At; hide Disjoint;
      NewZoneApart(fs, fs', z);
      SameDisjoint(fs, fs');
      forall i, p | 0 <= i < |fs.inodes| && ValidPos(p) && At(fs', i, p) != 0 ensures Marked(fs', At(fs', i, p)) {
        assert Marked(fs, At(fs, i, p));
      }
    }
  }

  /** Clearing a zone that is in no tree changes no tree. */
  lemma NewZoneApart(fs: Fs, fs': Fs, z: nat)
    requires Shape(fs) && AllMarked(fs) && z < 0x1_0000 && (z != 0 ==> !Marked(fs, z))
    requires Shape(fs') && fs'.inodes == fs.inodes && fs'.store == if z == 0 then fs.store
      else fs.store[z := ZeroBlock()]
    ensures forall i, p | 0 <= i < |fs.inodes| && ValidPos(p) ::
      (z != 0 ==> At(fs, i, p) != z) && At(fs', i, p) == At(fs, i, p)
  {
    forall i, p | 0 <= i < |fs.inodes| && ValidPos(p)
        ensures (z != 0 ==> At(fs, i, p) != z) && At(fs', i, p) == At(fs, i, p) {
      if z != 0 {
        NotAt(fs, i, p, z);
        NotAt(fs, i, Ind, z); NotAt(fs, i, Dind, z);
        if p.DindEntry? { NotAt(fs, i, DindTable(p.j), z); }
      }
      hide GetWord; hide AllMarked; hide ZeroBlock;
    }
  }

  lemma SameDisjoint(fs: Fs, fs': Fs)
    requires Shape(fs) && Shape(fs') && Disjoint(fs) && |fs'.inodes| == |fs.inodes|
    requires forall i, p | 0 <= i < |fs.inodes| && ValidPos(p) :: At(fs', i, p) == At(fs, i, p)
    ensures Disjoint(fs')
  {
    hide At;
  }

  lemma NotAt(fs: Fs, i: nat, p: Pos, z: nat)
    requires Shape(fs) && AllMarked(fs) && i < |fs.inodes| && ValidPos(p) && z != 0 && !Marked(fs, z)
    ensures At(fs, i, p) != z
  {}

  lemma SetAtShape(fs: Fs, i: nat, p: Pos, z: nat)
    requires Shape(fs) && i < |fs.inodes| && ValidPos(p) && z < 0x1_0000
    ensures Shape(SetAt(fs, i, p, z)) && |SetAt(fs, i, p, z).inodes| == |fs.inodes|
  {
  }

  predicate HasParent(fs: Fs, i: nat, p: Pos)
    requires Shape(fs) && i < |fs.inodes| && ValidPos(p)
  {
    Parent(p) == p || At(fs, i, Parent(p)) != 0
  }

  /** Writing z at p changes the tree at p alone: everything below p reads as unmapped in the cleared zone. */
  lemma SetAtOthers(fs: Fs, i: nat, p: Pos, z: nat, i': nat, p': Pos)
    requires Shape(fs) && Disjoint(fs) && i < |fs.inodes| && ValidPos(p) && i' < |fs.inodes| && ValidPos(p')
    requires At(fs, i, p) == 0 && HasParent(fs, i, p) && 0 < z < 0x1_0000 && fs.store[z] == ZeroBlock()
    requires forall q | ValidPos(q) :: At(fs, i, q) != z
    ensures Shape(SetAt(fs, i, p, z))
    ensures At(SetAt(fs, i, p, z), i', p') == if i' == i && p' == p then z else At(fs, i', p')
  {
    SetAtShape(fs, i, p, z);
    ZeroWords(z);
    hide GetWord; hide PutWord; hide Disjoint; hide Shape; hide ZeroBlock;
    if Parent(p) == p {
      SetZoneOthers(fs, i, p, z, i', p');
    } else {
      SetEntryOthers(fs, i, p, z, i', p');
    }
  }

  lemma SetZoneOthers(fs: Fs, i: nat, p: Pos, z: nat, i': nat, p': Pos)
    requires Shape(fs) && i < |fs.inodes| && ValidPos(p) && i' < |fs.inodes| && ValidPos(p') && z < 0x1_0000
      && Shape(SetAt(fs, i, p, z))
    requires At(fs, i, p) == 0 && Parent(p) == p && 0 < z && forall k | 0 <= k < WORDS :: GetWord(fs.store[z], k) == 0
    ensures At(SetAt(fs, i, p, z), i', p') == if i' == i && p' == p then z else At(fs, i', p')
  {
    hide GetWord; hide PutWord;
  }

  lemma SetEntryOthers(fs: Fs, i: nat, p: Pos, z: nat, i': nat, p': Pos)
    requires Shape(fs) && Disjoint(fs) && i < |fs.inodes| && ValidPos(p) && i' < |fs.inodes| && ValidPos(p')
      && z < 0x1_0000 && Shape(SetAt(fs, i, p, z))
    requires At(fs, i, p) == 0 && Parent(p) != p && At(fs, i, Parent(p)) != 0 && 0 < z
    requires forall k | 0 <= k < WORDS :: GetWord(fs.store[z], k) == 0
    requires At(fs, i, Parent(p)) != z
    ensures At(SetAt(fs, i, p, z), i', p') == if i' == i && p' == p then z else At(fs, i', p')
  {
    hide GetWord; hide PutWord; hide Disjoint;
    var fs', t := SetAt(fs, i, p, z), At(fs, i, Parent(p));
    assert fs' == SetEntry(fs, t, Index(p), z);
    SameTable(fs, i, p, i', Ind);
    SameTable(fs, i, p, i', Dind);
    if p'.DindEntry? { SameTable(fs, i, p, i', DindTable(p'.j)); }
    forall k | 0 <= k < WORDS ensures GetWord(fs'.store[t], k) == if k == Index(p) then z else GetWord(fs.store[t], k) {
      PutGet(fs.store[t], Index(p), z, k);
    }
  }

  function Index(p: Pos): nat
  {
    match p
    case IndEntry(j) => j
    case DindTable(j) => j
    case DindEntry(_, k) => k
    case Direct(k) => k
    case _ => 0
  }

  lemma SameTable(fs: Fs, i: nat, p: Pos, i': nat, q: Pos)
    requires Shape(fs) && Disjoint(fs) && i < |fs.inodes| && ValidPos(p) && i' < |fs.inodes| && ValidPos(q)
    ensures At(fs, i, Parent(p)) != 0 && At(fs, i, Parent(p)) == At(fs, i', q) ==> i' == i && q == Parent(p)
  {}

  lemma ZeroWords(z: nat)
    ensures forall k | 0 <= k < WORDS :: GetWord(ZeroBlock(), k) == 0
  {}

  /** What an allocating step keeps: every tree except possibly at (i, p), and every data block. */
  ghost predicate Grown(fs: Fs, fs': Fs, i: nat, p: Pos)
    requires Shape(fs) && Shape(fs')
  {
    && fs'.first == fs.first && fs'.nzones == fs.nzones && |fs'.inodes| == |fs.inodes|
    && (forall y | fs.first <= y < fs.nzones && Marked(fs, y) :: Marked(fs', y))
    && (forall i' | 0 <= i' < |fs.inodes| ::
      fs'.inodes[i'].kind == fs.inodes[i'].kind && fs'.inodes[i'].size == fs.inodes[i'].size)
    && (forall i', q | 0 <= i' < |fs.inodes| && ValidPos(q) && !(i' == i && q == p) :: At(fs', i', q) == At(fs, i', q))
    && (forall i', q | 0 <= i' < |fs.inodes| && ValidPos(q) && DataPos(q) && At(fs, i', q) != 0 ::
          At(fs', i', q) == At(fs, i', q) && fs'.store[At(fs, i', q)] == fs.store[At(fs, i', q)])
  }

  /** One level of create: the position is unmapped for lack of zones, or holds its old zone, or holds a
      cleared zone that was in no tree. */
  lemma EnsureStep(fs: Fs, i: nat, p: Pos)
    requires Forest(fs) && i < |fs.inodes| && ValidPos(p) && HasParent(fs, i, p)
    ensures var (fs', z) := Ensure(fs, i, p);
            && Forest(fs') && Grown(fs, fs', i, p) && At(fs', i, p) == z
            && (At(fs, i, p) != 0 ==> fs' == fs && z == At(fs, i, p))
            && (At(fs, i, p) == 0 && z != 0 ==>
                  fs'.store[z] == ZeroBlock() && !Marked(fs, z) && forall i', q | 0 <= i' < |fs.inodes|
                      && ValidPos(q) :: At(fs, i', q) != z)
            && (z == 0 ==> forall y | fs.first <= y < fs.nzones :: Marked(fs, y))
  {
    if At(fs, i, p) == 0 {
      NewBlockStep(fs);
      var (fs1, z) := NewBlock(fs);
      if z != 0 { AttachStep(fs1, i, p, z); }
    }
  }

  lemma AttachStep(fs: Fs, i: nat, p: Pos, z: nat)
    requires Forest(fs) && i < |fs.inodes| && ValidPos(p) && HasParent(fs, i, p) && At(fs, i, p) == 0
    requires 0 < z < 0x1_0000 && Marked(fs, z) && fs.store[z] == ZeroBlock()
    requires forall i', q | 0 <= i' < |fs.inodes| && ValidPos(q) :: At(fs, i', q) != z
    ensures var fs' := SetAt(fs, i, p, z);
            Shape(fs') && Forest(fs') && Grown(fs, fs', i, p) && At(fs', i, p) == z && fs'.store[z] == ZeroBlock()
  {
    SetAtShape(fs, i, p, z);
    var fs' := SetAt(fs, i, p, z);
    forall i', q | 0 <= i' < |fs.inodes| && ValidPos(q)
      ensures At(fs', i', q) == if i' == i && q == p then z else At(fs, i', q)
    {
      SetAtOthers(fs, i, p, z, i', q);
    }
    hide At; hide SetAt;
    AttachForest(fs, fs', i, p, z);
    AttachStores(fs, i, p, z);
  }

  lemma AttachForest(fs: Fs, fs': Fs, i: nat, p: Pos, z: nat)
    requires Forest(fs) && Shape(fs') && i < |fs.inodes| == |fs'.inodes| && ValidPos(p)
    requires fs'.first == fs.first && fs'.nzones == fs.nzones && fs'.bits == fs.bits
    requires z != 0 && Marked(fs, z)
    requires forall i', q | 0 <= i' < |fs.inodes| && ValidPos(q) :: At(fs, i', q) != z
    requires forall i', q | 0 <= i' < |fs.inodes| && ValidPos(q) ::
      At(fs', i', q) == if i' == i && q == p then z else At(fs, i', q)
    ensures Forest(fs')
  {
    hide At;
    forall a, q | 0 <= a < |fs'.inodes| && ValidPos(q) && At(fs', a, q) != 0 ensures Marked(fs', At(fs', a, q)) {
      if !(a == i && q == p) { assert Marked(fs, At(fs, a, q)); }
    }
    forall a, q, b, r | 0 <= a < |fs'.inodes| && 0 <= b < |fs'.inodes| && ValidPos(q) && ValidPos(r) &&
      At(fs', a, q) != 0 && At(fs', a, q) == At(fs', b, r) ensures a == b && q == r
    {
      assert At(fs, a, q) != z && At(fs, b, r) != z;
    }
  }

  lemma AttachStores(fs: Fs, i: nat, p: Pos, z: nat)
    requires Forest(fs) && i < |fs.inodes| && ValidPos(p) && HasParent(fs, i, p) && At(fs, i, p) == 0
    requires 0 < z < 0x1_0000 && fs.store[z] == ZeroBlock()
    requires forall i', q | 0 <= i' < |fs.inodes| && ValidPos(q) :: At(fs, i', q) != z
    ensures var fs' := SetAt(fs, i, p, z);
            && fs'.store[z] == ZeroBlock() && fs'.first == fs.first && fs'.nzones == fs.nzones && fs'.bits == fs.bits
            && (forall k | 0 <= k < |fs.inodes| ::
              fs'.inodes[k].kind == fs.inodes[k].kind && fs'.inodes[k].size == fs.inodes[k].size)
            && (forall i', q | 0 <= i' < |fs.inodes| && ValidPos(q) && DataPos(q) && At(fs, i', q) != 0 ::
              fs'.store[At(fs, i', q)] == fs.store[At(fs, i', q)])
  {
    var fs' := SetAt(fs, i, p, z);
    if Parent(p) != p {
      var t := At(fs, i, Parent(p));
      assert t != z;
      forall i', q | 0 <= i' < |fs.inodes| && ValidPos(q) && DataPos(q) && At(fs, i', q) != 0
          ensures fs'.store[At(fs, i', q)] == fs.store[At(fs, i', q)] {
        SameTable(fs, i, p, i', q);
      }
    }
  }

  /** What create_block promises for the block at data position p: z is 0, for want of a free zone, or
      the zone found at p afterwards; that is the old zone, or a cleared one that was in no tree.  No
      other block of any file is mapped differently or has other contents. */
  ghost predicate Created(fs: Fs, i: nat, p: Pos, fs': Fs, z: nat)
    requires Shape(fs) && i < |fs.inodes| && ValidPos(p)
  {
    && Forest(fs') && |fs'.inodes| == |fs.inodes| && fs'.first == fs.first && fs'.nzones == fs.nzones
    && (forall k | 0 <= k < |fs.inodes| ::
      fs'.inodes[k].kind == fs.inodes[k].kind && fs'.inodes[k].size == fs.inodes[k].size)
    && At(fs', i, p) == z
    && (At(fs, i, p) != 0 ==> fs' == fs && z == At(fs, i, p))
    && (At(fs, i, p) == 0 && z != 0 ==>
          fs'.store[z] == ZeroBlock() && !Marked(fs, z) && forall i', q | 0 <= i' < |fs.inodes| && ValidPos(q) ::
              At(fs, i', q) != z)
    && (forall i', q | 0 <= i' < |fs.inodes| && ValidPos(q) && DataPos(q) && !(i' == i && q == p) ::
      At(fs', i', q) == At(fs, i', q))
    && (forall i', q | 0 <= i' < |fs.inodes| && ValidPos(q) && DataPos(q) && At(fs, i', q) != 0 ::
      fs'.store[At(fs, i', q)] == fs.store[At(fs, i', q)])
    && (forall y | fs.first <= y < fs.nzones && (z == 0 || Marked(fs, y)) :: Marked(fs', y))
  }

  lemma CreateBlockSpec(fs: Fs, i: nat, b: nat)
    requires Forest(fs) && i < |fs.inodes| && b < MAX_BLOCKS
    ensures var (fs', z) := CreateBlock(fs, i, b); Created(fs, i, PosOf(b), fs', z)
  {
    if b < 7 {
      LastLevel(fs, i, Direct(b));
    } else if b < 519 {
      var (fs1, t) := Ensure(fs, i, Ind);
      TableLevel(fs, i, Ind, IndEntry(b - 7));
      if t != 0 {
        LastLevel(fs1, i, IndEntry(b - 7));
        var (fs2, z) := Ensure(fs1, i, IndEntry(b - 7));
        ThroughTable(fs, i, Ind, IndEntry(b - 7), fs2, z);
      }
    } else {
      var j, k := (b - 519) / WORDS, (b - 519) % WORDS;
      var (fs1, t) := Ensure(fs, i, Dind);
      TableLevel(fs, i, Dind, DindEntry(j, k));
      if t != 0 {
        CreateDeep(fs1, i, j, k);
        var (fs2, u) := Ensure(fs1, i, DindTable(j));
        var (fs3, z) := if u == 0 then (fs2, 0) else Ensure(fs2, i, DindEntry(j, k));
        ThroughTable(fs, i, Dind, DindEntry(j, k), fs3, z);
      }
    }
  }

  lemma CreateDeep(fs: Fs, i: nat, j: nat, k: nat)
    requires Forest(fs) && i < |fs.inodes| && j < WORDS && k < WORDS && At(fs, i, Dind) != 0
    ensures var (fs1, u) := Ensure(fs, i, DindTable(j));
            var (fs2, z) := if u == 0 then (fs1, 0) else Ensure(fs1, i, DindEntry(j, k));
            Created(fs, i, DindEntry(j, k), fs2, z)
  {
    var (fs1, u) := Ensure(fs, i, DindTable(j));
    TableLevel(fs, i, DindTable(j), DindEntry(j, k));
    if u != 0 {
      LastLevel(fs1, i, DindEntry(j, k));
      var (fs2, z) := Ensure(fs1, i, DindEntry(j, k));
      ThroughTable(fs, i, DindTable(j), DindEntry(j, k), fs2, z);
    }
  }

  lemma LastLevel(fs: Fs, i: nat, p: Pos)
    requires Forest(fs) && i < |fs.inodes| && ValidPos(p) && DataPos(p) && HasParent(fs, i, p)
    ensures var (fs', z) := Ensure(fs, i, p); Created(fs, i, p, fs', z)
  {
    hide At; hide Ensure;
    EnsureStep(fs, i, p);
  }

  /** A table on the way to p: without it nothing is mapped at p. */
  lemma TableLevel(fs: Fs, i: nat, t: Pos, p: Pos)
    requires Forest(fs) && i < |fs.inodes| && ValidPos(p) && DataPos(p) && ValidPos(t) && HasParent(fs, i, t)
    requires t == Parent(p) || t == Parent(Parent(p))
    requires t != p && !DataPos(t)
    ensures var (fs', z) := Ensure(fs, i, t);
            && Forest(fs') && Grown(fs, fs', i, t) && At(fs', i, t) == z
            && (At(fs, i, p) != 0 ==> fs' == fs && z != 0)
            && (z == 0 ==> Created(fs, i, p, fs', 0))
  {
    EnsureStep(fs, i, t);
    if At(fs, i, p) != 0 { MappedHasTables(fs, i, p); }
    hide At; hide Ensure;
    var (fs', z) := Ensure(fs, i, t);
    if z == 0 { assert At(fs', i, p) == At(fs, i, p); }
  }

  lemma ThroughTable(fs: Fs, i: nat, t: Pos, p: Pos, fs2: Fs, z: nat)
    requires Forest(fs) && i < |fs.inodes| && ValidPos(p) && DataPos(p) && ValidPos(t) && !DataPos(t)
    requires var fs1 := Ensure(fs, i, t).0;
             Forest(fs1) && Grown(fs, fs1, i, t) && (At(fs, i, p) != 0 ==> fs1 == fs) && Created(fs1, i, p, fs2, z)
    ensures Created(fs, i, p, fs2, z)
  {
    hide At; hide Ensure;
  }

  lemma MappedHasTables(fs: Fs, i: nat, p: Pos)
    requires Shape(fs) && i < |fs.inodes| && ValidPos(p) && At(fs, i, p) != 0
    ensures At(fs, i, Parent(p)) != 0 && At(fs, i, Parent(Parent(p))) != 0
  {}
}
