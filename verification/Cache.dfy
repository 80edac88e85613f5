/** What the buffer cache holds (fs/buffer.c), without its links: which buffer carries which block, in
    which order the free ring offers them, and what is on the disk. */
module Cache {
  import opened Zones

  datatype Buffer = Buffer(dev: nat, blk: nat, uptodate: bool, dirt: bool, count: nat, data: Block)

  type Disk = map<(nat, nat), Block>

  datatype Pool = Pool(buf: seq<Buffer>, ring: seq<nat>, disk: Disk)

  /** A block nobody wrote yet holds zeros. */
  function OnDisk(disk: Disk, dev: nat, blk: nat): Block
  {
    if (dev, blk) in disk then disk[(dev, blk)] else ZeroBlock()
  }

  /** The buffer that carries (dev, blk), from index k on; |buf| when none does. */
  function Find(buf: seq<Buffer>, dev: nat, blk: nat, k: nat): (i: nat)
    requires k <= |buf|
    ensures k <= i <= |buf|
    ensures i < |buf| ==> buf[i].dev == dev && buf[i].blk == blk
    ensures forall j | k <= j < i :: !(buf[j].dev == dev && buf[j].blk == blk)
    decreases |buf| - k
  {
    if k == |buf| || (buf[k].dev == dev && buf[k].blk == blk) then k else Find(buf, dev, blk, k + 1)
  }

  /** The position in the ring of the first buffer nobody uses; |ring| when all are in use. */
  function FirstIdle(buf: seq<Buffer>, ring: seq<nat>, k: nat): (r: nat)
    requires k <= |ring| && forall j | 0 <= j < |ring| :: ring[j] < |buf|
    ensures k <= r <= |ring| && (r < |ring| ==> buf[ring[r]].count == 0)
    ensures forall j | k <= j < r :: buf[ring[j]].count > 0
    decreases |ring| - k
  {
    if k == |ring| || buf[ring[k]].count == 0 then k else FirstIdle(buf, ring, k + 1)
  }

  // ----- the operations -----

  /** sync_dev from buffer k on: every dirty buffer of the device is written. */
  function SyncFrom(p: Pool, dev: nat, k: nat): (r: Pool)
    requires k <= |p.buf|
    ensures |r.buf| == |p.buf| && r.ring == p.ring
    decreases |p.buf| - k
  {
    if k == |p.buf| then p
    else if p.buf[k].dev == dev && p.buf[k].dirt then
      SyncFrom(p.(buf := p.buf[k := p.buf[k].(dirt := false)],
                  disk := p.disk[(dev, p.buf[k].blk) := p.buf[k].data]), dev, k + 1)
    else SyncFrom(p, dev, k + 1)
  }

  /** The buffer at position r of the ring takes over (dev, blk) and goes to the end of the ring. */
  function Reuse(p: Pool, r: nat, dev: nat, blk: nat): Pool
    requires r < |p.ring| && p.ring[r] < |p.buf|
  {
    var i := p.ring[r];
    Pool(p.buf[i := p.buf[i].(dev := dev, blk := blk, uptodate := false, dirt := false)],
         p.ring[..r] + p.ring[r + 1..] + [i], p.disk)
  }

  /** getblk without other callers: the buffer for (dev, blk), or |buf| when the caller would sleep. */
  function Getblk(p: Pool, dev: nat, blk: nat): (r: (Pool, nat))
    requires PoolInv(p)
    ensures |r.0.buf| == |p.buf| && r.1 <= |p.buf|
  {
    var i := Find(p.buf, dev, blk, 0);
    if i < |p.buf| then (p.(buf := p.buf[i := p.buf[i].(count := p.buf[i].count + 1)]), i)
    else
      var k := FirstIdle(p.buf, p.ring, 0);
      if k == |p.ring| then (p, |p.buf|)
      else
        var i := p.ring[k];
        var p0 := p.(buf := p.buf[i := p.buf[i].(count := 1)]);
        var p1 := if p.buf[i].dirt then SyncFrom(p0, p.buf[i].dev, 0) else p0;
        (Reuse(p1, k, dev, blk), i)
  }

  /** bread: getblk, and the block read in unless the buffer is up to date. */
  function Bread(p: Pool, dev: nat, blk: nat): (r: (Pool, nat))
    requires PoolInv(p)
    ensures |r.0.buf| == |p.buf| && r.1 <= |p.buf|
  {
    var (p1, i) := Getblk(p, dev, blk);
    if i == |p.buf| || p1.buf[i].uptodate then (p1, i)
    else (p1.(buf := p1.buf[i := p1.buf[i].(uptodate := true, dirt := false, data := OnDisk(p1.disk, dev, blk))]), i)
  }

  /** brelse; a buffer nobody uses is a panic there. */
  function Brelse(p: Pool, i: nat): Pool
  {
    if i < |p.buf| && p.buf[i].count > 0
    then p.(buf := p.buf[i := p.buf[i].(count := p.buf[i].count - 1)]) else p
  }

  /** A user of the buffer stores new contents and marks it dirty. */
  function Modify(p: Pool, i: nat, data: Block): Pool
    requires i < |p.buf|
  {
    p.(buf := p.buf[i := p.buf[i].(data := data, uptodate := true, dirt := true)])
  }

  // ----- the invariant -----

  /** The ring holds every buffer exactly once. */
  ghost predicate Permutes(ring: seq<nat>, n: nat)
  {
    && |ring| == n
    && (forall i | 0 <= i < n :: i in ring)
    && (forall k | 0 <= k < n :: ring[k] < n)
    && (forall k, l | 0 <= k < l < n :: ring[k] != ring[l])
  }

  /** No two buffers carry the same block. */
  ghost predicate Distinct(buf: seq<Buffer>)
  {
    forall i, j | 0 <= i < |buf| && 0 <= j < |buf| && buf[i].dev != 0 && buf[i].dev == buf[j].dev
        && buf[i].blk == buf[j].blk :: i == j
  }

  /** A clean buffer that is up to date holds what is on the disk; a dirty one carries a block. */
  ghost predicate Coherent(b: Buffer, disk: Disk)
  {
    && (b.dirt ==> b.uptodate && b.dev != 0)
    && (b.dev != 0 && b.uptodate && !b.dirt ==> b.data == OnDisk(disk, b.dev, b.blk))
    && |b.data| == BLOCK
  }

  ghost predicate PoolInv(p: Pool)
  {
    && Permutes(p.ring, |p.buf|)
    && Distinct(p.buf)
    && (forall i | 0 <= i < |p.buf| :: Coherent(p.buf[i], p.disk))
    && (forall a | a in p.disk :: |p.disk[a]| == BLOCK)
  }

  /** The contents of block (dev, blk) that a reader gets. */
  function Logical(p: Pool, dev: nat, blk: nat): Block
  {
    var i := Find(p.buf, dev, blk, 0);
    if i < |p.buf| && p.buf[i].uptodate then p.buf[i].data else OnDisk(p.disk, dev, blk)
  }

  /** The same contents for every block. */
  ghost predicate SameLogical(p: Pool, p': Pool)
  {
    forall dev: nat, blk: nat | dev != 0 :: Logical(p', dev, blk) == Logical(p, dev, blk)
  }

  lemma FindUnique(buf: seq<Buffer>, i: nat)
    requires Distinct(buf) && i < |buf| && buf[i].dev != 0
    ensures Find(buf, buf[i].dev, buf[i].blk, 0) == i
  {}

  // ----- each operation keeps the contents -----

  lemma {:induction false} SyncKeeps(p: Pool, dev: nat, k: nat)
    requires PoolInv(p) && k <= |p.buf|
    ensures var p' := SyncFrom(p, dev, k);
            && PoolInv(p') && SameLogical(p, p')
            && (forall i | 0 <= i < |p.buf| ::
              p'.buf[i] == p.buf[i].(dirt := p.buf[i].dirt && !(i >= k && p.buf[i].dev == dev)))
    decreases |p.buf| - k
  {
    if k < |p.buf| {
      if p.buf[k].dev == dev && p.buf[k].dirt {
        WriteBackKeeps(p, k);
        var p1 := WriteBack(p, k);
        SyncKeeps(p1, dev, k + 1);
      } else {
        SyncKeeps(p, dev, k + 1);
      }
    }
  }

  /** Writing back does not look at the ring. */
  lemma {:induction false} SyncIgnoresRing(p: Pool, ring: seq<nat>, dev: nat, k: nat)
    requires k <= |p.buf|
    ensures SyncFrom(p.(ring := ring), dev, k) == SyncFrom(p, dev, k).(ring := ring)
    decreases |p.buf| - k
  {
    if k < |p.buf| {
      if p.buf[k].dev == dev && p.buf[k].dirt {
        SyncIgnoresRing(WriteBack(p, k), ring, dev, k + 1);
      } else {
        SyncIgnoresRing(p, ring, dev, k + 1);
      }
    }
  }

  /** ll_rw_block(WRITE) on buffer k. */
  function WriteBack(p: Pool, k: nat): Pool
    requires k < |p.buf|
  {
    p.(buf := p.buf[k := p.buf[k].(dirt := false)],
       disk := p.disk[(p.buf[k].dev, p.buf[k].blk) := p.buf[k].data])
  }

  lemma WriteBackKeeps(p: Pool, k: nat)
    requires PoolInv(p) && k < |p.buf| && p.buf[k].dirt
    ensures PoolInv(WriteBack(p, k)) && SameLogical(p, WriteBack(p, k))
  {
    var p' := WriteBack(p, k);
    assert Coherent(p.buf[k], p.disk);
    forall i | 0 <= i < |p'.buf| ensures Coherent(p'.buf[i], p'.disk) {
      assert Coherent(p.buf[i], p.disk);
    }
    forall dev: nat, blk: nat | dev != 0 ensures Logical(p', dev, blk) == Logical(p, dev, blk) {
      SameFind(p.buf, p'.buf, dev, blk, 0);
      if (dev, blk) == (p.buf[k].dev, p.buf[k].blk) { FindUnique(p.buf, k); }
    }
  }

  lemma {:induction false} SameFind(buf: seq<Buffer>, buf': seq<Buffer>, dev: nat, blk: nat, k: nat)
    requires |buf| == |buf'| && k <= |buf|
    requires forall i | 0 <= i < |buf| :: buf'[i].dev == buf[i].dev && buf'[i].blk == buf[i].blk
    ensures Find(buf', dev, blk, k) == Find(buf, dev, blk, k)
    decreases |buf| - k
  {}

  /** Replacing the key and counters of a clean idle buffer loses nothing. */
  lemma ReuseKeeps(p: Pool, r: nat, dev: nat, blk: nat)
    requires PoolInv(p) && r < |p.ring| && !p.buf[p.ring[r]].dirt && dev != 0
    requires Find(p.buf, dev, blk, 0) == |p.buf|
    ensures var p' := Reuse(p, r, dev, blk);
            PoolInv(p') && SameLogical(p, p')
  {
    var i := p.ring[r];
    var p' := Reuse(p, r, dev, blk);
    RotatePermutes(p.ring, |p.buf|, r);
    forall j | 0 <= j < |p'.buf| ensures Coherent(p'.buf[j], p'.disk) {
      assert Coherent(p.buf[j], p.disk);
    }
    forall d: nat, b: nat | d != 0 ensures Logical(p', d, b) == Logical(p, d, b) {
      if (d, b) == (dev, blk) { FindUnique(p'.buf, i); }
      else if (d, b) == (p.buf[i].dev, p.buf[i].blk) { FindUnique(p.buf, i); assert Coherent(p.buf[i], p.disk); }
      else { OtherFind(p, p', i, d, b); }
    }
  }

  lemma OtherFind(p: Pool, p': Pool, i: nat, d: nat, b: nat)
    requires i < |p.buf| == |p'.buf| && Distinct(p.buf) && Distinct(p'.buf) && d != 0
    requires forall j | 0 <= j < |p.buf| && j != i :: p'.buf[j] == p.buf[j]
    requires (d, b) != (p.buf[i].dev, p.buf[i].blk) && (d, b) != (p'.buf[i].dev, p'.buf[i].blk)
    ensures Find(p'.buf, d, b, 0) == Find(p.buf, d, b, 0)
  {
    var j := Find(p.buf, d, b, 0);
    if j < |p.buf| { FindUnique(p'.buf, j); }
  }

  lemma RotatePermutes(ring: seq<nat>, n: nat, r: nat)
    requires Permutes(ring, n) && r < n
    ensures Permutes(ring[..r] + ring[r + 1..] + [ring[r]], n)
  {
    var ring' := ring[..r] + ring[r + 1..] + [ring[r]];
    forall i | 0 <= i < n ensures i in ring' {
      assert i in ring;
      var k :| 0 <= k < n && ring[k] == i;
      assert ring'[if k < r then k else if k == r then n - 1 else k - 1] == i;
    }
  }

  /** The case of an uncached block and an idle buffer, at place k of the ring. */
  lemma GetblkEvicts(p: Pool, k: nat, dev: nat, blk: nat)
    requires PoolInv(p) && dev != 0 && Find(p.buf, dev, blk, 0) == |p.buf|
      && k == FirstIdle(p.buf, p.ring, 0) < |p.ring|
    ensures var (p', i) := Getblk(p, dev, blk);
            && PoolInv(p') && SameLogical(p, p') && i < |p.buf| && p.buf[i].count == 0
            && p'.buf[i].dev == dev && p'.buf[i].blk == blk && p'.buf[i].count > 0
            && (forall j | 0 <= j < |p.buf| && p.buf[j].count > 0 ::
              p'.buf[j].dev == p.buf[j].dev && p'.buf[j].blk == p.buf[j].blk && p'.buf[j].data == p.buf[j].data)
  {
    hide Coherent; hide Distinct; hide Logical; hide Find; hide FirstIdle;
    var b := p.buf[p.ring[k]];
    CountKeeps(p, p.ring[k], 1);
    var p0 := p.(buf := p.buf[p.ring[k] := b.(count := 1)]);
    if b.dirt { SyncKeeps(p0, b.dev, 0); }
    var p1 := if b.dirt then SyncFrom(p0, b.dev, 0) else p0;
    SameFind(p.buf, p1.buf, dev, blk, 0);
    ReuseKeeps(p1, k, dev, blk);
  }

  /** getblk: the buffer returned carries the block and is in use; no contents change, so an eviction
      loses no dirty data.  The caller would sleep exactly when the block is not cached and every
      buffer is in use. */
  lemma GetblkSpec(p: Pool, dev: nat, blk: nat)
    requires PoolInv(p) && dev != 0
    ensures var (p', i) := Getblk(p, dev, blk);
            && PoolInv(p') && SameLogical(p, p')
            && (i < |p.buf| ==> p'.buf[i].dev == dev && p'.buf[i].blk == blk && p'.buf[i].count > 0)
            && (i == |p.buf| <==> Find(p.buf, dev, blk, 0) == |p.buf| && forall j | 0 <= j < |p.buf| ::
              p.buf[j].count > 0)
            && (forall j | 0 <= j < |p.buf| && p.buf[j].count > 0 ::
              p'.buf[j].dev == p.buf[j].dev && p'.buf[j].blk == p.buf[j].blk && p'.buf[j].data == p.buf[j].data)
  {
    hide Coherent; hide Distinct; hide Logical;
    var i := Find(p.buf, dev, blk, 0);
    if i < |p.buf| {
      CountKeeps(p, i, p.buf[i].count + 1);
    } else {
      var k := FirstIdle(p.buf, p.ring, 0);
      if k < |p.ring| {
        GetblkEvicts(p, k, dev, blk);
      } else {
        forall j | 0 <= j < |p.buf| ensures p.buf[j].count > 0 { assert j in p.ring; }
      }
    }
  }

  lemma CountKeeps(p: Pool, i: nat, n: nat)
    requires PoolInv(p) && i < |p.buf|
    ensures var p' := p.(buf := p.buf[i := p.buf[i].(count := n)]); PoolInv(p') && SameLogical(p, p')
  {
    var p' := p.(buf := p.buf[i := p.buf[i].(count := n)]);
    forall j | 0 <= j < |p'.buf| ensures Coherent(p'.buf[j], p'.disk) {
      assert Coherent(p.buf[j], p.disk);
    }
    forall dev: nat, blk: nat | dev != 0 ensures Logical(p', dev, blk) == Logical(p, dev, blk) {
      SameFind(p.buf, p'.buf, dev, blk, 0);
    }
  }

  /** bread: as getblk, and the buffer holds the contents of the block. */
  lemma BreadSpec(p: Pool, dev: nat, blk: nat)
    requires PoolInv(p) && dev != 0
    ensures var (p', i) := Bread(p, dev, blk);
            && PoolInv(p') && SameLogical(p, p')
            && (i < |p.buf| ==> p'.buf[i].dev == dev && p'.buf[i].blk == blk && p'.buf[i].count > 0
                                && p'.buf[i].uptodate && p'.buf[i].data == Logical(p, dev, blk))
  {
    GetblkSpec(p, dev, blk);
    var (p1, i) := Getblk(p, dev, blk);
    if i < |p.buf| {
      FindUnique(p1.buf, i);
      if !p1.buf[i].uptodate { FillKeeps(p1, i); }
    }
  }

  lemma FillKeeps(p: Pool, i: nat)
    requires PoolInv(p) && i < |p.buf| && p.buf[i].dev != 0 && !p.buf[i].uptodate
    ensures var b := p.buf[i].(uptodate := true, dirt := false, data := OnDisk(p.disk, p.buf[i].dev, p.buf[i].blk));
            var p' := p.(buf := p.buf[i := b]);
            PoolInv(p') && SameLogical(p, p')
  {
    var b := p.buf[i].(uptodate := true, dirt := false, data := OnDisk(p.disk, p.buf[i].dev, p.buf[i].blk));
    var p' := p.(buf := p.buf[i := b]);
    FindUnique(p.buf, i);
    forall j | 0 <= j < |p'.buf| ensures Coherent(p'.buf[j], p'.disk) {
      assert Coherent(p.buf[j], p.disk);
    }
    forall d: nat, k: nat | d != 0 ensures Logical(p', d, k) == Logical(p, d, k) {
      SameFind(p.buf, p'.buf, d, k, 0);
    }
  }

  /** Modifying a buffer in use changes the contents of its own block and no other. */
  lemma ModifySpec(p: Pool, i: nat, data: Block)
    requires PoolInv(p) && i < |p.buf| && p.buf[i].dev != 0 && |data| == BLOCK
    ensures var p' := Modify(p, i, data);
            && PoolInv(p')
            && forall dev: nat, blk: nat | dev != 0 ::
                 Logical(p', dev, blk) == if (dev, blk) == (p.buf[i].dev, p.buf[i].blk) then data
                     else Logical(p, dev, blk)
  {
    var p' := Modify(p, i, data);
    FindUnique(p.buf, i);
    forall j | 0 <= j < |p'.buf| ensures Coherent(p'.buf[j], p'.disk) {
      assert Coherent(p.buf[j], p.disk);
    }
    forall dev: nat, blk: nat | dev != 0
      ensures Logical(p', dev, blk) == if (dev, blk) == (p.buf[i].dev, p.buf[i].blk) then data else Logical(p, dev, blk)
    {
      SameFind(p.buf, p'.buf, dev, blk, 0);
    }
  }

  /** After sync_dev the disk itself holds the contents of every block of the device. */
  lemma SyncMakesDurable(p: Pool, dev: nat, blk: nat)
    requires PoolInv(p) && dev != 0
    ensures OnDisk(SyncFrom(p, dev, 0).disk, dev, blk) == Logical(p, dev, blk)
  {
    SyncKeeps(p, dev, 0);
    var p' := SyncFrom(p, dev, 0);
    var i := Find(p'.buf, dev, blk, 0);
    assert Logical(p', dev, blk) == Logical(p, dev, blk);
    if i < |p'.buf| { assert Coherent(p'.buf[i], p'.disk); }
  }

  // ----- runs -----

  /** getblk or bread of a block, a read-modify-write of a block, brelse of a buffer, or sync_dev. */
  datatype Op =
    | Get(dev: nat, blk: nat)
    | Read(dev: nat, blk: nat)
    | Update(dev: nat, blk: nat, data: Block)
    | Release(i: nat)
    | Sync(dev: nat)

  /** The buffer handed out, by bread with its contents; Blocked stands for a call that would sleep for a
      buffer, Panic for brelse of a buffer nobody uses. */
  datatype Result = Done | Taken(i: nat) | Got(i: nat, block: Block) | Blocked | Panic

  predicate Sensible(op: Op)
  {
    match op
    case Get(dev, _) => dev != 0
    case Read(dev, _) => dev != 0
    case Update(dev, _, data) => dev != 0 && |data| == BLOCK
    case _ => true
  }

  function Step(p: Pool, op: Op): (r: (Pool, Result))
    requires PoolInv(p)
  {
    if !Sensible(op) then (p, Done)
    else
      match op
      case Get(dev, blk) =>
        var (p', i) := Getblk(p, dev, blk);
        (p', if i < |p'.buf| then Taken(i) else Blocked)
      case Read(dev, blk) =>
        var (p', i) := Bread(p, dev, blk);
        (p', if i < |p'.buf| then Got(i, p'.buf[i].data) else Blocked)
      case Update(dev, blk, data) =>
        var (p', i) := Bread(p, dev, blk);
        if i < |p'.buf| then (Modify(p', i, data), Taken(i)) else (p', Blocked)
      case Release(i) => (Brelse(p, i), if i < |p.buf| && p.buf[i].count > 0 then Done else Panic)
      case Sync(dev) => (SyncFrom(p, dev, 0), Done)
  }

  /** A disk without a cache, on which an update counts at once. */
  function PlainStep(m: Disk, op: Op, res: Result): Disk
  {
    if op.Update? && Sensible(op) && res != Blocked then m[(op.dev, op.blk) := op.data] else m
  }

  ghost predicate Agrees(p: Pool, m: Disk)
  {
    forall dev: nat, blk: nat | dev != 0 :: Logical(p, dev, blk) == OnDisk(m, dev, blk)
  }

  lemma ReleaseKeeps(p: Pool, i: nat)
    requires PoolInv(p)
    ensures PoolInv(Brelse(p, i)) && SameLogical(p, Brelse(p, i))
  {
    hide Coherent; hide Distinct; hide Logical; hide Permutes;
    if i < |p.buf| && p.buf[i].count > 0 { CountKeeps(p, i, p.buf[i].count - 1); }
  }

  /** What a caller may see of a disk that holds m. */
  predicate Answered(m: Disk, op: Op, res: Result)
  {
    if !Sensible(op) then res == Done
    else
      match op
      case Get(_, _) => res.Taken? || res.Blocked?
      case Read(dev, blk) => (res.Got? && res.block == OnDisk(m, dev, blk)) || res.Blocked?
      case Update(_, _, _) => res.Taken? || res.Blocked?
      case Release(_) => res == Done || res == Panic
      case Sync(_) => res == Done
  }

  lemma StepIsPlain(p: Pool, op: Op, m: Disk)
    requires PoolInv(p) && Agrees(p, m)
    ensures var (p', res) := Step(p, op);
            && PoolInv(p') && Agrees(p', PlainStep(m, op, res)) && Answered(m, op, res)
  {
    hide PoolInv; hide Logical; hide Getblk; hide Bread; hide SyncFrom; hide Modify; hide Brelse;
    if Sensible(op) {
      match op
      case Get(dev, blk) => GetblkSpec(p, dev, blk);
      case Read(dev, blk) => BreadSpec(p, dev, blk);
      case Update(dev, blk, data) =>
        BreadSpec(p, dev, blk);
        var (p', i) := Bread(p, dev, blk);
        if i < |p'.buf| { ModifySpec(p', i, data); }
      case Release(i) => ReleaseKeeps(p, i);
      case Sync(dev) => SyncKeeps(p, dev, 0);
    }
  }

  lemma StepKeepsInv(p: Pool, op: Op)
    requires PoolInv(p)
    ensures PoolInv(Step(p, op).0)
  {
    hide PoolInv; hide Logical; hide Getblk; hide Bread; hide SyncFrom; hide Modify; hide Brelse;
    if Sensible(op) {
      match op
      case Get(dev, blk) => GetblkSpec(p, dev, blk);
      case Read(dev, blk) => BreadSpec(p, dev, blk);
      case Update(dev, blk, data) =>
        BreadSpec(p, dev, blk);
        var (p', i) := Bread(p, dev, blk);
        if i < |p'.buf| { ModifySpec(p', i, data); }
      case Release(i) => ReleaseKeeps(p, i);
      case Sync(dev) => SyncKeeps(p, dev, 0);
    }
  }

  ghost function Run(p: Pool, ops: seq<Op>): (r: (Pool, seq<Result>))
    requires PoolInv(p)
    ensures |r.1| == |ops|
    decreases |ops|
  {
    if ops == [] then (p, [])
    else
      StepKeepsInv(p, ops[0]);
      var (p1, res) := Step(p, ops[0]);
      var (p2, rs) := Run(p1, ops[1..]);
      (p2, [res] + rs)
  }

  ghost function PlainRun(m: Disk, ops: seq<Op>, rs: seq<Result>): Disk
    requires |ops| == |rs|
    decreases |ops|
  {
    if ops == [] then m else PlainRun(PlainStep(m, ops[0], rs[0]), ops[1..], rs[1..])
  }

  /** Every call of the run is answered from what the plain disk holds at that point. */
  ghost predicate AllAnswered(m: Disk, ops: seq<Op>, rs: seq<Result>)
    requires |ops| == |rs|
    decreases |ops|
  {
    ops == [] || (Answered(m, ops[0], rs[0]) && AllAnswered(PlainStep(m, ops[0], rs[0]), ops[1..], rs[1..]))
  }

  /** Every run through the cache is a run on a plain disk: whatever is evicted, written back or read in
      meanwhile, each read hands out the last update of its block. */
  lemma {:induction false} CacheIsTransparent(p: Pool, ops: seq<Op>, m: Disk)
    requires PoolInv(p) && Agrees(p, m)
    ensures var (p', rs) := Run(p, ops);
            PoolInv(p') && Agrees(p', PlainRun(m, ops, rs)) && AllAnswered(m, ops, rs)
    decreases |ops|
  {
    hide PoolInv; hide Agrees; hide Step; hide PlainStep; hide Answered;
    if ops != [] {
      StepIsPlain(p, ops[0], m);
      var (p1, res) := Step(p, ops[0]);
      CacheIsTransparent(p1, ops[1..], PlainStep(m, ops[0], res));
      var rs := Run(p1, ops[1..]).1;
      assert ([res] + rs)[1..] == rs;
    }
  }

  // ----- who uses a buffer -----

  /** By how much a call changes the number of uses of buffer i. */
  function Change(op: Op, res: Result, i: nat): int
  {
    if (res.Taken? || res.Got?) && res.i == i then 1 else if op == Release(i) && res == Done then -1 else 0
  }

  /** The uses of buffer i that a run adds: the calls that returned it less the calls of brelse for it. */
  function Uses(ops: seq<Op>, rs: seq<Result>, i: nat): int
    requires |ops| == |rs|
    decreases |ops|
  {
    if ops == [] then 0 else Change(ops[0], rs[0], i) + Uses(ops[1..], rs[1..], i)
  }

  /** Of n uses of buffer i at the start some are left after every call. */
  predicate Held(n: int, ops: seq<Op>, rs: seq<Result>, i: nat)
    requires |ops| == |rs|
    decreases |ops|
  {
    n > 0 && (ops != [] ==> Held(n + Change(ops[0], rs[0], i), ops[1..], rs[1..], i))
  }

  /** Block and contents of a buffer. */
  ghost predicate SameBlock(b: Buffer, b': Buffer)
  {
    b'.dev == b.dev && b'.blk == b.blk && b'.uptodate == b.uptodate && b'.data == b.data
  }

  /** getblk adds one use of the buffer it returns, and only a buffer nobody used may change its block. */
  lemma GetblkUses(p: Pool, dev: nat, blk: nat)
    requires PoolInv(p) && dev != 0
    ensures var (p', i) := Getblk(p, dev, blk);
            forall j | 0 <= j < |p.buf| ::
              && p'.buf[j].count == p.buf[j].count + (if j == i then 1 else 0)
              && (j != i || p.buf[j].count > 0 ==> SameBlock(p.buf[j], p'.buf[j]))
  {
    hide Coherent; hide Distinct; hide Logical; hide Find; hide FirstIdle;
    var k := FirstIdle(p.buf, p.ring, 0);
    if Find(p.buf, dev, blk, 0) == |p.buf| && k < |p.ring| {
      var b := p.buf[p.ring[k]];
      CountKeeps(p, p.ring[k], 1);
      var p0 := p.(buf := p.buf[p.ring[k] := b.(count := 1)]);
      if b.dirt { SyncKeeps(p0, b.dev, 0); }
    }
  }

  /** The buffer getblk takes for a block that is not cached is the idle one that was taken longest ago, which
      is the first idle one of the ring, and it becomes the last of the ring. */
  lemma GetblkTakesOldest(p: Pool, dev: nat, blk: nat, k: nat)
    requires PoolInv(p) && dev != 0 && Find(p.buf, dev, blk, 0) == |p.buf|
    requires k < |p.ring| && p.buf[p.ring[k]].count == 0 && forall j | 0 <= j < k :: p.buf[p.ring[j]].count > 0
    ensures var (p', i) := Getblk(p, dev, blk);
            && i == p.ring[k] && |p'.ring| == |p.ring|
            && forall j | 0 <= j < |p.ring| ::
              p'.ring[j] == p.ring[if j < k then j else if j + 1 < |p.ring| then j + 1 else k]
  {
    hide Coherent; hide Distinct; hide Logical; hide Find;
    var b := p.buf[p.ring[k]];
    var p0 := p.(buf := p.buf[p.ring[k] := b.(count := 1)]);
    assert FirstIdle(p.buf, p.ring, 0) == k;
    assert |SyncFrom(p0, b.dev, 0).ring| == |p.ring|;
  }

  lemma BreadUses(p: Pool, dev: nat, blk: nat)
    requires PoolInv(p) && dev != 0
    ensures var (p', i) := Bread(p, dev, blk);
            forall j | 0 <= j < |p.buf| ::
              && p'.buf[j].count == p.buf[j].count + (if j == i then 1 else 0)
              && (j != i || p.buf[j].count > 0 ==>
                    && p'.buf[j].dev == p.buf[j].dev && p'.buf[j].blk == p.buf[j].blk
                    && (p.buf[j].uptodate ==> SameBlock(p.buf[j], p'.buf[j])))
  {
    GetblkUses(p, dev, blk);
    hide Getblk;
  }

  /** One call: the counts follow the uses, a call sleeps exactly when its block is not cached and every buffer
      is in use, brelse panics exactly when nobody uses the buffer, and a buffer in use keeps its block, and
      its contents unless they are updated. */
  lemma StepUses(p: Pool, op: Op)
    requires PoolInv(p)
    ensures var (p', res) := Step(p, op);
            && |p'.buf| == |p.buf|
            && (forall i | 0 <= i < |p.buf| :: StepOnBuffer(p, op, p', res, i))
            && (res == Panic <==> op.Release? && (op.i >= |p.buf| || p.buf[op.i].count == 0))
            && (res == Blocked <==> MustWait(p, op))
  {
    hide PoolInv; hide Getblk; hide Bread; hide SyncFrom; hide Find;
    if Sensible(op) {
      match op
      case Get(dev, blk) =>
        GetblkUses(p, dev, blk);
        GetblkSpec(p, dev, blk);
      case Read(dev, blk) =>
        BreadUses(p, dev, blk);
        BreadBlocks(p, dev, blk);
      case Update(dev, blk, data) =>
        BreadUses(p, dev, blk);
        BreadBlocks(p, dev, blk);
      case Release(i) =>
      case Sync(dev) => SyncKeeps(p, dev, 0);
    }
  }

  /** A call for a block that is not cached while every buffer is in use. */
  ghost predicate MustWait(p: Pool, op: Op)
  {
    && Sensible(op) && (op.Get? || op.Read? || op.Update?)
    && Find(p.buf, op.dev, op.blk, 0) == |p.buf| && forall j | 0 <= j < |p.buf| :: p.buf[j].count > 0
  }

  lemma BreadBlocks(p: Pool, dev: nat, blk: nat)
    requires PoolInv(p) && dev != 0
    ensures var (p', i) := Bread(p, dev, blk);
            && (i == |p.buf| <==> Find(p.buf, dev, blk, 0) == |p.buf| && forall j | 0 <= j < |p.buf| ::
              p.buf[j].count > 0)
            && (i < |p.buf| ==> p'.buf[i].dev == dev && p'.buf[i].blk == blk)
  {
    GetblkSpec(p, dev, blk);
    hide Getblk; hide PoolInv; hide Find; hide SameLogical;
  }

  ghost predicate StepOnBuffer(p: Pool, op: Op, p': Pool, res: Result, i: nat)
    requires i < |p.buf| == |p'.buf|
  {
    && p'.buf[i].count == p.buf[i].count + Change(op, res, i)
    && (p.buf[i].count > 0 ==>
          && p'.buf[i].dev == p.buf[i].dev && p'.buf[i].blk == p.buf[i].blk
          && (p.buf[i].uptodate ==> p'.buf[i].uptodate)
          && (p.buf[i].uptodate && !(op.Update? && op.dev == p.buf[i].dev && op.blk == p.buf[i].blk) ==>
                p'.buf[i].data == p.buf[i].data))
  }

  /** Over every run the count of a buffer grows by exactly the calls that returned it less its releases. */
  lemma {:induction false} CountsAreUses(p: Pool, ops: seq<Op>, i: nat)
    requires PoolInv(p) && i < |p.buf|
    ensures var (p', rs) := Run(p, ops);
            |p'.buf| == |p.buf| && p'.buf[i].count == p.buf[i].count + Uses(ops, rs, i)
    decreases |ops|
  {
    hide PoolInv; hide Step; hide Change;
    if ops != [] {
      StepUses(p, ops[0]);
      StepKeepsInv(p, ops[0]);
      var (p1, res) := Step(p, ops[0]);
      assert StepOnBuffer(p, ops[0], p1, res, i);
      CountsAreUses(p1, ops[1..], i);
      var rs := Run(p1, ops[1..]).1;
      assert ([res] + rs)[1..] == rs;
    }
  }

  /** As long as somebody uses it, a buffer keeps its block, whatever is read, recycled or written back
      meanwhile; and once read, it holds the last update of that block. */
  lemma {:induction false} HeldKeepsBlock(p: Pool, ops: seq<Op>, m: Disk, i: nat)
    requires PoolInv(p) && Agrees(p, m) && i < |p.buf| && p.buf[i].dev != 0
    requires Held(p.buf[i].count, ops, Run(p, ops).1, i)
    ensures var (p', rs) := Run(p, ops);
            && |p'.buf| == |p.buf| && p'.buf[i].dev == p.buf[i].dev && p'.buf[i].blk == p.buf[i].blk
            && (p.buf[i].uptodate ==>
                  p'.buf[i].uptodate && p'.buf[i].data == OnDisk(PlainRun(m, ops, rs), p.buf[i].dev, p.buf[i].blk))
    decreases |ops|
  {
    hide PoolInv; hide Step; hide Change; hide Agrees; hide PlainStep; hide OnDisk;
    if ops == [] {
      HeldData(p, m, i);
    } else {
      StepUses(p, ops[0]);
      StepIsPlain(p, ops[0], m);
      var (p1, res) := Step(p, ops[0]);
      assert StepOnBuffer(p, ops[0], p1, res, i);
      var rs := Run(p1, ops[1..]).1;
      assert ([res] + rs)[1..] == rs;
      HeldKeepsBlock(p1, ops[1..], PlainStep(m, ops[0], res), i);
    }
  }

  lemma HeldData(p: Pool, m: Disk, i: nat)
    requires PoolInv(p) && Agrees(p, m) && i < |p.buf| && p.buf[i].dev != 0
    ensures p.buf[i].uptodate ==> p.buf[i].data == OnDisk(m, p.buf[i].dev, p.buf[i].blk)
  {
    FindUnique(p.buf, i);
    hide Coherent; hide Permutes;
  }
}
