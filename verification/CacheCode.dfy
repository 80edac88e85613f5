/** The buffer cache on its linked buffer heads (fs/buffer.c), for one caller at a time.  Each routine
    does to the pool of buffers what module Cache says. */
module CacheCode {
  import opened Zones
  import opened Cache
  import opened CacheLinks
  import opened CacheTable

  class BufferCache {
    // the fields of the buffer heads, by buffer
    const buf: array<Buffer>
    const next: array<int>
    const prev: array<int>
    const nextFree: array<int>
    const prevFree: array<int>
    const hashTable: array<int>
    var freeList: int
    var disk: Disk
    // the free ring from free_list on, and the hash chains
    ghost var ring: seq<nat>
    ghost var chain: seq<seq<nat>>

    ghost function Abs(): Pool
      reads this, buf
    {
      Pool(buf[..], ring, disk)
    }

    ghost function Hashes(): Links
      reads this, next, prev, hashTable
    {
      Links(next[..], prev[..], hashTable[..], chain)
    }

    ghost predicate Sizes()
      reads this
    {
      && 2 <= buf.Length == next.Length == prev.Length == nextFree.Length == prevFree.Length
      && hashTable.Length == NR_HASH
      && next != prev && next != hashTable && prev != hashTable && nextFree != prevFree
      && nextFree != next && nextFree != prev && nextFree != hashTable
      && prevFree != next && prevFree != prev && prevFree != hashTable
      && (var b: object := buf; b != next && b != prev && b != nextFree && b != prevFree && b != hashTable)
    }

    ghost predicate Ring()
      reads this, nextFree, prevFree
    {
      RingLinked(nextFree[..], prevFree[..], ring) && freeList == ring[0]
    }

    /** All queues are sound; off is a buffer taken off its chain, or the number of buffers. */
    ghost predicate Queues(off: nat)
      reads this, buf, next, prev, nextFree, prevFree, hashTable
    {
      Sizes() && Ring() && Table(buf[..], Hashes(), off)
    }

    ghost predicate Valid()
      reads this, buf, next, prev, nextFree, prevFree, hashTable
    {
      Queues(buf.Length) && PoolInv(Abs())
    }

    /** buffer_init for n buffers: all idle, none of a device, in a ring in the order of memory. */
    constructor (n: nat, d: Disk)
      requires n >= 2 && forall a | a in d :: |d[a]| == BLOCK
      ensures Valid() && disk == d && buf.Length == n
      ensures ring == InOrder(n) && forall i | 0 <= i < n :: buf[i] == EmptyBuffer()
    {
      buf, next, prev := new Buffer[n](_ => EmptyBuffer()), new int[n](_ => -1), new int[n](_ => -1);
      nextFree, prevFree := new int[n](k => if k + 1 < n then k + 1 else 0),
          new int[n](k => if k > 0 then k - 1 else n - 1);
      hashTable := new int[NR_HASH](_ => -1);
      freeList, disk := 0, d;
      ring, chain := InOrder(n), NoChains();
      new;
      hide Table; hide RingLinked; hide PoolInv; hide AllLinked; hide Unlinked; hide AllEmpty; hide RingUp;
      hide RingDown; hide InOrder; hide NoChains; hide EmptyBuffer;
      InitQueues(n, d);
      assert buf[..] == AllEmpty(n) && next[..] == Unlinked(n) && prev[..] == Unlinked(n);
      assert hashTable[..] == Unlinked(NR_HASH);
      assert nextFree[..] == RingUp(n) && prevFree[..] == RingDown(n);
    }

    /** The hash half of remove_from_queues. */
    method Unhash(i: nat)
      requires Sizes() && Table(buf[..], Hashes(), buf.Length) && i < buf.Length
      modifies `chain, next, prev, hashTable
      ensures Table(buf[..], Hashes(), i)
    {
      hide Table; hide Hash; hide IndexOf; hide Drop;
      UnhashTable(buf[..], Hashes(), i);
      TableSizes(buf[..], Hashes(), buf.Length);
      ghost var l := Hashes();
      var h := Hash(buf[i].dev, buf[i].blk);
      if next[i] >= 0 { prev[next[i]] := prev[i]; }
      if prev[i] >= 0 { next[prev[i]] := next[i]; }
      if hashTable[h] == i { hashTable[h] := next[i]; }
      if i in chain[h] { chain := chain[h := Drop(chain[h], IndexOf(chain[h], i))]; }
      assert Hashes() == Unhashed(l, i, h);
    }

    /** The hash half of insert_into_queues.  The back link of the old head is set only if there is one;
        the code has no such check and would write through a null pointer. */
    method Rehash(i: nat)
      requires Sizes() && Table(buf[..], Hashes(), i) && i < buf.Length
      modifies `chain, next, prev, hashTable
      ensures Table(buf[..], Hashes(), buf.Length)
    {
      RehashTable(buf[..], Hashes(), i);
      HeadsInRange(buf[..], Hashes(), i, Hash(buf[i].dev, buf[i].blk));
      TableSizes(buf[..], Hashes(), i);
      hide Table; hide Hash;
      ghost var l := Hashes();
      prev[i] := -1;
      next[i] := -1;
      var h := Hash(buf[i].dev, buf[i].blk);
      if buf[i].dev != 0 {
        next[i] := hashTable[h];
        hashTable[h] := i;
        if next[i] >= 0 { prev[next[i]] := i; }
        chain := chain[h := [i] + chain[h]];
      }
      assert Hashes() == Rehashed(l, i, buf[i].dev, h);
    }

    /** The free-list half of remove_from_queues. */
    method Unfree(i: nat, ghost k: nat)
      requires Sizes() && Ring() && |ring| >= 2 && k < |ring| && ring[k] == i
      modifies `ring, `freeList, nextFree, prevFree
      ensures Ring() && ring == Drop(old(ring), k)
    {
      hide RingNext; hide RingPrev; hide NoDup;
      RingRemove(nextFree[..], prevFree[..], ring, k);
      RingStarts(nextFree[..], prevFree[..], ring, k);
      ghost var nf, pf := nextFree[..], prevFree[..];
      nextFree[prevFree[i]] := nextFree[i];
      prevFree[nextFree[i]] := prevFree[i];
      assert nextFree[..] == nf[pf[i] := nf[i]] && prevFree[..] == pf[nf[i] := pf[i]];
      if freeList == i { freeList := nextFree[i]; }
      ring := Drop(ring, k);
    }

    /** The free-list half of insert_into_queues: the buffer goes to the end of the ring. */
    method Refree(i: nat)
      requires Sizes() && Ring() && i < buf.Length && i !in ring
      modifies `ring, nextFree, prevFree
      ensures Ring() && ring == old(ring) + [i]
    {
      hide RingNext; hide RingPrev; hide NoDup;
      RingInsert(nextFree[..], prevFree[..], ring, i);
      ghost var nf, pf := nextFree[..], prevFree[..];
      nextFree[i] := freeList;
      prevFree[i] := prevFree[freeList];
      nextFree[prevFree[freeList]] := i;
      prevFree[freeList] := i;
      assert nextFree[..] == nf[i := ring[0]][pf[ring[0]] := i];
      assert prevFree[..] == pf[i := pf[ring[0]]][ring[0] := i];
      ring := ring + [i];
    }

    /** remove_from_queues, for the buffer at place k of the ring. */
    method RemoveFromQueues(i: nat, ghost k: nat)
      requires Queues(buf.Length) && i < buf.Length && |ring| >= 2 && k < |ring| && ring[k] == i
      modifies `ring, `chain, `freeList, next, prev, nextFree, prevFree, hashTable
      ensures Queues(i) && i !in ring && ring == Drop(old(ring), k)
    {
      RingFacts(nextFree[..], prevFree[..], ring, k);
      Dropped(ring, k);
      hide Table; hide RingLinked;
      Unhash(i);
      ghost var l := Hashes();
      Unfree(i, k);
      assert Hashes() == l;
    }

    /** insert_into_queues. */
    method InsertIntoQueues(i: nat)
      requires Queues(i) && i < buf.Length && i !in ring
      modifies `ring, `chain, next, prev, nextFree, prevFree, hashTable
      ensures Queues(buf.Length) && ring == old(ring) + [i]
    {
      hide Table; hide RingLinked;
      ghost var l := Hashes();
      Refree(i);
      assert Hashes() == l;
      Rehash(i);
    }

    /** find_buffer; -1 when no buffer on its chain carries the block. */
    method FindBuffer(dev: nat, blk: nat, ghost off: nat) returns (r: int)
      requires Sizes() && Table(buf[..], Hashes(), off)
      ensures -1 <= r < buf.Length
      ensures r >= 0 ==> buf[r].dev == dev && buf[r].blk == blk && r != off
      ensures r == -1 ==> forall i | i in chain[Hash(dev, blk)] && i < buf.Length ::
        !(buf[i].dev == dev && buf[i].blk == blk)
    {
      hide Table; hide Hash;
      var h := Hash(dev, blk);
      TableSizes(buf[..], Hashes(), off);
      ChainOf(buf[..], Hashes(), off, h);
      ghost var ch, c := chain[h], 0;
      r := hashTable[h];
      while r >= 0
        invariant 0 <= c <= |ch| && r == if c < |ch| then ch[c] else -1
        invariant forall k | 0 <= k < c :: !(buf[ch[k]].dev == dev && buf[ch[k]].blk == blk)
        decreases |ch| - c
      {
        assert ch[c] in chain[h];
        if buf[r].dev == dev && buf[r].blk == blk { return; }
        assert next[..][ch[c]] == ChainNext(ch, c);
        r := next[r];
        c := c + 1;
      }
    }

    /** sync_dev. */
    method SyncDev(dev: nat)
      modifies `disk, buf
      ensures var q := SyncFrom(Pool(old(buf[..]), ring, old(disk)), dev, 0); buf[..] == q.buf && disk == q.disk
    {
      ghost var p0 := Pool(buf[..], ring, disk);
      var i := 0;
      while i < buf.Length
        invariant 0 <= i <= buf.Length
        invariant SyncFrom(Pool(buf[..], ring, disk), dev, i) == SyncFrom(p0, dev, 0)
      {
        if buf[i].dev == dev {
          if buf[i].dirt { WriteBlock(i); }
        }
        i := i + 1;
      }
    }

    /** ll_rw_block(WRITE). */
    method WriteBlock(i: nat)
      requires i < buf.Length
      modifies `disk, buf
      ensures Pool(buf[..], ring, disk) == WriteBack(Pool(old(buf[..]), ring, old(disk)), i)
    {
      disk := disk[(buf[i].dev, buf[i].blk) := buf[i].data];
      buf[i] := buf[i].(dirt := false);
    }

    /** get_hash_table; -1 when the block is not cached. */
    method GetHashTable(dev: nat, blk: nat) returns (r: int)
      requires Valid() && dev != 0
      modifies buf
      ensures Valid() && -1 <= r < buf.Length
      ensures var i := Find(old(buf[..]), dev, blk, 0);
              if i < buf.Length then r == i
                  && buf[..] == old(buf[..])[i := old(buf[i]).(count := old(buf[i]).count + 1)]
              else r == -1 && buf[..] == old(buf[..])
    {
      hide Table; hide Coherent; hide Distinct; hide RingLinked; hide Hash;
      ghost var b := buf[..];
      TableSizes(b, Hashes(), buf.Length);
      r := FindBuffer(dev, blk, buf.Length);
      if r == -1 {
        NotFound(b, Hashes(), dev, blk);
        return;
      }
      KeyFound(Abs(), r, dev, blk);
      CountKeeps(Abs(), r, buf[r].count + 1);
      buf[r] := buf[r].(count := buf[r].count + 1);
      assert buf[..] == b[r := buf[r]];
      SameKeys(b, buf[..], Hashes(), buf.Length);
    }

    /** The search of the free list in getblk: the first idle buffer and its place in the ring. */
    method FirstFree() returns (r: nat, ghost k: nat)
      requires Valid()
      ensures k == FirstIdle(buf[..], ring, 0) && r == if k < |ring| then ring[k] else buf.Length
    {
      hide Table; hide Coherent; hide Distinct;
      RingFacts(nextFree[..], prevFree[..], ring, 0);
      var tmp := freeList;
      k := 0;
      while true
        invariant 0 <= k < |ring| && tmp == ring[k] && FirstIdle(buf[..], ring, k) == FirstIdle(buf[..], ring, 0)
        decreases |ring| - k
      {
        if buf[tmp].count == 0 { return tmp, k; }
        RingFacts(nextFree[..], prevFree[..], ring, k);
        tmp := nextFree[tmp];
        if k + 1 < |ring| { Differ(ring, 0, k + 1); }
        k := k + 1;
        if tmp == freeList { return buf.Length, k; }
      }
    }

    /** getblk for one caller: the buffer, or the number of buffers where the code would sleep. */
    method Getblk(dev: nat, blk: nat) returns (r: nat)
      requires Valid() && dev != 0
      modifies this, buf, next, prev, nextFree, prevFree, hashTable
      ensures Valid() && (Abs(), r) == Cache.Getblk(old(Abs()), dev, blk)
    {
      hide Table; hide Coherent; hide Distinct; hide RingLinked;
      GetblkSpec(Abs(), dev, blk);
      var bh := GetHashTable(dev, blk);
      if bh >= 0 { return bh; }
      ghost var p := Abs();
      ghost var k;
      r, k := FirstFree();
      if r == buf.Length { return; }
      Recycle(r, k, dev, blk);
    }

    /** The part of getblk that gives the idle buffer r, at place k of the ring, to an uncached block. */
    method Recycle(r: nat, ghost k: nat, dev: nat, blk: nat)
      requires Valid() && dev != 0 && k < |ring| && ring[k] == r && Find(buf[..], dev, blk, 0) == buf.Length
      modifies this, buf, next, prev, nextFree, prevFree, hashTable
      ensures Queues(buf.Length)
      ensures var p := old(Abs());
              var p0 := p.(buf := p.buf[r := p.buf[r].(count := 1)]);
              var p1 := if p.buf[r].dirt then SyncFrom(p0, p.buf[r].dev, 0) else p0;
              Abs() == Reuse(p1, k, dev, blk)
    {
      hide Table; hide Coherent; hide Distinct; hide RingLinked; hide Hash;
      ghost var p := Abs();
      ghost var p0 := p.(buf := p.buf[r := p.buf[r].(count := 1)]);
      CountKeeps(p, r, 1);
      SyncKeeps(p0, buf[r].dev, 0);
      SyncIgnoresRing(p0, Drop(ring, k), buf[r].dev, 0);
      buf[r] := buf[r].(count := 1);
      assert buf[..] == p0.buf;
      SameKeys(p.buf, p0.buf, Hashes(), buf.Length);
      RemoveFromQueues(r, k);
      ghost var l := Hashes();
      if buf[r].dirt { SyncDev(buf[r].dev); }
      ghost var p1 := if p.buf[r].dirt then SyncFrom(p0, p.buf[r].dev, 0) else p0;
      assert buf[..] == p1.buf && disk == p1.disk && Hashes() == l;
      SameKeys(p0.buf, p1.buf, l, r);
      buf[r] := buf[r].(dev := dev, blk := blk, dirt := false, uptodate := false);
      assert buf[..] == p1.buf[r := buf[r]] && Hashes() == l;
      NewKey(p1.buf, buf[..], l, r);
      var found := FindBuffer(dev, blk, r);
      assert found == -1 by {
        SameFind(p.buf, p1.buf, dev, blk, 0);
        StillAbsent(p1.buf, buf[..], l, r, dev, blk, found);
      }
      InsertIntoQueues(r);
    }

    /** bread for one caller, with a successful read. */
    method Bread(dev: nat, blk: nat) returns (r: nat)
      requires Valid() && dev != 0
      modifies this, buf, next, prev, nextFree, prevFree, hashTable
      ensures Valid() && (Abs(), r) == Cache.Bread(old(Abs()), dev, blk)
    {
      hide Table; hide Coherent; hide Distinct; hide RingLinked;
      ghost var p := Abs();
      BreadSpec(p, dev, blk);
      r := Getblk(dev, blk);
      if r == buf.Length || buf[r].uptodate { return; }
      ghost var b := buf[..];
      buf[r] := buf[r].(uptodate := true, dirt := false, data := OnDisk(disk, dev, blk));
      assert buf[..] == b[r := buf[r]];
      SameKeys(b, buf[..], Hashes(), buf.Length);
    }

    /** brelse; the guard excludes its panic. */
    method Brelse(i: nat)
      requires Valid() && i < buf.Length && buf[i].count > 0
      modifies buf
      ensures Valid() && Abs() == Cache.Brelse(old(Abs()), i)
    {
      hide Table; hide Coherent; hide Distinct; hide RingLinked;
      ghost var b := buf[..];
      ReleaseKeeps(Abs(), i);
      buf[i] := buf[i].(count := buf[i].count - 1);
      assert buf[..] == b[i := buf[i]];
      SameKeys(b, buf[..], Hashes(), buf.Length);
    }
  }

  /** The queues that buffer_init builds. */
  lemma InitQueues(n: nat, d: Disk)
    requires n >= 2 && forall a | a in d :: |d[a]| == BLOCK
    ensures RingLinked(RingUp(n), RingDown(n), InOrder(n))
    ensures Table(AllEmpty(n), Links(Unlinked(n), Unlinked(n), Unlinked(NR_HASH), NoChains()), n)
    ensures PoolInv(Pool(AllEmpty(n), InOrder(n), d))
  {
    var ring := InOrder(n);
    forall i | 0 <= i < n ensures i in ring { assert ring[i] == i; }
  }

  // ----- the first links of n buffers -----

  function InOrder(n: nat): (r: seq<nat>)
    ensures |r| == n && forall k | 0 <= k < n :: r[k] == k
  {
    seq(n, k => k)
  }

  function RingUp(n: nat): (r: seq<int>)
    ensures |r| == n && forall k | 0 <= k < n :: r[k] == if k + 1 < n then k + 1 else 0
  {
    seq(n, k => if k + 1 < n then k + 1 else 0)
  }

  function RingDown(n: nat): (r: seq<int>)
    ensures |r| == n && forall k | 0 <= k < n :: r[k] == if k > 0 then k - 1 else n - 1
  {
    seq(n, k => if k > 0 then k - 1 else n - 1)
  }

  function Unlinked(n: nat): (r: seq<int>)
    ensures |r| == n && forall k | 0 <= k < n :: r[k] == -1
  {
    seq(n, _ => -1)
  }

  function AllEmpty(n: nat): (r: seq<Buffer>)
    ensures |r| == n && forall k | 0 <= k < n :: r[k] == EmptyBuffer()
  {
    seq(n, _ => EmptyBuffer())
  }

  function NoChains(): (r: seq<seq<nat>>)
    ensures |r| == NR_HASH && forall h | 0 <= h < NR_HASH :: r[h] == []
  {
    seq(NR_HASH, _ => [])
  }

  function EmptyBuffer(): Buffer { Buffer(0, 0, false, false, 0, ZeroBlock()) }

  lemma KeyFound(p: Pool, i: nat, dev: nat, blk: nat)
    requires PoolInv(p) && i < |p.buf| && dev != 0 && p.buf[i].dev == dev && p.buf[i].blk == blk
    ensures Find(p.buf, dev, blk, 0) == i
  {}

  lemma TableSizes(b: seq<Buffer>, l: Links, off: nat)
    requires Table(b, l, off)
    ensures |l.next| == |l.prev| == |b| && |l.heads| == |l.chain| == NR_HASH
  {}

  lemma ChainOf(b: seq<Buffer>, l: Links, off: nat, h: nat)
    requires Table(b, l, off) && h < NR_HASH
    ensures ChainLinked(l.next, l.prev, l.heads[h], l.chain[h])
    ensures forall x | x in l.chain[h] :: x < |b| && x != off
  {
    hide Hash; hide Separate; hide ChainLinked;
  }

  lemma OnChain(b: seq<Buffer>, l: Links, off: nat, h: nat, x: nat)
    requires Table(b, l, off) && h < NR_HASH && x in l.chain[h]
    ensures x < |b| && x != off && b[x].dev != 0 && Hash(b[x].dev, b[x].blk) == h
  {}

  /** The table looks at the keys of the buffers only. */
  lemma SameKeys(b: seq<Buffer>, b': seq<Buffer>, l: Links, off: nat)
    requires Table(b, l, off) && |b'| == |b| && forall i | 0 <= i < |b| ::
      b'[i].dev == b[i].dev && b'[i].blk == b[i].blk
    ensures Table(b', l, off)
  {
    TableSizes(b, l, off);
    hide Hash; hide AllLinked;
    forall h: nat, x: nat | h < NR_HASH && x in l.chain[h]
        ensures x < |b'| && x != off && b'[x].dev != 0 && Hash(b'[x].dev, b'[x].blk) == h {
      OnChain(b, l, off, h, x);
      assert b'[x].dev == b[x].dev && b'[x].blk == b[x].blk;
    }
    forall x | 0 <= x < |b'| && x != off && b'[x].dev != 0 ensures x in l.chain[Hash(b'[x].dev, b'[x].blk)] {
      assert b'[x].dev == b[x].dev && b'[x].blk == b[x].blk;
    }
    forall x | 0 <= x < |b'| && x != off && b'[x].dev == 0 ensures l.next[x] == l.prev[x] == -1 {
      assert b'[x].dev == b[x].dev;
    }
  }

  /** A buffer that is on no chain may take another key. */
  lemma NewKey(b: seq<Buffer>, b': seq<Buffer>, l: Links, off: nat)
    requires Table(b, l, off) && |b'| == |b| && forall i | 0 <= i < |b| && i != off :: b'[i] == b[i]
    ensures Table(b', l, off)
  {
    TableSizes(b, l, off);
    hide Hash; hide AllLinked;
    forall h: nat, x: nat | h < NR_HASH && x in l.chain[h]
        ensures x < |b'| && x != off && b'[x].dev != 0 && Hash(b'[x].dev, b'[x].blk) == h {
      OnChain(b, l, off, h, x);
      assert b'[x] == b[x];
    }
    forall x | 0 <= x < |b'| && x != off && b'[x].dev != 0 ensures x in l.chain[Hash(b'[x].dev, b'[x].blk)] {
      assert b'[x] == b[x];
    }
    forall x | 0 <= x < |b'| && x != off && b'[x].dev == 0 ensures l.next[x] == l.prev[x] == -1 {
      assert b'[x] == b[x];
    }
  }

  lemma NotFound(b: seq<Buffer>, l: Links, dev: nat, blk: nat)
    requires Table(b, l, |b|) && dev != 0
    requires forall i | i in l.chain[Hash(dev, blk)] && i < |b| :: !(b[i].dev == dev && b[i].blk == blk)
    ensures Find(b, dev, blk, 0) == |b|
  {}

  lemma StillAbsent(b: seq<Buffer>, b': seq<Buffer>, l: Links, off: nat, dev: nat, blk: nat, r: int)
    requires Table(b', l, off) && |b'| == |b| && forall i | 0 <= i < |b| && i != off :: b'[i] == b[i]
    requires Find(b, dev, blk, 0) == |b| && -1 <= r < |b| && r != off
    requires r >= 0 ==> b'[r].dev == dev && b'[r].blk == blk
    ensures r == -1
  {}

  lemma RingStarts(nf: seq<int>, pf: seq<int>, ring: seq<nat>, k: nat)
    requires RingLinked(nf, pf, ring) && |ring| >= 2 && k < |ring|
    ensures ring[0] == ring[k] <==> k == 0
    ensures nf[ring[k]] != ring[k]
  {}
}
