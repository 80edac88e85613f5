/** file_read and file_write (fs/file_dev.c) over the block trees: every regular file is one byte
    sequence whose holes read as zeros. */
module Files {
  import opened Zones
  import opened Truncate

  const MAX_SIZE: nat := 268966912      // MAX_BLOCKS * BLOCK

  function BlockOf(q: nat): (b: nat)
    ensures q < MAX_SIZE ==> b < MAX_BLOCKS
  {
    q / 1024
  }

  function Offset(q: nat): (k: nat)
    ensures k < BLOCK
  {
    q % 1024
  }

  /** The byte of file i at position q as file_read delivers it: zero in a hole. */
  function FileByte(fs: Fs, i: nat, q: nat): Byte
    requires Shape(fs) && i < |fs.inodes| && q < MAX_SIZE
  {
    var z := Bmap(fs, i, BlockOf(q));
    if z == 0 then 0 else fs.store[z][Offset(q)]
  }

  function PutBytes(b: Block, off: nat, data: seq<Byte>): (r: Block)
    requires |b| == BLOCK && off + |data| <= BLOCK
    ensures |r| == BLOCK
    ensures forall k | 0 <= k < BLOCK :: r[k] == if off <= k < off + |data| then data[k - off] else b[k]
  {
    b[..off] + data + b[off + |data|..]
  }

  function Min(a: int, b: int): int { if a < b then a else b }
  function Max(a: int, b: int): int { if a > b then a else b }

  /** One turn of the loop of file_write once the block is there. */
  function WriteChunk(fs: Fs, i: nat, z: nat, pos: nat, data: seq<Byte>): (r: Fs)
    requires Shape(fs) && i < |fs.inodes| && z < 0x1_0000 && Offset(pos) + |data| <= BLOCK
    ensures Shape(r) && |r.inodes| == |fs.inodes|
  {
    fs.(store := fs.store[z := PutBytes(fs.store[z], Offset(pos), data)],
        inodes := fs.inodes[i := fs.inodes[i].(size := Max(fs.inodes[i].size, pos + |data|))])
  }

  /** The bytes left that lie in the block of position pos. */
  function ChunkLen(pos: nat, left: nat): (c: nat)
    ensures c <= left && Offset(pos) + c <= BLOCK && (left > 0 ==> c > 0)
  {
    Min(BLOCK - Offset(pos), left)
  }

  /** One turn of the loop of file_write; false when no block could be allocated. */
  function WriteBlock(fs: Fs, i: nat, pos: nat, data: seq<Byte>): (r: (Fs, bool))
    requires Shape(fs) && i < |fs.inodes| && pos < MAX_SIZE && Offset(pos) + |data| <= BLOCK
    ensures Shape(r.0) && |r.0.inodes| == |fs.inodes|
  {
    var (fs1, z) := CreateBlock(fs, i, BlockOf(pos));
    if z == 0 then (fs1, false) else (WriteChunk(fs1, i, z, pos, data), true)
  }

  /** The loop of file_write; the second component is the number of bytes written. */
  function WriteLoop(fs: Fs, i: nat, pos: nat, buf: seq<Byte>): (r: (Fs, nat))
    requires Shape(fs) && i < |fs.inodes| && pos + |buf| <= MAX_SIZE
    ensures Shape(r.0) && |r.0.inodes| == |fs.inodes| && r.1 <= |buf|
    decreases |buf|
  {
    if buf == [] then (fs, 0)
    else
      var c := ChunkLen(pos, |buf|);
      var (fs1, ok) := WriteBlock(fs, i, pos, buf[..c]);
      if !ok then (fs1, 0)
      else
        var (fs2, n) := WriteLoop(fs1, i, pos + c, buf[c..]);
        (fs2, c + n)
  }

  /** The loop of file_read: the bytes copied to the caller. */
  function ReadLoop(fs: Fs, i: nat, pos: nat, left: nat): (bytes: seq<Byte>)
    requires Shape(fs) && i < |fs.inodes| && pos + left <= MAX_SIZE
    decreases left
  {
    if left == 0 then []
    else
      var z := Bmap(fs, i, BlockOf(pos));
      var c := ChunkLen(pos, left);
      (if z == 0 then seq(c, k => 0) else fs.store[z][Offset(pos)..Offset(pos) + c])
      + ReadLoop(fs, i, pos + c, left - c)
  }

  // ----- one chunk -----

  /** Writing a data block changes no tree: the block is no table of any inode. */
  lemma DataWriteKeepsTrees(fs: Fs, i: nat, p: Pos, b: Block, i': nat, q: Pos)
    requires Shape(fs) && Disjoint(fs) && i < |fs.inodes| && ValidPos(p) && DataPos(p) && At(fs, i, p) != 0
      && |b| == BLOCK
    requires i' < |fs.inodes| && ValidPos(q)
    ensures var fs' := fs.(store := fs.store[At(fs, i, p) := b]); Shape(fs') && At(fs', i', q) == At(fs, i', q)
  {
    Apart(fs, i, p, i', Ind);
    Apart(fs, i, p, i', Dind);
    if q.DindEntry? { Apart(fs, i, p, i', DindTable(q.j)); }
  }

  lemma Apart(fs: Fs, i: nat, p: Pos, i': nat, q: Pos)
    requires Shape(fs) && Disjoint(fs) && i < |fs.inodes| && ValidPos(p) && i' < |fs.inodes| && ValidPos(q) && p != q
    ensures At(fs, i, p) != 0 ==> At(fs, i, p) != At(fs, i', q)
  {}

  lemma ChunkTrees(fs: Fs, i: nat, p: Pos, pos: nat, data: seq<Byte>)
    requires Forest(fs) && i < |fs.inodes| && ValidPos(p) && DataPos(p) && At(fs, i, p) != 0
      && Offset(pos) + |data| <= BLOCK
    ensures var fs' := WriteChunk(fs, i, At(fs, i, p), pos, data);
            Forest(fs') && forall i', q | 0 <= i' < |fs.inodes| && ValidPos(q) :: At(fs', i', q) == At(fs, i', q)
  {
    var z := At(fs, i, p);
    var fs' := WriteChunk(fs, i, z, pos, data);
    var b := PutBytes(fs.store[z], Offset(pos), data);
    var fs1 := fs.(store := fs.store[z := b]);
    forall i', q | 0 <= i' < |fs.inodes| && ValidPos(q) ensures At(fs', i', q) == At(fs, i', q) {
      DataWriteKeepsTrees(fs, i, p, b, i', q);
      assert At(fs', i', q) == At(fs1, i', q);
    }
    hide At;
    forall i', q | 0 <= i' < |fs.inodes| && ValidPos(q) && At(fs', i', q) != 0 ensures Marked(fs', At(fs', i', q)) {
      assert Marked(fs, At(fs, i', q));
    }
  }

  /** The chunk lands at its position of its file; every other byte of every file stays. */
  lemma ChunkBytes(fs: Fs, i: nat, pos: nat, data: seq<Byte>, f: nat, q: nat)
    requires Forest(fs) && i < |fs.inodes| && pos < MAX_SIZE && Offset(pos) + |data| <= BLOCK
    requires f < |fs.inodes| && q < MAX_SIZE
    requires CreateBlock(fs, i, BlockOf(pos)).1 != 0
    ensures var (fs1, z) := CreateBlock(fs, i, BlockOf(pos));
            && z < 0x1_0000
            && FileByte(WriteChunk(fs1, i, z, pos, data), f, q)
               == if f == i && pos <= q < pos + |data| then data[q - pos] else FileByte(fs, f, q)
  {
    var (fs1, z) := CreateBlock(fs, i, BlockOf(pos));
    var p, r := PosOf(BlockOf(pos)), PosOf(BlockOf(q));
    CreateBlockSpec(fs, i, BlockOf(pos));
    ChunkTrees(fs1, i, p, pos, data);
    hide At; hide CreateBlock; hide Disjoint; hide AllMarked; hide PosOf;
    var fs2 := WriteChunk(fs1, i, z, pos, data);
    if f == i && BlockOf(q) == BlockOf(pos) {
      assert fs2.store[z] == PutBytes(fs1.store[z], Offset(pos), data);
      assert pos <= q < pos + |data| <==> Offset(pos) <= Offset(q) < Offset(pos) + |data|;
      assert fs1.store[z][Offset(q)] == FileByte(fs, f, q);
    } else {
      if BlockOf(q) != BlockOf(pos) && r == p { PosOfInjective(BlockOf(q), BlockOf(pos)); }
      assert At(fs2, f, r) == At(fs1, f, r) == At(fs, f, r);
      if At(fs, f, r) != 0 {
        OtherZone(fs1, i, p, f, r);
        assert fs2.store[At(fs, f, r)] == fs.store[At(fs, f, r)];
      }
      assert !(f == i && pos <= q < pos + |data|);
    }
  }

  lemma OtherZone(fs: Fs, i: nat, p: Pos, f: nat, r: Pos)
    requires Forest(fs) && i < |fs.inodes| && f < |fs.inodes| && ValidPos(p) && ValidPos(r) && (i != f || p != r)
    ensures At(fs, i, p) != 0 ==> At(fs, f, r) != At(fs, i, p)
  {}

  // ----- the loops -----

  /** A write of n bytes at pos changes exactly those n bytes, of this file only, and the size. */
  ghost predicate Wrote(fs: Fs, fs': Fs, i: nat, pos: nat, data: seq<Byte>)
    requires Shape(fs) && Shape(fs') && i < |fs.inodes| && pos + |data| <= MAX_SIZE
  {
    && |fs'.inodes| == |fs.inodes|
    && (forall f, q | 0 <= f < |fs.inodes| && 0 <= q < MAX_SIZE ::
          FileByte(fs', f, q) == if f == i && pos <= q < pos + |data| then data[q - pos] else FileByte(fs, f, q))
    && (forall f | 0 <= f < |fs.inodes| :: fs'.inodes[f].kind == fs.inodes[f].kind)
    && (forall f | 0 <= f < |fs.inodes| && f != i :: fs'.inodes[f].size == fs.inodes[f].size)
    && fs'.inodes[i].size == if data == [] then fs.inodes[i].size else Max(fs.inodes[i].size, pos + |data|)
  }

  /** The block of position q has no zone, and no data zone is left to give it one. */
  ghost predicate Stuck(fs: Fs, i: nat, q: nat)
  {
    && Shape(fs) && i < |fs.inodes| && q < MAX_SIZE && Bmap(fs, i, BlockOf(q)) == 0
    && forall y | fs.first <= y < fs.nzones :: Marked(fs, y)
  }

  lemma WriteBlockSpec(fs: Fs, i: nat, pos: nat, data: seq<Byte>)
    requires Forest(fs) && i < |fs.inodes| && pos + |data| <= MAX_SIZE && data != [] && Offset(pos) + |data| <= BLOCK
    ensures var (fs', ok) := WriteBlock(fs, i, pos, data);
            && Forest(fs') && Wrote(fs, fs', i, pos, if ok then data else [])
            && (!ok ==> Stuck(fs', i, pos))
  {
    var (fs1, z) := CreateBlock(fs, i, BlockOf(pos));
    if z == 0 {
      NoChunk(fs, i, pos);
    } else {
      CreateBlockSpec(fs, i, BlockOf(pos));
      hide FileByte; hide CreateBlock; hide At; hide PosOf; hide Disjoint; hide AllMarked;
      ChunkTrees(fs1, i, PosOf(BlockOf(pos)), pos, data);
      forall f, q | 0 <= f < |fs.inodes| && 0 <= q < MAX_SIZE
        ensures FileByte(WriteChunk(fs1, i, z, pos, data), f, q)
             == if f == i && pos <= q < pos + |data| then data[q - pos] else FileByte(fs, f, q)
      {
        ChunkBytes(fs, i, pos, data, f, q);
      }
    }
  }

  /** A failed allocation shows in no file. */
  lemma NoChunk(fs: Fs, i: nat, pos: nat)
    requires Forest(fs) && i < |fs.inodes| && pos < MAX_SIZE && CreateBlock(fs, i, BlockOf(pos)).1 == 0
    ensures var fs' := CreateBlock(fs, i, BlockOf(pos)).0;
            && Forest(fs') && Wrote(fs, fs', i, pos, [])
            && Stuck(fs', i, pos)
  {
    CreateBlockSpec(fs, i, BlockOf(pos));
    hide CreateBlock; hide At; hide PosOf; hide Disjoint; hide AllMarked;
    var fs' := CreateBlock(fs, i, BlockOf(pos)).0;
    forall f, q | 0 <= f < |fs.inodes| && 0 <= q < MAX_SIZE ensures FileByte(fs', f, q) == FileByte(fs, f, q) {
      assert At(fs', f, PosOf(BlockOf(q))) == At(fs, f, PosOf(BlockOf(q)));
    }
  }

  lemma {:induction false} WriteLoopSpec(fs: Fs, i: nat, pos: nat, buf: seq<Byte>)
    requires Forest(fs) && i < |fs.inodes| && pos + |buf| <= MAX_SIZE
    ensures var (fs', n) := WriteLoop(fs, i, pos, buf);
            && Forest(fs') && Wrote(fs, fs', i, pos, buf[..n])
            && (n < |buf| ==> Stuck(fs', i, pos + n))
    decreases |buf|
  {
    hide FileByte; hide WriteBlock; hide AllMarked; hide Disjoint; hide Wrote; hide ChunkLen; hide Stuck;
    WroteNothing(fs, i, pos);
    if buf != [] {
      var c := ChunkLen(pos, |buf|);
      WriteBlockSpec(fs, i, pos, buf[..c]);
      var (fs1, ok) := WriteBlock(fs, i, pos, buf[..c]);
      if ok {
        WriteLoopSpec(fs1, i, pos + c, buf[c..]);
        var (fs2, n) := WriteLoop(fs1, i, pos + c, buf[c..]);
        assert buf[..c + n] == buf[..c] + buf[c..][..n];
        WroteTwice(fs, fs1, fs2, i, pos, buf[..c], buf[c..][..n]);
      } else {
        assert buf[..0] == [];
      }
    }
  }

  lemma WroteNothing(fs: Fs, i: nat, pos: nat)
    requires Shape(fs) && i < |fs.inodes| && pos <= MAX_SIZE
    ensures Wrote(fs, fs, i, pos, [])
  {}

  lemma WroteTwice(fs: Fs, fs1: Fs, fs2: Fs, i: nat, pos: nat, a: seq<Byte>, b: seq<Byte>)
    requires Shape(fs) && Shape(fs1) && Shape(fs2) && i < |fs.inodes| && pos + |a| + |b| <= MAX_SIZE
    requires Wrote(fs, fs1, i, pos, a) && Wrote(fs1, fs2, i, pos + |a|, b) && a != []
    ensures Wrote(fs, fs2, i, pos, a + b)
  {
    hide FileByte; hide Shape;
    forall f, q | 0 <= f < |fs.inodes| && 0 <= q < MAX_SIZE
      ensures FileByte(fs2, f, q) == if f == i && pos <= q < pos + |a + b| then (a + b)[q - pos] else FileByte(fs, f, q)
    {
      assert FileByte(fs1, f, q) == if f == i && pos <= q < pos + |a| then a[q - pos] else FileByte(fs, f, q);
    }
  }

  /** file_read delivers exactly the bytes of the file from pos on. */
  lemma {:induction false} ReadLoopSpec(fs: Fs, i: nat, pos: nat, left: nat)
    requires Shape(fs) && i < |fs.inodes| && pos + left <= MAX_SIZE
    ensures |ReadLoop(fs, i, pos, left)| == left
    ensures forall k | 0 <= k < left :: ReadLoop(fs, i, pos, left)[k] == FileByte(fs, i, pos + k)
    decreases left
  {
    hide Bmap; hide FileByte; hide ChunkLen; hide BlockOf; hide Offset;
    if left > 0 {
      var z := Bmap(fs, i, BlockOf(pos));
      var c := ChunkLen(pos, left);
      ReadLoopSpec(fs, i, pos + c, left - c);
      var rest := ReadLoop(fs, i, pos + c, left - c);
      var chunk := if z == 0 then seq(c, k => 0) else fs.store[z][Offset(pos)..Offset(pos) + c];
      assert ReadLoop(fs, i, pos, left) == chunk + rest;
      forall k | 0 <= k < left ensures (chunk + rest)[k] == FileByte(fs, i, pos + k) {
        if k < c {
          ChunkRead(fs, i, pos, left, k);
        } else {
          assert rest[k - c] == FileByte(fs, i, pos + c + (k - c));
        }
      }
    }
  }

  lemma ChunkRead(fs: Fs, i: nat, pos: nat, left: nat, k: nat)
    requires Shape(fs) && i < |fs.inodes| && 0 < left && pos + left <= MAX_SIZE && k < ChunkLen(pos, left)
    ensures
      var z := Bmap(fs, i, BlockOf(pos));
      FileByte(fs, i, pos + k) == if z == 0 then 0 else fs.store[z][Offset(pos) + k]
  {
    hide Bmap;
    SameBlock(pos, k);
  }

  lemma SameBlock(pos: nat, k: nat)
    requires Offset(pos) + k < BLOCK
    ensures BlockOf(pos + k) == BlockOf(pos) && Offset(pos + k) == Offset(pos) + k
  {}

  // ----- files as byte sequences -----

  /** Nothing but zeros lies beyond the end of a file. */
  ghost predicate Tails(fs: Fs)
    requires Shape(fs)
  {
    forall i | 0 <= i < |fs.inodes| ::
      fs.inodes[i].size <= MAX_SIZE && forall q | fs.inodes[i].size <= q < MAX_SIZE :: FileByte(fs, i, q) == 0
  }

  ghost predicate FilesInv(fs: Fs)
  {
    Forest(fs) && Tails(fs)
  }

  ghost function Contents(fs: Fs, i: nat): (c: seq<Byte>)
    requires Shape(fs) && i < |fs.inodes| && fs.inodes[i].size <= MAX_SIZE
    ensures |c| == fs.inodes[i].size
    ensures forall q | 0 <= q < |c| :: c[q] == FileByte(fs, i, q)
  {
    seq(fs.inodes[i].size, q requires 0 <= q < fs.inodes[i].size => FileByte(fs, i, q))
  }

  /** Writing data at pos into a byte sequence; a gap before pos is filled with zeros. */
  function FlatWrite(c: seq<Byte>, pos: nat, data: seq<Byte>): (r: seq<Byte>)
  {
    if data == [] then c
    else seq(Max(|c|, pos + |data|), k requires 0 <= k => if pos <= k < pos + |data| then data[k - pos]
        else if k < |c| then c[k] else 0)
  }

  datatype Op =
    | Write(i: nat, append: bool, pos: nat, data: seq<Byte>)
    | Read(i: nat, pos: nat, count: nat)
    | Trunc(i: nat)

  /** What the caller gets: sys_write's count or -1, the bytes read, or nothing. */
  datatype Result = Wrote(ret: int) | Bytes(bytes: seq<Byte>) | None

  predicate Regular(fs: Fs, i: nat) { i < |fs.inodes| && fs.inodes[i].kind.REG? }

  /** One call on a regular file: sys_write, sys_read with its clamp to the file size, or truncate.
      A position that no block number reaches is a panic in _bmap. */
  function Step(fs: Fs, op: Op): (r: (Fs, Result))
    requires Shape(fs)
    ensures Shape(r.0) && |r.0.inodes| == |fs.inodes|
  {
    if !Regular(fs, op.i) then (fs, None)
    else
      match op
      case Write(i, append, fpos, data) =>
        var pos := if append then fs.inodes[i].size else fpos;
        if data == [] then (fs, Result.Wrote(0))
        else if pos + |data| > MAX_SIZE then (fs, None)
        else
          var (fs', n) := WriteLoop(fs, i, pos, data);
          (fs', Result.Wrote(if n == 0 then -1 else n))
      case Read(i, pos, count) =>
        var n := Min(count, fs.inodes[i].size - pos);
        if n <= 0 || pos + n > MAX_SIZE then (fs, Bytes([])) else (fs, Bytes(ReadLoop(fs, i, pos, n)))
      case Trunc(i) => (TruncateInode(fs, i), None)
  }

  function Run(fs: Fs, ops: seq<Op>): (r: (Fs, seq<Result>))
    requires Shape(fs)
    ensures Shape(r.0) && |r.0.inodes| == |fs.inodes| && |r.1| == |ops|
    decreases |ops|
  {
    if ops == [] then (fs, [])
    else
      var (fs1, res) := Step(fs, ops[0]);
      var (fs2, rs) := Run(fs1, ops[1..]);
      (fs2, [res] + rs)
  }

  /** The regular files as byte sequences; other inodes are not files. */
  type Flat = map<nat, seq<Byte>>

  ghost predicate Represents(fs: Fs, m: Flat)
    requires FilesInv(fs)
  {
    && (forall i | 0 <= i < |fs.inodes| && fs.inodes[i].kind.REG? :: i in m && m[i] == Contents(fs, i))
    && (forall i | i in m :: i < |fs.inodes| && fs.inodes[i].kind.REG?)
  }

  /** The effect on byte sequences.  A short write, by its count, takes the front of the data. */
  function FlatStep(m: Flat, op: Op, res: Result): Flat
  {
    if op.i !in m then m
    else
      match op
      case Write(i, append, fpos, data) =>
        if res.Wrote? && 0 <= res.ret <= |data|
        then m[i := FlatWrite(m[i], if append then |m[i]| else fpos, data[..res.ret])]
        else m
      case Read(_, _, _) => m
      case Trunc(i) => m[i := []]
  }

  /** What a caller may see: reads deliver the bytes of the sequence, up to its end; a write that would pass
      the largest size is refused, and any other takes all its data or stops where the file system, left as
      fs, has no zone to give. */
  ghost predicate Allowed(m: Flat, op: Op, res: Result, fs: Fs)
  {
    if op.i !in m then res.None?
    else
      match op
      case Write(i, append, fpos, data) =>
        var pos := if append then |m[i]| else fpos;
        if data == [] then res == Result.Wrote(0)
        else if pos + |data| > MAX_SIZE then res.None?
        else
          res.Wrote? &&
          (res.ret == |data|
           || (res.ret == -1 && Stuck(fs, i, pos))
           || (0 < res.ret < |data| && Stuck(fs, i, pos + res.ret)))
      case Read(i, pos, count) =>
        res == Bytes(if pos >= |m[i]| then [] else m[i][pos..Min(pos + count, |m[i]|)])
      case Trunc(_) => res.None?
  }

  /** The file systems that the calls of a run leave, one after the other. */
  function Trace(fs: Fs, ops: seq<Op>): (left: seq<Fs>)
    requires Shape(fs)
    ensures |left| == |ops|
    decreases |ops|
  {
    if ops == [] then [] else [Step(fs, ops[0]).0] + Trace(Step(fs, ops[0]).0, ops[1..])
  }

  ghost predicate AllAllowed(m: Flat, ops: seq<Op>, rs: seq<Result>, left: seq<Fs>)
    requires |ops| == |rs| == |left|
    decreases |ops|
  {
    ops == [] || (Allowed(m, ops[0], rs[0], left[0])
                  && AllAllowed(FlatStep(m, ops[0], rs[0]), ops[1..], rs[1..], left[1..]))
  }

  function FlatRun(m: Flat, ops: seq<Op>, rs: seq<Result>): Flat
    requires |ops| == |rs|
    decreases |ops|
  {
    if ops == [] then m else FlatRun(FlatStep(m, ops[0], rs[0]), ops[1..], rs[1..])
  }

  lemma WriteKeepsFiles(fs: Fs, fs': Fs, i: nat, pos: nat, data: seq<Byte>)
    requires FilesInv(fs) && Forest(fs') && i < |fs.inodes| && pos + |data| <= MAX_SIZE && Wrote(fs, fs', i, pos, data)
    ensures FilesInv(fs') && Contents(fs', i) == FlatWrite(Contents(fs, i), pos, data)
    ensures forall f | 0 <= f < |fs.inodes| && f != i :: Contents(fs', f) == Contents(fs, f)
  {
    hide FileByte; hide AllMarked; hide Disjoint; hide Shape;
    WriteKeepsTails(fs, fs', i, pos, data);
    forall f | 0 <= f < |fs.inodes|
      ensures Contents(fs', f) == if f == i then FlatWrite(Contents(fs, i), pos, data) else Contents(fs, f)
    {
      WriteContents(fs, fs', i, pos, data, f);
    }
  }

  lemma WriteKeepsTails(fs: Fs, fs': Fs, i: nat, pos: nat, data: seq<Byte>)
    requires Shape(fs) && Tails(fs) && Shape(fs') && i < |fs.inodes| && pos + |data| <= MAX_SIZE
      && Wrote(fs, fs', i, pos, data)
    ensures Tails(fs')
  {
    hide FileByte; hide Shape;
    forall f | 0 <= f < |fs'.inodes|
      ensures fs'.inodes[f].size <= MAX_SIZE && forall q | fs'.inodes[f].size <= q < MAX_SIZE ::
        FileByte(fs', f, q) == 0
    {
      assert fs.inodes[f].size <= MAX_SIZE;
    }
  }

  lemma WriteContents(fs: Fs, fs': Fs, i: nat, pos: nat, data: seq<Byte>, f: nat)
    requires Shape(fs) && Tails(fs) && Shape(fs') && Tails(fs') && i < |fs.inodes| && pos + |data| <= MAX_SIZE
      && Wrote(fs, fs', i, pos, data)
    requires f < |fs.inodes|
    ensures Contents(fs', f) == if f == i then FlatWrite(Contents(fs, f), pos, data) else Contents(fs, f)
  {
    hide FileByte; hide Shape;
    var c, c' := Contents(fs, f), Contents(fs', f);
    if f != i || data == [] {
      assert c' == c;
    } else {
      var w := FlatWrite(c, pos, data);
      assert |c'| == |w|;
      forall k | 0 <= k < |w| ensures c'[k] == w[k] {
        assert c'[k] == FileByte(fs', i, k);
      }
    }
  }

  lemma StepRefines(fs: Fs, op: Op, m: Flat)
    requires FilesInv(fs) && Represents(fs, m)
    ensures var (fs', res) := Step(fs, op);
            && FilesInv(fs') && Allowed(m, op, res, fs') && Represents(fs', FlatStep(m, op, res))
  {
    hide FileByte; hide AllMarked; hide Disjoint; hide WriteLoop; hide ReadLoop; hide TruncateInode; hide Contents;
    hide FlatWrite;
    if Regular(fs, op.i) {
      match op
      case Write(i, append, fpos, data) =>
        WriteRefines(fs, i, append, fpos, data, m);
      case Read(i, pos, count) =>
        ReadRefines(fs, i, pos, count, m);
      case Trunc(i) =>
        TruncateSpec(fs, i);
        TruncKeepsFiles(fs, i);
    }
  }

  lemma WriteRefines(fs: Fs, i: nat, append: bool, fpos: nat, data: seq<Byte>, m: Flat)
    requires FilesInv(fs) && Represents(fs, m) && Regular(fs, i)
    ensures var ((fs', res), op) := (Step(fs, Write(i, append, fpos, data)), Write(i, append, fpos, data));
            && FilesInv(fs') && Allowed(m, op, res, fs') && Represents(fs', FlatStep(m, op, res))
  {
    hide FileByte; hide AllMarked; hide Disjoint; hide WriteLoop; hide Contents; hide FlatWrite; hide Tails; hide Stuck;
    assert fs.inodes[i].size == |m[i]| by { SizeOf(fs, i, m); }
    var pos := if append then fs.inodes[i].size else fpos;
    FlatWriteNothing(m[i], pos);
    if data == [] {
      assert m[i := m[i]] == m;
    } else if pos + |data| <= MAX_SIZE {
      WriteLoopSpec(fs, i, pos, data);
      var (fs', n) := WriteLoop(fs, i, pos, data);
      WriteKeepsFiles(fs, fs', i, pos, data[..n]);
      assert data[..0] == [];
    }
  }

  lemma FlatWriteNothing(c: seq<Byte>, pos: nat)
    ensures FlatWrite(c, pos, []) == c
  {}

  lemma SizeOf(fs: Fs, i: nat, m: Flat)
    requires FilesInv(fs) && Represents(fs, m) && Regular(fs, i)
    ensures i in m && |m[i]| == fs.inodes[i].size <= MAX_SIZE
  {
  }

  lemma ReadRefines(fs: Fs, i: nat, pos: nat, count: nat, m: Flat)
    requires FilesInv(fs) && Represents(fs, m) && Regular(fs, i)
    ensures Allowed(m, Read(i, pos, count), Step(fs, Read(i, pos, count)).1, fs)
  {
    hide FileByte; hide AllMarked; hide Disjoint; hide ReadLoop;
    SizeOf(fs, i, m);
    var n := Min(count, fs.inodes[i].size - pos);
    if n > 0 {
      ReadLoopSpec(fs, i, pos, n);
      assert ReadLoop(fs, i, pos, n) == m[i][pos..pos + n];
    }
  }

  lemma TruncKeepsFiles(fs: Fs, i: nat)
    requires FilesInv(fs) && i < |fs.inodes| && fs.inodes[i].kind.REG?
    ensures var fs' := TruncateInode(fs, i);
            && FilesInv(fs') && Contents(fs', i) == [] && |fs'.inodes| == |fs.inodes| && fs'.inodes[i].kind.REG?
            && forall f | 0 <= f < |fs.inodes| && f != i ::
              fs'.inodes[f] == fs.inodes[f] && Contents(fs', f) == Contents(fs, f)
  {
    TruncateSpec(fs, i);
    hide TruncateInode; hide At; hide AllMarked; hide Disjoint;
    var fs' := TruncateInode(fs, i);
    forall f, q | 0 <= f < |fs.inodes| && 0 <= q < MAX_SIZE
      ensures FileByte(fs', f, q) == if f == i then 0 else FileByte(fs, f, q)
    {
      assert At(fs', f, PosOf(BlockOf(q))) == if f == i then 0 else At(fs, f, PosOf(BlockOf(q)));
    }
  }

  lemma FilesShape(fs: Fs)
    requires FilesInv(fs)
    ensures Shape(fs)
  {}

  /** Over every run of writes, reads and truncations of any files, each regular file behaves as one byte
      sequence: what is read is what was written there last, or zero in a hole.  A write is refused exactly
      when it would pass the largest size, and stops short only where no zone is left. */
  lemma {:induction false} FilesAreByteSequences(fs: Fs, ops: seq<Op>, m: Flat)
    requires FilesInv(fs) && Represents(fs, m)
    ensures var (fs', rs) := Run(fs, ops);
            FilesInv(fs') && AllAllowed(m, ops, rs, Trace(fs, ops)) && Represents(fs', FlatRun(m, ops, rs))
    decreases |ops|
  {
    FilesShape(fs);
    hide FilesInv; hide Represents; hide Step; hide FlatStep; hide Allowed;
    if ops != [] {
      StepRefines(fs, ops[0], m);
      var (fs1, res) := Step(fs, ops[0]);
      FilesAreByteSequences(fs1, ops[1..], FlatStep(m, ops[0], res));
      var rs := Run(fs1, ops[1..]).1;
      assert ([res] + rs)[1..] == rs && ([res] + rs)[0] == res;
      assert Trace(fs, ops) == [fs1] + Trace(fs1, ops[1..]);
    }
  }
}
