/** The routines of fs/bitmap.c, fs/inode.c, fs/truncate.c and fs/file_dev.c on the tables they update,
    each equal to its specification. */
module FilesCode {
  import opened Zones
  import opened Truncate
  import opened Files

  class FileSystem {
    const first: nat
    const nzones: nat
    const bits: array<bool>
    const store: array<Block>
    const inodes: array<Inode>

    ghost function Abs(): Fs
      reads bits, store, inodes
    {
      Fs(first, nzones, bits[..], store[..], inodes[..])
    }

    ghost predicate Valid()
      reads bits, store, inodes
    {
      Forest(Abs())
    }

    /** find_first_zero in the zone map block at slot i; BITS when all its bits are set. */
    method FindFirstZero(i: nat) returns (j: nat)
      requires Valid() && (i + 1) * BITS <= bits.Length
      ensures j <= BITS && (j < BITS ==> !bits[i * BITS + j])
      ensures forall k | i * BITS <= k < i * BITS + j :: bits[k]
    {
      j := 0;
      while j < BITS && bits[i * BITS + j]
        invariant 0 <= j <= BITS
        invariant forall k | i * BITS <= k < i * BITS + j :: bits[k]
      {
        j := j + 1;
      }
    }

    /** new_block; 0 when no zone is free. */
    method NewBlock() returns (z: nat)
      requires Valid()
      modifies bits, store
      ensures Valid() && (Abs(), z) == Zones.NewBlock(old(Abs()))
    {
      NewBlockStep(Abs());
      var i, j := 0, BITS;
      while i < 8
        invariant 0 <= i <= 8 && j == BITS && Abs() == old(Abs())
        invariant forall k | 0 <= k < i * BITS && k < bits.Length :: bits[k]
      {
        if (i + 1) * BITS <= bits.Length {
          j := FindFirstZero(i);
          if j < BITS { break; }
        }
        i := i + 1;
      }
      if j >= BITS {
        assert FirstClear(bits[..], 0) == bits.Length;
        return 0;
      }
      var b := i * BITS + j;
      assert FirstClear(bits[..], 0) == b;
      bits[b] := true;
      assert bits[..] == old(bits[..])[b := true];
      z := b + first - 1;
      if z >= nzones { return 0; }
      store[z] := ZeroBlock();
    }

    /** The zone number in slot k of inode i, allocated when create is set and there is none. */
    method ZoneOrNew(i: nat, k: nat, create: bool) returns (z: nat)
      requires Valid() && i < inodes.Length && k < 9
      modifies bits, store, inodes
      ensures Shape(Abs()) && inodes.Length == |Abs().inodes|
      ensures var p := if k < 7 then Direct(k) else if k == 7 then Ind else Dind;
              if create then (Abs(), z) == Ensure(old(Abs()), i, p) else Abs() == old(Abs()) && z == At(Abs(), i, p)
    {
      if create && inodes[i].zone[k] == 0 {
        z := NewBlock();
        inodes[i] := inodes[i].(zone := inodes[i].zone[k := z]);
        assert z == 0 ==> inodes[i].zone == old(inodes[i].zone);
        assert z == 0 ==> inodes[..] == old(inodes[..]);
      }
      z := inodes[i].zone[k];
    }

    /** Word j of table t, at position p of inode i, allocated when create is set and it is 0. */
    method WordOrNew(t: nat, j: nat, create: bool, ghost i: nat, ghost p: Pos) returns (z: nat)
      requires Valid() && i < inodes.Length && ValidPos(p) && j < WORDS && Parent(p) != p && Index(p) == j
      requires 0 < t == At(Abs(), i, Parent(p))
      modifies bits, store
      ensures Shape(Abs())
      ensures if create then (Abs(), z) == Ensure(old(Abs()), i, p) else Abs() == old(Abs()) && z == At(Abs(), i, p)
    {
      z := GetWord(store[t], j);
      assert z == At(Abs(), i, p);
      if create && z == 0 {
        NewBlockStep(Abs());
        z := NewBlock();
        if z != 0 { store[t] := PutWord(store[t], j, z); }
      }
    }

    /** _bmap: bmap without create, create_block with it. */
    method BmapCreate(i: nat, block: nat, create: bool) returns (z: nat)
      requires Valid() && i < inodes.Length && block < MAX_BLOCKS
      modifies bits, store, inodes
      ensures Valid()
      ensures if create then (Abs(), z) == CreateBlock(old(Abs()), i, block)
              else Abs() == old(Abs()) && z == Bmap(Abs(), i, block)
    {
      hide Ensure; hide At; hide Disjoint; hide AllMarked;
      CreateForest(Abs(), i, block);
      ghost var fs := Abs();
      if block < 7 {
        z := ZoneOrNew(i, block, create);
        return;
      }
      var b := block - 7;
      if b < 512 {
        if create { EnsureForest(fs, i, Ind); }
        var t := ZoneOrNew(i, 7, create);
        if t == 0 {
          if !create { Unmapped(fs, i, Ind, IndEntry(b)); }
          return 0;
        }
        z := WordOrNew(t, b, create, i, IndEntry(b));
        return;
      }
      z := BmapDouble(i, b - 512, create);
    }

    /** The part of _bmap on the double-indirect zone. */
    method BmapDouble(i: nat, b: nat, create: bool) returns (z: nat)
      requires Valid() && i < inodes.Length && b + 519 < MAX_BLOCKS
      modifies bits, store, inodes
      ensures Shape(Abs())
      ensures if create then (Abs(), z) == CreateBlock(old(Abs()), i, b + 519)
              else Abs() == old(Abs()) && z == Bmap(Abs(), i, b + 519)
    {
      hide Ensure; hide At; hide Disjoint; hide AllMarked;
      ghost var fs := Abs();
      if create { EnsureForest(fs, i, Dind); }
      var t := ZoneOrNew(i, 8, create);
      if t == 0 {
        if !create { Unmapped(fs, i, Dind, DindEntry(b / WORDS, b % WORDS)); }
        return 0;
      }
      ghost var fs1 := Abs();
      if create { EnsureForest(fs1, i, DindTable(b / WORDS)); }
      var u := WordOrNew(t, b / WORDS, create, i, DindTable(b / WORDS));
      if u == 0 {
        if !create { Unmapped(fs, i, DindTable(b / WORDS), DindEntry(b / WORDS, b % WORDS)); }
        return 0;
      }
      z := WordOrNew(u, b % WORDS, create, i, DindEntry(b / WORDS, b % WORDS));
    }

    // ----- truncate -----

    /** free_block; the guard excludes both panics. */
    method FreeBlock(z: nat)
      requires Shape(Abs()) && first <= z < nzones && Marked(Abs(), z)
      modifies bits
      ensures Shape(Abs()) && Abs() == Zones.FreeBlock(old(Abs()), z)
    {
      bits[z - first + 1] := false;
    }

    /** The first n zones of the list of inode i of fs0 have been freed. */
    ghost predicate Freed(fs0: Fs, i: nat, n: nat)
      reads bits, store, inodes
    {
      Forest(fs0) && i < |fs0.inodes| && n <= |FreedList(fs0, i)| && Abs() == FreeAll(fs0, FreedList(fs0, i)[..n])
    }

    /** Frees the n-th zone of the list: its bit is still set. */
    method FreeNth(z: nat, ghost fs0: Fs, ghost i: nat, ghost n: nat)
      requires Freed(fs0, i, n) && n < |FreedList(fs0, i)| && z == FreedList(fs0, i)[n]
      modifies bits
      ensures Freed(fs0, i, n + 1)
    {
      hide FreedList; hide FreeAll; hide Disjoint; hide AllMarked;
      NeverCleared(fs0, i, n);
      ghost var zs := FreedList(fs0, i);
      FreeAllSnoc(fs0, zs[..n], zs[n]);
      assert zs[..n] + [zs[n]] == zs[..n + 1];
      FreeBlock(z);
    }

    /** free_ind, for the list of zones that starts at the n-th of the inode. */
    method FreeInd(t: nat, ghost fs0: Fs, ghost i: nat, ghost n: nat)
      requires t < 0x1_0000 && Freed(fs0, i, n) && IndList(fs0, t) <= FreedList(fs0, i)[n..]
      modifies bits
      ensures Freed(fs0, i, n + |IndList(fs0, t)|)
    {
      hide FreedList; hide FreeAll; hide Disjoint; hide AllMarked; hide GetWord; hide Words;
      if t == 0 { return; }
      ghost var zs := FreedList(fs0, i);
      ghost var m := n;
      var j := 0;
      while j < WORDS
        invariant 0 <= j <= WORDS && 0 <= m && Freed(fs0, i, m)
        invariant Words(fs0.store[t], j) + [t] <= zs[m..]
        invariant m + |Words(fs0.store[t], j)| == n + |Words(fs0.store[t], 0)|
      {
        NextWord(zs, m, fs0.store[t], j, [t]);
        var w := GetWord(store[t], j);
        if w != 0 {
          FreeNth(w, fs0, i, m);
          m := m + 1;
        }
        j := j + 1;
      }
      NoMoreWords(fs0.store[t]);
      assert zs[m] == zs[m..][0] == t;
      FreeNth(t, fs0, i, m);
    }

    /** free_dind, for the list of zones that starts at the n-th of the inode. */
    method FreeDind(t: nat, ghost fs0: Fs, ghost i: nat, ghost n: nat)
      requires t < 0x1_0000 && Freed(fs0, i, n) && DindList(fs0, t) <= FreedList(fs0, i)[n..]
      modifies bits
      ensures Freed(fs0, i, n + |DindList(fs0, t)|)
    {
      hide FreedList; hide FreeAll; hide Disjoint; hide AllMarked; hide GetWord; hide IndList; hide TableLists;
      if t == 0 { return; }
      ghost var zs := FreedList(fs0, i);
      ghost var m := n;
      var j := 0;
      while j < WORDS
        invariant 0 <= j <= WORDS && 0 <= m && Freed(fs0, i, m)
        invariant TableLists(fs0, t, j) + [t] <= zs[m..]
        invariant m + |TableLists(fs0, t, j)| == n + |TableLists(fs0, t, 0)|
      {
        NextTable(zs, m, fs0, t, j);
        var w := GetWord(store[t], j);
        if w != 0 {
          FreeInd(w, fs0, i, m);
        }
        m := m + |IndList(fs0, w)|;
        j := j + 1;
      }
      NoMoreTables(fs0, t);
      assert zs[m] == zs[m..][0] == t;
      FreeNth(t, fs0, i, m);
    }

    method FreeDirects(ghost fs0: Fs, i: nat)
      requires i < inodes.Length && Freed(fs0, i, 0)
      modifies bits
      ensures Freed(fs0, i, |DirectList(fs0.inodes[i].zone, 0)|)
    {
      hide FreeAll; hide Disjoint; hide AllMarked; hide IndList; hide DindList; hide DirectList;
      ghost var zs := FreedList(fs0, i);
      ghost var m := 0;
      var k := 0;
      while k < 7
        invariant 0 <= k <= 7 && 0 <= m && Freed(fs0, i, m)
        invariant m + |DirectList(fs0.inodes[i].zone, k)| == |DirectList(fs0.inodes[i].zone, 0)|
        invariant DirectList(fs0.inodes[i].zone, k) <= zs[m..]
      {
        NextDirect(zs, m, fs0.inodes[i].zone, k);
        var z := inodes[i].zone[k];
        if z != 0 {
          FreeNth(z, fs0, i, m);
          m := m + 1;
        }
        k := k + 1;
      }
      NoMoreDirects(fs0.inodes[i].zone);
    }

    /** truncate. */
    method TruncateFile(i: nat)
      requires Valid() && i < inodes.Length
      modifies bits, inodes
      ensures Valid() && Abs() == TruncateInode(old(Abs()), i)
    {
      hide FreeAll; hide Disjoint; hide AllMarked; hide IndList; hide DindList; hide DirectList; hide Reached;
      hide Marked;
      if inodes[i].kind.OTHER? { return; }
      ghost var fs0 := Abs();
      TruncateSpec(fs0, i);
      StartFreeing(fs0, i);
      FreeDirects(fs0, i);
      ghost var m := |DirectList(fs0.inodes[i].zone, 0)|;
      FreeInd(inodes[i].zone[7], fs0, i, m);
      m := m + |IndList(fs0, fs0.inodes[i].zone[7])|;
      FreeDind(inodes[i].zone[8], fs0, i, m);
      inodes[i] := inodes[i].(zone := NO_ZONES, size := 0);
    }

    // ----- file_read and file_write -----

    /** file_read: the bytes delivered; the caller's position advances by their number. */
    method FileRead(i: nat, pos: nat, count: nat) returns (bytes: seq<Byte>, pos': nat)
      requires Valid() && i < inodes.Length && pos + count <= MAX_SIZE
      modifies bits, store, inodes
      ensures Valid() && Abs() == old(Abs())
      ensures bytes == ReadLoop(old(Abs()), i, pos, count) && pos' == pos + count
    {
      hide Bmap; hide Disjoint; hide AllMarked; hide CreateBlock; hide ReadLoop;
      ghost var fs := Abs();
      var left := count;
      bytes, pos' := [], pos;
      while left > 0
        invariant 0 <= left <= count && pos' == pos + count - left && Abs() == fs
        invariant bytes + ReadLoop(fs, i, pos', left) == ReadLoop(fs, i, pos, count)
      {
        ReadTurn(fs, i, pos', left, bytes);
        var nr := BmapCreate(i, BlockOf(pos'), false);
        var off := Offset(pos');
        var chars := ChunkLen(pos', left);
        bytes := bytes + if nr != 0 then store[nr][off..off + chars] else seq(chars, k => 0);
        pos', left := pos' + chars, left - chars;
      }
      ReadNothing(fs, i, pos', bytes);
    }

    /** file_write: the number of bytes written, or -1 for none, and the new position. */
    method FileWrite(i: nat, append: bool, fpos: nat, buf: seq<Byte>) returns (ret: int, fpos': nat)
      requires Valid() && i < inodes.Length && (if append then inodes[i].size else fpos) + |buf| <= MAX_SIZE
      modifies bits, store, inodes
      ensures Valid()
      ensures var pos := if append then old(Abs()).inodes[i].size else fpos;
              var (fs', n) := WriteLoop(old(Abs()), i, pos, buf);
              Abs() == fs' && ret == (if n == 0 then -1 else n) && fpos' == (if append then fpos else pos + n)
    {
      hide WriteBlock; hide WriteLoop; hide At; hide Disjoint; hide AllMarked;
      ghost var fs0 := Abs();
      var start := if append then inodes[i].size else fpos;
      var pos, n := start, 0;
      assert buf[0..] == buf;
      while n < |buf|
        invariant 0 <= n <= |buf| && pos == start + n && Valid() && |Abs().inodes| == |fs0.inodes|
        invariant WriteLoop(fs0, i, start, buf) == Shift(WriteLoop(Abs(), i, pos, buf[n..]), n)
        decreases |buf| - n
      {
        var c := ChunkLen(pos, |buf| - n);
        WriteBlockSpec(Abs(), i, pos, buf[n..n + c]);
        WriteTurn(Abs(), i, pos, buf[n..]);
        assert buf[n..][..c] == buf[n..n + c] && buf[n..][c..] == buf[n + c..];
        var ok := WriteOneBlock(i, pos, buf[n..n + c]);
        if !ok { break; }
        pos, n := pos + c, n + c;
      }
      if n == |buf| { WriteNothing(Abs(), i, pos); }
      ret := if n != 0 then n else -1;
      fpos' := if append then fpos else pos;
    }

    /** One turn of the loop of file_write. */
    method WriteOneBlock(i: nat, pos: nat, data: seq<Byte>) returns (ok: bool)
      requires Valid() && i < inodes.Length && pos < MAX_SIZE && Offset(pos) + |data| <= BLOCK
      modifies bits, store, inodes
      ensures (Abs(), ok) == WriteBlock(old(Abs()), i, pos, data)
    {
      hide CreateBlock; hide Disjoint; hide AllMarked; hide WriteChunk;
      var block := BmapCreate(i, BlockOf(pos), true);
      if block == 0 { return false; }
      PutChunk(i, block, pos, data);
      ok := true;
    }

    method PutChunk(i: nat, block: nat, pos: nat, data: seq<Byte>)
      requires Shape(Abs()) && i < inodes.Length && block < 0x1_0000 && Offset(pos) + |data| <= BLOCK
      modifies store, inodes
      ensures Abs() == WriteChunk(old(Abs()), i, block, pos, data)
    {
      store[block] := PutBytes(store[block], Offset(pos), data);
      if pos + |data| > inodes[i].size {
        inodes[i] := inodes[i].(size := pos + |data|);
      }
      assert inodes[..] == old(inodes[..])[i := inodes[i]];
    }
  }

  // ----- one turn of each loop -----

  lemma NextWord(zs: seq<nat>, m: nat, b: Block, j: nat, tail: seq<nat>)
    requires |b| == BLOCK && j < WORDS && m <= |zs| && Words(b, j) + tail <= zs[m..]
    ensures var w := GetWord(b, j);
            if w != 0 then m < |zs| && zs[m] == w && Words(b, j + 1) + tail <= zs[m + 1..]
                && |Words(b, j)| == 1 + |Words(b, j + 1)|
            else Words(b, j + 1) + tail <= zs[m..] && |Words(b, j)| == |Words(b, j + 1)|
  {}

  lemma NoMoreWords(b: Block)
    requires |b| == BLOCK
    ensures Words(b, WORDS) == []
  {}

  lemma NextTable(zs: seq<nat>, m: nat, fs: Fs, t: nat, j: nat)
    requires Shape(fs) && t < 0x1_0000 && j < WORDS && m <= |zs| && TableLists(fs, t, j) + [t] <= zs[m..]
    ensures var ws := IndList(fs, GetWord(fs.store[t], j));
            && ws <= zs[m..] && m + |ws| <= |zs| && TableLists(fs, t, j + 1) + [t] <= zs[m + |ws|..]
            && |TableLists(fs, t, j)| == |ws| + |TableLists(fs, t, j + 1)|
            && (GetWord(fs.store[t], j) == 0 ==> ws == [])
  {
    hide GetWord; hide IndList;
    assert GetWord(fs.store[t], j) == 0 ==> IndList(fs, GetWord(fs.store[t], j)) == [] by { NoIndList(fs); }
    var ws, rest := IndList(fs, GetWord(fs.store[t], j)), TableLists(fs, t, j + 1) + [t];
    assert TableLists(fs, t, j) + [t] == ws + rest;
    AdvanceList(zs, m, ws, rest);
  }

  lemma NoIndList(fs: Fs)
    requires Shape(fs)
    ensures IndList(fs, 0) == []
  {}

  lemma AdvanceList(zs: seq<nat>, m: nat, ws: seq<nat>, rest: seq<nat>)
    requires m <= |zs| && ws + rest <= zs[m..]
    ensures ws <= zs[m..] && m + |ws| <= |zs| && rest <= zs[m + |ws|..]
  {}

  lemma NoMoreTables(fs: Fs, t: nat)
    requires Shape(fs) && t < 0x1_0000
    ensures TableLists(fs, t, WORDS) == []
  {}

  lemma NextDirect(zs: seq<nat>, m: nat, zone: seq<nat>, k: nat)
    requires |zone| == 9 && k < 7 && m <= |zs| && DirectList(zone, k) <= zs[m..]
    ensures if zone[k] != 0 then m < |zs| && zs[m] == zone[k] && DirectList(zone, k + 1) <= zs[m + 1..]
      && |DirectList(zone, k)| == 1 + |DirectList(zone, k + 1)|
            else DirectList(zone, k + 1) <= zs[m..] && |DirectList(zone, k)| == |DirectList(zone, k + 1)|
  {}

  lemma NoMoreDirects(zone: seq<nat>)
    requires |zone| == 9
    ensures DirectList(zone, 7) == []
  {}

  lemma StartFreeing(fs: Fs, i: nat)
    requires Shape(fs) && i < |fs.inodes|
    ensures var zs, zone := FreedList(fs, i), fs.inodes[i].zone;
            var a, b, c := DirectList(zone, 0), IndList(fs, zone[7]), DindList(fs, zone[8]);
            && FreeAll(fs, zs[..0]) == fs && |zs| == |a| + |b| + |c| && zs[..|zs|] == zs
            && a <= zs[0..] && b <= zs[|a|..] && c <= zs[|a| + |b|..]
  {
    hide DirectList; hide IndList; hide DindList;
    var zs, zone := FreedList(fs, i), fs.inodes[i].zone;
    var a, b, c := DirectList(zone, 0), IndList(fs, zone[7]), DindList(fs, zone[8]);
    assert zs == a + (b + c) == (a + b) + c;
    assert zs[|a|..] == b + c && zs[|a| + |b|..] == c && zs[0..] == zs;
  }

  function Shift(r: (Fs, nat), n: nat): (Fs, nat) { (r.0, n + r.1) }

  lemma WriteTurn(fs: Fs, i: nat, pos: nat, buf: seq<Byte>)
    requires Shape(fs) && i < |fs.inodes| && pos + |buf| <= MAX_SIZE && buf != []
    ensures var c := ChunkLen(pos, |buf|);
            var (fs1, ok) := WriteBlock(fs, i, pos, buf[..c]);
            WriteLoop(fs, i, pos, buf) == if ok then Shift(WriteLoop(fs1, i, pos + c, buf[c..]), c) else (fs1, 0)
  {
    hide WriteBlock; hide Shape; hide ChunkLen;
  }

  lemma WriteNothing(fs: Fs, i: nat, pos: nat)
    requires Shape(fs) && i < |fs.inodes| && pos <= MAX_SIZE
    ensures WriteLoop(fs, i, pos, []) == (fs, 0)
  {}

  lemma ReadTurn(fs: Fs, i: nat, pos: nat, left: nat, bytes: seq<Byte>)
    requires Shape(fs) && i < |fs.inodes| && pos + left <= MAX_SIZE && left > 0
    ensures var (z, off, c) := (Bmap(fs, i, BlockOf(pos)), Offset(pos), ChunkLen(pos, left));
            bytes + ReadLoop(fs, i, pos, left)
               == (bytes + if z != 0 then fs.store[z][off..off + c] else seq(c, k => 0))
                   + ReadLoop(fs, i, pos + c, left - c)
  {
    hide Bmap;
  }

  lemma ReadNothing(fs: Fs, i: nat, pos: nat, bytes: seq<Byte>)
    requires Shape(fs) && i < |fs.inodes| && pos <= MAX_SIZE
    ensures bytes + ReadLoop(fs, i, pos, 0) == bytes
  {}

  lemma {:induction false} FreeAllSnoc(fs: Fs, zs: seq<nat>, z: nat)
    requires Shape(fs)
    ensures FreeAll(fs, zs + [z]) == Zones.FreeBlock(FreeAll(fs, zs), z)
    decreases |zs|
  {
    if zs != [] {
      assert (zs + [z])[1..] == zs[1..] + [z];
      FreeAllSnoc(Zones.FreeBlock(fs, zs[0]), zs[1..], z);
    }
  }

  lemma CreateForest(fs: Fs, i: nat, b: nat)
    requires Forest(fs) && i < |fs.inodes| && b < MAX_BLOCKS
    ensures Forest(CreateBlock(fs, i, b).0)
  {
    CreateBlockSpec(fs, i, b);
  }

  lemma EnsureForest(fs: Fs, i: nat, p: Pos)
    requires Forest(fs) && i < |fs.inodes| && ValidPos(p) && HasParent(fs, i, p)
    ensures var (fs', z) := Ensure(fs, i, p); Forest(fs') && At(fs', i, p) == z
  {
    EnsureStep(fs, i, p);
  }

  lemma Unmapped(fs: Fs, i: nat, t: Pos, p: Pos)
    requires Shape(fs) && i < |fs.inodes| && ValidPos(t) && ValidPos(p) && (t == Parent(p) || t == Parent(Parent(p)))
    requires At(fs, i, t) == 0
    ensures At(fs, i, p) == 0
  {}
}
