/** What names mean (fs/namei.c): the inode a path leads to, told from the entries of directories alone, and
    what a call does to the names in the directory it works on. */
module Naming {
  import opened LinkCounts

  /** Live directory d has an entry with this name for inode x. */
  ghost predicate Has(fs: Fs, d: nat, name: string, x: nat)
  {
    Live(fs, d) && x != 0 && Entry(x, name) in fs.node[d].entries
  }

  /** Each directory of the chain has the next component, cut off at NAME_LEN, for the next one. */
  ghost predicate Chain(fs: Fs, path: seq<string>, chain: seq<nat>)
  {
    && |chain| == |path| + 1
    && (forall i | 0 <= i < |chain| :: Live(fs, chain[i]))
    && (forall i | 0 <= i < |path| :: path[i] != "" && Has(fs, chain[i], Trunc(path[i]), chain[i + 1]))
  }

  /** The path leads from directory d to directory r. */
  ghost predicate LeadsTo(fs: Fs, d: nat, path: seq<string>, r: nat)
  {
    exists chain :: Chain(fs, path, chain) && chain[0] == d && chain[|path|] == r
  }

  /** The path and the name after its last slash mean inode x. */
  ghost predicate Means(fs: Fs, start: nat, path: seq<string>, name: string, x: nat)
  {
    name != "" && exists d :: LeadsTo(fs, start, path, d) && Has(fs, d, Trunc(name), x)
  }

  // ----- the walk -----

  lemma FindHas(fs: Fs, d: nat, name: string, x: nat)
    requires Inv(fs) && Live(fs, d)
    ensures var e := fs.node[d].entries;
            var k := FindEntry(e, name, 0);
            Has(fs, d, name, x) <==> k < |e| && x == e[k].ino
  {
    var e := fs.node[d].entries;
    var k := FindEntry(e, name, 0);
    assert DistinctNames(e) by {
      hide DistinctNames, Holds, Tree;
      assert GoodDir(fs, d);
    }
    if k < |e| { assert e[k] == Entry(e[k].ino, name); }
    if Has(fs, d, name, x) {
      var j :| 0 <= j < |e| && e[j] == Entry(x, name);
    }
  }

  /** get_dir ends where the path leads, and with nothing when it leads nowhere. */
  lemma {:induction false} WalkLeads(fs: Fs, d: nat, path: seq<string>, r: nat)
    requires Inv(fs)
    ensures r != 0 ==> (Walk(fs, d, path) == r <==> LeadsTo(fs, d, path, r))
    ensures Walk(fs, d, path) == 0 <==> !exists r :: LeadsTo(fs, d, path, r)
    decreases |path|
  {
    WalkForward(fs, d, path);
    forall r: nat | LeadsTo(fs, d, path, r) ensures Walk(fs, d, path) == r != 0 {
      var chain :| Chain(fs, path, chain) && chain[0] == d && chain[|path|] == r;
      WalkBack(fs, path, chain);
      NotZero(fs, r);
    }
  }

  lemma NotZero(fs: Fs, r: nat)
    requires Inv(fs) && Live(fs, r)
    ensures r != 0
  {}

  lemma {:induction false} WalkForward(fs: Fs, d: nat, path: seq<string>)
    requires Inv(fs)
    ensures Walk(fs, d, path) != 0 ==> LeadsTo(fs, d, path, Walk(fs, d, path))
    decreases |path|
  {
    hide Inv, Has;
    if Walk(fs, d, path) != 0 {
      if path == [] {
        assert Chain(fs, path, [d]);
      } else {
        var e := fs.node[d].entries;
        var k := FindEntry(e, Trunc(path[0]), 0);
        FindHas(fs, d, Trunc(path[0]), e[k].ino);
        WalkForward(fs, e[k].ino, path[1..]);
        var rest :| Chain(fs, path[1..], rest) && rest[0] == e[k].ino && rest[|path| - 1] == Walk(fs, d, path);
        ChainCons(fs, d, path, rest);
        assert ([d] + rest)[|path|] == rest[|path| - 1];
      }
    }
  }

  lemma ChainCons(fs: Fs, d: nat, path: seq<string>, rest: seq<nat>)
    requires path != [] && path[0] != "" && Chain(fs, path[1..], rest) && Live(fs, d)
    requires Has(fs, d, Trunc(path[0]), rest[0])
    ensures Chain(fs, path, [d] + rest)
  {
    hide Has, Live;
    var chain := [d] + rest;
    forall i | 0 <= i < |path| ensures path[i] != "" && Has(fs, chain[i], Trunc(path[i]), chain[i + 1]) {
      if i > 0 { assert path[i] == path[1..][i - 1]; }
    }
  }

  lemma ChainTail(fs: Fs, path: seq<string>, chain: seq<nat>)
    requires path != [] && Chain(fs, path, chain)
    ensures Chain(fs, path[1..], chain[1..])
  {
    hide Has, Live;
    forall i | 0 <= i < |path| - 1 ensures Has(fs, chain[1..][i], Trunc(path[1..][i]), chain[1..][i + 1]) {
      assert Has(fs, chain[i + 1], Trunc(path[i + 1]), chain[i + 1 + 1]);
    }
  }

  lemma {:induction false} WalkBack(fs: Fs, path: seq<string>, chain: seq<nat>)
    requires Inv(fs) && Chain(fs, path, chain)
    ensures Walk(fs, chain[0], path) == chain[|path|]
    decreases |path|
  {
    hide Inv, Has;
    if path != [] {
      ChainTail(fs, path, chain);
      assert Has(fs, chain[0], Trunc(path[0]), chain[1]);
      FindHas(fs, chain[0], Trunc(path[0]), chain[1]);
      WalkBack(fs, path[1..], chain[1..]);
    }
  }

  // ----- what a call does to names and inodes -----

  /** The uses of inode x change by by1; without uses and names it is freed. */
  ghost predicate Kept(fs: Fs, fs': Fs, x: nat, by1: int)
    requires x < |fs.node| == |fs'.node|
  {
    if fs.node[x].Free? then fs'.node[x].Free?
    else if fs'.node[x].Used? then fs'.node[x].kind == fs.node[x].kind && fs'.node[x].count == fs.node[x].count + by1
    else fs.node[x].count + by1 == 0 && forall d: nat, name :: !Has(fs', d, name, x)
  }

  /** Every inode other than x stays as it is but for its links. */
  ghost predicate KeptBut(fs: Fs, fs': Fs, x: nat)
  {
    |fs'.node| == |fs.node| && forall y | 0 <= y < |fs.node| && y != x :: Kept(fs, fs', y, 0)
  }

  ghost predicate SameDirs(fs: Fs, fs': Fs)
  {
    forall d: nat :: Live(fs', d) <==> Live(fs, d)
  }

  /** A call with no effect on names adds by1 to the uses of x. */
  ghost predicate UsesOnly(fs: Fs, fs': Fs, x: nat, by1: int)
  {
    && KeptBut(fs, fs', x) && x < |fs.node| && fs.node[x].Used? && Kept(fs, fs', x, by1) && SameDirs(fs, fs')
    && forall e: nat, m, y: nat :: Has(fs', e, m, y) <==> Has(fs, e, m, y)
  }

  /** The one change of names is that d now has this name for x. */
  ghost predicate Adds(fs: Fs, fs': Fs, d: nat, name: string, x: nat)
  {
    && SameDirs(fs, fs')
    && forall e: nat, m, y: nat :: Has(fs', e, m, y) <==> Has(fs, e, m, y) || (e, m, y) == (d, name, x)
  }

  /** The one change of names is that d has this name no longer. */
  ghost predicate Drops(fs: Fs, fs': Fs, d: nat, name: string)
  {
    SameDirs(fs, fs') && forall e: nat, m, y: nat :: Has(fs', e, m, y) <==> Has(fs, e, m, y) && (e, m) != (d, name)
  }

  /** The first free inode, from 1 on. */
  predicate FirstFree(fs: Fs, x: nat)
  {
    1 <= x < |fs.node| && fs.node[x].Free? && forall y | 1 <= y < x :: fs.node[y].Used?
  }

  lemma FreeFound(fs: Fs, x: nat)
    requires Inv(fs)
    ensures FirstFree(fs, x) <==> x == FreeInode(fs.node, 1) < |fs.node|
  {}

  // ----- entries -----

  lemma PlacedHas(e: seq<Entry>, name: string, x: nat, m: string, y: nat)
    requires y != 0 && x != 0
    ensures Entry(y, m) in Place(e, FreeEntry(e, 0), Entry(x, name)) <==> Entry(y, m) in e || (y, m) == (x, name)
  {
    var j := FreeEntry(e, 0);
    var e' := Place(e, j, Entry(x, name));
    assert e'[j] == Entry(x, name);
    if Entry(y, m) in e {
      var i :| 0 <= i < |e| && e[i] == Entry(y, m);
      assert e'[i] == Entry(y, m);
    }
  }

  lemma DroppedHas(e: seq<Entry>, k: nat, name: string, m: string, y: nat)
    requires DistinctNames(e) && k < |e| && e[k].ino != 0 && e[k].name == name && y != 0
    ensures Entry(y, m) in e[k := Entry(0, name)] <==> Entry(y, m) in e && m != name
  {
    var e' := e[k := Entry(0, name)];
    if Entry(y, m) in e && m != name {
      var i :| 0 <= i < |e| && e[i] == Entry(y, m);
      assert e'[i] == Entry(y, m);
    }
  }

  lemma NamesDistinct(fs: Fs, d: nat)
    requires Inv(fs) && Live(fs, d)
    ensures DistinctNames(fs.node[d].entries)
  {
    hide DistinctNames, Holds, Tree;
    assert GoodDir(fs, d);
  }

  /** Directory d gets a name for x; only d and x differ. */
  lemma AddedHas(fs: Fs, fs': Fs, d: nat, name: string, x: nat)
    requires Live(fs, d) && x != 0 && SameElse(fs, fs', d) && Live(fs', d)
    requires fs'.node[d].entries == Place(fs.node[d].entries, FreeEntry(fs.node[d].entries, 0), Entry(x, name))
    ensures Adds(fs, fs', d, name, x)
  {
    var e := fs.node[d].entries;
    forall m, y: nat | y != 0
      ensures Entry(y, m) in fs'.node[d].entries <==> Entry(y, m) in e || (y, m) == (x, name)
    {
      PlacedHas(e, name, x, m, y);
    }
    hide Place, FreeEntry;
    forall c: nat, m, y: nat ensures Has(fs', c, m, y) <==> Has(fs, c, m, y) || (c, m, y) == (d, name, x) {}
  }

  lemma DroppedFrom(fs: Fs, fs': Fs, d: nat, k: nat, name: string)
    requires Inv(fs) && Live(fs, d) && SameElse(fs, fs', d) && Live(fs', d) && k < |fs.node[d].entries|
    requires fs.node[d].entries[k].ino != 0 && fs.node[d].entries[k].name == name
    requires fs'.node[d].entries == fs.node[d].entries[k := Entry(0, name)]
    ensures Drops(fs, fs', d, name)
  {
    NamesDistinct(fs, d);
    hide Inv;
    var e := fs.node[d].entries;
    forall m, y: nat | y != 0
      ensures Entry(y, m) in fs'.node[d].entries <==> Entry(y, m) in e && m != name
    {
      DroppedHas(e, k, name, m, y);
    }
    hide DistinctNames;
    forall c: nat, m, y: nat ensures Has(fs', c, m, y) <==> Has(fs, c, m, y) && (c, m) != (d, name) {}
  }

  // ----- what stays reachable -----

  /** A path still leads where it led when its directories and their entries for directories are still there. */
  lemma LeadsStill(fs: Fs, fs': Fs, d: nat, path: seq<string>, r: nat)
    requires forall e :: Live(fs, e) ==> Live(fs', e)
    requires forall e: nat, m, y: nat :: Has(fs, e, m, y) && Live(fs, y) ==> Has(fs', e, m, y)
    requires LeadsTo(fs, d, path, r)
    ensures LeadsTo(fs', d, path, r)
  {
    hide Live, Has;
    var chain :| Chain(fs, path, chain) && chain[0] == d && chain[|path|] == r;
    assert Chain(fs', path, chain);
  }

  lemma LeadsOnce(fs: Fs, d: nat, path: seq<string>, r: nat, r': nat)
    requires Inv(fs) && LeadsTo(fs, d, path, r) && LeadsTo(fs, d, path, r')
    ensures r == r' != 0 && Live(fs, r)
  {
    WalkLeads(fs, d, path, r);
    WalkLeads(fs, d, path, r');
    forall q | LeadsTo(fs, d, path, q) ensures Live(fs, q) {
      hide Inv;
      var chain :| Chain(fs, path, chain) && chain[0] == d && chain[|path|] == q;
    }
    NotZero(fs, r);
  }

  // ----- the calls, inside the directory -----

  ghost predicate AllKept(fs: Fs, fs': Fs)
  {
    |fs'.node| == |fs.node| && forall y | 0 <= y < |fs.node| :: Kept(fs, fs', y, 0)
  }

  predicate IsFile(fs: Fs, x: nat) { x < |fs.node| && fs.node[x].Used? && fs.node[x].kind.REG? }

  ghost predicate NoName(fs: Fs, d: nat, name: string) { forall x :: !Has(fs, d, name, x) }

  /** A directory with no names but "." and "..". */
  ghost predicate Bare(fs: Fs, x: nat) { Live(fs, x) && forall m, y :: Has(fs, x, m, y) ==> m == "." || m == ".." }

  /** Inode x, free before, is a new file in use once, with this name in d. */
  ghost predicate MadeFile(fs: Fs, fs': Fs, d: nat, name: string, x: nat)
  {
    && FirstFree(fs, x) && KeptBut(fs, fs', x) && Adds(fs, fs', d, name, x)
    && fs'.node[x].Used? && fs'.node[x].kind.REG? && fs'.node[x].count == 1
  }

  /** Inode x, free before, is a new directory not in use, with this name in d, "." for itself and ".." for d. */
  ghost predicate MadeDir(fs: Fs, fs': Fs, d: nat, name: string, x: nat)
  {
    && FirstFree(fs, x) && KeptBut(fs, fs', x)
    && (forall e: nat :: Live(fs', e) <==> Live(fs, e) || e == x)
    && (forall e: nat, m, y: nat :: Has(fs', e, m, y) <==>
          Has(fs, e, m, y) || (e, m, y) == (d, name, x) || (e, m, y) == (x, ".", x) || (e, m, y) == (x, "..", d))
    && fs'.node[x].Used? && fs'.node[x].kind.DIR? && fs'.node[x].count == 0
  }

  /** Directory x is gone, with its name in d and its own names. */
  ghost predicate RemovedDir(fs: Fs, fs': Fs, d: nat, name: string, x: nat)
  {
    && AllKept(fs, fs')
    && (forall e: nat :: Live(fs', e) <==> Live(fs, e) && e != x)
    && (forall e: nat, m, y: nat :: Has(fs', e, m, y) <==> Has(fs, e, m, y) && (e, m) != (d, name) && e != x)
  }

  /** What a directory names is in use or linked. */
  lemma HasUsed(fs: Fs, d: nat, name: string, x: nat)
    requires Inv(fs) && Has(fs, d, name, x)
    ensures x < |fs.node| && fs.node[x].Used? && fs.node[x].nlinks > 0
  {
    var k :| 0 <= k < |fs.node[d].entries| && fs.node[d].entries[k] == Entry(x, name);
    NamedIsLinked(fs, d, k);
  }

  lemma FreedUnnamed(fs: Fs, x: nat)
    requires Inv(fs) && x < |fs.node| && fs.node[x].Free?
    ensures forall d: nat, name :: !Has(fs, d, name, x)
  {
    forall d: nat, name ensures !Has(fs, d, name, x) {
      if Has(fs, d, name, x) { HasUsed(fs, d, name, x); }
    }
  }

  lemma PinEffect(fs: Fs, x: nat)
    requires Inv(fs) && x < |fs.node| && fs.node[x].Used?
    ensures UsesOnly(fs, Pin(fs, x), x, 1)
  {
    hide Inv;
  }

  lemma CloseEffect(fs: Fs, x: nat)
    requires Inv(fs)
    ensures if x < |fs.node| && fs.node[x].Used? && fs.node[x].count > 0 then UsesOnly(fs, DoClose(fs, x), x, -1)
            else DoClose(fs, x) == fs
  {
    CloseKeeps(fs, x);
    var fs' := DoClose(fs, x);
    if x < |fs'.node| && fs'.node[x].Free? { FreedUnnamed(fs', x); }
    hide Inv;
  }

  /** What find_entry and new_inode find. */
  lemma Found(fs: Fs, d: nat, name: string)
    requires Inv(fs) && Live(fs, d)
    ensures
      var e := fs.node[d].entries;
      var k := FindEntry(e, name, 0);
      if k < |e| then
        && Has(fs, d, name, e[k].ino) && (forall x | Has(fs, d, name, x) :: x == e[k].ino)
        && 0 < e[k].ino < |fs.node| && fs.node[e[k].ino].Used? && fs.node[e[k].ino].nlinks > 0
      else NoName(fs, d, name)
  {
    var e := fs.node[d].entries;
    var k := FindEntry(e, name, 0);
    forall x ensures Has(fs, d, name, x) <==> k < |e| && x == e[k].ino { FindHas(fs, d, name, x); }
    if k < |e| { HasUsed(fs, d, name, e[k].ino); }
  }

  lemma InodeFound(fs: Fs)
    requires Inv(fs)
    ensures var x := FreeInode(fs.node, 1);
            && (x < |fs.node| <==> exists y :: FirstFree(fs, y))
            && (x < |fs.node| ==> FirstFree(fs, x))
            && forall y | FirstFree(fs, y) :: x == y
  {
    hide FirstFree, FreeInode;
    var x := FreeInode(fs.node, 1);
    forall y: nat ensures FirstFree(fs, y) <==> y == x < |fs.node| { FreeFound(fs, y); }
    assert FirstFree(fs, x) <==> x < |fs.node|;
  }

  lemma OpenEffect(fs: Fs, d: nat, name: string, creat: bool, write: bool, room: bool)
    requires Inv(fs) && Live(fs, d)
    ensures var fs' := DoOpen(fs, d, name, creat, write, room);
            && (forall x | Has(fs, d, name, x) :: UsesOnly(fs, fs', x, 1))
            && (NoName(fs, d, name) ==>
                  if creat && write && room && exists x :: FirstFree(fs, x)
                  then exists x :: MadeFile(fs, fs', d, name, x) else fs' == fs)
  {
    var e := fs.node[d].entries;
    var k := FindEntry(e, name, 0);
    Found(fs, d, name);
    InodeFound(fs);
    if k < |e| {
      PinEffect(fs, e[k].ino);
    } else if creat && write && room && FreeInode(fs.node, 1) < |fs.node| {
      CreateEffect(fs, d, name);
    }
    hide Inv, Has, FirstFree, MadeFile, UsesOnly, FindEntry, FreeInode;
  }

  /** Directory d, which gets other entries, and inode x, which is no directory, are all that differs. */
  ghost predicate OnlyAt(fs: Fs, fs': Fs, d: nat, x: nat, entries: seq<Entry>)
  {
    && Live(fs, d) && x != d && !Live(fs, x) && !Live(fs', x)
    && |fs'.node| == |fs.node| && (forall y | 0 <= y < |fs.node| && y != x && y != d :: fs'.node[y] == fs.node[y])
    && fs'.node[d] == fs.node[d].(entries := entries)
  }

  lemma OnlyAtKeeps(fs: Fs, fs': Fs, d: nat, x: nat, entries: seq<Entry>)
    requires OnlyAt(fs, fs', d, x, entries)
    ensures SameElse(fs, fs', d) && Live(fs', d) && fs'.node[d].entries == entries && KeptBut(fs, fs', x)
  {
    hide Has;
  }

  lemma CreateEffect(fs: Fs, d: nat, name: string)
    requires Inv(fs) && Live(fs, d) && FindEntry(fs.node[d].entries, name, 0) == |fs.node[d].entries|
    requires FreeInode(fs.node, 1) < |fs.node|
    ensures MadeFile(fs, DoOpen(fs, d, name, true, true, true), d, name, FreeInode(fs.node, 1))
  {
    var x, e := FreeInode(fs.node, 1), fs.node[d].entries;
    FreeFound(fs, x);
    var fs' := DoOpen(fs, d, name, true, true, true);
    hide Inv, FindEntry, FreeInode, Place, FreeEntry, FirstFree, KeptBut, SameElse, Adds;
    OnlyAtKeeps(fs, fs', d, x, Place(e, FreeEntry(e, 0), Entry(x, name)));
    AddedHas(fs, fs', d, name, x);
  }

  lemma LinkEffect(fs: Fs, x: nat, d: nat, name: string, write: bool, room: bool)
    requires Inv(fs) && Live(fs, d) && 0 < x
    ensures var fs' := DoLink(fs, x, d, name, write, room);
            if IsFile(fs, x) && write && room && NoName(fs, d, name) then Adds(fs, fs', d, name, x) && AllKept(fs, fs')
            else fs' == fs
  {
    var fs', e := DoLink(fs, x, d, name, write, room), fs.node[d].entries;
    Found(fs, d, name);
    hide Inv, FindEntry, Place, FreeEntry, Has, SameElse, Adds;
    if IsFile(fs, x) && write && room && NoName(fs, d, name) {
      OnlyAtKeeps(fs, fs', d, x, Place(e, FreeEntry(e, 0), Entry(x, name)));
      AddedHas(fs, fs', d, name, x);
    }
  }

  lemma UnlinkEffect(fs: Fs, d: nat, name: string, write: bool)
    requires Inv(fs) && Live(fs, d)
    ensures var fs' := DoUnlink(fs, d, name, write);
            if write && exists x :: Has(fs, d, name, x) && IsFile(fs, x)
            then Drops(fs, fs', d, name) && AllKept(fs, fs') else fs' == fs
  {
    var k := FindEntry(fs.node[d].entries, name, 0);
    Found(fs, d, name);
    if write && k < |fs.node[d].entries| && IsFile(fs, fs.node[d].entries[k].ino) { DropEffect(fs, d, name, k); }
    hide Inv, FindEntry, Has, Drops, AllKept;
  }

  lemma UnlinkShape(fs: Fs, d: nat, name: string, k: nat)
    requires Inv(fs) && Live(fs, d) && k == FindEntry(fs.node[d].entries, name, 0) < |fs.node[d].entries|
    requires IsFile(fs, fs.node[d].entries[k].ino)
    ensures var fs', e := DoUnlink(fs, d, name, true), fs.node[d].entries;
            var x := e[k].ino;
            && OnlyAt(fs, fs', d, x, e[k := Entry(0, name)])
            && if fs'.node[x].Free? then fs.node[x].count == 0
               else fs'.node[x].kind == fs.node[x].kind && fs'.node[x].count == fs.node[x].count
  {
    hide Inv, FindEntry;
  }

  lemma DropEffect(fs: Fs, d: nat, name: string, k: nat)
    requires Inv(fs) && Live(fs, d) && k == FindEntry(fs.node[d].entries, name, 0) < |fs.node[d].entries|
    requires IsFile(fs, fs.node[d].entries[k].ino)
    ensures var fs' := DoUnlink(fs, d, name, true); Drops(fs, fs', d, name) && AllKept(fs, fs')
  {
    var fs', e := DoUnlink(fs, d, name, true), fs.node[d].entries;
    var x := e[k].ino;
    UnlinkShape(fs, d, name, k);
    UnlinkKeeps(fs, d, name, true);
    hide *;
    OnlyAtKeeps(fs, fs', d, x, e[k := Entry(0, name)]);
    DroppedFrom(fs, fs', d, k, name);
    if fs'.node[x].Free? { FreedUnnamed(fs', x); }
    KeptAlone(fs, fs', x);
  }

  lemma KeptAlone(fs: Fs, fs': Fs, x: nat)
    requires KeptBut(fs, fs', x) && x < |fs.node| && fs.node[x].Used?
    requires if fs'.node[x].Free? then fs.node[x].count == 0 && forall d: nat, name :: !Has(fs', d, name, x)
      else fs'.node[x].kind == fs.node[x].kind && fs'.node[x].count == fs.node[x].count
    ensures AllKept(fs, fs')
  {
    hide Has;
  }

  lemma MkdirEffect(fs: Fs, d: nat, name: string, write: bool, room: bool)
    requires Inv(fs) && Live(fs, d)
    ensures
      var fs' := DoMkdir(fs, d, name, write, room);
      if write && room && NoName(fs, d, name) && exists x :: FirstFree(fs, x)
      then exists x :: MadeDir(fs, fs', d, name, x) else fs' == fs
  {
    var e, x := fs.node[d].entries, FreeInode(fs.node, 1);
    Found(fs, d, name);
    InodeFound(fs);
    if write && room && NoName(fs, d, name) && x < |fs.node| { MakeEffect(fs, d, name); }
    hide Inv, Has, FirstFree, MadeDir, FindEntry, FreeInode;
  }

  /** The slots mkdir leaves: d with an entry for x, and x with its first two entries. */
  ghost predicate MadeAt(fs: Fs, fs': Fs, d: nat, name: string, x: nat)
    requires Live(fs, d)
  {
    && x != d && x < |fs.node| == |fs'.node|
    && (forall y | 0 <= y < |fs.node| && y != d && y != x :: fs'.node[y] == fs.node[y])
    && Live(fs', d) && fs'.node[d].count == fs.node[d].count
    && fs'.node[d].entries == Place(fs.node[d].entries, FreeEntry(fs.node[d].entries, 0), Entry(x, name))
    && fs'.node[x] == Used(DIR, 2, 0, [Entry(x, "."), Entry(d, "..")])
  }

  lemma MakeShape(fs: Fs, d: nat, name: string)
    requires Inv(fs) && Live(fs, d) && FindEntry(fs.node[d].entries, name, 0) == |fs.node[d].entries|
    requires FreeInode(fs.node, 1) < |fs.node|
    ensures MadeAt(fs, DoMkdir(fs, d, name, true, true), d, name, FreeInode(fs.node, 1))
  {
    hide Inv, FindEntry, FreeInode, Place, FreeEntry;
  }

  lemma MakeEffect(fs: Fs, d: nat, name: string)
    requires Inv(fs) && Live(fs, d) && FindEntry(fs.node[d].entries, name, 0) == |fs.node[d].entries|
    requires FreeInode(fs.node, 1) < |fs.node|
    ensures MadeDir(fs, DoMkdir(fs, d, name, true, true), d, name, FreeInode(fs.node, 1))
  {
    hide *;
    MakeShape(fs, d, name);
    NotZero(fs, d);
    FreeFound(fs, FreeInode(fs.node, 1));
    MadeNames(fs, DoMkdir(fs, d, name, true, true), d, name, FreeInode(fs.node, 1));
    MadeAll(fs, DoMkdir(fs, d, name, true, true), d, name, FreeInode(fs.node, 1));
  }

  lemma MadeAll(fs: Fs, fs': Fs, d: nat, name: string, x: nat)
    requires Live(fs, d) && FirstFree(fs, x) && MadeAt(fs, fs', d, name, x)
    requires forall e: nat, m, y: nat :: Has(fs', e, m, y) <==>
              Has(fs, e, m, y) || (e, m, y) == (d, name, x) || (e, m, y) == (x, ".", x) || (e, m, y) == (x, "..", d)
    ensures MadeDir(fs, fs', d, name, x)
  {
    hide Has, Place, FreeEntry;
  }

  lemma MadeNames(fs: Fs, fs': Fs, d: nat, name: string, x: nat)
    requires d != 0 && Live(fs, d) && FirstFree(fs, x) && MadeAt(fs, fs', d, name, x)
    ensures forall e: nat, m, y: nat :: Has(fs', e, m, y) <==>
              Has(fs, e, m, y) || (e, m, y) == (d, name, x) || (e, m, y) == (x, ".", x) || (e, m, y) == (x, "..", d)
  {
    forall e: nat, m, y: nat
      ensures Has(fs', e, m, y) <==>
        Has(fs, e, m, y) || (e, m, y) == (d, name, x) || (e, m, y) == (x, ".", x) || (e, m, y) == (x, "..", d)
    {
      hide Place, FreeEntry;
      if e == d && y != 0 { PlacedHas(fs.node[d].entries, name, x, m, y); }
    }
  }

  /** empty_dir looks at places, which by the invariant are names. */
  lemma EmptyIsBare(fs: Fs, x: nat)
    requires Inv(fs) && Live(fs, x)
    ensures EmptyDir(fs, x) <==> Bare(fs, x)
  {
    NamesDistinct(fs, x);
    var e := fs.node[x].entries;
    assert |e| >= 2 && e[0] == Entry(x, ".") && e[1].ino != 0 && e[1].name == ".." by {
      hide DistinctNames, Holds, Tree;
      assert GoodDir(fs, x);
    }
    hide Inv;
    if Bare(fs, x) {
      forall k | 2 <= k < |e| ensures e[k].ino == 0 {
        var ino, name := e[k].ino, e[k].name;
        assert e[k] == Entry(ino, name);
        assert ino != 0 ==> Has(fs, x, name, ino);
      }
    }
  }

  /** The slots rmdir leaves, d with its entry k emptied and x deleted. */
  ghost predicate RemovedAt(fs: Fs, fs': Fs, d: nat, name: string, k: nat)
    requires Live(fs, d) && k < |fs.node[d].entries| && IsDir(fs, fs.node[d].entries[k].ino)
  {
    var x := fs.node[d].entries[k].ino;
    && |fs'.node| == |fs.node| && (forall y | 0 <= y < |fs.node| && y != d && y != x :: fs'.node[y] == fs.node[y])
    && Live(fs', d) && fs'.node[d].count == fs.node[d].count
    && fs'.node[d].entries == fs.node[d].entries[k := Entry(0, name)]
    && !Live(fs', x)
    && if fs'.node[x].Free? then fs.node[x].count == 0
       else fs'.node[x].kind == fs.node[x].kind && fs'.node[x].count == fs.node[x].count
  }

  lemma RmdirShape(fs: Fs, d: nat, name: string, k: nat)
    requires Live(fs, d) && k < |fs.node[d].entries| && fs.node[d].nlinks >= 2
    requires var x := fs.node[d].entries[k].ino; x != d && IsDir(fs, x)
    ensures RemovedAt(fs, RmdirResult(fs, d, k, fs.node[d].entries[k].ino, name), d, name, k)
  {}

  lemma RmdirEffect(fs: Fs, d: nat, name: string, write: bool)
    requires Inv(fs) && Live(fs, d)
    ensures
      var fs' := DoRmdir(fs, d, name, write);
      if write && exists x :: x != d && Has(fs, d, name, x) && Bare(fs, x)
      then exists x :: x != d && Has(fs, d, name, x) && Bare(fs, x) && RemovedDir(fs, fs', d, name, x) else fs' == fs
  {
    var e := fs.node[d].entries;
    var k := FindEntry(e, name, 0);
    Found(fs, d, name);
    if k < |e| {
      if IsDir(fs, e[k].ino) {
        EmptyIsBare(fs, e[k].ino);
        if write && e[k].ino != d && EmptyDir(fs, e[k].ino) { RemoveEffect(fs, d, name, k); }
      }
    }
    hide Inv, FindEntry, Has, RemovedDir, EmptyDir;
  }

  lemma RemoveEffect(fs: Fs, d: nat, name: string, k: nat)
    requires Inv(fs) && Live(fs, d) && k == FindEntry(fs.node[d].entries, name, 0) < |fs.node[d].entries|
    requires var x := fs.node[d].entries[k].ino; x != d && IsDir(fs, x) && EmptyDir(fs, x)
    ensures RemovedDir(fs, DoRmdir(fs, d, name, true), d, name, fs.node[d].entries[k].ino)
  {
    var fs', x := DoRmdir(fs, d, name, true), fs.node[d].entries[k].ino;
    NamedIsLinked(fs, d, k);
    EmptyHasTwoLinks(fs, d, k, x);
    RmdirKeeps(fs, d, name, true);
    NamesDistinct(fs, d);
    hide Inv, EmptyDir, Has, FindEntry, DistinctNames, RmdirResult;
    RmdirShape(fs, d, name, k);
    hide DoRmdir;
    if fs'.node[x].Free? { FreedUnnamed(fs', x); }
    RemovedNames(fs, fs', d, name, k);
  }

  lemma RemovedNames(fs: Fs, fs': Fs, d: nat, name: string, k: nat)
    requires Live(fs, d) && k < |fs.node[d].entries| && IsDir(fs, fs.node[d].entries[k].ino)
    requires DistinctNames(fs.node[d].entries) && fs.node[d].entries[k].ino != d
    requires fs.node[d].entries[k].ino != 0 && fs.node[d].entries[k].name == name
    requires RemovedAt(fs, fs', d, name, k)
    requires var x := fs.node[d].entries[k].ino;
             x < |fs'.node| && fs'.node[x].Free? ==> forall e: nat, m :: !Has(fs', e, m, x)
    ensures RemovedDir(fs, fs', d, name, fs.node[d].entries[k].ino)
  {
    var x := fs.node[d].entries[k].ino;
    forall e: nat, m, y: nat
      ensures Has(fs', e, m, y) <==> Has(fs, e, m, y) && (e, m) != (d, name) && e != x
    {
      hide DistinctNames;
      if e == d && y != 0 { DroppedHas(fs.node[d].entries, k, name, m, y); }
    }
    hide Has, DistinctNames;
  }
}
