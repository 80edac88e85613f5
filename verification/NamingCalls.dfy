/** What create, link, unlink, mkdir and rmdir do to the meaning of paths (fs/namei.c): when each has an
    effect, told from the names before the call, and what its names mean afterwards. */
module NamingCalls {
  import opened LinkCounts
  import opened Naming

  /** What a call does, told from the names before it. */
  ghost predicate Effect(fs: Fs, op: Op, fs': Fs)
  {
    match op
    case Open(start, path, name, creat, write, room) =>
      if name == "" then OpensDir(fs, start, path, fs')
          else Opens(fs, start, path, name, creat && write && room, fs')
    case Close(x) =>
      if x < |fs.node| && fs.node[x].Used? && fs.node[x].count > 0 then UsesOnly(fs, fs', x, -1) else fs' == fs
    case Link(start, path, name, start2, path2, name2, write, room) =>
      if write && room && name2 != "" then LinksTo(fs, start, path, name, start2, path2, name2, fs') else fs' == fs
    case Unlink(start, path, name, write) => if write then Unlinks(fs, start, path, name, fs') else fs' == fs
    case Mkdir(start, path, name, write, room) =>
      if write && room && name != "" then Makes(fs, start, path, name, fs') else fs' == fs
    case Rmdir(start, path, name, write) =>
      if write && name != "" then Removes(fs, start, path, name, fs') else fs' == fs
  }

  ghost predicate OpensDir(fs: Fs, start: nat, path: seq<string>, fs': Fs)
  {
    if exists d :: LeadsTo(fs, start, path, d) then exists d :: LeadsTo(fs, start, path, d) && UsesOnly(fs, fs', d, 1)
    else fs' == fs
  }

  ghost predicate Opens(fs: Fs, start: nat, path: seq<string>, name: string, creat: bool, fs': Fs)
  {
    if exists x :: Means(fs, start, path, name, x) then
      exists x :: Means(fs, start, path, name, x) && UsesOnly(fs, fs', x, 1)
    else if creat && exists d, x :: LeadsTo(fs, start, path, d) && FirstFree(fs, x) then
      exists d, x ::
        LeadsTo(fs, start, path, d) && MadeFile(fs, fs', d, Trunc(name), x) && Means(fs', start, path, name, x)
    else fs' == fs
  }

  ghost predicate LinksTo(fs: Fs, start: nat, path: seq<string>, name: string, start2: nat, path2: seq<string>,
                          name2: string, fs': Fs)
  {
    if exists d, x :: Linkable(fs, start, path, name, start2, path2, name2, d, x) then
      exists d, x ::
        && Linkable(fs, start, path, name, start2, path2, name2, d, x)
        && Adds(fs, fs', d, Trunc(name2), x) && AllKept(fs, fs')
        && Means(fs', start, path, name, x) && Means(fs', start2, path2, name2, x)
    else fs' == fs
  }

  ghost predicate Unlinks(fs: Fs, start: nat, path: seq<string>, name: string, fs': Fs)
  {
    if exists x :: Means(fs, start, path, name, x) && IsFile(fs, x) then
      exists d ::
        && LeadsTo(fs, start, path, d) && Drops(fs, fs', d, Trunc(name)) && AllKept(fs, fs')
        && LeadsTo(fs', start, path, d) && forall y :: !Means(fs', start, path, name, y)
    else fs' == fs
  }

  ghost predicate Makes(fs: Fs, start: nat, path: seq<string>, name: string, fs': Fs)
  {
    if exists d, x :: Vacant(fs, start, path, name, d) && FirstFree(fs, x) then
      exists d, x ::
        && Vacant(fs, start, path, name, d) && MadeDir(fs, fs', d, Trunc(name), x)
        && Means(fs', start, path, name, x) && LeadsTo(fs', start, path + [name], x)
    else fs' == fs
  }

  ghost predicate Removes(fs: Fs, start: nat, path: seq<string>, name: string, fs': Fs)
  {
    if exists d, x :: Removable(fs, start, path, name, d, x) then
      exists d, x ::
        && Removable(fs, start, path, name, d, x) && RemovedDir(fs, fs', d, Trunc(name), x)
        && forall y :: !Means(fs', start, path, name, y)
    else fs' == fs
  }

  /** The path leads to d, which does not have the name. */
  ghost predicate Vacant(fs: Fs, start: nat, path: seq<string>, name: string, d: nat)
  {
    LeadsTo(fs, start, path, d) && NoName(fs, d, Trunc(name))
  }

  ghost predicate Linkable(fs: Fs, start: nat, path: seq<string>, name: string, start2: nat, path2: seq<string>,
                           name2: string, d: nat, x: nat)
  {
    Means(fs, start, path, name, x) && IsFile(fs, x) && Vacant(fs, start2, path2, name2, d)
  }

  ghost predicate Removable(fs: Fs, start: nat, path: seq<string>, name: string, d: nat, x: nat)
  {
    LeadsTo(fs, start, path, d) && Has(fs, d, Trunc(name), x) && x != d && Bare(fs, x)
  }

  lemma WalkOf(fs: Fs, start: nat, path: seq<string>) returns (d: nat)
    requires Inv(fs)
    ensures d == Walk(fs, start, path) && (d == 0 ==> forall r :: !LeadsTo(fs, start, path, r))
    ensures d != 0 ==> LeadsTo(fs, start, path, d) && Live(fs, d) && forall r :: LeadsTo(fs, start, path, r) ==> r == d
  {
    d := Walk(fs, start, path);
    WalkLeads(fs, start, path, d);
    forall r | LeadsTo(fs, start, path, r) ensures r == d {
      LeadsOnce(fs, start, path, r, r);
      WalkLeads(fs, start, path, r);
    }
  }

  lemma MeansIn(fs: Fs, start: nat, path: seq<string>, name: string, d: nat)
    requires LeadsTo(fs, start, path, d) && (forall r :: LeadsTo(fs, start, path, r) ==> r == d) && name != ""
    ensures forall x :: Means(fs, start, path, name, x) <==> Has(fs, d, Trunc(name), x)
  {
    hide LeadsTo, Has, Trunc;
    forall x ensures Means(fs, start, path, name, x) <==> Has(fs, d, Trunc(name), x) {}
  }

  lemma MeansNothing(fs: Fs, start: nat, path: seq<string>, name: string)
    requires name == "" || forall r :: !LeadsTo(fs, start, path, r)
    ensures forall x :: !Means(fs, start, path, name, x)
  {}

  lemma MeansThere(fs: Fs, start: nat, path: seq<string>, name: string, d: nat, x: nat)
    requires name != "" && LeadsTo(fs, start, path, d) && Has(fs, d, Trunc(name), x)
    ensures Means(fs, start, path, name, x)
  {}

  lemma LeadsFurther(fs: Fs, start: nat, path: seq<string>, name: string, d: nat, x: nat)
    requires name != "" && LeadsTo(fs, start, path, d) && Has(fs, d, Trunc(name), x) && Live(fs, x)
    ensures LeadsTo(fs, start, path + [name], x)
  {
    hide Has, Live, Trunc;
    var chain :| Chain(fs, path, chain) && chain[0] == start && chain[|path|] == d;
    var further := chain + [x];
    forall i | 0 <= i < |path + [name]|
      ensures (path + [name])[i] != "" && Has(fs, further[i], Trunc((path + [name])[i]), further[i + 1])
    {
      if i < |path| { assert (path + [name])[i] == path[i]; }
    }
    assert Chain(fs, path + [name], further);
  }

  lemma OpenDirMeans(fs: Fs, start: nat, path: seq<string>, creat: bool, write: bool, room: bool)
    requires Inv(fs)
    ensures OpensDir(fs, start, path, Step(fs, Open(start, path, "", creat, write, room)))
  {
    var d := WalkOf(fs, start, path);
    hide Inv, Walk, LeadsTo, UsesOnly, DoOpen, Trunc;
    if d != 0 {
      LiveInode(fs, d);
      PinEffect(fs, d);
    }
  }

  lemma OpenStep(fs: Fs, start: nat, path: seq<string>, name: string, creat: bool, write: bool, room: bool)
    requires name != ""
    ensures
      var d := Walk(fs, start, path);
      Step(fs, Open(start, path, name, creat, write, room))
        == if d == 0 then fs else DoOpen(fs, d, Trunc(name), creat, write, room)
  {
    hide Walk, DoOpen, Trunc;
  }

  lemma OpenMeans(fs: Fs, start: nat, path: seq<string>, name: string, creat: bool, write: bool, room: bool)
    requires Inv(fs) && name != ""
    ensures
      Opens(fs, start, path, name, creat && write && room, Step(fs, Open(start, path, name, creat, write, room)))
  {
    var d := WalkOf(fs, start, path);
    var fs', ok := Step(fs, Open(start, path, name, creat, write, room)), creat && write && room;
    hide *;
    OpenStep(fs, start, path, name, creat, write, room);
    if d == 0 {
      MeansNothing(fs, start, path, name);
      OpensNothing(fs, start, path, name, ok);
    } else {
      MeansIn(fs, start, path, name, d);
      OpenEffect(fs, d, Trunc(name), creat, write, room);
      NameOrNone(fs, d, Trunc(name));
      if exists x :: Has(fs, d, Trunc(name), x) {
        var x :| Has(fs, d, Trunc(name), x);
        OpensOld(fs, fs', start, path, name, ok, x);
      } else if ok && exists x :: FirstFree(fs, x) {
        var x :| MadeFile(fs, fs', d, Trunc(name), x);
        MadeFileMeans(fs, fs', start, path, name, d, x);
        OpensNew(fs, fs', start, path, name, d, x);
      } else {
        OpensNothing(fs, start, path, name, ok);
      }
    }
  }

  lemma OpensNothing(fs: Fs, start: nat, path: seq<string>, name: string, creat: bool)
    requires forall x :: !Means(fs, start, path, name, x)
    requires !creat || (forall d :: !LeadsTo(fs, start, path, d)) || forall x :: !FirstFree(fs, x)
    ensures Opens(fs, start, path, name, creat, fs)
  {
    hide Means, LeadsTo, FirstFree;
  }

  lemma OpensOld(fs: Fs, fs': Fs, start: nat, path: seq<string>, name: string, creat: bool, x: nat)
    requires Means(fs, start, path, name, x) && UsesOnly(fs, fs', x, 1)
    ensures Opens(fs, start, path, name, creat, fs')
  {
    hide Means, UsesOnly;
  }

  lemma OpensNew(fs: Fs, fs': Fs, start: nat, path: seq<string>, name: string, d: nat, x: nat)
    requires (forall y :: !Means(fs, start, path, name, y)) && LeadsTo(fs, start, path, d) && FirstFree(fs, x)
    requires MadeFile(fs, fs', d, Trunc(name), x) && Means(fs', start, path, name, x)
    ensures Opens(fs, start, path, name, true, fs')
  {
    hide Means, LeadsTo, FirstFree, MadeFile;
  }

  lemma LiveInode(fs: Fs, d: nat)
    requires Live(fs, d)
    ensures d < |fs.node| && fs.node[d].Used?
  {}

  lemma NameOrNone(fs: Fs, d: nat, name: string)
    ensures NoName(fs, d, name) <==> !exists x :: Has(fs, d, name, x)
  {}

  lemma MadeFileMeans(fs: Fs, fs': Fs, start: nat, path: seq<string>, name: string, d: nat, x: nat)
    requires LeadsTo(fs, start, path, d) && MadeFile(fs, fs', d, Trunc(name), x) && name != ""
    ensures Means(fs', start, path, name, x) && FirstFree(fs, x)
  {
    hide Has, LeadsTo, FirstFree, KeptBut, Live, Trunc;
    LeadsStill(fs, fs', start, path, d);
    MeansThere(fs', start, path, name, d, x);
  }

  lemma LinkStep(fs: Fs, start: nat, path: seq<string>, name: string, start2: nat, path2: seq<string>, name2: string,
                 write: bool, room: bool)
    ensures
      var fs' := Step(fs, Link(start, path, name, start2, path2, name2, write, room));
      var o, d := Walk(fs, start, path), Walk(fs, start2, path2);
      if o == 0 || d == 0 || name == "" || name2 == "" then fs' == fs
      else
        var e := fs.node[o].entries;
        var k := FindEntry(e, Trunc(name), 0);
        fs' == if k == |e| then fs else DoLink(fs, e[k].ino, d, Trunc(name2), write, room)
  {
    hide Walk, DoLink, Trunc, FindEntry;
  }

  lemma LinkMeans(fs: Fs, start: nat, path: seq<string>, name: string, start2: nat, path2: seq<string>, name2: string,
                  write: bool, room: bool)
    requires Inv(fs)
    ensures
      var fs' := Step(fs, Link(start, path, name, start2, path2, name2, write, room));
      if write && room && name2 != "" then LinksTo(fs, start, path, name, start2, path2, name2, fs') else fs' == fs
  {
    var o := WalkOf(fs, start, path);
    var d := WalkOf(fs, start2, path2);
    hide *;
    LinkStep(fs, start, path, name, start2, path2, name2, write, room);
    if o == 0 || name == "" {
      MeansNothing(fs, start, path, name);
      LinksNothing(fs, start, path, name, start2, path2, name2);
    } else if d == 0 {
      LinksNothing(fs, start, path, name, start2, path2, name2);
    } else if name2 != "" {
      MeansIn(fs, start, path, name, o);
      Found(fs, o, Trunc(name));
      NameOrNone(fs, o, Trunc(name));
      var k := FindEntry(fs.node[o].entries, Trunc(name), 0);
      if k < |fs.node[o].entries| {
        LinkInode(fs, start, path, name, start2, path2, name2, write, room, o, d, fs.node[o].entries[k].ino);
      } else {
        LinksNothing(fs, start, path, name, start2, path2, name2);
      }
    }
  }

  /** The call once both directories and the old inode are found. */
  lemma LinkInode(fs: Fs, start: nat, path: seq<string>, name: string, start2: nat, path2: seq<string>, name2: string,
                  write: bool, room: bool, o: nat, d: nat, x: nat)
    requires Inv(fs) && LeadsTo(fs, start, path, o) && name != "" && name2 != "" && x != 0
    requires forall y :: Means(fs, start, path, name, y) <==> y == x
    requires Has(fs, o, Trunc(name), x)
    requires Live(fs, d) && LeadsTo(fs, start2, path2, d) && forall r :: LeadsTo(fs, start2, path2, r) ==> r == d
    ensures
      var fs' := DoLink(fs, x, d, Trunc(name2), write, room);
      if write && room then LinksTo(fs, start, path, name, start2, path2, name2, fs') else fs' == fs
  {
    hide *;
    var fs' := DoLink(fs, x, d, Trunc(name2), write, room);
    LinkEffect(fs, x, d, Trunc(name2), write, room);
    if IsFile(fs, x) && NoName(fs, d, Trunc(name2)) {
      if write && room {
        AddedMeans(fs, fs', start, path, name, o, d, Trunc(name2), x, x);
        AddedMeans(fs, fs', start2, path2, name2, d, d, Trunc(name2), x, x);
        LinksInode(fs, fs', start, path, name, start2, path2, name2, d, x);
      }
    } else {
      LinksNothing(fs, start, path, name, start2, path2, name2);
    }
  }

  lemma LinksNothing(fs: Fs, start: nat, path: seq<string>, name: string, start2: nat, path2: seq<string>,
                     name2: string)
    requires (forall x | Means(fs, start, path, name, x) :: !IsFile(fs, x))
      || (forall d | LeadsTo(fs, start2, path2, d) :: !NoName(fs, d, Trunc(name2)))
    ensures LinksTo(fs, start, path, name, start2, path2, name2, fs)
  {
    hide Means, LeadsTo, NoName, IsFile;
  }

  lemma LinksInode(fs: Fs, fs': Fs, start: nat, path: seq<string>, name: string, start2: nat, path2: seq<string>,
                   name2: string, d: nat, x: nat)
    requires Means(fs, start, path, name, x) && IsFile(fs, x) && LeadsTo(fs, start2, path2, d)
    requires NoName(fs, d, Trunc(name2)) && Adds(fs, fs', d, Trunc(name2), x) && AllKept(fs, fs')
    requires Means(fs', start, path, name, x) && Means(fs', start2, path2, name2, x)
    ensures LinksTo(fs, start, path, name, start2, path2, name2, fs')
  {
    hide Means, LeadsTo, NoName, IsFile, Adds, AllKept;
    assert Linkable(fs, start, path, name, start2, path2, name2, d, x);
  }

  /** After a name for x is added, the names there were, and the new one, mean what they say. */
  lemma AddedMeans(fs: Fs, fs': Fs, start: nat, path: seq<string>, name: string, e: nat, d: nat, added: string, x: nat,
                   y: nat)
    requires Adds(fs, fs', d, added, x) && LeadsTo(fs, start, path, e) && name != ""
    requires Has(fs, e, Trunc(name), y) || (e, Trunc(name), y) == (d, added, x)
    ensures LeadsTo(fs', start, path, e) && Means(fs', start, path, name, y)
  {
    hide Has, LeadsTo, Live, Trunc;
    LeadsStill(fs, fs', start, path, e);
    MeansThere(fs', start, path, name, e, y);
  }

  lemma UnlinkStep(fs: Fs, start: nat, path: seq<string>, name: string, write: bool)
    ensures
      var d := Walk(fs, start, path);
      Step(fs, Unlink(start, path, name, write)) == if d == 0 || name == "" then fs
        else DoUnlink(fs, d, Trunc(name), write)
  {
    hide Walk, DoUnlink, Trunc;
  }

  lemma UnlinkMeans(fs: Fs, start: nat, path: seq<string>, name: string, write: bool)
    requires Inv(fs)
    ensures var fs' := Step(fs, Unlink(start, path, name, write));
            if write then Unlinks(fs, start, path, name, fs') else fs' == fs
  {
    var op := Unlink(start, path, name, write);
    var d := WalkOf(fs, start, path);
    hide *;
    UnlinkStep(fs, start, path, name, write);
    StepKeeps(fs, op);
    if d == 0 || name == "" {
      MeansNothing(fs, start, path, name);
      UnlinksNothing(fs, start, path, name);
    } else {
      MeansIn(fs, start, path, name, d);
      UnlinkEffect(fs, d, Trunc(name), write);
      if exists x :: Has(fs, d, Trunc(name), x) && IsFile(fs, x) {
        var x :| Has(fs, d, Trunc(name), x) && IsFile(fs, x);
        if write {
          DroppedMeans(fs, Step(fs, op), start, path, name, d, x);
          UnlinksFile(fs, Step(fs, op), start, path, name, d, x);
        }
      } else {
        UnlinksNothing(fs, start, path, name);
      }
    }
  }

  lemma UnlinksNothing(fs: Fs, start: nat, path: seq<string>, name: string)
    requires forall x | Means(fs, start, path, name, x) :: !IsFile(fs, x)
    ensures Unlinks(fs, start, path, name, fs)
  {
    hide Means;
  }

  lemma UnlinksFile(fs: Fs, fs': Fs, start: nat, path: seq<string>, name: string, d: nat, x: nat)
    requires Means(fs, start, path, name, x) && IsFile(fs, x)
    requires LeadsTo(fs, start, path, d) && Drops(fs, fs', d, Trunc(name)) && AllKept(fs, fs')
    requires LeadsTo(fs', start, path, d) && forall y :: !Means(fs', start, path, name, y)
    ensures Unlinks(fs, start, path, name, fs')
  {
    hide Means, LeadsTo, Drops, AllKept;
  }

  lemma DroppedMeans(fs: Fs, fs': Fs, start: nat, path: seq<string>, name: string, d: nat, x: nat)
    requires Inv(fs) && Inv(fs') && LeadsTo(fs, start, path, d) && Drops(fs, fs', d, Trunc(name)) && name != ""
    requires Has(fs, d, Trunc(name), x) && IsFile(fs, x)
    ensures LeadsTo(fs', start, path, d) && forall y :: !Means(fs', start, path, name, y)
  {
    forall y | Has(fs, d, Trunc(name), y) ensures !Live(fs, y) {
      FindHas(fs, d, Trunc(name), x);
      FindHas(fs, d, Trunc(name), y);
    }
    hide Inv, Has, LeadsTo, Live, Trunc;
    LeadsStill(fs, fs', start, path, d);
    forall r | LeadsTo(fs', start, path, r) ensures r == d { LeadsOnce(fs', start, path, r, d); }
    MeansIn(fs', start, path, name, d);
  }

  lemma MkdirStep(fs: Fs, start: nat, path: seq<string>, name: string, write: bool, room: bool)
    ensures
      var d := Walk(fs, start, path);
      Step(fs, Mkdir(start, path, name, write, room)) == if d == 0 || name == "" then fs
        else DoMkdir(fs, d, Trunc(name), write, room)
  {
    hide Walk, DoMkdir, Trunc;
  }

  lemma MkdirMeans(fs: Fs, start: nat, path: seq<string>, name: string, write: bool, room: bool)
    requires Inv(fs)
    ensures var fs' := Step(fs, Mkdir(start, path, name, write, room));
            if write && room && name != "" then Makes(fs, start, path, name, fs') else fs' == fs
  {
    var d := WalkOf(fs, start, path);
    var fs' := Step(fs, Mkdir(start, path, name, write, room));
    hide *;
    MkdirStep(fs, start, path, name, write, room);
    if d == 0 {
      MakesNothing(fs, start, path, name);
    } else if name != "" {
      MkdirEffect(fs, d, Trunc(name), write, room);
      if NoName(fs, d, Trunc(name)) && exists x :: FirstFree(fs, x) {
        if write && room {
          var x :| MadeDir(fs, fs', d, Trunc(name), x);
          MadeDirMeans(fs, fs', start, path, name, d, x);
          MakesDir(fs, fs', start, path, name, d, x);
        }
      } else {
        MakesNothing(fs, start, path, name);
      }
    }
  }

  lemma MakesNothing(fs: Fs, start: nat, path: seq<string>, name: string)
    requires forall d | LeadsTo(fs, start, path, d) :: !NoName(fs, d, Trunc(name)) || forall x :: !FirstFree(fs, x)
    ensures Makes(fs, start, path, name, fs)
  {
    hide LeadsTo, NoName, FirstFree;
  }

  lemma MakesDir(fs: Fs, fs': Fs, start: nat, path: seq<string>, name: string, d: nat, x: nat)
    requires LeadsTo(fs, start, path, d) && NoName(fs, d, Trunc(name)) && FirstFree(fs, x)
    requires MadeDir(fs, fs', d, Trunc(name), x) && Means(fs', start, path, name, x)
    requires LeadsTo(fs', start, path + [name], x)
    ensures Makes(fs, start, path, name, fs')
  {
    hide Means, LeadsTo, MadeDir, NoName, FirstFree;
    assert Vacant(fs, start, path, name, d);
  }

  lemma MadeDirMeans(fs: Fs, fs': Fs, start: nat, path: seq<string>, name: string, d: nat, x: nat)
    requires LeadsTo(fs, start, path, d) && MadeDir(fs, fs', d, Trunc(name), x) && name != ""
    ensures Means(fs', start, path, name, x) && LeadsTo(fs', start, path + [name], x) && FirstFree(fs, x)
  {
    hide Has, LeadsTo, FirstFree, KeptBut, Live, Trunc;
    LeadsStill(fs, fs', start, path, d);
    MeansThere(fs', start, path, name, d, x);
    LeadsFurther(fs', start, path, name, d, x);
  }

  lemma RmdirStep(fs: Fs, start: nat, path: seq<string>, name: string, write: bool)
    ensures
      var d := Walk(fs, start, path);
      Step(fs, Rmdir(start, path, name, write)) == if d == 0 || name == "" then fs
        else DoRmdir(fs, d, Trunc(name), write)
  {
    hide Walk, DoRmdir, Trunc;
  }

  lemma RmdirMeans(fs: Fs, start: nat, path: seq<string>, name: string, write: bool)
    requires Inv(fs)
    ensures var fs' := Step(fs, Rmdir(start, path, name, write));
            if write && name != "" then Removes(fs, start, path, name, fs') else fs' == fs
  {
    var d := WalkOf(fs, start, path);
    var fs' := Step(fs, Rmdir(start, path, name, write));
    hide *;
    RmdirStep(fs, start, path, name, write);
    if d == 0 {
      RemovesNothing(fs, start, path, name);
    } else if name != "" {
      RmdirEffect(fs, d, Trunc(name), write);
      if exists x :: x != d && Has(fs, d, Trunc(name), x) && Bare(fs, x) {
        if write {
          var x :| x != d && Has(fs, d, Trunc(name), x) && Bare(fs, x) && RemovedDir(fs, fs', d, Trunc(name), x);
          RemovedMeans(fs, fs', start, path, name, d, x);
          RemovesDir(fs, fs', start, path, name, d, x);
        }
      } else {
        RemovesNothing(fs, start, path, name);
      }
    }
  }

  lemma RemovesNothing(fs: Fs, start: nat, path: seq<string>, name: string)
    requires forall d, x | LeadsTo(fs, start, path, d) && Has(fs, d, Trunc(name), x) :: x == d || !Bare(fs, x)
    ensures Removes(fs, start, path, name, fs)
  {
    hide LeadsTo, Has, Bare;
  }

  lemma RemovesDir(fs: Fs, fs': Fs, start: nat, path: seq<string>, name: string, d: nat, x: nat)
    requires LeadsTo(fs, start, path, d) && Has(fs, d, Trunc(name), x) && x != d && Bare(fs, x)
    requires RemovedDir(fs, fs', d, Trunc(name), x) && forall y :: !Means(fs', start, path, name, y)
    ensures Removes(fs, start, path, name, fs')
  {
    hide Means, LeadsTo, Has, Bare, RemovedDir;
    assert Removable(fs, start, path, name, d, x);
  }

  /** A path after rmdir is one from before it, so the name is found in no directory it leads to. */
  lemma RemovedMeans(fs: Fs, fs': Fs, start: nat, path: seq<string>, name: string, d: nat, x: nat)
    requires Inv(fs) && LeadsTo(fs, start, path, d) && RemovedDir(fs, fs', d, Trunc(name), x)
    ensures forall y :: !Means(fs', start, path, name, y)
  {
    hide Inv, Has, LeadsTo, Live, Trunc, AllKept;
    forall y ensures !Means(fs', start, path, name, y) {
      if Means(fs', start, path, name, y) {
        var r :| LeadsTo(fs', start, path, r) && Has(fs', r, Trunc(name), y);
        LeadsStill(fs', fs, start, path, r);
        LeadsOnce(fs, start, path, r, d);
      }
    }
  }

  /** Each call does what its names say: it has an effect exactly when the paths lead to directories, the names
      are there or not there, and an inode is free, as it requires; and then the names mean what they should. */
  lemma StepMeans(fs: Fs, op: Op)
    requires Inv(fs)
    ensures Inv(Step(fs, op)) && Effect(fs, op, Step(fs, op))
  {
    hide Inv, Step, OpensDir, Opens, LinksTo, Unlinks, Makes, Removes, UsesOnly;
    StepKeeps(fs, op);
    match op
    case Open(start, path, name, creat, write, room) =>
      if name == "" { OpenDirMeans(fs, start, path, creat, write, room); }
      else { OpenMeans(fs, start, path, name, creat, write, room); }
    case Close(x) => CloseMeans(fs, x);
    case Link(start, path, name, start2, path2, name2, write, room) =>
      LinkMeans(fs, start, path, name, start2, path2, name2, write, room);
    case Unlink(start, path, name, write) => UnlinkMeans(fs, start, path, name, write);
    case Mkdir(start, path, name, write, room) => MkdirMeans(fs, start, path, name, write, room);
    case Rmdir(start, path, name, write) => RmdirMeans(fs, start, path, name, write);
  }

  lemma CloseMeans(fs: Fs, x: nat)
    requires Inv(fs)
    ensures
      var fs' := Step(fs, Close(x));
      if x < |fs.node| && fs.node[x].Used? && fs.node[x].count > 0 then UsesOnly(fs, fs', x, -1) else fs' == fs
  {
    CloseEffect(fs, x);
    hide Inv, DoClose, UsesOnly;
  }
}
