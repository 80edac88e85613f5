/** The directory calls of fs/namei.c as the code runs them: in place on the inode table, with the
    search loops over the entries and the i_count kept by iget and iput while an inode is in use. */
module LinkCountsCode {
  import opened LinkCounts

  class Namespace {
    const node: array<Slot>

    constructor (n: nat)
      requires n >= 2
      ensures fresh(node) && Fs(node[..]) == Fresh(n) && Inv(Fs(node[..]))
    {
      node := new Slot[n](x => if x == ROOT then Used(DIR, 2, 1, [Entry(ROOT, "."), Entry(ROOT, "..")]) else Free);
      new;
      FreshIsInv(n);
      assert node[..] == Fresh(n).node;
    }

    ghost function State(): Fs
      reads node
    {
      Fs(node[..])
    }

    /** find_entry. */
    method FindSlot(d: nat, name: string) returns (k: nat)
      requires IsDir(State(), d)
      ensures k == FindEntry(node[d].entries, name, 0)
    {
      var entries := node[d].entries;
      k := 0;
      while k < |entries| && !(entries[k].ino != 0 && entries[k].name == name)
        invariant 0 <= k <= |entries|
        invariant FindEntry(entries, name, 0) == FindEntry(entries, name, k)
      {
        k := k + 1;
      }
    }

    /** add_entry: the name goes into the first empty entry or a new last one; its inode number is still 0. */
    method AddEntry(d: nat, name: string) returns (k: nat)
      requires IsDir(State(), d)
      modifies node
      ensures k == FreeEntry(old(node[d]).entries, 0)
      ensures node[..] == old(node[..])[d := old(node[d]).(entries := Place(old(node[d]).entries, k, Entry(0, name)))]
    {
      k := 0;
      var entries := node[d].entries;
      while k < |entries| && entries[k].ino != 0
        invariant 0 <= k <= |entries|
        invariant FreeEntry(entries, 0) == FreeEntry(entries, k)
      {
        k := k + 1;
      }
      if k == |entries| {
        entries := entries + [Entry(0, name)];
      } else {
        entries := entries[k := Entry(0, name)];
      }
      node[d] := node[d].(entries := entries);
    }

    /** add_entry, then the caller's de->inode = x. */
    method EnterName(d: nat, name: string, x: nat)
      requires IsDir(State(), d)
      modifies node
      ensures node[..] == old(node[..])[d :=
        old(node[d]).(entries := Place(old(node[d]).entries, FreeEntry(old(node[d]).entries, 0), Entry(x, name)))]
    {
      ghost var entries := node[d].entries;
      var k := AddEntry(d, name);
      PlaceThenSet(entries, k, name, x);
      node[d] := node[d].(entries := node[d].entries[k := Entry(x, name)]);
    }

    method Iget(x: nat)
      requires x < node.Length && node[x].Used?
      modifies node
      ensures State() == Pin(old(State()), x)
    {
      node[x] := node[x].(count := node[x].count + 1);
    }

    /** The end of iput: the last user of an inode without links frees it. */
    method Iput(x: nat)
      requires x < node.Length && node[x].Used? && node[x].count > 0
      modifies node
      ensures State() == DoClose(old(State()), x)
    {
      if node[x].nlinks == 0 && node[x].count == 1 {
        node[x] := Free;
      } else {
        node[x] := node[x].(count := node[x].count - 1);
      }
    }

    /** new_inode: the first free inode, with one link and one user; node.Length when there is none. */
    method NewInode(kind: Kind) returns (x: nat)
      requires node.Length >= 1
      modifies node
      ensures x == FreeInode(old(node[..]), 1)
      ensures node[..] == if x < node.Length then old(node[..])[x := Used(kind, 1, 1, [])] else old(node[..])
    {
      x := 1;
      while x < node.Length && !node[x].Free?
        invariant 1 <= x <= node.Length && node[..] == old(node[..])
        invariant FreeInode(node[..], 1) == FreeInode(node[..], x)
      {
        x := x + 1;
      }
      if x < node.Length {
        node[x] := Used(kind, 1, 1, []);
      }
    }

    /** get_dir: returns the directory with its use counted, or 0. */
    method GetDir(start: nat, path: seq<string>) returns (d: nat)
      requires Inv(State()) && 0 < start < node.Length && node[start].Used?
      modifies node
      ensures d == Walk(old(State()), start, path)
      ensures State() == if d == 0 then old(State()) else Pin(old(State()), d)
    {
      ghost var fs := State();
      d := start;
      Iget(d);
      var i := 0;
      while true
        invariant 0 <= i <= |path| && 0 < d < node.Length && fs.node[d].Used? && Inv(fs) && State() == Pin(fs, d)
        invariant Walk(fs, start, path) == Walk(fs, d, path[i..])
        decreases |path| - i
      {
        hide Inv;
        if !(node[d].kind.DIR? && node[d].nlinks > 0) {
          PutBack(fs, d);
          Iput(d);
          return 0;
        }
        if i == |path| { return; }
        assert path[i..][0] == path[i] && path[i..][1..] == path[i + 1..];
        var k := FindSlot(d, Trunc(path[i]));
        if path[i] == "" || k == |node[d].entries| {
          PutBack(fs, d);
          Iput(d);
          return 0;
        }
        var inr := node[d].entries[k].ino;
        NamedIsLinked(fs, d, k);
        PutBack(fs, d);
        Iput(d);
        d := inr;
        Iget(d);
        i := i + 1;
      }
    }

    /** sys_mkdir. */
    method Mkdir(start: nat, path: seq<string>, name: string, write: bool, room: bool)
      requires Inv(State()) && 0 < start < node.Length && node[start].Used?
      modifies node
      ensures State() == Step(old(State()), Op.Mkdir(start, path, name, write, room))
    {
      hide Walk, FindEntry, FreeEntry, FreeInode, Exact, Dirs, Place;
      ghost var fs := State();
      var d := GetDir(start, path);
      if d == 0 { return; }
      PutBack(fs, d);
      if name == "" || !write {
        Iput(d);
        return;
      }
      var k := FindSlot(d, Trunc(name));
      if k < |node[d].entries| {
        Iput(d);
        return;
      }
      FreeUnderPin(fs, d);
      var x := NewInode(DIR);
      if x == node.Length {
        Iput(d);
        return;
      }
      if !room {
        Iput(d);
        node[x] := node[x].(nlinks := node[x].nlinks - 1);
        Iput(x);
        assert State() == fs;
        return;
      }
      FillDir(fs, d, x, Trunc(name));
    }

    /** The rest of sys_mkdir: the new directory's two entries, its entry in d, and both uses given back. */
    method FillDir(ghost fs: Fs, d: nat, x: nat, name: string)
      requires Live(fs, d) && x == FreeInode(fs.node, 1) < |fs.node| && x != d
        && FindEntry(fs.node[d].entries, name, 0) == |fs.node[d].entries|
      requires node.Length == |fs.node| && State() == SetSlot(Pin(fs, d), x, Used(DIR, 1, 1, []))
      modifies node
      ensures State() == DoMkdir(fs, d, name, true, true)
    {
      hide FindEntry, FreeEntry, FreeInode, Place;
      node[x] := Used(DIR, 2, 1, [Entry(x, "."), Entry(d, "..")]);
      EnterName(d, name, x);
      node[d] := node[d].(nlinks := node[d].nlinks + 1);
      Iput(d);
      Iput(x);
      assert State() == DoMkdir(fs, d, name, true, true);
    }

    /** open_namei followed by nothing else: the inode found or created stays in use. */
    method Open(start: nat, path: seq<string>, name: string, creat: bool, write: bool, room: bool)
      requires Inv(State()) && 0 < start < node.Length && node[start].Used?
      modifies node
      ensures State() == Step(old(State()), Op.Open(start, path, name, creat, write, room))
    {
      hide Walk, FindEntry, FreeEntry, FreeInode, Exact, Dirs, Place;
      ghost var fs := State();
      var d := GetDir(start, path);
      if d == 0 || name == "" { return; }
      PutBack(fs, d);
      var k := FindSlot(d, Trunc(name));
      if k < |node[d].entries| {
        var inr := node[d].entries[k].ino;
        NamedIsLinked(fs, d, k);
        Iput(d);
        Iget(inr);
        return;
      }
      if !creat || !write {
        Iput(d);
        return;
      }
      Create(fs, d, Trunc(name), room);
    }

    /** The part of open_namei that makes a new file in d. */
    method Create(ghost fs: Fs, d: nat, name: string, room: bool)
      requires Inv(fs) && Live(fs, d) && State() == Pin(fs, d)
        && FindEntry(fs.node[d].entries, name, 0) == |fs.node[d].entries|
      modifies node
      ensures State() == DoOpen(fs, d, name, true, true, room)
    {
      hide FindEntry, FreeEntry, FreeInode, Exact, Dirs, Place;
      PutBack(fs, d);
      FreeUnderPin(fs, d);
      var x := NewInode(REG);
      if x == node.Length {
        Iput(d);
        return;
      }
      if !room {
        node[x] := node[x].(nlinks := node[x].nlinks - 1);
        Iput(x);
        Iput(d);
        assert State() == fs;
        return;
      }
      EnterName(d, name, x);
      Iput(d);
      assert State() == DoOpen(fs, d, name, true, true, room);
    }

    /** empty_dir. */
    method Empty(x: nat) returns (r: bool)
      requires IsDir(State(), x)
      ensures r == EmptyDir(State(), x)
    {
      var e := node[x].entries;
      if |e| < 2 || e[0].ino != x || e[1].ino == 0 || e[0].name != "." || e[1].name != ".." { return false; }
      var k := 2;
      while k < |e|
        invariant 2 <= k <= |e| && forall i | 2 <= i < k :: e[i].ino == 0
      {
        if e[k].ino != 0 { return false; }
        k := k + 1;
      }
      return true;
    }

    /** sys_rmdir. */
    method Rmdir(start: nat, path: seq<string>, name: string, write: bool)
      requires Inv(State()) && 0 < start < node.Length && node[start].Used?
      modifies node
      ensures State() == Step(old(State()), Op.Rmdir(start, path, name, write))
    {
      hide Walk, FindEntry, Exact, Dirs, EmptyDir;
      ghost var fs := State();
      var d := GetDir(start, path);
      if d == 0 { return; }
      PutBack(fs, d);
      if name == "" {
        Iput(d);
        return;
      }
      var k := FindSlot(d, Trunc(name));
      if k == |node[d].entries| || !write {
        Iput(d);
        return;
      }
      var x := node[d].entries[k].ino;
      NamedIsLinked(fs, d, k);
      Iget(x);
      PutBackTwo(fs, d, x);
      if x == d || !node[x].kind.DIR? {
        Iput(x);
        Iput(d);
        return;
      }
      EmptyPinned(fs, State(), x);
      var empty := Empty(x);
      if !empty {
        Iput(x);
        Iput(d);
        return;
      }
      RemoveDir(fs, d, k, x);
    }

    /** The end of sys_rmdir: drop the entry and settle the counts. */
    method RemoveDir(ghost fs: Fs, d: nat, k: nat, x: nat)
      requires Live(fs, d) && k < |fs.node[d].entries| && IsDir(fs, x) && x != d && State() == Pin(Pin(fs, d), x)
      requires node.Length == |fs.node|
      modifies node
      ensures State() == RmdirResult(fs, d, k, x, fs.node[d].entries[k].name)
    {
      node[d] := node[d].(entries := node[d].entries[k := Entry(0, node[d].entries[k].name)]);
      node[x] := node[x].(nlinks := 0);
      node[d] := node[d].(nlinks := node[d].nlinks - 1);
      Iput(d);
      Iput(x);
    }

    /** sys_unlink. */
    method Unlink(start: nat, path: seq<string>, name: string, write: bool)
      requires Inv(State()) && 0 < start < node.Length && node[start].Used?
      modifies node
      ensures State() == Step(old(State()), Op.Unlink(start, path, name, write))
    {
      hide Walk, FindEntry, Exact, Dirs;
      ghost var fs := State();
      var d := GetDir(start, path);
      if d == 0 { return; }
      PutBack(fs, d);
      if name == "" || !write {
        Iput(d);
        return;
      }
      var k := FindSlot(d, Trunc(name));
      if k == |node[d].entries| {
        Iput(d);
        return;
      }
      var x := node[d].entries[k].ino;
      NamedIsLinked(fs, d, k);
      Iget(x);
      PutBackTwo(fs, d, x);
      if !node[x].kind.REG? {
        Iput(x);
        Iput(d);
        return;
      }
      RemoveName(fs, d, k, x);
    }

    /** The end of sys_unlink. */
    method RemoveName(ghost fs: Fs, d: nat, k: nat, x: nat)
      requires Live(fs, d) && k < |fs.node[d].entries| && x < |fs.node| && fs.node[x].Used? && x != d
        && State() == Pin(Pin(fs, d), x)
      requires node.Length == |fs.node|
      modifies node
      ensures State() == UnlinkResult(fs, d, k, x, fs.node[d].entries[k].name)
    {
      if node[x].nlinks == 0 {
        node[x] := node[x].(nlinks := 1);
      }
      node[d] := node[d].(entries := node[d].entries[k := Entry(0, node[d].entries[k].name)]);
      node[x] := node[x].(nlinks := node[x].nlinks - 1);
      Iput(x);
      Iput(d);
    }

    /** namei of the old name, then the rest of sys_link. */
    method Link(start: nat, path: seq<string>, name: string, start2: nat, path2: seq<string>, name2: string,
        write: bool, room: bool)
      requires Inv(State()) && 0 < start < node.Length && node[start].Used? && 0 < start2 < node.Length
        && node[start2].Used?
      modifies node
      ensures State() == Step(old(State()), Op.Link(start, path, name, start2, path2, name2, write, room))
    {
      hide Walk, FindEntry, FreeEntry, Exact, Dirs, Place;
      ghost var fs := State();
      var o := GetDir(start, path);
      if o == 0 { return; }
      PutBack(fs, o);
      if name == "" {
        Iput(o);
        return;
      }
      var k := FindSlot(o, Trunc(name));
      if k == |node[o].entries| {
        Iput(o);
        return;
      }
      var x := node[o].entries[k].ino;
      NamedIsLinked(fs, o, k);
      Iput(o);
      Iget(x);
      PutBack(fs, x);
      if !node[x].kind.REG? {
        Iput(x);
        return;
      }
      LinkTo(fs, x, start2, path2, name2, write, room);
    }

    method LinkTo(ghost fs: Fs, x: nat, start2: nat, path2: seq<string>, name2: string, write: bool, room: bool)
      requires Inv(fs) && 0 < x < node.Length && x < |fs.node| && fs.node[x].Used? && fs.node[x].kind.REG?
        && State() == Pin(fs, x)
      requires 0 < start2 < node.Length && node[start2].Used?
      modifies node
      ensures
        var d := Walk(fs, start2, path2);
        State() == if d == 0 || name2 == "" then fs else DoLink(fs, x, d, Trunc(name2), write, room)
    {
      hide FindEntry, FreeEntry, Exact, Dirs, Place;
      PinKeeps(fs, x);
      WalkPinned(fs, x, start2, path2);
      hide Walk;
      var d := GetDir(start2, path2);
      PutBack(fs, x);
      if d == 0 {
        Iput(x);
        return;
      }
      PutBackTwo(fs, x, d);
      if name2 == "" || !write {
        Iput(d);
        Iput(x);
        return;
      }
      var k := FindSlot(d, Trunc(name2));
      if k < |node[d].entries| || !room {
        Iput(d);
        Iput(x);
        return;
      }
      FinishLink(fs, x, d, Trunc(name2));
    }

    method FinishLink(ghost fs: Fs, x: nat, d: nat, name: string)
      requires Live(fs, d) && x < |fs.node| && fs.node[x].Used? && fs.node[x].kind.REG? && State() == Pin(Pin(fs, x), d)
      requires FindEntry(fs.node[d].entries, name, 0) == |fs.node[d].entries|
      modifies node
      ensures State() == DoLink(fs, x, d, name, true, true)
    {
      hide FindEntry, FreeEntry, Place;
      EnterName(d, name, x);
      Iput(d);
      node[x] := node[x].(nlinks := node[x].nlinks + 1);
      Iput(x);
      assert State() == DoLink(fs, x, d, name, true, true);
    }
  }

  lemma PutBackTwo(fs: Fs, x: nat, y: nat)
    requires Settled(fs) && x < |fs.node| && fs.node[x].Used? && y < |fs.node| && fs.node[y].Used?
    ensures DoClose(Pin(Pin(fs, x), y), y) == Pin(fs, x)
    ensures DoClose(DoClose(Pin(Pin(fs, x), y), y), x) == fs
    ensures DoClose(DoClose(Pin(Pin(fs, x), y), x), y) == fs
  {
    if x != y {
      assert DoClose(DoClose(Pin(Pin(fs, x), y), x), y).node == fs.node;
    }
  }

  lemma EmptyPinned(fs: Fs, fs': Fs, x: nat)
    requires IsDir(fs, x) && IsDir(fs', x) && fs'.node[x].entries == fs.node[x].entries
    ensures EmptyDir(fs', x) == EmptyDir(fs, x)
  {}

  lemma {:induction false} WalkPinned(fs: Fs, x: nat, d: nat, path: seq<string>)
    ensures Walk(Pin(fs, x), d, path) == Walk(fs, d, path)
    decreases |path|
  {
    hide FindEntry;
    if Live(fs, d) && path != [] {
      var k := FindEntry(fs.node[d].entries, Trunc(path[0]), 0);
      if k < |fs.node[d].entries| { WalkPinned(fs, x, fs.node[d].entries[k].ino, path[1..]); }
    }
  }

  /** Taking and dropping one use of an inode changes nothing, unless nobody used or named it before. */
  lemma PutBack(fs: Fs, x: nat)
    requires Settled(fs) && x < |fs.node| && fs.node[x].Used?
    ensures DoClose(Pin(fs, x), x) == fs
  {}

  lemma FreeUnderPin(fs: Fs, x: nat)
    requires x < |fs.node| && fs.node[x].Used?
    ensures |Pin(fs, x).node| == |fs.node| && forall k: nat | k <= |fs.node| ::
      FreeInode(Pin(fs, x).node, k) == FreeInode(fs.node, k)
  {
    forall k: nat | k <= |fs.node| ensures FreeInode(Pin(fs, x).node, k) == FreeInode(fs.node, k) {
      FreeInodeSame(fs.node, Pin(fs, x).node, k);
    }
  }

  lemma {:induction false} FreeInodeSame(node: seq<Slot>, node': seq<Slot>, k: nat)
    requires |node| == |node'| && k <= |node| && forall x | 0 <= x < |node| :: node[x].Free? == node'[x].Free?
    ensures FreeInode(node, k) == FreeInode(node', k)
    decreases |node| - k
  {
    if k < |node| && node[k].Used? { FreeInodeSame(node, node', k + 1); }
  }

  lemma PlaceThenSet(entries: seq<Entry>, j: nat, name: string, x: nat)
    requires j <= |entries|
    ensures j < |Place(entries, j, Entry(0, name))|
    ensures Place(entries, j, Entry(0, name))[j := Entry(x, name)] == Place(entries, j, Entry(x, name))
  {}
}
