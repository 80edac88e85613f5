/** Directories and link counts (fs/namei.c): open with O_CREAT, link, unlink, mkdir and rmdir.  A
    directory is the sequence of its entries; inode 0 marks an empty entry. */
module LinkCounts {
  import opened Counting

  const NAME_LEN: nat := 14
  const ROOT: nat := 1

  datatype Kind = REG | DIR | OTHER
  datatype Entry = Entry(ino: nat, name: string)

  /** count is i_count between calls: open files, working directories and roots. */
  datatype Slot = Free | Used(kind: Kind, nlinks: nat, count: nat, entries: seq<Entry>)
  datatype Fs = Fs(node: seq<Slot>)

  function Trunc(name: string): string { if |name| > NAME_LEN then name[..NAME_LEN] else name }

  /** find_entry from entry k on: the first non-empty entry with this name; |entries| when none. */
  function FindEntry(entries: seq<Entry>, name: string, k: nat): (i: nat)
    requires k <= |entries|
    ensures k <= i <= |entries|
    ensures i < |entries| ==> entries[i].ino != 0 && entries[i].name == name
    ensures forall j | k <= j < i :: !(entries[j].ino != 0 && entries[j].name == name)
    decreases |entries| - k
  {
    if k == |entries| || (entries[k].ino != 0 && entries[k].name == name) then k else FindEntry(entries, name, k + 1)
  }

  /** The place add_entry uses: the first empty entry, or the end. */
  function FreeEntry(entries: seq<Entry>, k: nat): (i: nat)
    requires k <= |entries|
    ensures k <= i <= |entries| && (i < |entries| ==> entries[i].ino == 0)
    ensures forall j | k <= j < i :: entries[j].ino != 0
    decreases |entries| - k
  {
    if k == |entries| || entries[k].ino == 0 then k else FreeEntry(entries, k + 1)
  }

  function Place(entries: seq<Entry>, k: nat, e: Entry): (r: seq<Entry>)
    requires k <= |entries|
  {
    if k < |entries| then entries[k := e] else entries + [e]
  }

  /** new_inode's search: the first free inode from k on. */
  function FreeInode(node: seq<Slot>, k: nat): (i: nat)
    requires k <= |node|
    ensures k <= i <= |node| && (i < |node| ==> node[i].Free?)
    ensures forall j | k <= j < i :: node[j].Used?
    decreases |node| - k
  {
    if k == |node| || node[k].Free? then k else FreeInode(node, k + 1)
  }

  predicate IsDir(fs: Fs, d: nat) { d < |fs.node| && fs.node[d].Used? && fs.node[d].kind.DIR? }

  /** A directory that permission() does not reject as deleted. */
  predicate Live(fs: Fs, d: nat) { IsDir(fs, d) && fs.node[d].nlinks > 0 }

  /** get_dir: the directory a path of component names leads to; 0 when it leads nowhere.  Missing
      permission bits only make calls fail and are not modelled here. */
  function Walk(fs: Fs, d: nat, path: seq<string>): (r: nat)
    ensures r != 0 ==> Live(fs, r)
    decreases |path|
  {
    if !Live(fs, d) then 0
    else if path == [] then d
    else
      var entries := fs.node[d].entries;
      var k := FindEntry(entries, Trunc(path[0]), 0);
      if path[0] == "" || k == |entries| then 0 else Walk(fs, entries[k].ino, path[1..])
  }

  function SetSlot(fs: Fs, x: nat, s: Slot): Fs
    requires x < |fs.node|
  {
    fs.(node := fs.node[x := s])
  }

  /** The end of an iput: an inode without links and users is freed. */
  function Settle(fs: Fs, x: nat): Fs
  {
    if x < |fs.node| && fs.node[x].Used? && fs.node[x].nlinks == 0 && fs.node[x].count == 0
    then SetSlot(fs, x, Free) else fs
  }

  // ----- the calls; each starts at the working directory or root start -----

  /** room tells whether add_entry and new_block find space; write whether the permission bits allow it. */
  datatype Op =
    | Open(start: nat, path: seq<string>, name: string, creat: bool, write: bool, room: bool)
    | Close(x: nat)
    | Link(start: nat, path: seq<string>, name: string, start2: nat, path2: seq<string>, name2: string, write: bool,
        room: bool)
    | Unlink(start: nat, path: seq<string>, name: string, write: bool)
    | Mkdir(start: nat, path: seq<string>, name: string, write: bool, room: bool)
    | Rmdir(start: nat, path: seq<string>, name: string, write: bool)

  function Pin(fs: Fs, x: nat): Fs
  {
    if x < |fs.node| && fs.node[x].Used? then SetSlot(fs, x, fs.node[x].(count := fs.node[x].count + 1)) else fs
  }

  /** open_namei of a plain file name in directory d, at entry k or not found. */
  function DoOpen(fs: Fs, d: nat, name: string, creat: bool, write: bool, room: bool): Fs
    requires Live(fs, d)
  {
    var entries := fs.node[d].entries;
    var k := FindEntry(entries, name, 0);
    if k < |entries| then Pin(fs, entries[k].ino)
    else
      var x := FreeInode(fs.node, 1);
      if !creat || !write || x == |fs.node| || !room then fs
      else
        var fs1 := SetSlot(fs, x, Used(REG, 1, 1, []));
        SetSlot(fs1, d, fs1.node[d].(entries := Place(entries, FreeEntry(entries, 0), Entry(x, name))))
  }

  function DoLink(fs: Fs, x: nat, d: nat, name: string, write: bool, room: bool): Fs
    requires Live(fs, d)
  {
    var entries := fs.node[d].entries;
    if x >= |fs.node| || !fs.node[x].Used? || !fs.node[x].kind.REG? || !write || !room
        || FindEntry(entries, name, 0) < |entries| then fs
    else
      var fs1 := SetSlot(fs, d, fs.node[d].(entries := Place(entries, FreeEntry(entries, 0), Entry(x, name))));
      SetSlot(fs1, x, fs1.node[x].(nlinks := fs1.node[x].nlinks + 1))
  }

  function DoUnlink(fs: Fs, d: nat, name: string, write: bool): Fs
    requires Live(fs, d)
  {
    var entries := fs.node[d].entries;
    var k := FindEntry(entries, name, 0);
    if !write || k == |entries| then fs
    else
      var x := entries[k].ino;
      if x >= |fs.node| || !fs.node[x].Used? || !fs.node[x].kind.REG? then fs
      else
        UnlinkResult(fs, d, k, x, name)
  }

  /** Entry k of d no longer names the file x, and x has a link less. */
  function UnlinkResult(fs: Fs, d: nat, k: nat, x: nat, name: string): Fs
    requires Live(fs, d) && k < |fs.node[d].entries| && x < |fs.node| && fs.node[x].Used?
  {
    var n := if fs.node[x].nlinks == 0 then 1 else fs.node[x].nlinks;   // the code's repair
    var fs1 := SetSlot(fs, d, fs.node[d].(entries := fs.node[d].entries[k := Entry(0, name)]));
    Settle(SetSlot(fs1, x, fs1.node[x].(nlinks := n - 1)), x)
  }

  /** sys_mkdir.  When add_entry fails the code frees a block twice and panics: not modelled. */
  function DoMkdir(fs: Fs, d: nat, name: string, write: bool, room: bool): Fs
    requires Live(fs, d)
  {
    var entries := fs.node[d].entries;
    var x := FreeInode(fs.node, 1);
    if !write || FindEntry(entries, name, 0) < |entries| || x == |fs.node| || !room then fs
    else
      var fs1 := SetSlot(fs, x, Used(DIR, 2, 0, [Entry(x, "."), Entry(d, "..")]));
      SetSlot(fs1, d, fs1.node[d].(nlinks := fs1.node[d].nlinks + 1,
                                   entries := Place(entries, FreeEntry(entries, 0), Entry(x, name))))
  }

  /** empty_dir. */
  predicate EmptyDir(fs: Fs, x: nat)
    requires IsDir(fs, x)
  {
    var e := fs.node[x].entries;
    && |e| >= 2 && e[0] == Entry(x, ".") && e[1].ino != 0 && e[1].name == ".."
    && forall k | 2 <= k < |e| :: e[k].ino == 0
  }

  function DoRmdir(fs: Fs, d: nat, name: string, write: bool): Fs
    requires Live(fs, d)
  {
    var entries := fs.node[d].entries;
    var k := FindEntry(entries, name, 0);
    if k == |entries| || !write then fs
    else
      var x := entries[k].ino;
      if x == d || !IsDir(fs, x) || !EmptyDir(fs, x) then fs
      else
        RmdirResult(fs, d, k, x, name)
  }

  /** Entry k of d no longer names the directory x, which loses its links and d the one from its "..". */
  function RmdirResult(fs: Fs, d: nat, k: nat, x: nat, name: string): Fs
    requires Live(fs, d) && k < |fs.node[d].entries| && IsDir(fs, x)
  {
    var fs1 := SetSlot(fs, d,
        fs.node[d].(nlinks := fs.node[d].nlinks - 1, entries := fs.node[d].entries[k := Entry(0, name)]));
    Settle(Settle(SetSlot(fs1, x, fs1.node[x].(nlinks := 0)), d), x)
  }

  /** iput of an open file or working directory. */
  function DoClose(fs: Fs, x: nat): Fs
  {
    if x < |fs.node| && fs.node[x].Used? && fs.node[x].count > 0
    then Settle(SetSlot(fs, x, fs.node[x].(count := fs.node[x].count - 1)), x) else fs
  }

  function Step(fs: Fs, op: Op): Fs
  {
    match op
    case Open(start, path, name, creat, write, room) =>
      var d := Walk(fs, start, path);
      if d == 0 then fs else if name == "" then Pin(fs, d) else DoOpen(fs, d, Trunc(name), creat, write, room)
    case Close(x) => DoClose(fs, x)
    case Link(start, path, name, start2, path2, name2, write, room) =>
      var o := Walk(fs, start, path);
      var d := Walk(fs, start2, path2);
      if o == 0 || d == 0 || name2 == "" then fs
      else
        var entries := fs.node[o].entries;
        var k := FindEntry(entries, Trunc(name), 0);
        if name == "" || k == |entries| then fs else DoLink(fs, entries[k].ino, d, Trunc(name2), write, room)
    case Unlink(start, path, name, write) =>
      var d := Walk(fs, start, path);
      if d == 0 || name == "" then fs else DoUnlink(fs, d, Trunc(name), write)
    case Mkdir(start, path, name, write, room) =>
      var d := Walk(fs, start, path);
      if d == 0 || name == "" then fs else DoMkdir(fs, d, Trunc(name), write, room)
    case Rmdir(start, path, name, write) =>
      var d := Walk(fs, start, path);
      if d == 0 || name == "" then fs else DoRmdir(fs, d, Trunc(name), write)
  }

  // ----- the invariant -----

  /** The inodes the entries of a live directory name. */
  function Row(fs: Fs, d: nat): seq<nat>
  {
    if Live(fs, d) then Inos(fs.node[d].entries) else []
  }

  function Inos(entries: seq<Entry>): (row: seq<nat>)
    ensures |row| == |entries| && forall k | 0 <= k < |row| :: row[k] == entries[k].ino
  {
    seq(|entries|, k requires 0 <= k < |entries| => entries[k].ino)
  }

  function Rows(fs: Fs): (rows: seq<seq<nat>>)
    ensures |rows| == |fs.node| && forall d | 0 <= d < |rows| :: rows[d] == Row(fs, d)
  {
    seq(|fs.node|, d requires 0 <= d < |fs.node| => Row(fs, d))
  }

  /** How many entries of live directories, "." and ".." among them, name inode x. */
  function Named(fs: Fs, x: nat): nat { Total(Rows(fs), x) }

  function Links(fs: Fs, x: nat): nat
    requires x < |fs.node|
  {
    if fs.node[x].Used? then fs.node[x].nlinks else 0
  }

  ghost predicate Exact(fs: Fs)
  {
    forall x: nat | 1 <= x < |fs.node| :: Named(fs, x) == Links(fs, x)
  }

  /** Names within a directory are distinct. */
  ghost predicate DistinctNames(entries: seq<Entry>)
  {
    forall k, l | 0 <= k < l < |entries| && entries[k].ino != 0 && entries[l].ino != 0 ::
        entries[k].name != entries[l].name
  }

  /** Directory p holds an entry for directory d besides its "." and "..". */
  ghost predicate Holds(fs: Fs, p: nat, d: nat)
    requires Live(fs, p)
  {
    exists k :: 2 <= k < |fs.node[p].entries| && fs.node[p].entries[k].ino == d
  }

  /** A directory begins with "." and ".." and its entries name inodes of the device; the directory ".." names
      holds it. */
  ghost predicate GoodDir(fs: Fs, d: nat)
    requires Live(fs, d)
  {
    var e := fs.node[d].entries;
    && |e| >= 2 && e[0] == Entry(d, ".") && e[1].name == ".." && Live(fs, e[1].ino)
    && DistinctNames(e)
    && (forall k | 0 <= k < |e| :: e[k].ino < |fs.node|)
    && (if d == ROOT then e[1].ino == ROOT else e[1].ino != d && Holds(fs, e[1].ino, d))
  }

  /** Entry k of d names a directory and is neither "." nor "..". */
  predicate NamesDir(fs: Fs, d: nat, k: nat, x: nat)
  {
    Live(fs, d) && 2 <= k < |fs.node[d].entries| && fs.node[d].entries[k].ino == x && Live(fs, x)
  }

  /** Apart from "." and "..", at most one entry names a directory, and none the root. */
  ghost predicate Tree(fs: Fs)
  {
    && (forall d: nat, k: nat :: !NamesDir(fs, d, k, ROOT))
    && (forall d: nat, k: nat, d': nat, k': nat, x: nat | NamesDir(fs, d, k, x) && NamesDir(fs, d', k', x) ::
      d == d' && k == k')
  }

  ghost predicate Dirs(fs: Fs)
  {
    && Live(fs, ROOT) && !Live(fs, 0) && Tree(fs)
    && (forall d: nat | Live(fs, d) :: GoodDir(fs, d))
  }

  /** No inode without links and users stays allocated. */
  ghost predicate Settled(fs: Fs)
  {
    && |fs.node| > 0 && fs.node[0].Free?
    && forall x | 0 <= x < |fs.node| && fs.node[x].Used? && fs.node[x].nlinks == 0 :: fs.node[x].count > 0
  }

  ghost predicate Inv(fs: Fs) { Settled(fs) && Exact(fs) && Dirs(fs) }

  // ----- what a change of entries does to the directories -----

  /** All directories other than d are as before. */
  ghost predicate SameElse(fs: Fs, fs': Fs, d: nat)
  {
    && |fs'.node| == |fs.node|
    && forall y: nat | y != d ::
      Live(fs', y) == Live(fs, y) && (Live(fs, y) ==> fs'.node[y].entries == fs.node[y].entries)
  }

  /** Whether entries' is entries with an entry for x placed at j, where no entry was. */
  ghost predicate PlacedAt(entries: seq<Entry>, entries': seq<Entry>, j: nat, x: nat, name: string)
  {
    && 2 <= j <= |entries| && (j < |entries| ==> entries[j].ino == 0)
    && entries' == Place(entries, j, Entry(x, name))
    && forall k | 0 <= k < |entries| && entries[k].ino != 0 :: entries[k].name != name
  }

  lemma TreeShrinks(fs: Fs, fs': Fs)
    requires Tree(fs) && forall d: nat, k: nat, x: nat | NamesDir(fs', d, k, x) :: NamesDir(fs, d, k, x)
    ensures Tree(fs')
  {}

  /** A change at entry j of d, which named no directory, leaves every directory held where it was. */
  lemma HoldsStill(fs: Fs, fs': Fs, d: nat, j: nat, p: nat, y: nat)
    requires SameElse(fs, fs', d) && Live(fs, d) && Live(fs', d) && Live(fs, y)
    requires |fs.node[d].entries| <= |fs'.node[d].entries|
    requires j < |fs.node[d].entries| ==> !Live(fs, fs.node[d].entries[j].ino)
    requires forall i | 0 <= i < |fs.node[d].entries| && i != j :: fs'.node[d].entries[i] == fs.node[d].entries[i]
    requires Live(fs, p) && Holds(fs, p, y)
    ensures Holds(fs', p, y)
  {}

  /** The same change keeps the directories other than d in order. */
  lemma GoodStill(fs: Fs, fs': Fs, d: nat, j: nat, y: nat)
    requires SameElse(fs, fs', d) && Live(fs, d) && Live(fs', d) && Live(fs, y) && GoodDir(fs, y)
    requires |fs.node[d].entries| <= |fs'.node[d].entries|
    requires j < |fs.node[d].entries| ==> !Live(fs, fs.node[d].entries[j].ino)
    requires forall i | 0 <= i < |fs.node[d].entries| && i != j :: fs'.node[d].entries[i] == fs.node[d].entries[i]
    requires DistinctNames(fs'.node[y].entries) && forall i | 0 <= i < |fs'.node[y].entries| ::
      fs'.node[y].entries[i].ino < |fs.node|
    ensures Live(fs', y) && GoodDir(fs', y)
  {
    var p := fs.node[y].entries[1].ino;
    assert Live(fs, fs.node[y].entries[0].ino);
    if y != ROOT { HoldsStill(fs, fs', d, j, p, y); }
    hide Holds, DistinctNames;
  }

  lemma DistinctPlaced(entries: seq<Entry>, entries': seq<Entry>, j: nat, x: nat, name: string)
    requires DistinctNames(entries) && PlacedAt(entries, entries', j, x, name)
    ensures DistinctNames(entries')
  {}

  /** Nothing about the directories depends on inodes that are not live directories. */
  lemma DirsSame(fs: Fs, fs': Fs)
    requires Dirs(fs) && SameElse(fs, fs', ROOT) && Live(fs', ROOT) && fs'.node[ROOT].entries == fs.node[ROOT].entries
    ensures Dirs(fs')
  {
    assert Live(fs', 0) == Live(fs, 0);
    TreeShrinks(fs, fs') by {
      hide GoodDir, DistinctNames, Tree;
    }
    forall d: nat | Live(fs', d) ensures GoodDir(fs', d) {
      hide Tree, DistinctNames;
      assert GoodDir(fs, d);
      GoodStill(fs, fs', ROOT, |fs.node[ROOT].entries|, d);
    }
  }

  lemma DirsAddFile(fs: Fs, fs': Fs, d: nat, j: nat, x: nat, name: string)
    requires Dirs(fs) && SameElse(fs, fs', d) && Live(fs, d) && Live(fs', d)
    requires x < |fs.node| && !Live(fs, x) && PlacedAt(fs.node[d].entries, fs'.node[d].entries, j, x, name)
    ensures Dirs(fs')
  {
    assert GoodDir(fs, d);
    DistinctPlaced(fs.node[d].entries, fs'.node[d].entries, j, x, name);
    TreeShrinks(fs, fs') by {
      hide GoodDir, DistinctNames, Tree;
    }
    forall y: nat | Live(fs', y) ensures GoodDir(fs', y) {
      hide Tree, Holds, DistinctNames;
      assert GoodDir(fs, y);
      GoodStill(fs, fs', d, j, y);
    }
  }

  lemma DirsDropFile(fs: Fs, fs': Fs, d: nat, k: nat, name: string)
    requires Dirs(fs) && SameElse(fs, fs', d) && Live(fs, d) && Live(fs', d)
    requires k < |fs.node[d].entries| && !Live(fs, fs.node[d].entries[k].ino)
    requires fs'.node[d].entries == fs.node[d].entries[k := Entry(0, name)]
    ensures Dirs(fs')
  {
    assert GoodDir(fs, d);
    TreeShrinks(fs, fs') by {
      hide GoodDir, DistinctNames, Tree;
    }
    forall y: nat | Live(fs', y) ensures GoodDir(fs', y) {
      hide Tree, Holds;
      assert GoodDir(fs, y);
      GoodStill(fs, fs', d, k, y);
    }
  }

  // ----- what a change of entries does to the link counts -----

  lemma InosPlaced(entries: seq<Entry>, j: nat, x: nat, name: string, z: nat)
    requires j <= |entries| && (j < |entries| ==> entries[j].ino == 0) && z != 0
    ensures Count(Inos(Place(entries, j, Entry(x, name))), z) == Count(Inos(entries), z) + if z == x then 1 else 0
  {
    var row := Inos(entries);
    if j < |entries| {
      assert Inos(Place(entries, j, Entry(x, name))) == row[j := x];
      CountUpdate(row, j, x, z);
    } else {
      assert Inos(Place(entries, j, Entry(x, name))) == row + [x];
    }
  }

  lemma InosDropped(entries: seq<Entry>, k: nat, name: string, z: nat)
    requires k < |entries| && entries[k].ino != 0 && z != 0
    ensures Count(Inos(entries[k := Entry(0, name)]), z) + (if z == entries[k].ino then 1 else 0)
      == Count(Inos(entries), z)
  {
    var row := Inos(entries);
    assert Inos(entries[k := Entry(0, name)]) == row[k := 0];
    CountUpdate(row, k, 0, z);
  }

  /** A change of directory d alone changes the totals by the change of its row. */
  lemma NamedChange(fs: Fs, fs': Fs, d: nat, z: nat)
    requires SameElse(fs, fs', d) && d < |fs.node|
    ensures Named(fs', z) + Count(Row(fs, d), z) == Named(fs, z) + Count(Row(fs', d), z)
  {
    assert Rows(fs') == Rows(fs)[d := Row(fs', d)];
    TotalUpdate(Rows(fs), d, Row(fs', d), z);
  }

  lemma NamedAt(fs: Fs, d: nat, k: nat)
    requires Live(fs, d) && k < |fs.node[d].entries|
    ensures Named(fs, fs.node[d].entries[k].ino) >= 1
  {
    assert Row(fs, d)[k] == fs.node[d].entries[k].ino;
    CountPositive(Row(fs, d), k);
    TotalAtLeast(Rows(fs), d, fs.node[d].entries[k].ino);
  }

  /** Whatever a live directory names is allocated and has links. */
  lemma NamedIsLinked(fs: Fs, d: nat, k: nat)
    requires Inv(fs) && Live(fs, d) && k < |fs.node[d].entries| && fs.node[d].entries[k].ino != 0
    ensures
      var x := fs.node[d].entries[k].ino;
      x < |fs.node| && fs.node[x].Used? && fs.node[x].nlinks >= 1
  {
    hide Named;
    assert GoodDir(fs, d);
    NamedAt(fs, d, k);
  }

  // ----- every call keeps the invariant -----

  lemma ExactSame(fs: Fs, fs': Fs)
    requires Exact(fs) && SameElse(fs, fs', ROOT) && Live(fs, ROOT) && Live(fs', ROOT)
      && fs'.node[ROOT].entries == fs.node[ROOT].entries
    requires forall x: nat | 0 <= x < |fs.node| :: Links(fs', x) == Links(fs, x)
    ensures Exact(fs')
  {
    assert Rows(fs') == Rows(fs);
  }

  /** One entry more or less for x, and one link more or less. */
  lemma ExactAfter(fs: Fs, fs': Fs, x: nat, by1: int)
    requires Exact(fs) && |fs'.node| == |fs.node| && x < |fs.node|
    requires forall z: nat | 1 <= z < |fs.node| :: Named(fs', z) == Named(fs, z) + if z == x then by1 else 0
    requires forall z: nat | 0 <= z < |fs.node| :: Links(fs', z) == Links(fs, z) + if z == x then by1 else 0
    ensures Exact(fs')
  {}

  lemma RootIsLive(fs: Fs)
    requires Dirs(fs)
    ensures Live(fs, ROOT) && !Live(fs, 0)
  {}

  lemma PinKeeps(fs: Fs, x: nat)
    requires Inv(fs)
    ensures Inv(Pin(fs, x))
  {
    RootIsLive(fs);
    hide Dirs, Exact;
    var fs' := Pin(fs, x);
    assert SameElse(fs, fs', ROOT) && Settled(fs');
    assert forall y: nat | 0 <= y < |fs.node| :: Links(fs', y) == Links(fs, y);
    hide SameElse, Settled, Links;
    ExactSame(fs, fs');
    DirsSame(fs, fs');
  }

  lemma CloseKeeps(fs: Fs, x: nat)
    requires Inv(fs)
    ensures Inv(DoClose(fs, x))
  {
    RootIsLive(fs);
    hide Dirs, Exact;
    var fs' := DoClose(fs, x);
    assert SameElse(fs, fs', ROOT) && Settled(fs');
    assert forall y: nat | 0 <= y < |fs.node| :: Links(fs', y) == Links(fs, y);
    hide SameElse, Settled, Links;
    ExactSame(fs, fs');
    DirsSame(fs, fs');
  }

  /** Where a new entry of a good directory goes. */
  lemma FreeEntryPlaces(fs: Fs, d: nat, x: nat, name: string)
    requires Dirs(fs) && Live(fs, d) && FindEntry(fs.node[d].entries, name, 0) == |fs.node[d].entries|
    ensures
      var entries := fs.node[d].entries;
      PlacedAt(entries, Place(entries, FreeEntry(entries, 0), Entry(x, name)), FreeEntry(entries, 0), x, name)
  {
    hide Tree, DistinctNames, Holds;
    assert GoodDir(fs, d);
  }

  lemma RowAt(fs: Fs, d: nat)
    requires Live(fs, d)
    ensures Row(fs, d) == Inos(fs.node[d].entries)
  {}

  lemma NamedAdded(fs: Fs, fs': Fs, d: nat, j: nat, x: nat, name: string)
    requires SameElse(fs, fs', d) && Live(fs, d) && Live(fs', d)
      && PlacedAt(fs.node[d].entries, fs'.node[d].entries, j, x, name)
    ensures forall z: nat | 1 <= z < |fs.node| :: Named(fs', z) == Named(fs, z) + if z == x then 1 else 0
  {
    forall z: nat | 1 <= z < |fs.node| ensures Named(fs', z) == Named(fs, z) + if z == x then 1 else 0 {
      RowAt(fs, d);
      RowAt(fs', d);
      hide Named, Rows, Row, Place;
      NamedChange(fs, fs', d, z);
      InosPlaced(fs.node[d].entries, j, x, name, z);
    }
  }

  /** Directory d gets other entries and inode x another link count. */
  lemma LinksChange(fs: Fs, fs': Fs, d: nat, x: nat, by1: int)
    requires Settled(fs) && Live(fs, d) && 0 < x < |fs.node| && x != d && !Live(fs, x) && !Live(fs', x)
    requires |fs'.node| == |fs.node| && (forall y | 0 <= y < |fs.node| && y != x && y != d :: fs'.node[y] == fs.node[y])
    requires fs'.node[d].Used? && fs'.node[d] == fs.node[d].(entries := fs'.node[d].entries)
    requires Links(fs', x) == Links(fs, x) + by1
      && (fs'.node[x].Used? && fs'.node[x].nlinks == 0 ==> fs'.node[x].count > 0)
    ensures SameElse(fs, fs', d) && Settled(fs') && Live(fs', d)
    ensures forall z: nat | 0 <= z < |fs.node| :: Links(fs', z) == Links(fs, z) + if z == x then by1 else 0
  {}

  /** A new name for inode x, which is no directory, in directory d. */
  lemma AddNameKeeps(fs: Fs, fs': Fs, d: nat, x: nat, name: string)
    requires Inv(fs) && Live(fs, d) && FindEntry(fs.node[d].entries, name, 0) == |fs.node[d].entries|
    requires 0 < x < |fs.node| && x != d && !Live(fs, x) && !Live(fs', x)
    requires |fs'.node| == |fs.node| && (forall y | 0 <= y < |fs.node| && y != x && y != d :: fs'.node[y] == fs.node[y])
    requires fs'.node[d] == fs.node[d].(entries :=
      Place(fs.node[d].entries, FreeEntry(fs.node[d].entries, 0), Entry(x, name)))
    requires fs'.node[x].Used? && fs'.node[x].nlinks == Links(fs, x) + 1
    ensures Inv(fs')
  {
    hide Dirs, Exact, PlacedAt, FindEntry, FreeEntry, Named, Place, SameElse, Settled;
    RootIsLive(fs);
    var j := FreeEntry(fs.node[d].entries, 0);
    LinksChange(fs, fs', d, x, 1);
    hide Links;
    FreeEntryPlaces(fs, d, x, name);
    DirsAddFile(fs, fs', d, j, x, name);
    NamedAdded(fs, fs', d, j, x, name);
    ExactAfter(fs, fs', x, 1);
  }

  lemma OpenKeeps(fs: Fs, d: nat, name: string, creat: bool, write: bool, room: bool)
    requires Inv(fs) && Live(fs, d)
    ensures Inv(DoOpen(fs, d, name, creat, write, room))
  {
    hide Dirs, Exact;
    var entries := fs.node[d].entries;
    var k := FindEntry(entries, name, 0);
    var x := FreeInode(fs.node, 1);
    if k < |entries| {
      PinKeeps(fs, entries[k].ino);
    } else if creat && write && x < |fs.node| && room {
      AddNameKeeps(fs, DoOpen(fs, d, name, creat, write, room), d, x, name);
    }
  }

  lemma LinkKeeps(fs: Fs, x: nat, d: nat, name: string, write: bool, room: bool)
    requires Inv(fs) && Live(fs, d)
    ensures Inv(DoLink(fs, x, d, name, write, room))
  {
    hide Dirs, Exact;
    var fs' := DoLink(fs, x, d, name, write, room);
    if fs' != fs {
      assert x != 0;
      AddNameKeeps(fs, fs', d, x, name);
    }
  }

  lemma NamedDropped(fs: Fs, fs': Fs, d: nat, k: nat, name: string)
    requires SameElse(fs, fs', d) && Live(fs, d) && Live(fs', d)
    requires k < |fs.node[d].entries| && fs.node[d].entries[k].ino != 0
      && fs'.node[d].entries == fs.node[d].entries[k := Entry(0, name)]
    ensures forall z: nat | 1 <= z < |fs.node| ::
      Named(fs', z) == Named(fs, z) + if z == fs.node[d].entries[k].ino then -1 else 0
  {
    var x := fs.node[d].entries[k].ino;
    forall z: nat | 1 <= z < |fs.node| ensures Named(fs', z) == Named(fs, z) + if z == x then -1 else 0 {
      RowAt(fs, d);
      RowAt(fs', d);
      hide Named, Rows, Row;
      NamedChange(fs, fs', d, z);
      InosDropped(fs.node[d].entries, k, name, z);
    }
  }

  /** One name less for inode x, which is no directory. */
  lemma DropNameKeeps(fs: Fs, fs': Fs, d: nat, k: nat, x: nat, name: string)
    requires Inv(fs) && Live(fs, d) && k < |fs.node[d].entries| && fs.node[d].entries[k].ino == x
    requires 0 < x < |fs.node| && x != d && !Live(fs, x) && !Live(fs', x) && fs.node[x].Used? && fs.node[x].nlinks >= 1
    requires |fs'.node| == |fs.node| && (forall y | 0 <= y < |fs.node| && y != x && y != d :: fs'.node[y] == fs.node[y])
    requires fs'.node[d] == fs.node[d].(entries := fs.node[d].entries[k := Entry(0, name)])
    requires Links(fs', x) == fs.node[x].nlinks - 1
      && (fs'.node[x].Used? && fs'.node[x].nlinks == 0 ==> fs'.node[x].count > 0)
    ensures Inv(fs')
  {
    hide Dirs, Exact, Named, SameElse, Settled;
    RootIsLive(fs);
    LinksChange(fs, fs', d, x, -1);
    hide Links;
    DirsDropFile(fs, fs', d, k, name);
    NamedDropped(fs, fs', d, k, name);
    ExactAfter(fs, fs', x, -1);
  }

  lemma UnlinkKeeps(fs: Fs, d: nat, name: string, write: bool)
    requires Inv(fs) && Live(fs, d)
    ensures Inv(DoUnlink(fs, d, name, write))
  {
    hide Dirs, Exact;
    var fs' := DoUnlink(fs, d, name, write);
    var entries := fs.node[d].entries;
    var k := FindEntry(entries, name, 0);
    if fs' != fs {
      NamedIsLinked(fs, d, k);
      DropNameKeeps(fs, fs', d, k, entries[k].ino, name);
    }
  }

  /** An inode named once is named at one place. */
  lemma NamedOnce(fs: Fs, d: nat, k: nat, d': nat, k': nat)
    requires Live(fs, d) && k < |fs.node[d].entries| && Live(fs, d') && k' < |fs.node[d'].entries|
    requires fs.node[d].entries[k].ino == fs.node[d'].entries[k'].ino && Named(fs, fs.node[d].entries[k].ino) == 1
    ensures d == d' && k == k'
  {
    var x := fs.node[d].entries[k].ino;
    RowAt(fs, d);
    RowAt(fs, d');
    TotalAtLeast(Rows(fs), d, x);
    CountPositive(Row(fs, d), k);
    CountPositive(Row(fs, d'), k');
    if d != d' {
      TotalTwoRows(Rows(fs), d, d', x);
    } else if k != k' {
      CountTwice(Row(fs, d), if k < k' then k else k', if k < k' then k' else k);
    }
  }

  lemma GoodPromoted(fs: Fs, fs': Fs, x: nat, y: nat)
    requires SameElse(fs, fs', x) && !Live(fs, x) && Live(fs', x) && y != x && Live(fs, y) && GoodDir(fs, y)
    ensures Live(fs', y) && GoodDir(fs', y)
  {}

  lemma GoodNew(fs: Fs, fs': Fs, d: nat, j: nat, x: nat)
    requires SameElse(fs, fs', x) && Live(fs', x) && fs'.node[x].entries == [Entry(x, "."), Entry(d, "..")] && x != d
      && x != ROOT
    requires Live(fs, d) && 2 <= j < |fs.node[d].entries| && fs.node[d].entries[j].ino == x
    ensures GoodDir(fs', x)
  {}

  /** A file x named only at entry j of d becomes a directory with parent d. */
  lemma DirsPromote(fs: Fs, fs': Fs, d: nat, j: nat, x: nat)
    requires Dirs(fs) && x != 0 && SameElse(fs, fs', x) && !Live(fs, x) && Live(fs', x)
      && fs'.node[x].entries == [Entry(x, "."), Entry(d, "..")]
    requires Live(fs, d) && 2 <= j < |fs.node[d].entries| && fs.node[d].entries[j].ino == x && Named(fs, x) == 1
    ensures Dirs(fs')
  {
    RootIsLive(fs);
    TreeOf(fs);
    assert forall y: nat | y != x :: Live(fs', y) == Live(fs, y);
    hide Named, Dirs, SameElse, Tree, GoodDir;
    TreePromote(fs, fs', d, j, x);
    forall y: nat | Live(fs', y) ensures GoodDir(fs', y) {
      if y == x { GoodNew(fs, fs', d, j, x); } else { GoodOf(fs, y); GoodPromoted(fs, fs', x, y); }
    }
    DirsFrom(fs');
  }

  lemma TreeOf(fs: Fs)
    requires Dirs(fs)
    ensures Tree(fs)
  {}

  lemma GoodOf(fs: Fs, y: nat)
    requires Dirs(fs) && Live(fs, y)
    ensures GoodDir(fs, y)
  {}

  lemma DirsFrom(fs: Fs)
    requires Live(fs, ROOT) && !Live(fs, 0) && Tree(fs) && forall y: nat | Live(fs, y) :: GoodDir(fs, y)
    ensures Dirs(fs)
  {}

  lemma TreePromote(fs: Fs, fs': Fs, d: nat, j: nat, x: nat)
    requires Tree(fs) && SameElse(fs, fs', x) && !Live(fs, x) && Live(fs', x) && |fs'.node[x].entries| == 2 && x != ROOT
    requires Live(fs, d) && 2 <= j < |fs.node[d].entries| && fs.node[d].entries[j].ino == x && Named(fs, x) == 1
    ensures Tree(fs')
  {
    forall d1: nat, k1: nat, y: nat | NamesDir(fs', d1, k1, y)
      ensures if y == x then d1 == d && k1 == j else NamesDir(fs, d1, k1, y)
    {
      hide Tree, Named;
      if y == x { NamedOnce(fs, d, j, d1, k1); }
    }
    hide NamesDir, SameElse;
  }

  /** A second step of mkdir: the new inode x gets its "." and "..". */
  lemma PromoteKeeps(fs: Fs, fs': Fs, d: nat, j: nat, x: nat)
    requires Inv(fs) && Live(fs, d) && 2 <= j < |fs.node[d].entries| && fs.node[d].entries[j].ino == x
    requires 0 < x < |fs.node| && x != d && fs.node[x].Used? && fs.node[x].kind.REG? && fs.node[x].nlinks == 1
    requires fs' == Fs(fs.node[x := Used(DIR, 2, 0, [Entry(x, "."), Entry(d, "..")])][d :=
      fs.node[d].(nlinks := fs.node[d].nlinks + 1)])
    ensures Inv(fs')
  {
    assert Named(fs, x) == 1 && !Live(fs, x);
    PromoteShape(fs, fs', d, x);
    hide Settled, Links, Dirs, Named, Live, SameElse;
    DirsPromote(fs, fs', d, j, x);
    NamedPromoted(fs, fs', d, x);
  }

  lemma PromoteShape(fs: Fs, fs': Fs, d: nat, x: nat)
    requires Settled(fs) && Live(fs, d)
    requires 0 < x < |fs.node| && x != d && fs.node[x].Used? && fs.node[x].kind.REG? && fs.node[x].nlinks == 1
    requires fs' == Fs(fs.node[x := Used(DIR, 2, 0, [Entry(x, "."), Entry(d, "..")])][d :=
      fs.node[d].(nlinks := fs.node[d].nlinks + 1)])
    ensures SameElse(fs, fs', x) && Settled(fs') && Live(fs', x)
    ensures forall z: nat | 1 <= z < |fs.node| :: Links(fs', z) == Links(fs, z) + Count([x, d], z)
  {}

  lemma NamedPromoted(fs: Fs, fs': Fs, d: nat, x: nat)
    requires SameElse(fs, fs', x) && !Live(fs, x) && Live(fs', x)
      && fs'.node[x].entries == [Entry(x, "."), Entry(d, "..")]
    ensures forall z: nat | 1 <= z < |fs.node| :: Named(fs', z) == Named(fs, z) + Count([x, d], z)
  {
    forall z: nat | 1 <= z < |fs.node| ensures Named(fs', z) == Named(fs, z) + Count([x, d], z) {
      NamedChange(fs, fs', x, z);
      assert Row(fs, x) == [] && Row(fs', x) == [x, d];
    }
  }

  lemma MkdirKeeps(fs: Fs, d: nat, name: string, write: bool, room: bool)
    requires Inv(fs) && Live(fs, d)
    ensures Inv(DoMkdir(fs, d, name, write, room))
  {
    hide Dirs, Exact;
    var fs' := DoMkdir(fs, d, name, write, room);
    var entries, x := fs.node[d].entries, FreeInode(fs.node, 1);
    if fs' != fs {
      var mid := DoOpen(fs, d, name, true, true, true);
      OpenKeeps(fs, d, name, true, true, true);
      FreeEntryPlaces(fs, d, x, name);
      PromoteKeeps(mid, fs', d, FreeEntry(entries, 0), x);
    }
  }

  /** A directory other than the root is held by the one its ".." names. */
  lemma HeldByParent(fs: Fs, x: nat) returns (k: nat)
    requires Dirs(fs) && Live(fs, x) && x != ROOT
    ensures |fs.node[x].entries| >= 2 && NamesDir(fs, fs.node[x].entries[1].ino, k, x)
  {
    hide Tree, DistinctNames;
    assert GoodDir(fs, x);
    var p := fs.node[x].entries[1].ino;
    k :| 2 <= k < |fs.node[p].entries| && fs.node[p].entries[k].ino == x;
  }

  /** An empty directory is nobody's parent. */
  lemma EmptyHasNoChild(fs: Fs, x: nat, y: nat)
    requires Dirs(fs) && Live(fs, y) && Live(fs, x) && EmptyDir(fs, x) && x != ROOT
    ensures |fs.node[y].entries| >= 2 && fs.node[y].entries[0].ino == y && fs.node[y].entries[1].ino != x
  {}

  lemma NamesDirOnce(fs: Fs, d: nat, k: nat, d': nat, k': nat, x: nat)
    requires Tree(fs) && NamesDir(fs, d, k, x) && NamesDir(fs, d', k', x)
    ensures d == d' && k == k' && x != ROOT
  {}

  /** rmdir meets an empty directory only where its one entry stands: its ".." is that directory. */
  lemma EmptyIsLeaf(fs: Fs, d: nat, k: nat, x: nat)
    requires Inv(fs) && Live(fs, d) && k < |fs.node[d].entries|
    requires fs.node[d].entries[k].ino == x != d && Live(fs, x) && EmptyDir(fs, x)
    ensures NamesDir(fs, d, k, x) && x != ROOT && fs.node[x].entries[1].ino == d
    ensures forall y: nat, i: nat | Live(fs, y) && i < |fs.node[y].entries| && fs.node[y].entries[i].ino == x ::
              (y == d && i == k) || (y == x && i == 0)
  {
    hide Exact, Settled, Tree, DistinctNames, Holds, Dirs;
    RootIsLive(fs);
    TreeOf(fs);
    assert k >= 2 && x != ROOT by {
      GoodOf(fs, d);
      if k == 1 { var _ := HeldByParent(fs, d); }
      if k >= 2 { NamesDirOnce(fs, d, k, d, k, x); }
    }
    assert NamesDir(fs, d, k, x);
    var k2 := HeldByParent(fs, x);
    NamesDirOnce(fs, d, k, fs.node[x].entries[1].ino, k2, x);
    forall y: nat, i: nat | Live(fs, y) && i < |fs.node[y].entries| && fs.node[y].entries[i].ino == x
      ensures (y == d && i == k) || (y == x && i == 0)
    {
      hide EmptyDir;
      EmptyHasNoChild(fs, x, y);
      if i >= 2 { NamesDirOnce(fs, d, k, y, i, x); }
    }
  }

  lemma NotNamed(fs: Fs, x: nat)
    requires forall y: nat, i | Live(fs, y) && 0 <= i < |fs.node[y].entries| :: fs.node[y].entries[i].ino != x
    ensures Named(fs, x) == 0
  {
    forall y | 0 <= y < |Rows(fs)| ensures Count(Rows(fs)[y], x) == 0 {
      if Count(Row(fs, y), x) >= 1 {
        var i := CountWitness(Row(fs, y), x);
      }
    }
    TotalZero(Rows(fs), x);
  }

  /** What the entries of an empty directory count for. */
  lemma EmptyRow(fs: Fs, x: nat, z: nat)
    requires Live(fs, x) && EmptyDir(fs, x) && z != 0
    ensures Count(Row(fs, x), z) == (if z == x then 1 else 0) + if z == fs.node[x].entries[1].ino then 1 else 0
  {
    RowAt(fs, x);
    var row := Inos(fs.node[x].entries);
    assert row == [row[0]] + [row[1]] + row[2..];
    assert z !in row[2..];
  }

  /** fs without the directory x. */
  function Without(fs: Fs, x: nat): Fs
    requires x < |fs.node|
  {
    SetSlot(fs, x, Free)
  }

  lemma NamedWithout(fs: Fs, fs': Fs, x: nat)
    requires SameElse(fs, fs', x) && Live(fs, x) && EmptyDir(fs, x) && !Live(fs', x)
    ensures forall z: nat | 1 <= z < |fs.node| ::
      Named(fs, z) == Named(fs', z) + Count([x, fs.node[x].entries[1].ino], z)
  {
    forall z: nat | 1 <= z < |fs.node|
        ensures Named(fs, z) == Named(fs', z) + Count([x, fs.node[x].entries[1].ino], z) {
      hide Named, EmptyDir;
      NamedChange(fs, fs', x, z);
      EmptyRow(fs, x, z);
      assert Row(fs', x) == [];
    }
  }

  /** An empty directory has exactly two links, "." and its own name, and its parent at least two. */
  lemma EmptyHasTwoLinks(fs: Fs, d: nat, k: nat, x: nat)
    requires Inv(fs) && Live(fs, d) && k < |fs.node[d].entries|
    requires fs.node[d].entries[k].ino == x != d && Live(fs, x) && EmptyDir(fs, x)
    ensures fs.node[x].nlinks == 2 && fs.node[d].nlinks >= 2
  {
    RootIsLive(fs);
    EmptyIsLeaf(fs, d, k, x);
    EmptyHasNoChild(fs, x, d);
    hide Dirs, Settled, Named;
    assert Named(fs, x) == fs.node[x].nlinks && Named(fs, d) == fs.node[d].nlinks;
    hide Exact;
    EmptyIsNamedTwice(fs, d, k, x);
  }

  lemma EmptyIsNamedTwice(fs: Fs, d: nat, k: nat, x: nat)
    requires Live(fs, d) && 2 <= k < |fs.node[d].entries| && fs.node[d].entries[0].ino == d && d != 0
    requires fs.node[d].entries[k].ino == x != d && x != 0 && Live(fs, x) && EmptyDir(fs, x)
      && fs.node[x].entries[1].ino == d
    requires forall y: nat, i: nat | Live(fs, y) && i < |fs.node[y].entries| && fs.node[y].entries[i].ino == x ::
               (y == d && i == k) || (y == x && i == 0)
    ensures Named(fs, x) == 2 && Named(fs, d) >= 2
  {
    hide Named;
    var fs1 := Without(fs, x);
    assert SameElse(fs, fs1, x) && fs1.node[d] == fs.node[d];
    NamedWithout(fs, fs1, x);
    assert Count([x, d], x) == 1 && Count([x, d], d) == 1;
    hide EmptyDir, Count, SameElse;
    NamedAt(fs1, d, 0);
    NamedByOne(fs1, d, k, x);
  }

  lemma NamedByOne(fs: Fs, d: nat, k: nat, x: nat)
    requires Live(fs, d) && k < |fs.node[d].entries| && fs.node[d].entries[k].ino == x != 0 && x < |fs.node|
    requires forall y: nat, i: nat | Live(fs, y) && i < |fs.node[y].entries| && fs.node[y].entries[i].ino == x ::
      y == d && i == k
    ensures Named(fs, x) == 1
  {
    var fs2 := SetSlot(fs, d, fs.node[d].(entries := fs.node[d].entries[k := Entry(0, "")]));
    hide Named;
    NamedDropped(fs, fs2, d, k, "");
    forall y: nat, i | Live(fs2, y) && 0 <= i < |fs2.node[y].entries| ensures fs2.node[y].entries[i].ino != x {
      assert Live(fs, y);
    }
    NotNamed(fs2, x);
  }

  lemma GoodDemoted(fs: Fs, fs': Fs, x: nat, y: nat)
    requires SameElse(fs, fs', x) && !Live(fs', x) && y != x && Live(fs, y) && GoodDir(fs, y)
      && fs.node[y].entries[1].ino != x
    ensures Live(fs', y) && GoodDir(fs', y)
  {}

  lemma DirsDemote(fs: Fs, fs': Fs, x: nat)
    requires Dirs(fs) && SameElse(fs, fs', x) && Live(fs, x) && EmptyDir(fs, x) && !Live(fs', x) && x != ROOT
    ensures Dirs(fs')
  {
    RootIsLive(fs);
    TreeOf(fs);
    assert forall y: nat | y != x :: Live(fs', y) == Live(fs, y);
    TreeShrinks(fs, fs') by { hide Tree, Dirs, EmptyDir; }
    hide Dirs, SameElse, Tree, GoodDir, EmptyDir;
    forall y: nat | Live(fs', y) ensures GoodDir(fs', y) {
      GoodOf(fs, y);
      EmptyHasNoChild(fs, x, y);
      GoodDemoted(fs, fs', x, y);
    }
    DirsFrom(fs');
  }

  /** The state in which x is a plain file with the one name it has in d. */
  function Demoted(fs: Fs, d: nat, x: nat): Fs
    requires d < |fs.node| && x < |fs.node| && d != x && fs.node[d].Used? && fs.node[d].nlinks > 0 && fs.node[x].Used?
  {
    SetSlot(SetSlot(fs, x, Used(REG, 1, fs.node[x].count, [])), d, fs.node[d].(nlinks := fs.node[d].nlinks - 1))
  }

  lemma DemoteShape(fs: Fs, d: nat, x: nat)
    requires Settled(fs) && Live(fs, d) && fs.node[d].nlinks >= 2 && Live(fs, x) && fs.node[x].nlinks == 2 && x != d
    ensures
      var fs' := Demoted(fs, d, x);
      && SameElse(fs, fs', x) && Settled(fs') && !Live(fs', x)
      && forall z: nat | 1 <= z < |fs.node| :: Links(fs, z) == Links(fs', z) + Count([x, d], z)
  {}

  lemma DemoteKeeps(fs: Fs, d: nat, k: nat, x: nat)
    requires Inv(fs) && Live(fs, d) && k < |fs.node[d].entries|
    requires fs.node[d].entries[k].ino == x != d && Live(fs, x) && EmptyDir(fs, x)
    ensures Inv(Demoted(fs, d, x))
  {
    EmptyHasTwoLinks(fs, d, k, x);
    EmptyIsLeaf(fs, d, k, x);
    DemoteShape(fs, d, x);
    var fs' := Demoted(fs, d, x);
    hide Settled, Links, Dirs, Named, Live, SameElse, EmptyDir, Demoted;
    DirsDemote(fs, fs', x);
    NamedWithout(fs, fs', x);
  }

  lemma RmdirKeeps(fs: Fs, d: nat, name: string, write: bool)
    requires Inv(fs) && Live(fs, d)
    ensures Inv(DoRmdir(fs, d, name, write))
  {
    hide Dirs, Exact;
    RootIsLive(fs);
    var fs' := DoRmdir(fs, d, name, write);
    var k := FindEntry(fs.node[d].entries, name, 0);
    if fs' != fs {
      var x := fs.node[d].entries[k].ino;
      NamedIsLinked(fs, d, k);
      EmptyHasTwoLinks(fs, d, k, x);
      DemoteKeeps(fs, d, k, x);
      hide EmptyDir;
      DropNameKeeps(Demoted(fs, d, x), fs', d, k, x, name);
    }
  }

  /** Every call keeps the invariant. */
  lemma StepKeeps(fs: Fs, op: Op)
    requires Inv(fs)
    ensures Inv(Step(fs, op))
  {
    hide Inv, Walk, DoOpen, DoLink, DoUnlink, DoMkdir, DoRmdir, DoClose, Pin, FindEntry;
    match op
    case Open(start, path, name, creat, write, room) =>
      var d := Walk(fs, start, path);
      PinKeeps(fs, d);
      if d != 0 { OpenKeeps(fs, d, Trunc(name), creat, write, room); }
    case Close(x) => CloseKeeps(fs, x);
    case Link(start, path, name, start2, path2, name2, write, room) =>
      var o, d := Walk(fs, start, path), Walk(fs, start2, path2);
      if o != 0 && d != 0 {
        var entries := fs.node[o].entries;
        var k := FindEntry(entries, Trunc(name), 0);
        if k < |entries| { LinkKeeps(fs, entries[k].ino, d, Trunc(name2), write, room); }
      }
    case Unlink(start, path, name, write) =>
      var d := Walk(fs, start, path);
      if d != 0 { UnlinkKeeps(fs, d, Trunc(name), write); }
    case Mkdir(start, path, name, write, room) =>
      var d := Walk(fs, start, path);
      if d != 0 { MkdirKeeps(fs, d, Trunc(name), write, room); }
    case Rmdir(start, path, name, write) =>
      var d := Walk(fs, start, path);
      if d != 0 { RmdirKeeps(fs, d, Trunc(name), write); }
  }

  function Run(fs: Fs, ops: seq<Op>): Fs
  {
    if ops == [] then fs else Step(Run(fs, ops[..|ops| - 1]), ops[|ops| - 1])
  }

  lemma {:induction false} RunKeeps(fs: Fs, ops: seq<Op>)
    requires Inv(fs)
    ensures Inv(Run(fs, ops))
  {
    hide Inv, Step;
    if ops != [] {
      RunKeeps(fs, ops[..|ops| - 1]);
      StepKeeps(Run(fs, ops[..|ops| - 1]), ops[|ops| - 1]);
    }
  }

  /** A fresh file system: an empty root directory. */
  function Fresh(n: nat): Fs
    requires n >= 2
  {
    Fs(seq(n, x => if x == ROOT then Used(DIR, 2, 1, [Entry(ROOT, "."), Entry(ROOT, "..")]) else Free))
  }

  lemma FreshIsInv(n: nat)
    requires n >= 2
    ensures Inv(Fresh(n))
  {
    var fs := Fresh(n);
    forall x: nat | 1 <= x < n ensures Named(fs, x) == Links(fs, x) {
      var none := Without(fs, ROOT);
      NamedWithout(fs, none, ROOT);
      NotNamed(none, x);
    }
  }

  /** Over every run of calls from a fresh file system, an inode's link count is the number of entries of
      live directories that name it, unused inodes are named nowhere, and names within a directory are distinct. */
  lemma LinkCountsAreExact(n: nat, ops: seq<Op>, x: nat)
    requires n >= 2
    ensures
      var fs := Run(Fresh(n), ops);
      && |fs.node| == n
      && (1 <= x < n ==> Named(fs, x) == if fs.node[x].Used? then fs.node[x].nlinks else 0)
      && (Live(fs, x) ==> DistinctNames(fs.node[x].entries))
  {
    hide Step;
    FreshIsInv(n);
    RunKeeps(Fresh(n), ops);
    RunSize(Fresh(n), ops);
    var fs := Run(Fresh(n), ops);
    hide Run, Fresh;
    if Live(fs, x) { GoodOf(fs, x); }
  }

  lemma StepSize(fs: Fs, op: Op)
    ensures |Step(fs, op).node| == |fs.node|
  {
    hide Walk, FindEntry, FreeEntry, FreeInode, EmptyDir, Place;
  }

  lemma {:induction false} RunSize(fs: Fs, ops: seq<Op>)
    ensures |Run(fs, ops).node| == |fs.node|
  {
    hide Step;
    if ops != [] {
      RunSize(fs, ops[..|ops| - 1]);
      StepSize(Run(fs, ops[..|ops| - 1]), ops[|ops| - 1]);
    }
  }

  /** Directory x is freed, or stays deleted with the entries it has. */
  predicate StaysDead(fs: Fs, fs': Fs, x: nat)
    requires IsDir(fs, x)
  {
    && |fs'.node| == |fs.node|
    && (fs'.node[x].Used? ==>
      fs'.node[x].kind.DIR? && fs'.node[x].nlinks == 0 && fs'.node[x].entries == fs.node[x].entries)
  }

  lemma DeadUnderEntries(fs: Fs, d: nat, name: string, x: nat)
    requires IsDir(fs, x) && fs.node[x].nlinks == 0 && Live(fs, d)
    ensures forall creat, write, room :: StaysDead(fs, DoOpen(fs, d, name, creat, write, room), x)
    ensures forall write, room :: StaysDead(fs, DoMkdir(fs, d, name, write, room), x)
    ensures forall y: nat, write, room :: StaysDead(fs, DoLink(fs, y, d, name, write, room), x)
  {
    hide FindEntry, FreeEntry, FreeInode, Place;
  }

  lemma DeadUnderRemoval(fs: Fs, d: nat, name: string, x: nat)
    requires IsDir(fs, x) && fs.node[x].nlinks == 0 && Live(fs, d)
    ensures forall write :: StaysDead(fs, DoUnlink(fs, d, name, write), x)
    ensures forall write :: StaysDead(fs, DoRmdir(fs, d, name, write), x)
  {
    hide FindEntry, EmptyDir;
  }

  /** A deleted directory gains no entries: no call finds its way there, and it stays as it is until it is freed. */
  lemma DeletedGainsNoEntries(fs: Fs, op: Op, x: nat)
    requires IsDir(fs, x) && fs.node[x].nlinks == 0
    ensures StaysDead(fs, Step(fs, op), x)
  {
    hide Walk, FindEntry, DoOpen, DoMkdir, DoLink, DoUnlink, DoRmdir;
    match op
    case Open(start, path, name, _, _, _) =>
      if Walk(fs, start, path) != 0 { DeadUnderEntries(fs, Walk(fs, start, path), Trunc(name), x); }
    case Close(_) =>
    case Link(_, _, _, start2, path2, name2, _, _) =>
      if Walk(fs, start2, path2) != 0 { DeadUnderEntries(fs, Walk(fs, start2, path2), Trunc(name2), x); }
    case Unlink(start, path, name, _) =>
      if Walk(fs, start, path) != 0 { DeadUnderRemoval(fs, Walk(fs, start, path), Trunc(name), x); }
    case Mkdir(start, path, name, _, _) =>
      if Walk(fs, start, path) != 0 { DeadUnderEntries(fs, Walk(fs, start, path), Trunc(name), x); }
    case Rmdir(start, path, name, _) =>
      if Walk(fs, start, path) != 0 { DeadUnderRemoval(fs, Walk(fs, start, path), Trunc(name), x); }
  }

  lemma FindPlaced(entries: seq<Entry>, entries': seq<Entry>, j: nat, x: nat, name: string)
    requires PlacedAt(entries, entries', j, x, name) && x != 0
    ensures FindEntry(entries', name, 0) == j < |entries'|
  {
    assert entries'[j] == Entry(x, name);
    hide FindEntry;
  }

  /** rmdir undoes mkdir: the new inode is free again and only an empty entry is left behind. */
  lemma RmdirUndoesMkdir(fs: Fs, d: nat, name: string)
    requires Inv(fs) && Live(fs, d) && DoMkdir(fs, d, name, true, true) != fs
    ensures
      var entries := fs.node[d].entries;
      DoRmdir(DoMkdir(fs, d, name, true, true), d, name, true) ==
        SetSlot(fs, d, fs.node[d].(entries := Place(entries, FreeEntry(entries, 0), Entry(0, name))))
  {
    MkdirShape(fs, d, name);
    hide Dirs, Exact, PlacedAt, FindEntry, FreeEntry, FreeInode, DoRmdir, DoMkdir, Place;
    RootIsLive(fs);
    var entries, x, j := fs.node[d].entries, FreeInode(fs.node, 1), FreeEntry(fs.node[d].entries, 0);
    FreeEntryPlaces(fs, d, x, name);
    FindPlaced(entries, Place(entries, j, Entry(x, name)), j, x, name);
    RmdirAt(fs, DoMkdir(fs, d, name, true, true), d, x, j, name);
  }

  lemma MkdirShape(fs: Fs, d: nat, name: string)
    requires Live(fs, d) && DoMkdir(fs, d, name, true, true) != fs
    ensures
      var entries, x := fs.node[d].entries, FreeInode(fs.node, 1);
      && x < |fs.node| && FindEntry(entries, name, 0) == |entries|
      && DoMkdir(fs, d, name, true, true)
        == SetSlot(SetSlot(fs, x, Used(DIR, 2, 0, [Entry(x, "."), Entry(d, "..")])), d,
           fs.node[d].(nlinks := fs.node[d].nlinks + 1,
               entries := Place(entries, FreeEntry(entries, 0), Entry(x, name))))
  {}

  /** What rmdir does right after mkdir has put x at entry j. */
  lemma RmdirAt(fs: Fs, mid: Fs, d: nat, x: nat, j: nat, name: string)
    requires Live(fs, d) && 0 < x < |fs.node| && x != d && d != 0 && fs.node[x].Free? && j <= |fs.node[d].entries|
    requires mid == SetSlot(SetSlot(fs, x, Used(DIR, 2, 0, [Entry(x, "."), Entry(d, "..")])), d,
                            fs.node[d].(nlinks := fs.node[d].nlinks + 1,
                                entries := Place(fs.node[d].entries, j, Entry(x, name))))
    requires PlacedAt(fs.node[d].entries, mid.node[d].entries, j, x, name)
      && FindEntry(mid.node[d].entries, name, 0) == j
    ensures DoRmdir(mid, d, name, true)
      == SetSlot(fs, d, fs.node[d].(entries := Place(fs.node[d].entries, j, Entry(0, name))))
  {
    hide FindEntry;
    var fs' := DoRmdir(mid, d, name, true);
    assert EmptyDir(mid, x);
    assert fs'.node[d].entries == Place(fs.node[d].entries, j, Entry(0, name));
    assert forall y | 0 <= y < |fs.node| && y != d :: fs'.node[y] == fs.node[y];
  }
}
