/** Open files (fs/open.c:67-191, fs/fcntl.c:12-39, fs/pipe.c:52-92, kernel/fork.c:115-121,
    kernel/exit.c:73-79): the counts of the file table and of the inode table over runs of calls. */
module Descriptors {
  import opened Counting

  const EBADF: int := 9
  const EINVAL: int := 22
  const EMFILE: int := 24

  datatype File = File(count: nat, ino: nat)

  /** filp holds NR_OPEN = 20 file table indexes, 64 for NULL; pwd and root are inode table indexes, 32 for NULL. */
  datatype Task = Task(live: bool, filp: seq<nat>, pwd: nat, root: nat)

  /** icount is i_count of each slot of the inode table; there are NR_FILE = 64 files and NR_INODE = 32 inodes. */
  datatype Sys = Sys(task: seq<Task>, file: seq<File>, icount: seq<nat>)

  predicate Shape(s: Sys)
  {
    && |s.file| == 64 && |s.icount| == 32
    && (forall t | 0 <= t < |s.task| :: |s.task[t].filp| == 20 && s.task[t].pwd <= 32 && s.task[t].root <= 32)
    && (forall t, k | 0 <= t < |s.task| && 0 <= k < 20 :: s.task[t].filp[k] <= 64)
    && (forall f | 0 <= f < 64 :: s.file[f].ino <= 32 && (s.file[f].count > 0 ==> s.file[f].ino < 32))
  }

  type Table = s: Sys | Shape(s) witness Sys([], seq(64, f => File(0, 32)), seq(32, i => 0))

  predicate Has(s: Table, t: nat, fd: nat) { t < |s.task| && s.task[t].live && fd < 20 && s.task[t].filp[fd] < 64 }

  function SetFilp(s: Table, t: nat, fd: nat, f: nat): (r: Table)
    requires t < |s.task| && fd < 20 && f <= 64
  {
    s.(task := s.task[t := s.task[t].(filp := s.task[t].filp[fd := f])])
  }

  /** The first fd, from the given one on, that is not in use; 20 when there is none. */
  function FreeFd(filp: seq<nat>, fd: nat): (r: nat)
    requires |filp| == 20 && fd <= 20
    ensures fd <= r <= 20 && (r < 20 ==> filp[r] == 64) && forall k | fd <= k < r :: filp[k] != 64
    decreases 20 - fd
  {
    if fd == 20 || filp[fd] == 64 then fd else FreeFd(filp, fd + 1)
  }

  function FreeFile(file: seq<File>, f: nat): (r: nat)
    requires |file| == 64 && f <= 64
    ensures f <= r <= 64 && (r < 64 ==> file[r].count == 0) && forall k | f <= k < r :: file[k].count > 0
    decreases 64 - f
  {
    if f == 64 || file[f].count == 0 then f else FreeFile(file, f + 1)
  }

  /** Another descriptor for an open file. */
  function Share(s: Table, t: nat, fd: nat, f: nat): (r: Table)
    requires t < |s.task| && fd < 20 && f < 64 && s.file[f].count > 0
  {
    SetFilp(s, t, fd, f).(file := s.file[f := s.file[f].(count := s.file[f].count + 1)])
  }

  /** A first descriptor for a file on an inode that one more user has been counted for. */
  function Attach(s: Table, t: nat, fd: nat, f: nat, ino: nat): (r: Table)
    requires t < |s.task| && fd < 20 && f < 64 && ino < 32
  {
    SetFilp(s, t, fd, f).(file := s.file[f := File(1, ino)], icount := s.icount[ino := s.icount[ino] + 1])
  }

  /** iput, for the count: 0 is the end of the inode's use. */
  function Iput(s: Table, ino: nat): (r: Table)
  {
    if ino < 32 && s.icount[ino] > 0 then s.(icount := s.icount[ino := s.icount[ino] - 1]) else s
  }

  // ----- the calls of task t: the new state and the result -----

  /** sys_close. */
  function Close(s: Table, t: nat, fd: nat): (Table, int)
    requires t < |s.task|
  {
    if fd >= 20 || s.task[t].filp[fd] == 64 then (s, -EINVAL)
    else
      var f := s.task[t].filp[fd];
      var s1 := SetFilp(s, t, fd, 64);
      if s.file[f].count > 1 then (s1.(file := s.file[f := s.file[f].(count := s.file[f].count - 1)]), 0)
      else (Iput(s1.(file := s.file[f := s.file[f].(count := 0)]), s.file[f].ino), 0)
  }

  /** sys_open; ino is the inode open_namei leaves with one more user, or 32 when it fails with the given code. */
  function Open(s: Table, t: nat, ino: nat, error: int): (Table, int)
    requires t < |s.task|
  {
    var fd, f := FreeFd(s.task[t].filp, 0), FreeFile(s.file, 0);
    if fd == 20 || f == 64 then (s, -EINVAL)
    else if ino >= 32 then (s, -error)
    else (Attach(s, t, fd, f, ino), fd)
  }

  /** dupfd. */
  function DupFd(s: Table, t: nat, fd: nat, arg: nat): (Table, int)
    requires t < |s.task|
  {
    if fd >= 20 || s.task[t].filp[fd] == 64 || s.file[s.task[t].filp[fd]].count == 0 then (s, -EBADF)
    else if arg >= 20 then (s, -EINVAL)
    else
      var to := FreeFd(s.task[t].filp, arg);
      if to == 20 then (s, -EMFILE) else (Share(s, t, to, s.task[t].filp[fd]), to)
  }

  /** sys_dup2. */
  function Dup2(s: Table, t: nat, oldfd: nat, newfd: nat): (Table, int)
    requires t < |s.task|
  {
    DupFd(Close(s, t, newfd).0, t, oldfd, newfd)
  }

  /** sys_pipe; ino is the slot get_pipe_inode gives, 32 when it fails. */
  function Pipe(s: Table, t: nat, ino: nat): (Table, int)
    requires t < |s.task|
  {
    var f0 := FreeFile(s.file, 0);
    var f1 := if f0 < 64 then FreeFile(s.file, f0 + 1) else 64;
    var fd0 := FreeFd(s.task[t].filp, 0);
    var fd1 := if fd0 < 20 then FreeFd(s.task[t].filp, fd0 + 1) else 20;
    if f1 == 64 || fd1 == 20 || ino >= 32 || s.icount[ino] != 0 then (s, -1)
    else (Attach(Attach(s, t, fd0, f0, ino), t, fd1, f1, ino), 0)
  }

  function AddUser(s: Table, ino: nat): (r: Table)
  {
    if ino < 32 then s.(icount := s.icount[ino := s.icount[ino] + 1]) else s
  }

  /** The child nr with the first i descriptors of filp. */
  function ForkFiles(s: Table, nr: nat, filp: seq<nat>, i: nat): (r: Table)
    requires nr < |s.task| && i <= |filp| == 20 && forall k | 0 <= k < 20 :: filp[k] <= 64
    ensures |r.task| == |s.task|
  {
    if i == 0 then s.(task := s.task[nr := Task(true, NoFiles(), 32, 32)])
    else
      var s1 := ForkFiles(s, nr, filp, i - 1);
      if filp[i - 1] < 64 && s1.file[filp[i - 1]].count > 0 then Share(s1, nr, i - 1, filp[i - 1]) else s1
  }

  function NoFiles(): (r: seq<nat>)
    ensures |r| == 20 && forall k | 0 <= k < 20 :: r[k] == 64
  {
    seq(20, k => 64)
  }

  function SetPwd(s: Table, t: nat, ino: nat): (r: Table)
    requires t < |s.task| && ino <= 32
  {
    AddUser(s.(task := s.task[t := s.task[t].(pwd := ino)]), ino)
  }

  function SetRoot(s: Table, t: nat, ino: nat): (r: Table)
    requires t < |s.task| && ino <= 32
  {
    AddUser(s.(task := s.task[t := s.task[t].(root := ino)]), ino)
  }

  /** copy_process of task t into slot nr: the descriptors, then pwd and root. */
  function Fork(s: Table, t: nat, nr: nat): (r: Table)
    requires t < |s.task| && nr < |s.task|
  {
    if s.task[nr].live || nr == t then s
    else SetRoot(SetPwd(ForkFiles(s, nr, s.task[t].filp, 20), nr, s.task[t].pwd), nr, s.task[t].root)
  }

  function CloseAll(s: Table, t: nat, fd: nat): (r: Table)
    requires t < |s.task| && fd <= 20
    ensures |r.task| == |s.task|
  {
    if fd == 0 then s else Close(CloseAll(s, t, fd - 1), t, fd - 1).0
  }

  function DropPwd(s: Table, t: nat): (r: Table)
    requires t < |s.task|
  {
    Iput(s.(task := s.task[t := s.task[t].(pwd := 32)]), s.task[t].pwd)
  }

  function DropRoot(s: Table, t: nat): (r: Table)
    requires t < |s.task|
  {
    Iput(s.(task := s.task[t := s.task[t].(root := 32)]), s.task[t].root)
  }

  /** do_exit. */
  function Exit(s: Table, t: nat): (r: Table)
    requires t < |s.task|
  {
    var s1 := DropRoot(DropPwd(CloseAll(s, t, 20), t), t);
    s1.(task := s1.task[t := s1.task[t].(live := false)])
  }

  /** sys_chdir and sys_chroot; ino is the directory namei leaves with one more user, 32 when they fail. */
  function Chdir(s: Table, t: nat, ino: nat): (r: Table)
    requires t < |s.task|
  {
    if ino >= 32 then s else SetPwd(DropPwd(s, t), t, ino)
  }

  function Chroot(s: Table, t: nat, ino: nat): (r: Table)
    requires t < |s.task|
  {
    if ino >= 32 then s else SetRoot(DropRoot(s, t), t, ino)
  }

  datatype Call =
    | CClose(t: nat, fd: nat)
    | COpen(t: nat, ino: nat)
    | CDup(t: nat, fd: nat, arg: nat)
    | CDup2(t: nat, oldfd: nat, newfd: nat)
    | CPipe(t: nat, ino: nat)
    | CFork(t: nat, nr: nat)
    | CExit(t: nat)
    | CChdir(t: nat, ino: nat)
    | CChroot(t: nat, ino: nat)

  function Step(s: Table, c: Call): (r: Table)
  {
    if c.t >= |s.task| || !s.task[c.t].live then s
    else
      match c
      case CClose(t, fd) => Close(s, t, fd).0
      case COpen(t, ino) => Open(s, t, ino, 0).0
      case CDup(t, fd, arg) => DupFd(s, t, fd, arg).0
      case CDup2(t, oldfd, newfd) => Dup2(s, t, oldfd, newfd).0
      case CPipe(t, ino) => Pipe(s, t, ino).0
      case CFork(t, nr) => if nr < |s.task| then Fork(s, t, nr) else s
      case CExit(t) => Exit(s, t)
      case CChdir(t, ino) => Chdir(s, t, ino)
      case CChroot(t, ino) => Chroot(s, t, ino)
  }

  // ----- the invariant -----

  function Filps(task: seq<Task>): (r: seq<seq<nat>>)
    ensures |r| == |task| && forall t | 0 <= t < |task| :: r[t] == task[t].filp
  {
    seq(|task|, t requires 0 <= t < |task| => task[t].filp)
  }

  /** How many descriptors of all tasks point at file f. */
  function Slots(s: Sys, f: nat): nat { Total(Filps(s.task), f) }

  function FileInos(file: seq<File>): (r: seq<nat>)
    ensures |r| == |file| && forall f | 0 <= f < |file| :: r[f] == if file[f].count > 0 then file[f].ino else 32
  {
    seq(|file|, f requires 0 <= f < |file| => if file[f].count > 0 then file[f].ino else 32)
  }

  function Pwds(task: seq<Task>): (r: seq<nat>)
    ensures |r| == |task| && forall t | 0 <= t < |task| :: r[t] == task[t].pwd
  {
    seq(|task|, t requires 0 <= t < |task| => task[t].pwd)
  }

  function Roots(task: seq<Task>): (r: seq<nat>)
    ensures |r| == |task| && forall t | 0 <= t < |task| :: r[t] == task[t].root
  {
    seq(|task|, t requires 0 <= t < |task| => task[t].root)
  }

  /** How many open files, working directories and roots use inode i. */
  function Users(s: Sys, i: nat): nat { Count(FileInos(s.file), i) + Count(Pwds(s.task), i) + Count(Roots(s.task), i) }

  ghost predicate Dead(task: Task) { task.filp == NoFiles() && task.pwd == 32 && task.root == 32 }

  ghost predicate Inv(s: Table)
  {
    && (forall f: nat | f < 64 :: Slots(s, f) == s.file[f].count)
    && (forall i: nat | i < 32 :: Users(s, i) == s.icount[i])
    && (forall t | 0 <= t < |s.task| && !s.task[t].live :: Dead(s.task[t]))
  }

  // ----- how the counts change -----

  lemma SlotsSet(s: Table, t: nat, fd: nat, f: nat, g: nat)
    requires t < |s.task| && fd < 20 && f <= 64
    ensures Slots(SetFilp(s, t, fd, f), g) + (if s.task[t].filp[fd] == g then 1 else 0) == Slots(s, g)
      + if f == g then 1 else 0
  {
    var row := s.task[t].filp;
    assert Filps(SetFilp(s, t, fd, f).task) == Filps(s.task)[t := row[fd := f]];
    TotalUpdate(Filps(s.task), t, row[fd := f], g);
    CountUpdate(row, fd, f, g);
  }

  lemma SlotsSame(s: Sys, s': Sys, g: nat)
    requires |s'.task| == |s.task| && forall t | 0 <= t < |s.task| :: s'.task[t].filp == s.task[t].filp
    ensures Slots(s', g) == Slots(s, g)
  {
    assert Filps(s'.task) == Filps(s.task);
  }

  /** One file changes: its inode gains or loses a user. */
  lemma UsersFile(s: Sys, s': Sys, f: nat, x: File, i: nat)
    requires f < |s.file| && s'.file == s.file[f := x] && |s'.task| == |s.task|
    requires forall t | 0 <= t < |s.task| :: s'.task[t].pwd == s.task[t].pwd && s'.task[t].root == s.task[t].root
    requires i < 32
    ensures Users(s', i) + (if s.file[f].count > 0 && s.file[f].ino == i then 1 else 0) == Users(s, i)
      + if x.count > 0 && x.ino == i then 1 else 0
  {
    var v := if x.count > 0 then x.ino else 32;
    assert FileInos(s'.file) == FileInos(s.file)[f := v];
    CountUpdate(FileInos(s.file), f, v, i);
    assert Pwds(s'.task) == Pwds(s.task) && Roots(s'.task) == Roots(s.task);
  }

  lemma UsersPwd(s: Sys, s': Sys, t: nat, ino: nat, i: nat)
    requires t < |s.task| && s'.task == s.task[t := s.task[t].(pwd := ino)] && s'.file == s.file
    ensures Users(s', i) + (if s.task[t].pwd == i then 1 else 0) == Users(s, i) + if ino == i then 1 else 0
  {
    assert Pwds(s'.task) == Pwds(s.task)[t := ino] && Roots(s'.task) == Roots(s.task);
    CountUpdate(Pwds(s.task), t, ino, i);
  }

  lemma UsersRoot(s: Sys, s': Sys, t: nat, ino: nat, i: nat)
    requires t < |s.task| && s'.task == s.task[t := s.task[t].(root := ino)] && s'.file == s.file
    ensures Users(s', i) + (if s.task[t].root == i then 1 else 0) == Users(s, i) + if ino == i then 1 else 0
  {
    assert Roots(s'.task) == Roots(s.task)[t := ino] && Pwds(s'.task) == Pwds(s.task);
    CountUpdate(Roots(s.task), t, ino, i);
  }

  // ----- the invariant is kept -----

  lemma ShareKeeps(s: Table, t: nat, fd: nat, f: nat)
    requires Inv(s) && t < |s.task| && s.task[t].live && fd < 20 && s.task[t].filp[fd] == 64 && f < 64
      && s.file[f].count > 0
    ensures Inv(Share(s, t, fd, f))
  {
    var s' := Share(s, t, fd, f);
    hide Slots, Users, Dead;
    forall g: nat | g < 64 ensures Slots(s', g) == s'.file[g].count {
      SlotsSet(s, t, fd, f, g);
      SlotsSame(SetFilp(s, t, fd, f), s', g);
    }
    forall i: nat | i < 32 ensures Users(s', i) == s'.icount[i] {
      UsersFile(s, s', f, s'.file[f], i);
    }
  }

  lemma AttachKeeps(s: Table, t: nat, fd: nat, f: nat, ino: nat)
    requires Inv(s) && t < |s.task| && s.task[t].live && fd < 20 && s.task[t].filp[fd] == 64 && f < 64
      && s.file[f].count == 0 && ino < 32
    ensures Inv(Attach(s, t, fd, f, ino))
  {
    var s' := Attach(s, t, fd, f, ino);
    hide Slots, Users, Dead;
    forall g: nat | g < 64 ensures Slots(s', g) == s'.file[g].count {
      SlotsSet(s, t, fd, f, g);
      SlotsSame(SetFilp(s, t, fd, f), s', g);
    }
    forall i: nat | i < 32 ensures Users(s', i) == s'.icount[i] {
      UsersFile(s, s', f, s'.file[f], i);
    }
  }

  lemma SlotHeld(s: Table, t: nat, fd: nat)
    requires Inv(s) && t < |s.task| && fd < 20 && s.task[t].filp[fd] < 64
    ensures s.file[s.task[t].filp[fd]].count > 0 && s.icount[s.file[s.task[t].filp[fd]].ino] > 0
  {
    var f := s.task[t].filp[fd];
    CountPositive(s.task[t].filp, fd);
    TotalAtLeast(Filps(s.task), t, f);
    CountPositive(FileInos(s.file), f);
  }

  lemma CloseShape(s: Table, t: nat, fd: nat)
    requires t < |s.task| && fd < 20 && s.task[t].filp[fd] < 64 && s.file[s.task[t].filp[fd]].count > 0
    requires s.icount[s.file[s.task[t].filp[fd]].ino] > 0
    ensures
      var (s', code) := Close(s, t, fd);
      var f := s.task[t].filp[fd];
      var x, n, ino := s.file[f], s.file[f].count - 1, s.file[f].ino;
      && code == 0 && s'.task == SetFilp(s, t, fd, 64).task && s'.file == s.file[f := x.(count := n)]
      && s'.icount == if n == 0 then s.icount[ino := s.icount[ino] - 1] else s.icount
  {}

  lemma CloseKeeps(s: Table, t: nat, fd: nat)
    requires Inv(s) && t < |s.task| && s.task[t].live
    ensures Inv(Close(s, t, fd).0)
  {
    if fd < 20 && s.task[t].filp[fd] < 64 {
      SlotHeld(s, t, fd);
      CloseShape(s, t, fd);
      hide Slots, Users, Dead, Close;
      var s', f := Close(s, t, fd).0, s.task[t].filp[fd];
      forall g: nat | g < 64 ensures Slots(s', g) == s'.file[g].count {
        SlotsSet(s, t, fd, 64, g);
        SlotsSame(SetFilp(s, t, fd, 64), s', g);
      }
      forall i: nat | i < 32 ensures Users(s', i) == s'.icount[i] {
        UsersFile(s, s', f, s'.file[f], i);
      }
    }
  }

  lemma SetPwdKeeps(s: Table, t: nat, ino: nat)
    requires Inv(s) && t < |s.task| && s.task[t].live && s.task[t].pwd == 32 && ino <= 32
    ensures Inv(SetPwd(s, t, ino))
  {
    var s' := SetPwd(s, t, ino);
    hide Slots, Users, Dead;
    forall g: nat | g < 64 ensures Slots(s', g) == s'.file[g].count {
      SlotsSame(s, s', g);
    }
    forall i: nat | i < 32 ensures Users(s', i) == s'.icount[i] {
      UsersPwd(s, s', t, ino, i);
    }
  }

  lemma SetRootKeeps(s: Table, t: nat, ino: nat)
    requires Inv(s) && t < |s.task| && s.task[t].live && s.task[t].root == 32 && ino <= 32
    ensures Inv(SetRoot(s, t, ino))
  {
    var s' := SetRoot(s, t, ino);
    hide Slots, Users, Dead;
    forall g: nat | g < 64 ensures Slots(s', g) == s'.file[g].count {
      SlotsSame(s, s', g);
    }
    forall i: nat | i < 32 ensures Users(s', i) == s'.icount[i] {
      UsersRoot(s, s', t, ino, i);
    }
  }

  lemma PwdHeld(s: Table, t: nat)
    requires Inv(s) && t < |s.task|
    ensures s.task[t].pwd < 32 ==> s.icount[s.task[t].pwd] > 0
    ensures s.task[t].root < 32 ==> s.icount[s.task[t].root] > 0
  {
    CountPositive(Pwds(s.task), t);
    CountPositive(Roots(s.task), t);
  }

  lemma DropPwdKeeps(s: Table, t: nat)
    requires Inv(s) && t < |s.task| && s.task[t].live
    ensures Inv(DropPwd(s, t))
  {
    var s' := DropPwd(s, t);
    PwdHeld(s, t);
    hide Slots, Users, Dead;
    forall g: nat | g < 64 ensures Slots(s', g) == s'.file[g].count {
      SlotsSame(s, s', g);
    }
    forall i: nat | i < 32 ensures Users(s', i) == s'.icount[i] {
      UsersPwd(s, s', t, 32, i);
    }
  }

  lemma DropRootKeeps(s: Table, t: nat)
    requires Inv(s) && t < |s.task| && s.task[t].live
    ensures Inv(DropRoot(s, t))
  {
    var s' := DropRoot(s, t);
    PwdHeld(s, t);
    hide Slots, Users, Dead;
    forall g: nat | g < 64 ensures Slots(s', g) == s'.file[g].count {
      SlotsSame(s, s', g);
    }
    forall i: nat | i < 32 ensures Users(s', i) == s'.icount[i] {
      UsersRoot(s, s', t, 32, i);
    }
  }

  lemma DupKeeps(s: Table, t: nat, fd: nat, arg: nat)
    requires Inv(s) && t < |s.task| && s.task[t].live
    ensures Inv(DupFd(s, t, fd, arg).0)
  {
    hide Inv, FreeFd;
    if fd < 20 && s.task[t].filp[fd] < 64 && s.file[s.task[t].filp[fd]].count > 0 && arg < 20 {
      var to := FreeFd(s.task[t].filp, arg);
      if to < 20 { ShareKeeps(s, t, to, s.task[t].filp[fd]); }
    }
  }

  lemma OpenKeeps(s: Table, t: nat, ino: nat, error: int)
    requires Inv(s) && t < |s.task| && s.task[t].live
    ensures Inv(Open(s, t, ino, error).0)
  {
    hide Inv, FreeFd, FreeFile;
    var fd, f := FreeFd(s.task[t].filp, 0), FreeFile(s.file, 0);
    if fd < 20 && f < 64 && ino < 32 { AttachKeeps(s, t, fd, f, ino); }
  }

  lemma PipeKeeps(s: Table, t: nat, ino: nat)
    requires Inv(s) && t < |s.task| && s.task[t].live
    ensures Inv(Pipe(s, t, ino).0)
  {
    hide Inv, FreeFd, FreeFile;
    var f0, fd0 := FreeFile(s.file, 0), FreeFd(s.task[t].filp, 0);
    if f0 < 64 && fd0 < 20 && ino < 32 {
      var f1, fd1 := FreeFile(s.file, f0 + 1), FreeFd(s.task[t].filp, fd0 + 1);
      if f1 < 64 && fd1 < 20 && s.icount[ino] == 0 {
        AttachKeeps(s, t, fd0, f0, ino);
        AttachKeeps(Attach(s, t, fd0, f0, ino), t, fd1, f1, ino);
      }
    }
  }

  /** An empty task table slot comes alive with no files. */
  lemma BirthKeeps(s: Table, nr: nat)
    requires Inv(s) && nr < |s.task| && !s.task[nr].live
    ensures Inv(s.(task := s.task[nr := Task(true, NoFiles(), 32, 32)]))
  {
    var s': Table := s.(task := s.task[nr := Task(true, NoFiles(), 32, 32)]);
    assert Filps(s'.task) == Filps(s.task) && Pwds(s'.task) == Pwds(s.task) && Roots(s'.task) == Roots(s.task);
  }

  lemma ShareTask(s: Table, t: nat, fd: nat, f: nat)
    requires t < |s.task| && fd < 20 && f < 64 && s.file[f].count > 0
    ensures Share(s, t, fd, f).task == s.task[t := s.task[t].(filp := s.task[t].filp[fd := f])]
  {}

  lemma {:induction false} ForkFilesKeeps(s: Table, t: nat, nr: nat, i: nat)
    requires Inv(s) && t < |s.task| && s.task[t].live && nr < |s.task| && !s.task[nr].live && i <= 20
    ensures
      var s' := ForkFiles(s, nr, s.task[t].filp, i);
      && Inv(s') && s'.task == s.task[nr := s'.task[nr]] && s'.task[nr].live && s'.task[nr].pwd == 32
      && s'.task[nr].root == 32
      && forall k | 0 <= k < 20 :: s'.task[nr].filp[k] == if k < i then s.task[t].filp[k] else 64
  {
    if i == 0 {
      BirthKeeps(s, nr);
    } else {
      ForkFilesKeeps(s, t, nr, i - 1);
      hide Inv, Share, Shape;
      var s1 := ForkFiles(s, nr, s.task[t].filp, i - 1);
      if s.task[t].filp[i - 1] < 64 {
        SlotHeld(s1, t, i - 1);
        ShareTask(s1, nr, i - 1, s.task[t].filp[i - 1]);
        ShareKeeps(s1, nr, i - 1, s.task[t].filp[i - 1]);
      }
    }
  }

  lemma SetShape(s: Table, t: nat, ino: nat)
    requires t < |s.task| && ino <= 32
    ensures SetPwd(s, t, ino).task == s.task[t := s.task[t].(pwd := ino)]
    ensures SetRoot(s, t, ino).task == s.task[t := s.task[t].(root := ino)]
  {}

  lemma ForkDirs(s: Table, nr: nat, pwd: nat, root: nat)
    requires Inv(s) && nr < |s.task| && s.task[nr].live && s.task[nr].pwd == 32 && s.task[nr].root == 32 && pwd <= 32
      && root <= 32
    ensures Inv(SetRoot(SetPwd(s, nr, pwd), nr, root))
    ensures SetRoot(SetPwd(s, nr, pwd), nr, root).task == s.task[nr := s.task[nr].(pwd := pwd, root := root)]
  {
    hide Inv, SetPwd, SetRoot;
    SetShape(s, nr, pwd);
    SetPwdKeeps(s, nr, pwd);
    SetShape(SetPwd(s, nr, pwd), nr, root);
    SetRootKeeps(SetPwd(s, nr, pwd), nr, root);
  }

  /** A child shares every file of its parent, and both inodes. */
  lemma ForkKeeps(s: Table, t: nat, nr: nat)
    requires Inv(s) && t < |s.task| && s.task[t].live && nr < |s.task|
    ensures Inv(Fork(s, t, nr))
    ensures !s.task[nr].live ==> Fork(s, t, nr).task == s.task[nr := s.task[t]]
  {
    if !s.task[nr].live {
      ForkFilesKeeps(s, t, nr, 20);
      hide Inv, ForkFiles, SetPwd, SetRoot;
      var s1 := ForkFiles(s, nr, s.task[t].filp, 20);
      assert s1.task[nr].filp == s.task[t].filp;
      ForkDirs(s1, nr, s.task[t].pwd, s.task[t].root);
    }
  }

  lemma CloseSlot(s: Table, t: nat, fd: nat)
    requires t < |s.task| && fd < 20
    ensures
      var s' := Close(s, t, fd).0;
      && |s'.task| == |s.task| && s'.task[t].live == s.task[t].live
      && forall k | 0 <= k < 20 :: s'.task[t].filp[k] == if k == fd then 64 else s.task[t].filp[k]
  {}

  lemma {:induction false} CloseAllKeeps(s: Table, t: nat, fd: nat)
    requires Inv(s) && t < |s.task| && s.task[t].live && fd <= 20
    ensures
      var s' := CloseAll(s, t, fd);
      && Inv(s') && s'.task[t].live && (forall k | 0 <= k < fd :: s'.task[t].filp[k] == 64)
  {
    if fd > 0 {
      hide Inv, Close;
      CloseAllKeeps(s, t, fd - 1);
      CloseKeeps(CloseAll(s, t, fd - 1), t, fd - 1);
      CloseSlot(CloseAll(s, t, fd - 1), t, fd - 1);
    }
  }

  lemma ExitKeeps(s: Table, t: nat)
    requires Inv(s) && t < |s.task| && s.task[t].live
    ensures Inv(Exit(s, t))
  {
    CloseAllKeeps(s, t, 20);
    var s1 := CloseAll(s, t, 20);
    DropPwdKeeps(s1, t);
    DropRootKeeps(DropPwd(s1, t), t);
    hide CloseAll;
    DeathKeeps(DropRoot(DropPwd(s1, t), t), t);
  }

  lemma DeathKeeps(s: Table, t: nat)
    requires Inv(s) && t < |s.task| && s.task[t].pwd == 32 && s.task[t].root == 32 && forall k | 0 <= k < 20 ::
      s.task[t].filp[k] == 64
    ensures Inv(s.(task := s.task[t := s.task[t].(live := false)]))
  {
    var s': Table := s.(task := s.task[t := s.task[t].(live := false)]);
    assert Filps(s'.task) == Filps(s.task) && Pwds(s'.task) == Pwds(s.task) && Roots(s'.task) == Roots(s.task);
  }

  lemma StepKeeps(s: Table, c: Call)
    requires Inv(s)
    ensures Inv(Step(s, c))
  {
    hide Inv, Close, Open, DupFd, Pipe, Fork, Exit, DropPwd, DropRoot, SetPwd, SetRoot;
    if c.t < |s.task| && s.task[c.t].live {
      match c
      case CClose(t, fd) => CloseKeeps(s, t, fd);
      case COpen(t, ino) => OpenKeeps(s, t, ino, 0);
      case CDup(t, fd, arg) => DupKeeps(s, t, fd, arg);
      case CDup2(t, oldfd, newfd) =>
        CloseKeeps(s, t, newfd);
        CloseLive(s, t, newfd);
        DupKeeps(Close(s, t, newfd).0, t, oldfd, newfd);
      case CPipe(t, ino) => PipeKeeps(s, t, ino);
      case CFork(t, nr) => if nr < |s.task| { ForkKeeps(s, t, nr); }
      case CExit(t) => ExitKeeps(s, t);
      case CChdir(t, ino) =>
        if ino < 32 {
          DropPwdKeeps(s, t);
          DropShape(s, t);
          SetPwdKeeps(DropPwd(s, t), t, ino);
        }
      case CChroot(t, ino) =>
        if ino < 32 {
          DropRootKeeps(s, t);
          DropShape(s, t);
          SetRootKeeps(DropRoot(s, t), t, ino);
        }
    }
  }

  lemma CloseLive(s: Table, t: nat, fd: nat)
    requires t < |s.task|
    ensures |Close(s, t, fd).0.task| == |s.task| && Close(s, t, fd).0.task[t].live == s.task[t].live
  {}

  lemma DropShape(s: Table, t: nat)
    requires t < |s.task|
    ensures |DropPwd(s, t).task| == |s.task| == |DropRoot(s, t).task|
    ensures DropPwd(s, t).task[t].live == s.task[t].live == DropRoot(s, t).task[t].live
    ensures DropPwd(s, t).task[t].pwd == 32 == DropRoot(s, t).task[t].root
  {}

  function Run(s: Table, cs: seq<Call>): Table
  {
    if cs == [] then s else Step(Run(s, cs[..|cs| - 1]), cs[|cs| - 1])
  }

  lemma {:induction false} RunKeeps(s: Table, cs: seq<Call>)
    requires Inv(s)
    ensures Inv(Run(s, cs))
  {
    hide Inv, Step;
    if cs != [] {
      RunKeeps(s, cs[..|cs| - 1]);
      StepKeeps(Run(s, cs[..|cs| - 1]), cs[|cs| - 1]);
    }
  }

  /** At boot task 0 is alive with no open file; its working directory and root are inode slot 0. */
  function Boot(tasks: nat): Table
  {
    Sys(BootTasks(tasks), seq(64, f => File(0, 32)), seq(32, i => if i == 0 && tasks > 0 then 2 else 0))
  }

  function BootTasks(tasks: nat): (r: seq<Task>)
    ensures |r| == tasks && forall t | 0 <= t < tasks ::
      r[t].filp == NoFiles() && r[t].pwd == r[t].root == if t == 0 then 0 else 32
  {
    seq(tasks, t => if t == 0 then Task(true, NoFiles(), 0, 0) else Task(false, NoFiles(), 32, 32))
  }

  lemma BootIsInv(tasks: nat)
    requires tasks > 0
    ensures Inv(Boot(tasks))
  {
    var s := Boot(tasks);
    forall f: nat | f < 64 ensures Slots(s, f) == 0 {
      forall t | 0 <= t < tasks ensures Count(Filps(s.task)[t], f) == 0 {
        assert f !in NoFiles();
      }
      TotalZero(Filps(s.task), f);
    }
    forall i: nat | i < 32 ensures Users(s, i) == s.icount[i] {
      assert i !in FileInos(s.file);
      OneAtZero(Pwds(s.task), i);
      OneAtZero(Roots(s.task), i);
    }
  }

  lemma OneAtZero(row: seq<nat>, i: nat)
    requires |row| > 0 && row[0] == 0 && (forall t | 1 <= t < |row| :: row[t] == 32) && i < 32
    ensures Count(row, i) == if i == 0 then 1 else 0
  {
    assert row == [0] + row[1..];
    assert i !in row[1..];
  }

  /** Over every run of open, dup, dup2, close, pipe, fork, exit, chdir and chroot from boot, the count of a
      file is the number of descriptors of all tasks that point at it, and the count of an inode slot the
      number of open files, working directories and roots on it. */
  lemma CountsAreConserved(tasks: nat, cs: seq<Call>, f: nat, i: nat)
    requires tasks > 0 && f < 64 && i < 32
    ensures
      var s := Run(Boot(tasks), cs);
      s.file[f].count == Slots(s, f) && s.icount[i] == Users(s, i)
  {
    BootIsInv(tasks);
    RunKeeps(Boot(tasks), cs);
    hide Run, Slots, Users;
  }

  /** Closing a descriptor releases the inode of its file exactly when no other descriptor of any task points
      at the file. */
  lemma CloseReleasesLast(s: Table, t: nat, fd: nat)
    requires Inv(s) && Has(s, t, fd)
    ensures
      var s', f := Close(s, t, fd).0, s.task[t].filp[fd];
      var ino := s.file[f].ino;
      && Slots(s', f) == Slots(s, f) - 1
      && s'.icount == (if Slots(s', f) == 0 then s.icount[ino := s.icount[ino] - 1] else s.icount)
      && s'.task == s.task[t := s.task[t].(filp := s.task[t].filp[fd := 64])]
  {
    SlotHeld(s, t, fd);
    CloseShape(s, t, fd);
    CloseKeeps(s, t, fd);
    hide Slots, Users, Close;
  }

  /** dup2 of a descriptor onto itself closes it and then fails. */
  lemma Dup2OntoItself(s: Table, t: nat, fd: nat)
    requires Inv(s) && Has(s, t, fd)
    ensures Dup2(s, t, fd, fd) == (Close(s, t, fd).0, -EBADF)
  {}

  /** dup2 onto another descriptor makes both point at the same file, whatever newfd pointed at before. */
  lemma Dup2Shares(s: Table, t: nat, oldfd: nat, newfd: nat)
    requires Inv(s) && Has(s, t, oldfd) && newfd < 20 && newfd != oldfd
    ensures
      var (s', r) := Dup2(s, t, oldfd, newfd);
      && r == newfd && s'.task[t].filp == s.task[t].filp[newfd := s.task[t].filp[oldfd]]
      && forall u | 0 <= u < |s.task| && u != t :: s'.task[u] == s.task[u]
  {
    hide Inv, Close, Share, DupFd, SetFilp;
    CloseKeeps(s, t, newfd);
    CloseTask(s, t, newfd);
    var s1, f := Close(s, t, newfd).0, s.task[t].filp[oldfd];
    SlotHeld(s1, t, oldfd);
    DupAt(s1, t, oldfd, newfd);
    ShareTask(s1, t, newfd, f);
    assert s.task[t].filp[newfd := 64][newfd := f] == s.task[t].filp[newfd := f];
  }

  lemma CloseTask(s: Table, t: nat, fd: nat)
    requires t < |s.task| && fd < 20
    ensures Close(s, t, fd).0.task == s.task[t := s.task[t].(filp := s.task[t].filp[fd := 64])]
  {
    if s.task[t].filp[fd] == 64 { assert s.task[t].filp[fd := 64] == s.task[t].filp; }
  }

  lemma DupAt(s: Table, t: nat, fd: nat, arg: nat)
    requires Has(s, t, fd) && s.file[s.task[t].filp[fd]].count > 0 && arg < 20 && s.task[t].filp[arg] == 64
    ensures DupFd(s, t, fd, arg) == (Share(s, t, arg, s.task[t].filp[fd]), arg)
  {}

  /** When no task is left every file and every inode slot is free again. */
  lemma NothingLeaks(s: Table, f: nat, i: nat)
    requires Inv(s) && (forall t | 0 <= t < |s.task| :: !s.task[t].live) && f < 64 && i < 32
    ensures s.file[f].count == 0 && s.icount[i] == 0
  {
    forall g: nat | g < 64 ensures Slots(s, g) == 0 {
      forall t | 0 <= t < |s.task| ensures Count(Filps(s.task)[t], g) == 0 {
        assert Dead(s.task[t]);
        assert g !in Filps(s.task)[t];
      }
      TotalZero(Filps(s.task), g);
    }
    assert i !in FileInos(s.file) && i !in Pwds(s.task) && i !in Roots(s.task);
  }
}
