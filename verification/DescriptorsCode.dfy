/** The descriptor calls as loops over the tables: sys_open, sys_close (fs/open.c), dupfd and sys_dup2
    (fs/fcntl.c), sys_pipe (fs/pipe.c), and the parts of copy_process and do_exit on open files. */
module DescriptorsCode {
  import opened Descriptors

  class Tables {
    const task: array<Task>
    const file: array<File>
    const icount: array<nat>

    ghost predicate Ready()
      reads task, file, icount
    {
      && task as object != file as object && task as object != icount as object && file as object != icount as object
      && Shape(Sys(task[..], file[..], icount[..]))
    }

    ghost function State(): Table
      reads task, file, icount
      requires Ready()
    {
      Sys(task[..], file[..], icount[..])
    }

    constructor (tasks: nat)
      ensures fresh(task) && fresh(file) && fresh(icount) && Ready() && State() == Boot(tasks)
    {
      ghost var boot := Boot(tasks);
      task := new Task[tasks](t => if t == 0 then Task(true, NoFiles(), 0, 0) else Task(false, NoFiles(), 32, 32));
      file := new File[64](f => File(0, 32));
      icount := new nat[32](i => if i == 0 && tasks > 0 then 2 else 0);
      new;
      assert task[..] == boot.task && file[..] == boot.file && icount[..] == boot.icount;
    }

    method FindFd(t: nat, from: nat) returns (fd: nat)
      requires t < task.Length && |task[t].filp| == 20 && from <= 20
      ensures fd == FreeFd(task[t].filp, from)
    {
      fd := from;
      while fd < 20 && task[t].filp[fd] != 64
        invariant from <= fd <= 20 && FreeFd(task[t].filp, from) == FreeFd(task[t].filp, fd)
      {
        fd := fd + 1;
      }
    }

    method FindFile(from: nat) returns (f: nat)
      requires file.Length == 64 && from <= 64
      ensures f == FreeFile(file[..], from)
    {
      f := from;
      while f < 64 && file[f].count != 0
        invariant from <= f <= 64 && FreeFile(file[..], from) == FreeFile(file[..], f)
      {
        f := f + 1;
      }
    }

    /** iput, as far as the count is concerned. */
    method DropInode(ino: nat)
      requires icount.Length == 32 && ino < 32 && icount[ino] > 0
      modifies icount
      ensures icount[..] == old(icount[..])[ino := old(icount[ino]) - 1]
    {
      icount[ino] := icount[ino] - 1;
    }

    /** sys_close.  The count of an open file is never 0 here, so the panic is not reached. */
    method Close(t: nat, fd: nat) returns (code: int)
      requires Ready() && Inv(State()) && t < task.Length && task[t].live
      modifies task, file, icount
      ensures Ready() && (State(), code) == Descriptors.Close(old(State()), t, fd) && Inv(State())
    {
      CloseKeeps(State(), t, fd);
      CloseGives(State(), t, fd);
      ShapeAt(State(), t);
      hide Inv, Shape, Descriptors.Close;
      if fd >= 20 || task[t].filp[fd] == 64 { return -EINVAL; }
      ghost var s' := Descriptors.Close(State(), t, fd).0;
      LetGo(t, fd);
      assert Sys(task[..], file[..], icount[..]) == s';
      return 0;
    }

    /** A descriptor in use is emptied; the last one of a file gives its inode back. */
    method LetGo(t: nat, fd: nat)
      requires t < task.Length && fd < |task[t].filp| && task[t].filp[fd] < file.Length
        && file[task[t].filp[fd]].count > 0
      requires icount.Length == 32 && file[task[t].filp[fd]].ino < 32 && icount[file[task[t].filp[fd]].ino] > 0
      requires task as object != file as object && task as object != icount as object
        && file as object != icount as object
      modifies task, file, icount
      ensures task[..] == old(task[..])[t := old(task[t]).(filp := old(task[t]).filp[fd := 64])]
      ensures
        var f := old(task[t]).filp[fd];
        var x, n := old(file[f]), old(file[f]).count - 1;
        && file[..] == old(file[..])[f := x.(count := n)]
        && icount[..] == if n == 0 then old(icount[..])[x.ino := old(icount[x.ino]) - 1] else old(icount[..])
    {
      var f := task[t].filp[fd];
      task[t] := task[t].(filp := task[t].filp[fd := 64]);
      file[f] := file[f].(count := file[f].count - 1);
      if file[f].count != 0 { return; }
      DropInode(file[f].ino);
    }

    /** sys_open.  ino and error stand for the outcome of open_namei, which has counted the new user. */
    method Open(t: nat, ino: nat, error: int) returns (code: int)
      requires Ready() && Inv(State()) && t < task.Length && task[t].live
      modifies task, file, icount
      ensures Ready() && (State(), code) == Descriptors.Open(old(State()), t, ino, error) && Inv(State())
    {
      hide Inv, FreeFd, FreeFile;
      OpenKeeps(State(), t, ino, error);
      ghost var s := State();
      var fd := FindFd(t, 0);
      if fd >= 20 { return -EINVAL; }
      var f := FindFile(0);
      if f >= 64 { return -EINVAL; }
      task[t] := task[t].(filp := task[t].filp[fd := f]);
      file[f] := file[f].(count := file[f].count + 1);
      if ino >= 32 {
        task[t] := task[t].(filp := task[t].filp[fd := 64]);
        file[f] := file[f].(count := 0);
        assert s.task[t].filp[fd := f][fd := 64] == s.task[t].filp;
        assert task[..] == s.task && file[..] == s.file;
        return -error;
      }
      icount[ino] := icount[ino] + 1;
      file[f] := File(1, ino);
      assert State() == Attach(s, t, fd, f, ino);
      return fd;
    }

    /** dupfd. */
    method DupFd(t: nat, fd: nat, arg: nat) returns (code: int)
      requires Ready() && Inv(State()) && t < task.Length && task[t].live
      modifies task, file
      ensures Ready() && (State(), code) == Descriptors.DupFd(old(State()), t, fd, arg) && Inv(State())
    {
      hide Inv, FreeFd;
      DupKeeps(State(), t, fd, arg);
      if fd >= 20 || task[t].filp[fd] == 64 { return -EBADF; }
      SlotHeld(State(), t, fd);
      if arg >= 20 { return -EINVAL; }
      var to := FindFd(t, arg);
      if to >= 20 { return -EMFILE; }
      var f := task[t].filp[fd];
      task[t] := task[t].(filp := task[t].filp[to := f]);
      file[f] := file[f].(count := file[f].count + 1);
      return to;
    }

    /** sys_dup2. */
    method Dup2(t: nat, oldfd: nat, newfd: nat) returns (code: int)
      requires Ready() && Inv(State()) && t < task.Length && task[t].live
      modifies task, file, icount
      ensures Ready() && (State(), code) == Descriptors.Dup2(old(State()), t, oldfd, newfd) && Inv(State())
    {
      hide Inv, Descriptors.Close, Descriptors.DupFd;
      CloseLive(State(), t, newfd);
      var _ := Close(t, newfd);
      code := DupFd(t, oldfd, newfd);
    }

    /** The first loop of sys_pipe: claims the two first free files, or nothing. */
    method ClaimFiles() returns (f0: nat, f1: nat)
      requires file.Length == 64
      modifies file
      ensures f0 == FreeFile(old(file[..]), 0) && f1 == if f0 < 64 then FreeFile(old(file[..]), f0 + 1) else 64
      ensures f1 == 64 ==> file[..] == old(file[..])
      ensures f1 < 64 ==>
        && f1 != f0
        && file[..] == old(file[..])[f0 := old(file[f0]).(count := 1)][f1 := old(file[f1]).(count := 1)]
    {
      hide FreeFile;
      f0 := FindFile(0);
      f1 := 64;
      if f0 < 64 { f1 := ClaimSecond(f0); }
    }

    method ClaimSecond(f0: nat) returns (f1: nat)
      requires file.Length == 64 && f0 < 64 && file[f0].count == 0
      modifies file
      ensures f1 == FreeFile(old(file[..]), f0 + 1)
      ensures f1 == 64 ==> file[..] == old(file[..])
      ensures f1 < 64 ==>
        && f1 != f0
        && file[..] == old(file[..])[f0 := old(file[f0]).(count := 1)][f1 := old(file[f1]).(count := 1)]
    {
      ghost var was := file[..];
      file[f0] := file[f0].(count := file[f0].count + 1);
      FreeFileSame(was, file[..], f0 + 1);
      f1 := FindFile(f0 + 1);
      if f1 == 64 {
        file[f0] := file[f0].(count := 0);
        assert file[..] == was;
      } else {
        file[f1] := file[f1].(count := file[f1].count + 1);
      }
    }

    /** The second loop of sys_pipe: the two first free descriptors. */
    method FindFds(t: nat) returns (fd0: nat, fd1: nat)
      requires t < task.Length && |task[t].filp| == 20
      ensures fd0 == FreeFd(task[t].filp, 0) && fd1 == if fd0 < 20 then FreeFd(task[t].filp, fd0 + 1) else 20
    {
      fd1 := 20;
      fd0 := FindFd(t, 0);
      if fd0 < 20 { fd1 := FindFd(t, fd0 + 1); }
    }

    /** sys_pipe.  ino stands for the slot get_pipe_inode gives, 32 when it fails; what was claimed
        is given back on every way out that fails. */
    method Pipe(t: nat, ino: nat) returns (code: int)
      requires Ready() && t < task.Length && (ino < 32 ==> icount[ino] == 0)
      modifies task, file, icount
      ensures Ready() && (State(), code) == Descriptors.Pipe(old(State()), t, ino)
    {
      hide FreeFd, FreeFile, Descriptors.Pipe;
      ghost var s := State();
      PipeFails(s, t, ino);
      var f0, f1 := ClaimFiles();
      if f1 == 64 { return -1; }
      var fd0, fd1 := FindFds(t);
      ClaimedTwice(s.file, f0, f1, ino);
      if fd1 == 20 || ino >= 32 {
        SetFiles(f0, f1, file[f0].(count := 0), file[f1].(count := 0));
        return -1;
      }
      PipeGives(s, t, ino, f0, f1, fd0, fd1);
      FillPipe(t, fd0, fd1, f0, f1, ino);
      assert Sys(task[..], file[..], icount[..]) == Descriptors.Pipe(s, t, ino).0;
      return 0;
    }

    /** The descriptors, the files and the inode of a pipe. */
    method FillPipe(t: nat, fd0: nat, fd1: nat, f0: nat, f1: nat, ino: nat)
      requires t < task.Length && fd0 < |task[t].filp| && fd1 < |task[t].filp| && f0 < file.Length && f1 < file.Length
        && f0 != f1
      requires ino < icount.Length && task as object != file as object && task as object != icount as object
        && file as object != icount as object
      modifies task, file, icount
      ensures task[..] == old(task[..])[t := old(task[t]).(filp := old(task[t]).filp[fd0 := f0][fd1 := f1])]
      ensures file[..] == old(file[..])[f0 := File(1, ino)][f1 := File(1, ino)]
        && icount[..] == old(icount[..])[ino := 2]
    {
      SetFiles(f0, f1, File(1, ino), File(1, ino));
      task[t] := task[t].(filp := task[t].filp[fd0 := f0][fd1 := f1]);
      icount[ino] := 2;
    }

    method SetFiles(f0: nat, f1: nat, x: File, y: File)
      requires f0 < file.Length && f1 < file.Length && f0 != f1
      modifies file
      ensures file[..] == old(file[..])[f0 := x][f1 := y]
    {
      file[f0] := x;
      file[f1] := y;
    }

    /** do_exit, as far as files, working directory and root are concerned. */
    method Exit(t: nat)
      requires Ready() && Inv(State()) && t < task.Length && task[t].live
      modifies task, file, icount
      ensures Ready() && State() == Descriptors.Exit(old(State()), t) && Inv(State())
    {
      ghost var s := State();
      ExitKeeps(s, t);
      hide Inv, Descriptors.Close, CloseAll, DropPwd, DropRoot, Shape;
      CloseAllStart(s, t);
      var i := 0;
      while i < 20
        invariant 0 <= i <= 20 && Ready() && Inv(State()) && task[t].live && State() == CloseAll(s, t, i)
      {
        CloseAllNext(s, t, i);
        if task[t].filp[i] != 64 {
          CloseSlot(State(), t, i);
          var _ := Close(t, i);
        } else {
          NothingToClose(State(), t, i);
        }
        i := i + 1;
      }
      DropDirs(t);
      task[t] := task[t].(live := false);
    }

    /** iput of pwd and root. */
    method DropDirs(t: nat)
      requires Ready() && Inv(State()) && t < task.Length && task[t].live
      modifies task, icount
      ensures Ready() && State() == DropRoot(DropPwd(old(State()), t), t)
    {
      hide Inv;
      PwdHeld(State(), t);
      DropPwdKeeps(State(), t);
      var pwd := task[t].pwd;
      task[t] := task[t].(pwd := 32);
      if pwd < 32 { DropInode(pwd); }
      PwdHeld(State(), t);
      var root := task[t].root;
      task[t] := task[t].(root := 32);
      if root < 32 { DropInode(root); }
    }

    /** The loop of copy_process over the descriptors. */
    method CountFiles(t: nat, ghost nr: nat)
      requires Ready() && Inv(State()) && t < task.Length && task[t].live && nr < task.Length && !task[nr].live
      modifies file
      ensures file[..] == ForkFiles(old(State()), nr, task[t].filp, 20).file
    {
      ghost var s := State();
      ShapeAt(s, t);
      hide Inv, ForkFiles, Shape;
      ForkStart(s, nr, task[t].filp);
      var child := task[t];
      var i := 0;
      while i < 20
        invariant 0 <= i <= 20 && file[..] == ForkFiles(s, nr, s.task[t].filp, i).file
      {
        ForkNext(s, t, nr, i);
        var f := child.filp[i];
        if f != 64 {
          file[f] := file[f].(count := file[f].count + 1);
        }
        i := i + 1;
      }
    }

    /** i_count++ of a working directory or root that is not NULL. */
    method CountInode(ino: nat)
      requires icount.Length == 32 && ino <= 32
      modifies icount
      ensures icount[..] == Counted(old(icount[..]), ino)
    {
      if ino != 32 { icount[ino] := icount[ino] + 1; }
    }

    /** copy_process: the loop over the descriptors and the two inode counts. */
    method Fork(t: nat, nr: nat)
      requires Ready() && Inv(State()) && t < task.Length && task[t].live && nr < task.Length && !task[nr].live
      modifies task, file, icount
      ensures Ready() && State() == Descriptors.Fork(old(State()), t, nr)
    {
      ghost var s := State();
      ShapeAt(s, t);
      hide Inv, ForkFiles, Descriptors.Fork, Shape, Counted;
      ForkOnlyFiles(s, nr, s.task[t].filp, 20);
      ForkDone(s, t, nr);
      var child := task[t];
      CountFiles(t, nr);
      CountInode(child.pwd);
      CountInode(child.root);
      task[nr] := child;
      assert Sys(task[..], file[..], icount[..]) == Descriptors.Fork(s, t, nr);
    }
  }

  lemma {:induction false} FreeFileSame(file: seq<File>, file': seq<File>, f: nat)
    requires |file| == 64 == |file'| && f <= 64 && forall k | f <= k < 64 :: file'[k] == file[k]
    ensures FreeFile(file', f) == FreeFile(file, f)
    decreases 64 - f
  {
    if f < 64 { FreeFileSame(file, file', f + 1); }
  }

  function Counted(icount: seq<nat>, ino: nat): (r: seq<nat>)
    requires |icount| == 32
    ensures |r| == 32
  {
    if ino < 32 then icount[ino := icount[ino] + 1] else icount
  }

  lemma ShapeAt(s: Table, t: nat)
    requires t < |s.task|
    ensures |s.file| == 64 && |s.icount| == 32 && (forall f | 0 <= f < 64 :: s.file[f].count > 0 ==> s.file[f].ino < 32)
      && |s.task[t].filp| == 20 && s.task[t].pwd <= 32 && s.task[t].root <= 32
    ensures forall k | 0 <= k < 20 :: s.task[t].filp[k] <= 64
  {}

  lemma NothingToClose(s: Table, t: nat, fd: nat)
    requires t < |s.task| && fd < 20 && s.task[t].filp[fd] == 64
    ensures Close(s, t, fd).0 == s
  {}

  lemma {:induction false} ForkOnlyFiles(s: Table, nr: nat, filp: seq<nat>, i: nat)
    requires nr < |s.task| && i <= |filp| == 20 && forall k | 0 <= k < 20 :: filp[k] <= 64
    ensures ForkFiles(s, nr, filp, i).icount == s.icount
  {
    if i > 0 { ForkOnlyFiles(s, nr, filp, i - 1); }
  }

  lemma CloseAllStart(s: Table, t: nat)
    requires t < |s.task|
    ensures CloseAll(s, t, 0) == s
  {}

  lemma CloseAllNext(s: Table, t: nat, fd: nat)
    requires t < |s.task| && fd < 20
    ensures CloseAll(s, t, fd + 1) == Close(CloseAll(s, t, fd), t, fd).0
  {}

  lemma ForkStart(s: Table, nr: nat, filp: seq<nat>)
    requires nr < |s.task| && |filp| == 20 && forall k | 0 <= k < 20 :: filp[k] <= 64
    ensures ForkFiles(s, nr, filp, 0).file == s.file
  {}

  /** One turn of the loop in copy_process counts the child's descriptor i. */
  lemma ForkNext(s: Table, t: nat, nr: nat, i: nat)
    requires Inv(s) && t < |s.task| && s.task[t].live && nr < |s.task| && !s.task[nr].live && i < 20
    ensures
      var f, file := s.task[t].filp[i], ForkFiles(s, nr, s.task[t].filp, i).file;
      ForkFiles(s, nr, s.task[t].filp, i + 1).file == if f == 64 then file
          else file[f := file[f].(count := file[f].count + 1)]
  {
    ForkFilesKeeps(s, t, nr, i);
    hide Inv;
    if s.task[t].filp[i] < 64 { SlotHeld(ForkFiles(s, nr, s.task[t].filp, i), t, i); }
  }

  /** What fork does to the tables once the files are counted. */
  lemma ForkDone(s: Table, t: nat, nr: nat)
    requires Inv(s) && t < |s.task| && s.task[t].live && nr < |s.task| && !s.task[nr].live
    requires ForkFiles(s, nr, s.task[t].filp, 20).icount == s.icount
    ensures
      var s', pwd, root := Fork(s, t, nr), s.task[t].pwd, s.task[t].root;
      && s'.task == s.task[nr := s.task[t]] && s'.file == ForkFiles(s, nr, s.task[t].filp, 20).file
      && s'.icount == Counted(Counted(s.icount, pwd), root)
  {
    ForkKeeps(s, t, nr);
    hide Inv, ForkFiles, SetPwd, SetRoot, Counted;
    var s1 := ForkFiles(s, nr, s.task[t].filp, 20);
    SetCounts(s1, nr, s.task[t].pwd);
    SetCounts(SetPwd(s1, nr, s.task[t].pwd), nr, s.task[t].root);
  }

  lemma SetCounts(s: Table, t: nat, ino: nat)
    requires t < |s.task| && ino <= 32
    ensures |SetPwd(s, t, ino).task| == |s.task|
    ensures SetPwd(s, t, ino).file == s.file == SetRoot(s, t, ino).file
    ensures SetPwd(s, t, ino).icount == Counted(s.icount, ino) == SetRoot(s, t, ino).icount
  {}

  lemma CloseGives(s: Table, t: nat, fd: nat)
    requires Inv(s) && t < |s.task|
    ensures fd >= 20 || s.task[t].filp[fd] == 64 ==> Descriptors.Close(s, t, fd) == (s, -EINVAL)
    ensures fd < 20 && s.task[t].filp[fd] < 64 ==>
      var (s', code) := Descriptors.Close(s, t, fd);
      var f := s.task[t].filp[fd];
      var x, n, ino := s.file[f], s.file[f].count - 1, s.file[f].ino;
      && x.count > 0 && s.icount[ino] > 0
      && code == 0 && s'.task == s.task[t := s.task[t].(filp := s.task[t].filp[fd := 64])]
      && s'.file == s.file[f := x.(count := n)]
      && s'.icount == if n == 0 then s.icount[ino := s.icount[ino] - 1] else s.icount
  {
    if fd < 20 && s.task[t].filp[fd] < 64 {
      SlotHeld(s, t, fd);
      CloseShape(s, t, fd);
      hide Inv, Descriptors.Close;
    }
  }

  lemma PipeFails(s: Table, t: nat, ino: nat)
    requires t < |s.task|
    ensures
      var f0, fd0 := FreeFile(s.file, 0), FreeFd(s.task[t].filp, 0);
      f0 == 64 || FreeFile(s.file, f0 + 1) == 64 || fd0 == 20 || FreeFd(s.task[t].filp, fd0 + 1) == 20 || ino >= 32 ==>
        Descriptors.Pipe(s, t, ino) == (s, -1)
  {
    hide FreeFd, FreeFile;
  }

  lemma PipeGives(s: Table, t: nat, ino: nat, f0: nat, f1: nat, fd0: nat, fd1: nat)
    requires t < |s.task| && ino < 32 && s.icount[ino] == 0
    requires f0 == FreeFile(s.file, 0) < 64 && f1 == FreeFile(s.file, f0 + 1) < 64
    requires fd0 == FreeFd(s.task[t].filp, 0) < 20 && fd1 == FreeFd(s.task[t].filp, fd0 + 1) < 20
    ensures
      var (s', code) := Descriptors.Pipe(s, t, ino);
      && code == 0 && s'.task == s.task[t := s.task[t].(filp := s.task[t].filp[fd0 := f0][fd1 := f1])]
      && s'.file == s.file[f0 := File(1, ino)][f1 := File(1, ino)] && s'.icount == s.icount[ino := 2]
  {
    hide FreeFd, FreeFile;
  }

  lemma ClaimedTwice(file: seq<File>, f0: nat, f1: nat, ino: nat)
    requires f0 < |file| && f1 < |file| && f0 != f1 && file[f0].count == 0 && file[f1].count == 0
    ensures
      var x, y := file[f0].(count := 1), file[f1].(count := 1);
      && file[f0 := x][f1 := y][f0 := x.(count := 0)][f1 := y.(count := 0)] == file
      && file[f0 := x][f1 := y][f0 := File(1, ino)][f1 := File(1, ino)] == file[f0 := File(1, ino)][f1 := File(1, ino)]
  {
    var x, y := file[f0].(count := 1), file[f1].(count := 1);
    assert x.(count := 0) == file[f0] && y.(count := 0) == file[f1];
  }
}
