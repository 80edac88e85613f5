/** What the calls on descriptors answer (fs/open.c:67-191, fs/fcntl.c:12-39, fs/pipe.c:52-92), told from the
    tables before the call: when each fails, which descriptor it gives and what that one points at. */
module DescriptorAnswers {
  import opened Counting
  import opened Descriptors

  /** The lowest descriptor of task t, from the given one on, that is not in use. */
  predicate LowestFd(s: Table, t: nat, from: nat, fd: int)
    requires t < |s.task|
  {
    from <= fd < 20 && s.task[t].filp[fd] == 64 && forall k | from <= k < fd :: s.task[t].filp[k] < 64
  }

  /** The first unused file from the given one on. */
  predicate FirstFile(s: Table, from: nat, f: nat)
  {
    from <= f < 64 && s.file[f].count == 0 && forall g | from <= g < f :: s.file[g].count > 0
  }

  /** Nothing of any task changes but the given descriptors of task t. */
  ghost predicate OnlyFds(s: Table, s': Table, t: nat, fds: set<int>)
    requires t < |s.task|
  {
    && |s'.task| == |s.task| && (forall u | 0 <= u < |s.task| && u != t :: s'.task[u] == s.task[u])
    && s'.task[t].live == s.task[t].live && s'.task[t].pwd == s.task[t].pwd && s'.task[t].root == s.task[t].root
    && forall k | 0 <= k < 20 && k !in fds :: s'.task[t].filp[k] == s.task[t].filp[k]
  }

  /** Only the given files change, and no other inode than ino. */
  ghost predicate OnlyFiles(s: Table, s': Table, files: set<nat>, ino: nat)
  {
    && (forall g: nat | g < 64 && g !in files :: s'.file[g] == s.file[g])
    && forall i: nat | i < 32 && i != ino :: s'.icount[i] == s.icount[i]
  }

  /** Descriptor fd is new and points at a new file on the inode. */
  ghost predicate Opened(s: Table, s': Table, t: nat, ino: nat, fd: int)
    requires t < |s.task| && ino < 32
  {
    && LowestFd(s, t, 0, fd) && OnlyFds(s, s', t, {fd})
    && var f := s'.task[t].filp[fd];
       FirstFile(s, 0, f) && s'.file[f] == File(1, ino) && OnlyFiles(s, s', {f}, ino)
       && s'.icount[ino] == s.icount[ino] + 1
  }

  lemma AttachOne(s: Table, t: nat, ino: nat, fd: nat, f: nat)
    requires t < |s.task| && ino < 32 && LowestFd(s, t, 0, fd) && FirstFile(s, 0, f)
    ensures Opened(s, Attach(s, t, fd, f, ino), t, ino, fd)
  {}

  /** sys_open: it fails without a free descriptor or file; else the lowest free descriptor is answered and points
      at the first unused file, which is on the inode and has this one descriptor. */
  lemma OpenAnswers(s: Table, t: nat, ino: nat, error: int)
    requires Inv(s) && t < |s.task| && s.task[t].live
    ensures
      var (s', code) := Open(s, t, ino, error);
      if (forall k | 0 <= k < 20 :: s.task[t].filp[k] < 64) || (forall f | 0 <= f < 64 :: s.file[f].count > 0) then
        s' == s && code == -EINVAL
      else if ino >= 32 then s' == s && code == -error
      else Opened(s, s', t, ino, code)
  {
    hide Inv, Opened;
    var fd, f := FreeFd(s.task[t].filp, 0), FreeFile(s.file, 0);
    hide FreeFd, FreeFile;
    if fd < 20 && f < 64 && ino < 32 { AttachOne(s, t, ino, fd, f); }
  }

  /** sys_close fails exactly for a descriptor that is not in use. */
  lemma CloseAnswers(s: Table, t: nat, fd: nat)
    requires Inv(s) && t < |s.task| && s.task[t].live
    ensures
      var (s', code) := Close(s, t, fd);
      if fd < 20 && s.task[t].filp[fd] < 64 then
        && code == 0 && OnlyFds(s, s', t, {fd}) && s'.task[t].filp[fd] == 64
        && var f := s.task[t].filp[fd];
           OnlyFiles(s, s', {f}, s.file[f].ino) && s'.file[f].ino == s.file[f].ino
           && s'.file[f].count == s.file[f].count - 1
      else s' == s && code == -EINVAL
  {
    if fd < 20 && s.task[t].filp[fd] < 64 {
      SlotHeld(s, t, fd);
      CloseShape(s, t, fd);
      hide Inv, Close;
    }
  }

  /** dupfd: its three errors, and else the lowest free descriptor from arg on, pointing at the same file. */
  lemma DupAnswers(s: Table, t: nat, fd: nat, arg: nat)
    requires Inv(s) && t < |s.task| && s.task[t].live
    ensures
      var (s', code) := DupFd(s, t, fd, arg);
      if fd >= 20 || s.task[t].filp[fd] == 64 then s' == s && code == -EBADF
      else if arg >= 20 then s' == s && code == -EINVAL
      else if forall k | arg <= k < 20 :: s.task[t].filp[k] < 64 then s' == s && code == -EMFILE
      else
        var f := s.task[t].filp[fd];
        && LowestFd(s, t, arg, code) && OnlyFds(s, s', t, {code}) && s'.task[t].filp[code] == f
        && OnlyFiles(s, s', {f}, 32) && s'.file[f] == File(s.file[f].count + 1, s.file[f].ino)
  {
    if fd < 20 && s.task[t].filp[fd] < 64 { SlotHeld(s, t, fd); }
    hide Inv;
  }

  /** There are two free descriptors of task t and two unused files. */
  ghost predicate RoomForTwo(s: Table, t: nat)
    requires t < |s.task|
  {
    && (exists a, b :: 0 <= a < b < 20 && s.task[t].filp[a] == 64 && s.task[t].filp[b] == 64)
    && (exists f, g :: 0 <= f < g < 64 && s.file[f].count == 0 && s.file[g].count == 0)
  }

  /** Descriptors a and b are new and point at two new files on the inode. */
  ghost predicate PipeMade(s: Table, s': Table, t: nat, ino: nat, a: nat, b: nat)
    requires t < |s.task| && ino < 32
  {
    && LowestFd(s, t, 0, a) && LowestFd(s, t, a + 1, b) && OnlyFds(s, s', t, {a, b})
    && var f, g := s'.task[t].filp[a], s'.task[t].filp[b];
       && FirstFile(s, 0, f) && FirstFile(s, f + 1, g) && OnlyFiles(s, s', {f, g}, ino)
       && s'.file[f] == File(1, ino) && s'.file[g] == File(1, ino) && s'.icount[ino] == s.icount[ino] + 2
  }

  /** sys_pipe fails without two free descriptors, two unused files or an inode; else the two lowest descriptors
      point at the first two unused files, both on the inode, which nobody else uses. */
  lemma PipeAnswers(s: Table, t: nat, ino: nat)
    requires Inv(s) && t < |s.task| && s.task[t].live
    ensures
      var (s', code) := Pipe(s, t, ino);
      if !RoomForTwo(s, t) || ino >= 32 || s.icount[ino] != 0 then s' == s && code == -1
      else code == 0 && exists a: nat, b: nat :: PipeMade(s, s', t, ino, a, b)
  {
    hide Inv, PipeMade;
    var a, f := FreeFd(s.task[t].filp, 0), FreeFile(s.file, 0);
    if a < 20 && f < 64 {
      var b, g := FreeFd(s.task[t].filp, a + 1), FreeFile(s.file, f + 1);
      if b < 20 && g < 64 && ino < 32 && s.icount[ino] == 0 {
        hide FreeFd, FreeFile;
        AttachTwo(s, t, ino, a, f, b, g);
      }
    }
  }

  lemma AttachTwo(s: Table, t: nat, ino: nat, a: nat, f: nat, b: nat, g: nat)
    requires t < |s.task| && ino < 32
    requires LowestFd(s, t, 0, a) && LowestFd(s, t, a + 1, b) && FirstFile(s, 0, f) && FirstFile(s, f + 1, g)
    ensures PipeMade(s, Attach(Attach(s, t, a, f, ino), t, b, g, ino), t, ino, a, b)
  {}

  lemma DropOnly(s: Table, t: nat)
    requires t < |s.task|
    ensures DropPwd(s, t).task == s.task[t := s.task[t].(pwd := 32)] && DropPwd(s, t).file == s.file
    ensures DropRoot(s, t).task == s.task[t := s.task[t].(root := 32)] && DropRoot(s, t).file == s.file
  {}

  /** sys_chdir and sys_chroot set the one directory and nothing else of any task or file. */
  lemma ChangesDirectory(s: Table, t: nat, ino: nat)
    requires t < |s.task| && ino < 32
    ensures Chdir(s, t, ino).task == s.task[t := s.task[t].(pwd := ino)] && Chdir(s, t, ino).file == s.file
    ensures Chroot(s, t, ino).task == s.task[t := s.task[t].(root := ino)] && Chroot(s, t, ino).file == s.file
  {
    DropOnly(s, t);
  }

  /** The descriptors of task t below fd are closed; files keep their inodes. */
  ghost predicate Stripped(s: Table, s': Table, t: nat, fd: nat)
    requires t < |s.task| && fd <= 20
  {
    && |s'.task| == |s.task| && (forall u | 0 <= u < |s.task| && u != t :: s'.task[u] == s.task[u])
    && s'.task[t].live == s.task[t].live && s'.task[t].pwd == s.task[t].pwd && s'.task[t].root == s.task[t].root
    && (forall k | 0 <= k < fd :: s'.task[t].filp[k] == 64)
    && forall g: nat | g < 64 :: s'.file[g].ino == s.file[g].ino
  }

  lemma StripMore(s: Table, s1: Table, t: nat, fd: nat)
    requires t < |s.task| && fd < 20 && Stripped(s, s1, t, fd) && Inv(s1) && s1.task[t].live
    ensures Stripped(s, Close(s1, t, fd).0, t, fd + 1)
  {
    hide Inv, Close;
    CloseAnswers(s1, t, fd);
  }

  lemma {:induction false} CloseAllOnly(s: Table, t: nat, fd: nat)
    requires Inv(s) && t < |s.task| && s.task[t].live && fd <= 20
    ensures Stripped(s, CloseAll(s, t, fd), t, fd)
  {
    if fd > 0 {
      hide Inv, Close, Stripped;
      CloseAllOnly(s, t, fd - 1);
      CloseAllKeeps(s, t, fd - 1);
      StripMore(s, CloseAll(s, t, fd - 1), t, fd - 1);
    }
  }

  /** do_exit takes every descriptor and both directories from the task and touches no other task. */
  lemma ExitLeaves(s: Table, t: nat)
    requires Inv(s) && t < |s.task| && s.task[t].live
    ensures
      var s' := Exit(s, t);
      && Inv(s') && s'.task == s.task[t := Task(false, NoFiles(), 32, 32)]
      && forall g: nat | g < 64 :: s'.file[g].ino == s.file[g].ino
  {
    CloseAllOnly(s, t, 20);
    ExitKeeps(s, t);
    var s1 := CloseAll(s, t, 20);
    hide Inv, CloseAll, DropPwd, DropRoot;
    DropOnly(s1, t);
    DropOnly(DropPwd(s1, t), t);
    assert s1.task[t].filp == NoFiles();
  }
}
