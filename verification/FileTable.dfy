/** The file table of src/fs/file.c as it is run, with the descriptor loops of fork and exit
    (src/kernel/task.c) and the counts of inodes (src/fs/inode.c). */
module FileTables {
  import opened Outcomes
  import opened Descriptors

  class FileTable {
    var live: set<nat>
    var fds: map<Fd, nat>
    const files: array<File>
    const inodes: array<Inode>

    function State(): Tables
      reads this, files, inodes
    {
      Tables(live, fds, files[..], inodes[..])
    }

    constructor (start: Tables)
      requires |start.files| == FILE_NR && |start.inodes| == INODE_NR
      ensures State() == start && fresh(files) && fresh(inodes)
    {
      live, fds := start.live, start.fds;
      files := new File[FILE_NR](i requires 0 <= i < FILE_NR => start.files[i]);
      inodes := new Inode[INODE_NR](i requires 0 <= i < INODE_NR => start.inodes[i]);
      new;
      assert files[..] == start.files;
      assert inodes[..] == start.inodes;
    }

    /** `get_file`, with the count it adds; None is its panic. */
    method GetFile() returns (f: Option<nat>)
      modifies files
      ensures f == FreeFile(old(files[..]), 3)
      ensures files[..] == if f.Some? then old(files[..])[f.value := old(files[..])[f.value].(count := 1)] else old(files[..])
    {
      var i := 3;
      while i < files.Length
        invariant 3 <= i && files[..] == old(files[..])
        invariant FreeFile(files[..], 3) == FreeFile(files[..], i)
      {
        if files[i].count == 0 {
          files[i] := files[i].(count := 1);
          return Some(i);
        }
        i := i + 1;
      }
      return None;
    }

    /** `task_get_fd`, and the search of `dupfd`. */
    method GetFd(task: nat, from: nat) returns (fd: Option<nat>)
      ensures fd == FreeFd(State(), task, from)
    {
      var i := from;
      while i < TASK_FILE_NR
        invariant from <= i && FreeFd(State(), task, from) == FreeFd(State(), task, i)
      {
        if Fd(task, i) !in fds {
          return Some(i);
        }
        i := i + 1;
      }
      return None;
    }

    method GetFreeInode() returns (n: Option<nat>)
      ensures n == FreeInode(inodes[..], 0)
    {
      var i := 0;
      while i < inodes.Length
        invariant 0 <= i && FreeInode(inodes[..], 0) == FreeInode(inodes[..], i)
      {
        if inodes[i].use.Unused? {
          return Some(i);
        }
        i := i + 1;
      }
      return None;
    }

    method PutInode(n: nat)
      requires n < inodes.Length && inodes[n].count > 0
      modifies inodes
      ensures inodes[..] == Iput(old(inodes[..]), n)
    {
      inodes[n] := inodes[n].(count := inodes[n].count - 1);
      if inodes[n].count == 0 {
        inodes[n] := Inode(Unused, 0);
      }
    }

    /** `put_file`; false where its assertion fails. */
    method PutFile(f: nat) returns (ok: bool)
      requires f < files.Length && (files[f].count > 0 ==> files[f].inode < inodes.Length && inodes[files[f].inode].count > 0)
      modifies files, inodes
      ensures ok <==> old(files[f].count) > 0
      ensures files[..] == if ok then old(files[..])[f := old(files[f]).(count := old(files[f].count) - 1)] else old(files[..])
      ensures inodes[..] == if ok && old(files[f].count) == 1 then Iput(old(inodes[..]), old(files[f].inode)) else old(inodes[..])
    {
      ok := files[f].count > 0;
      if ok {
        files[f] := files[f].(count := files[f].count - 1);
        if files[f].count == 0 {
          PutInode(files[f].inode);
        }
      }
    }

    /** `sys_close`; false where the machine stops. */
    method CloseFd(task: nat, fd: nat) returns (ok: bool)
      requires Inv(State())
      modifies this`fds, files, inodes
      ensures ok <==> fd < TASK_FILE_NR
      ensures ok ==> Inv(State()) && Close(old(State()), Fd(task, fd)) == Done(State())
      ensures !ok ==> State() == old(State())
    {
      hide Counted, InodesCounted;
      ghost var was := State();
      ok := fd < TASK_FILE_NR;
      if !ok {
        return;
      }
      CloseInv(was, Fd(task, fd));
      if Fd(task, fd) !in fds {
        return;
      }
      var f := fds[Fd(task, fd)];
      HeldCount(was, Fd(task, fd));
      InodeHeld(was, f);
      ok := PutFile(f);
      fds := fds - {Fd(task, fd)};
    }

    /** `sys_open` of inode `n`, already counted by `inode_open`; None is a panic. */
    method OpenFile(task: nat, n: nat, flags: nat) returns (fd: Option<nat>)
      requires Inv(State()) && task in live && n < INODE_NR && !inodes[n].use.PipeEnds?
      modifies this`fds, files, inodes
      ensures fd.Some? ==> Inv(State()) && Open(old(State()), task, n, flags) == Done(Opened(State(), fd.value))
      ensures fd.None? ==> Open(old(State()), task, n, flags).Halt?
    {
      hide Counted, InodesCounted;
      ghost var was := State();
      fd := GetFd(task, 3);
      if fd.None? {
        return;
      }
      var f := GetFile();
      if f.None? {
        return None;
      }
      fds := fds[Fd(task, fd.value) := f.value];
      files[f.value] := File(1, n, flags);
      inodes[n] := Inode(OnDisk, inodes[n].count + 1);
      assert State() == NewFile(was, Fd(task, fd.value), f.value, n, OnDisk, flags);
      OpenInv(was, task, n, flags);
    }

    /** `dupfd`; None is EOF. */
    method Duplicate(task: nat, fd: nat, arg: nat) returns (to: Option<nat>)
      requires Inv(State()) && task in live
      modifies this`fds, files
      ensures Inv(State()) && Duped(State(), to) == DupFd(old(State()), task, fd, arg)
    {
      hide Counted, InodesCounted;
      ghost var was := State();
      DupFdInv(was, task, fd, arg);
      if fd >= TASK_FILE_NR || Fd(task, fd) !in fds {
        return None;
      }
      to := GetFd(task, arg);
      if to.Some? {
        var f := fds[Fd(task, fd)];
        fds := fds[Fd(task, to.value) := f];
        files[f] := files[f].(count := files[f].count + 1);
        assert State() == Share(was, Fd(task, fd), Fd(task, to.value));
      }
    }

    /** `sys_dup2`. */
    method DuplicateTo(task: nat, fd: nat, to: nat) returns (ok: bool, r: Option<nat>)
      requires Inv(State()) && task in live
      modifies this`fds, files, inodes
      ensures ok <==> to < TASK_FILE_NR
      ensures ok ==> Inv(State()) && Dup2(old(State()), task, fd, to) == Done(Duped(State(), r))
    {
      hide Inv;
      r := None;
      ok := CloseFd(task, to);
      if ok {
        r := Duplicate(task, fd, to);
      }
    }

    method AddPipeEnd(task: nat, n: nat, flags: nat) returns (fd: Option<nat>)
      requires files.Length == FILE_NR
      modifies this`fds, files
      ensures fd.Some? ==> AddEnd(old(State()), task, n, flags) == Done(Opened(State(), fd.value))
      ensures fd.None? ==> AddEnd(old(State()), task, n, flags).Halt?
    {
      ghost var was := State();
      fd := GetFd(task, 3);
      if fd.None? {
        return;
      }
      var f := GetFile();
      if f.None? {
        return None;
      }
      fds := fds[Fd(task, fd.value) := f.value];
      files[f.value] := files[f.value].(inode := n, flags := flags);
      assert files[..] == was.files[f.value := File(1, n, flags)];
    }

    /** `sys_pipe`: the reading and the writing end; `ok` is false where it panics. */
    method MakePipe(task: nat) returns (ok: bool, reader: nat, writer: nat)
      requires Inv(State()) && task in live
      modifies this`fds, files, inodes
      ensures ok <==> Pipe(old(State()), task).Done?
      ensures ok ==> Inv(State()) && Pipe(old(State()), task) == Done(Piped(State(), reader, writer))
    {
      hide Inv, AddEnd;
      ghost var was := State();
      InvShaped(was);
      ok, reader, writer := false, 0, 0;
      var n := GetFreeInode();
      if n.None? {
        return;
      }
      inodes[n.value] := Inode(PipeEnds, 2);
      assert inodes[..] == was.inodes[n.value := Inode(PipeEnds, 2)];
      var rfd := AddPipeEnd(task, n.value, O_RDONLY);
      if rfd.None? {
        return;
      }
      var wfd := AddPipeEnd(task, n.value, O_WRONLY);
      if wfd.None? {
        return;
      }
      ok, reader, writer := true, rfd.value, wfd.value;
      PipeInv(was, task);
    }

    /** The loop of `task_fork` over the descriptors it copied. */
    method ForkDescriptors(parent: nat, child: nat)
      requires Inv(State()) && parent in live && child !in live
      modifies this`live, this`fds, files
      ensures Step(old(State()), DoFork(parent, child)) == Done(State()) && Inv(State())
    {
      hide Counted, InodesCounted, ForkFiles;
      ghost var was := State();
      live := live + {child};
      ghost var start := State();
      assert start.files == was.files && start.inodes == was.inodes;
      var i := 0;
      while i < TASK_FILE_NR
        invariant 0 <= i <= TASK_FILE_NR && Inv(State())
        invariant live == start.live && inodes[..] == start.inodes
        invariant forall j: nat | i <= j :: Fd(child, j) !in fds
        invariant ForkFiles(State(), parent, child, i) == ForkFiles(start, parent, child, 0)
      {
        ghost var now := State();
        ForkOnce(now, parent, child, i);
        if Fd(parent, i) in fds {
          ShareInv(now, Fd(parent, i), Fd(child, i));
          var f := fds[Fd(parent, i)];
          fds := fds[Fd(child, i) := f];
          files[f] := files[f].(count := files[f].count + 1);
          assert State() == Share(now, Fd(parent, i), Fd(child, i));
        }
        i := i + 1;
      }
      ForkEnd(State(), parent, child);
    }

    /** The loop of `task_exit` that closes every descriptor. */
    method ExitDescriptors(task: nat)
      requires Inv(State())
      modifies this`live, this`fds, files, inodes
      ensures ExitFiles(old(State()), task, 0).Done? && Inv(State())
      ensures State() == ExitFiles(old(State()), task, 0).value.(live := old(live) - {task})
    {
      hide Inv, Close;
      ghost var was := State();
      ExitStep(was, task);
      InvShaped(was);
      var i := 0;
      while i < TASK_FILE_NR
        invariant 0 <= i <= TASK_FILE_NR && Inv(State()) && Shaped(State()) && live == was.live
        invariant ExitFiles(State(), task, i) == ExitFiles(was, task, 0)
      {
        var ok := CloseFd(task, i);
        InvShaped(State());
        i := i + 1;
      }
      live := live - {task};
    }
  }

  lemma ForkOnce(s: Tables, parent: nat, child: nat, i: nat)
    requires Shaped(s) && i < TASK_FILE_NR
    ensures ForkFiles(s, parent, child, i) ==
      ForkFiles(if Fd(parent, i) in s.fds then Share(s, Fd(parent, i), Fd(child, i)) else s, parent, child, i + 1)
  {
  }

  lemma ForkEnd(s: Tables, parent: nat, child: nat)
    requires Shaped(s)
    ensures ForkFiles(s, parent, child, TASK_FILE_NR) == s
  {
  }

  lemma InvShaped(s: Tables)
    requires Inv(s)
    ensures Shaped(s)
  {
  }
}
