/** Open files (src/fs/file.c, sys_pipe in src/fs/pipe.c): descriptors of tasks point to entries of
    one file table, which point to inodes.  Entries and inodes are reference counted. */
module Descriptors {
  import opened Outcomes

  const TASK_FILE_NR: nat := 16
  const FILE_NR: nat := 128
  const INODE_NR: nat := 64
  const O_RDONLY: nat := 0
  const O_WRONLY: nat := 1

  /** Descriptor `slot` of a task. */
  datatype Fd = Fd(task: nat, slot: nat)

  datatype File = File(count: nat, inode: nat, flags: nat)

  datatype Use = Unused | OnDisk | PipeEnds

  datatype Inode = Inode(use: Use, count: nat)

  /** `fds` holds the descriptors that are not null, `live` the tasks that have not exited. */
  datatype Tables = Tables(live: set<nat>, fds: map<Fd, nat>, files: seq<File>, inodes: seq<Inode>)

  /** Every pointer points into its table. */
  predicate Shaped(s: Tables) {
    && |s.files| == FILE_NR && |s.inodes| == INODE_NR
    && (forall k | k in s.fds :: k.slot < TASK_FILE_NR && s.fds[k] < FILE_NR)
    && (forall f | 0 <= f < FILE_NR && s.files[f].count > 0 :: s.files[f].inode < INODE_NR)
  }

  // ---------- Searches ----------

  /** The first free descriptor of a task from `i` on. */
  function FreeFd(s: Tables, task: nat, i: nat): (r: Option<nat>)
    ensures r.Some? ==> i <= r.value < TASK_FILE_NR && Fd(task, r.value) !in s.fds
    ensures r.Some? ==> forall k | i <= k < r.value :: Fd(task, k) in s.fds
    ensures r.None? ==> forall k | i <= k < TASK_FILE_NR :: Fd(task, k) in s.fds
    decreases TASK_FILE_NR - i
  {
    if i >= TASK_FILE_NR then None else if Fd(task, i) !in s.fds then Some(i) else FreeFd(s, task, i + 1)
  }

  /** `get_file`, from entry `i` on. */
  function FreeFile(files: seq<File>, i: nat): (r: Option<nat>)
    ensures r.Some? ==> i <= r.value < |files| && files[r.value].count == 0
    ensures r.Some? ==> forall k | i <= k < r.value :: files[k].count > 0
    ensures r.None? ==> forall k | i <= k < |files| :: files[k].count > 0
    decreases |files| - i
  {
    if i >= |files| then None else if files[i].count == 0 then Some(i) else FreeFile(files, i + 1)
  }

  function FreeInode(inodes: seq<Inode>, i: nat): (r: Option<nat>)
    ensures r.Some? ==> i <= r.value < |inodes| && inodes[r.value].use.Unused?
    ensures r.Some? ==> forall k | i <= k < r.value :: !inodes[k].use.Unused?
    ensures r.None? ==> forall k | i <= k < |inodes| :: !inodes[k].use.Unused?
    decreases |inodes| - i
  {
    if i >= |inodes| then None else if inodes[i].use.Unused? then Some(i) else FreeInode(inodes, i + 1)
  }

  // ---------- Operations ----------

  /** `iput`, and `put_pipe_inode` for a pipe: with its last reference the inode is given back. */
  function Iput(inodes: seq<Inode>, n: nat): seq<Inode>
    requires n < |inodes| && inodes[n].count > 0
  {
    inodes[n := if inodes[n].count == 1 then Inode(Unused, 0) else inodes[n].(count := inodes[n].count - 1)]
  }

  /** `sys_close`: it halts on a number that is no descriptor, on a file without references, and
      (here) where the count of an inode would wrap around. */
  function Close(s: Tables, k: Fd): (r: Outcome<Tables>)
    requires Shaped(s)
    ensures r.Done? ==> Shaped(r.value)
  {
    if k.slot >= TASK_FILE_NR then Halt(Rejected)
    else if k !in s.fds then Done(s)
    else
      var f := s.fds[k];
      var file := s.files[f];
      if file.count == 0 || (file.count == 1 && s.inodes[file.inode].count == 0) then Halt(CountCheck)
      else
        Done(s.(fds := s.fds - {k},
                files := s.files[f := file.(count := file.count - 1)],
                inodes := if file.count == 1 then Iput(s.inodes, file.inode) else s.inodes))
  }

  /** A descriptor for a file table entry not in use, and the entry for inode `n`. */
  function NewFile(s: Tables, k: Fd, f: nat, n: nat, use: Use, flags: nat): Tables
    requires f < |s.files| && n < |s.inodes|
  {
    s.(fds := s.fds[k := f], files := s.files[f := File(1, n, flags)], inodes := s.inodes[n := Inode(use, s.inodes[n].count + 1)])
  }

  datatype Opened = Opened(s: Tables, fd: nat)

  /** `sys_open`, once `inode_open` has found the file and counted its inode `n`. */
  function Open(s: Tables, task: nat, n: nat, flags: nat): Outcome<Opened>
    requires Shaped(s) && n < INODE_NR
  {
    match FreeFd(s, task, 3)
    case None => Halt(Rejected)
    case Some(fd) =>
      match FreeFile(s.files, 3)
      case None => Halt(Rejected)
      case Some(f) => Done(Opened(NewFile(s, Fd(task, fd), f, n, OnDisk, flags), fd))
  }

  datatype Duped = Duped(s: Tables, fd: Option<nat>)

  /** `dupfd`: None stands for EOF. */
  function DupFd(s: Tables, task: nat, fd: nat, arg: nat): Duped
    requires Shaped(s)
  {
    if fd >= TASK_FILE_NR || Fd(task, fd) !in s.fds then Duped(s, None)
    else
      match FreeFd(s, task, arg)
      case None => Duped(s, None)
      case Some(to) => Duped(Share(s, Fd(task, fd), Fd(task, to)), Some(to))
  }

  /** One more descriptor for the entry of another. */
  function Share(s: Tables, k: Fd, to: Fd): Tables
    requires k in s.fds && s.fds[k] < |s.files|
  {
    var f := s.fds[k];
    s.(fds := s.fds[to := f], files := s.files[f := s.files[f].(count := s.files[f].count + 1)])
  }

  /** `sys_dup2`: the target is closed first. */
  function Dup2(s: Tables, task: nat, fd: nat, to: nat): Outcome<Duped>
    requires Shaped(s)
  {
    var closed :- Close(s, Fd(task, to));
    Done(DupFd(closed, task, fd, to))
  }

  datatype Piped = Piped(s: Tables, reader: nat, writer: nat)

  /** A descriptor for one end of pipe `n`, which is already counted. */
  function AddEnd(s: Tables, task: nat, n: nat, flags: nat): Outcome<Opened>
    requires |s.files| == FILE_NR
  {
    match FreeFd(s, task, 3)
    case None => Halt(Rejected)
    case Some(fd) =>
      match FreeFile(s.files, 3)
      case None => Halt(Rejected)
      case Some(f) => Done(Opened(s.(fds := s.fds[Fd(task, fd) := f], files := s.files[f := File(1, n, flags)]), fd))
  }

  /** `sys_pipe`: one inode with both ends counted, and two entries. */
  function Pipe(s: Tables, task: nat): Outcome<Piped>
    requires Shaped(s)
  {
    match FreeInode(s.inodes, 0)
    case None => Halt(Rejected)
    case Some(n) =>
      var r :- AddEnd(s.(inodes := s.inodes[n := Inode(PipeEnds, 2)]), task, n, O_RDONLY);
      var w :- AddEnd(r.s, task, n, O_WRONLY);
      Done(Piped(w.s, r.fd, w.fd))
  }

  /** The loop of `task_fork` over the descriptors of the parent, from `i` on. */
  function ForkFiles(s: Tables, parent: nat, child: nat, i: nat): Tables
    requires forall k | k in s.fds :: s.fds[k] < |s.files|
    decreases TASK_FILE_NR - i
  {
    if i >= TASK_FILE_NR then s
    else ForkFiles(if Fd(parent, i) in s.fds then Share(s, Fd(parent, i), Fd(child, i)) else s, parent, child, i + 1)
  }

  /** The loop of `task_exit` that closes every descriptor, from `i` on. */
  function ExitFiles(s: Tables, task: nat, i: nat): Outcome<Tables>
    requires Shaped(s)
    decreases TASK_FILE_NR - i
  {
    if i >= TASK_FILE_NR then Done(s)
    else
      var closed :- Close(s, Fd(task, i));
      ExitFiles(closed, task, i + 1)
  }

  // ---------- The invariant ----------

  /** The descriptors that point to entry `f`. */
  function Holders(fds: map<Fd, nat>, f: nat): set<Fd> {
    set k | k in fds && fds[k] == f
  }

  /** The entries in use that point to inode `n`. */
  function Users(files: seq<File>, n: nat): set<nat> {
    set f | 0 <= f < |files| && files[f].count > 0 && files[f].inode == n
  }

  /** Each entry counts the descriptors that point to it. */
  ghost predicate Counted(fds: map<Fd, nat>, files: seq<File>) {
    forall f | 0 <= f < |files| :: files[f].count == |Holders(fds, f)|
  }

  /** A pipe's inode counts the entries that point to it; the inode of a file on disk may have
      other references besides; nothing points to an inode not in use. */
  ghost predicate InodeCounted(inode: Inode, users: nat) {
    match inode.use
    case Unused => inode.count == 0 == users
    case OnDisk => inode.count >= users && inode.count > 0
    case PipeEnds => inode.count == users > 0
  }

  ghost predicate InodesCounted(files: seq<File>, inodes: seq<Inode>) {
    forall n | 0 <= n < |inodes| :: InodeCounted(inodes[n], |Users(files, n)|)
  }

  ghost predicate Inv(s: Tables) {
    && Shaped(s) && Counted(s.fds, s.files) && InodesCounted(s.files, s.inodes)
    && forall k | k in s.fds :: k.task in s.live
  }

  // ---------- Sets of holders and users ----------

  lemma HoldersAdd(fds: map<Fd, nat>, k: Fd, f: nat, g: nat)
    requires k !in fds
    ensures |Holders(fds[k := f], g)| == |Holders(fds, g)| + if f == g then 1 else 0
  {
    if f == g {
      assert Holders(fds[k := f], g) == Holders(fds, g) + {k};
    } else {
      assert Holders(fds[k := f], g) == Holders(fds, g);
    }
  }

  lemma HoldersDrop(fds: map<Fd, nat>, k: Fd, g: nat)
    requires k in fds
    ensures |Holders(fds - {k}, g)| == |Holders(fds, g)| - if fds[k] == g then 1 else 0
  {
    if fds[k] == g {
      assert Holders(fds - {k}, g) == Holders(fds, g) - {k};
    } else {
      assert Holders(fds - {k}, g) == Holders(fds, g);
    }
  }

  /** An entry that starts to be used. */
  lemma UsersAdd(files: seq<File>, f: nat, file: File, n: nat)
    requires f < |files| && files[f].count == 0 && file.count > 0
    ensures |Users(files[f := file], n)| == |Users(files, n)| + if file.inode == n then 1 else 0
  {
    if file.inode == n {
      assert Users(files[f := file], n) == Users(files, n) + {f};
    } else {
      assert Users(files[f := file], n) == Users(files, n);
    }
  }

  /** An entry given back. */
  lemma UsersDrop(files: seq<File>, f: nat, file: File, n: nat)
    requires f < |files| && files[f].count > 0 && file.count == 0
    ensures |Users(files[f := file], n)| == |Users(files, n)| - if files[f].inode == n then 1 else 0
  {
    if files[f].inode == n {
      assert Users(files[f := file], n) == Users(files, n) - {f};
    } else {
      assert Users(files[f := file], n) == Users(files, n);
    }
  }

  /** An entry that stays in use. */
  lemma UsersSame(files: seq<File>, f: nat, count: nat, n: nat)
    requires f < |files| && files[f].count > 0 && count > 0
    ensures Users(files[f := files[f].(count := count)], n) == Users(files, n)
  {
  }

  lemma HeldCount(s: Tables, k: Fd)
    requires Inv(s) && k in s.fds
    ensures s.fds[k] < FILE_NR && s.files[s.fds[k]].count > 0
  {
    assert k in Holders(s.fds, s.fds[k]);
  }

  // ---------- Each operation keeps the invariant ----------

  lemma ShareInv(s: Tables, k: Fd, to: Fd)
    requires Inv(s) && k in s.fds && to !in s.fds && to.slot < TASK_FILE_NR && to.task in s.live
    ensures Inv(Share(s, k, to))
  {
    hide Holders, Users;
    HeldCount(s, k);
    var f, d := s.fds[k], Share(s, k, to);
    forall g | 0 <= g < FILE_NR ensures d.files[g].count == |Holders(d.fds, g)| {
      HoldersAdd(s.fds, to, f, g);
    }
    forall n: nat ensures Users(d.files, n) == Users(s.files, n) {
      UsersSame(s.files, f, s.files[f].count + 1, n);
    }
  }

  lemma NewFileInv(s: Tables, k: Fd, f: nat, n: nat, use: Use, flags: nat)
    requires Inv(s) && k !in s.fds && k.slot < TASK_FILE_NR && k.task in s.live
    requires f < FILE_NR && s.files[f].count == 0 && n < INODE_NR
    requires !use.Unused? && (s.inodes[n].use.Unused? || s.inodes[n].use == use)
    ensures Inv(NewFile(s, k, f, n, use, flags))
  {
    hide Holders, Users;
    var d := NewFile(s, k, f, n, use, flags);
    forall g | 0 <= g < FILE_NR ensures d.files[g].count == |Holders(d.fds, g)| {
      HoldersAdd(s.fds, k, f, g);
    }
    forall m: nat ensures |Users(d.files, m)| == |Users(s.files, m)| + if n == m then 1 else 0 {
      UsersAdd(s.files, f, File(1, n, flags), m);
    }
  }

  /** Closing never fails for a real descriptor. */
  lemma CloseInv(s: Tables, k: Fd)
    requires Inv(s) && k.slot < TASK_FILE_NR
    ensures var r := Close(s, k);
      && r.Done? && Inv(r.value) && r.value.live == s.live && r.value.fds == s.fds - {k}
  {
    hide Holders, Users;
    if k in s.fds {
      HeldCount(s, k);
      var f := s.fds[k];
      var n := s.files[f].inode;
      InodeHeld(s, f);
      var d := Close(s, k).value;
      forall g | 0 <= g < FILE_NR ensures d.files[g].count == |Holders(d.fds, g)| {
        HoldersDrop(s.fds, k, g);
      }
      CloseInodes(s, k);
    }
  }

  lemma InodeHeld(s: Tables, f: nat)
    requires Inv(s) && f < FILE_NR && s.files[f].count > 0
    ensures var n := s.files[f].inode; n < INODE_NR && s.inodes[n].count > 0 && !s.inodes[n].use.Unused?
  {
    assert f in Users(s.files, s.files[f].inode);
  }

  lemma CloseInodes(s: Tables, k: Fd)
    requires Inv(s) && k in s.fds && Close(s, k).Done?
    ensures var d := Close(s, k).value; InodesCounted(d.files, d.inodes)
  {
    hide Holders, Users, Counted;
    var d, f := Close(s, k).value, s.fds[k];
    var n := s.files[f].inode;
    InodeHeld(s, f);
    if s.files[f].count == 1 {
      forall m: nat ensures |Users(d.files, m)| == |Users(s.files, m)| - if n == m then 1 else 0 {
        UsersDrop(s.files, f, s.files[f].(count := 0), m);
      }
    } else {
      forall m: nat ensures Users(d.files, m) == Users(s.files, m) {
        UsersSame(s.files, f, s.files[f].count - 1, m);
      }
    }
  }

  /** An open gives the lowest free descriptor from 3 on an entry that no descriptor shares; it
      fails when there is no such descriptor or no such entry. */
  lemma OpenInv(s: Tables, task: nat, n: nat, flags: nat)
    requires Inv(s) && task in s.live && n < INODE_NR && !s.inodes[n].use.PipeEnds?
    ensures Open(s, task, n, flags).Halt? <==>
      (forall k | 3 <= k < TASK_FILE_NR :: Fd(task, k) in s.fds) || (forall f | 3 <= f < FILE_NR :: s.files[f].count > 0)
    ensures Open(s, task, n, flags).Done? ==> var o := Open(s, task, n, flags).value;
      && Inv(o.s) && 3 <= o.fd < TASK_FILE_NR && Fd(task, o.fd) !in s.fds
      && (forall k | 3 <= k < o.fd :: Fd(task, k) in s.fds)
      && Fd(task, o.fd) in o.s.fds
      && var f := o.s.fds[Fd(task, o.fd)];
      && o.s.fds == s.fds[Fd(task, o.fd) := f] && (forall k | k in s.fds :: s.fds[k] != f) && o.s.files[f] == File(1, n, flags)
  {
    hide Counted, InodesCounted;
    if Open(s, task, n, flags).Done? {
      var o := Open(s, task, n, flags).value;
      var f := FreeFile(s.files, 3).value;
      NewFileInv(s, Fd(task, o.fd), f, n, OnDisk, flags);
      forall k | k in s.fds ensures s.fds[k] != f {
        HeldCount(s, k);
      }
    }
  }

  /** A duplicate is the lowest free descriptor from `arg` on, for the entry of an open one; EOF
      when that is not open or there is no free one. */
  lemma DupFdInv(s: Tables, task: nat, fd: nat, arg: nat)
    requires Inv(s) && task in s.live
    ensures var d := DupFd(s, task, fd, arg);
      && Inv(d.s)
      && (d.fd.None? <==> Fd(task, fd) !in s.fds || forall k | arg <= k < TASK_FILE_NR :: Fd(task, k) in s.fds)
      && (d.fd.None? ==> d.s == s)
      && (d.fd.Some? ==>
            && arg <= d.fd.value < TASK_FILE_NR && Fd(task, d.fd.value) !in s.fds
            && (forall k | arg <= k < d.fd.value :: Fd(task, k) in s.fds)
            && d.s.fds == s.fds[Fd(task, d.fd.value) := s.fds[Fd(task, fd)]])
  {
    hide Counted, InodesCounted;
    var d := DupFd(s, task, fd, arg);
    if d.fd.Some? {
      ShareInv(s, Fd(task, fd), Fd(task, d.fd.value));
    }
  }

  /** `dup2` of an open descriptor gives exactly the target, unless it is its own target: then it
      closes it and fails. */
  lemma Dup2Exact(s: Tables, task: nat, fd: nat, to: nat)
    requires Inv(s) && task in s.live && to < TASK_FILE_NR
    ensures Dup2(s, task, fd, to).Done?
    ensures var d := Dup2(s, task, fd, to).value;
      && Inv(d.s)
      && (d.fd == Some(to) <==> Fd(task, fd) in s.fds && fd != to)
      && (d.fd.None? <==> Fd(task, fd) !in s.fds || fd == to)
      && d.s.fds == (s.fds - {Fd(task, to)}) + (if d.fd.Some? then map[Fd(task, to) := s.fds[Fd(task, fd)]] else map[])
  {
    hide Counted, InodesCounted;
    CloseInv(s, Fd(task, to));
    var c := Close(s, Fd(task, to)).value;
    DupFdInv(c, task, fd, to);
  }

  /** The free descriptors of a task from 3 on, and the free entries of the file table. */
  ghost function FreeFds(s: Tables, task: nat): set<nat> {
    set k: nat | 3 <= k < TASK_FILE_NR && Fd(task, k) !in s.fds
  }

  ghost function FreeFiles(files: seq<File>): set<nat> {
    set f: nat | 3 <= f < |files| && files[f].count == 0
  }

  lemma AddEndServed(s: Tables, task: nat, n: nat, flags: nat)
    requires |s.files| == FILE_NR
    ensures AddEnd(s, task, n, flags).Done? <==> FreeFds(s, task) != {} && FreeFiles(s.files) != {}
    ensures AddEnd(s, task, n, flags).Done? ==>
      var o := AddEnd(s, task, n, flags).value;
      && |o.s.files| == FILE_NR && |FreeFds(o.s, task)| == |FreeFds(s, task)| - 1 && |FreeFiles(o.s.files)| == |FreeFiles(s.files)| - 1
  {
    var fd, f := FreeFd(s, task, 3), FreeFile(s.files, 3);
    if fd.Some? {
      assert fd.value in FreeFds(s, task);
    }
    if f.Some? {
      assert f.value in FreeFiles(s.files);
    }
    if fd.Some? && f.Some? {
      var o := AddEnd(s, task, n, flags).value;
      assert FreeFds(o.s, task) == FreeFds(s, task) - {fd.value};
      assert FreeFiles(o.s.files) == FreeFiles(s.files) - {f.value};
    }
  }

  /** A pipe is made exactly when there is a free inode and two free descriptors and entries. */
  lemma PipeServed(s: Tables, task: nat)
    requires Shaped(s)
    ensures Pipe(s, task).Done? <==>
      && (exists n :: 0 <= n < INODE_NR && s.inodes[n].use.Unused?)
      && |FreeFds(s, task)| >= 2 && |FreeFiles(s.files)| >= 2
  {
    hide AddEnd, FreeFds, FreeFiles;
    var n := FreeInode(s.inodes, 0);
    if n.Some? {
      var t := s.(inodes := s.inodes[n.value := Inode(PipeEnds, 2)]);
      SameFds(s, t, task);
      AddEndServed(t, task, n.value, O_RDONLY);
      NotNone(FreeFds(t, task));
      NotNone(FreeFiles(t.files));
      var r := AddEnd(t, task, n.value, O_RDONLY);
      if r.Done? {
        AddEndServed(r.value.s, task, n.value, O_WRONLY);
        NotNone(FreeFds(r.value.s, task));
        NotNone(FreeFiles(r.value.s.files));
      }
    }
  }

  lemma SameFds(s: Tables, t: Tables, task: nat)
    requires s.fds == t.fds
    ensures FreeFds(s, task) == FreeFds(t, task)
  {
  }

  lemma NotNone(s: set<nat>)
    ensures s != {} <==> |s| >= 1
  {
  }

  /** A pipe is its two ends opened on one inode, the first for reading and the second for
      writing, on the two lowest free descriptors from 3 on. */
  lemma PipeInv(s: Tables, task: nat)
    requires Inv(s) && task in s.live && Pipe(s, task).Done?
    ensures var p := Pipe(s, task).value;
      && Inv(p.s) && 3 <= p.reader < p.writer
      && Fd(task, p.reader) !in s.fds && Fd(task, p.writer) !in s.fds
      && (forall k | 3 <= k < p.writer && k != p.reader :: Fd(task, k) in s.fds)
      && p.s.fds.Keys == s.fds.Keys + {Fd(task, p.reader), Fd(task, p.writer)}
    ensures var p := Pipe(s, task).value;
      var r, w := p.s.fds[Fd(task, p.reader)], p.s.fds[Fd(task, p.writer)];
      && r != w && (forall k | k in s.fds :: s.fds[k] == p.s.fds[k] && s.fds[k] != r && s.fds[k] != w)
      && p.s.files[r].inode == p.s.files[w].inode
      && p.s.files[r].flags == O_RDONLY && p.s.files[w].flags == O_WRONLY
      && p.s.inodes[p.s.files[r].inode] == Inode(PipeEnds, 2)
  {
    hide Holders, Users;
    var p := Pipe(s, task).value;
    var n := FreeInode(s.inodes, 0).value;
    assert InodeCounted(s.inodes[n], |Users(s.files, n)|);
    var k, l := Fd(task, p.reader), Fd(task, p.writer);
    var f, g := p.s.fds[k], p.s.fds[l];
    NewFileInv(s, k, f, n, PipeEnds, O_RDONLY);
    var half := NewFile(s, k, f, n, PipeEnds, O_RDONLY);
    NewFileInv(half, l, g, n, PipeEnds, O_WRONLY);
    assert p.s == NewFile(half, l, g, n, PipeEnds, O_WRONLY);
    forall e | e in s.fds ensures s.fds[e] != f && s.fds[e] != g {
      HeldCount(s, e);
    }
  }

  /** After a fork the child has the descriptors of its parent, on the same entries. */
  lemma {:induction false} ForkFilesInv(s: Tables, parent: nat, child: nat, i: nat)
    requires Inv(s) && parent in s.live && child in s.live && parent != child
    requires forall j: nat | i <= j :: Fd(child, j) !in s.fds
    ensures var d := ForkFiles(s, parent, child, i);
      && Inv(d) && d.live == s.live
      && (forall k: Fd | k.task != child || k.slot < i :: (k in d.fds <==> k in s.fds) && (k in s.fds ==> d.fds[k] == s.fds[k]))
      && (forall j: nat | i <= j :: (Fd(child, j) in d.fds <==> Fd(parent, j) in s.fds)
            && (Fd(parent, j) in s.fds ==> d.fds[Fd(child, j)] == s.fds[Fd(parent, j)]))
    decreases TASK_FILE_NR - i
  {
    hide Counted, InodesCounted;
    if i >= TASK_FILE_NR {
    } else {
      var e := s;
      if Fd(parent, i) in s.fds {
        ShareInv(s, Fd(parent, i), Fd(child, i));
        e := Share(s, Fd(parent, i), Fd(child, i));
      }
      ForkFilesInv(e, parent, child, i + 1);
      var d := ForkFiles(e, parent, child, i + 1);
      forall j: nat | i <= j ensures (Fd(child, j) in d.fds <==> Fd(parent, j) in s.fds)
        && (Fd(parent, j) in s.fds ==> d.fds[Fd(child, j)] == s.fds[Fd(parent, j)])
      {
        assert Fd(child, i).slot < i + 1;
      }
    }
  }

  /** Exit closes the descriptors of the task, and no others. */
  lemma {:induction false} ExitFilesInv(s: Tables, task: nat, i: nat)
    requires Inv(s)
    ensures var r := ExitFiles(s, task, i);
      && r.Done? && Inv(r.value) && r.value.live == s.live
      && (forall k: Fd :: k in r.value.fds <==> k in s.fds && !(k.task == task && k.slot >= i))
      && (forall k | k in r.value.fds :: r.value.fds[k] == s.fds[k])
    decreases TASK_FILE_NR - i
  {
    hide Counted, InodesCounted;
    if i >= TASK_FILE_NR {
    } else {
      CloseInv(s, Fd(task, i));
      ExitFilesInv(Close(s, Fd(task, i)).value, task, i + 1);
    }
  }

  // ---------- Runs ----------

  /** `Grab` and `Drop` are the references to inodes that no descriptor makes: working
      directories, programs, mounts. */
  datatype Op =
    | DoOpen(task: nat, n: nat, flags: nat)
    | DoClose(task: nat, fd: nat)
    | DoDup(task: nat, fd: nat)
    | DoDup2(task: nat, fd: nat, to: nat)
    | DoPipe(task: nat)
    | DoFork(parent: nat, child: nat)
    | DoExit(task: nat)
    | Grab(n: nat)
    | Drop(n: nat)

  ghost predicate Enabled(s: Tables, op: Op) {
    match op
    case DoOpen(task, n, _) => task in s.live && n < |s.inodes| && !s.inodes[n].use.PipeEnds?
    case DoClose(task, _) => task in s.live
    case DoDup(task, _) => task in s.live
    case DoDup2(task, _, _) => task in s.live
    case DoPipe(task) => task in s.live
    case DoFork(parent, child) => parent in s.live && child !in s.live
    case DoExit(task) => task in s.live
    case Grab(n) => n < |s.inodes| && s.inodes[n].use != PipeEnds
    case Drop(n) => n < |s.inodes| && s.inodes[n].use.OnDisk? && s.inodes[n].count > |Users(s.files, n)|
  }

  ghost function Step(s: Tables, op: Op): Outcome<Tables>
    requires Shaped(s) && Enabled(s, op)
  {
    match op
    case DoOpen(task, n, flags) => var o :- Open(s, task, n, flags); Done(o.s)
    case DoClose(task, fd) => Close(s, Fd(task, fd))
    case DoDup(task, fd) => Done(DupFd(s, task, fd, 0).s)
    case DoDup2(task, fd, to) => var d :- Dup2(s, task, fd, to); Done(d.s)
    case DoPipe(task) => var p :- Pipe(s, task); Done(p.s)
    case DoFork(parent, child) => Done(ForkFiles(s.(live := s.live + {child}), parent, child, 0))
    case DoExit(task) => var d :- ExitFiles(s, task, 0); Done(d.(live := d.live - {task}))
    case Grab(n) => Done(s.(inodes := s.inodes[n := Inode(OnDisk, s.inodes[n].count + 1)]))
    case Drop(n) => Done(s.(inodes := Iput(s.inodes, n)))
  }

  lemma StepInv(s: Tables, op: Op)
    requires Inv(s) && Enabled(s, op) && Step(s, op).Done?
    ensures Inv(Step(s, op).value)
  {
    hide Open, Close, DupFd, Dup2, Pipe, ForkFiles, ExitFiles, Users, Holders;
    match op {
      case DoOpen(task, n, flags) => OpenInv(s, task, n, flags);
      case DoClose(task, fd) => CloseStep(s, Fd(task, fd));
      case DoDup(task, fd) => DupFdInv(s, task, fd, 0);
      case DoDup2(task, fd, to) => Dup2Step(s, task, fd, to);
      case DoPipe(task) => PipeInv(s, task);
      case DoFork(parent, child) => ForkStep(s, parent, child);
      case DoExit(task) => ExitStep(s, task);
      case Grab(n) => RefStep(s, n, Inode(OnDisk, s.inodes[n].count + 1));
      case Drop(n) => RefStep(s, n, Iput(s.inodes, n)[n]);
    }
  }

  lemma CloseStep(s: Tables, k: Fd)
    requires Inv(s) && Close(s, k).Done?
    ensures Inv(Close(s, k).value)
  {
    hide Counted, InodesCounted;
    CloseInv(s, k);
  }

  lemma Dup2Step(s: Tables, task: nat, fd: nat, to: nat)
    requires Inv(s) && task in s.live && Dup2(s, task, fd, to).Done?
    ensures Inv(Dup2(s, task, fd, to).value.s)
  {
    hide Counted, InodesCounted;
    Dup2Exact(s, task, fd, to);
  }

  lemma ForkStep(s: Tables, parent: nat, child: nat)
    requires Inv(s) && parent in s.live && child !in s.live
    ensures Inv(ForkFiles(s.(live := s.live + {child}), parent, child, 0))
  {
    hide Counted, InodesCounted;
    ForkFilesInv(s.(live := s.live + {child}), parent, child, 0);
  }

  lemma ExitStep(s: Tables, task: nat)
    requires Inv(s)
    ensures ExitFiles(s, task, 0).Done? && var d := ExitFiles(s, task, 0).value; Inv(d.(live := d.live - {task}))
  {
    hide Counted, InodesCounted;
    ExitFilesInv(s, task, 0);
  }

  lemma RefStep(s: Tables, n: nat, inode: Inode)
    requires Inv(s) && n < INODE_NR && InodeCounted(inode, |Users(s.files, n)|)
    ensures Inv(s.(inodes := s.inodes[n := inode]))
  {
    hide Users, Holders;
  }

  /** A pipe is there exactly as long as some task has a descriptor for one of its ends, and no
      descriptor points to an inode that was given back. */
  lemma PipeLives(s: Tables, n: nat)
    requires Inv(s) && n < INODE_NR
    ensures s.inodes[n].use.PipeEnds? ==> exists k :: k in s.fds && s.files[s.fds[k]].inode == n
    ensures (exists k :: k in s.fds && s.files[s.fds[k]].inode == n) ==> !s.inodes[n].use.Unused?
  {
    if s.inodes[n].use.PipeEnds? {
      assert InodeCounted(s.inodes[n], |Users(s.files, n)|);
      var f :| f in Users(s.files, n);
      var k :| k in Holders(s.fds, f);
      assert k in s.fds && s.files[s.fds[k]].inode == n;
    }
    forall k | k in s.fds && s.files[s.fds[k]].inode == n ensures !s.inodes[n].use.Unused? {
      HeldCount(s, k);
      InodeHeld(s, s.fds[k]);
    }
  }

  /** An inode in use stays what it is or is given back. */
  ghost predicate UseKept(s: Tables, d: Tables, n: nat)
    requires n < |s.inodes|
  {
    s.inodes[n].use.Unused? || (n < |d.inodes| && (d.inodes[n].use == s.inodes[n].use || d.inodes[n].use.Unused?))
  }

  lemma CloseKept(s: Tables, k: Fd, n: nat)
    requires Shaped(s) && Close(s, k).Done? && n < INODE_NR
    ensures UseKept(s, Close(s, k).value, n)
  {
  }

  lemma {:induction false} ExitKept(s: Tables, task: nat, i: nat, n: nat)
    requires Shaped(s) && ExitFiles(s, task, i).Done? && n < INODE_NR
    ensures UseKept(s, ExitFiles(s, task, i).value, n)
    decreases TASK_FILE_NR - i
  {
    hide Close;
    if i >= TASK_FILE_NR {
    } else {
      CloseKept(s, Fd(task, i), n);
      ExitKept(Close(s, Fd(task, i)).value, task, i + 1, n);
      var d := Close(s, Fd(task, i)).value;
      if d.inodes[n].use.Unused? {
        ExitUnused(d, task, i + 1, n);
      }
    }
  }

  /** Closing brings no inode into use. */
  lemma {:induction false} ExitUnused(s: Tables, task: nat, i: nat, n: nat)
    requires Shaped(s) && ExitFiles(s, task, i).Done? && n < INODE_NR && s.inodes[n].use.Unused?
    ensures n < |ExitFiles(s, task, i).value.inodes| && ExitFiles(s, task, i).value.inodes[n].use.Unused?
    decreases TASK_FILE_NR - i
  {
    hide Close;
    if i >= TASK_FILE_NR {
    } else {
      CloseUnused(s, Fd(task, i), n);
      ExitUnused(Close(s, Fd(task, i)).value, task, i + 1, n);
    }
  }

  lemma CloseUnused(s: Tables, k: Fd, n: nat)
    requires Shaped(s) && Close(s, k).Done? && n < INODE_NR && s.inodes[n].use.Unused?
    ensures Close(s, k).value.inodes[n].use.Unused?
  {
  }

  lemma {:induction false} ForkKept(s: Tables, parent: nat, child: nat, i: nat)
    requires forall k | k in s.fds :: s.fds[k] < |s.files|
    ensures ForkFiles(s, parent, child, i).inodes == s.inodes
    decreases TASK_FILE_NR - i
  {
    if i >= TASK_FILE_NR {
    } else {
      ForkKept(if Fd(parent, i) in s.fds then Share(s, Fd(parent, i), Fd(child, i)) else s, parent, child, i + 1);
    }
  }

  lemma StepKept(s: Tables, op: Op, n: nat)
    requires Inv(s) && Enabled(s, op) && Step(s, op).Done? && n < INODE_NR
    ensures UseKept(s, Step(s, op).value, n)
  {
    hide Close, ForkFiles, ExitFiles, Users, Holders, Counted, InodesCounted;
    match op {
      case DoClose(task, fd) => CloseKept(s, Fd(task, fd), n);
      case DoDup2(task, fd, to) => CloseKept(s, Fd(task, to), n);
      case DoFork(parent, child) => ForkKept(s.(live := s.live + {child}), parent, child, 0);
      case DoExit(task) => ExitKept(s, task, 0, n);
      case _ =>
    }
  }

  /** Whatever is done, an inode that a descriptor points to afterwards, and that was in use
      before, is still the pipe or the file that it was. */
  lemma UseStays(s: Tables, op: Op, n: nat)
    requires Inv(s) && Enabled(s, op) && Step(s, op).Done? && n < INODE_NR && !s.inodes[n].use.Unused?
    ensures var d := Step(s, op).value;
      && Inv(d)
      && ((exists k :: k in d.fds && d.files[d.fds[k]].inode == n) ==> d.inodes[n].use == s.inodes[n].use)
      && (s.inodes[n].use.PipeEnds? ==>
            (d.inodes[n].use.PipeEnds? <==> exists k :: k in d.fds && d.files[d.fds[k]].inode == n))
  {
    hide Enabled, Step, Counted, InodesCounted;
    StepInv(s, op);
    StepKept(s, op, n);
    PipeLives(Step(s, op).value, n);
  }

  ghost predicate Runs(s: Tables, ops: seq<Op>)
    decreases |ops|
  {
    ops == [] || (Shaped(s) && Enabled(s, ops[0]) && Step(s, ops[0]).Done? && Runs(Step(s, ops[0]).value, ops[1..]))
  }

  ghost function Run(s: Tables, ops: seq<Op>): Tables
    requires Runs(s, ops)
    decreases |ops|
  {
    if ops == [] then s else Run(Step(s, ops[0]).value, ops[1..])
  }

  /** Over any run each entry counts its descriptors. */
  lemma {:induction false} RunCounts(s: Tables, ops: seq<Op>)
    requires Inv(s) && Runs(s, ops)
    ensures Inv(Run(s, ops))
    decreases |ops|
  {
    hide Inv, Enabled, Step;
    if ops == [] {
    } else {
      StepInv(s, ops[0]);
      RunCounts(Step(s, ops[0]).value, ops[1..]);
    }
  }

  /** The three tasks that `task_init` makes, each with descriptors 0, 1 and 2 on the first three
      entries, once `dev_init` has set their inodes: three links to one file, which is inode
      `tty`. */
  function Boot(inodes: seq<Inode>, tty: nat): Tables {
    Tables({0, 1, 2}, map task: nat, slot: nat | task < 3 && slot < 3 :: Fd(task, slot) := slot,
           seq(FILE_NR, (f: nat) => if f < 3 then File(3, tty, if f == 0 then O_RDONLY else O_WRONLY) else File(0, 0, 0)),
           inodes)
  }

  /** So it starts, whatever else refers to inodes. */
  lemma BootInv(inodes: seq<Inode>, tty: nat)
    requires |inodes| == INODE_NR && tty < INODE_NR && inodes[tty].use.OnDisk? && inodes[tty].count >= 3
    requires forall n | 0 <= n < INODE_NR :: !inodes[n].use.PipeEnds? && (inodes[n].use.Unused? <==> inodes[n].count == 0)
    ensures Inv(Boot(inodes, tty))
  {
    var s := Boot(inodes, tty);
    forall f | 0 <= f < FILE_NR ensures s.files[f].count == |Holders(s.fds, f)| {
      assert Holders(s.fds, f) == if f < 3 then {Fd(0, f), Fd(1, f), Fd(2, f)} else {};
    }
    forall n | 0 <= n < INODE_NR ensures InodeCounted(s.inodes[n], |Users(s.files, n)|) {
      assert Users(s.files, n) == if n == tty then {0, 1, 2} else {};
    }
  }
}
