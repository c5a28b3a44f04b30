/** The process tree (src/kernel/task.c): fork, exit and waitpid over a table of tasks.  Code
    between two blocking points runs with interrupts off, so each operation is one step. */
module Tasks {
  import opened Outcomes

  const TASK_NR: nat := 64

  datatype State = Ready | Running | Blocked | Sleeping | Waiting | Died

  datatype Task = Task(ppid: nat, state: State, status: int, waitpid: int)

  type Table = seq<Option<Task>>

  predicate Present(t: Table, i: nat) {
    i < |t| && t[i].Some?
  }

  function SetState(t: Table, i: nat, state: State): Table
    requires Present(t, i)
  {
    t[i := Some(t[i].value.(state := state))]
  }

  // ---------- The loops ----------

  /** The search of `get_free_task`, from slot `i` on. */
  function FreeSlot(t: Table, i: nat): (r: Option<nat>)
    requires i <= |t|
    ensures r.Some? ==> i <= r.value < |t| && t[r.value].None?
    ensures r.None? ==> forall k | i <= k < |t| :: t[k].Some?
    decreases |t| - i
  {
    if i == |t| then None else if t[i].None? then Some(i) else FreeSlot(t, i + 1)
  }

  /** The loop of `task_exit` that gives the children of `from` to `to`, from slot `i` on. */
  function Reparent(t: Table, i: nat, from: nat, to: nat): (r: Table)
    requires i <= |t|
    ensures |r| == |t|
    decreases |t| - i
  {
    if i == |t| then t
    else Reparent(if t[i].Some? && t[i].value.ppid == from then t[i := Some(t[i].value.(ppid := to))] else t, i + 1, from, to)
  }

  lemma {:induction false} ReparentAt(t: Table, i: nat, from: nat, to: nat, k: nat)
    requires i <= |t| && k < |t|
    ensures Reparent(t, i, from, to)[k] ==
      if i <= k && t[k].Some? && t[k].value.ppid == from then Some(t[k].value.(ppid := to)) else t[k]
    decreases |t| - i
  {
    if i >= |t| {
    } else {
      var u := if t[i].Some? && t[i].value.ppid == from then t[i := Some(t[i].value.(ppid := to))] else t;
      ReparentAt(u, i + 1, from, to, k);
    }
  }

  /** Is task `c` a child that `p`, waiting for `pid`, is interested in? */
  predicate Matches(t: Table, p: nat, pid: int, c: nat) {
    2 <= c && Present(t, c) && t[c].value.ppid == p && (pid == c || pid == -1)
  }

  /** What a look through the table for children tells `task_waitpid`. */
  datatype Scan = Corpse(slot: nat) | Alive | Childless

  function Look(t: Table, p: nat, pid: int, i: nat, hasChild: bool): (r: Scan)
    requires 2 <= i <= |t|
    ensures r.Corpse? ==> Present(t, r.slot)
    decreases |t| - i
  {
    if i == |t| then (if hasChild then Alive else Childless)
    else if !Matches(t, p, pid, i) then Look(t, p, pid, i + 1, hasChild)
    else if t[i].value.state.Died? then Corpse(i)
    else Look(t, p, pid, i + 1, true)
  }

  lemma {:induction false} LookFinds(t: Table, p: nat, pid: int, i: nat, hasChild: bool)
    requires 2 <= i <= |t|
    ensures var r := Look(t, p, pid, i, hasChild);
      && (r.Corpse? ==> i <= r.slot && Matches(t, p, pid, r.slot) && t[r.slot].value.state.Died?)
      && (!r.Corpse? ==> forall c: nat | i <= c && Matches(t, p, pid, c) :: !t[c].value.state.Died?)
      && (r.Alive? ==> hasChild || exists c: nat :: i <= c && Matches(t, p, pid, c))
      && (r.Childless? ==> !hasChild && forall c: nat | i <= c :: !Matches(t, p, pid, c))
    decreases |t| - i
  {
    if i >= |t| {
    } else {
      LookFinds(t, p, pid, i + 1, hasChild || Matches(t, p, pid, i));
    }
  }

  // ---------- Operations ----------

  /** `task_fork` by task `p`: the child's number and the new table.  None is the panic of
      `get_free_task`. */
  datatype Forked = Forked(t: Table, child: nat)

  function Fork(t: Table, p: nat): Option<Forked>
    requires Present(t, p)
  {
    match FreeSlot(t, 0)
    case None => None
    case Some(c) => Some(Forked(t[c := Some(t[p].value.(ppid := p, state := Ready))], c))
  }

  /** `task_exit` by task `p`, up to the switch to another task.  It halts when `task_tell_father`
      finds no parent, or when the parent's slot is empty. */
  function Exit(t: Table, p: nat, status: int): Outcome<Table>
    requires Present(t, p) && 2 <= |t|
  {
    var pp := t[p].value.ppid;
    var dead := t[p := Some(t[p].value.(state := Died, status := status))];
    if pp != 0 && !Present(dead, pp) then Halt(Rejected)
    else
      var given := Reparent(dead, 2, p, pp);
      if !Present(given, pp) then Halt(Rejected)
      else
        var parent := given[pp].value;
        Done(if parent.state.Waiting? && (parent.waitpid == -1 || parent.waitpid == p)
             then given[pp := Some(parent.(state := Ready, status := 0))] else given)
  }

  datatype Waited = Reaped(t: Table, child: nat, status: int) | Blocks(t: Table) | NoChild

  /** One round of the loop of `task_waitpid`. */
  function WaitPid(t: Table, p: nat, pid: int): Waited
    requires Present(t, p) && 2 <= |t|
  {
    match Look(t, p, pid, 2, false)
    case Corpse(c) => Reaped(t[c := None], c, t[c].value.status)
    case Alive => Blocks(t[p := Some(t[p].value.(state := Waiting, waitpid := pid))])
    case Childless => NoChild
  }

  /** The task `schedule` may switch to: a ready one other than the current, or, when there is
      none, task 0 (idle). */
  predicate MayRun(t: Table, current: nat, next: nat) {
    if next != current && Present(t, next) && t[next].value.state.Ready? then true
    else next == 0 && forall i: nat | i < |t| && i != current && Present(t, i) :: !t[i].value.state.Ready?
  }

  datatype Machine = Machine(t: Table, current: nat)

  function Schedule(t: Table, current: nat, next: nat): Machine
    requires Present(t, current) && Present(t, next)
  {
    var yielded := if t[current].value.state.Running? then SetState(t, current, Ready) else t;
    Machine(SetState(yielded, next, Running), next)
  }

  // ---------- The invariant ----------

  /** Every task but idle comes after its parent in `rank`. */
  ghost predicate Ranked(t: Table, rank: seq<nat>) {
    && |rank| == |t|
    && forall i: nat | 1 <= i && Present(t, i) :: t[i].value.ppid < |t| && rank[t[i].value.ppid] < rank[i]
  }

  /** Idle and init have their slots for good, and idle always can run. */
  predicate Roots(t: Table) {
    && |t| == TASK_NR && t[0].Some? && t[1].Some? && t[0].value.ppid == 0 && t[1].value.ppid == 0
    && (t[0].value.state.Ready? || t[0].value.state.Running?)
  }

  /** Parents are there, and alive. */
  ghost predicate LivingParents(t: Table) {
    forall i: nat | 2 <= i && Present(t, i) ::
      Present(t, t[i].value.ppid) && !t[t[i].value.ppid].value.state.Died?
  }

  /** A task in `waitpid` waits for a child that is alive, and for none that is dead. */
  ghost predicate WaitsWell(t: Table, w: nat)
    requires Present(t, w)
  {
    t[w].value.state.Waiting? ==>
      && (exists c: nat :: Matches(t, w, t[w].value.waitpid, c))
      && (forall c: nat | Matches(t, w, t[w].value.waitpid, c) :: !t[c].value.state.Died?)
  }

  ghost predicate Tree(t: Table) {
    && Roots(t) && LivingParents(t)
    && (exists rank :: Ranked(t, rank))
    && (forall w: nat | Present(t, w) :: WaitsWell(t, w))
  }

  ghost predicate Inv(m: Machine) {
    && Tree(m.t) && Present(m.t, m.current)
    && forall i: nat | Present(m.t, i) :: m.t[i].value.state.Running? <==> i == m.current
  }

  // ---------- Ancestors ----------

  ghost function Ancestor(t: Table, i: nat, n: nat): nat
    decreases n
  {
    if n == 0 then i else if Present(t, i) then Ancestor(t, t[i].value.ppid, n - 1) else i
  }

  /** Going from parent to parent ends at idle, and on the way no task comes twice. */
  lemma ParentsReachIdle(t: Table, i: nat)
    requires Tree(t) && Present(t, i)
    ensures exists n: nat :: Ancestor(t, i, n) == 0
    ensures i != 0 ==> forall n: nat | n > 0 :: Ancestor(t, i, n) != i
  {
    var rank :| Ranked(t, rank);
    Climb(t, rank, i);
    if i != 0 {
      forall n: nat | n > 0 ensures Ancestor(t, i, n) != i {
        Lower(t, rank, i, n);
      }
    }
  }

  lemma {:induction false} Climb(t: Table, rank: seq<nat>, i: nat)
    requires Roots(t) && LivingParents(t) && Ranked(t, rank) && Present(t, i)
    ensures exists n: nat :: Ancestor(t, i, n) == 0
    decreases rank[i]
  {
    if i == 0 {
      assert Ancestor(t, i, 0) == 0;
    } else {
      var p := t[i].value.ppid;
      Climb(t, rank, p);
      var n: nat :| Ancestor(t, p, n) == 0;
      assert Ancestor(t, i, n + 1) == 0;
    }
  }

  lemma {:induction false} Lower(t: Table, rank: seq<nat>, i: nat, n: nat)
    requires Roots(t) && LivingParents(t) && Ranked(t, rank) && Present(t, i) && i != 0 && n > 0
    ensures var a := Ancestor(t, i, n); Present(t, a) && (a == 0 || rank[a] < rank[i])
    ensures Ancestor(t, i, n) != i
    decreases n
  {
    var p := t[i].value.ppid;
    assert Present(t, p);
    if p == 0 {
      AtIdle(t, n - 1);
    } else if n > 1 {
      Lower(t, rank, p, n - 1);
    }
  }

  lemma {:induction false} AtIdle(t: Table, n: nat)
    requires Roots(t)
    ensures Ancestor(t, 0, n) == 0
  {
    if n == 0 {
    } else {
      AtIdle(t, n - 1);
    }
  }

  // ---------- Each operation keeps the tree ----------

  /** Putting a task to sleep or waking it, other than in `waitpid`. */
  lemma SetStateTree(t: Table, i: nat, state: State)
    requires Tree(t) && Present(t, i) && !t[i].value.state.Died?
    requires state.Ready? || state.Running? || (i != 0 && (state.Blocked? || state.Sleeping?))
    ensures Tree(SetState(t, i, state))
  {
    var u := SetState(t, i, state);
    var rank :| Ranked(t, rank);
    assert Ranked(u, rank);
    assert forall p: nat, pid: int, c: nat :: Matches(t, p, pid, c) <==> Matches(u, p, pid, c);
    forall w: nat | Present(u, w) ensures WaitsWell(u, w) {
      assert WaitsWell(t, w);
    }
  }

  lemma ForkTree(t: Table, p: nat)
    requires Tree(t) && Present(t, p) && t[p].value.state.Running? && Fork(t, p).Some?
    ensures var f := Fork(t, p).value;
      && Tree(f.t) && f.child >= 2 && !Present(t, f.child) && Present(f.t, f.child)
      && f.t[f.child].value.ppid == p && f.t[f.child].value.state.Ready?
      && (forall k: nat | k < |t| && k != f.child :: f.t[k] == t[k])
  {
    var f := Fork(t, p).value;
    var c, u := f.child, f.t;
    var rank :| Ranked(t, rank);
    assert Ranked(u, rank[c := rank[p] + 1]) by {
      forall i: nat | 1 <= i && Present(u, i)
        ensures u[i].value.ppid < |u| && rank[c := rank[p] + 1][u[i].value.ppid] < rank[c := rank[p] + 1][i]
      {
        assert i != c ==> Present(t, i) && Present(t, t[i].value.ppid);
      }
    }
    forall w: nat | Present(u, w) ensures WaitsWell(u, w) {
      if w != c {
        assert WaitsWell(t, w);
        assert forall pid: int, k: nat | Matches(t, w, pid, k) :: Matches(u, w, pid, k) && k != c;
        assert forall pid: int, k: nat | Matches(u, w, pid, k) && k != c :: Matches(t, w, pid, k);
        assert w == p ==> !t[w].value.state.Waiting?;
      }
    }
  }

  /** What the exit of task `p`, whose parent is `pp`, makes of task `k`. */
  function AfterExit(task: Task, k: nat, p: nat, pp: nat, status: int): Task {
    var given := if 2 <= k && task.ppid == p then task.(ppid := pp) else task;
    if k == p then given.(state := Died, status := status)
    else if k == pp && task.state.Waiting? && (task.waitpid == -1 || task.waitpid == p) then given.(state := Ready, status := 0)
    else given
  }

  lemma ExitAt(t: Table, p: nat, status: int)
    requires Tree(t) && Present(t, p) && p != 0
    ensures var pp, e := t[p].value.ppid, Exit(t, p, status);
      && p != pp && Present(t, pp) && !t[pp].value.state.Died?
      && e.Done? && |e.value| == |t|
      && (forall k: nat | k < |t| :: e.value[k] == if t[k].None? then None else Some(AfterExit(t[k].value, k, p, pp, status)))
  {
    hide WaitsWell;
    var rank :| Ranked(t, rank);
    var pp := t[p].value.ppid;
    assert Present(t, pp) && rank[pp] < rank[p];
    var dead := t[p := Some(t[p].value.(state := Died, status := status))];
    forall k: nat | k < |t| ensures Reparent(dead, 2, p, pp)[k] ==
      if 2 <= k && dead[k].Some? && dead[k].value.ppid == p then Some(dead[k].value.(ppid := pp)) else dead[k]
    {
      ReparentAt(dead, 2, p, pp, k);
    }
  }

  /** Neither panic nor null parent in `task_exit`, and a parent that waits for the task that
      exits is woken while every other waiting task still waits for a live child. */
  lemma ExitTree(t: Table, p: nat, status: int)
    requires Tree(t) && Present(t, p) && p != 0
    ensures Exit(t, p, status).Done? && Tree(Exit(t, p, status).value)
  {
    hide Exit;
    ExitAt(t, p, status);
    var u, pp := Exit(t, p, status).value, t[p].value.ppid;
    var rank :| Ranked(t, rank);
    assert Ranked(u, rank) by {
      forall i: nat | 1 <= i && Present(u, i) ensures u[i].value.ppid < |u| && rank[u[i].value.ppid] < rank[i] {
        assert Present(t, i) && Present(t, p);
      }
    }
    assert LivingParents(u) by {
      forall i: nat | 2 <= i && Present(u, i)
        ensures Present(u, u[i].value.ppid) && !u[u[i].value.ppid].value.state.Died?
      {
        assert Present(t, i);
      }
    }
    forall w: nat | Present(u, w) ensures WaitsWell(u, w) {
      assert Present(t, w) && WaitsWell(t, w);
      if u[w].value.state.Waiting? {
        ExitWaits(t, p, status, u, w);
      }
    }
  }

  lemma ExitWaits(t: Table, p: nat, status: int, u: Table, w: nat)
    requires Tree(t) && Present(t, p) && p != 0 && Present(t, w) && Exit(t, p, status) == Done(u)
    requires Present(u, w) && u[w].value.state.Waiting?
    ensures WaitsWell(u, w)
  {
    hide Exit, LivingParents;
    ExitAt(t, p, status);
    var pp, pid := t[p].value.ppid, t[w].value.waitpid;
    assert WaitsWell(t, w) && t[w].value.state.Waiting? && w != p;
    assert w == pp ==> pid != -1 && pid != p;
    var c: nat :| Matches(t, w, pid, c);
    assert c != p && Matches(u, w, pid, c);
    forall k: nat | Matches(u, w, pid, k) ensures !u[k].value.state.Died? {
      if w == pp {
        assert k == pid && k == c;
      } else {
        assert Matches(t, w, pid, k) && k != p;
      }
    }
  }

  lemma ReapTree(t: Table, c: nat)
    requires Tree(t) && Present(t, c) && 2 <= c && t[c].value.state.Died?
    ensures Tree(t[c := None])
  {
    var u: Table := t[c := None];
    var rank :| Ranked(t, rank);
    assert Ranked(u, rank);
    assert forall i: nat | 2 <= i && Present(t, i) :: t[i].value.ppid != c;
    forall w: nat | Present(u, w) ensures WaitsWell(u, w) {
      assert WaitsWell(t, w);
      assert forall q: int, k: nat :: Matches(u, w, q, k) <==> Matches(t, w, q, k) && k != c;
      if u[w].value.state.Waiting? {
        var k: nat :| Matches(t, w, t[w].value.waitpid, k);
        assert Matches(u, w, t[w].value.waitpid, k);
      }
    }
  }

  lemma WaitTree(t: Table, p: nat, pid: int)
    requires Tree(t) && Present(t, p) && p != 0 && !t[p].value.state.Died?
    requires exists c: nat :: Matches(t, p, pid, c)
    requires forall c: nat | Matches(t, p, pid, c) :: !t[c].value.state.Died?
    ensures Tree(t[p := Some(t[p].value.(state := Waiting, waitpid := pid))])
  {
    var u := t[p := Some(t[p].value.(state := Waiting, waitpid := pid))];
    var rank :| Ranked(t, rank);
    assert Ranked(u, rank);
    assert forall w: nat, q: int, k: nat :: Matches(u, w, q, k) <==> Matches(t, w, q, k);
    forall w: nat | Present(u, w) ensures WaitsWell(u, w) {
      assert w != p ==> WaitsWell(t, w);
    }
  }

  /** `task_waitpid` takes a dead child with its status if there is one, waits if there is only a
      live one, and returns -1 exactly when there is none. */
  lemma WaitPidTree(t: Table, p: nat, pid: int)
    requires Tree(t) && Present(t, p) && p != 0 && t[p].value.state.Running?
    ensures match WaitPid(t, p, pid)
      case Reaped(u, c, status) =>
        && Tree(u) && u == t[c := None] && c != p && Matches(t, p, pid, c)
        && t[c].value.state.Died? && t[c].value.status == status
      case Blocks(u) =>
        && Tree(u) && u == t[p := Some(t[p].value.(state := Waiting, waitpid := pid))]
      case NoChild => forall c: nat :: !Matches(t, p, pid, c)
  {
    hide Look, Tree;
    LookFinds(t, p, pid, 2, false);
    match WaitPid(t, p, pid) {
      case Reaped(u, c, status) => ReapTree(t, c);
      case Blocks(u) => WaitTree(t, p, pid);
      case NoChild =>
    }
  }

  // ---------- Which way each operation ends ----------

  /** A fork finds a slot exactly when one is empty, takes the lowest, and puts the copy of its caller
      there; the machine panics otherwise. */
  lemma ForkServed(t: Table, p: nat)
    requires Present(t, p)
    ensures Fork(t, p).Some? <==> exists k :: 0 <= k < |t| && t[k].None?
    ensures Fork(t, p).Some? ==>
      var f := Fork(t, p).value;
      && (forall k | 0 <= k < f.child :: t[k].Some?)
      && f.child < |t| && f.t == t[f.child := Some(t[p].value.(ppid := p, state := Ready))]
  {
    LowestSlot(t, 0);
  }

  lemma {:induction false} LowestSlot(t: Table, i: nat)
    requires i <= |t|
    ensures FreeSlot(t, i).Some? ==> forall k | i <= k < FreeSlot(t, i).value :: t[k].Some?
    decreases |t| - i
  {
    if i == |t| {
    } else {
      LowestSlot(t, i + 1);
    }
  }

  /** `waitpid` collects exactly when some matching child is dead, the one in the lowest slot; it blocks
      exactly when there are matching children and none is dead. */
  lemma WaitPidExact(t: Table, p: nat, pid: int)
    requires Present(t, p) && 2 <= |t|
    ensures var w := WaitPid(t, p, pid);
      && (w.Reaped? <==> exists c: nat :: Matches(t, p, pid, c) && t[c].value.state.Died?)
      && (w.Reaped? ==> forall c: nat | Matches(t, p, pid, c) && t[c].value.state.Died? :: w.child <= c)
      && (w.NoChild? <==> forall c: nat :: !Matches(t, p, pid, c))
  {
    LookFinds(t, p, pid, 2, false);
    if Look(t, p, pid, 2, false).Corpse? {
      LowestCorpse(t, p, pid, 2, false);
    }
  }

  lemma {:induction false} LowestCorpse(t: Table, p: nat, pid: int, i: nat, hasChild: bool)
    requires 2 <= i <= |t| && Look(t, p, pid, i, hasChild).Corpse?
    ensures forall c: nat | i <= c && Matches(t, p, pid, c) && t[c].value.state.Died? :: Look(t, p, pid, i, hasChild).slot <= c
    decreases |t| - i
  {
    if i == |t| {
    } else if !(Matches(t, p, pid, i) && t[i].value.state.Died?) {
      LowestCorpse(t, p, pid, i + 1, hasChild || Matches(t, p, pid, i));
    }
  }

  // ---------- Runs ----------

  /** What the running task does.  `next` is the task switched to, where there is a switch. */
  datatype Op =
    | DoFork
    | DoExit(status: int, next: nat)
    | DoWait(pid: int, next: nat)
    | DoBlock(asleep: bool, next: nat)
    | DoWake(who: nat)
    | DoYield(next: nat)

  datatype Event = Silent | Exited(pid: nat, status: int) | Collected(parent: nat, pid: nat, status: int)

  datatype Result = Result(m: Machine, event: Event)

  /** None when the operation cannot happen: idle makes no system call, and a fork with a full
      table stops the machine. */
  function Step(m: Machine, op: Op): Option<Result>
    requires Present(m.t, m.current) && 2 <= |m.t|
  {
    var t, p := m.t, m.current;
    match op
    case DoFork =>
      if p == 0 || Fork(t, p).None? then None else Some(Result(Machine(Fork(t, p).value.t, p), Silent))
    case DoExit(status, next) =>
      if p == 0 || Exit(t, p, status).Halt? then None
      else Switch(Exit(t, p, status).value, p, next, Exited(p, status))
    case DoWait(pid, next) =>
      if p == 0 then None
      else
        (match WaitPid(t, p, pid)
         case Reaped(u, c, status) => Some(Result(Machine(u, p), Collected(p, c, status)))
         case Blocks(u) => Switch(u, p, next, Silent)
         case NoChild => Some(Result(m, Silent)))
    case DoBlock(asleep, next) =>
      if p == 0 then None else Switch(SetState(t, p, if asleep then Sleeping else Blocked), p, next, Silent)
    case DoWake(q) =>
      if !Present(t, q) || t[q].value.state.Died? || t[q].value.state.Running? then None
      else Some(Result(Machine(SetState(t, q, Ready), p), Silent))
    case DoYield(next) => Switch(t, p, next, Silent)
  }

  function Switch(t: Table, p: nat, next: nat, event: Event): Option<Result> {
    if Present(t, p) && Present(t, next) && MayRun(t, p, next) then Some(Result(Schedule(t, p, next), event)) else None
  }

  /** Nobody but the task that gives up the processor is marked as running. */
  ghost predicate NobodyElse(t: Table, p: nat) {
    forall i: nat | Present(t, i) && i != p :: !t[i].value.state.Running?
  }

  lemma SwitchInv(t: Table, p: nat, next: nat, event: Event)
    requires Tree(t) && NobodyElse(t, p) && Switch(t, p, next, event).Some?
    ensures Inv(Switch(t, p, next, event).value.m)
  {
    hide LivingParents, WaitsWell, Ranked;
    if t[p].value.state.Running? {
      SetStateTree(t, p, Ready);
      SetStateTree(SetState(t, p, Ready), next, Running);
    } else {
      SetStateTree(t, next, Running);
    }
  }

  lemma StepInv(m: Machine, op: Op)
    requires Inv(m) && Step(m, op).Some?
    ensures Inv(Step(m, op).value.m)
  {
    hide LivingParents, WaitsWell, Ranked, Exit, Fork, WaitPid, Switch, AfterExit;
    var t, p := m.t, m.current;
    assert Tree(t);
    match op {
      case DoFork =>
        ForkTree(t, p);
        ForkRunning(m);
      case DoExit(status, next) =>
        ExitTree(t, p, status);
        ExitRunning(m, status);
        SwitchInv(Exit(t, p, status).value, p, next, Exited(p, status));
      case DoWait(pid, next) =>
        WaitPidTree(t, p, pid);
        if WaitPid(t, p, pid).Blocks? {
          SwitchInv(WaitPid(t, p, pid).t, p, next, Silent);
        }
      case DoBlock(asleep, next) =>
        var state := if asleep then Sleeping else Blocked;
        SetStateTree(t, p, state);
        SwitchInv(SetState(t, p, state), p, next, Silent);
      case DoWake(q) => SetStateTree(t, q, Ready);
      case DoYield(next) => SwitchInv(t, p, next, Silent);
    }
  }

  lemma ForkRunning(m: Machine)
    requires Inv(m) && m.current != 0 && Fork(m.t, m.current).Some?
    ensures Inv(Machine(Fork(m.t, m.current).value.t, m.current))
  {
    hide Tree;
    ForkTree(m.t, m.current);
  }

  lemma ExitRunning(m: Machine, status: int)
    requires Inv(m) && m.current != 0 && Exit(m.t, m.current, status).Done?
    ensures NobodyElse(Exit(m.t, m.current, status).value, m.current)
  {
    hide Exit, Tree;
    ExitAt(m.t, m.current, status);
  }

  /** The exit status a dead task left, if the last thing that happened to its number was the
      exit. */
  function Pending(log: seq<Event>, pid: nat): Option<int> {
    if log == [] then None
    else
      var e := log[|log| - 1];
      if e.Exited? && e.pid == pid then Some(e.status)
      else if e.Collected? && e.pid == pid then None
      else Pending(log[..|log| - 1], pid)
  }

  /** Exactly the dead tasks are the ones whose exit has not been collected. */
  ghost predicate Accounts(t: Table, log: seq<Event>) {
    forall pid: nat | 2 <= pid ::
      Pending(log, pid) == if Present(t, pid) && t[pid].value.state.Died? then Some(t[pid].value.status) else None
  }

  /** The event is the first exit since the last collection, or collects a pending exit with its
      own status. */
  predicate Follows(log: seq<Event>, e: Event) {
    match e
    case Silent => true
    case Exited(pid, _) => pid < 2 || Pending(log, pid).None?
    case Collected(_, pid, status) => 2 <= pid && Pending(log, pid) == Some(status)
  }

  /** What is pending for a task after one more event. */
  ghost function After(log: seq<Event>, e: Event, pid: nat): Option<int> {
    if e.Exited? && e.pid == pid then Some(e.status)
    else if e.Collected? && e.pid == pid then None
    else Pending(log, pid)
  }

  lemma StepAccounts(m: Machine, op: Op, log: seq<Event>)
    requires Inv(m) && Step(m, op).Some? && Accounts(m.t, log)
    ensures var r := Step(m, op).value; Follows(log, r.event) && Accounts(r.m.t, log + [r.event])
  {
    hide LivingParents, WaitsWell, Ranked, Exit, Fork, WaitPid, Pending;
    var t, p := m.t, m.current;
    assert Tree(t);
    var r := Step(m, op).value;
    forall pid: nat ensures Pending(log + [r.event], pid) == After(log, r.event, pid) {
      PendingAppend(log, r.event, pid);
    }
    match op {
      case DoFork => ForkDead(t, p);
      case DoExit(status, next) => ExitAt(t, p, status);
      case DoWait(pid, next) => WaitPidTree(t, p, pid);
      case DoBlock(asleep, next) =>
      case DoWake(q) =>
      case DoYield(next) =>
    }
  }

  lemma PendingAppend(log: seq<Event>, e: Event, pid: nat)
    ensures Pending(log + [e], pid) == After(log, e, pid)
  {
    assert (log + [e])[..|log|] == log;
  }

  lemma ForkDead(t: Table, p: nat)
    requires Present(t, p) && Fork(t, p).Some?
    ensures var f := Fork(t, p).value;
      && f.child < |t| && t[f.child].None? && |f.t| == |t|
      && f.t == t[f.child := Some(t[p].value.(ppid := p, state := Ready))]
  {
  }

  datatype Run = Run(m: Machine, log: seq<Event>)

  /** The task that runs is in the table. */
  predicate Shape(m: Machine) {
    Present(m.t, m.current) && 2 <= |m.t|
  }

  /** The operations one after the other; None when one of them cannot happen. */
  function Exec(r: Run, ops: seq<Op>): Option<Run>
    decreases |ops|
  {
    if ops == [] then Some(r)
    else if !Shape(r.m) then None
    else
      match Step(r.m, ops[0])
      case None => None
      case Some(s) => Exec(Run(s.m, r.log + [s.event]), ops[1..])
  }

  lemma MachineShape(m: Machine)
    requires Inv(m)
    ensures Shape(m)
  {
  }

  ghost predicate Orderly(log: seq<Event>) {
    forall k | 0 <= k < |log| :: Follows(log[..k], log[k])
  }

  /** Over any run the tree stays a tree, every dead child is collected at most once and with its
      own status, and the dead tasks are exactly those not yet collected. */
  lemma {:induction false} RunTree(r: Run, ops: seq<Op>)
    requires Inv(r.m) && Accounts(r.m.t, r.log) && Orderly(r.log) && Exec(r, ops).Some?
    ensures var f := Exec(r, ops).value; Inv(f.m) && Accounts(f.m.t, f.log) && Orderly(f.log)
    decreases |ops|
  {
    hide Inv, Accounts, Follows, Step;
    if ops == [] {
    } else {
      MachineShape(r.m);
      StepInv(r.m, ops[0]);
      StepAccounts(r.m, ops[0], r.log);
      var s := Step(r.m, ops[0]).value;
      var log := r.log + [s.event];
      forall k | 0 <= k < |log| ensures Follows(log[..k], log[k]) {
        assert log[..k] == r.log[..k];
        assert r.log[..|r.log|] == r.log;
      }
      RunTree(Run(s.m, log), ops[1..]);
    }
  }

  /** After `task_init` and the first switch: idle, init and test, whose parent field is zero. */
  function Boot(first: nat): (m: Machine)
    requires first < 3
  {
    Machine(seq(TASK_NR, i => if i < 3 then Some(Task(0, if i == first then Running else Ready, 0, 0)) else None), first)
  }

  lemma BootInv(first: nat)
    requires first < 3
    ensures Inv(Boot(first)) && Accounts(Boot(first).t, []) && Orderly([])
  {
    var t := Boot(first).t;
    assert Ranked(t, seq(TASK_NR, i => i));
  }
}
