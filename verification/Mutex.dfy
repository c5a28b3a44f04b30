/** The mutex and the re-entrant lock of src/kernel/mutex.c, used by any number of tasks on one
    processor.  A step below runs with interrupts off; between steps the timer may switch. */
module Mutexes {
  import opened Outcomes

  /** Where a task is: outside the lock's code, about to look at the mutex for the first time,
      asleep among the waiters, woken and about to look again, past the mutex but not yet marked
      as holder, or no longer marked as holder but not yet past the mutex. */
  datatype Pc = Outside | Looking | Asleep | Woken | Entered | Leaving

  /** `waiters` has the head of the list first; `cpu` is the task that runs. */
  datatype Lock = Lock(value: bool, waiters: seq<nat>, holder: Option<nat>, repeat: nat, pcs: seq<Pc>, cpu: nat)

  /** `next` is the task that `schedule` picks where a step gives the processor away. */
  datatype Step =
    | Acquire(task: nat)
    | Look(task: nat, next: nat)
    | Mark(task: nat)
    | Release(task: nat)
    | Unlock(task: nat, next: nat)
    | Switch(task: nat, next: nat)

  /** A task other than `i` that is not asleep: what `task_search` picks when `i` calls it. */
  predicate Ready(l: Lock, i: nat, next: nat) {
    next < |l.pcs| && next != i && !l.pcs[next].Asleep?
  }

  /** The task that `mutex_unlock` wakes: the one that has waited longest. */
  function Longest(l: Lock): nat
    requires l.waiters != []
  {
    l.waiters[|l.waiters| - 1]
  }

  /** A woken task comes back inside `mutex_lock` with interrupts off, so no switch comes between
      that and its look. */
  predicate Enabled(l: Lock, s: Step) {
    && s.task < |l.pcs| && l.cpu == s.task
    && match s
       case Acquire(i) => l.pcs[i].Outside?
       case Look(i, next) => (l.pcs[i].Looking? || l.pcs[i].Woken?) && (l.value ==> Ready(l, i, next))
       case Mark(i) => l.pcs[i].Entered?
       case Release(i) => l.pcs[i].Outside?
       case Unlock(i, next) => l.pcs[i].Leaving? && (l.waiters != [] ==> next == Longest(l) || Ready(l, i, next))
       case Switch(i, next) => !l.pcs[i].Woken? && Ready(l, i, next)
  }

  /** One step; it halts where an assertion fails. */
  function Do(l: Lock, s: Step): Outcome<Lock>
    requires Enabled(l, s)
  {
    match s
    case Acquire(i) =>
      if l.holder != Some(i) then Done(l.(pcs := l.pcs[i := Looking])) else Done(l.(repeat := l.repeat + 1))
    case Look(i, next) =>
      if l.value then Done(l.(waiters := [i] + l.waiters, pcs := l.pcs[i := Asleep], cpu := next))
      else Done(l.(value := true, pcs := l.pcs[i := Entered]))
    case Mark(i) =>
      if l.repeat != 0 then Halt(Rejected)
      else Done(l.(holder := Some(i), repeat := 1, pcs := l.pcs[i := Outside]))
    case Release(i) =>
      if l.holder != Some(i) then Halt(Rejected)
      else if l.repeat > 1 then Done(l.(repeat := l.repeat - 1))
      else if l.repeat != 1 then Halt(Rejected)
      else Done(l.(holder := None, repeat := 0, pcs := l.pcs[i := Leaving]))
    case Unlock(i, next) =>
      if !l.value then Halt(Rejected)
      else if l.waiters == [] then Done(l.(value := false, pcs := l.pcs[i := Outside]))
      else if Longest(l) >= |l.pcs| then Halt(Rejected)
      else
        var pcs := l.pcs[i := Outside][Longest(l) := Woken];
        Done(l.(value := false, waiters := l.waiters[..|l.waiters| - 1], pcs := pcs, cpu := next))
    case Switch(_, next) => Done(l.(cpu := next))
  }

  /** Past `mutex_lock` and not yet past `mutex_unlock`. */
  predicate Inside(l: Lock, i: nat) {
    i < |l.pcs| && (l.holder == Some(i) || l.pcs[i].Entered? || l.pcs[i].Leaving?)
  }

  ghost predicate AtMostOne(l: Lock) {
    forall i: nat, j: nat | Inside(l, i) && Inside(l, j) :: i == j
  }

  predicate Marked(l: Lock) {
    && (l.holder.Some? ==> l.holder.value < |l.pcs| && l.pcs[l.holder.value].Outside? && l.repeat > 0)
    && (l.holder.None? ==> l.repeat == 0)
  }

  ghost predicate Waiters(l: Lock) {
    && (forall i, j | 0 <= i < j < |l.waiters| :: l.waiters[i] != l.waiters[j])
    && (forall i: nat :: i in l.waiters <==> i < |l.pcs| && l.pcs[i].Asleep?)
  }

  /** Task `i` is awake and will look at the mutex. */
  predicate WillLook(l: Lock, i: nat) {
    i < |l.pcs| && (l.pcs[i].Looking? || l.pcs[i].Woken?)
  }

  ghost predicate Inv(l: Lock) {
    && Marked(l) && AtMostOne(l) && Waiters(l)
    && l.cpu < |l.pcs| && !l.pcs[l.cpu].Asleep?
    && (l.value <==> exists i: nat :: Inside(l, i))
    && (!l.value && l.waiters != [] ==> exists i: nat :: WillLook(l, i))
  }

  /** Only a release by a task that does not hold the lock fails an assertion. */
  lemma StepInv(l: Lock, s: Step)
    requires Inv(l) && Enabled(l, s)
    ensures Do(l, s).Halt? <==> s.Release? && l.holder != Some(s.task)
    ensures Do(l, s).Done? ==> Inv(Do(l, s).value)
  {
    hide Waiters, Marked;
    DoesNotHalt(l, s);
    if Do(l, s).Done? {
      var m, i := Do(l, s).value, s.task;
      StepInside(l, s);
      StepWaiters(l, s);
      StepCpu(l, s);
      match s {
        case Look(_, _) =>
          assert !l.value ==> Inside(m, i);
          assert l.value ==> forall j: nat :: Inside(l, j) ==> Inside(m, j);
        case Mark(_) =>
          assert Inside(m, i);
        case Release(_) =>
          assert Inside(m, i);
        case Unlock(_, _) =>
          assert Inside(l, i);
          assert l.waiters != [] ==> WillLook(m, Longest(l));
        case _ =>
          assert forall j: nat :: Inside(m, j) <==> Inside(l, j);
      }
      assert forall j: nat | (j != i || s.Switch?) && WillLook(l, j) :: WillLook(m, j);
    }
  }

  lemma DoesNotHalt(l: Lock, s: Step)
    requires Inv(l) && Enabled(l, s)
    ensures Do(l, s).Halt? <==> s.Release? && l.holder != Some(s.task)
  {
    match s {
      case Mark(i) =>
        if l.holder.Some? {
          assert Inside(l, i) && Inside(l, l.holder.value);
        }
      case Unlock(i, _) =>
        assert Inside(l, i);
        assert forall k | 0 <= k < |l.waiters| :: l.waiters[k] in l.waiters;
      case _ =>
    }
  }

  lemma StepCpu(l: Lock, s: Step)
    requires Inv(l) && Enabled(l, s) && Do(l, s).Done?
    ensures var m := Do(l, s).value; |m.pcs| == |l.pcs| && m.cpu < |m.pcs| && !m.pcs[m.cpu].Asleep?
  {
    hide AtMostOne;
    WaitersAsleep(l);
  }

  lemma StepMarked(l: Lock, s: Step)
    requires Inv(l) && Enabled(l, s) && Do(l, s).Done?
    ensures Marked(Do(l, s).value)
  {
    WaitersAsleep(l);
    hide Waiters;
  }

  /** How a step changes who is inside. */
  lemma StepInside(l: Lock, s: Step)
    requires Inv(l) && Enabled(l, s) && Do(l, s).Done?
    ensures var m := Do(l, s).value;
      && Marked(m) && AtMostOne(m)
      && (forall j: nat | j != s.task :: Inside(m, j) <==> Inside(l, j))
      && (Inside(m, s.task) <==> if s.Look? then !l.value else if s.Unlock? then false else Inside(l, s.task))
  {
    hide Waiters, AtMostOne;
    StepMarked(l, s);
    var m, i := Do(l, s).value, s.task;
    WaitersAsleep(l);
    assert forall j: nat | j != i :: Inside(m, j) <==> Inside(l, j);
    StepAlone(l, m, i, s.Look? && !l.value);
  }

  /** Only a task that finds nobody inside comes in. */
  lemma StepAlone(l: Lock, m: Lock, i: nat, enters: bool)
    requires AtMostOne(l) && (forall j: nat | j != i :: Inside(m, j) <==> Inside(l, j))
    requires enters ==> forall j: nat :: !Inside(l, j)
    requires !enters ==> (Inside(m, i) ==> Inside(l, i))
    ensures AtMostOne(m)
  {
    hide Inside;
  }

  lemma WaitersAsleep(l: Lock)
    requires Waiters(l)
    ensures forall k | 0 <= k < |l.waiters| :: l.waiters[k] < |l.pcs| && l.pcs[l.waiters[k]].Asleep?
  {
    assert forall k | 0 <= k < |l.waiters| :: l.waiters[k] in l.waiters;
  }

  lemma StepWaiters(l: Lock, s: Step)
    requires Waiters(l) && Enabled(l, s) && Do(l, s).Done?
    ensures Waiters(Do(l, s).value)
  {
    match s {
      case Look(i, _) =>
        assert forall k: nat :: k in [i] + l.waiters <==> k == i || k in l.waiters;
        assert l.value ==> i !in l.waiters;
      case Unlock(_, _) =>
        if l.waiters != [] {
          var n := |l.waiters| - 1;
          assert l.waiters == l.waiters[..n] + [l.waiters[n]];
          assert forall k: nat :: k in l.waiters <==> k in l.waiters[..n] || k == l.waiters[n];
        }
      case _ =>
    }
  }

  /** Before anybody used the lock, with task 0 running. */
  function Fresh(tasks: nat): Lock {
    Lock(false, [], None, 0, seq(tasks, _ => Outside), 0)
  }

  lemma FreshInv(tasks: nat)
    requires tasks > 0
    ensures Inv(Fresh(tasks))
  {
  }

  // ---------- Runs ----------

  ghost predicate Runs(l: Lock, steps: seq<Step>)
    decreases |steps|
  {
    steps == [] || (Enabled(l, steps[0]) && Do(l, steps[0]).Done? && Runs(Do(l, steps[0]).value, steps[1..]))
  }

  ghost function Run(l: Lock, steps: seq<Step>): Lock
    requires Runs(l, steps)
    decreases |steps|
  {
    if steps == [] then l else Run(Do(l, steps[0]).value, steps[1..])
  }

  /** How many calls of `lock_acquire` by task `i` are complete and not yet matched by a call of
      `lock_release`, counted on the calls alone: `d` of them before step `s`.  The call of a task
      that has such calls is complete at once, another when it passes the mark. */
  function NextDepth(d: nat, s: Step, i: nat): nat {
    if s.task != i then d
    else match s
      case Acquire(_) => if d > 0 then d + 1 else d
      case Mark(_) => d + 1
      case Release(_) => if d > 0 then d - 1 else d
      case _ => d
  }

  function DepthFrom(d: nat, steps: seq<Step>, i: nat): nat
    decreases |steps|
  {
    if steps == [] then d else DepthFrom(NextDepth(d, steps[0], i), steps[1..], i)
  }

  function Depth(steps: seq<Step>, i: nat): nat {
    DepthFrom(0, steps, i)
  }

  /** What the lock itself keeps of it. */
  function Level(l: Lock, i: nat): nat {
    if l.holder == Some(i) then l.repeat else 0
  }

  lemma StepDepth(l: Lock, s: Step, i: nat)
    requires Inv(l) && Enabled(l, s) && Do(l, s).Done?
    ensures NextDepth(Level(l, i), s, i) == Level(Do(l, s).value, i)
  {
    hide Waiters, AtMostOne;
  }

  lemma {:induction false} RunDepth(l: Lock, steps: seq<Step>, i: nat)
    requires Inv(l) && Runs(l, steps)
    ensures DepthFrom(Level(l, i), steps, i) == Level(Run(l, steps), i)
    decreases |steps|
  {
    hide Inv, Do, Enabled;
    if steps == [] {
    } else {
      StepInv(l, steps[0]);
      StepDepth(l, steps[0], i);
      RunDepth(Do(l, steps[0]).value, steps[1..], i);
    }
  }

  /** For any number of tasks and any interleaving: at most one task is inside, and when the mutex
      is free while tasks wait, some task that is awake will look at it (`Inv`).  The lock's count
      is the holder's nesting depth as counted on its calls, the task with such calls is the
      holder, and the only assertion that can fail is that of a release by a task without them. */
  lemma {:induction false} RunInv(tasks: nat, steps: seq<Step>)
    requires tasks > 0 && Runs(Fresh(tasks), steps)
    ensures var l := Run(Fresh(tasks), steps);
      && Inv(l)
      && (forall i: nat :: Depth(steps, i) == if l.holder == Some(i) then l.repeat else 0)
      && (forall i: nat :: Depth(steps, i) > 0 <==> l.holder == Some(i))
      && (forall s | Enabled(l, s) :: Do(l, s).Halt? <==> s.Release? && Depth(steps, s.task) == 0)
  {
    FreshInv(tasks);
    RunKeeps(Fresh(tasks), steps);
    var l := Run(Fresh(tasks), steps);
    forall i: nat ensures Depth(steps, i) == Level(l, i) {
      RunDepth(Fresh(tasks), steps, i);
    }
    forall s | Enabled(l, s) ensures Do(l, s).Halt? <==> s.Release? && Depth(steps, s.task) == 0 {
      StepInv(l, s);
    }
  }

  lemma {:induction false} RunKeeps(l: Lock, steps: seq<Step>)
    requires Inv(l) && Runs(l, steps)
    ensures Inv(Run(l, steps))
    decreases |steps|
  {
    hide Inv, Do, Enabled;
    if steps == [] {
    } else {
      StepInv(l, steps[0]);
      RunKeeps(Do(l, steps[0]).value, steps[1..]);
    }
  }

  /** The lock does not stay shut: if any task waits and nobody is inside, some task is awake that
      will enter as soon as it runs. */
  lemma FreeLockIsTaken(l: Lock)
    requires Inv(l) && (forall i: nat :: !Inside(l, i)) && exists i: nat :: i < |l.pcs| && (l.pcs[i].Asleep? || WillLook(l, i))
    ensures exists i: nat :: WillLook(l, i) && Enabled(l.(cpu := i), Look(i, i)) && Inside(Do(l.(cpu := i), Look(i, i)).value, i)
  {
    var i: nat :| i < |l.pcs| && (l.pcs[i].Asleep? || WillLook(l, i));
    if l.pcs[i].Asleep? {
      assert i in l.waiters;
    }
    var j: nat :| WillLook(l, j);
    WillEnter(l, j);
  }

  lemma WillEnter(l: Lock, j: nat)
    requires WillLook(l, j) && !l.value
    ensures Enabled(l.(cpu := j), Look(j, j)) && Inside(Do(l.(cpu := j), Look(j, j)).value, j)
  {
  }

  // ---------- When a woken task gets the mutex ----------

  /** If `schedule` picks the task that `mutex_unlock` has woken, that task is the next to do
      anything, and it enters. */
  lemma PickedEnters(l: Lock, s: Step, t: Step)
    requires Inv(l) && s.Unlock? && l.waiters != [] && s.next == Longest(l) && Enabled(l, s)
    ensures Do(l, s).Done?
    ensures var m := Do(l, s).value; Enabled(m, t) ==>
      t.Look? && t.task == Longest(l) && Inside(Do(m, t).value, Longest(l))
  {
    DoesNotHalt(l, s);
    WaitersAsleep(l);
    hide AtMostOne, Waiters;
  }

  /** With two tasks it must. */
  lemma TwoTasksPick(l: Lock, s: Step)
    requires Inv(l) && s.Unlock? && l.waiters != [] && Enabled(l, s) && |l.pcs| == 2
    ensures s.next == Longest(l)
  {
    WaitersAsleep(l);
    hide AtMostOne, Waiters;
  }

  /** Who came in during a run, less who went out. */
  ghost function Net(l: Lock, steps: seq<Step>): int
    requires Runs(l, steps)
    decreases |steps|
  {
    if steps == [] then 0
    else
      var s := steps[0];
      (if s.Look? && !l.value then 1 else if s.Unlock? then -1 else 0) + Net(Do(l, s).value, steps[1..])
  }

  lemma {:induction false} RunNet(l: Lock, steps: seq<Step>)
    requires Runs(l, steps)
    ensures (if Run(l, steps).value then 1 else 0) == (if l.value then 1 else 0) + Net(l, steps)
    decreases |steps|
  {
    if steps == [] {
    } else {
      RunNet(Do(l, steps[0]).value, steps[1..]);
    }
  }

  /** A woken task stays woken until it looks. */
  lemma {:induction false} StaysWoken(l: Lock, steps: seq<Step>, t: nat)
    requires Inv(l) && Runs(l, steps) && t < |l.pcs| && l.pcs[t].Woken?
    requires forall i | 0 <= i < |steps| :: !steps[i].Look? || steps[i].task != t
    ensures t < |Run(l, steps).pcs| && Run(l, steps).pcs[t].Woken?
    decreases |steps|
  {
    hide Inv, Do, Enabled;
    if steps == [] {
    } else {
      StepInv(l, steps[0]);
      WokenStep(l, steps[0], t);
      StaysWoken(Do(l, steps[0]).value, steps[1..], t);
    }
  }

  lemma WokenStep(l: Lock, s: Step, t: nat)
    requires Inv(l) && Enabled(l, s) && Do(l, s).Done? && t < |l.pcs| && l.pcs[t].Woken?
    requires !s.Look? || s.task != t
    ensures var m := Do(l, s).value; t < |m.pcs| && m.pcs[t].Woken?
  {
    WaitersAsleep(l);
    hide AtMostOne, Waiters;
  }

  /** After any run in which a woken task has not looked yet, to look is the only thing it can do,
      and it enters exactly when all who entered since have left again: if nobody entered, above
      all. */
  lemma WokenEntersIff(l: Lock, steps: seq<Step>, t: nat, s: Step)
    requires Inv(l) && !l.value && t < |l.pcs| && l.pcs[t].Woken? && Runs(l, steps)
    requires forall i | 0 <= i < |steps| :: !steps[i].Look? || steps[i].task != t
    requires Enabled(Run(l, steps), s) && s.task == t
    ensures s.Look? && Do(Run(l, steps), s).Done?
    ensures Inside(Do(Run(l, steps), s).value, t) <==> Net(l, steps) == 0
    ensures Net(l, steps) == 0 || Net(l, steps) == 1
  {
    RunNet(l, steps);
    RunKeeps(l, steps);
    StaysWoken(l, steps, t);
    hide Runs, Run, Net, Waiters, AtMostOne, Marked;
    StepInv(Run(l, steps), s);
    StepInside(Run(l, steps), s);
  }

  /** If nobody entered since, it enters. */
  lemma {:induction false} NobodyEntered(l: Lock, steps: seq<Step>)
    requires Inv(l) && !l.value && Runs(l, steps) && forall i | 0 <= i < |steps| :: !steps[i].Look?
    ensures Net(l, steps) == 0
    decreases |steps|
  {
    if steps == [] {
    } else {
      var s := steps[0];
      if s.Unlock? {
        assert Inside(l, s.task);
      }
      StepInv(l, s);
      NobodyEntered(Do(l, s).value, steps[1..]);
    }
  }

  // ---------- No fairness among three ----------

  /** Task 0 holds the lock, task 1 waits, task 2 has nothing to do with it. */
  function Contended(): Lock {
    Lock(true, [1], Some(0), 1, [Outside, Asleep, Outside], 0)
  }

  /** Task 0 lets go, which wakes task 1 and yields, to task 2.  Task 0 is switched back to before
      task 1 and takes the lock again. */
  function Overtake(): seq<Step> {
    [Release(0), Unlock(0, 2), Switch(2, 0), Acquire(0), Look(0, 0), Mark(0), Switch(0, 1), Look(1, 0)]
  }

  ghost function Overtakes(n: nat): seq<Step> {
    if n == 0 then [] else Overtake() + Overtakes(n - 1)
  }

  lemma {:induction false} RunAppend(l: Lock, a: seq<Step>, b: seq<Step>)
    requires Runs(l, a) && Runs(Run(l, a), b)
    ensures Runs(l, a + b) && Run(l, a + b) == Run(Run(l, a), b)
    decreases |a|
  {
    hide Do, Enabled;
    if a == [] {
      assert a + b == b;
    } else {
      assert (a + b)[0] == a[0] && (a + b)[1..] == a[1..] + b;
      RunAppend(Do(l, a[0]).value, a[1..], b);
    }
  }

  /** The lock before step `k` of it. */
  function Overtaking(k: nat): Lock {
    if k == 1 then Lock(true, [1], None, 0, [Leaving, Asleep, Outside], 0)
    else if k == 2 then Lock(false, [], None, 0, [Outside, Woken, Outside], 2)
    else if k == 3 then Lock(false, [], None, 0, [Outside, Woken, Outside], 0)
    else if k == 4 then Lock(false, [], None, 0, [Looking, Woken, Outside], 0)
    else if k == 5 then Lock(true, [], None, 0, [Entered, Woken, Outside], 0)
    else if k == 6 then Lock(true, [], Some(0), 1, [Outside, Woken, Outside], 0)
    else if k == 7 then Lock(true, [], Some(0), 1, [Outside, Woken, Outside], 1)
    else Contended()
  }

  lemma OvertakeStep(k: nat)
    requires k < 8
    ensures Enabled(Overtaking(k), Overtake()[k]) && Do(Overtaking(k), Overtake()[k]) == Done(Overtaking(k + 1))
  {
    var l, m := Overtaking(k), Overtaking(k + 1);
    if k == 1 {
      assert l.pcs[0 := Outside][1 := Woken] == m.pcs;
    } else if k == 2 || k == 6 {
      assert l.pcs == m.pcs;
    } else if k == 7 {
      assert [1] + l.waiters == m.waiters && l.pcs[1 := Asleep] == m.pcs;
    } else {
      assert m.pcs == l.pcs[0 := m.pcs[0]];
    }
  }

  lemma {:induction false} OvertakeFrom(k: nat)
    requires k <= 8
    ensures Runs(Overtaking(k), Overtake()[k..]) && Run(Overtaking(k), Overtake()[k..]) == Contended()
    decreases 8 - k
  {
    hide Do, Enabled;
    if k == 8 {
    } else {
      OvertakeStep(k);
      OvertakeFrom(k + 1);
      assert Overtake()[k..][1..] == Overtake()[k + 1..];
    }
  }

  lemma OvertakeOnce()
    ensures Runs(Contended(), Overtake()) && Run(Contended(), Overtake()) == Contended()
  {
    hide Runs, Run;
    OvertakeFrom(0);
    assert Overtake()[0..] == Overtake();
  }

  /** The yield in `mutex_unlock` saves the woken task only if `schedule` picks it.  With a third
      task to pick, a waiting task can be overtaken any number of times. */
  lemma {:induction false} CanStarve(n: nat)
    ensures Runs(Contended(), Overtakes(n)) && Run(Contended(), Overtakes(n)) == Contended()
  {
    hide Overtake, Contended, Do, Enabled, Runs, Run;
    if n == 0 {
      EmptyRun(Contended());
    } else {
      OvertakeOnce();
      CanStarve(n - 1);
      RunAppend(Contended(), Overtake(), Overtakes(n - 1));
    }
  }

  lemma EmptyRun(l: Lock)
    ensures Runs(l, []) && Run(l, []) == l
  {
  }

  // ---------- The lock as it is run ----------

  /** A lock; where the tasks are that use it is known to the proof only. */
  class KernelLock {
    var value: bool
    var waiters: seq<nat>
    var holder: Option<nat>
    var repeat: nat
    ghost var pcs: seq<Pc>
    ghost var cpu: nat

    ghost function State(): Lock
      reads this
    {
      Lock(value, waiters, holder, repeat, pcs, cpu)
    }

    constructor (ghost tasks: nat)
      requires tasks > 0
      ensures State() == Fresh(tasks) && Inv(State())
    {
      FreshInv(tasks);
      value, waiters, holder, repeat := false, [], None, 0;
      pcs := seq(tasks, _ => Outside);
      cpu := 0;
    }

    /** `lock_acquire` up to the call of `mutex_lock`; `owned` when there is none. */
    method AcquireLock(task: nat) returns (owned: bool)
      requires Inv(State()) && Enabled(State(), Acquire(task))
      modifies this
      ensures Inv(State()) && Done(State()) == Do(old(State()), Acquire(task))
      ensures owned <==> old(Inside(State(), task))
    {
      StepInv(State(), Acquire(task));
      owned := holder == Some(task);
      if !owned {
        pcs := pcs[task := Looking];
      } else {
        repeat := repeat + 1;
      }
    }

    /** One round of the loop of `mutex_lock`. */
    method LookAtMutex(task: nat, ghost next: nat) returns (entered: bool)
      requires Inv(State()) && Enabled(State(), Look(task, next))
      modifies this
      ensures Inv(State()) && Done(State()) == Do(old(State()), Look(task, next))
      ensures entered <==> Inside(State(), task)
    {
      StepInv(State(), Look(task, next));
      StepInside(State(), Look(task, next));
      entered := !value;
      if value {
        waiters := [task] + waiters;
        pcs := pcs[task := Asleep];
        cpu := next;
      } else {
        value := true;
        pcs := pcs[task := Entered];
      }
    }

    /** `lock_acquire` after `mutex_lock`. */
    method MarkHolder(task: nat)
      requires Inv(State()) && Enabled(State(), Mark(task))
      modifies this
      ensures Inv(State()) && Done(State()) == Do(old(State()), Mark(task))
    {
      StepInv(State(), Mark(task));
      assert repeat == 0;
      holder, repeat := Some(task), 1;
      pcs := pcs[task := Outside];
    }

    /** `lock_release` by the holder, up to the call of `mutex_unlock`; `kept` when there is none. */
    method ReleaseLock(task: nat) returns (kept: bool)
      requires Inv(State()) && Enabled(State(), Release(task)) && holder == Some(task)
      modifies this
      ensures Inv(State()) && Done(State()) == Do(old(State()), Release(task))
      ensures kept <==> holder == Some(task)
    {
      StepInv(State(), Release(task));
      kept := repeat > 1;
      if kept {
        repeat := repeat - 1;
      } else {
        assert repeat == 1;
        holder, repeat := None, 0;
        pcs := pcs[task := Leaving];
      }
    }

    /** `mutex_unlock`: the task that has waited longest is woken, and another task runs. */
    method UnlockMutex(task: nat, ghost next: nat) returns (woken: Option<nat>)
      requires Inv(State()) && Enabled(State(), Unlock(task, next))
      modifies this
      ensures Inv(State()) && Done(State()) == Do(old(State()), Unlock(task, next))
      ensures woken == if old(waiters) == [] then None else Some(old(waiters[|waiters| - 1]))
      ensures woken.Some? ==> cpu != task
    {
      StepInv(State(), Unlock(task, next));
      WaitersAsleep(State());
      assert value;
      value := false;
      woken := None;
      pcs := pcs[task := Outside];
      if waiters != [] {
        var t := waiters[|waiters| - 1];
        waiters := waiters[..|waiters| - 1];
        pcs := pcs[t := Woken];
        cpu := next;
        woken := Some(t);
      }
    }
  }
}
