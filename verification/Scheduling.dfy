/** The mutex under the scheduler there is: `task_search` and `schedule` (src/kernel/task.c), driven
    by the clock (src/kernel/clock.c). */
module Scheduling {
  import opened Mutexes
  import opened Outcomes

  /** What the table has of a task for the scheduler.  A task that is `away` sleeps somewhere other
      than at the mutex. */
  datatype Slot = Slot(ticks: nat, priority: nat, jiffies: nat, away: bool)

  /** `slots` is `task_table` as far as it is filled, with the idle task first; `lock.cpu` runs. */
  datatype Machine = Machine(lock: Lock, now: nat, slots: seq<Slot>) {
    predicate Sized() {
      |slots| == |lock.pcs| && lock.cpu < |slots|
    }

    /** In the state TASK_READY, or running. */
    predicate CanRun(i: nat)
      requires Sized()
    {
      i < |slots| && !lock.pcs[i].Asleep? && !slots[i].away
    }

    /** A round of the loop of `task_search`: whether task `i` replaces the one found so far. */
    function Round(i: nat, best: Option<nat>): (r: Option<nat>)
      requires Sized() && i < |slots| && (best.Some? ==> best.value < |slots|)
      ensures r.Some? ==> r.value < |slots|
    {
      if !CanRun(i) || i == lock.cpu then best
      else if best.None? || slots[best.value].ticks < slots[i].ticks || slots[i].jiffies < slots[best.value].jiffies
      then Some(i)
      else best
    }

    /** `task_search` for a ready task, from slot `i` on. */
    function Search(i: nat, best: Option<nat>): (r: Option<nat>)
      requires Sized() && i <= |slots| && (best.Some? ==> best.value < |slots|)
      requires best.Some? ==> CanRun(best.value) && best.value != lock.cpu
      ensures r.Some? ==> CanRun(r.value) && r.value != lock.cpu
      decreases |slots| - i
    {
      if i == |slots| then best else Search(i + 1, Round(i, best))
    }

    /** The task that `schedule` goes on with: the idle task when no other is found. */
    function Next(): (next: nat)
      requires Sized()
      ensures next < |slots|
    {
      match Search(0, None)
      case None => 0
      case Some(i) => i
    }

    /** `schedule` gives a task that has used up its ticks new ones. */
    function Refilled(): seq<Slot>
      requires Sized()
    {
      var slot := slots[lock.cpu];
      if slot.ticks == 0 then slots[lock.cpu := slot.(ticks := slot.priority)] else slots
    }
  }

  // ---------- Events ----------

  /** The running task goes on in the code of the lock, the clock interrupts, the running task goes
      to sleep elsewhere, or one that sleeps elsewhere is woken. */
  datatype Event = Acquires | Looks | Marks | Releases | Unlocks | Clock | Nap | Wake(task: nat)

  /** The machine as `schedule` finds it: `mutex_unlock` has woken the longest waiter, `task_sleep`
      has put the running task to sleep, the clock has counted. */
  function Before(m: Machine, e: Event): (n: Machine)
    requires m.Sized()
    ensures n.Sized() && n.lock.cpu == m.lock.cpu
    ensures n.lock.pcs == m.lock.pcs
      || (m.lock.waiters != [] && Longest(m.lock) < |m.slots| && n.lock.pcs == m.lock.pcs[Longest(m.lock) := Woken])
  {
    var i := m.lock.cpu;
    match e
    case Unlocks =>
      if m.lock.waiters == [] || Longest(m.lock) >= |m.slots| then m
      else m.(lock := m.lock.(pcs := m.lock.pcs[Longest(m.lock) := Woken]))
    case Clock =>
      var slot := m.slots[i];
      var left := if slot.ticks == 0 then 0xFFFF_FFFF else slot.ticks - 1;
      m.(now := m.now + 1, slots := m.slots[i := slot.(ticks := left, jiffies := m.now + 1)])
    case Nap => m.(slots := m.slots[i := m.slots[i].(away := true)])
    case Wake(j) => if j < |m.slots| then m.(slots := m.slots[j := m.slots[j].(away := false)]) else m
    case _ => m
  }

  /** Whether the event calls `schedule`. */
  predicate Schedules(m: Machine, e: Event)
    requires m.Sized()
  {
    match e
    case Looks => m.lock.value
    case Unlocks => m.lock.waiters != []
    case Clock => m.slots[m.lock.cpu].ticks == 1
    case Nap => true
    case _ => false
  }

  /** The step of the mutex that the event is, if it is one. */
  function AsStep(m: Machine, e: Event): Option<Step>
    requires m.Sized()
  {
    var i, next := m.lock.cpu, Before(m, e).Next();
    match e
    case Acquires => Some(Acquire(i))
    case Looks => Some(Look(i, next))
    case Marks => Some(Mark(i))
    case Releases => Some(Release(i))
    case Unlocks => Some(Unlock(i, next))
    case _ => if Schedules(m, e) && next != i then Some(Switch(i, next)) else None
  }

  /** Interrupts are off in a task that was woken at the mutex, and the idle task never sleeps. */
  predicate Allowed(m: Machine, e: Event)
    requires m.Sized()
  {
    && (e.Clock? ==> !m.lock.pcs[m.lock.cpu].Woken?)
    && (e.Nap? ==> m.lock.pcs[m.lock.cpu].Outside? && m.lock.cpu != 0)
    && (AsStep(m, e).Some? ==> Enabled(m.lock, AsStep(m, e).value) && Do(m.lock, AsStep(m, e).value).Done?)
  }

  function After(m: Machine, e: Event): (n: Machine)
    requires m.Sized() && Allowed(m, e)
  {
    var b := Before(m, e);
    var lock := if AsStep(m, e).Some? then Do(m.lock, AsStep(m, e).value).value else m.lock;
    Machine(lock, b.now, if Schedules(m, e) then b.Refilled() else b.slots)
  }

  ghost predicate Goes(m: Machine, events: seq<Event>)
    decreases |events|
  {
    m.Sized() && (events == [] || (Allowed(m, events[0]) && Goes(After(m, events[0]), events[1..])))
  }

  ghost function Gone(m: Machine, events: seq<Event>): (n: Machine)
    requires Goes(m, events)
    ensures n.Sized()
    decreases |events|
  {
    if events == [] then m else Gone(After(m, events[0]), events[1..])
  }

  /** The steps of the mutex among the events. */
  ghost function Steps(m: Machine, events: seq<Event>): seq<Step>
    requires Goes(m, events)
    decreases |events|
  {
    if events == [] then []
    else
      var rest := Steps(After(m, events[0]), events[1..]);
      if AsStep(m, events[0]).Some? then [AsStep(m, events[0]).value] + rest else rest
  }

  /** Under the scheduler there is, every run is a run of the mutex in which some ready task is
      picked: all that is proved of those holds. */
  lemma {:induction false} GoesRuns(m: Machine, events: seq<Event>)
    requires Goes(m, events)
    ensures Runs(m.lock, Steps(m, events)) && Run(m.lock, Steps(m, events)) == Gone(m, events).lock
    decreases |events|
  {
    hide AsStep, Allowed, Enabled, Do;
    if events == [] {
    } else {
      var s := AsStep(m, events[0]);
      var rest := Steps(After(m, events[0]), events[1..]);
      StepOf(m, events[0]);
      GoesRuns(After(m, events[0]), events[1..]);
      if s.Some? {
        assert ([s.value] + rest)[1..] == rest;
      }
    }
  }

  lemma StepOf(m: Machine, e: Event)
    requires m.Sized() && Allowed(m, e)
    ensures AsStep(m, e).Some? ==>
      Enabled(m.lock, AsStep(m, e).value) && Do(m.lock, AsStep(m, e).value) == Done(After(m, e).lock)
    ensures AsStep(m, e).None? ==> After(m, e).lock == m.lock
  {
    hide AsStep, Enabled, Do, Before;
  }

  // ---------- Whom task_search picks ----------

  /** Task `i` takes the place of `w` when the loop comes to it. */
  predicate Replaces(m: Machine, w: nat, i: nat)
    requires m.Sized() && w < |m.slots| && i < |m.slots|
  {
    m.CanRun(i) && i != m.lock.cpu && (m.slots[w].ticks < m.slots[i].ticks || m.slots[i].jiffies < m.slots[w].jiffies)
  }

  /** A task found is kept exactly when no later one replaces it: the loop never comes back. */
  lemma {:induction false} KeptIff(m: Machine, w: nat, i: nat)
    requires m.Sized() && w < i <= |m.slots| && m.CanRun(w) && w != m.lock.cpu
    ensures m.Search(i, Some(w)) == Some(w) <==> forall j | i <= j < |m.slots| :: !Replaces(m, w, j)
    decreases |m.slots| - i
  {
    if i == |m.slots| {
    } else if Replaces(m, w, i) {
      FoundLater(m, i + 1, i);
    } else {
      KeptIff(m, w, i + 1);
    }
  }

  /** The rule of `task_search`, exactly: with `best` found before it, task `w` is picked when it
      replaces that and no later task replaces it. */
  lemma PickedIff(m: Machine, w: nat, best: Option<nat>)
    requires m.Sized() && w < |m.slots|
    requires best.Some? ==> best.value < w && m.CanRun(best.value) && best.value != m.lock.cpu
    ensures m.Search(w, best) == Some(w) <==>
      && m.CanRun(w) && w != m.lock.cpu && (best.Some? ==> Replaces(m, best.value, w))
      && forall j | w < j < |m.slots| :: !Replaces(m, w, j)
  {
    if m.Round(w, best) == Some(w) {
      KeptIff(m, w, w + 1);
    } else if best.Some? {
      FoundLater(m, w + 1, best.value);
    } else {
      NotBefore(m, w + 1);
    }
  }

  lemma {:induction false} NotBefore(m: Machine, i: nat)
    requires m.Sized() && i <= |m.slots|
    ensures var r := m.Search(i, None); r.Some? ==> r.value >= i
    decreases |m.slots| - i
  {
    if i == |m.slots| {
    } else if m.Round(i, None).Some? {
      FoundLater(m, i + 1, i);
    } else {
      NotBefore(m, i + 1);
    }
  }

  lemma {:induction false} FoundLater(m: Machine, i: nat, best: nat)
    requires m.Sized() && best < i <= |m.slots| && m.CanRun(best) && best != m.lock.cpu
    ensures var r := m.Search(i, Some(best)); r == Some(best) || (r.Some? && r.value >= i)
    decreases |m.slots| - i
  {
    if i == |m.slots| {
    } else {
      FoundLater(m, i + 1, if m.Round(i, Some(best)) == Some(i) then i else best);
    }
  }

  /** The loop of `task_search` as it is run. */
  method TaskSearch(m: Machine) returns (task: Option<nat>)
    requires m.Sized()
    ensures task == m.Search(0, None)
  {
    task := None;
    var i := 0;
    while i < |m.slots|
      invariant 0 <= i <= |m.slots|
      invariant task.Some? ==> task.value < |m.slots| && m.CanRun(task.value) && task.value != m.lock.cpu
      invariant m.Search(0, None) == m.Search(i, task)
    {
      if !m.lock.pcs[i].Asleep? && !m.slots[i].away && i != m.lock.cpu {
        if task.None? || m.slots[task.value].ticks < m.slots[i].ticks || m.slots[i].jiffies < m.slots[task.value].jiffies {
          task := Some(i);
        }
      }
      i := i + 1;
    }
  }

  // ---------- Starving ----------

  lemma FourRounds(m: Machine)
    requires m.Sized() && |m.slots| == 4
    ensures m.Search(0, None) == m.Round(3, m.Round(2, m.Round(1, m.Round(0, None))))
  {
    var a := m.Round(0, None);
    var b := m.Round(1, a);
    var c := m.Round(2, b);
    var d := m.Round(3, c);
    assert m.Search(4, d) == d;
    assert m.Search(3, c) == m.Search(4, d);
    assert m.Search(2, b) == m.Search(3, c);
    assert m.Search(1, a) == m.Search(2, b);
  }

  /** The idle task, a task that waits for the mutex, the one that has it, and another.  The waiting
      task has more ticks left than the idle one and fewer than the other two. */
  ghost predicate Starving(m: Machine)
    ensures Starving(m) ==> m.Sized() && |m.slots| == 4
  {
    && m.lock == Lock(true, [1], Some(2), 1, [Outside, Asleep, Outside, Outside], 2)
    && |m.slots| == 4 && (forall i | 0 <= i < 4 :: !m.slots[i].away)
    && 0 < m.slots[0].ticks < m.slots[1].ticks < m.slots[2].ticks == m.slots[2].priority
    && m.slots[1].ticks < m.slots[3].ticks
  }

  /** The waiting task was woken and passed over: task 2 has the mutex again, task 3 is away. */
  function Overtaken(m: Machine): Machine
    requires |m.slots| == 4
  {
    var slots := m.slots[3 := m.slots[3].(away := true)];
    Machine(Lock(true, [], Some(2), 1, [Outside, Woken, Outside, Outside], 2), m.now, slots)
  }

  /** The machine before event `k` of the first six. */
  function Passing(m: Machine, k: nat): Machine
    requires |m.slots| == 4
  {
    var slots := m.slots[3 := m.slots[3].(away := true)];
    if k == 0 then m
    else if k == 1 then m.(lock := Lock(true, [1], None, 0, [Outside, Asleep, Leaving, Outside], 2))
    else if k == 2 then m.(lock := Lock(false, [], None, 0, [Outside, Woken, Outside, Outside], 3))
    else if k == 3 then Machine(Lock(false, [], None, 0, [Outside, Woken, Outside, Outside], 2), m.now, slots)
    else if k == 4 then Machine(Lock(false, [], None, 0, [Outside, Woken, Looking, Outside], 2), m.now, slots)
    else if k == 5 then Machine(Lock(true, [], None, 0, [Outside, Woken, Entered, Outside], 2), m.now, slots)
    else Overtaken(m)
  }

  ghost predicate Takes(a: Machine, e: Event, n: Machine) {
    a.Sized() && Allowed(a, e) && After(a, e) == n
  }

  const PASSES: seq<Event> := [Releases, Unlocks, Nap, Acquires, Looks, Marks]

  lemma PassCalls(m: Machine, k: nat)
    requires Starving(m) && (k == 0 || k == 3 || k == 4 || k == 5)
    ensures Takes(Passing(m, k), PASSES[k], Passing(m, k + 1))
  {
    hide Machine.Search;
    var a, n := Passing(m, k), Passing(m, k + 1);
    FourRounds(Before(a, PASSES[k]));
    assert After(a, PASSES[k]).lock.pcs == n.lock.pcs;
    assert After(a, PASSES[k]).slots == n.slots;
  }

  lemma PassPicks(m: Machine, k: nat)
    requires Starving(m) && (k == 1 || k == 2)
    ensures Takes(Passing(m, k), PASSES[k], Passing(m, k + 1))
  {
    hide Machine.Search;
    var a, n := Passing(m, k), Passing(m, k + 1);
    FourRounds(Before(a, PASSES[k]));
    assert After(a, PASSES[k]).lock.pcs == n.lock.pcs;
    assert After(a, PASSES[k]).slots == n.slots;
  }

  lemma PassOnce(m: Machine, k: nat)
    requires Starving(m) && k < 6
    ensures Takes(Passing(m, k), PASSES[k], Passing(m, k + 1))
  {
    hide Takes, Starving, Passing;
    if k == 0 || k == 3 || k == 4 || k == 5 {
      PassCalls(m, k);
    } else {
      PassPicks(m, k);
    }
  }

  lemma {:induction false} PassFrom(m: Machine, k: nat)
    requires Starving(m) && k <= 6
    ensures Goes(Passing(m, k), PASSES[k..]) && Gone(Passing(m, k), PASSES[k..]) == Overtaken(m)
    decreases 6 - k
  {
    hide Starving, Allowed, After;
    if k == 6 {
    } else {
      PassOnce(m, k);
      PassFrom(m, k + 1);
      assert PASSES[k..][1..] == PASSES[k + 1..];
    }
  }

  lemma {:induction false} GoesOn(m: Machine, a: seq<Event>, b: seq<Event>)
    requires Goes(m, a) && Goes(Gone(m, a), b)
    ensures Goes(m, a + b) && Gone(m, a + b) == Gone(Gone(m, a), b)
    decreases |a|
  {
    hide Allowed, After;
    if a == [] {
      assert a + b == b;
    } else {
      assert (a + b)[0] == a[0] && (a + b)[1..] == a[1..] + b;
      GoesOn(After(m, a[0]), a[1..], b);
    }
  }

  function Clocks(n: nat): seq<Event> {
    seq(n, _ => Clock)
  }

  /** Task 2 after `k` clock ticks, with `left` ticks left. */
  function Ticked(m: Machine, k: nat, left: nat): Machine
    requires |m.slots| == 4
  {
    var jiffies := if k == 0 then m.slots[2].jiffies else m.now + k;
    m.(now := m.now + k, slots := m.slots[2 := m.slots[2].(ticks := left, jiffies := jiffies)])
  }

  /** Task 2 runs with the mutex until its ticks are used up. */
  ghost predicate Running(m: Machine) {
    && m.lock == Lock(true, [], Some(2), 1, [Outside, Woken, Outside, Outside], 2)
    && |m.slots| == 4 && !m.slots[0].away && !m.slots[1].away && !m.slots[2].away && m.slots[3].away
    && m.slots[0].ticks < m.slots[1].ticks && 0 < m.slots[2].ticks && 0 < m.slots[2].priority
  }

  /** The clock switches from task 2 to the woken task, which is the only one beside the idle one. */
  function Switched(m: Machine): Machine
    requires |m.slots| == 4
  {
    var n := Ticked(m, m.slots[2].ticks, m.slots[2].priority);
    n.(lock := n.lock.(cpu := 1))
  }

  lemma ClockOnce(m: Machine)
    requires Running(m)
    ensures m.Sized() && Allowed(m, Clock)
    ensures After(m, Clock) == if m.slots[2].ticks == 1 then Switched(m) else Ticked(m, 1, m.slots[2].ticks - 1)
  {
    FourRounds(Before(m, Clock));
    if m.slots[2].ticks == 1 {
      assert After(m, Clock).slots == Switched(m).slots;
    }
  }

  lemma {:induction false} ClockFrom(m: Machine)
    requires Running(m)
    ensures Goes(m, Clocks(m.slots[2].ticks)) && Gone(m, Clocks(m.slots[2].ticks)) == Switched(m)
    decreases m.slots[2].ticks
  {
    hide Allowed, After;
    ClockOnce(m);
    var n := After(m, Clock);
    var left: nat := m.slots[2].ticks - 1;
    assert Clocks(left + 1)[0] == Clock && Clocks(left + 1)[1..] == Clocks(left);
    if left == 0 {
      assert n.Sized();
      assert Clocks(0) == [];
    } else {
      ClockFrom(n);
      assert Switched(n).slots == Switched(m).slots;
    }
  }

  /** The woken task looks, finds the mutex taken and sleeps again; task 3 comes back. */
  lemma SleepsAgain(m: Machine)
    requires Running(m) && m.slots[0].ticks < m.slots[2].priority
    ensures var n := Switched(m);
      && Goes(n, [Looks, Wake(3)])
      && var slots := n.slots[3 := n.slots[3].(away := false)];
      Gone(n, [Looks, Wake(3)]) == Machine(Lock(true, [1], Some(2), 1, [Outside, Asleep, Outside, Outside], 2), n.now, slots)
  {
    var n := Switched(m);
    FourRounds(Before(n, Looks));
    var a := Machine(Lock(true, [1], Some(2), 1, [Outside, Asleep, Outside, Outside], 2), n.now, n.slots);
    assert Allowed(n, Looks) && After(n, Looks).lock.pcs == a.lock.pcs && After(n, Looks) == a;
    var b := a.(slots := n.slots[3 := n.slots[3].(away := false)]);
    assert Allowed(a, Wake(3)) && After(a, Wake(3)) == b;
    assert [Looks, Wake(3)][1..] == [Wake(3)] && [Wake(3)][1..] == [];
    assert Goes(b, []) && Gone(b, []) == b;
    assert Goes(a, [Wake(3)]) && Gone(a, [Wake(3)]) == b;
  }

  function Cycle(ticks: nat): seq<Event> {
    PASSES + (Clocks(ticks) + [Looks, Wake(3)])
  }

  function Cycles(ticks: nat, n: nat): seq<Event> {
    if n == 0 then [] else Cycle(ticks) + Cycles(ticks, n - 1)
  }

  /** Once round: the waiting task has been woken, has run, and waits again as before. */
  lemma StarvesOnce(m: Machine)
    requires Starving(m)
    ensures Goes(m, Cycle(m.slots[2].ticks))
    ensures var n := Gone(m, Cycle(m.slots[2].ticks));
      Starving(n) && n.slots[1] == m.slots[1] && n.slots[2].ticks == m.slots[2].ticks && n.now == m.now + m.slots[2].ticks
  {
    hide Goes, Gone;
    var ticks, o := m.slots[2].ticks, Overtaken(m);
    PassFrom(m, 0);
    assert PASSES[0..] == PASSES;
    ClockFrom(o);
    SleepsAgain(o);
    GoesOn(o, Clocks(ticks), [Looks, Wake(3)]);
    GoesOn(m, PASSES, Clocks(ticks) + [Looks, Wake(3)]);
  }

  /** The scheduler there is starves the task that `mutex_unlock` wakes: each time two others with
      more ticks left are picked before it, for ever and however much time goes by. */
  lemma {:induction false} Starves(m: Machine, n: nat)
    requires Starving(m)
    ensures var ticks := m.slots[2].ticks;
      && Goes(m, Cycles(ticks, n)) && Starving(Gone(m, Cycles(ticks, n)))
      && Gone(m, Cycles(ticks, n)).now == m.now + n * ticks
    decreases n
  {
    hide Cycle, Starving, Allowed, After;
    if n == 0 {
    } else {
      StarvesOnce(m);
      var ticks := m.slots[2].ticks;
      Starves(Gone(m, Cycle(ticks)), n - 1);
      GoesOn(m, Cycle(ticks), Cycles(ticks, n - 1));
    }
  }

  // ---------- How it comes about ----------

  /** Nobody is at the mutex; task 3 sleeps elsewhere, and task 2 runs. */
  ghost predicate Quiet(m: Machine)
    ensures Quiet(m) ==> |m.slots| == 4
  {
    && m.lock == Fresh(4).(cpu := 2) && |m.slots| == 4
    && !m.slots[0].away && !m.slots[1].away && !m.slots[2].away && m.slots[3].away
    && 1 == m.slots[0].ticks == m.slots[0].priority < m.slots[1].ticks < m.slots[2].ticks == m.slots[2].priority
    && m.slots[1].ticks < m.slots[3].ticks
  }

  /** Task 2 takes the mutex and sleeps elsewhere, task 1 comes to wait for it, the idle task runs,
      and both others come back. */
  const COMES: seq<Event> := [Acquires, Looks, Marks, Nap, Acquires, Looks, Wake(2), Clock, Wake(3)]

  /** The machine before event `k` of these. */
  function Coming(m: Machine, k: nat): Machine
    requires |m.slots| == 4
  {
    var gone := m.slots[2 := m.slots[2].(away := true)];
    var ticked := m.slots[0 := m.slots[0].(jiffies := m.now + 1)];
    var back := ticked[3 := m.slots[3].(away := false)];
    if k == 0 then m
    else if k == 1 then m.(lock := Lock(false, [], None, 0, [Outside, Outside, Looking, Outside], 2))
    else if k == 2 then m.(lock := Lock(true, [], None, 0, [Outside, Outside, Entered, Outside], 2))
    else if k == 3 then m.(lock := Lock(true, [], Some(2), 1, [Outside, Outside, Outside, Outside], 2))
    else if k == 4 then Machine(Lock(true, [], Some(2), 1, [Outside, Outside, Outside, Outside], 1), m.now, gone)
    else if k == 5 then Machine(Lock(true, [], Some(2), 1, [Outside, Looking, Outside, Outside], 1), m.now, gone)
    else if k == 6 then Machine(Lock(true, [1], Some(2), 1, [Outside, Asleep, Outside, Outside], 0), m.now, gone)
    else if k == 7 then Machine(Lock(true, [1], Some(2), 1, [Outside, Asleep, Outside, Outside], 0), m.now, m.slots)
    else if k == 8 then Machine(Lock(true, [1], Some(2), 1, [Outside, Asleep, Outside, Outside], 2), m.now + 1, ticked)
    else Machine(Lock(true, [1], Some(2), 1, [Outside, Asleep, Outside, Outside], 2), m.now + 1, back)
  }

  lemma ComesCalls(m: Machine, k: nat)
    requires Quiet(m) && (k == 0 || k == 1 || k == 2 || k == 4)
    ensures Takes(Coming(m, k), COMES[k], Coming(m, k + 1))
  {
    hide Machine.Search;
    var a, n := Coming(m, k), Coming(m, k + 1);
    FourRounds(Before(a, COMES[k]));
    assert After(a, COMES[k]).lock.pcs == n.lock.pcs;
    assert After(a, COMES[k]).slots == n.slots;
  }

  lemma ComesSleeps(m: Machine, k: nat)
    requires Quiet(m) && (k == 3 || k == 5)
    ensures Takes(Coming(m, k), COMES[k], Coming(m, k + 1))
  {
    hide Machine.Search;
    var a, n := Coming(m, k), Coming(m, k + 1);
    FourRounds(Before(a, COMES[k]));
    assert After(a, COMES[k]).lock.pcs == n.lock.pcs;
    assert After(a, COMES[k]).slots == n.slots;
  }

  lemma ComesBack(m: Machine, k: nat)
    requires Quiet(m) && (k == 6 || k == 7 || k == 8)
    ensures Takes(Coming(m, k), COMES[k], Coming(m, k + 1))
  {
    hide Machine.Search;
    var a, n := Coming(m, k), Coming(m, k + 1);
    FourRounds(Before(a, COMES[k]));
    assert After(a, COMES[k]).lock.pcs == n.lock.pcs;
    assert After(a, COMES[k]).slots == n.slots;
  }

  lemma ComesOnce(m: Machine, k: nat)
    requires Quiet(m) && k < 9
    ensures Takes(Coming(m, k), COMES[k], Coming(m, k + 1))
  {
    hide Takes, Quiet, Coming;
    if k == 0 || k == 1 || k == 2 || k == 4 {
      ComesCalls(m, k);
    } else if k == 3 || k == 5 {
      ComesSleeps(m, k);
    } else {
      ComesBack(m, k);
    }
  }

  lemma {:induction false} ComesFrom(m: Machine, k: nat)
    requires Quiet(m) && k <= 9
    ensures Goes(Coming(m, k), COMES[k..]) && Gone(Coming(m, k), COMES[k..]) == Coming(m, 9)
    decreases 9 - k
  {
    hide Quiet, Allowed, After;
    if k == 9 {
    } else {
      ComesOnce(m, k);
      ComesFrom(m, k + 1);
      assert COMES[k..][1..] == COMES[k + 1..];
    }
  }

  /** So it can start with nobody at the mutex. */
  lemma ComesAbout(m: Machine)
    requires Quiet(m)
    ensures Goes(m, COMES) && Starving(Gone(m, COMES))
  {
    hide Goes, Gone;
    ComesFrom(m, 0);
    assert COMES[0..] == COMES;
  }
}
