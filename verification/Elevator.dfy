/** Block device requests (src/kernel/device.c): a list of requests sorted by sector, served up
    and down in turn like the floors of an elevator, at most one at a time. */
module Elevators {
  import opened Outcomes
  import opened Unsigned


  /** `blocked` says that the requesting task still waits for its turn. */
  datatype Request = Request(id: nat, idx: Word32, blocked: bool) {
    /** The list compares the sector number as a signed `int`. */
    function Key(): int {
      if idx < 0x8000_0000 then idx else idx - 0x1_0000_0000
    }
  }

  datatype Device = Device(queue: seq<Request>, up: bool)

  // ---------- Operations ----------

  /** Where `list_insert_sort` puts a key: before the first greater one. */
  function Place(queue: seq<Request>, key: int): (i: nat)
    ensures i <= |queue|
    ensures forall k | 0 <= k < i :: queue[k].Key() <= key
    ensures i < |queue| ==> key < queue[i].Key()
  {
    if queue == [] || queue[0].Key() > key then 0 else 1 + Place(queue[1..], key)
  }

  /** The first half of `device_request`: into the list, and to wait unless the list was empty. */
  function Arrive(d: Device, id: nat, idx: Word32): Device {
    var r := Request(id, idx, d.queue != []);
    var i := Place(d.queue, r.Key());
    d.(queue := d.queue[..i] + [r] + d.queue[i..])
  }

  datatype Turn = Turn(up: bool, next: Option<nat>)

  /** `request_nextreq` for the request at place `i`: the direction turns at either end. */
  function NextReq(d: Device, i: nat): (turn: Turn)
    requires i < |d.queue|
    ensures turn.next.Some? ==> turn.next.value < |d.queue| && (turn.next.value == i + 1 || turn.next.value + 1 == i)
  {
    var up := if d.up && i == |d.queue| - 1 then false else if !d.up && i == 0 then true else d.up;
    Turn(up, if up then (if i + 1 < |d.queue| then Some(i + 1) else None) else (if i > 0 then Some(i - 1) else None))
  }

  function Wake(r: Request): Request {
    r.(blocked := false)
  }

  /** The second half of `device_request`, for the request at place `i`: the next request is
      chosen, this one leaves the list, and the next one's task is woken. */
  function Finish(d: Device, i: nat): Device
    requires i < |d.queue|
  {
    var turn := NextReq(d, i);
    var queue := match turn.next
      case None => d.queue
      case Some(n) => d.queue[n := Wake(d.queue[n])];
    Device(queue[..i] + queue[i + 1..], turn.up)
  }

  // ---------- The invariant ----------

  ghost predicate Sorted(queue: seq<Request>) {
    forall i, j | 0 <= i < j < |queue| :: queue[i].Key() <= queue[j].Key()
  }

  /** The request at `i` is being served and every other one waits. */
  ghost predicate Serving(queue: seq<Request>, i: nat) {
    i < |queue| && forall k | 0 <= k < |queue| :: queue[k].blocked <==> k != i
  }

  ghost predicate Apart(queue: seq<Request>) {
    forall i, j | 0 <= i < j < |queue| :: queue[i].id != queue[j].id
  }

  ghost predicate Inv(d: Device) {
    Sorted(d.queue) && Apart(d.queue) && (d.queue != [] ==> exists i: nat :: Serving(d.queue, i))
  }

  /** The request being served, if there is one that every other waits for. */
  ghost function Active(d: Device): (i: nat)
    requires d.queue != []
    ensures i < |d.queue| && (Inv(d) ==> Serving(d.queue, i))
  {
    if exists i: nat :: Serving(d.queue, i) then
      var i: nat :| Serving(d.queue, i);
      i
    else 0
  }

  lemma ActiveIs(d: Device, i: nat)
    requires Inv(d) && Serving(d.queue, i)
    ensures Active(d) == i
  {
    assert !d.queue[i].blocked;
  }

  datatype Event = Submit(id: nat, idx: Word32) | Served

  ghost predicate Enabled(d: Device, e: Event) {
    match e
    case Submit(id, _) => forall i | 0 <= i < |d.queue| :: d.queue[i].id != id
    case Served => d.queue != []
  }

  /** Requests arrive at any time; only the one being served finishes. */
  ghost function Step(d: Device, e: Event): Device
    requires Enabled(d, e)
  {
    match e
    case Submit(id, idx) => Arrive(d, id, idx)
    case Served => Finish(d, Active(d))
  }

  /** `e` is `d` with `r` put in at place `i`. */
  ghost predicate Inserted(d: seq<Request>, e: seq<Request>, i: nat, r: Request) {
    && i <= |d| && |e| == |d| + 1 && e[i] == r
    && (forall k | 0 <= k < i :: e[k] == d[k])
    && (forall k | i < k < |e| :: e[k] == d[k - 1])
  }

  lemma ArriveAt(d: Device, id: nat, idx: Word32)
    ensures var r := Request(id, idx, d.queue != []);
      Inserted(d.queue, Arrive(d, id, idx).queue, Place(d.queue, r.Key()), r)
  {
  }

  lemma InsertedServing(d: seq<Request>, e: seq<Request>, i: nat, r: Request, a: nat)
    requires Inserted(d, e, i, r) && Serving(d, a) && r.blocked
    ensures Serving(e, if i <= a then a + 1 else a)
  {
  }

  lemma InsertedApart(d: seq<Request>, e: seq<Request>, i: nat, r: Request)
    requires Inserted(d, e, i, r) && Apart(d) && forall k | 0 <= k < |d| :: d[k].id != r.id
    ensures Apart(e)
  {
    forall j, k | 0 <= j < k < |e| ensures e[j].id != e[k].id {
    }
  }

  lemma InsertedSorted(d: seq<Request>, e: seq<Request>, i: nat, r: Request)
    requires Inserted(d, e, i, r) && Sorted(d)
    requires (forall k | 0 <= k < i :: d[k].Key() <= r.Key()) && (i < |d| ==> r.Key() < d[i].Key())
    ensures Sorted(e)
  {
    forall j, k | 0 <= j < k < |e| ensures e[j].Key() <= e[k].Key() {
      if j == i {
        assert d[i].Key() <= d[k - 1].Key();
      }
    }
  }

  lemma ArriveInv(d: Device, id: nat, idx: Word32)
    requires Inv(d) && Enabled(d, Submit(id, idx))
    ensures Inv(Arrive(d, id, idx))
    ensures var i := Place(d.queue, Request(id, idx, true).Key());
      d.queue != [] ==> Active(Arrive(d, id, idx)) == if i <= Active(d) then Active(d) + 1 else Active(d)
  {
    hide Arrive, Sorted, Apart, Serving;
    var r := Request(id, idx, d.queue != []);
    var i := Place(d.queue, r.Key());
    var e := Arrive(d, id, idx);
    ArriveAt(d, id, idx);
    InsertedSorted(d.queue, e.queue, i, r);
    InsertedApart(d.queue, e.queue, i, r);
    assert r.Key() == Request(id, idx, true).Key();
    if d.queue == [] {
      OneServing(e.queue);
    } else {
      var a := Active(d);
      InsertedServing(d.queue, e.queue, i, r, a);
      ActiveIs(e, if i <= a then a + 1 else a);
    }
  }

  lemma OneServing(queue: seq<Request>)
    requires |queue| == 1 && !queue[0].blocked
    ensures Serving(queue, 0)
  {
  }

  /** `e` is `d` without the request at `a`, and with the one at `next` woken. */
  ghost predicate Removed(d: seq<Request>, e: seq<Request>, a: nat, next: Option<nat>) {
    && a < |d| && |e| == |d| - 1
    && (next.Some? ==> next.value < |d| && next.value != a)
    && forall k | 0 <= k < |e| ::
        var was := if k < a then k else k + 1;
        e[k] == if next == Some(was) then Wake(d[was]) else d[was]
  }

  lemma FinishAt(d: Device, a: nat)
    requires a < |d.queue|
    ensures Removed(d.queue, Finish(d, a).queue, a, NextReq(d, a).next)
    ensures NextReq(d, a).next.Some? <==> |d.queue| > 1
  {
    hide Wake;
  }

  lemma RemovedServing(d: seq<Request>, e: seq<Request>, a: nat, next: Option<nat>)
    requires Removed(d, e, a, next) && Serving(d, a) && next.Some?
    ensures Serving(e, if next.value < a then next.value else next.value - 1)
  {
  }

  lemma RemovedApart(d: seq<Request>, e: seq<Request>, a: nat, next: Option<nat>)
    requires Removed(d, e, a, next) && Apart(d) && Sorted(d)
    ensures Apart(e) && Sorted(e)
  {
    forall j, k | 0 <= j < k < |e| ensures e[j].id != e[k].id && e[j].Key() <= e[k].Key() {
      var was, then' := if j < a then j else j + 1, if k < a then k else k + 1;
      assert d[was].id != d[then'].id && d[was].Key() <= d[then'].Key();
    }
  }

  /** Finishing wakes another request exactly when one remains, and then only that one. */
  lemma FinishInv(d: Device)
    requires Inv(d) && d.queue != []
    ensures var a, e := Active(d), Finish(d, Active(d));
      var next := NextReq(d, a).next;
      && Inv(e)
      && (next.Some? <==> |d.queue| > 1)
      && Removed(d.queue, e.queue, a, next)
      && (next.Some? ==> Active(e) == if next.value < a then next.value else next.value - 1)
  {
    hide Finish, NextReq, Sorted, Apart, Serving, Removed;
    var a := Active(d);
    ServingIn(d.queue, a);
    var e := Finish(d, a);
    FinishAt(d, a);
    var next := NextReq(d, a).next;
    RemovedApart(d.queue, e.queue, a, next);
    if next.Some? {
      RemovedServing(d.queue, e.queue, a, next);
      ActiveIs(e, if next.value < a then next.value else next.value - 1);
    } else {
      assert e.queue == [] by {
        RemovedLength(d.queue, e.queue, a, next);
      }
    }
  }

  lemma ServingIn(queue: seq<Request>, a: nat)
    requires Serving(queue, a)
    ensures a < |queue|
  {
  }

  lemma RemovedLength(d: seq<Request>, e: seq<Request>, a: nat, next: Option<nat>)
    requires Removed(d, e, a, next)
    ensures |e| == |d| - 1
  {
  }

  lemma StepInv(d: Device, e: Event)
    requires Inv(d) && Enabled(d, e)
    ensures Inv(Step(d, e))
  {
    match e {
      case Submit(id, idx) => ArriveInv(d, id, idx);
      case Served => FinishInv(d);
    }
  }

  // ---------- At most one reversal ----------

  ghost predicate Queued(d: Device, id: nat) {
    exists i :: 0 <= i < |d.queue| && d.queue[i].id == id
  }

  ghost function PlaceOf(d: Device, id: nat): (i: nat)
    requires Queued(d, id)
    ensures i < |d.queue| && d.queue[i].id == id
  {
    var i :| 0 <= i < |d.queue| && d.queue[i].id == id;
    i
  }

  /** Reversals a queued request may still have to wait for: none when the elevator moves
      towards it. */
  ghost function Owed(d: Device, id: nat): (n: nat)
    requires Inv(d) && Queued(d, id)
    ensures n <= 1
  {
    var i, a := PlaceOf(d, id), Active(d);
    if i == a || (d.up && i > a) || (!d.up && i < a) then 0 else 1
  }

  function Turns(before: Device, after: Device): nat {
    if before.up == after.up then 0 else 1
  }

  lemma PlaceIs(d: Device, id: nat, i: nat)
    requires Apart(d.queue) && i < |d.queue| && d.queue[i].id == id
    ensures Queued(d, id) && PlaceOf(d, id) == i
  {
  }

  lemma QueuedNonEmpty(d: Device, id: nat)
    requires Queued(d, id)
    ensures d.queue != []
  {
  }

  /** A new request is put after every request for the same sector. */
  lemma PlacedAfterSame(d: Device, rid: nat, idx: Word32, id: nat)
    requires Inv(d) && Enabled(d, Submit(rid, idx)) && Queued(d, id) && d.queue[PlaceOf(d, id)].idx == idx
    ensures var e := Arrive(d, rid, idx);
      Inv(e) && Queued(e, id) && Queued(e, rid) && PlaceOf(e, id) < PlaceOf(e, rid)
  {
    hide Serving, Queued;
    ArriveInv(d, rid, idx);
    ArriveAt(d, rid, idx);
    ArrivePlace(d, rid, idx, id);
    var p := Place(d.queue, Request(rid, idx, true).Key());
    PlaceIs(Arrive(d, rid, idx), rid, p);
  }

  lemma ArrivePlace(d: Device, rid: nat, idx: Word32, id: nat)
    requires Inv(d) && Enabled(d, Submit(rid, idx)) && Queued(d, id)
    ensures var e, p := Arrive(d, rid, idx), Place(d.queue, Request(rid, idx, true).Key());
      Inv(e) && Queued(e, id) && PlaceOf(e, id) == if p <= PlaceOf(d, id) then PlaceOf(d, id) + 1 else PlaceOf(d, id)
  {
    hide Place, Sorted, Serving, Queued;
    var i := PlaceOf(d, id);
    ArriveInv(d, rid, idx);
    ArriveAt(d, rid, idx);
    var p := Place(d.queue, Request(rid, idx, true).Key());
    PlaceIs(Arrive(d, rid, idx), id, if p <= i then i + 1 else i);
  }

  lemma FinishPlace(d: Device, id: nat)
    requires Inv(d) && Queued(d, id) && PlaceOf(d, id) != Active(d)
    ensures var e := Finish(d, Active(d));
      Inv(e) && Queued(e, id) && PlaceOf(e, id) == if PlaceOf(d, id) < Active(d) then PlaceOf(d, id) else PlaceOf(d, id) - 1
  {
    hide Sorted, Serving, Queued;
    FinishInv(d);
    var i, a := PlaceOf(d, id), Active(d);
    ServingIn(d.queue, a);
    var e := Finish(d, a);
    assert e.queue[if i < a then i else i - 1].id == id;
    PlaceIs(e, id, if i < a then i else i - 1);
  }

  /** A request that arrives takes nobody's turn back. */
  lemma ArriveOwed(d: Device, rid: nat, idx: Word32, id: nat)
    requires Inv(d) && Enabled(d, Submit(rid, idx)) && Queued(d, id)
    ensures var e := Arrive(d, rid, idx);
      Inv(e) && Queued(e, id) && e.up == d.up && Owed(e, id) == Owed(d, id)
  {
    hide Place, Sorted, Serving, Queued;
    QueuedNonEmpty(d, id);
    ArriveInv(d, rid, idx);
    ArrivePlace(d, rid, idx, id);
  }

  /** A request other than the one that finishes keeps its place in the order. */
  lemma FinishOwed(d: Device, id: nat)
    requires Inv(d) && Queued(d, id) && PlaceOf(d, id) != Active(d)
    ensures var e := Finish(d, Active(d));
      Inv(e) && Queued(e, id) && Turns(d, e) + Owed(e, id) <= Owed(d, id)
  {
    hide Sorted, Serving, Queued;
    FinishInv(d);
    FinishPlace(d, id);
    ServingIn(d.queue, Active(d));
  }

  /** The request that finishes is gone. */
  lemma FinishGone(d: Device, id: nat)
    requires Inv(d) && Queued(d, id) && PlaceOf(d, id) == Active(d)
    ensures !Queued(Finish(d, Active(d)), id)
  {
    hide Sorted, Serving;
    FinishInv(d);
    var a := Active(d);
    var e := Finish(d, a);
    forall k | 0 <= k < |e.queue| ensures e.queue[k].id != id {
      assert e.queue[k].id == d.queue[if k < a then k else k + 1].id;
    }
  }

  /** A step that leaves a request waiting pays for its reversal out of what the request is owed. */
  lemma StepOwed(d: Device, e: Event, id: nat)
    requires Inv(d) && Enabled(d, e) && Queued(d, id) && Inv(Step(d, e)) && Queued(Step(d, e), id)
    ensures Turns(d, Step(d, e)) + Owed(Step(d, e), id) <= Owed(d, id)
  {
    hide Sorted, Serving, Inv, Owed, Arrive, Finish, Queued;
    match e {
      case Submit(rid, idx) => ArriveOwed(d, rid, idx, id);
      case Served =>
        if PlaceOf(d, id) == Active(d) {
          FinishGone(d, id);
        } else {
          FinishOwed(d, id);
        }
    }
  }

  /** A run, given by its states, in which request `id` stays in the list. */
  ghost predicate Waiting(states: seq<Device>, events: seq<Event>, id: nat) {
    && |states| == |events| + 1
    && Inv(states[0])
    && (forall k | 0 <= k < |states| :: Queued(states[k], id))
    && (forall k | 0 <= k < |events| :: Enabled(states[k], events[k]) && states[k + 1] == Step(states[k], events[k]))
  }

  lemma {:induction false} WaitingInv(states: seq<Device>, events: seq<Event>, id: nat, k: nat)
    requires Waiting(states, events, id) && k < |states|
    ensures Inv(states[k]) && Queued(states[k], id)
    decreases k
  {
    hide Inv, Enabled, Step, Queued;
    if k == 0 {
    } else {
      WaitingInv(states, events, id, k - 1);
      assert states[k - 1 + 1] == Step(states[k - 1], events[k - 1]);
      StepInv(states[k - 1], events[k - 1]);
    }
  }

  ghost function Reversals(states: seq<Device>): nat
    requires states != []
  {
    if |states| == 1 then 0 else Reversals(states[..|states| - 1]) + Turns(states[|states| - 2], states[|states| - 1])
  }

  /** From arrival to service a request sees at most one reversal of direction, whatever else
      arrives in between, and none if the elevator was moving towards it. */
  lemma {:induction false} AtMostOneReversal(states: seq<Device>, events: seq<Event>, id: nat)
    requires Waiting(states, events, id)
    ensures Inv(states[|events|]) && Queued(states[0], id) && Queued(states[|events|], id)
    ensures Reversals(states) + Owed(states[|events|], id) <= Owed(states[0], id) <= 1
    decreases |events|
  {
    hide Inv, Enabled, Step, Queued, Owed, Turns;
    if events == [] {
    } else {
      var n := |events|;
      var fewer := states[..n];
      assert Waiting(fewer, events[..n - 1], id);
      AtMostOneReversal(fewer, events[..n - 1], id);
      WaitingInv(states, events, id, n);
      assert states[n - 1 + 1] == Step(states[n - 1], events[n - 1]);
      StepOwed(states[n - 1], events[n - 1], id);
    }
  }

  // ---------- What the elevator does not promise ----------

  /** Rounds in which a request for sector 5 arrives and then the one being served finishes. */
  ghost function Rounds(n: nat, id: nat): seq<Event> {
    if n == 0 then [] else [Submit(id, 5), Served] + Rounds(n - 1, id + 1)
  }

  ghost predicate Runs(d: Device, events: seq<Event>)
    decreases |events|
  {
    events == [] || (Enabled(d, events[0]) && Runs(Step(d, events[0]), events[1..]))
  }

  ghost function Run(d: Device, events: seq<Event>): Device
    requires Runs(d, events)
    decreases |events|
  {
    if events == [] then d else Run(Step(d, events[0]), events[1..])
  }

  /** The number of requests served ahead of one is not bounded: while requests for sector 5 keep
      coming, one for sector 9 waits through any number of rounds. */
  lemma {:induction false} NeverServed(n: nat, first: nat)
    requires first > 0
    ensures var d := Device([Request(first, 5, false), Request(0, 9, true)], true);
      && Runs(d, Rounds(n, first + 1))
      && Run(d, Rounds(n, first + 1)).queue == [Request(first + n, 5, false), Request(0, 9, true)]
    decreases n
  {
    hide Arrive, Finish;
    var d := Device([Request(first, 5, false), Request(0, 9, true)], true);
    if n == 0 {
    } else {
      var events := Rounds(n, first + 1);
      Round(first);
      var e := Step(d, events[0]);
      assert events[1..][1..] == Rounds(n - 1, first + 2);
      assert Runs(d, events) && Run(d, events) == Run(Step(e, Served), events[1..][1..]) by {
        NeverServed(n - 1, first + 1);
      }
      NeverServed(n - 1, first + 1);
    }
  }

  lemma Round(first: nat)
    requires first > 0
    ensures var d := Device([Request(first, 5, false), Request(0, 9, true)], true);
      && Inv(d) && Enabled(d, Submit(first + 1, 5))
      && var e := Step(d, Submit(first + 1, 5));
      && Inv(e) && e.queue != []
      && Step(e, Served) == Device([Request(first + 1, 5, false), Request(0, 9, true)], true)
  {
    var d := Device([Request(first, 5, false), Request(0, 9, true)], true);
    assert Serving(d.queue, 0);
    ActiveIs(d, 0);
    ArriveInv(d, first + 1, 5);
    var e := Arrive(d, first + 1, 5);
    assert e.queue == [Request(first, 5, false), Request(first + 1, 5, true), Request(0, 9, true)];
    assert Finish(e, 0).queue == [Request(first + 1, 5, false), Request(0, 9, true)];
  }

  /** Of two requests, is the one with the lower place (for one sector: the one that came first)
      reached before the other? */
  ghost predicate Leads(d: Device, first: nat, second: nat)
    requires Inv(d) && Queued(d, first) && Queued(d, second)
  {
    var a := Active(d);
    a <= PlaceOf(d, first) || (a < PlaceOf(d, second) && !d.up)
  }

  ghost predicate Both(d: Device, first: nat, second: nat) {
    Inv(d) && Queued(d, first) && Queued(d, second) && PlaceOf(d, first) < PlaceOf(d, second)
  }

  /** No step changes which of two waiting requests is reached first. */
  lemma StepLeads(d: Device, e: Event, first: nat, second: nat)
    requires Both(d, first, second) && Enabled(d, e) && Inv(Step(d, e)) && Queued(Step(d, e), first) && Queued(Step(d, e), second)
    ensures Both(Step(d, e), first, second) && (Leads(Step(d, e), first, second) <==> Leads(d, first, second))
  {
    hide Place, Sorted, Serving, Inv, Queued, Apart;
    match e {
      case Submit(rid, idx) =>
        hide Arrive;
        ArriveUp(d, rid, idx);
        ArrivePlace(d, rid, idx, first);
        ArrivePlace(d, rid, idx, second);
        QueuedNonEmpty(d, first);
        ArriveInv(d, rid, idx);
      case Served =>
        if PlaceOf(d, first) == Active(d) {
          FinishGone(d, first);
        } else if PlaceOf(d, second) == Active(d) {
          FinishGone(d, second);
        } else {
          FinishPlace(d, first);
          FinishPlace(d, second);
          QueuedNonEmpty(d, first);
          FinishInv(d);
        }
    }
  }

  lemma ArriveUp(d: Device, id: nat, idx: Word32)
    ensures Arrive(d, id, idx).up == d.up
  {
  }

  /** Of two waiting requests the lower placed one gets its turn first exactly when the one being
      served is below both, or is between them on the way down.  For one sector the lower placed
      request is the one that came first, so later requests do overtake earlier ones. */
  lemma {:induction false} WhoIsServedFirst(states: seq<Device>, events: seq<Event>, first: nat, second: nat)
    requires Waiting(states, events, first) && Waiting(states, events, second)
    requires PlaceOf(states[0], first) < PlaceOf(states[0], second)
    ensures var d := states[|events|];
      && Both(states[0], first, second) && Both(d, first, second)
      && (Leads(d, first, second) <==> Leads(states[0], first, second))
      && (Active(d) == PlaceOf(d, first) ==> Leads(states[0], first, second))
      && (Active(d) == PlaceOf(d, second) ==> !Leads(states[0], first, second))
    decreases |events|
  {
    hide Inv, Enabled, Step, Queued;
    if events == [] {
    } else {
      var n := |events|;
      var fewer := states[..n];
      assert Waiting(fewer, events[..n - 1], first) && Waiting(fewer, events[..n - 1], second);
      WhoIsServedFirst(fewer, events[..n - 1], first, second);
      WaitingInv(states, events, first, n);
      WaitingInv(states, events, second, n);
      assert states[n - 1 + 1] == Step(states[n - 1], events[n - 1]);
      StepLeads(states[n - 1], events[n - 1], first, second);
    }
  }
}
