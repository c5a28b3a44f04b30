/** A pipe with one reader and one writer (src/fs/pipe.c).  Both loops are steps of one machine,
    a step for each byte and one for going to sleep. */
module Pipes {
  import opened Outcomes
  import opened Fifos

  /** A ring of one page. */
  const CAPACITY: nat := 4095

  /** `Woken` is past the sleep: the next byte is moved without another look at the ring. */
  datatype Reader = NotReading | Reading(left: nat) | ReaderAsleep(left: nat) | ReaderWoken(left: nat)

  datatype Writer = NotWriting | Writing(rest: seq<bv8>) | WriterAsleep(rest: seq<bv8>) | WriterWoken(rest: seq<bv8>)

  /** `taken` and `put` are all the bytes the reader got and the writer handed in so far. */
  datatype Pipe = Pipe(ring: seq<bv8>, rxwaiter: bool, txwaiter: bool, reader: Reader, writer: Writer, taken: seq<bv8>, put: seq<bv8>)

  datatype Step = StartRead(count: nat) | ReaderStep | StartWrite(bytes: seq<bv8>) | WriterStep

  /** The rest of the reader's loop once there is (or should be) a byte. */
  function Take(p: Pipe, left: nat): Outcome<Pipe> {
    if p.ring == [] || left == 0 then Halt(Rejected)
    else
      var q := p.(ring := p.ring[1..], taken := p.taken + [p.ring[0]], reader := Reading(left - 1));
      if !q.txwaiter then Done(q)
      else Done(q.(txwaiter := false, writer := if q.writer.WriterAsleep? then WriterWoken(q.writer.rest) else q.writer))
  }

  function Give(p: Pipe, rest: seq<bv8>): Outcome<Pipe> {
    if rest == [] then Halt(Rejected)
    else
      var q := p.(ring := Enqueue(p.ring, CAPACITY, rest[0]), put := p.put + [rest[0]], writer := Writing(rest[1..]));
      if !q.rxwaiter then Done(q)
      else Done(q.(rxwaiter := false, reader := if q.reader.ReaderAsleep? then ReaderWoken(q.reader.left) else q.reader))
  }

  predicate Enabled(p: Pipe, step: Step) {
    match step
    case StartRead(_) => p.reader.NotReading?
    case ReaderStep => p.reader.Reading? || p.reader.ReaderWoken?
    case StartWrite(_) => p.writer.NotWriting?
    case WriterStep => p.writer.Writing? || p.writer.WriterWoken?
  }

  function Do(p: Pipe, step: Step): Outcome<Pipe>
    requires Enabled(p, step)
  {
    match step
    case StartRead(count) => Done(p.(reader := Reading(count)))
    case ReaderStep =>
      if p.reader.ReaderWoken? then Take(p, p.reader.left)
      else if p.reader.left == 0 then Done(p.(reader := NotReading))
      else if p.ring != [] then Take(p, p.reader.left)
      else if p.rxwaiter then Halt(Rejected)
      else Done(p.(rxwaiter := true, reader := ReaderAsleep(p.reader.left)))
    case StartWrite(bytes) => Done(p.(writer := Writing(bytes)))
    case WriterStep =>
      if p.writer.WriterWoken? then Give(p, p.writer.rest)
      else if p.writer.rest == [] then Done(p.(writer := NotWriting))
      else if |p.ring| != CAPACITY then Give(p, p.writer.rest)
      else if p.txwaiter then Halt(Rejected)
      else Done(p.(txwaiter := true, writer := WriterAsleep(p.writer.rest)))
  }

  predicate Inv(p: Pipe) {
    && p.taken + p.ring == p.put
    && |p.ring| <= CAPACITY
    && (p.rxwaiter <==> p.reader.ReaderAsleep?)
    && (p.rxwaiter ==> p.ring == [])
    && (p.reader.ReaderAsleep? || p.reader.ReaderWoken? ==> p.reader.left > 0)
    && (p.reader.ReaderWoken? ==> p.ring != [])
    && (p.txwaiter <==> p.writer.WriterAsleep?)
    && (p.txwaiter ==> |p.ring| == CAPACITY)
    && (p.writer.WriterAsleep? || p.writer.WriterWoken? ==> p.writer.rest != [])
    && (p.writer.WriterWoken? ==> |p.ring| < CAPACITY)
  }

  /** No assertion fails, no byte is lost or changed, and a sleeper is woken as soon as there is
      something for it to do. */
  lemma StepInv(p: Pipe, step: Step)
    requires Inv(p) && Enabled(p, step)
    ensures Do(p, step).Done? && Inv(Do(p, step).value)
  {
    if step.ReaderStep? && p.ring != [] {
      assert p.taken + [p.ring[0]] + p.ring[1..] == p.put;
    }
    if step.WriterStep? && |p.ring| < CAPACITY && !p.writer.NotWriting? && p.writer.rest != [] {
      assert p.taken + (p.ring + [p.writer.rest[0]]) == p.put + [p.writer.rest[0]];
    }
  }

  /** The two ends never sleep together. */
  lemma NeverBothAsleep(p: Pipe)
    requires Inv(p)
    ensures !(p.reader.ReaderAsleep? && p.writer.WriterAsleep?)
  {
  }

  function Empty(): (p: Pipe)
    ensures Inv(p)
  {
    Pipe([], false, false, NotReading, NotWriting, [], [])
  }

  ghost predicate Runs(p: Pipe, steps: seq<Step>)
    decreases |steps|
  {
    steps == [] || (Enabled(p, steps[0]) && Do(p, steps[0]).Done? && Runs(Do(p, steps[0]).value, steps[1..]))
  }

  ghost function Run(p: Pipe, steps: seq<Step>): Pipe
    requires Runs(p, steps)
    decreases |steps|
  {
    if steps == [] then p else Run(Do(p, steps[0]).value, steps[1..])
  }

  /** All bytes the steps hand to the writer, in order. */
  function Sent(steps: seq<Step>): seq<bv8> {
    if steps == [] then [] else (if steps[0].StartWrite? then steps[0].bytes else []) + Sent(steps[1..])
  }

  /** What the writer has been given and not yet put. */
  function Unsent(p: Pipe): seq<bv8> {
    if p.writer.NotWriting? then [] else p.writer.rest
  }

  lemma StepConserves(p: Pipe, step: Step)
    requires Inv(p) && Enabled(p, step)
    ensures var q := Do(p, step);
      q.Done? && q.value.put + Unsent(q.value) == p.put + Unsent(p) + Sent([step])
  {
    StepInv(p, step);
    assert Sent([step]) == if step.StartWrite? then step.bytes else [];
    if step.WriterStep? && p.writer.rest != [] {
      var r := p.writer.rest;
      assert p.put + [r[0]] + r[1..] == p.put + r;
    }
  }

  /** Over any interleaving the bytes read, those in the ring and those the writer still has are
      together the bytes written, in order. */
  lemma {:induction false} RunConserves(p: Pipe, steps: seq<Step>)
    requires Inv(p) && Runs(p, steps)
    ensures var q := Run(p, steps);
      Inv(q) && q.taken + q.ring + Unsent(q) == p.put + Unsent(p) + Sent(steps)
    decreases |steps|
  {
    hide Do, Enabled, Unsent, Inv, Sent;
    if steps == [] {
      SentNothing(p.put + Unsent(p));
      InvTaken(p);
    } else {
      StepInv(p, steps[0]);
      StepConserves(p, steps[0]);
      var q := Do(p, steps[0]).value;
      RunConserves(q, steps[1..]);
      SentOnce(p.put + Unsent(p), steps);
    }
  }

  lemma InvTaken(p: Pipe)
    requires Inv(p)
    ensures p.taken + p.ring == p.put
  {
  }

  lemma SentNothing(before: seq<bv8>)
    ensures before + Sent([]) == before
  {
  }

  lemma SentOnce(before: seq<bv8>, steps: seq<Step>)
    requires steps != []
    ensures before + Sent([steps[0]]) + Sent(steps[1..]) == before + Sent(steps)
  {
    SentFirst(steps);
    hide Sent;
    Regroup(before, Sent([steps[0]]), Sent(steps[1..]));
  }

  lemma SentFirst(steps: seq<Step>)
    requires steps != []
    ensures Sent(steps) == Sent([steps[0]]) + Sent(steps[1..])
  {
    assert [steps[0]][1..] == [];
  }

  lemma Regroup(a: seq<bv8>, b: seq<bv8>, c: seq<bv8>)
    ensures a + b + c == a + (b + c)
  {
  }

  // ---------- How much a read and a write move ----------

  /** How many bytes the read going on still wants. */
  function Wanted(p: Pipe): nat {
    if p.reader.NotReading? then 0 else p.reader.left
  }

  /** How many bytes the reads among the steps ask for. */
  function Asked(steps: seq<Step>): nat {
    if steps == [] then 0 else (if steps[0].StartRead? then steps[0].count else 0) + Asked(steps[1..])
  }

  lemma StepReads(p: Pipe, step: Step)
    requires Inv(p) && Enabled(p, step) && Do(p, step).Done?
    ensures var q := Do(p, step).value;
      |q.taken| + Wanted(q) == |p.taken| + Wanted(p) + if step.StartRead? then step.count else 0
  {
  }

  /** Over any interleaving the bytes read and those still wanted are together those asked for. */
  lemma {:induction false} RunReads(p: Pipe, steps: seq<Step>)
    requires Inv(p) && Runs(p, steps)
    ensures var q := Run(p, steps); |q.taken| + Wanted(q) == |p.taken| + Wanted(p) + Asked(steps)
    decreases |steps|
  {
    hide Do, Enabled, Inv, Wanted;
    if steps == [] {
    } else {
      StepInv(p, steps[0]);
      StepReads(p, steps[0]);
      RunReads(Do(p, steps[0]).value, steps[1..]);
    }
  }

  lemma {:induction false} NothingAsked(steps: seq<Step>)
    requires forall i | 0 <= i < |steps| :: !steps[i].StartRead?
    ensures Asked(steps) == 0
  {
    if steps == [] {
    } else {
      NothingAsked(steps[1..]);
    }
  }

  lemma {:induction false} NothingSent(steps: seq<Step>)
    requires forall i | 0 <= i < |steps| :: !steps[i].StartWrite?
    ensures Sent(steps) == []
  {
    if steps == [] {
    } else {
      NothingSent(steps[1..]);
    }
  }

  /** A read that is over has returned exactly as many bytes as it asked for, and they are the next ones
      of all that is in the ring, in the writer's hands or written meanwhile. */
  lemma ReadReturns(p: Pipe, count: nat, steps: seq<Step>)
    requires Inv(p) && p.reader == Reading(count) && Runs(p, steps)
    requires forall i | 0 <= i < |steps| :: !steps[i].StartRead?
    requires Run(p, steps).reader.NotReading?
    ensures var q, next := Run(p, steps), p.ring + Unsent(p) + Sent(steps);
      |next| >= count && q.taken == p.taken + next[..count]
  {
    hide Do, Enabled, Inv, Sent, Asked, Runs, Run;
    var q, next := Run(p, steps), p.ring + Unsent(p) + Sent(steps);
    RunReads(p, steps);
    NothingAsked(steps);
    RunConserves(p, steps);
    InvTaken(p);
    assert |q.taken| == |p.taken| + count;
    Regroup(q.taken, q.ring, Unsent(q));
    Regroup(p.taken, p.ring, Unsent(p));
    Regroup(p.taken, p.ring + Unsent(p), Sent(steps));
    PrefixIs(q.taken, q.ring + Unsent(q), p.taken, next, count);
  }

  lemma PrefixIs(a: seq<bv8>, b: seq<bv8>, c: seq<bv8>, d: seq<bv8>, n: nat)
    requires a + b == c + d && |a| == |c| + n
    ensures n <= |d| && a == c + d[..n]
  {
    assert a == (a + b)[..|a|] == (c + d)[..|a|];
  }

  /** A write that is over has put all its bytes, in order and once. */
  lemma WritePuts(p: Pipe, bytes: seq<bv8>, steps: seq<Step>)
    requires Inv(p) && p.writer == Writing(bytes) && Runs(p, steps)
    requires forall i | 0 <= i < |steps| :: !steps[i].StartWrite?
    requires Run(p, steps).writer.NotWriting?
    ensures Run(p, steps).put == p.put + bytes
  {
    hide Do, Enabled, Inv, Sent, Runs, Run;
    RunConserves(p, steps);
    NothingSent(steps);
    var q := Run(p, steps);
    InvTaken(q);
    assert q.put + Unsent(q) == q.put && p.put + bytes + Sent(steps) == p.put + bytes;
  }

  // ---------- When they are over ----------

  /** The two ends have nothing to do before the next call. */
  predicate Settled(p: Pipe) {
    !Enabled(p, ReaderStep) && !Enabled(p, WriterStep)
  }

  /** When the ends have nothing to do, a read is still going on only if every byte written was read,
      and a write only if the ring is full and nobody reads. */
  lemma SettledMeans(p: Pipe)
    requires Inv(p) && Settled(p)
    ensures p.reader.NotReading? || (Wanted(p) > 0 && p.ring == [] && Unsent(p) == [])
    ensures p.writer.NotWriting? || (|p.ring| == CAPACITY && p.reader.NotReading?)
  {
  }

  /** How many steps the ends can still make at most. */
  function Work(p: Pipe): nat {
    4 * (Wanted(p) + |Unsent(p)|)
    + (match p.reader case NotReading => 0 case ReaderAsleep(_) => 1 case ReaderWoken(_) => 2 case Reading(_) => 3)
    + (match p.writer case NotWriting => 0 case WriterAsleep(_) => 1 case WriterWoken(_) => 2 case Writing(_) => 3)
  }

  /** The ends come to that after finitely many steps: each step leaves less to do. */
  lemma StepWorks(p: Pipe, step: Step)
    requires Inv(p) && Enabled(p, step) && (step.ReaderStep? || step.WriterStep?)
    ensures Do(p, step).Done? && Work(Do(p, step).value) < Work(p)
  {
    StepInv(p, step);
  }
}
