/** Runs of calls on several files, against files that are plain byte sequences
    (src/fs/inode.c, src/fs/bmap.c). */
module FileRuns {
  import opened Outcomes
  import opened Unsigned
  import opened FileBlocks
  import opened FileInvariant
  import opened FileContents
  import opened FileSpace
  import opened FileTruncate

  /** Create takes an inode without zones; the others are `inode_write`, `inode_read` and
      `inode_truncate`. */
  datatype Call =
    | Create(ino: nat)
    | Write(ino: nat, data: seq<Byte>, offset: nat)
    | Read(ino: nat, len: nat, offset: nat)
    | Truncate(ino: nat)

  /** What a call returns: its number, and the bytes read. */
  datatype Reply = Reply(count: int, bytes: seq<Byte>)

  datatype Answer<T> = Answer(next: T, reply: Reply)

  // ---------- On the volume ----------

  predicate Known(vol: Volume, c: Call) {
    c.Create? || c.ino in vol.files
  }

  function Do(vol: Volume, c: Call): (r: Outcome<Answer<Volume>>)
    requires vol.Sized() && Known(vol, c)
    ensures r.Done? ==> r.value.next.Sized()
  {
    match c
    case Create(ino) => Done(Answer(vol.(files := vol.files[ino := Inode(seq(9, i => 0), 0)]), Reply(0, [])))
    case Write(ino, data, offset) =>
      var v :- WriteFrom(vol, ino, data, offset);
      Done(Answer(v, Reply(|data|, [])))
    case Read(ino, len, offset) =>
      var size := vol.files[ino].size;
      if offset >= size then Done(Answer(vol, Reply(-1, [])))
      else
        var bytes :- ReadFrom(vol, ino, Min(len, size - offset), offset);
        Done(Answer(vol, Reply(|bytes|, bytes)))
    case Truncate(ino) =>
      var v :- TruncateFrom(vol, ino, 0);
      Done(Answer(v, Reply(0, [])))
  }

  // ---------- On byte sequences ----------

  type Files = map<nat, seq<Byte>>

  /** New inodes are new, calls name files there are, and writes leave no gap. */
  predicate Allowed(files: Files, c: Call) {
    match c
    case Create(ino) => ino !in files
    case Write(ino, _, offset) => ino in files && offset <= |files[ino]|
    case Read(ino, _, _) => ino in files
    case Truncate(ino) => ino in files
  }

  function Plain(files: Files, c: Call): Answer<Files>
    requires Allowed(files, c)
  {
    match c
    case Create(ino) => Answer(files[ino := []], Reply(0, []))
    case Write(ino, data, offset) => Answer(files[ino := Splice(files[ino], offset, data)], Reply(|data|, []))
    case Read(ino, len, offset) =>
      var bytes := files[ino];
      if offset >= |bytes| then Answer(files, Reply(-1, []))
      else
        var n := Min(len, |bytes| - offset);
        Answer(files, Reply(n, bytes[offset..offset + n]))
    case Truncate(ino) => Answer(files[ino := []], Reply(0, []))
  }

  // ---------- One call ----------

  /** The blocks of all files are apart and no file has a hole. */
  ghost predicate Viewed(vol: Volume)
    ensures Viewed(vol) ==> vol.Sized()
  {
    && Good(vol)
    && forall j | j in vol.files :: vol.files[j].size <= MAX_SIZE
  }

  /** The files of a volume as byte sequences. */
  ghost function View(vol: Volume): Files
    requires Viewed(vol)
  {
    map j | j in vol.files :: Content(vol, j)
  }

  lemma GoodView(vol: Volume)
    requires Good(vol)
    ensures Viewed(vol) && vol.Sized() && Apart(vol) && forall j | j in vol.files :: NoHoles(vol, j)
  {
    GoodFiles(vol);
  }

  /** What a call asks of the free zones: only a write asks anything. */
  predicate Served(vol: Volume, c: Call)
    requires vol.Sized() && Known(vol, c)
  {
    c.Write? ==> CleanWrite(vol, c.ino, c.data, c.offset)
  }

  /** Why a call stops the machine: fewer zones are free than there are empty slots on the ways to
      the blocks written, the file would be too large, or a zone of it is too high for `bfree`. */
  ghost predicate Excused(vol: Volume, c: Call, why: Stop)
    requires vol.Sized()
  {
    if c.Write? then
      var room := |EmptyFor(vol, c.ino, |c.data|, c.offset)| <= |FreeZones(vol)|;
      if why == OutOfMemory then !room
      else why == Rejected && room && c.data != [] && c.offset + |c.data| > MAX_SIZE
    else c.Truncate? && why == Rejected && exists s: Slot :: Value(vol, Key(c.ino, s)) > BLOCK_BITS
  }

  /** A call's answer on the volume is its answer on byte sequences. */
  ghost predicate Agrees(vol: Volume, c: Call)
    requires Viewed(vol) && Allowed(View(vol), c) && Known(vol, c)
  {
    var r := Do(vol, c);
    && (forall why :: r == Halt(why) <==> Excused(vol, c, why))
    && (r.Done? ==> Viewed(r.value.next) && Answer(View(r.value.next), r.value.reply) == Plain(View(vol), c))
  }

  lemma CreateAgrees(vol: Volume, c: Call)
    requires Viewed(vol) && Allowed(View(vol), c) && c.Create?
    ensures Agrees(vol, c)
  {
    hide Good, Content;
    var v := Do(vol, c).value.next;
    NewFileGood(vol, v, c.ino);
    GoodView(v);
    assert View(v) == View(vol)[c.ino := []];
  }

  lemma WriteAgrees(vol: Volume, c: Call)
    requires Viewed(vol) && Allowed(View(vol), c) && c.Write? && Served(vol, c)
    ensures Agrees(vol, c)
  {
    hide Good, Content, WriteFrom, Splice, CleanWrite, EmptyFor, FreeZones;
    GoodView(vol);
    WriteSplices(vol, c.ino, c.data, c.offset);
    WriteServed(vol, c.ino, c.data, c.offset);
    var r := WriteFrom(vol, c.ino, c.data, c.offset);
    if r.Done? {
      GoodView(r.value);
      assert View(r.value) == View(vol)[c.ino := Splice(Content(vol, c.ino), c.offset, c.data)];
    }
  }

  lemma ReadAgrees(vol: Volume, c: Call)
    requires Viewed(vol) && Allowed(View(vol), c) && c.Read?
    ensures Agrees(vol, c)
  {
    hide Good, Content, ReadFrom;
    GoodView(vol);
    var size := vol.files[c.ino].size;
    if c.offset < size {
      ReadSlices(vol, c.ino, Min(c.len, size - c.offset), c.offset);
    }
  }

  lemma TruncateAgrees(vol: Volume, c: Call)
    requires Viewed(vol) && Allowed(View(vol), c) && c.Truncate?
    ensures Agrees(vol, c)
  {
    hide Good, Content, TruncateFrom, Value;
    GoodView(vol);
    TruncateEmpties(vol, c.ino);
    var r := TruncateFrom(vol, c.ino, 0);
    if r.Done? {
      TruncatedContents(vol, c.ino);
      GoodView(r.value);
      assert View(r.value) == View(vol)[c.ino := []];
    }
  }

  /** One call does to the volume what it does to byte sequences, and returns the same. */
  lemma CallPlain(vol: Volume, c: Call)
    requires Viewed(vol) && Allowed(View(vol), c) && Known(vol, c) && Served(vol, c)
    ensures Agrees(vol, c)
  {
    hide Agrees, Viewed, View, Served;
    match c {
      case Create(_) => CreateAgrees(vol, c);
      case Write(_, _, _) => WriteAgrees(vol, c);
      case Read(_, _, _) => ReadAgrees(vol, c);
      case Truncate(_) => TruncateAgrees(vol, c);
    }
  }

  // ---------- Runs ----------

  /** The calls one after the other, up to one that stops the machine. */
  function Run(vol: Volume, calls: seq<Call>): Outcome<(Volume, seq<Reply>)>
    requires vol.Sized()
    decreases |calls|
  {
    if calls == [] then Done((vol, []))
    else if !Known(vol, calls[0]) then Halt(Rejected)
    else
      var a :- Do(vol, calls[0]);
      var rest :- Run(a.next, calls[1..]);
      Done((rest.0, [a.reply] + rest.1))
  }

  predicate AllowedRun(files: Files, calls: seq<Call>)
    decreases |calls|
  {
    calls != [] ==> Allowed(files, calls[0]) && AllowedRun(Plain(files, calls[0]).next, calls[1..])
  }

  function PlainRun(files: Files, calls: seq<Call>): (Files, seq<Reply>)
    requires AllowedRun(files, calls)
    decreases |calls|
  {
    if calls == [] then (files, [])
    else
      var a := Plain(files, calls[0]);
      var rest := PlainRun(a.next, calls[1..]);
      (rest.0, [a.reply] + rest.1)
  }

  /** Each write of the run finds the zeros it asks for. */
  predicate ServedRun(vol: Volume, calls: seq<Call>)
    requires vol.Sized()
    decreases |calls|
  {
    calls != [] && Known(vol, calls[0]) ==>
      var r := Do(vol, calls[0]);
      Served(vol, calls[0]) && (r.Done? ==> ServedRun(r.value.next, calls[1..]))
  }

  lemma RunOnce(vol: Volume, calls: seq<Call>)
    requires vol.Sized() && calls != [] && Known(vol, calls[0])
    ensures var r := Do(vol, calls[0]);
      && (ServedRun(vol, calls) <==> Served(vol, calls[0]) && (r.Done? ==> ServedRun(r.value.next, calls[1..])))
      && Run(vol, calls) ==
        match r
        case Halt(why) => Halt(why)
        case Done(a) =>
          match Run(a.next, calls[1..])
          case Halt(why) => Halt(why)
          case Done(rest) => Done((rest.0, [a.reply] + rest.1))
  {
    hide Do, Served;
  }

  /** A run comes to a call that stops the machine. */
  ghost predicate Stopped(vol: Volume, calls: seq<Call>, why: Stop)
    requires vol.Sized()
    decreases |calls|
  {
    calls != [] && Known(vol, calls[0]) &&
      var r := Do(vol, calls[0]);
      Excused(vol, calls[0], why) || (r.Done? && Stopped(r.value.next, calls[1..], why))
  }

  lemma StoppedOnce(vol: Volume, calls: seq<Call>)
    requires vol.Sized() && calls != [] && Known(vol, calls[0])
    ensures var r := Do(vol, calls[0]);
      forall why :: Stopped(vol, calls, why) <==>
        Excused(vol, calls[0], why) || (r.Done? && Stopped(r.value.next, calls[1..], why))
  {
    hide Do, Excused;
  }

  lemma AgreesStops(vol: Volume, c: Call)
    requires Viewed(vol) && Allowed(View(vol), c) && Known(vol, c) && Agrees(vol, c)
    ensures forall why :: Do(vol, c) == Halt(why) <==> Excused(vol, c, why)
    ensures Do(vol, c).Done? ==>
      Viewed(Do(vol, c).value.next) && Answer(View(Do(vol, c).value.next), Do(vol, c).value.reply) == Plain(View(vol), c)
  {
    hide Do, View, Viewed, Plain, Excused;
  }

  /** Any run of calls on any number of files, freed blocks taken again and all: the volume
      behaves as files that are plain byte sequences, reply by reply, whenever each zone that a
      write puts into an empty index slot reads as zeros.  No block is freed twice, and it stops only
      where the zones, the size of a file or the range of `bfree` are exceeded, and there always. */
  lemma {:induction false} RunPlain(vol: Volume, calls: seq<Call>)
    requires Viewed(vol) && AllowedRun(View(vol), calls) && ServedRun(vol, calls)
    ensures var r := Run(vol, calls);
      && (r.Done? ==> Viewed(r.value.0) && (View(r.value.0), r.value.1) == PlainRun(View(vol), calls))
      && (forall why :: r == Halt(why) <==> Stopped(vol, calls, why))
    decreases |calls|
  {
    hide Agrees, Do, View, Viewed, Plain, Excused, Served;
    if calls == [] {
    } else {
      KnownAllowed(vol, calls[0]);
      RunOnce(vol, calls);
      CallPlain(vol, calls[0]);
      AgreesStops(vol, calls[0]);
      StoppedOnce(vol, calls);
      var r := Do(vol, calls[0]);
      if r.Done? {
        RunPlain(r.value.next, calls[1..]);
      }
    }
  }

  lemma KnownAllowed(vol: Volume, c: Call)
    requires Viewed(vol) && Allowed(View(vol), c)
    ensures Known(vol, c)
  {
  }

  /** The blocks of all files stay apart through every round of every write of the run. */
  ghost predicate ApartRun(vol: Volume, calls: seq<Call>)
    requires vol.Sized()
    decreases |calls|
  {
    calls != [] && Known(vol, calls[0]) ==>
      var c, r := calls[0], Do(vol, calls[0]);
      && (c.Write? ==> ApartThroughout(vol, c.ino, c.data, c.offset))
      && (r.Done? ==> ApartRun(r.value.next, calls[1..]))
  }

  lemma ApartRunOnce(vol: Volume, calls: seq<Call>)
    requires vol.Sized() && calls != [] && Known(vol, calls[0])
    ensures var c, r := calls[0], Do(vol, calls[0]);
      ApartRun(vol, calls) <==>
        && (c.Write? ==> ApartThroughout(vol, c.ino, c.data, c.offset))
        && (r.Done? ==> ApartRun(r.value.next, calls[1..]))
  {
    hide Do, ApartThroughout;
  }

  /** The condition of `RunPlain` is exact, over runs as for one write. */
  lemma {:induction false} RunExact(vol: Volume, calls: seq<Call>)
    requires Viewed(vol) && AllowedRun(View(vol), calls) && Run(vol, calls).Done?
    ensures ApartRun(vol, calls) <==> ServedRun(vol, calls)
    decreases |calls|
  {
    hide Do, View, Viewed, Plain, Served, ApartThroughout;
    if calls == [] {
    } else {
      KnownAllowed(vol, calls[0]);
      RunOnce(vol, calls);
      ApartRunOnce(vol, calls);
      ServedExact(vol, calls[0]);
      if Served(vol, calls[0]) {
        CallPlain(vol, calls[0]);
        RunExact(Do(vol, calls[0]).value.next, calls[1..]);
      }
    }
  }

  lemma ServedExact(vol: Volume, c: Call)
    requires Viewed(vol) && Known(vol, c) && Do(vol, c).Done?
    ensures Served(vol, c) <==> (c.Write? ==> ApartThroughout(vol, c.ino, c.data, c.offset))
  {
    hide Value, CleanWrite, WriteFrom, ReadFrom, TruncateFrom, ApartThroughout, Apart;
    if c.Write? {
      WriteExact(vol, c.ino, c.data, c.offset);
    }
  }

  // ---------- Runs that can be known beforehand to be served ----------

  /** Writes that end below the size or within the direct blocks. */
  predicate Modest(files: Files, c: Call) {
    c.Write? && c.ino in files ==> c.offset + |c.data| <= Max(|files[c.ino]|, DIRECT * BLOCK_SIZE)
  }

  /** Any writes while the volume is clean, which it is until the first truncation, and modest ones
      from then on. */
  predicate Careful(files: Files, calls: seq<Call>, clean: bool)
    requires AllowedRun(files, calls)
    decreases |calls|
  {
    calls != [] ==>
      && (clean || Modest(files, calls[0]))
      && Careful(Plain(files, calls[0]).next, calls[1..], clean && !calls[0].Truncate?)
  }

  lemma ModestServed(vol: Volume, c: Call)
    requires Viewed(vol) && Allowed(View(vol), c) && Modest(View(vol), c)
    ensures vol.Sized() && Known(vol, c) && Served(vol, c)
  {
    hide Good, Value, CleanWrite, SettledWrite;
    GoodView(vol);
    if c.Write? {
      InPlaceSettled(vol, c.ino, |c.data|, c.offset);
      SettledWriteClean(vol, c.ino, c.data, c.offset);
    }
  }

  /** A condition on the calls alone.  On a volume whose free zones read as zeros (`clean`) any
      writes behave as on byte sequences up to the first truncation; after it, and on any volume
      from the start, those that end below the size or within the direct blocks do, whatever the
      free zones hold by then. */
  lemma {:induction false} CarefulRunPlain(vol: Volume, calls: seq<Call>, clean: bool)
    requires Viewed(vol) && AllowedRun(View(vol), calls) && Careful(View(vol), calls, clean)
    requires clean ==> FreeClean(vol)
    ensures var r := Run(vol, calls);
      && (r.Done? ==> Viewed(r.value.0) && (View(r.value.0), r.value.1) == PlainRun(View(vol), calls))
      && (forall why :: r == Halt(why) <==> Stopped(vol, calls, why))
    decreases |calls|
  {
    hide Agrees, Do, View, Viewed, Plain, Excused, Served, Modest, FreeClean;
    if calls == [] {
    } else {
      var still := clean && !calls[0].Truncate?;
      if clean {
        FreshServed(vol, calls[0]);
      } else {
        ModestServed(vol, calls[0]);
      }
      RunOnce(vol, calls);
      CallPlain(vol, calls[0]);
      AgreesStops(vol, calls[0]);
      StoppedOnce(vol, calls);
      var r := Do(vol, calls[0]);
      if r.Done? {
        CarefulRunPlain(r.value.next, calls[1..], still);
      }
    }
  }

  lemma FreshServed(vol: Volume, c: Call)
    requires Viewed(vol) && Allowed(View(vol), c) && FreeClean(vol)
    ensures Known(vol, c) && Served(vol, c)
    ensures Do(vol, c).Done? && !c.Truncate? ==> FreeClean(Do(vol, c).value.next)
  {
    hide Good, Value, CleanWrite, WriteFrom, ReadFrom, TruncateFrom;
    GoodView(vol);
    if c.Write? {
      FreeCleanWrite(vol, c.ino, c.data, c.offset);
    } else {
      SameFree(vol, Do(vol, Create(c.ino)).value.next);
    }
  }

  lemma SameFree(vol: Volume, v: Volume)
    requires vol.Sized() && FreeClean(vol) && v == vol.(files := v.files)
    ensures FreeClean(v)
  {
    assert forall z: Zone | v.first <= z < v.zones :: v.Used(z) <==> vol.Used(z);
    assert forall z: Zone :: v.Block(z) == vol.Block(z);
  }
}
