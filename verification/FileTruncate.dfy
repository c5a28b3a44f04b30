/** Freeing all blocks of a file (src/fs/bmap.c, src/fs/inode.c): each is freed exactly once,
    and no other file loses one. */
module FileTruncate {
  import opened Outcomes
  import opened FileBlocks
  import opened FileInvariant
  import opened FileContents

  // ---------- bfree and inode_truncate ----------

  /** `bfree` on a volume with one bitmap block.  The bitmap block is chosen without the offset
      of the first data zone, so a zone above BLOCK_BITS asks for a second one: rejected. */
  function Bfree(vol: Volume, z: Zone): (r: Outcome<Volume>)
    requires vol.Sized()
    ensures r.Done? ==> r.value == vol.(zmap := r.value.zmap) && |r.value.zmap| == BLOCK_BITS
  {
    if z >= vol.zones || z > BLOCK_BITS then Halt(Rejected)
    else if z < vol.first - 1 || !vol.zmap[z - vol.first + 1] then Halt(CountCheck)
    else Done(vol.(zmap := vol.zmap[z - vol.first + 1 := false]))
  }

  /** `inode_bfree` for a slot that holds `z`. */
  function FreeTree(vol: Volume, z: Zone, level: nat): (r: Outcome<Volume>)
    requires vol.Sized()
    ensures r.Done? ==> r.value == vol.(zmap := r.value.zmap) && |r.value.zmap| == BLOCK_BITS
    decreases level, 513
  {
    if z == 0 then Done(vol)
    else if level == 0 then Bfree(vol, z)
    else
      var v :- FreeEntries(vol, z, level, 0);
      Bfree(v, z)
  }

  /** Its loop over the entries of index block `z`, from entry `i` on. */
  function FreeEntries(vol: Volume, z: Zone, level: nat, i: nat): (r: Outcome<Volume>)
    requires vol.Sized() && level > 0 && i <= INDEXES
    ensures r.Done? ==> r.value == vol.(zmap := r.value.zmap) && |r.value.zmap| == BLOCK_BITS
    decreases level, INDEXES - i
  {
    if i == INDEXES then Done(vol)
    else
      var v :- FreeTree(vol, Entry(vol.Block(z), i), level - 1);
      FreeEntries(v, z, level, i + 1)
  }

  /** One round of the loop. */
  lemma EntriesOnce(v: Volume, z: Zone, level: nat, i: nat)
    requires v.Sized() && level > 0 && i <= INDEXES
    ensures i == INDEXES ==> FreeEntries(v, z, level, i) == Done(v)
    ensures i < INDEXES ==>
      var t := FreeTree(v, Entry(v.Block(z), i), level - 1);
      FreeEntries(v, z, level, i) == if t.Halt? then Halt(t.why) else FreeEntries(t.value, z, level, i + 1)
  {
    hide FreeTree;
  }

  lemma TreeOnce(v: Volume, z: Zone, level: nat)
    requires v.Sized()
    ensures z == 0 ==> FreeTree(v, z, level) == Done(v)
    ensures z != 0 && level == 0 ==> FreeTree(v, z, level) == Bfree(v, z)
    ensures z != 0 && level > 0 ==>
      var e := FreeEntries(v, z, level, 0);
      FreeTree(v, z, level) == if e.Halt? then Halt(e.why) else Bfree(e.value, z)
  {
    hide FreeEntries;
  }

  function TopLevel(i: TopIndex): nat {
    if i < 7 then 0 else i - 6
  }

  /** `inode_truncate` of a regular file or directory, from top slot `i` on. */
  function TruncateFrom(vol: Volume, ino: nat, i: nat): (r: Outcome<Volume>)
    requires vol.Sized() && ino in vol.files && i <= 9
    ensures r.Done? ==> r.value.Sized()
    decreases 9 - i
  {
    var file := vol.files[ino];
    if i == 9 then Done(vol.(files := vol.files[ino := file.(size := 0)]))
    else
      var v :- FreeTree(vol, file.zone[i], TopLevel(i));
      TruncateFrom(v.(files := v.files[ino := file.(zone := file.zone[i := 0])]), ino, i + 1)
  }

  lemma TruncateOnce(v: Volume, ino: nat, i: nat)
    requires v.Sized() && ino in v.files && i <= 9
    ensures i == 9 ==> TruncateFrom(v, ino, i) == Done(v.(files := v.files[ino := v.files[ino].(size := 0)]))
    ensures i < 9 ==>
      var file := v.files[ino];
      var t := FreeTree(v, file.zone[i], TopLevel(i));
      TruncateFrom(v, ino, i) ==
        if t.Halt? then Halt(t.why)
        else TruncateFrom(t.value.(files := t.value.files[ino := file.(zone := file.zone[i := 0])]), ino, i + 1)
  {
    hide FreeTree;
  }

  // ---------- The order in which slots are freed ----------

  /** Entries come before the index block that lists them. */
  function Pos(s: Slot): nat {
    match s
    case Top(n) => if n < 7 then n else if n == 7 then 519 else 520 + 512 * 513
    case Ind(i) => 7 + i
    case Dbl(i) => 520 + i * 513 + 512
    case Leaf(i, j) => 520 + i * 513 + j
  }

  const LAST: nat := 521 + 512 * 513

  /** The position at which the freeing of slot `s` and all below it starts. */
  function Start(s: Slot): nat {
    match s
    case Top(n) => if n < 7 then n else if n == 7 then 7 else 520
    case Ind(i) => Pos(s)
    case Dbl(i) => 520 + i * 513
    case Leaf(i, j) => Pos(s)
  }

  function Level(s: Slot): nat {
    match s
    case Top(n) => TopLevel(n)
    case Ind(_) => 0
    case Dbl(_) => 1
    case Leaf(_, _) => 0
  }

  lemma PosInjective(s: Slot, t: Slot)
    ensures Pos(s) == Pos(t) ==> s == t
    ensures Start(s) <= Pos(s) < LAST
  {
  }

  /** The slots between the start of `s` and `s` itself are those below it. */
  lemma BetweenIsBelow(s: Slot, t: Slot)
    requires IsIndex(s) && Start(s) <= Pos(t) < Pos(s)
    ensures !t.Top? && (Parent(t) == s || (!Parent(t).Top? && Parent(Parent(t)) == s))
  {
  }

  // ---------- The bitmap on the way ----------

  ghost predicate Gone(o: Volume, ino: nat, n: nat, z: Zone) {
    exists s: Slot :: Pos(s) < n && Value(o, Key(ino, s)) == z
  }

  /** `v` is `o` with the zones in the slots before position `n` freed. */
  ghost predicate FreedTo(o: Volume, v: Volume, ino: nat, n: nat)
    requires o.Sized()
  {
    && v.Sized() && v.blocks == o.blocks && v.first == o.first && v.zones == o.zones && v.zmap[0] == o.zmap[0]
    && forall z: Zone | o.first <= z < o.zones :: v.Used(z) <==> o.Used(z) && !Gone(o, ino, n, z)
  }

  /** The zones in the slots between two positions are ones `bfree` can handle. */
  ghost predicate LowZones(o: Volume, ino: nat, a: nat, b: nat) {
    forall s: Slot | a <= Pos(s) < b :: Value(o, Key(ino, s)) <= BLOCK_BITS
  }

  lemma FreedSkip(o: Volume, v: Volume, ino: nat, a: nat, b: nat)
    requires o.Sized() && FreedTo(o, v, ino, a) && a <= b
    requires forall s: Slot | a <= Pos(s) < b :: Value(o, Key(ino, s)) == 0
    ensures FreedTo(o, v, ino, b) && LowZones(o, ino, a, b)
  {
    hide Value;
  }

  /** Freeing the zone of one slot. */
  lemma FreeOne(o: Volume, v: Volume, ino: nat, s: Slot)
    requires Apart(o) && FreedTo(o, v, ino, Pos(s)) && Value(o, Key(ino, s)) != 0
    ensures v.Sized()
    ensures var r := Bfree(v, Value(o, Key(ino, s)));
      && (r.Done? <==> Value(o, Key(ino, s)) <= BLOCK_BITS)
      && (r.Halt? ==> r.why == Rejected)
      && (r.Done? ==> FreedTo(o, r.value, ino, Pos(s) + 1))
  {
    hide Value, Pos;
    var z := Value(o, Key(ino, s));
    assert o.Used(z);
    forall t: Slot | Pos(t) < Pos(s) ensures Value(o, Key(ino, t)) != z {
      assert Key(ino, t) != Key(ino, s);
    }
    assert v.Used(z);
    forall t: Slot ensures Pos(t) < Pos(s) + 1 <==> Pos(t) < Pos(s) || t == s {
      PosInjective(s, t);
    }
    var r := Bfree(v, z);
    if r.Done? {
      forall y: Zone | o.first <= y < o.zones ensures r.value.Used(y) <==> o.Used(y) && !Gone(o, ino, Pos(s) + 1, y) {
        assert r.value.Used(y) <==> v.Used(y) && y != z;
        if y == z {
          assert Gone(o, ino, Pos(s) + 1, y);
        } else {
          assert Gone(o, ino, Pos(s) + 1, y) <==> Gone(o, ino, Pos(s), y);
        }
      }
    }
  }

  // ---------- Whole subtrees ----------

  /** Position of the first slot belonging to entry `i` of index slot `s`. */
  function EntryStart(s: Slot, i: nat): nat
    requires IsIndex(s) && i <= INDEXES
  {
    if s == Top(7) then 7 + i else if s == Top(8) then 520 + i * 513 else 520 + s.i * 513 + i
  }

  lemma EntryStarts(s: Slot, i: nat)
    requires IsIndex(s) && i <= INDEXES
    ensures EntryStart(s, 0) == Start(s)
    ensures i < INDEXES ==>
      && Start(Child(s, i)) == EntryStart(s, i) && Pos(Child(s, i)) + 1 == EntryStart(s, i + 1)
      && Level(Child(s, i)) == Level(s) - 1
    ensures EntryStart(s, INDEXES) == Pos(s)
    ensures Level(s) > 0
  {
  }

  lemma ChildValue(o: Volume, v: Volume, ino: nat, s: Slot, i: Index)
    requires IsIndex(s) && Value(o, Key(ino, s)) != 0 && v.blocks == o.blocks
    ensures Value(o, Key(ino, Child(s, i))) == Entry(v.Block(Value(o, Key(ino, s))), i)
  {
    hide Value;
    ValueBelow(o, Key(ino, Child(s, i)));
  }

  lemma LowZonesSplit(o: Volume, ino: nat, a: nat, b: nat, c: nat)
    requires a <= b <= c
    ensures LowZones(o, ino, a, c) <==> LowZones(o, ino, a, b) && LowZones(o, ino, b, c)
  {
    hide Value, Pos;
  }

  lemma LowZonesOne(o: Volume, ino: nat, s: Slot)
    ensures LowZones(o, ino, Pos(s), Pos(s) + 1) <==> Value(o, Key(ino, s)) <= BLOCK_BITS
  {
    hide Value, Pos;
    forall t: Slot ensures Pos(t) == Pos(s) ==> t == s {
      PosInjective(s, t);
    }
  }

  lemma EmptyTree(o: Volume, ino: nat, s: Slot)
    requires Value(o, Key(ino, s)) == 0
    ensures forall t: Slot | Start(s) <= Pos(t) < Pos(s) + 1 :: Value(o, Key(ino, t)) == 0
  {
    hide Value, Pos, Start;
    forall t: Slot | Start(s) <= Pos(t) < Pos(s) + 1 ensures Value(o, Key(ino, t)) == 0 {
      PosInjective(s, t);
      if t != s {
        NotIndexAlone(s);
        BetweenIsBelow(s, t);
        ValueBelow(o, Key(ino, t));
        if Parent(t) != s {
          ValueBelow(o, Key(ino, Parent(t)));
        }
      }
    }
  }

  lemma NotIndexAlone(s: Slot)
    ensures !IsIndex(s) ==> Start(s) == Pos(s) && Level(s) == 0
    ensures IsIndex(s) ==> Level(s) > 0
  {
  }

  /** The freeing of slot `s` from state `v`, as far as the bitmap is concerned. */
  ghost predicate Frees(o: Volume, ino: nat, a: nat, b: nat, r: Outcome<Volume>)
    requires o.Sized()
  {
    && (r.Done? <==> LowZones(o, ino, a, b))
    && (r.Halt? ==> r.why == Rejected)
    && (r.Done? ==> FreedTo(o, r.value, ino, b))
  }

  lemma {:induction false} FreeSlot(o: Volume, v: Volume, ino: nat, s: Slot)
    requires Apart(o) && v.Sized() && FreedTo(o, v, ino, Start(s))
    ensures Frees(o, ino, Start(s), Pos(s) + 1, FreeTree(v, Value(o, Key(ino, s)), Level(s)))
    decreases Level(s), 513
  {
    hide Value, Pos, Start, Level, Apart, FreedTo, LowZones, Bfree;
    ApartSized(o);
    var z := Value(o, Key(ino, s));
    PosInjective(s, s);
    NotIndexAlone(s);
    LowZonesSplit(o, ino, Start(s), Pos(s), Pos(s) + 1);
    LowZonesOne(o, ino, s);
    if z == 0 {
      EmptyTree(o, ino, s);
      FreedSkip(o, v, ino, Start(s), Pos(s) + 1);
    } else if !IsIndex(s) {
      FreeOne(o, v, ino, s);
      NoneBetween(o, ino, Start(s));
    } else {
      EntryStarts(s, 0);
      FreeEntriesFrom(o, v, ino, s, 0);
      var r := FreeEntries(v, z, Level(s), 0);
      if r.Done? {
        FreeOne(o, r.value, ino, s);
      }
    }
  }

  lemma NoneBetween(o: Volume, ino: nat, a: nat)
    ensures LowZones(o, ino, a, a)
  {
  }

  lemma {:induction false} FreeEntriesFrom(o: Volume, v: Volume, ino: nat, s: Slot, i: nat)
    requires Apart(o) && IsIndex(s) && i <= INDEXES && Value(o, Key(ino, s)) != 0
    requires v.Sized() && o.Sized() && Level(s) > 0 && FreedTo(o, v, ino, EntryStart(s, i))
    ensures Frees(o, ino, EntryStart(s, i), Pos(s), FreeEntries(v, Value(o, Key(ino, s)), Level(s), i))
    decreases Level(s), INDEXES - i
  {
    hide Value, Pos, Start, Level, Apart, FreedTo, LowZones, EntryStart, FreeTree;
    var z := Value(o, Key(ino, s));
    EntryStarts(s, i);
    FreedBlocks(o, v, ino, EntryStart(s, i));
    if i == INDEXES {
      NoneBetween(o, ino, Pos(s));
    } else {
      EntryStarts(s, i + 1);
      ChildValue(o, v, ino, s, i);
      FreeSlot(o, v, ino, Child(s, i));
      EntryOrder(s, i);
      LowZonesSplit(o, ino, EntryStart(s, i), EntryStart(s, i + 1), Pos(s));
      var r := FreeTree(v, Entry(v.Block(z), i), Level(s) - 1);
      if r.Done? {
        FreeEntriesFrom(o, r.value, ino, s, i + 1);
      }
    }
  }

  lemma EntryOrder(s: Slot, i: Index)
    requires IsIndex(s)
    ensures EntryStart(s, i) <= EntryStart(s, i + 1) <= Pos(s)
  {
  }

  lemma FreedBlocks(o: Volume, v: Volume, ino: nat, n: nat)
    requires o.Sized() && FreedTo(o, v, ino, n)
    ensures v.Sized() && v.blocks == o.blocks && v.first == o.first && v.zones == o.zones
  {
  }

  // ---------- inode_truncate ----------

  function TopStart(i: nat): nat
    requires i <= 9
  {
    if i <= 7 then i else if i == 8 then 520 else LAST
  }

  /** The zones of an inode whose first `i` are cleared. */
  function Cleared(zone: Zones, i: nat): (r: Zones)
    requires i <= 9
  {
    seq(9, j requires 0 <= j < 9 => if j < i then 0 else zone[j])
  }

  lemma {:induction false} TruncateLoop(o: Volume, v: Volume, ino: nat, i: nat)
    requires Apart(o) && ino in o.files && i <= 9 && v.Sized() && FreedTo(o, v, ino, TopStart(i))
    requires v.files == o.files[ino := o.files[ino].(zone := Cleared(o.files[ino].zone, i))]
    ensures var r := TruncateFrom(v, ino, i);
      && (r.Done? <==> LowZones(o, ino, TopStart(i), LAST))
      && (r.Halt? ==> r.why == Rejected)
      && (r.Done? ==>
            && FreedTo(o, r.value, ino, LAST)
            && r.value.files == o.files[ino := Inode(Cleared(o.files[ino].zone, 9), 0)])
    decreases 9 - i
  {
    hide Apart, FreedTo, LowZones, FreeTree;
    ApartSized(o);
    if i == 9 {
      NoneBetween(o, ino, LAST);
      FreedFiles(o, v, TruncateFrom(v, ino, i).value, ino, LAST);
    } else {
      var file := v.files[ino];
      assert Value(o, Key(ino, Top(i))) == file.zone[i];
      FreeSlot(o, v, ino, Top(i));
      LowZonesSplit(o, ino, TopStart(i), TopStart(i + 1), LAST);
      var r := FreeTree(v, file.zone[i], TopLevel(i));
      if r.Done? {
        var w := r.value.(files := r.value.files[ino := file.(zone := file.zone[i := 0])]);
        FreedFiles(o, r.value, w, ino, TopStart(i + 1));
        assert file.zone[i := 0] == Cleared(o.files[ino].zone, i + 1);
        TruncateLoop(o, w, ino, i + 1);
      }
    }
  }

  lemma FreedFiles(o: Volume, v: Volume, w: Volume, ino: nat, n: nat)
    requires o.Sized() && FreedTo(o, v, ino, n) && w == v.(files := w.files)
    ensures FreedTo(o, w, ino, n)
  {
    assert v.Sized() && w.Sized();
    assert forall z: Zone | o.first <= z < o.zones :: w.Used(z) <==> v.Used(z);
  }

  lemma NothingGone(o: Volume, ino: nat)
    requires Apart(o)
    ensures FreedTo(o, o, ino, 0)
  {
  }

  lemma AllPositions(o: Volume, ino: nat)
    ensures LowZones(o, ino, 0, LAST) <==> forall s: Slot :: Value(o, Key(ino, s)) <= BLOCK_BITS
  {
    hide Value, Pos;
    forall s: Slot ensures 0 <= Pos(s) < LAST {
      PosInjective(s, s);
    }
  }

  /** Slots after a truncation: the file's are empty, all others as before. */
  lemma TruncatedValues(o: Volume, v: Volume, ino: nat, k: Key)
    requires ino in o.files && v.blocks == o.blocks
    requires v.files == o.files[ino := Inode(Cleared(o.files[ino].zone, 9), 0)]
    ensures Value(v, k) == if k.ino == ino then 0 else Value(o, k)
  {
  }

  lemma TruncatedApart(o: Volume, v: Volume, ino: nat)
    requires Apart(o) && FreedTo(o, v, ino, LAST)
    requires forall k: Key :: Value(v, k) == if k.ino == ino then 0 else Value(o, k)
    ensures Apart(v)
    ensures forall z: Zone | o.first <= z < o.zones ::
      v.Used(z) <==> o.Used(z) && !exists s: Slot :: Value(o, Key(ino, s)) == z
  {
    hide Value, Pos;
    forall s: Slot ensures Pos(s) < LAST {
      PosInjective(s, s);
    }
    assert forall s: Slot :: Gone(o, ino, LAST, Value(o, Key(ino, s)));
    forall z: Zone | v.first <= z < v.zones && v.Used(z) ensures Held(v, z) {
      var k :| Value(o, k) == z;
      assert k == Key(k.ino, k.slot);
      assert k.ino != ino;
      assert Value(v, k) == z;
    }
    forall k: Key | Value(v, k) != 0 ensures v.Used(Value(v, k)) {
      assert o.Used(Value(o, k));
      forall s: Slot ensures Value(o, Key(ino, s)) != Value(o, k) {
        assert Key(ino, s) != k;
      }
    }
    forall z: Zone | o.first <= z < o.zones
      ensures Gone(o, ino, LAST, z) <==> exists s: Slot :: Value(o, Key(ino, s)) == z
    {
    }
  }

  /** The law of `inode_truncate`: it completes exactly when every zone of the file is one that
      `bfree` can handle; then each of the file's blocks has been freed, once, the file's slots
      are empty, and all other slots and all blocks are as before. */
  lemma TruncateEmpties(vol: Volume, ino: nat)
    requires Apart(vol) && ino in vol.files && vol.Sized()
    ensures var r := TruncateFrom(vol, ino, 0);
      && (r.Done? <==> forall s: Slot :: Value(vol, Key(ino, s)) <= BLOCK_BITS)
      && (r.Halt? ==> r.why == Rejected)
      && (r.Done? ==> var v := r.value;
            && Apart(v) && v.blocks == vol.blocks && v.first == vol.first && v.zones == vol.zones
            && v.files == vol.files[ino := Inode(seq(9, i => 0), 0)]
            && (forall z: Zone | vol.first <= z < vol.zones ::
                  v.Used(z) <==> vol.Used(z) && !exists s: Slot :: Value(vol, Key(ino, s)) == z)
            && (forall k: Key :: Value(v, k) == if k.ino == ino then 0 else Value(vol, k)))
  {
    hide Apart, FreedTo, LowZones, TruncateFrom, Value;
    NothingGone(vol, ino);
    assert vol.files[ino].(zone := Cleared(vol.files[ino].zone, 0)) == vol.files[ino];
    assert vol.files == vol.files[ino := vol.files[ino]];
    TruncateLoop(vol, vol, ino, 0);
    AllPositions(vol, ino);
    var r := TruncateFrom(vol, ino, 0);
    if r.Done? {
      var v := r.value;
      FreedBlocks(vol, v, ino, LAST);
      forall k: Key ensures Value(v, k) == if k.ino == ino then 0 else Value(vol, k) {
        TruncatedValues(vol, v, ino, k);
      }
      TruncatedApart(vol, v, ino);
      assert Cleared(vol.files[ino].zone, 9) == seq(9, i => 0);
    }
  }

  /** Truncation as seen from the bytes: the file is empty, all others are as before. */
  lemma TruncatedContents(vol: Volume, ino: nat)
    requires Good(vol) && ino in vol.files && vol.Sized() && TruncateFrom(vol, ino, 0).Done?
    ensures var v := TruncateFrom(vol, ino, 0).value;
      && Good(v) && v.files.Keys == vol.files.Keys && Content(v, ino) == []
      && forall j | j in vol.files && j != ino :: vol.files[j].size <= MAX_SIZE && Content(v, j) == Content(vol, j)
  {
    hide Value, Apart, DataSlot, TruncateFrom;
    TruncateEmpties(vol, ino);
    var v := TruncateFrom(vol, ino, 0).value;
    forall j | j in vol.files ensures NoHoles(v, j) {
      assert NoHoles(vol, j);
    }
    forall j, i | j in vol.files && j != ino && 0 <= i < vol.files[j].size && i < MAX_SIZE
      ensures ByteAt(v, j, i) == ByteAt(vol, j, i)
    {
    }
  }

  /** Truncation does not clear what it frees.  Free zones read as zeros afterwards exactly when
      all the file's own blocks did. */
  lemma TruncateClean(vol: Volume, ino: nat)
    requires Apart(vol) && ino in vol.files && vol.Sized() && FreeClean(vol) && TruncateFrom(vol, ino, 0).Done?
    ensures TruncateFrom(vol, ino, 0).value.Sized()
    ensures FreeClean(TruncateFrom(vol, ino, 0).value) <==>
      forall s: Slot | Value(vol, Key(ino, s)) != 0 :: vol.Block(Value(vol, Key(ino, s))) == ZeroBlock()
  {
    TruncateEmpties(vol, ino);
    var v := TruncateFrom(vol, ino, 0).value;
    hide TruncateFrom, Value;
    assert forall z: Zone :: v.Block(z) == vol.Block(z);
    if FreeClean(v) {
      forall s: Slot | Value(vol, Key(ino, s)) != 0 ensures vol.Block(Value(vol, Key(ino, s))) == ZeroBlock() {
        assert !v.Used(Value(vol, Key(ino, s)));
      }
    }
  }
}
