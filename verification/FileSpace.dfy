/** When a write finds room (src/fs/bmap.c, src/fs/inode.c): exactly when the volume has as many free
    zones as there are empty slots on the ways to the blocks written. */
module FileSpace {
  import opened Collections
  import opened Outcomes
  import opened Unsigned
  import opened FileBlocks
  import opened FileInvariant
  import opened FileContents

  /** The data zones that are not in use. */
  ghost function FreeZones(vol: Volume): set<Zone>
    requires vol.Sized()
  {
    set z: Zone | vol.first <= z < vol.zones && !vol.Used(z)
  }

  /** The empty slots on the way to block `b` of a file, from the slot number `i` of the way on. */
  ghost function EmptyFrom(vol: Volume, ino: nat, b: FileBlock, i: nat): set<Slot>
    requires i <= |Path(b)|
  {
    set s | s in Path(b)[i..] && Value(vol, Key(ino, s)) == 0
  }

  ghost function EmptyOn(vol: Volume, ino: nat, b: FileBlock): set<Slot> {
    set s | s in Path(b) && Value(vol, Key(ino, s)) == 0
  }

  /** The empty slots on the ways to all blocks that `n` bytes from `offset` on lie in. */
  ghost function EmptyFor(vol: Volume, ino: nat, n: nat, offset: nat): set<Slot> {
    set b: FileBlock, s | Touched(ino, offset, n, ino, b) && s in Path(b) && Value(vol, Key(ino, s)) == 0 :: s
  }

  // ---------- bmap ----------

  /** One round: an empty slot takes one free zone. */
  lemma FillExact(vol: Volume, k: Key, b: FileBlock)
    requires Apart(vol) && vol.Sized() && Fillable(vol, k) && k.slot in Path(b) && CleanFill(vol, k)
    ensures var r := Fill(vol, k, true);
      && (r.Done? <==> FreeZones(vol) != {})
      && (r.Done? ==>
            && Grown(vol, r.value, k.ino, b) && r.value.Sized()
            && (forall l: Key :: Value(r.value, l) == 0 <==> l != k && Value(vol, l) == 0)
            && |FreeZones(r.value)| == |FreeZones(vol)| - 1)
  {
    hide Value, Apart, Balloc;
    BallocFresh(vol);
    NoFree(vol);
    if Balloc(vol).Done? {
      var g := Balloc(vol).value;
      var v := Fill(vol, k, true).value;
      FillGrows(vol, k, g.zone, v, b);
      FillValues(vol, k, g.zone, v);
      SameWithValue(vol, k, g.zone, v);
      FilledSlot(vol, k, g.zone, v);
      TakesOne(vol, v, g.zone);
    }
  }

  lemma NoFree(vol: Volume)
    requires vol.Sized()
    ensures FreeZones(vol) == {} <==> forall z: Zone | vol.first <= z < vol.zones :: vol.Used(z)
  {
    if forall z: Zone | vol.first <= z < vol.zones :: vol.Used(z) {
      assert FreeZones(vol) == {};
    } else {
      var z: Zone :| vol.first <= z < vol.zones && !vol.Used(z);
      assert z in FreeZones(vol);
    }
  }

  lemma TakesOne(vol: Volume, v: Volume, z: Zone)
    requires vol.Sized() && v.Sized() && vol.first <= z < vol.zones && !vol.Used(z)
    requires v.first == vol.first && v.zones == vol.zones && v.zmap == vol.zmap[z - vol.first + 1 := true]
    ensures |FreeZones(v)| == |FreeZones(vol)| - 1
  {
    assert FreeZones(v) == FreeZones(vol) - {z};
  }

  /** The walk from slot `i` of the way on. */
  lemma {:induction false} PathExactly(vol: Volume, ino: nat, b: FileBlock, i: nat)
    requires i < |Path(b)| && Apart(vol) && ino in vol.files && vol.Sized() && CleanFrom(vol, ino, b, i)
    requires i > 0 ==> Value(vol, Key(ino, Path(b)[i - 1])) != 0
    ensures var r := BmapPath(vol, ino, Path(b)[i..], true);
      && (r.Done? <==> |EmptyFrom(vol, ino, b, i)| <= |FreeZones(vol)|)
      && (r.Done? ==> |FreeZones(r.value.vol)| == |FreeZones(vol)| - |EmptyFrom(vol, ino, b, i)|)
    decreases |Path(b)| - i
  {
    hide Value, Apart, Fill, CleanFill, CleanFrom, Path, FreeZones;
    PathParents(b);
    CleanOnce(vol, ino, b, i);
    PathOnce(vol, ino, Path(b), i, true);
    var k := Key(ino, Path(b)[i]);
    var f := Fill(vol, k, true);
    if Value(vol, k) == 0 {
      FillExact(vol, k, b);
      EmptySome(vol, ino, b, i);
    } else {
      FilledAlready(vol, k);
    }
    if f.Done? {
      NextEmpty(vol, f.value, ino, b, i);
      if i + 1 < |Path(b)| {
        PathExactly(f.value, ino, b, i + 1);
      }
    }
  }

  lemma FilledAlready(vol: Volume, k: Key)
    requires vol.Sized() && k.ino in vol.files && Value(vol, k) != 0
    ensures Fill(vol, k, true) == Done(vol)
  {
    hide Value;
  }

  lemma EmptySome(vol: Volume, ino: nat, b: FileBlock, i: nat)
    requires i < |Path(b)| && Value(vol, Key(ino, Path(b)[i])) == 0
    ensures |EmptyFrom(vol, ino, b, i)| > 0
  {
    hide Value, Path;
    assert Path(b)[i] in EmptyFrom(vol, ino, b, i);
  }

  lemma NextEmpty(vol: Volume, v: Volume, ino: nat, b: FileBlock, i: nat)
    requires i < |Path(b)|
    requires Value(vol, Key(ino, Path(b)[i])) != 0 ==> v == vol
    requires Value(vol, Key(ino, Path(b)[i])) == 0 ==>
      forall l: Key :: Value(v, l) == 0 <==> l != Key(ino, Path(b)[i]) && Value(vol, l) == 0
    ensures |EmptyFrom(vol, ino, b, i)|
         == |EmptyFrom(v, ino, b, i + 1)| + if Value(vol, Key(ino, Path(b)[i])) == 0 then 1 else 0
    ensures Value(v, Key(ino, Path(b)[i])) != 0
    ensures i + 1 == |Path(b)| ==> EmptyFrom(v, ino, b, i + 1) == {}
  {
    var s := Path(b)[i];
    var all, rest := EmptyFrom(vol, ino, b, i), EmptyFrom(v, ino, b, i + 1);
    PathDistinct(b, i);
    NextSlots(vol, v, ino, b, i);
    hide Value, Path, EmptyFrom;
    assert all == if Value(vol, Key(ino, s)) == 0 then rest + {s} else rest;
  }

  lemma NextSlots(vol: Volume, v: Volume, ino: nat, b: FileBlock, i: nat)
    requires i < |Path(b)| && Path(b)[i] !in Path(b)[i + 1..]
    requires Value(vol, Key(ino, Path(b)[i])) != 0 ==> v == vol
    requires Value(vol, Key(ino, Path(b)[i])) == 0 ==>
      forall l: Key :: Value(v, l) == 0 <==> l != Key(ino, Path(b)[i]) && Value(vol, l) == 0
    ensures forall t :: t in EmptyFrom(vol, ino, b, i) <==>
      t in EmptyFrom(v, ino, b, i + 1) || (t == Path(b)[i] && Value(vol, Key(ino, t)) == 0)
    ensures Path(b)[i] !in EmptyFrom(v, ino, b, i + 1)
  {
    hide Value, Path;
    assert Path(b)[i..] == [Path(b)[i]] + Path(b)[i + 1..];
    forall t
      ensures t in EmptyFrom(vol, ino, b, i) <==>
        t in EmptyFrom(v, ino, b, i + 1) || (t == Path(b)[i] && Value(vol, Key(ino, t)) == 0)
    {
      assert t in Path(b)[i..] <==> t == Path(b)[i] || t in Path(b)[i + 1..];
      if t != Path(b)[i] {
        assert Value(v, Key(ino, t)) == 0 <==> Value(vol, Key(ino, t)) == 0;
      }
    }
  }

  lemma PathDistinct(b: FileBlock, i: nat)
    requires i < |Path(b)|
    ensures Path(b)[i] !in Path(b)[i + 1..]
  {
  }

  /** `bmap` with `create` completes exactly when there is a free zone for each empty slot on the way,
      and takes just those. */
  lemma BmapServed(vol: Volume, ino: nat, b: FileBlock)
    requires Apart(vol) && ino in vol.files && vol.Sized() && CleanPath(vol, ino, b)
    ensures var r := Bmap(vol, ino, b, true);
      && (r.Done? <==> |EmptyOn(vol, ino, b)| <= |FreeZones(vol)|)
      && (r.Done? ==> |FreeZones(r.value.vol)| == |FreeZones(vol)| - |EmptyOn(vol, ino, b)|)
      && (r.Halt? ==> r.why == OutOfMemory)
  {
    PathExactly(vol, ino, b, 0);
    BmapCreates(vol, ino, b);
    assert Path(b)[0..] == Path(b);
    assert EmptyFrom(vol, ino, b, 0) == EmptyOn(vol, ino, b);
  }

  // ---------- inode_write ----------

  /** On a way to a mapped block no slot is empty. */
  lemma WayFilled(vol: Volume, ino: nat, b: FileBlock)
    requires Value(vol, Key(ino, DataSlot(b))) != 0
    ensures EmptyOn(vol, ino, b) == {}
  {
    hide Value, Path;
    forall s | s in Path(b) ensures Value(vol, Key(ino, s)) != 0 {
      var i :| 0 <= i < |Path(b)| && Path(b)[i] == s;
      if Value(vol, Key(ino, s)) == 0 {
        EmptyBelow(vol, ino, b, i);
      }
    }
  }

  /** One round of a write: which slots are empty, and how many zones are free, afterwards. */
  lemma RoundTakes(vol: Volume, ino: nat, data: seq<Byte>, offset: nat)
    requires Apart(vol) && ino in vol.files && vol.Sized() && data != []
    requires offset / BLOCK_SIZE < TOTAL_BLOCKS && CleanPath(vol, ino, offset / BLOCK_SIZE)
    requires Bmap(vol, ino, offset / BLOCK_SIZE, true).Done?
    ensures var b: FileBlock := offset / BLOCK_SIZE;
      var g, n := Bmap(vol, ino, b, true).value, ChunkSize(offset, |data|);
      var w := WriteChunk(g.vol, ino, g.zone, offset, data[..n]);
      && |FreeZones(w)| == |FreeZones(vol)| - |EmptyOn(vol, ino, b)|
      && (forall s :: Value(w, Key(ino, s)) == 0 <==> s !in Path(b) && Value(vol, Key(ino, s)) == 0)
  {
    hide Value, Apart, BmapPath, CleanPath, Path, WriteChunk;
    var b: FileBlock := offset / BLOCK_SIZE;
    BmapServed(vol, ino, b);
    BmapCreates(vol, ino, b);
    var g, n := Bmap(vol, ino, b, true).value, ChunkSize(offset, |data|);
    var w := WriteChunk(g.vol, ino, g.zone, offset, data[..n]);
    DataSlotInjective(b, b);
    WayFilled(g.vol, ino, b);
    SameFree(g.vol, ino, g.zone, offset, data[..n]);
    forall s ensures Value(w, Key(ino, s)) == 0 <==> s !in Path(b) && Value(vol, Key(ino, s)) == 0 {
      ChunkValues(g.vol, ino, g.zone, offset, data[..n], Key(ino, s), Key(ino, DataSlot(b)));
      assert s in Path(b) ==> s !in EmptyOn(g.vol, ino, b);
    }
  }

  lemma SameFree(vol: Volume, ino: nat, z: Zone, offset: nat, bytes: seq<Byte>)
    requires vol.Sized() && ino in vol.files && offset % BLOCK_SIZE + |bytes| <= BLOCK_SIZE
    ensures FreeZones(WriteChunk(vol, ino, z, offset, bytes)) == FreeZones(vol)
  {
    var w := WriteChunk(vol, ino, z, offset, bytes);
    assert forall y: Zone | vol.first <= y < vol.zones :: w.Used(y) <==> vol.Used(y);
  }

  /** The empty slots for a write are those of its first block and those for the rest. */
  lemma EmptySplit(vol: Volume, w: Volume, ino: nat, left: nat, offset: nat)
    requires left > 0 && offset / BLOCK_SIZE < TOTAL_BLOCKS
    requires var b: FileBlock := offset / BLOCK_SIZE;
      forall s :: Value(w, Key(ino, s)) == 0 <==> s !in Path(b) && Value(vol, Key(ino, s)) == 0
    ensures var b: FileBlock := offset / BLOCK_SIZE;
      var n := ChunkSize(offset, left);
      |EmptyFor(vol, ino, left, offset)| == |EmptyOn(vol, ino, b)| + |EmptyFor(w, ino, left - n, offset + n)|
  {
    hide Value, Path, Touched;
    var b: FileBlock, n: nat := offset / BLOCK_SIZE, ChunkSize(offset, left);
    var all, first, rest := EmptyFor(vol, ino, left, offset), EmptyOn(vol, ino, b), EmptyFor(w, ino, left - n, offset + n);
    forall s | s in all ensures s in first + rest {
      var c: FileBlock :| Touched(ino, offset, left, ino, c) && s in Path(c) && Value(vol, Key(ino, s)) == 0;
      FirstOrRest(ino, offset, left, c);
    }
    forall s | s in first + rest ensures s in all {
      if s in first {
        FirstOrRest(ino, offset, left, b);
      } else {
        var c: FileBlock :| Touched(ino, offset + n, left - n, ino, c) && s in Path(c) && Value(w, Key(ino, s)) == 0;
        FirstOrRest(ino, offset, left, c);
      }
    }
    assert all == first + rest;
    assert first !! rest;
  }

  lemma FirstOrRest(ino: nat, offset: nat, left: nat, c: FileBlock)
    requires left > 0
    ensures var n := ChunkSize(offset, left);
      Touched(ino, offset, left, ino, c) <==> c == offset / BLOCK_SIZE || Touched(ino, offset + n, left - n, ino, c)
  {
    var n := ChunkSize(offset, left);
    ChunkWhole(offset, left);
    TouchedTwice(ino, offset, n, left - n, ino, c);
    OneBlock(offset, n, c);
  }

  lemma NoRoomBehind(vol: Volume, ino: nat, n: nat, offset: nat)
    requires n == 0 || offset / BLOCK_SIZE >= TOTAL_BLOCKS
    ensures EmptyFor(vol, ino, n, offset) == {}
  {
    hide Value, Path;
  }

  /** `inode_write` completes exactly when the file does not become too large and there is a free zone
      for each empty slot on the ways to the blocks written; it runs out of room exactly when there is
      not. */
  lemma {:induction false} WriteServed(vol: Volume, ino: nat, data: seq<Byte>, offset: nat)
    requires Apart(vol) && ino in vol.files && vol.Sized() && CleanWrite(vol, ino, data, offset)
    ensures var r, room := WriteFrom(vol, ino, data, offset), |EmptyFor(vol, ino, |data|, offset)| <= |FreeZones(vol)|;
      && (r == Halt(OutOfMemory) <==> !room)
      && (r == Halt(Rejected) <==> room && data != [] && offset + |data| > MAX_SIZE)
      && (r.Done? <==> room && (data == [] || offset + |data| <= MAX_SIZE))
    decreases |data|
  {
    hide Value, WriteFrom, CleanWrite, WriteChunk, BmapPath, CleanPath, Wrote, Apart, FreeZones, EmptyFor;
    WriteOnce(vol, ino, data, offset);
    if data == [] || offset / BLOCK_SIZE >= TOTAL_BLOCKS {
      NoRoomBehind(vol, ino, |data|, offset);
    } else {
      var b: FileBlock, n: nat := offset / BLOCK_SIZE, ChunkSize(offset, |data|);
      CleanWriteOnce(vol, ino, data, offset);
      RoundWrote(vol, ino, data, offset);
      BmapServed(vol, ino, b);
      var g := Bmap(vol, ino, b, true);
      if g.Done? {
        var w := WriteChunk(g.value.vol, ino, g.value.zone, offset, data[..n]);
        WroteApart(vol, w, ino, data[..n], offset);
        RoundTakes(vol, ino, data, offset);
        EmptySplit(vol, w, ino, |data|, offset);
        WriteServed(w, ino, data[n..], offset + n);
        RoomInBlock(offset, n);
      } else {
        FirstNeeds(vol, ino, |data|, offset);
      }
    }
  }

  lemma FirstNeeds(vol: Volume, ino: nat, n: nat, offset: nat)
    requires n > 0 && offset / BLOCK_SIZE < TOTAL_BLOCKS
    ensures |EmptyOn(vol, ino, offset / BLOCK_SIZE)| <= |EmptyFor(vol, ino, n, offset)|
  {
    hide Value, Path, Touched;
    FirstOrRest(ino, offset, n, offset / BLOCK_SIZE);
    SubsetSize(EmptyOn(vol, ino, offset / BLOCK_SIZE), EmptyFor(vol, ino, n, offset));
  }
}
