/** How files come to share blocks or cannot be freed: blocks are handed out as they were left, and
    high zones cannot be given back (src/fs/bmap.c, src/fs/inode.c). */
module StaleBlocks {
  import opened Outcomes
  import opened Bitmaps
  import opened Unsigned
  import opened FileBlocks
  import opened FileInvariant
  import opened IndexBlocks
  import opened FileContents
  import opened FileTruncate

  // ---------- The lowest zones ----------

  /** Exactly the lowest `k` data zones are marked used. */
  predicate Packed(vol: Volume, k: nat) {
    && vol.Sized() && vol.zmap[0]
    && forall z: Zone | vol.first <= z < vol.zones :: vol.Used(z) <==> z < vol.first + k
  }

  lemma TakesNext(vol: Volume, k: nat)
    requires Packed(vol, k) && vol.first + k < vol.zones
    ensures var z := vol.first + k;
      Balloc(vol) == Done(Grant(vol.(zmap := vol.zmap[k + 1 := true]), z)) && !vol.Used(z)
  {
    assert !vol.Used(vol.first + k);
    assert forall s: nat | s < |vol.zmap| :: ClearRun(vol.zmap, s, 1) <==> !vol.zmap[s];
    assert ClearRun(vol.zmap, k + 1, 1);
    forall s: nat | s <= k ensures vol.zmap[s] {
      if s > 0 {
        assert vol.Used(s + vol.first - 1);
      }
    }
  }

  lemma PackedMore(vol: Volume, v: Volume, k: nat)
    requires Packed(vol, k) && v.Sized() && v.first == vol.first && v.zones == vol.zones && vol.first + k < vol.zones
    requires v.zmap == vol.zmap[k + 1 := true]
    ensures Packed(v, k + 1)
  {
    forall z: Zone | v.first <= z < v.zones ensures v.Used(z) <==> z < v.first + k + 1 {
      assert z != v.first + k ==> (v.Used(z) <==> vol.Used(z));
    }
  }

  lemma PackedSame(vol: Volume, v: Volume, k: nat)
    requires Packed(vol, k) && v.Sized() && v.first == vol.first && v.zones == vol.zones && v.zmap == vol.zmap
    ensures Packed(v, k)
  {
    assert forall z: Zone | v.first <= z < v.zones :: v.Used(z) <==> vol.Used(z);
  }

  /** Filling an empty slot when the lowest zones are used: it gets the next one. */
  lemma FillNext(vol: Volume, ino: nat, s: Slot, k: nat)
    requires Apart(vol) && Packed(vol, k) && vol.first + k < vol.zones && Fillable(vol, Key(ino, s))
    ensures var f := Fill(vol, Key(ino, s), true);
      && f.Done? && f.value.Sized() && Packed(f.value, k + 1) && f.value.first == vol.first && f.value.zones == vol.zones
      && f.value.files.Keys == vol.files.Keys
      && Value(f.value, Key(ino, s)) == vol.first + k && f.value.Block(vol.first + k) == vol.Block(vol.first + k)
    ensures Balloc(vol).Done? && Balloc(vol).value.zone == vol.first + k
    ensures IsIndex(s) ==> forall j: Index ::
      Value(Fill(vol, Key(ino, s), true).value, Key(ino, Child(s, j))) == Entry(vol.Block(vol.first + k), j)
  {
    hide Value, Apart, WithValue, Balloc;
    TakesNext(vol, k);
    BallocFresh(vol);
    var v := Fill(vol, Key(ino, s), true).value;
    assert v == WithValue(vol.(zmap := vol.zmap[vol.first + k - vol.first + 1 := true]), Key(ino, s), vol.first + k);
    FilledSlot(vol, Key(ino, s), vol.first + k, v);
    SameFiles(vol.(zmap := vol.zmap[k + 1 := true]), Key(ino, s), vol.first + k);
    PackedMore(vol, v, k);
    if IsIndex(s) {
      forall j: Index ensures Value(v, Key(ino, Child(s, j))) == Entry(vol.Block(vol.first + k), j) {
        StaleChild(vol, Key(ino, s), vol.first + k, v, j);
      }
    }
  }

  lemma SameFiles(vol: Volume, k: Key, z: Zone)
    requires k.ino in vol.files
    ensures var v := WithValue(vol, k, z);
      v.first == vol.first && v.zones == vol.zones && v.files.Keys == vol.files.Keys && v.zmap == vol.zmap
  {
    hide Value;
  }

  // ---------- Seven direct blocks ----------

  /** The slots of file `ino` in its inode are empty from number `k` on. */
  ghost predicate EmptyFrom(vol: Volume, ino: nat, k: nat) {
    ino in vol.files && forall n: TopIndex | k <= n :: Value(vol, Key(ino, Top(n))) == 0
  }

  /** Blocks from zone `z` on are as in the other volume. */
  predicate SameFrom(vol: Volume, v: Volume, z: nat) {
    vol.first == v.first && vol.zones == v.zones && forall y: Zone | z <= y :: v.Block(y) == vol.Block(y)
  }

  /** `v` is `vol` after direct block `k` of `ino` was mapped. */
  lemma DirectBmap(vol: Volume, ino: nat, k: nat)
    requires Apart(vol) && Packed(vol, k) && k < DIRECT && vol.first + k < vol.zones && EmptyFrom(vol, ino, k)
    ensures vol.Sized() && CleanPath(vol, ino, k)
    ensures var r := Bmap(vol, ino, k, true);
      && r.Done? && r.value.zone == vol.first + k && Packed(r.value.vol, k + 1)
      && r.value.vol.first == vol.first && r.value.vol.zones == vol.zones && r.value.vol.blocks == vol.blocks
      && r.value.vol.files.Keys == vol.files.Keys
      && Grown(vol, r.value.vol, ino, k)
  {
    hide Value, Apart, Balloc, CleanFrom, BmapPath;
    DirectSettled(vol, ino, k);
    SettledClean(vol, ino, k);
    assert Path(k) == [Top(k)];
    FillNext(vol, ino, Top(k), k);
    PathOnce(vol, ino, Path(k), 0, true);
    assert Path(k)[0..] == Path(k);
    BmapCreates(vol, ino, k);
    assert Bmap(vol, ino, k, true).value.vol.blocks == vol.blocks by {
      hide Fill;
      TopBlocks(vol, Key(ino, Top(k)));
    }
  }

  lemma TopBlocks(vol: Volume, k: Key)
    requires vol.Sized() && k.ino in vol.files && k.slot.Top? && Fill(vol, k, true).Done?
    ensures Fill(vol, k, true).value.blocks == vol.blocks
  {
    hide Value;
  }

  /** Slots of all other files are the same. */
  ghost predicate SameOthers(vol: Volume, w: Volume, ino: nat) {
    forall l: Key | l.ino != ino :: Value(w, l) == Value(vol, l)
  }

  /** A round of a write changes slots only where `bmap` did. */
  lemma ChunkKeeps(vol: Volume, ino: nat, data: seq<Byte>, offset: nat)
    requires Apart(vol) && ino in vol.files && vol.Sized() && data != []
    requires offset / BLOCK_SIZE < TOTAL_BLOCKS && CleanPath(vol, ino, offset / BLOCK_SIZE)
    requires Bmap(vol, ino, offset / BLOCK_SIZE, true).Done?
    ensures var g, n := Bmap(vol, ino, offset / BLOCK_SIZE, true).value, ChunkSize(offset, |data|);
      var w := WriteChunk(g.vol, ino, g.zone, offset, data[..n]);
      SameOthers(vol, w, ino) && forall l: Key :: Value(w, l) == Value(g.vol, l)
  {
    hide Value, Apart, BmapPath, CleanFrom, Path, DataSlot, WriteChunk;
    var b: FileBlock := offset / BLOCK_SIZE;
    BmapCreates(vol, ino, b);
    var g, n := Bmap(vol, ino, b, true).value, ChunkSize(offset, |data|);
    DataSlotInjective(b, b);
    forall l: Key ensures Value(WriteChunk(g.vol, ino, g.zone, offset, data[..n]), l) == Value(g.vol, l) {
      ChunkValues(g.vol, ino, g.zone, offset, data[..n], l, Key(ino, DataSlot(b)));
    }
  }

  /** Round `k` of a write from the start of an empty file. */
  lemma DirectRound(vol: Volume, ino: nat, data: seq<Byte>, k: nat)
    requires Apart(vol) && Packed(vol, k) && k < DIRECT && vol.first + k < vol.zones && EmptyFrom(vol, ino, k)
    requires |data| >= BLOCK_SIZE
    ensures vol.Sized()
    ensures var g := Bmap(vol, ino, k, true);
      && g.Done? && g.value.vol.Sized() && ino in g.value.vol.files
      && var w := WriteChunk(g.value.vol, ino, g.value.zone, k * BLOCK_SIZE, data[..BLOCK_SIZE]);
      && Apart(w) && Packed(w, k + 1) && EmptyFrom(w, ino, k + 1) && SameFrom(vol, w, vol.first + k + 1)
      && w.files.Keys == vol.files.Keys && SameOthers(vol, w, ino)
      && WriteFrom(vol, ino, data, k * BLOCK_SIZE) == WriteFrom(w, ino, data[BLOCK_SIZE..], (k + 1) * BLOCK_SIZE)
      && (CleanWrite(vol, ino, data, k * BLOCK_SIZE) <==> CleanWrite(w, ino, data[BLOCK_SIZE..], (k + 1) * BLOCK_SIZE))
  {
    hide Value, Apart, Bmap, Grown, CleanPath, WriteFrom, CleanWrite, Wrote;
    DirectBmap(vol, ino, k);
    var offset := k * BLOCK_SIZE;
    assert offset / BLOCK_SIZE == k && ChunkSize(offset, |data|) == BLOCK_SIZE;
    WriteOnce(vol, ino, data, offset);
    CleanWriteOnce(vol, ino, data, offset);
    RoundWrote(vol, ino, data, offset);
    var g := Bmap(vol, ino, k, true);
    var w := WriteChunk(g.value.vol, ino, g.value.zone, offset, data[..BLOCK_SIZE]);
    WroteApart(vol, w, ino, data[..BLOCK_SIZE], offset);
    ChunkKeeps(vol, ino, data, offset);
    PackedSame(g.value.vol, w, k + 1);
    forall n: TopIndex | k + 1 <= n ensures Value(w, Key(ino, Top(n))) == 0 {
      OtherTop(vol, g.value.vol, w, ino, k, n);
    }
  }

  lemma OtherTop(vol: Volume, v: Volume, w: Volume, ino: nat, k: FileBlock, n: TopIndex)
    requires k < DIRECT && k < n && Grown(vol, v, ino, k) && Value(vol, Key(ino, Top(n))) == 0
    requires ino in v.files && ino in w.files && w.files[ino].zone == v.files[ino].zone
    ensures Value(w, Key(ino, Top(n))) == 0
  {
    assert Value(w, Key(ino, Top(n))) == Value(v, Key(ino, Top(n)));
    assert Top(n) !in Path(k);
  }

  /** The first seven blocks of a write to an empty file take the seven lowest zones. */
  lemma {:induction false} SevenBlocks(vol: Volume, ino: nat, data: seq<Byte>, k: nat) returns (w: Volume)
    requires Apart(vol) && Packed(vol, k) && k <= DIRECT && vol.first + DIRECT <= vol.zones && EmptyFrom(vol, ino, k)
    requires |data| == (DIRECT - k) * BLOCK_SIZE + 1
    ensures vol.Sized() && w.Sized() && ino in w.files
    ensures Apart(w) && Packed(w, DIRECT) && EmptyFrom(w, ino, DIRECT) && SameFrom(vol, w, vol.first + DIRECT)
    ensures w.files.Keys == vol.files.Keys && SameOthers(vol, w, ino)
    ensures WriteFrom(vol, ino, data, k * BLOCK_SIZE) == WriteFrom(w, ino, data[|data| - 1..], DIRECT * BLOCK_SIZE)
    ensures CleanWrite(vol, ino, data, k * BLOCK_SIZE) <==> CleanWrite(w, ino, data[|data| - 1..], DIRECT * BLOCK_SIZE)
    decreases DIRECT - k
  {
    hide Value, Apart, Bmap, WriteFrom, CleanWrite, WriteChunk, EmptyFrom;
    if k == DIRECT {
      w := vol;
      assert data[|data| - 1..] == data;
      EmptyIn(vol, ino, k);
    } else {
      DirectRound(vol, ino, data, k);
      var g := Bmap(vol, ino, k, true);
      var v := WriteChunk(g.value.vol, ino, g.value.zone, k * BLOCK_SIZE, data[..BLOCK_SIZE]);
      w := SevenBlocks(v, ino, data[BLOCK_SIZE..], k + 1);
      assert data[BLOCK_SIZE..][|data| - BLOCK_SIZE - 1..] == data[|data| - 1..];
    }
  }

  lemma EmptyIn(vol: Volume, ino: nat, k: nat)
    requires EmptyFrom(vol, ino, k)
    ensures ino in vol.files
  {
  }

  // ---------- The eighth block ----------

  /** The block number of the first block that an index block lists. */
  const EIGHTH: FileBlock := 7

  lemma EighthPath()
    ensures Path(EIGHTH) == [Top(7), Ind(0)] && Path(EIGHTH)[0..] == Path(EIGHTH) && Path(EIGHTH)[1..] == [Ind(0)]
    ensures DIRECT * BLOCK_SIZE / BLOCK_SIZE == EIGHTH && Child(Top(7), 0) == Ind(0)
  {
  }

  /** On zeros: the next zone becomes the index block, the one after it the data block. */
  lemma CleanEighth(vol: Volume, ino: nat)
    requires Apart(vol) && Packed(vol, DIRECT) && vol.first + 8 < vol.zones && EmptyFrom(vol, ino, DIRECT)
    requires vol.Block(vol.first + 7) == ZeroBlock()
    ensures vol.Sized() && CleanPath(vol, ino, EIGHTH)
    ensures var r := Bmap(vol, ino, EIGHTH, true);
      && r.Done? && Value(r.value.vol, Key(ino, Top(7))) == vol.first + 7
      && Value(r.value.vol, Key(ino, Ind(0))) == vol.first + 8
  {
    hide Value, Apart, Balloc, Fill, BmapPath, CleanFrom, CleanFill;
    EighthPath();
    FillNext(vol, ino, Top(7), 7);
    CleanIndex(vol, ino);
    FillCore(vol, Key(ino, Top(7)), EIGHTH);
    var v := Fill(vol, Key(ino, Top(7)), true).value;
    assert Value(v, Key(ino, Child(Top(7), 0))) == Entry(vol.Block(vol.first + 7), 0);
    ZeroEntry(0);
    PathOnce(vol, ino, Path(EIGHTH), 0, true);
    CleanOnce(vol, ino, EIGHTH, 0);
    GrownKeeps(vol, v, ino, EIGHTH);
    FillNext(v, ino, Ind(0), 8);
    PathOnce(v, ino, Path(EIGHTH), 1, true);
    CleanOnce(v, ino, EIGHTH, 1);
    DataClean(v, ino, EIGHTH);
    var w := Fill(v, Key(ino, Ind(0)), true).value;
    CleanEnd(w, ino, EIGHTH);
    FilledStays(v, Key(ino, Ind(0)), Key(ino, Top(7)));
  }

  lemma CleanIndex(vol: Volume, ino: nat)
    requires Packed(vol, DIRECT) && vol.first + 7 < vol.zones && vol.Block(vol.first + 7) == ZeroBlock()
    ensures CleanFill(vol, Key(ino, Top(7)))
  {
    hide Balloc;
    TakesNext(vol, 7);
  }

  /** On a block that lists a free zone: that zone is taken for mapped, and stays free. */
  lemma StaleEighth(vol: Volume, ino: nat)
    requires Apart(vol) && Packed(vol, DIRECT) && vol.first + 8 < vol.zones && EmptyFrom(vol, ino, DIRECT)
    requires Entry(vol.Block(vol.first + 7), 0) == vol.first + 8
    ensures vol.Sized() && !CleanPath(vol, ino, EIGHTH)
    ensures var r := Bmap(vol, ino, EIGHTH, true);
      && r.Done? && r.value.zone == vol.first + 8 && r.value.vol.first == vol.first && r.value.vol.zones == vol.zones
      && Packed(r.value.vol, 8) && Value(r.value.vol, Key(ino, Top(7))) == vol.first + 7
      && Value(r.value.vol, Key(ino, Ind(0))) == vol.first + 8 && ino in r.value.vol.files
  {
    hide Value, Apart, Balloc, Fill, BmapPath, CleanFrom;
    EighthPath();
    FillNext(vol, ino, Top(7), 7);
    var v := Fill(vol, Key(ino, Top(7)), true).value;
    assert Value(v, Key(ino, Child(Top(7), 0))) == vol.first + 8;
    ZeroEntry(0);
    PathOnce(vol, ino, Path(EIGHTH), 0, true);
    CleanOnce(vol, ino, EIGHTH, 0);
    assert Fill(v, Key(ino, Ind(0)), true) == Done(v) by {
      FillFull(v, Key(ino, Ind(0)));
    }
    PathOnce(v, ino, Path(EIGHTH), 1, true);
  }

  lemma FillFull(vol: Volume, k: Key)
    requires vol.Sized() && k.ino in vol.files && Value(vol, k) != 0
    ensures Fill(vol, k, true) == Done(vol)
  {
    hide Value, Balloc;
  }

  // ---------- Two files ----------

  /** A volume with all blocks zero, all zones free, and two empty files. */
  function TwoFiles(first: nat, zones: nat): (vol: Volume)
    requires 2 < first && first + 8 < zones < 0x10000 && zones - first + 1 <= BLOCK_BITS
    ensures vol.Sized()
  {
    Volume(first, zones, seq(BLOCK_BITS, i => i == 0), seq(zones, _ => ZeroBlock()),
           map[1 := Inode(seq(9, i => 0), 0), 2 := Inode(seq(9, i => 0), 0)])
  }

  lemma TwoFilesStart(first: nat, zones: nat)
    requires 2 < first && first + 8 < zones < 0x10000 && zones - first + 1 <= BLOCK_BITS
    ensures var vol := TwoFiles(first, zones);
      && Good(vol) && Packed(vol, 0) && EmptyFrom(vol, 1, 0) && EmptyFrom(vol, 2, 0)
      && (forall z: Zone :: vol.Block(z) == ZeroBlock()) && forall k: Key :: Value(vol, k) == 0
  {
    var vol := TwoFiles(first, zones);
    assert forall k: Key :: Value(vol, k) == 0;
  }

  /** The eighth block of a file on the empty volume is listed by an index block, which lists it
      still when the file has been truncated. */
  lemma WrittenOnce(first: nat, zones: nat, data: seq<Byte>) returns (t: Volume)
    requires 2 < first && first + 8 < zones <= BLOCK_BITS && |data| == DIRECT * BLOCK_SIZE + 1
    ensures var vol := TwoFiles(first, zones);
      && CleanWrite(vol, 1, data, 0)
      && var w := WriteFrom(vol, 1, data, 0);
      && w.Done? && TruncateFrom(w.value, 1, 0) == Done(t)
    ensures Good(t) && Packed(t, 0) && EmptyFrom(t, 1, 0) && EmptyFrom(t, 2, 0)
    ensures t.files.Keys == {1, 2} && t.files[2].size == 0
    ensures t.Sized() && t.first == first && t.zones == zones && Entry(t.Block(first + 7), 0) == first + 8
  {
    hide Value, Apart, Bmap, WriteFrom, CleanWrite, CleanPath, TruncateFrom, EmptyFrom, WriteChunk, Wrote, NoHoles;
    var vol := TwoFiles(first, zones);
    TwoFilesStart(first, zones);
    var w := SevenBlocks(vol, 1, data, 0);
    var last := data[|data| - 1..];
    EmptySlot(w, 1);
    assert w.Block(first + 7) == ZeroBlock();
    CleanEighth(w, 1);
    EighthPath();
    WriteOnce(w, 1, last, DIRECT * BLOCK_SIZE);
    CleanWriteOnce(w, 1, last, DIRECT * BLOCK_SIZE);
    RoundWrote(w, 1, last, DIRECT * BLOCK_SIZE);
    assert ChunkSize(DIRECT * BLOCK_SIZE, 1) == 1 && last[..1] == last && last[1..] == [];
    var g := Bmap(w, 1, EIGHTH, true).value;
    var v := WriteChunk(g.vol, 1, g.zone, DIRECT * BLOCK_SIZE, last);
    WroteApart(w, v, 1, last, DIRECT * BLOCK_SIZE);
    WriteOnce(v, 1, [], DIRECT * BLOCK_SIZE + 1);
    NothingClean(v, 1, [], DIRECT * BLOCK_SIZE + 1);
    ChunkKeeps(w, 1, last, DIRECT * BLOCK_SIZE);
    WroteSame(w, v, 1, last, DIRECT * BLOCK_SIZE);
    assert SameOthers(vol, v, 1);
    ValueBelow(v, Key(1, Ind(0)));
    t := Emptied(vol, v);
    WriteGood(vol, data);
    TruncatedContents(v, 1);
  }

  lemma WroteSame(vol: Volume, v: Volume, ino: nat, data: seq<Byte>, offset: nat)
    requires Wrote(vol, v, ino, data, offset)
    ensures v.first == vol.first && v.zones == vol.zones
  {
  }

  lemma WriteGood(vol: Volume, data: seq<Byte>)
    requires Good(vol) && 1 in vol.files && vol.Sized() && CleanWrite(vol, 1, data, 0) && WriteFrom(vol, 1, data, 0).Done?
    ensures var v := WriteFrom(vol, 1, data, 0).value;
      Good(v) && v.files.Keys == vol.files.Keys && forall j | j in vol.files && j != 1 :: v.files[j].size == vol.files[j].size
  {
    hide Value, Apart, WriteFrom, CleanWrite, NoHoles, Wrote;
    WriteSplices(vol, 1, data, 0);
    WriteBytes(vol, 1, data, 0);
    WroteSizes(vol, WriteFrom(vol, 1, data, 0).value, 1, data, 0);
  }

  /** Truncating the only file that has blocks frees all zones and clears none. */
  lemma Emptied(vol: Volume, v: Volume) returns (t: Volume)
    requires Apart(v) && v.Sized() && v.files.Keys == {1, 2} && v.zones <= BLOCK_BITS && SameOthers(vol, v, 1)
    requires forall k: Key :: Value(vol, k) == 0
    ensures TruncateFrom(v, 1, 0) == Done(t) && t.Sized() && Apart(t)
    ensures t.files.Keys == {1, 2} && t.files[2] == v.files[2]
    ensures Packed(t, 0) && EmptyFrom(t, 1, 0) && EmptyFrom(t, 2, 0) && t.blocks == v.blocks && t.first == v.first && t.zones == v.zones
  {
    hide Value, TruncateFrom;
    TruncateEmpties(v, 1);
    forall s: Slot ensures Value(v, Key(1, s)) <= BLOCK_BITS {
      InRange(v, Key(1, s));
    }
    t := TruncateFrom(v, 1, 0).value;
    forall z: Zone | t.first <= z < t.zones ensures !t.Used(z) {
      if v.Used(z) {
        var l := Holder(v, z);
        assert l == Key(1, l.slot);
      }
    }
  }

  lemma EmptySlot(vol: Volume, ino: nat)
    requires EmptyFrom(vol, ino, DIRECT)
    ensures ino in vol.files && Value(vol, Key(ino, Top(7))) == 0
  {
    hide Value;
  }

  /** One byte behind seven full blocks, when the next free block lists the one after it. */
  lemma StaleLast(w: Volume, last: seq<Byte>) returns (r: Volume)
    requires Apart(w) && Packed(w, DIRECT) && w.first + 8 < w.zones && EmptyFrom(w, 2, DIRECT) && |last| == 1
    requires w.Sized() && 2 in w.files && Entry(w.Block(w.first + 7), 0) == w.first + 8
    ensures WriteFrom(w, 2, last, DIRECT * BLOCK_SIZE) == Done(r) && !CleanWrite(w, 2, last, DIRECT * BLOCK_SIZE)
    ensures r.Sized() && r.first == w.first && Value(r, Key(2, Ind(0))) == w.first + 8 && !Apart(r)
    ensures Balloc(r).Done? && Balloc(r).value.zone == w.first + 8
  {
    hide Value, Apart, Bmap, WriteFrom, CleanWrite, CleanPath, EmptyFrom, Balloc;
    var offset := DIRECT * BLOCK_SIZE;
    StaleEighth(w, 2);
    EighthPath();
    WriteOnce(w, 2, last, offset);
    CleanWriteOnce(w, 2, last, offset);
    assert ChunkSize(offset, 1) == 1 && last[..1] == last && last[1..] == [];
    var g := Bmap(w, 2, EIGHTH, true).value;
    r := WriteChunk(g.vol, 2, g.zone, offset, last);
    WriteOnce(r, 2, [], offset + 1);
    PackedSame(g.vol, r, 8);
    TakesNext(r, 8);
    ChunkElsewhere(g.vol, 2, g.zone, offset, last);
    NotApart(r, Key(2, Ind(0)));
  }

  /** A file of eight blocks is written, truncated, and another is written.  Its eighth block goes
      where the first one's was, because the index block still lists that zone; but the zone is not
      marked used, so `balloc` hands it out to the next that asks. */
  lemma StaleIndexBlock(first: nat, zones: nat, data: seq<Byte>, again: seq<Byte>) returns (t: Volume, r: Volume)
    requires 2 < first && first + 8 < zones <= BLOCK_BITS && |data| == |again| == DIRECT * BLOCK_SIZE + 1
    ensures var w := WriteFrom(TwoFiles(first, zones), 1, data, 0); w.Done? && TruncateFrom(w.value, 1, 0) == Done(t)
    ensures Good(t) && t.Sized() && t.files.Keys == {1, 2} && t.files[2].size == 0
    ensures WriteFrom(t, 2, again, 0) == Done(r) && r.Sized() && Value(r, Key(2, Ind(0))) == first + 8
    ensures Balloc(r).Done? && Balloc(r).value.zone == first + 8
    ensures !Apart(r) && !CleanWrite(t, 2, again, 0) && !ApartThroughout(t, 2, again, 0)
  {
    hide Value, Apart, Packed, WriteFrom, CleanWrite, TruncateFrom, EmptyFrom, ApartThroughout, Balloc;
    t := WrittenOnce(first, zones, data);
    var w := SevenBlocks(t, 2, again, 0);
    r := StaleLast(w, again[|again| - 1..]);
    WriteExact(t, 2, again, 0);
  }

  /** Writing into the data block leaves the index block alone. */
  lemma ChunkElsewhere(vol: Volume, ino: nat, z: Zone, offset: nat, bytes: seq<Byte>)
    requires vol.Sized() && ino in vol.files && offset % BLOCK_SIZE + |bytes| <= BLOCK_SIZE
    requires Value(vol, Key(ino, Top(7))) != z
    ensures Value(WriteChunk(vol, ino, z, offset, bytes), Key(ino, Ind(0))) == Value(vol, Key(ino, Ind(0)))
  {
  }

  lemma NotApart(vol: Volume, k: Key)
    requires vol.Sized() && vol.first <= Value(vol, k) < vol.zones && !vol.Used(Value(vol, k))
    ensures !Apart(vol)
  {
    hide Value;
  }

  // ---------- A hole ----------

  /** One byte at the start of the second block of an empty file: reading the file stops the
      machine. */
  lemma HoleLeft(first: nat, zones: nat, b: Byte) returns (r: Volume)
    requires 2 < first && first + 8 < zones < 0x10000 && zones - first + 1 <= BLOCK_BITS
    ensures WriteFrom(TwoFiles(first, zones), 1, [b], BLOCK_SIZE) == Done(r)
    ensures 1 in r.files && r.Sized() && !NoHoles(r, 1) && ReadFrom(r, 1, 1, 0) == Halt(Rejected)
  {
    hide Value, Apart, Bmap, WriteFrom, CleanWrite, CleanPath, EmptyFrom, ReadFrom, ByteAt;
    var vol := TwoFiles(first, zones);
    TwoFilesStart(first, zones);
    SecondBlock(vol);
    WriteOnce(vol, 1, [b], BLOCK_SIZE);
    CleanWriteOnce(vol, 1, [b], BLOCK_SIZE);
    assert ChunkSize(BLOCK_SIZE, 1) == 1 && [b][..1] == [b] && [b][1..] == [];
    var g := Bmap(vol, 1, 1, true).value;
    r := WriteChunk(g.vol, 1, g.zone, BLOCK_SIZE, [b]);
    WriteOnce(r, 1, [], BLOCK_SIZE + 1);
    NothingClean(r, 1, [], BLOCK_SIZE + 1);
    WritePastEnd(vol, 1, [b], BLOCK_SIZE);
    WriteBytes(vol, 1, [b], BLOCK_SIZE);
    var none: FileBlock := 0;
    assert DataZone(vol, 1, none) == 0;
    assert DataZone(r, 1, none) == 0 by {
      assert DataZone(r, 1, none) != 0 <==> DataZone(vol, 1, none) != 0 || Touched(1, BLOCK_SIZE, 1, 1, none);
    }
    ReadBytes(r, 1, 1, 0);
    assert DataZone(r, 1, 0 / BLOCK_SIZE) == 0;
  }

  lemma SecondBlock(vol: Volume)
    requires Apart(vol) && Packed(vol, 0) && EmptyFrom(vol, 1, 0)
    ensures vol.Sized() && 1 in vol.files && CleanPath(vol, 1, 1)
    ensures Bmap(vol, 1, 1, true).Done? && Bmap(vol, 1, 1, true).value.zone != 0
  {
    hide Value, Apart, Balloc, CleanFrom, BmapPath, Fill;
    DirectSettled(vol, 1, 1);
    SettledClean(vol, 1, 1);
    FillNext(vol, 1, Top(1), 0);
    assert Path(1) == [Top(1)] && Path(1)[0..] == Path(1);
    PathOnce(vol, 1, Path(1), 0, true);
    BmapCreates(vol, 1, 1);
  }

  // ---------- A zone that cannot be freed ----------

  /** Once the zone behind BLOCK_BITS is in use, as on every volume that large when it is full, the
      file that holds it can never be truncated. */
  lemma NeverFreed(vol: Volume) returns (ino: nat)
    requires Apart(vol) && vol.Sized() && vol.first <= BLOCK_BITS + 1 < vol.zones && vol.Used(BLOCK_BITS + 1)
    ensures ino in vol.files && TruncateFrom(vol, ino, 0) == Halt(Rejected)
  {
    hide Value, TruncateFrom, Apart;
    var l := Holder(vol, BLOCK_BITS + 1);
    ino := l.ino;
    HolderThere(vol, l);
    TruncateEmpties(vol, ino);
    assert Value(vol, Key(ino, l.slot)) > BLOCK_BITS;
  }

  lemma HolderThere(vol: Volume, l: Key)
    requires Value(vol, l) != 0
    ensures l.ino in vol.files && l == Key(l.ino, l.slot)
  {
  }
}
