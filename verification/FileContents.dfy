/** Files as byte sequences: writing splices, reading slices (src/fs/inode.c). */
module FileContents {
  import opened Outcomes
  import opened Unsigned
  import opened FileBlocks
  import opened FileInvariant
  import opened IndexBlocks

  const MAX_SIZE: nat := TOTAL_BLOCKS * BLOCK_SIZE

  /** Every block below the size is mapped. */
  ghost predicate NoHoles(vol: Volume, ino: nat) {
    && ino in vol.files && vol.files[ino].size <= MAX_SIZE
    && forall b: FileBlock | b * BLOCK_SIZE < vol.files[ino].size :: Value(vol, Key(ino, DataSlot(b))) != 0
  }

  /** The blocks of all files are apart and no file has a hole.  Nothing is said of free zones. */
  ghost predicate Good(vol: Volume) {
    Apart(vol) && forall ino | ino in vol.files :: NoHoles(vol, ino)
  }

  function ByteAt(vol: Volume, ino: nat, i: nat): Byte
    requires i < MAX_SIZE
  {
    vol.Block(Value(vol, Key(ino, DataSlot(i / BLOCK_SIZE))))[i % BLOCK_SIZE]
  }

  /** The byte sequence a file stands for. */
  function Content(vol: Volume, ino: nat): (c: seq<Byte>)
    requires ino in vol.files && vol.files[ino].size <= MAX_SIZE
    ensures |c| == vol.files[ino].size
    ensures forall i | 0 <= i < |c| :: c[i] == ByteAt(vol, ino, i)
  {
    seq(vol.files[ino].size, i requires 0 <= i < vol.files[ino].size => ByteAt(vol, ino, i))
  }

  /** `data` written over `c` from `offset` on. */
  function Splice(c: seq<Byte>, offset: nat, data: seq<Byte>): (r: seq<Byte>)
    requires offset <= |c|
  {
    c[..offset] + data + if offset + |data| < |c| then c[offset + |data|..] else []
  }

  // ---------- inode_write ----------

  function Patch(b: Block, start: nat, bytes: seq<Byte>): (r: Block)
    requires start + |bytes| <= BLOCK_SIZE
    ensures forall i | 0 <= i < BLOCK_SIZE ::
      r[i] == if start <= i < start + |bytes| then bytes[i - start] else b[i]
  {
    b[..start] + bytes + b[start + |bytes|..]
  }

  /** One round of the loop of `inode_write`, after `bmap` returned zone `z`. */
  function WriteChunk(vol: Volume, ino: nat, z: Zone, offset: nat, bytes: seq<Byte>): (v: Volume)
    requires vol.Sized() && ino in vol.files && offset % BLOCK_SIZE + |bytes| <= BLOCK_SIZE
    ensures v.Sized() && ino in v.files
  {
    var file := vol.files[ino];
    vol.(files := vol.files[ino := file.(size := Max(file.size, offset + |bytes|))])
       .WithBlock(z, Patch(vol.Block(z), offset % BLOCK_SIZE, bytes))
  }

  function ChunkSize(offset: nat, left: nat): (n: nat)
    ensures left > 0 ==> 0 < n <= left
    ensures offset % BLOCK_SIZE + n <= BLOCK_SIZE
  {
    Min(BLOCK_SIZE - offset % BLOCK_SIZE, left)
  }

  /** `inode_write`: the loop from `offset` on, with `data` still to write. */
  function WriteFrom(vol: Volume, ino: nat, data: seq<Byte>, offset: nat): (r: Outcome<Volume>)
    requires vol.Sized() && ino in vol.files
    ensures r.Done? ==> r.value.Sized() && ino in r.value.files
    decreases |data|
  {
    if data == [] then Done(vol)
    else
      var g :- Bmap(vol, ino, offset / BLOCK_SIZE, true);
      if g.zone == 0 then Halt(Rejected)
      else
        var n := ChunkSize(offset, |data|);
        WriteFrom(WriteChunk(g.vol, ino, g.zone, offset, data[..n]), ino, data[n..], offset + n)
  }

  /** Writing into a data block moves no block. */
  lemma {:induction false} ChunkValues(vol: Volume, ino: nat, z: Zone, offset: nat, bytes: seq<Byte>, k: Key, home: Key)
    requires Apart(vol) && ino in vol.files && offset % BLOCK_SIZE + |bytes| <= BLOCK_SIZE
    requires z != 0 && Value(vol, home) == z && !IsIndex(home.slot)
    ensures Value(WriteChunk(vol, ino, z, offset, bytes), k) == Value(vol, k)
    decreases Depth(k.slot)
  {
    var v := WriteChunk(vol, ino, z, offset, bytes);
    if k.ino !in vol.files || k.slot.Top? {
    } else {
      var up := Key(k.ino, Parent(k.slot));
      ChunkValues(vol, ino, z, offset, bytes, up, home);
      hide Value;
      ValueBelow(vol, k);
      ValueBelow(v, k);
      assert IsIndex(up.slot);
      assert Value(vol, up) != z;
    }
  }

  // ---------- What writing does to the bytes of all files ----------

  /** Byte `i` of file `j` is one of `n` bytes written to file `ino` from `offset` on. */
  predicate Written(ino: nat, offset: nat, n: nat, j: nat, i: nat) {
    j == ino && offset <= i < offset + n
  }

  /** Block `b` of file `j` holds one of them. */
  predicate Touched(ino: nat, offset: nat, n: nat, j: nat, b: nat) {
    j == ino && n > 0 && offset / BLOCK_SIZE <= b && b * BLOCK_SIZE < offset + n
  }

  function DataZone(vol: Volume, j: nat, b: FileBlock): Zone {
    Value(vol, Key(j, DataSlot(b)))
  }

  /** The size of file `j` after `n` bytes were written to `ino`. */
  function NewSize(vol: Volume, ino: nat, n: nat, offset: nat, j: nat): nat
    requires j in vol.files
  {
    if j == ino && n > 0 then Max(vol.files[j].size, offset + n) else vol.files[j].size
  }

  /** `v` is `vol` after `data` was written to `ino` from `offset` on: exactly the blocks it
      touches are mapped besides those that were, and of all mapped bytes of all files exactly
      the written ones are new. */
  ghost predicate Wrote(vol: Volume, v: Volume, ino: nat, data: seq<Byte>, offset: nat) {
    && Apart(v) && v.files.Keys == vol.files.Keys && v.first == vol.first && v.zones == vol.zones
    && (forall j | j in vol.files :: v.files[j].size == NewSize(vol, ino, |data|, offset, j))
    && (forall k: Key | Value(vol, k) != 0 :: Value(v, k) == Value(vol, k))
    && (forall j: nat, b: FileBlock :: DataZone(v, j, b) != 0 <==>
          DataZone(vol, j, b) != 0 || Touched(ino, offset, |data|, j, b))
    && (forall j: nat, i: nat | i < MAX_SIZE && DataZone(v, j, i / BLOCK_SIZE) != 0
          && (DataZone(vol, j, i / BLOCK_SIZE) != 0 || Written(ino, offset, |data|, j, i)) ::
          ByteAt(v, j, i) == if Written(ino, offset, |data|, j, i) then data[i - offset] else ByteAt(vol, j, i))
  }

  lemma WroteNothing(vol: Volume, ino: nat, offset: nat)
    requires Apart(vol)
    ensures Wrote(vol, vol, ino, [], offset)
  {
    hide Value, Apart, DataSlot, ByteAt;
  }

  lemma WroteTwice(vol: Volume, v: Volume, w: Volume, ino: nat, d: seq<Byte>, e: seq<Byte>, offset: nat)
    requires Wrote(vol, v, ino, d, offset) && Wrote(v, w, ino, e, offset + |d|) && d != []
    requires offset % BLOCK_SIZE + |d| <= BLOCK_SIZE && (offset % BLOCK_SIZE + |d| == BLOCK_SIZE || e == [])
    ensures Wrote(vol, w, ino, d + e, offset)
  {
    hide Value, Apart, DataZone, ByteAt;
    forall j: nat, b: FileBlock
      ensures DataZone(w, j, b) != 0 <==> DataZone(vol, j, b) != 0 || Touched(ino, offset, |d + e|, j, b)
    {
      TouchedTwice(ino, offset, |d|, |e|, j, b);
      assert DataZone(v, j, b) != 0 <==> DataZone(vol, j, b) != 0 || Touched(ino, offset, |d|, j, b);
    }
    forall j: nat, i: nat | i < MAX_SIZE && DataZone(w, j, i / BLOCK_SIZE) != 0
      && (DataZone(vol, j, i / BLOCK_SIZE) != 0 || Written(ino, offset, |d + e|, j, i))
      ensures ByteAt(w, j, i) == if Written(ino, offset, |d + e|, j, i) then (d + e)[i - offset] else ByteAt(vol, j, i)
    {
      if Written(ino, offset, |d|, j, i) {
        SameBlock(offset, |d|, i);
        assert Touched(ino, offset, |d|, j, i / BLOCK_SIZE);
      }
      assert DataZone(v, j, i / BLOCK_SIZE) != 0 <==>
        DataZone(vol, j, i / BLOCK_SIZE) != 0 || Touched(ino, offset, |d|, j, i / BLOCK_SIZE);
    }
  }

  lemma TouchedTwice(ino: nat, offset: nat, n: nat, m: nat, j: nat, b: nat)
    requires n > 0 && (offset % BLOCK_SIZE + n == BLOCK_SIZE || m == 0)
    ensures Touched(ino, offset, n + m, j, b) <==>
      Touched(ino, offset, n, j, b) || Touched(ino, offset + n, m, j, b)
  {
  }

  lemma SameBlock(offset: nat, n: nat, i: nat)
    requires offset % BLOCK_SIZE + n <= BLOCK_SIZE
    ensures offset <= i < offset + n ==>
      i / BLOCK_SIZE == offset / BLOCK_SIZE && i % BLOCK_SIZE == offset % BLOCK_SIZE + (i - offset)
    ensures i / BLOCK_SIZE == offset / BLOCK_SIZE && offset % BLOCK_SIZE <= i % BLOCK_SIZE < offset % BLOCK_SIZE + n ==>
      offset <= i < offset + n
  {
  }

  /** After one round the written bytes are in place, and no other mapped byte moved. */
  lemma ChunkBytes(vol: Volume, v: Volume, w: Volume, ino: nat, offset: nat, bytes: seq<Byte>, z: Zone, j: nat, i: nat)
    requires ino in vol.files && bytes != [] && offset % BLOCK_SIZE + |bytes| <= BLOCK_SIZE
    requires offset + |bytes| <= MAX_SIZE
    requires Grown(vol, v, ino, offset / BLOCK_SIZE)
    requires z != 0 && z == DataZone(v, ino, offset / BLOCK_SIZE)
    requires v.Sized() && w == WriteChunk(v, ino, z, offset, bytes)
    requires forall k: Key :: Value(w, k) == Value(v, k)
    requires i < MAX_SIZE && (DataZone(vol, j, i / BLOCK_SIZE) != 0 || Written(ino, offset, |bytes|, j, i))
    ensures ByteAt(w, j, i) == if Written(ino, offset, |bytes|, j, i) then bytes[i - offset] else ByteAt(vol, j, i)
  {
    hide Value, Apart, DataSlot;
    var b: FileBlock := offset / BLOCK_SIZE;
    var c: FileBlock := i / BLOCK_SIZE;
    DataSlotInjective(c, b);
    var k := Key(j, DataSlot(c));
    SameBlock(offset, |bytes|, i);
    if !Written(ino, offset, |bytes|, j, i) {
      assert Value(v, k) == Value(vol, k);
      if k != Key(ino, DataSlot(b)) {
        DifferentBlocks(v, k, Key(ino, DataSlot(b)));
      }
    } else {
      InRange(v, k);
    }
  }

  /** What one round of `inode_write` does to all files. */
  lemma ChunkWrote(vol: Volume, v: Volume, w: Volume, ino: nat, offset: nat, bytes: seq<Byte>, z: Zone)
    requires ino in vol.files && bytes != [] && offset % BLOCK_SIZE + |bytes| <= BLOCK_SIZE
    requires offset + |bytes| <= MAX_SIZE && Grown(vol, v, ino, offset / BLOCK_SIZE)
    requires z != 0 && z == DataZone(v, ino, offset / BLOCK_SIZE)
    requires v.Sized() && w == WriteChunk(v, ino, z, offset, bytes)
    ensures Wrote(vol, w, ino, bytes, offset)
  {
    hide Value, Apart, DataSlot, ByteAt;
    var b: FileBlock := offset / BLOCK_SIZE;
    DataSlotInjective(b, b);
    forall k: Key ensures Value(w, k) == Value(v, k) {
      ChunkValues(v, ino, z, offset, bytes, k, Key(ino, DataSlot(b)));
    }
    ChunkApart(v, w, ino, z, offset, bytes);
    forall j: nat, c: FileBlock
      ensures DataZone(w, j, c) != 0 <==> DataZone(vol, j, c) != 0 || Touched(ino, offset, |bytes|, j, c)
    {
      OneBlock(offset, |bytes|, c);
      if j != ino || c != b {
        if c != b {
          OffPath(c, b);
        }
        assert Value(v, Key(j, DataSlot(c))) == Value(vol, Key(j, DataSlot(c)));
      }
    }
    forall j: nat, i: nat | i < MAX_SIZE && DataZone(w, j, i / BLOCK_SIZE) != 0
      && (DataZone(vol, j, i / BLOCK_SIZE) != 0 || Written(ino, offset, |bytes|, j, i))
      ensures ByteAt(w, j, i) == if Written(ino, offset, |bytes|, j, i) then bytes[i - offset] else ByteAt(vol, j, i)
    {
      ChunkBytes(vol, v, w, ino, offset, bytes, z, j, i);
    }
  }

  lemma OneBlock(offset: nat, n: nat, b: nat)
    requires n > 0 && offset % BLOCK_SIZE + n <= BLOCK_SIZE
    ensures offset / BLOCK_SIZE <= b && b * BLOCK_SIZE < offset + n <==> b == offset / BLOCK_SIZE
  {
  }

  lemma OffPath(b: FileBlock, c: FileBlock)
    requires b != c
    ensures DataSlot(b) !in Path(c)
  {
    DataSlotInjective(b, c);
  }

  lemma ChunkApart(v: Volume, w: Volume, ino: nat, z: Zone, offset: nat, bytes: seq<Byte>)
    requires Apart(v) && ino in v.files && offset % BLOCK_SIZE + |bytes| <= BLOCK_SIZE
    requires w == WriteChunk(v, ino, z, offset, bytes)
    requires forall k: Key :: Value(w, k) == Value(v, k)
    ensures Apart(w)
  {
    hide Value;
    forall y: Zone | w.first <= y < w.zones && w.Used(y) ensures Held(w, y) {
      assert v.Used(y);
      var k :| Value(v, k) == y;
      assert Value(w, k) == y;
    }
    assert w.zmap == v.zmap;
  }

  lemma WriteOnce(vol: Volume, ino: nat, data: seq<Byte>, offset: nat)
    requires vol.Sized() && ino in vol.files
    ensures data == [] ==> WriteFrom(vol, ino, data, offset) == Done(vol)
    ensures data != [] ==>
      var g, n := Bmap(vol, ino, offset / BLOCK_SIZE, true), ChunkSize(offset, |data|);
      WriteFrom(vol, ino, data, offset)
        == if g.Halt? then Halt(g.why) else if g.value.zone == 0 then Halt(Rejected)
           else WriteFrom(WriteChunk(g.value.vol, ino, g.value.zone, offset, data[..n]), ino, data[n..], offset + n)
  {
  }

  lemma RoomInBlock(offset: nat, n: nat)
    requires offset / BLOCK_SIZE < TOTAL_BLOCKS && offset % BLOCK_SIZE + n <= BLOCK_SIZE
    ensures offset + n <= MAX_SIZE
  {
  }

  // ---------- The free zones a write asks for ----------

  /** In each round of `inode_write`, each zone that `bmap` hands to an empty index slot reads as
      zeros. */
  predicate CleanWrite(vol: Volume, ino: nat, data: seq<Byte>, offset: nat)
    requires vol.Sized() && ino in vol.files
    decreases |data|
  {
    data != [] && offset / BLOCK_SIZE < TOTAL_BLOCKS ==>
      var g, n := Bmap(vol, ino, offset / BLOCK_SIZE, true), ChunkSize(offset, |data|);
      && CleanPath(vol, ino, offset / BLOCK_SIZE)
      && (g.Done? ==>
            var w := WriteChunk(g.value.vol, ino, g.value.zone, offset, data[..n]);
            CleanWrite(w, ino, data[n..], offset + n))
  }

  lemma CleanWriteOnce(vol: Volume, ino: nat, data: seq<Byte>, offset: nat)
    requires vol.Sized() && ino in vol.files && data != [] && offset / BLOCK_SIZE < TOTAL_BLOCKS
    ensures var g, n := Bmap(vol, ino, offset / BLOCK_SIZE, true), ChunkSize(offset, |data|);
      CleanWrite(vol, ino, data, offset) <==>
        && CleanPath(vol, ino, offset / BLOCK_SIZE)
        && (g.Done? ==> CleanWrite(WriteChunk(g.value.vol, ino, g.value.zone, offset, data[..n]), ino, data[n..], offset + n))
  {
    hide Bmap, WriteChunk, CleanPath;
  }

  lemma ChunkWhole(offset: nat, left: nat)
    requires left > 0
    ensures var n := ChunkSize(offset, left); offset % BLOCK_SIZE + n == BLOCK_SIZE || n == left
  {
  }

  /** One round of `inode_write`, `bmap` and all. */
  lemma RoundWrote(vol: Volume, ino: nat, data: seq<Byte>, offset: nat)
    requires Apart(vol) && ino in vol.files && vol.Sized() && data != []
    requires offset / BLOCK_SIZE < TOTAL_BLOCKS && CleanPath(vol, ino, offset / BLOCK_SIZE)
    ensures var g, n := Bmap(vol, ino, offset / BLOCK_SIZE, true), ChunkSize(offset, |data|);
      && (g.Halt? ==> g.why == OutOfMemory)
      && (g.Done? ==>
            && g.value.zone != 0
            && Wrote(vol, WriteChunk(g.value.vol, ino, g.value.zone, offset, data[..n]), ino, data[..n], offset))
  {
    hide Value, DataSlot, WriteChunk, CleanPath, BmapPath, Path, Apart, ByteAt, Wrote;
    BmapCreates(vol, ino, offset / BLOCK_SIZE);
    var g, n := Bmap(vol, ino, offset / BLOCK_SIZE, true), ChunkSize(offset, |data|);
    if g.Done? {
      RoomInBlock(offset, n);
      ChunkWrote(vol, g.value.vol, WriteChunk(g.value.vol, ino, g.value.zone, offset, data[..n]),
                 ino, offset, data[..n], g.value.zone);
    }
  }

  lemma WroteApart(vol: Volume, v: Volume, ino: nat, data: seq<Byte>, offset: nat)
    requires Wrote(vol, v, ino, data, offset)
    ensures Apart(v) && v.Sized() && v.files.Keys == vol.files.Keys
    ensures forall k: Key | Value(vol, k) != 0 :: Value(v, k) == Value(vol, k)
  {
    hide Value, DataZone, ByteAt;
  }

  /** `inode_write` at any offset, inside or past the end: the volume it leaves, byte by byte. */
  lemma {:induction false} WriteBytes(vol: Volume, ino: nat, data: seq<Byte>, offset: nat)
    requires Apart(vol) && ino in vol.files && vol.Sized() && CleanWrite(vol, ino, data, offset)
    ensures var r := WriteFrom(vol, ino, data, offset);
      && (r.Halt? ==> r.why == OutOfMemory || (r.why == Rejected && offset + |data| > MAX_SIZE))
      && (r.Done? ==> (data == [] || offset + |data| <= MAX_SIZE) && Wrote(vol, r.value, ino, data, offset))
    decreases |data|
  {
    hide Value, WriteFrom, CleanWrite, WriteChunk, BmapPath, CleanPath, Wrote, Apart;
    WriteOnce(vol, ino, data, offset);
    if data == [] {
      WroteNothing(vol, ino, offset);
    } else if offset / BLOCK_SIZE < TOTAL_BLOCKS {
      CleanWriteOnce(vol, ino, data, offset);
      RoundWrote(vol, ino, data, offset);
      var g, n := Bmap(vol, ino, offset / BLOCK_SIZE, true), ChunkSize(offset, |data|);
      if g.Done? {
        var w := WriteChunk(g.value.vol, ino, g.value.zone, offset, data[..n]);
        WroteApart(vol, w, ino, data[..n], offset);
        RoomInBlock(offset, n);
        WriteBytes(w, ino, data[n..], offset + n);
        var r := WriteFrom(w, ino, data[n..], offset + n);
        if r.Done? {
          ChunkWhole(offset, |data|);
          assert data[..n] + data[n..] == data;
          WroteTwice(vol, w, r.value, ino, data[..n], data[n..], offset);
        }
      }
    }
  }

  // ---------- Files as byte sequences ----------

  lemma GoodSized(vol: Volume, ino: nat)
    requires Good(vol) && ino in vol.files
    ensures Apart(vol) && vol.Sized()
    ensures forall j | j in vol.files :: vol.files[j].size <= MAX_SIZE
  {
    assert forall j | j in vol.files :: NoHoles(vol, j);
  }

  /** Bytes below the size of a file without a hole are mapped. */
  lemma MappedBelow(vol: Volume, j: nat, i: nat)
    requires NoHoles(vol, j) && i < vol.files[j].size
    ensures i < MAX_SIZE && DataZone(vol, j, i / BLOCK_SIZE) != 0
  {
    hide Value, DataSlot;
    var b: FileBlock := i / BLOCK_SIZE;
    assert b * BLOCK_SIZE <= i;
  }

  /** The law of `inode_write`: for every offset up to the size and all data, the file's bytes
      afterwards are the old ones with the data spliced in, every other file's are as before,
      and no file gets a hole.  The call stops the machine only when the volume is full or the
      file would exceed its largest size. */
  lemma WriteSplices(vol: Volume, ino: nat, data: seq<Byte>, offset: nat)
    requires Good(vol) && ino in vol.files && offset <= vol.files[ino].size
    requires vol.Sized() && CleanWrite(vol, ino, data, offset)
    ensures var r := WriteFrom(vol, ino, data, offset);
      && (r.Halt? ==> r.why == OutOfMemory || (r.why == Rejected && offset + |data| > MAX_SIZE))
      && (r.Done? ==>
            && Good(r.value) && r.value.files.Keys == vol.files.Keys
            && Content(r.value, ino) == Splice(Content(vol, ino), offset, data)
            && forall j | j in vol.files && j != ino :: Content(r.value, j) == Content(vol, j))
  {
    hide Value, WriteFrom, CleanWrite, DataSlot, Content, ByteAt, Apart, NoHoles;
    GoodSized(vol, ino);
    WriteBytes(vol, ino, data, offset);
    var r := WriteFrom(vol, ino, data, offset);
    if r.Done? {
      var v := r.value;
      forall j | j in vol.files ensures NoHoles(v, j) {
        WroteNoHoles(vol, v, ino, data, offset, j);
      }
      forall j, i | j in vol.files && 0 <= i < v.files[j].size
        ensures i < MAX_SIZE && ByteAt(v, j, i) ==
          if Written(ino, offset, |data|, j, i) then data[i - offset] else ByteAt(vol, j, i)
      {
        MappedBelow(v, j, i);
        if !Written(ino, offset, |data|, j, i) {
          MappedBelow(vol, j, i);
        }
      }
      hide Wrote;
      WroteSizes(vol, v, ino, data, offset);
    }
  }

  lemma WroteSizes(vol: Volume, v: Volume, ino: nat, data: seq<Byte>, offset: nat)
    requires Wrote(vol, v, ino, data, offset)
    ensures Apart(v) && v.files.Keys == vol.files.Keys
    ensures forall j | j in vol.files :: v.files[j].size == NewSize(vol, ino, |data|, offset, j)
  {
    hide Value, DataZone, ByteAt;
  }

  lemma WroteNoHoles(vol: Volume, v: Volume, ino: nat, data: seq<Byte>, offset: nat, j: nat)
    requires Wrote(vol, v, ino, data, offset) && j in vol.files && NoHoles(vol, j)
    requires data == [] || offset + |data| <= MAX_SIZE
    requires j == ino ==> offset <= vol.files[j].size
    ensures NoHoles(v, j)
  {
    hide Value, DataSlot, ByteAt, Apart;
    forall b: FileBlock | b * BLOCK_SIZE < v.files[j].size ensures Value(v, Key(j, DataSlot(b))) != 0 {
      assert DataZone(v, j, b) != 0 <==> DataZone(vol, j, b) != 0 || Touched(ino, offset, |data|, j, b);
      if b * BLOCK_SIZE < vol.files[j].size {
        assert Value(vol, Key(j, DataSlot(b))) != 0;
      }
    }
  }

  /** A write past the end: the file is left without a hole, which `inode_read` asserts,
      exactly when all blocks before the written ones were mapped already. */
  lemma WritePastEnd(vol: Volume, ino: nat, data: seq<Byte>, offset: nat)
    requires Apart(vol) && ino in vol.files && vol.Sized() && CleanWrite(vol, ino, data, offset)
    requires vol.files[ino].size < offset && data != [] && WriteFrom(vol, ino, data, offset).Done?
    ensures NoHoles(WriteFrom(vol, ino, data, offset).value, ino) <==>
      forall b: FileBlock | b < offset / BLOCK_SIZE :: DataZone(vol, ino, b) != 0
  {
    hide Value, WriteFrom, CleanWrite, DataSlot, ByteAt, Apart;
    WriteBytes(vol, ino, data, offset);
    var v := WriteFrom(vol, ino, data, offset).value;
    forall b: FileBlock
      ensures b < offset / BLOCK_SIZE || Touched(ino, offset, |data|, ino, b) <==> b * BLOCK_SIZE < v.files[ino].size
      ensures b < offset / BLOCK_SIZE ==> !Touched(ino, offset, |data|, ino, b)
    {
    }
    forall b: FileBlock
      ensures Value(v, Key(ino, DataSlot(b))) != 0 <==> DataZone(vol, ino, b) != 0 || Touched(ino, offset, |data|, ino, b)
    {
      assert DataZone(v, ino, b) == Value(v, Key(ino, DataSlot(b)));
    }
  }

  // ---------- When a write asks nothing of the free zones, or gets it ----------

  /** All index slots on the way to the blocks touched are filled: so it is for direct blocks,
      and for bytes below the size. */
  ghost predicate SettledWrite(vol: Volume, ino: nat, n: nat, offset: nat) {
    forall b: FileBlock | Touched(ino, offset, n, ino, b) :: Settled(vol, ino, b)
  }

  /** Bytes below the size, or in the direct blocks, can be written whatever the free zones
      hold. */
  lemma InPlaceSettled(vol: Volume, ino: nat, n: nat, offset: nat)
    requires ino in vol.files && NoHoles(vol, ino)
    requires offset + n <= Max(vol.files[ino].size, DIRECT * BLOCK_SIZE)
    ensures SettledWrite(vol, ino, n, offset)
  {
    hide Value, Settled, DataSlot;
    forall b: FileBlock | Touched(ino, offset, n, ino, b) ensures Settled(vol, ino, b) {
      if b < DIRECT {
        DirectSettled(vol, ino, b);
      } else {
        MappedSettled(vol, ino, b);
      }
    }
  }

  lemma {:induction false} SettledWriteClean(vol: Volume, ino: nat, data: seq<Byte>, offset: nat)
    requires Apart(vol) && ino in vol.files && vol.Sized() && SettledWrite(vol, ino, |data|, offset)
    ensures CleanWrite(vol, ino, data, offset)
    decreases |data|
  {
    hide Value, WriteFrom, WriteChunk, BmapPath, CleanPath, CleanWrite, Wrote, Settled, Path, Apart;
    if data == [] || offset / BLOCK_SIZE >= TOTAL_BLOCKS {
      NothingClean(vol, ino, data, offset);
    } else {
      var g, n := Bmap(vol, ino, offset / BLOCK_SIZE, true), ChunkSize(offset, |data|);
      OneBlock(offset, n, offset / BLOCK_SIZE);
      assert Touched(ino, offset, |data|, ino, offset / BLOCK_SIZE);
      SettledClean(vol, ino, offset / BLOCK_SIZE);
      CleanWriteOnce(vol, ino, data, offset);
      RoundWrote(vol, ino, data, offset);
      if g.Done? {
        var w := WriteChunk(g.value.vol, ino, g.value.zone, offset, data[..n]);
        WroteApart(vol, w, ino, data[..n], offset);
        forall b: FileBlock | Touched(ino, offset + n, |data| - n, ino, b) ensures Settled(w, ino, b) {
          assert Touched(ino, offset, |data|, ino, b);
          SettledStays(vol, w, ino, b);
        }
        SettledWriteClean(w, ino, data[n..], offset + n);
      }
    }
  }

  lemma NothingClean(vol: Volume, ino: nat, data: seq<Byte>, offset: nat)
    requires vol.Sized() && ino in vol.files && (data == [] || offset / BLOCK_SIZE >= TOTAL_BLOCKS)
    ensures CleanWrite(vol, ino, data, offset)
  {
  }

  lemma SettledStays(vol: Volume, v: Volume, ino: nat, b: FileBlock)
    requires Settled(vol, ino, b) && forall k: Key | Value(vol, k) != 0 :: Value(v, k) == Value(vol, k)
    ensures Settled(v, ino, b)
  {
    hide Value;
  }

  /** On a volume whose free zones read as zeros any write gets what it asks for, and the other
      free zones still read as zeros afterwards. */
  lemma {:induction false} FreeCleanWrite(vol: Volume, ino: nat, data: seq<Byte>, offset: nat)
    requires Apart(vol) && ino in vol.files && vol.Sized() && FreeClean(vol)
    ensures CleanWrite(vol, ino, data, offset)
    ensures var r := WriteFrom(vol, ino, data, offset); r.Done? ==> FreeClean(r.value)
    decreases |data|
  {
    hide Value, WriteFrom, WriteChunk, BmapPath, CleanPath, CleanWrite, Wrote, Path, Apart, FreeClean;
    WriteOnce(vol, ino, data, offset);
    if data == [] || offset / BLOCK_SIZE >= TOTAL_BLOCKS {
      NothingClean(vol, ino, data, offset);
    } else {
      var g, n := Bmap(vol, ino, offset / BLOCK_SIZE, true), ChunkSize(offset, |data|);
      FreeCleanPath(vol, ino, offset / BLOCK_SIZE);
      CleanWriteOnce(vol, ino, data, offset);
      RoundWrote(vol, ino, data, offset);
      if g.Done? {
        var w := WriteChunk(g.value.vol, ino, g.value.zone, offset, data[..n]);
        WroteApart(vol, w, ino, data[..n], offset);
        BmapCreates(vol, ino, offset / BLOCK_SIZE);
        GrownKeeps(vol, g.value.vol, ino, offset / BLOCK_SIZE);
        ChunkClean(g.value.vol, w, ino, g.value.zone, offset, data[..n], Key(ino, DataSlot(offset / BLOCK_SIZE)));
        FreeCleanWrite(w, ino, data[n..], offset + n);
      }
    }
  }

  lemma ChunkClean(v: Volume, w: Volume, ino: nat, z: Zone, offset: nat, bytes: seq<Byte>, home: Key)
    requires Apart(v) && FreeClean(v) && ino in v.files && offset % BLOCK_SIZE + |bytes| <= BLOCK_SIZE
    requires w == WriteChunk(v, ino, z, offset, bytes) && z != 0 && Value(v, home) == z
    ensures FreeClean(w)
  {
    hide Value;
    assert v.Used(z);
    forall y: Zone | w.first <= y < w.zones && !w.Used(y) ensures w.Block(y) == ZeroBlock() {
      assert !v.Used(y);
    }
  }

  /** The blocks of all files stay apart after every round of a write. */
  ghost predicate ApartThroughout(vol: Volume, ino: nat, data: seq<Byte>, offset: nat)
    requires vol.Sized() && ino in vol.files
    decreases |data|
  {
    data != [] && offset / BLOCK_SIZE < TOTAL_BLOCKS ==>
      var g, n := Bmap(vol, ino, offset / BLOCK_SIZE, true), ChunkSize(offset, |data|);
      g.Done? ==>
        && Apart(g.value.vol)
        && ApartThroughout(WriteChunk(g.value.vol, ino, g.value.zone, offset, data[..n]), ino, data[n..], offset + n)
  }

  /** The condition is exact: where the write completes, the blocks of all files stay apart
      throughout exactly when the zones handed to empty index slots read as zeros. */
  lemma {:induction false} WriteExact(vol: Volume, ino: nat, data: seq<Byte>, offset: nat)
    requires Apart(vol) && ino in vol.files && vol.Sized() && WriteFrom(vol, ino, data, offset).Done?
    ensures ApartThroughout(vol, ino, data, offset) <==> CleanWrite(vol, ino, data, offset)
    decreases |data|
  {
    hide Value, WriteFrom, WriteChunk, BmapPath, CleanPath, CleanWrite, Wrote, Path, Apart;
    WriteOnce(vol, ino, data, offset);
    if data == [] || offset / BLOCK_SIZE >= TOTAL_BLOCKS {
      NothingClean(vol, ino, data, offset);
    } else {
      var g, n := Bmap(vol, ino, offset / BLOCK_SIZE, true), ChunkSize(offset, |data|);
      CleanWriteOnce(vol, ino, data, offset);
      BmapExact(vol, ino, offset / BLOCK_SIZE);
      if Apart(g.value.vol) {
        RoundWrote(vol, ino, data, offset);
        var w := WriteChunk(g.value.vol, ino, g.value.zone, offset, data[..n]);
        WroteApart(vol, w, ino, data[..n], offset);
        WriteExact(w, ino, data[n..], offset + n);
      }
    }
  }

  // ---------- New files, and reading ----------

  lemma GoodFiles(vol: Volume)
    requires Good(vol)
    ensures forall j | j in vol.files :: vol.files[j].size <= MAX_SIZE
  {
    assert forall j | j in vol.files :: NoHoles(vol, j);
  }

  lemma SameApart(vol: Volume, v: Volume)
    requires Apart(vol) && v == vol.(files := v.files)
    requires forall k: Key :: Value(v, k) == Value(vol, k)
    ensures Apart(v)
  {
    hide Value;
    assert forall z: Zone | v.first <= z < v.zones :: v.Used(z) <==> vol.Used(z);
    forall z: Zone | Held(vol, z) ensures Held(v, z) {
      var k :| Value(vol, k) == z;
      assert Value(v, k) == z;
    }
  }

  /** An inode without zones joins the others. */
  lemma NewFileApart(vol: Volume, v: Volume, ino: nat)
    requires Apart(vol) && ino !in vol.files
    requires v == vol.(files := vol.files[ino := Inode(seq(9, i => 0), 0)])
    ensures Apart(v) && forall k: Key :: Value(v, k) == Value(vol, k)
  {
    forall k: Key ensures Value(v, k) == Value(vol, k) {
    }
    SameApart(vol, v);
  }

  lemma NewFileGood(vol: Volume, v: Volume, ino: nat)
    requires Good(vol) && ino !in vol.files
    requires v == vol.(files := vol.files[ino := Inode(seq(9, i => 0), 0)])
    ensures Good(v) && Content(v, ino) == []
    ensures forall j | j in vol.files :: vol.files[j].size <= MAX_SIZE && Content(v, j) == Content(vol, j)
  {
    GoodFiles(vol);
    NewFileApart(vol, v, ino);
    hide Value, DataSlot, Apart;
    forall j | j in v.files ensures NoHoles(v, j) {
      assert j != ino ==> NoHoles(vol, j);
    }
    forall j, i | j in vol.files && 0 <= i < vol.files[j].size && i < MAX_SIZE
      ensures ByteAt(v, j, i) == ByteAt(vol, j, i)
    {
    }
  }

  /** `inode_read`: the loop, `left` bytes from `at` on.  A block that is not mapped fails an
      assertion. */
  function ReadFrom(vol: Volume, ino: nat, left: nat, at: nat): (r: Outcome<seq<Byte>>)
    requires vol.Sized() && ino in vol.files
    decreases left
  {
    if left == 0 then Done([])
    else
      var g :- Bmap(vol, ino, at / BLOCK_SIZE, false);
      if g.zone == 0 then Halt(Rejected)
      else
        var n := ChunkSize(at, left);
        var rest :- ReadFrom(vol, ino, left - n, at + n);
        Done(vol.Block(g.zone)[at % BLOCK_SIZE..at % BLOCK_SIZE + n] + rest)
  }

  lemma ReadOnce(vol: Volume, ino: nat, left: nat, at: nat)
    requires vol.Sized() && ino in vol.files
    ensures left == 0 ==> ReadFrom(vol, ino, left, at) == Done([])
    ensures left > 0 && at / BLOCK_SIZE >= TOTAL_BLOCKS ==> ReadFrom(vol, ino, left, at) == Halt(Rejected)
    ensures left > 0 && at / BLOCK_SIZE < TOTAL_BLOCKS ==>
      var z, n := DataZone(vol, ino, at / BLOCK_SIZE), ChunkSize(at, left);
      ReadFrom(vol, ino, left, at) ==
        if z == 0 then Halt(Rejected)
        else match ReadFrom(vol, ino, left - n, at + n)
             case Halt(why) => Halt(why)
             case Done(rest) => Done(vol.Block(z)[at % BLOCK_SIZE..at % BLOCK_SIZE + n] + rest)
  {
    hide Value, DataSlot, BmapPath, Path;
    if at / BLOCK_SIZE < TOTAL_BLOCKS {
      BmapLooks(vol, ino, at / BLOCK_SIZE);
    }
  }

  /** Reading within the largest size completes exactly when every block it needs is mapped, and
      then gives the bytes. */
  lemma {:induction false} ReadBytes(vol: Volume, ino: nat, left: nat, at: nat)
    requires vol.Sized() && ino in vol.files && at + left <= MAX_SIZE
    ensures var r := ReadFrom(vol, ino, left, at);
      && (r.Done? <==> forall i | at <= i < at + left :: DataZone(vol, ino, i / BLOCK_SIZE) != 0)
      && (r.Done? ==> r.value == seq(left, i requires 0 <= i < left => ByteAt(vol, ino, at + i)))
      && (r.Halt? ==> r.why == Rejected)
    decreases left
  {
    hide Value, DataSlot, ReadFrom, DataZone;
    ReadOnce(vol, ino, left, at);
    if left == 0 {
    } else {
      var z, n := DataZone(vol, ino, at / BLOCK_SIZE), ChunkSize(at, left);
      ReadBytes(vol, ino, left - n, at + n);
      forall i | at <= i < at + n ensures i / BLOCK_SIZE == at / BLOCK_SIZE && i % BLOCK_SIZE == at % BLOCK_SIZE + (i - at) {
        SameBlock(at, n, i);
      }
      forall i | at <= i < at + n ensures ByteAt(vol, ino, i) == vol.Block(z)[at % BLOCK_SIZE + (i - at)] {
        ByteOfBlock(vol, ino, i);
      }
    }
  }

  lemma ByteOfBlock(vol: Volume, ino: nat, i: nat)
    requires i < MAX_SIZE
    ensures ByteAt(vol, ino, i) == vol.Block(DataZone(vol, ino, i / BLOCK_SIZE))[i % BLOCK_SIZE]
  {
  }

  /** `inode_read` of a file without a hole, within its size: the slice of its bytes. */
  lemma ReadSlices(vol: Volume, ino: nat, left: nat, at: nat)
    requires vol.Sized() && NoHoles(vol, ino) && at + left <= vol.files[ino].size
    ensures ReadFrom(vol, ino, left, at) == Done(Content(vol, ino)[at..at + left])
  {
    hide Value, DataSlot, ReadFrom;
    ReadBytes(vol, ino, left, at);
    forall i | at <= i < at + left ensures DataZone(vol, ino, i / BLOCK_SIZE) != 0 {
      MappedBelow(vol, ino, i);
    }
    assert ReadFrom(vol, ino, left, at).value == Content(vol, ino)[at..at + left];
  }
}
