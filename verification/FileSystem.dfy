/** The file storage as the kernel runs it: blocks in an array, a byte bitmap of zones, and the
    loops of src/fs/bmap.c and src/fs/inode.c. */
module FileSystems {
  import opened Outcomes
  import opened Bitmaps
  import opened Unsigned
  import opened FileBlocks
  import opened FileInvariant
  import opened IndexBlocks
  import opened FileContents
  import opened FileTruncate

  class FileSystem {
    const first: nat
    const zones: nat
    const zmap: Bitmap
    const blocks: array<Block>
    var files: map<nat, Inode>

    ghost predicate Shaped()
      reads this
    {
      && 2 < first < zones < 0x10000 && zones - first + 1 <= BLOCK_BITS
      && zmap.bits.Length == BLOCK_SIZE && zmap.offset == first - 1
      && blocks.Length == zones && blocks as object != zmap.bits
    }

    ghost function State(): (vol: Volume)
      reads this, zmap.bits, blocks
      requires Shaped()
      ensures vol.Sized()
    {
      Volume(first, zones, zmap.View(), blocks[..], files)
    }

    /** The blocks of all files are apart. */
    ghost predicate Valid()
      reads this, zmap.bits, blocks
    {
      Shaped() && Apart(State())
    }

    /** A volume as `devmkfs` leaves it: no files, and one reserved bit below the first data
        zone.  The blocks hold whatever they held. */
    constructor (first: nat, zones: nat, contents: seq<Block>)
      requires 2 < first < zones < 0x10000 && zones - first + 1 <= BLOCK_BITS && |contents| == zones
      ensures Valid() && files == map[] && Good(State()) && blocks[..] == contents
    {
      this.first, this.zones := first, zones;
      zmap := new Bitmap(BLOCK_SIZE, first - 1);
      blocks := new Block[zones](i requires 0 <= i < |contents| => contents[i]);
      files := map[];
      new;
      zmap.Set(first - 1, true);
      assert forall k: Key :: Value(State(), k) == 0;
    }

    /** A new inode: no blocks, no bytes. */
    method NewFile(ino: nat)
      requires Valid() && ino !in files
      modifies this
      ensures Valid() && files == old(files)[ino := Inode(seq(9, i => 0), 0)]
      ensures State() == old(State()).(files := files)
    {
      ghost var vol := State();
      files := files[ino := Inode(seq(9, i => 0), 0)];
      NewFileApart(vol, State(), ino);
    }

    // ---------- Zones ----------

    method Balloc() returns (r: Outcome<Zone>)
      requires Shaped()
      modifies zmap.bits
      ensures FileBlocks.Balloc(old(State())).Halt? ==> r == Halt(OutOfMemory)
      ensures FileBlocks.Balloc(old(State())).Done? ==>
        var g := FileBlocks.Balloc(old(State())).value; r == Done(g.zone) && State() == g.vol
    {
      var bit := zmap.Scan(1);
      if bit == -1 || bit >= zones {
        return Halt(OutOfMemory);
      }
      assert SetRun(old(zmap.View()), bit - first + 1, 1, true) == old(zmap.View())[bit - first + 1 := true];
      return Done(bit);
    }

    method Bfree(z: Zone) returns (r: Outcome<()>)
      requires Shaped()
      modifies zmap.bits
      ensures FileTruncate.Bfree(old(State()), z).Halt? ==> r == Halt(FileTruncate.Bfree(old(State()), z).why)
      ensures FileTruncate.Bfree(old(State()), z).Done? ==>
        r.Done? && State() == FileTruncate.Bfree(old(State()), z).value
    {
      if z >= zones || z > BLOCK_BITS {
        return Halt(Rejected);
      }
      if z < first - 1 {
        return Halt(CountCheck);
      }
      var used := zmap.Test(z);
      if !used {
        return Halt(CountCheck);
      }
      zmap.Set(z, false);
      return Done(());
    }

    // ---------- bmap ----------

    /** A block as `bread` gives it; there is nothing behind the volume. */
    method ReadBlock(z: Zone) returns (b: Block)
      requires Shaped()
      ensures b == State().Block(z)
    {
      if z < zones {
        b := blocks[z];
      } else {
        b := ZeroBlock();
      }
    }

    /** The zone number at `index` of the inode's array (`at` is 0) or of index block `at`. */
    method Load(ino: nat, at: Zone, index: nat) returns (z: Zone)
      requires Shaped() && ino in files
      requires if at == 0 then index < 9 else index < INDEXES
      ensures z == if at == 0 then files[ino].zone[index] else Entry(State().Block(at), index)
    {
      if at == 0 {
        z := files[ino].zone[index];
      } else {
        var b := ReadBlock(at);
        z := Entry(b, index);
      }
    }

    method Store(ino: nat, at: Zone, index: nat, z: Zone)
      requires Shaped() && ino in files
      requires if at == 0 then index < 9 else index < INDEXES
      modifies this, blocks
      ensures Shaped()
      ensures at == 0 ==> State() == old(State()).(files := old(files)[ino := old(files)[ino].(zone := old(files)[ino].zone[index := z])])
      ensures at != 0 ==> State() == old(State()).WithBlock(at, WithEntry(old(State()).Block(at), index, z))
    {
      if at == 0 {
        files := files[ino := files[ino].(zone := files[ino].zone[index := z])];
      } else if at < zones {
        blocks[at] := WithEntry(blocks[at], index, z);
      }
    }

    /** The slot that the loop of `bmap` looks at: entry `index` of `at`. */
    ghost predicate Located(ino: nat, slot: Slot, at: Zone, index: nat)
      reads this, zmap.bits, blocks
      requires Shaped()
    {
      if slot.Top? then at == 0 && index == slot.n
      else at != 0 && at == Value(State(), Key(ino, Parent(slot))) && index == Offset(slot)
    }

    lemma LocatedValue(ino: nat, slot: Slot, at: Zone, index: nat)
      requires Shaped() && ino in files && Located(ino, slot, at, index)
      ensures if at == 0 then index < 9 else index < INDEXES
      ensures Value(State(), Key(ino, slot)) == if at == 0 then files[ino].zone[index] else Entry(State().Block(at), index)
    {
      if !slot.Top? {
        ValueBelow(State(), Key(ino, slot));
      }
    }

    /** One round: fill the slot if it is empty and `create` is set, and read it. */
    method Visit(ino: nat, ghost slot: Slot, at: Zone, index: nat, create: bool) returns (r: Outcome<Zone>)
      requires Shaped() && ino in files && Located(ino, slot, at, index)
      modifies this, zmap.bits, blocks
      ensures Shaped()
      ensures Fill(old(State()), Key(ino, slot), create).Halt? ==> r == Halt(OutOfMemory)
      ensures Fill(old(State()), Key(ino, slot), create).Done? ==>
        && State() == Fill(old(State()), Key(ino, slot), create).value
        && ino in files && r == Done(Value(State(), Key(ino, slot)))
    {
      hide Value, FileBlocks.Balloc, Located;
      ghost var vol, k := State(), Key(ino, slot);
      LocatedValue(ino, slot, at, index);
      LocatedHere(ino, slot, at, index);
      var z := Load(ino, at, index);
      if z == 0 && create {
        var g := Balloc();
        if g.Halt? {
          return Halt(g.why);
        }
        ghost var mid := State();
        SameValues(vol, mid, Key(ino, if slot.Top? then slot else Parent(slot)));
        Store(ino, at, index, g.value);
        assert State() == WithValue(mid, k, g.value);
        assert Fill(vol, k, true) == Done(State());
        if !slot.Top? {
          FilledStays(vol, k, Key(ino, Parent(slot)));
        }
        LocatedThere(ino, slot, at, index);
        LocatedValue(ino, slot, at, index);
        z := Load(ino, at, index);
      }
      return Done(z);
    }

    lemma LocatedHere(ino: nat, slot: Slot, at: Zone, index: nat)
      requires Shaped() && Located(ino, slot, at, index)
      ensures slot.Top? ==> at == 0 && index == slot.n
      ensures !slot.Top? ==> at != 0 && at == Value(State(), Key(ino, Parent(slot))) && index == Offset(slot)
    {
      hide Value;
    }

    lemma LocatedThere(ino: nat, slot: Slot, at: Zone, index: nat)
      requires Shaped() && (slot.Top? ==> at == 0 && index == slot.n)
      requires !slot.Top? ==> at != 0 && at == Value(State(), Key(ino, Parent(slot))) && index == Offset(slot)
      ensures Located(ino, slot, at, index)
    {
      hide Value;
    }

    /** `level`, `index` and what is left of the block number after `i` rounds of `bmap`. */
    static ghost predicate OnPath(b: FileBlock, i: nat, level: int, index: nat, left: nat, divider: nat) {
      && i < |Path(b)| && level == |Path(b)| - 1 - i
      && index == (if Path(b)[i].Top? then Path(b)[i].n else Offset(Path(b)[i]))
      && (level == 1 ==> divider == 1 && left == Offset(Path(b)[i + 1]))
      && (level == 2 ==> divider == INDEXES && left / divider == Offset(Path(b)[i + 1]) && left % divider == Offset(Path(b)[i + 2]))
    }

    static lemma NextOnPath(b: FileBlock, i: nat, level: int, index: nat, left: nat, divider: nat)
      requires OnPath(b, i, level, index, left, divider) && level > 0 && divider > 0
      ensures OnPath(b, i + 1, level - 1, left / divider, left % divider, divider / INDEXES)
      ensures !Path(b)[i + 1].Top? && Parent(Path(b)[i + 1]) == Path(b)[i] && left / divider == Offset(Path(b)[i + 1])
    {
    }

    static lemma StartOnPath(b: FileBlock)
      ensures b < 7 ==> OnPath(b, 0, 0, b, b, 1)
      ensures 7 <= b < 519 ==> OnPath(b, 0, 1, 7, b - 7, 1)
      ensures 519 <= b ==> OnPath(b, 0, 2, 8, b - 519, INDEXES)
      ensures Path(b)[0] == Top(if b < 7 then b else if b < 519 then 7 else 8)
    {
    }

    static lemma OnPathBounds(b: FileBlock, i: nat, level: int, index: nat, left: nat, divider: nat)
      requires OnPath(b, i, level, index, left, divider)
      ensures i < |Path(b)| && level == |Path(b)| - 1 - i && (Path(b)[i].Top? ==> index == Path(b)[i].n)
      ensures 0 < level ==> divider > 0
      ensures level <= 2
    {
    }

    /** The loop of `bmap`: walk from the inode through at most two index blocks. */
    method Walk(ino: nat, ghost b: FileBlock, index0: nat, level0: nat, left0: nat, divider0: nat, create: bool)
      returns (r: Outcome<Zone>)
      requires Shaped() && ino in files
      requires OnPath(b, 0, level0, index0, left0, divider0) && Path(b)[0] == Top(index0)
      modifies this, zmap.bits, blocks
      ensures Shaped()
      ensures BmapPath(old(State()), ino, Path(b), create).Halt? ==> r == Halt(OutOfMemory)
      ensures BmapPath(old(State()), ino, Path(b), create).Done? ==>
        var g := BmapPath(old(State()), ino, Path(b), create).value; r == Done(g.zone) && State() == g.vol
    {
      hide Value, Fill, OnPath, Path, BmapPath, Located;
      ghost var vol, i: nat := State(), 0;
      assert Path(b)[0..] == Path(b);
      var index: nat, level: nat, divider: nat, left: nat := index0, level0, divider0, left0;
      var at: Zone := 0;
      ghost var slot := Path(b)[0];
      LocatedFirst(ino, slot, index);
      while true
        invariant Shaped() && ino in files
        invariant OnPath(b, i, level, index, left, divider)
        invariant i < |Path(b)| && slot == Path(b)[i]
        invariant Located(ino, slot, at, index)
        invariant BmapPath(vol, ino, Path(b), create) == BmapPath(State(), ino, Path(b)[i..], create)
        decreases level
      {
        ghost var was := State();
        OnPathBounds(b, i, level, index, left, divider);
        PathOnce(was, ino, Path(b), i, create);
        FillHalts(was, Key(ino, slot), create);
        r := Visit(ino, slot, at, index, create);
        if r.Halt? || level == 0 || r.value == 0 {
          return;
        }
        NextOnPath(b, i, level, index, left, divider);
        LocatedNext(ino, slot, Path(b)[i + 1], r.value, left / divider);
        at, index := r.value, left / divider;
        left := left % divider;
        divider := divider / INDEXES;
        level := level - 1;
        i := i + 1;
        slot := Path(b)[i];
      }
    }

    static lemma FillHalts(vol: Volume, k: Key, create: bool)
      requires vol.Sized() && k.ino in vol.files
      ensures Fill(vol, k, create).Halt? ==> Fill(vol, k, create).why == OutOfMemory
    {
      hide Value;
    }

    /** `bmap`, on any volume, spoiled or not. */
    method Bmap(ino: nat, block: nat, create: bool) returns (r: Outcome<Zone>)
      requires Shaped() && ino in files
      modifies this, zmap.bits, blocks
      ensures Shaped()
      ensures FileBlocks.Bmap(old(State()), ino, block, create).Halt? ==>
        r == Halt(FileBlocks.Bmap(old(State()), ino, block, create).why)
      ensures FileBlocks.Bmap(old(State()), ino, block, create).Done? ==>
        var g := FileBlocks.Bmap(old(State()), ino, block, create).value; r == Done(g.zone) && State() == g.vol
      ensures !create ==> State() == old(State())
    {
      if block >= TOTAL_BLOCKS {
        return Halt(Rejected);
      }
      hide Value, OnPath, Path, BmapPath;
      StartOnPath(block);
      BmapHalts(State(), ino, block, create);
      var left: nat := block;
      if left < DIRECT {
        r := Walk(ino, block, left, 0, left, 1, create);
        return;
      }
      left := left - DIRECT;
      if left < INDEXES {
        r := Walk(ino, block, DIRECT, 1, left, 1, create);
        return;
      }
      left := left - INDEXES;
      r := Walk(ino, block, DIRECT + 1, 2, left, INDEXES, create);
    }

    static lemma BmapHalts(vol: Volume, ino: nat, block: FileBlock, create: bool)
      requires ino in vol.files && vol.Sized()
      ensures FileBlocks.Bmap(vol, ino, block, create).Halt? ==>
        FileBlocks.Bmap(vol, ino, block, create).why == OutOfMemory
      ensures !create ==> var r := FileBlocks.Bmap(vol, ino, block, create); r.Done? && r.value.vol == vol
    {
      hide Value, BmapPath, Path;
      PathHalts(vol, ino, Path(block), create);
      if !create {
        BmapLooks(vol, ino, block);
      }
    }

    static lemma {:induction false} PathHalts(vol: Volume, ino: nat, path: seq<Slot>, create: bool)
      requires vol.Sized() && ino in vol.files && |path| > 0
      ensures BmapPath(vol, ino, path, create).Halt? ==> BmapPath(vol, ino, path, create).why == OutOfMemory
      decreases |path|
    {
      hide Value, Fill;
      var f := Fill(vol, Key(ino, path[0]), create);
      if f.Halt? {
        FillHalts(vol, Key(ino, path[0]), create);
      } else if |path| > 1 {
        PathHalts(f.value, ino, path[1..], create);
      }
    }

    lemma LocatedFirst(ino: nat, slot: Slot, index: nat)
      requires Shaped() && slot.Top? && index == slot.n
      ensures Located(ino, slot, 0, index)
    {
    }

    lemma LocatedNext(ino: nat, slot: Slot, next: Slot, z: Zone, index: nat)
      requires Shaped() && z != 0 && z == Value(State(), Key(ino, slot))
      requires !next.Top? && Parent(next) == slot && index == Offset(next)
      ensures Located(ino, next, z, index)
    {
      hide Value;
    }

    // ---------- Reading and writing ----------

    /** `inode_read`: -1 at or past the end, otherwise the bytes up to `len` or the end. */
    method InodeRead(ino: nat, len: nat, offset: nat) returns (r: Outcome<int>, buf: seq<Byte>)
      requires Shaped() && ino in files
      modifies this, zmap.bits, blocks
      ensures Shaped() && State() == old(State())
      ensures offset >= files[ino].size ==> r == Done(-1) && buf == []
      ensures offset < files[ino].size ==>
        match ReadFrom(State(), ino, Min(len, files[ino].size - offset), offset)
        case Halt(why) => r == Halt(why)
        case Done(bytes) => r == Done(|bytes|) && buf == bytes
    {
      hide Value, DataSlot, BmapPath, ReadFrom, Path;
      if offset >= files[ino].size {
        return Done(-1), [];
      }
      ghost var vol := State();
      var left: nat := Min(len, files[ino].size - offset);
      ghost var all := ReadFrom(vol, ino, left, offset);
      assert all.Done? ==> [] + all.value == all.value;
      var at := offset;
      buf := [];
      while left > 0
        invariant |buf| == at - offset && offset <= at
        invariant Shaped() && State() == vol
        invariant all == match ReadFrom(vol, ino, left, at)
                         case Halt(why) => Halt(why)
                         case Done(rest) => Done(buf + rest)
      {
        ReadOnce(vol, ino, left, at);
        if at / BLOCK_SIZE < TOTAL_BLOCKS {
          BmapLooks(vol, ino, at / BLOCK_SIZE);
        }
        var nr := Bmap(ino, at / BLOCK_SIZE, false);
        if nr.Halt? || nr.value == 0 {
          return Halt(Rejected), [];
        }
        var block := ReadBlock(nr.value);
        var start := at % BLOCK_SIZE;
        var chars := Min(BLOCK_SIZE - start, left);
        ghost var was := buf;
        buf := buf + block[start..start + chars];
        Appended(was, block[start..start + chars], ReadFrom(vol, ino, left - chars, at + chars));
        at := at + chars;
        left := left - chars;
      }
      ReadOnce(vol, ino, left, at);
      return Done(at - offset), buf;
    }

    static lemma Appended(a: seq<Byte>, b: seq<Byte>, rest: Outcome<seq<Byte>>)
      ensures rest.Done? ==> (a + b) + rest.value == a + (b + rest.value)
    {
    }

    /** One round of the loop of `inode_write`, in the block `bmap` returned. */
    method WriteBlock(ino: nat, nr: Zone, at: nat, bytes: seq<Byte>)
      requires Shaped() && ino in files && at % BLOCK_SIZE + |bytes| <= BLOCK_SIZE
      modifies this, blocks
      ensures Shaped() && State() == WriteChunk(old(State()), ino, nr, at, bytes)
    {
      hide Patch;
      if at + |bytes| > files[ino].size {
        files := files[ino := files[ino].(size := at + |bytes|)];
      } else {
        assert files == files[ino := files[ino]];
      }
      if nr < zones {
        blocks[nr] := Patch(blocks[nr], at % BLOCK_SIZE, bytes);
      }
    }

    /** `inode_write`, at any offset and on any volume.  The blocks of all files stay apart when the
        write finds the zeros it asks for. */
    method InodeWrite(ino: nat, data: seq<Byte>, offset: nat) returns (r: Outcome<nat>)
      requires Shaped() && ino in files
      modifies this, zmap.bits, blocks
      ensures Shaped()
      ensures WriteFrom(old(State()), ino, data, offset).Halt? ==>
        r == Halt(WriteFrom(old(State()), ino, data, offset).why)
      ensures WriteFrom(old(State()), ino, data, offset).Done? ==>
        && r == Done(|data|) && State() == WriteFrom(old(State()), ino, data, offset).value
        && (old(Valid() && CleanWrite(State(), ino, data, offset)) ==> Valid())
    {
      hide Value, Apart, CleanWrite, BmapPath, WriteFrom, Wrote, WriteChunk, Path;
      ghost var vol := State();
      var done := 0;
      while done < |data|
        invariant 0 <= done <= |data| && Shaped() && ino in files
        invariant WriteFrom(vol, ino, data, offset) == WriteFrom(State(), ino, data[done..], offset + done)
      {
        ghost var was, rest := State(), data[done..];
        var at := offset + done;
        WriteOnce(was, ino, rest, at);
        var nr := Bmap(ino, at / BLOCK_SIZE, true);
        if nr.Halt? {
          return Halt(nr.why);
        }
        if nr.value == 0 {
          return Halt(Rejected);
        }
        var chars := Min(BLOCK_SIZE - at % BLOCK_SIZE, |data| - done);
        var bytes := data[done..done + chars];
        assert rest[..chars] == bytes && rest[chars..] == data[done + chars..];
        WriteBlock(ino, nr.value, at, bytes);
        done := done + chars;
      }
      WriteOnce(State(), ino, data[done..], offset + done);
      ApartAfter(vol, State(), ino, data, offset);
      return Done(done);
    }

    static lemma ApartAfter(vol: Volume, v: Volume, ino: nat, data: seq<Byte>, offset: nat)
      requires vol.Sized() && ino in vol.files && WriteFrom(vol, ino, data, offset) == Done(v)
      ensures Apart(vol) && CleanWrite(vol, ino, data, offset) ==> Apart(v)
    {
      hide Value, Apart, CleanWrite, WriteFrom, ByteAt, DataZone;
      if Apart(vol) && CleanWrite(vol, ino, data, offset) {
        WriteBytes(vol, ino, data, offset);
      }
    }

    // ---------- Truncation ----------

    /** `inode_bfree` for a slot that holds `z`: the blocks below it, then itself. */
    method InodeBfree(z: Zone, level: nat) returns (r: Outcome<()>)
      requires Shaped()
      modifies zmap.bits
      ensures Shaped()
      ensures FreeTree(old(State()), z, level).Halt? ==> r == Halt(FreeTree(old(State()), z, level).why)
      ensures FreeTree(old(State()), z, level).Done? ==> r.Done? && State() == FreeTree(old(State()), z, level).value
      decreases level
    {
      hide FreeTree, FreeEntries;
      ghost var vol := State();
      TreeOnce(vol, z, level);
      if z == 0 {
        return Done(());
      }
      if level > 0 {
        var block := ReadBlock(z);
        var i := 0;
        while i < INDEXES
          invariant 0 <= i <= INDEXES && Shaped() && State().blocks == vol.blocks
          invariant FreeEntries(vol, z, level, 0) == FreeEntries(State(), z, level, i)
        {
          EntriesOnce(State(), z, level, i);
          r := InodeBfree(Entry(block, i), level - 1);
          if r.Halt? {
            return;
          }
          i := i + 1;
        }
        EntriesOnce(State(), z, level, i);
      }
      r := Bfree(z);
    }

    /** `inode_truncate` of a regular file or directory, on any volume; it keeps the blocks of the
        other files apart. */
    method InodeTruncate(ino: nat) returns (r: Outcome<()>)
      requires Shaped() && ino in files
      modifies this, zmap.bits
      ensures Shaped()
      ensures TruncateFrom(old(State()), ino, 0).Halt? ==> r == Halt(TruncateFrom(old(State()), ino, 0).why)
      ensures TruncateFrom(old(State()), ino, 0).Done? ==>
        r.Done? && State() == TruncateFrom(old(State()), ino, 0).value && (old(Valid()) ==> Valid())
    {
      hide FreeTree, Value, Apart, TruncateFrom;
      ghost var vol := State();
      if Valid() {
        TruncateEmpties(vol, ino);
      }
      var i := 0;
      while i < 9
        invariant 0 <= i <= 9 && Shaped() && ino in files
        invariant TruncateFrom(vol, ino, 0) == TruncateFrom(State(), ino, i)
      {
        TruncateOnce(State(), ino, i);
        r := InodeBfree(files[ino].zone[i], if i < DIRECT then 0 else if i == DIRECT then 1 else 2);
        if r.Halt? {
          return;
        }
        files := files[ino := files[ino].(zone := files[ino].zone[i := 0])];
        i := i + 1;
      }
      TruncateOnce(State(), ino, i);
      files := files[ino := files[ino].(size := 0)];
      return Done(());
    }
  }
}
