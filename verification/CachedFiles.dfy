/** File calls with every block read and written through the buffer cache (src/fs/inode.c and
    src/fs/bmap.c over src/kernel/buffer.c): nobody can tell it from the plain volume, and after
    each call the disk itself holds the files. */
module CachedFiles {
  import opened CacheHolds
  import opened FileBlocks
  import opened FileContents
  import opened FileInvariant
  import opened FileRuns
  import opened FileTruncate
  import opened Outcomes
  import opened Unsigned

  import C = BufferCaches

  /** A mounted volume.  The bitmap and the inodes lie in buffers that are held as long as it is
      mounted; they are the values in `shell`, whose blocks are not used. */
  datatype Mount = Mount(shell: Volume, dev: Word32, cache: C.Cache) {
    function Id(z: Zone): C.BlockId {
      C.BlockId(dev, z)
    }

    function WithCache(c: C.Cache): Mount {
      this.(cache := c)
    }
  }

  function AsBlock(data: seq<Byte>): Block {
    if |data| == BLOCK_SIZE then data else ZeroBlock()
  }

  /** The volume that readers see. */
  ghost function Seen(m: Mount): (vol: Volume)
    requires m.shell.Sized()
    ensures vol.Sized() && vol == m.shell.(blocks := vol.blocks)
  {
    m.shell.(blocks := seq(m.shell.zones, z requires 0 <= z < m.shell.zones => AsBlock(C.Seen(m.cache, m.Id(z)))))
  }

  /** The volume on the disk. */
  function OnDisk(m: Mount): (vol: Volume)
    requires m.shell.Sized()
    ensures vol.Sized()
  {
    m.shell.(blocks := seq(m.shell.zones, z requires 0 <= z < m.shell.zones => AsBlock(m.cache.Disk(m.Id(z)))))
  }

  ghost predicate Ready(m: Mount)
    ensures Ready(m) ==> m.shell.Sized()
  {
    && m.shell.Sized() && C.Good(m.cache)
    && forall z: Zone | z < m.shell.zones :: |C.Seen(m.cache, m.Id(z))| == BLOCK_SIZE
  }

  /** What a call leaves alone: the holders of all buffers, and the blocks of other devices. */
  ghost predicate After(m: Mount, n: Mount)
    ensures After(m, n) ==> Ready(m) && Ready(n) && n.dev == m.dev && n.shell.zones == m.shell.zones
    ensures After(m, n) ==> Spare(n.cache) == Spare(m.cache)
  {
    && Ready(m) && Ready(n) && n.dev == m.dev && n.shell.zones == m.shell.zones && Kept(m.cache, n.cache)
    && forall id: C.BlockId | id.dev != m.dev :: C.Seen(n.cache, id) == C.Seen(m.cache, id)
  }

  // ---------- The calls ----------

  /** One round of the loop of `bmap` for slot `s`, which lies in the inode or in block `p`. */
  ghost function FillAt(m: Mount, ino: nat, s: Slot, p: Zone, create: bool): (r: Outcome<(Mount, Zone)>)
    requires m.shell.Sized() && ino in m.shell.files
    ensures r.Done? ==> r.value.0.shell.Sized() && ino in r.value.0.shell.files
  {
    if s.Top? then
      var z := m.shell.files[ino].zone[s.n];
      if z == 0 && create then
        var g :- Balloc(m.shell);
        Done((m.(shell := WithValue(g.vol, Key(ino, s), g.zone)), g.zone))
      else Done((m, z))
    else if p >= m.shell.zones then
      if create then
        var g :- Balloc(m.shell);
        Done((m.(shell := g.vol), 0))
      else Done((m, 0))
    else
      var l :- Load(m.cache, m.Id(p));
      var b := AsBlock(l.1);
      if Entry(b, Offset(s)) == 0 && create then
        var g :- Balloc(m.shell);
        var c :- Perform(l.0, C.Store(m.Id(p), WithEntry(b, Offset(s), g.zone)));
        var d :- Perform(c, C.Release(m.Id(p)));
        Done((Mount(g.vol, m.dev, d), g.zone))
      else
        var d :- Perform(l.0, C.Release(m.Id(p)));
        Done((m.WithCache(d), Entry(b, Offset(s))))
  }

  ghost function MapPath(m: Mount, ino: nat, path: seq<Slot>, p: Zone, create: bool): (r: Outcome<(Mount, Zone)>)
    requires m.shell.Sized() && ino in m.shell.files && |path| > 0
    ensures r.Done? ==> r.value.0.shell.Sized() && ino in r.value.0.shell.files
    decreases |path|
  {
    var f :- FillAt(m, ino, path[0], p, create);
    if |path| == 1 || f.1 == 0 then Done(f) else MapPath(f.0, ino, path[1..], f.1, create)
  }

  /** `bmap`. */
  ghost function Map(m: Mount, ino: nat, block: nat, create: bool): (r: Outcome<(Mount, Zone)>)
    requires m.shell.Sized() && ino in m.shell.files
    ensures r.Done? ==> r.value.0.shell.Sized() && ino in r.value.0.shell.files
  {
    if block >= TOTAL_BLOCKS then Halt(Rejected) else MapPath(m, ino, Path(block), 0, create)
  }

  /** The round of `inode_write` for one chunk, once `bmap` has returned zone `z`. */
  ghost function PutChunk(m: Mount, ino: nat, z: Zone, offset: nat, bytes: seq<Byte>): (r: Outcome<Mount>)
    requires m.shell.Sized() && ino in m.shell.files && offset % BLOCK_SIZE + |bytes| <= BLOCK_SIZE
    ensures r.Done? ==> r.value.shell.Sized() && ino in r.value.shell.files
  {
    var file := m.shell.files[ino];
    var n := WithFile(m, ino, file.(size := Max(file.size, offset + |bytes|)));
    if z >= m.shell.zones then Done(n)
    else
      var l :- Load(m.cache, m.Id(z));
      var c :- Perform(l.0, C.Store(m.Id(z), Patch(AsBlock(l.1), offset % BLOCK_SIZE, bytes)));
      var d :- Perform(c, C.Release(m.Id(z)));
      Done(n.WithCache(d))
  }

  /** `inode_write`: the loop from `offset` on, with `data` still to write. */
  ghost function PutFrom(m: Mount, ino: nat, data: seq<Byte>, offset: nat): (r: Outcome<Mount>)
    requires m.shell.Sized() && ino in m.shell.files
    ensures r.Done? ==> r.value.shell.Sized()
    decreases |data|
  {
    if data == [] then Done(m)
    else
      var g :- Map(m, ino, offset / BLOCK_SIZE, true);
      if g.1 == 0 then Halt(Rejected)
      else
        var n := ChunkSize(offset, |data|);
        var w :- PutChunk(g.0, ino, g.1, offset, data[..n]);
        PutFrom(w, ino, data[n..], offset + n)
  }

  ghost function GetBlock(m: Mount, z: Zone): (r: Outcome<(Mount, Block)>)
    ensures r.Done? ==> r.value.0.shell == m.shell
  {
    if z >= m.shell.zones then Done((m, ZeroBlock()))
    else
      var l :- Load(m.cache, m.Id(z));
      var d :- Perform(l.0, C.Release(m.Id(z)));
      Done((m.WithCache(d), AsBlock(l.1)))
  }

  /** `inode_read`: the loop, `left` bytes from `at` on. */
  ghost function GetFrom(m: Mount, ino: nat, left: nat, at: nat): (r: Outcome<(Mount, seq<Byte>)>)
    requires m.shell.Sized() && ino in m.shell.files
    ensures r.Done? ==> r.value.0.shell.Sized()
    decreases left
  {
    if left == 0 then Done((m, []))
    else
      var g :- Map(m, ino, at / BLOCK_SIZE, false);
      if g.1 == 0 then Halt(Rejected)
      else
        var b :- GetBlock(g.0, g.1);
        var n := ChunkSize(at, left);
        var rest :- GetFrom(b.0, ino, left - n, at + n);
        Done((rest.0, b.1[at % BLOCK_SIZE..at % BLOCK_SIZE + n] + rest.1))
  }

  /** The bytes of a held buffer. */
  ghost function Bytes(m: Mount, z: Zone): Block {
    if C.Shaped(m.cache) && C.Find(m.cache, m.Id(z)).Some? then
      AsBlock(m.cache.buffers[C.Find(m.cache, m.Id(z)).value].data)
    else ZeroBlock()
  }

  /** `bfree`. */
  ghost function Give(m: Mount, z: Zone): (r: Outcome<Mount>)
    requires m.shell.Sized()
    ensures r.Done? ==> r.value.shell.Sized() && r.value.shell.files == m.shell.files
  {
    var v :- Bfree(m.shell, z);
    Done(m.(shell := v))
  }

  /** `inode_bfree` for a slot that holds `z`: an index block is held while its entries are freed. */
  ghost function GiveTree(m: Mount, z: Zone, level: nat): (r: Outcome<Mount>)
    requires m.shell.Sized()
    ensures r.Done? ==> r.value.shell.Sized() && r.value.shell.files == m.shell.files
    decreases level, 513
  {
    if z == 0 then Done(m)
    else if level == 0 || z >= m.shell.zones then Give(m, z)
    else
      var l :- Load(m.cache, m.Id(z));
      var n :- GiveEntries(m.WithCache(l.0), z, level, 0);
      var d :- Perform(n.cache, C.Release(n.Id(z)));
      Give(n.WithCache(d), z)
  }

  ghost function GiveEntries(m: Mount, z: Zone, level: nat, i: nat): (r: Outcome<Mount>)
    requires m.shell.Sized() && level > 0 && i <= INDEXES
    ensures r.Done? ==> r.value.shell.Sized() && r.value.shell.files == m.shell.files
    decreases level, INDEXES - i
  {
    if i == INDEXES then Done(m)
    else
      var n :- GiveTree(m, Entry(Bytes(m, z), i), level - 1);
      GiveEntries(n, z, level, i + 1)
  }

  /** `inode_truncate`, from top slot `i` on. */
  ghost function EmptyFile(m: Mount, ino: nat, i: nat): (r: Outcome<Mount>)
    requires m.shell.Sized() && ino in m.shell.files && i <= 9
    ensures r.Done? ==> r.value.shell.Sized()
    decreases 9 - i
  {
    var file := m.shell.files[ino];
    if i == 9 then Done(WithFile(m, ino, file.(size := 0)))
    else
      var n :- GiveTree(m, file.zone[i], TopLevel(i));
      EmptyFile(WithFile(n, ino, file.(zone := file.zone[i := 0])), ino, i + 1)
  }

  function WithFile(m: Mount, ino: nat, file: Inode): (n: Mount)
    requires m.shell.Sized()
    ensures n.shell.Sized() && ino in n.shell.files
  {
    m.(shell := m.shell.(files := m.shell.files[ino := file]))
  }

  // ---------- Runs of calls ----------

  ghost function Serve(m: Mount, c: Call): (r: Outcome<Answer<Mount>>)
    requires m.shell.Sized() && Known(m.shell, c)
    ensures r.Done? ==> r.value.next.shell.Sized()
  {
    match c
    case Create(ino) => Done(Answer(WithFile(m, ino, Inode(seq(9, i => 0), 0)), Reply(0, [])))
    case Write(ino, data, offset) =>
      var n :- PutFrom(m, ino, data, offset);
      Done(Answer(n, Reply(|data|, [])))
    case Read(ino, len, offset) =>
      var size := m.shell.files[ino].size;
      if offset >= size then Done(Answer(m, Reply(-1, [])))
      else
        var g :- GetFrom(m, ino, Min(len, size - offset), offset);
        Done(Answer(g.0, Reply(|g.1|, g.1)))
    case Truncate(ino) =>
      var n :- EmptyFile(m, ino, 0);
      Done(Answer(n, Reply(0, [])))
  }

  ghost function ServeAll(m: Mount, calls: seq<Call>): Outcome<(Mount, seq<Reply>)>
    requires m.shell.Sized()
    decreases |calls|
  {
    if calls == [] then Done((m, []))
    else if !Known(m.shell, calls[0]) then Halt(Rejected)
    else
      var a :- Serve(m, calls[0]);
      var rest :- ServeAll(a.next, calls[1..]);
      Done((rest.0, [a.reply] + rest.1))
  }

  // ---------- Seen and unseen ----------

  lemma ShellAlloc(m: Mount)
    requires m.shell.Sized()
    ensures var g, v := Balloc(m.shell), Balloc(Seen(m));
      && (v.Halt? ==> g == Halt(v.why))
      && (v.Done? ==> g.Done? && g.value.zone == v.value.zone && v.value.vol == Seen(m.(shell := g.value.vol)))
      && (v.Done? ==> g.value.vol == m.shell.(zmap := g.value.vol.zmap))
  {
  }

  lemma SeenBlock(m: Mount, z: Zone)
    requires Ready(m)
    ensures z < m.shell.zones ==> Seen(m).Block(z) == C.Seen(m.cache, m.Id(z)) == AsBlock(C.Seen(m.cache, m.Id(z)))
    ensures z >= m.shell.zones ==> Seen(m).Block(z) == ZeroBlock()
  {
  }

  lemma AfterSelf(m: Mount)
    requires Ready(m)
    ensures After(m, m)
  {
    hide C.Good, C.Seen, Kept;
    KeptSelf(m.cache);
  }

  lemma AfterTwice(m: Mount, n: Mount, k: Mount)
    requires After(m, n) && After(n, k)
    ensures After(m, k)
  {
    hide C.Good, C.Seen, Kept;
    KeptTwice(m.cache, n.cache, k.cache);
  }

  /** The bitmap and the inodes change, the cache does not. */
  lemma NewShell(m: Mount, shell: Volume)
    requires Ready(m) && shell.Sized() && shell.zones == m.shell.zones
    ensures var n := m.(shell := shell); After(m, n) && Seen(n).blocks == Seen(m).blocks
  {
    hide C.Good, C.Seen, Kept;
    KeptSelf(m.cache);
    assert forall z: Zone :: m.(shell := shell).Id(z) == m.Id(z);
  }

  /** A block was read and released. */
  lemma PeekedAt(m: Mount, z: Zone)
    requires Ready(m) && Spare(m.cache) > 0 && z < m.shell.zones
    ensures var l := Load(m.cache, m.Id(z));
      && l.Done? && AsBlock(l.value.1) == Seen(m).Block(z)
      && var r := Perform(l.value.0, C.Release(m.Id(z)));
      && r.Done? && After(m, m.WithCache(r.value)) && Seen(m.WithCache(r.value)) == Seen(m)
  {
    hide C.Good, C.Seen, Kept, Load, Perform;
    Peeked(m.cache, m.Id(z));
    SeenBlock(m, z);
    SameBlocks(m, Perform(Load(m.cache, m.Id(z)).value.0, C.Release(m.Id(z))).value);
  }

  lemma SameBlocks(m: Mount, c: C.Cache)
    requires Ready(m) && Kept(m.cache, c) && C.SameSeen(m.cache, c)
    ensures After(m, m.WithCache(c)) && Seen(m.WithCache(c)) == Seen(m)
  {
    hide C.Good, C.Seen;
    assert forall z: Zone :: m.WithCache(c).Id(z) == m.Id(z);
    assert Seen(m.WithCache(c)).blocks == Seen(m).blocks;
  }

  /** A block was read, changed and released. */
  lemma PokedAt(m: Mount, z: Zone, b: Block)
    requires Ready(m) && Spare(m.cache) > 0 && z < m.shell.zones
    ensures var l := Load(m.cache, m.Id(z));
      && l.Done? && AsBlock(l.value.1) == Seen(m).Block(z)
      && var s := Perform(l.value.0, C.Store(m.Id(z), b));
      && s.Done?
      && var r := Perform(s.value, C.Release(m.Id(z)));
      && r.Done? && After(m, m.WithCache(r.value)) && Seen(m.WithCache(r.value)) == Seen(m).WithBlock(z, b)
  {
    hide C.Good, C.Seen, Kept, Load, Perform;
    Poked(m.cache, m.Id(z), b);
    SeenBlock(m, z);
    var n := m.WithCache(Perform(Perform(Load(m.cache, m.Id(z)).value.0, C.Store(m.Id(z), b)).value, C.Release(m.Id(z))).value);
    assert forall y: Zone :: n.Id(y) == m.Id(y) && (m.Id(y) == m.Id(z) <==> y == z);
    KeptGood(m.cache, n.cache);
    assert Seen(n).blocks == Seen(m).blocks[z := b];
  }

  lemma KeptGood(c: C.Cache, d: C.Cache)
    requires Kept(c, d)
    ensures C.Good(d) && Spare(d) == Spare(c)
  {
    hide C.Good;
  }

  // ---------- bmap ----------

  /** An empty slot that was filled holds the zone, however the index blocks lie. */
  lemma FilledReads(vol: Volume, k: Key, z: Zone)
    requires k.ino in vol.files && Value(vol, k) == 0
    requires !k.slot.Top? ==> 0 < Value(vol, Key(k.ino, Parent(k.slot))) < |vol.blocks|
    ensures Value(WithValue(vol, k, z), k) == z
  {
    hide WithEntry, Entry;
    if !k.slot.Top? {
      var p := Value(vol, Key(k.ino, Parent(k.slot)));
      forall b: Block, j: Index {
        EntryAfter(b, Offset(k.slot), z, j);
      }
    }
  }

  ghost predicate FillAgrees(m: Mount, ino: nat, s: Slot, p: Zone, create: bool)
    requires m.shell.Sized() && ino in m.shell.files
  {
    var r, v := FillAt(m, ino, s, p, create), Fill(Seen(m), Key(ino, s), create);
    && (v.Halt? ==> r == Halt(v.why))
    && (v.Done? ==>
          && r.Done? && After(m, r.value.0) && Seen(r.value.0) == v.value && r.value.1 == Value(v.value, Key(ino, s)))
  }

  lemma FillTop(m: Mount, ino: nat, s: Slot, p: Zone, create: bool)
    requires Ready(m) && ino in m.shell.files && s.Top?
    ensures FillAgrees(m, ino, s, p, create)
  {
    hide C.Good, C.Seen, Kept, Balloc, Ready, After;
    ShellAlloc(m);
    AfterSelf(m);
    var g := Balloc(m.shell);
    if m.shell.files[ino].zone[s.n] == 0 && create && g.Done? {
      NewShell(m, WithValue(g.value.vol, Key(ino, s), g.value.zone));
    }
  }

  lemma FillBehind(m: Mount, ino: nat, s: Slot, p: Zone, create: bool)
    requires Ready(m) && ino in m.shell.files && !s.Top? && p >= m.shell.zones
    requires p == Value(Seen(m), Key(ino, Parent(s)))
    ensures FillAgrees(m, ino, s, p, create)
  {
    hide C.Good, C.Seen, Kept, Balloc, Ready, After, Value, Seen;
    ShellAlloc(m);
    AfterSelf(m);
    SeenBlock(m, p);
    ValueBelow(Seen(m), Key(ino, s));
    ZeroEntry(Offset(s));
    var g := Balloc(m.shell);
    if create && g.Done? {
      var n := m.(shell := g.value.vol);
      NewShell(m, n.shell);
      SameValues(Seen(m), Seen(n), Key(ino, s));
      SameValues(Seen(m), Seen(n), Key(ino, Parent(s)));
    }
  }

  /** The entry of a fresh zone is stored in the index block. */
  lemma FillStores(m: Mount, ino: nat, s: Slot, p: Zone, g: Grant)
    requires Ready(m) && Spare(m.cache) > 0 && ino in m.shell.files && !s.Top? && 0 < p < m.shell.zones
    requires p == Value(Seen(m), Key(ino, Parent(s))) && Value(Seen(m), Key(ino, s)) == 0
    requires g.vol == m.shell.(zmap := g.vol.zmap) && g.vol.Sized()
    ensures var b := WithEntry(Seen(m).Block(p), Offset(s), g.zone);
      var l := Load(m.cache, m.Id(p));
      && l.Done?
      && var c := Perform(l.value.0, C.Store(m.Id(p), b));
      && c.Done?
      && var d := Perform(c.value, C.Release(m.Id(p)));
      && d.Done?
      && var n := Mount(g.vol, m.dev, d.value);
      && After(m, n) && Seen(n) == WithValue(Seen(m.(shell := g.vol)), Key(ino, s), g.zone)
      && Value(Seen(n), Key(ino, s)) == g.zone
  {
    hide C.Good, C.Seen, Kept, Ready, After, Value, Load, Perform, WithEntry, Seen;
    var b := WithEntry(Seen(m).Block(p), Offset(s), g.zone);
    PokedAt(m, p, b);
    var d := Perform(Perform(Load(m.cache, m.Id(p)).value.0, C.Store(m.Id(p), b)).value, C.Release(m.Id(p))).value;
    NewShell(m, g.vol);
    NewShell(m.WithCache(d), g.vol);
    AfterTwice(m, m.WithCache(d), Mount(g.vol, m.dev, d));
    var v := Seen(m.(shell := g.vol));
    SameValues(Seen(m), v, Key(ino, s));
    SameValues(Seen(m), v, Key(ino, Parent(s)));
    FilledReads(v, Key(ino, s), g.zone);
  }

  lemma FillBelow(m: Mount, ino: nat, s: Slot, p: Zone, create: bool)
    requires Ready(m) && Spare(m.cache) > 0 && ino in m.shell.files && !s.Top? && 0 < p < m.shell.zones
    requires p == Value(Seen(m), Key(ino, Parent(s)))
    ensures FillAgrees(m, ino, s, p, create)
  {
    hide C.Good, C.Seen, Kept, Balloc, Ready, After, Value, Seen, Load, Perform;
    var vol := Seen(m);
    ValueBelow(vol, Key(ino, s));
    PeekedAt(m, p);
    if Value(vol, Key(ino, s)) == 0 && create {
      ShellAlloc(m);
      var g := Balloc(m.shell);
      if g.Done? {
        FillStores(m, ino, s, p, g.value);
      }
    }
  }

  lemma FillSame(m: Mount, ino: nat, s: Slot, p: Zone, create: bool)
    requires Ready(m) && Spare(m.cache) > 0 && ino in m.shell.files
    requires !s.Top? ==> p != 0 && p == Value(Seen(m), Key(ino, Parent(s)))
    ensures FillAgrees(m, ino, s, p, create)
  {
    hide FillAgrees, Ready, Seen, Value;
    if s.Top? {
      FillTop(m, ino, s, p, create);
    } else if p >= m.shell.zones {
      FillBehind(m, ino, s, p, create);
    } else {
      FillBelow(m, ino, s, p, create);
    }
  }

  ghost predicate MapAgrees(m: Mount, r: Outcome<(Mount, Zone)>, v: Outcome<Grant>)
    requires m.shell.Sized()
  {
    && (v.Halt? ==> r == Halt(v.why))
    && (v.Done? ==> r.Done? && After(m, r.value.0) && Seen(r.value.0) == v.value.vol && r.value.1 == v.value.zone)
  }

  lemma MapOnce(m: Mount, ino: nat, path: seq<Slot>, i: nat, p: Zone, create: bool)
    requires m.shell.Sized() && ino in m.shell.files && i < |path|
    ensures var f := FillAt(m, ino, path[i], p, create);
      MapPath(m, ino, path[i..], p, create) ==
        if f.Halt? then Halt(f.why) else if i + 1 == |path| || f.value.1 == 0 then f
        else MapPath(f.value.0, ino, path[i + 1..], f.value.1, create)
  {
    hide FillAt;
    assert path[i..][1..] == path[i + 1..];
  }

  lemma {:induction false} PathSame(m: Mount, ino: nat, b: FileBlock, i: nat, p: Zone, create: bool)
    requires Ready(m) && Spare(m.cache) > 0 && ino in m.shell.files && i < |Path(b)|
    requires i > 0 ==> p != 0 && p == Value(Seen(m), Key(ino, Path(b)[i - 1]))
    ensures MapAgrees(m, MapPath(m, ino, Path(b)[i..], p, create), BmapPath(Seen(m), ino, Path(b)[i..], create))
    decreases |Path(b)| - i
  {
    hide Ready, Seen, After, Value, Path, Fill, FillAt, MapPath, BmapPath;
    PathParents(b);
    FillSame(m, ino, Path(b)[i], p, create);
    MapOnce(m, ino, Path(b), i, p, create);
    PathOnce(Seen(m), ino, Path(b), i, create);
    var f := FillAt(m, ino, Path(b)[i], p, create);
    if f.Done? && i + 1 < |Path(b)| && f.value.1 != 0 {
      PathSame(f.value.0, ino, b, i + 1, f.value.1, create);
      var r := MapPath(f.value.0, ino, Path(b)[i + 1..], f.value.1, create);
      if r.Done? {
        AfterTwice(m, f.value.0, r.value.0);
      }
    }
  }

  /** `bmap` through the cache is `bmap` on the volume. */
  lemma MapSame(m: Mount, ino: nat, block: nat, create: bool)
    requires Ready(m) && Spare(m.cache) > 0 && ino in m.shell.files
    ensures MapAgrees(m, Map(m, ino, block, create), Bmap(Seen(m), ino, block, create))
  {
    hide Ready, Seen, After, Value, MapPath, BmapPath;
    if block < TOTAL_BLOCKS {
      PathSame(m, ino, block, 0, 0, create);
      assert Path(block)[0..] == Path(block);
    }
  }

  // ---------- inode_write ----------

  ghost predicate Same(m: Mount, r: Outcome<Mount>, v: Outcome<Volume>)
    requires m.shell.Sized()
  {
    && (v.Halt? ==> r == Halt(v.why))
    && (v.Done? ==> r.Done? && After(m, r.value) && Seen(r.value) == v.value)
  }

  lemma ChunkSame(m: Mount, ino: nat, z: Zone, offset: nat, bytes: seq<Byte>)
    requires Ready(m) && Spare(m.cache) > 0 && ino in m.shell.files && offset % BLOCK_SIZE + |bytes| <= BLOCK_SIZE
    ensures Same(m, PutChunk(m, ino, z, offset, bytes), Done(WriteChunk(Seen(m), ino, z, offset, bytes)))
  {
    hide C.Good, C.Seen, Kept, Ready, After, Load, Perform, Seen, Patch;
    var file := m.shell.files[ino];
    var shell := WithFile(m, ino, file.(size := Max(file.size, offset + |bytes|))).shell;
    NewShell(m, shell);
    if z < m.shell.zones {
      var b := Patch(Seen(m).Block(z), offset % BLOCK_SIZE, bytes);
      PokedAt(m, z, b);
      var d := Perform(Perform(Load(m.cache, m.Id(z)).value.0, C.Store(m.Id(z), b)).value, C.Release(m.Id(z))).value;
      NewShell(m.WithCache(d), shell);
      AfterTwice(m, m.WithCache(d), m.WithCache(d).(shell := shell));
    }
  }

  lemma PutOnce(m: Mount, ino: nat, data: seq<Byte>, offset: nat)
    requires m.shell.Sized() && ino in m.shell.files && data != []
    ensures var g, n := Map(m, ino, offset / BLOCK_SIZE, true), ChunkSize(offset, |data|);
      PutFrom(m, ino, data, offset) ==
        if g.Halt? then Halt(g.why) else if g.value.1 == 0 then Halt(Rejected)
        else
          var w := PutChunk(g.value.0, ino, g.value.1, offset, data[..n]);
          if w.Halt? then Halt(w.why) else PutFrom(w.value, ino, data[n..], offset + n)
  {
    hide Map, PutChunk;
  }

  lemma {:induction false} PutSame(m: Mount, ino: nat, data: seq<Byte>, offset: nat)
    requires Ready(m) && Spare(m.cache) > 0 && ino in m.shell.files
    ensures Same(m, PutFrom(m, ino, data, offset), WriteFrom(Seen(m), ino, data, offset))
    decreases |data|
  {
    hide Ready, After, Seen, Map, Bmap, PutChunk, WriteChunk, PutFrom, WriteFrom;
    WriteOnce(Seen(m), ino, data, offset);
    if data == [] {
      AfterSelf(m);
      assert PutFrom(m, ino, data, offset) == Done(m) by {
        PutNothing(m, ino, offset);
      }
    } else {
      PutOnce(m, ino, data, offset);
      MapSame(m, ino, offset / BLOCK_SIZE, true);
      var g, n := Map(m, ino, offset / BLOCK_SIZE, true), ChunkSize(offset, |data|);
      if g.Done? && g.value.1 != 0 {
        ChunkSame(g.value.0, ino, g.value.1, offset, data[..n]);
        var w := PutChunk(g.value.0, ino, g.value.1, offset, data[..n]).value;
        AfterTwice(m, g.value.0, w);
        PutSame(w, ino, data[n..], offset + n);
        var r := PutFrom(w, ino, data[n..], offset + n);
        if r.Done? {
          AfterTwice(m, w, r.value);
        }
      }
    }
  }

  lemma PutNothing(m: Mount, ino: nat, offset: nat)
    requires m.shell.Sized() && ino in m.shell.files
    ensures PutFrom(m, ino, [], offset) == Done(m)
  {
  }

  // ---------- inode_read ----------

  ghost predicate GetAgrees(m: Mount, r: Outcome<(Mount, seq<Byte>)>, v: Outcome<seq<Byte>>)
    requires m.shell.Sized()
  {
    && (v.Halt? ==> r == Halt(v.why))
    && (v.Done? ==> r.Done? && After(m, r.value.0) && Seen(r.value.0) == Seen(m) && r.value.1 == v.value)
  }

  lemma BlockSame(m: Mount, z: Zone)
    requires Ready(m) && Spare(m.cache) > 0
    ensures var r := GetBlock(m, z);
      r.Done? && After(m, r.value.0) && Seen(r.value.0) == Seen(m) && r.value.1 == Seen(m).Block(z)
  {
    hide C.Good, C.Seen, Kept, Ready, After, Load, Perform, Seen;
    SeenBlock(m, z);
    AfterSelf(m);
    if z < m.shell.zones {
      PeekedAt(m, z);
    }
  }

  lemma {:induction false} GetSame(m: Mount, ino: nat, left: nat, at: nat)
    requires Ready(m) && Spare(m.cache) > 0 && ino in m.shell.files
    ensures GetAgrees(m, GetFrom(m, ino, left, at), ReadFrom(Seen(m), ino, left, at))
    decreases left
  {
    hide Ready, After, Seen, Map, Bmap, GetBlock;
    if left == 0 {
      AfterSelf(m);
    } else {
      MapSame(m, ino, at / BLOCK_SIZE, false);
      LooksOnly(Seen(m), ino, at / BLOCK_SIZE);
      var g, n := Map(m, ino, at / BLOCK_SIZE, false), ChunkSize(at, left);
      if g.Done? && g.value.1 != 0 {
        BlockSame(g.value.0, g.value.1);
        var b := GetBlock(g.value.0, g.value.1).value.0;
        AfterTwice(m, g.value.0, b);
        GetSame(b, ino, left - n, at + n);
        var r := GetFrom(b, ino, left - n, at + n);
        if r.Done? {
          AfterTwice(m, b, r.value.0);
        }
      }
    }
  }

  lemma LooksOnly(vol: Volume, ino: nat, block: nat)
    requires vol.Sized() && ino in vol.files
    ensures var r := Bmap(vol, ino, block, false);
      r.Done? ==> r.value.vol == vol
  {
    hide BmapPath;
    if block < TOTAL_BLOCKS {
      BmapLooks(vol, ino, block);
    }
  }

  // ---------- inode_truncate ----------

  /** An index block is read and held. */
  lemma EnteredAt(m: Mount, z: Zone)
    requires Ready(m) && Spare(m.cache) > 0 && z < m.shell.zones
    ensures var l := Load(m.cache, m.Id(z));
      && l.Done?
      && var n := m.WithCache(l.value.0);
      && Ready(n) && Seen(n) == Seen(m) && C.SameSeen(m.cache, n.cache) && Spare(n.cache) >= Spare(m.cache) - 1
      && C.Shaped(n.cache) && Holders(n.cache, n.Id(z)) > 0
  {
    hide C.Good, C.Seen, Load, Holders;
    Entered(m.cache, m.Id(z));
    var n := m.WithCache(Load(m.cache, m.Id(z)).value.0);
    assert forall y: Zone :: n.Id(y) == m.Id(y);
    assert Seen(n).blocks == Seen(m).blocks;
  }

  /** And released, when all else is as it was. */
  lemma LeftAt(m: Mount, z: Zone, n: Mount)
    requires Ready(m) && Spare(m.cache) > 0 && z < m.shell.zones && Load(m.cache, m.Id(z)).Done?
    requires var l := m.WithCache(Load(m.cache, m.Id(z)).value.0); C.SameSeen(m.cache, l.cache) && After(l, n)
    ensures var r := Perform(n.cache, C.Release(n.Id(z)));
      r.Done? && After(m, n.WithCache(r.value)) && Seen(n.WithCache(r.value)) == Seen(n)
  {
    hide C.Good, C.Seen, Load, Perform, Kept;
    Left(m.cache, m.Id(z), n.cache);
    var d := n.WithCache(Perform(n.cache, C.Release(n.Id(z))).value);
    KeptGood(m.cache, d.cache);
    assert forall y: Zone :: d.Id(y) == n.Id(y);
    assert Seen(d).blocks == Seen(n).blocks;
  }

  lemma HeldBytes(m: Mount, z: Zone)
    requires Ready(m) && z < m.shell.zones && C.Shaped(m.cache) && Holders(m.cache, m.Id(z)) > 0
    ensures Bytes(m, z) == Seen(m).Block(z)
  {
    hide C.Good, C.Seen, Holders, C.Find, Seen;
    HeldFound(m.cache, m.Id(z));
    SeenBlock(m, z);
  }

  lemma StillHeld(m: Mount, n: Mount, z: Zone)
    requires After(m, n) && C.Shaped(m.cache) && Holders(m.cache, m.Id(z)) > 0
    ensures C.Shaped(n.cache) && Holders(n.cache, n.Id(z)) > 0
  {
    hide C.Good, C.Seen, Holders, Ready;
    assert Kept(m.cache, n.cache);
    C.GoodShaped(n.cache);
  }

  lemma GiveSame(m: Mount, z: Zone)
    requires Ready(m)
    ensures Same(m, Give(m, z), Bfree(Seen(m), z))
  {
    hide Ready, After, C.Seen, C.Good;
    var v := Bfree(m.shell, z);
    if v.Done? {
      NewShell(m, v.value);
    }
  }

  lemma GiveEntriesOnce(m: Mount, z: Zone, level: nat, i: nat)
    requires m.shell.Sized() && level > 0 && i <= INDEXES
    ensures i == INDEXES ==> GiveEntries(m, z, level, i) == Done(m)
    ensures i < INDEXES ==>
      var n := GiveTree(m, Entry(Bytes(m, z), i), level - 1);
      GiveEntries(m, z, level, i) == if n.Halt? then Halt(n.why) else GiveEntries(n.value, z, level, i + 1)
  {
    hide GiveTree, Bytes;
  }

  lemma {:induction false} EntriesSame(m: Mount, z: Zone, level: nat, i: nat)
    requires Ready(m) && level > 0 && i <= INDEXES && Spare(m.cache) >= level - 1
    requires z < m.shell.zones && C.Shaped(m.cache) && Holders(m.cache, m.Id(z)) > 0
    ensures Same(m, GiveEntries(m, z, level, i), FreeEntries(Seen(m), z, level, i))
    decreases level, INDEXES - i
  {
    hide Ready, After, Seen, GiveTree, GiveEntries, FreeTree, FreeEntries, Holders, Bytes, C.Shaped;
    GiveEntriesOnce(m, z, level, i);
    EntriesOnce(Seen(m), z, level, i);
    AfterSelf(m);
    if i < INDEXES {
      HeldBytes(m, z);
      var e := Entry(Seen(m).Block(z), i);
      TreeSame(m, e, level - 1);
      var n := GiveTree(m, e, level - 1);
      if n.Done? {
        StillHeld(m, n.value, z);
        EntriesSame(n.value, z, level, i + 1);
        var r := GiveEntries(n.value, z, level, i + 1);
        if r.Done? {
          AfterTwice(m, n.value, r.value);
        }
      }
    }
  }

  lemma {:induction false} NoEntriesFreed(vol: Volume, z: Zone, level: nat, i: nat)
    requires vol.Sized() && level > 0 && i <= INDEXES && vol.Block(z) == ZeroBlock()
    ensures FreeEntries(vol, z, level, i) == Done(vol)
    decreases INDEXES - i
  {
    hide FreeEntries, FreeTree;
    EntriesOnce(vol, z, level, i);
    if i == INDEXES {
    } else {
      ZeroEntry(i);
      TreeOnce(vol, 0, level - 1);
      NoEntriesFreed(vol, z, level, i + 1);
    }
  }

  lemma GiveTreeOnce(m: Mount, z: Zone, level: nat)
    requires m.shell.Sized()
    ensures z == 0 ==> GiveTree(m, z, level) == Done(m)
    ensures z != 0 && (level == 0 || z >= m.shell.zones) ==> GiveTree(m, z, level) == Give(m, z)
    ensures z != 0 && level > 0 && z < m.shell.zones ==>
      var l := Load(m.cache, m.Id(z));
      GiveTree(m, z, level) ==
        if l.Halt? then Halt(l.why)
        else
          var n := GiveEntries(m.WithCache(l.value.0), z, level, 0);
          if n.Halt? then Halt(n.why)
          else
            var d := Perform(n.value.cache, C.Release(n.value.Id(z)));
            if d.Halt? then Halt(d.why) else Give(n.value.WithCache(d.value), z)
  {
    hide GiveEntries, Give, Load, Perform;
  }

  lemma {:induction false} TreeSame(m: Mount, z: Zone, level: nat)
    requires Ready(m) && Spare(m.cache) >= level
    ensures Same(m, GiveTree(m, z, level), FreeTree(Seen(m), z, level))
    decreases level, 513
  {
    hide Ready, After, Seen, GiveTree, GiveEntries, Give, FreeTree, FreeEntries, Bfree, Holders, Load, Perform, C.SameSeen;
    GiveTreeOnce(m, z, level);
    TreeOnce(Seen(m), z, level);
    AfterSelf(m);
    if z == 0 {
    } else if level == 0 || z >= m.shell.zones {
      SeenBlock(m, z);
      if level > 0 {
        NoEntriesFreed(Seen(m), z, level, 0);
      }
      GiveSame(m, z);
    } else {
      EnteredAt(m, z);
      var l := m.WithCache(Load(m.cache, m.Id(z)).value.0);
      EntriesSame(l, z, level, 0);
      var n := GiveEntries(l, z, level, 0);
      if n.Done? {
        LeftAt(m, z, n.value);
        var d := n.value.WithCache(Perform(n.value.cache, C.Release(n.value.Id(z))).value);
        GiveSame(d, z);
        var r := Give(d, z);
        if r.Done? {
          AfterTwice(m, d, r.value);
        }
      }
    }
  }

  lemma EmptyFileOnce(m: Mount, ino: nat, i: nat)
    requires m.shell.Sized() && ino in m.shell.files && i <= 9
    ensures i == 9 ==> EmptyFile(m, ino, i) == Done(WithFile(m, ino, m.shell.files[ino].(size := 0)))
    ensures i < 9 ==>
      var file := m.shell.files[ino];
      var n := GiveTree(m, file.zone[i], TopLevel(i));
      EmptyFile(m, ino, i) ==
        if n.Halt? then Halt(n.why) else EmptyFile(WithFile(n.value, ino, file.(zone := file.zone[i := 0])), ino, i + 1)
  {
    hide GiveTree, WithFile;
  }

  lemma NewFile(m: Mount, ino: nat, file: Inode)
    requires Ready(m)
    ensures After(m, WithFile(m, ino, file))
    ensures Seen(WithFile(m, ino, file)) == Seen(m).(files := Seen(m).files[ino := file])
  {
    hide Ready, After, Seen;
    NewShell(m, WithFile(m, ino, file).shell);
  }

  lemma {:induction false} EmptySame(m: Mount, ino: nat, i: nat)
    requires Ready(m) && Spare(m.cache) >= 2 && ino in m.shell.files && i <= 9
    ensures Same(m, EmptyFile(m, ino, i), TruncateFrom(Seen(m), ino, i))
    decreases 9 - i
  {
    hide Ready, After, Seen, GiveTree, FreeTree, EmptyFile, TruncateFrom, WithFile;
    EmptyFileOnce(m, ino, i);
    TruncateOnce(Seen(m), ino, i);
    var file := m.shell.files[ino];
    if i == 9 {
      NewFile(m, ino, file.(size := 0));
    } else {
      TreeSame(m, file.zone[i], TopLevel(i));
      var n := GiveTree(m, file.zone[i], TopLevel(i));
      if n.Done? {
        var next := WithFile(n.value, ino, file.(zone := file.zone[i := 0]));
        NewFile(n.value, ino, file.(zone := file.zone[i := 0]));
        AfterTwice(m, n.value, next);
        EmptySame(next, ino, i + 1);
        var r := EmptyFile(next, ino, i + 1);
        if r.Done? {
          AfterTwice(m, next, r.value);
        }
      }
    }
  }

  // ---------- Runs ----------

  ghost predicate Serves(m: Mount, r: Outcome<Answer<Mount>>, v: Outcome<Answer<Volume>>)
    requires m.shell.Sized()
  {
    && (v.Halt? ==> r == Halt(v.why))
    && (v.Done? ==> r.Done? && After(m, r.value.next) && Answer(Seen(r.value.next), r.value.reply) == v.value)
  }

  /** One call through the cache is the call on the volume. */
  lemma CallSame(m: Mount, c: Call)
    requires Ready(m) && Spare(m.cache) >= 2 && Known(m.shell, c)
    ensures Known(Seen(m), c) && Serves(m, Serve(m, c), Do(Seen(m), c))
  {
    hide Ready, After, Seen, PutFrom, WriteFrom, GetFrom, ReadFrom, EmptyFile, TruncateFrom, WithFile;
    AfterSelf(m);
    match c {
      case Create(ino) => NewFile(m, ino, Inode(seq(9, i => 0), 0));
      case Write(ino, data, offset) => PutSame(m, ino, data, offset);
      case Read(ino, len, offset) =>
        var size := m.shell.files[ino].size;
        if offset < size {
          GetSame(m, ino, Min(len, size - offset), offset);
        }
      case Truncate(ino) => EmptySame(m, ino, 0);
    }
  }

  lemma ServeOnce(m: Mount, calls: seq<Call>)
    requires m.shell.Sized() && calls != [] && Known(m.shell, calls[0])
    ensures ServeAll(m, calls) ==
      match Serve(m, calls[0])
      case Halt(why) => Halt(why)
      case Done(a) =>
        match ServeAll(a.next, calls[1..])
        case Halt(why) => Halt(why)
        case Done(rest) => Done((rest.0, [a.reply] + rest.1))
  {
    hide Serve;
  }

  /** Any run of calls through the cache is the run on the volume, reply by reply and stop by
      stop: the task never waits for a buffer if two can be had, and has released all it took. */
  lemma {:induction false} RunSame(m: Mount, calls: seq<Call>)
    requires Ready(m) && Spare(m.cache) >= 2
    ensures var r, v := ServeAll(m, calls), Run(Seen(m), calls);
      && (v.Halt? ==> r == Halt(v.why))
      && (v.Done? ==> r.Done? && After(m, r.value.0) && (Seen(r.value.0), r.value.1) == v.value)
    decreases |calls|
  {
    hide Ready, After, Seen, Serve, Do;
    AfterSelf(m);
    if calls == [] || !Known(m.shell, calls[0]) {
    } else {
      CallSame(m, calls[0]);
      ServeOnce(m, calls);
      RunOnce(Seen(m), calls);
      var a := Serve(m, calls[0]);
      if a.Done? {
        RunSame(a.value.next, calls[1..]);
        var r := ServeAll(a.value.next, calls[1..]);
        if r.Done? {
          AfterTwice(m, a.value.next, r.value.0);
        }
      }
    }
  }

  /** No block of the volume is held. */
  ghost predicate Idle(m: Mount)
    requires C.Shaped(m.cache)
  {
    forall z: Zone :: Holders(m.cache, m.Id(z)) == 0
  }

  lemma IdleOnDisk(m: Mount)
    requires Ready(m) && C.Shaped(m.cache) && Idle(m)
    ensures OnDisk(m) == Seen(m)
  {
    hide C.Good, C.Seen, Holders;
    forall z: Zone | z < m.shell.zones ensures C.Seen(m.cache, m.Id(z)) == m.cache.Disk(m.Id(z)) {
      Unheld(m.cache, m.Id(z));
    }
    assert OnDisk(m).blocks == Seen(m).blocks;
  }

  lemma StillIdle(m: Mount, n: Mount)
    requires After(m, n) && C.Shaped(m.cache) && Idle(m)
    ensures C.Shaped(n.cache) && Idle(n)
  {
    hide C.Good, C.Seen, Holders, Ready;
    assert Kept(m.cache, n.cache);
    C.GoodShaped(n.cache);
    assert forall z: Zone :: n.Id(z) == m.Id(z);
  }

  /** What a run of calls does to the disk is what it does to the volume on it. */
  lemma DiskSame(m: Mount, calls: seq<Call>)
    requires Ready(m) && Spare(m.cache) >= 2 && C.Shaped(m.cache) && Idle(m)
    ensures var r, v := ServeAll(m, calls), Run(OnDisk(m), calls);
      && (v.Halt? ==> r == Halt(v.why))
      && (v.Done? ==>
            && r.Done? && After(m, r.value.0) && C.Shaped(r.value.0.cache) && Idle(r.value.0)
            && (OnDisk(r.value.0), r.value.1) == v.value)
  {
    hide Ready, After, Seen, OnDisk, ServeAll, Run, Idle, C.Shaped;
    IdleOnDisk(m);
    RunSame(m, calls);
    var r := ServeAll(m, calls);
    if r.Done? && Run(OnDisk(m), calls).Done? {
      StillIdle(m, r.value.0);
      IdleOnDisk(r.value.0);
    }
  }

  /** The whole way down: over any run of calls on any number of files, through `bmap`, the index
      blocks and a cache with two spare buffers, the blocks on the disk stand for the files as
      plain byte sequences once the run is done, and all replies are those of the byte sequences.  It
      stops exactly where the volume has too few zones for a write, or a file or zone is too large. */
  lemma DiskPlain(m: Mount, calls: seq<Call>, clean: bool)
    requires Ready(m) && Spare(m.cache) >= 2 && C.Shaped(m.cache) && Idle(m)
    requires Viewed(OnDisk(m)) && AllowedRun(View(OnDisk(m)), calls)
    requires ServedRun(OnDisk(m), calls) || (Careful(View(OnDisk(m)), calls, clean) && (clean ==> FreeClean(OnDisk(m))))
    ensures var r := ServeAll(m, calls);
      && (r.Done? ==>
            && r.value.0.shell.Sized() && Viewed(OnDisk(r.value.0))
            && (View(OnDisk(r.value.0)), r.value.1) == PlainRun(View(OnDisk(m)), calls))
      && (forall why :: r == Halt(why) <==> Stopped(OnDisk(m), calls, why))
  {
    hide Stopped, Ready, After, OnDisk, ServeAll, Run, Viewed, View, AllowedRun, ServedRun, Careful, PlainRun, Idle, C.Shaped, FreeClean;
    DiskSame(m, calls);
    if ServedRun(OnDisk(m), calls) {
      RunPlain(OnDisk(m), calls);
    } else {
      CarefulRunPlain(OnDisk(m), calls, clean);
    }
  }

  /** A volume on a disk, and the cache as `buffer_init` leaves it. */
  lemma MountReady(shell: Volume, dev: Word32, capacity: nat, disk: map<C.BlockId, C.Data>)
    requires shell.Sized() && capacity >= 2 && forall id | id in disk :: |disk[id]| == BLOCK_SIZE
    ensures var m := Mount(shell, dev, C.Empty(capacity, disk));
      Ready(m) && Spare(m.cache) >= 2 && C.Shaped(m.cache) && Idle(m)
  {
    hide C.Good, C.Seen;
    var m := Mount(shell, dev, C.Empty(capacity, disk));
    C.GoodShaped(m.cache);
  }
}
