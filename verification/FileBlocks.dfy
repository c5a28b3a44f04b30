/** A MINIX volume as src/fs/bmap.c and src/fs/inode.c see it: the zone bitmap, the blocks, and
    for each file the nine zone numbers of its inode.  Index blocks are ordinary blocks read as
    512 little-endian zone numbers. */
module FileBlocks {
  import opened Outcomes
  import opened Bitmaps
  import opened Unsigned

  const BLOCK_SIZE: nat := 1024
  const BLOCK_BITS: nat := 8192
  const INDEXES: nat := 512
  const DIRECT: nat := 7
  const TOTAL_BLOCKS: nat := 7 + 512 + 512 * 512

  /** A zone number, a `u16`; 0 means none. */
  type Zone = n: nat | n < 0x10000
  type TopIndex = n: nat | n < 9
  type Index = n: nat | n < 512
  /** The number of a block within a file. */
  type FileBlock = n: nat | n < 7 + 512 + 512 * 512

  type Block = s: seq<Byte> | |s| == 1024 witness seq(1024, i => 0)

  function ZeroBlock(): Block {
    seq(1024, i => 0)
  }

  type Zones = s: seq<Zone> | |s| == 9 witness seq(9, i => 0)

  datatype Inode = Inode(zone: Zones, size: nat)

  /** `zmap` is the one zone-bitmap block: bit `b` stands for zone `b + first - 1`. */
  datatype Volume = Volume(first: nat, zones: nat, zmap: seq<bool>, blocks: seq<Block>, files: map<nat, Inode>) {
    predicate Sized() {
      && 2 < first < zones < 0x10000
      && |zmap| == BLOCK_BITS
      && |blocks| == zones
      && zones - first + 1 <= BLOCK_BITS
    }

    function Block(z: Zone): Block {
      if z < |blocks| then blocks[z] else ZeroBlock()
    }

    function WithBlock(z: Zone, b: Block): (v: Volume)
      ensures v == this.(blocks := v.blocks) && |v.blocks| == |blocks|
    {
      if z < |blocks| then this.(blocks := blocks[z := b]) else this
    }

    /** Whether the bitmap marks zone `z` as used. */
    predicate Used(z: Zone)
      requires Sized() && first <= z < zones
    {
      zmap[z - first + 1]
    }
  }

  // ---------- Index entries ----------

  function Entry(b: Block, i: Index): Zone {
    b[2 * i] as int + 256 * b[2 * i + 1] as int
  }

  function WithEntry(b: Block, i: Index, z: Zone): Block {
    b[2 * i := z % 256][2 * i + 1 := z / 256]
  }

  lemma EntryAfter(b: Block, i: Index, z: Zone, j: Index)
    ensures Entry(WithEntry(b, i, z), j) == if i == j then z else Entry(b, j)
  {
  }

  /** A place that can hold a zone number: in the inode, or in an index block below it. */
  datatype Slot = Top(n: TopIndex) | Ind(i: Index) | Dbl(i: Index) | Leaf(i: Index, j: Index)

  datatype Key = Key(ino: nat, slot: Slot)

  /** The slot naming the block that `s` lies in. */
  function Parent(s: Slot): Slot
    requires !s.Top?
  {
    match s
    case Ind(_) => Top(7)
    case Dbl(_) => Top(8)
    case Leaf(i, _) => Dbl(i)
  }

  function Offset(s: Slot): Index
    requires !s.Top?
  {
    match s
    case Ind(i) => i
    case Dbl(i) => i
    case Leaf(_, j) => j
  }

  /** Slots that name index blocks rather than data. */
  predicate IsIndex(s: Slot) {
    s == Top(7) || s == Top(8) || s.Dbl?
  }

  function Pointer(vol: Volume, z: Zone, i: Index): Zone {
    if z == 0 then 0 else Entry(vol.Block(z), i)
  }

  function Value(vol: Volume, k: Key): Zone {
    if k.ino !in vol.files then 0
    else
      var zone := vol.files[k.ino].zone;
      match k.slot
      case Top(i) => zone[i]
      case Ind(i) => Pointer(vol, zone[7], i)
      case Dbl(i) => Pointer(vol, zone[8], i)
      case Leaf(i, j) => Pointer(vol, Pointer(vol, zone[8], i), j)
  }

  lemma ValueBelow(vol: Volume, k: Key)
    requires !k.slot.Top?
    ensures Value(vol, k) == Pointer(vol, Value(vol, Key(k.ino, Parent(k.slot))), Offset(k.slot))
  {
  }

  /** The slot of data block `b` of a file. */
  function DataSlot(b: FileBlock): Slot {
    if b < 7 then Top(b)
    else if b < 519 then Ind(b - 7)
    else Leaf((b - 519) / 512, (b - 519) % 512)
  }

  lemma DataSlotInjective(a: FileBlock, b: FileBlock)
    ensures DataSlot(a) == DataSlot(b) ==> a == b
    ensures !IsIndex(DataSlot(a))
  {
  }

  // ---------- balloc and bmap ----------

  datatype Grant = Grant(vol: Volume, zone: Zone)

  /** `balloc` on a volume with one bitmap block: the lowest clear bit.  Looking for a second
      bitmap block, or a bit at or above `zones`, fails an assertion. */
  function Balloc(vol: Volume): (r: Outcome<Grant>)
    requires vol.Sized()
    ensures r.Done? ==> r.value.vol.Sized()
  {
    match FirstRun(vol.zmap, 1)
    case None => Halt(OutOfMemory)
    case Some(b) =>
      var z := b + vol.first - 1;
      if z < vol.zones then Done(Grant(vol.(zmap := vol.zmap[b := true]), z)) else Halt(OutOfMemory)
  }

  /** Storing a zone number in a slot whose block exists. */
  function WithValue(vol: Volume, k: Key, z: Zone): (v: Volume)
    requires k.ino in vol.files
    ensures vol.Sized() ==> v.Sized()
  {
    var file := vol.files[k.ino];
    if k.slot.Top? then vol.(files := vol.files[k.ino := file.(zone := file.zone[k.slot.n := z])])
    else
      var b := Value(vol, Key(k.ino, Parent(k.slot)));
      vol.WithBlock(b, WithEntry(vol.Block(b), Offset(k.slot), z))
  }

  /** The slots `bmap` goes through for data block `b`. */
  function Path(b: FileBlock): (p: seq<Slot>)
    ensures 1 <= |p| <= 3 && p[|p| - 1] == DataSlot(b)
  {
    if b < 7 then [Top(b)]
    else if b < 519 then [Top(7), Ind(b - 7)]
    else [Top(8), Dbl((b - 519) / 512), Leaf((b - 519) / 512, (b - 519) % 512)]
  }

  /** One round of the loop of `bmap`: allocate the slot if it is empty and `create` is set. */
  function Fill(vol: Volume, k: Key, create: bool): (r: Outcome<Volume>)
    requires vol.Sized() && k.ino in vol.files
    ensures r.Done? ==> r.value.Sized() && k.ino in r.value.files
  {
    if Value(vol, k) == 0 && create then
      var g :- Balloc(vol);
      Done(WithValue(g.vol, k, g.zone))
    else Done(vol)
  }

  function BmapPath(vol: Volume, ino: nat, path: seq<Slot>, create: bool): (r: Outcome<Grant>)
    requires vol.Sized() && ino in vol.files && |path| > 0
    ensures r.Done? ==> r.value.vol.Sized() && ino in r.value.vol.files
    decreases |path|
  {
    var vol1 :- Fill(vol, Key(ino, path[0]), create);
    var z := Value(vol1, Key(ino, path[0]));
    if |path| == 1 || z == 0 then Done(Grant(vol1, z)) else BmapPath(vol1, ino, path[1..], create)
  }

  /** `bmap`. */
  function Bmap(vol: Volume, ino: nat, block: nat, create: bool): (r: Outcome<Grant>)
    requires vol.Sized() && ino in vol.files
    ensures r.Done? ==> r.value.vol.Sized() && ino in r.value.vol.files
  {
    if block >= TOTAL_BLOCKS then Halt(Rejected) else BmapPath(vol, ino, Path(block), create)
  }
}
