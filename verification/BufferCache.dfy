/** The block buffer cache (src/kernel/buffer.c): a hash table of buffers over a slow disk, with
    a list of released buffers for reuse.  Used by one task at a time it cannot be told from
    the plain disk. */
module BufferCaches {
  import opened Outcomes
  import opened Collections
  import opened Unsigned

  const HASH_COUNT: nat := 31
  const BLOCK_SIZE: nat := 1024

  type Data = seq<Byte>

  datatype BlockId = BlockId(dev: Word32, block: Word32)

  datatype Buffer = Buffer(id: BlockId, count: nat, dirty: bool, valid: bool, data: Data)

  /** What `get_new_buffer` hands out. */
  const NEW_BUFFER := Buffer(BlockId(0xFFFF_FFFF, 0), 0, false, false, [])

  /** `chains` is the hash table and `free` the list of released buffers, both by buffer number
      with the head first; `capacity` is how many buffers fit in the buffer memory. */
  datatype Cache = Cache(capacity: nat, buffers: seq<Buffer>, chains: seq<seq<nat>>, free: seq<nat>, disk: map<BlockId, Data>) {
    /** A block never written reads as zeros. */
    function Disk(id: BlockId): Data {
      if id in disk then disk[id] else seq(BLOCK_SIZE, _ => 0)
    }

    function With(b: nat, buffer: Buffer): Cache
      requires b < |buffers|
    {
      this.(buffers := buffers[b := buffer])
    }
  }

  function Hash(id: BlockId): (h: nat)
    ensures h < HASH_COUNT
  {
    ((id.dev as bv32 ^ id.block as bv32) as nat) % HASH_COUNT
  }

  // ---------- Lists ----------

  /** The first buffer of a chain that holds block `id`. */
  function FindIn(buffers: seq<Buffer>, chain: seq<nat>, id: BlockId): (r: Option<nat>)
    requires forall i | 0 <= i < |chain| :: chain[i] < |buffers|
    ensures r.Some? ==> r.value in chain && r.value < |buffers| && buffers[r.value].id == id
    ensures r.None? ==> forall i | 0 <= i < |chain| :: buffers[chain[i]].id != id
  {
    if chain == [] then None
    else if buffers[chain[0]].id == id then Some(chain[0])
    else FindIn(buffers, chain[1..], id)
  }

  // ---------- The invariant ----------

  /** Every list holds numbers of existing buffers. */
  ghost predicate Shaped(c: Cache) {
    && |c.chains| == HASH_COUNT
    && (forall h, i | 0 <= h < HASH_COUNT && 0 <= i < |c.chains[h]| :: c.chains[h][i] < |c.buffers|)
    && (forall i | 0 <= i < |c.free| :: c.free[i] < |c.buffers|)
  }

  /** Stands for "no buffer" below. */
  const NOBODY := -1

  /** The hash table lists every buffer but `loose` once, in the chain of its block. */
  ghost predicate Hashed(c: Cache, loose: int) {
    && |c.chains| == HASH_COUNT
    && (forall h: nat, b: nat {:trigger b in c.chains[h]} | h < HASH_COUNT && b in c.chains[h] :: b < |c.buffers| && b != loose && Hash(c.buffers[b].id) == h)
    && (forall h | 0 <= h < HASH_COUNT :: NoDup(c.chains[h]))
    && (forall b: nat | b < |c.buffers| && b != loose :: b in c.chains[Hash(c.buffers[b].id)])
  }

  ghost predicate Distinct(c: Cache, loose: int) {
    forall a, b | 0 <= a < |c.buffers| && 0 <= b < |c.buffers| && a != loose && b != loose && c.buffers[a].id == c.buffers[b].id :: a == b
  }

  /** The free list is exactly the buffers nobody holds. */
  ghost predicate FreeList(c: Cache, loose: int) {
    && NoDup(c.free)
    && forall b: nat :: b in c.free <==> b < |c.buffers| && b != loose && c.buffers[b].count == 0
  }

  /** A clean valid buffer agrees with the disk; a dirty one is valid and held. */
  predicate Coherent(c: Cache, b: Buffer) {
    && (b.dirty ==> b.valid && b.count > 0)
    && (b.valid && !b.dirty ==> b.data == c.Disk(b.id))
  }

  /** The invariant while buffer `loose` is on neither list. */
  ghost predicate InvBut(c: Cache, loose: int) {
    && |c.buffers| <= c.capacity
    && Shaped(c) && Hashed(c, loose) && Distinct(c, loose) && FreeList(c, loose)
    && (forall b | 0 <= b < |c.buffers| :: Coherent(c, c.buffers[b]))
    && (0 <= loose < |c.buffers| ==> c.buffers[loose].count == 0 && !c.buffers[loose].valid)
  }

  ghost predicate Inv(c: Cache) {
    InvBut(c, NOBODY)
  }

  predicate HoldsBlock(c: Cache, b: nat, id: BlockId) {
    b < |c.buffers| && c.buffers[b].id == id && c.buffers[b].valid
  }

  /** The data a reader of block `id` sees: a valid buffer's, or else the disk's. */
  ghost function Seen(c: Cache, id: BlockId): Data {
    if exists b: nat :: HoldsBlock(c, b, id) then
      var b: nat :| HoldsBlock(c, b, id);
      c.buffers[b].data
    else c.Disk(id)
  }

  /** At most one valid buffer holds a block. */
  ghost predicate Single(c: Cache) {
    forall a: nat, b: nat, id: BlockId | HoldsBlock(c, a, id) && HoldsBlock(c, b, id) :: a == b
  }

  lemma InvSingle(c: Cache, loose: int)
    requires InvBut(c, loose)
    ensures Single(c)
  {
    hide Hashed, FreeList, Shaped, Coherent;
  }

  lemma SeenIs(c: Cache, b: nat, id: BlockId)
    requires Single(c) && HoldsBlock(c, b, id)
    ensures Seen(c, id) == c.buffers[b].data
  {
  }

  /** The buffer that holds a block, if one does. */
  lemma Holder(c: Cache, id: BlockId) returns (b: nat)
    requires Single(c)
    ensures HoldsBlock(c, b, id) ==> Seen(c, id) == c.buffers[b].data
    ensures !HoldsBlock(c, b, id) ==> Seen(c, id) == c.Disk(id) && forall a: nat :: !HoldsBlock(c, a, id)
  {
    b := 0;
    if exists a: nat :: HoldsBlock(c, a, id) {
      b :| HoldsBlock(c, b, id);
      SeenIs(c, b, id);
    }
  }

  // ---------- Operations ----------

  datatype Got = Got(c: Cache, b: nat)

  /** `get_from_hash_table`, up to the search of the free list. */
  function Find(c: Cache, id: BlockId): (r: Option<nat>)
    requires Shaped(c)
    ensures r.Some? ==> r.value < |c.buffers| && c.buffers[r.value].id == id
  {
    FindIn(c.buffers, c.chains[Hash(id)], id)
  }

  /** A hit: the buffer leaves the free list and has one more holder. */
  function Hold(c: Cache, b: nat): Cache
    requires b < |c.buffers|
  {
    c.(free := Without<nat>(c.free, b)).With(b, c.buffers[b].(count := c.buffers[b].count + 1))
  }

  /** `get_free_buffer`: a buffer never used, or else the one at the end of the free list.
      None when the task would have to wait. */
  function GetFreeBuffer(c: Cache): (r: Option<Got>)
    requires Shaped(c)
    ensures r.Some? ==> r.value.b < |r.value.c.buffers| && |r.value.c.chains| == HASH_COUNT
  {
    if |c.buffers| < c.capacity then
      Some(Got(c.(buffers := c.buffers + [NEW_BUFFER]), |c.buffers|))
    else if c.free != [] then
      var b := c.free[|c.free| - 1];
      var h := Hash(c.buffers[b].id);
      Some(Got(c.(free := c.free[..|c.free| - 1], chains := c.chains[h := Without<nat>(c.chains[h], b)])
                .With(b, c.buffers[b].(valid := false)), b))
    else None
  }

  /** `getblk` on a miss: the free buffer is given to block `id` and hashed. */
  function Assign(c: Cache, b: nat, id: BlockId): Cache
    requires b < |c.buffers| && |c.chains| == HASH_COUNT
  {
    c.(chains := c.chains[Hash(id) := [b] + c.chains[Hash(id)]])
     .With(b, c.buffers[b].(count := 1, id := id))
  }

  /** `getblk`. */
  function GetBlk(c: Cache, id: BlockId): (r: Option<Got>)
    requires Shaped(c)
    ensures r.Some? ==> r.value.b < |r.value.c.buffers|
  {
    match Find(c, id)
    case Some(b) => Some(Got(Hold(c, b), b))
    case None =>
      match GetFreeBuffer(c)
      case None => None
      case Some(g) => Some(Got(Assign(g.c, g.b, id), g.b))
  }

  /** What `bread` does to a buffer that is not valid. */
  function Fetch(c: Cache, b: nat): Cache
    requires b < |c.buffers|
  {
    c.With(b, c.buffers[b].(data := c.Disk(c.buffers[b].id), dirty := false, valid := true))
  }

  /** `bread`. */
  function BRead(c: Cache, id: BlockId): (r: Option<Got>)
    requires Shaped(c)
    ensures r.Some? ==> r.value.b < |r.value.c.buffers|
  {
    match GetBlk(c, id)
    case None => None
    case Some(g) => if g.c.buffers[g.b].valid then Some(g) else Some(Got(Fetch(g.c, g.b), g.b))
  }

  /** `bwrite`. */
  function BWrite(c: Cache, b: nat): Cache
    requires b < |c.buffers|
  {
    var buffer := c.buffers[b];
    if !buffer.dirty then c
    else c.(disk := c.disk[buffer.id := buffer.data]).With(b, buffer.(dirty := false, valid := true))
  }

  /** `brelse` of a buffer somebody holds. */
  function BRelse(c: Cache, b: nat): Cache
    requires b < |c.buffers| && c.buffers[b].count > 0
  {
    var w := BWrite(c, b);
    var left := w.buffers[b].count - 1;
    var v := w.With(b, w.buffers[b].(count := left));
    if left > 0 then v else v.(free := [b] + v.free)
  }

  /** What a holder of a valid buffer does to its bytes. */
  function Modify(c: Cache, b: nat, data: Data): Cache
    requires b < |c.buffers|
  {
    c.With(b, c.buffers[b].(data := data, dirty := true))
  }

  // ---------- Each operation keeps the invariant and what readers see ----------

  /** Same data for all readers. */
  ghost predicate SameSeen(c: Cache, d: Cache) {
    forall id: BlockId :: Seen(d, id) == Seen(c, id)
  }

  /** Readers see the same when each valid buffer of either state is found in the other, and the
      disk agrees on blocks no buffer holds. */
  lemma SeenKept(c: Cache, d: Cache)
    requires Single(c) && Single(d)
    requires forall b: nat, id: BlockId | HoldsBlock(c, b, id) ::
      (HoldsBlock(d, b, id) && d.buffers[b].data == c.buffers[b].data)
      || (c.buffers[b].data == d.Disk(id) && forall a: nat :: !HoldsBlock(d, a, id))
    requires forall b: nat, id: BlockId | HoldsBlock(d, b, id) && !HoldsBlock(c, b, id) :: d.buffers[b].data == c.Disk(id) && forall a: nat :: !HoldsBlock(c, a, id)
    requires forall id: BlockId | c.Disk(id) != d.Disk(id) :: exists b: nat :: HoldsBlock(c, b, id)
    ensures SameSeen(c, d)
  {
    forall id: BlockId ensures Seen(d, id) == Seen(c, id) {
      var a := Holder(c, id);
      var b := Holder(d, id);
      if HoldsBlock(c, a, id) && HoldsBlock(d, a, id) {
        SeenIs(d, a, id);
      }
    }
  }

  /** Validity, data, counts, dirty bits, the free list and the disk do not matter to the hash
      table. */
  lemma HashedKept(c: Cache, d: Cache)
    requires Shaped(c) && Hashed(c, NOBODY) && Distinct(c, NOBODY) && d.chains == c.chains && |d.buffers| == |c.buffers|
    requires forall b | 0 <= b < |c.buffers| :: d.buffers[b].id == c.buffers[b].id
    requires forall i | 0 <= i < |d.free| :: d.free[i] < |c.buffers|
    ensures Shaped(d) && Hashed(d, NOBODY) && Distinct(d, NOBODY)
  {
    hide Hash;
  }

  lemma HoldInv(c: Cache, b: nat)
    requires Inv(c) && b < |c.buffers|
    ensures Inv(Hold(c, b)) && SameSeen(c, Hold(c, b))
  {
    hide Hash, Hashed, Distinct, Seen, SameSeen, Without;
    var d := Hold(c, b);
    WithoutMember(c.free, b);
    assert forall i | 0 <= i < |d.free| :: d.free[i] in d.free;
    HashedKept(c, d);
    assert forall e | 0 <= e < |d.buffers| :: Coherent(c, c.buffers[e]);
    InvSingle(c, NOBODY);
    InvSingle(d, NOBODY);
    SeenKept(c, d);
  }

  lemma BWriteInv(c: Cache, b: nat)
    requires Inv(c) && b < |c.buffers|
    ensures var d := BWrite(c, b); Inv(d) && SameSeen(c, d) && !d.buffers[b].dirty
  {
    hide Hash, Hashed, Seen, SameSeen;
    var d := BWrite(c, b);
    if c.buffers[b].dirty {
      HashedKept(c, d);
      assert HoldsBlock(c, b, c.buffers[b].id);
      InvSingle(c, NOBODY);
      InvSingle(d, NOBODY);
      SeenKept(c, d);
    } else {
      SameRefl(c);
    }
  }

  lemma SameRefl(c: Cache)
    ensures SameSeen(c, c)
  {
  }

  lemma BRelseInv(c: Cache, b: nat)
    requires Inv(c) && b < |c.buffers| && c.buffers[b].count > 0
    ensures Inv(BRelse(c, b)) && SameSeen(c, BRelse(c, b))
  {
    hide Hash, Hashed, Distinct, Seen;
    BWriteInv(c, b);
    var w, d := BWrite(c, b), BRelse(c, b);
    assert forall y :: y in [b] + w.free <==> y == b || y in w.free;
    assert w.buffers[b].count == 1 ==> b !in w.free;
    HashedKept(w, d);
    assert forall e | 0 <= e < |d.buffers| :: Coherent(w, w.buffers[e]);
    InvSingle(w, NOBODY);
    InvSingle(d, NOBODY);
    SeenKept(w, d);
  }

  /** A write to a buffer changes what readers of its block see, and of no other. */
  lemma ModifyInv(c: Cache, b: nat, data: Data)
    requires Inv(c) && b < |c.buffers| && c.buffers[b].valid && c.buffers[b].count > 0
    ensures var d := Modify(c, b, data);
      && Inv(d)
      && forall id: BlockId :: Seen(d, id) == if id == c.buffers[b].id then data else Seen(c, id)
  {
    hide Hash, Hashed, Seen;
    var d := Modify(c, b, data);
    HashedKept(c, d);
    InvSingle(c, NOBODY);
    InvSingle(d, NOBODY);
    forall id: BlockId ensures Seen(d, id) == if id == c.buffers[b].id then data else Seen(c, id) {
      var a := Holder(c, id);
      var e := Holder(d, id);
      assert forall x: nat :: HoldsBlock(c, x, id) <==> HoldsBlock(d, x, id);
      assert id == c.buffers[b].id ==> HoldsBlock(d, b, id);
    }
  }

  lemma FetchInv(c: Cache, b: nat)
    requires Inv(c) && b < |c.buffers| && !c.buffers[b].valid
    ensures var d := Fetch(c, b);
      Inv(d) && SameSeen(c, d) && d.buffers[b].data == Seen(c, c.buffers[b].id)
  {
    hide Hash, Hashed, Seen, SameSeen;
    var d := Fetch(c, b);
    HashedKept(c, d);
    InvSingle(c, NOBODY);
    InvSingle(d, NOBODY);
    SeenKept(c, d);
    var a := Holder(c, c.buffers[b].id);
  }

  // ---------- getblk on a miss ----------

  lemma NotFound(c: Cache, loose: int, id: BlockId)
    requires Shaped(c) && Hashed(c, loose) && Find(c, id).None?
    ensures forall e: nat | e < |c.buffers| && e != loose :: c.buffers[e].id != id
  {
    hide Hash;
    forall e: nat | e < |c.buffers| && e != loose ensures c.buffers[e].id != id {
      assert e in c.chains[Hash(c.buffers[e].id)];
    }
  }

  /** `get_free_buffer` takes one buffer out of both lists. */
  lemma GetFreeBufferInv(c: Cache)
    requires Inv(c) && GetFreeBuffer(c).Some?
    ensures var g := GetFreeBuffer(c).value; InvBut(g.c, g.b) && SameSeen(c, g.c)
  {
    hide Hash, Hashed, Distinct, FreeList, Seen, SameSeen;
    var g := GetFreeBuffer(c).value;
    assert forall e | 0 <= e < |c.buffers| :: Coherent(c, c.buffers[e]);
    InvSingle(c, NOBODY);
    if |c.buffers| < c.capacity {
      NewBufferHashed(c);
      InvSingle(g.c, g.b);
      SeenKept(c, g.c);
    } else {
      VictimFree(c);
      VictimHashed(c);
      InvSingle(g.c, g.b);
      VictimSeen(c);
    }
  }

  lemma VictimFree(c: Cache)
    requires Shaped(c) && FreeList(c, NOBODY) && |c.buffers| >= c.capacity && c.free != []
    ensures var g := GetFreeBuffer(c).value; FreeList(g.c, g.b) && c.buffers[g.b].count == 0
  {
    hide Hash, Without;
    var last := c.free[|c.free| - 1];
    assert last in c.free;
    assert c.free == c.free[..|c.free| - 1] + [last];
    assert forall y :: y in c.free <==> y in c.free[..|c.free| - 1] || y == last;
  }

  /** The victim is clean, so its data is on the disk. */
  lemma VictimSeen(c: Cache)
    requires Shaped(c) && |c.buffers| >= c.capacity && c.free != [] && Single(c) && Single(GetFreeBuffer(c).value.c)
    requires var b := c.free[|c.free| - 1]; c.buffers[b].count == 0 && Coherent(c, c.buffers[b])
    ensures SameSeen(c, GetFreeBuffer(c).value.c)
  {
    hide Hash, Without, Seen, SameSeen;
    var g := GetFreeBuffer(c).value;
    assert forall a: nat, id: BlockId :: HoldsBlock(g.c, a, id) <==> HoldsBlock(c, a, id) && a != g.b;
    SeenKept(c, g.c);
  }

  lemma NewBufferHashed(c: Cache)
    requires Shaped(c) && Hashed(c, NOBODY) && Distinct(c, NOBODY) && FreeList(c, NOBODY)
    ensures var d := c.(buffers := c.buffers + [NEW_BUFFER]);
      Shaped(d) && Hashed(d, |c.buffers|) && Distinct(d, |c.buffers|) && FreeList(d, |c.buffers|)
  {
    hide Hash;
  }

  lemma VictimHashed(c: Cache)
    requires Shaped(c) && Hashed(c, NOBODY) && Distinct(c, NOBODY) && |c.buffers| >= c.capacity && c.free != []
    ensures var g := GetFreeBuffer(c).value; Shaped(g.c) && Hashed(g.c, g.b) && Distinct(g.c, g.b)
  {
    hide Hash;
    var g := GetFreeBuffer(c).value;
    var h := Hash(c.buffers[g.b].id);
    WithoutMember(c.chains[h], g.b);
    forall k, i | 0 <= k < HASH_COUNT && 0 <= i < |g.c.chains[k]| ensures g.c.chains[k][i] < |g.c.buffers| {
      assert g.c.chains[k][i] in g.c.chains[k];
    }
  }

  lemma AssignInv(c: Cache, b: nat, id: BlockId)
    requires InvBut(c, b) && b < |c.buffers| && forall e: nat | e < |c.buffers| && e != b :: c.buffers[e].id != id
    ensures var d := Assign(c, b, id); Inv(d) && SameSeen(c, d)
  {
    hide Hash, Hashed, Seen, SameSeen;
    var d := Assign(c, b, id);
    AssignHashed(c, b, id);
    assert forall e | 0 <= e < |c.buffers| :: Coherent(c, c.buffers[e]);
    InvSingle(c, b);
    InvSingle(d, NOBODY);
    SeenKept(c, d);
  }

  lemma AssignHashed(c: Cache, b: nat, id: BlockId)
    requires Shaped(c) && Hashed(c, b) && b < |c.buffers|
    ensures Shaped(Assign(c, b, id)) && Hashed(Assign(c, b, id), NOBODY)
  {
    hide Hash;
    var h := Hash(id);
    var d := Assign(c, b, id);
    assert forall x :: x in [b] + c.chains[h] <==> x == b || x in c.chains[h];
    assert b !in c.chains[h];
    assert NoDup([b] + c.chains[h]) by {
      assert forall i | 0 <= i < |c.chains[h]| :: c.chains[h][i] in c.chains[h];
    }
    forall k: nat, x: nat | k < HASH_COUNT && x in d.chains[k] ensures x < |d.buffers| && Hash(d.buffers[x].id) == k {
      assert x != b ==> x in c.chains[k];
    }
  }

  /** `getblk` gives a held buffer of the block asked for, and readers see no difference. */
  lemma GetBlkInv(c: Cache, id: BlockId)
    requires Inv(c) && GetBlk(c, id).Some?
    ensures var g := GetBlk(c, id).value;
      && Inv(g.c) && SameSeen(c, g.c)
      && g.c.buffers[g.b].id == id && g.c.buffers[g.b].count > 0
  {
    hide Hash, Hashed, Distinct, FreeList, Coherent, Seen, Without;
    match Find(c, id) {
      case Some(b) => HoldInv(c, b);
      case None =>
        NotFound(c, NOBODY, id);
        GetFreeBufferInv(c);
        var g := GetFreeBuffer(c).value;
        AssignInv(g.c, g.b, id);
    }
  }

  lemma Twice(c: Cache, loose: nat, id: BlockId)
    requires Shaped(c) && Hashed(c, loose) && loose < |c.buffers| && Find(c, id).Some?
    ensures !Distinct(Assign(c, loose, id), NOBODY)
  {
    hide Hash;
    var b := Find(c, id).value;
    assert b in c.chains[Hash(id)] && b != loose;
    var d := Assign(c, loose, id);
    assert d.buffers[b].id == d.buffers[loose].id;
  }

  /** A task that waited for a free buffer goes on without looking for its block again.  Whatever
      state of the cache it wakes up in, all is well exactly when no buffer holds the block by
      then; otherwise the block is hashed twice. */
  lemma AssignExact(c: Cache, id: BlockId)
    requires Inv(c) && GetFreeBuffer(c).Some?
    ensures var g := GetFreeBuffer(c).value;
      && Shaped(g.c)
      && (Inv(Assign(g.c, g.b, id)) <==> Find(g.c, id).None?)
      && (Find(g.c, id).Some? ==> !Distinct(Assign(g.c, g.b, id), NOBODY))
  {
    hide Hash, Hashed, Distinct, FreeList, Coherent, Seen, SameSeen, Without, Assign, GetFreeBuffer;
    GetFreeBufferInv(c);
    var g := GetFreeBuffer(c).value;
    if Find(g.c, id).None? {
      NotFound(g.c, g.b, id);
      AssignInv(g.c, g.b, id);
    } else {
      Twice(g.c, g.b, id);
    }
  }

  // ---------- Whole runs against a plain disk ----------

  /** What a task asks of the cache.  A task that reads a block holds its buffer until it
      releases it, and stores only into a buffer it holds. */
  datatype Op = Read(id: BlockId) | Store(id: BlockId, data: Data) | Flush(id: BlockId) | Release(id: BlockId)

  /** A held buffer has been read. */
  ghost predicate HeldValid(c: Cache) {
    forall b | 0 <= b < |c.buffers| && c.buffers[b].count > 0 :: c.buffers[b].valid
  }

  ghost predicate Good(c: Cache) {
    Inv(c) && HeldValid(c)
  }

  /** `bread` never has to wait, and the other operations are done by a holder. */
  ghost predicate Enabled(c: Cache, op: Op)
    requires Shaped(c)
  {
    if op.Read? then BRead(c, op.id).Some?
    else Find(c, op.id).Some? && c.buffers[Find(c, op.id).value].count > 0
  }

  ghost function Step(c: Cache, op: Op): Cache
    requires Shaped(c) && Enabled(c, op)
  {
    match op
    case Read(id) => BRead(c, id).value.c
    case Store(id, data) => Modify(c, Find(c, id).value, data)
    case Flush(id) => BWrite(c, Find(c, id).value)
    case Release(id) => BRelse(c, Find(c, id).value)
  }

  /** The same operation on a disk without a cache: only a store does anything. */
  ghost function PlainStep(disk: BlockId -> Data, op: Op): BlockId -> Data {
    if op.Store? then (id: BlockId) => if id == op.id then op.data else disk(id) else disk
  }

  ghost predicate Agrees(c: Cache, disk: BlockId -> Data) {
    forall id: BlockId :: Seen(c, id) == disk(id)
  }

  /** `bread` returns the last data stored in the block, and readers see no difference. */
  lemma BReadInv(c: Cache, id: BlockId)
    requires Inv(c) && BRead(c, id).Some?
    ensures var g := BRead(c, id).value;
      && Inv(g.c) && SameSeen(c, g.c)
      && g.b < |g.c.buffers| && g.c.buffers[g.b].id == id && g.c.buffers[g.b].valid && g.c.buffers[g.b].count > 0
      && g.c.buffers[g.b].data == Seen(c, id)
  {
    hide Hash, Hashed, Distinct, FreeList, Coherent, Seen, GetBlk;
    GetBlkInv(c, id);
    var g := GetBlk(c, id).value;
    if g.c.buffers[g.b].valid {
      InvSingle(g.c, NOBODY);
      SeenIs(g.c, g.b, id);
    } else {
      FetchInv(g.c, g.b);
    }
  }

  /** While a buffer is held it stays the buffer of its block, and only a store to that block
      changes its data. */
  lemma HeldStays(c: Cache, op: Op, b: nat)
    requires Good(c) && Enabled(c, op) && b < |c.buffers| && c.buffers[b].count > 0
    ensures var d := Step(c, op);
      && b < |d.buffers|
      && d.buffers[b].id == c.buffers[b].id && d.buffers[b].valid
      && (d.buffers[b].data == if op.Store? && op.id == c.buffers[b].id then op.data else c.buffers[b].data)
      && (d.buffers[b].count == if op.id != c.buffers[b].id then c.buffers[b].count else
            c.buffers[b].count + (if op.Read? then 1 else if op.Release? then -1 else 0))
  {
    hide Hash, Hashed, Seen, Without, BRead, Find;
    if op.Read? {
      HeldRead(c, op.id, b);
    } else {
      assert Find(c, op.id).value != b ==> op.id != c.buffers[b].id;
    }
  }

  lemma HeldRead(c: Cache, id: BlockId, b: nat)
    requires Good(c) && BRead(c, id).Some? && b < |c.buffers| && c.buffers[b].count > 0
    ensures var d := BRead(c, id).value.c;
      && b < |d.buffers|
      && d.buffers[b] == c.buffers[b].(count := c.buffers[b].count + if id == c.buffers[b].id then 1 else 0)
  {
    hide Hash, Hashed, Seen, Without, Coherent;
    if Find(c, id).None? {
      NotFound(c, NOBODY, id);
      if |c.buffers| >= c.capacity {
        assert c.free[|c.free| - 1] in c.free;
      }
    } else {
      assert Find(c, id).value != b ==> id != c.buffers[b].id;
    }
  }

  lemma ReadHeld(c: Cache, id: BlockId)
    requires Good(c) && BRead(c, id).Some?
    ensures HeldValid(BRead(c, id).value.c)
  {
    hide Hash, Hashed, Distinct, Coherent, Seen, Without;
    if Find(c, id).None? && |c.buffers| >= c.capacity {
      assert c.free[|c.free| - 1] in c.free;
    }
  }

  /** One operation keeps the invariant, and readers see what the plain disk holds. */
  lemma StepRefines(c: Cache, disk: BlockId -> Data, op: Op)
    requires Good(c) && Enabled(c, op) && Agrees(c, disk)
    ensures Good(Step(c, op)) && Agrees(Step(c, op), PlainStep(disk, op))
  {
    hide Hash, Hashed, Distinct, FreeList, Coherent, Seen, BRead, Without;
    match op {
      case Read(id) =>
        BReadInv(c, id);
        ReadHeld(c, id);
      case Store(id, data) => ModifyInv(c, Find(c, id).value, data);
      case Flush(id) => BWriteInv(c, Find(c, id).value);
      case Release(id) => BRelseInv(c, Find(c, id).value);
    }
  }

  lemma {:induction false} WithoutBelow(s: seq<nat>, x: nat, n: nat)
    requires forall i | 0 <= i < |s| :: s[i] < n
    ensures forall i | 0 <= i < |Without<nat>(s, x)| :: Without<nat>(s, x)[i] < n
  {
    if s == [] {
    } else {
      WithoutBelow(s[1..], x, n);
    }
  }

  /** Lists hold numbers of existing buffers after every operation, whatever else is so. */
  lemma StepShaped(c: Cache, op: Op)
    requires Shaped(c) && Enabled(c, op)
    ensures Shaped(Step(c, op))
  {
    hide Hash, Without, FindIn;
    if op.Read? {
      var id := op.id;
      match Find(c, id) {
        case Some(b) =>
          WithoutBelow(c.free, b, |c.buffers|);
        case None =>
          if |c.buffers| >= c.capacity {
            var b := c.free[|c.free| - 1];
            WithoutBelow(c.chains[Hash(c.buffers[b].id)], b, |c.buffers|);
          }
      }
    }
  }

  lemma GoodShaped(c: Cache)
    requires Good(c)
    ensures Shaped(c)
  {
  }

  lemma StepGood(c: Cache, op: Op)
    requires Good(c) && Enabled(c, op)
    ensures Good(Step(c, op)) && Shaped(Step(c, op))
  {
    hide Enabled, Step, HeldValid, Seen, Hashed, Distinct, FreeList;
    StepRefines(c, id => Seen(c, id), op);
    StepShaped(c, op);
  }

  ghost predicate Runs(c: Cache, ops: seq<Op>)
    requires Shaped(c)
    decreases |ops|
  {
    ops == [] || (Enabled(c, ops[0]) && (StepShaped(c, ops[0]); Runs(Step(c, ops[0]), ops[1..])))
  }

  ghost function Run(c: Cache, ops: seq<Op>): (d: Cache)
    requires Shaped(c) && Runs(c, ops)
    ensures Shaped(d)
    decreases |ops|
  {
    if ops == [] then c
    else
      StepShaped(c, ops[0]);
      Run(Step(c, ops[0]), ops[1..])
  }

  ghost function PlainRun(disk: BlockId -> Data, ops: seq<Op>): BlockId -> Data
    decreases |ops|
  {
    if ops == [] then disk else PlainRun(PlainStep(disk, ops[0]), ops[1..])
  }

  /** Over any run the cache is the plain disk: a read returns what was last stored, and once
      every buffer is released the real disk holds it too. */
  lemma {:induction false} RunRefines(c: Cache, disk: BlockId -> Data, ops: seq<Op>)
    requires Good(c) && Runs(c, ops) && Agrees(c, disk)
    ensures var d, plain := Run(c, ops), PlainRun(disk, ops);
      && Good(d) && Agrees(d, plain)
      && (forall id: BlockId | BRead(d, id).Some? ::
            var g := BRead(d, id).value; g.b < |g.c.buffers| && g.c.buffers[g.b].data == plain(id))
      && ((forall b | 0 <= b < |d.buffers| :: d.buffers[b].count == 0) ==> forall id: BlockId :: d.Disk(id) == plain(id))
    decreases |ops|
  {
    hide Hash, Hashed, Distinct, FreeList, Coherent, Seen, BRead, Step, Enabled;
    if ops == [] {
      ReadsAgree(c, disk);
      if forall b | 0 <= b < |c.buffers| :: c.buffers[b].count == 0 {
        AllReleased(c);
      }
    } else {
      StepRefines(c, disk, ops[0]);
      StepShaped(c, ops[0]);
      RunRefines(Step(c, ops[0]), PlainStep(disk, ops[0]), ops[1..]);
    }
  }

  lemma ReadsAgree(c: Cache, disk: BlockId -> Data)
    requires Good(c) && Agrees(c, disk)
    ensures forall id: BlockId | BRead(c, id).Some? ::
      var g := BRead(c, id).value; g.b < |g.c.buffers| && g.c.buffers[g.b].data == disk(id)
  {
    hide Hash, Hashed, Distinct, FreeList, Coherent, Seen, BRead;
    forall id: BlockId | BRead(c, id).Some?
      ensures var g := BRead(c, id).value; g.b < |g.c.buffers| && g.c.buffers[g.b].data == disk(id)
    {
      BReadInv(c, id);
    }
  }

  lemma AllReleased(c: Cache)
    requires Inv(c) && forall b | 0 <= b < |c.buffers| :: c.buffers[b].count == 0
    ensures forall id: BlockId :: Seen(c, id) == c.Disk(id)
  {
    hide Hash, Hashed, Distinct, Seen, FreeList, Shaped;
    InvSingle(c, NOBODY);
    forall id: BlockId ensures Seen(c, id) == c.Disk(id) {
      var b := Holder(c, id);
      if HoldsBlock(c, b, id) {
        assert Coherent(c, c.buffers[b]);
      }
    }
  }

  /** The cache as `buffer_init` leaves it. */
  function Empty(capacity: nat, disk: map<BlockId, Data>): (c: Cache)
    ensures Good(c) && forall id: BlockId :: Seen(c, id) == c.Disk(id)
  {
    Cache(capacity, [], seq(HASH_COUNT, _ => []), [], disk)
  }

  // ---------- Two tasks that wait for one block ----------

  /** On a good cache the look-up finds the buffer of the block, if there is one. */
  lemma FoundAt(c: Cache, id: BlockId, b: nat)
    requires Good(c) && b < |c.buffers| && c.buffers[b].id == id
    ensures Shaped(c) && Find(c, id) == Some(b)
  {
    hide Hash, FreeList, Coherent;
    if Find(c, id).None? {
      NotFound(c, NOBODY, id);
    }
  }

  lemma NowhereFound(c: Cache, id: BlockId)
    requires Good(c) && forall b | 0 <= b < |c.buffers| :: c.buffers[b].id != id
    ensures Shaped(c) && Find(c, id).None?
  {
    hide Hash;
  }

  lemma ReadInto(c: Cache, id: BlockId)
    requires Good(c) && Find(c, id).None? && (|c.buffers| < c.capacity || |c.free| == 1)
    ensures Enabled(c, Read(id)) && Good(Step(c, Read(id))) && Shaped(Step(c, Read(id)))
    ensures var d, b := Step(c, Read(id)), Buffer(id, 1, false, true, c.Disk(id));
      && d.capacity == c.capacity && d.disk == c.disk
      && if |c.buffers| < c.capacity then d.buffers == c.buffers + [b] && d.free == c.free
         else d.buffers == c.buffers[c.free[0] := b] && d.free == []
  {
    hide Hash, Without, Seen;
    StepGood(c, Read(id));
    if |c.buffers| >= c.capacity {
      assert c.free[0] in c.free;
      assert Coherent(c, c.buffers[c.free[0]]);
    }
  }

  lemma ReleaseAt(c: Cache, id: BlockId, b: nat)
    requires Good(c) && b < |c.buffers| && c.buffers[b].id == id && c.buffers[b].count == 1 && !c.buffers[b].dirty
    ensures Shaped(c) && Enabled(c, Release(id)) && Good(Step(c, Release(id))) && Shaped(Step(c, Release(id)))
    ensures var d := Step(c, Release(id));
      && d.capacity == c.capacity && d.disk == c.disk
      && d.buffers == c.buffers[b := c.buffers[b].(count := 0)] && d.free == [b] + c.free
  {
    FoundAt(c, id, b);
    StepGood(c, Release(id));
    hide Hash, Seen;
  }

  /** Two buffers, both held.  A task looks for block `a`, does not find it and waits.  Another
      does the same and is the first to be woken: it gets a buffer for the block.  When the first
      is woken it hashes the block a second time. */
  lemma HashedTwice(disk: map<BlockId, Data>, a: BlockId, b: BlockId, d: BlockId) returns (c: Cache, e: Cache)
    requires a != b && a != d && b != d
    ensures Runs(Empty(2, disk), [Read(b), Read(d)]) && c == Run(Empty(2, disk), [Read(b), Read(d)])
    ensures Shaped(c) && GetBlk(c, a).None?
    ensures Runs(c, [Release(b), Read(a), Release(d)]) && e == Run(c, [Release(b), Read(a), Release(d)])
    ensures Shaped(e) && GetFreeBuffer(e).Some?
    ensures var g := GetFreeBuffer(e).value; !Distinct(Assign(g.c, g.b, a), NOBODY)
  {
    hide Hash, Good, Step, Enabled, Find, Shaped, Distinct, Runs, Run;
    var start := Empty(2, disk);
    NowhereFound(start, b);
    ReadInto(start, b);
    var c1 := Step(start, Read(b));
    NowhereFound(c1, d);
    ReadInto(c1, d);
    c := Step(c1, Read(d));
    NowhereFound(c, a);
    ReleaseAt(c, b, 0);
    var c3 := Step(c, Release(b));
    NowhereFound(c3, a);
    ReadInto(c3, a);
    var c4 := Step(c3, Read(a));
    ReleaseAt(c4, d, 1);
    e := Step(c4, Release(d));
    RunTwo(start, Read(b), Read(d));
    RunThree(c, Release(b), Read(a), Release(d));
    StillHashed(e, a, 0);
  }

  lemma StillHashed(e: Cache, a: BlockId, b: nat)
    requires Good(e) && |e.buffers| >= e.capacity && |e.free| == 1 && e.free[0] != b
    requires b < |e.buffers| && e.buffers[b].id == a
    ensures Shaped(e) && GetFreeBuffer(e).Some?
    ensures var g := GetFreeBuffer(e).value; !Distinct(Assign(g.c, g.b, a), NOBODY)
  {
    Unmoved(e, b);
    hide Hash, Hashed, Distinct, FreeList, Coherent, HeldValid, Seen, SameSeen, Without, Assign, GetFreeBuffer, FindIn;
    AssignExact(e, a);
    GetFreeBufferInv(e);
    var g := GetFreeBuffer(e).value;
    if Find(g.c, a).None? {
      NotFound(g.c, g.b, a);
    }
  }

  lemma Unmoved(e: Cache, b: nat)
    requires Good(e) && |e.buffers| >= e.capacity && |e.free| == 1 && e.free[0] != b && b < |e.buffers|
    ensures Shaped(e) && GetFreeBuffer(e).Some?
    ensures var g := GetFreeBuffer(e).value; g.b != b && b < |g.c.buffers| && g.c.buffers[b] == e.buffers[b]
  {
    hide Hash, Hashed, Distinct, FreeList, Coherent, HeldValid, Without;
  }

  lemma RunTwo(c: Cache, op: Op, next: Op)
    requires Shaped(c) && Enabled(c, op) && Shaped(Step(c, op)) && Enabled(Step(c, op), next)
    ensures Runs(c, [op, next]) && Run(c, [op, next]) == Step(Step(c, op), next)
  {
    hide Enabled, Step, Shaped;
    var d := Step(c, op);
    StepShaped(d, next);
    assert [op, next][1..] == [next] && [next][1..] == [];
    assert Runs(d, [next]) && Run(d, [next]) == Step(d, next);
  }

  lemma RunThree(c: Cache, op: Op, next: Op, last: Op)
    requires Shaped(c) && Enabled(c, op) && Shaped(Step(c, op)) && Enabled(Step(c, op), next)
    requires Shaped(Step(Step(c, op), next)) && Enabled(Step(Step(c, op), next), last)
    ensures Runs(c, [op, next, last]) && Run(c, [op, next, last]) == Step(Step(Step(c, op), next), last)
  {
    hide Enabled, Step, Shaped;
    RunTwo(Step(c, op), next, last);
    assert [op, next, last][1..] == [next, last];
  }

  // ---------- Which buffer is reused ----------

  /** The buffer an operation leaves without a holder, if it does. */
  ghost function Freed(c: Cache, op: Op): seq<nat>
    requires Shaped(c) && Enabled(c, op)
  {
    if op.Release? && c.buffers[Find(c, op.id).value].count == 1 then [Find(c, op.id).value] else []
  }

  /** The place in `log` where buffer `b` was last released, or -1. */
  ghost function LastAt(log: seq<nat>, b: nat): (i: int)
    ensures -1 <= i < |log| && (i >= 0 ==> log[i] == b)
    ensures forall k | i < k < |log| :: log[k] != b
  {
    if log == [] then -1
    else if log[|log| - 1] == b then |log| - 1
    else LastAt(log[..|log| - 1], b)
  }

  /** The free list runs from the buffer released last to the one released longest ago. */
  ghost predicate ByRelease(free: seq<nat>, log: seq<nat>) {
    && (forall b | b in free :: LastAt(log, b) >= 0)
    && (forall i, j | 0 <= i < j < |free| :: LastAt(log, free[j]) < LastAt(log, free[i]))
  }

  lemma {:induction false} WithoutByRelease(s: seq<nat>, x: nat, log: seq<nat>)
    requires NoDup(s) && ByRelease(s, log)
    ensures ByRelease(Without<nat>(s, x), log)
  {
    hide LastAt, ByRelease, NoDup;
    if s == [] {
    } else {
      var rest := s[1..];
      TailByRelease(s, log);
      if s[0] != x {
        WithoutByRelease(rest, x, log);
        WithoutMember(rest, x);
        assert [s[0]] + rest == s;
        PushKeeps(s[0], rest, Without<nat>(rest, x), log);
      }
    }
  }

  lemma TailByRelease(s: seq<nat>, log: seq<nat>)
    requires s != [] && NoDup(s) && ByRelease(s, log)
    ensures NoDup(s[1..]) && ByRelease(s[1..], log)
  {
    hide LastAt;
    var rest := s[1..];
    assert forall i | 0 <= i < |rest| :: rest[i] == s[i + 1];
    assert forall y | y in rest :: y in s;
  }

  lemma PushKeeps(first: nat, rest: seq<nat>, fewer: seq<nat>, log: seq<nat>)
    requires ByRelease([first] + rest, log) && ByRelease(fewer, log) && forall y | y in fewer :: y in rest
    ensures ByRelease([first] + fewer, log)
  {
    hide LastAt;
    var s, r := [first] + rest, [first] + fewer;
    forall i, j | 0 <= i < j < |r| ensures LastAt(log, r[j]) < LastAt(log, r[i]) {
      assert r[j] == fewer[j - 1] && r[j] in rest;
      if i == 0 {
        var k :| 0 <= k < |rest| && rest[k] == r[j];
        assert s[k + 1] == rest[k] && s[0] == r[0];
      } else {
        assert r[i] == fewer[i - 1];
      }
    }
    forall y | y in r ensures LastAt(log, y) >= 0 {
      assert y != first ==> y in fewer;
      assert y == first ==> s[0] in s;
    }
  }

  lemma LastAtAppend(log: seq<nat>, b: nat, x: nat)
    ensures LastAt(log + [x], b) == if b == x then |log| else LastAt(log, b)
  {
    assert (log + [x])[..|log|] == log;
  }

  lemma PushByRelease(free: seq<nat>, log: seq<nat>, b: nat)
    requires ByRelease(free, log) && b !in free
    ensures ByRelease([b] + free, log + [b])
  {
    forall y ensures LastAt(log + [b], y) == if y == b then |log| else LastAt(log, y) {
      LastAtAppend(log, y, b);
    }
    var s := [b] + free;
    forall i, j | 0 <= i < j < |s| ensures LastAt(log + [b], s[j]) < LastAt(log + [b], s[i]) {
      assert s[j] == free[j - 1] && s[j] in free;
      assert i > 0 ==> s[i] == free[i - 1] && s[i] in free;
    }
  }

  /** Every operation keeps the free list in order of release. */
  lemma StepByRelease(c: Cache, op: Op, log: seq<nat>)
    requires Good(c) && Enabled(c, op) && ByRelease(c.free, log)
    ensures ByRelease(Step(c, op).free, log + Freed(c, op))
  {
    hide Hash, Hashed, Distinct, Coherent, Seen, LastAt, Without, Find;
    assert log + [] == log;
    match op {
      case Read(id) =>
        if Find(c, id).Some? {
          WithoutByRelease(c.free, Find(c, id).value, log);
        } else if |c.buffers| >= c.capacity {
          assert forall i | 0 <= i < |c.free| :: c.free[i] in c.free;
        }
      case Store(id, data) =>
      case Flush(id) =>
      case Release(id) =>
        var b := Find(c, id).value;
        if c.buffers[b].count == 1 {
          PushByRelease(c.free, log, b);
        }
    }
  }

  ghost function Log(c: Cache, ops: seq<Op>): seq<nat>
    requires Shaped(c) && Runs(c, ops)
    decreases |ops|
  {
    if ops == [] then []
    else
      StepShaped(c, ops[0]);
      Freed(c, ops[0]) + Log(Step(c, ops[0]), ops[1..])
  }

  lemma {:induction false} RunByRelease(c: Cache, ops: seq<Op>, log: seq<nat>)
    requires Good(c) && Runs(c, ops) && ByRelease(c.free, log)
    ensures Good(Run(c, ops)) && ByRelease(Run(c, ops).free, log + Log(c, ops))
    decreases |ops|
  {
    hide Step, Enabled, Good, Shaped, ByRelease, Freed;
    if ops == [] {
      assert log + [] == log;
    } else {
      GoodShaped(c);
      StepGood(c, ops[0]);
      StepByRelease(c, ops[0], log);
      var first := Freed(c, ops[0]);
      RunByRelease(Step(c, ops[0]), ops[1..], log + first);
      assert log + first + Log(Step(c, ops[0]), ops[1..]) == log + Log(c, ops);
    }
  }

  /** After any run from the start, a read that must reuse a buffer takes, of all the buffers
      nobody holds, the one released longest ago. */
  lemma VictimReleasedLongestAgo(capacity: nat, disk: map<BlockId, Data>, ops: seq<Op>, id: BlockId)
    requires Runs(Empty(capacity, disk), ops)
    requires var c := Run(Empty(capacity, disk), ops);
      Find(c, id).None? && |c.buffers| >= c.capacity && BRead(c, id).Some?
    ensures var c, log := Run(Empty(capacity, disk), ops), Log(Empty(capacity, disk), ops);
      var b := BRead(c, id).value.b;
      && b < |c.buffers| && c.buffers[b].count == 0
      && forall e: nat | e < |c.buffers| && e != b && c.buffers[e].count == 0 :: 0 <= LastAt(log, b) < LastAt(log, e)
  {
    hide Hash, Hashed, Distinct, Coherent, Seen, LastAt, Without, Find, Run, Runs, Log;
    var start := Empty(capacity, disk);
    RunByRelease(start, ops, []);
    var c, log := Run(start, ops), Log(start, ops);
    assert [] + log == log;
    var b := c.free[|c.free| - 1];
    assert b in c.free;
  }
}
