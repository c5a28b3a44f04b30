/** Holding and releasing buffers (src/kernel/buffer.c): a block read, changed and released again
    leaves every other holder as it was, and as many buffers to be had as before. */
module CacheHolds {
  import opened BufferCaches
  import opened Collections
  import opened Outcomes

  /** How often block `id` is held. */
  ghost function Holders(c: Cache, id: BlockId): nat
    requires Shaped(c)
  {
    match Find(c, id)
    case None => 0
    case Some(b) => c.buffers[b].count
  }

  /** How many buffers can be had: those not made yet, and those nobody holds. */
  function Spare(c: Cache): int {
    c.capacity - |c.buffers| + |c.free|
  }

  lemma HoldersAt(c: Cache, b: nat)
    requires Good(c) && b < |c.buffers|
    ensures Shaped(c) && Holders(c, c.buffers[b].id) == c.buffers[b].count
  {
    hide Find, Inv;
    FoundAt(c, c.buffers[b].id, b);
  }

  lemma HoldersNone(c: Cache, id: BlockId)
    requires Good(c) && forall b | 0 <= b < |c.buffers| :: c.buffers[b].id != id
    ensures Shaped(c) && Holders(c, id) == 0
  {
    hide Find, Inv;
    NowhereFound(c, id);
  }

  lemma {:induction false} WithoutSize<A>(s: seq<A>, x: A)
    ensures |Without(s, x)| == |s| - if x in s then 1 else 0
  {
    if s == [] {
    } else if s[0] == x {
    } else {
      WithoutSize(s[1..], x);
      assert x in s <==> x in s[1..];
    }
  }

  // ---------- One operation ----------

  /** What `bread` did to the buffers: one more holder of its block, or a first one. */
  lemma ReadFrame(c: Cache, id: BlockId)
    requires Good(c) && BRead(c, id).Some?
    ensures var g := BRead(c, id).value;
      && g.b < |g.c.buffers| && g.c.buffers[g.b].id == id
      && (g.b < |c.buffers| && c.buffers[g.b].id == id ==> g.c.buffers[g.b].count == c.buffers[g.b].count + 1)
      && (!(g.b < |c.buffers| && c.buffers[g.b].id == id) ==> g.c.buffers[g.b].count == 1 && Find(c, id).None?)
      && (forall b: nat | b < |g.c.buffers| && b != g.b :: b < |c.buffers| && g.c.buffers[b] == c.buffers[b])
      && |c.buffers| <= |g.c.buffers|
      && (g.b < |c.buffers| && c.buffers[g.b].id != id ==> c.buffers[g.b].count == 0)
      && Spare(g.c) == Spare(c) - if Holders(c, id) == 0 then 1 else 0
  {
    hide Hash, Hashed, Distinct, Coherent, Seen, Without, FindIn;
    match Find(c, id) {
      case Some(b) =>
        WithoutSize<nat>(c.free, b);
      case None =>
        if |c.buffers| >= c.capacity {
          assert c.free[|c.free| - 1] in c.free;
        }
        NotFound(c, NOBODY, id);
    }
  }

  /** The other holders are as they were. */
  ghost predicate SameHolders(c: Cache, d: Cache, id: BlockId, n: int)
    requires Shaped(c) && Shaped(d)
  {
    forall x: BlockId :: Holders(d, x) == Holders(c, x) + if x == id then n else 0
  }

  lemma ReadHolds(c: Cache, id: BlockId)
    requires Good(c) && (Spare(c) > 0 || Holders(c, id) > 0)
    ensures Enabled(c, Read(id)) && BRead(c, id).Some?
    ensures var g := BRead(c, id).value;
      && g.c == Step(c, Read(id)) && Good(g.c) && Shaped(g.c) && SameSeen(c, g.c) && g.c.buffers[g.b].data == Seen(c, id)
      && SameHolders(c, g.c, id, 1)
      && Spare(g.c) == Spare(c) - if Holders(c, id) == 0 then 1 else 0
  {
    hide Hash, Hashed, Distinct, FreeList, Coherent, Seen, FindIn, BRead, Holders, SameSeen;
    CanRead(c, id);
    BReadInv(c, id);
    StepGood(c, Read(id));
    ReadFrame(c, id);
    forall x: BlockId ensures Holders(BRead(c, id).value.c, x) == Holders(c, x) + if x == id then 1 else 0 {
      ReadHolders(c, id, x);
    }
  }

  lemma CanRead(c: Cache, id: BlockId)
    requires Good(c) && (Spare(c) > 0 || Holders(c, id) > 0)
    ensures BRead(c, id).Some? && Enabled(c, Read(id))
  {
    hide Hash, Hashed, Distinct, FreeList, Coherent, FindIn;
  }

  /** `bread` goes on without waiting exactly when the block is in some buffer or a buffer can be had. */
  lemma ReadsIff(c: Cache, id: BlockId)
    requires Good(c)
    ensures Shaped(c) && (BRead(c, id).Some? <==> (exists b: nat :: b < |c.buffers| && c.buffers[b].id == id) || Spare(c) > 0)
  {
    hide Hash, Hashed, Distinct, FreeList, Coherent, FindIn;
    if b: nat :| b < |c.buffers| && c.buffers[b].id == id {
      FoundAt(c, id, b);
    } else {
      NowhereFound(c, id);
    }
  }

  lemma ReadHolders(c: Cache, id: BlockId, x: BlockId)
    requires Good(c) && BRead(c, id).Some? && Good(BRead(c, id).value.c)
    ensures Shaped(BRead(c, id).value.c)
    ensures Holders(BRead(c, id).value.c, x) == Holders(c, x) + if x == id then 1 else 0
  {
    hide Hash, Inv, Good, BRead, Find, Holders, Shaped;
    GoodShaped(c);
    ReadFrame(c, id);
    var g := BRead(c, id).value;
    GoodShaped(g.c);
    if x == id {
      HoldersAt(g.c, g.b);
      if g.b < |c.buffers| && c.buffers[g.b].id == id {
        HoldersAt(c, g.b);
      } else {
        MissedNone(c, id);
      }
    } else if b: nat :| b < |g.c.buffers| && g.c.buffers[b].id == x {
      HoldersAt(g.c, b);
      HoldersAt(c, b);
    } else {
      HoldersNone(g.c, x);
      Unread(c, g, x);
    }
  }

  lemma Unread(c: Cache, g: Got, x: BlockId)
    requires Good(c) && |c.buffers| <= |g.c.buffers| && forall b | 0 <= b < |g.c.buffers| :: g.c.buffers[b].id != x
    requires forall b: nat | b < |g.c.buffers| && b != g.b :: b < |c.buffers| && g.c.buffers[b] == c.buffers[b]
    requires g.b < |c.buffers| && c.buffers[g.b].id == x ==> c.buffers[g.b].count == 0
    ensures Shaped(c) && Holders(c, x) == 0
  {
    hide Hash, Inv, Good, Find, Holders, Shaped;
    GoodShaped(c);
    if b: nat :| b < |c.buffers| && c.buffers[b].id == x {
      assert b == g.b;
      HoldersAt(c, b);
    } else {
      HoldersNone(c, x);
    }
  }

  lemma MissedNone(c: Cache, id: BlockId)
    requires Good(c) && Find(c, id).None?
    ensures Holders(c, id) == 0
  {
    hide Find;
  }

  /** Buffers with the same blocks and counts have the same holders. */
  lemma CountsHold(c: Cache, d: Cache, id: BlockId, n: int)
    requires Good(c) && Good(d) && |d.buffers| == |c.buffers|
    requires forall b | 0 <= b < |c.buffers| ::
      && d.buffers[b].id == c.buffers[b].id
      && d.buffers[b].count == c.buffers[b].count + if c.buffers[b].id == id then n else 0
    requires n == 0 || exists b: nat :: b < |c.buffers| && c.buffers[b].id == id
    ensures Shaped(c) && Shaped(d) && SameHolders(c, d, id, n)
  {
    hide Hash, Inv, Good, Find, Holders, Shaped;
    GoodShaped(c);
    GoodShaped(d);
    forall x: BlockId ensures Holders(d, x) == Holders(c, x) + if x == id then n else 0 {
      if b: nat :| b < |c.buffers| && c.buffers[b].id == x {
        HoldersAt(c, b);
        HoldersAt(d, b);
      } else {
        HoldersNone(c, x);
        HoldersNone(d, x);
      }
    }
  }

  lemma StoreHolds(c: Cache, id: BlockId, data: Data)
    requires Good(c) && Holders(c, id) > 0
    ensures Enabled(c, Store(id, data))
    ensures var d := Step(c, Store(id, data));
      && Good(d) && Shaped(d) && SameHolders(c, d, id, 0) && Spare(d) == Spare(c)
      && forall x: BlockId :: Seen(d, x) == if x == id then data else Seen(c, x)
  {
    hide Hash, Hashed, Distinct, FreeList, Coherent, Seen, FindIn, Holders;
    HeldFound(c, id);
    StepRefines(c, x => Seen(c, x), Store(id, data));
    StepGood(c, Store(id, data));
    var d := Step(c, Store(id, data));
    CountsHold(c, d, id, 0) by {
      hide Good, Shaped;
    }
  }

  lemma HeldFound(c: Cache, id: BlockId)
    requires Good(c) && Holders(c, id) > 0
    ensures Find(c, id).Some? && c.buffers[Find(c, id).value].count == Holders(c, id)
    ensures c.buffers[Find(c, id).value].data == Seen(c, id)
  {
    hide Hash, Hashed, Distinct, FreeList, Coherent, Seen, FindIn;
    InvSingle(c, NOBODY);
    SeenIs(c, Find(c, id).value, id);
  }

  lemma ReleaseHolds(c: Cache, id: BlockId)
    requires Good(c) && Holders(c, id) > 0
    ensures Enabled(c, Release(id))
    ensures var d := Step(c, Release(id));
      && Good(d) && Shaped(d) && SameHolders(c, d, id, -1) && SameSeen(c, d)
      && Spare(d) == Spare(c) + if Holders(c, id) == 1 then 1 else 0
  {
    hide Hash, Hashed, Distinct, FreeList, Coherent, Seen, FindIn, Holders;
    HeldFound(c, id);
    StepRefines(c, x => Seen(c, x), Release(id));
    StepGood(c, Release(id));
    var d := Step(c, Release(id));
    var b := Find(c, id).value;
    forall a | 0 <= a < |c.buffers| && c.buffers[a].id == id ensures a == b {
      FoundAt(c, id, a);
    }
    CountsHold(c, d, id, -1) by {
      hide Good, Shaped;
    }
  }

  // ---------- From a read to its release ----------

  /** `bread`, and the data of the buffer it returns. */
  ghost function Load(c: Cache, id: BlockId): Outcome<(Cache, Data)> {
    if Shaped(c) && BRead(c, id).Some? then
      var g := BRead(c, id).value;
      Done((g.c, g.c.buffers[g.b].data))
    else Halt(NoBuffer)
  }

  ghost function Perform(c: Cache, op: Op): Outcome<Cache> {
    if Shaped(c) && Enabled(c, op) then Done(Step(c, op)) else Halt(NoBuffer)
  }

  /** `d` has the holders and the spare buffers of `c`. */
  ghost predicate Kept(c: Cache, d: Cache) {
    Good(c) && Good(d) && SameHolders(c, d, BlockId(0, 0), 0) && Spare(d) == Spare(c)
  }

  /** The block is read and held. */
  lemma Entered(c: Cache, id: BlockId)
    requires Good(c) && Spare(c) > 0
    ensures var l := Load(c, id);
      && l.Done? && Good(l.value.0) && SameSeen(c, l.value.0) && l.value.1 == Seen(c, id)
      && Shaped(l.value.0) && Holders(l.value.0, id) > 0 && Spare(l.value.0) >= Spare(c) - 1
  {
    hide Good, Seen, SameSeen, Holders, BRead, Enabled, Step, Find;
    GoodShaped(c);
    ReadHolds(c, id);
  }

  /** Its holder releases it, having kept all other holders as they were: so are they all. */
  lemma Left(c: Cache, id: BlockId, e: Cache)
    requires Good(c) && Spare(c) > 0 && Load(c, id).Done? && Kept(Load(c, id).value.0, e)
    ensures var r := Perform(e, Release(id)); r.Done? && Kept(c, r.value) && SameSeen(e, r.value)
  {
    hide Good, Seen, SameSeen, Holders, BRead, Enabled, Step, Find;
    GoodShaped(c);
    ReadHolds(c, id);
    var l := Load(c, id).value.0;
    GoodShaped(e);
    assert Holders(e, id) == Holders(l, id) == Holders(c, id) + 1;
    ReleaseHolds(e, id);
  }

  lemma KeptSelf(c: Cache)
    requires Good(c)
    ensures Kept(c, c)
  {
    hide Good, Holders;
    GoodShaped(c);
  }

  lemma KeptTwice(c: Cache, d: Cache, e: Cache)
    requires Kept(c, d) && Kept(d, e)
    ensures Kept(c, e)
  {
    hide Good, Holders;
    GoodShaped(c);
    GoodShaped(d);
    GoodShaped(e);
  }

  /** Reading a block. */
  lemma Peeked(c: Cache, id: BlockId)
    requires Good(c) && Spare(c) > 0
    ensures Load(c, id).Done? && Load(c, id).value.1 == Seen(c, id)
    ensures var r := Perform(Load(c, id).value.0, Release(id)); r.Done? && Kept(c, r.value) && SameSeen(c, r.value)
  {
    hide Good, Seen, Load, Perform, Kept;
    Entered(c, id);
    KeptSelf(Load(c, id).value.0);
    Left(c, id, Load(c, id).value.0);
  }

  /** Reading a block and changing it. */
  lemma Poked(c: Cache, id: BlockId, data: Data)
    requires Good(c) && Spare(c) > 0
    ensures Load(c, id).Done? && Load(c, id).value.1 == Seen(c, id)
    ensures var s := Perform(Load(c, id).value.0, Store(id, data));
      && s.Done?
      && var r := Perform(s.value, Release(id));
      && r.Done? && Kept(c, r.value) && forall x: BlockId :: Seen(r.value, x) == if x == id then data else Seen(c, x)
  {
    hide Good, Seen, Load, Holders, Step, Enabled;
    Entered(c, id);
    var l := Load(c, id).value.0;
    StoreHolds(l, id, data);
    Left(c, id, Step(l, Store(id, data)));
  }

  /** A block nobody holds is on the disk as it is seen. */
  lemma Unheld(c: Cache, id: BlockId)
    requires Good(c) && Holders(c, id) == 0
    ensures Seen(c, id) == c.Disk(id)
  {
    hide Hash, Hashed, Distinct, FreeList, Seen, Find, Holders;
    InvSingle(c, NOBODY);
    var b := Holder(c, id);
    if HoldsBlock(c, b, id) {
      HoldersAt(c, b);
      assert Coherent(c, c.buffers[b]);
    }
  }
}
