/** The buffer cache of src/kernel/buffer.c as it is run: one method for each routine, its loops
    over a hash chain and over the free list, and its assertions. */
module BufferPools {
  import opened Outcomes
  import opened Collections
  import opened BufferCaches

  class BufferPool {
    const capacity: nat
    var buffers: seq<Buffer>
    var chains: seq<seq<nat>>
    var free: seq<nat>
    var disk: map<BlockId, Data>

    function State(): Cache
      reads this
    {
      Cache(capacity, buffers, chains, free, disk)
    }

    constructor (capacity: nat, disk: map<BlockId, Data>)
      ensures State() == Empty(capacity, disk) && Good(State())
    {
      this.capacity, this.disk := capacity, disk;
      buffers, free := [], [];
      chains := seq(HASH_COUNT, _ => []);
    }

    /** `list_search` of the free list. */
    method Search(b: nat) returns (found: bool)
      ensures found <==> b in free
    {
      var i := 0;
      while i < |free|
        invariant 0 <= i <= |free| && b !in free[..i]
      {
        if free[i] == b {
          return true;
        }
        i := i + 1;
      }
      assert free == free[..i];
      return false;
    }

    method GetFromHashTable(id: BlockId) returns (r: Option<nat>)
      requires Inv(State())
      modifies this`free
      ensures r == old(Find(State(), id))
      ensures free == if r.Some? then Without(old(free), r.value) else old(free)
    {
      hide Hash, Hashed, Distinct, FreeList, Coherent;
      var chain := chains[Hash(id)];
      var i := 0;
      r := None;
      while i < |chain|
        invariant 0 <= i <= |chain|
        invariant r == None && FindIn(buffers, chain, id) == FindIn(buffers, chain[i..], id)
      {
        assert chain[i..][1..] == chain[i + 1..];
        if buffers[chain[i]].id == id {
          r := Some(chain[i]);
          break;
        }
        i := i + 1;
      }
      if r.Some? {
        var listed := Search(r.value);
        if listed {
          free := Without(free, r.value);
        } else {
          WithoutAbsent(free, r.value);
        }
      }
    }

    /** The assertion is that the buffer is not in the chain yet. */
    method HashLocate(b: nat)
      requires |chains| == HASH_COUNT && b < |buffers|
      requires b !in chains[Hash(buffers[b].id)]
      modifies this`chains
      ensures chains == var h := Hash(buffers[b].id); old(chains)[h := [b] + old(chains)[h]]
    {
      var h := Hash(buffers[b].id);
      chains := chains[h := [b] + chains[h]];
    }

    /** The assertion is that the buffer is in the chain. */
    method HashRemove(b: nat)
      requires |chains| == HASH_COUNT && b < |buffers|
      requires b in chains[Hash(buffers[b].id)]
      modifies this`chains
      ensures chains == var h := Hash(buffers[b].id); old(chains)[h := Without(old(chains)[h], b)]
    {
      var h := Hash(buffers[b].id);
      chains := chains[h := Without(chains[h], b)];
    }

    method GetNewBuffer() returns (r: Option<nat>)
      modifies this`buffers
      ensures r == if old(|buffers|) < capacity then Some(old(|buffers|)) else None
      ensures buffers == if r.Some? then old(buffers) + [NEW_BUFFER] else old(buffers)
    {
      r := None;
      if |buffers| < capacity {
        r := Some(|buffers|);
        buffers := buffers + [NEW_BUFFER];
      }
    }

    /** One round of the loop of `get_free_buffer`; None is where the task would block. */
    method TakeFreeBuffer() returns (r: Option<nat>)
      requires Inv(State())
      modifies this
      ensures match old(GetFreeBuffer(State()))
        case Some(g) => r == Some(g.b) && State() == g.c
        case None => r == None && State() == old(State())
    {
      hide Hash, Hashed, Distinct, Coherent, Without;
      r := GetNewBuffer();
      if r.None? && free != [] {
        var b := free[|free| - 1];
        assert b in free;
        AllHashed(State(), b);
        free := free[..|free| - 1];
        HashRemove(b);
        buffers := buffers[b := buffers[b].(valid := false)];
        r := Some(b);
      }
    }

    /** `getblk`, with its two assertions about the buffer it is given. */
    method GetBlock(id: BlockId) returns (r: Option<nat>)
      requires Inv(State())
      modifies this
      ensures match old(GetBlk(State(), id))
        case Some(g) => r == Some(g.b) && State() == g.c
        case None => r == None && State() == old(State())
    {
      hide Hash, Hashed, Distinct, FreeList, Coherent, Without;
      ghost var c := State();
      r := GetFromHashTable(id);
      if r.Some? {
        buffers := buffers[r.value := buffers[r.value].(count := buffers[r.value].count + 1)];
        return;
      }
      r := TakeFreeBuffer();
      if r.None? {
        return;
      }
      GetFreeBufferInv(c);
      var b := r.value;
      LooseClean(State(), b);
      assert buffers[b].count == 0;
      assert !buffers[b].dirty;
      ghost var d := State();
      LooseUnhashed(d, b, id);
      buffers := buffers[b := buffers[b].(count := 1, id := id)];
      HashLocate(b);
    }

    /** `bread`.  Nobody else runs between the two tests of `valid`. */
    method ReadBlock(id: BlockId) returns (r: Option<nat>)
      requires Inv(State())
      modifies this
      ensures match old(BRead(State(), id))
        case Some(g) => r == Some(g.b) && State() == g.c
        case None => r == None && State() == old(State())
    {
      hide Hash, Hashed, Distinct, FreeList, Coherent, GetBlk, Seen;
      ghost var c := State();
      r := GetBlock(id);
      if r.None? {
        return;
      }
      GetBlkInv(c, id);
      var b := r.value;
      if buffers[b].valid {
        return;
      }
      var data := State().Disk(buffers[b].id);
      buffers := buffers[b := buffers[b].(data := data, dirty := false, valid := true)];
    }

    method WriteBlock(b: nat)
      requires b < |buffers|
      modifies this`buffers, this`disk
      ensures State() == BWrite(old(State()), b)
    {
      var buffer := buffers[b];
      if !buffer.dirty {
        return;
      }
      disk := disk[buffer.id := buffer.data];
      buffers := buffers[b := buffer.(dirty := false, valid := true)];
    }

    /** `brelse`, with its assertion that the buffer is on no free list yet. */
    method Release(b: nat)
      requires Inv(State()) && b < |buffers| && buffers[b].count > 0
      modifies this
      ensures State() == BRelse(old(State()), b)
    {
      hide Hash, Hashed, Distinct, Coherent;
      if buffers[b].dirty {
        WriteBlock(b);
      }
      buffers := buffers[b := buffers[b].(count := buffers[b].count - 1)];
      if buffers[b].count > 0 {
        return;
      }
      assert b !in free;
      free := [b] + free;
    }
  }

  lemma {:induction false} WithoutAbsent(s: seq<nat>, x: nat)
    requires x !in s
    ensures Without(s, x) == s
  {
    if s == [] {
    } else {
      assert s[0] in s && forall y | y in s[1..] :: y in s;
      WithoutAbsent(s[1..], x);
    }
  }

  lemma AllHashed(c: Cache, b: nat)
    requires Hashed(c, NOBODY) && b < |c.buffers|
    ensures b in c.chains[Hash(c.buffers[b].id)]
  {
  }

  /** The buffer `get_free_buffer` hands out is unused and clean. */
  lemma LooseClean(c: Cache, b: nat)
    requires InvBut(c, b) && b < |c.buffers|
    ensures c.buffers[b].count == 0 && !c.buffers[b].dirty
  {
    assert Coherent(c, c.buffers[b]);
  }

  lemma LooseUnhashed(c: Cache, b: nat, id: BlockId)
    requires Hashed(c, b)
    ensures b !in c.chains[Hash(id)]
  {
    hide Hash;
    var h := Hash(id);
    assert b in c.chains[h] ==> b != b;
  }
}
