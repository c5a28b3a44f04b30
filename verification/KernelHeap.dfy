/** The heap of src/kernel/arena.c as it is run. */
module KernelHeaps {
  import opened Outcomes
  import opened Bitmaps
  import opened Collections
  import opened Unsigned
  import opened Heaps

  class KernelHeap {
    const base: nat
    var taken: seq<bool>
    var arenas: map<nat, Arena>
    const descs: array<Desc>
    const sizes: array<nat>
    ghost var live: map<Ptr, nat>

    ghost function State(): Heap
      reads this, descs
    {
      Heap(base, taken, arenas, descs[..], live)
    }

    /** The block sizes `arena_init` computed. */
    ghost predicate Sized()
      reads sizes
    {
      sizes.Length == DESC_COUNT && forall d | 0 <= d < DESC_COUNT :: sizes[d] == BlockSize(d)
    }

    ghost predicate Valid()
      reads this, descs, sizes
    {
      Sized() && Inv(State())
    }

    /** `arena_init`. */
    constructor (base: nat, taken: seq<bool>)
      ensures Valid() && State() == Boot(base, taken) && fresh(descs) && fresh(sizes)
    {
      this.base, this.taken, arenas, live := base, taken, map[], map[];
      descs := new Desc[DESC_COUNT](_ => Desc([], 0));
      sizes := new nat[DESC_COUNT];
      new;
      var blockSize := 16;
      var i := 0;
      while i < DESC_COUNT
        invariant 0 <= i <= DESC_COUNT
        invariant blockSize == if i < DESC_COUNT then BlockSize(i) else 2048
        invariant forall d | 0 <= d < i :: sizes[d] == BlockSize(d)
        modifies sizes
      {
        sizes[i] := blockSize;
        blockSize := blockSize * 2;
        i := i + 1;
      }
      assert descs[..] == Boot(base, taken).descs;
    }

    /** `alloc_kpage`; false where it panics.  The search for the run is proved in `Bitmaps`. */
    method AllocKernelPages(n: nat) returns (ok: bool, page: nat)
      modifies this`taken
      ensures ok <==> AllocPages(old(State()), n).Done?
      ensures ok ==> AllocPages(old(State()), n) == Done(Got(State(), page))
      ensures !ok ==> taken == old(taken)
    {
      ok, page := false, 0;
      if n > 0 {
        var start := FirstRun(taken, n);
        if start.Some? {
          taken := SetRun(taken, start.value, n, true);
          ok, page := true, base + start.value;
        }
      }
    }

    /** `free_kpage`; false where an assertion fails. */
    method FreeKernelPages(page: nat, n: nat) returns (ok: bool)
      modifies this`taken
      ensures ok <==> FreePages(old(State()), page, n).Done?
      ensures ok ==> FreePages(old(State()), page, n) == Done(State())
    {
      ok := n > 0 && page >= base && page - base + n <= |taken|;
      if !ok {
        return;
      }
      ghost var was := taken;
      var s := page - base;
      var i := 0;
      while i < n
        invariant 0 <= i <= n && taken == SetRun(was, s, i, false)
        invariant forall k | s <= k < s + i :: was[k]
      {
        if !taken[s + i] {
          return false;
        }
        taken := taken[s + i := false];
        i := i + 1;
      }
    }

    /** The choice of a class in `kmalloc`. */
    method FindClass(size: nat) returns (d: nat)
      requires Sized() && size <= 1024
      ensures d == ClassFrom(size, 0)
    {
      d := 0;
      var i := 0;
      while i < DESC_COUNT
        invariant 0 <= i <= DESC_COUNT && Sized()
        invariant i < DESC_COUNT ==> ClassFrom(size, i) == ClassFrom(size, 0)
        invariant i == DESC_COUNT ==> d == ClassFrom(size, 0)
      {
        d := i;
        if sizes[d] >= size {
          break;
        }
        i := i + 1;
      }
    }

    /** The part of `kmalloc` that gets a page of blocks; each block is asserted to be on the free
        list once pushed, and not before. */
    method GrowClass(d: nat) returns (ok: bool)
      requires Valid() && d < DESC_COUNT && descs[d].free == []
      modifies this, descs
      ensures ok <==> Grow(old(State()), d).Done?
      ensures ok ==> Valid() && State() == Grow(old(State()), d).value
    {
      hide PagesOwned, FreeListed, LiveOk, Counted, Total, BlockSize, PushBlocks, Off, AllocPages;
      ghost var h := State();
      DescsCount(h);
      var page;
      ok, page := AllocKernelPages(1);
      if !ok {
        return;
      }
      AllocKeeps(h, 1);
      ghost var paged := State();
      var total := Total(d);
      var free: seq<Ptr> := [];
      var i := 0;
      PushEnd(free, page, d);
      while i < total
        invariant 0 <= i <= total && State() == paged
        invariant PushBlocks(free, page, d, i) == PushBlocks([], page, d, 0)
        invariant forall b | b in free :: b.page == page && exists j: nat :: j < i && b.offset == Off(d, j)
      {
        var block := Ptr(page, Off(d, i));
        assert block !in free by {
          if block in free {
            var j: nat :| j < i && Off(d, i) == Off(d, j);
            OffOnce(d, i, j);
            assert false;
          }
        }
        PushOnce(free, page, d, i);
        free := [block] + free;
        assert block in free;
        i := i + 1;
      }
      PushEnd(free, page, d);
      descs[d] := Desc(free, descs[d].pages + 1);
      arenas := arenas[page := Small(d, total)];
      GrowInv(h, d);
    }

    /** `kmalloc`; false where it stops the machine. */
    method Allocate(size: Word32) returns (ok: bool, ptr: Ptr)
      requires Valid()
      modifies this, descs
      ensures ok <==> Malloc(old(State()), size).Done?
      ensures ok ==> Valid() && Malloc(old(State()), size) == Done(Allocated(State(), ptr))
    {
      hide PagesOwned, FreeListed, LiveOk, Counted, Grow, ClassFrom, PagesFor, AllocPages, Inv;
      ghost var h := State();
      ptr := Ptr(0, 0);
      DescsCount(h);
      if size > 1024 {
        var n := PagesFor(size);
        var page;
        ok, page := AllocKernelPages(n);
        if ok {
          arenas := arenas[page := Large(n)];
          ptr := Ptr(page, HEADER);
          live := live[ptr := size];
          AllocKeeps(h, n);
          MallocInv(h, size);
        }
        return;
      }
      var d := FindClass(size);
      ok := true;
      if descs[d].free == [] {
        ok := GrowClass(d);
        if !ok {
          return;
        }
        HasFree(h, d);
      }
      ghost var g := State();
      PopInv(g, d, size);
      ptr := descs[d].free[0];
      descs[d] := descs[d].(free := descs[d].free[1..]);
      var arena := arenas[ptr.page];
      assert arena.Small?;
      arenas := arenas[ptr.page := arena.(count := arena.count - 1)];
      live := live[ptr := size];
    }

    /** `kfree` of a live address: its assertions hold. */
    method Release(ptr: Ptr)
      requires Valid() && ptr in live
      modifies this, descs
      ensures Valid() && Free(old(State()), ptr) == Done(State())
    {
      hide PagesOwned, FreeListed, LiveOk, Counted, Inv, FreePages, RemoveBlocks, Total, BlockSize;
      ghost var h := State();
      FreeInv(h, ptr);
      var arena := arenas[ptr.page];
      if arena.Large? {
        var ok := FreeKernelPages(ptr.page, arena.pages);
        FreeKeeps(h, ptr.page, arena.pages);
        arenas := arenas - {ptr.page};
        live := live - {ptr};
        return;
      }
      var d := arena.desc;
      assert ptr !in descs[d].free;
      var free := [ptr] + descs[d].free;
      var count := arena.count + 1;
      if count == Total(d) && descs[d].pages > BUF_COUNT {
        var fewer := free;
        var i := 0;
        while i < Total(d)
          invariant 0 <= i <= Total(d) && State() == h
          invariant RemoveBlocks(fewer, ptr.page, d, i) == RemoveBlocks(free, ptr.page, d, 0)
        {
          var block := Ptr(ptr.page, Off(d, i));
          RemoveOnce(fewer, ptr.page, d, i);
          assert block in fewer;
          fewer := Without(fewer, block);
          i := i + 1;
        }
        RemoveEnd(fewer, ptr.page, d);
        var ok := FreeKernelPages(ptr.page, 1);
        FreeKeeps(h, ptr.page, 1);
        descs[d] := Desc(fewer, descs[d].pages - 1);
        assert descs[d].pages >= BUF_COUNT;
        arenas := arenas - {ptr.page};
      } else {
        descs[d] := descs[d].(free := free);
        arenas := arenas[ptr.page := Small(d, count)];
      }
      live := live - {ptr};
    }
  }

  lemma DescsCount(h: Heap)
    requires Inv(h)
    ensures |h.descs| == DESC_COUNT
  {
  }

  lemma HasFree(h: Heap, d: nat)
    requires Inv(h) && d < DESC_COUNT && h.descs[d].free == [] && Grow(h, d).Done?
    ensures Inv(Grow(h, d).value) && Grow(h, d).value.descs[d].free != []
  {
    hide PagesOwned, FreeListed, LiveOk;
    GrowInv(h, d);
  }

  lemma FreeKeeps(h: Heap, page: nat, n: nat)
    requires FreePages(h, page, n).Done?
    ensures FreePages(h, page, n).value == h.(taken := FreePages(h, page, n).value.taken)
  {
  }

  lemma PushOnce(free: seq<Ptr>, page: nat, d: nat, i: nat)
    requires d < DESC_COUNT && i < Total(d)
    ensures PushBlocks(free, page, d, i) == PushBlocks([Ptr(page, Off(d, i))] + free, page, d, i + 1)
  {
  }

  lemma PushEnd(free: seq<Ptr>, page: nat, d: nat)
    requires d < DESC_COUNT
    ensures PushBlocks(free, page, d, Total(d)) == free
  {
  }

  lemma RemoveOnce(free: seq<Ptr>, page: nat, d: nat, i: nat)
    requires d < DESC_COUNT && i < Total(d) && RemoveBlocks(free, page, d, i).Done?
    ensures Ptr(page, Off(d, i)) in free
    ensures RemoveBlocks(free, page, d, i) == RemoveBlocks(Without(free, Ptr(page, Off(d, i))), page, d, i + 1)
  {
  }

  lemma RemoveEnd(free: seq<Ptr>, page: nat, d: nat)
    requires d < DESC_COUNT
    ensures RemoveBlocks(free, page, d, Total(d)) == Done(free)
  {
  }
}
