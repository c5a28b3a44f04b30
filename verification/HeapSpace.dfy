/** When the kernel heap serves a request and when it gives a page back (src/kernel/arena.c): exactly
    when there is a block or a run of free pages, and exactly when the last block of a page is freed
    and its class has pages to spare. */
module HeapSpace {
  import opened Bitmaps
  import opened Collections
  import opened Heaps
  import opened Outcomes
  import opened Unsigned

  /** The class that a small request goes to: the first whose blocks are large enough. */
  predicate ClassOf(size: nat, d: nat) {
    d < DESC_COUNT && size <= BlockSize(d) && forall e | 0 <= e < d :: BlockSize(e) < size
  }

  /** A block of the class is not live. */
  ghost predicate Spare(h: Heap, d: nat) {
    exists b :: SmallOf(h, d, b) && b !in h.live
  }

  ghost predicate PageFree(h: Heap) {
    exists i: nat :: ClearRun(h.taken, i, 1)
  }

  lemma SpareListed(h: Heap, d: nat)
    requires FreeListed(h) && d < DESC_COUNT
    ensures |h.descs| == DESC_COUNT && (h.descs[d].free != [] <==> Spare(h, d))
  {
    hide Slot, NoDup;
    if h.descs[d].free != [] {
      InFree(h, d, h.descs[d].free[0]);
    }
    if b :| SmallOf(h, d, b) && b !in h.live {
      InFree(h, d, b);
    }
  }

  lemma InFree(h: Heap, d: nat, b: Ptr)
    requires FreeListed(h) && d < DESC_COUNT
    ensures |h.descs| == DESC_COUNT && (b in h.descs[d].free <==> SmallOf(h, d, b) && b !in h.live)
  {
    hide SmallOf, NoDup;
  }

  lemma OneClass(size: nat, d: nat)
    requires size <= 1024 && ClassOf(size, d)
    ensures ClassFrom(size, 0) == d
  {
    hide BlockSize;
  }

  lemma PageServed(h: Heap)
    ensures AllocPages(h, 1).Done? <==> PageFree(h)
    ensures AllocPages(h, 1).Halt? ==> AllocPages(h, 1).why == OutOfMemory
    ensures AllocPages(h, 1).Done? ==>
      var p := AllocPages(h, 1).value.page;
      && h.base <= p < h.base + |h.taken| && !h.taken[p - h.base]
      && AllocPages(h, 1).value.h == h.(taken := h.taken[p - h.base := true])
      && forall i | 0 <= i < p - h.base :: h.taken[i]
  {
    if AllocPages(h, 1).Done? {
      var s := FirstRun(h.taken, 1).value;
      assert SetRun(h.taken, s, 1, true) == h.taken[s := true];
      forall i | 0 <= i < s ensures h.taken[i] {
        assert !ClearRun(h.taken, i, 1);
      }
    }
  }

  /** A small request completes exactly when a block of its class is not live or a page is free.  It
      takes a page only when there is no such block, the lowest free one, and else no page. */
  lemma SmallServed(h: Heap, size: Word32, d: nat)
    requires Inv(h) && size <= 1024 && ClassOf(size, d)
    ensures |h.descs| == DESC_COUNT
    ensures var r := Malloc(h, size);
      && (r.Done? <==> Spare(h, d) || PageFree(h))
      && (r.Halt? ==> r.why == OutOfMemory)
      && (r.Done? ==>
            && SmallOf(r.value.h, d, r.value.ptr)
            && if Spare(h, d) then r.value.h.taken == h.taken && SmallOf(h, d, r.value.ptr)
               else
                 var p := r.value.ptr.page;
                 && h.base <= p < h.base + |h.taken| && !h.taken[p - h.base]
                 && r.value.h.taken == h.taken[p - h.base := true] && forall i | 0 <= i < p - h.base :: h.taken[i])
  {
    hide Slot, Total, AllocPages, FreeIn, PagesOf, NoDup, BlockSize, Pop, Grow, LiveOk, Counted, PagesOwned, PageFree, Spare, ClassOf, SmallOf, PushBlocks;
    OneClass(size, d);
    SpareListed(h, d);
    PageServed(h);
    GrowServed(h, d);
    if h.descs[d].free != [] {
      PopInv(h, d, size);
      PopPlace(h, d, size);
    } else if Grow(h, d).Done? {
      var g := Grow(h, d).value;
      GrowInv(h, d);
      PopInv(g, d, size);
      PopPlace(g, d, size);
      OnlyNewPage(h, d);
    }
  }

  lemma GrowServed(h: Heap, d: nat)
    requires d < DESC_COUNT == |h.descs|
    ensures Grow(h, d).Done? <==> AllocPages(h, 1).Done?
    ensures Grow(h, d).Halt? ==> Grow(h, d).why == AllocPages(h, 1).why
    ensures Grow(h, d).Done? ==>
      && Grow(h, d).value.taken == AllocPages(h, 1).value.h.taken
      && Grow(h, d).value.descs[d].free == PushBlocks(h.descs[d].free, AllocPages(h, 1).value.page, d, 0)
  {
    hide AllocPages, PushBlocks;
    if AllocPages(h, 1).Done? {
      AllocKeeps(h, 1);
    }
  }

  lemma PopPlace(h: Heap, d: nat, size: nat)
    requires FreeListed(h) && d < DESC_COUNT && h.descs[d].free != [] && Pop(h, d, size).Done?
    ensures var r := Pop(h, d, size).value;
      r.ptr == h.descs[d].free[0] && SmallOf(h, d, r.ptr) && r.h.taken == h.taken && SmallOf(r.h, d, r.ptr)
  {
    hide Slot, NoDup;
    var b := h.descs[d].free[0];
    assert b in h.descs[d].free;
    InFree(h, d, b);
  }

  lemma OnlyNewPage(h: Heap, d: nat)
    requires d < DESC_COUNT == |h.descs| && h.descs[d].free == [] && Grow(h, d).Done? && Grow(h, d).value.descs[d].free != []
    ensures Grow(h, d).value.descs[d].free[0].page == AllocPages(h, 1).value.page
  {
    hide AllocPages, PushBlocks, SlotFrom;
    AllocKeeps(h, 1);
    var b := Grow(h, d).value.descs[d].free[0];
    assert b in Grow(h, d).value.descs[d].free;
    PushedBlocks(h.descs[d].free, AllocPages(h, 1).value.page, d, 0);
  }

  // ---------- Large requests ----------

  /** The pages that hold a header and `size` bytes. */
  predicate PagesHold(size: nat, n: nat) {
    size + HEADER <= n * PAGE_SIZE && (n > 0 ==> (n - 1) * PAGE_SIZE < size + HEADER)
  }

  /** The lowest run of `n` free pages was taken, and the address behind its header returned. */
  ghost predicate TakesRun(h: Heap, r: Allocated, n: nat) {
    var s := r.ptr.page - h.base;
    && s >= 0 && ClearRun(h.taken, s, n) && (forall i: nat | i < s :: !ClearRun(h.taken, i, n))
    && r.h.taken == SetRun(h.taken, s, n, true) && r.ptr.offset == HEADER
    && r.h.arenas == h.arenas[r.ptr.page := Large(n)]
  }

  lemma RunTaken(h: Heap, size: Word32, n: nat)
    requires n > 0 && PagesFor(size) == n
    ensures var r := MallocLarge(h, size);
      && (r.Done? <==> exists s: nat :: ClearRun(h.taken, s, n))
      && (r.Halt? ==> r.why == OutOfMemory)
      && (r.Done? ==> TakesRun(h, r.value, n))
  {
    hide PagesFor, ClearRun, SetRun;
  }

  lemma PagesNeeded(size: Word32, n: nat)
    requires size > 1024 && PagesHold(size, n)
    ensures PagesFor(size) ==
      if size <= 0x1_0000_0000 - HEADER - PAGE_SIZE then n else if size <= 0x1_0000_0000 - HEADER then 0 else 1
    ensures n > 0
  {
  }

  /** A large request completes exactly when there is a run of free pages that holds it with its header,
      and takes the lowest one, no page more.  Where adding the header and rounding up wrap around 32
      bits it is refused, or, with the very largest sizes, gets one page. */
  lemma LargeServed(h: Heap, size: Word32, n: nat)
    requires Inv(h) && size > 1024 && PagesHold(size, n)
    ensures |h.descs| == DESC_COUNT
    ensures var r := Malloc(h, size);
      && (size <= 0x1_0000_0000 - HEADER - PAGE_SIZE ==>
            && (r.Done? <==> exists s: nat :: ClearRun(h.taken, s, n))
            && (r.Halt? ==> r.why == OutOfMemory)
            && (r.Done? ==> TakesRun(h, r.value, n)))
      && (0x1_0000_0000 - HEADER - PAGE_SIZE < size <= 0x1_0000_0000 - HEADER ==> r == Halt(Rejected))
      && (size > 0x1_0000_0000 - HEADER ==>
            && (r.Done? <==> PageFree(h))
            && (r.Done? ==> TakesRun(h, r.value, 1)))
  {
    hide Inv, ClearRun, SetRun, FirstRun, TakesRun, PagesFor, PagesHold, MallocLarge;
    PagesNeeded(size, n);
    DescsKept(h);
    var k := PagesFor(size);
    if k > 0 {
      RunTaken(h, size, k);
    } else {
      NoPages(h, size);
    }
  }

  lemma DescsKept(h: Heap)
    requires Inv(h)
    ensures |h.descs| == DESC_COUNT
  {
    hide Slot, NoDup, FreeIn, PagesOf, LiveOk, PagesOwned;
  }

  lemma NoPages(h: Heap, size: Word32)
    requires PagesFor(size) == 0
    ensures MallocLarge(h, size) == Halt(Rejected)
  {
    hide PagesFor;
  }

  // ---------- Freeing ----------

  /** No other block of the page is live. */
  ghost predicate LastLive(h: Heap, ptr: Ptr) {
    forall b | b in h.live && b.page == ptr.page :: b == ptr
  }

  /** A page counts up to all its blocks exactly when its last live one is freed. */
  lemma CountedUp(h: Heap, ptr: Ptr, d: nat)
    requires Inv(h) && ptr in h.live && SmallOf(h, d, ptr) && Freed(h, ptr, d, [ptr] + h.descs[d].free)
    ensures h.arenas[ptr.page].count + 1 == Total(d) <==> LastLive(h, ptr)
  {
    hide Slot, SlotFrom, FreeIn, PagesOf, NoDup, BlockSize, Total, PagesOwned;
    var free, p := [ptr] + h.descs[d].free, ptr.page;
    assert |FreeIn(free, p)| == h.arenas[p].count + 1;
    NoMore(free, p, d);
    if LastLive(h, ptr) {
      forall offset: nat | Slot(d, offset) ensures Ptr(p, offset) in free {
        assert SmallOf(h, d, Ptr(p, offset));
      }
      AllIn(free, p, d);
    } else if h.arenas[p].count + 1 == Total(d) {
      LastBlockFreed(h, ptr, d, free);
      assert false;
    }
  }

  lemma AllIn(free: seq<Ptr>, page: nat, d: nat)
    requires d < DESC_COUNT && forall offset: nat | Slot(d, offset) :: Ptr(page, offset) in free
    ensures |FreeIn(free, page)| >= Total(d)
  {
    hide Off, Total;
    BlocksInAll(page, d, Total(d));
    forall b | b in BlocksIn(page, d, Total(d)) ensures b in FreeIn(free, page) {
      assert Slot(d, b.offset);
      assert b == Ptr(page, b.offset);
    }
    SubsetSize(BlocksIn(page, d, Total(d)), FreeIn(free, page));
  }

  lemma NoMore(free: seq<Ptr>, page: nat, d: nat)
    requires d < DESC_COUNT && forall b | b in free && b.page == page :: Slot(d, b.offset)
    ensures |FreeIn(free, page)| <= Total(d)
  {
    hide Off, Total;
    BlocksInAll(page, d, Total(d));
    SubsetSize(FreeIn(free, page), BlocksIn(page, d, Total(d)));
  }

  /** `kfree` gives a page of blocks back exactly when no other block of it is live and its class has
      more than four pages, and a large run always; then its bits, and no others, are clear. */
  lemma FreeReturns(h: Heap, ptr: Ptr)
    requires Inv(h) && ptr in h.live
    ensures |h.descs| == DESC_COUNT && ptr.page in h.arenas && h.base <= ptr.page
    ensures var r, a := Free(h, ptr), h.arenas[ptr.page];
      && r.Done?
      && (ptr.page !in r.value.arenas <==>
            a.Large? || (LastLive(h, ptr) && |PagesOf(h.arenas, a.desc)| > BUF_COUNT))
      && (ptr.page in r.value.arenas ==> r.value.taken == h.taken)
      && (ptr.page !in r.value.arenas ==>
            && ptr.page - h.base + Span(a) <= |h.taken|
            && r.value.taken == SetRun(h.taken, ptr.page - h.base, Span(a), false))
  {
    hide Slot, SlotFrom, FreeIn, PagesOf, NoDup, BlockSize, Total, RemoveBlocks, SetRun, LastLive, FreeListed, LiveOk;
    DescsKept(h);
    FreeInv(h, ptr);
    FreeOwned(h, ptr.page);
    if h.arenas[ptr.page].Small? {
      FreedBlock(h, ptr);
      CountedUp(h, ptr, h.arenas[ptr.page].desc);
    }
  }
}
