/** The kernel heap (src/kernel/arena.c) over runs of kernel pages (src/kernel/memory.c): seven
    classes of blocks cut from single pages, and whole runs of pages for what is larger. */
module Heaps {
  import opened Outcomes
  import opened Bitmaps
  import opened Collections
  import opened Unsigned

  const PAGE_SIZE: nat := 4096
  const HEADER: nat := 16      // sizeof(arena_t)
  const DESC_COUNT: nat := 7
  const BUF_COUNT: nat := 4


  /** An address as page number and place in the page. */
  datatype Ptr = Ptr(page: nat, offset: nat)

  /** The header at the start of a run of pages: `count` is the number of free blocks. */
  datatype Arena = Small(desc: nat, count: int) | Large(pages: nat)

  datatype Desc = Desc(free: seq<Ptr>, pages: int)

  /** `taken` is the bitmap of kernel pages, whose first page is `base`.  `live` tells what the
      callers of `kmalloc` hold: the size asked for at each address not yet freed. */
  datatype Heap = Heap(base: nat, taken: seq<bool>, arenas: map<nat, Arena>, descs: seq<Desc>, live: map<Ptr, nat>)

  function BlockSize(d: nat): (n: nat)
    requires d < DESC_COUNT
    ensures 16 <= n <= 1024
  {
    [16, 32, 64, 128, 256, 512, 1024][d]
  }

  /** Blocks in a page. */
  function Total(d: nat): (n: nat)
    requires d < DESC_COUNT
    ensures n > 0 && HEADER + n * BlockSize(d) <= PAGE_SIZE < HEADER + (n + 1) * BlockSize(d)
  {
    (PAGE_SIZE - HEADER) / BlockSize(d)
  }

  /** `get_arena_block`: the place of block `i` in its page. */
  function Off(d: nat, i: nat): nat
    requires d < DESC_COUNT
  {
    HEADER + i * BlockSize(d)
  }

  /** The first class whose blocks are large enough, from class `i` on. */
  function ClassFrom(size: nat, i: nat): (d: nat)
    requires i < DESC_COUNT && size <= 1024
    ensures i <= d < DESC_COUNT && size <= BlockSize(d)
    ensures forall j | i <= j < d :: BlockSize(j) < size
    decreases DESC_COUNT - i
  {
    if BlockSize(i) >= size || i == DESC_COUNT - 1 then i else ClassFrom(size, i + 1)
  }

  /** Pages for a large request, in 32-bit arithmetic that may wrap around twice. */
  function PagesFor(size: Word32): nat {
    var asked := (size + HEADER) % 0x1_0000_0000;
    ((asked + PAGE_SIZE - 1) % 0x1_0000_0000) / PAGE_SIZE
  }

  // ---------- Operations ----------

  datatype Got = Got(h: Heap, page: nat)

  /** `alloc_kpage`: the lowest run of `n` free pages; it halts without one, or when `n` is 0. */
  function AllocPages(h: Heap, n: nat): Outcome<Got> {
    if n == 0 then Halt(Rejected)
    else
      match FirstRun(h.taken, n)
      case None => Halt(OutOfMemory)
      case Some(s) => Done(Got(h.(taken := SetRun(h.taken, s, n, true)), h.base + s))
  }

  /** `free_kpage`; it halts when one of the pages is free already. */
  function FreePages(h: Heap, page: nat, n: nat): Outcome<Heap> {
    if n == 0 || page < h.base || !TakenRun(h.taken, page - h.base, n) then Halt(Rejected)
    else Done(h.(taken := SetRun(h.taken, page - h.base, n, false)))
  }

  /** The blocks of a new page from `i` on, pushed one by one to the head of the free list. */
  function PushBlocks(free: seq<Ptr>, page: nat, d: nat, i: nat): seq<Ptr>
    requires d < DESC_COUNT
    decreases Total(d) - i
  {
    if i >= Total(d) then free else PushBlocks([Ptr(page, Off(d, i))] + free, page, d, i + 1)
  }

  function SetDesc(h: Heap, d: nat, desc: Desc): Heap
    requires d < |h.descs|
  {
    h.(descs := h.descs[d := desc])
  }

  /** A new page of blocks for class `d`. */
  function Grow(h: Heap, d: nat): Outcome<Heap>
    requires d < DESC_COUNT == |h.descs|
  {
    var g :- AllocPages(h, 1);
    Done(SetDesc(g.h, d, Desc(PushBlocks(h.descs[d].free, g.page, d, 0), h.descs[d].pages + 1))
           .(arenas := h.arenas[g.page := Small(d, Total(d))]))
  }

  datatype Allocated = Allocated(h: Heap, ptr: Ptr)

  /** The first block of the free list of class `d`. */
  function Pop(h: Heap, d: nat, size: nat): Outcome<Allocated>
    requires d < DESC_COUNT == |h.descs|
  {
    var free := h.descs[d].free;
    if free == [] then Halt(Rejected)
    else
      var b := free[0];
      if b.page !in h.arenas || h.arenas[b.page].Large? then Halt(Rejected)
      else
        var arena := h.arenas[b.page];
        Done(Allocated(SetDesc(h, d, h.descs[d].(free := free[1..]))
                         .(arenas := h.arenas[b.page := arena.(count := arena.count - 1)], live := h.live[b := size]), b))
  }

  function MallocLarge(h: Heap, size: Word32): Outcome<Allocated> {
    var n := PagesFor(size);
    var g :- AllocPages(h, n);
    Done(Allocated(g.h.(arenas := h.arenas[g.page := Large(n)], live := h.live[Ptr(g.page, HEADER) := size]), Ptr(g.page, HEADER)))
  }

  function Malloc(h: Heap, size: Word32): Outcome<Allocated>
    requires |h.descs| == DESC_COUNT
  {
    if size > 1024 then MallocLarge(h, size)
    else
      var d := ClassFrom(size, 0);
      if h.descs[d].free != [] then Pop(h, d, size)
      else
        var g :- Grow(h, d);
        Pop(g, d, size)
  }

  /** The loop of `kfree` that takes the blocks of a page from `i` on off the free list; it halts
      when one of them is not there. */
  function RemoveBlocks(free: seq<Ptr>, page: nat, d: nat, i: nat): Outcome<seq<Ptr>>
    requires d < DESC_COUNT
    decreases Total(d) - i
  {
    if i >= Total(d) then Done(free)
    else if Ptr(page, Off(d, i)) !in free then Halt(Rejected)
    else RemoveBlocks(Without(free, Ptr(page, Off(d, i))), page, d, i + 1)
  }

  /** `kfree` of an address that is live. */
  function Free(h: Heap, ptr: Ptr): Outcome<Heap>
    requires |h.descs| == DESC_COUNT
  {
    if ptr.page !in h.arenas then Halt(Rejected)
    else
      var arena := h.arenas[ptr.page];
      if arena.Large? then
        var f :- FreePages(h, ptr.page, arena.pages);
        Done(f.(arenas := h.arenas - {ptr.page}, live := h.live - {ptr}))
      else FreeSmall(h, ptr, arena)
  }

  function FreeSmall(h: Heap, ptr: Ptr, arena: Arena): Outcome<Heap>
    requires |h.descs| == DESC_COUNT && arena.Small?
  {
    var d := arena.desc;
    if d >= DESC_COUNT || ptr in h.descs[d].free then Halt(Rejected)
    else
      var free := [ptr] + h.descs[d].free;
      var count := arena.count + 1;
      if count == Total(d) && h.descs[d].pages > BUF_COUNT then
        var fewer :- RemoveBlocks(free, ptr.page, d, 0);
        var f :- FreePages(h, ptr.page, 1);
        Done(SetDesc(f, d, Desc(fewer, h.descs[d].pages - 1)).(arenas := h.arenas - {ptr.page}, live := h.live - {ptr}))
      else
        Done(SetDesc(h, d, h.descs[d].(free := free)).(arenas := h.arenas[ptr.page := Small(d, count)], live := h.live - {ptr}))
  }

  // ---------- The invariant ----------

  function Span(a: Arena): nat {
    if a.Small? then 1 else a.pages
  }

  /** The heap's runs of pages are marked in the bitmap and do not overlap. */
  ghost predicate PagesOwned(h: Heap) {
    && (forall p | p in h.arenas :: h.base <= p && Span(h.arenas[p]) > 0 && TakenRun(h.taken, p - h.base, Span(h.arenas[p])))
    && (forall p, q | p in h.arenas && q in h.arenas && p < q :: p + Span(h.arenas[p]) <= q)
  }

  /** Place `offset` is where block `i` or a later one of class `d` starts. */
  ghost predicate SlotFrom(d: nat, offset: nat, i: nat) {
    d < DESC_COUNT && exists j: nat :: i <= j < Total(d) && offset == Off(d, j)
  }

  ghost predicate Slot(d: nat, offset: nat) {
    SlotFrom(d, offset, 0)
  }

  ghost predicate SmallOf(h: Heap, d: nat, b: Ptr) {
    b.page in h.arenas && h.arenas[b.page].Small? && h.arenas[b.page].desc == d && Slot(d, b.offset)
  }

  /** The free list of a class holds blocks of its pages, each once, and exactly those not live. */
  ghost predicate FreeListed(h: Heap) {
    && |h.descs| == DESC_COUNT
    && (forall d | 0 <= d < DESC_COUNT :: NoDup(h.descs[d].free))
    && (forall d: nat, b | d < DESC_COUNT && b in h.descs[d].free :: SmallOf(h, d, b) && b !in h.live)
    && (forall d: nat, b | d < DESC_COUNT && SmallOf(h, d, b) && b !in h.live :: b in h.descs[d].free)
  }

  /** Room behind an address of the heap. */
  function Room(a: Arena): nat {
    if a.Small? then (if a.desc < DESC_COUNT then BlockSize(a.desc) else 0) else if a.pages * PAGE_SIZE >= HEADER then a.pages * PAGE_SIZE - HEADER else 0
  }

  /** Live addresses are blocks, or the one place in a large run; each fits unless the size
      wrapped around. */
  ghost predicate LiveOk(h: Heap) {
    && (forall p | p in h.arenas && h.arenas[p].Small? :: h.arenas[p].desc < DESC_COUNT)
    && (forall b | b in h.live ::
          && b.page in h.arenas
          && (if h.arenas[b.page].Small? then Slot(h.arenas[b.page].desc, b.offset) else b.offset == HEADER)
          && (h.live[b] <= Room(h.arenas[b.page]) || h.live[b] > 0x1_0000_0000 - HEADER))
    && (forall p | p in h.arenas && h.arenas[p].Large? :: Ptr(p, HEADER) in h.live)
  }

  /** The blocks of page `p` in a free list. */
  function FreeIn(free: seq<Ptr>, p: nat): set<Ptr> {
    set b | b in free && b.page == p
  }

  function PagesOf(arenas: map<nat, Arena>, d: nat): set<nat> {
    set p | p in arenas && arenas[p].Small? && arenas[p].desc == d
  }

  /** A page counts its free blocks, and a class its pages. */
  ghost predicate Counted(h: Heap) {
    && |h.descs| == DESC_COUNT
    && (forall p | p in h.arenas && h.arenas[p].Small? && h.arenas[p].desc < DESC_COUNT ::
          h.arenas[p].count == |FreeIn(h.descs[h.arenas[p].desc].free, p)|)
    && (forall d | 0 <= d < DESC_COUNT :: h.descs[d].pages == |PagesOf(h.arenas, d)|)
  }

  ghost predicate Inv(h: Heap) {
    PagesOwned(h) && FreeListed(h) && LiveOk(h) && Counted(h)
  }

  // ---------- Blocks of a page ----------

  lemma OffLess(d: nat, i: nat, j: nat)
    requires d < DESC_COUNT && i < j
    ensures Off(d, i) + BlockSize(d) <= Off(d, j)
  {
    var b := BlockSize(d);
    assert (j - i - 1) * b >= 0;
    assert j * b == (j - i - 1) * b + i * b + b;
  }

  lemma OffOnce(d: nat, i: nat, j: nat)
    requires d < DESC_COUNT && Off(d, i) == Off(d, j)
    ensures i == j
  {
    hide Off;
    if i < j {
      OffLess(d, i, j);
    } else if j < i {
      OffLess(d, j, i);
    }
  }

  lemma OffEnds(d: nat, i: nat)
    requires d < DESC_COUNT && i < Total(d)
    ensures HEADER <= Off(d, i) && Off(d, i) + BlockSize(d) <= PAGE_SIZE
  {
    hide Total;
    if i + 1 < Total(d) {
      OffLess(d, i, Total(d));
    }
  }

  lemma SlotStep(d: nat, offset: nat, i: nat)
    requires d < DESC_COUNT && i < Total(d)
    ensures SlotFrom(d, offset, i) <==> offset == Off(d, i) || SlotFrom(d, offset, i + 1)
    ensures !SlotFrom(d, Off(d, i), i + 1)
  {
    hide Off, Total;
    if SlotFrom(d, Off(d, i), i + 1) {
      var j: nat :| i + 1 <= j < Total(d) && Off(d, i) == Off(d, j);
      OffOnce(d, i, j);
      assert false;
    }
  }

  lemma NoSlot(d: nat, offset: nat)
    requires d < DESC_COUNT
    ensures !SlotFrom(d, offset, Total(d))
  {
  }

  lemma PushNoDup(s: seq<Ptr>, x: Ptr)
    requires NoDup(s) && x !in s
    ensures NoDup([x] + s)
  {
  }

  /** The free list of a class that was empty after its page of new blocks is pushed. */
  lemma {:induction false} PushedBlocks(free: seq<Ptr>, page: nat, d: nat, i: nat)
    requires d < DESC_COUNT && i <= Total(d) && NoDup(free)
    requires forall b | b in free :: b.page == page && !SlotFrom(d, b.offset, i)
    ensures var r := PushBlocks(free, page, d, i);
      && NoDup(r)
      && (forall b :: b in r <==> b in free || (b.page == page && SlotFrom(d, b.offset, i)))
      && |FreeIn(r, page)| == |FreeIn(free, page)| + Total(d) - i
      && (i < Total(d) ==> r != [])
    decreases Total(d) - i
  {
    hide SlotFrom, Off, Total, FreeIn;
    if i < Total(d) {
      var b := Ptr(page, Off(d, i));
      forall offset: nat ensures SlotFrom(d, offset, i) <==> offset == Off(d, i) || SlotFrom(d, offset, i + 1) {
        SlotStep(d, offset, i);
      }
      SlotStep(d, 0, i);
      assert b !in free;
      PushNoDup(free, b);
      FreeInPush(free, b, page);
      assert forall c :: c in [b] + free <==> c == b || c in free;
      PushedBlocks([b] + free, page, d, i + 1);
      assert b in PushBlocks([b] + free, page, d, i + 1);
    } else {
      forall offset: nat ensures !SlotFrom(d, offset, i) {
        NoSlot(d, offset);
      }
    }
  }

  lemma FreeInPush(free: seq<Ptr>, b: Ptr, p: nat)
    requires b !in free
    ensures |FreeIn([b] + free, p)| == |FreeIn(free, p)| + if b.page == p then 1 else 0
  {
    assert forall c :: c in [b] + free <==> c == b || c in free;
    assert FreeIn([b] + free, p) == if b.page == p then FreeIn(free, p) + {b} else FreeIn(free, p);
  }

  /** Taking all the blocks of a page off the free list. */
  lemma {:induction false} RemovedBlocks(free: seq<Ptr>, page: nat, d: nat, i: nat)
    requires d < DESC_COUNT && i <= Total(d) && NoDup(free)
    requires forall offset: nat | SlotFrom(d, offset, i) :: Ptr(page, offset) in free
    ensures var r := RemoveBlocks(free, page, d, i);
      && r.Done? && NoDup(r.value)
      && forall b :: b in r.value <==> b in free && !(b.page == page && SlotFrom(d, b.offset, i))
    decreases Total(d) - i
  {
    hide SlotFrom, Off, Total, Without, NoDup;
    if i < Total(d) {
      forall offset: nat ensures SlotFrom(d, offset, i) <==> offset == Off(d, i) || SlotFrom(d, offset, i + 1) {
        SlotStep(d, offset, i);
      }
      SlotStep(d, 0, i);
      WithoutMember(free, Ptr(page, Off(d, i)));
      RemovedBlocks(Without(free, Ptr(page, Off(d, i))), page, d, i + 1);
    } else {
      forall offset: nat ensures !SlotFrom(d, offset, i) {
        NoSlot(d, offset);
      }
    }
  }

  function BlocksIn(page: nat, d: nat, n: nat): set<Ptr>
    requires d < DESC_COUNT
  {
    if n == 0 then {} else BlocksIn(page, d, n - 1) + {Ptr(page, Off(d, n - 1))}
  }

  lemma {:induction false} BlocksInAll(page: nat, d: nat, n: nat)
    requires d < DESC_COUNT && n <= Total(d)
    ensures |BlocksIn(page, d, n)| == n
    ensures forall b :: b in BlocksIn(page, d, n) <==> b.page == page && exists j: nat :: j < n && b.offset == Off(d, j)
  {
    hide Off, Total;
    if n == 0 {
    } else {
      BlocksInAll(page, d, n - 1);
      if Ptr(page, Off(d, n - 1)) in BlocksIn(page, d, n - 1) {
        var j: nat :| j < n - 1 && Off(d, n - 1) == Off(d, j);
        OffOnce(d, n - 1, j);
        assert false;
      }
    }
  }

  lemma {:induction false} SubsetEqual<A>(a: set<A>, b: set<A>)
    requires a <= b && |a| == |b|
    ensures a == b
  {
    if a != b {
      var x :| x in b && x !in a;
      SubsetSize(a, b - {x});
    }
  }

  /** A page that counts as many free blocks as it has has no other. */
  lemma AllFree(free: seq<Ptr>, page: nat, d: nat)
    requires d < DESC_COUNT && |FreeIn(free, page)| == Total(d)
    requires forall b | b in free && b.page == page :: Slot(d, b.offset)
    ensures forall offset: nat | Slot(d, offset) :: Ptr(page, offset) in free
  {
    hide Off, Total;
    BlocksInAll(page, d, Total(d));
    SubsetEqual(FreeIn(free, page), BlocksIn(page, d, Total(d)));
    forall offset: nat | Slot(d, offset) ensures Ptr(page, offset) in free {
      assert Ptr(page, offset) in BlocksIn(page, d, Total(d));
    }
  }

  // ---------- Allocation keeps the invariant ----------

  /** Pages from the bitmap overlap no run the heap owns. */
  lemma AllocOwned(h: Heap, n: nat, a: Arena)
    requires PagesOwned(h) && AllocPages(h, n).Done? && Span(a) == n
    ensures var g := AllocPages(h, n).value; g.page !in h.arenas && PagesOwned(g.h.(arenas := h.arenas[g.page := a]))
  {
    hide FirstRun, SetRun;
    var g := AllocPages(h, n).value;
    var s := FirstRun(h.taken, n).value;
    forall q | q in h.arenas ensures q != g.page
      && (q < g.page ==> q + Span(h.arenas[q]) <= g.page) && (g.page < q ==> g.page + n <= q)
      && TakenRun(g.h.taken, q - h.base, Span(h.arenas[q]))
    {
      assert TakenRun(h.taken, q - h.base, Span(h.arenas[q]));
      assert h.taken[q - h.base] && !h.taken[s];
    }
  }

  lemma PagesOfAdd(arenas: map<nat, Arena>, p: nat, a: Arena, d: nat)
    requires p !in arenas
    ensures |PagesOf(arenas[p := a], d)| == |PagesOf(arenas, d)| + if a.Small? && a.desc == d then 1 else 0
  {
    assert PagesOf(arenas[p := a], d) == if a.Small? && a.desc == d then PagesOf(arenas, d) + {p} else PagesOf(arenas, d);
  }

  lemma PagesOfDrop(arenas: map<nat, Arena>, p: nat, d: nat)
    requires p in arenas
    ensures var a := arenas[p];
      |PagesOf(arenas - {p}, d)| == |PagesOf(arenas, d)| - if a.Small? && a.desc == d then 1 else 0
  {
    var a := arenas[p];
    assert PagesOf(arenas - {p}, d) == if a.Small? && a.desc == d then PagesOf(arenas, d) - {p} else PagesOf(arenas, d);
  }

  lemma PagesOfCount(arenas: map<nat, Arena>, p: nat, count: int, d: nat)
    requires p in arenas && arenas[p].Small?
    ensures PagesOf(arenas[p := arenas[p].(count := count)], d) == PagesOf(arenas, d)
  {
  }

  lemma GrowInv(h: Heap, d: nat)
    requires Inv(h) && d < DESC_COUNT && h.descs[d].free == [] && Grow(h, d).Done?
    ensures var g := Grow(h, d).value; Inv(g) && g.descs[d].free != [] && g.live == h.live
  {
    hide Slot, Total, AllocPages, PushBlocks, FreeIn, PagesOf, NoDup, BlockSize, FreeListed, LiveOk;
    AllocKeeps(h, 1);
    AllocOwned(h, 1, Small(d, Total(d)));
    GrowListed(h, d);
    GrowCounted(h, d);
  }

  lemma GrowCounted(h: Heap, d: nat)
    requires Inv(h) && d < DESC_COUNT && h.descs[d].free == [] && Grow(h, d).Done?
    ensures Counted(Grow(h, d).value) && Grow(h, d).value.descs[d].free != []
  {
    hide Slot, Total, AllocPages, PushBlocks, FreeIn, PagesOf, NoDup, BlockSize, FreeListed, LiveOk, PagesOwned;
    var p, g := AllocPages(h, 1).value.page, Grow(h, d).value;
    AllocKeeps(h, 1);
    AllocOwned(h, 1, Small(d, Total(d)));
    EmptyList(p);
    PushedBlocks([], p, d, 0);
    GrowListed(h, d);
    forall e: nat ensures |PagesOf(g.arenas, e)| == |PagesOf(h.arenas, e)| + if e == d then 1 else 0 {
      PagesOfAdd(h.arenas, p, Small(d, Total(d)), e);
    }
    forall q: nat | q != p ensures FreeIn(g.descs[d].free, q) == {} && FreeIn([], q) == {} {
      EmptyList(q);
      OnlyPage(g.descs[d].free, p, q);
    }
  }

  lemma AllocKeeps(h: Heap, n: nat)
    requires AllocPages(h, n).Done?
    ensures var g := AllocPages(h, n).value; g.h == h.(taken := g.h.taken) && n > 0 && g.page >= h.base
  {
  }

  lemma EmptyList(p: nat)
    ensures FreeIn([], p) == {} && NoDup<Ptr>([])
  {
  }

  lemma OnlyPage(free: seq<Ptr>, p: nat, q: nat)
    requires q != p && forall b | b in free :: b.page == p
    ensures FreeIn(free, q) == {}
  {
  }

  lemma GrowListed(h: Heap, d: nat)
    requires Inv(h) && d < DESC_COUNT && h.descs[d].free == [] && Grow(h, d).Done?
    ensures FreeListed(Grow(h, d).value) && LiveOk(Grow(h, d).value)
    ensures forall b | b in Grow(h, d).value.descs[d].free :: b.page == AllocPages(h, 1).value.page
  {
    hide Slot, Total, AllocPages, PushBlocks, NoDup, BlockSize, Counted, PagesOwned;
    var p, g := AllocPages(h, 1).value.page, Grow(h, d).value;
    AllocKeeps(h, 1);
    AllocOwned(h, 1, Small(d, Total(d)));
    EmptyList(p);
    PushedBlocks([], p, d, 0);
    assert forall offset: nat :: SlotFrom(d, offset, 0) <==> Slot(d, offset) by {
      SlotIs(d);
    }
    assert forall e: nat, b: Ptr | b.page != p :: SmallOf(g, e, b) <==> SmallOf(h, e, b);
  }

  lemma SlotIs(d: nat)
    ensures forall offset: nat :: SlotFrom(d, offset, 0) <==> Slot(d, offset)
  {
  }

  /** Taking a block: it was not live, its page is a page of its class. */
  lemma PopInv(h: Heap, d: nat, size: nat)
    requires Inv(h) && d < DESC_COUNT && h.descs[d].free != [] && size <= BlockSize(d)
    ensures var r := Pop(h, d, size);
      && r.Done? && Inv(r.value.h) && r.value.ptr !in h.live && r.value.h.live == h.live[r.value.ptr := size]
      && SmallOf(r.value.h, d, r.value.ptr)
  {
    hide Slot, Total, FreeIn, PagesOf, NoDup, BlockSize, FreeListed, LiveOk;
    PopListed(h, d, size);
    PopCounted(h, d, size);
    assert PagesOwned(Pop(h, d, size).value.h);
  }

  lemma PopListed(h: Heap, d: nat, size: nat)
    requires FreeListed(h) && LiveOk(h) && d < DESC_COUNT && h.descs[d].free != [] && size <= BlockSize(d)
    ensures var r := Pop(h, d, size);
      && r.Done? && FreeListed(r.value.h) && LiveOk(r.value.h) && r.value.ptr !in h.live
      && SmallOf(h, d, r.value.ptr) && SmallOf(r.value.h, d, r.value.ptr)
  {
    hide Slot, Total, NoDup, BlockSize;
    var free := h.descs[d].free;
    var b := free[0];
    assert b in free && SmallOf(h, d, b);
    var g := Pop(h, d, size).value.h;
    FirstOut(free);
    assert forall e: nat, c: Ptr :: SmallOf(g, e, c) <==> SmallOf(h, e, c);
  }

  lemma PopCounted(h: Heap, d: nat, size: nat)
    requires FreeListed(h) && Counted(h) && d < DESC_COUNT && h.descs[d].free != [] && Pop(h, d, size).Done?
    requires SmallOf(h, d, Pop(h, d, size).value.ptr)
    ensures Counted(Pop(h, d, size).value.h)
  {
    hide Slot, FreeIn, PagesOf, NoDup, BlockSize;
    var free := h.descs[d].free;
    var b := free[0];
    var g := Pop(h, d, size).value.h;
    FirstOut(free);
    forall e: nat ensures PagesOf(g.arenas, e) == PagesOf(h.arenas, e) {
      PagesOfCount(h.arenas, b.page, h.arenas[b.page].count - 1, e);
    }
    forall q: nat ensures |FreeIn(free[1..], q)| == |FreeIn(free, q)| - if b.page == q then 1 else 0 {
      FreeInPush(free[1..], b, q);
    }
  }

  lemma FirstOut(free: seq<Ptr>)
    requires free != [] && NoDup(free)
    ensures NoDup(free[1..]) && free[0] !in free[1..] && free == [free[0]] + free[1..]
    ensures forall b :: b in free[1..] <==> b in free && b != free[0]
  {
    var rest := free[1..];
    assert free == [free[0]] + rest;
    assert forall i | 0 <= i < |rest| :: rest[i] == free[i + 1];
    assert forall b :: b in free <==> b == free[0] || b in rest;
    assert free[0] !in rest;
  }

  lemma PagesForFits(size: Word32)
    requires PagesFor(size) > 0
    ensures size <= PagesFor(size) * PAGE_SIZE - HEADER <==> size <= 0x1_0000_0000 - HEADER
  {
  }

  lemma MallocLargeInv(h: Heap, size: Word32)
    requires Inv(h) && size > 1024 && MallocLarge(h, size).Done?
    ensures var r := MallocLarge(h, size).value;
      && Inv(r.h) && r.ptr !in h.live && r.h.live == h.live[r.ptr := size]
      && r.ptr.page in r.h.arenas && (size <= Room(r.h.arenas[r.ptr.page]) <==> size <= 0x1_0000_0000 - HEADER)
  {
    hide AllocPages, PagesFor, FreeListed, LiveOk, Counted, PagesOwned;
    var n := PagesFor(size);
    AllocKeeps(h, n);
    AllocOwned(h, n, Large(n));
    PagesForFits(size);
    var p := AllocPages(h, n).value.page;
    var g := MallocLarge(h, size).value.h;
    NotLive(h, Ptr(p, HEADER));
    AddLargeListed(h, g, p, n, size);
    AddLargeLive(h, g, p, n, size);
    AddLargeCounted(h, g, p, n);
    assert g == AllocPages(h, n).value.h.(arenas := h.arenas[p := Large(n)], live := g.live);
    LiveNotOwned(AllocPages(h, n).value.h.(arenas := h.arenas[p := Large(n)]), g);
  }

  lemma NotLive(h: Heap, ptr: Ptr)
    requires LiveOk(h) && ptr.page !in h.arenas
    ensures ptr !in h.live
  {
    hide Slot, Room;
  }

  /** Which addresses are live does not matter for the pages. */
  lemma LiveNotOwned(h: Heap, g: Heap)
    requires PagesOwned(h) && g == h.(live := g.live)
    ensures PagesOwned(g)
  {
  }

  lemma AddLargeLive(h: Heap, g: Heap, p: nat, n: nat, size: Word32)
    requires LiveOk(h) && p !in h.arenas && n == PagesFor(size) > 0
    requires g.arenas == h.arenas[p := Large(n)] && g.live == h.live[Ptr(p, HEADER) := size]
    ensures LiveOk(g)
  {
    hide Slot, BlockSize, PagesFor;
    PagesForFits(size);
  }

  lemma AddLargeCounted(h: Heap, g: Heap, p: nat, n: nat)
    requires Counted(h) && p !in h.arenas && g.descs == h.descs && g.arenas == h.arenas[p := Large(n)]
    ensures Counted(g)
  {
    hide FreeIn, PagesOf;
    forall e: nat ensures |PagesOf(g.arenas, e)| == |PagesOf(h.arenas, e)| {
      PagesOfAdd(h.arenas, p, Large(n), e);
    }
  }

  lemma AddLargeListed(h: Heap, g: Heap, p: nat, n: nat, size: nat)
    requires FreeListed(h) && p !in h.arenas && g.descs == h.descs
    requires g.arenas == h.arenas[p := Large(n)] && g.live == h.live[Ptr(p, HEADER) := size]
    ensures FreeListed(g)
  {
    hide Slot, NoDup;
    assert forall e: nat, b: Ptr :: SmallOf(g, e, b) <==> SmallOf(h, e, b);
    forall e: nat, c: Ptr | e < DESC_COUNT && c in g.descs[e].free ensures SmallOf(g, e, c) && c !in g.live {
      assert c in h.descs[e].free && SmallOf(h, e, c) && c.page != p;
    }
    forall e: nat, c: Ptr | e < DESC_COUNT && SmallOf(g, e, c) && c !in g.live ensures c in g.descs[e].free {
      assert SmallOf(h, e, c) && c !in h.live;
    }
  }

  /** `kmalloc` gives an address that was not live, with room for the size asked for exactly when
      adding the header to it does not wrap around. */
  lemma MallocInv(h: Heap, size: Word32)
    requires Inv(h) && Malloc(h, size).Done?
    ensures var r := Malloc(h, size).value;
      && Inv(r.h) && r.ptr !in h.live && r.h.live == h.live[r.ptr := size]
      && r.ptr.page in r.h.arenas && (size <= Room(r.h.arenas[r.ptr.page]) <==> size <= 0x1_0000_0000 - HEADER)
  {
    hide Slot, Total, AllocPages, FreeIn, PagesOf, NoDup, BlockSize, PagesFor, Grow, Pop, MallocLarge, LiveOk, Counted, PagesOwned;
    if size > 1024 {
      MallocLargeInv(h, size);
    } else {
      var d := ClassFrom(size, 0);
      if h.descs[d].free != [] {
        PopInv(h, d, size);
      } else {
        GrowInv(h, d);
        PopInv(Grow(h, d).value, d, size);
      }
    }
  }

  // ---------- Freeing keeps the invariant ----------

  /** Giving a run of pages back leaves the others marked. */
  lemma FreeOwned(h: Heap, p: nat)
    requires PagesOwned(h) && p in h.arenas
    ensures var f := FreePages(h, p, Span(h.arenas[p]));
      && f.Done? && f.value == h.(taken := f.value.taken) && PagesOwned(f.value.(arenas := h.arenas - {p}))
  {
    hide SetRun;
    var n := Span(h.arenas[p]);
    var f := FreePages(h, p, n).value;
    forall q | q in h.arenas && q != p ensures TakenRun(f.taken, q - h.base, Span(h.arenas[q])) {
      assert TakenRun(h.taken, q - h.base, Span(h.arenas[q]));
    }
  }

  lemma FreeLargeInv(h: Heap, ptr: Ptr)
    requires Inv(h) && ptr in h.live && h.arenas[ptr.page].Large?
    ensures var r := Free(h, ptr); r.Done? && Inv(r.value) && r.value.live == h.live - {ptr}
  {
    hide Slot, FreeIn, PagesOf, NoDup, BlockSize, FreeListed, FreePages;
    FreeOwned(h, ptr.page);
    DescsLength(h);
    var g := Free(h, ptr).value;
    DropLargeListed(h, g, ptr);
    forall e: nat ensures |PagesOf(g.arenas, e)| == |PagesOf(h.arenas, e)| {
      PagesOfDrop(h.arenas, ptr.page, e);
    }
  }

  lemma DescsLength(h: Heap)
    requires FreeListed(h)
    ensures |h.descs| == DESC_COUNT
  {
  }

  lemma DropLargeListed(h: Heap, g: Heap, ptr: Ptr)
    requires FreeListed(h) && ptr.page in h.arenas && h.arenas[ptr.page].Large? && g.descs == h.descs
    requires g.arenas == h.arenas - {ptr.page} && g.live == h.live - {ptr}
    ensures FreeListed(g)
  {
    hide Slot, NoDup;
    assert forall e: nat, b: Ptr :: SmallOf(g, e, b) <==> SmallOf(h, e, b);
    assert forall e: nat, b: Ptr | SmallOf(h, e, b) :: b.page != ptr.page;
  }

  /** The free list with a block pushed. */
  ghost predicate Freed(h: Heap, ptr: Ptr, d: nat, free: seq<Ptr>) {
    && d < DESC_COUNT == |h.descs| && free == [ptr] + h.descs[d].free && NoDup(free)
    && (forall b :: b in free <==> b == ptr || b in h.descs[d].free)
    && (forall q: nat :: |FreeIn(free, q)| == |FreeIn(h.descs[d].free, q)| + if ptr.page == q then 1 else 0)
  }

  lemma FreedBlock(h: Heap, ptr: Ptr)
    requires Inv(h) && ptr in h.live && h.arenas[ptr.page].Small?
    ensures var d := h.arenas[ptr.page].desc;
      d < DESC_COUNT && SmallOf(h, d, ptr) && ptr !in h.descs[d].free && Freed(h, ptr, d, [ptr] + h.descs[d].free)
  {
    hide FreeIn, Counted, PagesOwned, BlockSize, Total, Slot, Room;
    var d := h.arenas[ptr.page].desc;
    PushNoDup(h.descs[d].free, ptr);
    forall q: nat ensures |FreeIn([ptr] + h.descs[d].free, q)| == |FreeIn(h.descs[d].free, q)| + if ptr.page == q then 1 else 0 {
      FreeInPush(h.descs[d].free, ptr, q);
    }
  }

  /** A block freed into a page that stays. */
  lemma FreeBlockInv(h: Heap, ptr: Ptr, d: nat, free: seq<Ptr>)
    requires Inv(h) && ptr in h.live && SmallOf(h, d, ptr) && Freed(h, ptr, d, free)
    ensures Inv(SetDesc(h, d, h.descs[d].(free := free))
                  .(arenas := h.arenas[ptr.page := Small(d, h.arenas[ptr.page].count + 1)], live := h.live - {ptr}))
  {
    hide Slot, FreeIn, PagesOf, NoDup, BlockSize, Total, Counted, LiveOk;
    DescsLength(h);
    var g := SetDesc(h, d, h.descs[d].(free := free))
               .(arenas := h.arenas[ptr.page := Small(d, h.arenas[ptr.page].count + 1)], live := h.live - {ptr});
    assert forall e: nat, c: Ptr :: SmallOf(g, e, c) <==> SmallOf(h, e, c);
    FreeBlockListed(h, g, ptr, d, free);
    forall e: nat ensures PagesOf(g.arenas, e) == PagesOf(h.arenas, e) {
      PagesOfCount(h.arenas, ptr.page, h.arenas[ptr.page].count + 1, e);
    }
    FreeBlockCounted(h, g, ptr, d, free);
    assert PagesOwned(g);
    FreeBlockLive(h, g, ptr, d);
  }

  lemma FreeBlockLive(h: Heap, g: Heap, ptr: Ptr, d: nat)
    requires LiveOk(h) && SmallOf(h, d, ptr)
    requires g.arenas == h.arenas[ptr.page := Small(d, h.arenas[ptr.page].count + 1)] && g.live == h.live - {ptr}
    ensures LiveOk(g)
  {
    hide Slot;
  }

  lemma FreeBlockListed(h: Heap, g: Heap, ptr: Ptr, d: nat, free: seq<Ptr>)
    requires FreeListed(h) && SmallOf(h, d, ptr) && Freed(h, ptr, d, free)
    requires g.descs == h.descs[d := h.descs[d].(free := free)] && g.live == h.live - {ptr}
    requires forall e: nat, c: Ptr :: SmallOf(g, e, c) <==> SmallOf(h, e, c)
    ensures FreeListed(g)
  {
    hide Slot, FreeIn, NoDup;
    assert forall e: nat | SmallOf(h, e, ptr) :: e == d;
    assert NoDup(g.descs[d].free);
    forall e: nat, c: Ptr | e < DESC_COUNT && SmallOf(g, e, c) && c !in g.live ensures c in g.descs[e].free {
      assert c != ptr ==> c !in h.live && c in h.descs[e].free;
    }
    forall e: nat, c: Ptr | e < DESC_COUNT && c in g.descs[e].free ensures SmallOf(g, e, c) && c !in g.live {
      assert c != ptr ==> c in h.descs[e].free;
    }
  }

  lemma FreeBlockCounted(h: Heap, g: Heap, ptr: Ptr, d: nat, free: seq<Ptr>)
    requires Counted(h) && SmallOf(h, d, ptr) && Freed(h, ptr, d, free)
    requires g.descs == h.descs[d := h.descs[d].(free := free)]
    requires g.arenas == h.arenas[ptr.page := Small(d, h.arenas[ptr.page].count + 1)]
    requires forall e: nat :: PagesOf(g.arenas, e) == PagesOf(h.arenas, e)
    ensures Counted(g)
  {
    hide Slot, FreeIn, PagesOf, NoDup;
  }

  /** When the last live block of a page is freed, all the blocks of the page are on the free
      list, and the loop takes them off. */
  lemma LastBlockFreed(h: Heap, ptr: Ptr, d: nat, free: seq<Ptr>)
    requires FreeListed(h) && LiveOk(h) && Counted(h) && ptr in h.live && SmallOf(h, d, ptr) && Freed(h, ptr, d, free)
    requires h.arenas[ptr.page].count + 1 == Total(d)
    ensures var r := RemoveBlocks(free, ptr.page, d, 0);
      && r.Done? && NoDup(r.value)
      && (forall b :: b in r.value <==> b in h.descs[d].free && b.page != ptr.page)
      && (forall b | b in h.live && b.page == ptr.page :: b == ptr)
  {
    hide Slot, SlotFrom, FreeIn, PagesOf, NoDup, BlockSize, Total, RemoveBlocks;
    var p := ptr.page;
    SlotIs(d);
    assert forall b | b in free && b.page == p :: SmallOf(h, d, b);
    AllFree(free, p, d);
    RemovedBlocks(free, p, d, 0);
    forall b | b in h.live && b.page == p ensures b == ptr {
      assert b in free;
    }
  }

  /** Then the page leaves the heap. */
  lemma FreePageInv(h: Heap, ptr: Ptr, d: nat, free: seq<Ptr>)
    requires Inv(h) && ptr in h.live && SmallOf(h, d, ptr) && Freed(h, ptr, d, free)
    requires h.arenas[ptr.page].count + 1 == Total(d)
    ensures var r, f := RemoveBlocks(free, ptr.page, d, 0), FreePages(h, ptr.page, 1);
      && r.Done? && f.Done?
      && (forall b | b in h.live && b.page == ptr.page :: b == ptr)
      && Inv(SetDesc(f.value, d, Desc(r.value, h.descs[d].pages - 1)).(arenas := h.arenas - {ptr.page}, live := h.live - {ptr}))
  {
    hide Slot, NoDup, BlockSize, Total, FreePages, RemoveBlocks, FreeListed, Counted, LiveOk;
    var p := ptr.page;
    FreeOwned(h, p);
    LastBlockFreed(h, ptr, d, free);
    var fewer := RemoveBlocks(free, p, d, 0).value;
    var g := SetDesc(FreePages(h, p, 1).value, d, Desc(fewer, h.descs[d].pages - 1)).(arenas := h.arenas - {p}, live := h.live - {ptr});
    DropPageListed(h, g, p, d, fewer);
    DropPageCounted(h, g, p, d, fewer);
    DropPageLive(h, g, ptr);
  }

  lemma DropPageLive(h: Heap, g: Heap, ptr: Ptr)
    requires LiveOk(h) && ptr.page in h.arenas && h.arenas[ptr.page].Small?
    requires (forall b | b in h.live && b.page == ptr.page :: b == ptr)
    requires g.arenas == h.arenas - {ptr.page} && g.live == h.live - {ptr}
    ensures LiveOk(g)
  {
    hide Slot;
  }

  lemma DropPageListed(h: Heap, g: Heap, p: nat, d: nat, fewer: seq<Ptr>)
    requires FreeListed(h) && d < DESC_COUNT && p in h.arenas && h.arenas[p].Small? && h.arenas[p].desc == d && NoDup(fewer)
    requires forall b :: b in fewer <==> b in h.descs[d].free && b.page != p
    requires |g.descs| == DESC_COUNT && g.descs[d].free == fewer && forall e | 0 <= e < DESC_COUNT && e != d :: g.descs[e] == h.descs[e]
    requires g.arenas == h.arenas - {p} && forall b: Ptr | b.page != p :: b in g.live <==> b in h.live
    ensures FreeListed(g)
  {
    hide Slot, NoDup;
    assert forall e: nat, c: Ptr :: SmallOf(g, e, c) <==> SmallOf(h, e, c) && c.page != p;
    assert forall e: nat, c: Ptr | SmallOf(h, e, c) && e != d :: c.page != p;
    assert NoDup(g.descs[d].free);
    forall e: nat, c: Ptr | e < DESC_COUNT && SmallOf(g, e, c) && c !in g.live ensures c in g.descs[e].free {
      assert c in h.descs[e].free;
    }
    forall e: nat, c: Ptr | e < DESC_COUNT && c in g.descs[e].free ensures SmallOf(g, e, c) && c !in g.live {
      assert c in h.descs[e].free && SmallOf(h, e, c);
    }
  }

  lemma DropPageCounted(h: Heap, g: Heap, p: nat, d: nat, fewer: seq<Ptr>)
    requires Counted(h) && d < DESC_COUNT && p in h.arenas && h.arenas[p].Small? && h.arenas[p].desc == d
    requires forall b :: b in fewer <==> b in h.descs[d].free && b.page != p
    requires g.descs == h.descs[d := Desc(fewer, h.descs[d].pages - 1)] && g.arenas == h.arenas - {p}
    ensures Counted(g)
  {
    hide PagesOf;
    forall e: nat ensures |PagesOf(g.arenas, e)| == |PagesOf(h.arenas, e)| - if e == d then 1 else 0 {
      PagesOfDrop(h.arenas, p, e);
    }
    forall q: nat | q != p ensures FreeIn(fewer, q) == FreeIn(h.descs[d].free, q) {
    }
  }

  /** `kfree` of a live address never fails, ends its life, and gives its page back only when no
      other block of the page is live. */
  lemma FreeInv(h: Heap, ptr: Ptr)
    requires Inv(h) && ptr in h.live
    ensures |h.descs| == DESC_COUNT && ptr.page in h.arenas
    ensures var r := Free(h, ptr);
      && r.Done? && Inv(r.value) && r.value.live == h.live - {ptr}
      && (ptr.page !in r.value.arenas ==> forall b | b in h.live && b.page == ptr.page :: b == ptr)
  {
    hide Slot, SlotFrom, FreeIn, PagesOf, NoDup, BlockSize, Total, FreePages, RemoveBlocks, Counted, FreeListed, PagesOwned;
    DescsLength(h);
    if h.arenas[ptr.page].Large? {
      FreeLargeInv(h, ptr);
    } else {
      FreedBlock(h, ptr);
      var d := h.arenas[ptr.page].desc;
      var free := [ptr] + h.descs[d].free;
      if h.arenas[ptr.page].count + 1 == Total(d) && h.descs[d].pages > BUF_COUNT {
        FreePageInv(h, ptr, d, free);
      } else {
        FreeBlockInv(h, ptr, d, free);
      }
    }
  }

  // ---------- Regions of memory ----------

  function Address(p: Ptr): nat {
    p.page * PAGE_SIZE + p.offset
  }

  /** Masking the low bits of an address gives the start of the header it belongs to. */
  lemma MaskFindsHeader(h: Heap, ptr: Ptr)
    requires LiveOk(h) && ptr in h.live
    ensures Address(ptr) - Address(ptr) % PAGE_SIZE == ptr.page * PAGE_SIZE && ptr.page in h.arenas
  {
    hide Off, Total;
    if h.arenas[ptr.page].Small? {
      var d := h.arenas[ptr.page].desc;
      var i: nat :| i < Total(d) && ptr.offset == Off(d, i);
      OffEnds(d, i);
    }
  }

  /** The room behind a live address stays inside its run of pages. */
  lemma RoomInside(h: Heap, ptr: Ptr)
    requires PagesOwned(h) && LiveOk(h) && ptr in h.live
    ensures var a := h.arenas[ptr.page];
      ptr.page * PAGE_SIZE + HEADER <= Address(ptr) && Address(ptr) + Room(a) <= (ptr.page + Span(a)) * PAGE_SIZE
  {
    hide Off, Total;
    if h.arenas[ptr.page].Small? {
      var d := h.arenas[ptr.page].desc;
      var i: nat :| i < Total(d) && ptr.offset == Off(d, i);
      OffEnds(d, i);
    }
  }

  /** The regions behind two live addresses do not overlap. */
  lemma LiveDisjoint(h: Heap, a: Ptr, b: Ptr)
    requires Inv(h) && a in h.live && b in h.live && a != b
    ensures Address(a) + Room(h.arenas[a.page]) <= Address(b) || Address(b) + Room(h.arenas[b.page]) <= Address(a)
  {
    hide Off, Total, FreeListed, Counted;
    RoomInside(h, a);
    RoomInside(h, b);
    if a.page < b.page {
      assert (a.page + Span(h.arenas[a.page])) * PAGE_SIZE <= b.page * PAGE_SIZE;
    } else if b.page < a.page {
      assert (b.page + Span(h.arenas[b.page])) * PAGE_SIZE <= a.page * PAGE_SIZE;
    } else {
      var d := h.arenas[a.page].desc;
      var i: nat :| i < Total(d) && a.offset == Off(d, i);
      var j: nat :| j < Total(d) && b.offset == Off(d, j);
      if i < j {
        OffLess(d, i, j);
      } else {
        OffLess(d, j, i);
      }
    }
  }

  // ---------- Runs ----------

  /** `Take` and `Return` are the other users of kernel pages. */
  datatype Op = DoMalloc(size: Word32) | DoFree(ptr: Ptr) | Take(n: nat) | Return(page: nat, n: nat)

  /** Callers free only what is live, and others return no page of the heap. */
  predicate Enabled(h: Heap, op: Op) {
    match op
    case DoMalloc(_) => true
    case DoFree(ptr) => ptr in h.live
    case Take(_) => true
    case Return(page, n) => forall q | q in h.arenas :: page + n <= q || q + Span(h.arenas[q]) <= page
  }

  function Step(h: Heap, op: Op): Outcome<Heap>
    requires |h.descs| == DESC_COUNT
  {
    match op
    case DoMalloc(size) => var r :- Malloc(h, size); Done(r.h)
    case DoFree(ptr) => Free(h, ptr)
    case Take(n) => var g :- AllocPages(h, n); Done(g.h)
    case Return(page, n) => FreePages(h, page, n)
  }

  lemma StepInv(h: Heap, op: Op)
    requires Inv(h) && |h.descs| == DESC_COUNT && Enabled(h, op) && Step(h, op).Done?
    ensures Inv(Step(h, op).value) && |Step(h, op).value.descs| == DESC_COUNT
  {
    hide Malloc, Free, FreeListed, LiveOk;
    match op {
      case DoMalloc(size) => MallocInv(h, size);
      case DoFree(ptr) => FreeInv(h, ptr);
      case Take(n) => OthersInv(h, op);
      case Return(_, _) => OthersInv(h, op);
    }
  }

  lemma OthersInv(h: Heap, op: Op)
    requires Inv(h) && Enabled(h, op) && (op.Take? || op.Return?)
    requires |h.descs| == DESC_COUNT && Step(h, op).Done?
    ensures Inv(Step(h, op).value)
  {
    hide FirstRun, SetRun, Malloc, Free, FreeListed, LiveOk, Counted;
    var g := Step(h, op).value;
    forall q | q in h.arenas ensures TakenRun(g.taken, q - h.base, Span(h.arenas[q])) {
      assert TakenRun(h.taken, q - h.base, Span(h.arenas[q]));
    }
    assert g == h.(taken := g.taken);
    TakenAside(h, g.taken);
  }

  lemma TakenAside(h: Heap, taken: seq<bool>)
    requires FreeListed(h) && LiveOk(h) && Counted(h)
    ensures var g := h.(taken := taken); FreeListed(g) && LiveOk(g) && Counted(g)
  {
    hide Slot, FreeIn, PagesOf, NoDup;
    assert forall e: nat, c: Ptr :: SmallOf(h.(taken := taken), e, c) <==> SmallOf(h, e, c);
  }

  ghost predicate Runs(h: Heap, ops: seq<Op>)
    decreases |ops|
  {
    ops == [] || (|h.descs| == DESC_COUNT && Enabled(h, ops[0]) && Step(h, ops[0]).Done? && Runs(Step(h, ops[0]).value, ops[1..]))
  }

  ghost function Run(h: Heap, ops: seq<Op>): Heap
    requires Runs(h, ops)
    decreases |ops|
  {
    if ops == [] then h else Run(Step(h, ops[0]).value, ops[1..])
  }

  /** Over any run no two live regions overlap. */
  lemma {:induction false} RunDisjoint(h: Heap, ops: seq<Op>)
    requires Inv(h) && Runs(h, ops)
    ensures var g := Run(h, ops);
      && Inv(g)
      && forall a, b | a in g.live && b in g.live && a != b ::
           a.page in g.arenas && b.page in g.arenas
           && (Address(a) + Room(g.arenas[a.page]) <= Address(b) || Address(b) + Room(g.arenas[b.page]) <= Address(a))
    decreases |ops|
  {
    hide Step, Enabled, Address, Room, PagesOwned, FreeListed, Counted, Slot;
    if ops == [] {
      forall a, b | a in h.live && b in h.live && a != b
        ensures a.page in h.arenas && b.page in h.arenas
          && (Address(a) + Room(h.arenas[a.page]) <= Address(b) || Address(b) + Room(h.arenas[b.page]) <= Address(a))
      {
        LiveDisjoint(h, a, b);
      }
    } else {
      StepInv(h, ops[0]);
      RunDisjoint(Step(h, ops[0]).value, ops[1..]);
    }
  }

  /** After `arena_init`. */
  function Boot(base: nat, taken: seq<bool>): (h: Heap)
    ensures Inv(h)
  {
    var h := Heap(base, taken, map[], seq(DESC_COUNT, _ => Desc([], 0)), map[]);
    assert forall d | 0 <= d < DESC_COUNT :: PagesOf(h.arenas, d) == {};
    h
  }

  /** On any heap with a free page, and so after boot, a request that wraps around gets one page. */
  lemma HugeGetsOnePage(h: Heap, size: Word32)
    requires Inv(h) && size > 0x1_0000_0000 - HEADER && FirstRun(h.taken, 1).Some?
    ensures |h.descs| == DESC_COUNT && Malloc(h, size).Done?
    ensures var r := Malloc(h, size).value;
      r.ptr.page in r.h.arenas && Room(r.h.arenas[r.ptr.page]) == PAGE_SIZE - HEADER < size
  {
    DescsLength(h);
    hide Inv, FirstRun, SetRun;
    assert PagesFor(size) == 1;
  }

  lemma HugeAfterBoot(base: nat)
    ensures var h := Boot(base, [false]);
      Malloc(h, 0xFFFF_FFFF).Done? && var r := Malloc(h, 0xFFFF_FFFF).value;
      r.ptr.page in r.h.arenas && Room(r.h.arenas[r.ptr.page]) == PAGE_SIZE - HEADER
  {
    hide Inv;
    assert ClearRun([false], 0, 1);
    HugeGetsOnePage(Boot(base, [false]), 0xFFFF_FFFF);
  }
}
