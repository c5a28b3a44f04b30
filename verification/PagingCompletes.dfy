/** When the memory calls complete (src/kernel/memory.c): exactly when there are as many free frames
    as pages and page tables are missing, and for no other reason than the call's own checks. */
module PagingCompletes {
  import opened Outcomes
  import opened Bitmaps
  import opened Collections
  import opened Unsigned
  import opened PageTables
  import opened FrameCounts
  import opened PagingSteps
  import opened ForkExit
  import opened AddressSpaces
  import opened EagerCopy
  import opened PagingRefinement

  // ---------- The walk of one address space ----------

  /** The walk from directory `pd` stays in memory, and no frame it goes through can be handed out. */
  predicate Walks(m: Mem, pd: FrameNo)
    requires m.Sized()
  {
    && pd < |m.phys| && m.counts[pd] != 0
    && forall d: Idx | HasTable(m, pd, d) ::
         var t := m.Frame(pd)[d].index; t < |m.phys| && t != pd && m.counts[t] != 0
  }

  lemma CoreWalks(m: Mem, dirs: Dirs, p: nat)
    requires Core(m, dirs) && m.Sized() && p in dirs
    ensures Walks(m, dirs[p])
  {
    hide Pages, Tables;
    DirectoriesApart(m, dirs);
    forall d: Idx | HasTable(m, dirs[p], d)
      ensures InUserFrames(m.Frame(dirs[p])[d].index, |m.phys|) && m.counts[m.Frame(dirs[p])[d].index] != 0
    {
      TableFrame(m, dirs, DirKey(p, d));
      TableIsCounted(m, dirs, DirKey(p, d));
    }
  }

  lemma TableIsCounted(m: Mem, dirs: Dirs, k: DirKey)
    requires Core(m, dirs) && k in Tables(m, dirs)
    ensures Tables(m, dirs)[k] < |m.counts| && m.counts[Tables(m, dirs)[k]] > 0
  {
    hide Tables, Pages;
    assert k in TableRefs(Tables(m, dirs), Tables(m, dirs)[k]);
  }

  lemma TableWalks(m: Mem, pd: FrameNo, v: Vpn)
    requires m.Sized() && Walks(m, pd) && UserSlot(v / 1024) && GetTable(m, pd, v).Done?
    ensures var n := GetTable(m, pd, v).value; Walks(n, pd) && HasTable(n, pd, v / 1024)
  {
  }

  lemma EntryWalks(m: Mem, pd: FrameNo, v: Vpn, w: Word)
    requires m.Sized() && Walks(m, pd) && HasTable(m, pd, v / 1024)
    ensures Walks(m.SetEntry(pd, v, w), pd) && HasTable(m.SetEntry(pd, v, w), pd, v / 1024)
  {
  }

  lemma LinkWalks(m: Mem, pd: FrameNo, v: Vpn)
    requires m.Sized() && Walks(m, pd) && UserSlot(v / 1024) && LinkPage(m, pd, v).Done?
    ensures var n := LinkPage(m, pd, v).value; Walks(n, pd) && HasTable(n, pd, v / 1024)
  {
    hide GetTable, Walks;
    TableWalks(m, pd, v);
    var m1 := GetTable(m, pd, v).value;
    if !m1.Entry(pd, v).present {
      var g := GetPage(m1).value;
      GetPageWalks(m1, pd, v);
      EntryWalks(g.m, pd, v, EntryInit(g.f));
    }
  }

  lemma InWalk(m: Mem, pd: FrameNo, v: Vpn)
    requires m.Sized() && Walks(m, pd) && HasTable(m, pd, v / 1024)
    ensures pd < |m.phys| && m.phys[pd][v / 1024].index < |m.phys|
  {
  }

  lemma GetPageWalks(m: Mem, pd: FrameNo, v: Vpn)
    requires m.Sized() && Walks(m, pd) && HasTable(m, pd, v / 1024) && GetPage(m).Done?
    ensures var n := GetPage(m).value.m; Walks(n, pd) && HasTable(n, pd, v / 1024)
  {
  }

  lemma LinkHalts(m: Mem, pd: FrameNo, v: Vpn)
    requires m.Sized() && LinkPage(m, pd, v).Halt?
    ensures LinkPage(m, pd, v).why == OutOfMemory
  {
  }

  /** Mapping pages stops only for want of a frame. */
  lemma {:induction false} MapRangeHalts(m: Mem, pd: FrameNo, v: nat, n: nat, mode: Mode)
    requires m.Sized() && v + n <= STACK_TOP && MapRange(m, pd, v, n, mode).Halt?
    ensures MapRange(m, pd, v, n, mode).why == OutOfMemory
    decreases n
  {
    hide LinkPage;
    if n == 0 {
    } else if LinkPage(m, pd, v).Halt? {
      LinkHalts(m, pd, v);
    } else {
      hide MapPage;
      MapRangeHalts(MapPage(m, pd, v, mode).value, pd, v + 1, n - 1, mode);
    }
  }

  // ---------- What linking a page takes ----------

  /** The walk, with all tables different and the frames that are never handed out counted. */
  ghost predicate Walkable(m: Mem, pd: FrameNo)
    ensures Walkable(m, pd) ==> m.Sized() && Walks(m, pd)
  {
    && m.Sized() && Walks(m, pd)
    && (forall d: Idx, e: Idx | HasTable(m, pd, d) && HasTable(m, pd, e) && d != e :: m.Frame(pd)[d].index != m.Frame(pd)[e].index)
    && forall f | 0 <= f < m.start :: m.counts[f] != 0
  }

  lemma CoreWalkable(m: Mem, dirs: Dirs, p: nat)
    requires Core(m, dirs) && p in dirs
    ensures Walkable(m, dirs[p])
  {
    hide Pages, Tables, Walks;
    CoreWalks(m, dirs, p);
    KernelCounts(m, m, dirs);
    forall d: Idx, e: Idx | HasTable(m, dirs[p], d) && HasTable(m, dirs[p], e) && d != e
      ensures m.Frame(dirs[p])[d].index != m.Frame(dirs[p])[e].index
    {
      TableFrame(m, dirs, DirKey(p, d));
      TableFrame(m, dirs, DirKey(p, e));
      assert DirKey(p, d) != DirKey(p, e);
    }
  }

  /** How many frames are missing for page `v`: one for itself and one for its table. */
  function Missing(m: Mem, pd: FrameNo, v: Vpn): nat {
    if HasPage(m, pd, v) then 0 else if HasTable(m, pd, v / 1024) then 1 else 2
  }

  /** The same pages and tables as before, and `v` with its table. */
  ghost predicate Linked(m: Mem, n: Mem, pd: FrameNo, v: Vpn) {
    && HasPage(n, pd, v)
    && (forall u: Vpn | u != v :: HasPage(n, pd, u) <==> HasPage(m, pd, u))
    && (forall d: Idx | d != v / 1024 :: HasTable(n, pd, d) <==> HasTable(m, pd, d))
  }

  lemma FrameTaken(m: Mem)
    requires m.Sized() && forall f | 0 <= f < m.start :: m.counts[f] != 0
    ensures GetPage(m).Halt? <==> Zeros(m.counts) == {}
    ensures GetPage(m).Done? ==> var g := GetPage(m).value;
      && g.f < |m.counts| && m.counts[g.f] == 0 && g.m.Sized() && g.m.start == m.start && g.m.phys == m.phys
      && g.m.counts == m.counts[g.f := 1] && |Zeros(g.m.counts)| == |Zeros(m.counts)| - 1
      && forall f | 0 <= f < m.start :: g.m.counts[f] != 0
  {
    var f := FirstFree(m.counts, m.start);
    if f < |m.counts| {
      assert f in Zeros(m.counts);
      assert Zeros(m.counts[f := 1]) == Zeros(m.counts) - {f};
    } else {
      assert Zeros(m.counts) == {};
    }
  }

  lemma TableTaken(m: Mem, pd: FrameNo, v: Vpn)
    requires Walkable(m, pd) && UserSlot(v / 1024)
    ensures var r := GetTable(m, pd, v);
      && (r.Halt? <==> !HasTable(m, pd, v / 1024) && Zeros(m.counts) == {})
      && (r.Done? ==>
            && Walkable(r.value, pd) && HasTable(r.value, pd, v / 1024)
            && (forall d: Idx | d != v / 1024 :: HasTable(r.value, pd, d) <==> HasTable(m, pd, d))
            && (forall u: Vpn :: HasPage(r.value, pd, u) <==> HasPage(m, pd, u))
            && |Zeros(r.value.counts)| == |Zeros(m.counts)| - if HasTable(m, pd, v / 1024) then 0 else 1)
  {
    hide Zeros;
    if !HasTable(m, pd, v / 1024) {
      FrameTaken(m);
      if GetPage(m).Done? {
        NewTable(m, pd, v / 1024, GetPage(m).value);
      }
    }
  }

  /** A new empty table in directory slot `d`. */
  lemma NewTable(m: Mem, pd: FrameNo, d: Idx, g: Grant)
    requires Walkable(m, pd) && UserSlot(d) && !HasTable(m, pd, d)
    requires g.f < |m.counts| && m.counts[g.f] == 0 && g.m == m.(counts := m.counts[g.f := 1], free := g.m.free)
    ensures var n := g.m.SetFrame(pd, m.Frame(pd)[d := EntryInit(g.f)]).SetFrame(g.f, ZeroPage());
      && Walkable(n, pd) && HasTable(n, pd, d)
      && (forall e: Idx | e != d :: HasTable(n, pd, e) <==> HasTable(m, pd, e))
      && (forall u: Vpn :: HasPage(n, pd, u) <==> HasPage(m, pd, u))
  {
    var n := g.m.SetFrame(pd, m.Frame(pd)[d := EntryInit(g.f)]).SetFrame(g.f, ZeroPage());
    assert n.Frame(pd) == m.Frame(pd)[d := EntryInit(g.f)];
    forall u: Vpn ensures HasPage(n, pd, u) <==> HasPage(m, pd, u) {
      if u / 1024 != d && HasTable(m, pd, u / 1024) {
        assert n.Entry(pd, u) == m.Entry(pd, u);
      }
    }
  }

  lemma EntrySet(m: Mem, pd: FrameNo, v: Vpn, w: Word)
    requires Walkable(m, pd) && HasTable(m, pd, v / 1024)
    ensures var n := m.SetEntry(pd, v, w);
      && Walkable(n, pd) && n.Entry(pd, v) == w && n.Frame(pd) == m.Frame(pd)
      && forall u: Vpn | u != v && HasTable(m, pd, u / 1024) :: n.Entry(pd, u) == m.Entry(pd, u)
  {
    var n := m.SetEntry(pd, v, w);
    assert n.Frame(pd) == m.Frame(pd);
    forall u: Vpn | u != v && HasTable(m, pd, u / 1024) ensures n.Entry(pd, u) == m.Entry(pd, u) {
      assert u / 1024 == v / 1024 ==> u % 1024 != v % 1024;
    }
  }

  /** Linking a page completes exactly when there are the frames, and takes just those. */
  lemma LinkExact(m: Mem, pd: FrameNo, v: Vpn)
    requires Walkable(m, pd) && UserSlot(v / 1024)
    ensures var r := LinkPage(m, pd, v);
      && (r.Done? <==> Missing(m, pd, v) <= |Zeros(m.counts)|)
      && (r.Halt? ==> r.why == OutOfMemory)
      && (r.Done? ==>
            && Walkable(r.value, pd) && Linked(m, r.value, pd, v) && HasTable(r.value, pd, v / 1024)
            && |Zeros(r.value.counts)| == |Zeros(m.counts)| - Missing(m, pd, v))
  {
    hide Zeros, Walkable, GetTable;
    LinkSteps(m, pd, v);
    TableTaken(m, pd, v);
    NoneIsEmpty(m.counts);
    if GetTable(m, pd, v).Done? {
      var m1 := GetTable(m, pd, v).value;
      NoneIsEmpty(m1.counts);
      if !HasPage(m1, pd, v) {
        PageTaken(m1, pd, v);
      }
    }
  }

  lemma NoneIsEmpty(counts: seq<Byte>)
    ensures |Zeros(counts)| == 0 <==> Zeros(counts) == {}
  {
  }

  lemma LinkSteps(m: Mem, pd: FrameNo, v: Vpn)
    requires m.Sized() && UserSlot(v / 1024)
    ensures var t := GetTable(m, pd, v);
      && (t.Halt? ==> LinkPage(m, pd, v) == Halt(OutOfMemory))
      && (t.Done? && HasTable(t.value, pd, v / 1024) ==>
            LinkPage(m, pd, v) ==
              if HasPage(t.value, pd, v) then t
              else match GetPage(t.value)
                   case Halt(why) => Halt(OutOfMemory)
                   case Done(g) => Done(g.m.SetEntry(pd, v, EntryInit(g.f))))
  {
  }

  /** A page for an empty entry of a table that is there. */
  lemma PageTaken(m: Mem, pd: FrameNo, v: Vpn)
    requires Walkable(m, pd) && HasTable(m, pd, v / 1024) && !HasPage(m, pd, v)
    ensures GetPage(m).Halt? <==> Zeros(m.counts) == {}
    ensures GetPage(m).Done? ==>
      var g := GetPage(m).value;
      var n := g.m.SetEntry(pd, v, EntryInit(g.f));
      && Walkable(n, pd) && Linked(m, n, pd, v) && HasTable(n, pd, v / 1024) && |Zeros(n.counts)| == |Zeros(m.counts)| - 1
  {
    hide Zeros;
    FrameTaken(m);
    if GetPage(m).Done? {
      var g := GetPage(m).value;
      CountWalkable(m, g.m, pd);
      EntrySet(g.m, pd, v, EntryInit(g.f));
    }
  }

  lemma CountWalkable(m: Mem, n: Mem, pd: FrameNo)
    requires Walkable(m, pd) && n.Sized() && n.phys == m.phys && n.start == m.start
    requires forall f: nat | f < |m.counts| && m.counts[f] != 0 :: n.counts[f] != 0
    ensures Walkable(n, pd)
  {
    assert forall f: FrameNo :: n.Frame(f) == m.Frame(f);
    assert forall d: Idx :: HasTable(n, pd, d) <==> HasTable(m, pd, d);
  }

  // ---------- Ranges ----------

  /** A round of the loop of `sys_mmap`. */
  lemma MapExact(m: Mem, pd: FrameNo, v: Vpn, mode: Mode)
    requires Walkable(m, pd) && UserSlot(v / 1024)
    ensures var r := MapPage(m, pd, v, mode);
      && (r.Done? <==> Missing(m, pd, v) <= |Zeros(m.counts)|)
      && (r.Halt? ==> r.why == OutOfMemory)
      && (r.Done? ==>
            && Walkable(r.value, pd) && Linked(m, r.value, pd, v) && HasTable(r.value, pd, v / 1024)
            && |Zeros(r.value.counts)| == |Zeros(m.counts)| - Missing(m, pd, v))
  {
    hide Zeros, Walkable, LinkPage;
    LinkExact(m, pd, v);
    if LinkPage(m, pd, v).Done? {
      var m1 := LinkPage(m, pd, v).value;
      EntrySet(m1, pd, v, WithMode(m1.Entry(pd, v), mode));
    }
  }

  /** The pages of a range that are absent, and the directory slots of the range without a table. */
  ghost function MissingPages(m: Mem, pd: FrameNo, v: nat, n: nat): set<Vpn> {
    set u: Vpn | v <= u < v + n && !HasPage(m, pd, u)
  }

  ghost function MissingTables(m: Mem, pd: FrameNo, v: nat, n: nat): set<Idx> {
    set u: Vpn | v <= u < v + n && !HasTable(m, pd, u / 1024) :: u / 1024
  }

  lemma MissingFirst(m: Mem, pd: FrameNo, v: Vpn, n: nat)
    requires n > 0
    ensures Missing(m, pd, v) <= |MissingPages(m, pd, v, n)| + |MissingTables(m, pd, v, n)|
  {
    if !HasPage(m, pd, v) {
      assert v in MissingPages(m, pd, v, n);
      SubsetSize({v}, MissingPages(m, pd, v, n));
    }
    if !HasTable(m, pd, v / 1024) {
      assert v / 1024 in MissingTables(m, pd, v, n);
      SubsetSize({v / 1024}, MissingTables(m, pd, v, n));
    }
  }

  lemma MissingRest(m: Mem, n: Mem, pd: FrameNo, v: Vpn, k: nat)
    requires Linked(m, n, pd, v) && HasTable(n, pd, v / 1024) && k > 0
    ensures |MissingPages(m, pd, v, k)| + |MissingTables(m, pd, v, k)|
         == Missing(m, pd, v) + |MissingPages(n, pd, v + 1, k - 1)| + |MissingTables(n, pd, v + 1, k - 1)|
  {
    RestPages(m, n, pd, v, k);
    RestTables(m, n, pd, v, k);
    hide MissingPages, MissingTables, Linked, HasPage, HasTable;
    var a, b := MissingPages(m, pd, v, k), MissingPages(n, pd, v + 1, k - 1);
    assert a == if HasPage(m, pd, v) then b else b + {v};
    var c, d := MissingTables(m, pd, v, k), MissingTables(n, pd, v + 1, k - 1);
    assert c == if HasTable(m, pd, v / 1024) then d else d + {v / 1024};
  }

  lemma RestPages(m: Mem, n: Mem, pd: FrameNo, v: Vpn, k: nat)
    requires Linked(m, n, pd, v) && k > 0
    ensures v !in MissingPages(n, pd, v + 1, k - 1)
    ensures forall u: Vpn :: u in MissingPages(m, pd, v, k) <==>
      u in MissingPages(n, pd, v + 1, k - 1) || (u == v && !HasPage(m, pd, v))
  {
    hide HasPage;
  }

  lemma RestTables(m: Mem, n: Mem, pd: FrameNo, v: Vpn, k: nat)
    requires Linked(m, n, pd, v) && HasTable(n, pd, v / 1024) && k > 0
    ensures v / 1024 !in MissingTables(n, pd, v + 1, k - 1)
    ensures forall d: Idx :: d in MissingTables(m, pd, v, k) <==>
      d in MissingTables(n, pd, v + 1, k - 1) || (d == v / 1024 && !HasTable(m, pd, d))
  {
    hide HasTable;
    forall d: Idx | d in MissingTables(m, pd, v, k)
      ensures d in MissingTables(n, pd, v + 1, k - 1) || (d == v / 1024 && !HasTable(m, pd, d))
    {
      var u: Vpn :| v <= u < v + k && !HasTable(m, pd, u / 1024) && d == u / 1024;
    }
    forall d: Idx | d in MissingTables(n, pd, v + 1, k - 1) ensures d in MissingTables(m, pd, v, k) {
      var u: Vpn :| v + 1 <= u < v + 1 + (k - 1) && !HasTable(n, pd, u / 1024) && d == u / 1024;
    }
    assert v <= v < v + k;
  }

  /** Mapping a range completes exactly when there is a free frame for each absent page and each
      missing table of it. */
  lemma {:induction false} RangeExact(m: Mem, pd: FrameNo, v: nat, n: nat, mode: Mode)
    requires Walkable(m, pd) && USER_EXEC <= v && v + n <= STACK_TOP
    ensures var r := MapRange(m, pd, v, n, mode);
      && (r.Done? <==> |MissingPages(m, pd, v, n)| + |MissingTables(m, pd, v, n)| <= |Zeros(m.counts)|)
      && (r.Halt? ==> r.why == OutOfMemory)
    decreases n
  {
    hide Zeros, Walkable, MapPage, Missing, HasTable, HasPage, Linked;
    if n == 0 {
      assert MissingPages(m, pd, v, 0) == {} && MissingTables(m, pd, v, 0) == {};
    } else {
      MapExact(m, pd, v, mode);
      MissingFirst(m, pd, v, n);
      var r := MapPage(m, pd, v, mode);
      if r.Done? {
        MissingRest(m, r.value, pd, v, n);
        RangeExact(r.value, pd, v + 1, n - 1, mode);
      }
    }
  }

  // ---------- Faults ----------

  /** Where `page_fault` may add a page: below the break, or on the stack. */
  predicate HeapOrStack(space: Space, v: Vpn) {
    v < space.brk || v >= STACK_BOTTOM
  }

  /** A page that is absent is there afterwards exactly when it lies below the break or on the stack
      and there are frames for it and for a missing table; the machine stops otherwise. */
  lemma AbsentServed(vm: VM, p: nat, v: Vpn, write: bool)
    requires Inv(vm) && p in vm.spaces && USER_EXEC <= v < STACK_TOP && !HasPage(vm.m, vm.spaces[p].pde, v)
    ensures var r, pd := DoFault(vm, p, v, write), vm.spaces[p].pde;
      && (r.Done? && p in r.value.spaces && HasPage(r.value.m, pd, v)
          <==> HeapOrStack(vm.spaces[p], v) && Missing(vm.m, pd, v) <= |Zeros(vm.m.counts)|)
      && (r.Done? ==> p in r.value.spaces && HasPage(r.value.m, pd, v))
      && (r.Halt? ==> r.why == if HeapOrStack(vm.spaces[p], v) then OutOfMemory else Rejected)
  {
    hide Core, Zeros, Walkable, LinkPage, BitsAgree, Missing;
    CoreWalkable(vm.m, DirsOf(vm.spaces), p);
    LinkExact(vm.m, vm.spaces[p].pde, v);
  }

  /** A write to a page that is there completes exactly when the page is neither shared nor
      read-only and is held once or a frame is free; a read never faults there. */
  lemma PresentServed(vm: VM, p: nat, v: Vpn, write: bool)
    requires Inv(vm) && p in vm.spaces && USER_EXEC <= v < STACK_TOP && HasPage(vm.m, vm.spaces[p].pde, v)
    ensures var r, w := DoFault(vm, p, v, write), vm.m.Entry(vm.spaces[p].pde, v);
      && w.index < |vm.m.counts|
      && (r.Done? <==> write && !w.shared && !w.readonly && (vm.m.counts[w.index] == 1 || |Zeros(vm.m.counts)| > 0))
      && (r.Halt? ==> r.why == if write && !w.shared && !w.readonly then OutOfMemory else Rejected)
  {
    hide Core, Zeros, Pages, WriteFault, BitsAgree;
    var dirs, w := DirsOf(vm.spaces), vm.m.Entry(vm.spaces[p].pde, v);
    PageThere(vm.m, dirs, PageKey(p, v));
    HeldIsCounted(vm.m, dirs, PageKey(p, v));
    NoneIsEmpty(vm.m.counts);
    if w.shared || w.readonly {
      WriteFaultRejected(vm.m, dirs[p], v);
    } else {
      WriteFaultCore(vm.m, dirs, p, v);
    }
  }

  // ---------- sys_brk, sys_mmap, sys_munmap ----------

  /** The break is where it was asked for exactly when that is in the heap and growth does not exceed
      the free frames by more than the kernel frames that `free_pages` counts. */
  lemma BrkServed(vm: VM, p: nat, brk: nat)
    requires Inv(vm) && p in vm.spaces
    ensures var r, space := DoBrk(vm, p, brk), vm.spaces[p];
      && (r.Done? <==> space.end <= brk <= USER_MMAP)
      && (r.Done? ==>
            && p in r.value.spaces
            && (r.value.spaces[p].brk == brk <==>
                  brk <= space.brk || brk - space.brk <= |Zeros(vm.m.counts)| + KERNEL_FRAMES - vm.m.start)
            && (r.value.spaces[p].brk == brk || r.value == vm))
  {
    hide Core, Pages, UnlinkRange, BitsAgree, Zeros;
    var space := vm.spaces[p];
    FreeCounts(vm.m, DirsOf(vm.spaces));
    if space.end <= brk <= USER_MMAP && space.brk > brk {
      UnlinkRangeCore(vm.m, DirsOf(vm.spaces), p, brk, space.brk - brk);
    }
  }

  lemma FreeCounts(m: Mem, dirs: Dirs)
    requires Core(m, dirs)
    ensures m.free == |Zeros(m.counts)| + KERNEL_FRAMES - m.start
  {
    hide Pages, Tables, Zeros;
  }

  /** The call is for a place that the bitmap covers. */
  predicate InZone(v: nat, n: nat) {
    USER_MMAP <= v < STACK_BOTTOM && v + n <= STACK_TOP
  }

  /** Where a mapping of `n` pages goes: to the address asked for, or for none to the lowest run of
      clear bits. */
  predicate PlaceFor(space: Space, addr: Vpn, n: nat, v: nat) {
    if addr != 0 then v == addr
    else
      && n > 0 && v >= USER_MMAP && ClearRun(space.vmap, v - USER_MMAP, n)
      && forall s: nat | s < v - USER_MMAP :: !ClearRun(space.vmap, s, n)
  }

  /** A mapping is made exactly when there is a place for it in the zone, and a free frame for each
      absent page and each missing table of it. */
  lemma MmapServed(vm: VM, p: nat, addr: Vpn, n: nat, mode: Mode)
    requires Inv(vm) && p in vm.spaces
    ensures var r, space := DoMmap(vm, p, addr, n, mode), vm.spaces[p];
      r.Done? <==>
        exists v: nat ::
          && PlaceFor(space, addr, n, v) && InZone(v, n)
          && |MissingPages(vm.m, space.pde, v, n)| + |MissingTables(vm.m, space.pde, v, n)| <= |Zeros(vm.m.counts)|
  {
    hide Core, Zeros, Walkable, MapRange, BitsAgree, PlaceFor, MissingPages, MissingTables, InZone;
    var space := vm.spaces[p];
    CoreWalkable(vm.m, DirsOf(vm.spaces), p);
    MmapPlaced(vm, p, addr, n, mode);
    if v: nat :| PlaceFor(space, addr, n, v) && InZone(v, n) {
      MmapPlaces(space, addr, n, v);
      ZoneIs(v, n);
      RangeExact(vm.m, space.pde, v, n, mode);
      forall w: nat | PlaceFor(space, addr, n, w) ensures w == v {
        MmapPlaces(space, addr, n, w);
      }
    }
  }

  lemma MmapPlaces(space: Space, addr: Vpn, n: nat, v: nat)
    requires PlaceFor(space, addr, n, v)
    ensures MmapAt(space, addr, n) == Done(v)
  {
    hide ClearRun;
  }

  lemma ZoneIs(v: nat, n: nat)
    requires InZone(v, n)
    ensures USER_EXEC <= v && v + n <= STACK_TOP
  {
  }

  lemma MmapPlaced(vm: VM, p: nat, addr: Vpn, n: nat, mode: Mode)
    requires WellSized(vm) && p in vm.spaces
    ensures var r, space := DoMmap(vm, p, addr, n, mode), vm.spaces[p];
      && (r.Done? ==> exists v: nat :: PlaceFor(space, addr, n, v) && InZone(v, n))
      && forall v: nat | MmapAt(space, addr, n) == Done(v) && InZone(v, n) :: r.Done? <==> MapRange(vm.m, space.pde, v, n, mode).Done?
  {
    hide ClearRun, MapRange;
    var at := MmapAt(vm.spaces[p], addr, n);
    if at.Done? {
      assert PlaceFor(vm.spaces[p], addr, n, at.value);
    }
  }

  /** The bit of page `u` in the mapping zone. */
  predicate BitOf(space: Space, u: nat) {
    USER_MMAP <= u < USER_MMAP + |space.vmap| && space.vmap[u - USER_MMAP]
  }

  /** A range is unmapped exactly when it lies in the zone and all its bits are set. */
  lemma MunmapServed(vm: VM, p: nat, addr: Vpn, n: nat)
    requires Inv(vm) && p in vm.spaces
    ensures DoMunmap(vm, p, addr, n).Done? <==> InZone(addr, n) && forall u | addr <= u < addr + n :: BitOf(vm.spaces[p], u)
  {
    hide Core, Pages, UnlinkRange, BitsAgree, BitOf, TakenRun;
    if InZone(addr, n) {
      BitsOfRange(vm.spaces[p], addr, n);
      UnlinkRangeCore(vm.m, DirsOf(vm.spaces), p, addr, n);
    }
  }

  lemma BitsOfRange(space: Space, addr: nat, n: nat)
    requires |space.vmap| == VMAP_BITS && InZone(addr, n)
    ensures TakenRun(space.vmap, addr - USER_MMAP, n) <==> forall u | addr <= u < addr + n :: BitOf(space, u)
  {
    var a := addr - USER_MMAP;
    assert forall i | a <= i < a + n :: BitOf(space, i + USER_MMAP) <==> space.vmap[i];
    assert forall u | addr <= u < addr + n :: BitOf(space, u) <==> space.vmap[u - USER_MMAP];
  }

  // ---------- Every step ----------

  /** What a step asks for, said on entries, bits and free frames. */
  ghost predicate Asks(vm: VM, step: Step)
    requires WellSized(vm) && Enabled(vm, step)
  {
    var free := |Zeros(vm.m.counts)|;
    match step
    case Spawn(_, _) => true
    case Fork(p, _, _) => |set d: Idx | HasTable(vm.m, vm.spaces[p].pde, d)| <= free
    case Exit(_) => true
    case Brk(p, brk) => vm.spaces[p].end <= brk <= USER_MMAP
    case Mmap(p, addr, n, _) =>
      exists v: nat ::
        && PlaceFor(vm.spaces[p], addr, n, v) && InZone(v, n)
        && |MissingPages(vm.m, vm.spaces[p].pde, v, n)| + |MissingTables(vm.m, vm.spaces[p].pde, v, n)| <= free
    case Munmap(p, addr, n) => InZone(addr, n) && forall u | addr <= u < addr + n :: BitOf(vm.spaces[p], u)
    case Fault(p, v, write) =>
      var space, w := vm.spaces[p], vm.m.Entry(vm.spaces[p].pde, v);
      if v < USER_EXEC || v >= STACK_TOP then true
      else if HasPage(vm.m, space.pde, v) then
        write && !w.shared && !w.readonly && w.index < |vm.m.counts| && (vm.m.counts[w.index] == 1 || free > 0)
      else HeapOrStack(space, v) && Missing(vm.m, space.pde, v) <= free
    case Store(_, _, _, _) => true
  }

  lemma {:induction false} TablesCounted(m: Mem, pd: FrameNo, d: nat)
    requires KERNEL_SLOTS <= d <= SELF_SLOT
    ensures TablesFrom(m.Frame(pd), d) == |set e: Idx | d <= e && HasTable(m, pd, e)|
    decreases SELF_SLOT - d
  {
    if d == SELF_SLOT {
      assert (set e: Idx | d <= e && HasTable(m, pd, e)) == {};
    } else {
      TablesCounted(m, pd, d + 1);
      var rest := set e: Idx | d + 1 <= e && HasTable(m, pd, e);
      assert (set e: Idx | d <= e && HasTable(m, pd, e)) == if HasTable(m, pd, d) then rest + {d} else rest;
    }
  }

  /** From any state that a run leads to, a step completes exactly when what it asks for is there. */
  lemma StepServed(vm: VM, step: Step)
    requires Inv(vm) && Enabled(vm, step)
    ensures WellSized(vm) && (Exec(vm, step).Done? <==> Asks(vm, step))
  {
    hide Core, BitsAgree, Zeros, PlaceFor, InZone, MissingPages, MissingTables, Missing, HasPage, HasTable, HeapOrStack, BitOf, DoSpawn, DoFork, DoExit, DoBrk, DoMmap, DoMunmap, DoFault;
    InvSized(vm);
    match step {
      case Spawn(p, cd) => SpawnServed(vm, p, cd);
      case Fork(p, c, cd) => ForkServed(vm, p, c, cd);
      case Exit(p) => ExitStep(vm, p);
      case Brk(p, brk) => BrkServed(vm, p, brk);
      case Mmap(p, addr, n, mode) => MmapServed(vm, p, addr, n, mode);
      case Munmap(p, addr, n) => MunmapServed(vm, p, addr, n);
      case Fault(p, v, write) =>
        if v < USER_EXEC || v >= STACK_TOP {
          OutsideServed(vm, p, v, write);
        } else if HasPage(vm.m, vm.spaces[p].pde, v) {
          PresentServed(vm, p, v, write);
        } else {
          AbsentServed(vm, p, v, write);
        }
      case Store(_, _, _, _) =>
    }
  }

  lemma SpawnServed(vm: VM, p: nat, cd: FrameNo)
    requires Inv(vm) && Enabled(vm, Spawn(p, cd))
    ensures DoSpawn(vm, p, cd).Done?
  {
    hide Core, Pages, CopyDirectory, NewSpace;
    BootDirectory(vm.m, DirsOf(vm.spaces));
    EmptyDirectory(vm.m, KERNEL_DIRECTORY, cd, vm.m.SetFrame(cd, vm.m.Frame(KERNEL_DIRECTORY)[SELF_SLOT := EntryInit(cd)]));
  }

  lemma ForkServed(vm: VM, p: nat, c: nat, cd: FrameNo)
    requires Inv(vm) && Enabled(vm, Fork(p, c, cd))
    ensures DoFork(vm, p, c, cd).Done? <==> |set d: Idx | HasTable(vm.m, vm.spaces[p].pde, d)| <= |Zeros(vm.m.counts)|
  {
    hide Inv, DoFork, TablesFrom, Zeros;
    ForkFails(vm, p, c, cd);
    TablesCounted(vm.m, vm.spaces[p].pde, KERNEL_SLOTS);
    assert (set d: Idx | HasTable(vm.m, vm.spaces[p].pde, d)) == set d: Idx | KERNEL_SLOTS <= d && HasTable(vm.m, vm.spaces[p].pde, d);
  }

  lemma OutsideServed(vm: VM, p: nat, v: Vpn, write: bool)
    requires Inv(vm) && p in vm.spaces && (v < USER_EXEC || v >= STACK_TOP)
    ensures DoFault(vm, p, v, write).Done? && p !in DoFault(vm, p, v, write).value.spaces
  {
    hide Inv;
    ExitStep(vm, p);
  }
}
