/** Copy-on-write paging keeps its invariant over every run and refines eager copying. */
module PagingRefinement {
  import opened Outcomes
  import opened Bitmaps
  import opened Unsigned
  import opened PageTables
  import opened FrameCounts
  import opened PagingSteps
  import opened ForkExit
  import opened AddressSpaces
  import opened EagerCopy

  // ---------- Abstraction ----------

  function CellOf(m: Mem, w: Word): Cell {
    Cell(m.Frame(w.index), w.readonly, if w.shared then Some(w.index) else None)
  }

  ghost function View(m: Mem, dirs: Dirs): World {
    map k | k in Pages(m, dirs) :: CellOf(m, Pages(m, dirs)[k])
  }

  ghost function DirsOf(spaces: map<nat, Space>): Dirs {
    map p | p in spaces :: spaces[p].pde
  }

  ghost function Abs(vm: VM): Eager {
    Eager(View(vm.m, DirsOf(vm.spaces)), map p | p in vm.spaces :: vm.spaces[p].(pde := 0))
  }

  // ---------- Views after each routine ----------

  lemma ViewUpdated(m: Mem, n: Mem, dirs: Dirs, k: PageKey, w: Word)
    requires Updated(m, n, dirs, k, w)
    requires k in Pages(m, dirs) ==> n.Frame(w.index) == m.Frame(Pages(m, dirs)[k].index)
    ensures View(n, dirs) == View(m, dirs)[k := CellOf(n, w)]
  {
    hide Pages, Core;
  }

  lemma {:induction false} UnlinkRangeCore(m: Mem, dirs: Dirs, p: nat, v: nat, n: nat)
    requires Core(m, dirs) && p in dirs && USER_EXEC <= v && v + n <= STACK_TOP && m.Sized()
    ensures var r := UnlinkRange(m, dirs[p], v, n);
      && r.Done?
      && Core(r.value, dirs)
      && View(r.value, dirs) == WithoutRange(View(m, dirs), p, v, n)
    decreases n
  {
    hide Core, Pages, UnlinkPage;
    if n == 0 {
      assert WithoutRange(View(m, dirs), p, v, n) == View(m, dirs);
    } else {
      UnlinkPageCore(m, dirs, p, v);
      var m1 := UnlinkPage(m, dirs[p], v).value;
      ViewUnlinked(m, m1, dirs, PageKey(p, v));
      UnlinkRangeCore(m1, dirs, p, v + 1, n - 1);
      RangeStep(View(m, dirs), p, v, n);
    }
  }

  lemma ViewUnlinked(m: Mem, m1: Mem, dirs: Dirs, k: PageKey)
    requires Pages(m1, dirs) == Pages(m, dirs) - {k} && SameData(m, m1, Pages(m, dirs))
    ensures View(m1, dirs) == View(m, dirs) - {k}
  {
    hide Pages;
  }

  lemma RangeStep(w: World, p: nat, v: Vpn, n: nat)
    requires n > 0
    ensures WithoutRange(w - {PageKey(p, v)}, p, v + 1, n - 1) == WithoutRange(w, p, v, n)
  {
    assert forall k: PageKey | k.p == p && k.v == v :: k == PageKey(p, v);
  }

  /** One page after a fork. */
  lemma ViewForkedAt(m: Mem, n: Mem, dirs: Dirs, dirs': Dirs, p: nat, c: nat, k: PageKey)
    requires Pages(n, dirs') == ForkedAll(Pages(m, dirs), p, c) && SameData(m, n, Pages(m, dirs))
    requires c !in dirs && p != c && (forall l | l in Pages(m, dirs) :: l.p in dirs && l.v < SELF_SLOT * 1024)
    ensures k in View(n, dirs') <==> k in Copied(View(m, dirs), p, c)
    ensures k in View(n, dirs') ==> View(n, dirs')[k] == Copied(View(m, dirs), p, c)[k]
  {
    hide Pages;
    var o := Origin(Pages(m, dirs), p, k);
    if o in Pages(m, dirs) {
      assert n.Frame(Pages(m, dirs)[o].index) == m.Frame(Pages(m, dirs)[o].index);
    }
  }

  /** Fork: the child's view is the parent's, and nobody else's changes. */
  lemma ViewForked(m: Mem, n: Mem, dirs: Dirs, dirs': Dirs, p: nat, c: nat)
    requires c !in dirs && p != c
    requires Pages(n, dirs') == ForkedAll(Pages(m, dirs), p, c) && SameData(m, n, Pages(m, dirs))
    ensures View(n, dirs') == Copied(View(m, dirs), p, c)
  {
    PagesKeys(m, dirs);
    LowPages(m, dirs);
    hide Pages, View, Copied, ForkedAll, SameData;
    forall k: PageKey
      ensures k in View(n, dirs') <==> k in Copied(View(m, dirs), p, c)
      ensures k in View(n, dirs') ==> View(n, dirs')[k] == Copied(View(m, dirs), p, c)[k]
    {
      ViewForkedAt(m, n, dirs, dirs', p, c, k);
    }
  }

  lemma ViewExited(m: Mem, n: Mem, dirs: Dirs, p: nat)
    requires n.phys == m.phys && p in dirs
    requires Pages(n, dirs - {p}) == Dropped(Pages(m, dirs), p, SELF_SLOT * 1024)
    ensures View(n, dirs - {p}) == WithoutTask(View(m, dirs), p)
  {
    LowPages(m, dirs);
    hide Pages;
    assert forall f: FrameNo :: n.Frame(f) == m.Frame(f);
  }

  /** A store through a writable entry. */
  lemma StoreCore(m: Mem, dirs: Dirs, p: nat, v: Vpn, offset: Idx, word: Word)
    requires Core(m, dirs) && p in dirs && HasPage(m, dirs[p], v) && m.Entry(dirs[p], v).write
    ensures var f := m.Entry(dirs[p], v).index;
      var n := m.SetFrame(f, m.Frame(f)[offset := word]);
      && Core(n, dirs) && n.Sized()
      && PageKey(p, v) in View(m, dirs)
      && !View(m, dirs)[PageKey(p, v)].readonly
      && View(n, dirs) == Stored(View(m, dirs), PageKey(p, v), offset, word)
  {
    hide Tables, Pages;
    var k, f := PageKey(p, v), m.Entry(dirs[p], v).index;
    var n := m.SetFrame(f, m.Frame(f)[offset := word]);
    PageThere(m, dirs, k);
    PageIndex(m, dirs, k);
    SetDataCore(m, dirs, f, m.Frame(f)[offset := word]);
    forall l | l in Pages(m, dirs)
      ensures CellOf(n, Pages(m, dirs)[l]) == Stored(View(m, dirs), k, offset, word)[l]
    {
      if Pages(m, dirs)[l].index == f && l != k {
        assert MayAlias(Pages(m, dirs)[k], Pages(m, dirs)[l]);
      }
    }
  }

  // ---------- sys_mmap ----------

  /** Other holders of the page just mapped were holders before, and share as it does. */
  lemma OtherSharers(m: Mem, n: Mem, dirs: Dirs, k: PageKey, mode: Mode, w: Word, l: PageKey)
    requires Core(m, dirs) && Updated(m, n, dirs, k, w) && MappedAs(m, dirs, k, mode, w)
    requires l in Pages(n, dirs) && l != k && Pages(n, dirs)[l].index == w.index
    ensures l in Pages(m, dirs) && k in Pages(m, dirs)
    ensures Pages(m, dirs)[k].shared == Pages(m, dirs)[l].shared == Pages(n, dirs)[l].shared == w.shared
  {
    hide Pages, Tables, FitsIn, KernelFrames, Counted;
    assert MayAlias(Pages(n, dirs)[k], Pages(n, dirs)[l]);
    assert MayAlias(Pages(m, dirs)[k], Pages(m, dirs)[l]);
  }

  lemma MappedOne(w: World, k: PageKey, cell: Cell, mode: Mode)
    requires MappedCell(w, w[k := cell], k, mode)
    ensures Mapped(w, w[k := cell], k.p, k.v, 1, mode)
  {
    assert forall l: PageKey | InRange(l, k.p, k.v, 1) :: l == k;
  }

  lemma ViewMapped(m: Mem, n: Mem, dirs: Dirs, k: PageKey, mode: Mode, w: Word)
    requires Core(m, dirs) && Updated(m, n, dirs, k, w) && MappedAs(m, dirs, k, mode, w)
    ensures Mapped(View(m, dirs), View(n, dirs), k.p, k.v, 1, mode)
  {
    hide Pages, Tables, Core;
    ViewUpdated(m, n, dirs, k, w);
    forall l | l in View(n, dirs) && l != k && View(n, dirs)[l].share == Some(w.index)
      ensures k in View(m, dirs) && View(m, dirs)[k].share == Some(w.index)
    {
      OtherSharers(m, n, dirs, k, mode, w, l);
    }
    MappedOne(View(m, dirs), k, CellOf(n, w), mode);
  }

  lemma MappedTwice(w: World, w1: World, w2: World, p: nat, v: nat, n: nat, mode: Mode)
    requires n > 0 && Mapped(w, w1, p, v, 1, mode) && Mapped(w1, w2, p, v + 1, n - 1, mode)
    ensures Mapped(w, w2, p, v, n, mode)
  {
    forall k | k in w2 && InRange(k, p, v, n) ensures MappedCell(w, w2, k, mode) {
      if k.v == v {
        assert MappedCell(w, w1, k, mode);
        assert w2[k] == w1[k];
        if mode.shared && !(k in w && w[k].share.Some?) {
          forall l | l in w2 && l != k ensures w2[l].share != w2[k].share {
            if InRange(l, p, v + 1, n - 1) {
              assert MappedCell(w1, w2, l, mode);
            }
          }
        }
      } else {
        assert MappedCell(w1, w2, k, mode);
        assert k in w1 <==> k in w;
        assert k in w1 ==> w1[k] == w[k];
      }
    }
  }

  /** No page of the range is one that copy-on-write shares privately and the call would
      make writable or shared. */
  ghost predicate RangeMappable(m: Mem, pd: FrameNo, v: nat, n: nat, mode: Mode)
    requires m.Sized()
  {
    forall u: Vpn | v <= u < v + n :: Mappable(m, pd, u, mode)
  }

  lemma StillMappable(m: Mem, m1: Mem, dirs: Dirs, p: nat, v: nat, n: nat, mode: Mode, w: Word)
    requires n > 0 && v + n <= STACK_TOP && p in dirs
    requires Core(m, dirs) && m.Sized() && RangeMappable(m, dirs[p], v, n, mode)
    requires Updated(m, m1, dirs, PageKey(p, v), w) && m1.Sized()
    requires MappedAs(m, dirs, PageKey(p, v), mode, w)
    ensures RangeMappable(m1, dirs[p], v + 1, n - 1, mode)
  {
    hide Core, Mappable, MappedAs, Updated;
    forall u: Vpn | v < u < v + n ensures Mappable(m1, dirs[p], u, mode) {
      StillMappableAt(m, m1, dirs, p, v, u, mode, w);
    }
  }

  lemma StillMappableAt(m: Mem, m1: Mem, dirs: Dirs, p: nat, v: Vpn, u: Vpn, mode: Mode, w: Word)
    requires p in dirs && u != v && Core(m, dirs) && m.Sized() && Mappable(m, dirs[p], u, mode)
    requires Updated(m, m1, dirs, PageKey(p, v), w) && m1.Sized()
    requires MappedAs(m, dirs, PageKey(p, v), mode, w)
    ensures Mappable(m1, dirs[p], u, mode)
  {
    hide Pages, Tables, Core;
    var k := PageKey(p, u);
    PageThere(m, dirs, k);
    PageThere(m1, dirs, k);
    if k in Pages(m, dirs) {
      PageIndex(m, dirs, k);
      SameCount(m, m1, dirs, PageKey(p, v), w, Pages(m, dirs)[k].index, k, mode);
    }
  }

  /** Mapping a page does not change how often other pages are held. */
  lemma SameCount(m: Mem, m1: Mem, dirs: Dirs, k: PageKey, w: Word, f: FrameNo, l: PageKey, mode: Mode)
    requires Core(m, dirs) && Updated(m, m1, dirs, k, w) && MappedAs(m, dirs, k, mode, w)
    requires l in Pages(m, dirs) && l != k && Pages(m, dirs)[l].index == f && InUserFrames(f, |m.counts|)
    ensures f < |m1.counts| && m1.counts[f] == m.counts[f]
  {
    hide Pages, Tables, KernelFrames, PagesSafe, TablesOwned;
    PageIndex(m1, dirs, l);
    assert PageRefs(Pages(m1, dirs), f) == PageRefs(Pages(m, dirs), f);
    NoTableHolds(m, dirs, l);
    NoTableHolds(m1, dirs, l);
  }

  lemma NoTableHolds(m: Mem, dirs: Dirs, l: PageKey)
    requires Core(m, dirs) && l in Pages(m, dirs)
    ensures TableRefs(Tables(m, dirs), Pages(m, dirs)[l].index) == {}
  {
    hide Pages, Tables;
  }

  lemma {:induction false} MapRangeCore(m: Mem, dirs: Dirs, p: nat, v: nat, n: nat, mode: Mode)
    requires Core(m, dirs) && m.Sized() && p in dirs && USER_EXEC <= v && v + n <= STACK_TOP
    requires RangeMappable(m, dirs[p], v, n, mode)
    ensures var r := MapRange(m, dirs[p], v, n, mode);
      && (r.Halt? ==> r.why == OutOfMemory)
      && (r.Done? ==> Core(r.value, dirs) && Mapped(View(m, dirs), View(r.value, dirs), p, v, n, mode))
    decreases n
  {
    hide Core, Pages, MapPage, Mapped, View, RangeMappable;
    if n == 0 {
      MappedNone(View(m, dirs), p, v, mode);
    } else {
      FirstMappable(m, dirs[p], v, n, mode);
      MapPageCore(m, dirs, p, v, mode);
      if MapPage(m, dirs[p], v, mode).Done? {
        var m1 := MapPage(m, dirs[p], v, mode).value;
        var w := m1.Entry(dirs[p], v);
        ViewMapped(m, m1, dirs, PageKey(p, v), mode, w);
        StillMappable(m, m1, dirs, p, v, n, mode, w);
        UpdatedCore(m, m1, dirs, PageKey(p, v), w);
        MapRangeCore(m1, dirs, p, v + 1, n - 1, mode);
        if MapRange(m1, dirs[p], v + 1, n - 1, mode).Done? {
          MappedTwice(View(m, dirs), View(m1, dirs), View(MapRange(m1, dirs[p], v + 1, n - 1, mode).value, dirs), p, v, n, mode);
        }
      }
    }
  }

  lemma MappedNone(w: World, p: nat, v: nat, mode: Mode)
    ensures Mapped(w, w, p, v, 0, mode)
  {
  }

  lemma FirstMappable(m: Mem, pd: FrameNo, v: nat, n: nat, mode: Mode)
    requires m.Sized() && RangeMappable(m, pd, v, n, mode) && n > 0 && v + n <= STACK_TOP
    ensures Mappable(m, pd, v, mode)
  {
  }

  // ---------- The invariant over whole runs ----------

  ghost predicate Inv(vm: VM) {
    WellSized(vm) && Core(vm.m, DirsOf(vm.spaces)) && BitsAgree(Abs(vm))
  }

  /** The one thing a caller must check: an mmap must not take pages that copy-on-write
      shares. With `addr == NULL` inside the zone it never does (see `MmapZoneSafe`). */
  ghost predicate Safe(vm: VM, step: Step)
    requires WellSized(vm)
  {
    step.Mmap? && step.p in vm.spaces && MmapAt(vm.spaces[step.p], step.addr, step.n).Done? ==>
      RangeMappable(vm.m, vm.spaces[step.p].pde, MmapAt(vm.spaces[step.p], step.addr, step.n).value, step.n, step.mode)
  }

  /** What every step must achieve. */
  ghost predicate Faithful(vm: VM, step: Step, r: Outcome<VM>) {
    && (r.Halt? ==> r.why != CountCheck)
    && (r.Done? ==> WellSized(r.value) && Core(r.value.m, DirsOf(r.value.spaces)) && EagerStep(Abs(vm), step, Abs(r.value)))
  }

  lemma DirsUpdated(spaces: map<nat, Space>, p: nat, space: Space)
    ensures DirsOf(spaces[p := space]) == DirsOf(spaces)[p := space.pde]
    ensures DirsOf(spaces - {p}) == DirsOf(spaces) - {p}
  {
  }

  lemma SpawnStep(vm: VM, p: nat, cd: FrameNo)
    requires Inv(vm) && Enabled(vm, Spawn(p, cd))
    ensures Faithful(vm, Spawn(p, cd), DoSpawn(vm, p, cd))
  {
    hide Core, Pages, CopyDirectory, NewSpace;
    var dirs := DirsOf(vm.spaces);
    DirsUpdated(vm.spaces, p, NewSpace(cd));
    SpaceIgnoresPde(cd);
    BootDirectory(vm.m, dirs);
    var page := vm.m.Frame(KERNEL_DIRECTORY)[SELF_SLOT := EntryInit(cd)];
    EmptyDirectory(vm.m, KERNEL_DIRECTORY, cd, vm.m.SetFrame(cd, page));
    NewDirectory(vm.m, dirs, p, cd, page);
    ViewSame(vm.m, vm.m.SetFrame(cd, page), dirs, dirs[p := cd]);
  }

  lemma SpaceIgnoresPde(cd: FrameNo)
    ensures NewSpace(cd).(pde := 0) == NewSpace(0)
    ensures NewSpace(cd).pde == cd && NewSpace(cd).end == USER_EXEC && NewSpace(cd).brk == USER_EXEC
  {
  }

  lemma ViewSame(m: Mem, n: Mem, dirs: Dirs, dirs': Dirs)
    requires Pages(n, dirs') == Pages(m, dirs) && SameData(m, n, Pages(m, dirs))
    ensures View(n, dirs') == View(m, dirs)
  {
    hide Pages;
  }

  /** Copying a directory without user tables copies one page. */
  lemma EmptyDirectory(m: Mem, pd: FrameNo, cd: FrameNo, n: Mem)
    requires m.Sized() && cd < |m.phys| && n == m.SetFrame(cd, m.Frame(pd)[SELF_SLOT := EntryInit(cd)])
    requires forall d: Idx | UserSlot(d) :: !m.Frame(pd)[d].present
    ensures CopyDirectory(m, pd, cd) == Done(n)
  {
    hide CopySlots;
    NoTablesToCopy(n, pd, cd, KERNEL_SLOTS);
  }

  lemma BootDirectory(m: Mem, dirs: Dirs)
    requires Core(m, dirs)
    ensures m.Sized() && KERNEL_FRAMES <= |m.phys|
    ensures forall d: Idx | UserSlot(d) :: !m.Frame(KERNEL_DIRECTORY)[d].present
  {
    hide Pages, Tables;
  }

  lemma {:induction false} NoTablesToCopy(m: Mem, pd: FrameNo, cd: FrameNo, d: nat)
    requires m.Sized() && KERNEL_SLOTS <= d <= SELF_SLOT
    requires forall e: Idx | UserSlot(e) :: !m.Frame(cd)[e].present
    ensures CopySlots(m, pd, cd, d) == Done(m)
    decreases SELF_SLOT - d
  {
    hide CopySlots;
    CopySlotsSkip(m, pd, cd, d);
    if d >= SELF_SLOT {
    } else {
      NoTablesToCopy(m, pd, cd, d + 1);
    }
  }

  lemma ForkStep(vm: VM, p: nat, c: nat, cd: FrameNo)
    requires Inv(vm) && Enabled(vm, Fork(p, c, cd))
    ensures Faithful(vm, Fork(p, c, cd), DoFork(vm, p, c, cd))
  {
    hide Core, Pages, CopyDirectory, ForkedAll, BitsAgree, View, Copied, Zeros, TablesFrom;
    var dirs := DirsOf(vm.spaces);
    DirsUpdated(vm.spaces, c, vm.spaces[p].(pde := cd));
    CopyDirectoryCore(vm.m, dirs, p, c, cd);
    var r := CopyDirectory(vm.m, dirs[p], cd);
    if r.Done? {
      ViewForked(vm.m, r.value, dirs, dirs[c := cd], p, c);
    }
  }

  lemma ExitStep(vm: VM, p: nat)
    requires Inv(vm) && p in vm.spaces
    ensures Faithful(vm, Exit(p), DoExit(vm, p)) && DoExit(vm, p).Done?
  {
    hide Core, Pages, FreeDirectory;
    var dirs := DirsOf(vm.spaces);
    DirsUpdated(vm.spaces, p, vm.spaces[p]);
    FreeDirectoryCore(vm.m, dirs, p);
    ViewExited(vm.m, FreeDirectory(vm.m, dirs[p]).value, dirs, p);
  }

  lemma BrkStep(vm: VM, p: nat, brk: nat)
    requires Inv(vm) && p in vm.spaces
    ensures Faithful(vm, Brk(p, brk), DoBrk(vm, p, brk))
  {
    hide Core, Pages, UnlinkRange, BitsAgree, WithoutRange, View;
    var space := vm.spaces[p];
    DirsUpdated(vm.spaces, p, space.(brk := brk));
    assert DirsOf(vm.spaces)[p := space.pde] == DirsOf(vm.spaces);
    if space.end <= brk <= USER_MMAP && space.brk > brk {
      UnlinkRangeCore(vm.m, DirsOf(vm.spaces), p, brk, space.brk - brk);
    }
  }

  lemma MmapStep(vm: VM, p: nat, addr: Vpn, n: nat, mode: Mode)
    requires Inv(vm) && p in vm.spaces && Safe(vm, Mmap(p, addr, n, mode))
    ensures Faithful(vm, Mmap(p, addr, n, mode), DoMmap(vm, p, addr, n, mode))
  {
    hide Core, Pages, MapRange, RangeMappable, Mapped, BitsAgree, FirstRun;
    var space, dirs := vm.spaces[p], DirsOf(vm.spaces);
    var at := MmapAt(space, addr, n);
    assert MmapAt(space.(pde := 0), addr, n) == at;
    if at.Done? && USER_MMAP <= at.value < STACK_BOTTOM && at.value + n <= STACK_TOP {
      DirsUpdated(vm.spaces, p, space.(vmap := SetRun(space.vmap, at.value - USER_MMAP, n, true)));
      assert dirs[p := space.pde] == dirs;
      MapRangeCore(vm.m, dirs, p, at.value, n, mode);
    }
  }

  lemma MunmapStep(vm: VM, p: nat, addr: Vpn, n: nat)
    requires Inv(vm) && p in vm.spaces
    ensures Faithful(vm, Munmap(p, addr, n), DoMunmap(vm, p, addr, n))
  {
    hide Core, Pages, UnlinkRange, BitsAgree;
    var space, dirs := vm.spaces[p], DirsOf(vm.spaces);
    if USER_MMAP <= addr < STACK_BOTTOM && addr + n <= STACK_TOP && TakenRun(space.vmap, addr - USER_MMAP, n) {
      DirsUpdated(vm.spaces, p, space.(vmap := SetRun(space.vmap, addr - USER_MMAP, n, false)));
      assert dirs[p := space.pde] == dirs;
      UnlinkRangeCore(vm.m, dirs, p, addr, n);
    }
  }

  lemma FaultStep(vm: VM, p: nat, v: Vpn, write: bool)
    requires Inv(vm) && p in vm.spaces
    ensures Faithful(vm, Fault(p, v, write), DoFault(vm, p, v, write))
  {
    hide Core, Pages, WriteFault, LinkPage, BitsAgree, FreeDirectory, Zeros;
    var space, dirs := vm.spaces[p], DirsOf(vm.spaces);
    if v < USER_EXEC || v >= STACK_TOP {
      ExitStep(vm, p);
    } else {
      PageThere(vm.m, dirs, PageKey(p, v));
      if HasPage(vm.m, space.pde, v) {
        if write {
          PresentFault(vm, p, v);
        }
      } else if v < space.brk || v >= STACK_BOTTOM {
        LinkPageCore(vm.m, dirs, p, v);
        if LinkPage(vm.m, dirs[p], v).Done? {
          var m1 := LinkPage(vm.m, dirs[p], v).value;
          ViewUpdated(vm.m, m1, dirs, PageKey(p, v), m1.Entry(dirs[p], v));
        }
      }
    }
  }

  /** A write fault at a page that is there. */
  lemma PresentFault(vm: VM, p: nat, v: Vpn)
    requires Inv(vm) && p in vm.spaces && HasPage(vm.m, vm.spaces[p].pde, v)
    ensures var r := WriteFault(vm.m, vm.spaces[p].pde, v);
      && (r.Halt? ==> r.why != CountCheck)
      && (r.Done? ==> r.value.Sized() && Core(r.value, DirsOf(vm.spaces)) && View(r.value, DirsOf(vm.spaces)) == View(vm.m, DirsOf(vm.spaces)))
  {
    hide Core, Pages, WriteFault, BitsAgree, Zeros, View;
    var dirs, w := DirsOf(vm.spaces), vm.m.Entry(vm.spaces[p].pde, v);
    if !w.shared && !w.readonly {
      WriteFaultCore(vm.m, dirs, p, v);
      CellKept(vm.m, dirs, p, v);
    } else {
      WriteFaultRejected(vm.m, dirs[p], v);
    }
  }

  lemma FaultInv(vm: VM, p: nat, v: Vpn, write: bool)
    requires Inv(vm) && p in vm.spaces && DoFault(vm, p, v, write).Done?
    ensures Inv(DoFault(vm, p, v, write).value)
  {
    hide Core, BitsAgree, EagerStep, DoFault;
    FaultStep(vm, p, v, write);
    BitsAfter(Abs(vm), Fault(p, v, write), Abs(DoFault(vm, p, v, write).value));
  }

  lemma WriteFaultRejected(m: Mem, pd: FrameNo, v: Vpn)
    requires m.Sized() && HasPage(m, pd, v) && (m.Entry(pd, v).shared || m.Entry(pd, v).readonly)
    ensures WriteFault(m, pd, v) == Halt(Rejected)
  {
  }

  /** A copy-on-write fault changes nobody's view. */
  lemma CellKept(m: Mem, dirs: Dirs, p: nat, v: Vpn)
    requires Core(m, dirs) && p in dirs && HasPage(m, dirs[p], v) && m.Sized()
    requires !m.Entry(dirs[p], v).shared && !m.Entry(dirs[p], v).readonly
    ensures WriteFault(m, dirs[p], v).Done? ==> View(WriteFault(m, dirs[p], v).value, dirs) == View(m, dirs)
  {
    hide Core, Pages, WriteFault;
    WriteFaultCore(m, dirs, p, v);
    PageThere(m, dirs, PageKey(p, v));
    if WriteFault(m, dirs[p], v).Done? {
      var n := WriteFault(m, dirs[p], v).value;
      ViewUpdated(m, n, dirs, PageKey(p, v), n.Entry(dirs[p], v));
    }
  }

  lemma StoreStep(vm: VM, p: nat, v: Vpn, offset: Idx, word: Word)
    requires Inv(vm) && Enabled(vm, Store(p, v, offset, word))
    ensures Faithful(vm, Store(p, v, offset, word), Done(DoStore(vm, p, v, offset, word)))
  {
    hide Core, Pages, BitsAgree;
    var dirs := DirsOf(vm.spaces);
    StoreCore(vm.m, dirs, p, v, offset, word);
    var n := DoStore(vm, p, v, offset, word);
    assert n.spaces == vm.spaces;
  }

  /** Every step keeps the invariant and is a step of the eager machine; none of the kernel's
      assertions about counts fails. */
  lemma StepFaithful(vm: VM, step: Step)
    requires Inv(vm) && Enabled(vm, step) && Safe(vm, step)
    ensures var r := Exec(vm, step);
      && (r.Halt? ==> r.why != CountCheck)
      && (r.Done? ==> Inv(r.value) && EagerStep(Abs(vm), step, Abs(r.value)))
  {
    hide Core, Abs, BitsAgree, EagerStep;
    match step {
      case Spawn(p, cd) => SpawnStep(vm, p, cd);
      case Fork(p, c, cd) => ForkStep(vm, p, c, cd);
      case Exit(p) => ExitStep(vm, p);
      case Brk(p, brk) => BrkStep(vm, p, brk);
      case Mmap(p, addr, n, mode) => MmapStep(vm, p, addr, n, mode);
      case Munmap(p, addr, n) => MunmapStep(vm, p, addr, n);
      case Fault(p, v, write) => FaultStep(vm, p, v, write);
      case Store(p, v, offset, word) => StoreStep(vm, p, v, offset, word);
    }
    if Exec(vm, step).Done? {
      AbsTasks(vm);
      AbsTasks(Exec(vm, step).value);
      BitsAfter(Abs(vm), step, Abs(Exec(vm, step).value));
    }
  }

  lemma AbsTasks(vm: VM)
    ensures forall p :: p in Abs(vm).tasks <==> p in vm.spaces
    ensures forall p | p in vm.spaces :: Abs(vm).tasks[p] == vm.spaces[p].(pde := 0)
  {
  }

  // ---------- Runs ----------

  /** A run from boot: the states before and after each step. */
  ghost predicate Run(states: seq<VM>, steps: seq<Step>) {
    && |states| == |steps| + 1
    && Boot(states[0])
    && forall i | 0 <= i < |steps| :: WellSized(states[i]) ==>
         && Enabled(states[i], steps[i]) && Safe(states[i], steps[i])
         && Exec(states[i], steps[i]) == Done(states[i + 1])
  }

  lemma BootZeros(counts: seq<Byte>)
    requires KERNEL_FRAMES <= |counts|
    requires forall f | 0 <= f < |counts| :: counts[f] == if f < KERNEL_FRAMES then 1 else 0
    ensures |Zeros(counts)| == |counts| - KERNEL_FRAMES
  {
    hide Below;
    assert Zeros(counts) == Below(|counts|) - Below(KERNEL_FRAMES);
    assert Below(|counts|) == Zeros(counts) + Below(KERNEL_FRAMES);
  }

  lemma NothingMapped(m: Mem)
    ensures Pages(m, map[]) == map[] && Tables(m, map[]) == map[]
  {
  }

  lemma BootInv(vm: VM)
    requires Boot(vm)
    ensures Inv(vm)
  {
    hide Pages, Tables, Zeros;
    NothingMapped(vm.m);
    BootZeros(vm.m.counts);
    assert forall f: FrameNo :: PageRefs(map[], f) == {} && TableRefs(map[], f) == {};
    assert DirsOf(vm.spaces) == map[];
  }

  lemma InvSized(vm: VM)
    requires Inv(vm)
    ensures WellSized(vm)
  {
  }

  /** The main result: over any run, every state satisfies the invariant and every step is a
      step of the machine in which fork copies everything. */
  lemma {:induction false} RunRefines(states: seq<VM>, steps: seq<Step>, i: nat)
    requires Run(states, steps) && i <= |steps|
    ensures Inv(states[i])
    ensures forall j | 0 <= j < i :: EagerStep(Abs(states[j]), steps[j], Abs(states[j + 1]))
  {
    hide Inv, Abs, EagerStep, Boot, Exec;
    if i == 0 {
      BootInv(states[0]);
    } else {
      RunRefines(states, steps, i - 1);
      InvSized(states[i - 1]);
      StepFaithful(states[i - 1], steps[i - 1]);
    }
  }

  // ---------- Consequences ----------

  /** With `addr == NULL` and a run inside the zone, `sys_mmap` only takes absent pages. */
  lemma MmapZoneSafe(vm: VM, p: nat, n: nat, mode: Mode)
    requires Inv(vm) && p in vm.spaces && MmapAt(vm.spaces[p], 0, n).Done?
    requires MmapAt(vm.spaces[p], 0, n).value + n <= STACK_BOTTOM
    ensures Safe(vm, Mmap(p, 0, n, mode))
  {
    hide Core, Pages, FirstRun;
    var space, v := vm.spaces[p], MmapAt(vm.spaces[p], 0, n).value;
    forall u: Vpn | v <= u < v + n ensures !HasPage(vm.m, space.pde, u) {
      assert !space.vmap[u - USER_MMAP];
      assert !Abs(vm).tasks[p].vmap[u - USER_MMAP];
      PageThere(vm.m, DirsOf(vm.spaces), PageKey(p, u));
    }
  }

  /** The guard of `sys_mmap` is exact, page by page. */
  lemma MapPageExact(m: Mem, dirs: Dirs, p: nat, v: Vpn, mode: Mode)
    requires Core(m, dirs) && m.Sized() && p in dirs && UserSlot(v / 1024) && MapPage(m, dirs[p], v, mode).Done?
    ensures Core(MapPage(m, dirs[p], v, mode).value, dirs) <==> Mappable(m, dirs[p], v, mode)
  {
    hide Core, MapPage, Mappable;
    if Mappable(m, dirs[p], v, mode) {
      MapPageCore(m, dirs, p, v, mode);
      UpdatedCore(m, MapPage(m, dirs[p], v, mode).value, dirs, PageKey(p, v), MapPage(m, dirs[p], v, mode).value.Entry(dirs[p], v));
    } else {
      MapPageUnsafe(m, dirs, p, v, mode);
    }
  }

  /** A present page that may be written and is not shared is counted once. */
  lemma WritableCountedOnce(m: Mem, dirs: Dirs, k: PageKey)
    requires Core(m, dirs) && k in Pages(m, dirs) && Pages(m, dirs)[k].write && !Pages(m, dirs)[k].shared
    ensures Pages(m, dirs)[k].index < |m.counts| && m.counts[Pages(m, dirs)[k].index] == 1
  {
    hide Pages, Tables;
    var f := Pages(m, dirs)[k].index;
    NoTableHolds(m, dirs, k);
    assert forall l | l in Pages(m, dirs) && l != k && Pages(m, dirs)[l].index == f :: MayAlias(Pages(m, dirs)[k], Pages(m, dirs)[l]);
    assert PageRefs(Pages(m, dirs), f) == {k};
  }

  lemma DirectoryWrites(m: Mem, dirs: Dirs, p: nat, d: Idx)
    requires Core(m, dirs) && p in dirs && HasTable(m, dirs[p], d)
    ensures m.Frame(dirs[p])[d].write && m.Frame(dirs[p])[d].user
  {
    hide Pages, Tables;
  }

  /** After the fault the write goes through: one fault is always enough. */
  lemma WriteRetried(vm: VM, p: nat, v: Vpn)
    requires Inv(vm) && p in vm.spaces && USER_EXEC <= v < STACK_TOP
    requires DoFault(vm, p, v, true).Done?
    ensures var n := DoFault(vm, p, v, true).value;
      p in n.spaces && n.spaces[p].pde == vm.spaces[p].pde && Permits(n.m, n.spaces[p].pde, v, true)
  {
    hide Core, Pages, WriteFault, LinkPage, BitsAgree;
    var pd, dirs := vm.spaces[p].pde, DirsOf(vm.spaces);
    FaultStep(vm, p, v, true);
    var n := DoFault(vm, p, v, true).value;
    if HasPage(vm.m, pd, v) {
      if vm.m.Entry(pd, v).shared || vm.m.Entry(pd, v).readonly {
        WriteFaultRejected(vm.m, pd, v);
      } else {
        WriteFaultCore(vm.m, dirs, p, v);
      }
    } else {
      LinkPageCore(vm.m, dirs, p, v);
    }
    PageThere(n.m, dirs, PageKey(p, v));
    PageIndex(n.m, dirs, PageKey(p, v));
    DirectoryWrites(n.m, dirs, p, v / 1024);
  }

  /** A shared page that may be written never faults on a write, so the assertion of
      `page_fault` that the page is not shared guards only read-only mappings. */
  lemma SharedNeverFaults(m: Mem, dirs: Dirs, p: nat, v: Vpn)
    requires Core(m, dirs) && p in dirs && HasPage(m, dirs[p], v)
    requires m.Entry(dirs[p], v).shared && !m.Entry(dirs[p], v).readonly
    ensures Permits(m, dirs[p], v, true)
  {
    hide Pages, Tables, Core;
    PageThere(m, dirs, PageKey(p, v));
    PageIndex(m, dirs, PageKey(p, v));
    DirectoryWrites(m, dirs, p, v / 1024);
  }

  /** A fork fails exactly when the parent has more tables than there are free frames. */
  lemma ForkFails(vm: VM, p: nat, c: nat, cd: FrameNo)
    requires Inv(vm) && Enabled(vm, Fork(p, c, cd))
    ensures DoFork(vm, p, c, cd).Halt? <==> |Zeros(vm.m.counts)| < TablesFrom(vm.m.Frame(vm.spaces[p].pde), KERNEL_SLOTS)
  {
    hide Core, Pages, CopyDirectory, ForkedAll, TablesFrom;
    CopyDirectoryCore(vm.m, DirsOf(vm.spaces), p, c, cd);
  }

  /** The exit of an untouched child undoes the fork in `memory_map` and `free_pages`. */
  lemma ForkUndone(vm: VM, p: nat, c: nat, cd: FrameNo)
    requires Inv(vm) && Enabled(vm, Fork(p, c, cd)) && DoFork(vm, p, c, cd).Done?
    ensures var r := DoExit(DoFork(vm, p, c, cd).value, c);
      && r.Done? && r.value.spaces == vm.spaces
      && r.value.m.counts == vm.m.counts && r.value.m.free == vm.m.free
  {
    hide Core, Pages, CopyDirectory, FreeDirectory;
    ForkExitRestores(vm.m, DirsOf(vm.spaces), p, c, cd);
  }

  /** `sys_brk` compares with `free_pages`, which also counts kernel frames: it grants a growth
      for which there are too few frames exactly in this band. */
  lemma BrkOverpromises(vm: VM, p: nat, brk: nat)
    requires Inv(vm) && p in vm.spaces && vm.spaces[p].brk < brk <= USER_MMAP && vm.spaces[p].end <= brk
    ensures var grown, zeros := brk - vm.spaces[p].brk, |Zeros(vm.m.counts)|;
      && DoBrk(vm, p, brk).Done?
      && (DoBrk(vm, p, brk).value != vm && grown > zeros <==> zeros < grown <= zeros + KERNEL_FRAMES - vm.m.start)
  {
    hide Pages, Tables, UnlinkRange, Zeros;
    assert vm.spaces[p := vm.spaces[p].(brk := brk)][p].brk != vm.spaces[p].brk;
  }
}
