/** What goes wrong when `sys_mmap` takes a page that copy-on-write shares (src/kernel/memory.c): a
    later write of its owner is seen by another task. */
module MmapHazards {
  import opened Outcomes
  import opened Bitmaps
  import opened Collections
  import opened PageTables
  import opened FrameCounts
  import opened PagingSteps
  import opened ForkExit
  import opened AddressSpaces
  import opened EagerCopy
  import opened PagingRefinement

  // ---------- One page, whatever copy-on-write thinks of it ----------

  /** `sys_mmap` over a present page only puts new flags on its entry. */
  lemma Reflagged(m: Mem, dirs: Dirs, p: nat, v: Vpn, mode: Mode)
    requires Separated(m, dirs) && m.Sized() && p in dirs && HasPage(m, dirs[p], v)
    ensures var w, n := WithMode(m.Entry(dirs[p], v), mode), m.SetEntry(dirs[p], v, WithMode(m.Entry(dirs[p], v), mode));
      && MapPage(m, dirs[p], v, mode) == Done(n)
      && n.Sized() && n.counts == m.counts && Separated(n, dirs)
      && HasPage(n, dirs[p], v) && n.Entry(dirs[p], v) == w && n.Frame(dirs[p]) == m.Frame(dirs[p])
      && Tables(n, dirs) == Tables(m, dirs) && Pages(n, dirs) == Pages(m, dirs)[PageKey(p, v) := w]
      && SameOutside(m, n, dirs)
  {
    hide Pages;
    var w := WithMode(m.Entry(dirs[p], v), mode);
    var n := m.SetEntry(dirs[p], v, w);
    SetEntryEffect(m, dirs, p, v, w);
    DirectoryAfter(m, dirs, p, v, w);
    assert DirKey(p, v / 1024) in Tables(m, dirs);
    PageThere(n, dirs, PageKey(p, v));
  }

  /** Frames that are no page tables hold the same words. */
  ghost predicate SameOutside(m: Mem, n: Mem, dirs: Dirs) {
    forall f: FrameNo | (forall k | k in Tables(m, dirs) :: Tables(m, dirs)[k] != f) :: n.Frame(f) == m.Frame(f)
  }

  /** A word written through the entry of page `v`. */
  function Written(m: Mem, pd: FrameNo, v: Vpn, offset: Idx, word: Word): Mem {
    m.SetFrame(m.Entry(pd, v).index, m.Frame(m.Entry(pd, v).index)[offset := word])
  }

  ghost predicate DataFrame(m: Mem, dirs: Dirs, f: FrameNo) {
    InUserFrames(f, |m.counts|) && forall k | k in Tables(m, dirs) :: Tables(m, dirs)[k] != f
  }

  /** It is seen at every page on the same frame. */
  lemma WrittenSeen(m: Mem, dirs: Dirs, p: nat, v: Vpn, offset: Idx, word: Word, l: PageKey)
    requires Separated(m, dirs) && m.Sized() && p in dirs && DataFrame(m, dirs, m.Entry(dirs[p], v).index)
    requires l in Pages(m, dirs) && Pages(m, dirs)[l].index == m.Entry(dirs[p], v).index
    ensures var n := Written(m, dirs[p], v, offset, word);
      && Pages(n, dirs) == Pages(m, dirs) && l in View(n, dirs) && l in View(m, dirs)
      && View(n, dirs)[l] == View(m, dirs)[l].(words := View(m, dirs)[l].words[offset := word])
  {
    hide Pages, Tables;
    var f := m.Entry(dirs[p], v).index;
    SetDataEffect(m, dirs, f, m.Frame(f)[offset := word]);
  }

  /** A page that `sys_mmap` must not take is held by another task, on the same frame. */
  lemma TakenFrom(m: Mem, dirs: Dirs, p: nat, v: Vpn, mode: Mode) returns (l: PageKey)
    requires Core(m, dirs) && m.Sized() && p in dirs && UserSlot(v / 1024) && !Mappable(m, dirs[p], v, mode)
    ensures Separated(m, dirs) && HasPage(m, dirs[p], v) && DataFrame(m, dirs, m.Entry(dirs[p], v).index)
    ensures l in Pages(m, dirs) && l.p != p && !Pages(m, dirs)[l].shared
    ensures Pages(m, dirs)[l].index == m.Entry(dirs[p], v).index
    ensures m.Frame(dirs[p])[v / 1024].user && m.Frame(dirs[p])[v / 1024].write
  {
    hide Pages, Tables;
    var k := PageKey(p, v);
    PageThere(m, dirs, k);
    PageIndex(m, dirs, k);
    l := OtherHolder(m, dirs, k);
    assert MayAlias(Pages(m, dirs)[k], Pages(m, dirs)[l]);
    DirectoriesApart(m, dirs);
    DirectoryWrites(m, dirs, p, v / 1024);
  }

  /** No write through page `v` is seen at a page that does not share it. */
  ghost predicate Unseen(m: Mem, dirs: Dirs, p: nat, v: Vpn)
    requires p in dirs
  {
    forall l, offset: Idx, word: Word {:trigger Written(m, dirs[p], v, offset, word), View(m, dirs)[l]}
      | l in View(m, dirs) && l != PageKey(p, v) && View(m, dirs)[l].share.None? ::
      l in View(Written(m, dirs[p], v, offset, word), dirs)
      && View(Written(m, dirs[p], v, offset, word), dirs)[l] == View(m, dirs)[l]
  }

  /** The guard of `sys_mmap` in terms of what other tasks see: a page may be made writable exactly
      when no write to it will be seen at a page that does not share it. */
  lemma MapPageUnseen(m: Mem, dirs: Dirs, p: nat, v: Vpn, mode: Mode)
    requires Core(m, dirs) && m.Sized() && p in dirs && UserSlot(v / 1024) && mode.write
    requires MapPage(m, dirs[p], v, mode).Done?
    ensures Unseen(MapPage(m, dirs[p], v, mode).value, dirs, p, v) <==> Mappable(m, dirs[p], v, mode)
  {
    hide Core, Pages, MapPage, Mappable, View, Separated, DataFrame;
    var n := MapPage(m, dirs[p], v, mode).value;
    if Mappable(m, dirs[p], v, mode) {
      MappedWritable(m, dirs, p, v, mode);
      forall l, offset: Idx, word: Word | l in View(n, dirs) && l != PageKey(p, v) && View(n, dirs)[l].share.None?
        ensures l in View(Written(n, dirs[p], v, offset, word), dirs)
        ensures View(Written(n, dirs[p], v, offset, word), dirs)[l] == View(n, dirs)[l]
      {
        StoreCore(n, dirs, p, v, offset, word);
      }
    } else {
      var l := TakenFrom(m, dirs, p, v, mode);
      var after, word := SeenAfter(m, dirs, p, v, mode, l);
    }
  }

  lemma MappedWritable(m: Mem, dirs: Dirs, p: nat, v: Vpn, mode: Mode)
    requires Core(m, dirs) && m.Sized() && p in dirs && UserSlot(v / 1024) && mode.write
    requires Mappable(m, dirs[p], v, mode) && MapPage(m, dirs[p], v, mode).Done?
    ensures var n := MapPage(m, dirs[p], v, mode).value;
      Core(n, dirs) && n.Sized() && HasPage(n, dirs[p], v) && n.Entry(dirs[p], v).write
  {
    hide Core, Pages, Mappable, LinkPage;
    MapPageCore(m, dirs, p, v, mode);
    var n := MapPage(m, dirs[p], v, mode).value;
    UpdatedCore(m, n, dirs, PageKey(p, v), n.Entry(dirs[p], v));
  }

  /** A word that differs, written after the page was taken, is seen at `l`. */
  lemma SeenAfter(m: Mem, dirs: Dirs, p: nat, v: Vpn, mode: Mode, l: PageKey) returns (n: Mem, word: Word)
    requires Separated(m, dirs) && m.Sized() && p in dirs && HasPage(m, dirs[p], v)
    requires DataFrame(m, dirs, m.Entry(dirs[p], v).index)
    requires l in Pages(m, dirs) && l.p != p && !Pages(m, dirs)[l].shared
    requires Pages(m, dirs)[l].index == m.Entry(dirs[p], v).index
    ensures MapPage(m, dirs[p], v, mode) == Done(n) && Separated(n, dirs) && n.Sized()
    ensures HasPage(n, dirs[p], v) && n.Entry(dirs[p], v) == WithMode(m.Entry(dirs[p], v), mode)
    ensures n.counts == m.counts && n.Frame(dirs[p]) == m.Frame(dirs[p])
    ensures DataFrame(n, dirs, n.Entry(dirs[p], v).index)
    ensures l in Pages(n, dirs) && Pages(n, dirs)[l] == Pages(m, dirs)[l]
    ensures l in View(n, dirs) && View(n, dirs)[l].share.None?
    ensures l in View(Written(n, dirs[p], v, 0, word), dirs)
    ensures View(Written(n, dirs[p], v, 0, word), dirs)[l] != View(n, dirs)[l]
    ensures !Unseen(n, dirs, p, v)
  {
    hide Pages, Tables, Separated, MapPage;
    Reflagged(m, dirs, p, v, mode);
    n := m.SetEntry(dirs[p], v, WithMode(m.Entry(dirs[p], v), mode));
    var was := View(n, dirs)[l].words[0];
    word := was.(present := !was.present);
    WrittenSeen(n, dirs, p, v, 0, word, l);
    assert View(Written(n, dirs[p], v, 0, word), dirs)[l].words[0] == word;
  }

  // ---------- Whole runs ----------

  /** A run of the kernel from any state, in which no mmap takes a page it must not take. */
  ghost predicate Goes(states: seq<VM>, steps: seq<Step>) {
    && |states| == |steps| + 1
    && forall i | 0 <= i < |steps| ::
         && WellSized(states[i]) && Enabled(states[i], steps[i]) && Safe(states[i], steps[i])
         && Exec(states[i], steps[i]) == Done(states[i + 1])
  }

  /** Each of its steps is one of the machine in which fork copies everything. */
  ghost predicate Refined(states: seq<VM>, steps: seq<Step>) {
    && |states| == |steps| + 1
    && forall i | 0 <= i < |steps| :: EagerStep(Abs(states[i]), steps[i], Abs(states[i + 1]))
  }

  ghost predicate GoesFrom(vm: VM, states: seq<VM>, steps: seq<Step>) {
    Goes(states, steps) && states[0] == vm
  }

  lemma {:induction false} GoesRefined(states: seq<VM>, steps: seq<Step>, i: nat)
    requires Goes(states, steps) && Inv(states[0]) && i <= |steps|
    ensures Inv(states[i])
    ensures forall j | 0 <= j < i :: EagerStep(Abs(states[j]), steps[j], Abs(states[j + 1]))
    decreases i
  {
    hide Inv, Abs, EagerStep, Exec, Enabled, Safe;
    if i == 0 {
    } else {
      GoesRefined(states, steps, i - 1);
      StepFaithful(states[i - 1], steps[i - 1]);
    }
  }

  /** Page `l` of another task lies on the frame of page `v` of task `p`, which `p` may write. */
  ghost predicate Exposed(vm: VM, p: nat, v: Vpn, l: PageKey, word: Word)
    requires p in vm.spaces && vm.m.Sized()
  {
    && WellSized(vm) && USER_EXEC <= v < STACK_TOP && Permits(vm.m, vm.spaces[p].pde, v, true)
    && var dirs := DirsOf(vm.spaces);
    && l.p != p && l in View(vm.m, dirs) && View(vm.m, dirs)[l].share.None?
    && l in View(Written(vm.m, dirs[p], v, 0, word), dirs)
    && View(Written(vm.m, dirs[p], v, 0, word), dirs)[l] != View(vm.m, dirs)[l]
  }

  /** Then the write of `p` is seen there, and not in the copying machine. */
  lemma ExposedTells(vm: VM, p: nat, v: Vpn, l: PageKey, word: Word)
    requires p in vm.spaces && vm.m.Sized() && Exposed(vm, p, v, l, word)
    ensures Goes([vm, DoStore(vm, p, v, 0, word)], [Store(p, v, 0, word)])
    ensures !EagerStep(Abs(vm), Store(p, v, 0, word), Abs(DoStore(vm, p, v, 0, word)))
  {
    hide View;
    var k, w := PageKey(p, v), View(vm.m, DirsOf(vm.spaces));
    if k in w {
      assert l in Stored(w, k, 0, word) && Stored(w, k, 0, word)[l] == w[l];
    }
  }

  lemma OneMappable(m: Mem, pd: FrameNo, v: Vpn, mode: Mode)
    requires m.Sized()
    ensures RangeMappable(m, pd, v, 1, mode) <==> Mappable(m, pd, v, mode)
  {
    hide Mappable;
  }

  /** The one page of a call of `sys_mmap`. */
  lemma OnePage(vm: VM, p: nat, addr: Vpn, mode: Mode, vm1: VM)
    requires WellSized(vm) && p in vm.spaces && DoMmap(vm, p, addr, 1, mode) == Done(vm1)
    ensures MmapAt(vm.spaces[p], addr, 1).Done?
    ensures var v := MmapAt(vm.spaces[p], addr, 1).value;
      && USER_MMAP <= v < STACK_BOTTOM && UserSlot(v / 1024)
      && MapPage(vm.m, vm.spaces[p].pde, v, mode) == Done(vm1.m)
      && WellSized(vm1) && p in vm1.spaces && DirsOf(vm1.spaces) == DirsOf(vm.spaces) && vm1.spaces[p].pde == vm.spaces[p].pde
      && (Safe(vm, Mmap(p, addr, 1, mode)) <==> Mappable(vm.m, vm.spaces[p].pde, v, mode))
  {
    hide MapPage, Mappable, FirstRun, RangeMappable;
    var v := MmapAt(vm.spaces[p], addr, 1).value;
    var n := MapPage(vm.m, vm.spaces[p].pde, v, mode);
    assert MapRange(vm.m, vm.spaces[p].pde, v, 1, mode) == n by {
      if n.Done? {
        assert MapRange(n.value, vm.spaces[p].pde, v + 1, 0, mode) == n;
      }
    }
    OneMappable(vm.m, vm.spaces[p].pde, v, mode);
  }

  /** Over an unsafe call a second one, which is safe, makes a page writable that was made shared
      only. */
  lemma AgainWritable(vm: VM, p: nat, v: Vpn, l: PageKey, mode: Mode) returns (vm2: VM, word: Word)
    requires WellSized(vm) && p in vm.spaces && USER_MMAP <= v < STACK_BOTTOM && mode.write
    requires var dirs := DirsOf(vm.spaces);
      && Separated(vm.m, dirs) && HasPage(vm.m, dirs[p], v) && DataFrame(vm.m, dirs, vm.m.Entry(dirs[p], v).index)
      && l in Pages(vm.m, dirs) && l.p != p && !Pages(vm.m, dirs)[l].shared
      && Pages(vm.m, dirs)[l].index == vm.m.Entry(dirs[p], v).index
      && vm.m.Entry(dirs[p], v).shared
      && vm.m.Frame(dirs[p])[v / 1024].user && vm.m.Frame(dirs[p])[v / 1024].write
    ensures Safe(vm, Mmap(p, v, 1, mode)) && DoMmap(vm, p, v, 1, mode) == Done(vm2)
    ensures p in vm2.spaces && vm2.m.Sized() && Exposed(vm2, p, v, l, word)
  {
    hide Pages, View, Separated, DataFrame, MapPage, Unseen;
    var dirs := DirsOf(vm.spaces);
    var n: Mem;
    n, word := SeenAfter(vm.m, dirs, p, v, mode, l);
    assert MapRange(vm.m, dirs[p], v, 1, mode) == Done(n) by {
      assert MapRange(n, dirs[p], v + 1, 0, mode) == Done(n);
    }
    vm2 := DoMmap(vm, p, v, 1, mode).value;
    OnePage(vm, p, v, mode, vm2);
  }

  /** Everything that can follow is what the copying machine does. */
  ghost predicate NeverTells(vm: VM) {
    forall states, steps | GoesFrom(vm, states, steps) :: Refined(states, steps)
  }

  lemma InvNeverTells(vm: VM)
    requires Inv(vm)
    ensures NeverTells(vm)
  {
    hide Inv, EagerStep, Abs;
    forall states, steps | GoesFrom(vm, states, steps) ensures Refined(states, steps) {
      GoesRefined(states, steps, |steps|);
    }
  }

  /** The condition on calls of `sys_mmap` is exact.  After a call for one page, everything that
      can follow is what the machine does in which fork copies everything, if and only if the call
      did not take a page that copy-on-write shares. */
  lemma MmapExact(vm: VM, p: nat, addr: Vpn, mode: Mode, vm1: VM)
    requires Inv(vm) && WellSized(vm) && p in vm.spaces && DoMmap(vm, p, addr, 1, mode) == Done(vm1)
    ensures Safe(vm, Mmap(p, addr, 1, mode)) <==> NeverTells(vm1)
  {
    hide Inv, Safe, NeverTells, WellSized, DoMmap;
    if Safe(vm, Mmap(p, addr, 1, mode)) {
      SafeInv(vm, p, addr, mode, vm1);
      InvNeverTells(vm1);
    } else {
      var states, steps := Told(vm, p, addr, mode, vm1);
      Tells(vm1, states, steps);
    }
  }

  lemma SafeInv(vm: VM, p: nat, addr: Vpn, mode: Mode, vm1: VM)
    requires Inv(vm) && WellSized(vm) && p in vm.spaces && DoMmap(vm, p, addr, 1, mode) == Done(vm1)
    requires Safe(vm, Mmap(p, addr, 1, mode))
    ensures Inv(vm1)
  {
    hide Inv, Safe, DoMmap, EagerStep, Abs;
    StepFaithful(vm, Mmap(p, addr, 1, mode));
  }

  lemma Tells(vm: VM, states: seq<VM>, steps: seq<Step>)
    requires GoesFrom(vm, states, steps) && !Refined(states, steps)
    ensures !NeverTells(vm)
  {
    hide GoesFrom, Refined;
  }

  lemma Told(vm: VM, p: nat, addr: Vpn, mode: Mode, vm1: VM) returns (states: seq<VM>, steps: seq<Step>)
    requires Inv(vm) && WellSized(vm) && p in vm.spaces && DoMmap(vm, p, addr, 1, mode) == Done(vm1)
    requires !Safe(vm, Mmap(p, addr, 1, mode))
    ensures GoesFrom(vm1, states, steps) && !Refined(states, steps)
  {
    hide Core, Pages, View, Separated, DataFrame, MapPage, Unseen, BitsAgree, EagerStep, DoMmap, Safe;
    OnePage(vm, p, addr, mode, vm1);
    var v, dirs := MmapAt(vm.spaces[p], addr, 1).value, DirsOf(vm.spaces);
    var l := TakenFrom(vm.m, dirs, p, v, mode);
    var n, word := SeenAfter(vm.m, dirs, p, v, mode, l);
    assert n == vm1.m;
    assert n.Entry(dirs[p], v) == WithMode(vm.m.Entry(dirs[p], v), mode);
    if mode.write {
      assert Exposed(vm1, p, v, l, word);
      ExposedTells(vm1, p, v, l, word);
      states, steps := [vm1, DoStore(vm1, p, v, 0, word)], [Store(p, v, 0, word)];
      assert !EagerStep(Abs(states[0]), steps[0], Abs(states[0 + 1]));
    } else {
      SharedOnly(vm.m, dirs[p], v, mode);
      var again := Mode(true, mode.shared, mode.privat);
      var vm2, word2 := AgainWritable(vm1, p, v, l, again);
      ExposedTells(vm2, p, v, l, word2);
      states := [vm1, vm2, DoStore(vm2, p, v, 0, word2)];
      steps := [Mmap(p, v, 1, again), Store(p, v, 0, word2)];
      Joined(vm1, vm2, DoStore(vm2, p, v, 0, word2), steps[0], steps[1]);
      assert !EagerStep(Abs(states[1]), steps[1], Abs(states[1 + 1]));
    }
  }

  lemma SharedOnly(m: Mem, pd: FrameNo, v: Vpn, mode: Mode)
    requires m.Sized() && !Mappable(m, pd, v, mode) && !mode.write
    ensures mode.shared
  {
  }

  lemma Joined(vm: VM, vm1: VM, vm2: VM, step: Step, next: Step)
    requires WellSized(vm) && Enabled(vm, step) && Safe(vm, step) && Exec(vm, step) == Done(vm1)
    requires Goes([vm1, vm2], [next])
    ensures Goes([vm, vm1, vm2], [step, next])
  {
    hide Exec, Safe, Enabled, WellSized;
    var a, b := [vm1, vm2], [next];
    assert WellSized(a[0]) && Enabled(a[0], b[0]) && Safe(a[0], b[0]) && Exec(a[0], b[0]) == Done(a[0 + 1]);
  }

  // ---------- How it comes about ----------

  /** After any fork the parent's private pages are such pages: made writable by `sys_mmap`, they
      let the child see what the parent writes. */
  lemma ForkExposes(vm: VM, p: nat, c: nat, cd: FrameNo, v: Vpn, mode: Mode)
    requires Inv(vm) && Enabled(vm, Fork(p, c, cd)) && DoFork(vm, p, c, cd).Done? && mode.write
    requires HasPage(vm.m, vm.spaces[p].pde, v) && !vm.m.Entry(vm.spaces[p].pde, v).shared
    ensures var vm1 := DoFork(vm, p, c, cd).value;
      && vm1.m.Sized() && p in vm1.spaces && !Mappable(vm1.m, vm1.spaces[p].pde, v, mode)
      && MapPage(vm1.m, vm1.spaces[p].pde, v, mode).Done?
      && !Unseen(MapPage(vm1.m, vm1.spaces[p].pde, v, mode).value, DirsOf(vm1.spaces), p, v)
  {
    hide Core, Pages, CopyDirectory, BitsAgree, Separated, DataFrame, MapPage, Mappable, Unseen, View, EagerStep, Abs;
    var dirs := DirsOf(vm.spaces);
    var vm1 := DoFork(vm, p, c, cd).value;
    DirsUpdated(vm.spaces, c, vm.spaces[p].(pde := cd));
    var dirs1 := dirs[c := cd];
    assert vm1.m.Sized() && Core(vm1.m, dirs1) && Pages(vm1.m, dirs1) == ForkedAll(Pages(vm.m, dirs), p, c) by {
      hide Zeros, TablesFrom;
      CopyDirectoryCore(vm.m, dirs, p, c, cd);
    }
    ForkedPages(vm.m, vm1.m, dirs, dirs1, p, c, v);
    CountedTwice(vm1.m, dirs1, PageKey(p, v), PageKey(c, v));
    NotMappable(vm1.m, dirs1[p], v, mode);
    var l := TakenFrom(vm1.m, dirs1, p, v, mode);
    var n, word := SeenAfter(vm1.m, dirs1, p, v, mode, l);
  }

  lemma NotMappable(m: Mem, pd: FrameNo, v: Vpn, mode: Mode)
    requires m.Sized() && HasPage(m, pd, v) && m.Entry(pd, v).index < |m.counts| && m.counts[m.Entry(pd, v).index] > 1
    requires mode.write && !m.Entry(pd, v).shared
    ensures !Mappable(m, pd, v, mode)
  {
  }

  /** A page of the parent after a fork: the child's is on the same frame. */
  lemma ForkedPages(m: Mem, n: Mem, dirs: Dirs, dirs1: Dirs, p: nat, c: nat, v: Vpn)
    requires p in dirs && p != c && c !in dirs && dirs1.Keys == dirs.Keys + {c} && dirs1[p] == dirs[p]
    requires HasPage(m, dirs[p], v) && !m.Entry(dirs[p], v).shared
    requires Pages(n, dirs1) == ForkedAll(Pages(m, dirs), p, c)
    ensures PageKey(p, v) in Pages(n, dirs1) && PageKey(c, v) in Pages(n, dirs1)
    ensures Pages(n, dirs1)[PageKey(p, v)].index == Pages(n, dirs1)[PageKey(c, v)].index
    ensures HasPage(n, dirs1[p], v) && n.Entry(dirs1[p], v) == Pages(n, dirs1)[PageKey(p, v)]
    ensures !n.Entry(dirs1[p], v).shared && UserSlot(v / 1024)
  {
    PageThere(m, dirs, PageKey(p, v));
    PageThere(n, dirs1, PageKey(p, v));
    PagesKeys(m, dirs);
    LowPages(m, dirs);
    hide Pages;
  }

  lemma CountedTwice(m: Mem, dirs: Dirs, k: PageKey, l: PageKey)
    requires Core(m, dirs) && k in Pages(m, dirs) && l in Pages(m, dirs) && k != l
    requires Pages(m, dirs)[k].index == Pages(m, dirs)[l].index
    ensures Pages(m, dirs)[k].index < |m.counts| && m.counts[Pages(m, dirs)[k].index] > 1
  {
    hide Pages, Tables;
    PageIndex(m, dirs, k);
    var f := Pages(m, dirs)[k].index;
    SubsetSize({k, l}, PageRefs(Pages(m, dirs), f));
  }

  /** Growth is granted for which a frame is missing, whenever fewer frames are free than there is
      room below the mapping zone. */
  lemma BrkGrantsTooMuch(vm: VM, p: nat, brk: nat)
    requires Inv(vm) && p in vm.spaces && vm.m.start < KERNEL_FRAMES && vm.spaces[p].end <= vm.spaces[p].brk
    requires brk == vm.spaces[p].brk + |Zeros(vm.m.counts)| + 1 <= USER_MMAP
    ensures vm.m.Sized() && vm.spaces[p].brk <= USER_MMAP
    ensures DoBrk(vm, p, brk) == Done(vm.(spaces := vm.spaces[p := vm.spaces[p].(brk := brk)]))
  {
    InvSized(vm);
    hide Inv, Zeros, DoBrk;
    BrkOverpromises(vm, p, brk);
    BrkGrown(vm, p, brk);
  }

  lemma BrkGrown(vm: VM, p: nat, brk: nat)
    requires WellSized(vm) && p in vm.spaces && vm.spaces[p].brk < brk && DoBrk(vm, p, brk).Done?
    ensures DoBrk(vm, p, brk).value == vm || DoBrk(vm, p, brk).value == vm.(spaces := vm.spaces[p := vm.spaces[p].(brk := brk)])
  {
    hide UnlinkRange;
  }
}
