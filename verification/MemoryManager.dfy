/** The memory manager as the kernel runs it: `memory_map` and physical memory are arrays
    changed in place, by the loops of src/kernel/memory.c.  Each method is proved equal to the
    function that describes it, and the kernel's assertions are proved to hold. */
module MemoryManagers {
  import opened Outcomes
  import opened Bitmaps
  import opened Unsigned
  import opened PageTables
  import opened FrameCounts
  import opened PagingSteps
  import opened ForkExit
  import opened AddressSpaces
  import opened EagerCopy
  import opened PagingRefinement
  import opened PagingCompletes

  class MemoryManager {
    const startPage: nat
    const memoryMap: array<Byte>
    const phys: array<Page>
    var freePages: int
    var tasks: map<nat, Space>

    ghost predicate Shaped()
      reads this
    {
      memoryMap.Length == phys.Length <= 0x100000 && startPage <= memoryMap.Length
    }

    ghost function M(): (m: Mem)
      reads this, memoryMap, phys
      requires Shaped()
      ensures m.Sized()
    {
      Mem(startPage, memoryMap[..], freePages, phys[..])
    }

    ghost function State(): VM
      reads this, memoryMap, phys
      requires Shaped()
    {
      VM(M(), tasks)
    }

    /** Physical memory obeys the counting invariant. */
    ghost predicate Counts()
      reads this, memoryMap, phys
    {
      Shaped() && Core(M(), DirsOf(tasks))
    }

    ghost predicate Valid()
      reads this, memoryMap, phys
    {
      Shaped() && Inv(State())
    }

    /** `memory_init`, `memory_map_init` and `mapping_init`: `size` pages from 1M on, the first
        16M for the kernel, and a boot directory without user tables.  `contents` is what
        memory holds at power-up. */
    constructor (size: nat, contents: seq<Page>)
      requires KERNEL_FRAMES <= size && size + 256 == |contents| <= 0x100000
      ensures Shaped() && Boot(State()) && fresh(memoryMap) && fresh(phys)
      ensures startPage == 256 + (size + 256 + 4095) / 4096
    {
      var total := size + 256;
      var mapPages := (total + 4096 - 1) / 4096;
      var map8 := new Byte[total](i => 0);
      var start := 256 + mapPages;
      var i := 0;
      while i < start
        invariant 0 <= i <= start
        invariant forall f | 0 <= f < total :: map8[f] == if f < i then 1 else 0
      {
        map8[i] := 1;
        i := i + 1;
      }
      var memory := new Page[total](i requires 0 <= i < |contents| => contents[i]);
      var dir := ZeroPage();
      var index := 0;
      while index < KERNEL_FRAMES
        invariant 0 <= index <= KERNEL_FRAMES
        invariant forall f | 0 <= f < total :: map8[f] == if f < index || f < start then 1 else 0
        invariant forall d: Idx | KERNEL_SLOTS <= d :: !dir[d].present
      {
        if index % 1024 == 0 {
          dir := dir[index / 1024 := EntryInit(index / 1024 + 2).(user := false)];
        }
        map8[index] := 1;
        index := index + 1;
      }
      memory[KERNEL_DIRECTORY] := dir[SELF_SLOT := EntryInit(KERNEL_DIRECTORY)];
      memoryMap, phys := map8, memory;
      startPage := start;
      freePages := size - mapPages;
      tasks := map[];
    }

    /** A method that returned `r` and left memory `m` did what `spec` says. */
    static ghost predicate Follows(spec: Outcome<Mem>, r: Outcome<()>, m: Mem) {
      if spec.Halt? then r == Halt(OutOfMemory) else r.Done? && m == spec.value
    }

    // ---------- Frames ----------

    method GetPage() returns (r: Outcome<FrameNo>)
      requires Shaped()
      modifies this`freePages, memoryMap
      ensures PageTables.GetPage(old(M())).Halt? ==> r == Halt(OutOfMemory)
      ensures PageTables.GetPage(old(M())).Done? ==>
        var g := PageTables.GetPage(old(M())).value; r == Done(g.f) && M() == g.m
    {
      var i := startPage;
      while i < memoryMap.Length
        invariant startPage <= i <= memoryMap.Length
        invariant FirstFree(memoryMap[..], startPage) == FirstFree(memoryMap[..], i)
        invariant M() == old(M())
      {
        if memoryMap[i] == 0 {
          memoryMap[i] := 1;
          freePages := freePages - 1;
          assert memoryMap[..] == old(memoryMap[..])[i := 1];
          return Done(i);
        }
        i := i + 1;
      }
      return Halt(OutOfMemory);
    }

    /** The three assertions of `put_page` become the precondition that the function is done. */
    method PutPage(f: FrameNo)
      requires Shaped() && PageTables.PutPage(M(), f).Done?
      modifies this`freePages, memoryMap
      ensures M() == PageTables.PutPage(old(M()), f).value
    {
      assert f >= startPage && f < memoryMap.Length;
      assert memoryMap[f] >= 1;
      memoryMap[f] := memoryMap[f] - 1;
      if memoryMap[f] == 0 {
        freePages := freePages + 1;
      }
      assert freePages > 0 && freePages < memoryMap.Length;
      assert memoryMap[..] == old(memoryMap[..])[f := old(memoryMap[f]) - 1];
    }

    method CopyPage(src: FrameNo) returns (r: Outcome<FrameNo>)
      requires Shaped() && src < phys.Length
      modifies this`freePages, memoryMap, phys
      ensures PageTables.CopyPage(old(M()), src).Halt? ==> r == Halt(OutOfMemory)
      ensures PageTables.CopyPage(old(M()), src).Done? ==>
        var g := PageTables.CopyPage(old(M()), src).value; r == Done(g.f) && M() == g.m
    {
      r := GetPage();
      if r.Done? {
        phys[r.value] := phys[src];
        assert phys[..] == old(phys[..])[r.value := old(phys[src])];
      }
    }

    // ---------- Entries ----------

    /** `get_pte` with `create`, for the address space of task `p`. */
    method GetTable(p: nat, v: Vpn) returns (r: Outcome<()>)
      requires Shaped() && p in tasks && UserSlot(v / 1024) && Walks(M(), tasks[p].pde)
      modifies this`freePages, memoryMap, phys
      ensures Shaped() && Follows(PageTables.GetTable(old(M()), tasks[p].pde, v), r, M())
    {
      var pd := tasks[p].pde;
      if phys[pd][v / 1024].present {
        return Done(());
      }
      var g := GetPage();
      if g.Halt? {
        return Halt(g.why);
      }
      phys[pd] := phys[pd][v / 1024 := EntryInit(g.value)];
      phys[g.value] := ZeroPage();
      assert phys[..] == old(phys[..])[pd := old(phys[pd])[v / 1024 := EntryInit(g.value)]][g.value := ZeroPage()];
      return Done(());
    }

    /** Where a live task's directory is. */
    lemma Directory(p: nat)
      requires Shaped() && p in tasks
      requires Counts()
      ensures 256 <= tasks[p].pde < KERNEL_FRAMES <= phys.Length
      ensures forall d: Idx | HasTable(M(), tasks[p].pde, d) :: InUserFrames(phys[tasks[p].pde][d].index, phys.Length)
    {
      hide Pages, Tables;
      DirectoriesApart(M(), DirsOf(tasks));
      assert DirsOf(tasks)[p] == tasks[p].pde;
      forall d: Idx | HasTable(M(), tasks[p].pde, d)
        ensures InUserFrames(phys[tasks[p].pde][d].index, phys.Length)
      {
        TableFrame(M(), DirsOf(tasks), DirKey(p, d));
      }
    }

    method SetEntry(p: nat, v: Vpn, w: Word)
      requires Shaped() && p in tasks && tasks[p].pde < phys.Length
      requires phys[tasks[p].pde][v / 1024].index < phys.Length
      modifies phys
      ensures M() == old(M()).SetEntry(tasks[p].pde, v, w)
    {
      var table := phys[tasks[p].pde][v / 1024].index;
      phys[table] := phys[table][v % 1024 := w];
      assert phys[..] == old(phys[..])[table := old(phys[table])[v % 1024 := w]];
    }

    method LinkPage(p: nat, v: Vpn) returns (r: Outcome<()>)
      requires Shaped() && p in tasks && UserSlot(v / 1024) && Walks(M(), tasks[p].pde)
      modifies this`freePages, memoryMap, phys
      ensures Shaped() && Follows(PageTables.LinkPage(old(M()), tasks[p].pde, v), r, M())
      ensures r.Done? ==> Walks(M(), tasks[p].pde) && HasTable(M(), tasks[p].pde, v / 1024)
    {
      hide PageTables.GetTable;
      ghost var m, pd := M(), tasks[p].pde;
      r := GetTable(p, v);
      if r.Halt? {
        return;
      }
      TableWalks(m, pd, v);
      var table := phys[tasks[p].pde][v / 1024].index;
      if phys[table][v % 1024].present {
        assert M() == PageTables.LinkPage(m, pd, v).value;
        return;
      }
      assert !M().Entry(pd, v).present;
      var g := GetPage();
      if g.Halt? {
        return Halt(g.why);
      }
      SetEntry(p, v, EntryInit(g.value));
      assert M() == PageTables.LinkPage(m, pd, v).value;
      LinkWalks(m, pd, v);
    }

    method UnlinkPage(p: nat, v: Vpn)
      requires Shaped() && p in tasks && UserSlot(v / 1024)
      requires Counts()
      modifies this`freePages, memoryMap, phys
      ensures Shaped() && Counts() && Done(M()) == PageTables.UnlinkPage(old(M()), tasks[p].pde, v)
    {
      hide Core, Pages, Tables, PageTables.PutPage;
      UnlinkPageCore(M(), DirsOf(tasks), p, v);
      Directory(p);
      var dir := phys[tasks[p].pde];
      if !dir[v / 1024].present {
        return;
      }
      var entry := phys[dir[v / 1024].index][v % 1024];
      if !entry.present {
        return;
      }
      SetEntry(p, v, entry.(present := false));
      PutPage(entry.index);
    }

    /** The loop of `sys_brk` and `sys_munmap`. */
    method UnlinkRange(p: nat, v: nat, n: nat)
      requires Shaped() && p in tasks && USER_EXEC <= v && v + n <= STACK_TOP
      requires Counts()
      modifies this`freePages, memoryMap, phys
      ensures Shaped() && Counts() && Done(M()) == PageTables.UnlinkRange(old(M()), tasks[p].pde, v, n)
    {
      hide Core, Pages, Tables, PageTables.UnlinkPage;
      var i := 0;
      while i < n
        invariant 0 <= i <= n && Counts()
        invariant PageTables.UnlinkRange(old(M()), tasks[p].pde, v, n)
               == PageTables.UnlinkRange(M(), tasks[p].pde, v + i, n - i)
      {
        UnlinkPage(p, v + i);
        i := i + 1;
      }
    }

    /** One round of the loop of `sys_mmap`. */
    method MapPage(p: nat, v: Vpn, mode: Mode) returns (r: Outcome<()>)
      requires Shaped() && p in tasks && UserSlot(v / 1024) && Walks(M(), tasks[p].pde)
      modifies this`freePages, memoryMap, phys
      ensures Shaped() && Follows(PageTables.MapPage(old(M()), tasks[p].pde, v, mode), r, M())
      ensures r.Done? ==> Walks(M(), tasks[p].pde)
    {
      hide PageTables.LinkPage, Walks;
      r := LinkPage(p, v);
      if r.Halt? {
        return;
      }
      ghost var m := M();
      InWalk(m, tasks[p].pde, v);
      var entry := phys[phys[tasks[p].pde][v / 1024].index][v % 1024];
      entry := entry.(user := true, write := false, readonly := true);
      if mode.write {
        entry := entry.(readonly := false, write := true);
      }
      if mode.shared {
        entry := entry.(shared := true);
      }
      if mode.privat {
        entry := entry.(privat := true);
      }
      EntryWalks(m, tasks[p].pde, v, entry);
      SetEntry(p, v, entry);
      assert M() == PageTables.MapPage(old(M()), tasks[p].pde, v, mode).value;
    }

    method MapRange(p: nat, v: nat, n: nat, mode: Mode) returns (r: Outcome<()>)
      requires Shaped() && p in tasks && USER_EXEC <= v && v + n <= STACK_TOP && Walks(M(), tasks[p].pde)
      modifies this`freePages, memoryMap, phys
      ensures Shaped() && Follows(PageTables.MapRange(old(M()), tasks[p].pde, v, n, mode), r, M())
    {
      hide PageTables.MapPage, Walks;
      var i := 0;
      while i < n
        invariant 0 <= i <= n && Walks(M(), tasks[p].pde)
        invariant PageTables.MapRange(old(M()), tasks[p].pde, v, n, mode)
               == PageTables.MapRange(M(), tasks[p].pde, v + i, n - i, mode)
      {
        r := MapPage(p, v + i, mode);
        if r.Halt? {
          return;
        }
        i := i + 1;
      }
      return Done(());
    }

    // ---------- System calls ----------

    /** `sys_brk`; -1 when the growth is refused. */
    method SysBrk(p: nat, brk: nat) returns (r: Outcome<int>)
      requires Valid() && p in tasks
      modifies this, memoryMap, phys
      ensures DoBrk(old(State()), p, brk).Halt? ==> r == Halt(Rejected)
      ensures DoBrk(old(State()), p, brk).Done? ==>
        && Valid() && Done(State()) == DoBrk(old(State()), p, brk)
        && r == Done(if brk >= old(tasks[p].brk) && brk - old(tasks[p].brk) > old(freePages) then -1 else 0)
    {
      hide Core, Pages, Tables, BitsAgree, PageTables.UnlinkRange;
      StepFaithful(State(), Step.Brk(p, brk));
      BrkStep(State(), p, brk);
      if !(tasks[p].end <= brk <= USER_MMAP) {
        return Halt(Rejected);
      }
      var oldBrk := tasks[p].brk;
      if oldBrk > brk {
        UnlinkRange(p, brk, oldBrk - brk);
      } else if brk - oldBrk > freePages {
        return Done(-1);
      }
      tasks := tasks[p := tasks[p].(brk := brk)];
      return Done(0);
    }

    /** `sys_mmap` without a file, of any range; the bitmap is a sequence here (see
        `Bitmaps.Bitmap.Scan`). */
    method SysMmap(p: nat, addr: Vpn, n: nat, mode: Mode) returns (r: Outcome<nat>)
      requires Valid() && p in tasks
      modifies this, memoryMap, phys
      ensures DoMmap(old(State()), p, addr, n, mode).Halt? ==> r == Halt(DoMmap(old(State()), p, addr, n, mode).why)
      ensures DoMmap(old(State()), p, addr, n, mode).Done? ==>
        && r == MmapAt(old(tasks[p]), addr, n)
        && Shaped() && State() == DoMmap(old(State()), p, addr, n, mode).value
        && (Safe(old(State()), Step.Mmap(p, addr, n, mode)) ==> Valid())
    {
      hide Core, Pages, Tables, BitsAgree, PageTables.MapRange, RangeMappable, FirstRun, Walks;
      ghost var vm := State();
      if Safe(vm, Step.Mmap(p, addr, n, mode)) {
        StepFaithful(vm, Step.Mmap(p, addr, n, mode));
      }
      var at := MmapAt(tasks[p], addr, n);
      if at.Halt? {
        return Halt(at.why);
      }
      var v := at.value;
      if !(USER_MMAP <= v < STACK_BOTTOM) || v + n > STACK_TOP {
        return Halt(Rejected);
      }
      CoreWalks(M(), DirsOf(tasks), p);
      var done := MapRange(p, v, n, mode);
      if done.Halt? {
        MapRangeHalts(vm.m, vm.spaces[p].pde, v, n, mode);
        return Halt(done.why);
      }
      tasks := tasks[p := tasks[p].(vmap := SetRun(tasks[p].vmap, v - USER_MMAP, n, true))];
      return Done(v);
    }

    /** `sys_munmap`, of any range. */
    method SysMunmap(p: nat, addr: Vpn, n: nat) returns (r: Outcome<()>)
      requires Valid() && p in tasks
      modifies this, memoryMap, phys
      ensures DoMunmap(old(State()), p, addr, n).Halt? ==> r == Halt(Rejected)
      ensures DoMunmap(old(State()), p, addr, n).Done? ==>
        r.Done? && Valid() && Done(State()) == DoMunmap(old(State()), p, addr, n)
    {
      hide Core, Pages, Tables, BitsAgree, PageTables.UnlinkRange;
      StepFaithful(State(), Step.Munmap(p, addr, n));
      if !(USER_MMAP <= addr < STACK_BOTTOM) || addr + n > STACK_TOP || !TakenRun(tasks[p].vmap, addr - USER_MMAP, n) {
        return Halt(Rejected);
      }
      UnlinkRange(p, addr, n);
      tasks := tasks[p := tasks[p].(vmap := SetRun(tasks[p].vmap, addr - USER_MMAP, n, false))];
      return Done(());
    }

    /** The branch of `page_fault` for a write to a present page. */
    method CopyOnWrite(p: nat, v: Vpn) returns (r: Outcome<()>)
      requires Shaped() && p in tasks && HasPage(M(), tasks[p].pde, v)
      requires !M().Entry(tasks[p].pde, v).shared && !M().Entry(tasks[p].pde, v).readonly
      requires Counts()
      modifies this`freePages, memoryMap, phys
      ensures Shaped() && Follows(WriteFault(old(M()), tasks[p].pde, v), r, M())
      ensures r.Done? ==> Counts()
    {
      hide Core, Pages, Tables, Zeros, FlagsOk, SameData;
      ghost var dirs := DirsOf(tasks);
      Directory(p);
      WriteFaultCore(M(), dirs, p, v);
      PageThere(M(), dirs, PageKey(p, v));
      HeldIsCounted(M(), dirs, PageKey(p, v));
      var entry := phys[phys[tasks[p].pde][v / 1024].index][v % 1024];
      assert entry.present && !entry.shared && !entry.readonly;
      assert memoryMap[entry.index] > 0;
      if memoryMap[entry.index] == 1 {
        SetEntry(p, v, entry.(write := true));
        assert M() == WriteFault(old(M()), tasks[p].pde, v).value;
        return Done(());
      }
      GetPageCore(M(), dirs);
      var g := CopyPage(entry.index);
      if g.Halt? {
        return Halt(g.why);
      }
      assert g.value != tasks[p].pde && phys[tasks[p].pde] == old(phys[tasks[p].pde]);
      memoryMap[entry.index] := memoryMap[entry.index] - 1;
      SetEntry(p, v, EntryInit(g.value));
      assert M() == WriteFault(old(M()), tasks[p].pde, v).value;
      return Done(());
    }

    /** `page_fault`. */
    method PageFault(p: nat, v: Vpn, write: bool) returns (r: Outcome<()>)
      requires Valid() && p in tasks
      modifies this, memoryMap, phys
      ensures DoFault(old(State()), p, v, write).Halt? ==> r == Halt(DoFault(old(State()), p, v, write).why)
      ensures DoFault(old(State()), p, v, write).Done? ==>
        r.Done? && Valid() && State() == DoFault(old(State()), p, v, write).value
    {
      hide Core, Pages, Tables, BitsAgree, WriteFault, PageTables.LinkPage, PageTables.FreeDirectory;
      FaultStep(State(), p, v, write);
      ghost var vm := State();
      if DoFault(vm, p, v, write).Done? {
        FaultInv(vm, p, v, write);
      }
      if v < USER_EXEC || v >= STACK_TOP {
        TaskExit(p);
        return Done(());
      }
      Directory(p);
      var dir := phys[tasks[p].pde];
      if dir[v / 1024].present && phys[dir[v / 1024].index][v % 1024].present {
        var entry := phys[dir[v / 1024].index][v % 1024];
        if !write {
          return Halt(Rejected);
        }
        if entry.shared || entry.readonly {
          WriteFaultRejected(M(), tasks[p].pde, v);
          return Halt(Rejected);
        }
        r := CopyOnWrite(p, v);
        WriteFaultCore(vm.m, DirsOf(tasks), p, v);
        return;
      }
      if v < tasks[p].brk || v >= STACK_BOTTOM {
        LinkPageCore(M(), DirsOf(tasks), p, v);
        CoreWalks(M(), DirsOf(tasks), p);
        r := LinkPage(p, v);
        return;
      }
      return Halt(Rejected);
    }

    /** A user-mode write the processor permits. */
    method UserStore(p: nat, v: Vpn, offset: Idx, word: Word)
      requires Valid() && Enabled(State(), Step.Store(p, v, offset, word))
      modifies phys
      ensures Valid() && State() == DoStore(old(State()), p, v, offset, word)
    {
      hide Core, Pages, Tables, BitsAgree;
      StepFaithful(State(), Step.Store(p, v, offset, word));
      Directory(p);
      PageThere(M(), DirsOf(tasks), PageKey(p, v));
      PageIndex(M(), DirsOf(tasks), PageKey(p, v));
      var f := phys[phys[tasks[p].pde][v / 1024].index][v % 1024].index;
      phys[f] := phys[f][offset := word];
      assert phys[..] == old(phys[..])[f := old(phys[f])[offset := word]];
    }

    // ---------- Fork and exit ----------

    /** The inner loop of `copy_pde`. */
    method ShareEntries(table: FrameNo)
      requires Shaped() && table < phys.Length
      requires PageTables.ShareEntries(memoryMap[..], phys[table], 0).Done?
      modifies memoryMap, phys
      ensures var s := PageTables.ShareEntries(old(memoryMap[..]), old(phys[table]), 0).value;
        M() == old(M()).(counts := s.counts).SetFrame(table, s.table)
    {
      var t := 0;
      while t < 1024
        invariant 0 <= t <= 1024
        invariant PageTables.ShareEntries(old(memoryMap[..]), old(phys[table]), 0)
               == PageTables.ShareEntries(memoryMap[..], phys[table], t)
        invariant phys[..] == old(phys[..])[table := phys[table]]
      {
        var entry := phys[table][t];
        if entry.present {
          assert memoryMap[entry.index] > 0;
          if !entry.shared {
            phys[table] := phys[table][t := entry.(write := false)];
          }
          ghost var counts := memoryMap[..];
          memoryMap[entry.index] := Increment(memoryMap[entry.index]);
          assert memoryMap[..] == counts[entry.index := Increment(counts[entry.index])];
          assert memoryMap[entry.index] < 255;
          assert phys[table] == phys[table][t := Protect(entry)];
        }
        t := t + 1;
      }
    }

    /** One round of the outer loop of `copy_pde`: share the table, copy it, and point the
        child's slot to the copy. */
    method CopySlot(d: Idx, pd: FrameNo, cd: FrameNo, ghost dirs: Dirs, ghost pages: map<PageKey, Word>,
                    ghost p: nat, ghost c: nat)
      returns (r: Outcome<()>)
      requires Shaped() && ForkAt(M(), dirs, pages, p, c, d) && UserSlot(d)
      requires pd == dirs[p] && cd == dirs[c] && M().Frame(cd)[d].present
      modifies this`freePages, memoryMap, phys
      ensures r.Halt? ==> r == Halt(OutOfMemory) && CopySlots(old(M()), pd, cd, d) == Halt(OutOfMemory)
      ensures r.Done? ==> ForkAt(M(), dirs, pages, p, c, d + 1)
      ensures r.Done? ==> CopySlots(old(M()), pd, cd, d) == CopySlots(M(), pd, cd, d + 1)
    {
      hide Core, Pages, Tables, Forked, CopySlots, Counted, ForkAt, PageTables.ShareEntries;
      ghost var was := M();
      ForkAtFrames(was, dirs, pages, p, c, d);
      SlotRound(was, dirs, pages, p, c, d);
      var table := phys[pd][d].index;
      ghost var s := PageTables.ShareEntries(was.counts, was.Frame(table), 0).value;
      ShareEntries(table);
      ghost var shared := M();
      SameFirstFree(was.counts, s.counts, was.start);
      var g := CopyPage(table);
      if g.Halt? {
        return Halt(g.why);
      }
      SlotCore(was, dirs, pages, p, c, d, s, g.value);
      ghost var before := M();
      assert before == shared.(counts := s.counts[g.value := 1], free := was.free - 1).SetFrame(g.value, s.table);
      phys[cd] := phys[cd][d := phys[cd][d].(index := g.value)];
      assert phys[..] == before.phys[cd := before.phys[cd][d := before.phys[cd][d].(index := g.value)]];
      SlotCopiedIs(was, shared, before, M(), dirs, pages, p, c, d, s, g.value);
      return Done(());
    }

    /** The outer loop of `copy_pde`: task `c` takes the kernel page `cd` for its directory. */
    method CopyDirectory(p: nat, c: nat, cd: FrameNo) returns (r: Outcome<()>)
      requires Shaped() && p in tasks && DirectoryPage(DirsOf(tasks), c, cd)
      requires Counts()
      modifies this`freePages, memoryMap, phys
      ensures Shaped() && Follows(PageTables.CopyDirectory(old(M()), tasks[p].pde, cd), r, M())
    {
      hide Core, Pages, Tables, Forked, CopySlots, Counted, ForkAt;
      ghost var m, dirs := M(), DirsOf(tasks);
      ghost var dirs', pages := dirs[c := cd], Pages(M(), dirs);
      var pd := tasks[p].pde;
      Directory(p);
      phys[cd] := phys[pd];
      phys[cd] := phys[cd][SELF_SLOT := EntryInit(cd)];
      assert phys[..] == old(phys[..])[cd := old(phys[pd])[SELF_SLOT := EntryInit(cd)]];
      ForkBegins(m, dirs, p, c, cd, M());
      var d := KERNEL_SLOTS;
      while d < SELF_SLOT
        invariant KERNEL_SLOTS <= d <= SELF_SLOT
        invariant ForkAt(M(), dirs', pages, p, c, d)
        invariant PageTables.CopyDirectory(m, pd, cd) == CopySlots(M(), pd, cd, d)
      {
        CopySlotsSkip(M(), pd, cd, d);
        if phys[cd][d].present {
          r := CopySlot(d, pd, cd, dirs', pages, p, c);
          if r.Halt? {
            return;
          }
        } else {
          SlotAbsent(M(), dirs', pages, p, c, d);
        }
        d := d + 1;
      }
      CopySlotsSkip(M(), pd, cd, d);
      return Done(());
    }

    /** The inner loop of `free_pde`; `table` is only read. */
    method PutEntries(table: FrameNo)
      requires Shaped() && table < phys.Length
      requires PageTables.PutEntries(M(), phys[table], 0).Done?
      modifies this`freePages, memoryMap
      ensures M() == PageTables.PutEntries(old(M()), phys[table], 0).value
    {
      hide PageTables.PutPage, PageTables.PutEntries;
      var t := 0;
      while t < 1024
        invariant 0 <= t <= 1024
        invariant PageTables.PutEntries(old(M()), phys[table], 0) == PageTables.PutEntries(M(), phys[table], t)
      {
        var entry := phys[table][t];
        PutEntriesRound(M(), phys[table], t);
        if entry.present {
          PutPage(entry.index);
        }
        t := t + 1;
      }
      PutEntriesOnce(M(), phys[table], t);
    }

    /** `free_pde` for task `p`. */
    method FreeDirectory(p: nat)
      requires Shaped() && p in tasks
      requires Counts()
      modifies this`freePages, memoryMap
      ensures Shaped() && Done(M()) == PageTables.FreeDirectory(old(M()), tasks[p].pde)
    {
      hide Core, Pages, Tables, PageTables.PutPage, PageTables.PutEntries, PutSlots;
      ghost var m := M();
      var pd := tasks[p].pde;
      Directory(p);
      FreeDirectoryCore(m, DirsOf(tasks), p);
      var d := KERNEL_SLOTS;
      while d < SELF_SLOT
        invariant KERNEL_SLOTS <= d <= SELF_SLOT
        invariant PutSlots(m, pd, KERNEL_SLOTS) == PutSlots(M(), pd, d)
      {
        PutSlotsRound(M(), pd, d);
        if phys[pd][d].present {
          assert HasTable(m, pd, d);
          var table := phys[pd][d].index;
          PutEntries(table);
          PutPage(table);
        }
        d := d + 1;
      }
      PutSlotsOnce(M(), pd, d);
    }

    /** The memory side of `task_to_user_mode`. */
    method TaskToUserMode(p: nat, cd: FrameNo) returns (r: Outcome<()>)
      requires Valid() && Enabled(State(), Step.Spawn(p, cd))
      modifies this, phys
      ensures r.Done? && Valid() && Done(State()) == DoSpawn(old(State()), p, cd)
    {
      hide Core, Pages, Tables, BitsAgree, CopySlots;
      StepFaithful(State(), Step.Spawn(p, cd));
      BootDirectory(M(), DirsOf(tasks));
      phys[cd] := phys[KERNEL_DIRECTORY][SELF_SLOT := EntryInit(cd)];
      assert phys[..] == old(phys[..])[cd := old(phys[KERNEL_DIRECTORY])[SELF_SLOT := EntryInit(cd)]];
      EmptyDirectory(old(M()), KERNEL_DIRECTORY, cd, M());
      tasks := tasks[p := NewSpace(cd)];
      return Done(());
    }

    /** The memory side of `task_fork`. */
    method TaskFork(p: nat, c: nat, cd: FrameNo) returns (r: Outcome<()>)
      requires Valid() && Enabled(State(), Step.Fork(p, c, cd))
      modifies this, memoryMap, phys
      ensures DoFork(old(State()), p, c, cd).Halt? ==> r == Halt(OutOfMemory)
      ensures DoFork(old(State()), p, c, cd).Done? ==>
        r.Done? && Valid() && State() == DoFork(old(State()), p, c, cd).value
    {
      hide Core, Pages, Tables, BitsAgree, PageTables.CopyDirectory;
      StepFaithful(State(), Step.Fork(p, c, cd));
      r := CopyDirectory(p, c, cd);
      if r.Halt? {
        return;
      }
      tasks := tasks[c := tasks[p].(pde := cd)];
    }

    /** The memory side of `task_exit`. */
    method TaskExit(p: nat)
      requires Valid() && p in tasks
      modifies this, memoryMap
      ensures Valid() && Done(State()) == DoExit(old(State()), p)
    {
      hide Core, Pages, Tables, BitsAgree, PageTables.FreeDirectory;
      StepFaithful(State(), Step.Exit(p));
      ExitStep(State(), p);
      FreeDirectory(p);
      tasks := tasks - {p};
    }
  }
}
