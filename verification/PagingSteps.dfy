/** Each routine of src/kernel/memory.c keeps the counting and aliasing invariant. */
module PagingSteps {
  import opened Outcomes
  import opened Collections
  import opened Unsigned
  import opened PageTables
  import opened FrameCounts

  /** The contents of every mapped page are the same in both memories. */
  ghost predicate SameData(m: Mem, n: Mem, pages: map<PageKey, Word>) {
    forall k | k in pages :: n.Frame(pages[k].index) == m.Frame(pages[k].index)
  }

  /** No page lies in frame `f`. */
  ghost predicate Unheld(pages: map<PageKey, Word>, f: FrameNo) {
    forall k | k in pages :: pages[k].index != f
  }

  /** A step whose only effect on the pages is that page `k` has entry `w` afterwards. */
  ghost predicate Updated(m: Mem, n: Mem, dirs: Dirs, k: PageKey, w: Word) {
    && Core(n, dirs)
    && Pages(n, dirs) == Pages(m, dirs)[k := w]
    && SameData(m, n, Pages(m, dirs))
  }

  lemma KernelCounts(m: Mem, n: Mem, dirs: Dirs)
    requires Layout(m) && KernelFrames(m, dirs) && n.counts == m.counts
    ensures forall f | 0 <= f < KERNEL_FRAMES :: n.counts[f] != 0
  {
  }

  lemma GetPageCore(m: Mem, dirs: Dirs)
    requires Core(m, dirs)
    ensures GetPage(m).Halt? <==> Zeros(m.counts) == {}
    ensures GetPage(m).Halt? ==> GetPage(m).why == OutOfMemory
    ensures GetPage(m).Done? ==> var f := GetPage(m).value.f;
      && InUserFrames(f, |m.counts|) && m.counts[f] == 0
      && (forall k | k in Tables(m, dirs) :: Tables(m, dirs)[k] != f)
      && Unheld(Pages(m, dirs), f)
  {
    hide Tables, Pages, TablesOwned, PagesSafe, KernelFrames, Counted;
    KernelCounts(m, m, dirs);
    var f := FirstFree(m.counts, m.start);
    if f < |m.counts| {
      assert f in Zeros(m.counts);
      FreshFrame(m.counts, Tables(m, dirs), Pages(m, dirs), f);
    } else {
      assert Zeros(m.counts) == {};
    }
  }


  lemma NewTableKernel(m: Mem, dirs: Dirs, p: nat, d: Idx, f: FrameNo)
    requires Layout(m) && KernelFrames(m, dirs) && p in dirs && InUserFrames(f, |m.counts|)
    ensures KernelFrames(WithTable(m.(counts := m.counts[f := 1], free := m.free - 1), dirs[p], d, f), dirs)
  {
    var n := WithTable(m.(counts := m.counts[f := 1], free := m.free - 1), dirs[p], d, f);
    assert n.Frame(KERNEL_DIRECTORY) == m.Frame(KERNEL_DIRECTORY);
    forall q, e: Idx | q in dirs && HasTable(n, dirs[q], e)
      ensures n.Frame(dirs[q])[e].write && n.Frame(dirs[q])[e].user
    {
      assert n.Frame(dirs[q])[e] == if q == p && e == d then EntryInit(f) else m.Frame(dirs[q])[e];
      assert (q == p && e == d) || HasTable(m, dirs[q], e);
    }
  }

  lemma DirectoriesApart(m: Mem, dirs: Dirs)
    requires Core(m, dirs)
    ensures forall p | p in dirs :: 256 <= dirs[p] < KERNEL_FRAMES
    ensures forall p, q | p in dirs && q in dirs && p != q :: dirs[p] != dirs[q]
    ensures Separated(m, dirs)
  {
    hide Tables, Pages;
  }

  /** The routine's effect on the entries gives the invariant back. */
  lemma NewTableCore(m: Mem, dirs: Dirs, p: nat, v: Vpn, f: FrameNo, n: Mem)
    requires Core(m, dirs) && p in dirs && UserSlot(v / 1024) && !HasTable(m, dirs[p], v / 1024)
    requires InUserFrames(f, |m.counts|) && m.counts[f] == 0
    requires n == WithTable(m.(counts := m.counts[f := 1], free := m.free - 1), dirs[p], v / 1024, f)
    ensures Core(n, dirs) && HasTable(n, dirs[p], v / 1024)
    ensures Pages(n, dirs) == Pages(m, dirs) && SameData(m, n, Pages(m, dirs))
  {
    hide Tables, Pages, Counted, KernelFrames;
    DirectoriesApart(m, dirs);
    var m1 := m.(counts := m.counts[f := 1], free := m.free - 1);
    FreshFrame(m.counts, Tables(m, dirs), Pages(m, dirs), f);
    SamePhys(m, m1, dirs);
    NewTableEffect(m1, dirs, p, v / 1024, f);
    TableThere(m, dirs, DirKey(p, v / 1024));
    CountNewTable(m.counts, Tables(m, dirs), Pages(m, dirs), DirKey(p, v / 1024), f);
    ZerosAfter(m.counts, f, 1);
    NewTableKernel(m, dirs, p, v / 1024, f);
  }

  lemma GetTableCore(m: Mem, dirs: Dirs, p: nat, v: Vpn)
    requires Core(m, dirs) && p in dirs && UserSlot(v / 1024)
    ensures var r := GetTable(m, dirs[p], v);
      && (r.Halt? <==> !HasTable(m, dirs[p], v / 1024) && Zeros(m.counts) == {})
      && (r.Halt? ==> r.why == OutOfMemory)
      && (r.Done? ==>
            && Core(r.value, dirs)
            && HasTable(r.value, dirs[p], v / 1024)
            && Pages(r.value, dirs) == Pages(m, dirs)
            && SameData(m, r.value, Pages(m, dirs)))
  {
    hide Tables, Pages;
    GetPageCore(m, dirs);
    if !HasTable(m, dirs[p], v / 1024) && GetPage(m).Done? {
      var g := GetPage(m).value;
      NewTableCore(m, dirs, p, v, g.f, GetTable(m, dirs[p], v).value);
    }
  }

  // ---------- link_page and unlink_page ----------

  lemma SetEntryKernel(m: Mem, dirs: Dirs, p: nat, v: Vpn, w: Word)
    requires Core(m, dirs) && p in dirs && HasTable(m, dirs[p], v / 1024)
    ensures Separated(m, dirs)
    ensures KernelFrames(m.SetEntry(dirs[p], v, w), dirs)
  {
    var n := m.SetEntry(dirs[p], v, w);
    assert DirKey(p, v / 1024) in Tables(m, dirs);
    assert forall f: FrameNo | f < KERNEL_FRAMES :: n.Frame(f) == m.Frame(f);
    assert forall q, e: Idx | q in dirs && HasTable(n, dirs[q], e) :: HasTable(m, dirs[q], e);
  }

  /** Counts of user frames do not matter to the kernel's own frames. */
  lemma RecountKernel(m: Mem, n: Mem, dirs: Dirs)
    requires Layout(m) && Layout(n) && KernelFrames(m, dirs) && n.phys == m.phys
    requires forall f | 0 <= f < KERNEL_FRAMES :: n.counts[f] == m.counts[f]
    ensures KernelFrames(n, dirs)
  {
    assert forall f: FrameNo :: n.Frame(f) == m.Frame(f);
    assert forall p, d: Idx | p in dirs && HasTable(n, dirs[p], d) :: HasTable(m, dirs[p], d);
  }

  /** A write to a table leaves the contents of every page alone. */
  lemma SetEntryData(m: Mem, dirs: Dirs, p: nat, v: Vpn, w: Word)
    requires Core(m, dirs) && p in dirs && HasTable(m, dirs[p], v / 1024)
    ensures SameData(m, m.SetEntry(dirs[p], v, w), Pages(m, dirs))
  {
    assert DirKey(p, v / 1024) in Tables(m, dirs);
  }

  lemma SafeWithFresh(n: nat, tables: map<DirKey, FrameNo>, pages: map<PageKey, Word>, k: PageKey, w: Word)
    requires TablesOwned(n, tables, pages) && PagesSafe(n, pages) && InUserFrames(w.index, n) && FlagsOk(w)
    requires forall l | l in tables :: tables[l] != w.index
    requires forall l | l in pages :: pages[l].index != w.index
    ensures TablesOwned(n, tables, pages[k := w]) && PagesSafe(n, pages[k := w])
  {
  }

  lemma SafeWithout(n: nat, tables: map<DirKey, FrameNo>, pages: map<PageKey, Word>, k: PageKey)
    requires TablesOwned(n, tables, pages) && PagesSafe(n, pages)
    ensures TablesOwned(n, tables, pages - {k}) && PagesSafe(n, pages - {k})
  {
  }

  lemma PageIndex(m: Mem, dirs: Dirs, k: PageKey)
    requires Core(m, dirs) && k in Pages(m, dirs)
    ensures InUserFrames(Pages(m, dirs)[k].index, |m.counts|) && FlagsOk(Pages(m, dirs)[k])
    ensures forall l | l in Tables(m, dirs) :: Tables(m, dirs)[l] != Pages(m, dirs)[k].index
  {
    hide Pages, Tables;
  }

  /** Filling an absent entry with a frame just taken. */
  lemma AddPageCore(m: Mem, dirs: Dirs, p: nat, v: Vpn, w: Word, n: Mem)
    requires Core(m, dirs) && p in dirs && HasTable(m, dirs[p], v / 1024) && !HasPage(m, dirs[p], v)
    requires InUserFrames(w.index, |m.counts|) && m.counts[w.index] == 0 && FlagsOk(w)
    requires n == m.(counts := m.counts[w.index := 1], free := m.free - 1).SetEntry(dirs[p], v, w)
    ensures Core(n, dirs) && Pages(n, dirs) == Pages(m, dirs)[PageKey(p, v) := w]
    ensures SameData(m, n, Pages(m, dirs))
  {
    hide Tables, Pages, TablesOwned, PagesSafe, Counted, KernelFrames;
    var n1 := m.SetEntry(dirs[p], v, w);
    FreshFrame(m.counts, Tables(m, dirs), Pages(m, dirs), w.index);
    SafeWithFresh(|m.counts|, Tables(m, dirs), Pages(m, dirs), PageKey(p, v), w);
    KernelCounts(m, n1, dirs);
    SetEntryKernel(m, dirs, p, v, w);
    SetEntryData(m, dirs, p, v, w);
    SetEntryEffect(m, dirs, p, v, w);
    PageThere(m, dirs, PageKey(p, v));
    SamePhys(n1, n, dirs);
    RecountKernel(n1, n, dirs);
    CountNewPage(m.counts, Tables(m, dirs), Pages(m, dirs), PageKey(p, v), w);
    ZerosAfter(m.counts, w.index, 1);
  }

  /** What `link_page` does to the entry of an absent page. */
  ghost predicate NewlyLinked(m: Mem, dirs: Dirs, w: Word) {
    w == EntryInit(w.index) && Unheld(Pages(m, dirs), w.index)
  }

  lemma LinkPageCore(m: Mem, dirs: Dirs, p: nat, v: Vpn)
    requires Core(m, dirs) && p in dirs && UserSlot(v / 1024)
    ensures var r := LinkPage(m, dirs[p], v);
      && (r.Halt? ==> r.why == OutOfMemory)
      && (r.Done? ==>
            && HasPage(r.value, dirs[p], v)
            && Updated(m, r.value, dirs, PageKey(p, v), r.value.Entry(dirs[p], v))
            && (HasPage(m, dirs[p], v) ==> r.value == m)
            && (!HasPage(m, dirs[p], v) ==> NewlyLinked(m, dirs, r.value.Entry(dirs[p], v))))
  {
    hide Tables, Pages;
    GetTableCore(m, dirs, p, v);
    PageThere(m, dirs, PageKey(p, v));
    if GetTable(m, dirs[p], v).Done? {
      var m1 := GetTable(m, dirs[p], v).value;
      PageThere(m1, dirs, PageKey(p, v));
      GetPageCore(m1, dirs);
      if !m1.Entry(dirs[p], v).present && GetPage(m1).Done? {
        var f := GetPage(m1).value.f;
        var n := LinkPage(m, dirs[p], v).value;
        AddPageCore(m1, dirs, p, v, EntryInit(f), n);
        PageThere(n, dirs, PageKey(p, v));
      }
    }
  }

  /** Emptying an entry and giving its frame back. */
  lemma UnlinkPageCore(m: Mem, dirs: Dirs, p: nat, v: Vpn)
    requires Core(m, dirs) && p in dirs && UserSlot(v / 1024)
    ensures var r := UnlinkPage(m, dirs[p], v);
      && r.Done?
      && Core(r.value, dirs)
      && Pages(r.value, dirs) == Pages(m, dirs) - {PageKey(p, v)}
      && SameData(m, r.value, Pages(m, dirs))
  {
    hide Tables, Pages, TablesOwned, PagesSafe, Counted, KernelFrames;
    PageThere(m, dirs, PageKey(p, v));
    if HasPage(m, dirs[p], v) {
      var w := m.Entry(dirs[p], v);
      PageIndex(m, dirs, PageKey(p, v));
      SafeWithout(|m.counts|, Tables(m, dirs), Pages(m, dirs), PageKey(p, v));
      var n1 := m.SetEntry(dirs[p], v, w.(present := false));
      SetEntryKernel(m, dirs, p, v, w.(present := false));
      KernelCounts(m, n1, dirs);
      SetEntryData(m, dirs, p, v, w.(present := false));
      SetEntryEffect(m, dirs, p, v, w.(present := false));
      CountGonePage(m.counts, Tables(m, dirs), Pages(m, dirs), PageKey(p, v));
      PutPageDone(n1, w.index);
      var n := PutPage(n1, w.index).value;
      SamePhys(n1, n, dirs);
      RecountKernel(n1, n, dirs);
    }
  }

  /** The assertions of `put_page` hold for every counted user frame: `free_pages` is always
      above zero, because it also counts the kernel's frames. */
  lemma PutPageDone(m: Mem, f: FrameNo)
    requires Layout(m) && FreeExact(m) && InUserFrames(f, |m.counts|) && m.counts[f] > 0
    requires forall g | 0 <= g < KERNEL_FRAMES :: m.counts[g] != 0
    ensures var r := PutPage(m, f);
      && r.Done?
      && r.value == m.(counts := m.counts[f := m.counts[f] - 1], free := r.value.free)
      && FreeExact(r.value)
  {
    ZerosAfter(m.counts, f, m.counts[f] - 1);
    ZerosBound(m.counts[f := m.counts[f] - 1]);
  }

  lemma ZerosBound(counts: seq<Byte>)
    requires KERNEL_FRAMES <= |counts|
    requires forall g | 0 <= g < KERNEL_FRAMES :: counts[g] != 0
    ensures |Zeros(counts)| <= |counts| - KERNEL_FRAMES
  {
    hide Below;
    var user := Below(|counts|) - Below(KERNEL_FRAMES);
    assert Below(|counts|) == user + Below(KERNEL_FRAMES);
    SubsetSize(Zeros(counts), user);
  }

  // ---------- sys_mmap and page_fault ----------

  /** An entry may take the word `w` next to all other holders of its frame. */
  ghost predicate FitsIn(pages: map<PageKey, Word>, k: PageKey, w: Word) {
    forall l | l in pages && l != k && pages[l].index == w.index :: MayAlias(w, pages[l])
  }

  lemma SafeWithFlags(n: nat, tables: map<DirKey, FrameNo>, pages: map<PageKey, Word>, k: PageKey, w: Word)
    requires TablesOwned(n, tables, pages) && PagesSafe(n, pages)
    requires k in pages && pages[k].index == w.index && FlagsOk(w) && FitsIn(pages, k, w)
    ensures TablesOwned(n, tables, pages[k := w]) && PagesSafe(n, pages[k := w])
  {
  }

  /** Changing the flags of a present entry. */
  lemma SetFlagsCore(m: Mem, dirs: Dirs, p: nat, v: Vpn, w: Word)
    requires Core(m, dirs) && p in dirs && HasPage(m, dirs[p], v)
    requires w.index == m.Entry(dirs[p], v).index && FlagsOk(w) && FitsIn(Pages(m, dirs), PageKey(p, v), w)
    ensures Updated(m, m.SetEntry(dirs[p], v, w), dirs, PageKey(p, v), w)
  {
    hide Tables, Pages, TablesOwned, PagesSafe, Counted, KernelFrames, FitsIn;
    var n := m.SetEntry(dirs[p], v, w);
    PageThere(m, dirs, PageKey(p, v));
    SafeWithFlags(|m.counts|, Tables(m, dirs), Pages(m, dirs), PageKey(p, v), w);
    SetEntryKernel(m, dirs, p, v, w);
    SetEntryData(m, dirs, p, v, w);
    SetEntryEffect(m, dirs, p, v, w);
    CountSamePage(m.counts, Tables(m, dirs), Pages(m, dirs), PageKey(p, v), w);
  }

  /** A frame counted once has one holder. */
  lemma OnlyHolder(m: Mem, dirs: Dirs, k: PageKey, w: Word)
    requires Core(m, dirs) && k in Pages(m, dirs) && w.index == Pages(m, dirs)[k].index
    requires m.counts[w.index] <= 1
    ensures FitsIn(Pages(m, dirs), k, w)
  {
    hide Tables, Pages;
    var refs := PageRefs(Pages(m, dirs), w.index);
    forall l | l in Pages(m, dirs) && l != k && Pages(m, dirs)[l].index == w.index ensures false {
      SubsetSize({k, l}, refs);
    }
  }

  /** A page counted more than once has another holder. */
  lemma OtherHolder(m: Mem, dirs: Dirs, k: PageKey) returns (l: PageKey)
    requires Core(m, dirs) && k in Pages(m, dirs) && m.counts[Pages(m, dirs)[k].index] > 1
    ensures l in Pages(m, dirs) && l != k && Pages(m, dirs)[l].index == Pages(m, dirs)[k].index
  {
    hide Tables, Pages;
    var f := Pages(m, dirs)[k].index;
    var refs := PageRefs(Pages(m, dirs), f);
    assert TableRefs(Tables(m, dirs), f) == {};
    if refs - {k} == {} {
      SubsetSize(refs, {k});
      assert false;
    }
    l :| l in refs - {k};
  }

  /** When `sys_mmap` may take the page: it must not make a page that is privately shared
      by copy-on-write writable or shared. */
  predicate Mappable(m: Mem, pd: FrameNo, v: Vpn, mode: Mode)
    requires m.Sized()
  {
    HasPage(m, pd, v) && m.Entry(pd, v).index < |m.counts| && m.counts[m.Entry(pd, v).index] > 1 ==>
      m.Entry(pd, v).shared || (!mode.write && !mode.shared)
  }

  /** The entry `sys_mmap` leaves: the old one or a fresh one, with the requested flags. */
  ghost predicate MappedAs(m: Mem, dirs: Dirs, k: PageKey, mode: Mode, w: Word) {
    if k in Pages(m, dirs) then w == WithMode(Pages(m, dirs)[k], mode)
    else w == WithMode(EntryInit(w.index), mode) && Unheld(Pages(m, dirs), w.index)
  }

  lemma ModeFits(m: Mem, m1: Mem, dirs: Dirs, p: nat, v: Vpn, mode: Mode)
    requires Core(m, dirs) && p in dirs && Mappable(m, dirs[p], v, mode)
    requires HasPage(m1, dirs[p], v)
    requires Updated(m, m1, dirs, PageKey(p, v), m1.Entry(dirs[p], v))
    requires HasPage(m, dirs[p], v) ==> m1 == m
    requires !HasPage(m, dirs[p], v) ==> NewlyLinked(m, dirs, m1.Entry(dirs[p], v))
    ensures FitsIn(Pages(m1, dirs), PageKey(p, v), WithMode(m1.Entry(dirs[p], v), mode))
    ensures FlagsOk(WithMode(m1.Entry(dirs[p], v), mode))
    ensures MappedAs(m, dirs, PageKey(p, v), mode, WithMode(m1.Entry(dirs[p], v), mode))
    ensures PageKey(p, v) in Pages(m, dirs) ==> Pages(m, dirs)[PageKey(p, v)] == m1.Entry(dirs[p], v)
  {
    hide Tables, Pages;
    var k, w := PageKey(p, v), m1.Entry(dirs[p], v);
    PageThere(m, dirs, k);
    PageThere(m1, dirs, k);
    PageIndex(m1, dirs, k);
    if HasPage(m, dirs[p], v) && m.counts[w.index] <= 1 {
      OnlyHolder(m, dirs, k, WithMode(w, mode));
    }
  }

  lemma MapPageCore(m: Mem, dirs: Dirs, p: nat, v: Vpn, mode: Mode)
    requires Core(m, dirs) && p in dirs && UserSlot(v / 1024) && Mappable(m, dirs[p], v, mode)
    ensures var r := MapPage(m, dirs[p], v, mode);
      && (r.Halt? ==> r.why == OutOfMemory)
      && (r.Done? ==>
            && HasPage(r.value, dirs[p], v)
            && Updated(m, r.value, dirs, PageKey(p, v), r.value.Entry(dirs[p], v))
            && MappedAs(m, dirs, PageKey(p, v), mode, r.value.Entry(dirs[p], v)))
  {
    hide Tables, Pages, FitsIn, FlagsOk, Updated, NewlyLinked, MappedAs, HasPage, Mappable;
    LinkPageCore(m, dirs, p, v);
    if LinkPage(m, dirs[p], v).Done? {
      var m1 := LinkPage(m, dirs[p], v).value;
      var w := WithMode(m1.Entry(dirs[p], v), mode);
      ModeFits(m, m1, dirs, p, v, mode);
      UpdatedCore(m, m1, dirs, PageKey(p, v), m1.Entry(dirs[p], v));
      SetFlagsCore(m1, dirs, p, v, w);
      UpdatedTwice(m, m1, m1.SetEntry(dirs[p], v, w), dirs, PageKey(p, v), m1.Entry(dirs[p], v), w);
    }
  }

  lemma UpdatedCore(m: Mem, n: Mem, dirs: Dirs, k: PageKey, w: Word)
    requires Updated(m, n, dirs, k, w)
    ensures Core(n, dirs)
  {
  }

  lemma UpdatedTwice(m: Mem, m1: Mem, m2: Mem, dirs: Dirs, k: PageKey, w1: Word, w2: Word)
    requires Updated(m, m1, dirs, k, w1) && Updated(m1, m2, dirs, k, w2) && k.p in dirs
    requires k in Pages(m, dirs) ==> w1 == Pages(m, dirs)[k]
    ensures Updated(m, m2, dirs, k, w2) && HasPage(m2, dirs[k.p], k.v) && m2.Entry(dirs[k.p], k.v) == w2
  {
    hide Pages, Core;
    assert Pages(m, dirs)[k := w1][k := w2] == Pages(m, dirs)[k := w2];
    assert forall l | l in Pages(m, dirs) :: l in Pages(m1, dirs) && Pages(m1, dirs)[l].index == Pages(m, dirs)[l].index;
    PageThere(m2, dirs, k);
  }

  /** The guard is exact: taking any other page breaks copy-on-write. */
  lemma MapPageUnsafe(m: Mem, dirs: Dirs, p: nat, v: Vpn, mode: Mode)
    requires Core(m, dirs) && p in dirs && UserSlot(v / 1024) && !Mappable(m, dirs[p], v, mode)
    ensures MapPage(m, dirs[p], v, mode).Done? && !Core(MapPage(m, dirs[p], v, mode).value, dirs)
  {
    hide Tables, Pages;
    var k, w := PageKey(p, v), m.Entry(dirs[p], v);
    PageThere(m, dirs, k);
    var n := m.SetEntry(dirs[p], v, WithMode(w, mode));
    var l := OtherHolder(m, dirs, k);
    SetEntryKernel(m, dirs, p, v, WithMode(w, mode));
    SetEntryEffect(m, dirs, p, v, WithMode(w, mode));
    assert !MayAlias(Pages(n, dirs)[k], Pages(n, dirs)[l]);
  }

  /** A write to memory that is no directory and no table keeps the invariant. */
  lemma SetDataCore(m: Mem, dirs: Dirs, f: FrameNo, page: Page)
    requires Core(m, dirs) && InUserFrames(f, |m.counts|)
    requires forall k | k in Tables(m, dirs) :: Tables(m, dirs)[k] != f
    ensures var n := m.SetFrame(f, page);
      Core(n, dirs) && Tables(n, dirs) == Tables(m, dirs) && Pages(n, dirs) == Pages(m, dirs)
  {
    hide Tables, Pages, TablesOwned, PagesSafe, Counted;
    DirectoriesApart(m, dirs);
    SetDataEffect(m, dirs, f, page);
    var n := m.SetFrame(f, page);
    assert forall g: FrameNo | g < KERNEL_FRAMES :: n.Frame(g) == m.Frame(g);
    assert forall p, d: Idx | p in dirs && HasTable(n, dirs[p], d) :: HasTable(m, dirs[p], d);
  }

  /** Giving an entry another frame: the old one loses a holder and keeps others. */
  lemma MovePageCore(m: Mem, dirs: Dirs, p: nat, v: Vpn, w: Word, n: Mem)
    requires Core(m, dirs) && p in dirs && HasPage(m, dirs[p], v)
    requires InUserFrames(w.index, |m.counts|) && m.counts[w.index] == 0 && FlagsOk(w)
    requires var f := m.Entry(dirs[p], v).index;
      && f < |m.counts| && m.counts[f] > 1
      && n == m.(counts := m.counts[w.index := 1][f := m.counts[f] - 1], free := m.free - 1).SetEntry(dirs[p], v, w)
    ensures Updated(m, n, dirs, PageKey(p, v), w)
  {
    hide Tables, Pages, TablesOwned, PagesSafe, Counted, KernelFrames;
    var k, f := PageKey(p, v), m.Entry(dirs[p], v).index;
    var n1 := m.SetEntry(dirs[p], v, w);
    var tables, pages := Tables(m, dirs), Pages(m, dirs);
    PageThere(m, dirs, k);
    PageIndex(m, dirs, k);
    FreshFrame(m.counts, tables, pages, w.index);
    SafeWithout(|m.counts|, tables, pages, k);
    SafeWithFresh(|m.counts|, tables, pages - {k}, k, w);
    KernelCounts(m, n1, dirs);
    SetEntryKernel(m, dirs, p, v, w);
    SetEntryData(m, dirs, p, v, w);
    SetEntryEffect(m, dirs, p, v, w);
    SamePhys(n1, n, dirs);
    RecountKernel(n1, n, dirs);
    CountGonePage(m.counts, tables, pages, k);
    var counts := m.counts[f := m.counts[f] - 1];
    CountNewPage(counts, tables, pages - {k}, k, w);
    assert (pages - {k})[k := w] == pages[k := w];
    assert counts[w.index := counts[w.index] + 1] == n.counts;
    ZerosAfter(m.counts, f, m.counts[f] - 1);
    ZerosAfter(counts, w.index, 1);
  }

  /** Copy-on-write: the faulting page becomes writable, with the words it had. */
  lemma WriteFaultCore(m: Mem, dirs: Dirs, p: nat, v: Vpn)
    requires Core(m, dirs) && p in dirs && HasPage(m, dirs[p], v)
    requires !m.Entry(dirs[p], v).shared && !m.Entry(dirs[p], v).readonly
    ensures var r := WriteFault(m, dirs[p], v);
      && m.Entry(dirs[p], v).index < |m.counts|
      && (r.Halt? <==> m.counts[m.Entry(dirs[p], v).index] > 1 && Zeros(m.counts) == {})
      && (r.Halt? ==> r.why == OutOfMemory)
      && (r.Done? ==>
            var w := r.value.Entry(dirs[p], v);
            && HasPage(r.value, dirs[p], v)
            && Updated(m, r.value, dirs, PageKey(p, v), w)
            && w.write && !w.shared && !w.readonly
            && r.value.Frame(w.index) == m.Frame(m.Entry(dirs[p], v).index))
  {
    hide Tables, Pages, TablesOwned, PagesSafe, Counted, KernelFrames;
    var k, w := PageKey(p, v), m.Entry(dirs[p], v);
    PageThere(m, dirs, k);
    PageIndex(m, dirs, k);
    HeldIsCounted(m, dirs, k);
    if m.counts[w.index] == 1 {
      var n := m.SetEntry(dirs[p], v, w.(write := true));
      OnlyHolder(m, dirs, k, w.(write := true));
      SetFlagsCore(m, dirs, p, v, w.(write := true));
      PageThere(n, dirs, k);
    } else {
      GetPageCore(m, dirs);
      if GetPage(m).Done? {
        var f := GetPage(m).value.f;
        var n := WriteFault(m, dirs[p], v).value;
        SetDataCore(m, dirs, f, m.Frame(w.index));
        var m1 := m.SetFrame(f, m.Frame(w.index));
        PageThere(m1, dirs, k);
        MovePageCore(m1, dirs, p, v, EntryInit(f), n);
        PageThere(n, dirs, k);
        assert SameData(m, m1, Pages(m, dirs));
        TablesKept(m1, dirs, p, v, EntryInit(f), f);
      }
    }
  }

  lemma HeldIsCounted(m: Mem, dirs: Dirs, k: PageKey)
    requires Core(m, dirs) && k in Pages(m, dirs)
    ensures Pages(m, dirs)[k].index < |m.counts| && m.counts[Pages(m, dirs)[k].index] > 0
  {
    hide Tables, Pages;
    assert k in PageRefs(Pages(m, dirs), Pages(m, dirs)[k].index);
  }

  lemma TablesKept(m: Mem, dirs: Dirs, p: nat, v: Vpn, w: Word, f: FrameNo)
    requires Core(m, dirs) && p in dirs && HasTable(m, dirs[p], v / 1024)
    requires forall k | k in Tables(m, dirs) :: Tables(m, dirs)[k] != f
    ensures m.SetEntry(dirs[p], v, w).Frame(f) == m.Frame(f)
  {
    TableThere(m, dirs, DirKey(p, v / 1024));
  }
}
