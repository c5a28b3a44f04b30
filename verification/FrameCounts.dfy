/** The counting and aliasing invariant of copy-on-write paging.  The nested tables are read
    as two flat maps, from (address space, directory slot) to the frame of a table and from
    (address space, page) to a page-table entry; the invariant is stated on those maps. */
module FrameCounts {
  import opened Collections
  import opened Unsigned
  import opened PageTables

  /** Directory slot `d` of the address space of task `p`. */
  datatype DirKey = DirKey(p: nat, d: Idx)
  /** Page `v` of the address space of task `p`. */
  datatype PageKey = PageKey(p: nat, v: Vpn)

  /** The page directory of every live address space. */
  type Dirs = map<nat, FrameNo>

  predicate UserSlot(d: Idx) {
    KERNEL_SLOTS <= d < SELF_SLOT
  }

  predicate HasTable(m: Mem, pd: FrameNo, d: Idx) {
    UserSlot(d) && m.Frame(pd)[d].present
  }

  predicate HasPage(m: Mem, pd: FrameNo, v: Vpn) {
    HasTable(m, pd, v / 1024) && m.Entry(pd, v).present
  }

  ghost function DirKeys(dirs: Dirs): (ks: set<DirKey>)
    ensures forall k: DirKey :: k in ks <==> k.p in dirs
  {
    var ks := set p, d: Idx | p in dirs && 0 <= d < 1024 :: DirKey(p, d);
    assert forall k: DirKey :: k == DirKey(k.p, k.d);
    ks
  }

  ghost function PageKeys(dirs: Dirs): (ks: set<PageKey>)
    ensures forall k: PageKey :: k in ks <==> k.p in dirs
  {
    var ks := set p, v: Vpn | p in dirs && 0 <= v < 0x100000 :: PageKey(p, v);
    assert forall k: PageKey :: k == PageKey(k.p, k.v);
    ks
  }

  /** The present user directory entries of all address spaces. */
  ghost function Tables(m: Mem, dirs: Dirs): map<DirKey, FrameNo> {
    map k | k in DirKeys(dirs) && HasTable(m, dirs[k.p], k.d) :: m.Frame(dirs[k.p])[k.d].index
  }

  /** The present user page-table entries of all address spaces. */
  ghost function Pages(m: Mem, dirs: Dirs): map<PageKey, Word> {
    map k | k in PageKeys(dirs) && HasPage(m, dirs[k.p], k.v) :: m.Entry(dirs[k.p], k.v)
  }

  lemma TableThere(m: Mem, dirs: Dirs, k: DirKey)
    requires k.p in dirs
    ensures k in Tables(m, dirs) <==> HasTable(m, dirs[k.p], k.d)
    ensures k in Tables(m, dirs) ==> Tables(m, dirs)[k] == m.Frame(dirs[k.p])[k.d].index
  {
  }

  lemma PageThere(m: Mem, dirs: Dirs, k: PageKey)
    requires k.p in dirs
    ensures k in Pages(m, dirs) <==> HasPage(m, dirs[k.p], k.v)
    ensures k in Pages(m, dirs) ==> Pages(m, dirs)[k] == m.Entry(dirs[k.p], k.v)
  {
  }

  lemma TablesKeys(m: Mem, dirs: Dirs)
    ensures forall k | k in Tables(m, dirs) :: k.p in dirs
  {
  }

  lemma PagesKeys(m: Mem, dirs: Dirs)
    ensures forall k | k in Pages(m, dirs) :: k.p in dirs
  {
  }

  ghost function TableRefs(tables: map<DirKey, FrameNo>, f: FrameNo): set<DirKey> {
    set k | k in tables && tables[k] == f
  }

  ghost function PageRefs(pages: map<PageKey, Word>, f: FrameNo): set<PageKey> {
    set k | k in pages && pages[k].index == f
  }

  /** The frames on which `memory_map` is zero. */
  ghost function Zeros(counts: seq<Byte>): set<nat> {
    set f | 0 <= f < |counts| && counts[f] == 0
  }

  // ---------- The invariant ----------

  predicate InUserFrames(f: FrameNo, n: nat) {
    KERNEL_FRAMES <= f < n
  }

  /** `memory_map` counts, for each user frame, the entries that hold it. */
  ghost predicate Counted(counts: seq<Byte>, tables: map<DirKey, FrameNo>, pages: map<PageKey, Word>) {
    forall f: FrameNo | InUserFrames(f, |counts|) ::
      counts[f] == |TableRefs(tables, f)| + |PageRefs(pages, f)|
  }

  /** Each table belongs to one directory slot and is nobody's page. */
  ghost predicate TablesOwned(n: nat, tables: map<DirKey, FrameNo>, pages: map<PageKey, Word>) {
    && (forall k | k in tables :: InUserFrames(tables[k], n))
    && (forall k, l | k in tables && l in tables && k != l :: tables[k] != tables[l])
    && (forall k, l | k in tables && l in pages :: tables[k] != pages[l].index)
  }

  /** The flag bits of one entry.  A shared page that may be written is always writable, so
      it never faults. */
  predicate FlagsOk(w: Word) {
    && w.present && w.user
    && (w.readonly ==> !w.write)
    && (w.shared && !w.readonly ==> w.write)
  }

  /** Two entries may hold the same frame: both shared, or neither shared nor writable. */
  predicate MayAlias(a: Word, b: Word) {
    a.shared == b.shared && (!a.shared ==> !a.write && !b.write)
  }

  ghost predicate PagesSafe(n: nat, pages: map<PageKey, Word>) {
    && (forall k | k in pages :: InUserFrames(pages[k].index, n) && FlagsOk(pages[k]))
    && (forall k, l | k in pages && l in pages && k != l && pages[k].index == pages[l].index ::
          k.p != l.p && MayAlias(pages[k], pages[l]))
  }

  /** The kernel's own frames: always counted, and the place of the page directories. */
  ghost predicate KernelFrames(m: Mem, dirs: Dirs)
    requires Layout(m)
  {
    && (forall f | 0 <= f < KERNEL_FRAMES :: m.counts[f] != 0)
    && (forall p | p in dirs :: 256 <= dirs[p] < KERNEL_FRAMES)
    && (forall p, q | p in dirs && q in dirs && p != q :: dirs[p] != dirs[q])
    && (forall d: Idx | UserSlot(d) :: !m.Frame(KERNEL_DIRECTORY)[d].present)
    && (forall p, d: Idx | p in dirs && HasTable(m, dirs[p], d) ::
          var w := m.Frame(dirs[p])[d]; w.write && w.user)
  }

  /** At most `TASK_NR` tasks exist. */
  predicate FewTasks(dirs: Dirs) {
    forall p | p in dirs :: p < 64
  }

  /** Sizes as `memory_map_init` leaves them: `start_page` comes after the first megabyte and
      the pages of `memory_map` itself, and memory is larger than the kernel. */
  predicate Layout(m: Mem) {
    m.Sized() && KERNEL_FRAMES <= |m.counts| && 256 < m.start <= 512
  }

  /** `free_pages` exceeds the number of zero counts by a constant: `mapping_init` marks the
      kernel's frames used without taking them off. */
  ghost predicate FreeExact(m: Mem) {
    m.free == |Zeros(m.counts)| + KERNEL_FRAMES - m.start
  }

  ghost predicate Core(m: Mem, dirs: Dirs) {
    && Layout(m)
    && KernelFrames(m, dirs)
    && FewTasks(dirs)
    && FreeExact(m)
    && TablesOwned(|m.counts|, Tables(m, dirs), Pages(m, dirs))
    && PagesSafe(|m.counts|, Pages(m, dirs))
    && Counted(m.counts, Tables(m, dirs), Pages(m, dirs))
  }

  // ---------- Single updates ----------

  lemma SamePhys(m: Mem, n: Mem, dirs: Dirs)
    requires m.phys == n.phys
    ensures Tables(m, dirs) == Tables(n, dirs)
    ensures Pages(m, dirs) == Pages(n, dirs)
  {
    hide Pages, Tables;
    TablesKeys(m, dirs);
    TablesKeys(n, dirs);
    PagesKeys(m, dirs);
    PagesKeys(n, dirs);
    forall k: DirKey | k.p in dirs
      ensures k in Tables(n, dirs) <==> k in Tables(m, dirs)
      ensures k in Tables(n, dirs) ==> Tables(n, dirs)[k] == Tables(m, dirs)[k]
    {
      TableThere(m, dirs, k);
      TableThere(n, dirs, k);
    }
    forall k: PageKey | k.p in dirs
      ensures k in Pages(n, dirs) <==> k in Pages(m, dirs)
      ensures k in Pages(n, dirs) ==> Pages(n, dirs)[k] == Pages(m, dirs)[k]
    {
      PageThere(m, dirs, k);
      PageThere(n, dirs, k);
    }
  }

  /** Where the tables are: enough to know what writing one entry changes. */
  ghost predicate Separated(m: Mem, dirs: Dirs) {
    var tables := Tables(m, dirs);
    && Layout(m)
    && (forall p | p in dirs :: dirs[p] < KERNEL_FRAMES)
    && (forall k | k in tables :: InUserFrames(tables[k], |m.counts|))
    && (forall k, l | k in tables && l in tables && k != l :: tables[k] != tables[l])
  }

  lemma DirectoryAfter(m: Mem, dirs: Dirs, p: nat, v: Vpn, w: Word)
    requires Separated(m, dirs) && p in dirs && HasTable(m, dirs[p], v / 1024)
    ensures var n := m.SetEntry(dirs[p], v, w);
      forall f: FrameNo | f != Tables(m, dirs)[DirKey(p, v / 1024)] :: n.Frame(f) == m.Frame(f)
    ensures Tables(m.SetEntry(dirs[p], v, w), dirs) == Tables(m, dirs)
  {
    var n := m.SetEntry(dirs[p], v, w);
    assert DirKey(p, v / 1024) in Tables(m, dirs);
    forall q | q in dirs ensures n.Frame(dirs[q]) == m.Frame(dirs[q]) {
    }
    assert forall k | k in DirKeys(dirs) :: HasTable(n, dirs[k.p], k.d) == HasTable(m, dirs[k.p], k.d);
  }

  lemma EntryAfter(m: Mem, dirs: Dirs, p: nat, v: Vpn, w: Word, q: nat, u: Vpn)
    requires Separated(m, dirs) && p in dirs && q in dirs
    requires HasTable(m, dirs[p], v / 1024) && HasTable(m, dirs[q], u / 1024)
    ensures m.SetEntry(dirs[p], v, w).Entry(dirs[q], u)
         == if PageKey(q, u) == PageKey(p, v) then w else m.Entry(dirs[q], u)
  {
    var here, there := DirKey(p, v / 1024), DirKey(q, u / 1024);
    assert here in Tables(m, dirs) && there in Tables(m, dirs);
    if here != there {
      assert Tables(m, dirs)[there] != Tables(m, dirs)[here];
    }
  }

  lemma PageAfter(m: Mem, dirs: Dirs, p: nat, v: Vpn, w: Word, k: PageKey)
    requires Separated(m, dirs) && p in dirs && k.p in dirs && HasTable(m, dirs[p], v / 1024)
    ensures var n := m.SetEntry(dirs[p], v, w);
      && (HasPage(n, dirs[k.p], k.v) <==> if k == PageKey(p, v) then w.present else HasPage(m, dirs[k.p], k.v))
      && (HasPage(n, dirs[k.p], k.v) ==>
            n.Entry(dirs[k.p], k.v) == if k == PageKey(p, v) then w else m.Entry(dirs[k.p], k.v))
  {
    var n := m.SetEntry(dirs[p], v, w);
    DirectoryAfter(m, dirs, p, v, w);
    var key := DirKey(k.p, k.v / 1024);
    assert key in DirKeys(dirs);
    assert key in Tables(n, dirs) <==> key in Tables(m, dirs);
    if HasTable(m, dirs[k.p], k.v / 1024) {
      EntryAfter(m, dirs, p, v, w, k.p, k.v);
    }
  }

  /** A map that differs from another at one key. */
  ghost predicate ChangedAt(was: map<PageKey, Word>, now: map<PageKey, Word>, here: PageKey, w: Word) {
    forall k: PageKey ::
      && (k in now <==> if k == here then w.present else k in was)
      && (k in now ==> now[k] == if k == here then w else was[k])
  }

  lemma ChangedMap(was: map<PageKey, Word>, now: map<PageKey, Word>, here: PageKey, w: Word)
    requires ChangedAt(was, now, here, w)
    ensures now == if w.present then was[here := w] else was - {here}
  {
  }

  lemma PagesChangedAt(m: Mem, dirs: Dirs, p: nat, v: Vpn, w: Word)
    requires Separated(m, dirs) && p in dirs && HasTable(m, dirs[p], v / 1024)
    ensures ChangedAt(Pages(m, dirs), Pages(m.SetEntry(dirs[p], v, w), dirs), PageKey(p, v), w)
  {
    forall k: PageKey | k.p in dirs {
      PageAfter(m, dirs, p, v, w, k);
    }
  }

  /** Writing one page-table entry changes that entry and nothing else. */
  lemma SetEntryEffect(m: Mem, dirs: Dirs, p: nat, v: Vpn, w: Word)
    requires Separated(m, dirs) && p in dirs && HasTable(m, dirs[p], v / 1024)
    ensures var n := m.SetEntry(dirs[p], v, w);
      && Tables(n, dirs) == Tables(m, dirs)
      && Pages(n, dirs) == if w.present then Pages(m, dirs)[PageKey(p, v) := w] else Pages(m, dirs) - {PageKey(p, v)}
  {
    DirectoryAfter(m, dirs, p, v, w);
    PagesChangedAt(m, dirs, p, v, w);
    ChangedMap(Pages(m, dirs), Pages(m.SetEntry(dirs[p], v, w), dirs), PageKey(p, v), w);
  }

  /** Memory after `get_pte` hung the empty table `f` on directory slot `d`. */
  function WithTable(m: Mem, pd: FrameNo, d: Idx, f: FrameNo): Mem {
    m.SetFrame(pd, m.Frame(pd)[d := EntryInit(f)]).SetFrame(f, ZeroPage())
  }

  ghost predicate NewTable(m: Mem, dirs: Dirs, p: nat, d: Idx, f: FrameNo) {
    && Separated(m, dirs) && p in dirs && UserSlot(d) && !HasTable(m, dirs[p], d)
    && (forall q | q in dirs && q != p :: dirs[q] != dirs[p])
    && InUserFrames(f, |m.counts|)
    && (forall k | k in Tables(m, dirs) :: Tables(m, dirs)[k] != f)
  }

  lemma NewTableEntry(m: Mem, dirs: Dirs, p: nat, d: Idx, f: FrameNo, k: PageKey)
    requires NewTable(m, dirs, p, d, f) && k.p in dirs
    ensures var n := WithTable(m, dirs[p], d, f);
      && HasPage(n, dirs[k.p], k.v) == HasPage(m, dirs[k.p], k.v)
      && (HasPage(n, dirs[k.p], k.v) ==> n.Entry(dirs[k.p], k.v) == m.Entry(dirs[k.p], k.v))
  {
    var there := DirKey(k.p, k.v / 1024);
    if there != DirKey(p, d) && HasTable(m, dirs[k.p], k.v / 1024) {
      assert there in Tables(m, dirs) && Tables(m, dirs)[there] != f;
    }
  }

  /** A new empty table adds one directory entry and no page. */
  lemma NewTableEffect(m: Mem, dirs: Dirs, p: nat, d: Idx, f: FrameNo)
    requires NewTable(m, dirs, p, d, f)
    ensures var n := WithTable(m, dirs[p], d, f);
      && Tables(n, dirs) == Tables(m, dirs)[DirKey(p, d) := f]
      && Pages(n, dirs) == Pages(m, dirs)
  {
    hide Pages, Tables;
    var n := WithTable(m, dirs[p], d, f);
    TablesKeys(m, dirs);
    TablesKeys(n, dirs);
    PagesKeys(m, dirs);
    PagesKeys(n, dirs);
    forall k: DirKey | k.p in dirs
      ensures k in Tables(n, dirs) <==> k in Tables(m, dirs)[DirKey(p, d) := f]
      ensures k in Tables(n, dirs) ==> Tables(n, dirs)[k] == Tables(m, dirs)[DirKey(p, d) := f][k]
    {
      TableThere(m, dirs, k);
      TableThere(n, dirs, k);
    }
    forall k: PageKey | k.p in dirs
      ensures k in Pages(n, dirs) <==> k in Pages(m, dirs)
      ensures k in Pages(n, dirs) ==> Pages(n, dirs)[k] == Pages(m, dirs)[k]
    {
      PageThere(m, dirs, k);
      PageThere(n, dirs, k);
      NewTableEntry(m, dirs, p, d, f, k);
    }
  }

  lemma SetDataEntry(m: Mem, dirs: Dirs, f: FrameNo, page: Page, k: PageKey)
    requires Separated(m, dirs) && InUserFrames(f, |m.counts|) && k.p in dirs
    requires forall l | l in Tables(m, dirs) :: Tables(m, dirs)[l] != f
    ensures var n := m.SetFrame(f, page);
      && HasPage(n, dirs[k.p], k.v) == HasPage(m, dirs[k.p], k.v)
      && (HasPage(m, dirs[k.p], k.v) ==> n.Entry(dirs[k.p], k.v) == m.Entry(dirs[k.p], k.v))
  {
    assert k.p in dirs && HasTable(m, dirs[k.p], k.v / 1024) ==> DirKey(k.p, k.v / 1024) in Tables(m, dirs);
  }

  /** Changing the words of a frame that is no directory and no table changes no entry. */
  lemma SetDataEffect(m: Mem, dirs: Dirs, f: FrameNo, page: Page)
    requires Separated(m, dirs) && InUserFrames(f, |m.counts|)
    requires forall k | k in Tables(m, dirs) :: Tables(m, dirs)[k] != f
    ensures Tables(m.SetFrame(f, page), dirs) == Tables(m, dirs)
    ensures Pages(m.SetFrame(f, page), dirs) == Pages(m, dirs)
  {
    hide Pages, Tables;
    var n := m.SetFrame(f, page);
    TablesKeys(m, dirs);
    TablesKeys(n, dirs);
    PagesKeys(m, dirs);
    PagesKeys(n, dirs);
    forall k: DirKey | k.p in dirs
      ensures k in Tables(n, dirs) <==> k in Tables(m, dirs)
      ensures k in Tables(n, dirs) ==> Tables(n, dirs)[k] == Tables(m, dirs)[k]
    {
      TableThere(m, dirs, k);
      TableThere(n, dirs, k);
    }
    forall k: PageKey | k.p in dirs
      ensures k in Pages(n, dirs) <==> k in Pages(m, dirs)
      ensures k in Pages(n, dirs) ==> Pages(n, dirs)[k] == Pages(m, dirs)[k]
    {
      PageThere(m, dirs, k);
      PageThere(n, dirs, k);
      SetDataEntry(m, dirs, f, page, k);
    }
  }

  // ---------- Counting ----------

  lemma FreshFrame(counts: seq<Byte>, tables: map<DirKey, FrameNo>, pages: map<PageKey, Word>, f: FrameNo)
    requires Counted(counts, tables, pages) && InUserFrames(f, |counts|) && counts[f] == 0
    ensures forall k | k in tables :: tables[k] != f
    ensures forall k | k in pages :: pages[k].index != f
  {
    assert |TableRefs(tables, f)| == |PageRefs(pages, f)| == 0;
    assert forall k | k in tables && tables[k] == f :: k in TableRefs(tables, f);
    assert forall k | k in pages && pages[k].index == f :: k in PageRefs(pages, f);
  }

  lemma CountNewTable(counts: seq<Byte>, tables: map<DirKey, FrameNo>, pages: map<PageKey, Word>, k: DirKey, f: FrameNo)
    requires Counted(counts, tables, pages) && InUserFrames(f, |counts|) && counts[f] == 0 && k !in tables
    ensures Counted(counts[f := 1], tables[k := f], pages)
  {
    FreshFrame(counts, tables, pages, f);
    forall g: FrameNo | InUserFrames(g, |counts|)
      ensures TableRefs(tables[k := f], g) == if g == f then {k} else TableRefs(tables, g)
    {
    }
  }

  lemma PageAdded(pages: map<PageKey, Word>, k: PageKey, w: Word, g: FrameNo)
    requires k !in pages
    ensures |PageRefs(pages[k := w], g)| == |PageRefs(pages, g)| + if g == w.index then 1 else 0
  {
    if g == w.index {
      assert PageRefs(pages[k := w], g) == PageRefs(pages, g) + {k};
    } else {
      assert PageRefs(pages[k := w], g) == PageRefs(pages, g);
    }
  }

  lemma PageRemoved(pages: map<PageKey, Word>, k: PageKey, g: FrameNo)
    requires k in pages
    ensures |PageRefs(pages - {k}, g)| == |PageRefs(pages, g)| - if g == pages[k].index then 1 else 0
  {
    if g == pages[k].index {
      assert PageRefs(pages - {k}, g) == PageRefs(pages, g) - {k};
    } else {
      assert PageRefs(pages - {k}, g) == PageRefs(pages, g);
    }
  }

  lemma CountNewPage(counts: seq<Byte>, tables: map<DirKey, FrameNo>, pages: map<PageKey, Word>, k: PageKey, w: Word)
    requires Counted(counts, tables, pages) && InUserFrames(w.index, |counts|) && counts[w.index] < 255 && k !in pages
    ensures Counted(counts[w.index := counts[w.index] + 1], tables, pages[k := w])
  {
    hide PageRefs, TableRefs;
    forall g: FrameNo | InUserFrames(g, |counts|)
      ensures |PageRefs(pages[k := w], g)| == |PageRefs(pages, g)| + if g == w.index then 1 else 0
    {
      PageAdded(pages, k, w, g);
    }
  }

  lemma CountGonePage(counts: seq<Byte>, tables: map<DirKey, FrameNo>, pages: map<PageKey, Word>, k: PageKey)
    requires Counted(counts, tables, pages) && k in pages && InUserFrames(pages[k].index, |counts|)
    ensures var f := pages[k].index;
      0 < counts[f] && Counted(counts[f := counts[f] - 1], tables, pages - {k})
  {
    var f := pages[k].index;
    assert k in PageRefs(pages, f);
    forall g: FrameNo | InUserFrames(g, |counts|)
      ensures |PageRefs(pages - {k}, g)| == |PageRefs(pages, g)| - if g == f then 1 else 0
    {
      PageRemoved(pages, k, g);
    }
  }

  lemma CountGoneTable(counts: seq<Byte>, tables: map<DirKey, FrameNo>, pages: map<PageKey, Word>, k: DirKey)
    requires Counted(counts, tables, pages) && k in tables && InUserFrames(tables[k], |counts|)
    ensures var f := tables[k];
      0 < counts[f] && Counted(counts[f := counts[f] - 1], tables - {k}, pages)
  {
    var f := tables[k];
    assert k in TableRefs(tables, f);
    forall g: FrameNo | InUserFrames(g, |counts|)
      ensures |TableRefs(tables - {k}, g)| == |TableRefs(tables, g)| - if g == f then 1 else 0
    {
      if g == f {
        assert TableRefs(tables - {k}, g) == TableRefs(tables, g) - {k};
      } else {
        assert TableRefs(tables - {k}, g) == TableRefs(tables, g);
      }
    }
  }

  /** Changing the flags of an entry, not its frame, changes no count. */
  lemma CountSamePage(counts: seq<Byte>, tables: map<DirKey, FrameNo>, pages: map<PageKey, Word>, k: PageKey, w: Word)
    requires Counted(counts, tables, pages) && k in pages && pages[k].index == w.index
    ensures Counted(counts, tables, pages[k := w])
  {
    forall g: FrameNo | InUserFrames(g, |counts|)
      ensures PageRefs(pages[k := w], g) == PageRefs(pages, g)
    {
    }
  }

  lemma ZerosAfter(counts: seq<Byte>, f: nat, c: Byte)
    requires f < |counts|
    ensures |Zeros(counts[f := c])| == |Zeros(counts)| + (if c == 0 then 1 else 0) - (if counts[f] == 0 then 1 else 0)
  {
    var rest := Zeros(counts) - {f};
    assert Zeros(counts) == if counts[f] == 0 then rest + {f} else rest;
    assert Zeros(counts[f := c]) == if c == 0 then rest + {f} else rest;
  }

  /** No address space holds a frame twice, so a frame has no more holders than there are
      tasks. */
  lemma HoldersFew(n: nat, dirs: Dirs, tables: map<DirKey, FrameNo>, pages: map<PageKey, Word>, f: FrameNo)
    requires TablesOwned(n, tables, pages) && PagesSafe(n, pages) && FewTasks(dirs)
    requires (forall k | k in tables :: k.p in dirs) && (forall k | k in pages :: k.p in dirs)
    ensures |TableRefs(tables, f)| + |PageRefs(pages, f)| <= |dirs| <= 64
  {
    FewKeys(dirs);
    var refs := PageRefs(pages, f);
    if TableRefs(tables, f) == {} {
      var holders := set k | k in refs :: k.p;
      SameSize(refs, holders);
      SubsetSize(holders, dirs.Keys);
    } else {
      var k :| k in TableRefs(tables, f);
      assert TableRefs(tables, f) == {k};
      assert refs == {};
      SubsetSize({k.p}, dirs.Keys);
    }
  }

  /** The `u8` counts never come near their limit, whatever has been done. */
  lemma CountsSmall(m: Mem, dirs: Dirs, f: FrameNo)
    requires Core(m, dirs) && InUserFrames(f, |m.counts|)
    ensures m.counts[f] <= |dirs| <= 64
  {
    HoldersFew(|m.counts|, dirs, Tables(m, dirs), Pages(m, dirs), f);
  }

  lemma {:induction false} SameSize(keys: set<PageKey>, holders: set<nat>)
    requires holders == set k | k in keys :: k.p
    requires forall k, l | k in keys && l in keys && k != l :: k.p != l.p
    ensures |keys| == |holders|
  {
    if keys == {} {
    } else {
      var k :| k in keys;
      assert holders - {k.p} == set l | l in keys - {k} :: l.p;
      SameSize(keys - {k}, holders - {k.p});
    }
  }

  /** The numbers below `n`. */
  ghost function Below(n: nat): (r: set<nat>)
    ensures |r| == n && forall k: nat :: k in r <==> k < n
  {
    if n == 0 then {} else Below(n - 1) + {n - 1}
  }

  lemma FewKeys(dirs: Dirs)
    requires FewTasks(dirs)
    ensures |dirs| <= 64
  {
    SubsetSize(dirs.Keys, Below(64));
  }
}
