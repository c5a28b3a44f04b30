/** `copy_pde` and `free_pde` keep the counting invariant: after a fork the child maps exactly
    the parent's pages, and an exit gives back exactly what the address space held. */
module ForkExit {
  import opened Outcomes
  import opened Unsigned
  import opened PageTables
  import opened FrameCounts
  import opened PagingSteps

  // ---------- What fork does to the entries ----------

  ghost function ForkKeys(pages: map<PageKey, Word>, p: nat, c: nat, limit: nat): (ks: set<PageKey>)
    ensures forall k: PageKey :: k in ks <==>
      k in pages || (k.p == c && k.v < limit && PageKey(p, k.v) in pages)
  {
    var ks := pages.Keys + set k | k in pages.Keys && k.p == p && k.v < limit :: PageKey(c, k.v);
    assert forall k: PageKey | k.p == c && k.v < limit && PageKey(p, k.v) in pages :: PageKey(c, PageKey(p, k.v).v) == k;
    ks
  }

  ghost function ForkWord(pages: map<PageKey, Word>, p: nat, c: nat, limit: nat, k: PageKey): Word
    requires k in ForkKeys(pages, p, c, limit)
  {
    if k !in pages then Protect(pages[PageKey(p, k.v)])
    else if k.p == p && k.v < limit then Protect(pages[k])
    else pages[k]
  }

  /** The entries when `copy_pde` has dealt with the pages of `p` below `limit`. */
  ghost function Forked(pages: map<PageKey, Word>, p: nat, c: nat, limit: nat): map<PageKey, Word> {
    map k | k in ForkKeys(pages, p, c, limit) :: ForkWord(pages, p, c, limit, k)
  }

  lemma ForkedAbsent(pages: map<PageKey, Word>, p: nat, c: nat, v: Vpn)
    requires PageKey(p, v) !in pages
    ensures Forked(pages, p, c, v + 1) == Forked(pages, p, c, v)
  {
    forall k: PageKey
      ensures k in ForkKeys(pages, p, c, v + 1) <==> k in ForkKeys(pages, p, c, v)
      ensures k in ForkKeys(pages, p, c, v) ==> ForkWord(pages, p, c, v + 1, k) == ForkWord(pages, p, c, v, k)
    {
      if k.v == v {
        assert PageKey(p, k.v) == PageKey(p, v);
      }
    }
  }

  lemma ForkedPresent(pages: map<PageKey, Word>, p: nat, c: nat, v: Vpn)
    requires PageKey(p, v) in pages && p != c && forall k | k in pages :: k.p != c
    ensures var w := Protect(pages[PageKey(p, v)]);
      && PageKey(p, v) in Forked(pages, p, c, v)
      && Forked(pages, p, c, v)[PageKey(p, v)] == pages[PageKey(p, v)]
      && PageKey(c, v) !in Forked(pages, p, c, v)
      && Forked(pages, p, c, v + 1) == Forked(pages, p, c, v)[PageKey(p, v) := w][PageKey(c, v) := w]
  {
    forall k: PageKey
      ensures k in ForkKeys(pages, p, c, v + 1) <==> k in ForkKeys(pages, p, c, v) || k == PageKey(c, v)
      ensures k in ForkKeys(pages, p, c, v) && k != PageKey(p, v) ==>
        ForkWord(pages, p, c, v + 1, k) == ForkWord(pages, p, c, v, k)
    {
      if k.v == v {
        assert k.p == p ==> k == PageKey(p, v);
        assert k.p == c ==> k == PageKey(c, v);
      }
    }
  }

  /** Sharing keeps the aliasing rules at every stage. */
  lemma ForkedSafe(n: nat, tables: map<DirKey, FrameNo>, pages: map<PageKey, Word>, p: nat, c: nat, limit: nat)
    requires TablesOwned(n, tables, pages) && PagesSafe(n, pages)
    requires p != c && forall k | k in pages :: k.p != c
    ensures TablesOwned(n, tables, Forked(pages, p, c, limit)) && PagesSafe(n, Forked(pages, p, c, limit))
  {
    var after := Forked(pages, p, c, limit);
    forall k | k in after
      ensures var o := Origin(pages, p, k);
        && o in pages
        && (after[k] == pages[o] || (o.v < limit && o.p == p && after[k] == Protect(pages[o])))
    {
    }
    forall k, l | k in after && l in after && k != l && after[k].index == after[l].index
      ensures k.p != l.p && MayAlias(after[k], after[l])
    {
      var o, q := Origin(pages, p, k), Origin(pages, p, l);
      assert pages[o].index == pages[q].index;
      if o == q {
        assert k.v == l.v;
      }
    }
  }

  /** The entry a page of the forked address spaces comes from. */
  ghost function Origin(pages: map<PageKey, Word>, p: nat, k: PageKey): PageKey {
    if k in pages then k else PageKey(p, k.v)
  }

  // ---------- The inner loop of copy_pde ----------

  /** From index `t` on, `table` holds the entries of `p` in directory slot `d`. */
  ghost predicate HoldsSlot(table: Page, pages: map<PageKey, Word>, p: nat, d: Idx, t: nat) {
    forall u: Idx | t <= u ::
      && (table[u].present <==> PageKey(p, d * 1024 + u) in pages)
      && (table[u].present ==> table[u] == pages[PageKey(p, d * 1024 + u)])
  }

  /** What the loops of `copy_pde` rely on: the entries at the start, and the child's number
      among the tasks. */
  ghost predicate ForkFrom(n: nat, dirs: Dirs, tables: map<DirKey, FrameNo>, pages: map<PageKey, Word>, p: nat, c: nat) {
    && FewTasks(dirs) && p in dirs && c in dirs && p != c
    && (forall k | k in tables :: k.p in dirs)
    && (forall k | k in pages :: k.p in dirs && k.p != c)
    && TablesOwned(n, tables, pages)
    && PagesSafe(n, pages)
  }

  /** One round: the count goes up by one, within the range of a `u8`. */
  lemma ShareOne(counts: seq<Byte>, dirs: Dirs, tables: map<DirKey, FrameNo>, pages: map<PageKey, Word>,
                 p: nat, c: nat, v: Vpn)
    requires ForkFrom(|counts|, dirs, tables, pages, p, c)
    requires Counted(counts, tables, Forked(pages, p, c, v)) && PageKey(p, v) in pages
    ensures var f := pages[PageKey(p, v)].index;
      && InUserFrames(f, |counts|)
      && 0 < counts[f] < 254
      && Increment(counts[f]) == counts[f] + 1
      && Counted(counts[f := Increment(counts[f])], tables, Forked(pages, p, c, v + 1))
      && Zeros(counts[f := Increment(counts[f])]) == Zeros(counts)
  {
    hide Forked, TableRefs, Counted;
    var f, w := pages[PageKey(p, v)].index, Protect(pages[PageKey(p, v)]);
    var now := Forked(pages, p, c, v);
    ForkedPresent(pages, p, c, v);
    ForkedSafe(|counts|, tables, pages, p, c, v);
    ForkedKeys(pages, p, c, v);
    HoldersFew(|counts|, dirs, tables, now, f);
    CountOf(counts, tables, now, f);
    assert PageKey(p, v) in PageRefs(now, f);
    CountSamePage(counts, tables, now, PageKey(p, v), w);
    CountNewPage(counts, tables, now[PageKey(p, v) := w], PageKey(c, v), w);
  }

  lemma CountOf(counts: seq<Byte>, tables: map<DirKey, FrameNo>, pages: map<PageKey, Word>, f: FrameNo)
    requires Counted(counts, tables, pages) && InUserFrames(f, |counts|)
    ensures counts[f] == |TableRefs(tables, f)| + |PageRefs(pages, f)|
  {
  }

  lemma ForkedKeys(pages: map<PageKey, Word>, p: nat, c: nat, limit: nat)
    ensures forall k | k in Forked(pages, p, c, limit) :: k.p == c || k in pages
  {
  }

  /** `counts` agrees with `was` on the kernel's frames and on which frames are free. */
  ghost predicate SameZeros(was: seq<Byte>, counts: seq<Byte>) {
    && |counts| == |was|
    && Zeros(counts) == Zeros(was)
    && forall f | 0 <= f < KERNEL_FRAMES && f < |was| :: counts[f] == was[f]
  }

  lemma {:induction false} ShareEntriesCore(counts: seq<Byte>, table: Page, t: nat, dirs: Dirs,
      tables: map<DirKey, FrameNo>, pages: map<PageKey, Word>, p: nat, c: nat, d: Idx)
    requires t <= 1024 && UserSlot(d) && HoldsSlot(table, pages, p, d, t)
    requires ForkFrom(|counts|, dirs, tables, pages, p, c)
    requires Counted(counts, tables, Forked(pages, p, c, d * 1024 + t))
    ensures var r := ShareEntries(counts, table, t);
      && r.Done?
      && SameZeros(counts, r.value.counts)
      && Counted(r.value.counts, tables, Forked(pages, p, c, d * 1024 + 1024))
      && (forall u: Idx :: r.value.table[u] == if u < t then table[u] else Protect(table[u]))
    decreases 1024 - t
  {
    hide Forked, Counted, ForkFrom, Zeros;
    if t == 1024 {
    } else {
      var v: Vpn, e := d * 1024 + t, table[t];
      if !e.present {
        ForkedAbsent(pages, p, c, v);
        ShareEntriesCore(counts, table, t + 1, dirs, tables, pages, p, c, d);
      } else {
        ShareOne(counts, dirs, tables, pages, p, c, v);
        var counts1 := counts[e.index := Increment(counts[e.index])];
        var table1 := table[t := Protect(e)];
        ShareEntriesCore(counts1, table1, t + 1, dirs, tables, pages, p, c, d);
      }
    }
  }

  // ---------- The outer loop of copy_pde ----------

  /** A directory whose user slots from `d` on are absent. */
  function CutPage(page: Page, d: nat): (r: Page)
    ensures forall e: Idx :: r[e] == if d <= e && UserSlot(e) then page[e].(present := false) else page[e]
  {
    seq(1024, e requires 0 <= e < 1024 => if d <= e && UserSlot(e) then page[e].(present := false) else page[e])
  }

  /** Memory as it would be if the directory in `cd` ended before slot `d`.  While `copy_pde`
      runs, the child's later slots still name the parent's tables. */
  function Cut(m: Mem, cd: FrameNo, d: nat): Mem {
    m.SetFrame(cd, CutPage(m.Frame(cd), d))
  }

  /** Where the outer loop stands at slot `d`: seen through the cut, the address spaces obey
      the invariant, and the entries are those of a fork that has reached slot `d`. */
  ghost predicate ForkAt(m: Mem, dirs: Dirs, pages: map<PageKey, Word>, p: nat, c: nat, d: nat) {
    && Layout(m) && p in dirs && c in dirs && p != c
    && Core(Cut(m, dirs[c], d), dirs)
    && Pages(Cut(m, dirs[c], d), dirs) == Forked(pages, p, c, d * 1024)
    && (forall k | k in pages :: k.p in dirs && k.p != c)
    && PagesSafe(|m.counts|, pages)
    && (forall e: Idx | d <= e && UserSlot(e) :: m.Frame(dirs[c])[e] == m.Frame(dirs[p])[e])
  }

  lemma ForkedOwned(n: nat, tables: map<DirKey, FrameNo>, pages: map<PageKey, Word>, p: nat, c: nat, limit: nat)
    requires TablesOwned(n, tables, Forked(pages, p, c, limit))
    requires forall k | k in pages :: k.p != c
    ensures TablesOwned(n, tables, pages)
  {
    forall k, l | k in tables && l in pages ensures tables[k] != pages[l].index {
      assert l in Forked(pages, p, c, limit);
    }
  }

  /** The facts the inner loop needs at slot `d`. */
  lemma SlotReady(m: Mem, dirs: Dirs, pages: map<PageKey, Word>, p: nat, c: nat, d: Idx)
    requires ForkAt(m, dirs, pages, p, c, d) && UserSlot(d) && m.Frame(dirs[c])[d].present
    ensures var t := Cut(m, dirs[c], d);
      && ForkFrom(|m.counts|, dirs, Tables(t, dirs), pages, p, c)
      && Counted(m.counts, Tables(t, dirs), Forked(pages, p, c, d * 1024))
      && HasTable(t, dirs[p], d)
      && Separated(t, dirs)
      && InUserFrames(m.Frame(dirs[p])[d].index, |m.counts|)
      && HoldsSlot(m.Frame(m.Frame(dirs[p])[d].index), pages, p, d, 0)
  {
    hide Pages, Tables, Forked, TablesOwned, PagesSafe, Counted;
    var t := Cut(m, dirs[c], d);
    var table := m.Frame(dirs[p])[d].index;
    DirectoriesApart(t, dirs);
    ForkedOwned(|m.counts|, Tables(t, dirs), pages, p, c, d * 1024);
    TablesKeys(t, dirs);
    TableFrame(t, dirs, DirKey(p, d));
    assert HasTable(t, dirs[p], d);
    forall u: Idx
      ensures m.Frame(table)[u].present <==> PageKey(p, d * 1024 + u) in pages
      ensures m.Frame(table)[u].present ==> m.Frame(table)[u] == pages[PageKey(p, d * 1024 + u)]
    {
      PageThere(t, dirs, PageKey(p, d * 1024 + u));
      ForkedLater(pages, p, c, d * 1024, PageKey(p, d * 1024 + u));
    }
  }

  lemma TableFrame(m: Mem, dirs: Dirs, k: DirKey)
    requires Core(m, dirs) && k.p in dirs && HasTable(m, dirs[k.p], k.d)
    ensures k in Tables(m, dirs) && Tables(m, dirs)[k] == m.Frame(dirs[k.p])[k.d].index
    ensures InUserFrames(m.Frame(dirs[k.p])[k.d].index, |m.counts|)
  {
    hide Pages;
  }

  lemma ForkedLater(pages: map<PageKey, Word>, p: nat, c: nat, limit: nat, k: PageKey)
    requires limit <= k.v && k.p != c
    ensures k in Forked(pages, p, c, limit) <==> k in pages
    ensures k in pages ==> Forked(pages, p, c, limit)[k] == pages[k]
  {
  }

  /** The entries after one more slot. */
  lemma ForkedSlot(pages: map<PageKey, Word>, p: nat, c: nat, d: Idx, k: PageKey)
    requires p != c && forall l | l in pages :: l.p != c
    ensures var was, now := Forked(pages, p, c, d * 1024), Forked(pages, p, c, (d + 1) * 1024);
      && (k.v / 1024 != d || (k.p != p && k.p != c) ==>
            (k in now <==> k in was) && (k in was ==> now[k] == was[k]))
      && (k.v / 1024 == d && (k.p == p || k.p == c) ==>
            (k in now <==> PageKey(p, k.v) in pages) && (k in now ==> now[k] == Protect(pages[PageKey(p, k.v)])))
  {
    assert k.p == p ==> k == PageKey(p, k.v);
  }

  /** The kernel's own frames are counted as before. */
  ghost predicate SameKernelCounts(m: Mem, n: Mem) {
    && |n.counts| == |m.counts|
    && forall f | 0 <= f < KERNEL_FRAMES && f < |m.counts| :: n.counts[f] == m.counts[f]
  }

  /** Memory after slot `d`: the protected table, its copy in frame `f`, the child's slot. */
  function SlotCopied(m: Mem, pd: FrameNo, cd: FrameNo, d: Idx, s: Shared, f: FrameNo): Mem
    requires f < |s.counts|
  {
    var dir := m.Frame(cd);
    m.(counts := s.counts[f := 1], free := m.free - 1)
     .SetFrame(m.Frame(pd)[d].index, s.table).SetFrame(f, s.table)
     .SetFrame(cd, dir[d := dir[d].(index := f)])
  }

  /** The circumstances of one round of the outer loop. */
  ghost predicate SlotStep(m: Mem, dirs: Dirs, pages: map<PageKey, Word>, p: nat, c: nat, d: Idx, s: Shared, f: FrameNo) {
    && ForkAt(m, dirs, pages, p, c, d) && UserSlot(d) && m.Frame(dirs[c])[d].present
    && SameZeros(m.counts, s.counts)
    && Counted(s.counts, Tables(Cut(m, dirs[c], d), dirs), Forked(pages, p, c, d * 1024 + 1024))
    && (forall u: Idx :: s.table[u] == Protect(m.Frame(m.Frame(dirs[p])[d].index)[u]))
    && InUserFrames(f, |m.counts|) && m.counts[f] == 0
  }

  lemma CutCore(m: Mem, dirs: Dirs, pages: map<PageKey, Word>, p: nat, c: nat, d: nat)
    requires ForkAt(m, dirs, pages, p, c, d)
    ensures p in dirs && c in dirs && p != c
    ensures Core(Cut(m, dirs[c], d), dirs) && Separated(Cut(m, dirs[c], d), dirs)
    ensures forall q | q in dirs :: 256 <= dirs[q] < KERNEL_FRAMES
    ensures forall q, r | q in dirs && r in dirs && q != r :: dirs[q] != dirs[r]
  {
    DirectoriesApart(Cut(m, dirs[c], d), dirs);
  }

  /** Slot by slot, what the round does to the directories. */
  lemma SlotDirectories(m: Mem, dirs: Dirs, pages: map<PageKey, Word>, p: nat, c: nat, d: Idx, s: Shared, f: FrameNo)
    requires SlotStep(m, dirs, pages, p, c, d, s, f)
    ensures var t, n := Cut(m, dirs[c], d), SlotCopied(m, dirs[p], dirs[c], d, s, f);
      var t' := Cut(n, dirs[c], d + 1);
      && InUserFrames(m.Frame(dirs[p])[d].index, |m.counts|)
      && (forall g: FrameNo | g != m.Frame(dirs[p])[d].index && g != f && g != dirs[c] ::
            t'.Frame(g) == m.Frame(g) && t.Frame(g) == m.Frame(g))
      && t'.Frame(m.Frame(dirs[p])[d].index) == s.table
      && t'.Frame(f) == s.table
      && (forall e: Idx :: t'.Frame(dirs[c])[e] == if e == d then m.Frame(dirs[c])[d].(index := f) else t.Frame(dirs[c])[e])
      && f != m.Frame(dirs[p])[d].index
      && (forall k | k in Tables(t, dirs) :: Tables(t, dirs)[k] != f)
      && Unheld(Pages(t, dirs), f)
  {
    hide Pages, Tables, Forked;
    var t := Cut(m, dirs[c], d);
    SlotReady(m, dirs, pages, p, c, d);
    DirectoriesApart(t, dirs);
    FreshFrame(m.counts, Tables(t, dirs), Pages(t, dirs), f);
    TableFrame(t, dirs, DirKey(p, d));
  }

  lemma SlotEntry(m: Mem, dirs: Dirs, pages: map<PageKey, Word>, p: nat, c: nat, d: Idx, s: Shared, f: FrameNo, k: PageKey)
    requires SlotStep(m, dirs, pages, p, c, d, s, f) && k.p in dirs
    ensures var t, t' := Cut(m, dirs[c], d), Cut(SlotCopied(m, dirs[p], dirs[c], d, s, f), dirs[c], d + 1);
      && (HasTable(t', dirs[k.p], k.v / 1024) <==> HasTable(t, dirs[k.p], k.v / 1024) || (k.p == c && k.v / 1024 == d))
      && (k.v / 1024 == d && (k.p == p || k.p == c) ==> t'.Entry(dirs[k.p], k.v) == s.table[k.v % 1024])
      && (!(k.v / 1024 == d && (k.p == p || k.p == c)) && HasTable(t, dirs[k.p], k.v / 1024) ==>
            t'.Entry(dirs[k.p], k.v) == t.Entry(dirs[k.p], k.v))
  {
    hide Pages, Tables, Forked, ForkAt, Core;
    CutCore(m, dirs, pages, p, c, d);
    var t, e := Cut(m, dirs[c], d), k.v / 1024;
    SlotDirectories(m, dirs, pages, p, c, d, s, f);
    SlotReady(m, dirs, pages, p, c, d);
    if HasTable(t, dirs[k.p], e) {
      TableFrame(t, dirs, DirKey(k.p, e));
      TableFrame(t, dirs, DirKey(p, d));
    }
  }


  lemma SlotPages(m: Mem, dirs: Dirs, pages: map<PageKey, Word>, p: nat, c: nat, d: Idx, s: Shared, f: FrameNo)
    requires SlotStep(m, dirs, pages, p, c, d, s, f)
    ensures Pages(Cut(SlotCopied(m, dirs[p], dirs[c], d, s, f), dirs[c], d + 1), dirs) == Forked(pages, p, c, (d + 1) * 1024)
  {
    hide Pages, Tables, Forked, Core;
    var t, t' := Cut(m, dirs[c], d), Cut(SlotCopied(m, dirs[p], dirs[c], d, s, f), dirs[c], d + 1);
    var now := Forked(pages, p, c, (d + 1) * 1024);
    ForkedKeys(pages, p, c, (d + 1) * 1024);
    PagesKeys(t', dirs);
    forall k: PageKey | k.p in dirs
      ensures k in Pages(t', dirs) <==> k in now
      ensures k in now ==> Pages(t', dirs)[k] == now[k]
    {
      SlotPage(m, dirs, pages, p, c, d, s, f, k);
    }
  }

  lemma SlotPage(m: Mem, dirs: Dirs, pages: map<PageKey, Word>, p: nat, c: nat, d: Idx, s: Shared, f: FrameNo, k: PageKey)
    requires SlotStep(m, dirs, pages, p, c, d, s, f) && k.p in dirs
    ensures var n, now := Pages(Cut(SlotCopied(m, dirs[p], dirs[c], d, s, f), dirs[c], d + 1), dirs), Forked(pages, p, c, (d + 1) * 1024);
      && (k in n <==> k in now)
      && (k in now ==> n[k] == now[k])
  {
    hide Pages, Tables, Forked, Core, Cut;
    var t, t' := Cut(m, dirs[c], d), Cut(SlotCopied(m, dirs[p], dirs[c], d, s, f), dirs[c], d + 1);
    SlotEntry(m, dirs, pages, p, c, d, s, f, k);
    SlotReady(m, dirs, pages, p, c, d);
    PageThere(t, dirs, k);
    PageThere(t', dirs, k);
    ForkedSlot(pages, p, c, d, k);
    var u: Idx := k.v % 1024;
    assert k.v / 1024 == d ==> d * 1024 + u == k.v;
  }

  lemma SlotTable(m: Mem, dirs: Dirs, pages: map<PageKey, Word>, p: nat, c: nat, d: Idx, s: Shared, f: FrameNo, k: DirKey)
    requires SlotStep(m, dirs, pages, p, c, d, s, f) && k.p in dirs
    ensures var t, t' := Cut(m, dirs[c], d), Cut(SlotCopied(m, dirs[p], dirs[c], d, s, f), dirs[c], d + 1);
      && (k in Tables(t', dirs) <==> k in Tables(t, dirs) || k == DirKey(c, d))
      && (k in Tables(t', dirs) ==> Tables(t', dirs)[k] == if k == DirKey(c, d) then f else Tables(t, dirs)[k])
      && (k == DirKey(c, d) ==> k !in Tables(t, dirs))
  {
    hide Pages, Tables, Forked, ForkAt, Core;
    CutCore(m, dirs, pages, p, c, d);
    SlotDirectories(m, dirs, pages, p, c, d, s, f);
    SlotReady(m, dirs, pages, p, c, d);
    var t, t' := Cut(m, dirs[c], d), Cut(SlotCopied(m, dirs[p], dirs[c], d, s, f), dirs[c], d + 1);
    TableThere(t, dirs, k);
    TableThere(t', dirs, k);
  }

  lemma SlotTables(m: Mem, dirs: Dirs, pages: map<PageKey, Word>, p: nat, c: nat, d: Idx, s: Shared, f: FrameNo)
    requires SlotStep(m, dirs, pages, p, c, d, s, f)
    ensures var t, t' := Cut(m, dirs[c], d), Cut(SlotCopied(m, dirs[p], dirs[c], d, s, f), dirs[c], d + 1);
      && DirKey(c, d) !in Tables(t, dirs)
      && Tables(t', dirs) == Tables(t, dirs)[DirKey(c, d) := f]
  {
    hide Pages, Tables, Forked, Core, Cut;
    var t, t' := Cut(m, dirs[c], d), Cut(SlotCopied(m, dirs[p], dirs[c], d, s, f), dirs[c], d + 1);
    var was, now := Tables(t, dirs), Tables(t', dirs);
    TablesKeys(t, dirs);
    TablesKeys(t', dirs);
    SlotTable(m, dirs, pages, p, c, d, s, f, DirKey(c, d));
    forall k: DirKey | k.p in dirs
      ensures k in now <==> k in was[DirKey(c, d) := f]
      ensures k in now ==> now[k] == was[DirKey(c, d) := f][k]
    {
      SlotTable(m, dirs, pages, p, c, d, s, f, k);
    }
  }

  /** After the round the address spaces obey the invariant again, as of the next slot. */
  lemma SlotCore(m: Mem, dirs: Dirs, pages: map<PageKey, Word>, p: nat, c: nat, d: Idx, s: Shared, f: FrameNo)
    requires SlotStep(m, dirs, pages, p, c, d, s, f)
    ensures var n := SlotCopied(m, dirs[p], dirs[c], d, s, f);
      && ForkAt(n, dirs, pages, p, c, d + 1)
      && SameData(m, n, pages)
      && SameKernelCounts(m, n)
      && |Zeros(n.counts)| == |Zeros(m.counts)| - 1
  {
    hide Pages, Tables, Forked, Counted;
    var t, n := Cut(m, dirs[c], d), SlotCopied(m, dirs[p], dirs[c], d, s, f);
    var t' := Cut(n, dirs[c], d + 1);
    SlotReady(m, dirs, pages, p, c, d);
    SlotDirectories(m, dirs, pages, p, c, d, s, f);
    SlotPages(m, dirs, pages, p, c, d, s, f);
    SlotTables(m, dirs, pages, p, c, d, s, f);
    ZerosMember(m.counts, s.counts, f);
    ZerosAfter(s.counts, f, 1);
    CountNewTable(s.counts, Tables(t, dirs), Pages(t', dirs), DirKey(c, d), f);
    SlotSafe(m, dirs, pages, p, c, d, f, Tables(t, dirs));
    SlotKernel(m, dirs, pages, p, c, d, s, f);
    SlotData(m, dirs, pages, p, c, d, s, f);
  }

  lemma ZerosMember(was: seq<Byte>, counts: seq<Byte>, f: FrameNo)
    requires SameZeros(was, counts) && f < |was| && was[f] == 0
    ensures counts[f] == 0
  {
    assert f in Zeros(was);
  }

  lemma SlotSafe(m: Mem, dirs: Dirs, pages: map<PageKey, Word>, p: nat, c: nat, d: Idx, f: FrameNo, tables: map<DirKey, FrameNo>)
    requires ForkFrom(|m.counts|, dirs, tables, pages, p, c) && InUserFrames(f, |m.counts|)
    requires forall k | k in tables :: tables[k] != f
    requires Unheld(Forked(pages, p, c, d * 1024), f)
    ensures var now := Forked(pages, p, c, (d + 1) * 1024);
      PagesSafe(|m.counts|, now) && TablesOwned(|m.counts|, tables[DirKey(c, d) := f], now)
  {
    var was, now := Forked(pages, p, c, d * 1024), Forked(pages, p, c, (d + 1) * 1024);
    ForkedSafe(|m.counts|, tables, pages, p, c, (d + 1) * 1024);
    forall k | k in now ensures now[k].index != f {
      var o := Origin(pages, p, k);
      assert o in was && was[o].index == pages[o].index;
    }
  }

  lemma SlotKernel(m: Mem, dirs: Dirs, pages: map<PageKey, Word>, p: nat, c: nat, d: Idx, s: Shared, f: FrameNo)
    requires SlotStep(m, dirs, pages, p, c, d, s, f)
    ensures var t' := Cut(SlotCopied(m, dirs[p], dirs[c], d, s, f), dirs[c], d + 1);
      Layout(t') && KernelFrames(t', dirs)
  {
    hide Pages, Tables, Forked;
    var t, t' := Cut(m, dirs[c], d), Cut(SlotCopied(m, dirs[p], dirs[c], d, s, f), dirs[c], d + 1);
    SlotReady(m, dirs, pages, p, c, d);
    SlotDirectories(m, dirs, pages, p, c, d, s, f);
    forall q, e: Idx | q in dirs && HasTable(t', dirs[q], e)
      ensures t'.Frame(dirs[q])[e].write && t'.Frame(dirs[q])[e].user
    {
      if q == c && e == d {
        assert HasTable(t, dirs[p], d);
      } else {
        assert HasTable(t, dirs[q], e);
      }
    }
  }

  lemma SlotData(m: Mem, dirs: Dirs, pages: map<PageKey, Word>, p: nat, c: nat, d: Idx, s: Shared, f: FrameNo)
    requires SlotStep(m, dirs, pages, p, c, d, s, f)
    ensures SameData(m, SlotCopied(m, dirs[p], dirs[c], d, s, f), pages)
  {
    hide Pages, Tables, Core;
    var t := Cut(m, dirs[c], d);
    SlotReady(m, dirs, pages, p, c, d);
    SlotDirectories(m, dirs, pages, p, c, d, s, f);
    CutCore(m, dirs, pages, p, c, d);
    TableThere(t, dirs, DirKey(p, d));
    forall k | k in pages ensures pages[k].index != f {
      assert k in Forked(pages, p, c, d * 1024) && Forked(pages, p, c, d * 1024)[k].index == pages[k].index;
    }
  }

  /** The tables a directory has from slot `d` on. */
  function TablesFrom(page: Page, d: nat): nat
    requires d <= SELF_SLOT
    decreases SELF_SLOT - d
  {
    if d == SELF_SLOT then 0 else (if page[d].present then 1 else 0) + TablesFrom(page, d + 1)
  }

  lemma SlotAbsent(m: Mem, dirs: Dirs, pages: map<PageKey, Word>, p: nat, c: nat, d: Idx)
    requires ForkAt(m, dirs, pages, p, c, d) && UserSlot(d) && !m.Frame(dirs[c])[d].present
    ensures ForkAt(m, dirs, pages, p, c, d + 1)
  {
    hide Tables, Pages, Core, Forked;
    CutCore(m, dirs, pages, p, c, d);
    var page := m.Frame(dirs[c]);
    assert page[d].(present := false) == page[d];
    assert CutPage(page, d + 1) == CutPage(page, d);
    var t := Cut(m, dirs[c], d);
    forall k: PageKey
      ensures k in Forked(pages, p, c, (d + 1) * 1024) <==> k in Forked(pages, p, c, d * 1024)
      ensures k in Forked(pages, p, c, d * 1024) ==>
        Forked(pages, p, c, (d + 1) * 1024)[k] == Forked(pages, p, c, d * 1024)[k]
    {
      ForkedSlot(pages, p, c, d, k);
      if k.v / 1024 == d {
        PageThere(t, dirs, PageKey(p, k.v));
        ForkedLater(pages, p, c, d * 1024, PageKey(p, k.v));
        if k.p == p || k.p == c {
          ForkedSlotWas(pages, p, c, d, k);
        }
      }
    }
    assert Forked(pages, p, c, (d + 1) * 1024) == Forked(pages, p, c, d * 1024);
  }

  lemma ForkedSlotWas(pages: map<PageKey, Word>, p: nat, c: nat, d: Idx, k: PageKey)
    requires p != c && forall l | l in pages :: l.p != c
    requires k.v / 1024 == d && PageKey(p, k.v) !in pages && (k.p == p || k.p == c)
    ensures k !in Forked(pages, p, c, d * 1024)
  {
    assert k.p == p ==> k == PageKey(p, k.v);
  }

  /** The first free frame does not depend on how often used frames are counted. */
  lemma SameFirstFree(was: seq<Byte>, counts: seq<Byte>, start: nat)
    requires SameZeros(was, counts) && start <= |was|
    ensures FirstFree(counts, start) == FirstFree(was, start)
  {
    var f, g := FirstFree(was, start), FirstFree(counts, start);
    assert f < |was| ==> f in Zeros(was);
    assert g < |was| ==> g in Zeros(counts);
  }

  lemma SlotRound(m: Mem, dirs: Dirs, pages: map<PageKey, Word>, p: nat, c: nat, d: Idx)
    requires ForkAt(m, dirs, pages, p, c, d) && UserSlot(d) && m.Frame(dirs[c])[d].present
    ensures var s := ShareEntries(m.counts, m.Frame(m.Frame(dirs[p])[d].index), 0);
      && s.Done?
      && SameZeros(m.counts, s.value.counts)
      && var f := FirstFree(m.counts, m.start);
      if f == |m.counts| then Zeros(m.counts) == {} && CopySlots(m, dirs[p], dirs[c], d) == Halt(OutOfMemory)
      else SlotStep(m, dirs, pages, p, c, d, s.value, f)
           && CopySlots(m, dirs[p], dirs[c], d)
           == CopySlots(SlotCopied(m, dirs[p], dirs[c], d, s.value, f), dirs[p], dirs[c], d + 1)
  {
    hide Tables, Pages, Forked, Counted;
    var t, table := Cut(m, dirs[c], d), m.Frame(dirs[p])[d].index;
    SlotReady(m, dirs, pages, p, c, d);
    ShareEntriesCore(m.counts, m.Frame(table), 0, dirs, Tables(t, dirs), pages, p, c, d);
    var s := ShareEntries(m.counts, m.Frame(table), 0).value;
    GetPageCore(t, dirs);
    SameFirstFree(m.counts, s.counts, m.start);
    var f := FirstFree(m.counts, m.start);
    if f < |m.counts| {
      SlotDirectories(m, dirs, pages, p, c, d, s, f);
      CopyRound(m, dirs[p], dirs[c], d, s, f);
    }
  }

  /** One round of `CopySlots`, in the shape `SlotCopied` gives it. */
  lemma CopyRound(m: Mem, pd: FrameNo, cd: FrameNo, d: Idx, s: Shared, f: FrameNo)
    requires m.Sized() && UserSlot(d) && m.Frame(cd)[d].present
    requires ShareEntries(m.counts, m.Frame(m.Frame(pd)[d].index), 0) == Done(s)
    requires f < |m.counts| && f == FirstFree(m.counts, m.start) == FirstFree(s.counts, m.start)
    requires m.Frame(pd)[d].index < |m.phys| && m.Frame(pd)[d].index != cd && f != cd
    ensures CopySlots(m, pd, cd, d) == CopySlots(SlotCopied(m, pd, cd, d, s, f), pd, cd, d + 1)
  {
    var table := m.Frame(pd)[d].index;
    var m1 := m.(counts := s.counts).SetFrame(table, s.table);
    assert m1.Frame(table) == s.table;
    var g := CopyPage(m1, table);
    assert g.Done? && g.value.f == f;
    assert g.value.m.Frame(cd) == m.Frame(cd);
  }

  /** One round with a present table, whole. */
  lemma NextSlot(m: Mem, dirs: Dirs, pages: map<PageKey, Word>, p: nat, c: nat, d: Idx) returns (n: Mem)
    requires ForkAt(m, dirs, pages, p, c, d) && UserSlot(d) && m.Frame(dirs[c])[d].present
    ensures Zeros(m.counts) == {} ==> CopySlots(m, dirs[p], dirs[c], d) == Halt(OutOfMemory)
    ensures Zeros(m.counts) != {} ==>
      && ForkAt(n, dirs, pages, p, c, d + 1) && SameData(m, n, pages) && SameKernelCounts(m, n)
      && |Zeros(n.counts)| == |Zeros(m.counts)| - 1
      && (forall q | q in dirs && q != c :: n.Frame(dirs[q]) == m.Frame(dirs[q]))
      && CopySlots(m, dirs[p], dirs[c], d) == CopySlots(n, dirs[p], dirs[c], d + 1)
  {
    hide Core, Pages, Tables, Forked, Counted, CopySlots, CutPage;
    SlotRound(m, dirs, pages, p, c, d);
    var s := ShareEntries(m.counts, m.Frame(m.Frame(dirs[p])[d].index), 0).value;
    var f := FirstFree(m.counts, m.start);
    n := m;
    if f < |m.counts| {
      n := SlotCopied(m, dirs[p], dirs[c], d, s, f);
      assert f in Zeros(m.counts);
      SlotCore(m, dirs, pages, p, c, d, s, f);
      CutCore(m, dirs, pages, p, c, d);
      SlotDirectories(m, dirs, pages, p, c, d, s, f);
    }
  }

  lemma ForkAtSize(m: Mem, dirs: Dirs, pages: map<PageKey, Word>, p: nat, c: nat, d: nat)
    requires ForkAt(m, dirs, pages, p, c, d)
    ensures m.Sized() && p in dirs && c in dirs && p != c
    ensures forall e: Idx | d <= e && UserSlot(e) :: m.Frame(dirs[c])[e] == m.Frame(dirs[p])[e]
  {
  }

  lemma CopySlotsSkip(m: Mem, pd: FrameNo, cd: FrameNo, d: nat)
    requires m.Sized() && d <= SELF_SLOT
    ensures d == SELF_SLOT ==> CopySlots(m, pd, cd, d) == Done(m)
    ensures d < SELF_SLOT && !m.Frame(cd)[d].present ==> CopySlots(m, pd, cd, d) == CopySlots(m, pd, cd, d + 1)
  {
  }

  /** Where the frames of one round lie. */
  lemma ForkAtFrames(m: Mem, dirs: Dirs, pages: map<PageKey, Word>, p: nat, c: nat, d: Idx)
    requires ForkAt(m, dirs, pages, p, c, d) && UserSlot(d) && m.Frame(dirs[c])[d].present
    ensures dirs[p] < KERNEL_FRAMES <= |m.counts| && dirs[c] < KERNEL_FRAMES && dirs[p] != dirs[c]
    ensures InUserFrames(m.Frame(dirs[p])[d].index, |m.counts|)
  {
    hide Core, Forked, Pages, Tables;
    CutCore(m, dirs, pages, p, c, d);
    SlotReady(m, dirs, pages, p, c, d);
  }

  /** The three writes of a round, in order, give `SlotCopied`. */
  lemma SlotCopiedIs(m: Mem, shared: Mem, before: Mem, n: Mem, dirs: Dirs, pages: map<PageKey, Word>,
                     p: nat, c: nat, d: Idx, s: Shared, f: FrameNo)
    requires SlotStep(m, dirs, pages, p, c, d, s, f)
    requires shared == m.(counts := s.counts).SetFrame(m.Frame(dirs[p])[d].index, s.table)
    requires before == shared.(counts := s.counts[f := 1], free := m.free - 1).SetFrame(f, s.table)
    requires dirs[c] < |before.phys|
    requires n == before.(phys := before.phys[dirs[c] := before.phys[dirs[c]][d := before.phys[dirs[c]][d].(index := f)]])
    ensures n == SlotCopied(m, dirs[p], dirs[c], d, s, f)
  {
    hide Core, Forked, Pages, Tables, Counted;
    ForkAtFrames(m, dirs, pages, p, c, d);
    assert before.phys[dirs[c]] == m.Frame(dirs[c]);
  }

  /** The outer loop runs to the end unless frames run out. */
  lemma {:induction false} CopySlotsCore(m: Mem, dirs: Dirs, pages: map<PageKey, Word>, p: nat, c: nat, d: nat)
    requires KERNEL_SLOTS <= d <= SELF_SLOT && ForkAt(m, dirs, pages, p, c, d)
    ensures var r := CopySlots(m, dirs[p], dirs[c], d);
      && (r.Halt? <==> |Zeros(m.counts)| < TablesFrom(m.Frame(dirs[p]), d))
      && (r.Halt? ==> r.why == OutOfMemory)
      && (r.Done? ==>
            && ForkAt(r.value, dirs, pages, p, c, SELF_SLOT)
            && SameData(m, r.value, pages)
            && SameKernelCounts(m, r.value)
            && (forall q | q in dirs && q != c :: r.value.Frame(dirs[q]) == m.Frame(dirs[q])))
    decreases SELF_SLOT - d
  {
    hide Zeros, ForkAt, CopySlots, Core, Pages;
    ForkAtSize(m, dirs, pages, p, c, d);
    CopySlotsSkip(m, dirs[p], dirs[c], d);
    if d >= SELF_SLOT {
    } else {
      if !m.Frame(dirs[c])[d].present {
        SlotAbsent(m, dirs, pages, p, c, d);
        CopySlotsCore(m, dirs, pages, p, c, d + 1);
      } else {
        var n := NextSlot(m, dirs, pages, p, c, d);
        if Zeros(m.counts) != {} {
          CopySlotsCore(n, dirs, pages, p, c, d + 1);
        }
      }
    }
  }

  // ---------- copy_pde ----------

  /** A kernel page that can take a new directory. */
  predicate DirectoryPage(dirs: Dirs, c: nat, cd: FrameNo) {
    c !in dirs && c < 64 && 256 <= cd < KERNEL_FRAMES && forall p | p in dirs :: dirs[p] != cd
  }

  /** A directory without user tables adds an empty address space. */
  lemma NewDirectory(m: Mem, dirs: Dirs, c: nat, cd: FrameNo, page: Page)
    requires Core(m, dirs) && DirectoryPage(dirs, c, cd)
    requires forall d: Idx | UserSlot(d) :: !page[d].present
    ensures var n := m.SetFrame(cd, page);
      && Core(n, dirs[c := cd])
      && Pages(n, dirs[c := cd]) == Pages(m, dirs)
      && SameData(m, n, Pages(m, dirs))
  {
    hide Pages, Tables, TablesOwned, PagesSafe, Counted;
    NewDirectoryMaps(m, dirs, c, cd, page);
    DirectoriesApart(m, dirs);
    var n := m.SetFrame(cd, page);
    assert forall p, d: Idx | p in dirs && HasTable(n, dirs[p], d) :: HasTable(m, dirs[p], d);
    forall k | k in Pages(m, dirs) ensures n.Frame(Pages(m, dirs)[k].index) == m.Frame(Pages(m, dirs)[k].index) {
      PageIndex(m, dirs, k);
    }
  }

  lemma NewDirectoryMaps(m: Mem, dirs: Dirs, c: nat, cd: FrameNo, page: Page)
    requires Core(m, dirs) && DirectoryPage(dirs, c, cd)
    requires forall d: Idx | UserSlot(d) :: !page[d].present
    ensures var n := m.SetFrame(cd, page);
      && Tables(n, dirs[c := cd]) == Tables(m, dirs)
      && Pages(n, dirs[c := cd]) == Pages(m, dirs)
  {
    hide Pages, Tables, Core;
    var n, dirs' := m.SetFrame(cd, page), dirs[c := cd];
    PagesKeys(m, dirs);
    PagesKeys(n, dirs');
    TablesKeys(m, dirs);
    TablesKeys(n, dirs');
    forall k: DirKey | k.p in dirs'
      ensures k in Tables(n, dirs') <==> k in Tables(m, dirs)
      ensures k in Tables(m, dirs) ==> Tables(n, dirs')[k] == Tables(m, dirs)[k]
    {
      TableThere(n, dirs', k);
      if k.p in dirs {
        TableThere(m, dirs, k);
      }
    }
    forall k: PageKey | k.p in dirs'
      ensures k in Pages(n, dirs') <==> k in Pages(m, dirs)
      ensures k in Pages(m, dirs) ==> Pages(n, dirs')[k] == Pages(m, dirs)[k]
    {
      PageThere(n, dirs', k);
      if k.p in dirs {
        PageThere(m, dirs, k);
        if HasTable(m, dirs[k.p], k.v / 1024) {
          TableFrame(m, dirs, DirKey(k.p, k.v / 1024));
        }
      }
    }
  }

  /** The entries after a whole fork: the child's are the parent's, and of both only shared
      pages may be written. */
  ghost function ForkedAll(pages: map<PageKey, Word>, p: nat, c: nat): map<PageKey, Word> {
    Forked(pages, p, c, SELF_SLOT * 1024)
  }

  /** `copy_pde` stops only when there are fewer free frames than tables to copy. */
  lemma CopyDirectoryCore(m: Mem, dirs: Dirs, p: nat, c: nat, cd: FrameNo)
    requires Core(m, dirs) && p in dirs && DirectoryPage(dirs, c, cd)
    ensures var r, pages := CopyDirectory(m, dirs[p], cd), Pages(m, dirs);
      && (r.Halt? <==> |Zeros(m.counts)| < TablesFrom(m.Frame(dirs[p]), KERNEL_SLOTS))
      && (r.Halt? ==> r.why == OutOfMemory)
      && (r.Done? ==>
            && Core(r.value, dirs[c := cd])
            && Pages(r.value, dirs[c := cd]) == ForkedAll(pages, p, c)
            && SameData(m, r.value, pages)
            && SameKernelCounts(m, r.value)
            && (forall q | q in dirs :: r.value.Frame(dirs[q]) == m.Frame(dirs[q])))
  {
    hide Core, Pages, Tables, Forked, Zeros;
    var pages, dirs' := Pages(m, dirs), dirs[c := cd];
    var m0 := m.SetFrame(cd, m.Frame(dirs[p])[SELF_SLOT := EntryInit(cd)]);
    ForkBegins(m, dirs, p, c, cd, m0);
    CopySlotsCore(m0, dirs', pages, p, c, KERNEL_SLOTS);
    var r := CopySlots(m0, dirs'[p], cd, KERNEL_SLOTS);
    if r.Done? {
      var n := r.value;
      assert CutPage(n.Frame(cd), SELF_SLOT) == n.Frame(cd);
      assert Cut(n, cd, SELF_SLOT) == n;
      forall q | q in dirs ensures n.Frame(dirs[q]) == m.Frame(dirs[q]) {
        assert dirs'[q] == dirs[q];
      }
    }
  }

  /** Where `copy_pde` stands after copying the directory page. */
  lemma ForkBegins(m: Mem, dirs: Dirs, p: nat, c: nat, cd: FrameNo, m0: Mem)
    requires Core(m, dirs) && p in dirs && DirectoryPage(dirs, c, cd)
    requires m0 == m.SetFrame(cd, m.Frame(dirs[p])[SELF_SLOT := EntryInit(cd)])
    ensures ForkAt(m0, dirs[c := cd], Pages(m, dirs), p, c, KERNEL_SLOTS)
    ensures m0.counts == m.counts && forall q | q in dirs :: m0.Frame(dirs[q]) == m.Frame(dirs[q])
    ensures SameData(m, m0, Pages(m, dirs))
  {
    hide Core, Pages, Tables, Forked;
    NewDirectory(m, dirs, c, cd, CutPage(m0.Frame(cd), KERNEL_SLOTS));
    assert Cut(m0, cd, KERNEL_SLOTS) == m.SetFrame(cd, CutPage(m0.Frame(cd), KERNEL_SLOTS));
    ForkStart(m, dirs, p, c, cd, m0);
  }

  lemma ForkStart(m: Mem, dirs: Dirs, p: nat, c: nat, cd: FrameNo, m0: Mem)
    requires Core(m, dirs) && p in dirs && DirectoryPage(dirs, c, cd)
    requires m0 == m.SetFrame(cd, m.Frame(dirs[p])[SELF_SLOT := EntryInit(cd)])
    requires Core(Cut(m0, cd, KERNEL_SLOTS), dirs[c := cd])
    requires Pages(Cut(m0, cd, KERNEL_SLOTS), dirs[c := cd]) == Pages(m, dirs)
    ensures ForkAt(m0, dirs[c := cd], Pages(m, dirs), p, c, KERNEL_SLOTS)
    ensures m0.counts == m.counts && forall q | q in dirs :: m0.Frame(dirs[q]) == m.Frame(dirs[q])
    ensures SameData(m, m0, Pages(m, dirs))
  {
    hide Pages, Tables, Forked;
    PagesKeys(m, dirs);
    LowPages(m, dirs);
    DirectoriesApart(m, dirs);
    ForkedNone(Pages(m, dirs), p, c, KERNEL_SLOTS * 1024);
  }

  lemma LowPages(m: Mem, dirs: Dirs)
    ensures forall k | k in Pages(m, dirs) :: KERNEL_SLOTS * 1024 <= k.v < SELF_SLOT * 1024
  {
  }

  lemma ForkedNone(pages: map<PageKey, Word>, p: nat, c: nat, limit: nat)
    requires forall k | k in pages :: limit <= k.v
    ensures Forked(pages, p, c, limit) == pages
  {
  }

  // ---------- free_pde ----------

  /** The entries left when `free_pde` has dealt with the pages of `p` below `limit`. */
  ghost function Dropped(pages: map<PageKey, Word>, p: nat, limit: nat): map<PageKey, Word> {
    map k | k in pages && !(k.p == p && k.v < limit) :: pages[k]
  }

  ghost function DroppedTables(tables: map<DirKey, FrameNo>, p: nat, limit: nat): map<DirKey, FrameNo> {
    map k | k in tables && !(k.p == p && k.d < limit) :: tables[k]
  }

  /** Counts that fit the given entries, whether or not the tables still list them. */
  ghost predicate Sound(m: Mem, tables: map<DirKey, FrameNo>, pages: map<PageKey, Word>) {
    && Layout(m)
    && (forall f | 0 <= f < KERNEL_FRAMES :: m.counts[f] != 0)
    && FreeExact(m)
    && Counted(m.counts, tables, pages)
    && TablesOwned(|m.counts|, tables, pages)
    && PagesSafe(|m.counts|, pages)
  }

  lemma PutHeldPage(m: Mem, tables: map<DirKey, FrameNo>, pages: map<PageKey, Word>, k: PageKey)
    requires Sound(m, tables, pages) && k in pages
    ensures var r := PutPage(m, pages[k].index);
      r.Done? && Sound(r.value, tables, pages - {k}) && SameKernelCounts(m, r.value)
  {
    hide Counted, FreeExact, Zeros, TablesOwned;
    CountGonePage(m.counts, tables, pages, k);
    PutPageDone(m, pages[k].index);
    SafeWithout(|m.counts|, tables, pages, k);
  }

  lemma PutHeldTable(m: Mem, tables: map<DirKey, FrameNo>, pages: map<PageKey, Word>, k: DirKey)
    requires Sound(m, tables, pages) && k in tables
    ensures var r := PutPage(m, tables[k]);
      r.Done? && Sound(r.value, tables - {k}, pages) && SameKernelCounts(m, r.value)
  {
    hide Counted, FreeExact, Zeros, PagesSafe;
    CountGoneTable(m.counts, tables, pages, k);
    PutPageDone(m, tables[k]);
  }

  lemma DroppedNext(pages: map<PageKey, Word>, p: nat, v: Vpn)
    ensures Dropped(pages, p, v + 1) == Dropped(pages, p, v) - {PageKey(p, v)}
  {
    assert forall k: PageKey | k.p == p && k.v == v :: k == PageKey(p, v);
  }

  lemma DroppedNextTable(tables: map<DirKey, FrameNo>, p: nat, d: Idx)
    ensures DroppedTables(tables, p, d + 1) == DroppedTables(tables, p, d) - {DirKey(p, d)}
  {
    assert forall k: DirKey | k.p == p && k.d == d :: k == DirKey(p, d);
  }

  /** One round of the inner loop of `free_pde`. */
  lemma PutOneEntry(m: Mem, table: Page, t: Idx, tables: map<DirKey, FrameNo>, pages: map<PageKey, Word>, p: nat, d: Idx)
    requires UserSlot(d) && HoldsSlot(table, pages, p, d, t)
    requires Sound(m, tables, Dropped(pages, p, d * 1024 + t))
    ensures HoldsSlot(table, pages, p, d, t + 1)
    ensures !table[t].present ==> Sound(m, tables, Dropped(pages, p, d * 1024 + (t + 1)))
    ensures table[t].present ==>
      var r := PutPage(m, table[t].index);
      r.Done? && Sound(r.value, tables, Dropped(pages, p, d * 1024 + (t + 1))) && SameKernelCounts(m, r.value)
  {
    hide Sound, Dropped, PutPage, HoldsSlot;
    var v: Vpn := d * 1024 + t;
    HoldsRest(table, pages, p, d, t);
    DroppedNext(pages, p, v);
    DroppedHas(pages, p, v, PageKey(p, v));
    if table[t].present {
      PutHeldPage(m, tables, Dropped(pages, p, v), PageKey(p, v));
    } else {
      NoPageToDrop(Dropped(pages, p, v), PageKey(p, v));
    }
  }

  lemma SoundSized(m: Mem, tables: map<DirKey, FrameNo>, pages: map<PageKey, Word>)
    requires Sound(m, tables, pages)
    ensures m.Sized()
  {
  }

  /** The inner loop of `free_pde` gives up one reference for each present entry. */
  lemma {:induction false} PutEntriesCore(m: Mem, table: Page, t: nat, tables: map<DirKey, FrameNo>,
      pages: map<PageKey, Word>, p: nat, d: Idx)
    requires t <= 1024 && UserSlot(d) && HoldsSlot(table, pages, p, d, t)
    requires Sound(m, tables, Dropped(pages, p, d * 1024 + t))
    ensures var r := PutEntries(m, table, t);
      r.Done? && Sound(r.value, tables, Dropped(pages, p, d * 1024 + 1024)) && SameKernelCounts(m, r.value)
    decreases 1024 - t
  {
    hide Sound, Dropped, PutPage, PutEntries, HoldsSlot;
    SoundSized(m, tables, Dropped(pages, p, d * 1024 + t));
    PutEntriesOnce(m, table, t);
    if t == 1024 {
    } else {
      PutOneEntry(m, table, t, tables, pages, p, d);
      if table[t].present {
        PutEntriesCore(PutPage(m, table[t].index).value, table, t + 1, tables, pages, p, d);
      } else {
        PutEntriesCore(m, table, t + 1, tables, pages, p, d);
      }
    }
  }

  lemma HoldsRest(table: Page, pages: map<PageKey, Word>, p: nat, d: Idx, t: nat)
    requires HoldsSlot(table, pages, p, d, t)
    ensures HoldsSlot(table, pages, p, d, t + 1)
    ensures t < 1024 ==>
      && (table[t].present <==> PageKey(p, d * 1024 + t) in pages)
      && (table[t].present ==> table[t] == pages[PageKey(p, d * 1024 + t)])
  {
  }

  lemma PutEntriesOnce(m: Mem, table: Page, t: nat)
    requires m.Sized() && t <= 1024
    ensures t == 1024 ==> PutEntries(m, table, t) == Done(m)
    ensures t < 1024 && !table[t].present ==> PutEntries(m, table, t) == PutEntries(m, table, t + 1)
    ensures t < 1024 && table[t].present && PutPage(m, table[t].index).Done? ==>
      PutEntries(m, table, t) == PutEntries(PutPage(m, table[t].index).value, table, t + 1)
  {
  }

  lemma PutSlotsOnce(m: Mem, pd: FrameNo, d: nat)
    requires m.Sized() && d <= SELF_SLOT
    ensures d == SELF_SLOT ==> PutSlots(m, pd, d) == Done(m)
    ensures d < SELF_SLOT && !m.Frame(pd)[d].present ==> PutSlots(m, pd, d) == PutSlots(m, pd, d + 1)
    ensures d < SELF_SLOT && m.Frame(pd)[d].present ==>
      var table := m.Frame(pd)[d].index;
      var m1 := PutEntries(m, m.Frame(table), 0);
      m1.Done? && PutPage(m1.value, table).Done? ==>
        PutSlots(m, pd, d) == PutSlots(PutPage(m1.value, table).value, pd, d + 1)
  {
  }

  /** If the loop completes, so does each of its rounds. */
  lemma PutEntriesRound(m: Mem, table: Page, t: Idx)
    requires m.Sized() && PutEntries(m, table, t).Done?
    ensures !table[t].present ==> PutEntries(m, table, t) == PutEntries(m, table, t + 1)
    ensures table[t].present ==>
      PutPage(m, table[t].index).Done? &&
      PutEntries(m, table, t) == PutEntries(PutPage(m, table[t].index).value, table, t + 1)
  {
  }

  lemma PutSlotsRound(m: Mem, pd: FrameNo, d: Idx)
    requires m.Sized() && d < SELF_SLOT && PutSlots(m, pd, d).Done?
    ensures !m.Frame(pd)[d].present ==> PutSlots(m, pd, d) == PutSlots(m, pd, d + 1)
    ensures m.Frame(pd)[d].present ==>
      var table := m.Frame(pd)[d].index;
      var m1 := PutEntries(m, m.Frame(table), 0);
      m1.Done? && PutPage(m1.value, table).Done? &&
      PutSlots(m, pd, d) == PutSlots(PutPage(m1.value, table).value, pd, d + 1)
  {
  }

  lemma DroppedHas(pages: map<PageKey, Word>, p: nat, limit: nat, k: PageKey)
    requires limit <= k.v
    ensures k in Dropped(pages, p, limit) <==> k in pages
    ensures k in pages ==> Dropped(pages, p, limit)[k] == pages[k]
  {
  }

  lemma DroppedHasTable(tables: map<DirKey, FrameNo>, p: nat, d: Idx)
    requires DirKey(p, d) in tables
    ensures DirKey(p, d) in DroppedTables(tables, p, d)
    ensures DroppedTables(tables, p, d)[DirKey(p, d)] == tables[DirKey(p, d)]
  {
  }

  lemma NoPageToDrop(pages: map<PageKey, Word>, k: PageKey)
    requires k !in pages
    ensures pages - {k} == pages
  {
  }

  lemma NoTableToDrop(tables: map<DirKey, FrameNo>, p: nat, d: Idx)
    requires DirKey(p, d) !in tables
    ensures DroppedTables(tables, p, d + 1) == DroppedTables(tables, p, d)
  {
    assert forall k: DirKey | k.p == p && k.d == d :: k == DirKey(p, d);
  }

  lemma NoPagesToDrop(pages: map<PageKey, Word>, p: nat, d: Idx)
    requires forall v: Vpn | v / 1024 == d :: PageKey(p, v) !in pages
    ensures Dropped(pages, p, (d + 1) * 1024) == Dropped(pages, p, d * 1024)
  {
    assert forall k: PageKey | k.p == p && k.v / 1024 == d :: k == PageKey(p, k.v);
  }

  /** One slot: the entries of its table, then the table itself. */
  lemma PutSlotCore(m: Mem, tables: map<DirKey, FrameNo>, pages: map<PageKey, Word>, pd: FrameNo, p: nat, d: Idx)
    returns (n: Mem)
    requires UserSlot(d) && Sound(m, DroppedTables(tables, p, d), Dropped(pages, p, d * 1024))
    requires m.Sized() && m.Frame(pd)[d].present
    requires DirKey(p, d) in tables && tables[DirKey(p, d)] == m.Frame(pd)[d].index
    requires HoldsSlot(m.Frame(m.Frame(pd)[d].index), pages, p, d, 0)
    ensures n.Sized() && n.phys == m.phys && SameKernelCounts(m, n)
    ensures Sound(n, DroppedTables(tables, p, d + 1), Dropped(pages, p, (d + 1) * 1024))
    ensures PutSlots(m, pd, d) == PutSlots(n, pd, d + 1)
  {
    hide Sound, Dropped, DroppedTables, PutEntries, PutPage, PutSlots, HoldsSlot;
    var table := m.Frame(pd)[d].index;
    PutSlotsOnce(m, pd, d);
    PutEntriesCore(m, m.Frame(table), 0, DroppedTables(tables, p, d), pages, p, d);
    var m1 := PutEntries(m, m.Frame(table), 0).value;
    DroppedNextTable(tables, p, d);
    DroppedHasTable(tables, p, d);
    PutHeldTable(m1, DroppedTables(tables, p, d), Dropped(pages, p, (d + 1) * 1024), DirKey(p, d));
    n := PutPage(m1, table).value;
  }

  /** The outer loop. The tables themselves are only read, so memory `o` before the exit still
      tells what they hold. */
  lemma {:induction false} PutSlotsCore(m: Mem, o: Mem, dirs: Dirs, p: nat, d: nat)
    requires Core(o, dirs) && p in dirs && m.phys == o.phys && m.Sized()
    requires KERNEL_SLOTS <= d <= SELF_SLOT
    requires Sound(m, DroppedTables(Tables(o, dirs), p, d), Dropped(Pages(o, dirs), p, d * 1024))
    ensures var r := PutSlots(m, dirs[p], d);
      && r.Done? && SameKernelCounts(m, r.value)
      && Sound(r.value, DroppedTables(Tables(o, dirs), p, SELF_SLOT), Dropped(Pages(o, dirs), p, SELF_SLOT * 1024))
    decreases SELF_SLOT - d
  {
    hide Core, Sound, Pages, Tables, PutSlots, Dropped, DroppedTables, HoldsSlot;
    assert forall f: FrameNo :: m.Frame(f) == o.Frame(f);
    PutSlotsOnce(m, dirs[p], d);
    if d >= SELF_SLOT {
    } else {
      TableThere(o, dirs, DirKey(p, d));
      SlotEntries(o, dirs, p, d);
      if !m.Frame(dirs[p])[d].present {
        NoTableToDrop(Tables(o, dirs), p, d);
        NoPagesToDrop(Pages(o, dirs), p, d);
        PutSlotsCore(m, o, dirs, p, d + 1);
      } else {
        var n := PutSlotCore(m, Tables(o, dirs), Pages(o, dirs), dirs[p], p, d);
        PutSlotsCore(n, o, dirs, p, d + 1);
      }
    }
  }

  /** The entries of one directory slot are those its table lists. */
  lemma SlotEntries(m: Mem, dirs: Dirs, p: nat, d: Idx)
    requires p in dirs && UserSlot(d)
    ensures !HasTable(m, dirs[p], d) ==> forall v: Vpn | v / 1024 == d :: PageKey(p, v) !in Pages(m, dirs)
    ensures HasTable(m, dirs[p], d) ==> HoldsSlot(m.Frame(m.Frame(dirs[p])[d].index), Pages(m, dirs), p, d, 0)
  {
    hide Pages;
    forall v: Vpn | v / 1024 == d
      ensures PageKey(p, v) in Pages(m, dirs) <==> HasPage(m, dirs[p], v)
      ensures PageKey(p, v) in Pages(m, dirs) ==> Pages(m, dirs)[PageKey(p, v)] == m.Entry(dirs[p], v)
    {
      PageThere(m, dirs, PageKey(p, v));
    }
    if HasTable(m, dirs[p], d) {
      var table := m.Frame(m.Frame(dirs[p])[d].index);
      forall u: Idx
        ensures table[u].present <==> PageKey(p, d * 1024 + u) in Pages(m, dirs)
        ensures table[u].present ==> table[u] == Pages(m, dirs)[PageKey(p, d * 1024 + u)]
      {
        assert (d * 1024 + u) / 1024 == d && (d * 1024 + u) % 1024 == u;
        PageThere(m, dirs, PageKey(p, d * 1024 + u));
      }
    }
  }

  /** `free_pde` always completes, and gives back every frame of the address space and no
      other. */
  lemma FreeDirectoryCore(m: Mem, dirs: Dirs, p: nat)
    requires Core(m, dirs) && p in dirs
    ensures var r := FreeDirectory(m, dirs[p]);
      && r.Done?
      && r.value.phys == m.phys
      && SameKernelCounts(m, r.value)
      && Core(r.value, dirs - {p})
      && Pages(r.value, dirs - {p}) == Dropped(Pages(m, dirs), p, SELF_SLOT * 1024)
  {
    hide Pages, Tables, Counted, TablesOwned, PagesSafe;
    var tables, pages := Tables(m, dirs), Pages(m, dirs);
    DroppedNone(m, dirs, p);
    PutSlotsCore(m, m, dirs, p, KERNEL_SLOTS);
    var n := FreeDirectory(m, dirs[p]).value;
    GoneMaps(m, n, dirs, p);
    assert forall f: FrameNo :: n.Frame(f) == m.Frame(f);
    assert forall q, d: Idx | q in dirs && HasTable(n, dirs[q], d) :: HasTable(m, dirs[q], d);
  }

  lemma DroppedNone(m: Mem, dirs: Dirs, p: nat)
    ensures Dropped(Pages(m, dirs), p, KERNEL_SLOTS * 1024) == Pages(m, dirs)
    ensures DroppedTables(Tables(m, dirs), p, KERNEL_SLOTS) == Tables(m, dirs)
  {
    LowPages(m, dirs);
    LowTables(m, dirs);
    hide Pages, Tables;
  }

  lemma LowTables(m: Mem, dirs: Dirs)
    ensures forall k | k in Tables(m, dirs) :: KERNEL_SLOTS <= k.d < SELF_SLOT
  {
  }

  lemma GoneMaps(m: Mem, n: Mem, dirs: Dirs, p: nat)
    requires n.phys == m.phys && p in dirs
    ensures Pages(n, dirs - {p}) == Dropped(Pages(m, dirs), p, SELF_SLOT * 1024)
    ensures Tables(n, dirs - {p}) == DroppedTables(Tables(m, dirs), p, SELF_SLOT)
  {
    var dirs' := dirs - {p};
    LowPages(m, dirs);
    LowTables(m, dirs);
    PagesKeys(m, dirs);
    PagesKeys(n, dirs');
    TablesKeys(m, dirs);
    TablesKeys(n, dirs');
    hide Pages, Tables;
    forall k: PageKey | k.p in dirs'
      ensures k in Pages(n, dirs') <==> k in Pages(m, dirs)
      ensures k in Pages(m, dirs) ==> Pages(n, dirs')[k] == Pages(m, dirs)[k]
    {
      PageThere(m, dirs, k);
      PageThere(n, dirs', k);
    }
    forall k: DirKey | k.p in dirs'
      ensures k in Tables(n, dirs') <==> k in Tables(m, dirs)
      ensures k in Tables(m, dirs) ==> Tables(n, dirs')[k] == Tables(m, dirs)[k]
    {
      TableThere(m, dirs, k);
      TableThere(n, dirs', k);
    }
  }

  // ---------- Fork, then exit ----------

  /** Counts are a function of the entries. */
  lemma SameRefsSameCounts(m: Mem, n: Mem, dirs: Dirs)
    requires Core(m, dirs) && Core(n, dirs) && SameKernelCounts(m, n) && n.start == m.start
    requires Tables(n, dirs) == Tables(m, dirs)
    requires Pages(n, dirs).Keys == Pages(m, dirs).Keys
    requires forall k | k in Pages(m, dirs) :: Pages(n, dirs)[k].index == Pages(m, dirs)[k].index
    ensures n.counts == m.counts && n.free == m.free
  {
    hide Tables, Pages, TablesOwned, PagesSafe, KernelFrames;
    forall f | 0 <= f < |m.counts| ensures n.counts[f] == m.counts[f] {
      if InUserFrames(f, |m.counts|) {
        assert PageRefs(Pages(n, dirs), f) == PageRefs(Pages(m, dirs), f);
      }
    }
  }

  lemma SameDirectories(m: Mem, o: Mem, dirs: Dirs)
    requires forall q | q in dirs :: o.Frame(dirs[q]) == m.Frame(dirs[q])
    ensures Tables(o, dirs) == Tables(m, dirs)
  {
    TablesKeys(o, dirs);
    TablesKeys(m, dirs);
    hide Tables;
    forall k: DirKey | k.p in dirs
      ensures k in Tables(o, dirs) <==> k in Tables(m, dirs)
      ensures k in Tables(m, dirs) ==> Tables(o, dirs)[k] == Tables(m, dirs)[k]
    {
      TableThere(o, dirs, k);
      TableThere(m, dirs, k);
    }
  }

  lemma RestoredCounts(m: Mem, o: Mem, dirs: Dirs, p: nat, c: nat)
    requires Core(m, dirs) && Core(o, dirs) && SameKernelCounts(m, o) && o.start == m.start && c !in dirs
    requires forall q | q in dirs :: o.Frame(dirs[q]) == m.Frame(dirs[q])
    requires Pages(o, dirs) == Dropped(ForkedAll(Pages(m, dirs), p, c), c, SELF_SLOT * 1024)
    ensures o.counts == m.counts && o.free == m.free
  {
    PagesKeys(m, dirs);
    LowPages(o, dirs);
    hide Core, Pages, Tables, Dropped, ForkedAll;
    SameDirectories(m, o, dirs);
    RestoredPages(Pages(m, dirs), p, c);
    SameRefsSameCounts(m, o, dirs);
  }

  /** A fork and the exit of the untouched child put every byte of `memory_map` back. */
  lemma ForkExitRestores(m: Mem, dirs: Dirs, p: nat, c: nat, cd: FrameNo)
    requires Core(m, dirs) && p in dirs && DirectoryPage(dirs, c, cd)
    requires CopyDirectory(m, dirs[p], cd).Done?
    ensures var r := FreeDirectory(CopyDirectory(m, dirs[p], cd).value, cd);
      && r.Done?
      && r.value.counts == m.counts && r.value.free == m.free
  {
    assert m.Sized();
    hide Core, Pages, Tables, CopyDirectory, FreeDirectory, Zeros, Dropped, ForkedAll;
    CopyDirectoryCore(m, dirs, p, c, cd);
    var n, dirs' := CopyDirectory(m, dirs[p], cd).value, dirs[c := cd];
    FreeDirectoryCore(n, dirs', c);
    SameStart(m, dirs, p, cd);
    assert dirs' - {c} == dirs;
    RestoredCounts(m, FreeDirectory(n, cd).value, dirs, p, c);
  }

  lemma {:induction false} SlotsStart(m: Mem, pd: FrameNo, cd: FrameNo, d: nat)
    requires m.Sized() && d <= SELF_SLOT && CopySlots(m, pd, cd, d).Done?
    ensures CopySlots(m, pd, cd, d).value.start == m.start
    decreases SELF_SLOT - d
  {
    hide ShareEntries;
    if d >= SELF_SLOT {
    } else {
      if !m.Frame(cd)[d].present {
        SlotsStart(m, pd, cd, d + 1);
      } else {
        var table := m.Frame(pd)[d].index;
        var s := ShareEntries(m.counts, m.Frame(table), 0).value;
        var g := CopyPage(m.(counts := s.counts).SetFrame(table, s.table), table).value;
        var dir := g.m.Frame(cd);
        SlotsStart(g.m.SetFrame(cd, dir[d := dir[d].(index := g.f)]), pd, cd, d + 1);
      }
    }
  }

  lemma SameStart(m: Mem, dirs: Dirs, p: nat, cd: FrameNo)
    requires Core(m, dirs) && p in dirs && CopyDirectory(m, dirs[p], cd).Done?
    ensures CopyDirectory(m, dirs[p], cd).value.start == m.start
    ensures FreeDirectory(CopyDirectory(m, dirs[p], cd).value, cd).Done? ==>
      FreeDirectory(CopyDirectory(m, dirs[p], cd).value, cd).value.start == m.start
  {
    assert m.Sized();
    hide Core, CopySlots, PutSlots;
    SlotsStart(m.SetFrame(cd, m.Frame(dirs[p])[SELF_SLOT := EntryInit(cd)]), dirs[p], cd, KERNEL_SLOTS);
  }

  lemma RestoredPages(pages: map<PageKey, Word>, p: nat, c: nat)
    requires forall k | k in pages :: k.p != c
    ensures var left := Dropped(ForkedAll(pages, p, c), c, SELF_SLOT * 1024);
      && (forall k | k in pages :: k in left && left[k].index == pages[k].index)
      && (forall k | k in left && k.v < SELF_SLOT * 1024 :: k in pages)
  {
  }
}
