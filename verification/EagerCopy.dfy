/** The simple machine that copy-on-write stands in for: every address space has its own copy
    of each private page, fork copies them all, and only pages mapped shared are shared. */
module EagerCopy {
  import opened Outcomes
  import opened Bitmaps
  import opened PageTables
  import opened FrameCounts
  import opened AddressSpaces

  /** A page as its task sees it: its words, whether it may be written, and, for a shared
      page, the name of what it shares. */
  datatype Cell = Cell(words: Page, readonly: bool, share: Option<FrameNo>)

  type World = map<PageKey, Cell>

  datatype Eager = Eager(world: World, tasks: map<nat, Space>)

  // ---------- Steps ----------

  ghost function Copied(w: World, p: nat, c: nat): World {
    w + map k | k in CopyKeys(w, p, c) :: w[PageKey(p, k.v)]
  }

  ghost function CopyKeys(w: World, p: nat, c: nat): (ks: set<PageKey>)
    ensures forall k: PageKey :: k in ks <==> k.p == c && PageKey(p, k.v) in w
  {
    var ks := set k | k in w.Keys && k.p == p :: PageKey(c, k.v);
    assert forall k: PageKey | k.p == c && PageKey(p, k.v) in w :: PageKey(c, PageKey(p, k.v).v) == k;
    ks
  }

  ghost function WithoutTask(w: World, p: nat): World {
    map k | k in w && k.p != p :: w[k]
  }

  predicate InRange(k: PageKey, p: nat, v: nat, n: nat) {
    k.p == p && v <= k.v < v + n
  }

  ghost function WithoutRange(w: World, p: nat, v: nat, n: nat): World {
    map k | k in w && !InRange(k, p, v, n) :: w[k]
  }

  /** Mapping `n` pages from `v` on: absent pages appear with arbitrary words (frames are not
      cleared), present ones keep theirs, and a page that becomes shared shares with nobody. */
  ghost predicate Mapped(w: World, w': World, p: nat, v: nat, n: nat, mode: Mode) {
    && (forall k: PageKey :: k in w' <==> k in w || InRange(k, p, v, n))
    && (forall k | k in w' && !InRange(k, p, v, n) :: w'[k] == w[k])
    && (forall k | k in w' && InRange(k, p, v, n) :: MappedCell(w, w', k, mode))
  }

  ghost predicate MappedCell(w: World, w': World, k: PageKey, mode: Mode)
    requires k in w'
  {
    && w'[k].readonly == !mode.write
    && (k in w ==> w'[k].words == w[k].words)
    && (k in w && w[k].share.Some? ==> w'[k].share == w[k].share)
    && (!(k in w && w[k].share.Some?) ==>
          if mode.shared then w'[k].share.Some? && forall l | l in w' && l != k :: w'[l].share != w'[k].share
          else w'[k].share == None)
  }

  /** A store to a private page changes that page; to a shared page, all pages that share. */
  ghost function Stored(w: World, k: PageKey, offset: Idx, word: Word): World
    requires k in w
  {
    map l | l in w ::
      if l == k || (w[k].share.Some? && w[l].share == w[k].share) then w[l].(words := w[l].words[offset := word])
      else w[l]
  }

  ghost predicate EagerStep(e: Eager, step: Step, e': Eager) {
    match step
    case Spawn(p, _) =>
      e' == e.(tasks := e.tasks[p := NewSpace(0)])
    case Fork(p, c, _) =>
      p in e.tasks && e' == Eager(Copied(e.world, p, c), e.tasks[c := e.tasks[p]])
    case Exit(p) =>
      e' == Eager(WithoutTask(e.world, p), e.tasks - {p})
    case Brk(p, brk) =>
      && p in e.tasks
      && if brk < e.tasks[p].brk then
           e' == Eager(WithoutRange(e.world, p, brk, e.tasks[p].brk - brk), e.tasks[p := e.tasks[p].(brk := brk)])
         else
           e' == e || e' == e.(tasks := e.tasks[p := e.tasks[p].(brk := brk)])
    case Mmap(p, addr, n, mode) =>
      && p in e.tasks && MmapAt(e.tasks[p], addr, n).Done?
      && var v := MmapAt(e.tasks[p], addr, n).value;
      && USER_MMAP <= v && v - USER_MMAP + n <= |e.tasks[p].vmap|
      && Mapped(e.world, e'.world, p, v, n, mode)
      && e'.tasks == e.tasks[p := e.tasks[p].(vmap := SetRun(e.tasks[p].vmap, v - USER_MMAP, n, true))]
    case Munmap(p, addr, n) =>
      && p in e.tasks && USER_MMAP <= addr && addr - USER_MMAP + n <= |e.tasks[p].vmap|
      && e' == Eager(WithoutRange(e.world, p, addr, n),
                     e.tasks[p := e.tasks[p].(vmap := SetRun(e.tasks[p].vmap, addr - USER_MMAP, n, false))])
    case Fault(p, v, write) =>
      if v < USER_EXEC || v >= STACK_TOP then e' == Eager(WithoutTask(e.world, p), e.tasks - {p})
      else if PageKey(p, v) in e.world then e' == e
      else
        && p in e.tasks && (v < e.tasks[p].brk || v >= STACK_BOTTOM)
        && e'.tasks == e.tasks
        && PageKey(p, v) in e'.world
        && e'.world == e.world[PageKey(p, v) := Cell(e'.world[PageKey(p, v)].words, false, None)]
    case Store(p, v, offset, word) =>
      && PageKey(p, v) in e.world && !e.world[PageKey(p, v)].readonly
      && e' == e.(world := Stored(e.world, PageKey(p, v), offset, word))
  }

  // ---------- What the simple machine guarantees ----------

  /** A child starts with exactly its parent's pages. */
  lemma ForkCopies(e: Eager, p: nat, c: nat, cd: FrameNo, e': Eager)
    requires EagerStep(e, Fork(p, c, cd), e') && p != c && forall k | k in e.world :: k.p != c
    ensures forall v: Vpn :: PageKey(c, v) in e'.world <==> PageKey(p, v) in e'.world
    ensures forall v: Vpn | PageKey(p, v) in e'.world :: e'.world[PageKey(c, v)] == e'.world[PageKey(p, v)]
    ensures forall k | k in e.world :: k in e'.world && e'.world[k] == e.world[k]
  {
    forall v: Vpn | PageKey(p, v) in e.world ensures PageKey(c, v) in CopyKeys(e.world, p, c) {
    }
  }

  /** A write is seen by another task only through the same shared mapping. */
  lemma StoreIsolated(e: Eager, p: nat, v: Vpn, offset: Idx, word: Word, e': Eager, q: nat, u: Vpn)
    requires EagerStep(e, Store(p, v, offset, word), e') && PageKey(q, u) in e.world && (q, u) != (p, v)
    ensures PageKey(q, u) in e'.world
    ensures e'.world[PageKey(q, u)] != e.world[PageKey(q, u)] ==>
      e.world[PageKey(p, v)].share.Some? && e.world[PageKey(q, u)].share == e.world[PageKey(p, v)].share
  {
  }

  // ---------- The bitmap of mapped pages ----------

  /** Every page belongs to a live task, and in the mapping zone a page is present iff its bit
      of `vmap` is set. */
  ghost predicate BitsAgree(e: Eager) {
    && (forall k | k in e.world :: k.p in e.tasks)
    && (forall p | p in e.tasks :: |e.tasks[p].vmap| == VMAP_BITS && e.tasks[p].brk <= USER_MMAP)
    && (forall p, v: Vpn | p in e.tasks && USER_MMAP <= v < STACK_BOTTOM ::
          e.tasks[p].vmap[v - USER_MMAP] <==> PageKey(p, v) in e.world)
  }

  lemma BitsAfter(e: Eager, step: Step, e': Eager)
    requires BitsAgree(e) && EagerStep(e, step, e')
    requires step.Spawn? ==> step.p !in e.tasks
    requires step.Fork? ==> step.c !in e.tasks
    requires step.Brk? && step.p in e.tasks ==> e'.tasks[step.p].brk <= USER_MMAP
    ensures BitsAgree(e')
  {
    match step
    case Spawn(p, _) =>
    case Fork(p, c, _) =>
      forall v: Vpn ensures PageKey(c, v) in e'.world <==> PageKey(p, v) in e.world {
        assert PageKey(c, v) in CopyKeys(e.world, p, c) <==> PageKey(p, v) in e.world;
      }
    case Exit(p) =>
    case Brk(p, brk) =>
    case Mmap(p, addr, n, mode) =>
    case Munmap(p, addr, n) =>
    case Fault(p, v, _) =>
    case Store(p, v, offset, word) =>
  }
}
