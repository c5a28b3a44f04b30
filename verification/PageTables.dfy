/** Physical frames, their reference counts, and the two-level page tables kept inside them
    (src/kernel/memory.c).  Page directories and tables are frames whose 1024 words are read
    as `page_entry_t`; a user page is a frame whose words are plain data. */
module PageTables {
  import opened Outcomes
  import opened Unsigned

  /** The first four directory slots map the kernel and are shared by every address space. */
  const KERNEL_SLOTS: nat := 4
  /** The last directory slot maps the directory itself. */
  const SELF_SLOT: nat := 1023
  /** The frames of the first 16 megabytes, all taken by the kernel. */
  const KERNEL_FRAMES: nat := 4096
  /** The frame of the boot page directory, `KERNEL_PAGE_DIR`. */
  const KERNEL_DIRECTORY: FrameNo := 1

  const USER_EXEC: Vpn := 0x1000
  const USER_MMAP: Vpn := 0x8000
  const STACK_BOTTOM: Vpn := 0xFE00
  const STACK_TOP: Vpn := 0x10000

  /** An index into a directory or a table, and a word offset inside a page. */
  type Idx = n: nat | n < 1024
  /** A virtual page number: directory slot `v / 1024`, table index `v % 1024`. */
  type Vpn = n: nat | n < 0x100000
  /** A physical frame number, the 20-bit `index` of an entry. */
  type FrameNo = n: nat | n < 0x100000
  /** An element of `memory_map`. */

  /** A 32-bit word, split into the fields of `page_entry_t`.  Every word of memory can be
      seen this way, so data pages and tables need no separate types. */
  datatype Word = Word(present: bool, write: bool, user: bool, low: nat,
                       shared: bool, privat: bool, readonly: bool, index: FrameNo)

  const ZERO_WORD := Word(false, false, false, 0, false, false, false, 0)

  type Page = s: seq<Word> | |s| == 1024 witness seq(1024, i => ZERO_WORD)

  /** A page of zeros, as `memset` leaves it. */
  function ZeroPage(): Page {
    seq(1024, i => ZERO_WORD)
  }

  /** `entry_init`. */
  function EntryInit(f: FrameNo): Word {
    Word(true, true, true, 0, false, false, false, f)
  }

  /** The variables `start_page`, `memory_map`, `free_pages` and physical memory. */
  datatype Mem = Mem(start: nat, counts: seq<Byte>, free: int, phys: seq<Page>) {
    predicate Sized() {
      |counts| == |phys| <= 0x100000 && start <= |counts|
    }

    function Frame(f: FrameNo): Page {
      if f < |phys| then phys[f] else ZeroPage()
    }

    function SetFrame(f: FrameNo, page: Page): (m: Mem)
      ensures m == this.(phys := m.phys)
      ensures |m.phys| == |phys|
    {
      if f < |phys| then this.(phys := phys[f := page]) else this
    }

    /** The word at table index `v % 1024` of the table in directory slot `v / 1024`. */
    function Entry(pd: FrameNo, v: Vpn): Word {
      Frame(Frame(pd)[v / 1024].index)[v % 1024]
    }

    function SetEntry(pd: FrameNo, v: Vpn, w: Word): (m: Mem)
      ensures m == this.(phys := m.phys)
      ensures |m.phys| == |phys|
    {
      var table := Frame(pd)[v / 1024].index;
      SetFrame(table, Frame(table)[v % 1024 := w])
    }
  }

  // ---------- Frames ----------

  /** A frame just taken, with the memory after taking it. */
  datatype Grant = Grant(m: Mem, f: FrameNo)

  /** `memory_map` and one table after a table was shared. */
  datatype Shared = Shared(counts: seq<Byte>, table: Page)

  /** The lowest free frame at or above `i`. */
  function FirstFree(counts: seq<Byte>, i: nat): (f: nat)
    requires i <= |counts|
    ensures i <= f <= |counts|
    ensures f < |counts| ==> counts[f] == 0
    ensures forall k | i <= k < f :: counts[k] != 0
    decreases |counts| - i
  {
    if i == |counts| || counts[i] == 0 then i else FirstFree(counts, i + 1)
  }

  /** `get_page`. */
  function GetPage(m: Mem): Outcome<Grant>
    requires m.Sized()
  {
    var f := FirstFree(m.counts, m.start);
    if f == |m.counts| then Halt(OutOfMemory)
    else Done(Grant(m.(counts := m.counts[f := 1], free := m.free - 1), f))
  }

  /** `put_page`, with its three assertions. */
  function PutPage(m: Mem, f: FrameNo): (r: Outcome<Mem>)
    requires m.Sized()
    ensures r.Done? ==> r.value.Sized() && r.value.phys == m.phys && r.value.start == m.start
  {
    if !(m.start <= f < |m.counts|) || m.counts[f] == 0 then Halt(CountCheck)
    else
      var c := m.counts[f] - 1;
      var free := if c == 0 then m.free + 1 else m.free;
      if 0 < free < |m.counts| then Done(m.(counts := m.counts[f := c], free := free)) else Halt(CountCheck)
  }

  /** `copy_page`: a new frame with the contents of `src`. */
  function CopyPage(m: Mem, src: FrameNo): (r: Outcome<Grant>)
    requires m.Sized()
    ensures r.Done? ==> r.value.m.Sized()
  {
    var g :- GetPage(m);
    Done(Grant(g.m.SetFrame(g.f, m.Frame(src)), g.f))
  }

  // ---------- Entries ----------

  /** `get_pte` with `create`: the table for `v` exists afterwards. */
  function GetTable(m: Mem, pd: FrameNo, v: Vpn): (r: Outcome<Mem>)
    requires m.Sized()
    ensures r.Done? ==> r.value.Sized()
  {
    var dir := m.Frame(pd);
    if dir[v / 1024].present then Done(m)
    else
      var g :- GetPage(m);
      Done(g.m.SetFrame(pd, dir[v / 1024 := EntryInit(g.f)]).SetFrame(g.f, ZeroPage()))
  }

  /** `link_page`. */
  function LinkPage(m: Mem, pd: FrameNo, v: Vpn): (r: Outcome<Mem>)
    requires m.Sized()
    ensures r.Done? ==> r.value.Sized()
  {
    var m1 :- GetTable(m, pd, v);
    if m1.Entry(pd, v).present then Done(m1)
    else
      var g :- GetPage(m1);
      Done(g.m.SetEntry(pd, v, EntryInit(g.f)))
  }

  /** `unlink_page`. */
  function UnlinkPage(m: Mem, pd: FrameNo, v: Vpn): (r: Outcome<Mem>)
    requires m.Sized()
    ensures r.Done? ==> r.value.Sized()
  {
    if !m.Frame(pd)[v / 1024].present then Done(m)
    else
      var w := m.Entry(pd, v);
      if !w.present then Done(m) else PutPage(m.SetEntry(pd, v, w.(present := false)), w.index)
  }

  /** Unlinking `n` pages from `v` on, the loop of `sys_brk` and of `sys_munmap`. */
  function UnlinkRange(m: Mem, pd: FrameNo, v: nat, n: nat): (r: Outcome<Mem>)
    requires m.Sized() && v + n <= STACK_TOP
    ensures r.Done? ==> r.value.Sized()
    decreases n
  {
    if n == 0 then Done(m)
    else
      var m1 :- UnlinkPage(m, pd, v);
      UnlinkRange(m1, pd, v + 1, n - 1)
  }

  /** What `sys_mmap` was asked for: `PROT_WRITE`, `MAP_SHARED`, `MAP_PRIVATE`. */
  datatype Mode = Mode(write: bool, shared: bool, privat: bool)

  /** The flag bits `sys_mmap` puts on a linked entry. */
  function WithMode(w: Word, mode: Mode): Word {
    w.(user := true, write := mode.write, readonly := !mode.write,
       shared := w.shared || mode.shared, privat := w.privat || mode.privat)
  }

  /** One round of the loop of `sys_mmap`. */
  function MapPage(m: Mem, pd: FrameNo, v: Vpn, mode: Mode): (r: Outcome<Mem>)
    requires m.Sized()
    ensures r.Done? ==> r.value.Sized()
  {
    var m1 :- LinkPage(m, pd, v);
    Done(m1.SetEntry(pd, v, WithMode(m1.Entry(pd, v), mode)))
  }

  function MapRange(m: Mem, pd: FrameNo, v: nat, n: nat, mode: Mode): (r: Outcome<Mem>)
    requires m.Sized() && v + n <= STACK_TOP
    ensures r.Done? ==> r.value.Sized()
    decreases n
  {
    if n == 0 then Done(m)
    else
      var m1 :- MapPage(m, pd, v, mode);
      MapRange(m1, pd, v + 1, n - 1, mode)
  }

  /** The branch of `page_fault` for a write to a present page. */
  function WriteFault(m: Mem, pd: FrameNo, v: Vpn): (r: Outcome<Mem>)
    requires m.Sized()
    ensures r.Done? ==> r.value.Sized()
  {
    if !m.Frame(pd)[v / 1024].present then Halt(Rejected)
    else
      var w := m.Entry(pd, v);
      if !w.present || w.shared || w.readonly then Halt(Rejected)
      else if w.index >= |m.counts| || m.counts[w.index] == 0 then Halt(CountCheck)
      else if m.counts[w.index] == 1 then Done(m.SetEntry(pd, v, w.(write := true)))
      else
        var g :- CopyPage(m, w.index);
        var counts := g.m.counts[w.index := m.counts[w.index] - 1];
        Done(g.m.(counts := counts).SetEntry(pd, v, EntryInit(g.f)))
  }

  // ---------- Whole address spaces ----------

  /** Read-only unless shared, as `copy_pde` leaves every present entry. */
  function Protect(w: Word): Word {
    if w.present && !w.shared then w.(write := false) else w
  }

  /** `++` on a `u8`. */
  function Increment(c: Byte): Byte {
    (c as int + 1) % 256
  }

  /** The inner loop of `copy_pde` from index `t` on: protect the entries of one table and
      count one more reference to each frame. */
  function ShareEntries(counts: seq<Byte>, table: Page, t: nat): (r: Outcome<Shared>)
    requires t <= 1024
    ensures r.Done? ==> |r.value.counts| == |counts|
    decreases 1024 - t
  {
    if t == 1024 then Done(Shared(counts, table))
    else
      var e := table[t];
      if !e.present then ShareEntries(counts, table, t + 1)
      else if e.index >= |counts| || counts[e.index] == 0 then Halt(CountCheck)
      else
        var c := Increment(counts[e.index]);
        if c < 255 then ShareEntries(counts[e.index := c], table[t := Protect(e)], t + 1)
        else Halt(CountCheck)
  }

  /** The outer loop of `copy_pde` from directory slot `d` on: the directory in frame `cd`
      starts as a copy of the one in `pd` and gets its own copy of each table. */
  function CopySlots(m: Mem, pd: FrameNo, cd: FrameNo, d: nat): (r: Outcome<Mem>)
    requires m.Sized() && d <= SELF_SLOT
    ensures r.Done? ==> r.value.Sized()
    decreases SELF_SLOT - d
  {
    if d == SELF_SLOT then Done(m)
    else if !m.Frame(cd)[d].present then CopySlots(m, pd, cd, d + 1)
    else
      var table := m.Frame(pd)[d].index;
      var s :- ShareEntries(m.counts, m.Frame(table), 0);
      var g :- CopyPage(m.(counts := s.counts).SetFrame(table, s.table), table);
      var dir := g.m.Frame(cd);
      CopySlots(g.m.SetFrame(cd, dir[d := dir[d].(index := g.f)]), pd, cd, d + 1)
  }

  /** `copy_pde`, with `cd` the kernel page that `alloc_kpage` returned. */
  function CopyDirectory(m: Mem, pd: FrameNo, cd: FrameNo): (r: Outcome<Mem>)
    requires m.Sized()
    ensures r.Done? ==> r.value.Sized()
  {
    CopySlots(m.SetFrame(cd, m.Frame(pd)[SELF_SLOT := EntryInit(cd)]), pd, cd, KERNEL_SLOTS)
  }

  /** The inner loop of `free_pde` from index `t` on. */
  function PutEntries(m: Mem, table: Page, t: nat): (r: Outcome<Mem>)
    requires m.Sized() && t <= 1024
    ensures r.Done? ==> r.value.Sized() && r.value.phys == m.phys && r.value.start == m.start
    decreases 1024 - t
  {
    if t == 1024 then Done(m)
    else if !table[t].present then PutEntries(m, table, t + 1)
    else
      var m1 :- PutPage(m, table[t].index);
      PutEntries(m1, table, t + 1)
  }

  /** The outer loop of `free_pde` from directory slot `d` on. */
  function PutSlots(m: Mem, pd: FrameNo, d: nat): (r: Outcome<Mem>)
    requires m.Sized() && d <= SELF_SLOT
    ensures r.Done? ==> r.value.Sized() && r.value.phys == m.phys && r.value.start == m.start
    decreases SELF_SLOT - d
  {
    if d == SELF_SLOT then Done(m)
    else if !m.Frame(pd)[d].present then PutSlots(m, pd, d + 1)
    else
      var table := m.Frame(pd)[d].index;
      var m1 :- PutEntries(m, m.Frame(table), 0);
      var m2 :- PutPage(m1, table);
      PutSlots(m2, pd, d + 1)
  }

  /** `free_pde`. */
  function FreeDirectory(m: Mem, pd: FrameNo): (r: Outcome<Mem>)
    requires m.Sized()
    ensures r.Done? ==> r.value.Sized() && r.value.phys == m.phys && r.value.start == m.start
  {
    PutSlots(m, pd, KERNEL_SLOTS)
  }
}
