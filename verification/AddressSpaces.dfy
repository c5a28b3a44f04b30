/** The system calls and faults that change address spaces (src/kernel/memory.c, with fork,
    exit and the first user task of src/kernel/task.c), as steps of one machine. */
module AddressSpaces {
  import opened Outcomes
  import opened Bitmaps
  import opened PageTables

  /** The part of `task_t` that concerns memory.  `vmap` has one bit for each page from
      USER_MMAP on; `brk` and `end` are page numbers, since both are page aligned. */
  datatype Space = Space(pde: FrameNo, vmap: seq<bool>, brk: nat, end: nat)

  const VMAP_BITS: nat := 0x8000

  /** A task's memory before its program is loaded. */
  function NewSpace(pde: FrameNo): (space: Space)
    ensures |space.vmap| == VMAP_BITS && forall i | 0 <= i < VMAP_BITS :: !space.vmap[i]
  {
    Space(pde, seq(VMAP_BITS, i => false), USER_EXEC, USER_EXEC)
  }

  /** Physical memory and the live user address spaces, by task number. */
  datatype VM = VM(m: Mem, spaces: map<nat, Space>)

  datatype Step =
    | Spawn(p: nat, cd: FrameNo)                          // task_to_user_mode
    | Fork(p: nat, c: nat, cd: FrameNo)                   // task_fork
    | Exit(p: nat)                                        // task_exit
    | Brk(p: nat, brk: nat)                               // sys_brk
    | Mmap(p: nat, addr: Vpn, n: nat, mode: Mode)         // sys_mmap without a file
    | Munmap(p: nat, addr: Vpn, n: nat)                   // sys_munmap
    | Fault(p: nat, v: Vpn, write: bool)                  // page_fault
    | Store(p: nat, v: Vpn, offset: Idx, word: Word)      // a user-mode write

  /** What the processor lets a user-mode access do: both levels must allow it. */
  predicate Permits(m: Mem, pd: FrameNo, v: Vpn, write: bool) {
    var dir, entry := m.Frame(pd)[v / 1024], m.Entry(pd, v);
    && dir.present && dir.user && entry.present && entry.user
    && (write ==> dir.write && entry.write)
  }

  /** `task_to_user_mode`: a directory copied from the boot directory and an empty bitmap. */
  function DoSpawn(vm: VM, p: nat, cd: FrameNo): Outcome<VM>
    requires vm.m.Sized()
  {
    var m :- CopyDirectory(vm.m, KERNEL_DIRECTORY, cd);
    Done(VM(m, vm.spaces[p := NewSpace(cd)]))
  }

  function DoFork(vm: VM, p: nat, c: nat, cd: FrameNo): Outcome<VM>
    requires vm.m.Sized() && p in vm.spaces
  {
    var m :- CopyDirectory(vm.m, vm.spaces[p].pde, cd);
    Done(VM(m, vm.spaces[c := vm.spaces[p].(pde := cd)]))
  }

  function DoExit(vm: VM, p: nat): Outcome<VM>
    requires vm.m.Sized() && p in vm.spaces
  {
    var m :- FreeDirectory(vm.m, vm.spaces[p].pde);
    Done(VM(m, vm.spaces - {p}))
  }

  /** `sys_brk`.  Its check for memory compares with `free_pages`; a refused call changes
      nothing. */
  function DoBrk(vm: VM, p: nat, brk: nat): Outcome<VM>
    requires vm.m.Sized() && p in vm.spaces && vm.spaces[p].brk <= USER_MMAP
  {
    var space := vm.spaces[p];
    if !(space.end <= brk <= USER_MMAP) then Halt(Rejected)
    else if space.brk > brk then
      var m :- UnlinkRange(vm.m, space.pde, brk, space.brk - brk);
      Done(VM(m, vm.spaces[p := space.(brk := brk)]))
    else if brk - space.brk > vm.m.free then Done(vm)
    else Done(vm.(spaces := vm.spaces[p := space.(brk := brk)]))
  }

  /** Where `sys_mmap` puts `n` pages: at `addr`, or at the first run of clear bits. */
  function MmapAt(space: Space, addr: Vpn, n: nat): Outcome<nat> {
    if addr != 0 then Done(addr)
    else if n == 0 then Halt(Rejected)
    else match FirstRun(space.vmap, n)
      case None => Halt(Rejected)
      case Some(s) => Done(USER_MMAP + s)
  }

  /** `sys_mmap` with no file.  A range that leaves the bitmap writes outside it: rejected. */
  function DoMmap(vm: VM, p: nat, addr: Vpn, n: nat, mode: Mode): Outcome<VM>
    requires vm.m.Sized() && p in vm.spaces && |vm.spaces[p].vmap| == VMAP_BITS
  {
    var space := vm.spaces[p];
    var v :- MmapAt(space, addr, n);
    if !(USER_MMAP <= v < STACK_BOTTOM) || v + n > STACK_TOP then Halt(Rejected)
    else
      var m :- MapRange(vm.m, space.pde, v, n, mode);
      Done(VM(m, vm.spaces[p := space.(vmap := SetRun(space.vmap, v - USER_MMAP, n, true))]))
  }

  /** `sys_munmap`; a page without its bit fails the assertion, after it was unlinked. */
  function DoMunmap(vm: VM, p: nat, addr: Vpn, n: nat): Outcome<VM>
    requires vm.m.Sized() && p in vm.spaces && |vm.spaces[p].vmap| == VMAP_BITS
  {
    var space := vm.spaces[p];
    if !(USER_MMAP <= addr < STACK_BOTTOM) || addr + n > STACK_TOP then Halt(Rejected)
    else if !TakenRun(space.vmap, addr - USER_MMAP, n) then Halt(Rejected)
    else
      var m :- UnlinkRange(vm.m, space.pde, addr, n);
      Done(VM(m, vm.spaces[p := space.(vmap := SetRun(space.vmap, addr - USER_MMAP, n, false))]))
  }

  /** `page_fault` at page `v`. */
  function DoFault(vm: VM, p: nat, v: Vpn, write: bool): Outcome<VM>
    requires vm.m.Sized() && p in vm.spaces
  {
    var space := vm.spaces[p];
    if v < USER_EXEC || v >= STACK_TOP then DoExit(vm, p)
    else if vm.m.Frame(space.pde)[v / 1024].present && vm.m.Entry(space.pde, v).present then
      if !write then Halt(Rejected)
      else
        var m :- WriteFault(vm.m, space.pde, v);
        Done(vm.(m := m))
    else if v < space.brk || v >= STACK_BOTTOM then
      var m :- LinkPage(vm.m, space.pde, v);
      Done(vm.(m := m))
    else Halt(Rejected)
  }

  /** A user-mode write of one word, once the processor permits it. */
  function DoStore(vm: VM, p: nat, v: Vpn, offset: Idx, word: Word): VM
    requires vm.m.Sized() && p in vm.spaces
  {
    var f := vm.m.Entry(vm.spaces[p].pde, v).index;
    vm.(m := vm.m.SetFrame(f, vm.m.Frame(f)[offset := word]))
  }

  /** When a step can happen at all. */
  predicate Enabled(vm: VM, step: Step) {
    match step
    case Spawn(p, cd) => p !in vm.spaces && FreshDirectory(vm, p, cd)
    case Fork(p, c, cd) => p in vm.spaces && c !in vm.spaces && FreshDirectory(vm, c, cd)
    case Exit(p) => p in vm.spaces
    case Brk(p, _) => p in vm.spaces
    case Mmap(p, _, _, _) => p in vm.spaces
    case Munmap(p, _, _) => p in vm.spaces
    case Fault(p, v, write) => p in vm.spaces && !Permits(vm.m, vm.spaces[p].pde, v, write)
    case Store(p, v, _, _) => p in vm.spaces && v >= USER_EXEC && v < STACK_TOP && Permits(vm.m, vm.spaces[p].pde, v, true)
  }

  /** The kernel page for a new directory is one that no directory uses. */
  predicate FreshDirectory(vm: VM, c: nat, cd: FrameNo) {
    c < 64 && 256 <= cd < KERNEL_FRAMES && forall p | p in vm.spaces :: vm.spaces[p].pde != cd
  }

  /** Sizes that every state has. */
  predicate WellSized(vm: VM) {
    && vm.m.Sized()
    && forall p | p in vm.spaces ::
         |vm.spaces[p].vmap| == VMAP_BITS && USER_EXEC <= vm.spaces[p].end && vm.spaces[p].brk <= USER_MMAP
  }

  function Exec(vm: VM, step: Step): Outcome<VM>
    requires WellSized(vm) && Enabled(vm, step)
  {
    match step
    case Spawn(p, cd) => DoSpawn(vm, p, cd)
    case Fork(p, c, cd) => DoFork(vm, p, c, cd)
    case Exit(p) => DoExit(vm, p)
    case Brk(p, brk) => DoBrk(vm, p, brk)
    case Mmap(p, addr, n, mode) => DoMmap(vm, p, addr, n, mode)
    case Munmap(p, addr, n) => DoMunmap(vm, p, addr, n)
    case Fault(p, v, write) => DoFault(vm, p, v, write)
    case Store(p, v, offset, word) => Done(DoStore(vm, p, v, offset, word))
  }

  /** Memory when the first user task starts: the frames of the kernel, of `memory_map` and
      of the first megabyte are taken, the boot directory has no user tables. */
  ghost predicate Boot(vm: VM) {
    && vm.m.Sized() && KERNEL_FRAMES <= |vm.m.counts|
    && (forall f | 0 <= f < |vm.m.counts| :: vm.m.counts[f] == if f < KERNEL_FRAMES then 1 else 0)
    && 256 < vm.m.start <= 512
    && vm.m.free == |vm.m.counts| - vm.m.start
    && (forall d: Idx | KERNEL_SLOTS <= d < SELF_SLOT :: !vm.m.Frame(KERNEL_DIRECTORY)[d].present)
    && vm.spaces == map[]
  }
}
