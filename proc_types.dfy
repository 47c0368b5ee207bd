/** The entities of the process table of proc.c: control blocks, their memory-map
    slots and saved registers, page-table entries, and the log of calls into the
    collaborators (page allocator, file layer, address-space helpers). */
module ProcTypes {
  import opened Common

  /** Slots in the process table (xv6 param.h). */
  const NPROC: nat := 64
  /** Open files per process (xv6 param.h). */
  const NOFILE: nat := 16
  /** Memory-map slots per control block, proc.c:805 and trap.c:62. */
  const NMMAP: nat := 4
  /** Global cap on live mappings, proc.c:798. */
  const MAX_MMAPS: nat := 16
  /** Mapping window of slot k starts at MMAP_BASE + k * MMAP_STRIDE, proc.c:820. */
  const MMAP_BASE: int := 0x4000_0000
  const MMAP_STRIDE: int := 0x10_0000
  /** Protection bit asking for a writable mapping (bit 1, as PROT_WRITE in mmap_test.c). */
  const MAP_PROT_WRITE: int := 2
  /** `(uint)MAP_FAILED`, the all-ones address that callers compare with `(char*)-1`. */
  const MAP_FAILED: u32 := 0xFFFF_FFFF
  /** Page-table entry permission bits (x86 mmu.h). */
  const PTE_P: int := 1
  const PTE_W: int := 2
  const PTE_U: int := 4
  /** Time slice given on admission, on sleep and on demotion. */
  const TIME_SLICE: int := 4
  /** Lowest MLFQ level (levels are 0, 1, 2). */
  const LOWEST_LEVEL: int := 2

  datatype ProcState = Unused | Embryo | Sleeping | Runnable | Running | Zombie

  /** A sleep channel: an address used only for its identity.  The channels the core
      uses are the address of a control block, the tick counter, and the int cell of
      an advisory mutex; `NoChan` is the null pointer. */
  datatype Chan = NoChan | ProcChan(slot: nat) | TicksChan | Addr(a: int)

  /** The part of the saved user registers that the core reads or writes. */
  datatype TrapFrame = TrapFrame(eax: u32, esp: u32, ebp: u32, eip: u32, cs: u32)

  /** An open file as mmap sees it: an identity and its `writable` flag. */
  datatype FileRef = FileRef(id: int, writable: bool)

  /** `struct mmap_page`: one memory-map slot.  `file` is the duplicated file
      reference (0 when none). */
  datatype MmapSlot = MmapSlot(used: bool, addr: u32, length: i32, offset: i32,
                               fd: int, prot: i32, file: int)

  /** `struct proc`, one control block.  `parent` is a slot index (None is the null
      pointer); `kstack`, `pgdir`, `cwd` and the entries of `ofile` are handles of
      collaborator objects, 0 meaning none. */
  datatype Proc = Proc(
    state: ProcState, pid: int, tid: int, parent: Option<nat>, isThread: bool,
    killed: bool, chan: Chan, nice: int, priority: int, timeSlice: int, ticks: int,
    kstack: int, pgdir: int, sz: u32, tf: TrapFrame, ofile: seq<int>, cwd: int,
    mmaps: seq<MmapSlot>)

  /** A page-table entry: present bit, write permission, dirty bit (set by the MMU)
      and the physical address of the page. */
  datatype Pte = Pte(present: bool, writable: bool, dirty: bool, pa: int)

  /** The entry `*pte = 0` leaves behind. */
  const ZeroPte: Pte := Pte(false, false, false, 0)

  /** A page table: page-aligned virtual address to entry; a missing key is an entry
      that `walkpgdir` does not find. */
  type PageTable = map<int, Pte>

  /** The page tables of all address spaces, by `pgdir` handle. */
  type AddressSpaces = map<int, PageTable>

  /** Calls the core makes into code outside it, in the order it makes them. */
  datatype Event =
    | KFree(page: int)                                       // kfree
    | FreeVm(pgdir: int)                                     // freevm
    | FileDup(file: int)                                     // filedup
    | FileClose(file: int)                                   // fileclose
    | IDup(inode: int)                                       // idup
    | IPut(inode: int)                                       // begin_op; iput; end_op
    | ReadPage(file: int, offset: u32, count: int, page: int)   // ilock; readi; iunlock
    | WritePage(file: int, offset: u32, count: int, page: int)  // begin_op; writei; end_op
    | CopyUserStack(dst: u32, src: u32)                      // memmove of one page in clone

  const EmptyMmap: MmapSlot := MmapSlot(false, 0, 0, 0, 0, 0, 0)

  /** A control block as the zero-initialised table holds it at boot. */
  function BootProc(): (p: Proc)
    ensures p.state == Unused && |p.ofile| == NOFILE && |p.mmaps| == NMMAP
  {
    Proc(Unused, 0, 0, None, false, false, NoChan, 0, 0, 0, 0, 0, 0, 0,
         TrapFrame(0, 0, 0, 0, 0), seq(NOFILE, _ => 0), 0, seq(NMMAP, _ => EmptyMmap))
  }

  /** Start of the mapping window of slot k, proc.c:820. */
  function MmapBase(k: nat): int { MMAP_BASE + k * MMAP_STRIDE }

  /** What the invariants demand of memory-map slot k of any control block: a used
      slot sits at its own window, has a positive length and a page-aligned offset
      (the only slots mmap fills, proc.c:794-795, proc.c:820-826). */
  ghost predicate MmapSlotOk(m: MmapSlot, k: nat) {
    m.used ==> m.addr == MmapBase(k) && m.length > 0 && m.offset % PGSIZE == 0
  }

  /** Per-slot invariant of the process table. */
  ghost predicate ProcOk(p: Proc) {
    && 0 <= p.priority <= LOWEST_LEVEL
    && -5 <= p.nice <= 4
    && (p.state != Unused ==> 1 <= p.timeSlice <= TIME_SLICE)
    && (p.parent.Some? ==> p.parent.value < NPROC)
    && |p.ofile| == NOFILE
    && |p.mmaps| == NMMAP
    && (forall k :: 0 <= k < NMMAP ==> MmapSlotOk(p.mmaps[k], k))
  }
}
