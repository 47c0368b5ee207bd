/** The decisions of `trap` in trap.c: the page-fault handler, which maps a page
    of a memory-mapped file or a zeroed heap page on demand or kills the process,
    the timer-interrupt accounting of the MLFQ scheduler, the default case, and
    the checks that make a killed process exit.  The handlers work on the kernel
    state of the process table; `rcr2()`, the error code and `tf->cs` are
    parameters, and the results of `kalloc` and `mappages` are parameters too. */
module Trap {
  import opened Common
  import opened ProcTypes
  import opened ProcSpec
  import opened ProcTable

  // ---------------------------------------------------------------------------
  // The page-fault classifier, trap.c:52-125.

  /** One past the last byte of a slot's window, `addr + length` in `uint`. */
  function SlotEnd(m: MmapSlot): u32 {
    Wrap(m.addr + m.length)
  }

  /** The slot test of the fault handler's scan, trap.c:63. */
  predicate InSlot(m: MmapSlot, va: u32) {
    m.used && m.addr <= va < SlotEnd(m)
  }

  function MatchSlotFrom(ms: seq<MmapSlot>, va: u32, i: nat): (r: Option<nat>)
    decreases |ms| - i
    ensures r.Some? ==> i <= r.value < |ms| && InSlot(ms[r.value], va)
    ensures r.Some? ==> forall j :: i <= j < r.value ==> !InSlot(ms[j], va)
    ensures r.None? ==> forall j :: i <= j < |ms| ==> !InSlot(ms[j], va)
  {
    if i >= |ms| then None
    else if InSlot(ms[i], va) then Some(i)
    else MatchSlotFrom(ms, va, i + 1)
  }

  /** The first used slot whose window holds `va`, trap.c:62-67. */
  function MatchSlot(ms: seq<MmapSlot>, va: u32): Option<nat> { MatchSlotFrom(ms, va, 0) }

  /** The number of bytes read into the page at `page`, trap.c:85-86: a whole page,
      or what is left of the window when the page reaches past its end (the
      comparison in `uint`, the result converted to `int`). */
  function ReadCount(m: MmapSlot, page: u32): i32 {
    if Wrap(page + PGSIZE) > SlotEnd(m) then ToInt32(Wrap(SlotEnd(m) - page)) else PGSIZE
  }

  /** What the handler does with a fault. */
  datatype FaultAction =
    | KillProc                          // p->killed = 1, nothing mapped
    | MapFile(slot: nat, page: u32, offset: u32, count: int, writable: bool)
                                        // read `count` bytes of the slot's file at `offset` into a new page
    | MapZero(page: u32)                // a zeroed read-write page
    | Unhandled                         // falls through to the default case

  /** The decision of the fault handler for a fault at `va` with error code `err`,
      before any page is allocated: a kernel address kills; a fault in a slot's
      window maps a page of the file unless it writes to a slot without write
      permission; outside the windows, a protection fault (present bit set) kills
      and a fault below `sz` maps a zeroed page. */
  function ClassifyFault(va: u32, err: u32, ms: seq<MmapSlot>, sz: u32): (a: FaultAction)
    ensures a.MapFile? ==> a.slot < |ms| && a.page % PGSIZE == 0 && a.page <= va < a.page + PGSIZE
  {
    if va >= KERNBASE then KillProc
    else match MatchSlot(ms, va)
      case Some(s) =>
        if Bit1(err) && !Bit1(ms[s].prot) then KillProc
        else
          var page := PgRoundDown(va);
          MapFile(s, page, FileOffset(ms[s], page), ReadCount(ms[s], page), Bit1(ms[s].prot))
      case None =>
        if Bit0(err) then KillProc
        else if va < sz then MapZero(PgRoundDown(va))
        else Unhandled
  }

  /** A fault on a kernel address only kills (trap.c:56-59). */
  lemma KernelFaultKills(va: u32, err: u32, ms: seq<MmapSlot>, sz: u32)
    requires va >= KERNBASE
    ensures ClassifyFault(va, err, ms, sz) == KillProc
  {
  }

  /** A file page is mapped exactly for a user address in some slot's window that
      is not a write to a slot without write permission; it is the page of the
      first such slot holding `va`, read at the file offset of that page, and the
      page is writable exactly when the slot allows writing, so a write fault is
      only ever served by a writable page. */
  lemma FileFaultSpec(va: u32, err: u32, ms: seq<MmapSlot>, sz: u32)
    ensures ClassifyFault(va, err, ms, sz).MapFile? <==>
              va < KERNBASE && MatchSlot(ms, va).Some?
              && !(Bit1(err) && !Bit1(ms[MatchSlot(ms, va).value].prot))
    ensures var a := ClassifyFault(va, err, ms, sz);
            a.MapFile? ==>
              && Some(a.slot) == MatchSlot(ms, va)
              && (forall j :: 0 <= j < a.slot ==> !InSlot(ms[j], va))
              && InSlot(ms[a.slot], va)
              && a.page == PgRoundDown(va)
              && a.offset == Wrap((a.page - ms[a.slot].addr) + ms[a.slot].offset)
              && a.count == ReadCount(ms[a.slot], a.page)
              && (a.writable <==> Bit1(ms[a.slot].prot))
              && (Bit1(err) ==> a.writable)
  {
  }

  /** Outside every window: a protection fault kills, a missing page below `sz`
      becomes a zeroed page, anything else is left to the default case. */
  lemma HeapFaultSpec(va: u32, err: u32, ms: seq<MmapSlot>, sz: u32)
    requires va < KERNBASE && MatchSlot(ms, va).None?
    ensures Bit0(err) ==> ClassifyFault(va, err, ms, sz) == KillProc
    ensures !Bit0(err) && va < sz ==> ClassifyFault(va, err, ms, sz) == MapZero(PgRoundDown(va))
    ensures ClassifyFault(va, err, ms, sz) == Unhandled <==> !Bit0(err) && va >= sz
  {
  }

  /** For a slot mmap created (window at its fixed address, positive length), the
      faulting page lies on munmap's page walk of that slot and the read count is
      the bytes of the window left from the page, capped at a page: never zero,
      never more than a page.  These are the same page, file offset and count with
      which munmap writes a dirty page back (`UnmapWalkWritesBack`). */
  lemma FaultMatchesWriteBack(m: MmapSlot, k: nat, va: u32)
    requires k < NMMAP && MmapSlotOk(m, k) && InSlot(m, va)
    ensures OnWalk(PgRoundDown(va), m.addr, m.length)
    ensures ReadCount(m, PgRoundDown(va)) == Min(m.addr + m.length - PgRoundDown(va), PGSIZE)
    ensures 0 < ReadCount(m, PgRoundDown(va)) <= PGSIZE
  {
    MmapBaseProperties(k);
    var page := PgRoundDown(va);
    assert m.addr + m.length < TWO32;
    assert SlotEnd(m) == m.addr + m.length;
    assert page + PGSIZE <= TWO32 - PGSIZE;
    var q := (va - m.addr) / PGSIZE;
    assert m.addr == PGSIZE * (m.addr / PGSIZE);
    assert va - m.addr == q * PGSIZE + (va - m.addr) % PGSIZE;
    assert page == m.addr + q * PGSIZE by {
      assert va == (m.addr / PGSIZE + q) * PGSIZE + (va - m.addr) % PGSIZE;
    }
  }

  /** The fault handler's scan over the caller's four slots, trap.c:62-67. */
  method FindFaultSlot(ms: seq<MmapSlot>, va: u32) returns (r: Option<nat>)
    ensures r == MatchSlot(ms, va)
  {
    var i := 0;
    while i < |ms| && !(ms[i].used && va >= ms[i].addr && va < Wrap(ms[i].addr + ms[i].length))
      invariant 0 <= i <= |ms|
      invariant MatchSlotFrom(ms, va, i) == MatchSlot(ms, va)
    {
      i := i + 1;
    }
    r := if i < |ms| then Some(i) else None;
  }

  /** The caller's slot with `killed` set. */
  function Killed(p: Proc): Proc { p.(killed := true) }

  /** The page-fault branch of trap, trap.c:52-125, for the process in slot `cur`.
      `mem` is what kalloc returned (0 when out of memory) and `mapOk` whether
      mappages could find or allocate the page-table page.  A file page is read in
      with one `ReadPage` and mapped present, clean and writable as the slot allows;
      a heap page is mapped zeroed and writable; when kalloc or mappages fails the
      process is killed, and a page that could not be mapped is freed.  mappages
      panics ("remap") when the page already has a present entry; `panicked` says
      so, and nothing after the panic happens.  `handled` is false when the fault
      falls through to the default case. */
  method PageFault(k: Kernel, cur: nat, va: u32, err: u32, mem: int, mapOk: bool) returns (handled: bool, panicked: bool)
    requires k.Valid() && cur < NPROC
    modifies k`events, k`vm, k.procs
    ensures k.Valid()
    ensures var p := old(k.procs[cur]); var a := ClassifyFault(va, err, p.mmaps, p.sz);
            var pt := PtOf(old(k.vm), p.pgdir);
            && handled == !a.Unhandled?
            && (panicked <==> (a.MapFile? || a.MapZero?) && mem != 0 && a.page in pt && pt[a.page].present)
            && (a.KillProc? || ((a.MapFile? || a.MapZero?) && mem == 0) ==>
                  k.procs[..] == old(k.procs[..])[cur := Killed(p)]
                  && k.events == old(k.events) && k.vm == old(k.vm))
            && (a.MapFile? && mem != 0 ==>
                  && k.events == old(k.events) + [ReadPage(p.mmaps[a.slot].file, a.offset, a.count, mem)]
                                 + (if panicked || mapOk then [] else [KFree(mem)])
                  && k.vm == (if !panicked && mapOk then old(k.vm)[p.pgdir := pt[a.page := Pte(true, a.writable, false, mem)]]
                              else old(k.vm))
                  && k.procs[..] == (if panicked || mapOk then old(k.procs[..]) else old(k.procs[..])[cur := Killed(p)]))
            && (a.MapZero? && mem != 0 ==>
                  && k.events == old(k.events) + (if panicked || mapOk then [] else [KFree(mem)])
                  && k.vm == (if !panicked && mapOk then old(k.vm)[p.pgdir := pt[a.page := Pte(true, true, false, mem)]]
                              else old(k.vm))
                  && k.procs[..] == (if panicked || mapOk then old(k.procs[..]) else old(k.procs[..])[cur := Killed(p)]))
            && (a.Unhandled? ==> k.procs[..] == old(k.procs[..]) && k.events == old(k.events) && k.vm == old(k.vm))
  {
    panicked := false;
    var p := k.procs[cur];
    if va >= KERNBASE {
      k.SetSlot(cur, Killed(p));
      return true, false;
    }
    var s := FindFaultSlot(p.mmaps, va);
    if s.Some? {
      var m := p.mmaps[s.value];
      if Bit1(err) && !Bit1(m.prot) {
        k.SetSlot(cur, Killed(p));
        return true, false;
      }
      if mem == 0 {
        k.SetSlot(cur, Killed(p));
        return true, false;
      }
      var page := PgRoundDown(va);
      var offset := FileOffset(m, page);
      var n: int := PGSIZE;
      if Wrap(page + n) > Wrap(m.addr + m.length) {
        n := ToInt32(Wrap((m.addr + m.length) - page));
      }
      k.events := k.events + [ReadPage(m.file, offset, n, mem)];
      var writable := Bit1(m.prot);
      panicked := MapPage(k, cur, p.pgdir, page, writable, mem, mapOk);
      return true, panicked;
    }
    if Bit0(err) {
      k.SetSlot(cur, Killed(p));
      return true, false;
    }
    if va < p.sz {
      if mem == 0 {
        k.SetSlot(cur, Killed(p));
        return true, false;
      }
      panicked := MapPage(k, cur, p.pgdir, PgRoundDown(va), true, mem, mapOk);
      return true, panicked;
    }
    handled := false;
  }

  /** The end of both fault-in paths, trap.c:92-98 and trap.c:116-119: mappages
      panics on a page that already has a present entry; otherwise the new page is
      mapped at `page` in address space `pgdir`, or, when mappages fails, freed and
      the process killed. */
  method MapPage(k: Kernel, cur: nat, pgdir: int, page: u32, writable: bool, mem: int, mapOk: bool)
    returns (panicked: bool)
    requires k.Valid() && cur < NPROC
    modifies k`events, k`vm, k.procs
    ensures k.Valid()
    ensures var pt := PtOf(old(k.vm), pgdir);
            panicked <==> page in pt && pt[page].present
    ensures panicked ==> k.vm == old(k.vm) && k.events == old(k.events) && k.procs[..] == old(k.procs[..])
    ensures !panicked && mapOk ==>
              && k.vm == old(k.vm)[pgdir := PtOf(old(k.vm), pgdir)[page := Pte(true, writable, false, mem)]]
              && k.events == old(k.events) && k.procs[..] == old(k.procs[..])
    ensures !panicked && !mapOk ==>
              && k.vm == old(k.vm) && k.events == old(k.events) + [KFree(mem)]
              && k.procs[..] == old(k.procs[..])[cur := Killed(old(k.procs[cur]))]
  {
    var pt := PtOf(k.vm, pgdir);
    if page in pt && pt[page].present {
      return true;
    }
    panicked := false;
    if mapOk {
      k.vm := k.vm[pgdir := pt[page := Pte(true, writable, false, mem)]];
    } else {
      k.events := k.events + [KFree(mem)];
      k.SetSlot(cur, Killed(k.procs[cur]));
    }
  }

  // ---------------------------------------------------------------------------
  // The timer interrupt, trap.c:129-155.

  /** The accounting of one tick for the running process, trap.c:139-146: one
      more tick used, one less of the slice; a used-up slice moves the process one
      level down (never below level 2) and starts a new slice. */
  function Charge(p: Proc): Proc {
    var ts := p.timeSlice - 1;
    if ts <= 0 then
      p.(ticks := p.ticks + 1, priority := if p.priority < LOWEST_LEVEL then p.priority + 1 else p.priority,
         timeSlice := TIME_SLICE)
    else p.(ticks := p.ticks + 1, timeSlice := ts)
  }

  /** A tick of the running process: the accounting, then yield in either branch. */
  function Tick(p: Proc): Proc { Charge(p).(state := Runnable) }

  /** A tick keeps the level in [0, 2] and the slice in [1, 4]; the level moves one
      step down exactly when the last unit of the slice is used at a level above
      the lowest, and nothing but the tick count, the slice and the level changes. */
  lemma ChargeSpec(p: Proc)
    requires 0 <= p.priority <= LOWEST_LEVEL && 1 <= p.timeSlice <= TIME_SLICE
    ensures var q := Charge(p);
            && 0 <= q.priority <= LOWEST_LEVEL && 1 <= q.timeSlice <= TIME_SLICE
            && q.ticks == p.ticks + 1
            && (q.priority == p.priority + 1 <==> p.timeSlice == 1 && p.priority < LOWEST_LEVEL)
            && (q.priority != p.priority ==> q.priority == p.priority + 1)
            && q == p.(ticks := q.ticks, timeSlice := q.timeSlice, priority := q.priority)
  {
  }

  /** `n` ticks of accounting in a row. */
  function ChargeN(p: Proc, n: nat): Proc
    decreases n
  {
    if n == 0 then p else ChargeN(Charge(p), n - 1)
  }

  /** A process demoted only after using its whole slice: from a slice of `s`
      units, the first `s - 1` ticks leave the level alone, the `s`-th moves it one
      level down (unless already at the lowest) with a fresh slice of 4. */
  lemma {:induction false} SliceThenDemote(p: Proc, n: nat)
    requires 0 <= p.priority <= LOWEST_LEVEL && 1 <= p.timeSlice <= TIME_SLICE
    ensures n < p.timeSlice ==> ChargeN(p, n).priority == p.priority
                                && ChargeN(p, n).timeSlice == p.timeSlice - n
    ensures n == p.timeSlice ==> ChargeN(p, n).priority == Min(p.priority + 1, LOWEST_LEVEL)
                                 && ChargeN(p, n).timeSlice == TIME_SLICE
    ensures ChargeN(p, n).ticks == p.ticks + n
    decreases n
  {
    if n > 0 {
      ChargeSpec(p);
      if p.timeSlice > 1 {
        SliceThenDemote(Charge(p), n - 1);
      } else {
        ChargeTicks(Charge(p), n - 1);
      }
    }
  }

  lemma {:induction false} ChargeTicks(p: Proc, n: nat)
    ensures ChargeN(p, n).ticks == p.ticks + n
    decreases n
  {
    if n > 0 {
      ChargeTicks(Charge(p), n - 1);
    }
  }

  /** The timer-interrupt case of trap, trap.c:129-155.  On CPU 0 the global tick
      count goes up by one (as a `uint`) and the sleepers on it are woken; then,
      when a process is running on this CPU (`cur`), it is charged one tick and
      yields. */
  method TimerTick(k: Kernel, cpu0: bool, cur: Option<nat>)
    requires k.Valid() && (cur.Some? ==> cur.value < NPROC)
    modifies k`ticks, k.procs
    ensures k.Valid()
    ensures k.ticks == if cpu0 then Wrap(old(k.ticks) + 1) else old(k.ticks)
    ensures var w := if cpu0 then WakeAll(old(k.procs[..]), TicksChan) else old(k.procs[..]);
            k.procs[..] == if cur.Some? && w[cur.value].state == Running then w[cur.value := Tick(w[cur.value])] else w
  {
    if cpu0 {
      k.ticks := Wrap(k.ticks + 1);
      k.Wakeup1(TicksChan);
    }
    if cur.Some? && k.procs[cur.value].state == Running {
      var p := k.procs[cur.value];
      ChargeSpec(p);
      k.SetSlot(cur.value, Tick(p));
    }
  }

  // ---------------------------------------------------------------------------
  // The default case and the exit checks.

  /** The default case of trap, trap.c:183-196: a trap with no process or from
      kernel mode (`cs & 3 == 0`) panics, one from user mode kills the process. */
  method UnexpectedTrap(k: Kernel, cur: Option<nat>, cs: u32) returns (panicked: bool)
    requires k.Valid() && (cur.Some? ==> cur.value < NPROC)
    modifies k.procs
    ensures k.Valid()
    ensures panicked <==> cur.None? || cs % 4 == 0
    ensures panicked ==> k.procs[..] == old(k.procs[..])
    ensures !panicked ==> k.procs[..] == old(k.procs[..])[cur.value := Killed(old(k.procs[cur.value]))]
  {
    if cur.None? || cs % 4 == 0 {
      return true;
    }
    k.SetSlot(cur.value, Killed(k.procs[cur.value]));
    panicked := false;
  }

  /** `if(myproc()->killed) exit()`: the check at both ends of a system call,
      trap.c:44-49 (`fromUser` true), and at the end of trap, trap.c:201-209, which
      applies only to a trap from user mode (`cs & 3 == DPL_USER`).  It exits
      exactly when the process is killed and came from user mode; exiting is
      `Kernel.Exit`, which panics for init. */
  method ExitIfKilled(k: Kernel, cur: nat, fromUser: bool) returns (exited: bool, panicked: bool)
    requires k.Valid() && cur < NPROC && k.procs[cur].state == Running
    modifies k`mmapCount, k`events, k`vm, k.procs
    ensures k.Valid()
    ensures exited <==> old(k.procs[cur].killed) && fromUser
    ensures panicked <==> exited && cur == k.initproc
    ensures !exited || panicked ==>
              k.procs[..] == old(k.procs[..]) && k.events == old(k.events) && k.vm == old(k.vm)
              && k.mmapCount == old(k.mmapCount)
    ensures exited && !panicked ==>
              var p := old(k.procs[cur]); var pt := PtOf(old(k.vm), p.pgdir);
              && k.procs[..] == ExitTable(old(k.procs[..])[cur := Cleaned(p)], cur, k.initproc)
              && k.events == old(k.events) + (if p.isThread then []
                                              else UnmapAllEvents(pt, p.mmaps, NMMAP) + CloseEvents(p.ofile) + [IPut(p.cwd)])
              && PtOf(k.vm, p.pgdir) == (if p.isThread then pt else UnmapAllPt(pt, p.mmaps, NMMAP))
              && (forall g :: g != p.pgdir ==> PtOf(k.vm, g) == PtOf(old(k.vm), g))
              && k.mmapCount == old(k.mmapCount) - (if p.isThread then 0 else UsedSlots(p.mmaps))
  {
    exited := k.procs[cur].killed && fromUser;
    panicked := false;
    if exited {
      panicked := k.Exit(cur);
    }
  }
}
