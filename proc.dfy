/** The process table of proc.c and the operations that change it in place.
    `myproc()` is the parameter `cur`, the slot of the calling process; the results
    of `kalloc` and `copyuvm` are parameters; calls into the page allocator, the file
    layer and the address-space helpers are appended to `events`.  Spinlocks are
    left out: every method is one atomic step under the table lock. */
module ProcTable {
  import opened Common
  import opened ProcTypes
  import opened ProcSpec
  import opened Mlfq

  /** One trip of a loop that may sleep (wait, join, mutex_lock): the call returned
      `value`, or the caller went to sleep inside the loop and repeats the trip once
      it is woken and scheduled again. */
  datatype Step = Done(value: int) | Blocked

  class Kernel {
    /** `ptable.proc`. */
    const procs: array<Proc>
    /** The slot of `initproc`. */
    var initproc: nat
    var nextpid: int
    /** `global_mmap_count`. */
    var mmapCount: int
    /** The global tick counter of trap.c. */
    var ticks: u32
    /** The page tables, by `pgdir` handle. */
    var vm: AddressSpaces
    /** The `int` cells that `mutex_lock` and `mutex_unlock` work on: for each page
        table, its cells by user address (the same virtual address names a different
        cell in each address space); a cell the model has no entry for holds 0. */
    var tokens: map<int, map<int, int>>
    /** Calls into code outside the core, in order. */
    var events: seq<Event>

    /** The invariant every operation keeps: each slot is well formed, every pid and
        tid already handed out is below `nextpid`, and the global count is the number
        of used memory-map slots in the whole table, never more than 16. */
    ghost predicate Valid()
      reads this, procs
    {
      procs.Length == NPROC && initproc < NPROC && nextpid >= 1
      && TableOk(procs[..], nextpid, mmapCount)
    }

    /** Stores `p` in slot `i`, a change that leaves the slot's memory-map slots as
        they are: the store every operation below makes to a single control block. */
    method SetSlot(i: nat, p: Proc)
      requires Valid() && i < NPROC
      requires ProcOk(p) && p.pid < nextpid && p.tid < nextpid && p.mmaps == procs[i].mmaps
      modifies procs
      ensures Valid()
      ensures procs[..] == old(procs[..])[i := p]
    {
      ghost var s0 := procs[..];
      procs[i] := p;
      TableOkUpdate(s0, i, p, nextpid, mmapCount, nextpid, mmapCount);
      assert procs[..] == s0[i := p];
    }

    /** The zero-initialised table at boot, `nextpid = 1`. */
    constructor ()
      ensures Valid() && fresh(procs)
      ensures forall i :: 0 <= i < NPROC ==> procs[i] == BootProc()
      ensures nextpid == 1 && mmapCount == 0 && ticks == 0 && events == []
      ensures vm == map[] && tokens == map[] && initproc == 0
    {
      procs := new Proc[NPROC](_ => BootProc());
      initproc := 0;
      nextpid := 1;
      mmapCount := 0;
      ticks := 0;
      vm := map[];
      tokens := map[];
      events := [];
      new;
      forall j | 0 <= j < NPROC ensures UsedSlots(procs[..][j].mmaps) == 0 {
        UsedSlotsNone(procs[j].mmaps);
      }
      LiveMappingsZero(procs[..]);
    }

    /** The mutex cells of the address space `g`. */
    function Cells(g: int): map<int, int>
      reads this
    {
      if g in tokens then tokens[g] else map[]
    }

    /** The value of the mutex cell at user address `l` in the address space `g`. */
    function Token(g: int, l: int): int
      reads this
    {
      if l in Cells(g) then Cells(g)[l] else 0
    }

    // -------------------------------------------------------------------------
    // allocproc, fork, clone

    /** allocproc, proc.c:84-130: claims the first UNUSED slot.  `kstack` is what
        kalloc returned; when it is 0 the slot goes back to UNUSED, the pid stays
        consumed, and the result is no slot. */
    method AllocProc(kstack: int) returns (r: Option<nat>)
      requires Valid()
      modifies this`nextpid, procs
      ensures Valid()
      ensures var f := FirstUnused(old(procs[..]));
              f.None? ==> r.None? && procs[..] == old(procs[..]) && nextpid == old(nextpid)
      ensures var f := FirstUnused(old(procs[..]));
              f.Some? ==>
                && procs[..] == old(procs[..])[f.value := Allocated(old(procs[f.value]), old(nextpid), kstack)]
                && nextpid == old(nextpid) + 1
                && r == (if kstack == 0 then None else f)
    {
      var i := 0;
      while i < NPROC && procs[i].state != Unused
        invariant 0 <= i <= NPROC
        invariant FirstUnusedFrom(procs[..], i) == FirstUnused(procs[..])
      {
        i := i + 1;
      }
      if i == NPROC {
        return None;
      }
      ghost var s0 := procs[..];
      var a := Allocated(procs[i], nextpid, kstack);
      procs[i] := a;
      nextpid := nextpid + 1;
      TableOkUpdate(s0, i, a, nextpid - 1, mmapCount, nextpid, mmapCount);
      assert procs[..] == s0[i := a];
      r := if kstack == 0 then None else Some(i);
    }

    /** The filedup loop of fork and clone: the child's file table after it, with
        one filedup per open entry of the parent, in index order. */
    method DupFiles(child: seq<int>, parent: seq<int>) returns (r: seq<int>)
      requires |child| == |parent|
      modifies this`events
      ensures r == Inherit(child, parent)
      ensures events == old(events) + DupEvents(parent)
    {
      r := child;
      var i := 0;
      while i < |parent|
        invariant 0 <= i <= |parent| && |r| == |parent|
        invariant forall j :: 0 <= j < i ==> r[j] == (if parent[j] != 0 then parent[j] else child[j])
        invariant forall j :: i <= j < |parent| ==> r[j] == child[j]
        invariant events == old(events) + DupEvents(parent[..i])
      {
        if parent[i] != 0 {
          r := r[i := parent[i]];
          events := events + [FileDup(parent[i])];
        }
        assert parent[..i + 1][..i] == parent[..i];
        i := i + 1;
      }
      assert parent[..|parent|] == parent;
    }

    /** fork, proc.c:196-248.  A thread may not fork.  `kstack` and `pgdir` are what
        kalloc and copyuvm returned (0 on failure).  On success the child is a
        RUNNABLE copy of the caller with a fresh pid, which is returned and which no
        other slot holds. */
    method Fork(cur: nat, kstack: int, pgdir: int) returns (r: int)
      requires Valid() && cur < NPROC && procs[cur].state == Running
      modifies this`nextpid, this`events, this`tokens, procs
      ensures Valid()
      ensures var s := old(procs[..]); var f := FirstUnused(s); var p := s[cur];
              if p.isThread || f.None? then
                r == -1 && procs[..] == s && nextpid == old(nextpid) && events == old(events)
              else
                var a := Allocated(s[f.value], old(nextpid), kstack);
                && nextpid == old(nextpid) + 1
                && (kstack == 0 ==> r == -1 && procs[..] == s[f.value := a] && events == old(events))
                && (kstack != 0 && pgdir == 0 ==>
                      && r == -1
                      && procs[..] == s[f.value := ForkFailed(a, p.nice)]
                      && events == old(events) + [KFree(kstack)])
                && (kstack != 0 && pgdir != 0 ==>
                      && r == old(nextpid)
                      && procs[..] == s[f.value := ForkChild(a, p, cur, kstack, pgdir)]
                      && events == old(events) + DupEvents(p.ofile) + [IDup(p.cwd)])
      ensures r != -1 ==> r > 0 && forall j :: 0 <= j < NPROC && procs[j].pid == r ==> Some(j) == FirstUnused(old(procs[..]))
      ensures tokens == (if r != -1 then old(tokens)[pgdir := old(Cells(procs[cur].pgdir))] else old(tokens))
      ensures r != -1 ==> forall l :: Token(pgdir, l) == old(Token(procs[cur].pgdir, l))
      ensures r != -1 ==> forall g, l :: g != pgdir ==> Token(g, l) == old(Token(g, l))
    {
      if procs[cur].isThread {
        return -1;
      }
      var a := AllocProc(kstack);
      if a.None? {
        return -1;
      }
      r := ForkInto(a.value, cur, kstack, pgdir);
    }

    /** The part of fork after allocproc claimed slot `i` (proc.c:211-247). */
    method ForkInto(i: nat, cur: nat, kstack: int, pgdir: int) returns (r: int)
      requires Valid() && i < NPROC && cur < NPROC && i != cur && procs[i].state == Embryo
      modifies this`events, this`tokens, procs
      ensures Valid()
      ensures tokens == (if pgdir == 0 then old(tokens) else old(tokens)[pgdir := old(Cells(procs[cur].pgdir))])
      ensures var p := old(procs[cur]); var a := old(procs[i]);
              && (pgdir == 0 ==>
                    && r == -1
                    && procs[..] == old(procs[..])[i := ForkFailed(a, p.nice)]
                    && events == old(events) + [KFree(kstack)])
              && (pgdir != 0 ==>
                    && r == a.pid
                    && procs[..] == old(procs[..])[i := ForkChild(a, p, cur, kstack, pgdir)]
                    && events == old(events) + DupEvents(p.ofile) + [IDup(p.cwd)])
    {
      var parent := procs[cur];
      var child := procs[i];
      if pgdir == 0 {
        events := events + [KFree(kstack)];
        SetSlot(i, ForkFailed(child, parent.nice));
        return -1;
      }
      tokens := tokens[pgdir := Cells(parent.pgdir)];
      var ofile := DupFiles(child.ofile, parent.ofile);
      events := events + [IDup(parent.cwd)];
      SetSlot(i, ForkChild(child, parent, cur, kstack, pgdir).(ofile := ofile));
      r := child.pid;
    }

    /** clone, proc.c:251-295: a thread of the caller on the page-aligned user stack
        `stack`.  The caller's stack page is copied there and the child's stack and
        frame pointers are moved by the same distance; the child shares the caller's
        address space and pid, and its tid, the fresh pid, is returned. */
    method Clone(cur: nat, stack: u32, kstack: int) returns (r: int)
      requires Valid() && cur < NPROC && procs[cur].state == Running
      modifies this`nextpid, this`events, procs
      ensures Valid()
      ensures var s := old(procs[..]); var f := FirstUnused(s); var p := s[cur];
              if stack % PGSIZE != 0 || f.None? then
                r == -1 && procs[..] == s && nextpid == old(nextpid) && events == old(events)
              else
                var a := Allocated(s[f.value], old(nextpid), kstack);
                && nextpid == old(nextpid) + 1
                && (kstack == 0 ==> r == -1 && procs[..] == s[f.value := a] && events == old(events))
                && (kstack != 0 ==>
                      && r == old(nextpid)
                      && procs[..] == s[f.value := CloneChild(a, p, cur, kstack, stack)]
                      && events == old(events) + [CopyUserStack(stack, PgRoundDown(p.tf.esp))]
                                   + DupEvents(p.ofile) + [IDup(p.cwd)])
      ensures r != -1 ==> r > 0 && forall j :: 0 <= j < NPROC && procs[j].tid == r ==> Some(j) == FirstUnused(old(procs[..]))
    {
      if stack % PGSIZE != 0 {
        return -1;
      }
      var a := AllocProc(kstack);
      if a.None? {
        return -1;
      }
      r := CloneInto(a.value, cur, kstack, stack);
    }

    /** The part of clone after allocproc claimed slot `i` (proc.c:260-294). */
    method CloneInto(i: nat, cur: nat, kstack: int, stack: u32) returns (r: int)
      requires Valid() && i < NPROC && cur < NPROC && i != cur && procs[i].state == Embryo
      modifies this`events, procs
      ensures Valid()
      ensures var p := old(procs[cur]); var a := old(procs[i]);
              && r == a.pid
              && procs[..] == old(procs[..])[i := CloneChild(a, p, cur, kstack, stack)]
              && events == old(events) + [CopyUserStack(stack, PgRoundDown(p.tf.esp))]
                           + DupEvents(p.ofile) + [IDup(p.cwd)]
    {
      var parent := procs[cur];
      var child := procs[i];
      events := events + [CopyUserStack(stack, PgRoundDown(parent.tf.esp))];
      var ofile := DupFiles(child.ofile, parent.ofile);
      events := events + [IDup(parent.cwd)];
      SetSlot(i, CloneChild(child, parent, cur, kstack, stack).(ofile := ofile));
      r := child.pid;
    }

    // -------------------------------------------------------------------------
    // sleep, wakeup1, yield, kill, setnice

    /** wakeup1, proc.c:686-694: exactly the slots sleeping on `c` become RUNNABLE. */
    method Wakeup1(c: Chan)
      requires Valid()
      modifies procs
      ensures Valid()
      ensures procs[..] == WakeAll(old(procs[..]), c)
    {
      ghost var s0 := procs[..];
      for i := 0 to NPROC
        invariant Valid()
        invariant forall j :: 0 <= j < i ==> procs[j] == WakeOne(s0[j], c)
        invariant forall j :: i <= j < NPROC ==> procs[j] == s0[j]
      {
        if procs[i].state == Sleeping && procs[i].chan == c {
          SetSlot(i, procs[i].(state := Runnable));
        }
      }
      assert procs[..] == WakeAll(s0, c);
    }

    /** The part of sleep before `sched`, proc.c:665-669: the caller sleeps on `c`
        with a fresh time slice. */
    method Sleep(cur: nat, c: Chan)
      requires Valid() && cur < NPROC && procs[cur].state == Running
      modifies procs
      ensures Valid()
      ensures procs[..] == old(procs[..])[cur := Slept(old(procs[cur]), c)]
    {
      SetSlot(cur, Slept(procs[cur], c));
    }

    /** The part of sleep after `sched` returns, proc.c:674: the channel is cleared. */
    method SleepReturn(cur: nat)
      requires Valid() && cur < NPROC
      modifies procs
      ensures Valid()
      ensures procs[..] == old(procs[..])[cur := old(procs[cur]).(chan := NoChan)]
    {
      SetSlot(cur, procs[cur].(chan := NoChan));
    }

    /** yield, proc.c:611-618: RUNNABLE again; the time slice is not reset. */
    method Yield(cur: nat)
      requires Valid() && cur < NPROC && procs[cur].state == Running
      modifies procs
      ensures Valid()
      ensures procs[..] == old(procs[..])[cur := old(procs[cur]).(state := Runnable)]
    {
      SetSlot(cur, procs[cur].(state := Runnable));
    }

    /** kill, proc.c:709-726: marks the first slot with pid `pid` killed, waking it
        if it sleeps, and returns 0; returns -1 when no slot has that pid.  Unused
        slots have pid 0, so `kill(0)` marks one of them. */
    method Kill(pid: int) returns (r: int)
      requires Valid()
      modifies procs
      ensures Valid()
      ensures var f := FirstWithPid(old(procs[..]), pid);
              && (f.None? ==> r == -1 && procs[..] == old(procs[..]))
              && (f.Some? ==> r == 0 && procs[..] == old(procs[..])[f.value := KillOne(old(procs[f.value]))])
    {
      var i := 0;
      while i < NPROC && procs[i].pid != pid
        invariant 0 <= i <= NPROC
        invariant FirstWithPidFrom(procs[..], pid, i) == FirstWithPid(procs[..], pid)
      {
        i := i + 1;
      }
      if i == NPROC {
        return -1;
      }
      SetSlot(i, KillOne(procs[i]));
      r := 0;
    }

    /** setnice, proc.c:596-607: adds `value` to the nice value of slot `slot`,
        clamps it to [-5, 4] and returns it. */
    method SetNice(slot: nat, value: int) returns (r: int)
      requires Valid() && slot < NPROC
      modifies procs
      ensures Valid()
      ensures r == Clamp(old(procs[slot].nice) + value, -5, 4)
      ensures procs[..] == old(procs[..])[slot := old(procs[slot]).(nice := r)]
    {
      var n := procs[slot].nice + value;
      if n < -5 {
        n := -5;
      }
      if n > 4 {
        n := 4;
      }
      SetSlot(slot, procs[slot].(nice := n));
      r := n;
    }

    // -------------------------------------------------------------------------
    // mmap, munmap

    /** mmap's slot scan, proc.c:805-810. */
    method FreeMmapSlot(cur: nat) returns (k: Option<nat>)
      requires Valid() && cur < NPROC
      ensures k == FirstFreeMmap(procs[cur].mmaps)
    {
      var i := 0;
      while i < NMMAP && procs[cur].mmaps[i].used
        invariant 0 <= i <= NMMAP
        invariant FirstFreeMmapFrom(procs[cur].mmaps, i) == FirstFreeMmap(procs[cur].mmaps)
      {
        i := i + 1;
      }
      k := if i < NMMAP then Some(i) else None;
    }

    /** mmap, proc.c:785-878: records a mapping of `length` bytes of file `f` from
        `offset` in the caller's first free slot, whose fixed window address is
        returned; nothing is read in (pages are faulted in by trap.c).  Fails with
        `MAP_FAILED` and no change on bad arguments, when 16 mappings are live, or
        when the caller's 4 slots are used. */
    method Mmap(cur: nat, fd: int, offset: i32, length: i32, flags: i32, f: FileRef) returns (r: u32)
      requires Valid() && cur < NPROC && procs[cur].state == Running
      modifies this`mmapCount, this`events, procs
      ensures Valid()
      ensures var p := old(procs[cur]); var k := FirstFreeMmap(p.mmaps);
              if !MmapArgsOk(offset, length, flags, f) || old(mmapCount) >= MAX_MMAPS || k.None? then
                r == MAP_FAILED && procs[..] == old(procs[..]) && mmapCount == old(mmapCount)
                && events == old(events)
              else
                && r as int == MmapBase(k.value)
                && procs[..] == old(procs[..])[cur := p.(mmaps := p.mmaps[k.value :=
                                  MmapSlot(true, r, length, offset, fd, flags, f.id)])]
                && mmapCount == old(mmapCount) + 1
                && events == old(events) + [FileDup(f.id)]
      ensures r != MAP_FAILED ==> r % PGSIZE == 0 && MMAP_BASE <= r as int < KERNBASE
    {
      if Bit1(flags) && !f.writable {
        return MAP_FAILED;
      }
      if offset % PGSIZE != 0 {
        return MAP_FAILED;
      }
      if length <= 0 {
        return MAP_FAILED;
      }
      if mmapCount >= MAX_MMAPS {
        return MAP_FAILED;
      }
      var k := FreeMmapSlot(cur);
      if k.None? {
        return MAP_FAILED;
      }
      var i := k.value;
      MmapBaseProperties(i);
      r := MmapBase(i) as u32;
      var p := procs[cur];
      var m := MmapSlot(true, r, length, offset, fd, flags, f.id);
      ghost var s0 := procs[..];
      var np := p.(mmaps := p.mmaps[i := m]);
      procs[cur] := np;
      events := events + [FileDup(f.id)];
      mmapCount := mmapCount + 1;
      UsedSlotsUpdate(p.mmaps, i, m);
      TableOkUpdate(s0, cur, np, nextpid, mmapCount - 1, nextpid, mmapCount);
      assert procs[..] == s0[cur := np];
    }

    /** munmap's slot scan, proc.c:888-893. */
    method FindMmapSlot(cur: nat, addr: int) returns (k: Option<nat>)
      requires Valid() && cur < NPROC
      ensures k == FindMapping(procs[cur].mmaps, addr)
    {
      var i := 0;
      while i < NMMAP && !(procs[cur].mmaps[i].used && procs[cur].mmaps[i].addr == addr)
        invariant 0 <= i <= NMMAP
        invariant FindMappingFrom(procs[cur].mmaps, addr, i) == FindMapping(procs[cur].mmaps, addr)
      {
        i := i + 1;
      }
      k := if i < NMMAP then Some(i) else None;
    }

    /** One present page in munmap's loop, proc.c:903-918: written back at its file
        offset when dirty, then its frame released. */
    method ReleasePage(pte: Pte, m: MmapSlot, va: int, left: int)
      modifies this`events
      ensures events == old(events) + EntryEvents(pte, m, va, left)
    {
      if pte.dirty {
        var n := if left < PGSIZE then left else PGSIZE;
        events := events + [WritePage(m.file, FileOffset(m, va), n, pte.pa)];
      }
      if pte.pa != 0 {
        events := events + [KFree(pte.pa)];
      }
    }

    /** The page loop of munmap, proc.c:899-922, on page table `pt0` for mapping `m`
        from `addr` for `length` bytes: each present page is written back when dirty,
        released, and its entry cleared. */
    method UnmapPages(pt0: PageTable, m: MmapSlot, addr: int, length: int) returns (pt: PageTable)
      modifies this`events
      ensures pt == UnmapWalkPt(pt0, addr, length)
      ensures events == old(events) + UnmapWalkEvents(pt0, m, addr, length)
    {
      pt := pt0;
      var curr := addr;
      var left := length;
      ghost var all := old(events) + UnmapWalkEvents(pt0, m, addr, length);
      while left > 0
        invariant UnmapWalkPt(pt, curr, left) == UnmapWalkPt(pt0, addr, length)
        invariant events + UnmapWalkEvents(pt, m, curr, left) == all
        decreases left
      {
        ghost var pt1 := pt;
        ghost var e1 := events;
        if curr in pt && pt[curr].present {
          ReleasePage(pt[curr], m, curr, left);
          pt := pt[curr := ZeroPte];
        }
        UnmapWalkStep(pt1, m, curr, left);
        ghost var rest := UnmapWalkEvents(pt, m, curr + PGSIZE, left - PGSIZE);
        assert events == e1 + PageEvents(pt1, m, curr, left);
        assert (e1 + PageEvents(pt1, m, curr, left)) + rest == e1 + (PageEvents(pt1, m, curr, left) + rest);
        curr := curr + PGSIZE;
        left := left - PGSIZE;
      }
    }

    /** The release of used slot `k` of the caller once munmap's checks have passed,
        proc.c:896-935: the pages of the mapping are released (dirty ones written
        back first), the file reference is dropped, the slot becomes free and the
        global count goes down by one. */
    method UnmapSlot(cur: nat, k: nat)
      requires Valid() && cur < NPROC && k < NMMAP && procs[cur].mmaps[k].used
      modifies this`mmapCount, this`events, this`vm, procs
      ensures Valid()
      ensures var p := old(procs[cur]); var m := p.mmaps[k]; var pt := PtOf(old(vm), p.pgdir);
              && procs[..] == old(procs[..])[cur := p.(mmaps := p.mmaps[k := Unmapped(m)])]
              && vm == old(vm)[p.pgdir := UnmapWalkPt(pt, m.addr, m.length)]
              && events == old(events) + UnmapWalkEvents(pt, m, m.addr, m.length) + [FileClose(m.file)]
              && mmapCount == old(mmapCount) - 1
    {
      var p := procs[cur];
      var m := p.mmaps[k];
      var pt := UnmapPages(PtOf(vm, p.pgdir), m, m.addr, m.length);
      vm := vm[p.pgdir := pt];
      events := events + [FileClose(m.file)];
      ghost var s0 := procs[..];
      var np := p.(mmaps := p.mmaps[k := Unmapped(m)]);
      procs[cur] := np;
      mmapCount := mmapCount - 1;
      UsedSlotsUpdate(p.mmaps, k, Unmapped(m));
      TableOkUpdate(s0, cur, np, nextpid, mmapCount + 1, nextpid, mmapCount);
      assert procs[..] == s0[cur := np];
    }

    /** munmap, proc.c:881-938.  An unaligned address fails with `(uint)-1`; an
        address no used slot starts at is not an error and changes nothing; a length
        other than the mapping's fails.  Otherwise the slot found is released as
        `UnmapSlot` says. */
    method Munmap(cur: nat, addr: u32, length: i32) returns (r: u32)
      requires Valid() && cur < NPROC && procs[cur].state == Running
      modifies this`mmapCount, this`events, this`vm, procs
      ensures Valid()
      ensures var p := old(procs[cur]); var k := FindMapping(p.mmaps, addr);
              if addr % PGSIZE != 0 || k.None? || p.mmaps[k.value].length != length then
                && r == (if addr % PGSIZE == 0 && k.None? then 0 else Wrap(-1))
                && procs[..] == old(procs[..]) && mmapCount == old(mmapCount)
                && events == old(events) && vm == old(vm)
              else
                var m := p.mmaps[k.value]; var pt := PtOf(old(vm), p.pgdir);
                && r == 0
                && procs[..] == old(procs[..])[cur := p.(mmaps := p.mmaps[k.value := Unmapped(m)])]
                && vm == old(vm)[p.pgdir := UnmapWalkPt(pt, addr, length)]
                && events == old(events) + UnmapWalkEvents(pt, m, addr, length) + [FileClose(m.file)]
                && mmapCount == old(mmapCount) - 1
    {
      if addr % PGSIZE != 0 {
        return Wrap(-1);
      }
      var k := FindMmapSlot(cur, addr);
      if k.None? {
        return 0;
      }
      if procs[cur].mmaps[k.value].length != length {
        return Wrap(-1);
      }
      UnmapSlot(cur, k.value);
      r := 0;
    }

    // -------------------------------------------------------------------------
    // exit

    /** One trip of exit's munmap loop, proc.c:313-314: when the caller's slot `k`
        is used, munmap on its address and length passes its checks and finds slot
        `k` (`FindMappingOwnSlot`), so it releases that slot. */
    method ExitUnmapSlot(cur: nat, k: nat)
      requires Valid() && cur < NPROC && procs[cur].state == Running && k < NMMAP
      modifies this`mmapCount, this`events, this`vm, procs
      ensures Valid()
      ensures var p := old(procs[cur]); var m := p.mmaps[k]; var pt := PtOf(old(vm), p.pgdir);
              && procs[..] == old(procs[..])[cur := p.(mmaps := p.mmaps[k := if m.used then Unmapped(m) else m])]
              && PtOf(vm, p.pgdir) == (if m.used then UnmapWalkPt(pt, m.addr, m.length) else pt)
              && (forall g :: g != p.pgdir ==> PtOf(vm, g) == PtOf(old(vm), g))
              && events == old(events) + (if m.used then UnmapWalkEvents(pt, m, m.addr, m.length) + [FileClose(m.file)] else [])
              && mmapCount == old(mmapCount) - (if m.used then 1 else 0)
    {
      var m := procs[cur].mmaps[k];
      if m.used {
        FindMappingOwnSlot(procs[cur].mmaps, k);
        var _ := Munmap(cur, m.addr, m.length);
      } else {
        assert procs[cur].mmaps[k := m] == procs[cur].mmaps;
        assert procs[..][cur := procs[cur]] == procs[..];
      }
    }

    /** Trip `k` of exit's munmap loop, stated against the caller's slot `p`, its
        page table `pt0`, the log `e0`, the address spaces `vm0` and the count `c0`
        as they were when the loop started. */
    method UnmapAllTrip(cur: nat, k: nat, ghost p: Proc, ghost s0: seq<Proc>, ghost pt0: PageTable,
                        ghost e0: seq<Event>, ghost vm0: AddressSpaces, ghost c0: int)
      requires Valid() && cur < NPROC && k < NMMAP && |s0| == NPROC
      requires p.state == Running && |p.mmaps| == NMMAP
      requires procs[..] == s0[cur := p.(mmaps := UnmappedBelow(p.mmaps, k))]
      requires events == e0 + UnmapAllEvents(pt0, p.mmaps, k)
      requires PtOf(vm, p.pgdir) == UnmapAllPt(pt0, p.mmaps, k)
      requires forall g :: g != p.pgdir ==> PtOf(vm, g) == PtOf(vm0, g)
      requires mmapCount == c0 - UsedSlots(p.mmaps[..k])
      modifies this`mmapCount, this`events, this`vm, procs
      ensures Valid()
      ensures procs[..] == s0[cur := p.(mmaps := UnmappedBelow(p.mmaps, k + 1))]
      ensures events == e0 + UnmapAllEvents(pt0, p.mmaps, k + 1)
      ensures PtOf(vm, p.pgdir) == UnmapAllPt(pt0, p.mmaps, k + 1)
      ensures forall g :: g != p.pgdir ==> PtOf(vm, g) == PtOf(vm0, g)
      ensures mmapCount == c0 - UsedSlots(p.mmaps[..k + 1])
    {
      UnmapAllStep(pt0, p.mmaps, k);
      ghost var q := procs[cur];
      ghost var m := p.mmaps[k];
      ghost var e := UnmapAllEvents(pt0, p.mmaps, k);
      ghost var y := if m.used then UnmapWalkEvents(UnmapAllPt(pt0, p.mmaps, k), m, m.addr, m.length)
                                    + [FileClose(m.file)] else [];
      assert q.mmaps[k] == m && q.pgdir == p.pgdir;
      ExitUnmapSlot(cur, k);
      assert q.(mmaps := q.mmaps[k := if m.used then Unmapped(m) else m])
             == p.(mmaps := UnmappedBelow(p.mmaps, k + 1));
      assert events == (e0 + e) + y;
      assert (e0 + e) + y == e0 + (e + y);
    }

    /** The munmap loop of exit, proc.c:311-315: munmap is called on every used slot
        of the caller, in index order, with the slot's own address and length. */
    method UnmapAll(cur: nat)
      requires Valid() && cur < NPROC && procs[cur].state == Running
      modifies this`mmapCount, this`events, this`vm, procs
      ensures Valid()
      ensures var p := old(procs[cur]); var pt := PtOf(old(vm), p.pgdir);
              && procs[..] == old(procs[..])[cur := p.(mmaps := UnmappedAll(p.mmaps))]
              && events == old(events) + UnmapAllEvents(pt, p.mmaps, NMMAP)
              && PtOf(vm, p.pgdir) == UnmapAllPt(pt, p.mmaps, NMMAP)
              && (forall g :: g != p.pgdir ==> PtOf(vm, g) == PtOf(old(vm), g))
              && mmapCount == old(mmapCount) - UsedSlots(p.mmaps)
    {
      ghost var p := procs[cur];
      ghost var s0 := procs[..];
      ghost var pt0 := PtOf(vm, p.pgdir);
      var k := 0;
      assert UnmappedBelow(p.mmaps, 0) == p.mmaps;
      assert s0[cur := p] == s0;
      while k < NMMAP
        invariant 0 <= k <= NMMAP && Valid()
        invariant procs[..] == s0[cur := p.(mmaps := UnmappedBelow(p.mmaps, k))]
        invariant events == old(events) + UnmapAllEvents(pt0, p.mmaps, k)
        invariant PtOf(vm, p.pgdir) == UnmapAllPt(pt0, p.mmaps, k)
        invariant forall g :: g != p.pgdir ==> PtOf(vm, g) == PtOf(old(vm), g)
        invariant mmapCount == old(mmapCount) - UsedSlots(p.mmaps[..k])
      {
        UnmapAllTrip(cur, k, p, s0, pt0, old(events), old(vm), old(mmapCount));
        k := k + 1;
      }
      assert p.mmaps[..NMMAP] == p.mmaps;
    }

    /** The close loop of exit, proc.c:318-323: every open file of the caller is
        closed, in index order, and its entry cleared. */
    method CloseFiles(cur: nat)
      requires Valid() && cur < NPROC
      modifies this`events, procs
      ensures Valid()
      ensures procs[..] == old(procs[..])[cur := old(procs[cur]).(ofile := seq(NOFILE, _ => 0))]
      ensures events == old(events) + CloseEvents(old(procs[cur].ofile))
    {
      var p := procs[cur];
      var ofile := p.ofile;
      for fd := 0 to NOFILE
        modifies this`events
        invariant Valid() && |ofile| == NOFILE
        invariant forall j :: 0 <= j < fd ==> ofile[j] == 0
        invariant forall j :: fd <= j < NOFILE ==> ofile[j] == p.ofile[j]
        invariant events == old(events) + CloseEvents(p.ofile[..fd])
      {
        assert p.ofile[..fd + 1][..fd] == p.ofile[..fd];
        if ofile[fd] != 0 {
          events := events + [FileClose(ofile[fd])];
          ofile := ofile[fd := 0];
        }
      }
      assert p.ofile[..NOFILE] == p.ofile;
      assert ofile == seq(NOFILE, _ => 0);
      SetSlot(cur, p.(ofile := ofile));
    }

    /** The re-parenting loop of exit, proc.c:338-344: every child of the caller
        goes to init, and init is woken each time a child is found a zombie. */
    method Reparent(cur: nat)
      requires Valid() && cur < NPROC
      modifies procs
      ensures Valid()
      ensures procs[..] == AdoptedBelow(old(procs[..]), cur, initproc, NPROC, HasZombieChild(old(procs[..]), cur))
    {
      ghost var s0 := procs[..];
      ghost var woke := false;
      for i := 0 to NPROC
        invariant Valid()
        invariant woke <==> exists j :: 0 <= j < i && s0[j].parent == Some(cur) && s0[j].state == Zombie
        invariant procs[..] == AdoptedBelow(s0, cur, initproc, i, woke)
      {
        AdoptStep(s0, cur, initproc, i, woke);
        if procs[i].parent == Some(cur) {
          SetSlot(i, procs[i].(parent := Some(initproc)));
          if procs[i].state == Zombie {
            WakeAdopted(s0, cur, initproc, i + 1, woke);
            Wakeup1(ProcChan(initproc));
            woke := true;
          }
        }
      }
    }

    /** The resource release of exit for a process that is not a thread,
        proc.c:311-329: its used slots are unmapped, its files closed, its cwd
        dropped. */
    method ReleaseResources(cur: nat)
      requires Valid() && cur < NPROC && procs[cur].state == Running && !procs[cur].isThread
      modifies this`mmapCount, this`events, this`vm, procs
      ensures Valid()
      ensures var p := old(procs[cur]); var pt := PtOf(old(vm), p.pgdir);
              && procs[..] == old(procs[..])[cur := Cleaned(p)]
              && events == old(events) + UnmapAllEvents(pt, p.mmaps, NMMAP) + CloseEvents(p.ofile) + [IPut(p.cwd)]
              && PtOf(vm, p.pgdir) == UnmapAllPt(pt, p.mmaps, NMMAP)
              && (forall g :: g != p.pgdir ==> PtOf(vm, g) == PtOf(old(vm), g))
              && mmapCount == old(mmapCount) - UsedSlots(p.mmaps)
    {
      UnmapAll(cur);
      CloseFiles(cur);
      events := events + [IPut(procs[cur].cwd)];
      SetSlot(cur, procs[cur].(cwd := 0));
    }

    /** The rest of exit, proc.c:332-347: the parent is woken, the children go to
        init (which is woken when one of them is a zombie), and the caller becomes a
        ZOMBIE. */
    method BecomeZombie(cur: nat)
      requires Valid() && cur < NPROC && procs[cur].state == Running
      modifies procs
      ensures Valid()
      ensures procs[..] == ExitTable(old(procs[..]), cur, initproc)
    {
      var pc := ParentChan(procs[cur].parent);
      Wakeup1(pc);
      Reparent(cur);
      assert procs[cur].state == Running;
      SetSlot(cur, procs[cur].(state := Zombie));
    }

    /** exit, proc.c:300-350.  init may not exit (the kernel panics, modelled as
        `panicked` with nothing changed).  A process that is not a thread releases
        its resources, threads release nothing; then the caller becomes a ZOMBIE as
        `ExitTableSpec` describes. */
    method Exit(cur: nat) returns (panicked: bool)
      requires Valid() && cur < NPROC && procs[cur].state == Running
      modifies this`mmapCount, this`events, this`vm, procs
      ensures Valid()
      ensures cur == initproc ==>
                panicked && procs[..] == old(procs[..]) && events == old(events) && vm == old(vm)
                && mmapCount == old(mmapCount)
      ensures cur != initproc ==>
                var p := old(procs[cur]); var pt := PtOf(old(vm), p.pgdir);
                && !panicked
                && procs[..] == ExitTable(old(procs[..])[cur := Cleaned(p)], cur, initproc)
                && events == old(events) + (if p.isThread then []
                                            else UnmapAllEvents(pt, p.mmaps, NMMAP) + CloseEvents(p.ofile) + [IPut(p.cwd)])
                && PtOf(vm, p.pgdir) == (if p.isThread then pt else UnmapAllPt(pt, p.mmaps, NMMAP))
                && (forall g :: g != p.pgdir ==> PtOf(vm, g) == PtOf(old(vm), g))
                && mmapCount == old(mmapCount) - (if p.isThread then 0 else UsedSlots(p.mmaps))
    {
      if cur == initproc {
        return true;
      }
      if !procs[cur].isThread {
        ReleaseResources(cur);
      } else {
        assert old(procs[..])[cur := Cleaned(procs[cur])] == procs[..];
      }
      BecomeZombie(cur);
      panicked := false;
    }

    // -------------------------------------------------------------------------
    // wait, join

    /** The child scan of wait (`threadsOnly` false, proc.c:363-385) and of join
        (`threadsOnly` true, proc.c:410-431): the first zombie child in table order
        and, when there is none, whether the caller has a child at all. */
    method ScanChildren(cur: nat, threadsOnly: bool) returns (z: Option<nat>, haveKids: bool)
      requires Valid()
      ensures z == FirstZombie(procs[..], cur, threadsOnly)
      ensures z.None? ==> (haveKids <==> HasChild(procs[..], cur, threadsOnly))
    {
      haveKids := false;
      var i := 0;
      while i < NPROC
        invariant 0 <= i <= NPROC
        invariant FirstZombieFrom(procs[..], cur, threadsOnly, i) == FirstZombie(procs[..], cur, threadsOnly)
        invariant haveKids <==> exists j :: 0 <= j < i && Qualifies(procs[j], cur, threadsOnly)
      {
        if Qualifies(procs[i], cur, threadsOnly) {
          haveKids := true;
          if procs[i].state == Zombie {
            return Some(i), true;
          }
        }
        i := i + 1;
      }
      z := None;
    }

    /** wait, proc.c:355-396: reaps the first zombie child in table order, thread
        children included, and returns its pid; its address space is freed only when
        it is not a thread.  Returns -1 when the caller has no child or has been
        killed; otherwise the caller sleeps on its own slot. */
    method Wait(cur: nat) returns (r: Step)
      requires Valid() && cur < NPROC && procs[cur].state == Running
      modifies this`events, this`tokens, procs
      ensures Valid()
      ensures var s := old(procs[..]); var z := FirstZombie(s, cur, false);
              tokens == (if z.Some? && !s[z.value].isThread then old(tokens) - {s[z.value].pgdir} else old(tokens))
      ensures var s := old(procs[..]); var z := FirstZombie(s, cur, false);
              && (z.Some? ==>
                    && r == Done(s[z.value].pid)
                    && procs[..] == s[z.value := Reaped(s[z.value], false)]
                    && events == old(events) + [KFree(s[z.value].kstack)]
                                 + (if s[z.value].isThread then [] else [FreeVm(s[z.value].pgdir)]))
              && (z.None? && (!HasChild(s, cur, false) || s[cur].killed) ==>
                    r == Done(-1) && procs[..] == s && events == old(events))
              && (z.None? && HasChild(s, cur, false) && !s[cur].killed ==>
                    r == Blocked && procs[..] == s[cur := Slept(s[cur], ProcChan(cur))] && events == old(events))
    {
      var z, haveKids := ScanChildren(cur, false);
      if z.Some? {
        var i := z.value;
        var p := procs[i];
        events := events + [KFree(p.kstack)];
        if !p.isThread {
          events := events + [FreeVm(p.pgdir)];
          tokens := tokens - {p.pgdir};
        }
        SetSlot(i, Reaped(p, false));
        return Done(p.pid);
      }
      if !haveKids || procs[cur].killed {
        return Done(-1);
      }
      Sleep(cur, ProcChan(cur));
      r := Blocked;
    }

    /** join, proc.c:399-438: like wait, but only thread children count, the reaped
        thread's tid is returned, and its address space, shared with the caller, is
        never freed.  A thread may not join. */
    method Join(cur: nat) returns (r: Step)
      requires Valid() && cur < NPROC && procs[cur].state == Running
      modifies this`events, procs
      ensures Valid()
      ensures var s := old(procs[..]); var z := FirstZombie(s, cur, true);
              && (s[cur].isThread ==> r == Done(-1) && procs[..] == s && events == old(events))
              && (!s[cur].isThread && z.Some? ==>
                    && r == Done(s[z.value].tid)
                    && procs[..] == s[z.value := Reaped(s[z.value], true)]
                    && events == old(events) + [KFree(s[z.value].kstack)])
              && (!s[cur].isThread && z.None? && (!HasChild(s, cur, true) || s[cur].killed) ==>
                    r == Done(-1) && procs[..] == s && events == old(events))
              && (!s[cur].isThread && z.None? && HasChild(s, cur, true) && !s[cur].killed ==>
                    r == Blocked && procs[..] == s[cur := Slept(s[cur], ProcChan(cur))] && events == old(events))
    {
      if procs[cur].isThread {
        return Done(-1);
      }
      var z, haveKids := ScanChildren(cur, true);
      if z.Some? {
        var i := z.value;
        var p := procs[i];
        events := events + [KFree(p.kstack)];
        SetSlot(i, Reaped(p, true));
        return Done(p.tid);
      }
      if !haveKids || procs[cur].killed {
        return Done(-1);
      }
      Sleep(cur, ProcChan(cur));
      r := Blocked;
    }

    // -------------------------------------------------------------------------
    // mutex_lock, mutex_unlock

    /** One trip of mutex_lock, proc.c:940-953: takes the lock at `l` in the caller's
        address space (the cell goes from 0 to 1) and returns 0, or, while it is held,
        sleeps on `l`. */
    method MutexLock(cur: nat, l: int) returns (r: Step)
      requires Valid() && cur < NPROC && procs[cur].state == Running
      modifies this`tokens, procs
      ensures Valid()
      ensures var g := old(procs[cur].pgdir);
              old(Token(g, l)) == 0 ==> r == Done(0) && tokens == old(tokens)[g := old(Cells(g))[l := 1]] && procs[..] == old(procs[..])
      ensures var g := old(procs[cur].pgdir);
              old(Token(g, l)) != 0 ==>
                r == Blocked && tokens == old(tokens)
                && procs[..] == old(procs[..])[cur := Slept(old(procs[cur]), Addr(l))]
    {
      var g := procs[cur].pgdir;
      if Token(g, l) != 0 {
        Sleep(cur, Addr(l));
        return Blocked;
      }
      tokens := tokens[g := Cells(g)[l := 1]];
      r := Done(0);
    }

    /** mutex_unlock, proc.c:955-966: clears the lock cell at `l` in the caller's
        address space and wakes every process sleeping on the address `l`, in any
        address space (the sleep channel is the bare address). */
    method MutexUnlock(cur: nat, l: int) returns (r: int)
      requires Valid() && cur < NPROC
      modifies this`tokens, procs
      ensures Valid()
      ensures var g := old(procs[cur].pgdir); r == 0 && tokens == old(tokens)[g := old(Cells(g))[l := 0]]
      ensures procs[..] == WakeAll(old(procs[..]), Addr(l))
    {
      var g := procs[cur].pgdir;
      tokens := tokens[g := Cells(g)[l := 0]];
      Wakeup1(Addr(l));
      r := 0;
    }

    // -------------------------------------------------------------------------
    // scheduler

    /** The innermost loop of scheduler, proc.c:546-547: the first slot at or after
        `i` that the scan at level `q` runs. */
    method ScanLevel(q: int, i: nat) returns (r: Option<nat>)
      requires Valid()
      ensures r == NextEligible(procs[..], q, i)
    {
      var j := i;
      while j < NPROC && !(procs[j].state == Runnable && procs[j].priority == q)
        invariant i <= j
        invariant NextEligible(procs[..], q, j) == NextEligible(procs[..], q, i)
        decreases NPROC - j
      {
        j := j + 1;
      }
      r := if j < NPROC then Some(j) else None;
    }

    /** The MLFQ loops of scheduler, proc.c:544-561, from cursor `c` up to the next
        slot they run, which becomes RUNNING; `None` is a whole pass that found
        nothing to run. */
    method Dispatch(c: Cursor) returns (pick: Option<nat>, next: Cursor)
      requires Valid() && CursorOk(c)
      modifies procs
      ensures Valid()
      ensures (pick, next) == Pick(old(procs[..]), c)
      ensures pick.None? ==> procs[..] == old(procs[..])
      ensures pick.Some? ==> procs[..] == old(procs[..])[pick.value := old(procs[pick.value]).(state := Running)]
    {
      ghost var s0 := procs[..];
      var q := c;
      while true
        invariant Valid() && procs[..] == s0
        invariant CursorOk(q) && Pick(s0, q) == Pick(s0, c)
        decreases (if q.found then 1 else 0), LOWEST_LEVEL - q.level
      {
        var j := ScanLevel(q.level, q.next);
        if j.Some? {
          SetSlot(j.value, procs[j.value].(state := Running));
          return j, Cursor(q.level, j.value + 1, true);
        }
        if q.found {
          q := Start;
        } else if q.level < LOWEST_LEVEL {
          q := Cursor(q.level + 1, 0, false);
        } else {
          return None, Start;
        }
      }
    }
  }
}
