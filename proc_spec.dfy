/** Pure definitions that the process-table operations of proc.c are proved against:
    which slot a table scan picks, what happens to one control block, the effect of
    exit on the whole table, and the page walk of munmap.  The lemmas here state
    what these definitions mean. */
module ProcSpec {
  import opened Common
  import opened ProcTypes

  // ---------------------------------------------------------------------------
  // Table scans: the first slot, in table order, that a `for(p = ptable.proc; ...)`
  // loop stops at.

  /** allocproc's scan, proc.c:91-93. */
  function FirstUnusedFrom(s: seq<Proc>, i: nat): (r: Option<nat>)
    decreases |s| - i
    ensures r.Some? ==> i <= r.value < |s| && s[r.value].state == Unused
    ensures r.Some? ==> forall j :: i <= j < r.value ==> s[j].state != Unused
    ensures r.None? ==> forall j :: i <= j < |s| ==> s[j].state != Unused
  {
    if i >= |s| then None
    else if s[i].state == Unused then Some(i)
    else FirstUnusedFrom(s, i + 1)
  }

  function FirstUnused(s: seq<Proc>): Option<nat> { FirstUnusedFrom(s, 0) }

  /** kill's scan, proc.c:714-715. */
  function FirstWithPidFrom(s: seq<Proc>, pid: int, i: nat): (r: Option<nat>)
    decreases |s| - i
    ensures r.Some? ==> i <= r.value < |s| && s[r.value].pid == pid
    ensures r.Some? ==> forall j :: i <= j < r.value ==> s[j].pid != pid
    ensures r.None? ==> forall j :: i <= j < |s| ==> s[j].pid != pid
  {
    if i >= |s| then None
    else if s[i].pid == pid then Some(i)
    else FirstWithPidFrom(s, pid, i + 1)
  }

  function FirstWithPid(s: seq<Proc>, pid: int): Option<nat> { FirstWithPidFrom(s, pid, 0) }

  /** The children that a reaping scan considers: wait takes every slot whose parent
      is the caller (proc.c:366, threads included); join only those that are threads
      (proc.c:412). */
  predicate Qualifies(p: Proc, cur: nat, threadsOnly: bool) {
    p.parent == Some(cur) && (!threadsOnly || p.isThread)
  }

  ghost predicate HasChild(s: seq<Proc>, cur: nat, threadsOnly: bool) {
    exists j :: 0 <= j < |s| && Qualifies(s[j], cur, threadsOnly)
  }

  /** The first qualifying ZOMBIE child in table order, proc.c:365-370 and proc.c:411-415. */
  function FirstZombieFrom(s: seq<Proc>, cur: nat, threadsOnly: bool, i: nat): (r: Option<nat>)
    decreases |s| - i
    ensures r.Some? ==> i <= r.value < |s| && Qualifies(s[r.value], cur, threadsOnly)
                        && s[r.value].state == Zombie
    ensures r.Some? ==> forall j :: i <= j < r.value ==>
                          !(Qualifies(s[j], cur, threadsOnly) && s[j].state == Zombie)
    ensures r.None? ==> forall j :: i <= j < |s| ==>
                          !(Qualifies(s[j], cur, threadsOnly) && s[j].state == Zombie)
  {
    if i >= |s| then None
    else if Qualifies(s[i], cur, threadsOnly) && s[i].state == Zombie then Some(i)
    else FirstZombieFrom(s, cur, threadsOnly, i + 1)
  }

  function FirstZombie(s: seq<Proc>, cur: nat, threadsOnly: bool): Option<nat> {
    FirstZombieFrom(s, cur, threadsOnly, 0)
  }

  /** mmap's free-slot scan, proc.c:805-810. */
  function FirstFreeMmapFrom(ms: seq<MmapSlot>, i: nat): (r: Option<nat>)
    decreases |ms| - i
    ensures r.Some? ==> i <= r.value < |ms| && !ms[r.value].used
    ensures r.Some? ==> forall j :: i <= j < r.value ==> ms[j].used
    ensures r.None? ==> forall j :: i <= j < |ms| ==> ms[j].used
  {
    if i >= |ms| then None
    else if !ms[i].used then Some(i)
    else FirstFreeMmapFrom(ms, i + 1)
  }

  function FirstFreeMmap(ms: seq<MmapSlot>): Option<nat> { FirstFreeMmapFrom(ms, 0) }

  /** munmap's scan for the used slot at a given address, proc.c:888-893. */
  function FindMappingFrom(ms: seq<MmapSlot>, addr: int, i: nat): (r: Option<nat>)
    decreases |ms| - i
    ensures r.Some? ==> i <= r.value < |ms| && ms[r.value].used && ms[r.value].addr == addr
    ensures r.Some? ==> forall j :: i <= j < r.value ==> !(ms[j].used && ms[j].addr == addr)
    ensures r.None? ==> forall j :: i <= j < |ms| ==> !(ms[j].used && ms[j].addr == addr)
  {
    if i >= |ms| then None
    else if ms[i].used && ms[i].addr == addr then Some(i)
    else FindMappingFrom(ms, addr, i + 1)
  }

  function FindMapping(ms: seq<MmapSlot>, addr: int): Option<nat> { FindMappingFrom(ms, addr, 0) }

  // ---------------------------------------------------------------------------
  // What the operations do to one control block.

  /** The fields allocproc sets on the slot it found, proc.c:99-112: EMBRYO with the
      next pid and the default scheduling fields, or back to UNUSED (with the pid
      consumed) when the kernel stack could not be allocated. */
  function Allocated(p: Proc, pid: int, kstack: int): Proc {
    p.(state := if kstack == 0 then Unused else Embryo, pid := pid, nice := 2,
       ticks := 0, priority := 0, timeSlice := TIME_SLICE, kstack := kstack)
  }

  /** `np->ofile[i] = filedup(curproc->ofile[i])` for each open file of the parent;
      an entry the parent has closed keeps whatever the child slot held
      (proc.c:228-230, proc.c:272-276). */
  function Inherit(child: seq<int>, parent: seq<int>): (r: seq<int>)
    requires |child| == |parent|
    ensures |r| == |parent|
    ensures forall i :: 0 <= i < |r| && parent[i] != 0 ==> r[i] == parent[i]
    ensures forall i :: 0 <= i < |r| && parent[i] == 0 ==> r[i] == child[i]
  {
    seq(|parent|, i requires 0 <= i < |parent| => if parent[i] != 0 then parent[i] else child[i])
  }

  /** The filedup calls for the open entries of a file table, in index order. */
  function DupEvents(ofile: seq<int>): seq<Event> {
    if |ofile| == 0 then []
    else DupEvents(ofile[..|ofile| - 1])
         + (if ofile[|ofile| - 1] != 0 then [FileDup(ofile[|ofile| - 1])] else [])
  }

  /** The fileclose calls for the open entries of a file table, in index order. */
  function CloseEvents(ofile: seq<int>): seq<Event> {
    if |ofile| == 0 then []
    else CloseEvents(ofile[..|ofile| - 1])
         + (if ofile[|ofile| - 1] != 0 then [FileClose(ofile[|ofile| - 1])] else [])
  }

  /** The child fork leaves RUNNABLE, proc.c:211-243, on top of what allocproc set. */
  function ForkChild(child: Proc, parent: Proc, parentSlot: nat, kstack: int, pgdir: int): Proc
    requires |child.ofile| == |parent.ofile|
  {
    child.(state := Runnable, tid := child.pid, isThread := false, nice := parent.nice,
           kstack := kstack, pgdir := pgdir, sz := parent.sz, parent := Some(parentSlot),
           tf := parent.tf.(eax := 0), ofile := Inherit(child.ofile, parent.ofile),
           cwd := parent.cwd)
  }

  /** The slot fork gives back when copyuvm fails, proc.c:215-220: kernel stack
      freed, UNUSED again, with the nice value and the failed pgdir already stored. */
  function ForkFailed(a: Proc, nice: int): Proc {
    a.(nice := nice, pgdir := 0, kstack := 0, state := Unused)
  }

  /** A saved stack or frame pointer of the caller moved by the distance between the
      caller's stack page and the new stack, all in `uint` arithmetic (proc.c:265-270). */
  function Relocate(sp: u32, esp: u32, stack: u32): u32 {
    Wrap(sp + Wrap(stack - PgRoundDown(esp)))
  }

  /** The thread clone leaves RUNNABLE, proc.c:260-290: same address space and pid
      as the caller, the freshly allocated pid as its tid. */
  function CloneChild(child: Proc, parent: Proc, parentSlot: nat, kstack: int, stack: u32): Proc
    requires |child.ofile| == |parent.ofile|
  {
    child.(state := Runnable, pid := parent.pid, tid := child.pid, isThread := true,
           kstack := kstack, pgdir := parent.pgdir, sz := parent.sz,
           parent := Some(parentSlot),
           tf := parent.tf.(eax := 0, esp := Relocate(parent.tf.esp, parent.tf.esp, stack),
                            ebp := Relocate(parent.tf.ebp, parent.tf.esp, stack)),
           ofile := Inherit(child.ofile, parent.ofile), cwd := parent.cwd)
  }

  /** A reaped slot, proc.c:372-381 (wait keeps the pgdir handle) and
      proc.c:417-424 (join clears it). */
  function Reaped(p: Proc, clearPgdir: bool): Proc {
    p.(kstack := 0, pgdir := if clearPgdir then 0 else p.pgdir, pid := 0,
       parent := None, killed := false, state := Unused)
  }

  /** wakeup1 on one slot, proc.c:692-693. */
  function WakeOne(p: Proc, c: Chan): Proc {
    if p.state == Sleeping && p.chan == c then p.(state := Runnable) else p
  }

  /** The channel a waiting parent sleeps on: the address of its slot. */
  function ParentChan(parent: Option<nat>): Chan {
    if parent.Some? then ProcChan(parent.value) else NoChan
  }

  /** exit's re-parenting of one slot, proc.c:339-340. */
  function AdoptOne(p: Proc, cur: nat, init: nat): Proc {
    if p.parent == Some(cur) then p.(parent := Some(init)) else p
  }

  /** The state sleep leaves before switching away, proc.c:665-669. */
  function Slept(p: Proc, c: Chan): Proc {
    p.(chan := c, state := Sleeping, timeSlice := TIME_SLICE)
  }

  /** kill on the slot it found, proc.c:716-719. */
  function KillOne(p: Proc): Proc {
    p.(killed := true, state := if p.state == Sleeping then Runnable else p.state)
  }

  /** setnice's clamping, proc.c:599-602. */
  function Clamp(x: int, lo: int, hi: int): (r: int)
    requires lo <= hi
    ensures lo <= r <= hi
    ensures lo <= x <= hi ==> r == x
    ensures x < lo ==> r == lo
    ensures hi < x ==> r == hi
  {
    if x < lo then lo else if x > hi then hi else x
  }

  // ---------------------------------------------------------------------------
  // exit, proc.c:300-349.

  /** A slot freed by munmap, proc.c:928-930. */
  function Unmapped(m: MmapSlot): MmapSlot { m.(used := false, file := 0) }

  /** The slots of a table after munmap has been called on each used one. */
  function UnmappedAll(ms: seq<MmapSlot>): (r: seq<MmapSlot>)
    ensures |r| == |ms|
    ensures forall k :: 0 <= k < |ms| ==> !r[k].used
    ensures forall k :: 0 <= k < |ms| && !ms[k].used ==> r[k] == ms[k]
  {
    UnmappedBelow(ms, |ms|)
  }

  /** What the resource release of a non-thread exit leaves in the slot: every used
      mapping unmapped, every file closed, no cwd (proc.c:311-330).  Threads release
      nothing. */
  function Cleaned(p: Proc): Proc {
    if p.isThread then p
    else p.(mmaps := UnmappedAll(p.mmaps), ofile := seq(|p.ofile|, _ => 0), cwd := 0)
  }

  ghost predicate HasZombieChild(s: seq<Proc>, cur: nat) {
    exists j :: 0 <= j < |s| && s[j].parent == Some(cur) && s[j].state == Zombie
  }

  /** wakeup1(c) applied to the slot when `woken`, the slot itself otherwise. */
  function MaybeWake(p: Proc, c: Chan, woken: bool): Proc {
    if woken then WakeOne(p, c) else p
  }

  /** The arguments mmap accepts before it looks at the global count (proc.c:791-795):
      no write access to a file opened read-only, a page-aligned offset (C's `%`
      truncates, but it is zero exactly when Dafny's is), a positive length. */
  predicate MmapArgsOk(offset: int, length: int, flags: int, f: FileRef) {
    !(Bit1(flags) && !f.writable) && offset % PGSIZE == 0 && length > 0
  }

  /** wakeup1(c) on the whole table. */
  function WakeAll(s: seq<Proc>, c: Chan): (r: seq<Proc>)
    ensures |r| == |s|
    ensures forall j :: 0 <= j < |s| ==> r[j] == WakeOne(s[j], c)
  {
    seq(|s|, j requires 0 <= j < |s| => WakeOne(s[j], c))
  }

  /** The table part-way through exit's re-parenting loop (proc.c:338-344): the
      children of `cur` below slot `i` handed to `init`, and every slot woken on
      init's channel once `woken`. */
  function AdoptedBelow(s: seq<Proc>, cur: nat, init: nat, i: int, woken: bool): (r: seq<Proc>)
    ensures |r| == |s|
  {
    seq(|s|, j requires 0 <= j < |s| =>
          MaybeWake(if j < i then AdoptOne(s[j], cur, init) else s[j], ProcChan(init), woken))
  }

  /** The table after exit, given the table `b` after the caller's resources were
      released (proc.c:332-347): the parent woken, the re-parenting loop run over
      the whole table, the caller a ZOMBIE. */
  ghost function ExitTable(b: seq<Proc>, cur: nat, init: nat): (r: seq<Proc>)
    requires cur < |b|
    ensures |r| == |b|
  {
    var w := WakeAll(b, ParentChan(b[cur].parent));
    var a := AdoptedBelow(w, cur, init, |b|, HasZombieChild(w, cur));
    a[cur := a[cur].(state := Zombie)]
  }

  /** wakeup1 changes exactly the slots sleeping on `c`, and only their state,
      which becomes RUNNABLE; a second call changes nothing. */
  lemma WakeAllSpec(s: seq<Proc>, c: Chan)
    ensures var r := WakeAll(s, c);
            forall j :: 0 <= j < |s| ==> (r[j] != s[j] <==> s[j].state == Sleeping && s[j].chan == c)
    ensures var r := WakeAll(s, c);
            forall j :: 0 <= j < |s| ==> r[j] == s[j].(state := r[j].state)
    ensures var r := WakeAll(s, c);
            forall j :: 0 <= j < |s| && s[j].state == Sleeping && s[j].chan == c ==> r[j].state == Runnable
    ensures WakeAll(WakeAll(s, c), c) == WakeAll(s, c)
  {
  }

  /** Slot `j` of the table after exit, one slot at a time. */
  lemma ExitTableAt(b: seq<Proc>, cur: nat, init: nat, j: nat)
    requires cur < |b| && j < |b|
    ensures var x := MaybeWake(AdoptOne(WakeOne(b[j], ParentChan(b[cur].parent)), cur, init),
                               ProcChan(init), HasZombieChild(b, cur));
            ExitTable(b, cur, init)[j] == if j == cur then x.(state := Zombie) else x
  {
    var w := WakeAll(b, ParentChan(b[cur].parent));
    if HasZombieChild(b, cur) {
      var i :| 0 <= i < |b| && b[i].parent == Some(cur) && b[i].state == Zombie;
      assert w[i].parent == Some(cur) && w[i].state == Zombie;
    }
    assert HasZombieChild(w, cur) == HasZombieChild(b, cur);
  }

  /** What exit does to one slot `j` of the table `b` left by its resource release. */
  lemma ExitSlotSpec(b: seq<Proc>, cur: nat, init: nat, j: nat)
    requires cur < |b| && init < |b| && j < |b|
    ensures var r := ExitTable(b, cur, init)[j];
            && r.parent == (if b[j].parent == Some(cur) then Some(init) else b[j].parent)
            && r == b[j].(state := r.state, parent := r.parent)
            && (j == cur ==> r.state == Zombie)
            && (j != cur && r.state != b[j].state ==>
                  && b[j].state == Sleeping && r.state == Runnable
                  && (b[j].chan == ParentChan(b[cur].parent) || b[j].chan == ProcChan(init)))
            && ((j != cur && b[cur].parent == Some(j) && b[j].state == Sleeping && b[j].chan == ProcChan(j))
                  ==> r.state == Runnable)
            && ((j != cur && j == init && HasZombieChild(b, cur) && b[j].state == Sleeping
                   && b[j].chan == ProcChan(init)) ==> r.state == Runnable)
  {
    ExitTableAt(b, cur, init, j);
  }

  /** What exit does to the whole table: the caller is a ZOMBIE; exactly the
      children of the caller now have init as parent, so none is left with the
      caller as its parent; every slot keeps everything but its state and parent,
      and the state of another slot changes only from SLEEPING to RUNNABLE on the
      channel of the caller's parent or of init; a parent sleeping in wait is
      woken, and so is init when a child handed to it is already a zombie. */
  lemma ExitTableSpec(b: seq<Proc>, cur: nat, init: nat)
    requires cur < |b| && init < |b|
    ensures var r := ExitTable(b, cur, init);
            forall j :: 0 <= j < |b| ==>
              && r[j].parent == (if b[j].parent == Some(cur) then Some(init) else b[j].parent)
              && r[j] == b[j].(state := r[j].state, parent := r[j].parent)
              && (j == cur ==> r[j].state == Zombie)
              && (j != cur && r[j].state != b[j].state ==>
                    && b[j].state == Sleeping && r[j].state == Runnable
                    && (b[j].chan == ParentChan(b[cur].parent) || b[j].chan == ProcChan(init)))
              && ((j != cur && b[cur].parent == Some(j) && b[j].state == Sleeping && b[j].chan == ProcChan(j))
                    ==> r[j].state == Runnable)
              && ((j != cur && j == init && HasZombieChild(b, cur) && b[j].state == Sleeping
                     && b[j].chan == ProcChan(init)) ==> r[j].state == Runnable)
    ensures cur != init ==> forall j :: 0 <= j < |b| ==> ExitTable(b, cur, init)[j].parent != Some(cur)
  {
    forall j | 0 <= j < |b| {
      ExitSlotSpec(b, cur, init, j);
    }
  }

  // ---------------------------------------------------------------------------
  // Live mappings: the global count mmap and munmap keep.

  function UsedSlots(ms: seq<MmapSlot>): nat {
    if |ms| == 0 then 0
    else UsedSlots(ms[..|ms| - 1]) + (if ms[|ms| - 1].used then 1 else 0)
  }

  function LiveMappings(s: seq<Proc>): nat {
    if |s| == 0 then 0 else LiveMappings(s[..|s| - 1]) + UsedSlots(s[|s| - 1].mmaps)
  }

  /** The invariant of the whole table: each slot well formed, every pid and tid
      handed out below `nextpid`, and the global count equal to the number of used
      memory-map slots in the table, never more than 16. */
  ghost predicate TableOk(s: seq<Proc>, nextpid: int, count: int) {
    && |s| == NPROC
    && (forall i :: 0 <= i < |s| ==> ProcOk(s[i]) && s[i].pid < nextpid && s[i].tid < nextpid)
    && 0 <= count <= MAX_MMAPS
    && count == LiveMappings(s)
  }

  // ---------------------------------------------------------------------------
  // munmap's page walk, proc.c:899-926.

  /** The file offset of the page at `page` in the slot's window, `(page - addr) +
      offset` computed in `uint` (the two reductions of the source collapse into one).
      The fault-in path (trap.c:84) and the write-back path (proc.c:910) both use it. */
  function FileOffset(m: MmapSlot, page: int): u32 {
    Wrap((page - m.addr) + m.offset)
  }

  /** `*pte = 0` for a present entry. */
  function ClearPage(pt: PageTable, va: int): PageTable {
    if va in pt && pt[va].present then pt[va := ZeroPte] else pt
  }

  /** The collaborator calls munmap makes for a present entry `e` at `va` while
      `left` bytes of the region remain: the write-back of a dirty page, then the
      release of its frame. */
  function EntryEvents(e: Pte, m: MmapSlot, va: int, left: int): seq<Event> {
    (if e.dirty then [WritePage(m.file, FileOffset(m, va), Min(left, PGSIZE), e.pa)] else [])
    + (if e.pa != 0 then [KFree(e.pa)] else [])
  }

  /** The same for whatever entry the table holds at `va`. */
  function PageEvents(pt: PageTable, m: MmapSlot, va: int, left: int): seq<Event> {
    if va in pt && pt[va].present then EntryEvents(pt[va], m, va, left) else []
  }

  function UnmapWalkPt(pt: PageTable, va: int, left: int): PageTable
    decreases left
  {
    if left <= 0 then pt else UnmapWalkPt(ClearPage(pt, va), va + PGSIZE, left - PGSIZE)
  }

  function UnmapWalkEvents(pt: PageTable, m: MmapSlot, va: int, left: int): seq<Event>
    decreases left
  {
    if left <= 0 then []
    else PageEvents(pt, m, va, left) + UnmapWalkEvents(ClearPage(pt, va), m, va + PGSIZE, left - PGSIZE)
  }

  /** One trip of the page loop: the walk is the first page followed by the rest. */
  lemma UnmapWalkStep(pt: PageTable, m: MmapSlot, va: int, left: int)
    requires left > 0
    ensures UnmapWalkPt(pt, va, left) == UnmapWalkPt(ClearPage(pt, va), va + PGSIZE, left - PGSIZE)
    ensures UnmapWalkEvents(pt, m, va, left)
            == PageEvents(pt, m, va, left) + UnmapWalkEvents(ClearPage(pt, va), m, va + PGSIZE, left - PGSIZE)
  {
  }

  /** The pages the walk visits: va0, va0 + PGSIZE, ... below va0 + left. */
  predicate OnWalk(va: int, va0: int, left: int) {
    va0 <= va < va0 + left && (va - va0) % PGSIZE == 0
  }

  /** The page table of address space `pgdir`; one the model has no table for is
      empty. */
  function PtOf(vm: AddressSpaces, pgdir: int): PageTable {
    if pgdir in vm then vm[pgdir] else map[]
  }

  /** The page table after exit has called munmap on the used slots among the
      first `k`, in index order (proc.c:311-315). */
  function UnmapAllPt(pt: PageTable, ms: seq<MmapSlot>, k: nat): PageTable
    requires k <= |ms|
  {
    if k == 0 then pt
    else
      var before := UnmapAllPt(pt, ms, k - 1);
      var m := ms[k - 1];
      if m.used then UnmapWalkPt(before, m.addr, m.length) else before
  }

  /** The collaborator calls of those munmap calls. */
  function UnmapAllEvents(pt: PageTable, ms: seq<MmapSlot>, k: nat): seq<Event>
    requires k <= |ms|
  {
    if k == 0 then []
    else
      var m := ms[k - 1];
      UnmapAllEvents(pt, ms, k - 1)
      + (if m.used then UnmapWalkEvents(UnmapAllPt(pt, ms, k - 1), m, m.addr, m.length) + [FileClose(m.file)]
         else [])
  }

  /** The slots after the first `k` used ones have been unmapped. */
  function UnmappedBelow(ms: seq<MmapSlot>, k: int): (r: seq<MmapSlot>)
    ensures |r| == |ms|
  {
    seq(|ms|, j requires 0 <= j < |ms| => if j < k && ms[j].used then Unmapped(ms[j]) else ms[j])
  }

  // ---------------------------------------------------------------------------
  // Lemmas.

  /** Replacing one memory-map slot changes the number of used slots by the
      difference it makes. */
  lemma {:induction false} UsedSlotsUpdate(ms: seq<MmapSlot>, k: nat, m: MmapSlot)
    requires k < |ms|
    ensures UsedSlots(ms[k := m]) == UsedSlots(ms) - (if ms[k].used then 1 else 0) + (if m.used then 1 else 0)
    decreases |ms|
  {
    var n := |ms| - 1;
    if k == n {
      assert ms[k := m][..n] == ms[..n];
    } else {
      assert ms[k := m][..n] == ms[..n][k := m];
      UsedSlotsUpdate(ms[..n], k, m);
    }
  }

  /** A slot table with no used slot counts zero. */
  lemma {:induction false} UsedSlotsNone(ms: seq<MmapSlot>)
    requires forall k :: 0 <= k < |ms| ==> !ms[k].used
    ensures UsedSlots(ms) == 0
    decreases |ms|
  {
    if |ms| > 0 {
      UsedSlotsNone(ms[..|ms| - 1]);
    }
  }

  /** Replacing one control block changes the live-mapping count by the difference
      of their used slots. */
  lemma {:induction false} LiveMappingsUpdate(s: seq<Proc>, i: nat, p: Proc)
    requires i < |s|
    ensures LiveMappings(s[i := p]) == LiveMappings(s) - UsedSlots(s[i].mmaps) + UsedSlots(p.mmaps)
    decreases |s|
  {
    var n := |s| - 1;
    if i == n {
      assert s[i := p][..n] == s[..n];
    } else {
      assert s[i := p][..n] == s[..n][i := p];
      LiveMappingsUpdate(s[..n], i, p);
    }
  }

  /** The live-mapping count depends on the memory-map slots only. */
  lemma {:induction false} LiveMappingsFrame(s: seq<Proc>, t: seq<Proc>)
    requires |s| == |t|
    requires forall j :: 0 <= j < |s| ==> s[j].mmaps == t[j].mmaps
    ensures LiveMappings(s) == LiveMappings(t)
    decreases |s|
  {
    if |s| > 0 {
      LiveMappingsFrame(s[..|s| - 1], t[..|t| - 1]);
    }
  }

  /** Two different mapping windows never overlap while each mapping is at most the
      stride between windows long; mmap does not bound `length`, so this is the
      only case in which the slots are disjoint. */
  lemma WindowsDisjoint(k1: nat, k2: nat, len1: int, len2: int, va: int)
    requires k1 != k2 && len1 <= MMAP_STRIDE && len2 <= MMAP_STRIDE
    ensures !(MmapBase(k1) <= va < MmapBase(k1) + len1 && MmapBase(k2) <= va < MmapBase(k2) + len2)
  {
    if k1 < k2 {
      assert MmapBase(k2) - MmapBase(k1) == (k2 - k1) * MMAP_STRIDE;
      assert (k2 - k1) * MMAP_STRIDE >= MMAP_STRIDE;
    } else {
      assert MmapBase(k1) - MmapBase(k2) == (k1 - k2) * MMAP_STRIDE;
      assert (k1 - k2) * MMAP_STRIDE >= MMAP_STRIDE;
    }
  }

  /** A mapping longer than the stride reaches into the next slot's window: the
      first byte of window k + 1 lies in both. */
  lemma WindowsOverlapWhenLong(k: nat, len: int)
    requires len > MMAP_STRIDE
    ensures var va := MmapBase(k + 1);
            MmapBase(k) <= va < MmapBase(k) + len && MmapBase(k + 1) <= va < MmapBase(k + 1) + 1
  {
  }

  /** Every address mmap hands out is page-aligned, below the kernel half, and never
      the failure value. */
  lemma MmapBaseProperties(k: nat)
    requires k < NMMAP
    ensures MmapBase(k) % PGSIZE == 0
    ensures MMAP_BASE <= MmapBase(k) < KERNBASE
    ensures MmapBase(k) != MAP_FAILED as int
  {
    assert MmapBase(k) == PGSIZE * (0x4_0000 + 256 * k);
  }

  /** clone's relocation: for a page-aligned new stack, the child's stack pointer
      sits at the same offset in the new stack page as the caller's does in its
      own, and the frame pointer is moved by the same distance modulo 2^32. */
  lemma {:induction false} RelocateStack(esp: u32, ebp: u32, stack: u32)
    requires stack % PGSIZE == 0
    ensures Relocate(esp, esp, stack) == stack + esp % PGSIZE
    ensures Relocate(ebp, esp, stack) == Wrap(ebp + stack - PgRoundDown(esp))
  {
    WrapAddWrap(esp, stack - PgRoundDown(esp));
    WrapAddWrap(ebp, stack - PgRoundDown(esp));
    assert esp + (stack - PgRoundDown(esp)) == stack + esp % PGSIZE;
    assert stack <= TWO32 - PGSIZE;
  }

  /** One step of the walk: an address on the walk other than its first page is on
      the rest of the walk. */
  lemma {:induction false} OnWalkStep(va: int, va0: int, left: int)
    requires OnWalk(va, va0, left) && va != va0
    ensures OnWalk(va, va0 + PGSIZE, left - PGSIZE)
  {
    var q := (va - va0) / PGSIZE;
    assert va - va0 == q * PGSIZE;
    assert q >= 1;
    assert va - (va0 + PGSIZE) == (q - 1) * PGSIZE;
  }

  /** What munmap leaves in the page table: every present entry on the walk is
      cleared, every other entry is unchanged, and no entry appears or disappears. */
  lemma {:induction false} UnmapWalkPtSpec(pt: PageTable, va0: int, left: int, va: int)
    ensures va in UnmapWalkPt(pt, va0, left) <==> va in pt
    ensures va in pt ==>
              UnmapWalkPt(pt, va0, left)[va]
              == (if OnWalk(va, va0, left) && pt[va].present then ZeroPte else pt[va])
    decreases left
  {
    if left > 0 {
      var pt' := ClearPage(pt, va0);
      UnmapWalkPtSpec(pt', va0 + PGSIZE, left - PGSIZE, va);
      if va == va0 {
        assert !OnWalk(va, va0 + PGSIZE, left - PGSIZE);
      } else if OnWalk(va, va0, left) {
        OnWalkStep(va, va0, left);
      } else {
        assert !OnWalk(va, va0 + PGSIZE, left - PGSIZE);
      }
    }
  }

  /** Event `i` of `e` is the write-back `w` and, when the page has a frame behind
      it, the release of that frame follows at once. */
  predicate WriteBackAt(e: seq<Event>, i: int, w: Event, pa: int) {
    0 <= i < |e| && e[i] == w && (pa != 0 ==> i + 1 < |e| && e[i + 1] == KFree(pa))
  }

  /** munmap writes a dirty present page back, at its file offset and with the
      bytes of the region left from that page (at most a page), and the release of
      the page comes immediately after its write-back. */
  lemma {:induction false} UnmapWalkWritesBack(pt: PageTable, m: MmapSlot, va0: int, left: int, va: int)
    requires va in pt && pt[va].present && pt[va].dirty && OnWalk(va, va0, left)
    ensures exists i {:trigger WriteBackAt(UnmapWalkEvents(pt, m, va0, left), i, WritePage(m.file, FileOffset(m, va), Min(va0 + left - va, PGSIZE), pt[va].pa), pt[va].pa)} ::
              WriteBackAt(UnmapWalkEvents(pt, m, va0, left), i,
                                    WritePage(m.file, FileOffset(m, va), Min(va0 + left - va, PGSIZE), pt[va].pa),
                                    pt[va].pa)
    decreases left
  {
    var w := WritePage(m.file, FileOffset(m, va), Min(va0 + left - va, PGSIZE), pt[va].pa);
    var e := UnmapWalkEvents(pt, m, va0, left);
    var pt' := ClearPage(pt, va0);
    var rest := UnmapWalkEvents(pt', m, va0 + PGSIZE, left - PGSIZE);
    var head := PageEvents(pt, m, va0, left);
    assert e == head + rest;
    if va == va0 {
      assert head == [w] + (if pt[va].pa != 0 then [KFree(pt[va].pa)] else []);
      assert WriteBackAt(e, 0, w, pt[va].pa);
    } else {
      OnWalkStep(va, va0, left);
      UnmapWalkWritesBack(pt', m, va0 + PGSIZE, left - PGSIZE, va);
      var i :| WriteBackAt(rest, i, w, pt[va].pa);
      assert WriteBackAt(e, |head| + i, w, pt[va].pa);
    }
  }

  /** munmap releases every present page of the region that has a page behind it. */
  lemma {:induction false} UnmapWalkFrees(pt: PageTable, m: MmapSlot, va0: int, left: int, va: int)
    requires va in pt && pt[va].present && pt[va].pa != 0 && OnWalk(va, va0, left)
    ensures KFree(pt[va].pa) in UnmapWalkEvents(pt, m, va0, left)
    decreases left
  {
    var pt' := ClearPage(pt, va0);
    var e := UnmapWalkEvents(pt, m, va0, left);
    assert e == PageEvents(pt, m, va0, left) + UnmapWalkEvents(pt', m, va0 + PGSIZE, left - PGSIZE);
    if va == va0 {
      assert KFree(pt[va].pa) in PageEvents(pt, m, va0, left);
    } else {
      OnWalkStep(va, va0, left);
      UnmapWalkFrees(pt', m, va0 + PGSIZE, left - PGSIZE, va);
    }
  }

  /** A table in which no control block has a used slot has no live mapping. */
  lemma {:induction false} LiveMappingsZero(s: seq<Proc>)
    requires forall j :: 0 <= j < |s| ==> UsedSlots(s[j].mmaps) == 0
    ensures LiveMappings(s) == 0
    decreases |s|
  {
    if |s| > 0 {
      LiveMappingsZero(s[..|s| - 1]);
    }
  }

  /** One trip of exit's munmap loop in terms of the definitions above. */
  lemma UnmapAllStep(pt: PageTable, ms: seq<MmapSlot>, k: nat)
    requires k < |ms|
    ensures var m := ms[k]; var before := UnmapAllPt(pt, ms, k);
            && UnmapAllPt(pt, ms, k + 1) == (if m.used then UnmapWalkPt(before, m.addr, m.length) else before)
            && UnmapAllEvents(pt, ms, k + 1)
               == UnmapAllEvents(pt, ms, k)
                  + (if m.used then UnmapWalkEvents(before, m, m.addr, m.length) + [FileClose(m.file)] else [])
            && UsedSlots(ms[..k + 1]) == UsedSlots(ms[..k]) + (if m.used then 1 else 0)
            && UnmappedBelow(ms, k + 1) == UnmappedBelow(ms, k)[k := if m.used then Unmapped(m) else m]
  {
    assert ms[..k + 1][..k] == ms[..k];
  }

  /** The slot exit's munmap call finds for the address of its own used slot `k`:
      slot `k` itself, since any other used slot sits at another window; the
      address is page-aligned, so munmap's first check passes too. */
  lemma FindMappingOwnSlot(ms: seq<MmapSlot>, k: nat)
    requires |ms| == NMMAP && k < |ms| && ms[k].used
    requires forall j :: 0 <= j < |ms| ==> MmapSlotOk(ms[j], j)
    ensures FindMapping(ms, ms[k].addr) == Some(k)
    ensures ms[k].addr % PGSIZE == 0
  {
    MmapBaseProperties(k);
    var r := FindMapping(ms, ms[k].addr);
    if r != Some(k) {
      assert MmapSlotOk(ms[k], k);
      if r.Some? {
        assert MmapSlotOk(ms[r.value], r.value);
      }
    }
  }

  /** One trip of exit's re-parenting loop: slot `i` is handed to `init` when it is
      a child of `cur` and left alone otherwise; waking does not change a slot's
      parent nor whether it is a zombie. */
  lemma AdoptStep(s: seq<Proc>, cur: nat, init: nat, i: nat, woken: bool)
    requires i < |s|
    ensures var a := AdoptedBelow(s, cur, init, i, woken);
            a[i].parent == s[i].parent && (a[i].state == Zombie <==> s[i].state == Zombie)
    ensures var a := AdoptedBelow(s, cur, init, i, woken);
            s[i].parent == Some(cur) ==>
              AdoptedBelow(s, cur, init, i + 1, woken) == a[i := a[i].(parent := Some(init))]
    ensures s[i].parent != Some(cur) ==>
              AdoptedBelow(s, cur, init, i + 1, woken) == AdoptedBelow(s, cur, init, i, woken)
  {
  }

  /** Waking init's channel part-way through the loop gives the same table as if
      every slot had been woken: waking twice is waking once, and waking commutes
      with re-parenting. */
  lemma WakeAdopted(s: seq<Proc>, cur: nat, init: nat, i: nat, woken: bool)
    ensures WakeAll(AdoptedBelow(s, cur, init, i, woken), ProcChan(init))
            == AdoptedBelow(s, cur, init, i, true)
  {
  }

  /** Replacing one well-formed control block keeps the table invariant, with the
      count moved by the difference in used slots. */
  lemma TableOkUpdate(s: seq<Proc>, i: nat, p: Proc, np: int, count: int, np2: int, count2: int)
    requires TableOk(s, np, count) && i < |s| && np <= np2
    requires ProcOk(p) && p.pid < np2 && p.tid < np2
    requires count2 == count - UsedSlots(s[i].mmaps) + UsedSlots(p.mmaps) && count2 <= MAX_MMAPS
    ensures TableOk(s[i := p], np2, count2)
  {
    LiveMappingsUpdate(s, i, p);
  }
}
