/** The dispatch order of the multi-level feedback queue scheduler, proc.c:535-565.
    One call of `Pick` is one trip of the innermost loop of `scheduler` up to the next
    slot it runs: the cursor remembers the level being scanned, the slot after the
    last one dispatched, and whether anything was dispatched at this level. */
module Mlfq {
  import opened Common
  import opened ProcTypes

  /** A slot the scan at level `q` dispatches (proc.c:547). */
  predicate Eligible(p: Proc, q: int) {
    p.state == Runnable && p.priority == q
  }

  /** A slot some level of the scan can dispatch. */
  predicate Schedulable(p: Proc) {
    p.state == Runnable && 0 <= p.priority <= LOWEST_LEVEL
  }

  /** The position of the scan: the queue level `q`, the next slot to look at, and
      `found_proc_in_this_queue`. */
  datatype Cursor = Cursor(level: int, next: nat, found: bool)

  predicate CursorOk(c: Cursor) { 0 <= c.level <= LOWEST_LEVEL }

  /** Where every pass starts, and where `q = -1` sends the scan back to. */
  const Start: Cursor := Cursor(0, 0, false)

  /** The first slot at or after `i` that the scan at level `q` dispatches. */
  function NextEligible(s: seq<Proc>, q: int, i: nat): (r: Option<nat>)
    decreases |s| - i
    ensures r.Some? ==> i <= r.value < |s| && Eligible(s[r.value], q)
    ensures r.Some? ==> forall j :: i <= j < r.value ==> !Eligible(s[j], q)
    ensures r.None? ==> forall j :: i <= j < |s| ==> !Eligible(s[j], q)
  {
    if i >= |s| then None
    else if Eligible(s[i], q) then Some(i)
    else NextEligible(s, q, i + 1)
  }

  /** The next slot the scheduler runs from cursor `c`, and the cursor afterwards.
      A level with nothing left goes to the next level, or back to level 0 when
      something was dispatched at it; `None` is a pass that found nothing at all. */
  function Pick(s: seq<Proc>, c: Cursor): (r: (Option<nat>, Cursor))
    requires CursorOk(c)
    decreases (if c.found then 1 else 0), LOWEST_LEVEL - c.level
    ensures CursorOk(r.1)
    ensures r.0.Some? ==> r.0.value < |s| && Schedulable(s[r.0.value])
                          && r.1 == Cursor(s[r.0.value].priority, r.0.value + 1, true)
    ensures r.0.None? ==> r.1 == Start
  {
    match NextEligible(s, c.level, c.next)
    case Some(j) => (Some(j), Cursor(c.level, j + 1, true))
    case None =>
      if c.found then Pick(s, Start)
      else if c.level < LOWEST_LEVEL then Pick(s, Cursor(c.level + 1, 0, false))
      else (None, Start)
  }

  /** A slot `j` comes no later than `k` in dispatch order: lower level first, table
      order within a level. */
  predicate PrecedesOrEqual(s: seq<Proc>, j: nat, k: nat)
    requires j < |s| && k < |s|
  {
    s[j].priority < s[k].priority || (s[j].priority == s[k].priority && j <= k)
  }

  /** A pass that starts at level `l` runs the first slot in (level, index) order
      among those at levels `l` and below; it finds nothing only if there is none. */
  lemma {:induction false} PickFromLevel(s: seq<Proc>, l: int)
    requires 0 <= l <= LOWEST_LEVEL
    ensures var r := Pick(s, Cursor(l, 0, false));
            r.0.Some? ==>
              (l <= s[r.0.value].priority
               && forall k :: 0 <= k < |s| && Schedulable(s[k]) && l <= s[k].priority
                    ==> PrecedesOrEqual(s, r.0.value, k))
    ensures Pick(s, Cursor(l, 0, false)).0.None? ==>
              forall k :: 0 <= k < |s| && Schedulable(s[k]) ==> s[k].priority < l
    decreases LOWEST_LEVEL - l
  {
    match NextEligible(s, l, 0)
    case Some(j) =>
    case None =>
      if l < LOWEST_LEVEL {
        PickFromLevel(s, l + 1);
      }
  }

  /** A fresh pass runs the schedulable slot with the lowest level, the lowest
      index among those; it runs nothing exactly when no slot is schedulable. */
  lemma PickFresh(s: seq<Proc>)
    ensures var r := Pick(s, Start);
            r.0.Some? ==> forall k :: 0 <= k < |s| && Schedulable(s[k]) ==> PrecedesOrEqual(s, r.0.value, k)
    ensures Pick(s, Start).0.None? <==> forall k :: 0 <= k < |s| ==> !Schedulable(s[k])
  {
    PickFromLevel(s, 0);
  }

  /** After a dispatch the scan keeps to its level: the next eligible slot at that
      level further on in the table runs next, even when a lower level has gained a
      runnable slot meanwhile; only once the level is exhausted does the scan start
      over at level 0. */
  lemma PickAfterDispatch(s: seq<Proc>, q: int, i: nat)
    requires 0 <= q <= LOWEST_LEVEL
    ensures NextEligible(s, q, i).Some? ==> Pick(s, Cursor(q, i, true)).0 == NextEligible(s, q, i)
    ensures NextEligible(s, q, i).None? ==> Pick(s, Cursor(q, i, true)) == Pick(s, Start)
  {
  }

  /** From any cursor a call can leave behind (the start of a pass, or just after a
      dispatch), finding nothing means that nothing is schedulable. */
  lemma PickNoneMeansIdle(s: seq<Proc>, c: Cursor)
    requires CursorOk(c) && (c.found || c == Start)
    requires Pick(s, c).0.None?
    ensures forall k :: 0 <= k < |s| ==> !Schedulable(s[k])
  {
    PickFresh(s);
  }
}
