/** The user library of ulib.c: the C-string routines, atoi, memmove, the stack
    alignment of thread_create and the cache of thread_join.  User memory is one
    array of bytes and a pointer is an index into it. */
module ULib {
  import opened Common
  import ProcTypes
  import ProcSpec
  import ProcTable

  /** `uchar`: the bytes of user memory.  `(uchar)*p` in strcmp is this value. */
  type byte = x: int | 0 <= x < 256

  // ---------------------------------------------------------------------------
  // C strings.

  /** A NUL-terminated string starts at `s`. */
  ghost predicate IsCString(m: seq<byte>, s: nat) {
    exists j :: s <= j < |m| && m[j] == 0
  }

  /** The number of bytes before the first NUL at or after `s`. */
  function CLen(m: seq<byte>, s: nat): (n: nat)
    requires IsCString(m, s)
    decreases |m| - s
    ensures s + n < |m| && m[s + n] == 0
    ensures forall j :: s <= j < s + n ==> m[j] != 0
  {
    if m[s] == 0 then 0
    else
      assert IsCString(m, s + 1) by {
        var j :| s <= j < |m| && m[j] == 0;
        assert s + 1 <= j;
      }
      1 + CLen(m, s + 1)
  }

  /** The bytes of the string at `s`, without its terminator. */
  function CStr(m: seq<byte>, s: nat): (x: seq<byte>)
    requires IsCString(m, s)
    ensures |x| == CLen(m, s) && forall j :: 0 <= j < |x| ==> x[j] != 0
  {
    m[s..s + CLen(m, s)]
  }

  /** strlen, ulib.c:33-41: the index of the first NUL. */
  method Strlen(mem: array<byte>, s: nat) returns (n: nat)
    requires IsCString(mem[..], s)
    ensures n == CLen(mem[..], s)
  {
    n := 0;
    while mem[s + n] != 0
      invariant n <= CLen(mem[..], s)
      decreases CLen(mem[..], s) - n
    {
      n := n + 1;
    }
  }

  /** strcpy, ulib.c:14-23: every byte of the string at `t`, terminator included,
      is copied to `s` in order, nothing else is written, and `s` is returned.  The
      regions may overlap when the destination starts at or before the source:
      each byte of the source is read before the copy reaches it.  A destination
      starting inside the source would overwrite bytes not yet read. */
  method Strcpy(mem: array<byte>, s: nat, t: nat) returns (r: nat)
    requires IsCString(mem[..], t)
    requires s + CLen(mem[..], t) < mem.Length
    requires s <= t || t + CLen(mem[..], t) < s
    modifies mem
    ensures r == s
    ensures var n := CLen(old(mem[..]), t);
            && mem[s..s + n + 1] == old(mem[t..t + n + 1])
            && IsCString(mem[..], s) && CStr(mem[..], s) == CStr(old(mem[..]), t)
    ensures var n := CLen(old(mem[..]), t);
            forall j :: 0 <= j < mem.Length && !(s <= j <= s + n) ==> mem[j] == old(mem[j])
  {
    ghost var m0 := mem[..];
    ghost var n := CLen(m0, t);
    CopyThroughNul(mem, s, t, n);
    CLenOfCopy(mem[..], s, m0, t, n);
    r := s;
  }

  /** The loop of strcpy, ulib.c:20-21, for a string of `n` bytes at `t`: the
      bytes at `s` up to the one that held the terminator are those of `t`. */
  method CopyThroughNul(mem: array<byte>, s: nat, t: nat, ghost n: nat)
    requires s + n < mem.Length && t + n < mem.Length
    requires mem[t + n] == 0 && forall j :: t <= j < t + n ==> mem[j] != 0
    requires s <= t || t + n < s
    modifies mem
    ensures forall j :: s <= j <= s + n ==> mem[j] == old(mem[j - s + t])
    ensures mem[s..s + n + 1] == old(mem[t..t + n + 1])
    ensures forall j :: 0 <= j < mem.Length && !(s <= j <= s + n) ==> mem[j] == old(mem[j])
  {
    ghost var m0 := mem[..];
    var i := 0;
    var c := mem[t];
    mem[s] := c;
    while c != 0
      invariant 0 <= i <= n && c == old(mem[t + i])
      invariant forall j :: s <= j <= s + i ==> mem[j] == old(mem[j - s + t])
      invariant forall j :: 0 <= j < mem.Length && !(s <= j <= s + i) ==> mem[j] == old(mem[j])
      decreases n - i
    {
      i := i + 1;
      c := mem[t + i];
      mem[s + i] := c;
    }
    ShiftedSlice(mem[..], m0, s, t, n + 1);
  }

  lemma ShiftedSlice(a: seq<byte>, b: seq<byte>, s: nat, t: nat, n: nat)
    requires s + n <= |a| && t + n <= |b|
    requires forall j :: s <= j < s + n ==> a[j] == b[j - s + t]
    ensures a[s..s + n] == b[t..t + n]
  {
    var x, y := a[s..s + n], b[t..t + n];
    forall j | 0 <= j < n ensures x[j] == y[j] {
      assert a[s + j] == b[(s + j) - s + t];
    }
  }

  /** A string copied byte for byte, terminator included, has the same length. */
  lemma {:induction false} CLenOfCopy(m: seq<byte>, s: nat, m0: seq<byte>, t: nat, n: nat)
    requires IsCString(m0, t) && n == CLen(m0, t)
    requires s + n < |m| && t + n < |m0| && m[s..s + n + 1] == m0[t..t + n + 1]
    ensures IsCString(m, s) && CLen(m, s) == n && CStr(m, s) == CStr(m0, t)
  {
    assert m[s..s + n] == m[s..s + n + 1][..n] == m0[t..t + n + 1][..n] == m0[t..t + n];
    assert m[s + n] == m[s..s + n + 1][n] == m0[t..t + n + 1][n] == m0[t + n];
    forall j | s <= j < s + n ensures m[j] != 0 {
      assert m[j] == m[s..s + n][j - s] == m0[t..t + n][j - s] == m0[t + (j - s)];
    }
    CLenIs(m, s, n);
  }

  /** The length of a string is the index of its first NUL. */
  lemma {:induction false} CLenIs(m: seq<byte>, s: nat, n: nat)
    requires s + n < |m| && m[s + n] == 0 && forall j :: s <= j < s + n ==> m[j] != 0
    ensures IsCString(m, s) && CLen(m, s) == n
  {
    assert s <= s + n < |m| && m[s + n] == 0;
  }

  /** The value strcmp returns for the strings with bytes `x` and `y`: the
      difference of the bytes at the first position where they differ or where `x`
      ends, the terminator counting as 0. */
  function StrDiff(x: seq<byte>, y: seq<byte>): int {
    if |x| == 0 || |y| == 0 || x[0] != y[0] then
      (if |x| == 0 then 0 else x[0] as int) - (if |y| == 0 then 0 else y[0] as int)
    else StrDiff(x[1..], y[1..])
  }

  /** strcmp is 0 exactly for equal strings, and swapping its arguments negates it. */
  lemma {:induction false} StrDiffSpec(x: seq<byte>, y: seq<byte>)
    requires forall j :: 0 <= j < |x| ==> x[j] != 0
    requires forall j :: 0 <= j < |y| ==> y[j] != 0
    ensures StrDiff(x, y) == 0 <==> x == y
    ensures StrDiff(y, x) == -StrDiff(x, y)
    decreases |x|
  {
    if |x| == 0 || |y| == 0 || x[0] != y[0] {
      if |x| > 0 && |y| > 0 && x[0] != y[0] {
        assert x != y;
      }
    } else {
      StrDiffSpec(x[1..], y[1..]);
      if x[1..] == y[1..] {
        assert x == [x[0]] + x[1..] && y == [y[0]] + y[1..];
      } else {
        assert x[1..] != y[1..] ==> x != y;
      }
    }
  }

  /** strcmp, ulib.c:25-31: walks both strings while they agree and returns the
      unsigned difference of the bytes where the walk stopped. */
  method Strcmp(mem: array<byte>, p: nat, q: nat) returns (r: int)
    requires IsCString(mem[..], p) && IsCString(mem[..], q)
    ensures r == StrDiff(CStr(mem[..], p), CStr(mem[..], q))
  {
    ghost var x := CStr(mem[..], p);
    ghost var y := CStr(mem[..], q);
    var i := 0;
    while mem[p + i] != 0 && mem[p + i] == mem[q + i]
      invariant i <= |x| && i <= |y|
      invariant StrDiff(x[i..], y[i..]) == StrDiff(x, y)
      decreases |x| - i
    {
      assert x[i..][1..] == x[i + 1..] && y[i..][1..] == y[i + 1..];
      i := i + 1;
    }
    r := mem[p + i] as int - mem[q + i] as int;
  }

  /** The first position of `c` among the bytes `x`. */
  function FindByte(x: seq<byte>, c: byte, i: nat): (r: Option<nat>)
    decreases |x| - i
    ensures r.Some? ==> i <= r.value < |x| && x[r.value] == c
    ensures r.Some? ==> forall j :: i <= j < r.value ==> x[j] != c
    ensures r.None? ==> forall j :: i <= j < |x| ==> x[j] != c
  {
    if i >= |x| then None else if x[i] == c then Some(i) else FindByte(x, c, i + 1)
  }

  /** strchr, ulib.c:50-57: a pointer to the first `c` before the terminator, or the
      null pointer (`None`). */
  method Strchr(mem: array<byte>, s: nat, c: byte) returns (r: Option<nat>)
    requires IsCString(mem[..], s)
    ensures var f := FindByte(CStr(mem[..], s), c, 0);
            r == if f.Some? then Some(s + f.value) else None
  {
    ghost var x := CStr(mem[..], s);
    var i := 0;
    while mem[s + i] != 0
      invariant i <= |x|
      invariant FindByte(x, c, i) == FindByte(x, c, 0)
      decreases |x| - i
    {
      if mem[s + i] == c {
        return Some(s + i);
      }
      i := i + 1;
    }
    r := None;
  }

  /** Searching for the terminator finds nothing: the walk stops before it. */
  lemma StrchrNul(x: seq<byte>)
    requires forall j :: 0 <= j < |x| ==> x[j] != 0
    ensures FindByte(x, 0, 0).None?
  {
  }

  // ---------------------------------------------------------------------------
  // atoi, ulib.c:91-100.

  predicate IsDigit(b: byte) { '0' as int <= b <= '9' as int }

  /** The length of the run of decimal digits that `x` starts with. */
  function DigitCount(x: seq<byte>, i: nat): (n: nat)
    decreases |x| - i
    ensures i <= n <= |x| || (i > |x| && n == i)
    ensures forall j :: i <= j < n ==> IsDigit(x[j])
    ensures n < |x| ==> !IsDigit(x[n])
  {
    if i >= |x| || !IsDigit(x[i]) then i else DigitCount(x, i + 1)
  }

  /** The number that a run of decimal digits denotes, most significant first. */
  function Value(ds: seq<byte>): int {
    if |ds| == 0 then 0 else Value(ds[..|ds| - 1]) * 10 + (ds[|ds| - 1] - '0' as int)
  }

  /** atoi: the value of the leading run of digits of the string at `s`; a sign or
      any other byte stops the run, so a string that does not start with a digit
      gives 0. */
  method Atoi(mem: array<byte>, s: nat) returns (n: int)
    requires IsCString(mem[..], s)
    ensures var x := CStr(mem[..], s); n == Value(x[..DigitCount(x, 0)])
  {
    ghost var x := CStr(mem[..], s);
    ghost var d := DigitCount(x, 0);
    assert d == |x| ==> mem[s + d] == 0;
    n := 0;
    var i := 0;
    while IsDigit(mem[s + i])
      invariant i <= d
      invariant n == Value(x[..i])
      decreases d - i
    {
      assert x[..i + 1][..i] == x[..i];
      n := n * 10 + mem[s + i] - '0' as int;
      i := i + 1;
    }
    assert i < |x| ==> x[i] == mem[s + i];
  }

  /** The decimal digits of `v`, most significant first, without leading zeros
      (`0` is the single digit 0). */
  function Decimal(v: nat): (ds: seq<byte>)
    ensures |ds| >= 1 && forall j :: 0 <= j < |ds| ==> IsDigit(ds[j])
  {
    if v < 10 then [v + '0' as int] else Decimal(v / 10) + [v % 10 + '0' as int]
  }

  /** atoi reads back the number printed in decimal, and stops at whatever follows. */
  lemma {:induction false} AtoiDecimal(v: nat, rest: seq<byte>)
    requires |rest| == 0 || !IsDigit(rest[0])
    ensures var x := Decimal(v) + rest; Value(x[..DigitCount(x, 0)]) == v
  {
    var ds := Decimal(v);
    var x := ds + rest;
    DigitCountPrefix(ds, rest, 0);
    assert x[..|ds|] == ds;
    ValueDecimal(v);
  }

  lemma {:induction false} ValueDecimal(v: nat)
    ensures Value(Decimal(v)) == v
    decreases v
  {
    if v >= 10 {
      ValueDecimal(v / 10);
      var ds := Decimal(v);
      assert ds[..|ds| - 1] == Decimal(v / 10);
    }
  }

  lemma {:induction false} DigitCountPrefix(ds: seq<byte>, rest: seq<byte>, i: nat)
    requires i <= |ds| && forall j :: 0 <= j < |ds| ==> IsDigit(ds[j])
    requires |rest| == 0 || !IsDigit(rest[0])
    ensures DigitCount(ds + rest, i) == |ds|
    decreases |ds| - i
  {
    if i < |ds| {
      DigitCountPrefix(ds, rest, i + 1);
    }
  }

  // ---------------------------------------------------------------------------
  // memmove, ulib.c:102-113.

  /** The memory after `while(n-- > 0) *dst++ = *src++`: byte by byte, lowest
      address first, each byte read after the writes before it. */
  function ForwardCopy(m: seq<byte>, d: nat, s: nat, n: int): (r: seq<byte>)
    requires n > 0 ==> d + n <= |m| && s + n <= |m|
    decreases n
    ensures |r| == |m|
  {
    if n <= 0 then m else ForwardCopy(m[d := m[s]], d + 1, s + 1, n - 1)
  }

  /** memmove as ulib.c writes it: the forward copy, returning `dst`; a count of
      zero or less copies nothing. */
  method Memmove(mem: array<byte>, dst: nat, src: nat, n: int) returns (r: nat)
    requires n > 0 ==> dst + n <= mem.Length && src + n <= mem.Length
    modifies mem
    ensures r == dst
    ensures mem[..] == ForwardCopy(old(mem[..]), dst, src, n)
  {
    var d, s, k := dst, src, n;
    while k > 0
      invariant d == dst + (n - k) && s == src + (n - k) && (k > 0 ==> d + k <= mem.Length && s + k <= mem.Length)
      invariant ForwardCopy(mem[..], d, s, k) == ForwardCopy(old(mem[..]), dst, src, n)
      decreases k
    {
      assert mem[..][d := mem[s]] == mem[..][d := mem[..][s]];
      mem[d] := mem[s];
      d, s, k := d + 1, s + 1, k - 1;
    }
    r := dst;
  }

  /** The forward copy only writes the destination. */
  lemma {:induction false} ForwardCopyFrame(m: seq<byte>, d: nat, s: nat, n: int, j: nat)
    requires n > 0 ==> d + n <= |m| && s + n <= |m|
    requires j < |m| && !(d <= j < d + n)
    ensures ForwardCopy(m, d, s, n)[j] == m[j]
    decreases n
  {
    if n > 0 {
      ForwardCopyFrame(m[d := m[s]], d + 1, s + 1, n - 1, j);
    }
  }

  /** When the destination does not start inside the source (in particular when
      `dst <= src` or the regions are disjoint), the forward copy moves: the
      destination holds the old source bytes and nothing else changes. */
  lemma {:induction false} ForwardCopyMoves(m: seq<byte>, d: nat, s: nat, n: int)
    requires n > 0 ==> d + n <= |m| && s + n <= |m|
    requires !(s < d < s + n)
    ensures forall j :: d <= j < d + n ==> ForwardCopy(m, d, s, n)[j] == m[j - d + s]
    ensures forall j :: 0 <= j < |m| && !(d <= j < d + n) ==> ForwardCopy(m, d, s, n)[j] == m[j]
    decreases n
  {
    if n > 0 {
      var m' := m[d := m[s]];
      ForwardCopyMoves(m', d + 1, s + 1, n - 1);
      forall j | 0 <= j < |m| && !(d <= j < d + n) ensures ForwardCopy(m, d, s, n)[j] == m[j] {
        ForwardCopyFrame(m', d + 1, s + 1, n - 1, j);
      }
      forall j | d <= j < d + n ensures ForwardCopy(m, d, s, n)[j] == m[j - d + s] {
        if j == d {
          ForwardCopyFrame(m', d + 1, s + 1, n - 1, d);
        } else {
          assert ForwardCopy(m, d, s, n)[j] == m'[j - (d + 1) + (s + 1)];
        }
      }
    }
  }

  /** A destination that starts inside the source is not moved: with source bytes
      1, 2 at addresses 0, 1 and destination 1, memmove leaves 1, 1, 1 where a move
      gives 1, 1, 2. */
  lemma ForwardCopyOverlapCounterexample()
    ensures ForwardCopy([1, 2, 3], 1, 0, 2) == [1, 1, 1]
    ensures MoveCopy([1, 2, 3], 1, 0, 2) == [1, 1, 2]
  {
    assert ForwardCopy([1, 2, 3], 1, 0, 2) == ForwardCopy([1, 1, 3], 2, 1, 1);
    assert ForwardCopy([1, 1, 3], 2, 1, 1) == ForwardCopy([1, 1, 1], 3, 2, 0);
    assert MoveCopy([1, 2, 3], 1, 0, 2) == BackwardCopy([1, 2, 3], 1, 0, 2);
    assert BackwardCopy([1, 2, 3], 1, 0, 2) == BackwardCopy([1, 2, 2], 1, 0, 1);
    assert BackwardCopy([1, 2, 2], 1, 0, 1) == BackwardCopy([1, 1, 2], 1, 0, 0);
  }

  /** The copy from the highest address down. */
  function BackwardCopy(m: seq<byte>, d: nat, s: nat, n: int): (r: seq<byte>)
    requires n > 0 ==> d + n <= |m| && s + n <= |m|
    decreases n
    ensures |r| == |m|
  {
    if n <= 0 then m else BackwardCopy(m[d + n - 1 := m[s + n - 1]], d, s, n - 1)
  }

  /** memmove as the C library defines it: forward unless the destination starts
      inside the source, backward then. */
  function MoveCopy(m: seq<byte>, d: nat, s: nat, n: int): (r: seq<byte>)
    requires n > 0 ==> d + n <= |m| && s + n <= |m|
  {
    if s < d < s + n then BackwardCopy(m, d, s, n) else ForwardCopy(m, d, s, n)
  }

  /** The backward copy only writes the destination. */
  lemma {:induction false} BackwardCopyFrame(m: seq<byte>, d: nat, s: nat, n: int, j: nat)
    requires n > 0 ==> d + n <= |m| && s + n <= |m|
    requires j < |m| && !(d <= j < d + n)
    ensures BackwardCopy(m, d, s, n)[j] == m[j]
    decreases n
  {
    if n > 0 {
      BackwardCopyFrame(m[d + n - 1 := m[s + n - 1]], d, s, n - 1, j);
    }
  }

  /** When the destination does not end inside the source the backward copy moves. */
  lemma {:induction false} BackwardCopyMoves(m: seq<byte>, d: nat, s: nat, n: int)
    requires n > 0 ==> d + n <= |m| && s + n <= |m|
    requires s <= d
    ensures forall j :: d <= j < d + n ==> BackwardCopy(m, d, s, n)[j] == m[j - d + s]
    decreases n
  {
    if n > 0 {
      var m' := m[d + n - 1 := m[s + n - 1]];
      BackwardCopyMoves(m', d, s, n - 1);
      forall j | d <= j < d + n ensures BackwardCopy(m, d, s, n)[j] == m[j - d + s] {
        if j == d + n - 1 {
          BackwardCopyFrame(m', d, s, n - 1, d + n - 1);
        }
      }
    }
  }

  /** The corrected memmove moves for every pair of regions: the destination holds
      the old source bytes and nothing else changes. */
  lemma MoveCopyMoves(m: seq<byte>, d: nat, s: nat, n: int)
    requires n > 0 ==> d + n <= |m| && s + n <= |m|
    ensures forall j :: d <= j < d + n ==> MoveCopy(m, d, s, n)[j] == m[j - d + s]
    ensures forall j :: 0 <= j < |m| && !(d <= j < d + n) ==> MoveCopy(m, d, s, n)[j] == m[j]
  {
    if s < d < s + n {
      BackwardCopyMoves(m, d, s, n);
      forall j | 0 <= j < |m| && !(d <= j < d + n) ensures MoveCopy(m, d, s, n)[j] == m[j] {
        BackwardCopyFrame(m, d, s, n, j);
      }
    } else {
      ForwardCopyMoves(m, d, s, n);
    }
  }

  /** The corrected memmove: copies backward when the destination starts inside the
      source, forward otherwise, and returns `dst`. */
  method MemmoveSafe(mem: array<byte>, dst: nat, src: nat, n: int) returns (r: nat)
    requires n > 0 ==> dst + n <= mem.Length && src + n <= mem.Length
    modifies mem
    ensures r == dst
    ensures mem[..] == MoveCopy(old(mem[..]), dst, src, n)
  {
    if src < dst < src + n {
      var k := n;
      while k > 0
        invariant 0 <= k <= n
        invariant BackwardCopy(mem[..], dst, src, k) == BackwardCopy(old(mem[..]), dst, src, n)
        decreases k
      {
        assert mem[..][dst + k - 1 := mem[src + k - 1]] == mem[..][dst + k - 1 := mem[..][src + k - 1]];
        mem[dst + k - 1] := mem[src + k - 1];
        k := k - 1;
      }
      r := dst;
    } else {
      r := Memmove(mem, dst, src, n);
    }
  }

  // ---------------------------------------------------------------------------
  // thread_create, ulib.c:115-150.

  /** The stack thread_create passes to clone for the 8192-byte block at `addr`,
      ulib.c:125-130: the block's address when it is page-aligned, the next page
      boundary otherwise (`(addr + 4096) & ~0xFFF` in `uint`). */
  function AlignStack(addr: u32): u32 {
    if addr % PGSIZE != 0 then PgRoundDown(Wrap(addr + PGSIZE)) else addr
  }

  /** The aligned stack is page-aligned, starts in the block's first page, and the
      whole page from it lies inside the block, so clone's alignment check passes
      and the thread's stack page is memory thread_create owns. */
  lemma AlignStackSpec(addr: u32)
    requires addr + 2 * PGSIZE <= TWO32
    ensures AlignStack(addr) % PGSIZE == 0
    ensures addr <= AlignStack(addr) < addr + PGSIZE
    ensures AlignStack(addr) + PGSIZE <= addr + 2 * PGSIZE
  {
  }

  /** How a call of thread_create ends: it returns a value to the caller, having
      freed the stack block or not, or it is the new thread, which runs the thread
      function, frees the block and exits. */
  datatype CreateOutcome = Returned(value: int, freed: bool) | ThreadExits

  /** thread_create, given the block malloc gave (0 when it failed) and what clone
      returned for the aligned stack. */
  function ThreadCreate(orig: u32, cloneResult: int): (r: CreateOutcome)
    ensures r.Returned? && r.value == -1 <==> orig == 0 || cloneResult < 0
    ensures r.Returned? && r.freed <==> orig != 0 && cloneResult < 0
    ensures r.ThreadExits? <==> orig != 0 && cloneResult == 0
    ensures r.Returned? && r.value > 0 ==> r.value == cloneResult
  {
    if orig == 0 then Returned(-1, false)
    else if cloneResult < 0 then Returned(-1, true)
    else if cloneResult == 0 then ThreadExits
    else Returned(cloneResult, false)
  }

  /** thread_create as its caller sees it, ulib.c:115-150 against clone,
      proc.c:250-294: `orig` is what malloc returned and `kstack` what the kernel's
      kalloc returns inside clone.  The caller never runs the thread function; the
      aligned stack never trips clone's alignment check, so -1 means only that
      malloc failed, the table is full or kalloc failed, and the block is freed
      exactly when clone was called and failed; otherwise the new thread's tid is
      returned and its slot is clone's child on the aligned stack. */
  method ThreadCreateCall(k: ProcTable.Kernel, cur: nat, orig: u32, kstack: int) returns (r: CreateOutcome)
    requires k.Valid() && cur < ProcTypes.NPROC && k.procs[cur].state == ProcTypes.Running
    modifies k`nextpid, k`events, k.procs
    ensures k.Valid()
    ensures r.Returned?
    ensures r.value == -1 <==> orig == 0 || ProcSpec.FirstUnused(old(k.procs[..])).None? || kstack == 0
    ensures r.freed <==> orig != 0 && r.value == -1
    ensures orig == 0 ==> k.procs[..] == old(k.procs[..]) && k.nextpid == old(k.nextpid) && k.events == old(k.events)
    ensures r.value != -1 ==>
              var s := old(k.procs[..]); var f := ProcSpec.FirstUnused(s).value;
              && r.value == old(k.nextpid)
              && k.procs[..] == s[f := ProcSpec.CloneChild(ProcSpec.Allocated(s[f], old(k.nextpid), kstack),
                                                             s[cur], cur, kstack, AlignStack(orig))]
  {
    if orig == 0 {
      return ThreadCreate(orig, -1);
    }
    var tid := k.Clone(cur, AlignStack(orig), kstack);
    r := ThreadCreate(orig, tid);
  }

  // ---------------------------------------------------------------------------
  // thread_join, ulib.c:152-184.

  const MAX_THREADS: nat := 64

  /** An entry of `joined_threads`: a thread reaped by join while the caller waited
      for another one. */
  datatype JoinEntry = JoinEntry(tid: int, used: bool)

  function FirstCachedFrom(c: seq<JoinEntry>, tid: int, i: nat): (r: Option<nat>)
    decreases |c| - i
    ensures r.Some? ==> i <= r.value < |c| && c[r.value].used && c[r.value].tid == tid
    ensures r.Some? ==> forall j :: i <= j < r.value ==> !(c[j].used && c[j].tid == tid)
    ensures r.None? ==> forall j :: i <= j < |c| ==> !(c[j].used && c[j].tid == tid)
  {
    if i >= |c| then None
    else if c[i].used && c[i].tid == tid then Some(i)
    else FirstCachedFrom(c, tid, i + 1)
  }

  /** The first scan of thread_join, ulib.c:158-163. */
  function FirstCached(c: seq<JoinEntry>, tid: int): Option<nat> { FirstCachedFrom(c, tid, 0) }

  function FirstFreeFrom(c: seq<JoinEntry>, i: nat): (r: Option<nat>)
    decreases |c| - i
    ensures r.Some? ==> i <= r.value < |c| && !c[r.value].used
    ensures r.Some? ==> forall j :: i <= j < r.value ==> c[j].used
    ensures r.None? ==> forall j :: i <= j < |c| ==> c[j].used
  {
    if i >= |c| then None
    else if !c[i].used then Some(i)
    else FirstFreeFrom(c, i + 1)
  }

  /** The cache after `t` was stored in its first free entry, ulib.c:176-182; with
      no free entry `t` is dropped. */
  function Store(c: seq<JoinEntry>, t: int): (r: seq<JoinEntry>)
    ensures |r| == |c|
  {
    match FirstFreeFrom(c, 0)
    case Some(i) => c[i := JoinEntry(t, true)]
    case None => c
  }

  /** The `while(1)` loop of thread_join, ulib.c:165-183, from reply `i` of the
      successive results of join: the result (`None` when the replies run out and
      the loop would call join again), the number of replies used, and the cache. */
  function JoinLoop(c: seq<JoinEntry>, tid: int, replies: seq<int>, i: nat): (r: (Option<int>, nat, seq<JoinEntry>))
    decreases |replies| - i
    ensures |r.2| == |c|
  {
    if i >= |replies| then (None, i, c)
    else if replies[i] == -1 then (Some(-1), i + 1, c)
    else if replies[i] == tid then (Some(0), i + 1, c)
    else JoinLoop(Store(c, replies[i]), tid, replies, i + 1)
  }

  /** thread_join on the cache `c`: a thread already reaped is taken from the
      cache without calling join; otherwise the loop runs. */
  function ThreadJoinSpec(c: seq<JoinEntry>, tid: int, replies: seq<int>): (Option<int>, nat, seq<JoinEntry>) {
    match FirstCached(c, tid)
    case Some(j) => (Some(0), 0, c[j := c[j].(used := false)])
    case None => JoinLoop(c, tid, replies, 0)
  }

  /** The loop returns at the first reply that is -1 or `tid`, with 0 for `tid` and
      -1 for an error, and asks for more replies only when there was no such reply. */
  lemma {:induction false} JoinLoopSpec(c: seq<JoinEntry>, tid: int, replies: seq<int>, i: nat)
    requires i <= |replies|
    ensures var r := JoinLoop(c, tid, replies, i); i <= r.1 <= |replies|
    ensures var r := JoinLoop(c, tid, replies, i);
            forall j :: i <= j < r.1 && (r.0.Some? ==> j < r.1 - 1) ==> replies[j] != -1 && replies[j] != tid
    ensures var r := JoinLoop(c, tid, replies, i); r.0.None? ==> r.1 == |replies|
    ensures var r := JoinLoop(c, tid, replies, i);
            r.0.Some? ==> i < r.1 && ((replies[r.1 - 1] == -1 && r.0 == Some(-1))
                                      || (replies[r.1 - 1] == tid && tid != -1 && r.0 == Some(0)))
    decreases |replies| - i
  {
    if i < |replies| && replies[i] != -1 && replies[i] != tid {
      JoinLoopSpec(Store(c, replies[i]), tid, replies, i + 1);
    }
  }

  /** A thread reaped while the caller waited for another one is not lost while
      the cache has room: a later thread_join for it returns 0 at once, without
      calling join, and frees its entry. */
  lemma StoredThenFound(c: seq<JoinEntry>, t: int, replies: seq<int>)
    requires FirstFreeFrom(c, 0).Some?
    ensures FirstCached(Store(c, t), t).Some?
    ensures var r := ThreadJoinSpec(Store(c, t), t, replies); r.0 == Some(0) && r.1 == 0
    ensures var r := ThreadJoinSpec(Store(c, t), t, replies);
            forall j :: 0 <= j < |c| && r.2[j].used ==> Store(c, t)[j].used
  {
    var i := FirstFreeFrom(c, 0).value;
    assert Store(c, t)[i] == JoinEntry(t, true);
    assert FirstCachedFrom(Store(c, t), t, 0).Some?;
  }

  /** `joined_threads`, the process's cache of reaped threads. */
  class JoinCache {
    const entries: array<JoinEntry>

    /** The zero-initialised global: no entry used. */
    constructor ()
      ensures entries.Length == MAX_THREADS
      ensures forall j :: 0 <= j < MAX_THREADS ==> !entries[j].used
    {
      entries := new JoinEntry[MAX_THREADS](_ => JoinEntry(0, false));
    }

    /** The first scan of thread_join, ulib.c:158-163. */
    method FindCached(tid: int) returns (r: Option<nat>)
      ensures r == FirstCached(entries[..], tid)
    {
      var i := 0;
      while i < entries.Length && !(entries[i].used && entries[i].tid == tid)
        invariant 0 <= i <= entries.Length
        invariant FirstCachedFrom(entries[..], tid, i) == FirstCached(entries[..], tid)
      {
        i := i + 1;
      }
      r := if i < entries.Length then Some(i) else None;
    }

    /** The store of a reaped tid, ulib.c:176-182. */
    method StoreTid(t: int)
      modifies entries
      ensures entries[..] == Store(old(entries[..]), t)
    {
      var i := 0;
      while i < entries.Length && entries[i].used
        invariant 0 <= i <= entries.Length
        invariant FirstFreeFrom(entries[..], i) == FirstFreeFrom(entries[..], 0)
      {
        i := i + 1;
      }
      if i < entries.Length {
        entries[i] := JoinEntry(t, true);
      }
    }

    /** thread_join, ulib.c:152-184.  `replies` are the results of the successive
        join calls; the result is `None` when they run out before the loop returns,
        and `consumed` is how many were used. */
    method ThreadJoin(tid: int, replies: seq<int>) returns (r: Option<int>, consumed: nat)
      modifies entries
      ensures (r, consumed, entries[..]) == ThreadJoinSpec(old(entries[..]), tid, replies)
    {
      var hit := FindCached(tid);
      if hit.Some? {
        entries[hit.value] := entries[hit.value].(used := false);
        return Some(0), 0;
      }
      var i := 0;
      while i < |replies|
        invariant 0 <= i <= |replies|
        invariant JoinLoop(entries[..], tid, replies, i) == JoinLoop(old(entries[..]), tid, replies, 0)
        decreases |replies| - i
      {
        var ret := replies[i];
        if ret == -1 {
          return Some(-1), i + 1;
        }
        if ret == tid {
          return Some(0), i + 1;
        }
        StoreTid(ret);
        i := i + 1;
      }
      r, consumed := None, i;
    }
  }
}
