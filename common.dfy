/** Machine-level vocabulary shared by the kernel model and the user library:
    32-bit integer ranges, the `uint` wrap-around of C, page arithmetic and the
    bit tests on flag words. */
module Common {

  datatype Option<T> = None | Some(value: T)

  const TWO32: int := 0x1_0000_0000
  const PGSIZE: int := 4096
  /** First kernel virtual address (xv6 memlayout.h); user addresses lie below it. */
  const KERNBASE: int := 0x8000_0000

  /** C `uint` on x86: 32 bits, unsigned. */
  type u32 = x: int | 0 <= x < 0x1_0000_0000
  /** C `int` on x86: 32 bits, two's complement. */
  type i32 = x: int | -0x8000_0000 <= x < 0x8000_0000

  /** The value a C expression of type `uint` takes: the exact result reduced modulo 2^32.
      This is also what a conversion from `int` to `uint` does. */
  function Wrap(x: int): (r: u32)
    ensures 0 <= x < TWO32 ==> r == x
    ensures (r - x) % TWO32 == 0
  {
    x % TWO32
  }

  /** Conversion of a `uint` to `int` on x86: values from 2^31 up become negative. */
  function ToInt32(x: u32): (r: i32)
    ensures x < 0x8000_0000 ==> r == x
    ensures Wrap(r) == x
  {
    if x < 0x8000_0000 then x else x - TWO32
  }

  /** `PGROUNDDOWN(a)`, that is `a & ~(PGSIZE-1)`, written as the subtraction of the remainder. */
  function PgRoundDown(a: u32): (r: u32)
    ensures r % PGSIZE == 0 && r <= a < r + PGSIZE
  {
    a - a % PGSIZE
  }

  function Min(a: int, b: int): int { if a <= b then a else b }

  /** Bit `k` (k in 0..1) of a flag word, `x & (1 << k)` tested for non-zero.
      Dafny's division rounds down for a positive divisor, which is the arithmetic
      shift of a two's-complement word, so this is right for negative `int` flags too. */
  predicate Bit0(x: int) { x % 2 == 1 }
  predicate Bit1(x: int) { (x / 2) % 2 == 1 }

  /** Adding a reduced value is the same as adding the exact one, modulo 2^32. */
  lemma {:induction false} WrapAddWrap(a: int, b: int)
    ensures Wrap(a + Wrap(b)) == Wrap(a + b)
  {
    var q := b / TWO32;
    assert b == q * TWO32 + Wrap(b);
    assert a + b == (a + Wrap(b)) + q * TWO32;
    ModShift(a + Wrap(b), q);
  }

  lemma {:induction false} ModShift(x: int, q: int)
    ensures (x + q * TWO32) % TWO32 == x % TWO32
  {
    var r := x % TWO32;
    var d := x / TWO32;
    assert x == d * TWO32 + r;
    assert x + q * TWO32 == (d + q) * TWO32 + r;
  }
}
