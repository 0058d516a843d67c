/** Fixed-width machine words and the arithmetic facts shared by the other modules.

    A C or Go word is an integer confined to the range of its type. A shift by a
    constant is a division or a multiplication by a power of two, a mask of low bits
    is a remainder, and a wrapping operation is written as a remainder where the
    source relies on it. Everything else must stay in range, and the subset types
    below make Dafny check that it does. */
module Machine {
  const TWO32 := 0x1_0000_0000
  const TWO52 := 0x10_0000_0000_0000
  const TWO64 := 0x1_0000_0000_0000_0000
  const TWO128 := 0x1_0000_0000_0000_0000_0000_0000_0000_0000
  const TWO192 := 0x1_0000_0000_0000_0000_0000_0000_0000_0000_0000_0000_0000_0000
  const TWO256 := 0x1_0000_0000_0000_0000_0000_0000_0000_0000_0000_0000_0000_0000_0000_0000_0000_0000
  const TWO512 := 0x1_0000_0000_0000_0000_0000_0000_0000_0000_0000_0000_0000_0000_0000_0000_0000_0000_0000_0000_0000_0000_0000_0000_0000_0000_0000_0000_0000_0000_0000_0000_0000_0000

  type u8 = x: int | 0 <= x < 0x100
  type u32 = x: int | 0 <= x < 0x1_0000_0000
  type u64 = x: int | 0 <= x < 0x1_0000_0000_0000_0000
  type u128 = x: int | 0 <= x < 0x1_0000_0000_0000_0000_0000_0000_0000_0000

  datatype Option<+T> = None | Some(value: T)

  function Pow2(n: nat): (p: nat)
    ensures p >= 1
  {
    if n == 0 then 1 else 2 * Pow2(n - 1)
  }

  /** The number that four 64-bit limbs stand for, least significant first; limbs may exceed 64 bits. */
  ghost function Val4(d0: int, d1: int, d2: int, d3: int): int {
    d0 + 0x1_0000_0000_0000_0000 * d1
    + 0x1_0000_0000_0000_0000_0000_0000_0000_0000 * d2
    + 0x1_0000_0000_0000_0000_0000_0000_0000_0000_0000_0000_0000_0000 * d3
  }

  /** The widening product (uint128_t)x * y of two 64-bit words. */
  function Mul(x: u64, y: u64): (p: u128) {
    ProductBound(x, y, TWO64 - 1, TWO64 - 1);
    x * y
  }

  lemma {:induction false} ProductBound(x: int, y: int, m: int, k: int)
    requires 0 <= x <= m && 0 <= y <= k
    ensures 0 <= x * y <= m * k
  {
    assert x * y <= m * y;
    assert m * y <= m * k;
  }

  /** x >> s. */
  function Shr(x: nat, s: nat): (r: nat)
    ensures r <= x
  {
    QuotientBound(x, Pow2(s));
    x / Pow2(s)
  }

  /** x << s in a 64-bit word. */
  function Shl64(x: u64, s: nat): u64 {
    (x * Pow2(s)) % 0x1_0000_0000_0000_0000
  }

  /** x & ((1 << count) - 1). */
  function Mask(x: nat, count: nat): (r: nat)
    ensures r <= x && r < Pow2(count)
  {
    RemainderBound(x, Pow2(count));
    x % Pow2(count)
  }

  lemma {:induction false} QuotientBound(x: nat, d: nat)
    requires d > 0
    ensures 0 <= x / d <= x
  {
    var q := x / d;
    assert x == d * q + x % d;
    Grows(q, d);
  }

  lemma {:induction false} Grows(q: int, d: nat)
    requires d > 0
    ensures q >= 0 ==> d * q >= q
    ensures q < 0 ==> d * q + d <= 0
  {
    if q >= 0 {
      assert (d - 1) * q >= 0;
    } else {
      assert d * (-q - 1) >= 0;
    }
  }

  lemma {:induction false} RemainderBound(x: nat, d: nat)
    requires d > 0
    ensures 0 <= x % d <= x && x % d < d
  {
    var q := x / d;
    assert x == d * q + x % d;
    Grows(q, d);
  }

  /** The C `int` that a mathematical integer becomes: two's complement, 32 bits. */
  function Int32(x: int): (r: int)
    ensures -0x8000_0000 <= r < 0x8000_0000
    ensures -0x8000_0000 <= x < 0x8000_0000 ==> r == x
  {
    (x + 0x8000_0000) % 0x1_0000_0000 - 0x8000_0000
  }
}
