/** Multiplication and squaring modulo the field prime, on five 52-bit limbs
    (field_5x52_int128_impl.h). Both interleave the schoolbook product with the
    reduction 2^260 = 0x10_0000_3D10 (mod P), and both write their result limb by limb. */
module FieldMul {
  import opened Machine
  import opened Congruence

  /** The field prime of secp256k1 (section 2.4.1 of SEC 2): 2^256 - 2^32 - 977. */
  const P := 0xFFFFFFFF_FFFFFFFF_FFFFFFFF_FFFFFFFF_FFFFFFFF_FFFFFFFF_FFFFFFFE_FFFFFC2F
  const M := 0xF_FFFF_FFFF_FFFF
  const TWO48 := 0x1_0000_0000_0000
  /** Products of the largest 56-bit and 52-bit numbers. */
  const EE := 0xFFFF_FFFF_FFFF_FE00_0000_0000_0001
  const EM := 0xFFF_FFFF_FFFF_FEF0_0000_0000_0001
  const MM := 0xFF_FFFF_FFFF_FFE0_0000_0000_0001
  const TWO260 := 0x10_0000_0000_0000_0000_0000_0000_0000_0000_0000_0000_0000_0000_0000_0000_0000_0000
  const TWO56 := 0x100_0000_0000_0000

  /** The number that five limbs in base 2^52 stand for; limbs may exceed 52 bits. */
  ghost function Value(n0: int, n1: int, n2: int, n3: int, n4: int): int
  {
    n0 + 0x10_0000_0000_0000 * n1
    + 0x100_0000_0000_0000_0000_0000_0000 * n2
    + 0x1000_0000_0000_0000_0000_0000_0000_0000_0000_0000 * n3
    + 0x1_0000_0000_0000_0000_0000_0000_0000_0000_0000_0000_0000_0000_0000 * n4
  }

  ghost function ValueOf(a: array<u64>): int
    requires a.Length == 5
    reads a
  {
    Value(a[0], a[1], a[2], a[3], a[4])
  }

  /** The magnitude bound both routines put on their inputs: 56/56/56/56/52 bits. */
  ghost predicate Bounded(a: array<u64>)
    reads a
  {
    a.Length == 5 && a[0] < TWO56 && a[1] < TWO56 && a[2] < TWO56 && a[3] < TWO56 && a[4] < TWO52
  }

  /** Bounds of the nine diagonal sums for operands of 56/56/56/56/52 bits. */
  lemma {:induction false} DiagonalBounds(a0: u64, a1: u64, a2: u64, a3: u64, a4: u64, b0: u64, b1: u64, b2: u64, b3: u64, b4: u64)
    requires a0 < TWO56 && a1 < TWO56 && a2 < TWO56 && a3 < TWO56 && a4 < TWO52
    requires b0 < TWO56 && b1 < TWO56 && b2 < TWO56 && b3 < TWO56 && b4 < TWO52
    ensures Mul(a0, b0) <= EE
    ensures Mul(a0, b1) + Mul(a1, b0) <= 2 * EE
    ensures Mul(a0, b2) + Mul(a1, b1) + Mul(a2, b0) <= 3 * EE
    ensures Mul(a0, b3) + Mul(a1, b2) + Mul(a2, b1) + Mul(a3, b0) <= 4 * EE
    ensures Mul(a0, b4) + Mul(a1, b3) + Mul(a2, b2) + Mul(a3, b1) + Mul(a4, b0) <= 3 * EE + 2 * EM
    ensures Mul(a1, b4) + Mul(a2, b3) + Mul(a3, b2) + Mul(a4, b1) <= 2 * EE + 2 * EM
    ensures Mul(a2, b4) + Mul(a3, b3) + Mul(a4, b2) <= EE + 2 * EM
    ensures Mul(a3, b4) + Mul(a4, b3) <= 2 * EM
    ensures Mul(a4, b4) <= MM
  {
    var E := TWO56 - 1;
    ProductBound(a0, b0, E, E); ProductBound(a0, b1, E, E); ProductBound(a0, b2, E, E); ProductBound(a0, b3, E, E);
    ProductBound(a1, b0, E, E); ProductBound(a1, b1, E, E); ProductBound(a1, b2, E, E); ProductBound(a1, b3, E, E);
    ProductBound(a2, b0, E, E); ProductBound(a2, b1, E, E); ProductBound(a2, b2, E, E); ProductBound(a2, b3, E, E);
    ProductBound(a3, b0, E, E); ProductBound(a3, b1, E, E); ProductBound(a3, b2, E, E); ProductBound(a3, b3, E, E);
    ProductBound(a0, b4, E, M); ProductBound(a1, b4, E, M); ProductBound(a2, b4, E, M); ProductBound(a3, b4, E, M);
    ProductBound(a4, b0, M, E); ProductBound(a4, b1, M, E); ProductBound(a4, b2, M, E); ProductBound(a4, b3, M, E);
    ProductBound(a4, b4, M, M);
  }

  /** The low 52 bits of an accumulator, and the accumulator shifted past them. */
  method Carry52(x: u128) returns (low: u64, shifted: u128)
    ensures low < TWO52 && x == low + 0x10_0000_0000_0000 * shifted
  {
    low := x % TWO52;
    shifted := x / TWO52;
  }

  /** Lines that add the high half of the product to d: p3 and the low part of p8, then p4 and the
      high part of p8, then p5. The bits of the number from 2^256 up leave as u0, so the result is
      [d 0 t4+(u0<<48) t3 0 0 0] = [p8 0 0 p5 p4 p3 0 0 0]. */
  method FoldHigh(p3: u128, p8: u128, p4: u128, p5: u128) returns (t3: u64, t4: u64, u0: u64, d: u128)
    requires p3 <= 4 * EE && p8 <= MM && p4 <= 3 * EE + 2 * EM && p5 <= 2 * EE + 2 * EM
    ensures p3 + 0x10_0000_0000_0000 * p4 + 0x100_0000_0000_0000_0000_0000_0000 * p5 + 0x10_0000_3D10 * p8
         == t3 + 0x10_0000_0000_0000 * t4 + 0x10_0000_0000_0000_0000_0000_0000 * u0
            + 0x1000_0000_0000_0000_0000_0000_0000_0000_0000_0000 * d
    ensures t3 < TWO52 && t4 < TWO48 && u0 < TWO56 && d < 0x4000_0000_0000_0000
  {
    var c: u128, low: u64;
    d := p3;
    assert d < TWO128 / 0x4000;
    c := p8;
    assert c < TWO128 / 0x1_0000;
    low, c := Carry52(c); d := d + low * 0x10_0000_3D10;
    assert d < TWO128 / 0x2000 && c < TWO64 / 0x10;
    t3, d := Carry52(d);
    assert d < TWO64 / 2;
    d := d + p4;
    assert d < TWO128 / 0x2000;
    d := d + c * 0x10_0000_3D10;
    assert d < TWO128 / 0x1000;
    t4, d := Carry52(d);
    assert d < TWO64;
    var tx: u64 := t4 / TWO48; t4 := t4 % TWO48;
    assert tx < 16;
    d := d + p5;
    assert d < TWO128 / 0x4000;
    u0, d := Carry52(d);
    assert d < TWO64 / 4;
    u0 := u0 * 16 + tx;
  }

  /** r[0]: p0 plus the folded bits from 2^256 up. */
  method FoldFirst(p0: u128, u0: u64) returns (limb: u64, c: u128)
    requires p0 <= EE && u0 < TWO56
    ensures p0 + 0x1_0000_03D1 * u0 == limb + 0x10_0000_0000_0000 * c
    ensures limb < TWO52 && c < 0x2000_0000_0000_0000
  {
    c := p0;
    assert c < TWO128 / 0x1_0000;
    c := c + u0 * 0x1_0000_03D1;
    assert c < TWO128 / 0x8000;
    limb, c := Carry52(c);
  }

  /** r[1] and r[2]: a low diagonal, plus the low 52 bits of the running high part folded back. */
  method FoldLimb(c0: u128, p: u128, d0: u128, q: u128) returns (limb: u64, c: u128, d: u128)
    requires c0 < 0x8000_0000_0000_0000 && d0 < 0x4000_0000_0000_0000 && p <= 3 * EE && q <= EE + 2 * EM
    ensures c0 + p + 0x10_0000_3D10 * (d0 + q)
         == limb + 0x10_0000_0000_0000 * c + 0x100_0003_D100_0000_0000_0000 * d
    ensures limb < TWO52 && c < 0x8000_0000_0000_0000 && d < 0x4000_0000_0000_0000
  {
    var low: u64;
    c := c0 + p;
    assert c < TWO128 / 0x4000;
    d := d0 + q;
    assert d < TWO128 / 0x4000;
    low, d := Carry52(d); c := c + low * 0x10_0000_3D10;
    assert c < TWO128 / 0x2000 && d < TWO64 / 4;
    limb, c := Carry52(c);
  }

  /** r[3] and r[4]: what is left of both accumulators. */
  method FoldLast(c0: u128, d: u128, t3: u64, t4: u64) returns (limb3: u64, limb4: u64)
    requires c0 < 0x8000_0000_0000_0000 && d < 0x4000_0000_0000_0000 && t3 < TWO52 && t4 < TWO48
    ensures c0 + 0x10_0000_3D10 * d + t3 + 0x10_0000_0000_0000 * t4 == limb3 + 0x10_0000_0000_0000 * limb4
    ensures limb3 < TWO52 && limb4 < 2 * TWO48
  {
    var c: u128 := c0 + (d * 0x10_0000_3D10 + t3);
    assert c < TWO128 / 0x1000_0000;
    limb3, c := Carry52(c);
    assert c < TWO48;
    c := c + t4;
    limb4 := c;
  }

  /** One row of the schoolbook product. */
  lemma {:induction false} Row(x: u64, b0: u64, b1: u64, b2: u64, b3: u64, b4: u64)
    ensures x * Value(b0, b1, b2, b3, b4) == Value(Mul(x, b0), Mul(x, b1), Mul(x, b2), Mul(x, b3), Mul(x, b4))
  {
  }

  /** The nine diagonal sums of the schoolbook product. */
  lemma {:induction false} Schoolbook(a0: u64, a1: u64, a2: u64, a3: u64, a4: u64, b0: u64, b1: u64, b2: u64, b3: u64, b4: u64)
    ensures Value(a0, a1, a2, a3, a4) * Value(b0, b1, b2, b3, b4)
         == Value(Mul(a0, b0),
                  Mul(a0, b1) + Mul(a1, b0),
                  Mul(a0, b2) + Mul(a1, b1) + Mul(a2, b0),
                  Mul(a0, b3) + Mul(a1, b2) + Mul(a2, b1) + Mul(a3, b0),
                  Mul(a0, b4) + Mul(a1, b3) + Mul(a2, b2) + Mul(a3, b1) + Mul(a4, b0))
            + TWO260 * Value(Mul(a1, b4) + Mul(a2, b3) + Mul(a3, b2) + Mul(a4, b1),
                             Mul(a2, b4) + Mul(a3, b3) + Mul(a4, b2),
                             Mul(a3, b4) + Mul(a4, b3),
                             Mul(a4, b4), 0)
  {
    Row(a0, b0, b1, b2, b3, b4);
    Row(a1, b0, b1, b2, b3, b4);
    Row(a2, b0, b1, b2, b3, b4);
    Row(a3, b0, b1, b2, b3, b4);
    Row(a4, b0, b1, b2, b3, b4);
    hide Mul;
    ScaleSum(a0, a1, a2, a3, a4, Value(b0, b1, b2, b3, b4));
  }

  lemma {:induction false} ScaleSum(a0: int, a1: int, a2: int, a3: int, a4: int, v: int)
    ensures Value(a0, a1, a2, a3, a4) * v == Value(a0 * v, a1 * v, a2 * v, a3 * v, a4 * v)
  {
  }

  /** What the folds above add up to: five limbs congruent to the nine diagonal sums. */
  lemma {:induction false} Folded(p0: int, p1: int, p2: int, p3: int, p4: int, p5: int, p6: int, p7: int, p8: int,
               t3: int, t4: int, u0: int, d0: int, c0: int, c1: int, d1: int, c2: int, d2: int,
               r0: int, r1: int, r2: int, r3: int, r4: int)
    requires p3 + 0x10_0000_0000_0000 * p4 + 0x100_0000_0000_0000_0000_0000_0000 * p5 + 0x10_0000_3D10 * p8
          == t3 + 0x10_0000_0000_0000 * t4 + 0x10_0000_0000_0000_0000_0000_0000 * u0
             + 0x1000_0000_0000_0000_0000_0000_0000_0000_0000_0000 * d0
    requires p0 + 0x1_0000_03D1 * u0 == r0 + 0x10_0000_0000_0000 * c0
    requires c0 + p1 + 0x10_0000_3D10 * (d0 + p6) == r1 + 0x10_0000_0000_0000 * c1 + 0x100_0003_D100_0000_0000_0000 * d1
    requires c1 + p2 + 0x10_0000_3D10 * (d1 + p7) == r2 + 0x10_0000_0000_0000 * c2 + 0x100_0003_D100_0000_0000_0000 * d2
    requires c2 + 0x10_0000_3D10 * d2 + t3 + 0x10_0000_0000_0000 * t4 == r3 + 0x10_0000_0000_0000 * r4
    ensures Cong(Value(r0, r1, r2, r3, r4), Value(p0, p1, p2, p3, p4) + TWO260 * Value(p5, p6, p7, p8, 0), P)
  {
    CongFromMultiple(Value(r0, r1, r2, r3, r4), Value(p0, p1, p2, p3, p4) + TWO260 * Value(p5, p6, p7, p8, 0),
                     P, -(u0 + 16 * Value(0, d0 + p6, p7, p8, 0)));
  }

  method FeMulInner(r: array<u64>, a: array<u64>, b: array<u64>)
    requires r.Length == 5 && Bounded(a) && Bounded(b)
    requires r != b
    modifies r
    ensures r[0] < TWO52 && r[1] < TWO52 && r[2] < TWO52 && r[3] < TWO52 && r[4] < 2 * TWO48
    ensures Cong(ValueOf(r), old(ValueOf(a)) * old(ValueOf(b)), P)
  {
    hide Mul, Value, Cong;
    var a0, a1, a2, a3, a4 := a[0], a[1], a[2], a[3], a[4];
    ghost var b0, b1, b2, b3, b4 := b[0], b[1], b[2], b[3], b[4];
    DiagonalBounds(a0, a1, a2, a3, a4, b0, b1, b2, b3, b4);
    var p3: u128 := Mul(a0, b[3]) + Mul(a1, b[2]) + Mul(a2, b[1]) + Mul(a3, b[0]);
    var p8 := Mul(a4, b[4]);
    var p4: u128 := Mul(a0, b[4]) + Mul(a1, b[3]) + Mul(a2, b[2]) + Mul(a3, b[1]) + Mul(a4, b[0]);
    var p0 := Mul(a0, b[0]);
    var p5: u128 := Mul(a1, b[4]) + Mul(a2, b[3]) + Mul(a3, b[2]) + Mul(a4, b[1]);
    var t3, t4, u0, d0 := FoldHigh(p3, p8, p4, p5);
    var c0, c1, c2, d1, d2, limb0, limb1, limb2, limb3, limb4;
    limb0, c0 := FoldFirst(p0, u0);
    r[0] := limb0;
    var p1: u128 := Mul(a0, b[1]) + Mul(a1, b[0]);
    var p6: u128 := Mul(a2, b[4]) + Mul(a3, b[3]) + Mul(a4, b[2]);
    limb1, c1, d1 := FoldLimb(c0, p1, d0, p6);
    r[1] := limb1;
    var p2: u128 := Mul(a0, b[2]) + Mul(a1, b[1]) + Mul(a2, b[0]);
    var p7: u128 := Mul(a3, b[4]) + Mul(a4, b[3]);
    limb2, c2, d2 := FoldLimb(c1, p2, d1, p7);
    r[2] := limb2;
    limb3, limb4 := FoldLast(c2, d2, t3, t4);
    r[3], r[4] := limb3, limb4;
    Schoolbook(a0, a1, a2, a3, a4, b0, b1, b2, b3, b4);
    Folded(p0, p1, p2, p3, p4, p5, p6, p7, p8, t3, t4, u0, d0, c0, c1, d1, c2, d2,
      limb0, limb1, limb2, limb3, limb4);
  }

  /** Doubling an operand before a product doubles the product, and the products commute. */
  lemma {:induction false} DoubledProducts(x: u64, y: u64)
    requires x < TWO56 && y < TWO56
    ensures Mul(x * 2, y) == Mul(x, y) + Mul(y, x) && Mul(x, y * 2) == Mul(x, y) + Mul(y, x)
  {
  }

  method FeSqrInner(r: array<u64>, a: array<u64>)
    requires r.Length == 5 && Bounded(a)
    modifies r
    ensures r[0] < TWO52 && r[1] < TWO52 && r[2] < TWO52 && r[3] < TWO52 && r[4] < 2 * TWO48
    ensures Cong(ValueOf(r), old(ValueOf(a)) * old(ValueOf(a)), P)
  {
    hide Mul, Value, Cong;
    var a0, a1, a2, a3, a4 := a[0], a[1], a[2], a[3], a[4];
    ghost var x0, x4 := a0, a4;
    DiagonalBounds(a0, a1, a2, a3, a4, a0, a1, a2, a3, a4);
    DoubledProducts(a0, a3); DoubledProducts(a1, a2); DoubledProducts(a0, a4); DoubledProducts(a1, a3);
    DoubledProducts(a1, a4); DoubledProducts(a2, a3); DoubledProducts(a0, a1); DoubledProducts(a2, a4);
    DoubledProducts(a0, a2); DoubledProducts(a3, a4);
    var p3: u128 := Mul(a0 * 2, a3) + Mul(a1 * 2, a2);
    var p8 := Mul(a4, a4);
    a4 := a4 * 2;
    var p4: u128 := Mul(a0, a4) + Mul(a1 * 2, a3) + Mul(a2, a2);
    var p0 := Mul(a0, a0);
    var p5: u128 := Mul(a1, a4) + Mul(a2 * 2, a3);
    var t3, t4, u0, d0 := FoldHigh(p3, p8, p4, p5);
    var c0, c1, c2, d1, d2, limb0, limb1, limb2, limb3, limb4;
    limb0, c0 := FoldFirst(p0, u0);
    r[0] := limb0;
    a0 := a0 * 2;
    var p1 := Mul(a0, a1);
    var p6: u128 := Mul(a2, a4) + Mul(a3, a3);
    limb1, c1, d1 := FoldLimb(c0, p1, d0, p6);
    r[1] := limb1;
    var p2: u128 := Mul(a0, a2) + Mul(a1, a1);
    var p7 := Mul(a3, a4);
    limb2, c2, d2 := FoldLimb(c1, p2, d1, p7);
    r[2] := limb2;
    limb3, limb4 := FoldLast(c2, d2, t3, t4);
    r[3], r[4] := limb3, limb4;
    Schoolbook(x0, a1, a2, a3, x4, x0, a1, a2, a3, x4);
    Folded(p0, p1, p2, p3, p4, p5, p6, p7, p8, t3, t4, u0, d0, c0, c1, d1, c2, d2,
      limb0, limb1, limb2, limb3, limb4);
  }
}
