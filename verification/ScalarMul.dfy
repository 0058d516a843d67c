/** The 512-bit product of two scalars and its reduction modulo the group order, on 64-bit limbs
    (scalar_4x64_impl.h, C branches). */
module ScalarMul {
  import opened Machine
  import opened Congruence

  /** The group order of secp256k1 (section 2.4.1 of SEC 2). */
  const N := 0xFFFFFFFF_FFFFFFFF_FFFFFFFF_FFFFFFFE_BAAEDCE6_AF48A03B_BFD25E8C_D0364141
  const N_0: u64 := 0xBFD2_5E8C_D036_4141
  const N_1: u64 := 0xBAAE_DCE6_AF48_A03B
  const N_2: u64 := 0xFFFF_FFFF_FFFF_FFFE
  const N_3: u64 := 0xFFFF_FFFF_FFFF_FFFF
  /** Limbs of 2^256 - N; the third one is 1. */
  const N_C_0: u64 := 0x402D_A173_2FC9_BEBF
  const N_C_1: u64 := 0x4551_2319_50B7_5FC4
  const N_C := 0x1_4551_2319_50B7_5FC4_402D_A173_2FC9_BEBF

  /** The number that four limbs stand for. */
  ghost function Val(a: array<u64>): (v: nat)
    requires a.Length == 4
    reads a
  {
    Val4(a[0], a[1], a[2], a[3])
  }

  /** The number that eight limbs stand for. */
  ghost function Val8(l: array<u64>): (v: nat)
    requires l.Length == 8
    reads l
  {
    Val4(l[0], l[1], l[2], l[3]) + TWO256 * Val4(l[4], l[5], l[6], l[7])
  }

  /** The number held by the accumulator (c0, c1, c2). */
  ghost function Acc(c0: int, c1: int, c2: int): int {
    c0 + 0x1_0000_0000_0000_0000 * c1 + 0x1_0000_0000_0000_0000_0000_0000_0000_0000 * c2
  }

  /** The high word of a product is at most 2^64 - 2, which is what lets the macros add a carry to it. */
  lemma {:induction false} HighWord(a: u64, b: u64)
    ensures Mul(a, b) <= 0xFFFF_FFFF_FFFF_FFFE_0000_0000_0000_0001
  {
    ProductBound(a, b, TWO64 - 1, TWO64 - 1);
  }

  /** The idiom `x += y; x < y`: the wrapped sum of two words and its carry. */
  method AddCarry(x: u64, y: u64) returns (sum: u64, carry: u64)
    ensures sum + 0x1_0000_0000_0000_0000 * carry == x + y && carry <= 1
    ensures carry == 1 <==> sum < y
  {
    sum := (x + y) % TWO64;
    carry := if sum < y then 1 else 0;
  }

  /** A product as its low and high words. */
  method MulWords(a: u64, b: u64) returns (tl: u64, th: u64)
    ensures tl + 0x1_0000_0000_0000_0000 * th == Mul(a, b) && th <= 0xFFFF_FFFF_FFFF_FFFE
  {
    HighWord(a, b);
    hide Mul;
    var t: u128 := Mul(a, b);
    th := t / TWO64;
    tl := t % TWO64;
  }

  /** Adds a * b to (c0, c1, c2). */
  method MulAdd(c0: u64, c1: u64, c2: u64, a: u64, b: u64) returns (d0: u64, d1: u64, d2: u64)
    requires c2 < 0xFFFF_FFFF
    ensures Acc(d0, d1, d2) == Acc(c0, c1, c2) + Mul(a, b)
    ensures d2 <= c2 + 1
  {
    hide Mul;
    var over: u64;
    var tl, th := MulWords(a, b);
    d0, over := AddCarry(c0, tl);
    th := th + over;
    d1, over := AddCarry(c1, th);
    d2 := c2 + over;
    assert d1 >= th || d2 != 0;
  }

  /** Adds a * b to (c0, c1); the macro's contract is that c1 does not overflow. */
  method MulAddFast(c0: u64, c1: u64, a: u64, b: u64) returns (d0: u64, d1: u64)
    requires Acc(c0, c1, 0) + Mul(a, b) < TWO128
    ensures Acc(d0, d1, 0) == Acc(c0, c1, 0) + Mul(a, b)
  {
    hide Mul;
    var over: u64;
    var tl, th := MulWords(a, b);
    d0, over := AddCarry(c0, tl);
    th := th + over;
    d1, over := AddCarry(c1, th);
    assert d1 >= th;
  }

  /** Adds 2 * a * b to (c0, c1, c2). */
  method MulAdd2(c0: u64, c1: u64, c2: u64, a: u64, b: u64) returns (d0: u64, d1: u64, d2: u64)
    requires c2 < 0xFFFF_FFFE
    ensures Acc(d0, d1, d2) == Acc(c0, c1, c2) + 2 * Mul(a, b)
    ensures d2 <= c2 + 2
  {
    hide Mul;
    var over: u64, wrapped: u64;
    var tl, th := MulWords(a, b);
    var th2: u64, tl2: u64;
    th2, over := AddCarry(th, th);
    d2 := c2 + over;
    assert th2 >= th || d2 != 0;
    tl2, over := AddCarry(tl, tl);
    th2 := th2 + over;
    d0, over := AddCarry(c0, tl2);
    th2, wrapped := AddCarry(th2, over);
    d2 := d2 + if over == 1 && th2 == 0 then 1 else 0;
    assert d0 >= tl2 || th2 != 0 || d2 != 0;
    d1, over := AddCarry(c1, th2);
    d2 := d2 + over;
    assert d1 >= th2 || d2 != 0;
  }

  /** Adds a to (c0, c1, c2). */
  method SumAdd(c0: u64, c1: u64, c2: u64, a: u64) returns (d0: u64, d1: u64, d2: u64)
    requires c2 < 0xFFFF_FFFF
    ensures Acc(d0, d1, d2) == Acc(c0, c1, c2) + a
    ensures d2 <= c2 + 1
  {
    var over: u64;
    d0, over := AddCarry(c0, a);
    d1, over := AddCarry(c1, over);
    d2 := c2 + over;
  }

  /** Adds a to (c0, c1); c1 must not overflow. */
  method SumAddFast(c0: u64, c1: u64, a: u64) returns (d0: u64, d1: u64)
    requires Acc(c0, c1, 0) + a < TWO128
    ensures Acc(d0, d1, 0) == Acc(c0, c1, 0) + a
  {
    var over: u64;
    d0, over := AddCarry(c0, a);
    d1 := (c1 + over) % TWO64;
    assert d1 != 0 || d0 >= a;
  }

  /** The sixteen partial products of two scalars. */
  lemma {:induction false} Schoolbook(a0: u64, a1: u64, a2: u64, a3: u64, b0: u64, b1: u64, b2: u64, b3: u64)
    ensures Val4(a0, a1, a2, a3) * Val4(b0, b1, b2, b3)
         == Val4(Mul(a0, b0), Mul(a0, b1) + Mul(a1, b0), Mul(a0, b2) + Mul(a1, b1) + Mul(a2, b0),
                 Mul(a0, b3) + Mul(a1, b2) + Mul(a2, b1) + Mul(a3, b0))
            + TWO256 * Val4(Mul(a1, b3) + Mul(a2, b2) + Mul(a3, b1), Mul(a2, b3) + Mul(a3, b2), Mul(a3, b3), 0)
  {
    Row(a0, b0, b1, b2, b3);
    Row(a1, b0, b1, b2, b3);
    Row(a2, b0, b1, b2, b3);
    Row(a3, b0, b1, b2, b3);
    hide Mul;
    ScaleSum(a0, a1, a2, a3, Val4(b0, b1, b2, b3));
  }

  lemma {:induction false} Row(x: u64, b0: u64, b1: u64, b2: u64, b3: u64)
    ensures x * Val4(b0, b1, b2, b3) == Val4(Mul(x, b0), Mul(x, b1), Mul(x, b2), Mul(x, b3))
  {
  }

  lemma {:induction false} ScaleSum(a0: int, a1: int, a2: int, a3: int, v: int)
    ensures Val4(a0, a1, a2, a3) * v == Val4(a0 * v, a1 * v, a2 * v, a3 * v)
  {
  }

  /** A product of two scalars fits 512 bits. */
  lemma {:induction false} ProductFits(a0: u64, a1: u64, a2: u64, a3: u64, b0: u64, b1: u64, b2: u64, b3: u64)
    ensures 0 <= Val4(a0, a1, a2, a3) * Val4(b0, b1, b2, b3) < TWO512
  {
    var x, y := Val4(a0, a1, a2, a3), Val4(b0, b1, b2, b3);
    assert 0 <= x < TWO256 && 0 <= y < TWO256;
    hide Val4;
    ProductBound(x, y, TWO256 - 1, TWO256 - 1);
  }

  /** `extract`: the low word leaves the accumulator, which moves down by 64 bits. */
  lemma {:induction false} Extract(c0: int, c1: int, c2: int)
    ensures Acc(c0, c1, c2) == c0 + 0x1_0000_0000_0000_0000 * Acc(c1, c2, 0)
  {
  }

  /** Seven columns p0..p6, the words they leave and the carries k between them. The last column
      does not overflow because the whole product has 512 bits. */
  lemma {:induction false} LastColumn(p0: int, p1: int, p2: int, p3: int, p4: int, p5: int, p6: int,
                l0: nat, l1: nat, l2: nat, l3: nat, l4: nat, l5: nat,
                k1: int, k2: int, k3: int, k4: int, k5: int, k6: int)
    requires p0 == l0 + 0x1_0000_0000_0000_0000 * k1
    requires k1 + p1 == l1 + 0x1_0000_0000_0000_0000 * k2
    requires k2 + p2 == l2 + 0x1_0000_0000_0000_0000 * k3
    requires k3 + p3 == l3 + 0x1_0000_0000_0000_0000 * k4
    requires k4 + p4 == l4 + 0x1_0000_0000_0000_0000 * k5
    requires k5 + p5 == l5 + 0x1_0000_0000_0000_0000 * k6
    requires Val4(p0, p1, p2, p3) + TWO256 * Val4(p4, p5, p6, 0) < TWO512
    ensures k6 + p6 < TWO128
  {
  }

  /** The words make up the number that the columns make up. */
  lemma {:induction false} Columns(p0: int, p1: int, p2: int, p3: int, p4: int, p5: int, p6: int,
                l0: nat, l1: nat, l2: nat, l3: nat, l4: nat, l5: nat,
                k1: int, k2: int, k3: int, k4: int, k5: int, k6: int, l6: int, l7: int)
    requires p0 == l0 + 0x1_0000_0000_0000_0000 * k1
    requires k1 + p1 == l1 + 0x1_0000_0000_0000_0000 * k2
    requires k2 + p2 == l2 + 0x1_0000_0000_0000_0000 * k3
    requires k3 + p3 == l3 + 0x1_0000_0000_0000_0000 * k4
    requires k4 + p4 == l4 + 0x1_0000_0000_0000_0000 * k5
    requires k5 + p5 == l5 + 0x1_0000_0000_0000_0000 * k6
    requires k6 + p6 == Acc(l6, l7, 0)
    ensures Val4(l0, l1, l2, l3) + TWO256 * Val4(l4, l5, l6, l7) == Val4(p0, p1, p2, p3) + TWO256 * Val4(p4, p5, p6, 0)
  {
  }

  method Mul512(l: array<u64>, a: array<u64>, b: array<u64>)
    requires l.Length == 8 && a.Length == 4 && b.Length == 4
    modifies l
    ensures Val8(l) == old(Val(a)) * old(Val(b))
  {
    ghost var k1: int, k2: int, k3: int, k4: int, k5: int, k6: int;
    hide Mul, Val4, Acc;
    ghost var a0, a1, a2, a3 := a[0], a[1], a[2], a[3];
    ghost var b0, b1, b2, b3 := b[0], b[1], b[2], b[3];
    Schoolbook(a0, a1, a2, a3, b0, b1, b2, b3);
    ProductFits(a0, a1, a2, a3, b0, b1, b2, b3);
    ghost var p0, p1, p2 := Mul(a0, b0), Mul(a0, b1) + Mul(a1, b0), Mul(a0, b2) + Mul(a1, b1) + Mul(a2, b0);
    ghost var p3, p4 := Mul(a0, b3) + Mul(a1, b2) + Mul(a2, b1) + Mul(a3, b0),
      Mul(a1, b3) + Mul(a2, b2) + Mul(a3, b1);
    ghost var p5, p6 := Mul(a2, b3) + Mul(a3, b2), Mul(a3, b3);
    Acc0(a0, b0);
    var c0: u64, c1: u64, c2: u64 := 0, 0, 0;
    c0, c1 := MulAddFast(c0, c1, a[0], b[0]);
    Extract(c0, c1, c2);
    ghost var m0: nat := c0;
    l[0], c0, c1 := c0, c1, 0;
    k1 := Acc(c0, c1, c2);
    assert p0 == m0 + 0x1_0000_0000_0000_0000 * k1;
    c0, c1, c2 := MulAdd(c0, c1, c2, a[0], b[1]);
    c0, c1, c2 := MulAdd(c0, c1, c2, a[1], b[0]);
    Extract(c0, c1, c2);
    ghost var m1: nat := c0;
    l[1], c0, c1, c2 := c0, c1, c2, 0;
    k2 := Acc(c0, c1, c2);
    assert k1 + p1 == m1 + 0x1_0000_0000_0000_0000 * k2;
    c0, c1, c2 := MulAdd(c0, c1, c2, a[0], b[2]);
    c0, c1, c2 := MulAdd(c0, c1, c2, a[1], b[1]);
    c0, c1, c2 := MulAdd(c0, c1, c2, a[2], b[0]);
    Extract(c0, c1, c2);
    ghost var m2: nat := c0;
    l[2], c0, c1, c2 := c0, c1, c2, 0;
    k3 := Acc(c0, c1, c2);
    assert k2 + p2 == m2 + 0x1_0000_0000_0000_0000 * k3;
    c0, c1, c2 := MulAdd(c0, c1, c2, a[0], b[3]);
    c0, c1, c2 := MulAdd(c0, c1, c2, a[1], b[2]);
    c0, c1, c2 := MulAdd(c0, c1, c2, a[2], b[1]);
    c0, c1, c2 := MulAdd(c0, c1, c2, a[3], b[0]);
    Extract(c0, c1, c2);
    ghost var m3: nat := c0;
    l[3], c0, c1, c2 := c0, c1, c2, 0;
    k4 := Acc(c0, c1, c2);
    assert k3 + p3 == m3 + 0x1_0000_0000_0000_0000 * k4;
    c0, c1, c2 := MulAdd(c0, c1, c2, a[1], b[3]);
    c0, c1, c2 := MulAdd(c0, c1, c2, a[2], b[2]);
    c0, c1, c2 := MulAdd(c0, c1, c2, a[3], b[1]);
    Extract(c0, c1, c2);
    ghost var m4: nat := c0;
    l[4], c0, c1, c2 := c0, c1, c2, 0;
    k5 := Acc(c0, c1, c2);
    assert k4 + p4 == m4 + 0x1_0000_0000_0000_0000 * k5;
    c0, c1, c2 := MulAdd(c0, c1, c2, a[2], b[3]);
    c0, c1, c2 := MulAdd(c0, c1, c2, a[3], b[2]);
    Extract(c0, c1, c2);
    ghost var m5: nat := c0;
    l[5], c0, c1, c2 := c0, c1, c2, 0;
    k6 := Acc(c0, c1, c2);
    assert k5 + p5 == m5 + 0x1_0000_0000_0000_0000 * k6;
    LastColumn(p0, p1, p2, p3, p4, p5, p6, m0, m1, m2, m3, m4, m5, k1, k2, k3, k4, k5, k6);
    c0, c1 := MulAddFast(c0, c1, a[3], b[3]);
    l[6], c0, c1 := c0, c1, 0;
    assert c1 == 0;
    l[7] := c0;
    Columns(p0, p1, p2, p3, p4, p5, p6, m0, m1, m2, m3, m4, m5, k1, k2, k3, k4, k5, k6, l[6], l[7]);
  }

  method Sqr512(l: array<u64>, a: array<u64>)
    requires l.Length == 8 && a.Length == 4
    modifies l
    ensures Val8(l) == old(Val(a)) * old(Val(a))
  {
    ghost var k1: int, k2: int, k3: int, k4: int, k5: int, k6: int;
    hide Mul, Val4, Acc;
    ghost var a0, a1, a2, a3 := a[0], a[1], a[2], a[3];
    Schoolbook(a0, a1, a2, a3, a0, a1, a2, a3);
    ProductFits(a0, a1, a2, a3, a0, a1, a2, a3);
    MulCommutes(a0, a1); MulCommutes(a0, a2); MulCommutes(a0, a3);
    MulCommutes(a1, a2); MulCommutes(a1, a3); MulCommutes(a2, a3);
    ghost var p0, p1, p2 := Mul(a0, a0), Mul(a0, a1) + Mul(a1, a0), Mul(a0, a2) + Mul(a1, a1) + Mul(a2, a0);
    ghost var p3, p4 := Mul(a0, a3) + Mul(a1, a2) + Mul(a2, a1) + Mul(a3, a0),
      Mul(a1, a3) + Mul(a2, a2) + Mul(a3, a1);
    ghost var p5, p6 := Mul(a2, a3) + Mul(a3, a2), Mul(a3, a3);
    Acc0(a0, a0);
    var c0: u64, c1: u64, c2: u64 := 0, 0, 0;
    c0, c1 := MulAddFast(c0, c1, a[0], a[0]);
    Extract(c0, c1, c2);
    ghost var m0: nat := c0;
    l[0], c0, c1 := c0, c1, 0;
    k1 := Acc(c0, c1, c2);
    assert p0 == m0 + 0x1_0000_0000_0000_0000 * k1;
    c0, c1, c2 := MulAdd2(c0, c1, c2, a[0], a[1]);
    Extract(c0, c1, c2);
    ghost var m1: nat := c0;
    l[1], c0, c1, c2 := c0, c1, c2, 0;
    k2 := Acc(c0, c1, c2);
    assert k1 + p1 == m1 + 0x1_0000_0000_0000_0000 * k2;
    c0, c1, c2 := MulAdd2(c0, c1, c2, a[0], a[2]);
    c0, c1, c2 := MulAdd(c0, c1, c2, a[1], a[1]);
    Extract(c0, c1, c2);
    ghost var m2: nat := c0;
    l[2], c0, c1, c2 := c0, c1, c2, 0;
    k3 := Acc(c0, c1, c2);
    assert k2 + p2 == m2 + 0x1_0000_0000_0000_0000 * k3;
    c0, c1, c2 := MulAdd2(c0, c1, c2, a[0], a[3]);
    c0, c1, c2 := MulAdd2(c0, c1, c2, a[1], a[2]);
    Extract(c0, c1, c2);
    ghost var m3: nat := c0;
    l[3], c0, c1, c2 := c0, c1, c2, 0;
    k4 := Acc(c0, c1, c2);
    assert k3 + p3 == m3 + 0x1_0000_0000_0000_0000 * k4;
    c0, c1, c2 := MulAdd2(c0, c1, c2, a[1], a[3]);
    c0, c1, c2 := MulAdd(c0, c1, c2, a[2], a[2]);
    Extract(c0, c1, c2);
    ghost var m4: nat := c0;
    l[4], c0, c1, c2 := c0, c1, c2, 0;
    k5 := Acc(c0, c1, c2);
    assert k4 + p4 == m4 + 0x1_0000_0000_0000_0000 * k5;
    c0, c1, c2 := MulAdd2(c0, c1, c2, a[2], a[3]);
    Extract(c0, c1, c2);
    ghost var m5: nat := c0;
    l[5], c0, c1, c2 := c0, c1, c2, 0;
    k6 := Acc(c0, c1, c2);
    assert k5 + p5 == m5 + 0x1_0000_0000_0000_0000 * k6;
    LastColumn(p0, p1, p2, p3, p4, p5, p6, m0, m1, m2, m3, m4, m5, k1, k2, k3, k4, k5, k6);
    c0, c1 := MulAddFast(c0, c1, a[3], a[3]);
    l[6], c0, c1 := c0, c1, 0;
    assert c1 == 0;
    l[7] := c0;
    Columns(p0, p1, p2, p3, p4, p5, p6, m0, m1, m2, m3, m4, m5, k1, k2, k3, k4, k5, k6, l[6], l[7]);
  }

  lemma {:induction false} MulCommutes(a: u64, b: u64)
    ensures Mul(a, b) == Mul(b, a)
  {
  }

  lemma {:induction false} Acc0(a: u64, b: u64)
    ensures Acc(0, 0, 0) == 0 && Mul(a, b) < TWO128
  {
  }

  /** True exactly when the four limbs hold a number that is not reduced. */
  method CheckOverflow(a: array<u64>) returns (yes: bool)
    requires a.Length == 4
    ensures yes <==> Val(a) >= N
  {
    yes := false;
    var no := false;
    no := no || a[3] < N_3;
    no := no || a[2] < N_2;
    yes := yes || (a[2] > N_2 && !no);
    no := no || a[1] < N_1;
    yes := yes || (a[1] > N_1 && !no);
    yes := yes || (a[0] >= N_0 && !no);
  }

  /** `t & 0xFFFFFFFFFFFFFFFF` and `t >>= 64`. */
  method Carry64(t: u128) returns (low: u64, rest: u64)
    ensures t == low + 0x1_0000_0000_0000_0000 * rest
  {
    low := t % TWO64;
    rest := t / TWO64;
  }

  /** A carry chain over four columns keeps their number. */
  lemma {:induction false} Chain4(x0: int, x1: int, x2: int, x3: int, z0: int, z1: int, z2: int, z3: int,
               t0: int, t1: int, t2: int, t3: int)
    requires x0 == z0 + 0x1_0000_0000_0000_0000 * t0
    requires t0 + x1 == z1 + 0x1_0000_0000_0000_0000 * t1
    requires t1 + x2 == z2 + 0x1_0000_0000_0000_0000 * t2
    requires t2 + x3 == z3 + 0x1_0000_0000_0000_0000 * t3
    ensures Val4(x0, x1, x2, x3) == Val4(z0, z1, z2, z3) + TWO256 * t3
  {
  }

  lemma {:induction false} Val4Sum(x0: int, x1: int, x2: int, x3: int, y0: int, y1: int, y2: int, y3: int, k: int)
    ensures Val4(x0 + k * y0, x1 + k * y1, x2 + k * y2, x3 + k * y3) == Val4(x0, x1, x2, x3) + k * Val4(y0, y1, y2, y3)
  {
  }

  /** The carry chain of an addition: r = a + w modulo 2^256, and the carry out. */
  method AddWords(r: array<u64>, a: array<u64>, w0: u64, w1: u64, w2: u64, w3: u64) returns (carry: u64)
    requires r.Length == 4 && a.Length == 4
    modifies r
    ensures Val(r) + TWO256 * carry == old(Val(a)) + Val4(w0, w1, w2, w3) && carry <= 1
  {
    hide Val4;
    ghost var a0, a1, a2, a3 := a[0], a[1], a[2], a[3];
    ghost var x0: int, x1: int, x2: int, x3: int := a0, a1, a2, a3;
    ghost var t0, t1, t2;
    var t: u128 := a[0] as u128 + w0;
    r[0], t := Carry64(t); t0 := t;
    t := t + (a[1] as u128 + w1);
    r[1], t := Carry64(t); t1 := t;
    t := t + (a[2] as u128 + w2);
    r[2], t := Carry64(t); t2 := t;
    t := t + (a[3] as u128 + w3);
    r[3], t := Carry64(t);
    carry := t;
    Val4Sum(x0, x1, x2, x3, w0, w1, w2, w3, 1);
    Chain4(x0 + w0, x1 + w1, x2 + w2, x3 + w3, r[0], r[1], r[2], r[3], t0, t1, t2, t);
  }

  /** Adds 2^256 - N to the number modulo 2^256 when asked to, which is the last step of every
      reduction: it subtracts N from a number in [N, 2^256), or from one whose bit 256 was dropped. */
  method Reduce(r: array<u64>, overflow: int)
    requires r.Length == 4 && 0 <= overflow <= 1
    modifies r
    ensures Val(r) == if overflow == 0 then old(Val(r)) else if old(Val(r)) < N then old(Val(r)) + N_C else old(Val(r)) - N
  {
    hide Val4;
    Range4(r[0], r[1], r[2], r[3]);
    NCLimbs(overflow);
    var t := AddWords(r, r, overflow * 0x402D_A173_2FC9_BEBF, overflow * 0x4551_2319_50B7_5FC4, overflow * 1, 0);
    Range4(r[0], r[1], r[2], r[3]);
    Dropped(old(Val(r)), overflow, Val(r), t);
  }

  lemma {:induction false} NCLimbs(k: int)
    ensures Val4(k * 0x402D_A173_2FC9_BEBF, k * 0x4551_2319_50B7_5FC4, k * 1, 0) == k * N_C
  {
  }

  /** Which number remains when bit 256 of the sum is dropped. */
  lemma {:induction false} Dropped(x: int, overflow: int, y: int, top: int)
    requires 0 <= overflow <= 1 && 0 <= x < TWO256 && 0 <= y < TWO256
    requires y + TWO256 * top == x + overflow * N_C
    ensures y == if overflow == 0 then x else if x < N then x + N_C else x - N
  {
  }

  /** Products by the limbs of 2^256 - N are linear. */
  lemma {:induction false} TimesNC(x: u64)
    ensures Mul(x, N_C_0) == 0x402D_A173_2FC9_BEBF * x && Mul(x, N_C_1) == 0x4551_2319_50B7_5FC4 * x
  {
  }

  /** First pass, 512 bits into 385: m = l[0..3] + l[4..7] * (2^256 - N). */
  method Fold512(l: array<u64>) returns (m0: u64, m1: u64, m2: u64, m3: u64, m4: u64, m5: u64, m6: u32)
    requires l.Length == 8
    ensures Val4(m0, m1, m2, m3) + TWO256 * Val4(m4, m5, m6, 0)
         == Val4(l[0], l[1], l[2], l[3]) + N_C * Val4(l[4], l[5], l[6], l[7])
    ensures m6 <= 1 && Val4(m4, m5, m6, 0) <= N_C
  {
    hide Mul, Acc;
    var n0, n1, n2, n3 := l[4], l[5], l[6], l[7];
    TimesNC(n0); TimesNC(n1); TimesNC(n2); TimesNC(n3);
    AccWords(l[0], 0);
    var c0: u64, c1: u64, c2: u64 := l[0], 0, 0;
    c0, c1 := MulAddFast(c0, c1, n0, N_C_0);
    Extract(c0, c1, c2);
    m0, c0, c1 := c0, c1, 0;
    AccWords(c0, c1);
    c0, c1 := SumAddFast(c0, c1, l[1]);
    c0, c1, c2 := MulAdd(c0, c1, c2, n1, N_C_0);
    c0, c1, c2 := MulAdd(c0, c1, c2, n0, N_C_1);
    Extract(c0, c1, c2);
    m1, c0, c1, c2 := c0, c1, c2, 0;
    c0, c1, c2 := SumAdd(c0, c1, c2, l[2]);
    c0, c1, c2 := MulAdd(c0, c1, c2, n2, N_C_0);
    c0, c1, c2 := MulAdd(c0, c1, c2, n1, N_C_1);
    c0, c1, c2 := SumAdd(c0, c1, c2, n0);
    Extract(c0, c1, c2);
    m2, c0, c1, c2 := c0, c1, c2, 0;
    c0, c1, c2 := SumAdd(c0, c1, c2, l[3]);
    c0, c1, c2 := MulAdd(c0, c1, c2, n3, N_C_0);
    c0, c1, c2 := MulAdd(c0, c1, c2, n2, N_C_1);
    c0, c1, c2 := SumAdd(c0, c1, c2, n1);
    Extract(c0, c1, c2);
    m3, c0, c1, c2 := c0, c1, c2, 0;
    AccWords(c0, c1);
    c0, c1, c2 := MulAdd(c0, c1, c2, n3, N_C_1);
    c0, c1, c2 := SumAdd(c0, c1, c2, n2);
    Extract(c0, c1, c2);
    m4, c0, c1, c2 := c0, c1, c2, 0;
    AccWords(c0, c1);
    c0, c1 := SumAddFast(c0, c1, n3);
    Extract(c0, c1, 0);
    m5, c0, c1 := c0, c1, 0;
    AccWords(c0, c1);
    assert c0 <= 1;
    m6 := c0;
  }

  /** What an accumulator of two words is. */
  lemma {:induction false} AccWords(c0: u64, c1: u64)
    ensures Acc(c0, c1, 0) == c0 + 0x1_0000_0000_0000_0000 * c1
  {
  }

  /** Second pass, 385 bits into 258: p = m[0..3] + m[4..6] * (2^256 - N). */
  method Fold385(m0: u64, m1: u64, m2: u64, m3: u64, m4: u64, m5: u64, m6: u32)
    returns (p0: u64, p1: u64, p2: u64, p3: u64, p4: u32)
    requires m6 <= 1 && Val4(m4, m5, m6, 0) <= N_C
    ensures Val4(p0, p1, p2, p3) + TWO256 * p4 == Val4(m0, m1, m2, m3) + N_C * Val4(m4, m5, m6, 0)
    ensures p4 <= 2
  {
    hide Mul, Acc;
    TimesNC(m4); TimesNC(m5); TimesNC(m6);
    AccWords(m0, 0);
    var c0: u64, c1: u64, c2: u64 := m0, 0, 0;
    c0, c1 := MulAddFast(c0, c1, m4, N_C_0);
    Extract(c0, c1, c2);
    p0, c0, c1 := c0, c1, 0;
    AccWords(c0, c1);
    c0, c1 := SumAddFast(c0, c1, m1);
    c0, c1, c2 := MulAdd(c0, c1, c2, m5, N_C_0);
    c0, c1, c2 := MulAdd(c0, c1, c2, m4, N_C_1);
    Extract(c0, c1, c2);
    p1, c0, c1, c2 := c0, c1, c2, 0;
    c0, c1, c2 := SumAdd(c0, c1, c2, m2);
    c0, c1, c2 := MulAdd(c0, c1, c2, m6, N_C_0);
    c0, c1, c2 := MulAdd(c0, c1, c2, m5, N_C_1);
    c0, c1, c2 := SumAdd(c0, c1, c2, m4);
    Extract(c0, c1, c2);
    p2, c0, c1, c2 := c0, c1, c2, 0;
    AccWords(c0, c1);
    c0, c1 := SumAddFast(c0, c1, m3);
    c0, c1 := MulAddFast(c0, c1, m6, N_C_1);
    c0, c1 := SumAddFast(c0, c1, m5);
    Extract(c0, c1, 0);
    p3, c0, c1 := c0, c1, 0;
    AccWords(c0, c1);
    p4 := c0 + m6;
    assert p4 <= 2;
  }

  /** Third pass, 258 bits into 256 and a carry: r = p[0..3] + p[4] * (2^256 - N). */
  method Fold258(r: array<u64>, p0: u64, p1: u64, p2: u64, p3: u64, p4: u32) returns (c: u64)
    requires r.Length == 4 && p4 <= 2
    modifies r
    ensures Val(r) + TWO256 * c == Val4(p0, p1, p2, p3) + N_C * p4
    ensures c <= 1
  {
    var t: u128 := p0 + 0x402D_A173_2FC9_BEBF * p4;
    r[0], t := Carry64(t);
    t := t + p1 + 0x4551_2319_50B7_5FC4 * p4;
    r[1], t := Carry64(t);
    t := t + p2 + p4;
    r[2], t := Carry64(t);
    t := t + p3;
    r[3], t := Carry64(t);
    c := t;
  }

  method Reduce512(r: array<u64>, l: array<u64>)
    requires r.Length == 4 && l.Length == 8
    modifies r
    ensures Val(r) == old(Val8(l)) % N
  {
    hide Val4, Cong;
    var m0, m1, m2, m3, m4, m5, m6 := Fold512(l);
    var p0, p1, p2, p3, p4 := Fold385(m0, m1, m2, m3, m4, m5, m6);
    var c := Fold258(r, p0, p1, p2, p3, p4);
    var over := CheckOverflow(r);
    ghost var w := Val(r);
    Range4(p0, p1, p2, p3);
    Range4(r[0], r[1], r[2], r[3]);
    FoldsReduce(Val4(l[0], l[1], l[2], l[3]), Val4(l[4], l[5], l[6], l[7]), Val4(m0, m1, m2, m3), Val4(m4, m5, m6, 0),
                Val4(p0, p1, p2, p3), p4, w, c);
    Reduce(r, c + if over then 1 else 0);
    CongIsMod(Val(r), old(Val8(l)), N);
  }

  lemma {:induction false} Range4(d0: u64, d1: u64, d2: u64, d3: u64)
    ensures 0 <= Val4(d0, d1, d2, d3) < TWO256
  {
  }

  /** The three folds change the number by multiples of N only. */
  lemma {:induction false} FoldsReduce(low: int, high: int, mlow: int, mhigh: int, plow: int, p4: int, w: int, c: int)
    requires mlow + TWO256 * mhigh == low + N_C * high
    requires plow + TWO256 * p4 == mlow + N_C * mhigh
    requires w + TWO256 * c == plow + N_C * p4
    requires 0 <= plow < TWO256 && 0 <= w < TWO256 && 0 <= p4 <= 2 && 0 <= c <= 1
    ensures c + (if w >= N then 1 else 0) <= 1
    ensures Cong(if c == 1 then w + N_C else if w >= N then w - N else w, low + TWO256 * high, N)
    ensures c == 1 ==> w + N_C < N
  {
    CongFromMultiple(if c == 1 then w + N_C else if w >= N then w - N else w, low + TWO256 * high, N,
                     -(high + mhigh + p4) - c - if c == 0 && w >= N then 1 else 0);
  }

  /** The product of two scalars. */
  ghost function MulMod(x: int, y: int): int {
    (x * y) % N
  }

  lemma {:induction false} MulModCong(x: int, y: int)
    ensures 0 <= MulMod(x, y) < N && Cong(MulMod(x, y), x * y, N)
  {
    CongMod(x * y, N);
  }

  method Multiply(r: array<u64>, a: array<u64>, b: array<u64>)
    requires r.Length == 4 && a.Length == 4 && b.Length == 4
    modifies r
    ensures Val(r) == MulMod(old(Val(a)), old(Val(b)))
  {
    var l := new u64[8];
    Mul512(l, a, b);
    Reduce512(r, l);
  }

  method Square(r: array<u64>, a: array<u64>)
    requires r.Length == 4 && a.Length == 4
    modifies r
    ensures Val(r) == MulMod(old(Val(a)), old(Val(a)))
  {
    var l := new u64[8];
    Sqr512(l, a);
    Reduce512(r, l);
  }
}
