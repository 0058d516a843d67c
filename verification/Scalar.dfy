/** The remaining operations on scalars: addition, negation, comparison with half the order,
    bit fields and shifts (scalar_4x64_impl.h). */
module Scalar {
  import opened Machine
  import opened Bits
  import opened ScalarMul

  /** Limbs of half the group order. */
  const N_H_0: u64 := 0xDFE9_2F46_681B_20A0
  const N_H_1: u64 := 0x5D57_6E73_57A4_501D
  const N_H_2: u64 := 0xFFFF_FFFF_FFFF_FFFF
  const N_H_3: u64 := 0x7FFF_FFFF_FFFF_FFFF

  /** r = (a + b) mod N, for reduced operands; the result says whether N was subtracted. */
  method Add(r: array<u64>, a: array<u64>, b: array<u64>) returns (overflow: int)
    requires r.Length == 4 && a.Length == 4 && b.Length == 4
    requires Val(a) < N && Val(b) < N
    modifies r
    ensures Val(r) == old(Val(a) + Val(b)) - overflow * N
    ensures overflow == if old(Val(a) + Val(b)) >= N then 1 else 0
  {
    hide Val4;
    Range4(a[0], a[1], a[2], a[3]);
    Range4(b[0], b[1], b[2], b[3]);
    var t := AddWords(r, a, b[0], b[1], b[2], b[3]);
    Range4(r[0], r[1], r[2], r[3]);
    var over := CheckOverflow(r);
    overflow := t + if over then 1 else 0;
    Reduce(r, overflow);
  }

  method IsZero(a: array<u64>) returns (zero: bool)
    requires a.Length == 4
    ensures zero <==> Val(a) == 0
  {
    zero := a[0] == 0 && a[1] == 0 && a[2] == 0 && a[3] == 0;
  }

  method IsOne(a: array<u64>) returns (one: bool)
    requires a.Length == 4
    ensures one <==> Val(a) == 1
  {
    one := a[0] == 1 && a[1] == 0 && a[2] == 0 && a[3] == 0;
  }

  method IsEven(a: array<u64>) returns (even: bool)
    requires a.Length == 4
    ensures even <==> Val(a) % 2 == 0
  {
    even := a[0] % 2 == 0;
  }

  /** True exactly for the numbers above half the (odd) order. */
  method IsHigh(a: array<u64>) returns (yes: bool)
    requires a.Length == 4
    ensures yes <==> 2 * Val(a) > N
  {
    yes := false;
    var no := false;
    no := no || a[3] < N_H_3;
    yes := yes || (a[3] > N_H_3 && !no);
    no := no || (a[2] < N_H_2 && !yes);
    no := no || (a[1] < N_H_1 && !yes);
    yes := yes || (a[1] > N_H_1 && !no);
    yes := yes || (a[0] > N_H_0 && !no);
  }

  /** The complement and the order added limb by limb: 2^256 + N - a. */
  lemma {:induction false} Complement(a0: int, a1: int, a2: int, a3: int)
    ensures Val4(0xFFFF_FFFF_FFFF_FFFF - a0 + N_0 + 1, 0xFFFF_FFFF_FFFF_FFFF - a1 + N_1,
                 0xFFFF_FFFF_FFFF_FFFF - a2 + N_2, 0xFFFF_FFFF_FFFF_FFFF - a3 + N_3)
         == TWO256 + N - Val4(a0, a1, a2, a3)
  {
  }

  /** Dropping bit 256 from 2^256 + N - x leaves the negation of x. */
  lemma {:induction false} Negated(x: int, v: int, top: int)
    requires 0 < x < N && 0 <= v < TWO256 && TWO256 + N - x == v + TWO256 * top
    ensures v == N - x
  {
  }

  /** The carry chain of both negations: the limbs of a, complemented under the mask when flag is
      set, plus those of N + 1 under the same mask. */
  method MaskedComplement(a: array<u64>, flag: bool) returns (l0: u64, l1: u64, l2: u64, l3: u64)
    requires a.Length == 4 && 0 < Val(a) < N
    ensures Val4(l0, l1, l2, l3) == if flag then N - Val(a) else Val(a)
  {
    hide Val4;
    ghost var x0: int, x1: int, x2: int, x3: int := a[0], a[1], a[2], a[3];
    ghost var t0, t1, t2;
    var t: u128 := if flag then (0xFFFF_FFFF_FFFF_FFFF - a[0]) as u128 + N_0 + 1 else a[0];
    l0, t := Carry64(t); t0 := t;
    t := t + if flag then (0xFFFF_FFFF_FFFF_FFFF - a[1]) as u128 + N_1 else a[1];
    l1, t := Carry64(t); t1 := t;
    t := t + if flag then (0xFFFF_FFFF_FFFF_FFFF - a[2]) as u128 + N_2 else a[2];
    l2, t := Carry64(t); t2 := t;
    t := t + if flag then (0xFFFF_FFFF_FFFF_FFFF - a[3]) as u128 + N_3 else a[3];
    l3, t := Carry64(t);
    Range4(l0, l1, l2, l3);
    if flag {
      Complement(x0, x1, x2, x3);
      Chain4(0xFFFF_FFFF_FFFF_FFFF - x0 + N_0 + 1, 0xFFFF_FFFF_FFFF_FFFF - x1 + N_1,
             0xFFFF_FFFF_FFFF_FFFF - x2 + N_2, 0xFFFF_FFFF_FFFF_FFFF - x3 + N_3, l0, l1, l2, l3, t0, t1, t2, t);
      Negated(Val(a), Val4(l0, l1, l2, l3), t);
    } else {
      Chain4(x0, x1, x2, x3, l0, l1, l2, l3, t0, t1, t2, t);
    }
  }

  /** r = -a mod N. */
  method Negate(r: array<u64>, a: array<u64>)
    requires r.Length == 4 && a.Length == 4
    requires Val(a) < N
    modifies r
    ensures Val(r) == if old(Val(a)) == 0 then 0 else N - old(Val(a))
  {
    var zero := IsZero(a);
    var l0, l1, l2, l3 := 0, 0, 0, 0;
    if !zero {
      l0, l1, l2, l3 := MaskedComplement(a, true);
    }
    r[0], r[1], r[2], r[3] := l0, l1, l2, l3;
  }

  /** Negates r when flag is set, and says which of the two it did. */
  method CondNegate(r: array<u64>, flag: bool) returns (sign: int)
    requires r.Length == 4
    requires Val(r) < N
    modifies r
    ensures Val(r) == if flag && old(Val(r)) != 0 then N - old(Val(r)) else old(Val(r))
    ensures sign == if flag then -1 else 1
  {
    var zero := IsZero(r);
    var l0, l1, l2, l3 := 0, 0, 0, 0;
    if !zero {
      l0, l1, l2, l3 := MaskedComplement(r, flag);
    }
    r[0], r[1], r[2], r[3] := l0, l1, l2, l3;
    sign := if flag then -1 else 1;
  }

  /** Splits at bit 128. */
  method Split128(r1: array<u64>, r2: array<u64>, a: array<u64>)
    requires r1.Length == 4 && r2.Length == 4 && a.Length == 4
    requires r1 != r2 && r1 != a && r2 != a
    modifies r1, r2
    ensures old(Val(a)) == Val(r1) + TWO128 * Val(r2)
    ensures Val(r1) < TWO128 && Val(r2) < TWO128
  {
    r1[0] := a[0];
    r1[1] := a[1];
    r1[2] := 0;
    r1[3] := 0;
    r2[0] := a[2];
    r2[1] := a[3];
    r2[2] := 0;
    r2[3] := 0;
  }

  lemma {:induction false} FourLimbs(l: seq<u64>)
    requires |l| == 4
    ensures Limbs(l) == Val4(l[0], l[1], l[2], l[3])
  {
    assert l[0..] == l;
    LimbsFrom(l, 0); LimbsFrom(l, 1); LimbsFrom(l, 2); LimbsFrom(l, 3); LimbsFrom(l, 4);
  }

  /** A bit field that lies within one limb. */
  method GetBits(a: array<u64>, offset: nat, count: nat) returns (bits: u64)
    requires a.Length == 4 && 1 <= count && offset + count <= 256
    requires (offset + count - 1) / 64 == offset / 64
    ensures bits == Field(Val(a), offset, count)
  {
    hide Pow2, Field, Val4, Limbs, Mask, Shr;
    FourLimbs(a[..]);
    FieldOfLimb(a[..], offset, count);
    bits := Mask(Shr(a[offset / 64], offset % 64), count);
  }

  lemma {:induction false} FieldOfScalar(l: seq<u64>, offset: nat, count: nat)
    requires |l| == 4 && offset < 192 && count < 32
    ensures Field(Val4(l[0], l[1], l[2], l[3]), offset, count)
         == Mask(Shr(l[offset / 64], offset % 64) + Shl64(l[offset / 64 + 1], 64 - offset % 64), count)
    ensures Pow2(count) <= TWO64
  {
    hide Pow2, Field, Val4, Limbs, Mask, Shr, Shl64;
    FourLimbs(l);
    FieldOfTwo(l, offset, count);
    Pow2Monotone(count, 64);
    Pow2Words();
  }

  /** A bit field of fewer than 32 bits anywhere in the number. */
  method GetBitsVar(a: array<u64>, offset: nat, count: nat) returns (bits: u64)
    requires a.Length == 4 && 1 <= count < 32 && offset + count <= 256
    ensures bits == Field(Val(a), offset, count)
  {
    if (offset + count - 1) / 64 == offset / 64 {
      bits := GetBits(a, offset, count);
    } else {
      hide Pow2, Field, Val4, Mask, Shr, Shl64;
      FieldOfScalar(a[..], offset, count);
      bits := Mask(Shr(a[offset / 64], offset % 64) + Shl64(a[offset / 64 + 1], 64 - offset % 64), count);
    }
  }

  /** The four limbs of 2^bit, and of 0 when bit is 256 or more. */
  lemma {:induction false} BitLimbs(bit: nat, t: nat)
    requires t == Pow2(bit % 64)
    ensures t < TWO64
    ensures bit < 256 ==> Val4(if bit / 64 == 0 then t else 0, if bit / 64 == 1 then t else 0,
                               if bit / 64 == 2 then t else 0, if bit / 64 == 3 then t else 0) == Pow2(bit)
    ensures bit >= 256 ==> Val4(if bit / 64 == 0 then t else 0, if bit / 64 == 1 then t else 0,
                                if bit / 64 == 2 then t else 0, if bit / 64 == 3 then t else 0) == 0
  {
    hide Pow2;
    var k, o := bit / 64, bit % 64;
    Pow2Small();
    Pow2Words();
    Pow2Add(64 * k, o);
    Pow2Add(o, 1);
    Pow2Monotone(o + 1, 64);
    assert bit == 64 * k + o;
    if k == 0 {
      assert Val4(t, 0, 0, 0) == t;
    } else if k == 1 {
      assert Val4(0, t, 0, 0) == TWO64 * t;
    } else if k == 2 {
      assert Val4(0, 0, t, 0) == TWO128 * t;
    } else if k == 3 {
      assert Val4(0, 0, 0, t) == TWO192 * t;
    } else {
      assert Val4(0, 0, 0, 0) == 0;
    }
  }

  /** Adds 2^bit when flag is 1; the sum must stay below N. */
  method CaddBit(r: array<u64>, bit: nat, flag: bool)
    requires r.Length == 4 && bit < 256
    requires flag ==> Val(r) + Pow2(bit) < N
    modifies r
    ensures Val(r) == old(Val(r)) + if flag then Pow2(bit) else 0
  {
    hide Pow2, Val4;
    var pos := if flag then bit else bit + 0x100;
    var w := Pow2(pos % 64);
    BitLimbs(pos, w);
    Range4(r[0], r[1], r[2], r[3]);
    var carry := AddWords(r, r, if pos / 64 == 0 then w else 0, if pos / 64 == 1 then w else 0,
                          if pos / 64 == 2 then w else 0, if pos / 64 == 3 then w else 0);
    Range4(r[0], r[1], r[2], r[3]);
    assert carry == 0;
  }

  /** Shifts r right by n bits and returns the bits shifted out. */
  method ShrInt(r: array<u64>, n: nat) returns (ret: u64)
    requires r.Length == 4 && 0 < n < 16
    modifies r
    ensures ret == Mask(old(Val(r)), n) && Val(r) == Shr(old(Val(r)), n)
  {
    var d0, d1, d2, d3 := r[0], r[1], r[2], r[3];
    hide Pow2, Val4, Shr, Shl64, Mask;
    LowBits(d0, d1, d2, d3, n);
    ShrZero(n, d3);
    ShiftVal(d0, d1, d2, d3, n);
    ret := Mask(r[0], n);
    r[0] := Shr(r[0], n) + Shl64(r[1], 64 - n);
    r[1] := Shr(r[1], n) + Shl64(r[2], 64 - n);
    r[2] := Shr(r[2], n) + Shl64(r[3], 64 - n);
    r[3] := Shr(r[3], n);
  }

  lemma {:induction false} LowBits(d0: u64, d1: u64, d2: u64, d3: u64, n: nat)
    requires n <= 64
    ensures Mask(Val4(d0, d1, d2, d3), n) == Mask(d0, n)
  {
    hide Pow2;
    Pow2Add(n, 64 - n);
    Pow2Words();
    var h := d1 + 0x1_0000_0000_0000_0000 * (d2 + 0x1_0000_0000_0000_0000 * d3);
    DropMultiple(d0, Pow2(n), Pow2(64 - n), h);
  }

  /** Limb i of a product, and 0 above it. */
  function LimbOr0(l: seq<u64>, i: nat): u64 {
    if i < |l| then l[i] else 0
  }

  /** The part of a product from limb k up, when only four limbs or fewer are left there. */
  lemma {:induction false} TopLimbs(l: seq<u64>, k: nat)
    requires |l| == 8 && 4 <= k <= 8
    ensures Shr(Limbs(l), 64 * k) == Val4(LimbOr0(l, k), LimbOr0(l, k + 1), LimbOr0(l, k + 2), LimbOr0(l, k + 3))
  {
    LimbsSplit(l, k);
    DivModUnique(Limbs(l), Pow2(64 * k), Limbs(l[k..]), Limbs(l[..k]));
    hide Pow2, Shr;
    TopValue(l, k);
  }

  lemma {:induction false} TopValue(l: seq<u64>, k: nat)
    requires |l| == 8 && 4 <= k <= 8
    ensures Limbs(l[k..]) == Val4(LimbOr0(l, k), LimbOr0(l, k + 1), LimbOr0(l, k + 2), LimbOr0(l, k + 3))
  {
    LimbsFrom(l, k); LimbsFrom(l, k + 1); LimbsFrom(l, k + 2); LimbsFrom(l, k + 3); LimbsFrom(l, k + 4);
  }

  lemma {:induction false} EightLimbs(l: seq<u64>)
    requires |l| == 8
    ensures Limbs(l) == Val4(l[0], l[1], l[2], l[3]) + TWO256 * Val4(l[4], l[5], l[6], l[7])
  {
    hide Limbs, Val4;
    assert l[0..] == l;
    FourLimbsFrom(l, 0);
    FourLimbsFrom(l, 4);
    LimbsFrom(l, 8);
  }

  lemma {:induction false} FourLimbsFrom(l: seq<u64>, k: nat)
    requires k + 4 <= |l|
    ensures Limbs(l[k..]) == Val4(l[k], l[k + 1], l[k + 2], l[k + 3]) + TWO256 * Limbs(l[k + 4..])
  {
    hide Limbs;
    LimbsFrom(l, k);
    LimbsFrom(l, k + 1);
    LimbsFrom(l, k + 2);
    LimbsFrom(l, k + 3);
  }

  /** The bound that keeps a rounded, shifted product of reduced scalars below N. */
  lemma {:induction false} ShiftedProductFits(x: nat, y: nat, shift: nat)
    requires x < N && y < N && shift >= 256
    ensures Shr(x * y, shift) + 1 < N
  {
    ProductBound(x, y, N - 1, N - 1);
    Pow2Words();
    Pow2Add(256, shift - 256);
    DivDiv(x * y, Pow2(256), Pow2(shift - 256));
    QuotientBound(x * y / TWO256, Pow2(shift - 256));
    hide Pow2;
    assert x * y / TWO256 + 1 < N;
  }

  /** The four limbs of a product from bit `shift` up. */
  method ShiftDown(l: array<u64>, shift: nat) returns (r0: u64, r1: u64, r2: u64, r3: u64)
    requires l.Length == 8 && 256 <= shift <= 512
    ensures Val4(r0, r1, r2, r3) == Shr(Limbs(l[..]), shift)
  {
    hide Pow2, Val4, Limbs, Shr, Shl64;
    var k, low := shift / 64, shift % 64;
    var high := 64 - low;
    ghost var p := l[..];
    ghost var e0, e1, e2, e3 := LimbOr0(p, k), LimbOr0(p, k + 1), LimbOr0(p, k + 2), LimbOr0(p, k + 3);
    ShrZero(low, e1); ShrZero(low, e2); ShrZero(low, e3);
    ShiftVal(e0, e1, e2, e3, low);
    TopLimbs(p, k);
    ShrShr(Limbs(p), 64 * k, low);
    r0 := if shift < 512 then Shr(l[0 + k], low) + (if shift < 448 && low != 0 then Shl64(l[1 + k], high) else 0) else 0;
    r1 := if shift < 448 then Shr(l[1 + k], low) + (if shift < 384 && low != 0 then Shl64(l[2 + k], high) else 0) else 0;
    r2 := if shift < 384 then Shr(l[2 + k], low) + (if shift < 320 && low != 0 then Shl64(l[3 + k], high) else 0) else 0;
    r3 := if shift < 320 then Shr(l[3 + k], low) else 0;
    assert r0 == Shr(e0, low) + Shl64(e1, high);
    assert r1 == Shr(e1, low) + Shl64(e2, high);
    assert r2 == Shr(e2, low) + Shl64(e3, high);
    assert r3 == Shr(e3, low);
  }

  /** r = a * b / 2^shift, rounded to the nearest integer. */
  method MulShiftVar(r: array<u64>, a: array<u64>, b: array<u64>, shift: nat)
    requires r.Length == 4 && a.Length == 4 && b.Length == 4 && 256 <= shift <= 512
    requires Val(a) < N && Val(b) < N
    modifies r
    ensures Val(r) == Shr(old(Val(a)) * old(Val(b)) + Pow2(shift - 1), shift)
  {
    hide Pow2, Limbs, Shr, Mask, Field, Val4;
    ShiftedProductFits(Val(a), Val(b), shift);
    var l := new u64[8];
    Mul512(l, a, b);
    ghost var p := l[..];
    EightLimbs(p);
    RoundingBit(p, shift);
    r[0], r[1], r[2], r[3] := ShiftDown(l, shift);
    var bit := Mask(Shr(l[(shift - 1) / 64], (shift - 1) % 64), 1);
    CaddBit(r, 0, bit == 1);
  }

  lemma {:induction false} RoundingBit(p: seq<u64>, shift: nat)
    requires |p| == 8 && 256 <= shift <= 512
    ensures var bit := Mask(Shr(p[(shift - 1) / 64], (shift - 1) % 64), 1);
      bit <= 1 && Shr(Limbs(p), shift) + bit == Shr(Limbs(p) + Pow2(shift - 1), shift)
    ensures Pow2(0) == 1
  {
    Pow2Small();
    hide Pow2, Limbs, Shr, Mask, Field;
    FieldOfLimb(p, shift - 1, 1);
    RoundShift(Limbs(p), shift);
  }

  lemma {:induction false} ShrShr(v: nat, s: nat, t: nat)
    ensures Shr(v, s + t) == Shr(Shr(v, s), t)
  {
    Pow2Add(s, t);
    DivDiv(v, Pow2(s), Pow2(t));
  }

  /** Nothing comes out of a zero limb, and nothing moves down when the shift is whole limbs. */
  lemma {:induction false} ShrZero(low: nat, e: u64)
    requires low <= 64
    ensures Shr(0, low) == 0 && Shl64(0, 64 - low) == 0 && Shl64(e, 64) == 0
  {
    Pow2Words();
    hide Pow2;
    ModAddMultiple(0, e, TWO64);
  }

  lemma {:induction false} ShiftVal(e0: u64, e1: u64, e2: u64, e3: u64, low: nat)
    requires low < 64
    ensures Shr(e0, low) + Shl64(e1, 64 - low) < TWO64
    ensures Shr(e1, low) + Shl64(e2, 64 - low) < TWO64
    ensures Shr(e2, low) + Shl64(e3, 64 - low) < TWO64
    ensures Val4(Shr(e0, low) + Shl64(e1, 64 - low), Shr(e1, low) + Shl64(e2, 64 - low),
                 Shr(e2, low) + Shl64(e3, 64 - low), Shr(e3, low)) == Shr(Val4(e0, e1, e2, e3), low)
  {
    ShiftLimbs(e0, e1, e2, e3, low);
  }
}
