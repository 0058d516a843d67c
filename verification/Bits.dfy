/** Powers of two, shifts and bit fields of natural numbers. */
module Bits {
  import opened Machine

  /** The `count` bits of v from position `offset` up. */
  ghost function Field(v: nat, offset: nat, count: nat): nat {
    Mask(Shr(v, offset), count)
  }

  lemma {:induction false} Pow2Add(a: nat, b: nat)
    ensures Pow2(a + b) == Pow2(a) * Pow2(b)
  {
    if a > 0 {
      Pow2Add(a - 1, b);
      assert a + b - 1 == a - 1 + b;
    }
  }

  lemma {:induction false} Pow2Monotone(a: nat, b: nat)
    requires a <= b
    ensures Pow2(a) <= Pow2(b)
  {
    Pow2Add(a, b - a);
    Scale(1, Pow2(b - a), Pow2(a));
  }

  lemma {:induction false} Scale(x: int, y: int, k: nat)
    requires x <= y
    ensures k * x <= k * y
  {
  }

  lemma {:induction false} Pow2Split(a: nat, b: nat, x: nat, y: nat)
    requires Pow2(a) == x && Pow2(b) == y
    ensures Pow2(a + b) == x * y
  {
    Pow2Add(a, b);
  }

  lemma {:induction false} Pow2Small()
    ensures Pow2(0) == 1 && Pow2(1) == 2 && Pow2(2) == 4 && Pow2(3) == 8 && Pow2(4) == 16
    ensures Pow2(8) == 0x100 && Pow2(16) == 0x1_0000
  {
    hide Pow2;
    assert Pow2(0) == 1 && Pow2(1) == 2 by { Pow2Unfold(0); }
    Pow2Split(1, 1, 2, 2);
    Pow2Split(1, 2, 2, 4);
    Pow2Split(2, 2, 4, 4);
    Pow2Split(4, 4, 16, 16);
    Pow2Split(8, 8, 0x100, 0x100);
  }

  lemma {:induction false} Pow2Unfold(n: nat)
    ensures Pow2(0) == 1 && Pow2(n + 1) == 2 * Pow2(n)
  {
  }

  lemma {:induction false} Pow2Words()
    ensures Pow2(32) == TWO32 && Pow2(64) == TWO64 && Pow2(128) == TWO128
    ensures Pow2(192) == TWO192 && Pow2(256) == TWO256
  {
    hide Pow2;
    Pow2Small();
    Pow2Split(16, 16, 0x1_0000, 0x1_0000);
    Pow2Split(32, 32, TWO32, TWO32);
    Pow2Split(64, 64, TWO64, TWO64);
    Pow2Split(64, 128, TWO64, TWO128);
    Pow2Split(128, 128, TWO128, TWO128);
  }

  /** Quotient and remainder are determined by their defining equation. */
  lemma {:induction false} DivModUnique(x: int, d: nat, q: int, r: int)
    requires d > 0 && x == d * q + r && 0 <= r < d
    ensures x / d == q && x % d == r
  {
    var q', r' := x / d, x % d;
    assert x == d * q' + r' && 0 <= r' < d;
    var k := q - q';
    assert d * k == r' - r by {
      assert d * k == d * q - d * q';
    }
    assert k >= 1 ==> d * k >= d;
    assert k <= -1 ==> d * k + d <= 0;
  }

  lemma {:induction false} DivDiv(x: nat, a: nat, b: nat)
    requires a > 0 && b > 0
    ensures a * b > 0 && x / (a * b) == (x / a) / b
  {
    var q, r := x / a, x % a;
    var q2, r2 := q / b, q % b;
    assert x == a * q + r && q == b * q2 + r2;
    assert x == (a * b) * q2 + (a * r2 + r) by {
      assert a * (b * q2 + r2) == (a * b) * q2 + a * r2;
    }
    assert a * r2 + r < a * b by {
      Scale(r2 + 1, b, a);
      assert a * (r2 + 1) == a * r2 + a;
    }
    assert a * r2 >= 0;
    DivModUnique(x, a * b, q2, a * r2 + r);
  }

  lemma {:induction false} ModAddMultiple(x: int, k: int, m: nat)
    requires m > 0
    ensures (x + m * k) % m == x % m && (x + m * k) / m == x / m + k
  {
    assert x == m * (x / m) + x % m;
    assert m * (x / m + k) == m * (x / m) + m * k;
    DivModUnique(x + m * k, m, x / m + k, x % m);
  }

  /** v split at bit `at`: lo below it, high from it up. */
  ghost predicate SplitAt(v: nat, at: nat, lo: nat, high: nat) {
    lo < Pow2(at) && v == lo + Pow2(at) * high
  }

  /** Shifting past what lies below a limb and o bits of it leaves the limb, shifted, and what is above it. */
  lemma {:induction false} ShiftToLimb(v: nat, at: nat, width: nat, o: nat, lo: nat, d: nat, h: nat)
    requires SplitAt(v, at, lo, d + Pow2(width) * h) && o <= width
    ensures Shr(v, at + o) == Shr(d, o) + Pow2(width - o) * h
  {
    hide Pow2;
    Pow2Add(at, o);
    Pow2Add(o, width - o);
    var L, T, U := Pow2(at), Pow2(o), Pow2(width - o);
    Associate(T, U, h);
    DivDiv(v, L, T);
    DivModUnique(v, L, d + Pow2(width) * h, lo);
    ModAddMultiple(d, U * h, T);
  }

  /** A field inside one limb. */
  lemma {:induction false} FieldInLimb(v: nat, at: nat, width: nat, o: nat, count: nat, lo: nat, d: nat, h: nat)
    requires SplitAt(v, at, lo, d + Pow2(width) * h) && o + count <= width
    ensures Field(v, at + o, count) == Mask(Shr(d, o), count)
  {
    hide Pow2, SplitAt;
    ShiftToLimb(v, at, width, o, lo, d, h);
    Pow2Add(count, width - o - count);
    DropMultiple(d / Pow2(o), Pow2(count), Pow2(width - o - count), h);
  }

  lemma {:induction false} DropMultiple(q: nat, C: nat, D: nat, h: nat)
    requires C > 0
    ensures (q + (C * D) * h) % C == q % C
  {
    Associate(C, D, h);
    ModAddMultiple(q, D * h, C);
  }

  /** A field across two limbs: the high part of one and the low part of the next, moved up. */
  lemma {:induction false} FieldAcross(v: nat, k: nat, o: nat, count: nat, lo: nat, d: nat, e: u64, h: nat)
    requires SplitAt(v, 64 * k, lo, d + 0x1_0000_0000_0000_0000 * (e + 0x1_0000_0000_0000_0000 * h)) && o <= 64 && count <= 64
    ensures Field(v, 64 * k + o, count) == Mask(Shr(d, o) + Shl64(e, 64 - o), count)
  {
    hide Pow2, SplitAt;
    Pow2Words();
    ShiftToLimb(v, 64 * k, 64, o, lo, d, e + 0x1_0000_0000_0000_0000 * h);
    Pow2Add(count, 64 - count);
    var U, C, D := Pow2(64 - o), Pow2(count), Pow2(64 - count);
    var f := e * U;
    var m := f / TWO64 + U * h;
    assert U * (e + 0x1_0000_0000_0000_0000 * h) == f % TWO64 + 0x1_0000_0000_0000_0000 * m by {
      assert U * (e + 0x1_0000_0000_0000_0000 * h) == f + 0x1_0000_0000_0000_0000 * (U * h);
    }
    assert 0x1_0000_0000_0000_0000 * m == C * (D * m);
    ModAddMultiple(d / Pow2(o) + f % TWO64, D * m, C);
  }

  /** The low bits grow by the field above them. */
  lemma {:induction false} MaskGrows(v: nat, k: nat, count: nat)
    ensures Mask(v, k + count) == Mask(v, k) + Pow2(k) * Field(v, k, count)
  {
    hide Pow2;
    Pow2Add(k, count);
    var p, c := Pow2(k), Pow2(count);
    var q := v / p;
    SplitTwice(v, p, c, q, q / c, v % p, q % c);
    DivModUnique(v, p * c, q / c, v % p + p * (q % c));
  }

  lemma {:induction false} SplitTwice(v: nat, p: nat, c: nat, q: nat, q2: nat, r: nat, r2: nat)
    requires v == p * q + r && q == c * q2 + r2 && 0 <= r < p && 0 <= r2 < c
    ensures v == (p * c) * q2 + (r + p * r2) && 0 <= r + p * r2 < p * c
  {
    Associate(p, c, q2);
    Distribute(p, c * q2, r2);
    Scale(r2 + 1, c, p);
    Distribute(p, r2, 1);
  }

  lemma {:induction false} Distribute(p: int, x: int, y: int)
    ensures p * (x + y) == p * x + p * y
  {
  }

  /** The number that a row of 64-bit limbs stands for, least significant first. */
  ghost function Limbs(l: seq<u64>): nat {
    if l == [] then 0 else l[0] + 0x1_0000_0000_0000_0000 * Limbs(l[1..])
  }

  lemma {:induction false} LimbsFrom(l: seq<u64>, k: nat)
    ensures k < |l| ==> Limbs(l[k..]) == l[k] + 0x1_0000_0000_0000_0000 * Limbs(l[k + 1..])
    ensures k == |l| ==> Limbs(l[k..]) == 0
  {
    if k < |l| {
      assert l[k..][1..] == l[k + 1..];
    }
  }

  lemma {:induction false} LimbsSplit(l: seq<u64>, k: nat)
    requires k <= |l|
    ensures SplitAt(Limbs(l), 64 * k, Limbs(l[..k]), Limbs(l[k..]))
  {
    hide Pow2, Limbs;
    if k == 0 {
      assert l[k..] == l;
      Pow2Unfold(0);
      LimbsNone();
    } else {
      LimbsSplit(l[1..], k - 1);
      assert l[1..][..k - 1] == l[..k][1..] && l[1..][k - 1..] == l[k..];
      LimbsHead(l);
      LimbsHead(l[..k]);
      Pow2Words();
      Pow2Split(64, 64 * (k - 1), TWO64, Pow2(64 * (k - 1)));
      assert 64 + 64 * (k - 1) == 64 * k;
      LowestLimb(l[0], Limbs(l[..k][1..]), Pow2(64 * (k - 1)), Limbs(l[k..]));
    }
  }

  lemma {:induction false} LimbsNone()
    ensures Limbs([]) == 0
  {
  }

  lemma {:induction false} LimbsHead(l: seq<u64>)
    requires l != []
    ensures Limbs(l) == l[0] + 0x1_0000_0000_0000_0000 * Limbs(l[1..])
  {
  }

  lemma {:induction false} LowestLimb(d: u64, lo: nat, p: nat, h: nat)
    requires lo < p
    ensures d + 0x1_0000_0000_0000_0000 * lo < TWO64 * p
    ensures d + 0x1_0000_0000_0000_0000 * (lo + p * h) == d + 0x1_0000_0000_0000_0000 * lo + (TWO64 * p) * h
  {
    Associate(TWO64, p, h);
  }

  lemma {:induction false} LimbAt(l: seq<u64>, k: nat)
    requires k < |l|
    ensures SplitAt(Limbs(l), 64 * k, Limbs(l[..k]), l[k] + 0x1_0000_0000_0000_0000 * Limbs(l[k + 1..]))
  {
    hide SplitAt, Limbs;
    LimbsSplit(l, k);
    LimbsFrom(l, k);
  }

  /** A bit field that lies within one limb. */
  lemma {:induction false} FieldOfLimb(l: seq<u64>, offset: nat, count: nat)
    requires offset < 64 * |l| && offset % 64 + count <= 64
    ensures Field(Limbs(l), offset, count) == Mask(Shr(l[offset / 64], offset % 64), count)
  {
    hide Pow2, Field, SplitAt, Limbs, Mask, Shr;
    var k := offset / 64;
    LimbAt(l, k);
    Pow2Words();
    FieldInLimb(Limbs(l), 64 * k, 64, offset % 64, count, Limbs(l[..k]), l[k], Limbs(l[k + 1..]));
  }

  /** A bit field that starts in one limb and may end in the next. */
  lemma {:induction false} FieldOfTwo(l: seq<u64>, offset: nat, count: nat)
    requires offset + 64 < 64 * |l| && count <= 64
    ensures Field(Limbs(l), offset, count)
         == Mask(Shr(l[offset / 64], offset % 64) + Shl64(l[offset / 64 + 1], 64 - offset % 64), count)
  {
    hide Pow2, Field, SplitAt, Limbs, Mask, Shr;
    var k := offset / 64;
    LimbsFrom(l, k + 1);
    LimbAt(l, k);
    FieldAcross(Limbs(l), k, offset % 64, count, Limbs(l[..k]), l[k], l[k + 1], Limbs(l[k + 2..]));
  }

  lemma {:induction false} MaskZero(v: nat)
    ensures Mask(v, 0) == 0
  {
    DivModUnique(v, 1, v, 0);
  }

  lemma {:induction false} MaskSmall(v: nat, k: nat)
    requires v < Pow2(k)
    ensures Mask(v, k) == v
  {
    DivModUnique(v, Pow2(k), 0, v);
  }

  /** Rounding to nearest: the shifted number plus the highest bit shifted out. */
  lemma {:induction false} RoundShift(v: nat, k: nat)
    requires k > 0
    ensures Shr(v, k) + Field(v, k - 1, 1) == Shr(v + Pow2(k - 1), k)
  {
    hide Pow2;
    Pow2Unfold(k - 1);
    Pow2Unfold(0);
    RoundHalf(v, Pow2(k - 1), Pow2(k), Pow2(1));
  }

  lemma {:induction false} RoundHalf(v: nat, h: nat, d: nat, two: nat)
    requires h > 0 && d == h * 2 && two == 2
    ensures v / d + (v / h) % two == (v + h) / d
  {
    DivDiv(v, h, 2);
    DivDiv(v + h, h, 2);
    ModAddMultiple(v, 1, h);
  }

  /** Shifting a number of four limbs right by fewer than 64 bits, limb by limb. */
  lemma {:induction false} ShiftLimbs(d0: nat, d1: nat, d2: nat, d3: nat, s: nat)
    requires d0 < TWO64 && d1 < TWO64 && d2 < TWO64 && d3 < TWO64 && s <= 64
    ensures var T, U := Pow2(s), Pow2(64 - s);
      Val4(d0 / T + (d1 * U) % TWO64, d1 / T + (d2 * U) % TWO64, d2 / T + (d3 * U) % TWO64, d3 / T) == Val4(d0, d1, d2, d3) / T
    ensures d0 / Pow2(s) + (d1 * Pow2(64 - s)) % TWO64 < TWO64
    ensures d1 / Pow2(s) + (d2 * Pow2(64 - s)) % TWO64 < TWO64
    ensures d2 / Pow2(s) + (d3 * Pow2(64 - s)) % TWO64 < TWO64
  {
    hide Pow2;
    Pow2Add(s, 64 - s);
    Pow2Words();
    var T, U := Pow2(s), Pow2(64 - s);
    LimbParts(d0, d1, T, U);
    LimbParts(d1, d2, T, U);
    LimbParts(d2, d3, T, U);
    LimbParts(d3, 0, T, U);
    var h0, h1, h2, h3 := d0 / T, d1 / T, d2 / T, d3 / T;
    var g0, g1, g2, g3 := d0 % T, d1 % T, d2 % T, d3 % T;
    Recombine(T, U, h0, h1, h2, h3, g1, g2, g3);
    DivModUnique(Val4(d0, d1, d2, d3), T, Val4(h0 + U * g1, h1 + U * g2, h2 + U * g3, h3), g0);
  }

  lemma {:induction false} Recombine(T: int, U: int, h0: int, h1: int, h2: int, h3: int, g1: int, g2: int, g3: int)
    requires T * U == TWO64
    ensures T * Val4(h0 + U * g1, h1 + U * g2, h2 + U * g3, h3) == Val4(T * h0, T * h1 + g1, T * h2 + g2, T * h3 + g3)
  {
    Associate(T, U, g1);
    Associate(T, U, g2);
    Associate(T, U, g3);
    DistributeLimbs(T, h0, h1, h2, h3, U * g1, U * g2, U * g3);
  }

  lemma {:induction false} Associate(x: int, y: int, z: int)
    ensures x * (y * z) == (x * y) * z
  {
  }

  lemma {:induction false} LimbParts(d: nat, e: nat, T: nat, U: nat)
    requires T > 0 && T * U == TWO64 && d < TWO64
    ensures d == T * (d / T) + d % T
    ensures (e * U) % TWO64 == U * (e % T)
    ensures d / T + U * (e % T) < TWO64
  {
    assert e == T * (e / T) + e % T;
    assert e * U == 0x1_0000_0000_0000_0000 * (e / T) + U * (e % T) by {
      assert (T * (e / T)) * U == (T * U) * (e / T);
    }
    assert U * (e % T) + U <= TWO64 by {
      Scale(e % T + 1, T, U);
    }
    assert U > 0;
    DivModUnique(e * U, TWO64, e / T, U * (e % T));
    assert d / T < U by {
      if d / T >= U {
        Scale(U, d / T, T);
      }
    }
  }

  lemma {:induction false} DistributeLimbs(T: int, h0: int, h1: int, h2: int, h3: int, u1: int, u2: int, u3: int)
    ensures T * Val4(h0 + u1, h1 + u2, h2 + u3, h3) == Val4(T * h0 + T * u1, T * h1 + T * u2, T * h2 + T * u3, T * h3)
  {
  }
}
