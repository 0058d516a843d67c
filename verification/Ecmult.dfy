/** Simultaneous multiplication na*A + ng*G (ecmult_impl.h): interleaved double-and-add over four
    wNAF forms, the two lambda halves of na and the two 128-bit halves of ng. */
module Ecmult {
  import opened Machine
  import opened Bits
  import opened Congruence
  import opened ScalarMul
  import opened Scalar
  import opened ScalarSplit
  import opened Wnaf
  import opened Points

  const WINDOW_A: nat := 5
  const WINDOW_G: nat := 15

  /** ECMULT_TABLE_SIZE: the number of odd multiples below 2^(w-1). */
  function TableSize(w: nat): (n: nat)
    requires w >= 2
    ensures n >= 1
  {
    Pow2(w - 2)
  }

  /** A table of the odd multiples p, 3p, 5p, ... */
  ghost predicate OddMultiples(t: seq<Point>, p: Point) {
    forall i :: 0 <= i < |t| ==> t[i] == Times(2 * i + 1, p)
  }

  method OddMultiplesTable(n: nat, prej: array<Point>, a: Point)
    requires prej.Length == n && n >= 1
    modifies prej
    ensures OddMultiples(prej[..], a)
  {
    var d := Double(a);
    prej[0] := a;
    for i := 1 to n
      invariant forall j :: 0 <= j < i ==> prej[j] == Times(2 * j + 1, a)
    {
      prej[i] := Plus(prej[i - 1], d);
      NextOdd(i, a);
    }
  }

  lemma {:induction false} NextOdd(i: int, p: Point)
    ensures Plus(Times(2 * (i - 1) + 1, p), Double(p)) == Times(2 * i + 1, p)
  {
    TimesTwice(1, p);
    TimesSum(2 * (i - 1) + 1, 2, p);
  }

  /** A freshly allocated table of the odd multiples of a. */
  method StoredTable(n: nat, a: Point) returns (pre: array<Point>)
    requires n >= 1
    ensures fresh(pre) && pre.Length == n && OddMultiples(pre[..], a)
  {
    pre := new Point[n](_ => INFINITY);
    OddMultiplesTable(n, pre, a);
  }

  /** 2^128 * p by 128 doublings. */
  method Doubled128(p: Point) returns (r: Point)
    ensures r == Times(TWO128, p)
  {
    hide Pow2;
    r := p;
    TimesTwice(1, p);
    Pow2Unfold(0);
    for i := 0 to 128
      invariant r == Times(Pow2(i), p)
    {
      TimesTwice(Pow2(i), p);
      Pow2Unfold(i);
      r := Double(r);
    }
    Pow2Words();
  }

  /** ECMULT_TABLE_GET_GE: the multiple of p for an odd, possibly negative digit. */
  method TableGet(pre: array<Point>, n: int, w: nat, ghost p: Point) returns (r: Point)
    requires w >= 2 && pre.Length == TableSize(w) && OddMultiples(pre[..], p)
    requires n % 2 == 1 && Abs(n) < Pow2(w - 1)
    ensures r == Times(n, p)
  {
    hide Pow2, Times, Neg;
    Pow2Unfold(w - 2);
    if n > 0 {
      OddIndex(n, Pow2(w - 2));
      r := pre[(n - 1) / 2];
      assert r == pre[..][(n - 1) / 2];
    } else {
      OddIndex(-n, Pow2(w - 2));
      r := Neg(pre[(-n - 1) / 2]);
      assert pre[(-n - 1) / 2] == pre[..][(-n - 1) / 2];
      TimesSum(0, -n, p);
    }
  }

  lemma {:induction false} OddIndex(n: int, half: nat)
    requires n % 2 == 1 && 0 < n < 2 * half
    ensures 0 <= (n - 1) / 2 < half && 2 * ((n - 1) / 2) + 1 == n
  {
  }

  /** The precomputed odd multiples of G and of 2^128 * G. */
  class EcmultContext {
    var preG: array?<Point>
    var preG128: array?<Point>

    ghost predicate Built()
      reads this, preG, preG128
    {
      && preG != null && preG128 != null
      && preG.Length == TableSize(WINDOW_G) && OddMultiples(preG[..], BASE_G)
      && preG128.Length == TableSize(WINDOW_G) && OddMultiples(preG128[..], Times(TWO128, BASE_G))
    }

    constructor ()
      ensures preG == null && preG128 == null
    {
      preG, preG128 := null, null;
    }

    method Build()
      requires preG != null ==> Built()
      modifies this
      ensures Built()
      ensures old(preG) != null ==> preG == old(preG) && preG128 == old(preG128)
    {
      if preG != null {
        return;
      }
      hide OddMultiples, TableSize, Times;
      var g := StoredTable(TableSize(WINDOW_G), BASE_G);
      var g128j := Doubled128(BASE_G);
      var g128 := StoredTable(TableSize(WINDOW_G), g128j);
      preG, preG128 := g, g128;
    }
  }

  /** The digits from position i up, and 0 past the end. */
  ghost function From(d: seq<int>, i: nat): int {
    if i <= |d| then Sum(d[i..]) else 0
  }

  function DigitAt(d: seq<int>, bits: nat, i: nat): int
    requires bits <= |d|
  {
    if i < bits then d[i] else 0
  }

  lemma {:induction false} FromStep(d: seq<int>, bits: nat, i: nat)
    requires bits <= |d| && forall j :: bits <= j < |d| ==> d[j] == 0
    ensures From(d, i) == 2 * From(d, i + 1) + DigitAt(d, bits, i)
    ensures i >= bits ==> From(d, i) == 0
    ensures From(d, 0) == Sum(d)
  {
    assert d[0..] == d;
    if i < |d| {
      assert d[i..][1..] == d[i + 1..];
    }
    if bits <= i <= |d| {
      SumZeros(d[i..]);
    }
  }

  /** One step of the loop for one of the four forms: add the digit's multiple, if there is a digit. */
  method AddDigit(r: Point, wnaf: array<int>, bits: nat, i: nat, pre: array<Point>, w: nat,
                  ghost p: Point) returns (r': Point)
    requires bits <= wnaf.Length && w >= 2
    requires pre.Length == TableSize(w) && OddMultiples(pre[..], p)
    requires WindowDigits(wnaf[..], w)
    ensures r' == Plus(r, Times(DigitAt(wnaf[..], bits, i), p))
  {
    r' := r;
    if i < bits {
      var n := wnaf[i];
      if n != 0 {
        assert n == wnaf[..][i];
        var tmp := TableGet(pre, n, w, p);
        r' := Plus(r', tmp);
      }
    }
  }

  /** A combination of A and G, as the loop builds it. */
  ghost function Combination(x: int, a: Point, y: int): Point {
    Plus(Times(x, a), Times(y, BASE_G))
  }

  /** One double-and-add step on a combination. */
  lemma {:induction false} CombinationStep(x: int, y: int, a: Point, d1: int, d2: int, e1: int, e2: int)
    ensures Plus(Plus(Plus(Plus(Double(Combination(x, a, y)), Times(d1, a)), Times(d2, Times(LAMBDA, a))),
                      Times(e1, BASE_G)), Times(e2, Times(TWO128, BASE_G)))
         == Combination(2 * x + d1 + LAMBDA * d2, a, 2 * y + e1 + TWO128 * e2)
  {
    TimesTimes(d2, LAMBDA, a);
    TimesTimes(e2, TWO128, BASE_G);
    StepCoefficient(x, d1, d2, LAMBDA, a.a);
    StepCoefficient(x, d1, d2, LAMBDA, a.g);
    StepCoefficient(x, d1, d2, LAMBDA, a.u);
  }

  lemma {:induction false} StepCoefficient(x: int, d: int, e: int, l: int, c: int)
    ensures (2 * x + d + l * e) * c == 2 * (x * c) + d * c + (e * l) * c
  {
  }

  /** The form of a scalar that is short, or unsigned and below 2^(len-1), sums to its signed value. */
  lemma {:induction false} FormIsExact(v: nat, len: nat, sum: int, carryOut: int)
    requires len >= 1 && Abs(Signed(v)) < Pow2(len - 1)
    requires Recoded(Abs(Signed(v)), len, if Signed(v) < 0 then -sum else sum, carryOut)
    ensures sum == Signed(v) && Cong(sum, v, N)
  {
    NoCarryOut(Abs(Signed(v)), len, if Signed(v) < 0 then -sum else sum, carryOut);
    CongFromMultiple(Signed(v), v, N, if Signed(v) == v then 0 else -1);
  }

  lemma {:induction false} ShortFits(v: int)
    requires Short(v)
    ensures Abs(Signed(v)) < Pow2(128) && Pow2(128) <= Pow2(129)
    ensures 0 <= v < TWO128 ==> Signed(v) == v
  {
    hide Pow2;
    Pow2Words();
    Pow2Monotone(128, 129);
  }

  /** The wNAF form of a short scalar, exactly. */
  method ShortWnaf(wnaf: array<int>, len: nat, a: array<u64>, w: nat) returns (bits: int)
    requires wnaf.Length == len && 129 <= len <= 256 && a.Length == 4 && 2 <= w <= 31
    requires Short(Val(a))
    modifies wnaf
    ensures 0 <= bits <= len
    ensures forall i :: bits <= i < len ==> wnaf[i] == 0
    ensures WindowDigits(wnaf[..], w)
    ensures Sum(wnaf[..]) == Signed(Val(a)) && Cong(Sum(wnaf[..]), Val(a), N)
  {
    hide Val4, Pow2, Recoded, WindowDigits, Sum, Cong;
    ghost var c;
    ShortFits(Val(a));
    Pow2Monotone(128, len - 1);
    bits, c := EcmultWnaf(wnaf, len, a, w);
    FormIsExact(Val(a), len, Sum(wnaf[..]), c);
  }

  /** The lambda multiples of a table. */
  method LambdaTable(pre: array<Point>, lam: array<Point>, ghost a: Point)
    requires pre.Length == lam.Length && pre != lam && OddMultiples(pre[..], a)
    modifies lam
    ensures OddMultiples(lam[..], Times(LAMBDA, a))
  {
    for i := 0 to pre.Length
      invariant forall j :: 0 <= j < i ==> lam[j] == Times(2 * j + 1, Times(LAMBDA, a))
      invariant OddMultiples(pre[..], a)
    {
      assert pre[i] == pre[..][i];
      TimesTimes(LAMBDA, 2 * i + 1, a);
      TimesTimes(2 * i + 1, LAMBDA, a);
      lam[i] := Times(LAMBDA, pre[i]);
    }
  }

  /** The double-and-add loop over the four forms. */
  method StraussLoop(ctx: EcmultContext, preA: array<Point>, preALam: array<Point>, ghost a: Point, bits: nat,
                     w1: array<int>, bits1: nat, wLam: array<int>, bitsLam: nat,
                     g1: array<int>, bitsG1: nat, g128: array<int>, bitsG128: nat) returns (r: Point)
    requires ctx.Built()
    requires preA.Length == preALam.Length == TableSize(WINDOW_A)
    requires OddMultiples(preA[..], a) && OddMultiples(preALam[..], Times(LAMBDA, a))
    requires bits1 <= w1.Length && bitsLam <= wLam.Length && bitsG1 <= g1.Length && bitsG128 <= g128.Length
    requires bits1 <= bits && bitsLam <= bits && bitsG1 <= bits && bitsG128 <= bits
    requires WindowDigits(w1[..], WINDOW_A) && WindowDigits(wLam[..], WINDOW_A)
    requires WindowDigits(g1[..], WINDOW_G) && WindowDigits(g128[..], WINDOW_G)
    requires forall i :: bits1 <= i < w1.Length ==> w1[i] == 0
    requires forall i :: bitsLam <= i < wLam.Length ==> wLam[i] == 0
    requires forall i :: bitsG1 <= i < g1.Length ==> g1[i] == 0
    requires forall i :: bitsG128 <= i < g128.Length ==> g128[i] == 0
    ensures r == Combination(Sum(w1[..]) + LAMBDA * Sum(wLam[..]), a, Sum(g1[..]) + TWO128 * Sum(g128[..]))
  {
    hide WindowDigits, OddMultiples, TableSize, Combination, From, Sum, Times;
    ghost var d1, dLam, e1, e128 := w1[..], wLam[..], g1[..], g128[..];
    r := INFINITY;
    var i := bits;
    AllFrom(d1, bits1, i); AllFrom(dLam, bitsLam, i); AllFrom(e1, bitsG1, i); AllFrom(e128, bitsG128, i);
    NoCombination(a);
    while i > 0
      invariant 0 <= i <= bits
      invariant r == Combination(From(d1, i) + LAMBDA * From(dLam, i), a, From(e1, i) + TWO128 * From(e128, i))
    {
      i := i - 1;
      FromStep(d1, bits1, i); FromStep(dLam, bitsLam, i); FromStep(e1, bitsG1, i); FromStep(e128, bitsG128, i);
      CombinationStep(From(d1, i + 1) + LAMBDA * From(dLam, i + 1), From(e1, i + 1) + TWO128 * From(e128, i + 1), a,
                      DigitAt(d1, bits1, i), DigitAt(dLam, bitsLam, i), DigitAt(e1, bitsG1, i), DigitAt(e128, bitsG128, i));
      r := Double(r);
      r := AddDigit(r, w1, bits1, i, preA, WINDOW_A, a);
      r := AddDigit(r, wLam, bitsLam, i, preALam, WINDOW_A, Times(LAMBDA, a));
      r := AddDigit(r, g1, bitsG1, i, ctx.preG, WINDOW_G, BASE_G);
      r := AddDigit(r, g128, bitsG128, i, ctx.preG128, WINDOW_G, Times(TWO128, BASE_G));
    }
    AllFrom(d1, bits1, 0); AllFrom(dLam, bitsLam, 0); AllFrom(e1, bitsG1, 0); AllFrom(e128, bitsG128, 0);
  }

  lemma {:induction false} AllFrom(d: seq<int>, bits: nat, i: nat)
    requires bits <= |d| && forall j :: bits <= j < |d| ==> d[j] == 0
    ensures i >= bits ==> From(d, i) == 0
    ensures From(d, 0) == Sum(d)
  {
    FromStep(d, bits, i);
  }

  lemma {:induction false} NoCombination(a: Point)
    ensures Combination(0, a, 0) == INFINITY
  {
  }

  /** A wNAF form as the loop uses it: window digits, none at or above `bits`. */
  ghost predicate IsForm(d: seq<int>, bits: int, w: nat)
    requires w >= 1
  {
    0 <= bits <= |d| && WindowDigits(d, w) && forall i :: bits <= i < |d| ==> d[i] == 0
  }

  /** Splits na with the endomorphism and recodes both halves. */
  method FormsOfNa(na: array<u64>) returns (wnaf1: array<int>, bits1: int, wnafLam: array<int>, bitsLam: int)
    requires na.Length == 4 && Val(na) < N
    ensures fresh(wnaf1) && fresh(wnafLam) && wnaf1.Length == wnafLam.Length == 130
    ensures IsForm(wnaf1[..], bits1, WINDOW_A) && IsForm(wnafLam[..], bitsLam, WINDOW_A)
    ensures Cong(Sum(wnaf1[..]) + LAMBDA * Sum(wnafLam[..]), Val(na), N)
  {
    hide Val4, Cong, Short, WindowDigits, Sum;
    var na1, naLam := new u64[4], new u64[4];
    SplitLambda(na1, naLam, na);
    wnaf1, wnafLam := new int[130], new int[130];
    bits1 := ShortWnaf(wnaf1, 130, na1, WINDOW_A);
    bitsLam := ShortWnaf(wnafLam, 130, naLam, WINDOW_A);
    HalvesRecombine(Sum(wnaf1[..]), Sum(wnafLam[..]), Val(na1), Val(naLam), Val(na));
  }

  lemma {:induction false} HalvesRecombine(x1: int, xLam: int, n1: int, nLam: int, na: int)
    requires Cong(x1, n1, N) && Cong(xLam, nLam, N) && Cong(n1 + LAMBDA * nLam, na, N)
    ensures Cong(x1 + LAMBDA * xLam, na, N)
  {
    hide Cong;
    CongRefl(LAMBDA, N);
    CongMul(LAMBDA, LAMBDA, xLam, nLam, N);
    CongAdd(x1, n1, LAMBDA * xLam, LAMBDA * nLam, N);
    CongTrans(x1 + LAMBDA * xLam, n1 + LAMBDA * nLam, na, N);
  }

  /** Splits ng at bit 128 and recodes both halves. */
  method FormsOfNg(ng: array<u64>) returns (wnaf1: array<int>, bits1: int, wnaf128: array<int>, bits128: int)
    requires ng.Length == 4 && Val(ng) < N
    ensures fresh(wnaf1) && fresh(wnaf128) && wnaf1.Length == wnaf128.Length == 129
    ensures IsForm(wnaf1[..], bits1, WINDOW_G) && IsForm(wnaf128[..], bits128, WINDOW_G)
    ensures Sum(wnaf1[..]) + TWO128 * Sum(wnaf128[..]) == Val(ng)
  {
    hide Val4, Cong, Short, WindowDigits, Sum;
    var ng1, ng128 := new u64[4], new u64[4];
    Split128(ng1, ng128, ng);
    ShortHalf(Val(ng1));
    ShortHalf(Val(ng128));
    wnaf1, wnaf128 := new int[129], new int[129];
    bits1 := ShortWnaf(wnaf1, 129, ng1, WINDOW_G);
    bits128 := ShortWnaf(wnaf128, 129, ng128, WINDOW_G);
  }

  /** r = na*A + ng*G. */
  method Multiply(ctx: EcmultContext, a: Point, na: array<u64>, ng: array<u64>) returns (r: Point)
    requires ctx.Built()
    requires na.Length == 4 && ng.Length == 4 && Val(na) < N && Val(ng) < N
    ensures Same(r, Plus(Times(Val(na), a), Times(Val(ng), BASE_G)))
  {
    hide Val4, Cong, Same, WindowDigits, OddMultiples, TableSize, Sum, Times;
    var wnaf1, bits1, wnafLam, bitsLam := FormsOfNa(na);
    var bits := bits1;
    if bitsLam > bits {
      bits := bitsLam;
    }
    var preA := StoredTable(TableSize(WINDOW_A), a);
    var preALam := new Point[preA.Length](_ => INFINITY);
    LambdaTable(preA, preALam, a);
    var wnafG1, bitsG1, wnafG128, bitsG128 := FormsOfNg(ng);
    if bitsG1 > bits {
      bits := bitsG1;
    }
    if bitsG128 > bits {
      bits := bitsG128;
    }
    r := StraussLoop(ctx, preA, preALam, a, bits, wnaf1, bits1, wnafLam, bitsLam, wnafG1, bitsG1, wnafG128, bitsG128);
    SameMultiples(Sum(wnaf1[..]) + LAMBDA * Sum(wnafLam[..]), Val(na), a);
    SameRefl(Times(Val(ng), BASE_G));
    SamePlus(Times(Sum(wnaf1[..]) + LAMBDA * Sum(wnafLam[..]), a), Times(Val(na), a),
             Times(Val(ng), BASE_G), Times(Val(ng), BASE_G));
  }

  lemma {:induction false} ShortHalf(v: nat)
    requires v < TWO128
    ensures Short(v) && Signed(v) == v
  {
  }
}
