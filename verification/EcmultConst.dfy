/** Constant-time multiplication q*A (ecmult_const_impl.h): a signed-digit form with every digit odd,
    which exists only for odd numbers, so the scalar is skewed by 1 or 2 first and the result corrected. */
module EcmultConst {
  import opened Machine
  import opened Bits
  import opened Congruence
  import opened ScalarMul
  import opened Scalar
  import opened ScalarSplit
  import opened Points
  import opened Ecmult
  import W = Wnaf

  const WNAF_BITS: nat := 128

  /** WNAF_SIZE: the number of words of w bits in WNAF_BITS bits. */
  function WnafSize(w: nat): (n: nat)
    requires w >= 1
  {
    (WNAF_BITS + w - 1) / w
  }

  /** The number that digits in base 2^w stand for, least significant first. */
  ghost function SumW(d: seq<int>, w: nat): int {
    if d == [] then 0 else d[0] + Pow2(w) * SumW(d[1..], w)
  }

  lemma {:induction false} SumWAppend(d: seq<int>, x: int, w: nat)
    ensures SumW(d + [x], w) == SumW(d, w) + Pow2(w * |d|) * x
  {
    hide SumW, Pow2;
    if d == [] {
      assert [x][1..] == [] && d + [x] == [x];
      SumWHead([x], w);
      SumWNone(w);
    } else {
      SumWAppend(d[1..], x, w);
      assert (d + [x])[1..] == d[1..] + [x];
      Pow2Add(w, w * (|d| - 1));
      assert w + w * (|d| - 1) == w * |d|;
      AppendStep(Pow2(w), SumW(d[1..], w), Pow2(w * (|d| - 1)), x);
      SumWHead(d, w);
      SumWHead(d + [x], w);
    }
  }

  lemma {:induction false} SumWNone(w: nat)
    ensures SumW([], w) == 0 && w * 0 == 0 && Pow2(0) == 1
  {
  }

  lemma {:induction false} SumWHead(d: seq<int>, w: nat)
    requires d != []
    ensures SumW(d, w) == d[0] + Pow2(w) * SumW(d[1..], w)
  {
  }

  lemma {:induction false} AppendStep(p: int, s: int, q: int, x: int)
    ensures p * (s + q * x) == p * s + (p * q) * x
  {
  }

  /** Every digit is odd, and below 2^w in absolute value. */
  ghost predicate OddDigits(d: seq<int>, w: nat) {
    forall i :: 0 <= i < |d| ==> d[i] % 2 == 1 && W.Abs(d[i]) < Pow2(w)
  }

  /** The digits written so far sum to `sum`; p = 2^(w*word), base = 2^w, last is the word in hand
      and s what is left above it. */
  ghost function Total(sum: int, p: int, base: int, last: int, s: int): int {
    sum + p * last + (p * base) * s
  }

  /** Taking the next word u and making the one in hand odd keeps the total. */
  lemma {:induction false} TotalStep(sum: int, p: int, base: int, last: int, u: int, rest: int, even: int)
    ensures Total(sum + p * (last - even * base), p * base, base, u + even, rest)
         == Total(sum, p, base, last, u + base * rest)
  {
    Expand(p, base, last, u, rest, even);
  }

  lemma {:induction false} Expand(p: int, base: int, last: int, u: int, s: int, even: int)
    ensures p * (last - even * base) == p * last - even * (p * base)
    ensures (p * base) * (u + base * s) == (p * base) * u + ((p * base) * base) * s
    ensures (p * base) * (u + even) == (p * base) * u + even * (p * base)
  {
  }

  /** Which number is recoded: the scalar plus 1 or 2, made odd and, for scalars above half the order,
      negated. For -1, to which 2 cannot be added without overflow, it is 1. */
  lemma {:induction false} Skewed(v: int, flip: bool, bit: int, notNegOne: bool, s1: int, s: int, sign: int)
    requires Short(v)
    requires flip <==> 2 * v > N
    requires bit == if flip == (v % 2 == 0) then 1 else 0
    requires notNegOne <==> v != N - 1
    requires s1 == v + (if notNegOne then bit + 1 else 0) && s1 < N
    requires s == if flip then N - s1 else s1
    requires sign == (if flip then -1 else 1) * (if notNegOne then 1 else -1)
    ensures s % 2 == 1 && 0 < s < 2 * TWO128
    ensures Cong(sign * s, v + bit + 1, N)
  {
    hide Cong;
    SkewParity(v, flip, bit);
    if flip {
      assert (N - s1) % 2 == 1 - s1 % 2;
    }
    CongFromMultiple(sign * s, v + bit + 1, N, if flip then -1 else 0);
  }

  lemma {:induction false} SkewParity(v: int, flip: bool, bit: int)
    requires bit == if flip == (v % 2 == 0) then 1 else 0
    ensures (v + bit + 1) % 2 == if flip then 0 else 1
  {
  }

  /** The sign and parity adjustments at the head of wnaf_const. */
  method SkewAndSign(s: array<u64>) returns (globalSign: int, skew: int)
    requires s.Length == 4 && Short(Val(s))
    modifies s
    ensures Val(s) % 2 == 1 && 0 < Val(s) < 2 * TWO128
    ensures globalSign == 1 || globalSign == -1
    ensures skew == 1 || skew == 2
    ensures Cong(globalSign * Val(s), old(Val(s)) + skew, N)
  {
    hide Val4, Cong, Pow2;
    Pow2Unfold(0);
    ghost var v := Val(s);
    var flip := IsHigh(s);
    var even := IsEven(s);
    var bit := if flip == even then 1 else 0;
    var negS := new u64[4];
    Negate(negS, s);
    var negOne := IsOne(negS);
    var notNegOne := !negOne;
    CaddBit(s, bit, notNegOne);
    ghost var s1 := Val(s);
    globalSign := CondNegate(s, flip);
    globalSign := globalSign * ((if notNegOne then 1 else 0) * 2 - 1);
    skew := if bit == 1 then 2 else 1;
    Skewed(v, flip, bit, notNegOne, s1, Val(s), globalSign);
  }

  /** The loop's invariant: the digits written, the word in hand and the rest of s make up the total. */
  ghost predicate Remaining(total: nat, d: seq<int>, w: nat, sign: int, last: int, s: int) {
    Total(sign * SumW(d, w), Pow2(w * |d|), Pow2(w), last, s) == total && s == Shr(total, w * (|d| + 1))
  }

  lemma {:induction false} StartRemaining(total: nat, w: nat, sign: int)
    ensures Remaining(total, [], w, sign, Mask(total, w), Shr(total, w))
  {
    assert total == Pow2(w) * (total / Pow2(w)) + total % Pow2(w);
  }

  /** One word: u is the low word of what is left of s. */
  lemma {:induction false} NextRemaining(total: nat, d: seq<int>, w: nat, sign: int, last: int, s: nat, even: int)
    requires Remaining(total, d, w, sign, last, s) && (sign == 1 || sign == -1)
    ensures Remaining(total, d + [(last - even * Pow2(w)) * sign], w, sign, Mask(s, w) + even, Shr(s, w))
  {
    var p, base, u, rest := Pow2(w * |d|), Pow2(w), Mask(s, w), Shr(s, w);
    LowAndRest(s, w);
    hide SumW, Pow2, Total, Mask, Shr;
    var x := last - even * base;
    NextSum(d, sign, x, w);
    Reindex(w, |d|);
    TotalStep(sign * SumW(d, w), p, base, last, u, rest, even);
    ShrShr(total, w * (|d| + 1), w);
  }

  lemma {:induction false} NextSum(d: seq<int>, sign: int, x: int, w: nat)
    requires sign == 1 || sign == -1
    ensures var d' := d + [x * sign];
      sign * SumW(d', w) == sign * SumW(d, w) + Pow2(w * |d|) * x && |d'| == |d| + 1
      && Pow2(w * |d'|) == Pow2(w * |d|) * Pow2(w)
  {
    hide SumW, Pow2;
    SumWAppend(d, x * sign, w);
    SignTimes(sign, SumW(d, w), Pow2(w * |d|), x);
    Pow2Add(w * |d|, w);
    Reindex(w, |d|);
  }

  lemma {:induction false} LowAndRest(s: nat, w: nat)
    ensures s == Mask(s, w) + Pow2(w) * Shr(s, w)
  {
    assert s == Pow2(w) * (s / Pow2(w)) + s % Pow2(w);
  }

  lemma {:induction false} Reindex(w: nat, n: nat)
    ensures w * n + w == w * (n + 1) && w * (n + 1) + w == w * (n + 1 + 1)
  {
  }

  lemma {:induction false} SignTimes(sign: int, sum: int, p: int, x: int)
    requires sign == 1 || sign == -1
    ensures sign * (sum + p * (x * sign)) == sign * sum + p * x
  {
    if sign == -1 {
      assert p * (x * sign) == -(p * x);
    }
  }

  /** When the words cover the whole number, the last one completes its digits. */
  lemma {:induction false} LastDigit(total: nat, d: seq<int>, w: nat, sign: int, last: int, s: int)
    requires Remaining(total, d, w, sign, last, s) && (sign == 1 || sign == -1)
    requires total < Pow2(w * (|d| + 1))
    ensures s == 0 && sign * SumW(d + [last * sign], w) == total
  {
    hide SumW, Pow2;
    DivModUnique(total, Pow2(w * (|d| + 1)), 0, total);
    SumWAppend(d, last * sign, w);
    SignTimes(sign, SumW(d, w), Pow2(w * |d|), last);
  }

  lemma {:induction false} WordsCover(w: nat)
    requires w >= 1
    ensures WNAF_BITS <= w * WnafSize(w) && w * (WnafSize(w) - 1) < WNAF_BITS
    ensures Pow2(w * (WnafSize(w) + 1)) >= 2 * TWO128
  {
    var n := WnafSize(w);
    assert WNAF_BITS + w - 1 == w * n + (WNAF_BITS + w - 1) % w;
    assert w * (n + 1) == w * n + w && w * (n - 1) == w * n - w;
    hide Pow2;
    Pow2Words();
    Pow2Unfold(128);
    Pow2Monotone(129, w * (n + 1));
  }

  /** Parities and sizes around one step. */
  lemma {:induction false} OddStep(last: int, u: nat, even: int, w: nat)
    requires w >= 1 && 0 < last < Pow2(w) && last % 2 == 1 && u < Pow2(w)
    requires even == if u % 2 == 0 then 1 else 0
    ensures (u + even) % 2 == 1 && 0 < u + even < Pow2(w)
    ensures var x := last - even * Pow2(w); x % 2 == 1 && W.Abs(x) < Pow2(w) && (-x) % 2 == 1
  {
    hide Pow2;
    Pow2Unfold(w - 1);
  }

  lemma {:induction false} OddLow(total: nat, w: nat)
    requires w >= 1 && total % 2 == 1
    ensures 0 < Mask(total, w) < Pow2(w) && Mask(total, w) % 2 == 1
  {
    hide Pow2;
    Pow2Unfold(w - 1);
    Pow2Unfold(0);
    W.ParityOfRemainder(total, Pow2(w), Pow2(w - 1), Pow2(1));
  }

  lemma {:induction false} OddSigned(x: int, sign: int)
    requires x % 2 == 1 && (sign == 1 || sign == -1)
    ensures (x * sign) % 2 == 1 && W.Abs(x * sign) == W.Abs(x)
  {
  }

  /** The form of s in odd digits of w bits. The copy of s that C passes by value is consumed. */
  method WnafConst(wnaf: array<int>, s: array<u64>, w: nat) returns (skew: int)
    requires 1 <= w < 16 && wnaf.Length == WnafSize(w) + 1 && s.Length == 4
    requires Short(Val(s))
    modifies wnaf, s
    ensures skew == 1 || skew == 2
    ensures OddDigits(wnaf[..], w)
    ensures Cong(SumW(wnaf[..], w), old(Val(s)) + skew, N)
    ensures Val(s) == 0
  {
    hide Val4, Cong, Pow2, Mask, Shr, SumW, Remaining, Short;
    var globalSign;
    globalSign, skew := SkewAndSign(s);
    ghost var total := Val(s);
    var word := 0;
    var u: int := 0;
    StartRemaining(total, w, globalSign);
    OddLow(total, w);
    WordsCover(w);
    var uLast: int := ShrInt(s, w);
    while word * w < WNAF_BITS
      invariant 0 <= word <= WnafSize(w)
      invariant s.Length == 4 && Remaining(total, wnaf[..word], w, globalSign, uLast, Val(s))
      invariant 0 < uLast < Pow2(w) && uLast % 2 == 1
      invariant OddDigits(wnaf[..word], w)
      invariant word > 0 ==> u == uLast
      decreases WnafSize(w) - word
    {
      WordIndex(word, w);
      ghost var d, rest := wnaf[..word], Val(s);
      u := ShrInt(s, w);
      var even := if u % 2 == 0 then 1 else 0;
      OddStep(uLast, u, even, w);
      NextRemaining(total, d, w, globalSign, uLast, rest, even);
      var sign := 2 * (if uLast > 0 then 1 else 0) - 1;
      u := u + sign * even;
      uLast := uLast - sign * even * Pow2(w);
      OddSigned(uLast, globalSign);
      wnaf[word] := uLast * globalSign;
      word := word + 1;
      assert wnaf[..word] == d + [uLast * globalSign];
      uLast := u;
    }
    WordIndex(word, w);
    assert word == WnafSize(w);
    LastDigit(total, wnaf[..word], w, globalSign, uLast, Val(s));
    OddSigned(u, globalSign);
    ghost var d := wnaf[..word];
    wnaf[word] := u * globalSign;
    assert wnaf[..] == d + [uLast * globalSign];
    Unsigned(globalSign, SumW(wnaf[..], w), total);
  }

  /** Fewer than WNAF_BITS bits are taken exactly while words are left. */
  lemma {:induction false} WordIndex(word: nat, w: nat)
    requires w >= 1
    ensures word * w < WNAF_BITS <==> word < WnafSize(w)
  {
    WordsCover(w);
    if word < WnafSize(w) {
      Scale(word, WnafSize(w) - 1, w);
    } else {
      Scale(WnafSize(w), word, w);
    }
  }

  lemma {:induction false} Unsigned(sign: int, sum: int, total: int)
    requires (sign == 1 || sign == -1) && sign * sum == total
    ensures sum == sign * total
  {
  }

  /** ECMULT_CONST_TABLE_GET_GE: every entry is visited, the wanted one is kept, its sign comes last. */
  method ConstTableGet(pre: array<Point>, n: int, w: nat, ghost p: Point) returns (r: Point)
    requires w >= 2 && pre.Length == TableSize(w) && OddMultiples(pre[..], p)
    requires n % 2 == 1 && W.Abs(n) < Pow2(w - 1)
    ensures r == Times(n, p)
  {
    hide Pow2, Times;
    Pow2Unfold(w - 2);
    var absN := n * ((if n > 0 then 1 else 0) * 2 - 1);
    var idx := absN / 2;
    r := INFINITY;
    for m := 0 to pre.Length
      invariant m > idx ==> r == Times(absN, p)
    {
      if m == idx {
        assert pre[m] == pre[..][m];
        r := pre[m];
      }
    }
    TimesSum(0, absN, p);
    if n != absN {
      r := Neg(r);
    }
  }

  ghost function FromW(d: seq<int>, i: nat, w: nat): int {
    if i <= |d| then SumW(d[i..], w) else 0
  }

  lemma {:induction false} FromWStep(d: seq<int>, i: nat, w: nat)
    requires i < |d|
    ensures FromW(d, i, w) == d[i] + Pow2(w) * FromW(d, i + 1, w)
    ensures FromW(d, |d|, w) == 0 && FromW(d, 0, w) == SumW(d, w)
  {
    assert d[0..] == d;
    assert d[i..][1..] == d[i + 1..];
  }

  /** The multiple that the loop holds after the digits from i up. */
  ghost function Held(d1: seq<int>, dLam: seq<int>, i: nat): int {
    FromW(d1, i, 4) + LAMBDA * FromW(dLam, i, 4)
  }

  /** Four doublings and two additions bring in the digits at i. */
  lemma {:induction false} HeldStep(d1: seq<int>, dLam: seq<int>, i: nat, a: Point, r: Point)
    requires i < |d1| && |dLam| == |d1|
    requires r == Times(16 * Held(d1, dLam, i + 1), a)
    ensures Plus(Plus(r, Times(d1[i], a)), Times(dLam[i], Times(LAMBDA, a))) == Times(Held(d1, dLam, i), a)
  {
    Pow2Small();
    FromWStep(d1, i, 4);
    FromWStep(dLam, i, 4);
    hide Pow2, FromW, Times;
    TimesTimes(dLam[i], LAMBDA, a);
    TimesSum(16 * Held(d1, dLam, i + 1), d1[i], a);
    TimesSum(16 * Held(d1, dLam, i + 1) + d1[i], dLam[i] * LAMBDA, a);
  }

  lemma {:induction false} HeldEnds(d1: seq<int>, dLam: seq<int>, a: Point)
    requires |d1| == |dLam| > 0
    ensures Held(d1, dLam, |d1|) == 0 && Times(0, a) == INFINITY
    ensures Held(d1, dLam, 0) == SumW(d1, 4) + LAMBDA * SumW(dLam, 4)
  {
    FromWStep(d1, 0, 4);
    FromWStep(dLam, 0, 4);
  }

  /** The double-and-add loop, whose first round loads the top digits without doubling. */
  method ConstLoop(preA: array<Point>, preALam: array<Point>, ghost a: Point, wnaf1: array<int>, wnafLam: array<int>)
    returns (r: Point)
    requires preA.Length == preALam.Length == TableSize(WINDOW_A)
    requires OddMultiples(preA[..], a) && OddMultiples(preALam[..], Times(LAMBDA, a))
    requires wnaf1.Length == wnafLam.Length == WnafSize(WINDOW_A - 1) + 1
    requires OddDigits(wnaf1[..], WINDOW_A - 1) && OddDigits(wnafLam[..], WINDOW_A - 1)
    ensures r == Times(SumW(wnaf1[..], 4) + LAMBDA * SumW(wnafLam[..], 4), a)
  {
    hide OddMultiples, TableSize, Times, Pow2, SumW, Held, Plus, Double;
    ghost var d1, dLam := wnaf1[..], wnafLam[..];
    var size := WnafSize(WINDOW_A - 1);
    HeldEnds(d1, dLam, a);
    var tmp := ConstTableGet(preA, wnaf1[size], WINDOW_A, a);
    r := tmp;
    tmp := ConstTableGet(preALam, wnafLam[size], WINDOW_A, Times(LAMBDA, a));
    r := Plus(r, tmp);
    FirstRound(d1[size], a);
    HeldStep(d1, dLam, size, a, INFINITY);
    var i := size;
    while i > 0
      invariant 0 <= i <= size
      invariant r == Times(Held(d1, dLam, i), a)
    {
      i := i - 1;
      ghost var h := Held(d1, dLam, i + 1);
      Pow2Small();
      for j := 0 to WINDOW_A - 1
        invariant r == Times(Pow2(j) * h, a)
      {
        DoubleMultiple(j, h, a);
        r := Double(r);
      }
      HeldStep(d1, dLam, i, a, r);
      tmp := ConstTableGet(preA, wnaf1[i], WINDOW_A, a);
      r := Plus(r, tmp);
      tmp := ConstTableGet(preALam, wnafLam[i], WINDOW_A, Times(LAMBDA, a));
      r := Plus(r, tmp);
    }
  }

  lemma {:induction false} DoubleMultiple(j: nat, h: int, a: Point)
    ensures Double(Times(Pow2(j) * h, a)) == Times(Pow2(j + 1) * h, a)
  {
    hide Times, Pow2;
    TimesTwice(Pow2(j) * h, a);
    Pow2Unfold(j);
    Associate(2, Pow2(j), h);
  }

  lemma {:induction false} FirstRound(d: int, a: Point)
    ensures Plus(INFINITY, Times(d, a)) == Times(d, a)
  {
  }

  /** The multiple of a that a skew adds, negated. */
  method Correction(a: Point, skew: int) returns (c: Point)
    requires skew == 1 || skew == 2
    ensures c == Times(-skew, a)
  {
    hide Times;
    TimesTwice(1, a);
    TimesSum(0, skew, a);
    c := a;
    var doubled := Double(a);
    if skew == 2 {
      c := doubled;
    }
    c := Neg(c);
  }

  /** r = q*A. */
  method MultiplyConst(a: Point, scalar: array<u64>) returns (r: Point)
    requires scalar.Length == 4 && Val(scalar) < N
    ensures Same(r, Times(Val(scalar), a))
  {
    hide Val4, Cong, Same, Short, OddMultiples, TableSize, Times, SumW, OddDigits, Plus, WnafSize, K1, K2, Pow2;
    ghost var q := Val(scalar);
    var q1, qLam := new u64[4], new u64[4];
    SplitLambda(q1, qLam, scalar);
    ghost var v1, vLam := Val(q1), Val(qLam);
    var wnaf1 := new int[WnafSize(WINDOW_A - 1) + 1];
    var skew1 := WnafConst(wnaf1, q1, WINDOW_A - 1);
    var wnafLam := new int[WnafSize(WINDOW_A - 1) + 1];
    var skewLam := WnafConst(wnafLam, qLam, WINDOW_A - 1);
    var preA := StoredTable(TableSize(WINDOW_A), a);
    var preALam := new Point[preA.Length](_ => INFINITY);
    LambdaTable(preA, preALam, a);
    r := ConstLoop(preA, preALam, a, wnaf1, wnafLam);
    ghost var x1, xLam := SumW(wnaf1[..], 4), SumW(wnafLam[..], 4);
    var c := Correction(a, skew1);
    r := Plus(r, c);
    c := Correction(a, skewLam);
    c := Times(LAMBDA, c);
    r := Plus(r, c);
    Combined(x1, xLam, v1, vLam, skew1, skewLam, q, a);
  }

  /** The two halves with their skews taken off make up the whole multiple. */
  lemma {:induction false} Combined(x1: int, xLam: int, v1: int, vLam: int, skew1: int, skewLam: int, q: int, a: Point)
    requires Cong(x1, v1 + skew1, N) && Cong(xLam, vLam + skewLam, N) && Cong(v1 + LAMBDA * vLam, q, N)
    ensures Same(Plus(Plus(Times(x1 + LAMBDA * xLam, a), Times(-skew1, a)), Times(LAMBDA, Times(-skewLam, a))), Times(q, a))
  {
    hide Cong, Same, Times, Plus;
    Corrected(x1, xLam, skew1, skewLam, a);
    Deskewed(x1, xLam, v1, vLam, skew1, skewLam, q);
    SameMultiples(x1 - skew1 + LAMBDA * (xLam - skewLam), q, a);
  }

  lemma {:induction false} Corrected(x1: int, xLam: int, skew1: int, skewLam: int, a: Point)
    ensures Plus(Plus(Times(x1 + LAMBDA * xLam, a), Times(-skew1, a)), Times(LAMBDA, Times(-skewLam, a)))
         == Times(x1 - skew1 + LAMBDA * (xLam - skewLam), a)
  {
    hide Times;
    TimesTimes(LAMBDA, -skewLam, a);
    TimesSum(x1 + LAMBDA * xLam, -skew1, a);
    TimesSum(x1 + LAMBDA * xLam - skew1, LAMBDA * -skewLam, a);
  }

  lemma {:induction false} Deskewed(x1: int, xLam: int, v1: int, vLam: int, skew1: int, skewLam: int, q: int)
    requires Cong(x1, v1 + skew1, N) && Cong(xLam, vLam + skewLam, N) && Cong(v1 + LAMBDA * vLam, q, N)
    ensures Cong(x1 - skew1 + LAMBDA * (xLam - skewLam), q, N)
  {
    hide Cong;
    CongRefl(skew1, N);
    CongRefl(skewLam, N);
    CongAdd(x1, v1 + skew1, skew1, skew1, N);
    CongAdd(xLam, vLam + skewLam, skewLam, skewLam, N);
    HalvesRecombine(x1 - skew1, xLam - skewLam, v1, vLam, q);
  }
}
