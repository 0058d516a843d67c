/** The endomorphism split of a scalar into two halves of about 128 bits
    (scalar_split_lambda in scalar_impl.h). */
module ScalarSplit {
  import opened Machine
  import opened Bits
  import opened Congruence
  import opened ScalarMul
  import opened Scalar

  /** The eigenvalue of the endomorphism: a primitive cube root of unity modulo N. */
  const LAMBDA := 0x5363AD4C_C05C30E0_A5261C02_8812645A_122E22EA_20816678_DF02967C_1B23BD72
  /** The second components of the lattice basis (a1, -MINUS_B1), (a2, B2) of the pairs (x, y) with
      x + y * LAMBDA = 0 (mod N). The code does without the first ones. */
  const MINUS_B1 := 0xE4437ED6_010E8828_6F547FA9_0ABFE4C3
  const B2 := 0x3086D221_A7D46BCD_E86C90E4_9284EB15
  /** The rounded reciprocals 2^272 * B2 / N and 2^272 * MINUS_B1 / N. */
  const G1 := 0x3086_D221A7D4_6BCDE86C_90E49284_EB153DAB
  const G2 := 0xE443_7ED6010E_88286F54_7FA90ABF_E4C42212

  /** A reduced scalar that is, up to sign, a number of at most 128 bits. */
  ghost predicate Short(x: int) {
    0 <= x < N && (x < TWO128 || N - x < TWO128)
  }

  /** k1 = k - (c1*a1 + c2*a2). */
  ghost function K1(k: int, c1: int, c2: int): int {
    k - 0x3086D221_A7D46BCD_E86C90E4_9284EB15 * c1 - 0x1_14CA50F7_A8E2F3F6_57C1108D_9D44CFD8 * c2
  }

  /** k2 = -(c1*b1 + c2*b2). */
  ghost function K2(c1: int, c2: int): int {
    0xE4437ED6_010E8828_6F547FA9_0ABFE4C3 * c1 - 0x3086D221_A7D46BCD_E86C90E4_9284EB15 * c2
  }

  /** c is x / 2^272, rounded to the nearest number. */
  ghost predicate RoundedTo(c: nat, x: nat) {
    var unit := 0x1_0000_0000_0000_0000_0000_0000_0000_0000_0000_0000_0000_0000_0000_0000_0000_0000_0000;
    var half := 0x8000_0000_0000_0000_0000_0000_0000_0000_0000_0000_0000_0000_0000_0000_0000_0000_0000;
    -half < unit * c - x <= half
  }

  /** A shift by 272 with rounding is off by at most half a unit. */
  lemma {:induction false} Rounded272(x: nat)
    ensures RoundedTo(Shr(x + Pow2(271), 272), x)
  {
    hide Pow2;
    Pow2Words();
    Pow2Small();
    Pow2Unfold(271);
    Pow2Split(256, 16, TWO256, 0x1_0000);
    DivModFacts(x + Pow2(271), Pow2(272));
  }

  lemma {:induction false} DivModFacts(x: nat, d: nat)
    requires d > 0
    ensures x == d * (x / d) + x % d && 0 <= x % d < d
  {
  }

  /** The two components of the short vector found for a scalar k, with the rounding errors made
      explicit: both stay below 2^128 in absolute value. */
  lemma {:induction false} ShortComponents(k: nat, c1: nat, c2: nat)
    requires k < N
    requires RoundedTo(c1, k * 0x3086_D221A7D4_6BCDE86C_90E49284_EB153DAB)
    requires RoundedTo(c2, k * 0xE443_7ED6010E_88286F54_7FA90ABF_E4C42212)
    ensures -TWO128 < K1(k, c1, c2) < TWO128 && -TWO128 < K2(c1, c2) < TWO128
  {
  }

  /** A scalar congruent to a short integer is short. */
  lemma {:induction false} ShortResidue(x: int, y: int)
    requires 0 <= x < N && Cong(x, y, N) && -TWO128 < y < TWO128
    ensures Short(x)
  {
    if y >= 0 {
      CongReduced(x, y, N);
    } else {
      CongFromMultiple(y, y + N, N, -1);
      CongTrans(x, y, y + N, N);
      CongReduced(x, y + N, N);
    }
  }

  /** (A1, -MINUS_B1) and (A2, B2) are in the lattice: A1 = LAMBDA * MINUS_B1 and A2 = -LAMBDA * B2 (mod N). */
  lemma {:induction false} LatticeBasis(k: int, c1: int, c2: int)
    ensures Cong(k + K2(c1, c2) * (N - LAMBDA), K1(k, c1, c2), N)
  {
    CongFromMultiple(k + K2(c1, c2) * (N - LAMBDA), K1(k, c1, c2), N,
                     (0xE4437ED6_010E8828_6F547FA9_0ABFE4C3 - 0x4A5A_C2BF_7B5F_37F9_F1DB_10D7_A2A9_C981) * c1
                     - (0x3086D221_A7D46BCD_E86C90E4_9284EB15 - 0xFCE_9B1D_D4EB_7DD2_718A_2906_7870_61B2) * c2);
  }

  /** r2, computed modulo N from the reduced products, is k2 up to a multiple of N. */
  lemma {:induction false} SecondHalf(c1: int, c2: int, x1: int, x2: int, r2: int)
    requires Cong(x1, c1 * MINUS_B1, N) && Cong(x2, c2 * (N - B2), N) && Cong(r2, x1 + x2, N)
    ensures Cong(r2, K2(c1, c2), N)
  {
    CongFromMultiple(c1 * MINUS_B1 + c2 * (N - B2), K2(c1, c2), N, c2);
    hide K2, Cong;
    CongAdd(x1, c1 * MINUS_B1, x2, c2 * (N - B2), N);
    CongTrans(r2, x1 + x2, c1 * MINUS_B1 + c2 * (N - B2), N);
    CongTrans(r2, c1 * MINUS_B1 + c2 * (N - B2), K2(c1, c2), N);
  }

  /** r1 = k - r2 * LAMBDA modulo N recombines with r2 to k, and is k1 up to a multiple of N. */
  lemma {:induction false} FirstHalf(k: int, c1: int, c2: int, r2: int, y: int, r1: int)
    requires Cong(r2, K2(c1, c2), N) && Cong(y, r2 * (N - LAMBDA), N) && Cong(r1, y + k, N)
    ensures Cong(r1 + LAMBDA * r2, k, N) && Cong(r1, K1(k, c1, c2), N)
  {
    CongFromMultiple(r2 * (N - LAMBDA) + k + LAMBDA * r2, k, N, r2);
    LatticeBasis(k, c1, c2);
    hide K1, K2, Cong;
    var z := r2 * (N - LAMBDA);
    CongRefl(k, N);
    CongRefl(N - LAMBDA, N);
    CongRefl(LAMBDA * r2, N);
    CongAdd(y, z, k, k, N);
    CongTrans(r1, y + k, z + k, N);
    CongAdd(r1, z + k, LAMBDA * r2, LAMBDA * r2, N);
    CongTrans(r1 + LAMBDA * r2, z + k + LAMBDA * r2, k, N);
    CongMul(r2, K2(c1, c2), N - LAMBDA, N - LAMBDA, N);
    CongAdd(z, K2(c1, c2) * (N - LAMBDA), k, k, N);
    CongTrans(r1, z + k, K2(c1, c2) * (N - LAMBDA) + k, N);
    CongTrans(r1, K2(c1, c2) * (N - LAMBDA) + k, K1(k, c1, c2), N);
  }

  /** SECP256K1_SCALAR_CONST: a scalar from eight 32-bit words, most significant first. */
  method ScalarConst(d7: u32, d6: u32, d5: u32, d4: u32, d3: u32, d2: u32, d1: u32, d0: u32) returns (c: array<u64>)
    ensures fresh(c) && c.Length == 4
    ensures Val(c) == Val4(d1 * TWO32 + d0, d3 * TWO32 + d2, d5 * TWO32 + d4, d7 * TWO32 + d6)
  {
    c := new u64[4];
    c[0] := d1 as u64 * TWO32 + d0;
    c[1] := d3 as u64 * TWO32 + d2;
    c[2] := d5 as u64 * TWO32 + d4;
    c[3] := d7 as u64 * TWO32 + d6;
  }

  /** The values of the five constants of the split. */
  lemma {:induction false} ConstantValues()
    ensures Val4(0xE0CFC810 * TWO32 + 0xB51283CF, 0xA880B9FC * TWO32 + 0x8EC739C2,
                 0x5AD9E3FD * TWO32 + 0x77ED9BA4, 0xAC9C52B3 * TWO32 + 0x3FA3CF1F) == N - LAMBDA
    ensures Val4(0x6F547FA9 * TWO32 + 0x0ABFE4C3, 0xE4437ED6 * TWO32 + 0x010E8828,
                 0x00000000 * TWO32 + 0x00000000, 0x00000000 * TWO32 + 0x00000000) == MINUS_B1
    ensures Val4(0xD765CDA8 * TWO32 + 0x3DB1562C, 0x8A280AC5 * TWO32 + 0x0774346D,
                 0xFFFFFFFF * TWO32 + 0xFFFFFFFE, 0xFFFFFFFF * TWO32 + 0xFFFFFFFF) == N - B2
    ensures Val4(0x90E49284 * TWO32 + 0xEB153DAB, 0xD221A7D4 * TWO32 + 0x6BCDE86C,
                 0x00000000 * TWO32 + 0x00003086, 0x00000000 * TWO32 + 0x00000000) == G1
    ensures Val4(0x7FA90ABF * TWO32 + 0xE4C42212, 0x7ED6010E * TWO32 + 0x88286F54,
                 0x00000000 * TWO32 + 0x0000E443, 0x00000000 * TWO32 + 0x00000000) == G2
  {
  }

  /** c1 = round(a * g1 / 2^272) and c2 = round(a * g2 / 2^272). */
  method RoundedQuotients(c1: array<u64>, c2: array<u64>, a: array<u64>)
    requires c1.Length == 4 && c2.Length == 4 && a.Length == 4
    requires c1 != a && c2 != a && c1 != c2 && Val(a) < N
    modifies c1, c2
    ensures -TWO128 < K1(Val(a), Val(c1), Val(c2)) < TWO128 && -TWO128 < K2(Val(c1), Val(c2)) < TWO128
  {
    hide Val4, Shr, Pow2, K1, K2;
    ConstantValues();
    var g1 := ScalarConst(0x00000000, 0x00000000, 0x00000000, 0x00003086, 0xD221A7D4, 0x6BCDE86C, 0x90E49284, 0xEB153DAB);
    var g2 := ScalarConst(0x00000000, 0x00000000, 0x00000000, 0x0000E443, 0x7ED6010E, 0x88286F54, 0x7FA90ABF, 0xE4C42212);
    MulShiftVar(c1, a, g1, 272);
    MulShiftVar(c2, a, g2, 272);
    Rounded272(Val(a) * G1);
    Rounded272(Val(a) * G2);
    ShortComponents(Val(a), Val(c1), Val(c2));
  }

  /** r2 = c1 * (-b1) + c2 * (-b2), from the two quotients. */
  method CombineQuotients(r2: array<u64>, c1: array<u64>, c2: array<u64>)
    requires r2.Length == 4 && c1.Length == 4 && c2.Length == 4 && c1 != c2
    modifies r2, c1, c2
    ensures Val(r2) < N && Cong(Val(r2), old(K2(Val(c1), Val(c2))), N)
  {
    hide Val4, Cong, K2, MulMod;
    ghost var q1, q2 := Val(c1), Val(c2);
    ConstantValues();
    var minusB1 := ScalarConst(0x00000000, 0x00000000, 0x00000000, 0x00000000, 0xE4437ED6, 0x010E8828, 0x6F547FA9, 0x0ABFE4C3);
    var minusB2 := ScalarConst(0xFFFFFFFF, 0xFFFFFFFF, 0xFFFFFFFF, 0xFFFFFFFE, 0x8A280AC5, 0x0774346D, 0xD765CDA8, 0x3DB1562C);
    Multiply(c1, c1, minusB1);
    Multiply(c2, c2, minusB2);
    ghost var x1, x2 := Val(c1), Val(c2);
    MulModCong(q1, MINUS_B1);
    MulModCong(q2, N - B2);
    var over := Add(r2, c1, c2);
    CongFromMultiple(Val(r2), x1 + x2, N, -over);
    SecondHalf(q1, q2, x1, x2, Val(r2));
  }

  /** Splits a into r1 + LAMBDA * r2 with both parts short. */
  method SplitLambda(r1: array<u64>, r2: array<u64>, a: array<u64>)
    requires r1.Length == 4 && r2.Length == 4 && a.Length == 4
    requires r1 != a && r2 != a && r1 != r2
    requires Val(a) < N
    modifies r1, r2
    ensures Cong(Val(r1) + LAMBDA * Val(r2), old(Val(a)), N)
    ensures Short(Val(r1)) && Short(Val(r2))
  {
    hide Val4, Cong, Short, K1, K2, MulMod;
    var c1, c2 := new u64[4], new u64[4];
    RoundedQuotients(c1, c2, a);
    ghost var k, q1, q2 := Val(a), Val(c1), Val(c2);
    CombineQuotients(r2, c1, c2);
    ConstantValues();
    var minusLambda := ScalarConst(0xAC9C52B3, 0x3FA3CF1F, 0x5AD9E3FD, 0x77ED9BA4, 0xA880B9FC, 0x8EC739C2, 0xE0CFC810, 0xB51283CF);
    Multiply(r1, r2, minusLambda);
    ghost var y := Val(r1);
    MulModCong(Val(r2), N - LAMBDA);
    var over := Add(r1, r1, a);
    CongFromMultiple(Val(r1), y + k, N, -over);
    FirstHalf(k, q1, q2, Val(r2), y, Val(r1));
    ShortResidue(Val(r1), K1(k, q1, q2));
    ShortResidue(Val(r2), K2(q1, q2));
  }
}
