/** Normalisation of field elements and their 32-byte form (field_5x52_impl.h). The comparisons that
    the C code makes on bitwise ANDs, ORs and XORs of limbs are written as what they test. */
module Field5x52 {
  import opened Machine
  import opened Bits
  import opened Bytes
  import opened Congruence
  import opened FieldMul

  /** fe_verify's bound on an element of the given magnitude. */
  ghost predicate Magnitude(a: array<u64>, m: nat)
    reads a
  {
    && a.Length == 5
    && a[0] <= 0xF_FFFF_FFFF_FFFF * (2 * m) && a[1] <= 0xF_FFFF_FFFF_FFFF * (2 * m)
    && a[2] <= 0xF_FFFF_FFFF_FFFF * (2 * m) && a[3] <= 0xF_FFFF_FFFF_FFFF * (2 * m)
    && a[4] <= 0xFFFF_FFFF_FFFF * (2 * m)
  }

  /** The middle limbs have room for the carries of the first pass. */
  ghost predicate MiddleFits(a: array<u64>)
    reads a
  {
    a.Length == 5 && a[1] <= TWO64 - 0x1000 && a[2] <= TWO64 - 0x1000 && a[3] <= TWO64 - 0x1000
  }

  /** The lowest limb with the top bits folded into it. */
  ghost function LowestFolded(a: array<u64>): nat
    requires a.Length == 5
    reads a
  {
    a[0] as int + 0x1_0000_03D1 * (a[4] / 0x1_0000_0000_0000)
  }

  /** No limb overflows when the first pass folds the top bits and carries upwards. */
  ghost predicate FirstPassFits(a: array<u64>)
    reads a
  {
    MiddleFits(a) && LowestFolded(a) < TWO64
  }

  /** What is lost when the lowest limb wraps around. */
  ghost function Lost(a: array<u64>): nat
    requires a.Length == 5
    reads a
  {
    if LowestFolded(a) < TWO64 then 0 else 0x1_0000_0000_0000_0000
  }

  /** Every magnitude that fe_verify accepts leaves room in the middle limbs, and every one but the last in
      the lowest limb too. */
  lemma {:induction false} MagnitudeFits(a: array<u64>, m: nat)
    requires Magnitude(a, m) && m <= 2048
    ensures MiddleFits(a) && (m <= 2047 ==> FirstPassFits(a))
  {
  }

  /** A result that misses 2^64 is not congruent to what it should be. */
  lemma {:induction false} LossMatters(r: int, v: int, lost: nat)
    requires Cong(r, v - lost, P) && (lost == 0 || lost == 0x1_0000_0000_0000_0000)
    ensures Cong(r, v, P) <==> lost == 0
  {
    if lost != 0 && Cong(r, v, P) {
      var j :| r == v - lost + Multiple(P, j);
      var k :| r == v + Multiple(P, k);
      Distribute(P, j, -k);
      assert P * (j - k) == 0x1_0000_0000_0000_0000;
      NoMultipleBetween(j - k);
      assert false;
    }
  }

  /** `+` on 64-bit words, for sums below 2^65. */
  function AddWords(x: nat): (r: u64)
    requires x < 0x2_0000_0000_0000_0000
    ensures r == x - if x < TWO64 then 0 else 0x1_0000_0000_0000_0000
  {
    x % 0x1_0000_0000_0000_0000
  }

  /** At magnitude 2048, which fe_verify accepts too, the lowest limb can wrap around. */
  method LargestMagnitude() returns (a: array<u64>)
    ensures Magnitude(a, 2048) && LowestFolded(a) >= TWO64
  {
    a := new u64[5];
    a[0], a[1], a[2], a[3], a[4] := 0xF_FFFF_FFFF_FFFF * 4096, 0, 0, 0, 0xFFFF_FFFF_FFFF * 4096;
  }

  /** The unique representative of an element: 52/52/52/52/48 bits and below P. */
  ghost predicate Canonical(a: array<u64>)
    reads a
  {
    && a.Length == 5
    && a[0] < TWO52 && a[1] < TWO52 && a[2] < TWO52 && a[3] < TWO52 && a[4] < TWO48
    && ValueOf(a) < P
  }

  /** The fold of the bits from 2^256 up, and one carry chain. */
  method FirstPass(r: array<u64>) returns (t0: u64, t1: u64, t2: u64, t3: u64, t4: u64)
    requires MiddleFits(r)
    ensures t0 < TWO52 && t1 < TWO52 && t2 < TWO52 && t3 < TWO52 && t4 < 2 * TWO48
    ensures Value(t0, t1, t2, t3, t4) == ValueOf(r) - Lost(r) - P * (r[4] / 0x1_0000_0000_0000)
    ensures Value(t0, t1, t2, t3, t4) < 2 * P
  {
    hide AddWords;
    var c: u128;
    var x: u64 := r[4] / 0x1_0000_0000_0000;
    t4 := r[4] % 0x1_0000_0000_0000;
    var s0: u64, s1: u64, s2: u64, s3: u64;
    s0 := AddWords(r[0] + 0x1_0000_03D1 * x);
    t0, c := Carry52(s0);
    s1 := r[1] + c;
    t1, c := Carry52(s1);
    s2 := r[2] + c;
    t2, c := Carry52(s2);
    s3 := r[3] + c;
    t3, c := Carry52(s3);
    t4 := t4 + c;
    assert t4 < 2 * TWO48;
  }

  /** Whether five carried limbs hold P or more: bit 256 is set, or they are P's own limbs from the
      top down to a lowest limb of at least P's. */
  lemma {:induction false} AtLeastP(t0: u64, t1: u64, t2: u64, t3: u64, t4: u64)
    requires t0 < TWO52 && t1 < TWO52 && t2 < TWO52 && t3 < TWO52 && t4 < 2 * TWO48
    ensures Value(t0, t1, t2, t3, t4) >= P
      <==> t4 >= 0x1_0000_0000_0000
           || (t4 == 0xFFFF_FFFF_FFFF && t1 == M && t2 == M && t3 == M && t0 >= 0xF_FFFE_FFFF_FC2F)
  {
  }

  /** Adding x * (2^256 - P) and carrying, when x says whether the limbs hold P or more. */
  method SecondPass(t0: u64, t1: u64, t2: u64, t3: u64, t4: u64, x: u64)
    returns (r0: u64, r1: u64, r2: u64, r3: u64, r4: u64)
    requires t0 < TWO52 && t1 < TWO52 && t2 < TWO52 && t3 < TWO52 && t4 < 2 * TWO48
    requires Value(t0, t1, t2, t3, t4) < 2 * P
    requires x == if Value(t0, t1, t2, t3, t4) >= P then 1 else 0
    ensures r0 < TWO52 && r1 < TWO52 && r2 < TWO52 && r3 < TWO52 && r4 < TWO48
    ensures Value(r0, r1, r2, r3, r4) == Value(t0, t1, t2, t3, t4) - x * P
  {
    var c: u128;
    var s1: u64, s2: u64, s3: u64;
    var s0: u64 := t0 + 0x1_0000_03D1 * x;
    r0, c := Carry52(s0);
    s1 := t1 + c;
    r1, c := Carry52(s1);
    s2 := t2 + c;
    r2, c := Carry52(s2);
    s3 := t3 + c;
    r3, c := Carry52(s3);
    r4 := t4 + c;
    assert r4 / 0x1_0000_0000_0000 == x;
    r4 := r4 % 0x1_0000_0000_0000;
  }

  method Normalize(r: array<u64>)
    requires MiddleFits(r)
    modifies r
    ensures Canonical(r) && Cong(ValueOf(r), old(ValueOf(r) - Lost(r)), P)
    ensures Cong(ValueOf(r), old(ValueOf(r)), P) <==> old(FirstPassFits(r))
  {
    hide Value, Cong;
    ghost var v, lost, top: int := ValueOf(r), Lost(r), r[4] / 0x1_0000_0000_0000;
    var t0, t1, t2, t3, t4 := FirstPass(r);
    AtLeastP(t0, t1, t2, t3, t4);
    var allOnes := t1 == M;
    allOnes := allOnes && t2 == M;
    allOnes := allOnes && t3 == M;
    var x: u64 := if t4 / 0x1_0000_0000_0000 == 1 || (t4 == 0xFFFF_FFFF_FFFF && allOnes && t0 >= 0xF_FFFE_FFFF_FC2F)
      then 1 else 0;
    t0, t1, t2, t3, t4 := SecondPass(t0, t1, t2, t3, t4, x);
    r[0], r[1], r[2], r[3], r[4] := t0, t1, t2, t3, t4;
    CongFromMultiple(ValueOf(r), v - lost, P, -top - x);
    LossMatters(ValueOf(r), v, lost);
  }

  method NormalizeVar(r: array<u64>)
    requires MiddleFits(r)
    modifies r
    ensures Canonical(r) && Cong(ValueOf(r), old(ValueOf(r) - Lost(r)), P)
    ensures Cong(ValueOf(r), old(ValueOf(r)), P) <==> old(FirstPassFits(r))
  {
    hide Value, Cong;
    ghost var v, lost, top: int := ValueOf(r), Lost(r), r[4] / 0x1_0000_0000_0000;
    var t0, t1, t2, t3, t4 := FirstPass(r);
    AtLeastP(t0, t1, t2, t3, t4);
    var allOnes := t1 == M;
    allOnes := allOnes && t2 == M;
    allOnes := allOnes && t3 == M;
    var x := t4 / 0x1_0000_0000_0000 == 1 || (t4 == 0xFFFF_FFFF_FFFF && allOnes && t0 >= 0xF_FFFE_FFFF_FC2F);
    BelowP(t0, t1, t2, t3, t4);
    if x {
      t0, t1, t2, t3, t4 := SecondPass(t0, t1, t2, t3, t4, 1);
      top := top + 1;
    }
    r[0], r[1], r[2], r[3], r[4] := t0, t1, t2, t3, t4;
    CongFromMultiple(ValueOf(r), v - lost, P, -top);
    LossMatters(ValueOf(r), v, lost);
  }

  lemma {:induction false} BelowP(t0: u64, t1: u64, t2: u64, t3: u64, t4: u64)
    ensures Value(t0, t1, t2, t3, t4) >= 0
    ensures Value(t0, t1, t2, t3, t4) < P ==> t4 < TWO48
  {
  }

  /** Limbs below the base are determined by their number, so the canonical form is unique. */
  lemma {:induction false} CanonicalUnique(a: array<u64>, b: array<u64>)
    requires Canonical(a) && Canonical(b) && Cong(ValueOf(a), ValueOf(b), P)
    ensures a[..] == b[..]
  {
    CongReduced(ValueOf(a), ValueOf(b), P);
    LowestLimb(a[0], b[0], Value(a[1], a[2], a[3], a[4], 0), Value(b[1], b[2], b[3], b[4], 0));
    LowestLimb(a[1], b[1], Value(a[2], a[3], a[4], 0, 0), Value(b[2], b[3], b[4], 0, 0));
    LowestLimb(a[2], b[2], Value(a[3], a[4], 0, 0, 0), Value(b[3], b[4], 0, 0, 0));
    LowestLimb(a[3], b[3], a[4], b[4]);
  }

  lemma {:induction false} LowestLimb(x: u64, y: u64, h: int, k: int)
    requires x < TWO52 && y < TWO52
    requires x + 0x10_0000_0000_0000 * h == y + 0x10_0000_0000_0000 * k
    ensures x == y && h == k
  {
  }

  lemma {:induction false} NoMultipleBetween(k: int)
    ensures P * k <= 0 || P * k == P || P * k >= 2 * P
  {
  }

  /** A number below 2P is a multiple of P only if it is 0 or P. */
  lemma {:induction false} ZeroOrP(v: int, t: int, top: int)
    requires 0 <= t < 2 * P && t == v - P * top
    ensures Cong(v, 0, P) <==> t == 0 || t == P
  {
    if t == 0 {
      CongFromMultiple(v, 0, P, top);
    } else if t == P {
      CongFromMultiple(v, 0, P, top + 1);
    } else if Cong(v, 0, P) {
      var k :| v == 0 + Multiple(P, k);
      NoMultipleBetween(k - top);
      assert false;
    }
  }

  lemma {:induction false} LimbsOfZeroAndP(t0: u64, t1: u64, t2: u64, t3: u64, t4: u64)
    requires t0 < TWO52 && t1 < TWO52 && t2 < TWO52 && t3 < TWO52 && t4 < 2 * TWO48
    ensures Value(t0, t1, t2, t3, t4) == 0 <==> t0 == 0 && t1 == 0 && t2 == 0 && t3 == 0 && t4 == 0
    ensures Value(t0, t1, t2, t3, t4) == P
      <==> t0 == 0xF_FFFE_FFFF_FC2F && t1 == M && t2 == M && t3 == M && t4 == 0xFFFF_FFFF_FFFF
  {
    LimbsOfP();
    if Value(t0, t1, t2, t3, t4) == P {
      LowestLimb(t0, 0xF_FFFE_FFFF_FC2F, Value(t1, t2, t3, t4, 0), Value(M, M, M, 0xFFFF_FFFF_FFFF, 0));
      LowestLimb(t1, M, Value(t2, t3, t4, 0, 0), Value(M, M, 0xFFFF_FFFF_FFFF, 0, 0));
      LowestLimb(t2, M, Value(t3, t4, 0, 0, 0), Value(M, 0xFFFF_FFFF_FFFF, 0, 0, 0));
      LowestLimb(t3, M, t4, 0xFFFF_FFFF_FFFF);
    }
  }

  lemma {:induction false} LimbsOfP()
    ensures Value(0xF_FFFE_FFFF_FC2F, M, M, M, 0xFFFF_FFFF_FFFF) == P
  {
  }

  /** What the first pass leaves is a multiple of P exactly if its limbs are those of 0 or of P. */
  lemma {:induction false} ZeroByLimbs(v: int, top: int, t0: u64, t1: u64, t2: u64, t3: u64, t4: u64)
    requires t0 < TWO52 && t1 < TWO52 && t2 < TWO52 && t3 < TWO52 && t4 < 2 * TWO48
    requires Value(t0, t1, t2, t3, t4) == v - P * top && Value(t0, t1, t2, t3, t4) < 2 * P
    ensures Cong(v, 0, P)
      <==> (t0 == 0 && t1 == 0 && t2 == 0 && t3 == 0 && t4 == 0)
           || (t0 == 0xF_FFFE_FFFF_FC2F && t1 == M && t2 == M && t3 == M && t4 == 0xFFFF_FFFF_FFFF)
  {
    hide Value, Cong;
    BelowP(t0, t1, t2, t3, t4);
    ZeroOrP(v, Value(t0, t1, t2, t3, t4), top);
    LimbsOfZeroAndP(t0, t1, t2, t3, t4);
  }

  method NormalizesToZero(r: array<u64>) returns (zero: bool)
    requires MiddleFits(r)
    ensures zero <==> Cong(ValueOf(r) - Lost(r), 0, P)
    ensures FirstPassFits(r) ==> (zero <==> Cong(ValueOf(r), 0, P))
  {
    hide Value, Cong;
    var t0, t1, t2, t3, t4 := FirstPass(r);
    ZeroByLimbs(ValueOf(r) - Lost(r), r[4] / 0x1_0000_0000_0000, t0, t1, t2, t3, t4);
    var rawZero, rawP := t0 == 0, t0 == 0xF_FFFE_FFFF_FC2F;
    rawZero, rawP := rawZero && t1 == 0, rawP && t1 == M;
    rawZero, rawP := rawZero && t2 == 0, rawP && t2 == M;
    rawZero, rawP := rawZero && t3 == 0, rawP && t3 == M;
    rawZero, rawP := rawZero && t4 == 0, rawP && t4 == 0xFFFF_FFFF_FFFF;
    zero := rawZero || rawP;
  }

  /** What the first pass leaves, seen from its lowest limb alone: an element whose folded lowest limb
      is neither 0 nor P's is not a multiple of P. */
  lemma {:induction false} LowestLimbDecides(v: int, x: int, s0: int, h: int)
    requires v == s0 + 0x10_0000_0000_0000 * h + P * x && 0 <= v - P * x < 2 * P
    requires s0 % 0x10_0000_0000_0000 != 0 && s0 % 0x10_0000_0000_0000 != 0xF_FFFE_FFFF_FC2F
    ensures !Cong(v, 0, P)
  {
    ZeroOrP(v, v - P * x, x);
  }

  lemma {:induction false} FirstPassRange(a: array<u64>)
    requires MiddleFits(a)
    ensures var x := a[4] / 0x1_0000_0000_0000;
      var s0 := LowestFolded(a) - Lost(a); var h := Value(a[1], a[2], a[3], a[4] % 0x1_0000_0000_0000, 0);
      ValueOf(a) - Lost(a) == s0 + 0x10_0000_0000_0000 * h + P * x && 0 <= ValueOf(a) - Lost(a) - P * x < 2 * P
      && a[0] as int + 0x1_0000_03D1 * x < 2 * TWO64 && AddWords(a[0] as int + 0x1_0000_03D1 * x) == s0
    ensures FirstPassFits(a) ==> Lost(a) == 0
  {
  }

  /** The variant that looks at the lowest limb first and mostly stops there. */
  method NormalizesToZeroVar(r: array<u64>) returns (zero: bool)
    requires MiddleFits(r)
    ensures zero <==> Cong(ValueOf(r) - Lost(r), 0, P)
    ensures FirstPassFits(r) ==> (zero <==> Cong(ValueOf(r), 0, P))
  {
    hide Value, Cong, AddWords, Lost, LowestFolded;
    var c: u128;
    var x: u64 := r[4] / 0x1_0000_0000_0000;
    FirstPassRange(r);
    ghost var v, h := ValueOf(r) - Lost(r), Value(r[1], r[2], r[3], r[4] % 0x1_0000_0000_0000, 0);
    assert FirstPassFits(r) ==> v == ValueOf(r);
    hide ValueOf, FirstPassFits;
    var t0: u64 := AddWords(r[0] + 0x1_0000_03D1 * x);
    ghost var s0: int := t0;
    t0, c := Carry52(t0);
    if t0 != 0 && t0 != 0xF_FFFE_FFFF_FC2F {
      LowestLimbDecides(v, x, s0, h);
      return false;
    }
    zero := HigherLimbs(r, x, t0, c, v);
  }

  /** The rest of the variant: the other limbs are carried and compared one by one. */
  method HigherLimbs(r: array<u64>, ghost x: u64, t0: u64, c0: u128, ghost v: int) returns (zero: bool)
    requires MiddleFits(r) && t0 < TWO52 && c0 < 0x1000
    requires v == t0 + 0x10_0000_0000_0000 * c0
      + 0x10_0000_0000_0000 * Value(r[1], r[2], r[3], r[4] % 0x1_0000_0000_0000, 0) + P * x
    requires v - P * x < 2 * P
    ensures zero <==> Cong(v, 0, P)
  {
    hide Value, Cong;
    var c: u128 := c0;
    var t1: u64, t2: u64, t3: u64;
    var rawZero, rawP := t0 == 0, t0 == 0xF_FFFE_FFFF_FC2F;
    var t4: u64 := r[4] % 0x1_0000_0000_0000;
    t1 := r[1] + c;
    t1, c := Carry52(t1);
    ghost var c1: int := c;
    rawZero, rawP := rawZero && t1 == 0, rawP && t1 == M;
    t2 := r[2] + c;
    t2, c := Carry52(t2);
    ghost var c2: int := c;
    rawZero, rawP := rawZero && t2 == 0, rawP && t2 == M;
    t3 := r[3] + c;
    t3, c := Carry52(t3);
    ghost var c3: int := c;
    rawZero, rawP := rawZero && t3 == 0, rawP && t3 == M;
    t4 := t4 + c;
    rawZero, rawP := rawZero && t4 == 0, rawP && t4 == 0xFFFF_FFFF_FFFF;
    zero := rawZero || rawP;
    CarryChain(t0 + 0x10_0000_0000_0000 * c0, r[1], r[2], r[3], r[4] % 0x1_0000_0000_0000, t0, t1, t2, t3, t4, c0, c1, c2, c3);
    ZeroByLimbs(v, x, t0, t1, t2, t3, t4);
  }

  lemma {:induction false} CarryChain(s0: int, s1: int, s2: int, s3: int, s4: int, t0: int, t1: int, t2: int, t3: int, t4: int,
                   c0: int, c1: int, c2: int, c3: int)
    requires s0 == t0 + 0x10_0000_0000_0000 * c0
    requires s1 + c0 == t1 + 0x10_0000_0000_0000 * c1
    requires s2 + c1 == t2 + 0x10_0000_0000_0000 * c2
    requires s3 + c2 == t3 + 0x10_0000_0000_0000 * c3
    requires s4 + c3 == t4
    ensures Value(t0, t1, t2, t3, t4) == s0 + 0x10_0000_0000_0000 * Value(s1, s2, s3, s4, 0)
  {
  }

  /** Nibble j of byte i, counted from the end of a big-endian string. */
  lemma {:induction false} NibbleOfBytes(a: seq<u8>, i: nat, j: nat)
    requires |a| == 32 && i < 32 && j < 2
    ensures Field(BigEndian(a), 8 * i + 4 * j, 4) == Mask(Shr(a[31 - i], 4 * j), 4)
  {
    hide BigEndian, Pow2, Field, Mask, Shr;
    var x, y := a[..31 - i], a[32 - i..];
    assert a == x + ([a[31 - i]] + y);
    BigEndianFirst(a[31 - i], y);
    BigEndianConcat(x, [a[31 - i]] + y);
    BigEndianBound(y);
    BytePower(i);
    Pow2Small();
    ByteSplit(Pow2(8 * i), a[31 - i], BigEndian(x), BigEndian(y));
    FieldInLimb(BigEndian(a), 8 * i, 8, 4 * j, 4, BigEndian(y), a[31 - i], BigEndian(x));
  }

  lemma {:induction false} ByteSplit(p: int, d: int, h: int, lo: int)
    ensures (0x100 * p) * h + (p * d + lo) == lo + p * (d + 0x100 * h)
  {
  }

  /** The number cut at each of its limbs. */
  lemma {:induction false} LimbParts(n0: u64, n1: u64, n2: u64, n3: u64, n4: u64)
    requires n0 < TWO52 && n1 < TWO52 && n2 < TWO52 && n3 < TWO52
    ensures var v := Value(n0, n1, n2, n3, n4);
      && v == n0 + 0x10_0000_0000_0000 * Value(n1, n2, n3, n4, 0)
      && v == n0 + 0x10_0000_0000_0000 * (n1 + 0x10_0000_0000_0000 * Value(n2, n3, n4, 0, 0))
      && v == Value(n0, n1, 0, 0, 0) + 0x100_0000_0000_0000_0000_0000_0000 * (n2 + 0x10_0000_0000_0000 * Value(n3, n4, 0, 0, 0))
      && v == Value(n0, n1, n2, 0, 0) + 0x1000_0000_0000_0000_0000_0000_0000_0000_0000_0000 * (n3 + 0x10_0000_0000_0000 * n4)
      && v == Value(n0, n1, n2, n3, 0) + 0x1_0000_0000_0000_0000_0000_0000_0000_0000_0000_0000_0000_0000_0000 * n4
    ensures 0 <= Value(n1, n2, n3, n4, 0) && 0 <= Value(n2, n3, n4, 0, 0) && 0 <= Value(n3, n4, 0, 0, 0)
    ensures 0 <= Value(n0, n1, 0, 0, 0) < 0x100_0000_0000_0000_0000_0000_0000
    ensures 0 <= Value(n0, n1, n2, 0, 0) < 0x1000_0000_0000_0000_0000_0000_0000_0000_0000_0000
    ensures 0 <= Value(n0, n1, n2, n3, 0) < 0x1_0000_0000_0000_0000_0000_0000_0000_0000_0000_0000_0000_0000_0000
  {
  }

  lemma {:induction false} LimbWeights()
    ensures Pow2(0) == 1 && Pow2(52) == 0x10_0000_0000_0000 && Pow2(104) == 0x100_0000_0000_0000_0000_0000_0000
    ensures Pow2(156) == 0x1000_0000_0000_0000_0000_0000_0000_0000_0000_0000
    ensures Pow2(208) == 0x1_0000_0000_0000_0000_0000_0000_0000_0000_0000_0000_0000_0000_0000
  {
    hide Pow2;
    Pow2Small();
    Pow2Words();
    Pow2Split(32, 16, TWO32, 0x1_0000);
    Pow2Split(48, 4, TWO48, 16);
    Pow2Split(52, 52, TWO52, TWO52);
    Pow2Split(104, 52, 0x100_0000_0000_0000_0000_0000_0000, TWO52);
    Pow2Split(104, 104, 0x100_0000_0000_0000_0000_0000_0000, 0x100_0000_0000_0000_0000_0000_0000);
  }

  /** A nibble of the number is in one limb. */
  lemma {:induction false} NibbleAt(n: seq<u64>, pos: nat)
    requires |n| == 5 && pos % 4 == 0 && pos < 256 && forall k :: 0 <= k < 4 ==> n[k] < TWO52
    ensures Value(n[0], n[1], n[2], n[3], n[4]) >= 0
    ensures Mask(Shr(n[pos / 52], pos % 52), 4) == Field(Value(n[0], n[1], n[2], n[3], n[4]), pos, 4)
  {
    hide Mask, Shr, Field, Value;
    NibbleOf(n[0], n[1], n[2], n[3], n[4], pos / 52, pos % 52);
    assert pos == 52 * (pos / 52) + pos % 52;
  }

  lemma {:induction false} NibbleOf(n0: u64, n1: u64, n2: u64, n3: u64, n4: u64, l: nat, s: nat)
    requires n0 < TWO52 && n1 < TWO52 && n2 < TWO52 && n3 < TWO52 && l < 5 && s <= 48
    ensures Value(n0, n1, n2, n3, n4) >= 0
    ensures var limb: nat := if l == 0 then n0 else if l == 1 then n1 else if l == 2 then n2 else if l == 3 then n3 else n4;
      Mask(Shr(limb, s), 4) == Field(Value(n0, n1, n2, n3, n4), 52 * l + s, 4)
  {
    hide Mask, Shr, Field, Value, Pow2;
    LimbWeights();
    LimbParts(n0, n1, n2, n3, n4);
    var v: nat := Value(n0, n1, n2, n3, n4);
    if l == 0 {
      NibbleIn(v, 0, 1, 0, n0, Value(n1, n2, n3, n4, 0), s);
    } else if l == 1 {
      NibbleIn(v, 52, 0x10_0000_0000_0000, n0, n1, Value(n2, n3, n4, 0, 0), s);
    } else if l == 2 {
      NibbleIn(v, 104, 0x100_0000_0000_0000_0000_0000_0000, Value(n0, n1, 0, 0, 0), n2, Value(n3, n4, 0, 0, 0), s);
    } else if l == 3 {
      NibbleIn(v, 156, 0x1000_0000_0000_0000_0000_0000_0000_0000_0000_0000, Value(n0, n1, n2, 0, 0), n3, n4, s);
    } else {
      NibbleIn(v, 208, 0x1_0000_0000_0000_0000_0000_0000_0000_0000_0000_0000_0000_0000_0000, Value(n0, n1, n2, n3, 0), n4, 0, s);
    }
  }

  lemma {:induction false} NibbleIn(v: nat, at: nat, power: nat, lo: nat, d: nat, h: nat, s: nat)
    requires Pow2(at) == power && lo < power && v == lo + power * (d + 0x10_0000_0000_0000 * h) && s <= 48
    ensures Field(v, at + s, 4) == Mask(Shr(d, s), 4)
  {
    hide Mask, Shr, Field, Pow2;
    LimbWeights();
    FieldInLimb(v, at, 52, s, 4, lo, d, h);
  }

  /** How many bits of limb l the lowest `pos` bits of the number fill. */
  function Filled(pos: int, l: int): nat {
    if pos <= 52 * l then 0 else if pos >= 52 * (l + 1) then 52 else pos - 52 * l
  }

  /** Adding a nibble to its limb adds it to the number at its place. */
  lemma {:induction false} AddNibble(n: seq<int>, l: nat, s: nat, nib: nat)
    requires |n| == 5 && l < 5
    ensures var m := n[l := n[l] + Pow2(s) * nib];
      Value(m[0], m[1], m[2], m[3], m[4]) == Value(n[0], n[1], n[2], n[3], n[4]) + Pow2(52 * l + s) * nib
  {
    hide Pow2;
    LimbWeights();
    Pow2Add(52 * l, s);
    Associate(Pow2(52 * l), Pow2(s), nib);
    var add := Pow2(s) * nib;
    assert Pow2(52 * l) * add == Pow2(52 * l + s) * nib;
  }

  /** The low `pos` bits of v are in place, and nothing else. */
  ghost predicate LowBitsSet(n: seq<int>, v: nat, pos: nat) {
    && |n| == 5
    && Value(n[0], n[1], n[2], n[3], n[4]) == Mask(v, pos)
    && forall l :: 0 <= l < 5 ==> 0 <= n[l] < Pow2(Filled(pos, l))
  }

  lemma {:induction false} NothingSet(n: seq<int>, v: nat)
    requires |n| == 5 && forall l :: 0 <= l < 5 ==> n[l] == 0
    ensures LowBitsSet(n, v, 0)
  {
    hide Pow2, Mask, Filled, Value;
    ValueOfZero();
    MaskZero(v);
  }

  lemma {:induction false} ValueOfZero()
    ensures Value(0, 0, 0, 0, 0) == 0
  {
  }

  /** One nibble goes to its place: limb pos/52, shift pos%52. */
  lemma {:induction false} SetNibble(n: seq<int>, v: nat, pos: nat, nib: nat)
    requires LowBitsSet(n, v, pos) && pos % 4 == 0 && pos < 256 && nib == Field(v, pos, 4)
    ensures var l, s := pos / 52, pos % 52;
      && 0 <= n[l] < Pow2(s) && 0 <= n[l] + Pow2(s) * nib < TWO64
      && LowBitsSet(n[l := n[l] + Pow2(s) * nib], v, pos + 4)
  {
    hide Mask, Field, Pow2, Value;
    var l, s := pos / 52, pos % 52;
    assert Filled(pos, l) == s;
    FourBits(v, pos);
    NibbleRoom(s, n[l], nib);
    MaskGrows(v, pos, 4);
    AddNibble(n, l, s, nib);
    var m := n[l := n[l] + Pow2(s) * nib];
    forall k | 0 <= k < 5 ensures 0 <= m[k] < Pow2(Filled(pos + 4, k)) {
      if k == l {
        assert Filled(pos + 4, k) == s + 4;
      } else {
        assert Filled(pos + 4, k) == Filled(pos, k);
      }
    }
  }

  lemma {:induction false} FourBits(v: nat, pos: nat)
    ensures Field(v, pos, 4) < 16
  {
    Pow2Small();
  }

  /** A nibble above the s bits in use makes s + 4 bits, at most 52. */
  lemma {:induction false} NibbleRoom(s: nat, low: nat, nib: nat)
    requires s <= 48 && low < Pow2(s) && nib < 16
    ensures 0 <= low + Pow2(s) * nib < Pow2(s + 4) <= TWO52
  {
    hide Pow2;
    Pow2Small();
    Pow2Split(s, 4, Pow2(s), 16);
    Pow2Monotone(s + 4, 52);
    LimbWeights();
    NibbleSum(Pow2(s), low, nib);
  }

  lemma {:induction false} NibbleSum(p: nat, low: nat, nib: nat)
    requires low < p && nib < 16
    ensures 0 <= low + p * nib < p * 16
  {
    Scale(nib + 1, 16, p);
    Distribute(p, nib, 1);
  }

  lemma {:induction false} AllSet(n: seq<int>, v: nat)
    requires LowBitsSet(n, v, 256) && v < TWO256
    ensures Value(n[0], n[1], n[2], n[3], n[4]) == v
    ensures n[0] < TWO52 && n[1] < TWO52 && n[2] < TWO52 && n[3] < TWO52 && n[4] < TWO48
  {
    hide Pow2, Mask, Value;
    Pow2Words();
    LimbWeights();
    MaskSmall(v, 256);
    Pow2Small();
    Pow2Split(32, 16, TWO32, 0x1_0000);
    assert Filled(256, 4) == 48 && Filled(256, 3) == 52 && Filled(256, 2) == 52 && Filled(256, 1) == 52 && Filled(256, 0) == 52;
  }

  method SetB32(r: array<u64>, a: array<u8>) returns (ok: bool)
    requires r.Length == 5 && a.Length == 32
    modifies r
    ensures ValueOf(r) == BigEndian(old(a[..]))
    ensures ok <==> BigEndian(old(a[..])) < P
    ensures ok ==> Canonical(r)
  {
    hide Pow2, Mask, Shr, Field, BigEndian, LowBitsSet, Value;
    ghost var bytes := a[..];
    ghost var v := BigEndian(bytes);
    BigEndianBound(bytes);
    Pow2Words();
    r[0], r[1], r[2], r[3], r[4] := 0, 0, 0, 0, 0;
    NothingSet(r[..], v);
    for i := 0 to 32
      invariant LowBitsSet(r[..], v, 8 * i)
      invariant a[..] == bytes
    {
      for j := 0 to 2
        invariant LowBitsSet(r[..], v, 8 * i + 4 * j)
        invariant a[..] == bytes
      {
        var limb, shift := (8 * i + 4 * j) / 52, (8 * i + 4 * j) % 52;
        var nibble := Mask(Shr(a[31 - i], 4 * j), 4);
        NibbleOfBytes(bytes, i, j);
        SetNibble(r[..], v, 8 * i + 4 * j, nibble);
        ghost var n := r[..];
        r[limb] := r[limb] + Pow2(shift) * nibble;
        assert r[..] == n[limb := n[limb] + Pow2(shift) * nibble];
      }
    }
    AllSet(r[..], v);
    AtLeastP(r[0], r[1], r[2], r[3], r[4]);
    ok := !(r[4] == 0xFFFF_FFFF_FFFF && r[3] == M && r[2] == M && r[1] == M && r[0] >= 0xF_FFFE_FFFF_FC2F);
  }

  /** Byte i from the end of a string whose last i bytes are the low 8i bits of v. */
  lemma {:induction false} NextByte(tail: seq<u8>, c: u8, v: nat)
    requires BigEndian(tail) == Mask(v, 8 * |tail|)
    requires c == Field(v, 8 * |tail|, 4) + 16 * Field(v, 8 * |tail| + 4, 4)
    ensures BigEndian([c] + tail) == Mask(v, 8 * (|tail| + 1))
  {
    hide BigEndian, Pow2, Mask, Field;
    var k := 8 * |tail|;
    BigEndianFirst(c, tail);
    MaskGrows(v, k, 4);
    MaskGrows(v, k + 4, 4);
    Pow2Small();
    Pow2Split(k, 4, Pow2(k), 16);
    Distribute(Pow2(k), Field(v, k, 4), 16 * Field(v, k + 4, 4));
    Associate(Pow2(k), 16, Field(v, k + 4, 4));
  }

  method GetB32(r: array<u8>, a: array<u64>)
    requires r.Length == 32 && Canonical(a)
    modifies r
    ensures BigEndian(r[..]) == old(ValueOf(a)) && a[..] == old(a[..])
  {
    hide Pow2, Mask, Shr, Field, BigEndian, Value;
    ghost var n := a[..];
    ghost var v := ValueOf(a);
    BelowP(a[0], a[1], a[2], a[3], a[4]);
    NoBytes(v);
    assert r[32..] == [];
    for i := 0 to 32
      invariant a[..] == n
      invariant BigEndian(r[32 - i..]) == Mask(v, 8 * i)
    {
      var c: int := 0;
      ghost var tail := r[32 - i..];
      for j := 0 to 2
        invariant a[..] == n && r[32 - i..] == tail
        invariant c == (if j > 0 then Field(v, 8 * i, 4) else 0) + (if j > 1 then 16 * Field(v, 8 * i + 4, 4) else 0)
      {
        var limb, shift := (8 * i + 4 * j) / 52, (8 * i + 4 * j) % 52;
        NibbleAt(n, 8 * i + 4 * j);
        Pow2Small();
        c := c + Mask(Shr(a[limb], shift), 4) * Pow2(4 * j);
      }
      FourBits(v, 8 * i);
      FourBits(v, 8 * i + 4);
      NextByte(tail, c, v);
      r[31 - i] := c;
      assert r[31 - i..] == [c] + tail;
    }
    assert r[0..] == r[..];
    Pow2Words();
    MaskSmall(v, 256);
  }

  lemma {:induction false} NoBytes(v: nat)
    ensures BigEndian([]) == Mask(v, 0)
  {
    MaskZero(v);
  }

  /** An element survives the trip through its bytes. */
  method ElementThroughBytes(a: array<u64>) returns (b: array<u64>, ok: bool)
    requires Canonical(a)
    ensures fresh(b) && ok && b.Length == 5 && b[..] == old(a[..])
  {
    hide BigEndian, Value, Cong;
    ghost var n := a[..];
    var bytes := new u8[32];
    GetB32(bytes, a);
    b := new u64[5];
    ok := SetB32(b, bytes);
    assert a[..] == n;
    CongRefl(ValueOf(b), P);
    CanonicalUnique(b, a);
  }

  /** Bytes survive the trip through an element exactly when they are below P. */
  method BytesThroughElement(a: array<u8>) returns (b: array<u8>, ok: bool)
    requires a.Length == 32
    ensures fresh(b) && b.Length == 32
    ensures ok <==> BigEndian(old(a[..])) < P
    ensures ok ==> b[..] == old(a[..])
  {
    hide BigEndian, Value;
    b := new u8[32];
    var n := new u64[5];
    ok := SetB32(n, a);
    if ok {
      GetB32(b, n);
      BigEndianInjective(b[..], old(a[..]));
    }
  }

  /** r = -a, as a large enough multiple of P minus a, limb by limb. */
  method Negate(r: array<u64>, a: array<u64>, m: nat)
    requires r.Length == 5 && Magnitude(a, m) && m < 2048
    modifies r
    ensures Magnitude(r, m + 1) && Cong(ValueOf(r), 0 - old(ValueOf(a)), P)
  {
    hide Value, Cong;
    ghost var a0: int, a1: int, a2: int, a3: int, a4: int := a[0], a[1], a[2], a[3], a[4];
    NegateFits(a0, 0xF_FFFE_FFFF_FC2F, 0xF_FFFF_FFFF_FFFF, m);
    NegateFits(a1, 0xF_FFFF_FFFF_FFFF, 0xF_FFFF_FFFF_FFFF, m);
    NegateFits(a2, 0xF_FFFF_FFFF_FFFF, 0xF_FFFF_FFFF_FFFF, m);
    NegateFits(a3, 0xF_FFFF_FFFF_FFFF, 0xF_FFFF_FFFF_FFFF, m);
    NegateFits(a4, 0xFFFF_FFFF_FFFF, 0xFFFF_FFFF_FFFF, m);
    r[0] := 0xF_FFFE_FFFF_FC2F * (2 * (m + 1)) - a[0];
    r[1] := 0xF_FFFF_FFFF_FFFF * (2 * (m + 1)) - a[1];
    r[2] := 0xF_FFFF_FFFF_FFFF * (2 * (m + 1)) - a[2];
    r[3] := 0xF_FFFF_FFFF_FFFF * (2 * (m + 1)) - a[3];
    r[4] := 0xFFFF_FFFF_FFFF * (2 * (m + 1)) - a[4];
    MultipleMinus(a0, a1, a2, a3, a4, 2 * (m + 1));
    CongFromMultiple(ValueOf(r), 0 - Value(a0, a1, a2, a3, a4), P, 2 * (m + 1));
  }

  lemma {:induction false} NegateFits(x: int, p: int, limb: int, m: nat)
    requires 0 <= x <= limb * (2 * m) && m < 2048
    requires p == limb || (p == 0xF_FFFE_FFFF_FC2F && limb == 0xF_FFFF_FFFF_FFFF)
    requires limb == 0xF_FFFF_FFFF_FFFF || limb == 0xFFFF_FFFF_FFFF
    ensures 0 <= p * (2 * (m + 1)) - x < TWO64 && p * (2 * (m + 1)) - x <= limb * (2 * (m + 1))
  {
  }

  lemma {:induction false} MultipleMinus(a0: int, a1: int, a2: int, a3: int, a4: int, k: int)
    ensures Value(0xF_FFFE_FFFF_FC2F * k - a0, 0xF_FFFF_FFFF_FFFF * k - a1, 0xF_FFFF_FFFF_FFFF * k - a2,
                  0xF_FFFF_FFFF_FFFF * k - a3, 0xFFFF_FFFF_FFFF * k - a4)
         == 0 - Value(a0, a1, a2, a3, a4) + P * k
  {
  }
}
