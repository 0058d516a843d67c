/** Multiplication of the generator with a precomputed, blinded table (ecmult_gen_impl.h). */
module EcmultGen {
  import opened Machine
  import opened Bits
  import opened Congruence
  import opened ScalarMul
  import opened Scalar
  import opened Points

  /** The "nothing up my sleeve" point plus G, whose multiples hide the table entries. */
  const NUMS := Plus(BASE_U, BASE_G)

  /** The multiple of NUMS in row j: 2^j, and in the last row what makes the rows sum to nothing. */
  ghost function RowMask(j: nat): int {
    if j < 63 then Pow2(j) else 1 - Pow2(63)
  }

  /** Entry i of row j: i * 16^j * G, hidden by the row's multiple of NUMS. */
  ghost function Entry(j: nat, i: nat): Point {
    Plus(Times(RowMask(j), NUMS), Times(Pow2(4 * j) * i, BASE_G))
  }

  ghost function RowMaskSum(j: nat): int {
    if j == 0 then 0 else RowMaskSum(j - 1) + RowMask(j - 1)
  }

  /** The rows' multiples of NUMS sum to nothing. */
  lemma {:induction false} RowMasksCancel()
    ensures RowMaskSum(64) == 0
  {
    hide Pow2;
    var last := 63;
    RowMasksUpTo(last);
    assert RowMaskSum(last + 1) == RowMaskSum(last) + RowMask(last);
  }

  lemma {:induction false} RowMasksUpTo(j: nat)
    requires j <= 63
    ensures RowMaskSum(j) == Pow2(j) - 1
  {
    if j > 0 {
      RowMasksUpTo(j - 1);
      Pow2Unfold(j - 1);
    }
  }

  lemma {:induction false} NextEntry(j: nat, i: nat)
    ensures Plus(Entry(j, i), Times(Pow2(4 * j), BASE_G)) == Entry(j, i + 1)
    ensures Entry(j, 0) == Times(RowMask(j), NUMS)
  {
    Distribute(Pow2(4 * j), i, 1);
  }

  class EcmultGenContext {
    var prec: array2?<Point>
    var initial: Point
    var blind: array<u64>

    ghost predicate TableBuilt()
      reads this, prec
    {
      prec != null && prec.Length0 == 64 && prec.Length1 == 16
      && forall j, i :: 0 <= j < 64 && 0 <= i < 16 ==> prec[j, i] == Entry(j, i)
    }

    /** A usable context: the table is in place and the initial point cancels the blinding value. */
    ghost predicate Valid()
      reads this, prec, blind
    {
      TableBuilt() && blind.Length == 4 && Val(blind) < N && Same(initial, Times(0 - Val(blind), BASE_G))
    }

    constructor ()
      ensures prec == null && blind.Length == 4
    {
      prec := null;
      initial := INFINITY;
      blind := new u64[4];
    }

    /** gn*G: the initial point plus one entry from each row, chosen by the digits of gn + blind. */
    method Multiply(gn: array<u64>) returns (r: Point)
      requires Valid() && gn.Length == 4 && Val(gn) < N
      ensures Same(r, Times(Val(gn), BASE_G))
    {
      hide Val4, Cong, Same, Pow2, Mask, Shr, Entry, RowMaskSum, Field, Times, Plus;
      r := initial;
      var gnb := new u64[4];
      var over := Add(gnb, gn, blind);
      ghost var v := Val(gnb);
      Start(r, v);
      for j := 0 to 64
        invariant Valid() && gnb.Length == 4 && Val(gnb) == v
        invariant r == Partial(initial, v, j)
      {
        var bits := GetBits(gnb, j * 4, 4);
        DigitBound(v, j * 4);
        var adds := INFINITY;
        for i := 0 to 16
          invariant i > bits ==> adds == Entry(j, bits)
        {
          if i == bits {
            adds := prec[j, i];
          }
        }
        PartialStep(initial, v, j);
        r := Plus(r, adds);
      }
      WholeSum(initial, v, Val(blind), Val(gn), over);
    }

    /** Replaces the blinding value. `b` is the nonzero scalar drawn from the seeded generator; a null
        seed first resets the context, so it needs only the table. */
    method Blind(resetFirst: bool, b: array<u64>)
      requires TableBuilt() && (resetFirst || Valid())
      requires b.Length == 4 && 0 < Val(b) < N && b != blind
      modifies this, b
      ensures Valid() && prec == old(prec) && fresh(blind)
      ensures Val(blind) == N - old(Val(b)) && Same(initial, Times(old(Val(b)), BASE_G))
    {
      hide Val4, Cong, Same, Entry, Times;
      if resetFirst {
        initial := Neg(BASE_G);
        blind := NewOne();
        FirstBlinding();
      }
      ghost var v := Val(b);
      var gb := Multiply(b);
      Negate(b, b);
      blind := Copy(b);
      initial := gb;
      Negation(gb, v);
    }

    /** Fills the table, then blinds for the first time. */
    method Build(b: array<u64>)
      requires prec != null ==> Valid()
      requires b.Length == 4 && 0 < Val(b) < N && b != blind
      modifies this, b
      ensures Valid()
      ensures old(prec) != null ==> prec == old(prec)
    {
      if prec != null {
        return;
      }
      hide Val4, Cong, Same, Entry, Times;
      var t := ComputeTable();
      prec := t;
      Blind(true, b);
    }
  }

  method NewOne() returns (one: array<u64>)
    ensures fresh(one) && one.Length == 4 && Val(one) == 1
  {
    one := new u64[4];
    one[0], one[1], one[2], one[3] := 1, 0, 0, 0;
  }

  method Copy(b: array<u64>) returns (c: array<u64>)
    requires b.Length == 4
    ensures fresh(c) && c.Length == 4 && Val(c) == Val(b)
  {
    c := new u64[4];
    c[0], c[1], c[2], c[3] := b[0], b[1], b[2], b[3];
  }

  lemma {:induction false} FirstBlinding()
    ensures Same(Neg(BASE_G), Times(0 - 1, BASE_G))
  {
    SameRefl(Neg(BASE_G));
  }

  /** The point b*G is what the blinding value -b has to cancel. */
  lemma {:induction false} Negation(gb: Point, b: int)
    requires Same(gb, Times(b, BASE_G)) && 0 < b < N
    ensures Same(gb, Times(0 - (N - b), BASE_G))
  {
    CongFromMultiple(b, 0 - (N - b), N, 1);
    hide Cong, Same, Times;
    SameMultiples(b, 0 - (N - b), BASE_G);
    SameTrans(gb, Times(b, BASE_G), Times(0 - (N - b), BASE_G));
  }

  /** One row: sixteen successive sums of gbase, from numsbase on. */
  method FillRow(precj: array<Point>, j: nat, numsbase: Point, gbase: Point)
    requires precj.Length == 1024 && j < 64
    requires numsbase == Times(RowMask(j), NUMS) && gbase == Times(Pow2(4 * j), BASE_G)
    modifies precj
    ensures forall i :: 0 <= i < 16 ==> precj[j * 16 + i] == Entry(j, i)
    ensures forall k :: 0 <= k < j * 16 ==> precj[k] == old(precj[k])
  {
    hide RowMask, Times, Pow2, Plus, Entry;
    precj[j * 16] := numsbase;
    NextEntry(j, 0);
    for i := 1 to 16
      invariant forall m :: 0 <= m < i ==> precj[j * 16 + m] == Entry(j, m)
      invariant forall k :: 0 <= k < j * 16 ==> precj[k] == old(precj[k])
    {
      NextEntry(j, i - 1);
      precj[j * 16 + i] := Plus(precj[j * 16 + i - 1], gbase);
    }
  }

  lemma {:induction false} Times16(k: nat, p: Point)
    ensures Double(Double(Double(Double(Times(Pow2(k), p))))) == Times(Pow2(k + 4), p)
  {
    hide Times, Pow2, Double;
    Pow2Unfold(k); Pow2Unfold(k + 1); Pow2Unfold(k + 2); Pow2Unfold(k + 3);
    TimesTwice(Pow2(k), p); TimesTwice(Pow2(k + 1), p); TimesTwice(Pow2(k + 2), p); TimesTwice(Pow2(k + 3), p);
  }

  /** How numsbase changes from one row to the next. */
  lemma {:induction false} NextRowMask(j: nat)
    requires j < 63
    ensures var d := Double(Times(RowMask(j), NUMS));
      Times(RowMask(j + 1), NUMS) == if j == 62 then Plus(Neg(d), NUMS) else d
  {
    hide Times, Pow2, Double;
    Pow2Unfold(j);
    TimesTwice(RowMask(j), NUMS);
    if j == 62 {
      TimesSum(1, Pow2(63), NUMS);
      TimesTwice(1, NUMS);
      Commute(NUMS, Neg(Times(Pow2(63), NUMS)));
    }
  }

  lemma {:induction false} Commute(p: Point, q: Point)
    ensures Plus(p, q) == Plus(q, p)
  {
  }

  method ComputeTable() returns (prec: array2<Point>)
    ensures fresh(prec) && prec.Length0 == 64 && prec.Length1 == 16
    ensures forall j, i :: 0 <= j < 64 && 0 <= i < 16 ==> prec[j, i] == Entry(j, i)
  {
    hide RowMask, Times, Pow2, Plus, Entry, Double, Neg;
    var precj := new Point[1024](_ => INFINITY);
    var gbase, numsbase := BASE_G, NUMS;
    FirstRow();
    for j := 0 to 64
      invariant j < 64 ==> gbase == Times(Pow2(4 * j), BASE_G) && numsbase == Times(RowMask(j), NUMS)
      invariant forall m, i :: 0 <= m < j && 0 <= i < 16 ==> precj[m * 16 + i] == Entry(m, i)
    {
      FillRow(precj, j, numsbase, gbase);
      Times16(4 * j, BASE_G);
      gbase := Double(gbase);
      gbase := Double(gbase);
      gbase := Double(gbase);
      gbase := Double(gbase);
      if j < 63 {
        NextRowMask(j);
      }
      numsbase := Double(numsbase);
      if j == 62 {
        numsbase := Neg(numsbase);
        numsbase := Plus(numsbase, NUMS);
      }
    }
    prec := new Point[64, 16]((j, i) => INFINITY);
    for j := 0 to 64
      invariant forall m, i :: 0 <= m < j && 0 <= i < 16 ==> prec[m, i] == Entry(m, i)
      invariant forall m, i :: 0 <= m < 64 && 0 <= i < 16 ==> precj[m * 16 + i] == Entry(m, i)
    {
      for i := 0 to 16
        invariant forall m, n :: 0 <= m < j && 0 <= n < 16 ==> prec[m, n] == Entry(m, n)
        invariant forall n :: 0 <= n < i ==> prec[j, n] == Entry(j, n)
        invariant forall m, n :: 0 <= m < 64 && 0 <= n < 16 ==> precj[m * 16 + n] == Entry(m, n)
      {
        prec[j, i] := precj[j * 16 + i];
      }
    }
  }

  lemma {:induction false} FirstRow()
    ensures BASE_G == Times(Pow2(0), BASE_G) && NUMS == Times(RowMask(0), NUMS)
  {
  }

  lemma {:induction false} DigitBound(v: nat, k: nat)
    ensures Field(v, k, 4) < 16
  {
    Pow2Small();
  }

  /** What the loop has summed after j rows. */
  ghost function Partial(initial: Point, v: nat, j: nat): Point {
    Plus(initial, Plus(Times(RowMaskSum(j), NUMS), Times(Mask(v, 4 * j), BASE_G)))
  }

  lemma {:induction false} Start(initial: Point, v: nat)
    ensures Partial(initial, v, 0) == initial
  {
    hide Plus, Times;
    DivModUnique(v, 1, v, 0);
    NoRows(initial, NUMS, BASE_G);
  }

  lemma {:induction false} Rearrange(p: Point, x: Point, y: Point, x': Point, y': Point)
    ensures Plus(Plus(p, Plus(x, y)), Plus(x', y')) == Plus(p, Plus(Plus(x, x'), Plus(y, y')))
  {
  }

  lemma {:induction false} PartialStep(initial: Point, v: nat, j: nat)
    ensures Plus(Partial(initial, v, j), Entry(j, Field(v, j * 4, 4))) == Partial(initial, v, j + 1)
  {
    hide Mask, Field, RowMask, RowMaskSum, Plus, Times, Pow2;
    var low, x := Mask(v, 4 * j), Pow2(4 * j) * Field(v, 4 * j, 4);
    MaskGrows(v, 4 * j, 4);
    assert Mask(v, 4 * (j + 1)) == low + x;
    RowMaskNext(j);
    TimesSum(RowMaskSum(j), RowMask(j), NUMS);
    TimesSum(low, x, BASE_G);
    Rearrange(initial, Times(RowMaskSum(j), NUMS), Times(low, BASE_G), Times(RowMask(j), NUMS), Times(x, BASE_G));
  }

  lemma {:induction false} RowMaskNext(j: nat)
    ensures RowMaskSum(j + 1) == RowMaskSum(j) + RowMask(j)
  {
  }

  /** The rows cancel, the digits make up the blinded scalar and the initial point unblinds it. */
  lemma {:induction false} WholeSum(initial: Point, v: nat, blind: int, gn: int, over: int)
    requires v < TWO256 && Same(initial, Times(0 - blind, BASE_G)) && v == gn + blind - over * N
    ensures Same(Partial(initial, v, 64), Times(gn, BASE_G))
  {
    RowMasksCancel();
    Pow2Words();
    MaskSmall(v, 256);
    assert Partial(initial, v, 64) == Plus(initial, Times(v, BASE_G));
    hide Same, Cong, Partial;
    SameRefl(Times(v, BASE_G));
    SamePlus(initial, Times(0 - blind, BASE_G), Times(v, BASE_G), Times(v, BASE_G));
    TimesSum(0 - blind, v, BASE_G);
    CongFromMultiple(v - blind, gn, N, -over);
    SameMultiples(v - blind, gn, BASE_G);
    SameTrans(Partial(initial, v, 64), Times(v - blind, BASE_G), Times(gn, BASE_G));
  }

  /** Any number of re-blindings, with a seed or as a reset without one, keeps the context usable. */
  method Reblind(ctx: EcmultGenContext, resets: seq<bool>, draws: seq<array<u64>>)
    requires ctx.Valid() && |resets| == |draws|
    requires forall d :: d in draws ==> d.Length == 4 && 0 < Val(d) < N && d != ctx.blind
    requires forall i, j :: 0 <= i < j < |draws| ==> draws[i] != draws[j]
    modifies ctx, set d | d in draws
    ensures ctx.Valid() && ctx.prec == old(ctx.prec)
    ensures draws != [] ==> Val(ctx.blind) == N - old(Val(draws[|draws| - 1]))
  {
    hide Val4, Cong, Same, Entry, Times;
    for i := 0 to |draws|
      invariant ctx.Valid() && ctx.prec == old(ctx.prec)
      invariant ctx.blind == old(ctx.blind) || fresh(ctx.blind)
      invariant forall k :: i <= k < |draws| ==> draws[k].Length == 4 && Val(draws[k]) == old(Val(draws[k]))
      invariant i > 0 ==> Val(ctx.blind) == N - old(Val(draws[i - 1]))
    {
      ctx.Blind(resets[i], draws[i]);
    }
  }
}
