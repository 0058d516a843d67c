/** Byte strings as big-endian numbers. */
module Bytes {
  import opened Machine
  import opened Bits

  function BigEndian(b: seq<u8>): nat {
    if b == [] then 0 else 0x100 * BigEndian(b[..|b| - 1]) + b[|b| - 1]
  }

  lemma {:induction false} BigEndianConcat(x: seq<u8>, y: seq<u8>)
    ensures BigEndian(x + y) == Pow2(8 * |y|) * BigEndian(x) + BigEndian(y)
  {
    if y == [] {
      assert x + y == x;
      Pow2Unfold(0);
    } else {
      var z := y[..|y| - 1];
      assert (x + y)[..|x + y| - 1] == x + z;
      BigEndianConcat(x, z);
      BytePower(|z|);
      hide BigEndian, Pow2;
      BigEndianLast(y);
      BigEndianLast(x + y);
      Associate(0x100, Pow2(8 * |z|), BigEndian(x));
    }
  }

  lemma {:induction false} BigEndianLast(b: seq<u8>)
    requires b != []
    ensures BigEndian(b) == 0x100 * BigEndian(b[..|b| - 1]) + b[|b| - 1]
  {
  }

  lemma {:induction false} BytePower(n: nat)
    ensures Pow2(8 * (n + 1)) == 0x100 * Pow2(8 * n)
  {
    hide Pow2;
    Pow2Small();
    Pow2Split(8, 8 * n, 0x100, Pow2(8 * n));
  }

  lemma {:induction false} BigEndianBound(b: seq<u8>)
    ensures BigEndian(b) < Pow2(8 * |b|)
  {
    if b != [] {
      BigEndianBound(b[..|b| - 1]);
      BytePower(|b| - 1);
    }
  }

  /** A number has one representation of each length. */
  lemma {:induction false} BigEndianInjective(x: seq<u8>, y: seq<u8>)
    requires |x| == |y| && BigEndian(x) == BigEndian(y)
    ensures x == y
  {
    if x != [] {
      BigEndianInjective(x[..|x| - 1], y[..|y| - 1]);
      assert x == x[..|x| - 1] + [x[|x| - 1]] && y == y[..|y| - 1] + [y[|y| - 1]];
    }
  }

  lemma {:induction false} BigEndianNone()
    ensures BigEndian([]) == 0
  {
  }

  lemma {:induction false} BigEndianSingle(x: u8)
    ensures BigEndian([x]) == x
  {
    assert [x][..0] == [];
  }

  /** The first byte of a longer string carries the highest weight. */
  lemma {:induction false} BigEndianFirst(x: u8, y: seq<u8>)
    ensures BigEndian([x] + y) == Pow2(8 * |y|) * x + BigEndian(y)
  {
    BigEndianConcat([x], y);
    BigEndianSingle(x);
  }

  // ---------- Slices ----------

  lemma {:induction false} SliceOfSlice(b: seq<u8>, i: nat, j: nat, x: nat, y: nat)
    requires i <= j <= |b| && x <= y <= j - i
    ensures b[i..j][x..y] == b[i + x..i + y]
  {
    var (s, t) := (b[i..j][x..y], b[i + x..i + y]);
    forall k | 0 <= k < y - x ensures s[k] == t[k] {
      assert s[k] == b[i..j][x + k] == b[i + (x + k)];
    }
  }

  lemma {:induction false} SlicesOfConcat(x: seq<u8>, y: seq<u8>, z: seq<u8>)
    ensures var s := x + y + z;
      s[..|x|] == x && s[|x|..|x| + |y|] == y && s[|x| + |y|..|s|] == z
  {
  }

  // ---------- Shortest forms ----------

  /** The shortest big-endian form of a number; 0 is the empty string. */
  function IntBytes(n: nat): seq<u8> {
    if n == 0 then [] else IntBytes(n / 0x100) + [n % 0x100]
  }

  lemma {:induction false} IntBytesValue(n: nat)
    ensures BigEndian(IntBytes(n)) == n
    ensures n > 0 ==> |IntBytes(n)| > 0 && IntBytes(n)[0] != 0
  {
    if n > 0 {
      IntBytesValue(n / 0x100);
      var x := IntBytes(n / 0x100);
      assert (x + [n % 0x100])[..|x|] == x;
    }
  }

  /** A string without a leading zero is the shortest form of its number. */
  lemma {:induction false} IntBytesOf(b: seq<u8>)
    requires b != [] ==> b[0] != 0
    ensures IntBytes(BigEndian(b)) == b
    ensures b != [] ==> BigEndian(b) > 0
  {
    hide BigEndian, IntBytes;
    if b == [] {
      BigEndianNone();
      IntBytesNone();
    } else {
      var (x, d) := (b[..|b| - 1], b[|b| - 1]);
      IntBytesOf(x);
      BigEndianLast(b);
      BigEndianNone();
      assert b == x + [d];
      IntBytesStep(BigEndian(x), d);
    }
  }

  lemma {:induction false} IntBytesNone()
    ensures IntBytes(0) == []
  {
  }

  lemma {:induction false} IntBytesStep(h: nat, d: u8)
    requires 0x100 * h + d > 0
    ensures IntBytes(0x100 * h + d) == IntBytes(h) + [d]
  {
    DivModUnique(0x100 * h + d, 0x100, h, d);
  }

  /** n has at most k bytes exactly when it is below 256^k. */
  lemma {:induction false} IntBytesLength(n: nat, k: nat)
    ensures |IntBytes(n)| <= k <==> n < Pow2(8 * k)
  {
    if n == 0 {
    } else if k == 0 {
      assert IntBytes(n) != [];
    } else {
      IntBytesLength(n / 0x100, k - 1);
      BytePower(k - 1);
    }
  }

  // ---------- The bytes of a 64-bit word ----------

  /** byte(i >> s), where the divisor is 2^s. */
  function Octet(i: nat, divisor: nat): u8
    requires divisor > 0
  {
    i / divisor % 0x100
  }

  /** A number cut into bytes, most significant first. */
  function Octets(i: nat): (s: seq<u8>)
    ensures |s| == 8
  {
    [Octet(i, 0x100_0000_0000_0000), Octet(i, 0x1_0000_0000_0000), Octet(i, 0x100_0000_0000),
     Octet(i, 0x1_0000_0000), Octet(i, 0x100_0000), Octet(i, 0x1_0000), Octet(i, 0x100), Octet(i, 1)]
  }

  /** Eight bytes moved into one word, b[at] highest. */
  function Word(b: seq<u8>, at: nat): (w: nat)
    requires at + 8 <= |b|
  {
    var x: seq<int> := b;
    x[at + 7] + 0x100 * x[at + 6] + 0x1_0000 * x[at + 5] + 0x100_0000 * x[at + 4] + 0x1_0000_0000 * x[at + 3]
    + 0x100_0000_0000 * x[at + 2] + 0x1_0000_0000_0000 * x[at + 1] + 0x100_0000_0000_0000 * x[at]
  }

  lemma {:induction false} WordIsBigEndian(b: seq<u8>, at: nat)
    requires at + 8 <= |b|
    ensures Word(b, at) == BigEndian(b[at..at + 8]) < TWO64
  {
    BigEndianEight(b[at..at + 8]);
  }

  lemma {:induction false} BigEndianEight(c: seq<u8>)
    requires |c| == 8
    ensures BigEndian(c) == Word(c, 0) < TWO64
  {
    BigEndianLast(c[..8]);
    assert c[..8] == c;
    forall k | 0 < k < 8 ensures BigEndian(c[..k + 1]) == 0x100 * BigEndian(c[..k]) + c[k] {
      BigEndianLast(c[..k + 1]);
      assert c[..k + 1][..k] == c[..k];
    }
    hide BigEndian;
    BigEndianSingle(c[0]);
    assert c[..1] == [c[0]];
  }

  /** d / 0x100^k, one byte at a time. */
  ghost function Quotient(d: nat, k: nat): nat {
    if k == 0 then d else Quotient(d, k - 1) / 0x100
  }

  ghost predicate QuotientBy(d: nat, k: nat, power: nat) {
    power > 0 && Quotient(d, k) == d / power
  }

  lemma {:induction false} OctetStep(d: nat, k: nat, power: nat, next: nat)
    requires QuotientBy(d, k, power) && next == 0x100 * power
    ensures power > 0 && Quotient(d, k) == 0x100 * Quotient(d, k + 1) + Octet(d, power)
    ensures QuotientBy(d, k + 1, next)
  {
    DivDiv(d, power, 0x100);
  }

  lemma {:induction false} QuotientEnds(d: u64)
    ensures QuotientBy(d, 0, 1) && Quotient(d, 0) == d
    ensures QuotientBy(d, 8, 0x1_0000_0000_0000_0000) ==> Quotient(d, 8) == 0
  {
    DivModUnique(d, 0x1_0000_0000_0000_0000, 0, d);
    DivModUnique(d, 1, d, 0);
  }

  lemma {:induction false} OctetsWord(d: u64)
    ensures Word(Octets(d), 0) == d
  {
    hide Octet, Quotient, QuotientBy;
    QuotientEnds(d);
    OctetStep(d, 0, 1, 0x100);
    OctetStep(d, 1, 0x100, 0x1_0000);
    OctetStep(d, 2, 0x1_0000, 0x100_0000);
    OctetStep(d, 3, 0x100_0000, 0x1_0000_0000);
    OctetStep(d, 4, 0x1_0000_0000, 0x100_0000_0000);
    OctetStep(d, 5, 0x100_0000_0000, 0x1_0000_0000_0000);
    OctetStep(d, 6, 0x1_0000_0000_0000, 0x100_0000_0000_0000);
    OctetStep(d, 7, 0x100_0000_0000_0000, 0x1_0000_0000_0000_0000);
    Horner(Octet(d, 1), Octet(d, 0x100), Octet(d, 0x1_0000), Octet(d, 0x100_0000), Octet(d, 0x1_0000_0000),
           Octet(d, 0x100_0000_0000), Octet(d, 0x1_0000_0000_0000), Octet(d, 0x100_0000_0000_0000),
           Quotient(d, 1), Quotient(d, 2), Quotient(d, 3), Quotient(d, 4), Quotient(d, 5), Quotient(d, 6), Quotient(d, 7), Quotient(d, 8));
  }

  lemma {:induction false} Horner(o0: nat, o1: nat, o2: nat, o3: nat, o4: nat, o5: nat, o6: nat, o7: nat,
                                  q1: nat, q2: nat, q3: nat, q4: nat, q5: nat, q6: nat, q7: nat, q8: nat)
    requires q1 == 0x100 * q2 + o1 && q2 == 0x100 * q3 + o2 && q3 == 0x100 * q4 + o3 && q4 == 0x100 * q5 + o4
    requires q5 == 0x100 * q6 + o5 && q6 == 0x100 * q7 + o6 && q7 == 0x100 * q8 + o7
    ensures 0x100 * q1 + o0 == o0 + 0x100 * o1 + 0x1_0000 * o2 + 0x100_0000 * o3 + 0x1_0000_0000 * o4 + 0x100_0000_0000 * o5
      + 0x1_0000_0000_0000 * o6 + 0x100_0000_0000_0000 * o7 + 0x1_0000_0000_0000_0000 * q8
  {
  }

  lemma {:induction false} OctetsValue(d: u64)
    ensures BigEndian(Octets(d)) == d
  {
    hide BigEndian, Word, Octets;
    BigEndianEight(Octets(d));
    OctetsWord(d);
  }
}
