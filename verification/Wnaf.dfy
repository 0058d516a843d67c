/** The width-w non-adjacent form of a scalar (ecmult_wnaf in ecmult_impl.h). */
module Wnaf {
  import opened Machine
  import opened Bits
  import opened ScalarMul
  import opened Scalar

  /** The number that signed binary digits stand for, least significant first. */
  ghost function Sum(d: seq<int>): int {
    if d == [] then 0 else d[0] + 2 * Sum(d[1..])
  }

  lemma {:induction false} SumZeros(d: seq<int>)
    requires forall i :: 0 <= i < |d| ==> d[i] == 0
    ensures Sum(d) == 0
  {
    if d != [] {
      SumZeros(d[1..]);
    }
  }

  lemma {:induction false} SumUpdate(d: seq<int>, i: nat, x: int)
    requires i < |d| && d[i] == 0
    ensures Sum(d[i := x]) == Sum(d) + Pow2(i) * x
  {
    if i == 0 {
      assert d[0 := x][1..] == d[1..];
    } else {
      SumUpdate(d[1..], i - 1, x);
      assert d[i := x][1..] == d[1..][i - 1 := x];
      Associate(2, Pow2(i - 1), x);
    }
  }

  /** A reduced scalar read as a signed number: negative when its top bit is set. */
  ghost function Signed(v: int): int {
    if v >= 0x8000_0000_0000_0000_0000_0000_0000_0000_0000_0000_0000_0000_0000_0000_0000_0000 then v - N else v
  }

  ghost function Abs(x: int): nat {
    if x < 0 then -x else x
  }

  /** The digits of a width-w form: odd or zero, below 2^(w-1), at least w apart. */
  ghost predicate WindowDigits(d: seq<int>, w: nat)
    requires w >= 1
  {
    && (forall i :: 0 <= i < |d| && d[i] != 0 ==> d[i] % 2 == 1 && Abs(d[i]) < Pow2(w - 1))
    && (forall i, j :: 0 <= i < j < |d| && d[i] != 0 && d[j] != 0 ==> i + w <= j)
  }

  /** The lowest bit of a field is the field of one bit. */
  lemma {:induction false} FieldParity(v: nat, k: nat, count: nat)
    requires count >= 1
    ensures Field(v, k, count) % 2 == Field(v, k, 1) && Field(v, k, 1) <= 1
  {
    hide Pow2, Shr;
    Pow2Unfold(0);
    Pow2Unfold(count - 1);
    ParityOfRemainder(Shr(v, k), Pow2(count), Pow2(count - 1), Pow2(1));
  }

  lemma {:induction false} ParityOfRemainder(x: nat, c: nat, half: nat, two: nat)
    requires half > 0 && c == 2 * half && two == 2
    ensures (x % c) % 2 == x % two && x % two <= 1
  {
    assert x == c * (x / c) + x % c;
    Associate(2, half, x / c);
    ModAddMultiple(x % c, half * (x / c), 2);
  }

  /** One window: what the digit and the new carry are, given that the window and the carry in add
      up to an odd word of at most `top` = 2^now, where 2^(w-1) = half. */
  lemma {:induction false} Digit(word: nat, half: nat, top: nat, full: bool)
    requires word % 2 == 1 && half % 2 == 0 && half >= 2
    requires word <= top && if full then top == 2 * half else top <= half
    ensures var c := (word / half) % 2; var d := word - c * (2 * half);
      && d % 2 == 1 && Abs(d) < half
      && (c == 1 ==> full && word > half)
  {
    if word < half {
      DivModUnique(word, half, 0, word);
    } else {
      assert half < word < 2 * half;
      DivModUnique(word, half, 1, word - half);
    }
  }

  /** The invariant of the recoding loop: the digits so far and the carry make up the low bits of s. */
  ghost predicate Recoded(s: nat, bit: nat, sum: int, carry: int) {
    && 0 <= carry <= 1
    && sum + carry * Pow2(bit) == Mask(s, bit)
    && (carry == 1 ==> 2 * Mask(s, bit) >= Pow2(bit))
  }

  /** A bit equal to the carry needs no digit. */
  lemma {:induction false} SkipBit(s: nat, bit: nat, sum: int, carry: int)
    requires Recoded(s, bit, sum, carry) && Field(s, bit, 1) == carry
    ensures Recoded(s, bit + 1, sum, carry)
  {
    hide Mask, Field;
    MaskGrows(s, bit, 1);
    Pow2Unfold(bit);
  }

  /** A window takes `now` bits into one digit. */
  lemma {:induction false} TakeWindow(s: nat, bit: nat, now: nat, w: nat, sum: int, carry: int, word: nat)
    requires Recoded(s, bit, sum, carry) && Field(s, bit, 1) != carry
    requires 2 <= w && 1 <= now <= w && word == Field(s, bit, now) + carry
    ensures var c := (word / Pow2(w - 1)) % 2; var d := word - c * Pow2(w);
      && d % 2 == 1 && Abs(d) < Pow2(w - 1) && word % 2 == 1 && word <= Pow2(now)
      && Recoded(s, bit + now, sum + Pow2(bit) * d, c)
  {
    hide Mask, Field, Pow2;
    FieldParity(s, bit, now);
    MaskGrows(s, bit, now);
    Pow2Unfold(w - 1);
    WindowFits(word, s, bit, now, w, carry);
    Pow2Add(bit, now);
    WindowStep(sum, carry, Pow2(bit), Mask(s, bit), Field(s, bit, now), word, Pow2(w - 1), Pow2(now), now == w);
  }

  /** The same, on the numbers alone: p = 2^bit, low and field are the bits before and in the window. */
  lemma {:induction false} WindowStep(sum: int, carry: int, p: nat, low: nat, field: nat, word: nat, half: nat, top: nat, full: bool)
    requires sum + carry * p == low && 0 <= carry <= 1 && word == field + carry
    requires word % 2 == 1 && half % 2 == 0 && half >= 2
    requires word <= top && if full then top == 2 * half else top <= half
    ensures var c := (word / half) % 2; var d := word - c * (2 * half);
      && d % 2 == 1 && Abs(d) < half && 0 <= c <= 1
      && sum + p * d + c * (p * top) == low + p * field
      && (c == 1 ==> 2 * (low + p * field) >= p * top)
  {
    Digit(word, half, top, full);
    var c := (word / half) % 2;
    WindowSum(sum, carry, p, low, field, half, c, top);
  }

  /** The bounds that a window and the carry into it meet. */
  lemma {:induction false} WindowFits(word: nat, s: nat, bit: nat, now: nat, w: nat, carry: int)
    requires 2 <= w && 1 <= now <= w && 0 <= carry <= 1 && word == Field(s, bit, now) + carry
    ensures word <= Pow2(now) && Pow2(w - 1) >= 2 && Pow2(w - 1) % 2 == 0
    ensures if now == w then Pow2(now) == 2 * Pow2(w - 1) else Pow2(now) <= Pow2(w - 1)
  {
    hide Field;
    FieldBound(s, bit, now);
    Pow2Unfold(w - 1);
    Pow2Unfold(w - 2);
    hide Pow2;
    if now < w {
      Pow2Monotone(now, w - 1);
    }
  }

  /** The accounting of one window, where p = 2^bit and top = 2^now. */
  lemma {:induction false} WindowSum(sum: int, carry: int, p: nat, low: nat, field: nat, half: nat, c: int, top: nat)
    requires sum + carry * p == low && 0 <= carry <= 1 && 0 <= c <= 1
    requires c == 1 ==> top == 2 * half && field + carry > half
    ensures sum + p * (field + carry - c * (2 * half)) + c * (p * top) == low + p * field
    ensures c == 1 ==> 2 * (low + p * field) >= p * top
  {
    Distribute(p, field, carry);
    if c == 1 {
      Distribute(p, field + carry, -(2 * half));
      Associate(2, p, half);
      Scale(half, field, p);
    }
  }

  lemma {:induction false} FieldBound(v: nat, k: nat, count: nat)
    ensures Field(v, k, count) < Pow2(count)
  {
  }

  /** Adding a digit at an empty position, on the side of the sign. */
  lemma {:induction false} SignedUpdate(d: seq<int>, i: nat, sign: int, digit: int)
    requires i < |d| && d[i] == 0 && (sign == 1 || sign == -1)
    ensures sign * Sum(d[i := sign * digit]) == sign * Sum(d) + Pow2(i) * digit
  {
    SumUpdate(d, i, sign * digit);
    assert Pow2(i) * -digit == -(Pow2(i) * digit);
  }

  lemma {:induction false} SignedDigit(sign: int, digit: int, w: nat)
    requires w >= 1 && digit % 2 == 1 && Abs(digit) < Pow2(w - 1) && (sign == 1 || sign == -1)
    ensures (sign * digit) % 2 == 1 && Abs(sign * digit) < Pow2(w - 1)
  {
    hide Pow2;
    if sign == -1 {
      assert sign * digit == -digit;
    }
  }

  /** A new digit w or more positions above all others keeps the form. */
  lemma {:induction false} ExtendDigits(d: seq<int>, i: nat, x: int, w: nat)
    requires w >= 1 && WindowDigits(d, w) && i < |d|
    requires forall j :: 0 <= j < |d| && d[j] != 0 ==> j + w <= i
    requires x % 2 == 1 && Abs(x) < Pow2(w - 1)
    ensures WindowDigits(d[i := x], w)
  {
  }

  lemma {:induction false} TopBit(v: nat)
    requires v < N
    ensures Field(v, 255, 1) == if Signed(v) < 0 then 1 else 0
  {
    hide Pow2;
    Pow2Words();
    Pow2Unfold(255);
    Pow2Unfold(0);
    var h := Pow2(255);
    if v >= h {
      DivModUnique(v, h, 1, v - h);
      DivModUnique(1, Pow2(1), 0, 1);
    } else {
      DivModUnique(v, h, 0, v);
      DivModUnique(0, Pow2(1), 0, 0);
    }
  }

  lemma {:induction false} StartRecoding(d: seq<int>, m: nat, w: nat)
    requires w >= 1 && forall i :: 0 <= i < |d| ==> d[i] == 0
    ensures Recoded(m, 0, Sum(d), 0) && Sum(d) == 0 && WindowDigits(d, w)
  {
    SumZeros(d);
    DivModUnique(m, 1, m, 0);
  }

  /** The digit that is computed in a 32-bit int is the right one. What is computed on the way fits an int
      exactly if w < 31 or there is no carry; otherwise the shifted carry and the difference wrap around. */
  lemma {:induction false} WordFits(word: nat, c: int, w: nat)
    requires 2 <= w <= 31 && word % 2 == 1 && word <= Pow2(w) && 0 <= c <= 1
    requires Abs(word - c * Pow2(w)) < Pow2(w - 1)
    ensures Int32(word) == word && Int32(word - Int32(c * Pow2(w))) == word - c * Pow2(w)
    ensures Int32(c * Pow2(w)) == c * Pow2(w) <==> w < 31 || c == 0
    ensures Int32(word - Int32(c * Pow2(w))) == word - Int32(c * Pow2(w)) <==> w < 31 || c == 0
  {
    hide Pow2;
    Pow2Monotone(w, 31);
    Pow2Unfold(31);
    Pow2Unfold(w - 1);
    Pow2Words();
    if c == 1 && w == 31 {
      assert Int32(c * Pow2(w)) == -0x8000_0000;
    } else if c == 1 {
      Pow2Monotone(w, 30);
      Pow2Unfold(30);
    }
  }

  /** The digit of the window of `now` bits at `bit`, and the carry out of it. */
  method WindowDigit(s: array<u64>, bit: nat, now: nat, w: nat, carry: int, ghost sum: int) returns (word: int, next: int)
    requires s.Length == 4 && 2 <= w <= 31 && 1 <= now <= w && bit + now <= 256
    requires Recoded(Val(s), bit, sum, carry) && Field(Val(s), bit, 1) != carry
    ensures word % 2 == 1 && Abs(word) < Pow2(w - 1) && 0 <= next <= 1
    ensures Recoded(Val(s), bit + now, sum + Pow2(bit) * word, next)
  {
    hide Val4, Pow2, Mask, Shr, Field, Recoded;
    var field := GetBitsVar(s, bit, now);
    CarryBit(Val(s), bit, sum, carry);
    TakeWindow(Val(s), bit, now, w, sum, carry, field + carry);
    Pow2Monotone(now, w);
    word := Int32(field + carry);
    WordFits(field + carry, ((field + carry) / Pow2(w - 1)) % 2, w);
    next := (word / Pow2(w - 1)) % 2;
    word := Int32(word - Int32(next * Pow2(w)));
  }

  lemma {:induction false} CarryBit(s: nat, bit: nat, sum: int, carry: int)
    requires Recoded(s, bit, sum, carry)
    ensures 0 <= carry <= 1
  {
  }

  method EcmultWnaf(wnaf: array<int>, len: nat, a: array<u64>, w: nat) returns (bits: int, ghost carryOut: int)
    requires wnaf.Length == len <= 256 && a.Length == 4 && 2 <= w <= 31
    requires Val(a) < N
    modifies wnaf
    ensures 0 <= bits <= len
    ensures forall i :: bits <= i < len ==> wnaf[i] == 0
    ensures bits > 0 ==> wnaf[bits - 1] != 0
    ensures WindowDigits(wnaf[..], w)
    ensures var v := Signed(old(Val(a))); var sum := if v < 0 then -Sum(wnaf[..]) else Sum(wnaf[..]);
      Recoded(Abs(v), len, sum, carryOut)
  {
    hide Val4, Pow2, Mask, Shr, Field, Sum, Recoded, WindowDigits;
    var s := new u64[4];
    s[0], s[1], s[2], s[3] := a[0], a[1], a[2], a[3];
    var lastSetBit := -1;
    var bit := 0;
    var sign := 1;
    var carry := 0;
    for i := 0 to len
      invariant forall j :: 0 <= j < i ==> wnaf[j] == 0
      modifies wnaf
    {
      wnaf[i] := 0;
    }
    var top := GetBits(s, 255, 1);
    TopBit(Val(s));
    if top != 0 {
      Negate(s, s);
      sign := -1;
    }
    ghost var m := Val(s);
    StartRecoding(wnaf[..], m, w);
    while bit < len
      invariant 0 <= bit <= len && -1 <= lastSetBit < bit
      invariant fresh(s) && s.Length == 4 && Val(s) == m
      invariant Recoded(m, bit, sign * Sum(wnaf[..]), carry) && 0 <= carry <= 1
      invariant forall i :: lastSetBit < i < len ==> wnaf[i] == 0
      invariant lastSetBit >= 0 ==> wnaf[lastSetBit] != 0
      invariant lastSetBit >= 0 && bit < len ==> lastSetBit + w <= bit
      invariant WindowDigits(wnaf[..], w)
    {
      var b := GetBits(s, bit, 1);
      if b == carry {
        SkipBit(m, bit, sign * Sum(wnaf[..]), carry);
        bit := bit + 1;
        continue;
      }
      var now := w;
      if now > len - bit {
        now := len - bit;
      }
      var word;
      word, carry := WindowDigit(s, bit, now, w, carry, sign * Sum(wnaf[..]));
      SignedUpdate(wnaf[..], bit, sign, word);
      SignedDigit(sign, word, w);
      ExtendDigits(wnaf[..], bit, sign * word, w);
      ghost var d := wnaf[..];
      wnaf[bit] := sign * word;
      assert wnaf[..] == d[bit := sign * word];
      lastSetBit := bit;
      bit := bit + now;
    }
    carryOut := carry;
    bits := lastSetBit + 1;
  }

  /** The form is exact for numbers whose top bit within `len` is clear: nothing is carried out. */
  lemma {:induction false} NoCarryOut(m: nat, len: nat, sum: int, carryOut: int)
    requires len >= 1 && m < Pow2(len - 1) && Recoded(m, len, sum, carryOut)
    ensures carryOut == 0 && sum == m
  {
    hide Mask;
    Pow2Unfold(len - 1);
    MaskSmall(m, len);
  }
}
