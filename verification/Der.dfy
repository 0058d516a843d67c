/** DER signatures (ecdsa_impl.h): the strict parser and the serialiser. A signature is a SEQUENCE of two
    INTEGERs, by sections 8.1.3, 8.3.1 and 8.9.1 of X.690. */
module Der {
  import opened Machine
  import opened Bits
  import opened Bytes
  import opened ScalarMul
  import opened ScalarBytes

  // ---------- The encoding ----------

  /** Length octets, in the shortest form. */
  function DerLen(n: nat): (l: seq<u8>)
    requires n < TWO64
    ensures 1 <= |l| <= 9
  {
    LenRoom(n);
    if n < 0x80 then [n] else [0x80 + |IntBytes(n)|] + IntBytes(n)
  }

  lemma {:induction false} LenRoom(n: nat)
    requires n < TWO64
    ensures |IntBytes(n)| <= 8
  {
    hide Pow2, IntBytes;
    Pow2Words();
    IntBytesLength(n, 8);
  }

  function Tlv(c: seq<u8>): seq<u8>
    requires |c| < TWO64
  {
    [0x02] + DerLen(|c|) + c
  }

  /** The contents of an INTEGER are as short as they can be: the first nine bits are not all equal. */
  predicate Minimal(c: seq<u8>) {
    && c != []
    && !(|c| > 1 && c[0] == 0 && c[1] < 0x80)
    && !(|c| > 1 && c[0] == 0xFF && c[1] >= 0x80)
  }

  /** The scalar that contents stand for: 0 if they are negative or not below the order. */
  ghost function IntValue(c: seq<u8>): nat
    requires c != []
  {
    if c[0] < 0x80 && BigEndian(c) < N then BigEndian(c) else 0
  }

  /** The contents of a scalar that is not negative: the shortest form, kept positive by a leading zero. */
  function IntContent(v: nat): (c: seq<u8>)
    ensures c != []
  {
    var z := IntBytes(v);
    if z == [] then [0] else if z[0] >= 0x80 then [0] + z else z
  }

  /** Positive minimal contents are those of their number. */
  lemma {:induction false} ContentOf(c: seq<u8>)
    requires Minimal(c) && c[0] < 0x80
    ensures IntContent(BigEndian(c)) == c
  {
    hide BigEndian, IntBytes, Pow2;
    if c[0] != 0 {
      IntBytesOf(c);
    } else {
      assert c == [0] + c[1..];
      BigEndianFirst(0, c[1..]);
      IntBytesOf(c[1..]);
      if |c| == 1 {
        assert c[1..] == [];
      }
    }
  }

  /** The number that contents stand for, in two's complement. */
  ghost function TwosComplement(c: seq<u8>): int
    requires c != []
  {
    if c[0] < 0x80 then BigEndian(c) else BigEndian(c) - Pow2(8 * |c|)
  }

  /** Minimal contents are the shortest ones of their number. */
  lemma {:induction false} MinimalIsShortest(c: seq<u8>)
    requires c != []
    ensures Minimal(c) <==> forall d :: d != [] && TwosComplement(d) == TwosComplement(c) ==> |c| <= |d|
  {
    hide TwosComplement;
    if Minimal(c) {
      forall d | d != [] && TwosComplement(d) == TwosComplement(c) ensures |c| <= |d| {
        if |d| < |c| {
          Extended(d, |c|);
          var e := SignBytes(d, |c| - |d|) + d;
          SameContents(c, e);
          assert false;
        }
      }
    } else {
      SignExtended(c[0], c[1..]);
      assert c == [c[0]] + c[1..];
    }
  }

  ghost function SignBytes(d: seq<u8>, n: nat): (z: seq<u8>)
    requires d != []
    ensures |z| == n && forall i :: 0 <= i < n ==> z[i] == if d[0] < 0x80 then 0 else 0xFF
  {
    seq(n, _ => if d[0] < 0x80 then 0 else 0xFF)
  }

  /** A byte of sign bits in front changes nothing. */
  lemma {:induction false} SignExtended(sign: u8, d: seq<u8>)
    requires d != [] && sign == if d[0] < 0x80 then 0 else 0xFF
    ensures TwosComplement([sign] + d) == TwosComplement(d)
  {
    hide BigEndian, Pow2;
    BigEndianFirst(sign, d);
    BytePower(|d|);
  }

  lemma {:induction false} Extended(d: seq<u8>, n: nat)
    requires d != [] && |d| <= n
    ensures TwosComplement(SignBytes(d, n - |d|) + d) == TwosComplement(d)
    decreases n
  {
    hide TwosComplement;
    if n == |d| {
      assert SignBytes(d, 0) + d == d;
    } else {
      Extended(d, n - 1);
      var e := SignBytes(d, n - 1 - |d|) + d;
      SignExtended(if d[0] < 0x80 then 0 else 0xFF, e);
      assert SignBytes(d, n - |d|) + d == [if d[0] < 0x80 then 0 else 0xFF] + e;
    }
  }

  lemma {:induction false} SameContents(c: seq<u8>, e: seq<u8>)
    requires c != [] && |c| == |e| && TwosComplement(c) == TwosComplement(e)
    ensures c == e
  {
    hide BigEndian, Pow2;
    BigEndianBound(c);
    BigEndianBound(e);
    BigEndianInjective(c, e);
  }

  lemma {:induction false} ContentValue(v: nat)
    requires v < N
    ensures Minimal(IntContent(v)) && IntContent(v)[0] < 0x80 && IntValue(IntContent(v)) == v
    ensures |IntContent(v)| <= 33
  {
    hide BigEndian, IntBytes, Pow2;
    var z := IntBytes(v);
    IntBytesValue(v);
    Pow2Words();
    IntBytesLength(v, 32);
    BigEndianFirst(0, z);
    BigEndianSingle(0);
    Pow2Small();
    IntBytesLength(v, 0);
    assert [0] + [] == [0];
  }

  // ---------- Length octets ----------

  /** Length octets at pos. In the long form, the length may not exceed what follows. */
  ghost predicate LenAt(b: seq<u8>, pos: nat, n: nat) {
    && n < TWO64
    && pos + |DerLen(n)| <= |b| && b[pos..pos + |DerLen(n)|] == DerLen(n)
    && (n >= 0x80 ==> pos + |DerLen(n)| + n <= |b|)
  }

  /** What the octets look like. */
  lemma {:induction false} LenSeen(b: seq<u8>, pos: nat, n: nat)
    requires LenAt(b, pos, n)
    ensures pos < |b| && (n < 0x80 ==> b[pos] == n)
    ensures n >= 0x80 ==> var k := |DerLen(n)| - 1;
      1 <= k <= 8 && b[pos] == 0x80 + k && LongLooks(b, pos, n, k)
  {
    hide BigEndian, IntBytes;
    var l := DerLen(n);
    assert b[pos] == b[pos..pos + |l|][0];
    if n >= 0x80 {
      IntBytesValue(n);
      LenRoom(n);
      assert b[pos + 1..pos + |l|] == b[pos..pos + |l|][1..] == IntBytes(n);
      assert b[pos + 1] == b[pos + 1..pos + |l|][0];
    }
  }

  /** The long form that has been read. */
  lemma {:induction false} LenRead(b: seq<u8>, pos: nat, k: nat, n: nat)
    requires 1 <= k <= 8 && pos + 1 + k <= |b| && b[pos] == 0x80 + k && b[pos + 1] != 0
    requires n == BigEndian(b[pos + 1..pos + 1 + k]) && n >= 0x80
    requires pos + 1 + k + n <= |b|
    ensures LenAt(b, pos, n) && |DerLen(n)| == 1 + k
  {
    hide BigEndian, IntBytes, Pow2;
    var z := b[pos + 1..pos + 1 + k];
    IntBytesOf(z);
    BigEndianBound(z);
    Pow2Words();
    Pow2Monotone(8 * k, 64);
    assert b[pos..pos + 1 + k] == [b[pos]] + z;
  }

  /** A prefix of a number is not larger. */
  lemma {:induction false} PrefixBelow(x: seq<u8>, y: seq<u8>)
    ensures BigEndian(x) <= BigEndian(x + y)
  {
    hide BigEndian, Pow2;
    BigEndianConcat(x, y);
    Scale(1, Pow2(8 * |y|), BigEndian(x));
  }

  /** der_read_len: the length at pos as an int, or -1. n is the length itself. */
  method DerReadLen(b: seq<u8>, pos: nat) returns (len: int, next: nat, ghost n: Option<nat>)
    requires pos <= |b| < 0x8000_0000_0000_0000
    ensures n.Some? ==> LenAt(b, pos, n.value) && len == Int32(n.value) && next == pos + |DerLen(n.value)|
    ensures n == None ==> len == -1 && forall m :: !LenAt(b, pos, m)
    ensures pos <= next <= |b|
  {
    hide DerLen, BigEndian, LenAt;
    forall m | LenAt(b, pos, m) ensures LenLooks(b, pos, m) {
      LenSeen(b, pos, m);
    }
    if pos >= |b| {
      return -1, pos, None;
    }
    var b1 := b[pos];
    next := pos + 1;
    if b1 == 0xFF {
      return -1, next, None;
    }
    if b1 < 0x80 {
      ShortLen(b, pos);
      return b1, next, Some(b1 as nat);
    }
    if b1 == 0x80 {
      return -1, next, None;
    }
    var lenleft: nat := b1 % 0x80;
    if lenleft > |b| - next {
      return -1, next, None;
    }
    if b[next] == 0 {
      return -1, next, None;
    }
    if lenleft > 8 {
      return -1, next, None;
    }
    len, next, n := LongForm(b, pos, lenleft);
  }

  ghost predicate LenLooks(b: seq<u8>, pos: nat, n: nat) {
    && pos < |b| && (n < 0x80 ==> b[pos] == n)
    && (n >= 0x80 ==> 0x80 < b[pos] <= 0x88 && LongLooks(b, pos, n, b[pos] - 0x80))
  }

  ghost predicate LongLooks(b: seq<u8>, pos: nat, n: nat, k: nat) {
    && k >= 1 && pos + 1 + k + n <= |b| && b[pos + 1] != 0 && BigEndian(b[pos + 1..pos + 1 + k]) == n
  }

  lemma {:induction false} ShortLen(b: seq<u8>, pos: nat)
    requires pos < |b| && b[pos] < 0x80
    ensures LenAt(b, pos, b[pos]) && |DerLen(b[pos])| == 1
  {
    hide IntBytes;
    assert b[pos..pos + 1] == [b[pos]];
  }

  /** At most one length is encoded by k octets at a place. */
  lemma {:induction false} OneLength(b: seq<u8>, pos: nat, k: nat)
    requires 1 <= k <= 8 && pos + 1 + k <= |b| && b[pos] == 0x80 + k
    ensures forall m :: LenAt(b, pos, m) ==> m >= 0x80 && m == BigEndian(b[pos + 1..pos + 1 + k]) && pos + 1 + k + m <= |b|
  {
    hide DerLen, BigEndian, LenAt;
    forall m | LenAt(b, pos, m) ensures m >= 0x80 && m == BigEndian(b[pos + 1..pos + 1 + k]) && pos + 1 + k + m <= |b| {
      LenSeen(b, pos, m);
    }
  }

  /** `<< 8` and `+` on a size_t. */
  function ShiftByte(x: u64): (r: u64)
    ensures x < 0x100_0000_0000_0000 ==> r == 0x100 * x
  {
    (x * 0x100) % 0x1_0000_0000_0000_0000
  }

  function SizeSum(x: u64, y: u64): (r: u64)
    ensures r as int == x as int + y as int - if x as int + y as int < 0x1_0000_0000_0000_0000 then 0 else 0x1_0000_0000_0000_0000
  {
    (x + y) % 0x1_0000_0000_0000_0000
  }

  /** The loop of der_read_len. ret is a size_t; it can only wrap around in the comparison, for a length
      that becomes -1 as an int. */
  method LongForm(b: seq<u8>, pos: nat, k: nat) returns (len: int, next: nat, ghost n: Option<nat>)
    requires |b| < 0x8000_0000_0000_0000 && 1 <= k <= 8 && pos + 1 + k <= |b| && b[pos] == 0x80 + k && b[pos + 1] != 0
    ensures n.Some? ==> LenAt(b, pos, n.value) && len == Int32(n.value) && next == pos + |DerLen(n.value)|
    ensures n == None ==> len == -1 && forall m :: !LenAt(b, pos, m)
    ensures pos <= next <= |b|
  {
    hide DerLen, BigEndian, LenAt, LongLooks, ShiftByte, SizeSum;
    ghost var z := b[pos + 1..pos + 1 + k];
    OneLength(b, pos, k);
    var ret: u64 := 0;
    var lenleft := k;
    next := pos + 1;
    NoBytes(z);
    while lenleft > 0
      invariant 0 <= lenleft <= k && next == pos + 1 + (k - lenleft)
      invariant ret == BigEndian(z[..k - lenleft])
      invariant ret + lenleft <= |b| - next || ret == TWO64 - 1
    {
      NextByte(z, k - lenleft);
      assert b[next] == z[k - lenleft];
      ret := ShiftByte(ret) + b[next];
      if SizeSum(ret, lenleft) > |b| - next {
        return -1, next, None;
      }
      next := next + 1;
      lenleft := lenleft - 1;
    }
    assert z[..k] == z;
    if ret < 128 {
      return -1, next, None;
    }
    len := Int32(ret);
    if ret == TWO64 - 1 {
      return len, next, None;
    }
    LenRead(b, pos, k, ret);
    n := Some(ret as nat);
  }

  lemma {:induction false} NoBytes(z: seq<u8>)
    ensures BigEndian(z[..0]) == 0
  {
  }

  /** One more byte of the length, and what it says about the whole. */
  lemma {:induction false} NextByte(z: seq<u8>, j: nat)
    requires j < |z| <= 8
    ensures BigEndian(z[..j + 1]) == 0x100 * BigEndian(z[..j]) + z[j] <= BigEndian(z)
    ensures BigEndian(z[..j + 1]) < TWO64 && (j + 1 < |z| ==> BigEndian(z[..j + 1]) < 0x100_0000_0000_0000)
  {
    var x := z[..j + 1];
    assert x[..j] == z[..j];
    assert z == x + z[j + 1..];
    hide BigEndian, Pow2;
    BigEndianLast(x);
    PrefixBelow(x, z[j + 1..]);
    BigEndianBound(x);
    Pow2Words();
    Pow2Monotone(8 * |x|, 64);
    if j + 1 < |z| {
      Pow2Monotone(8 * |x|, 56);
      Pow2Small();
      Pow2Split(16, 8, 0x1_0000, 0x100);
      Pow2Split(32, 24, 0x1_0000_0000, 0x100_0000);
    }
  }

  // ---------- An INTEGER ----------

  /** A minimal INTEGER with these contents at pos. */
  ghost predicate IntAt(b: seq<u8>, pos: nat, c: seq<u8>) {
    && |c| < TWO64 && Minimal(c)
    && pos + |Tlv(c)| <= |b| && b[pos..pos + |Tlv(c)|] == Tlv(c)
  }

  lemma {:induction false} IntSeen(b: seq<u8>, pos: nat, c: seq<u8>)
    requires IntAt(b, pos, c)
    ensures pos < |b| && b[pos] == 0x02 && LenAt(b, pos + 1, |c|)
    ensures var start := pos + 1 + |DerLen(|c|)|; start + |c| <= |b| && c == b[start..start + |c|]
  {
    hide DerLen, Minimal;
    var l, t := DerLen(|c|), Tlv(c);
    SlicesOfConcat([0x02], l, c);
    assert b[pos] == t[0];
    SliceOfSlice(b, pos, pos + |t|, 1, 1 + |l|);
    SliceOfSlice(b, pos, pos + |t|, 1 + |l|, |t|);
  }

  lemma {:induction false} IntMade(b: seq<u8>, pos: nat, k: nat)
    requires pos < |b| && b[pos] == 0x02 && LenAt(b, pos + 1, k)
    requires var start := pos + 1 + |DerLen(k)|; start + k <= |b| && Minimal(b[start..start + k])
    ensures var start := pos + 1 + |DerLen(k)|; var c := b[start..start + k];
      |c| == k && IntAt(b, pos, c) && pos + |Tlv(c)| == start + k
  {
    hide DerLen, Minimal;
    var l := DerLen(k);
    var start := pos + 1 + |l|;
    assert b[pos..start + k] == [b[pos]] + b[pos + 1..start] + b[start..start + k];
  }

  lemma {:induction false} LenUnique(b: seq<u8>, pos: nat, m: nat, n: nat)
    requires LenAt(b, pos, m) && LenAt(b, pos, n)
    ensures m == n
  {
    hide BigEndian, LenAt, DerLen;
    LenSeen(b, pos, m);
    LenSeen(b, pos, n);
  }

  /** Leading zeros do not count. */
  lemma {:induction false} LeadingZeros(k: nat, z: seq<u8>)
    ensures BigEndian(seq(k, _ => 0) + z) == BigEndian(z)
  {
    if k == 0 {
      assert seq(k, _ => 0) + z == z;
    } else {
      LeadingZeros(k - 1, z);
      var y := seq(k - 1, _ => 0) + z;
      assert seq(k, _ => 0) + z == [0] + y;
      BigEndianFirst(0, y);
    }
  }

  /** More than 32 bytes without a leading zero are too large for a scalar. */
  lemma {:induction false} TooLong(z: seq<u8>)
    requires |z| > 32 && z[0] != 0
    ensures BigEndian(z) >= N
  {
    hide BigEndian, Pow2;
    var y := z[1..];
    assert z == [z[0]] + y;
    BigEndianFirst(z[0], y);
    Pow2Words();
    Pow2Monotone(256, 8 * |y|);
    Scale(1, z[0], Pow2(8 * |y|));
  }

  /** der_parse_integer. The caller has seen to it that less than 2^31 bytes are left. */
  method DerParseInteger(r: array<u64>, b: seq<u8>, pos: nat) returns (ok: bool, next: nat, ghost c: seq<u8>)
    requires r.Length == 4 && pos <= |b| && |b| - pos < 0x8000_0000 && |b| < 0x8000_0000_0000_0000
    modifies r
    ensures ok ==> IntAt(b, pos, c) && next == pos + |Tlv(c)| && Val(r) == IntValue(c)
    ensures !ok ==> forall c' :: !IntAt(b, pos, c')
    ensures pos <= next <= |b|
  {
    hide DerLen, LenAt, Tlv, BigEndian, IntAt, Minimal, IntValue;
    c, next := [], pos;
    forall c' | IntAt(b, pos, c')
      ensures pos < |b| && b[pos] == 0x02 && LenAt(b, pos + 1, |c'|) && ContentsAt(b, pos, c') && Minimal(c')
    {
      IntSeen(b, pos, c');
      IntMinimal(b, pos, c');
    }
    if pos == |b| || b[pos] != 0x02 {
      return false, pos, c;
    }
    var rlen;
    ghost var n;
    rlen, next, n := DerReadLen(b, pos + 1);
    if n.Some? {
      LenInside(b, pos + 1, n.value);
      forall c' | IntAt(b, pos, c') ensures |c'| == n.value {
        LenUnique(b, pos + 1, |c'|, n.value);
      }
    }
    if rlen <= 0 || next + rlen > |b| {
      MinimalNotEmpty();
      return false, next, c;
    }
    c := b[next..next + rlen];
    MinimalIs(c);
    if b[next] == 0 && rlen > 1 && b[next + 1] < 0x80 {
      return false, next, c;
    }
    if b[next] == 0xFF && rlen > 1 && b[next + 1] >= 0x80 {
      return false, next, c;
    }
    IntMade(b, pos, rlen);
    next := ReadScalar(r, b, next, rlen);
    ok := true;
  }

  ghost predicate ContentsAt(b: seq<u8>, pos: nat, c: seq<u8>) {
    |c| < TWO64 && var start := pos + 1 + |DerLen(|c|)|; start + |c| <= |b| && c == b[start..start + |c|]
  }

  lemma {:induction false} IntMinimal(b: seq<u8>, pos: nat, c: seq<u8>)
    requires IntAt(b, pos, c)
    ensures Minimal(c)
  {
  }

  lemma {:induction false} MinimalNotEmpty()
    ensures !Minimal([])
  {
  }

  lemma {:induction false} MinimalIs(c: seq<u8>)
    requires c != []
    ensures Minimal(c) <==> !(c[0] == 0 && |c| > 1 && c[1] < 0x80) && !(c[0] == 0xFF && |c| > 1 && c[1] >= 0x80)
  {
  }

  /** A length that fits the input fits an int, if less than 2^31 bytes are left. */
  lemma {:induction false} LenInside(b: seq<u8>, pos: nat, n: nat)
    requires LenAt(b, pos, n) && |b| - pos < 0x8000_0000
    ensures Int32(n) == n
  {
    hide DerLen;
  }

  /** The rest of der_parse_integer: the scalar that the contents stand for. */
  method ReadScalar(r: array<u64>, b: seq<u8>, pos: nat, len: nat) returns (next: nat)
    requires r.Length == 4 && len >= 1 && pos + len <= |b|
    modifies r
    ensures next == pos + len && Val(r) == IntValue(b[pos..pos + len])
  {
    hide BigEndian, Val4;
    ghost var c := b[pos..pos + len];
    var overflow := b[pos] >= 0x80;
    var rlen, p := len, pos;
    while rlen > 0 && b[p] == 0
      invariant 0 <= rlen <= len && p + rlen == pos + len
      invariant BigEndian(b[p..pos + len]) == BigEndian(c)
    {
      var z := b[p + 1..pos + len];
      assert b[p..pos + len] == [0] + z;
      BigEndianFirst(0, z);
      rlen := rlen - 1;
      p := p + 1;
    }
    ghost var z := b[p..pos + len];
    if rlen > 32 {
      TooLong(z);
      overflow := true;
    }
    if !overflow {
      var ra := seq(32 - rlen, _ => 0) + b[p..p + rlen];
      LeadingZeros(32 - rlen, z);
      overflow := SetB32(r, ra);
    }
    if overflow {
      r[0], r[1], r[2], r[3] := 0, 0, 0, 0;
      NoLimbs();
    }
    next := p + rlen;
  }

  lemma {:induction false} NoLimbs()
    ensures Val4(0, 0, 0, 0) == 0
  {
  }

  // ---------- A signature ----------

  /** A SEQUENCE of two minimal INTEGERs with these contents, and nothing else. Its length is an int. */
  ghost predicate SigIs(b: seq<u8>, cr: seq<u8>, cs: seq<u8>) {
    && |cr| < TWO64 && |cs| < TWO64 && Minimal(cr) && Minimal(cs)
    && var body := Tlv(cr) + Tlv(cs);
      |body| < 0x8000_0000 && b == [0x30] + DerLen(|body|) + body
  }

  ghost predicate SigLooks(b: seq<u8>, cr: seq<u8>, cs: seq<u8>) {
    && |cr| < TWO64 && |cs| < TWO64 && b != [] && b[0] == 0x30
    && SigBody(b, cr, cs, |Tlv(cr) + Tlv(cs)|)
  }

  ghost predicate SigBody(b: seq<u8>, cr: seq<u8>, cs: seq<u8>, n: nat)
    requires |cr| < TWO64 && |cs| < TWO64
  {
    && n < 0x8000_0000 && LenAt(b, 1, n)
    && var start := 1 + |DerLen(n)|;
      start + n == |b| && IntAt(b, start, cr) && IntAt(b, start + |Tlv(cr)|, cs) && start + |Tlv(cr)| + |Tlv(cs)| == |b|
  }

  /** Tags and lengths of the shortest signatures: one octet for each of the two numbers. */
  lemma {:induction false} ShortestSignature(r: u8, s: u8)
    requires r < 0x80 && s < 0x80
    ensures SigIs([0x30, 0x06, 0x02, 0x01, r, 0x02, 0x01, s], [r], [s]) && IntValue([r]) == r && IntValue([s]) == s
  {
    hide BigEndian, IntBytes;
    BigEndianSingle(r);
    BigEndianSingle(s);
    assert Tlv([r]) == [0x02, 0x01, r] && Tlv([s]) == [0x02, 0x01, s];
  }

  /** What a parser sees of it. */
  lemma {:induction false} SigSeen(b: seq<u8>, cr: seq<u8>, cs: seq<u8>)
    requires SigIs(b, cr, cs)
    ensures SigLooks(b, cr, cs)
  {
    hide DerLen, Tlv, Minimal;
    var x, y := Tlv(cr), Tlv(cs);
    var l := DerLen(|x + y|);
    var start := 1 + |l|;
    assert b[1..start] == l;
    assert b[start..start + |x|] == x;
    assert b[start + |x|..start + |x| + |y|] == y;
  }

  lemma {:induction false} SigMade(b: seq<u8>, n: nat, cr: seq<u8>, cs: seq<u8>)
    requires b != [] && b[0] == 0x30 && LenAt(b, 1, n) && n < 0x8000_0000
    requires var start := 1 + |DerLen(n)|;
      start + n == |b| && IntAt(b, start, cr) && IntAt(b, start + |Tlv(cr)|, cs) && start + |Tlv(cr)| + |Tlv(cs)| == |b|
    ensures SigIs(b, cr, cs)
  {
    hide DerLen, Tlv, Minimal;
    var x, y := Tlv(cr), Tlv(cs);
    var start := 1 + |DerLen(n)|;
    assert b == [b[0]] + b[1..start] + (b[start..start + |x|] + b[start + |x|..start + |x| + |y|]);
    assert n == |x + y|;
  }

  /** At most one INTEGER starts at a place. */
  lemma {:induction false} IntUnique(b: seq<u8>, pos: nat, c: seq<u8>, d: seq<u8>)
    requires IntAt(b, pos, c) && IntAt(b, pos, d)
    ensures c == d
  {
    hide IntAt, DerLen, Tlv;
    IntSeen(b, pos, c);
    IntSeen(b, pos, d);
    LenUnique(b, pos + 1, |c|, |d|);
  }

  /** ecdsa_sig_parse: exactly the DER signatures are accepted. */
  method SigParse(rr: array<u64>, rs: array<u64>, b: seq<u8>) returns (ok: bool, ghost cr: seq<u8>, ghost cs: seq<u8>)
    requires rr.Length == 4 && rs.Length == 4 && rr != rs && |b| < 0x8000_0000_0000_0000
    modifies rr, rs
    ensures ok ==> SigIs(b, cr, cs) && Val(rr) == IntValue(cr) && Val(rs) == IntValue(cs)
    ensures !ok ==> forall r, s :: !SigIs(b, r, s)
  {
    hide DerLen, Tlv, LenAt, IntAt, SigIs, IntValue, Val4;
    cr, cs := [], [];
    forall r, s | SigIs(b, r, s) ensures SigLooks(b, r, s) {
      SigSeen(b, r, s);
    }
    if |b| == 0 || b[0] != 0x30 {
      return false, cr, cs;
    }
    var rlen, pos;
    ghost var n;
    rlen, pos, n := DerReadLen(b, 1);
    if n.Some? {
      forall r, s | SigIs(b, r, s) ensures |Tlv(r) + Tlv(s)| == n.value {
        LenUnique(b, 1, |Tlv(r) + Tlv(s)|, n.value);
      }
    }
    if rlen < 0 || pos + rlen > |b| {
      return false, cr, cs;
    }
    if pos + rlen != |b| {
      return false, cr, cs;
    }
    LenWhole(b, 1, n.value, rlen);
    var ok1, next;
    ok1, next, cr := DerParseInteger(rr, b, pos);
    if !ok1 {
      return false, cr, cs;
    }
    forall r, s | SigIs(b, r, s) ensures r == cr {
      IntUnique(b, pos, r, cr);
    }
    ghost var mid := next;
    ok1, next, cs := DerParseInteger(rs, b, next);
    if !ok1 {
      return false, cr, cs;
    }
    forall r, s | SigIs(b, r, s) ensures s == cs {
      IntUnique(b, mid, s, cs);
    }
    if next != |b| {
      return false, cr, cs;
    }
    SigMade(b, n.value, cr, cs);
    return true, cr, cs;
  }

  /** A length that as an int is what is left of the input is below 2^31. */
  lemma {:induction false} LenWhole(b: seq<u8>, pos: nat, n: nat, len: int)
    requires LenAt(b, pos, n) && len == Int32(n) && len == |b| - pos - |DerLen(n)|
    ensures n == len < 0x8000_0000
  {
    hide DerLen;
  }

  // ---------- Serialising ----------

  /** The encoding of a signature. */
  function SigBytes(r: nat, s: nat): seq<u8>
  {
    var (cr, cs) := (IntContent(r), IntContent(s));
    [0x30, (4 + |cr| + |cs|) % 0x100, 0x02, |cr| % 0x100] + cr + [0x02, |cs| % 0x100] + cs
  }

  /** The bytes of a scalar without the zeros that are not needed. */
  method Stripped(a: array<u64>) returns (p: seq<u8>)
    requires a.Length == 4 && Val(a) < N
    ensures p == IntContent(Val(a)) && 1 <= |p| <= 33
  {
    hide BigEndian, Val4, IntContent;
    var bytes := GetB32(a);
    p := [0] + bytes;
    BigEndianFirst(0, bytes);
    while |p| > 1 && p[0] == 0 && p[1] < 0x80
      invariant 1 <= |p| <= 33 && p[0] < 0x80 && BigEndian(p) == Val(a)
      decreases |p|
    {
      assert p == [0] + p[1..];
      BigEndianFirst(0, p[1..]);
      p := p[1..];
    }
    ContentOf(p);
  }

  /** ecdsa_sig_serialize: writes the signature if there is room, and tells how much it takes. */
  method SigSerialize(sig: array<u8>, size: nat, scalarR: array<u64>, scalarS: array<u64>) returns (ok: bool, size': nat)
    requires scalarR.Length == 4 && scalarS.Length == 4 && Val(scalarR) < N && Val(scalarS) < N && size <= sig.Length
    modifies sig
    ensures size' == |SigBytes(Val(scalarR), Val(scalarS))| && ok == (size' <= size)
    ensures ok ==> sig[..] == SigBytes(Val(scalarR), Val(scalarS)) + old(sig[size'..])
    ensures !ok ==> sig[..] == old(sig[..])
  {
    hide Val4, IntContent;
    var rp := Stripped(scalarR);
    var sp := Stripped(scalarS);
    var lenR, lenS := |rp|, |sp|;
    size' := 6 + lenS + lenR;
    if size < size' {
      return false, size';
    }
    ok := true;
    var out := [0x30, (4 + lenS + lenR) % 0x100, 0x02, lenR % 0x100] + rp + [0x02, lenS % 0x100] + sp;
    forall i | 0 <= i < |out| {
      sig[i] := out[i];
    }
    assert sig[..] == sig[..size'] + sig[size'..];
  }

  // ---------- Both ways ----------

  /** What is serialised parses back. */
  lemma {:induction false} SerializedParses(r: nat, s: nat)
    requires r < N && s < N
    ensures SigIs(SigBytes(r, s), IntContent(r), IntContent(s))
    ensures IntValue(IntContent(r)) == r && IntValue(IntContent(s)) == s
  {
    hide IntContent, IntValue, Minimal;
    ContentValue(r);
    ContentValue(s);
    ShortForm(IntContent(r), IntContent(s));
  }

  /** Up to 33 bytes of contents take one length octet each. */
  lemma {:induction false} ShortForm(cr: seq<u8>, cs: seq<u8>)
    requires |cr| <= 33 && |cs| <= 33
    ensures var body := Tlv(cr) + Tlv(cs);
      |body| == 4 + |cr| + |cs|
      && [0x30, (4 + |cr| + |cs|) % 0x100, 0x02, |cr| % 0x100] + cr + [0x02, |cs| % 0x100] + cs == [0x30] + DerLen(|body|) + body
  {
    hide IntBytes;
  }

  /** What is parsed into two scalars that are not 0 is what they are serialised as. */
  lemma {:induction false} ParsedSerializes(b: seq<u8>, cr: seq<u8>, cs: seq<u8>)
    requires SigIs(b, cr, cs) && IntValue(cr) != 0 && IntValue(cs) != 0
    ensures b == SigBytes(IntValue(cr), IntValue(cs))
  {
    ContentOf(cr);
    ContentOf(cs);
    ContentValue(IntValue(cr));
    ContentValue(IntValue(cs));
    hide IntContent, IntValue, Minimal;
    ShortForm(cr, cs);
  }

  /** Serialising two scalars and parsing the result gives them back. */
  method SerializeThenParse(scalarR: array<u64>, scalarS: array<u64>) returns (ok: bool, rr: array<u64>, rs: array<u64>)
    requires scalarR.Length == 4 && scalarS.Length == 4 && Val(scalarR) < N && Val(scalarS) < N
    ensures ok && rr.Length == 4 && rs.Length == 4 && Val(rr) == Val(scalarR) && Val(rs) == Val(scalarS)
  {
    hide Val4, SigIs, IntContent, IntValue, SigBytes;
    ghost var r, s := Val(scalarR), Val(scalarS);
    rr, rs := new u64[4], new u64[4];
    var sig := new u8[72];
    var size;
    SigLength(r, s);
    ok, size := SigSerialize(sig, 72, scalarR, scalarS);
    assert sig[..size] == SigBytes(r, s);
    SerializedParses(r, s);
    ghost var cr, cs;
    ok, cr, cs := SigParse(rr, rs, sig[..size]);
    SigUnique(sig[..size], cr, cs, IntContent(r), IntContent(s));
  }

  lemma {:induction false} SigLength(r: nat, s: nat)
    requires r < N && s < N
    ensures |SigBytes(r, s)| <= 72
  {
    hide IntContent;
    ContentValue(r);
    ContentValue(s);
  }

  lemma {:induction false} SigUnique(b: seq<u8>, cr: seq<u8>, cs: seq<u8>, dr: seq<u8>, ds: seq<u8>)
    requires SigIs(b, cr, cs) && SigIs(b, dr, ds)
    ensures cr == dr && cs == ds
  {
    hide SigIs, LenAt, IntAt, DerLen, Tlv;
    SigSeen(b, cr, cs);
    SigSeen(b, dr, ds);
    LenUnique(b, 1, |Tlv(cr) + Tlv(cs)|, |Tlv(dr) + Tlv(ds)|);
    var start := 1 + |DerLen(|Tlv(cr) + Tlv(cs)|)|;
    IntUnique(b, start, cr, dr);
    IntUnique(b, start + |Tlv(cr)|, cs, ds);
  }
}
