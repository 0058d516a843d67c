/** The streaming part of SHA-256 (hash_impl.h): buffering, padding and the message length, around a block
    transform that is a parameter here. */
module Sha256 {
  import opened Machine
  import opened Bits
  import opened Bytes

  /** Eight words. */
  type State = s: seq<u32> | |s| == 8 witness [0, 0, 0, 0, 0, 0, 0, 0]
  type Transform = (State, seq<u8>) -> State

  const BLOCK := 64
  const LIMIT := 0x2000_0000_0000_0000

  /** The initial state. */
  const INITIAL: State := [0x6A09_E667, 0xBB67_AE85, 0x3C6E_F372, 0xA54F_F53A, 0x510E_527F, 0x9B05_688C, 0x1F83_D9AB, 0x5BE0_CD19]

  // ---------- What the digest of a message is ----------

  /** The transform over the whole blocks of m, one after another. */
  ghost function Fold(t: Transform, s: State, m: seq<u8>): State
    decreases |m|
  {
    if |m| < BLOCK then s else Fold(t, t(s, m[..BLOCK]), m[BLOCK..])
  }

  function Zeros(n: nat): (z: seq<u8>)
    ensures |z| == n && forall i :: 0 <= i < n ==> z[i] == 0
  {
    seq(n, _ => 0)
  }

  /** How many zeros the padding has. */
  function ZeroCount(n: nat): nat {
    (119 - n % 64) % 64
  }

  /** The message padded as in section 5.1.1 of FIPS 180-4: a one bit, zeros up to 8 bytes before the end of
      a block, and the length in bits as a 64-bit number. */
  ghost function Padded(m: seq<u8>): seq<u8> {
    m + [0x80] + Zeros(ZeroCount(|m|)) + Octets(8 * |m|)
  }

  /** The first 32 bits of the fractional part of the square root of p, as a number between two squares. */
  ghost predicate FractionalRoot(p: nat, w: u32) {
    exists a: nat :: a * a < p < (a + 1) * (a + 1) && RootBits(p, a, w)
  }

  ghost predicate RootBits(p: nat, a: nat, w: u32) {
    var r := a * 0x1_0000_0000 + w;
    r * r <= p * 0x1_0000_0000_0000_0000 < (r + 1) * (r + 1)
  }

  /** The initial state is made from the square roots of the first eight primes, as section 5.3.3 of
      FIPS 180-4 prescribes. */
  lemma {:induction false} InitialIsRoots()
    ensures var primes := [2, 3, 5, 7, 11, 13, 17, 19];
      |INITIAL| == 8 && forall i :: 0 <= i < 8 ==> FractionalRoot(primes[i], INITIAL[i])
  {
    EvenRoots();
    OddRoots();
    hide FractionalRoot;
  }

  lemma {:induction false} EvenRoots()
    ensures FractionalRoot(2, INITIAL[0]) && FractionalRoot(5, INITIAL[2]) && FractionalRoot(11, INITIAL[4]) && FractionalRoot(17, INITIAL[6])
  {
    RootIs(2, 1, 0x6A09_E667);
    RootIs(5, 2, 0x3C6E_F372);
    RootIs(11, 3, 0x510E_527F);
    RootIs(17, 4, 0x1F83_D9AB);
    hide FractionalRoot;
  }

  lemma {:induction false} OddRoots()
    ensures FractionalRoot(3, INITIAL[1]) && FractionalRoot(7, INITIAL[3]) && FractionalRoot(13, INITIAL[5]) && FractionalRoot(19, INITIAL[7])
  {
    RootIs(3, 1, 0xBB67_AE85);
    RootIs(7, 2, 0xA54F_F53A);
    RootIs(13, 3, 0x9B05_688C);
    RootIs(19, 4, 0x5BE0_CD19);
    hide FractionalRoot;
  }

  lemma {:induction false} RootIs(p: nat, a: nat, w: u32)
    requires a * a < p < (a + 1) * (a + 1) && RootBits(p, a, w)
    ensures FractionalRoot(p, w)
  {
  }

  /** ZeroCount is the least number of zeros that leaves 8 bytes in the last block. */
  lemma {:induction false} ZeroCountLeast(n: nat, k: nat)
    ensures (n + 1 + ZeroCount(n)) % BLOCK == BLOCK - 8
    ensures k < ZeroCount(n) ==> (n + 1 + k) % BLOCK != BLOCK - 8
  {
    var (q, r) := (n / 64, n % 64);
    ModAddMultiple(r + 1 + ZeroCount(n), q, 64);
    ModAddMultiple(r + 1 + k, q, 64);
  }

  lemma {:induction false} PaddedLength(n: nat)
    ensures (n + 1 + ZeroCount(n) + 8) % BLOCK == 0 && ZeroCount(n) < BLOCK
  {
    ZeroCountLeast(n, 0);
  }

  /** The padded message is the message, a one bit and zeros, in as few blocks as can be, and its last 8 bytes
      are the length in bits. */
  lemma {:induction false} PaddedShape(m: seq<u8>)
    requires |m| < LIMIT
    ensures |m| + 9 <= |Padded(m)| <= |m| + 72 && |Padded(m)| % BLOCK == 0
    ensures Padded(m)[..|m|] == m && Padded(m)[|m|] == 0x80
    ensures forall i :: |m| < i < |Padded(m)| - 8 ==> Padded(m)[i] == 0
    ensures BigEndian(Padded(m)[|Padded(m)| - 8..]) == 8 * |m|
  {
    hide BigEndian, Octets, Zeros;
    PaddedLength(|m|);
    hide ZeroCount;
    OctetsValue(8 * |m|);
    var front, z := m + [0x80] + Zeros(ZeroCount(|m|)), Zeros(ZeroCount(|m|));
    assert (front + Octets(8 * |m|))[|front|..] == Octets(8 * |m|);
    forall i | |m| < i < |Padded(m)| - 8 ensures Padded(m)[i] == 0 {
      assert Padded(m)[i] == z[i - |m| - 1];
    }
  }

  // ---------- Whole blocks and the rest ----------

  /** Folding over whole blocks and then over what follows them is folding over both. */
  lemma {:induction false} FoldConcat(t: Transform, s: State, x: seq<u8>, y: seq<u8>)
    requires |x| % BLOCK == 0
    ensures Fold(t, s, x + y) == Fold(t, Fold(t, s, x), y)
    decreases |x|
  {
    if x == [] {
      assert x + y == y;
    } else {
      assert (x + y)[..BLOCK] == x[..BLOCK] && (x + y)[BLOCK..] == x[BLOCK..] + y;
      FoldConcat(t, t(s, x[..BLOCK]), x[BLOCK..], y);
    }
  }

  lemma {:induction false} FoldBlock(t: Transform, s: State, x: seq<u8>)
    requires |x| == BLOCK
    ensures Fold(t, s, x) == t(s, x)
  {
    assert x[..BLOCK] == x && x[BLOCK..] == [];
  }

  // ---------- The hash object ----------

  class Sha256 {
    var s: State
    const buf: array<u8>
    var bytes: u64
    const transform: Transform
    ghost var msg: seq<u8>        // everything written so far

    /** The state covers the whole blocks of what was written; the buffer holds the rest. */
    ghost predicate Valid()
      reads this, buf
    {
      && buf.Length == BLOCK && bytes == |msg|
      && var rest := |msg| % BLOCK;
        && s == Fold(transform, INITIAL, msg[..|msg| - rest])
        && buf[..rest] == msg[|msg| - rest..]
    }

    constructor (transform: Transform)
      ensures Valid() && fresh(buf) && msg == [] && this.transform == transform
    {
      this.transform := transform;
      s := INITIAL;
      buf := new u8[BLOCK];
      bytes := 0;
      msg := [];
    }

    /** More of the message, in pieces of any size. */
    method Write(data: seq<u8>)
      requires Valid() && |msg| + |data| < 0xFFFF_FFFF_FFFF_FFC0
      modifies this, buf
      ensures Valid() && msg == old(msg) + data
    {
      var bufsize: nat := bytes % 64;
      bytes := bytes + |data|;
      ghost var done, kept := msg[..|msg| - bufsize], buf[..bufsize];
      var rest := data;
      ghost var all := msg + data;
      WholeBlocks(|msg|);
      assert msg == done + kept;
      assert Parts(all, done, kept, rest);
      hide Fold, Parts;
      while bufsize + |rest| >= 64
        invariant 0 <= bufsize < BLOCK && buf.Length == BLOCK && bytes == |all|
        invariant |done| % BLOCK == 0 && s == Fold(transform, INITIAL, done)
        invariant kept == buf[..bufsize] && Parts(all, done, kept, rest)
        decreases |rest|
      {
        done := FillBlock(bufsize, rest, done, kept, all);
        rest := rest[64 - bufsize..];
        bufsize, kept := 0, [];
      }
      Keep(bufsize, rest, done, kept, all);
    }

    /** What does not fill a block is kept for later. */
    method Keep(bufsize: nat, rest: seq<u8>, ghost done: seq<u8>, ghost kept: seq<u8>, ghost all: seq<u8>)
      requires buf.Length == BLOCK && bufsize + |rest| < BLOCK && bytes == |all|
      requires |done| % BLOCK == 0 && s == Fold(transform, INITIAL, done)
      requires kept == buf[..bufsize] && Parts(all, done, kept, rest)
      modifies this`msg, buf
      ensures Valid() && msg == all
    {
      hide Fold, Parts;
      if |rest| > 0 {
        forall i | 0 <= i < |rest| {
          buf[bufsize + i] := rest[i];
        }
      }
      assert buf[..bufsize + |rest|] == kept + rest;
      Remainder(all, done, kept, rest);
      msg := all;
    }

    /** One round of the loop: the buffer is filled up and its block processed. */
    method FillBlock(bufsize: nat, rest: seq<u8>, ghost done: seq<u8>, ghost kept: seq<u8>, ghost all: seq<u8>)
      returns (ghost done': seq<u8>)
      requires bufsize < BLOCK && buf.Length == BLOCK && bufsize + |rest| >= BLOCK
      requires |done| % BLOCK == 0 && s == Fold(transform, INITIAL, done)
      requires kept == buf[..bufsize] && Parts(all, done, kept, rest)
      modifies this`s, buf
      ensures |done'| % BLOCK == 0 && s == Fold(transform, INITIAL, done')
      ensures Parts(all, done', [], rest[BLOCK - bufsize..])
    {
      hide Fold, Parts;
      forall i | 0 <= i < 64 - bufsize {
        buf[bufsize + i] := rest[i];
      }
      ghost var block := kept + rest[..64 - bufsize];
      assert buf[..] == block;
      s := transform(s, buf[..]);
      done' := done + block;
      FoldConcat(transform, INITIAL, done, block);
      FoldBlock(transform, Fold(transform, INITIAL, done), block);
      Regroup(all, done, kept, rest, 64 - bufsize);
    }

    /** The digest: pads, processes what is left and writes the state out. Nothing is buffered then. */
    method Finalize() returns (out: seq<u8>)
      requires Valid() && |msg| < LIMIT
      modifies this, buf
      ensures out == Digest(Fold(transform, INITIAL, Padded(old(msg))))
      ensures |out| == 32
      ensures forall i :: 0 <= i < 8 ==> BigEndian(out[4 * i..4 * i + 4]) == Fold(transform, INITIAL, Padded(old(msg)))[i]
      ensures msg == Padded(old(msg)) && bytes % 64 == 0 && bytes == |msg|
      ensures s == [0, 0, 0, 0, 0, 0, 0, 0]
    {
      hide Fold, Padded, Digest, Be32, Zeros;
      ghost var m := msg;
      var high, low := (bytes / 0x2000_0000) % 0x1_0000_0000, (bytes * 8) % 0x1_0000_0000;
      var sizedesc := Be32(high) + Be32(low);
      PaddedIs(m);
      PaddedShape(m);
      Write([0x80] + Zeros((119 - bytes % 64) % 64));
      Write(sizedesc);
      assert msg[..|msg| - 0] == msg;
      out := Digest(s);
      DigestWords(s);
      s := [0, 0, 0, 0, 0, 0, 0, 0];
    }
  }

  /** What finalize appends to a message is its padding. */
  lemma {:induction false} PaddedIs(m: seq<u8>)
    requires |m| < LIMIT
    ensures m + ([0x80] + Zeros((119 - |m| % 64) % 64))
        + (Be32((|m| / 0x2000_0000) % 0x1_0000_0000) + Be32((|m| * 8) % 0x1_0000_0000)) == Padded(m)
  {
    hide Be32, Zeros, Octets;
    SizeBytes(|m|);
    var z := Zeros(ZeroCount(|m|));
    assert m + ([0x80] + z) == m + [0x80] + z;
  }

  /** A 32-bit word, most significant byte first. */
  function Be32(x: u32): (b: seq<u8>)
    ensures |b| == 4
  {
    [Octet(x, 0x100_0000), Octet(x, 0x1_0000), Octet(x, 0x100), Octet(x, 1)]
  }

  /** The words of the state, one after another. */
  function Digest(s: seq<u32>): (d: seq<u8>)
    ensures |d| == 4 * |s|
    decreases |s|
  {
    if s == [] then [] else Digest(s[..|s| - 1]) + Be32(s[|s| - 1])
  }

  /** Word i of the state is in the bytes 4 * i to 4 * i + 3, most significant byte first. */
  lemma {:induction false} DigestWord(s: seq<u32>, i: nat)
    requires i < |s|
    ensures BigEndian(Digest(s)[4 * i..4 * i + 4]) == s[i]
    decreases |s|
  {
    hide BigEndian, Be32;
    var n := |s| - 1;
    var front := Digest(s[..n]);
    if i < n {
      DigestWord(s[..n], i);
      assert (front + Be32(s[n]))[4 * i..4 * i + 4] == front[4 * i..4 * i + 4];
    } else {
      Be32Value(s[n]);
      assert (front + Be32(s[n]))[4 * n..4 * n + 4] == Be32(s[n]);
    }
  }

  lemma {:induction false} DigestWords(s: State)
    ensures |Digest(s)| == 32 && forall i :: 0 <= i < 8 ==> BigEndian(Digest(s)[4 * i..4 * i + 4]) == s[i]
  {
    hide BigEndian, Digest;
    forall i | 0 <= i < 8 ensures BigEndian(Digest(s)[4 * i..4 * i + 4]) == s[i] {
      DigestWord(s, i);
    }
  }

  lemma {:induction false} Be32Value(x: u32)
    ensures BigEndian(Be32(x)) == x
  {
    hide BigEndian, Octet;
    var b := Be32(x);
    assert b[..3][..2] == b[..2] && b[..2][..1] == b[..1] == [b[0]];
    BigEndianSingle(b[0]);
    BigEndianLast(b[..2]);
    BigEndianLast(b[..3]);
    BigEndianLast(b);
    FourOctets(x);
  }

  lemma {:induction false} FourOctets(x: u32)
    ensures 0x100 * (0x100 * (0x100 * Octet(x, 0x100_0000) + Octet(x, 0x1_0000)) + Octet(x, 0x100)) + Octet(x, 1) == x
  {
    DivDiv(x, 0x100, 0x100);
    DivDiv(x, 0x1_0000, 0x100);
  }

  /** The two words of the length field are the length in bits. */
  lemma {:induction false} SizeBytes(n: nat)
    requires n < LIMIT
    ensures Be32((n / 0x2000_0000) % 0x1_0000_0000) + Be32((n * 8) % 0x1_0000_0000) == Octets(8 * n)
  {
    hide Octet;
    var x := 8 * n;
    HighWord(x, 0x100_0000);
    HighWord(x, 0x1_0000);
    HighWord(x, 0x100);
    HighWord(x, 1);
    LowWord(x, 0x100_0000, 0x100);
    LowWord(x, 0x1_0000, 0x1_0000);
    LowWord(x, 0x100, 0x100_0000);
    LowWord(x, 1, 0x1_0000_0000);
  }

  lemma {:induction false} HighWord(x: nat, power: nat)
    requires x % 8 == 0 && x < TWO64 && power > 0
    ensures Octet((x / 8 / 0x2000_0000) % 0x1_0000_0000, power) == Octet(x, 0x1_0000_0000 * power)
  {
    hide Pow2;
    var q := x / 0x1_0000_0000;
    DivDiv(x, 8, 0x2000_0000);
    DivModUnique(q, 0x1_0000_0000, 0, q);
    DivDiv(x, 0x1_0000_0000, power);
  }

  lemma {:induction false} LowWord(x: nat, power: nat, above: nat)
    requires power > 0 && above > 0 && power * above == 0x1_0000_0000 && above % 0x100 == 0
    ensures Octet(x % 0x1_0000_0000, power) == Octet(x, power)
  {
    var q, r := x / 0x1_0000_0000, x % 0x1_0000_0000;
    Associate(power, above, q);
    ModAddMultiple(r, above * q, power);
    assert x == r + power * (above * q);
    Associate(0x100, above / 0x100, q);
    ModAddMultiple(r / power, above / 0x100 * q, 0x100);
  }

  lemma {:induction false} WholeBlocks(n: nat)
    ensures (n - n % BLOCK) % BLOCK == 0
  {
  }

  /** What was written is the processed blocks, what is kept in the buffer, and what is still to be read. */
  ghost predicate Parts(all: seq<u8>, done: seq<u8>, kept: seq<u8>, rest: seq<u8>) {
    all == done + kept + rest
  }

  lemma {:induction false} Regroup(all: seq<u8>, done: seq<u8>, kept: seq<u8>, rest: seq<u8>, n: nat)
    requires n <= |rest| && Parts(all, done, kept, rest)
    ensures Parts(all, done + (kept + rest[..n]), [], rest[n..])
  {
    assert rest == rest[..n] + rest[n..];
    var x := done + (kept + rest[..n]);
    assert done + kept + (rest[..n] + rest[n..]) == x + rest[n..] == x + [] + rest[n..];
  }

  /** Less than a block is left after the whole blocks. */
  lemma {:induction false} Remainder(all: seq<u8>, done: seq<u8>, kept: seq<u8>, rest: seq<u8>)
    requires Parts(all, done, kept, rest) && |done| % BLOCK == 0 && |kept| + |rest| < BLOCK
    ensures var n := |all| % BLOCK;
      n == |kept| + |rest| && n <= |all| && all[..|all| - n] == done && all[|all| - n..] == kept + rest
  {
    assert done + kept + rest == done + (kept + rest);
  }

  /** However a message is cut into pieces, the digest is that of the whole message. */
  method HashPieces(transform: Transform, pieces: seq<seq<u8>>) returns (out: seq<u8>)
    requires |Joined(pieces)| < LIMIT
    ensures out == Digest(Fold(transform, INITIAL, Padded(Joined(pieces))))
    ensures |out| == 32
    ensures forall i :: 0 <= i < 8 ==> BigEndian(out[4 * i..4 * i + 4]) == Fold(transform, INITIAL, Padded(Joined(pieces)))[i]
  {
    hide Fold, Padded, Digest;
    var h := new Sha256(transform);
    for i := 0 to |pieces|
      invariant h.Valid() && fresh(h) && fresh(h.buf) && h.transform == transform && h.msg == Joined(pieces[..i])
    {
      JoinedStep(pieces, i);
      h.Write(pieces[i]);
    }
    assert pieces[..|pieces|] == pieces;
    out := h.Finalize();
  }

  ghost function Joined(pieces: seq<seq<u8>>): seq<u8> {
    if pieces == [] then [] else Joined(pieces[..|pieces| - 1]) + pieces[|pieces| - 1]
  }

  lemma {:induction false} JoinedStep(pieces: seq<seq<u8>>, i: nat)
    requires i < |pieces|
    ensures Joined(pieces[..i + 1]) == Joined(pieces[..i]) + pieces[i]
    ensures |Joined(pieces[..i + 1])| <= |Joined(pieces)|
    decreases |pieces| - i
  {
    assert pieces[..i + 1][..i] == pieces[..i];
    if i + 1 < |pieces| {
      JoinedStep(pieces, i + 1);
    } else {
      assert pieces[..i + 1] == pieces;
    }
  }
}
