/** Scalars as 32 big-endian bytes (scalar_4x64_impl.h: set_b32 and get_b32). */
module ScalarBytes {
  import opened Machine
  import opened Bits
  import opened Bytes
  import opened ScalarMul

  /** Thirty-two bytes are four words. */
  lemma {:induction false} FourWords(b: seq<u8>)
    requires |b| == 32
    ensures BigEndian(b) == Val4(Word(b, 24), Word(b, 16), Word(b, 8), Word(b, 0))
  {
    hide BigEndian, Pow2, Word, Val4;
    Pow2Words();
    WordIsBigEndian(b, 0);
    WordIsBigEndian(b, 8);
    WordIsBigEndian(b, 16);
    WordIsBigEndian(b, 24);
    assert b == b[0..8] + b[8..] && b[8..] == b[8..16] + b[16..] && b[16..] == b[16..24] + b[24..32];
    BigEndianConcat(b[0..8], b[8..]);
    BigEndianConcat(b[8..16], b[16..]);
    BigEndianConcat(b[16..24], b[24..32]);
    FourParts(Word(b, 0), Word(b, 8), Word(b, 16), Word(b, 24));
  }

  lemma {:induction false} FourParts(d3: nat, d2: nat, d1: nat, d0: nat)
    ensures TWO192 * d3 + (TWO128 * d2 + (TWO64 * d1 + d0)) == Val4(d0, d1, d2, d3)
  {
  }

  /** The number in b, reduced once; the flag tells whether that changed it. */
  method SetB32(r: array<u64>, b: seq<u8>) returns (overflow: bool)
    requires r.Length == 4 && |b| == 32
    modifies r
    ensures overflow <==> BigEndian(b) >= N
    ensures Val(r) == if overflow then BigEndian(b) - N else BigEndian(b)
    ensures Val(r) < N
  {
    FourWords(b);
    WordIsBigEndian(b, 0);
    WordIsBigEndian(b, 8);
    WordIsBigEndian(b, 16);
    WordIsBigEndian(b, 24);
    hide BigEndian, Word, Val4;
    r[0] := Word(b, 24);
    r[1] := Word(b, 16);
    r[2] := Word(b, 8);
    r[3] := Word(b, 0);
    Range4(r[0], r[1], r[2], r[3]);
    overflow := CheckOverflow(r);
    Reduce(r, if overflow then 1 else 0);
    assert TWO256 <= 2 * N;
  }

  /** The bytes of the number. */
  method GetB32(a: array<u64>) returns (b: seq<u8>)
    requires a.Length == 4
    ensures |b| == 32 && BigEndian(b) == Val(a)
  {
    hide BigEndian, Word, Val4, Octets;
    b := Octets(a[3]) + Octets(a[2]) + Octets(a[1]) + Octets(a[0]);
    FourWords(b);
    FourSlices(Octets(a[3]), Octets(a[2]), Octets(a[1]), Octets(a[0]));
    WordOfOctets(b, 0, a[3]);
    WordOfOctets(b, 8, a[2]);
    WordOfOctets(b, 16, a[1]);
    WordOfOctets(b, 24, a[0]);
  }

  lemma {:induction false} FourSlices(p: seq<u8>, q: seq<u8>, r: seq<u8>, s: seq<u8>)
    requires |p| == |q| == |r| == |s| == 8
    ensures var b := p + q + r + s; b[0..8] == p && b[8..16] == q && b[16..24] == r && b[24..32] == s
  {
    SlicesOfConcat(p + q, r, s);
    SlicesOfConcat(p, q, []);
    SliceOfSlice(p + q + r + s, 0, 16, 0, 8);
    SliceOfSlice(p + q + r + s, 0, 16, 8, 16);
  }

  lemma {:induction false} WordOfOctets(b: seq<u8>, at: nat, d: u64)
    requires at + 8 <= |b| && b[at..at + 8] == Octets(d)
    ensures Word(b, at) == d
  {
    hide BigEndian, Word, Octets;
    WordIsBigEndian(b, at);
    OctetsValue(d);
  }
}
