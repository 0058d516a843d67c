/** Length headers (encode.go): their sizes, and writing them into a buffer. */
module RlpHeaders {
  import opened Machine
  import opened Bits
  import opened Bytes
  import opened RlpSpec

  /** The bytes putint writes: the shortest form, but at least one byte. */
  function IntOctets(i: u64): seq<u8> {
    if i == 0 then [0] else IntBytes(i)
  }

  /** intsize. */
  method IntSize(i: u64) returns (size: nat)
    ensures size == |IntOctets(i)|
  {
    size := 1;
    var x: nat := i / 0x100;
    while x != 0
      invariant i == 0 ==> x == 0 && size == 1
      invariant i > 0 ==> |IntBytes(i)| == size + |IntBytes(x)|
      decreases x
    {
      x := x / 0x100;
      size := size + 1;
    }
  }

  lemma {:induction false} IntByteAt(i: nat, j: nat)
    requires j < |IntBytes(i)|
    ensures IntBytes(i)[|IntBytes(i)| - 1 - j] == Octet(i, Pow2(8 * j))
  {
    if j == 0 {
      assert Pow2(0) == 1;
    } else {
      IntByteAt(i / 0x100, j - 1);
      BytePower(j - 1);
      DivDiv(i, 0x100, Pow2(8 * (j - 1)));
    }
  }

  lemma {:induction false} Pow2Bytes()
    ensures Pow2(8) == 0x100 && Pow2(16) == 0x1_0000 && Pow2(24) == 0x100_0000 && Pow2(32) == 0x1_0000_0000
    ensures Pow2(40) == 0x100_0000_0000 && Pow2(48) == 0x1_0000_0000_0000 && Pow2(56) == 0x100_0000_0000_0000
    ensures Pow2(64) == 0x1_0000_0000_0000_0000 && Pow2(0) == 1
  {
    hide Pow2;
    Pow2Small();
    Pow2Words();
    Pow2Split(16, 8, 0x1_0000, 0x100);
    Pow2Split(32, 8, 0x1_0000_0000, 0x100);
    Pow2Split(32, 16, 0x1_0000_0000, 0x1_0000);
    Pow2Split(48, 8, 0x1_0000_0000_0000, 0x100);
  }

  /** The number of bytes of a number, from the range it is in. */
  lemma {:induction false} Size(i: nat, k: nat)
    requires k >= 1 && Pow2(8 * (k - 1)) <= i < Pow2(8 * k)
    ensures |IntBytes(i)| == k
  {
    hide Pow2, IntBytes;
    IntBytesLength(i, k);
    IntBytesLength(i, k - 1);
  }

  lemma {:induction false} OctetAt(i: nat, j: nat)
    requires j < 8
    ensures Octets(i)[7 - j] == Octet(i, Pow2(8 * j))
  {
    hide Pow2;
    Pow2Bytes();
  }

  /** The shortest form is the last k of them, for a number of k bytes. */
  lemma {:induction false} ShortestOctets(i: u64, k: nat)
    requires 1 <= k <= 8 && i < Pow2(8 * k) && (k == 1 || Pow2(8 * (k - 1)) <= i)
    ensures IntOctets(i) == Octets(i)[8 - k..]
  {
    hide Pow2, IntBytes, Octets;
    if i == 0 {
      OctetAt(0, 0);
      assert Pow2(0) == 1 by { Pow2Bytes(); }
      return;
    }
    assert Pow2(0) == 1 by { Pow2Bytes(); }
    Size(i, k);
    forall m: nat | m < k ensures IntBytes(i)[m] == Octets(i)[8 - k + m] {
      IntByteAt(i, k - 1 - m);
      OctetAt(i, k - 1 - m);
    }
  }

  /** A buffer after s has been written at `at`. */
  function Overwrite(b: seq<u8>, at: nat, s: seq<u8>): (r: seq<u8>)
    requires at + |s| <= |b|
    ensures |r| == |b|
  {
    b[..at] + s + b[at + |s|..]
  }

  lemma {:induction false} OverwriteTwice(b: seq<u8>, at: nat, x: seq<u8>, y: seq<u8>)
    requires at + |x| + |y| <= |b|
    ensures Overwrite(Overwrite(b, at, x), at + |x|, y) == Overwrite(b, at, x + y)
  {
  }

  lemma {:induction false} OverwriteNone(b: seq<u8>, at: nat)
    requires at <= |b|
    ensures Overwrite(b, at, []) == b
  {
  }

  lemma {:induction false} OverwriteAll(b: seq<u8>, s: seq<u8>)
    requires |s| == |b|
    ensures Overwrite(b, 0, s) == s
  {
  }

  lemma {:induction false} Prepend(b: seq<u8>, at: nat, x: u8, s: seq<u8>)
    requires at + 1 + |s| <= |b|
    ensures Overwrite(b, at + 1, s)[at := x] == Overwrite(b, at, [x] + s)
  {
  }

  lemma {:induction false} IsOverwrite(b: seq<u8>, at: nat, s: seq<u8>, r: seq<u8>)
    requires |r| == |b| && at + |s| <= |b|
    requires r[..at] == b[..at] && r[at + |s|..] == b[at + |s|..] && r[at..at + |s|] == s
    ensures r == Overwrite(b, at, s)
  {
    assert r == r[..at] + r[at..at + |s|] + r[at + |s|..];
  }

  /** Consecutive single-byte stores. */
  method Store(b: array<u8>, at: nat, s: seq<u8>)
    requires at + |s| <= b.Length
    modifies b
    ensures b[..] == Overwrite(old(b[..]), at, s)
  {
    hide Overwrite;
    ghost var b0 := b[..];
    forall j | 0 <= j < |s| {
      b[at + j] := s[j];
    }
    IsOverwrite(b0, at, s, b[..]);
  }

  /** putint: the shortest big-endian form of i at b[at..]. */
  method PutInt(b: array<u8>, at: nat, i: u64) returns (size: nat)
    requires at + |IntOctets(i)| <= b.Length
    modifies b
    ensures size == |IntOctets(i)|
    ensures b[..] == Overwrite(old(b[..]), at, IntOctets(i))
  {
    hide IntBytes, Pow2, Overwrite, Octet;
    Pow2Bytes();
    if i < 0x100 {
      ShortestOctets(i, 1);
      Store(b, at, [Octet(i, 1)]);
      size := 1;
    } else if i < 0x1_0000 {
      ShortestOctets(i, 2);
      Store(b, at, [Octet(i, 0x100), Octet(i, 1)]);
      size := 2;
    } else if i < 0x100_0000 {
      ShortestOctets(i, 3);
      Store(b, at, [Octet(i, 0x1_0000), Octet(i, 0x100), Octet(i, 1)]);
      size := 3;
    } else if i < 0x1_0000_0000 {
      ShortestOctets(i, 4);
      Store(b, at, [Octet(i, 0x100_0000), Octet(i, 0x1_0000), Octet(i, 0x100), Octet(i, 1)]);
      size := 4;
    } else if i < 0x100_0000_0000 {
      ShortestOctets(i, 5);
      Store(b, at, [Octet(i, 0x1_0000_0000), Octet(i, 0x100_0000), Octet(i, 0x1_0000), Octet(i, 0x100), Octet(i, 1)]);
      size := 5;
    } else if i < 0x1_0000_0000_0000 {
      ShortestOctets(i, 6);
      Store(b, at, [Octet(i, 0x100_0000_0000), Octet(i, 0x1_0000_0000),
                   Octet(i, 0x100_0000), Octet(i, 0x1_0000), Octet(i, 0x100), Octet(i, 1)]);
      size := 6;
    } else if i < 0x100_0000_0000_0000 {
      ShortestOctets(i, 7);
      Store(b, at, [Octet(i, 0x1_0000_0000_0000), Octet(i, 0x100_0000_0000), Octet(i, 0x1_0000_0000),
                   Octet(i, 0x100_0000), Octet(i, 0x1_0000), Octet(i, 0x100), Octet(i, 1)]);
      size := 7;
    } else {
      ShortestOctets(i, 8);
      Store(b, at, [Octet(i, 0x100_0000_0000_0000), Octet(i, 0x1_0000_0000_0000), Octet(i, 0x100_0000_0000), Octet(i, 0x1_0000_0000),
                   Octet(i, 0x100_0000), Octet(i, 0x1_0000), Octet(i, 0x100), Octet(i, 1)]);
      size := 8;
    }
  }

  /** headsize. */
  method HeadSize(size: u64) returns (n: nat)
    ensures forall smallTag: u8, largeTag: u8 :: n == |Header(smallTag, largeTag, size)|
  {
    if size < 56 {
      return 1;
    }
    n := IntSize(size);
    n := 1 + n;
  }

  /** puthead: a header at b[at..], which must have room for it. */
  method PutHead(b: array<u8>, at: nat, smallTag: u8, largeTag: u8, size: u64) returns (n: nat)
    requires at + |Header(smallTag, largeTag, size)| <= b.Length
    modifies b
    ensures n == |Header(smallTag, largeTag, size)|
    ensures b[..] == Overwrite(old(b[..]), at, Header(smallTag, largeTag, size))
  {
    hide IntBytes, Overwrite;
    ghost var b0 := b[..];
    ghost var head := Header(smallTag, largeTag, size);
    if size < 56 {
      b[at] := (smallTag + size % 0x100) % 0x100;
      assert head == [b[at]];
      hide Header;
      IsOverwrite(b0, at, head, b[..]);
      return 1;
    }
    var tag;
    n, tag := PutLong(b, at, largeTag, size);
    assert head == [tag] + IntOctets(size);
  }

  /** puthead for a size that takes its own bytes. */
  method PutLong(b: array<u8>, at: nat, largeTag: u8, size: u64) returns (n: nat, tag: u8)
    requires at + 1 + |IntOctets(size)| <= b.Length
    modifies b
    ensures n == 1 + |IntOctets(size)|
    ensures tag == (largeTag as int + |IntOctets(size)|) % 0x100
    ensures b[..] == Overwrite(old(b[..]), at, [tag] + IntOctets(size))
  {
    hide IntBytes, Overwrite, IntOctets;
    ghost var b0 := b[..];
    var sizesize := PutInt(b, at + 1, size);
    tag := (largeTag as int + sizesize) % 0x100;
    ghost var b1 := b[..];
    b[at] := tag;
    assert b[..] == b1[at := tag];
    Prepend(b0, at, tag, IntOctets(size));
    n := sizesize + 1;
  }
}
