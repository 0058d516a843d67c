/** The incremental reader over an encoder's buffer (encbuffer.go: encReader). */
module RlpReader {
  import opened Machine
  import opened RlpSpec
  import opened RlpHeaders
  import opened RlpEncode

  /** A piece of output that has been cut off but not delivered: part of the string data, or part of a
      header, which lies in the buffer's scratch space. */
  datatype Cut = NoCut | OfStr(lo: nat, hi: nat) | OfSizebuf(lo: nat, hi: nat)

  /** A position in the string data, and in the headers. */
  ghost predicate Behind(str: seq<u8>, heads: seq<Listhead>, i: nat, pos: nat) {
    i <= |heads| && Ordered(heads[i..], pos, |str|)
  }

  /** The output from a position on. */
  ghost function Left(str: seq<u8>, heads: seq<Listhead>, i: nat, pos: nat): seq<u8>
    requires Behind(str, heads, i, pos)
  {
    Render(str, heads[i..], pos)
  }

  /** First comes the string data before the next header, then the header. */
  lemma {:induction false} LeftHead(str: seq<u8>, heads: seq<Listhead>, i: nat, pos: nat)
    requires Behind(str, heads, i, pos) && i < |heads|
    ensures var offset := heads[i].offset;
      pos <= offset <= |str| && Behind(str, heads, i, offset) && Behind(str, heads, i + 1, offset)
      && Left(str, heads, i, pos) == str[pos..offset] + Left(str, heads, i, offset)
      && Left(str, heads, i, offset) == ListHeader(heads[i].size) + Left(str, heads, i + 1, offset)
  {
    hide ListHeader;
    assert heads[i..][1..] == heads[i + 1..];
    var offset := heads[i].offset;
    OrderedBound(heads[i + 1..], offset, |str|);
    var rest := Render(str, heads[i + 1..], offset);
    Assoc(str[pos..offset], ListHeader(heads[i].size), rest);
    assert str[offset..offset] + ListHeader(heads[i].size) == ListHeader(heads[i].size);
  }

  lemma {:induction false} LeftEnd(str: seq<u8>, heads: seq<Listhead>, i: nat, pos: nat)
    requires Behind(str, heads, i, pos) && i == |heads|
    ensures pos <= |str| && Left(str, heads, i, pos) == str[pos..]
    ensures Behind(str, heads, i, |str|) && Left(str, heads, i, |str|) == []
  {
  }

  class EncReader {
    var buf: EncBuffer?   // null after the end was reached
    var lhpos: nat        // index of the next list header
    var strpos: nat       // current position in the string data
    var piece: Cut        // next piece to be read
    ghost const home: EncBuffer

    ghost predicate Valid()
      reads this, home, home.sizebuf
    {
      buf != null ==>
        && buf == home && buf.Valid() && |buf.frames| == 1
        && lhpos <= |buf.lheads| && Behind(buf.str, buf.lheads, lhpos, strpos)
        && Within(piece)
    }

    predicate Within(p: Cut)
      reads this, home, buf
      requires buf != null
    {
      match p
      case NoCut => true
      case OfStr(lo, hi) => lo < hi <= |buf.str|
      case OfSizebuf(lo, hi) => lo < hi <= buf.sizebuf.Length
    }

    function CutBytes(p: Cut): seq<u8>
      reads this, home, home.sizebuf
      requires buf != null && buf == home && Within(p)
    {
      match p
      case NoCut => []
      case OfStr(lo, hi) => buf.str[lo..hi]
      case OfSizebuf(lo, hi) => buf.sizebuf[lo..hi]
    }

    ghost function Uncut(): seq<u8>
      reads this, home, home.sizebuf
      requires Valid() && buf != null
    {
      Left(buf.str, buf.lheads, lhpos, strpos)
    }

    /** What is still to be delivered. */
    ghost function Pending(): seq<u8>
      reads this, home, home.sizebuf
      requires Valid()
    {
      if buf == null then [] else CutBytes(piece) + Uncut()
    }

    constructor (buf: EncBuffer)
      requires buf.Valid() && |buf.frames| == 1
      ensures Valid() && this.buf == buf == home && Pending() == buf.Output()
    {
      this.buf, lhpos, strpos, piece, home := buf, 0, 0, NoCut, buf;
      new;
      assert buf.lheads[0..] == buf.lheads;
    }

    /** The next piece. The one that is left over from before, if any, comes first, so that a header is not
        built in the scratch space while another one is still waiting there. */
    method Next() returns (p: Cut)
      requires Valid()
      modifies this`lhpos, this`strpos, home.sizebuf
      ensures Valid()
      ensures buf == null ==> p == NoCut
      ensures buf != null ==> Within(p) && CutBytes(p) + Uncut() == old(Pending())
      ensures buf != null ==> if p == NoCut then old(Pending()) == [] else CutBytes(p) != []
      ensures piece != NoCut && buf != null ==> p == piece
    {
      hide Header, ListHeader, Holds, Behind, Left;
      if buf == null {
        return NoCut;
      } else if piece != NoCut {
        return piece;
      } else if lhpos < |buf.lheads| {
        var head := buf.lheads[lhpos];
        LeftHead(buf.str, buf.lheads, lhpos, strpos);
        if head.offset - strpos > 0 {
          p := OfStr(strpos, head.offset);
          strpos := head.offset;
          return;
        }
        lhpos := lhpos + 1;
        var enc := EncodeHead(buf.sizebuf, head);
        return OfSizebuf(0, |enc|);
      } else {
        LeftEnd(buf.str, buf.lheads, lhpos, strpos);
        if strpos < |buf.str| {
          p := OfStr(strpos, |buf.str|);
          strpos := |buf.str|;
          return;
        } else {
          return NoCut;
        }
      }
    }

    /** Has a piece ready, or finds that the end is reached and lets go of the buffer. */
    method Advance()
      requires Valid()
      modifies this, home.sizebuf
      ensures Valid() && Pending() == old(Pending())
      ensures buf == null ==> Pending() == []
      ensures buf != null ==> Within(piece) && CutBytes(piece) != []
    {
      hide Holds, Behind, Left;
      piece := Next();
      if piece == NoCut {
        buf := null;
      }
    }

    /** Copies the piece to b[n..], or what fits of it, which is p. */
    method Deliver(b: array<u8>, n: nat) returns (nn: nat, ghost p: seq<u8>)
      requires Valid() && buf != null && CutBytes(piece) != []
      requires n <= b.Length && b != home.sizebuf
      modifies this`piece, b
      ensures Valid() && nn == |p| && n + |p| <= b.Length
      ensures old(Pending()) == p + Pending() && b[..] == Overwrite(old(b[..]), n, p)
      ensures if piece == NoCut then p != [] else n + |p| == b.Length && Pending() != []
    {
      hide Holds, Behind, Left, Overwrite;
      var bytes := CutBytes(piece);
      ghost var rest := Uncut();
      nn := Copy(b, n, bytes);
      p := bytes[..nn];
      Cutting(bytes, rest, nn);
      if nn < |bytes| {
        piece := if piece.OfStr? then OfStr(piece.lo + nn, piece.hi) else OfSizebuf(piece.lo + nn, piece.hi);
        assert CutBytes(piece) == bytes[nn..];
      } else {
        piece := NoCut;
      }
    }

    /** One round of Read, which delivers p. */
    method ReadPiece(b: array<u8>, n: nat) returns (nn: nat, more: bool, ghost p: seq<u8>)
      requires Valid() && n <= b.Length && b != home.sizebuf
      modifies this, home.sizebuf, b
      ensures Valid() && nn == |p| && n + |p| <= b.Length
      ensures old(Pending()) == p + Pending() && b[..] == Overwrite(old(b[..]), n, p)
      ensures if more then nn > 0 && buf != null else if buf == null then Pending() == [] else n + nn == b.Length && Pending() != []
    {
      ghost var b0 := b[..];
      OverwriteNone(b0, n);
      hide Overwrite;
      Advance();
      if buf == null {
        return 0, false, [];
      }
      nn, p := Deliver(b, n);
      more := piece == NoCut;
    }

    /** Fills b as far as there is output. */
    method Read(b: array<u8>) returns (n: nat, eof: bool)
      requires Valid() && b != home.sizebuf
      modifies this, home.sizebuf, b
      ensures Valid()
      ensures n == Min(b.Length, |old(Pending())|) && eof == (|old(Pending())| <= b.Length)
      ensures b[..] == Overwrite(old(b[..]), 0, old(Pending())[..n])
      ensures Pending() == old(Pending())[n..]
    {
      ghost var out, b0, left := Pending(), b[..], Pending();
      NothingRead(out, b0);
      hide Holds, Behind, Left, EncReader.Pending, EncReader.Valid, Overwrite, ReadSoFar;
      n := 0;
      ghost var got: seq<u8> := [];
      var more := true;
      while more
        invariant Valid() && n == |got| <= b.Length && left == Pending()
        invariant ReadSoFar(out, b0, got, left, b[..])
        invariant !more ==> if buf == null then left == [] else n == b.Length && left != []
        decreases b.Length - n, more
      {
        var nn;
        ghost var p, content := [], b[..];
        nn, more, p := ReadPiece(b, n);
        MoreRead(out, b0, got, left, content, p, Pending(), b[..]);
        got, left := got + p, Pending();
        n := n + nn;
      }
      eof := buf == null;
      AllRead(out, b0, got, left, b[..]);
    }
  }

  /** `got` has been read into the buffer, which was b0 and is now content, and `left` is still to come. */
  ghost predicate ReadSoFar(out: seq<u8>, b0: seq<u8>, got: seq<u8>, left: seq<u8>, content: seq<u8>) {
    out == got + left && |got| <= |b0| && content == Overwrite(b0, 0, got)
  }

  lemma {:induction false} NothingRead(out: seq<u8>, b0: seq<u8>)
    ensures ReadSoFar(out, b0, [], out, b0)
  {
    OverwriteNone(b0, 0);
  }

  lemma {:induction false} MoreRead(out: seq<u8>, b0: seq<u8>, got: seq<u8>, left: seq<u8>, content: seq<u8>,
                                    p: seq<u8>, left': seq<u8>, content': seq<u8>)
    requires ReadSoFar(out, b0, got, left, content) && left == p + left' && |got| + |p| <= |b0|
    requires content' == Overwrite(content, |got|, p)
    ensures ReadSoFar(out, b0, got + p, left', content')
  {
    OverwriteTwice(b0, 0, got, p);
    hide Overwrite;
    Assoc(got, p, left');
  }

  lemma {:induction false} AllRead(out: seq<u8>, b0: seq<u8>, got: seq<u8>, left: seq<u8>, content: seq<u8>)
    requires ReadSoFar(out, b0, got, left, content)
    ensures |out| == |got| + |left| && out[..|got|] == got && out[|got|..] == left && |got| <= |b0|
    ensures content == Overwrite(b0, 0, got)
  {
    hide Overwrite;
    CutAt(out, got, left);
  }

  lemma {:induction false} CutAt(out: seq<u8>, got: seq<u8>, left: seq<u8>)
    requires out == got + left
    ensures out[..|got|] == got && out[|got|..] == left
  {
  }

  /** EncodeToReader for an untyped value: the size of the encoding, and a reader over it. */
  method EncodeToReader(v: Item) returns (size: nat, r: EncReader)
    requires |Enc(v)| < MAXINT
    ensures fresh(r) && r.Valid() && fresh(r.home) && fresh(r.home.sizebuf) && r.Pending() == Enc(v) && size == |Enc(v)|
  {
    hide Enc, Holds;
    var buf := new EncBuffer();
    buf.WriteItem(v);
    assert buf.frames[0].content == [] + Enc(v);
    size := buf.Size();
    r := new EncReader(buf);
  }

  ghost function Total(sizes: seq<nat>): nat {
    if sizes == [] then 0 else sizes[0] + Total(sizes[1..])
  }

  /** What reads of any sizes deliver, put together: the encoding, as far as the sizes reach. The last
      read reports the end exactly if everything has been asked for. */
  method ReadAll(v: Item, sizes: seq<nat>) returns (out: seq<u8>, eof: bool)
    requires |Enc(v)| < MAXINT
    ensures out == Enc(v)[..Min(Total(sizes), |Enc(v)|)]
    ensures sizes != [] ==> (eof <==> Total(sizes) >= |Enc(v)|)
  {
    hide Enc, EncReader.Valid, EncReader.Pending, Total, Min;
    var size, r := EncodeToReader(v);
    out, eof := ReadOn(r, sizes);
  }

  /** One read after another. */
  method ReadOn(r: EncReader, sizes: seq<nat>) returns (out: seq<u8>, eof: bool)
    requires r.Valid()
    modifies r, r.home.sizebuf
    ensures var rest := old(r.Pending()); out == rest[..Min(Total(sizes), |rest|)]
    ensures sizes != [] ==> (eof <==> Total(sizes) >= |old(r.Pending())|)
    decreases |sizes|
  {
    hide EncReader.Valid, EncReader.Pending;
    if |sizes| == 0 {
      return [], false;
    }
    ghost var rest := r.Pending();
    var b;
    b, eof := ReadOnce(r, sizes[0]);
    Onward(rest, sizes[0], Total(sizes[1..]));
    if |sizes| == 1 {
      return b, eof;
    }
    hide Total, Min;
    var more;
    more, eof := ReadOn(r, sizes[1..]);
    out := b + more;
  }

  /** One read into a buffer of k bytes. */
  method ReadOnce(r: EncReader, k: nat) returns (bytes: seq<u8>, eof: bool)
    requires r.Valid()
    modifies r, r.home.sizebuf
    ensures r.Valid()
    ensures var rest := old(r.Pending()); var n := Min(k, |rest|);
      bytes == rest[..n] && r.Pending() == rest[n..] && eof == (|rest| <= k)
  {
    hide EncReader.Valid, EncReader.Pending, Overwrite;
    var b := new u8[k];
    ghost var rest, b0 := r.Pending(), b[..];
    var n;
    n, eof := r.Read(b);
    OverwriteStart(b0, rest[..n]);
    bytes := b[..n];
  }

  lemma {:induction false} OverwriteStart(b: seq<u8>, s: seq<u8>)
    requires |s| <= |b|
    ensures Overwrite(b, 0, s)[..|s|] == s
  {
  }

  /** Taking up to m bytes and then up to k is taking up to m + k. */
  lemma {:induction false} Onward(out: seq<u8>, m: nat, k: nat)
    ensures var n := Min(m, |out|); var rest := out[n..];
      out[..n] + rest[..Min(k, |rest|)] == out[..Min(m + k, |out|)] && (|rest| <= k <==> |out| <= m + k)
  {
  }

  lemma {:induction false} Cutting(bytes: seq<u8>, rest: seq<u8>, nn: nat)
    requires nn <= |bytes|
    ensures bytes + rest == bytes[..nn] + (bytes[nn..] + rest)
    ensures nn == |bytes| ==> bytes[nn..] + rest == rest == [] + rest
  {
  }
}
