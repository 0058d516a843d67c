/** Recursive length prefix, as Appendix B of the Ethereum Yellow Paper defines it, and what a reader
    can recover from it: headers, values and sequences of values. */
module RlpSpec {
  import opened Machine
  import opened Bits
  import opened Bytes

  /** An untyped RLP tree. */
  datatype Item = Str(bytes: seq<u8>) | List(items: seq<Item>)

  datatype Kind = Byte | String | ListKind

  /** A length header. Tags are bytes, so their sum wraps; it does not below 2^64. */
  function Header(smallTag: u8, largeTag: u8, size: nat): seq<u8>
  {
    if size < 56 then [(smallTag + size) % 0x100]
    else [(largeTag as int + |IntBytes(size)|) % 0x100] + IntBytes(size)
  }

  function Enc(v: Item): (e: seq<u8>)
    ensures |e| >= 1
    decreases v, 0
  {
    match v
    case Str(b) => if |b| == 1 && b[0] <= 0x7F then b else Header(0x80, 0xB7, |b|) + b
    case List(items) => var p := EncAll(items); Header(0xC0, 0xF7, |p|) + p
  }

  function EncAll(items: seq<Item>): seq<u8>
    decreases items, 1
  {
    if items == [] then [] else Enc(items[0]) + EncAll(items[1..])
  }

  lemma {:induction false} EncOfList(items: seq<Item>)
    ensures Enc(List(items)) == Header(0xC0, 0xF7, |EncAll(items)|) + EncAll(items)
    ensures EncAll([]) == [] && Enc(List([])) == [0xC0]
  {
  }

  lemma {:induction false} SizeBytes(n: nat)
    ensures |IntBytes(n)| <= 8 <==> n < TWO64
    ensures n >= 56 ==> |IntBytes(n)| >= 1
  {
    hide Pow2, IntBytes, BigEndian;
    Pow2Words();
    IntBytesLength(n, 8);
    IntBytesValue(n);
  }

  // ---------- Headers ----------

  /** The header in front of a value: the kind, the header's own length and the payload's. A single
      byte below 0x80 is its own header. None if the input is too short or the size is not minimal. */
  function ParseHead(b: seq<u8>): Option<(Kind, nat, nat)> {
    if b == [] then None
    else if b[0] < 0x80 then Some((Byte, 1, 0))
    else if b[0] < 0xB8 then Some((String, 1, b[0] - 0x80))
    else if b[0] < 0xC0 then ParseSize(b, String, b[0] - 0xB7)
    else if b[0] < 0xF8 then Some((ListKind, 1, b[0] - 0xC0))
    else ParseSize(b, ListKind, b[0] - 0xF7)
  }

  function ParseSize(b: seq<u8>, k: Kind, n: nat): Option<(Kind, nat, nat)>
    requires b != [] && n >= 1
  {
    if |b| < 1 + n || b[1] == 0 || BigEndian(b[1..1 + n]) < 56 then None
    else Some((k, 1 + n, BigEndian(b[1..1 + n])))
  }

  function HeadTag(k: Kind): u8 { if k == ListKind then 0xC0 else 0x80 }

  function HeadLargeTag(k: Kind): u8 { if k == ListKind then 0xF7 else 0xB7 }

  /** A size that parses is written back as the same bytes. */
  lemma {:induction false} ParsedSize(z: seq<u8>)
    requires 1 <= |z| <= 8 && z[0] != 0
    ensures IntBytes(BigEndian(z)) == z && BigEndian(z) < TWO64
  {
    hide Pow2, IntBytes, BigEndian;
    IntBytesOf(z);
    BigEndianBound(z);
    Pow2Words();
    Pow2Monotone(8 * |z|, 64);
  }

  /** A header that parses is the one that would be written for its kind and size. */
  lemma {:induction false} ParsedHeader(b: seq<u8>)
    requires ParseHead(b).Some? && ParseHead(b).value.0 != Byte
    ensures var (k, h, s) := ParseHead(b).value;
      h <= |b| && s < TWO64 && b[..h] == Header(HeadTag(k), HeadLargeTag(k), s)
  {
    hide IntBytes, BigEndian;
    var (k, h, s) := ParseHead(b).value;
    if h == 1 {
      assert b[..1] == [b[0]];
    } else {
      ParsedSize(b[1..h]);
      assert b[..h] == [b[0]] + b[1..h];
    }
  }

  /** A header that is written parses back, whatever follows it. */
  lemma {:induction false} WrittenHeader(k: Kind, s: nat, rest: seq<u8>)
    requires k != Byte && s < TWO64
    ensures var head := Header(HeadTag(k), HeadLargeTag(k), s);
      ParseHead(head + rest) == Some((k, |head|, s)) && 1 <= |head| <= 9
  {
    hide IntBytes, BigEndian;
    var head := Header(HeadTag(k), HeadLargeTag(k), s);
    var b := head + rest;
    if s >= 56 {
      var z := IntBytes(s);
      SizeBytes(s);
      IntBytesValue(s);
      assert b[1..1 + |z|] == z;
      assert b[1] == z[0];
    }
  }

  /** The encoding of strings and lists, by the length of their contents: tags, lengths and their places. */
  lemma {:induction false} EncodingsByLength(b: seq<u8>, items: seq<Item>)
    ensures |b| == 1 && b[0] < 0x80 ==> Enc(Str(b)) == b
    ensures |b| < 56 && !(|b| == 1 && b[0] < 0x80) ==> Enc(Str(b)) == [0x80 + |b|] + b
    ensures 56 <= |b| < 0x100 ==> Enc(Str(b)) == [0xB8, |b|] + b
    ensures |b| == 0x400 ==> Enc(Str(b)) == [0xB9, 0x04, 0x00] + b
    ensures var c := EncAll(items);
      && (|c| < 56 ==> Enc(List(items)) == [0xC0 + |c|] + c)
      && (56 <= |c| < 0x100 ==> Enc(List(items)) == [0xF8, |c|] + c)
      && (|c| == 0x400 ==> Enc(List(items)) == [0xF9, 0x04, 0x00] + c)
  {
    hide EncAll, IntBytes;
    SmallLength(|b|);
    SmallLength(|EncAll(items)|);
  }

  lemma {:induction false} SmallLength(n: nat)
    ensures 0 < n < 0x100 ==> IntBytes(n) == [n]
    ensures n == 0x400 ==> IntBytes(n) == [0x04, 0x00]
  {
    hide BigEndian, IntBytes;
    if 0 < n < 0x100 {
      BigEndianSingle(n);
      IntBytesOf([n]);
    } else if n == 0x400 {
      BigEndianLast([0x04, 0x00]);
      assert [0x04, 0x00][..1] == [0x04];
      BigEndianSingle(0x04);
      IntBytesOf([0x04, 0x00]);
    }
  }

  // ---------- Values ----------

  predicate Starts(b: seq<u8>, e: seq<u8>) {
    |e| <= |b| && b[..|e|] == e
  }

  /** The kind, header length and payload of an encoded value, in the stream's terms. */
  ghost function Payload(v: Item): seq<u8> {
    match v
    case Str(b) => b
    case List(items) => EncAll(items)
  }

  predicate IsSingle(v: Item) {
    v.Str? && |v.bytes| == 1 && v.bytes[0] <= 0x7F
  }

  function KindOf(v: Item): Kind {
    if v.List? then ListKind else String
  }

  /** Every value but a single byte below 0x80 is a header and its payload. */
  lemma {:induction false} EncShape(v: Item)
    ensures IsSingle(v) ==> Enc(v) == v.bytes
    ensures !IsSingle(v) ==> Enc(v) == Header(HeadTag(KindOf(v)), HeadLargeTag(KindOf(v)), |Payload(v)|) + Payload(v)
    ensures |Payload(v)| <= |Enc(v)|
  {
  }

  /** What a reader sees at the start of an encoded value. */
  lemma {:induction false} HeadOfEnc(v: Item, rest: seq<u8>)
    requires |Enc(v)| < TWO64
    ensures IsSingle(v) ==> ParseHead(Enc(v) + rest) == Some((Byte, 1, 0))
    ensures !IsSingle(v) ==> var h := |Enc(v)| - |Payload(v)|;
      h >= 1 && ParseHead(Enc(v) + rest) == Some((KindOf(v), h, |Payload(v)|))
      && (Enc(v) + rest)[h..] == Payload(v) + rest
  {
    EncShape(v);
    if !IsSingle(v) {
      hide Enc, Payload, ParseHead, Header;
      var head := Header(HeadTag(KindOf(v)), HeadLargeTag(KindOf(v)), |Payload(v)|);
      WrittenHeader(KindOf(v), |Payload(v)|, Payload(v) + rest);
      assert Enc(v) + rest == head + (Payload(v) + rest);
    }
  }

  lemma {:induction false} EncAllStep(items: seq<Item>, rest: seq<u8>)
    requires items != []
    ensures EncAll(items) + rest == Enc(items[0]) + (EncAll(items[1..]) + rest)
  {
    hide Enc;
    assert EncAll(items) == Enc(items[0]) + EncAll(items[1..]);
  }

  lemma {:induction false} EncAllAppend(items: seq<Item>, v: Item)
    ensures EncAll(items + [v]) == EncAll(items) + Enc(v)
  {
    hide Enc;
    if items == [] {
      assert EncAll([v]) == Enc(v) + EncAll([]);
    } else {
      EncAllAppend(items[1..], v);
      assert (items + [v])[1..] == items[1..] + [v];
      assert EncAll(items + [v]) == Enc(items[0]) + EncAll(items[1..] + [v]);
    }
  }

  lemma {:induction false} EncAllSplit(items: seq<Item>, i: nat)
    requires i < |items|
    ensures EncAll(items[..i + 1]) == EncAll(items[..i]) + Enc(items[i])
    ensures |EncAll(items[..i])| + |Enc(items[i])| <= |EncAll(items)|
  {
    hide Enc;
    assert items[..i + 1] == items[..i] + [items[i]];
    EncAllAppend(items[..i], items[i]);
    EncAllPrefix(items, i + 1);
  }

  lemma {:induction false} EncAllPrefix(items: seq<Item>, i: nat)
    requires i <= |items|
    ensures |EncAll(items[..i])| <= |EncAll(items)|
    decreases i
  {
    hide Enc;
    if i > 0 {
      EncAllPrefix(items[1..], i - 1);
      assert items[..i][1..] == items[1..][..i - 1];
    }
  }

  /** What an input starts with determines the kind and the payload of the value. */
  lemma {:induction false} SamePayload(v: Item, r: seq<u8>, w: Item, s: seq<u8>)
    requires Enc(v) + r == Enc(w) + s && |Enc(v)| < TWO64 && |Enc(w)| < TWO64
    ensures IsSingle(v) == IsSingle(w) && Payload(v) == Payload(w) && r == s
    ensures !IsSingle(v) ==> KindOf(v) == KindOf(w)
  {
    HeadOfEnc(v, r);
    HeadOfEnc(w, s);
    EncShape(v);
    EncShape(w);
    hide Enc, ParseHead, Header, KindOf;
    var b := Enc(v) + r;
    if IsSingle(v) {
      assert [b[0]] == v.bytes == w.bytes;
      assert b[1..] == r && b[1..] == s;
    } else {
      hide Payload;
      Split(Payload(v), r, Payload(w), s);
    }
  }

  lemma {:induction false} Split(x: seq<u8>, r: seq<u8>, y: seq<u8>, s: seq<u8>)
    requires x + r == y + s && |x| == |y|
    ensures x == y && r == s
  {
    assert (x + r)[..|x|] == x && (y + s)[..|y|] == y;
    assert (x + r)[|x|..] == r && (y + s)[|y|..] == s;
  }

  /** Encodings are prefix-free: what an input starts with determines the value. */
  lemma {:induction false} PrefixFree(v: Item, r: seq<u8>, w: Item, s: seq<u8>)
    requires Enc(v) + r == Enc(w) + s && |Enc(v)| < TWO64 && |Enc(w)| < TWO64
    ensures v == w && r == s
    decreases v, 0
  {
    SamePayload(v, r, w, s);
    EncShape(v);
    hide Enc;
    if v.List? {
      SameList(v.items, w.items);
    }
  }

  /** The same bytes are the same list of values. */
  lemma {:induction false} SameList(x: seq<Item>, y: seq<Item>)
    requires EncAll(x) == EncAll(y) && |EncAll(x)| < TWO64
    ensures x == y
    decreases x, 1
  {
    if x != [] && y != [] {
      EncAllStep(x, []);
      EncAllStep(y, []);
      assert EncAll(x) + [] == EncAll(x) && EncAll(y) + [] == EncAll(y);
      assert |Enc(x[0])| <= |EncAll(x)| && |Enc(y[0])| <= |EncAll(y)|;
      PrefixFree(x[0], EncAll(x[1..]) + [], y[0], EncAll(y[1..]) + []);
      assert EncAll(x[1..]) + [] == EncAll(x[1..]) && EncAll(y[1..]) + [] == EncAll(y[1..]);
      SameList(x[1..], y[1..]);
    }
  }
}
