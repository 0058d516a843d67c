/** Taking encoded values apart without decoding them (raw.go, iterator.go). */
module RlpRaw {
  import opened Machine
  import opened Bits
  import opened Bytes
  import opened RlpSpec
  import opened RlpHeaders
  import opened RlpStream
  import opened RlpDecode

  /** readSize: the big-endian number in the first slen bytes, if it had to be written out. */
  function ReadSize(b: seq<u8>, slen: nat): Result<nat>
    requires 1 <= slen <= 8
  {
    if slen > |b| then Err(UnexpectedEOF)
    else
      var s := Shifted(b, slen);
      if s < 56 || b[0] == 0 then Err(CanonSize) else Ok(s)
  }

  function Shifted(b: seq<u8>, slen: nat): nat
    requires 1 <= slen <= 8 && slen <= |b|
  {
    var x: seq<int> := b;
    match slen
    case 1 => x[0]
    case 2 => 0x100 * x[0] + x[1]
    case 3 => 0x1_0000 * x[0] + 0x100 * x[1] + x[2]
    case 4 => 0x100_0000 * x[0] + 0x1_0000 * x[1] + 0x100 * x[2] + x[3]
    case 5 => 0x1_0000_0000 * x[0] + 0x100_0000 * x[1] + 0x1_0000 * x[2] + 0x100 * x[3] + x[4]
    case 6 => 0x100_0000_0000 * x[0] + 0x1_0000_0000 * x[1] + 0x100_0000 * x[2] + 0x1_0000 * x[3] + 0x100 * x[4] + x[5]
    case 7 => 0x1_0000_0000_0000 * x[0] + 0x100_0000_0000 * x[1] + 0x1_0000_0000 * x[2] + 0x100_0000 * x[3]
              + 0x1_0000 * x[4] + 0x100 * x[5] + x[6]
    case 8 => 0x100_0000_0000_0000 * x[0] + 0x1_0000_0000_0000 * x[1] + 0x100_0000_0000 * x[2] + 0x1_0000_0000 * x[3]
              + 0x100_0000 * x[4] + 0x1_0000 * x[5] + 0x100 * x[6] + x[7]
  }

  lemma {:induction false} ShiftedIsBigEndian(b: seq<u8>, slen: nat)
    requires 1 <= slen <= 8 && slen <= |b|
    ensures Shifted(b, slen) == BigEndian(b[..slen])
  {
    if slen == 1 {
      assert b[..1] == [b[0]];
      BigEndianSingle(b[0]);
    } else {
      ShiftedIsBigEndian(b, slen - 1);
      assert b[..slen][..slen - 1] == b[..slen - 1];
    }
  }

  /** readKind: the kind of the first value, the size of its tag and the size of its content. */
  function RawKind(buf: seq<u8>): Result<(Kind, nat, nat)> {
    if buf == [] then Err(UnexpectedEOF)
    else
      var b := buf[0];
      if b < 0x80 then Room(buf, Byte, 0, 1)
      else if b < 0xB8 then
        if b - 0x80 == 1 && |buf| > 1 && buf[1] < 128 then Err(CanonSize) else Room(buf, String, 1, b - 0x80)
      else if b < 0xC0 then Sized(buf, String, b - 0xB7)
      else if b < 0xF8 then Room(buf, ListKind, 1, b - 0xC0)
      else Sized(buf, ListKind, b - 0xF7)
  }

  function Sized(buf: seq<u8>, k: Kind, slen: nat): Result<(Kind, nat, nat)>
    requires buf != [] && 1 <= slen <= 8
  {
    match ReadSize(buf[1..], slen)
    case Err(e) => Err(e)
    case Ok(size) => Room(buf, k, slen + 1, size)
  }

  function Room(buf: seq<u8>, k: Kind, tagsize: nat, size: nat): Result<(Kind, nat, nat)>
  {
    if size > |buf| - tagsize then Err(ValueTooLarge) else Ok((k, tagsize, size))
  }

  /** readKind accepts what the stream accepts, if the value is there and not a misencoded byte. The byte
      that is its own header counts as content here, and as header there. */
  lemma {:induction false} RawKindAgrees(b: seq<u8>)
    ensures RawKind(b).Ok? <==> ParseHead(b).Some? && var (k, h, s) := ParseHead(b).value;
      h + s <= |b| && !(k == String && s == 1 && b[h] < 0x80)
    ensures RawKind(b).Ok? ==> var (k, h, s) := ParseHead(b).value;
      RawKind(b).value == if k == Byte then (Byte, 0, 1) else (k, h, s)
  {
    hide Shifted, BigEndian;
    if b != [] && 0xB8 <= b[0] < 0xC0 {
      SizedAgrees(b, String, b[0] - 0xB7);
    } else if b != [] && 0xF8 <= b[0] {
      SizedAgrees(b, ListKind, b[0] - 0xF7);
    }
  }

  lemma {:induction false} SizedAgrees(b: seq<u8>, k: Kind, n: nat)
    requires b != [] && 1 <= n <= 8 && k != Byte
    ensures Sized(b, k, n).Ok? <==> ParseSize(b, k, n).Some? && ParseSize(b, k, n).value.2 + 1 + n <= |b|
    ensures Sized(b, k, n).Ok? ==> Sized(b, k, n).value == ParseSize(b, k, n).value
    ensures ParseSize(b, k, n).Some? ==> ParseSize(b, k, n).value.2 >= 56
  {
    hide Shifted, BigEndian;
    if n < |b| {
      ShiftedIsBigEndian(b[1..], n);
      assert b[1..][..n] == b[1..1 + n];
    }
  }

  /** Why readKind refuses: too little input for the header, a header or a byte not in its shortest form, or
      too little input for the content. */
  lemma {:induction false} RawRefusals(b: seq<u8>)
    ensures b == [] || HeadLength(b[0]) > |b| ==> RawKind(b) == Err(UnexpectedEOF)
    ensures b != [] && HeadLength(b[0]) <= |b| ==>
      match ParseHead(b)
      case None => RawKind(b) == Err(CanonSize)
      case Some((k, h, s)) =>
        if k == String && s == 1 && |b| > 1 && b[1] < 0x80 then RawKind(b) == Err(CanonSize)
        else if h + s > |b| then RawKind(b) == Err(ValueTooLarge)
        else RawKind(b).Ok?
  {
    hide Shifted, BigEndian;
    if b != [] && HeadLength(b[0]) > 1 {
      SizedRefusals(b, if b[0] < 0xC0 then String else ListKind, HeadLength(b[0]) - 1);
    }
  }

  lemma {:induction false} SizedRefusals(b: seq<u8>, k: Kind, n: nat)
    requires b != [] && 1 <= n <= 8
    ensures n >= |b| ==> Sized(b, k, n) == Err(UnexpectedEOF)
    ensures n < |b| ==>
      match ParseSize(b, k, n)
      case None => Sized(b, k, n) == Err(CanonSize)
      case Some((_, h, s)) => s >= 56 && if h + s > |b| then Sized(b, k, n) == Err(ValueTooLarge) else Sized(b, k, n).Ok?
  {
    hide Shifted, BigEndian;
    if n < |b| {
      ShiftedIsBigEndian(b[1..], n);
      assert b[1..][..n] == b[1..1 + n];
    }
  }

  /** Split: content of the first value, and what follows it. */
  function Split(b: seq<u8>): Result<(Kind, seq<u8>, seq<u8>)> {
    match RawKind(b)
    case Err(e) => Err(e)
    case Ok((k, ts, cs)) => Ok((k, b[ts..ts + cs], b[ts + cs..]))
  }

  function SplitString(b: seq<u8>): Result<(seq<u8>, seq<u8>)> {
    match Split(b)
    case Err(e) => Err(e)
    case Ok((k, content, rest)) => if k == ListKind then Err(ExpectedString) else Ok((content, rest))
  }

  function SplitList(b: seq<u8>): Result<(seq<u8>, seq<u8>)> {
    match Split(b)
    case Err(e) => Err(e)
    case Ok((k, content, rest)) => if k == ListKind then Ok((content, rest)) else Err(ExpectedList)
  }

  function SplitUint64(b: seq<u8>): Result<(nat, seq<u8>)> {
    match SplitString(b)
    case Err(e) => Err(e)
    case Ok((content, rest)) =>
      if |content| == 0 then Ok((0, rest))
      else if |content| == 1 then (if content[0] == 0 then Err(CanonInt) else Ok((content[0] as nat, rest)))
      else if |content| > 8 then Err(UintOverflow)
      else match ReadSize(content, |content|)
        case Err(_) => Err(CanonInt)
        case Ok(x) => Ok((x, rest))
  }

  /** A string is split off exactly if its encoding is ahead. */
  lemma {:induction false} SplitStringExact(b: seq<u8>, content: seq<u8>, rest: seq<u8>)
    requires |b| < TWO64
    ensures SplitString(b) == Ok((content, rest)) <==> b == Enc(Str(content)) + rest
  {
    hide Enc, RawKind, ParseHead;
    RawKindAgrees(b);
    if SplitString(b) == Ok((content, rest)) {
      StringRead(b);
      Pieces(b);
    }
    if b == Enc(Str(content)) + rest {
      assert Starts(b, Enc(Str(content)));
      Found(b, Str(content));
      StringFound(b, Str(content));
      assert b[|Enc(Str(content))|..] == rest;
      Pieces(b);
    }
  }

  /** What Split returns, in terms of the header: the byte that is its own header is content. */
  lemma {:induction false} Pieces(b: seq<u8>)
    requires RawKind(b).Ok?
    ensures b != [] && ParseHead(b).Some? && ParseHead(b).value.1 + ParseHead(b).value.2 <= |b|
    ensures var (k, h, s) := ParseHead(b).value;
      Split(b) == Ok((k, if k == Byte then [b[0]] else b[h..h + s], b[h + s..])) && b == b[..h + s] + b[h + s..]
      && b[h..h + s] == b[h..][..s] && (k == Byte ==> b[..1] == [b[0]] && h + s == 1)
  {
    hide RawKind, ParseHead;
    RawKindAgrees(b);
    HeadSizes(b);
    var (k, h, s) := ParseHead(b).value;
    if k == Byte {
      assert b[0..1] == [b[0]] == b[..1];
    } else {
      SliceOfSlice(b, h, |b|, 0, s);
    }
  }

  /** A list is split off exactly if there is a list header and as much content as it says. */
  lemma {:induction false} SplitListExact(b: seq<u8>, content: seq<u8>, rest: seq<u8>)
    requires |b| < TWO64
    ensures SplitList(b) == Ok((content, rest)) <==> b == Header(0xC0, 0xF7, |content|) + content + rest
  {
    if SplitList(b) == Ok((content, rest)) {
      ListSplitOff(b, content, rest);
    }
    var head := Header(0xC0, 0xF7, |content|);
    if b == head + content + rest {
      hide RawKind, ParseHead, Header, Split;
      assert b == head + (content + rest);
      WrittenHeader(ListKind, |content|, content + rest);
      RawKindAgrees(b);
      Pieces(b);
      assert b[|head|..|head| + |content|] == content && b[|head| + |content|..] == rest;
    }
  }

  lemma {:induction false} ListSplitOff(b: seq<u8>, content: seq<u8>, rest: seq<u8>)
    requires SplitList(b) == Ok((content, rest))
    ensures b == Header(0xC0, 0xF7, |content|) + content + rest
  {
    hide RawKind, ParseHead, Header;
    RawKindAgrees(b);
    ParsedHeader(b);
    Pieces(b);
    hide Split;
    var h := ParseHead(b).value.1;
    assert b == b[..h] + b[h..h + |content|] + b[h + |content|..];
  }

  /** An integer is split off exactly if its encoding is ahead. */
  lemma {:induction false} SplitUint64Exact(b: seq<u8>, x: u64, rest: seq<u8>)
    requires |b| < TWO64
    ensures SplitUint64(b) == Ok((x as nat, rest)) <==> b == Enc(UintItem(x)) + rest
  {
    hide Enc, SplitString, IntBytes;
    if SplitUint64(b).Ok? && SplitUint64(b).value.1 == rest {
      var content := SplitString(b).value.0;
      SplitStringExact(b, content, rest);
      ShortContent(content);
    }
    SplitStringExact(b, IntBytes(x), rest);
    ShortContent(IntBytes(x));
    IntBytesValue(x);
    SizeBytes(x);
  }

  /** A string of at most 8 bytes is the shortest form of a number exactly if it has no leading zero. */
  lemma {:induction false} ShortContent(c: seq<u8>)
    ensures c != [] && c[0] == 0 ==> forall x: nat :: c != IntBytes(x)
    ensures c == [] || c[0] != 0 ==> c == IntBytes(BigEndian(c))
    ensures |c| == 1 ==> BigEndian(c) == c[0]
    ensures c == [] ==> BigEndian(c) == 0
    ensures 2 <= |c| <= 8 ==> (ReadSize(c, |c|) == if c[0] == 0 then Err(CanonSize) else Ok(BigEndian(c)))
  {
    hide IntBytes, Shifted, BigEndian;
    forall x: nat | c != [] && c[0] == 0 ensures c != IntBytes(x) {
      IntBytesValue(x);
      assert x == 0 ==> IntBytes(x) == [] by { IntBytesLength(0, 0); }
    }
    if c == [] || c[0] != 0 {
      IntBytesOf(c);
    }
    BigEndianNone();
    if |c| == 1 {
      BigEndianSingle(c[0]);
      assert c == [c[0]];
    } else if 2 <= |c| <= 8 {
      ShiftedIsBigEndian(c, |c|);
      assert c[..|c|] == c;
      if c[0] != 0 {
        MinimalUint(BigEndian(c));
        IntBytesLength(BigEndian(c), 1);
        Pow2Small();
      }
    }
  }

  // ---------- Counting, iterating ----------

  /** The bytes of one value, as far as its header tells. */
  predicate Whole(c: seq<u8>) {
    RawKind(c).Ok? && RawKind(c).value.1 + RawKind(c).value.2 == |c|
  }

  /** A header depends on its own bytes only. */
  lemma {:induction false} SameHead(b: seq<u8>, c: seq<u8>)
    requires ParseHead(c).Some? && ParseHead(c).value.1 <= |b| && b[..ParseHead(c).value.1] == c[..ParseHead(c).value.1]
    ensures ParseHead(b) == ParseHead(c)
  {
    hide BigEndian;
    var h := ParseHead(c).value.1;
    assert b[0] == b[..h][0] == c[0];
    if h > 1 {
      assert b[1] == b[..h][1] == c[1];
      assert b[1..h] == b[..h][1..] == c[1..h];
    }
  }

  /** And a value on its own bytes. */
  lemma {:induction false} SameValue(b: seq<u8>, c: seq<u8>, n: nat)
    requires RawKind(c).Ok? && n == RawKind(c).value.1 + RawKind(c).value.2 && n <= |b| && b[..n] == c[..n]
    ensures RawKind(b) == RawKind(c) && n >= 1
  {
    hide RawKind, ParseHead;
    RawKindAgrees(c);
    Pieces(c);
    RawKindAgrees(b);
    var (k, h, s) := ParseHead(c).value;
    assert b[..h] == b[..n][..h] && c[..h] == c[..n][..h];
    SameHead(b, c);
    HeadSizes(c);
    if k == String && s == 1 {
      assert b[h] == b[..n][h] && c[h] == c[..n][h];
    }
  }

  /** The first value of b, header included, is a value by itself. */
  lemma {:induction false} WholeFirst(b: seq<u8>)
    requires RawKind(b).Ok?
    ensures var n := RawKind(b).value.1 + RawKind(b).value.2;
      1 <= n <= |b| && Whole(b[..n])
  {
    hide RawKind;
    var n := RawKind(b).value.1 + RawKind(b).value.2;
    assert n <= |b| by { RawKindAgrees(b); Pieces(b); }
    assert b[..n][..n] == b[..n];
    SameValue(b[..n], b, n);
  }

  ghost function Flat(cs: seq<seq<u8>>): seq<u8> {
    if cs == [] then [] else cs[0] + Flat(cs[1..])
  }

  ghost predicate AllWhole(cs: seq<seq<u8>>) {
    forall i :: 0 <= i < |cs| ==> Whole(cs[i])
  }

  /** CountValues. It gives n exactly for the concatenations of n values. */
  method CountValues(b: seq<u8>) returns (r: Result<nat>)
    ensures forall cs :: AllWhole(cs) && Flat(cs) == b ==> r == Ok(|cs|)
    ensures r.Ok? ==> exists cs :: AllWhole(cs) && Flat(cs) == b && |cs| == r.value
    ensures r.Err? ==> exists cs :: AllWhole(cs) && Starts(b, Flat(cs)) && RawKind(b[|Flat(cs)|..]) == Err(r.error)
  {
    hide RawKind, Whole;
    var i, rest := 0, b;
    ghost var done: seq<seq<u8>> := [];
    while |rest| > 0
      invariant AllWhole(done) && |done| == i && b == Flat(done) + rest
      decreases |rest|
    {
      match RawKind(rest) {
        case Err(e) =>
          forall cs | AllWhole(cs) && Flat(cs) == b ensures false {
            NextWhole(cs, done, rest);
          }
          return Err(e);
        case Ok((_, t, c)) =>
          WholeFirst(rest);
          FlatAppend(done, rest[..t + c]);
          assert rest == rest[..t + c] + rest[t + c..];
          done := done + [rest[..t + c]];
          rest := rest[t + c..];
      }
      i := i + 1;
    }
    assert Flat(done) == b;
    forall cs | AllWhole(cs) && Flat(cs) == b ensures |cs| == i {
      SameWhole(cs, done);
    }
    return Ok(i);
  }

  lemma {:induction false} FlatAppend(cs: seq<seq<u8>>, c: seq<u8>)
    ensures Flat(cs + [c]) == Flat(cs) + c
  {
    if cs == [] {
      assert Flat([c]) == c + Flat([]);
    } else {
      FlatAppend(cs[1..], c);
      assert (cs + [c])[1..] == cs[1..] + [c];
    }
  }

  /** After the values that a byte string starts with, the next one. */
  lemma {:induction false} NextWhole(cs: seq<seq<u8>>, done: seq<seq<u8>>, rest: seq<u8>)
    requires AllWhole(cs) && AllWhole(done) && Flat(cs) == Flat(done) + rest && rest != []
    ensures RawKind(rest).Ok?
  {
    hide RawKind, Whole;
    assert cs == [] ==> Flat(cs) == [];
    if done == [] {
      assert rest == cs[0] + Flat(cs[1..]);
      Alone(cs[0], rest);
    } else {
      SameFirst(cs[0], Flat(cs[1..]), done[0], Flat(done[1..]) + rest, Flat(cs));
      NextWhole(cs[1..], done[1..], rest);
    }
  }

  lemma {:induction false} Alone(c: seq<u8>, b: seq<u8>)
    requires Whole(c) && |c| <= |b| && b[..|c|] == c
    ensures RawKind(b) == RawKind(c) && RawKind(b).Ok? && |c| >= 1
  {
    hide RawKind;
    assert c[..|c|] == c;
    SameValue(b, c, |c|);
  }

  lemma {:induction false} SameFirst(c: seq<u8>, x: seq<u8>, d: seq<u8>, y: seq<u8>, b: seq<u8>)
    requires Whole(c) && Whole(d) && c + x == b == d + y
    ensures c == d && x == y
  {
    hide RawKind;
    assert b[..|c|] == c && b[..|d|] == d && b[|c|..] == x && b[|d|..] == y;
    Alone(c, b);
    Alone(d, b);
  }

  /** A byte string is the concatenation of values in one way at most. */
  lemma {:induction false} SameWhole(cs: seq<seq<u8>>, ds: seq<seq<u8>>)
    requires AllWhole(cs) && AllWhole(ds) && Flat(cs) == Flat(ds)
    ensures cs == ds
  {
    hide RawKind, Whole;
    if cs != [] && ds != [] {
      SameFirst(cs[0], Flat(cs[1..]), ds[0], Flat(ds[1..]), Flat(cs));
      SameWhole(cs[1..], ds[1..]);
    } else if cs != [] {
      Alone(cs[0], cs[0]);
    } else if ds != [] {
      Alone(ds[0], ds[0]);
    }
  }

  /** Encoded values are values. */
  lemma {:induction false} EncWhole(v: Item)
    requires |Enc(v)| < TWO64
    ensures Whole(Enc(v))
  {
    hide Enc, RawKind, ParseHead;
    assert Starts(Enc(v), Enc(v));
    Found(Enc(v), v);
    if v.Str? {
      StringFound(Enc(v), v);
    }
    RawKindAgrees(Enc(v));
    HeadSizes(Enc(v));
  }

  lemma {:induction false} FlatEnc(items: seq<Item>)
    ensures Flat(Each(items)) == EncAll(items)
  {
    hide Enc;
    if items != [] {
      FlatEnc(items[1..]);
      assert Each(items)[1..] == Each(items[1..]);
    }
  }

  ghost function Each(items: seq<Item>): seq<seq<u8>> {
    seq(|items|, i requires 0 <= i < |items| => Enc(items[i]))
  }

  /** NewListIterator and Next: a walk over the values in a list. */
  class ListIterator {
    var data: seq<u8>
    var next: seq<u8>
    var err: Option<Error>

    constructor (data: seq<u8>)
      ensures this.data == data && next == [] && err == None
    {
      this.data, next, err := data, [], None;
    }

    method Next() returns (more: bool)
      modifies this
      ensures more == (old(data) != [])
      ensures !more ==> unchanged(this)
      ensures more ==> next + data == old(data) && (err == None <==> RawKind(old(data)).Ok?)
      ensures more && err == None ==> Whole(next)
      ensures more && err.Some? ==> next == [] && RawKind(old(data)) == Err(err.value)
    {
      hide RawKind, Whole;
      if |data| == 0 {
        return false;
      }
      match RawKind(data) {
        case Err(e) =>
          next, err := data[..0], Some(e);
        case Ok((_, t, c)) =>
          WholeFirst(data);
          next, data, err := data[..t + c], data[t + c..], None;
      }
      return true;
    }
  }

  method NewListIterator(b: seq<u8>) returns (r: Result<ListIterator>)
    ensures r.Ok? <==> RawKind(b).Ok? && RawKind(b).value.0 == ListKind
    ensures r.Ok? ==> var (_, t, c) := RawKind(b).value;
      t + c <= |b| && fresh(r.value) && r.value.data == b[t..t + c]
    ensures r.Err? ==> r.error == if RawKind(b).Err? then RawKind(b).error else ExpectedList
  {
    hide RawKind;
    match RawKind(b) {
      case Err(e) =>
        return Err(e);
      case Ok((k, t, c)) =>
        if k != ListKind {
          return Err(ExpectedList);
        }
        RawKindAgrees(b);
        var it := new ListIterator(b[t..t + c]);
        return Ok(it);
    }
  }

  /** On the encoding of a list, the iterator gives the encodings of its values, in order. */
  method IterateList(items: seq<Item>, rest: seq<u8>) returns (values: seq<seq<u8>>)
    requires |Enc(List(items)) + rest| < TWO64
    ensures |values| == |items| && forall i :: 0 <= i < |items| ==> values[i] == Enc(items[i])
  {
    hide Enc, EncAll, RawKind, Whole;
    values := [];
    EncOfList(items);
    SplitListExact(Enc(List(items)) + rest, EncAll(items), rest);
    var r := NewListIterator(Enc(List(items)) + rest);
    var it := r.value;
    ghost var i := 0;
    assert items[0..] == items;
    var more := true;
    while more
      invariant i <= |items| && |values| == i && forall j :: 0 <= j < i ==> values[j] == Enc(items[j])
      invariant it.data == EncAll(items[i..]) && fresh(it) && |it.data| < TWO64
      invariant !more ==> i == |items|
      decreases |items| - i, more
    {
      ghost var data := it.data;
      ListStep(items, i);
      more := it.Next();
      if more {
        Alone(Enc(items[i]), data);
        SameFirst(it.next, it.data, Enc(items[i]), EncAll(items[i + 1..]), data);
        values := values + [it.next];
        i := i + 1;
      }
    }
  }

  lemma {:induction false} ListStep(items: seq<Item>, i: nat)
    requires i <= |items| && |EncAll(items[i..])| < TWO64
    ensures EncAll(items[i..]) == [] <==> i == |items|
    ensures i < |items| ==> EncAll(items[i..]) == Enc(items[i]) + EncAll(items[i + 1..]) && Whole(Enc(items[i]))
  {
    hide Enc, RawKind, Whole;
    if i < |items| {
      EncAllStep(items[i..], []);
      assert items[i..][1..] == items[i + 1..];
      assert EncAll(items[i..]) == Enc(items[i]) + EncAll(items[i + 1..]);
      EncWhole(items[i]);
    }
  }

  // ---------- Sizes, and appending an integer ----------

  /** BytesSize and StringSize. */
  method BytesSize(b: seq<u8>) returns (n: nat)
    requires |b| < TWO64
    ensures n == |Enc(Str(b))|
  {
    if |b| == 0 {
      return 1;
    } else if |b| == 1 {
      return if b[0] <= 0x7F then 1 else 2;
    }
    n := HeadSize(|b|);
    assert n == |Header(0x80, 0xB7, |b|)|;
    n := n + |b|;
  }

  /** ListSize, a sum of uint64. */
  method ListSize(contentSize: u64) returns (n: u64)
    ensures n == (|Header(0xC0, 0xF7, contentSize)| + contentSize) % TWO64
  {
    var h := HeadSize(contentSize);
    assert h == |Header(0xC0, 0xF7, contentSize)|;
    n := (h + contentSize) % 0x1_0000_0000_0000_0000;
  }

  /** IntSize of raw.go, the size of an encoded integer. */
  method EncodedIntSize(x: u64) returns (n: nat)
    ensures n == |Enc(UintItem(x))|
  {
    UintEncoding(x);
    hide Enc;
    if x < 0x80 {
      return 1;
    }
    n := RlpHeaders.IntSize(x);
    n := 1 + n;
  }

  lemma {:induction false} UintEncoding(x: u64)
    ensures x == 0 ==> Enc(UintItem(x)) == [0x80]
    ensures 0 < x < 0x80 ==> Enc(UintItem(x)) == [x]
    ensures x >= 0x80 ==> Enc(UintItem(x)) == [0x80 + |IntBytes(x)|] + IntBytes(x)
  {
    hide Pow2, IntBytes;
    IntBytesValue(x);
    SizeBytes(x);
    MinimalUint(x);
    IntBytesLength(x, 0);
    IntBytesLength(x, 1);
    Pow2Small();
  }

  /** AppendUint64. */
  function AppendUint64(b: seq<u8>, i: u64): seq<u8> {
    if i == 0 then b + [0x80]
    else if i < 128 then b + [i]
    else if i < 0x100 then b + [0x81, Octet(i, 1)]
    else if i < 0x1_0000 then b + [0x82, Octet(i, 0x100), Octet(i, 1)]
    else if i < 0x100_0000 then b + [0x83, Octet(i, 0x1_0000), Octet(i, 0x100), Octet(i, 1)]
    else if i < 0x1_0000_0000 then b + [0x84, Octet(i, 0x100_0000), Octet(i, 0x1_0000), Octet(i, 0x100), Octet(i, 1)]
    else if i < 0x100_0000_0000 then
      b + [0x85, Octet(i, 0x1_0000_0000), Octet(i, 0x100_0000), Octet(i, 0x1_0000), Octet(i, 0x100), Octet(i, 1)]
    else if i < 0x1_0000_0000_0000 then
      b + [0x86, Octet(i, 0x100_0000_0000), Octet(i, 0x1_0000_0000), Octet(i, 0x100_0000), Octet(i, 0x1_0000),
           Octet(i, 0x100), Octet(i, 1)]
    else if i < 0x100_0000_0000_0000 then
      b + [0x87, Octet(i, 0x1_0000_0000_0000), Octet(i, 0x100_0000_0000), Octet(i, 0x1_0000_0000), Octet(i, 0x100_0000),
           Octet(i, 0x1_0000), Octet(i, 0x100), Octet(i, 1)]
    else
      b + [0x88, Octet(i, 0x100_0000_0000_0000), Octet(i, 0x1_0000_0000_0000), Octet(i, 0x100_0000_0000),
           Octet(i, 0x1_0000_0000), Octet(i, 0x100_0000), Octet(i, 0x1_0000), Octet(i, 0x100), Octet(i, 1)]
  }

  /** What is appended is the encoding of the integer. */
  lemma {:induction false} AppendUint64Encodes(b: seq<u8>, i: u64)
    ensures AppendUint64(b, i) == b + Enc(UintItem(i))
  {
    hide Enc, IntBytes, Octet, SplitUint64, Pow2, Octets, AppendUint64;
    UintEncoding(i);
    Pow2Bytes();
    AppendSmall(b, i);
    var k := if i < 0x100 then 1 else if i < 0x1_0000 then 2 else if i < 0x100_0000 then 3 else if i < 0x1_0000_0000 then 4
      else if i < 0x100_0000_0000 then 5 else if i < 0x1_0000_0000_0000 then 6 else if i < 0x100_0000_0000_0000 then 7 else 8;
    ShortestOctets(i, k);
    AppendOctets(b, i, k);
  }

  lemma {:induction false} AppendSmall(b: seq<u8>, i: u64)
    ensures i == 0 ==> AppendUint64(b, i) == b + [0x80]
    ensures 0 < i < 0x80 ==> AppendUint64(b, i) == b + [i]
  {
  }

  lemma {:induction false} AppendOctets(b: seq<u8>, i: u64, k: nat)
    requires k == if i < 0x100 then 1 else if i < 0x1_0000 then 2 else if i < 0x100_0000 then 3 else if i < 0x1_0000_0000 then 4
      else if i < 0x100_0000_0000 then 5 else if i < 0x1_0000_0000_0000 then 6 else if i < 0x100_0000_0000_0000 then 7 else 8
    ensures i >= 0x80 ==> AppendUint64(b, i) == b + ([0x80 + k] + Octets(i)[8 - k..])
  {
    hide Octet;
  }

  /** So SplitUint64 takes it off again, whatever follows. */
  lemma {:induction false} AppendThenSplit(i: u64, rest: seq<u8>)
    requires |AppendUint64([], i) + rest| < TWO64
    ensures SplitUint64(AppendUint64([], i) + rest) == Ok((i as nat, rest))
  {
    AppendUint64Encodes([], i);
    hide Enc, SplitUint64, AppendUint64;
    assert [] + Enc(UintItem(i)) == Enc(UintItem(i));
    SplitUint64Exact(AppendUint64([], i) + rest, i, rest);
  }
}
