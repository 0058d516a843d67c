/** Decoding into an untyped tree (decode.go: decodeInterface, decodeListSlice, decodeSliceElems and
    DecodeBytes). */
module RlpDecode {
  import opened Machine
  import opened Bits
  import opened Bytes
  import opened RlpSpec
  import opened RlpStream

  /** The encoding of v is ahead, within the list and the input limit. */
  ghost predicate Ahead(input: seq<u8>, stack: seq<u64>, limited: bool, remaining: u64, v: Item) {
    Starts(input, Enc(v)) && Fits(stack, limited, remaining, |Enc(v)|)
  }

  /** What a stream has in front of it: the bytes from the start of the next value, those of them that are
      still in the input, the header if it passes the checks, and the limits. */
  datatype Front = Front(whole: seq<u8>, input: seq<u8>, head: Option<(Kind, nat, nat)>,
                         stack: seq<u64>, limited: bool, remaining: u64)

  ghost function FrontOf(s: Stream): Front
    reads s
  {
    Front(s.Whole(), s.input, s.Head(), s.stack, s.limited, s.remaining)
  }

  /** Before the header has been read. */
  ghost function FrontAt(input: seq<u8>, stack: seq<u64>, limited: bool, remaining: u64): Front {
    Front(input, input, if HeadFits(input, stack, limited, remaining) then ParseHead(input) else None, stack, limited, remaining)
  }

  /** The bytes of the header that have been read. */
  ghost function Behind(f: Front): int {
    |f.whole| - |f.input|
  }

  /** The header is the one that the bytes start with. */
  ghost predicate Right(f: Front) {
    && |f.input| <= |f.whole| < TWO64 && f.whole[Behind(f)..] == f.input
    && (f.head.Some? ==> var (k, h, n) := f.head.value;
        ParseHead(f.whole) == Some((k, Behind(f) + h, n)) && Behind(f) + h <= |f.whole|)
  }

  lemma {:induction false} FrontRight(s: Stream)
    requires s.HeadRight() && |s.Whole()| < TWO64
    ensures Right(FrontOf(s))
    ensures s.kind == None ==> FrontOf(s) == FrontAt(s.input, s.stack, s.limited, s.remaining) && Behind(FrontOf(s)) == 0
    ensures s.Head().Some? && s.Head().value.0 == Byte ==> s.Whole() != [] && s.Whole()[0] == s.Single()
  {
    hide Header, Right, ParseHead, HeadBytes, HeadFits;
    if s.kind == None {
      RightAt(s.input, s.stack, s.limited, s.remaining);
    } else if s.kinderr.Some? {
      RightNone(FrontOf(s));
    } else {
      RightBack(s.kind.value, s.byteval, s.size, s.input, FrontOf(s));
    }
  }

  lemma {:induction false} RightNone(f: Front)
    requires f.head == None && f.whole == f.input && |f.whole| < TWO64
    ensures Right(f)
  {
  }

  lemma {:induction false} RightAt(input: seq<u8>, stack: seq<u64>, limited: bool, remaining: u64)
    requires |input| < TWO64
    ensures Right(FrontAt(input, stack, limited, remaining)) && (FrontAt(input, stack, limited, remaining).head.Some? ==> input != [])
  {
    if HeadFits(input, stack, limited, remaining) {
      HeadSizes(input);
    }
    hide ParseHead;
  }

  lemma {:induction false} RightBack(k: Kind, byteval: u8, size: u64, input: seq<u8>, f: Front)
    requires (k == Byte ==> byteval < 0x80) && f.input == input && f.whole == HeadBytes(k, byteval, size) + input && |f.whole| < TWO64
    requires f.head == Some((k, 0, if k == Byte then 0 else size as nat))
    ensures Right(f) && (k == Byte ==> f.whole != [] && f.whole[0] == byteval)
  {
    HeadBack(k, byteval, size, input);
    hide ParseHead, HeadBytes;
  }

  /** The stream has read exactly e, which was in front of it, and has no header waiting. */
  ghost predicate TakenFrom(s: Stream, f: Front, e: seq<u8>)
    reads s
  {
    && s.kind == None && Starts(f.whole, e) && |e| >= Behind(f) >= 0
    && s.Consumed(f.input, f.stack, f.remaining, |e| - Behind(f))
  }

  /** The encoding of v is in front and passes the decoder's checks. The contents of a list are compared with
      what the list around it had left before the header, so they may reach past its end. */
  ghost predicate Admitted(f: Front, v: Item) {
    && Starts(f.whole, Enc(v)) && f.head.Some?
    && var (_, h, n) := f.head.value;
      && (f.limited ==> h + n <= f.remaining)
      && (v.Str? ==> Fits(f.stack, f.limited, f.remaining, h + n))
  }

  ghost predicate Decodable(f: Front) {
    exists v :: Admitted(f, v)
  }

  /** The next size bytes are the encodings of some values, and they can be read. */
  ghost predicate Fillable(input: seq<u8>, size: nat, limited: bool, remaining: u64) {
    size <= |input| && (limited ==> size <= remaining) && exists items :: EncAll(items) == input[..size]
  }

  // ---------- What a header tells about the value ----------

  /** The contents of a string, once they have passed the checks, are those of the string that is encoded
      there. */
  lemma {:induction false} StringRead(b: seq<u8>)
    requires ParseHead(b).Some? && var (k, h, s) := ParseHead(b).value;
      k != ListKind && h + s <= |b| && !(k == String && s == 1 && b[h] < 0x80)
    ensures var (k, h, s) := ParseHead(b).value;
      Enc(Str(if k == Byte then [b[0]] else b[h..h + s])) == b[..h + s]
  {
    hide Header;
    var (k, h, s) := ParseHead(b).value;
    if k == String {
      ParsedHeader(b);
      hide ParseHead;
      assert b[..h + s] == b[..h] + b[h..h + s];
    }
  }

  lemma {:induction false} ListRead(b: seq<u8>, items: seq<Item>)
    requires ParseHead(b).Some? && var (k, h, s) := ParseHead(b).value;
      k == ListKind && h + s <= |b| && EncAll(items) == b[h..][..s]
    ensures var (k, h, s) := ParseHead(b).value; Enc(List(items)) == b[..h + s]
  {
    hide Header, EncAll;
    var (k, h, s) := ParseHead(b).value;
    ParsedHeader(b);
    hide ParseHead;
    assert b[..h + s] == b[..h] + b[h..][..s];
  }

  lemma {:induction false} HeadSizes(b: seq<u8>)
    requires ParseHead(b).Some?
    ensures var (k, h, s) := ParseHead(b).value; 1 <= h <= |b| && (k == Byte ==> h == 1 && s == 0)
  {
    hide BigEndian;
  }

  /** What the header ahead is when the input starts with an encoded value. */
  lemma {:induction false} Found(b: seq<u8>, v: Item)
    requires Starts(b, Enc(v)) && |b| < TWO64
    ensures ParseHead(b).Some?
    ensures var (k, h, s) := ParseHead(b).value;
      h >= 1 && h + s == |Enc(v)| && k == (if IsSingle(v) then Byte else KindOf(v))
      && (k != Byte ==> b[h..][..s] == Payload(v)) && (k == Byte ==> b[..1] == Payload(v))
  {
    hide Enc, ParseHead, Header;
    var rest := b[|Enc(v)|..];
    assert b == Enc(v) + rest;
    HeadOfEnc(v, rest);
    EncShape(v);
    if !IsSingle(v) {
      var h := |Enc(v)| - |Payload(v)|;
      hide Payload;
      assert (Payload(v) + rest)[..|Payload(v)|] == Payload(v);
    }
  }

  /** Before the header has been read, what is admitted is what is ahead within the limits, and the lists
      that reach past the end of the list around them. */
  lemma {:induction false} AheadAdmitted(input: seq<u8>, stack: seq<u64>, limited: bool, remaining: u64, v: Item)
    requires |input| < TWO64
    ensures Ahead(input, stack, limited, remaining, v) <==>
      Admitted(FrontAt(input, stack, limited, remaining), v) && (stack != [] ==> |Enc(v)| <= Top(stack))
  {
    if Starts(input, Enc(v)) {
      Found(input, v);
    }
    hide Enc, ParseHead;
  }

  /** Before the header has been read, from the lengths alone: all of the value lies within the input limit. A
      string lies within the list around it; of a list, the header does, and the contents taken by themselves. */
  lemma {:induction false} AdmittedMeaning(input: seq<u8>, stack: seq<u64>, limited: bool, remaining: u64, v: Item)
    requires |input| < TWO64
    ensures Admitted(FrontAt(input, stack, limited, remaining), v) <==>
      && Starts(input, Enc(v)) && (limited ==> |Enc(v)| <= remaining)
      && (stack != [] ==>
        var left := stack[|stack| - 1];
        match v
        case Str(_) => |Enc(v)| <= left
        case List(items) => var s := |EncAll(items)|; s <= left && |Enc(v)| - s <= left)
  {
    if Starts(input, Enc(v)) {
      Found(input, v);
    }
    hide Enc, EncAll, ParseHead;
  }

  /** The contents of an encoded string pass the checks. */
  lemma {:induction false} StringFound(input: seq<u8>, v: Item)
    requires Starts(input, Enc(v)) && |input| < TWO64 && v.Str?
    ensures ParseHead(input).Some?
    ensures var (k, h, s) := ParseHead(input).value;
      k != ListKind && h + s <= |input| && !(k == String && s == 1 && input[h..][0] < 0x80)
  {
    Found(input, v);
    hide Enc, ParseHead;
  }

  /** If a value is admitted, every check on the way to reading it will pass. */
  lemma {:induction false} AdmittedChecks(f: Front, v: Item)
    requires Admitted(f, v) && Right(f)
    ensures Starts(f.whole, Enc(v)) && f.head.Some?
    ensures var (k, h, n) := f.head.value;
      && |Enc(v)| == Behind(f) + h + n && h + n <= |f.input| && (f.limited ==> h + n <= f.remaining)
      && (v.List? ==> k == ListKind && EncAll(v.items) == f.input[h..][..n])
      && (v.Str? ==> k != ListKind && Fits(f.stack, f.limited, f.remaining, h + n)
                     && !(k == String && n == 1 && f.input[h..][0] < 0x80))
  {
    Found(f.whole, v);
    hide ParseHead;
    var (k, h, n) := f.head.value;
    if v.Str? {
      StringFound(f.whole, v);
    }
    hide Enc;
    assert f.whole[Behind(f) + h..] == f.input[h..];
  }

  lemma {:induction false} AdmittedStarts(f: Front, v: Item)
    requires Admitted(f, v)
    ensures Starts(f.whole, Enc(v)) && f.head.Some?
  {
    hide Enc;
  }

  /** At most one value is admitted, so finding it decides. */
  lemma {:induction false} OneAdmitted(f: Front, r: Result<Item>)
    requires |f.whole| < TWO64 && (r.Ok? ==> Admitted(f, r.value)) && (Decodable(f) ==> r.Ok?)
    ensures forall v :: Admitted(f, v) ==> r == Ok(v)
  {
    hide Admitted;
    forall v | Admitted(f, v) ensures r == Ok(v) {
      AdmittedStarts(f, v);
      AdmittedStarts(f, r.value);
      SameValue(f.whole, v, r.value);
    }
  }

  /** A string that was read was admitted. */
  lemma {:induction false} StringAdmitted(f: Front, b: seq<u8>)
    requires Starts(f.whole, Enc(Str(b))) && f.head.Some?
    requires var (_, h, n) := f.head.value; Fits(f.stack, f.limited, f.remaining, h + n)
    ensures Admitted(f, Str(b))
  {
    hide Enc;
  }

  lemma {:induction false} ListAdmitted(f: Front, items: seq<Item>)
    requires Starts(f.whole, Enc(List(items))) && f.head.Some?
    requires var (_, h, n) := f.head.value; f.limited ==> h + n <= f.remaining
    ensures Admitted(f, List(items))
  {
    hide Enc;
  }

  /** Decodes one value. It succeeds exactly if an encoded value is admitted, and consumes exactly that. */
  method DecodeInterface(s: Stream) returns (r: Result<Item>)
    requires s.HeadRight() && |s.Whole()| < TWO64
    modifies s
    ensures s.limited == old(s.limited)
    ensures r.Ok? ==> TakenFrom(s, old(FrontOf(s)), Enc(r.value)) && Admitted(old(FrontOf(s)), r.value)
    ensures forall v :: Admitted(old(FrontOf(s)), v) ==> r == Ok(v)
    ensures old(s.kind) == None && old(s.Head()) == None ==>
      r.Err? && old(KindError(s.input, s.stack, s.limited, s.remaining)) == Some(r.error)
    ensures old(s.kind).Some? && old(s.kinderr).Some? ==> r == Err(old(s.kinderr.value))
    ensures old(s.Head()).Some? ==> r.Ok? || Inner(r.error)
    ensures old(s.kind) == None ==> (r == Err(EOL) <==> old(AtEnd(s.stack))) && (r == Err(EOL) ==> unchanged(s))
    ensures old(s.kind) == None ==> (r == Err(EOF) <==> old(NothingLeft(s.input, s.stack, s.limited, s.remaining)))
    ensures old(s.kind) == None ==> r != Err(MoreThanOneValue)
    decreases if s.kind == None then |s.input| else |s.input| + 1, 0
  {
    hide Enc, Admitted, TakenFrom, Decodable, KindError, NothingLeft, AfterHead;
    ghost var f := FrontOf(s);
    assert |f.whole| < TWO64;
    var k, n, err := HeadInFront(s, f);
    if err.Some? {
      NotDecodable(f);
      r := Err(err.value);
    } else {
      r := AnyValue(s, f, k);
    }
    hide FrontOf;
    OneAdmitted(f, r);
  }

  /** Kind, seen from the start of the value. */
  method HeadInFront(s: Stream, ghost f: Front) returns (k: Kind, n: u64, err: Option<Error>)
    requires s.HeadRight() && |s.Whole()| < TWO64 && f == FrontOf(s)
    modifies s
    ensures s.limited == old(s.limited)
    ensures err == None <==> f.head.Some?
    ensures err == None ==> AfterHead(s, f) && s.kind == Some(k) && |s.input| <= |f.input|
    ensures err == None && old(s.kind) == None ==> |s.input| < |f.input|
    ensures err.Some? ==> err == if old(s.kind) == None then old(KindError(s.input, s.stack, s.limited, s.remaining)) else old(s.kinderr)
    ensures old(s.kind) == None ==> (err == Some(EOL) <==> old(AtEnd(s.stack))) && (err == Some(EOL) ==> unchanged(s))
    ensures old(s.kind) == None ==> (err == Some(EOF) <==> old(NothingLeft(s.input, s.stack, s.limited, s.remaining)))
    ensures old(s.kind) == None ==> err != Some(MoreThanOneValue)
  {
    hide Charge, Enc, EncAll, ParseHead, Stream.LimitsAgree, Stream.Readable, KindError, HeadFits, Fits, AtEnd, NothingLeft, HeadBytes;
    FrontRight(s);
    assert f.head == s.Head() && f.input == s.input && f.stack == s.stack && f.remaining == s.remaining && f.limited == s.limited;
    assert s.kind.Some? ==> (f.head == None <==> s.kinderr.Some?);
    hide Right, AfterHead, FrontOf, Stream.Head, Stream.Whole, Stream.HeadRight, Stream.Single, Moved, Behind;
    k, n, err := s.Kind();
    if err == None {
      HeadHasBeenRead(s, f, k);
    }
  }

  lemma {:induction false} HeadHasBeenRead(s: Stream, f: Front, k: Kind)
    requires Right(f) && f.head.Some? && s.kind == Some(k) && s.limited == f.limited
    requires var (k', h, n) := f.head.value;
      && k' == k && s.Head() == Some((k, 0, n)) && s.Consumed(f.input, f.stack, f.remaining, h)
      && (f.stack != [] ==> h <= Top(f.stack))
    requires k == Byte ==> f.whole != [] && s.byteval == f.whole[0]
    ensures AfterHead(s, f) && |s.input| == |f.input| - f.head.value.1
  {
    hide Right, Stream.Head, Charge;
  }

  lemma {:induction false} NotDecodable(f: Front)
    requires f.head == None
    ensures !Decodable(f)
  {
  }

  /** The header of the value in front has been read and nothing more. */
  ghost predicate AfterHead(s: Stream, f: Front)
    reads s
  {
    && Right(f) && f.head.Some? && s.kind.Some? && s.limited == f.limited
    && var (k, h, n) := f.head.value;
      && s.Head() == Some((k, 0, n)) && s.Consumed(f.input, f.stack, f.remaining, h)
      && (k == Byte ==> f.whole != [] && s.byteval == f.whole[0])
      && (f.stack != [] ==> h <= Top(f.stack))
  }

  /** decodeInterface, after the header. */
  method AnyValue(s: Stream, ghost f: Front, k: Kind) returns (r: Result<Item>)
    requires AfterHead(s, f) && s.kind == Some(k)
    modifies s
    ensures s.limited == old(s.limited)
    ensures r.Ok? ==> TakenFrom(s, f, Enc(r.value)) && Admitted(f, r.value)
    ensures Decodable(f) ==> r.Ok?
    ensures r.Ok? || Inner(r.error)
    decreases |s.input|, 5
  {
    hide Enc, Admitted, TakenFrom, Decodable;
    if k == ListKind {
      r := ListValue(s, f);
    } else {
      r := StringValue(s, f);
    }
  }

  /** decodeInterface, for a list. */
  method ListValue(s: Stream, ghost f: Front) returns (r: Result<Item>)
    requires AfterHead(s, f) && s.kind == Some(ListKind)
    modifies s
    ensures s.limited == old(s.limited)
    ensures r.Ok? ==> TakenFrom(s, f, Enc(r.value)) && Admitted(f, r.value)
    ensures Decodable(f) ==> r.Ok?
    ensures r.Ok? || Inner(r.error)
    decreases |s.input|, 4
  {
    hide Charge, Enc, EncAll, ParseHead, Fillable, Fits, HeadFits, Decodable, Admitted;
    ghost var (_, h, size) := f.head.value;
    ghost var input1, stack1, remaining1 := s.input, s.stack, s.remaining;
    if Decodable(f) {
      ListChecks(f);
    }
    MovedBy(s.limited, f.input, f.stack, f.remaining, h, input1, stack1, remaining1);
    assert s.size == size && |s.input| < TWO64 && Behind(f) >= 0;
    hide Moved, Right;
    var items := DecodeListSlice(s);
    if items.Err? {
      return Err(items.error);
    }
    MovedTwice(s.limited, f.input, f.stack, f.remaining, h, input1, stack1, remaining1, size, s.input, s.stack, s.remaining);
    MovedBy(s.limited, f.input, f.stack, f.remaining, h + size, s.input, s.stack, s.remaining);
    ListBack(f, items.value);
    assert s.Consumed(f.input, f.stack, f.remaining, h + size) && |Enc(List(items.value))| - Behind(f) == h + size;
    return Ok(List(items.value));
  }

  /** The list in front can be read, once its header has been. */
  lemma {:induction false} ListChecks(f: Front)
    requires Decodable(f) && Right(f) && f.head.Some? && f.head.value.0 == ListKind
    ensures var (_, h, n) := f.head.value;
      h <= |f.input| && (f.limited ==> h <= f.remaining)
      && Fillable(f.input[h..], n, f.limited, if f.limited then f.remaining - h else f.remaining)
  {
    hide Enc, EncAll, Admitted, Right;
    var v :| Admitted(f, v);
    AdmittedChecks(f, v);
  }

  /** A list whose contents have been read was in front. */
  lemma {:induction false} ListBack(f: Front, items: seq<Item>)
    requires Right(f) && f.head.Some? && f.head.value.0 == ListKind
    requires var (_, h, n) := f.head.value;
      h + n <= |f.input| && f.input[h..][..n] == EncAll(items) && (f.limited ==> h + n <= f.remaining)
    ensures Admitted(f, List(items)) && Starts(f.whole, Enc(List(items)))
    ensures |Enc(List(items))| == Behind(f) + f.head.value.1 + f.head.value.2
  {
    hide Enc, EncAll, ParseHead;
    var (_, h, n) := f.head.value;
    assert f.whole[Behind(f) + h..] == f.input[h..];
    ListRead(f.whole, items);
    ListAdmitted(f, items);
  }

  /** decodeInterface, for a string. */
  method StringValue(s: Stream, ghost f: Front) returns (r: Result<Item>)
    requires AfterHead(s, f) && s.kind != Some(ListKind)
    modifies s
    ensures s.limited == old(s.limited)
    ensures r.Ok? ==> TakenFrom(s, f, Enc(r.value)) && Admitted(f, r.value)
    ensures Decodable(f) ==> r.Ok?
    ensures r.Ok? || Inner(r.error)
  {
    hide Charge, Enc, EncAll, ParseHead, Decodable, Admitted, Sum, Header;
    ghost var (k, h, size) := f.head.value;
    assert s.kind == Some(k);
    hide Stream.Head;
    ghost var input1, stack1, remaining1 := s.input, s.stack, s.remaining;
    TakeTwice(f.stack, f.limited, f.remaining, h, size);
    assert s.input == f.input[h..] && Behind(f) >= 0;
    assert old(Fits(s.stack, s.limited, s.remaining, size)) <==> Fits(f.stack, f.limited, f.remaining, h + size);
    hide Moved, Fits, HeadFits, Right;
    if Decodable(f) {
      StringChecks(f);
    }
    var b := Contents(s, k, size);
    if b.Err? {
      return Err(b.error);
    }
    MovedTwice(s.limited, f.input, f.stack, f.remaining, h, input1, stack1, remaining1, size, s.input, s.stack, s.remaining);
    StringBack(f, b.value);
    assert s.Consumed(f.input, f.stack, f.remaining, h + size) && |Enc(Str(b.value))| - Behind(f) == h + size;
    return Ok(Str(b.value));
  }

  /** The contents of a string whose header has been read. */
  method Contents(s: Stream, ghost k: Kind, ghost n: nat) returns (r: Result<seq<u8>>)
    requires s.kind.Some? && s.Head() == Some((k, 0, n)) && k != ListKind
    modifies s
    ensures s.limited == old(s.limited)
    ensures r.Ok? <==>
      n <= |old(s.input)| && old(Fits(s.stack, s.limited, s.remaining, n)) && !(k == String && n == 1 && old(s.input)[0] < 0x80)
    ensures r.Ok? ==> r.value == if k == Byte then [old(s.byteval)] else old(s.input)[..n]
    ensures r.Ok? ==> s.kind == None && s.Consumed(old(s.input), old(s.stack), old(s.remaining), n)
    ensures r.Ok? || Inner(r.error)
  {
    hide Charge, KindError, NothingLeft, Fits, Moved, ParseHead, HeadFits;
    r := s.Bytes();
  }

  /** The string in front can be read, once its header has been. */
  lemma {:induction false} StringChecks(f: Front)
    requires Decodable(f) && Right(f) && f.head.Some? && f.head.value.0 != ListKind
    ensures var (k, h, n) := f.head.value;
      h + n <= |f.input| && Fits(f.stack, f.limited, f.remaining, h + n)
      && !(k == String && n == 1 && f.input[h..][0] < 0x80)
  {
    hide Enc, EncAll, Admitted, Right, Fits;
    var v :| Admitted(f, v);
    AdmittedChecks(f, v);
  }

  /** A part of the input, seen from the start of the value. */
  lemma {:induction false} FrontSlice(f: Front, h: nat, n: nat)
    requires |f.input| <= |f.whole| && f.whole[Behind(f)..] == f.input && h + n <= |f.input|
    ensures f.whole[Behind(f) + h..Behind(f) + h + n] == f.input[h..h + n]
    ensures n >= 1 ==> f.whole[Behind(f) + h] == f.input[h..][0]
  {
    SliceOfSlice(f.whole, Behind(f), |f.whole|, h, h + n);
    assert f.whole[Behind(f)..|f.whole|] == f.input;
  }

  /** What has been checked of a string, seen from the start of the value. */
  lemma {:induction false} FrontString(f: Front, b: seq<u8>)
    requires Right(f) && f.head.Some? && var (k, h, n) := f.head.value;
      && h + n <= |f.input| && !(k == String && n == 1 && f.input[h..][0] < 0x80)
      && (k == Byte ==> f.whole != []) && b == if k == Byte then [f.whole[0]] else f.input[h..h + n]
    ensures var (k, h, n) := f.head.value; var p := Behind(f) + h;
      && ParseHead(f.whole) == Some((k, p, n)) && p + n <= |f.whole| && !(k == String && n == 1 && f.whole[p] < 0x80)
      && b == if k == Byte then [f.whole[0]] else f.whole[p..p + n]
  {
    hide ParseHead;
    var (_, h, n) := f.head.value;
    FrontSlice(f, h, n);
  }

  /** A string whose contents have been read was in front. */
  lemma {:induction false} StringBack(f: Front, b: seq<u8>)
    requires Right(f) && f.head.Some? && var (k, h, n) := f.head.value;
      && k != ListKind && h + n <= |f.input| && Fits(f.stack, f.limited, f.remaining, h + n)
      && !(k == String && n == 1 && f.input[h..][0] < 0x80)
      && (k == Byte ==> f.whole != []) && b == if k == Byte then [f.whole[0]] else f.input[h..h + n]
    ensures Admitted(f, Str(b)) && Starts(f.whole, Enc(Str(b)))
    ensures |Enc(Str(b))| == Behind(f) + f.head.value.1 + f.head.value.2
  {
    hide Enc, ParseHead, Fits, Admitted, Right;
    var (_, h, n) := f.head.value;
    FrontString(f, b);
    hide Behind;
    StringRead(f.whole);
    assert Enc(Str(b)) == f.whole[..Behind(f) + h + n];
    StringAdmitted(f, b);
  }

  lemma {:induction false} FillableNone(input: seq<u8>, limited: bool, remaining: u64)
    ensures Fillable(input, 0, limited, remaining)
  {
    assert EncAll([]) == input[..0];
  }

  /** Decodes the values of a list whose header has been read. */
  method DecodeListSlice(s: Stream) returns (r: Result<seq<Item>>)
    requires s.kind == Some(ListKind) && s.kinderr == None && |s.input| < TWO64
    modifies s
    ensures s.limited == old(s.limited)
    ensures r.Ok? ==> s.Taken(old(s.input), old(s.stack), old(s.remaining), EncAll(r.value))
    ensures r.Ok? ==> |EncAll(r.value)| == old(s.size)
    ensures r.Ok? <==> old(Fillable(s.input, s.size, s.limited, s.remaining))
    ensures r.Ok? || Inner(r.error)
    decreases |s.input|, 3
  {
    hide Charge, Enc, ParseHead, Fillable;
    ghost var stack0, size0 := s.stack, s.size;
    ChargeTwice(stack0, 0, size0);
    ChargeLast(Charge(stack0, size0), size0);
    EncAllNone();
    var size := s.List();
    match size {
      case Err(e) =>
        return Err(e);
      case Ok(n) =>
        assert s.stack[..|s.stack| - 1] == Charge(stack0, size0);
        FillableNone(s.input, s.limited, s.remaining);
        r := Ok([]);
        if n > 0 {
          r := DecodeSliceElems(s);
          if r.Err? {
            return;
          }
        }
        var end := s.ListEnd();
    }
  }

  /** Part way through a list that can be filled: the next value is ahead, or the list has ended. */
  lemma {:induction false} NextElement(input: seq<u8>, stack: seq<u64>, limited: bool, remaining: u64, done: seq<u8>, rest: seq<Item>)
    requires stack != [] && Top(stack) <= |input| < TWO64 && (limited ==> Top(stack) <= remaining)
    requires done + EncAll(rest) == input[..Top(stack)]
    ensures rest == [] <==> AtEnd(Charge(stack, |done|))
    ensures rest != [] ==> Starts(input[|done|..], Enc(rest[0]))
    ensures var left := remaining - if limited then |done| else 0;
      rest != [] ==> Admitted(FrontAt(input[|done|..], Charge(stack, |done|), limited, left), rest[0])
  {
    hide Enc, Wrap;
    assert |done| + |EncAll(rest)| == Top(stack);
    if rest != [] {
      EncAllStep(rest, []);
      var e := Enc(rest[0]);
      assert (done + EncAll(rest))[|done|..][..|e|] == e;
      assert input[|done|..][..|e|] == input[..Top(stack)][|done|..][..|e|];
      AheadAdmitted(input[|done|..], Charge(stack, |done|), limited, remaining - if limited then |done| else 0, rest[0]);
    }
  }

  /** The value that was read is the one that was ahead. */
  lemma {:induction false} SameValue(b: seq<u8>, v: Item, w: Item)
    requires Starts(b, Enc(v)) && Starts(b, Enc(w)) && |b| < TWO64
    ensures v == w
  {
    hide Enc;
    assert b == Enc(v) + b[|Enc(v)|..] && b == Enc(w) + b[|Enc(w)|..];
    PrefixFree(v, b[|Enc(v)|..], w, b[|Enc(w)|..]);
  }

  lemma {:induction false} EncAllNone()
    ensures EncAll([]) == []
  {
  }

  /** One prefix after another has been read. */
  lemma {:induction false} TakenTwice(limited: bool, i0: seq<u8>, s0: seq<u64>, r0: u64, x: seq<u8>, i1: seq<u8>, s1: seq<u64>, r1: u64,
                                      y: seq<u8>, i2: seq<u8>, s2: seq<u64>, r2: u64)
    requires Moved(limited, i0, s0, r0, |x|, i1, s1, r1) && Moved(limited, i1, s1, r1, |y|, i2, s2, r2)
    requires Starts(i0, x) && Starts(i1, y)
    ensures Moved(limited, i0, s0, r0, |x + y|, i2, s2, r2) && Starts(i0, x + y) && |i2| == |i1| - |y|
  {
    hide Moved;
    MovedTwice(limited, i0, s0, r0, |x|, i1, s1, r1, |y|, i2, s2, r2);
    MovedBy(limited, i0, s0, r0, |x|, i1, s1, r1);
    MovedBy(limited, i1, s1, r1, |y|, i2, s2, r2);
    assert i0[..|x + y|] == i0[..|x|] + i0[|x|..][..|y|];
  }

  lemma {:induction false} NextDone(done: seq<u8>, rest: seq<Item>)
    requires rest != []
    ensures done + Enc(rest[0]) + EncAll(rest[1..]) == done + EncAll(rest)
  {
    hide Enc;
    var x, y := Enc(rest[0]), EncAll(rest[1..]);
    assert EncAll(rest) == x + y;
    assert done + x + y == done + (x + y);
  }

  /** A list size that comes down to 0 has been used up, not wrapped around. */
  lemma {:induction false} EndReached(stack: seq<u64>, n: nat)
    requires stack != [] && AtEnd(Charge(stack, n)) && n < TWO64
    ensures n == Top(stack)
  {
  }

  /** Decodes the next value of a list. At the end of the list that is EOL, and nothing changes. */
  method DecodeElement(s: Stream) returns (r: Result<Item>)
    requires s.kind == None && |s.input| < TWO64
    modifies s
    ensures s.limited == old(s.limited)
    ensures r.Ok? ==> s.Taken(old(s.input), old(s.stack), old(s.remaining), Enc(r.value))
    ensures forall v :: Admitted(FrontAt(old(s.input), old(s.stack), s.limited, old(s.remaining)), v) ==> r == Ok(v)
    ensures (r == Err(EOL) <==> old(AtEnd(s.stack))) && (r == Err(EOL) ==> unchanged(s))
    ensures old(s.stack) != [] ==> r.Ok? || Inner(r.error) || r == Err(EOL)
    decreases |s.input|, 1
  {
    hide Enc, Admitted, KindError;
    FrontRight(s);
    r := DecodeInterface(s);
  }

  /** Decodes values up to the end of the innermost list. */
  method DecodeSliceElems(s: Stream) returns (r: Result<seq<Item>>)
    requires s.kind == None && s.stack != [] && |s.input| < TWO64
    modifies s
    ensures s.limited == old(s.limited)
    ensures r.Ok? ==> s.Taken(old(s.input), old(s.stack), old(s.remaining), EncAll(r.value))
    ensures r.Ok? ==> |EncAll(r.value)| == old(Top(s.stack))
    ensures r.Ok? <==> old(Fillable(s.input, Top(s.stack), s.limited, s.remaining))
    ensures r.Ok? || Inner(r.error)
    decreases |s.input|, 2
  {
    hide Charge, Enc, EncAll, ParseHead, Admitted, FrontAt, Fits, HeadFits, Moved;
    ghost var input0, stack0, remaining0 := s.input, s.stack, s.remaining;
    ghost var fillable := Fillable(input0, Top(stack0), s.limited, remaining0);
    ghost var rest: seq<Item> := [];
    if fillable {
      rest :| EncAll(rest) == input0[..Top(stack0)];
    }
    var vals: seq<Item> := [];
    MovedNone(s.limited, input0, stack0, remaining0);
    EncAllNone();
    while true
      invariant s.limited == old(s.limited)
      invariant s.Taken(input0, stack0, remaining0, EncAll(vals))
      invariant fillable ==> EncAll(vals) + EncAll(rest) == input0[..Top(stack0)]
      decreases |s.input|
    {
      ghost var done, input1, stack1, remaining1 := EncAll(vals), s.input, s.stack, s.remaining;
      MovedBy(s.limited, input0, stack0, remaining0, |done|, input1, stack1, remaining1);
      if fillable {
        NextElement(input0, stack0, s.limited, remaining0, done, rest);
      }
      var v := DecodeElement(s);
      if v == Err(EOL) {
        EndReached(stack0, |done|);
        break;
      } else if v.Err? {
        return Err(v.error);
      }
      EncAllAppend(vals, v.value);
      TakenTwice(s.limited, input0, stack0, remaining0, done, input1, stack1, remaining1,
                 Enc(v.value), s.input, s.stack, s.remaining);
      if fillable {
        NextDone(done, rest);
        rest := rest[1..];
      }
      vals := vals + [v.value];
    }
    return Ok(vals);
  }

  /** A list that reaches past the end of the one around it: the inner list of C1 C1 01 takes two bytes of an
      outer one of one byte. It is decoded, and the size of the outer list wraps around. */
  method DecodeOverrun() returns (s: Stream, r: Result<Item>)
    ensures r == Ok(List([Str([0x01])])) && s.stack == [0xFFFF_FFFF_FFFF_FFFF]
    ensures !Ahead([0xC1, 0x01], [1], true, 2, r.value)
  {
    s := new Stream([0xC1, 0xC1, 0x01], 3, None);
    OverrunHead([0xC1, 0xC1, 0x01]);
    OverrunHead([0xC1, 0x01]);
    hide ParseHead, Sum, Wrap, Enc, Stream.LimitsAgree;
    var outer := s.List();
    assert s.input == [0xC1, 0x01] && s.stack == [1] && s.remaining == 2;
    ChargeTwice([1], 0, 0);
    r := DecodeInterface(s);
    OverrunItem();
    WrapDifference(1, 2);
  }

  lemma {:induction false} OverrunHead(b: seq<u8>)
    requires b != [] && b[0] == 0xC1
    ensures ParseHead(b) == Some((ListKind, 1, 1))
  {
  }

  lemma {:induction false} OverrunItem()
    ensures Enc(List([Str([0x01])])) == [0xC1, 0x01]
  {
    assert EncAll([Str([0x01])]) == Enc(Str([0x01])) + EncAll([]);
  }

  // ---------- The entry point ----------

  /** DecodeBytes: the input is exactly one value. */
  method DecodeBytes(b: seq<u8>) returns (r: Result<Item>)
    requires |b| < 0x8000_0000_0000_0000
    ensures r.Ok? ==> b == Enc(r.value)
    ensures forall v :: b == Enc(v) ==> r == Ok(v)
    ensures r == Err(MoreThanOneValue) <==> exists v :: Starts(b, Enc(v)) && |Enc(v)| < |b|
    ensures r == Err(EOF) <==> b == []
  {
    hide Enc, Admitted, FrontAt, KindError;
    var s := new Stream(b, |b|, None);
    FrontRight(s);
    forall v | Starts(b, Enc(v)) ensures Admitted(FrontAt(b, [], s.limited, s.remaining), v) {
      AheadAdmitted(b, [], s.limited, s.remaining, v);
    }
    r := DecodeInterface(s);
    if r.Ok? && |s.input| > 0 {
      return Err(MoreThanOneValue);
    }
  }

  // ---------- Unsigned integers ----------

  function UintItem(n: nat): Item {
    Str(IntBytes(n))
  }

  /** What Uint accepts is the encoding of the number it returns. */
  lemma {:induction false} UintRead(b: seq<u8>, bits: nat)
    requires ParseHead(b).Some? && UintBits(bits)
    requires var (k, h, s) := ParseHead(b).value;
      h + s <= |b| && ((k == Byte && b[0] != 0) || (k == String && s <= ByteCount(bits) && ShortestUint(b[h..h + s])))
    ensures var (k, h, s) := ParseHead(b).value; var v: nat := if k == Byte then b[0] else BigEndian(b[h..h + s]);
      Enc(UintItem(v)) == b[..h + s] && v < Pow2(bits)
  {
    hide Enc, BigEndian, Pow2, Header, ParseHead, IntBytes;
    HeadSizes(b);
    var (k, h, s) := ParseHead(b).value;
    var z := if k == Byte then [b[0]] else b[h..h + s];
    BigEndianSingle(b[0]);
    assert k == String && s == 1 ==> BigEndian(z) == b[h] by {
      if k == String && s == 1 {
        assert z == [b[h]];
        BigEndianSingle(b[h]);
      }
    }
    StringRead(b);
    IntBytesOf(z);
    IntBytesLength(BigEndian(z), ByteCount(bits));
  }

  /** The encoding of a number that fits is accepted. */
  lemma {:induction false} UintFound(b: seq<u8>, v: nat, bits: nat)
    requires UintBits(bits) && Starts(b, Enc(UintItem(v))) && v < Pow2(bits) && |b| < TWO64
    ensures ParseHead(b).Some?
    ensures var (k, h, s) := ParseHead(b).value;
      h + s == |Enc(UintItem(v))| && h + s <= |b|
      && ((k == Byte && b[0] == v != 0) || (k == String && s <= ByteCount(bits) && ShortestUint(b[h..h + s]) && BigEndian(b[h..h + s]) == v))
  {
    hide Enc, ParseHead, BigEndian, Pow2, IntBytes, UintBits;
    var z := IntBytes(v);
    Found(b, UintItem(v));
    MinimalUint(v);
    IntBytesLength(v, ByteCount(bits));
    var (k, h, s) := ParseHead(b).value;
    assert k != Byte ==> b[h..h + s] == b[h..][..s];
  }

  /** The shortest form of a number: nothing for 0, one byte below 0x100. */
  lemma {:induction false} MinimalUint(v: nat)
    ensures var z := IntBytes(v);
      BigEndian(z) == v && (|z| == 1 ==> z == [z[0]] && z[0] == v != 0)
      && (z != [] && (|z| == 1 ==> z[0] >= 0x80) ==> ShortestUint(z)) && ShortestUint([])
  {
    hide Pow2, IntBytes, BigEndian;
    var z := IntBytes(v);
    IntBytesValue(v);
    Pow2Small();
    IntBytesLength(v, 0);
    IntBytesLength(v, 1);
    if |z| == 1 {
      BigEndianSingle(z[0]);
      assert z == [z[0]];
    }
  }
}
