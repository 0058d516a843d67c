/** Writing and reading typed values (encode.go, decode.go: the writers and decoders chosen by type), over
    the encoder's buffer and the stream. */
module RlpStruct {
  import opened Machine
  import opened Bits
  import opened Bytes
  import opened RlpSpec
  import opened RlpStream
  import opened RlpDecode
  import opened RlpEncode
  import opened RlpSchema
  import opened RlpMeaning

  // ---------- Writing ----------

  /** The writer of a type. */
  method WriteValue(w: EncBuffer, s: Schema, v: Value)
    requires w.Valid() && Typed(s, v) && w.Size() + |Enc(ToItem(s, v))| < MAXINT
    modifies w, w.sizebuf
    ensures w.Wrote(old(w.frames), old(w.Size()), Enc(ToItem(s, v)))
    decreases s, 0
  {
    EncShape(ToItem(s, v));
    hide Enc, Holds, ToAll, ToFields, TypedAll, TypedFields, Kept, Consistent, IntBytes, Pow2;
    match s {
      case UintS(bits) =>
        UintRange(v.n, bits);
        w.WriteUint64(v.n);
      case BoolS =>
        w.WriteBool(v.on);
      case BytesS =>
        w.WriteBytes(v.bytes);
      case ByteArrayS(len) =>
        WriteByteArray(w, v.bytes);
      case SliceS(elem) =>
        WriteSlice(w, elem, v.vals);
      case ArrayS(len, elem) =>
        WriteSlice(w, elem, v.vals);
      case StructS(fields) =>
        WriteStruct(w, fields, v.vals);
    }
  }

  lemma {:induction false} UintRange(n: nat, bits: nat)
    requires UintBits(bits) && n < Pow2(bits)
    ensures n < TWO64
  {
    hide Pow2;
    Pow2Monotone(bits, 64);
    Pow2Words();
  }

  /** makeByteArrayWriter. */
  method WriteByteArray(w: EncBuffer, b: seq<u8>)
    requires w.Valid() && |b| < MAXINT
    modifies w, w.sizebuf
    ensures w.Wrote(old(w.frames), old(w.Size()), Enc(Str(b)))
  {
    hide Holds, Header;
    SmallString(b);
    if |b| == 0 {
      w.Write([0x80]);
    } else if |b| == 1 {
      if b[0] <= 0x7F {
        w.Write([b[0]]);
      } else {
        w.Write([0x81, b[0]]);
      }
    } else {
      w.EncodeStringHeader(|b|);
      w.Write(b);
      ExtendTwice(old(w.frames), Header(0x80, 0xB7, |b|), b);
    }
  }

  lemma {:induction false} SmallString(b: seq<u8>)
    ensures |b| == 0 ==> Enc(Str(b)) == [0x80]
    ensures |b| == 1 ==> Enc(Str(b)) == if b[0] <= 0x7F then [b[0]] else [0x81, b[0]]
  {
  }

  /** makeSliceWriter for a slice or an array that is a list of its own. */
  method WriteSlice(w: EncBuffer, elem: Schema, vals: seq<Value>)
    requires w.Valid() && TypedAll(elem, vals) && w.Size() + |Enc(List(ToAll(elem, vals)))| < MAXINT
    modifies w, w.sizebuf
    ensures w.Wrote(old(w.frames), old(w.Size()), Enc(List(ToAll(elem, vals))))
    decreases elem, 2
  {
    hide Enc, Holds, EncAll, ToAll, TypedAll;
    HoldsSome(w.frames, w.str, w.lheads, w.lhsize);
    ghost var items := ToAll(elem, vals);
    EncOfList(items);
    if |vals| == 0 {
      w.Write([0xC0]);
      return;
    }
    var listOffset := w.List();
    WriteElems(w, elem, vals);
    CloseList(old(w.frames), listOffset, EncAll(items));
    w.ListEnd(listOffset);
  }

  /** A list that holds `content` when it ends. */
  lemma {:induction false} CloseList(frames: seq<Frame>, index: nat, content: seq<u8>)
    requires frames != []
    ensures var open := frames + [Frame([], index)];
      Finish(Extend(open, content)) == Extend(frames, ListHeader(|content|) + content)
      && Extend(open, content)[|frames|] == Frame(content, index)
  {
    hide ListHeader;
    var open := frames + [Frame([], index)];
    assert [] + content == content;
    assert Extend(open, content)[..|frames|] == frames;
  }

  /** The elements one after another, without a header. */
  method WriteElems(w: EncBuffer, elem: Schema, vals: seq<Value>)
    requires w.Valid() && TypedAll(elem, vals) && w.Size() + |EncAll(ToAll(elem, vals))| < MAXINT
    modifies w, w.sizebuf
    ensures w.Wrote(old(w.frames), old(w.Size()), EncAll(ToAll(elem, vals)))
    decreases elem, 1
  {
    hide Enc, Holds, EncAll;
    HoldsSome(w.frames, w.str, w.lheads, w.lhsize);
    ghost var frames0, items := w.frames, ToAll(elem, vals);
    EncAllNone();
    ExtendNothing(frames0);
    for i := 0 to |vals|
      invariant w.Wrote(frames0, old(w.Size()), EncAll(items[..i]))
    {
      EncAllSplit(items, i);
      ExtendTwice(frames0, EncAll(items[..i]), Enc(items[i]));
      WriteValue(w, elem, vals[i]);
    }
    assert items[..|vals|] == items;
  }

  lemma {:induction false} ExtendNothing(frames: seq<Frame>)
    requires frames != []
    ensures Extend(frames, []) == frames
  {
    var f := frames[|frames| - 1];
    assert f.content + [] == f.content;
  }

  /** makeStructWriter: zero values at the end are left out, down to the first optional field. */
  method WriteStruct(w: EncBuffer, fields: seq<FieldS>, vals: seq<Value>)
    requires |vals| == |fields| && w.Valid() && TypedFields(fields, vals)
    requires w.Size() + |Enc(List(ToFields(fields, vals, Kept(fields, vals, |fields|))))| < MAXINT
    modifies w, w.sizebuf
    ensures w.Wrote(old(w.frames), old(w.Size()), Enc(List(ToFields(fields, vals, Kept(fields, vals, |fields|)))))
    decreases fields, 2
  {
    hide Enc, Holds, EncAll, ToFields, TypedFields;
    HoldsSome(w.frames, w.str, w.lheads, w.lhsize);
    var lastField: nat := |fields|;
    while lastField > FirstOptional(fields) && IsZero(vals[lastField - 1])
      invariant lastField <= |fields| && Kept(fields, vals, lastField) == Kept(fields, vals, |fields|)
    {
      lastField := lastField - 1;
    }
    ghost var items := ToFields(fields, vals, lastField);
    EncOfList(items);
    var lh := w.List();
    WriteFields(w, fields, vals, lastField);
    CloseList(old(w.frames), lh, EncAll(items));
    w.ListEnd(lh);
  }

  /** The first n fields one after another. */
  method WriteFields(w: EncBuffer, fields: seq<FieldS>, vals: seq<Value>, n: nat)
    requires w.Valid() && TypedFields(fields, vals) && n <= |fields|
    requires w.Size() + |EncAll(ToFields(fields, vals, n))| < MAXINT
    modifies w, w.sizebuf
    ensures w.Wrote(old(w.frames), old(w.Size()), EncAll(ToFields(fields, vals, n)))
    decreases fields, 1
  {
    hide Enc, Holds, EncAll, ToFields, ToField;
    HoldsSome(w.frames, w.str, w.lheads, w.lhsize);
    ghost var frames0 := w.frames;
    EncAllNone();
    NoFields(fields, vals);
    ExtendNothing(frames0);
    for i := 0 to n
      invariant w.Wrote(frames0, old(w.Size()), EncAll(ToFields(fields, vals, i)))
    {
      assert TypedField(fields[i], vals[i]);
      FieldsUpTo(fields, vals, i, n);
      ExtendTwice(frames0, EncAll(ToFields(fields, vals, i)), EncAll(ToField(fields[i], vals[i])));
      WriteField(w, fields[i], vals[i]);
    }
  }

  lemma {:induction false} NoFields(fields: seq<FieldS>, vals: seq<Value>)
    requires TypedFields(fields, vals)
    ensures ToFields(fields, vals, 0) == []
  {
  }

  lemma {:induction false} EncAllConcat(x: seq<Item>, y: seq<Item>)
    ensures EncAll(x + y) == EncAll(x) + EncAll(y)
  {
    hide Enc, EncAll;
    if x == [] {
      EncAllNone();
      assert [] + y == y && [] + EncAll(y) == EncAll(y);
    } else {
      EncAllConcat(x[1..], y);
      assert (x + y)[1..] == x[1..] + y;
      EncAllHead(x);
      EncAllHead(x + y);
      Associative(Enc(x[0]), EncAll(x[1..]), EncAll(y));
    }
  }

  lemma {:induction false} EncAllHead(items: seq<Item>)
    requires items != []
    ensures EncAll(items) == Enc(items[0]) + EncAll(items[1..])
  {
    hide Enc;
  }

  lemma {:induction false} Associative(a: seq<u8>, b: seq<u8>, c: seq<u8>)
    ensures (a + b) + c == a + (b + c)
  {
  }

  lemma {:induction false} ToFieldsStep(fields: seq<FieldS>, vals: seq<Value>, i: nat)
    requires TypedFields(fields, vals) && i < |fields| && Typed(fields[i].schema, vals[i])
    ensures ToFields(fields, vals, i + 1) == ToFields(fields, vals, i) + ToField(fields[i], vals[i])
  {
    hide Typed, ToField;
    if i > 0 {
      FieldsTyped(fields, vals);
      ToFieldsStep(fields[1..], vals[1..], i - 1);
    }
  }

  /** Writing one more field, within what all n fields take. */
  lemma {:induction false} FieldsUpTo(fields: seq<FieldS>, vals: seq<Value>, i: nat, n: nat)
    requires TypedFields(fields, vals) && i < n <= |fields| && Typed(fields[i].schema, vals[i])
    ensures EncAll(ToFields(fields, vals, i + 1)) == EncAll(ToFields(fields, vals, i)) + EncAll(ToField(fields[i], vals[i]))
    ensures |EncAll(ToFields(fields, vals, i))| + |EncAll(ToField(fields[i], vals[i]))| <= |EncAll(ToFields(fields, vals, n))|
    decreases n - i
  {
    hide EncAll, ToField, Typed;
    ToFieldsStep(fields, vals, i);
    EncAllConcat(ToFields(fields, vals, i), ToField(fields[i], vals[i]));
    if i + 1 < n {
      assert TypedField(fields[i + 1], vals[i + 1]);
      FieldsUpTo(fields, vals, i + 1, n);
    }
  }

  /** A spread field is its elements; any other field is one value. */
  method WriteField(w: EncBuffer, f: FieldS, v: Value)
    requires w.Valid() && Typed(f.schema, v) && w.Size() + |EncAll(ToField(f, v))| < MAXINT
    modifies w, w.sizebuf
    ensures w.Wrote(old(w.frames), old(w.Size()), EncAll(ToField(f, v)))
    decreases f, 0
  {
    hide Enc, Holds, EncAll;
    if Spread(f) {
      WriteElems(w, f.schema.elem, v.vals);
    } else {
      EncAllOne(ToItem(f.schema, v));
      WriteValue(w, f.schema, v);
    }
  }

  lemma {:induction false} EncAllOne(v: Item)
    ensures EncAll([v]) == Enc(v)
  {
    hide Enc;
    assert EncAll([v]) == Enc(v) + EncAll([]);
  }

  // ---------- Reading ----------

  /** A value is admitted that stands for one of type t. */
  ghost predicate Accepted(t: Schema, f: Front) {
    exists item :: Admitted(f, item) && FromItem(t, item).Some?
  }

  lemma {:induction false} AcceptedBy(t: Schema, f: Front, item: Item)
    requires Admitted(f, item) && FromItem(t, item).Some?
    ensures Accepted(t, f)
  {
    hide Admitted, FromItem;
  }

  lemma {:induction false} FromUint(n: nat, bits: nat)
    requires UintBits(bits) && n < Pow2(bits)
    ensures UintItem(n).Str? && FromItem(UintS(bits), UintItem(n)) == Some(UintV(n))
  {
    hide Pow2, IntBytes, BigEndian;
    UintTrip(n, bits);
  }

  lemma {:induction false} FromBool(on: bool)
    ensures FromItem(BoolS, UintItem(if on then 1 else 0)) == Some(BoolV(on))
  {
    BoolItems();
  }

  lemma {:induction false} FromString(b: seq<u8>)
    ensures FromItem(BytesS, Str(b)) == Some(BytesV(b, false)) && FromItem(ByteArrayS(|b|), Str(b)) == Some(ByteArrayV(b))
  {
  }

  /** What Uint checks in front of it. */
  ghost predicate UintOk(f: Front, bits: nat)
    requires UintBits(bits)
  {
    f.head.Some? && var (k, h, n) := f.head.value;
      && h + n <= |f.input| && Fits(f.stack, f.limited, f.remaining, h + n)
      && ((k == Byte && f.whole != [] && f.whole[0] != 0)
          || (k == String && n <= ByteCount(bits) && ShortestUint(f.input[h..h + n])))
  }

  /** An integer of the type in front passes these checks. */
  lemma {:induction false} UintAccepted(f: Front, bits: nat)
    requires Accepted(UintS(bits), f) && UintBits(bits) && Right(f)
    ensures UintOk(f, bits)
  {
    hide Enc, ParseHead, Pow2, Admitted, Fits, ShortestUint, IntBytes, BigEndian;
    var item :| Admitted(f, item) && FromItem(UintS(bits), item).Some?;
    IsUintItem(item, bits);
    AdmittedChecks(f, item);
    UintFound(f.whole, FromItem(UintS(bits), item).value.n, bits);
    var (_, h, n) := f.head.value;
    FrontSlice(f, h, n);
  }

  /** What passes these checks is an integer of the type. */
  lemma {:induction false} UintBack(f: Front, bits: nat, v: nat)
    requires Right(f) && UintBits(bits) && UintOk(f, bits)
    requires var (k, h, n) := f.head.value; v == if k == Byte then f.whole[0] else BigEndian(f.input[h..h + n])
    ensures v < Pow2(bits) && Admitted(f, UintItem(v)) && Starts(f.whole, Enc(UintItem(v)))
    ensures |Enc(UintItem(v))| == Behind(f) + f.head.value.1 + f.head.value.2
  {
    hide Enc, ParseHead, Pow2, Fits, ShortestUint, IntBytes, BigEndian, ByteCount;
    var (_, h, n) := f.head.value;
    FrontSlice(f, h, n);
    HeadSizes(f.whole);
    UintRead(f.whole, bits);
    StringAdmitted(f, IntBytes(v));
  }

  method DecodeUint(s: Stream, bits: nat) returns (r: Result<u64>)
    requires s.HeadRight() && |s.Whole()| < TWO64 && UintBits(bits)
    modifies s
    ensures s.limited == old(s.limited)
    ensures r.Ok? ==> r.value < Pow2(bits) && TakenFrom(s, old(FrontOf(s)), Enc(UintItem(r.value)))
    ensures r.Ok? ==> Admitted(old(FrontOf(s)), UintItem(r.value))
    ensures r.Ok? <==> Accepted(UintS(bits), old(FrontOf(s)))
    ensures old(s.kind) == None ==> (r == Err(EOL) <==> old(AtEnd(s.stack))) && (r == Err(EOL) ==> unchanged(s))
  {
    hide Enc, ParseHead, Charge, Pow2, Admitted, FromItem, Accepted, KindError, Moved;
    hide ShortestUint, BigEndian, IntBytes, ByteCount, UintItem, NothingLeft, HeadBytes, Right, Fits, HeadFits;
    ghost var f := FrontOf(s);
    FrontRight(s);
    if Accepted(UintS(bits), f) {
      UintAccepted(f, bits);
    }
    r := s.Uint(bits);
    if r.Ok? {
      UintBack(f, bits, r.value);
      FromUint(r.value, bits);
      AcceptedBy(UintS(bits), f, UintItem(r.value));
    }
  }

  method DecodeString(s: Stream) returns (r: Result<seq<u8>>)
    requires s.HeadRight() && |s.Whole()| < TWO64
    modifies s
    ensures s.limited == old(s.limited)
    ensures r.Ok? ==> TakenFrom(s, old(FrontOf(s)), Enc(Str(r.value))) && Admitted(old(FrontOf(s)), Str(r.value))
    ensures r.Ok? <==> Accepted(BytesS, old(FrontOf(s)))
    ensures old(s.kind) == None ==> (r == Err(EOL) <==> old(AtEnd(s.stack))) && (r == Err(EOL) ==> unchanged(s))
  {
    hide Enc, ParseHead, Charge, Admitted, FromItem, Accepted, KindError, NothingLeft, Moved, HeadBytes, Right, Fits, HeadFits;
    ghost var f := FrontOf(s);
    FrontRight(s);
    if Accepted(BytesS, f) {
      StringAccepted(f);
    }
    r := s.Bytes();
    if r.Ok? {
      StringBack(f, r.value);
      FromString(r.value);
      AcceptedBy(BytesS, f, Str(r.value));
    }
  }

  lemma {:induction false} StringAccepted(f: Front)
    requires Accepted(BytesS, f) && Right(f)
    ensures f.head.Some? && var (k, h, n) := f.head.value;
      k != ListKind && h + n <= |f.input| && Fits(f.stack, f.limited, f.remaining, h + n)
      && !(k == String && n == 1 && f.input[h..][0] < 0x80)
  {
    hide Enc, Admitted, Right, Fits;
    var item :| Admitted(f, item) && FromItem(BytesS, item).Some?;
    AdmittedChecks(f, item);
  }

  /** Bool. */
  method DecodeBool(s: Stream) returns (r: Result<bool>)
    requires s.HeadRight() && |s.Whole()| < TWO64
    modifies s
    ensures s.limited == old(s.limited)
    ensures r.Ok? ==> TakenFrom(s, old(FrontOf(s)), Enc(UintItem(if r.value then 1 else 0)))
    ensures r.Ok? ==> Admitted(old(FrontOf(s)), UintItem(if r.value then 1 else 0))
    ensures r.Ok? <==> Accepted(BoolS, old(FrontOf(s)))
    ensures old(s.kind) == None ==> (r == Err(EOL) <==> old(AtEnd(s.stack))) && (r == Err(EOL) ==> unchanged(s))
  {
    hide Enc, Admitted, Accepted, FromItem, Pow2, IntBytes, UintItem, AtEnd, TakenFrom;
    ghost var f := FrontOf(s);
    assert |f.whole| < TWO64;
    hide FrontOf;
    if Accepted(BoolS, f) {
      BoolAccepted(f);
    }
    var num := DecodeUint(s, 8);
    match num {
      case Err(e) =>
        return Err(e);
      case Ok(n) =>
        BoolRead(f, n);
        if n == 0 {
          return Ok(false);
        } else if n == 1 {
          return Ok(true);
        } else {
          return Err(InvalidBool);
        }
    }
  }

  lemma {:induction false} BoolAccepted(f: Front)
    requires Accepted(BoolS, f)
    ensures Accepted(UintS(8), f)
  {
    hide Admitted, UintItem;
    var item :| Admitted(f, item) && FromItem(BoolS, item).Some?;
    BoolIsUint(item);
    AcceptedBy(UintS(8), f, item);
  }

  /** An integer that was read is a boolean exactly if it is 0 or 1. */
  lemma {:induction false} BoolRead(f: Front, n: nat)
    requires Admitted(f, UintItem(n)) && |f.whole| < TWO64
    ensures Accepted(BoolS, f) <==> n <= 1
  {
    hide Admitted, UintItem, Accepted;
    if Accepted(BoolS, f) {
      BoolWitness(f, n);
    }
    if n <= 1 {
      FromBool(n == 1);
      AcceptedBy(BoolS, f, UintItem(n));
    }
  }

  lemma {:induction false} BoolWitness(f: Front, n: nat)
    requires Admitted(f, UintItem(n)) && |f.whole| < TWO64 && Accepted(BoolS, f)
    ensures n <= 1
  {
    hide Admitted, UintItem;
    var item :| Admitted(f, item) && FromItem(BoolS, item).Some?;
    AdmittedStarts(f, item);
    AdmittedStarts(f, UintItem(n));
    SameValue(f.whole, item, UintItem(n));
    UintItemInjective(n, if item == UintItem(1) then 1 else 0);
  }

  lemma {:induction false} BoolIsUint(item: Item)
    requires FromItem(BoolS, item).Some?
    ensures FromItem(UintS(8), item).Some? && (item == UintItem(0) || item == UintItem(1))
  {
    hide IntBytes, BigEndian;
    MinimalUint(0);
    MinimalUint(1);
    IntBytesLength(0, 1);
    IntBytesLength(1, 1);
    Pow2Small();
  }

  lemma {:induction false} UintItemInjective(m: nat, n: nat)
    requires UintItem(m) == UintItem(n)
    ensures m == n
  {
    MinimalUint(m);
    MinimalUint(n);
  }

  /** decodeByteArray: a string of exactly this length. */
  method DecodeByteArray(s: Stream, len: nat) returns (r: Result<seq<u8>>)
    requires s.HeadRight() && |s.Whole()| < TWO64
    modifies s
    ensures s.limited == old(s.limited)
    ensures r.Ok? ==> |r.value| == len && TakenFrom(s, old(FrontOf(s)), Enc(Str(r.value)))
    ensures r.Ok? ==> Admitted(old(FrontOf(s)), Str(r.value))
    ensures r.Ok? <==> Accepted(ByteArrayS(len), old(FrontOf(s)))
    ensures old(s.kind) == None ==> (r == Err(EOL) <==> old(AtEnd(s.stack))) && (r == Err(EOL) ==> unchanged(s))
  {
    hide Enc, Accepted, Admitted, FromItem, TakenFrom, KindError, NothingLeft, AfterHead;
    ghost var f := FrontOf(s);
    var k, size, err := HeadInFront(s, f);
    if err.Some? {
      NotAccepted(ByteArrayS(len), f);
      return Err(err.value);
    }
    r := FixedString(s, len, k, f);
  }

  lemma {:induction false} NotAccepted(t: Schema, f: Front)
    requires f.head == None
    ensures !Accepted(t, f)
  {
    hide FromItem;
  }

  /** decodeByteArray after the header. */
  method FixedString(s: Stream, len: nat, k: Kind, ghost f: Front) returns (r: Result<seq<u8>>)
    requires AfterHead(s, f) && s.kind == Some(k)
    modifies s
    ensures s.limited == old(s.limited)
    ensures r.Ok? ==> |r.value| == len && TakenFrom(s, f, Enc(Str(r.value))) && Admitted(f, Str(r.value))
    ensures r.Ok? <==> Accepted(ByteArrayS(len), f)
    ensures r.Ok? || Inner(r.error)
  {
    hide Enc, ParseHead, Charge, Admitted, Accepted, FromItem, Stream.LimitsAgree;
    if Accepted(ByteArrayS(len), f) {
      ByteArrayAccepted(f, len);
    }
    match k {
      case Byte =>
        if len == 0 {
          return Err(StringTooLong);
        } else if len > 1 {
          return Err(StringTooShort);
        }
        ByteFront(f);
        TakeTwice(f.stack, f.limited, f.remaining, f.head.value.1, 0);
        ByteArrayBack(f, [s.byteval]);
        s.kind := None;
        return Ok([s.byteval]);
      case String =>
        if len < s.size {
          return Err(StringTooLong);
        } else if len > s.size {
          return Err(StringTooShort);
        }
        r := FixedContents(s, f);
      case ListKind =>
        return Err(ExpectedString);
    }
  }

  /** The contents of a string of the right length. */
  method FixedContents(s: Stream, ghost f: Front) returns (r: Result<seq<u8>>)
    requires AfterHead(s, f) && s.kind == Some(String)
    modifies s
    ensures s.limited == old(s.limited)
    ensures r.Ok? ==> |r.value| == old(s.size) && TakenFrom(s, f, Enc(Str(r.value))) && Admitted(f, Str(r.value))
    ensures r.Ok? <==> Accepted(ByteArrayS(old(s.size)), f)
    ensures r.Ok? || Inner(r.error)
  {
    hide Enc, ParseHead, Charge, Admitted, Accepted;
    ghost var (_, h, n) := f.head.value;
    ghost var input1, stack1, remaining1 := s.input, s.stack, s.remaining;
    TakeTwice(f.stack, f.limited, f.remaining, h, n);
    assert s.input == f.input[h..] && Behind(f) >= 0 && f.head == Some((String, h, n)) && s.size == n;
    assert s.Readable() <==> h + n <= |f.input| && Fits(f.stack, f.limited, f.remaining, h + n);
    hide Moved, FromItem, Stream.Readable, Fits, Right, Stream.Head, Stream.LimitsAgree;
    if Accepted(ByteArrayS(n), f) {
      ByteArrayAccepted(f, n);
    }
    r := s.ReadValue(s.size);
    if r.Ok? {
      if |r.value| == 1 && r.value[0] < 0x80 {
        return Err(CanonSize);
      }
      MovedTwice(s.limited, f.input, f.stack, f.remaining, h, input1, stack1, remaining1, n, s.input, s.stack, s.remaining);
      ByteArrayBack(f, r.value);
      assert s.Consumed(f.input, f.stack, f.remaining, h + n) && |Enc(Str(r.value))| - Behind(f) == h + n;
    }
  }

  /** A string whose contents have been read was in front, and a byte array of its length is accepted. */
  lemma {:induction false} ByteArrayBack(f: Front, b: seq<u8>)
    requires Right(f) && f.head.Some? && var (k, h, n) := f.head.value;
      && k != ListKind && h + n <= |f.input| && Fits(f.stack, f.limited, f.remaining, h + n)
      && !(k == String && n == 1 && f.input[h..][0] < 0x80)
      && (k == Byte ==> f.whole != []) && b == if k == Byte then [f.whole[0]] else f.input[h..h + n]
    ensures Admitted(f, Str(b)) && Starts(f.whole, Enc(Str(b))) && Accepted(ByteArrayS(|b|), f)
    ensures |Enc(Str(b))| == Behind(f) + f.head.value.1 + f.head.value.2
  {
    hide Enc, Admitted, Right, Fits, Accepted, FromItem;
    StringBack(f, b);
    FromString(b);
    AcceptedBy(ByteArrayS(|b|), f, Str(b));
  }

  /** A byte that is its own header takes nothing more. */
  lemma {:induction false} ByteFront(f: Front)
    requires Right(f) && f.head.Some? && f.head.value.0 == Byte
    ensures f.head.value.2 == 0 && f.head.value.1 <= |f.input|
  {
    HeadSizes(f.whole);
    hide ParseHead;
  }

  /** The header of a string of length len, and not a misencoded byte. */
  ghost predicate ByteArrayOk(f: Front, len: nat) {
    f.head.Some? && var (k, h, n) := f.head.value;
      h + n <= |f.input| && k != ListKind && !(k == String && n == 1 && f.input[h..][0] < 0x80) && len == if k == Byte then 1 else n
  }

  lemma {:induction false} ByteArrayAccepted(f: Front, len: nat)
    requires Accepted(ByteArrayS(len), f) && Right(f)
    ensures ByteArrayOk(f, len) && var (_, h, n) := f.head.value; Fits(f.stack, f.limited, f.remaining, h + n)
  {
    hide Enc, ParseHead, Admitted, Fits;
    var item :| Admitted(f, item) && FromItem(ByteArrayS(len), item).Some?;
    AdmittedChecks(f, item);
    AdmittedStarts(f, item);
    Found(f.whole, item);
    var (k, h, n) := f.head.value;
    assert k != Byte ==> |f.whole[Behind(f) + h..][..n]| == n;
  }

  // ---------- Reading the values of a list ----------

  /** Inside a list, `its` have been read and `rest` are what is left of it. */
  ghost predicate Rest(input: seq<u8>, stack: seq<u64>, limited: bool, remaining: u64, its: seq<Item>, rest: seq<Item>) {
    && stack != [] && Top(stack) <= |input| && (limited ==> Top(stack) <= remaining)
    && EncAll(its) + EncAll(rest) == input[..Top(stack)]
  }

  lemma {:induction false} RestStep(input: seq<u8>, stack: seq<u64>, limited: bool, remaining: u64, its: seq<Item>, rest: seq<Item>)
    requires Rest(input, stack, limited, remaining, its, rest) && rest != []
    ensures Rest(input, stack, limited, remaining, its + [rest[0]], rest[1..])
  {
    hide Enc, EncAll;
    EncAllAppend(its, rest[0]);
    EncAllHead(rest);
    Associative(EncAll(its), Enc(rest[0]), EncAll(rest[1..]));
  }

  /** The decoder of a type, on a stream that has no header waiting. */
  method DecodeAt(s: Stream, t: Schema) returns (r: Result<Value>, ghost item: Item)
    requires s.kind == None && |s.input| < TWO64 && Supported(t)
    modifies s
    ensures s.limited == old(s.limited)
    ensures r.Ok? ==> FromItem(t, item) == Some(r.value) && s.Taken(old(s.input), old(s.stack), old(s.remaining), Enc(item))
    ensures forall v :: Admitted(FrontAt(old(s.input), old(s.stack), s.limited, old(s.remaining)), v) && FromItem(t, v).Some? ==> r.Ok?
    ensures (r == Err(EOL) <==> old(AtEnd(s.stack))) && (r == Err(EOL) ==> unchanged(s))
    decreases t, 8
  {
    hide Enc, Admitted, FromItem, Supported, AtEnd, HeadFits, Moved;
    FrontRight(s);
    r, item := DecodeValue(s, t);
  }

  /** Reads the next value of a list. At its end that is EOL, and nothing changes. */
  method DecodeNext(s: Stream, t: Schema, ghost input1: seq<u8>, ghost stack1: seq<u64>, ghost remaining1: u64,
                    ghost its: seq<Item>, ghost rest: Option<seq<Item>>) returns (r: Result<Value>, ghost item: Item)
    requires Supported(t) && stack1 != [] && |input1| < TWO64
    requires s.Taken(input1, stack1, remaining1, EncAll(its))
    requires rest.Some? ==> Rest(input1, stack1, s.limited, remaining1, its, rest.value)
    modifies s
    ensures s.limited == old(s.limited)
    ensures r.Ok? ==> FromItem(t, item) == Some(r.value) && s.Taken(input1, stack1, remaining1, EncAll(its + [item]))
    ensures r.Ok? ==> |s.input| < |old(s.input)|
    ensures r == Err(EOL) ==> unchanged(s) && AtEnd(s.stack) && |EncAll(its)| == Top(stack1)
    ensures rest.Some? ==> (r == Err(EOL) <==> rest.value == [])
    ensures rest.Some? && rest.value != [] && FromItem(t, rest.value[0]).Some? ==>
      r.Ok? && item == rest.value[0] && Rest(input1, stack1, s.limited, remaining1, its + [item], rest.value[1..])
    decreases t, 9
  {
    hide Charge, Enc, EncAll, Admitted, FromItem, Supported, FrontAt, Moved;
    ghost var done, input2, stack2, remaining2 := EncAll(its), s.input, s.stack, s.remaining;
    MovedBy(s.limited, input1, stack1, remaining1, |done|, input2, stack2, remaining2);
    if rest.Some? {
      hide Fits;
      NextElement(input1, stack1, s.limited, remaining1, done, rest.value);
      if rest.value != [] {
        RestStep(input1, stack1, s.limited, remaining1, its, rest.value);
      }
    }
    r, item := DecodeAt(s, t);
    match r {
      case Err(_) =>
        if r == Err(EOL) {
          EndReached(stack1, |done|);
        }
      case Ok(_) =>
        EncAllAppend(its, item);
        TakenTwice(s.limited, input1, stack1, remaining1, done, input2, stack2, remaining2, Enc(item), s.input, s.stack, s.remaining);
        if rest.Some? && rest.value != [] {
          SameValue(input2, item, rest.value[0]);
        }
    }
  }

  /** What a list is read as: elements up to its end, a fixed number of elements, or the fields of a struct. */
  datatype Shape = Elements(elem: Schema) | Exactly(len: nat, elem: Schema) | FieldsOf(fields: seq<FieldS>)

  ghost function FromShape(sh: Shape, items: seq<Item>): Option<seq<Value>> {
    match sh
    case Elements(elem) => FromAll(elem, items)
    case Exactly(len, elem) => if |items| == len then FromAll(elem, items) else None
    case FieldsOf(fields) => FromFields(fields, items)
  }

  /** The rest of the list is filled by values of this shape. */
  ghost predicate FilledBy(sh: Shape, input: seq<u8>, stack: seq<u64>, limited: bool, remaining: u64) {
    exists its :: Rest(input, stack, limited, remaining, [], its) && FromShape(sh, its).Some?
  }

  /** `its` have been read, and with `rest` they make up the shape. */
  ghost predicate OnTrack(sh: Shape, input: seq<u8>, stack: seq<u64>, limited: bool, remaining: u64, its: seq<Item>, rest: seq<Item>) {
    Rest(input, stack, limited, remaining, its, rest) && FromShape(sh, its + rest).Some?
  }

  ghost function RestOf(sh: Shape, input: seq<u8>, stack: seq<u64>, limited: bool, remaining: u64): (rest: Option<seq<Item>>)
    ensures FilledBy(sh, input, stack, limited, remaining) <==> rest.Some?
    ensures rest.Some? ==> OnTrack(sh, input, stack, limited, remaining, [], rest.value)
  {
    if FilledBy(sh, input, stack, limited, remaining) then
      var its :| Rest(input, stack, limited, remaining, [], its) && FromShape(sh, its).Some?;
      assert [] + its == its;
      Some(its)
    else None
  }

  lemma {:induction false} OnTrackNext(sh: Shape, input: seq<u8>, stack: seq<u64>, limited: bool, remaining: u64, its: seq<Item>, rest: seq<Item>)
    requires OnTrack(sh, input, stack, limited, remaining, its, rest)
    ensures Rest(input, stack, limited, remaining, its, rest)
    ensures rest != [] ==> OnTrack(sh, input, stack, limited, remaining, its + [rest[0]], rest[1..])
    ensures rest != [] && !sh.FieldsOf? ==> FromItem(sh.elem, rest[0]).Some?
    ensures sh.Exactly? ==> sh.len == |its| + |rest|
  {
    hide FromAll, FromItem, FromFields, Rest;
    if rest != [] {
      RestStep(input, stack, limited, remaining, its, rest);
      assert its + [rest[0]] + rest[1..] == its + rest;
      if !sh.FieldsOf? {
        FromAllAt(sh.elem, its + rest, |its|);
      }
    }
  }

  /** decodeSliceElems: values up to the end of the list. */
  method DecodeElems(s: Stream, elem: Schema) returns (r: Result<seq<Value>>, ghost its: seq<Item>)
    requires s.kind == None && s.stack != [] && |s.input| < TWO64 && Supported(elem)
    modifies s
    ensures s.limited == old(s.limited)
    ensures r.Ok? ==> FromAll(elem, its) == Some(r.value) && s.Taken(old(s.input), old(s.stack), old(s.remaining), EncAll(its))
    ensures r.Ok? ==> |EncAll(its)| == Top(old(s.stack)) && AtEnd(s.stack)
    ensures r.Ok? <==> old(FilledBy(Elements(elem), s.input, s.stack, s.limited, s.remaining))
    ensures r != Err(EOL)
    decreases elem, 10
  {
    hide Charge, Enc, EncAll, FromItem, FromAll, Supported, Rest, OnTrack;
    ghost var input1, stack1, remaining1, limited := s.input, s.stack, s.remaining, s.limited;
    ghost var rest := RestOf(Elements(elem), input1, stack1, limited, remaining1);
    var vals: seq<Value> := [];
    its := [];
    EncAllNone();
    ChargeTwice(stack1, 0, 0);
    FromAllEmpty(elem);
    assert s.Taken(input1, stack1, remaining1, EncAll(its));
    hide Stream.Consumed, Starts, FilledBy;
    while true
      invariant s.limited == limited && s.Taken(input1, stack1, remaining1, EncAll(its))
      invariant FromAll(elem, its) == Some(vals)
      invariant FilledBy(Elements(elem), input1, stack1, limited, remaining1) <==> rest.Some?
      invariant rest.Some? ==> OnTrack(Elements(elem), input1, stack1, limited, remaining1, its, rest.value)
      decreases |s.input|
    {
      if rest.Some? {
        OnTrackNext(Elements(elem), input1, stack1, limited, remaining1, its, rest.value);
      }
      ghost var item;
      var v;
      v, item := DecodeNext(s, elem, input1, stack1, remaining1, its, rest);
      match v {
        case Err(e) =>
          if e == EOL {
            FilledNow(Elements(elem), input1, stack1, limited, remaining1, its);
            return Ok(vals), its;
          }
          return Err(e), its;
        case Ok(x) =>
          FromAllStep(elem, its, item);
          vals := vals + [x];
          its := its + [item];
          rest := if rest.Some? then Some(rest.value[1..]) else None;
      }
    }
  }

  /** Values that were read up to the end of the list fill it. */
  lemma {:induction false} FilledNow(sh: Shape, input: seq<u8>, stack: seq<u64>, limited: bool, remaining: u64, its: seq<Item>)
    requires stack != [] && Starts(input, EncAll(its)) && |EncAll(its)| == Top(stack) && (limited ==> Top(stack) <= remaining)
    requires FromShape(sh, its).Some?
    ensures FilledBy(sh, input, stack, limited, remaining)
  {
    hide EncAll, FromShape;
    EncAllNone();
    assert EncAll([]) + EncAll(its) == EncAll(its);
    assert Rest(input, stack, limited, remaining, [], its);
  }

  lemma {:induction false} FromAllEmpty(elem: Schema)
    ensures FromAll(elem, []) == Some([])
  {
  }

  lemma {:induction false} FromAllAt(elem: Schema, items: seq<Item>, i: nat)
    requires i < |items| && FromAll(elem, items).Some?
    ensures FromItem(elem, items[i]).Some?
  {
    hide FromItem;
    if i < |items| - 1 {
      FromAllAt(elem, items[..|items| - 1], i);
    }
  }

  /** The loop of decodeListArray. */
  method DecodeArrayElems(s: Stream, len: nat, elem: Schema) returns (r: Result<seq<Value>>, ghost its: seq<Item>)
    requires s.kind == None && s.stack != [] && |s.input| < TWO64 && Supported(elem)
    modifies s
    ensures s.limited == old(s.limited)
    ensures r.Ok? ==> FromAll(elem, its) == Some(r.value) && |its| == len
    ensures r.Ok? ==> s.Taken(old(s.input), old(s.stack), old(s.remaining), EncAll(its))
    ensures old(FilledBy(Exactly(len, elem), s.input, s.stack, s.limited, s.remaining)) ==> r.Ok? && |EncAll(its)| == Top(old(s.stack))
    ensures r != Err(EOL)
    decreases elem, 10
  {
    hide Charge, Enc, EncAll, FromItem, FromAll, Supported, OnTrack, Fits;
    ghost var input1, stack1, remaining1, limited := s.input, s.stack, s.remaining, s.limited;
    ghost var rest := RestOf(Exactly(len, elem), input1, stack1, limited, remaining1);
    var vals: seq<Value> := [];
    its := [];
    EncAllNone();
    ChargeTwice(stack1, 0, 0);
    FromAllEmpty(elem);
    assert s.Taken(input1, stack1, remaining1, EncAll(its));
    hide Stream.Consumed, Starts, FilledBy, Rest;
    for i := 0 to len
      invariant s.limited == limited && s.Taken(input1, stack1, remaining1, EncAll(its))
      invariant FromAll(elem, its) == Some(vals) && |its| == i
      invariant FilledBy(Exactly(len, elem), input1, stack1, limited, remaining1) <==> rest.Some?
      invariant rest.Some? ==> OnTrack(Exactly(len, elem), input1, stack1, limited, remaining1, its, rest.value)
    {
      if rest.Some? {
        OnTrackNext(Exactly(len, elem), input1, stack1, limited, remaining1, its, rest.value);
      }
      ghost var item;
      var v;
      v, item := DecodeNext(s, elem, input1, stack1, remaining1, its, rest);
      match v {
        case Err(e) =>
          return Err(if e == EOL then TooFewElements else e), its;
        case Ok(x) =>
          FromAllStep(elem, its, item);
          vals := vals + [x];
          its := its + [item];
          rest := if rest.Some? then Some(rest.value[1..]) else None;
      }
    }
    if rest.Some? {
      OnTrackNext(Exactly(len, elem), input1, stack1, limited, remaining1, its, rest.value);
      RestEnds(input1, stack1, limited, remaining1, its, rest.value);
    }
    return Ok(vals), its;
  }

  lemma {:induction false} RestEnds(input: seq<u8>, stack: seq<u64>, limited: bool, remaining: u64, its: seq<Item>, rest: seq<Item>)
    requires Rest(input, stack, limited, remaining, its, rest) && rest == []
    ensures |EncAll(its)| == Top(stack)
  {
    EncAllNone();
  }

  // ---------- Reading the fields of a struct ----------

  function Prepend(vals: seq<Value>, r: Option<seq<Value>>): Option<seq<Value>> {
    if r.Some? then Some(vals + r.value) else None
  }

  /** The first i fields have been read from `its`, so what is left decides the rest. */
  ghost predicate Joined(fields: seq<FieldS>, i: nat, its: seq<Item>, vals: seq<Value>) {
    i <= |fields| && forall rest :: FromFields(fields, its + rest) == Prepend(vals, FromFields(fields[i..], rest))
  }

  lemma {:induction false} JoinedStart(fields: seq<FieldS>)
    ensures Joined(fields, 0, [], [])
  {
    assert fields[0..] == fields;
    forall rest ensures FromFields(fields, [] + rest) == Prepend([], FromFields(fields, rest)) {
      hide FromFields;
      assert [] + rest == rest;
      var r := FromFields(fields, rest);
      assert r.Some? ==> [] + r.value == r.value;
    }
  }

  lemma {:induction false} JoinedStep(fields: seq<FieldS>, i: nat, its: seq<Item>, vals: seq<Value>, item: Item, v: Value)
    requires Joined(fields, i, its, vals) && i < |fields| && !Spread(fields[i]) && FromItem(fields[i].schema, item) == Some(v)
    ensures Joined(fields, i + 1, its + [item], vals + [v])
  {
    hide FromItem;
    forall rest ensures FromFields(fields, its + [item] + rest) == Prepend(vals + [v], FromFields(fields[i + 1..], rest)) {
      assert its + [item] + rest == its + ([item] + rest);
      assert fields[i..][1..] == fields[i + 1..] && ([item] + rest)[1..] == rest;
      assert FromFields(fields[i..], [item] + rest) == Prepend([v], FromFields(fields[i + 1..], rest));
      hide FromFields;
      assert forall x: seq<Value> :: vals + ([v] + x) == vals + [v] + x;
    }
  }

  /** The ways in which the fields of a struct can end. */
  lemma {:induction false} JoinedEnd(fields: seq<FieldS>, i: nat, its: seq<Item>, vals: seq<Value>)
    requires Joined(fields, i, its, vals)
    ensures i == |fields| ==> FromFields(fields, its) == Some(vals)
    ensures i < |fields| && fields[i].optional && !Spread(fields[i]) ==> FromFields(fields, its) == Some(vals + Zeros(fields[i..]))
  {
    assert its + [] == its && vals + [] == vals;
    assert FromFields(fields, its) == Prepend(vals, FromFields(fields[i..], []));
  }

  lemma {:induction false} JoinedSpread(fields: seq<FieldS>, i: nat, its: seq<Item>, vals: seq<Value>, more: seq<Item>, x: seq<Value>)
    requires Joined(fields, i, its, vals) && i == |fields| - 1 && Spread(fields[i]) && FromAll(fields[i].schema.elem, more) == Some(x)
    ensures FromFields(fields, its + more) == Some(vals + [SliceV(x, false)])
  {
    SpreadAlone(fields[i..], more, x);
    hide FromAll, FromFields;
    assert FromFields(fields, its + more) == Prepend(vals, FromFields(fields[i..], more));
  }

  lemma {:induction false} SpreadAlone(fields: seq<FieldS>, more: seq<Item>, x: seq<Value>)
    requires |fields| == 1 && Spread(fields[0]) && FromAll(fields[0].schema.elem, more) == Some(x)
    ensures FromFields(fields, more) == Some([SliceV(x, false)])
  {
    hide FromAll;
    assert fields[1..] == [] && FromFields(fields[1..], []) == Some([]);
    assert FromSpread(fields[0], more) == Some(SliceV(x, false));
    assert [SliceV(x, false)] + [] == [SliceV(x, false)];
  }

  /** What the items that are left must be for the struct to be read. */
  lemma {:induction false} JoinedRest(fields: seq<FieldS>, i: nat, its: seq<Item>, vals: seq<Value>, rest: seq<Item>)
    requires Joined(fields, i, its, vals) && FromFields(fields, its + rest).Some?
    ensures i == |fields| ==> rest == []
    ensures i < |fields| && Spread(fields[i]) ==> FromAll(fields[i].schema.elem, rest).Some?
    ensures i < |fields| && !Spread(fields[i]) ==> if rest == [] then fields[i].optional else FromItem(fields[i].schema, rest[0]).Some?
  {
    hide FromAll, FromItem;
    assert FromFields(fields[i..], rest).Some?;
  }

  /** Seen from where the stream is, the rest of the list is a list by itself. */
  lemma {:induction false} RestAlone(input: seq<u8>, stack: seq<u64>, limited: bool, remaining: u64, its: seq<Item>, rest: seq<Item>)
    requires Rest(input, stack, limited, remaining, its, rest)
    ensures var n := |EncAll(its)|;
      Rest(input[n..], Charge(stack, n), limited, if limited then remaining - n else remaining, [], rest)
  {
    hide Enc;
    var n := |EncAll(its)|;
    assert EncAll([]) + EncAll(rest) == EncAll(rest);
    assert (EncAll(its) + EncAll(rest))[n..] == EncAll(rest);
    assert input[..Top(stack)][n..] == input[n..][..Top(stack) - n];
  }

  /** The loop of makeStructDecoder. */
  method DecodeFields(s: Stream, fields: seq<FieldS>) returns (r: Result<seq<Value>>, ghost its: seq<Item>)
    requires s.kind == None && s.stack != [] && |s.input| < TWO64
    requires Consistent(fields) && forall i :: 0 <= i < |fields| ==> SupportedField(fields[i])
    modifies s
    ensures s.limited == old(s.limited)
    ensures r.Ok? ==> FromFields(fields, its) == Some(r.value) && StandFor(fields, its, r.value)
    ensures r.Ok? ==> s.Taken(old(s.input), old(s.stack), old(s.remaining), EncAll(its))
    ensures old(FilledBy(FieldsOf(fields), s.input, s.stack, s.limited, s.remaining)) ==> r.Ok? && |EncAll(its)| == Top(old(s.stack))
    ensures r != Err(EOL)
    decreases fields, 2
  {
    hide Charge, Enc, EncAll, FromItem, FromAll, FromFields, Supported, OnTrack, Fits, Joined, Zeros, StandFor;
    ghost var input1, stack1, remaining1, limited := s.input, s.stack, s.remaining, s.limited;
    ghost var rest := RestOf(FieldsOf(fields), input1, stack1, limited, remaining1);
    var vals: seq<Value> := [];
    its := [];
    EncAllNone();
    ChargeTwice(stack1, 0, 0);
    JoinedStart(fields);
    assert s.Taken(input1, stack1, remaining1, EncAll(its));
    hide Stream.Consumed, Starts, FilledBy, Rest, Consistent;
    var i := 0;
    while i < |fields|
      invariant i <= |fields| && s.limited == limited && s.Taken(input1, stack1, remaining1, EncAll(its))
      invariant Joined(fields, i, its, vals)
      invariant FilledBy(FieldsOf(fields), input1, stack1, limited, remaining1) <==> rest.Some?
      invariant rest.Some? ==> OnTrack(FieldsOf(fields), input1, stack1, limited, remaining1, its, rest.value)
    {
      var f := fields[i];
      assert SupportedField(f);
      if rest.Some? {
        TrackFields(fields, i, input1, stack1, limited, remaining1, its, vals, rest.value);
      }
      if Spread(f) {
        r, its := DecodeSpread(s, fields, i, vals, input1, stack1, remaining1, its, rest);
        if r.Ok? {
          FieldsMeaning(fields, its, r.value);
        }
        return;
      }
      ghost var item;
      var v;
      v, item := DecodeNext(s, f.schema, input1, stack1, remaining1, its, rest);
      match v {
        case Err(e) =>
          if e != EOL {
            return Err(e), its;
          } else if f.optional {
            JoinedEnd(fields, i, its, vals);
            FieldsMeaning(fields, its, vals + Zeros(fields[i..]));
            return Ok(vals + Zeros(fields[i..])), its;
          }
          return Err(TooFewElements), its;
        case Ok(x) =>
          JoinedStep(fields, i, its, vals, item, x);
          vals := vals + [x];
          its := its + [item];
          rest := if rest.Some? then Some(rest.value[1..]) else None;
      }
      i := i + 1;
    }
    JoinedEnd(fields, i, its, vals);
    FieldsMeaning(fields, its, vals);
    if rest.Some? {
      TrackFields(fields, i, input1, stack1, limited, remaining1, its, vals, rest.value);
      RestEnds(input1, stack1, limited, remaining1, its, rest.value);
    }
    return Ok(vals), its;
  }

  lemma {:induction false} TrackFields(fields: seq<FieldS>, i: nat, input: seq<u8>, stack: seq<u64>, limited: bool, remaining: u64,
                    its: seq<Item>, vals: seq<Value>, rest: seq<Item>)
    requires OnTrack(FieldsOf(fields), input, stack, limited, remaining, its, rest) && Joined(fields, i, its, vals)
    ensures Rest(input, stack, limited, remaining, its, rest)
    ensures rest != [] ==> OnTrack(FieldsOf(fields), input, stack, limited, remaining, its + [rest[0]], rest[1..])
    ensures i == |fields| ==> rest == []
    ensures i < |fields| && Spread(fields[i]) ==> FromAll(fields[i].schema.elem, rest).Some?
    ensures i < |fields| && !Spread(fields[i]) ==> if rest == [] then fields[i].optional else FromItem(fields[i].schema, rest[0]).Some?
  {
    OnTrackNext(FieldsOf(fields), input, stack, limited, remaining, its, rest);
    hide FromAll, FromItem, FromFields, Joined, Rest;
    JoinedRest(fields, i, its, vals, rest);
  }

  /** A field tagged "tail" takes the rest of the list. */
  method DecodeSpread(s: Stream, fields: seq<FieldS>, i: nat, vals: seq<Value>, ghost input1: seq<u8>, ghost stack1: seq<u64>,
                      ghost remaining1: u64, ghost its: seq<Item>, ghost rest: Option<seq<Item>>)
    returns (r: Result<seq<Value>>, ghost its': seq<Item>)
    requires i < |fields| && Spread(fields[i]) && Consistent(fields) && SupportedField(fields[i])
    requires stack1 != [] && |input1| < TWO64 && s.Taken(input1, stack1, remaining1, EncAll(its)) && Joined(fields, i, its, vals)
    requires rest.Some? ==>
      Rest(input1, stack1, s.limited, remaining1, its, rest.value) && FromAll(fields[i].schema.elem, rest.value).Some?
    modifies s
    ensures s.limited == old(s.limited)
    ensures r.Ok? ==> FromFields(fields, its') == Some(r.value) && s.Taken(input1, stack1, remaining1, EncAll(its'))
    ensures rest.Some? ==> r.Ok? && |EncAll(its')| == Top(stack1)
    ensures r != Err(EOL)
    decreases fields[i], 9
  {
    hide Charge, Enc, EncAll, FromItem, FromAll, FromFields, Joined;
    var elem := fields[i].schema.elem;
    ghost var done := EncAll(its);
    if rest.Some? {
      RestAlone(input1, stack1, s.limited, remaining1, its, rest.value);
      assert FilledBy(Elements(elem), s.input, s.stack, s.limited, s.remaining);
    }
    hide Rest, FilledBy;
    ghost var input2, stack2, remaining2 := s.input, s.stack, s.remaining;
    ghost var more;
    var x;
    x, more := DecodeElems(s, elem);
    if x.Err? {
      return x, its;
    }
    its' := its + more;
    JoinedSpread(fields, i, its, vals, more, x.value);
    EncAllConcat(its, more);
    TakenTwice(s.limited, input1, stack1, remaining1, done, input2, stack2, remaining2, EncAll(more), s.input, s.stack, s.remaining);
    EndReached(stack1, |done| + |EncAll(more)|);
    return Ok(vals + [SliceV(x.value, false)]), its';
  }

  // ---------- Reading a value ----------

  predicate IsList(t: Schema) {
    t.SliceS? || t.ArrayS? || t.StructS?
  }

  /** The shape of the contents of a type that is written as a list. */
  function ShapeOf(t: Schema): Shape
    requires IsList(t)
  {
    match t
    case SliceS(elem) => Elements(elem)
    case ArrayS(len, elem) => Exactly(len, elem)
    case StructS(fields) => FieldsOf(fields)
  }

  /** A list that is admitted and whose contents have this shape. */
  ghost predicate ListAccepted(sh: Shape, f: Front) {
    exists items :: Admitted(f, List(items)) && FromShape(sh, items).Some?
  }

  /** What entering a list with these contents meets. */
  lemma {:induction false} ListEntered(sh: Shape, f: Front)
    requires ListAccepted(sh, f) && Right(f)
    ensures f.head.Some? && var (k, h, n) := f.head.value;
      k == ListKind && h <= |f.input| && n < TWO64 && (f.limited ==> h <= f.remaining)
      && FilledBy(sh, f.input[h..], Charge(f.stack, h + n) + [n], f.limited, if f.limited then f.remaining - h else f.remaining)
  {
    hide Enc, EncAll, Admitted, FromShape, Right;
    var items :| Admitted(f, List(items)) && FromShape(sh, items).Some?;
    assert |f.input| < TWO64 by { RightShort(f); }
    AdmittedChecks(f, List(items));
    var (_, h, n) := f.head.value;
    var left: u64 := if f.limited then f.remaining - h else f.remaining;
    EncAllNone();
    assert EncAll([]) + EncAll(items) == EncAll(items);
    assert Rest(f.input[h..], Charge(f.stack, h + n) + [n], f.limited, left, [], items);
  }

  lemma {:induction false} RightShort(f: Front)
    requires Right(f)
    ensures |f.input| < TWO64 && Behind(f) >= 0
  {
    hide ParseHead;
  }

  /** A list that has been read to its end was in front. */
  lemma {:induction false} ListLeft(sh: Shape, f: Front, items: seq<Item>)
    requires Right(f) && f.head.Some? && FromShape(sh, items).Some?
    requires var (k, h, n) := f.head.value;
      k == ListKind && h <= |f.input| && Starts(f.input[h..], EncAll(items)) && |EncAll(items)| == n && (f.limited ==> h + n <= f.remaining)
    ensures var (_, h, n) := f.head.value;
      && Starts(f.whole, Enc(List(items))) && |Enc(List(items))| == Behind(f) + h + n
      && h + n <= |f.input| && f.input[h..][n..] == f.input[h + n..]
    ensures Admitted(f, List(items)) && ListAccepted(sh, f)
  {
    hide Enc, EncAll, Admitted, FromShape, Right;
    ListBack(f, items);
  }

  /** decodeListSlice, decodeListArray and the struct decoder: a list with contents of some shape. */
  method DecodeList(s: Stream, t: Schema) returns (r: Result<seq<Value>>, ghost its: seq<Item>)
    requires s.HeadRight() && |s.Whole()| < TWO64 && Supported(t) && IsList(t)
    modifies s
    ensures s.limited == old(s.limited)
    ensures r.Ok? ==> FromShape(ShapeOf(t), its) == Some(r.value)
    ensures r.Ok? ==> TakenFrom(s, old(FrontOf(s)), Enc(List(its))) && Admitted(old(FrontOf(s)), List(its))
    ensures r.Ok? <==> ListAccepted(ShapeOf(t), old(FrontOf(s)))
    ensures old(s.kind) == None ==> (r == Err(EOL) <==> old(AtEnd(s.stack))) && (r == Err(EOL) ==> unchanged(s))
    decreases t, 6
  {
    hide Charge, Enc, EncAll, ParseHead, FilledBy, ListAccepted, FromAll, FromFields, Supported, Admitted, KindError, HeadBytes;
    hide HeadFits, Fits, NothingLeft, TakenFrom, FromShape, Right;
    ghost var f := FrontOf(s);
    FrontRight(s);
    if ListAccepted(ShapeOf(t), f) {
      ListEntered(ShapeOf(t), f);
    }
    its := [];
    var size := s.List();
    match size {
      case Err(e) =>
        return Err(e), [];
      case Ok(n) =>
        r, its := DecodeContents(s, t, n, f);
    }
  }

  /** The contents of a list whose header has been read, and its end. */
  method DecodeContents(s: Stream, t: Schema, size: u64, ghost f: Front) returns (r: Result<seq<Value>>, ghost its: seq<Item>)
    requires Right(f) && f.head.Some? && Supported(t) && IsList(t) && s.kind == None && s.limited == f.limited
    requires var (k, h, n) := f.head.value;
      && k == ListKind && n == size && h <= |f.input| && s.input == f.input[h..] && s.stack == Charge(f.stack, h + n) + [size]
      && s.remaining == f.remaining - if f.limited then h else 0
    modifies s
    ensures s.limited == old(s.limited)
    ensures r.Ok? ==> FromShape(ShapeOf(t), its) == Some(r.value)
    ensures r.Ok? ==> TakenFrom(s, f, Enc(List(its))) && Admitted(f, List(its))
    ensures r.Ok? <==> ListAccepted(ShapeOf(t), f)
    ensures r != Err(EOL)
    decreases t, 5
  {
    hide Charge, Enc, EncAll, ParseHead, FilledBy, ListAccepted, FromShape, Supported, Admitted, Fits, NothingLeft;
    RightShort(f);
    hide Right;
    if ListAccepted(ShapeOf(t), f) {
      ListEntered(ShapeOf(t), f);
    }
    ghost var h, input1, stack1, remaining1 := f.head.value.1, s.input, s.stack, s.remaining;
    hide Moved;
    r, its := DecodeItems(s, t, size);
    if r.Err? {
      return;
    }
    ghost var n := |EncAll(its)|;
    MovedBy(s.limited, input1, stack1, remaining1, n, s.input, s.stack, s.remaining);
    ghost var stack2 := s.stack;
    if n == size {
      ListDone(s.limited, f.input, f.stack, f.remaining, h, size, input1, stack1, remaining1, s.input, stack2, s.remaining);
    }
    var end := s.ListEnd();
    match end {
      case Err(e) =>
        return Err(e), its;
      case Ok(_) =>
        EndReached(stack1, n);
        ListLeft(ShapeOf(t), f, its);
        assert s.Consumed(f.input, f.stack, f.remaining, h + size) && |Enc(List(its))| - Behind(f) == h + size;
    }
  }

  /** A list that has been read to its end is left: n bytes behind a header of h bytes. */
  lemma {:induction false} ListDone(limited: bool, i0: seq<u8>, s0: seq<u64>, r0: u64, h: nat, n: u64, i1: seq<u8>, s1: seq<u64>, r1: u64,
                                    i2: seq<u8>, s2: seq<u64>, r2: u64)
    requires h <= |i0| && i1 == i0[h..] && s1 == Charge(s0, h + n) + [n] && r1 as int == r0 as int - (if limited then h else 0)
    requires Moved(limited, i1, s1, r1, n, i2, s2, r2)
    ensures AtEnd(s2) && Moved(limited, i0, s0, r0, h + n, i2, s2[..|s2| - 1], r2)
  {
    ChargeLast(Charge(s0, h + n), n);
    hide Charge;
  }

  /** The contents of a list whose header has been read. */
  method DecodeItems(s: Stream, t: Schema, size: u64) returns (r: Result<seq<Value>>, ghost its: seq<Item>)
    requires s.kind == None && s.stack != [] && Top(s.stack) == size && |s.input| < TWO64 && Supported(t) && IsList(t)
    modifies s
    ensures s.limited == old(s.limited)
    ensures r.Ok? ==> FromShape(ShapeOf(t), its) == Some(r.value)
    ensures r.Ok? ==> s.Taken(old(s.input), old(s.stack), old(s.remaining), EncAll(its))
    ensures old(FilledBy(ShapeOf(t), s.input, s.stack, s.limited, s.remaining)) ==> r.Ok? && |EncAll(its)| == size
    ensures r != Err(EOL)
    decreases t, 4
  {
    hide Charge, Enc, EncAll, FilledBy, FromAll, FromFields;
    match t {
      case SliceS(elem) =>
        if size == 0 {
          EncAllNone();
          ChargeTwice(s.stack, 0, 0);
          FromAllEmpty(elem);
          return Ok([]), [];
        }
        r, its := DecodeElems(s, elem);
      case ArrayS(len, elem) =>
        r, its := DecodeArrayElems(s, len, elem);
      case StructS(fields) =>
        r, its := DecodeFields(s, fields);
    }
  }

  lemma {:induction false} AcceptedList(t: Schema, f: Front)
    requires Accepted(t, f) && IsList(t)
    ensures ListAccepted(ShapeOf(t), f)
  {
    hide Admitted, FromAll, FromFields;
    var item :| Admitted(f, item) && FromItem(t, item).Some?;
    assert item.List? && item == List(item.items);
  }

  lemma {:induction false} FromList(t: Schema, items: seq<Item>)
    requires IsList(t) && FromShape(ShapeOf(t), items).Some?
    ensures FromItem(t, List(items)) == Some(Listed(t, FromShape(ShapeOf(t), items).value))
  {
    hide FromAll, FromFields;
  }

  function Listed(t: Schema, vals: seq<Value>): Value {
    if t.SliceS? then SliceV(vals, false) else if t.ArrayS? then ArrayV(vals) else StructV(vals, false)
  }

  /** The decoder of a type. It succeeds exactly if a value is admitted that stands for one of this type,
      and returns that one. */
  method DecodeValue(s: Stream, t: Schema) returns (r: Result<Value>, ghost item: Item)
    requires s.HeadRight() && |s.Whole()| < TWO64 && Supported(t)
    modifies s
    ensures s.limited == old(s.limited)
    ensures r.Ok? ==> FromItem(t, item) == Some(r.value) && TakenFrom(s, old(FrontOf(s)), Enc(item))
    ensures r.Ok? ==> Admitted(old(FrontOf(s)), item)
    ensures r.Ok? <==> Accepted(t, old(FrontOf(s)))
    ensures old(s.kind) == None ==> (r == Err(EOL) <==> old(AtEnd(s.stack))) && (r == Err(EOL) ==> unchanged(s))
    decreases t, 7
  {
    hide Enc, Accepted, Admitted, ListAccepted, TakenFrom, FrontOf, FromShape, Pow2, AtEnd, FromItem, IntBytes, Listed;
    ghost var f := FrontOf(s);
    match t {
      case UintS(bits) =>
        var n := DecodeUint(s, bits);
        match n {
          case Err(e) => return Err(e), Str([]);
          case Ok(x) =>
            FromUint(x, bits);
            return Ok(UintV(x)), UintItem(x);
        }
      case BoolS =>
        var b := DecodeBool(s);
        match b {
          case Err(e) => return Err(e), Str([]);
          case Ok(x) =>
            FromBool(x);
            return Ok(BoolV(x)), UintItem(if x then 1 else 0);
        }
      case BytesS =>
        var b := DecodeString(s);
        match b {
          case Err(e) => return Err(e), Str([]);
          case Ok(x) =>
            FromString(x);
            return Ok(BytesV(x, false)), Str(x);
        }
      case ByteArrayS(len) =>
        var b := DecodeByteArray(s, len);
        match b {
          case Err(e) => return Err(e), Str([]);
          case Ok(x) =>
            FromString(x);
            return Ok(ByteArrayV(x)), Str(x);
        }
      case _ =>
        if Accepted(t, f) {
          AcceptedList(t, f);
        }
        var b;
        ghost var its;
        b, its := DecodeList(s, t);
        match b {
          case Err(e) => return Err(e), Str([]);
          case Ok(vals) =>
            FromList(t, its);
            AcceptedBy(t, f, List(its));
            return Ok(Listed(t, vals)), List(its);
        }
    }
  }

  // ---------- Both ways ----------

  /** DecodeBytes into a type: the input is exactly one value that stands for one of the type. */
  method DecodeTyped(b: seq<u8>, t: Schema) returns (r: Result<Value>)
    requires |b| < MAXINT && Supported(t)
    ensures forall item :: b == Enc(item) ==> if r.Ok? then FromItem(t, item) == Some(r.value) else FromItem(t, item) == None
    ensures r.Ok? ==> exists item :: b == Enc(item)
  {
    hide Enc, FromItem, Supported, Admitted, FrontAt, HeadFits;
    var s := new Stream(b, |b|, None);
    FrontRight(s);
    forall v | b == Enc(v) ensures Admitted(FrontAt(b, [], s.limited, s.remaining), v) {
      AheadAdmitted(b, [], s.limited, s.remaining, v);
    }
    ghost var item;
    r, item := DecodeValue(s, t);
    forall v | b == Enc(v) && r.Ok? ensures v == item {
      SameValue(b, v, item);
    }
    if r.Ok? && |s.input| > 0 {
      return Err(MoreThanOneValue);
    }
  }

  method EncodeTyped(t: Schema, v: Value) returns (out: seq<u8>)
    requires Typed(t, v) && |Enc(ToItem(t, v))| < MAXINT
    ensures out == Enc(ToItem(t, v))
  {
    hide Enc, Holds, Typed, ToItem;
    var buf := new EncBuffer();
    WriteValue(buf, t, v);
    assert buf.frames[0].content == [] + Enc(ToItem(t, v));
    out := buf.MakeBytes();
  }

  /** Writing a value and reading it back gives the same value, up to nil slices, unless a struct in it
      drops just a byte slice tagged "tail". Then reading fails. */
  method RestoreTyped(t: Schema, v: Value) returns (r: Result<Value>)
    requires Supported(t) && Typed(t, v) && |Enc(ToItem(t, v))| < MAXINT
    ensures r.Ok? <==> Restorable(t, v)
    ensures r.Ok? ==> Same(v, r.value)
  {
    hide Enc, ToItem, FromItem, Supported, Typed, Restorable, Same;
    var b := EncodeTyped(t, v);
    r := DecodeTyped(b, t);
    RoundTrip(t, v);
    assert b == Enc(ToItem(t, v));
  }
}
