/** What the trees of structs mean, field by field, and what becomes of a tree that is read and written again
    (encode.go: makeStructWriter, decode.go: makeStructDecoder and zeroFields). */
module RlpMeaning {
  import opened Machine
  import opened RlpSpec
  import opened Bytes
  import opened RlpStream
  import opened RlpDecode
  import opened RlpSchema

  // ---------- Equal in what is encoded ----------

  /** The value with its nil slices made empty ones and its fields that are not encoded made zero. */
  function Plain(v: Value): Value {
    match v
    case BytesV(b, _) => BytesV(b, false)
    case SliceV(vals, _) => SliceV(seq(|vals|, i requires 0 <= i < |vals| => Plain(vals[i])), false)
    case ArrayV(vals) => ArrayV(seq(|vals|, i requires 0 <= i < |vals| => Plain(vals[i])))
    case StructV(vals, _) => StructV(seq(|vals|, i requires 0 <= i < |vals| => Plain(vals[i])), false)
    case _ => v
  }

  /** Values are taken for the same exactly if they differ in nothing but that. */
  lemma {:induction false} SameMeaning(v: Value, w: Value)
    ensures Same(v, w) <==> Plain(v) == Plain(w)
    decreases v, 0
  {
    match (v, w)
    case (SliceV(a, _), SliceV(b, _)) => SameParts(a, b);
    case (ArrayV(a), ArrayV(b)) => SameParts(a, b);
    case (StructV(a, _), StructV(b, _)) => SameParts(a, b);
    case _ =>
  }

  lemma {:induction false} SameParts(a: seq<Value>, b: seq<Value>)
    ensures SameAll(a, b) <==> seq(|a|, i requires 0 <= i < |a| => Plain(a[i])) == seq(|b|, i requires 0 <= i < |b| => Plain(b[i]))
    decreases a, 1
  {
    var x, y := seq(|a|, i requires 0 <= i < |a| => Plain(a[i])), seq(|b|, i requires 0 <= i < |b| => Plain(b[i]));
    if |a| == |b| {
      forall i | 0 <= i < |a| ensures Same(a[i], b[i]) <==> x[i] == y[i] {
        SameMeaning(a[i], b[i]);
      }
    } else {
      assert |x| != |y|;
    }
    hide Same, Plain;
  }

  // ---------- Zero values ----------

  lemma {:induction false} ZeroTyped(s: Schema)
    requires Supported(s)
    ensures Typed(s, Zero(s)) && IsZero(Zero(s))
    decreases s, 0
  {
    hide Pow2, Consistent;
    match s
    case ArrayS(_, elem) =>
      ZeroTyped(elem);
    case StructS(fields) =>
      ZerosTyped(fields);
      ZerosAreZero(fields, Zeros(fields));
    case _ =>
  }

  lemma {:induction false} ZerosTyped(fields: seq<FieldS>)
    requires forall i :: 0 <= i < |fields| ==> SupportedField(fields[i])
    ensures TypedFields(fields, Zeros(fields))
    decreases fields, 1
  {
    if fields != [] {
      ZeroFieldTyped(fields[0]);
      ZerosTyped(fields[1..]);
      hide TypedField, SupportedField;
      var z := Zeros(fields);
      assert z == [ZeroField(fields[0])] + Zeros(fields[1..]);
      assert forall i :: 0 < i < |fields| ==> z[i] == Zeros(fields[1..])[i - 1] && fields[i] == fields[1..][i - 1];
    }
  }

  lemma {:induction false} ZeroFieldTyped(f: FieldS)
    requires SupportedField(f)
    ensures TypedField(f, ZeroField(f)) && IsZero(ZeroField(f))
    decreases f, 0
  {
    ZeroTyped(f.schema);
  }

  // ---------- Reading ----------

  /** How many fields are one item each: all of them, but not a slice at the end that is tagged "tail". */
  function Single(fields: seq<FieldS>): (m: nat)
    ensures m <= |fields|
  {
    var n := |fields|;
    if n > 0 && fields[n - 1].tail && fields[n - 1].schema.SliceS? then n - 1 else n
  }

  /** The items stand for the values of the fields. There is one item for each field. If there are fewer, the
      first field without one is optional, and from there on all fields are zero. If the last field is a slice
      tagged "tail", the items behind those of the other fields are its elements. */
  ghost predicate StandFor(fields: seq<FieldS>, items: seq<Item>, vals: seq<Value>) {
    var m := Single(fields);
    && |vals| == |fields|
    && (forall i :: 0 <= i < m && i < |items| ==> FromItem(fields[i].schema, items[i]) == Some(vals[i]))
    && if |items| < m then fields[|items|].optional && forall i :: |items| <= i < |fields| ==> ZeroOf(fields[i].schema, vals[i])
       else if m < |fields| then
         vals[m].SliceV? && !vals[m].isNil && FromAll(fields[m].schema.elem, items[m..]) == Some(vals[m].vals)
       else |items| == m
  }

  ghost predicate ZeroOf(s: Schema, v: Value) {
    Typed(s, v) && IsZero(v)
  }

  /** The fields are read as what the items stand for. */
  lemma {:induction false} FieldsMeaning(fields: seq<FieldS>, items: seq<Item>, vals: seq<Value>)
    requires Consistent(fields) && forall i :: 0 <= i < |fields| ==> SupportedField(fields[i])
    ensures FromFields(fields, items) == Some(vals) <==> StandFor(fields, items, vals)
    decreases fields
  {
    if fields == [] {
    } else if Spread(fields[0]) {
      SpreadMeaning(fields, items, vals);
    } else if items == [] {
      NoneMeaning(fields, vals);
    } else if vals != [] {
      FieldsConsistent(fields);
      FieldsMeaning(fields[1..], items[1..], vals[1..]);
      FirstMeaning(fields, items, vals);
    }
  }

  lemma {:induction false} SpreadMeaning(fields: seq<FieldS>, items: seq<Item>, vals: seq<Value>)
    requires Consistent(fields) && fields != [] && Spread(fields[0])
    ensures FromFields(fields, items) == Some(vals) <==> StandFor(fields, items, vals)
  {
    hide FromItem, FromAll;
    assert |fields| == 1 && fields[1..] == [] && FromFields(fields[1..], []) == Some([]);
    assert items[0..] == items;
    var r := FromAll(fields[0].schema.elem, items);
    assert FromFields(fields, items) == if r.Some? then Some([SliceV(r.value, false)] + []) else None;
    assert r.Some? ==> [SliceV(r.value, false)] + [] == [SliceV(r.value, false)];
    assert |vals| == 1 ==> vals == [vals[0]];
  }

  lemma {:induction false} NoneMeaning(fields: seq<FieldS>, vals: seq<Value>)
    requires Consistent(fields) && fields != [] && !Spread(fields[0]) && forall i :: 0 <= i < |fields| ==> SupportedField(fields[i])
    ensures FromFields(fields, []) == Some(vals) <==> StandFor(fields, [], vals)
  {
    hide FromItem, FromAll, Zeros, Consistent;
    assert FromFields(fields, []) == if fields[0].optional then Some(Zeros(fields)) else None;
    ZerosTyped(fields);
    ZerosAreZero(fields, Zeros(fields));
    if StandFor(fields, [], vals) {
      assert forall i :: 0 <= i < |fields| ==> ZeroOf(fields[i].schema, vals[i]);
      ZerosAreZero(fields, vals);
    }
  }

  lemma {:induction false} FirstMeaning(fields: seq<FieldS>, items: seq<Item>, vals: seq<Value>)
    requires Consistent(fields) && fields != [] && !Spread(fields[0]) && items != [] && vals != []
    requires FromFields(fields[1..], items[1..]) == Some(vals[1..]) <==> StandFor(fields[1..], items[1..], vals[1..])
    ensures FromFields(fields, items) == Some(vals) <==> StandFor(fields, items, vals)
  {
    hide FromItem, FromAll, Zeros;
    StandStep(fields, items, vals);
    hide StandFor, Consistent;
    var (first, others) := (FromField(fields[0], items[0]), FromFields(fields[1..], items[1..]));
    assert FromFields(fields, items) == if first.Some? && others.Some? then Some([first.value] + others.value) else None;
    hide FromFields;
    assert vals == [vals[0]] + vals[1..];
    assert first.Some? && others.Some? ==>
      ([first.value] + others.value)[0] == first.value && ([first.value] + others.value)[1..] == others.value;
  }

  lemma {:induction false} StandStep(fields: seq<FieldS>, items: seq<Item>, vals: seq<Value>)
    requires Consistent(fields) && fields != [] && !Spread(fields[0]) && items != [] && vals != []
    ensures StandFor(fields, items, vals) <==>
      FromItem(fields[0].schema, items[0]) == Some(vals[0]) && StandFor(fields[1..], items[1..], vals[1..])
  {
    hide FromItem, FromAll, ZeroOf;
    var (fs, its, vs) := (fields[1..], items[1..], vals[1..]);
    assert Single(fields) == Single(fs) + 1;
    assert forall i :: 0 <= i < |fs| ==> fs[i] == fields[i + 1];
    assert forall i :: 0 <= i < |its| ==> its[i] == items[i + 1];
    assert forall i :: 0 <= i < |vs| ==> vs[i] == vals[i + 1];
    assert |its| >= Single(fs) ==> its[Single(fs)..] == items[Single(fields)..];
    if StandFor(fs, its, vs) && FromItem(fields[0].schema, items[0]) == Some(vals[0]) {
      forall i | 0 <= i < Single(fields) && i < |items| ensures FromItem(fields[i].schema, items[i]) == Some(vals[i]) {
        assert i > 0 ==> FromItem(fs[i - 1].schema, its[i - 1]) == Some(vs[i - 1]);
      }
      if |items| < Single(fields) {
        forall i | |items| <= i < |fields| ensures ZeroOf(fields[i].schema, vals[i]) {
          assert ZeroOf(fs[i - 1].schema, vs[i - 1]);
        }
      }
    }
  }

  /** The elements of a slice or an array are read one by one. */
  lemma {:induction false} AllMeaning(elem: Schema, items: seq<Item>, vals: seq<Value>)
    ensures FromAll(elem, items) == Some(vals) <==>
      |vals| == |items| && forall i :: 0 <= i < |items| ==> FromItem(elem, items[i]) == Some(vals[i])
    decreases |items|
  {
    hide FromItem;
    if items != [] && |vals| == |items| {
      var n := |items| - 1;
      AllMeaning(elem, items[..n], vals[..n]);
      assert items == items[..n] + [items[n]] && vals == vals[..n] + [vals[n]];
      FromAllStep(elem, items[..n], items[n]);
    }
  }

  /** What an item stands for, type by type: the shortest form of a number that fits, the number 0 or 1, any
      string, a string of the length of the array, and a list of as many elements as there have to be. */
  lemma {:induction false} Meaning(s: Schema, item: Item, v: Value)
    requires s.UintS? ==> UintBits(s.bits)
    ensures FromItem(s, item) == Some(v) <==>
      match s
      case UintS(bits) =>
        item.Str? && 8 * |item.bytes| <= bits && (item.bytes != [] ==> item.bytes[0] != 0) && v == UintV(BigEndian(item.bytes))
      case BoolS => (item == Str([]) && v == BoolV(false)) || (item == Str([0x01]) && v == BoolV(true))
      case BytesS => item.Str? && v == BytesV(item.bytes, false)
      case ByteArrayS(len) => item.Str? && |item.bytes| == len && v == ByteArrayV(item.bytes)
      case SliceS(elem) => item.List? && v.SliceV? && !v.isNil && ElementsOf(elem, item.items, v.vals)
      case ArrayS(len, elem) => item.List? && |item.items| == len && v.ArrayV? && ElementsOf(elem, item.items, v.vals)
      case StructS(fields) => item.List? && v.StructV? && !v.hidden && FromFields(fields, item.items) == Some(v.vals)
  {
    hide Pow2, BigEndian, FromAll, FromFields, IntBytes;
    match s
    case UintS(bits) =>
      if item.Str? {
        UintMeaning(item.bytes);
      }
    case BoolS => BoolMeaning();
    case SliceS(elem) =>
      if item.List? && v.SliceV? {
        AllMeaning(elem, item.items, v.vals);
      }
    case ArrayS(_, elem) =>
      if item.List? && v.ArrayV? {
        AllMeaning(elem, item.items, v.vals);
      }
    case _ =>
  }

  ghost predicate ElementsOf(elem: Schema, items: seq<Item>, vals: seq<Value>) {
    |vals| == |items| && forall i :: 0 <= i < |items| ==> FromItem(elem, items[i]) == Some(vals[i])
  }

  lemma {:induction false} UintMeaning(b: seq<u8>)
    ensures IntBytes(BigEndian(b)) == b <==> (b != [] ==> b[0] != 0)
  {
    hide Pow2, BigEndian, IntBytes;
    if b == [] || b[0] != 0 {
      IntBytesOf(b);
    }
    IntBytesValue(BigEndian(b));
    IntBytesLength(0, 0);
  }

  lemma {:induction false} BoolMeaning()
    ensures UintItem(0) == Str([]) && UintItem(1) == Str([0x01])
  {
    hide Pow2, BigEndian, IntBytes;
    BigEndianNone();
    BigEndianSingle(1);
    IntBytesOf([]);
    IntBytesOf([0x01]);
  }

  // ---------- Writing ----------

  /** The items are what the first n fields are written as: one item each, but the elements of a slice at the
      end that is tagged "tail". */
  ghost predicate WrittenAs(fields: seq<FieldS>, vals: seq<Value>, n: nat, items: seq<Item>)
    requires n <= |fields| == |vals|
  {
    var m := Single(fields);
    && (forall i :: 0 <= i < m && i < n ==> i < |items| && ItemOf(fields[i].schema, vals[i], items[i]))
    && if n <= m then |items| == n else |items| >= m && ItemsOf(fields[m].schema.elem, vals[m], items[m..])
  }

  ghost predicate ItemOf(s: Schema, v: Value, item: Item) {
    Typed(s, v) && item == ToItem(s, v)
  }

  ghost predicate ItemsOf(elem: Schema, v: Value, items: seq<Item>) {
    v.SliceV? && |items| == |v.vals| && forall i :: 0 <= i < |items| ==> ItemOf(elem, v.vals[i], items[i])
  }

  lemma {:induction false} FieldsWritten(fields: seq<FieldS>, vals: seq<Value>, n: nat)
    requires Consistent(fields) && TypedFields(fields, vals) && n <= |fields|
    ensures WrittenAs(fields, vals, n, ToFields(fields, vals, n))
    decreases n
  {
    if n > 0 {
      FieldsTyped(fields, vals);
      FieldsConsistent(fields);
      assert Typed(fields[0].schema, vals[0]);
      FirstWritten(fields, vals, n);
      if !Spread(fields[0]) {
        FieldsWritten(fields[1..], vals[1..], n - 1);
        hide TypedField, TypedFields, ToFields, ItemOf, ItemsOf, Typed, ToItem;
        WrittenStep(fields, vals, n, ToFields(fields, vals, n));
      }
    }
  }

  lemma {:induction false} FirstWritten(fields: seq<FieldS>, vals: seq<Value>, n: nat)
    requires 0 < n <= |fields| && Consistent(fields) && TypedFields(fields, vals)
    requires vals != [] && TypedFields(fields[1..], vals[1..]) && Typed(fields[0].schema, vals[0])
    ensures !Spread(fields[0]) ==>
      ToFields(fields, vals, n) == [ToItem(fields[0].schema, vals[0])] + ToFields(fields[1..], vals[1..], n - 1)
    ensures Spread(fields[0]) ==> WrittenAs(fields, vals, n, ToFields(fields, vals, n))
  {
    hide ToItem, TypedField, TypedFields;
    var rest := ToFields(fields[1..], vals[1..], n - 1);
    assert ToFields(fields, vals, n) == ToField(fields[0], vals[0]) + rest;
    if Spread(fields[0]) {
      var items := ToField(fields[0], vals[0]);
      assert rest == [] && items + [] == items && items[0..] == items;
      SpreadWritten(fields[0].schema.elem, vals[0].vals);
    }
  }

  lemma {:induction false} SpreadWritten(elem: Schema, vals: seq<Value>)
    requires TypedAll(elem, vals)
    ensures forall i :: 0 <= i < |vals| ==> ItemOf(elem, vals[i], ToAll(elem, vals)[i])
  {
    hide Typed, ToItem;
  }

  lemma {:induction false} WrittenStep(fields: seq<FieldS>, vals: seq<Value>, n: nat, items: seq<Item>)
    requires Consistent(fields) && 0 < n <= |fields| == |vals| && !Spread(fields[0]) && items != []
    requires ItemOf(fields[0].schema, vals[0], items[0]) && WrittenAs(fields[1..], vals[1..], n - 1, items[1..])
    ensures WrittenAs(fields, vals, n, items)
  {
    hide ItemOf, ItemsOf;
    var (fs, vs, rest) := (fields[1..], vals[1..], items[1..]);
    assert Single(fields) == Single(fs) + 1;
    forall i | 0 <= i < Single(fields) && i < n ensures i < |items| && ItemOf(fields[i].schema, vals[i], items[i]) {
      assert i > 0 ==> i - 1 < |rest| && ItemOf(fs[i - 1].schema, vs[i - 1], rest[i - 1]);
    }
    assert n > Single(fields) ==> rest[Single(fs)..] == items[Single(fields)..];
  }

  // ---------- Reading and writing again ----------

  /** Written again, a tree that was read comes out the same: no struct in it has, as its last item at or behind
      its first optional field, the zero value of that field. The writer would have left that out. */
  ghost predicate Trimmed(s: Schema, item: Item)
    decreases s, 0
  {
    item.List? ==>
      match s
      case SliceS(elem) => TrimmedAll(elem, item.items)
      case ArrayS(_, elem) => TrimmedAll(elem, item.items)
      case StructS(fields) => TrimmedFields(fields, item.items)
      case _ => true
  }

  ghost predicate TrimmedAll(elem: Schema, items: seq<Item>)
    decreases elem, 1
  {
    forall i :: 0 <= i < |items| ==> Trimmed(elem, items[i])
  }

  ghost predicate TrimmedFields(fields: seq<FieldS>, items: seq<Item>)
    decreases fields, 1
  {
    var m := Single(fields);
    && EndsTrimmed(fields, items)
    && (forall i :: 0 <= i < m && i < |items| ==> TrimmedField(fields[i], items[i]))
    && (m < |fields| && m <= |items| ==> TrimmedSpread(fields[m], items[m..]))
  }

  ghost predicate TrimmedField(f: FieldS, item: Item)
    decreases f, 0
  {
    Trimmed(f.schema, item)
  }

  ghost predicate TrimmedSpread(f: FieldS, items: seq<Item>)
    decreases f, 0
  {
    f.schema.SliceS? ==> TrimmedAll(f.schema.elem, items)
  }

  /** The last item is not the zero value of a field that could have been left out. */
  ghost predicate EndsTrimmed(fields: seq<FieldS>, items: seq<Item>) {
    var c := |items|;
    (exists i :: 0 <= i < c && i < |fields| && fields[i].optional) && (c < Single(fields) || c == Single(fields) == |fields|) ==>
      var last := FromItem(fields[c - 1].schema, items[c - 1]);
      last.Some? && !IsZero(last.value)
  }

  /** Reading a tree gives a value of the type, and writing it gives the tree again exactly if it is trimmed. */
  lemma {:induction false} Reencode(s: Schema, item: Item)
    requires Supported(s) && FromItem(s, item).Some?
    ensures var v := FromItem(s, item).value;
      Typed(s, v) && (ToItem(s, v) == item <==> Trimmed(s, item))
    decreases s, 0
  {
    hide Pow2, IntBytes, BigEndian, ByteCount, Consistent, TypedAll, TypedFields, ToAll, ToFields, FromAll, FromFields, TrimmedAll,
      TrimmedFields, Kept;
    match s
    case UintS(bits) => IsUintItem(item, bits);
    case SliceS(elem) => ReencodeAll(elem, item.items);
    case ArrayS(_, elem) => ReencodeAll(elem, item.items);
    case StructS(fields) => ReencodeFields(fields, item.items);
    case _ =>
  }

  lemma {:induction false} ReencodeAll(elem: Schema, items: seq<Item>)
    requires Supported(elem) && FromAll(elem, items).Some?
    ensures var vals := FromAll(elem, items).value;
      TypedAll(elem, vals) && (ToAll(elem, vals) == items <==> TrimmedAll(elem, items))
    decreases elem, 1
  {
    var vals := FromAll(elem, items).value;
    AllMeaning(elem, items, vals);
    forall i | 0 <= i < |items| ensures ElementAgain(elem, vals[i], items[i]) {
      Reencode(elem, items[i]);
    }
    hide FromAll, FromItem, Supported;
    ElementsAgain(elem, items, vals);
  }

  ghost predicate ElementAgain(elem: Schema, v: Value, item: Item) {
    Typed(elem, v) && (ToItem(elem, v) == item <==> Trimmed(elem, item))
  }

  lemma {:induction false} ElementsAgain(elem: Schema, items: seq<Item>, vals: seq<Value>)
    requires |vals| == |items| && forall i :: 0 <= i < |items| ==> ElementAgain(elem, vals[i], items[i])
    ensures TypedAll(elem, vals) && (ToAll(elem, vals) == items <==> TrimmedAll(elem, items))
  {
    hide Typed, ToItem, Trimmed;
    assert TypedAll(elem, vals);
    var again := ToAll(elem, vals);
    assert forall i :: 0 <= i < |vals| ==> ElementAgain(elem, vals[i], items[i]) && again[i] == ToItem(elem, vals[i]);
  }

  lemma {:induction false} ReencodeFields(fields: seq<FieldS>, items: seq<Item>)
    requires Consistent(fields) && (forall i :: 0 <= i < |fields| ==> SupportedField(fields[i])) && FromFields(fields, items).Some?
    ensures var vals := FromFields(fields, items).value;
      TypedFields(fields, vals) && (ToFields(fields, vals, Kept(fields, vals, |fields|)) == items <==> TrimmedFields(fields, items))
    decreases fields, 1
  {
    var vals, m := FromFields(fields, items).value, Single(fields);
    FieldsMeaning(fields, items, vals);
    forall i | 0 <= i < m && i < |items| ensures FieldAgain(fields[i], vals[i], items[i]) {
      ReencodeField(fields[i], items[i]);
    }
    if m < |fields| && m <= |items| {
      ReencodeSpread(fields[m], items[m..]);
    }
    hide FromFields, TypedFields, ToFields, Trimmed, TrimmedAll, Supported, Typed, TypedAll, FromItem, FromAll, ToAll, ToItem, Kept,
      FieldAgain, SpreadAgain;
    AgainTyped(fields, items, vals);
    var k := Kept(fields, vals, |fields|);
    FieldsWritten(fields, vals, k);
    KeptCount(fields, items, vals);
    SameItems(fields, items, vals, k, ToFields(fields, vals, k));
  }

  /** v is of the type of the field, and writes as the item exactly if that is trimmed. */
  ghost predicate FieldAgain(f: FieldS, v: Value, item: Item) {
    TypedField(f, v) && Typed(f.schema, v) && (ToItem(f.schema, v) == item <==> TrimmedField(f, item))
  }

  ghost predicate SpreadAgain(f: FieldS, v: Value, items: seq<Item>) {
    && f.schema.SliceS? && v.SliceV? && TypedField(f, v) && |v.vals| == |items|
    && (ItemsOf(f.schema.elem, v, items) <==> TrimmedSpread(f, items))
  }

  lemma {:induction false} ReencodeField(f: FieldS, item: Item)
    requires SupportedField(f) && FromItem(f.schema, item).Some?
    ensures FieldAgain(f, FromItem(f.schema, item).value, item)
    decreases f, 0
  {
    Reencode(f.schema, item);
  }

  lemma {:induction false} ReencodeSpread(f: FieldS, items: seq<Item>)
    requires SupportedField(f) && f.schema.SliceS? && FromAll(f.schema.elem, items).Some?
    ensures SpreadAgain(f, SliceV(FromAll(f.schema.elem, items).value, false), items)
    decreases f, 0
  {
    var elem := f.schema.elem;
    ReencodeAll(elem, items);
    var vals := FromAll(elem, items).value;
    hide FromAll, Typed, ToItem, Trimmed;
    assert TypedAll(elem, vals) && |vals| == |items|;
    assert Typed(f.schema, SliceV(vals, false));
    SpreadWritten(elem, vals);
    assert ToAll(elem, vals) == items <==> forall i :: 0 <= i < |items| ==> ToAll(elem, vals)[i] == items[i];
  }

  /** Each item that was read is that of its field, or one of the elements at the end. */
  ghost predicate ReadAgain(fields: seq<FieldS>, items: seq<Item>, vals: seq<Value>)
    requires |vals| == |fields|
  {
    var m := Single(fields);
    && (forall i :: 0 <= i < m && i < |items| ==> FieldAgain(fields[i], vals[i], items[i]))
    && (m < |fields| && m <= |items| ==> SpreadAgain(fields[m], vals[m], items[m..]))
  }

  lemma {:induction false} AgainTyped(fields: seq<FieldS>, items: seq<Item>, vals: seq<Value>)
    requires StandFor(fields, items, vals) && ReadAgain(fields, items, vals)
    ensures TypedFields(fields, vals)
  {
    hide Typed, FromItem, FromAll, ToItem, TrimmedField, TrimmedSpread, ItemsOf, IsZero;
    var m := Single(fields);
    forall i | 0 <= i < |fields| ensures TypedField(fields[i], vals[i]) {
      if i < m && i < |items| {
        assert FieldAgain(fields[i], vals[i], items[i]);
      } else if |items| < m {
        assert ZeroOf(fields[i].schema, vals[i]);
      }
    }
  }

  /** How many fields the writer keeps of those that were read. */
  lemma {:induction false} KeptCount(fields: seq<FieldS>, items: seq<Item>, vals: seq<Value>)
    requires StandFor(fields, items, vals)
    ensures var (k, m) := (Kept(fields, vals, |fields|), Single(fields));
      if m < |fields| && m <= |items| then k == |fields|
      else k <= |items| <= m && (k == |items| <==> EndsTrimmed(fields, items))
  {
    hide Kept, FromItem, FromAll, Typed;
    var (k, m, c) := (Kept(fields, vals, |fields|), Single(fields), |items|);
    if m < |fields| && m <= c {
      assert !IsZero(vals[m]);
    } else {
      assert c < m ==> forall i :: c <= i < |fields| ==> ZeroOf(fields[i].schema, vals[i]);
      if exists i :: 0 <= i < c && i < |fields| && fields[i].optional {
        assert FromItem(fields[c - 1].schema, items[c - 1]) == Some(vals[c - 1]);
      }
      hide StandFor, IsZero;
    }
  }

  lemma {:induction false} SameItems(fields: seq<FieldS>, items: seq<Item>, vals: seq<Value>, k: nat, out: seq<Item>)
    requires k <= |fields| == |vals| && WrittenAs(fields, vals, k, out) && ReadAgain(fields, items, vals)
    requires if Single(fields) < |fields| && Single(fields) <= |items| then k == |fields|
             else k <= |items| <= Single(fields) && (k == |items| <==> EndsTrimmed(fields, items))
    ensures out == items <==> TrimmedFields(fields, items)
  {
  }
}
