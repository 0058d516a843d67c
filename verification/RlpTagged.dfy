/** Structs from their tagged fields to a round trip (typecache.go: structFields, then the writer and the
    decoder of the struct). */
module RlpTagged {
  import opened Machine
  import Bits
  import opened RlpSpec
  import opened RlpStream
  import opened RlpDecode
  import opened RlpSchema
  import opened RlpFields
  import opened RlpEncode
  import RlpStruct

  /** Fields as reflection lists them: numbered in order. */
  predicate Numbered(all: seq<Field>) {
    forall i :: 0 <= i < |all| ==> all[i].index == i
  }

  /** The fields that ProcessFields accepts. */
  predicate FieldsOk(all: seq<Field>) {
    AllTagsOk(all, LastPublic(all)) && MissingAtEnd(Included(all))
  }

  /** The type that the encoded fields make up. */
  function StructOf(all: seq<Field>): Schema {
    StructS(FieldSchemas(Included(all)))
  }

  lemma {:induction false} IndexInRange(all: seq<Field>)
    requires Numbered(all)
    ensures forall i :: 0 <= i < |Included(all)| ==> Included(all)[i].field.index < |all|
  {
    forall i | 0 <= i < |Included(all)| ensures Included(all)[i].field.index < |all| {
      var k := Origin(all, i);
    }
  }

  /** The values of the encoded fields, out of those of all fields. */
  function Encoded(all: seq<Field>, vals: seq<Value>): (v: seq<Value>)
    requires Numbered(all) && |vals| == |all|
    ensures |v| == |Included(all)|
    ensures forall i :: 0 <= i < |v| ==> var k := Included(all)[i].field.index; k < |vals| && v[i] == vals[k]
  {
    IndexInRange(all);
    var es := Included(all);
    seq(|es|, i requires 0 <= i < |es| => vals[es[i].field.index])
  }

  /** The encoded fields have types of the codec and values of these types. */
  ghost predicate Codable(all: seq<Field>, vals: seq<Value>)
    requires Numbered(all) && |vals| == |all|
  {
    forall i :: 0 <= i < |Included(all)| ==> CodableField(Included(all)[i].field, Encoded(all, vals)[i])
  }

  ghost predicate CodableField(f: Field, v: Value) {
    !f.pointer && Supported(f.schema) && Typed(f.schema, v)
  }

  /** What ProcessFields accepts makes up a type that has a writer and a decoder. */
  lemma {:induction false} AcceptedTyped(all: seq<Field>, vals: seq<Value>, hidden: bool)
    requires Numbered(all) && |vals| == |all| && FieldsOk(all) && Codable(all, vals)
    ensures Supported(StructOf(all)) && Typed(StructOf(all), StructV(Encoded(all, vals), hidden))
  {
    AcceptedConsistent(all);
    hide AllTagsOk, MissingAtEnd, LastPublic, Included, Consistent;
    var fs, v := FieldSchemas(Included(all)), Encoded(all, vals);
    forall i | 0 <= i < |fs| ensures SupportedField(fs[i]) && TypedField(fs[i], v[i]) {
      assert CodableField(Included(all)[i].field, v[i]);
    }
  }

  /** A struct is given a writer and a decoder exactly if its tags are consistent. Then what was written is
      read as the same encoded fields, up to nil slices, exactly if no struct in it drops just a byte slice
      tagged "tail". */
  method RestoreStruct(all: seq<Field>, vals: seq<Value>, hidden: bool) returns (r: Option<Result<Value>>)
    requires Numbered(all) && |vals| == |all| && Codable(all, vals)
    requires Typed(StructOf(all), StructV(Encoded(all, vals), hidden)) ==> |Enc(ToItem(StructOf(all), StructV(Encoded(all, vals), hidden)))| < MAXINT
    ensures r.Some? <==> FieldsOk(all)
    ensures FieldsOk(all) ==> Typed(StructOf(all), StructV(Encoded(all, vals), hidden))
    ensures r.Some? ==> (r.value.Ok? <==> Restorable(StructOf(all), StructV(Encoded(all, vals), hidden)))
    ensures r.Some? && r.value.Ok? ==> Same(StructV(Encoded(all, vals), hidden), r.value.value)
  {
    hide Enc, ToItem, Typed, Supported, Restorable, Same, Codable, Included, AllTagsOk, MissingAtEnd;
    var es := ProcessFields(all);
    match es {
      case None =>
        return None;
      case Some(fields) =>
        AcceptedTyped(all, vals, hidden);
        ghost var v := Encoded(all, vals);
        var values := seq(|fields|, i requires 0 <= i < |fields| => Encoded(all, vals)[i]);
        assert values == v;
        var restored := RlpStruct.RestoreTyped(StructS(FieldSchemas(fields)), StructV(values, hidden));
        return Some(restored);
    }
  }

  /** The fields of struct { A uint8 `rlp:"optional"`; B []byte `rlp:"tail"` }. */
  function ByteTailFields(): seq<Field> {
    [Field(0, true, false, UintS(8), [OptionalTag]), Field(1, true, false, BytesS, [TailTag])]
  }

  /** ProcessFields accepts these fields. With the integer set and the byte slice nil, just the integer is
      written, and what is written cannot be read. */
  lemma {:induction false} ByteTailLost()
    ensures var all := ByteTailFields(); var v := StructV([UintV(5), BytesV([], true)], false);
      Numbered(all) && FieldsOk(all) && Typed(StructOf(all), v) && ToItem(StructOf(all), v) == List([UintItem(5)])
      && FromItem(StructOf(all), List([UintItem(5)])) == None
  {
    ByteTailAccepted();
    ByteTailWritten();
    hide Typed, ToItem, FromItem, FieldsOk;
  }

  lemma {:induction false} ByteTailAccepted()
    ensures FieldsOk(ByteTailFields())
    ensures StructOf(ByteTailFields()) == StructS([FieldS(UintS(8), true, false), FieldS(BytesS, false, true)])
  {
    var all := ByteTailFields();
    assert all[..1] == [all[0]] && all[..1][..0] == [];
    assert Included(all[..1]) == [Entry(all[0], TagsOf(all[0], all[0].tag))];
    assert Included(all) == [Entry(all[0], TagsOf(all[0], all[0].tag)), Entry(all[1], TagsOf(all[1], all[1].tag))];
    assert FieldSchemas(Included(all)) == [FieldS(UintS(8), true, false), FieldS(BytesS, false, true)];
  }

  lemma {:induction false} ByteTailWritten()
    ensures var fields := [FieldS(UintS(8), true, false), FieldS(BytesS, false, true)];
      var v := StructV([UintV(5), BytesV([], true)], false);
      Typed(StructS(fields), v) && ToItem(StructS(fields), v) == List([UintItem(5)])
      && FromItem(StructS(fields), List([UintItem(5)])) == None
  {
    var fields := [FieldS(UintS(8), true, false), FieldS(BytesS, false, true)];
    var vals := [UintV(5), BytesV([], true)];
    ByteTailTyped();
    hide Pow2, UintItem, FromItem, UintBits;
    assert FirstOptional(fields) == 0 && Kept(fields, vals, 2) == Kept(fields, vals, 1) == 1;
    assert ToFields(fields, vals, 1) == ToField(fields[0], vals[0]) + ToFields(fields[1..], vals[1..], 0) == [UintItem(5)];
    RoundTrip(StructS(fields), StructV(vals, false));
  }

  lemma {:induction false} ByteTailTyped()
    ensures var fields := [FieldS(UintS(8), true, false), FieldS(BytesS, false, true)];
      var vals := [UintV(5), BytesV([], true)];
      Typed(StructS(fields), StructV(vals, false)) && TypedField(fields[0], vals[0]) && TypedField(fields[1], vals[1])
  {
    var fields := [FieldS(UintS(8), true, false), FieldS(BytesS, false, true)];
    var vals := [UintV(5), BytesV([], true)];
    assert 5 < Pow2(8) by { Bits.Pow2Small(); }
    hide Pow2;
    assert TypedField(fields[0], vals[0]) && TypedField(fields[1], vals[1]);
  }

  // ---------- A field that only its struct's zero test sees ----------

  /** The fields of struct { X uint8; hidden uint64 }. */
  function InnerFields(): seq<Field> {
    [Field(0, true, false, UintS(8), []), Field(1, false, false, UintS(64), [])]
  }

  /** The fields of a struct of such a struct, tagged "optional", and a byte slice tagged "tail". */
  function OuterFields(): seq<Field> {
    [Field(0, true, false, StructOf(InnerFields()), [OptionalTag]), Field(1, true, false, BytesS, [TailTag])]
  }

  /** ProcessFields accepts these fields. With only the unexported field set, the inner struct is not zero, so
      it is kept and just the byte slice is dropped: C2 C1 80 is written, and cannot be read. */
  lemma {:induction false} HiddenTailLost()
    ensures var all := OuterFields(); var v := StructV([StructV([UintV(0)], true), BytesV([], true)], false);
      Numbered(InnerFields()) && FieldsOk(InnerFields()) && Numbered(all) && FieldsOk(all)
      && Typed(StructOf(all), v) && Enc(ToItem(StructOf(all), v)) == [0xC2, 0xC1, 0x80]
      && FromItem(StructOf(all), ToItem(StructOf(all), v)) == None
  {
    HiddenAccepted();
    HiddenWritten();
    HiddenEncoded();
    hide Typed, ToItem, FromItem, FieldsOk, Enc;
  }

  lemma {:induction false} HiddenAccepted()
    ensures FieldsOk(InnerFields()) && StructOf(InnerFields()) == StructS([FieldS(UintS(8), false, false)])
    ensures FieldsOk(OuterFields())
    ensures StructOf(OuterFields())
         == StructS([FieldS(StructS([FieldS(UintS(8), false, false)]), true, false), FieldS(BytesS, false, true)])
  {
    TwoFields(InnerFields());
    TwoFields(OuterFields());
    assert FieldSchemas(Included(InnerFields())) == [FieldS(UintS(8), false, false)];
    assert FieldSchemas(Included(OuterFields())) == [FieldS(StructOf(InnerFields()), true, false), FieldS(BytesS, false, true)];
  }

  lemma {:induction false} TwoFields(all: seq<Field>)
    requires |all| == 2 && all[0].exported && !TagsOf(all[0], all[0].tag).ignored && !TagsOf(all[1], all[1].tag).ignored
    ensures Included(all) == [Entry(all[0], TagsOf(all[0], all[0].tag))]
      + if all[1].exported then [Entry(all[1], TagsOf(all[1], all[1].tag))] else []
  {
    hide TagsOf;
    assert all[..1] == [all[0]] && all[..1][..0] == [];
    assert Included(all[..1]) == [Entry(all[0], TagsOf(all[0], all[0].tag))];
  }

  lemma {:induction false} HiddenWritten()
    ensures var inner := [FieldS(UintS(8), false, false)];
      var fields := [FieldS(StructS(inner), true, false), FieldS(BytesS, false, true)];
      var v := StructV([StructV([UintV(0)], true), BytesV([], true)], false);
      Typed(StructS(fields), v) && ToItem(StructS(fields), v) == List([List([UintItem(0)])])
      && FromItem(StructS(fields), List([List([UintItem(0)])])) == None
  {
    var inner := [FieldS(UintS(8), false, false)];
    var fields := [FieldS(StructS(inner), true, false), FieldS(BytesS, false, true)];
    var vals := [StructV([UintV(0)], true), BytesV([], true)];
    HiddenTyped();
    hide Pow2, UintItem, FromItem, UintBits, Typed;
    InnerItem();
    assert FirstOptional(fields) == 0 && Kept(fields, vals, 2) == Kept(fields, vals, 1) == 1;
    assert ToFields(fields, vals, 1) == ToField(fields[0], vals[0]) + ToFields(fields[1..], vals[1..], 0) == [List([UintItem(0)])];
    RoundTrip(StructS(fields), StructV(vals, false));
  }

  lemma {:induction false} InnerItem()
    requires Typed(StructS([FieldS(UintS(8), false, false)]), StructV([UintV(0)], true))
    ensures ToItem(StructS([FieldS(UintS(8), false, false)]), StructV([UintV(0)], true)) == List([UintItem(0)])
  {
    var inner, vals := [FieldS(UintS(8), false, false)], [UintV(0)];
    hide Pow2, UintItem, UintBits;
    assert inner[1..] == [] && FirstOptional(inner[1..]) == 0 && FirstOptional(inner) == 1 && Kept(inner, vals, 1) == 1;
    assert ToFields(inner, vals, 1) == ToField(inner[0], vals[0]) + ToFields(inner[1..], vals[1..], 0) == [UintItem(0)];
  }

  lemma {:induction false} HiddenTyped()
    ensures var inner := [FieldS(UintS(8), false, false)];
      var fields := [FieldS(StructS(inner), true, false), FieldS(BytesS, false, true)];
      var vals := [StructV([UintV(0)], true), BytesV([], true)];
      Typed(StructS(inner), vals[0]) && Typed(StructS(fields), StructV(vals, false))
      && TypedField(fields[0], vals[0]) && TypedField(fields[1], vals[1])
  {
    var inner := [FieldS(UintS(8), false, false)];
    var fields := [FieldS(StructS(inner), true, false), FieldS(BytesS, false, true)];
    var vals := [StructV([UintV(0)], true), BytesV([], true)];
    assert 0 < Pow2(8) by { Bits.Pow2Small(); }
    hide Pow2;
    assert TypedField(inner[0], UintV(0));
    assert Typed(StructS(inner), vals[0]);
    assert TypedField(fields[0], vals[0]) && TypedField(fields[1], vals[1]);
  }

  lemma {:induction false} HiddenEncoded()
    ensures Enc(List([List([UintItem(0)])])) == [0xC2, 0xC1, 0x80]
  {
    assert UintItem(0) == Str([]) && Enc(Str([])) == [0x80];
    assert EncAll([UintItem(0)]) == Enc(UintItem(0)) + EncAll([]) == [0x80];
    assert Enc(List([UintItem(0)])) == [0xC1, 0x80];
    assert EncAll([List([UintItem(0)])]) == Enc(List([UintItem(0)])) + EncAll([]) == [0xC1, 0x80];
  }
}
