/** Typed values and the RLP trees they are written as (encode.go, decode.go: the writers and decoders
    chosen by type), for a closed set of types. */
module RlpSchema {
  import opened Machine
  import opened Bytes
  import opened RlpSpec
  import opened RlpStream
  import opened RlpDecode

  /** Unsigned integers, booleans, byte slices, byte arrays, slices, arrays and structs. */
  datatype Schema =
    | UintS(bits: nat)
    | BoolS
    | BytesS
    | ByteArrayS(len: nat)
    | SliceS(elem: Schema)
    | ArrayS(len: nat, elem: Schema)
    | StructS(fields: seq<FieldS>)

  datatype FieldS = FieldS(schema: Schema, optional: bool, tail: bool)

  /** Slices can be nil, which is an empty slice that is the zero value of its type. Of a struct, vals are the
      fields that are encoded; hidden tells that one of the others, unexported or ignored, is not zero. */
  datatype Value =
    | UintV(n: nat)
    | BoolV(on: bool)
    | BytesV(bytes: seq<u8>, isNil: bool)
    | ByteArrayV(bytes: seq<u8>)
    | SliceV(vals: seq<Value>, isNil: bool)
    | ArrayV(vals: seq<Value>)
    | StructV(vals: seq<Value>, hidden: bool)

  /** The types that have a writer and a decoder. */
  ghost predicate Supported(s: Schema)
    decreases s, 0
  {
    match s
    case UintS(bits) => UintBits(bits)
    case SliceS(elem) => Supported(elem)
    case ArrayS(_, elem) => Supported(elem)
    case StructS(fields) => Consistent(fields) && forall i :: 0 <= i < |fields| ==> SupportedField(fields[i])
    case _ => true
  }

  ghost predicate SupportedField(f: FieldS)
    decreases f, 0
  {
    Supported(f.schema)
  }

  ghost predicate Typed(s: Schema, v: Value)
    decreases s, 0
  {
    match s
    case UintS(bits) => UintBits(bits) && v.UintV? && v.n < Pow2(bits)
    case BoolS => v.BoolV?
    case BytesS => v.BytesV? && (v.isNil ==> v.bytes == [])
    case ByteArrayS(len) => v.ByteArrayV? && |v.bytes| == len
    case SliceS(elem) => v.SliceV? && (v.isNil ==> v.vals == []) && TypedAll(elem, v.vals)
    case ArrayS(len, elem) => v.ArrayV? && |v.vals| == len && TypedAll(elem, v.vals)
    case StructS(fields) => v.StructV? && |v.vals| == |fields| && Consistent(fields) && TypedFields(fields, v.vals)
  }

  ghost predicate TypedAll(elem: Schema, vals: seq<Value>)
    decreases elem, 1
  {
    forall i :: 0 <= i < |vals| ==> Typed(elem, vals[i])
  }

  ghost predicate TypedFields(fields: seq<FieldS>, vals: seq<Value>)
    decreases fields, 0
  {
    |vals| == |fields| && forall i :: 0 <= i < |vals| ==> TypedField(fields[i], vals[i])
  }

  ghost predicate TypedField(f: FieldS, v: Value)
    decreases f, 0
  {
    Typed(f.schema, v)
  }

  /** What ProcessFields promises about the fields of a struct. */
  predicate Consistent(fields: seq<FieldS>) {
    forall i :: 0 <= i < |fields| ==>
      && !(fields[i].optional && fields[i].tail)
      && (fields[i].tail ==> i + 1 == |fields| && (fields[i].schema.SliceS? || fields[i].schema.BytesS?))
      && (fields[i].optional && i + 1 < |fields| ==> fields[i + 1].optional || fields[i + 1].tail)
  }

  // ---------- The tree a value is written as ----------

  /** The zero value of a type. */
  function Zero(s: Schema): Value
    decreases s, 0
  {
    match s
    case UintS(_) => UintV(0)
    case BoolS => BoolV(false)
    case BytesS => BytesV([], true)
    case ByteArrayS(len) => ByteArrayV(seq(len, _ => 0))
    case SliceS(_) => SliceV([], true)
    case ArrayS(len, elem) => ArrayV(seq(len, _ => Zero(elem)))
    case StructS(fields) => StructV(Zeros(fields), false)
  }

  function Zeros(fields: seq<FieldS>): (z: seq<Value>)
    ensures |z| == |fields|
    decreases fields, 1
  {
    if fields == [] then [] else [ZeroField(fields[0])] + Zeros(fields[1..])
  }

  function ZeroField(f: FieldS): Value
    decreases f, 0
  {
    Zero(f.schema)
  }

  /** What reflection calls zero: a number 0, false, bytes all 0, a nil slice, and an array or a struct all of
      whose parts are zero, the fields that are not encoded included. */
  predicate IsZero(v: Value) {
    match v
    case UintV(n) => n == 0
    case BoolV(on) => !on
    case BytesV(_, isNil) => isNil
    case ByteArrayV(bytes) => forall i :: 0 <= i < |bytes| ==> bytes[i] == 0
    case SliceV(_, isNil) => isNil
    case ArrayV(vals) => forall i :: 0 <= i < |vals| ==> IsZero(vals[i])
    case StructV(vals, hidden) => !hidden && forall i :: 0 <= i < |vals| ==> IsZero(vals[i])
  }

  /** The value of a type that is zero is the zero value of the type. */
  lemma {:induction false} ZeroIsZero(s: Schema, v: Value)
    requires Typed(s, v)
    ensures v == Zero(s) <==> IsZero(v)
    decreases s, 0
  {
    hide Pow2, Consistent;
    match s
    case ByteArrayS(len) =>
      assert IsZero(v) ==> v.bytes == seq(len, _ => 0);
    case ArrayS(len, elem) =>
      forall i | 0 <= i < len ensures v.vals[i] == Zero(elem) <==> IsZero(v.vals[i]) {
        ZeroIsZero(elem, v.vals[i]);
      }
      assert (forall i :: 0 <= i < len ==> IsZero(v.vals[i])) ==> v.vals == seq(len, _ => Zero(elem));
    case StructS(fields) =>
      ZerosAreZero(fields, v.vals);
    case _ =>
  }

  lemma {:induction false} ZerosAreZero(fields: seq<FieldS>, vals: seq<Value>)
    requires TypedFields(fields, vals)
    ensures vals == Zeros(fields) <==> forall i :: 0 <= i < |vals| ==> IsZero(vals[i])
    decreases fields, 1
  {
    if fields != [] {
      FieldsTyped(fields, vals);
      ZeroFieldIsZero(fields[0], vals[0]);
      ZerosAreZero(fields[1..], vals[1..]);
      hide Typed, TypedFields, IsZero, Zero;
      assert vals == [vals[0]] + vals[1..];
      assert forall i :: 0 < i < |vals| ==> vals[i] == vals[1..][i - 1];
    }
  }

  lemma {:induction false} ZeroFieldIsZero(f: FieldS, v: Value)
    requires TypedField(f, v)
    ensures v == ZeroField(f) <==> IsZero(v)
    decreases f, 0
  {
    ZeroIsZero(f.schema, v);
  }

  /** A slice field tagged "tail" is spread over the rest of the list. A byte slice is written and read as
      one string even then. */
  predicate Spread(f: FieldS) {
    f.tail && f.schema.SliceS?
  }

  function FirstOptional(fields: seq<FieldS>): (k: nat)
    ensures k <= |fields|
    ensures k < |fields| ==> fields[k].optional
    ensures forall i :: 0 <= i < k ==> !fields[i].optional
  {
    if fields == [] || fields[0].optional then 0 else 1 + FirstOptional(fields[1..])
  }

  /** How many fields are written: zero values at the end are dropped, down to the first optional field. */
  function Kept(fields: seq<FieldS>, vals: seq<Value>, n: nat): (k: nat)
    requires |vals| == |fields| && n <= |fields|
    ensures k <= n
    ensures n > FirstOptional(fields) ==> k >= FirstOptional(fields)
    ensures forall i :: k <= i < n ==> i >= FirstOptional(fields) && IsZero(vals[i])
    ensures k == n || k >= FirstOptional(fields)
    ensures k > 0 && k > FirstOptional(fields) ==> !IsZero(vals[k - 1])
  {
    if n > FirstOptional(fields) && IsZero(vals[n - 1]) then Kept(fields, vals, n - 1) else n
  }

  ghost function ToItem(s: Schema, v: Value): Item
    requires Typed(s, v)
    decreases s, 0
  {
    match s
    case UintS(_) => UintItem(v.n)
    case BoolS => UintItem(if v.on then 1 else 0)
    case BytesS => Str(v.bytes)
    case ByteArrayS(_) => Str(v.bytes)
    case SliceS(elem) => List(ToAll(elem, v.vals))
    case ArrayS(_, elem) => List(ToAll(elem, v.vals))
    case StructS(fields) => List(ToFields(fields, v.vals, Kept(fields, v.vals, |fields|)))
  }

  ghost function ToAll(elem: Schema, vals: seq<Value>): (items: seq<Item>)
    requires TypedAll(elem, vals)
    ensures |items| == |vals|
    decreases elem, 2
  {
    seq(|vals|, i requires 0 <= i < |vals| => ToItem(elem, vals[i]))
  }

  /** The first n fields. */
  ghost function ToFields(fields: seq<FieldS>, vals: seq<Value>, n: nat): seq<Item>
    requires TypedFields(fields, vals) && n <= |fields|
    decreases fields, 1
  {
    if n == 0 then [] else
      assert TypedField(fields[0], vals[0]);
      ToField(fields[0], vals[0]) + ToFields(fields[1..], vals[1..], n - 1)
  }

  ghost function ToField(f: FieldS, v: Value): seq<Item>
    requires Typed(f.schema, v)
    decreases f, 0
  {
    if Spread(f) then ToAll(f.schema.elem, v.vals) else [ToItem(f.schema, v)]
  }

  // ---------- The value a tree is read as ----------

  /** The value of type s that an item stands for, if any. */
  ghost function FromItem(s: Schema, item: Item): Option<Value>
    decreases s, 0
  {
    match s
    case UintS(bits) =>
      if UintBits(bits) && item.Str? && IntBytes(BigEndian(item.bytes)) == item.bytes && |item.bytes| <= ByteCount(bits)
      then Some(UintV(BigEndian(item.bytes))) else None
    case BoolS =>
      if item == UintItem(0) then Some(BoolV(false)) else if item == UintItem(1) then Some(BoolV(true)) else None
    case BytesS => if item.Str? then Some(BytesV(item.bytes, false)) else None
    case ByteArrayS(len) => if item.Str? && |item.bytes| == len then Some(ByteArrayV(item.bytes)) else None
    case SliceS(elem) =>
      if item.Str? then None
      else Wrapped(FromAll(elem, item.items), vals => SliceV(vals, false))
    case ArrayS(len, elem) =>
      if item.Str? || |item.items| != len then None
      else Wrapped(FromAll(elem, item.items), vals => ArrayV(vals))
    case StructS(fields) =>
      if item.Str? then None
      else Wrapped(FromFields(fields, item.items), vals => StructV(vals, false))
  }

  function Wrapped(r: Option<seq<Value>>, f: seq<Value> -> Value): Option<Value> {
    if r.Some? then Some(f(r.value)) else None
  }

  ghost function FromAll(elem: Schema, items: seq<Item>): (r: Option<seq<Value>>)
    ensures r.Some? ==> |r.value| == |items|
    decreases elem, 1, |items|
  {
    if items == [] then Some([])
    else match (FromAll(elem, items[..|items| - 1]), FromItem(elem, items[|items| - 1]))
      case (Some(vals), Some(v)) => Some(vals + [v])
      case _ => None
  }

  /** The fields of a struct. When the items end at an optional field, it and the fields after it are zero;
      a spread slice takes all that are left. */
  ghost function FromFields(fields: seq<FieldS>, items: seq<Item>): (r: Option<seq<Value>>)
    ensures r.Some? ==> |r.value| == |fields|
    decreases fields, 1
  {
    if fields == [] then if items == [] then Some([]) else None
    else if Spread(fields[0]) then
      match (FromSpread(fields[0], items), FromFields(fields[1..], []))
      case (Some(v), Some(vals)) => Some([v] + vals)
      case _ => None
    else if items == [] then if fields[0].optional then Some(Zeros(fields)) else None
    else
      match (FromField(fields[0], items[0]), FromFields(fields[1..], items[1..]))
      case (Some(v), Some(vals)) => Some([v] + vals)
      case _ => None
  }

  ghost function FromSpread(f: FieldS, items: seq<Item>): Option<Value>
    requires Spread(f)
    decreases f, 0
  {
    Wrapped(FromAll(f.schema.elem, items), vals => SliceV(vals, false))
  }

  ghost function FromField(f: FieldS, item: Item): Option<Value>
    decreases f, 0
  {
    FromItem(f.schema, item)
  }

  // ---------- Round trip ----------

  /** Equal in what is encoded, if a nil slice and an empty one are taken for the same. */
  ghost predicate Same(v: Value, w: Value)
    decreases v, 0
  {
    match (v, w)
    case (UintV(m), UintV(n)) => m == n
    case (BoolV(a), BoolV(b)) => a == b
    case (BytesV(a, _), BytesV(b, _)) => a == b
    case (ByteArrayV(a), ByteArrayV(b)) => a == b
    case (SliceV(a, _), SliceV(b, _)) => SameAll(a, b)
    case (ArrayV(a), ArrayV(b)) => SameAll(a, b)
    case (StructV(a, _), StructV(b, _)) => SameAll(a, b)
    case _ => false
  }

  ghost predicate SameAll(a: seq<Value>, b: seq<Value>)
    decreases a, 1
  {
    |a| == |b| && forall i :: 0 <= i < |a| ==> Same(a[i], b[i])
  }

  /** The struct ends with a byte slice tagged "tail", and that field alone is dropped. The byte slice is
      not spread, so the decoder expects it, and it is not optional. */
  predicate DropsByteTail(fields: seq<FieldS>, vals: seq<Value>)
    requires |vals| == |fields|
  {
    && fields != [] && fields[|fields| - 1].tail && fields[|fields| - 1].schema.BytesS?
    && Kept(fields, vals, |fields|) == |fields| - 1
  }

  /** No struct that is written drops just a byte slice tagged "tail". */
  ghost predicate Restorable(s: Schema, v: Value)
    requires Typed(s, v)
    decreases s, 0
  {
    match s
    case SliceS(elem) => RestorableAll(elem, v.vals)
    case ArrayS(_, elem) => RestorableAll(elem, v.vals)
    case StructS(fields) =>
      !DropsByteTail(fields, v.vals) && RestorableFields(fields, v.vals, Kept(fields, v.vals, |fields|))
    case _ => true
  }

  ghost predicate RestorableAll(elem: Schema, vals: seq<Value>)
    requires TypedAll(elem, vals)
    decreases elem, 2
  {
    forall i :: 0 <= i < |vals| ==> Restorable(elem, vals[i])
  }

  ghost predicate RestorableFields(fields: seq<FieldS>, vals: seq<Value>, n: nat)
    requires TypedFields(fields, vals) && n <= |fields|
    decreases fields, 1
  {
    forall i :: 0 <= i < n ==> TypedField(fields[i], vals[i]) && RestorableField(fields[i], vals[i])
  }

  ghost predicate RestorableField(f: FieldS, v: Value)
    requires TypedField(f, v)
    decreases f, 0
  {
    Restorable(f.schema, v)
  }

  lemma {:induction false} SameRefl(v: Value)
    ensures Same(v, v)
    decreases v, 0
  {
    match v
    case SliceV(vals, _) => SameAllRefl(vals);
    case ArrayV(vals) => SameAllRefl(vals);
    case StructV(vals, _) => SameAllRefl(vals);
    case _ =>
  }

  lemma {:induction false} SameAllRefl(vals: seq<Value>)
    ensures SameAll(vals, vals)
    decreases vals, 1
  {
    forall i | 0 <= i < |vals| ensures Same(vals[i], vals[i]) {
      SameRefl(vals[i]);
    }
  }

  /** From the first optional field on, every field can be missing: it is optional or tagged "tail". */
  lemma {:induction false} OptionalOnwards(fields: seq<FieldS>, i: nat)
    requires Consistent(fields) && FirstOptional(fields) <= i < |fields|
    ensures fields[i].optional || fields[i].tail
    decreases i
  {
    if i > FirstOptional(fields) {
      OptionalOnwards(fields, i - 1);
    }
  }

  /** Decoding what was written restores the value, up to nil slices, exactly if no struct in it drops just
      a byte slice tagged "tail". Otherwise decoding fails. */
  lemma {:induction false} RoundTrip(s: Schema, v: Value)
    requires Typed(s, v)
    ensures FromItem(s, ToItem(s, v)).Some? <==> Restorable(s, v)
    ensures Restorable(s, v) ==> Same(v, FromItem(s, ToItem(s, v)).value)
    decreases s, 0
  {
    hide Kept, Pow2, IntBytes, BigEndian, ByteCount, UintBits, Consistent, TypedAll, TypedFields, ToAll, ToFields, FromAll, FromFields,
      SameAll, RestorableAll, RestorableFields, DropsByteTail;
    match s
    case UintS(bits) => UintTrip(v.n, bits);
    case BoolS => BoolItems();
    case BytesS =>
    case ByteArrayS(_) =>
    case SliceS(elem) => AllTrip(elem, v.vals);
    case ArrayS(_, elem) => AllTrip(elem, v.vals);
    case StructS(fields) => StructTrip(fields, v.vals);
  }

  lemma {:induction false} UintTrip(n: nat, bits: nat)
    requires UintBits(bits) && n < Pow2(bits)
    ensures var z := IntBytes(n); BigEndian(z) == n && |z| <= ByteCount(bits)
  {
    hide Pow2, IntBytes, BigEndian, UintBits;
    MinimalUint(n);
    IntBytesLength(n, ByteCount(bits));
  }

  lemma {:induction false} IsUintItem(item: Item, bits: nat)
    requires FromItem(UintS(bits), item).Some?
    ensures UintBits(bits) && item == UintItem(FromItem(UintS(bits), item).value.n)
    ensures FromItem(UintS(bits), item).value.n < Pow2(bits)
  {
    hide IntBytes, Pow2, BigEndian;
    IntBytesLength(BigEndian(item.bytes), ByteCount(bits));
  }

  lemma {:induction false} BoolItems()
    ensures UintItem(0) != UintItem(1)
  {
    MinimalUint(0);
    MinimalUint(1);
  }

  lemma {:induction false} AllTrip(elem: Schema, vals: seq<Value>)
    requires TypedAll(elem, vals)
    ensures FromAll(elem, ToAll(elem, vals)).Some? <==> RestorableAll(elem, vals)
    ensures RestorableAll(elem, vals) ==> SameAll(vals, FromAll(elem, ToAll(elem, vals)).value)
    decreases elem, 1, |vals|
  {
    hide Typed, TypedAll, ToItem, ToAll, FromItem, FromAll, Restorable, RestorableAll, Same, SameAll;
    if vals == [] {
      AllNone(elem, vals);
    } else {
      var n := |vals| - 1;
      AllStep(elem, vals, n);
      AllTrip(elem, vals[..n]);
      RoundTrip(elem, vals[n]);
      var items, x := ToAll(elem, vals[..n]), ToItem(elem, vals[n]);
      FromAllStep(elem, items, x);
      if RestorableAll(elem, vals) {
        SameAllStep(vals[..n], FromAll(elem, items).value, vals[n], FromItem(elem, x).value);
        assert vals == vals[..n] + [vals[n]];
      }
    }
  }

  lemma {:induction false} AllNone(elem: Schema, vals: seq<Value>)
    requires TypedAll(elem, vals) && vals == []
    ensures FromAll(elem, ToAll(elem, vals)) == Some([]) && RestorableAll(elem, vals) && SameAll(vals, [])
  {
    hide Typed, ToItem, FromItem, Restorable, Same;
  }

  lemma {:induction false} AllStep(elem: Schema, vals: seq<Value>, n: nat)
    requires TypedAll(elem, vals) && n == |vals| - 1
    ensures TypedAll(elem, vals[..n]) && Typed(elem, vals[n])
    ensures ToAll(elem, vals) == ToAll(elem, vals[..n]) + [ToItem(elem, vals[n])]
    ensures RestorableAll(elem, vals) <==> RestorableAll(elem, vals[..n]) && Restorable(elem, vals[n])
  {
    hide Typed, ToItem, Restorable;
    assert forall i :: 0 <= i < n ==> vals[..n][i] == vals[i];
  }

  lemma {:induction false} SameAllStep(a: seq<Value>, b: seq<Value>, x: Value, y: Value)
    requires SameAll(a, b) && Same(x, y)
    ensures SameAll(a + [x], b + [y])
  {
    hide Same;
  }

  lemma {:induction false} FromAllStep(elem: Schema, items: seq<Item>, x: Item)
    ensures FromAll(elem, items + [x]) ==
      if FromAll(elem, items).Some? && FromItem(elem, x).Some? then Some(FromAll(elem, items).value + [FromItem(elem, x).value])
      else None
  {
    hide FromItem;
    assert (items + [x])[..|items|] == items;
  }

  lemma {:induction false} StructTrip(fields: seq<FieldS>, vals: seq<Value>)
    requires |vals| == |fields| && Consistent(fields) && TypedFields(fields, vals)
    ensures var n := Kept(fields, vals, |fields|);
      var r := FromFields(fields, ToFields(fields, vals, n));
      (r.Some? <==> !DropsByteTail(fields, vals) && RestorableFields(fields, vals, n))
      && (r.Some? ==> SameAll(vals, r.value))
    decreases fields, 2
  {
    var n := Kept(fields, vals, |fields|);
    forall i | n <= i < |fields| ensures fields[i].optional || fields[i].tail {
      OptionalOnwards(fields, i);
    }
    FieldsTrip(fields, vals, n);
  }

  lemma {:induction false} FieldsTrip(fields: seq<FieldS>, vals: seq<Value>, n: nat)
    requires Consistent(fields) && TypedFields(fields, vals) && n <= |fields|
    requires forall i :: n <= i < |fields| ==> IsZero(vals[i]) && (fields[i].optional || fields[i].tail)
    ensures var r := FromFields(fields, ToFields(fields, vals, n));
      (r.Some? <==> !ByteTailAt(fields, n) && RestorableFields(fields, vals, n))
      && (r.Some? ==> SameAll(vals, r.value))
    decreases fields, 1
  {
    if fields == [] {
    } else if n == 0 {
      NoneWritten(fields, vals);
    } else {
      FieldsTyped(fields, vals);
      FieldsConsistent(fields);
      assert Typed(fields[0].schema, vals[0]);
      FieldTrip(fields[0], vals[0]);
      FieldsTrip(fields[1..], vals[1..], n - 1);
      hide TypedField, TypedFields, ToField, ToFields, FromField, FromSpread, FromFields, RestorableField, RestorableFields,
        Same, SameAll, Zeros, Consistent;
      RestorableStep(fields, vals, n);
      if Spread(fields[0]) {
        SpreadStep(fields, vals, n);
      } else {
        FieldStep(fields, vals, n);
      }
    }
  }

  lemma {:induction false} FieldsTyped(fields: seq<FieldS>, vals: seq<Value>)
    requires fields != [] && TypedFields(fields, vals)
    ensures |vals| == |fields| && TypedField(fields[0], vals[0]) && TypedFields(fields[1..], vals[1..])
  {
  }

  lemma {:induction false} FieldsConsistent(fields: seq<FieldS>)
    requires fields != [] && Consistent(fields)
    ensures Consistent(fields[1..]) && (fields[0].tail ==> |fields| == 1)
  {
  }

  lemma {:induction false} RestorableStep(fields: seq<FieldS>, vals: seq<Value>, n: nat)
    requires 0 < n <= |fields| && TypedFields(fields, vals) && TypedFields(fields[1..], vals[1..]) && TypedField(fields[0], vals[0])
    ensures RestorableFields(fields, vals, n) <==>
      RestorableField(fields[0], vals[0]) && RestorableFields(fields[1..], vals[1..], n - 1)
  {
    hide TypedField, RestorableField;
    assert forall i :: 0 < i < n ==> vals[i] == vals[1..][i - 1] && fields[i] == fields[1..][i - 1];
  }

  /** The items of the first field and of the others, when the first one is not spread. */
  lemma {:induction false} FieldStep(fields: seq<FieldS>, vals: seq<Value>, n: nat)
    requires 0 < n <= |fields| && TypedFields(fields, vals) && TypedFields(fields[1..], vals[1..])
    requires TypedField(fields[0], vals[0]) && Typed(fields[0].schema, vals[0]) && !Spread(fields[0])
    ensures var x, rest := ToField(fields[0], vals[0])[0], ToFields(fields[1..], vals[1..], n - 1);
      var (first, others) := (FromField(fields[0], x), FromFields(fields[1..], rest));
      var r := FromFields(fields, ToFields(fields, vals, n));
      (r.Some? <==> first.Some? && others.Some?)
      && (r.Some? && Same(vals[0], first.value) && SameAll(vals[1..], others.value) ==> SameAll(vals, r.value))
  {
    var items, rest := ToField(fields[0], vals[0]), ToFields(fields[1..], vals[1..], n - 1);
    hide TypedField, Typed, FromField, Zeros, Same, ToItem;
    assert (items + rest)[0] == items[0] && (items + rest)[1..] == rest;
  }

  /** The same for a field that is spread, which is the last one. */
  lemma {:induction false} SpreadStep(fields: seq<FieldS>, vals: seq<Value>, n: nat)
    requires |fields| == n == 1 && TypedFields(fields, vals)
    requires TypedField(fields[0], vals[0]) && Typed(fields[0].schema, vals[0]) && Spread(fields[0])
    ensures var first := FromSpread(fields[0], ToField(fields[0], vals[0]));
      var r := FromFields(fields, ToFields(fields, vals, n));
      (r.Some? <==> first.Some?) && (r.Some? && Same(vals[0], first.value) ==> SameAll(vals, r.value))
    ensures TypedFields(fields[1..], vals[1..]) && RestorableFields(fields[1..], vals[1..], 0)
  {
    hide TypedField, Typed, FromSpread, Zeros, Same, ToField;
    assert ToField(fields[0], vals[0]) + ToFields(fields[1..], vals[1..], 0) == ToField(fields[0], vals[0]);
    assert fields[1..] == [] && FromFields(fields[1..], []) == Some([]);
  }

  lemma {:induction false} FieldTrip(f: FieldS, v: Value)
    requires TypedField(f, v)
    ensures var items := ToField(f, v);
      var r := if Spread(f) then FromSpread(f, items) else FromField(f, items[0]);
      (Spread(f) || |items| == 1) && (r.Some? <==> RestorableField(f, v)) && (r.Some? ==> Same(v, r.value))
    decreases f, 0
  {
    RoundTrip(f.schema, v);
    if Spread(f) {
      AllTrip(f.schema.elem, v.vals);
    }
  }

  /** A struct of which no field was written. */
  lemma {:induction false} NoneWritten(fields: seq<FieldS>, vals: seq<Value>)
    requires fields != [] && Consistent(fields) && TypedFields(fields, vals)
    requires forall i :: 0 <= i < |fields| ==> IsZero(vals[i]) && (fields[i].optional || fields[i].tail)
    ensures var r := FromFields(fields, []);
      (r.Some? <==> !ByteTailAt(fields, 0)) && (r.Some? ==> SameAll(vals, r.value))
  {
    ZerosAreZero(fields, vals);
    SameAllRefl(vals);
    if Spread(fields[0]) {
      assert fields[1..] == [] && vals[0] == Zero(fields[0].schema) == SliceV([], true);
      assert FromFields(fields[1..], []) == Some([]) && FromSpread(fields[0], []) == Some(SliceV([], false));
      assert Same(vals[0], SliceV([], false));
    }
  }

  predicate ByteTailAt(fields: seq<FieldS>, n: nat) {
    n == |fields| - 1 && fields[n].tail && fields[n].schema.BytesS?
  }
}
