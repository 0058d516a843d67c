/** Which fields of a struct are encoded, and how (internal/rlpstruct/rlpstruct.go). Tags are taken as
    already split at the commas and trimmed. */
module RlpFields {
  import opened Machine
  import opened RlpSchema

  datatype Tag = EmptyTag | IgnoreTag | NilTag | NilStringTag | NilListTag | OptionalTag | TailTag | UnknownTag

  /** A field of a struct. The schema of a pointer is that of what it points to. */
  datatype Field = Field(index: nat, exported: bool, pointer: bool, schema: Schema, tag: seq<Tag>)

  /** The empty value that stands for a nil pointer. */
  datatype NilKind = NilString | NilList

  datatype Tags = Tags(nilOK: bool, nilKind: Option<NilKind>, optional: bool, tail: bool, ignored: bool)

  predicate IsSlice(f: Field) {
    !f.pointer && (f.schema.SliceS? || f.schema.BytesS?)
  }

  // ---------- One field ----------

  /** The tags that are allowed on a field. */
  predicate TagsOk(f: Field, tag: seq<Tag>, lastPublic: nat) {
    && UnknownTag !in tag
    && (HasNil(tag) ==> f.pointer)
    && (TailTag in tag ==> f.index == lastPublic && IsSlice(f) && OptionalTag !in tag)
  }

  predicate HasNil(tag: seq<Tag>) {
    NilTag in tag || NilStringTag in tag || NilListTag in tag
  }

  /** DefaultNilValue. */
  function DefaultNilValue(s: Schema): NilKind {
    if s.UintS? || s.BoolS? || s.BytesS? || s.ByteArrayS? then NilString else NilList
  }

  /** The kind of nil value that one tag asks for. */
  function NilOf(f: Field, t: Tag): Option<NilKind> {
    match t
    case NilTag => Some(DefaultNilValue(f.schema))
    case NilStringTag => Some(NilString)
    case NilListTag => Some(NilList)
    case _ => None
  }

  function TagsOf(f: Field, tag: seq<Tag>): Tags {
    Tags(HasNil(tag), LastNil(f, tag), OptionalTag in tag, TailTag in tag, IgnoreTag in tag)
  }

  /** Of several nil tags, the last one counts. */
  function LastNil(f: Field, tag: seq<Tag>): Option<NilKind> {
    if tag == [] then None
    else
      var n := |tag| - 1;
      if NilOf(f, tag[n]).Some? then NilOf(f, tag[n]) else LastNil(f, tag[..n])
  }

  lemma {:induction false} LastNilCounts(f: Field, tag: seq<Tag>) returns (i: int)
    ensures LastNil(f, tag).Some? <==> HasNil(tag)
    ensures HasNil(tag) ==> 0 <= i < |tag| && tag[i] in {NilTag, NilStringTag, NilListTag}
    ensures HasNil(tag) ==> LastNil(f, tag) == Some(
      if tag[i] == NilStringTag then NilString
      else if tag[i] == NilListTag then NilList
      else if f.schema.SliceS? || f.schema.ArrayS? || f.schema.StructS? then NilList else NilString)
    ensures HasNil(tag) ==> forall j :: i < j < |tag| ==> tag[j] !in {NilTag, NilStringTag, NilListTag}
    decreases |tag|
  {
    if tag == [] {
      i := -1;
    } else {
      var n := |tag| - 1;
      assert tag == tag[..n] + [tag[n]];
      i := n;
      if NilOf(f, tag[n]) == None {
        i := LastNilCounts(f, tag[..n]);
      }
    }
  }

  lemma {:induction false} TagsStep(f: Field, tag: seq<Tag>, t: Tag)
    ensures TagsOf(f, tag + [t]) == Tags(HasNil(tag) || NilOf(f, t).Some?, if NilOf(f, t).Some? then NilOf(f, t) else LastNil(f, tag),
                                         OptionalTag in tag || t == OptionalTag, TailTag in tag || t == TailTag,
                                         IgnoreTag in tag || t == IgnoreTag)
  {
    assert (tag + [t])[..|tag|] == tag;
  }

  method ParseTag(f: Field, lastPublic: nat) returns (r: Option<Tags>)
    ensures r == if TagsOk(f, f.tag, lastPublic) then Some(TagsOf(f, f.tag)) else None
    ensures r.Some? <==>
      && UnknownTag !in f.tag
      && (NilTag in f.tag || NilStringTag in f.tag || NilListTag in f.tag ==> f.pointer)
      && (TailTag in f.tag ==> f.index == lastPublic && !f.pointer && (f.schema.SliceS? || f.schema.BytesS?) && OptionalTag !in f.tag)
    ensures r.Some? ==>
      && (r.value.optional <==> OptionalTag in f.tag) && (r.value.tail <==> TailTag in f.tag) && (r.value.ignored <==> IgnoreTag in f.tag)
      && (r.value.nilOK <==> NilTag in f.tag || NilStringTag in f.tag || NilListTag in f.tag)
  {
    var ts := Tags(false, None, false, false, false);
    for i := 0 to |f.tag|
      invariant TagsOk(f, f.tag[..i], lastPublic) && ts == TagsOf(f, f.tag[..i])
    {
      assert f.tag[..i + 1] == f.tag[..i] + [f.tag[i]];
      TagsStep(f, f.tag[..i], f.tag[i]);
      hide LastNil;
      TagsPrefix(f, i + 1, lastPublic);
      match f.tag[i] {
        case EmptyTag =>
        case IgnoreTag =>
          ts := ts.(ignored := true);
        case NilTag | NilStringTag | NilListTag =>
          ts := ts.(nilOK := true);
          if !f.pointer {
            return None;
          }
          match f.tag[i] {
            case NilTag =>
              ts := ts.(nilKind := Some(DefaultNilValue(f.schema)));
            case NilStringTag =>
              ts := ts.(nilKind := Some(NilString));
            case _ =>
              ts := ts.(nilKind := Some(NilList));
          }
        case OptionalTag =>
          ts := ts.(optional := true);
          if ts.tail {
            return None;
          }
        case TailTag =>
          ts := ts.(tail := true);
          if f.index != lastPublic || ts.optional || !IsSlice(f) {
            return None;
          }
        case UnknownTag =>
          return None;
      }
    }
    assert f.tag[..|f.tag|] == f.tag;
    return Some(ts);
  }

  /** A wrong tag stays wrong, whatever follows. */
  lemma {:induction false} TagsPrefix(f: Field, i: nat, lastPublic: nat)
    requires i <= |f.tag|
    ensures TagsOk(f, f.tag, lastPublic) ==> TagsOk(f, f.tag[..i], lastPublic)
  {
  }

  // ---------- All fields ----------

  /** The index of the last exported field. */
  function LastPublic(all: seq<Field>): nat {
    if all == [] then 0
    else if all[|all| - 1].exported then all[|all| - 1].index
    else LastPublic(all[..|all| - 1])
  }

  /** The index of the last exported field, or 0 if there is none. */
  method LastPublicField(all: seq<Field>) returns (last: nat)
    ensures last == LastPublic(all)
    ensures (forall i :: 0 <= i < |all| ==> !all[i].exported) ==> last == 0
    ensures (exists i :: 0 <= i < |all| && all[i].exported) ==>
      exists k :: 0 <= k < |all| && all[k].exported && last == all[k].index && forall j :: k < j < |all| ==> !all[j].exported
  {
    last := 0;
    for i := 0 to |all|
      invariant last == LastPublic(all[..i])
    {
      assert all[..i + 1][..i] == all[..i];
      if all[i].exported {
        last := all[i].index;
      }
    }
    assert all[..|all|] == all;
    var k := LastPublicAt(all);
  }

  /** Which field LastPublic looks at. */
  lemma {:induction false} LastPublicAt(all: seq<Field>) returns (k: int)
    ensures -1 <= k < |all| && forall j :: k < j < |all| ==> !all[j].exported
    ensures if k == -1 then LastPublic(all) == 0 else all[k].exported && LastPublic(all) == all[k].index
    decreases |all|
  {
    k := |all| - 1;
    if k >= 0 && !all[k].exported {
      k := LastPublicAt(all[..k]);
    }
  }

  datatype Entry = Entry(field: Field, tags: Tags)

  /** The exported fields that are not ignored, in order, with their tags. */
  function Included(all: seq<Field>): seq<Entry> {
    if all == [] then []
    else
      var f := all[|all| - 1];
      Included(all[..|all| - 1])
      + if f.exported && !TagsOf(f, f.tag).ignored then [Entry(f, TagsOf(f, f.tag))] else []
  }

  /** A field that is encoded. */
  predicate Shown(f: Field) {
    f.exported && IgnoreTag !in f.tag
  }

  predicate MayBeMissing(e: Entry) {
    e.tags.optional || e.tags.tail
  }

  /** Behind a field that may be missing, all may be missing. */
  predicate MissingAtEnd(es: seq<Entry>) {
    forall i, j :: 0 <= i < j < |es| && MayBeMissing(es[i]) ==> MayBeMissing(es[j])
  }

  predicate AllTagsOk(all: seq<Field>, lastPublic: nat) {
    forall i :: 0 <= i < |all| && all[i].exported ==> TagsOk(all[i], all[i].tag, lastPublic)
  }

  /** ProcessFields: the fields to encode, or an error. Only the last exported field can be tagged "tail", and
      of the fields to encode, all behind one that may be missing may be missing. */
  method ProcessFields(all: seq<Field>) returns (r: Option<seq<Entry>>)
    ensures r == if AllTagsOk(all, LastPublic(all)) && MissingAtEnd(Included(all)) then Some(Included(all)) else None
    ensures r.Some? <==> Acceptable(all)
  {
    AcceptedMeaning(all);
    hide Included, TagsOf, TagsOk, MissingAtEnd, LastPublic, Acceptable;
    var lastPublic := LastPublicField(all);
    var es: seq<Entry> := [];
    IncludedNone();
    for i := 0 to |all|
      invariant forall j :: 0 <= j < i && all[j].exported ==> TagsOk(all[j], all[j].tag, lastPublic)
      invariant es == Included(all[..i])
    {
      IncludedStep(all, i);
      var f := all[i];
      if f.exported {
        var ts := ParseTag(f, lastPublic);
        match ts {
          case None =>
            return None;
          case Some(tags) =>
            if !tags.ignored {
              es := es + [Entry(f, tags)];
            }
        }
      }
    }
    assert all[..|all|] == all;
    var ok := CheckOptional(es);
    return if ok then Some(es) else None;
  }

  /** What is accepted, from the fields alone. A field tagged "tail" has the index of the last exported one. */
  ghost predicate Acceptable(all: seq<Field>) {
    && (forall i :: 0 <= i < |all| && all[i].exported ==> var f := all[i];
      && UnknownTag !in f.tag && (NilTag in f.tag || NilStringTag in f.tag || NilListTag in f.tag ==> f.pointer)
      && (TailTag in f.tag ==> OptionalTag !in f.tag && !f.pointer && (f.schema.SliceS? || f.schema.BytesS?))
      && (TailTag in f.tag ==>
        exists k :: i <= k < |all| && all[k].exported && f.index == all[k].index && forall j :: k < j < |all| ==> !all[j].exported))
    && (forall i, j :: 0 <= i < j < |all| && Shown(all[i]) && Shown(all[j]) ==>
      (OptionalTag in all[i].tag || TailTag in all[i].tag ==> OptionalTag in all[j].tag || TailTag in all[j].tag))
  }

  lemma {:induction false} AcceptedMeaning(all: seq<Field>)
    ensures AllTagsOk(all, LastPublic(all)) && MissingAtEnd(Included(all)) <==> Acceptable(all)
  {
    var k := LastPublicAt(all);
    MissingMeaning(all);
    hide LastPublic, Included, MissingAtEnd;
  }

  lemma {:induction false} MissingMeaning(all: seq<Field>)
    ensures MissingAtEnd(Included(all)) <==>
      forall i, j :: 0 <= i < j < |all| && Shown(all[i]) && Shown(all[j]) ==>
        (OptionalTag in all[i].tag || TailTag in all[i].tag ==> OptionalTag in all[j].tag || TailTag in all[j].tag)
  {
    var at := IncludedAre(all);
    var es := Included(all);
    hide Included;
    if MissingAtEnd(es) {
      forall i, j | 0 <= i < j < |all| && Shown(all[i]) && Shown(all[j]) && (OptionalTag in all[i].tag || TailTag in all[i].tag)
        ensures OptionalTag in all[j].tag || TailTag in all[j].tag
      {
        var x, y :| 0 <= x < |at| && 0 <= y < |at| && at[x] == i && at[y] == j;
        assert MayBeMissing(es[x]) ==> MayBeMissing(es[y]);
      }
    }
  }

  /** The fields to encode are exactly the exported ones that are not ignored, in order, with what their tags
      say. */
  lemma {:induction false} IncludedAre(all: seq<Field>) returns (at: seq<nat>)
    ensures |at| == |Included(all)|
    ensures forall i :: 0 <= i < |at| ==> at[i] < |all| && all[at[i]].exported && IgnoreTag !in all[at[i]].tag
    ensures forall i, j :: 0 <= i < j < |at| ==> at[i] < at[j]
    ensures forall k :: 0 <= k < |all| && all[k].exported && IgnoreTag !in all[k].tag ==> k in at
    ensures forall i :: 0 <= i < |at| ==> Included(all)[i].field == all[at[i]]
    ensures forall i :: 0 <= i < |at| ==> (Included(all)[i].tags.optional <==> OptionalTag in all[at[i]].tag)
    ensures forall i :: 0 <= i < |at| ==> (Included(all)[i].tags.tail <==> TailTag in all[at[i]].tag)
    decreases |all|
  {
    hide Included, TagsOf;
    IncludedNone();
    at := [];
    if all != [] {
      var n := |all| - 1;
      at := IncludedAre(all[..n]);
      IncludedMore(all, Included(all[..n]), at);
      if all[n].exported && IgnoreTag !in all[n].tag {
        at := at + [n];
      }
    }
  }

  lemma {:induction false} IncludedMore(all: seq<Field>, before: seq<Entry>, at: seq<nat>)
    requires all != [] && before == Included(all[..|all| - 1]) && |at| == |before|
    requires forall i :: 0 <= i < |at| ==> at[i] < |all| - 1
    ensures var n := |all| - 1; var f := all[n];
      if f.exported && IgnoreTag !in f.tag then
        Included(all) == before + [Entry(f, TagsOf(f, f.tag))]
        && TagsOf(f, f.tag).optional == (OptionalTag in f.tag) && TagsOf(f, f.tag).tail == (TailTag in f.tag)
      else Included(all) == before
    ensures forall k :: 0 <= k < |all| - 1 ==> all[..|all| - 1][k] == all[k]
  {
    hide LastNil, HasNil;
  }

  lemma {:induction false} IncludedNone()
    ensures Included([]) == []
  {
  }

  lemma {:induction false} IncludedStep(all: seq<Field>, i: nat)
    requires i < |all|
    ensures var f := all[i];
      Included(all[..i + 1]) == if f.exported && !TagsOf(f, f.tag).ignored then Included(all[..i]) + [Entry(f, TagsOf(f, f.tag))]
                                else Included(all[..i])
  {
    hide TagsOf;
    assert all[..i + 1][..i] == all[..i];
  }

  /** The second loop of ProcessFields. */
  method CheckOptional(es: seq<Entry>) returns (ok: bool)
    ensures ok <==> MissingAtEnd(es)
  {
    var anyOptional := false;
    for i := 0 to |es|
      invariant anyOptional <==> exists j :: 0 <= j < i && MayBeMissing(es[j])
      invariant forall j, k :: 0 <= j < k < i && MayBeMissing(es[j]) ==> MayBeMissing(es[k])
    {
      if es[i].tags.optional || es[i].tags.tail {
        assert MayBeMissing(es[i]);
        anyOptional := true;
      } else if anyOptional {
        assert !MayBeMissing(es[i]);
        return false;
      }
    }
    return true;
  }

  // ---------- What the codec relies on ----------

  function FieldSchemas(es: seq<Entry>): seq<FieldS> {
    seq(|es|, i requires 0 <= i < |es| => FieldS(es[i].field.schema, es[i].tags.optional, es[i].tags.tail))
  }

  /** Where an entry comes from. */
  lemma {:induction false} Origin(all: seq<Field>, i: nat) returns (k: nat)
    requires i < |Included(all)|
    ensures k < |all| && all[k].exported && Included(all)[i] == Entry(all[k], TagsOf(all[k], all[k].tag))
    ensures i + 1 < |Included(all)| ==> exists m :: k < m < |all| && all[m].exported
    decreases |all|
  {
    var n := |all| - 1;
    var before := Included(all[..n]);
    if i < |before| {
      k := Origin(all[..n], i);
      if i + 1 < |before| {
        var m :| k < m < n && all[..n][m].exported;
        assert all[m].exported;
      } else if i + 1 < |Included(all)| {
        assert all[n].exported;
      }
    } else {
      k := n;
    }
  }

  /** The last exported field is the one whose index LastPublic gives. */
  lemma {:induction false} LastPublicIs(all: seq<Field>, k: nat, m: nat)
    requires k < m < |all| && all[m].exported && forall i :: 0 <= i < |all| ==> all[i].index == i
    ensures LastPublic(all) > k
    decreases |all|
  {
    var n := |all| - 1;
    if !all[n].exported {
      LastPublicIs(all[..n], k, m);
    }
  }

  /** The fields that ProcessFields accepts are consistent in the codec's sense, if they are numbered in
      order and none is a pointer. */
  lemma {:induction false} AcceptedConsistent(all: seq<Field>)
    requires AllTagsOk(all, LastPublic(all)) && MissingAtEnd(Included(all))
    requires forall i :: 0 <= i < |all| ==> all[i].index == i
    ensures Consistent(FieldSchemas(Included(all)))
  {
    var es := Included(all);
    var fs := FieldSchemas(es);
    forall i | 0 <= i < |fs|
      ensures !(fs[i].optional && fs[i].tail)
      ensures fs[i].tail ==> i + 1 == |fs| && (fs[i].schema.SliceS? || fs[i].schema.BytesS?)
      ensures fs[i].optional && i + 1 < |fs| ==> fs[i + 1].optional || fs[i + 1].tail
    {
      EntrySound(all, i);
      assert fs[i].tail == es[i].tags.tail && fs[i].schema == es[i].field.schema;
    }
  }

  /** What Consistent asks of one field. */
  predicate Sound(es: seq<Entry>, i: nat)
    requires i < |es|
  {
    && !(es[i].tags.optional && es[i].tags.tail)
    && (es[i].tags.tail ==> i + 1 == |es| && IsSlice(es[i].field))
    && (es[i].tags.optional && i + 1 < |es| ==> es[i + 1].tags.optional || es[i + 1].tags.tail)
  }

  lemma {:induction false} EntrySound(all: seq<Field>, i: nat)
    requires AllTagsOk(all, LastPublic(all)) && MissingAtEnd(Included(all)) && i < |Included(all)|
    requires forall i :: 0 <= i < |all| ==> all[i].index == i
    ensures Sound(Included(all), i)
  {
    var es := Included(all);
    var k := Origin(all, i);
    if es[i].tags.tail && i + 1 < |es| {
      var m :| k < m < |all| && all[m].exported;
      LastPublicIs(all, k, m);
    }
    if i + 1 < |es| {
      assert MayBeMissing(es[i]) ==> MayBeMissing(es[i + 1]);
    }
  }
}
