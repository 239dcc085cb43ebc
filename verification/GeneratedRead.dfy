/**
 The Read methods that the Thrift compiler generates (thrift-gen/jaeger/jaeger.go, for example Tag.Read, 220-326, and
 Batch.Read, 1960-2036), for any struct description: known fields of the expected type are read, every other field is
 skipped, and required fields must have been seen.
 */
module GeneratedRead {
  import opened Widths
  import opened Sequences
  import opened CompactFormat
  import CompactReading
  import CompactSkip

  /** What a generated Read knows of a type: scalars, structs by field id with their required ids, and lists. */
  datatype Schema =
    | Leaf(typ: TType)
    | StructOf(slots: map<int16, Schema>, required: set<int16>)
    | ListOf(elem: Schema)

  function SchemaType(s: Schema): (t: TType)
  {
    match s
    case Leaf(t) => t
    case StructOf(_, _) => STRUCT
    case ListOf(_) => LIST
  }

  predicate Scalar(t: TType) { t !in {STOP, STRUCT, MAP, SET, LIST} }

  /** A field a struct's Read takes: its id is known and it arrived with the expected type. */
  predicate Known(s: Schema, id: int16, t: TType)
    requires s.StructOf?
  {
    id in s.slots && SchemaType(s.slots[id]) == t
  }

  function Ids(fields: seq<Field>): (ids: set<int16>)
  {
    set f <- fields :: f.id
  }

  // ----- the generated reader -----

  /** The fields are returned in the order they arrived, which is the order the struct is assigned in. */
  function Read(s: Schema, st: Reader): (g: Got<Value>)
    ensures Shrinks(st, g.st)
    decreases s, 2
  {
    match s
    case Leaf(t) => if Scalar(t) then CompactReading.ReadValue(t, st) else Got(false, VBool(false), st)
    case StructOf(_, required) =>
      var r := ReadFields(s, ReadStructBegin(st));
      if !r.ok then Got(false, VStruct(r.value), r.st)
      else
        var e := ReadStructEnd(r.st);
        Got(e.ok && required <= Ids(r.value), VStruct(r.value), e.st)
    case ListOf(elem) =>
      var h := ReadCollBegin(st);
      if !h.ok then Got(false, VColl(false, STOP, []), h.st)
      else
        var r := ReadElems(s, h.value.size, h.st);
        Got(r.ok, VColl(false, h.value.elemType, r.value), r.st)
  }

  function ReadFields(s: Schema, st: Reader): (g: Got<seq<Field>>)
    requires s.StructOf?
    ensures Shrinks(st, g.st)
    decreases s, 1, |st.input|
  {
    var h := ReadFieldBegin(st);
    if !h.ok || h.value.typ == STOP then Got(h.ok, [], h.st)
    else if Known(s, h.value.id, h.value.typ) then
      var v := Read(s.slots[h.value.id], h.st);
      if !v.ok then Got(false, [], v.st)
      else
        var r := ReadFields(s, v.st);
        Got(r.ok, [Field(h.value.id, v.value)] + r.value, r.st)
    else
      var k := CompactSkip.Skip(h.value.typ, CompactSkip.DEFAULT_RECURSION_DEPTH, h.st);
      if !k.ok then Got(false, [], k.st) else ReadFields(s, k.st)
  }

  /** The element type on the wire is not looked at. */
  function ReadElems(s: Schema, n: nat, st: Reader): (g: Got<seq<Value>>)
    requires s.ListOf?
    ensures Shrinks(st, g.st)
    decreases s, 1, n
  {
    if n == 0 then Got(true, [], st)
    else
      var v := Read(s.elem, st);
      if !v.ok then Got(false, [], v.st)
      else
        var r := ReadElems(s, n - 1, v.st);
        Got(r.ok, [v.value] + r.value, r.st)
  }

  // ----- what it should decode to -----

  /** The part of a tree that a schema knows: unknown fields are cut out at every level. */
  function Project(s: Schema, v: Value): (r: Value)
    decreases v
  {
    match (s, v)
    case (StructOf(_, _), VStruct(fields)) => VStruct(ProjectFields(s, fields))
    case (ListOf(elem), VColl(isSet, t, elems)) => VColl(isSet, t, ProjectElems(elem, elems))
    case _ => v
  }

  function ProjectFields(s: Schema, fields: seq<Field>): (r: seq<Field>)
    requires s.StructOf?
    decreases fields
  {
    if fields == [] then []
    else if Known(s, fields[0].id, TypeOf(fields[0].value)) then
      [ProjectField(s, fields[0])] + ProjectFields(s, fields[1..])
    else ProjectFields(s, fields[1..])
  }

  function ProjectField(s: Schema, f: Field): (r: Field)
    requires s.StructOf? && Known(s, f.id, TypeOf(f.value))
    decreases f
  {
    Field(f.id, Project(s.slots[f.id], f.value))
  }

  function ProjectElems(s: Schema, elems: seq<Value>): (r: seq<Value>)
    ensures |r| == |elems|
    decreases elems
  {
    if elems == [] then [] else [Project(s, elems[0])] + ProjectElems(s, elems[1..])
  }

  /** Known fields follow their own schema, unknown ones are anything Skip can pass, required ones are there. */
  ghost predicate Conforms(s: Schema, v: Value)
    decreases v
  {
    match s
    case Leaf(t) => Scalar(t) && TypeOf(v) == t
    case StructOf(_, required) => v.VStruct? && FieldsConform(s, v.fields) && required <= Ids(ProjectFields(s, v.fields))
    case ListOf(elem) => v.VColl? && !v.isSet && ElemsConform(elem, v.elems)
  }

  ghost predicate FieldsConform(s: Schema, fields: seq<Field>)
    requires s.StructOf?
    decreases fields
  {
    fields == [] || (FieldConforms(s, fields[0]) && FieldsConform(s, fields[1..]))
  }

  ghost predicate FieldConforms(s: Schema, f: Field)
    requires s.StructOf?
    decreases f
  {
    if Known(s, f.id, TypeOf(f.value)) then Conforms(s.slots[f.id], f.value)
    else CompactSkip.WithinDepth(f.value, CompactSkip.DEFAULT_RECURSION_DEPTH)
  }

  ghost predicate ElemsConform(s: Schema, elems: seq<Value>)
    decreases elems
  {
    elems == [] || (Conforms(s, elems[0]) && ElemsConform(s, elems[1..]))
  }

  // ----- decoding is projection -----

  /**
   A generated Read applied to the bytes of a conforming tree decodes exactly the part it knows, consumes the tree's
   bytes and no others, and leaves the protocol object as it was.
   */
  lemma {:induction false} ReadIsProjection(s: Schema, v: Value, rest: seq<byte>, st: Reader)
    requires Conforms(s, v) && Wf(v, st.limit) && st.pending == None
    requires st.input == Bytes(v) + rest
    ensures Read(s, st) == Got(true, Project(s, v), st.(input := rest))
    decreases v
  {
    match s {
      case Leaf(t) => CompactReading.ValueRoundTrip(v, rest, st);
      case StructOf(_, _) => StructIsProjection(s, v.fields, rest, st);
      case ListOf(_) => ListIsProjection(s, v.elemType, v.elems, rest, st);
    }
  }

  lemma {:induction false} StructIsProjection(s: Schema, fields: seq<Field>, rest: seq<byte>, st: Reader)
    requires s.StructOf? && FieldsConform(s, fields) && s.required <= Ids(ProjectFields(s, fields))
    requires WfFields(fields, st.limit) && st.pending == None
    requires st.input == FieldsBytes(fields, 0) + rest
    ensures Read(s, st) == Got(true, VStruct(ProjectFields(s, fields)), st.(input := rest))
    decreases fields, 1
  {
    var inner := ReadStructBegin(st);
    FieldsAreProjection(s, fields, rest, inner);
    assert inner.lastField[..|st.lastField|] == st.lastField;
  }

  lemma {:induction false} FieldsAreProjection(s: Schema, fields: seq<Field>, rest: seq<byte>, st: Reader)
    requires s.StructOf? && FieldsConform(s, fields)
    requires WfFields(fields, st.limit) && st.pending == None
    requires st.input == FieldsBytes(fields, st.lastFieldId) + rest
    ensures ReadFields(s, st)
         == Got(true, ProjectFields(s, fields),
                st.(input := rest, lastFieldId := CompactReading.LastId(fields, st.lastFieldId)))
    decreases fields, 0
  {
    if fields == [] {
      assert st.input[1..] == rest;
    } else {
      var f := fields[0];
      var tail := FieldsBytes(fields[1..], f.id) + rest;
      Assoc(FieldBytes(f, st.lastFieldId), FieldsBytes(fields[1..], f.id), rest);
      if Known(s, f.id, TypeOf(f.value)) {
        KnownFieldIsProjection(s, f, tail, st);
      } else {
        CompactSkip.SkipFieldExact(f, CompactSkip.DEFAULT_RECURSION_DEPTH, tail, st);
      }
      FieldsAreProjection(s, fields[1..], rest, st.(input := tail, lastFieldId := f.id));
      CompactReading.LastIdTail(fields, st.lastFieldId);
    }
  }

  lemma {:induction false} KnownFieldIsProjection(s: Schema, f: Field, rest: seq<byte>, st: Reader)
    requires s.StructOf? && Known(s, f.id, TypeOf(f.value)) && FieldConforms(s, f)
    requires WfField(f, st.limit) && st.pending == None
    requires st.input == FieldBytes(f, st.lastFieldId) + rest
    ensures var h := ReadFieldBegin(st);
            h.ok && h.value == Header(TypeOf(f.value), f.id) && |h.st.input| < |st.input|
            && Read(s.slots[f.id], h.st)
            == Got(true, Project(s.slots[f.id], f.value), st.(input := rest, lastFieldId := f.id))
    decreases f
  {
    FieldBegins(f, rest, st);
    hide ReadFieldBegin, FieldBytes;
    if !f.value.VBool? {
      hide Read;
      ReadIsProjection(s.slots[f.id], f.value, rest, st.(input := Bytes(f.value) + rest, lastFieldId := f.id));
    }
  }

  lemma {:induction false} ListIsProjection(s: Schema, t: TType, elems: seq<Value>, rest: seq<byte>, st: Reader)
    requires s.ListOf? && ElemsConform(s.elem, elems)
    requires Wf(VColl(false, t, elems), st.limit) && st.pending == None
    requires st.input == CollHeader(t, |elems|) + ElemsBytes(t, elems) + rest
    ensures Read(s, st) == Got(true, VColl(false, t, ProjectElems(s.elem, elems)), st.(input := rest))
    decreases elems, 1
  {
    hide ReadCollBegin, CollHeader;
    var tail := ElemsBytes(t, elems) + rest;
    Assoc(CollHeader(t, |elems|), ElemsBytes(t, elems), rest);
    CollHeaderRoundTrip(t, |elems|, tail, st);
    ElemsAreProjection(s, t, elems, rest, st.(input := tail));
  }

  lemma {:induction false} ElemsAreProjection(s: Schema, t: TType, elems: seq<Value>, rest: seq<byte>, st: Reader)
    requires s.ListOf? && ElemsConform(s.elem, elems)
    requires WfElems(t, elems, st.limit) && st.pending == None
    requires st.input == ElemsBytes(t, elems) + rest
    ensures ReadElems(s, |elems|, st) == Got(true, ProjectElems(s.elem, elems), st.(input := rest))
    decreases elems, 0
  {
    if elems == [] {
      assert st.input == rest;
    } else {
      var tail := ElemsBytes(t, elems[1..]) + rest;
      Assoc(Bytes(elems[0]), ElemsBytes(t, elems[1..]), rest);
      ReadIsProjection(s.elem, elems[0], tail, st);
      ElemsAreProjection(s, t, elems[1..], rest, st.(input := tail));
    }
  }

  // ----- required fields -----

  /** Like Conforms, but required fields may be missing, at any level. */
  ghost predicate Readable(s: Schema, v: Value)
    decreases v
  {
    match s
    case Leaf(t) => Scalar(t) && TypeOf(v) == t
    case StructOf(_, _) => v.VStruct? && FieldsReadable(s, v.fields)
    case ListOf(elem) => v.VColl? && !v.isSet && ElemsReadable(elem, v.elems)
  }

  ghost predicate FieldsReadable(s: Schema, fields: seq<Field>)
    requires s.StructOf?
    decreases fields
  {
    fields == [] || (FieldReadable(s, fields[0]) && FieldsReadable(s, fields[1..]))
  }

  ghost predicate FieldReadable(s: Schema, f: Field)
    requires s.StructOf?
    decreases f
  {
    if Known(s, f.id, TypeOf(f.value)) then Readable(s.slots[f.id], f.value)
    else CompactSkip.WithinDepth(f.value, CompactSkip.DEFAULT_RECURSION_DEPTH)
  }

  ghost predicate ElemsReadable(s: Schema, elems: seq<Value>)
    decreases elems
  {
    elems == [] || (Readable(s, elems[0]) && ElemsReadable(s, elems[1..]))
  }

  /** The required fields are there, with the types expected of them, at every level that is read. */
  ghost predicate Complete(s: Schema, v: Value)
    decreases v
  {
    match (s, v)
    case (StructOf(_, required), VStruct(fields)) =>
      FieldsComplete(s, fields)
      && forall id <- required ::
           exists i :: 0 <= i < |fields| && fields[i].id == id && Known(s, id, TypeOf(fields[i].value))
    case (ListOf(elem), VColl(_, _, elems)) => ElemsComplete(elem, elems)
    case _ => true
  }

  ghost predicate FieldsComplete(s: Schema, fields: seq<Field>)
    requires s.StructOf?
    decreases fields
  {
    fields == [] || (FieldComplete(s, fields[0]) && FieldsComplete(s, fields[1..]))
  }

  ghost predicate FieldComplete(s: Schema, f: Field)
    requires s.StructOf?
    decreases f
  {
    Known(s, f.id, TypeOf(f.value)) ==> Complete(s.slots[f.id], f.value)
  }

  ghost predicate ElemsComplete(s: Schema, elems: seq<Value>)
    decreases elems
  {
    elems == [] || (Complete(s, elems[0]) && ElemsComplete(s, elems[1..]))
  }

  /** An id is among those decoded if and only if some field has it with the expected type. */
  lemma {:induction false} DecodedIds(s: Schema, fields: seq<Field>, id: int16)
    requires s.StructOf?
    ensures id in Ids(ProjectFields(s, fields))
       <==> exists i :: 0 <= i < |fields| && fields[i].id == id && Known(s, id, TypeOf(fields[i].value))
    decreases |fields|
  {
    if fields != [] {
      var f, tail := fields[0], fields[1..];
      DecodedIds(s, tail, id);
      var found := exists i :: 0 <= i < |tail| && tail[i].id == id && Known(s, id, TypeOf(tail[i].value));
      if found {
        var i :| 0 <= i < |tail| && tail[i].id == id && Known(s, id, TypeOf(tail[i].value));
        assert fields[i + 1] == tail[i];
      }
      forall i | 0 < i < |fields| ensures fields[i] == tail[i - 1] {}
      var rest := ProjectFields(s, tail);
      if Known(s, f.id, TypeOf(f.value)) {
        assert Ids([ProjectField(s, f)] + rest) == {f.id} + Ids(rest) by { IdsAppend([ProjectField(s, f)], rest); }
      }
    }
  }

  lemma IdsAppend(a: seq<Field>, b: seq<Field>)
    ensures Ids(a + b) == Ids(a) + Ids(b)
  {
    forall id ensures id in Ids(a + b) <==> id in Ids(a) + Ids(b) {
      if id in Ids(a + b) { var f :| f in a + b && f.id == id; }
      if id in Ids(a) { var f :| f in a && f.id == id; assert f in a + b; }
      if id in Ids(b) { var f :| f in b && f.id == id; assert f in a + b; }
    }
  }

  lemma RequiredDecoded(s: Schema, fields: seq<Field>)
    requires s.StructOf?
    ensures s.required <= Ids(ProjectFields(s, fields))
       <==> forall id <- s.required ::
              exists i :: 0 <= i < |fields| && fields[i].id == id && Known(s, id, TypeOf(fields[i].value))
  {
    forall id: int16
      ensures id in Ids(ProjectFields(s, fields))
         <==> exists i :: 0 <= i < |fields| && fields[i].id == id && Known(s, id, TypeOf(fields[i].value))
    {
      DecodedIds(s, fields, id);
    }
    hide Ids, ProjectFields, Known;
  }

  lemma {:induction false} ConformsExactly(s: Schema, v: Value)
    ensures Conforms(s, v) <==> Readable(s, v) && Complete(s, v)
    decreases v, 1
  {
    match s {
      case Leaf(_) =>
      case StructOf(_, _) =>
        if v.VStruct? {
          FieldsConformExactly(s, v.fields);
          RequiredDecoded(s, v.fields);
          hide Ids, ProjectFields, Known, FieldsConform, FieldsReadable, FieldsComplete;
        }
      case ListOf(elem) =>
        if v.VColl? { ElemsConformExactly(elem, v.elems); }
    }
  }

  lemma {:induction false} FieldsConformExactly(s: Schema, fields: seq<Field>)
    requires s.StructOf?
    ensures FieldsConform(s, fields) <==> FieldsReadable(s, fields) && FieldsComplete(s, fields)
    decreases fields, 0
  {
    if fields != [] {
      FieldConformsExactly(s, fields[0]);
      FieldsConformExactly(s, fields[1..]);
    }
  }

  lemma {:induction false} FieldConformsExactly(s: Schema, f: Field)
    requires s.StructOf?
    ensures FieldConforms(s, f) <==> FieldReadable(s, f) && FieldComplete(s, f)
    decreases f, 0
  {
    if Known(s, f.id, TypeOf(f.value)) { ConformsExactly(s.slots[f.id], f.value); }
  }

  lemma {:induction false} ElemsConformExactly(s: Schema, elems: seq<Value>)
    ensures ElemsConform(s, elems) <==> ElemsReadable(s, elems) && ElemsComplete(s, elems)
    decreases elems, 0
  {
    if elems != [] {
      ConformsExactly(s, elems[0]);
      ElemsConformExactly(s, elems[1..]);
    }
  }

  /** A generated Read fails on a tree it can otherwise read exactly when a required field is missing somewhere. */
  lemma {:induction false} RequiredExactly(s: Schema, v: Value, rest: seq<byte>, st: Reader)
    requires Readable(s, v) && Wf(v, st.limit) && st.pending == None
    requires st.input == Bytes(v) + rest
    ensures Read(s, st).ok <==> Complete(s, v)
    decreases v
  {
    ConformsExactly(s, v);
    if Complete(s, v) {
      ReadIsProjection(s, v, rest, st);
    } else {
      match s {
        case StructOf(_, _) => StructIncomplete(s, v.fields, rest, st);
        case ListOf(_) => ListIncomplete(s, v.elemType, v.elems, rest, st);
      }
    }
  }

  lemma {:induction false} StructIncomplete(s: Schema, fields: seq<Field>, rest: seq<byte>, st: Reader)
    requires s.StructOf? && FieldsReadable(s, fields) && !Complete(s, VStruct(fields))
    requires WfFields(fields, st.limit) && st.pending == None
    requires st.input == FieldsBytes(fields, 0) + rest
    ensures !Read(s, st).ok
    decreases fields, 1
  {
    RequiredDecoded(s, fields);
    FieldsConformExactly(s, fields);
    hide Ids, ProjectFields, FieldsBytes, WfFields, Known;
    var inner := ReadStructBegin(st);
    if FieldsComplete(s, fields) {
      FieldsAreProjection(s, fields, rest, inner);
    } else {
      FieldsIncomplete(s, fields, rest, inner);
    }
  }

  lemma {:induction false} FieldsIncomplete(s: Schema, fields: seq<Field>, rest: seq<byte>, st: Reader)
    requires s.StructOf? && FieldsReadable(s, fields) && !FieldsComplete(s, fields)
    requires WfFields(fields, st.limit) && st.pending == None
    requires st.input == FieldsBytes(fields, st.lastFieldId) + rest
    ensures !ReadFields(s, st).ok
    decreases fields, 0
  {
    var f := fields[0];
    var tail := FieldsBytes(fields[1..], f.id) + rest;
    Assoc(FieldBytes(f, st.lastFieldId), FieldsBytes(fields[1..], f.id), rest);
    if !FieldComplete(s, f) {
      FieldIncomplete(s, f, tail, st);
    } else {
      if Known(s, f.id, TypeOf(f.value)) {
        ConformsExactly(s.slots[f.id], f.value);
        KnownFieldIsProjection(s, f, tail, st);
      } else {
        CompactSkip.SkipFieldExact(f, CompactSkip.DEFAULT_RECURSION_DEPTH, tail, st);
      }
      FieldsIncomplete(s, fields[1..], rest, st.(input := tail, lastFieldId := f.id));
    }
  }

  lemma {:induction false} FieldIncomplete(s: Schema, f: Field, rest: seq<byte>, st: Reader)
    requires s.StructOf? && FieldReadable(s, f) && !FieldComplete(s, f)
    requires WfField(f, st.limit) && st.pending == None
    requires st.input == FieldBytes(f, st.lastFieldId) + rest
    ensures var h := ReadFieldBegin(st);
            h.ok && h.value == Header(TypeOf(f.value), f.id) && h.value.typ != STOP && !Read(s.slots[f.id], h.st).ok
    decreases f
  {
    hide ReadFieldBegin, FieldBytes;
    FieldBegins(f, rest, st);
    assert !f.value.VBool?;
    hide Read;
    RequiredExactly(s.slots[f.id], f.value, rest, st.(input := Bytes(f.value) + rest, lastFieldId := f.id));
  }

  lemma {:induction false} ListIncomplete(s: Schema, t: TType, elems: seq<Value>, rest: seq<byte>, st: Reader)
    requires s.ListOf? && ElemsReadable(s.elem, elems) && !ElemsComplete(s.elem, elems)
    requires Wf(VColl(false, t, elems), st.limit) && st.pending == None
    requires st.input == CollHeader(t, |elems|) + ElemsBytes(t, elems) + rest
    ensures !Read(s, st).ok
    decreases elems, 1
  {
    hide ReadCollBegin, CollHeader;
    var tail := ElemsBytes(t, elems) + rest;
    Assoc(CollHeader(t, |elems|), ElemsBytes(t, elems), rest);
    CollHeaderRoundTrip(t, |elems|, tail, st);
    ElemsIncomplete(s, t, elems, rest, st.(input := tail));
  }

  lemma {:induction false} ElemsIncomplete(s: Schema, t: TType, elems: seq<Value>, rest: seq<byte>, st: Reader)
    requires s.ListOf? && ElemsReadable(s.elem, elems) && !ElemsComplete(s.elem, elems)
    requires WfElems(t, elems, st.limit) && st.pending == None
    requires st.input == ElemsBytes(t, elems) + rest
    ensures !ReadElems(s, |elems|, st).ok
    decreases elems, 0
  {
    var tail := ElemsBytes(t, elems[1..]) + rest;
    Assoc(Bytes(elems[0]), ElemsBytes(t, elems[1..]), rest);
    RequiredExactly(s.elem, elems[0], tail, st);
    if Complete(s.elem, elems[0]) {
      ConformsExactly(s.elem, elems[0]);
      ReadIsProjection(s.elem, elems[0], tail, st);
      ElemsIncomplete(s, t, elems[1..], rest, st.(input := tail));
    }
  }

  /** An unknown field stops a Read if it is nested deeper than 64 levels, and not otherwise. */
  lemma UnknownFieldDepth(s: Schema, f: Field, rest: seq<byte>, st: Reader)
    requires s.StructOf? && !Known(s, f.id, TypeOf(f.value)) && CompactSkip.MapValuesFit(f.value)
    requires WfField(f, st.limit) && st.pending == None && !f.value.VBool?
    requires st.input == FieldBytes(f, st.lastFieldId) + rest
    ensures CompactSkip.WithinDepth(f.value, 64) ==>
              ReadFields(s, st) == ReadFields(s, st.(input := rest, lastFieldId := f.id))
    ensures !CompactSkip.WithinDepth(f.value, 64) ==> !ReadFields(s, st).ok
  {
    hide ReadFieldBegin, FieldBytes, CompactSkip.WithinDepth, CompactSkip.MapValuesFit, CompactSkip.Skip, Bytes, Read;
    FieldBegins(f, rest, st);
    var inner := st.(input := Bytes(f.value) + rest, lastFieldId := f.id);
    CompactSkip.SkipDepthExact(f.value, 64, rest, inner);
    if CompactSkip.WithinDepth(f.value, 64) { CompactSkip.SkipExact(f.value, 64, rest, inner); }
  }

  // ----- unknown fields do not matter -----

  lemma {:induction false} ProjectAppend(s: Schema, a: seq<Field>, b: seq<Field>)
    requires s.StructOf?
    ensures ProjectFields(s, a + b) == ProjectFields(s, a) + ProjectFields(s, b)
    decreases a
  {
    if a == [] {
      assert a + b == b;
    } else {
      assert (a + b)[0] == a[0] && (a + b)[1..] == a[1..] + b;
      ProjectAppend(s, a[1..], b);
    }
  }

  /**
   Evolution: put any run of fields a struct's Read does not know anywhere into the struct. The bytes change, the ids
   after them are written with other deltas, and the decoded struct is the same.
   */
  lemma UnknownFieldsAreInvisible(
    s: Schema, a: seq<Field>, unknown: seq<Field>, b: seq<Field>, rest: seq<byte>, st: Reader, st': Reader)
    requires s.StructOf?
    requires forall f <- unknown :: !Known(s, f.id, TypeOf(f.value))
    requires Conforms(s, VStruct(a + b)) && Conforms(s, VStruct(a + unknown + b))
    requires Wf(VStruct(a + b), st.limit) && Wf(VStruct(a + unknown + b), st'.limit)
    requires st.pending == None && st'.pending == None
    requires st.input == Bytes(VStruct(a + b)) + rest
    requires st'.input == Bytes(VStruct(a + unknown + b)) + rest
    ensures Read(s, st).ok && Read(s, st').ok && Read(s, st).value == Read(s, st').value
    ensures Read(s, st).st.input == rest && Read(s, st').st.input == rest
  {
    hide Bytes, Wf, Conforms, Read;
    ReadIsProjection(s, VStruct(a + b), rest, st);
    ReadIsProjection(s, VStruct(a + unknown + b), rest, st');
    ProjectionDropsUnknown(s, a, unknown, b);
  }

  lemma ProjectionDropsUnknown(s: Schema, a: seq<Field>, unknown: seq<Field>, b: seq<Field>)
    requires s.StructOf?
    requires forall f <- unknown :: !Known(s, f.id, TypeOf(f.value))
    ensures Project(s, VStruct(a + unknown + b)) == Project(s, VStruct(a + b))
  {
    NoneKnown(s, unknown);
    ProjectAppend(s, a, b);
    ProjectAppend(s, a + unknown, b);
    ProjectAppend(s, a, unknown);
    assert ProjectFields(s, a) + [] == ProjectFields(s, a);
  }

  lemma {:induction false} NoneKnown(s: Schema, fields: seq<Field>)
    requires s.StructOf? && forall f <- fields :: !Known(s, f.id, TypeOf(f.value))
    ensures ProjectFields(s, fields) == []
    decreases fields
  {
    if fields != [] {
      NoneKnown(s, fields[1..]);
    }
  }
}
