/**
 A reader that takes every type from the wire, as a function over the reader state, and the round trip: it undoes
 CompactFormat.Bytes on every value tree.
 */
module CompactReading {
  import opened Widths
  import opened Sequences
  import opened CompactFormat

  // ----- reading whatever is announced -----

  /** Read a value of type t. On any error the whole read fails. */
  function ReadValue(t: TType, st: Reader): (g: Got<Value>)
    ensures Shrinks(st, g.st)
    decreases |st.input|, 1
  {
    match t
    case STOP => Got(false, VBool(false), st)
    case BOOL => var r := ReadBool(st); Got(r.ok, VBool(r.value), r.st)
    case BYTE => var r := ReadI8(st); Got(r.ok, VByte(r.value), r.st)
    case I16 => var r := ReadI16(st); Got(r.ok, VI16(r.value), r.st)
    case I32 => var r := ReadI32(st); Got(r.ok, VI32(r.value), r.st)
    case I64 => var r := ReadI64(st); Got(r.ok, VI64(r.value), r.st)
    case DOUBLE => var r := ReadDouble(st); Got(r.ok, VDouble(r.value), r.st)
    case STRING => var r := ReadBinary(st); Got(r.ok, VBinary(r.value), r.st)
    case STRUCT =>
      var r := ReadFields(ReadStructBegin(st));
      var e := ReadStructEnd(r.st);
      Got(r.ok && e.ok, VStruct(r.value), e.st)
    case MAP =>
      var h := ReadMapBegin(st);
      if !h.ok then Got(false, VMap(STOP, STOP, []), h.st)
      else
        var r := ReadEntries(h.value.keyType, h.value.valueType, h.value.size, h.st);
        Got(r.ok, VMap(h.value.keyType, h.value.valueType, r.value), r.st)
    case _ =>
      var h := ReadCollBegin(st);
      if !h.ok then Got(false, VColl(t == SET, STOP, []), h.st)
      else
        var r := ReadElems(h.value.elemType, h.value.size, h.st);
        Got(r.ok, VColl(t == SET, h.value.elemType, r.value), r.st)
  }

  function ReadFields(st: Reader): (g: Got<seq<Field>>)
    ensures Shrinks(st, g.st)
    decreases |st.input|, 0
  {
    var h := ReadFieldBegin(st);
    if !h.ok || h.value.typ == STOP then Got(h.ok, [], h.st)
    else
      var v := ReadValue(h.value.typ, h.st);
      if !v.ok then Got(false, [], v.st)
      else
        var r := ReadFields(v.st);
        Got(r.ok, [Field(h.value.id, v.value)] + r.value, r.st)
  }

  function ReadElems(t: TType, n: nat, st: Reader): (g: Got<seq<Value>>)
    ensures Shrinks(st, g.st)
    decreases |st.input|, 2, n
  {
    if n == 0 then Got(true, [], st)
    else
      var v := ReadValue(t, st);
      if !v.ok then Got(false, [], v.st)
      else
        var r := ReadElems(t, n - 1, v.st);
        Got(r.ok, [v.value] + r.value, r.st)
  }

  function ReadEntries(k: TType, t: TType, n: nat, st: Reader): (g: Got<seq<Entry>>)
    ensures Shrinks(st, g.st)
    decreases |st.input|, 2, n
  {
    if n == 0 then Got(true, [], st)
    else
      var key := ReadValue(k, st);
      if !key.ok then Got(false, [], key.st)
      else
        var v := ReadValue(t, key.st);
        if !v.ok then Got(false, [], v.st)
        else
          var r := ReadEntries(k, t, n - 1, v.st);
          Got(r.ok, [Entry(key.value, v.value)] + r.value, r.st)
  }

  /** What a tree looks like after a trip over the wire: an empty map has lost its key and value types. */
  function Normal(v: Value): (r: Value)
    ensures TypeOf(r) == TypeOf(v)
    decreases v
  {
    match v
    case VStruct(fields) => VStruct(NormalFields(fields))
    case VColl(isSet, t, elems) => VColl(isSet, t, NormalElems(elems))
    case VMap(k, t, entries) => if entries == [] then VMap(STOP, STOP, []) else VMap(k, t, NormalEntries(entries))
    case _ => v
  }

  function NormalFields(fields: seq<Field>): (r: seq<Field>)
    ensures |r| == |fields|
    decreases fields
  {
    if fields == [] then [] else [NormalField(fields[0])] + NormalFields(fields[1..])
  }

  function NormalField(f: Field): (r: Field)
    decreases f
  {
    Field(f.id, Normal(f.value))
  }

  function NormalElems(elems: seq<Value>): (r: seq<Value>)
    ensures |r| == |elems|
    decreases elems
  {
    if elems == [] then [] else [Normal(elems[0])] + NormalElems(elems[1..])
  }

  function NormalEntries(entries: seq<Entry>): (r: seq<Entry>)
    ensures |r| == |entries|
    decreases entries
  {
    if entries == [] then [] else [NormalEntry(entries[0])] + NormalEntries(entries[1..])
  }

  function NormalEntry(e: Entry): (r: Entry)
    decreases e
  {
    Entry(Normal(e.key), Normal(e.value))
  }

  function LastId(fields: seq<Field>, last: int): (id: int)
  {
    if fields == [] then last else fields[|fields| - 1].id
  }

  lemma LastIdTail(fields: seq<Field>, last: int)
    requires fields != []
    ensures LastId(fields[1..], fields[0].id) == LastId(fields, last)
  {
  }

  /**
   The round trip. Every value tree the protocol can carry reads back as itself (Normal), its bytes and no others are
   consumed, and the field stack, the last field id and the boolean slot are as they were.
   */
  lemma {:induction false} ValueRoundTrip(v: Value, rest: seq<byte>, st: Reader)
    requires Wf(v, st.limit) && st.pending == None
    requires st.input == Bytes(v) + rest
    ensures ReadValue(TypeOf(v), st) == Got(true, Normal(v), st.(input := rest))
    decreases v
  {
    match v {
      case VBool(b) => assert st.input[1..] == rest;
      case VByte(n) => assert st.input[1..] == rest;
      case VI16(n) => I16RoundTrip(n, rest, st);
      case VI32(n) => I32RoundTrip(n, rest, st);
      case VI64(n) => I64RoundTrip(n, rest, st);
      case VDouble(bits) => DoubleRoundTrip(bits, rest, st);
      case VBinary(bytes) => BinaryRoundTrip(bytes, rest, st);
      case VStruct(fields) => StructRoundTrip(fields, rest, st);
      case VColl(isSet, t, elems) => CollRoundTrip(isSet, t, elems, rest, st);
      case VMap(k, t, entries) => MapRoundTrip(k, t, entries, rest, st);
    }
  }

  lemma {:induction false} StructRoundTrip(fields: seq<Field>, rest: seq<byte>, st: Reader)
    requires WfFields(fields, st.limit) && st.pending == None
    requires st.input == FieldsBytes(fields, 0) + rest
    ensures ReadValue(STRUCT, st) == Got(true, VStruct(NormalFields(fields)), st.(input := rest))
    decreases fields, 1
  {
    hide ReadFields;
    var inner := ReadStructBegin(st);
    FieldsRoundTrip(fields, rest, inner);
    assert inner.lastField[..|st.lastField|] == st.lastField;
  }

  lemma {:induction false} FieldsRoundTrip(fields: seq<Field>, rest: seq<byte>, st: Reader)
    requires WfFields(fields, st.limit) && st.pending == None
    requires st.input == FieldsBytes(fields, st.lastFieldId) + rest
    ensures ReadFields(st)
         == Got(true, NormalFields(fields), st.(input := rest, lastFieldId := LastId(fields, st.lastFieldId)))
    decreases fields, 0
  {
    hide ReadValue;
    if fields == [] {
      assert st.input[1..] == rest;
    } else {
      var tail := FieldsBytes(fields[1..], fields[0].id) + rest;
      Assoc(FieldBytes(fields[0], st.lastFieldId), FieldsBytes(fields[1..], fields[0].id), rest);
      FieldRoundTrip(fields[0], tail, st);
      FieldsRoundTrip(fields[1..], rest, st.(input := tail, lastFieldId := fields[0].id));
      LastIdTail(fields, st.lastFieldId);
    }
  }

  lemma {:induction false} FieldRoundTrip(f: Field, rest: seq<byte>, st: Reader)
    requires WfField(f, st.limit) && st.pending == None
    requires st.input == FieldBytes(f, st.lastFieldId) + rest
    ensures var h := ReadFieldBegin(st);
            h.ok && h.value == Header(TypeOf(f.value), f.id) && |h.st.input| < |st.input|
            && ReadValue(TypeOf(f.value), h.st)
            == Got(true, Normal(f.value), st.(input := rest, lastFieldId := f.id))
    decreases f
  {
    FieldBegins(f, rest, st);
    hide ReadFieldBegin, FieldBytes;
    if !f.value.VBool? {
      hide ReadValue;
      ValueRoundTrip(f.value, rest, st.(input := Bytes(f.value) + rest, lastFieldId := f.id));
    }
  }

  lemma {:induction false} CollRoundTrip(isSet: bool, t: TType, elems: seq<Value>, rest: seq<byte>, st: Reader)
    requires Wf(VColl(isSet, t, elems), st.limit) && st.pending == None
    requires st.input == CollHeader(t, |elems|) + ElemsBytes(t, elems) + rest
    ensures ReadValue(if isSet then SET else LIST, st)
         == Got(true, VColl(isSet, t, NormalElems(elems)), st.(input := rest))
    decreases elems, 1
  {
    hide ReadCollBegin, CollHeader, ReadElems;
    var tail := ElemsBytes(t, elems) + rest;
    Assoc(CollHeader(t, |elems|), ElemsBytes(t, elems), rest);
    CollHeaderRoundTrip(t, |elems|, tail, st);
    ElemsRoundTrip(t, elems, rest, st.(input := tail));
  }

  lemma {:induction false} ElemsRoundTrip(t: TType, elems: seq<Value>, rest: seq<byte>, st: Reader)
    requires WfElems(t, elems, st.limit) && st.pending == None
    requires st.input == ElemsBytes(t, elems) + rest
    ensures ReadElems(t, |elems|, st) == Got(true, NormalElems(elems), st.(input := rest))
    decreases elems, 0
  {
    hide ReadValue;
    if elems != [] {
      var tail := ElemsBytes(t, elems[1..]) + rest;
      Assoc(Bytes(elems[0]), ElemsBytes(t, elems[1..]), rest);
      ValueRoundTrip(elems[0], tail, st);
      ElemsRoundTrip(t, elems[1..], rest, st.(input := tail));
    } else {
      assert st.input == rest;
    }
  }

  lemma {:induction false} MapRoundTrip(k: TType, t: TType, entries: seq<Entry>, rest: seq<byte>, st: Reader)
    requires Wf(VMap(k, t, entries), st.limit) && st.pending == None
    requires st.input == MapHeader(k, t, |entries|) + EntriesBytes(k, t, entries) + rest
    ensures ReadValue(MAP, st) == Got(true, Normal(VMap(k, t, entries)), st.(input := rest))
    decreases entries, 1
  {
    hide ReadMapBegin, MapHeader;
    var tail := EntriesBytes(k, t, entries) + rest;
    Assoc(MapHeader(k, t, |entries|), EntriesBytes(k, t, entries), rest);
    MapHeaderRoundTrip(k, t, |entries|, tail, st);
    if entries != [] {
      hide ReadEntries, EntriesBytes;
      EntriesRoundTrip(k, t, entries, rest, st.(input := tail));
    } else {
      assert tail == rest;
    }
  }

  lemma {:induction false} EntriesRoundTrip(k: TType, t: TType, entries: seq<Entry>, rest: seq<byte>, st: Reader)
    requires WfEntries(k, t, entries, st.limit) && st.pending == None
    requires st.input == EntriesBytes(k, t, entries) + rest
    ensures ReadEntries(k, t, |entries|, st) == Got(true, NormalEntries(entries), st.(input := rest))
    decreases entries, 0
  {
    hide ReadValue;
    if entries != [] {
      var tail := EntriesBytes(k, t, entries[1..]) + rest;
      Assoc(EntryBytes(entries[0]), EntriesBytes(k, t, entries[1..]), rest);
      EntryRoundTrip(entries[0], tail, st);
      EntriesRoundTrip(k, t, entries[1..], rest, st.(input := tail));
    } else {
      assert st.input == rest;
    }
  }

  lemma {:induction false} EntryRoundTrip(e: Entry, rest: seq<byte>, st: Reader)
    requires WfEntry(e, st.limit) && st.pending == None
    requires st.input == EntryBytes(e) + rest
    ensures var key := ReadValue(TypeOf(e.key), st);
            key.ok && key.value == Normal(e.key)
            && ReadValue(TypeOf(e.value), key.st) == Got(true, Normal(e.value), st.(input := rest))
    decreases e
  {
    var tail := Bytes(e.value) + rest;
    Assoc(Bytes(e.key), Bytes(e.value), rest);
    ValueRoundTrip(e.key, tail, st);
    ValueRoundTrip(e.value, rest, st.(input := tail));
  }

  /**
   Streams are unambiguous: what one value of a type starts, no other value of that type can start, apart from the
   types of empty maps. So no encoding is a proper prefix of another.
   */
  lemma Unambiguous(v: Value, w: Value, vRest: seq<byte>, wRest: seq<byte>, limit: int32)
    requires Wf(v, limit) && Wf(w, limit) && TypeOf(v) == TypeOf(w)
    requires Bytes(v) + vRest == Bytes(w) + wRest
    ensures Normal(v) == Normal(w) && vRest == wRest
  {
    var st := Reader(Bytes(v) + vRest, [], 0, None, limit);
    ValueRoundTrip(v, vRest, st);
    ValueRoundTrip(w, wRest, st);
  }

  /** The loss is real: empty maps of different types are written alike. */
  lemma EmptyMapsCollide(k: TType, t: TType, k': TType, t': TType)
    ensures Bytes(VMap(k, t, [])) == Bytes(VMap(k', t', []))
  {
  }
}
