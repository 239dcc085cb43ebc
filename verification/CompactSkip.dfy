/**
 Skip (thrift/protocol.go:92-177) over the compact protocol, as a function over the reader state.

 It follows the code's handling of errors: an error while reading a field header looks like the end of the struct, and
 an error while skipping a map value is dropped. Map values are skipped at full depth again.
 */
module CompactSkip {
  import opened Widths
  import opened Sequences
  import opened CompactFormat
  import CompactReading

  const DEFAULT_RECURSION_DEPTH: nat := 64

  /** The remaining input is a termination measure for every byte string, well-formed or not. */
  function Skip(t: TType, depth: int, st: Reader): (g: Got<()>)
    ensures Shrinks(st, g.st)
    decreases |st.input|, 1
  {
    if depth <= 0 then Got(false, (), st)
    else
      match t
      case STOP => Got(false, (), st)
      case BOOL => var r := ReadBool(st); Got(r.ok, (), r.st)
      case BYTE => var r := ReadI8(st); Got(r.ok, (), r.st)
      case I16 => var r := ReadI16(st); Got(r.ok, (), r.st)
      case I32 => var r := ReadI32(st); Got(r.ok, (), r.st)
      case I64 => var r := ReadI64(st); Got(r.ok, (), r.st)
      case DOUBLE => var r := ReadDouble(st); Got(r.ok, (), r.st)
      case STRING => var r := ReadBinary(st); Got(r.ok, (), r.st)
      case STRUCT =>
        var r := SkipFields(depth - 1, ReadStructBegin(st));
        if !r.ok then r else ReadStructEnd(r.st)
      case MAP =>
        var h := ReadMapBegin(st);
        if !h.ok then Got(false, (), h.st)
        else SkipEntries(h.value.keyType, h.value.valueType, h.value.size, depth - 1, h.st)
      case _ =>
        var h := ReadCollBegin(st);
        if !h.ok then Got(false, (), h.st)
        else SkipElems(h.value.elemType, h.value.size, depth - 1, h.st)
  }

  function SkipFields(depth: int, st: Reader): (g: Got<()>)
    ensures Shrinks(st, g.st)
    decreases |st.input|, 0
  {
    var h := ReadFieldBegin(st);
    if h.value.typ == STOP then Got(true, (), h.st)
    else
      var r := Skip(h.value.typ, depth, h.st);
      if !r.ok then r else SkipFields(depth, r.st)
  }

  function SkipElems(t: TType, n: nat, depth: int, st: Reader): (g: Got<()>)
    ensures Shrinks(st, g.st)
    decreases |st.input|, 2, n
  {
    if n == 0 then Got(true, (), st)
    else
      var r := Skip(t, depth, st);
      if !r.ok then r else SkipElems(t, n - 1, depth, r.st)
  }

  function SkipEntries(k: TType, t: TType, n: nat, depth: int, st: Reader): (g: Got<()>)
    ensures Shrinks(st, g.st)
    decreases |st.input|, 2, n
  {
    if n == 0 then Got(true, (), st)
    else
      var key := Skip(k, depth, st);
      if !key.ok then key
      else
        var v := Skip(t, DEFAULT_RECURSION_DEPTH, key.st);
        SkipEntries(k, t, n - 1, depth, v.st)
  }

  // ----- depth -----

  /** The nesting Skip allows: each container spends one level, and map values start again with all of them. */
  predicate WithinDepth(v: Value, depth: int)
    decreases v
  {
    depth > 0
    && match v
       case VStruct(fields) => FieldsWithin(fields, depth - 1)
       case VColl(_, _, elems) => ElemsWithin(elems, depth - 1)
       case VMap(_, _, entries) => EntriesWithin(entries, depth - 1)
       case _ => true
  }

  predicate FieldsWithin(fields: seq<Field>, depth: int)
    decreases fields
  {
    fields == [] || (FieldWithin(fields[0], depth) && FieldsWithin(fields[1..], depth))
  }

  predicate FieldWithin(f: Field, depth: int)
    decreases f
  {
    WithinDepth(f.value, depth)
  }

  predicate ElemsWithin(elems: seq<Value>, depth: int)
    decreases elems
  {
    elems == [] || (WithinDepth(elems[0], depth) && ElemsWithin(elems[1..], depth))
  }

  predicate EntriesWithin(entries: seq<Entry>, depth: int)
    decreases entries
  {
    entries == [] || (EntryWithin(entries[0], depth) && EntriesWithin(entries[1..], depth))
  }

  predicate EntryWithin(e: Entry, depth: int)
    decreases e
  {
    WithinDepth(e.key, depth) && WithinDepth(e.value, DEFAULT_RECURSION_DEPTH)
  }

  /** There is no value of type STOP, nor of a type the header did not know: nothing is taken, and it is an error. */
  lemma NothingToSkip(depth: int, st: Reader)
    ensures Skip(STOP, depth, st) == Got(false, (), st)
  {
  }

  // ----- one step of Skip for each kind of container -----

  lemma SkipStructStep(depth: int, st: Reader)
    requires depth > 0
    ensures Skip(STRUCT, depth, st)
         == var r := SkipFields(depth - 1, ReadStructBegin(st)); if !r.ok then r else ReadStructEnd(r.st)
  {
    hide SkipFields;
  }

  lemma SkipCollStep(isSet: bool, depth: int, st: Reader)
    requires depth > 0
    ensures Skip(if isSet then SET else LIST, depth, st)
         == var h := ReadCollBegin(st);
            if !h.ok then Got(false, (), h.st) else SkipElems(h.value.elemType, h.value.size, depth - 1, h.st)
  {
    hide ReadCollBegin, SkipElems;
  }

  lemma SkipMapStep(depth: int, st: Reader)
    requires depth > 0
    ensures Skip(MAP, depth, st)
         == var h := ReadMapBegin(st);
            if !h.ok then Got(false, (), h.st)
            else SkipEntries(h.value.keyType, h.value.valueType, h.value.size, depth - 1, h.st)
  {
    hide ReadMapBegin, SkipEntries;
  }

  // ----- Skip consumes exactly one value -----

  /**
   On the bytes of any value within the depth limit, Skip succeeds, consumes those bytes and no others, and leaves the
   field stack, the last field id and the boolean slot as they were.
   */
  lemma {:induction false} SkipExact(v: Value, depth: int, rest: seq<byte>, st: Reader)
    requires Wf(v, st.limit) && st.pending == None && WithinDepth(v, depth)
    requires st.input == Bytes(v) + rest
    ensures Skip(TypeOf(v), depth, st) == Got(true, (), st.(input := rest))
    decreases v
  {
    match v {
      case VStruct(fields) => SkipStructExact(fields, depth, rest, st);
      case VColl(isSet, t, elems) => SkipCollExact(isSet, t, elems, depth, rest, st);
      case VMap(k, t, entries) => SkipMapExact(k, t, entries, depth, rest, st);
      case _ => SkipScalarExact(v, depth, rest, st);
    }
  }

  lemma {:induction false} SkipStructExact(fields: seq<Field>, depth: int, rest: seq<byte>, st: Reader)
    requires WfFields(fields, st.limit) && st.pending == None && depth > 0 && FieldsWithin(fields, depth - 1)
    requires st.input == FieldsBytes(fields, 0) + rest
    ensures Skip(STRUCT, depth, st) == Got(true, (), st.(input := rest))
    decreases fields, 1
  {
    SkipStructStep(depth, st);
    hide Skip, SkipFields, FieldsBytes, WfFields, FieldsWithin;
    var inner := ReadStructBegin(st);
    SkipFieldsExact(fields, depth - 1, rest, inner);
    assert inner.lastField[..|st.lastField|] == st.lastField;
  }

  lemma {:induction false} SkipCollExact(
    isSet: bool, t: TType, elems: seq<Value>, depth: int, rest: seq<byte>, st: Reader)
    requires Wf(VColl(isSet, t, elems), st.limit) && st.pending == None && depth > 0 && ElemsWithin(elems, depth - 1)
    requires st.input == CollHeader(t, |elems|) + ElemsBytes(t, elems) + rest
    ensures Skip(if isSet then SET else LIST, depth, st) == Got(true, (), st.(input := rest))
    decreases elems, 1
  {
    SkipCollStep(isSet, depth, st);
    hide Skip, ReadCollBegin, CollHeader, SkipElems, ElemsBytes, WfElems, ElemsWithin;
    var tail := ElemsBytes(t, elems) + rest;
    Assoc(CollHeader(t, |elems|), ElemsBytes(t, elems), rest);
    CollHeaderRoundTrip(t, |elems|, tail, st);
    SkipElemsExact(t, elems, depth - 1, rest, st.(input := tail));
  }

  lemma {:induction false} SkipMapExact(
    k: TType, t: TType, entries: seq<Entry>, depth: int, rest: seq<byte>, st: Reader)
    requires Wf(VMap(k, t, entries), st.limit) && st.pending == None && depth > 0 && EntriesWithin(entries, depth - 1)
    requires st.input == MapHeader(k, t, |entries|) + EntriesBytes(k, t, entries) + rest
    ensures Skip(MAP, depth, st) == Got(true, (), st.(input := rest))
    decreases entries, 1
  {
    SkipMapStep(depth, st);
    hide Skip, ReadMapBegin, MapHeader;
    var tail := EntriesBytes(k, t, entries) + rest;
    Assoc(MapHeader(k, t, |entries|), EntriesBytes(k, t, entries), rest);
    MapHeaderRoundTrip(k, t, |entries|, tail, st);
    if entries != [] {
      hide SkipEntries, EntriesBytes;
      SkipEntriesExact(k, t, entries, depth - 1, rest, st.(input := tail));
    } else {
      assert tail == rest;
    }
  }

  lemma SkipScalarExact(v: Value, depth: int, rest: seq<byte>, st: Reader)
    requires Wf(v, st.limit) && st.pending == None && depth > 0
    requires !v.VStruct? && !v.VColl? && !v.VMap?
    requires st.input == Bytes(v) + rest
    ensures Skip(TypeOf(v), depth, st) == Got(true, (), st.(input := rest))
  {
    CompactReading.ValueRoundTrip(v, rest, st);
  }

  lemma {:induction false} SkipFieldsExact(fields: seq<Field>, depth: int, rest: seq<byte>, st: Reader)
    requires WfFields(fields, st.limit) && st.pending == None && FieldsWithin(fields, depth)
    requires st.input == FieldsBytes(fields, st.lastFieldId) + rest
    ensures SkipFields(depth, st)
         == Got(true, (), st.(input := rest, lastFieldId := CompactReading.LastId(fields, st.lastFieldId)))
    decreases fields, 0
  {
    hide Skip;
    if fields == [] {
      assert st.input[1..] == rest;
    } else {
      var tail := FieldsBytes(fields[1..], fields[0].id) + rest;
      Assoc(FieldBytes(fields[0], st.lastFieldId), FieldsBytes(fields[1..], fields[0].id), rest);
      SkipFieldExact(fields[0], depth, tail, st);
      SkipFieldsExact(fields[1..], depth, rest, st.(input := tail, lastFieldId := fields[0].id));
      CompactReading.LastIdTail(fields, st.lastFieldId);
    }
  }

  lemma {:induction false} SkipFieldExact(f: Field, depth: int, rest: seq<byte>, st: Reader)
    requires WfField(f, st.limit) && st.pending == None && FieldWithin(f, depth)
    requires st.input == FieldBytes(f, st.lastFieldId) + rest
    ensures var h := ReadFieldBegin(st);
            h.ok && h.value == Header(TypeOf(f.value), f.id) && |h.st.input| < |st.input|
            && Skip(TypeOf(f.value), depth, h.st) == Got(true, (), st.(input := rest, lastFieldId := f.id))
    decreases f
  {
    FieldBegins(f, rest, st);
    hide ReadFieldBegin, FieldBytes;
    if !f.value.VBool? {
      hide Skip;
      SkipExact(f.value, depth, rest, st.(input := Bytes(f.value) + rest, lastFieldId := f.id));
    }
  }

  lemma {:induction false} SkipElemsExact(t: TType, elems: seq<Value>, depth: int, rest: seq<byte>, st: Reader)
    requires WfElems(t, elems, st.limit) && st.pending == None && ElemsWithin(elems, depth)
    requires st.input == ElemsBytes(t, elems) + rest
    ensures SkipElems(t, |elems|, depth, st) == Got(true, (), st.(input := rest))
    decreases elems, 0
  {
    hide Skip;
    if elems == [] {
      assert st.input == rest;
    } else {
      var tail := ElemsBytes(t, elems[1..]) + rest;
      Assoc(Bytes(elems[0]), ElemsBytes(t, elems[1..]), rest);
      SkipExact(elems[0], depth, tail, st);
      SkipElemsExact(t, elems[1..], depth, rest, st.(input := tail));
    }
  }

  lemma {:induction false} SkipEntriesExact(
    k: TType, t: TType, entries: seq<Entry>, depth: int, rest: seq<byte>, st: Reader)
    requires WfEntries(k, t, entries, st.limit) && st.pending == None && EntriesWithin(entries, depth)
    requires st.input == EntriesBytes(k, t, entries) + rest
    ensures SkipEntries(k, t, |entries|, depth, st) == Got(true, (), st.(input := rest))
    decreases entries, 0
  {
    hide Skip;
    if entries == [] {
      assert st.input == rest;
    } else {
      var tail := EntriesBytes(k, t, entries[1..]) + rest;
      Assoc(EntryBytes(entries[0]), EntriesBytes(k, t, entries[1..]), rest);
      SkipEntryExact(entries[0], depth, tail, st);
      SkipEntriesExact(k, t, entries[1..], depth, rest, st.(input := tail));
    }
  }

  lemma {:induction false} SkipEntryExact(e: Entry, depth: int, rest: seq<byte>, st: Reader)
    requires WfEntry(e, st.limit) && st.pending == None && EntryWithin(e, depth)
    requires st.input == EntryBytes(e) + rest
    ensures var key := Skip(TypeOf(e.key), depth, st);
            key.ok && Skip(TypeOf(e.value), DEFAULT_RECURSION_DEPTH, key.st) == Got(true, (), st.(input := rest))
    decreases e
  {
    var tail := Bytes(e.value) + rest;
    Assoc(Bytes(e.key), Bytes(e.value), rest);
    SkipExact(e.key, depth, tail, st);
    SkipExact(e.value, DEFAULT_RECURSION_DEPTH, rest, st.(input := tail));
  }

  // ----- the depth limit is exact -----

  /** Where a map value is skipped its error is dropped, so the trees to ask about are those whose map values fit. */
  predicate MapValuesFit(v: Value)
    decreases v
  {
    match v
    case VStruct(fields) => FieldsFit(fields)
    case VColl(_, _, elems) => ElemsFit(elems)
    case VMap(_, _, entries) => EntriesFit(entries)
    case _ => true
  }

  predicate FieldsFit(fields: seq<Field>)
    decreases fields
  {
    fields == [] || (FieldFits(fields[0]) && FieldsFit(fields[1..]))
  }

  predicate FieldFits(f: Field)
    decreases f
  {
    MapValuesFit(f.value)
  }

  predicate ElemsFit(elems: seq<Value>)
    decreases elems
  {
    elems == [] || (MapValuesFit(elems[0]) && ElemsFit(elems[1..]))
  }

  predicate EntriesFit(entries: seq<Entry>)
    decreases entries
  {
    entries == [] || (EntryFits(entries[0]) && EntriesFit(entries[1..]))
  }

  predicate EntryFits(e: Entry)
    decreases e
  {
    MapValuesFit(e.key) && WithinDepth(e.value, DEFAULT_RECURSION_DEPTH)
  }

  /** A failure that stops inside the value: some of its bytes are left in front of what follows it. */
  ghost predicate StopsInside(g: Got<()>, rest: seq<byte>) { !g.ok && |g.st.input| > |rest| }

  lemma {:induction false} BytesNotEmpty(v: Value)
    ensures |Bytes(v)| >= 1
  {
    match v {
      case VStruct(fields) => FieldsBytesNotEmpty(fields, 0);
      case _ =>
    }
  }

  lemma FieldsBytesNotEmpty(fields: seq<Field>, last: int)
    ensures |FieldsBytes(fields, last)| >= 1
  {
    if fields != [] {
      hide Bytes;
      assert |FieldBytes(fields[0], last)| >= 1;
    }
  }

  /** Skip succeeds exactly when the tree is within the depth limit; where it fails it stops inside the value. */
  lemma {:induction false} SkipDepthExact(v: Value, depth: int, rest: seq<byte>, st: Reader)
    requires Wf(v, st.limit) && st.pending == None && MapValuesFit(v)
    requires st.input == Bytes(v) + rest
    ensures Skip(TypeOf(v), depth, st).ok <==> WithinDepth(v, depth)
    ensures !WithinDepth(v, depth) ==> StopsInside(Skip(TypeOf(v), depth, st), rest)
    decreases v
  {
    if WithinDepth(v, depth) {
      SkipExact(v, depth, rest, st);
    } else if depth > 0 {
      hide Skip;
      match v {
        case VStruct(fields) => TooDeepStruct(fields, depth, rest, st);
        case VColl(isSet, t, elems) => TooDeepColl(isSet, t, elems, depth, rest, st);
        case VMap(k, t, entries) => TooDeepMap(k, t, entries, depth, rest, st);
      }
    } else {
      BytesNotEmpty(v);
    }
  }

  lemma {:induction false} TooDeepStruct(fields: seq<Field>, depth: int, rest: seq<byte>, st: Reader)
    requires WfFields(fields, st.limit) && st.pending == None
    requires depth > 0 && FieldsFit(fields) && !FieldsWithin(fields, depth - 1)
    requires st.input == FieldsBytes(fields, 0) + rest
    ensures StopsInside(Skip(STRUCT, depth, st), rest)
    decreases fields, 1
  {
    SkipStructStep(depth, st);
    hide Skip, SkipFields, FieldsBytes, WfFields, FieldsFit, FieldsWithin;
    TooDeepFields(fields, depth - 1, rest, ReadStructBegin(st));
  }

  lemma {:induction false} TooDeepColl(
    isSet: bool, t: TType, elems: seq<Value>, depth: int, rest: seq<byte>, st: Reader)
    requires Wf(VColl(isSet, t, elems), st.limit) && st.pending == None
    requires depth > 0 && ElemsFit(elems) && !ElemsWithin(elems, depth - 1)
    requires st.input == CollHeader(t, |elems|) + ElemsBytes(t, elems) + rest
    ensures StopsInside(Skip(if isSet then SET else LIST, depth, st), rest)
    decreases elems, 1
  {
    SkipCollStep(isSet, depth, st);
    hide Skip, ReadCollBegin, CollHeader, SkipElems, ElemsBytes, WfElems, ElemsWithin;
    var tail := ElemsBytes(t, elems) + rest;
    Assoc(CollHeader(t, |elems|), ElemsBytes(t, elems), rest);
    CollHeaderRoundTrip(t, |elems|, tail, st);
    TooDeepElems(t, elems, depth - 1, rest, st.(input := tail));
  }

  lemma {:induction false} TooDeepMap(
    k: TType, t: TType, entries: seq<Entry>, depth: int, rest: seq<byte>, st: Reader)
    requires Wf(VMap(k, t, entries), st.limit) && st.pending == None
    requires depth > 0 && EntriesFit(entries) && !EntriesWithin(entries, depth - 1)
    requires st.input == MapHeader(k, t, |entries|) + EntriesBytes(k, t, entries) + rest
    ensures StopsInside(Skip(MAP, depth, st), rest)
    decreases entries, 1
  {
    assert entries != [];
    hide WfEntries, EntriesFit, EntriesWithin;
    SkipMapStep(depth, st);
    hide Skip, ReadMapBegin, MapHeader, SkipEntries, EntriesBytes;
    var tail := EntriesBytes(k, t, entries) + rest;
    Assoc(MapHeader(k, t, |entries|), EntriesBytes(k, t, entries), rest);
    MapHeaderRoundTrip(k, t, |entries|, tail, st);
    TooDeepEntries(k, t, entries, depth - 1, rest, st.(input := tail));
  }

  lemma {:induction false} TooDeepFields(fields: seq<Field>, depth: int, rest: seq<byte>, st: Reader)
    requires WfFields(fields, st.limit) && st.pending == None
    requires FieldsFit(fields) && !FieldsWithin(fields, depth)
    requires st.input == FieldsBytes(fields, st.lastFieldId) + rest
    ensures StopsInside(SkipFields(depth, st), rest)
    decreases fields, 0
  {
    hide Skip;
    var f := fields[0];
    var tail := FieldsBytes(fields[1..], f.id) + rest;
    Assoc(FieldBytes(f, st.lastFieldId), FieldsBytes(fields[1..], f.id), rest);
    FieldsBytesNotEmpty(fields[1..], f.id);
    if FieldWithin(f, depth) {
      SkipFieldExact(f, depth, tail, st);
      TooDeepFields(fields[1..], depth, rest, st.(input := tail, lastFieldId := f.id));
    } else {
      TooDeepField(f, depth, tail, st);
    }
  }

  lemma {:induction false} TooDeepField(f: Field, depth: int, rest: seq<byte>, st: Reader)
    requires WfField(f, st.limit) && st.pending == None
    requires FieldFits(f) && !FieldWithin(f, depth)
    requires st.input == FieldBytes(f, st.lastFieldId) + rest
    ensures var h := ReadFieldBegin(st);
            h.ok && h.value == Header(TypeOf(f.value), f.id)
            && var g := Skip(TypeOf(f.value), depth, h.st); !g.ok && |g.st.input| >= |rest|
    decreases f
  {
    FieldBegins(f, rest, st);
    hide ReadFieldBegin, FieldBytes;
    if !f.value.VBool? {
      hide Skip;
      SkipDepthExact(f.value, depth, rest, st.(input := Bytes(f.value) + rest, lastFieldId := f.id));
    }
  }

  lemma {:induction false} TooDeepElems(t: TType, elems: seq<Value>, depth: int, rest: seq<byte>, st: Reader)
    requires WfElems(t, elems, st.limit) && st.pending == None
    requires ElemsFit(elems) && !ElemsWithin(elems, depth)
    requires st.input == ElemsBytes(t, elems) + rest
    ensures StopsInside(SkipElems(t, |elems|, depth, st), rest)
    decreases elems, 0
  {
    hide Skip;
    var tail := ElemsBytes(t, elems[1..]) + rest;
    Assoc(Bytes(elems[0]), ElemsBytes(t, elems[1..]), rest);
    SkipDepthExact(elems[0], depth, tail, st);
    if WithinDepth(elems[0], depth) {
      SkipExact(elems[0], depth, tail, st);
      TooDeepElems(t, elems[1..], depth, rest, st.(input := tail));
    }
  }

  lemma {:induction false} TooDeepEntries(
    k: TType, t: TType, entries: seq<Entry>, depth: int, rest: seq<byte>, st: Reader)
    requires WfEntries(k, t, entries, st.limit) && st.pending == None
    requires EntriesFit(entries) && !EntriesWithin(entries, depth)
    requires st.input == EntriesBytes(k, t, entries) + rest
    ensures StopsInside(SkipEntries(k, t, |entries|, depth, st), rest)
    decreases entries, 0
  {
    hide Skip;
    var e := entries[0];
    var tail := EntriesBytes(k, t, entries[1..]) + rest;
    Assoc(EntryBytes(e), EntriesBytes(k, t, entries[1..]), rest);
    if EntryWithin(e, depth) {
      SkipEntryExact(e, depth, tail, st);
      TooDeepEntries(k, t, entries[1..], depth, rest, st.(input := tail));
    } else {
      TooDeepKey(e, depth, tail, st);
    }
  }

  lemma {:induction false} TooDeepKey(e: Entry, depth: int, rest: seq<byte>, st: Reader)
    requires WfEntry(e, st.limit) && st.pending == None && EntryFits(e) && !EntryWithin(e, depth)
    requires st.input == EntryBytes(e) + rest
    ensures StopsInside(Skip(TypeOf(e.key), depth, st), rest)
    decreases e
  {
    hide Skip, Bytes;
    Assoc(Bytes(e.key), Bytes(e.value), rest);
    SkipDepthExact(e.key, depth, Bytes(e.value) + rest, st);
  }

  // ----- a map value that is too deep -----

  /** All entries but the last fit, and so does the key of the last. */
  predicate FitsToLastKey(entries: seq<Entry>, depth: int)
  {
    entries != [] && (forall i :: 0 <= i < |entries| - 1 ==> EntryWithin(entries[i], depth))
    && WithinDepth(entries[|entries| - 1].key, depth)
  }

  /**
   The error of the last value of a map is lost: Skip succeeds whatever that value's depth. It has then taken the map's
   bytes if and only if the value is within the full depth; otherwise some of them are left to be read as what comes next.
   */
  lemma {:induction false} LastMapValue(
    k: TType, t: TType, entries: seq<Entry>, depth: int, rest: seq<byte>, st: Reader)
    requires Wf(VMap(k, t, entries), st.limit) && st.pending == None && depth > 0
    requires FitsToLastKey(entries, depth - 1)
    requires st.input == Bytes(VMap(k, t, entries)) + rest
    ensures Skip(MAP, depth, st).ok
    ensures var last := entries[|entries| - 1].value;
            MapValuesFit(last) ==>
              if WithinDepth(last, DEFAULT_RECURSION_DEPTH) then Skip(MAP, depth, st) == Got(true, (), st.(input := rest))
              else |Skip(MAP, depth, st).st.input| > |rest|
  {
    SkipMapStep(depth, st);
    hide Skip, ReadMapBegin, MapHeader;
    var tail := EntriesBytes(k, t, entries) + rest;
    Assoc(MapHeader(k, t, |entries|), EntriesBytes(k, t, entries), rest);
    MapHeaderRoundTrip(k, t, |entries|, tail, st);
    hide SkipEntries, EntriesBytes, WithinDepth;
    LastEntry(k, t, entries, depth - 1, rest, st.(input := tail));
  }

  lemma {:induction false} LastEntry(k: TType, t: TType, entries: seq<Entry>, depth: int, rest: seq<byte>, st: Reader)
    requires WfEntries(k, t, entries, st.limit) && st.pending == None && FitsToLastKey(entries, depth)
    requires st.input == EntriesBytes(k, t, entries) + rest
    ensures var g := SkipEntries(k, t, |entries|, depth, st);
            var last := entries[|entries| - 1].value;
            g.ok
            && (MapValuesFit(last) ==>
                  if WithinDepth(last, DEFAULT_RECURSION_DEPTH) then g == Got(true, (), st.(input := rest))
                  else |g.st.input| > |rest|)
    decreases entries
  {
    hide Skip;
    var e := entries[0];
    var tail := EntriesBytes(k, t, entries[1..]) + rest;
    Assoc(EntryBytes(e), EntriesBytes(k, t, entries[1..]), rest);
    if |entries| == 1 {
      assert tail == rest;
      LastValue(e, depth, rest, st);
    } else {
      assert EntryWithin(entries[0], depth);
      SkipEntryExact(e, depth, tail, st);
      assert forall i :: 0 <= i < |entries[1..]| - 1 ==> entries[1..][i] == entries[i + 1];
      LastEntry(k, t, entries[1..], depth, rest, st.(input := tail));
    }
  }

  lemma LastValue(e: Entry, depth: int, rest: seq<byte>, st: Reader)
    requires WfEntry(e, st.limit) && st.pending == None && WithinDepth(e.key, depth)
    requires st.input == EntryBytes(e) + rest
    ensures var key := Skip(TypeOf(e.key), depth, st);
            var g := Skip(TypeOf(e.value), DEFAULT_RECURSION_DEPTH, key.st);
            key.ok
            && (MapValuesFit(e.value) ==>
                  if WithinDepth(e.value, DEFAULT_RECURSION_DEPTH) then g == Got(true, (), st.(input := rest))
                  else |g.st.input| > |rest|)
  {
    hide Skip, WithinDepth, Bytes;
    var tail := Bytes(e.value) + rest;
    Assoc(Bytes(e.key), Bytes(e.value), rest);
    SkipExact(e.key, depth, tail, st);
    if MapValuesFit(e.value) {
      SkipDepthExact(e.value, DEFAULT_RECURSION_DEPTH, rest, st.(input := tail));
      if WithinDepth(e.value, DEFAULT_RECURSION_DEPTH) {
        SkipExact(e.value, DEFAULT_RECURSION_DEPTH, rest, st.(input := tail));
      }
    }
  }
}
