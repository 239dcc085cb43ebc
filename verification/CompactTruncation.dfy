/**
 Skip on input that ends too early (thrift/protocol.go:92-177). An error while reading a field header looks like the end of
 the struct, and an error while skipping a map value is dropped, so some truncations pass for whole values. Here is exactly
 which: for every tree and every point at which its bytes may be cut.
 */
module CompactTruncation {
  import opened Widths
  import opened Sequences
  import opened CompactFormat
  import opened CompactSkip
  import CompactReading
  import Varint

  // ----- which cuts are not noticed -----

  function HeaderOf(f: Field, last: int): (h: seq<byte>)
  {
    if f.value.VBool? then FieldHeader(f.id, BoolByte(f.value.b), last)
    else FieldHeader(f.id, CompactCode(TypeOf(f.value)), last)
  }

  /** The first n bytes of the value, fewer than it has, pass for a whole one: a scalar's never do. */
  predicate Unnoticed(v: Value, n: int)
    decreases v
  {
    match v
    case VStruct(fields) => FieldsUnnoticed(fields, 0, n)
    case VColl(_, t, elems) => n >= |CollHeader(t, |elems|)| && ElemsUnnoticed(t, elems, n - |CollHeader(t, |elems|)|)
    case VMap(k, t, entries) =>
      n >= |MapHeader(k, t, |entries|)| && EntriesUnnoticed(k, entries, n - |MapHeader(k, t, |entries|)|)
    case _ => false
  }

  /** Between two fields, in a field's header, before the stop byte, or where the value of a field lets it pass. */
  predicate FieldsUnnoticed(fields: seq<Field>, last: int, n: int)
    decreases fields
  {
    fields == []
    || (if n < |FieldBytes(fields[0], last)| then FieldUnnoticed(fields[0], last, n)
        else FieldsUnnoticed(fields[1..], fields[0].id, n - |FieldBytes(fields[0], last)|))
  }

  predicate FieldUnnoticed(f: Field, last: int, n: int)
    decreases f
  {
    n < |HeaderOf(f, last)| || Unnoticed(f.value, n - |HeaderOf(f, last)|)
  }

  /** The elements behind the cut are then looked for in no input at all, where only structs are found. */
  predicate ElemsUnnoticed(t: TType, elems: seq<Value>, n: int)
    decreases elems
  {
    elems != []
    && if n < |Bytes(elems[0])| then Unnoticed(elems[0], n) && (|elems| == 1 || t == STRUCT)
       else ElemsUnnoticed(t, elems[1..], n - |Bytes(elems[0])|)
  }

  /** In a map value every cut passes, and after it the keys of the entries that are left. */
  predicate EntriesUnnoticed(k: TType, entries: seq<Entry>, n: int)
    decreases entries
  {
    entries != []
    && if n < |EntryBytes(entries[0])| then EntryUnnoticed(entries[0], n) && (|entries| == 1 || k == STRUCT)
       else EntriesUnnoticed(k, entries[1..], n - |EntryBytes(entries[0])|)
  }

  predicate EntryUnnoticed(e: Entry, n: int)
    decreases e
  {
    n >= |Bytes(e.key)| || Unnoticed(e.key, n)
  }

  // ----- reading what is not there -----

  /** The input is used up, no boolean is pending, and the stack has not lost anything. */
  ghost predicate UsedUp(st: Reader, after: Reader)
  {
    after.input == [] && after.pending == None && after.limit == st.limit && |after.lastField| >= |st.lastField|
  }

  ghost predicate Outcome(g: Got<()>, st: Reader, ok: bool) { g.ok == ok && UsedUp(st, g.st) }

  lemma {:induction false} VarintCut(u: nat, n: nat)
    requires n < |Varint.Encode(u)|
    ensures !Varint.Decode(Varint.Encode(u)[..n]).ok && Varint.Decode(Varint.Encode(u)[..n]).rest == []
  {
    if u >= 128 && n > 0 {
      assert Varint.Encode(u)[..n][1..] == Varint.Encode(u / 128)[..n - 1];
      VarintCut(u / 128, n - 1);
    }
  }

  lemma EmptySkip(t: TType, depth: int, st: Reader)
    requires st.input == [] && st.pending == None && depth > 0 && t != STOP
    ensures Outcome(Skip(t, depth, st), st, t == STRUCT)
  {
  }

  lemma EmptyElems(t: TType, n: nat, depth: int, st: Reader)
    requires st.input == [] && st.pending == None && depth > 0 && t != STOP
    ensures Outcome(SkipElems(t, n, depth, st), st, n == 0 || t == STRUCT)
    decreases n
  {
    if n > 0 {
      EmptySkip(t, depth, st);
      hide Skip;
      EmptyElems(t, n - 1, depth, Skip(t, depth, st).st);
    }
  }

  lemma EmptyEntries(k: TType, t: TType, n: nat, depth: int, st: Reader)
    requires st.input == [] && st.pending == None && depth > 0 && k != STOP && t != STOP
    ensures Outcome(SkipEntries(k, t, n, depth, st), st, n == 0 || k == STRUCT)
    decreases n
  {
    if n > 0 {
      EmptySkip(k, depth, st);
      var key := Skip(k, depth, st);
      EmptySkip(t, DEFAULT_RECURSION_DEPTH, key.st);
      hide Skip;
      EmptyEntries(k, t, n - 1, depth, Skip(t, DEFAULT_RECURSION_DEPTH, key.st).st);
    }
  }

  // ----- headers and scalars cut off -----

  lemma FieldHeaderCut(id: int16, code: byte, n: nat, st: Reader)
    requires 0 < code < 16 && n < |FieldHeader(id, code, st.lastFieldId)|
    requires st.input == FieldHeader(id, code, st.lastFieldId)[..n]
    ensures var h := ReadFieldBegin(st); !h.ok && h.value.typ == STOP && h.st == st.(input := [])
  {
    hide Varint.Encode, Varint.Decode, Varint.Int32ToZigzag, Varint.ZigzagToInt32;
    hide Unsigned32, Truncate16, Truncate32, TypeOfCode;
    if n > 0 {
      var word := Unsigned32(Varint.Int32ToZigzag(id));
      assert st.input[1..] == Varint.Encode(word)[..n - 1];
      VarintCut(word, n - 1);
    }
  }

  lemma CollHeaderCut(t: TType, size: nat, n: nat, st: Reader)
    requires n < |CollHeader(t, size)| && st.input == CollHeader(t, size)[..n]
    ensures var h := ReadCollBegin(st); !h.ok && h.st == st.(input := [])
  {
    hide Varint.Encode, Varint.Decode;
    if n > 0 {
      CodeRoundTrip(t, 15);
      assert st.input[1..] == Varint.Encode(size)[..n - 1];
      VarintCut(size, n - 1);
    }
  }

  lemma MapHeaderCut(k: TType, t: TType, size: nat, n: nat, st: Reader)
    requires size < 0x8000_0000 && n < |MapHeader(k, t, size)| && st.input == MapHeader(k, t, size)[..n]
    ensures var h := ReadMapBegin(st); !h.ok && h.st == st.(input := [])
  {
    hide Varint.Encode, Varint.Decode;
    if size > 0 {
      var encoded := Varint.Encode(size);
      if n < |encoded| {
        assert st.input == encoded[..n];
        VarintCut(size, n);
      } else {
        assert st.input == encoded + [];
        SizeRoundTrip(size, [], st);
      }
    }
  }

  lemma BinaryCut(bytes: seq<byte>, n: nat, st: Reader)
    requires |bytes| <= st.limit && n < |Bytes(VBinary(bytes))| && st.input == Bytes(VBinary(bytes))[..n]
    ensures var g := ReadBinary(st); !g.ok && g.st == st.(input := [])
  {
    hide Varint.Encode, Varint.Decode;
    var encoded := Varint.Encode(|bytes|);
    CutConcat(encoded, bytes, n);
    if n < |encoded| {
      VarintCut(|bytes|, n);
    } else {
      SizeRoundTrip(|bytes|, bytes[..n - |encoded|], st);
    }
  }

  predicate IsScalar(v: Value) { !v.VStruct? && !v.VColl? && !v.VMap? }

  lemma ScalarCut(v: Value, n: nat, depth: int, st: Reader)
    requires Wf(v, st.limit) && st.pending == None && depth > 0 && IsScalar(v)
    requires n < |Bytes(v)| && st.input == Bytes(v)[..n]
    ensures Outcome(Skip(TypeOf(v), depth, st), st, false)
  {
    hide Varint.Encode, Varint.Decode;
    match v {
      case VI16(i) => VarintCut(Unsigned32(Varint.Int32ToZigzag(i)), n);
      case VI32(i) => VarintCut(Unsigned32(Varint.Int32ToZigzag(i)), n);
      case VI64(i) => VarintCut(Unsigned64(Varint.Int64ToZigzag(i)), n);
      case VBinary(bytes) => BinaryCut(bytes, n, st);
      case _ =>
    }
  }

  // ----- values cut off -----

  /**
   Of a value within the depth limit only the first n bytes are there. Skip uses up the input, and fails if and only if the
   cut is not one of the unnoticed ones.
   */
  lemma {:induction false} TruncationExact(v: Value, n: nat, depth: int, st: Reader)
    requires Wf(v, st.limit) && st.pending == None && WithinDepth(v, depth)
    requires n < |Bytes(v)| && st.input == Bytes(v)[..n]
    ensures Skip(TypeOf(v), depth, st).ok <==> Unnoticed(v, n)
    ensures UsedUp(st, Skip(TypeOf(v), depth, st).st)
    decreases v
  {
    hide Skip;
    match v {
      case VStruct(fields) => CutStruct(fields, n, depth, st);
      case VColl(isSet, t, elems) => CutColl(isSet, t, elems, n, depth, st);
      case VMap(k, t, entries) => CutMap(k, t, entries, n, depth, st);
      case _ => ScalarCut(v, n, depth, st);
    }
  }

  lemma StructEnds(st: Reader, r: Reader)
    requires UsedUp(ReadStructBegin(st), r)
    ensures ReadStructEnd(r).ok && UsedUp(st, ReadStructEnd(r).st)
  {
  }

  lemma {:induction false} CutStruct(fields: seq<Field>, n: nat, depth: int, st: Reader)
    requires WfFields(fields, st.limit) && st.pending == None && depth > 0 && FieldsWithin(fields, depth - 1)
    requires n < |FieldsBytes(fields, 0)| && st.input == FieldsBytes(fields, 0)[..n]
    ensures Outcome(Skip(STRUCT, depth, st), st, FieldsUnnoticed(fields, 0, n))
    decreases fields, 1
  {
    SkipStructStep(depth, st);
    hide Skip, SkipFields, FieldsUnnoticed, FieldsBytes, WfFields, FieldsWithin, ReadStructEnd;
    var inner := ReadStructBegin(st);
    CutFields(fields, n, depth - 1, inner);
    StructEnds(st, SkipFields(depth - 1, inner).st);
  }

  lemma {:induction false} CutFields(fields: seq<Field>, n: nat, depth: int, st: Reader)
    requires WfFields(fields, st.limit) && st.pending == None && FieldsWithin(fields, depth)
    requires n < |FieldsBytes(fields, st.lastFieldId)| && st.input == FieldsBytes(fields, st.lastFieldId)[..n]
    ensures Outcome(SkipFields(depth, st), st, FieldsUnnoticed(fields, st.lastFieldId, n))
    decreases fields, 0
  {
    hide Skip, ReadFieldBegin, FieldUnnoticed, HeaderOf;
    if fields == [] {
      EmptyFields(depth, st);
    } else {
      var f := fields[0];
      var first, more := FieldBytes(f, st.lastFieldId), FieldsBytes(fields[1..], f.id);
      CutConcat(first, more, n);
      if n < |first| {
        CutField(f, n, depth, st);
        var h := ReadFieldBegin(st);
        if n >= |HeaderOf(f, st.lastFieldId)| {
          var g := Skip(TypeOf(f.value), depth, h.st);
          if g.ok { EmptyFields(depth, g.st); }
        }
      } else {
        var tail := more[..n - |first|];
        SkipFieldExact(f, depth, tail, st);
        CutFields(fields[1..], n - |first|, depth, st.(input := tail, lastFieldId := f.id));
      }
    }
  }

  lemma EmptyFields(depth: int, st: Reader)
    requires st.input == []
    ensures SkipFields(depth, st) == Got(true, (), st)
  {
  }

  lemma {:induction false} CutField(f: Field, n: nat, depth: int, st: Reader)
    requires WfField(f, st.limit) && st.pending == None && FieldWithin(f, depth)
    requires n < |FieldBytes(f, st.lastFieldId)| && st.input == FieldBytes(f, st.lastFieldId)[..n]
    ensures var h := ReadFieldBegin(st);
            if n < |HeaderOf(f, st.lastFieldId)| then h.value.typ == STOP && UsedUp(st, h.st)
            else h.value.typ == TypeOf(f.value) && h.value.typ != STOP
                 && Outcome(Skip(TypeOf(f.value), depth, h.st), st, FieldUnnoticed(f, st.lastFieldId, n))
    ensures n < |HeaderOf(f, st.lastFieldId)| ==> FieldUnnoticed(f, st.lastFieldId, n)
    decreases f
  {
    hide ReadFieldBegin, FieldHeader, Skip, Unnoticed, Bytes;
    if f.value.VBool? {
      FieldHeaderCut(f.id, BoolByte(f.value.b), n, st);
    } else {
      var code := CompactCode(TypeOf(f.value));
      var head := FieldHeader(f.id, code, st.lastFieldId);
      CutConcat(head, Bytes(f.value), n);
      if n < |head| {
        FieldHeaderCut(f.id, code, n, st);
      } else {
        var tail := Bytes(f.value)[..n - |head|];
        FieldHeaderRoundTrip(f.id, code, TypeOf(f.value), tail, st);
        TruncationExact(f.value, n - |head|, depth, st.(input := tail, lastFieldId := f.id));
      }
    }
  }

  lemma CutInCollHeader(isSet: bool, t: TType, size: nat, n: nat, depth: int, st: Reader)
    requires st.pending == None && depth > 0
    requires n < |CollHeader(t, size)| && st.input == CollHeader(t, size)[..n]
    ensures Outcome(Skip(if isSet then SET else LIST, depth, st), st, false)
  {
    SkipCollStep(isSet, depth, st);
    hide Skip, ReadCollBegin, CollHeader, SkipElems;
    CollHeaderCut(t, size, n, st);
  }

  lemma {:induction false} CutAfterCollHeader(isSet: bool, t: TType, elems: seq<Value>, n: nat, depth: int, st: Reader)
    requires |elems| < 0x8000_0000 && t != STOP && WfElems(t, elems, st.limit) && st.pending == None
    requires depth > 0 && ElemsWithin(elems, depth - 1)
    requires n < |ElemsBytes(t, elems)| && st.input == CollHeader(t, |elems|) + ElemsBytes(t, elems)[..n]
    ensures Outcome(Skip(if isSet then SET else LIST, depth, st), st, ElemsUnnoticed(t, elems, n))
    decreases elems, 1
  {
    SkipCollStep(isSet, depth, st);
    hide Skip, ReadCollBegin, CollHeader, SkipElems, ElemsUnnoticed, ElemsBytes, WfElems, ElemsWithin;
    var tail := ElemsBytes(t, elems)[..n];
    CollHeaderRoundTrip(t, |elems|, tail, st);
    CutElems(t, elems, n, depth - 1, st.(input := tail));
  }

  lemma {:induction false} CutColl(isSet: bool, t: TType, elems: seq<Value>, n: nat, depth: int, st: Reader)
    requires |elems| < 0x8000_0000 && t != STOP && WfElems(t, elems, st.limit) && st.pending == None
    requires depth > 0 && ElemsWithin(elems, depth - 1)
    requires n < |CollHeader(t, |elems|) + ElemsBytes(t, elems)|
    requires st.input == (CollHeader(t, |elems|) + ElemsBytes(t, elems))[..n]
    ensures var head := |CollHeader(t, |elems|)|;
            Outcome(Skip(if isSet then SET else LIST, depth, st), st, n >= head && ElemsUnnoticed(t, elems, n - head))
    decreases elems, 2
  {
    hide Skip, CollHeader, ElemsUnnoticed, ElemsBytes, WfElems, ElemsWithin;
    var head := CollHeader(t, |elems|);
    CutConcat(head, ElemsBytes(t, elems), n);
    if n < |head| {
      CutInCollHeader(isSet, t, |elems|, n, depth, st);
    } else {
      CutAfterCollHeader(isSet, t, elems, n - |head|, depth, st);
    }
  }

  lemma {:induction false} CutElems(t: TType, elems: seq<Value>, n: nat, depth: int, st: Reader)
    requires WfElems(t, elems, st.limit) && st.pending == None && ElemsWithin(elems, depth) && t != STOP
    requires n < |ElemsBytes(t, elems)| && st.input == ElemsBytes(t, elems)[..n]
    ensures Outcome(SkipElems(t, |elems|, depth, st), st, ElemsUnnoticed(t, elems, n))
    decreases elems, 0
  {
    hide Skip, Unnoticed;
    var first, more := Bytes(elems[0]), ElemsBytes(t, elems[1..]);
    CutConcat(first, more, n);
    if n < |first| {
      TruncationExact(elems[0], n, depth, st);
      EmptyElems(t, |elems| - 1, depth, Skip(t, depth, st).st);
    } else {
      var tail := more[..n - |first|];
      SkipExact(elems[0], depth, tail, st);
      CutElems(t, elems[1..], n - |first|, depth, st.(input := tail));
    }
  }

  lemma CutInMapHeader(k: TType, t: TType, size: nat, n: nat, depth: int, st: Reader)
    requires size < 0x8000_0000 && st.pending == None && depth > 0
    requires n < |MapHeader(k, t, size)| && st.input == MapHeader(k, t, size)[..n]
    ensures Outcome(Skip(MAP, depth, st), st, false)
  {
    hide Skip, ReadMapBegin, MapHeader, SkipEntries;
    SkipMapStep(depth, st);
    MapHeaderCut(k, t, size, n, st);
  }

  lemma {:induction false} CutAfterMapHeader(k: TType, t: TType, entries: seq<Entry>, n: nat, depth: int, st: Reader)
    requires |entries| < 0x8000_0000 && k != STOP && t != STOP && WfEntries(k, t, entries, st.limit)
    requires st.pending == None && depth > 0 && EntriesWithin(entries, depth - 1)
    requires n < |EntriesBytes(k, t, entries)|
    requires st.input == MapHeader(k, t, |entries|) + EntriesBytes(k, t, entries)[..n]
    ensures Outcome(Skip(MAP, depth, st), st, EntriesUnnoticed(k, entries, n))
    decreases entries, 1
  {
    assert entries != [];
    hide Skip, ReadMapBegin, MapHeader, SkipEntries, EntriesUnnoticed, EntriesBytes, WfEntries, EntriesWithin;
    SkipMapStep(depth, st);
    var tail := EntriesBytes(k, t, entries)[..n];
    MapHeaderRoundTrip(k, t, |entries|, tail, st);
    CutEntries(k, t, entries, n, depth - 1, st.(input := tail));
  }

  lemma {:induction false} CutMap(k: TType, t: TType, entries: seq<Entry>, n: nat, depth: int, st: Reader)
    requires |entries| < 0x8000_0000 && k != STOP && t != STOP && WfEntries(k, t, entries, st.limit)
    requires st.pending == None && depth > 0 && EntriesWithin(entries, depth - 1)
    requires n < |MapHeader(k, t, |entries|) + EntriesBytes(k, t, entries)|
    requires st.input == (MapHeader(k, t, |entries|) + EntriesBytes(k, t, entries))[..n]
    ensures var head := |MapHeader(k, t, |entries|)|;
            Outcome(Skip(MAP, depth, st), st, n >= head && EntriesUnnoticed(k, entries, n - head))
    decreases entries, 2
  {
    hide Skip, ReadMapBegin, MapHeader, SkipEntries, EntriesUnnoticed, EntriesBytes, WfEntries, EntriesWithin;
    var head := MapHeader(k, t, |entries|);
    CutConcat(head, EntriesBytes(k, t, entries), n);
    if n < |head| {
      CutInMapHeader(k, t, |entries|, n, depth, st);
    } else {
      CutAfterMapHeader(k, t, entries, n - |head|, depth, st);
    }
  }

  lemma {:induction false} CutEntries(k: TType, t: TType, entries: seq<Entry>, n: nat, depth: int, st: Reader)
    requires WfEntries(k, t, entries, st.limit) && st.pending == None && EntriesWithin(entries, depth)
    requires k != STOP && t != STOP
    requires n < |EntriesBytes(k, t, entries)| && st.input == EntriesBytes(k, t, entries)[..n]
    ensures Outcome(SkipEntries(k, t, |entries|, depth, st), st, EntriesUnnoticed(k, entries, n))
    decreases entries, 0
  {
    hide Skip, EntryUnnoticed;
    var e := entries[0];
    var first, more := EntryBytes(e), EntriesBytes(k, t, entries[1..]);
    CutConcat(first, more, n);
    if n < |first| {
      CutEntry(e, n, depth, st);
      var key := Skip(k, depth, st);
      if key.ok { EmptyEntries(k, t, |entries| - 1, depth, Skip(t, DEFAULT_RECURSION_DEPTH, key.st).st); }
    } else {
      var tail := more[..n - |first|];
      SkipEntryExact(e, depth, tail, st);
      CutEntries(k, t, entries[1..], n - |first|, depth, st.(input := tail));
    }
  }

  lemma {:induction false} CutEntry(e: Entry, n: nat, depth: int, st: Reader)
    requires WfEntry(e, st.limit) && st.pending == None && EntryWithin(e, depth)
    requires TypeOf(e.value) != STOP
    requires n < |EntryBytes(e)| && st.input == EntryBytes(e)[..n]
    ensures var key := Skip(TypeOf(e.key), depth, st);
            key.ok == EntryUnnoticed(e, n)
            && (if key.ok then UsedUp(st, Skip(TypeOf(e.value), DEFAULT_RECURSION_DEPTH, key.st).st) else UsedUp(st, key.st))
    decreases e
  {
    hide Skip, Unnoticed, Bytes;
    CutConcat(Bytes(e.key), Bytes(e.value), n);
    if n < |Bytes(e.key)| {
      TruncationExact(e.key, n, depth, st);
      var key := Skip(TypeOf(e.key), depth, st);
      if key.ok { EmptySkip(TypeOf(e.value), DEFAULT_RECURSION_DEPTH, key.st); }
    } else {
      var tail := Bytes(e.value)[..n - |Bytes(e.key)|];
      SkipExact(e.key, depth, tail, st);
      TruncationExact(e.value, n - |Bytes(e.key)|, DEFAULT_RECURSION_DEPTH, st.(input := tail));
    }
  }

  // ----- what the rules mean for structs -----

  /** A struct without its stop byte is skipped without an error, and the protocol is left as if it had been whole. */
  lemma {:induction false} MissingStop(fields: seq<Field>, cut: seq<byte>, depth: int, st: Reader)
    requires WfFields(fields, st.limit) && st.pending == None && depth > 0 && FieldsWithin(fields, depth - 1)
    requires cut + [0] == FieldsBytes(fields, 0) && st.input == cut
    ensures Skip(STRUCT, depth, st) == Got(true, (), st.(input := []))
  {
    hide Skip, SkipFields, FieldsBytes, WfFields, FieldsWithin;
    var inner := ReadStructBegin(st);
    assert cut == cut + [];
    SkipsPrefix(fields, cut, [], depth - 1, inner);
    EmptyFields(depth - 1, inner.(input := [], lastFieldId := CompactReading.LastId(fields, 0)));
    SkipStructStep(depth, st);
    assert inner.lastField[..|st.lastField|] == st.lastField;
  }

  /** Complete fields are passed whatever follows them. */
  lemma {:induction false} SkipsPrefix(fields: seq<Field>, cut: seq<byte>, rest: seq<byte>, depth: int, st: Reader)
    requires WfFields(fields, st.limit) && st.pending == None && FieldsWithin(fields, depth)
    requires cut + [0] == FieldsBytes(fields, st.lastFieldId) && st.input == cut + rest
    ensures SkipFields(depth, st)
         == SkipFields(depth, st.(input := rest, lastFieldId := CompactReading.LastId(fields, st.lastFieldId)))
    decreases fields
  {
    hide Skip, ReadFieldBegin;
    if fields == [] {
      assert cut == [] && cut + rest == rest;
    } else {
      var f := fields[0];
      var first, more := FieldBytes(f, st.lastFieldId), FieldsBytes(fields[1..], f.id);
      FieldsBytesNotEmpty(fields[1..], f.id);
      var left := cut[|first|..];
      assert cut == first + left && left + [0] == more by {
        assert (cut + [0])[..|first|] == first && (cut + [0])[|first|..] == more;
      }
      Assoc(first, left, rest);
      SkipFieldExact(f, depth, left + rest, st);
      SkipsPrefix(fields[1..], left, rest, depth, st.(input := left + rest, lastFieldId := f.id));
      CompactReading.LastIdTail(fields, st.lastFieldId);
    }
  }

  /**
   When a field header is taken for the end of the struct: at the end of the input, at a stop byte, at a type that does not
   exist, and where the id of a long header does not end.
   */
  lemma TakenForStop(st: Reader)
    ensures ReadFieldBegin(st).value.typ == STOP
       <==> st.input == [] || st.input[0] % 16 == 0 || st.input[0] % 16 >= 13
            || (st.input[0] / 16 == 0 && !Varint.Decode(st.input[1..]).ok)
  {
    hide Varint.Decode;
  }

  lemma UnknownTypeStops(b: byte, rest: seq<byte>, depth: int, st: Reader)
    requires b % 16 >= 13 && b / 16 != 0 && st.input == [b] + rest
    ensures SkipFields(depth, st) == Got(true, (), st.(input := rest))
  {
    hide Skip;
    assert ([b] + rest)[1..] == rest;
  }

  /** After any fields an unknown type ends the struct without an error, and what follows it is left in the input. */
  lemma UnknownTypeEndsStruct(fields: seq<Field>, cut: seq<byte>, b: byte, rest: seq<byte>, depth: int, st: Reader)
    requires WfFields(fields, st.limit) && st.pending == None && depth > 0 && FieldsWithin(fields, depth - 1)
    requires cut + [0] == FieldsBytes(fields, 0) && b % 16 >= 13 && b / 16 != 0 && st.input == cut + ([b] + rest)
    ensures Skip(STRUCT, depth, st) == Got(true, (), st.(input := rest))
  {
    hide Skip, SkipFields, FieldsBytes, WfFields, FieldsWithin;
    var inner := ReadStructBegin(st);
    SkipsPrefix(fields, cut, [b] + rest, depth - 1, inner);
    var at := inner.(input := [b] + rest, lastFieldId := CompactReading.LastId(fields, 0));
    UnknownTypeStops(b, rest, depth - 1, at);
    SkipStructStep(depth, st);
    assert inner.lastField[..|st.lastField|] == st.lastField;
  }

  /** Where one field of a struct ends and the next begins, or lies within a header: the cuts between values. */
  predicate BetweenValues(fields: seq<Field>, last: int, n: int)
    decreases fields
  {
    fields == [] || n < |HeaderOf(fields[0], last)|
    || (n >= |FieldBytes(fields[0], last)| && BetweenValues(fields[1..], fields[0].id, n - |FieldBytes(fields[0], last)|))
  }

  /** For a struct of scalars the unnoticed cuts are those at a field boundary or inside a field header. */
  lemma {:induction false} ScalarStructCuts(fields: seq<Field>, last: int, n: nat)
    requires forall f <- fields :: IsScalar(f.value)
    ensures FieldsUnnoticed(fields, last, n) <==> BetweenValues(fields, last, n)
    decreases fields
  {
    hide HeaderOf;
    if fields != [] {
      assert fields[0] in fields && forall f <- fields[1..] :: f in fields;
      ScalarField(fields[0], last, n);
      if n >= |FieldBytes(fields[0], last)| {
        ScalarStructCuts(fields[1..], fields[0].id, n - |FieldBytes(fields[0], last)|);
      }
    }
  }

  lemma ScalarField(f: Field, last: int, n: int)
    requires IsScalar(f.value)
    ensures FieldUnnoticed(f, last, n) <==> n < |HeaderOf(f, last)|
    ensures |HeaderOf(f, last)| <= |FieldBytes(f, last)|
  {
  }
}
