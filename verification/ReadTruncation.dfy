/**
 Generated Read methods on input that ends too early (thrift-gen/jaeger/jaeger.go). Skip lets some truncations pass, but
 a struct that is read field by field notices every one: nothing is left where its stop byte should be.
 */
module ReadTruncation {
  import opened Widths
  import opened Sequences
  import opened CompactFormat
  import opened GeneratedRead
  import CompactReading
  import CompactSkip
  import CompactTruncation
  import Varint

  /** A scalar is skipped by reading it. */
  lemma SkipsAsRead(t: TType, st: Reader)
    requires Scalar(t)
    ensures CompactSkip.Skip(t, 1, st).ok == CompactReading.ReadValue(t, st).ok
  {
  }

  lemma NothingToRead(s: Schema, st: Reader)
    requires s.StructOf? && st.input == []
    ensures !ReadFields(s, st).ok
  {
  }

  /** Of a value only the first n bytes are there: no generated Read takes them for the value, whatever is unknown to it. */
  lemma {:induction false} ReadNoticesTruncation(s: Schema, v: Value, n: nat, st: Reader)
    requires Conforms(s, v) && Wf(v, st.limit) && st.pending == None
    requires n < |Bytes(v)| && st.input == Bytes(v)[..n]
    ensures !Read(s, st).ok
    decreases v
  {
    match s {
      case Leaf(t) =>
        hide CompactReading.ReadValue, CompactSkip.Skip;
        CompactTruncation.ScalarCut(v, n, 1, st);
        SkipsAsRead(t, st);
      case StructOf(_, _) => FieldsCut(s, v.fields, n, ReadStructBegin(st));
      case ListOf(_) => ListCut(s, v.elemType, v.elems, n, st);
    }
  }

  lemma {:induction false} FieldsCut(s: Schema, fields: seq<Field>, n: nat, st: Reader)
    requires s.StructOf? && FieldsConform(s, fields) && WfFields(fields, st.limit) && st.pending == None
    requires n < |FieldsBytes(fields, st.lastFieldId)| && st.input == FieldsBytes(fields, st.lastFieldId)[..n]
    ensures !ReadFields(s, st).ok
    decreases fields, 0
  {
    hide Read, CompactSkip.Skip;
    if fields == [] {
      NothingToRead(s, st);
    } else {
      var f := fields[0];
      var first, more := FieldBytes(f, st.lastFieldId), FieldsBytes(fields[1..], f.id);
      CutConcat(first, more, n);
      if n < |first| {
        FieldCut(s, f, n, st);
      } else {
        var tail := more[..n - |first|];
        if Known(s, f.id, TypeOf(f.value)) {
          KnownFieldIsProjection(s, f, tail, st);
        } else {
          CompactSkip.SkipFieldExact(f, CompactSkip.DEFAULT_RECURSION_DEPTH, tail, st);
        }
        FieldsCut(s, fields[1..], n - |first|, st.(input := tail, lastFieldId := f.id));
      }
    }
  }

  lemma {:induction false} FieldCut(s: Schema, f: Field, n: nat, st: Reader)
    requires s.StructOf? && FieldConforms(s, f) && WfField(f, st.limit) && st.pending == None
    requires n < |FieldBytes(f, st.lastFieldId)| && st.input == FieldBytes(f, st.lastFieldId)[..n]
    ensures !ReadFields(s, st).ok
    decreases f
  {
    hide ReadFieldBegin, FieldHeader, Read, CompactSkip.Skip, Bytes;
    if f.value.VBool? {
      CompactTruncation.FieldHeaderCut(f.id, BoolByte(f.value.b), n, st);
    } else {
      var code := CompactCode(TypeOf(f.value));
      var head := FieldHeader(f.id, code, st.lastFieldId);
      CutConcat(head, Bytes(f.value), n);
      if n < |head| {
        CompactTruncation.FieldHeaderCut(f.id, code, n, st);
      } else {
        var tail := Bytes(f.value)[..n - |head|];
        var inner := st.(input := tail, lastFieldId := f.id);
        FieldHeaderRoundTrip(f.id, code, TypeOf(f.value), tail, st);
        if Known(s, f.id, TypeOf(f.value)) {
          ReadNoticesTruncation(s.slots[f.id], f.value, n - |head|, inner);
        } else {
          CompactTruncation.TruncationExact(f.value, n - |head|, CompactSkip.DEFAULT_RECURSION_DEPTH, inner);
          NothingToRead(s, CompactSkip.Skip(TypeOf(f.value), CompactSkip.DEFAULT_RECURSION_DEPTH, inner).st);
        }
      }
    }
  }

  lemma {:induction false} ListCut(s: Schema, t: TType, elems: seq<Value>, n: nat, st: Reader)
    requires s.ListOf? && ElemsConform(s.elem, elems) && Wf(VColl(false, t, elems), st.limit) && st.pending == None
    requires n < |CollHeader(t, |elems|) + ElemsBytes(t, elems)|
    requires st.input == (CollHeader(t, |elems|) + ElemsBytes(t, elems))[..n]
    ensures !Read(s, st).ok
    decreases elems, 1
  {
    hide ReadCollBegin, CollHeader, ReadElems, ElemsBytes;
    var head := CollHeader(t, |elems|);
    CutConcat(head, ElemsBytes(t, elems), n);
    if n < |head| {
      CompactTruncation.CollHeaderCut(t, |elems|, n, st);
    } else {
      var tail := ElemsBytes(t, elems)[..n - |head|];
      CollHeaderRoundTrip(t, |elems|, tail, st);
      ElemsCut(s, t, elems, n - |head|, st.(input := tail));
    }
  }

  lemma {:induction false} ElemsCut(s: Schema, t: TType, elems: seq<Value>, n: nat, st: Reader)
    requires s.ListOf? && ElemsConform(s.elem, elems) && WfElems(t, elems, st.limit) && st.pending == None
    requires n < |ElemsBytes(t, elems)| && st.input == ElemsBytes(t, elems)[..n]
    ensures !ReadElems(s, |elems|, st).ok
    decreases elems, 0
  {
    hide Read;
    var first, more := Bytes(elems[0]), ElemsBytes(t, elems[1..]);
    CutConcat(first, more, n);
    if n < |first| {
      ReadNoticesTruncation(s.elem, elems[0], n, st);
    } else {
      var tail := more[..n - |first|];
      ReadIsProjection(s.elem, elems[0], tail, st);
      ElemsCut(s, t, elems[1..], n - |first|, st.(input := tail));
    }
  }

  /** The header of a message cut short is never taken for one. */
  lemma MessageCut(name: seq<byte>, typeId: byte, seqid: int32, n: nat, st: Reader)
    requires |name| < 0x8000_0000 && |name| <= st.limit
    requires n < |MessageHeader(name, typeId, seqid)| && st.input == MessageHeader(name, typeId, seqid)[..n]
    ensures !ReadMessageBegin(st).ok
  {
    hide Varint.Encode, Varint.Decode;
    if n >= 2 {
      var id, text := Varint.Encode(Unsigned32(seqid)), Varint.Encode(|name|) + name;
      var begin := [COMPACT_PROTOCOL_ID, COMPACT_VERSION + typeId % 8 * 32];
      assert MessageHeader(name, typeId, seqid) == begin + (id + text);
      CutConcat(begin, id + text, n);
      CutConcat(id, text, n - 2);
      assert st.input[1..][1..] == (id + text)[..n - 2];
      var inner := st.(input := (id + text)[..n - 2]);
      hide ReadBinary;
      if n - 2 < |id| {
        CompactTruncation.VarintCut(Unsigned32(seqid), n - 2);
      } else {
        RawVarintRoundTrip(seqid, text[..n - 2 - |id|], inner);
        BinaryCutShort(name, n - 2 - |id|, inner.(input := text[..n - 2 - |id|]));
      }
    }
  }

  lemma BinaryCutShort(bytes: seq<byte>, n: nat, st: Reader)
    requires |bytes| <= st.limit && n < |Varint.Encode(|bytes|) + bytes| && st.input == (Varint.Encode(|bytes|) + bytes)[..n]
    ensures !ReadBinary(st).ok
  {
    CompactTruncation.BinaryCut(bytes, n, st);
  }
}
