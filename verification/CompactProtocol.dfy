/**
 TCompactProtocol over a memory buffer, as the object it is: writes append to the buffer, reads take from its front,
 and the field-id stack and the two boolean slots are updated in place (thrift/compact_protocol.go). Every method is
 proved against the wire format of CompactFormat, and Skip and the generated Read loops against their functions.
 */
module CompactProtocol {
  import opened Widths
  import opened Sequences
  import opened CompactFormat
  import Varint
  import CompactSkip
  import GeneratedRead

  const CALL: byte := 1
  const MAX_INT32: int32 := 0x7fff_ffff

  lemma ElemsAt(t: TType, elems: seq<Value>, i: nat)
    requires i < |elems| && WfElems(t, elems[i..], MAX_INT32)
    ensures Wf(elems[i], MAX_INT32) && WfElems(t, elems[i + 1..], MAX_INT32)
    ensures ElemsBytes(t, elems[i..]) == Bytes(elems[i]) + ElemsBytes(t, elems[i + 1..])
  {
  }

  lemma EntriesAt(k: TType, t: TType, entries: seq<Entry>, i: nat)
    requires i < |entries| && WfEntries(k, t, entries[i..], MAX_INT32)
    ensures WfEntry(entries[i], MAX_INT32) && WfEntries(k, t, entries[i + 1..], MAX_INT32)
    ensures EntriesBytes(k, t, entries[i..])
         == EntryBytes(entries[i]) + EntriesBytes(k, t, entries[i + 1..])
  {
  }

  class TCompactProtocol {
    var buf: seq<byte>
    var lastField: seq<int>
    var lastFieldId: int
    var booleanFieldId: int16
    var booleanFieldPending: bool
    var boolValue: bool
    var boolValueIsNotNull: bool
    const maxMessageSize: int32

    constructor (maxMessageSize: int32)
      ensures buf == [] && lastField == [] && lastFieldId == 0
      ensures !booleanFieldPending && !boolValueIsNotNull && this.maxMessageSize == maxMessageSize
    {
      buf, lastField, lastFieldId := [], [], 0;
      booleanFieldId, booleanFieldPending := 0, false;
      boolValue, boolValueIsNotNull := false, false;
      this.maxMessageSize := maxMessageSize;
    }

    /** The object as CompactFormat's reader state. */
    ghost function State(): (st: Reader)
      reads this
    {
      Reader(buf, lastField, lastFieldId, if boolValueIsNotNull then Some(boolValue) else None, maxMessageSize)
    }

    // ----- writing -----

    method WriteByteDirect(b: byte)
      modifies `buf
      ensures buf == old(buf) + [b]
    {
      buf := buf + [b];
    }

    method WriteVarint32(n: int32)
      modifies `buf
      ensures buf == old(buf) + Varint.Encode(Unsigned32(n))
    {
      var out := Varint.WriteVarint32(n);
      buf := buf + out;
    }

    method WriteMessageBegin(name: seq<byte>, typeId: byte, seqid: int32)
      requires |name| < 0x8000_0000
      modifies `buf
      ensures buf == old(buf) + MessageHeader(name, typeId, seqid)
    {
      WriteByteDirect(COMPACT_PROTOCOL_ID);
      WriteByteDirect(COMPACT_VERSION + typeId % 8 * 32);
      WriteVarint32(seqid);
      WriteBinary(name);
    }

    method WriteStructBegin()
      modifies `lastField, `lastFieldId
      ensures lastField == old(lastField) + [old(lastFieldId)] && lastFieldId == 0
    {
      lastField := lastField + [lastFieldId];
      lastFieldId := 0;
    }

    method WriteStructEnd() returns (ok: bool)
      modifies `lastField, `lastFieldId
      ensures ok == (old(lastField) != [])
      ensures ok ==> old(lastField) == lastField + [lastFieldId]
      ensures !ok ==> lastField == old(lastField) && lastFieldId == old(lastFieldId)
    {
      if lastField == [] { return false; }
      lastFieldId := lastField[|lastField| - 1];
      lastField := lastField[..|lastField| - 1];
      return true;
    }

    method WriteFieldBegin(typ: TType, id: int16)
      modifies `buf, `lastFieldId, `booleanFieldId, `booleanFieldPending
      ensures typ == BOOL ==>
        booleanFieldPending && booleanFieldId == id && buf == old(buf) && lastFieldId == old(lastFieldId)
      ensures typ != BOOL ==>
        booleanFieldPending == old(booleanFieldPending) && booleanFieldId == old(booleanFieldId)
        && buf == old(buf) + FieldHeader(id, CompactCode(typ), old(lastFieldId)) && lastFieldId == id
    {
      if typ == BOOL {
        booleanFieldId, booleanFieldPending := id, true;
        return;
      }
      WriteFieldBeginInternal(typ, id, 0xFF);
    }

    /** typeOverride 0xFF means none. */
    method WriteFieldBeginInternal(typ: TType, id: int16, typeOverride: byte)
      requires typeOverride == 0xFF || typeOverride < 16
      modifies `buf, `lastFieldId
      ensures var code := if typeOverride == 0xFF then CompactCode(typ) else typeOverride;
              buf == old(buf) + FieldHeader(id, code, old(lastFieldId))
      ensures lastFieldId == id
    {
      var typeToWrite := if typeOverride == 0xFF then CompactCode(typ) else typeOverride;
      if id > lastFieldId && id - lastFieldId <= 15 {
        WriteByteDirect((id - lastFieldId) * 16 + typeToWrite);
      } else {
        WriteByteDirect(typeToWrite);
        WriteI32(id);
      }
      lastFieldId := id;
    }

    method WriteFieldStop()
      modifies `buf
      ensures buf == old(buf) + [0]
    {
      WriteByteDirect(0);
    }

    method WriteMapBegin(keyType: TType, valueType: TType, size: nat)
      requires size < 0x8000_0000
      modifies `buf
      ensures buf == old(buf) + MapHeader(keyType, valueType, size)
    {
      hide Varint.Encode;
      if size == 0 {
        WriteByteDirect(0);
        return;
      }
      WriteVarint32(size);
      WriteByteDirect(CompactCode(keyType) * 16 + CompactCode(valueType));
    }

    /** WriteListBegin and WriteSetBegin, through writeCollectionBegin. */
    method WriteCollectionBegin(elemType: TType, size: nat)
      requires size < 0x8000_0000
      modifies `buf
      ensures buf == old(buf) + CollHeader(elemType, size)
    {
      hide Varint.Encode, CompactCode;
      if size <= 14 {
        WriteByteDirect(size * 16 + CompactCode(elemType));
      } else {
        WriteByteDirect(0xf0 + CompactCode(elemType));
        WriteVarint32(size);
      }
    }

    /** A pending boolean field header is written now, with the value in its type nibble. */
    method WriteBool(value: bool)
      modifies `buf, `lastFieldId, `booleanFieldPending
      ensures !booleanFieldPending
      ensures old(booleanFieldPending) ==>
        buf == old(buf) + FieldHeader(booleanFieldId, BoolByte(value), old(lastFieldId)) && lastFieldId == booleanFieldId
      ensures !old(booleanFieldPending) ==> buf == old(buf) + [BoolByte(value)] && lastFieldId == old(lastFieldId)
    {
      var v: byte := 0x02;
      if value { v := 0x01; }
      if booleanFieldPending {
        WriteFieldBeginInternal(BOOL, booleanFieldId, v);
        booleanFieldPending := false;
      } else {
        WriteByteDirect(v);
      }
    }

    method WriteI32(value: int32)
      modifies `buf
      ensures buf == old(buf) + Varint.EncodeI32(value)
    {
      WriteVarint32(Varint.Int32ToZigzag(value));
    }

    method WriteI64(value: int64)
      modifies `buf
      ensures buf == old(buf) + Varint.EncodeI64(value)
    {
      var out := Varint.WriteVarint64(Varint.Int64ToZigzag(value));
      buf := buf + out;
    }

    method WriteDouble(bits: uint64)
      modifies `buf
      ensures buf == old(buf) + LittleEndian(bits, 8)
    {
      buf := buf + LittleEndian(bits, 8);
    }

    /** WriteString and WriteBinary. */
    method WriteBinary(bin: seq<byte>)
      requires |bin| < 0x8000_0000
      modifies `buf
      ensures buf == old(buf) + Varint.Encode(|bin|) + bin
    {
      WriteVarint32(|bin|);
      buf := buf + bin;
    }

    /**
     What a generated Write does for a value: whatever the object's last field id and whatever is on its stack, the
     bytes appended are Bytes(v), and the stack, the id and the boolean slot are as before.
     */
    method WriteValue(v: Value)
      requires Wf(v, MAX_INT32) && !booleanFieldPending
      modifies `buf, `lastField, `lastFieldId, `booleanFieldId, `booleanFieldPending
      ensures buf == old(buf) + Bytes(v)
      ensures lastField == old(lastField) && lastFieldId == old(lastFieldId) && !booleanFieldPending
      decreases v
    {
      match v {
        case VBool(b) => WriteBool(b);
        case VByte(n) => WriteByteDirect(Unsigned8(n));
        case VI16(n) => WriteI32(n);
        case VI32(n) => WriteI32(n);
        case VI64(n) => WriteI64(n);
        case VDouble(bits) => WriteDouble(bits);
        case VBinary(bytes) => WriteBinary(bytes);
        case VStruct(fields) => WriteStruct(fields);
        case VColl(_, t, elems) =>
          WriteCollectionBegin(t, |elems|);
          WriteElems(t, elems);
          Assoc(old(buf), CollHeader(t, |elems|), ElemsBytes(t, elems));
        case VMap(k, t, entries) =>
          WriteMapBegin(k, t, |entries|);
          WriteEntries(k, t, entries);
          Assoc(old(buf), MapHeader(k, t, |entries|), EntriesBytes(k, t, entries));
      }
    }

    method WriteStruct(fields: seq<Field>)
      requires WfFields(fields, MAX_INT32) && !booleanFieldPending
      modifies `buf, `lastField, `lastFieldId, `booleanFieldId, `booleanFieldPending
      ensures buf == old(buf) + FieldsBytes(fields, 0)
      ensures lastField == old(lastField) && lastFieldId == old(lastFieldId) && !booleanFieldPending
      decreases fields, 1
    {
      WriteStructBegin();
      WriteFields(fields);
      var ok := WriteStructEnd();
      assert old(lastField) + [old(lastFieldId)] == lastField + [lastFieldId];
      assert (old(lastField) + [old(lastFieldId)])[..|lastField|] == lastField;
    }

    method WriteFields(fields: seq<Field>)
      requires WfFields(fields, MAX_INT32) && !booleanFieldPending
      modifies `buf, `lastField, `lastFieldId, `booleanFieldId, `booleanFieldPending
      ensures buf == old(buf) + FieldsBytes(fields, old(lastFieldId))
      ensures lastField == old(lastField) && !booleanFieldPending
      decreases fields, 0
    {
      if fields == [] {
        WriteFieldStop();
      } else {
        WriteField(fields[0]);
        WriteFields(fields[1..]);
        Assoc(old(buf), FieldBytes(fields[0], old(lastFieldId)),
              FieldsBytes(fields[1..], fields[0].id));
      }
    }

    method WriteField(f: Field)
      requires WfField(f, MAX_INT32) && !booleanFieldPending
      modifies `buf, `lastField, `lastFieldId, `booleanFieldId, `booleanFieldPending
      ensures buf == old(buf) + FieldBytes(f, old(lastFieldId))
      ensures lastField == old(lastField) && lastFieldId == f.id && !booleanFieldPending
      decreases f
    {
      WriteFieldBegin(TypeOf(f.value), f.id);
      if f.value.VBool? {
        WriteBool(f.value.b);
      } else {
        WriteValue(f.value);
      }
    }

    method WriteElems(t: TType, elems: seq<Value>)
      requires WfElems(t, elems, MAX_INT32) && !booleanFieldPending
      modifies `buf, `lastField, `lastFieldId, `booleanFieldId, `booleanFieldPending
      ensures buf == old(buf) + ElemsBytes(t, elems)
      ensures lastField == old(lastField) && lastFieldId == old(lastFieldId) && !booleanFieldPending
      decreases elems
    {
      assert elems[0..] == elems;
      for i := 0 to |elems|
        invariant WfElems(t, elems[i..], MAX_INT32) && !booleanFieldPending
        invariant buf + ElemsBytes(t, elems[i..]) == old(buf) + ElemsBytes(t, elems)
        invariant lastField == old(lastField) && lastFieldId == old(lastFieldId)
      {
        ghost var before := buf;
        ElemsAt(t, elems, i);
        WriteValue(elems[i]);
        Assoc(before, Bytes(elems[i]), ElemsBytes(t, elems[i + 1..]));
      }
    }

    method WriteEntries(k: TType, t: TType, entries: seq<Entry>)
      requires WfEntries(k, t, entries, MAX_INT32) && !booleanFieldPending
      modifies `buf, `lastField, `lastFieldId, `booleanFieldId, `booleanFieldPending
      ensures buf == old(buf) + EntriesBytes(k, t, entries)
      ensures lastField == old(lastField) && lastFieldId == old(lastFieldId) && !booleanFieldPending
      decreases entries
    {
      assert entries[0..] == entries;
      for i := 0 to |entries|
        invariant WfEntries(k, t, entries[i..], MAX_INT32) && !booleanFieldPending
        invariant buf + EntriesBytes(k, t, entries[i..]) == old(buf) + EntriesBytes(k, t, entries)
        invariant lastField == old(lastField) && lastFieldId == old(lastFieldId)
      {
        ghost var before := buf;
        EntriesAt(k, t, entries, i);
        WriteEntry(entries[i]);
        Assoc(before, EntryBytes(entries[i]), EntriesBytes(k, t, entries[i + 1..]));
      }
    }

    method WriteEntry(e: Entry)
      requires WfEntry(e, MAX_INT32) && !booleanFieldPending
      modifies `buf, `lastField, `lastFieldId, `booleanFieldId, `booleanFieldPending
      ensures buf == old(buf) + EntryBytes(e)
      ensures lastField == old(lastField) && lastFieldId == old(lastFieldId) && !booleanFieldPending
      decreases e
    {
      WriteValue(e.key);
      WriteValue(e.value);
    }

    // ----- reading -----

    method ReadByteDirect() returns (ok: bool, b: byte)
      modifies `buf
      ensures Got(ok, b, State()) == CompactFormat.ReadByteDirect(old(State()))
    {
      if buf == [] { return false, 0; }
      ok, b := true, buf[0];
      buf := buf[1..];
    }

    /** readVarint64's loop: `shift` grows by 7 a byte and is not bounded; bits past the word are shifted out. */
    method ReadVarint64() returns (ok: bool, value: nat)
      modifies `buf
      ensures var d := Varint.Decode(old(buf)); ok == d.ok && buf == d.rest && value == (if ok then d.value else 0)
    {
      hide Varint.Combine;
      var weight: nat, result: nat := 1, 0;
      ghost var start := buf;
      Varint.CombineStart(Varint.Spelled(start).value);
      while true
        invariant 0 <= result < 0x1_0000_0000_0000_0000 && 0 <= weight < 0x1_0000_0000_0000_0000
        invariant Varint.Spelled(start).ok == Varint.Spelled(buf).ok
        invariant Varint.Spelled(start).rest == Varint.Spelled(buf).rest
        invariant Varint.Spelled(start).ok ==>
          Varint.Decode(start).value == Varint.Combine(result, weight, Varint.Spelled(buf).value)
        decreases |buf|
      {
        ghost var before := buf;
        var more, b := ReadByteDirect();
        if !more { return false, 0; }
        if b < 128 {
          Varint.CombineLast(result, weight, b);
          result := (result + b * weight) % 0x1_0000_0000_0000_0000;
          return true, result;
        }
        Varint.CombineStep(result, weight, b - 128, Varint.Spelled(buf).value);
        result := (result + (b - 128) * weight) % 0x1_0000_0000_0000_0000;
        weight := weight * 128 % 0x1_0000_0000_0000_0000;
      }
    }

    method ReadVarint32() returns (ok: bool, value: int32)
      modifies `buf
      ensures Got(ok, value, State()) == CompactFormat.ReadVarint32(old(State()))
    {
      var wide;
      ok, wide := ReadVarint64();
      value := if ok then Truncate32(wide) else 0;
    }

    method ReadI32() returns (ok: bool, value: int32)
      modifies `buf
      ensures Got(ok, value, State()) == CompactFormat.ReadI32(old(State()))
    {
      ok, value := ReadVarint32();
      value := if ok then Varint.ZigzagToInt32(value) else 0;
    }

    method ReadI16() returns (ok: bool, value: int16)
      modifies `buf
      ensures Got(ok, value, State()) == CompactFormat.ReadI16(old(State()))
    {
      var wide;
      ok, wide := ReadI32();
      value := Truncate16(wide);
    }

    method ReadI64() returns (ok: bool, value: int64)
      modifies `buf
      ensures Got(ok, value, State()) == CompactFormat.ReadI64(old(State()))
    {
      var wide;
      ok, wide := ReadVarint64();
      value := if ok then Varint.ZigzagToInt64(Signed64(wide)) else 0;
    }

    method ReadFull(n: nat) returns (ok: bool, bytes: seq<byte>)
      modifies `buf
      ensures Got(ok, bytes, State()) == CompactFormat.ReadFull(old(State()), n)
    {
      if |buf| < n {
        buf := [];
        return false, [];
      }
      ok, bytes := true, buf[..n];
      buf := buf[n..];
    }

    method ReadDouble() returns (ok: bool, bits: uint64)
      modifies `buf
      ensures Got(ok, bits, State()) == CompactFormat.ReadDouble(old(State()))
    {
      var bytes;
      ok, bytes := ReadFull(8);
      bits := if ok then FromLittleEndian(bytes) % 0x1_0000_0000_0000_0000 else 0;
    }

    method ReadBinary() returns (ok: bool, bytes: seq<byte>)
      modifies `buf
      ensures Got(ok, bytes, State()) == CompactFormat.ReadBinary(old(State()))
    {
      var length;
      ok, length := ReadVarint32();
      if !ok || length < 0 || length > maxMessageSize { return false, []; }
      ok, bytes := ReadFull(length);
    }

    method ReadMessageBegin() returns (ok: bool, begin: MessageBegin)
      modifies `buf
      ensures Got(ok, begin, State()) == CompactFormat.ReadMessageBegin(old(State()))
    {
      hide CompactFormat.ReadByteDirect, CompactFormat.ReadVarint32, CompactFormat.ReadBinary;
      begin := NO_MESSAGE;
      var protocolId;
      ok, protocolId := ReadByteDirect();
      if !ok || protocolId != COMPACT_PROTOCOL_ID { return false, NO_MESSAGE; }
      var versionAndType;
      ok, versionAndType := ReadByteDirect();
      begin := MessageBegin([], versionAndType / 32, 0);
      if !ok || versionAndType % 32 != COMPACT_VERSION { return false, begin; }
      var seqid;
      ok, seqid := ReadVarint32();
      if !ok { return; }
      var name;
      ok, name := ReadBinary();
      begin := MessageBegin(name, versionAndType / 32, seqid);
    }

    method ReadBool() returns (ok: bool, value: bool)
      modifies `buf, `boolValueIsNotNull
      ensures Got(ok, value, State()) == CompactFormat.ReadBool(old(State()))
    {
      if boolValueIsNotNull {
        boolValueIsNotNull := false;
        return true, boolValue;
      }
      var v;
      ok, v := ReadByteDirect();
      value := v == 0x01;
    }

    method ReadStructBegin()
      modifies `lastField, `lastFieldId
      ensures State() == CompactFormat.ReadStructBegin(old(State()))
    {
      lastField := lastField + [lastFieldId];
      lastFieldId := 0;
    }

    method ReadStructEnd() returns (ok: bool)
      modifies `lastField, `lastFieldId
      ensures Got(ok, (), State()) == CompactFormat.ReadStructEnd(old(State()))
    {
      if lastField == [] { return false; }
      lastFieldId := lastField[|lastField| - 1];
      lastField := lastField[..|lastField| - 1];
      return true;
    }

    method ReadFieldBegin() returns (ok: bool, typ: TType, id: int16)
      modifies `buf, `lastFieldId, `boolValue, `boolValueIsNotNull
      ensures Got(ok, Header(typ, id), State()) == CompactFormat.ReadFieldBegin(old(State()))
    {
      var t;
      ok, t := ReadByteDirect();
      if !ok { return false, STOP, 0; }
      if t % 16 == 0 { return true, STOP, 0; }
      var modifier := t / 16;
      if modifier == 0 {
        ok, id := ReadI16();
        if !ok { return false, STOP, id; }
      } else {
        id := Truncate16(lastFieldId + modifier);
      }
      var known := TypeOfCode(t);
      if known.None? { return false, STOP, id; }
      typ := known.value;
      if t % 16 == 0x01 || t % 16 == 0x02 {
        boolValue := t % 16 == 0x01;
        boolValueIsNotNull := true;
      }
      lastFieldId := id;
    }

    method ReadMapBegin() returns (ok: bool, begin: MapBegin)
      modifies `buf
      ensures Got(ok, begin, State()) == CompactFormat.ReadMapBegin(old(State()))
    {
      var size32;
      ok, size32 := ReadVarint32();
      if !ok || size32 < 0 { return false, MapBegin(STOP, STOP, 0); }
      var keyAndValueType: byte := 0;
      if size32 != 0 {
        ok, keyAndValueType := ReadByteDirect();
        if !ok { return false, MapBegin(STOP, STOP, 0); }
      }
      return true, MapBegin(TypeOrStop(keyAndValueType / 16), TypeOrStop(keyAndValueType), size32);
    }

    /** ReadListBegin and ReadSetBegin. */
    method ReadCollBegin() returns (ok: bool, begin: CollBegin)
      modifies `buf
      ensures Got(ok, begin, State()) == CompactFormat.ReadCollBegin(old(State()))
    {
      var sizeAndType;
      ok, sizeAndType := ReadByteDirect();
      if !ok { return false, CollBegin(STOP, 0); }
      var size: int32 := sizeAndType / 16;
      if size == 15 {
        ok, size := ReadVarint32();
        if !ok || size < 0 { return false, CollBegin(STOP, 0); }
      }
      var elemType := TypeOfCode(sizeAndType);
      if elemType.None? { return false, CollBegin(STOP, 0); }
      return true, CollBegin(elemType.value, size);
    }

    // ----- Skip -----

    method Skip(t: TType, maxDepth: int) returns (ok: bool)
      modifies `buf, `lastField, `lastFieldId, `boolValue, `boolValueIsNotNull
      ensures Got(ok, (), State()) == CompactSkip.Skip(t, maxDepth, old(State()))
      decreases |buf|, 2
    {
      if maxDepth <= 0 { return false; }
      match t {
        case STOP => ok := false;
        case BOOL => var v; ok, v := ReadBool();
        case BYTE => var v; ok, v := ReadByteDirect();
        case I16 => var v; ok, v := ReadI16();
        case I32 => var v; ok, v := ReadI32();
        case I64 => var v; ok, v := ReadI64();
        case DOUBLE => var v; ok, v := ReadDouble();
        case STRING => var v; ok, v := ReadBinary();
        case STRUCT => ok := SkipStruct(maxDepth);
        case MAP => ok := SkipMap(maxDepth);
        case _ => ok := SkipColl(t, maxDepth);
      }
    }

    method SkipStruct(maxDepth: int) returns (ok: bool)
      requires maxDepth > 0
      modifies `buf, `lastField, `lastFieldId, `boolValue, `boolValueIsNotNull
      ensures Got(ok, (), State()) == CompactSkip.Skip(STRUCT, maxDepth, old(State()))
      decreases |buf|, 1
    {
      ReadStructBegin();
      ok := SkipFields(maxDepth - 1);
      if ok {
        ok := ReadStructEnd();
      }
    }

    /** An error in a field header reads as STOP and ends the loop. */
    method SkipFields(depth: int) returns (ok: bool)
      modifies `buf, `lastField, `lastFieldId, `boolValue, `boolValueIsNotNull
      ensures Got(ok, (), State()) == CompactSkip.SkipFields(depth, old(State()))
      decreases |buf|, 0
    {
      hide CompactFormat.ReadFieldBegin, CompactSkip.Skip;
      while true
        invariant |buf| <= |old(buf)|
        invariant CompactSkip.SkipFields(depth, State()) == CompactSkip.SkipFields(depth, old(State()))
        decreases |buf|
      {
        var h, typ, id := ReadFieldBegin();
        if typ == STOP { return true; }
        ok := Skip(typ, depth);
        if !ok { return false; }
      }
    }

    method SkipColl(t: TType, maxDepth: int) returns (ok: bool)
      requires maxDepth > 0 && (t == LIST || t == SET)
      modifies `buf, `lastField, `lastFieldId, `boolValue, `boolValueIsNotNull
      ensures Got(ok, (), State()) == CompactSkip.Skip(t, maxDepth, old(State()))
      decreases |buf|, 0
    {
      hide CompactFormat.ReadCollBegin;
      var h, begin := ReadCollBegin();
      if !h { return false; }
      ghost var inner := State();
      for i := 0 to begin.size
        invariant |buf| < |old(buf)|
        invariant CompactSkip.SkipElems(begin.elemType, begin.size - i, maxDepth - 1, State())
               == CompactSkip.SkipElems(begin.elemType, begin.size, maxDepth - 1, inner)
      {
        ok := Skip(begin.elemType, maxDepth - 1);
        if !ok { return false; }
      }
      ok := true;
    }

    method SkipMap(maxDepth: int) returns (ok: bool)
      requires maxDepth > 0
      modifies `buf, `lastField, `lastFieldId, `boolValue, `boolValueIsNotNull
      ensures Got(ok, (), State()) == CompactSkip.Skip(MAP, maxDepth, old(State()))
      decreases |buf|, 0
    {
      hide CompactFormat.ReadMapBegin;
      var h, begin := ReadMapBegin();
      if !h { return false; }
      ok := SkipEntries(begin, maxDepth - 1);
    }

    /** A failure to skip a value is not looked at. */
    method SkipEntries(begin: MapBegin, depth: int) returns (ok: bool)
      modifies `buf, `lastField, `lastFieldId, `boolValue, `boolValueIsNotNull
      ensures Got(ok, (), State())
           == CompactSkip.SkipEntries(begin.keyType, begin.valueType, begin.size, depth, old(State()))
      decreases |buf|, 3
    {
      hide CompactSkip.Skip;
      for i := 0 to begin.size
        invariant |buf| <= |old(buf)|
        invariant CompactSkip.SkipEntries(begin.keyType, begin.valueType, begin.size - i, depth, State())
               == CompactSkip.SkipEntries(begin.keyType, begin.valueType, begin.size, depth, old(State()))
      {
        ok := Skip(begin.keyType, depth);
        if !ok { return false; }
        var ignored := Skip(begin.valueType, CompactSkip.DEFAULT_RECURSION_DEPTH);
      }
      ok := true;
    }

    // ----- generated Read methods -----

    method Read(s: GeneratedRead.Schema) returns (ok: bool, v: Value)
      modifies `buf, `lastField, `lastFieldId, `boolValue, `boolValueIsNotNull
      ensures Got(ok, v, State()) == GeneratedRead.Read(s, old(State()))
      decreases s, 2
    {
      match s {
        case Leaf(t) => ok, v := ReadLeaf(t);
        case StructOf(_, _) => ok, v := ReadStruct(s);
        case ListOf(_) => ok, v := ReadList(s);
      }
    }

    /** The single call a generated Read makes for a scalar field. */
    method ReadLeaf(t: TType) returns (ok: bool, v: Value)
      modifies `buf, `lastField, `lastFieldId, `boolValue, `boolValueIsNotNull
      ensures Got(ok, v, State()) == GeneratedRead.Read(GeneratedRead.Leaf(t), old(State()))
    {
      ok, v := false, VBool(false);
      match t {
        case BOOL => var x; ok, x := ReadBool(); v := VBool(x);
        case BYTE => var x; ok, x := ReadByteDirect(); v := VByte(Signed8(x));
        case I16 => var x; ok, x := ReadI16(); v := VI16(x);
        case I32 => var x; ok, x := ReadI32(); v := VI32(x);
        case I64 => var x; ok, x := ReadI64(); v := VI64(x);
        case DOUBLE => var x; ok, x := ReadDouble(); v := VDouble(x);
        case STRING => var x; ok, x := ReadBinary(); v := VBinary(x);
        case _ =>
      }
    }

    /** for { ReadFieldBegin; switch fieldId { ... default: Skip }; ReadFieldEnd }, then the required fields. */
    method ReadStruct(s: GeneratedRead.Schema) returns (ok: bool, v: Value)
      requires s.StructOf?
      modifies `buf, `lastField, `lastFieldId, `boolValue, `boolValueIsNotNull
      ensures Got(ok, v, State()) == GeneratedRead.Read(s, old(State()))
      decreases s, 1
    {
      ReadStructBegin();
      var fields;
      ok, fields := ReadFields(s);
      v := VStruct(fields);
      if !ok { return; }
      ok := ReadStructEnd();
      ok := ok && s.required <= GeneratedRead.Ids(fields);
    }

    method ReadFields(s: GeneratedRead.Schema) returns (ok: bool, fields: seq<Field>)
      requires s.StructOf?
      modifies `buf, `lastField, `lastFieldId, `boolValue, `boolValueIsNotNull
      ensures Got(ok, fields, State()) == GeneratedRead.ReadFields(s, old(State()))
      decreases s, 0
    {
      hide CompactFormat.ReadFieldBegin;
      fields := [];
      assert [] + GeneratedRead.ReadFields(s, State()).value == GeneratedRead.ReadFields(s, State()).value;
      while true
        invariant var g := GeneratedRead.ReadFields(s, State());
                  GeneratedRead.ReadFields(s, old(State())) == g.(value := fields + g.value)
        decreases |buf|
      {
        assert fields + [] == fields;
        var h, typ, id := ReadFieldBegin();
        if !h { return false, fields; }
        if typ == STOP { return true, fields; }
        if GeneratedRead.Known(s, id, typ) {
          var read, v := Read(s.slots[id]);
          if !read { return false, fields; }
          ghost var g := GeneratedRead.ReadFields(s, State());
          Assoc(fields, [Field(id, v)], g.value);
          fields := fields + [Field(id, v)];
        } else {
          var skipped := Skip(typ, CompactSkip.DEFAULT_RECURSION_DEPTH);
          if !skipped { return false, fields; }
        }
      }
    }

    method ReadList(s: GeneratedRead.Schema) returns (ok: bool, v: Value)
      requires s.ListOf?
      modifies `buf, `lastField, `lastFieldId, `boolValue, `boolValueIsNotNull
      ensures Got(ok, v, State()) == GeneratedRead.Read(s, old(State()))
      decreases s, 1
    {
      hide CompactFormat.ReadCollBegin;
      var h, begin := ReadCollBegin();
      if !h { return false, VColl(false, STOP, []); }
      var elems := [];
      ghost var inner := State();
      ghost var all := GeneratedRead.ReadElems(s, begin.size, inner).value;
      assert [] + all == all;
      for i := 0 to begin.size
        invariant var g := GeneratedRead.ReadElems(s, begin.size - i, State());
                  GeneratedRead.ReadElems(s, begin.size, inner) == g.(value := elems + g.value)
      {
        assert elems + [] == elems;
        var read, elem := Read(s.elem);
        if !read { return false, VColl(false, begin.elemType, elems); }
        ghost var g := GeneratedRead.ReadElems(s, begin.size - i - 1, State());
        Assoc(elems, [elem], g.value);
        elems := elems + [elem];
      }
      assert elems + [] == elems;
      return true, VColl(false, begin.elemType, elems);
    }
  }
}
