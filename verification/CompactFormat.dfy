/**
 The compact wire format as functions: Thrift types and value trees, the bytes a value is written as, and the
 reading operations of TCompactProtocol over an explicit reader state (thrift/compact_protocol.go).
 */
module CompactFormat {
  import opened Widths
  import opened Sequences
  import Varint

  // ----- types and values -----

  datatype TType = STOP | BOOL | BYTE | DOUBLE | I16 | I32 | I64 | STRING | STRUCT | MAP | SET | LIST

  /** A value tree as generated Write methods drive it: maps and sets in the order they are iterated. */
  datatype Value =
    | VBool(b: bool)
    | VByte(i8: int8)
    | VI16(i16: int16)
    | VI32(i32: int32)
    | VI64(i64: int64)
    | VDouble(bits: uint64)
    | VBinary(bytes: seq<byte>)
    | VStruct(fields: seq<Field>)
    | VColl(isSet: bool, elemType: TType, elems: seq<Value>)
    | VMap(keyType: TType, valueType: TType, entries: seq<Entry>)

  datatype Field = Field(id: int16, value: Value)

  datatype Entry = Entry(key: Value, value: Value)

  function TypeOf(v: Value): (t: TType)
  {
    match v
    case VBool(_) => BOOL
    case VByte(_) => BYTE
    case VI16(_) => I16
    case VI32(_) => I32
    case VI64(_) => I64
    case VDouble(_) => DOUBLE
    case VBinary(_) => STRING
    case VStruct(_) => STRUCT
    case VColl(isSet, _, _) => if isSet then SET else LIST
    case VMap(_, _, _) => MAP
  }

  /** ttypeToCompactType: a nibble per type. */
  function CompactCode(t: TType): (c: byte)
    ensures c < 16
  {
    match t
    case STOP => 0x00
    case BOOL => 0x01
    case BYTE => 0x03
    case I16 => 0x04
    case I32 => 0x05
    case I64 => 0x06
    case DOUBLE => 0x07
    case STRING => 0x08
    case LIST => 0x09
    case SET => 0x0A
    case MAP => 0x0B
    case STRUCT => 0x0C
  }

  /** getTType, on the low nibble of a header byte. */
  function TypeOfCode(c: byte): (t: Option<TType>)
  {
    match c % 16
    case 0x00 => Some(STOP)
    case 0x01 => Some(BOOL)
    case 0x02 => Some(BOOL)
    case 0x03 => Some(BYTE)
    case 0x04 => Some(I16)
    case 0x05 => Some(I32)
    case 0x06 => Some(I64)
    case 0x07 => Some(DOUBLE)
    case 0x08 => Some(STRING)
    case 0x09 => Some(LIST)
    case 0x0A => Some(SET)
    case 0x0B => Some(MAP)
    case 0x0C => Some(STRUCT)
    case _ => None
  }

  /**
   What the protocol can carry: container sizes fit an int32, strings fit the configured message limit, and the
   elements have the type their container announces.
   */
  ghost predicate Wf(v: Value, limit: int32)
    decreases v
  {
    match v
    case VBinary(bytes) => |bytes| <= limit
    case VStruct(fields) => WfFields(fields, limit)
    case VColl(_, t, elems) => |elems| < 0x8000_0000 && t != STOP && WfElems(t, elems, limit)
    case VMap(k, t, entries) => |entries| < 0x8000_0000 && k != STOP && t != STOP && WfEntries(k, t, entries, limit)
    case _ => true
  }

  ghost predicate WfFields(fields: seq<Field>, limit: int32)
    decreases fields
  {
    fields == [] || (WfField(fields[0], limit) && WfFields(fields[1..], limit))
  }

  ghost predicate WfField(f: Field, limit: int32)
    decreases f
  {
    Wf(f.value, limit)
  }

  ghost predicate WfElems(t: TType, elems: seq<Value>, limit: int32)
    decreases elems
  {
    elems == [] || (TypeOf(elems[0]) == t && Wf(elems[0], limit) && WfElems(t, elems[1..], limit))
  }

  ghost predicate WfEntries(k: TType, t: TType, entries: seq<Entry>, limit: int32)
    decreases entries
  {
    entries == []
    || (TypeOf(entries[0].key) == k && TypeOf(entries[0].value) == t && WfEntry(entries[0], limit)
        && WfEntries(k, t, entries[1..], limit))
  }

  ghost predicate WfEntry(e: Entry, limit: int32)
    decreases e
  {
    Wf(e.key, limit) && Wf(e.value, limit)
  }

  // ----- the bytes of a value -----

  function BoolByte(b: bool): (r: byte) { if b then 0x01 else 0x02 }

  /** n bytes of u, least significant first. */
  function LittleEndian(u: nat, n: nat): (r: seq<byte>)
    ensures |r| == n
  {
    if n == 0 then [] else [u % 256] + LittleEndian(u / 256, n - 1)
  }

  function FromLittleEndian(s: seq<byte>): (u: nat)
  {
    if s == [] then 0 else s[0] + 256 * FromLittleEndian(s[1..])
  }

  /** A field header: delta and type in one byte when 0 < id - last <= 15, else the type and the zigzag id. */
  function FieldHeader(id: int16, typeCode: byte, last: int): (r: seq<byte>)
    requires typeCode < 16
  {
    if id > last && id - last <= 15 then [(id - last) * 16 + typeCode]
    else [typeCode] + Varint.EncodeI32(id)
  }

  function CollHeader(t: TType, size: nat): (r: seq<byte>)
  {
    if size <= 14 then [size * 16 + CompactCode(t)]
    else [0xf0 + CompactCode(t)] + Varint.Encode(size)
  }

  function MapHeader(k: TType, t: TType, size: nat): (r: seq<byte>)
  {
    if size == 0 then [0]
    else Varint.Encode(size) + [CompactCode(k) * 16 + CompactCode(t)]
  }

  function Bytes(v: Value): (r: seq<byte>)
    decreases v
  {
    match v
    case VBool(b) => [BoolByte(b)]
    case VByte(n) => [Unsigned8(n)]
    case VI16(n) => Varint.EncodeI32(n)
    case VI32(n) => Varint.EncodeI32(n)
    case VI64(n) => Varint.EncodeI64(n)
    case VDouble(bits) => LittleEndian(bits, 8)
    case VBinary(bytes) => Varint.Encode(|bytes|) + bytes
    case VStruct(fields) => FieldsBytes(fields, 0)
    case VColl(_, t, elems) => CollHeader(t, |elems|) + ElemsBytes(t, elems)
    case VMap(k, t, entries) => MapHeader(k, t, |entries|) + EntriesBytes(k, t, entries)
  }

  /** The fields after one with id `last`, and the stop byte. A boolean's value travels inside its header. */
  function FieldsBytes(fields: seq<Field>, last: int): (r: seq<byte>)
    decreases fields
  {
    if fields == [] then [0]
    else FieldBytes(fields[0], last) + FieldsBytes(fields[1..], fields[0].id)
  }

  function FieldBytes(f: Field, last: int): (r: seq<byte>)
    decreases f
  {
    if f.value.VBool? then FieldHeader(f.id, BoolByte(f.value.b), last)
    else FieldHeader(f.id, CompactCode(TypeOf(f.value)), last) + Bytes(f.value)
  }

  function ElemsBytes(t: TType, elems: seq<Value>): (r: seq<byte>)
    decreases elems
  {
    if elems == [] then [] else Bytes(elems[0]) + ElemsBytes(t, elems[1..])
  }

  function EntriesBytes(k: TType, t: TType, entries: seq<Entry>): (r: seq<byte>)
    decreases entries
  {
    if entries == [] then []
    else EntryBytes(entries[0]) + EntriesBytes(k, t, entries[1..])
  }

  function EntryBytes(e: Entry): (r: seq<byte>)
    decreases e
  {
    Bytes(e.key) + Bytes(e.value)
  }

  // ----- messages -----

  const COMPACT_PROTOCOL_ID: byte := 0x82
  const COMPACT_VERSION: byte := 1

  /** The bytes WriteMessageBegin puts on the wire; the name is a varint length and its bytes. */
  function MessageHeader(name: seq<byte>, typeId: byte, seqid: int32): (r: seq<byte>)
    requires |name| < 0x8000_0000
  {
    [COMPACT_PROTOCOL_ID, COMPACT_VERSION + typeId % 8 * 32]
    + Varint.Encode(Unsigned32(seqid)) + Varint.Encode(|name|) + name
  }

  // ----- the reader -----

  /**
   The reading half of the protocol object: the bytes still to come, the stack of last field ids, and the boolean
   a field header has delivered and ReadBool has not yet taken (boolValue, boolValueIsNotNull).
   */
  datatype Reader = Reader(input: seq<byte>, lastField: seq<int>, lastFieldId: int, pending: Option<bool>, limit: int32)

  /** The outcome of a read: on failure the value is Go's zero value and some input may be gone. */
  datatype Got<+T> = Got(ok: bool, value: T, st: Reader)

  datatype Header = Header(typ: TType, id: int16)

  datatype CollBegin = CollBegin(elemType: TType, size: nat)

  datatype MapBegin = MapBegin(keyType: TType, valueType: TType, size: nat)

  ghost predicate Shrinks(before: Reader, after: Reader)
  {
    |after.input| <= |before.input| && after.limit == before.limit
  }

  function ReadByteDirect(st: Reader): (g: Got<byte>)
    ensures Shrinks(st, g.st) && (g.ok ==> |g.st.input| < |st.input|)
  {
    if st.input == [] then Got(false, 0, st)
    else Got(true, st.input[0], st.(input := st.input[1..]))
  }

  function ReadVarint32(st: Reader): (g: Got<int32>)
    ensures Shrinks(st, g.st) && (g.ok ==> |g.st.input| < |st.input|)
  {
    var d := Varint.Decode(st.input);
    Got(d.ok, if d.ok then Truncate32(d.value) else 0, st.(input := d.rest))
  }

  function ReadVarint64(st: Reader): (g: Got<int64>)
    ensures Shrinks(st, g.st) && (g.ok ==> |g.st.input| < |st.input|)
  {
    var d := Varint.Decode(st.input);
    Got(d.ok, if d.ok then Signed64(d.value) else 0, st.(input := d.rest))
  }

  function ReadI8(st: Reader): (g: Got<int8>)
    ensures Shrinks(st, g.st) && (g.ok ==> |g.st.input| < |st.input|)
  {
    var b := ReadByteDirect(st);
    Got(b.ok, Signed8(b.value), b.st)
  }

  function ReadI32(st: Reader): (g: Got<int32>)
    ensures Shrinks(st, g.st) && (g.ok ==> |g.st.input| < |st.input|)
  {
    var v := ReadVarint32(st);
    Got(v.ok, if v.ok then Varint.ZigzagToInt32(v.value) else 0, v.st)
  }

  function ReadI16(st: Reader): (g: Got<int16>)
    ensures Shrinks(st, g.st) && (g.ok ==> |g.st.input| < |st.input|)
  {
    var v := ReadI32(st);
    Got(v.ok, Truncate16(v.value), v.st)
  }

  function ReadI64(st: Reader): (g: Got<int64>)
    ensures Shrinks(st, g.st) && (g.ok ==> |g.st.input| < |st.input|)
  {
    var v := ReadVarint64(st);
    Got(v.ok, if v.ok then Varint.ZigzagToInt64(v.value) else 0, v.st)
  }

  /** io.ReadFull and io.CopyN: n bytes, or an error that leaves nothing behind. */
  function ReadFull(st: Reader, n: nat): (g: Got<seq<byte>>)
    ensures Shrinks(st, g.st)
    ensures g.ok ==> |g.value| == n && |g.st.input| + n == |st.input|
  {
    if |st.input| < n then Got(false, [], st.(input := []))
    else Got(true, st.input[..n], st.(input := st.input[n..]))
  }

  function ReadDouble(st: Reader): (g: Got<uint64>)
    ensures Shrinks(st, g.st) && (g.ok ==> |g.st.input| < |st.input|)
  {
    var f := ReadFull(st, 8);
    Got(f.ok, if f.ok then FromLittleEndian(f.value) % 0x1_0000_0000_0000_0000 else 0, f.st)
  }

  /** ReadString and ReadBinary: the length must be within [0, limit]. */
  function ReadBinary(st: Reader): (g: Got<seq<byte>>)
    ensures Shrinks(st, g.st) && (g.ok ==> |g.st.input| < |st.input|)
  {
    var n := ReadVarint32(st);
    if !n.ok || n.value < 0 || n.value > st.limit then Got(false, [], n.st)
    else ReadFull(n.st, n.value)
  }

  function ReadBool(st: Reader): (g: Got<bool>)
    ensures Shrinks(st, g.st)
  {
    if st.pending.Some? then Got(true, st.pending.value, st.(pending := None))
    else
      var b := ReadByteDirect(st);
      Got(b.ok, b.value == 0x01, b.st)
  }

  function ReadStructBegin(st: Reader): (r: Reader)
    ensures r.input == st.input && r.limit == st.limit
  {
    st.(lastField := st.lastField + [st.lastFieldId], lastFieldId := 0)
  }

  function ReadStructEnd(st: Reader): (g: Got<()>)
    ensures g.st.input == st.input && g.st.limit == st.limit
  {
    if st.lastField == [] then Got(false, (), st)
    else
      var n := |st.lastField| - 1;
      Got(true, (), st.(lastField := st.lastField[..n], lastFieldId := st.lastField[n]))
  }

  function ReadFieldBegin(st: Reader): (g: Got<Header>)
    ensures Shrinks(st, g.st)
    ensures !g.ok ==> g.value.typ == STOP
    ensures g.ok ==> |g.st.input| < |st.input|
  {
    var b := ReadByteDirect(st);
    if !b.ok then Got(false, Header(STOP, 0), b.st)
    else if b.value % 16 == 0 then Got(true, Header(STOP, 0), b.st)
    else
      var i := if b.value / 16 == 0 then ReadI16(b.st)
               else Got(true, Truncate16(st.lastFieldId + b.value / 16), b.st);
      var t := TypeOfCode(b.value);
      if !i.ok || t.None? then Got(false, Header(STOP, i.value), i.st)
      else
        var pending := if t.value == BOOL then Some(b.value % 16 == 0x01) else i.st.pending;
        Got(true, Header(t.value, i.value), i.st.(lastFieldId := i.value, pending := pending))
  }

  /** ReadListBegin and ReadSetBegin. */
  function ReadCollBegin(st: Reader): (g: Got<CollBegin>)
    ensures Shrinks(st, g.st) && (g.ok ==> |g.st.input| < |st.input|)
  {
    var b := ReadByteDirect(st);
    if !b.ok then Got(false, CollBegin(STOP, 0), b.st)
    else
      var n := if b.value / 16 == 15 then ReadVarint32(b.st) else Got(true, b.value / 16, b.st);
      var t := TypeOfCode(b.value);
      if !n.ok || n.value < 0 || t.None? then Got(false, CollBegin(STOP, 0), n.st)
      else Got(true, CollBegin(t.value, n.value), n.st)
  }

  /** An unknown key or value type reads as STOP, without an error. */
  function ReadMapBegin(st: Reader): (g: Got<MapBegin>)
    ensures Shrinks(st, g.st) && (g.ok ==> |g.st.input| < |st.input|)
  {
    var n := ReadVarint32(st);
    if !n.ok || n.value < 0 then Got(false, MapBegin(STOP, STOP, 0), n.st)
    else
      var b := if n.value == 0 then Got(true, 0, n.st) else ReadByteDirect(n.st);
      if !b.ok then Got(false, MapBegin(STOP, STOP, 0), b.st)
      else Got(true, MapBegin(TypeOrStop(b.value / 16), TypeOrStop(b.value), n.value), b.st)
  }

  function TypeOrStop(c: byte): (t: TType)
  {
    var t := TypeOfCode(c);
    if t.Some? then t.value else STOP
  }

  datatype MessageBegin = MessageBegin(name: seq<byte>, typeId: byte, seqid: int32)

  const NO_MESSAGE: MessageBegin := MessageBegin([], 0, 0)

  /** On failure what was read before it is returned as well. */
  function ReadMessageBegin(st: Reader): (g: Got<MessageBegin>)
  {
    var id := ReadByteDirect(st);
    if !id.ok || id.value != COMPACT_PROTOCOL_ID then Got(false, NO_MESSAGE, id.st)
    else
      var vt := ReadByteDirect(id.st);
      var typeId: byte := vt.value / 32;
      if !vt.ok || vt.value % 32 != COMPACT_VERSION then Got(false, MessageBegin([], typeId, 0), vt.st)
      else
        var seqid := ReadVarint32(vt.st);
        if !seqid.ok then Got(false, MessageBegin([], typeId, 0), seqid.st)
        else
          var name := ReadBinary(seqid.st);
          Got(name.ok, MessageBegin(name.value, typeId, seqid.value), name.st)
  }

  // ----- each header and scalar read back -----

  lemma CodeRoundTrip(t: TType, high: nat)
    requires high < 16
    ensures TypeOfCode(high * 16 + CompactCode(t)) == Some(t)
    ensures (high * 16 + CompactCode(t)) / 16 == high && (high * 16 + CompactCode(t)) % 16 == CompactCode(t)
    ensures CompactCode(t) == 0 <==> t == STOP
  {
  }

  lemma {:induction false} LittleEndianRoundTrip(u: nat, n: nat, bound: nat)
    requires bound == Pow256(n) && u < bound
    ensures FromLittleEndian(LittleEndian(u, n)) == u
    decreases n
  {
    if n > 0 {
      assert LittleEndian(u, n)[1..] == LittleEndian(u / 256, n - 1);
      LittleEndianRoundTrip(u / 256, n - 1, Pow256(n - 1));
    }
  }

  function Pow256(n: nat): (r: nat) { if n == 0 then 1 else 256 * Pow256(n - 1) }

  lemma Pow256Of8()
    ensures Pow256(8) == 0x1_0000_0000_0000_0000
  {
  }

  lemma DoubleRoundTrip(bits: uint64, rest: seq<byte>, st: Reader)
    requires st.input == LittleEndian(bits, 8) + rest
    ensures ReadDouble(st) == Got(true, bits, st.(input := rest))
  {
    hide LittleEndian, FromLittleEndian;
    Pow256Of8();
    LittleEndianRoundTrip(bits, 8, 0x1_0000_0000_0000_0000);
    FullRoundTrip(LittleEndian(bits, 8), rest, st);
  }

  lemma I32RoundTrip(n: int32, rest: seq<byte>, st: Reader)
    requires st.input == Varint.EncodeI32(n) + rest
    ensures ReadI32(st) == Got(true, n, st.(input := rest))
  {
    Varint.RoundTripI32(n, rest);
  }

  lemma I16RoundTrip(n: int16, rest: seq<byte>, st: Reader)
    requires st.input == Varint.EncodeI32(n) + rest
    ensures ReadI16(st) == Got(true, n, st.(input := rest))
  {
    hide ReadI32, Varint.EncodeI32;
    I32RoundTrip(n, rest, st);
  }

  lemma I64RoundTrip(n: int64, rest: seq<byte>, st: Reader)
    requires st.input == Varint.EncodeI64(n) + rest
    ensures ReadI64(st) == Got(true, n, st.(input := rest))
  {
    Varint.RoundTripI64(n, rest);
  }

  lemma SizeRoundTrip(n: nat, rest: seq<byte>, st: Reader)
    requires n < 0x8000_0000 && st.input == Varint.Encode(n) + rest
    ensures ReadVarint32(st) == Got(true, n, st.(input := rest))
  {
    Varint.Raw32RoundTrip(n, rest);
  }

  lemma FullRoundTrip(bytes: seq<byte>, rest: seq<byte>, st: Reader)
    requires st.input == bytes + rest
    ensures ReadFull(st, |bytes|) == Got(true, bytes, st.(input := rest))
  {
  }

  lemma BinaryRoundTrip(bytes: seq<byte>, rest: seq<byte>, st: Reader)
    requires |bytes| <= st.limit && st.input == Varint.Encode(|bytes|) + bytes + rest
    ensures ReadBinary(st) == Got(true, bytes, st.(input := rest))
  {
    hide ReadVarint32, ReadFull, Varint.Encode;
    var tail := bytes + rest;
    Assoc(Varint.Encode(|bytes|), bytes, rest);
    SizeRoundTrip(|bytes|, tail, st);
    FullRoundTrip(bytes, rest, st.(input := tail));
  }

  lemma CollHeaderRoundTrip(t: TType, size: nat, rest: seq<byte>, st: Reader)
    requires size < 0x8000_0000 && st.input == CollHeader(t, size) + rest
    ensures ReadCollBegin(st) == Got(true, CollBegin(t, size), st.(input := rest))
  {
    hide ReadVarint32, Varint.Encode, CompactCode, TypeOfCode;
    if size <= 14 {
      CodeRoundTrip(t, size);
      assert st.input[1..] == rest;
    } else {
      CodeRoundTrip(t, 15);
      assert st.input[1..] == Varint.Encode(size) + rest;
      SizeRoundTrip(size, rest, st.(input := st.input[1..]));
    }
  }

  /** A map header reads back, except that an empty map's key and value types come back as STOP. */
  lemma MapHeaderRoundTrip(k: TType, t: TType, size: nat, rest: seq<byte>, st: Reader)
    requires size < 0x8000_0000 && st.input == MapHeader(k, t, size) + rest
    ensures ReadMapBegin(st)
         == Got(true, if size == 0 then MapBegin(STOP, STOP, 0) else MapBegin(k, t, size), st.(input := rest))
  {
    hide ReadVarint32, Varint.Encode;
    if size == 0 {
      Varint.EncodeSmall(0);
      SizeRoundTrip(0, rest, st);
    } else {
      var types := CompactCode(k) * 16 + CompactCode(t);
      Assoc(Varint.Encode(size), [types], rest);
      SizeRoundTrip(size, [types] + rest, st);
      CodeRoundTrip(t, CompactCode(k));
      CodeRoundTrip(k, 0);
      assert ([types] + rest)[1..] == rest;
    }
  }

  /** The header written for a field after field `st.lastFieldId` reads back, whichever form was chosen. */
  lemma FieldHeaderRoundTrip(id: int16, code: byte, t: TType, rest: seq<byte>, st: Reader)
    requires 0 < code < 16 && TypeOfCode(code) == Some(t)
    requires st.input == FieldHeader(id, code, st.lastFieldId) + rest
    ensures ReadFieldBegin(st)
         == Got(true, Header(t, id),
                st.(input := rest, lastFieldId := id, pending := if t == BOOL then Some(code == 0x01) else st.pending))
  {
    hide ReadFieldBegin, FieldHeader;
    if id > st.lastFieldId && id - st.lastFieldId <= 15 {
      DeltaHeaderRoundTrip(id, code, t, rest, st);
    } else {
      LongHeaderRoundTrip(id, code, t, rest, st);
    }
  }

  lemma LowNibble(high: nat, code: byte)
    requires high < 16 && code < 16
    ensures (high * 16 + code) % 16 == code && (high * 16 + code) / 16 == high
    ensures TypeOfCode(high * 16 + code) == TypeOfCode(code)
  {
  }

  lemma DeltaHeaderRoundTrip(id: int16, code: byte, t: TType, rest: seq<byte>, st: Reader)
    requires 0 < code < 16 && TypeOfCode(code) == Some(t)
    requires id > st.lastFieldId && id - st.lastFieldId <= 15
    requires st.input == FieldHeader(id, code, st.lastFieldId) + rest
    ensures ReadFieldBegin(st)
         == Got(true, Header(t, id),
                st.(input := rest, lastFieldId := id, pending := if t == BOOL then Some(code == 0x01) else st.pending))
  {
    hide Varint.EncodeI32, ReadI16, TypeOfCode;
    var delta := id - st.lastFieldId;
    LowNibble(delta, code);
    assert st.input[0] == delta * 16 + code;
    assert st.input[1..] == rest;
  }

  lemma LongHeaderRoundTrip(id: int16, code: byte, t: TType, rest: seq<byte>, st: Reader)
    requires 0 < code < 16 && TypeOfCode(code) == Some(t)
    requires !(id > st.lastFieldId && id - st.lastFieldId <= 15)
    requires st.input == FieldHeader(id, code, st.lastFieldId) + rest
    ensures ReadFieldBegin(st)
         == Got(true, Header(t, id),
                st.(input := rest, lastFieldId := id, pending := if t == BOOL then Some(code == 0x01) else st.pending))
  {
    hide Varint.EncodeI32, ReadI16, TypeOfCode;
    var st1 := st.(input := st.input[1..]);
    assert st.input[0] == code && st1.input == Varint.EncodeI32(id) + rest;
    I16RoundTrip(id, rest, st1);
  }

  /** A field's header reads back: what is left is its value, unless that is a boolean, which is then pending. */
  lemma FieldBegins(f: Field, rest: seq<byte>, st: Reader)
    requires st.input == FieldBytes(f, st.lastFieldId) + rest
    ensures ReadFieldBegin(st)
         == Got(true, Header(TypeOf(f.value), f.id),
                st.(input := if f.value.VBool? then rest else Bytes(f.value) + rest, lastFieldId := f.id,
                    pending := if f.value.VBool? then Some(f.value.b) else st.pending))
  {
    hide ReadFieldBegin, FieldHeader, Bytes;
    if f.value.VBool? {
      FieldHeaderRoundTrip(f.id, BoolByte(f.value.b), BOOL, rest, st);
    } else {
      var code := CompactCode(TypeOf(f.value));
      Assoc(FieldHeader(f.id, code, st.lastFieldId), Bytes(f.value), rest);
      FieldHeaderRoundTrip(f.id, code, TypeOf(f.value), Bytes(f.value) + rest, st);
    }
  }

  /** A message header reads back, its type cut to three bits. */
  lemma MessageRoundTrip(name: seq<byte>, typeId: byte, seqid: int32, rest: seq<byte>, st: Reader)
    requires |name| <= st.limit && st.input == MessageHeader(name, typeId, seqid) + rest
    ensures ReadMessageBegin(st) == Got(true, MessageBegin(name, typeId % 8, seqid), st.(input := rest))
  {
    hide ReadVarint32, ReadBinary, Varint.Encode;
    var sized := Varint.Encode(|name|) + name;
    var b1 := Varint.Encode(Unsigned32(seqid)) + (sized + rest);
    HeaderParts(name, typeId, seqid, rest);
    assert st.input[1..][1..] == b1;
    Varint.Raw32RoundTrip(seqid, sized + rest);
    RawVarintRoundTrip(seqid, sized + rest, Reader(b1, st.lastField, st.lastFieldId, st.pending, st.limit));
    BinaryRoundTrip(name, rest, Reader(sized + rest, st.lastField, st.lastFieldId, st.pending, st.limit));
  }

  lemma HeaderParts(name: seq<byte>, typeId: byte, seqid: int32, rest: seq<byte>)
    requires |name| < 0x8000_0000
    ensures MessageHeader(name, typeId, seqid) + rest
         == [COMPACT_PROTOCOL_ID, COMPACT_VERSION + typeId % 8 * 32]
            + (Varint.Encode(Unsigned32(seqid)) + (Varint.Encode(|name|) + name + rest))
  {
    hide Varint.Encode;
    FiveParts([COMPACT_PROTOCOL_ID, COMPACT_VERSION + typeId % 8 * 32], Varint.Encode(Unsigned32(seqid)),
              Varint.Encode(|name|), name, rest);
  }

  lemma RawVarintRoundTrip(n: int32, rest: seq<byte>, st: Reader)
    requires st.input == Varint.Encode(Unsigned32(n)) + rest
    ensures ReadVarint32(st) == Got(true, n, st.(input := rest))
  {
    Varint.Raw32RoundTrip(n, rest);
  }
}
