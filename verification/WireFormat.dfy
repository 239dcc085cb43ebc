/**
 The Thrift Compact Protocol byte by byte, as its specification gives it, and the Jaeger structs as jaeger.thrift numbers
 their fields: what CompactFormat and JaegerThrift write, in numbers (thrift/compact_protocol.go,
 thrift-gen/jaeger/jaeger.go).
 */
module WireFormat {
  import opened Widths
  import opened Sequences
  import opened CompactFormat
  import opened JaegerThrift
  import opened Digits
  import Varint
  import UdpSender

  // ----- type numbers (section "Struct" of the specification) -----

  /** The number a value's type has in a field header, a boolean's being its value. */
  function FieldNumber(v: Value): (n: byte)
    ensures 1 <= n <= 12
  {
    match v
    case VBool(b) => if b then 1 else 2
    case VByte(_) => 3
    case VI16(_) => 4
    case VI32(_) => 5
    case VI64(_) => 6
    case VDouble(_) => 7
    case VBinary(_) => 8
    case VColl(isSet, _, _) => if isSet then 10 else 9
    case VMap(_, _, _) => 11
    case VStruct(_) => 12
  }

  /** The number it has in a list, set or map header. */
  function ElementNumber(v: Value): (n: byte) { if v.VBool? then 1 else FieldNumber(v) }

  lemma HeaderBytes(id: int16, code: byte, last: int)
    requires code < 16
    ensures FieldHeader(id, code, last)
         == if 1 <= id - last <= 15 then [(id - last) * 16 + code]
            else [code] + Varint.Encode(if id >= 0 then 2 * id else -2 * id - 1)
  {
    Varint.ZigzagMagnitude32(id);
    hide Varint.Encode;
  }

  /** A short field header is one byte, the delta above the type; a long one is the type and the id as a zigzag varint. */
  lemma FieldStarts(f: Field, last: int)
    ensures FieldBytes(f, last)
         == (if 1 <= f.id - last <= 15 then [(f.id - last) * 16 + FieldNumber(f.value)]
             else [FieldNumber(f.value)] + Varint.Encode(if f.id >= 0 then 2 * f.id else -2 * f.id - 1))
            + if f.value.VBool? then [] else Bytes(f.value)
  {
    HeaderBytes(f.id, FieldNumber(f.value), last);
    NumberWritten(f.value);
    hide Bytes, Varint.Encode, FieldHeader, FieldNumber, CompactCode, BoolByte, TypeOf;
    var header := FieldHeader(f.id, FieldNumber(f.value), last);
    assert header + [] == header;
  }

  lemma NumberWritten(v: Value)
    ensures FieldNumber(v) == if v.VBool? then BoolByte(v.b) else CompactCode(TypeOf(v))
  {
  }

  /** Up to 14 elements are counted in the byte of their type, more of them in a varint behind it. */
  lemma CollStarts(isSet: bool, t: TType, elems: seq<Value>)
    requires elems != [] && TypeOf(elems[0]) == t
    ensures var b := Bytes(VColl(isSet, t, elems));
            b[0] == (if |elems| < 15 then |elems| else 15) * 16 + ElementNumber(elems[0])
            && b[1..] == (if |elems| < 15 then [] else Varint.Encode(|elems|)) + ElemsBytes(t, elems)
  {
    hide ElemsBytes, Varint.Encode;
    var header, tail := CollHeader(t, |elems|), ElemsBytes(t, elems);
    assert (header + tail)[1..] == header[1..] + tail;
  }

  /** A map is its size as a varint, a byte with the two types unless it is empty, and keys and values in turn. */
  lemma MapStarts(k: TType, t: TType, entries: seq<Entry>)
    requires entries != [] ==> TypeOf(entries[0].key) == k && TypeOf(entries[0].value) == t
    ensures Bytes(VMap(k, t, entries))
         == if entries == [] then [0]
            else Varint.Encode(|entries|) + [ElementNumber(entries[0].key) * 16 + ElementNumber(entries[0].value)]
                 + EntriesBytes(k, t, entries)
  {
    hide Varint.Encode;
    if entries == [] { assert [0] + [] == [0]; }
  }

  /** Keys and values in turn. */
  lemma EntriesInTurn(k: TType, t: TType, first: Entry, rest: seq<Entry>)
    ensures EntriesBytes(k, t, [first] + rest) == Bytes(first.key) + Bytes(first.value) + EntriesBytes(k, t, rest)
  {
    assert ([first] + rest)[1..] == rest;
  }

  /** What ReadFieldBegin makes of the low half of a header byte. */
  lemma NumbersRead(c: byte, d: byte, rest: seq<byte>, st: Reader)
    requires 1 <= c <= 12 && 1 <= d <= 15 && st.input == [d * 16 + c] + rest
    ensures var h := ReadFieldBegin(st);
            h.ok && h.st.input == rest && h.value.id == Truncate16(st.lastFieldId + d) && h.st.lastFieldId == h.value.id
            && h.value.typ == [BOOL, BOOL, BYTE, I16, I32, I64, DOUBLE, STRING, LIST, SET, MAP, STRUCT][c - 1]
            && h.st.pending == if c == 1 then Some(true) else if c == 2 then Some(false) else st.pending
  {
    assert st.input[1..] == rest;
  }

  /** A header byte with type 0 ends the struct, whatever its upper half, and one above 12 is an error. */
  lemma OtherNumbersRead(c: byte, d: byte, rest: seq<byte>, st: Reader)
    requires (c == 0 || 13 <= c <= 15) && 1 <= d <= 15 && st.input == [d * 16 + c] + rest
    ensures var h := ReadFieldBegin(st);
            h.ok == (c == 0) && h.value.typ == STOP && h.st == st.(input := rest)
  {
    assert st.input[1..] == rest;
  }

  // ----- what is refused -----

  /** A string's length must lie between 0 and the limit; whatever else is announced, its bytes are not taken. */
  lemma LengthRefused(n: int32, rest: seq<byte>, st: Reader)
    requires st.input == Varint.Encode(Unsigned32(n)) + rest && (n < 0 || n > st.limit)
    ensures ReadBinary(st) == Got(false, [], st.(input := rest))
  {
    hide Varint.Encode, Varint.Decode;
    RawVarintRoundTrip(n, rest, st);
  }

  /** A list or set must have a size that is not negative and elements of a known type. */
  lemma CollRefused(c: byte, n: int32, rest: seq<byte>, st: Reader)
    requires c < 16 && st.input == [0xf0 + c] + Varint.Encode(Unsigned32(n)) + rest
    ensures n < 0 || c > 12 ==> !ReadCollBegin(st).ok && ReadCollBegin(st).st == st.(input := rest)
    ensures n >= 0 && c <= 12 ==>
              ReadCollBegin(st).ok && ReadCollBegin(st).value.size == n && ReadCollBegin(st).st.input == rest
  {
    hide Varint.Encode, Varint.Decode, ReadVarint32;
    assert st.input[1..] == Varint.Encode(Unsigned32(n)) + rest;
    RawVarintRoundTrip(n, rest, st.(input := Varint.Encode(Unsigned32(n)) + rest));
  }

  lemma ShortCollRefused(c: byte, n: byte, rest: seq<byte>, st: Reader)
    requires 13 <= c < 16 && n < 15 && st.input == [n * 16 + c] + rest
    ensures !ReadCollBegin(st).ok && ReadCollBegin(st).st == st.(input := rest)
  {
    assert st.input[1..] == rest;
  }

  /** A map's size must not be negative. Types above 12 are read as STOP, without an error. */
  lemma MapRead(n: int32, k: byte, t: byte, rest: seq<byte>, st: Reader)
    requires k < 16 && t < 16 && st.input == Varint.Encode(Unsigned32(n)) + ([k * 16 + t] + rest)
    ensures var h := ReadMapBegin(st);
            if n < 0 then !h.ok && h.st == st.(input := [k * 16 + t] + rest)
            else if n == 0 then h.ok && h.value.size == 0 && h.st == st.(input := [k * 16 + t] + rest)
            else h.ok && h.value.size == n && h.st == st.(input := rest)
                 && (k > 12 <==> h.value.keyType == STOP && k != 0) && (t > 12 <==> h.value.valueType == STOP && t != 0)
  {
    hide Varint.Encode, Varint.Decode, ReadVarint32;
    RawVarintRoundTrip(n, [k * 16 + t] + rest, st);
    assert ([k * 16 + t] + rest)[1..] == rest;
  }

  /** A boolean on its own is true if it is 1 and false whatever else it is. */
  lemma BoolRead(b: byte, rest: seq<byte>, st: Reader)
    requires st.pending == None && st.input == [b] + rest
    ensures ReadBool(st) == Got(true, b == 1, st.(input := rest))
  {
    assert st.input[1..] == rest;
  }

  /** A message must begin with the protocol's id and version; its type is the upper three bits of the second byte. */
  lemma MessageRead(id: byte, second: byte, rest: seq<byte>, st: Reader)
    requires st.input == [id, second] + rest
    ensures var m := ReadMessageBegin(st);
            (m.ok ==> id == 0x82 && second % 32 == 1)
            && m.value.typeId == (if id == 0x82 then second / 32 else 0)
            && (id != 0x82 ==> m == Got(false, MessageBegin([], 0, 0), st.(input := [second] + rest)))
            && (id == 0x82 && second % 32 != 1 ==> m == Got(false, MessageBegin([], second / 32, 0), st.(input := rest)))
            && (!m.ok ==> m.value.name == [])
  {
    hide ReadVarint32;
    assert st.input[1..] == [second] + rest && ([second] + rest)[1..] == rest;
  }

  /** A read that fails returns zero, and of the input no more is gone than what there was. */
  lemma FailuresReadZero(st: Reader)
    ensures !ReadByteDirect(st).ok ==> ReadByteDirect(st) == Got(false, 0, st)
    ensures !ReadVarint32(st).ok ==> ReadVarint32(st).value == 0
    ensures !ReadVarint64(st).ok ==> ReadVarint64(st).value == 0
    ensures !ReadI16(st).ok ==> ReadI16(st).value == 0
    ensures !ReadI32(st).ok ==> ReadI32(st).value == 0
    ensures !ReadI64(st).ok ==> ReadI64(st).value == 0
    ensures !ReadDouble(st).ok ==> ReadDouble(st).value == 0
    ensures !ReadBinary(st).ok ==> ReadBinary(st).value == []
  {
    hide Varint.Decode, FromLittleEndian;
  }

  /** Structs nest: the end of one restores what its beginning put away; an end too many is an error. */
  lemma StructsNest(st: Reader, inner: Reader)
    requires inner.lastField == ReadStructBegin(st).lastField
    ensures ReadStructBegin(st).lastFieldId == 0
    ensures ReadStructEnd(inner) == Got(true, (), inner.(lastField := st.lastField, lastFieldId := st.lastFieldId))
    ensures st.lastField == [] ==> ReadStructEnd(st) == Got(false, (), st)
  {
    assert inner.lastField[..|st.lastField|] == st.lastField;
  }

  // ----- scalars -----

  /** Byte k of a varint holds seven bits of the number, lowest first, and says whether there is more. */
  lemma {:induction false} VarintDigits(u: nat, k: nat)
    requires k < |Varint.Encode(u)|
    ensures Varint.Encode(u)[k] == Digit(u, 128, k) + if k + 1 < |Varint.Encode(u)| then 128 else 0
    decreases k
  {
    if k > 0 {
      VarintDigits(u / 128, k - 1);
      DigitOfQuotient(u, 128, k);
    }
    hide Pow;
  }

  /** Byte k of a double holds eight of its bits, lowest first. */
  lemma {:induction false} LittleEndianDigits(u: nat, n: nat, k: nat)
    requires k < n
    ensures LittleEndian(u, n)[k] == Digit(u, 256, k)
    decreases k
  {
    if k > 0 {
      LittleEndianDigits(u / 256, n - 1, k - 1);
      DigitOfQuotient(u, 256, k);
    }
    hide Pow;
  }

  function Text(s: seq<byte>): (b: seq<byte>) { Varint.Encode(|s|) + s }

  /** Integers wider than a byte are varints that give the sign to the lowest bit. */
  function Int(n: int64): (b: seq<byte>) { Varint.Encode(if n >= 0 then 2 * n else -2 * n - 1) }

  /** Booleans and bytes on their own are one byte, a double is eight, a string is its length and its bytes. */
  lemma ScalarBytes(n: int8, bits: uint64, s: seq<byte>)
    ensures Bytes(VBool(true)) == [1] && Bytes(VBool(false)) == [2]
    ensures Bytes(VByte(n)) == [n % 256]
    ensures |Bytes(VDouble(bits))| == 8 && forall k :: 0 <= k < 8 ==> Bytes(VDouble(bits))[k] == Digit(bits, 256, k)
    ensures Bytes(VBinary(s)) == Text(s)
  {
    forall k | 0 <= k < 8 ensures Bytes(VDouble(bits))[k] == Digit(bits, 256, k) { LittleEndianDigits(bits, 8, k); }
    hide LittleEndian, Digit;
  }

  lemma IntegerBytes(small: int16, n: int32, wide: int64)
    ensures Bytes(VI16(small)) == Int(small) && Bytes(VI32(n)) == Int(n) && Bytes(VI64(wide)) == Int(wide)
  {
    Varint.ZigzagMagnitude32(small);
    Varint.ZigzagMagnitude32(n);
    Varint.ZigzagMagnitude64(wide);
    hide Varint.Encode;
  }

  // ----- the structs of jaeger.thrift -----

  /** A field with its short header in front of what follows. */
  function Piece(header: byte, body: seq<byte>, rest: seq<byte>): (b: seq<byte>) { [header] + body + rest }

  function Before(slot: Slot, rest: seq<Slot>): (slots: seq<Slot>) { [slot] + rest }

  lemma FieldThen(f: Field, rest: seq<Field>, last: int)
    ensures FieldsBytes([f] + rest, last) == FieldBytes(f, last) + FieldsBytes(rest, f.id)
    ensures FieldsBytes([], last) == [0]
  {
    assert ([f] + rest)[1..] == rest;
  }

  /** A field whose id is d above the last one. */
  lemma ShortField(id: int16, v: Value, last: int)
    requires 1 <= id - last <= 15
    ensures FieldBytes(Field(id, v), last)
         == [(id - last) * 16 + FieldNumber(v)] + if v.VBool? then [] else Bytes(v)
  {
    FieldStarts(Field(id, v), last);
    hide Bytes, FieldBytes;
  }

  /** A slot that is set goes out; one that is not is left out, and the next one has the wider delta. */
  lemma SlotThen(slot: Slot, rest: seq<Slot>, last: int)
    requires slot.value.Some? ==> 1 <= slot.id - last <= 15
    ensures FieldsBytes(Present(Before(slot, rest)), last)
         == if slot.value.None? then FieldsBytes(Present(rest), last)
            else Piece((slot.id - last) * 16 + FieldNumber(slot.value.value),
                       if slot.value.value.VBool? then [] else Bytes(slot.value.value), FieldsBytes(Present(rest), slot.id))
  {
    assert ([slot] + rest)[1..] == rest;
    if slot.value.None? {
      assert Present([slot] + rest) == Present(rest);
    } else {
      FieldThen(Field(slot.id, slot.value.value), Present(rest), last);
      ShortField(slot.id, slot.value.value, last);
      hide Bytes, FieldsBytes, FieldBytes;
    }
  }

  lemma NothingMore(last: int)
    ensures FieldsBytes(Present([]), last) == [0]
  {
  }

  lemma StructBytes(fields: seq<Field>)
    ensures Bytes(VStruct(fields)) == FieldsBytes(fields, 0)
  {
  }

  lemma StatsLayout(s: ClientStats)
    ensures Bytes(StatsValue(s))
         == Piece(0x16, Int(s.fullQueueDropped), Piece(0x16, Int(s.tooLargeDropped), Piece(0x16, Int(s.failedToEmit), [0])))
  {
    hide Bytes, Int, Present, FieldsBytes, Piece;
    IntegerBytes(0, 0, s.fullQueueDropped);
    IntegerBytes(0, 0, s.tooLargeDropped);
    IntegerBytes(0, 0, s.failedToEmit);
    StructBytes(Present(StatsSlots(s)));
    var first, second := Slot(1, Some(VI64(s.fullQueueDropped))), Slot(2, Some(VI64(s.tooLargeDropped)));
    var third := Slot(3, Some(VI64(s.failedToEmit)));
    assert StatsSlots(s) == Before(first, Before(second, Before(third, [])));
    hide StatsSlots, Before;
    SlotThen(first, Before(second, Before(third, [])), 0);
    SlotThen(second, Before(third, []), 1);
    SlotThen(third, [], 2);
    NothingMore(3);
  }

  lemma RefLayout(r: SpanRef)
    ensures Bytes(RefValue(r))
         == Piece(0x15, Int(r.refType), Piece(0x16, Int(r.traceIdLow), Piece(0x16, Int(r.traceIdHigh),
            Piece(0x16, Int(r.spanId), [0]))))
  {
    hide Bytes, Int, Present, FieldsBytes, Piece;
    IntegerBytes(0, r.refType, r.traceIdLow);
    IntegerBytes(0, 0, r.traceIdHigh);
    IntegerBytes(0, 0, r.spanId);
    StructBytes(Present(RefSlots(r)));
    var first, second := Slot(1, Some(VI32(r.refType))), Slot(2, Some(VI64(r.traceIdLow)));
    var third, fourth := Slot(3, Some(VI64(r.traceIdHigh))), Slot(4, Some(VI64(r.spanId)));
    assert RefSlots(r) == Before(first, Before(second, Before(third, Before(fourth, []))));
    hide RefSlots, Before;
    SlotThen(first, Before(second, Before(third, Before(fourth, []))), 0);
    SlotThen(second, Before(third, Before(fourth, [])), 1);
    SlotThen(third, Before(fourth, []), 2);
    SlotThen(fourth, [], 3);
    NothingMore(4);
  }

  lemma LogLayout(l: Log)
    ensures Bytes(LogValue(l)) == Piece(0x16, Int(l.timestamp), Piece(0x19, Bytes(StructList(TagValues(l.fields))), [0]))
  {
    hide TagValues, Bytes, Int, Present, FieldsBytes, Piece;
    IntegerBytes(0, 0, l.timestamp);
    StructBytes(Present(LogSlots(l)));
    var first, second := Slot(1, Some(VI64(l.timestamp))), Slot(2, Some(StructList(TagValues(l.fields))));
    assert LogSlots(l) == Before(first, Before(second, []));
    hide LogSlots, Before;
    SlotThen(first, Before(second, []), 0);
    SlotThen(second, [], 1);
    NothingMore(2);
  }

  /** A list of structs, whose field may be unset. */
  function ListSlot(id: int16, elems: Option<seq<Value>>): (slot: Slot)
  {
    Slot(id, if elems.Some? then Some(StructList(elems.value)) else None)
  }

  function ListPiece(delta: nat, elems: Option<seq<Value>>, rest: seq<byte>): (b: seq<byte>)
    requires 1 <= delta <= 15
  {
    if elems.Some? then Piece(delta * 16 + 9, Bytes(StructList(elems.value)), rest) else rest
  }

  lemma ListThen(id: int16, elems: Option<seq<Value>>, rest: seq<Slot>, last: int)
    requires 1 <= id - last <= 15
    ensures FieldsBytes(Present(Before(ListSlot(id, elems), rest)), last)
         == ListPiece(id - last, elems, FieldsBytes(Present(rest), if elems.Some? then id else last))
  {
    hide Bytes, Present, FieldsBytes, Before, Piece;
    SlotThen(ListSlot(id, elems), rest, last);
  }

  lemma ProcessLayout(p: Process)
    ensures Bytes(ProcessValue(p)) == Piece(0x18, Text(p.serviceName), ListPiece(1, TagList(p.tags), [0]))
  {
    hide TagValues, Bytes, Text, Present, FieldsBytes, Piece, ListPiece;
    ScalarBytes(0, 0, p.serviceName);
    StructBytes(Present(ProcessSlots(p)));
    var first, second := Slot(1, Some(VBinary(p.serviceName))), ListSlot(2, TagList(p.tags));
    assert ProcessSlots(p) == Before(first, Before(second, []));
    hide ProcessSlots, Before, ListSlot;
    SlotThen(first, Before(second, []), 0);
    ListThen(2, TagList(p.tags), [], 1);
    NothingMore(1);
    NothingMore(2);
  }

  /** The lists of a struct as value trees. */
  function TagList(tags: Option<seq<Tag>>): (r: Option<seq<Value>>)
  {
    if tags.Some? then Some(TagValues(tags.value)) else None
  }

  function RefList(refs: Option<seq<SpanRef>>): (r: Option<seq<Value>>)
  {
    if refs.Some? then Some(RefValues(refs.value)) else None
  }

  function LogList(logs: Option<seq<Log>>): (r: Option<seq<Value>>)
  {
    if logs.Some? then Some(LogValues(logs.value)) else None
  }

  /** A tag has a value of one kind, as BuildJaegerThrift makes them, or none: all its slots but number i are unset. */
  ghost predicate OneKind(t: Tag, i: nat)
  {
    i < 5 && forall j :: 2 <= j < 7 && j != i + 2 ==> TagSlots(t)[j].value.None?
  }

  /** The value of a tag: its field is so many ids above number 2 as its kind says. */
  function TagValueBytes(t: Tag): (b: seq<byte>)
  {
    if t.vStr.Some? then Piece(0x18, Text(t.vStr.value), [0])
    else if t.vDouble.Some? then Piece(0x27, LittleEndian(t.vDouble.value, 8), [0])
    else if t.vBool.Some? then Piece(if t.vBool.value then 0x31 else 0x32, [], [0])
    else if t.vLong.Some? then Piece(0x46, Int(t.vLong.value), [0])
    else if t.vBinary.Some? then Piece(0x58, Text(t.vBinary.value), [0])
    else [0]
  }

  lemma TagLayout(t: Tag, i: nat)
    requires OneKind(t, i)
    ensures Bytes(TagValue(t)) == Piece(0x18, Text(t.key), Piece(0x15, Int(t.vType), TagValueBytes(t)))
  {
    hide Bytes, Int, Text, Present, FieldsBytes, TagValueBytes, Piece;
    ScalarBytes(0, 0, t.key);
    IntegerBytes(0, t.vType, 0);
    StructBytes(Present(TagSlots(t)));
    var rest := TagSlots(t)[2..];
    OneSlot(rest, i);
    TagSlotBytes(t, i);
    var first, second := Slot(1, Some(VBinary(t.key))), Slot(2, Some(VI32(t.vType)));
    assert TagSlots(t) == Before(first, Before(second, rest));
    hide Lift, Before, OneKind, TagSlots;
    SlotThen(first, Before(second, rest), 0);
    SlotThen(second, rest, 1);
  }

  lemma TagSlotBytes(t: Tag, i: nat)
    requires OneKind(t, i)
    ensures FieldsBytes(Present([TagSlots(t)[i + 2]]), 2) == TagValueBytes(t)
  {
    hide FieldsBytes, Present, Varint.Encode, LittleEndian, Text, Int, Piece;
    var slot := TagSlots(t)[i + 2];
    assert i != 0 ==> TagSlots(t)[2].value.None?;
    assert i != 1 ==> TagSlots(t)[3].value.None?;
    assert i != 2 ==> TagSlots(t)[4].value.None?;
    assert i != 3 ==> TagSlots(t)[5].value.None?;
    assert i != 4 ==> TagSlots(t)[6].value.None?;
    assert Before(slot, []) == [slot];
    hide OneKind, Before;
    SlotThen(slot, [], 2);
    NothingMore(if slot.value.None? then 2 else slot.id);
    if slot.value.Some? {
      if i == 0 { ScalarBytes(0, 0, t.vStr.value); }
      if i == 3 { IntegerBytes(0, 0, t.vLong.value); }
      if i == 4 { ScalarBytes(0, 0, t.vBinary.value); }
    }
  }

  /** A list of slots of which at most one is set. */
  lemma {:induction false} OneSlot(slots: seq<Slot>, i: nat)
    requires i < |slots| && forall j :: 0 <= j < |slots| && j != i ==> slots[j].value.None?
    ensures Present(slots) == Present([slots[i]])
  {
    if i > 0 {
      OneSlot(slots[1..], i - 1);
    } else {
      NoSlot(slots[1..]);
      assert [slots[0]][1..] == [];
    }
  }

  lemma {:induction false} NoSlot(slots: seq<Slot>)
    requires forall j :: 0 <= j < |slots| ==> slots[j].value.None?
    ensures Present(slots) == []
  {
    if slots != [] { NoSlot(slots[1..]); }
  }

  lemma SpanEnd(tags: Option<seq<Value>>, logs: Option<seq<Value>>)
    ensures FieldsBytes(Present(Before(ListSlot(10, tags), Before(ListSlot(11, logs), []))), 9)
         == ListPiece(1, tags, ListPiece(if tags.Some? then 1 else 2, logs, [0]))
  {
    hide Bytes, Present, FieldsBytes, ListSlot, ListPiece, Before;
    ListThen(10, tags, Before(ListSlot(11, logs), []), 9);
    var last := if tags.Some? then 10 else 9;
    ListThen(11, logs, [], last);
    NothingMore(if logs.Some? then 11 else last);
  }

  lemma SpanMiddle(refs: Option<seq<Value>>, flags: int32, start: int64, duration: int64, end: seq<Slot>)
    ensures FieldsBytes(Present(Before(ListSlot(6, refs), Before(Slot(7, Some(VI32(flags))),
                                Before(Slot(8, Some(VI64(start))), Before(Slot(9, Some(VI64(duration))), end))))), 5)
         == ListPiece(1, refs, Piece(if refs.Some? then 0x15 else 0x25, Int(flags),
            Piece(0x16, Int(start), Piece(0x16, Int(duration), FieldsBytes(Present(end), 9)))))
  {
    hide Bytes, Int, Present, FieldsBytes, ListPiece, Piece;
    hide ListSlot, Before;
    IntegerBytes(0, flags, start);
    IntegerBytes(0, 0, duration);
    var ninth := Before(Slot(9, Some(VI64(duration))), end);
    var eighth := Before(Slot(8, Some(VI64(start))), ninth);
    ListThen(6, refs, Before(Slot(7, Some(VI32(flags))), eighth), 5);
    SlotThen(Slot(7, Some(VI32(flags))), eighth, if refs.Some? then 6 else 5);
    SlotThen(Slot(8, Some(VI64(start))), ninth, 7);
    SlotThen(Slot(9, Some(VI64(duration))), end, 8);
  }

  lemma SpanStart(low: int64, high: int64, id: int64, parent: int64, name: seq<byte>, rest: seq<Slot>)
    ensures FieldsBytes(Present(Before(Slot(1, Some(VI64(low))), Before(Slot(2, Some(VI64(high))),
                                Before(Slot(3, Some(VI64(id))), Before(Slot(4, Some(VI64(parent))),
                                Before(Slot(5, Some(VBinary(name))), rest)))))), 0)
         == Piece(0x16, Int(low), Piece(0x16, Int(high), Piece(0x16, Int(id), Piece(0x16, Int(parent),
            Piece(0x18, Text(name), FieldsBytes(Present(rest), 5))))))
  {
    hide Bytes, Int, Text, Present, FieldsBytes, Piece;
    hide Before;
    IntegerBytes(0, 0, low);
    IntegerBytes(0, 0, high);
    IntegerBytes(0, 0, id);
    IntegerBytes(0, 0, parent);
    ScalarBytes(0, 0, name);
    var fifth := Before(Slot(5, Some(VBinary(name))), rest);
    var fourth := Before(Slot(4, Some(VI64(parent))), fifth);
    var third := Before(Slot(3, Some(VI64(id))), fourth);
    var second := Before(Slot(2, Some(VI64(high))), third);
    SlotThen(Slot(1, Some(VI64(low))), second, 0);
    SlotThen(Slot(2, Some(VI64(high))), third, 1);
    SlotThen(Slot(3, Some(VI64(id))), fourth, 2);
    SlotThen(Slot(4, Some(VI64(parent))), fifth, 3);
    SlotThen(Slot(5, Some(VBinary(name))), rest, 4);
  }

  lemma SpanSlotsForm(s: Span)
    ensures SpanSlots(s)
         == Before(Slot(1, Some(VI64(s.traceIdLow))), Before(Slot(2, Some(VI64(s.traceIdHigh))),
            Before(Slot(3, Some(VI64(s.spanId))), Before(Slot(4, Some(VI64(s.parentSpanId))),
            Before(Slot(5, Some(VBinary(s.operationName))),
            Before(ListSlot(6, RefList(s.references)), Before(Slot(7, Some(VI32(s.flags))),
            Before(Slot(8, Some(VI64(s.startTime))), Before(Slot(9, Some(VI64(s.duration))),
            Before(ListSlot(10, TagList(s.tags)), Before(ListSlot(11, LogList(s.logs)), [])))))))))))
  {
    hide TagValues, LogValues, RefValues;
  }

  lemma SpanLayout(s: Span)
    ensures Bytes(SpanValue(s))
         == Piece(0x16, Int(s.traceIdLow), Piece(0x16, Int(s.traceIdHigh), Piece(0x16, Int(s.spanId),
            Piece(0x16, Int(s.parentSpanId), Piece(0x18, Text(s.operationName),
            ListPiece(1, RefList(s.references), Piece(if s.references.Some? then 0x15 else 0x25, Int(s.flags),
            Piece(0x16, Int(s.startTime), Piece(0x16, Int(s.duration),
            ListPiece(1, TagList(s.tags), ListPiece(if s.tags.Some? then 1 else 2, LogList(s.logs), [0])))))))))))
  {
    hide Bytes, Int, Text, Present, FieldsBytes, ListPiece, Piece;
    hide ListSlot, SpanSlots, Before;
    StructBytes(Present(SpanSlots(s)));
    SpanSlotsForm(s);
    var end := Before(ListSlot(10, TagList(s.tags)), Before(ListSlot(11, LogList(s.logs)), []));
    var middle := Before(ListSlot(6, RefList(s.references)), Before(Slot(7, Some(VI32(s.flags))),
                  Before(Slot(8, Some(VI64(s.startTime))), Before(Slot(9, Some(VI64(s.duration))), end))));
    SpanStart(s.traceIdLow, s.traceIdHigh, s.spanId, s.parentSpanId, s.operationName, middle);
    SpanMiddle(RefList(s.references), s.flags, s.startTime, s.duration, end);
    SpanEnd(TagList(s.tags), LogList(s.logs));
  }

  /** As the sender fills it in: process, spans, sequence number and statistics. */
  lemma BatchLayout(b: Batch)
    requires b.seqNo.Some? && b.stats.Some?
    ensures Bytes(BatchValue(b))
         == Piece(0x1c, Bytes(ProcessValue(b.process)), Piece(0x19, Bytes(StructList(SpanValues(b.spans))),
            Piece(0x16, Int(b.seqNo.value), Piece(0x1c, Bytes(StatsValue(b.stats.value)), [0]))))
  {
    hide ProcessValue, SpanValues, StatsValue, Bytes, Int, Present, FieldsBytes, Piece;
    StructBytes(Present(BatchSlots(b)));
    IntegerBytes(0, 0, b.seqNo.value);
    var first, second := Slot(1, Some(ProcessValue(b.process))), Slot(2, Some(StructList(SpanValues(b.spans))));
    var third, fourth := Slot(3, Some(VI64(b.seqNo.value))), Slot(4, Some(StatsValue(b.stats.value)));
    assert BatchSlots(b) == Before(first, Before(second, Before(third, Before(fourth, []))));
    hide BatchSlots, Before;
    SlotThen(first, Before(second, Before(third, Before(fourth, []))), 0);
    SlotThen(second, Before(third, Before(fourth, [])), 1);
    SlotThen(third, Before(fourth, []), 2);
    SlotThen(fourth, [], 3);
    NothingMore(4);
  }

  /** A list of structs is its header and the structs one after the other. */
  lemma StructListLayout(first: Value, rest: seq<Value>)
    ensures Bytes(StructList([first] + rest))
         == (if |rest| < 14 then [(|rest| + 1) * 16 + 12] else [0xfc] + Varint.Encode(|rest| + 1))
            + (Bytes(first) + ElemsBytes(STRUCT, rest))
    ensures Bytes(StructList([])) == [0x0c]
  {
    hide Varint.Encode;
    assert ([first] + rest)[1..] == rest;
    assert [0x0c] + [] == [0x0c];
  }

  /** The call as it goes to the agent: protocol, version and type, sequence id, name, and the batch as argument number 1. */
  lemma DatagramLayout(seqid: int32, b: Batch)
    ensures UdpSender.Datagram(seqid, b)
         == [0x82, 0x21] + Varint.Encode(if seqid >= 0 then seqid else seqid + 0x1_0000_0000)
            + [9, 0x65, 0x6d, 0x69, 0x74, 0x42, 0x61, 0x74, 0x63, 0x68]
            + Piece(0x1c, Bytes(BatchValue(b)), [0])
  {
    hide Bytes, FieldsBytes, FieldBytes, BatchValue;
    var f := Field(1, BatchValue(b));
    StructBytes([f]);
    FieldThen(f, [], 0);
    FieldThen(f, [], 1);
    assert [f] + [] == [f];
    assert BatchValue(b).VStruct?;
    ShortField(1, BatchValue(b), 0);
    assert Bytes(ArgsValue(b)) == Piece(0x1c, Bytes(BatchValue(b)), [0]);
    hide ArgsValue, Piece;
    Varint.EncodeSmall(9);
    hide Varint.Encode;
    var head := [0x82, 0x21] + Varint.Encode(Unsigned32(seqid));
    assert MessageHeader(UdpSender.EMIT_BATCH, 1, seqid) == head + [9] + UdpSender.EMIT_BATCH;
    Assoc(head, [9], UdpSender.EMIT_BATCH);
    assert [9] + UdpSender.EMIT_BATCH == [9, 0x65, 0x6d, 0x69, 0x74, 0x42, 0x61, 0x74, 0x63, 0x68];
  }
}
