/**
 Binary propagation (propagation.go): a span context and its baggage as big-endian words and length-prefixed strings.
 Baggage is a map, so its items are written in whatever order the map is walked.
 */
module BinaryContext {
  import opened Widths
  import opened Sequences
  import opened TextContext
  import opened BigEndianWords
  import opened Digits
  import opened MapOrder

  const MAX_BAGGAGE: int := 180
  const MAX_NAME_VALUE_LEN: int := 4096

  datatype SpanContext = SpanContext(context: Context, baggage: map<Bytes, Bytes>)

  datatype Read<+T> = Read(value: T, rest: Bytes)

  // ----- words -----

  function Word64(n: uint64): (b: Bytes) { BigEndian(n, 8) }

  function Word32(n: int32): (b: Bytes) { BigEndian(Unsigned32(n), 4) }

  function ReadWord64(input: Bytes): (r: Option<Read<uint64>>)
  {
    if |input| < 8 then None
    else
      ValueBound(input[..8]);
      Spans();
      Some(Read(Value(input[..8]), input[8..]))
  }

  function ReadWord32(input: Bytes): (r: Option<Read<int32>>)
  {
    if |input| < 4 then None
    else
      ValueBound(input[..4]);
      Spans();
      Some(Read(Signed32(Value(input[..4])), input[4..]))
  }

  lemma Word64RoundTrip(n: uint64, rest: Bytes)
    ensures ReadWord64(Word64(n) + rest) == Some(Read(n, rest))
  {
    Spans();
    BigEndianRoundTrip(n, 8);
    assert (Word64(n) + rest)[..8] == Word64(n);
  }

  lemma Word32RoundTrip(n: int32, rest: Bytes)
    ensures ReadWord32(Word32(n) + rest) == Some(Read(n, rest))
  {
    Spans();
    BigEndianRoundTrip(Unsigned32(n), 4);
    assert (Word32(n) + rest)[..4] == Word32(n);
  }

  // ----- writing -----

  /** int32(len(s)) */
  function Length(s: Bytes): (n: int32) { Truncate32(|s|) }

  function ItemBytes(k: Bytes, v: Bytes): (b: Bytes)
  {
    Word32(Length(k)) + (k + (Word32(Length(v)) + v))
  }

  function ItemsBytes(order: seq<Bytes>, baggage: map<Bytes, Bytes>): (b: Bytes)
    requires forall k <- order :: k in baggage
  {
    if order == [] then []
    else ItemBytes(order[0], baggage[order[0]]) + ItemsBytes(order[1..], baggage)
  }

  function HeaderBytes(c: Context): (b: Bytes)
  {
    Word64(c.traceID.high) + (Word64(c.traceID.low) + (Word64(c.spanID) + (Word64(c.parentID) + [c.flags])))
  }

  ghost function ContextBytes(sc: SpanContext, order: seq<Bytes>): (b: Bytes)
    requires Enumerates(order, sc.baggage)
  {
    HeaderBytes(sc.context) + (Word32(Truncate32(|sc.baggage|)) + ItemsBytes(order, sc.baggage))
  }

  lemma {:induction false} ItemsBytesAppend(order: seq<Bytes>, k: Bytes, baggage: map<Bytes, Bytes>)
    requires forall j <- order + [k] :: j in baggage
    ensures ItemsBytes(order + [k], baggage) == ItemsBytes(order, baggage) + ItemBytes(k, baggage[k])
  {
    hide ItemBytes;
    if order == [] {
      assert [] + [k] == [k] && [k][1..] == [];
    } else {
      assert (order + [k])[1..] == order[1..] + [k];
      assert forall j <- order[1..] + [k] :: j in order + [k];
      ItemsBytesAppend(order[1..], k, baggage);
      Assoc(ItemBytes(order[0], baggage[order[0]]), ItemsBytes(order[1..], baggage), ItemBytes(k, baggage[k]));
    }
  }

  /** Five big-endian fields: the trace id's halves, high first, span id, parent id and one byte of flags. */
  lemma HeaderLayout(c: Context, k: nat)
    requires k < 8
    ensures var b := HeaderBytes(c);
            |b| == 33 && b[7 - k] == Digit(c.traceID.high, 0x100, k) && b[15 - k] == Digit(c.traceID.low, 0x100, k)
            && b[23 - k] == Digit(c.spanID, 0x100, k) && b[31 - k] == Digit(c.parentID, 0x100, k) && b[32] == c.flags
  {
    BigEndianDigits(c.traceID.high, 8, k);
    BigEndianDigits(c.traceID.low, 8, k);
    BigEndianDigits(c.spanID, 8, k);
    BigEndianDigits(c.parentID, 8, k);
    hide BigEndian, Digit;
  }

  /** A length is four bytes, highest first, and its text follows; the number of items comes in front of the items. */
  lemma ItemLayout(key: Bytes, value: Bytes, k: nat)
    requires k < 4 && |key| < 0x8000_0000 && |value| < 0x8000_0000
    ensures var b := ItemBytes(key, value);
            |b| == 8 + |key| + |value| && b[3 - k] == Digit(|key|, 0x100, k) && b[4..4 + |key|] == key
            && b[7 + |key| - k] == Digit(|value|, 0x100, k) && b[8 + |key|..] == value
  {
    SmallTruncate(|key|);
    SmallTruncate(|value|);
    BigEndianDigits(|key|, 4, k);
    BigEndianDigits(|value|, 4, k);
    hide BigEndian, Digit, Truncate32;
  }

  lemma ContextLayout(sc: SpanContext, order: seq<Bytes>, k: nat)
    requires Enumerates(order, sc.baggage) && |sc.baggage| < 0x8000_0000 && k < 4
    ensures var b := ContextBytes(sc, order);
            |b| >= 37 && b[..33] == HeaderBytes(sc.context) && b[36 - k] == Digit(|sc.baggage|, 0x100, k)
            && b[37..] == ItemsBytes(order, sc.baggage)
  {
    hide BigEndian, Digit, Truncate32, HeaderBytes, ItemsBytes;
    HeaderLayout(sc.context, 0);
    SmallTruncate(|sc.baggage|);
    BigEndianDigits(|sc.baggage|, 4, k);
    ThreeParts(HeaderBytes(sc.context), Word32(|sc.baggage|), ItemsBytes(order, sc.baggage));
  }

  lemma ThreeParts(a: Bytes, b: Bytes, c: Bytes)
    ensures var all := a + (b + c);
            all[..|a|] == a && all[|a|..|a| + |b|] == b && all[|a| + |b|..] == c
    ensures forall i :: 0 <= i < |b| ==> (a + (b + c))[|a| + i] == b[i]
  {
  }

  method Inject(sc: SpanContext, order: seq<Bytes>) returns (carrier: Bytes)
    requires Enumerates(order, sc.baggage)
    ensures carrier == ContextBytes(sc, order)
  {
    hide ItemBytes, HeaderBytes;
    var items: Bytes := [];
    for i := 0 to |order|
      invariant items == ItemsBytes(order[..i], sc.baggage)
    {
      assert order[..i + 1] == order[..i] + [order[i]];
      ItemsBytesAppend(order[..i], order[i], sc.baggage);
      items := items + ItemBytes(order[i], sc.baggage[order[i]]);
    }
    assert order[..|order|] == order;
    carrier := HeaderBytes(sc.context) + (Word32(Truncate32(|sc.baggage|)) + items);
  }

  // ----- reading -----

  /**
   As many bytes as an int32 says; a negative count makes the buffer panic, which is None here like any other failure.
   */
  function ReadString(n: int32, input: Bytes): (r: Option<Read<Bytes>>)
  {
    if n < 0 || |input| < n then None else Some(Read(input[..n], input[n..]))
  }

  datatype Item = Item(key: Bytes, value: Bytes)

  function ReadItem(input: Bytes): (r: Option<Read<Item>>)
  {
    var keyLen := ReadWord32(input);
    if keyLen.None? then None
    else
      var key := ReadString(keyLen.value.value, keyLen.value.rest);
      if key.None? then None
      else
        var valLen := ReadWord32(key.value.rest);
        if valLen.None? || Truncate32(keyLen.value.value + valLen.value.value) > MAX_NAME_VALUE_LEN then None
        else
          var val := ReadString(valLen.value.value, valLen.value.rest);
          if val.None? then None else Some(Read(Item(key.value.value, val.value.value), val.value.rest))
  }

  function ReadItems(n: nat, input: Bytes, baggage: map<Bytes, Bytes>): (r: Option<Read<map<Bytes, Bytes>>>)
  {
    if n == 0 then Some(Read(baggage, input))
    else
      var item := ReadItem(input);
      if item.None? then None
      else ReadItems(n - 1, item.value.rest, baggage[item.value.value.key := item.value.value.value])
  }

  function ReadHeader(input: Bytes): (r: Option<Read<Context>>)
  {
    var high := ReadWord64(input);
    if high.None? then None
    else
      var low := ReadWord64(high.value.rest);
      if low.None? then None
      else
        var spanID := ReadWord64(low.value.rest);
        if spanID.None? then None
        else
          var parentID := ReadWord64(spanID.value.rest);
          if parentID.None? || parentID.value.rest == [] then None
          else
            var c := Context(TraceID(high.value.value, low.value.value), spanID.value.value, parentID.value.value,
                             parentID.value.rest[0]);
            Some(Read(c, parentID.value.rest[1..]))
  }

  function ReadContext(input: Bytes): (r: Option<Read<SpanContext>>)
  {
    var c := ReadHeader(input);
    if c.None? then None
    else
      var count := ReadWord32(c.value.rest);
      if count.None? || count.value.value > MAX_BAGGAGE then None
      else
        var n := if count.value.value > 0 then count.value.value else 0;
        var items := ReadItems(n, count.value.rest, map[]);
        if items.None? then None else Some(Read(SpanContext(c.value.value, items.value.value), items.value.rest))
  }

  method Extract(carrier: Bytes) returns (r: Option<Read<SpanContext>>)
    ensures r == ReadContext(carrier)
  {
    hide ReadWord32, ReadHeader, ReadItem;
    var c := ReadHeader(carrier);
    if c.None? { return None; }
    var numBaggage := ReadWord32(c.value.rest);
    if numBaggage.None? || numBaggage.value.value > MAX_BAGGAGE { return None; }
    var rest, baggage := numBaggage.value.rest, map[];
    var n := numBaggage.value.value;
    if n > 0 {
      for i := 0 to n
        invariant ReadItems(n, numBaggage.value.rest, map[]) == ReadItems(n - i, rest, baggage)
      {
        var item := ReadItem(rest);
        if item.None? { return None; }
        rest, baggage := item.value.rest, baggage[item.value.value.key := item.value.value.value];
      }
    }
    r := Some(Read(SpanContext(c.value.value, baggage), rest));
  }

  // ----- round trip -----

  /** The size test, as the code computes it: in 32 bits. */
  predicate FitsLimit(k: Bytes, v: Bytes) { Truncate32(Length(k) + Length(v)) <= MAX_NAME_VALUE_LEN }

  lemma HeaderRoundTrip(c: Context, rest: Bytes)
    ensures ReadHeader(HeaderBytes(c) + rest) == Some(Read(c, rest))
  {
    hide ReadWord64, Word64;
    var b4 := [c.flags] + rest;
    var b3 := Word64(c.parentID) + b4;
    var b2 := Word64(c.spanID) + b3;
    var b1 := Word64(c.traceID.low) + b2;
    assert HeaderBytes(c) + rest == Word64(c.traceID.high) + b1;
    Word64RoundTrip(c.traceID.high, b1);
    Word64RoundTrip(c.traceID.low, b2);
    Word64RoundTrip(c.spanID, b3);
    Word64RoundTrip(c.parentID, b4);
  }

  lemma ItemRoundTrip(k: Bytes, v: Bytes, rest: Bytes)
    requires |k| < 0x8000_0000 && |v| < 0x8000_0000
    ensures ReadItem(ItemBytes(k, v) + rest) == if FitsLimit(k, v) then Some(Read(Item(k, v), rest)) else None
  {
    hide ReadWord32, Word32, ReadString;
    SmallTruncate(|k|);
    SmallTruncate(|v|);
    hide Truncate32;
    var b3 := v + rest;
    var b2 := Word32(Length(v)) + b3;
    var b1 := k + b2;
    Assoc(Word32(Length(v)), v, rest);
    Assoc(k, Word32(Length(v)) + v, rest);
    Assoc(Word32(Length(k)), k + (Word32(Length(v)) + v), rest);
    Word32RoundTrip(Length(k), b1);
    StringRoundTrip(k, b2);
    Word32RoundTrip(Length(v), b3);
    StringRoundTrip(v, rest);
  }

  lemma StringRoundTrip(s: Bytes, rest: Bytes)
    requires |s| < 0x8000_0000
    ensures ReadString(|s|, s + rest) == Some(Read(s, rest))
  {
  }

  lemma SmallTruncate(n: nat)
    requires n < 0x8000_0000
    ensures Truncate32(n) == n
  {
  }

  /** Reading the items back: all of them if each passes the size test, and nothing at all otherwise. */
  lemma {:induction false} ItemsRoundTrip(order: seq<Bytes>, sofar: seq<Bytes>, baggage: map<Bytes, Bytes>, rest: Bytes)
    requires forall k <- order :: k in baggage && |k| < 0x8000_0000 && |baggage[k]| < 0x8000_0000
    ensures ReadItems(|order|, ItemsBytes(order, baggage) + rest, Restrict(sofar, baggage))
         == if forall k <- order :: FitsLimit(k, baggage[k]) then Some(Read(Restrict(sofar + order, baggage), rest)) else None
    decreases |order|
  {
    hide ReadItem, ItemBytes, FitsLimit, Restrict;
    if order == [] {
      assert sofar + order == sofar && ItemsBytes(order, baggage) + rest == rest;
    } else {
      var k := order[0];
      var tail := ItemsBytes(order[1..], baggage) + rest;
      Assoc(ItemBytes(k, baggage[k]), ItemsBytes(order[1..], baggage), rest);
      ItemRoundTrip(k, baggage[k], tail);
      if FitsLimit(k, baggage[k]) {
        RestrictOneMore(sofar, k, baggage);
        ItemsRoundTrip(order[1..], sofar + [k], baggage, rest);
        assert sofar + [k] + order[1..] == sofar + order;
        assert order == [k] + order[1..];
        assert (forall j <- order :: FitsLimit(j, baggage[j])) <==> (forall j <- order[1..] :: FitsLimit(j, baggage[j]));
      }
    }
  }

  /**
   Extract after Inject gives the same context and baggage and takes exactly the bytes written, whatever order the map is
   walked in, if and only if there are at most 180 items and each passes the 4096-byte test; otherwise it gives nothing.
   */
  lemma BinaryRoundTrip(sc: SpanContext, order: seq<Bytes>, rest: Bytes)
    requires Enumerates(order, sc.baggage) && |sc.baggage| < 0x8000_0000
    requires forall k <- sc.baggage :: |k| < 0x8000_0000 && |sc.baggage[k]| < 0x8000_0000
    ensures ReadContext(ContextBytes(sc, order) + rest)
         == if |sc.baggage| <= 180 && forall k <- sc.baggage :: FitsLimit(k, sc.baggage[k])
            then Some(Read(sc, rest)) else None
  {
    hide ReadHeader, HeaderBytes, ReadWord32, Word32, ReadItems, ItemsBytes, FitsLimit, Truncate32;
    var n := Truncate32(|sc.baggage|);
    SmallTruncate(|sc.baggage|);
    var b2 := ItemsBytes(order, sc.baggage) + rest;
    var b1 := Word32(n) + b2;
    assert ContextBytes(sc, order) + rest == HeaderBytes(sc.context) + b1;
    HeaderRoundTrip(sc.context, b1);
    Word32RoundTrip(n, b2);
    AllItemsRoundTrip(order, sc.baggage, rest);
    hide Enumerates;
  }

  /** A count that is not positive means no baggage, and what follows is left alone. */
  lemma NoItems(c: Context, count: int32, rest: Bytes)
    requires count <= 0
    ensures ReadContext(HeaderBytes(c) + (Word32(count) + rest)) == Some(Read(SpanContext(c, map[]), rest))
  {
    hide ReadHeader, HeaderBytes, ReadWord32, Word32;
    HeaderRoundTrip(c, Word32(count) + rest);
    Word32RoundTrip(count, rest);
  }

  lemma AllItemsRoundTrip(order: seq<Bytes>, baggage: map<Bytes, Bytes>, rest: Bytes)
    requires Enumerates(order, baggage)
    requires forall k <- baggage :: |k| < 0x8000_0000 && |baggage[k]| < 0x8000_0000
    ensures ReadItems(|order|, ItemsBytes(order, baggage) + rest, map[])
         == if forall k <- baggage :: FitsLimit(k, baggage[k]) then Some(Read(baggage, rest)) else None
  {
    hide ReadItems, ItemsBytes, FitsLimit, Restrict;
    ItemsRoundTrip(order, [], baggage, rest);
    assert [] + order == order;
    WholeMap(order, baggage);
    AllFit(order, baggage);
  }

  lemma AllFit(order: seq<Bytes>, baggage: map<Bytes, Bytes>)
    requires Enumerates(order, baggage)
    ensures (forall k <- order :: FitsLimit(k, baggage[k])) <==> (forall k <- baggage :: FitsLimit(k, baggage[k]))
  {
    hide FitsLimit;
  }

  /** For items short of 2^30 bytes the 32-bit test is the plain one: key and value take at most 4096 bytes together. */
  lemma PlainLimit(k: Bytes, v: Bytes)
    requires |k| < 0x4000_0000 && |v| < 0x4000_0000
    ensures FitsLimit(k, v) <==> |k| + |v| <= 4096
  {
  }

  // ----- a carrier cut short -----

  lemma Word64Further(input: Bytes, more: Bytes)
    requires ReadWord64(input).Some?
    ensures ReadWord64(input + more) == Some(Read(ReadWord64(input).value.value, ReadWord64(input).value.rest + more))
  {
    hide Value;
    assert (input + more)[..8] == input[..8] && (input + more)[8..] == input[8..] + more;
  }

  lemma Word32Further(input: Bytes, more: Bytes)
    requires ReadWord32(input).Some?
    ensures ReadWord32(input + more) == Some(Read(ReadWord32(input).value.value, ReadWord32(input).value.rest + more))
  {
    hide Value;
    assert (input + more)[..4] == input[..4] && (input + more)[4..] == input[4..] + more;
  }

  lemma StringFurther(n: int32, input: Bytes, more: Bytes)
    requires ReadString(n, input).Some?
    ensures ReadString(n, input + more) == Some(Read(ReadString(n, input).value.value, ReadString(n, input).value.rest + more))
  {
    assert (input + more)[..n] == input[..n] && (input + more)[n..] == input[n..] + more;
  }

  lemma ItemFurther(input: Bytes, more: Bytes)
    requires ReadItem(input).Some?
    ensures ReadItem(input + more) == Some(Read(ReadItem(input).value.value, ReadItem(input).value.rest + more))
  {
    hide ReadWord32, ReadString, Truncate32;
    var keyLen := ReadWord32(input).value;
    Word32Further(input, more);
    var key := ReadString(keyLen.value, keyLen.rest).value;
    StringFurther(keyLen.value, keyLen.rest, more);
    var valLen := ReadWord32(key.rest).value;
    Word32Further(key.rest, more);
    StringFurther(valLen.value, valLen.rest, more);
  }

  lemma {:induction false} ItemsFurther(n: nat, input: Bytes, baggage: map<Bytes, Bytes>, more: Bytes)
    requires ReadItems(n, input, baggage).Some?
    ensures ReadItems(n, input + more, baggage)
         == Some(Read(ReadItems(n, input, baggage).value.value, ReadItems(n, input, baggage).value.rest + more))
  {
    hide ReadItem;
    if n > 0 {
      var item := ReadItem(input).value;
      ItemFurther(input, more);
      ItemsFurther(n - 1, item.rest, baggage[item.value.key := item.value.value], more);
    }
  }

  lemma HeaderFurther(input: Bytes, more: Bytes)
    requires ReadHeader(input).Some?
    ensures ReadHeader(input + more) == Some(Read(ReadHeader(input).value.value, ReadHeader(input).value.rest + more))
  {
    hide ReadWord64;
    var high := ReadWord64(input).value;
    Word64Further(input, more);
    var low := ReadWord64(high.rest).value;
    Word64Further(high.rest, more);
    var spanID := ReadWord64(low.rest).value;
    Word64Further(low.rest, more);
    var parentID := ReadWord64(spanID.rest).value;
    Word64Further(spanID.rest, more);
    assert (parentID.rest + more)[1..] == parentID.rest[1..] + more;
  }

  /** What has been read of an input is read of any longer one, and leaves so much more. */
  lemma ContextFurther(input: Bytes, more: Bytes)
    requires ReadContext(input).Some?
    ensures ReadContext(input + more) == Some(Read(ReadContext(input).value.value, ReadContext(input).value.rest + more))
  {
    hide ReadHeader, ReadWord32, ReadItems;
    var c := ReadHeader(input).value;
    HeaderFurther(input, more);
    var count := ReadWord32(c.rest).value;
    Word32Further(c.rest, more);
    ItemsFurther(if count.value > 0 then count.value else 0, count.rest, map[], more);
  }

  /** A carrier cut short anywhere is never taken for a context. */
  lemma CutShort(sc: SpanContext, order: seq<Bytes>, n: nat)
    requires Enumerates(order, sc.baggage) && |sc.baggage| < 0x8000_0000
    requires forall k <- sc.baggage :: |k| < 0x8000_0000 && |sc.baggage[k]| < 0x8000_0000
    requires n < |ContextBytes(sc, order)|
    ensures ReadContext(ContextBytes(sc, order)[..n]).None?
  {
    hide ReadContext, Enumerates, FitsLimit, ContextBytes;
    BinaryRoundTrip(sc, order, []);
    var all := ContextBytes(sc, order);
    assert all + [] == all;
    NoneOfPrefix(all, n);
  }

  lemma NoneOfPrefix(all: Bytes, n: nat)
    requires n < |all| && (ReadContext(all).Some? ==> ReadContext(all).value.rest == [])
    ensures ReadContext(all[..n]).None?
  {
    hide ReadContext;
    assert all[..n] + all[n..] == all;
    if ReadContext(all[..n]).Some? { ContextFurther(all[..n], all[n..]); }
  }
}
