/**
 The THeader transport (thrift/header_transport.go): frames with a header section in front of the payload, and the four
 older dialects it recognises by the first bytes of a message. Strings are bytes; compressing transforms are not modelled.
 */
module THeader {
  import opened Widths
  import opened Sequences
  import opened BigEndianWords
  import opened Digits
  import opened MapOrder
  import CompactFormat
  import Varint

  datatype ClientType = Unknown | Headers | FramedBinary | UnframedBinary | FramedCompact | UnframedCompact

  type Map = map<Bytes, Bytes>

  const MAX_FRAME_SIZE: int := 0x3fff_ffff
  const META_SIZE: int := 10
  const INFO_KEY_VALUE: int32 := 1

  // ----- first bytes -----

  function FirstWord(b: Bytes): (w: nat)
    requires |b| >= 4
  {
    Value(b[..4])
  }

  /** w & THeaderHeaderMask and w & VERSION_MASK keep the upper half of the word. */
  predicate IsMagic(b: Bytes)
    requires |b| >= 4
  {
    FirstWord(b) / 0x1_0000 == 0x0fff
  }

  predicate IsBinary(b: Bytes)
    requires |b| >= 4
  {
    FirstWord(b) / 0x1_0000 == 0x8001
  }

  predicate IsCompact(b: Bytes)
    requires |b| >= 4
  {
    b[0] == 0x82 && b[1] % 0x20 == 1
  }

  predicate LegalFrameSize(n: int, maxFrame: int) { n <= MAX_FRAME_SIZE && n <= maxFrame }

  // ----- writing -----

  function Raw(n: int32): (b: Bytes) { Varint.Encode(Unsigned32(n)) }

  function RawAll(ns: seq<int32>): (b: Bytes) { if ns == [] then [] else Raw(ns[0]) + RawAll(ns[1..]) }

  function StringBytes(s: Bytes): (b: Bytes)
    requires |s| < 0x8000_0000
  {
    Raw(|s|) + s
  }

  predicate Short(order: seq<Bytes>, headers: Map)
  {
    forall k <- order :: k in headers && |k| < 0x8000_0000 && |headers[k]| < 0x8000_0000
  }

  function Pairs(order: seq<Bytes>, headers: Map): (b: Bytes)
    requires Short(order, headers)
  {
    if order == [] then []
    else StringBytes(order[0]) + (StringBytes(headers[order[0]]) + Pairs(order[1..], headers))
  }

  function Info(order: seq<Bytes>, headers: Map): (b: Bytes)
    requires Short(order, headers) && |order| < 0x8000_0000
  {
    if order == [] then [] else Raw(INFO_KEY_VALUE) + (Raw(|order|) + Pairs(order, headers))
  }

  function Zeros(n: nat): (b: Bytes) { seq(n, _ => 0) }

  /** What a header section says: protocol and transforms by number, then the map, walked in some order. */
  function Section(protocolID: int32, transforms: seq<int32>, order: seq<Bytes>, headers: Map): (b: Bytes)
    requires Short(order, headers) && |order| < 0x8000_0000 && |transforms| < 0x8000_0000
  {
    Raw(protocolID) + (Raw(|transforms|) + (RawAll(transforms) + Info(order, headers)))
  }

  function Padded(section: Bytes): (b: Bytes)
    ensures |b| % 4 == 0
  {
    var padding := 4 - |section| % 4;
    if padding < 4 then section + Zeros(padding) else section
  }

  function Meta(flags: uint32, sequenceID: int32, words: nat): (b: Bytes)
  {
    BigEndian(0x0fff_0000 + flags % 0x1_0000, 4) + (BigEndian(Unsigned32(sequenceID), 4) + BigEndian(words % 0x1_0000, 2))
  }

  function Payload(flags: uint32, sequenceID: int32, header: Bytes, body: Bytes): (b: Bytes)
  {
    Meta(flags, sequenceID, |header| / 4) + (header + body)
  }

  function Framed(payload: Bytes): (b: Bytes) { BigEndian(|payload| % 0x1_0000_0000, 4) + payload }

  // ----- reading -----

  datatype Header = Header(flags: nat, sequenceID: int32, protocolID: int32, headers: Map)

  /**
   What ReadFrame makes of the input: the dialect, the header if there is one, the frame's body to be read (empty for an unframed
   message, which stays where it is), and the rest of the input.
   */
  datatype Frame = Frame(client: ClientType, header: Option<Header>, body: Bytes, rest: Bytes)

  datatype Pair = Pair(headers: Map, st: CompactFormat.Reader)

  function ReadPairs(n: nat, st: CompactFormat.Reader, headers: Map): (r: Option<Pair>)
    ensures r.Some? ==> |r.value.st.input| <= |st.input|
  {
    if n == 0 then Some(Pair(headers, st))
    else
      var key := CompactFormat.ReadBinary(st);
      if !key.ok then None
      else
        var val := CompactFormat.ReadBinary(key.st);
        if !val.ok then None else ReadPairs(n - 1, val.st, headers[key.value := val.value])
  }

  /** Running out of input ends the info part; an unknown kind of info, such as padding, ends it too. */
  function ReadInfo(st: CompactFormat.Reader, headers: Map): (r: Option<Map>)
    decreases |st.input|
  {
    var kind := CompactFormat.ReadVarint32(st);
    if !kind.ok || kind.value != INFO_KEY_VALUE then Some(headers)
    else
      var count := CompactFormat.ReadVarint32(kind.st);
      if !count.ok then None
      else
        var pairs := ReadPairs(if count.value > 0 then count.value else 0, count.st, headers);
        if pairs.None? then None else ReadInfo(pairs.value.st, pairs.value.headers)
  }

  /** Only TransformNone is modelled: any other number is an error here. */
  function ReadTransforms(n: nat, st: CompactFormat.Reader): (r: Option<CompactFormat.Reader>)
    ensures r.Some? ==> |r.value.input| <= |st.input|
  {
    if n == 0 then Some(st)
    else
      var id := CompactFormat.ReadVarint32(st);
      if !id.ok || id.value != 0 then None else ReadTransforms(n - 1, id.st)
  }

  datatype SectionRead = SectionRead(protocolID: int32, headers: Map)

  function ReadSection(section: Bytes, limit: int32): (r: Option<SectionRead>)
  {
    var protocolID := CompactFormat.ReadVarint32(CompactFormat.Reader(section, [], 0, None, limit));
    if !protocolID.ok then None
    else
      var count := CompactFormat.ReadVarint32(protocolID.st);
      if !count.ok then None
      else
        var st := ReadTransforms(if count.value > 0 then count.value else 0, count.st);
        if st.None? then None
        else
          var headers := ReadInfo(st.value, map[]);
          if headers.None? then None else Some(SectionRead(protocolID.value, headers.value))
  }

  datatype Parsed = Parsed(header: Header, body: Bytes)

  function ParseFrame(frame: Bytes, limit: int32): (r: Option<Parsed>)
  {
    if |frame| < META_SIZE then None
    else
      var sequenceID := Value(frame[4..8]);
      var headerLength := Value(frame[8..10]) * 4;
      if |frame| - META_SIZE < headerLength then None
      else
        var section := ReadSection(frame[META_SIZE..META_SIZE + headerLength], limit);
        if section.None? then None
        else
          WordBound(frame[4..8]);
          Some(Parsed(Header(FirstWord(frame) % 0x1_0000, Signed32(sequenceID), section.value.protocolID,
                             section.value.headers),
                      frame[META_SIZE + headerLength..]))
  }

  lemma WordBound(b: Bytes)
    requires |b| == 4
    ensures Value(b) < 0x1_0000_0000
  {
    ValueBound(b);
    Spans();
  }

  /** A frame shorter than four bytes is an error here. */
  function FindFrame(input: Bytes, maxFrame: int, limit: int32): (r: Option<Frame>)
  {
    if |input| < 4 then None
    else if IsBinary(input) then Some(Frame(UnframedBinary, None, [], input))
    else if IsCompact(input) then Some(Frame(UnframedCompact, None, [], input))
    else
      var n := FirstWord(input);
      if !LegalFrameSize(n, maxFrame) || |input| - 4 < n || n < 4 then None
      else
        var frame, rest := input[4..4 + n], input[4 + n..];
        if IsMagic(frame) then
          var parsed := ParseFrame(frame, limit);
          if parsed.None? then None else Some(Frame(Headers, Some(parsed.value.header), parsed.value.body, rest))
        else if IsBinary(frame) then Some(Frame(FramedBinary, None, frame, rest))
        else if IsCompact(frame) then Some(Frame(FramedCompact, None, frame, rest))
        else None
  }

  // ----- dialects -----

  lemma FirstWordBytes(b: Bytes)
    requires |b| >= 4
    ensures var high: nat := b[0]; FirstWord(b) / 0x1_0000 == high * 0x100 + b[1]
  {
    var w := b[..4];
    var high: nat := b[0];
    assert w[..3][..2] == b[..2] && b[..2][..1] == [b[0]];
    assert Value([b[0]]) == high;
    var v := Value(b[..2]);
    assert v == high * 0x100 + b[1];
    var third: nat := b[2];
    assert Value(w[..3]) == v * 0x100 + third;
    var last: nat := b[3];
    assert FirstWord(b) == (v * 0x100 + third) * 0x100 + last;
    Upper(v, third, last);
  }

  lemma Upper(v: nat, third: nat, last: nat)
    requires third < 0x100 && last < 0x100
    ensures ((v * 0x100 + third) * 0x100 + last) / 0x1_0000 == v
  {
  }

  /** The first bytes of each dialect: those of a header, of a strict binary message, and of a compact one. */
  lemma FirstBytes(b: Bytes)
    requires |b| >= 4
    ensures IsMagic(b) <==> b[0] == 0x0f && b[1] == 0xff
    ensures IsBinary(b) <==> b[0] == 0x80 && b[1] == 0x01
    ensures IsCompact(b) <==> b[0] == 0x82 && b[1] % 0x20 == 1
  {
    FirstWordBytes(b);
  }

  /** The tests exclude each other, and none but the header's magic is met by the length of a legal frame. */
  lemma DialectsApart(b: Bytes)
    requires |b| >= 4
    ensures !(IsMagic(b) && IsBinary(b)) && !(IsMagic(b) && IsCompact(b)) && !(IsBinary(b) && IsCompact(b))
    ensures FirstWord(b) <= MAX_FRAME_SIZE ==> !IsBinary(b) && !IsCompact(b)
  {
    FirstWordBytes(b);
  }

  /** What a peer speaking the dialect puts on the wire for a message. */
  function Sent(client: ClientType, body: Bytes): (b: Bytes)
  {
    if client == UnframedBinary || client == UnframedCompact then body else Framed(body)
  }

  lemma SplitWord(n: nat, rest: Bytes)
    requires n < 0x1_0000_0000
    ensures var b := BigEndian(n, 4) + rest; FirstWord(b) == n && b[4..] == rest
  {
    Spans();
    BigEndianRoundTrip(n, 4);
    assert (BigEndian(n, 4) + rest)[..4] == BigEndian(n, 4);
  }

  /** A legal frame is never taken for an unframed message: its bytes are found again, exactly. */
  lemma FrameFound(payload: Bytes, rest: Bytes, maxFrame: int)
    requires LegalFrameSize(|payload|, maxFrame)
    ensures var b := Framed(payload) + rest;
            |b| >= 4 && !IsBinary(b) && !IsCompact(b) && FirstWord(b) == |payload|
            && |b| - 4 >= |payload| && b[4..4 + |payload|] == payload && b[4 + |payload|..] == rest
  {
    FramedWord(payload, rest);
    hide FirstWord, Framed;
    var b := Framed(payload) + rest;
    ShortWord(b);
    hide IsBinary, IsCompact;
    assert b[4..4 + |payload|] == b[4..][..|payload|] == payload;
    assert b[4 + |payload|..] == b[4..][|payload|..] == rest;
  }

  lemma FramedWord(payload: Bytes, rest: Bytes)
    requires |payload| < 0x1_0000_0000
    ensures var b := Framed(payload) + rest; |b| >= 4 && FirstWord(b) == |payload| && b[4..] == payload + rest
  {
    Assoc(BigEndian(|payload|, 4), payload, rest);
    SplitWord(|payload|, payload + rest);
    hide FirstWord, BigEndian;
  }

  /** A frame over the limits, up to 2^31 bytes, is refused and not taken for something else. */
  lemma TooBigRefused(payload: Bytes, rest: Bytes, maxFrame: int, limit: int32)
    requires (|payload| > 0x3fff_ffff || |payload| > maxFrame) && |payload| < 0x8000_0000
    ensures FindFrame(Framed(payload) + rest, maxFrame, limit).None?
  {
    FramedWord(payload, rest);
    hide FirstWord, Framed;
    ShortWord(Framed(payload) + rest);
    hide ParseFrame, IsBinary, IsCompact, IsMagic;
  }

  lemma ShortWord(b: Bytes)
    requires |b| >= 4 && FirstWord(b) < 0x8000_0000
    ensures !IsBinary(b) && !IsCompact(b)
  {
    FirstWordBytes(b);
    hide FirstWord;
  }

  /** Each of the four dialects without headers is recognised, and its message is handed on whole. */
  lemma DialectRecognised(client: ClientType, body: Bytes, rest: Bytes, maxFrame: int, limit: int32)
    requires 4 <= |body| <= 0x3fff_ffff && |body| <= maxFrame
    requires client == FramedBinary || client == UnframedBinary ==> IsBinary(body)
    requires client == FramedCompact || client == UnframedCompact ==> IsCompact(body)
    requires client != Unknown && client != Headers
    ensures FindFrame(Sent(client, body) + rest, maxFrame, limit)
         == Some(if client == FramedBinary || client == FramedCompact then Frame(client, None, body, rest)
                 else Frame(client, None, [], body + rest))
  {
    hide ParseFrame;
    DialectsApart(body);
    if client == FramedBinary || client == FramedCompact {
      FrameFound(body, rest, maxFrame);
      hide Framed, FirstWord, IsMagic, IsBinary, IsCompact;
    } else {
      assert (body + rest)[..4] == body[..4];
      DialectsApart(body + rest);
    }
  }

  /** A compact protocol message is recognised as one. */
  lemma CompactMessageIsCompact(name: Bytes, typeId: byte, seqid: int32, rest: Bytes)
    requires |name| < 0x8000_0000 && |CompactFormat.MessageHeader(name, typeId, seqid) + rest| >= 4
    ensures IsCompact(CompactFormat.MessageHeader(name, typeId, seqid) + rest)
  {
  }

  // ----- the header section -----

  lemma RawRoundTrip(n: int32, rest: Bytes, st: CompactFormat.Reader)
    requires st.input == Raw(n) + rest
    ensures CompactFormat.ReadVarint32(st) == CompactFormat.Got(true, n, st.(input := rest))
  {
    CompactFormat.RawVarintRoundTrip(n, rest, st);
  }

  lemma StringRoundTrip(s: Bytes, rest: Bytes, st: CompactFormat.Reader)
    requires |s| <= st.limit && st.input == StringBytes(s) + rest
    ensures CompactFormat.ReadBinary(st) == CompactFormat.Got(true, s, st.(input := rest))
  {
    hide CompactFormat.ReadVarint32, Raw;
    Assoc(Raw(|s|), s, rest);
    RawRoundTrip(|s|, s + rest, st);
    assert (s + rest)[..|s|] == s && (s + rest)[|s|..] == rest;
  }

  lemma StringRefused(s: Bytes, rest: Bytes, st: CompactFormat.Reader)
    requires st.limit < |s| < 0x8000_0000 && st.input == StringBytes(s) + rest
    ensures !CompactFormat.ReadBinary(st).ok
  {
    hide CompactFormat.ReadVarint32, Raw;
    Assoc(Raw(|s|), s, rest);
    RawRoundTrip(|s|, s + rest, st);
  }

  lemma {:induction false} TransformsRoundTrip(ids: seq<int32>, rest: Bytes, st: CompactFormat.Reader)
    requires (forall id <- ids :: id == 0) && st.input == RawAll(ids) + rest
    ensures ReadTransforms(|ids|, st) == Some(st.(input := rest))
  {
    hide CompactFormat.ReadVarint32, Raw;
    if ids == [] {
      assert [] + rest == rest;
    } else {
      assert ids[0] in ids && forall id <- ids[1..] :: id in ids;
      Assoc(Raw(ids[0]), RawAll(ids[1..]), rest);
      RawRoundTrip(ids[0], RawAll(ids[1..]) + rest, st);
      TransformsRoundTrip(ids[1..], rest, st.(input := RawAll(ids[1..]) + rest));
    }
  }

  /** Any transform but none is refused. */
  lemma {:induction false} TransformsRefused(ids: seq<int32>, rest: Bytes, st: CompactFormat.Reader)
    requires (exists id <- ids :: id != 0) && st.input == RawAll(ids) + rest
    ensures ReadTransforms(|ids|, st).None?
  {
    hide CompactFormat.ReadVarint32, Raw;
    Assoc(Raw(ids[0]), RawAll(ids[1..]), rest);
    RawRoundTrip(ids[0], RawAll(ids[1..]) + rest, st);
    if ids[0] == 0 {
      var id :| id in ids && id != 0;
      assert ids == [ids[0]] + ids[1..];
      assert id in ids[1..];
      TransformsRefused(ids[1..], rest, st.(input := RawAll(ids[1..]) + rest));
    }
  }

  /** Every string is short enough for the reader. */
  predicate Within(order: seq<Bytes>, headers: Map, limit: int32)
  {
    forall k <- order :: k in headers && |k| <= limit && |headers[k]| <= limit
  }

  /** The pairs come back if every string is short enough, and not at all otherwise. */
  lemma {:induction false} PairsRoundTrip(order: seq<Bytes>, sofar: seq<Bytes>, headers: Map, rest: Bytes,
                                          st: CompactFormat.Reader)
    requires Short(order, headers) && st.input == Pairs(order, headers) + rest
    ensures ReadPairs(|order|, st, Restrict(sofar, headers))
         == if Within(order, headers, st.limit) then Some(Pair(Restrict(sofar + order, headers), st.(input := rest)))
            else None
    decreases |order|
  {
    hide CompactFormat.ReadBinary, StringBytes, Restrict;
    if order == [] {
      assert sofar + order == sofar && [] + rest == rest;
    } else {
      var k, v := order[0], headers[order[0]];
      assert k in order && forall j <- order[1..] :: j in order;
      assert order == [k] + order[1..];
      var tail := Pairs(order[1..], headers) + rest;
      Assoc(StringBytes(k), StringBytes(v) + Pairs(order[1..], headers), rest);
      Assoc(StringBytes(v), Pairs(order[1..], headers), rest);
      var atValue := st.(input := StringBytes(v) + tail);
      if |k| > st.limit {
        StringRefused(k, StringBytes(v) + tail, st);
      } else {
        StringRoundTrip(k, StringBytes(v) + tail, st);
        if |v| > st.limit {
          StringRefused(v, tail, atValue);
        } else {
          StringRoundTrip(v, tail, atValue);
          RestrictOneMore(sofar, k, headers);
          PairsRoundTrip(order[1..], sofar + [k], headers, rest, st.(input := tail));
          assert sofar + [k] + order[1..] == sofar + order;
          assert Within(order, headers, st.limit) <==> Within(order[1..], headers, st.limit);
        }
      }
    }
  }

  /** Padding ends the info part, however much of it there is. */
  lemma PaddingEndsInfo(n: nat, headers: Map, st: CompactFormat.Reader)
    requires st.input == Zeros(n)
    ensures ReadInfo(st, headers) == Some(headers)
  {
    if n == 0 {
      assert st.input == [];
    } else {
      assert Raw(0) == [0] by { Varint.EncodeSmall(0); }
      assert st.input == Raw(0) + Zeros(n - 1);
      RawRoundTrip(0, Zeros(n - 1), st);
    }
  }

  lemma InfoRoundTrip(order: seq<Bytes>, headers: Map, padding: nat, st: CompactFormat.Reader)
    requires Enumerates(order, headers) && Short(order, headers) && |order| < 0x8000_0000
    requires st.input == Info(order, headers) + Zeros(padding)
    ensures ReadInfo(st, map[]) == if Within(order, headers, st.limit) then Some(headers) else None
  {
    hide CompactFormat.ReadVarint32, Raw, Pairs, Restrict, ReadPairs;
    var zeros := Zeros(padding);
    WholeMap(order, headers);
    if order == [] {
      assert [] + zeros == zeros;
      PaddingEndsInfo(padding, map[], st);
    } else {
      hide Enumerates;
      Assoc(Raw(INFO_KEY_VALUE), Raw(|order|) + Pairs(order, headers), zeros);
      Assoc(Raw(|order|), Pairs(order, headers), zeros);
      var afterKind := st.(input := Raw(|order|) + (Pairs(order, headers) + zeros));
      var afterCount := st.(input := Pairs(order, headers) + zeros);
      RawRoundTrip(INFO_KEY_VALUE, afterKind.input, st);
      RawRoundTrip(|order|, afterCount.input, afterKind);
      PairsRoundTrip(order, [], headers, zeros, afterCount);
      assert [] + order == order;
      PaddingEndsInfo(padding, headers, st.(input := zeros));
      InfoUnfold(st, afterKind, afterCount, |order|);
    }
  }

  lemma InfoUnfold(st: CompactFormat.Reader, afterKind: CompactFormat.Reader, afterCount: CompactFormat.Reader, n: nat)
    requires n < 0x8000_0000
    requires CompactFormat.ReadVarint32(st) == CompactFormat.Got(true, INFO_KEY_VALUE, afterKind)
    requires CompactFormat.ReadVarint32(afterKind) == CompactFormat.Got(true, n, afterCount)
    ensures ReadInfo(st, map[])
         == var pairs := ReadPairs(n, afterCount, map[]);
            if pairs.None? then None else ReadInfo(pairs.value.st, pairs.value.headers)
  {
    hide CompactFormat.ReadVarint32, ReadPairs;
  }

  /** A section with its padding reads back if every string is short enough, and not at all otherwise. */
  lemma SectionRoundTrip(protocolID: int32, transforms: seq<int32>, order: seq<Bytes>, headers: Map, padding: nat,
                         limit: int32)
    requires Enumerates(order, headers) && Short(order, headers) && |order| < 0x8000_0000
    requires (forall id <- transforms :: id == 0) && |transforms| < 0x8000_0000
    ensures ReadSection(Section(protocolID, transforms, order, headers) + Zeros(padding), limit)
         == if Within(order, headers, limit) then Some(SectionRead(protocolID, headers)) else None
  {
    hide CompactFormat.ReadVarint32, Raw, RawAll, Info, ReadInfo, ReadTransforms;
    var zeros := Zeros(padding);
    var b3 := Info(order, headers) + zeros;
    var b2 := RawAll(transforms) + b3;
    var b1 := Raw(|transforms|) + b2;
    Assoc(Raw(protocolID), Raw(|transforms|) + (RawAll(transforms) + Info(order, headers)), zeros);
    Assoc(Raw(|transforms|), RawAll(transforms) + Info(order, headers), zeros);
    Assoc(RawAll(transforms), Info(order, headers), zeros);
    var st := CompactFormat.Reader(Raw(protocolID) + b1, [], 0, None, limit);
    RawRoundTrip(protocolID, b1, st);
    RawRoundTrip(|transforms|, b2, st.(input := b1));
    TransformsRoundTrip(transforms, b3, st.(input := b2));
    InfoRoundTrip(order, headers, padding, st.(input := b3));
    hide Enumerates, Within, Short;
  }

  /** So a section that announces a transform is refused whatever follows. */
  lemma SectionRefused(protocolID: int32, transforms: seq<int32>, rest: Bytes, limit: int32)
    requires (exists id <- transforms :: id != 0) && |transforms| < 0x8000_0000
    ensures ReadSection(Raw(protocolID) + (Raw(|transforms|) + (RawAll(transforms) + rest)), limit).None?
  {
    hide CompactFormat.ReadVarint32, Raw, RawAll, ReadInfo, ReadTransforms;
    var b2 := RawAll(transforms) + rest;
    var b1 := Raw(|transforms|) + b2;
    var st := CompactFormat.Reader(Raw(protocolID) + b1, [], 0, None, limit);
    RawRoundTrip(protocolID, b1, st);
    RawRoundTrip(|transforms|, b2, st.(input := b1));
    TransformsRefused(transforms, rest, st.(input := b2));
  }

  // ----- the whole frame -----

  lemma MetaRoundTrip(flags: uint32, sequenceID: int32, words: nat, rest: Bytes)
    ensures var b := Meta(flags, sequenceID, words) + rest;
            |b| >= META_SIZE && IsMagic(b) && FirstWord(b) % 0x1_0000 == flags % 0x1_0000
            && Value(b[4..8]) == Unsigned32(sequenceID) && Value(b[8..10]) == words % 0x1_0000 && b[META_SIZE..] == rest
  {
    var low, count := flags % 0x1_0000, words % 0x1_0000;
    MetaParts(BigEndian(0x0fff_0000 + low, 4), BigEndian(Unsigned32(sequenceID), 4), BigEndian(count, 2), rest);
    Spans();
    BigEndianRoundTrip(0x0fff_0000 + low, 4);
    BigEndianRoundTrip(Unsigned32(sequenceID), 4);
    BigEndianRoundTrip(count, 2);
    UpperHalf(low);
    hide BigEndian, Value, Span256;
  }

  lemma MetaParts(magic: Bytes, seqid: Bytes, words: Bytes, rest: Bytes)
    requires |magic| == 4 && |seqid| == 4 && |words| == 2
    ensures var b := magic + (seqid + words) + rest;
            |b| >= META_SIZE && b[..4] == magic && b[4..8] == seqid && b[8..10] == words && b[META_SIZE..] == rest
  {
  }

  lemma UpperHalf(low: nat)
    requires low < 0x1_0000
    ensures (0x0fff_0000 + low) / 0x1_0000 == 0x0fff && (0x0fff_0000 + low) % 0x1_0000 == low
  {
  }

  lemma ParseRoundTrip(flags: uint32, sequenceID: int32, protocolID: int32, transforms: seq<int32>, order: seq<Bytes>,
                       headers: Map, body: Bytes, limit: int32)
    requires Enumerates(order, headers) && Short(order, headers) && |order| < 0x8000_0000
    requires (forall id <- transforms :: id == 0) && |transforms| < 0x8000_0000
    ensures var header := Padded(Section(protocolID, transforms, order, headers));
            |header| / 4 < 0x1_0000 ==>
              ParseFrame(Payload(flags, sequenceID, header, body), limit)
              == if Within(order, headers, limit)
                 then Some(Parsed(Header(flags % 0x1_0000, sequenceID, protocolID, headers), body)) else None
  {
    var section := Section(protocolID, transforms, order, headers);
    PaddedParts(section);
    hide Padded;
    SectionRoundTrip(protocolID, transforms, order, headers, |Padded(section)| - |section|, limit);
    hide Section, Enumerates, Short, Within, Zeros, ReadSection, Payload, ParseFrame;
    if |Padded(section)| / 4 < 0x1_0000 {
      FindSection(flags, sequenceID, Padded(section), body, limit);
    }
  }

  lemma PaddedParts(section: Bytes)
    ensures Padded(section) == section + Zeros(|Padded(section)| - |section|)
  {
    assert section + Zeros(0) == section;
  }

  /** ParseFrame takes a frame apart where Payload put it together. */
  lemma FindSection(flags: uint32, sequenceID: int32, header: Bytes, body: Bytes, limit: int32)
    requires |header| % 4 == 0 && |header| / 4 < 0x1_0000
    ensures var section := ReadSection(header, limit);
            ParseFrame(Payload(flags, sequenceID, header, body), limit)
            == if section.None? then None
               else Some(Parsed(Header(flags % 0x1_0000, sequenceID, section.value.protocolID, section.value.headers), body))
  {
    hide ReadSection, Meta, Value, IsMagic, FirstWord;
    var frame := Payload(flags, sequenceID, header, body);
    MetaRoundTrip(flags, sequenceID, |header| / 4, header + body);
    hide Payload;
    assert frame[META_SIZE..META_SIZE + |header|] == frame[META_SIZE..][..|header|] == header;
    assert frame[META_SIZE + |header|..] == frame[META_SIZE..][|header|..] == body;
    WordSigns(sequenceID);
  }

  /** A header section whose length does not fit sixteen bits is taken for a shorter one, and its end for body. */
  lemma LongSection(flags: uint32, sequenceID: int32, header: Bytes, body: Bytes, limit: int32)
    requires |header| % 4 == 0 && |header| / 4 >= 0x1_0000
    ensures var parsed := ParseFrame(Payload(flags, sequenceID, header, body), limit);
            parsed.Some? ==> |parsed.value.body| > |body|
  {
    hide ReadSection, Meta, Value, IsMagic, FirstWord;
    MetaRoundTrip(flags, sequenceID, |header| / 4, header + body);
    assert |Payload(flags, sequenceID, header, body)| == META_SIZE + |header| + |body| by { hide BigEndian; }
    hide Payload;
  }

  lemma WordSigns(n: int32)
    ensures Signed32(Unsigned32(n)) == n
  {
  }

  /**
   What Flush writes for a THeader peer without transforms, within the frame limits, is read back as the same flags (their
   lower half), sequence id, protocol, headers and body, with nothing behind the frame touched, if and only if the header
   section fits its 16-bit length and its strings the reader's limit.
   */
  lemma HeaderRoundTrip(flags: uint32, sequenceID: int32, protocolID: int32, transforms: seq<int32>, order: seq<Bytes>,
                        headers: Map, body: Bytes, rest: Bytes, maxFrame: int, limit: int32)
    requires Enumerates(order, headers) && Short(order, headers) && |order| < 0x8000_0000
    requires (forall id <- transforms :: id == 0) && |transforms| < 0x8000_0000
    ensures var header := Padded(Section(protocolID, transforms, order, headers));
            10 + |header| + |body| <= 0x3fff_ffff && 10 + |header| + |body| <= maxFrame ==>
              (FindFrame(Framed(Payload(flags, sequenceID, header, body)) + rest, maxFrame, limit)
               == Some(Frame(Headers, Some(Header(flags % 0x1_0000, sequenceID, protocolID, headers)), body, rest))
               <==> |header| / 4 < 0x1_0000 && Within(order, headers, limit))
  {
    hide Section, Padded, ParseFrame;
    var header := Padded(Section(protocolID, transforms, order, headers));
    if LegalFrameSize(META_SIZE + |header| + |body|, maxFrame) {
      ParseRoundTrip(flags, sequenceID, protocolID, transforms, order, headers, body, limit);
      hide Enumerates, Within, Short;
      if |header| / 4 >= 0x1_0000 { LongSection(flags, sequenceID, header, body, limit); }
      FrameParsed(flags, sequenceID, header, body, rest, maxFrame, limit);
      hide FindFrame;
    }
  }

  /** A legal THeader frame is found, and is what ParseFrame makes of its payload. */
  lemma FrameParsed(flags: uint32, sequenceID: int32, header: Bytes, body: Bytes, rest: Bytes, maxFrame: int, limit: int32)
    requires LegalFrameSize(META_SIZE + |header| + |body|, maxFrame)
    ensures var payload := Payload(flags, sequenceID, header, body);
            var parsed := ParseFrame(payload, limit);
            FindFrame(Framed(payload) + rest, maxFrame, limit)
            == if parsed.None? then None else Some(Frame(Headers, Some(parsed.value.header), parsed.value.body, rest))
  {
    hide ParseFrame;
    var payload := Payload(flags, sequenceID, header, body);
    MetaRoundTrip(flags, sequenceID, |header| / 4, header + body);
    hide Payload, Framed;
    FrameFound(payload, rest, maxFrame);
    hide IsMagic, IsBinary, IsCompact, FirstWord;
  }

  /** A frame cut short is refused, wherever the cut is. */
  lemma FrameCutShort(payload: Bytes, n: nat, maxFrame: int, limit: int32)
    requires LegalFrameSize(|payload|, maxFrame) && n < |Framed(payload)|
    ensures FindFrame(Framed(payload)[..n], maxFrame, limit).None?
  {
    hide ParseFrame, BigEndian;
    if n >= 4 {
      FrameFound(payload, [], maxFrame);
      var b := Framed(payload);
      assert b + [] == b;
      assert b[..n][..4] == b[..4];
      FirstBytes(b);
      FirstBytes(b[..n]);
      hide Framed, FirstWord, IsBinary, IsCompact;
      assert |b[..n]| - 4 < |payload|;
    }
  }

  // ----- the layout -----

  lemma BigEndian2(n: nat)
    requires n < 0x1_0000
    ensures BigEndian(n, 2) == [n / 0x100, n % 0x100]
  {
    assert n / 0x100 < 0x100;
    assert BigEndian(n / 0x100, 1) == [n / 0x100 % 0x100] by { assert BigEndian(n / 0x100 / 0x100, 0) == []; }
  }

  /**
   A frame: four bytes of length, the magic number, the flags, the sequence id, the header's length in words, the header
   and the body. BigEndianDigits says what the four-byte numbers look like.
   */
  lemma FrameLayout(flags: uint32, sequenceID: int32, header: Bytes, body: Bytes)
    requires |header| % 4 == 0 && |header| < 0x4_0000 && 10 + |header| + |body| < 0x1_0000_0000
    ensures Framed(Payload(flags, sequenceID, header, body))
         == BigEndian(10 + |header| + |body|, 4)
            + ([0x0f, 0xff, flags / 0x100 % 0x100, flags % 0x100]
               + (BigEndian(if sequenceID >= 0 then sequenceID else sequenceID + 0x1_0000_0000, 4)
                  + [|header| / 4 / 0x100, |header| / 4 % 0x100]) + (header + body))
  {
    hide BigEndian;
    MagicWord(flags);
    BigEndian2(|header| / 4);
    assert |Payload(flags, sequenceID, header, body)| == 10 + |header| + |body|;
  }

  lemma MagicWord(flags: uint32)
    ensures BigEndian(0x0fff_0000 + flags % 0x1_0000, 4) == [0x0f, 0xff, flags / 0x100 % 0x100, flags % 0x100]
  {
    hide BigEndian;
    var high, low := flags / 0x100 % 0x100, flags % 0x100;
    LowerHalf(flags);
    AddByte(0x0f_ff00 + high, low);
    BigEndianStep(0x0fff_0000 + flags % 0x1_0000, 4);
    AddByte(0x0fff, high);
    BigEndianStep(0x0f_ff00 + high, 3);
    BigEndian2(0x0fff);
    assert 0x0fff / 0x100 == 0x0f && 0x0fff % 0x100 == 0xff;
  }

  lemma LowerHalf(flags: nat)
    ensures flags % 0x1_0000 == flags / 0x100 % 0x100 * 0x100 + flags % 0x100
  {
    DivTwice(flags, 0x100, 0x100);
    Divided(flags, 0x1_0000);
    Divided(flags, 0x100);
    Divided(flags / 0x100, 0x100);
  }

  lemma Divided(n: nat, d: nat)
    requires d > 0
    ensures n == n / d * d + n % d
  {
  }

  lemma AddByte(n: nat, low: nat)
    requires low < 0x100
    ensures (n * 0x100 + low) / 0x100 == n && (n * 0x100 + low) % 0x100 == low
  {
  }

  lemma BigEndianStep(n: nat, width: nat)
    requires width > 0
    ensures BigEndian(n, width) == BigEndian(n / 0x100, width - 1) + [n % 0x100]
  {
  }

  /**
   A header section: protocol and transforms, and if there are any headers the number 1, their count, and each key and
   value with its length, every number a varint; then zeros up to a multiple of four bytes.
   */
  lemma SectionLayout(protocolID: int32, order: seq<Bytes>, headers: Map)
    requires Short(order, headers) && |order| < 0x8000_0000 && 0 <= protocolID < 128
    ensures Section(protocolID, [], order, headers)
         == [protocolID] + ([0] + if order == [] then [] else [1] + (Varint.Encode(|order|) + Pairs(order, headers)))
    ensures order != [] ==>
              Pairs(order, headers)
              == Varint.Encode(|order[0]|) + order[0]
                 + (Varint.Encode(|headers[order[0]]|) + headers[order[0]] + Pairs(order[1..], headers))
  {
    hide Pairs, Varint.Encode;
    Varint.EncodeSmall(protocolID);
    Varint.EncodeSmall(0);
    Varint.EncodeSmall(1);
    if order != [] { PairsInTurn(order, headers); }
    assert [] + Info(order, headers) == Info(order, headers);
  }

  lemma PairsInTurn(order: seq<Bytes>, headers: Map)
    requires Short(order, headers) && order != []
    ensures Pairs(order, headers)
         == Varint.Encode(|order[0]|) + order[0]
            + (Varint.Encode(|headers[order[0]]|) + headers[order[0]] + Pairs(order[1..], headers))
  {
    hide Varint.Encode;
    assert order[0] in order;
  }

  lemma PaddingLayout(section: Bytes)
    ensures |Padded(section)| % 4 == 0 && |section| <= |Padded(section)| < |section| + 4
    ensures Padded(section)[..|section|] == section
    ensures forall i :: |section| <= i < |Padded(section)| ==> Padded(section)[i] == 0
  {
  }

  // ----- the transport -----

  predicate IsFramed(client: ClientType) { client == Headers || client == FramedBinary || client == FramedCompact }

  function Least(n: nat, m: nat): (r: nat) { if n < m then n else m }

  /** The bytes a read returns, what it leaves of the frame, and what it leaves of the input. */
  datatype Chunk = Chunk(bytes: Bytes, left: Bytes, rest: Bytes)

  /** A read at the end of a frame: of the next frame that is not empty, or of the unframed message it finds. */
  function NextChunk(input: Bytes, n: nat, maxFrame: int, limit: int32): (r: Option<Chunk>)
    decreases |input|
  {
    var f := FindFrame(input, maxFrame, limit);
    FrameShrinks(input, maxFrame, limit);
    if f.None? then None
    else if !IsFramed(f.value.client) then
      var k := Least(n, |f.value.rest|);
      Some(Chunk(f.value.rest[..k], [], f.value.rest[k..]))
    else if f.value.body == [] && n > 0 then NextChunk(f.value.rest, n, maxFrame, limit)
    else
      var k := Least(n, |f.value.body|);
      Some(Chunk(f.value.body[..k], f.value.body[k..], f.value.rest))
  }

  /** All there is to be read: the bodies of the frames one after the other, and an unframed message as it stands. */
  function Stream(input: Bytes, maxFrame: int, limit: int32): (b: Bytes)
    decreases |input|
  {
    var f := FindFrame(input, maxFrame, limit);
    FrameShrinks(input, maxFrame, limit);
    if f.None? then []
    else if !IsFramed(f.value.client) then input
    else f.value.body + Stream(f.value.rest, maxFrame, limit)
  }

  /**
   A read takes the stream's next bytes, as many as asked for unless the frame or the message has fewer, and none only if
   none are asked for; what it leaves, in the frame and behind it, is the rest of the stream.
   */
  lemma {:induction false} ReadsTheStream(input: Bytes, n: nat, maxFrame: int, limit: int32)
    ensures var next, all := NextChunk(input, n, maxFrame, limit), Stream(input, maxFrame, limit);
            (next.None? && n > 0 ==> all == [])
            && (next.Some? ==>
                  var c := next.value;
                  |c.bytes| <= n && (n > 0 ==> c.bytes != []) && (c.left != [] ==> |c.bytes| == n)
                  && (c.bytes + c.left + Stream(c.rest, maxFrame, limit) == all
                      || (c.left == [] && c.bytes + c.rest == all && (c.rest != [] ==> |c.bytes| == n))))
    decreases |input|
  {
    var f := FindFrame(input, maxFrame, limit);
    FrameShrinks(input, maxFrame, limit);
    hide FindFrame;
    if f.Some? && IsFramed(f.value.client) {
      if f.value.body == [] && n > 0 {
        ReadsTheStream(f.value.rest, n, maxFrame, limit);
        assert [] + Stream(f.value.rest, maxFrame, limit) == Stream(f.value.rest, maxFrame, limit);
      } else {
        var k := Least(n, |f.value.body|);
        assert f.value.body[..k] + f.value.body[k..] == f.value.body;
      }
    } else if f.Some? {
      var k := Least(n, |input|);
      assert input[..k] + input[k..] == input;
    }
  }

  class THeaderTransport {
    const maxFrameSize: int
    const limit: int32
    var sequenceID: int32
    var flags: uint32
    var readHeaders: Map
    var writeHeaders: Map
    /** The bytes still to be read from the connection, and those written to it. */
    var reader: Bytes
    var output: Bytes
    var frameBuffer: Bytes
    /** frameReader is set. */
    var frameOpen: bool
    var writeBuffer: Bytes
    var writeTransforms: seq<int32>
    var clientType: ClientType
    var protocolID: int32

    predicate Valid()
      reads this
    {
      if frameOpen then IsFramed(clientType) else frameBuffer == []
    }

    constructor (maxFrameSize: int, limit: int32, protocolID: int32, reader: Bytes)
      ensures Valid() && NeedReadFrame() && this.reader == reader && output == [] && writeBuffer == []
      ensures this.maxFrameSize == maxFrameSize && this.limit == limit && this.protocolID == protocolID
      ensures writeHeaders == map[] && writeTransforms == [] && clientType == Unknown
      ensures sequenceID == 0 && flags == 0 && readHeaders == map[] && !frameOpen && frameBuffer == []
    {
      this.maxFrameSize, this.limit, this.protocolID, this.reader := maxFrameSize, limit, protocolID, reader;
      sequenceID, flags, readHeaders, writeHeaders, output, frameBuffer := 0, 0, map[], map[], [], [];
      frameOpen, writeBuffer, writeTransforms, clientType := false, [], [], Unknown;
    }

    predicate NeedReadFrame()
      reads this
    {
      clientType == Unknown || (IsFramed(clientType) && !frameOpen)
    }

    /** On success the transport is at the start of the frame or message that FindFrame describes. */
    method ReadFrame() returns (ok: bool)
      requires Valid()
      modifies this
      ensures !old(NeedReadFrame()) ==> ok && unchanged(this)
      ensures old(NeedReadFrame()) ==> ok == FindFrame(old(reader), maxFrameSize, limit).Some?
      ensures old(NeedReadFrame()) && ok ==>
                Valid() && At(FindFrame(old(reader), maxFrameSize, limit).value)
      ensures output == old(output) && writeBuffer == old(writeBuffer) && writeHeaders == old(writeHeaders)
    {
      hide ParseFrame, FirstWord, IsMagic, IsBinary, IsCompact;
      if !NeedReadFrame() { return true; }
      if |reader| < 4 { return false; }
      if IsBinary(reader) {
        clientType := UnframedBinary;
        return true;
      }
      if IsCompact(reader) {
        clientType := UnframedCompact;
        return true;
      }
      var frameSize := FirstWord(reader);
      if !LegalFrameSize(frameSize, maxFrameSize) { return false; }
      reader := reader[4..];
      if |reader| < frameSize || frameSize < 4 { return false; }
      frameBuffer := reader[..frameSize];
      reader := reader[frameSize..];
      frameOpen := true;
      assert frameBuffer == old(reader)[4..4 + frameSize] && reader == old(reader)[4 + frameSize..];
      if IsMagic(frameBuffer) {
        clientType := Headers;
        ok := ParseHeaders();
        return;
      }
      if IsBinary(frameBuffer) {
        clientType := FramedBinary;
        return true;
      }
      if IsCompact(frameBuffer) {
        clientType := FramedCompact;
        return true;
      }
      EndOfFrame();
      return false;
    }

    /** The transport stands where the frame says. */
    ghost predicate At(f: Frame)
      reads this
    {
      clientType == f.client && reader == f.rest && frameBuffer == f.body && frameOpen == IsFramed(f.client)
      && (f.header.Some? ==>
            flags == f.header.value.flags && sequenceID == f.header.value.sequenceID
            && protocolID == f.header.value.protocolID && readHeaders == f.header.value.headers)
    }

    method EndOfFrame()
      modifies `frameBuffer, `frameOpen
      ensures frameBuffer == [] && !frameOpen
    {
      frameBuffer := [];
      frameOpen := false;
    }

    method ParseHeaders() returns (ok: bool)
      modifies `flags, `sequenceID, `protocolID, `readHeaders, `frameBuffer
      ensures ok == ParseFrame(old(frameBuffer), limit).Some?
      ensures ok ==> var p := ParseFrame(old(frameBuffer), limit).value;
                     flags == p.header.flags && sequenceID == p.header.sequenceID && frameBuffer == p.body
                     && protocolID == p.header.protocolID && readHeaders == p.header.headers
    {
      if |frameBuffer| < META_SIZE { return false; }
      var frame := frameBuffer;
      WordBound(frame[..4]);
      WordBound(frame[4..8]);
      flags := FirstWord(frame) % 0x1_0000;
      sequenceID := Signed32(Value(frame[4..8]));
      var headerLength := Value(frame[8..10]) * 4;
      hide Value, FirstWord;
      frameBuffer := frame[META_SIZE..];
      if |frameBuffer| < headerLength { return false; }
      var section := frameBuffer[..headerLength];
      assert section == frame[META_SIZE..META_SIZE + headerLength];
      frameBuffer := frameBuffer[headerLength..];
      assert frameBuffer == frame[META_SIZE + headerLength..];
      var r := ReadHeaderSection(section);
      if r.None? { return false; }
      protocolID, readHeaders := r.value.protocolID, r.value.headers;
      return true;
    }

    method ReadHeaderSection(section: Bytes) returns (r: Option<SectionRead>)
      ensures r == ReadSection(section, limit)
    {
      hide CompactFormat.ReadVarint32, ReadInfo;
      var hp := CompactFormat.Reader(section, [], 0, None, limit);
      var protoID := CompactFormat.ReadVarint32(hp);
      if !protoID.ok { return None; }
      var transformCount := CompactFormat.ReadVarint32(protoID.st);
      if !transformCount.ok { return None; }
      hp := transformCount.st;
      var n := if transformCount.value > 0 then transformCount.value else 0;
      for i := 0 to n
        invariant ReadTransforms(n, transformCount.st) == ReadTransforms(n - i, hp)
      {
        var id := CompactFormat.ReadVarint32(hp);
        if !id.ok || id.value != 0 { return None; }
        hp := id.st;
      }
      var headers := ReadHeaders(hp);
      if headers.None? { return None; }
      return Some(SectionRead(protoID.value, headers.value));
    }

    method ReadHeaders(start: CompactFormat.Reader) returns (r: Option<Map>)
      ensures r == ReadInfo(start, map[])
    {
      hide CompactFormat.ReadVarint32, CompactFormat.ReadBinary;
      var hp, headers := start, map[];
      while true
        invariant ReadInfo(start, map[]) == ReadInfo(hp, headers)
        decreases |hp.input|
      {
        var infoType := CompactFormat.ReadVarint32(hp);
        if !infoType.ok || infoType.value != INFO_KEY_VALUE { return Some(headers); }
        var count := CompactFormat.ReadVarint32(infoType.st);
        if !count.ok { return None; }
        var n := if count.value > 0 then count.value else 0;
        var st, more := count.st, headers;
        for i := 0 to n
          invariant ReadPairs(n, count.st, headers) == ReadPairs(n - i, st, more) && |st.input| <= |count.st.input|
        {
          var key := CompactFormat.ReadBinary(st);
          if !key.ok { return None; }
          var value := CompactFormat.ReadBinary(key.st);
          if !value.ok { return None; }
          st, more := value.st, more[key.value := value.value];
        }
        hp, headers := st, more;
      }
    }

    /** Bytes come out of the open frame in order; the one that empties it closes it. Then the next frame is found. */
    method Read(n: nat) returns (bytes: Bytes, ok: bool)
      requires Valid()
      modifies this
      ensures ok ==> |bytes| <= n && Valid()
      ensures old(NeedReadFrame()) || (old(frameOpen) && old(frameBuffer) == [] && n > 0) ==>
                var next := NextChunk(old(reader), n, maxFrameSize, limit);
                ok == next.Some? && (ok ==> Chunk(bytes, frameBuffer, reader) == next.value)
      ensures !old(NeedReadFrame()) && !old(frameOpen) ==>
                ok == (n == 0 || old(reader) != []) && frameBuffer == []
                && bytes + reader == old(reader) && |bytes| == Least(n, |old(reader)|)
      ensures old(frameOpen) && (n == 0 || old(frameBuffer) != []) ==>
                ok && bytes + frameBuffer == old(frameBuffer) && |bytes| == Least(n, |old(frameBuffer)|)
                && (frameOpen <==> frameBuffer != []) && reader == old(reader)
      decreases |reader| + (if frameOpen then 1 else 0)
    {
      hide FindFrame;
      bytes := [];
      FrameShrinks(reader, maxFrameSize, limit);
      ok := ReadFrame();
      if !ok { return; }
      if frameOpen {
        if frameBuffer == [] && n > 0 {
          EndOfFrame();
          bytes, ok := Read(n);
          return;
        }
        var k := Least(n, |frameBuffer|);
        bytes := frameBuffer[..k];
        frameBuffer := frameBuffer[k..];
        if frameBuffer == [] { EndOfFrame(); }
        return;
      }
      ok := n == 0 || reader != [];
      var k := Least(n, |reader|);
      bytes := reader[..k];
      reader := reader[k..];
    }

    method Write(p: Bytes)
      modifies `writeBuffer
      ensures writeBuffer == old(writeBuffer) + p
    {
      writeBuffer := writeBuffer + p;
    }

    /** `order` is the order writeHeaders happens to be walked in. */
    method Flush(order: seq<Bytes>)
      requires Enumerates(order, writeHeaders) && Short(order, writeHeaders) && |order| < 0x8000_0000
      requires |writeTransforms| < 0x8000_0000 && forall id <- writeTransforms :: id == 0
      modifies `output, `writeBuffer, `clientType
      ensures writeBuffer == []
      ensures old(writeBuffer) == [] ==> output == old(output) && clientType == old(clientType)
      ensures old(writeBuffer) != [] ==> clientType == if old(clientType) == Unknown then Headers else old(clientType)
      ensures old(writeBuffer) != [] ==>
                output == old(output) + if clientType == Headers
                                        then Framed(Payload(flags, sequenceID,
                                                            Padded(Section(protocolID, writeTransforms, order, writeHeaders)),
                                                            old(writeBuffer)))
                                        else Sent(clientType, old(writeBuffer))
    {
      hide Enumerates, Short, Section, BigEndian, Meta, Zeros;
      if writeBuffer == [] { return; }
      match clientType {
        case Unknown | Headers =>
          clientType := Headers;
          var headers := WriteSection(order);
          headers := Pad(headers);
          var payload := Meta(flags, sequenceID, |headers| / 4) + (headers + writeBuffer);
          output := output + (BigEndian(|payload| % 0x1_0000_0000, 4) + payload);
        case FramedBinary | FramedCompact =>
          output := output + (BigEndian(|writeBuffer| % 0x1_0000_0000, 4) + writeBuffer);
        case UnframedBinary | UnframedCompact =>
          output := output + writeBuffer;
      }
      writeBuffer := [];
    }

    method Pad(headers: Bytes) returns (padded: Bytes)
      ensures padded == Padded(headers)
    {
      padded := headers;
      var padding := 4 - |headers| % 4;
      if padding < 4 {
        padded := headers + Zeros(padding);
      }
    }

    method WriteSection(order: seq<Bytes>) returns (headers: Bytes)
      requires Enumerates(order, writeHeaders) && Short(order, writeHeaders) && |order| < 0x8000_0000
      requires |writeTransforms| < 0x8000_0000
      ensures headers == Section(protocolID, writeTransforms, order, writeHeaders)
    {
      hide Enumerates, Varint.Encode;
      var transforms: Bytes := [];
      for i := 0 to |writeTransforms|
        invariant transforms == RawAll(writeTransforms[..i])
      {
        assert writeTransforms[..i + 1] == writeTransforms[..i] + [writeTransforms[i]];
        RawAllAppend(writeTransforms[..i], writeTransforms[i]);
        var id := Varint.WriteVarint32(writeTransforms[i]);
        transforms := transforms + id;
      }
      assert writeTransforms[..|writeTransforms|] == writeTransforms;
      var info: Bytes := [];
      if |order| > 0 {
        for i := 0 to |order|
          invariant info == Pairs(order[..i], writeHeaders)
        {
          assert order[..i + 1] == order[..i] + [order[i]];
          PairsAppend(order[..i], order[i], writeHeaders);
          info := info + (StringBytes(order[i]) + StringBytes(writeHeaders[order[i]]));
        }
        assert order[..|order|] == order;
        info := Raw(INFO_KEY_VALUE) + (Raw(|order|) + info);
      }
      headers := Varint.WriteVarint32(protocolID);
      var count := Varint.WriteVarint32(|writeTransforms|);
      headers := headers + (count + (transforms + info));
    }
  }

  lemma FrameShrinks(input: Bytes, maxFrame: int, limit: int32)
    ensures var f := FindFrame(input, maxFrame, limit);
            f.Some? ==> if IsFramed(f.value.client) then |f.value.rest| < |input| else f.value.rest == input != []
  {
    hide ParseFrame, FirstWord, IsMagic, IsBinary, IsCompact;
  }

  lemma {:induction false} RawAllAppend(ns: seq<int32>, n: int32)
    ensures RawAll(ns + [n]) == RawAll(ns) + Raw(n)
  {
    hide Raw;
    if ns == [] {
      assert [] + [n] == [n] && [n][1..] == [] && Raw(n) + [] == Raw(n);
    } else {
      assert (ns + [n])[1..] == ns[1..] + [n];
      RawAllAppend(ns[1..], n);
      Assoc(Raw(ns[0]), RawAll(ns[1..]), Raw(n));
    }
  }

  lemma {:induction false} PairsAppend(order: seq<Bytes>, k: Bytes, headers: Map)
    requires Short(order + [k], headers)
    ensures Short(order, headers)
    ensures k in headers && |k| < 0x8000_0000 && |headers[k]| < 0x8000_0000
    ensures Pairs(order + [k], headers) == Pairs(order, headers) + (StringBytes(k) + StringBytes(headers[k]))
  {
    hide StringBytes;
    assert k in order + [k] && forall j <- order :: j in order + [k];
    if order == [] {
      assert [] + [k] == [k] && [k][1..] == [];
      assert StringBytes(headers[k]) + [] == StringBytes(headers[k]);
      assert [] + (StringBytes(k) + StringBytes(headers[k])) == StringBytes(k) + StringBytes(headers[k]);
    } else {
      assert (order + [k])[1..] == order[1..] + [k];
      assert forall j <- order[1..] + [k] :: j in order + [k];
      PairsAppend(order[1..], k, headers);
      var first, last := order[0], StringBytes(k) + StringBytes(headers[k]);
      Assoc(StringBytes(headers[first]), Pairs(order[1..], headers), last);
      Assoc(StringBytes(first), StringBytes(headers[first]) + Pairs(order[1..], headers), last);
    }
  }
}
