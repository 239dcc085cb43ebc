/**
 The text form of a span context (span_context.go) and the text map propagator built on it (propagation.go).
 */
module TextContext {
  import opened Widths
  import opened Digits

  datatype TraceID = TraceID(high: uint64, low: uint64)

  datatype Context = Context(traceID: TraceID, spanID: uint64, parentID: uint64, flags: byte)

  // ----- numbers -----

  function DigitChar(d: nat): (c: char)
    requires d < 16
  {
    "0123456789abcdef"[d]
  }

  function DigitValue(c: char): (d: Option<nat>)
  {
    if '0' <= c <= '9' then Some((c - '0') as nat)
    else if 'a' <= c <= 'z' then Some((c - 'a') as nat + 10)
    else if 'A' <= c <= 'Z' then Some((c - 'A') as nat + 10)
    else None
  }

  /** n in hexadecimal, padded with zeros on the left: %016x for width 16. */
  function FixedHex(n: nat, width: nat): (s: string)
    ensures |s| == width
  {
    if width == 0 then "" else FixedHex(n / 16, width - 1) + [DigitChar(n % 16)]
  }

  /** %x of a byte. */
  function ByteHex(n: byte): (s: string)
  {
    if n < 16 then [DigitChar(n)] else [DigitChar(n / 16), DigitChar(n % 16)]
  }

  function ParseDigits(s: string, base: nat): (n: Option<nat>)
  {
    if s == "" then Some(0)
    else
      var high, digit := ParseDigits(s[..|s| - 1], base), DigitValue(s[|s| - 1]);
      if high.Some? && digit.Some? && digit.value < base then Some(high.value * base + digit.value) else None
  }

  /** strconv.ParseUint: an empty string, a foreign character and a value beyond `max` are all errors. */
  function ParseUint(s: string, base: nat, max: nat): (n: Option<nat>)
  {
    var n := ParseDigits(s, base);
    if s == "" || n.None? || n.value > max then None else n
  }

  const MAX_UINT64: nat := 0xffff_ffff_ffff_ffff

  // ----- contexts -----

  function TraceIDString(t: TraceID): (s: string)
  {
    if t.high == 0 then FixedHex(t.low, 16) else FixedHex(t.high, 16) + FixedHex(t.low, 16)
  }

  function ContextString(c: Context): (s: string)
  {
    TraceIDString(c.traceID) + [':'] + (FixedHex(c.spanID, 16) + [':'] + (FixedHex(c.parentID, 16) + [':'] + ByteHex(c.flags)))
  }

  function TraceIDFromString(s: string): (t: Option<TraceID>)
  {
    if |s| > 32 then None
    else if |s| > 16 then
      var hiLen := |s| - 16;
      var high, low := ParseUint(s[..hiLen], 16, MAX_UINT64), ParseUint(s[hiLen..], 16, MAX_UINT64);
      if high.None? || low.None? then None else Some(TraceID(high.value, low.value))
    else
      var low := ParseUint(s, 16, MAX_UINT64);
      if low.None? then None else Some(TraceID(0, low.value))
  }

  function SpanIDFromString(s: string): (id: Option<uint64>)
  {
    if |s| > 16 then None
    else
      var id := ParseUint(s, 16, MAX_UINT64);
      if id.None? then None else Some(id.value)
  }

  /** strings.Split with a separator of one character. */
  function Split(s: string, sep: char): (parts: seq<string>)
    ensures |parts| > 0
  {
    if s == "" then [""]
    else
      var rest := Split(s[1..], sep);
      if s[0] == sep then [""] + rest else [[s[0]] + rest[0]] + rest[1..]
  }

  function ContextFromString(s: string): (c: Option<Context>)
  {
    var parts := Split(s, ':');
    if s == "" || |parts| != 4 then None
    else
      var traceID, spanID := TraceIDFromString(parts[0]), SpanIDFromString(parts[1]);
      var parentID, flags := SpanIDFromString(parts[2]), ParseUint(parts[3], 10, 0xff);
      if traceID.None? || spanID.None? || parentID.None? || flags.None? then None
      else Some(Context(traceID.value, spanID.value, parentID.value, flags.value))
  }

  // ----- round trip -----

  lemma DigitRoundTrip(d: nat)
    requires d < 16
    ensures DigitValue(DigitChar(d)) == Some(d) && DigitChar(d) != ':'
  {
  }

  function Limit(width: nat): (n: nat) { if width == 0 then 1 else 16 * Limit(width - 1) }

  lemma {:induction false} HexRoundTrip(n: nat, width: nat)
    requires n < Limit(width)
    ensures ParseDigits(FixedHex(n, width), 16) == Some(n)
  {
    if width > 0 {
      var s := FixedHex(n, width);
      assert s[..width - 1] == FixedHex(n / 16, width - 1) && s[width - 1] == DigitChar(n % 16);
      HexRoundTrip(n / 16, width - 1);
      DigitRoundTrip(n % 16);
    }
  }

  lemma {:induction false} HexNoColon(n: nat, width: nat)
    ensures ':' !in FixedHex(n, width)
  {
    if width > 0 {
      HexNoColon(n / 16, width - 1);
      DigitRoundTrip(n % 16);
    }
  }

  lemma WordRoundTrip(n: uint64)
    ensures ParseUint(FixedHex(n, 16), 16, MAX_UINT64) == Some(n) && ':' !in FixedHex(n, 16)
  {
    assert Limit(5) == 0x10_0000 && Limit(10) == 0x100_0000_0000 && Limit(16) == 0x1_0000_0000_0000_0000;
    HexRoundTrip(n, 16);
    HexNoColon(n, 16);
  }

  lemma TraceIDRoundTrip(t: TraceID)
    ensures TraceIDFromString(TraceIDString(t)) == Some(t) && ':' !in TraceIDString(t)
  {
    hide FixedHex, ParseUint;
    WordRoundTrip(t.high);
    WordRoundTrip(t.low);
    var s := TraceIDString(t);
    if t.high != 0 {
      assert s[..16] == FixedHex(t.high, 16) && s[16..] == FixedHex(t.low, 16);
    }
  }

  // ----- the form -----

  const HEX := "0123456789abcdef"

  lemma {:induction false} HexDigits(n: nat, width: nat, k: nat)
    requires k < width
    ensures FixedHex(n, width)[width - 1 - k] == HEX[Digit(n, 16, k)]
    decreases width
  {
    if k > 0 {
      HexDigits(n / 16, width - 1, k - 1);
      DigitOfQuotient(n, 16, k);
    }
    hide Pow;
  }

  /** Ids are lower-case hexadecimal, 16 digits each; a trace id has 32 only when its high half is needed. */
  lemma TraceIDForm(t: TraceID, k: nat)
    requires k < 16
    ensures var s := TraceIDString(t);
            |s| == (if t.high == 0 then 16 else 32) && s[|s| - 1 - k] == HEX[Digit(t.low, 16, k)]
            && (t.high != 0 ==> s[15 - k] == HEX[Digit(t.high, 16, k)])
  {
    HexDigits(t.low, 16, k);
    HexDigits(t.high, 16, k);
    hide FixedHex, Digit;
  }

  /** Trace id, span id and parent id in that order and the flags without leading zeros, between colons. */
  lemma ContextForm(c: Context, k: nat)
    requires k < 16
    ensures var parts := Split(ContextString(c), ':');
            |parts| == 4 && parts[0] == TraceIDString(c.traceID) && |parts[1]| == 16 && |parts[2]| == 16
            && parts[1][15 - k] == HEX[Digit(c.spanID, 16, k)] && parts[2][15 - k] == HEX[Digit(c.parentID, 16, k)]
            && parts[3] == if c.flags < 16 then [HEX[c.flags]] else [HEX[c.flags / 16], HEX[c.flags % 16]]
  {
    ContextParts(c);
    HexDigits(c.spanID, 16, k);
    HexDigits(c.parentID, 16, k);
    hide FixedHex, Digit, TraceIDString, Split, ContextString;
  }

  // ----- what is accepted -----

  predicate IsHex(c: char) { '0' <= c <= '9' || 'a' <= c <= 'f' || 'A' <= c <= 'F' }

  /** 1 to `most` hexadecimal digits of either case. */
  predicate HexNumber(s: string, most: nat) { 1 <= |s| <= most && forall c <- s :: IsHex(c) }

  lemma {:induction false} HexParses(s: string)
    ensures (forall c <- s :: IsHex(c)) ==> ParseDigits(s, 16).Some? && ParseDigits(s, 16).value < Limit(|s|)
    ensures (exists c <- s :: !IsHex(c)) ==> ParseDigits(s, 16).None?
  {
    if s != "" {
      var init, last := s[..|s| - 1], s[|s| - 1];
      HexParses(init);
      assert s == init + [last] && last in s && forall c <- init :: c in s;
      if (exists c <- s :: !IsHex(c)) && IsHex(last) {
        var c :| c in s && !IsHex(c);
        assert c in init;
      }
    }
  }

  /** Digits of either case are read for what they are: writing the number again gives them back, in lower case. */
  lemma {:induction false} HexWrittenAgain(s: string)
    requires forall c <- s :: IsHex(c)
    ensures ParseDigits(s, 16).Some? && FixedHex(ParseDigits(s, 16).value, |s|) == ToLower(s)
  {
    hide IsHex, DigitValue, DigitChar, ToLower, LowerChar;
    if s == "" {
      EmptyLower();
    } else {
      var init, last := s[..|s| - 1], s[|s| - 1];
      assert s == init + [last] && last in s && forall c <- init :: c in s;
      HexWrittenAgain(init);
      LowerDigit(last);
      LastDigit(ParseDigits(init, 16).value, DigitValue(last).value);
      LowerConcat(init, [last]);
      LowerOne(last);
    }
  }

  lemma LastDigit(m: nat, d: nat)
    requires d < 16
    ensures (m * 16 + d) / 16 == m && (m * 16 + d) % 16 == d
  {
  }

  lemma LowerOne(c: char)
    ensures ToLower([c]) == [LowerChar(c)]
  {
  }

  lemma EmptyLower()
    ensures ToLower("") == ""
  {
  }

  lemma LowerDigit(c: char)
    requires IsHex(c)
    ensures DigitValue(c).Some? && DigitValue(c).value < 16 && DigitChar(DigitValue(c).value) == LowerChar(c)
  {
  }

  lemma WordAccepted(s: string)
    requires |s| <= 16
    ensures ParseUint(s, 16, MAX_UINT64).Some? <==> HexNumber(s, 16)
  {
    HexParses(s);
    LimitGrows(|s|, 16);
    assert Limit(5) == 0x10_0000 && Limit(10) == 0x100_0000_0000 && Limit(16) == 0x1_0000_0000_0000_0000;
  }

  lemma {:induction false} LimitGrows(k: nat, n: nat)
    requires k <= n
    ensures Limit(k) <= Limit(n)
    decreases n
  {
    if k < n { LimitGrows(k, n - 1); }
  }

  lemma TraceIDAccepted(s: string)
    ensures TraceIDFromString(s).Some? <==> HexNumber(s, 32)
  {
    hide ParseUint, IsHex;
    if 16 < |s| <= 32 {
      var high, low := s[..|s| - 16], s[|s| - 16..];
      WordAccepted(high);
      WordAccepted(low);
      assert s == high + low;
      assert (forall c <- s :: IsHex(c)) <==> (forall c <- high :: IsHex(c)) && (forall c <- low :: IsHex(c));
    } else if |s| <= 16 {
      WordAccepted(s);
    }
  }

  function Joined(parts: seq<string>): (s: string)
  {
    if parts == [] then "" else if |parts| == 1 then parts[0] else parts[0] + [':'] + Joined(parts[1..])
  }

  /** The parts between the colons, and nothing else. */
  lemma {:induction false} SplitJoined(s: string)
    ensures Joined(Split(s, ':')) == s && forall part <- Split(s, ':') :: ':' !in part
  {
    if s != "" {
      var rest := Split(s[1..], ':');
      SplitJoined(s[1..]);
      assert s == [s[0]] + s[1..];
      if s[0] == ':' {
        assert ([""] + rest)[1..] == rest && [] + [':'] + Joined(rest) == [':'] + Joined(rest);
      } else {
        var parts := [[s[0]] + rest[0]] + rest[1..];
        assert parts[1..] == rest[1..] && rest == [rest[0]] + rest[1..];
        if |rest| == 1 {
          assert parts == [[s[0]] + rest[0]];
        } else {
          assert Joined(parts) == [s[0]] + rest[0] + [':'] + Joined(rest[1..]);
          assert [s[0]] + rest[0] + [':'] + Joined(rest[1..]) == [s[0]] + (rest[0] + [':'] + Joined(rest[1..]));
        }
      }
    }
  }

  /** A decimal number of any length that is at most 255. */
  predicate DecimalByte(s: string) { s != "" && (forall c <- s :: '0' <= c <= '9') && Decimal(s) <= 255 }

  function Decimal(s: string): (n: int)
  {
    if s == "" then 0 else Decimal(s[..|s| - 1]) * 10 + (s[|s| - 1] as int - '0' as int)
  }

  lemma {:induction false} DecimalParses(s: string)
    ensures (forall c <- s :: '0' <= c <= '9') ==> ParseDigits(s, 10) == Some(Decimal(s))
    ensures (exists c <- s :: !('0' <= c <= '9')) ==> ParseDigits(s, 10).None?
  {
    if s != "" {
      var init, last := s[..|s| - 1], s[|s| - 1];
      DecimalParses(init);
      assert s == init + [last] && last in s && forall c <- init :: c in s;
      if (exists c <- s :: !('0' <= c <= '9')) && '0' <= last <= '9' {
        var c :| c in s && !('0' <= c <= '9');
        assert c in init;
      }
    }
  }

  /** Exactly which texts are taken for a context: four numbers, three in hexadecimal and the flags in decimal. */
  lemma ContextAccepted(s: string)
    ensures var parts := Split(s, ':');
            ContextFromString(s).Some?
            <==> |parts| == 4 && HexNumber(parts[0], 32) && HexNumber(parts[1], 16) && HexNumber(parts[2], 16)
                 && DecimalByte(parts[3])
  {
    hide HexNumber, DecimalByte;
    var parts := Split(s, ':');
    if |parts| == 4 {
      TraceIDAccepted(parts[0]);
      SpanIDAccepted(parts[1]);
      SpanIDAccepted(parts[2]);
      FlagsAccepted(parts[3]);
      SplitJoined(s);
      hide Split, TraceIDFromString, SpanIDFromString, ParseUint;
    }
  }

  lemma SpanIDAccepted(s: string)
    ensures SpanIDFromString(s).Some? <==> HexNumber(s, 16)
  {
    hide ParseUint;
    if |s| <= 16 { WordAccepted(s); }
  }

  lemma FlagsAccepted(s: string)
    ensures ParseUint(s, 10, 0xff).Some? <==> DecimalByte(s)
  {
    DecimalParses(s);
  }

  /**
   Flags are written in hexadecimal and read in decimal: they come back if and only if they have one decimal digit.
   */
  lemma FlagsRoundTrip(f: byte)
    ensures ParseUint(ByteHex(f), 10, 0xff) == Some(f) <==> f <= 9
    ensures ':' !in ByteHex(f)
  {
    var s := ByteHex(f);
    if f < 16 {
      DigitRoundTrip(f);
      assert s[..0] == "";
      assert ParseDigits(s, 10) == if f < 10 then Some(f) else None;
    } else {
      DigitRoundTrip(f / 16);
      DigitRoundTrip(f % 16);
      assert s[..1] == [DigitChar(f / 16)] && s[..1][..0] == "";
      assert ParseDigits(s[..1], 10) == if f / 16 < 10 then Some(f / 16) else None;
    }
  }

  lemma {:induction false} SplitHead(a: string, s: string)
    requires ':' !in a
    ensures Split(a + [':'] + s, ':') == [a] + Split(s, ':')
    ensures Split(a, ':') == [a]
  {
    if a == "" {
      assert a + [':'] + s == [':'] + s && ([':'] + s)[1..] == s;
    } else {
      assert (a + [':'] + s)[1..] == a[1..] + [':'] + s;
      SplitHead(a[1..], s);
      assert [a[0]] + a[1..] == a;
    }
  }

  lemma ContextParts(c: Context)
    ensures Split(ContextString(c), ':')
         == [TraceIDString(c.traceID), FixedHex(c.spanID, 16), FixedHex(c.parentID, 16), ByteHex(c.flags)]
  {
    hide FixedHex, ParseUint, TraceIDString, ByteHex, Split;
    TraceIDRoundTrip(c.traceID);
    WordRoundTrip(c.spanID);
    WordRoundTrip(c.parentID);
    FlagsRoundTrip(c.flags);
    var tail := FixedHex(c.parentID, 16) + [':'] + ByteHex(c.flags);
    SplitHead(TraceIDString(c.traceID), FixedHex(c.spanID, 16) + [':'] + tail);
    SplitHead(FixedHex(c.spanID, 16), tail);
    SplitHead(FixedHex(c.parentID, 16), ByteHex(c.flags));
    SplitHead(ByteHex(c.flags), "");
  }

  /** A context reads back from its own text, for all ids, if and only if its flags byte is at most 9. */
  lemma ContextRoundTrip(c: Context)
    ensures ContextFromString(ContextString(c)) == Some(c) <==> c.flags <= 9
    ensures ContextString(c) != ""
  {
    hide FixedHex, ParseUint, TraceIDString, TraceIDFromString, ByteHex, Split;
    ContextParts(c);
    TraceIDRoundTrip(c.traceID);
    WordRoundTrip(c.spanID);
    WordRoundTrip(c.parentID);
    FlagsRoundTrip(c.flags);
    assert SpanIDFromString(FixedHex(c.spanID, 16)) == Some(c.spanID);
    assert SpanIDFromString(FixedHex(c.parentID, 16)) == Some(c.parentID);
  }

  /** Two contexts with the same text are the same, flags included: nothing is lost in writing. */
  lemma ContextInjective(c: Context, d: Context)
    requires ContextString(c) == ContextString(d)
    ensures c == d
  {
    hide FixedHex, ParseUint, TraceIDString, TraceIDFromString, Split, ContextString;
    ContextParts(c);
    ContextParts(d);
    TraceIDRoundTrip(c.traceID);
    TraceIDRoundTrip(d.traceID);
    WordRoundTrip(c.spanID);
    WordRoundTrip(d.spanID);
    WordRoundTrip(c.parentID);
    WordRoundTrip(d.parentID);
    ByteHexInjective(c.flags, d.flags);
  }

  lemma ByteHexInjective(f: byte, g: byte)
    requires ByteHex(f) == ByteHex(g)
    ensures f == g
  {
    if f < 16 {
      DigitRoundTrip(f);
      DigitRoundTrip(g % 16);
    } else {
      DigitRoundTrip(f / 16);
      DigitRoundTrip(f % 16);
      DigitRoundTrip(g / 16);
      DigitRoundTrip(g % 16);
    }
  }

  // ----- text map propagation -----

  /** A propagator: its header names, and how values are escaped and a baggage header is taken apart. */
  datatype Propagator = Propagator(
    contextHeader: string,
    debugHeader: string,
    baggageHeader: string,
    baggagePrefix: string,
    encode: string -> string,
    decode: string -> string,
    parseBaggage: string -> map<string, string>)

  /** A span context as it travels: identity and flags, baggage, and the debug id of a request without a trace. */
  datatype Carried = Carried(context: Context, baggage: map<string, string>, debugID: string)

  datatype Entry = Entry(key: string, value: string)

  const NO_CONTEXT: Context := Context(TraceID(0, 0), 0, 0, 0)

  function LowerChar(c: char): (r: char) { if 'A' <= c <= 'Z' then 'a' + (c - 'A') else c }

  function ToLower(s: string): (r: string) { seq(|s|, i requires 0 <= i < |s| => LowerChar(s[i])) }

  /** The effect of one carrier entry on what has been extracted so far; None when the context is malformed. */
  function Absorb(p: Propagator, got: Carried, e: Entry): (r: Option<Carried>)
  {
    var key := ToLower(e.key);
    if key == p.contextHeader then
      var c := ContextFromString(p.decode(e.value));
      if c.None? then None else Some(Carried(c.value, map[], "").(baggage := got.baggage))
    else if key == p.debugHeader then Some(got.(debugID := p.decode(e.value)))
    else if key == p.baggageHeader then Some(got.(baggage := got.baggage + p.parseBaggage(e.value)))
    else if p.baggagePrefix <= key then
      Some(got.(baggage := got.baggage[key[|p.baggagePrefix|..] := p.decode(e.value)]))
    else Some(got)
  }

  function AbsorbAll(p: Propagator, entries: seq<Entry>): (r: Option<Carried>)
  {
    if entries == [] then Some(Carried(NO_CONTEXT, map[], ""))
    else
      var n := |entries| - 1;
      var before := AbsorbAll(p, entries[..n]);
      if before.None? then None else Absorb(p, before.value, entries[n])
  }

  predicate HasTrace(c: Carried)
  {
    c.context.traceID != TraceID(0, 0) || c.debugID != "" || |c.baggage| > 0
  }

  /** What Extract answers: a malformed context and a carrier with nothing in it are errors. */
  function Extracted(p: Propagator, entries: seq<Entry>): (r: Option<Carried>)
  {
    var all := AbsorbAll(p, entries);
    if all.Some? && HasTrace(all.value) then all else None
  }

  method Extract(p: Propagator, entries: seq<Entry>) returns (r: Option<Carried>)
    ensures r == Extracted(p, entries)
  {
    var got := Carried(NO_CONTEXT, map[], "");
    for i := 0 to |entries|
      invariant AbsorbAll(p, entries[..i]) == Some(got)
    {
      assert entries[..i + 1][..i] == entries[..i];
      var next := Absorb(p, got, entries[i]);
      if next.None? {
        AbsorbFails(p, entries, i + 1);
        return None;
      }
      got := next.value;
    }
    assert entries[..|entries|] == entries;
    if !HasTrace(got) { return None; }
    return Some(got);
  }

  lemma {:induction false} AbsorbFails(p: Propagator, entries: seq<Entry>, i: nat)
    requires i <= |entries| && AbsorbAll(p, entries[..i]).None?
    ensures AbsorbAll(p, entries).None?
    decreases |entries| - i
  {
    if i == |entries| {
      assert entries[..i] == entries;
    } else {
      assert entries[..i + 1][..i] == entries[..i];
      AbsorbFails(p, entries, i + 1);
    }
  }

  /** What Inject sets, each key once, in whatever order the baggage is walked and the carrier returns it. */
  predicate InjectedAs(p: Propagator, c: Carried, entries: seq<Entry>)
  {
    (forall e <- entries ::
       e == Entry(p.contextHeader, ContextString(c.context))
       || exists k <- c.baggage :: e == Entry(p.baggagePrefix + k, p.encode(c.baggage[k])))
    && Entry(p.contextHeader, ContextString(c.context)) in entries
    && (forall k <- c.baggage :: Entry(p.baggagePrefix + k, p.encode(c.baggage[k])) in entries)
  }

  /** `order` is the order the baggage map happens to be walked in. */
  method Inject(p: Propagator, c: Carried, order: seq<string>) returns (entries: seq<Entry>)
    requires (set k <- order) == c.baggage.Keys
    ensures InjectedAs(p, c, entries) && |entries| == 1 + |order|
  {
    hide ContextString;
    entries := [Entry(p.contextHeader, ContextString(c.context))];
    for i := 0 to |order|
      invariant |entries| == 1 + i && entries[0] == Entry(p.contextHeader, ContextString(c.context))
      invariant forall j :: 0 <= j < i ==>
                  order[j] in c.baggage && entries[j + 1] == Entry(p.baggagePrefix + order[j], p.encode(c.baggage[order[j]]))
    {
      assert order[i] in (set k <- order);
      entries := entries + [Entry(p.baggagePrefix + order[i], p.encode(c.baggage[order[i]]))];
    }
    assert entries[0] in entries;
    forall k <- c.baggage ensures Entry(p.baggagePrefix + k, p.encode(c.baggage[k])) in entries {
      assert k in (set j <- order);
      var j :| 0 <= j < |order| && order[j] == k;
      assert entries[j + 1] in entries;
    }
    forall e <- entries
      ensures e == entries[0] || exists k <- c.baggage :: e == Entry(p.baggagePrefix + k, p.encode(c.baggage[k]))
    {
      var i :| 0 <= i < |entries| && entries[i] == e;
      if i > 0 { assert order[i - 1] in c.baggage; }
    }
  }

  /** A key survives if its header is lower case and not one of the propagator's own. */
  predicate KeySurvives(p: Propagator, k: string)
  {
    var key := p.baggagePrefix + k;
    ToLower(key) == key && key != p.contextHeader && key != p.debugHeader && key != p.baggageHeader
  }

  predicate Faithful(p: Propagator, c: Carried)
  {
    ToLower(p.contextHeader) == p.contextHeader
    && p.decode(ContextString(c.context)) == ContextString(c.context)
    && forall k <- c.baggage :: p.decode(p.encode(c.baggage[k])) == c.baggage[k]
  }

  /** What has been read of an injected context at some point of the walk. */
  ghost predicate PartOf(p: Propagator, c: Carried, entries: seq<Entry>, got: Carried)
  {
    got.debugID == ""
    && got.context == (if Entry(p.contextHeader, ContextString(c.context)) in entries then c.context else NO_CONTEXT)
    && (forall k <- got.baggage :: k in c.baggage && got.baggage[k] == c.baggage[k])
    && (forall k <- c.baggage :: Entry(p.baggagePrefix + k, p.encode(c.baggage[k])) in entries ==> k in got.baggage)
  }

  lemma AbsorbInjected(p: Propagator, c: Carried, entries: seq<Entry>, got: Carried, e: Entry)
    requires Faithful(p, c) && c.context.flags <= 9 && (forall k <- c.baggage :: KeySurvives(p, k))
    requires PartOf(p, c, entries, got)
    requires e == Entry(p.contextHeader, ContextString(c.context))
             || exists k <- c.baggage :: e == Entry(p.baggagePrefix + k, p.encode(c.baggage[k]))
    ensures var r := Absorb(p, got, e); r.Some? && PartOf(p, c, entries + [e], r.value)
  {
    hide ContextString, ContextFromString, ToLower;
    var head := Entry(p.contextHeader, ContextString(c.context));
    if e == head {
      ContextRoundTrip(c.context);
      assert forall k <- c.baggage :: Entry(p.baggagePrefix + k, p.encode(c.baggage[k])) != head;
    } else {
      var k :| k in c.baggage && e == Entry(p.baggagePrefix + k, p.encode(c.baggage[k]));
      assert KeySurvives(p, k) && (p.baggagePrefix + k)[|p.baggagePrefix|..] == k;
      forall j <- c.baggage
        ensures Entry(p.baggagePrefix + j, p.encode(c.baggage[j])) == e ==> j == k
      {
        assert (p.baggagePrefix + j)[|p.baggagePrefix|..] == j;
      }
    }
  }

  lemma NothingRead(p: Propagator, c: Carried)
    ensures PartOf(p, c, [], Carried(NO_CONTEXT, map[], ""))
  {
    hide ContextString;
  }

  lemma {:induction false} AbsorbAllInjected(p: Propagator, c: Carried, all: seq<Entry>, n: nat)
    requires n <= |all| && InjectedAs(p, c, all)
    requires Faithful(p, c) && c.context.flags <= 9 && (forall k <- c.baggage :: KeySurvives(p, k))
    ensures var r := AbsorbAll(p, all[..n]); r.Some? && PartOf(p, c, all[..n], r.value)
  {
    NothingRead(p, c);
    hide Absorb, PartOf, Faithful, KeySurvives;
    if n == 0 {
      assert all[..0] == [];
    } else {
      AbsorbAllInjected(p, c, all, n - 1);
      assert all[..n][..n - 1] == all[..n - 1] && all[..n] == all[..n - 1] + [all[n - 1]];
      assert all[n - 1] in all;
      AbsorbInjected(p, c, all[..n - 1], AbsorbAll(p, all[..n - 1]).value, all[n - 1]);
    }
  }

  /** With keys that survive, the context entry decides the context, whether or not its text reads back. */
  lemma AbsorbContext(p: Propagator, c: Carried, got: Carried, e: Entry)
    requires Faithful(p, c) && (forall k <- c.baggage :: KeySurvives(p, k))
    requires e == Entry(p.contextHeader, ContextString(c.context))
             || exists k <- c.baggage :: e == Entry(p.baggagePrefix + k, p.encode(c.baggage[k]))
    requires Absorb(p, got, e).Some?
    ensures var read, r := ContextFromString(ContextString(c.context)), Absorb(p, got, e).value;
            if e == Entry(p.contextHeader, ContextString(c.context)) then read == Some(r.context)
            else r.context == got.context
  {
    hide ContextString, ContextFromString, ToLower;
    if e != Entry(p.contextHeader, ContextString(c.context)) {
      var k :| k in c.baggage && e == Entry(p.baggagePrefix + k, p.encode(c.baggage[k]));
      assert KeySurvives(p, k);
    }
  }

  lemma {:induction false} AbsorbAllContext(p: Propagator, c: Carried, all: seq<Entry>, n: nat)
    requires n <= |all| && InjectedAs(p, c, all) && AbsorbAll(p, all[..n]).Some?
    requires Faithful(p, c) && (forall k <- c.baggage :: KeySurvives(p, k))
    ensures Entry(p.contextHeader, ContextString(c.context)) in all[..n]
            ==> ContextFromString(ContextString(c.context)) == Some(AbsorbAll(p, all[..n]).value.context)
  {
    hide Absorb, Faithful, KeySurvives, ContextString, ContextFromString;
    if n > 0 {
      assert all[..n][..n - 1] == all[..n - 1] && all[..n] == all[..n - 1] + [all[n - 1]];
      assert all[n - 1] in all;
      AbsorbAllContext(p, c, all, n - 1);
      AbsorbContext(p, c, AbsorbAll(p, all[..n - 1]).value, all[n - 1]);
    }
  }

  /** Only keys that survive are ever extracted, if no entry is taken for the baggage header. */
  lemma {:induction false} AbsorbedKeys(p: Propagator, entries: seq<Entry>)
    requires AbsorbAll(p, entries).Some?
    requires forall e <- entries :: ToLower(e.key) == p.contextHeader || ToLower(e.key) != p.baggageHeader
    ensures forall k <- AbsorbAll(p, entries).value.baggage :: KeySurvives(p, k)
  {
    if entries != [] {
      var n := |entries| - 1;
      AbsorbedKeys(p, entries[..n]);
      assert entries[n] in entries;
      AbsorbKey(p, AbsorbAll(p, entries[..n]).value, entries[n]);
    }
  }

  lemma AbsorbKey(p: Propagator, got: Carried, e: Entry)
    requires Absorb(p, got, e).Some? && (ToLower(e.key) == p.contextHeader || ToLower(e.key) != p.baggageHeader)
    requires forall k <- got.baggage :: KeySurvives(p, k)
    ensures forall k <- Absorb(p, got, e).value.baggage :: KeySurvives(p, k)
  {
    var key := ToLower(e.key);
    LowerTwice(e.key);
    hide ContextFromString, ToLower;
    if p.baggagePrefix <= key {
      assert p.baggagePrefix + key[|p.baggagePrefix|..] == key;
    }
  }

  lemma LowerTwice(s: string)
    ensures ToLower(ToLower(s)) == ToLower(s)
  {
  }

  /**
   Extract after Inject gives back what was injected, whatever order the entries come in, exactly when the flags have one
   decimal digit, every baggage key is lower case and no header's name, and there is a trace id or baggage. The debug id is
   not injected. A key that looks like the baggage header is not covered: what it becomes is up to parseBaggage.
   */
  lemma TextMapRoundTrip(p: Propagator, c: Carried, entries: seq<Entry>)
    requires InjectedAs(p, c, entries) && Faithful(p, c)
    requires forall k <- c.baggage :: ToLower(p.baggagePrefix + k) != p.baggageHeader
    ensures var back := c.context.flags <= 9 && c.debugID == "" && forall k <- c.baggage :: KeySurvives(p, k);
            (AbsorbAll(p, entries) == Some(c) <==> back) && (Extracted(p, entries) == Some(c) <==> back && HasTrace(c))
  {
    assert entries[..|entries|] == entries;
    if AbsorbAll(p, entries) == Some(c) {
      InjectedKeys(p, c, entries);
      AbsorbedKeys(p, entries);
      AbsorbAllContext(p, c, entries, |entries|);
      ContextRoundTrip(c.context);
    }
    hide ContextString, ContextFromString, Absorb, KeySurvives;
    if c.context.flags <= 9 && forall k <- c.baggage :: KeySurvives(p, k) {
      AbsorbAllInjected(p, c, entries, |entries|);
      var got := AbsorbAll(p, entries).value;
      assert got.baggage.Keys == c.baggage.Keys;
      assert got.baggage == c.baggage;
    }
  }

  lemma InjectedKeys(p: Propagator, c: Carried, entries: seq<Entry>)
    requires InjectedAs(p, c, entries) && Faithful(p, c)
    requires forall k <- c.baggage :: ToLower(p.baggagePrefix + k) != p.baggageHeader
    ensures forall e <- entries :: ToLower(e.key) == p.contextHeader || ToLower(e.key) != p.baggageHeader
  {
    hide ToLower, ContextString;
  }

  /** What becomes of the others: every key comes back in lower case, so keys that differ in case alone become one. */
  lemma KeysComeBackLower(p: Propagator, c: Carried, entries: seq<Entry>)
    requires InjectedAs(p, c, entries) && ToLower(p.contextHeader) == p.contextHeader
    requires ToLower(p.baggagePrefix) == p.baggagePrefix
    requires forall k <- c.baggage :: ToLower(p.baggagePrefix + k) !in {p.contextHeader, p.debugHeader, p.baggageHeader}
    requires AbsorbAll(p, entries).Some?
    ensures AbsorbAll(p, entries).value.baggage.Keys == set k <- c.baggage :: ToLower(k)
  {
    LowerKeys(p, c, entries, |entries|);
    assert entries[..|entries|] == entries;
    var got := AbsorbAll(p, entries).value;
    forall k <- c.baggage ensures ToLower(k) in got.baggage {
      assert Entry(p.baggagePrefix + k, p.encode(c.baggage[k])) in entries;
    }
  }

  lemma {:induction false} LowerKeys(p: Propagator, c: Carried, all: seq<Entry>, n: nat)
    requires n <= |all| && InjectedAs(p, c, all) && ToLower(p.contextHeader) == p.contextHeader
    requires ToLower(p.baggagePrefix) == p.baggagePrefix
    requires forall k <- c.baggage :: ToLower(p.baggagePrefix + k) !in {p.contextHeader, p.debugHeader, p.baggageHeader}
    requires AbsorbAll(p, all).Some?
    ensures AbsorbAll(p, all[..n]).Some?
    ensures forall j <- AbsorbAll(p, all[..n]).value.baggage :: exists k <- c.baggage :: j == ToLower(k)
    ensures forall k <- c.baggage :: Entry(p.baggagePrefix + k, p.encode(c.baggage[k])) in all[..n]
              ==> ToLower(k) in AbsorbAll(p, all[..n]).value.baggage
  {
    hide Absorb, ToLower, ContextString;
    if AbsorbAll(p, all[..n]).None? { AbsorbFails(p, all, n); }
    if n > 0 {
      assert all[..n][..n - 1] == all[..n - 1] && all[..n] == all[..n - 1] + [all[n - 1]];
      assert all[n - 1] in all;
      LowerKeys(p, c, all, n - 1);
      LowerKey(p, c, AbsorbAll(p, all[..n - 1]).value, all[n - 1]);
    }
  }

  lemma LowerKey(p: Propagator, c: Carried, got: Carried, e: Entry)
    requires ToLower(p.contextHeader) == p.contextHeader && ToLower(p.baggagePrefix) == p.baggagePrefix
    requires forall k <- c.baggage :: ToLower(p.baggagePrefix + k) !in {p.contextHeader, p.debugHeader, p.baggageHeader}
    requires e == Entry(p.contextHeader, ContextString(c.context))
             || exists k <- c.baggage :: e == Entry(p.baggagePrefix + k, p.encode(c.baggage[k]))
    requires Absorb(p, got, e).Some?
    ensures forall k <- c.baggage :: e == Entry(p.baggagePrefix + k, p.encode(c.baggage[k]))
              ==> ToLower(k) in Absorb(p, got, e).value.baggage
    ensures got.baggage.Keys <= Absorb(p, got, e).value.baggage.Keys
    ensures forall j <- Absorb(p, got, e).value.baggage :: j in got.baggage || exists k <- c.baggage :: j == ToLower(k)
  {
    forall k <- c.baggage
      ensures var key := ToLower(p.baggagePrefix + k); p.baggagePrefix <= key && key[|p.baggagePrefix|..] == ToLower(k)
    {
      LowerConcat(p.baggagePrefix, k);
    }
    hide ContextString, ContextFromString, ToLower;
  }

  lemma LowerConcat(a: string, b: string)
    ensures ToLower(a + b) == ToLower(a) + ToLower(b)
  {
  }

  // ----- what each part of an extracted context comes from -----

  /** Extraction fails if some context entry is malformed, and if there is neither trace nor debug id nor baggage. */
  lemma {:induction false} AbsorbsExactly(p: Propagator, entries: seq<Entry>)
    ensures AbsorbAll(p, entries).None?
       <==> exists i :: 0 <= i < |entries| && ToLower(entries[i].key) == p.contextHeader
                        && ContextFromString(p.decode(entries[i].value)).None?
  {
    hide ContextFromString, ToLower;
    if entries != [] {
      var n := |entries| - 1;
      AbsorbsExactly(p, entries[..n]);
      forall i | 0 <= i < n ensures entries[..n][i] == entries[i] {}
    }
  }

  lemma ExtractsExactly(p: Propagator, entries: seq<Entry>)
    ensures var all := AbsorbAll(p, entries);
            Extracted(p, entries)
            == if all.Some? && (all.value.context.traceID != TraceID(0, 0) || all.value.debugID != ""
                                || all.value.baggage != map[])
               then all else None
  {
  }

  /** The context is that of the last context entry. */
  lemma {:induction false} ContextRule(p: Propagator, entries: seq<Entry>, i: int)
    requires AbsorbAll(p, entries).Some? && -1 <= i < |entries|
    requires i >= 0 ==> ToLower(entries[i].key) == p.contextHeader
    requires forall j :: i < j < |entries| ==> ToLower(entries[j].key) != p.contextHeader
    ensures if i < 0 then AbsorbAll(p, entries).value.context == Context(TraceID(0, 0), 0, 0, 0)
            else ContextFromString(p.decode(entries[i].value)) == Some(AbsorbAll(p, entries).value.context)
  {
    hide ContextFromString, ToLower;
    if entries != [] {
      var n := |entries| - 1;
      if i < n {
        forall j | i < j < n ensures entries[..n][j] == entries[j] {}
        ContextRule(p, entries[..n], i);
      }
    }
  }

  /** What an entry gives a baggage item: a prefixed key its own value, and the baggage header all it lists. */
  function GivenTo(p: Propagator, e: Entry, k: string): (value: Option<string>)
  {
    var key := ToLower(e.key);
    if key == p.contextHeader || key == p.debugHeader then None
    else if key == p.baggageHeader then
      if k in p.parseBaggage(e.value) then Some(p.parseBaggage(e.value)[k]) else None
    else if key == p.baggagePrefix + k then Some(p.decode(e.value)) else None
  }

  /** A baggage item has the value the last entry that gives it one gives it, and is not there if none does. */
  lemma {:induction false} BaggageRule(p: Propagator, entries: seq<Entry>, k: string, i: int)
    requires AbsorbAll(p, entries).Some? && -1 <= i < |entries|
    requires i >= 0 ==> GivenTo(p, entries[i], k).Some?
    requires forall j :: i < j < |entries| ==> GivenTo(p, entries[j], k).None?
    ensures var baggage := AbsorbAll(p, entries).value.baggage;
            if i < 0 then k !in baggage else k in baggage && Some(baggage[k]) == GivenTo(p, entries[i], k)
  {
    if entries != [] {
      var n := |entries| - 1;
      BaggageStep(p, AbsorbAll(p, entries[..n]).value, entries[n], k);
      hide Absorb, GivenTo;
      if i < n {
        forall j | i < j < n ensures entries[..n][j] == entries[j] {}
        BaggageRule(p, entries[..n], k, i);
      }
    }
  }

  lemma BaggageStep(p: Propagator, got: Carried, e: Entry, k: string)
    requires Absorb(p, got, e).Some?
    ensures var r, given := Absorb(p, got, e).value, GivenTo(p, e, k);
            if given.Some? then k in r.baggage && r.baggage[k] == given.value
            else (k in r.baggage <==> k in got.baggage) && (k in r.baggage ==> r.baggage[k] == got.baggage[k])
  {
    hide ContextFromString, ToLower;
    var key := ToLower(e.key);
    if p.baggagePrefix <= key {
      assert p.baggagePrefix + key[|p.baggagePrefix|..] == key;
      assert key == p.baggagePrefix + k <==> key[|p.baggagePrefix|..] == k;
    }
  }

  // ----- the debug id -----

  predicate IsContext(p: Propagator, e: Entry) { ToLower(e.key) == p.contextHeader }

  predicate IsDebug(p: Propagator, e: Entry) { !IsContext(p, e) && ToLower(e.key) == p.debugHeader }

  predicate IsMark(p: Propagator, e: Entry) { IsContext(p, e) || IsDebug(p, e) }

  /** The last entry that is a context or a debug id is number i; there is none if i is -1. */
  predicate LastMark(p: Propagator, entries: seq<Entry>, i: int)
  {
    -1 <= i < |entries| && (i >= 0 ==> IsMark(p, entries[i])) && forall j :: i < j < |entries| ==> !IsMark(p, entries[j])
  }

  /**
   A context wipes the debug ids in front of it: of any carrier that is absorbed the debug id is that of the last debug
   entry behind the last context, and empty if there is none.
   */
  lemma {:induction false} DebugIDRule(p: Propagator, entries: seq<Entry>, i: int)
    requires AbsorbAll(p, entries).Some? && LastMark(p, entries, i)
    ensures AbsorbAll(p, entries).value.debugID
         == if i >= 0 && IsDebug(p, entries[i]) then p.decode(entries[i].value) else ""
  {
    if entries != [] {
      var n := |entries| - 1;
      var before := entries[..n];
      AbsorbDebug(p, AbsorbAll(p, before).value, entries[n]);
      hide Absorb, IsContext, IsDebug;
      if i < n {
        assert !IsMark(p, entries[n]) && LastMark(p, before, i);
        DebugIDRule(p, before, i);
      }
    }
  }

  /** There always is such a number. */
  lemma {:induction false} LastMarkOf(p: Propagator, entries: seq<Entry>) returns (i: int)
    ensures LastMark(p, entries, i)
  {
    var n := |entries| - 1;
    if entries == [] || IsMark(p, entries[n]) {
      i := n;
    } else {
      i := LastMarkOf(p, entries[..n]);
    }
  }

  lemma AbsorbDebug(p: Propagator, got: Carried, e: Entry)
    requires Absorb(p, got, e).Some?
    ensures Absorb(p, got, e).value.debugID
         == if IsContext(p, e) then "" else if IsDebug(p, e) then p.decode(e.value) else got.debugID
    ensures !(IsContext(p, e) && IsDebug(p, e))
  {
    hide ToLower, ContextFromString;
  }

  lemma TwoEntries(p: Propagator, a: Entry, b: Entry)
    requires Absorb(p, Carried(NO_CONTEXT, map[], ""), a).Some?
    ensures AbsorbAll(p, [a, b]) == Absorb(p, Absorb(p, Carried(NO_CONTEXT, map[], ""), a).value, b)
  {
    assert [a, b][..1] == [a] && [a][..0] == [];
    assert AbsorbAll(p, [a]) == Absorb(p, Carried(NO_CONTEXT, map[], ""), a);
  }

  /** So what a carrier with a context and a debug id means depends on their order. */
  lemma DebugIDDependsOnOrder(p: Propagator, c: Context, id: string)
    requires ToLower(p.contextHeader) == p.contextHeader && ToLower(p.debugHeader) == p.debugHeader
    requires p.contextHeader != p.debugHeader && p.decode(ContextString(c)) == ContextString(c) && c.flags <= 9
    ensures var context, debug := Entry(p.contextHeader, ContextString(c)), Entry(p.debugHeader, id);
            var after, before := AbsorbAll(p, [context, debug]), AbsorbAll(p, [debug, context]);
            after.Some? && before.Some? && after.value.debugID == p.decode(id) && before.value.debugID == ""
  {
    var context, debug := Entry(p.contextHeader, ContextString(c)), Entry(p.debugHeader, id);
    ContextRoundTrip(c);
    hide ContextString, ContextFromString, ToLower;
    var none := Carried(NO_CONTEXT, map[], "");
    assert Absorb(p, none, context).Some? && Absorb(p, none, debug).Some?;
    TwoEntries(p, context, debug);
    TwoEntries(p, debug, context);
    hide AbsorbAll;
    DebugIDRule(p, [context, debug], 1);
    DebugIDRule(p, [debug, context], 1);
  }
}
