/**
 The simple JSON protocol (thrift/simple_json_protocol.go): a writer and a reader, each driven by a stack of contexts that
 knows which separator comes next. Numbers are integers; the quoting of strings is a function given to the protocol.
 */
module SimpleJson {
  import opened Widths
  import opened Sequences

  datatype Context = TopLevel | ListFirst | InList | ObjectFirst | NextKey | NextValue

  type Stack = seq<Context>

  /** What can be written: a list or an object, of any depth, or a scalar. Object members are named by strings. */
  datatype Node = Int(n: int64) | Bool(b: bool) | Text(s: string) | Array(items: seq<Node>) | Object(members: seq<Member>)

  datatype Member = Member(name: string, value: Node)

  // ----- the text of a value: RFC 8259, sections 3 to 6 -----

  function Digits(n: nat): (s: string)
  {
    if n < 10 then [DigitChar(n)] else Digits(n / 10) + [DigitChar(n % 10)]
  }

  function DigitChar(d: nat): (c: char)
    requires d < 10
  {
    '0' + d as char
  }

  function Decimal(n: int): (s: string) { if n < 0 then "-" + Digits(-n) else Digits(n) }

  function BoolText(b: bool): (s: string) { if b then "true" else "false" }

  function NodeText(node: Node, quote: string -> string): (s: string)
  {
    match node
    case Int(n) => Decimal(n)
    case Bool(b) => BoolText(b)
    case Text(t) => quote(t)
    case Array(items) => "[" + (ItemsText(items, "", quote) + "]")
    case Object(members) => "{" + (MembersText(members, "", quote) + "}")
  }

  /** `lead` goes before the first one and a comma before each of the others. */
  function ItemsText(items: seq<Node>, lead: string, quote: string -> string): (s: string)
  {
    if items == [] then "" else lead + (NodeText(items[0], quote) + ItemsText(items[1..], ",", quote))
  }

  function MembersText(members: seq<Member>, lead: string, quote: string -> string): (s: string)
  {
    if members == [] then ""
    else lead + (quote(members[0].name) + (":" + (ValueText(members[0], quote) + MembersText(members[1..], ",", quote))))
  }

  function ValueText(m: Member, quote: string -> string): (s: string) { NodeText(m.value, quote) }

  // ----- contexts -----

  function Top(stack: Stack): (c: Context)
    requires stack != []
  {
    stack[|stack| - 1]
  }

  /** What comes before a value in a context. */
  function Separator(c: Context): (s: string)
  {
    match c
    case InList => ","
    case NextKey => ","
    case NextValue => ":"
    case _ => ""
  }

  /** The context after a value. */
  function After(c: Context): (r: Context)
  {
    match c
    case ListFirst => InList
    case ObjectFirst => NextValue
    case NextKey => NextValue
    case NextValue => NextKey
    case _ => c
  }

  predicate KeyPosition(c: Context) { c == ObjectFirst || c == NextKey }

  function Advanced(stack: Stack): (r: Stack)
    requires stack != []
  {
    stack[..|stack| - 1] + [After(Top(stack))]
  }

  // ----- reading -----

  datatype Source = Source(input: string, stack: Stack)

  datatype Got<+T> = Got(value: T, src: Source)

  predicate Space(c: char) { c == ' ' || c == '\r' || c == '\n' || c == '\t' }

  function SkipSpace(s: string): (r: string)
    ensures |r| <= |s|
  {
    if s != "" && Space(s[0]) then SkipSpace(s[1..]) else s
  }

  /** In a list or object the separator is taken unless the value is its end; anything else is an error. */
  function ParsePreValue(src: Source): (r: Option<Source>)
  {
    var s := SkipSpace(src.input);
    if src.stack == [] then None
    else
      var c := Top(src.stack);
      if s == "" || c == TopLevel || c == ListFirst || c == ObjectFirst then Some(src.(input := s))
      else if c == InList && s[0] == ']' then Some(src.(input := s))
      else if c == NextKey && s[0] == '}' then Some(src.(input := s))
      else if [s[0]] == Separator(c) then Some(src.(input := SkipSpace(s[1..])))
      else None
  }

  function ParsePostValue(src: Source): (r: Option<Source>)
  {
    if src.stack == [] then None else Some(Source(SkipSpace(src.input), Advanced(src.stack)))
  }

  predicate IsDigit(c: char) { '0' <= c <= '9' }

  predicate EndsNumber(c: char) { Space(c) || c == '\0' || c == '}' || c == ']' || c == ',' || c == ':' }

  /** What the scan of a number remembers. */
  datatype Scan = Scan(buf: string, hasPoint: bool, hasE: bool, canSign: bool, inQuotes: bool)

  const NEW_SCAN: Scan := Scan("", false, false, true, false)

  /** One more character, or an error. Quotes are skipped. */
  function ScanChar(scan: Scan, c: char): (r: Option<Scan>)
  {
    if IsDigit(c) then Some(scan.(buf := scan.buf + [c], canSign := false))
    else if c == '.' then
      if scan.hasPoint || scan.hasE then None
      else Some(scan.(buf := scan.buf + [c], hasPoint := true, canSign := false))
    else if c == 'e' || c == 'E' then
      if scan.hasE then None else Some(scan.(buf := scan.buf + [c], hasE := true, canSign := true))
    else if c == '-' || c == '+' then
      if !scan.canSign then None else Some(scan.(buf := scan.buf + [c], canSign := false))
    else if c == '"' then Some(scan.(inQuotes := true))
    else None
  }

  datatype Scanned = Scanned(buf: string, rest: string)

  predicate StartsWord(c: char) { c == 'N' || c == 'I' }

  /** NaN and Infinity, which may be signed and quoted; their value as an integer is that of no integer. */
  function ScanWord(s: string, scan: Scan): (r: Option<Scanned>)
    requires s != ""
  {
    var word := if s[0] == 'N' then "NaN" else "Infinity";
    var sign := scan.buf == "" || (s[0] == 'I' && (scan.buf == "+" || scan.buf == "-"));
    if !sign || !(word <= s) then None
    else
      var rest := s[|word|..];
      Some(Scanned(scan.buf + word, if scan.inQuotes && rest != "" && rest[0] == '"' then rest[1..] else rest))
  }

  function ScanNumber(s: string, scan: Scan): (r: Option<Scanned>)
    decreases |s|
  {
    if s == "" || EndsNumber(s[0]) then (if scan.buf == "" then None else Some(Scanned(scan.buf, s)))
    else if StartsWord(s[0]) then ScanWord(s, scan)
    else
      var next := ScanChar(scan, s[0]);
      if next.None? then None else ScanNumber(s[1..], next.value)
  }

  function DigitsValue(s: string): (n: Option<nat>)
  {
    if s == "" then Some(0)
    else
      var high, c := DigitsValue(s[..|s| - 1]), s[|s| - 1];
      if high.None? || !IsDigit(c) then None else Some(high.value * 10 + (c - '0') as nat)
  }

  function Clamp(n: int): (r: int64)
  {
    if n < -0x8000_0000_0000_0000 then -0x8000_0000_0000_0000
    else if n > 0x7fff_ffff_ffff_ffff then 0x7fff_ffff_ffff_ffff
    else n
  }

  /**
   strconv.ParseInt with its error ignored: zero for what is no integer, the nearest end of the range for what is too
   big.
   */
  function IntValue(s: string): (n: int64)
  {
    var signed := s != "" && (s[0] == '-' || s[0] == '+');
    var digits := if signed then s[1..] else s;
    var n := DigitsValue(digits);
    if digits == "" || n.None? then 0
    else
      var magnitude: int := n.value;
      Clamp(if signed && s[0] == '-' then -magnitude else magnitude)
  }

  function ParseI64(src: Source): (r: Option<Got<int64>>)
  {
    var pre := ParsePreValue(src);
    if pre.None? then None
    else
      var s := pre.value.input;
      if "null" <= s then Finish(0, pre.value.(input := s[4..]))
      else
        var t := SkipSpace(s);
        if "null" <= t then Finish(0, pre.value.(input := t[4..]))
        else
          var num := ScanNumber(t, NEW_SCAN);
          if num.None? then None else Finish(IntValue(num.value.buf), pre.value.(input := num.value.rest))
  }

  function Finish<T>(value: T, src: Source): (r: Option<Got<T>>)
  {
    var post := ParsePostValue(src);
    if post.None? then None else Some(Got(value, post.value))
  }

  function ReadBool(src: Source): (r: Option<Got<bool>>)
  {
    var pre := ParsePreValue(src);
    if pre.None? then None
    else
      var s := pre.value.input;
      if s == "" then Finish(false, pre.value)
      else if "true" <= s then Finish(true, pre.value.(input := s[4..]))
      else if "false" <= s then Finish(false, pre.value.(input := s[5..]))
      else if "null" <= s then Finish(false, pre.value.(input := s[4..]))
      else None
  }

  /** The value is false when there is a null, which is left where it is. */
  function ParseListBegin(src: Source): (r: Option<Got<bool>>)
  {
    var pre := ParsePreValue(src);
    if pre.None? || pre.value.input == "" then None
    else
      var s := pre.value.input;
      if s[0] == '[' then Some(Got(true, Source(s[1..], pre.value.stack + [ListFirst])))
      else if "null" <= s then Some(Got(false, pre.value))
      else None
  }

  datatype ElemList = ElemList(elemType: byte, size: int64)

  function ParseElemListBegin(src: Source): (r: Option<Got<ElemList>>)
  {
    var open := ParseListBegin(src);
    if open.None? then None
    else if !open.value.value then Some(Got(ElemList(1, 0), open.value.src))
    else
      var elemType := ParseI64(open.value.src);
      if elemType.None? then None
      else
        var size := ParseI64(elemType.value.src);
        if size.None? then None else Some(Got(ElemList(elemType.value.value % 0x100, size.value.value), size.value.src))
  }

  /** A list at the top level is not followed by anything, so no separator is looked for. */
  function ParseListEnd(src: Source): (r: Option<Source>)
  {
    var s := SkipSpace(src.input);
    if "null" <= s then Some(src.(input := s[4..]))
    else if src.stack == [] || Top(src.stack) != InList || s == "" || s[0] != ']' then None
    else
      var stack := src.stack[..|src.stack| - 1];
      if stack == [] then None
      else if Top(stack) == TopLevel then Some(Source(s[1..], stack))
      else ParsePostValue(Source(s[1..], stack))
  }

  // ----- reading what is expected -----

  /** What a generated reader expects: integers, booleans, or lists of one of these, however deep. */
  datatype Shape = IntShape | BoolShape | ListShape(elem: Shape)

  function Header(elemType: byte, size: int64): (items: seq<Node>) { [Int(elemType), Int(size)] }

  predicate HasShape(node: Node, shape: Shape)
    decreases shape
  {
    match shape
    case IntShape => node.Int?
    case BoolShape => node.Bool?
    case ListShape(elem) =>
      node.Array? && |node.items| >= 2
      && node.items[0].Int? && 0 <= node.items[0].n < 0x100 && node.items[1].Int? && node.items[1].n == |node.items| - 2
      && forall i :: 2 <= i < |node.items| ==> HasShape(node.items[i], elem)
  }

  function ReadNode(shape: Shape, src: Source): (r: Option<Got<Node>>)
    decreases shape, 0
  {
    match shape
    case IntShape =>
      var n := ParseI64(src);
      if n.None? then None else Some(Got(Int(n.value.value), n.value.src))
    case BoolShape =>
      var b := ReadBool(src);
      if b.None? then None else Some(Got(Bool(b.value.value), b.value.src))
    case ListShape(elem) =>
      var begin := ParseElemListBegin(src);
      if begin.None? then None
      else
        var n := if begin.value.value.size > 0 then begin.value.value.size else 0;
        var elems := ReadNodes(elem, n, begin.value.src);
        if elems.None? then None
        else
          var end := ParseListEnd(elems.value.src);
          if end.None? then None
          else Some(Got(Array(Header(begin.value.value.elemType, begin.value.value.size) + elems.value.value), end.value))
  }

  function ReadNodes(shape: Shape, n: nat, src: Source): (r: Option<Got<seq<Node>>>)
    decreases shape, n + 1
  {
    if n == 0 then Some(Got([], src))
    else
      var first := ReadNode(shape, src);
      if first.None? then None
      else
        var rest := ReadNodes(shape, n - 1, first.value.src);
        if rest.None? then None else Some(Got([first.value.value] + rest.value.value, rest.value.src))
  }

  // ----- the alphabet of the two automata -----

  /** What a list or an object looks like from inside: separators, and where names and values stand. */
  lemma ListsAndObjects(stack: Stack)
    ensures var list := stack + [ListFirst];
            Separator(Top(list)) == "" && Separator(Top(Advanced(list))) == "," && Advanced(Advanced(list)) == Advanced(list)
    ensures var members := stack + [ObjectFirst];
            Separator(Top(members)) == "" && Separator(Top(Advanced(members))) == ":"
            && Separator(Top(Advanced(Advanced(members)))) == ","
            && Separator(Top(Advanced(Advanced(Advanced(members))))) == ":"
            && KeyPosition(Top(members)) && !KeyPosition(Top(Advanced(members))) && KeyPosition(Top(Advanced(Advanced(members))))
    ensures !KeyPosition(TopLevel) && !KeyPosition(ListFirst) && !KeyPosition(InList)
  {
  }

  /** Which character a value may begin with, in each context, and what is taken of it; spaces are always skipped. */
  lemma BeforeValue(c: char, rest: string, stack: Stack, context: Context)
    requires !Space(c)
    ensures var src := Source([c] + rest, stack + [context]);
            ParsePreValue(src)
            == match context
               case InList =>
                 if c == ']' then Some(src) else if c == ',' then Some(src.(input := SkipSpace(rest))) else None
               case NextKey =>
                 if c == '}' then Some(src) else if c == ',' then Some(src.(input := SkipSpace(rest))) else None
               case NextValue => if c == ':' then Some(src.(input := SkipSpace(rest))) else None
               case _ => Some(src)
    ensures ParsePreValue(Source("", stack + [context])) == Some(Source("", stack + [context]))
    ensures ParsePreValue(Source([c] + rest, [])) == None
  {
    assert ([c] + rest)[1..] == rest;
  }

  lemma SpacesSkipped(c: char, rest: string)
    ensures SkipSpace([c] + rest) == if c == ' ' || c == '\r' || c == '\n' || c == '\t' then SkipSpace(rest) else [c] + rest
    ensures SkipSpace("") == ""
  {
    assert ([c] + rest)[1..] == rest;
  }

  /** A null is zero, false, or no list; a list's null is left for the end of the list, which takes it. */
  lemma NullsRead(rest: string, stack: Stack)
    requires stack != [] && Separator(Top(stack)) == ""
    ensures var src, after := Source("null" + rest, stack), ParsePostValue(Source(rest, stack)).value;
            ParseI64(src) == Some(Got(0, after)) && ReadBool(src) == Some(Got(false, after))
            && ParseListBegin(src) == Some(Got(false, src)) && ParseElemListBegin(src) == Some(Got(ElemList(1, 0), src))
            && ParseListEnd(src) == Some(Source(rest, stack))
  {
    var s := "null" + rest;
    assert s[0] == 'n' && "null" <= s && s[4..] == rest;
    assert ParsePreValue(Source(s, stack)) == Some(Source(s, stack));
  }

  // ----- numbers come back -----

  /** The words for what is no integer are read as zero. */
  lemma WordsAreZero(word: string, sign: string, rest: string)
    requires (word == "NaN" && sign == "") || (word == "Infinity" && (sign == "" || sign == "+" || sign == "-"))
    ensures ScanNumber(sign + word + rest, NEW_SCAN) == Some(Scanned(sign + word, rest)) && IntValue(sign + word) == 0
  {
    WordIsNoNumber(word);
    if sign == "" {
      assert sign + word == word;
      ScansWord(word, rest, NEW_SCAN);
    } else {
      assert sign + word + rest == [sign[0]] + (word + rest) && [sign[0]] == sign;
      ScanSign(sign[0], word + rest);
      ScansWord(word, rest, Scan(sign, false, false, false, false));
      assert (sign + word)[1..] == word;
    }
    hide ScanNumber;
  }

  lemma ScansWord(word: string, rest: string, scan: Scan)
    requires (word == "NaN" && scan.buf == "") || (word == "Infinity" && (scan.buf == "" || scan.buf == "+" || scan.buf == "-"))
    requires !scan.inQuotes
    ensures ScanNumber(word + rest, scan) == Some(Scanned(scan.buf + word, rest))
  {
    var s := word + rest;
    assert s[0] == word[0] && word <= s && s[|word|..] == rest;
  }

  lemma {:induction false} WordIsNoNumber(word: string)
    requires word != "" && !IsDigit(word[|word| - 1])
    ensures DigitsValue(word) == None
  {
  }

  lemma {:induction false} DigitsRoundTrip(n: nat)
    ensures var s := Digits(n); s != "" && DigitsValue(s) == Some(n) && forall c <- s :: IsDigit(c)
  {
    var s := Digits(n);
    if n < 10 {
      assert s[..0] == "";
    } else {
      DigitsRoundTrip(n / 10);
      assert s[..|s| - 1] == Digits(n / 10);
    }
  }

  lemma PlainRoundTrip(n: nat)
    requires n <= 0x7fff_ffff_ffff_ffff
    ensures var s := Digits(n);
            s != "" && s != "-" && IntValue(s) == n && IsDigit(s[0]) && forall c <- s[1..] :: IsDigit(c)
  {
    DigitsRoundTrip(n);
    var s := Digits(n);
    assert s[0] in s && forall c <- s[1..] :: c in s;
    hide Digits, DigitsValue;
  }

  lemma MinusRoundTrip(n: nat)
    requires 0 < n <= 0x8000_0000_0000_0000
    ensures var s := "-" + Digits(n); s != "-" && IntValue(s) == 0 - n && s[0] == '-' && forall c <- s[1..] :: IsDigit(c)
  {
    DigitsRoundTrip(n);
    assert ("-" + Digits(n))[1..] == Digits(n);
    hide Digits, DigitsValue;
  }

  lemma DecimalRoundTrip(n: int64)
    ensures var s := Decimal(n);
            s != "" && s != "-" && IntValue(s) == n && (IsDigit(s[0]) || s[0] == '-') && forall c <- s[1..] :: IsDigit(c)
  {
    var m: int := n;
    if m < 0 { MinusRoundTrip(-m); } else { PlainRoundTrip(m); }
  }

  lemma {:induction false} ScanDigits(digits: string, rest: string, scan: Scan)
    requires (forall c <- digits :: IsDigit(c)) && scan.buf + digits != ""
    requires rest == "" || EndsNumber(rest[0])
    ensures ScanNumber(digits + rest, scan) == Some(Scanned(scan.buf + digits, rest))
    decreases |digits|
  {
    if digits == "" {
      assert digits + rest == rest && scan.buf + digits == scan.buf;
    } else {
      var s := digits + rest;
      assert digits[0] in digits && forall c <- digits[1..] :: c in digits;
      assert s[0] == digits[0] && s[1..] == digits[1..] + rest;
      var next := scan.(buf := scan.buf + [digits[0]], canSign := false);
      assert next.buf + digits[1..] == scan.buf + digits;
      ScanDigits(digits[1..], rest, next);
    }
  }

  lemma ScanDecimal(n: int64, rest: string)
    requires rest == "" || EndsNumber(rest[0])
    ensures ScanNumber(Decimal(n) + rest, NEW_SCAN) == Some(Scanned(Decimal(n), rest))
  {
    DecimalRoundTrip(n);
    hide Decimal, IntValue;
    var s := Decimal(n);
    if IsDigit(s[0]) {
      assert forall c <- s :: c == s[0] || c in s[1..];
      ScanDigits(s, rest, NEW_SCAN);
      assert "" + s == s;
    } else {
      ScanMinus(s, rest);
    }
  }

  /** A sign in front is taken and the scan goes on. */
  lemma ScanSign(sign: char, rest: string)
    requires sign == '-' || sign == '+'
    ensures ScanNumber([sign] + rest, NEW_SCAN) == ScanNumber(rest, Scan([sign], false, false, false, false))
  {
    var s := [sign] + rest;
    assert s[0] == sign && s[1..] == rest;
    var next := Scan([sign], false, false, false, false);
    assert NEW_SCAN.buf + [sign] == [sign];
    assert ScanChar(NEW_SCAN, sign) == Some(next);
    hide ScanChar, ScanWord;
    assert !EndsNumber(sign) && !StartsWord(sign);
  }

  lemma ScanMinus(s: string, rest: string)
    requires s != "" && s[0] == '-' && s != "-" && (forall c <- s[1..] :: IsDigit(c))
    requires rest == "" || EndsNumber(rest[0])
    ensures ScanNumber(s + rest, NEW_SCAN) == Some(Scanned(s, rest))
  {
    assert s + rest == ['-'] + (s[1..] + rest);
    ScanSign('-', s[1..] + rest);
    ScanDigits(s[1..], rest, Scan("-", false, false, false, false));
    hide ScanNumber;
    assert "-" + s[1..] == s;
  }

  /** Digits with a sign or without are read for what they are, and kept within 64 bits. */
  lemma SignsRead(n: nat)
    ensures IntValue(Digits(n)) == (if n <= 0x7fff_ffff_ffff_ffff then n else 0x7fff_ffff_ffff_ffff)
    ensures IntValue("+" + Digits(n)) == IntValue(Digits(n))
    ensures IntValue("-" + Digits(n)) == if n <= 0x8000_0000_0000_0000 then 0 - n else -0x8000_0000_0000_0000
  {
    DigitsRoundTrip(n);
    hide Digits, DigitsValue;
    var s := Digits(n);
    assert ("+" + s)[1..] == s && ("-" + s)[1..] == s && s[0] in s;
  }

  /** Decimal digits, the highest first, without zeros in front. */
  lemma {:induction false} DigitsForm(n: nat)
    ensures var s := Digits(n);
            s[|s| - 1] == "0123456789"[n % 10] && (n >= 10 ==> s[..|s| - 1] == Digits(n / 10)) && (n < 10 ==> |s| == 1)
            && (n > 0 ==> s[0] != '0')
  {
    if n >= 10 {
      DigitsForm(n / 10);
      assert Digits(n)[..|Digits(n)| - 1] == Digits(n / 10);
    }
  }

  lemma DecimalForm(n: int64)
    ensures n >= 0 ==> Decimal(n) == Digits(n)
    ensures n < 0 ==> Decimal(n) == "-" + Digits(0 - n)
  {
  }

  // ----- which numbers are taken -----

  predicate IsExp(c: char) { c == 'e' || c == 'E' }

  predicate IsSign(c: char) { c == '-' || c == '+' }

  predicate NumberChar(c: char) { IsDigit(c) || c == '.' || IsExp(c) || IsSign(c) }

  /** At most one point, in front of the exponent; at most one exponent; signs first or right after it. */
  predicate NumberLike(w: string)
  {
    (forall c <- w :: NumberChar(c))
    && (forall i, j :: 0 <= i < j < |w| && IsExp(w[i]) ==> !IsExp(w[j]) && w[j] != '.')
    && (forall i, j :: 0 <= i < j < |w| && w[i] == '.' ==> w[j] != '.')
    && (forall i :: 0 < i < |w| && IsSign(w[i]) ==> IsExp(w[i - 1]))
  }

  /** What the scan remembers of the characters taken so far. */
  function Remembered(w: string): (scan: Scan)
  {
    Scan(w, '.' in w, 'e' in w || 'E' in w, w == "" || IsExp(w[|w| - 1]), false)
  }

  lemma NumberLikeStep(w: string, c: char)
    requires NumberLike(w)
    ensures NumberLike(w + [c]) <==> NumberChar(c) && ScanChar(Remembered(w), c).Some?
    ensures NumberLike(w + [c]) ==> ScanChar(Remembered(w), c) == Some(Remembered(w + [c]))
    ensures c != '"' && !NumberChar(c) ==> ScanChar(Remembered(w), c).None?
  {
    var v := w + [c];
    assert v[|w|] == c && forall d: char :: d in v <==> d in w || d == c;
    if NumberChar(c) && ScanChar(Remembered(w), c).Some? {
      StepTaken(w, c);
    } else {
      StepRefused(w, c);
    }
  }

  lemma StepTaken(w: string, c: char)
    requires NumberLike(w) && NumberChar(c) && ScanChar(Remembered(w), c).Some?
    ensures NumberLike(w + [c])
  {
    var v := w + [c];
    assert v[|w|] == c && forall i :: 0 <= i < |w| ==> v[i] == w[i];
    forall i, j | 0 <= i < j < |v| && IsExp(v[i]) ensures !IsExp(v[j]) && v[j] != '.' {
      if j == |w| { assert w[i] in w; }
    }
    forall i, j | 0 <= i < j < |v| && v[i] == '.' ensures v[j] != '.' {
      if j == |w| { assert w[i] in w; }
    }
  }

  lemma StepRefused(w: string, c: char)
    requires NumberLike(w) && !(NumberChar(c) && ScanChar(Remembered(w), c).Some?)
    ensures !NumberLike(w + [c])
  {
    var v := w + [c];
    assert v[|w|] == c && forall i :: 0 <= i < |w| ==> v[i] == w[i];
    assert c in v;
    if NumberChar(c) {
      if IsSign(c) {
        assert !IsExp(v[|w| - 1]);
      } else if 'e' in w || 'E' in w {
        var i :| 0 <= i < |w| && (w[i] == 'e' || w[i] == 'E');
        assert IsExp(v[i]);
      } else {
        var i :| 0 <= i < |w| && w[i] == '.';
        assert v[i] == '.';
      }
    }
  }

  /** Exactly which texts are taken for a number, apart from words and quotes; they are taken whole, up to what ends them. */
  lemma {:induction false} ScanExactly(taken: string, w: string, rest: string)
    requires NumberLike(taken) && (rest == "" || EndsNumber(rest[0])) && taken + w != ""
    requires forall c <- w :: !EndsNumber(c) && !StartsWord(c) && c != '"'
    ensures ScanNumber(w + rest, Remembered(taken))
         == if NumberLike(taken + w) then Some(Scanned(taken + w, rest)) else None
    decreases |w|
  {
    if w == "" {
      assert w + rest == rest && taken + w == taken;
    } else {
      var s, c := w + rest, w[0];
      assert s[0] == c && s[1..] == w[1..] + rest && c in w && forall d <- w[1..] :: d in w;
      NumberLikeStep(taken, c);
      PrefixLike(taken + [c], w[1..]);
      hide ScanChar, ScanWord, NumberLike, Remembered, NumberChar;
      assert taken + w == taken + [c] + w[1..];
      if NumberLike(taken + [c]) { ScanExactly(taken + [c], w[1..], rest); }
    }
  }

  lemma PrefixLike(a: string, b: string)
    ensures NumberLike(a + b) ==> NumberLike(a)
  {
    assert forall i :: 0 <= i < |a| ==> (a + b)[i] == a[i];
    assert forall c <- a :: c in a + b;
  }

  lemma NumberScanned(w: string, rest: string)
    requires w != "" && (rest == "" || EndsNumber(rest[0]))
    requires forall c <- w :: !EndsNumber(c) && !StartsWord(c) && c != '"'
    ensures ScanNumber(w + rest, NEW_SCAN) == if NumberLike(w) then Some(Scanned(w, rest)) else None
  {
    ScanExactly("", w, rest);
    assert "" + w == w;
  }

  // ----- lists come back -----

  /** What may follow a value: nothing, or a separator or bracket right away. */
  predicate Follows(rest: string) { rest == "" || rest[0] == ',' || rest[0] == ']' || rest[0] == '}' }

  predicate ValuePosition(stack: Stack) { stack != [] && !KeyPosition(Top(stack)) }

  /** The first character of a value. */
  predicate StartsValue(s: string) { s != "" && (IsDigit(s[0]) || s[0] == '-' || s[0] == 't' || s[0] == 'f' || s[0] == '[') }

  lemma SeparatorTaken(text: string, stack: Stack)
    requires ValuePosition(stack) && StartsValue(text)
    ensures ParsePreValue(Source(Separator(Top(stack)) + text, stack)) == Some(Source(text, stack))
  {
    var s := Separator(Top(stack)) + text;
    if Separator(Top(stack)) == "" {
      assert s == text;
    } else {
      assert s[1..] == text;
    }
  }

  lemma IntBack(n: int64, rest: string, stack: Stack)
    requires ValuePosition(stack) && Follows(rest)
    ensures ParseI64(Source(Separator(Top(stack)) + (Decimal(n) + rest), stack)) == Some(Got(n, Source(rest, Advanced(stack))))
  {
    hide Decimal, IntValue, ParsePreValue;
    DecimalRoundTrip(n);
    SeparatorTaken(Decimal(n) + rest, stack);
    ScanDecimal(n, rest);
  }

  lemma TrueBack(rest: string, stack: Stack)
    requires ValuePosition(stack) && Follows(rest)
    ensures ReadBool(Source(Separator(Top(stack)) + ("true" + rest), stack)) == Some(Got(true, Source(rest, Advanced(stack))))
  {
    var s := "true" + rest;
    SeparatorTaken(s, stack);
    hide ParsePreValue, Separator;
    assert "true" <= s && s[4..] == rest;
  }

  lemma FalseBack(rest: string, stack: Stack)
    requires ValuePosition(stack) && Follows(rest)
    ensures ReadBool(Source(Separator(Top(stack)) + ("false" + rest), stack)) == Some(Got(false, Source(rest, Advanced(stack))))
  {
    var s := "false" + rest;
    SeparatorTaken(s, stack);
    hide ParsePreValue, Separator;
    assert s[0] == 'f' && "false" <= s && s[5..] == rest;
  }

  lemma BoolBack(b: bool, rest: string, stack: Stack)
    requires ValuePosition(stack) && Follows(rest)
    ensures ReadBool(Source(Separator(Top(stack)) + (BoolText(b) + rest), stack)) == Some(Got(b, Source(rest, Advanced(stack))))
  {
    if b { TrueBack(rest, stack); } else { FalseBack(rest, stack); }
  }

  lemma AdvanceNested(stack: Stack, c: Context)
    ensures Advanced(stack + [c]) == stack + [After(c)]
  {
  }

  lemma ListOpens(elemType: byte, size: int64, rest: string, stack: Stack)
    requires ValuePosition(stack) && Follows(rest)
    ensures ParseElemListBegin(Source(Separator(Top(stack)) + ("[" + (Decimal(elemType) + ("," + (Decimal(size) + rest)))), stack))
         == Some(Got(ElemList(elemType, size), Source(rest, stack + [InList])))
  {
    hide ParseI64, Decimal;
    var b2 := "," + (Decimal(size) + rest);
    var b1 := Decimal(elemType) + b2;
    SeparatorTaken("[" + b1, stack);
    assert ("[" + b1)[1..] == b1;
    hide ParsePreValue;
    SeparatorNested(stack);
    hide Separator, Advanced;
    assert "" + b1 == b1;
    IntBack(elemType, b2, stack + [ListFirst]);
    AdvanceNested(stack, ListFirst);
    IntBack(size, rest, stack + [InList]);
    AdvanceNested(stack, InList);
  }

  lemma ListCloses(rest: string, stack: Stack)
    requires ValuePosition(stack) && Follows(rest)
    ensures ParseListEnd(Source("]" + rest, stack + [InList])) == Some(Source(rest, Advanced(stack)))
  {
    assert ("]" + rest)[1..] == rest && (stack + [InList])[..|stack|] == stack;
    if Top(stack) == TopLevel {
      assert Advanced(stack) == stack;
    }
  }

  lemma ListText(node: Node, elem: Shape, rest: string, quote: string -> string)
    requires HasShape(node, ListShape(elem))
    ensures var elems := ItemsText(node.items[2..], ",", quote) + ("]" + rest);
            NodeText(node, quote) + rest
            == "[" + (Decimal(node.items[0].n) + ("," + (Decimal(node.items[1].n) + elems)))
  {
    hide Decimal;
    var items := node.items;
    var last := ItemsText(items[2..], ",", quote);
    assert items[1..][1..] == items[2..];
    var d0, d1 := Decimal(items[0].n), Decimal(items[1].n);
    assert ItemsText(items[1..], ",", quote) == "," + (d1 + last);
    assert "" + (d0 + ("," + (d1 + last))) == d0 + ("," + (d1 + last));
    assert ItemsText(items, "", quote) == d0 + ("," + (d1 + last));
    hide NodeText;
    var inner := d0 + ("," + (d1 + last));
    Assoc("[", inner + "]", rest);
    Assoc(inner, "]", rest);
    Assoc(d0, "," + (d1 + last), "]" + rest);
    Assoc(",", d1 + last, "]" + rest);
    Assoc(d1, last, "]" + rest);
  }

  /**
   A nested list of integers and booleans reads back equal wherever it stands, and both stacks move on by one value:
   the reader takes exactly the separator and the text.
   */
  lemma {:induction false} NodeBack(node: Node, shape: Shape, rest: string, stack: Stack, quote: string -> string)
    requires HasShape(node, shape) && ValuePosition(stack) && Follows(rest)
    ensures ReadNode(shape, Source(Separator(Top(stack)) + (NodeText(node, quote) + rest), stack))
         == Some(Got(node, Source(rest, Advanced(stack))))
    decreases shape, 1, 0
  {
    match shape
    case IntShape => IntBack(node.n, rest, stack);
    case BoolShape => BoolBack(node.b, rest, stack);
    case ListShape(elem) =>
      ListBack(node, elem, rest, stack, quote);
  }

  lemma {:induction false} ListBack(node: Node, elem: Shape, rest: string, stack: Stack, quote: string -> string)
    requires HasShape(node, ListShape(elem)) && ValuePosition(stack) && Follows(rest)
    ensures ReadNode(ListShape(elem), Source(Separator(Top(stack)) + (NodeText(node, quote) + rest), stack))
         == Some(Got(node, Source(rest, Advanced(stack))))
    decreases ListShape(elem), 0, 0
  {
    hide Decimal, ParseElemListBegin, ParseListEnd, NodeText, ItemsText, ReadNodes, Advanced, Separator;
    var elems := node.items[2..];
    ListText(node, elem, rest, quote);
    ItemsFollow(elems, "]" + rest, quote);
    ListOpens(node.items[0].n, |elems|, ItemsText(elems, ",", quote) + ("]" + rest), stack);
    NodesBack(elems, elem, "]" + rest, stack, quote);
    ListCloses(rest, stack);
    assert node.items == Header(node.items[0].n, |elems|) + elems;
  }

  lemma ItemsFollow(elems: seq<Node>, tail: string, quote: string -> string)
    requires tail != "" && tail[0] == ']'
    ensures Follows(ItemsText(elems, ",", quote) + tail)
  {
  }

  lemma SeparatorNested(stack: Stack)
    ensures Separator(Top(stack + [InList])) == "," && Separator(Top(stack + [ListFirst])) == ""
  {
  }

  lemma {:induction false} NodesBack(elems: seq<Node>, shape: Shape, tail: string, stack: Stack, quote: string -> string)
    requires (forall e <- elems :: HasShape(e, shape)) && tail != "" && tail[0] == ']'
    ensures ReadNodes(shape, |elems|, Source(ItemsText(elems, ",", quote) + tail, stack + [InList]))
         == Some(Got(elems, Source(tail, stack + [InList])))
    decreases shape, 2, |elems|
  {
    hide NodeText, ReadNode, Separator, Advanced;
    SeparatorNested(stack);
    if elems == [] {
      assert "" + tail == tail;
    } else {
      var text, more := NodeText(elems[0], quote), ItemsText(elems[1..], ",", quote);
      Assoc(",", text + more, tail);
      Assoc(text, more, tail);
      ItemsFollow(elems[1..], tail, quote);
      assert elems[0] in elems && forall e <- elems[1..] :: e in elems;
      NodeBack(elems[0], shape, more + tail, stack + [InList], quote);
      AdvanceNested(stack, InList);
      NodesBack(elems[1..], shape, tail, stack, quote);
      assert [elems[0]] + elems[1..] == elems;
    }
  }
}
