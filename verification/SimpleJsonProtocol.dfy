/**
 TSimpleJSONProtocol (thrift/simple_json_protocol.go) as an object: its writing methods proved against the text of a value,
 its reading methods against the readers of module SimpleJson.
 */
module SimpleJsonProtocol {
  import opened Widths
  import opened Json = SimpleJson

  class TSimpleJSONProtocol {
    const quote: string -> string
    var writer: string
    var dumpContext: Stack
    var reader: string
    var parseContextStack: Stack

    constructor (quote: string -> string, reader: string)
      ensures this.quote == quote && writer == "" && dumpContext == [TopLevel] && Src() == Source(reader, [TopLevel])
    {
      this.quote, this.reader := quote, reader;
      writer, dumpContext, parseContextStack := "", [TopLevel], [TopLevel];
    }

    function Src(): (s: Source)
      reads this
    {
      Source(reader, parseContextStack)
    }

    // writing; an empty stack is the only error

    method OutputPreValue() returns (ok: bool)
      modifies `writer
      ensures ok == (dumpContext != [])
      ensures writer == if ok then old(writer) + Separator(Top(dumpContext)) else old(writer)
    {
      if dumpContext == [] { return false; }
      match Top(dumpContext) {
        case InList | NextKey => writer := writer + ",";
        case NextValue => writer := writer + ":";
        case _ => assert writer + "" == writer;
      }
      return true;
    }

    method OutputPostValue() returns (ok: bool)
      modifies `dumpContext
      ensures ok == (old(dumpContext) != [])
      ensures dumpContext == if ok then Advanced(old(dumpContext)) else old(dumpContext)
    {
      if dumpContext == [] { return false; }
      var n := |dumpContext| - 1;
      match Top(dumpContext) {
        case ListFirst => dumpContext := dumpContext[..n] + [InList];
        case ObjectFirst => dumpContext := dumpContext[..n] + [NextValue];
        case NextKey => dumpContext := dumpContext[..n] + [NextValue];
        case NextValue => dumpContext := dumpContext[..n] + [NextKey];
        case _ => assert dumpContext == dumpContext[..n] + [Top(dumpContext)];
      }
      return true;
    }

    /** A scalar's text; where a name is due it is quoted. */
    method OutputScalar(v: string) returns (ok: bool)
      modifies `writer, `dumpContext
      ensures ok == (old(dumpContext) != [])
      ensures ok ==> var c := Top(old(dumpContext));
                     writer == old(writer) + (Separator(c) + if KeyPosition(c) then quote(v) else v)
                     && dumpContext == Advanced(old(dumpContext))
      ensures !ok ==> writer == old(writer) && dumpContext == old(dumpContext)
    {
      ok := OutputPreValue();
      if !ok { return; }
      writer := writer + if KeyPosition(Top(dumpContext)) then quote(v) else v;
      ThreeParts(old(writer), Separator(Top(dumpContext)), if KeyPosition(Top(dumpContext)) then quote(v) else v, "");
      hide Separator, Advanced;
      ok := OutputPostValue();
    }

    method OutputBool(value: bool) returns (ok: bool)
      modifies `writer, `dumpContext
      ensures ok == (old(dumpContext) != [])
      ensures ok ==> var c := Top(old(dumpContext));
                     writer == old(writer) + (Separator(c) + if KeyPosition(c) then quote(BoolText(value)) else BoolText(value))
                     && dumpContext == Advanced(old(dumpContext))
    {
      ok := OutputScalar(BoolText(value));
    }

    method OutputI64(value: int64) returns (ok: bool)
      modifies `writer, `dumpContext
      ensures ok == (old(dumpContext) != [])
      ensures ok ==> var c := Top(old(dumpContext));
                     writer == old(writer) + (Separator(c) + if KeyPosition(c) then quote(Decimal(value)) else Decimal(value))
                     && dumpContext == Advanced(old(dumpContext))
    {
      ok := OutputScalar(Decimal(value));
    }

    method OutputString(s: string) returns (ok: bool)
      modifies `writer, `dumpContext
      ensures ok == (old(dumpContext) != [])
      ensures ok ==> writer == old(writer) + (Separator(Top(old(dumpContext))) + quote(s))
                     && dumpContext == Advanced(old(dumpContext))
    {
      ok := OutputPreValue();
      if !ok { return; }
      writer := writer + quote(s);
      ok := OutputPostValue();
    }

    /** OutputListBegin and OutputObjectBegin. */
    method OutputOpen(bracket: char, first: Context) returns (ok: bool)
      modifies `writer, `dumpContext
      ensures ok == (old(dumpContext) != [])
      ensures ok ==> writer == old(writer) + (Separator(Top(old(dumpContext))) + [bracket])
                     && dumpContext == old(dumpContext) + [first]
    {
      ok := OutputPreValue();
      if !ok { return; }
      writer := writer + [bracket];
      dumpContext := dumpContext + [first];
    }

    /** OutputListEnd and OutputObjectEnd. */
    method OutputClose(bracket: char) returns (ok: bool)
      modifies `writer, `dumpContext
      ensures ok == (|old(dumpContext)| >= 2) && writer == old(writer) + [bracket]
      ensures ok ==> dumpContext == Advanced(old(dumpContext)[..|old(dumpContext)| - 1])
    {
      writer := writer + [bracket];
      if dumpContext == [] { return false; }
      dumpContext := dumpContext[..|dumpContext| - 1];
      ok := OutputPostValue();
    }

    /**
     Any value, written by the calls above: its text appears after the separator due, and the stack is back where it was,
     one value on.
     */
    method WriteNode(node: Node) returns (ok: bool)
      requires ValuePosition(dumpContext)
      modifies `writer, `dumpContext
      ensures ok && dumpContext == Advanced(old(dumpContext))
      ensures writer == old(writer) + (Separator(Top(old(dumpContext))) + NodeText(node, quote))
      decreases node, 1
    {
      hide Separator, Advanced;
      match node
      case Int(n) => ok := OutputI64(n);
      case Bool(b) => ok := OutputBool(b);
      case Text(s) => ok := OutputString(s);
      case Array(items) => ok := WriteArray(items);
      case Object(members) => ok := WriteObject(members);
    }

    method WriteArray(items: seq<Node>) returns (ok: bool)
      requires ValuePosition(dumpContext)
      modifies `writer, `dumpContext
      ensures ok && dumpContext == Advanced(old(dumpContext))
      ensures writer == old(writer) + (Separator(Top(old(dumpContext))) + NodeText(Array(items), quote))
      decreases items, 0
    {
      ghost var sep := Separator(Top(dumpContext));
      ok := OutputOpen('[', ListFirst);
      ghost var begun := writer;
      for i := 0 to |items|
        invariant dumpContext == old(dumpContext) + [if i == 0 then ListFirst else InList]
        invariant writer + ItemsText(items[i..], if i == 0 then "" else ",", quote) == begun + ItemsText(items, "", quote)
      {
        ghost var lead := if i == 0 then "" else ",";
        ghost var was := writer;
        assert items[i..][0] == items[i] && items[i..][1..] == items[i + 1..];
        AdvanceNested(old(dumpContext), Top(dumpContext));
        ok := WriteNode(items[i]);
        ThreeParts(was, lead, NodeText(items[i], quote), ItemsText(items[i + 1..], ",", quote));
      }
      assert items[|items|..] == [];
      assert writer + "" == writer;
      ok := OutputClose(']');
      BracketText(old(writer), sep, "[", ItemsText(items, "", quote), "]");
    }

    method WriteObject(members: seq<Member>) returns (ok: bool)
      requires ValuePosition(dumpContext)
      modifies `writer, `dumpContext
      ensures ok && dumpContext == Advanced(old(dumpContext))
      ensures writer == old(writer) + (Separator(Top(old(dumpContext))) + NodeText(Object(members), quote))
      decreases members, 0
    {
      ghost var sep := Separator(Top(dumpContext));
      ok := OutputOpen('{', ObjectFirst);
      ghost var begun := writer;
      for i := 0 to |members|
        invariant dumpContext == old(dumpContext) + [if i == 0 then ObjectFirst else NextKey]
        invariant writer + MembersText(members[i..], if i == 0 then "" else ",", quote)
               == begun + MembersText(members, "", quote)
      {
        ghost var lead := if i == 0 then "" else ",";
        ghost var was := writer;
        assert members[i..][0] == members[i] && members[i..][1..] == members[i + 1..];
        ok := WriteMember(members[i], old(dumpContext));
        ThreeParts(was, lead, quote(members[i].name) + (":" + ValueText(members[i], quote)),
                   MembersText(members[i + 1..], ",", quote));
        MemberText(members[i], members[i + 1..], quote);
      }
      assert members[|members|..] == [];
      assert writer + "" == writer;
      ok := OutputClose('}');
      BracketText(old(writer), sep, "{", MembersText(members, "", quote), "}");
    }

    /** A name and its value, each moving the context on. */
    method WriteMember(m: Member, ghost outer: Stack) returns (ok: bool)
      requires dumpContext == outer + [ObjectFirst] || dumpContext == outer + [NextKey]
      modifies `writer, `dumpContext
      ensures ok && dumpContext == outer + [NextKey]
      ensures writer == old(writer) + (Separator(Top(old(dumpContext))) + (quote(m.name) + (":" + ValueText(m, quote))))
      decreases m
    {
      AdvanceNested(outer, Top(dumpContext));
      ok := OutputString(m.name);
      AdvanceNested(outer, NextValue);
      ok := WriteNode(m.value);
      ThreeParts(old(writer), Separator(Top(old(dumpContext))), quote(m.name), ":" + ValueText(m, quote));
    }

    // reading

    method ReadNonSignificantWhitespace()
      modifies `reader
      ensures reader == SkipSpace(old(reader))
    {
      while reader != "" && Space(reader[0])
        invariant SkipSpace(reader) == SkipSpace(old(reader))
        decreases |reader|
      {
        reader := reader[1..];
      }
    }

    method ParsePreValue() returns (ok: bool)
      modifies `reader
      ensures ok == Json.ParsePreValue(old(Src())).Some?
      ensures ok ==> Src() == Json.ParsePreValue(old(Src())).value
    {
      ReadNonSignificantWhitespace();
      if parseContextStack == [] { return false; }
      if reader == "" { return true; }
      match Top(parseContextStack) {
        case InList =>
          if reader[0] == ']' { return true; }
          if reader[0] != ',' { return false; }
          reader := reader[1..];
          ReadNonSignificantWhitespace();
        case NextKey =>
          if reader[0] == '}' { return true; }
          if reader[0] != ',' { return false; }
          reader := reader[1..];
          ReadNonSignificantWhitespace();
        case NextValue =>
          if reader[0] != ':' { return false; }
          reader := reader[1..];
          ReadNonSignificantWhitespace();
        case _ =>
      }
      return true;
    }

    method ParsePostValue() returns (ok: bool)
      modifies `reader, `parseContextStack
      ensures ok == Json.ParsePostValue(old(Src())).Some?
      ensures ok ==> Src() == Json.ParsePostValue(old(Src())).value
    {
      ReadNonSignificantWhitespace();
      if parseContextStack == [] { return false; }
      var n := |parseContextStack| - 1;
      match Top(parseContextStack) {
        case ListFirst => parseContextStack := parseContextStack[..n] + [InList];
        case ObjectFirst => parseContextStack := parseContextStack[..n] + [NextValue];
        case NextKey => parseContextStack := parseContextStack[..n] + [NextValue];
        case NextValue => parseContextStack := parseContextStack[..n] + [NextKey];
        case _ => assert parseContextStack == parseContextStack[..n] + [Top(parseContextStack)];
      }
      return true;
    }

    /** The scan of a number up to the character that ends it. */
    method ReadNumeric() returns (buf: string, ok: bool)
      modifies `reader
      ensures ok == ScanNumber(old(reader), NEW_SCAN).Some?
      ensures ok ==> Scanned(buf, reader) == ScanNumber(old(reader), NEW_SCAN).value
    {
      hide ScanWord;
      var scan := NEW_SCAN;
      while reader != "" && !EndsNumber(reader[0])
        invariant ScanNumber(reader, scan) == ScanNumber(old(reader), NEW_SCAN)
        decreases |reader|
      {
        if StartsWord(reader[0]) {
          buf, ok := ReadWord(scan);
          return;
        }
        var next := ScanChar(scan, reader[0]);
        if next.None? { return "", false; }
        reader := reader[1..];
        scan := next.value;
      }
      return scan.buf, scan.buf != "";
    }

    /** NaN or Infinity, with the quote behind it if there was one in front. */
    method ReadWord(scan: Scan) returns (buf: string, ok: bool)
      requires reader != "" && StartsWord(reader[0])
      modifies `reader
      ensures ok == ScanWord(old(reader), scan).Some?
      ensures ok ==> Scanned(buf, reader) == ScanWord(old(reader), scan).value
    {
      var word := if reader[0] == 'N' then "NaN" else "Infinity";
      if scan.buf != "" && (reader[0] == 'N' || (scan.buf != "+" && scan.buf != "-")) { return "", false; }
      if !(word <= reader) { return "", false; }
      reader := reader[|word|..];
      if scan.inQuotes && reader != "" && reader[0] == '"' {
        reader := reader[1..];
      }
      return scan.buf + word, true;
    }

    method ParseI64() returns (value: int64, ok: bool)
      modifies `reader, `parseContextStack
      ensures ok == Json.ParseI64(old(Src())).Some?
      ensures ok ==> Got(value, Src()) == Json.ParseI64(old(Src())).value
    {
      hide ScanNumber, Json.ParsePreValue, Json.ParsePostValue;
      value := 0;
      ok := ParsePreValue();
      if !ok { return; }
      if "null" <= reader {
        reader := reader[4..];
      } else {
        ReadNonSignificantWhitespace();
        if "null" <= reader {
          reader := reader[4..];
        } else {
          var buf;
          buf, ok := ReadNumeric();
          if !ok { return; }
          value := IntValue(buf);
        }
      }
      ok := ParsePostValue();
    }

    method ReadBool() returns (value: bool, ok: bool)
      modifies `reader, `parseContextStack
      ensures ok == Json.ReadBool(old(Src())).Some?
      ensures ok ==> Got(value, Src()) == Json.ReadBool(old(Src())).value
    {
      hide Json.ParsePreValue, Json.ParsePostValue;
      value := false;
      ok := ParsePreValue();
      if !ok { return; }
      if reader != "" {
        if "true" <= reader {
          value, reader := true, reader[4..];
        } else if "false" <= reader {
          reader := reader[5..];
        } else if "null" <= reader {
          reader := reader[4..];
        } else {
          return false, false;
        }
      }
      ok := ParsePostValue();
    }

    method ParseListBegin() returns (isNull: bool, ok: bool)
      modifies `reader, `parseContextStack
      ensures ok == Json.ParseListBegin(old(Src())).Some?
      ensures ok ==> Got(!isNull, Src()) == Json.ParseListBegin(old(Src())).value
    {
      hide Json.ParsePreValue;
      isNull := false;
      ok := ParsePreValue();
      if !ok { return; }
      if reader == "" { return false, false; }
      if reader[0] == '[' {
        parseContextStack := parseContextStack + [ListFirst];
        reader := reader[1..];
      } else if "null" <= reader {
        isNull := true;
      } else {
        ok := false;
      }
    }

    method ParseElemListBegin() returns (begin: ElemList, ok: bool)
      modifies `reader, `parseContextStack
      ensures ok == Json.ParseElemListBegin(old(Src())).Some?
      ensures ok ==> Got(begin, Src()) == Json.ParseElemListBegin(old(Src())).value
    {
      hide Json.ParseListBegin, Json.ParseI64;
      begin := ElemList(1, 0);
      var isNull;
      isNull, ok := ParseListBegin();
      if !ok || isNull { return; }
      var elemType;
      elemType, ok := ParseI64();
      if !ok { return; }
      var size;
      size, ok := ParseI64();
      begin := ElemList(elemType % 0x100, size);
    }

    method ParseListEnd() returns (ok: bool)
      modifies `reader, `parseContextStack
      ensures ok == Json.ParseListEnd(old(Src())).Some?
      ensures ok ==> Src() == Json.ParseListEnd(old(Src())).value
    {
      hide Json.ParsePostValue;
      ReadNonSignificantWhitespace();
      if "null" <= reader {
        reader := reader[4..];
        return true;
      }
      if parseContextStack == [] || Top(parseContextStack) != InList { return false; }
      if reader == "" || reader[0] != ']' { return false; }
      reader := reader[1..];
      parseContextStack := parseContextStack[..|parseContextStack| - 1];
      if parseContextStack == [] { return false; }
      if Top(parseContextStack) == TopLevel { return true; }
      ok := ParsePostValue();
    }

    /** What a reader that knows the shape of the value does with the calls above. */
    method ReadNode(shape: Shape) returns (node: Node, ok: bool)
      modifies `reader, `parseContextStack
      ensures ok == Json.ReadNode(shape, old(Src())).Some?
      ensures ok ==> Got(node, Src()) == Json.ReadNode(shape, old(Src())).value
      decreases shape
    {
      hide Json.ParseI64, Json.ReadBool, Json.ParseElemListBegin, Json.ParseListEnd;
      match shape
      case IntShape =>
        var n;
        n, ok := ParseI64();
        node := Int(n);
      case BoolShape =>
        var b;
        b, ok := ReadBool();
        node := Bool(b);
      case ListShape(elem) =>
        node := Array([]);
        var begin;
        begin, ok := ParseElemListBegin();
        if !ok { return; }
        var n: nat := if begin.size > 0 then begin.size else 0;
        ghost var begun := Src();
        var elems: seq<Node> := [];
        ResumeEnds(Json.ReadNodes(elem, n, begun), elems);
        for i := 0 to n
          invariant Resumed(elems, Json.ReadNodes(elem, n - i, Src())) == Json.ReadNodes(elem, n, begun)
        {
          ghost var src, sofar := Src(), elems;
          var e;
          e, ok := ReadNode(elem);
          if !ok { return; }
          elems := elems + [e];
          ResumeStep(elem, n - i, src, sofar);
        }
        ResumeEnds(None, elems);
        ok := ParseListEnd();
        if ok { node := Array(Header(begin.elemType, begin.size) + elems); }
    }
  }

  /** The elements read before, in front of those still to be read. */
  function Resumed(sofar: seq<Node>, more: Option<Got<seq<Node>>>): (r: Option<Got<seq<Node>>>)
  {
    if more.None? then None else Some(Got(sofar + more.value.value, more.value.src))
  }

  lemma ResumeEnds(more: Option<Got<seq<Node>>>, sofar: seq<Node>)
    ensures Resumed([], more) == more && sofar + [] == sofar
  {
    if more.Some? { assert [] + more.value.value == more.value.value; }
  }

  lemma ResumeStep(shape: Shape, n: nat, src: Source, sofar: seq<Node>)
    requires n > 0
    ensures var first := ReadNode(shape, src);
            Resumed(sofar, ReadNodes(shape, n, src))
            == if first.None? then None
               else Resumed(sofar + [first.value.value], ReadNodes(shape, n - 1, first.value.src))
  {
    hide ReadNode;
    var first := ReadNode(shape, src);
    if first.Some? {
      var rest := ReadNodes(shape, n - 1, first.value.src);
      if rest.Some? {
        assert sofar + ([first.value.value] + rest.value.value) == sofar + [first.value.value] + rest.value.value;
      }
    }
  }

  lemma ThreeParts(a: string, b: string, c: string, d: string)
    ensures a + (b + c) + d == a + (b + (c + d))
    ensures a + b + c == a + (b + c)
  {
  }

  lemma BracketText(was: string, sep: string, open: string, inner: string, close: string)
    ensures was + (sep + open) + inner + close == was + (sep + (open + (inner + close)))
  {
  }

  lemma MemberText(m: Member, rest: seq<Member>, quote: string -> string)
    ensures quote(m.name) + (":" + ValueText(m, quote)) + MembersText(rest, ",", quote)
         == quote(m.name) + (":" + (ValueText(m, quote) + MembersText(rest, ",", quote)))
  {
  }
}
