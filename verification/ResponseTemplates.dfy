/** Parsing one response section of a script. */
module ResponseTemplates {
  import opened JavaInts
  import opened Outcomes
  import opened Lines
  import opened Text

  datatype ResponseTemplate = ResponseTemplate(code: int, headers: map<string, string>, body: string)

  datatype ParseError = NoCode | NumberFormat | BadTemplate | BadPattern

  predicate AllSpaces(s: string) {
    forall i | 0 <= i < |s| :: s[i] == ' '
  }

  /** The second of the parts of a line between single spaces, when empty parts at the end do not count. */
  function SecondPart(line: string): Option<string> {
    var i := IndexOf(line, ' ');
    if i == |line| || AllSpaces(line[i + 1..]) then None
    else Some(line[i + 1..][..IndexOf(line[i + 1..], ' ')])
  }

  function GenCode(line: string): Result<int, ParseError> {
    match SecondPart(line)
    case None => Failure(NoCode)
    case Some(part) =>
      match ParseInt(part)
      case None => Failure(NumberFormat)
      case Some(n) => Success(n)
  }

  /** The code is what stands between the first space and the next, or the end: a line has none
      if nothing but spaces follows its first space, and a reason after it does not matter. */
  lemma CodeOfAnyLine(version: string, part: string, rest: string)
    requires ' ' !in version && ' ' !in part && (rest == "" || rest[0] == ' ')
    ensures GenCode(version) == Failure(NoCode)
    ensures GenCode(version + " " + part + rest) ==
            if part == "" && AllSpaces(rest) then Failure(NoCode)
            else match ParseInt(part)
              case None => Failure(NumberFormat)
              case Some(n) => Success(n)
  {
    hide ParseInt;
    var line, tail := version + " " + part + rest, part + rest;
    IndexOfIs(version, ' ', tail);
    assert line == version + [' '] + tail;
    if rest == "" {
      assert tail == part;
      IndexOfIs(part, ' ', "");
    } else {
      assert tail == part + [' '] + rest[1..];
      IndexOfIs(part, ' ', rest[1..]);
    }
    if part != "" {
      assert tail[0] == part[0] && part[0] in part;
    } else {
      assert tail == rest;
    }
  }

  /** One header line: the name as it stands, the value without blanks around it. */
  function AddHeader(headers: map<string, string>, line: string): map<string, string> {
    var i := IndexOf(line, ':');
    if i < |line| then headers[line[..i] := Trim(line[i + 1..])] else headers
  }

  /** The position of the first empty line, or the number of lines. */
  function FirstEmpty(lines: seq<string>): (n: nat)
    ensures n <= |lines|
    ensures forall i | 0 <= i < n :: lines[i] != ""
    ensures n < |lines| ==> lines[n] == ""
  {
    if lines == [] || lines[0] == "" then 0 else 1 + FirstEmpty(lines[1..])
  }

  function AddHeaders(headers: map<string, string>, lines: seq<string>): map<string, string>
    decreases |lines|
  {
    if lines == [] then headers else AddHeaders(AddHeader(headers, lines[0]), lines[1..])
  }

  /** The lines after the first empty one. */
  function AfterEmpty(lines: seq<string>): seq<string> {
    var n := FirstEmpty(lines);
    if n < |lines| then lines[n + 1..] else []
  }

  function DropEmpty(lines: seq<string>): seq<string> {
    if lines != [] && lines[0] == "" then DropEmpty(lines[1..]) else lines
  }

  /** The body that the lines after the header area stand for. */
  function BodyOf(lines: seq<string>): string {
    Join(DropEmpty(lines))
  }

  function ParseResponse(lines: seq<string>): Result<ResponseTemplate, ParseError> {
    if lines == [] then Success(ResponseTemplate(0, map[], ""))
    else match GenCode(lines[0])
      case Failure(e) => Failure(e)
      case Success(code) =>
        var rest := lines[1..];
        Success(ResponseTemplate(code, AddHeaders(map[], rest[..FirstEmpty(rest)]), BodyOf(AfterEmpty(rest))))
  }

  /** What appending a line to the body buffer does. */
  function Appended(body: string, line: string): string {
    if body != "" then body + "\n" + line else line
  }

  /** Appending lines one by one gives their join, once the first is not empty. */
  lemma {:induction false} AppendedJoin(first: string, lines: seq<string>, line: string)
    requires first != ""
    ensures Appended(Join([first] + lines), line) == Join([first] + lines + [line])
    ensures Join([first] + lines) != ""
    decreases |lines|
  {
    var all := [first] + lines;
    assert all[1..] == lines && (all + [line])[1..] == lines + [line];
    if lines == [] {
      assert Join([line]) == line;
    } else {
      JoinSnoc(lines, line);
      assert first + "\n" + (Join(lines) + "\n" + line) == (first + "\n" + Join(lines)) + "\n" + line;
    }
  }

  lemma {:induction false} JoinSnoc(lines: seq<string>, line: string)
    requires lines != []
    ensures Join(lines + [line]) == Join(lines) + "\n" + line
  {
    assert (lines + [line])[1..] == lines[1..] + [line];
    if |lines| > 1 {
      JoinSnoc(lines[1..], line);
    } else {
      assert lines[1..] + [line] == [line];
    }
  }

  lemma {:induction false} BodyOfSnoc(lines: seq<string>, line: string)
    ensures BodyOf(lines + [line]) == Appended(BodyOf(lines), line)
  {
    if lines == [] {
      assert [] + [line] == [line];
      assert DropEmpty([line]) == if line == "" then [] else [line];
    } else if lines[0] == "" {
      BodyOfSnoc(lines[1..], line);
      assert (lines + [line])[1..] == lines[1..] + [line];
    } else {
      AppendedJoin(lines[0], lines[1..], line);
      assert [lines[0]] + lines[1..] == lines;
    }
  }

  method Init(content: string) returns (r: Result<ResponseTemplate, ParseError>)
    ensures r == ParseResponse(ReadLines(content))
  {
    hide HeadersSoFar, GenCode, AddHeader, AddHeaders, BodyOf, AfterEmpty, FirstEmpty, ReadLine;
    var lineNum := 1;
    var code := 0;
    var headers: map<string, string> := map[];
    var sb: Option<string> := None;
    var rest := content;
    ghost var lines := ReadLines(content);
    ghost var k := 0;
    while rest != ""
      invariant 0 <= k <= |lines| && lines[k..] == ReadLines(rest) && lineNum == k + 1
      invariant k > 0 ==> GenCode(lines[0]) == Success(code)
      invariant k == 0 ==> code == 0 && headers == map[] && sb == None
      invariant k > 0 ==> HeadersSoFar(lines[1..], k - 1, headers, sb)
      decreases |rest|
    {
      var (line, next) := ReadLine(rest);
      assert lines[k..][0] == line && lines[k + 1..] == lines[k..][1..] == ReadLines(next);
      if lineNum == 1 {
        var c := GenCode(line);
        if c.Failure? {
          return Failure(c.error);
        }
        code := c.value;
        NothingRead(lines[1..]);
      } else {
        StepRead(lines[1..], k - 1, headers, sb);
        assert lines[1..][k - 1] == line;
        if sb.None? {
          headers := AddHeader(headers, line);
          if line == "" {
            sb := Some("");
          }
        } else {
          sb := Some(Appended(sb.value, line));
        }
      }
      lineNum := lineNum + 1;
      rest := next;
      k := k + 1;
    }
    assert k == |lines|;
    if k > 0 {
      AllRead(lines[1..], headers, sb);
    }
    var body := if sb.Some? then sb.value else "";
    return Success(ResponseTemplate(code, headers, body));
  }

  /** The state of the parser after reading n of the lines that follow the first one. */
  ghost predicate HeadersSoFar(lines: seq<string>, n: nat, headers: map<string, string>, sb: Option<string>) {
    && n <= |lines|
    && var e := FirstEmpty(lines);
       if n <= e then sb == None && headers == AddHeaders(map[], lines[..n])
       else sb == Some(BodyOf(lines[e + 1..n])) && headers == AddHeaders(map[], lines[..e])
  }

  lemma NothingRead(lines: seq<string>)
    ensures HeadersSoFar(lines, 0, map[], None)
  {
  }

  lemma {:induction false} AddHeadersSnoc(headers: map<string, string>, lines: seq<string>, line: string)
    ensures AddHeaders(headers, lines + [line]) == AddHeader(AddHeaders(headers, lines), line)
    decreases |lines|
  {
    if lines != [] {
      AddHeadersSnoc(AddHeader(headers, lines[0]), lines[1..], line);
      assert (lines + [line])[1..] == lines[1..] + [line];
    }
  }

  lemma StepRead(lines: seq<string>, n: nat, headers: map<string, string>, sb: Option<string>)
    requires n < |lines| && HeadersSoFar(lines, n, headers, sb)
    ensures sb.None? && lines[n] != "" ==> HeadersSoFar(lines, n + 1, AddHeader(headers, lines[n]), None)
    ensures sb.None? && lines[n] == "" ==> HeadersSoFar(lines, n + 1, AddHeader(headers, lines[n]), Some(""))
    ensures sb.Some? ==> HeadersSoFar(lines, n + 1, headers, Some(Appended(sb.value, lines[n])))
  {
    var e := FirstEmpty(lines);
    if n < e {
      assert lines[..n + 1] == lines[..n] + [lines[n]];
      AddHeadersSnoc(map[], lines[..n], lines[n]);
    } else if n == e {
      assert lines[e + 1..n + 1] == [];
      assert IndexOf("", ':') == 0;
    } else {
      assert lines[e + 1..n + 1] == lines[e + 1..n] + [lines[n]];
      BodyOfSnoc(lines[e + 1..n], lines[n]);
    }
  }

  lemma NoBody()
    ensures BodyOf([]) == ""
  {
  }

  lemma AllRead(lines: seq<string>, headers: map<string, string>, sb: Option<string>)
    requires HeadersSoFar(lines, |lines|, headers, sb)
    ensures headers == AddHeaders(map[], lines[..FirstEmpty(lines)])
    ensures BodyOf(AfterEmpty(lines)) == if sb.Some? then sb.value else ""
  {
    hide AddHeaders, BodyOf, FirstEmpty;
    NoBody();
    var e := FirstEmpty(lines);
    if e < |lines| {
      assert lines[e + 1..|lines|] == lines[e + 1..];
    }
  }

  // ---------- printing ----------

  datatype Header = Header(name: string, value: string)

  predicate PrintableHeader(h: Header) {
    ':' !in h.name && Trimmed(h.value) && OneLine(h.name) && OneLine(h.value)
  }

  predicate AreLines(body: seq<string>) {
    forall line | line in body :: OneLine(line)
  }

  /** The lines of a printed body that parsing keeps: all but one empty line at the end and
      the empty lines at the front. */
  function Kept(body: seq<string>): seq<string> {
    DropEmpty(WithoutEmptyEnd(body))
  }

  function WithoutEmptyEnd(body: seq<string>): seq<string> {
    if body != [] && body[|body| - 1] == "" then body[..|body| - 1] else body
  }

  /** No empty line at either end of several. */
  predicate Unpadded(body: seq<string>) {
    |body| <= 1 || (body[0] != "" && body[|body| - 1] != "")
  }

  function TotalLength(lines: seq<string>): nat {
    if lines == [] then 0 else |lines[0]| + TotalLength(lines[1..])
  }

  lemma {:induction false} JoinLength(lines: seq<string>)
    ensures |Join(lines)| == if lines == [] then 0 else TotalLength(lines) + |lines| - 1
  {
    if lines != [] {
      JoinLength(lines[1..]);
      if |lines| == 1 {
        assert TotalLength(lines[1..]) == 0;
      }
    }
  }

  lemma {:induction false} DropEmptyLength(lines: seq<string>)
    ensures TotalLength(DropEmpty(lines)) == TotalLength(lines) && |DropEmpty(lines)| <= |lines|
    ensures lines != [] && lines[0] == "" ==> |DropEmpty(lines)| < |lines|
  {
    if lines != [] && lines[0] == "" {
      DropEmptyLength(lines[1..]);
    }
  }

  lemma {:induction false} TotalLengthSnoc(lines: seq<string>, line: string)
    ensures TotalLength(lines + [line]) == TotalLength(lines) + |line|
  {
    if lines == [] {
      assert [] + [line] == [line] && [line][1..] == [];
    } else {
      TotalLengthSnoc(lines[1..], line);
      assert (lines + [line])[1..] == lines[1..] + [line];
    }
  }

  lemma KeptLength(body: seq<string>)
    ensures TotalLength(Kept(body)) == TotalLength(WithoutEmptyEnd(body)) == TotalLength(body)
    ensures |Kept(body)| <= |WithoutEmptyEnd(body)| <= |body|
    ensures |body| > 1 && !Unpadded(body) ==> |Kept(body)| < |body|
  {
    if WithoutEmptyEnd(body) != body {
      assert body == WithoutEmptyEnd(body) + [""];
      TotalLengthSnoc(WithoutEmptyEnd(body), "");
    }
    DropEmptyLength(WithoutEmptyEnd(body));
  }

  /** What parsing keeps of a body is the text of the body exactly if it is not padded. */
  lemma KeptIsBodyIff(body: seq<string>)
    ensures Join(Kept(body)) == Join(body) <==> Unpadded(body)
  {
    hide Join;
    KeptLength(body);
    JoinLength(body);
    JoinLength(Kept(body));
    if Unpadded(body) {
      KeptUnpadded(body);
    }
  }

  lemma KeptUnpadded(body: seq<string>)
    requires Unpadded(body)
    ensures Join(Kept(body)) == Join(body)
    ensures body != [""] ==> Kept(body) == body
  {
  }

  function HeaderLines(headers: seq<Header>): seq<string> {
    seq(|headers|, i requires 0 <= i < |headers| => headers[i].name + ": " + headers[i].value)
  }

  function HeaderMap(headers: seq<Header>): map<string, string> {
    if headers == [] then map[] else HeaderMap(headers[..|headers| - 1])[headers[|headers| - 1].name := headers[|headers| - 1].value]
  }

  function PrintResponse(version: string, code: int, reason: string, headers: seq<Header>, body: seq<string>): seq<string> {
    [version + " " + ShowInt(code) + " " + reason] + HeaderLines(headers) + [""] + body
  }

  lemma CodeOfPrinted(version: string, code: int, reason: string)
    requires ' ' !in version && MIN_INT <= code <= MAX_INT
    ensures GenCode(version + " " + ShowInt(code) + " " + reason) == Success(code)
  {
    var tail := ShowInt(code) + " " + reason;
    var line := version + " " + ShowInt(code) + " " + reason;
    assert line == version + [' '] + tail;
    IndexOfIs(version, ' ', tail);
    ShownChars(code);
    assert tail[0] == ShowInt(code)[0] && tail[0] in tail;
    assert tail == ShowInt(code) + [' '] + reason;
    IndexOfIs(ShowInt(code), ' ', reason);
    ParseShown(code);
  }

  /** A line with a colon sets the header before the first one to what follows it, without
      the blanks around that; any other line is ignored. */
  lemma HeaderOfAnyLine(headers: map<string, string>, name: string, before: string, value: string, after: string)
    requires ':' !in name && AllBlank(before) && AllBlank(after) && Trimmed(value)
    ensures AddHeader(headers, name) == headers
    ensures AddHeader(headers, name + ":" + before + value + after) == headers[name := value]
  {
    hide Trimmed, AllBlank;
    var tail := before + value + after;
    assert name + ":" + before + value + after == name + [':'] + tail;
    IndexOfIs(name, ':', tail);
    TrimAround(before, value, after);
  }

  lemma HeaderLineAdds(headers: map<string, string>, h: Header)
    requires PrintableHeader(h)
    ensures AddHeader(headers, h.name + ": " + h.value) == headers[h.name := h.value]
    ensures h.name + ": " + h.value != ""
  {
    assert h.name + ": " + h.value == h.name + [':'] + (" " + h.value);
    IndexOfIs(h.name, ':', " " + h.value);
    TrimIsIdentity(h.value);
  }

  lemma {:induction false} HeadersReadBack(headers: seq<Header>)
    requires forall h | h in headers :: PrintableHeader(h)
    ensures AddHeaders(map[], HeaderLines(headers)) == HeaderMap(headers)
  {
    if headers != [] {
      var n := |headers| - 1;
      HeadersReadBack(headers[..n]);
      var h := headers[n];
      assert HeaderLines(headers) == HeaderLines(headers[..n]) + [h.name + ": " + h.value];
      AddHeadersSnoc(map[], HeaderLines(headers[..n]), h.name + ": " + h.value);
      HeaderLineAdds(HeaderMap(headers[..n]), h);
    }
  }

  lemma {:induction false} FirstEmptyIs(lines: seq<string>, rest: seq<string>)
    requires forall i | 0 <= i < |lines| :: lines[i] != ""
    ensures FirstEmpty(lines + [""] + rest) == |lines|
    ensures FirstEmpty(lines) == |lines|
  {
    if lines != [] {
      FirstEmptyIs(lines[1..], rest);
      assert (lines + [""] + rest)[1..] == lines[1..] + [""] + rest;
    }
  }

  lemma HeaderLinesNotEmpty(headers: seq<Header>)
    ensures forall i | 0 <= i < |HeaderLines(headers)| :: HeaderLines(headers)[i] != ""
  {
    forall i | 0 <= i < |HeaderLines(headers)|
      ensures HeaderLines(headers)[i] != ""
    {
      assert |headers[i].name + ": "| >= 2;
    }
  }

  lemma ParsedFrom(lines: seq<string>, code: int, n: nat)
    requires lines != [] && GenCode(lines[0]) == Success(code) && n == FirstEmpty(lines[1..])
    ensures ParseResponse(lines)
            == Success(ResponseTemplate(code, AddHeaders(map[], lines[1..][..n]), BodyOf(AfterEmpty(lines[1..]))))
  {
  }

  lemma PrintedResponseShape(version: string, code: int, reason: string, headers: seq<Header>, body: seq<string>)
    requires forall h | h in headers :: PrintableHeader(h)
    ensures var lines := PrintResponse(version, code, reason, headers, body);
            && lines != [] && lines[0] == version + " " + ShowInt(code) + " " + reason
            && FirstEmpty(lines[1..]) == |headers| && lines[1..][..|headers|] == HeaderLines(headers)
            && AfterEmpty(lines[1..]) == body
  {
    hide ShowInt, HeaderLines, PrintableHeader;
    HeaderLinesNotEmpty(headers);
    LinesCount(headers);
    FirstEmptyIs(HeaderLines(headers), body);
    var lines := PrintResponse(version, code, reason, headers, body);
    var rest := HeaderLines(headers) + [""] + body;
    assert lines[1..] == rest;
    assert rest[..|headers|] == HeaderLines(headers) && rest[|headers| + 1..] == body;
  }

  /** Parsing the lines of a printed response gives back its code, headers and body. */
  lemma ParsePrintedLines(version: string, code: int, reason: string, headers: seq<Header>, body: seq<string>)
    requires ' ' !in version && MIN_INT <= code <= MAX_INT
    requires forall h | h in headers :: PrintableHeader(h)
    ensures ParseResponse(PrintResponse(version, code, reason, headers, body))
            == Success(ResponseTemplate(code, HeaderMap(headers), BodyOf(body)))
  {
    hide GenCode, ShowInt, ParseResponse, PrintResponse, HeaderMap, PrintableHeader, AddHeaders, HeaderLines, BodyOf;
    CodeOfPrinted(version, code, reason);
    HeadersReadBack(headers);
    PrintedResponseShape(version, code, reason, headers, body);
    ParsedFrom(PrintResponse(version, code, reason, headers, body), code, |headers|);
  }

  /** The same without the empty line that no body follows. */
  lemma ParsePrintedHeaders(version: string, code: int, reason: string, headers: seq<Header>)
    requires ' ' !in version && MIN_INT <= code <= MAX_INT
    requires forall h | h in headers :: PrintableHeader(h)
    ensures ParseResponse(PrintResponse(version, code, reason, headers, [])[..1 + |headers|])
            == Success(ResponseTemplate(code, HeaderMap(headers), ""))
  {
    hide GenCode, ShowInt, ParseResponse, PrintResponse, HeaderMap, PrintableHeader, AddHeaders, HeaderLines, BodyOf;
    CodeOfPrinted(version, code, reason);
    HeadersReadBack(headers);
    PrintedHeadersShape(version, code, reason, headers);
    NoBody();
    ParsedFrom(PrintResponse(version, code, reason, headers, [])[..1 + |headers|], code, |headers|);
  }

  lemma PrintedHeadersShape(version: string, code: int, reason: string, headers: seq<Header>)
    requires forall h | h in headers :: PrintableHeader(h)
    ensures |PrintResponse(version, code, reason, headers, [])| >= 1 + |headers|
    ensures var lines := PrintResponse(version, code, reason, headers, [])[..1 + |headers|];
            && lines != [] && lines[0] == version + " " + ShowInt(code) + " " + reason
            && FirstEmpty(lines[1..]) == |headers| && lines[1..][..|headers|] == HeaderLines(headers)
            && AfterEmpty(lines[1..]) == []
  {
    hide ShowInt, HeaderLines, PrintableHeader;
    HeaderLinesNotEmpty(headers);
    LinesCount(headers);
    FirstEmptyIs(HeaderLines(headers), []);
    var status := version + " " + ShowInt(code) + " " + reason;
    var lines := PrintResponse(version, code, reason, headers, [])[..1 + |headers|];
    assert lines == [status] + HeaderLines(headers);
    assert lines[1..] == HeaderLines(headers) && lines[1..][..|headers|] == HeaderLines(headers);
  }

  lemma PrintedEnd(version: string, code: int, reason: string, headers: seq<Header>, body: seq<string>)
    ensures var lines := PrintResponse(version, code, reason, headers, body);
            && |lines| == 2 + |headers| + |body|
            && lines[|lines| - 1] == if body == [] then "" else body[|body| - 1]
  {
    hide ShowInt;
    LinesCount(headers);
  }

  lemma PrintedShorter(version: string, code: int, reason: string, headers: seq<Header>, body: seq<string>)
    requires body != []
    ensures var lines := PrintResponse(version, code, reason, headers, body);
            lines[..|lines| - 1] == PrintResponse(version, code, reason, headers, body[..|body| - 1])
  {
    hide ShowInt, HeaderLines;
  }

  /** A printed response, joined into one text as the script loader does, parses back: its code
      and headers, and the body without padding, which is the whole body exactly if it had none. */
  lemma ParsePrinted(version: string, code: int, reason: string, headers: seq<Header>, body: seq<string>)
    requires ' ' !in version && OneLine(version) && OneLine(reason) && MIN_INT <= code <= MAX_INT
    requires (forall h | h in headers :: PrintableHeader(h)) && AreLines(body)
    ensures ParseResponse(ReadLines(Join(PrintResponse(version, code, reason, headers, body))))
            == Success(ResponseTemplate(code, HeaderMap(headers), Join(Kept(body))))
    ensures Join(Kept(body)) == Join(body) <==> Unpadded(body)
  {
    hide ParseResponse, PrintResponse, ShowInt, HeaderMap, PrintableHeader, Join, DropEmpty, ReadLines, Unpadded;
    KeptIsBodyIff(body);
    PrintedReadBack(version, code, reason, headers, body);
    if body == [] {
      ParsePrintedHeaders(version, code, reason, headers);
      JoinNothing();
    } else {
      ParsePrintedLines(version, code, reason, headers, WithoutEmptyEnd(body));
    }
  }

  /** The lines that are read of a printed response. */
  lemma PrintedReadBack(version: string, code: int, reason: string, headers: seq<Header>, body: seq<string>)
    requires OneLine(version) && OneLine(reason)
    requires (forall h | h in headers :: PrintableHeader(h)) && AreLines(body)
    ensures ReadLines(Join(PrintResponse(version, code, reason, headers, body))) ==
            if body == [] then PrintResponse(version, code, reason, headers, [])[..1 + |headers|]
            else PrintResponse(version, code, reason, headers, WithoutEmptyEnd(body))
  {
    hide PrintResponse, ReadLines, Join, PrintableHeader;
    PrintedAreLines(version, code, reason, headers, body);
    var lines := PrintResponse(version, code, reason, headers, body);
    ReadJoined(lines);
    PrintedEnd(version, code, reason, headers, body);
    if body != [] {
      PrintedShorter(version, code, reason, headers, body);
    }
  }

  lemma JoinNothing()
    ensures Join([]) == "" && DropEmpty([]) == []
  {
  }

  lemma LinesCount(headers: seq<Header>)
    ensures |HeaderLines(headers)| == |headers|
  {
  }

  lemma PrintedAreLines(version: string, code: int, reason: string, headers: seq<Header>, body: seq<string>)
    requires OneLine(version) && OneLine(reason)
    requires (forall h | h in headers :: PrintableHeader(h)) && AreLines(body)
    ensures forall line | line in PrintResponse(version, code, reason, headers, body) :: OneLine(line)
  {
    hide ShowInt;
    ShownOneLine(code);
    forall line | line in HeaderLines(headers)
      ensures OneLine(line)
    {
      var i :| 0 <= i < |headers| && line == HeaderLines(headers)[i];
      assert PrintableHeader(headers[i]);
    }
  }

  lemma ShownOneLine(n: int)
    ensures OneLine(ShowInt(n))
  {
  }

  /** Line n is the first empty one after the first line, and line start the first that is
      not empty after it. */
  predicate BodyStarts(lines: seq<string>, n: nat, start: nat) {
    && 1 <= n < start <= |lines| && lines[n] == ""
    && (forall i | 1 <= i < n :: lines[i] != "")
    && (forall i | n < i < start :: lines[i] == "")
    && (start < |lines| ==> lines[start] != "")
  }

  predicate NoEmptyLine(lines: seq<string>) {
    forall i | 1 <= i < |lines| :: lines[i] != ""
  }

  lemma HeaderAreaEnds(lines: seq<string>) returns (n: nat)
    requires lines != [] && FirstEmpty(lines[1..]) < |lines| - 1
    ensures 1 <= n < |lines| && lines[n] == "" && AfterEmpty(lines[1..]) == lines[n + 1..]
    ensures forall i | 1 <= i < n :: lines[i] != ""
  {
    hide FirstEmpty;
    n := FirstEmpty(lines[1..]) + 1;
    assert lines[n] == lines[1..][n - 1];
    assert forall i | 1 <= i < n :: lines[i] == lines[1..][i - 1];
    assert lines[1..][n..] == lines[n + 1..];
  }

  /** The lines from m on without the empty ones at their front. */
  lemma {:induction false} DropEmptyFrom(lines: seq<string>, m: nat) returns (start: nat)
    requires m <= |lines|
    ensures m <= start <= |lines| && DropEmpty(lines[m..]) == lines[start..]
    ensures forall i | m <= i < start :: lines[i] == ""
    ensures start < |lines| ==> lines[start] != ""
    decreases |lines| - m
  {
    start := m;
    if m < |lines| && lines[m] == "" {
      assert lines[m..][1..] == lines[m + 1..];
      start := DropEmptyFrom(lines, m + 1);
    }
  }

  /** Where the body of lines with an empty line after the first one starts. */
  lemma BodyStart(lines: seq<string>) returns (n: nat, start: nat)
    requires lines != [] && FirstEmpty(lines[1..]) < |lines| - 1
    ensures BodyStarts(lines, n, start)
    ensures DropEmpty(AfterEmpty(lines[1..])) == lines[start..]
  {
    hide DropEmpty, FirstEmpty;
    n := HeaderAreaEnds(lines);
    start := DropEmptyFrom(lines, n + 1);
  }

  lemma BodyPosition(lines: seq<string>)
    requires lines != []
    ensures NoEmptyLine(lines) ==> BodyOf(AfterEmpty(lines[1..])) == ""
    ensures !NoEmptyLine(lines) ==> exists n: nat, start: nat :: BodyStarts(lines, n, start)
    ensures forall n: nat, start: nat | BodyStarts(lines, n, start) :: BodyOf(AfterEmpty(lines[1..])) == Join(lines[start..])
  {
    hide DropEmpty, FirstEmpty, Join;
    var e := FirstEmpty(lines[1..]);
    if e < |lines| - 1 {
      assert lines[1 + e] == lines[1..][e];
      var m, begin := BodyStart(lines);
      forall n: nat, start: nat | BodyStarts(lines, n, start)
        ensures BodyOf(AfterEmpty(lines[1..])) == Join(lines[start..])
      {
        BodyStartsOnce(lines, n, start, m, begin);
      }
    } else {
      NoBody();
      assert forall i | 1 <= i < |lines| :: lines[i] == lines[1..][i - 1];
    }
  }

  lemma BodyStartsOnce(lines: seq<string>, n: nat, start: nat, m: nat, begin: nat)
    requires BodyStarts(lines, n, start) && BodyStarts(lines, m, begin)
    ensures n == m && start == begin
  {
    assert lines[n] == "" && lines[m] == "";
    assert start < |lines| ==> lines[start] != "";
    assert begin < |lines| ==> lines[begin] != "";
  }

  /** For any text that parses: the body is the join of the lines from the first that is not
      empty after the first empty line of the header area, and empty if there is none. */
  lemma BodyOfAnyInput(content: string, t: ResponseTemplate)
    requires ParseResponse(ReadLines(content)) == Success(t) && content != ""
    ensures var lines := ReadLines(content);
            && (NoEmptyLine(lines) ==> t.body == "")
            && (!NoEmptyLine(lines) ==> exists n: nat, start: nat :: BodyStarts(lines, n, start))
            && forall n: nat, start: nat | BodyStarts(lines, n, start) :: t.body == Join(lines[start..])
  {
    BodyPosition(ReadLines(content));
  }

  // ---------- any response section ----------

  /** The header area: the lines after the first one, up to an empty one. */
  predicate HeaderArea(lines: seq<string>, n: nat) {
    && 1 <= n <= |lines| && (forall i | 1 <= i < n :: lines[i] != "") && (n < |lines| ==> lines[n] == "")
  }

  lemma HeaderAreaIs(lines: seq<string>, n: nat)
    requires HeaderArea(lines, n)
    ensures lines[1..][..FirstEmpty(lines[1..])] == lines[1..n]
  {
    hide FirstEmpty;
    var e := FirstEmpty(lines[1..]);
    assert e < |lines| - 1 ==> lines[1 + e] == lines[1..][e];
    assert n < |lines| ==> lines[n] == lines[1..][n - 1];
  }

  /** The lines with a colon; the others are ignored. */
  function ColonLines(lines: seq<string>): seq<string> {
    if lines == [] then []
    else (if ':' in lines[0] then [lines[0]] else []) + ColonLines(lines[1..])
  }

  lemma FirstColon(line: string, j: nat)
    requires j < |line| && line[j] == ':' && ':' !in line[..j]
    ensures j == IndexOf(line, ':')
  {
    var i := IndexOf(line, ':');
    assert forall k | 0 <= k < j :: line[..j][k] == line[k];
    assert forall k | 0 <= k < i :: line[..i][k] == line[k];
  }

  /** The line of a header: its name before the first colon, and its value after it with blanks around. */
  predicate IsHeaderLine(line: string, h: Header) {
    exists i | 0 <= i < |line| :: line[i] == ':' && ':' !in line[..i] && h.name == line[..i] && h.value == Trim(line[i + 1..])
  }

  ghost predicate HeadersOfLines(lines: seq<string>, headers: seq<Header>) {
    && |headers| == |ColonLines(lines)|
    && forall i | 0 <= i < |headers| :: IsHeaderLine(ColonLines(lines)[i], headers[i])
  }

  lemma {:induction false} ColonLinesSnoc(lines: seq<string>, line: string)
    ensures ColonLines(lines + [line]) == ColonLines(lines) + if ':' in line then [line] else []
  {
    if lines == [] {
      assert [] + [line] == [line];
    } else {
      assert (lines + [line])[1..] == lines[1..] + [line];
      ColonLinesSnoc(lines[1..], line);
    }
  }

  lemma HeaderOfLine(headers: map<string, string>, line: string) returns (h: Header)
    ensures if ':' in line then IsHeaderLine(line, h) && AddHeader(headers, line) == headers[h.name := h.value]
            else AddHeader(headers, line) == headers
  {
    hide Trim;
    var i := IndexOf(line, ':');
    h := Header("", "");
    if i < |line| {
      h := Header(line[..i], Trim(line[i + 1..]));
      assert IsHeaderLine(line, h);
    }
  }

  lemma {:induction false} HeadersOfAnyLines(lines: seq<string>) returns (headers: seq<Header>)
    ensures HeadersOfLines(lines, headers) && AddHeaders(map[], lines) == HeaderMap(headers)
  {
    hide AddHeader, IsHeaderLine, ColonLines;
    if lines == [] {
      headers := [];
      NoColonLines();
    } else {
      var n := |lines| - 1;
      var front := HeadersOfAnyLines(lines[..n]);
      var h := HeaderOfLine(HeaderMap(front), lines[n]);
      assert lines == lines[..n] + [lines[n]];
      ColonLinesSnoc(lines[..n], lines[n]);
      AddHeadersSnoc(map[], lines[..n], lines[n]);
      headers := if ':' in lines[n] then front + [h] else front;
    }
  }

  lemma NoColonLines()
    ensures ColonLines([]) == [] && AddHeaders(map[], []) == map[]
  {
  }

  /** What any response section is read as: the code of its first line and the headers of its
      header area, of which the last of a name counts; it fails exactly if there is no code. */
  lemma ResponseOfAnyLines(lines: seq<string>, n: nat)
    requires HeaderArea(lines, n)
    ensures match ParseResponse(lines)
            case Success(t) =>
              && GenCode(lines[0]) == Success(t.code)
              && exists headers :: HeadersOfLines(lines[1..n], headers) && t.headers == HeaderMap(headers)
            case Failure(e) => GenCode(lines[0]) == Failure(e)
  {
    hide GenCode, AddHeaders, BodyOf, AfterEmpty, FirstEmpty, HeadersOfLines, HeaderMap;
    HeaderAreaIs(lines, n);
    var headers := HeadersOfAnyLines(lines[1..n]);
  }
}
