/** Parsing the request section of a script. */
module RequestTemplates {
  import opened Outcomes
  import opened Lines
  import opened Text
  import opened Tokenizer
  import opened Template
  import opened ResponseTemplates

  const HEADER_AUTHENTICATION: string := "Authentication"

  /** A text compiled as a reverse template. */
  datatype Compiled = Compiled(text: string, tokens: seq<seq<Token>>)

  datatype TopLine = Regex(pattern: string) | Reverse(template: Compiled)

  datatype HeaderItem = HeaderItem(name: string, value: string, optional: bool, template: Compiled)

  datatype RequestTemplate = RequestTemplate(
    topLine: Option<TopLine>,
    headers: map<string, HeaderItem>,
    authentication: Option<HeaderItem>,
    extra: map<string, HeaderItem>,
    body: Option<string>)

  function CompileText(text: string): (r: Result<Compiled, ParseError>)
    ensures r.Success? ==> r.value.text == text && Compile(ReadLines(text)) == Success(r.value.tokens)
  {
    match Compile(ReadLines(text))
    case Success(tokens) => Success(Compiled(text, tokens))
    case Failure(_) => Failure(BadTemplate)
  }

  /** A line between slashes is a pattern, if it compiles; a single slash is neither and cannot be read. */
  function ParseTop(compiles: string -> bool, line: string): Result<TopLine, ParseError> {
    var text := Trim(line);
    if text != "" && text[0] == '/' && text[|text| - 1] == '/' then
      if |text| == 1 then Failure(BadTemplate)
      else if !compiles(text[1..|text| - 1]) then Failure(BadPattern)
      else Success(Regex(text[1..|text| - 1]))
    else match CompileText(text)
      case Success(c) => Success(Reverse(c))
      case Failure(e) => Failure(e)
  }

  /** Name and value around the first colon, without blanks around them. */
  function ParseProperty(line: string): Option<(string, string)> {
    var i := IndexOf(line, ':');
    if i < |line| then Some((Trim(line[..i]), Trim(line[i + 1..]))) else None
  }

  function MakeItem(prop: (string, string)): Result<HeaderItem, ParseError> {
    var optional := prop.0 != "" && prop.0[0] == '*';
    var name := if optional then prop.0[1..] else prop.0;
    match CompileText(name + ": " + prop.1)
    case Success(c) => Success(HeaderItem(name, prop.1, optional, c))
    case Failure(e) => Failure(e)
  }

  /** Files an item: authentication, internal names and other headers are kept apart. */
  function AddItem(t: RequestTemplate, item: HeaderItem): RequestTemplate {
    if item.name == HEADER_AUTHENTICATION then t.(authentication := Some(item))
    else if item.name != "" && item.name[0] == '_' then t.(extra := t.extra[item.name := item])
    else t.(headers := t.headers[item.name := item])
  }

  function AddItemLine(t: RequestTemplate, line: string): Result<RequestTemplate, ParseError> {
    match ParseProperty(line)
    case None => Success(t)
    case Some(prop) =>
      match MakeItem(prop)
      case Success(item) => Success(AddItem(t, item))
      case Failure(e) => Failure(e)
  }

  function AddItemLines(t: RequestTemplate, lines: seq<string>): Result<RequestTemplate, ParseError>
    decreases |lines|
  {
    if lines == [] then Success(t)
    else match AddItemLine(t, lines[0])
      case Success(next) => AddItemLines(next, lines[1..])
      case Failure(e) => Failure(e)
  }

  const BLANK := RequestTemplate(None, map[], None, map[], None)

  function NonEmpty(body: string): Option<string> {
    if body == "" then None else Some(body)
  }

  function ParseRequest(compiles: string -> bool, lines: seq<string>): Result<RequestTemplate, ParseError> {
    if lines == [] then Success(BLANK)
    else match ParseTop(compiles, lines[0])
      case Failure(e) => Failure(e)
      case Success(top) =>
        var rest := lines[1..];
        match AddItemLines(BLANK.(topLine := Some(top)), rest[..FirstEmpty(rest)])
        case Failure(e) => Failure(e)
        case Success(t) => Success(t.(body := NonEmpty(BodyOf(AfterEmpty(rest)))))
  }

  // ---------- reading line by line ----------

  /** The state after reading n of the lines that follow the first one. */
  ghost predicate ItemsSoFar(start: RequestTemplate, lines: seq<string>, n: nat, t: RequestTemplate, sb: Option<string>) {
    && n <= |lines|
    && var e := FirstEmpty(lines);
       if n <= e then sb == None && AddItemLines(start, lines[..n]) == Success(t)
       else sb == Some(BodyOf(lines[e + 1..n])) && AddItemLines(start, lines[..e]) == Success(t)
  }

  lemma NothingRead(start: RequestTemplate, lines: seq<string>)
    ensures ItemsSoFar(start, lines, 0, start, None)
  {
  }

  lemma {:induction false} AddItemLinesSplit(t: RequestTemplate, lines: seq<string>, more: seq<string>)
    ensures AddItemLines(t, lines + more) ==
            match AddItemLines(t, lines)
            case Success(next) => AddItemLines(next, more)
            case Failure(e) => Failure(e)
    decreases |lines|
  {
    if lines == [] {
      assert lines + more == more;
    } else {
      assert (lines + more)[0] == lines[0] && (lines + more)[1..] == lines[1..] + more;
      if AddItemLine(t, lines[0]).Success? {
        AddItemLinesSplit(AddItemLine(t, lines[0]).value, lines[1..], more);
      }
    }
  }

  lemma OneItemLine(t: RequestTemplate, line: string)
    ensures AddItemLines(t, [line]) == AddItemLine(t, line)
  {
  }

  lemma StepItem(start: RequestTemplate, lines: seq<string>, n: nat, t: RequestTemplate)
    requires n < |lines| && ItemsSoFar(start, lines, n, t, None)
    ensures AddItemLine(t, lines[n]).Success? && lines[n] != "" ==>
              ItemsSoFar(start, lines, n + 1, AddItemLine(t, lines[n]).value, None)
    ensures lines[n] == "" ==>
              AddItemLine(t, lines[n]) == Success(t) && ItemsSoFar(start, lines, n + 1, t, Some(""))
    ensures AddItemLine(t, lines[n]).Failure? ==>
              AddItemLines(start, lines[..FirstEmpty(lines)]) == Failure(AddItemLine(t, lines[n]).error)
  {
    hide AddItemLine, CompileText;
    var e := FirstEmpty(lines);
    assert lines[..n + 1] == lines[..n] + [lines[n]];
    AddItemLinesSplit(start, lines[..n], [lines[n]]);
    OneItemLine(t, lines[n]);
    if n < e {
      assert lines[..e] == lines[..n + 1] + lines[n + 1..e];
      AddItemLinesSplit(start, lines[..n + 1], lines[n + 1..e]);
    } else {
      EmptyLineAdds(t);
      assert lines[e + 1..n + 1] == [];
    }
  }

  lemma EmptyLineAdds(t: RequestTemplate)
    ensures AddItemLine(t, "") == Success(t)
    ensures BodyOf([]) == ""
  {
    NoBody();
  }

  lemma StepBody(start: RequestTemplate, lines: seq<string>, n: nat, t: RequestTemplate, body: string)
    requires n < |lines| && ItemsSoFar(start, lines, n, t, Some(body))
    ensures ItemsSoFar(start, lines, n + 1, t, Some(Appended(body, lines[n])))
  {
    hide AddItemLines, BodyOf, Appended;
    var e := FirstEmpty(lines);
    assert lines[e + 1..n + 1] == lines[e + 1..n] + [lines[n]];
    BodyOfSnoc(lines[e + 1..n], lines[n]);
  }

  lemma AllRead(start: RequestTemplate, lines: seq<string>, t: RequestTemplate, sb: Option<string>)
    requires ItemsSoFar(start, lines, |lines|, t, sb)
    ensures AddItemLines(start, lines[..FirstEmpty(lines)]) == Success(t)
    ensures BodyOf(AfterEmpty(lines)) == if sb.Some? then sb.value else ""
  {
    hide AddItemLines;
    var e := FirstEmpty(lines);
    if e < |lines| {
      assert lines[e + 1..|lines|] == lines[e + 1..];
    }
  }

  method Init(compiles: string -> bool, content: string) returns (r: Result<RequestTemplate, ParseError>)
    ensures r == ParseRequest(compiles, ReadLines(content))
  {
    hide ItemsSoFar, ParseTop, AddItemLine, AddItemLines, BodyOf, AfterEmpty, FirstEmpty, ReadLine, Appended;
    var lineNum := 1;
    var t := BLANK;
    var sb: Option<string> := None;
    var rest := content;
    ghost var lines, start := ReadLines(content), BLANK;
    ghost var k := 0;
    while rest != ""
      invariant 0 <= k <= |lines| && lines[k..] == ReadLines(rest) && lineNum == k + 1
      invariant k > 0 ==> ParseTop(compiles, lines[0]).Success? && start == BLANK.(topLine := Some(ParseTop(compiles, lines[0]).value))
      invariant k == 0 ==> t == BLANK && sb == None
      invariant k > 0 ==> ItemsSoFar(start, lines[1..], k - 1, t, sb)
      invariant t.body == None
      decreases |rest|
    {
      var (line, next) := ReadLine(rest);
      assert lines[k..][0] == line && lines[k + 1..] == lines[k..][1..] == ReadLines(next);
      if lineNum == 1 {
        var top := ParseTop(compiles, line);
        if top.Failure? {
          return Failure(top.error);
        }
        t := t.(topLine := Some(top.value));
        start := t;
        NothingRead(start, lines[1..]);
      } else {
        assert lines[1..][k - 1] == line;
        if sb.None? {
          StepItem(start, lines[1..], k - 1, t);
          LineKeepsBody(t, line);
          var added := AddItemLine(t, line);
          if added.Failure? {
            return Failure(added.error);
          }
          t := added.value;
          if line == "" {
            sb := Some("");
          }
        } else {
          StepBody(start, lines[1..], k - 1, t, sb.value);
          sb := Some(Appended(sb.value, line));
        }
      }
      lineNum := lineNum + 1;
      rest := next;
      k := k + 1;
    }
    if k > 0 {
      AllRead(start, lines[1..], t, sb);
    }
    if sb.Some? && sb.value != "" {
      t := t.(body := sb);
    }
    return Success(t);
  }

  lemma LineKeepsBody(t: RequestTemplate, line: string)
    ensures AddItemLine(t, line).Success? ==> AddItemLine(t, line).value.body == t.body
  {
  }

  // ---------- printing ----------

  /** An item as its constructor makes it, with a name and a value that can stand on one line. */
  predicate PrintableItem(item: HeaderItem) {
    && ':' !in item.name && Trimmed(item.name) && (item.name != "" ==> item.name[0] != '*')
    && Trimmed(item.value) && OneLine(item.name) && OneLine(item.value)
    && CompileText(item.name + ": " + item.value) == Success(item.template)
  }

  function ItemLine(item: HeaderItem): string {
    (if item.optional then "*" else "") + item.name + ": " + item.value
  }

  function ItemLines(items: seq<HeaderItem>): seq<string> {
    seq(|items|, i requires 0 <= i < |items| => ItemLine(items[i]))
  }

  function AddItems(t: RequestTemplate, items: seq<HeaderItem>): RequestTemplate {
    if items == [] then t else AddItem(AddItems(t, items[..|items| - 1]), items[|items| - 1])
  }

  /** A top line as its constructor makes it. */
  predicate PrintableTop(compiles: string -> bool, top: TopLine) {
    match top
    case Regex(pattern) => OneLine(pattern) && compiles(pattern)
    case Reverse(c) =>
      && Trimmed(c.text) && OneLine(c.text) && CompileText(c.text) == Success(c)
      && (c.text != "" ==> !(c.text[0] == '/' && c.text[|c.text| - 1] == '/'))
  }

  function TopText(top: TopLine): string {
    match top
    case Regex(pattern) => "/" + pattern + "/"
    case Reverse(c) => c.text
  }

  function PrintRequest(top: TopLine, items: seq<HeaderItem>, body: seq<string>): seq<string> {
    [TopText(top)] + ItemLines(items) + [""] + body
  }

  lemma TopReadBack(compiles: string -> bool, top: TopLine)
    requires PrintableTop(compiles, top)
    ensures ParseTop(compiles, TopText(top)) == Success(top)
  {
    hide CompileText;
    TrimIsIdentity(TopText(top));
    if top.Regex? {
      assert ("/" + top.pattern + "/")[1..|top.pattern| + 1] == top.pattern;
    }
  }

  lemma ItemReadBack(t: RequestTemplate, item: HeaderItem)
    requires PrintableItem(item)
    ensures AddItemLine(t, ItemLine(item)) == Success(AddItem(t, item))
    ensures ItemLine(item) != ""
  {
    hide CompileText, AddItem, ParseProperty, MakeItem, ItemLine;
    PropertyOfLine(item);
    ItemOfProperty(item);
  }

  function ShownName(item: HeaderItem): string {
    (if item.optional then "*" else "") + item.name
  }

  lemma PropertyOfLine(item: HeaderItem)
    requires PrintableItem(item)
    ensures ParseProperty(ItemLine(item)) == Some((ShownName(item), item.value))
    ensures ItemLine(item) != ""
  {
    hide CompileText, Trim, IndexOf, ParseProperty, Trimmed;
    ShownTrimmed(item);
    assert ItemLine(item) == ShownName(item) + ": " + item.value;
    PropertyAround(ShownName(item), item.value);
  }

  lemma ShownTrimmed(item: HeaderItem)
    requires PrintableItem(item)
    ensures Trimmed(ShownName(item)) && ':' !in ShownName(item)
  {
    hide CompileText;
  }

  lemma PropertyAround(name: string, value: string)
    requires ':' !in name && Trimmed(name) && Trimmed(value)
    ensures ParseProperty(name + ": " + value) == Some((name, value)) && name + ": " + value != ""
  {
    hide Trim, IndexOf, Trimmed;
    assert name + ": " + value == name + [':'] + (" " + value);
    IndexOfIs(name, ':', " " + value);
    TrimIsIdentity(name);
    TrimIsIdentity(value);
  }

  lemma ItemOfProperty(item: HeaderItem)
    requires !item.optional ==> item.name == "" || item.name[0] != '*'
    requires CompileText(item.name + ": " + item.value) == Success(item.template)
    ensures MakeItem((ShownName(item), item.value)) == Success(item)
  {
    hide CompileText, Trim, IndexOf;
    if item.optional {
      assert ShownName(item)[1..] == item.name;
    } else {
      assert ShownName(item) == item.name;
    }
  }

  lemma {:induction false} ItemsReadBack(t: RequestTemplate, items: seq<HeaderItem>)
    requires forall i | 0 <= i < |items| :: PrintableItem(items[i])
    ensures AddItemLines(t, ItemLines(items)) == Success(AddItems(t, items))
  {
    hide ItemLine, AddItemLine, AddItem, PrintableItem;
    if items != [] {
      var n := |items| - 1;
      ItemsReadBack(t, items[..n]);
      assert ItemLines(items) == ItemLines(items[..n]) + [ItemLine(items[n])];
      AddItemLinesSplit(t, ItemLines(items[..n]), [ItemLine(items[n])]);
      OneItemLine(AddItems(t, items[..n]), ItemLine(items[n]));
      ItemReadBack(AddItems(t, items[..n]), items[n]);
    }
  }

  lemma ItemLinesNotEmpty(items: seq<HeaderItem>)
    requires forall i | 0 <= i < |items| :: PrintableItem(items[i])
    ensures forall i | 0 <= i < |ItemLines(items)| :: ItemLines(items)[i] != ""
    ensures |ItemLines(items)| == |items|
  {
    hide ItemLine, PrintableItem, AddItem;
    forall i | 0 <= i < |ItemLines(items)|
      ensures ItemLines(items)[i] != ""
    {
      ItemReadBack(BLANK, items[i]);
    }
  }

  lemma ParsedFrom(compiles: string -> bool, lines: seq<string>, top: TopLine, n: nat, t: RequestTemplate)
    requires lines != [] && ParseTop(compiles, lines[0]) == Success(top) && n == FirstEmpty(lines[1..])
    requires AddItemLines(BLANK.(topLine := Some(top)), lines[1..][..n]) == Success(t)
    ensures ParseRequest(compiles, lines) == Success(t.(body := NonEmpty(BodyOf(AfterEmpty(lines[1..])))))
  {
  }

  lemma PrintedRequestShape(top: TopLine, items: seq<HeaderItem>, body: seq<string>)
    requires forall i | 0 <= i < |items| :: PrintableItem(items[i])
    ensures var lines := PrintRequest(top, items, body);
            && lines != [] && lines[0] == TopText(top)
            && FirstEmpty(lines[1..]) == |items| && lines[1..][..|items|] == ItemLines(items)
            && AfterEmpty(lines[1..]) == body
  {
    hide TopText, ItemLines, PrintableItem;
    ItemLinesNotEmpty(items);
    FirstEmptyIs(ItemLines(items), body);
    var lines := PrintRequest(top, items, body);
    var rest := ItemLines(items) + [""] + body;
    assert lines[1..] == rest;
    assert rest[..|items|] == ItemLines(items) && rest[|items| + 1..] == body;
  }

  /** The template that a top line, items in order and body lines stand for. */
  function Assembled(top: TopLine, items: seq<HeaderItem>, body: seq<string>): RequestTemplate {
    AddItems(BLANK.(topLine := Some(top)), items).(body := NonEmpty(Join(body)))
  }

  /** Parsing the lines of a printed request gives back its top line, items and body. */
  lemma ParsePrintedLines(compiles: string -> bool, top: TopLine, items: seq<HeaderItem>, body: seq<string>)
    requires PrintableTop(compiles, top)
    requires forall i | 0 <= i < |items| :: PrintableItem(items[i])
    ensures ParseRequest(compiles, PrintRequest(top, items, body)) == Success(Assembled(top, items, DropEmpty(body)))
  {
    hide ParseTop, TopText, PrintRequest, ParseRequest, AddItems, AddItemLines, ItemLines, PrintableItem, PrintableTop, DropEmpty;
    TopReadBack(compiles, top);
    ItemsReadBack(BLANK.(topLine := Some(top)), items);
    PrintedRequestShape(top, items, body);
    ParsedFrom(compiles, PrintRequest(top, items, body), top, |items|, AddItems(BLANK.(topLine := Some(top)), items));
  }

  /** The same without the empty line that no body follows. */
  lemma ParsePrintedItems(compiles: string -> bool, top: TopLine, items: seq<HeaderItem>)
    requires PrintableTop(compiles, top)
    requires forall i | 0 <= i < |items| :: PrintableItem(items[i])
    ensures ParseRequest(compiles, PrintRequest(top, items, [])[..1 + |items|]) == Success(Assembled(top, items, []))
  {
    hide ParseTop, TopText, ParseRequest, PrintRequest, AddItems, AddItemLines, ItemLines, PrintableItem, PrintableTop;
    TopReadBack(compiles, top);
    ItemsReadBack(BLANK.(topLine := Some(top)), items);
    PrintedItemsShape(top, items);
    NoBody();
    JoinNothing();
    ParsedFrom(compiles, PrintRequest(top, items, [])[..1 + |items|], top, |items|, AddItems(BLANK.(topLine := Some(top)), items));
  }

  lemma PrintedItemsShape(top: TopLine, items: seq<HeaderItem>)
    requires forall i | 0 <= i < |items| :: PrintableItem(items[i])
    ensures |PrintRequest(top, items, [])| >= 1 + |items|
    ensures var lines := PrintRequest(top, items, [])[..1 + |items|];
            && lines != [] && lines[0] == TopText(top)
            && FirstEmpty(lines[1..]) == |items| && lines[1..][..|items|] == ItemLines(items)
            && AfterEmpty(lines[1..]) == []
  {
    hide TopText, ItemLines, PrintableItem;
    ItemLinesNotEmpty(items);
    FirstEmptyIs(ItemLines(items), []);
    var lines := PrintRequest(top, items, [])[..1 + |items|];
    assert lines == [TopText(top)] + ItemLines(items);
    assert lines[1..] == ItemLines(items) && lines[1..][..|items|] == ItemLines(items);
  }

  /** The lines that are read of a printed request. */
  lemma PrintedReadBack(compiles: string -> bool, top: TopLine, items: seq<HeaderItem>, body: seq<string>)
    requires PrintableTop(compiles, top) && AreLines(body)
    requires forall i | 0 <= i < |items| :: PrintableItem(items[i])
    ensures |PrintRequest(top, items, [])| >= 1 + |items|
    ensures ReadLines(Join(PrintRequest(top, items, body))) ==
            if body == [] then PrintRequest(top, items, [])[..1 + |items|]
            else PrintRequest(top, items, WithoutEmptyEnd(body))
  {
    hide TopText, ItemLines, PrintableItem, PrintableTop, Join, ReadLines;
    PrintedAreLines(compiles, top, items, body);
    ItemLinesNotEmpty(items);
    var lines := PrintRequest(top, items, body);
    ReadJoined(lines);
    if body == [] {
      assert lines[..|lines| - 1] == lines[..1 + |items|];
    } else if body[|body| - 1] == "" {
      assert lines[..|lines| - 1] == PrintRequest(top, items, body[..|body| - 1]);
    }
  }

  /** A printed request, joined into one text as the script loader does, parses back: its top
      line and items, and the body without padding, which is the whole body exactly if it had none. */
  lemma ParsePrinted(compiles: string -> bool, top: TopLine, items: seq<HeaderItem>, body: seq<string>)
    requires PrintableTop(compiles, top) && AreLines(body)
    requires forall i | 0 <= i < |items| :: PrintableItem(items[i])
    ensures ParseRequest(compiles, ReadLines(Join(PrintRequest(top, items, body)))) == Success(Assembled(top, items, Kept(body)))
    ensures Join(Kept(body)) == Join(body) <==> Unpadded(body)
  {
    hide ParseRequest, PrintRequest, PrintableItem, PrintableTop, Join, Assembled, DropEmpty, ReadLines, Unpadded;
    KeptIsBodyIff(body);
    PrintedReadBack(compiles, top, items, body);
    if body == [] {
      ParsePrintedItems(compiles, top, items);
      JoinNothing();
    } else {
      ParsePrintedLines(compiles, top, items, WithoutEmptyEnd(body));
    }
  }

  /** For any text that parses: the body is the join of the lines from the first that is not
      empty after the first empty line of the header area; without such lines there is no body. */
  lemma BodyOfAnyRequest(compiles: string -> bool, content: string, t: RequestTemplate)
    requires ParseRequest(compiles, ReadLines(content)) == Success(t) && content != ""
    ensures var lines := ReadLines(content);
            && (NoEmptyLine(lines) ==> t.body == None)
            && (!NoEmptyLine(lines) ==> exists n: nat, start: nat :: BodyStarts(lines, n, start))
            && forall n: nat, start: nat | BodyStarts(lines, n, start) :: t.body == NonEmpty(Join(lines[start..]))
  {
    BodyPosition(ReadLines(content));
  }

  lemma PrintedAreLines(compiles: string -> bool, top: TopLine, items: seq<HeaderItem>, body: seq<string>)
    requires PrintableTop(compiles, top) && AreLines(body)
    requires forall i | 0 <= i < |items| :: PrintableItem(items[i])
    ensures forall line | line in PrintRequest(top, items, body) :: OneLine(line)
  {
    hide ItemLine, PrintableItem, PrintableTop, TopText, OneLine;
    TopOnOneLine(compiles, top);
    forall line | line in ItemLines(items)
      ensures OneLine(line)
    {
      var i :| 0 <= i < |items| && line == ItemLines(items)[i];
      ItemOnOneLine(items[i]);
    }
  }

  lemma TopOnOneLine(compiles: string -> bool, top: TopLine)
    requires PrintableTop(compiles, top)
    ensures OneLine(TopText(top)) && OneLine("")
  {
    hide CompileText, Trimmed;
  }

  lemma ItemOnOneLine(item: HeaderItem)
    requires PrintableItem(item)
    ensures OneLine(ItemLine(item))
  {
    hide CompileText, Trimmed;
  }

  // ---------- any request section ----------

  /** What any first line is: a pattern if it stands between slashes and compiles, a reverse
      template if it does not and its placeholders can be read, and else an error. */
  lemma TopOfAnyLine(compiles: string -> bool, line: string)
    ensures forall p :: ParseTop(compiles, line) == Success(Regex(p)) <==> Trim(line) == "/" + p + "/" && compiles(p)
    ensures forall c :: ParseTop(compiles, line) == Success(Reverse(c)) <==>
              !BetweenSlashes(Trim(line)) && c.text == Trim(line) && Compile(ReadLines(c.text)) == Success(c.tokens)
    ensures ParseTop(compiles, line) == Failure(BadPattern) <==> exists p :: Trim(line) == "/" + p + "/" && !compiles(p)
  {
    hide Trim, Compile, ReadLines;
    var text := Trim(line);
    if BetweenSlashes(text) && |text| > 1 {
      assert text == "/" + text[1..|text| - 1] + "/";
    }
    forall p | text == "/" + p + "/"
      ensures text[1..|text| - 1] == p
    {
    }
  }

  /** A single slash starts and ends with one. */
  predicate BetweenSlashes(text: string) {
    text != "" && text[0] == '/' && text[|text| - 1] == '/'
  }

  /** The line of an item: its name, with a star if it is optional, before the first colon and
      its value after it, both with blanks around them, compiled as one template. */
  predicate IsItemLine(line: string, item: HeaderItem) {
    && (exists i | 0 <= i < |line| ::
          line[i] == ':' && ':' !in line[..i] && Trim(line[..i]) == ShownName(item) && Trim(line[i + 1..]) == item.value)
    && (!item.optional ==> item.name == "" || item.name[0] != '*')
    && item.template.text == item.name + ": " + item.value
    && Compile(ReadLines(item.template.text)) == Success(item.template.tokens)
  }

  /** A line whose text no item stands for: one of its placeholders cannot be read. */
  ghost predicate NoItem(line: string) {
    forall item :: !IsItemLine(line, item)
  }

  lemma PropertyOfItem(line: string, item: HeaderItem)
    requires IsItemLine(line, item)
    ensures ParseProperty(line) == Some((ShownName(item), item.value))
  {
    hide Trim, Compile, ReadLines, ShownName, IndexOf;
    var j :| 0 <= j < |line| && line[j] == ':' && ':' !in line[..j] && Trim(line[..j]) == ShownName(item) && Trim(line[j + 1..]) == item.value;
    FirstColon(line, j);
  }

  /** The item of a line with a colon, unless a placeholder in it cannot be read. */
  lemma ItemOfLine(line: string) returns (made: Result<HeaderItem, ParseError>)
    requires ':' in line
    ensures match made
            case Success(item) => IsItemLine(line, item) && forall t :: AddItemLine(t, line) == Success(AddItem(t, item))
            case Failure(e) => e == BadTemplate && NoItem(line) && forall t :: AddItemLine(t, line) == Failure(e)
  {
    hide Trim, Compile, ReadLines, AddItem;
    var i := IndexOf(line, ':');
    assert i < |line|;
    var prop := ParseProperty(line).value;
    made := MakeItem(prop);
    if made.Success? {
      assert ShownName(made.value) == prop.0;
    } else {
      forall item | IsItemLine(line, item)
        ensures false
      {
        PropertyOfItem(line, item);
        ItemOfProperty(item);
      }
    }
  }

  ghost predicate ItemsOfLines(lines: seq<string>, items: seq<HeaderItem>) {
    && |items| == |ColonLines(lines)|
    && forall i | 0 <= i < |items| :: IsItemLine(ColonLines(lines)[i], items[i])
  }

  lemma {:induction false} AddItemsFrom(t: RequestTemplate, item: HeaderItem, items: seq<HeaderItem>)
    ensures AddItems(AddItem(t, item), items) == AddItems(t, [item] + items)
    decreases |items|
  {
    hide AddItem;
    var all, n := [item] + items, |items|;
    if n == 0 {
      assert all == [item] && [item][..0] == [];
      assert AddItems(t, []) == t;
    } else {
      assert all[..n] == [item] + items[..n - 1];
      AddItemsFrom(t, item, items[..n - 1]);
    }
  }

  lemma ItemsOneMore(lines: seq<string>, item: HeaderItem, items: seq<HeaderItem>)
    requires lines != [] && ':' in lines[0] && IsItemLine(lines[0], item) && ItemsOfLines(lines[1..], items)
    ensures ItemsOfLines(lines, [item] + items)
  {
    hide IsItemLine;
    assert ColonLines(lines) == [lines[0]] + ColonLines(lines[1..]);
  }

  lemma ItemsSkip(lines: seq<string>, items: seq<HeaderItem>)
    requires lines != [] && ':' !in lines[0] && ItemsOfLines(lines[1..], items)
    ensures ItemsOfLines(lines, items)
  {
    hide IsItemLine;
    assert ColonLines(lines) == ColonLines(lines[1..]);
  }

  /** Any lines of the header area: the items of the lines with a colon, filed in order, or
      the error of a line that stands for none. */
  lemma {:induction false} ItemsOfAnyLines(t: RequestTemplate, lines: seq<string>)
    ensures match AddItemLines(t, lines)
            case Success(u) => exists items :: ItemsOfLines(lines, items) && u == AddItems(t, items)
            case Failure(e) => e == BadTemplate && exists line | line in lines :: ':' in line && NoItem(line)
    decreases |lines|
  {
    hide AddItem, IsItemLine, NoItem, AddItemLine, AddItems;
    if lines == [] {
      NoItems(t);
    } else if ':' in lines[0] {
      hide ItemsOfLines;
      var made := ItemOfLine(lines[0]);
      if made.Success? {
        var next := AddItem(t, made.value);
        ItemsOfAnyLines(next, lines[1..]);
        if AddItemLines(next, lines[1..]).Success? {
          var items :| ItemsOfLines(lines[1..], items) && AddItemLines(next, lines[1..]).value == AddItems(next, items);
          AddItemsFrom(t, made.value, items);
          ItemsOneMore(lines, made.value, items);
        }
      }
    } else {
      hide ItemsOfLines;
      NoColon(t, lines[0]);
      ItemsOfAnyLines(t, lines[1..]);
      if AddItemLines(t, lines[1..]).Success? {
        var items :| ItemsOfLines(lines[1..], items) && AddItemLines(t, lines[1..]).value == AddItems(t, items);
        ItemsSkip(lines, items);
      }
    }
  }

  lemma NoItems(t: RequestTemplate)
    ensures ItemsOfLines([], []) && AddItems(t, []) == t
  {
  }

  lemma NoColon(t: RequestTemplate, line: string)
    requires ':' !in line
    ensures AddItemLine(t, line) == Success(t)
  {
    hide Trim, MakeItem;
    var i := IndexOf(line, ':');
  }

  /** What any request section is read as: its first line, and the items of its header area;
      it fails with the error of the first line, or of an item whose text cannot be compiled. */
  lemma RequestOfAnyLines(compiles: string -> bool, lines: seq<string>, n: nat)
    requires HeaderArea(lines, n)
    ensures match ParseRequest(compiles, lines)
            case Success(t) =>
              && ParseTop(compiles, lines[0]).Success?
              && exists items :: && ItemsOfLines(lines[1..n], items)
                                 && t.(body := None) == AddItems(BLANK.(topLine := Some(ParseTop(compiles, lines[0]).value)), items)
            case Failure(e) =>
              || ParseTop(compiles, lines[0]) == Failure(e)
              || (e == BadTemplate && exists line | line in lines[1..n] :: ':' in line && NoItem(line))
  {
    hide ParseTop, AddItemLines, ItemsOfLines, AddItems, NoItem, BodyOf, AfterEmpty, FirstEmpty;
    HeaderAreaIs(lines, n);
    var top := ParseTop(compiles, lines[0]);
    if top.Success? {
      var start := BLANK.(topLine := Some(top.value));
      ItemsOfAnyLines(start, lines[1..n]);
      if AddItemLines(start, lines[1..n]).Success? {
        var items :| ItemsOfLines(lines[1..n], items) && AddItemLines(start, lines[1..n]).value == AddItems(start, items);
        NoBodyYet(start, items);
      }
    }
  }

  lemma {:induction false} NoBodyYet(t: RequestTemplate, items: seq<HeaderItem>)
    ensures AddItems(t, items).body == t.body
    decreases |items|
  {
    if items != [] {
      NoBodyYet(t, items[..|items| - 1]);
    }
  }

  datatype Kind = Authentication | Extra | Header

  function KindOf(name: string): Kind {
    if name == HEADER_AUTHENTICATION then Authentication
    else if name != "" && name[0] == '_' then Extra
    else Kind.Header
  }

  /** The item of a name that is filed under a kind, if there is one. */
  function Filed(t: RequestTemplate, kind: Kind, name: string): Option<HeaderItem> {
    match kind
    case Authentication => if t.authentication.Some? && t.authentication.value.name == name then t.authentication else None
    case Extra => if name in t.extra then Some(t.extra[name]) else None
    case Header => if name in t.headers then Some(t.headers[name]) else None
  }

  /** The last of the items with the name. */
  function LastNamed(items: seq<HeaderItem>, name: string): Option<HeaderItem> {
    if items == [] then None
    else if items[|items| - 1].name == name then Some(items[|items| - 1])
    else LastNamed(items[..|items| - 1], name)
  }

  /** Filing items in order leaves under each kind exactly the last item of each name of that
      kind, and nothing under the other kinds. */
  lemma {:induction false} FiledItems(top: TopLine, items: seq<HeaderItem>, kind: Kind, name: string)
    ensures Filed(AddItems(BLANK.(topLine := Some(top)), items), kind, name) ==
            if KindOf(name) == kind then LastNamed(items, name) else None
  {
    if items != [] {
      FiledItems(top, items[..|items| - 1], kind, name);
    }
  }
}
