/** Matching a request against a request template. */
module RequestMatch {
  import opened Outcomes
  import opened Lines
  import opened Tokenizer
  import opened Matcher
  import opened CaptureLaws
  import opened Template
  import opened RequestTemplates

  /** What the matcher asks a request for. */
  datatype Request = Request(topLine: Option<string>, headers: map<string, string>, authentication: Option<string>) {
    function HeaderLine(name: string): Option<string> {
      if name in headers then Some(headers[name]) else None
    }
  }

  datatype MatchFault = NoTopTemplate | InTemplate(fault: Fault)

  /** raised stands for the exceptions that parsing can raise. */
  datatype MatchResult = Matched(context: Captures) | Mismatch | Raised(fault: MatchFault)

  /** A text on one line: each line break becomes one space. */
  function OnOneLine(s: string): string {
    if s == "" then ""
    else if IsBreak(s[0]) then " " + OnOneLine(s[BreakLength(s, 0)..])
    else [s[0]] + OnOneLine(s[1..])
  }

  lemma BreakOnOneLine(break_: string, rest: string)
    requires BreaksBefore(break_, rest)
    ensures OnOneLine(break_ + rest) == " " + OnOneLine(rest) && break_ != ""
  {
    var s := break_ + rest;
    assert s[BreakLength(s, 0)..] == rest;
  }

  /** A line stands unchanged in the text on one line, and each break between two as a space. */
  lemma {:induction false} LinesOnOneLine(line: string, break_: string, rest: string)
    requires OneLine(line) && BreaksBefore(break_, rest)
    ensures OnOneLine(line) == line
    ensures OnOneLine(line + break_ + rest) == line + " " + OnOneLine(rest)
    decreases |line|
  {
    hide BreaksBefore;
    var s := line + break_ + rest;
    if line == "" {
      assert s == break_ + rest;
      BreakOnOneLine(break_, rest);
    } else {
      assert s[0] == line[0] && s[1..] == line[1..] + break_ + rest;
      assert !IsBreak(line[0]);
      LinesOnOneLine(line[1..], break_, rest);
      hide IsBreak;
      assert line == [line[0]] + line[1..];
    }
  }

  /** Matching the top line; the pattern matcher for templates between slashes is a parameter. */
  function MatchTop(top: TopLine, line: Option<string>, regex: (string, string) -> Option<Captures>): Outcome {
    match line
    case None => NoMatch
    case Some(text) =>
      match top
      case Reverse(c) => ParseText(c.tokens, Some(OnOneLine(text)))
      case Regex(pattern) =>
        match regex(pattern, OnOneLine(text))
        case None => NoMatch
        case Some(m) => Match(m)
  }

  /** Matching one header line, or the authentication line. */
  function MatchItem(item: HeaderItem, line: Option<string>): Outcome {
    ParseText(item.template.tokens, line)
  }

  /** Takes one part into account: a mismatch is forgiven if the part is optional. */
  function Account(found: Captures, part: Outcome, optional: bool): MatchResult {
    match part
    case Match(m) => Matched(found + m)
    case NoMatch => if optional then Matched(found) else Mismatch
    case Thrown(fault) => Raised(InTemplate(fault))
  }

  function MatchHeaders(t: RequestTemplate, request: Request, order: seq<string>, found: Captures): MatchResult
    requires forall name | name in order :: name in t.headers
    decreases |order|
  {
    if order == [] then Matched(found)
    else
      var item := t.headers[order[0]];
      match Account(found, MatchItem(item, request.HeaderLine(order[0])), item.optional)
      case Matched(more) => MatchHeaders(t, request, order[1..], more)
      case other => other
  }

  function MatchRest(t: RequestTemplate, request: Request, body: Outcome, found: Captures): MatchResult {
    var authenticated :=
      match t.authentication
      case None => Matched(found)
      case Some(item) => Account(found, MatchItem(item, request.authentication), item.optional);
    match authenticated
    case Matched(more) => Account(more, body, false)
    case other => other
  }

  /** The answer when the headers are looked at in the given order. */
  function MatchInOrder(t: RequestTemplate, request: Request, regex: (string, string) -> Option<Captures>,
                        body: Outcome, order: seq<string>): MatchResult
    requires forall name | name in order :: name in t.headers
  {
    match t.topLine
    case None => Raised(NoTopTemplate)
    case Some(top) =>
      match Account(map[], MatchTop(top, request.topLine, regex), false)
      case Matched(found) => (
        match MatchHeaders(t, request, order, found)
        case Matched(more) => MatchRest(t, request, body, more)
        case other => other)
      case other => other
  }

  ghost predicate Lists(order: seq<string>, names: set<string>) {
    && (forall name :: name in order <==> name in names)
    && Distinct(order)
  }

  lemma AnyOrder(names: set<string>) returns (order: seq<string>)
    ensures Lists(order, names)
  {
    order := [];
    var todo := names;
    while todo != {}
      invariant todo <= names && Lists(order, names - todo)
      decreases todo
    {
      var name :| name in todo;
      ListsSnoc(order, names - todo, name);
      order := order + [name];
      assert names - todo + {name} == names - (todo - {name});
      todo := todo - {name};
    }
    assert names - todo == names;
  }

  lemma ListsSnoc(order: seq<string>, names: set<string>, name: string)
    requires Lists(order, names) && name !in names
    ensures Lists(order + [name], names + {name})
  {
  }

  lemma ListsConcat(a: seq<string>, b: seq<string>, s: set<string>, t: set<string>)
    requires Lists(a, s) && Lists(b, t) && s !! t
    ensures Lists(a + b, s + t)
  {
    forall i, j | 0 <= i < j < |a + b|
      ensures (a + b)[i] != (a + b)[j]
    {
      if i < |a| <= j {
        assert a[i] in s && b[j - |a|] in t;
      }
    }
  }

  lemma {:induction false} HeadersSnoc(t: RequestTemplate, request: Request, order: seq<string>, found: Captures, name: string)
    requires (forall n | n in order :: n in t.headers) && name in t.headers
    ensures MatchHeaders(t, request, order + [name], found) ==
            match MatchHeaders(t, request, order, found)
            case Matched(more) =>
              Account(more, MatchItem(t.headers[name], request.HeaderLine(name)), t.headers[name].optional)
            case other => other
    decreases |order|
  {
    hide MatchItem, Account;
    if order == [] {
      assert [] + [name] == [name];
    } else {
      assert (order + [name])[0] == order[0] && (order + [name])[1..] == order[1..] + [name];
      var item := t.headers[order[0]];
      var part := Account(found, MatchItem(item, request.HeaderLine(order[0])), item.optional);
      if part.Matched? {
        HeadersSnoc(t, request, order[1..], part.context, name);
      }
    }
  }

  lemma {:induction false} HeadersFail(t: RequestTemplate, request: Request, order: seq<string>, more: seq<string>, found: Captures)
    requires forall n | n in order + more :: n in t.headers
    requires (forall n | n in order :: n in t.headers) && !MatchHeaders(t, request, order, found).Matched?
    ensures MatchHeaders(t, request, order + more, found) == MatchHeaders(t, request, order, found)
    decreases |order|
  {
    hide MatchItem, Account;
    if order != [] {
      assert (order + more)[0] == order[0] && (order + more)[1..] == order[1..] + more;
      var item := t.headers[order[0]];
      var part := Account(found, MatchItem(item, request.HeaderLine(order[0])), item.optional);
      if part.Matched? {
        HeadersFail(t, request, order[1..], more, part.context);
      }
    }
  }

  // ---------- when a request matches, and what it captures ----------

  /** The text has the lines of the template, each with a valid split that does not clash. */
  ghost predicate Fits(allTokens: seq<seq<Token>>, content: Option<string>) {
    && content.Some?
    && var lines := ReadLines(content.value);
       && |lines| == |allTokens|
       && forall i | 0 <= i < |lines| :: Splits(lines[i], allTokens[i]) && !Clash(allTokens[i])
  }

  /** There is no text, or at its first line that is not good either the text or the template
      is over, or the line has neither a split nor a probe past its end. */
  ghost predicate Misses(allTokens: seq<seq<Token>>, content: Option<string>) {
    content.Some? ==>
      var lines := ReadLines(content.value);
      exists k: nat :: && StopsAt(allTokens, lines, k)
                       && (|| (k < |allTokens|) != (k < |lines|)
                           || (k < |lines| && !Splits(lines[k], allTokens[k]) && !Overruns(lines[k], allTokens[k])))
  }

  /** The first line that is not good raises this exception: it has no split but a probe past
      its end, or a split by a template line that clashes. */
  ghost predicate Raises(allTokens: seq<seq<Token>>, content: Option<string>, fault: Fault) {
    && content.Some?
    && var lines := ReadLines(content.value);
       exists k | 0 <= k < |lines| && k < |allTokens| ::
         && StopsAt(allTokens, lines, k)
         && match fault
            case OutOfRange => !Splits(lines[k], allTokens[k]) && Overruns(lines[k], allTokens[k])
            case ClassCast => Splits(lines[k], allTokens[k]) && Clash(allTokens[k])
  }

  /** The outcome is the one any stopping line of the text gives; there is such a line. */
  ghost predicate Stopped(allTokens: seq<seq<Token>>, lines: seq<string>, r: Outcome) {
    && (exists k: nat :: StopsAt(allTokens, lines, k))
    && forall k: nat | StopsAt(allTokens, lines, k) :: StopsWith(allTokens, lines, k, r)
  }

  lemma MissesIff(allTokens: seq<seq<Token>>, text: string, r: Outcome)
    requires Stopped(allTokens, ReadLines(text), r)
    ensures r == NoMatch <==> Misses(allTokens, Some(text))
  {
    hide Splits, Overruns, Clash, StopsAt, ReadLines;
    var lines := ReadLines(text);
    if r == NoMatch {
      var k: nat :| StopsAt(allTokens, lines, k);
      assert StopsWith(allTokens, lines, k, r);
    }
    if k: nat :| && StopsAt(allTokens, lines, k)
                 && (|| (k < |allTokens|) != (k < |lines|)
                     || (k < |lines| && !Splits(lines[k], allTokens[k]) && !Overruns(lines[k], allTokens[k]))) {
      StopsInside(allTokens, lines, k);
      assert StopsWith(allTokens, lines, k, r);
    }
  }

  lemma StopsInside(allTokens: seq<seq<Token>>, lines: seq<string>, k: nat)
    requires StopsAt(allTokens, lines, k)
    ensures k <= |allTokens| && k <= |lines|
  {
    hide Splits, Clash;
  }

  lemma RaisesIff(allTokens: seq<seq<Token>>, text: string, r: Outcome, fault: Fault)
    requires Stopped(allTokens, ReadLines(text), r)
    ensures r == Thrown(fault) <==> Raises(allTokens, Some(text), fault)
  {
    hide Splits, Overruns, Clash, StopsAt, ReadLines;
    var lines := ReadLines(text);
    if r == Thrown(fault) {
      var k: nat :| StopsAt(allTokens, lines, k);
      assert StopsWith(allTokens, lines, k, r);
    }
    if Raises(allTokens, Some(text), fault) {
      var k :| 0 <= k < |lines| && k < |allTokens| && StopsAt(allTokens, lines, k)
               && match fault
                  case OutOfRange => !Splits(lines[k], allTokens[k]) && Overruns(lines[k], allTokens[k])
                  case ClassCast => Splits(lines[k], allTokens[k]) && Clash(allTokens[k]);
      assert StopsWith(allTokens, lines, k, r);
    }
  }

  lemma ParseTextIff(allTokens: seq<seq<Token>>, content: Option<string>)
    ensures ParseText(allTokens, content).Match? <==> Fits(allTokens, content)
    ensures ParseText(allTokens, content) == NoMatch <==> Misses(allTokens, content)
    ensures forall fault :: ParseText(allTokens, content) == Thrown(fault) <==> Raises(allTokens, content, fault)
  {
    hide Splits, Overruns, Clash, StopsAt, StopsWith, ParseLines, ReadLines, Misses, Raises;
    ParseTextOutcome(allTokens, content);
    if content.Some? {
      var r := ParseText(allTokens, content);
      ParseSucceedsIff(allTokens, ReadLines(content.value), map[]);
      MissesIff(allTokens, content.value, r);
      forall fault
        ensures r == Thrown(fault) <==> Raises(allTokens, content, fault)
      {
        RaisesIff(allTokens, content.value, r, fault);
      }
    } else {
      NothingMisses(allTokens);
    }
  }

  lemma NothingMisses(allTokens: seq<seq<Token>>)
    ensures Misses(allTokens, None) && forall fault :: !Raises(allTokens, None, fault)
  {
  }

  /** The line fits the item, or the item is optional and the line just does not match. */
  ghost predicate Agrees(item: HeaderItem, line: Option<string>) {
    Fits(item.template.tokens, line) || (item.optional && Misses(item.template.tokens, line))
  }

  lemma AgreesIff(item: HeaderItem, line: Option<string>)
    ensures Agrees(item, line) <==>
            var part := MatchItem(item, line); part.Match? || (part.NoMatch? && item.optional)
  {
    hide Fits, Misses, Raises, ParseText;
    ParseTextIff(item.template.tokens, line);
  }

  ghost predicate HeadersAgree(t: RequestTemplate, request: Request) {
    forall name | name in t.headers :: Agrees(t.headers[name], request.HeaderLine(name))
  }

  /** The top line of the request, on one line, fits the template or matches the pattern. */
  ghost predicate TopFits(top: TopLine, line: Option<string>, regex: (string, string) -> Option<Captures>) {
    && line.Some?
    && match top
       case Reverse(c) => Fits(c.tokens, Some(OnOneLine(line.value)))
       case Regex(pattern) => regex(pattern, OnOneLine(line.value)).Some?
  }

  lemma TopFitsIff(top: TopLine, line: Option<string>, regex: (string, string) -> Option<Captures>)
    ensures MatchTop(top, line, regex).Match? <==> TopFits(top, line, regex)
  {
    hide Fits, Misses, Raises, ParseText, OnOneLine;
    if line.Some? && top.Reverse? {
      ParseTextIff(top.template.tokens, Some(OnOneLine(line.value)));
    }
  }

  ghost predicate Accepts(t: RequestTemplate, request: Request, regex: (string, string) -> Option<Captures>, body: Outcome) {
    && t.topLine.Some? && TopFits(t.topLine.value, request.topLine, regex)
    && HeadersAgree(t, request)
    && (t.authentication.Some? ==> Agrees(t.authentication.value, request.authentication))
    && body.Match?
  }

  /** A header the request does not have is accepted exactly if it is optional, and a request
      without one that is not optional never matches. */
  lemma AbsentHeader(t: RequestTemplate, request: Request, regex: (string, string) -> Option<Captures>, body: Outcome,
                     order: seq<string>, name: string)
    requires Lists(order, t.headers.Keys) && name in t.headers && name !in request.headers
    ensures Agrees(t.headers[name], request.HeaderLine(name)) <==> t.headers[name].optional
    ensures !t.headers[name].optional ==> !MatchInOrder(t, request, regex, body, order).Matched?
  {
    hide TopFits, MatchInOrder;
    MatchesIff(t, request, regex, body, order);
  }

  lemma {:induction false} HeadersMatchIff(t: RequestTemplate, request: Request, order: seq<string>, found: Captures)
    requires forall name | name in order :: name in t.headers
    ensures MatchHeaders(t, request, order, found).Matched? <==>
            forall name | name in order :: Agrees(t.headers[name], request.HeaderLine(name))
    decreases |order|
  {
    hide MatchItem, Agrees;
    if order != [] {
      var item := t.headers[order[0]];
      var part := Account(found, MatchItem(item, request.HeaderLine(order[0])), item.optional);
      AgreesIff(item, request.HeaderLine(order[0]));
      assert forall name :: name in order <==> name == order[0] || name in order[1..];
      if part.Matched? {
        HeadersMatchIff(t, request, order[1..], part.context);
      }
    }
  }

  /** A request matches if and only if the top line, every header that is not optional,
      an authentication line that is not optional and the body match, and no part that
      is looked at raises an exception, in whatever order the headers come. */
  lemma MatchesIff(t: RequestTemplate, request: Request, regex: (string, string) -> Option<Captures>, body: Outcome,
                   order: seq<string>)
    requires Lists(order, t.headers.Keys)
    ensures MatchInOrder(t, request, regex, body, order).Matched? <==> Accepts(t, request, regex, body)
  {
    hide MatchItem, MatchTop, MatchHeaders, TopFits, Agrees;
    if t.authentication.Some? {
      AgreesIff(t.authentication.value, request.authentication);
    }
    if t.topLine.Some? {
      TopFitsIff(t.topLine.value, request.topLine, regex);
    }
    if t.topLine.Some? && MatchTop(t.topLine.value, request.topLine, regex).Match? {
      HeadersMatchIff(t, request, order, map[] + MatchTop(t.topLine.value, request.topLine, regex).captures);
    }
  }

  /** The value a header captures for x, if it matches and captures x. */
  predicate CapturesName(t: RequestTemplate, request: Request, name: string, x: string)
    requires name in t.headers
  {
    var part := MatchItem(t.headers[name], request.HeaderLine(name));
    part.Match? && x in part.captures
  }

  function CaptureOf(t: RequestTemplate, request: Request, name: string, x: string): Value
    requires name in t.headers && CapturesName(t, request, name, x)
  {
    MatchItem(t.headers[name], request.HeaderLine(name)).captures[x]
  }

  /** Two headers that capture the same name capture the same value; in particular
      headers that capture different names do. */
  predicate Compatible(t: RequestTemplate, request: Request) {
    forall n, m | n in t.headers && m in t.headers :: CompatibleAt(t, request, n, m)
  }

  predicate CompatibleAt(t: RequestTemplate, request: Request, n: string, m: string)
    requires n in t.headers && m in t.headers
  {
    var a := MatchItem(t.headers[n], request.HeaderLine(n));
    var b := MatchItem(t.headers[m], request.HeaderLine(m));
    a.Match? && b.Match? ==> forall x | x in a.captures && x in b.captures :: a.captures[x] == b.captures[x]
  }

  /** x has the value of some header of the order that captures it, or else its value in found. */
  ghost predicate FromHeaders(t: RequestTemplate, request: Request, order: seq<string>, found: Captures, context: Captures, x: string)
    requires forall name | name in order :: name in t.headers
  {
    if exists name | name in order :: CapturesName(t, request, name, x) then
      x in context && exists name | name in order :: CapturesName(t, request, name, x) && context[x] == CaptureOf(t, request, name, x)
    else
      (x in context <==> x in found) && (x in found ==> context[x] == found[x])
  }

  lemma {:induction false} HeadersContext(t: RequestTemplate, request: Request, order: seq<string>, found: Captures, x: string)
    requires forall name | name in order :: name in t.headers
    requires MatchHeaders(t, request, order, found).Matched?
    ensures FromHeaders(t, request, order, found, MatchHeaders(t, request, order, found).context, x)
    decreases |order|
  {
    hide MatchItem;
    if order != [] {
      var name, item := order[0], t.headers[order[0]];
      var part := Account(found, MatchItem(item, request.HeaderLine(name)), item.optional);
      var context := MatchHeaders(t, request, order, found).context;
      HeadersContext(t, request, order[1..], part.context, x);
      assert forall n :: n in order <==> n == name || n in order[1..];
      if exists n | n in order[1..] :: CapturesName(t, request, n, x) {
        var n :| n in order[1..] && CapturesName(t, request, n, x) && context[x] == CaptureOf(t, request, n, x);
        assert n in order;
      } else if CapturesName(t, request, name, x) {
        assert name in order && context[x] == CaptureOf(t, request, name, x);
      }
    }
  }

  /** The captures of the headers do not depend on their order if and only if headers
      that capture the same name agree on its value. */
  lemma HeaderOrderIrrelevantIff(t: RequestTemplate, request: Request, found: Captures)
    requires HeadersAgree(t, request)
    ensures Compatible(t, request) <==>
            forall a, b | Lists(a, t.headers.Keys) && Lists(b, t.headers.Keys) ::
              MatchHeaders(t, request, a, found) == MatchHeaders(t, request, b, found)
  {
    hide MatchItem, MatchHeaders, Compatible;
    if Compatible(t, request) {
      forall a, b | Lists(a, t.headers.Keys) && Lists(b, t.headers.Keys)
        ensures MatchHeaders(t, request, a, found) == MatchHeaders(t, request, b, found)
      {
        SameContext(t, request, a, b, found);
      }
    } else {
      var n, m, x := Conflict(t, request);
      var a := LastInOrder(t.headers.Keys, n);
      var b := LastInOrder(t.headers.Keys, m);
      LastWins(t, request, a, found, n, x);
      LastWins(t, request, b, found, m, x);
    }
  }

  lemma SameContext(t: RequestTemplate, request: Request, a: seq<string>, b: seq<string>, found: Captures)
    requires HeadersAgree(t, request) && Compatible(t, request)
    requires Lists(a, t.headers.Keys) && Lists(b, t.headers.Keys)
    ensures MatchHeaders(t, request, a, found) == MatchHeaders(t, request, b, found)
  {
    hide MatchItem, MatchHeaders, Agrees;
    HeadersMatchIff(t, request, a, found);
    HeadersMatchIff(t, request, b, found);
    var ca, cb := MatchHeaders(t, request, a, found).context, MatchHeaders(t, request, b, found).context;
    forall x
      ensures x in ca <==> x in cb
      ensures x in ca ==> ca[x] == cb[x]
    {
      HeadersContext(t, request, a, found, x);
      HeadersContext(t, request, b, found, x);
      if name :| name in a && CapturesName(t, request, name, x) {
        var n :| n in a && CapturesName(t, request, n, x) && ca[x] == CaptureOf(t, request, n, x);
        var m :| m in b && CapturesName(t, request, m, x) && cb[x] == CaptureOf(t, request, m, x);
        assert CompatibleAt(t, request, n, m);
      }
    }
    assert ca == cb;
  }

  lemma Conflict(t: RequestTemplate, request: Request) returns (n: string, m: string, x: string)
    requires !Compatible(t, request)
    ensures n in t.headers && m in t.headers
    ensures CapturesName(t, request, n, x) && CapturesName(t, request, m, x)
    ensures CaptureOf(t, request, n, x) != CaptureOf(t, request, m, x)
  {
    hide MatchItem;
    n, m :| n in t.headers && m in t.headers && !CompatibleAt(t, request, n, m);
    var a := MatchItem(t.headers[n], request.HeaderLine(n)).captures;
    var b := MatchItem(t.headers[m], request.HeaderLine(m)).captures;
    x :| x in a && x in b && a[x] != b[x];
  }

  lemma LastInOrder(names: set<string>, name: string) returns (order: seq<string>)
    requires name in names
    ensures Lists(order, names) && order != [] && order[|order| - 1] == name
  {
    var first := AnyOrder(names - {name});
    ListsSnoc(first, names - {name}, name);
    order := first + [name];
    assert names - {name} + {name} == names;
  }

  lemma LastWins(t: RequestTemplate, request: Request, order: seq<string>, found: Captures, name: string, x: string)
    requires HeadersAgree(t, request) && Lists(order, t.headers.Keys) && name in t.headers
    requires order != [] && order[|order| - 1] == name && CapturesName(t, request, name, x)
    ensures var r := MatchHeaders(t, request, order, found);
            r.Matched? && x in r.context && r.context[x] == CaptureOf(t, request, name, x)
  {
    hide MatchItem, MatchHeaders;
    HeadersMatchIff(t, request, order, found);
    var first := order[..|order| - 1];
    assert order == first + [name];
    HeadersSnoc(t, request, first, found, name);
  }

  // ---------- what an answer is, and what is captured ----------

  /** What matching looks at, one after the other. */
  datatype Part = TopPart(top: TopLine, line: Option<string>) | ItemPart(item: HeaderItem, line: Option<string>) | BodyPart(verdict: Outcome)

  /** The top line, the headers in the given order, the authentication line, the body. */
  function Parts(t: RequestTemplate, request: Request, body: Outcome, order: seq<string>): seq<Part>
    requires t.topLine.Some? && forall name | name in order :: name in t.headers
  {
    [TopPart(t.topLine.value, request.topLine)]
    + seq(|order|, i requires 0 <= i < |order| => ItemPart(t.headers[order[i]], request.HeaderLine(order[i])))
    + (if t.authentication.Some? then [ItemPart(t.authentication.value, request.authentication)] else [])
    + [BodyPart(body)]
  }

  function PartOutcome(part: Part, regex: (string, string) -> Option<Captures>): Outcome {
    match part
    case TopPart(top, line) => MatchTop(top, line, regex)
    case ItemPart(item, line) => MatchItem(item, line)
    case BodyPart(verdict) => verdict
  }

  predicate Optional(part: Part) {
    part.ItemPart? && part.item.optional
  }

  ghost predicate PartFits(part: Part, regex: (string, string) -> Option<Captures>) {
    match part
    case TopPart(top, line) => TopFits(top, line, regex)
    case ItemPart(item, line) => Fits(item.template.tokens, line)
    case BodyPart(verdict) => verdict.Match?
  }

  ghost predicate PartMisses(part: Part, regex: (string, string) -> Option<Captures>) {
    match part
    case TopPart(top, line) =>
      line.Some? ==> (
        match top
        case Reverse(c) => Misses(c.tokens, Some(OnOneLine(line.value)))
        case Regex(pattern) => regex(pattern, OnOneLine(line.value)).None?)
    case ItemPart(item, line) => Misses(item.template.tokens, line)
    case BodyPart(verdict) => verdict.NoMatch?
  }

  ghost predicate PartRaises(part: Part, fault: Fault) {
    match part
    case TopPart(top, line) => line.Some? && top.Reverse? && Raises(top.template.tokens, Some(OnOneLine(line.value)), fault)
    case ItemPart(item, line) => Raises(item.template.tokens, line, fault)
    case BodyPart(verdict) => verdict == Thrown(fault)
  }

  lemma PartOutcomeIff(part: Part, regex: (string, string) -> Option<Captures>)
    ensures PartOutcome(part, regex).Match? <==> PartFits(part, regex)
    ensures PartOutcome(part, regex) == NoMatch <==> PartMisses(part, regex)
    ensures forall fault :: PartOutcome(part, regex) == Thrown(fault) <==> PartRaises(part, fault)
  {
    hide Fits, Misses, Raises, ParseText, OnOneLine;
    match part
    case TopPart(top, line) =>
      if line.Some? && top.Reverse? {
        ParseTextIff(top.template.tokens, Some(OnOneLine(line.value)));
      }
    case ItemPart(item, line) => ParseTextIff(item.template.tokens, line);
    case BodyPart(_) =>
  }

  /** The part does not keep the request from matching. */
  ghost predicate Passes(part: Part, regex: (string, string) -> Option<Captures>) {
    PartFits(part, regex) || (PartMisses(part, regex) && Optional(part))
  }

  ghost predicate AllPass(parts: seq<Part>, regex: (string, string) -> Option<Captures>, k: nat)
    requires k <= |parts|
  {
    forall i | 0 <= i < k :: Passes(parts[i], regex)
  }

  predicate PartCaptures(part: Part, regex: (string, string) -> Option<Captures>, x: string) {
    var outcome := PartOutcome(part, regex);
    outcome.Match? && x in outcome.captures
  }

  /** x has the value the last part that captures it gives it, and else that in found. */
  ghost predicate FromLast(parts: seq<Part>, regex: (string, string) -> Option<Captures>, found: Captures, context: Captures, x: string) {
    && (forall i | 0 <= i < |parts| && PartCaptures(parts[i], regex, x)
                   && forall j | i < j < |parts| :: !PartCaptures(parts[j], regex, x) ::
          x in context && context[x] == PartOutcome(parts[i], regex).captures[x])
    && ((forall i | 0 <= i < |parts| :: !PartCaptures(parts[i], regex, x)) ==>
          (x in context <==> x in found) && (x in found ==> context[x] == found[x]))
  }

  function AccountAll(parts: seq<Part>, regex: (string, string) -> Option<Captures>, found: Captures): MatchResult {
    if parts == [] then Matched(found)
    else match Account(found, PartOutcome(parts[0], regex), Optional(parts[0]))
      case Matched(more) => AccountAll(parts[1..], regex, more)
      case other => other
  }

  lemma {:induction false} AccountHeaders(t: RequestTemplate, request: Request, regex: (string, string) -> Option<Captures>,
                                          order: seq<string>, headers: seq<Part>, rest: seq<Part>, found: Captures)
    requires forall name | name in order :: name in t.headers
    requires headers == seq(|order|, i requires 0 <= i < |order| => ItemPart(t.headers[order[i]], request.HeaderLine(order[i])))
    ensures AccountAll(headers + rest, regex, found) ==
            match MatchHeaders(t, request, order, found)
            case Matched(more) => AccountAll(rest, regex, more)
            case other => other
    decreases |order|
  {
    hide MatchItem, MatchTop;
    if order == [] {
      assert headers + rest == rest;
    } else {
      var item := t.headers[order[0]];
      var part := Account(found, MatchItem(item, request.HeaderLine(order[0])), item.optional);
      assert (headers + rest)[0] == headers[0] && (headers + rest)[1..] == headers[1..] + rest;
      if part.Matched? {
        AccountHeaders(t, request, regex, order[1..], headers[1..], rest, part.context);
      }
    }
  }

  lemma AccountInOrder(t: RequestTemplate, request: Request, regex: (string, string) -> Option<Captures>, body: Outcome, order: seq<string>)
    requires t.topLine.Some? && forall name | name in order :: name in t.headers
    ensures MatchInOrder(t, request, regex, body, order) == AccountAll(Parts(t, request, body, order), regex, map[])
  {
    hide MatchItem, MatchTop, MatchHeaders;
    var headers := seq(|order|, i requires 0 <= i < |order| => ItemPart(t.headers[order[i]], request.HeaderLine(order[i])));
    var rest := (if t.authentication.Some? then [ItemPart(t.authentication.value, request.authentication)] else []) + [BodyPart(body)];
    var parts := Parts(t, request, body, order);
    assert parts[0] == TopPart(t.topLine.value, request.topLine) && parts[1..] == headers + rest;
    var top := Account(map[], MatchTop(t.topLine.value, request.topLine, regex), false);
    if top.Matched? {
      AccountHeaders(t, request, regex, order, headers, rest, top.context);
      if MatchHeaders(t, request, order, top.context).Matched? {
        AccountRest(t, request, regex, body, rest, MatchHeaders(t, request, order, top.context).context);
      }
    }
  }

  lemma AccountRest(t: RequestTemplate, request: Request, regex: (string, string) -> Option<Captures>, body: Outcome,
                    rest: seq<Part>, found: Captures)
    requires rest == (if t.authentication.Some? then [ItemPart(t.authentication.value, request.authentication)] else []) + [BodyPart(body)]
    ensures AccountAll(rest, regex, found) == MatchRest(t, request, body, found)
  {
    hide MatchItem, MatchTop, Account;
    if t.authentication.Some? {
      var item := t.authentication.value;
      var part := Account(found, MatchItem(item, request.authentication), item.optional);
      if part.Matched? {
        AccountBody(body, regex, part.context);
      }
      assert rest[0] == ItemPart(t.authentication.value, request.authentication) && rest[1..] == [BodyPart(body)];
    } else {
      AccountBody(body, regex, found);
      assert rest == [BodyPart(body)];
    }
  }

  lemma AccountBody(body: Outcome, regex: (string, string) -> Option<Captures>, found: Captures)
    ensures AccountAll([BodyPart(body)], regex, found) == Account(found, body, false)
  {
    var parts := [BodyPart(body)];
    assert parts[1..] == [];
  }

  /** The answer with which looking at the parts ends. */
  ghost predicate EndsWith(parts: seq<Part>, regex: (string, string) -> Option<Captures>, found: Captures, r: MatchResult) {
    match r
    case Matched(context) => AllPass(parts, regex, |parts|) && forall x :: FromLast(parts, regex, found, context, x)
    case Mismatch => exists k | 0 <= k < |parts| :: AllPass(parts, regex, k) && PartMisses(parts[k], regex) && !Optional(parts[k])
    case Raised(fault) =>
      && fault.InTemplate?
      && exists k | 0 <= k < |parts| :: AllPass(parts, regex, k) && PartRaises(parts[k], fault.fault)
  }

  lemma {:induction false} AccountAllEnds(parts: seq<Part>, regex: (string, string) -> Option<Captures>, found: Captures)
    ensures EndsWith(parts, regex, found, AccountAll(parts, regex, found))
    decreases |parts|
  {
    hide PartOutcome, PartFits, PartMisses, PartRaises;
    if parts != [] {
      PartOutcomeIff(parts[0], regex);
      var first := Account(found, PartOutcome(parts[0], regex), Optional(parts[0]));
      if first.Matched? {
        AccountAllEnds(parts[1..], regex, first.context);
        EndsOneMore(parts, regex, found, first.context, AccountAll(parts[1..], regex, first.context));
      } else {
        assert AllPass(parts, regex, 0);
      }
    }
  }

  lemma PassMore(parts: seq<Part>, regex: (string, string) -> Option<Captures>, k: nat)
    requires parts != [] && k < |parts| && Passes(parts[0], regex) && AllPass(parts[1..], regex, k)
    ensures AllPass(parts, regex, k + 1)
  {
    hide Passes;
    forall i | 0 <= i < k + 1
      ensures Passes(parts[i], regex)
    {
      if i > 0 {
        assert parts[i] == parts[1..][i - 1];
      }
    }
  }

  lemma EndsOneMore(parts: seq<Part>, regex: (string, string) -> Option<Captures>, found: Captures, more: Captures, r: MatchResult)
    requires parts != [] && Account(found, PartOutcome(parts[0], regex), Optional(parts[0])) == Matched(more)
    requires EndsWith(parts[1..], regex, more, r)
    ensures EndsWith(parts, regex, found, r)
  {
    hide PartOutcome, PartFits, PartMisses, PartRaises, AllPass, FromLast;
    var rest := parts[1..];
    PartOutcomeIff(parts[0], regex);
    match r
    case Matched(context) =>
      PassMore(parts, regex, |rest|);
      forall x
        ensures FromLast(parts, regex, found, context, x)
      {
        FromLastMore(parts, regex, found, more, context, x);
      }
    case Mismatch =>
      var k :| 0 <= k < |rest| && AllPass(rest, regex, k) && PartMisses(rest[k], regex) && !Optional(rest[k]);
      PassMore(parts, regex, k);
      assert parts[k + 1] == rest[k];
    case Raised(fault) =>
      var k :| 0 <= k < |rest| && AllPass(rest, regex, k) && PartRaises(rest[k], fault.fault);
      PassMore(parts, regex, k);
      assert parts[k + 1] == rest[k];
  }

  lemma FromLastMore(parts: seq<Part>, regex: (string, string) -> Option<Captures>, found: Captures, more: Captures, context: Captures, x: string)
    requires parts != [] && Account(found, PartOutcome(parts[0], regex), Optional(parts[0])) == Matched(more)
    requires FromLast(parts[1..], regex, more, context, x)
    ensures FromLast(parts, regex, found, context, x)
  {
    hide PartOutcome;
    var rest := parts[1..];
    assert forall i | 0 <= i < |rest| :: rest[i] == parts[i + 1];
    forall i | 0 <= i < |parts| && PartCaptures(parts[i], regex, x) && forall j | i < j < |parts| :: !PartCaptures(parts[j], regex, x)
      ensures x in context && context[x] == PartOutcome(parts[i], regex).captures[x]
    {
      if i > 0 {
        assert rest[i - 1] == parts[i];
      }
    }
  }

  /** The answer for any request: a match exactly if every part passes, with each name bound by
      the last part that captures it; otherwise what the first part that does not pass says. */
  lemma MatchOutcome(t: RequestTemplate, request: Request, regex: (string, string) -> Option<Captures>, body: Outcome, order: seq<string>)
    requires forall name | name in order :: name in t.headers
    ensures t.topLine.None? ==> MatchInOrder(t, request, regex, body, order) == Raised(NoTopTemplate)
    ensures t.topLine.Some? ==>
              EndsWith(Parts(t, request, body, order), regex, map[], MatchInOrder(t, request, regex, body, order))
  {
    hide MatchHeaders, MatchTop, Parts, EndsWith;
    if t.topLine.Some? {
      AccountInOrder(t, request, regex, body, order);
      AccountAllEnds(Parts(t, request, body, order), regex, map[]);
    }
  }

  /** Only one kind of answer fits the parts. */
  lemma EndsInOneWay(parts: seq<Part>, regex: (string, string) -> Option<Captures>, found: Captures, r: MatchResult, s: MatchResult)
    requires EndsWith(parts, regex, found, r) && EndsWith(parts, regex, found, s)
    ensures r.Matched? <==> s.Matched?
    ensures !r.Matched? ==> r == s
  {
    hide PartFits, PartMisses, PartRaises, FromLast;
    forall i | 0 <= i < |parts|
      ensures PartMisses(parts[i], regex) ==> !PartFits(parts[i], regex)
      ensures forall f :: PartRaises(parts[i], f) ==> !PartFits(parts[i], regex) && !PartMisses(parts[i], regex)
      ensures forall f, g :: PartRaises(parts[i], f) && PartRaises(parts[i], g) ==> f == g
    {
      PartOutcomeIff(parts[i], regex);
    }
  }

  /** Where headers agree on the names they share, matching gives the same answer in every order. */
  lemma MatchOrderIrrelevant(t: RequestTemplate, request: Request, regex: (string, string) -> Option<Captures>, body: Outcome,
                             a: seq<string>, b: seq<string>)
    requires Lists(a, t.headers.Keys) && Lists(b, t.headers.Keys)
    requires Accepts(t, request, regex, body) && Compatible(t, request)
    ensures MatchInOrder(t, request, regex, body, a) == MatchInOrder(t, request, regex, body, b)
    ensures MatchInOrder(t, request, regex, body, a).Matched?
  {
    hide MatchItem, MatchTop, MatchHeaders, Compatible, TopFits;
    TopFitsIff(t.topLine.value, request.topLine, regex);
    SameContext(t, request, a, b, map[] + MatchTop(t.topLine.value, request.topLine, regex).captures);
    MatchesIff(t, request, regex, body, a);
  }

  // ---------- the method ----------

  lemma NoHeaders(t: RequestTemplate, request: Request, found: Captures)
    ensures MatchHeaders(t, request, [], found) == Matched(found)
  {
  }

  /** An answer that some order of looking at the headers gives. */
  ghost predicate Possible(t: RequestTemplate, request: Request, regex: (string, string) -> Option<Captures>, body: Outcome,
                           r: MatchResult)
  {
    exists order :: Lists(order, t.headers.Keys) && r == MatchInOrder(t, request, regex, body, order)
  }

  /** Matches a request; the hash map gives the headers in any order. */
  method MatchRequest(t: RequestTemplate, request: Request, regex: (string, string) -> Option<Captures>, body: Outcome)
    returns (r: MatchResult)
    ensures Possible(t, request, regex, body, r)
    ensures r.Matched? <==> Accepts(t, request, regex, body)
  {
    hide MatchItem, MatchTop, MatchHeaders, Accepts;
    ghost var order := AnyOrder(t.headers.Keys);
    MatchesIff(t, request, regex, body, order);
    if t.topLine.None? {
      return Raised(NoTopTemplate);
    }
    var top := MatchTop(t.topLine.value, request.topLine, regex);
    if !top.Match? {
      return Account(map[], top, false);
    }
    var ret := map[] + top.captures;
    assert MatchHeaders(t, request, [], ret) == Matched(ret) by {
      NoHeaders(t, request, ret);
    }
    var todo := t.headers.Keys;
    ghost var seen: seq<string> := [];
    while todo != {}
      invariant todo <= t.headers.Keys
      invariant Lists(seen, t.headers.Keys - todo)
      invariant MatchHeaders(t, request, seen, map[] + top.captures) == Matched(ret)
      decreases todo
    {
      var name :| name in todo;
      var item := t.headers[name];
      var part := Account(ret, MatchItem(item, request.HeaderLine(name)), item.optional);
      HeadersSnoc(t, request, seen, map[] + top.captures, name);
      ListsSnoc(seen, t.headers.Keys - todo, name);
      seen := seen + [name];
      assert t.headers.Keys - todo + {name} == t.headers.Keys - (todo - {name});
      todo := todo - {name};
      if !part.Matched? {
        var more := AnyOrder(todo);
        order := seen + more;
        HeadersFail(t, request, seen, more, map[] + top.captures);
        ListsConcat(seen, more, t.headers.Keys - todo, todo);
        MatchesIff(t, request, regex, body, order);
        return part;
      }
      ret := part.context;
    }
    MatchesIff(t, request, regex, body, seen);
    assert t.headers.Keys - todo == t.headers.Keys;
    r := MatchRest(t, request, body, ret);
  }
}
