/** Splitting a script into rules, each a request section and its response sections. */
module ScriptLoader {
  import opened JavaInts
  import opened Outcomes
  import opened Lines
  import opened ResponseTemplates
  import opened RequestTemplates
  import opened Text

  function Dashes(n: nat): string {
    if n == 0 then "" else "-" + Dashes(n - 1)
  }

  const SEP_LINE: string := Dashes(66)
  const RESP_START: string := "HTTP/"

  /** What reading up to the next separator yields. */
  datatype Loaded = Block(sections: seq<seq<string>>) | EndOfRules | NoResponse

  /** Drops one empty line at the start, then one at the end. */
  function StripEmpty(lines: seq<string>): seq<string> {
    var rest := if lines != [] && lines[0] == "" then lines[1..] else lines;
    if rest != [] && rest[|rest| - 1] == "" then rest[..|rest| - 1] else rest
  }

  function AddLines(block: seq<seq<string>>, lines: seq<string>): seq<seq<string>> {
    if StripEmpty(lines) == [] then block else block + [StripEmpty(lines)]
  }

  /** The sections up to the next separator, given those found so far and the lines of
      the current one, and the lines after the separator. */
  function Sections(lines: seq<string>, block: seq<seq<string>>, current: seq<string>): (r: (seq<seq<string>>, seq<string>))
    ensures |r.1| <= |lines| && (lines != [] ==> |r.1| < |lines|)
    decreases |lines|
  {
    if lines == [] then (AddLines(block, current), [])
    else if RESP_START <= lines[0] then Sections(lines[1..], AddLines(block, current), [lines[0]])
    else if lines[0] == SEP_LINE then (AddLines(block, current), lines[1..])
    else Sections(lines[1..], block, current + [lines[0]])
  }

  function Classify(sections: seq<seq<string>>): Loaded {
    if |sections| == 1 then NoResponse
    else if |sections| == 0 then EndOfRules
    else Block(sections)
  }

  /** The rest of a script that is being read. */
  class LineReader {
    var rest: seq<string>

    constructor (lines: seq<string>)
      ensures rest == lines
    {
      rest := lines;
    }

    method ReadLine() returns (line: Option<string>)
      modifies this
      ensures old(rest) == [] ==> line == None && rest == []
      ensures old(rest) != [] ==> line == Some(old(rest)[0]) && rest == old(rest)[1..]
    {
      if rest == [] {
        return None;
      }
      line := Some(rest[0]);
      rest := rest[1..];
    }
  }

  method LoadReqResp(reader: LineReader) returns (r: Loaded)
    modifies reader
    ensures r == Classify(old(Sections(reader.rest, [], [])).0)
    ensures reader.rest == old(Sections(reader.rest, [], [])).1
    ensures |reader.rest| <= old(|reader.rest|)
    ensures r.Block? ==> |reader.rest| < old(|reader.rest|)
  {
    var ret: seq<seq<string>> := [];
    var lines: seq<string> := [];
    ghost var all := reader.rest;
    var line := reader.ReadLine();
    while line.Some?
      invariant line.None? ==> reader.rest == []
      invariant |reader.rest| <= |all|
      invariant Sections(all, [], []) ==
                Sections((if line.Some? then [line.value] else []) + reader.rest, ret, lines)
      invariant all == [] ==> line.None?
      invariant line.Some? ==> |reader.rest| < |all|
      decreases |reader.rest| + if line.Some? then 1 else 0
    {
      assert ([line.value] + reader.rest)[1..] == reader.rest;
      if RESP_START <= line.value {
        ret := AddLines(ret, lines);
        lines := [line.value];
      } else if line.value == SEP_LINE {
        break;
      } else {
        lines := lines + [line.value];
      }
      line := reader.ReadLine();
    }
    ret := AddLines(ret, lines);
    NothingFromNothing(all);
    r := Classify(ret);
  }

  lemma NothingFromNothing(lines: seq<string>)
    ensures lines == [] ==> Classify(Sections(lines, [], []).0) == EndOfRules
  {
  }

  datatype ScriptError = MissingResponse | Unreadable(error: ParseError)

  datatype TemplatePair = TemplatePair(req: RequestTemplate, resps: seq<ResponseTemplate>)

  function ParseResponses(sections: seq<seq<string>>): Result<seq<ResponseTemplate>, ParseError> {
    if sections == [] then Success([])
    else match ParseResponse(ReadLines(Join(sections[0])))
      case Failure(e) => Failure(e)
      case Success(t) =>
        match ParseResponses(sections[1..])
        case Failure(e) => Failure(e)
        case Success(more) => Success([t] + more)
  }

  /** The rule of a block; its responses are read before its request. */
  function ParseBlock(compiles: string -> bool, block: seq<seq<string>>): Result<TemplatePair, ScriptError>
    requires |block| >= 2
  {
    match ParseResponses(block[1..])
    case Failure(e) => Failure(Unreadable(e))
    case Success(resps) =>
      match ParseRequest(compiles, ReadLines(Join(block[0])))
      case Failure(e) => Failure(Unreadable(e))
      case Success(req) => Success(TemplatePair(req, resps))
  }

  /** All rules of a script, up to the first place where nothing stands before a separator. */
  function LoadRules(compiles: string -> bool, lines: seq<string>): Result<seq<TemplatePair>, ScriptError>
    decreases |lines|
  {
    var (sections, rest) := Sections(lines, [], []);
    match Classify(sections)
    case EndOfRules => Success([])
    case NoResponse => Failure(MissingResponse)
    case Block(block) =>
      match ParseBlock(compiles, block)
      case Failure(e) => Failure(e)
      case Success(pair) =>
        match LoadRules(compiles, rest)
        case Failure(e) => Failure(e)
        case Success(more) => Success([pair] + more)
  }

  method ParseResponseSections(block: seq<seq<string>>) returns (r: Result<seq<ResponseTemplate>, ParseError>)
    requires |block| >= 2 && forall i | 0 <= i < |block| :: block[i] != []
    ensures r == ParseResponses(block[1..])
  {
    hide ParseResponse, ReadLines, Join;
    var resps: seq<ResponseTemplate> := [];
    var i := 1;
    AfterNothing(ParseResponses(block[1..]));
    while i <= |block| - 1
      invariant 1 <= i <= |block|
      invariant ParseResponses(block[1..]) == After(resps, ParseResponses(block[i..]))
    {
      assert block[i..][1..] == block[i + 1..];
      var content := ConcatContent(block[i]);
      var t := ResponseTemplates.Init(content.value);
      if t.Failure? {
        return Failure(t.error);
      }
      AfterStep(resps, t.value, ParseResponses(block[i + 1..]));
      resps := resps + [t.value];
      i := i + 1;
    }
    assert resps + [] == resps;
    return Success(resps);
  }

  lemma SectionsNotEmpty(lines: seq<string>, block: seq<seq<string>>, current: seq<string>)
    requires forall i | 0 <= i < |block| :: block[i] != []
    ensures forall i | 0 <= i < |Sections(lines, block, current).0| :: Sections(lines, block, current).0[i] != []
    decreases |lines|
  {
    hide StripEmpty;
  }

  method Load(compiles: string -> bool, reader: LineReader) returns (r: Result<seq<TemplatePair>, ScriptError>)
    modifies reader
    ensures r == old(LoadRules(compiles, reader.rest))
  {
    hide Sections, ParseResponse, ParseRequest, ReadLines, Join;
    var pairList: seq<TemplatePair> := [];
    ghost var all := reader.rest;
    AfterNothing(LoadRules(compiles, all));
    while true
      invariant LoadRules(compiles, all) == After(pairList, LoadRules(compiles, reader.rest))
      decreases |reader.rest|
    {
      SectionsNotEmpty(reader.rest, [], []);
      ghost var here := reader.rest;
      var block := LoadReqResp(reader);
      if block.EndOfRules? {
        assert pairList + [] == pairList;
        return Success(pairList);
      }
      if block.NoResponse? {
        return Failure(MissingResponse);
      }
      var resps := ParseResponseSections(block.sections);
      if resps.Failure? {
        return Failure(Unreadable(resps.error));
      }
      var content := ConcatContent(block.sections[0]);
      var req := RequestTemplates.Init(compiles, content.value);
      if req.Failure? {
        return Failure(Unreadable(req.error));
      }
      AfterStep(pairList, TemplatePair(req.value, resps.value), LoadRules(compiles, reader.rest));
      pairList := pairList + [TemplatePair(req.value, resps.value)];
    }
  }

  // ---------- reading back what was printed ----------

  /** A line that neither starts a response nor separates rules. */
  predicate Plain(line: string) {
    !(RESP_START <= line) && line != SEP_LINE
  }

  predicate PlainLines(lines: seq<string>) {
    forall i | 0 <= i < |lines| :: Plain(lines[i])
  }

  /** One section as it stands in a script: its lines, and whether an empty line stands
      before or after them. */
  datatype Section = Section(lead: bool, lines: seq<string>, trail: bool)

  function Padding(padded: bool): seq<string> {
    if padded then [""] else []
  }

  function Shown(s: Section): seq<string> {
    Padding(s.lead) + s.lines + Padding(s.trail)
  }

  /** At an end without padding there is no empty line. */
  predicate WellLaid(s: Section) {
    && (!s.lead && s.lines != [] ==> s.lines[0] != "")
    && (!s.trail && s.lines != [] ==> s.lines[|s.lines| - 1] != "")
  }

  /** What stands between two separators: plain lines, possibly none, and then sections that
      start with a status line. */
  datatype Layout = Layout(request: Section, responses: seq<Section>)

  predicate ResponseLaid(s: Section) {
    WellLaid(s) && !s.lead && StartsResponse(s.lines)
  }

  predicate StartsResponse(lines: seq<string>) {
    lines != [] && RESP_START <= lines[0] && PlainLines(lines[1..])
  }

  predicate LaidOut(b: Layout) {
    && WellLaid(b.request) && PlainLines(b.request.lines)
    && forall i | 0 <= i < |b.responses| :: ResponseLaid(b.responses[i])
  }

  /** The sections as they stand in the script. */
  function Chunks(b: Layout): (chunks: seq<seq<string>>)
    ensures |chunks| == 1 + |b.responses|
  {
    [Shown(b.request)] + seq(|b.responses|, i requires 0 <= i < |b.responses| => Shown(b.responses[i]))
  }

  /** The sections without padding; no request section if no line is left of it. */
  function SectionsOf(b: Layout): seq<seq<string>> {
    (if b.request.lines == [] then [] else [b.request.lines])
    + seq(|b.responses|, i requires 0 <= i < |b.responses| => b.responses[i].lines)
  }

  function Texts(bs: seq<Layout>): (blocks: seq<seq<seq<string>>>)
    ensures |blocks| == |bs|
  {
    seq(|bs|, i requires 0 <= i < |bs| => Chunks(bs[i]))
  }

  /** Rules one after the other with separators between them, and after the last one if closed. */
  function PrintBlocks(blocks: seq<seq<seq<string>>>, closed: bool): seq<string> {
    if blocks == [] then []
    else if |blocks| == 1 && !closed then Flat(blocks[0])
    else Flat(blocks[0]) + [SEP_LINE] + PrintBlocks(blocks[1..], closed)
  }

  /** Chunks of one block, before their padding is known. */
  predicate Chunked(chunks: seq<seq<string>>) {
    chunks != [] && PlainLines(chunks[0]) && forall i | 1 <= i < |chunks| :: StartsResponse(chunks[i])
  }

  function Stripped(chunks: seq<seq<string>>): (sections: seq<seq<string>>)
    ensures |sections| == |chunks|
  {
    seq(|chunks|, i requires 0 <= i < |chunks| => StripEmpty(chunks[i]))
  }

  lemma {:induction false} SectionsOfPlain(lines: seq<string>, rest: seq<string>, block: seq<seq<string>>, current: seq<string>)
    requires PlainLines(lines)
    ensures Sections(lines + rest, block, current) == Sections(rest, block, current + lines)
    decreases |lines|
  {
    if lines == [] {
      assert lines + rest == rest && current + lines == current;
    } else {
      assert (lines + rest)[0] == lines[0] && (lines + rest)[1..] == lines[1..] + rest;
      assert current + lines == current + [lines[0]] + lines[1..];
      SectionsOfPlain(lines[1..], rest, block, current + [lines[0]]);
    }
  }

  /** The end of a rule: the end of the text, or a separator and whatever follows. */
  predicate IsEnd(tail: seq<string>, after: seq<string>) {
    (tail == [] && after == []) || tail == [SEP_LINE] + after
  }

  lemma {:induction false} SectionsOfResponses(resps: seq<seq<string>>, tail: seq<string>, after: seq<string>,
                                               block: seq<seq<string>>, current: seq<string>)
    requires IsEnd(tail, after)
    requires forall i | 0 <= i < |resps| :: StartsResponse(resps[i])
    ensures Sections(Flat(resps) + tail, block, current) == (AddLines(block, current) + Stripped(resps), after)
    decreases |resps|
  {
    hide StripEmpty, Sections, Stripped, AddLines;
    if resps == [] {
      assert Flat(resps) + tail == tail;
      SectionsEnd(tail, after, block, current);
    } else {
      var first, more := resps[0], Flat(resps[1..]) + tail;
      assert Flat(resps) + tail == first + more;
      SectionsOfResponse(first, more, block, current);
      SectionsOfResponses(resps[1..], tail, after, AddLines(block, current), first);
      StrippedCons(AddLines(block, current), resps);
    }
  }

  lemma StrippedCons(block: seq<seq<string>>, resps: seq<seq<string>>)
    requires resps != [] && StartsResponse(resps[0])
    ensures AddLines(block, resps[0]) + Stripped(resps[1..]) == block + Stripped(resps)
  {
    assert StripEmpty(resps[0]) != [];
    hide StripEmpty;
    assert [StripEmpty(resps[0])] + Stripped(resps[1..]) == Stripped(resps);
  }

  lemma SectionsOfResponse(first: seq<string>, more: seq<string>, block: seq<seq<string>>, current: seq<string>)
    requires StartsResponse(first)
    ensures Sections(first + more, block, current) == Sections(more, AddLines(block, current), first)
  {
    hide StripEmpty;
    var lines := first + more;
    assert lines[0] == first[0] && lines[1..] == first[1..] + more;
    SectionsOfPlain(first[1..], more, AddLines(block, current), [first[0]]);
    assert [first[0]] + first[1..] == first;
  }

  lemma SectionsEnd(tail: seq<string>, after: seq<string>, block: seq<seq<string>>, current: seq<string>)
    requires IsEnd(tail, after)
    ensures Sections(tail, block, current) == (AddLines(block, current) + Stripped([]), after)
  {
    hide AddLines;
    assert AddLines(block, current) + Stripped([]) == AddLines(block, current);
    if tail != [] {
      assert tail[1..] == after;
      SeparatorIsNoResponse();
    }
  }

  lemma SeparatorIsNoResponse()
    ensures !(RESP_START <= SEP_LINE)
  {
    assert SEP_LINE == "-" + Dashes(65);
    assert SEP_LINE[0] == '-' && RESP_START[0] == 'H';
  }

  lemma SectionsOfChunks(chunks: seq<seq<string>>, tail: seq<string>, after: seq<string>)
    requires Chunked(chunks) && IsEnd(tail, after)
    ensures Sections(Flat(chunks) + tail, [], []) == (AddLines([], chunks[0]) + Stripped(chunks[1..]), after)
  {
    hide StripEmpty, Sections, AddLines;
    var more := Flat(chunks[1..]) + tail;
    assert Flat(chunks) + tail == chunks[0] + more;
    SectionsOfPlain(chunks[0], more, [], []);
    assert [] + chunks[0] == chunks[0];
    SectionsOfResponses(chunks[1..], tail, after, [], chunks[0]);
  }

  lemma StripShown(s: Section)
    requires WellLaid(s)
    ensures StripEmpty(Shown(s)) == s.lines
  {
    var shown := Shown(s);
    if s.lead {
      assert shown[1..] == s.lines + Padding(s.trail);
    }
    if s.trail {
      assert (s.lines + [""])[..|s.lines|] == s.lines;
    }
  }

  lemma EmptyIsPlain()
    ensures Plain("")
  {
    assert SEP_LINE == "-" + Dashes(65);
    assert SEP_LINE != "";
  }

  lemma ShownPlain(s: Section)
    requires PlainLines(s.lines)
    ensures PlainLines(Shown(s))
  {
    EmptyIsPlain();
    hide Plain;
  }

  lemma ShownResponse(s: Section)
    requires ResponseLaid(s)
    ensures StartsResponse(Shown(s))
  {
    hide PlainLines, WellLaid;
    var rest := s.lines[1..] + Padding(s.trail);
    assert Shown(s)[0] == s.lines[0] && Shown(s)[1..] == rest;
    ShownPlain(Section(false, s.lines[1..], s.trail));
    assert Shown(Section(false, s.lines[1..], s.trail)) == rest;
  }

  lemma LaidOutIsChunked(b: Layout)
    requires LaidOut(b)
    ensures Chunked(Chunks(b))
  {
    hide PlainLines, WellLaid, Shown, StartsResponse, ResponseLaid;
    ShownPlain(b.request);
    forall i | 1 <= i < |Chunks(b)|
      ensures StartsResponse(Chunks(b)[i])
    {
      ShownResponse(b.responses[i - 1]);
    }
  }

  /** Reading up to the next separator returns exactly the sections laid out there, whatever
      padding stands before the first one and after each of them. */
  lemma SectionsOfLaidOut(b: Layout, tail: seq<string>, after: seq<string>)
    requires LaidOut(b) && IsEnd(tail, after)
    ensures Sections(Flat(Chunks(b)) + tail, [], []) == (SectionsOf(b), after)
  {
    hide Sections, StripEmpty, Shown, WellLaid, StartsResponse, PlainLines;
    LaidOutIsChunked(b);
    SectionsOfChunks(Chunks(b), tail, after);
    StripShown(b.request);
    var lines := b.request.lines;
    assert Chunks(b)[0] == Shown(b.request);
    assert AddLines([], Chunks(b)[0]) == if lines == [] then [] else [lines] by { assert [] + [lines] == [lines]; }
    forall i | 0 <= i < |b.responses|
      ensures StripEmpty(Chunks(b)[1..][i]) == b.responses[i].lines
    {
      assert ResponseLaid(b.responses[i]);
      StripShown(b.responses[i]);
    }
    assert Stripped(Chunks(b)[1..])
        == seq(|b.responses|, i requires 0 <= i < |b.responses| => b.responses[i].lines);
  }

  // ---------- every script is laid out in one way or another ----------

  function SectionOf(chunk: seq<string>): (s: Section)
    ensures Shown(s) == chunk && WellLaid(s) && s.lines == StripEmpty(chunk)
  {
    var lead := chunk != [] && chunk[0] == "";
    var rest := if lead then chunk[1..] else chunk;
    Section(lead, StripEmpty(chunk), rest != [] && rest[|rest| - 1] == "")
  }

  function LayoutOf(chunks: seq<seq<string>>): Layout
    requires chunks != []
  {
    Layout(SectionOf(chunks[0]), seq(|chunks| - 1, i requires 0 <= i < |chunks| - 1 => SectionOf(chunks[i + 1])))
  }

  lemma SectionLaid(chunk: seq<string>)
    ensures PlainLines(chunk) ==> PlainLines(SectionOf(chunk).lines)
    ensures StartsResponse(chunk) ==> ResponseLaid(SectionOf(chunk))
  {
    hide Plain, Shown, WellLaid;
    var lines := StripEmpty(chunk);
    if StartsResponse(chunk) {
      assert lines == chunk || lines == chunk[..|chunk| - 1];
      assert chunk[0] != "" && lines != [];
      assert forall i | 0 <= i < |lines| - 1 :: lines[1..][i] == chunk[1..][i];
    }
  }

  lemma LaidOutAs(chunks: seq<seq<string>>)
    requires Chunked(chunks)
    ensures LaidOut(LayoutOf(chunks)) && Chunks(LayoutOf(chunks)) == chunks
  {
    hide SectionOf, Shown, StripEmpty, PlainLines, StartsResponse, WellLaid, ResponseLaid;
    SectionLaid(chunks[0]);
    forall i | 1 <= i < |chunks|
      ensures ResponseLaid(SectionOf(chunks[i]))
    {
      SectionLaid(chunks[i]);
    }
    assert Chunks(LayoutOf(chunks)) == chunks;
  }

  /** Chunks of blocks between separators, found line by line from the end. */
  function Cut(lines: seq<string>): (seq<seq<seq<string>>>, bool) {
    if lines == [] then ([], false)
    else
      var (blocks, closed) := Cut(lines[1..]);
      if lines[0] == SEP_LINE then ([[[]]] + blocks, closed || blocks == [])
      else if blocks == [] || blocks[0] == [] then ([Ahead(lines[0], [[]])] + blocks, closed)
      else ([Ahead(lines[0], blocks[0])] + blocks[1..], closed)
  }

  function Ahead(line: string, block: seq<seq<string>>): seq<seq<string>>
    requires block != []
  {
    if RESP_START <= line then [[], [line] + block[0]] + block[1..] else [[line] + block[0]] + block[1..]
  }

  lemma FlatAhead(line: string, block: seq<seq<string>>)
    requires block != []
    ensures Flat(Ahead(line, block)) == [line] + Flat(block)
  {
    hide RESP_START;
    var ahead, first := Ahead(line, block), [line] + block[0];
    if RESP_START <= line {
      assert ahead[1..] == [first] + block[1..];
      assert ([first] + block[1..])[1..] == block[1..];
    } else {
      assert ahead[1..] == block[1..];
    }
  }

  lemma AheadChunked(line: string, block: seq<seq<string>>)
    requires Chunked(block) && line != SEP_LINE
    ensures Chunked(Ahead(line, block))
  {
    hide SEP_LINE, RESP_START;
    var ahead, first := Ahead(line, block), [line] + block[0];
    if RESP_START <= line {
      assert first[1..] == block[0];
      forall i | 1 <= i < |ahead|
        ensures StartsResponse(ahead[i])
      {
        assert i > 1 ==> ahead[i] == block[i - 1];
      }
    } else {
      assert PlainLines(first);
      forall i | 1 <= i < |ahead|
        ensures StartsResponse(ahead[i])
      {
        assert ahead[i] == block[i];
      }
    }
  }

  lemma {:induction false} CutPrints(lines: seq<string>)
    ensures var (blocks, closed) := Cut(lines);
            && PrintBlocks(blocks, closed) == lines
            && (blocks == [] ==> lines == [] && !closed)
            && forall i | 0 <= i < |blocks| :: Chunked(blocks[i])
  {
    if lines != [] {
      var (blocks, closed) := Cut(lines[1..]);
      CutPrints(lines[1..]);
      assert lines == [lines[0]] + lines[1..];
      CutOne(lines[0], lines[1..], blocks, closed);
    }
  }

  lemma CutOne(line: string, rest: seq<string>, blocks: seq<seq<seq<string>>>, closed: bool)
    requires Cut(rest) == (blocks, closed) && PrintBlocks(blocks, closed) == rest
    requires blocks == [] ==> rest == [] && !closed
    requires forall i | 0 <= i < |blocks| :: Chunked(blocks[i])
    ensures var (all, shut) := Cut([line] + rest);
            && PrintBlocks(all, shut) == [line] + rest && all != []
            && forall i | 0 <= i < |all| :: Chunked(all[i])
  {
    hide Chunked, Flat, Ahead;
    assert ([line] + rest)[1..] == rest;
    var (all, shut) := Cut([line] + rest);
    EmptyChunk();
    if line == SEP_LINE {
      assert all[1..] == blocks;
      assert [] + [SEP_LINE] + rest == [line] + rest;
    } else if blocks == [] {
      AheadChunked(line, [[]]);
      FlatAhead(line, [[]]);
    } else {
      ChunkedSome(blocks[0]);
      AheadChunked(line, blocks[0]);
      FlatAhead(line, blocks[0]);
      assert all[1..] == blocks[1..] && Flat(all[0]) == [line] + Flat(blocks[0]);
      PrintAhead(line, all, blocks, closed);
    }
  }

  lemma EmptyChunk()
    ensures Chunked([[]]) && (var none: seq<seq<string>> := [[]]; Flat(none) == [])
  {
  }

  lemma ChunkedSome(block: seq<seq<string>>)
    requires Chunked(block)
    ensures block != []
  {
  }

  lemma PrintAhead(line: string, all: seq<seq<seq<string>>>, blocks: seq<seq<seq<string>>>, closed: bool)
    requires all != [] && blocks != [] && all[1..] == blocks[1..] && Flat(all[0]) == [line] + Flat(blocks[0])
    ensures PrintBlocks(all, closed) == [line] + PrintBlocks(blocks, closed)
  {
    hide Flat;
  }

  /** Every text is a sequence of blocks laid out this way. */
  lemma EveryScript(lines: seq<string>) returns (bs: seq<Layout>, closed: bool)
    ensures forall i | 0 <= i < |bs| :: LaidOut(bs[i])
    ensures PrintBlocks(Texts(bs), closed) == lines
  {
    var (blocks, shut) := Cut(lines);
    CutPrints(lines);
    bs, closed := seq(|blocks|, i requires 0 <= i < |blocks| && blocks[i] != [] => LayoutOf(blocks[i])), shut;
    forall i | 0 <= i < |blocks|
      ensures LaidOut(bs[i]) && Chunks(bs[i]) == blocks[i]
    {
      LaidOutAs(blocks[i]);
    }
    assert Texts(bs) == blocks;
  }

  // ---------- what loading a script comes to ----------

  function ReadResponse(lines: seq<string>): Result<ResponseTemplate, ParseError> {
    ParseResponse(ReadLines(Join(lines)))
  }

  function ReadRequest(compiles: string -> bool, lines: seq<string>): Result<RequestTemplate, ParseError> {
    ParseRequest(compiles, ReadLines(Join(lines)))
  }

  /** A request section and responses, all of which can be parsed. */
  predicate Readable(compiles: string -> bool, sections: seq<seq<string>>) {
    && |sections| >= 2 && ReadRequest(compiles, sections[0]).Success?
    && forall i | 1 <= i < |sections| :: ReadResponse(sections[i]).Success?
  }

  predicate IsRule(compiles: string -> bool, sections: seq<seq<string>>, pair: TemplatePair) {
    && |sections| == 1 + |pair.resps| && ReadRequest(compiles, sections[0]) == Success(pair.req)
    && forall i | 0 <= i < |pair.resps| :: ReadResponse(sections[i + 1]) == Success(pair.resps[i])
  }

  /** The error of the first response that cannot be parsed; of the request if all can. */
  predicate FirstError(compiles: string -> bool, sections: seq<seq<string>>, e: ParseError)
    requires sections != []
  {
    || (exists i | 1 <= i < |sections| ::
          ReadResponse(sections[i]) == Failure(e) && forall j | 1 <= j < i :: ReadResponse(sections[j]).Success?)
    || (ReadRequest(compiles, sections[0]) == Failure(e) && forall j | 1 <= j < |sections| :: ReadResponse(sections[j]).Success?)
  }

  lemma {:induction false} ParseResponsesOutcome(sections: seq<seq<string>>)
    ensures match ParseResponses(sections)
            case Success(resps) =>
              |resps| == |sections| && forall i | 0 <= i < |sections| :: ReadResponse(sections[i]) == Success(resps[i])
            case Failure(e) =>
              exists i | 0 <= i < |sections| ::
                ReadResponse(sections[i]) == Failure(e) && forall j | 0 <= j < i :: ReadResponse(sections[j]).Success?
  {
    hide ParseResponse, ReadLines, Join;
    if sections != [] {
      ParseResponsesOutcome(sections[1..]);
      assert ReadResponse(sections[0]) == ParseResponse(ReadLines(Join(sections[0])));
      if ReadResponse(sections[0]).Success? && ParseResponses(sections[1..]).Failure? {
        var e := ParseResponses(sections[1..]).error;
        var i :| 0 <= i < |sections[1..]| && ReadResponse(sections[1..][i]) == Failure(e)
                 && forall j | 0 <= j < i :: ReadResponse(sections[1..][j]).Success?;
        assert ReadResponse(sections[i + 1]) == Failure(e);
        forall j | 0 <= j < i + 1
          ensures ReadResponse(sections[j]).Success?
        {
          if j > 0 {
            assert sections[j] == sections[1..][j - 1];
          }
        }
      }
    }
  }

  lemma ParseBlockOutcome(compiles: string -> bool, sections: seq<seq<string>>)
    requires |sections| >= 2
    ensures match ParseBlock(compiles, sections)
            case Success(pair) => Readable(compiles, sections) && IsRule(compiles, sections, pair)
            case Failure(e) => !Readable(compiles, sections) && e.Unreadable? && FirstError(compiles, sections, e.error)
  {
    hide ParseResponse, ParseRequest, ReadLines, Join, ParseResponses, ReadResponse;
    ParseResponsesOutcome(sections[1..]);
    match ParseResponses(sections[1..])
    case Success(resps) =>
      forall j | 1 <= j < |sections|
        ensures ReadResponse(sections[j]) == Success(resps[j - 1])
      {
        assert sections[j] == sections[1..][j - 1];
      }
    case Failure(e) =>
      var i :| 0 <= i < |sections[1..]| && ReadResponse(sections[1..][i]) == Failure(e)
               && forall j | 0 <= j < i :: ReadResponse(sections[1..][j]).Success?;
      assert ReadResponse(sections[i + 1]) == Failure(e);
      forall j | 1 <= j < i + 1
        ensures ReadResponse(sections[j]).Success?
      {
        assert sections[j] == sections[1..][j - 1];
      }
  }

  /** Block k is the first one that is no readable rule; there is none if k is their number. */
  predicate StopsAtBlock(compiles: string -> bool, bs: seq<Layout>, k: nat) {
    && k <= |bs| && (forall j | 0 <= j < k :: Readable(compiles, SectionsOf(bs[j])))
    && (k < |bs| ==> !Readable(compiles, SectionsOf(bs[k])))
  }

  lemma {:induction false} StopBlock(compiles: string -> bool, bs: seq<Layout>) returns (k: nat)
    ensures StopsAtBlock(compiles, bs, k)
  {
    hide Readable, SectionsOf;
    if bs == [] || !Readable(compiles, SectionsOf(bs[0])) {
      k := 0;
    } else {
      var n := StopBlock(compiles, bs[1..]);
      k := n + 1;
      forall j | 0 <= j < k
        ensures Readable(compiles, SectionsOf(bs[j]))
      {
        if j > 0 {
          assert bs[j] == bs[1..][j - 1];
        }
      }
    }
  }

  /** What loading returns when block k is the first that is no readable rule. */
  ghost predicate LoadsTo(compiles: string -> bool, bs: seq<Layout>, k: nat, r: Result<seq<TemplatePair>, ScriptError>)
    requires k <= |bs|
  {
    if k == |bs| || SectionsOf(bs[k]) == [] then
      && r.Success? && |r.value| == k
      && forall i | 0 <= i < k :: IsRule(compiles, SectionsOf(bs[i]), r.value[i])
    else if |SectionsOf(bs[k])| == 1 then r == Failure(MissingResponse)
    else r.Failure? && r.error.Unreadable? && FirstError(compiles, SectionsOf(bs[k]), r.error.error)
  }

  /** Loading gives the rules of the readable blocks in order, up to the end or an empty block.
      It fails at the first other block: for a missing response if that has one section, with
      the error of its first unreadable section if it has more. */
  lemma {:induction false} LoadOutcome(compiles: string -> bool, bs: seq<Layout>, closed: bool, k: nat)
    requires forall i | 0 <= i < |bs| :: LaidOut(bs[i])
    requires StopsAtBlock(compiles, bs, k)
    ensures LoadsTo(compiles, bs, k, LoadRules(compiles, PrintBlocks(Texts(bs), closed)))
    decreases |bs|
  {
    hide ParseBlock, LaidOut, Readable, LoadsTo, SectionsOf, LoadRules, Flat, Chunks, IsEnd;
    if bs == [] {
      LoadNothing(compiles, bs);
    } else {
      var rest := bs[1..];
      var after := PrintBlocks(Texts(rest), closed);
      var tail := PrintFirst(bs, closed);
      if k == 0 {
        LoadStops(compiles, bs, tail, after);
      } else {
        assert Readable(compiles, SectionsOf(bs[0]));
        assert forall j | 0 <= j < k - 1 :: rest[j] == bs[j + 1];
        LoadOutcome(compiles, rest, closed, k - 1);
        LoadGoesOn(compiles, bs, tail, after, k);
      }
    }
  }

  lemma PrintFirst(bs: seq<Layout>, closed: bool) returns (tail: seq<string>)
    requires bs != []
    ensures PrintBlocks(Texts(bs), closed) == Flat(Chunks(bs[0])) + tail
    ensures IsEnd(tail, PrintBlocks(Texts(bs[1..]), closed))
  {
    hide Flat, Chunks;
    tail := if |bs| == 1 && !closed then [] else [SEP_LINE] + PrintBlocks(Texts(bs[1..]), closed);
    assert Texts(bs)[1..] == Texts(bs[1..]);
  }

  lemma LoadNothing(compiles: string -> bool, bs: seq<Layout>)
    requires bs == []
    ensures LoadsTo(compiles, bs, 0, LoadRules(compiles, []))
  {
    NothingToRead();
  }

  lemma LoadStops(compiles: string -> bool, bs: seq<Layout>, tail: seq<string>, after: seq<string>)
    requires bs != [] && LaidOut(bs[0]) && IsEnd(tail, after) && !Readable(compiles, SectionsOf(bs[0]))
    ensures LoadsTo(compiles, bs, 0, LoadRules(compiles, Flat(Chunks(bs[0])) + tail))
  {
    hide ParseBlock, LaidOut, Readable, IsRule, FirstError, SectionsOf, LoadRules, Flat, Chunks;
    LoadBlock(compiles, bs[0], tail, after);
  }

  lemma LoadGoesOn(compiles: string -> bool, bs: seq<Layout>, tail: seq<string>, after: seq<string>, k: nat)
    requires 0 < k <= |bs| && LaidOut(bs[0]) && IsEnd(tail, after) && Readable(compiles, SectionsOf(bs[0]))
    requires LoadsTo(compiles, bs[1..], k - 1, LoadRules(compiles, after))
    ensures LoadsTo(compiles, bs, k, LoadRules(compiles, Flat(Chunks(bs[0])) + tail))
  {
    hide ParseBlock, LaidOut, Readable, IsRule, FirstError, SectionsOf, LoadRules, Flat, Chunks, LoadsTo;
    ReadableSize(compiles, SectionsOf(bs[0]));
    LoadBlock(compiles, bs[0], tail, after);
    LoadsMore(compiles, bs, k, ParseBlock(compiles, SectionsOf(bs[0])).value, LoadRules(compiles, after));
  }

  /** Loading goes on after a block that is a readable rule, and ends at any other. */
  lemma LoadBlock(compiles: string -> bool, b: Layout, tail: seq<string>, after: seq<string>)
    requires LaidOut(b) && IsEnd(tail, after)
    ensures var sections, r := SectionsOf(b), LoadRules(compiles, Flat(Chunks(b)) + tail);
            if |sections| == 0 then r == Success([])
            else if |sections| == 1 then r == Failure(MissingResponse)
            else match ParseBlock(compiles, sections)
              case Failure(e) =>
                !Readable(compiles, sections) && r == Failure(e) && e.Unreadable? && FirstError(compiles, sections, e.error)
              case Success(pair) =>
                && Readable(compiles, sections) && IsRule(compiles, sections, pair)
                && r == match LoadRules(compiles, after)
                        case Failure(e) => Failure(e)
                        case Success(more) => Success([pair] + more)
  {
    hide ParseBlock, LaidOut, Readable, IsRule, FirstError, SectionsOf, Sections, Flat, Chunks;
    SectionsOfLaidOut(b, tail, after);
    if |SectionsOf(b)| >= 2 {
      ParseBlockOutcome(compiles, SectionsOf(b));
    }
  }

  lemma ReadableSize(compiles: string -> bool, sections: seq<seq<string>>)
    requires Readable(compiles, sections)
    ensures |sections| >= 2
  {
  }

  lemma LoadsMore(compiles: string -> bool, bs: seq<Layout>, k: nat, pair: TemplatePair, r: Result<seq<TemplatePair>, ScriptError>)
    requires 0 < k <= |bs| && LoadsTo(compiles, bs[1..], k - 1, r) && IsRule(compiles, SectionsOf(bs[0]), pair)
    ensures LoadsTo(compiles, bs, k, if r.Success? then Success([pair] + r.value) else r)
  {
    hide IsRule, FirstError, SectionsOf;
    if r.Success? {
      forall i | 0 <= i < k
        ensures IsRule(compiles, SectionsOf(bs[i]), ([pair] + r.value)[i])
      {
        if i > 0 {
          assert bs[i] == bs[1..][i - 1];
        }
      }
    }
  }

  lemma NothingToRead()
    ensures Sections([], [], []) == ([], [])
  {
  }

  /** A response is missing exactly if some block has one section and all before it are readable rules. */
  lemma MissingResponseIff(compiles: string -> bool, bs: seq<Layout>, closed: bool)
    requires forall i | 0 <= i < |bs| :: LaidOut(bs[i])
    ensures LoadRules(compiles, PrintBlocks(Texts(bs), closed)) == Failure(MissingResponse)
            <==> exists k: nat | k < |bs| :: |SectionsOf(bs[k])| == 1 && StopsAtBlock(compiles, bs, k)
  {
    hide LaidOut, IsRule, FirstError, SectionsOf, LoadRules, PrintBlocks, StopsAtBlock;
    var stop := StopBlock(compiles, bs);
    LoadOutcome(compiles, bs, closed, stop);
    forall k: nat | k < |bs| && StopsAtBlock(compiles, bs, k)
      ensures k == stop
    {
      OneStop(compiles, bs, k, stop);
    }
    assert stop <= |bs| by { OneStop(compiles, bs, stop, stop); }
  }

  lemma OneStop(compiles: string -> bool, bs: seq<Layout>, k: nat, n: nat)
    requires StopsAtBlock(compiles, bs, k) && StopsAtBlock(compiles, bs, n)
    ensures k == n <= |bs|
  {
    hide Readable, SectionsOf;
  }

  // ---------- rules printed from their parts ----------

  datatype PrintedResponse = PrintedResponse(version: string, code: int, reason: string, headers: seq<Header>, body: seq<string>)

  /** The parts of a rule, and whether an empty line stands before it. */
  datatype PrintedRule =
    PrintedRule(lead: bool, top: TopLine, items: seq<HeaderItem>, body: seq<string>, responses: seq<PrintedResponse>)

  function ResponseLines(p: PrintedResponse): seq<string> {
    PrintResponse(p.version, p.code, p.reason, p.headers, p.body)
  }

  predicate PrintableResponse(p: PrintedResponse) {
    && RESP_START <= p.version && ' ' !in p.version && OneLine(p.version) && OneLine(p.reason)
    && MIN_INT <= p.code <= MAX_INT
    && (forall h | h in p.headers :: PrintableHeader(h)) && AreLines(p.body)
    && PlainLines(ResponseLines(p)[1..])
  }

  predicate PrintableRule(compiles: string -> bool, p: PrintedRule) {
    && PrintableTop(compiles, p.top) && TopText(p.top) != "" && AreLines(p.body)
    && (forall i | 0 <= i < |p.items| :: PrintableItem(p.items[i]))
    && PlainLines(PrintRequest(p.top, p.items, p.body))
    && p.responses != [] && forall i | 0 <= i < |p.responses| :: PrintableResponse(p.responses[i])
  }

  function BlockOf(p: PrintedRule): (chunks: seq<seq<string>>)
    ensures |chunks| == 1 + |p.responses|
  {
    [Padding(p.lead) + PrintRequest(p.top, p.items, p.body)] + ResponseBlocks(p.responses)
  }

  function ResponseBlocks(ps: seq<PrintedResponse>): seq<seq<string>> {
    seq(|ps|, i requires 0 <= i < |ps| => ResponseLines(ps[i]))
  }

  /** What is kept of a body: reading a section drops one empty line at its end, and parsing
      it the padding that is left. */
  function KeptOfSection(body: seq<string>): seq<string> {
    Kept(WithoutEmptyEnd(body))
  }

  /** That is the text of the body exactly if it is not padded. */
  lemma KeptOfSectionIff(body: seq<string>)
    ensures Join(KeptOfSection(body)) == Join(body) <==> Unpadded(body)
  {
    hide Join;
    KeptLength(body);
    KeptLength(WithoutEmptyEnd(body));
    JoinLength(body);
    JoinLength(KeptOfSection(body));
    KeptIsBodyIff(body);
    if body == [""] {
      assert Join(body) == "" && Join(KeptOfSection(body)) == "";
    }
  }

  function ResponseOf(p: PrintedResponse): ResponseTemplate {
    ResponseTemplate(p.code, HeaderMap(p.headers), Join(KeptOfSection(p.body)))
  }

  function ResponsesOf(ps: seq<PrintedResponse>): seq<ResponseTemplate> {
    seq(|ps|, i requires 0 <= i < |ps| => ResponseOf(ps[i]))
  }

  function RuleOf(p: PrintedRule): TemplatePair {
    TemplatePair(Assembled(p.top, p.items, KeptOfSection(p.body)), ResponsesOf(p.responses))
  }

  /** Stripping a printed section takes one empty line off its body, or the one before a
      missing body. */
  lemma StripSection(head: seq<string>, body: seq<string>)
    requires head != [] && head[0] != "" && head[|head| - 1] != ""
    ensures StripEmpty(head + [""] + body) == if body == [] then head else head + [""] + WithoutEmptyEnd(body)
  {
    var lines := head + [""] + body;
    assert lines[0] == head[0];
    if body == [] {
      assert lines[..|lines| - 1] == head;
    } else {
      assert lines[|lines| - 1] == body[|body| - 1];
      assert lines[..|lines| - 1] == head + [""] + body[..|body| - 1];
    }
  }

  lemma StripLead(lines: seq<string>)
    requires lines != [] && lines[0] != ""
    ensures StripEmpty([""] + lines) == StripEmpty(lines)
  {
    assert ([""] + lines)[1..] == lines;
  }

  lemma RequestSection(compiles: string -> bool, p: PrintedRule)
    requires PrintableRule(compiles, p)
    ensures var chunk := BlockOf(p)[0];
            && PlainLines(chunk) && StripEmpty(chunk) != []
            && ReadRequest(compiles, StripEmpty(chunk)) == Success(Assembled(p.top, p.items, KeptOfSection(p.body)))
  {
    hide ParseRequest, TopText, PrintableItem, PrintableTop, Join, Assembled, ReadLines, StripEmpty, ItemLines, Plain,
         PrintableResponse, Kept, ResponseBlocks;
    var lines, head := PrintRequest(p.top, p.items, p.body), [TopText(p.top)] + ItemLines(p.items);
    RequestTemplates.PrintedAreLines(compiles, p.top, p.items, p.body);
    ItemLinesNotEmpty(p.items);
    StripSection(head, p.body);
    EmptyIsPlain();
    assert lines[0] == head[0];
    StripLead(lines);
    assert [] + lines == lines;
    if p.body == [] {
      assert lines[..1 + |p.items|] == head;
      ParsePrintedItems(compiles, p.top, p.items);
      ReadJoined(head);
      KeptNothing();
    } else {
      RequestTemplates.ParsePrinted(compiles, p.top, p.items, WithoutEmptyEnd(p.body));
    }
  }

  lemma KeptNothing()
    ensures KeptOfSection([]) == [] && Join([]) == ""
  {
  }

  lemma ResponseSection(p: PrintedResponse)
    requires PrintableResponse(p)
    ensures ReadResponse(StripEmpty(ResponseLines(p))) == Success(ResponseOf(p))
    ensures StartsResponse(ResponseLines(p))
  {
    hide ParseResponse, PrintableHeader, Join, ReadLines, StripEmpty, HeaderLines, HeaderMap, PlainLines, ShowInt, Kept;
    var lines := ResponseLines(p);
    var head := [lines[0]] + HeaderLines(p.headers);
    ResponseTemplates.PrintedAreLines(p.version, p.code, p.reason, p.headers, p.body);
    HeaderLinesNotEmpty(p.headers);
    LinesCount(p.headers);
    StatusLine(p);
    assert lines == head + [""] + p.body;
    StripSection(head, p.body);
    if p.body == [] {
      assert lines[..1 + |p.headers|] == head;
      ParsePrintedHeaders(p.version, p.code, p.reason, p.headers);
      ReadJoined(head);
      KeptNothing();
    } else {
      ResponseTemplates.ParsePrinted(p.version, p.code, p.reason, p.headers, WithoutEmptyEnd(p.body));
      assert head + [""] + WithoutEmptyEnd(p.body)
          == PrintResponse(p.version, p.code, p.reason, p.headers, WithoutEmptyEnd(p.body));
    }
  }

  lemma StatusLine(p: PrintedResponse)
    requires RESP_START <= p.version
    ensures RESP_START <= ResponseLines(p)[0] && ResponseLines(p)[0] != ""
  {
    hide ShowInt;
    assert ResponseLines(p)[0] == p.version + (" " + ShowInt(p.code) + " " + p.reason);
  }

  lemma SectionsAreStripped(chunks: seq<seq<string>>)
    requires chunks != [] && StripEmpty(chunks[0]) != []
    ensures SectionsOf(LayoutOf(chunks)) == Stripped(chunks)
  {
    hide StripEmpty, Shown, WellLaid, SectionOf;
  }

  lemma BlockSections(compiles: string -> bool, p: PrintedRule)
    requires PrintableRule(compiles, p)
    ensures Chunked(BlockOf(p))
    ensures var sections := SectionsOf(LayoutOf(BlockOf(p)));
            && |sections| == 1 + |p.responses|
            && ReadRequest(compiles, sections[0]) == Success(Assembled(p.top, p.items, KeptOfSection(p.body)))
            && forall i | 0 <= i < |p.responses| :: ReadResponse(sections[i + 1]) == Success(ResponseOf(p.responses[i]))
  {
    hide ReadRequest, ReadResponse, StripEmpty, ResponseLines, PrintRequest, Assembled, PrintableItem, PrintableTop,
         TopText, PlainLines, PrintableResponse, StartsResponse, ResponseOf, KeptOfSection, SectionsOf, LayoutOf;
    RequestSection(compiles, p);
    SectionsAreStripped(BlockOf(p));
    forall i | 0 <= i < |p.responses|
      ensures StartsResponse(BlockOf(p)[i + 1])
      ensures ReadResponse(StripEmpty(BlockOf(p)[i + 1])) == Success(ResponseOf(p.responses[i]))
    {
      ResponseSection(p.responses[i]);
    }
    forall i | 1 <= i < |BlockOf(p)|
      ensures StartsResponse(BlockOf(p)[i])
    {
      assert StartsResponse(BlockOf(p)[i - 1 + 1]);
    }
  }

  /** A printed rule is laid out as a block from which that rule is read. */
  lemma BlockIsLaidOut(compiles: string -> bool, p: PrintedRule)
    requires PrintableRule(compiles, p)
    ensures var b := LayoutOf(BlockOf(p));
            && LaidOut(b) && Chunks(b) == BlockOf(p)
            && Readable(compiles, SectionsOf(b))
            && forall pair | IsRule(compiles, SectionsOf(b), pair) :: pair == RuleOf(p)
  {
    hide ReadRequest, ReadResponse, PrintableResponse, ResponseOf, LaidOut, SectionsOf, LayoutOf, BlockOf, Chunked,
         Assembled, KeptOfSection, PrintableItem, PrintableTop, TopText, PlainLines, PrintRequest;
    var sections := SectionsOf(LayoutOf(BlockOf(p)));
    BlockSections(compiles, p);
    LaidOutAs(BlockOf(p));
    forall i | 1 <= i < |sections|
      ensures ReadResponse(sections[i]).Success?
    {
      assert ReadResponse(sections[i - 1 + 1]) == Success(ResponseOf(p.responses[i - 1]));
    }
    forall pair | IsRule(compiles, sections, pair)
      ensures pair == RuleOf(p)
    {
      assert pair.resps == ResponsesOf(p.responses);
    }
  }

  function BlocksOf(ps: seq<PrintedRule>): seq<seq<seq<string>>> {
    seq(|ps|, i requires 0 <= i < |ps| => BlockOf(ps[i]))
  }

  function RulesOfPrinted(ps: seq<PrintedRule>): seq<TemplatePair> {
    seq(|ps|, i requires 0 <= i < |ps| => RuleOf(ps[i]))
  }

  /** Loading a script printed from rules, each with or without an empty line before it, gives
      back every request and response of every rule, in order. */
  lemma LoadPrintedRules(compiles: string -> bool, ps: seq<PrintedRule>, closed: bool)
    requires forall i | 0 <= i < |ps| :: PrintableRule(compiles, ps[i])
    ensures LoadRules(compiles, PrintBlocks(BlocksOf(ps), closed)) == Success(RulesOfPrinted(ps))
  {
    hide PrintableRule, BlockOf, RuleOf, LoadRules, PrintBlocks, LayoutOf, LaidOut, Chunks, SectionsOf, Readable, IsRule;
    var bs := seq(|ps|, i requires 0 <= i < |ps| => LayoutOf(BlockOf(ps[i])));
    forall i | 0 <= i < |ps|
      ensures LaidOut(bs[i]) && Chunks(bs[i]) == BlockOf(ps[i]) && Readable(compiles, SectionsOf(bs[i]))
      ensures forall pair | IsRule(compiles, SectionsOf(bs[i]), pair) :: pair == RuleOf(ps[i])
    {
      BlockIsLaidOut(compiles, ps[i]);
    }
    assert Texts(bs) == BlocksOf(ps);
    LoadOutcome(compiles, bs, closed, |ps|);
    var r := LoadRules(compiles, PrintBlocks(BlocksOf(ps), closed));
    assert r.value == RulesOfPrinted(ps);
  }
}
