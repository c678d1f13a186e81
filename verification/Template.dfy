/** A multi-line reverse template: matching a whole text against it. */
module Template {
  import opened Outcomes
  import opened Lines
  import opened Tokenizer
  import opened Matcher
  import opened CaptureLaws

  /** The token lists of all lines of a template, or the failure of the first bad line. */
  function Compile(lines: seq<string>): Result<seq<seq<Token>>, TokenError> {
    if lines == [] then Success([])
    else match (Tokenize(lines[0], 0), Compile(lines[1..]))
      case (Success(tokens), Success(rest)) => Success([tokens] + rest)
      case _ => Failure(NumberFormat)
  }

  method Init(templateContent: string) returns (r: Result<seq<seq<Token>>, TokenError>)
    ensures r == Compile(ReadLines(templateContent))
  {
    var allTokens: seq<seq<Token>> := [];
    var rest := templateContent;
    AfterNothing(Compile(ReadLines(rest)));
    while rest != ""
      invariant Compile(ReadLines(templateContent)) == After(allTokens, Compile(ReadLines(rest)))
      decreases |rest|
    {
      var (line, next) := ReadLine(rest);
      assert ReadLines(rest)[1..] == ReadLines(next);
      var tokens := ParseTemplateLine(line);
      if tokens.Failure? {
        return Failure(NumberFormat);
      }
      AfterStep(allTokens, tokens.value, Compile(ReadLines(next)));
      allTokens := allTokens + [tokens.value];
      rest := next;
    }
    assert allTokens + [] == allTokens;
    return Success(allTokens);
  }

  // ---------- merging the captures of a line ----------

  method Merge(source: Captures, dest: Captures) returns (r: Captures)
    ensures r == Merged(source, dest)
  {
    r := source;
    var todo := dest.Keys;
    while todo != {}
      invariant todo <= dest.Keys
      invariant r.Keys == source.Keys + (dest.Keys - todo)
      invariant forall x | x in r :: r[x] == if x in todo then source[x] else MergedValue(source, dest, x)
      decreases todo
    {
      var x :| x in todo;
      if x in r && r[x].Items? && dest[x].Items? {
        r := r[x := Items(r[x].items + dest[x].items)];
      } else {
        r := r[x := dest[x]];
      }
      todo := todo - {x};
    }
  }

  // ---------- matching all lines ----------

  /** Matches the lines in order, merging the captures into those found so far. */
  function ParseLines(allTokens: seq<seq<Token>>, lines: seq<string>, found: Captures): Outcome
    decreases |lines|
  {
    if lines == [] then (if allTokens == [] then Match(found) else NoMatch)
    else if allTokens == [] then NoMatch
    else match MatchLine(lines[0], allTokens[0])
      case Match(m) => ParseLines(allTokens[1..], lines[1..], Merged(found, m))
      case other => other
  }

  /** What a template answers for a text; there is no answer for no text. */
  function ParseText(allTokens: seq<seq<Token>>, content: Option<string>): Outcome {
    match content
    case None => NoMatch
    case Some(text) => ParseLines(allTokens, ReadLines(text), map[])
  }

  method Parse(allTokens: seq<seq<Token>>, content: Option<string>) returns (r: Outcome)
    ensures r == ParseText(allTokens, content)
  {
    if content.None? {
      return NoMatch;
    }
    var lineNum := 1;
    var ret: Captures := map[];
    var rest := content.value;
    while rest != ""
      invariant 1 <= lineNum <= |allTokens| + 1
      invariant ParseText(allTokens, content) == ParseLines(allTokens[lineNum - 1..], ReadLines(rest), ret)
      decreases |rest|
    {
      var (contentLine, next) := ReadLine(rest);
      assert ReadLines(rest)[1..] == ReadLines(next);
      if |allTokens| >= lineNum {
        assert allTokens[lineNum - 1..][1..] == allTokens[lineNum..];
        assert allTokens[lineNum - 1][0..] == allTokens[lineNum - 1];
        var lineResult := ParseLine(contentLine, allTokens[lineNum - 1], 0);
        if !lineResult.Match? {
          return lineResult;
        }
        ret := Merge(ret, lineResult.captures);
      } else {
        return NoMatch;
      }
      lineNum := lineNum + 1;
      rest := next;
    }
    if |allTokens| >= lineNum {
      return NoMatch;
    }
    return Match(ret);
  }

  /** A text matches if and only if it has as many lines as the template and every line
      has a valid split by its own line of the template, which does not clash. */
  lemma {:induction false} ParseSucceedsIff(allTokens: seq<seq<Token>>, lines: seq<string>, found: Captures)
    ensures ParseLines(allTokens, lines, found).Match? <==>
            |allTokens| == |lines| && forall i | 0 <= i < |lines| :: Splits(lines[i], allTokens[i]) && !Clash(allTokens[i])
    decreases |lines|
  {
    hide MatchLine, Splits, Clash;
    if lines != [] && allTokens != [] {
      ClassCastIff(lines[0], allTokens[0]);
    }
    if lines != [] && allTokens != [] && MatchLine(lines[0], allTokens[0]).Match? {
      var m := MatchLine(lines[0], allTokens[0]).captures;
      ParseSucceedsIff(allTokens[1..], lines[1..], Merged(found, m));
      assert forall i | 0 < i < |lines| :: lines[i] == lines[1..][i - 1];
      assert forall i | 0 < i < |allTokens| :: allTokens[i] == allTokens[1..][i - 1];
      assert forall i | 0 <= i < |lines| - 1 :: lines[1..][i] == lines[i + 1];
      assert forall i | 0 <= i < |allTokens| - 1 :: allTokens[1..][i] == allTokens[i + 1];
    }
  }

  /** Every line before line k has a valid split by its template line, which does not clash. */
  ghost predicate GoodBefore(allTokens: seq<seq<Token>>, lines: seq<string>, k: nat) {
    && k <= |allTokens| && k <= |lines|
    && forall i | 0 <= i < k :: Splits(lines[i], allTokens[i]) && !Clash(allTokens[i])
  }

  /** Line k is the first where the text or the template ends, or that is not good. */
  ghost predicate StopsAt(allTokens: seq<seq<Token>>, lines: seq<string>, k: nat) {
    && GoodBefore(allTokens, lines, k)
    && (k < |allTokens| && k < |lines| ==> !Splits(lines[k], allTokens[k]) || Clash(allTokens[k]))
  }

  lemma StopExists(allTokens: seq<seq<Token>>, lines: seq<string>) returns (k: nat)
    ensures StopsAt(allTokens, lines, k)
  {
    hide Splits, Clash;
    k := 0;
    while k < |allTokens| && k < |lines| && Splits(lines[k], allTokens[k]) && !Clash(allTokens[k])
      invariant GoodBefore(allTokens, lines, k)
      decreases |lines| - k
    {
      k := k + 1;
    }
  }

  /** What a text gives that stops at line k: captures if both end there; no match if only one
      does, or if line k has neither a split nor a probe past its end; an exception otherwise. */
  ghost predicate StopsWith(allTokens: seq<seq<Token>>, lines: seq<string>, k: nat, r: Outcome)
    requires StopsAt(allTokens, lines, k)
  {
    var both := k < |allTokens| && k < |lines|;
    && (r.Match? <==> k == |allTokens| == |lines|)
    && (r == Thrown(OutOfRange) <==> both && !Splits(lines[k], allTokens[k]) && Overruns(lines[k], allTokens[k]))
    && (r == Thrown(ClassCast) <==> both && Splits(lines[k], allTokens[k]) && Clash(allTokens[k]))
    && (r == NoMatch <==>
          || (k < |allTokens|) != (k < |lines|)
          || (both && !Splits(lines[k], allTokens[k]) && !Overruns(lines[k], allTokens[k])))
  }

  lemma StopsTail(allTokens: seq<seq<Token>>, lines: seq<string>, k: nat)
    requires k > 0 && StopsAt(allTokens, lines, k)
    ensures StopsAt(allTokens[1..], lines[1..], k - 1)
    ensures Splits(lines[0], allTokens[0]) && !Clash(allTokens[0])
  {
    hide Splits, Clash;
    assert forall i | 0 <= i < |lines| - 1 :: lines[1..][i] == lines[i + 1];
    assert forall i | 0 <= i < |allTokens| - 1 :: allTokens[1..][i] == allTokens[i + 1];
  }

  lemma {:induction false} ParseLinesOutcome(allTokens: seq<seq<Token>>, lines: seq<string>, found: Captures, k: nat)
    requires StopsAt(allTokens, lines, k)
    ensures StopsWith(allTokens, lines, k, ParseLines(allTokens, lines, found))
    decreases k
  {
    hide MatchLine, Splits, Clash, Overruns, Merged;
    if k > 0 {
      StopsTail(allTokens, lines, k);
      ClassCastIff(lines[0], allTokens[0]);
      ParseLinesOutcome(allTokens[1..], lines[1..], Merged(found, MatchLine(lines[0], allTokens[0]).captures), k - 1);
    } else if lines != [] && allTokens != [] {
      OutcomeIff(lines[0], allTokens[0]);
      ClassCastIff(lines[0], allTokens[0]);
    }
  }

  /** Which outcome a text has, whether or not it matches: decided at the first line that stops. */
  lemma ParseTextOutcome(allTokens: seq<seq<Token>>, content: Option<string>)
    ensures content.None? ==> ParseText(allTokens, content) == NoMatch
    ensures content.Some? ==>
              && (exists k :: StopsAt(allTokens, ReadLines(content.value), k))
              && forall k | StopsAt(allTokens, ReadLines(content.value), k) ::
                   StopsWith(allTokens, ReadLines(content.value), k, ParseText(allTokens, content))
  {
    hide StopsAt, StopsWith, ParseLines;
    if content.Some? {
      var lines := ReadLines(content.value);
      var k := StopExists(allTokens, lines);
      forall j | StopsAt(allTokens, lines, j)
        ensures StopsWith(allTokens, lines, j, ParseText(allTokens, content))
      {
        ParseLinesOutcome(allTokens, lines, map[], j);
      }
    }
  }

  /** A template compiles to the tokens of its lines, and fails exactly if one of them does. */
  lemma {:induction false} CompileIff(lines: seq<string>, allTokens: seq<seq<Token>>)
    ensures Compile(lines) == Success(allTokens) <==>
            |allTokens| == |lines| && forall i | 0 <= i < |lines| :: Tokenize(lines[i], 0) == Success(allTokens[i])
    ensures Compile(lines).Failure? <==> exists i | 0 <= i < |lines| :: Tokenize(lines[i], 0).Failure?
    decreases |lines|
  {
    hide Tokenize;
    if lines != [] {
      var rest := if allTokens == [] then [] else allTokens[1..];
      CompileIff(lines[1..], rest);
      assert forall i | 1 <= i < |lines| :: lines[i] == lines[1..][i - 1];
      assert forall i | 0 <= i < |lines| - 1 :: lines[1..][i] == lines[i + 1];
      assert forall i | 1 <= i < |allTokens| :: allTokens[i] == rest[i - 1];
      assert forall i | 0 <= i < |rest| :: rest[i] == allTokens[i + 1];
      assert allTokens != [] ==> allTokens == [allTokens[0]] + rest;
    }
  }

  // ---------- all captures of all lines as one fold ----------

  /** Each line is cut into its lexicographically first event, a split. */
  ghost predicate FirstSplits(allTokens: seq<seq<Token>>, lines: seq<string>, splits: seq<seq<string>>) {
    && |allTokens| == |lines| == |splits|
    && forall i | 0 <= i < |lines| :: IsFirst(lines[i], allTokens[i], Split(splits[i]))
  }

  lemma FoldAppend(m: Captures, tokens: seq<Token>, pieces: seq<string>, more: seq<Token>, morePieces: seq<string>)
    requires |tokens| == |pieces| && |more| == |morePieces|
    ensures Fold(m, tokens + more, pieces + morePieces) == Fold(Fold(m, tokens, pieces), more, morePieces)
  {
    FoldSplit(m, tokens + more, pieces + morePieces, |tokens|);
    assert (tokens + more)[..|tokens|] == tokens && (pieces + morePieces)[..|tokens|] == pieces;
    assert (tokens + more)[|tokens|..] == more && (pieces + morePieces)[|tokens|..] == morePieces;
  }

  lemma {:induction false} ArraysLastAppend(m: Captures, tokens: seq<Token>, pieces: seq<string>, more: seq<Token>)
    requires |tokens| == |pieces| && ArraysLast(m, tokens + more)
    ensures ArraysLast(m, tokens) && ArraysLast(Fold(m, tokens, pieces), more)
    decreases |tokens|
  {
    assert forall i | 0 <= i < |tokens| :: tokens[i] == (tokens + more)[i];
    if tokens == [] {
      assert tokens + more == more;
    } else {
      ArraysLastStep(m, tokens + more, pieces[0]);
      assert (tokens + more)[1..] == tokens[1..] + more;
      ArraysLastAppend(Step(m, tokens[0], pieces[0]), tokens[1..], pieces[1..], more);
    }
  }

  lemma FlatSizes(allTokens: seq<seq<Token>>, lines: seq<string>, splits: seq<seq<string>>)
    requires FirstSplits(allTokens, lines, splits)
    ensures |Flat(allTokens)| == |Flat(splits)|
    decreases |lines|
  {
    if lines != [] {
      assert IsFirst(lines[0], allTokens[0], Split(splits[0]));
      FirstSplitsTail(allTokens, lines, splits);
      FlatSizes(allTokens[1..], lines[1..], splits[1..]);
    }
  }

  lemma FirstSplitsTail(allTokens: seq<seq<Token>>, lines: seq<string>, splits: seq<seq<string>>)
    requires FirstSplits(allTokens, lines, splits) && lines != []
    ensures FirstSplits(allTokens[1..], lines[1..], splits[1..])
  {
    forall i | 0 <= i < |lines| - 1
      ensures IsFirst(lines[1..][i], allTokens[1..][i], Split(splits[1..][i]))
    {
      assert IsFirst(lines[i + 1], allTokens[i + 1], Split(splits[i + 1]));
    }
  }

  lemma {:induction false} ParseIsFoldFrom(allTokens: seq<seq<Token>>, lines: seq<string>, splits: seq<seq<string>>, found: Captures)
    requires FirstSplits(allTokens, lines, splits) && |Flat(allTokens)| == |Flat(splits)|
    requires ArraysLast(found, Flat(allTokens))
    ensures ParseLines(allTokens, lines, found) == Match(Fold(found, Flat(allTokens), Flat(splits)))
    decreases |lines|
  {
    hide IsFirst, ArraysLast;
    if lines != [] {
      var tokens, pieces := allTokens[0], splits[0];
      assert IsFirst(lines[0], tokens, Split(pieces));
      FirstSplitsTail(allTokens, lines, splits);
      FlatSizes(allTokens[1..], lines[1..], splits[1..]);
      ArraysLastAppend(found, tokens, pieces, Flat(allTokens[1..]));
      MatchLineIsFirstEvent(lines[0], tokens, Split(pieces));
      MergedCollectIsFold(found, tokens, pieces);
      ParseIsFoldFrom(allTokens[1..], lines[1..], splits[1..], Fold(found, tokens, pieces));
      FoldAppend(found, tokens, pieces, Flat(allTokens[1..]), Flat(splits[1..]));
    }
  }

  /** Each name is used only as a scalar or only as an array in the whole template. */
  predicate OneKind(tokens: seq<Token>) {
    forall i, j | 0 <= i < |tokens| && 0 <= j < |tokens| ::
      tokens[i].Variable? && tokens[j].Variable? && tokens[i].name == tokens[j].name ==>
        tokens[i].isArray == tokens[j].isArray
  }

  /** With one kind per name, a successful parse returns one left-to-right fold over
      all captures of all lines: scalars overwritten, arrays appended. */
  lemma ParseIsFold(allTokens: seq<seq<Token>>, lines: seq<string>)
    requires OneKind(Flat(allTokens)) && ParseLines(allTokens, lines, map[]).Match?
    ensures exists splits :: && FirstSplits(allTokens, lines, splits) && |Flat(allTokens)| == |Flat(splits)|
                             && ParseLines(allTokens, lines, map[]) == Match(Fold(map[], Flat(allTokens), Flat(splits)))
  {
    var splits := SplitsOf(allTokens, lines);
    FlatSizes(allTokens, lines, splits);
    ParseIsFoldFrom(allTokens, lines, splits, map[]);
  }

  lemma {:induction false} SplitsOf(allTokens: seq<seq<Token>>, lines: seq<string>) returns (splits: seq<seq<string>>)
    requires ParseLines(allTokens, lines, map[]).Match?
    ensures FirstSplits(allTokens, lines, splits)
  {
    hide IsFirst;
    ParseSucceedsIff(allTokens, lines, map[]);
    splits := [];
    while |splits| < |lines|
      invariant |splits| <= |lines|
      invariant forall i | 0 <= i < |splits| :: IsFirst(lines[i], allTokens[i], Split(splits[i]))
    {
      var k := |splits|;
      ClassCastIff(lines[k], allTokens[k]);
      assert MatchLine(lines[k], allTokens[k]).Match?;
      var e := Search(lines[k], allTokens[k]);
      splits := splits + [e.value.pieces];
    }
  }
}
