/** The backtracking matcher of one content line against one tokenized template line. */
module Matcher {
  import opened Outcomes
  import opened Placeholders
  import opened Tokenizer

  /** What a name is bound to: one string, or for an array variable all of them. */
  datatype Value = Scalar(text: string) | Items(items: seq<string>)

  type Captures = map<string, Value>

  /** The two runtime exceptions the matcher can raise. */
  datatype Fault = OutOfRange | ClassCast

  datatype Outcome = Match(captures: Captures) | NoMatch | Thrown(fault: Fault)

  function MinOf(t: Token): nat
    requires t.Variable?
  {
    if t.minLen < 0 then 0 else t.minLen
  }

  function MaxOf(t: Token, line: string): nat
    requires t.Variable?
  {
    if t.maxLen < 0 then |line| else t.maxLen
  }

  /** Adds one more capture, found to the left of those already in m: a scalar
      keeps the value it has, an array grows at the front. */
  function Record(t: Token, piece: string, m: Captures): (r: Outcome)
    requires t.Variable?
    ensures !r.NoMatch?
  {
    if !t.isArray then
      Match(if t.name in m then m else m[t.name := Scalar(piece)])
    else if t.name !in m then
      Match(m[t.name := Items([piece])])
    else match m[t.name]
      case Items(items) => Match(m[t.name := Items([piece] + items)])
      case Scalar(_) => Thrown(ClassCast)
  }

  /** The answer for a line and the tokens still to be matched. */
  function MatchLine(line: string, tokens: seq<Token>): Outcome
    decreases |tokens|, 1, 0
  {
    if tokens == [] then (if line == "" then Match(map[]) else NoMatch)
    else if line == "" then NoMatch
    else match tokens[0]
      case Literal(text, _, _) =>
        if text <= line then MatchLine(line[|text|..], tokens[1..]) else NoMatch
      case Variable(_, _, _, _, _, _, _) =>
        TryFrom(line, tokens, MinOf(tokens[0]))
  }

  /** Tries the lengths from n up for the leading variable. */
  function TryFrom(line: string, tokens: seq<Token>, n: nat): Outcome
    requires tokens != [] && tokens[0].Variable?
    decreases |tokens|, 0, MaxOf(tokens[0], line) + 1 - n
  {
    if n > MaxOf(tokens[0], line) then NoMatch
    else if n > |line| then Thrown(OutOfRange)
    else match MatchLine(line[n..], tokens[1..])
      case Match(m) => Record(tokens[0], line[..n], m)
      case Thrown(fault) => Thrown(fault)
      case NoMatch => TryFrom(line, tokens, n + 1)
  }

  method ParseLine(contentLine: string, tokenList: seq<Token>, tokenIndex: nat) returns (r: Outcome)
    requires tokenIndex <= |tokenList|
    ensures r == MatchLine(contentLine, tokenList[tokenIndex..])
    decreases |tokenList| - tokenIndex
  {
    if tokenIndex == |tokenList| && |contentLine| == 0 {
      return Match(map[]);
    }
    if tokenIndex == |tokenList| || |contentLine| == 0 {
      return NoMatch;
    }
    var token := tokenList[tokenIndex];
    ghost var tokens := tokenList[tokenIndex..];
    assert tokens[0] == token && tokens[1..] == tokenList[tokenIndex + 1..];
    if token.Literal? {
      if !(token.text <= contentLine) {
        return NoMatch;
      }
      r := ParseLine(contentLine[|token.text|..], tokenList, tokenIndex + 1);
    } else {
      var max := MaxOf(token, contentLine);
      var i := MinOf(token);
      while i <= max
        invariant i >= MinOf(token)
        invariant MatchLine(contentLine, tokens) == TryFrom(contentLine, tokens, i)
        decreases max + 1 - i
      {
        if i > |contentLine| {
          return Thrown(OutOfRange);
        }
        var result := ParseLine(contentLine[i..], tokenList, tokenIndex + 1);
        if !result.NoMatch? {
          if result.Thrown? {
            return result;
          }
          return Record(token, contentLine[..i], result.captures);
        }
        i := i + 1;
      }
      return NoMatch;
    }
  }

  // ---------- the search space, without any search ----------

  function Concat(pieces: seq<string>): string {
    if pieces == [] then "" else pieces[0] + Concat(pieces[1..])
  }

  predicate Fits(t: Token, piece: string) {
    match t
    case Literal(text, _, _) => piece == text
    case Variable(_, _, _, _, _, _, maxLen) => MinOf(t) <= |piece| && (maxLen < 0 || |piece| <= maxLen)
  }

  /** A way to cut the whole line into one fitting piece per token, where every
      token starts on a non-empty remainder. */
  ghost predicate ValidSplit(line: string, tokens: seq<Token>, pieces: seq<string>) {
    && |pieces| == |tokens|
    && Concat(pieces) == line
    && forall i | 0 <= i < |tokens| :: Fits(tokens[i], pieces[i]) && Concat(pieces[i..]) != ""
  }

  /** A probe past the end of the line: fitting pieces for the first tokens, and a
      permitted length for the next, bounded variable that is longer than the
      non-empty rest. */
  ghost predicate Overrun(line: string, tokens: seq<Token>, pieces: seq<string>, rest: string, probe: nat) {
    && |pieces| < |tokens|
    && Concat(pieces) + rest == line && rest != ""
    && (forall i | 0 <= i < |pieces| :: Fits(tokens[i], pieces[i]))
    && tokens[|pieces|].Variable?
    && MinOf(tokens[|pieces|]) <= probe <= tokens[|pieces|].maxLen
    && |rest| < probe
  }

  /** Everything a search can run into: a valid split, or an overrun. */
  datatype Event = Split(pieces: seq<string>) | Past(pieces: seq<string>, rest: string, probe: nat)

  ghost predicate IsEvent(line: string, tokens: seq<Token>, e: Event) {
    match e
    case Split(pieces) => ValidSplit(line, tokens, pieces)
    case Past(pieces, rest, probe) => Overrun(line, tokens, pieces, rest, probe)
  }

  function Lengths(pieces: seq<string>): seq<nat> {
    seq(|pieces|, i requires 0 <= i < |pieces| => |pieces[i]|)
  }

  function LengthsOf(e: Event): seq<nat> {
    match e
    case Split(pieces) => Lengths(pieces)
    case Past(pieces, _, probe) => Lengths(pieces) + [probe]
  }

  /** The lexicographic order on vectors of lengths. */
  predicate LexLess(a: seq<nat>, b: seq<nat>) {
    if a == [] || b == [] then a == [] && b != []
    else a[0] < b[0] || (a[0] == b[0] && LexLess(a[1..], b[1..]))
  }

  ghost predicate IsFirst(line: string, tokens: seq<Token>, e: Event) {
    && IsEvent(line, tokens, e)
    && forall other :: IsEvent(line, tokens, other) ==> other == e || LexLess(LengthsOf(e), LengthsOf(other))
  }

  /** The captures of a split, recorded right to left. */
  function Collect(tokens: seq<Token>, pieces: seq<string>): (r: Outcome)
    requires |tokens| == |pieces|
    ensures !r.NoMatch?
  {
    if tokens == [] then Match(map[])
    else match Collect(tokens[1..], pieces[1..])
      case Match(m) => if tokens[0].Variable? then Record(tokens[0], pieces[0], m) else Match(m)
      case Thrown(fault) => Thrown(fault)
  }

  function Verdict(tokens: seq<Token>, e: Event): Outcome
    requires e.Split? ==> |e.pieces| == |tokens|
  {
    match e
    case Split(pieces) => Collect(tokens, pieces)
    case Past(_, _, _) => Thrown(OutOfRange)
  }

  // ---------- events of a line in terms of events of its remainder ----------

  function Head(e: Event): nat
    requires e.Split? ==> e.pieces != []
  {
    if e.pieces == [] then e.probe else |e.pieces[0]|
  }

  function Tail(e: Event): Event
    requires e.pieces != []
  {
    e.(pieces := e.pieces[1..])
  }

  function Cons(piece: string, e: Event): Event {
    e.(pieces := [piece] + e.pieces)
  }

  lemma TailIsSplit(line: string, tokens: seq<Token>, pieces: seq<string>)
    requires ValidSplit(line, tokens, pieces) && pieces != []
    ensures line != "" && pieces[0] <= line && Fits(tokens[0], pieces[0])
    ensures ValidSplit(line[|pieces[0]|..], tokens[1..], pieces[1..])
  {
    hide Fits;
    var p, rest := pieces[0], pieces[1..];
    assert pieces[0..] == pieces;
    assert forall i | 0 <= i < |rest| :: rest[i] == pieces[i + 1] && rest[i..] == pieces[i + 1..] && tokens[1..][i] == tokens[i + 1];
    assert line[|p|..] == Concat(rest);
  }

  lemma TailIsOverrun(line: string, tokens: seq<Token>, pieces: seq<string>, rest: string, probe: nat)
    requires Overrun(line, tokens, pieces, rest, probe) && pieces != []
    ensures line != "" && pieces[0] <= line && Fits(tokens[0], pieces[0])
    ensures Overrun(line[|pieces[0]|..], tokens[1..], pieces[1..], rest, probe)
  {
    hide Fits;
    var more := pieces[1..];
    assert line == pieces[0] + (Concat(more) + rest);
    assert forall i | 0 <= i < |more| :: more[i] == pieces[i + 1] && tokens[1..][i] == tokens[i + 1];
  }

  lemma TailIsEvent(line: string, tokens: seq<Token>, e: Event)
    requires IsEvent(line, tokens, e) && e.pieces != []
    ensures tokens != [] && line != "" && e.pieces[0] <= line && Fits(tokens[0], e.pieces[0])
    ensures IsEvent(line[|e.pieces[0]|..], tokens[1..], Tail(e))
  {
    match e
    case Split(pieces) => TailIsSplit(line, tokens, pieces);
    case Past(pieces, rest, probe) => TailIsOverrun(line, tokens, pieces, rest, probe);
  }

  lemma ConcatCons(piece: string, pieces: seq<string>)
    ensures Concat([piece] + pieces) == piece + Concat(pieces)
  {
    assert ([piece] + pieces)[1..] == pieces;
  }

  lemma ConsIsSplit(line: string, tokens: seq<Token>, n: nat, pieces: seq<string>)
    requires tokens != [] && line != "" && n <= |line| && Fits(tokens[0], line[..n])
    requires ValidSplit(line[n..], tokens[1..], pieces)
    ensures ValidSplit(line, tokens, [line[..n]] + pieces)
  {
    hide Fits;
    var all := [line[..n]] + pieces;
    ConcatCons(line[..n], pieces);
    assert line == line[..n] + line[n..];
    assert all[0..] == all;
    forall i | 0 <= i < |tokens|
      ensures Fits(tokens[i], all[i]) && Concat(all[i..]) != ""
    {
      if i > 0 {
        assert tokens[i] == tokens[1..][i - 1] && all[i..] == pieces[i - 1..];
      }
    }
  }

  lemma ConsIsOverrun(line: string, tokens: seq<Token>, n: nat, pieces: seq<string>, rest: string, probe: nat)
    requires tokens != [] && line != "" && n <= |line| && Fits(tokens[0], line[..n])
    requires Overrun(line[n..], tokens[1..], pieces, rest, probe)
    ensures Overrun(line, tokens, [line[..n]] + pieces, rest, probe)
  {
    hide Fits;
    ConcatCons(line[..n], pieces);
    assert line == line[..n] + (Concat(pieces) + rest) == line[..n] + Concat(pieces) + rest;
    assert forall i | 0 < i < |tokens| :: tokens[i] == tokens[1..][i - 1];
  }

  lemma ConsIsEvent(line: string, tokens: seq<Token>, n: nat, e: Event)
    requires tokens != [] && line != "" && n <= |line| && Fits(tokens[0], line[..n])
    requires IsEvent(line[n..], tokens[1..], e)
    ensures IsEvent(line, tokens, Cons(line[..n], e))
  {
    match e
    case Split(pieces) => ConsIsSplit(line, tokens, n, pieces);
    case Past(pieces, rest, probe) => ConsIsOverrun(line, tokens, n, pieces, rest, probe);
  }

  lemma LengthsCons(piece: string, e: Event)
    ensures LengthsOf(Cons(piece, e)) == [|piece|] + LengthsOf(e)
  {
  }

  lemma LengthsHead(e: Event)
    requires e.pieces != []
    ensures LengthsOf(e) == [|e.pieces[0]|] + LengthsOf(Tail(e))
  {
    hide LengthsOf;
    assert e == Cons(e.pieces[0], Tail(e)) by {
      assert e.pieces == [e.pieces[0]] + e.pieces[1..];
    }
    LengthsCons(e.pieces[0], Tail(e));
  }

  // ---------- the search finds the first event ----------

  /** An event that starts with a piece or a probe of length n or more. */
  ghost predicate IsEventFrom(line: string, tokens: seq<Token>, n: nat, e: Event) {
    IsEvent(line, tokens, e) && (e.Split? ==> e.pieces != []) && Head(e) >= n
  }

  ghost predicate IsFirstFrom(line: string, tokens: seq<Token>, n: nat, e: Event) {
    && IsEventFrom(line, tokens, n, e)
    && forall other :: IsEventFrom(line, tokens, n, other)
                       ==> other == e || LexLess(LengthsOf(e), LengthsOf(other))
  }

  lemma EmptyLineHasNoEvent(tokens: seq<Token>, e: Event)
    requires tokens != []
    ensures !IsEvent("", tokens, e)
  {
    assert e.pieces[0..] == e.pieces;
  }

  /** Putting the same piece in front of the first event gives the first of the
      events that start with that piece. */
  lemma ConsIsFirst(line: string, tokens: seq<Token>, n: nat, e: Event, other: Event)
    requires tokens != [] && line != "" && n <= |line|
    requires IsFirst(line[n..], tokens[1..], e)
    requires IsEvent(line, tokens, other) && other.pieces != [] && |other.pieces[0]| == n
    ensures other == Cons(line[..n], e) || LexLess(LengthsOf(Cons(line[..n], e)), LengthsOf(other))
  {
    hide IsEvent, LengthsOf;
    TailIsEvent(line, tokens, other);
    LengthsCons(line[..n], e);
    LengthsHead(other);
    assert other.pieces[0] == line[..n];
    assert other.pieces == [other.pieces[0]] + other.pieces[1..];
    assert LengthsOf(Cons(line[..n], e))[1..] == LengthsOf(e);
    assert LengthsOf(other)[1..] == LengthsOf(Tail(other));
  }

  lemma VerdictCons(tokens: seq<Token>, piece: string, e: Event)
    requires tokens != [] && (e.Split? ==> |e.pieces| == |tokens| - 1)
    ensures Verdict(tokens, Cons(piece, e)) ==
            match Verdict(tokens[1..], e)
            case Match(m) => if tokens[0].Variable? then Record(tokens[0], piece, m) else Match(m)
            case other => other
  {
    if e.Split? {
      assert ([piece] + e.pieces)[1..] == e.pieces;
    }
  }

  lemma {:induction false} Search(line: string, tokens: seq<Token>) returns (e: Option<Event>)
    ensures e.Some? ==> IsFirst(line, tokens, e.value) && MatchLine(line, tokens) == Verdict(tokens, e.value)
    ensures e.None? ==> MatchLine(line, tokens) == NoMatch && forall other :: !IsEvent(line, tokens, other)
    decreases |tokens|, 1, 0
  {
    if tokens == [] {
      e := if line == "" then Some(Split([])) else None;
    } else if line == "" {
      forall other
        ensures !IsEvent(line, tokens, other)
      {
        EmptyLineHasNoEvent(tokens, other);
      }
      e := None;
    } else if tokens[0].Literal? {
      e := SearchLiteral(line, tokens);
    } else {
      e := SearchFrom(line, tokens, MinOf(tokens[0]));
      forall other | IsEvent(line, tokens, other)
        ensures IsEventFrom(line, tokens, MinOf(tokens[0]), other)
      {
        if other.pieces != [] {
          TailIsEvent(line, tokens, other);
        }
      }
    }
  }

  lemma {:induction false} SearchLiteral(line: string, tokens: seq<Token>) returns (e: Option<Event>)
    requires line != "" && tokens != [] && tokens[0].Literal?
    ensures e.Some? ==> IsFirst(line, tokens, e.value) && MatchLine(line, tokens) == Verdict(tokens, e.value)
    ensures e.None? ==> MatchLine(line, tokens) == NoMatch && forall other :: !IsEvent(line, tokens, other)
    decreases |tokens|, 0, 0
  {
    var text := tokens[0].text;
    forall other | IsEvent(line, tokens, other)
      ensures other.pieces != [] && other.pieces[0] == text && text <= line
      ensures IsEvent(line[|text|..], tokens[1..], Tail(other))
    {
      TailIsEvent(line, tokens, other);
    }
    e := None;
    if text <= line {
      var tail := Search(line[|text|..], tokens[1..]);
      if tail.Some? {
        assert line[..|text|] == text;
        ConsIsEvent(line, tokens, |text|, tail.value);
        VerdictCons(tokens, text, tail.value);
        forall other | IsEvent(line, tokens, other)
          ensures other == Cons(text, tail.value)
                  || LexLess(LengthsOf(Cons(text, tail.value)), LengthsOf(other))
        {
          ConsIsFirst(line, tokens, |text|, tail.value, other);
        }
        e := Some(Cons(text, tail.value));
      }
    }
  }

  lemma EventFromShape(line: string, tokens: seq<Token>, n: nat, other: Event)
    requires tokens != [] && tokens[0].Variable? && IsEventFrom(line, tokens, n, other)
    ensures Head(other) <= MaxOf(tokens[0], line)
    ensures other.pieces != [] ==> Head(other) <= |line|
    ensures other.pieces == [] ==> other == Past([], line, Head(other)) && |line| < Head(other)
  {
    if other.pieces != [] {
      TailIsEvent(line, tokens, other);
    }
  }

  lemma FoundAt(line: string, tokens: seq<Token>, n: nat, tail: Event)
    requires line != "" && tokens != [] && tokens[0].Variable?
    requires MinOf(tokens[0]) <= n <= MaxOf(tokens[0], line) && n <= |line|
    requires IsFirst(line[n..], tokens[1..], tail)
    ensures IsFirstFrom(line, tokens, n, Cons(line[..n], tail))
  {
    hide IsEvent, LengthsOf;
    var e := Cons(line[..n], tail);
    ConsIsEvent(line, tokens, n, tail);
    LengthsCons(line[..n], tail);
    forall other | IsEventFrom(line, tokens, n, other)
      ensures other == e || LexLess(LengthsOf(e), LengthsOf(other))
    {
      EventFromShape(line, tokens, n, other);
      HeadOfLengths(other);
      if Head(other) == n {
        ConsIsFirst(line, tokens, n, tail, other);
      }
    }
  }

  lemma HeadOfLengths(e: Event)
    requires e.Split? ==> e.pieces != []
    ensures LengthsOf(e) != [] && LengthsOf(e)[0] == Head(e)
  {
  }

  lemma {:induction false} SearchFrom(line: string, tokens: seq<Token>, n: nat) returns (e: Option<Event>)
    requires line != "" && tokens != [] && tokens[0].Variable? && MinOf(tokens[0]) <= n
    ensures e.Some? ==> IsFirstFrom(line, tokens, n, e.value) && TryFrom(line, tokens, n) == Verdict(tokens, e.value)
    ensures e.None? ==> TryFrom(line, tokens, n) == NoMatch && forall other :: !IsEventFrom(line, tokens, n, other)
    decreases |tokens|, 0, MaxOf(tokens[0], line) + 1 - n
  {
    hide IsEvent, LengthsOf, LexLess;
    forall other | IsEventFrom(line, tokens, n, other)
      ensures Head(other) <= MaxOf(tokens[0], line)
      ensures other.pieces != [] ==> Head(other) <= |line|
      ensures other.pieces == [] ==> other == Past([], line, Head(other)) && |line| < Head(other)
    {
      EventFromShape(line, tokens, n, other);
    }
    if n > MaxOf(tokens[0], line) {
      e := None;
    } else if n > |line| {
      e := Some(Past([], line, n));
      FirstOverrun(line, tokens, n);
    } else {
      var tail := Search(line[n..], tokens[1..]);
      if tail.Some? {
        e := Some(Cons(line[..n], tail.value));
        FoundAt(line, tokens, n, tail.value);
        VerdictOfFound(line, tokens, n, tail.value);
      } else {
        e := SearchFrom(line, tokens, n + 1);
        forall other | IsEventFrom(line, tokens, n, other)
          ensures IsEventFrom(line, tokens, n + 1, other)
        {
          if Head(other) == n {
            TailIsEvent(line, tokens, other);
          }
        }
      }
    }
  }

  lemma VerdictOfFound(line: string, tokens: seq<Token>, n: nat, tail: Event)
    requires line != "" && tokens != [] && tokens[0].Variable?
    requires n <= MaxOf(tokens[0], line) && n <= |line|
    requires IsEvent(line[n..], tokens[1..], tail)
    requires MatchLine(line[n..], tokens[1..]) == Verdict(tokens[1..], tail)
    ensures IsEvent(line, tokens, Cons(line[..n], tail)) ==>
            TryFrom(line, tokens, n) == Verdict(tokens, Cons(line[..n], tail))
  {
    VerdictCons(tokens, line[..n], tail);
  }

  lemma FirstOverrun(line: string, tokens: seq<Token>, n: nat)
    requires line != "" && tokens != [] && tokens[0].Variable?
    requires MinOf(tokens[0]) <= n <= tokens[0].maxLen && |line| < n
    ensures IsFirstFrom(line, tokens, n, Past([], line, n))
  {
    var e := Past([], line, n);
    forall other | IsEventFrom(line, tokens, n, other)
      ensures other == e || LexLess(LengthsOf(e), LengthsOf(other))
    {
      EventFromShape(line, tokens, n, other);
      HeadOfLengths(other);
    }
  }

  // ---------- main results ----------

  lemma LexAsymmetric(a: seq<nat>, b: seq<nat>)
    requires LexLess(a, b)
    ensures !LexLess(b, a)
  {
  }

  lemma FirstIsUnique(line: string, tokens: seq<Token>, e: Event, f: Event)
    requires IsFirst(line, tokens, e) && IsFirst(line, tokens, f)
    ensures e == f
  {
    if e != f {
      LexAsymmetric(LengthsOf(e), LengthsOf(f));
    }
  }

  /** What matching answers, for every line and every token list: the verdict on the
      lexicographically first event, a valid split or an overrun, and no match when
      there is neither. */
  lemma MatchLineIsFirstEvent(line: string, tokens: seq<Token>, e: Event)
    requires IsFirst(line, tokens, e)
    ensures MatchLine(line, tokens) == Verdict(tokens, e)
  {
    var found := Search(line, tokens);
    FirstIsUnique(line, tokens, e, found.value);
  }

  lemma NoMatchIffNoEvent(line: string, tokens: seq<Token>)
    ensures MatchLine(line, tokens) == NoMatch <==> forall e :: !IsEvent(line, tokens, e)
    ensures MatchLine(line, tokens) != NoMatch <==> exists e :: IsFirst(line, tokens, e)
  {
    var found := Search(line, tokens);
    if found.Some? {
      assert Verdict(tokens, found.value) != NoMatch;
    }
  }

  lemma CollectNeverOutOfRange(tokens: seq<Token>, pieces: seq<string>)
    requires |tokens| == |pieces|
    ensures Collect(tokens, pieces) != Thrown(OutOfRange)
  {
  }

  // ---------- a probe past the end means there is no split at all ----------

  /** If matching from s runs out of range, then no suffix that starts at s or later has a
      valid split: the lengths that end a first piece where such a split does were tried
      before, or are reached through the probe that ran out of range. */
  lemma {:induction false} NoSplitBeyond(text: string, s: nat, later: nat, tokens: seq<Token>, pieces: seq<string>)
    requires s <= later <= |text|
    requires MatchLine(text[s..], tokens) == Thrown(OutOfRange)
    ensures !ValidSplit(text[later..], tokens, pieces)
    decreases |tokens|, 1, 0
  {
    hide ValidSplit, Concat, Fits;
    if ValidSplit(text[later..], tokens, pieces) {
      FirstPiece(text, later, tokens, pieces);
      var end := later + |pieces[0]|;
      if tokens[0].Literal? {
        var n := |tokens[0].text|;
        assert text[s..][n..] == text[s + n..];
        NoSplitBeyond(text, s + n, end, tokens[1..], pieces[1..]);
      } else {
        NoSplitFrom(text, s, MinOf(tokens[0]), end, tokens, pieces[1..]);
      }
    }
  }

  lemma {:induction false} NoSplitFrom(text: string, s: nat, n: nat, end: nat, tokens: seq<Token>, rest: seq<string>)
    requires tokens != [] && tokens[0].Variable?
    requires s <= |text| && s + n <= end <= |text|
    requires TryFrom(text[s..], tokens, n) == Thrown(OutOfRange)
    ensures !ValidSplit(text[end..], tokens[1..], rest)
    decreases |tokens|, 0, end - s - n
  {
    hide ValidSplit;
    assert text[s..][n..] == text[s + n..];
    match MatchLine(text[s + n..], tokens[1..])
    case Thrown(_) =>
      NoSplitBeyond(text, s + n, end, tokens[1..], rest);
    case NoMatch =>
      if s + n == end {
        NoMatchIffNoEvent(text[end..], tokens[1..]);
        assert !IsEvent(text[end..], tokens[1..], Split(rest));
      } else {
        NoSplitFrom(text, s, n + 1, end, tokens, rest);
      }
    case Match(_) =>
  }

  lemma FirstPiece(text: string, start: nat, tokens: seq<Token>, pieces: seq<string>)
    requires start <= |text| && tokens != [] && ValidSplit(text[start..], tokens, pieces)
    ensures pieces != [] && start + |pieces[0]| <= |text|
    ensures ValidSplit(text[start + |pieces[0]|..], tokens[1..], pieces[1..])
    ensures match tokens[0]
            case Literal(lit, _, _) => pieces[0] == lit
            case Variable(_, _, _, _, _, _, _) => MinOf(tokens[0]) <= |pieces[0]|
  {
    TailIsEvent(text[start..], tokens, Split(pieces));
    assert text[start..][|pieces[0]|..] == text[start + |pieces[0]|..];
  }

  ghost predicate Splits(line: string, tokens: seq<Token>) {
    exists pieces :: ValidSplit(line, tokens, pieces)
  }

  ghost predicate Overruns(line: string, tokens: seq<Token>) {
    exists pieces, rest, probe :: Overrun(line, tokens, pieces, rest, probe)
  }

  /** Which outcome a match has, for every line and every token list: it finds a split
      exactly when there is one, it runs out of range exactly when there is none but a
      probe can pass the end of the line, and there is no match otherwise. */
  lemma OutcomeIff(line: string, tokens: seq<Token>)
    ensures MatchLine(line, tokens).Match? || MatchLine(line, tokens) == Thrown(ClassCast) <==> Splits(line, tokens)
    ensures MatchLine(line, tokens) == Thrown(OutOfRange) <==> !Splits(line, tokens) && Overruns(line, tokens)
    ensures MatchLine(line, tokens) == NoMatch <==> !Splits(line, tokens) && !Overruns(line, tokens)
  {
    hide MatchLine, ValidSplit, Overrun, Verdict, Collect;
    NoMatchIffNoEvent(line, tokens);
    if e :| IsFirst(line, tokens, e) {
      MatchLineIsFirstEvent(line, tokens, e);
      VerdictKinds(line, tokens, e);
      match e
      case Split(pieces) =>
        assert ValidSplit(line, tokens, pieces);
      case Past(pieces, rest, probe) =>
        assert Overrun(line, tokens, pieces, rest, probe);
        forall others
          ensures !ValidSplit(line, tokens, others)
        {
          assert line[0..] == line;
          NoSplitBeyond(line, 0, 0, tokens, others);
        }
    } else {
      NoEventAtAll(line, tokens);
    }
  }

  /** Going out of range means that the line has no valid split at all, and that the first
      event of the search is a probe past its end. */
  lemma OutOfRangeIff(line: string, tokens: seq<Token>)
    ensures MatchLine(line, tokens) == Thrown(OutOfRange) <==> !Splits(line, tokens) && Overruns(line, tokens)
    ensures MatchLine(line, tokens) == Thrown(OutOfRange) <==> exists e :: IsFirst(line, tokens, e) && e.Past?
  {
    hide MatchLine, IsEvent;
    OutcomeIff(line, tokens);
    var found := Search(line, tokens);
    if found.Some? {
      VerdictKinds(line, tokens, found.value);
    }
    forall e | IsFirst(line, tokens, e)
      ensures found.Some? && e == found.value
    {
      FirstIsUnique(line, tokens, e, found.value);
    }
  }

  lemma VerdictKinds(line: string, tokens: seq<Token>, e: Event)
    requires IsEvent(line, tokens, e)
    ensures match e
            case Split(pieces) => Verdict(tokens, e).Match? || Verdict(tokens, e) == Thrown(ClassCast)
            case Past(_, _, _) => Verdict(tokens, e) == Thrown(OutOfRange)
  {
    if e.Split? {
      CollectNeverOutOfRange(tokens, e.pieces);
      match Collect(tokens, e.pieces)
      case Thrown(fault) => assert fault == ClassCast;
      case _ =>
    }
  }

  lemma NoEventAtAll(line: string, tokens: seq<Token>)
    requires forall e :: !IsEvent(line, tokens, e)
    ensures !Splits(line, tokens) && !Overruns(line, tokens)
  {
    forall pieces
      ensures !ValidSplit(line, tokens, pieces)
    {
      assert !IsEvent(line, tokens, Split(pieces));
    }
    forall pieces, rest, probe: nat
      ensures !Overrun(line, tokens, pieces, rest, probe)
    {
      assert !IsEvent(line, tokens, Past(pieces, rest, probe));
    }
  }

  /** Without upper bounds nothing is ever out of range. */
  lemma UnboundedMatch(line: string, tokens: seq<Token>)
    requires forall t | t in tokens :: t.Variable? ==> t.maxLen < 0
    ensures MatchLine(line, tokens) != Thrown(OutOfRange)
    ensures MatchLine(line, tokens) == NoMatch <==> !Splits(line, tokens)
  {
    hide MatchLine;
    OutcomeIff(line, tokens);
    forall pieces, rest, probe: nat
      ensures !Overrun(line, tokens, pieces, rest, probe)
    {
      if |pieces| < |tokens| {
        assert tokens[|pieces|] in tokens;
      }
    }
  }

  // ---------- a token is never tried on an empty remainder ----------

  /** A way to cut the line into fitting pieces, wherever the tokens start. */
  ghost predicate Cut(line: string, tokens: seq<Token>, pieces: seq<string>) {
    && |pieces| == |tokens|
    && Concat(pieces) == line
    && forall i | 0 <= i < |tokens| :: Fits(tokens[i], pieces[i])
  }

  lemma {:induction false} RemaindersNotEmpty(pieces: seq<string>)
    requires pieces != []
    ensures (forall i | 0 <= i < |pieces| :: Concat(pieces[i..]) != "") <==> pieces[|pieces| - 1] != ""
    decreases |pieces|
  {
    var rest := pieces[1..];
    assert pieces[0..] == pieces;
    assert forall i | 1 <= i < |pieces| :: pieces[i..] == rest[i - 1..];
    if rest == [] {
      assert Concat(pieces) == pieces[0] + "" == pieces[0];
    } else {
      RemaindersNotEmpty(rest);
      assert forall i | 0 <= i < |rest| :: rest[i..] == pieces[i + 1..];
      assert rest[0..] == rest;
    }
  }

  /** The matcher accepts exactly the cuts whose last piece is not empty. */
  lemma ValidSplitIff(line: string, tokens: seq<Token>, pieces: seq<string>)
    ensures ValidSplit(line, tokens, pieces) <==>
            Cut(line, tokens, pieces) && (pieces == [] || pieces[|pieces| - 1] != "")
  {
    hide Fits, Concat;
    if pieces != [] {
      RemaindersNotEmpty(pieces);
    }
  }

  function Least(t: Token): nat {
    if t.Literal? then |t.text| else MinOf(t)
  }

  /** No piece fits a variable whose upper bound is below its lower one. */
  predicate Fillable(t: Token) {
    t.Variable? && t.maxLen >= 0 ==> MinOf(t) <= t.maxLen
  }

  function LeastPiece(t: Token): string {
    if t.Literal? then t.text else seq(MinOf(t), _ => 'x')
  }

  function LeastPieces(tokens: seq<Token>): seq<string> {
    seq(|tokens|, i requires 0 <= i < |tokens| => LeastPiece(tokens[i]))
  }

  lemma {:induction false} FittingLength(tokens: seq<Token>, pieces: seq<string>)
    requires |tokens| == |pieces| && forall i | 0 <= i < |tokens| :: Fits(tokens[i], pieces[i])
    ensures |Concat(pieces)| >= |Concat(LeastPieces(tokens))|
    ensures |Concat(pieces)| == |Concat(LeastPieces(tokens))| && tokens != [] ==>
              |pieces[|pieces| - 1]| == Least(tokens[|tokens| - 1])
    decreases |tokens|
  {
    if tokens != [] {
      FittingLength(tokens[1..], pieces[1..]);
      assert LeastPieces(tokens)[1..] == LeastPieces(tokens[1..]);
      assert |pieces[0]| >= Least(tokens[0]) == |LeastPieces(tokens)[0]|;
    }
  }

  /** Every line that fits the template matches it exactly if the template has no tokens, or its
      last token needs a character, or no line fits it at all. */
  lemma EveryFitMatchesIff(tokens: seq<Token>)
    ensures (forall line, pieces :: Cut(line, tokens, pieces) ==> Splits(line, tokens)) <==>
            tokens == [] || Least(tokens[|tokens| - 1]) > 0 || exists t | t in tokens :: !Fillable(t)
  {
    hide Splits, Cut, LeastPieces;
    if tokens == [] || Least(tokens[|tokens| - 1]) > 0 || exists t | t in tokens :: !Fillable(t) {
      forall line, pieces | Cut(line, tokens, pieces)
        ensures Splits(line, tokens)
      {
        LastPieceFits(line, tokens, pieces);
        ValidSplitIff(line, tokens, pieces);
        SplitsBy(line, tokens, pieces);
      }
    } else {
      LeastLineFails(tokens);
    }
  }

  lemma SplitsBy(line: string, tokens: seq<Token>, pieces: seq<string>)
    ensures ValidSplit(line, tokens, pieces) ==> Splits(line, tokens)
  {
  }

  lemma LastPieceFits(line: string, tokens: seq<Token>, pieces: seq<string>)
    requires Cut(line, tokens, pieces)
    ensures |pieces| == |tokens| && (tokens != [] ==> |pieces[|pieces| - 1]| >= Least(tokens[|tokens| - 1]))
    ensures forall t | t in tokens :: Fillable(t)
  {
    if tokens != [] {
      assert Fits(tokens[|tokens| - 1], pieces[|pieces| - 1]);
    }
    forall t | t in tokens
      ensures Fillable(t)
    {
      var i :| 0 <= i < |tokens| && tokens[i] == t;
      assert Fits(tokens[i], pieces[i]);
    }
  }

  /** With every token at its least length the line fits, but no split ends in a character. */
  lemma LeastLineFails(tokens: seq<Token>)
    requires tokens != [] && Least(tokens[|tokens| - 1]) == 0 && forall t | t in tokens :: Fillable(t)
    ensures Cut(Concat(LeastPieces(tokens)), tokens, LeastPieces(tokens))
    ensures !Splits(Concat(LeastPieces(tokens)), tokens)
  {
    hide Concat;
    var line := Concat(LeastPieces(tokens));
    forall i | 0 <= i < |tokens|
      ensures Fits(tokens[i], LeastPieces(tokens)[i])
    {
      assert Fillable(tokens[i]);
    }
    forall pieces
      ensures !ValidSplit(line, tokens, pieces)
    {
      ValidSplitIff(line, tokens, pieces);
      if Cut(line, tokens, pieces) {
        FittingLength(tokens, pieces);
      }
    }
  }

  /** One variable without bounds: the empty line fits it and does not match. */
  lemma EmptyLineFails()
    ensures var tokens := Tokenize("{$a}", 0);
            tokens.Success? && Cut("", tokens.value, [""]) && MatchLine("", tokens.value) == NoMatch
  {
    var line, ph := "{$a}", Placeholder("a", NoBounds);
    var token := Variable(line, 0, 3, "a", false, -1, -1);
    assert WellFormed(ph) && Show(ph) == line;
    assert MakeToken(ph, line, 0, 3) == Success(token);
    assert Denotes(token);
    assert Tiles(line, 0, [token]);
    TokenizeIffTiles(line, [token]);
  }

  /** A placeholder that wants three characters, on a line of two, runs out of range. */
  lemma ShortLineRunsOut()
    ensures var tokens := Tokenize("{$a:3}", 0);
            tokens.Success? && MatchLine("ab", tokens.value) == Thrown(OutOfRange)
  {
    var line, ph := "{$a:3}", Placeholder("a", Exactly("3"));
    var token := Variable(line, 0, 5, "a", false, 3, 3);
    assert DigitsValue("3") == 3 by {
      assert "3"[..0] == "";
    }
    assert WellFormed(ph) && Show(ph) == line;
    assert MakeToken(ph, line, 0, 5) == Success(token);
    assert Denotes(token);
    assert Tiles(line, 0, [token]);
    TokenizeIffTiles(line, [token]);
  }
}
