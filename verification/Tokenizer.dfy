/** Lexical constants and the grammar of a `{$name[]:min,max}` placeholder. */
module Placeholders {
  import opened Outcomes

  datatype Bounds = NoBounds | Exactly(len: string) | Between(lo: string, hi: string)

  /** The two parts a placeholder is made of, still as text. */
  datatype Placeholder = Placeholder(name: string, bounds: Bounds)

  predicate IsNameChar(c: char) {
    'a' <= c <= 'z' || 'A' <= c <= 'Z' || '0' <= c <= '9' || c in "_.-[]"
  }

  predicate IsDigit(c: char) {
    '0' <= c <= '9'
  }

  predicate AllDigits(s: string) {
    forall c | c in s :: IsDigit(c)
  }

  predicate WellFormed(ph: Placeholder) {
    && ph.name != ""
    && (forall c | c in ph.name :: IsNameChar(c))
    && match ph.bounds
       case NoBounds => true
       case Exactly(len) => AllDigits(len)
       case Between(lo, hi) => AllDigits(lo) && AllDigits(hi)
  }

  function ShowBounds(b: Bounds): string {
    match b
    case NoBounds => ""
    case Exactly(len) => ":" + len
    case Between(lo, hi) => ":" + lo + "," + hi
  }

  /** The text of a placeholder: this is the language of the placeholder pattern. */
  function Show(ph: Placeholder): string {
    "{$" + ph.name + ShowBounds(ph.bounds) + "}"
  }

  ghost predicate IsPlaceholder(text: string) {
    exists ph :: WellFormed(ph) && Show(ph) == text
  }

  // ---------- the deterministic scanner ----------

  datatype Found = Found(at: nat, end: nat, ph: Placeholder)

  datatype CharClass = NameChars | Digits {
    predicate Has(c: char) {
      if NameChars? then IsNameChar(c) else IsDigit(c)
    }
  }

  /** The end of the longest run of characters of a class that starts at p. */
  function SkipWhile(k: CharClass, s: string, p: nat): (q: nat)
    requires p <= |s|
    ensures p <= q <= |s|
    ensures forall i | p <= i < q :: k.Has(s[i])
    ensures q < |s| ==> !k.Has(s[q])
    decreases |s| - p
  {
    if p < |s| && k.Has(s[p]) then SkipWhile(k, s, p + 1) else p
  }

  /** Matches the part between the name and the closing brace, starting at q. */
  function ScanBounds(s: string, q: nat): (r: (Bounds, nat))
    requires q <= |s|
    ensures q <= r.1 <= |s|
  {
    if q < |s| && s[q] == ':' then
      var d := SkipWhile(Digits, s, q + 1);
      if d < |s| && s[d] == ',' then
        var e := SkipWhile(Digits, s, d + 1);
        (Between(s[q + 1..d], s[d + 1..e]), e)
      else
        (Exactly(s[q + 1..d]), d)
    else
      (NoBounds, q)
  }

  /** The placeholder that starts exactly at p, if there is one. */
  function ScanAt(s: string, p: nat): (r: Option<Found>)
    requires p <= |s|
    ensures r.Some? ==> r.value.at == p && p < r.value.end <= |s|
  {
    if p + 2 <= |s| && s[p] == '{' && s[p + 1] == '$' then
      var q := SkipWhile(NameChars, s, p + 2);
      if q == p + 2 then None else
      var (b, e) := ScanBounds(s, q);
      if e < |s| && s[e] == '}' then Some(Found(p, e + 1, Placeholder(s[p + 2..q], b))) else None
    else
      None
  }

  /** The leftmost placeholder that starts at p or later. */
  function FindFrom(s: string, p: nat): (r: Option<Found>)
    requires p <= |s|
    ensures r.Some? ==> p <= r.value.at < r.value.end <= |s| && ScanAt(s, r.value.at) == r
    ensures r.Some? ==> forall q | p <= q < r.value.at :: ScanAt(s, q).None?
    ensures r.None? ==> forall q | p <= q <= |s| :: ScanAt(s, q).None?
    decreases |s| - p
  {
    if ScanAt(s, p).Some? then ScanAt(s, p)
    else if p < |s| then FindFrom(s, p + 1)
    else None
  }

  // ---------- the scanner against the grammar ----------

  predicate Occurs(s: string, p: nat, t: string) {
    p + |t| <= |s| && s[p..p + |t|] == t
  }

  lemma OccursConcat(s: string, p: nat, a: string, b: string)
    ensures Occurs(s, p, a + b) <==> Occurs(s, p, a) && Occurs(s, p + |a|, b)
  {
    if p + |a| + |b| <= |s| {
      assert s[p..p + |a| + |b|] == s[p..p + |a|] + s[p + |a|..p + |a| + |b|];
      if Occurs(s, p, a + b) {
        assert s[p..p + |a|] == (a + b)[..|a|] == a;
        assert s[p + |a|..p + |a| + |b|] == (a + b)[|a|..] == b;
      }
    }
  }

  lemma OccursShow(s: string, p: nat, ph: Placeholder)
    ensures var q := p + 2 + |ph.name|; var e := q + |ShowBounds(ph.bounds)|;
            && |Show(ph)| == e + 1 - p
            && (Occurs(s, p, Show(ph)) <==>
                && Occurs(s, p, "{$")
                && Occurs(s, p + 2, ph.name)
                && Occurs(s, q, ShowBounds(ph.bounds))
                && Occurs(s, e, "}"))
  {
    OccursConcat(s, p, "{$" + ph.name + ShowBounds(ph.bounds), "}");
    OccursConcat(s, p, "{$" + ph.name, ShowBounds(ph.bounds));
    OccursConcat(s, p, "{$", ph.name);
  }

  lemma OccursTwo(s: string, p: nat, lo: string, hi: string)
    ensures Occurs(s, p, ShowBounds(Between(lo, hi))) <==>
            && Occurs(s, p, ":") && Occurs(s, p + 1, lo)
            && Occurs(s, p + 1 + |lo|, ",") && Occurs(s, p + 2 + |lo|, hi)
  {
    hide Occurs;
    OccursConcat(s, p, ":" + lo + ",", hi);
    OccursConcat(s, p, ":" + lo, ",");
    OccursConcat(s, p, ":", lo);
  }

  lemma ScanBoundsSound(s: string, q: nat)
    requires q <= |s|
    ensures var (b, e) := ScanBounds(s, q);
            WellFormed(Placeholder("x", b)) && e == q + |ShowBounds(b)| && Occurs(s, q, ShowBounds(b))
  {
    hide SkipWhile;
    var (b, e) := ScanBounds(s, q);
    match b
    case NoBounds =>
    case Exactly(len) =>
      OccursConcat(s, q, ":", len);
    case Between(lo, hi) =>
      OccursTwo(s, q, lo, hi);
  }

  lemma ScanSound(s: string, p: nat)
    requires p <= |s| && ScanAt(s, p).Some?
    ensures var f := ScanAt(s, p).value;
            WellFormed(f.ph) && f.end == p + |Show(f.ph)| && Occurs(s, p, Show(f.ph))
  {
    hide Show, ShowBounds, ScanBounds, SkipWhile;
    var q := SkipWhile(NameChars, s, p + 2);
    var (b, e) := ScanBounds(s, q);
    var ph := Placeholder(s[p + 2..q], b);
    ScanBoundsSound(s, q);
    assert WellFormed(ph) by {
      assert forall c | c in ph.name :: IsNameChar(c);
    }
    assert Occurs(s, p, "{$") by {
      assert s[p..p + 2] == [s[p], s[p + 1]];
    }
    assert Occurs(s, e, "}") by {
      assert s[e..e + 1] == [s[e]];
    }
    OccursShow(s, p, ph);
  }

  lemma FirstChar(s: string, p: nat, t: string)
    requires Occurs(s, p, t) && t != ""
    ensures p < |s| && s[p] == t[0]
  {
    assert s[p] == s[p..p + |t|][0];
  }

  lemma SkipWord(k: CharClass, s: string, p: nat, t: string)
    requires Occurs(s, p, t) && p + |t| < |s|
    requires forall c | c in t :: k.Has(c)
    requires !k.Has(s[p + |t|])
    ensures SkipWhile(k, s, p) == p + |t|
  {
    assert forall i | 0 <= i < |t| :: s[p..p + |t|][i] == s[p + i] && t[i] in t;
    assert forall i | p <= i < p + |t| :: s[i] == t[i - p];
  }

  lemma ScanExactlyComplete(s: string, q: nat, len: string)
    requires AllDigits(len) && Occurs(s, q, ":" + len)
    requires q + 1 + |len| < |s| && s[q + 1 + |len|] == '}'
    ensures ScanBounds(s, q) == (Exactly(len), q + 1 + |len|)
  {
    hide ShowBounds, SkipWhile;
    OccursConcat(s, q, ":", len);
    FirstChar(s, q, ":");
    SkipWord(Digits, s, q + 1, len);
  }

  lemma ScanBetweenComplete(s: string, q: nat, lo: string, hi: string)
    requires AllDigits(lo) && AllDigits(hi) && Occurs(s, q, ShowBounds(Between(lo, hi)))
    requires q + 2 + |lo| + |hi| < |s| && s[q + 2 + |lo| + |hi|] == '}'
    ensures ScanBounds(s, q) == (Between(lo, hi), q + 2 + |lo| + |hi|)
  {
    hide ShowBounds, SkipWhile;
    OccursTwo(s, q, lo, hi);
    var d := q + 1 + |lo|;
    FirstChar(s, q, ":");
    FirstChar(s, d, ",");
    SkipWord(Digits, s, q + 1, lo);
    SkipWord(Digits, s, d + 1, hi);
  }

  lemma ScanBoundsComplete(s: string, q: nat, b: Bounds)
    requires WellFormed(Placeholder("x", b))
    requires Occurs(s, q, ShowBounds(b)) && Occurs(s, q + |ShowBounds(b)|, "}")
    ensures ScanBounds(s, q) == (b, q + |ShowBounds(b)|)
  {
    FirstChar(s, q + |ShowBounds(b)|, "}");
    match b
    case NoBounds =>
    case Exactly(len) => ScanExactlyComplete(s, q, len);
    case Between(lo, hi) => ScanBetweenComplete(s, q, lo, hi);
  }

  lemma NameEnds(s: string, p: nat, ph: Placeholder)
    requires WellFormed(ph) && Occurs(s, p, Show(ph))
    ensures p + 2 <= |s| && SkipWhile(NameChars, s, p + 2) == p + 2 + |ph.name|
  {
    hide Show, SkipWhile, Occurs;
    OccursShow(s, p, ph);
    var q := p + 2 + |ph.name|;
    FirstChar(s, q + |ShowBounds(ph.bounds)|, "}");
    if ph.bounds != NoBounds {
      FirstChar(s, q, ShowBounds(ph.bounds));
    }
    SkipWord(NameChars, s, p + 2, ph.name);
  }

  lemma Opening(s: string, p: nat)
    requires Occurs(s, p, "{$")
    ensures p + 2 <= |s| && s[p] == '{' && s[p + 1] == '$'
  {
    assert s[p..p + 2][0] == s[p] && s[p..p + 2][1] == s[p + 1];
  }

  lemma ScanComplete(s: string, p: nat, ph: Placeholder)
    requires WellFormed(ph) && Occurs(s, p, Show(ph))
    ensures p <= |s| && ScanAt(s, p) == Some(Found(p, p + |Show(ph)|, ph))
  {
    hide Show, ShowBounds, ScanBounds, SkipWhile;
    OccursShow(s, p, ph);
    NameEnds(s, p, ph);
    Opening(s, p);
    ScanBoundsComplete(s, p + 2 + |ph.name|, ph.bounds);
    FirstChar(s, p + 2 + |ph.name| + |ShowBounds(ph.bounds)|, "}");
  }

  /** The scanner recognises exactly the placeholder grammar: a span of text is a
      placeholder if and only if scanning at its start finds that very span, so at
      most one placeholder starts at any position. */
  lemma ScanIffPlaceholder(s: string, p: nat, e: nat)
    requires p <= e <= |s|
    ensures IsPlaceholder(s[p..e]) <==> ScanAt(s, p).Some? && ScanAt(s, p).value.end == e
  {
    hide ScanAt, Show;
    if ScanAt(s, p).Some? {
      ScanSound(s, p);
    }
    if IsPlaceholder(s[p..e]) {
      var ph :| WellFormed(ph) && Show(ph) == s[p..e];
      ScanComplete(s, p, ph);
    }
  }

  lemma OneBrace(ph: Placeholder, i: nat)
    requires WellFormed(ph) && 0 < i < |Show(ph)|
    ensures Show(ph)[i] != '{'
  {
    var b := ShowBounds(ph.bounds);
    var n := |ph.name|;
    if 2 <= i < 2 + n {
      assert Show(ph)[i] == ph.name[i - 2];
      assert IsNameChar(ph.name[i - 2]);
    } else if 2 + n <= i < 2 + n + |b| {
      assert Show(ph)[i] == b[i - 2 - n];
      assert b[i - 2 - n] == ':' || b[i - 2 - n] == ',' || IsDigit(b[i - 2 - n]);
    }
  }

  lemma ScanStartsAtBrace(s: string, q: nat)
    requires q <= |s| && ScanAt(s, q).Some?
    ensures s[q] == '{'
  {
  }

  /** No placeholder starts inside another one. */
  lemma NoOverlap(s: string, p: nat, q: nat)
    requires p < q <= |s|
    requires ScanAt(s, p).Some? && q < ScanAt(s, p).value.end
    ensures ScanAt(s, q).None?
  {
    hide ScanAt, Show;
    ScanSound(s, p);
    var f := ScanAt(s, p).value;
    assert s[q] == s[p..f.end][q - p] == Show(f.ph)[q - p];
    OneBrace(f.ph, q - p);
    if ScanAt(s, q).Some? {
      ScanStartsAtBrace(s, q);
    }
  }
}

/** Splitting a template line into literal and variable tokens. */
module Tokenizer {
  import opened JavaInts
  import opened Outcomes
  import opened Placeholders

  /** A piece of a template line. start and end are the inclusive span in the line;
      a negative length bound means there is none. */
  datatype Token =
    | Literal(text: string, start: int, end: int)
    | Variable(text: string, start: int, end: int, name: string, isArray: bool, minLen: int, maxLen: int)

  datatype TokenError = NumberFormat

  function DigitsValue(s: string): (n: nat)
    requires AllDigits(s)
  {
    if s == "" then 0
    else assert IsDigit(s[|s| - 1]); 10 * DigitsValue(s[..|s| - 1]) + (s[|s| - 1] as int - '0' as int)
  }

  /** A bound as a number: no digits means no bound, too many do not fit 32 bits. */
  function IntValue(s: string): (r: Result<int, TokenError>)
    requires AllDigits(s)
    ensures r.Success? ==> -1 <= r.value <= MAX_INT
  {
    if s == "" then Success(-1)
    else if DigitsValue(s) > MAX_INT then Failure(NumberFormat)
    else var n: int := DigitsValue(s); Success(n)
  }

  function NameToken(text: string, name: string, start: int, end: int, minLen: int, maxLen: int): Token {
    if |name| >= 2 && name[|name| - 2..] == "[]" then
      Variable(text, start, end, name[..|name| - 2], true, minLen, maxLen)
    else
      Variable(text, start, end, name, false, minLen, maxLen)
  }

  /** The variable token for a placeholder found as text at the inclusive span start..end. */
  function MakeToken(ph: Placeholder, text: string, start: int, end: int): (r: Result<Token, TokenError>)
    requires WellFormed(ph)
    ensures r.Success? ==> r.value.Variable? && r.value.text == text
    ensures r.Success? ==> r.value.start == start && r.value.end == end
  {
    match ph.bounds
    case NoBounds => Success(NameToken(text, ph.name, start, end, -1, -1))
    case Exactly(len) => (
      match IntValue(len)
      case Failure(e) => Failure(e)
      case Success(n) => Success(NameToken(text, ph.name, start, end, n, n)))
    case Between(lo, hi) => (
      match (IntValue(lo), IntValue(hi))
      case (Success(m), Success(n)) => Success(NameToken(text, ph.name, start, end, m, n))
      case _ => Failure(NumberFormat))
  }

  function TokenOf(line: string, f: Found): (r: Result<Token, TokenError>)
    requires f.at < f.end <= |line| && WellFormed(f.ph)
    ensures r.Success? ==> r.value.Variable? && r.value.text == line[f.at..f.end]
    ensures r.Success? ==> r.value.start == f.at && r.value.end == f.end - 1
  {
    MakeToken(f.ph, line[f.at..f.end], f.at, f.end - 1)
  }

  function LiteralBetween(line: string, p: nat, q: nat): seq<Token>
    requires p <= q <= |line|
  {
    if p < q then [Literal(line[p..q], p, q - 1)] else []
  }

  /** The tokens of line from position p on. */
  function Tokenize(line: string, p: nat): Result<seq<Token>, TokenError>
    requires p <= |line|
    decreases |line| - p
  {
    match FindFrom(line, p)
    case None => Success(LiteralBetween(line, p, |line|))
    case Some(f) =>
      ScanSound(line, f.at);
      match (TokenOf(line, f), Tokenize(line, f.end))
      case (Success(token), Success(rest)) => Success(LiteralBetween(line, p, f.at) + [token] + rest)
      case _ => Failure(NumberFormat)
  }

  lemma PrependStep(line: string, next: nat, tokens: seq<Token>, token: Token)
    requires next <= |line| && FindFrom(line, next).Some?
    requires var f := FindFrom(line, next).value; WellFormed(f.ph) && TokenOf(line, f) == Success(token)
    ensures var f := FindFrom(line, next).value;
            After(tokens, Tokenize(line, next))
            == After(tokens + LiteralBetween(line, next, f.at) + [token], Tokenize(line, f.end))
  {
    hide ScanAt, FindFrom, Show, MakeToken;
    var f := FindFrom(line, next).value;
    var literal := LiteralBetween(line, next, f.at);
    var rest := Tokenize(line, f.end);
    if rest.Success? {
      assert tokens + (literal + [token] + rest.value) == (tokens + literal + [token]) + rest.value;
    }
  }

  method ParseTemplateLine(line: string) returns (r: Result<seq<Token>, TokenError>)
    ensures r == Tokenize(line, 0)
  {
    hide ScanAt, FindFrom, Show, MakeToken;
    var tokenList: seq<Token> := [];
    var next: nat := 0;
    var found := FindFrom(line, 0);
    assert After([], Tokenize(line, 0)) == Tokenize(line, 0) by {
      if Tokenize(line, 0).Success? {
        assert [] + Tokenize(line, 0).value == Tokenize(line, 0).value;
      }
    }
    while found.Some?
      invariant next <= |line|
      invariant found == FindFrom(line, next)
      invariant Tokenize(line, 0) == After(tokenList, Tokenize(line, next))
      decreases |line| - next
    {
      ScanSound(line, found.value.at);
      var token := TokenOf(line, found.value);
      if token.Failure? {
        return Failure(NumberFormat);
      }
      PrependStep(line, next, tokenList, token.value);
      if next < found.value.at {
        tokenList := tokenList + [Literal(line[next..found.value.at], next, found.value.at - 1)];
      } else {
        assert tokenList + [] == tokenList;
      }
      tokenList := tokenList + [token.value];
      next := found.value.end;
      found := FindFrom(line, next);
    }
    if next < |line| {
      assert line[next..] == line[next..|line|];
      tokenList := tokenList + [Literal(line[next..], next, |line| - 1)];
    } else {
      assert tokenList + [] == tokenList;
    }
    return Success(tokenList);
  }

  // ---------- what a token list means for its line ----------

  ghost predicate HasPlaceholder(text: string) {
    exists a, b | 0 <= a <= b <= |text| :: IsPlaceholder(text[a..b])
  }

  /** The token is the placeholder it spells, with its name and bounds decoded. */
  ghost predicate Denotes(t: Token) {
    exists ph :: WellFormed(ph) && Show(ph) == t.text && MakeToken(ph, t.text, t.start, t.end) == Success(t)
  }

  /** Contiguous non-empty spans that cover line from p on; literals neither touch
      each other nor hide a placeholder; variables are decoded placeholders. */
  ghost predicate Tiles(line: string, p: nat, ts: seq<Token>)
    decreases ts
  {
    if ts == [] then p == |line|
    else
      && ts[0].start == p <= ts[0].end < |line|
      && ts[0].text == line[p..ts[0].end + 1]
      && (ts[0].Variable? ==> Denotes(ts[0]))
      && (ts[0].Literal? ==> !HasPlaceholder(ts[0].text) && (|ts| > 1 ==> ts[1].Variable?))
      && Tiles(line, ts[0].end + 1, ts[1..])
  }

  lemma SliceOfSlice(s: string, p: nat, q: nat, a: nat, b: nat)
    requires p + a <= p + b <= q <= |s|
    ensures s[p..q][a..b] == s[p + a..p + b]
  {
    var u, v := s[p..q][a..b], s[p + a..p + b];
    assert |u| == |v| && forall i | 0 <= i < |u| :: u[i] == s[p + a + i] == v[i];
  }

  lemma NoneInside(line: string, p: nat, q: nat)
    requires p <= q <= |line|
    ensures HasPlaceholder(line[p..q]) <==>
            exists i | p <= i < q :: ScanAt(line, i).Some? && ScanAt(line, i).value.end <= q
  {
    hide ScanAt, IsPlaceholder, Show;
    if HasPlaceholder(line[p..q]) {
      var a, b :| 0 <= a <= b <= q - p && IsPlaceholder(line[p..q][a..b]);
      SliceOfSlice(line, p, q, a, b);
      ScanIffPlaceholder(line, p + a, p + b);
    }
    if i :| p <= i < q && ScanAt(line, i).Some? && ScanAt(line, i).value.end <= q {
      var e := ScanAt(line, i).value.end;
      ScanIffPlaceholder(line, i, e);
      SliceOfSlice(line, p, q, i - p, e - p);
      assert IsPlaceholder(line[p..q][i - p..e - p]);
    }
  }

  lemma DenotesIff(line: string, p: nat, t: Token)
    requires t.Variable? && t.start == p <= t.end < |line| && t.text == line[p..t.end + 1]
    ensures Denotes(t) <==> ScanAt(line, p).Some? && ScanAt(line, p).value.end == t.end + 1
                            && WellFormed(ScanAt(line, p).value.ph) && TokenOf(line, ScanAt(line, p).value) == Success(t)
  {
    hide ScanAt, Show, MakeToken;
    if Denotes(t) {
      var ph :| WellFormed(ph) && Show(ph) == t.text && MakeToken(ph, t.text, t.start, t.end) == Success(t);
      ScanComplete(line, p, ph);
    }
    if ScanAt(line, p).Some? && ScanAt(line, p).value.end == t.end + 1 {
      ScanSound(line, p);
    }
  }

  /** Tokenizing yields a tiling. */
  lemma {:induction false} TokenizeTiles(line: string, p: nat)
    requires p <= |line| && Tokenize(line, p).Success?
    ensures Tiles(line, p, Tokenize(line, p).value)
    decreases |line| - p
  {
    hide ScanAt, FindFrom, Show, MakeToken, Denotes, HasPlaceholder;
    var ts := Tokenize(line, p).value;
    match FindFrom(line, p)
    case None =>
      NoneInside(line, p, |line|);
    case Some(f) =>
      ScanSound(line, f.at);
      TokenizeTiles(line, f.end);
      var token, rest := TokenOf(line, f).value, Tokenize(line, f.end).value;
      DenotesIff(line, f.at, token);
      assert ([token] + rest)[1..] == rest;
      assert Tiles(line, f.at, [token] + rest);
      NoneInside(line, p, f.at);
      if p < f.at {
        assert ts[1..] == [token] + rest;
      } else {
        assert ts == [token] + rest;
      }
  }

  lemma FindFromIs(line: string, p: nat, q: nat)
    requires p <= q <= |line| && ScanAt(line, q).Some?
    requires forall i | p <= i < q :: ScanAt(line, i).None?
    ensures FindFrom(line, p) == ScanAt(line, q)
  {
  }

  lemma NoneBeforeVariable(line: string, p: nat, r: nat)
    requires p <= r <= |line| && !HasPlaceholder(line[p..r])
    requires r == |line| || ScanAt(line, r).Some?
    ensures forall i | p <= i < r :: ScanAt(line, i).None?
  {
    NoneInside(line, p, r);
    forall i | p <= i < r
      ensures ScanAt(line, i).None?
    {
      if ScanAt(line, i).Some? && r < ScanAt(line, i).value.end {
        NoOverlap(line, i, r);
      }
    }
  }

  lemma LiteralThenVariable(line: string, p: nat, ts: seq<Token>)
    requires p <= |line| && |ts| > 1 && Tiles(line, p, ts) && ts[0].Literal?
    requires Tokenize(line, ts[0].end + 1) == Success(ts[1..])
    ensures Tokenize(line, p) == Success(ts)
  {
    hide ScanAt, FindFrom, Show, MakeToken, TokenOf, HasPlaceholder;
    var next := ts[0].end + 1;
    DenotesIff(line, next, ts[1]);
    NoneBeforeVariable(line, p, next);
    FindFromIs(line, p, next);
    FindFromIs(line, next, next);
    var rest := Tokenize(line, ts[1].end + 1);
    assert LiteralBetween(line, next, next) + [ts[1]] + rest.value == ts[1..];
    assert ts == [ts[0]] + [ts[1]] + rest.value;
  }

  lemma VariableFirst(line: string, p: nat, ts: seq<Token>)
    requires p <= |line| && ts != [] && Tiles(line, p, ts) && ts[0].Variable?
    requires Tokenize(line, ts[0].end + 1) == Success(ts[1..])
    ensures Tokenize(line, p) == Success(ts)
  {
    hide ScanAt, FindFrom, Show, MakeToken, TokenOf, HasPlaceholder;
    DenotesIff(line, p, ts[0]);
    FindFromIs(line, p, p);
    assert LiteralBetween(line, p, p) + [ts[0]] + ts[1..] == ts;
  }

  lemma OnlyLiteral(line: string, p: nat, t: Token)
    requires p <= |line| && Tiles(line, p, [t]) && t.Literal?
    ensures Tokenize(line, p) == Success([t])
  {
    hide ScanAt, FindFrom, HasPlaceholder;
    NoneBeforeVariable(line, p, |line|);
  }

  /** Any tiling is the one tokenizing yields. */
  lemma {:induction false} TilingIsTokenize(line: string, p: nat, ts: seq<Token>)
    requires p <= |line| && Tiles(line, p, ts)
    ensures Tokenize(line, p) == Success(ts)
    decreases |ts|
  {
    hide ScanAt, FindFrom, Show, MakeToken, TokenOf, HasPlaceholder, Denotes;
    if ts != [] {
      var next := ts[0].end + 1;
      TilingIsTokenize(line, next, ts[1..]);
      if ts[0].Variable? {
        VariableFirst(line, p, ts);
      } else if |ts| > 1 {
        LiteralThenVariable(line, p, ts);
      } else {
        assert ts == [ts[0]];
        OnlyLiteral(line, p, ts[0]);
      }
    }
  }

  /** The tokenizer tiles its line, and its answer is the only tiling there is. */
  lemma TokenizeIffTiles(line: string, ts: seq<Token>)
    ensures Tokenize(line, 0) == Success(ts) <==> Tiles(line, 0, ts)
  {
    if Tokenize(line, 0) == Success(ts) {
      TokenizeTiles(line, 0);
    }
    if Tiles(line, 0, ts) {
      TilingIsTokenize(line, 0, ts);
    }
  }

  ghost predicate Unreadable(ph: Placeholder)
    requires WellFormed(ph)
  {
    match ph.bounds
    case NoBounds => false
    case Exactly(len) => DigitsValue(len) > MAX_INT
    case Between(lo, hi) => DigitsValue(lo) > MAX_INT || DigitsValue(hi) > MAX_INT
  }

  /** A placeholder at i whose bounds cannot be read. */
  ghost predicate UnreadableAt(line: string, i: nat) {
    exists ph :: WellFormed(ph) && Occurs(line, i, Show(ph)) && Unreadable(ph)
  }

  lemma UnreadableAtIff(line: string, i: nat)
    requires i <= |line|
    ensures UnreadableAt(line, i) <==> ScanAt(line, i).Some? && WellFormed(ScanAt(line, i).value.ph)
                                       && TokenOf(line, ScanAt(line, i).value).Failure?
  {
    hide Show, ScanAt;
    if ScanAt(line, i).Some? {
      ScanSound(line, i);
    }
    if UnreadableAt(line, i) {
      var ph :| WellFormed(ph) && Occurs(line, i, Show(ph)) && Unreadable(ph);
      ScanComplete(line, i, ph);
    }
  }

  /** Tokenizing fails exactly when some placeholder of the line has a bound that
      does not fit a signed 32-bit integer. */
  lemma {:induction false} TokenizeFails(line: string, p: nat)
    requires p <= |line|
    ensures Tokenize(line, p).Failure? <==> exists i | p <= i <= |line| :: UnreadableAt(line, i)
    decreases |line| - p
  {
    hide ScanAt, FindFrom, Show, MakeToken, UnreadableAt;
    var found := FindFrom(line, p);
    if found.Some? {
      var f := found.value;
      ScanSound(line, f.at);
      UnreadableAtIff(line, f.at);
      TokenizeFails(line, f.end);
    }
    forall i | p <= i <= |line| && UnreadableAt(line, i)
      ensures found.Some? && (i == found.value.at || found.value.end <= i)
    {
      UnreadableAtIff(line, i);
      if found.value.at < i < found.value.end {
        NoOverlap(line, found.value.at, i);
      }
    }
  }

  function Texts(ts: seq<Token>): string {
    if ts == [] then "" else ts[0].text + Texts(ts[1..])
  }

  /** The token texts, put together again, are the template line. */
  lemma {:induction false} TextsAreTheLine(line: string, p: nat, ts: seq<Token>)
    requires p <= |line| && Tiles(line, p, ts)
    ensures Texts(ts) == line[p..]
    decreases |ts|
  {
    hide Denotes, HasPlaceholder;
    if ts != [] {
      TextsAreTheLine(line, ts[0].end + 1, ts[1..]);
      assert line[p..] == line[p..ts[0].end + 1] + line[ts[0].end + 1..];
    }
  }

  lemma TilesTwo(line: string, first: Token, second: Token)
    requires first.Variable? && second.Variable? && Denotes(first) && Denotes(second)
    requires 0 == first.start <= first.end < |line| && second.start == first.end + 1 <= second.end == |line| - 1
    requires first.text == line[..first.end + 1] && second.text == line[first.end + 1..]
    ensures Tokenize(line, 0) == Success([first, second])
  {
    hide Denotes, HasPlaceholder, Tokenize;
    assert line[second.start..second.end + 1] == line[first.end + 1..];
    TilesOne(line, second);
    assert [first, second][1..] == [second];
    assert line[0..first.end + 1] == line[..first.end + 1];
    TokenizeIffTiles(line, [first, second]);
  }

  lemma TilesOne(line: string, t: Token)
    requires t.Variable? && Denotes(t)
    requires 0 <= t.start <= t.end == |line| - 1 && t.text == line[t.start..t.end + 1]
    ensures Tiles(line, t.start, [t])
  {
    hide Denotes, HasPlaceholder;
    assert [t][1..] == [];
  }
}
