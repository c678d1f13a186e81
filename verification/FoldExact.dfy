/** Exactly when matching several lines gives one left-to-right fold over all captures. */
module FoldExact {
  import opened Outcomes
  import opened Placeholders
  import opened Tokenizer
  import opened Matcher
  import opened CaptureLaws
  import opened Template

  // ---------- how a template uses a name ----------

  predicate IsArray(t: Token, x: string) {
    t.Variable? && t.name == x && t.isArray
  }

  predicate IsScalar(t: Token, x: string) {
    t.Variable? && t.name == x && !t.isArray
  }

  predicate HasArray(tokens: seq<Token>, x: string) {
    tokens != [] && (IsArray(tokens[0], x) || HasArray(tokens[1..], x))
  }

  predicate HasScalar(tokens: seq<Token>, x: string) {
    tokens != [] && (IsScalar(tokens[0], x) || HasScalar(tokens[1..], x))
  }

  predicate Uses(tokens: seq<Token>, x: string) {
    HasArray(tokens, x) || HasScalar(tokens, x)
  }

  /** The last use of the name is as an array. */
  predicate EndsArray(tokens: seq<Token>, x: string) {
    tokens != [] && (EndsArray(tokens[1..], x) || (!Uses(tokens[1..], x) && IsArray(tokens[0], x)))
  }

  /** A use as an array comes before a use as a scalar. */
  predicate ArrayThenScalar(tokens: seq<Token>, x: string) {
    tokens != [] && (ArrayThenScalar(tokens[1..], x) || (IsArray(tokens[0], x) && HasScalar(tokens[1..], x)))
  }

  /** After these lines the name holds array items: the last line that uses it ends so. */
  predicate Holds(allTokens: seq<seq<Token>>, x: string) {
    allTokens != [] &&
    var front, last := allTokens[..|allTokens| - 1], allTokens[|allTokens| - 1];
    if Uses(last, x) then EndsArray(last, x) else Holds(front, x)
  }

  /** After these lines the name holds items that a later scalar should have replaced: in a line
      that ends with the name as an array, the scalar came after items of this or earlier lines. */
  predicate KeepsStale(allTokens: seq<seq<Token>>, x: string) {
    allTokens != [] &&
    var front, last := allTokens[..|allTokens| - 1], allTokens[|allTokens| - 1];
    if !Uses(last, x) then KeepsStale(front, x)
    else if !EndsArray(last, x) then false
    else if HasScalar(last, x) then Holds(front, x) || ArrayThenScalar(last, x)
    else KeepsStale(front, x)
  }

  // ---------- the pieces of a name ----------

  function ArrayPieces(tokens: seq<Token>, pieces: seq<string>, x: string): seq<string>
    requires |tokens| == |pieces|
  {
    if tokens == [] then []
    else (if IsArray(tokens[0], x) then [pieces[0]] else []) + ArrayPieces(tokens[1..], pieces[1..], x)
  }

  /** The array pieces to the right of the last scalar one. */
  function AfterScalar(tokens: seq<Token>, pieces: seq<string>, x: string): seq<string>
    requires |tokens| == |pieces|
  {
    if tokens == [] then []
    else if HasScalar(tokens[1..], x) || !IsScalar(tokens[0], x) then AfterScalar(tokens[1..], pieces[1..], x)
    else ArrayPieces(tokens[1..], pieces[1..], x)
  }

  function LastScalar(tokens: seq<Token>, pieces: seq<string>, x: string): string
    requires |tokens| == |pieces|
  {
    if tokens == [] then ""
    else if HasScalar(tokens[1..], x) || !IsScalar(tokens[0], x) then LastScalar(tokens[1..], pieces[1..], x)
    else pieces[0]
  }

  predicate IsSuffix(s: seq<string>, t: seq<string>) {
    |s| <= |t| && t[|t| - |s|..] == s
  }

  lemma {:induction false} AfterIsSuffix(tokens: seq<Token>, pieces: seq<string>, x: string)
    requires |tokens| == |pieces| && HasScalar(tokens, x)
    ensures IsSuffix(AfterScalar(tokens, pieces, x), ArrayPieces(tokens, pieces, x))
    ensures |AfterScalar(tokens, pieces, x)| < |ArrayPieces(tokens, pieces, x)| <==> ArrayThenScalar(tokens, x)
    decreases |tokens|
  {
    hide IsSuffix;
    var rest := ArrayPieces(tokens[1..], pieces[1..], x);
    ArrayPiecesCons(tokens, pieces, x);
    if HasScalar(tokens[1..], x) {
      AfterIsSuffix(tokens[1..], pieces[1..], x);
      SuffixOfConcat(AfterScalar(tokens[1..], pieces[1..], x), ArrayHead(tokens, pieces, x), rest);
    } else {
      NoScalarNoOrder(tokens[1..], x);
      SuffixOfConcat(rest, [], rest);
    }
  }

  function ArrayHead(tokens: seq<Token>, pieces: seq<string>, x: string): seq<string>
    requires |tokens| == |pieces| && tokens != []
  {
    if IsArray(tokens[0], x) then [pieces[0]] else []
  }

  lemma ArrayPiecesCons(tokens: seq<Token>, pieces: seq<string>, x: string)
    requires |tokens| == |pieces| && tokens != []
    ensures ArrayPieces(tokens, pieces, x) == ArrayHead(tokens, pieces, x) + ArrayPieces(tokens[1..], pieces[1..], x)
    ensures !IsArray(tokens[0], x) ==> ArrayPieces(tokens, pieces, x) == ArrayPieces(tokens[1..], pieces[1..], x)
  {
  }

  lemma {:induction false} NoScalarNoOrder(tokens: seq<Token>, x: string)
    requires !HasScalar(tokens, x)
    ensures !ArrayThenScalar(tokens, x)
    ensures EndsArray(tokens, x) <==> HasArray(tokens, x)
  {
    if tokens != [] {
      NoScalarNoOrder(tokens[1..], x);
    }
  }

  lemma {:induction false} EndsArrayHas(tokens: seq<Token>, pieces: seq<string>, x: string)
    requires |tokens| == |pieces|
    ensures HasArray(tokens, x) <==> ArrayPieces(tokens, pieces, x) != []
    ensures EndsArray(tokens, x) ==> HasArray(tokens, x)
    decreases |tokens|
  {
    if tokens != [] {
      EndsArrayHas(tokens[1..], pieces[1..], x);
    }
  }

  // ---------- one line ----------

  lemma {:induction false} CollectAt(tokens: seq<Token>, pieces: seq<string>, x: string)
    requires |tokens| == |pieces| && Collect(tokens, pieces).Match?
    ensures var m := Collect(tokens, pieces).captures;
            && (x in m <==> Uses(tokens, x))
            && (x in m && EndsArray(tokens, x) ==> m[x] == Items(ArrayPieces(tokens, pieces, x)))
            && (x in m && !EndsArray(tokens, x) ==> m[x] == Scalar(LastScalar(tokens, pieces, x)) && !HasArray(tokens, x))
    decreases |tokens|
  {
    if tokens != [] {
      CollectAt(tokens[1..], pieces[1..], x);
      EndsArrayHas(tokens[1..], pieces[1..], x);
      var rest := ArrayPieces(tokens[1..], pieces[1..], x);
      assert [] + rest == rest;
      NothingThere(tokens[1..], pieces[1..], x);
    }
  }

  lemma {:induction false} NothingThere(tokens: seq<Token>, pieces: seq<string>, x: string)
    requires |tokens| == |pieces|
    ensures !HasArray(tokens, x) ==> ArrayPieces(tokens, pieces, x) == [] && !EndsArray(tokens, x)
    decreases |tokens|
  {
    EndsArrayHas(tokens, pieces, x);
  }

  lemma StepAt(m: Captures, t: Token, piece: string, x: string)
    ensures var next := Step(m, t, piece);
            && (IsArray(t, x) ==> x in next && next[x] == Items(ItemsOf(m, x) + [piece]))
            && (IsScalar(t, x) ==> x in next && next[x] == Scalar(piece))
            && (!IsArray(t, x) && !IsScalar(t, x) ==> (x in next <==> x in m) && (x in next ==> next[x] == m[x]))
  {
  }

  lemma {:induction false} FoldUnused(m: Captures, tokens: seq<Token>, pieces: seq<string>, x: string)
    requires |tokens| == |pieces| && !Uses(tokens, x)
    ensures var f := Fold(m, tokens, pieces); (x in f <==> x in m) && (x in f ==> f[x] == m[x])
    decreases |tokens|
  {
    hide Step;
    if tokens != [] {
      StepAt(m, tokens[0], pieces[0], x);
      FoldUnused(Step(m, tokens[0], pieces[0]), tokens[1..], pieces[1..], x);
    }
  }

  lemma {:induction false} FoldScalar(m: Captures, tokens: seq<Token>, pieces: seq<string>, x: string)
    requires |tokens| == |pieces| && Uses(tokens, x) && !EndsArray(tokens, x)
    ensures var f := Fold(m, tokens, pieces); x in f && f[x] == Scalar(LastScalar(tokens, pieces, x))
    decreases |tokens|
  {
    hide Step;
    StepAt(m, tokens[0], pieces[0], x);
    NoneOrArray(tokens[1..], x);
    if Uses(tokens[1..], x) {
      FoldScalar(Step(m, tokens[0], pieces[0]), tokens[1..], pieces[1..], x);
    } else {
      FoldUnused(Step(m, tokens[0], pieces[0]), tokens[1..], pieces[1..], x);
    }
  }

  lemma {:induction false} FoldArray(m: Captures, tokens: seq<Token>, pieces: seq<string>, x: string)
    requires |tokens| == |pieces| && EndsArray(tokens, x)
    ensures var f := Fold(m, tokens, pieces);
            x in f && f[x] == Items(if HasScalar(tokens, x) then AfterScalar(tokens, pieces, x)
                                    else ItemsOf(m, x) + ArrayPieces(tokens, pieces, x))
    decreases |tokens|
  {
    hide Step, ArrayPieces, ItemsOf;
    ArrayPiecesCons(tokens, pieces, x);
    StepAt(m, tokens[0], pieces[0], x);
    var next, rest := Step(m, tokens[0], pieces[0]), ArrayPieces(tokens[1..], pieces[1..], x);
    if EndsArray(tokens[1..], x) {
      FoldArray(next, tokens[1..], pieces[1..], x);
      ItemsStep(m, tokens[0], pieces[0], x, rest);
    } else {
      FoldUnused(next, tokens[1..], pieces[1..], x);
      NothingThere(tokens[1..], pieces[1..], x);
      assert [pieces[0]] + rest == [pieces[0]];
    }
  }

  lemma ItemsStep(m: Captures, t: Token, piece: string, x: string, rest: seq<string>)
    ensures IsArray(t, x) ==> ItemsOf(Step(m, t, piece), x) + rest == ItemsOf(m, x) + ([piece] + rest)
    ensures IsScalar(t, x) ==> ItemsOf(Step(m, t, piece), x) + rest == rest
    ensures !IsArray(t, x) && !IsScalar(t, x) ==> ItemsOf(Step(m, t, piece), x) == ItemsOf(m, x)
  {
    StepAt(m, t, piece, x);
    assert ItemsOf(m, x) + [piece] + rest == ItemsOf(m, x) + ([piece] + rest);
    assert [] + rest == rest;
  }

  lemma FoldAt(m: Captures, tokens: seq<Token>, pieces: seq<string>, x: string)
    requires |tokens| == |pieces|
    ensures var f := Fold(m, tokens, pieces);
            && (!Uses(tokens, x) ==> (x in f <==> x in m) && (x in f ==> f[x] == m[x]))
            && (Uses(tokens, x) ==> x in f)
            && (Uses(tokens, x) && !EndsArray(tokens, x) ==> f[x] == Scalar(LastScalar(tokens, pieces, x)))
            && (Uses(tokens, x) && EndsArray(tokens, x) ==>
                  f[x] == Items(if HasScalar(tokens, x) then AfterScalar(tokens, pieces, x)
                                else ItemsOf(m, x) + ArrayPieces(tokens, pieces, x)))
  {
    hide *;
    if !Uses(tokens, x) {
      FoldUnused(m, tokens, pieces, x);
    } else if EndsArray(tokens, x) {
      FoldArray(m, tokens, pieces, x);
    } else {
      FoldScalar(m, tokens, pieces, x);
    }
  }

  lemma NoneOrArray(tokens: seq<Token>, x: string)
    ensures !HasScalar(tokens, x) && Uses(tokens, x) ==> EndsArray(tokens, x)
  {
    if !HasScalar(tokens, x) {
      NoScalarNoOrder(tokens, x);
    }
  }

  // ---------- all lines ----------

  /** The parsed captures and the fold agree on a name, but for items the fold has given up. */
  predicate Behind(p: Captures, f: Captures, x: string) {
    && (x in p <==> x in f)
    && (x in p ==>
          match p[x]
          case Scalar(_) => f[x] == p[x]
          case Items(items) => f[x].Items? && IsSuffix(f[x].items, items))
  }

  predicate Extra(p: Captures, f: Captures, x: string) {
    |ItemsOf(p, x)| > |ItemsOf(f, x)|
  }

  lemma MergedAt(p: Captures, c: Captures, x: string)
    ensures var m := Merged(p, c);
            && (x in m <==> x in p || x in c)
            && (x in p && x !in c ==> m[x] == p[x])
            && (x in c ==> m[x] == match c[x]
                                   case Scalar(_) => c[x]
                                   case Items(items) => Items(ItemsOf(p, x) + items))
  {
    if x in c && c[x].Items? {
      assert [] + c[x].items == c[x].items;
    }
  }

  lemma UnusedLine(p: Captures, f: Captures, tokens: seq<Token>, pieces: seq<string>, x: string)
    requires |tokens| == |pieces| && Collect(tokens, pieces).Match? && Behind(p, f, x) && !Uses(tokens, x)
    ensures var p', f' := Merged(p, Collect(tokens, pieces).captures), Fold(f, tokens, pieces);
            Behind(p', f', x) && (Extra(p', f', x) <==> Extra(p, f, x)) && ItemsOf(p', x) == ItemsOf(p, x)
  {
    hide Collect, Fold, Merged, Uses, EndsArray, LastScalar, ArrayPieces;
    CollectAt(tokens, pieces, x);
    FoldAt(f, tokens, pieces, x);
    MergedAt(p, Collect(tokens, pieces).captures, x);
  }

  lemma ScalarLine(p: Captures, f: Captures, tokens: seq<Token>, pieces: seq<string>, x: string)
    requires |tokens| == |pieces| && Collect(tokens, pieces).Match? && Uses(tokens, x) && !EndsArray(tokens, x)
    ensures var p', f' := Merged(p, Collect(tokens, pieces).captures), Fold(f, tokens, pieces);
            Behind(p', f', x) && !Extra(p', f', x) && ItemsOf(p', x) == []
  {
    hide Collect, Fold, Merged, Uses, EndsArray, LastScalar, ArrayPieces;
    CollectAt(tokens, pieces, x);
    FoldAt(f, tokens, pieces, x);
    MergedAt(p, Collect(tokens, pieces).captures, x);
  }

  lemma ArrayLine(p: Captures, f: Captures, tokens: seq<Token>, pieces: seq<string>, x: string)
    requires |tokens| == |pieces| && Collect(tokens, pieces).Match? && Behind(p, f, x) && Uses(tokens, x) && EndsArray(tokens, x)
    ensures var p', f' := Merged(p, Collect(tokens, pieces).captures), Fold(f, tokens, pieces);
            && Behind(p', f', x) && ItemsOf(p', x) != []
            && (Extra(p', f', x) <==>
                  if HasScalar(tokens, x) then ItemsOf(p, x) != [] || ArrayThenScalar(tokens, x) else Extra(p, f, x))
  {
    hide Collect, Fold, Merged, HasArray, HasScalar, EndsArray, ArrayThenScalar, Behind, Extra, ArrayPieces, AfterScalar, LastScalar;
    CollectAt(tokens, pieces, x);
    FoldAt(f, tokens, pieces, x);
    EndsArrayHas(tokens, pieces, x);
    MergedAt(p, Collect(tokens, pieces).captures, x);
    var all := ArrayPieces(tokens, pieces, x);
    var p', f' := Merged(p, Collect(tokens, pieces).captures), Fold(f, tokens, pieces);
    if HasScalar(tokens, x) {
      AfterIsSuffix(tokens, pieces, x);
      StartsAfresh(p, p', f', x, AfterScalar(tokens, pieces, x), all);
    } else {
      GainsAll(p, f, p', f', x, all);
    }
  }

  lemma LineStep(p: Captures, f: Captures, tokens: seq<Token>, pieces: seq<string>, x: string)
    requires |tokens| == |pieces| && Collect(tokens, pieces).Match? && Behind(p, f, x)
    ensures var p', f' := Merged(p, Collect(tokens, pieces).captures), Fold(f, tokens, pieces);
            && Behind(p', f', x)
            && (Extra(p', f', x) <==>
                  if !Uses(tokens, x) then Extra(p, f, x)
                  else if !EndsArray(tokens, x) then false
                  else if HasScalar(tokens, x) then ItemsOf(p, x) != [] || ArrayThenScalar(tokens, x)
                  else Extra(p, f, x))
            && (ItemsOf(p', x) != [] <==> if Uses(tokens, x) then EndsArray(tokens, x) else ItemsOf(p, x) != [])
  {
    hide Collect, Fold, Merged, Uses, HasArray, HasScalar, EndsArray, ArrayThenScalar, Behind, Extra, ItemsOf;
    if !Uses(tokens, x) {
      UnusedLine(p, f, tokens, pieces, x);
    } else if !EndsArray(tokens, x) {
      ScalarLine(p, f, tokens, pieces, x);
    } else {
      ArrayLine(p, f, tokens, pieces, x);
    }
  }

  lemma GainsAll(p: Captures, f: Captures, p': Captures, f': Captures, x: string, all: seq<string>)
    requires Behind(p, f, x) && all != [] && x in p' && x in f'
    requires p'[x] == Items(ItemsOf(p, x) + all) && f'[x] == Items(ItemsOf(f, x) + all)
    ensures Behind(p', f', x) && (Extra(p', f', x) <==> Extra(p, f, x)) && ItemsOf(p', x) != []
  {
    assert IsSuffix(ItemsOf(f, x), ItemsOf(p, x));
    SuffixGrows(ItemsOf(f, x), ItemsOf(p, x), all);
  }

  lemma StartsAfresh(p: Captures, p': Captures, f': Captures, x: string, after: seq<string>, all: seq<string>)
    requires IsSuffix(after, all) && all != [] && x in p' && x in f'
    requires p'[x] == Items(ItemsOf(p, x) + all) && f'[x] == Items(after)
    ensures Behind(p', f', x) && ItemsOf(p', x) != []
    ensures Extra(p', f', x) <==> ItemsOf(p, x) != [] || |after| < |all|
  {
    SuffixOfConcat(after, ItemsOf(p, x), all);
  }

  lemma SuffixOfConcat(s: seq<string>, a: seq<string>, b: seq<string>)
    requires IsSuffix(s, b) || s == b
    ensures IsSuffix(s, a + b) && |s| <= |b|
  {
    assert (a + b)[|a + b| - |s|..] == b[|b| - |s|..];
  }

  lemma SuffixGrows(s: seq<string>, a: seq<string>, b: seq<string>)
    requires IsSuffix(s, a)
    ensures IsSuffix(s + b, a + b)
  {
    assert (a + b)[|a| - |s|..] == a[|a| - |s|..] + b;
  }

  ghost predicate NothingStale(allTokens: seq<seq<Token>>) {
    forall x :: !KeepsStale(allTokens, x)
  }

  /** What is known of the captures after the lines done. */
  ghost predicate Tracks(p: Captures, f: Captures, done: seq<seq<Token>>) {
    forall x :: Behind(p, f, x) && (Extra(p, f, x) <==> KeepsStale(done, x)) && (ItemsOf(p, x) != [] <==> Holds(done, x))
  }

  lemma TracksStep(p: Captures, f: Captures, done: seq<seq<Token>>, tokens: seq<Token>, pieces: seq<string>)
    requires |tokens| == |pieces| && Collect(tokens, pieces).Match? && Tracks(p, f, done)
    ensures Tracks(Merged(p, Collect(tokens, pieces).captures), Fold(f, tokens, pieces), done + [tokens])
  {
    hide Collect, Fold, Merged, Uses, EndsArray, ArrayThenScalar, HasScalar, Behind, Extra, ItemsOf;
    var p', f' := Merged(p, Collect(tokens, pieces).captures), Fold(f, tokens, pieces);
    var all := done + [tokens];
    assert all[..|all| - 1] == done;
    forall x
      ensures Behind(p', f', x) && (Extra(p', f', x) <==> KeepsStale(all, x)) && (ItemsOf(p', x) != [] <==> Holds(all, x))
    {
      LineStep(p, f, tokens, pieces, x);
    }
  }

  ghost predicate SomeExtra(p: Captures, f: Captures) {
    exists x :: Extra(p, f, x)
  }

  lemma AgreeIff(p: Captures, f: Captures)
    requires forall x :: Behind(p, f, x)
    ensures p == f <==> !SomeExtra(p, f)
  {
    assert p.Keys == f.Keys by {
      forall x
        ensures x in p <==> x in f
      {
        assert Behind(p, f, x);
      }
    }
    if !SomeExtra(p, f) {
      forall x | x in p
        ensures p[x] == f[x]
      {
        assert Behind(p, f, x) && !Extra(p, f, x);
      }
    }
  }

  lemma {:induction false} ParseIsFoldIffFrom(done: seq<seq<Token>>, rest: seq<seq<Token>>, lines: seq<string>, splits: seq<seq<string>>,
                                              p: Captures, f: Captures)
    requires FirstSplits(rest, lines, splits) && |Flat(rest)| == |Flat(splits)| && Tracks(p, f, done)
    requires forall tokens | tokens in rest :: !Clash(tokens)
    ensures ParseLines(rest, lines, p) == Match(Fold(f, Flat(rest), Flat(splits))) <==>
            NothingStale(done + rest)
    decreases |rest|
  {
    hide IsFirst, Clash, NothingStale, Tracks, Collect, Merged, MatchLine;
    if rest == [] {
      assert done + rest == done;
      assert Fold(f, Flat(rest), Flat(splits)) == f;
      FinalAgree(p, f, done);
    } else {
      var tokens, pieces := rest[0], splits[0];
      assert IsFirst(lines[0], tokens, Split(pieces)) && tokens in rest;
      MatchLineIsFirstEvent(lines[0], tokens, Split(pieces));
      CollectsLine(lines[0], tokens, pieces);
      TracksStep(p, f, done, tokens, pieces);
      FirstSplitsTail(rest, lines, splits);
      FlatSizes(rest[1..], lines[1..], splits[1..]);
      FoldAppend(f, tokens, pieces, Flat(rest[1..]), Flat(splits[1..]));
      ParseIsFoldIffFrom(done + [tokens], rest[1..], lines[1..], splits[1..],
                         Merged(p, Collect(tokens, pieces).captures), Fold(f, tokens, pieces));
      assert done + [tokens] + rest[1..] == done + rest;
    }
  }

  lemma CollectsLine(line: string, tokens: seq<Token>, pieces: seq<string>)
    requires IsFirst(line, tokens, Split(pieces)) && !Clash(tokens)
    ensures |tokens| == |pieces| && Collect(tokens, pieces).Match?
  {
    CollectKinds(tokens, pieces);
  }

  lemma FinalAgree(p: Captures, f: Captures, done: seq<seq<Token>>)
    requires Tracks(p, f, done)
    ensures p == f <==> NothingStale(done)
  {
    hide Behind, Extra;
    assert forall x :: Behind(p, f, x);
    AgreeIff(p, f);
    if SomeExtra(p, f) {
      var x :| Extra(p, f, x);
      assert Behind(p, f, x) && KeepsStale(done, x);
    } else {
      forall x
        ensures !KeepsStale(done, x)
      {
        assert Behind(p, f, x) && !Extra(p, f, x);
      }
    }
  }

  /** A text that matches gives one left-to-right fold over all captures of all lines exactly
      if no name keeps array items past a later scalar; this depends on the template alone. */
  lemma ParseIsFoldIff(allTokens: seq<seq<Token>>, lines: seq<string>, splits: seq<seq<string>>)
    requires ParseLines(allTokens, lines, map[]).Match? && FirstSplits(allTokens, lines, splits)
    ensures |Flat(allTokens)| == |Flat(splits)|
    ensures ParseLines(allTokens, lines, map[]) == Match(Fold(map[], Flat(allTokens), Flat(splits))) <==>
            NothingStale(allTokens)
  {
    hide NothingStale, Tracks, IsFirst, Clash;
    FlatSizes(allTokens, lines, splits);
    ParseSucceedsIff(allTokens, lines, map[]);
    assert forall tokens | tokens in allTokens :: !Clash(tokens);
    NothingKept();
    ParseIsFoldIffFrom([], allTokens, lines, splits, map[], map[]);
    assert [] + allTokens == allTokens;
  }

  lemma NothingKept()
    ensures Tracks(map[], map[], [])
  {
  }

  // ---------- inputs ----------

  const ARRAY_TOKEN := Variable("{$a[]}", 0, 5, "a", true, -1, -1)
  const FIRST_TOKEN := Variable("{$a:1}", 0, 5, "a", false, 1, 1)
  const THEN_ARRAY_TOKEN := Variable("{$a[]}", 6, 11, "a", true, -1, -1)
  const THEN_SCALAR_TOKEN := Variable("{$a}", 6, 9, "a", false, -1, -1)
  const STALE_TOKENS: seq<seq<Token>> := [[ARRAY_TOKEN], [FIRST_TOKEN, THEN_ARRAY_TOKEN]]

  lemma ArrayDenotes(start: int, end: int)
    ensures Denotes(Variable("{$a[]}", start, end, "a", true, -1, -1))
  {
    var t, ph := Variable("{$a[]}", start, end, "a", true, -1, -1), Placeholder("a[]", NoBounds);
    assert Show(ph) == t.text;
    assert "a[]"[1..] == "[]" && "a[]"[..1] == "a";
    assert MakeToken(ph, t.text, start, end) == Success(t);
  }

  lemma OneCharacterDenotes(start: int, end: int)
    ensures Denotes(Variable("{$a:1}", start, end, "a", false, 1, 1))
  {
    var t, ph := Variable("{$a:1}", start, end, "a", false, 1, 1), Placeholder("a", Exactly("1"));
    assert DigitsValue("1") == 1 by {
      assert "1"[..0] == "";
    }
    assert Show(ph) == t.text;
    assert MakeToken(ph, t.text, start, end) == Success(t);
  }

  lemma ScalarDenotes(start: int, end: int)
    ensures Denotes(Variable("{$a}", start, end, "a", false, -1, -1))
  {
    var t, ph := Variable("{$a}", start, end, "a", false, -1, -1), Placeholder("a", NoBounds);
    assert Show(ph) == t.text;
    assert MakeToken(ph, t.text, start, end) == Success(t);
  }

  lemma CompileTwo(a: string, b: string, first: seq<Token>, second: seq<Token>)
    requires Tokenize(a, 0) == Success(first) && Tokenize(b, 0) == Success(second)
    ensures Compile([a, b]) == Success([first, second])
  {
    hide Tokenize;
    assert [a, b][1..] == [b] && [b][1..] == [];
    assert Compile([]) == Success([]);
    assert Compile([b]) == Success([second] + []);
    assert [first] + ([second] + []) == [first, second];
  }

  lemma StaleCompiles()
    ensures Compile(["{$a[]}", "{$a:1}{$a[]}"]) == Success(STALE_TOKENS)
  {
    hide Denotes, Tokenize;
    ArrayDenotes(0, 5);
    ArrayDenotes(6, 11);
    OneCharacterDenotes(0, 5);
    TilesOne("{$a[]}", ARRAY_TOKEN);
    TokenizeIffTiles("{$a[]}", [ARRAY_TOKEN]);
    var line := "{$a:1}{$a[]}";
    assert line[..6] == "{$a:1}" && line[6..] == "{$a[]}";
    TilesTwo(line, FIRST_TOKEN, THEN_ARRAY_TOKEN);
    CompileTwo("{$a[]}", line, [ARRAY_TOKEN], [FIRST_TOKEN, THEN_ARRAY_TOKEN]);
  }

  lemma TwoPieces(line: string, first: Token, second: Token, a: string, b: string)
    requires line == a + b && b != "" && Fits(first, a) && Fits(second, b)
    ensures Splits(line, [first, second])
  {
    hide Fits;
    assert [a, b][1..] == [b] && [b][1..] == [];
    assert Concat([b]) == b + "" == b && Concat([a, b]) == a + b;
    ValidSplitIff(line, [first, second], [a, b]);
    assert ValidSplit(line, [first, second], [a, b]);
  }

  lemma OnePiece(line: string, t: Token)
    requires line != "" && Fits(t, line)
    ensures Splits(line, [t])
  {
    hide Fits;
    assert [line][1..] == [];
    assert Concat([line]) == line + "" == line;
    ValidSplitIff(line, [t], [line]);
    assert ValidSplit(line, [t], [line]);
  }

  lemma NoClash()
    ensures !Clash(STALE_TOKENS[0]) && !Clash(STALE_TOKENS[1])
  {
  }

  /** The items of the first line are kept past the scalar of the second. */
  lemma StaleKept()
    ensures KeepsStale(STALE_TOKENS, "a")
  {
    var front, last := [STALE_TOKENS[0]], STALE_TOKENS[1];
    assert STALE_TOKENS[..1] == front && STALE_TOKENS[1] == last;
    assert front[0][1..] == [] && last[1..] == [THEN_ARRAY_TOKEN] && last[1..][1..] == [];
    assert Holds(front, "a");
    assert EndsArray(last, "a") && HasScalar(last, "a");
  }

  /** A template and a text that match, with captures that are not the fold over all lines. */
  lemma StaleTemplate()
    ensures var compiled := Compile(["{$a[]}", "{$a:1}{$a[]}"]);
            && compiled.Success? && !NothingStale(compiled.value)
            && ParseLines(compiled.value, ["x", "yz"], map[]).Match?
            && exists splits :: && FirstSplits(compiled.value, ["x", "yz"], splits)
                                && |Flat(compiled.value)| == |Flat(splits)|
                                && ParseLines(compiled.value, ["x", "yz"], map[])
                                   != Match(Fold(map[], Flat(compiled.value), Flat(splits)))
  {
    hide KeepsStale, Splits, Clash, Fold, FirstSplits;
    StaleCompiles();
    StaleKept();
    assert !NothingStale(STALE_TOKENS);
    hide NothingStale;
    NoClash();
    OnePiece("x", ARRAY_TOKEN);
    TwoPieces("yz", FIRST_TOKEN, THEN_ARRAY_TOKEN, "y", "z");
    ParseSucceedsIff(STALE_TOKENS, ["x", "yz"], map[]);
    var splits := SplitsOf(STALE_TOKENS, ["x", "yz"]);
    ParseIsFoldIff(STALE_TOKENS, ["x", "yz"], splits);
  }

  /** A template line that clashes: every line it fits raises a class-cast failure. */
  lemma ClashingLine()
    ensures var tokens := Tokenize("{$a[]}{$a}", 0);
            tokens.Success? && MatchLine("xy", tokens.value) == Thrown(ClassCast)
  {
    hide Denotes, Tokenize;
    ArrayDenotes(0, 5);
    ScalarDenotes(6, 9);
    var line, tokens := "{$a[]}{$a}", [ARRAY_TOKEN, THEN_SCALAR_TOKEN];
    assert line[..6] == "{$a[]}" && line[6..] == "{$a}";
    TilesTwo(line, ARRAY_TOKEN, THEN_SCALAR_TOKEN);
    TwoPieces("xy", ARRAY_TOKEN, THEN_SCALAR_TOKEN, "x", "y");
    assert tokens[2..] == [];
    assert ClashAt(tokens, 0, 1);
    ClassCastIff("xy", tokens);
  }
}
