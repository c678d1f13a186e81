/** What the captures of a split mean, apart from the order they are recorded in. */
module CaptureLaws {
  import opened Outcomes
  import opened Tokenizer
  import opened Matcher

  // ---------- when recording captures fails ----------

  predicate Mentions(tokens: seq<Token>, x: string) {
    exists t | t in tokens :: t.Variable? && t.name == x
  }

  /** The last mention of x is scalar and an earlier one is an array. */
  predicate Clash(tokens: seq<Token>) {
    exists i, j | 0 <= i < j < |tokens| :: ClashAt(tokens, i, j)
  }

  predicate ClashAt(tokens: seq<Token>, i: nat, j: nat)
    requires i < j < |tokens|
  {
    && tokens[i].Variable? && tokens[j].Variable? && tokens[i].name == tokens[j].name
    && tokens[i].isArray && !tokens[j].isArray
    && !Mentions(tokens[j + 1..], tokens[j].name)
  }

  /** The last mention of x, if there is one, is of the given kind. */
  predicate LastMention(tokens: seq<Token>, x: string, isArray: bool) {
    exists j | 0 <= j < |tokens| :: LastAt(tokens, x, isArray, j)
  }

  predicate LastAt(tokens: seq<Token>, x: string, isArray: bool, j: nat)
    requires j < |tokens|
  {
    && tokens[j].Variable? && tokens[j].name == x && tokens[j].isArray == isArray
    && !Mentions(tokens[j + 1..], x)
  }

  lemma MentionsCons(tokens: seq<Token>, x: string)
    requires tokens != []
    ensures Mentions(tokens, x) <==> (tokens[0].Variable? && tokens[0].name == x) || Mentions(tokens[1..], x)
  {
    assert forall t :: t in tokens <==> t == tokens[0] || t in tokens[1..];
  }

  lemma LastMentionCons(tokens: seq<Token>, x: string, isArray: bool)
    requires tokens != []
    ensures LastMention(tokens, x, isArray) <==>
            || LastMention(tokens[1..], x, isArray)
            || (!Mentions(tokens[1..], x) && tokens[0].Variable? && tokens[0].name == x && tokens[0].isArray == isArray)
  {
    if LastMention(tokens[1..], x, isArray) {
      var j :| 0 <= j < |tokens| - 1 && LastAt(tokens[1..], x, isArray, j);
      assert tokens[1..][j + 1..] == tokens[j + 2..];
      assert LastAt(tokens, x, isArray, j + 1);
    }
    if LastMention(tokens, x, isArray) {
      var j :| 0 <= j < |tokens| && LastAt(tokens, x, isArray, j);
      if j > 0 {
        assert tokens[1..][j..] == tokens[j + 1..];
        assert LastAt(tokens[1..], x, isArray, j - 1);
      }
    }
    if !Mentions(tokens[1..], x) && tokens[0].Variable? && tokens[0].name == x && tokens[0].isArray == isArray {
      assert LastAt(tokens, x, isArray, 0);
    }
  }

  lemma LastIsMention(tokens: seq<Token>, x: string, isArray: bool)
    requires LastMention(tokens, x, isArray)
    ensures Mentions(tokens, x)
  {
  }

  lemma ClashCons(tokens: seq<Token>)
    requires tokens != []
    ensures Clash(tokens) <==>
            || Clash(tokens[1..])
            || (tokens[0].Variable? && tokens[0].isArray && LastMention(tokens[1..], tokens[0].name, false))
  {
    if Clash(tokens[1..]) {
      var i, j :| 0 <= i < j < |tokens| - 1 && ClashAt(tokens[1..], i, j);
      assert tokens[1..][j + 1..] == tokens[j + 2..];
      assert ClashAt(tokens, i + 1, j + 1);
    }
    if tokens[0].Variable? && tokens[0].isArray && LastMention(tokens[1..], tokens[0].name, false) {
      var j :| 0 <= j < |tokens| - 1 && LastAt(tokens[1..], tokens[0].name, false, j);
      assert tokens[1..][j + 1..] == tokens[j + 2..];
      assert ClashAt(tokens, 0, j + 1);
    }
    if Clash(tokens) {
      var i, j :| 0 <= i < j < |tokens| && ClashAt(tokens, i, j);
      assert tokens[1..][j..] == tokens[j + 1..];
      if i > 0 {
        assert ClashAt(tokens[1..], i - 1, j - 1);
      } else {
        assert LastAt(tokens[1..], tokens[0].name, false, j - 1);
      }
    }
  }

  /** x is bound exactly if it is mentioned, and has the kind of its last mention. */
  predicate KindAgrees(tokens: seq<Token>, m: Captures, x: string) {
    && (x in m <==> Mentions(tokens, x))
    && (x in m ==> (m[x].Items? <==> LastMention(tokens, x, true)))
    && (x in m ==> (m[x].Scalar? <==> LastMention(tokens, x, false)))
  }

  /** The names bound by a split, and the kind of each, follow from the template
      alone; recording fails exactly for the templates that clash. */
  lemma {:induction false} CollectKinds(tokens: seq<Token>, pieces: seq<string>)
    requires |tokens| == |pieces|
    ensures Collect(tokens, pieces).Thrown? <==> Clash(tokens)
    ensures Collect(tokens, pieces).Thrown? ==> Collect(tokens, pieces) == Thrown(ClassCast)
    ensures Collect(tokens, pieces).Match? ==>
              forall x :: KindAgrees(tokens, Collect(tokens, pieces).captures, x)
  {
    if tokens != [] {
      CollectKinds(tokens[1..], pieces[1..]);
      ClashCons(tokens);
      if tokens[0].Variable? && Collect(tokens[1..], pieces[1..]).Match? {
        assert KindAgrees(tokens[1..], Collect(tokens[1..], pieces[1..]).captures, tokens[0].name);
        if LastMention(tokens[1..], tokens[0].name, false) {
          LastIsMention(tokens[1..], tokens[0].name, false);
        }
      }
      forall x | Collect(tokens, pieces).Match?
        ensures KindAgrees(tokens, Collect(tokens, pieces).captures, x)
      {
        assert KindAgrees(tokens[1..], Collect(tokens[1..], pieces[1..]).captures, x);
        MentionsCons(tokens, x);
        LastMentionCons(tokens, x, true);
        LastMentionCons(tokens, x, false);
      }
    }
  }

  /** A match raises a class-cast failure exactly when the line has a valid split and the
      template clashes, and succeeds exactly when it has one and the template does not. */
  lemma ClassCastIff(line: string, tokens: seq<Token>)
    ensures MatchLine(line, tokens) == Thrown(ClassCast) <==> Clash(tokens) && Splits(line, tokens)
    ensures MatchLine(line, tokens).Match? <==> !Clash(tokens) && Splits(line, tokens)
  {
    hide MatchLine, Clash, Splits;
    OutcomeIff(line, tokens);
    var found := Search(line, tokens);
    if found.Some? && found.value.Split? {
      CollectKinds(tokens, found.value.pieces);
    }
  }

  // ---------- captures as one left-to-right fold ----------

  function ItemsOf(m: Captures, x: string): seq<string> {
    if x in m && m[x].Items? then m[x].items else []
  }

  /** One capture, read left to right: scalars are overwritten, arrays appended. */
  function Step(m: Captures, t: Token, piece: string): Captures {
    if t.Literal? then m
    else if t.isArray then m[t.name := Items(ItemsOf(m, t.name) + [piece])]
    else m[t.name := Scalar(piece)]
  }

  function Fold(m: Captures, tokens: seq<Token>, pieces: seq<string>): Captures
    requires |tokens| == |pieces|
    decreases |tokens|
  {
    if tokens == [] then m else Fold(Step(m, tokens[0], pieces[0]), tokens[1..], pieces[1..])
  }

  /** The values of dest, except that two arrays are joined. */
  function MergedValue(source: Captures, dest: Captures, x: string): Value
    requires x in source || x in dest
  {
    if x !in dest then source[x]
    else if x in source && source[x].Items? && dest[x].Items? then Items(source[x].items + dest[x].items)
    else dest[x]
  }

  function Merged(source: Captures, dest: Captures): Captures {
    map x | x in source.Keys + dest.Keys :: MergedValue(source, dest, x)
  }

  /** No name is a scalar to the right of a mention as an array, given which names
      already hold arrays. */
  predicate ArraysLast(m: Captures, tokens: seq<Token>) {
    && (forall j | 0 <= j < |tokens| :: tokens[j].Variable? && !tokens[j].isArray ==>
          !(tokens[j].name in m && m[tokens[j].name].Items?))
    && (forall i, j | 0 <= i < j < |tokens| ::
          tokens[i].Variable? && tokens[j].Variable? && tokens[i].isArray && !tokens[j].isArray ==>
            tokens[i].name != tokens[j].name)
  }

  lemma ArraysLastStep(m: Captures, tokens: seq<Token>, piece: string)
    requires tokens != [] && ArraysLast(m, tokens)
    ensures ArraysLast(Step(m, tokens[0], piece), tokens[1..])
    ensures ArraysLast(map[], tokens[1..])
  {
    assert forall j | 0 <= j < |tokens| - 1 :: tokens[1..][j] == tokens[j + 1];
  }

  /** Where scalars never follow arrays of the same name, recording right to left
      and then merging equals folding left to right. */
  lemma {:induction false} MergedCollectIsFold(m: Captures, tokens: seq<Token>, pieces: seq<string>)
    requires |tokens| == |pieces| && ArraysLast(m, tokens)
    ensures Collect(tokens, pieces).Match?
    ensures Merged(m, Collect(tokens, pieces).captures) == Fold(m, tokens, pieces)
    decreases |tokens|
  {
    if tokens == [] {
      assert Merged(m, map[]) == m;
    } else {
      var t, piece := tokens[0], pieces[0];
      ArraysLastStep(m, tokens, piece);
      MergedCollectIsFold(Step(m, t, piece), tokens[1..], pieces[1..]);
      var rest := Collect(tokens[1..], pieces[1..]).captures;
      if t.Variable? {
        CollectKinds(tokens[1..], pieces[1..]);
        if t.isArray && t.name in rest {
          NoScalarAfter(m, tokens);
          assert KindAgrees(tokens[1..], rest, t.name);
        }
        RecordThenMerge(m, t, piece, rest);
      }
    }
  }

  lemma NoScalarAfter(m: Captures, tokens: seq<Token>)
    requires tokens != [] && tokens[0].Variable? && tokens[0].isArray && ArraysLast(m, tokens)
    ensures !LastMention(tokens[1..], tokens[0].name, false)
  {
    assert forall j | 0 <= j < |tokens| - 1 :: tokens[1..][j] == tokens[j + 1];
  }

  lemma RecordThenMerge(m: Captures, t: Token, piece: string, rest: Captures)
    requires t.Variable?
    requires t.isArray ==> (t.name in rest ==> rest[t.name].Items?)
    requires !t.isArray ==> !(t.name in m && m[t.name].Items?)
    ensures Record(t, piece, rest).Match?
    ensures Merged(m, Record(t, piece, rest).captures) == Merged(Step(m, t, piece), rest)
  {
    var a, b := Merged(m, Record(t, piece, rest).captures), Merged(Step(m, t, piece), rest);
    assert a.Keys == b.Keys;
    forall x | x in a
      ensures a[x] == b[x]
    {
      if x == t.name && t.isArray && x in rest {
        var old_, more := ItemsOf(m, x), rest[x].items;
        assert old_ + ([piece] + more) == (old_ + [piece]) + more;
        assert [] + ([piece] + more) == [piece] + more;
      }
    }
  }

  /** For one line the law is exact: whatever the pieces are, the captures are their fold if and
      only if no scalar follows an array of the same name. */
  lemma CollectIsFoldIff(tokens: seq<Token>, pieces: seq<string>)
    requires |pieces| == |tokens|
    ensures Collect(tokens, pieces) == Match(Fold(map[], tokens, pieces)) <==> ArraysLast(map[], tokens)
  {
    if ArraysLast(map[], tokens) {
      MergedCollectIsFold(map[], tokens, pieces);
      var m := Collect(tokens, pieces).captures;
      assert Merged(map[], m) == m;
    } else {
      var i, j :| 0 <= i < j < |tokens| && tokens[i].Variable? && tokens[j].Variable?
                  && tokens[i].isArray && !tokens[j].isArray && tokens[i].name == tokens[j].name;
      CountsDiffer(tokens, pieces, i, j);
    }
  }

  /** How many items a name holds; a scalar or nothing counts as none. */
  function Size(m: Captures, x: string): nat {
    |ItemsOf(m, x)|
  }

  function ArrayMentions(tokens: seq<Token>, x: string): nat {
    if tokens == [] then 0
    else (if tokens[0].Variable? && tokens[0].isArray && tokens[0].name == x then 1 else 0)
         + ArrayMentions(tokens[1..], x)
  }

  lemma {:induction false} CollectSize(tokens: seq<Token>, pieces: seq<string>, x: string)
    requires |tokens| == |pieces| && Collect(tokens, pieces).Match?
    ensures var m := Collect(tokens, pieces).captures;
            (x in m && m[x].Items? ==> |m[x].items| == ArrayMentions(tokens, x))
            && (ArrayMentions(tokens, x) > 0 ==> x in m && m[x].Items?)
  {
    if tokens != [] {
      CollectSize(tokens[1..], pieces[1..], x);
    }
  }

  lemma {:induction false} FoldSize(m: Captures, tokens: seq<Token>, pieces: seq<string>, x: string)
    requires |tokens| == |pieces|
    ensures Size(Fold(m, tokens, pieces), x) <= Size(m, x) + ArrayMentions(tokens, x)
    decreases |tokens|
  {
    if tokens != [] {
      FoldSize(Step(m, tokens[0], pieces[0]), tokens[1..], pieces[1..], x);
    }
  }

  lemma ArrayMentionsSplit(tokens: seq<Token>, j: nat, x: string)
    requires j <= |tokens|
    ensures ArrayMentions(tokens, x) == ArrayMentions(tokens[..j], x) + ArrayMentions(tokens[j..], x)
  {
    if j > 0 {
      ArrayMentionsSplit(tokens[1..], j - 1, x);
      assert tokens[..j][1..] == tokens[1..][..j - 1] && tokens[1..][j - 1..] == tokens[j..];
    } else {
      assert tokens[j..] == tokens;
    }
  }

  lemma FoldSplit(m: Captures, tokens: seq<Token>, pieces: seq<string>, j: nat)
    requires j <= |tokens| == |pieces|
    ensures Fold(m, tokens, pieces) == Fold(Fold(m, tokens[..j], pieces[..j]), tokens[j..], pieces[j..])
    decreases j
  {
    if j > 0 {
      FoldSplit(Step(m, tokens[0], pieces[0]), tokens[1..], pieces[1..], j - 1);
      assert tokens[..j][1..] == tokens[1..][..j - 1] && pieces[..j][1..] == pieces[1..][..j - 1];
      assert tokens[1..][j - 1..] == tokens[j..] && pieces[1..][j - 1..] == pieces[j..];
    } else {
      assert tokens[0..] == tokens && pieces[0..] == pieces;
    }
  }

  lemma CountsDiffer(tokens: seq<Token>, pieces: seq<string>, i: nat, j: nat)
    requires |tokens| == |pieces| && i < j < |tokens|
    requires tokens[i].Variable? && tokens[j].Variable? && tokens[i].isArray && !tokens[j].isArray
    requires tokens[i].name == tokens[j].name
    ensures Collect(tokens, pieces) != Match(Fold(map[], tokens, pieces))
  {
    var x := tokens[i].name;
    var before := Fold(map[], tokens[..j], pieces[..j]);
    FoldSplit(map[], tokens, pieces, j);
    assert tokens[j..][1..] == tokens[j + 1..] && pieces[j..][1..] == pieces[j + 1..];
    FoldSize(Step(before, tokens[j], pieces[j]), tokens[j + 1..], pieces[j + 1..], x);
    ArrayMentionsSplit(tokens, j, x);
    ArrayMentionsSplit(tokens[..j], i, x);
    assert tokens[..j][i..][0] == tokens[i];
    if Collect(tokens, pieces).Match? {
      CollectSize(tokens, pieces, x);
    }
  }

  // ---------- rendering undoes matching ----------

  /** Substitutes captures into a template line, taking array items in order. */
  function Render(tokens: seq<Token>, m: Captures): Option<string> {
    if tokens == [] then Some("")
    else match tokens[0]
      case Literal(text, _, _) => Prefixed(text, Render(tokens[1..], m))
      case Variable(_, _, _, name, isArray, _, _) =>
        if name !in m then None
        else match m[name]
          case Scalar(text) => if isArray then None else Prefixed(text, Render(tokens[1..], m))
          case Items(items) =>
            if !isArray || items == [] then None
            else Prefixed(items[0], Render(tokens[1..], m[name := Items(items[1..])]))
  }

  function Prefixed(text: string, rest: Option<string>): Option<string> {
    match rest
    case None => None
    case Some(s) => Some(text + s)
  }

  /** Every scalar name is mentioned once. */
  predicate DistinctScalars(tokens: seq<Token>) {
    forall i, j | 0 <= i < |tokens| && 0 <= j < |tokens| && i != j ::
      tokens[i].Variable? && tokens[j].Variable? && tokens[i].name == tokens[j].name ==>
        tokens[i].isArray && tokens[j].isArray
  }

  lemma RenderIgnores(tokens: seq<Token>, m: Captures, x: string, v: Value)
    requires !Mentions(tokens, x)
    ensures Render(tokens, m[x := v]) == Render(tokens, m)
    ensures x in m ==> Render(tokens, m - {x}) == Render(tokens, m)
    decreases |tokens|
  {
    if tokens != [] {
      MentionsCons(tokens, x);
      RenderIgnores(tokens[1..], m, x, v);
      if tokens[0].Variable? && tokens[0].name in m && m[tokens[0].name].Items? && m[tokens[0].name].items != [] {
        var y := tokens[0].name;
        var less := m[y := Items(m[y].items[1..])];
        RenderIgnores(tokens[1..], less, x, v);
        assert m[x := v][y := less[y]] == less[x := v];
        assert x in m ==> (m - {x})[y := less[y]] == less - {x};
      }
    }
  }

  /** Rendering the captures of any split gives back the split line. */
  lemma {:induction false} RenderCollect(tokens: seq<Token>, pieces: seq<string>)
    requires |tokens| == |pieces| && DistinctScalars(tokens)
    requires forall i | 0 <= i < |tokens| :: Fits(tokens[i], pieces[i])
    ensures Collect(tokens, pieces).Match?
    ensures Render(tokens, Collect(tokens, pieces).captures) == Some(Concat(pieces))
  {
    if tokens != [] {
      var t, rest := tokens[0], tokens[1..];
      assert forall i | 0 <= i < |rest| :: rest[i] == tokens[i + 1] && pieces[1..][i] == pieces[i + 1];
      RenderCollect(rest, pieces[1..]);
      CollectKinds(rest, pieces[1..]);
      var m := Collect(rest, pieces[1..]).captures;
      if t.Variable? {
        assert KindAgrees(rest, m, t.name);
        if !t.isArray {
          assert !Mentions(rest, t.name);
          RenderIgnores(rest, m, t.name, Scalar(pieces[0]));
        } else if t.name !in m {
          RenderIgnores(rest, m, t.name, Items([]));
          assert [pieces[0]][1..] == [];
          assert m[t.name := Items([pieces[0]])][t.name := Items([])] == m[t.name := Items([])];
        } else {
          assert !LastMention(rest, t.name, false);
          var items := m[t.name].items;
          assert ([pieces[0]] + items)[1..] == items;
          assert m[t.name := Items([pieces[0]] + items)][t.name := Items(items)] == m;
        }
      }
    }
  }

  /** A line that was matched by a template with distinct scalar names is recovered
      by substituting the captures into the template. */
  lemma RenderUndoesMatch(line: string, tokens: seq<Token>)
    requires DistinctScalars(tokens) && MatchLine(line, tokens).Match?
    ensures Render(tokens, MatchLine(line, tokens).captures) == Some(line)
  {
    var found := Search(line, tokens);
    assert ValidSplit(line, tokens, found.value.pieces);
    RenderCollect(tokens, found.value.pieces);
  }
}
