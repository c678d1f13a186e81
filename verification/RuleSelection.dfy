/** Choosing the rule that answers a request. */
module RuleSelection {
  import opened Outcomes
  import opened Matcher
  import opened RequestTemplates
  import opened ResponseTemplates
  import opened ScriptLoader
  import opened RequestMatch

  /** Producing one response gives it, asks to skip the rule, or raises another exception. */
  datatype Rendered<+R> = Response(value: R) | Skipped | Broken

  datatype Reply<+R> = Answer(responses: seq<R>) | NoRule | Failed

  /** What does not depend on the rules: how the request at hand matches a template in a
      context, how a response template is turned into a response, and the convertor's context. */
  datatype Env<!R> = Env(
    match_: (Captures, RequestTemplate) -> MatchResult,
    render: (Captures, ResponseTemplate) -> Rendered<R>,
    convertor: Captures)

  /** A rule is passed over, leaving its captures in the context, or decides the answer. */
  datatype Attempt<+R> = Passed(context: Captures) | Decided(result: Reply<R>)

  datatype Production<+R> = All(responses: seq<R>) | SkipRule | Fault

  /** The responses of all templates, unless one is skipped or fails first. */
  function RenderAll<R>(env: Env<R>, context: Captures, resps: seq<ResponseTemplate>): Production<R> {
    if resps == [] then All([])
    else match env.render(context, resps[0])
      case Skipped => SkipRule
      case Broken => Fault
      case Response(r) =>
        match RenderAll(env, context, resps[1..])
        case All(more) => All([r] + more)
        case other => other
  }

  function Try<R>(env: Env<R>, context: Captures, pair: TemplatePair): Attempt<R> {
    match env.match_(context, pair.req)
    case Mismatch => Passed(context)
    case Raised(_) => Decided(Failed)
    case Matched(found) =>
      var all := context + found + env.convertor;
      match RenderAll(env, all, pair.resps)
      case All(responses) => Decided(Answer(responses))
      case SkipRule => Passed(all)
      case Fault => Decided(Failed)
  }

  function Gen<R>(env: Env<R>, context: Captures, pairs: seq<TemplatePair>): Reply<R>
    decreases |pairs|
  {
    if pairs == [] then NoRule
    else match Try(env, context, pairs[0])
      case Decided(result) => result
      case Passed(next) => Gen(env, next, pairs[1..])
  }

  method GenResponse<R>(env: Env<R>, config: Captures, pairs: seq<TemplatePair>) returns (r: Reply<R>)
    ensures r == Gen(env, config, pairs)
  {
    var allContext := config;
    var i := 0;
    assert pairs[0..] == pairs;
    while i < |pairs|
      invariant 0 <= i <= |pairs|
      invariant Gen(env, config, pairs) == Gen(env, allContext, pairs[i..])
    {
      assert pairs[i..][1..] == pairs[i + 1..];
      var context := env.match_(allContext, pairs[i].req);
      if context.Raised? {
        return Failed;
      }
      if context.Matched? {
        allContext := allContext + context.context + env.convertor;
        var produced := Produce(env, allContext, pairs[i].resps);
        if produced.All? {
          return Answer(produced.responses);
        }
        if produced.Fault? {
          return Failed;
        }
      }
      i := i + 1;
    }
    return NoRule;
  }

  method Produce<R>(env: Env<R>, context: Captures, resps: seq<ResponseTemplate>) returns (p: Production<R>)
    ensures p == RenderAll(env, context, resps)
  {
    var ret: seq<R> := [];
    var k := 0;
    assert resps[0..] == resps;
    PrependNothing(RenderAll(env, context, resps));
    while k < |resps|
      invariant 0 <= k <= |resps|
      invariant RenderAll(env, context, resps) == Prepend(ret, RenderAll(env, context, resps[k..]))
    {
      assert resps[k..][1..] == resps[k + 1..];
      var response := env.render(context, resps[k]);
      if response.Skipped? {
        return SkipRule;
      }
      if response.Broken? {
        return Fault;
      }
      PrependOne(ret, response.value, RenderAll(env, context, resps[k + 1..]));
      ret := ret + [response.value];
      k := k + 1;
    }
    assert ret + [] == ret;
    return All(ret);
  }

  function Prepend<R>(done: seq<R>, p: Production<R>): Production<R> {
    match p
    case All(more) => All(done + more)
    case other => other
  }

  lemma PrependNothing<R>(p: Production<R>)
    ensures Prepend([], p) == p
  {
    if p.All? {
      assert [] + p.responses == p.responses;
    }
  }

  lemma PrependOne<R>(done: seq<R>, r: R, p: Production<R>)
    ensures Prepend(done + [r], p) == match p
                                      case All(more) => All(done + ([r] + more))
                                      case other => other
  {
    if p.All? {
      assert done + ([r] + p.responses) == (done + [r]) + p.responses;
    }
  }

  // ---------- which rule answers ----------

  /** Some response ends the rule this way, by a skip or a failure, after responses that are given. */
  ghost predicate Ends<R>(env: Env<R>, context: Captures, resps: seq<ResponseTemplate>, how: Rendered<R>) {
    exists k | 0 <= k < |resps| :: EndsAt(env, context, resps, how, k)
  }

  ghost predicate EndsAt<R>(env: Env<R>, context: Captures, resps: seq<ResponseTemplate>, how: Rendered<R>, k: nat)
    requires k < |resps|
  {
    env.render(context, resps[k]) == how && forall j | 0 <= j < k :: env.render(context, resps[j]).Response?
  }

  lemma {:induction false} EndsIff<R>(env: Env<R>, context: Captures, resps: seq<ResponseTemplate>, how: Rendered<R>)
    requires !how.Response?
    ensures RenderAll(env, context, resps) == (if how.Skipped? then SkipRule else Fault) <==> Ends(env, context, resps, how)
    decreases |resps|
  {
    if resps != [] {
      var rest := resps[1..];
      EndsIff(env, context, rest, how);
      assert forall j | 0 <= j < |rest| :: rest[j] == resps[j + 1];
      if k :| 0 <= k < |resps| && EndsAt(env, context, resps, how, k) {
        if k > 0 {
          assert EndsAt(env, context, rest, how, k - 1);
        }
      }
      if env.render(context, resps[0]) == how {
        assert EndsAt(env, context, resps, how, 0);
      } else if env.render(context, resps[0]).Response? && Ends(env, context, rest, how) {
        var k :| 0 <= k < |rest| && EndsAt(env, context, rest, how, k);
        assert forall j | 1 <= j < k + 1 :: resps[j] == rest[j - 1];
        assert EndsAt(env, context, resps, how, k + 1);
      }
    }
  }

  /** The context in which rule i is tried once the earlier ones are passed over: the config and,
      for each earlier rule that matched, its captures and then the convertor's context. */
  function ContextAt<R>(env: Env<R>, config: Captures, pairs: seq<TemplatePair>, i: nat): Captures
    requires i <= |pairs|
  {
    if i == 0 then config
    else
      var before := ContextAt(env, config, pairs, i - 1);
      match env.match_(before, pairs[i - 1].req)
      case Matched(found) => before + found + env.convertor
      case _ => before
  }

  /** Rule i does not match, or one of its responses asks to skip it before any fails. */
  ghost predicate PassedOver<R>(env: Env<R>, context: Captures, pairs: seq<TemplatePair>, i: nat)
    requires i < |pairs|
  {
    var m := env.match_(ContextAt(env, context, pairs, i), pairs[i].req);
    m == Mismatch || (m.Matched? && Ends(env, ContextAt(env, context, pairs, i + 1), pairs[i].resps, Skipped))
  }

  /** Matching rule i raises an exception, or one of its responses fails before any is skipped. */
  ghost predicate FailsRule<R>(env: Env<R>, context: Captures, pairs: seq<TemplatePair>, i: nat)
    requires i < |pairs|
  {
    var m := env.match_(ContextAt(env, context, pairs, i), pairs[i].req);
    m.Raised? || (m.Matched? && Ends(env, ContextAt(env, context, pairs, i + 1), pairs[i].resps, Broken))
  }

  lemma TryIff<R>(env: Env<R>, context: Captures, pairs: seq<TemplatePair>, i: nat)
    requires i < |pairs|
    ensures var attempt := Try(env, ContextAt(env, context, pairs, i), pairs[i]);
            && (attempt.Passed? <==> PassedOver(env, context, pairs, i))
            && (attempt.Passed? ==> attempt.context == ContextAt(env, context, pairs, i + 1))
            && (attempt == Decided(Failed) <==> FailsRule(env, context, pairs, i))
  {
    hide RenderAll, Ends;
    EndsIff(env, ContextAt(env, context, pairs, i + 1), pairs[i].resps, Skipped);
    EndsIff(env, ContextAt(env, context, pairs, i + 1), pairs[i].resps, Broken);
  }

  /** Rule i matches and every one of its response templates gives a response, in order. */
  ghost predicate Answers<R>(env: Env<R>, context: Captures, pairs: seq<TemplatePair>, i: nat, responses: seq<R>)
    requires i < |pairs|
  {
    && env.match_(ContextAt(env, context, pairs, i), pairs[i].req).Matched?
    && |responses| == |pairs[i].resps|
    && forall k | 0 <= k < |responses| ::
         env.render(ContextAt(env, context, pairs, i + 1), pairs[i].resps[k]) == Response(responses[k])
  }

  ghost predicate AllPassed<R>(env: Env<R>, context: Captures, pairs: seq<TemplatePair>, n: nat)
    requires n <= |pairs|
  {
    forall i | 0 <= i < n :: PassedOver(env, context, pairs, i)
  }

  lemma {:induction false} RenderAllIff<R>(env: Env<R>, context: Captures, resps: seq<ResponseTemplate>, responses: seq<R>)
    ensures RenderAll(env, context, resps) == All(responses) <==>
            && |responses| == |resps|
            && forall k | 0 <= k < |resps| :: env.render(context, resps[k]) == Response(responses[k])
  {
    if resps != [] {
      if responses != [] {
        RenderAllIff(env, context, resps[1..], responses[1..]);
        assert responses == [responses[0]] + responses[1..];
        assert forall k | 0 <= k < |resps| - 1 :: resps[1..][k] == resps[k + 1];
        assert |responses| == |resps| ==> forall k | 0 <= k < |responses| - 1 :: responses[1..][k] == responses[k + 1];
        if |responses| == |resps| && forall k | 0 <= k < |resps| - 1 :: env.render(context, resps[1..][k]) == Response(responses[1..][k]) {
          assert forall k | 1 <= k < |resps| :: env.render(context, resps[1..][k - 1]) == Response(responses[1..][k - 1])
                                                && resps[k] == resps[1..][k - 1] && responses[k] == responses[1..][k - 1];
        }
      }
    }
  }

  /** Rules that are passed over only contribute their captures to the context. */
  lemma {:induction false} GenFrom<R>(env: Env<R>, context: Captures, pairs: seq<TemplatePair>, i: nat)
    requires i <= |pairs| && AllPassed(env, context, pairs, i)
    ensures Gen(env, context, pairs) == Gen(env, ContextAt(env, context, pairs, i), pairs[i..])
  {
    hide Try, ContextAt, PassedOver;
    if i == 0 {
      assert pairs[0..] == pairs;
      assert ContextAt(env, context, pairs, 0) == context by { StartContext(env, context, pairs); }
    } else {
      GenFrom(env, context, pairs, i - 1);
      TryIff(env, context, pairs, i - 1);
      assert PassedOver(env, context, pairs, i - 1);
      assert pairs[i - 1..][1..] == pairs[i..];
    }
  }

  lemma StartContext<R>(env: Env<R>, context: Captures, pairs: seq<TemplatePair>)
    ensures ContextAt(env, context, pairs, 0) == context
  {
  }

  lemma FirstDecided<R>(env: Env<R>, context: Captures, pairs: seq<TemplatePair>) returns (k: nat)
    ensures k <= |pairs| && AllPassed(env, context, pairs, k)
    ensures k < |pairs| ==> !PassedOver(env, context, pairs, k)
  {
    k := 0;
    while k < |pairs| && PassedOver(env, context, pairs, k)
      invariant k <= |pairs| && AllPassed(env, context, pairs, k)
    {
      k := k + 1;
    }
  }

  lemma DecidedBy<R>(env: Env<R>, context: Captures, pairs: seq<TemplatePair>, k: nat)
    requires k < |pairs| && AllPassed(env, context, pairs, k) && !PassedOver(env, context, pairs, k)
    ensures Try(env, ContextAt(env, context, pairs, k), pairs[k]) == Decided(Gen(env, context, pairs))
  {
    hide Try, ContextAt, PassedOver;
    GenFrom(env, context, pairs, k);
    TryIff(env, context, pairs, k);
  }

  lemma AnswersIff<R>(env: Env<R>, context: Captures, pairs: seq<TemplatePair>, k: nat, responses: seq<R>)
    requires k < |pairs|
    ensures Answers(env, context, pairs, k, responses) <==>
            Try(env, ContextAt(env, context, pairs, k), pairs[k]) == Decided(Answer(responses))
  {
    hide RenderAll;
    RenderAllIff(env, ContextAt(env, context, pairs, k + 1), pairs[k].resps, responses);
  }

  /** The responses are those of the first rule that is not passed over, one for each of
      its response templates. */
  lemma GenAnswersIff<R>(env: Env<R>, context: Captures, pairs: seq<TemplatePair>, responses: seq<R>)
    ensures Gen(env, context, pairs) == Answer(responses) <==>
            exists k | 0 <= k < |pairs| ::
              AllPassed(env, context, pairs, k) && Answers(env, context, pairs, k, responses)
  {
    hide Try, Answers, PassedOver;
    if k :| 0 <= k < |pairs| && AllPassed(env, context, pairs, k) && Answers(env, context, pairs, k, responses) {
      AnswersIff(env, context, pairs, k, responses);
      TryIff(env, context, pairs, k);
      DecidedBy(env, context, pairs, k);
    }
    if Gen(env, context, pairs) == Answer(responses) {
      var k := FirstDecided(env, context, pairs);
      GenFrom(env, context, pairs, k);
      assert k < |pairs|;
      DecidedBy(env, context, pairs, k);
      AnswersIff(env, context, pairs, k, responses);
    }
  }

  /** There is no answer exactly if every rule is passed over. */
  lemma GenNoRuleIff<R>(env: Env<R>, context: Captures, pairs: seq<TemplatePair>)
    ensures Gen(env, context, pairs) == NoRule <==> AllPassed(env, context, pairs, |pairs|)
  {
    hide Try, PassedOver;
    var k := FirstDecided(env, context, pairs);
    if k < |pairs| {
      DecidedBy(env, context, pairs, k);
      NotNoRule(env, ContextAt(env, context, pairs, k), pairs[k]);
      assert !PassedOver(env, context, pairs, k);
    } else {
      GenFrom(env, context, pairs, k);
    }
  }

  /** Another failure comes exactly from the first rule not passed over. */
  lemma GenFailsIff<R>(env: Env<R>, context: Captures, pairs: seq<TemplatePair>)
    ensures Gen(env, context, pairs) == Failed <==>
            exists k | 0 <= k < |pairs| :: AllPassed(env, context, pairs, k) && FailsRule(env, context, pairs, k)
  {
    hide Try, PassedOver, FailsRule;
    if k :| 0 <= k < |pairs| && AllPassed(env, context, pairs, k) && FailsRule(env, context, pairs, k) {
      TryIff(env, context, pairs, k);
      DecidedBy(env, context, pairs, k);
    }
    if Gen(env, context, pairs) == Failed {
      var k := FirstDecided(env, context, pairs);
      GenFrom(env, context, pairs, k);
      assert k < |pairs|;
      DecidedBy(env, context, pairs, k);
      TryIff(env, context, pairs, k);
    }
  }

  lemma NotNoRule<R>(env: Env<R>, context: Captures, pair: TemplatePair)
    ensures Try(env, context, pair) != Decided(NoRule)
  {
  }

  /** Rules of ancestors come into play only when no nearer rule decides, and then see
      the captures of the nearer ones. */
  lemma {:induction false} NearerRulesFirst<R>(env: Env<R>, context: Captures, own: seq<TemplatePair>, inherited: seq<TemplatePair>)
    ensures Gen(env, context, own + inherited) ==
            if Gen(env, context, own) == NoRule then Gen(env, ContextAt(env, context, own, |own|), inherited)
            else Gen(env, context, own)
    decreases |own|
  {
    hide Try;
    var k := FirstDecided(env, context, own);
    GenNoRuleIff(env, context, own);
    ContextsAgree(env, context, own, inherited, k);
    if k < |own| {
      DecidedBy(env, context, own, k);
      NotNoRule(env, ContextAt(env, context, own, k), own[k]);
      DecidedBy(env, context, own + inherited, k);
    } else {
      GenFrom(env, context, own + inherited, k);
      assert (own + inherited)[k..] == inherited;
    }
  }

  lemma {:induction false} ContextsAgree<R>(env: Env<R>, context: Captures, own: seq<TemplatePair>, inherited: seq<TemplatePair>, k: nat)
    requires k <= |own| && AllPassed(env, context, own, k)
    ensures ContextAt(env, context, own + inherited, k) == ContextAt(env, context, own, k)
    ensures AllPassed(env, context, own + inherited, k)
    ensures k < |own| ==> PassedOver(env, context, own + inherited, k) == PassedOver(env, context, own, k)
  {
    hide Try;
    if k > 0 {
      ContextsAgree(env, context, own, inherited, k - 1);
      assert PassedOver(env, context, own, k - 1);
      assert (own + inherited)[k - 1] == own[k - 1];
    }
  }

  // ---------- the rules of a request ----------

  /** What a request brings: itself, the pattern matcher, the verdict of the body handlers, which
      may use the context, and the order in which each header map is looked at. */
  datatype Incoming = Incoming(
    request: Request,
    regex: (string, string) -> Option<Captures>,
    body: (Captures, RequestTemplate) -> Outcome,
    order: RequestTemplate -> seq<string>)

  ghost predicate Ordered(incoming: Incoming) {
    forall t: RequestTemplate :: Lists(incoming.order(t), t.headers.Keys)
  }

  /** Matching a template in a context is matching the request against it. */
  ghost function EnvOf<R>(incoming: Incoming, render: (Captures, ResponseTemplate) -> Rendered<R>, convertor: Captures): Env<R>
    requires Ordered(incoming)
  {
    Env((context: Captures, t: RequestTemplate) =>
          MatchInOrder(t, incoming.request, incoming.regex, incoming.body(context, t), incoming.order(t)),
        render, convertor)
  }

  /** Rule i accepts the request in the context the rules before it leave. */
  ghost predicate AcceptsAt<R>(incoming: Incoming, env: Env<R>, context: Captures, pairs: seq<TemplatePair>, i: nat)
    requires i < |pairs|
  {
    var t := pairs[i].req;
    Accepts(t, incoming.request, incoming.regex, incoming.body(ContextAt(env, context, pairs, i), t))
  }

  lemma MatchedIffAccepts<R>(incoming: Incoming, render: (Captures, ResponseTemplate) -> Rendered<R>, convertor: Captures,
                             context: Captures, pairs: seq<TemplatePair>, i: nat)
    requires Ordered(incoming) && i < |pairs|
    ensures var env := EnvOf(incoming, render, convertor);
            env.match_(ContextAt(env, context, pairs, i), pairs[i].req).Matched? <==> AcceptsAt(incoming, env, context, pairs, i)
  {
    hide MatchInOrder, Accepts, Lists;
    var t, before := pairs[i].req, ContextAt(EnvOf(incoming, render, convertor), context, pairs, i);
    assert Lists(incoming.order(t), t.headers.Keys);
    MatchesIff(t, incoming.request, incoming.regex, incoming.body(before, t), incoming.order(t));
  }

  /** The responses to a request are those of the first rule not passed over, which accepts the
      request and whose response templates all give one. */
  lemma AnsweredByAccepting<R>(incoming: Incoming, render: (Captures, ResponseTemplate) -> Rendered<R>, convertor: Captures,
                               context: Captures, pairs: seq<TemplatePair>, responses: seq<R>)
    requires Ordered(incoming)
    ensures var env := EnvOf(incoming, render, convertor);
            Gen(env, context, pairs) == Answer(responses) <==>
            exists k | 0 <= k < |pairs| ::
              && AllPassed(env, context, pairs, k)
              && AcceptsAt(incoming, env, context, pairs, k)
              && Answers(env, context, pairs, k, responses)
  {
    hide AllPassed, AcceptsAt, Gen;
    var env := EnvOf(incoming, render, convertor);
    GenAnswersIff(env, context, pairs, responses);
    forall k | 0 <= k < |pairs| && Answers(env, context, pairs, k, responses)
      ensures AcceptsAt(incoming, env, context, pairs, k)
    {
      MatchedIffAccepts(incoming, render, convertor, context, pairs, k);
    }
  }

  /** The first part of the request that rule i does not let pass misses and is not optional. */
  ghost predicate MismatchAt<R>(incoming: Incoming, env: Env<R>, context: Captures, pairs: seq<TemplatePair>, i: nat)
    requires i < |pairs| && Ordered(incoming)
  {
    var t := pairs[i].req;
    Lists(incoming.order(t), t.headers.Keys) && t.topLine.Some? &&
    EndsWith(Parts(t, incoming.request, incoming.body(ContextAt(env, context, pairs, i), t), incoming.order(t)),
             incoming.regex, map[], Mismatch)
  }

  /** A rule is passed over exactly if its first part that does not pass is a plain mismatch, or
      it accepts the request and one of its responses asks to skip it before any fails. */
  lemma PassedOverIff<R>(incoming: Incoming, render: (Captures, ResponseTemplate) -> Rendered<R>, convertor: Captures,
                         context: Captures, pairs: seq<TemplatePair>, i: nat)
    requires Ordered(incoming) && i < |pairs|
    ensures var env := EnvOf(incoming, render, convertor);
            PassedOver(env, context, pairs, i) <==>
              || MismatchAt(incoming, env, context, pairs, i)
              || (AcceptsAt(incoming, env, context, pairs, i) && Ends(env, ContextAt(env, context, pairs, i + 1), pairs[i].resps, Skipped))
  {
    hide AcceptsAt, MatchInOrder, EndsWith, Parts, Lists, Ends;
    MatchedIffAccepts(incoming, render, convertor, context, pairs, i);
    var env, t := EnvOf(incoming, render, convertor), pairs[i].req;
    var body, order := incoming.body(ContextAt(env, context, pairs, i), t), incoming.order(t);
    assert Lists(order, t.headers.Keys);
    assert forall name | name in order :: name in t.headers by { ListedAreHeaders(t, order); }
    MatchOutcome(t, incoming.request, incoming.regex, body, order);
    if MismatchAt(incoming, env, context, pairs, i) {
      EndsInOneWay(Parts(t, incoming.request, body, order), incoming.regex, map[],
                   MatchInOrder(t, incoming.request, incoming.regex, body, order), Mismatch);
    }
  }

  lemma ListedAreHeaders(t: RequestTemplate, order: seq<string>)
    requires Lists(order, t.headers.Keys)
    ensures forall name | name in order :: name in t.headers
  {
  }

  // ---------- inherited rules ----------

  class SimScript {
    const parent: SimScript?
    /** All ancestors, the nearest first. */
    ghost const above: seq<SimScript>
    var templatePairs: seq<TemplatePair>

    ghost predicate Valid()
      decreases |above|
    {
      && (parent == null ==> above == [])
      && (parent != null ==> above == [parent] + parent.above && parent.Valid())
    }

    constructor (parent: SimScript?, pairs: seq<TemplatePair>)
      requires parent != null ==> parent.Valid()
      ensures Valid() && this.parent == parent && templatePairs == pairs
    {
      this.parent := parent;
      above := if parent == null then [] else [parent] + parent.above;
      templatePairs := pairs;
    }

    /** The script's own rules, then those of its ancestors, the nearest first. */
    method GetEffectiveTemplatePairs() returns (ret: seq<TemplatePair>)
      requires Valid()
      ensures ret == templatePairs + RulesAbove(above)
    {
      ret := templatePairs;
      var script := parent;
      ghost var left := above;
      while script != null
        invariant script == null ==> left == []
        invariant script != null ==> script.Valid() && left == [script] + script.above
        invariant templatePairs + RulesAbove(above) == ret + RulesAbove(left)
        decreases |left|
      {
        assert left[1..] == script.above;
        assert ret + (script.templatePairs + RulesAbove(script.above)) == (ret + script.templatePairs) + RulesAbove(script.above);
        ret := ret + script.templatePairs;
        left := script.above;
        script := script.parent;
      }
      assert ret + [] == ret;
    }
  }

  ghost function RulesAbove(scripts: seq<SimScript>): seq<TemplatePair>
    reads scripts
  {
    if scripts == [] then [] else scripts[0].templatePairs + RulesAbove(scripts[1..])
  }

  /** The rules of a list of scripts are those of each in turn. */
  lemma {:induction false} RulesInTurn(scripts: seq<SimScript>, more: seq<SimScript>)
    ensures RulesAbove(scripts + more) == RulesAbove(scripts) + RulesAbove(more)
    ensures forall script: SimScript :: RulesAbove([script]) == script.templatePairs
  {
    if scripts == [] {
      assert scripts + more == more;
    } else {
      assert (scripts + more)[1..] == scripts[1..] + more;
      RulesInTurn(scripts[1..], more);
    }
  }

  lemma NearestDecide<R>(env: Env<R>, config: Captures, own: seq<TemplatePair>, above: seq<SimScript>, n: nat)
    requires n <= |above|
    ensures var near := own + RulesAbove(above[..n]);
            Gen(env, config, near) != NoRule ==> Gen(env, config, own + RulesAbove(above)) == Gen(env, config, near)
  {
    hide Gen, RulesAbove;
    var near, far := own + RulesAbove(above[..n]), RulesAbove(above[n..]);
    assert above[..n] + above[n..] == above;
    RulesInTurn(above[..n], above[n..]);
    assert own + RulesAbove(above) == near + far;
    NearerRulesFirst(env, config, near, far);
  }

  /** A request to a script is answered by its own rules, and by inherited ones only if every
      nearer rule is passed over: what the nearest n ancestors decide, no farther one changes. */
  method Respond<R>(script: SimScript, env: Env<R>, config: Captures) returns (r: Reply<R>)
    requires script.Valid()
    ensures r == Gen(env, config, script.templatePairs + RulesAbove(script.above))
    ensures forall n: nat | n <= |script.above| ::
              var near := script.templatePairs + RulesAbove(script.above[..n]);
              Gen(env, config, near) != NoRule ==> r == Gen(env, config, near)
  {
    hide Gen, RulesAbove;
    var pairs := script.GetEffectiveTemplatePairs();
    r := GenResponse(env, config, pairs);
    forall n: nat | n <= |script.above|
      ensures var near := script.templatePairs + RulesAbove(script.above[..n]);
              Gen(env, config, near) != NoRule ==> r == Gen(env, config, near)
    {
      NearestDecide(env, config, script.templatePairs, script.above, n);
    }
  }
}
