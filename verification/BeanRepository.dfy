/** The cache of function beans, one per simulator and class, told as a history of what was
    made, removed and closed. */
module BeanHistory {
  import opened Outcomes

  /** A bean's identity and whether its object wants to hear of creation and closing. */
  datatype Bean = Bean(id: nat, listens: bool)

  datatype Event = Made(sim: string, cls: string, bean: Bean) | Removed(sim: string) | Closed(sim: string, bean: Bean)

  /** The bean of a class made since the simulator's beans were last removed. */
  function Current(h: seq<Event>, sim: string, cls: string): Option<Bean> {
    if h == [] then None
    else
      match h[|h| - 1]
      case Made(s, c, b) => if s == sim && c == cls then Some(b) else Current(h[..|h| - 1], sim, cls)
      case Removed(s) => if s == sim then None else Current(h[..|h| - 1], sim, cls)
      case Closed(_, _) => Current(h[..|h| - 1], sim, cls)
  }

  /** Every bean made so far is older than `next`. */
  predicate IdsBelow(h: seq<Event>, next: nat) {
    forall i :: 0 <= i < |h| && h[i].Made? ==> h[i].bean.id < next
  }

  predicate WasMade(h: seq<Event>, sim: string, b: Bean) {
    exists i :: 0 <= i < |h| && h[i].Made? && h[i].sim == sim && h[i].bean == b
  }

  /** What may happen after h: a bean is made only where there is none and with a new identity; a
      bean is closed only if it listens, was made, is no longer current and was not closed before. */
  ghost predicate May(h: seq<Event>, e: Event) {
    match e
    case Made(sim, cls, b) => Current(h, sim, cls).None? && IdsBelow(h, b.id)
    case Removed(_) => true
    case Closed(sim, b) =>
      b.listens && WasMade(h, sim, b) && e !in h && forall s, c :: Current(h, s, c) != Some(b)
  }

  ghost predicate Legal(h: seq<Event>) {
    h == [] || (Legal(h[..|h| - 1]) && May(h[..|h| - 1], h[|h| - 1]))
  }

  lemma {:induction false} LegalPrefix(h: seq<Event>, n: nat)
    requires Legal(h) && n <= |h|
    ensures Legal(h[..n]) && (n < |h| ==> May(h[..n], h[n]))
    decreases |h|
  {
    if n + 1 < |h| {
      assert h[..|h| - 1][..n] == h[..n];
      LegalPrefix(h[..|h| - 1], n);
    } else {
      assert h[..|h|] == h;
    }
  }

  lemma {:induction false} CurrentStays(h: seq<Event>, n: nat, sim: string, cls: string)
    requires n <= |h| && Legal(h) && Current(h[..n], sim, cls).Some?
    requires Removed(sim) !in h[n..]
    ensures Current(h, sim, cls) == Current(h[..n], sim, cls)
    decreases |h|
  {
    if n == |h| {
      assert h[..n] == h;
    } else {
      var front, last := h[..|h| - 1], h[|h| - 1];
      assert front[..n] == h[..n] && h[n..] == front[n..] + [last];
      CurrentStays(front, n, sim, cls);
    }
  }

  lemma {:induction false} GoneMeansRemoved(h: seq<Event>, n: nat, sim: string, cls: string)
    requires n <= |h| && Current(h[..n], sim, cls).Some? && Current(h, sim, cls).None?
    ensures Removed(sim) in h[n..]
    decreases |h|
  {
    assert h[..|h|] == h;
    var front, last := h[..|h| - 1], h[|h| - 1];
    assert n < |h| ==> h[n..] == front[n..] + [last];
    if last != Removed(sim) {
      assert front[..n] == h[..n];
      GoneMeansRemoved(front, n, sim, cls);
    }
  }

  lemma CurrentOnceMade(h: seq<Event>, i: nat)
    requires i < |h| && h[i].Made?
    ensures Current(h[..i + 1], h[i].sim, h[i].cls) == Some(h[i].bean)
  {
    assert h[..i + 1][..i] == h[..i];
  }

  /** Between two beans of the same simulator and class lies a removal of the simulator's beans. */
  lemma OneBeanBetweenRemovals(h: seq<Event>, i: nat, j: nat)
    requires Legal(h) && i < j < |h| && h[i].Made? && h[j].Made?
    requires h[i].sim == h[j].sim && h[i].cls == h[j].cls
    ensures Removed(h[i].sim) in h[i + 1..j]
  {
    hide *;
    NoneBeforeMade(h, j);
    CurrentOnceMade(h, i);
    TakeTake(h, i + 1, j);
    GoneMeansRemoved(h[..j], i + 1, h[i].sim, h[i].cls);
  }

  lemma TakeTake(h: seq<Event>, n: nat, j: nat)
    requires n <= j <= |h|
    ensures h[..j][..n] == h[..n] && h[..j][n..] == h[n..j]
  {
  }

  lemma NoneBeforeMade(h: seq<Event>, j: nat)
    requires Legal(h) && j < |h| && h[j].Made?
    ensures Current(h[..j], h[j].sim, h[j].cls).None?
  {
    LegalPrefix(h, j);
  }

  lemma InTake(h: seq<Event>, i: nat, j: nat)
    requires i < |h| && j <= |h|
    ensures i < j ==> h[i] in h[..j]
  {
    if i < j {
      assert h[..j][i] == h[i];
    }
  }

  /** No bean is closed twice, and none before it was made. */
  lemma ClosedAtMostOnce(h: seq<Event>, i: nat, j: nat)
    requires Legal(h) && i < |h| && h[i].Closed?
    requires j < |h| && h[j].Closed? && h[j] == h[i]
    ensures i == j
    ensures WasMade(h[..i], h[i].sim, h[i].bean)
  {
    LegalPrefix(h, i);
    LegalPrefix(h, j);
    InTake(h, i, j);
    InTake(h, j, i);
  }

  /** The bean is the current one of some class of the simulator. */
  ghost predicate HasCurrent(h: seq<Event>, sim: string, b: Bean) {
    exists c :: Current(h, sim, c) == Some(b)
  }

  // ---------- closing the beans of a simulator ----------

  /** The bean may be closed: it was made, is not closed yet and is nobody's current bean. */
  ghost predicate Retired(h: seq<Event>, sim: string, b: Bean) {
    WasMade(h, sim, b) && Closed(sim, b) !in h && forall s, c :: Current(h, s, c) != Some(b)
  }

  lemma WasMadeStays(h: seq<Event>, e: Event, sim: string, b: Bean)
    requires WasMade(h, sim, b)
    ensures WasMade(h + [e], sim, b)
  {
    var i :| 0 <= i < |h| && h[i].Made? && h[i].sim == sim && h[i].bean == b;
    assert (h + [e])[i] == h[i];
  }

  lemma {:induction false} CurrentWasMade(h: seq<Event>, sim: string, cls: string, b: Bean)
    requires Current(h, sim, cls) == Some(b)
    ensures WasMade(h, sim, b)
    decreases |h|
  {
    var front, last := h[..|h| - 1], h[|h| - 1];
    assert h == front + [last];
    if last == Made(sim, cls, b) {
    } else {
      CurrentWasMade(front, sim, cls, b);
      WasMadeStays(front, last, sim, b);
    }
  }

  /** A closed bean never becomes current again. */
  lemma {:induction false} ClosedIsGone(h: seq<Event>, sim: string, b: Bean, s: string, c: string)
    requires Legal(h) && Closed(sim, b) in h
    ensures Current(h, s, c) != Some(b) && WasMade(h, sim, b)
    decreases |h|
  {
    var front, last := h[..|h| - 1], h[|h| - 1];
    assert h == front + [last];
    if last == Closed(sim, b) {
      assert Current(front, s, c) != Some(b);
    } else {
      ClosedIsGone(front, sim, b, s, c);
    }
    WasMadeStays(front, last, sim, b);
  }

  /** No bean is current for two classes or two simulators. */
  lemma {:induction false} CurrentIsUnique(h: seq<Event>, s: string, c: string, t: string, d: string)
    requires Legal(h) && Current(h, s, c).Some? && Current(h, s, c) == Current(h, t, d)
    ensures s == t && c == d
    decreases |h|
  {
    var front, last := h[..|h| - 1], h[|h| - 1];
    var b := Current(h, s, c).value;
    if last == Made(s, c, b) || last == Made(t, d, b) {
      if Current(front, s, c) == Some(b) {
        CurrentWasMade(front, s, c, b);
      }
      if Current(front, t, d) == Some(b) {
        CurrentWasMade(front, t, d, b);
      }
    } else {
      CurrentIsUnique(front, s, c, t, d);
    }
  }

  /** Removing a simulator's beans retires every one of them. */
  lemma RemovalRetires(h: seq<Event>, sim: string, cls: string, b: Bean)
    requires Legal(h) && Current(h, sim, cls) == Some(b)
    ensures Retired(h + [Removed(sim)], sim, b)
  {
    var after := h + [Removed(sim)];
    assert after[..|h|] == h;
    CurrentWasMade(h, sim, cls, b);
    WasMadeStays(h, Removed(sim), sim, b);
    if Closed(sim, b) in h {
      ClosedIsGone(h, sim, b, sim, cls);
    }
    forall s, c
      ensures Current(after, s, c) != Some(b)
    {
      if s != sim && Current(h, s, c) == Some(b) {
        CurrentIsUnique(h, s, c, sim, cls);
      }
    }
  }

  lemma StaysRetired(h: seq<Event>, sim: string, closed: Bean, b: Bean)
    requires Retired(h, sim, b) && b != closed
    ensures Retired(h + [Closed(sim, closed)], sim, b)
  {
    var after := h + [Closed(sim, closed)];
    assert after[..|h|] == h;
    WasMadeStays(h, Closed(sim, closed), sim, b);
    forall s, c
      ensures Current(after, s, c) != Some(b)
    {
      assert Current(h, s, c) != Some(b);
    }
  }

  /** The loop over the removed beans: onClose may throw, which ends the loop. */
  function Closings(sim: string, beans: seq<Bean>, throws: set<Bean>): seq<Event> {
    if beans == [] then []
    else if !beans[0].listens then Closings(sim, beans[1..], throws)
    else [Closed(sim, beans[0])] + if beans[0] in throws then [] else Closings(sim, beans[1..], throws)
  }

  predicate AllClosed(sim: string, beans: seq<Bean>, events: seq<Event>) {
    forall b | b in beans :: b.listens ==> Closed(sim, b) in events
  }

  /** No listening bean whose closing throws is followed by another listening bean. */
  predicate NoneCutOff(beans: seq<Bean>, throws: set<Bean>) {
    forall i, j :: 0 <= i < j < |beans| && beans[i].listens && beans[i] in throws ==> !beans[j].listens
  }

  predicate Deaf(beans: seq<Bean>) {
    forall j :: 0 <= j < |beans| ==> !beans[j].listens
  }

  lemma NoneCutOffHead(beans: seq<Bean>, throws: set<Bean>)
    requires beans != []
    ensures NoneCutOff(beans, throws) <==>
            NoneCutOff(beans[1..], throws) && (beans[0].listens && beans[0] in throws ==> Deaf(beans[1..]))
  {
    var rest := beans[1..];
    assert forall j :: 0 <= j < |rest| ==> rest[j] == beans[j + 1];
    if NoneCutOff(rest, throws) && (beans[0].listens && beans[0] in throws ==> Deaf(rest)) {
      forall i, j | 0 <= i < j < |beans| && beans[i].listens && beans[i] in throws
        ensures !beans[j].listens
      {
        assert beans[j] == rest[j - 1];
        if i > 0 {
          assert beans[i] == rest[i - 1];
        }
      }
    }
  }

  lemma AllClosedHead(sim: string, beans: seq<Bean>, throws: set<Bean>)
    requires beans != [] && Distinct(beans)
    ensures AllClosed(sim, beans, Closings(sim, beans, throws)) <==>
            if beans[0].listens && beans[0] in throws then Deaf(beans[1..])
            else AllClosed(sim, beans[1..], Closings(sim, beans[1..], throws))
  {
    var rest := beans[1..];
    assert forall b :: b in beans <==> b == beans[0] || b in rest;
    assert beans[0] !in rest;
    if beans[0].listens && beans[0] in throws {
      assert Closings(sim, beans, throws) == [Closed(sim, beans[0])];
      assert Deaf(rest) <==> forall b :: b in rest ==> !b.listens;
    }
  }

  /** Every listening bean is closed exactly when none is cut off by a closing that throws. */
  lemma {:induction false} AllClosedIff(sim: string, beans: seq<Bean>, throws: set<Bean>)
    requires Distinct(beans)
    ensures AllClosed(sim, beans, Closings(sim, beans, throws)) <==> NoneCutOff(beans, throws)
    decreases |beans|
  {
    if beans != [] {
      AllClosedIff(sim, beans[1..], throws);
      AllClosedHead(sim, beans, throws);
      NoneCutOffHead(beans, throws);
      DeafIsSafe(beans[1..], throws);
      hide AllClosed, NoneCutOff, Closings, Deaf;
    }
  }

  /** The first of two listening beans throws when it is closed: the second is never closed. */
  lemma SecondLeftOpen()
    ensures var beans := [Bean(0, true), Bean(1, true)];
            Distinct(beans) && Closed("s", beans[1]) !in Closings("s", beans, {beans[0]})
  {
  }

  lemma DeafIsSafe(beans: seq<Bean>, throws: set<Bean>)
    ensures Deaf(beans) ==> NoneCutOff(beans, throws)
  {
  }
}

/** The repository object. */
module BeanRepositories {
  import opened Outcomes
  import opened BeanHistory

  type Table = map<string, map<string, Bean>>

  function Lookup(t: Table, sim: string, cls: string): Option<Bean> {
    if sim in t && cls in t[sim] then Some(t[sim][cls]) else None
  }

  /** The table holds exactly the current beans. */
  ghost predicate Tracks(t: Table, h: seq<Event>) {
    forall sim, cls :: Lookup(t, sim, cls) == Current(h, sim, cls)
  }

  lemma Snoc(h: seq<Event>, e: Event)
    ensures (h + [e])[..|h|] == h
    ensures Legal(h) && May(h, e) ==> Legal(h + [e])
  {
    assert (h + [e])[..|h|] == h;
  }

  lemma TracksMade(t: Table, h: seq<Event>, sim: string, cls: string, b: Bean)
    requires Tracks(t, h) && sim in t
    ensures Tracks(t[sim := t[sim][cls := b]], h + [Made(sim, cls, b)])
  {
    Snoc(h, Made(sim, cls, b));
    var u := t[sim := t[sim][cls := b]];
    forall s, c
      ensures Lookup(u, s, c) == Current(h + [Made(sim, cls, b)], s, c)
    {
      assert Lookup(t, s, c) == Current(h, s, c);
    }
  }

  lemma TracksRemoved(t: Table, h: seq<Event>, sim: string)
    requires Tracks(t, h)
    ensures Tracks(t - {sim}, h + [Removed(sim)])
  {
    Snoc(h, Removed(sim));
    forall s, c
      ensures Lookup(t - {sim}, s, c) == Current(h + [Removed(sim)], s, c)
    {
      assert Lookup(t, s, c) == Current(h, s, c);
    }
  }

  lemma TracksClosed(t: Table, h: seq<Event>, sim: string, b: Bean)
    requires Tracks(t, h)
    ensures Tracks(t, h + [Closed(sim, b)])
  {
    Snoc(h, Closed(sim, b));
    forall s, c
      ensures Lookup(t, s, c) == Current(h + [Closed(sim, b)], s, c)
    {
      assert Lookup(t, s, c) == Current(h, s, c);
    }
  }

  class BeanRepository {
    var beanMap: Table
    var made: nat
    ghost var history: seq<Event>

    ghost predicate Valid()
      reads this
    {
      Tracks(beanMap, history) && IdsBelow(history, made) && Legal(history)
    }

    constructor ()
      ensures Valid() && history == []
    {
      beanMap, made, history := map[], 0, [];
    }

    /** `creation` says whether the new object listens, or None if creating it throws. */
    method AddBean(sim: string, cls: string, creation: Option<bool>) returns (r: Option<Bean>)
      requires Valid()
      modifies this
      ensures Valid()
      ensures match Current(old(history), sim, cls)
              case Some(b) => r == Some(b) && history == old(history)
              case None =>
                if creation.None? then r == None && history == old(history)
                else r.Some? && r.value.listens == creation.value && history == old(history) + [Made(sim, cls, r.value)]
    {
      hide Current, Legal;
      assert Lookup(beanMap, sim, cls) == Current(history, sim, cls);
      if sim !in beanMap {
        EmptyTracks(beanMap, history, sim);
        beanMap := beanMap[sim := map[]];
      }
      if cls in beanMap[sim] {
        return Some(beanMap[sim][cls]);
      }
      if creation.None? {
        return None;
      }
      var bean := Bean(made, creation.value);
      TracksMade(beanMap, history, sim, cls, bean);
      Snoc(history, Made(sim, cls, bean));
      beanMap := beanMap[sim := beanMap[sim][cls := bean]];
      made := made + 1;
      history := history + [Made(sim, cls, bean)];
      r := Some(bean);
    }

    /** The beans of one simulator's table, in the unspecified order of a Java hash map. */
    static method ValuesOf(simMap: map<string, Bean>) returns (beans: seq<Bean>)
      requires forall c, d :: c in simMap && d in simMap && simMap[c] == simMap[d] ==> c == d
      ensures Distinct(beans) && forall b :: b in beans <==> exists c :: c in simMap && simMap[c] == b
    {
      beans := [];
      var left := simMap.Keys;
      while left != {}
        invariant left <= simMap.Keys && Distinct(beans)
        invariant forall b :: b in beans <==> exists c :: c in simMap && c !in left && simMap[c] == b
        decreases |left|
      {
        var c :| c in left;
        assert simMap[c] !in beans;
        beans := beans + [simMap[c]];
        left := left - {c};
      }
    }

    /** `throws` are the beans whose onClose throws. */
    method RemoveSimulatorBeans(sim: string, throws: set<Bean>) returns (beans: seq<Bean>, thrown: bool)
      requires Valid()
      modifies this
      ensures Valid()
      ensures Distinct(beans) && forall b :: b in beans <==> HasCurrent(old(history), sim, b)
      ensures history == old(history) + [Removed(sim)] + Closings(sim, beans, throws)
      ensures thrown <==> exists b :: b in throws && b.listens && HasCurrent(old(history), sim, b)
    {
      hide Current, Legal;
      var simMap := if sim in beanMap then beanMap[sim] else map[];
      forall c
        ensures Current(history, sim, c) == if c in simMap then Some(simMap[c]) else None
      {
        assert Lookup(beanMap, sim, c) == Current(history, sim, c);
      }
      forall c, d | c in simMap && d in simMap && simMap[c] == simMap[d]
        ensures c == d
      {
        CurrentIsUnique(history, sim, c, sim, d);
      }
      beans := ValuesOf(simMap);
      assert forall b :: b in beans <==> HasCurrent(history, sim, b);
      forall b | b in beans
        ensures Retired(history + [Removed(sim)], sim, b)
      {
        var c :| c in simMap && simMap[c] == b;
        RemovalRetires(history, sim, c, b);
      }
      TracksRemoved(beanMap, history, sim);
      Snoc(history, Removed(sim));
      beanMap := beanMap - {sim};
      history := history + [Removed(sim)];
      thrown := CloseBeans(sim, beans, throws);
    }

    /** The loop over the removed beans; an exception from a bean ends it. */
    method CloseBeans(sim: string, beans: seq<Bean>, throws: set<Bean>) returns (thrown: bool)
      requires Valid() && Distinct(beans) && AllRetired(history, sim, beans)
      modifies this
      ensures Valid() && beanMap == old(beanMap) && made == old(made)
      ensures history == old(history) + Closings(sim, beans, throws)
      ensures thrown <==> exists b :: b in throws && b.listens && b in beans
    {
      hide Current, Legal, Retired;
      assert beans[0..] == beans;
      for i := 0 to |beans|
        invariant Valid() && AllRetired(history, sim, beans[i..]) && beanMap == old(beanMap) && made == old(made)
        invariant history + Closings(sim, beans[i..], throws) == old(history) + Closings(sim, beans, throws)
        invariant forall k | 0 <= k < i :: !(beans[k] in throws && beans[k].listens)
      {
        assert beans[i..][1..] == beans[i + 1..];
        if beans[i].listens {
          CloseOne(beanMap, history, made, sim, beans[i..]);
          history := history + [Closed(sim, beans[i])];
          if beans[i] in throws {
            return true;
          }
        }
      }
      return false;
    }
  }

  ghost predicate AllRetired(h: seq<Event>, sim: string, beans: seq<Bean>) {
    forall b :: b in beans ==> Retired(h, sim, b)
  }

  lemma CloseOne(t: Table, h: seq<Event>, made: nat, sim: string, beans: seq<Bean>)
    requires Tracks(t, h) && IdsBelow(h, made) && Legal(h)
    requires beans != [] && Distinct(beans) && beans[0].listens && AllRetired(h, sim, beans)
    ensures var after := h + [Closed(sim, beans[0])];
            Tracks(t, after) && IdsBelow(after, made) && Legal(after) && AllRetired(after, sim, beans[1..])
  {
    var after := h + [Closed(sim, beans[0])];
    assert Retired(h, sim, beans[0]);
    Snoc(h, Closed(sim, beans[0]));
    TracksClosed(t, h, sim, beans[0]);
    forall b | b in beans[1..]
      ensures Retired(after, sim, b)
    {
      assert b in beans && b != beans[0];
      StaysRetired(h, sim, beans[0], b);
    }
  }

  lemma EmptyTracks(t: Table, h: seq<Event>, sim: string)
    requires Tracks(t, h) && sim !in t
    ensures Tracks(t[sim := map[]], h)
  {
    forall s, c
      ensures Lookup(t[sim := map[]], s, c) == Current(h, s, c)
    {
      assert Lookup(t, s, c) == Current(h, s, c);
    }
  }
}
