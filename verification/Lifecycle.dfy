/** What the message counters should show, as a function of the events that happened. */
module EventLog {
  import opened JavaInts

  /** Created: a simulator was made for the name and its counter initialised. */
  datatype Event = Created(name: string) | Started(name: string) | Stopped(name: string) | Handled(name: string, ok: bool)

  /** Two 32-bit counters. */
  datatype Tally = Tally(succeeded: int, failed: int)

  type Tallies = map<string, Tally>

  /** What one event does to the counters. */
  function Apply(t: Tallies, e: Event): Tallies {
    match e
    case Created(name) => t[name := Tally(0, 0)]
    case Started(name) => t[name := Tally(0, 0)]
    case Stopped(name) => t - {name}
    case Handled(name, ok) =>
      if name !in t then t
      else if ok then t[name := Tally(Increment(t[name].succeeded), t[name].failed)]
      else t[name := Tally(t[name].succeeded, Increment(t[name].failed))]
  }

  function Replay(log: seq<Event>): Tallies {
    if log == [] then map[] else Apply(Replay(log[..|log| - 1]), log[|log| - 1])
  }

  lemma ReplaySnoc(log: seq<Event>, e: Event)
    ensures Replay(log + [e]) == Apply(Replay(log), e)
  {
    assert (log + [e])[..|log|] == log;
  }

  /** How many messages of a name were handled with the given status since its latest start. */
  function HandledSince(log: seq<Event>, name: string, ok: bool): nat {
    if log == [] then 0
    else
      var last, before := log[|log| - 1], log[..|log| - 1];
      if last == Started(name) then 0
      else HandledSince(before, name, ok) + if last == Handled(name, ok) then 1 else 0
  }

  /** The latest event of a name, other than messages, is a start. */
  predicate Live(log: seq<Event>, name: string) {
    log != [] &&
    var last, before := log[|log| - 1], log[..|log| - 1];
    if last.Handled? || last.name != name then Live(before, name) else last.Started?
  }

  /** The latest event of a name, other than messages, makes or starts its simulator. */
  predicate Counting(log: seq<Event>, name: string) {
    log != [] &&
    var last, before := log[|log| - 1], log[..|log| - 1];
    if last.Handled? || last.name != name then Counting(before, name) else !last.Stopped?
  }

  /** How many messages of a name were handled with the given status since its simulator was
      made or started last. */
  function CountedSince(log: seq<Event>, name: string, ok: bool): nat {
    if log == [] then 0
    else
      var last, before := log[|log| - 1], log[..|log| - 1];
      if last == Created(name) || last == Started(name) then 0
      else CountedSince(before, name, ok) + if last == Handled(name, ok) then 1 else 0
  }

  /** For any history and name: a counter exists exactly if the simulator was made or started and
      not stopped since, and then it shows the messages handled since. */
  lemma {:induction false} TallyIff(log: seq<Event>, name: string)
    ensures name in Replay(log) <==> Counting(log, name)
    ensures name in Replay(log) ==>
              Replay(log)[name] == Tally(Narrow(CountedSince(log, name, true)), Narrow(CountedSince(log, name, false)))
    decreases |log|
  {
    hide Narrow, Increment;
    assert Narrow(0) == 0 by {
      NarrowFits(0);
    }
    if log != [] {
      var before := log[..|log| - 1];
      TallyIff(before, name);
      NarrowStep(CountedSince(before, name, true));
      NarrowStep(CountedSince(before, name, false));
    }
  }

  /** For a name whose latest lifecycle event is a start, the counter exists and shows the
      messages handled since then, whatever happened to other names. */
  lemma {:induction false} LiveTally(log: seq<Event>, name: string)
    requires Live(log, name)
    ensures name in Replay(log)
    ensures Replay(log)[name] == Tally(Narrow(HandledSince(log, name, true)), Narrow(HandledSince(log, name, false)))
    decreases |log|
  {
    hide Narrow, Increment;
    assert Narrow(0) == 0 by {
      NarrowFits(0);
    }
    var last, before := log[|log| - 1], log[..|log| - 1];
    if last.Handled? || last.name != name {
      LiveTally(before, name);
      NarrowStep(HandledSince(before, name, true));
      NarrowStep(HandledSince(before, name, false));
    }
  }

  /** The two counters add up to the messages handled since the start exactly as long as
      neither count exceeds the 32-bit range: past it, wrapping around only loses messages. */
  lemma LiveTotal(log: seq<Event>, name: string)
    requires Live(log, name)
    ensures name in Replay(log)
    ensures Replay(log)[name].succeeded + Replay(log)[name].failed == TotalSince(log, name) <==>
            HandledSince(log, name, true) <= MAX_INT && HandledSince(log, name, false) <= MAX_INT
  {
    hide Narrow, Replay, Live;
    LiveTally(log, name);
    Totals(log, name);
    NarrowLoses(HandledSince(log, name, true));
    NarrowLoses(HandledSince(log, name, false));
  }

  function TotalSince(log: seq<Event>, name: string): nat {
    if log == [] then 0
    else
      var last, before := log[|log| - 1], log[..|log| - 1];
      if last == Started(name) then 0
      else TotalSince(before, name) + if last.Handled? && last.name == name then 1 else 0
  }

  lemma {:induction false} Totals(log: seq<Event>, name: string)
    ensures TotalSince(log, name) == HandledSince(log, name, true) + HandledSince(log, name, false)
  {
    if log != [] {
      Totals(log[..|log| - 1], name);
    }
  }

  lemma LiveSnoc(log: seq<Event>, e: Event, name: string)
    ensures Live(log + [e], name) <==> if e.Handled? || e.name != name then Live(log, name) else e.Started?
    ensures e.name != name || !(e.Handled? || e.Started?) ==>
              forall ok :: HandledSince(log + [e], name, ok) == HandledSince(log, name, ok)
  {
    assert (log + [e])[..|log|] == log;
  }
}

/** What the operations on the repository of simulators do, seen from outside. */
module LifecycleSpec {
  import opened JavaInts
  import opened Outcomes
  import opened EventLog

  /** A script that can be loaded, and whether a simulator can be built from it. */
  datatype Script = Script(name: string, builds: bool)

  /** How a start goes: which configured listeners can be created, and whether the transport starts. */
  datatype StartEnv = StartEnv(listeners: seq<bool>, starts: bool, url: string)

  /** How a stop goes: whether stopping the transport and closing the beans raise exceptions. */
  datatype StopEnv = StopEnv(doStopThrows: bool, beansThrow: bool)

  datatype Outcome = Done | Missing | Failed

  /** The registered names, whether each is running, and all events so far. */
  datatype World = World(running: map<string, bool>, log: seq<Event>)

  predicate StartsWell(env: StartEnv) {
    env.starts && forall i | 0 <= i < |env.listeners| :: env.listeners[i]
  }

  function IsRunning(w: World, name: string): bool {
    name in w.running && w.running[name]
  }

  function Set(w: World, name: string, running: bool, e: Event): World {
    World(w.running[name := running], w.log + [e])
  }

  function Start(w: World, name: string, env: StartEnv): (World, Outcome) {
    if name !in w.running then (w, Missing)
    else if w.running[name] then (w, Done)
    else if StartsWell(env) then (Set(w, name, true, Started(name)), Done)
    else (w, Failed)
  }

  /** Stops a running simulator; if closing the beans fails, it stays running. */
  function Halt(w: World, name: string, env: StopEnv): (World, Outcome) {
    if env.beansThrow then (w, Failed)
    else (Set(w, name, false, Stopped(name)), if env.doStopThrows then Failed else Done)
  }

  function Stop(w: World, name: string, env: StopEnv): (World, Outcome) {
    if name !in w.running then (w, Missing)
    else if w.running[name] then Halt(w, name, env)
    else (w, Done)
  }

  function OnlyRunning(w: World): World {
    w.(running := map name | name in w.running && w.running[name] :: true)
  }

  /** Creates a simulator for each script whose name is not taken, until one cannot be built. */
  function LoadAll(w: World, scripts: seq<Script>): (World, Outcome)
    decreases |scripts|
  {
    if scripts == [] then (w, Done)
    else if scripts[0].name in w.running then LoadAll(w, scripts[1..])
    else if !scripts[0].builds then (w, Failed)
    else LoadAll(Set(w, scripts[0].name, false, Created(scripts[0].name)), scripts[1..])
  }

  /** Some script has the name. */
  predicate Named(scripts: seq<Script>, name: string) {
    exists s | s in scripts :: s.name == name
  }

  /** The log has grown by one creation for each of the names. */
  predicate CreatedSince(before: seq<Event>, after: seq<Event>, names: set<string>) {
    && before <= after
    && Distinct(after[|before|..])
    && (forall e | e in after[|before|..] :: e.Created? && e.name in names)
    && forall n | n in names :: Created(n) in after[|before|..]
  }

  lemma NoneCreated(log: seq<Event>)
    ensures CreatedSince(log, log, {})
  {
    assert log[|log|..] == [];
  }

  lemma CreatedFirst(before: seq<Event>, after: seq<Event>, names: set<string>, name: string)
    requires CreatedSince(before + [Created(name)], after, names) && name !in names
    ensures CreatedSince(before, after, names + {name})
  {
    assert after[|before|..] == [Created(name)] + after[|before| + 1..];
  }

  lemma NamedCons(scripts: seq<Script>, name: string)
    requires scripts != []
    ensures Named(scripts, name) <==> scripts[0].name == name || Named(scripts[1..], name)
    ensures forall k | 1 <= k <= |scripts| ::
              Named(scripts[..k], name) <==> scripts[0].name == name || Named(scripts[1..][..k - 1], name)
  {
    assert forall s :: s in scripts <==> s == scripts[0] || s in scripts[1..];
    forall k | 1 <= k <= |scripts|
      ensures Named(scripts[..k], name) <==> scripts[0].name == name || Named(scripts[1..][..k - 1], name)
    {
      assert scripts[..k] == [scripts[0]] + scripts[1..][..k - 1];
      assert forall s :: s in scripts[..k] <==> s == scripts[0] || s in scripts[1..][..k - 1];
    }
  }

  /** Loading a script at position k goes through: it builds, or its name is taken. */
  predicate Loads(taken: set<string>, scripts: seq<Script>, k: nat)
    requires k < |scripts|
  {
    scripts[k].builds || scripts[k].name in taken || Named(scripts[..k], scripts[k].name)
  }

  predicate AllLoad(taken: set<string>, scripts: seq<Script>) {
    forall k | 0 <= k < |scripts| :: Loads(taken, scripts, k)
  }

  /** What loading comes to: it keeps what is there, adds stopped simulators with names of
      scripts, each created once, and is done exactly if every script loads. */
  ghost predicate LoadedWell(w: World, scripts: seq<Script>, after: World, r: Outcome) {
    && (forall n | n in w.running :: n in after.running && after.running[n] == w.running[n])
    && (forall n | n in after.running && n !in w.running :: !after.running[n] && Named(scripts, n))
    && (r == Done ==> forall s | s in scripts :: s.name in after.running)
    && (r == Done <==> AllLoad(w.running.Keys, scripts))
    && CreatedSince(w.log, after.log, after.running.Keys - w.running.Keys)
  }

  lemma {:induction false} LoadAllLaw(w: World, scripts: seq<Script>)
    ensures var (after, r) := LoadAll(w, scripts); LoadedWell(w, scripts, after, r)
    decreases |scripts|
  {
    hide CreatedSince, Named;
    if scripts == [] {
      NoneCreated(w.log);
      assert w.running.Keys - w.running.Keys == {};
    } else {
      var s := scripts[0];
      if s.name in w.running {
        LoadAllLaw(w, scripts[1..]);
        LoadedCons(w, w, scripts, LoadAll(w, scripts).0, LoadAll(w, scripts).1);
      } else if s.builds {
        var next := Set(w, s.name, false, Created(s.name));
        LoadAllLaw(next, scripts[1..]);
        LoadedCons(w, next, scripts, LoadAll(w, scripts).0, LoadAll(w, scripts).1);
      } else {
        NoneCreated(w.log);
        assert w.running.Keys - w.running.Keys == {};
        assert !Loads(w.running.Keys, scripts, 0) by {
          NothingNamed(s.name);
        }
      }
    }
  }

  lemma NothingNamed(name: string)
    ensures !Named([], name)
  {
  }

  lemma LoadedCons(w: World, next: World, scripts: seq<Script>, after: World, r: Outcome)
    requires scripts != [] && LoadedWell(next, scripts[1..], after, r)
    requires next == if scripts[0].name in w.running then w else Set(w, scripts[0].name, false, Created(scripts[0].name))
    requires scripts[0].name in w.running || scripts[0].builds
    ensures LoadedWell(w, scripts, after, r)
  {
    hide CreatedSince, Named;
    forall n
      ensures Named(scripts, n) <==> scripts[0].name == n || Named(scripts[1..], n)
    {
      NamedCons(scripts, n);
    }
    forall k | 1 <= k < |scripts|
      ensures Loads(w.running.Keys, scripts, k) <==> Loads(next.running.Keys, scripts[1..], k - 1)
    {
      NamedCons(scripts, scripts[k].name);
    }
    assert Loads(w.running.Keys, scripts, 0);
    assert forall k | 0 <= k < |scripts| - 1 :: Loads(next.running.Keys, scripts[1..], k) <==> Loads(w.running.Keys, scripts, k + 1);
    assert forall s :: s in scripts <==> s == scripts[0] || s in scripts[1..];
    if next != w {
      CreatedFirst(w.log, after.log, after.running.Keys - next.running.Keys, scripts[0].name);
      assert after.running.Keys - w.running.Keys == after.running.Keys - next.running.Keys + {scripts[0].name};
    }
  }

  /** scripts is none if they cannot be loaded. */
  function Refresh(w: World, scripts: Option<seq<Script>>): (World, Outcome) {
    match scripts
    case None => (w, Failed)
    case Some(all) => LoadAll(OnlyRunning(w), all)
  }

  function FindScript(scripts: seq<Script>, name: string): (found: Option<Script>)
    ensures found.Some? ==> found.value.name == name && found.value in scripts
    ensures found.None? ==> forall s | s in scripts :: s.name != name
  {
    if scripts == [] then None
    else if scripts[0].name == name then Some(scripts[0])
    else FindScript(scripts[1..], name)
  }

  /** The first script of the name builds. */
  predicate FirstBuilds(scripts: seq<Script>, name: string) {
    exists k | 0 <= k < |scripts| :: FirstAt(scripts, name, k) && scripts[k].builds
  }

  predicate FirstAt(scripts: seq<Script>, name: string, k: nat)
    requires k < |scripts|
  {
    scripts[k].name == name && forall j | 0 <= j < k :: scripts[j].name != name
  }

  lemma {:induction false} FoundFirst(scripts: seq<Script>, name: string)
    ensures FindScript(scripts, name).None? <==> !Named(scripts, name)
    ensures FirstBuilds(scripts, name) <==> FindScript(scripts, name).Some? && FindScript(scripts, name).value.builds
  {
    if scripts != [] {
      FoundFirst(scripts[1..], name);
      NamedCons(scripts, name);
      if scripts[0].name == name {
        assert FirstAt(scripts, name, 0);
      } else {
        assert forall j | 0 <= j < |scripts| - 1 :: scripts[1..][j] == scripts[j + 1];
        assert forall k | 0 <= k < |scripts| - 1 :: FirstAt(scripts[1..], name, k) ==> FirstAt(scripts, name, k + 1) by {
          forall k | 0 <= k < |scripts| - 1 && FirstAt(scripts[1..], name, k)
            ensures FirstAt(scripts, name, k + 1)
          {
            assert forall j | 1 <= j < k + 1 :: scripts[j] == scripts[1..][j - 1];
          }
        }
        assert forall k | 1 <= k < |scripts| :: FirstAt(scripts, name, k) ==> FirstAt(scripts[1..], name, k - 1);
      }
    }
  }

  function Replace(w: World, name: string, script: Option<Script>, env: StartEnv): (World, Outcome) {
    match script
    case None => (w, Missing)
    case Some(s) =>
      if !s.builds then (w, Failed)
      else Start(Set(w, name, false, Created(name)), name, env)
  }

  function Restart(w: World, name: string, scripts: Option<seq<Script>>, stop: StopEnv, start: StartEnv): (World, Outcome) {
    match scripts
    case None => (w, Failed)
    case Some(all) =>
      var (w1, stopped) := if IsRunning(w, name) then Halt(w, name, stop) else (w, Done);
      if stopped == Failed then (w1, Failed)
      else Replace(w1, name, FindScript(all, name), start)
  }

  // ---------- runs ----------

  datatype Action =
    | DoStart(name: string, start: StartEnv)
    | DoStop(name: string, stop: StopEnv)
    | DoRefresh(scripts: Option<seq<Script>>)
    | DoRestart(name: string, scripts: Option<seq<Script>>, stop: StopEnv, start: StartEnv)
    | Message(name: string, ok: bool)

  function Act(w: World, a: Action): World {
    match a
    case DoStart(name, start) => Start(w, name, start).0
    case DoStop(name, stop) => Stop(w, name, stop).0
    case DoRefresh(scripts) => Refresh(w, scripts).0
    case DoRestart(name, scripts, stop, start) => Restart(w, name, scripts, stop, start).0
    case Message(name, ok) => w.(log := w.log + [Handled(name, ok)])
  }

  function Run(actions: seq<Action>): World {
    if actions == [] then World(map[], [])
    else Act(Run(actions[..|actions| - 1]), actions[|actions| - 1])
  }

  /** The latest lifecycle event of every running name is its start. */
  ghost predicate RunningIsLive(w: World) {
    forall name | name in w.running && w.running[name] :: Live(w.log, name)
  }

  lemma SetKeepsLive(w: World, name: string, running: bool, e: Event)
    requires RunningIsLive(w) && e.name == name && !e.Handled? && (running ==> e.Started?)
    ensures RunningIsLive(Set(w, name, running, e))
  {
    forall other | other in w.running[name := running] && w.running[name := running][other]
      ensures Live(w.log + [e], other)
    {
      LiveSnoc(w.log, e, other);
    }
  }

  lemma {:induction false} LoadAllKeepsLive(w: World, scripts: seq<Script>)
    requires RunningIsLive(w)
    ensures RunningIsLive(LoadAll(w, scripts).0)
    decreases |scripts|
  {
    if scripts != [] {
      SetKeepsLive(w, scripts[0].name, false, Created(scripts[0].name));
      LoadAllKeepsLive(if scripts[0].name in w.running then w
                       else Set(w, scripts[0].name, false, Created(scripts[0].name)), scripts[1..]);
    }
  }

  lemma StartKeepsLive(w: World, name: string, env: StartEnv)
    requires RunningIsLive(w)
    ensures RunningIsLive(Start(w, name, env).0)
  {
    SetKeepsLive(w, name, true, Started(name));
  }

  lemma ActKeepsLive(w: World, a: Action)
    requires RunningIsLive(w)
    ensures RunningIsLive(Act(w, a))
  {
    match a
    case DoStart(name, start) => StartKeepsLive(w, name, start);
    case DoStop(name, stop) => SetKeepsLive(w, name, false, Stopped(name));
    case DoRefresh(scripts) =>
      if scripts.Some? {
        LoadAllKeepsLive(OnlyRunning(w), scripts.value);
      }
    case DoRestart(name, scripts, stop, start) =>
      SetKeepsLive(w, name, false, Stopped(name));
      SetKeepsLive(w, name, false, Created(name));
      var stopped := Set(w, name, false, Stopped(name));
      SetKeepsLive(stopped, name, false, Created(name));
      StartKeepsLive(Set(stopped, name, false, Created(name)), name, start);
      StartKeepsLive(Set(w, name, false, Created(name)), name, start);
    case Message(name, ok) =>
      forall other | other in w.running && w.running[other]
        ensures Live(w.log + [Handled(name, ok)], other)
      {
        LiveSnoc(w.log, Handled(name, ok), other);
      }
  }

  lemma {:induction false} RunKeepsLive(actions: seq<Action>)
    ensures RunningIsLive(Run(actions))
    decreases |actions|
  {
    if actions != [] {
      RunKeepsLive(actions[..|actions| - 1]);
      ActKeepsLive(Run(actions[..|actions| - 1]), actions[|actions| - 1]);
    }
  }

  /** After any run, the counter of a running simulator exists and shows exactly the
      messages handled since its latest start. */
  lemma CountersAreExact(actions: seq<Action>, name: string)
    requires IsRunning(Run(actions), name)
    ensures var log := Run(actions).log;
            && name in Replay(log)
            && Replay(log)[name] == Tally(Narrow(HandledSince(log, name, true)), Narrow(HandledSince(log, name, false)))
  {
    RunKeepsLive(actions);
    LiveTally(Run(actions).log, name);
  }

  /** Whether an action may start or stop the simulator of a name, or is a message to it. */
  predicate Concerns(a: Action, name: string) {
    !a.DoRefresh? && a.name == name
  }

  /** The simulator keeps running and its counts stay the same. */
  ghost predicate Untouched(w: World, after: World, name: string) {
    && (IsRunning(w, name) ==> IsRunning(after, name))
    && forall ok :: HandledSince(after.log, name, ok) == HandledSince(w.log, name, ok)
  }

  lemma SetLeaves(w: World, other: string, running: bool, e: Event, name: string)
    requires other != name && e.name == other
    ensures Untouched(w, Set(w, other, running, e), name)
  {
    hide HandledSince;
    LiveSnoc(w.log, e, name);
  }

  lemma StartLeaves(w: World, other: string, env: StartEnv, name: string)
    requires other != name
    ensures Untouched(w, Start(w, other, env).0, name)
  {
    SetLeaves(w, other, true, Started(other), name);
  }

  lemma ReplaceLeaves(w: World, other: string, script: Option<Script>, env: StartEnv, name: string)
    requires other != name
    ensures Untouched(w, Replace(w, other, script, env).0, name)
  {
    hide HandledSince;
    SetLeaves(w, other, false, Created(other), name);
    StartLeaves(Set(w, other, false, Created(other)), other, env, name);
  }

  lemma RestartLeaves(w: World, other: string, scripts: Option<seq<Script>>, stop: StopEnv, start: StartEnv, name: string)
    requires other != name
    ensures Untouched(w, Restart(w, other, scripts, stop, start).0, name)
  {
    hide HandledSince, Replace;
    if scripts.Some? {
      var script := FindScript(scripts.value, other);
      var stopped := Set(w, other, false, Stopped(other));
      SetLeaves(w, other, false, Stopped(other), name);
      ReplaceLeaves(w, other, script, start, name);
      ReplaceLeaves(stopped, other, script, start, name);
    }
  }

  lemma {:induction false} LoadAllLeaves(w: World, scripts: seq<Script>, name: string)
    requires IsRunning(w, name)
    ensures Untouched(w, LoadAll(w, scripts).0, name)
    decreases |scripts|
  {
    if scripts != [] {
      var other := scripts[0].name;
      if other in w.running {
        LoadAllLeaves(w, scripts[1..], name);
      } else {
        SetLeaves(w, other, false, Created(other), name);
        LoadAllLeaves(Set(w, other, false, Created(other)), scripts[1..], name);
      }
    }
  }

  /** Refreshing, and whatever is done to other names, neither stops a running simulator
      nor changes its counts. */
  lemma OthersUntouched(w: World, a: Action, name: string)
    requires IsRunning(w, name) && !Concerns(a, name)
    ensures Untouched(w, Act(w, a), name)
  {
    hide HandledSince, Restart, Start, LoadAll;
    match a
    case DoStart(other, start) => StartLeaves(w, other, start, name);
    case DoStop(other, stop) => SetLeaves(w, other, false, Stopped(other), name);
    case DoRefresh(scripts) =>
      if scripts.Some? {
        LoadAllLeaves(OnlyRunning(w), scripts.value, name);
      }
    case DoRestart(other, scripts, stop, start) => RestartLeaves(w, other, scripts, stop, start, name);
    case Message(other, ok) => LiveSnoc(w.log, Handled(other, ok), name);
  }
}
