/** Simulators and the repository that creates, starts, stops and replaces them. */
module Repository {
  import opened JavaInts
  import opened Outcomes
  import opened EventLog
  import opened LifecycleSpec
  import opened Monitoring

  /** The first n configured listeners, known by position. */
  function Configured(n: nat): set<int> {
    if n == 0 then {} else Configured(n - 1) + {n - 1}
  }

  class SimSimulator {
    const name: string
    const monitor: Monitor
    const hub: ListenerHub
    var running: bool
    var runningURL: Option<string>

    constructor (name: string, monitor: Monitor)
      ensures this.name == name && this.monitor == monitor && !running && runningURL == None
      ensures fresh(hub) && hub.fixedListenerSet == {} && hub.floatListenerSet == {}
    {
      this.name, this.monitor := name, monitor;
      var h := new ListenerHub();
      hub := h;
      running, runningURL := false, None;
    }

    /** The hub reports to the shared listeners. */
    ghost predicate Wired()
      reads hub, monitor.proxy
    {
      hub.fixedListenerSet == {monitor.proxy} && monitor.proxy.listeners == {monitor.counter}
    }

    /** The address is given out only while running. */
    function GetRunningURL(): (url: Option<string>)
      reads this
      ensures url.Some? ==> running
    {
      if running then runningURL else None
    }

    /** Creates the configured listeners in turn, until one cannot be created. */
    method AddListeners(listeners: seq<bool>) returns (ok: bool)
      modifies hub`floatListenerSet
      ensures ok <==> forall k | 0 <= k < |listeners| :: listeners[k]
      ensures ok ==> hub.floatListenerSet == old(hub.floatListenerSet) + Configured(|listeners|)
    {
      for i := 0 to |listeners|
        invariant forall k | 0 <= k < i :: listeners[k]
        invariant hub.floatListenerSet == old(hub.floatListenerSet) + Configured(i)
      {
        if !listeners[i] {
          return false;
        }
        hub.AddListener(i);
      }
      return true;
    }

    method Start(env: StartEnv) returns (ok: bool)
      requires Wired() && monitor.Valid()
      modifies this`running, this`runningURL, hub`floatListenerSet, hub`heard
      modifies monitor, monitor.counter, monitor.counter.counterMap.Values
      ensures monitor.Valid()
      ensures fresh(monitor.counter.counterMap.Values - old(monitor.counter.counterMap.Values))
      ensures ok == (old(running) || StartsWell(env)) && running == ok
      ensures !old(running) ==> (ok <==> env.starts && forall k | 0 <= k < |env.listeners| :: env.listeners[k])
      ensures monitor.log == if !old(running) && ok then old(monitor.log) + [Started(name)] else old(monitor.log)
      ensures hub.floatListenerSet == if old(running) then old(hub.floatListenerSet)
                                      else if ok then old(hub.floatListenerSet) + Configured(|env.listeners|)
                                      else {}
      ensures !old(running) && ok ==> GetRunningURL() == Some(env.url)
      ensures forall f :: hub.Heard(f) ==
                old(hub.Heard(f)) + if !old(running) && ok && f in hub.floatListenerSet then [Started(name)] else []
    {
      hide Monitor.Valid, Configured;
      if running {
        return true;
      }
      ok := AddListeners(env.listeners);
      if ok && env.starts {
        runningURL := Some(env.url);
        PostStart();
      } else {
        ok := false;
        hub.RemoveAllListeners();
      }
    }

    method PostStart()
      requires Wired() && monitor.Valid()
      modifies this`running, hub`heard, monitor, monitor.counter, monitor.counter.counterMap.Values
      ensures monitor.Valid() && running && monitor.log == old(monitor.log) + [Started(name)]
      ensures forall f :: hub.Heard(f) == old(hub.Heard(f)) + if f in hub.floatListenerSet then [Started(name)] else []
      ensures fresh(monitor.counter.counterMap.Values - old(monitor.counter.counterMap.Values))
    {
      running := true;
      monitor.Report(hub, Started(name));
    }

    /** Stops; if closing the beans raises an exception nothing after it happens. */
    method Stop(env: StopEnv) returns (thrown: bool)
      requires Wired() && monitor.Valid()
      modifies this`running, this`runningURL, hub`floatListenerSet, hub`heard
      modifies monitor, monitor.counter, monitor.counter.counterMap.Values
      ensures monitor.Valid()
      ensures fresh(monitor.counter.counterMap.Values - old(monitor.counter.counterMap.Values))
      ensures running == (old(running) && env.beansThrow)
      ensures thrown == (old(running) && (env.beansThrow || env.doStopThrows))
      ensures monitor.log == if old(running) && !env.beansThrow then old(monitor.log) + [Stopped(name)] else old(monitor.log)
      ensures old(running) && !running ==> hub.floatListenerSet == {} && runningURL == None
      ensures forall f :: hub.Heard(f) ==
                old(hub.Heard(f)) + if old(running) && !running && f in old(hub.floatListenerSet) then [Stopped(name)] else []
    {
      hide Monitor.Valid;
      if !running {
        return false;
      }
      if env.beansThrow {
        return true;
      }
      monitor.Report(hub, Stopped(name));
      hub.RemoveAllListeners();
      running := false;
      runningURL := None;
      thrown := env.doStopThrows;
    }

    method HandleMessage(ok: bool)
      requires Wired() && monitor.Valid()
      modifies hub`heard, monitor, monitor.counter, monitor.counter.counterMap.Values
      ensures forall f :: hub.Heard(f) == old(hub.Heard(f)) + if f in hub.floatListenerSet then [Handled(name, ok)] else []
      ensures monitor.Valid() && monitor.log == old(monitor.log) + [Handled(name, ok)]
      ensures fresh(monitor.counter.counterMap.Values - old(monitor.counter.counterMap.Values))
    {
      monitor.Report(hub, Handled(name, ok));
    }
  }

  class SimulatorRepository {
    var simulatorMap: map<string, SimSimulator>
    const monitor: Monitor
    ghost var created: set<SimSimulator>

    ghost function Hubs(): set<ListenerHub>
      reads this`created
    {
      set s | s in created :: s.hub
    }

    /** Every simulator ever created reports to the shared listeners. */
    ghost predicate AllWired()
      reads this`created, Hubs(), monitor.proxy
    {
      && (forall s | s in created :: s.monitor == monitor)
      && (forall s | s in created :: s.Wired())
    }

    /** The map holds created simulators, each under its own name. */
    ghost predicate MapOk()
      reads this`created, this`simulatorMap
    {
      forall n | n in simulatorMap :: simulatorMap[n] in created && simulatorMap[n].name == n
    }

    /** A simulator that runs is the one registered under its name. */
    ghost predicate NoOrphans()
      reads this`created, this`simulatorMap, created
    {
      forall s | s in created && s.running :: s.name in simulatorMap && simulatorMap[s.name] == s
    }

    ghost predicate Valid()
      reads this, monitor, monitor.proxy, monitor.counter, monitor.counter.counterMap.Values, created, Hubs()
    {
      monitor.Valid() && AllWired() && MapOk() && NoOrphans()
    }

    ghost function Running(): map<string, bool>
      reads this`simulatorMap, simulatorMap.Values
    {
      map n | n in simulatorMap :: simulatorMap[n].running
    }

    ghost function World(): World
      reads this`simulatorMap, simulatorMap.Values, monitor
    {
      LifecycleSpec.World(Running(), monitor.log)
    }

    constructor ()
      ensures Valid() && simulatorMap == map[] && created == {} && World() == LifecycleSpec.World(map[], [])
      ensures fresh(monitor) && fresh(monitor.proxy) && fresh(monitor.counter)
      ensures monitor.counter.counterMap == map[]
    {
      var m := new Monitor();
      monitor := m;
      simulatorMap := map[];
      created := {};
    }

    lemma WiredAt(name: string)
      requires AllWired() && MapOk() && name in simulatorMap
      ensures var sim := simulatorMap[name];
              sim in created && sim.hub in Hubs() && sim.monitor == monitor && sim.name == name && sim.Wired()
    {
    }

    /** Changing whether one registered simulator runs keeps the invariants. */
    twostate lemma OneChanged(name: string)
      requires old(AllWired() && MapOk() && NoOrphans())
      requires created == old(created) && simulatorMap == old(simulatorMap) && name in simulatorMap
      requires forall s | s in created && s != simulatorMap[name] :: s.running == old(s.running)
      requires forall s | s in created :: s.hub.fixedListenerSet == old(s.hub.fixedListenerSet)
      requires monitor.proxy.listeners == old(monitor.proxy.listeners)
      ensures AllWired() && MapOk() && NoOrphans()
      ensures Running() == old(Running())[name := simulatorMap[name].running]
      ensures simulatorMap[name].running == old(simulatorMap[name].running) ==> Running() == old(Running())
    {
    }

    /** Starts the registered simulator of a name, which is not running. */
    method StartOne(name: string, env: StartEnv) returns (ok: bool)
      requires Valid() && name in simulatorMap && !simulatorMap[name].running
      modifies created, Hubs(), monitor, monitor.counter, monitor.counter.counterMap.Values
      ensures Valid()
      ensures fresh(monitor.counter.counterMap.Values - old(monitor.counter.counterMap.Values))
      ensures ok == StartsWell(env)
      ensures World() == if ok then old(LifecycleSpec.Set(World(), name, true, Started(name))) else old(World())
      ensures simulatorMap == old(simulatorMap) && created == old(created)
      ensures simulatorMap[name].running == ok && OthersStay(name)
      ensures monitor.log == old(monitor.log) + if ok then [Started(name)] else []
    {
      hide Monitor.Valid, StartsWell, AllWired, NoOrphans, Running;
      WiredAt(name);
      ok := simulatorMap[name].Start(env);
      OneChanged(name);
    }

    /** Stops the registered simulator of a name, which is running. */
    method StopOne(name: string, env: StopEnv) returns (thrown: bool)
      requires Valid() && name in simulatorMap && simulatorMap[name].running
      modifies created, Hubs(), monitor, monitor.counter, monitor.counter.counterMap.Values
      ensures Valid()
      ensures fresh(monitor.counter.counterMap.Values - old(monitor.counter.counterMap.Values))
      ensures (World(), if thrown then Failed else Done) == old(LifecycleSpec.Halt(World(), name, env))
      ensures !thrown ==> !simulatorMap[name].running
      ensures simulatorMap == old(simulatorMap) && created == old(created)
    {
      hide Monitor.Valid, Halt;
      thrown := HaltOne(name, env);
      HaltUnfold(old(World()), name, env);
    }

    method HaltOne(name: string, env: StopEnv) returns (thrown: bool)
      requires Valid() && name in simulatorMap && simulatorMap[name].running
      modifies created, Hubs(), monitor, monitor.counter, monitor.counter.counterMap.Values
      ensures Valid()
      ensures fresh(monitor.counter.counterMap.Values - old(monitor.counter.counterMap.Values))
      ensures thrown == (env.beansThrow || env.doStopThrows)
      ensures !thrown ==> !simulatorMap[name].running
      ensures World() == if env.beansThrow then old(World())
                         else old(LifecycleSpec.Set(World(), name, false, Stopped(name)))
      ensures simulatorMap == old(simulatorMap) && created == old(created)
    {
      hide Monitor.Valid, AllWired, MapOk, NoOrphans, Running;
      WiredAt(name);
      thrown := simulatorMap[name].Stop(env);
      OneChanged(name);
    }

    static lemma HaltUnfold(w: World, name: string, env: StopEnv)
      ensures LifecycleSpec.Halt(w, name, env) ==
              (if env.beansThrow then w else LifecycleSpec.Set(w, name, false, Stopped(name)),
               if env.beansThrow || env.doStopThrows then Failed else Done)
    {
    }

    lemma RunningKeys()
      ensures Running().Keys == simulatorMap.Keys
      ensures forall n | n in simulatorMap :: Running()[n] == simulatorMap[n].running
    {
    }

    /** The simulators of other names are the same objects and run as before. */
    twostate predicate OthersStay(name: string)
      reads this`simulatorMap, simulatorMap.Values
    {
      forall n | n in old(simulatorMap) && n != name ::
        n in simulatorMap && simulatorMap[n] == old(simulatorMap[n]) && simulatorMap[n].running == old(simulatorMap[n].running)
    }

    method StartSimulator(name: string, env: StartEnv) returns (r: Outcome)
      requires Valid()
      modifies created, Hubs(), monitor, monitor.counter, monitor.counter.counterMap.Values
      ensures Valid()
      ensures fresh(monitor.counter.counterMap.Values - old(monitor.counter.counterMap.Values))
      ensures (World(), r) == old(LifecycleSpec.Start(World(), name, env))
      ensures simulatorMap == old(simulatorMap) && created == old(created)
      ensures r == Missing <==> name !in simulatorMap
      ensures r == Done <==> name in simulatorMap && (old(simulatorMap[name].running) || StartsWell(env))
      ensures name in simulatorMap ==> (simulatorMap[name].running <==> r == Done)
      ensures OthersStay(name)
      ensures monitor.log == old(monitor.log) + if r == Done && !old(simulatorMap[name].running) then [Started(name)] else []
    {
      hide Valid, Running;
      RunningKeys();
      if name !in simulatorMap {
        return Missing;
      }
      r := Done;
      if !simulatorMap[name].running {
        var ok := StartOne(name, env);
        RunningKeys();
        if !ok {
          r := Failed;
        }
      }
    }

    method StopSimulator(name: string, env: StopEnv) returns (r: Outcome)
      requires Valid()
      modifies created, Hubs(), monitor, monitor.counter, monitor.counter.counterMap.Values
      ensures Valid()
      ensures fresh(monitor.counter.counterMap.Values - old(monitor.counter.counterMap.Values))
      ensures (World(), r) == old(LifecycleSpec.Stop(World(), name, env))
      ensures simulatorMap == old(simulatorMap) && created == old(created)
      ensures r == Missing <==> name !in simulatorMap
      ensures r == Done <==>
              name in simulatorMap && (old(simulatorMap[name].running) ==> !env.beansThrow && !env.doStopThrows)
      ensures name in simulatorMap ==> (simulatorMap[name].running <==> old(simulatorMap[name].running) && env.beansThrow)
      ensures OthersStay(name)
      ensures monitor.log == old(monitor.log) + if name in simulatorMap && old(simulatorMap[name].running) && !env.beansThrow
                                                then [Stopped(name)] else []
    {
      hide Valid, Running, Halt;
      RunningKeys();
      if name !in simulatorMap {
        return Missing;
      }
      r := Done;
      HaltUnfold(World(), name, env);
      if simulatorMap[name].running {
        var thrown := StopOne(name, env);
        RunningKeys();
        if thrown {
          r := Failed;
        }
      }
    }

    /** A message reaches a simulator of the given name, running or not. */
    method HandleMessage(sim: SimSimulator, ok: bool)
      requires Valid() && sim in created
      modifies Hubs(), monitor, monitor.counter, monitor.counter.counterMap.Values
      ensures Valid()
      ensures fresh(monitor.counter.counterMap.Values - old(monitor.counter.counterMap.Values))
      ensures World() == old(Act(World(), Message(sim.name, ok)))
      ensures simulatorMap == old(simulatorMap) && created == old(created)
      ensures monitor.log == old(monitor.log) + [Handled(sim.name, ok)]
    {
      hide Monitor.Valid, NoOrphans, MapOk, Running;
      sim.HandleMessage(ok);
      assert Running() == old(Running());
    }

    /** Builds a simulator from a script: none if that fails. */
    method CreateSimulator(script: Script) returns (sim: SimSimulator?)
      requires Valid()
      modifies this`created, monitor, monitor.proxy, monitor.counter
      ensures Valid() && simulatorMap == old(simulatorMap) && Running() == old(Running())
      ensures fresh(monitor.counter.counterMap.Values - old(monitor.counter.counterMap.Values))
      ensures sim == null <==> !script.builds
      ensures sim == null ==> created == old(created) && monitor.log == old(monitor.log)
      ensures sim != null ==>
                && fresh(sim) && fresh(sim.hub) && created == old(created) + {sim}
                && sim.name == script.name && !sim.running
                && monitor.log == old(monitor.log) + [Created(script.name)]
    {
      hide Monitor.Valid, MapOk, NoOrphans, Running;
      if !script.builds {
        return null;
      }
      sim := new SimSimulator(script.name, monitor);
      sim.hub.AddFixedListener(monitor.proxy);
      monitor.ReportCreated(script.name);
      Enroll(sim);
    }

    ghost method Enroll(sim: SimSimulator)
      requires monitor.Valid() && AllWired() && MapOk() && NoOrphans()
      requires sim.monitor == monitor && sim.Wired() && !sim.running
      modifies this`created
      ensures Valid() && created == old(created) + {sim}
    {
      hide Monitor.Valid;
      created := created + {sim};
    }

    /** Creates a simulator and registers it under its name, which no running simulator holds. */
    method Install(script: Script) returns (sim: SimSimulator?)
      requires Valid()
      requires script.name in simulatorMap ==> !simulatorMap[script.name].running
      modifies this, monitor, monitor.proxy, monitor.counter
      ensures Valid()
      ensures fresh(monitor.counter.counterMap.Values - old(monitor.counter.counterMap.Values))
      ensures fresh(created - old(created)) && fresh(Hubs() - old(Hubs()))
      ensures sim == null <==> !script.builds
      ensures sim == null ==>
                World() == old(World()) && simulatorMap == old(simulatorMap) && monitor.log == old(monitor.log)
      ensures sim != null ==>
                && simulatorMap == old(simulatorMap)[script.name := sim] && sim.name == script.name
                && fresh(sim) && !sim.running && monitor.log == old(monitor.log) + [Created(script.name)]
                && World() == old(LifecycleSpec.Set(World(), script.name, false, Created(script.name)))
    {
      hide Valid, Running;
      sim := CreateSimulator(script);
      if sim != null {
        assert Hubs() == old(Hubs()) + {sim.hub};
        Register(sim);
      }
    }

    method Register(sim: SimSimulator)
      requires Valid() && sim in created && !sim.running
      requires sim.name in simulatorMap ==> !simulatorMap[sim.name].running
      modifies this`simulatorMap
      ensures Valid() && simulatorMap == old(simulatorMap)[sim.name := sim]
      ensures Running() == old(Running())[sim.name := false]
    {
      hide Monitor.Valid;
      simulatorMap := simulatorMap[sim.name := sim];
    }

    /** Removes the simulators that do not run. */
    method RemoveStopped()
      requires Valid()
      modifies this`simulatorMap
      ensures Valid() && World() == old(OnlyRunning(World()))
      ensures forall n :: n in simulatorMap <==> n in old(simulatorMap) && old(simulatorMap[n].running)
      ensures forall n | n in simulatorMap :: simulatorMap[n] == old(simulatorMap[n])
    {
      hide Monitor.Valid;
      var todo := simulatorMap.Keys;
      while todo != {}
        invariant todo <= simulatorMap.Keys
        invariant forall n :: n in simulatorMap <==>
                    n in old(simulatorMap) && (n in todo || old(simulatorMap[n].running))
        invariant forall n | n in simulatorMap :: simulatorMap[n] == old(simulatorMap[n])
        decreases todo
      {
        var n :| n in todo;
        if !simulatorMap[n].running {
          simulatorMap := simulatorMap - {n};
        }
        todo := todo - {n};
      }
      assert Running() == old(OnlyRunning(World()).running);
    }

    ghost function RunningNames(): set<string>
      reads this`simulatorMap, simulatorMap.Values
    {
      set n | n in simulatorMap && simulatorMap[n].running
    }

    /** Reloads the scripts: stopped simulators go, and missing names are created again. */
    method Refresh(scripts: Option<seq<Script>>) returns (r: Outcome)
      requires Valid()
      modifies this, monitor, monitor.proxy, monitor.counter
      ensures Valid()
      ensures fresh(monitor.counter.counterMap.Values - old(monitor.counter.counterMap.Values))
      ensures fresh(created - old(created)) && fresh(Hubs() - old(Hubs()))
      ensures (World(), r) == old(LifecycleSpec.Refresh(World(), scripts))
      ensures forall n | n in old(simulatorMap) && old(simulatorMap[n].running) ::
                n in simulatorMap && simulatorMap[n] == old(simulatorMap[n]) && simulatorMap[n].running
      ensures scripts.None? ==> r == Failed && simulatorMap == old(simulatorMap) && monitor.log == old(monitor.log)
      ensures scripts.Some? ==>
                && (forall n | n in simulatorMap && n !in old(RunningNames()) ::
                      fresh(simulatorMap[n]) && !simulatorMap[n].running && Named(scripts.value, n))
                && (r == Done ==> forall s | s in scripts.value :: s.name in simulatorMap)
                && (r == Done <==> AllLoad(old(RunningNames()), scripts.value))
                && CreatedSince(old(monitor.log), monitor.log, simulatorMap.Keys - old(RunningNames()))
    {
      hide Valid, Running, CreatedSince, LoadAll, Named, AllLoad;
      if scripts.None? {
        return Failed;
      }
      RemoveStopped();
      ghost var kept := World();
      RunningKeys();
      r := LoadMissing(scripts.value);
      RunningKeys();
      LoadAllLaw(kept, scripts.value);
      assert kept.running.Keys == old(RunningNames());
    }

    /** Creates a simulator for each script whose name is not taken, until one cannot be built. */
    method LoadMissing(scripts: seq<Script>) returns (r: Outcome)
      requires Valid()
      modifies this, monitor, monitor.proxy, monitor.counter
      ensures Valid()
      ensures fresh(monitor.counter.counterMap.Values - old(monitor.counter.counterMap.Values))
      ensures fresh(created - old(created)) && fresh(Hubs() - old(Hubs()))
      ensures (World(), r) == old(LoadAll(World(), scripts))
      ensures forall n | n in old(simulatorMap) :: n in simulatorMap && simulatorMap[n] == old(simulatorMap[n])
      ensures forall n | n in simulatorMap && n !in old(simulatorMap) :: fresh(simulatorMap[n])
    {
      hide Valid, Running;
      var i := 0;
      assert scripts[0..] == scripts;
      while i < |scripts|
        invariant 0 <= i <= |scripts|
        invariant Valid()
        invariant fresh(monitor.counter.counterMap.Values - old(monitor.counter.counterMap.Values))
        invariant fresh(created - old(created)) && fresh(Hubs() - old(Hubs()))
        invariant LoadAll(World(), scripts[i..]) == old(LoadAll(World(), scripts))
        invariant forall n | n in old(simulatorMap) :: n in simulatorMap && simulatorMap[n] == old(simulatorMap[n])
        invariant forall n | n in simulatorMap && n !in old(simulatorMap) :: fresh(simulatorMap[n])
      {
        var script := scripts[i];
        assert scripts[i..][1..] == scripts[i + 1..];
        RunningKeys();
        if script.name !in simulatorMap {
          var sim := Install(script);
          if sim == null {
            return Failed;
          }
        }
        i := i + 1;
      }
      return Done;
    }

    /** Stops the simulator of a name if it runs, and replaces it by a new one from the scripts. */
    method RestartSimulator(name: string, scripts: Option<seq<Script>>, stop: StopEnv, start: StartEnv) returns (r: Outcome)
      requires Valid()
      modifies this, created, Hubs(), monitor, monitor.proxy, monitor.counter, monitor.counter.counterMap.Values
      ensures Valid()
      ensures fresh(monitor.counter.counterMap.Values - old(monitor.counter.counterMap.Values))
      ensures fresh(created - old(created)) && fresh(Hubs() - old(Hubs()))
      ensures (World(), r) == old(LifecycleSpec.Restart(World(), name, scripts, stop, start))
      ensures OthersStay(name)
      ensures r == Missing <==> scripts.Some? && old(Halts(name, stop)) && !Named(scripts.value, name)
      ensures r == Done <==> scripts.Some? && old(Halts(name, stop)) && FirstBuilds(scripts.value, name) && StartsWell(start)
      ensures r == Done <==> name in simulatorMap && fresh(simulatorMap[name]) && simulatorMap[name].running
      ensures monitor.log == old(monitor.log)
                             + (if scripts.Some? && old(Runs(name)) && !stop.beansThrow then [Stopped(name)] else [])
                             + (if scripts.Some? && old(Halts(name, stop)) && FirstBuilds(scripts.value, name)
                                then [Created(name)] else [])
                             + (if r == Done then [Started(name)] else [])
    {
      hide Valid, Running, Halt, FindScript, FirstBuilds, Named, Replace;
      if scripts.None? {
        return Failed;
      }
      var thrown := StopIfRunning(name, stop);
      if thrown {
        return Failed;
      }
      FoundFirst(scripts.value, name);
      r := ReplaceBy(name, FindScript(scripts.value, name), start);
    }

    ghost predicate Runs(name: string)
      reads this`simulatorMap, simulatorMap.Values
    {
      name in simulatorMap && simulatorMap[name].running
    }

    /** Stopping the simulator of the name, if it runs, goes through. */
    ghost predicate Halts(name: string, stop: StopEnv)
      reads this`simulatorMap, simulatorMap.Values
    {
      Runs(name) ==> !stop.beansThrow && !stop.doStopThrows
    }

    method StopIfRunning(name: string, env: StopEnv) returns (thrown: bool)
      requires Valid()
      modifies created, Hubs(), monitor, monitor.counter, monitor.counter.counterMap.Values
      ensures Valid()
      ensures fresh(monitor.counter.counterMap.Values - old(monitor.counter.counterMap.Values))
      ensures (World(), if thrown then Failed else Done) ==
              old(if IsRunning(World(), name) then LifecycleSpec.Halt(World(), name, env) else (World(), Done))
      ensures !thrown && name in simulatorMap ==> !simulatorMap[name].running
      ensures simulatorMap == old(simulatorMap) && created == old(created)
      ensures thrown <==> !old(Halts(name, env))
      ensures OthersStay(name)
      ensures monitor.log == old(monitor.log) + if old(Runs(name)) && !env.beansThrow then [Stopped(name)] else []
    {
      hide Valid, Running, Halt;
      RunningKeys();
      HaltUnfold(World(), name, env);
      thrown := false;
      if name in simulatorMap && simulatorMap[name].running {
        thrown := StopOne(name, env);
        RunningKeys();
      }
    }

    static lemma ReplaceUnfold(w: World, name: string, script: Option<Script>, env: StartEnv)
      ensures LifecycleSpec.Replace(w, name, script, env) ==
              if script.None? then (w, Missing)
              else if !script.value.builds then (w, Failed)
              else
                var made := LifecycleSpec.Set(w, name, false, Created(name));
                if StartsWell(env) then (LifecycleSpec.Set(made, name, true, Started(name)), Done) else (made, Failed)
    {
    }

    method ReplaceBy(name: string, script: Option<Script>, start: StartEnv) returns (r: Outcome)
      requires Valid() && (name in simulatorMap ==> !simulatorMap[name].running)
      requires script.Some? ==> script.value.name == name
      modifies this, created, Hubs(), monitor, monitor.proxy, monitor.counter, monitor.counter.counterMap.Values
      ensures Valid()
      ensures fresh(monitor.counter.counterMap.Values - old(monitor.counter.counterMap.Values))
      ensures fresh(created - old(created)) && fresh(Hubs() - old(Hubs()))
      ensures (World(), r) == old(LifecycleSpec.Replace(World(), name, script, start))
      ensures OthersStay(name)
      ensures r == Missing <==> script.None?
      ensures r == Done <==> script.Some? && script.value.builds && StartsWell(start)
      ensures name in simulatorMap ==> (simulatorMap[name].running <==> r == Done)
      ensures r == Done ==> name in simulatorMap && fresh(simulatorMap[name])
      ensures monitor.log == old(monitor.log) + (if script.Some? && script.value.builds then [Created(name)] else [])
                                              + (if r == Done then [Started(name)] else [])
    {
      hide Valid, Running, World, StartsWell, LifecycleSpec.Replace, LifecycleSpec.Set;
      ReplaceUnfold(World(), name, script, start);
      if script.None? {
        return Missing;
      }
      var sim := Install(script.value);
      if sim == null {
        return Failed;
      }
      var ok := StartOne(name, start);
      r := if ok then Done else Failed;
    }

    /** One action of a run; a message goes to the simulator registered under the name. */
    method Perform(a: Action)
      requires Valid() && (a.Message? ==> a.name in simulatorMap)
      modifies this, created, Hubs(), monitor, monitor.proxy, monitor.counter, monitor.counter.counterMap.Values
      ensures Valid()
      ensures fresh(monitor.counter.counterMap.Values - old(monitor.counter.counterMap.Values))
      ensures fresh(created - old(created)) && fresh(Hubs() - old(Hubs()))
      ensures World() == old(Act(World(), a))
    {
      match a {
        case DoStart(name, start) => var r := StartSimulator(name, start);
        case DoStop(name, stop) => var r := StopSimulator(name, stop);
        case DoRefresh(scripts) => var r := Refresh(scripts);
        case DoRestart(name, scripts, stop, start) => var r := RestartSimulator(name, scripts, stop, start);
        case Message(name, ok) => HandleMessage(simulatorMap[name], ok);
      }
    }

    /** In every valid state a name has at most one running simulator, the registered one. */
    lemma OneRunningPerName(s: SimSimulator, t: SimSimulator)
      requires Valid() && s in created && t in created && s.running && t.running && s.name == t.name
      ensures s == t && s.name in simulatorMap && simulatorMap[s.name] == s
    {
    }

    /** In every valid state whose events are those of a run, the counter of a running
        simulator exists and shows the messages handled since its latest start. */
    lemma CounterOfRunning(s: SimSimulator, actions: seq<Action>)
      requires Valid() && s in created && s.running && World() == LifecycleSpec.Run(actions)
      ensures var counters, log := monitor.counter.counterMap, monitor.log;
              && s.name in counters
              && counters[s.name].successfulMessages == Narrow(HandledSince(log, s.name, true))
              && counters[s.name].failedMessages == Narrow(HandledSince(log, s.name, false))
    {
      RunningKeys();
      assert simulatorMap[s.name] == s;
      CountersAreExact(actions, s.name);
    }
  }

  /** Messages of a run go to names that are registered at the time. */
  predicate Deliverable(actions: seq<Action>) {
    forall k | 0 <= k < |actions| ::
      actions[k].Message? ==> actions[k].name in LifecycleSpec.Run(actions[..k]).running
  }

  lemma RunNext(actions: seq<Action>, k: nat)
    requires k < |actions|
    ensures LifecycleSpec.Run(actions[..k + 1]) == Act(LifecycleSpec.Run(actions[..k]), actions[k])
  {
    assert actions[..k + 1][..k] == actions[..k];
  }

  /** Any run of actions, performed by a new repository: it ends valid, in the state of the run. */
  method Replay(actions: seq<Action>) returns (repository: SimulatorRepository)
    requires Deliverable(actions)
    ensures repository.Valid() && repository.World() == LifecycleSpec.Run(actions)
  {
    hide Act, LifecycleSpec.Run, SimulatorRepository.Valid, SimulatorRepository.Running;
    repository := new SimulatorRepository();
    assert LifecycleSpec.Run(actions[..0]) == LifecycleSpec.World(map[], []) by {
      NothingDone(actions);
    }
    for i := 0 to |actions|
      invariant fresh(repository) && fresh(repository.monitor) && fresh(repository.monitor.proxy)
      invariant fresh(repository.monitor.counter) && fresh(repository.monitor.counter.counterMap.Values)
      invariant fresh(repository.created) && fresh(repository.Hubs())
      invariant repository.Valid() && repository.World() == LifecycleSpec.Run(actions[..i])
    {
      repository.RunningKeys();
      RunNext(actions, i);
      repository.Perform(actions[i]);
    }
    assert actions[..|actions|] == actions;
  }

  lemma NothingDone(actions: seq<Action>)
    ensures LifecycleSpec.Run(actions[..0]) == LifecycleSpec.World(map[], [])
  {
  }
}
