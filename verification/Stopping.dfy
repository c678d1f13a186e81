/** Stopping a simulator together with the beans it owns. */
module Stopping {
  import opened BeanHistory
  import opened BeanRepositories
  import opened LifecycleSpec
  import opened Outcomes
  import opened Repository

  /** Closing one of the simulator's beans raises an exception. */
  ghost predicate ClosingThrows(h: seq<Event>, sim: string, throws: set<Bean>) {
    exists b :: b in throws && b.listens && HasCurrent(h, sim, b)
  }

  /** Stopping closes the simulator's beans.  It goes through exactly if none of its listening
      beans throws; otherwise the simulator keeps running, yet its beans are gone. */
  method StopAndClose(sim: SimSimulator, beans: BeanRepository, doStopThrows: bool, throws: set<Bean>) returns (thrown: bool)
    requires sim.Wired() && sim.monitor.Valid() && beans.Valid()
    modifies sim`running, sim`runningURL, sim.hub`floatListenerSet, sim.hub`heard, beans
    modifies sim.monitor, sim.monitor.counter, sim.monitor.counter.counterMap.Values
    ensures sim.monitor.Valid() && beans.Valid()
    ensures sim.running == (old(sim.running) && ClosingThrows(old(beans.history), sim.name, throws))
    ensures thrown == (old(sim.running) && (doStopThrows || ClosingThrows(old(beans.history), sim.name, throws)))
    ensures old(sim.running) ==> forall cls :: Current(beans.history, sim.name, cls) == None
    ensures !old(sim.running) ==> beans.history == old(beans.history)
  {
    hide Current;
    if !sim.running {
      return false;
    }
    ghost var before := beans.history;
    var closed, beansThrow := beans.RemoveSimulatorBeans(sim.name, throws);
    forall cls
      ensures Current(beans.history, sim.name, cls) == None
    {
      GoneAfterClosings(before, sim.name, closed, throws, cls);
    }
    thrown := sim.Stop(StopEnv(doStopThrows, beansThrow));
  }

  lemma GoneAfterClosings(h: seq<Event>, sim: string, beans: seq<Bean>, throws: set<Bean>, cls: string)
    ensures Current(h + [Removed(sim)] + Closings(sim, beans, throws), sim, cls) == None
  {
    assert (h + [Removed(sim)])[..|h|] == h;
    ClosingsKeepCurrent(h + [Removed(sim)], sim, beans, throws, cls);
  }

  lemma {:induction false} ClosingsKeepCurrent(h: seq<Event>, sim: string, beans: seq<Bean>, throws: set<Bean>, cls: string)
    ensures Current(h + Closings(sim, beans, throws), sim, cls) == Current(h, sim, cls)
    decreases |beans|
  {
    var events := Closings(sim, beans, throws);
    if events == [] {
      assert h + events == h;
    } else if beans[0].listens {
      var e := Closed(sim, beans[0]);
      assert (h + [e])[..|h|] == h;
      if beans[0] in throws {
        assert events == [e];
      } else {
        assert h + events == (h + [e]) + Closings(sim, beans[1..], throws);
        ClosingsKeepCurrent(h + [e], sim, beans[1..], throws, cls);
      }
    } else {
      ClosingsKeepCurrent(h, sim, beans[1..], throws, cls);
    }
  }
}
