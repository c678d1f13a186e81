/** The shared listeners every simulator reports to, and the path an event takes to them. */
module Monitoring {
  import opened JavaInts
  import opened EventLog

  class Counter {
    const name: string
    var successfulMessages: int
    var failedMessages: int

    constructor (name: string)
      ensures this.name == name && successfulMessages == 0 && failedMessages == 0
    {
      this.name := name;
      successfulMessages, failedMessages := 0, 0;
    }

    method AddSuccessfulMessage()
      modifies this
      ensures successfulMessages == Increment(old(successfulMessages)) && failedMessages == old(failedMessages)
    {
      successfulMessages := Increment(successfulMessages);
    }

    method AddFailedMessage()
      modifies this
      ensures failedMessages == Increment(old(failedMessages)) && successfulMessages == old(successfulMessages)
    {
      failedMessages := Increment(failedMessages);
    }
  }

  class MessageCounter {
    var counterMap: map<string, Counter>

    ghost predicate Valid()
      reads this
    {
      forall n | n in counterMap :: counterMap[n].name == n
    }

    /** What the counters show. */
    ghost function Tallies(): Tallies
      reads this, counterMap.Values
    {
      map n | n in counterMap :: Tally(counterMap[n].successfulMessages, counterMap[n].failedMessages)
    }

    constructor ()
      ensures Valid() && counterMap == map[] && Tallies() == map[]
    {
      counterMap := map[];
    }

    method Reset(name: string)
      requires Valid()
      modifies this
      ensures Valid() && fresh(counterMap.Values - old(counterMap.Values))
      ensures Tallies() == old(Tallies())[name := Tally(0, 0)]
    {
      var counter := new Counter(name);
      counterMap := counterMap[name := counter];
    }

    method OnStop(name: string)
      requires Valid()
      modifies this
      ensures Valid() && counterMap.Values <= old(counterMap.Values)
      ensures Tallies() == old(Tallies()) - {name}
    {
      counterMap := counterMap - {name};
    }

    method OnHandleMessage(name: string, status: bool)
      requires Valid()
      modifies counterMap.Values
      ensures Valid() && Tallies() == Apply(old(Tallies()), Handled(name, status))
    {
      if name in counterMap {
        if status {
          counterMap[name].AddSuccessfulMessage();
        } else {
          counterMap[name].AddFailedMessage();
        }
      }
    }

    /** The listener methods, one for each kind of event. */
    method On(e: Event)
      requires Valid()
      modifies this, counterMap.Values
      ensures Valid() && fresh(counterMap.Values - old(counterMap.Values))
      ensures Tallies() == Apply(old(Tallies()), e)
    {
      match e {
        case Created(name) => Reset(name);
        case Started(name) => Reset(name);
        case Stopped(name) => OnStop(name);
        case Handled(name, ok) => OnHandleMessage(name, ok);
      }
    }
  }

  /** No two listeners share a counter. */
  ghost predicate Apart(listeners: set<MessageCounter>)
    reads listeners
  {
    forall a, b | a in listeners && b in listeners && a != b :: a.counterMap.Values !! b.counterMap.Values
  }

  ghost function CountersOf(listeners: set<MessageCounter>): set<Counter>
    reads listeners
  {
    set l, c | l in listeners && c in l.counterMap.Values :: c
  }

  ghost predicate AllValid(listeners: set<MessageCounter>)
    reads listeners
  {
    forall l | l in listeners :: l.Valid()
  }

  /** Exactly the told ones among the listeners have counted the event, and kept apart. */
  twostate predicate Counted(all: set<MessageCounter>, told: set<MessageCounter>, e: Event)
    reads all, CountersOf(all)
  {
    && AllValid(all) && Apart(all)
    && forall l | l in all :: CountedBy(l, l in told, e)
  }

  twostate predicate CountedBy(l: MessageCounter, told: bool, e: Event)
    reads l, l.counterMap.Values
  {
    && l.Tallies() == (if told then Apply(old(l.Tallies()), e) else old(l.Tallies()))
    && fresh(l.counterMap.Values - old(l.counterMap.Values))
    && (!told ==> l.counterMap == old(l.counterMap))
  }

  /** Tells one listener; the others do not notice. */
  method Tell(listener: MessageCounter, e: Event, ghost all: set<MessageCounter>)
    requires listener in all && AllValid(all) && Apart(all)
    modifies listener, listener.counterMap.Values
    ensures Counted(all, {listener}, e)
  {
    hide Apply, MessageCounter.Tallies, MessageCounter.Valid;
    listener.On(e);
  }

  ghost function ListenersOf(proxies: set<ListenerProxy>): set<MessageCounter>
    reads proxies
  {
    set p, l | p in proxies && l in p.listeners :: l
  }

  /** No listener stands behind two proxies. */
  ghost predicate Separate(proxies: set<ListenerProxy>)
    reads proxies
  {
    forall p, q | p in proxies && q in proxies && p != q :: p.listeners !! q.listeners
  }

  lemma NoProxies()
    ensures ListenersOf({}) == {}
  {
  }

  lemma OneMoreProxy(all: set<ListenerProxy>, done: set<ListenerProxy>, proxy: ListenerProxy)
    requires Separate(all) && done <= all && proxy in all && proxy !in done
    ensures ListenersOf(done + {proxy}) == ListenersOf(done) + proxy.listeners
    ensures ListenersOf(done) !! proxy.listeners && proxy.listeners <= ListenersOf(all)
  {
  }

  class ListenerProxy {
    var listeners: set<MessageCounter>

    constructor ()
      ensures listeners == {}
    {
      listeners := {};
    }

    method AddListener(listener: MessageCounter)
      modifies this
      ensures listeners == old(listeners) + {listener}
    {
      listeners := listeners + {listener};
    }

    /** Passes an event on to a copy of the listeners, each once. */
    method On(e: Event, ghost all: set<MessageCounter>)
      requires listeners <= all && AllValid(all) && Apart(all)
      modifies listeners, CountersOf(listeners)
      ensures Counted(all, listeners, e)
    {
      hide Apply, MessageCounter.Tallies, MessageCounter.Valid, Apart, AllValid;
      var todo := listeners;
      while todo != {}
        invariant todo <= listeners
        invariant Counted(all, listeners - todo, e)
        invariant forall l | l in listeners :: fresh(l.counterMap.Values - old(l.counterMap.Values))
        decreases todo
      {
        var listener :| listener in todo;
        Tell(listener, e, all);
        todo := todo - {listener};
      }
      assert listeners - todo == listeners;
    }
  }

  /** The listeners of one simulator: fixed ones stay, floating ones last until it stops. The
      floating ones are known by a number, with the events each was told. */
  class ListenerHub {
    var fixedListenerSet: set<ListenerProxy>
    var floatListenerSet: set<int>
    var heard: map<int, seq<Event>>

    constructor ()
      ensures fixedListenerSet == {} && floatListenerSet == {} && heard == map[]
    {
      fixedListenerSet, floatListenerSet, heard := {}, {}, map[];
    }

    function Heard(listener: int): seq<Event>
      reads this`heard
    {
      if listener in heard then heard[listener] else []
    }

    /** The listeners behind the fixed proxies. */
    ghost function Told(): set<MessageCounter>
      reads this`fixedListenerSet, fixedListenerSet
    {
      ListenersOf(fixedListenerSet)
    }

    method AddFixedListener(listener: ListenerProxy)
      modifies this`fixedListenerSet
      ensures fixedListenerSet == old(fixedListenerSet) + {listener}
    {
      fixedListenerSet := fixedListenerSet + {listener};
    }

    method AddListener(listener: int)
      modifies this`floatListenerSet
      ensures floatListenerSet == old(floatListenerSet) + {listener}
    {
      floatListenerSet := floatListenerSet + {listener};
    }

    method RemoveAllListeners()
      modifies this`floatListenerSet
      ensures floatListenerSet == {}
    {
      floatListenerSet := {};
    }

    /** Tells every fixed and every floating listener, each once. */
    method FireEvent(e: Event)
      requires AllValid(Told()) && Apart(Told()) && Separate(fixedListenerSet)
      modifies this`heard, Told(), CountersOf(Told())
      ensures Counted(Told(), Told(), e)
      ensures forall f :: Heard(f) == old(Heard(f)) + if f in floatListenerSet then [e] else []
    {
      TellFixed(e);
      TellFloating(e);
    }

    method TellFixed(e: Event)
      requires AllValid(Told()) && Apart(Told()) && Separate(fixedListenerSet)
      modifies Told(), CountersOf(Told())
      ensures Counted(Told(), Told(), e)
    {
      hide Apply, MessageCounter.Tallies, MessageCounter.Valid, Apart, AllValid, ListenersOf, Separate;
      var todo := fixedListenerSet;
      ghost var all := Told();
      assert fixedListenerSet - todo == {} && ListenersOf({}) == {} by {
        NoProxies();
      }
      while todo != {}
        invariant todo <= fixedListenerSet && Told() == all
        invariant Counted(all, ListenersOf(fixedListenerSet - todo), e)
        decreases todo
      {
        var proxy :| proxy in todo;
        OneMoreProxy(fixedListenerSet, fixedListenerSet - todo, proxy);
        assert fixedListenerSet - (todo - {proxy}) == fixedListenerSet - todo + {proxy};
        proxy.On(e, all);
        todo := todo - {proxy};
      }
      assert fixedListenerSet - todo == fixedListenerSet;
    }

    method TellFloating(e: Event)
      modifies this`heard
      ensures forall f :: Heard(f) == old(Heard(f)) + if f in floatListenerSet then [e] else []
    {
      var todo := floatListenerSet;
      while todo != {}
        invariant todo <= floatListenerSet
        invariant forall f :: Heard(f) == old(Heard(f)) + if f in floatListenerSet - todo then [e] else []
        decreases todo
      {
        NotEmpty(todo);
        var listener :| listener in todo;
        heard := heard[listener := Heard(listener) + [e]];
        todo := todo - {listener};
      }
    }
  }

  lemma NotEmpty(s: set<int>)
    ensures s == {} || exists x :: x in s
  {
    if forall x :: x !in s {
      assert s == {};
    }
  }

  /** The two listeners all simulators share, with the events reported so far. */
  class Monitor {
    const proxy: ListenerProxy
    const counter: MessageCounter
    ghost var log: seq<Event>

    /** The counters show what the events say. */
    ghost predicate Valid()
      reads this, proxy, counter, counter.counterMap.Values
    {
      && counter.Valid()
      && proxy.listeners <= {counter}
      && counter.Tallies() == Replay(log)
    }

    constructor ()
      ensures Valid() && log == [] && proxy.listeners == {}
      ensures fresh(proxy) && fresh(counter) && counter.counterMap == map[]
    {
      var p := new ListenerProxy();
      var c := new MessageCounter();
      proxy, counter, log := p, c, [];
    }

    /** A simulator reports an event through its hub. */
    method Report(hub: ListenerHub, e: Event)
      requires Valid() && proxy.listeners == {counter} && hub.fixedListenerSet == {proxy}
      modifies this, hub`heard, counter, counter.counterMap.Values
      ensures Valid() && log == old(log) + [e]
      ensures fresh(counter.counterMap.Values - old(counter.counterMap.Values))
      ensures forall f :: hub.Heard(f) == old(hub.Heard(f)) + if f in hub.floatListenerSet then [e] else []
    {
      hide Replay, Apply, MessageCounter.Tallies;
      assert hub.Told() == {counter} && CountersOf({counter}) == counter.counterMap.Values;
      hub.FireEvent(e);
      ReplaySnoc(log, e);
      log := log + [e];
    }

    /** A simulator has been made: the counter of its name is initialised, and the
        counter registered once more. */
    method ReportCreated(name: string)
      requires Valid()
      modifies this, proxy, counter
      ensures Valid() && log == old(log) + [Created(name)] && proxy.listeners == {counter}
      ensures fresh(counter.counterMap.Values - old(counter.counterMap.Values))
    {
      counter.Reset(name);
      proxy.AddListener(counter);
      ReplaySnoc(log, Created(name));
      log := log + [Created(name)];
    }
  }
}
