/** The reference view of a run: which connections are open, under which id, and
    what is left behind once the list of unidentified connections has been dropped. */
module Registries {

  datatype Id = Unknown | Claimed(name: string)

  datatype Event = Open(socket: int) | Claim(socket: int, name: string) | Close(socket: int)

  /** ids: the open connections and their ids. severed: the key of the unidentified
      connections has been dropped at some point. stale: connections that claimed an
      id after that. used: every connection ever opened. */
  datatype Registry = Registry(ids: map<int, Id>, severed: bool, stale: set<int>, used: set<int>)

  const EMPTY := Registry(map[], false, {}, {})

  predicate OnlyUnknown(r: Registry, s: int) {
    s in r.ids && r.ids[s] == Unknown && forall t | t in r.ids && t != s :: r.ids[t] != Unknown
  }

  /** Connections are opened once, and used only while open. */
  predicate Legal(r: Registry, e: Event) {
    match e
    case Open(s) => s !in r.used
    case Claim(s, _) => s in r.ids
    case Close(s) => s in r.ids
  }

  function Step(r: Registry, e: Event): Registry
    requires Legal(r, e)
  {
    match e
    case Open(s) => r.(ids := r.ids[s := Unknown], used := r.used + {s})
    case Claim(s, name) =>
      if r.ids[s] != Unknown then r
      else r.(ids := r.ids[s := Claimed(name)], stale := if r.severed then r.stale + {s} else r.stale)
    case Close(s) =>
      r.(ids := r.ids - {s}, severed := r.severed || OnlyUnknown(r, s))
  }

  predicate LegalRun(events: seq<Event>)
    decreases |events|, 0
  {
    if events == [] then true
    else LegalRun(events[..|events| - 1]) && Legal(Run(events[..|events| - 1]), events[|events| - 1])
  }

  function Run(events: seq<Event>): Registry
    requires LegalRun(events)
    decreases |events|, 1
  {
    if events == [] then EMPTY
    else Step(Run(events[..|events| - 1]), events[|events| - 1])
  }

  lemma {:induction false} PrefixIsLegal(events: seq<Event>, k: nat)
    requires LegalRun(events) && k <= |events|
    ensures LegalRun(events[..k])
    decreases |events|
  {
    if k < |events| {
      PrefixIsLegal(events[..|events| - 1], k);
      assert events[..|events| - 1][..k] == events[..k];
    } else {
      assert events[..k] == events;
    }
  }

  lemma RunStep(events: seq<Event>, k: nat)
    requires LegalRun(events) && k <= |events|
    ensures LegalRun(events[..k])
    ensures k == 0 ==> Run(events[..k]) == EMPTY
    ensures k < |events| ==> LegalRun(events[..k + 1]) && Legal(Run(events[..k]), events[k])
                             && Run(events[..k + 1]) == Step(Run(events[..k]), events[k])
  {
    PrefixIsLegal(events, k);
    if k < |events| {
      PrefixIsLegal(events, k + 1);
      assert events[..k + 1][..k] == events[..k];
    }
  }

  /** Event k closes the only unidentified connection there is at that time. */
  ghost predicate Severs(events: seq<Event>, k: nat)
    requires LegalRun(events) && k < |events|
  {
    PrefixIsLegal(events, k);
    events[k].Close? && OnlyUnknown(Run(events[..k]), events[k].socket)
  }

  /** Event k lets connection s claim its id after the key has been dropped. */
  ghost predicate ClaimsLate(events: seq<Event>, k: nat, s: int)
    requires LegalRun(events) && k < |events|
  {
    PrefixIsLegal(events, k);
    var r := Run(events[..k]);
    events[k].Claim? && events[k].socket == s && s in r.ids && r.ids[s] == Unknown && r.severed
  }

  lemma PrefixOfPrefix(events: seq<Event>, k: nat)
    requires k < |events|
    ensures events[..|events| - 1][..k] == events[..k]
  {
  }

  /** The key of the unidentified connections has been dropped exactly if some event
      closed the only unidentified connection. */
  lemma {:induction false} SeveredIff(events: seq<Event>)
    requires LegalRun(events)
    ensures Run(events).severed <==> exists k | 0 <= k < |events| :: Severs(events, k)
    decreases |events|
  {
    if events != [] {
      var before := events[..|events| - 1];
      SeveredIff(before);
      forall k | 0 <= k < |before|
        ensures Severs(before, k) == Severs(events, k)
      {
        PrefixOfPrefix(events, k);
      }
      assert Run(events).severed == (Run(before).severed || Severs(events, |before|));
    }
  }

  /** The left-over connections are exactly those that claimed an id after a drop. */
  lemma {:induction false} StaleIff(events: seq<Event>, s: int)
    requires LegalRun(events)
    ensures s in Run(events).stale <==> exists k | 0 <= k < |events| :: ClaimsLate(events, k, s)
    decreases |events|
  {
    if events != [] {
      var before := events[..|events| - 1];
      StaleIff(before, s);
      forall k | 0 <= k < |before|
        ensures ClaimsLate(before, k, s) == ClaimsLate(events, k, s)
      {
        PrefixOfPrefix(events, k);
      }
      assert s in Run(events).stale <==> s in Run(before).stale || ClaimsLate(events, |before|, s);
    }
  }

  /** A connection is open exactly if it was opened and not closed since. */
  lemma {:induction false} OpenIff(events: seq<Event>, s: int)
    requires LegalRun(events)
    ensures s in Run(events).ids <==> Open(s) in events && Close(s) !in events
    ensures s in Run(events).used <==> Open(s) in events
    ensures Close(s) in events ==> Open(s) in events
    decreases |events|
  {
    if events != [] {
      var before, e := events[..|events| - 1], events[|events| - 1];
      OpenIff(before, s);
      assert events == before + [e];
    }
  }

  /** The id that the first claim for s after its opening asks for. */
  function FirstClaim(events: seq<Event>, s: int): Id
    decreases |events|
  {
    if events == [] then Unknown
    else if events[0].Claim? && events[0].socket == s then Claimed(events[0].name)
    else FirstClaim(events[1..], s)
  }

  lemma {:induction false} FirstClaimSnoc(events: seq<Event>, e: Event, s: int)
    ensures FirstClaim(events + [e], s) ==
            if FirstClaim(events, s) == Unknown && e.Claim? && e.socket == s then Claimed(e.name)
            else FirstClaim(events, s)
  {
    if events != [] {
      FirstClaimSnoc(events[1..], e, s);
      assert (events + [e])[1..] == events[1..] + [e];
    }
  }

  /** An open connection holds the id of its first claim; later claims change nothing. */
  lemma {:induction false} FirstClaimWins(events: seq<Event>, s: int)
    requires LegalRun(events)
    ensures s in Run(events).ids ==> Run(events).ids[s] == FirstClaim(events, s)
    ensures s !in Run(events).used ==> FirstClaim(events, s) == Unknown
    ensures Run(events).ids.Keys <= Run(events).used
    decreases |events|
  {
    if events != [] {
      var before := events[..|events| - 1];
      FirstClaimWins(before, s);
      FirstClaimSnoc(before, events[|events| - 1], s);
      assert before + [events[|events| - 1]] == events;
    }
  }

  /** Lookups of all connections are exact in every state of a run if and only if no
      connection claims an id after the key was dropped. */
  lemma NoLeftoversIff(events: seq<Event>)
    requires LegalRun(events)
    ensures Run(events).stale == {} <==> forall k, s | 0 <= k < |events| :: !ClaimsLate(events, k, s)
    ensures (forall k | 0 <= k < |events| :: !Severs(events, k)) ==> Run(events).stale == {}
  {
    hide Run, LegalRun, ClaimsLate, Severs;
    SeveredIff(events);
    StaleNeedsSevered(events);
    forall k, s | 0 <= k < |events| && ClaimsLate(events, k, s)
      ensures s in Run(events).stale
    {
      StaleIff(events, s);
    }
    if forall k, s | 0 <= k < |events| :: !ClaimsLate(events, k, s) {
      forall s
        ensures s !in Run(events).stale
      {
        StaleIff(events, s);
      }
      assert Run(events).stale == {};
    }
  }

  lemma {:induction false} StaleNeedsSevered(events: seq<Event>)
    requires LegalRun(events)
    ensures Run(events).stale != {} ==> Run(events).severed
    decreases |events|
  {
    if events != [] {
      StaleNeedsSevered(events[..|events| - 1]);
    }
  }

  /** A run in which a lookup of all connections does go wrong: the first connection
      closes unidentified, the next one claims its id and closes, and is still listed. */
  lemma ClosedConnectionLeftBehind()
    ensures var events := [Open(1), Close(1), Open(2), Claim(2, "a"), Close(2)];
            LegalRun(events) && Run(events).ids == map[] && Run(events).stale == {2}
  {
    var events := [Open(1), Close(1), Open(2), Claim(2, "a"), Close(2)];
    assert events[..4] == [Open(1), Close(1), Open(2), Claim(2, "a")];
    assert events[..4][..3] == [Open(1), Close(1), Open(2)];
    assert [Open(1), Close(1), Open(2)][..2] == [Open(1), Close(1)];
    assert [Open(1), Close(1)][..1] == [Open(1)];
    assert [Open(1)][..0] == [];
    assert Run([Open(1)]).ids == map[1 := Unknown];
    assert Run([Open(1), Close(1)]).severed;
  }
}

/** The connection bundle of a web-socket channel: a map of lists, one of which is
    also held directly. */
module Connections {
  import opened Outcomes
  import opened Registries

  const ALL: string := "_ALL_"

  class Connection {
    const socket: int
    var id: Id

    constructor (socket: int)
      ensures this.socket == socket && id == Unknown
    {
      this.socket := socket;
      id := Unknown;
    }
  }

  function Without<T(==)>(s: seq<T>, x: T): seq<T> {
    if s == [] then []
    else if s[0] == x then s[1..]
    else [s[0]] + Without(s[1..], x)
  }

  class ConnectionList {
    var items: seq<Connection>

    constructor ()
      ensures items == []
    {
      items := [];
    }

    method Add(c: Connection)
      modifies this
      ensures items == old(items) + [c]
    {
      items := items + [c];
    }

    /** Removes the first occurrence, if there is one. */
    method Remove(c: Connection)
      modifies this
      ensures items == Without(old(items), c)
    {
      var i := 0;
      while i < |items| && items[i] != c
        invariant i <= |items|
        invariant Without(items, c) == items[..i] + Without(items[i..], c)
      {
        assert items[i..][1..] == items[i + 1..];
        assert items[..i] + [items[i]] == items[..i + 1];
        i := i + 1;
      }
      if i < |items| {
        assert items[i..][1..] == items[i + 1..];
        items := items[..i] + items[i + 1..];
      } else {
        assert items[..i] == items;
      }
    }
  }

  function Sockets(cs: seq<Connection>): seq<int> {
    if cs == [] then [] else [cs[0].socket] + Sockets(cs[1..])
  }

  lemma {:induction false} SocketsAppend(cs: seq<Connection>, c: Connection)
    ensures Sockets(cs + [c]) == Sockets(cs) + [c.socket]
  {
    if cs != [] {
      SocketsAppend(cs[1..], c);
      assert (cs + [c])[1..] == cs[1..] + [c];
    }
  }

  /** Only wrappers of opened connections are listed. */
  ghost predicate AreWrappers(wrappers: map<int, Connection>, cs: seq<Connection>) {
    forall i | 0 <= i < |cs| :: cs[i].socket in wrappers && wrappers[cs[i].socket] == cs[i]
  }

  /** Removing a wrapper removes its socket. */
  lemma {:induction false} WithoutWrapper(wrappers: map<int, Connection>, cs: seq<Connection>, c: Connection)
    requires AreWrappers(wrappers, cs) && c.socket in wrappers && wrappers[c.socket] == c
    ensures AreWrappers(wrappers, Without(cs, c))
    ensures Sockets(Without(cs, c)) == Without(Sockets(cs), c.socket)
  {
    if cs != [] {
      assert wrappers[cs[0].socket] == cs[0];
      assert AreWrappers(wrappers, cs[1..]);
      WithoutWrapper(wrappers, cs[1..], c);
      assert ([cs[0]] + Without(cs[1..], c))[1..] == Without(cs[1..], c);
    }
  }

  lemma DistinctCons(x: int, s: seq<int>)
    ensures Distinct([x] + s) <==> x !in s && Distinct(s)
  {
    var t := [x] + s;
    assert forall i | 0 <= i < |s| :: t[i + 1] == s[i];
    if Distinct(t) {
      assert forall i | 0 < i < |t| :: t[0] != t[i];
    }
  }

  lemma {:induction false} WithoutLaws(s: seq<int>, x: int)
    requires Distinct(s)
    ensures Distinct(Without(s, x))
    ensures forall y :: y in Without(s, x) <==> y in s && y != x
    ensures x !in s ==> Without(s, x) == s
  {
    if s != [] {
      assert s == [s[0]] + s[1..];
      DistinctCons(s[0], s[1..]);
      if s[0] != x {
        WithoutLaws(s[1..], x);
        DistinctCons(s[0], Without(s[1..], x));
      }
    }
  }

  /** Connection s belongs in the bucket of id k. */
  predicate Belongs(r: Registry, k: Id, s: int) {
    (s in r.ids && r.ids[s] == k) || (k == Unknown && s in r.stale)
  }

  /** The bucket lists the connections that belong under k, each once. */
  ghost predicate BucketIs(r: Registry, k: Id, bucket: seq<int>) {
    Distinct(bucket) && forall s :: s in bucket <==> Belongs(r, k, s)
  }

  /** Only opened connections are open or left over, and those left over hold an id or are closed. */
  ghost predicate Sane(r: Registry) {
    && r.ids.Keys <= r.used && r.stale <= r.used
    && (forall s | s in r.stale :: s in r.ids ==> r.ids[s] != Unknown)
    && (!r.severed ==> r.stale == {})
  }

  type Contents = map<Id, seq<int>>

  function Get(m: Contents, k: Id): seq<int> {
    if k in m then m[k] else []
  }

  function Appended(m: Contents, k: Id, s: int): Contents {
    m[k := Get(m, k) + [s]]
  }

  /** Each bucket holds exactly what belongs there and is there if something does;
      only the bucket of the unidentified may be empty, until its key is dropped. */
  ghost predicate BucketsAre(r: Registry, m: Contents) {
    && (forall k | k in m :: BucketIs(r, k, m[k]))
    && (forall k, s | Belongs(r, k, s) :: k in m)
    && (forall k | k in m :: m[k] == [] ==> k == Unknown && !r.severed)
    && (!r.severed ==> Unknown in m)
  }

  /** An event concerns only its own connection. */
  lemma BelongsElsewhere(r: Registry, e: Event)
    requires Legal(r, e)
    ensures forall k, s | s != e.socket :: Belongs(Step(r, e), k, s) == Belongs(r, k, s)
  {
  }

  lemma StepIsSane(r: Registry, e: Event)
    requires Sane(r) && Legal(r, e)
    ensures Sane(Step(r, e))
  {
  }

  lemma BucketGrows(r: Registry, k: Id, bucket: seq<int>, e: Event)
    requires Legal(r, e) && BucketIs(r, k, bucket)
    requires Belongs(Step(r, e), k, e.socket) && !Belongs(r, k, e.socket)
    ensures BucketIs(Step(r, e), k, bucket + [e.socket])
  {
    hide Step, Belongs;
    BelongsElsewhere(r, e);
  }

  lemma BucketShrinks(r: Registry, k: Id, bucket: seq<int>, e: Event)
    requires Legal(r, e) && BucketIs(r, k, bucket)
    requires !Belongs(Step(r, e), k, e.socket)
    ensures BucketIs(Step(r, e), k, Without(bucket, e.socket))
  {
    hide Step, Belongs;
    BelongsElsewhere(r, e);
    WithoutLaws(bucket, e.socket);
  }

  lemma BucketKept(r: Registry, k: Id, bucket: seq<int>, e: Event)
    requires Legal(r, e) && BucketIs(r, k, bucket)
    requires Belongs(Step(r, e), k, e.socket) == Belongs(r, k, e.socket)
    ensures BucketIs(Step(r, e), k, bucket)
  {
    hide Step, Belongs;
    BelongsElsewhere(r, e);
  }

  lemma OpenKeeps(r: Registry, m: Contents, s: int)
    requires Sane(r) && Legal(r, Open(s)) && BucketsAre(r, m)
    ensures BucketsAre(Step(r, Open(s)), Appended(m, Unknown, s))
  {
    var e, m' := Open(s), Appended(m, Unknown, s);
    BelongsElsewhere(r, e);
    forall k | k in m'
      ensures BucketIs(Step(r, e), k, m'[k])
    {
      if k == Unknown {
        BucketGrows(r, k, Get(m, k), e);
      } else {
        BucketKept(r, k, m[k], e);
      }
    }
  }

  /** The buckets after connection s, unidentified so far, claims a name. */
  function AfterClaim(r: Registry, m: Contents, s: int, name: string): Contents {
    var left := if r.severed then m else m[Unknown := Without(Get(m, Unknown), s)];
    Appended(left, Claimed(name), s)
  }

  lemma ClaimKeeps(r: Registry, m: Contents, s: int, name: string)
    requires Sane(r) && Legal(r, Claim(s, name)) && BucketsAre(r, m) && r.ids[s] == Unknown
    ensures BucketsAre(Step(r, Claim(s, name)), AfterClaim(r, m, s, name))
  {
    var e, m' := Claim(s, name), AfterClaim(r, m, s, name);
    BelongsElsewhere(r, e);
    assert Belongs(r, Unknown, s);
    forall k | k in m'
      ensures BucketIs(Step(r, e), k, m'[k])
    {
      if k == Claimed(name) {
        BucketGrows(r, k, Get(m, k), e);
      } else if k == Unknown && !r.severed {
        BucketShrinks(r, k, m[k], e);
      } else {
        BucketKept(r, k, m[k], e);
      }
    }
  }

  /** The buckets after connection s, registered under k, closes. */
  function AfterClose(m: Contents, k: Id, s: int): Contents
    requires k in m
  {
    if Without(m[k], s) == [] then m - {k} else m[k := Without(m[k], s)]
  }

  lemma CloseKeeps(r: Registry, m: Contents, s: int)
    requires Sane(r) && Legal(r, Close(s)) && BucketsAre(r, m)
    ensures r.ids[s] in m
    ensures BucketsAre(Step(r, Close(s)), AfterClose(m, r.ids[s], s))
    ensures Step(r, Close(s)).severed <==> r.severed || (r.ids[s] == Unknown && Without(m[Unknown], s) == [])
  {
    var e, k := Close(s), r.ids[s];
    assert Belongs(r, k, s);
    var m' := AfterClose(m, k, s);
    BelongsElsewhere(r, e);
    BucketShrinks(r, k, m[k], e);
    NothingLeft(r, k, Without(m[k], s), e);
    forall l | l in m'
      ensures BucketIs(Step(r, e), l, m'[l])
    {
      if l != k {
        BucketKept(r, l, m[l], e);
      }
    }
    forall l, t | Belongs(Step(r, e), l, t)
      ensures l in m'
    {
      assert Belongs(r, l, t);
    }
  }

  lemma NothingLeft(r: Registry, k: Id, bucket: seq<int>, e: Event)
    requires Sane(r) && Legal(r, e) && e.Close? && r.ids[e.socket] == k
    requires BucketIs(Step(r, e), k, bucket)
    ensures bucket == [] ==> forall s :: !Belongs(Step(r, e), k, s)
    ensures k == Unknown && !r.severed ==> (bucket == [] <==> OnlyUnknown(r, e.socket))
  {
    var r' := Step(r, e);
    if bucket != [] {
      assert bucket[0] in bucket;
      assert Belongs(r', k, bucket[0]);
    } else {
      assert forall t | t in r.ids && t != e.socket :: !Belongs(r', k, t);
    }
  }

  type Lists = map<Id, seq<Connection>>

  function Listed(lists: Lists): Contents {
    map k | k in lists :: Sockets(lists[k])
  }

  function Items(lists: Lists, k: Id): seq<Connection> {
    if k in lists then lists[k] else []
  }

  /** The lists index the open connections of r by id, through their wrappers. */
  ghost predicate Indexes(r: Registry, wrappers: map<int, Connection>, lists: Lists) {
    && Sane(r)
    && wrappers.Keys == r.used
    && AllWrappers(wrappers, lists)
    && BucketsAre(r, Listed(lists))
  }

  ghost predicate AllWrappers(wrappers: map<int, Connection>, lists: Lists) {
    forall k | k in lists :: AreWrappers(wrappers, lists[k])
  }

  lemma OpenLists(wrappers: map<int, Connection>, lists: Lists, c: Connection)
    requires AllWrappers(wrappers, lists) && c.socket !in wrappers
    ensures var lists' := lists[Unknown := Items(lists, Unknown) + [c]];
            && AllWrappers(wrappers[c.socket := c], lists')
            && Listed(lists') == Appended(Listed(lists), Unknown, c.socket)
  {
    var lists' := lists[Unknown := Items(lists, Unknown) + [c]];
    SocketsAppend(Items(lists, Unknown), c);
    assert Listed(lists') == Appended(Listed(lists), Unknown, c.socket);
    forall k | k in lists'
      ensures AreWrappers(wrappers[c.socket := c], lists'[k])
    {
      assert AreWrappers(wrappers, Items(lists, k));
    }
  }

  lemma OpenIndexes(r: Registry, wrappers: map<int, Connection>, lists: Lists, c: Connection)
    requires Indexes(r, wrappers, lists) && Legal(r, Open(c.socket))
    ensures c.socket !in r.ids && c.socket !in wrappers
    ensures Indexes(Step(r, Open(c.socket)), wrappers[c.socket := c], lists[Unknown := Items(lists, Unknown) + [c]])
  {
    hide BucketsAre, OnlyUnknown, AllWrappers, Listed, Appended;
    OpenKeeps(r, Listed(lists), c.socket);
    OpenLists(wrappers, lists, c);
    StepIsSane(r, Open(c.socket));
  }

  function ListsAfterClaim(r: Registry, lists: Lists, c: Connection, name: string): Lists {
    var left := if r.severed then lists else lists[Unknown := Without(Items(lists, Unknown), c)];
    left[Claimed(name) := Items(left, Claimed(name)) + [c]]
  }

  lemma ClaimLists(r: Registry, wrappers: map<int, Connection>, lists: Lists, c: Connection, name: string)
    requires AllWrappers(wrappers, lists) && c.socket in wrappers && wrappers[c.socket] == c
    ensures var lists' := ListsAfterClaim(r, lists, c, name);
            && AllWrappers(wrappers, lists')
            && Listed(lists') == AfterClaim(r, Listed(lists), c.socket, name)
  {
    assert AreWrappers(wrappers, Items(lists, Unknown));
    WithoutWrapper(wrappers, Items(lists, Unknown), c);
    var left := if r.severed then lists else lists[Unknown := Without(Items(lists, Unknown), c)];
    assert AllWrappers(wrappers, left);
    assert Listed(left) == if r.severed then Listed(lists)
                           else Listed(lists)[Unknown := Without(Get(Listed(lists), Unknown), c.socket)];
    AppendLists(wrappers, left, Claimed(name), c);
  }

  lemma AppendLists(wrappers: map<int, Connection>, lists: Lists, k: Id, c: Connection)
    requires AllWrappers(wrappers, lists) && c.socket in wrappers && wrappers[c.socket] == c
    ensures var lists' := lists[k := Items(lists, k) + [c]];
            AllWrappers(wrappers, lists') && Listed(lists') == Appended(Listed(lists), k, c.socket)
  {
    assert AreWrappers(wrappers, Items(lists, k));
    SocketsAppend(Items(lists, k), c);
    var lists' := lists[k := Items(lists, k) + [c]];
    assert Listed(lists') == Appended(Listed(lists), k, c.socket);
  }

  lemma ClaimIndexes(r: Registry, wrappers: map<int, Connection>, lists: Lists, c: Connection, name: string)
    requires Indexes(r, wrappers, lists) && Legal(r, Claim(c.socket, name)) && r.ids[c.socket] == Unknown
    requires wrappers[c.socket] == c
    ensures Indexes(Step(r, Claim(c.socket, name)), wrappers, ListsAfterClaim(r, lists, c, name))
  {
    hide BucketsAre, OnlyUnknown, AllWrappers, Listed, AfterClaim, ListsAfterClaim;
    ClaimKeeps(r, Listed(lists), c.socket, name);
    ClaimLists(r, wrappers, lists, c, name);
    StepIsSane(r, Claim(c.socket, name));
  }

  function ListsAfterClose(lists: Lists, k: Id, c: Connection): Lists
    requires k in lists
  {
    if Without(lists[k], c) == [] then lists - {k} else lists[k := Without(lists[k], c)]
  }

  lemma CloseIndexes(r: Registry, wrappers: map<int, Connection>, lists: Lists, c: Connection)
    requires Indexes(r, wrappers, lists) && Legal(r, Close(c.socket)) && wrappers[c.socket] == c
    ensures r.ids[c.socket] in lists
    ensures var k, r' := r.ids[c.socket], Step(r, Close(c.socket));
            && Indexes(r', wrappers, ListsAfterClose(lists, k, c))
            && (r'.severed <==> r.severed || (k == Unknown && Without(lists[k], c) == []))
  {
    hide BucketsAre;
    var k := r.ids[c.socket];
    CloseKeeps(r, Listed(lists), c.socket);
    WithoutWrapper(wrappers, lists[k], c);
    assert Listed(ListsAfterClose(lists, k, c)) == AfterClose(Listed(lists), k, c.socket);
    StepIsSane(r, Close(c.socket));
  }

  class ConnectionBundle {
    var connectionMap: map<Id, ConnectionList>
    const unknownConnectionList: ConnectionList

    ghost var registry: Registry
    ghost var wrappers: map<int, Connection>

    ghost function Lists(): Lists
      reads this`connectionMap, connectionMap.Values
    {
      map k | k in connectionMap :: connectionMap[k].items
    }

    lemma ListAt(k: Id)
      requires k in Lists()
      ensures k in connectionMap && Lists()[k] == connectionMap[k].items
    {
    }

    /** Every wrapper is found under its socket, and those of open connections know their ids. */
    ghost predicate IdsAgree()
      reads this`registry, this`wrappers, wrappers.Values
    {
      && (forall s | s in wrappers :: wrappers[s].socket == s)
      && (forall s | s in registry.ids :: s in wrappers && wrappers[s].id == registry.ids[s])
    }

    ghost predicate ListsApart()
      reads this`connectionMap
    {
      forall k, l | k in connectionMap && l in connectionMap && k != l :: connectionMap[k] != connectionMap[l]
    }

    /** The directly held list is the unidentified bucket until the key is dropped,
        and never again. */
    ghost predicate Aliasing(severed: bool)
      reads this`connectionMap, unknownConnectionList
    {
      && (!severed ==> Unknown in connectionMap && connectionMap[Unknown] == unknownConnectionList)
      && (severed ==> unknownConnectionList.items == [])
      && (forall k | k in connectionMap && connectionMap[k] == unknownConnectionList :: k == Unknown && !severed)
    }

    ghost predicate Valid()
      reads this, unknownConnectionList, connectionMap.Values, wrappers.Values
    {
      && IdsAgree() && ListsApart() && Aliasing(registry.severed)
      && Indexes(registry, wrappers, Lists())
    }

    constructor ()
      ensures Valid() && registry == EMPTY && wrappers == map[]
      ensures fresh(unknownConnectionList) && connectionMap == map[Unknown := unknownConnectionList]
    {
      var list := new ConnectionList();
      unknownConnectionList := list;
      connectionMap := map[Unknown := list];
      registry := EMPTY;
      wrappers := map[];
    }

    method AddConnection(conn: Connection)
      requires ListsApart() && Aliasing(registry.severed)
      modifies this`connectionMap
      modifies if conn.id in connectionMap then {connectionMap[conn.id]} else {}
      ensures ListsApart() && Aliasing(registry.severed)
      ensures Lists() == old(Lists()[conn.id := Items(Lists(), conn.id) + [conn]])
      ensures conn.id in old(connectionMap) ==> connectionMap == old(connectionMap)
      ensures fresh(connectionMap.Values - old(connectionMap.Values))
      ensures conn.id !in old(connectionMap) ==>
                && conn.id in connectionMap && fresh(connectionMap[conn.id])
                && connectionMap == old(connectionMap)[conn.id := connectionMap[conn.id]]
    {
      if conn.id !in connectionMap {
        var list := new ConnectionList();
        connectionMap := connectionMap[conn.id := list];
      }
      connectionMap[conn.id].Add(conn);
    }

    /** A connection is opened: its wrapper goes to the unidentified ones. */
    method OnOpen(socket: int) returns (conn: Connection)
      requires Valid() && Legal(registry, Open(socket))
      modifies this, connectionMap.Values
      ensures Valid() && fresh(conn) && fresh(connectionMap.Values - old(connectionMap.Values))
      ensures registry == Step(old(registry), Open(socket))
      ensures wrappers == old(wrappers)[socket := conn]
    {
      hide Indexes, Lists, ListsApart, Aliasing, IdsAgree, Items, Step;
      conn := new Connection(socket);
      OpenIndexes(registry, wrappers, Lists(), conn);
      AddConnection(conn);
      RegisterOpened(conn);
    }

    ghost method RegisterOpened(conn: Connection)
      requires IdsAgree() && Legal(registry, Open(conn.socket)) && conn.id == Unknown && conn.socket !in wrappers
      modifies this`registry, this`wrappers
      ensures IdsAgree()
      ensures registry == Step(old(registry), Open(conn.socket)) && registry.severed == old(registry.severed)
      ensures wrappers == old(wrappers)[conn.socket := conn]
    {
      registry := Step(registry, Open(conn.socket));
      wrappers := wrappers[conn.socket := conn];
    }

    /** Removes a wrapper from the directly held list, which is a bucket only through the alias. */
    method UnlistUnknown(conn: Connection)
      requires ListsApart() && Aliasing(registry.severed)
      modifies unknownConnectionList
      ensures Aliasing(registry.severed)
      ensures Lists() == if registry.severed then old(Lists())
                         else old(Lists()[Unknown := Without(Items(Lists(), Unknown), conn)])
    {
      unknownConnectionList.Remove(conn);
    }

    method MoveToBucket(conn: Connection, name: string)
      requires ListsApart() && Aliasing(registry.severed) && conn.id == Unknown
      modifies this`connectionMap, conn, unknownConnectionList, connectionMap.Values
      ensures conn.id == Claimed(name)
      ensures Lists() == old(ListsAfterClaim(registry, Lists(), conn, name))
      ensures ListsApart() && Aliasing(registry.severed) && fresh(connectionMap.Values - old(connectionMap.Values))
    {
      hide Without, Lists, ListsApart, Aliasing;
      conn.id := Claimed(name);
      UnlistUnknown(conn);
      AddConnection(conn);
    }

    /** An open connection asks for an id: the first request moves it to the bucket of that id. */
    method SetId(conn: Connection, name: string)
      requires Valid() && conn.socket in registry.ids && wrappers[conn.socket] == conn
      modifies this, conn, unknownConnectionList, connectionMap.Values
      ensures Valid() && fresh(connectionMap.Values - old(connectionMap.Values))
      ensures registry == Step(old(registry), Claim(conn.socket, name))
      ensures wrappers == old(wrappers)
    {
      hide Indexes, Lists, ListsApart, Aliasing, ListsAfterClaim;
      if conn.id == Unknown {
        ClaimIndexes(registry, wrappers, Lists(), conn, name);
        MoveToBucket(conn, name);
        registry := Step(registry, Claim(conn.socket, name));
      }
    }

    method RemoveFromBucket(conn: Connection)
      requires ListsApart() && Aliasing(registry.severed) && conn.id in connectionMap
      modifies this`connectionMap, connectionMap[conn.id]
      ensures Lists() == old(ListsAfterClose(Lists(), conn.id, conn))
      ensures ListsApart() && connectionMap.Values <= old(connectionMap.Values)
      ensures Aliasing(registry.severed || (conn.id == Unknown && old(Without(connectionMap[conn.id].items, conn)) == []))
    {
      var connList := connectionMap[conn.id];
      connList.Remove(conn);
      if connList.items == [] {
        connectionMap := connectionMap - {conn.id};
      }
    }

    /** An open connection closes: it leaves its bucket, and an emptied bucket goes. */
    method RemoveConnection(conn: Connection)
      requires Valid() && conn.socket in registry.ids && wrappers[conn.socket] == conn
      modifies this, connectionMap.Values
      ensures Valid() && connectionMap.Values <= old(connectionMap.Values)
      ensures registry == Step(old(registry), Close(conn.socket))
      ensures wrappers == old(wrappers)
    {
      hide Indexes, Lists, ListsApart, Aliasing, ListsAfterClose, OnlyUnknown, Without;
      CloseIndexes(registry, wrappers, Lists(), conn);
      ListAt(conn.id);
      if conn.id in connectionMap {
        RemoveFromBucket(conn);
      }
      registry := Step(registry, Close(conn.socket));
    }

    // ---------- lookups ----------

    lemma BucketAt(k: Id)
      requires Valid() && k in connectionMap
      ensures AreWrappers(wrappers, connectionMap[k].items)
      ensures BucketIs(registry, k, Sockets(connectionMap[k].items))
    {
      assert Lists()[k] == connectionMap[k].items;
      assert Listed(Lists())[k] == Sockets(connectionMap[k].items);
    }

    lemma HasBucket(s: int)
      requires Valid()
      ensures s in registry.ids ==> s in wrappers && registry.ids[s] in connectionMap
      ensures s in registry.stale ==> s in wrappers && Unknown in connectionMap
      ensures Sane(registry)
    {
      assert s in registry.ids ==> Belongs(registry, registry.ids[s], s);
      assert s in registry.stale ==> Belongs(registry, Unknown, s);
    }

    /** Looks through all buckets, in any order: finds the wrapper of every open
        connection, and otherwise at most the wrapper of one left behind. */
    method FindConnection(socket: int) returns (ret: Connection?)
      requires Valid()
      ensures socket in registry.ids ==> socket in wrappers && ret == wrappers[socket]
      ensures ret != null <==> socket in registry.ids || socket in registry.stale
    {
      hide Indexes, Sane, Aliasing, ListsApart, IdsAgree;
      ret := null;
      HasBucket(socket);
      var todo := connectionMap.Keys;
      while todo != {}
        invariant todo <= connectionMap.Keys
        invariant ret != null ==> socket in wrappers && ret == wrappers[socket]
        invariant ret != null <==> exists k | k in connectionMap.Keys - todo :: Belongs(registry, k, socket)
        decreases todo
      {
        var k :| k in todo;
        BucketAt(k);
        var conn := FirstWith(connectionMap[k].items, socket);
        if conn != null {
          ret := conn;
        }
        todo := todo - {k};
      }
      assert socket in registry.ids ==> Belongs(registry, registry.ids[socket], socket);
      assert socket in registry.stale ==> Belongs(registry, Unknown, socket);
    }

    /** The connections registered under an id, or every listed one for an id that
        starts with the marker for all. */
    method FindConnections(id: string) returns (r: Option<seq<Connection>>)
      requires Valid()
      ensures ALL <= id ==>
                r.Some? && multiset(Sockets(r.value)) == multiset(registry.ids.Keys) + multiset(registry.stale)
      ensures !(ALL <= id) ==>
                (r.None? <==> forall s | s in registry.ids :: registry.ids[s] != Claimed(id))
      ensures !(ALL <= id) && r.Some? ==>
                multiset(Sockets(r.value)) == multiset(set s | s in registry.ids && registry.ids[s] == Claimed(id))
      ensures r.Some? ==> AreWrappers(wrappers, r.value)
    {
      if ALL <= id {
        var list := AllConnections();
        return Some(list);
      }
      if Claimed(id) !in connectionMap {
        NoBucketMeansNone(id);
        return None;
      }
      BucketAt(Claimed(id));
      BucketNotEmpty(id);
      BucketMultiset(registry, Claimed(id), Sockets(connectionMap[Claimed(id)].items));
      return Some(connectionMap[Claimed(id)].items);
    }

    lemma NoBucketMeansNone(id: string)
      requires Valid() && Claimed(id) !in connectionMap
      ensures forall s | s in registry.ids :: registry.ids[s] != Claimed(id)
    {
      forall s | s in registry.ids
        ensures registry.ids[s] != Claimed(id)
      {
        HasBucket(s);
      }
    }

    lemma BucketNotEmpty(id: string)
      requires Valid() && Claimed(id) in connectionMap
      ensures exists s | s in registry.ids :: registry.ids[s] == Claimed(id)
    {
      BucketAt(Claimed(id));
      var bucket := Sockets(connectionMap[Claimed(id)].items);
      assert Listed(Lists())[Claimed(id)] == bucket;
      assert bucket[0] in bucket;
      assert Belongs(registry, Claimed(id), bucket[0]);
    }

    method AllConnections() returns (list: seq<Connection>)
      requires Valid()
      ensures multiset(Sockets(list)) == multiset(registry.ids.Keys) + multiset(registry.stale)
      ensures AreWrappers(wrappers, list)
    {
      hide Valid, BucketIs, ListsExactly, Sockets;
      HasBuckets();
      list := [];
      NothingListed(registry);
      var todo := connectionMap.Keys;
      assert connectionMap.Keys - todo == {};
      while todo != {}
        invariant todo <= connectionMap.Keys
        invariant AreWrappers(wrappers, list)
        invariant ListsExactly(registry, connectionMap.Keys - todo, Sockets(list))
        decreases todo
      {
        var k :| k in todo;
        BucketAt(k);
        SocketsConcat(list, connectionMap[k].items);
        OneMoreBucket(registry, connectionMap.Keys - todo, k, Sockets(list), Sockets(connectionMap[k].items));
        list := list + connectionMap[k].items;
        assert connectionMap.Keys - (todo - {k}) == connectionMap.Keys - todo + {k};
        todo := todo - {k};
      }
      assert connectionMap.Keys - todo == connectionMap.Keys;
      AllListed(registry, connectionMap.Keys, Sockets(list));
    }

    lemma HasBuckets()
      requires Valid()
      ensures Sane(registry) && forall k, s | Belongs(registry, k, s) :: k in connectionMap.Keys
    {
    }
  }

  method FirstWith(conns: seq<Connection>, socket: int) returns (ret: Connection?)
    ensures ret == null <==> socket !in Sockets(conns)
    ensures ret != null ==> ret in conns && ret.socket == socket
  {
    ret := null;
    var i := 0;
    while i < |conns|
      invariant 0 <= i <= |conns|
      invariant socket in Sockets(conns) <==> socket in Sockets(conns[i..])
    {
      assert conns[i..][1..] == conns[i + 1..];
      if conns[i].socket == socket {
        return conns[i];
      }
      i := i + 1;
    }
  }

  /** How often connection s occurs in the buckets of the given keys. */
  function Listings(r: Registry, keys: set<Id>, s: int): nat {
    (if s in r.ids && r.ids[s] in keys then 1 else 0) + (if s in r.stale && Unknown in keys then 1 else 0)
  }

  ghost predicate ListsExactly(r: Registry, keys: set<Id>, list: seq<int>) {
    forall s :: multiset(list)[s] == Listings(r, keys, s)
  }

  lemma NothingListed(r: Registry)
    ensures ListsExactly(r, {}, Sockets([]))
  {
  }

  lemma OneMoreBucket(r: Registry, keys: set<Id>, k: Id, list: seq<int>, bucket: seq<int>)
    requires Sane(r) && k !in keys && BucketIs(r, k, bucket) && ListsExactly(r, keys, list)
    ensures ListsExactly(r, keys + {k}, list + bucket)
  {
    forall s
      ensures multiset(list + bucket)[s] == Listings(r, keys + {k}, s)
    {
      BucketCount(r, k, bucket, s);
    }
  }

  /** Over all keys every open connection is listed once, and every one left over once more. */
  lemma AllListed(r: Registry, keys: set<Id>, list: seq<int>)
    requires ListsExactly(r, keys, list) && forall k, s | Belongs(r, k, s) :: k in keys
    ensures multiset(list) == multiset(r.ids.Keys) + multiset(r.stale)
  {
    forall s
      ensures multiset(list)[s] == (multiset(r.ids.Keys) + multiset(r.stale))[s]
    {
      assert s in r.ids ==> Belongs(r, r.ids[s], s);
      assert s in r.stale ==> Belongs(r, Unknown, s);
    }
  }

  lemma {:induction false} BucketCount(r: Registry, k: Id, bucket: seq<int>, s: int)
    requires BucketIs(r, k, bucket)
    ensures multiset(bucket)[s] == if Belongs(r, k, s) then 1 else 0
  {
    CountDistinct(bucket, s);
  }

  lemma {:induction false} CountDistinct(a: seq<int>, s: int)
    requires Distinct(a)
    ensures multiset(a)[s] == if s in a then 1 else 0
  {
    if a != [] {
      assert a == [a[0]] + a[1..];
      DistinctCons(a[0], a[1..]);
      CountDistinct(a[1..], s);
    }
  }

  lemma BucketMultiset(r: Registry, k: Id, bucket: seq<int>)
    requires BucketIs(r, k, bucket) && k != Unknown
    ensures multiset(bucket) == multiset(set s | s in r.ids && r.ids[s] == k)
  {
    forall s
      ensures multiset(bucket)[s] == multiset(set t | t in r.ids && r.ids[t] == k)[s]
    {
      BucketCount(r, k, bucket, s);
    }
  }

  lemma {:induction false} SocketsConcat(a: seq<Connection>, b: seq<Connection>)
    ensures Sockets(a + b) == Sockets(a) + Sockets(b)
  {
    if a == [] {
      assert a + b == b;
    } else {
      SocketsConcat(a[1..], b);
      assert (a + b)[1..] == a[1..] + b;
    }
  }

  /** One event, handled as the channel does: the wrapper is looked up first. */
  method Handle(bundle: ConnectionBundle, e: Event)
    requires bundle.Valid() && Legal(bundle.registry, e)
    modifies bundle, bundle.unknownConnectionList, bundle.connectionMap.Values, bundle.wrappers.Values
    ensures bundle.Valid() && bundle.registry == Step(old(bundle.registry), e)
    ensures fresh(bundle.connectionMap.Values - old(bundle.connectionMap.Values))
    ensures fresh(bundle.wrappers.Values - old(bundle.wrappers.Values))
  {
    hide Step, Indexes, ConnectionBundle.ListsApart, ConnectionBundle.Aliasing;
    match e {
      case Open(s) =>
        var conn := bundle.OnOpen(s);
        assert bundle.wrappers.Values <= old(bundle.wrappers.Values) + {conn};
      case Claim(s, name) =>
        var conn := bundle.FindConnection(s);
        bundle.SetId(conn, name);
      case Close(s) =>
        var conn := bundle.FindConnection(s);
        bundle.RemoveConnection(conn);
    }
  }

  /** Any legal run of openings, id requests and closings, handled by a new bundle. */
  method Replay(events: seq<Event>) returns (bundle: ConnectionBundle)
    requires LegalRun(events)
    ensures bundle.Valid() && bundle.registry == Run(events)
  {
    hide Run, LegalRun, Step, Legal, ConnectionBundle.Valid;
    bundle := new ConnectionBundle();
    var i := 0;
    RunStep(events, 0);
    while i < |events|
      invariant 0 <= i <= |events| && LegalRun(events[..i])
      invariant fresh(bundle) && fresh(bundle.unknownConnectionList)
      invariant fresh(bundle.connectionMap.Values)
      invariant fresh(bundle.wrappers.Values)
      invariant bundle.Valid() && bundle.registry == Run(events[..i])
    {
      RunStep(events, i);
      Handle(bundle, events[i]);
      i := i + 1;
    }
    assert events[..i] == events;
  }
}
