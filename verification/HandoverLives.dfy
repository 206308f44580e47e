/**
  How a client's time in the broker's table can end: the clients that can still leave it, the ones
  that cannot, and a run that makes one of those.
 */
module HandoverLives {
  import opened Wrappers
  import opened HandoverIds
  import opened HandoverBroker
  import opened HandoverRuns

  lemma Extend(events: seq<Event>, ev: Event)
    requires Possible(events) && Conforming(Run(events).broker, ev)
    ensures Possible(events + [ev]) && Good(Run(events).broker) && Run(events + [ev]) == Next(Run(events), ev)
  {
    RunInv(events);
    var all := events + [ev];
    hide Next, Good, Conforming, Act;
    assert all[..|all| - 1] == events && all[|all| - 1] == ev;
    assert Possible(all);
    hide Possible;
  }

  // ---- Times ----

  function First(ev: Event): int {
    match ev
    case Connects(_, _, now) => now
    case Ready(_, _, now) => now
    case Requests(pruneTime, _) => pruneTime
    case Starts(_, _, _, now) => now
    case Takes(_, _, touchTime, _) => touchTime
  }

  function Last(ev: Event): int {
    match ev
    case Requests(_, now) => now
    case Takes(_, _, _, now) => now
    case _ => First(ev)
  }

  /** The clock never runs backwards, neither within these events nor before the first of them. */
  ghost predicate Clocked(events: seq<Event>, from: int) {
    && (forall i | 0 <= i < |events| :: from <= First(events[i]) <= Last(events[i]))
    && (forall i, j | 0 <= i < j < |events| :: Last(events[i]) <= First(events[j]))
  }

  ghost predicate AllAt(events: seq<Event>, now: int) {
    forall i | 0 <= i < |events| :: First(events[i]) == Last(events[i]) == now
  }

  lemma ClockedAfter(before: seq<Event>, after: seq<Event>, now: int)
    requires AllAt(before, now) && Clocked(after, now)
    ensures Clocked(before + after, now)
  {
    var all := before + after;
    assert forall i | 0 <= i < |all| :: all[i] == if i < |before| then before[i] else after[i - |before|];
  }

  // ---- Leaving ----

  /** A request that comes thirty seconds after a waiting client's last activity drops it. */
  lemma RequestDropsStale(b: Broker, id: string, time: int)
    requires Good(b) && id in b.table && !b.table[id].isAssigned
    requires b.table[id].lastActivity > 0 && time - b.table[id].lastActivity >= STALE_US
    ensures id !in RequestHandover(b, time, time).0.table
  {
    PruneRemovesTheStale(b, time);
    RequestPops(b, time, time);
    hide Prune, GoodClient, Distinct, RequestHandover;
  }

  lemma WaitingLeaves(events: seq<Event>, id: string, now: int) returns (more: seq<Event>)
    requires Possible(events) && id in Run(events).broker.table && !Run(events).broker.table[id].isAssigned && now > 0
    ensures Possible(events + more) && id !in Run(events + more).broker.table && Clocked(more, now)
  {
    hide Possible, Run, Good;
    var la := Run(events).broker.table[id].lastActivity;
    if la > 0 {
      var time := if now - la >= STALE_US then now else la + STALE_US;
      Extend(events, Requests(time, time));
      RequestDropsStale(Run(events).broker, id, time);
      more := [Requests(time, time)];
    } else {
      var first := Ready(id, true, now);
      Extend(events, first);
      var time := now + STALE_US;
      Extend(events + [first], Requests(time, time));
      RequestDropsStale(Run(events + [first]).broker, id, time);
      more := [first] + [Requests(time, time)];
      assert events + more == events + [first] + [Requests(time, time)];
    }
  }

  /** A client about to be handed over for the first time, its connection in place. */
  ghost predicate Takeable(b: Broker, id: string) {
    Good(b) && id in b.table && b.table[id].isAssigned && b.table[id].handovers == 0 && b.table[id].connection
  }

  lemma RedirectEndsSession(b: Broker, id: string, now: int)
    requires Good(b) && id in b.table && b.table[id].isAssigned
    ensures var b' := StartHandover(b, id, true, true, now).0;
      ChangesOne(b, b', id) && !b'.table[id].session && b'.table[id].handovers == b.table[id].handovers
  {
    StartChangesOne(b, id, true, true, now);
  }

  function OwnToken(c: Client): Option<Info> {
    Some(Info(Some(c.token), false))
  }

  lemma ReconnectRestores(b: Broker, id: string, now: int)
    requires Good(b) && id in b.table && !b.table[id].session
    ensures Returning(b, OwnToken(b.table[id]).value) == Some(id)
    ensures Delegate(b, OwnToken(b.table[id]), 0, now).0 == b.(table := b.table[id := b.table[id].(connection := true, lastActivity := now)])
  {
    assert GoodClient(id, b.table[id]);
  }

  lemma MakeTakeable(events: seq<Event>, id: string, now: int) returns (more: seq<Event>)
    requires Possible(events) && id in Run(events).broker.table
    requires Run(events).broker.table[id].isAssigned && Run(events).broker.table[id].handovers == 0
    ensures Possible(events + more) && Takeable(Run(events + more).broker, id) && AllAt(more, now)
  {
    hide Possible, Run, Good, StartHandover, Delegate;
    var starts := Starts(id, true, true, now);
    Extend(events, starts);
    RedirectEndsSession(Run(events).broker, id, now);
    var b := Run(events + [starts]).broker;
    RunInv(events + [starts]);
    ReconnectRestores(b, id, now);
    var connects := Connects(OwnToken(b.table[id]), 0, now);
    Extend(events + [starts], connects);
    RunInv(events + [starts] + [connects]);
    more := [starts] + [connects];
    assert events + more == events + [starts] + [connects];
  }

  /** After its first hand-over a client waits again, or has left because the queue is full. */
  lemma TakeReleasesOrDrops(b: Broker, id: string, now: int)
    requires Takeable(b, id)
    ensures var b' := TakeClient(b, id, true, now, now).0;
      id in b'.table ==> b'.table[id] == Released(b.table[id]).(lastActivity := now)
  {
    TakeReleases(b, id, now, now);
    ReleasePrepares(b, id, now);
    var b1 := b.(table := b.table[id := Released(b.table[id]).(lastActivity := now)]);
    hide TakeClient;
    EnqueueOrDropIsGood(b1, id, now);
    hide EnqueueOrDrop, Good, GoodBut, Survivors, Stale;
  }

  lemma HeldLeaves(events: seq<Event>, id: string, now: int) returns (more: seq<Event>)
    requires Possible(events) && id in Run(events).broker.table && now > 0
    requires Run(events).broker.table[id].isAssigned && Run(events).broker.table[id].handovers == 0
    ensures Possible(events + more) && id !in Run(events + more).broker.table && Clocked(more, now)
  {
    hide Possible, Run, Good, TakeClient;
    var before := MakeTakeable(events, id, now);
    var ready := events + before;
    var takes := Takes(id, true, now, now);
    TakeReleasesOrDrops(Run(ready).broker, id, now);
    Extend(ready, takes);
    more := before + [takes];
    assert events + more == ready + [takes];
    if id in Run(events + more).broker.table {
      var last := WaitingLeaves(events + more, id, now);
      assert events + (more + last) == events + more + last;
      ClockedAfter(more, last, now);
      more := more + last;
    }
  }

  /** However the run goes on from that time. */
  ghost predicate NeverLeaves(events: seq<Event>, id: string, from: int)
    requires Possible(events)
  {
    forall more | Possible(events + more) && Clocked(more, from) :: id in Run(events + more).broker.table
  }

  /** The exact condition: a tracked client stays for good if it is held after its first hand-over; any other can still leave. */
  lemma NeverLeavesIffKept(events: seq<Event>, id: string, from: int)
    requires Possible(events) && id in Run(events).broker.table && from > 0
    ensures NeverLeaves(events, id, from) <==> Kept(Run(events).broker.table[id])
  {
    var c := Run(events).broker.table[id];
    hide Possible, Run, Clocked;
    if Kept(c) {
      forall more | Possible(events + more) ensures id in Run(events + more).broker.table {
        ServedStaysForever(events, more, id);
      }
    } else if c.isAssigned {
      var gone := HeldLeaves(events, id, from);
    } else {
      var gone := WaitingLeaves(events, id, from);
    }
  }

  // ---- A life with both hand-overs ----

  /** A broker with one client. */
  function Solo(c: Client): Broker {
    Broker(map[c.id := c], if c.isAssigned then [] else [c.id])
  }

  lemma SoloPrune(c: Client, now: int)
    requires !Stale(c, now)
    ensures Prune(Solo(c), now) == Solo(c)
  {
    var b := Solo(c);
    assert StaleIds(b.table, b.queue, now) == {};
    assert b.table - {} == b.table;
    if !c.isAssigned {
      assert b.queue == [c.id] && b.table[c.id] == c && b.queue[1..] == [];
      assert Survivors(b.table, b.queue[1..], now) == [];
      assert Survivors(b.table, b.queue, now) == [c.id] + [];
    } else {
      assert Survivors(b.table, b.queue, now) == [];
    }
  }

  /** A client as registration leaves it. */
  function Newcomer(info: Info, drawn: nat, now: int): Client {
    var (id, token) := Identity(EMPTY, info, drawn);
    Client(id, token, RemoteIdOf(EMPTY, info, drawn), info.rdstls, true, false, false, 0, now)
  }

  lemma SoloConnects(info: Info, drawn: nat, now: int)
    requires CanIdentify(EMPTY, info, drawn)
    ensures Good(EMPTY) && Acceptable(EMPTY, Some(info), drawn)
    ensures Delegate(EMPTY, Some(info), drawn, now).0 == Solo(Newcomer(info, drawn, now))
  {
    hide Identity, RemoteIdOf;
    assert Returning(EMPTY, info).None?;
    var c := Newcomer(info, drawn, now).(lastActivity := 0);
    var b := EMPTY.(table := EMPTY.table[c.id := c]);
    assert b.table == map[c.id := c];
    assert Prune(b, now) == b;
  }

  lemma SoloRequests(c: Client, now: int)
    requires !c.isAssigned && !Stale(c, now)
    ensures RequestHandover(Solo(c), now, now).0 == Solo(c.(isAssigned := true, lastActivity := now))
  {
    SoloPrune(c, now);
    hide Prune;
  }

  lemma SoloTakenOnce(c: Client, now: int)
    requires c.isAssigned && c.connection && c.handovers == 0
    ensures TakeClient(Solo(c), c.id, true, now, now).0 == Solo(Released(c).(lastActivity := now))
  {
    TakeReleases(Solo(c), c.id, now, now);
    hide TakeClient;
    var d := Released(c).(lastActivity := now);
    var b := Solo(c).(table := Solo(c).table[c.id := d]);
    assert b == Broker(map[c.id := d], []);
    assert Prune(b, now) == b;
  }

  lemma SoloTakenAgain(c: Client, now: int)
    requires c.isAssigned && c.connection && c.handovers == 1
    ensures TakeClient(Solo(c), c.id, true, now, now).0
      == Solo(c.(connection := false, session := false, handovers := 2, lastActivity := now))
  {
  }

  lemma SoloReconnects(c: Client, now: int)
    requires Good(Solo(c)) && !c.session
    ensures Acceptable(Solo(c), OwnToken(c), 0)
    ensures Delegate(Solo(c), OwnToken(c), 0, now).0 == Solo(c.(connection := true, lastActivity := now))
  {
    ReconnectRestores(Solo(c), c.id, now);
  }

  lemma Follow(events: seq<Event>, ev: Event, b: Broker) returns (all: seq<Event>)
    requires Possible(events) && Conforming(Run(events).broker, ev)
    requires Good(Run(events).broker) ==> Act(Run(events).broker, ev) == b
    ensures Possible(all) && Run(all).broker == b && Good(b) && all == events + [ev]
  {
    hide Possible, Run, Good, Act, Conforming;
    Extend(events, ev);
    RunInv(events + [ev]);
    all := events + [ev];
  }

  /** Whatever connects first, an ordinary two-stage hand-over ends with a client that is kept. */
  lemma TwoStagesEndKept(info: Info, drawn: nat, now: int) returns (events: seq<Event>, id: string)
    requires CanIdentify(EMPTY, info, drawn)
    ensures Possible(events) && id in Run(events).broker.table
    ensures Kept(Run(events).broker.table[id]) && Run(events).broker.table[id].handovers == 2
  {
    hide Good, Delegate, RequestHandover, TakeClient, Returning, Run, Possible;
    var c1 := Newcomer(info, drawn, now);
    id := c1.id;
    SoloConnects(info, drawn, now);
    assert Possible([]) && Run([]).broker == EMPTY by { EmptyRun(); }
    var e1 := Follow([], Connects(Some(info), drawn, now), Solo(c1));
    var c2 := c1.(isAssigned := true);
    SoloRequests(c1, now);
    var e2 := Follow(e1, Requests(now, now), Solo(c2));
    var c3 := Released(c2);
    SoloTakenOnce(c2, now);
    var e3 := Follow(e2, Takes(id, true, now, now), Solo(c3));
    var c4 := c3.(connection := true);
    SoloReconnects(c3, now);
    var e4 := Follow(e3, Connects(OwnToken(c3), 0, now), Solo(c4));
    var c5 := c4.(isAssigned := true);
    SoloRequests(c4, now);
    var e5 := Follow(e4, Requests(now, now), Solo(c5));
    SoloTakenAgain(c5, now);
    events := Follow(e5, Takes(id, true, now, now), Solo(c5.(connection := false, handovers := 2)));
  }

  lemma EmptyRun()
    ensures Possible([]) && Run([]).broker == EMPTY
  {}

  // ---- A token in use ----

  lemma SoloReady(c: Client, now: int)
    ensures SessionReady(Solo(c), c.id, true, now) == Solo(c.(session := true, lastActivity := now))
  {}

  /** The next connection with this token becomes a new client whose number is not its own. */
  ghost predicate Mismatches(b: Broker, info: Info, drawn: nat, now: int)
    requires Good(b)
  {
    && Acceptable(b, Some(info), drawn) && TakenBySession(b, info)
    && var (b', handling) := Delegate(b, Some(info), drawn, now);
       && handling.GoesOn? && b'.queue != []
       && var id := b'.queue[|b'.queue| - 1];
          id !in b.table && id in b'.table && IdOf(b'.table[id].remoteId) != id
  }

  lemma SoloMismatches(c: Client, info: Info, drawn: nat, now: int)
    requires Good(Solo(c)) && c.session && !c.isAssigned && !Stale(c, now)
    requires info.token.Some? && Parse(info.token.value).Some? && IdOf(Parse(info.token.value).value) == c.id
    requires 1 <= drawn <= HandoverIds.MAX_TOKEN && IdOf(drawn) != c.id
    ensures Mismatches(Solo(c), info, drawn, now)
  {
    SoloPrune(c, now);
    hide Good, Prune;
    assert CanIdentify(Solo(c), info, drawn) && Acceptable(Solo(c), Some(info), drawn);
    RefusedLeavesNoTrace(Solo(c), info, drawn, now);
    assert TakenBySession(Solo(c), info);
    assert Delegate(Solo(c), Some(info), drawn, now).1.GoesOn?;
    hide Register, Delegate, Acceptable, TakenBySession;
    RemoteIdMatchesIff(Solo(c), info, drawn, now);
  }

  /** The client that registers with a valid token goes by its path. */
  lemma NewcomerId(info: Info, drawn: nat, now: int)
    requires info.token.Some? && Parse(info.token.value).Some?
    ensures CanIdentify(EMPTY, info, drawn) && Newcomer(info, drawn, now).id == IdOf(Parse(info.token.value).value)
  {
  }

  lemma DistinctPaths(a: nat, b: nat)
    requires 1 <= a <= HandoverIds.MAX_TOKEN && a != b
    ensures IdOf(b) != IdOf(a)
  {
    TokenRoundTrip(a);
  }

  /** The client a first connection makes, once its session has started. */
  function Started(info: Info, drawn: nat, now: int): Client {
    Newcomer(info, drawn, now).(session := true)
  }

  function Opening(info: Info, drawn: nat, now: int): seq<Event> {
    [] + [Connects(Some(info), drawn, now)] + [Ready(Newcomer(info, drawn, now).id, true, now)]
  }

  lemma OpeningClocked(info: Info, drawn: nat, now: int)
    ensures Clocked(Opening(info, drawn, now), now)
  {}

  lemma InSession(info: Info, drawn: nat, now: int)
    requires CanIdentify(EMPTY, info, drawn)
    ensures var events := Opening(info, drawn, now);
      Possible(events) && Good(Run(events).broker) && Run(events).broker == Solo(Started(info, drawn, now))
  {
    SoloConnects(info, drawn, now);
    EmptyRun();
    SoloReady(Newcomer(info, drawn, now), now);
    NewcomerTime(info, drawn, now);
    hide Good, Delegate, SessionReady, Run, Possible, Acceptable, Newcomer, Identity, RemoteIdOf, CanIdentify;
    var c := Newcomer(info, drawn, now);
    var e1 := Follow([], Connects(Some(info), drawn, now), Solo(c));
    var e2 := Follow(e1, Ready(c.id, true, now), Solo(Started(info, drawn, now)));
  }

  lemma NewcomerTime(info: Info, drawn: nat, now: int)
    ensures Newcomer(info, drawn, now).lastActivity == now && !Newcomer(info, drawn, now).isAssigned
  {}

  /** Any valid token gets there: connect with it, let the session start, connect with it again. */
  lemma MismatchIsReachable(info: Info, drawn: nat, now: int) returns (events: seq<Event>)
    requires info.token.Some? && Parse(info.token.value).Some?
    requires 1 <= drawn <= HandoverIds.MAX_TOKEN && drawn != Parse(info.token.value).value
    ensures Possible(events) && Clocked(events, now) && Good(Run(events).broker)
    ensures Mismatches(Run(events).broker, info, drawn, now)
  {
    DistinctPaths(drawn, Parse(info.token.value).value);
    NewcomerId(info, drawn, now);
    NewcomerTime(info, drawn, now);
    InSession(info, drawn, now);
    OpeningClocked(info, drawn, now);
    hide Good, Run, Possible, CanIdentify, Mismatches, Clocked, Opening, IdOf, Parse, Newcomer;
    events := Opening(info, drawn, now);
    SoloMismatches(Started(info, drawn, now), info, drawn, now);
  }
}
