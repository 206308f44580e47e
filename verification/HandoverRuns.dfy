/**
  Every run of the handover broker: who is in the table, who waits and in which order, and how
  often a client is handed out between entering the table and leaving it.
 */
module HandoverRuns {
  import opened Wrappers
  import opened HandoverIds
  import opened HandoverBroker

  /** `joined` is the step at which a waiting client entered the queue, `dispatched` how often a tracked client was handed out. */
  datatype World = World(broker: Broker, joined: map<string, nat>, dispatched: map<string, nat>, step: nat)

  datatype Event =
    | Connects(peeked: Option<Info>, drawn: nat, now: int)
    | Ready(id: string, touched: bool, now: int)
    | Requests(pruneTime: int, now: int)
    | Starts(id: string, tls: bool, redirected: bool, now: int)
    | Takes(id: string, passed: bool, touchTime: int, now: int)

  /** Handover daemons only call on objects that were handed to them; identities are drawn until one is free. */
  predicate Conforming(b: Broker, ev: Event) {
    match ev
    case Connects(peeked, drawn, _) => Acceptable(b, peeked, drawn)
    case Starts(id, _, _, _) => id in b.table && b.table[id].isAssigned
    case Takes(id, _, _, _) => id in b.table && b.table[id].isAssigned
    case _ => true
  }

  ghost function Act(b: Broker, ev: Event): Broker
    requires Good(b) && Conforming(b, ev)
  {
    match ev
    case Connects(peeked, drawn, now) => Delegate(b, peeked, drawn, now).0
    case Ready(id, touched, now) => SessionReady(b, id, touched, now)
    case Requests(pruneTime, now) => RequestHandover(b, pruneTime, now).0
    case Starts(id, tls, redirected, now) => StartHandover(b, id, tls, redirected, now).0
    case Takes(id, passed, touchTime, now) => TakeClient(b, id, passed, touchTime, now).0
  }

  function Dispatch(b: Broker, ev: Event): Option<string> {
    if ev.Requests? then RequestHandover(b, ev.pruneTime, ev.now).1 else None
  }

  function Joined(w: World, queue: seq<string>): map<string, nat> {
    map id | id in queue :: if id in w.broker.queue && id in w.joined then w.joined[id] else w.step
  }

  function Counted(w: World, table: map<string, Client>, dispatch: Option<string>): map<string, nat> {
    map id | id in table ::
      (if id in w.broker.table && id in w.dispatched then w.dispatched[id] else 0) + (if dispatch == Some(id) then 1 else 0)
  }

  ghost function Next(w: World, ev: Event): World
    requires Good(w.broker) && Conforming(w.broker, ev)
  {
    var b := Act(w.broker, ev);
    World(b, Joined(w, b.queue), Counted(w, b.table, Dispatch(w.broker, ev)), w.step + 1)
  }

  ghost predicate Enabled(w: World, ev: Event) {
    Good(w.broker) && Conforming(w.broker, ev)
  }

  ghost predicate Possible(events: seq<Event>)
    decreases |events|, 0
  {
    events == [] || (Possible(events[..|events| - 1]) && Enabled(Run(events[..|events| - 1]), events[|events| - 1]))
  }

  ghost function Run(events: seq<Event>): World
    requires Possible(events)
    decreases |events|, 1
  {
    if events == [] then World(EMPTY, map[], map[], 0)
    else Next(Run(events[..|events| - 1]), events[|events| - 1])
  }

  // ---- Pruning and the queue ----

  ghost predicate Ordered(queue: seq<string>, rank: map<string, nat>) {
    && (forall i | 0 <= i < |queue| :: queue[i] in rank)
    && (forall i, j | 0 <= i < j < |queue| :: rank[queue[i]] < rank[queue[j]])
  }

  /** Survivors keep the order they had: whatever rises along the queue still rises along what is left. */
  lemma {:induction false} SurvivorsKeepOrder(table: map<string, Client>, queue: seq<string>, now: int, rank: map<string, nat>)
    requires Ordered(queue, rank)
    ensures Ordered(Survivors(table, queue, now), rank)
  {
    if queue != [] {
      var rest := Survivors(table, queue[1..], now);
      SurvivorsKeepOrder(table, queue[1..], now, rank);
      SurvivorsAre(table, queue[1..], now);
      forall i | 0 <= i < |rest| ensures rank[queue[0]] < rank[rest[i]] {
        assert rest[i] in rest;
        assert rest[i] in queue[1..];
      }
    }
  }

  /** Pruning drops from table and queue exactly the unassigned waiting clients idle for thirty seconds. */
  lemma PruneRemovesTheStale(b: Broker, now: int)
    requires Good(b)
    ensures var p := Prune(b, now);
      && Good(p)
      && (forall id | id in b.table :: id in p.table <==> !(id in b.queue && b.table[id].lastActivity > 0 && now - b.table[id].lastActivity >= 30_000_000))
      && (forall id | id in p.table :: id in b.table && p.table[id] == b.table[id])
      && (forall id :: id in p.queue <==> id in b.queue && id in p.table)
      && (forall rank | Ordered(b.queue, rank) :: Ordered(p.queue, rank))
  {
    SurvivorsAre(b.table, b.queue, now);
    forall rank | Ordered(b.queue, rank) ensures Ordered(Prune(b, now).queue, rank) {
      SurvivorsKeepOrder(b.table, b.queue, now, rank);
    }
  }

  // ---- One client joins the queue ----

  /** Everything but `id` is as it should be; `id` is tracked but does not wait. */
  ghost predicate GoodBut(b: Broker, id: string) {
    && Distinct(b.queue) && |b.queue| <= MAX_PENDING
    && id in b.table && id !in b.queue
    && (forall other | other in b.queue :: other in b.table)
    && (forall other | other in b.table :: GoodClient(other, b.table[other]))
    && (forall other | other in b.table && other != id :: other in b.queue <==> !b.table[other].isAssigned)
  }

  /** What queueing, or dropping on a full queue, makes of an unassigned client. */
  ghost function EnqueueOrDrop(b: Broker, id: string, now: int): Broker
    requires id in b.table && id !in b.queue
  {
    var (b1, ok) := Enqueue(b, id, now);
    if ok then b1 else Remove(b1, id)
  }

  lemma PruneAround(b: Broker, id: string, now: int)
    requires GoodBut(b, id)
    ensures var p := Prune(b, now);
      && GoodBut(p, id)
      && (forall other | other in p.table :: other in b.table && p.table[other] == b.table[other])
      && (forall other | other in b.table :: other in p.table <==> !(other in b.queue && Stale(b.table[other], now)))
  {
    SurvivorsAre(b.table, b.queue, now);
  }

  lemma DropsGood(b: Broker, id: string)
    requires GoodBut(b, id)
    ensures Good(Remove(b, id)) && Remove(b, id) == Broker(b.table - {id}, b.queue)
  {
    WithoutRemovesOne(b.queue, id);
  }

  lemma JoinsGood(b: Broker, id: string, now: int)
    requires GoodBut(b, id) && !b.table[id].isAssigned && |b.queue| < MAX_PENDING
    ensures Good(Touch(b, id, now).(queue := b.queue + [id]))
  {
  }

  lemma EnqueueOrDropIs(b: Broker, id: string, now: int)
    requires GoodBut(b, id) && !b.table[id].isAssigned
    ensures var p := Prune(b, now);
      && id in p.table
      && EnqueueOrDrop(b, id, now) == if |p.queue| < MAX_PENDING then Touch(p, id, now).(queue := p.queue + [id]) else Broker(p.table - {id}, p.queue)
  {
    PruneAround(b, id, now);
    var p := Prune(b, now);
    hide Prune, Good, Without;
    if |p.queue| >= MAX_PENDING {
      DropsGood(p, id);
      hide Remove, GoodBut;
    }
  }

  lemma EnqueueOrDropGood(b: Broker, id: string, now: int)
    requires GoodBut(b, id) && !b.table[id].isAssigned
    ensures Good(EnqueueOrDrop(b, id, now))
  {
    EnqueueOrDropIs(b, id, now);
    PruneAround(b, id, now);
    var p := Prune(b, now);
    hide EnqueueOrDrop, Prune, Good;
    if |p.queue| < MAX_PENDING { JoinsGood(p, id, now); } else { DropsGood(p, id); }
    hide GoodBut, Remove;
  }

  lemma EnqueueOrDropTable(b: Broker, id: string, now: int)
    requires GoodBut(b, id) && !b.table[id].isAssigned
    ensures var e := EnqueueOrDrop(b, id, now);
      && (id in e.table ==> e.table[id] == b.table[id].(lastActivity := now))
      && (forall other | other in e.table && other != id :: other in b.table && e.table[other] == b.table[other])
      && (forall other | other in b.table && other != id :: other in e.table <==> !(other in b.queue && Stale(b.table[other], now)))
  {
    EnqueueOrDropIs(b, id, now);
    PruneAround(b, id, now);
    hide EnqueueOrDrop, Prune, Good, GoodBut, Stale;
  }

  /** A client sent to a queue with room is its last element; on a full queue it leaves the table; the others only expire. */
  lemma EnqueueOrDropIsGood(b: Broker, id: string, now: int)
    requires GoodBut(b, id) && !b.table[id].isAssigned
    ensures Good(EnqueueOrDrop(b, id, now))
    ensures var e := EnqueueOrDrop(b, id, now); var left := Survivors(b.table, b.queue, now);
      && (id in e.table <==> |left| < 32)
      && e.queue == (if |left| < 32 then left + [id] else left)
      && (id in e.table ==> e.table[id] == b.table[id].(lastActivity := now))
      && (forall other | other in e.table && other != id :: other in b.table && e.table[other] == b.table[other])
      && (forall other | other in b.table && other != id :: other in e.table <==> !(other in b.queue && Stale(b.table[other], now)))
  {
    EnqueueOrDropGood(b, id, now);
    EnqueueOrDropTable(b, id, now);
    EnqueueOrDropIs(b, id, now);
    hide EnqueueOrDrop, Survivors, StaleIds, Good, GoodBut, Stale;
  }

  // ---- What every step keeps ----

  /** Handed out once for each hand-over done and once more while someone holds it, and twice at most. */
  predicate Tally(c: Client, dispatched: nat) {
    if c.isAssigned then dispatched == if c.handovers == 0 then 1 else 2
    else c.handovers <= 1 && dispatched == c.handovers
  }

  ghost predicate Inv(w: World) {
    && Good(w.broker)
    && Ordered(w.broker.queue, w.joined)
    && (forall id | id in w.joined :: w.joined[id] < w.step)
    && (forall id | id in w.broker.table :: id in w.dispatched && Tally(w.broker.table[id], w.dispatched[id]))
  }

  /** The order of arrival survives a step that thins the queue and lets one client join its end. */
  lemma QueueInv(w: World, left: seq<string>, joins: seq<string>)
    requires Inv(w) && Ordered(left, w.joined) && |joins| <= 1
    requires forall id | id in left :: id in w.broker.queue
    requires forall id | id in joins :: id !in w.broker.queue
    ensures Ordered(left + joins, Joined(w, left + joins))
    ensures forall id | id in Joined(w, left + joins) :: Joined(w, left + joins)[id] < w.step + 1
  {
    var q, j := left + joins, Joined(w, left + joins);
    forall i | 0 <= i < |q| ensures q[i] in j && (i < |left| ==> j[q[i]] == w.joined[q[i]]) {
      assert q[i] in q;
      if i < |left| { assert left[i] in left; }
    }
    forall i, k | 0 <= i < k < |q| ensures j[q[i]] < j[q[k]] {
      assert q[i] in q && q[k] in q;
      assert left[i] in left;
      if k >= |left| { assert q[k] in joins; }
    }
  }

  ghost predicate Tallied(w: World, b: Broker, dispatch: Option<string>) {
    forall id | id in b.table :: Tally(b.table[id], Counted(w, b.table, dispatch)[id])
  }

  lemma StepInv(w: World, ev: Event, left: seq<string>, joins: seq<string>)
    requires Inv(w) && Enabled(w, ev) && Ordered(left, w.joined) && |joins| <= 1
    requires forall id | id in left :: id in w.broker.queue
    requires forall id | id in joins :: id !in w.broker.queue
    requires Good(Act(w.broker, ev)) && Act(w.broker, ev).queue == left + joins
    requires Tallied(w, Act(w.broker, ev), Dispatch(w.broker, ev))
    ensures Inv(Next(w, ev))
  {
    QueueInv(w, left, joins);
    hide Good, Act, Ordered, Conforming, Dispatch;
  }

  /** One client's record changes, the queue does not. */
  lemma UpdateInv(w: World, ev: Event, id: string, c: Client)
    requires Inv(w) && Enabled(w, ev) && !ev.Requests? && id in w.broker.table
    requires Act(w.broker, ev) == w.broker.(table := w.broker.table[id := c])
    requires GoodClient(id, c) && c.isAssigned == w.broker.table[id].isAssigned && Tally(c, w.dispatched[id])
    ensures Inv(Next(w, ev))
  {
    hide Act, Ordered, Conforming, GoodClient, Tally;
    StepInv(w, ev, w.broker.queue, []);
  }

  /** A tracked client goes on with its own count, a new one starts at none. */
  function SoFar(w: World, id: string): nat {
    if id in w.broker.table && id in w.dispatched then w.dispatched[id] else 0
  }

  ghost predicate Joins(w: World, b: Broker, id: string) {
    && GoodBut(b, id) && !b.table[id].isAssigned && b.queue == w.broker.queue
    && Tally(b.table[id], SoFar(w, id))
    && forall other | other in b.table && other != id :: other in w.broker.table && b.table[other] == w.broker.table[other]
  }

  lemma JoinTallied(w: World, b: Broker, id: string, now: int)
    requires Inv(w) && Joins(w, b, id)
    ensures Tallied(w, EnqueueOrDrop(b, id, now), None)
  {
    EnqueueOrDropIsGood(b, id, now);
    hide EnqueueOrDrop, Survivors, Stale, Good, Ordered, GoodClient;
  }

  lemma JoinInv(w: World, ev: Event, b: Broker, id: string, now: int)
    requires Inv(w) && Enabled(w, ev) && !ev.Requests? && Joins(w, b, id)
    requires Act(w.broker, ev) == EnqueueOrDrop(b, id, now)
    ensures Inv(Next(w, ev))
  {
    JoinTallied(w, b, id, now);
    EnqueueOrDropIsGood(b, id, now);
    SurvivorsAre(b.table, b.queue, now);
    SurvivorsKeepOrder(b.table, b.queue, now, w.joined);
    var left := Survivors(b.table, b.queue, now);
    hide Act, Ordered, Conforming, GoodClient, Good, EnqueueOrDrop, Survivors, Stale, Tallied, Tally, Next;
    StepInv(w, ev, left, if |left| < 32 then [id] else []);
  }

  lemma AdmitGoodBut(b: Broker, info: Info, drawn: nat)
    requires Good(b) && CanIdentify(b, info, drawn)
    ensures GoodBut(Admit(b, info, drawn).0, Admit(b, info, drawn).1) && Admit(b, info, drawn).1 !in b.table
  {
    IdentityIsNew(b, info, drawn);
    hide Identity, RemoteIdOf, Distinct;
  }

  lemma AdmitJoins(w: World, info: Info, drawn: nat)
    requires Inv(w) && CanIdentify(w.broker, info, drawn)
    ensures Joins(w, Admit(w.broker, info, drawn).0, Admit(w.broker, info, drawn).1)
  {
    AdmitGoodBut(w.broker, info, drawn);
    hide Identity, RemoteIdOf, GoodBut, Good, Ordered;
  }

  lemma RegisterJoins(b: Broker, info: Info, drawn: nat, now: int)
    requires Good(b) && CanIdentify(b, info, drawn)
    ensures var (b1, id) := Admit(b, info, drawn);
      id in b1.table && id !in b1.queue && Register(b, info, drawn, now).0 == EnqueueOrDrop(b1, id, now)
  {
    IdentityIsNew(b, info, drawn);
    hide Identity, RemoteIdOf, Good, Enqueue;
  }

  lemma RegisterInv(w: World, ev: Event)
    requires Inv(w) && Enabled(w, ev) && ev.Connects? && ev.peeked.Some?
    requires !Delegate(w.broker, ev.peeked, ev.drawn, ev.now).1.TakeClientReady?
    ensures Inv(Next(w, ev))
  {
    AdmitJoins(w, ev.peeked.value, ev.drawn);
    RegisterJoins(w.broker, ev.peeked.value, ev.drawn, ev.now);
    var (b, id) := Admit(w.broker, ev.peeked.value, ev.drawn);
    hide Joins, Next, EnqueueOrDrop, Admit, Register;
    JoinInv(w, ev, b, id, ev.now);
  }

  lemma ConnectsInv(w: World, ev: Event)
    requires Inv(w) && Enabled(w, ev) && ev.Connects?
    ensures Inv(Next(w, ev))
  {
    var (b, handling) := Delegate(w.broker, ev.peeked, ev.drawn, ev.now);
    if ev.peeked.None? {
      StepInv(w, ev, w.broker.queue, []);
    } else if handling.TakeClientReady? {
      UpdateInv(w, ev, handling.id, b.table[handling.id]);
    } else {
      RegisterInv(w, ev);
    }
  }

  lemma PopGood(b: Broker, now: int)
    requires Good(b) && b.queue != []
    ensures Good(Popped(b, now))
  {
    assert b.queue == [b.queue[0]] + b.queue[1..];
  }

  lemma PopTallied(w: World, p: Broker, now: int)
    requires Inv(w) && Good(p) && p.queue != [] && p.queue[0] in w.broker.table
    requires forall id | id in p.table :: id in w.broker.table && p.table[id] == w.broker.table[id]
    ensures Tallied(w, Popped(p, now), Some(p.queue[0]))
  {
    assert !w.broker.table[p.queue[0]].isAssigned;
    hide Good, Ordered;
  }

  lemma TailOrdered(queue: seq<string>, rank: map<string, nat>)
    requires Ordered(queue, rank) && queue != []
    ensures Ordered(queue[1..], rank)
  {
  }

  /** The broker without the head of its queue, which somebody now holds. */
  function Popped(p: Broker, now: int): Broker
    requires p.queue != [] && p.queue[0] in p.table
  {
    Broker(p.table[p.queue[0] := p.table[p.queue[0]].(isAssigned := true, lastActivity := now)], p.queue[1..])
  }

  lemma RequestPops(b: Broker, pruneTime: int, now: int)
    requires Good(b)
    ensures var p := Prune(b, pruneTime);
      if p.queue == [] then RequestHandover(b, pruneTime, now) == (p, None)
      else p.queue[0] in p.table && RequestHandover(b, pruneTime, now) == (Popped(p, now), Some(p.queue[0]))
  {
    PruneRemovesTheStale(b, pruneTime);
    hide Prune, Ordered, GoodClient;
  }

  lemma RequestsInv(w: World, ev: Event)
    requires Inv(w) && Enabled(w, ev) && ev.Requests?
    ensures Inv(Next(w, ev))
  {
    PruneRemovesTheStale(w.broker, ev.pruneTime);
    RequestPops(w.broker, ev.pruneTime, ev.now);
    var p := Prune(w.broker, ev.pruneTime);
    assert Ordered(p.queue, w.joined);
    hide Prune, Next, Ordered, Tally, RequestHandover;
    if p.queue == [] {
      StepInv(w, ev, [], []);
    } else {
      PopGood(p, ev.now);
      PopTallied(w, p, ev.now);
      TailOrdered(p.queue, w.joined);
      hide Good, Tallied, Popped;
      StepInv(w, ev, p.queue[1..], []);
    }
  }

  /** The same client, perhaps after more hand-overs. */
  ghost predicate SameLife(c: Client, c': Client) {
    c'.id == c.id && c'.token == c.token && c'.remoteId == c.remoteId && c'.rdstls == c.rdstls && c.handovers <= c'.handovers
  }

  /** A change of one record that leaves it where it is. */
  ghost predicate Keeps(c: Client, c': Client) {
    SameLife(c, c') && c'.isAssigned == c.isAssigned
    && (c'.handovers == c.handovers || (c.isAssigned && c.handovers > 0 && c'.handovers == c.handovers + 1))
  }

  ghost predicate ChangesOne(b: Broker, b': Broker, id: string) {
    id in b.table && id in b'.table && b' == b.(table := b.table[id := b'.table[id]]) && Keeps(b.table[id], b'.table[id])
  }

  lemma ChangeInv(w: World, ev: Event, id: string)
    requires Inv(w) && Enabled(w, ev) && !ev.Requests? && ChangesOne(w.broker, Act(w.broker, ev), id)
    ensures Inv(Next(w, ev))
  {
    hide Act, Ordered, Conforming, Next;
    UpdateInv(w, ev, id, Act(w.broker, ev).table[id]);
  }

  lemma TakeChangesOne(b: Broker, id: string, passed: bool, touchTime: int, now: int)
    requires id in b.table && id !in b.queue && b.table[id].isAssigned
    requires !b.table[id].connection || !passed || b.table[id].handovers > 0
    ensures ChangesOne(b, TakeClient(b, id, passed, touchTime, now).0, id)
  {
    var c := b.table[id].(lastActivity := touchTime);
    var d := c.(connection := false, session := false, handovers := c.handovers + 1);
    assert b.table[id := c][id := d] == b.table[id := d];
    hide Enqueue;
  }

  lemma StartChangesOne(b: Broker, id: string, tls: bool, redirected: bool, now: int)
    requires id in b.table && b.table[id].isAssigned
    ensures ChangesOne(b, StartHandover(b, id, tls, redirected, now).0, id)
  {
    var c := b.table[id].(lastActivity := now);
    var d := c.(session := false, connection := false, isAssigned := true);
    assert b.table[id := c][id := d] == b.table[id := d];
  }

  lemma TakesInv(w: World, ev: Event)
    requires Inv(w) && Enabled(w, ev) && ev.Takes?
    ensures Inv(Next(w, ev))
  {
    var c := w.broker.table[ev.id];
    if !c.connection || !ev.passed || c.handovers > 0 {
      TakeChangesOne(w.broker, ev.id, ev.passed, ev.touchTime, ev.now);
      hide Next, Ordered, TakeClient, ChangesOne;
      ChangeInv(w, ev, ev.id);
    } else {
      RequeueInv(w, ev);
    }
  }

  /** The client as it goes back to the queue after its first hand-over. */
  function Released(c: Client): Client {
    c.(connection := false, session := false, handovers := c.handovers + 1, isAssigned := false)
  }

  lemma ReleaseJoins(w: World, id: string, now: int)
    requires Inv(w) && id in w.broker.table && w.broker.table[id].isAssigned && w.broker.table[id].handovers == 0
    ensures Joins(w, w.broker.(table := w.broker.table[id := Released(w.broker.table[id]).(lastActivity := now)]), id)
  {
    hide Ordered;
  }

  lemma TakeReleases(b: Broker, id: string, touchTime: int, now: int)
    requires id in b.table && id !in b.queue && b.table[id].connection && b.table[id].handovers == 0
    ensures TakeClient(b, id, true, touchTime, now).0
      == EnqueueOrDrop(b.(table := b.table[id := Released(b.table[id]).(lastActivity := touchTime)]), id, now)
  {
    var c := b.table[id].(lastActivity := touchTime);
    assert b.table[id := c][id := Released(c)] == b.table[id := Released(c)];
    hide Enqueue;
  }

  lemma RequeueInv(w: World, ev: Event)
    requires Inv(w) && Enabled(w, ev) && ev.Takes? && ev.passed
    requires w.broker.table[ev.id].connection && w.broker.table[ev.id].handovers == 0
    ensures Inv(Next(w, ev))
  {
    ReleaseJoins(w, ev.id, ev.touchTime);
    TakeReleases(w.broker, ev.id, ev.touchTime, ev.now);
    hide Joins, Next, EnqueueOrDrop, TakeClient;
    JoinInv(w, ev, w.broker.(table := w.broker.table[ev.id := Released(w.broker.table[ev.id]).(lastActivity := ev.touchTime)]), ev.id, ev.now);
  }

  lemma OthersInv(w: World, ev: Event)
    requires Inv(w) && Enabled(w, ev) && (ev.Ready? || ev.Starts?)
    ensures Inv(Next(w, ev))
  {
    if ev.Ready? && ev.id !in w.broker.table {
      StepInv(w, ev, w.broker.queue, []);
    } else {
      if ev.Starts? { StartChangesOne(w.broker, ev.id, ev.tls, ev.redirected, ev.now); }
      assert ChangesOne(w.broker, Act(w.broker, ev), ev.id);
      hide Next, Ordered, StartHandover, SessionReady, ChangesOne;
      ChangeInv(w, ev, ev.id);
    }
  }

  lemma NextInv(w: World, ev: Event)
    requires Inv(w) && Enabled(w, ev)
    ensures Inv(Next(w, ev))
  {
    hide Inv, Next, Enabled;
    match ev
    case Connects(_, _, _) => ConnectsInv(w, ev);
    case Requests(_, _) => RequestsInv(w, ev);
    case Takes(_, _, _, _) => TakesInv(w, ev);
    case _ => OthersInv(w, ev);
  }

  lemma {:induction false} RunInv(events: seq<Event>)
    requires Possible(events)
    ensures Inv(Run(events))
  {
    if events != [] {
      RunInv(events[..|events| - 1]);
      hide Inv, Next;
      NextInv(Run(events[..|events| - 1]), events[|events| - 1]);
    }
  }

  // ---- What holds in every run ----

  /** No client waits twice, at most 32 wait, and those waiting are exactly the tracked clients nobody holds. */
  lemma TableAndQueueAgree(events: seq<Event>)
    requires Possible(events)
    ensures var b := Run(events).broker;
      && (forall i, j | 0 <= i < j < |b.queue| :: b.queue[i] != b.queue[j])
      && |b.queue| <= 32
      && (forall id :: id in b.queue <==> id in b.table && !b.table[id].isAssigned)
      && (forall id | id in b.table :: b.table[id].id == id)
  {
    RunInv(events);
    hide Run;
  }

  /** However often daemons call, nobody is handed out a third time. */
  lemma DispatchedAtMostTwice(events: seq<Event>, id: string)
    requires Possible(events) && id in Run(events).broker.table
    ensures id in Run(events).dispatched && Run(events).dispatched[id] <= 2
    ensures id in Run(events).broker.queue ==> Run(events).dispatched[id] <= 1
  {
    RunInv(events);
    hide Run;
  }

  /** A tracked client is found again by the token it was given. */
  lemma OwnTokenFinds(events: seq<Event>, id: string)
    requires Possible(events) && id in Run(events).broker.table
    ensures FindByToken(Run(events).broker, Run(events).broker.table[id].token) == Some(id)
  {
    RunInv(events);
    hide Run;
  }

  predicate Fresh(b: Broker, id: string, now: int) {
    id in b.queue && id in b.table && !Stale(b.table[id], now)
  }

  /** `reply` joined the queue before every other client that is not stale; no reply means that there is none. */
  ghost predicate FirstInLine(w: World, pruneTime: int, reply: Option<string>) {
    match reply
    case None => forall id :: !Fresh(w.broker, id, pruneTime)
    case Some(first) =>
      && Fresh(w.broker, first, pruneTime) && first in w.joined
      && (forall other | Fresh(w.broker, other, pruneTime) :: other in w.joined && w.joined[first] <= w.joined[other])
  }

  lemma PrunedQueueIsFresh(b: Broker, now: int)
    requires Good(b)
    ensures forall id :: id in Prune(b, now).queue <==> Fresh(b, id, now)
    ensures forall id | id in Prune(b, now).queue :: id in Prune(b, now).table
  {
    SurvivorsAre(b.table, b.queue, now);
  }

  lemma HeadIsFirst(w: World, pruneTime: int, queue: seq<string>)
    requires Ordered(queue, w.joined)
    requires forall id :: id in queue <==> Fresh(w.broker, id, pruneTime)
    ensures FirstInLine(w, pruneTime, if queue == [] then None else Some(queue[0]))
  {
    hide Fresh;
  }

  /** A request is answered with the client that joined the queue first among those not yet stale, or all were stale. */
  lemma LongestWaitingFirst(events: seq<Event>, pruneTime: int, now: int)
    requires Possible(events)
    ensures FirstInLine(Run(events), pruneTime, RequestHandover(Run(events).broker, pruneTime, now).1)
  {
    RunInv(events);
    var w := Run(events);
    hide Run, Fresh, Stale;
    PrunedQueueIsFresh(w.broker, pruneTime);
    SurvivorsKeepOrder(w.broker.table, w.broker.queue, pruneTime, w.joined);
    HeadIsFirst(w, pruneTime, Prune(w.broker, pruneTime).queue);
  }

  // ---- Lives ----

  /** Held after its first hand-over: only another hand-over could release it, and none does. */
  predicate Kept(c: Client) {
    c.isAssigned && c.handovers >= 1
  }

  ghost predicate LivesAt(b: Broker, b': Broker, id: string) {
    && (id in b.table && id in b'.table ==> SameLife(b.table[id], b'.table[id]))
    && (id in b'.table && id !in b.table ==> !b'.table[id].isAssigned && b'.table[id].handovers == 0)
    && (id in b.table && Kept(b.table[id]) ==> id in b'.table && Kept(b'.table[id]))
  }

  /** One step never puts a new client in an old one's place and never drops a client that is kept. */
  ghost predicate Lives(b: Broker, b': Broker) {
    forall id | id in b.table || id in b'.table :: LivesAt(b, b', id)
  }

  /** Before queueing: nobody but `id` is touched, and `id` is either new or goes on living. */
  ghost predicate PreparedAt(b: Broker, b1: Broker, id: string, other: string) {
    if other != id then (other in b1.table <==> other in b.table) && (other in b.table ==> b1.table[other] == b.table[other])
    else if id in b.table then id in b1.table && SameLife(b.table[id], b1.table[id]) && !Kept(b.table[id])
    else id in b1.table && b1.table[id].handovers == 0
  }

  ghost predicate Prepared(b: Broker, b1: Broker, id: string) {
    && GoodBut(b1, id) && !b1.table[id].isAssigned && b1.queue == b.queue
    && forall other :: PreparedAt(b, b1, id, other)
  }

  /** Others are dropped only if nobody holds them, and change in nothing. */
  ghost predicate SparesAt(b: Broker, b': Broker, id: string, other: string) {
    if other != id then
      && (other in b'.table ==> other in b.table && b'.table[other] == b.table[other])
      && (other in b.table && b.table[other].isAssigned ==> other in b'.table)
    else id in b.table && (id in b'.table ==> b'.table[id].(lastActivity := 0) == b.table[id].(lastActivity := 0))
  }

  lemma EnqueueSpares(b: Broker, id: string, now: int)
    requires GoodBut(b, id) && !b.table[id].isAssigned
    ensures forall other :: SparesAt(b, EnqueueOrDrop(b, id, now), id, other)
  {
    EnqueueOrDropIsGood(b, id, now);
    hide EnqueueOrDrop, Survivors, Distinct, GoodClient, Good, GoodBut;
  }

  lemma JoinLivesAt(b: Broker, b1: Broker, b': Broker, id: string, other: string)
    requires PreparedAt(b, b1, id, other) && SparesAt(b1, b', id, other)
    requires id in b1.table && !b1.table[id].isAssigned
    ensures LivesAt(b, b', other)
  {
  }

  lemma JoinLives(b: Broker, b1: Broker, id: string, now: int)
    requires Prepared(b, b1, id)
    ensures Lives(b, EnqueueOrDrop(b1, id, now))
  {
    EnqueueSpares(b1, id, now);
    var b' := EnqueueOrDrop(b1, id, now);
    hide EnqueueOrDrop, Good, GoodBut, PreparedAt, SparesAt, LivesAt;
    forall other | other in b.table || other in b'.table ensures LivesAt(b, b', other) {
      JoinLivesAt(b, b1, b', id, other);
    }
  }

  lemma ChangeLives(b: Broker, b': Broker, id: string)
    requires ChangesOne(b, b', id)
    ensures Lives(b, b')
  {
  }

  lemma ConnectLives(b: Broker, info: Info, drawn: nat, now: int)
    requires Good(b) && Acceptable(b, Some(info), drawn)
    ensures Lives(b, Delegate(b, Some(info), drawn, now).0)
  {
    if !Delegate(b, Some(info), drawn, now).1.TakeClientReady? {
      AdmitPrepares(b, info, drawn);
      RegisterJoins(b, info, drawn, now);
      JoinLives(b, Admit(b, info, drawn).0, Admit(b, info, drawn).1, now);
      hide Lives, Prepared, Good, CanIdentify, EnqueueOrDrop, Admit, Register;
    } else {
      hide Good, CanIdentify, Register;
    }
  }

  lemma TakeLives(b: Broker, id: string, passed: bool, touchTime: int, now: int)
    requires Good(b) && id in b.table && b.table[id].isAssigned
    ensures Lives(b, TakeClient(b, id, passed, touchTime, now).0)
  {
    if b.table[id].connection && passed && b.table[id].handovers == 0 {
      ReleasePrepares(b, id, touchTime);
      TakeReleases(b, id, touchTime, now);
      hide TakeClient, EnqueueOrDrop, Lives, Prepared, Good;
      JoinLives(b, b.(table := b.table[id := Released(b.table[id]).(lastActivity := touchTime)]), id, now);
    } else {
      TakeChangesOne(b, id, passed, touchTime, now);
      hide TakeClient, Good, Lives, ChangesOne;
      ChangeLives(b, TakeClient(b, id, passed, touchTime, now).0, id);
    }
  }

  lemma RequestLives(b: Broker, pruneTime: int, now: int)
    requires Good(b)
    ensures Lives(b, RequestHandover(b, pruneTime, now).0)
  {
    PruneRemovesTheStale(b, pruneTime);
    hide Prune, Distinct, GoodClient;
  }

  lemma StepLives(b: Broker, ev: Event)
    requires Good(b) && Conforming(b, ev)
    ensures Lives(b, Act(b, ev))
  {
    hide Delegate, RequestHandover, TakeClient, StartHandover, Good, Lives;
    match ev
    case Connects(peeked, drawn, now) =>
      if peeked.Some? { ConnectLives(b, peeked.value, drawn, now); } else { SameLives(b, drawn, now); }
    case Requests(pruneTime, now) => RequestLives(b, pruneTime, now);
    case Takes(id, passed, touchTime, now) => TakeLives(b, id, passed, touchTime, now);
    case Starts(id, tls, redirected, now) =>
      StartChangesOne(b, id, tls, redirected, now);
      ChangeLives(b, Act(b, ev), id);
    case Ready(id, touched, now) => ReadyLives(b, id, touched, now);
  }

  lemma SameLives(b: Broker, drawn: nat, now: int)
    requires Good(b)
    ensures Lives(b, Delegate(b, None, drawn, now).0)
  {
    hide Good;
  }

  lemma ReadyLives(b: Broker, id: string, touched: bool, now: int)
    ensures Lives(b, SessionReady(b, id, touched, now))
  {
  }

  lemma AdmitPrepares(b: Broker, info: Info, drawn: nat)
    requires Good(b) && CanIdentify(b, info, drawn)
    ensures Prepared(b, Admit(b, info, drawn).0, Admit(b, info, drawn).1)
  {
    AdmitGoodBut(b, info, drawn);
    hide Identity, RemoteIdOf, GoodBut, Good;
  }

  lemma ReleasePrepares(b: Broker, id: string, now: int)
    requires Good(b) && id in b.table && b.table[id].isAssigned && b.table[id].handovers == 0
    ensures Prepared(b, b.(table := b.table[id := Released(b.table[id]).(lastActivity := now)]), id)
  {
  }

  /** In a run, an identity in use is never given to somebody else. */
  lemma NeverOverwritten(events: seq<Event>, ev: Event)
    requires Possible(events) && Enabled(Run(events), ev)
    ensures Lives(Run(events).broker, Next(Run(events), ev).broker)
  {
    RunInv(events);
    StepLives(Run(events).broker, ev);
  }

  /** A client dispatched again after its first hand-over is never dropped: it keeps its place in the table,
      and its token, for good, and is never handed out again. */
  lemma {:induction false} ServedStaysForever(events: seq<Event>, more: seq<Event>, id: string)
    requires Possible(events) && Possible(events + more)
    requires id in Run(events).broker.table && Kept(Run(events).broker.table[id])
    ensures id in Run(events + more).broker.table
    ensures SameLife(Run(events).broker.table[id], Run(events + more).broker.table[id])
    ensures Kept(Run(events + more).broker.table[id]) && id !in Run(events + more).broker.queue
  {
    RunInv(events);
    RunInv(events + more);
    if more == [] {
      assert events + more == events;
      hide Run;
    } else {
      var last := |more| - 1;
      LastStep(events, more);
      ServedStaysForever(events, more[..last], id);
      NeverOverwritten(events + more[..last], more[last]);
      hide Run, Next, Inv, Possible;
    }
  }

  /** Two hand-overs are one way to be kept. */
  lemma HandedOverTwiceIsKept(events: seq<Event>, id: string)
    requires Possible(events) && id in Run(events).broker.table && Run(events).broker.table[id].handovers >= 2
    ensures Kept(Run(events).broker.table[id])
  {
    RunInv(events);
    hide Run;
  }

  lemma LastStep(events: seq<Event>, more: seq<Event>)
    requires more != [] && Possible(events + more)
    ensures var before := events + more[..|more| - 1]; var ev := more[|more| - 1];
      && Possible(before) && Enabled(Run(before), ev) && Run(events + more) == Next(Run(before), ev)
  {
    var all, before := events + more, events + more[..|more| - 1];
    hide Possible, Run, Enabled, Next;
    assert all[..|all| - 1] == before && all[|all| - 1] == more[|more| - 1];
    Unfold(all);
  }

  lemma Unfold(events: seq<Event>)
    requires events != [] && Possible(events)
    ensures var before := events[..|events| - 1]; var ev := events[|events| - 1];
      Possible(before) && Enabled(Run(before), ev) && Run(events) == Next(Run(before), ev)
  {
    hide Good, Conforming, Next;
  }

  // ---- Entering ----

  /** The token is one that a client with a session already goes by. */
  predicate TakenBySession(b: Broker, info: Info) {
    && info.token.Some? && Parse(info.token.value).Some?
    && IdOf(Parse(info.token.value).value) in b.table && b.table[IdOf(Parse(info.token.value).value)].session
  }

  lemma AdmittedRemoteId(b: Broker, info: Info, drawn: nat)
    requires Good(b) && CanIdentify(b, info, drawn)
    ensures var (b1, id) := Admit(b, info, drawn);
      IdOf(b1.table[id].remoteId) == id
      <==> !(info.token.Some? && Parse(info.token.value).Some? && IdOf(Parse(info.token.value).value) in b.table)
  {
    if Draws(b, info) { TokenRoundTrip(drawn); }
  }

  /**
    The number given to the display manager leads to the new client's own object unless the token
    it sent belongs to a client in session, whose number it then carries as well.
   */
  lemma RemoteIdMatchesIff(b: Broker, info: Info, drawn: nat, now: int)
    requires Good(b) && Acceptable(b, Some(info), drawn)
    requires Delegate(b, Some(info), drawn, now).1.GoesOn?
    ensures var b' := Delegate(b, Some(info), drawn, now).0;
      && b'.queue != []
      && var id := b'.queue[|b'.queue| - 1];
         id !in b.table && id in b'.table && (IdOf(b'.table[id].remoteId) == id <==> !TakenBySession(b, info))
  {
    AdmittedRemoteId(b, info, drawn);
    AdmitGoodBut(b, info, drawn);
    RegisterAppends(b, info, drawn, now);
    hide Good, GoodBut, Admit, Register;
  }

  lemma RegisterAppends(b: Broker, info: Info, drawn: nat, now: int)
    requires Good(b) && CanIdentify(b, info, drawn) && Register(b, info, drawn, now).1
    ensures var b' := Register(b, info, drawn, now).0; var (b1, id) := Admit(b, info, drawn);
      && b'.queue != [] && b'.queue[|b'.queue| - 1] == id && id in b1.table
      && id in b'.table && b'.table[id] == b1.table[id].(lastActivity := now)
  {
    AdmitGoodBut(b, info, drawn);
    var (b1, id) := Admit(b, info, drawn);
    PruneAround(b1, id, now);
    hide Good, GoodBut, Identity, RemoteIdOf, Prune, Remove;
  }

  /** A new client is refused exactly when 32 fresh ones wait, and then nothing is left of it. */
  lemma RefusedLeavesNoTrace(b: Broker, info: Info, drawn: nat, now: int)
    requires Good(b) && CanIdentify(b, info, drawn)
    ensures Register(b, info, drawn, now).1 <==> |Prune(b, now).queue| < 32
    ensures !Register(b, info, drawn, now).1 ==> Register(b, info, drawn, now).0 == Prune(b, now)
  {
    IdentityIsNew(b, info, drawn);
    var (b1, id) := Admit(b, info, drawn);
    AdmitIgnored(b, id, b1.table[id], now);
    hide Identity, RemoteIdOf, Prune, CanIdentify;
    if |Prune(b, now).queue| >= 32 {
      PrunedWithout(b, id, now);
      hide Good;
    }
  }

  lemma PrunedWithout(b: Broker, id: string, now: int)
    requires Good(b) && id !in b.table
    ensures Without(Prune(b, now).queue, id) == Prune(b, now).queue && id !in Prune(b, now).table
  {
    SurvivorsAre(b.table, b.queue, now);
    WithoutRemovesOne(Prune(b, now).queue, id);
  }

  lemma AdmitIgnored(b: Broker, id: string, c: Client, now: int)
    requires id !in b.table && id !in b.queue
    ensures Prune(b.(table := b.table[id := c]), now) == Broker(Prune(b, now).table[id := c], Prune(b, now).queue)
  {
    SurvivorsIgnore(b.table, b.queue, now, id, c);
    assert StaleIds(b.table[id := c], b.queue, now) == StaleIds(b.table, b.queue, now);
  }

  lemma {:induction false} SurvivorsIgnore(table: map<string, Client>, queue: seq<string>, now: int, id: string, c: Client)
    requires id !in queue
    ensures Survivors(table[id := c], queue, now) == Survivors(table, queue, now)
  {
    if queue != [] {
      SurvivorsIgnore(table, queue[1..], now, id, c);
    }
  }
}
