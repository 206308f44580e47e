/**
  The system daemon: client records shared by a table and a queue, changed in place.
  `View()` is the broker value each method is proved against.
 */
module SystemDaemons {
  import opened Wrappers
  import opened HandoverIds
  import opened HandoverBroker

  class RemoteClient {
    var data: Client

    constructor (data: Client)
      ensures this.data == data
    {
      this.data := data;
    }
  }

  /** The position of a client in a queue, or its length. */
  method Find(queue: seq<RemoteClient>, client: RemoteClient) returns (k: nat)
    ensures k <= |queue| && (k < |queue| ==> queue[k] == client)
    ensures forall i | 0 <= i < k :: queue[i] != client
  {
    k := 0;
    while k < |queue| && queue[k] != client
      invariant k <= |queue| && forall i | 0 <= i < k :: queue[i] != client
    {
      k := k + 1;
    }
  }

  lemma {:induction false} WithoutAt(queue: seq<string>, k: nat)
    requires k < |queue| && Distinct(queue)
    ensures Without(queue, queue[k]) == queue[..k] + queue[k + 1..]
  {
    if k > 0 {
      assert Distinct(queue[1..]);
      WithoutAt(queue[1..], k - 1);
      assert queue[1..][..k - 1] == queue[1..k] && queue[1..][k..] == queue[k + 1..];
    }
  }

  /** One more element looked at. */
  lemma {:induction false} SurvivorsStep(table: map<string, Client>, queue: seq<string>, n: nat, now: int)
    requires n < |queue|
    ensures Survivors(table, queue[..n + 1], now)
      == Survivors(table, queue[..n], now) + if queue[n] in table && Stale(table[queue[n]], now) then [] else [queue[n]]
    ensures StaleIds(table, queue[..n + 1], now)
      == StaleIds(table, queue[..n], now) + if queue[n] in table && Stale(table[queue[n]], now) then {queue[n]} else {}
  {
    assert queue[..n + 1] == queue[..n] + [queue[n]];
    if n > 0 {
      SurvivorsStep(table, queue[1..], n - 1, now);
      assert queue[1..][..n] == queue[..n + 1][1..] && queue[1..][..n - 1] == queue[..n][1..];
    }
  }

  /** Pruning half done: the first n waiting clients were looked at, `link` of them stay. */
  ghost predicate Pruning(b: Broker, v: Broker, n: nat, link: nat, now: int) {
    && n <= |b.queue| && link <= |v.queue|
    && v.queue[link..] == b.queue[n..]
    && v.queue[..link] == Survivors(b.table, b.queue[..n], now)
    && v.table == b.table - StaleIds(b.table, b.queue[..n], now)
  }

  lemma PruningStarts(b: Broker, now: int)
    ensures Pruning(b, b, 0, 0, now)
  {
  }

  lemma PruningEnds(b: Broker, v: Broker, n: nat, link: nat, now: int)
    requires Pruning(b, v, n, link, now) && link == |v.queue|
    ensures v == Prune(b, now)
  {
    assert b.queue[n..] == [];
    assert b.queue[..n] == b.queue && v.queue[..link] == v.queue;
  }

  lemma PruningStep(b: Broker, v: Broker, n: nat, link: nat, now: int)
    requires Pruning(b, v, n, link, now) && Distinct(v.queue) && link < |v.queue| && v.queue[link] in v.table
    ensures Distinct(Remove(v, v.queue[link]).queue) && |Remove(v, v.queue[link]).queue| == |v.queue| - 1
    ensures if Stale(v.table[v.queue[link]], now) then Pruning(b, Remove(v, v.queue[link]), n + 1, link, now)
      else Pruning(b, v, n + 1, link + 1, now)
  {
    var id := v.queue[link];
    assert id == v.queue[link..][0] == b.queue[n..][0];
    assert b.queue[n..][1..] == b.queue[n + 1..] && v.queue[link..][1..] == v.queue[link + 1..];
    SurvivorsStep(b.table, b.queue, n, now);
    WithoutRemovesOne(v.queue, id);
    WithoutAt(v.queue, link);
    hide Survivors, Without, StaleIds, Distinct;
    if Stale(v.table[id], now) {
      var left := v.queue[..link] + v.queue[link + 1..];
      assert left[link..] == v.queue[link + 1..] && left[..link] == v.queue[..link];
    } else {
      assert v.queue[..link + 1] == v.queue[..link] + [id];
    }
  }

  /** Random numbers have 32 bits. */
  predicate Random(draws: seq<nat>) {
    forall drawn | drawn in draws :: drawn <= MAX_TOKEN
  }

  ghost predicate CanDraw(b: Broker, draws: seq<nat>) {
    exists drawn | drawn in draws :: Drawable(b, drawn)
  }

  lemma PruneLeaves(b: Broker, id: string, now: int)
    requires Distinct(b.queue) && id in b.table && id !in b.queue
    ensures var p := Prune(b, now); Distinct(p.queue) && id in p.table && p.table[id] == b.table[id] && id !in p.queue
  {
    SurvivorsAre(b.table, b.queue, now);
  }

  lemma JoinsDistinct(queue: seq<string>, id: string)
    requires Distinct(queue) && id !in queue
    ensures Distinct(queue + [id])
  {
  }

  /** The record under an id is never exchanged for another. */
  ghost predicate SameObjects(before: map<string, RemoteClient>, after: map<string, RemoteClient>) {
    forall id | id in before && id in after :: after[id] == before[id]
  }

  /** No client object enters or moves. */
  ghost predicate Shrunk(before: map<string, RemoteClient>, after: map<string, RemoteClient>) {
    forall id | id in after :: id in before && after[id] == before[id]
  }

  class SystemDaemon {
    var remoteClients: map<string, RemoteClient>
    var pendingClients: seq<RemoteClient>
    ghost var table: map<string, Client>
    ghost var waiting: seq<string>

    ghost predicate Valid()
      reads this, remoteClients.Values
    {
      && table.Keys == remoteClients.Keys
      && (forall id | id in remoteClients :: remoteClients[id].data == table[id] && table[id].id == id)
      && |waiting| == |pendingClients|
      && (forall i | 0 <= i < |waiting| :: waiting[i] in remoteClients && remoteClients[waiting[i]] == pendingClients[i])
    }

    ghost function View(): Broker
      reads this
    {
      Broker(table, waiting)
    }

    constructor ()
      ensures Valid() && View() == EMPTY
    {
      remoteClients, pendingClients, table, waiting := map[], [], map[], [];
    }

    /** A client's record changes in place; everybody else's stays. */
    method Store(client: RemoteClient, data: Client)
      requires Valid() && client in remoteClients.Values && data.id == client.data.id
      modifies this`table, client
      ensures Valid() && client.data == data && View() == old(View()).(table := old(table)[data.id := data])
    {
      client.data := data;
      table := table[data.id := data];
    }

    method Unqueue(client: RemoteClient)
      requires Valid() && client in remoteClients.Values && Distinct(waiting)
      modifies this`pendingClients, this`waiting
      ensures Valid() && waiting == Without(old(waiting), client.data.id)
    {
      var k := Find(pendingClients, client);
      if k < |pendingClients| {
        WithoutAt(waiting, k);
        pendingClients, waiting := pendingClients[..k] + pendingClients[k + 1..], waiting[..k] + waiting[k + 1..];
      } else {
        WithoutRemovesOne(waiting, client.data.id);
      }
    }

    method RemoveClient(client: RemoteClient)
      requires Valid() && client in remoteClients.Values && Distinct(waiting)
      modifies this
      ensures Valid() && View() == Remove(old(View()), client.data.id)
      ensures remoteClients == old(remoteClients) - {client.data.id}
    {
      WithoutRemovesOne(waiting, client.data.id);
      Unqueue(client);
      remoteClients, table := remoteClients - {client.data.id}, table - {client.data.id};
    }

    method PruneStalePendingClients(now: int)
      requires Valid() && Distinct(waiting)
      modifies this
      ensures Valid() && View() == Prune(old(View()), now)
      ensures Shrunk(old(remoteClients), remoteClients)
    {
      ghost var b := View();
      ghost var n := 0;
      var link := 0;
      PruningStarts(b, now);
      hide Pruning, Prune, Distinct;
      while link < |pendingClients|
        invariant Valid() && Pruning(b, View(), n, link, now)
        invariant Distinct(waiting) && n + |waiting| - link == |b.queue| && link <= |waiting|
        invariant Shrunk(old(remoteClients), remoteClients)
        decreases |pendingClients| - link
      {
        var candidate := pendingClients[link];
        assert candidate == remoteClients[waiting[link]];
        PruningStep(b, View(), n, link, now);
        if Stale(candidate.data, now) {
          RemoveClient(candidate);
        } else {
          link := link + 1;
        }
        n := n + 1;
      }
      PruningEnds(b, View(), n, link, now);
    }

    method PushTail(client: RemoteClient)
      requires Valid() && client in remoteClients.Values
      modifies this`pendingClients, this`waiting
      ensures Valid() && waiting == old(waiting) + [client.data.id]
    {
      pendingClients, waiting := pendingClients + [client], waiting + [client.data.id];
    }

    method QueueClient(client: RemoteClient, now: int) returns (ok: bool)
      requires Valid() && client in remoteClients.Values && Distinct(waiting) && client.data.id !in waiting
      modifies this, client
      ensures Valid() && old(client.data.id) == client.data.id && (View(), ok) == Enqueue(old(View()), old(client.data.id), now)
      ensures Shrunk(old(remoteClients), remoteClients) && client in remoteClients.Values && Distinct(waiting)
    {
      if client.data.isAssigned {
        return true;
      }
      ghost var id := client.data.id;
      PruneLeaves(View(), id, now);
      hide Prune, Distinct, Stale, Survivors, StaleIds;
      PruneStalePendingClients(now);
      assert remoteClients[id] == client;
      if |pendingClients| >= MAX_PENDING {
        return false;
      }
      JoinsDistinct(waiting, id);
      Store(client, client.data.(lastActivity := now));
      assert remoteClients[id] == client;
      PushTail(client);
      return true;
    }

    /** Draws random numbers until one is non-zero and not in use; not found means that it is still drawing. */
    method GenerateRemoteIdentity(draws: seq<nat>) returns (found: bool, id: string, token: string)
      requires Valid() && Random(draws)
      ensures found <==> CanDraw(View(), draws)
      ensures found ==> exists drawn | drawn in draws :: Drawable(View(), drawn) && id == IdOf(drawn) && token == Print(drawn)
    {
      var k := 0;
      id, token := "", "";
      while k < |draws|
        invariant k <= |draws| && forall i | 0 <= i < k :: !Drawable(View(), draws[i])
      {
        var value := draws[k];
        assert value in draws;
        k := k + 1;
        if value == 0 {
          continue;
        }
        id := IdOf(value);
        if id !in remoteClients {
          TokenRoundTrip(value);
          return true, id, TokenOfId(id).value;
        }
      }
      return false, id, token;
    }

    method FindClientByToken(token: string) returns (client: RemoteClient?)
      requires Valid()
      ensures match FindByToken(View(), token)
        case None => client == null
        case Some(id) => id in remoteClients && client == remoteClients[id]
    {
      var parsed := Parse(token);
      if parsed.None? || IdOf(parsed.value) !in remoteClients {
        return null;
      }
      return remoteClients[IdOf(parsed.value)];
    }

    method ChooseIdentity(info: Info, draws: seq<nat>) returns (id: string, token: string, remoteId: nat, ghost drawn: nat)
      requires Valid() && Random(draws) && (Draws(View(), info) ==> CanDraw(View(), draws))
      ensures CanIdentify(View(), info, drawn)
      ensures (id, token) == Identity(View(), info, drawn) && remoteId == RemoteIdOf(View(), info, drawn)
    {
      remoteId, drawn := 0, 0;
      if info.token.Some? {
        var parsed := Parse(info.token.value);
        if parsed.Some? {
          remoteId := parsed.value;
          if IdOf(parsed.value) !in remoteClients {
            return IdOf(parsed.value), info.token.value, remoteId, drawn;
          }
        }
      }
      var found;
      found, id, token := GenerateRemoteIdentity(draws);
      drawn :| drawn in draws && Drawable(View(), drawn) && id == IdOf(drawn) && token == Print(drawn);
      if remoteId == 0 {
        var parsed := Parse(token);
        if parsed.Some? {
          remoteId := parsed.value;
        }
      }
    }

    method Insert(client: RemoteClient)
      requires Valid() && client.data.id !in table
      modifies this`remoteClients, this`table
      ensures Valid() && table == old(table)[client.data.id := client.data]
      ensures remoteClients == old(remoteClients)[client.data.id := client]
    {
      remoteClients, table := remoteClients[client.data.id := client], table[client.data.id := client.data];
    }

    /** Makes the record of a new client and tracks it. */
    method Enroll(info: Info, draws: seq<nat>) returns (client: RemoteClient, ghost drawn: nat)
      requires Valid() && Good(View()) && Random(draws) && (Draws(View(), info) ==> CanDraw(View(), draws))
      modifies this
      ensures Valid() && fresh(client) && client in remoteClients.Values && client.data.id !in waiting
      ensures client.data.id !in old(remoteClients) && remoteClients == old(remoteClients)[client.data.id := client]
      ensures CanIdentify(old(View()), info, drawn) && (View(), client.data.id) == Admit(old(View()), info, drawn)
    {
      var id, token, remoteId;
      id, token, remoteId, drawn := ChooseIdentity(info, draws);
      IdentityIsNew(View(), info, drawn);
      hide Identity, RemoteIdOf, CanIdentify, Good;
      client := new RemoteClient(Client(id, token, remoteId, info.rdstls, true, false, false, 0, 0));
      Insert(client);
      assert remoteClients[id] == client;
    }

    method RegisterClient(info: Info, draws: seq<nat>, now: int) returns (ok: bool, ghost drawn: nat)
      requires Valid() && Good(View()) && Random(draws) && (Draws(View(), info) ==> CanDraw(View(), draws))
      modifies this
      ensures SameObjects(old(remoteClients), remoteClients)
      ensures Valid() && CanIdentify(old(View()), info, drawn) && (View(), ok) == Register(old(View()), info, drawn, now)
    {
      assert Distinct(waiting);
      hide Admit, Enqueue, CanIdentify, Draws, Good, Distinct, Remove;
      var client;
      client, drawn := Enroll(info, draws);
      ok := QueueOrRemove(client, now);
    }

    /** The tracked client a connection returns to. */
    method FindReturning(info: Info) returns (client: RemoteClient?)
      requires Valid()
      ensures match Returning(View(), info)
        case None => client == null
        case Some(id) => id in remoteClients && client == remoteClients[id]
    {
      if info.token.None? {
        return null;
      }
      hide FindByToken;
      var existing := FindClientByToken(info.token.value);
      if existing != null && !existing.data.session {
        return existing;
      }
      return null;
    }

    /** A new connection: dropped if it cannot be peeked at, handed to the client it returns to, or registered. */
    method Delegate(peeked: Option<Info>, draws: seq<nat>, now: int) returns (handling: Handling, ghost drawn: nat)
      requires Valid() && Good(View()) && Random(draws)
      requires peeked.Some? && Returning(View(), peeked.value).None? && Draws(View(), peeked.value) ==> CanDraw(View(), draws)
      modifies this, remoteClients.Values
      ensures SameObjects(old(remoteClients), remoteClients)
      ensures Valid() && Acceptable(old(View()), peeked, drawn)
      ensures (View(), handling) == HandoverBroker.Delegate(old(View()), peeked, drawn, now)
    {
      drawn := 0;
      hide Good, GoodClient, Distinct, Register, FindByToken, Returning, Draws, CanIdentify;
      if peeked.None? {
        return Handled, drawn;
      }
      var existing := FindReturning(peeked.value);
      if existing != null {
        Reconnect(existing, now);
        return TakeClientReady(existing.data.id), drawn;
      }
      var ok;
      ok, drawn := RegisterClient(peeked.value, draws, now);
      handling := if ok then GoesOn else Handled;
    }

    method Reconnect(client: RemoteClient, now: int)
      requires Valid() && client in remoteClients.Values
      modifies this`table, client
      ensures Valid() && client.data.id == old(client.data.id) && client.data.id in old(table) && waiting == old(waiting)
      ensures table == old(table)[client.data.id := old(table)[client.data.id].(connection := true, lastActivity := now)]
    {
      Store(client, client.data.(connection := true, lastActivity := now));
    }

    /** The session made for a connection is remembered; its client may be gone by then. */
    method OnSessionReady(client: RemoteClient?, touched: bool, now: int)
      requires Valid() && (client != null ==> client in remoteClients.Values)
      modifies this`table, client
      ensures Valid()
      ensures View() == if client == null then old(View()) else SessionReady(old(View()), old(client.data.id), touched, now)
    {
      if client == null {
        return;
      }
      Store(client, client.data.(session := true, lastActivity := if touched then now else client.data.lastActivity));
    }

    method HandleRequestHandover(pruneTime: int, now: int) returns (reply: Option<string>)
      requires Valid() && Distinct(waiting)
      modifies this, remoteClients.Values
      ensures SameObjects(old(remoteClients), remoteClients)
      ensures Valid() && (View(), reply) == RequestHandover(old(View()), pruneTime, now)
    {
      hide Prune;
      PruneStalePendingClients(pruneTime);
      if |pendingClients| == 0 {
        return None;
      }
      var client := pendingClients[0];
      assert remoteClients[waiting[0]] == client;
      PopHead();
      Store(client, client.data.(isAssigned := true, lastActivity := now));
      return Some(client.data.id);
    }

    method PopHead()
      requires Valid() && |waiting| > 0
      modifies this`pendingClients, this`waiting
      ensures Valid() && waiting == old(waiting)[1..]
    {
      pendingClients, waiting := pendingClients[1..], waiting[1..];
    }

    method OnStartHandover(client: RemoteClient, tls: bool, redirected: bool, now: int) returns (reply: HandoverReply)
      requires Valid() && client in remoteClients.Values
      modifies this`table, client
      ensures Valid() && old(client.data.id) in old(table)
      ensures (View(), reply) == StartHandover(old(View()), old(client.data.id), tls, redirected, now)
    {
      Store(client, client.data.(lastActivity := now));
      if !tls {
        return NoCredentials;
      }
      if !client.data.session {
        return RedirectSignalled;
      }
      if !redirected {
        return RedirectFailed;
      }
      Store(client, client.data.(session := false, connection := false, isAssigned := true));
      return RedirectedLocally;
    }

    method OnTakeClient(client: RemoteClient, passed: bool, touchTime: int, now: int) returns (taken: bool)
      requires Valid() && client in remoteClients.Values && Distinct(waiting) && client.data.id !in waiting
      modifies this, client
      ensures Valid() && old(client.data.id) in old(table) && old(client.data.id) !in old(waiting)
      ensures SameObjects(old(remoteClients), remoteClients)
      ensures (View(), taken) == TakeClient(old(View()), old(client.data.id), passed, touchTime, now)
    {
      hide Enqueue, Distinct, Remove;
      assert client.data.id in table;
      Store(client, client.data.(lastActivity := touchTime));
      if !client.data.connection || !passed {
        return false;
      }
      var handovers := client.data.handovers + 1;
      if handovers >= 2 {
        Store(client, client.data.(connection := false, session := false, handovers := handovers));
        return true;
      }
      Store(client, client.data.(connection := false, session := false, handovers := handovers, isAssigned := false));
      var _ := QueueOrRemove(client, now);
      return true;
    }

    /** Into the queue, or out of the table when there is no room. */
    method QueueOrRemove(client: RemoteClient, now: int) returns (queued: bool)
      requires Valid() && client in remoteClients.Values && Distinct(waiting) && client.data.id !in waiting
      modifies this, client
      ensures Valid() && old(client.data.id) in old(table) && old(client.data.id) !in old(waiting)
      ensures Shrunk(old(remoteClients), remoteClients)
      ensures var (b, ok) := Enqueue(old(View()), old(client.data.id), now);
        queued == ok && View() == if ok then b else Remove(b, old(client.data.id))
    {
      hide Enqueue, Distinct, Remove;
      queued := QueueClient(client, now);
      if !queued {
        RemoveClient(client);
      }
    }

    method Stop()
      modifies this
      ensures Valid() && View() == EMPTY
    {
      remoteClients, pendingClients, table, waiting := map[], [], map[], [];
    }
  }
}
