/**
  The handover broker as a value: a table of remote clients and a bounded queue of those waiting
  to be handed over, with one function for each operation.
 */
module HandoverBroker {
  import opened Wrappers
  import opened HandoverIds

  const MAX_PENDING: nat := 32
  const STALE_US: int := 30_000_000

  datatype Client = Client(
    id: string, token: string, remoteId: nat, rdstls: bool, connection: bool, session: bool,
    isAssigned: bool, handovers: nat, lastActivity: int)

  datatype Broker = Broker(table: map<string, Client>, queue: seq<string>)

  const EMPTY := Broker(map[], [])

  predicate Distinct(s: seq<string>) {
    forall i, j | 0 <= i < j < |s| :: s[i] != s[j]
  }

  /** Everyone waiting is tracked and unassigned, everyone unassigned waits, nobody waits twice. */
  ghost predicate Good(b: Broker) {
    && Distinct(b.queue) && |b.queue| <= MAX_PENDING
    && (forall id | id in b.queue :: id in b.table)
    && (forall id | id in b.table :: GoodClient(id, b.table[id]))
    && (forall id | id in b.table :: id in b.queue <==> !b.table[id].isAssigned)
  }

  /** A client sits under its own id, and its token leads back to that id. */
  ghost predicate GoodClient(id: string, c: Client) {
    c.id == id && Parse(c.token).Some? && IdOf(Parse(c.token).value) == id
  }

  function Touch(b: Broker, id: string, now: int): Broker
    requires id in b.table
  {
    b.(table := b.table[id := b.table[id].(lastActivity := now)])
  }

  // ---- Pruning ----

  predicate Stale(c: Client, now: int) {
    !c.isAssigned && c.lastActivity > 0 && now - c.lastActivity >= STALE_US
  }

  function StaleIds(table: map<string, Client>, queue: seq<string>, now: int): set<string> {
    set id | id in queue && id in table && Stale(table[id], now)
  }

  function Survivors(table: map<string, Client>, queue: seq<string>, now: int): seq<string> {
    if queue == [] then []
    else (if queue[0] in table && Stale(table[queue[0]], now) then [] else [queue[0]]) + Survivors(table, queue[1..], now)
  }

  /** Survivors: exactly the waiting clients that are not stale, each once. */
  lemma {:induction false} SurvivorsAre(table: map<string, Client>, queue: seq<string>, now: int)
    ensures var left := Survivors(table, queue, now);
      && |left| <= |queue|
      && (forall id :: id in left <==> id in queue && !(id in table && Stale(table[id], now)))
      && (Distinct(queue) ==> Distinct(left))
  {
    if queue != [] {
      SurvivorsAre(table, queue[1..], now);
      assert queue == [queue[0]] + queue[1..];
      if Distinct(queue) {
        assert Distinct(queue[1..]);
        assert queue[0] !in queue[1..];
      }
    }
  }

  function Prune(b: Broker, now: int): Broker {
    Broker(b.table - StaleIds(b.table, b.queue, now), Survivors(b.table, b.queue, now))
  }

  // ---- Queue ----

  function FindByToken(b: Broker, token: string): Option<string> {
    match Parse(token)
    case None => None
    case Some(n) => if IdOf(n) in b.table then Some(IdOf(n)) else None
  }

  function Enqueue(b: Broker, id: string, now: int): (Broker, bool)
    requires id in b.table && id !in b.queue
  {
    if b.table[id].isAssigned then (b, true) else
      var b1 := Prune(b, now);
      if |b1.queue| >= MAX_PENDING then (b1, false)
      else (Touch(b1, id, now).(queue := b1.queue + [id]), true)
  }

  function Without(queue: seq<string>, id: string): seq<string> {
    if queue == [] then [] else if queue[0] == id then queue[1..] else [queue[0]] + Without(queue[1..], id)
  }

  /** Taking out one element of a queue without repetitions. */
  lemma {:induction false} WithoutRemovesOne(queue: seq<string>, id: string)
    requires Distinct(queue)
    ensures var left := Without(queue, id);
      && (forall other :: other in left <==> other in queue && other != id)
      && Distinct(left) && |left| <= |queue|
      && (id !in queue ==> left == queue)
  {
    if queue != [] {
      assert queue == [queue[0]] + queue[1..];
      assert Distinct(queue[1..]);
      assert queue[0] !in queue[1..];
      if queue[0] != id {
        WithoutRemovesOne(queue[1..], id);
      }
    }
  }

  function Remove(b: Broker, id: string): Broker {
    Broker(b.table - {id}, Without(b.queue, id))
  }

  // ---- Connections ----

  datatype Info = Info(token: Option<string>, rdstls: bool)

  /** The identity a new client gets: its own token if that is valid and free, else a drawn one. */
  function Identity(b: Broker, info: Info, drawn: nat): (string, string) {
    var own := if info.token.Some? then Parse(info.token.value) else None;
    if own.Some? && IdOf(own.value) !in b.table then (IdOf(own.value), info.token.value)
    else (IdOf(drawn), Print(drawn))
  }

  /** The number kept for the display manager: what the client sent, even when the token was replaced. */
  function RemoteIdOf(b: Broker, info: Info, drawn: nat): nat {
    var own := if info.token.Some? then Parse(info.token.value) else None;
    if own.Some? then own.value
    else match Parse(Identity(b, info, drawn).1)
      case Some(n) => n
      case None => 0
  }

  /** `drawn` is the random token the identity loop settles on: non-zero and not in use. */
  predicate Drawable(b: Broker, drawn: nat) {
    1 <= drawn <= MAX_TOKEN && IdOf(drawn) !in b.table
  }

  /** The token the client sent is no use: absent, malformed or taken. */
  predicate Draws(b: Broker, info: Info) {
    var own := if info.token.Some? then Parse(info.token.value) else None;
    !(own.Some? && IdOf(own.value) !in b.table)
  }

  predicate CanIdentify(b: Broker, info: Info, drawn: nat) {
    Draws(b, info) ==> Drawable(b, drawn)
  }

  function Admit(b: Broker, info: Info, drawn: nat): (Broker, string) {
    var (id, token) := Identity(b, info, drawn);
    (b.(table := b.table[id := Client(id, token, RemoteIdOf(b, info, drawn), info.rdstls, true, false, false, 0, 0)]), id)
  }

  function Register(b: Broker, info: Info, drawn: nat, now: int): (Broker, bool)
    requires Good(b) && CanIdentify(b, info, drawn)
  {
    var (b1, id) := Admit(b, info, drawn);
    IdentityIsNew(b, info, drawn);
    var (b2, ok) := Enqueue(b1, id, now);
    if ok then (b2, true) else (Remove(b2, id), false)
  }

  lemma IdentityIsNew(b: Broker, info: Info, drawn: nat)
    requires Good(b) && CanIdentify(b, info, drawn)
    ensures var (id, token) := Identity(b, info, drawn);
      id !in b.table && id !in b.queue && Parse(token).Some? && IdOf(Parse(token).value) == id
  {
    if Draws(b, info) { TokenRoundTrip(drawn); }
  }

  datatype Handling = Handled | TakeClientReady(id: string) | GoesOn

  /** The tracked client a connection belongs to: the one its token names, if that has no session. */
  function Returning(b: Broker, info: Info): Option<string> {
    var existing := if info.token.Some? then FindByToken(b, info.token.value) else None;
    if existing.Some? && !b.table[existing.value].session then existing else None
  }

  predicate Acceptable(b: Broker, peeked: Option<Info>, drawn: nat) {
    peeked.Some? && Returning(b, peeked.value).None? ==> CanIdentify(b, peeked.value, drawn)
  }

  /** A new connection: peek failed, a returning client, or a new one. */
  function Delegate(b: Broker, peeked: Option<Info>, drawn: nat, now: int): (Broker, Handling)
    requires Good(b) && Acceptable(b, peeked, drawn)
  {
    if peeked.None? then (b, Handled) else
      match Returning(b, peeked.value)
      case Some(id) =>
        (Broker(b.table[id := b.table[id].(connection := true, lastActivity := now)], b.queue), TakeClientReady(id))
      case None =>
        var (b1, ok) := Register(b, peeked.value, drawn, now);
        (b1, if ok then GoesOn else Handled)
  }

  function SessionReady(b: Broker, id: string, touched: bool, now: int): Broker {
    if id !in b.table then b
    else b.(table := b.table[id := b.table[id].(session := true, lastActivity := if touched then now else b.table[id].lastActivity)])
  }

  // ---- The bus calls of the handover daemons ----

  function RequestHandover(b: Broker, pruneTime: int, now: int): (Broker, Option<string>) {
    var b1 := Prune(b, pruneTime);
    if b1.queue == [] || b1.queue[0] !in b1.table then (b1, None) else
      var id := b1.queue[0];
      (Broker(b1.table[id := b1.table[id].(isAssigned := true, lastActivity := now)], b1.queue[1..]), Some(id))
  }

  datatype HandoverReply = NoCredentials | RedirectFailed | RedirectedLocally | RedirectSignalled

  function StartHandover(b: Broker, id: string, tls: bool, redirected: bool, now: int): (Broker, HandoverReply)
    requires id in b.table
  {
    var b1 := Touch(b, id, now);
    if !tls then (b1, NoCredentials)
    else if !b1.table[id].session then (b1, RedirectSignalled)
    else if !redirected then (b1, RedirectFailed)
    else (b1.(table := b1.table[id := b1.table[id].(session := false, connection := false, isAssigned := true)]), RedirectedLocally)
  }

  /** Hands the socket over; after the first hand-over the client waits for a second one. */
  function TakeClient(b: Broker, id: string, passed: bool, touchTime: int, now: int): (Broker, bool)
    requires id in b.table && id !in b.queue
  {
    var b1 := Touch(b, id, touchTime);
    if !b1.table[id].connection || !passed then (b1, false) else
      var c := b1.table[id].(connection := false, session := false, handovers := b1.table[id].handovers + 1);
      if c.handovers >= 2 then (b1.(table := b1.table[id := c]), true) else
        var (b2, ok) := Enqueue(b1.(table := b1.table[id := c.(isAssigned := false)]), id, now);
        (if ok then b2 else Remove(b2, id), true)
  }
}
