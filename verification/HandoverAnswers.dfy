/**
  What the broker's answers mean for the client they are about, in every conforming run.
 */
module HandoverAnswers {
  import opened Wrappers
  import opened HandoverIds
  import opened HandoverBroker
  import opened HandoverRuns

  /** The client's record before and after a call on it. */
  ghost predicate StartMeans(c: Client, c': Client, tls: bool, reply: HandoverReply, now: int) {
    && (reply == RedirectedLocally <==> c.session && !c'.session)
    && (reply == RedirectedLocally ==> !c'.connection && c'.isAssigned)
    && (reply == RedirectSignalled <==> tls && !c.session)
    && (reply == NoCredentials <==> !tls)
    && (reply == RedirectFailed ==> tls && c.session)
    && (reply != RedirectedLocally ==> c'.session == c.session && c'.connection == c.connection && c'.isAssigned == c.isAssigned)
    && c'.handovers == c.handovers && c'.lastActivity == now && SameLife(c, c')
  }

  /** Starting a hand-over: which of its four endings, by what the client had and what it is left with. */
  lemma StartReplies(events: seq<Event>, id: string, tls: bool, redirected: bool, now: int)
    requires Possible(events) && Conforming(Run(events).broker, Starts(id, tls, redirected, now))
    ensures var b := Run(events).broker; var (b', reply) := StartHandover(b, id, tls, redirected, now);
      && id in b'.table && b'.queue == b.queue && b'.table.Keys == b.table.Keys
      && StartMeans(b.table[id], b'.table[id], tls, reply, now)
      && (reply == RedirectFailed <==> tls && b.table[id].session && !redirected)
  {
    hide Run, Possible;
  }

  /** Taking a client: it succeeds exactly if there is a connection and it can be passed on, and uses that up. */
  lemma TakeReplies(events: seq<Event>, id: string, passed: bool, touchTime: int, now: int)
    requires Possible(events) && Conforming(Run(events).broker, Takes(id, passed, touchTime, now))
    ensures Good(Run(events).broker)
    ensures var b := Run(events).broker; var (b', taken) := TakeClient(b, id, passed, touchTime, now); var c := b.table[id];
      && (taken <==> c.connection && passed)
      && (!taken ==> b' == b.(table := b.table[id := c.(lastActivity := touchTime)]))
      && (taken && id in b'.table ==>
            && !b'.table[id].connection && !b'.table[id].session && b'.table[id].handovers == c.handovers + 1
            && (b'.table[id].isAssigned <==> c.handovers > 0) && (id in b'.queue <==> c.handovers == 0))
      && (id !in b'.table ==> taken && c.handovers == 0)
  {
    RunInv(events);
    var b := Run(events).broker;
    hide Run, Possible, Inv;
    TakeMeans(b, id, passed, touchTime, now);
  }

  lemma TakeMeans(b: Broker, id: string, passed: bool, touchTime: int, now: int)
    requires Good(b) && id in b.table && b.table[id].isAssigned
    ensures var (b', taken) := TakeClient(b, id, passed, touchTime, now); var c := b.table[id];
      && (taken <==> c.connection && passed)
      && (!taken ==> b' == b.(table := b.table[id := c.(lastActivity := touchTime)]))
      && (taken && id in b'.table ==>
            && !b'.table[id].connection && !b'.table[id].session && b'.table[id].handovers == c.handovers + 1
            && (b'.table[id].isAssigned <==> c.handovers > 0) && (id in b'.queue <==> c.handovers == 0))
      && (id !in b'.table ==> taken && c.handovers == 0)
  {
    var c := b.table[id];
    if c.connection && passed && c.handovers == 0 {
      TakeReleases(b, id, touchTime, now);
      ReleasePrepares(b, id, touchTime);
      var b1 := b.(table := b.table[id := Released(c).(lastActivity := touchTime)]);
      EnqueueOrDropIsGood(b1, id, now);
      assert id !in Survivors(b1.table, b1.queue, now) by { SurvivorsAre(b1.table, b1.queue, now); }
      hide EnqueueOrDrop, Good, GoodBut, Survivors, Stale, Enqueue;
    } else {
      hide Good, Enqueue;
    }
  }

  /** The record a registration leaves: the connection's own wishes, a token that leads to it, and nothing done yet. */
  ghost predicate Newborn(c: Client, info: Info, now: int) {
    && c.rdstls == info.rdstls && c.connection && !c.session && !c.isAssigned && c.handovers == 0 && c.lastActivity == now
    && Parse(c.token).Some? && IdOf(Parse(c.token).value) == c.id
  }

  /** A new connection: dropped without a trace but pruning, given to the client that returns with it, or a new client at the end of the queue. */
  lemma ConnectReplies(events: seq<Event>, peeked: Option<Info>, drawn: nat, now: int)
    requires Possible(events) && Conforming(Run(events).broker, Connects(peeked, drawn, now))
    ensures Good(Run(events).broker)
    ensures var b := Run(events).broker; var (b', handling) := Delegate(b, peeked, drawn, now);
      && (peeked.None? ==> handling == Handled && b' == b)
      && (handling.TakeClientReady? <==>
            peeked.Some? && peeked.value.token.Some? && FindByToken(b, peeked.value.token.value).Some?
            && !b.table[FindByToken(b, peeked.value.token.value).value].session)
      && (handling.TakeClientReady? ==>
            && handling.id in b.table && FindByToken(b, peeked.value.token.value) == Some(handling.id)
            && b' == b.(table := b.table[handling.id := b.table[handling.id].(connection := true, lastActivity := now)]))
      && (handling.GoesOn? ==> b'.queue != [] && var id := b'.queue[|b'.queue| - 1];
            id !in b.table && id in b'.table && Newborn(b'.table[id], peeked.value, now))
      && (handling.Handled? && peeked.Some? ==> b' == Prune(b, now) && |b'.queue| == 32)
  {
    RunInv(events);
    var b := Run(events).broker;
    hide Run, Possible, Inv;
    if peeked.Some? {
      ConnectMeans(b, peeked.value, drawn, now);
    }
  }

  lemma ConnectMeans(b: Broker, info: Info, drawn: nat, now: int)
    requires Good(b) && Acceptable(b, Some(info), drawn)
    ensures var (b', handling) := Delegate(b, Some(info), drawn, now);
      && (handling.TakeClientReady? <==>
            info.token.Some? && FindByToken(b, info.token.value).Some? && !b.table[FindByToken(b, info.token.value).value].session)
      && (handling.TakeClientReady? ==>
            && handling.id in b.table && FindByToken(b, info.token.value) == Some(handling.id)
            && b' == b.(table := b.table[handling.id := b.table[handling.id].(connection := true, lastActivity := now)]))
      && (handling.GoesOn? ==> b'.queue != [] && var id := b'.queue[|b'.queue| - 1];
            id !in b.table && id in b'.table && Newborn(b'.table[id], info, now))
      && (handling.Handled? ==> b' == Prune(b, now) && |b'.queue| == 32)
  {
    if Returning(b, info).None? {
      AdmitGoodBut(b, info, drawn);
      AdmitIsNewborn(b, info, drawn, now);
      RefusedLeavesNoTrace(b, info, drawn, now);
      PruneRemovesTheStale(b, now);
      if Register(b, info, drawn, now).1 {
        RegisterAppends(b, info, drawn, now);
      }
      hide Good, GoodBut, Admit, Register, Newborn, Prune, FindByToken;
    } else {
      hide Good, Register, FindByToken;
    }
  }

  lemma AdmitIsNewborn(b: Broker, info: Info, drawn: nat, now: int)
    requires Good(b) && CanIdentify(b, info, drawn)
    ensures var (b1, id) := Admit(b, info, drawn); Newborn(b1.table[id].(lastActivity := now), info, now)
  {
    IdentityIsNew(b, info, drawn);
    hide Identity, RemoteIdOf, Good;
  }

  /** A token that is valid and free is kept as it was sent. */
  lemma FreeTokenIsKept(b: Broker, info: Info, drawn: nat)
    requires info.token.Some? && Parse(info.token.value).Some? && IdOf(Parse(info.token.value).value) !in b.table
    ensures var (b1, id) := Admit(b, info, drawn);
      id == IdOf(Parse(info.token.value).value) && b1.table[id].token == info.token.value && IdOf(b1.table[id].remoteId) == id
  {
  }

  /** A session is remembered for the client it was made for, and for no other. */
  lemma ReadyMeans(b: Broker, id: string, touched: bool, now: int, other: string)
    ensures var b' := SessionReady(b, id, touched, now);
      && b'.queue == b.queue && b'.table.Keys == b.table.Keys
      && (id in b.table ==> b'.table[id].lastActivity == if touched then now else b.table[id].lastActivity)
      && (id in b.table ==> b'.table[id].session && b'.table[id].isAssigned == b.table[id].isAssigned && SameLife(b.table[id], b'.table[id]))
      && (other in b.table && other != id ==> b'.table[other] == b.table[other])
  {
  }

  /** A request marks the client it answers with as assigned, stamps it and takes it off the queue; everybody else is only pruned. */
  lemma RequestMeans(b: Broker, pruneTime: int, now: int)
    requires Good(b)
    ensures var p := Prune(b, pruneTime); var (b', reply) := RequestHandover(b, pruneTime, now);
      && (reply.None? ==> b' == p && p.queue == [])
      && (reply.Some? ==>
            && p.queue == [reply.value] + b'.queue && reply.value in p.table && reply.value in b'.table
            && b'.table[reply.value].isAssigned && b'.table[reply.value].lastActivity == now
            && b'.table.Keys == p.table.Keys
            && forall other | other in p.table && other != reply.value :: b'.table[other] == p.table[other])
  {
    RequestPops(b, pruneTime, now);
    hide Prune, RequestHandover, Good;
  }
}
