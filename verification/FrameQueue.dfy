/**
  The capture queue: a three-slot ring that drops its oldest frame when full.
 */
module FrameQueues {
  import opened Wrappers

  const MAX_FRAMES: nat := 3

  // ---- The queue as a bounded sequence ----

  datatype Queue<T> = Queue(held: seq<T>, dropped: nat, running: bool)

  function Push<T>(q: Queue<T>, frame: T): Queue<T> {
    if !q.running then q
    else if |q.held| >= MAX_FRAMES then Queue(q.held[1..] + [frame], q.dropped + 1, true)
    else q.(held := q.held + [frame])
  }

  function Cleared<T>(): Queue<T> {
    Queue([], 0, true)
  }

  /** What other threads do to the queue while a reader sleeps. */
  datatype Action<T> = DoPush(frame: T) | DoStop | DoReset

  function Act<T>(q: Queue<T>, a: Action<T>): Queue<T> {
    match a
    case DoPush(frame) => Push(q, frame)
    case DoStop => q.(running := false)
    case DoReset => Cleared()
  }

  function ActAll<T>(q: Queue<T>, actions: seq<Action<T>>): Queue<T>
    decreases |actions|
  {
    if actions == [] then q else ActAll(Act(q, actions[0]), actions[1..])
  }

  datatype Wake<T> = Notified(actions: seq<Action<T>>) | DeadlinePassed

  datatype Outcome<T> = Got(frame: T) | Nothing | StillWaiting

  function Take<T>(q: Queue<T>): (Queue<T>, Outcome<T>) {
    if q.running && q.held != [] then (q.(held := q.held[1..]), Got(q.held[0])) else (q, Nothing)
  }

  function Sleep<T>(q: Queue<T>, timeout: int, wakes: seq<Wake<T>>): (Queue<T>, Outcome<T>)
    decreases |wakes|
  {
    if !q.running || q.held != [] then Take(q)
    else if timeout == 0 then (q, Nothing)
    else if wakes == [] then (q, StillWaiting)
    else match wakes[0]
      case Notified(actions) => Sleep(ActAll(q, actions), timeout, wakes[1..])
      case DeadlinePassed => if timeout > 0 then Take(q) else Sleep(q, timeout, wakes[1..])
  }

  // ---- The ring ----

  function Slot(head: nat, k: nat): nat {
    (head + k) % MAX_FRAMES
  }

  /** Exactly the `size` slots from the head on are occupied. */
  ghost predicate IsRing<T>(slots: seq<Option<T>>, head: nat, size: nat) {
    && |slots| == MAX_FRAMES && head < MAX_FRAMES && size <= MAX_FRAMES
    && (forall k | 0 <= k < size :: slots[Slot(head, k)].Some?)
    && (forall k | size <= k < MAX_FRAMES :: slots[Slot(head, k)].None?)
  }

  /** The occupied slots, oldest first. */
  ghost function Contents<T>(slots: seq<Option<T>>, head: nat, size: nat): (s: seq<T>)
    requires IsRing(slots, head, size)
    ensures |s| == size && forall k | 0 <= k < size :: slots[Slot(head, k)] == Some(s[k])
  {
    seq(size, k requires 0 <= k < size => slots[Slot(head, k)].value)
  }

  lemma RingPush<T>(slots: seq<Option<T>>, head: nat, size: nat, frame: T)
    requires IsRing(slots, head, size) && size < MAX_FRAMES
    ensures
      var after := slots[Slot(head, size) := Some(frame)];
      IsRing(after, head, size + 1) && Contents(after, head, size + 1) == Contents(slots, head, size) + [frame]
  {
    var after := slots[Slot(head, size) := Some(frame)];
    assert forall k | 0 <= k < MAX_FRAMES && k != size :: after[Slot(head, k)] == slots[Slot(head, k)];
  }

  lemma RingPop<T>(slots: seq<Option<T>>, head: nat, size: nat)
    requires IsRing(slots, head, size) && size > 0
    ensures slots[head] == Some(Contents(slots, head, size)[0])
    ensures
      var after := slots[head := None];
      IsRing(after, Slot(head, 1), size - 1) && Contents(after, Slot(head, 1), size - 1) == Contents(slots, head, size)[1..]
  {
    var after := slots[head := None];
    assert Slot(head, 0) == head;
    assert forall k | 0 <= k < MAX_FRAMES - 1 :: Slot(Slot(head, 1), k) == Slot(head, k + 1) != head;
    assert Slot(Slot(head, 1), MAX_FRAMES - 1) == head;
    assert forall k | 0 <= k < MAX_FRAMES - 1 :: after[Slot(Slot(head, 1), k)] == slots[Slot(head, k + 1)];
  }

  lemma EmptyRing<T>(slots: seq<Option<T>>)
    requires |slots| == MAX_FRAMES && forall k | 0 <= k < MAX_FRAMES :: slots[k].None?
    ensures IsRing(slots, 0, 0) && Contents(slots, 0, 0) == []
  {}

  class FrameQueue<T> {
    const frames: array<Option<T>>
    var head: nat
    var tail: nat
    var size: nat
    var running: bool
    var droppedFrames: nat

    ghost predicate Valid()
      reads this, frames
    {
      IsRing(frames[..], head, size) && tail == Slot(head, size)
    }

    ghost function View(): Queue<T>
      requires Valid()
      reads this, frames
    {
      Queue(Contents(frames[..], head, size), droppedFrames, running)
    }

    constructor ()
      ensures Valid() && fresh(frames) && View() == Cleared()
    {
      frames := new Option<T>[MAX_FRAMES](_ => None);
      head, tail, size, running, droppedFrames := 0, 0, 0, true, 0;
      new;
      EmptyRing(frames[..]);
    }

    method Reset()
      requires Valid()
      modifies this, frames
      ensures Valid() && View() == Cleared()
    {
      running := true;
      for i := 0 to MAX_FRAMES
        invariant running && forall k | 0 <= k < i :: frames[k].None?
      {
        frames[i] := None;
      }
      EmptyRing(frames[..]);
      head, tail, size, droppedFrames := 0, 0, 0, 0;
    }

    method PushFrame(frame: T)
      requires Valid()
      modifies this, frames
      ensures Valid() && View() == Push(old(View()), frame)
    {
      hide IsRing, Contents;
      if !running {
        return;
      }
      if size == MAX_FRAMES {
        DropOldest();
        droppedFrames := droppedFrames + 1;
      }
      RingSize(frames[..], head, size);
      RingPush(frames[..], head, size, frame);
      ghost var after := frames[..][tail := Some(frame)];
      frames[tail] := Some(frame);
      assert frames[..] == after;
      tail := (tail + 1) % MAX_FRAMES;
      size := size + 1;
    }

    /** Empties the head slot. */
    method DropOldest()
      requires Valid() && size > 0
      modifies this`head, this`size, frames
      ensures Valid() && size == old(size) - 1
      ensures View() == old(View()).(held := old(View()).held[1..])
    {
      hide Contents;
      RingPop(frames[..], head, size);
      ghost var after := frames[..][head := None];
      frames[head] := None;
      assert frames[..] == after;
      head := (head + 1) % MAX_FRAMES;
      size := size - 1;
    }

    method StopQueue()
      requires Valid()
      modifies this`running
      ensures Valid() && View() == old(View()).(running := false)
    {
      hide IsRing, Contents;
      running := false;
    }

    method Apply(a: Action<T>)
      requires Valid()
      modifies this, frames
      ensures Valid() && View() == Act(old(View()), a)
    {
      match a {
        case DoPush(frame) => PushFrame(frame);
        case DoStop => StopQueue();
        case DoReset => Reset();
      }
    }

    method ApplyAll(actions: seq<Action<T>>)
      requires Valid()
      modifies this, frames
      ensures Valid() && View() == ActAll(old(View()), actions)
    {
      var i := 0;
      while i < |actions|
        invariant 0 <= i <= |actions| && Valid()
        invariant ActAll(View(), actions[i..]) == ActAll(old(View()), actions)
      {
        assert actions[i..][1..] == actions[i + 1..];
        Apply(actions[i]);
        i := i + 1;
      }
    }

    /** Blocks while the queue is open and empty; a running non-empty queue never hands out a null frame. */
    method Wait(timeout: int, wakes: seq<Wake<T>>) returns (outcome: Outcome<T>)
      requires Valid()
      modifies this, frames
      ensures Valid()
      ensures (View(), outcome) == if old(running) then Sleep(old(View()), timeout, wakes) else (old(View()), Nothing)
    {
      if !running {
        return Nothing;
      }
      var i := 0;
      while running && size == 0
        invariant 0 <= i <= |wakes| && Valid()
        invariant Sleep(View(), timeout, wakes[i..]) == Sleep(old(View()), timeout, wakes)
        decreases |wakes| - i
      {
        if timeout == 0 {
          return Nothing;
        }
        if i == |wakes| {
          return StillWaiting;
        }
        assert wakes[i..][1..] == wakes[i + 1..];
        match wakes[i] {
          case Notified(actions) =>
            ApplyAll(actions);
          case DeadlinePassed =>
            if timeout > 0 {
              break;
            }
        }
        i := i + 1;
      }
      outcome := TakeHead();
    }

    method TakeHead() returns (outcome: Outcome<T>)
      requires Valid()
      modifies this, frames
      ensures Valid() && (View(), outcome) == Take(old(View()))
    {
      RingSize(frames[..], head, size);
      hide IsRing, Contents;
      if running && size > 0 {
        RingPop(frames[..], head, size);
        var frame := frames[head];
        DropOldest();
        match frame {
          case Some(f) => return Got(f);
        }
      }
      return Nothing;
    }
  }

  lemma RingSize<T>(slots: seq<Option<T>>, head: nat, size: nat)
    requires IsRing(slots, head, size)
    ensures |slots| == MAX_FRAMES && head < MAX_FRAMES && size <= MAX_FRAMES && |Contents(slots, head, size)| == size
  {}

  // ---- Whole runs ----

  datatype Event<T> = Other(action: Action<T>) | Read

  /** History since the last reset: the accepted pushes, and the indices of those handed out. */
  datatype World<T> = World(queue: Queue<T>, accepted: seq<T>, taken: seq<int>, delivered: seq<T>)

  function Next<T>(w: World<T>, ev: Event<T>): World<T> {
    match ev
    case Other(DoPush(frame)) =>
      w.(queue := Push(w.queue, frame), accepted := if w.queue.running then w.accepted + [frame] else w.accepted)
    case Other(DoStop) => w.(queue := Act(w.queue, DoStop))
    case Other(DoReset) => World(Cleared(), [], [], [])
    case Read =>
      match Take(w.queue)
      case (q, Got(frame)) => World(q, w.accepted, w.taken + [|w.accepted| - |w.queue.held|], w.delivered + [frame])
      case (q, _) => w.(queue := q)
  }

  function Run<T>(events: seq<Event<T>>): World<T>
    decreases |events|
  {
    if events == [] then World(Cleared(), [], [], []) else Next(Run(events[..|events| - 1]), events[|events| - 1])
  }

  ghost predicate History<T>(w: World<T>) {
    var n, h := |w.accepted|, |w.queue.held|;
    && h <= MAX_FRAMES && h <= n
    && w.queue.held == w.accepted[n - h..]
    && n == |w.taken| + w.queue.dropped + h
    && |w.delivered| == |w.taken|
    && (forall k | 0 <= k < |w.taken| :: 0 <= w.taken[k] < n - h && w.delivered[k] == w.accepted[w.taken[k]])
    && (forall j, k | 0 <= j < k < |w.taken| :: w.taken[j] < w.taken[k])
  }

  lemma PushHistory<T>(w: World<T>, frame: T)
    requires History(w) && w.queue.running
    ensures History(Next(w, Other(DoPush(frame))))
  {
    var w' := Next(w, Other(DoPush(frame)));
    var from := |w.accepted| - |w.queue.held|;
    assert w'.accepted[from..] == w.queue.held + [frame];
    if |w.queue.held| >= MAX_FRAMES {
      assert w'.accepted[from + 1..] == w'.accepted[from..][1..] == w.queue.held[1..] + [frame];
    }
  }

  lemma ReadHistory<T>(w: World<T>)
    requires History(w)
    ensures History(Next(w, Read))
  {
    var w' := Next(w, Read);
    if w.queue.running && w.queue.held != [] {
      var from := |w.accepted| - |w.queue.held|;
      assert w'.queue.held == w.accepted[from..][1..] == w.accepted[from + 1..];
    }
  }

  lemma HistoryStep<T>(w: World<T>, ev: Event<T>)
    requires History(w)
    ensures History(Next(w, ev))
  {
    match ev
    case Other(DoPush(frame)) =>
      if w.queue.running {
        PushHistory(w, frame);
      }
    case Other(DoStop) =>
    case Other(DoReset) =>
    case Read => ReadHistory(w);
  }

  /**
    The queue always holds the last accepted frames in order, hands frames out in the order they
    came, and loses none without counting it.
   */
  lemma {:induction false} HistoryHolds<T>(events: seq<Event<T>>)
    ensures History(Run(events))
    decreases |events|
  {
    if events != [] {
      HistoryHolds(events[..|events| - 1]);
      HistoryStep(Run(events[..|events| - 1]), events[|events| - 1]);
    }
  }

  lemma Unfold<T>(events: seq<Event<T>>, ev: Event<T>)
    ensures Run(events + [ev]) == Next(Run(events), ev)
  {
    assert (events + [ev])[..|events|] == events;
  }

  /** A read of an open queue that holds a frame delivers the oldest one held, and only that one leaves. */
  lemma ReadDelivers<T>(events: seq<Event<T>>)
    ensures
      var w, w' := Run(events), Run(events + [Read]);
      if w.queue.running && |w.queue.held| > 0 then
        && |w.queue.held| <= |w.accepted|
        && w'.delivered == w.delivered + [w.accepted[|w.accepted| - |w.queue.held|]]
        && |w'.queue.held| == |w.queue.held| - 1 && w'.queue.dropped == w.queue.dropped
      else w' == w
  {
    HistoryHolds(events);
    Unfold(events, Read);
  }

  /** An open queue takes every frame, and loses one exactly when it already held three; a closed one ignores it. */
  lemma PushLosesAtMostOne<T>(events: seq<Event<T>>, frame: T)
    ensures
      var w, w' := Run(events), Run(events + [Other(DoPush(frame))]);
      if w.queue.running then
        && w'.accepted == w.accepted + [frame] && w'.queue.running
        && |w'.queue.held| == (if |w.queue.held| < 3 then |w.queue.held| + 1 else 3)
        && w'.queue.dropped == w.queue.dropped + (if |w.queue.held| < 3 then 0 else 1)
      else w' == w
  {
    HistoryHolds(events);
    Unfold(events, Other(DoPush(frame)));
  }

  /** Closing keeps what is held; resetting opens and empties, and forgets what was lost. */
  lemma StopAndReset<T>(events: seq<Event<T>>)
    ensures !Run(events + [Other(DoStop)]).queue.running
    ensures Run(events + [Other(DoStop)]).queue.held == Run(events).queue.held
    ensures var q := Run(events + [Other(DoReset)]).queue; q.running && q.held == [] && q.dropped == 0
  {
    Unfold(events, Other(DoStop));
    Unfold(events, Other(DoReset));
  }

  // ---- A wait is a stretch of such a run ----

  /** What the other threads get done until the wait ends or gives up. */
  function Meanwhile<T>(q: Queue<T>, timeout: int, wakes: seq<Wake<T>>): seq<Action<T>>
    decreases |wakes|
  {
    if !q.running || q.held != [] || timeout == 0 || wakes == [] then []
    else match wakes[0]
      case Notified(actions) => actions + Meanwhile(ActAll(q, actions), timeout, wakes[1..])
      case DeadlinePassed => if timeout > 0 then [] else Meanwhile(q, timeout, wakes[1..])
  }

  lemma {:induction false} ActAllSplit<T>(q: Queue<T>, a: seq<Action<T>>, b: seq<Action<T>>)
    ensures ActAll(q, a + b) == ActAll(ActAll(q, a), b)
    decreases |a|
  {
    if a == [] {
      assert a + b == b;
    } else {
      assert (a + b)[1..] == a[1..] + b;
      ActAllSplit(Act(q, a[0]), a[1..], b);
    }
  }

  /** A wait does what the others do meanwhile, then takes the head; it only comes back empty-handed when there is none to take. */
  lemma {:induction false} SleepTakesLast<T>(q: Queue<T>, timeout: int, wakes: seq<Wake<T>>)
    ensures
      var after := ActAll(q, Meanwhile(q, timeout, wakes));
      && Sleep(q, timeout, wakes).0 == Take(after).0
      && (Sleep(q, timeout, wakes).1 == Take(after).1 || (Sleep(q, timeout, wakes).1 == StillWaiting && Take(after).1 == Nothing))
    decreases |wakes|
  {
    if q.running && q.held == [] && timeout != 0 && wakes != [] {
      match wakes[0]
      case Notified(actions) =>
        SleepTakesLast(ActAll(q, actions), timeout, wakes[1..]);
        ActAllSplit(q, actions, Meanwhile(ActAll(q, actions), timeout, wakes[1..]));
      case DeadlinePassed =>
        if timeout <= 0 {
          SleepTakesLast(q, timeout, wakes[1..]);
        }
    }
  }

  function Others<T>(actions: seq<Action<T>>): (events: seq<Event<T>>)
    ensures |events| == |actions|
  {
    seq(|actions|, i requires 0 <= i < |actions| => Other(actions[i]))
  }

  lemma {:induction false} OthersAct<T>(events: seq<Event<T>>, actions: seq<Action<T>>)
    ensures Run(events + Others(actions)).queue == ActAll(Run(events).queue, actions)
    decreases |actions|
  {
    if actions == [] {
      assert events + Others(actions) == events;
    } else {
      var first := events + [Other(actions[0])];
      assert first[..|first| - 1] == events;
      assert events + Others(actions) == first + Others(actions[1..]);
      OthersAct(first, actions[1..]);
    }
  }

  /** Every wait is a stretch of a run: what the others do meanwhile, then one read that delivers what the wait hands out. */
  lemma WaitIsARun<T>(events: seq<Event<T>>, timeout: int, wakes: seq<Wake<T>>)
    ensures
      var (q, outcome) := Sleep(Run(events).queue, timeout, wakes);
      var before := Run(events + Others(Meanwhile(Run(events).queue, timeout, wakes)));
      var after := Run(events + Others(Meanwhile(Run(events).queue, timeout, wakes)) + [Read]);
      && after.queue == q
      && after.delivered == before.delivered + if outcome.Got? then [outcome.frame] else []
  {
    var actions := Meanwhile(Run(events).queue, timeout, wakes);
    OthersAct(events, actions);
    SleepTakesLast(Run(events).queue, timeout, wakes);
    var all := events + Others(actions) + [Read];
    assert all[..|all| - 1] == events + Others(actions);
  }

  /** A wait without deadline comes back empty-handed only from a closed queue; one with timeout zero never sleeps. */
  lemma {:induction false} WaitEnds<T>(q: Queue<T>, timeout: int, wakes: seq<Wake<T>>)
    ensures timeout < 0 && Sleep(q, timeout, wakes).1 == Nothing ==> !Sleep(q, timeout, wakes).0.running
    ensures timeout == 0 ==> Sleep(q, timeout, wakes) == Take(q)
    ensures q.running && |q.held| > 0 ==> Sleep(q, timeout, wakes) == (q.(held := q.held[1..]), Got(q.held[0]))
    ensures timeout > 0 && DeadlinePassed in wakes ==> Sleep(q, timeout, wakes).1 != StillWaiting
    decreases |wakes|
  {
    if q.running && q.held == [] && timeout != 0 && wakes != [] {
      match wakes[0]
      case Notified(actions) =>
        assert DeadlinePassed in wakes <==> DeadlinePassed in wakes[1..];
        WaitEnds(ActAll(q, actions), timeout, wakes[1..]);
      case DeadlinePassed =>
        WaitEnds(q, timeout, wakes[1..]);
    }
  }
}
