/**
  The pacing of the capture loop: a deadline that moves on by at least one interval a capture.
 */
module CapturePacing {

  /** One turn of the loop: the clock at its start, before the grab and after it. */
  datatype Turn = Turn(start: int, polled: bool, damage: bool, before: int, grabbed: bool, after: int)

  /** A grab that began and ended at these times. */
  datatype Capture = Capture(begin: int, end: int)

  /** The clock is positive and never runs backwards. */
  ghost predicate Clocked(turns: seq<Turn>) {
    && (forall i | 0 <= i < |turns| :: 0 < turns[i].start <= turns[i].before <= turns[i].after)
    && (forall i | 0 < i < |turns| :: turns[i - 1].after <= turns[i].start)
  }

  /** Any k + 2 consecutive captures span at least k whole intervals. */
  ghost predicate Paced(captures: seq<Capture>, interval: nat) {
    forall i, j | 0 <= i < j < |captures| :: captures[j].begin - captures[i].end >= (j - i - 1) * interval
  }

  /** Every capture so far allows the next one no sooner than the deadline. */
  ghost predicate Allows(captures: seq<Capture>, deadline: int, interval: nat) {
    forall i | 0 <= i < |captures| :: deadline - captures[i].end >= (|captures| - 1 - i) * interval
  }

  /** Turns that saw damage; the others never grab. */
  predicate Asks(turn: Turn) {
    turn.polled && turn.damage
  }

  /** Rising turn numbers. */
  ghost predicate Rising(numbers: seq<nat>, bound: nat) {
    && (forall i | 0 <= i < |numbers| :: numbers[i] < bound)
    && (forall i, j | 0 <= i < j < |numbers| :: numbers[i] < numbers[j])
  }

  /** The captures, one by one, are those of these turns. */
  ghost predicate Mirrors(captures: seq<Capture>, taken: seq<nat>, turns: seq<Turn>) {
    && |captures| == |taken|
    && forall i | 0 <= i < |taken| ::
         && taken[i] < |turns| && Asks(turns[taken[i]]) && turns[taken[i]].grabbed
         && captures[i] == Capture(turns[taken[i]].before, turns[taken[i]].after)
  }

  /** A turn that asks in vain comes less than an interval after a grab that was tried before it. */
  ghost predicate Excused(turns: seq<Turn>, tried: set<nat>, k: nat, interval: nat)
    requires k < |turns|
  {
    exists j | j in tried :: j < k && turns[k].before < turns[j].after + interval
  }

  /** Every turn so far that asked was tried, or came too soon after one that was; a grab that succeeded was captured. */
  ghost predicate Answered(turns: seq<Turn>, n: nat, taken: seq<nat>, tried: set<nat>, interval: nat) {
    && n <= |turns|
    && (forall k | k in tried :: k < n && Asks(turns[k]) && (turns[k].grabbed <==> k in taken))
    && (forall k | k in taken :: k in tried)
    && (forall k | 0 <= k < n && Asks(turns[k]) :: k in tried || Excused(turns, tried, k, interval))
  }

  /** Where the deadline comes from: the first turn's start, or the last grab that was tried. */
  ghost predicate Sourced(turns: seq<Turn>, n: nat, tried: set<nat>, deadline: int, interval: nat) {
    if tried == {} then n > 0 && n <= |turns| && deadline <= turns[n - 1].after
    else exists j | j in tried :: j < n <= |turns| && deadline <= turns[j].after + interval
  }

  lemma Unasked(turns: seq<Turn>, n: nat, taken: seq<nat>, tried: set<nat>, interval: nat)
    requires Answered(turns, n, taken, tried, interval) && n < |turns| && !Asks(turns[n])
    ensures Answered(turns, n + 1, taken, tried, interval)
  {}

  /** Time has passed. */
  lemma StillSourced(turns: seq<Turn>, n: nat, tried: set<nat>, deadline: int, interval: nat)
    requires Clocked(turns) && 0 < n < |turns| && Sourced(turns, n, tried, deadline, interval)
    ensures Sourced(turns, n + 1, tried, deadline, interval)
    ensures tried == {} ==> deadline <= turns[n].before
  {}

  lemma TooSoon(turns: seq<Turn>, n: nat, taken: seq<nat>, tried: set<nat>, deadline: int, interval: nat)
    requires Answered(turns, n, taken, tried, interval) && n < |turns| && tried != {}
    requires Sourced(turns, n, tried, deadline, interval) && turns[n].before < deadline
    ensures Answered(turns, n + 1, taken, tried, interval)
  {
    var j :| j in tried && j < n && deadline <= turns[j].after + interval;
    assert Excused(turns, tried, n, interval);
  }

  lemma Tried(turns: seq<Turn>, n: nat, taken: seq<nat>, tried: set<nat>, interval: nat)
    requires Answered(turns, n, taken, tried, interval) && Rising(taken, n) && n < |turns| && Asks(turns[n])
    ensures Answered(turns, n + 1, if turns[n].grabbed then taken + [n] else taken, tried + {n}, interval)
    ensures Rising(if turns[n].grabbed then taken + [n] else taken, n + 1)
  {
    var taken' := if turns[n].grabbed then taken + [n] else taken;
    forall k: nat ensures k in taken' <==> k in taken || (k == n && turns[n].grabbed) {}
    forall k | 0 <= k < n + 1 && Asks(turns[k]) ensures k in tried + {n} || Excused(turns, tried + {n}, k, interval) {
      if k < n && k !in tried {
        var j :| j in tried && j < k && turns[k].before < turns[j].after + interval;
        assert j in tried + {n};
      }
    }
  }

  lemma TriedSources(turns: seq<Turn>, n: nat, tried: set<nat>, deadline: int, interval: nat)
    requires n < |turns| && deadline <= turns[n].after + interval
    ensures Sourced(turns, n + 1, tried + {n}, deadline, interval)
  {
    assert n in tried + {n};
  }

  /**
    Which damage is captured: `taken` are the turns captured, `tried` all turns that grabbed.  A grab
    is captured unless it fails, and every turn with damage is tried, unless another grab was tried
    less than an interval before it.
   */
  method CaptureLoop(turns: seq<Turn>, interval: nat)
    returns (captures: seq<Capture>, ghost taken: seq<nat>, ghost tried: set<nat>)
    requires Clocked(turns)
    ensures Paced(captures, interval)
    ensures forall c | c in captures :: exists t | t in turns :: t.damage && t.grabbed && c == Capture(t.before, t.after)
    ensures Mirrors(captures, taken, turns) && Rising(taken, |turns|)
    ensures forall k | k in tried :: k < |turns| && Asks(turns[k]) && (turns[k].grabbed <==> k in taken)
    ensures forall k | 0 <= k < |turns| && Asks(turns[k]) :: k in tried || Excused(turns, tried, k, interval)
  {
    hide Answered, Sourced, Paced, Allows, Rising, Excused, Clocked, Mirrors;
    captures, taken, tried := [], [], {};
    var deadline := 0;
    var n := 0;
    Begins(turns, interval);
    while n < |turns|
      invariant 0 <= n <= |turns| && deadline >= 0 && (deadline == 0 <==> n == 0) && (n == 0 ==> captures == [] && tried == {})
      invariant Paced(captures, interval) && Allows(captures, deadline, interval)
      invariant Mirrors(captures, taken, turns) && Rising(taken, n)
      invariant Answered(turns, n, taken, tried, interval)
      invariant n > 0 ==> Sourced(turns, n, tried, deadline, interval)
    {
      var turn := turns[n];
      TurnClock(turns, n);
      if deadline == 0 {
        deadline := turn.start;
        FirstDeadline(turns, interval);
      } else {
        StillSourced(turns, n, tried, deadline, interval);
      }
      n := n + 1;
      StillRising(taken, n - 1);
      if !turn.polled {
        Unasked(turns, n - 1, taken, tried, interval);
        continue;
      }
      if !turn.damage {
        Unasked(turns, n - 1, taken, tried, interval);
        continue;
      }
      if turn.before < deadline {
        TooSoon(turns, n - 1, taken, tried, deadline, interval);
        continue;
      }
      Tried(turns, n - 1, taken, tried, interval);
      if !turn.grabbed {
        Later(captures, deadline, turn.before + interval, interval);
        deadline := turn.before + interval;
        TriedSources(turns, n - 1, tried, deadline, interval);
        tried := tried + {n - 1};
        continue;
      }
      var next := deadline + interval;
      if next < turn.after {
        next := turn.after + interval;
      }
      NextCapture(captures, deadline, Capture(turn.before, turn.after), next, interval);
      TriedSources(turns, n - 1, tried, next, interval);
      OneMore(turns, captures, taken, n - 1);
      captures, taken, tried := captures + [Capture(turn.before, turn.after)], taken + [n - 1], tried + {n - 1};
      deadline := next;
    }
    Ends(turns, captures, taken, tried, interval);
  }

  lemma TurnClock(turns: seq<Turn>, n: nat)
    requires Clocked(turns) && n < |turns|
    ensures 0 < turns[n].start <= turns[n].before <= turns[n].after
  {}

  lemma OneMore(turns: seq<Turn>, captures: seq<Capture>, taken: seq<nat>, n: nat)
    requires Mirrors(captures, taken, turns) && n < |turns| && Asks(turns[n]) && turns[n].grabbed
    ensures Mirrors(captures + [Capture(turns[n].before, turns[n].after)], taken + [n], turns)
  {}

  lemma Begins(turns: seq<Turn>, interval: nat)
    ensures Mirrors([], [], turns)
    ensures Paced([], interval) && Allows([], 0, interval) && Rising([], 0) && Answered(turns, 0, [], {}, interval)
  {}

  lemma FirstDeadline(turns: seq<Turn>, interval: nat)
    requires Clocked(turns) && turns != []
    ensures Allows([], turns[0].start, interval) && Sourced(turns, 1, {}, turns[0].start, interval)
  {}

  lemma StillRising(taken: seq<nat>, n: nat)
    requires Rising(taken, n)
    ensures Rising(taken, n + 1)
  {}

  lemma Ends(turns: seq<Turn>, captures: seq<Capture>, taken: seq<nat>, tried: set<nat>, interval: nat)
    requires Mirrors(captures, taken, turns) && Answered(turns, |turns|, taken, tried, interval)
    ensures forall c | c in captures :: exists t | t in turns :: t.damage && t.grabbed && c == Capture(t.before, t.after)
    ensures forall k | k in tried :: k < |turns| && Asks(turns[k]) && (turns[k].grabbed <==> k in taken)
    ensures forall k | 0 <= k < |turns| && Asks(turns[k]) :: k in tried || Excused(turns, tried, k, interval)
  {
    forall c | c in captures ensures exists t | t in turns :: t.damage && t.grabbed && c == Capture(t.before, t.after) {
      var i :| 0 <= i < |captures| && captures[i] == c;
      assert turns[taken[i]] in turns;
    }
  }

  lemma Later(captures: seq<Capture>, deadline: int, later: int, interval: nat)
    requires Allows(captures, deadline, interval) && deadline <= later
    ensures Allows(captures, later, interval)
  {
    forall i | 0 <= i < |captures| ensures later - captures[i].end >= (|captures| - 1 - i) * interval {
      assert deadline - captures[i].end >= (|captures| - 1 - i) * interval;
    }
  }

  lemma NextCapture(captures: seq<Capture>, deadline: int, c: Capture, next: int, interval: nat)
    requires Paced(captures, interval) && Allows(captures, deadline, interval)
    requires deadline <= c.begin && next >= deadline + interval && next >= c.end
    ensures Paced(captures + [c], interval) && Allows(captures + [c], next, interval)
  {
    var after := captures + [c];
    forall i | 0 <= i < |captures| ensures next - captures[i].end >= (|captures| - i) * interval {
      assert deadline - captures[i].end >= (|captures| - 1 - i) * interval;
      assert (|captures| - i) * interval == (|captures| - 1 - i) * interval + interval;
    }
  }
}
