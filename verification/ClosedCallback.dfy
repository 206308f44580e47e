/**
  The exactly-once closed callback: one thread installs it while any number of others are on
  their way out.  Every step below is one shared access of the session.
 */
module ClosedCallback {

  // ---- Interleavings ----

  /** Notifying is a read of the callback, a compare-and-swap and a call; a thread leaving clears the flag first. */
  datatype Pc = Begin | Installed | Stored | Notifying | Swapping | Calling | Done

  /** `winner` is the thread whose compare-and-swap succeeded; `blind` counts calls made before the user data was stored. */
  datatype Shared = Shared(alive: bool, callback: bool, userData: bool, invoked: bool, winner: int, calls: nat, blind: nat)

  /** Thread 0 installs the callback; the others leave. */
  datatype System = System(mem: Shared, pcs: seq<Pc>)

  const NOBODY := -1

  function Notify(mem: Shared, pc: Pc, thread: nat): (Shared, Pc) {
    match pc
    case Notifying => (mem, if mem.callback then Swapping else Done)
    case Swapping => if mem.invoked then (mem, Done) else (mem.(invoked := true, winner := thread), Calling)
    case Calling => (mem.(calls := mem.calls + 1, blind := if mem.userData then mem.blind else mem.blind + 1), Done)
    case _ => (mem, pc)
  }

  /** One shared access of one thread; `clears` says whether it clears the flag when it leaves. */
  function Access(mem: Shared, pc: Pc, thread: nat, clears: bool): (Shared, Pc) {
    match pc
    case Begin =>
      if thread == 0 then (mem.(callback := true), Installed)
      else (if clears then mem.(alive := false) else mem, Notifying)
    case Installed => (mem.(userData := true), Stored)
    case Stored => (mem, if mem.alive then Done else Notifying)
    case _ => Notify(mem, pc, thread)
  }

  predicate Enabled(s: System, thread: nat) {
    thread < |s.pcs| && s.pcs[thread] != Done
  }

  /** `clears[i]` says whether leaving thread i + 1 clears the flag. */
  predicate Clears(clears: seq<bool>, thread: nat)
    requires thread <= |clears|
  {
    thread > 0 && clears[thread - 1]
  }

  function Next(clears: seq<bool>, s: System, thread: nat): System
    requires Enabled(s, thread) && |s.pcs| == |clears| + 1
  {
    var (mem, pc) := Access(s.mem, s.pcs[thread], thread, Clears(clears, thread));
    System(mem, s.pcs[thread := pc])
  }

  function Start(clears: seq<bool>): System {
    System(Shared(true, false, false, false, NOBODY, 0, 0), seq(|clears| + 1, _ => Begin))
  }

  predicate Possible(clears: seq<bool>, steps: seq<nat>)
    decreases |steps|, 0
  {
    steps == [] ||
      var n := |steps| - 1;
      Possible(clears, steps[..n]) && Enabled(Run(clears, steps[..n]), steps[n])
  }

  function Run(clears: seq<bool>, steps: seq<nat>): (s: System)
    requires Possible(clears, steps)
    ensures |s.pcs| == |clears| + 1
    decreases |steps|, 1
  {
    if steps == [] then Start(clears) else var n := |steps| - 1; Next(clears, Run(clears, steps[..n]), steps[n])
  }

  /** The flag goes down with the first thread that clears it; only thread 0 installs. */
  predicate Flags(clears: seq<bool>, s: System) {
    && |s.pcs| == |clears| + 1
    && (forall t | 1 <= t < |s.pcs| :: s.pcs[t] != Installed && s.pcs[t] != Stored)
    && (s.mem.callback <==> s.pcs[0] != Begin)
    && (s.mem.userData <==> s.pcs[0] != Begin && s.pcs[0] != Installed)
    && (forall t | 0 <= t < |s.pcs| && s.pcs[t] == Swapping :: s.mem.callback)
    && (forall t | 1 <= t < |s.pcs| && clears[t - 1] && s.pcs[t] != Begin :: !s.mem.alive)
  }

  /** At most one thread wins the swap, and it calls once. */
  predicate OneWinner(s: System) {
    && (s.mem.invoked <==> s.mem.winner != NOBODY)
    && (s.mem.winner == NOBODY ==> s.mem.calls == 0)
    && (s.mem.winner != NOBODY ==>
          && 0 <= s.mem.winner < |s.pcs|
          && s.pcs[s.mem.winner] == (if s.mem.calls == 0 then Calling else Done) && s.mem.calls <= 1)
    && (forall t | 0 <= t < |s.pcs| && s.pcs[t] == Calling :: t == s.mem.winner)
  }

  /** A clearing thread that leaves without a winner leaves the duty to the installer. */
  predicate Duty(clears: seq<bool>, s: System)
    requires |s.pcs| == |clears| + 1
  {
    forall t | 1 <= t < |s.pcs| && clears[t - 1] && s.pcs[t] == Done && !s.mem.invoked :: s.pcs[0] != Done
  }

  predicate Inv(clears: seq<bool>, s: System) {
    Flags(clears, s) && OneWinner(s) && Duty(clears, s)
  }

  lemma StepFlags(clears: seq<bool>, s: System, thread: nat)
    requires Flags(clears, s) && Enabled(s, thread)
    ensures Flags(clears, Next(clears, s, thread))
  {}

  lemma StepWinner(clears: seq<bool>, s: System, thread: nat)
    requires |s.pcs| == |clears| + 1 && OneWinner(s) && Enabled(s, thread)
    ensures OneWinner(Next(clears, s, thread))
  {}

  lemma StepInv(clears: seq<bool>, s: System, thread: nat)
    requires Inv(clears, s) && Enabled(s, thread)
    ensures Inv(clears, Next(clears, s, thread))
  {
    StepFlags(clears, s, thread);
    StepWinner(clears, s, thread);
    hide OneWinner;
  }

  lemma {:induction false} RunInv(clears: seq<bool>, steps: seq<nat>)
    requires Possible(clears, steps)
    ensures Inv(clears, Run(clears, steps))
    decreases |steps|
  {
    hide Inv, Next;
    if steps == [] {
      StartInv(clears);
    } else {
      var n := |steps| - 1;
      RunInv(clears, steps[..n]);
      StepInv(clears, Run(clears, steps[..n]), steps[n]);
    }
  }

  lemma StartInv(clears: seq<bool>)
    ensures Inv(clears, Start(clears))
  {}

  ghost predicate Finished(s: System) {
    forall t | 0 <= t < |s.pcs| :: s.pcs[t] == Done
  }

  /** In every interleaving the callback runs at most once. */
  lemma NeverTwice(clears: seq<bool>, steps: seq<nat>)
    requires Possible(clears, steps)
    ensures Run(clears, steps).mem.calls <= 1
  {
    RunInv(clears, steps);
  }

  ghost predicate NeverLost(clears: seq<bool>) {
    forall steps | Possible(clears, steps) && Finished(Run(clears, steps)) :: Run(clears, steps).mem.calls == 1
  }

  lemma Extend(clears: seq<bool>, steps: seq<nat>, thread: nat)
    requires Possible(clears, steps) && Enabled(Run(clears, steps), thread)
    ensures Possible(clears, steps + [thread])
    ensures Run(clears, steps + [thread]) == Next(clears, Run(clears, steps), thread)
  {
    assert (steps + [thread])[..|steps|] == steps;
  }

  /** The state in which the first k leaving threads have come and gone before the callback exists. */
  function AfterExits(clears: seq<bool>, k: nat): System {
    System(Start(clears).mem, seq(|clears| + 1, t => if 1 <= t <= k then Done else Begin))
  }

  lemma {:induction false} ExitEarly(clears: seq<bool>, k: nat) returns (steps: seq<nat>)
    requires k <= |clears| && forall i | 0 <= i < |clears| :: !clears[i]
    ensures Possible(clears, steps) && Run(clears, steps) == AfterExits(clears, k)
  {
    if k == 0 {
      steps := [];
      assert Start(clears).pcs == AfterExits(clears, 0).pcs;
    } else {
      var before := ExitEarly(clears, k - 1);
      Extend(clears, before, k);
      Extend(clears, before + [k], k);
      steps := before + [k] + [k];
      assert Run(clears, steps).pcs == AfterExits(clears, k).pcs;
    }
  }

  lemma ClearingNeverLoses(clears: seq<bool>, i: nat, steps: seq<nat>)
    requires i < |clears| && clears[i] && Possible(clears, steps) && Finished(Run(clears, steps))
    ensures Run(clears, steps).mem.calls == 1
  {
    hide Run, Next, Possible;
    RunInv(clears, steps);
    assert Run(clears, steps).pcs[i + 1] == Done;
  }

  lemma LostWithoutClearing(clears: seq<bool>) returns (steps: seq<nat>)
    requires forall i | 0 <= i < |clears| :: !clears[i]
    ensures Possible(clears, steps) && Finished(Run(clears, steps)) && Run(clears, steps).mem.calls == 0
  {
    hide Run, Possible;
    var gone := ExitEarly(clears, |clears|);
    Extend(clears, gone, 0);
    Extend(clears, gone + [0], 0);
    Extend(clears, gone + [0] + [0], 0);
    steps := gone + [0] + [0] + [0];
  }

  /** The callback is never lost exactly when some leaving thread clears the flag first. */
  lemma NeverLostIffFlagCleared(clears: seq<bool>)
    ensures NeverLost(clears) <==> exists i | 0 <= i < |clears| :: clears[i]
  {
    hide Run, Possible, Finished;
    if i :| 0 <= i < |clears| && clears[i] {
      forall steps | Possible(clears, steps) && Finished(Run(clears, steps)) ensures Run(clears, steps).mem.calls == 1 {
        ClearingNeverLoses(clears, i, steps);
      }
    } else {
      var _ := LostWithoutClearing(clears);
    }
  }

  // ---- User data ----

  /** A thread finds the callback while its user data is still to come. */
  predicate EarlyRead(s: System, thread: nat) {
    thread < |s.pcs| && s.pcs[thread] == Notifying && s.mem.callback && !s.mem.userData
  }

  predicate NoEarlyRead(clears: seq<bool>, steps: seq<nat>)
    requires Possible(clears, steps)
    decreases |steps|
  {
    steps == [] ||
      var n := |steps| - 1;
      NoEarlyRead(clears, steps[..n]) && !EarlyRead(Run(clears, steps[..n]), steps[n])
  }

  predicate Sighted(s: System) {
    && s.mem.blind == 0
    && forall t | 0 <= t < |s.pcs| && (s.pcs[t] == Swapping || s.pcs[t] == Calling) :: s.mem.userData
  }

  lemma StepSighted(clears: seq<bool>, s: System, thread: nat)
    requires Flags(clears, s) && Sighted(s) && Enabled(s, thread) && !EarlyRead(s, thread)
    ensures Sighted(Next(clears, s, thread))
  {}

  /** In a schedule where nobody reads the callback between its two stores, no call misses its data. */
  lemma {:induction false} LateReadsAreSighted(clears: seq<bool>, steps: seq<nat>)
    requires Possible(clears, steps) && NoEarlyRead(clears, steps)
    ensures Sighted(Run(clears, steps))
    decreases |steps|
  {
    if steps != [] {
      var n := |steps| - 1;
      LateReadsAreSighted(clears, steps[..n]);
      RunInv(clears, steps[..n]);
      StepSighted(clears, Run(clears, steps[..n]), steps[n]);
    }
  }

  lemma {:induction false} AloneNeverReadsEarly(steps: seq<nat>)
    requires Possible([], steps)
    ensures NoEarlyRead([], steps)
    decreases |steps|
  {
    if steps != [] {
      var n := |steps| - 1;
      AloneNeverReadsEarly(steps[..n]);
      RunInv([], steps[..n]);
    }
  }

  /** The callback pointer is stored before its user data, so any leaving thread can run it with the data still missing. */
  lemma CallbackMayRunBlind(clears: seq<bool>) returns (steps: seq<nat>)
    requires clears != []
    ensures Possible(clears, steps) && Run(clears, steps).mem.blind == 1
  {
    hide Possible, Run;
    assert Possible(clears, []) && Run(clears, []) == Start(clears) by { EmptyRun(clears); }
    Extend(clears, [], 0);
    var a := [] + [0];
    Extend(clears, a, 1);
    Extend(clears, a + [1], 1);
    Extend(clears, a + [1] + [1], 1);
    Extend(clears, a + [1] + [1] + [1], 1);
    steps := a + [1] + [1] + [1] + [1];
  }

  lemma EmptyRun(clears: seq<bool>)
    ensures Possible(clears, []) && Run(clears, []) == Start(clears)
  {}

  ghost predicate NeverBlind(clears: seq<bool>) {
    forall steps | Possible(clears, steps) :: Run(clears, steps).mem.blind == 0
  }

  /** The callback never runs without its user data exactly when no thread can leave during the installation. */
  lemma NeverBlindIffNobodyLeaves(clears: seq<bool>)
    ensures NeverBlind(clears) <==> clears == []
  {
    if clears == [] {
      forall steps | Possible(clears, steps) ensures Run(clears, steps).mem.blind == 0 {
        AloneNeverReadsEarly(steps);
        LateReadsAreSighted(clears, steps);
      }
    } else {
      var blind := CallbackMayRunBlind(clears);
      assert Run(clears, blind).mem.blind != 0;
    }
  }

  // ---- One thread by itself ----

  function Left(pc: Pc): nat {
    match pc
    case Begin => 6
    case Installed => 5
    case Stored => 4
    case Notifying => 3
    case Swapping => 2
    case Calling => 1
    case Done => 0
  }

  /** What a thread makes of the shared fields when nobody else runs until it is done. */
  function Alone(mem: Shared, pc: Pc, thread: nat, clears: bool): Shared
    decreases Left(pc)
  {
    if pc == Done then mem else
      var (mem', pc') := Access(mem, pc, thread, clears);
      Alone(mem', pc', thread, clears)
  }

  /** Such an uninterrupted stretch is one of the interleavings. */
  lemma {:induction false} AloneIsARun(clears: seq<bool>, steps: seq<nat>, thread: nat) returns (all: seq<nat>)
    requires Possible(clears, steps) && thread <= |clears|
    ensures Possible(clears, all)
    ensures var s := Run(clears, steps);
      Run(clears, all) == System(Alone(s.mem, s.pcs[thread], thread, Clears(clears, thread)), s.pcs[thread := Done])
    decreases Left(Run(clears, steps).pcs[thread])
  {
    var s := Run(clears, steps);
    if s.pcs[thread] == Done {
      assert s.pcs[thread := Done] == s.pcs;
      all := steps;
    } else {
      Extend(clears, steps, thread);
      var next := Run(clears, steps + [thread]);
      all := AloneIsARun(clears, steps + [thread], thread);
      assert next.pcs[thread := Done] == s.pcs[thread := Done];
    }
  }

  // ---- The session's fields ----

  class Session {
    var connectionAlive: bool
    var closedCallback: bool
    /** Whether the user data of the installed callback is in place. */
    var closedCallbackData: bool
    var closedCallbackInvoked: bool
    ghost var winner: int
    ghost var calls: nat
    ghost var blind: nat

    ghost function View(): Shared
      reads this
    {
      Shared(connectionAlive, closedCallback, closedCallbackData, closedCallbackInvoked, winner, calls, blind)
    }

    constructor ()
      ensures View() == Start([]).mem
    {
      connectionAlive, closedCallback, closedCallbackData, closedCallbackInvoked := true, false, false, false;
      winner, calls, blind := NOBODY, 0, 0;
    }

    method NotifyClosed(ghost thread: nat)
      modifies this
      ensures View() == Alone(old(View()), Notifying, thread, false) == Alone(old(View()), Notifying, thread, true)
      ensures closedCallbackInvoked == (old(closedCallbackInvoked) || closedCallback)
      ensures calls == old(calls) + if closedCallback && !old(closedCallbackInvoked) then 1 else 0
    {
      if !closedCallback {
        return;
      }
      if closedCallbackInvoked {
        return;
      }
      closedCallbackInvoked := true;
      winner := thread;
      calls, blind := calls + 1, if closedCallbackData then blind else blind + 1;
    }

    /** The installing thread is number 0; a removal forgets an earlier call. */
    method SetClosedCallback(install: bool)
      modifies this
      ensures install ==> View() == Alone(old(View()), Begin, 0, false)
      ensures !install ==> View() == old(View()).(callback := false, userData := false, invoked := false)
      ensures connectionAlive == old(connectionAlive) && closedCallback == install
      ensures closedCallbackInvoked == (install && (old(closedCallbackInvoked) || !connectionAlive))
      ensures calls == old(calls) + if install && !connectionAlive && !old(closedCallbackInvoked) then 1 else 0
    {
      closedCallback := install;
      closedCallbackData := install;
      if !install {
        closedCallbackInvoked := false;
        return;
      }
      if !connectionAlive {
        NotifyClosed(0);
      }
    }

    /** Any thread but the installing one. */
    method StopEventThread(ghost thread: nat)
      requires thread > 0
      modifies this
      ensures View() == Alone(old(View()), Begin, thread, true)
      ensures !connectionAlive && closedCallback == old(closedCallback)
      ensures closedCallbackInvoked == (old(closedCallbackInvoked) || closedCallback)
      ensures calls == old(calls) + if closedCallback && !old(closedCallbackInvoked) then 1 else 0
    {
      connectionAlive := false;
      NotifyClosed(thread);
    }
  }
}
