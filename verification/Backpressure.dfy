/**
  Back-pressure of the graphics pipeline: the counter of unacknowledged frames, and the protocol
  between the render thread and the client's acknowledgements.
 */
module Backpressure {

  /** The fields the pipeline lock protects. */
  datatype Pipe = Pipe(surfaceReady: bool, outstanding: int, maxOutstanding: nat, suspended: bool, lastH264: bool)

  const MAX_OUTSTANDING: nat := 3

  function Fresh(max: nat): Pipe {
    Pipe(true, 0, max, false, false)
  }

  /** The condition of the wait loop. */
  predicate MustWait(p: Pipe) {
    p.surfaceReady && !p.suspended && p.outstanding >= p.maxOutstanding
  }

  predicate HasCapacity(p: Pipe) {
    p.surfaceReady && (p.suspended || p.outstanding < p.maxOutstanding)
  }

  predicate CanSubmit(p: Pipe) {
    p.surfaceReady && (p.suspended || p.outstanding < p.maxOutstanding || p.lastH264)
  }

  function CountFrame(p: Pipe, add: bool): Pipe {
    if p.suspended then p
    else if add then p.(outstanding := p.outstanding + 1)
    else if p.outstanding > 0 then p.(outstanding := p.outstanding - 1)
    else p
  }

  function Acknowledge(p: Pipe, suspend: bool): Pipe {
    if suspend then p.(suspended := true, outstanding := 0)
    else if p.outstanding > 0 then p.(suspended := false, outstanding := if p.lastH264 then 0 else p.outstanding - 1)
    else p.(suspended := false)
  }

  // ---- The pipeline object ----

  /** What ends one wait on the condition variable: other threads ran, or the deadline passed. */
  datatype Wake = Notified(acks: seq<bool>) | DeadlinePassed

  datatype WaitResult = Ready(capacity: bool) | StillBlocked

  function AcknowledgeAll(p: Pipe, acks: seq<bool>): Pipe
    decreases |acks|
  {
    if acks == [] then p else AcknowledgeAll(Acknowledge(p, acks[0]), acks[1..])
  }

  function WaitFor(p: Pipe, timeout: int, wakes: seq<Wake>): (Pipe, WaitResult)
    decreases |wakes|
  {
    if !MustWait(p) then (p, Ready(HasCapacity(p)))
    else if wakes == [] then (p, StillBlocked)
    else match wakes[0]
      case Notified(acks) => WaitFor(AcknowledgeAll(p, acks), timeout, wakes[1..])
      case DeadlinePassed => if timeout < 0 then WaitFor(p, timeout, wakes[1..]) else (p, Ready(HasCapacity(p)))
  }

  class GraphicsPipeline {
    var surfaceReady: bool
    var outstandingFrames: int
    var maxOutstandingFrames: nat
    var frameAcksSuspended: bool
    var lastFrameH264: bool

    ghost function View(): Pipe
      reads this
    {
      Pipe(surfaceReady, outstandingFrames, maxOutstandingFrames, frameAcksSuspended, lastFrameH264)
    }

    constructor ()
      ensures View() == Fresh(MAX_OUTSTANDING).(surfaceReady := false)
    {
      surfaceReady, outstandingFrames, maxOutstandingFrames := false, 0, MAX_OUTSTANDING;
      frameAcksSuspended, lastFrameH264 := false, false;
    }

    /** Creating the surface clears the back-pressure state; an existing surface is kept as it is. */
    method ResetLocked(created: bool) returns (ok: bool)
      modifies this
      ensures ok == (old(surfaceReady) || created)
      ensures View() == if old(surfaceReady) || !created then old(View()) else Fresh(old(maxOutstandingFrames))
    {
      if surfaceReady {
        return true;
      }
      if !created {
        return false;
      }
      outstandingFrames := 0;
      surfaceReady := true;
      lastFrameH264 := false;
      frameAcksSuspended := false;
      return true;
    }

    method CanSubmitFrame() returns (ok: bool)
      ensures ok == CanSubmit(View())
    {
      return surfaceReady && (frameAcksSuspended || outstandingFrames < maxOutstandingFrames || lastFrameH264);
    }

    method OutFrameChange(add: bool)
      modifies this`outstandingFrames
      ensures View() == CountFrame(old(View()), add)
    {
      if add {
        if !frameAcksSuspended {
          outstandingFrames := outstandingFrames + 1;
        }
      } else {
        if !frameAcksSuspended && outstandingFrames > 0 {
          outstandingFrames := outstandingFrames - 1;
        }
      }
    }

    method FrameAck(suspend: bool)
      modifies this`outstandingFrames, this`frameAcksSuspended
      ensures View() == Acknowledge(old(View()), suspend)
    {
      if suspend {
        frameAcksSuspended := true;
        outstandingFrames := 0;
        return;
      }
      frameAcksSuspended := false;
      if outstandingFrames > 0 {
        if lastFrameH264 {
          outstandingFrames := 0;
        } else {
          outstandingFrames := outstandingFrames - 1;
        }
      }
    }

    method SetLastFrameMode(h264: bool)
      modifies this`lastFrameH264
      ensures View() == old(View()).(lastH264 := h264)
    {
      lastFrameH264 := h264;
    }

    /** The acknowledgements another thread delivers while this one sleeps on the condition variable. */
    method Sleep(acks: seq<bool>)
      modifies this`outstandingFrames, this`frameAcksSuspended
      ensures View() == AcknowledgeAll(old(View()), acks)
    {
      var i := 0;
      while i < |acks|
        invariant 0 <= i <= |acks|
        invariant AcknowledgeAll(View(), acks[i..]) == AcknowledgeAll(old(View()), acks)
      {
        assert acks[i..][1..] == acks[i + 1..];
        FrameAck(acks[i]);
        i := i + 1;
      }
    }

    method WaitForCapacity(timeout: int, wakes: seq<Wake>) returns (result: WaitResult)
      modifies this`outstandingFrames, this`frameAcksSuspended
      ensures (View(), result) ==
        if old(lastFrameH264) then (old(View()), Ready(true)) else WaitFor(old(View()), timeout, wakes)
    {
      if lastFrameH264 {
        return Ready(true);
      }
      var i := 0;
      while surfaceReady && !frameAcksSuspended && outstandingFrames >= maxOutstandingFrames
        invariant 0 <= i <= |wakes|
        invariant WaitFor(View(), timeout, wakes[i..]) == WaitFor(old(View()), timeout, wakes)
        decreases |wakes| - i
      {
        if i == |wakes| {
          return StillBlocked;
        }
        assert wakes[i..][1..] == wakes[i + 1..];
        match wakes[i] {
          case Notified(acks) =>
            Sleep(acks);
          case DeadlinePassed =>
            if timeout >= 0 {
              break;
            }
        }
        i := i + 1;
      }
      return Ready(surfaceReady && (frameAcksSuspended || outstandingFrames < maxOutstandingFrames));
    }
  }

  /** A wait that ends without a deadline ends with capacity, unless the surface went away. */
  lemma {:induction false} WaitEndsWithCapacity(p: Pipe, timeout: int, wakes: seq<Wake>)
    requires timeout < 0 && WaitFor(p, timeout, wakes).1.Ready?
    ensures WaitFor(p, timeout, wakes).1.capacity == p.surfaceReady
    ensures !MustWait(WaitFor(p, timeout, wakes).0)
    decreases |wakes|
  {
    if MustWait(p) {
      match wakes[0]
      case Notified(acks) =>
        AcknowledgeAllKeepsSurface(p, acks);
        WaitEndsWithCapacity(AcknowledgeAll(p, acks), timeout, wakes[1..]);
      case DeadlinePassed =>
        WaitEndsWithCapacity(p, timeout, wakes[1..]);
    }
  }

  /** A wait with a deadline is over when that passes, and then says whether there is capacity. */
  lemma {:induction false} DeadlineEndsWait(p: Pipe, timeout: int, wakes: seq<Wake>)
    requires timeout >= 0 && DeadlinePassed in wakes
    ensures WaitFor(p, timeout, wakes).1 == Ready(HasCapacity(WaitFor(p, timeout, wakes).0))
    decreases |wakes|
  {
    if MustWait(p) && wakes[0].Notified? {
      assert DeadlinePassed in wakes[1..];
      DeadlineEndsWait(AcknowledgeAll(p, wakes[0].acks), timeout, wakes[1..]);
    }
  }

  lemma {:induction false} AcknowledgeAllKeepsSurface(p: Pipe, acks: seq<bool>)
    ensures AcknowledgeAll(p, acks).surfaceReady == p.surfaceReady
    decreases |acks|
  {
    if acks != [] {
      AcknowledgeAllKeepsSurface(Acknowledge(p, acks[0]), acks[1..]);
    }
  }

  // ---- The protocol ----

  /** Where the render thread stands between two frames. */
  datatype Pc = Idle | Waiting | Checking | Cleared | SentUncounted(h264: bool) | Counted(h264: bool) | Disabled

  /**
    Ghosts: `owed` acknowledgements the client still has to send, `late` of them for frames sent
    while it had suspended, and `phantom` counted frames that carried no data.  A suspension moves
    what is owed to `forgiven`; `strays` are acknowledgements the client sent for those all the same.
   */
  datatype System = System(pipe: Pipe, pc: Pc, owed: nat, late: nat, phantom: nat, forgiven: nat, strays: nat)

  datatype Step =
    | BeginWait                                       // enter the capacity wait
    | Unblock                                         // leave it
    | CheckSubmit
    | NoFrame                                         // nothing captured, or the encoder failed
    | Send(h264: bool, onWire: bool, willAck: bool)   // the encoder reports success
    | Count
    | SetMode
    | ClientAck                                       // acknowledges a frame it owes
    | ClientSuspend
    | ClientResume                                    // ends a suspension
    | StrayAck                                        // acknowledges a frame already forgiven

  predicate Enabled(s: System, step: Step) {
    match step
    case BeginWait => s.pc == Idle
    case Unblock => s.pc == Waiting && !MustWait(s.pipe)
    case CheckSubmit => s.pc == Checking
    case NoFrame => s.pc == Cleared
    case Send(_, onWire, willAck) => s.pc == Cleared && (willAck ==> onWire) && (onWire && !s.pipe.suspended ==> willAck)
    case Count => s.pc.SentUncounted?
    case SetMode => s.pc.Counted?
    case ClientAck => s.owed > 0
    case ClientSuspend => true
    case ClientResume => s.pipe.suspended
    case StrayAck => s.forgiven > 0
  }

  /** An emptied counter has forgotten its phantom frames as well. */
  function Settle(s: System, p: Pipe, owed: nat, late: nat): System {
    s.(pipe := p, owed := owed, late := late, phantom := if p.outstanding == 0 then 0 else s.phantom)
  }

  function Next(s: System, step: Step): System
    requires Enabled(s, step)
  {
    match step
    case BeginWait =>
      s.(pc := if s.pipe.lastH264 then Checking
               else if MustWait(s.pipe) then Waiting
               else if HasCapacity(s.pipe) then Checking else Disabled)
    case Unblock => s.(pc := if HasCapacity(s.pipe) then Checking else Disabled)
    case CheckSubmit => s.(pc := if CanSubmit(s.pipe) then Cleared else Disabled)
    case NoFrame => s.(pc := Idle)
    case Send(h264, onWire, willAck) =>
      s.(pc := SentUncounted(h264),
         owed := if willAck then s.owed + 1 else s.owed,
         late := if willAck && s.pipe.suspended then s.late + 1 else s.late,
         phantom := if onWire then s.phantom else s.phantom + 1)
    case Count => s.(pc := Counted(s.pc.h264), pipe := CountFrame(s.pipe, true))
    case SetMode => s.(pc := Idle, pipe := s.pipe.(lastH264 := s.pc.h264))
    case ClientAck => Settle(s, Acknowledge(s.pipe, false), s.owed - 1, s.late)
    case ClientSuspend => Settle(s, Acknowledge(s.pipe, true), 0, 0).(forgiven := s.forgiven + s.owed, strays := 0)
    case ClientResume => Settle(s, Acknowledge(s.pipe, false), s.owed, s.late)
    case StrayAck => Settle(s, Acknowledge(s.pipe, false), s.owed, s.late).(forgiven := s.forgiven - 1, strays := s.strays + 1)
  }

  function Start(max: nat): System {
    System(Fresh(max), Idle, 0, 0, 0, 0, 0)
  }

  predicate Possible(max: nat, steps: seq<Step>)
    decreases |steps|, 0
  {
    steps == [] || (var n := |steps| - 1; Possible(max, steps[..n]) && Enabled(Run(max, steps[..n]), steps[n]))
  }

  function Run(max: nat, steps: seq<Step>): System
    requires Possible(max, steps)
    decreases |steps|, 1
  {
    if steps == [] then Start(max) else var n := |steps| - 1; Next(Run(max, steps[..n]), steps[n])
  }

  function Uncounted(s: System): nat {
    if s.pc.SentUncounted? then 1 else 0
  }

  /** The counter runs at most one ahead of the acknowledgements owed, phantom frames apart. */
  predicate Inv(max: nat, s: System) {
    && s.pipe.surfaceReady && s.pipe.maxOutstanding == max
    && 0 <= s.pipe.outstanding && (s.pipe.suspended ==> s.pipe.outstanding == 0)
    && s.pipe.outstanding + Uncounted(s) <= s.owed + 1 + s.phantom
    && (s.pc == Waiting ==> !s.pipe.lastH264)
  }

  lemma StepInv(max: nat, s: System, step: Step)
    requires Inv(max, s) && Enabled(s, step)
    ensures Inv(max, Next(s, step))
  {}

  lemma {:induction false} CreditBound(max: nat, steps: seq<Step>)
    requires Possible(max, steps)
    ensures Inv(max, Run(max, steps))
    decreases |steps|
  {
    if steps != [] {
      var n := |steps| - 1;
      CreditBound(max, steps[..n]);
      StepInv(max, Run(max, steps[..n]), steps[n]);
    }
  }

  /** How often the encoder reported success without sending. */
  function DataLess(steps: seq<Step>): nat {
    if steps == [] then 0
    else DataLess(steps[..|steps| - 1]) + if steps[|steps| - 1].Send? && !steps[|steps| - 1].onWire then 1 else 0
  }

  /** Frames that are counted always carried data. */
  predicate AllOnWire(steps: seq<Step>) {
    forall i | 0 <= i < |steps| && steps[i].Send? :: steps[i].onWire
  }

  lemma {:induction false} AllOnWireMeansNoDataLess(steps: seq<Step>)
    ensures AllOnWire(steps) <==> DataLess(steps) == 0
  {
    if steps != [] {
      var n := |steps| - 1;
      AllOnWireMeansNoDataLess(steps[..n]);
      assert AllOnWire(steps[..n]) <==> forall i | 0 <= i < n && steps[..n][i].Send? :: steps[..n][i].onWire;
      if AllOnWire(steps[..n]) {
        forall i | 0 <= i < n && steps[i].Send? ensures steps[i].onWire {
          assert steps[..n][i].onWire;
        }
      } else {
        var i :| 0 <= i < n && steps[..n][i].Send? && !steps[..n][i].onWire;
        assert !steps[i].onWire;
      }
    }
  }

  /** Only sends without data leave phantom frames behind. */
  lemma {:induction false} PhantomsAreDataLess(max: nat, steps: seq<Step>)
    requires Possible(max, steps)
    ensures Run(max, steps).phantom <= DataLess(steps)
    decreases |steps|
  {
    if steps != [] {
      PhantomsAreDataLess(max, steps[..|steps| - 1]);
    }
  }

  lemma NoPhantoms(max: nat, steps: seq<Step>)
    requires Possible(max, steps) && AllOnWire(steps)
    ensures Run(max, steps).phantom == 0
  {
    PhantomsAreDataLess(max, steps);
    AllOnWireMeansNoDataLess(steps);
  }

  /** The render thread sleeps and nothing but the client can wake it. */
  predicate Blocked(s: System) {
    s.pc == Waiting && MustWait(s.pipe)
  }

  function Repeat(step: Step, k: nat): seq<Step> {
    seq(k, _ => step)
  }

  lemma Extend(max: nat, steps: seq<Step>, step: Step)
    requires Possible(max, steps) && Enabled(Run(max, steps), step)
    ensures Possible(max, steps + [step]) && Run(max, steps + [step]) == Next(Run(max, steps), step)
  {
    assert (steps + [step])[..|steps|] == steps;
  }

  /** Each acknowledgement takes one frame off the counter a blocked thread looks at. */
  lemma {:induction false} AcksDrain(max: nat, steps: seq<Step>, k: nat)
    requires Possible(max, steps) && Blocked(Run(max, steps))
    requires k <= Run(max, steps).owed && k <= Run(max, steps).pipe.outstanding
    ensures Possible(max, steps + Repeat(ClientAck, k))
    ensures
      var s, t := Run(max, steps), Run(max, steps + Repeat(ClientAck, k));
      && t.pc == Waiting && t.owed == s.owed - k
      && t.pipe == s.pipe.(outstanding := s.pipe.outstanding - k)
  {
    CreditBound(max, steps);
    if k == 0 {
      assert steps + Repeat(ClientAck, k) == steps;
    } else {
      AcksDrain(max, steps, k - 1);
      Extend(max, steps + Repeat(ClientAck, k - 1), ClientAck);
      assert steps + Repeat(ClientAck, k - 1) + [ClientAck] == steps + Repeat(ClientAck, k);
    }
  }

  /**
    No deadlock: a thread blocked at n frames is owed at least n - 1 acknowledgements, less one for
    each send without data, and the first n - max + 1 of them let it go on.
   */
  lemma BlockedThreadIsReleased(max: nat, steps: seq<Step>)
    requires Possible(max, steps) && DataLess(steps) + 2 <= max && Blocked(Run(max, steps))
    ensures
      var s := Run(max, steps);
      var enough := s.pipe.outstanding - max + 1;
      && s.owed >= s.pipe.outstanding - 1 - DataLess(steps) && 0 < enough <= s.owed
      && Possible(max, steps + Repeat(ClientAck, enough))
      && var t := Run(max, steps + Repeat(ClientAck, enough));
         Enabled(t, Unblock) && Next(t, Unblock).pc == Checking
  {
    CreditBound(max, steps);
    PhantomsAreDataLess(max, steps);
    var s := Run(max, steps);
    AcksDrain(max, steps, s.pipe.outstanding - max + 1);
  }

  /** With at most `silent` sends without data, a blocked thread is always owed an acknowledgement. */
  ghost predicate DeadlockFree(max: nat, silent: nat) {
    forall steps | Possible(max, steps) && DataLess(steps) <= silent && Blocked(Run(max, steps)) :: Run(max, steps).owed > 0
  }

  /**
    The exact boundary: one credit can be lost to an acknowledgement that overtakes the count, and
    each send without data costs one more; the thread blocks for good as soon as they fill the room.
   */
  lemma DeadlockFreeIffRoomLeft(max: nat, silent: nat)
    ensures DeadlockFree(max, silent) <==> max >= silent + 2
  {
    if max >= silent + 2 {
      forall steps | Possible(max, steps) && DataLess(steps) <= silent && Blocked(Run(max, steps))
        ensures Run(max, steps).owed > 0
      {
        CreditBound(max, steps);
        PhantomsAreDataLess(max, steps);
      }
    } else {
      var full := Deadlock(max);
      assert DataLess(full) <= silent && Blocked(Run(max, full)) && Run(max, full).owed == 0;
    }
  }

  /** When every counted frame carried data, the lost credit alone is harmless if two frames fit, and only then. */
  lemma DeadlockFreeIffRoomForTwo(max: nat)
    ensures (forall steps | Possible(max, steps) && AllOnWire(steps) && Blocked(Run(max, steps)) :: Run(max, steps).owed > 0)
      <==> max >= 2
  {
    DeadlockFreeIffRoomLeft(max, 0);
    forall steps ensures AllOnWire(steps) <==> DataLess(steps) <= 0 {
      AllOnWireMeansNoDataLess(steps);
    }
  }

  /** A run that blocks for good with as few sends without data as possible. */
  lemma Deadlock(max: nat) returns (steps: seq<Step>)
    ensures Possible(max, steps) && Blocked(Run(max, steps)) && Run(max, steps).owed == 0
    ensures DataLess(steps) == if max == 0 then 0 else max - 1
  {
    if max == 0 {
      Extend(max, [], BeginWait);
      steps := [] + [BeginWait];
      DataLessAppend([], BeginWait);
    } else {
      var idle := PhantomFrames(max, max);
      Extend(max, idle, BeginWait);
      steps := idle + [BeginWait];
      DataLessAppend(idle, BeginWait);
    }
  }

  lemma DataLessAppend(steps: seq<Step>, step: Step)
    ensures DataLess(steps + [step]) == DataLess(steps) + if step.Send? && !step.onWire then 1 else 0
  {
    assert (steps + [step])[..|steps|] == steps;
  }

  lemma EmptyRun(max: nat)
    ensures Possible(max, []) && Run(max, []) == Start(max)
  {}

  /** The thread is idle with n frames counted, H264 never used, and nothing owed. */
  predicate Stranded(max: nat, n: nat, s: System) {
    s.pc == Idle && s.pipe == Fresh(max).(outstanding := n) && s.owed == 0
  }

  /** Four steps of the thread, one frame counted; the client may acknowledge before the count. */
  lemma OneFrame(max: nat, before: seq<Step>, n: nat, onWire: bool) returns (steps: seq<Step>)
    requires n < max && Possible(max, before) && Stranded(max, n, Run(max, before)) && (onWire ==> n == 0)
    ensures Possible(max, steps) && Stranded(max, n + 1, Run(max, steps))
    ensures DataLess(steps) == DataLess(before) + if onWire then 0 else 1
  {
    hide Possible, Run, DataLess;
    var send := Send(false, onWire, onWire);
    Extend(max, before, BeginWait);
    DataLessAppend(before, BeginWait);
    var b := before + [BeginWait];
    Extend(max, b, CheckSubmit);
    DataLessAppend(b, CheckSubmit);
    var c := b + [CheckSubmit];
    Extend(max, c, send);
    DataLessAppend(c, send);
    var d := c + [send];
    if onWire {
      Extend(max, d, ClientAck);
      DataLessAppend(d, ClientAck);
      d := d + [ClientAck];
    }
    Extend(max, d, Count);
    DataLessAppend(d, Count);
    var e := d + [Count];
    Extend(max, e, SetMode);
    DataLessAppend(e, SetMode);
    steps := e + [SetMode];
  }

  /** The acknowledgement overtakes the count, and one credit is gone. */
  lemma LosingCredit(max: nat) returns (steps: seq<Step>)
    requires max >= 1
    ensures Possible(max, steps) && AllOnWire(steps) && Stranded(max, 1, Run(max, steps))
  {
    EmptyRun(max);
    steps := OneFrame(max, [], 0, true);
    AllOnWireMeansNoDataLess(steps);
  }

  /** One lost credit, then n - 1 frames without data, leave n frames counted that nobody will acknowledge. */
  lemma {:induction false} PhantomFrames(max: nat, n: nat) returns (steps: seq<Step>)
    requires 1 <= n <= max
    ensures Possible(max, steps) && Stranded(max, n, Run(max, steps)) && DataLess(steps) == n - 1
  {
    if n == 1 {
      steps := LosingCredit(max);
      AllOnWireMeansNoDataLess(steps);
    } else {
      var before := PhantomFrames(max, n - 1);
      steps := OneFrame(max, before, n - 1, false);
    }
  }

  /**
    An encoder that reports success without sending, as it does when no codec is usable, is counted
    like a sent frame.  With the default room for three, two of them and one lost credit suffice.
   */
  lemma PhantomFramesDeadlock() returns (steps: seq<Step>)
    ensures Possible(MAX_OUTSTANDING, steps)
    ensures var s := Run(MAX_OUTSTANDING, steps); Blocked(s) && s.owed == 0 && !AllOnWire(steps)
    ensures DataLess(steps) == 2
  {
    steps := Deadlock(MAX_OUTSTANDING);
    AllOnWireMeansNoDataLess(steps);
  }

  /** It takes at least max - 1 phantom frames: a lost credit can stand in for one of them only. */
  lemma DeadlockNeedsPhantoms(max: nat, steps: seq<Step>)
    requires Possible(max, steps) && Blocked(Run(max, steps)) && Run(max, steps).owed == 0
    ensures DataLess(steps) + 1 >= Run(max, steps).phantom + 1 >= Run(max, steps).pipe.outstanding >= max
  {
    CreditBound(max, steps);
    PhantomsAreDataLess(max, steps);
  }

  // ---- After H264 ----

  /** The first acknowledgement after an H264 frame takes everything off the counter, in every run. */
  lemma AckAfterH264ClearsAll(max: nat, steps: seq<Step>)
    requires Possible(max, steps) && Run(max, steps).pipe.lastH264 && Run(max, steps).owed > 0
    ensures Possible(max, steps + [ClientAck]) && Run(max, steps + [ClientAck]).pipe.outstanding == 0
  {
    CreditBound(max, steps);
    Extend(max, steps, ClientAck);
  }

  /** Otherwise it takes off one, if there is one. */
  lemma AckTakesOneOff(max: nat, steps: seq<Step>)
    requires Possible(max, steps) && !Run(max, steps).pipe.lastH264 && Run(max, steps).owed > 0
    ensures Possible(max, steps + [ClientAck])
    ensures var n := Run(max, steps).pipe.outstanding; Run(max, steps + [ClientAck]).pipe.outstanding == if n > 0 then n - 1 else 0
  {
    CreditBound(max, steps);
    Extend(max, steps, ClientAck);
  }

  /** One whole frame of the thread while nobody else steps. */
  function FrameSteps(h264: bool): seq<Step> {
    [] + [BeginWait] + [CheckSubmit] + [Send(h264, true, true)] + [Count] + [SetMode]
  }

  lemma WholeFrame(max: nat, before: seq<Step>, h264: bool)
    requires Possible(max, before) && Run(max, before).pc == Idle && CanSubmit(Run(max, before).pipe)
    ensures Possible(max, before + FrameSteps(h264))
    ensures
      var s, t := Run(max, before), Run(max, before + FrameSteps(h264));
      t.pc == Idle && t.owed == s.owed + 1 && t.pipe == CountFrame(s.pipe, true).(lastH264 := h264)
  {
    hide Possible, Run;
    var send := Send(h264, true, true);
    Extend(max, before, BeginWait);
    var b := before + [BeginWait];
    Extend(max, b, CheckSubmit);
    var c := b + [CheckSubmit];
    Extend(max, c, send);
    var d := c + [send];
    Extend(max, d, Count);
    var e := d + [Count];
    Extend(max, e, SetMode);
    assert before + FrameSteps(h264) == e + [SetMode];
  }

  /** H264 skips the wait: any number of frames can be counted. */
  lemma {:induction false} ManyH264(max: nat, n: nat) returns (steps: seq<Step>)
    requires max > 0
    ensures Possible(max, steps)
    ensures var s := Run(max, steps); s.pc == Idle && s.owed == n && s.pipe == Fresh(max).(outstanding := n, lastH264 := n > 0)
  {
    if n == 0 {
      EmptyRun(max);
      steps := [];
    } else {
      var fewer := ManyH264(max, n - 1);
      WholeFrame(max, fewer, true);
      steps := fewer + FrameSteps(true);
    }
  }

  /** However many H264 frames are counted, after one acknowledgement and one other frame the thread need not wait. */
  lemma OneAckSufficesAfterH264(max: nat, steps: seq<Step>)
    requires max >= 2 && Possible(max, steps) && Run(max, steps).pc == Idle && Run(max, steps).pipe.lastH264 && Run(max, steps).owed > 0
    ensures
      var after := steps + [ClientAck] + FrameSteps(false);
      && Possible(max, after)
      && var s := Run(max, after);
         s.pc == Idle && s.pipe.outstanding == 1 && !s.pipe.lastH264 && !s.pipe.suspended && Next(s, BeginWait).pc == Checking
  {
    CreditBound(max, steps);
    Extend(max, steps, ClientAck);
    hide Possible, Run;
    WholeFrame(max, steps + [ClientAck], false);
  }

  // ---- The pipeline is never given up for congestion ----

  predicate Open(max: nat, s: System) {
    && Inv(max, s) && s.pc != Disabled
    && (s.pc == Checking ==> CanSubmit(s.pipe))
  }

  lemma OpenStep(max: nat, s: System, step: Step)
    requires max > 0 && Open(max, s) && Enabled(s, step)
    ensures Open(max, Next(s, step))
  {}

  lemma {:induction false} StaysOpen(max: nat, steps: seq<Step>)
    requires max > 0 && Possible(max, steps)
    ensures Open(max, Run(max, steps))
    decreases |steps|
  {
    hide Open, Next, Enabled;
    if steps == [] {
      OpenStart(max);
    } else {
      var n := |steps| - 1;
      StaysOpen(max, steps[..n]);
      OpenStep(max, Run(max, steps[..n]), steps[n]);
    }
  }

  lemma OpenStart(max: nat)
    ensures Open(max, Start(max))
  {}

  /**
    The renderer gives the pipeline up for congestion in no run, if there is room for a frame at all:
    what the wait found stays true until the second check, whatever the client sends in between.
   */
  ghost predicate NeverDisabled(max: nat) {
    forall steps | Possible(max, steps) :: Run(max, steps).pc != Disabled
  }

  lemma NeverDisabledIffRoom(max: nat)
    ensures NeverDisabled(max) <==> max > 0
  {
    if max > 0 {
      forall steps | Possible(max, steps) ensures Run(max, steps).pc != Disabled {
        StaysOpen(max, steps);
      }
    } else {
      hide Possible, Run;
      EmptyRun(max);
      Extend(max, [], ClientSuspend);
      var a := [] + [ClientSuspend];
      Extend(max, a, BeginWait);
      Extend(max, a + [BeginWait], ClientResume);
      Extend(max, a + [BeginWait] + [ClientResume], CheckSubmit);
      assert Run(max, a + [BeginWait] + [ClientResume] + [CheckSubmit]).pc == Disabled;
    }
  }

  /** Taking a count back undoes it, while acknowledgements are not suspended. */
  lemma CountUndone(p: Pipe)
    requires p.outstanding >= 0
    ensures CountFrame(CountFrame(p, true), false) == p
    ensures !p.suspended ==> CountFrame(p, true).outstanding == p.outstanding + 1
    ensures p.suspended ==> CountFrame(p, true) == p
  {}

  // ---- Without H264 ----

  predicate NeverH264(steps: seq<Step>) {
    forall i | 0 <= i < |steps| && steps[i].Send? :: !steps[i].h264
  }

  predicate WindowInv(max: nat, s: System) {
    && Inv(max, s) && !s.pipe.lastH264
    && (s.pc.SentUncounted? || s.pc.Counted? ==> !s.pc.h264)
    && (s.pc == Checking || s.pc == Cleared ==> s.pipe.outstanding < max)
    && s.pipe.outstanding + Uncounted(s) <= max
    && s.owed <= s.pipe.outstanding + Uncounted(s) + s.late + s.strays
    && (s.pipe.suspended ==> s.owed <= s.late)
  }

  lemma WindowStep(max: nat, s: System, step: Step)
    requires max > 0 && WindowInv(max, s) && Enabled(s, step) && (step.Send? ==> !step.h264)
    ensures WindowInv(max, Next(s, step))
  {}

  lemma WindowStart(max: nat)
    requires max > 0
    ensures WindowInv(max, Start(max))
  {}

  lemma {:induction false} WindowHolds(max: nat, steps: seq<Step>)
    requires max > 0 && Possible(max, steps) && NeverH264(steps)
    ensures WindowInv(max, Run(max, steps))
    decreases |steps|
  {
    hide WindowInv, Next, Enabled;
    if steps == [] {
      WindowStart(max);
    } else {
      var n := |steps| - 1;
      assert forall i | 0 <= i < n && steps[i].Send? :: !steps[..n][i].h264;
      WindowHolds(max, steps[..n]);
      WindowStep(max, Run(max, steps[..n]), steps[n]);
    }
  }

  /** A suspended client stays silent about the frames it gets meanwhile. */
  predicate SilentWhileSuspended(max: nat, steps: seq<Step>)
    requires Possible(max, steps)
    decreases |steps|
  {
    steps == [] ||
      var n := |steps| - 1;
      SilentWhileSuspended(max, steps[..n]) &&
      (steps[n].Send? && steps[n].willAck ==> !Run(max, steps[..n]).pipe.suspended)
  }

  lemma {:induction false} SilentMeansNoneLate(max: nat, steps: seq<Step>)
    requires Possible(max, steps) && SilentWhileSuspended(max, steps)
    ensures Run(max, steps).late == 0
    decreases |steps|
  {
    if steps != [] {
      SilentMeansNoneLate(max, steps[..|steps| - 1]);
    }
  }

  predicate NoStrays(steps: seq<Step>) {
    StrayAck !in steps
  }

  lemma {:induction false} NoStraysCounted(max: nat, steps: seq<Step>)
    requires Possible(max, steps) && NoStrays(steps)
    ensures Run(max, steps).strays == 0
    decreases |steps|
  {
    if steps != [] {
      NoStraysCounted(max, steps[..|steps| - 1]);
    }
  }

  /**
    Without H264 the frames in flight never exceed the limit, whatever overtakes what.  What comes
    on top are frames a client acknowledges although it had suspended, and one frame for each
    acknowledgement that arrives after a suspension forgave it.
   */
  lemma FramesInFlightBounded(max: nat, steps: seq<Step>)
    requires max > 0 && Possible(max, steps) && NeverH264(steps)
    ensures var s := Run(max, steps); s.owed <= max + s.late + s.strays && 0 <= s.pipe.outstanding <= max
    ensures var s := Run(max, steps); s.pipe.suspended ==> s.pipe.outstanding == 0
    ensures SilentWhileSuspended(max, steps) && NoStrays(steps) ==> Run(max, steps).owed <= max
  {
    WindowHolds(max, steps);
    if SilentWhileSuspended(max, steps) && NoStrays(steps) {
      SilentMeansNoneLate(max, steps);
      NoStraysCounted(max, steps);
    }
  }

  // ---- The bound is exact ----

  /** How often the client was sent a frame while suspended that it acknowledges all the same. */
  function LateSends(max: nat, steps: seq<Step>): nat
    requires Possible(max, steps)
    decreases |steps|
  {
    if steps == [] then 0 else
      var n := |steps| - 1;
      LateSends(max, steps[..n]) + if steps[n].Send? && steps[n].willAck && Run(max, steps[..n]).pipe.suspended then 1 else 0
  }

  function StrayAcks(steps: seq<Step>): nat {
    if steps == [] then 0
    else StrayAcks(steps[..|steps| - 1]) + if steps[|steps| - 1] == StrayAck then 1 else 0
  }

  lemma AllowanceStep(s: System, step: Step)
    requires Enabled(s, step)
    ensures Next(s, step).late <= s.late + if step.Send? && step.willAck && s.pipe.suspended then 1 else 0
    ensures Next(s, step).strays <= s.strays + if step == StrayAck then 1 else 0
  {}

  lemma {:induction false} AllowancesCounted(max: nat, steps: seq<Step>)
    requires Possible(max, steps)
    ensures Run(max, steps).late <= LateSends(max, steps) && Run(max, steps).strays <= StrayAcks(steps)
    decreases |steps|
  {
    hide Next, Enabled;
    if steps != [] {
      var n := |steps| - 1;
      AllowancesCounted(max, steps[..n]);
      AllowanceStep(Run(max, steps[..n]), steps[n]);
    }
  }

  lemma {:induction false} SilentIffNoLateSends(max: nat, steps: seq<Step>)
    requires Possible(max, steps)
    ensures SilentWhileSuspended(max, steps) <==> LateSends(max, steps) == 0
    decreases |steps|
  {
    if steps != [] {
      SilentIffNoLateSends(max, steps[..|steps| - 1]);
    }
  }

  /** A run of frames with data and without H264, with its two allowances. */
  ghost predicate Flight(max: nat, steps: seq<Step>, late: nat, strays: nat) {
    Possible(max, steps) && NeverH264(steps) && AllOnWire(steps) && LateSends(max, steps) == late && StrayAcks(steps) == strays
  }

  lemma Fly(max: nat, steps: seq<Step>, step: Step, late: nat, strays: nat)
    requires Flight(max, steps, late, strays) && Enabled(Run(max, steps), step)
    requires step.Send? ==> !step.h264 && step.onWire
    ensures Run(max, steps + [step]) == Next(Run(max, steps), step)
    ensures Flight(max, steps + [step],
      late + if step.Send? && step.willAck && Run(max, steps).pipe.suspended then 1 else 0, strays + if step == StrayAck then 1 else 0)
  {
    Extend(max, steps, step);
    assert (steps + [step])[..|steps|] == steps;
    hide Next, Enabled, Possible;
  }

  /** Between two frames with n counted and `owed` acknowledgements to come. */
  predicate Resting(max: nat, n: nat, owed: nat, suspended: bool, s: System) {
    s.pc == Idle && s.pipe == Fresh(max).(outstanding := n, suspended := suspended) && s.owed == owed
  }

  /** One frame sent, its acknowledgement still to come; counted unless the client is suspended. */
  lemma SentFrame(max: nat, before: seq<Step>, late: nat, strays: nat, n: nat, owed: nat, suspended: bool)
    returns (steps: seq<Step>)
    requires Flight(max, before, late, strays) && Resting(max, n, owed, suspended, Run(max, before)) && (suspended || n < max)
    ensures Flight(max, steps, if suspended then late + 1 else late, strays)
    ensures Resting(max, if suspended then n else n + 1, owed + 1, suspended, Run(max, steps))
    ensures Run(max, steps).forgiven == Run(max, before).forgiven && Run(max, steps).strays == Run(max, before).strays
  {
    hide Flight, Possible, Run;
    var after := if suspended then late + 1 else late;
    var send := Send(false, true, true);
    Fly(max, before, BeginWait, late, strays);
    var b := before + [BeginWait];
    Fly(max, b, CheckSubmit, late, strays);
    var c := b + [CheckSubmit];
    Fly(max, c, send, late, strays);
    var d := c + [send];
    Fly(max, d, Count, after, strays);
    var e := d + [Count];
    Fly(max, e, SetMode, after, strays);
    steps := e + [SetMode];
  }

  /** k frames forgiven, one suspension each. */
  lemma {:induction false} Forgive(max: nat, k: nat) returns (steps: seq<Step>)
    requires max > 0
    ensures Flight(max, steps, 0, 0) && Resting(max, 0, 0, false, Run(max, steps)) && Run(max, steps).forgiven == k
  {
    if k == 0 {
      EmptyRun(max);
      steps := [];
    } else {
      var fewer := Forgive(max, k - 1);
      var sent := SentFrame(max, fewer, 0, 0, 0, 0, false);
      hide Flight, Possible, Run;
      Fly(max, sent, ClientSuspend, 0, 0);
      Fly(max, sent + [ClientSuspend], ClientResume, 0, 0);
      steps := sent + [ClientSuspend] + [ClientResume];
    }
  }

  lemma {:induction false} SendLate(max: nat, before: seq<Step>, k: nat) returns (steps: seq<Step>)
    requires Flight(max, before, 0, 0) && Resting(max, 0, 0, true, Run(max, before)) && Run(max, before).strays == 0
    ensures Flight(max, steps, k, 0) && Resting(max, 0, k, true, Run(max, steps))
    ensures Run(max, steps).forgiven == Run(max, before).forgiven && Run(max, steps).strays == 0
  {
    if k == 0 {
      steps := before;
    } else {
      var fewer := SendLate(max, before, k - 1);
      steps := SentFrame(max, fewer, k - 1, 0, 0, k - 1, true);
    }
  }

  lemma {:induction false} FillUp(max: nat, before: seq<Step>, late: nat, n: nat) returns (steps: seq<Step>)
    requires n <= max && Flight(max, before, late, 0) && Resting(max, 0, late, false, Run(max, before)) && Run(max, before).strays == 0
    ensures Flight(max, steps, late, 0) && Resting(max, n, late + n, false, Run(max, steps))
    ensures Run(max, steps).forgiven == Run(max, before).forgiven && Run(max, steps).strays == 0
  {
    if n == 0 {
      steps := before;
    } else {
      var fewer := FillUp(max, before, late, n - 1);
      steps := SentFrame(max, fewer, late, 0, n - 1, late + n - 1, false);
    }
  }

  /** Each stray acknowledgement makes room for one frame more. */
  lemma {:induction false} Overrun(max: nat, before: seq<Step>, late: nat, k: nat) returns (steps: seq<Step>)
    requires max > 0 && Flight(max, before, late, 0) && Resting(max, max, late + max, false, Run(max, before))
    requires Run(max, before).strays == 0 && k <= Run(max, before).forgiven
    ensures Flight(max, steps, late, k) && Resting(max, max, late + max + k, false, Run(max, steps))
    ensures Run(max, steps).strays == k && Run(max, steps).forgiven == Run(max, before).forgiven - k
  {
    if k == 0 {
      steps := before;
    } else {
      var fewer := Overrun(max, before, late, k - 1);
      hide Flight, Possible, Run;
      Fly(max, fewer, StrayAck, late, k - 1);
      steps := SentFrame(max, fewer + [StrayAck], late, k, max - 1, late + max + k - 1, false);
    }
  }

  /** A run in which every late frame and every stray acknowledgement puts one frame more in flight. */
  lemma FullFlight(max: nat, late: nat, strays: nat) returns (steps: seq<Step>)
    requires max > 0
    ensures Flight(max, steps, late, strays)
    ensures Run(max, steps).owed == max + late + strays && Run(max, steps).strays == strays
  {
    var a := Forgive(max, strays);
    hide Flight, Possible, Run;
    Fly(max, a, ClientSuspend, 0, 0);
    var b := SendLate(max, a + [ClientSuspend], late);
    Fly(max, b, ClientResume, late, 0);
    var c := FillUp(max, b + [ClientResume], late, max);
    steps := Overrun(max, c, late, strays);
  }

  /** Without H264, frames in flight stay within the limit plus an allowance exactly when it covers every late frame and stray. */
  ghost predicate FlightWithin(max: nat, late: nat, strays: nat, extra: nat) {
    forall steps | Possible(max, steps) && NeverH264(steps) && LateSends(max, steps) <= late && StrayAcks(steps) <= strays ::
      Run(max, steps).owed <= max + extra
  }

  lemma FlightWithinIff(max: nat, late: nat, strays: nat, extra: nat)
    requires max > 0
    ensures FlightWithin(max, late, strays, extra) <==> extra >= late + strays
  {
    if extra >= late + strays {
      forall steps | Possible(max, steps) && NeverH264(steps) && LateSends(max, steps) <= late && StrayAcks(steps) <= strays
        ensures Run(max, steps).owed <= max + extra
      {
        FramesInFlightBounded(max, steps);
        AllowancesCounted(max, steps);
      }
    } else {
      var full := FullFlight(max, late, strays);
      assert Run(max, full).owed > max + extra;
    }
  }

  /** Already one stray overruns the limit for a client that is silent while suspended. */
  lemma OneStrayOverruns(max: nat) returns (steps: seq<Step>)
    requires max > 0
    ensures Possible(max, steps) && NeverH264(steps) && SilentWhileSuspended(max, steps) && AllOnWire(steps)
    ensures Run(max, steps).strays == 1 && Run(max, steps).owed == max + 1
  {
    steps := FullFlight(max, 0, 1);
    SilentIffNoLateSends(max, steps);
  }
}
