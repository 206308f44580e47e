/**
  The render loop with encoder and pipeline together: what the pipeline counts is what the encoder
  answers, and what the client can acknowledge is what the encoder sent.
 */
module RenderLoop {
  import opened Wrappers
  import opened TileHash
  import opened TileGrid
  import opened EncoderSpec
  import EncoderRuns
  import EncoderAnswers
  import B = Backpressure

  /** A frame is pulled and encoded, or one of the other steps of the pipeline's protocol is taken. */
  datatype Turn =
    | Pull(captured: Option<Frame>, vaapi: bool, outcome: Outcome, checkTime: int, now: int, willAck: bool)
    | Pipeline(step: B.Step)

  /** `steps` is the run of the pipeline so far. */
  datatype Joint = Joint(enc: Encoder, sys: B.System, steps: seq<B.Step>)

  /** The settings of the connection. */
  datatype Connection = Connection(max: nat, settings: Settings, auto: bool)

  ghost predicate Encodable(e: Encoder, turn: Turn) {
    Consistent(e) && turn.Pull? && (turn.captured.Some? ==> Fits(turn.captured.value.geometry, turn.captured.value.data))
  }

  /** Without a captured frame the remembered one is sent again. */
  function Answer(e: Encoder, c: Connection, turn: Turn): (Encoder, Reply, Update)
    requires Encodable(e, turn)
  {
    match turn.captured
    case Some(f) => Encode(e, f, c.settings, c.auto, turn.vaapi, turn.outcome, turn.checkTime, turn.now)
    case None => EncodeCached(e, c.settings, c.auto, turn.vaapi, turn.outcome, turn.checkTime, turn.now)
  }

  /** The renderer counts what the encoder accepted; only what was sent is on the wire. */
  function Counted(answer: (Encoder, Reply, Update), willAck: bool): B.Step {
    match answer.1
    case Accepted(h264) => B.Send(h264, !answer.2.Untouched?, willAck)
    case _ => B.NoFrame
  }

  function StepOf(e: Encoder, c: Connection, turn: Turn): B.Step
    requires turn.Pull? ==> Encodable(e, turn)
  {
    if turn.Pull? then Counted(Answer(e, c, turn), turn.willAck) else turn.step
  }

  ghost predicate Enabled(c: Connection, j: Joint, turn: Turn) {
    && (turn.Pull? ==> Encodable(j.enc, turn))
    && (turn.Pipeline? ==> !turn.step.Send? && !turn.step.NoFrame?)
    && B.Enabled(j.sys, StepOf(j.enc, c, turn))
  }

  ghost function Next(c: Connection, j: Joint, turn: Turn): Joint
    requires Enabled(c, j, turn)
  {
    var step := StepOf(j.enc, c, turn);
    Joint(if turn.Pull? then Answer(j.enc, c, turn).0 else j.enc, B.Next(j.sys, step), j.steps + [step])
  }

  ghost predicate Possible(c: Connection, e: Encoder, turns: seq<Turn>)
    decreases |turns|, 0
  {
    turns == [] ||
      var n := |turns| - 1;
      Possible(c, e, turns[..n]) && Enabled(c, Run(c, e, turns[..n]), turns[n])
  }

  ghost function Run(c: Connection, e: Encoder, turns: seq<Turn>): Joint
    requires Possible(c, e, turns)
    decreases |turns|, 1
  {
    if turns == [] then Joint(e, B.Start(c.max), []) else
      var n := |turns| - 1;
      Next(c, Run(c, e, turns[..n]), turns[n])
  }

  ghost predicate Projects(c: Connection, j: Joint) {
    B.Possible(c.max, j.steps) && B.Run(c.max, j.steps) == j.sys
  }

  /** Every joint run is a run of the pipeline's protocol, so all that holds of those holds here. */
  lemma {:induction false} JointRunIsARun(c: Connection, e: Encoder, turns: seq<Turn>)
    requires Possible(c, e, turns)
    ensures Projects(c, Run(c, e, turns))
    decreases |turns|
  {
    if turns == [] {
      B.EmptyRun(c.max);
    } else {
      var n := |turns| - 1;
      JointRunIsARun(c, e, turns[..n]);
      hide B.Possible, B.Run, B.Enabled, B.Next, StepOf, Encodable, Answer;
      var j := Run(c, e, turns[..n]);
      B.Extend(c.max, j.steps, StepOf(j.enc, c, turns[n]));
    }
  }

  // ---- A client without AVC ----

  ghost predicate NoAvc(s: Settings) {
    !Usable(s, Avc444Codec) && !Usable(s, Avc420Codec)
  }

  lemma NoAvcStep(e: Encoder, c: Connection, turn: Turn)
    requires (turn.Pull? ==> Encodable(e, turn)) && NoAvc(c.settings)
    ensures turn.Pull? && StepOf(e, c, turn).Send? ==> !StepOf(e, c, turn).h264
  {
    hide Encode;
    if turn.Pull? {
      match turn.captured
      case Some(f) =>
        EncoderAnswers.NoAvcNoH264(e, f, c.settings, c.auto, turn.vaapi, turn.outcome, turn.checkTime, turn.now);
      case None =>
        if e.ready && e.diff != NO_GEOMETRY {
          EncoderAnswers.NoAvcNoH264(e.(forceKey := true), Frame(e.diff, e.prev), c.settings, c.auto,
                                     turn.vaapi, turn.outcome, turn.checkTime, turn.now);
        }
    }
  }

  lemma NeverH264Append(steps: seq<B.Step>, step: B.Step)
    requires B.NeverH264(steps) && (step.Send? ==> !step.h264)
    ensures B.NeverH264(steps + [step])
  {}

  /** With a client that announces no AVC codec no send is counted as H264 ... */
  lemma {:induction false} NoAvcNeverH264(c: Connection, e: Encoder, turns: seq<Turn>)
    requires Possible(c, e, turns) && NoAvc(c.settings)
    ensures B.NeverH264(Run(c, e, turns).steps)
    decreases |turns|
  {
    if turns != [] {
      var n := |turns| - 1;
      NoAvcNeverH264(c, e, turns[..n]);
      var j := Run(c, e, turns[..n]);
      NoAvcStep(j.enc, c, turns[n]);
      hide B.NeverH264, B.Enabled, B.Next, Answer, Encodable, Counted;
      NeverH264Append(j.steps, StepOf(j.enc, c, turns[n]));
    }
  }

  /** ... so the bound on frames in flight holds of every run with it. */
  lemma NoAvcFlightBounded(c: Connection, e: Encoder, turns: seq<Turn>)
    requires c.max > 0 && Possible(c, e, turns) && NoAvc(c.settings)
    ensures var s := Run(c, e, turns).sys;
      s.owed <= c.max + s.late + s.strays && 0 <= s.pipe.outstanding <= c.max
  {
    NoAvcNeverH264(c, e, turns);
    JointRunIsARun(c, e, turns);
    hide Run, Possible, B.Run, B.Possible;
    B.FramesInFlightBounded(c.max, Run(c, e, turns).steps);
  }

  // ---- A client without a usable codec ----

  ghost predicate NothingUsable(s: Settings) {
    forall codec :: !Usable(s, codec)
  }

  lemma NoCodecAnswers(e: Encoder, f: Frame, s: Settings, auto: bool, vaapi: bool, outcome: Outcome, t: int, now: int)
    requires NothingUsable(s) && e.ready && Consistent(e) && Fits(f.geometry, f.data)
    ensures Encode(e, f, s, auto, vaapi, outcome, t, now) == (Adopt(e, f.geometry), Accepted(false), Untouched)
    ensures Consistent(Adopt(e, f.geometry)) && Adopt(e, f.geometry).ready
  {
    AdoptPrimes(e, f.geometry);
    hide Total, Geometry.Valid, ChosenCodec, DirtyFlags, EncodeAvc, EncodeExact;
    EncoderRuns.NoCodecIffNothingUsable(Adopt(e, f.geometry), f.data, s, auto, vaapi);
  }

  /** Whatever it is given, the encoder then either refuses or claims a success that sent nothing. */
  lemma AnswersAreSilent(e: Encoder, c: Connection, turn: Turn)
    requires Encodable(e, turn) && NothingUsable(c.settings)
    ensures StepOf(e, c, turn) == B.NoFrame || StepOf(e, c, turn) == B.Send(false, false, turn.willAck)
  {
    hide Adopt, Total, Geometry.Valid, EncodeWith, ChosenCodec;
    if e.ready {
      match turn.captured
      case Some(f) =>
        NoCodecAnswers(e, f, c.settings, c.auto, turn.vaapi, turn.outcome, turn.checkTime, turn.now);
      case None =>
        if e.diff != NO_GEOMETRY {
          NoCodecAnswers(e.(forceKey := true), Frame(e.diff, e.prev), c.settings, c.auto, turn.vaapi, turn.outcome, turn.checkTime, turn.now);
        }
    }
  }

  function Sends(steps: seq<B.Step>): nat {
    if steps == [] then 0 else Sends(steps[..|steps| - 1]) + if steps[|steps| - 1].Send? then 1 else 0
  }

  lemma SendsAppend(steps: seq<B.Step>, step: B.Step)
    ensures Sends(steps + [step]) == Sends(steps) + if step.Send? then 1 else 0
  {
    assert (steps + [step])[..|steps|] == steps;
  }

  predicate NoSuspension(turns: seq<Turn>) {
    Pipeline(B.ClientSuspend) !in turns
  }

  /** Everything claimed is counted, nothing is owed, and the renderer is on its way to the limit. */
  predicate Starving(max: nat, sends: nat, s: B.System) {
    && s.owed == 0 && s.forgiven == 0
    && s.pipe.surfaceReady && s.pipe.maxOutstanding == max && !s.pipe.suspended && !s.pipe.lastH264
    && (s.pc.SentUncounted? || s.pc.Counted? ==> !s.pc.h264)
    && s.pipe.outstanding + B.Uncounted(s) == sends <= max
    && (s.pc == B.Checking || s.pc == B.Cleared ==> s.pipe.outstanding < max)
    && (s.pc == B.Waiting ==> s.pipe.outstanding == max)
    && s.pc != B.Disabled
  }

  lemma StarvingStep(max: nat, sends: nat, s: B.System, step: B.Step)
    requires Starving(max, sends, s) && B.Enabled(s, step) && step != B.ClientSuspend
    requires step.Send? ==> !step.onWire && !step.h264
    ensures Starving(max, sends + if step.Send? then 1 else 0, B.Next(s, step))
  {}

  lemma {:induction false} StarvingRun(c: Connection, e: Encoder, turns: seq<Turn>)
    requires Possible(c, e, turns) && NothingUsable(c.settings) && NoSuspension(turns)
    ensures Starving(c.max, Sends(Run(c, e, turns).steps), Run(c, e, turns).sys)
    decreases |turns|
  {
    if turns != [] {
      var n := |turns| - 1;
      assert turns[n] in turns;
      StarvingRun(c, e, turns[..n]);
      hide Starving, B.Enabled, B.Next, Answer, StepOf, Encodable, NothingUsable;
      var j := Run(c, e, turns[..n]);
      var step := StepOf(j.enc, c, turns[n]);
      if turns[n].Pull? {
        AnswersAreSilent(j.enc, c, turns[n]);
      } else {
        PipelineStep(j.enc, c, turns[n]);
      }
      StarvingStep(c.max, Sends(j.steps), j.sys, step);
      SendsAppend(j.steps, step);
    }
  }

  lemma PipelineStep(e: Encoder, c: Connection, turn: Turn)
    requires turn.Pipeline?
    ensures StepOf(e, c, turn) == turn.step
  {}

  /** Only a client that suspends could still wake the renderer. */
  ghost predicate Lost(s: B.System) {
    B.Blocked(s) && s.owed == 0 && forall step | B.Enabled(s, step) :: step == B.ClientSuspend
  }

  /**
    A client that announces no usable codec, and does not suspend, starves the renderer: it claims
    at most max frames, waits exactly when it has claimed them all, and then nothing wakes it.
   */
  lemma NoCodecStarvesRenderer(c: Connection, e: Encoder, turns: seq<Turn>)
    requires Possible(c, e, turns) && NothingUsable(c.settings) && NoSuspension(turns)
    ensures
      var j := Run(c, e, turns);
      && Sends(j.steps) <= c.max
      && (j.sys.pc == B.Waiting ==> Sends(j.steps) == c.max && Lost(j.sys))
      && (j.sys.pc == B.Idle ==> B.Next(j.sys, B.BeginWait).pc == if Sends(j.steps) == c.max then B.Waiting else B.Checking)
  {
    StarvingRun(c, e, turns);
    hide Run, Possible;
  }

  // ---- ... and it gets there ----

  lemma Extend(c: Connection, e: Encoder, turns: seq<Turn>, turn: Turn)
    requires Possible(c, e, turns) && Enabled(c, Run(c, e, turns), turn)
    ensures Possible(c, e, turns + [turn]) && Run(c, e, turns + [turn]) == Next(c, Run(c, e, turns), turn)
  {
    hide Enabled, Next;
    var all := turns + [turn];
    assert all[..|all| - 1] == turns && all[|all| - 1] == turn;
  }

  /** Between two frames with n of them claimed. */
  ghost predicate Between(c: Connection, n: nat, j: Joint) {
    && j.enc.ready && Consistent(j.enc) && Sends(j.steps) == n
    && j.sys.pc == B.Idle && j.sys.pipe == B.Fresh(c.max).(outstanding := n) && j.sys.owed == 0
  }

  function Capture(f: Frame): Turn {
    Pull(Some(f), false, NoData, 1, 1, false)
  }

  lemma PullClaims(c: Connection, j: Joint, f: Frame)
    requires NothingUsable(c.settings) && j.enc.ready && Consistent(j.enc) && Fits(f.geometry, f.data) && j.sys.pc == B.Cleared
    requires !j.sys.pipe.suspended
    ensures Enabled(c, j, Capture(f))
    ensures var j' := Next(c, j, Capture(f));
      && j'.enc.ready && Consistent(j'.enc)
      && j'.sys == B.Next(j.sys, B.Send(false, false, false)) && j'.steps == j.steps + [B.Send(false, false, false)]
  {
    hide Adopt, Encode;
    NoCodecAnswers(j.enc, f, c.settings, c.auto, false, NoData, 1, 1);
  }

  /** A step of the pipeline that is neither a send nor a suspension leaves the encoder and the claims alone. */
  lemma Proceed(c: Connection, e: Encoder, turns: seq<Turn>, step: B.Step)
    requires Possible(c, e, turns) && NoSuspension(turns) && B.Enabled(Run(c, e, turns).sys, step)
    requires !step.Send? && !step.NoFrame? && step != B.ClientSuspend
    ensures Possible(c, e, turns + [Pipeline(step)]) && NoSuspension(turns + [Pipeline(step)])
    ensures
      var j, j' := Run(c, e, turns), Run(c, e, turns + [Pipeline(step)]);
      j'.enc == j.enc && j'.sys == B.Next(j.sys, step) && Sends(j'.steps) == Sends(j.steps)
  {
    Extend(c, e, turns, Pipeline(step));
    SendsAppend(Run(c, e, turns).steps, step);
    hide Run, Possible, B.Enabled, B.Next, Sends;
  }

  lemma Claim(c: Connection, e: Encoder, turns: seq<Turn>, f: Frame)
    requires Possible(c, e, turns) && NoSuspension(turns) && NothingUsable(c.settings) && Fits(f.geometry, f.data)
    requires var j := Run(c, e, turns); j.enc.ready && Consistent(j.enc) && j.sys.pc == B.Cleared && !j.sys.pipe.suspended
    ensures Possible(c, e, turns + [Capture(f)]) && NoSuspension(turns + [Capture(f)])
    ensures
      var j, j' := Run(c, e, turns), Run(c, e, turns + [Capture(f)]);
      && j'.enc.ready && Consistent(j'.enc) && j'.sys == B.Next(j.sys, B.Send(false, false, false))
      && Sends(j'.steps) == Sends(j.steps) + 1
  {
    PullClaims(c, Run(c, e, turns), f);
    Extend(c, e, turns, Capture(f));
    SendsAppend(Run(c, e, turns).steps, B.Send(false, false, false));
    hide Run, Possible, Enabled, Next, B.Next, Sends, Fits, Consistent, NothingUsable;
  }

  lemma OneClaim(c: Connection, e: Encoder, before: seq<Turn>, n: nat, f: Frame) returns (turns: seq<Turn>)
    requires n < c.max && NothingUsable(c.settings) && Fits(f.geometry, f.data)
    requires Possible(c, e, before) && NoSuspension(before) && Between(c, n, Run(c, e, before))
    ensures Possible(c, e, turns) && NoSuspension(turns) && Between(c, n + 1, Run(c, e, turns))
  {
    hide Possible, Run, NothingUsable, Fits, Consistent, Sends, NoSuspension;
    Proceed(c, e, before, B.BeginWait);
    var t1 := before + [Pipeline(B.BeginWait)];
    Proceed(c, e, t1, B.CheckSubmit);
    var t2 := t1 + [Pipeline(B.CheckSubmit)];
    Claim(c, e, t2, f);
    var t3 := t2 + [Capture(f)];
    Proceed(c, e, t3, B.Count);
    var t4 := t3 + [Pipeline(B.Count)];
    Proceed(c, e, t4, B.SetMode);
    turns := t4 + [Pipeline(B.SetMode)];
  }

  lemma {:induction false} Claims(c: Connection, e: Encoder, n: nat, f: Frame) returns (turns: seq<Turn>)
    requires n <= c.max && NothingUsable(c.settings) && Fits(f.geometry, f.data) && e.ready && Consistent(e)
    ensures Possible(c, e, turns) && NoSuspension(turns) && Between(c, n, Run(c, e, turns))
  {
    if n == 0 {
      turns := [];
    } else {
      var fewer := Claims(c, e, n - 1, f);
      turns := OneClaim(c, e, fewer, n - 1, f);
    }
  }

  /** From every prepared encoder, with every frame, a run reaches the lost state after max frames. */
  lemma StarvationIsReachable(c: Connection, e: Encoder, f: Frame) returns (turns: seq<Turn>)
    requires NothingUsable(c.settings) && Fits(f.geometry, f.data) && e.ready && Consistent(e)
    ensures Possible(c, e, turns) && NoSuspension(turns)
    ensures Sends(Run(c, e, turns).steps) == c.max && Lost(Run(c, e, turns).sys)
  {
    var full := Claims(c, e, c.max, f);
    hide Possible, Run, NothingUsable, Consistent, Fits, Sends, NoSuspension;
    Proceed(c, e, full, B.BeginWait);
    turns := full + [Pipeline(B.BeginWait)];
    NoCodecStarvesRenderer(c, e, turns);
  }
}
