/**
  When the refresh after an AVC frame falls due, in terms of what a run shows from outside: the
  options it was last prepared with, the frames sent since, and the time of the first of them.
 */
module EncoderTiming {
  import opened TileHash
  import opened TileGrid
  import opened EncoderSpec
  import opened EncoderRuns

  // ---- Options ----

  predicate Acceptable(o: Options) {
    o.width > 0 && o.height > 0 && o.mode != Raw
  }

  const NO_OPTIONS := Options(0, 0, Raw, false, false, 0.0, 0, 0)

  /** The options of the last prepare that succeeded. */
  function Configured(events: seq<Event>): Options {
    if events == [] then NO_OPTIONS
    else
      var ev := events[|events| - 1];
      if ev.DoPrepare? && Acceptable(ev.options) then ev.options else Configured(events[..|events| - 1])
  }

  predicate RunsWith(e: Encoder, o: Options) {
    e.ready ==>
      e.interval == o.interval && e.timeoutMs == o.timeoutMs && e.threshold == o.threshold
      && e.enableDiff == o.enableDiff && e.hwAccel == o.hwAccel
  }

  predicate SameConfig(e: Encoder, e': Encoder) {
    && e'.ready == e.ready && e'.interval == e.interval && e'.timeoutMs == e.timeoutMs && e'.threshold == e.threshold
    && e'.enableDiff == e.enableDiff && e'.hwAccel == e.hwAccel
  }

  predicate SameSize(e: Encoder, e': Encoder) {
    e'.ready == e.ready && e'.diff == e.diff && e'.frameWidth == e.frameWidth && e'.frameHeight == e.frameHeight
  }

  lemma RegisterKeepsConfig(e: Encoder, data: seq<byte>, key: bool, now: int)
    requires Fits(e.diff, data)
    ensures SameConfig(e, Register(Commit(e, data), NonAvc, key, now)) && SameSize(e, Register(Commit(e, data), NonAvc, key, now))
  {
    hide Total, TileDigest, Geometry.Valid, Digests;
  }

  lemma ExactKeepsConfig(e: Encoder, data: seq<byte>, codec: Codec, outcome: Outcome, t: int, now: int)
    requires Primed(e) && Fits(e.diff, data)
    ensures SameConfig(e, EncodeExact(e, data, codec, outcome, t, now).0) && SameSize(e, EncodeExact(e, data, codec, outcome, t, now).0)
  {
    var key := KeyframeDue(e, t);
    var e1 := if key then ZeroHashes(e) else e;
    assert SameConfig(e, e1) && SameSize(e, e1);
    RegisterKeepsConfig(e1, data, key, now);
    hide Total, TileDigest, Geometry.Valid, Geometry.Bytes, DirtyFlags, DirtyRects, KeyframeDue, Register, Commit, ZeroHashes, FullRect;
  }

  lemma EncodeKeepsConfig(e: Encoder, f: Frame, s: Settings, auto: bool, vaapi: bool, outcome: Outcome, t: int, now: int)
    requires Consistent(e) && Fits(f.geometry, f.data)
    ensures SameConfig(e, Encode(e, f, s, auto, vaapi, outcome, t, now).0)
  {
    hide Total, TileOf, HashRows, Geometry.Valid, ChosenCodec, EncodeExact;
    if e.ready {
      AdoptPrimes(e, f.geometry);
      var e1 := Adopt(e, f.geometry);
      ExactKeepsConfig(e1, f.data, ChosenCodec(e1, f.data, s, auto, vaapi), outcome, t, now);
    }
  }

  lemma ConfigStep(e: Encoder, ev: Event, o: Options)
    requires Consistent(e) && RunsWith(e, o) && (ev.DoEncode? ==> Fits(ev.frame.geometry, ev.frame.data))
    ensures RunsWith(Result(e, ev).0, if ev.DoPrepare? && Acceptable(ev.options) then ev.options else o)
  {
    hide Encode;
    match ev
    case DoEncode(f, s, auto, vaapi, outcome, t, now, _) => EncodeKeepsConfig(e, f, s, auto, vaapi, outcome, t, now);
    case DoEncodeCached(s, auto, vaapi, outcome, t, now, _) =>
      if e.ready && e.diff != NO_GEOMETRY {
        EncodeKeepsConfig(e.(forceKey := true), Frame(e.diff, e.prev), s, auto, vaapi, outcome, t, now);
      }
    case _ =>
  }

  lemma NextEncoder(w: World, ev: Event)
    requires EncoderRuns.Enabled(w, ev)
    ensures Next(w, ev).enc == Result(w.enc, ev).0
  {
    hide Result, Patch, Covers, AllTiles, Canvas;
  }

  /** While it is ready the encoder runs with the options it was last prepared with. */
  lemma {:induction false} RunsAsConfigured(events: seq<Event>)
    requires Possible(events)
    ensures RunsWith(Run(events).enc, Configured(events))
    decreases |events|
  {
    hide Result, Next;
    if events != [] {
      var n := |events| - 1;
      RunsAsConfigured(events[..n]);
      NextEncoder(Run(events[..n]), events[n]);
      ConfigStep(Run(events[..n]).enc, events[n], Configured(events[..n]));
    }
  }

  // ---- Prepared or not, and what is kept ----

  /** A prepare with a size of zero changes nothing, one in raw mode resets, any other prepares. */
  function Prepared(events: seq<Event>): bool {
    if events == [] then false
    else
      match events[|events| - 1]
      case DoReset => false
      case DoPrepare(o) => if o.width == 0 || o.height == 0 then Prepared(events[..|events| - 1]) else o.mode != Raw
      case _ => Prepared(events[..|events| - 1])
  }

  /** While a frame is remembered, its size is the size the encoder goes by. */
  predicate SizeAgrees(e: Encoder) {
    e.diff != NO_GEOMETRY ==> e.ready && e.frameWidth == e.diff.width && e.frameHeight == e.diff.height
  }

  lemma EncodeAgrees(e: Encoder, f: Frame, s: Settings, auto: bool, vaapi: bool, outcome: Outcome, t: int, now: int)
    requires Consistent(e) && Fits(f.geometry, f.data) && SizeAgrees(e)
    ensures SizeAgrees(Encode(e, f, s, auto, vaapi, outcome, t, now).0)
  {
    hide Total, TileOf, HashRows, Geometry.Valid, ChosenCodec, EncodeExact, Digests;
    if e.ready {
      AdoptPrimes(e, f.geometry);
      var e1 := Adopt(e, f.geometry);
      ExactKeepsConfig(e1, f.data, ChosenCodec(e1, f.data, s, auto, vaapi), outcome, t, now);
    }
  }

  lemma PreparedStep(e: Encoder, ev: Event)
    requires Consistent(e) && SizeAgrees(e) && (ev.DoEncode? ==> Fits(ev.frame.geometry, ev.frame.data))
    ensures SizeAgrees(Result(e, ev).0)
    ensures Result(e, ev).0.ready == match ev
      case DoReset => false
      case DoPrepare(o) => if o.width == 0 || o.height == 0 then e.ready else o.mode != Raw
      case _ => e.ready
  {
    hide Encode;
    match ev
    case DoEncode(f, s, auto, vaapi, outcome, t, now, _) =>
      EncodeAgrees(e, f, s, auto, vaapi, outcome, t, now);
      EncodeKeepsConfig(e, f, s, auto, vaapi, outcome, t, now);
    case DoEncodeCached(s, auto, vaapi, outcome, t, now, _) =>
      if e.ready && e.diff != NO_GEOMETRY {
        EncodeAgrees(e.(forceKey := true), Frame(e.diff, e.prev), s, auto, vaapi, outcome, t, now);
        EncodeKeepsConfig(e.(forceKey := true), Frame(e.diff, e.prev), s, auto, vaapi, outcome, t, now);
      }
    case _ =>
  }

  /** The encoder is ready exactly if the last prepare or reset that counted was a prepare. */
  lemma {:induction false} ReadyIffPrepared(events: seq<Event>)
    requires Possible(events)
    ensures Run(events).enc.ready == Prepared(events) && SizeAgrees(Run(events).enc)
    decreases |events|
  {
    hide Result, Next;
    if events != [] {
      var n := |events| - 1;
      ReadyIffPrepared(events[..n]);
      NextEncoder(Run(events[..n]), events[n]);
      PreparedStep(Run(events[..n]).enc, events[n]);
    }
  }

  /** A reset forgets the frame; a prepare keeps it exactly if it asks for the size the frame has. */
  lemma FrameKeptIffSameSize(events: seq<Event>, o: Options)
    requires Possible(events) && Run(events).enc.diff != NO_GEOMETRY && Acceptable(o)
    ensures Reset(Run(events).enc).diff == NO_GEOMETRY && Reset(Run(events).enc).prev == []
    ensures
      var e := Run(events).enc;
      var (e', ok) := Prepare(e, o);
      && ok && e'.forceKey
      && (if o.width == e.diff.width && o.height == e.diff.height
          then e'.diff == e.diff && e'.prev == e.prev && e'.hashes == e.hashes
          else e'.diff == NO_GEOMETRY && e'.prev == [] && e'.hashes == [])
  {
    ReadyIffPrepared(events);
    hide Run, Possible, Prepared;
  }

  // ---- Time ----

  /** When the first delta frame after the last AVC frame was sent. */
  ghost function Since(events: seq<Event>): int
    requires Possible(events)
    decreases |events|
  {
    if events == [] then 0
    else
      var n := |events| - 1;
      FirstDelta(Run(events[..n]), Run(events), Since(events[..n]))
  }

  function FirstDelta(w: World, w': World, since: int): int {
    if w.armed && w.deltas == 0 && w'.deltas == 1 then w'.clock else since
  }

  predicate Timed(w: World, since: int) {
    w.enc.transition && !w.enc.forceKey ==> w.armed && w.deltas >= 1 && w.enc.switchTs == since
  }

  /** What an encode does to the refresh tracking, by what reached the client. */
  ghost predicate Tracks(e: Encoder, e': Encoder, update: Update, now: int) {
    match update
    case Lossy => !e'.transition
    case Exact(_, key) =>
      if key then !e'.transition
      else !e.forceKey && e'.transition == (e.lastCodec == Avc || e.transition)
           && e'.switchTs == (if e.lastCodec == Avc then now else e.switchTs)
    case _ => e'.transition == e.transition && e'.switchTs == e.switchTs && (e.forceKey ==> e'.forceKey)
  }

  lemma EncodeTracks(e: Encoder, f: Frame, s: Settings, auto: bool, vaapi: bool, outcome: Outcome, t: int, now: int)
    requires Consistent(e) && Fits(f.geometry, f.data) && e.ready
    ensures var (e', _, update) := Encode(e, f, s, auto, vaapi, outcome, t, now); Tracks(e, e', update, now)
  {
    hide Total, TileOf, HashRows, Geometry.Valid, ChosenCodec, DirtyFlags, DirtyRects, RefreshReached;
    AdoptPrimes(e, f.geometry);
  }

  lemma DeliverTimed(w: World, e': Encoder, update: Update, f: Frame, shown: Surface, now: int, since: int)
    requires Inv(w) && Timed(w, since) && Fits(f.geometry, f.data) && Shaped(f.geometry, shown)
    requires Tracks(w.enc, e', update, now)
    ensures var w' := Deliver(w, e', update, f, shown, now); Timed(w', FirstDelta(w, w', since))
  {
    hide Mirrors, HashTrust, Consistent, Patch, Covers, AllTiles, Canvas, Geometry.Valid;
  }

  lemma ResultTracks(e: Encoder, ev: Event)
    requires Consistent(e) && Encodes(e, ev) && (ev.DoEncode? ==> Fits(ev.frame.geometry, ev.frame.data))
    ensures Tracks(e, Result(e, ev).0, Result(e, ev).2, ev.now)
  {
    EncodeTracks(if ev.DoEncode? then e else e.(forceKey := true), FrameOf(e, ev), ev.settings, ev.auto, ev.vaapi, ev.outcome, ev.checkTime, ev.now);
    hide Encode, Geometry.Valid;
  }

  lemma StepTimed(w: World, ev: Event, since: int)
    requires Inv(w) && EncoderRuns.Enabled(w, ev) && Timed(w, since)
    ensures Timed(Next(w, ev), FirstDelta(w, Next(w, ev), since))
  {
    if Encodes(w.enc, ev) {
      ResultTracks(w.enc, ev);
      hide Inv, Deliver, Timed, Tracks, Result, Shaped;
      var (e', _, update) := Result(w.enc, ev);
      DeliverTimed(w, e', update, FrameOf(w.enc, ev), ev.shown, ev.now, since);
    } else {
      UntimedStep(w, ev, since);
    }
  }

  lemma UntimedStep(w: World, ev: Event, since: int)
    requires EncoderRuns.Enabled(w, ev) && Timed(w, since) && !Encodes(w.enc, ev)
    ensures Timed(Next(w, ev), FirstDelta(w, Next(w, ev), since))
  {
    hide EncodeWith, Adopt, ChosenCodec;
  }

  lemma {:induction false} RunTimed(events: seq<Event>)
    requires Possible(events)
    ensures Timed(Run(events), Since(events))
    decreases |events|
  {
    hide Inv, Next, Timed, EncoderRuns.Enabled;
    if events == [] {
      StartTimed();
    } else {
      var n := |events| - 1;
      RunTimed(events[..n]);
      RunInv(events[..n]);
      StepTimed(Run(events[..n]), events[n], Since(events[..n]));
    }
  }

  lemma StartTimed()
    ensures Timed(START, 0)
  {}

  // ---- The refresh ----

  /**
    The exact time of the refresh: with delta frames sent after an AVC frame, a keyframe is due
    exactly when the configured number of frames would be reached with the next one, or the
    configured number of milliseconds has passed since the first; times are in microseconds.
   */
  lemma RefreshDueIff(events: seq<Event>, t: int)
    requires Possible(events)
    requires Run(events).enc.ready && !Run(events).enc.forceKey && Run(events).armed && Run(events).deltas >= 1
    ensures
      var o := Configured(events);
      KeyframeDue(Run(events).enc, t) <==>
        || !o.enableDiff
        || (o.interval > 0 && Run(events).deltas + 1 >= o.interval)
        || (o.timeoutMs > 0 && t - Since(events) >= 1000 * o.timeoutMs)
  {
    RunInv(events);
    RunTimed(events);
    RunsAsConfigured(events);
    hide Run, Possible, Since, Configured, Mirrors, HashTrust, Consistent;
  }

  /** The bound on lossy tiles, by the options of the last prepare: at most max(1, interval - 1) delta frames. */
  lemma LossyWithinOptions(events: seq<Event>)
    requires Possible(events)
    requires Run(events).enc.ready && !Run(events).enc.forceKey && Run(events).lossy != {} && Configured(events).interval > 0
    ensures Run(events).deltas <= if Configured(events).interval <= 2 then 1 else Configured(events).interval - 1
  {
    RunInv(events);
    RunsAsConfigured(events);
    hide Run, Possible, Configured, Mirrors, HashTrust, Consistent;
  }
}
