/**
  The encoding manager object and the methods that update it in place.  Scalars that are set
  together are kept in two records; the remembered frame and the hash table are fields of their
  own.  Every method is proved against its function in EncoderSpec.
 */
module EncodingManagers {
  import opened TileHash
  import opened TileGrid
  import opened EncoderSpec
  import opened Wrappers
  import EncoderAnswers

  datatype Setup = Setup(
    ready: bool, frameWidth: nat, frameHeight: nat, enableDiff: bool, hwAccel: bool,
    threshold: real, interval: nat, timeoutMs: nat)

  datatype Refresh = Refresh(
    forceKeyframe: bool, rfxFrames: nat, lastCodec: CodecClass, transition: bool, switchTs: int)

  class EncodingManager {
    var setup: Setup
    var refresh: Refresh
    var previousFrame: seq<byte>
    var tileHashes: seq<Digest>
    var tilesX: nat
    var tilesY: nat
    var diff: Geometry

    /** The encoder these fields stand for. */
    ghost function View(): Encoder
      reads this
    {
      Encoder(setup.ready, setup.frameWidth, setup.frameHeight, setup.enableDiff, setup.hwAccel,
              previousFrame, tileHashes, diff,
              refresh.forceKeyframe, refresh.rfxFrames, setup.threshold, setup.interval, setup.timeoutMs,
              refresh.lastCodec, refresh.transition, refresh.switchTs)
    }

    ghost predicate Valid()
      reads this
    {
      && Consistent(View())
      && tilesX == Across(diff.width) && tilesY == Across(diff.height)
    }

    constructor ()
      ensures Valid() && View() == INITIAL
      ensures !setup.ready && refresh.forceKeyframe && previousFrame == [] && tileHashes == []
      ensures setup.threshold == 0.05 && setup.interval == 6 && setup.timeoutMs == 100
    {
      setup := Setup(false, 0, 0, true, false, DEFAULT_THRESHOLD, DEFAULT_INTERVAL, DEFAULT_TIMEOUT_MS);
      refresh := Refresh(true, 0, UnknownCodec, false, 0);
      previousFrame, tileHashes := [], [];
      tilesX, tilesY, diff := 0, 0, NO_GEOMETRY;
    }

    method Reset()
      requires Valid()
      modifies this
      ensures Valid() && View() == EncoderSpec.Reset(old(View()))
    {
      if !setup.ready {
        return;
      }
      setup := Setup(false, 0, 0, true, setup.hwAccel, DEFAULT_THRESHOLD, DEFAULT_INTERVAL, DEFAULT_TIMEOUT_MS);
      previousFrame, tileHashes := [], [];
      tilesX, tilesY, diff := 0, 0, NO_GEOMETRY;
      refresh := Refresh(true, 0, UnknownCodec, false, 0);
    }

    method Prepare(options: Options) returns (ok: bool)
      requires Valid()
      modifies this
      ensures Valid() && (View(), ok) == EncoderSpec.Prepare(old(View()), options)
    {
      if options.width == 0 || options.height == 0 {
        return false;
      }
      if options.mode != Rfx && options.mode != Auto && options.mode != H264 {
        Reset();
        return false;
      }
      if setup.ready && (setup.frameWidth != options.width || setup.frameHeight != options.height) {
        Reset();
      }
      refresh := refresh.(forceKeyframe := true, rfxFrames := 0, lastCodec := UnknownCodec, transition := false);
      setup := Setup(true, options.width, options.height, options.enableDiff, options.hwAccel,
                     options.threshold, options.interval, options.timeoutMs);
      return true;
    }

    method ForceKeyframe()
      requires Valid()
      modifies this
      ensures Valid() && View() == old(View()).(forceKey := true)
    {
      refresh := refresh.(forceKeyframe := true);
    }

    method RefreshIntervalReached(now: int) returns (due: bool)
      ensures due == RefreshReached(View(), now)
    {
      if !refresh.transition {
        return false;
      }
      if refresh.switchTs <= 0 {
        return false;
      }
      var frameBudgetReached := setup.interval > 0 && refresh.rfxFrames + 1 >= setup.interval;
      var elapsed := now - refresh.switchTs;
      var timeoutReached := setup.timeoutMs > 0 && elapsed >= setup.timeoutMs * 1000;
      return frameBudgetReached || timeoutReached;
    }

    method RegisterCodecResult(codec: CodecClass, keyframe: bool, now: int)
      requires Valid()
      modifies this`refresh
      ensures Valid() && View() == Register(old(View()), codec, keyframe, now)
    {
      hide Total, Geometry.Valid, Geometry.Bytes;
      match codec {
        case Avc =>
          refresh := refresh.(lastCodec := Avc, transition := false, rfxFrames := 0, switchTs := 0);
          return;
        case UnknownCodec =>
          refresh := refresh.(lastCodec := UnknownCodec, rfxFrames := 0, transition := false, switchTs := 0);
          return;
        case NonAvc =>
      }
      if refresh.lastCodec == Avc {
        refresh := refresh.(transition := true, switchTs := now, rfxFrames := 0);
      }
      var tracking := refresh.transition;
      if !tracking {
        refresh := refresh.(rfxFrames := 0);
      } else if keyframe || setup.interval == 0 {
        refresh := refresh.(rfxFrames := 0);
      } else {
        refresh := refresh.(rfxFrames := refresh.rfxFrames + 1);
      }
      if keyframe {
        refresh := refresh.(switchTs := if tracking then now else 0,
                            transition := if tracking then false else refresh.transition);
      }
      refresh := refresh.(lastCodec := codec);
    }

    method PrepareGfxDiffState(g: Geometry)
      requires Valid() && g.Valid()
      modifies this
      ensures Valid() && View() == PrepareDiff(old(View()), g) && Primed(View()) && diff == g
    {
      TotalPositive(g);
      var sizeChanged := diff != g;
      var x, y := (g.width + 63) / 64, (g.height + 63) / 64;
      var tilesChanged := tilesX != x || tilesY != y;
      if !sizeChanged && !tilesChanged && |previousFrame| == g.stride * g.height {
        return;
      }
      diff, tilesX, tilesY := g, x, y;
      previousFrame := seq(g.stride * g.height, _ => 0 as byte);
      tileHashes := seq(tilesX * tilesY, _ => 0 as Digest);
      refresh := refresh.(forceKeyframe := true, rfxFrames := 0);
    }

    method StorePreviousFrame(data: seq<byte>)
      requires Valid() && Primed(View()) && Fits(diff, data)
      modifies this`previousFrame
      ensures Valid() && View() == old(View()).(prev := data)
    {
      previousFrame := data;
    }

    method UpdateTileHashes(data: seq<byte>)
      requires Valid() && Primed(View()) && Fits(diff, data)
      modifies this`tileHashes
      ensures Valid() && View() == old(View()).(hashes := Digests(diff, data))
    {
      if tilesX == 0 || tilesY == 0 {
        GridNonEmpty(diff);
        return;
      }
      tileHashes := HashTiles(diff, tilesX, data, tileHashes);
    }

    /** Emits the rectangles of the flagged tiles. */
    method CollectDirtyTiles(flags: seq<bool>) returns (rects: seq<Rect>, hasDirty: bool)
      requires Valid() && Primed(View()) && |flags| == Total(diff)
      ensures rects == DirtyRects(diff, flags) && hasDirty == (rects != [])
    {
      hide HashRows, TileOf, TileRect, Geometry.Valid, Geometry.Bytes, Total, IndexOf, TileIndex, Across, Min64, InBuffer;
      ghost var g := diff;
      rects, hasDirty := [], false;
      var y := 0;
      FirstTile(g);
      while y < diff.height
        invariant y % 64 == 0 && y < g.height + 64
        invariant IndexOf(g, 0, y) <= Total(g) && rects == DirtyUpTo(g, flags, IndexOf(g, 0, y))
        invariant hasDirty == (rects != [])
      {
        var tileH := Min64(diff.height - y);
        var x := 0;
        while x < diff.width
          invariant x % 64 == 0 && x < g.width + 64
          invariant IndexOf(g, x, y) <= Total(g) && rects == DirtyUpTo(g, flags, IndexOf(g, x, y))
          invariant hasDirty == (rects != [])
        {
          TileStep(g, previousFrame, x, y, tilesX);
          CornerTile(g, x, y);
          var tileW := Min64(diff.width - x);
          var index := TileIndex(tilesX, x, y);
          if flags[index] {
            rects := rects + [Rect(x, y, tileW, tileH)];
            hasDirty := true;
          }
          x := x + 64;
        }
        RowWraps(g, x, y);
        y := y + 64;
      }
      LastTile(g, y);
    }

    /** Hash first, byte comparison only when the hashes differ; without a previous frame everything is dirty. */
    method AnalyzeTiles(data: seq<byte>, previous: Option<seq<byte>>, threshold: real)
      returns (flags: seq<bool>, changed: nat, large: bool)
      requires Valid()
      requires diff != NO_GEOMETRY ==> Fits(diff, data) && (previous.Some? ==> Fits(diff, previous.value))
      ensures diff == NO_GEOMETRY ==> changed == 0 && large
      ensures diff != NO_GEOMETRY ==> |flags| == Total(diff) > 0
      ensures diff != NO_GEOMETRY && previous.None? ==> forall i | 0 <= i < Total(diff) :: flags[i]
      ensures diff != NO_GEOMETRY && previous.Some? ==> forall i | 0 <= i < Total(diff) ::
                flags[i] <==> tileHashes[i] != TileDigest(diff, data, i) && TileOf(diff, previous.value, i) != TileOf(diff, data, i)
      ensures diff != NO_GEOMETRY ==> changed == CountTrue(flags) && large == LargeChange(changed, Total(diff), threshold)
      ensures diff != NO_GEOMETRY ==> changed == |EncoderAnswers.Flagged(flags)|
      ensures diff != NO_GEOMETRY ==> (large <==> EncoderAnswers.AtLeastShare(changed, Total(diff), threshold))
    {
      if diff != NO_GEOMETRY {
        GridNonEmpty(diff);
      }
      if tilesX == 0 || tilesY == 0 || diff.width == 0 || diff.height == 0 {
        return [], 0, true;
      }
      TotalFormula(diff, tilesX, tilesY);
      hide Total, HashRows, TileOf, LargeChange, CountTrue, EncoderAnswers.AtLeastShare, EncoderAnswers.Flagged;
      flags, changed := FlagTiles(diff, tilesX, tileHashes, previous, data);
      large := LargeChange(changed, tilesX * tilesY, threshold);
      EncoderAnswers.CountIsCardinality(flags);
      EncoderAnswers.RatioAtLeast(changed, Total(diff), threshold);
    }

    /** An AVC frame: any failure leaves everything as it was. */
    method EncodeAvcFrame(data: seq<byte>, outcome: Outcome, now: int) returns (reply: Reply, update: Update)
      requires Valid() && Primed(View()) && Fits(diff, data)
      modifies this
      ensures Valid() && (View(), reply, update) == EncodeAvc(old(View()), data, outcome, now)
    {
      hide Total, HashRows, TileOf, Geometry.Valid, Geometry.Bytes, Across;
      if outcome == PrepareFailed || outcome == CompressFailed {
        return Failed, Untouched;
      }
      if outcome == NoData {
        return Pending, Untouched;
      }
      if outcome == SendFailed {
        return Failed, Untouched;
      }
      StorePreviousFrame(data);
      UpdateTileHashes(data);
      RegisterCodecResult(Avc, true, now);
      return Accepted(true), Lossy;
    }

    /** A progressive or RemoteFX frame: the whole frame when a keyframe is due, otherwise the dirty tiles. */
    method EncodeExactFrame(codec: Codec, data: seq<byte>, flags: seq<bool>, outcome: Outcome, checkTime: int, now: int)
      returns (reply: Reply, update: Update)
      requires Valid() && Primed(View()) && Fits(diff, data) && flags == DirtyFlags(View(), data)
      modifies this
      ensures Valid() && (View(), reply, update) == EncodeExact(old(View()), data, codec, outcome, checkTime, now)
    {
      hide Total, HashRows, TileOf, Geometry.Valid, Geometry.Bytes, Across, DirtyRects, DirtyFlags;
      if outcome == PrepareFailed {
        return Failed, Untouched;
      }
      var refreshReached := RefreshIntervalReached(checkTime);
      var keyframe := refresh.forceKeyframe || !setup.enableDiff || refreshReached;
      var rects;
      if keyframe {
        tileHashes := seq(|tileHashes|, _ => 0 as Digest);
        rects := [Rect(0, 0, diff.width, diff.height)];
      } else {
        var hasDirty;
        rects, hasDirty := CollectDirtyTiles(flags);
        if !hasDirty {
          return Pending, Untouched;
        }
      }
      if outcome == CompressFailed || (outcome == NoData && codec != ProgressiveCodec) {
        return Failed, Untouched;
      }
      if outcome == SendFailed {
        refresh := refresh.(forceKeyframe := true);
        return Failed, Torn;
      }
      if outcome == NoData {
        return Accepted(false), Untouched;
      }
      CommitExact(data, keyframe, now);
      return Accepted(false), Exact(rects, keyframe);
    }

    method CommitExact(data: seq<byte>, keyframe: bool, now: int)
      requires Valid() && Primed(View()) && Fits(diff, data)
      modifies this
      ensures Valid() && diff == old(diff)
      ensures View() == Register(Commit(old(View()), data), NonAvc, keyframe, now).(forceKey := false)
    {
      hide Total, HashRows, TileOf, Geometry.Valid, Geometry.Bytes, Across;
      StorePreviousFrame(data);
      UpdateTileHashes(data);
      RegisterCodecResult(NonAvc, keyframe, now);
      refresh := refresh.(forceKeyframe := false);
    }

    /** The codec preference: hardware AVC first, then by the size of the change, then by capability. */
    method SelectCodec(s: Settings, autoSwitch: bool, vaapi: bool, large: bool) returns (codec: Codec)
      ensures codec == PickCodec(s, autoSwitch, vaapi && setup.hwAccel, large)
    {
      var forceAvc420 := autoSwitch && setup.hwAccel && s.avc420 && vaapi;
      var avc444, avc420, progressive, remoteFx := false, false, false, false;
      if forceAvc420 {
        avc420 := true;
      } else if autoSwitch {
        if large {
          if s.avc444v2 || s.avc444 {
            avc444 := true;
          } else if s.avc420 {
            avc420 := true;
          } else if s.progressive {
            progressive := true;
          } else if s.remoteFx && s.remoteFxId != 0 {
            remoteFx := true;
          }
        } else {
          if s.progressive {
            progressive := true;
          } else if s.remoteFx && s.remoteFxId != 0 {
            remoteFx := true;
          } else if s.avc444v2 || s.avc444 {
            avc444 := true;
          } else if s.avc420 {
            avc420 := true;
          }
        }
      } else if s.avc444v2 || s.avc444 || s.avc420 {
        avc444 := s.avc444v2 || s.avc444;
        avc420 := !avc444 && s.avc420;
      } else {
        progressive := s.progressive;
        remoteFx := s.remoteFx && s.remoteFxId != 0;
      }
      codec := if avc444 then Avc444Codec
               else if avc420 then Avc420Codec
               else if progressive then ProgressiveCodec
               else if remoteFx then RemoteFxCodec
               else NoCodec;
    }

    method EncodeSurfaceGfx(frame: Frame, s: Settings, autoSwitch: bool, vaapi: bool, outcome: Outcome,
                            checkTime: int, now: int) returns (reply: Reply, update: Update)
      requires Valid() && Fits(frame.geometry, frame.data)
      modifies this
      ensures Valid()
      ensures (View(), reply, update) == Encode(old(View()), frame, s, autoSwitch, vaapi, outcome, checkTime, now)
    {
      hide Consistent, Primed, Adopt, ChosenCodec, EncodeWith;
      if !setup.ready {
        return NotPrepared, Untouched;
      }
      AdoptFrame(frame.geometry);
      var codec, flags := AnalyzeAndChoose(frame.data, s, autoSwitch, vaapi);
      reply, update := RunCodec(codec, frame.data, flags, outcome, checkTime, now);
    }

    method AdoptFrame(g: Geometry)
      requires Valid() && g.Valid()
      modifies this
      ensures Valid() && Primed(View()) && diff == g && View() == Adopt(old(View()), g)
    {
      setup := setup.(frameWidth := g.width, frameHeight := g.height);
      PrepareGfxDiffState(g);
    }

    method RunCodec(codec: Codec, data: seq<byte>, flags: seq<bool>, outcome: Outcome, checkTime: int, now: int)
      returns (reply: Reply, update: Update)
      requires Valid() && Primed(View()) && Fits(diff, data) && flags == DirtyFlags(View(), data)
      modifies this
      ensures Valid()
      ensures (View(), reply, update) == EncodeWith(old(View()), data, codec, outcome, checkTime, now)
    {
      hide Consistent, Primed, EncodeAvc, EncodeExact, DirtyFlags, Fits;
      if codec == Avc444Codec || codec == Avc420Codec {
        reply, update := EncodeAvcFrame(data, outcome, now);
      } else if codec == NoCodec {
        return Accepted(false), Untouched;
      } else {
        reply, update := EncodeExactFrame(codec, data, flags, outcome, checkTime, now);
      }
    }

    method AnalyzeAndChoose(data: seq<byte>, s: Settings, autoSwitch: bool, vaapi: bool) returns (codec: Codec, flags: seq<bool>)
      requires Valid() && Primed(View()) && Fits(diff, data)
      ensures flags == DirtyFlags(View(), data) && codec == ChosenCodec(View(), data, s, autoSwitch, vaapi)
    {
      GridNonEmpty(diff);
      hide Total, HashRows, TileOf, Across, PickCodec;
      var previous := if |previousFrame| == diff.stride * diff.height then Some(previousFrame) else None;
      var changed, large;
      flags, changed, large := AnalyzeTiles(data, previous, setup.threshold);
      assert flags == DirtyFlags(View(), data);
      codec := SelectCodec(s, autoSwitch, vaapi, large);
    }

    method EncodeCachedFrameGfx(s: Settings, autoSwitch: bool, vaapi: bool, outcome: Outcome, checkTime: int, now: int)
      returns (reply: Reply, update: Update)
      requires Valid()
      modifies this
      ensures Valid()
      ensures (View(), reply, update) == EncodeCached(old(View()), s, autoSwitch, vaapi, outcome, checkTime, now)
    {
      if !setup.ready {
        return NotPrepared, Untouched;
      }
      if diff != NO_GEOMETRY {
        GridNonEmpty(diff);
        TotalPositive(diff);
      }
      hide Total, HashRows, TileOf, Across, Encode;
      if |previousFrame| == 0 || diff.width == 0 || diff.height == 0 || diff.stride == 0 {
        return NoCachedFrame, Untouched;
      }
      var cached := Frame(diff, previousFrame);
      refresh := refresh.(forceKeyframe := true);
      reply, update := EncodeSurfaceGfx(cached, s, autoSwitch, vaapi, outcome, checkTime, now);
    }

    /** A pull: a timed-out capture re-sends the remembered frame when a refresh is due. */
    method PullFrame(captured: Option<Frame>, timedOut: bool, s: Settings, autoSwitch: bool, vaapi: bool, outcome: Outcome,
                     dueTime: int, checkTime: int, now: int) returns (reply: Option<Reply>, update: Update)
      requires Valid() && (captured.Some? ==> Fits(captured.value.geometry, captured.value.data))
      modifies this
      ensures Valid()
      ensures captured.Some? ==>
        reply.Some? &&
        (View(), reply.value, update) == Encode(old(View()), captured.value, s, autoSwitch, vaapi, outcome, checkTime, now)
      ensures captured.None? && timedOut && RefreshReached(old(View()), dueTime) ==>
        reply.Some? &&
        (View(), reply.value, update) == EncodeCached(old(View()), s, autoSwitch, vaapi, outcome, checkTime, now)
      ensures captured.None? && !(timedOut && RefreshReached(old(View()), dueTime)) ==>
        reply.None? && update.Untouched? && View() == old(View())
    {
      hide Encode, EncodeCached, RefreshReached, Consistent;
      var r;
      match captured {
        case None =>
          var refreshDue := RefreshIntervalReached(dueTime);
          if timedOut && refreshDue {
            r, update := EncodeCachedFrameGfx(s, autoSwitch, vaapi, outcome, checkTime, now);
            return Some(r), update;
          }
          return None, Untouched;
        case Some(frame) =>
          r, update := EncodeSurfaceGfx(frame, s, autoSwitch, vaapi, outcome, checkTime, now);
          return Some(r), update;
      }
    }
  }

  /** One pass over the tiles: flags each one and counts the flags. */
  method FlagTiles(g: Geometry, tilesX: nat, hashes: seq<Digest>, previous: Option<seq<byte>>, data: seq<byte>)
    returns (flags: seq<bool>, changed: nat)
    requires Fits(g, data) && tilesX == Across(g.width) && |hashes| == Total(g)
    requires previous.Some? ==> Fits(g, previous.value)
    ensures |flags| == Total(g) && changed == CountTrue(flags)
    ensures forall i | 0 <= i < Total(g) :: flags[i] == Verdict(g, hashes[i], previous, data, i)
  {
    hide HashRows, TileOf, TileRect, Geometry.Valid, Geometry.Bytes, Total, IndexOf, TileIndex, Across, Min64, InBuffer;
    hide Verdict, CountTrue;
    flags := seq(|hashes|, _ => false);
    changed := 0;
    var y := 0;
    FirstTile(g);
    NoFlags(flags);
    while y < g.height
      invariant y % 64 == 0 && y < g.height + 64 && |flags| == Total(g)
      invariant IndexOf(g, 0, y) <= Total(g) && changed == CountTrue(flags[..IndexOf(g, 0, y)])
      invariant forall i | 0 <= i < IndexOf(g, 0, y) :: flags[i] == Verdict(g, hashes[i], previous, data, i)
    {
      var x := 0;
      while x < g.width
        invariant x % 64 == 0 && x < g.width + 64 && |flags| == Total(g)
        invariant IndexOf(g, x, y) <= Total(g) && changed == CountTrue(flags[..IndexOf(g, x, y)])
        invariant forall i | 0 <= i < IndexOf(g, x, y) :: flags[i] == Verdict(g, hashes[i], previous, data, i)
      {
        TileStep(g, data, x, y, tilesX);
        var index := TileIndex(tilesX, x, y);
        var different := JudgeTile(g, hashes[index], previous, data, x, y);
        CountStep(flags, index, different);
        flags := flags[index := different];
        if different {
          changed := changed + 1;
        }
        x := x + 64;
      }
      RowWraps(g, x, y);
      y := y + 64;
    }
    LastTile(g, y);
    assert flags[..Total(g)] == flags;
  }

  /** Hash first; the bytes are compared only when the hashes differ. */
  method JudgeTile(g: Geometry, stored: Digest, previous: Option<seq<byte>>, data: seq<byte>, x: nat, y: nat)
    returns (different: bool)
    requires Fits(g, data) && (previous.Some? ==> Fits(g, previous.value))
    requires x < g.width && y < g.height && x % 64 == y % 64 == 0
    ensures IndexOf(g, x, y) < Total(g) && different == Verdict(g, stored, previous, data, IndexOf(g, x, y))
  {
    TileStep(g, data, x, y, Across(g.width));
    var tileW, tileH := Min64(g.width - x), Min64(g.height - y);
    if previous.Some? {
      TileStep(g, previous.value, x, y, Across(g.width));
    }
    assert |data| < 0x1_0000_0000;
    hide HashRows, TileOf, TileRect, TileRows, Geometry.Valid, Geometry.Bytes, Total, IndexOf, TileIndex, Across, Min64, InBuffer;
    var hash := HashTile(data, g.stride, x, y, tileW, tileH);
    different := previous.None? || stored != hash;
    if different && previous.Some? {
      different := CompareTiles(previous.value, data, g.stride, x, y, tileW, tileH);
    }
  }

  /** Recomputes the hash table entry of every tile. */
  method HashTiles(g: Geometry, tilesX: nat, data: seq<byte>, stored: seq<Digest>) returns (hashes: seq<Digest>)
    requires Fits(g, data) && tilesX == Across(g.width) && |stored| == Total(g)
    ensures hashes == Digests(g, data)
  {
    hide HashRows, TileOf, TileRect, Geometry.Valid, Geometry.Bytes, Total, IndexOf, TileIndex, Across, Min64, InBuffer;
    hashes := stored;
    var y := 0;
    FirstTile(g);
    while y < g.height
      invariant y % 64 == 0 && y < g.height + 64 && |hashes| == Total(g)
      invariant forall i | 0 <= i < IndexOf(g, 0, y) && i < Total(g) :: hashes[i] == TileDigest(g, data, i)
    {
      var tileH := Min64(g.height - y);
      var x := 0;
      while x < g.width
        invariant x % 64 == 0 && x < g.width + 64 && |hashes| == Total(g)
        invariant forall i | 0 <= i < IndexOf(g, x, y) && i < Total(g) :: hashes[i] == TileDigest(g, data, i)
      {
        TileStep(g, data, x, y, tilesX);
        var tileW := Min64(g.width - x);
        var index := TileIndex(tilesX, x, y);
        var hash := HashTile(data, g.stride, x, y, tileW, tileH);
        hashes := hashes[index := hash];
        x := x + 64;
      }
      RowWraps(g, x, y);
      y := y + 64;
    }
    LastTile(g, y);
    assert hashes == Digests(g, data);
  }

  ghost predicate Verdict(g: Geometry, stored: Digest, previous: Option<seq<byte>>, data: seq<byte>, i: nat)
    requires Fits(g, data) && i < Total(g) && (previous.Some? ==> Fits(g, previous.value))
  {
    previous.None? || (stored != TileDigest(g, data, i) && TileOf(g, previous.value, i) != TileOf(g, data, i))
  }

  lemma NoFlags(flags: seq<bool>)
    ensures CountTrue(flags[..0]) == 0
  {}

  lemma CountStep(flags: seq<bool>, k: nat, b: bool)
    requires k < |flags|
    ensures CountTrue(flags[k := b][..k + 1]) == CountTrue(flags[..k]) + if b then 1 else 0
  {
    assert flags[k := b][..k + 1][..k] == flags[..k];
  }

  lemma GridNonEmpty(g: Geometry)
    requires g.Valid()
    ensures g.width > 0 && g.height > 0 && Across(g.width) > 0 && Across(g.height) > 0 && Total(g) > 0
  {
    TotalPositive(g);
  }

  lemma TotalFormula(g: Geometry, tilesX: nat, tilesY: nat)
    requires tilesX == Across(g.width) && tilesY == Across(g.height)
    ensures tilesX * tilesY == Total(g)
  {}
}
