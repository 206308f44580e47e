/**
  What the surface encoder's answers mean: the reply to the renderer and the choice between the
  kinds of codec, in terms of what reaches the client and of how many tiles change.
 */
module EncoderAnswers {
  import opened TileHash
  import opened TileGrid
  import opened EncoderSpec
  import opened EncoderRuns

  // ---- Replies ----

  /** The renderer is told H264 exactly for a lossy frame, and a torn or missing one is never a success with data. */
  ghost predicate Truthful(result: (Encoder, Reply, Update)) {
    var (_, reply, update) := result;
    && (reply == Accepted(true) <==> update.Lossy?)
    && (update.Exact? ==> reply == Accepted(false))
    && (update.Torn? ==> reply == Failed)
    && (!reply.Accepted? ==> update.Untouched? || update.Torn?)
  }

  lemma RepliesAreTruthful(e: Encoder, f: Frame, s: Settings, auto: bool, vaapi: bool, outcome: Outcome, t: int, now: int)
    requires Consistent(e) && Fits(f.geometry, f.data)
    ensures Truthful(Encode(e, f, s, auto, vaapi, outcome, t, now))
    ensures Truthful(EncodeCached(e, s, auto, vaapi, outcome, t, now))
  {
    TruthfulEncode(e, f, s, auto, vaapi, outcome, t, now);
    hide Encode, Truthful;
    if e.ready && e.diff != NO_GEOMETRY {
      TruthfulEncode(e.(forceKey := true), Frame(e.diff, e.prev), s, auto, vaapi, outcome, t, now);
    } else {
      TruthfulRefusal(e, s, auto, vaapi, outcome, t, now);
    }
  }

  lemma TruthfulRefusal(e: Encoder, s: Settings, auto: bool, vaapi: bool, outcome: Outcome, t: int, now: int)
    requires Consistent(e) && !(e.ready && e.diff != NO_GEOMETRY)
    ensures Truthful(EncodeCached(e, s, auto, vaapi, outcome, t, now))
    ensures EncodeCached(e, s, auto, vaapi, outcome, t, now) == (e, if e.ready then NoCachedFrame else NotPrepared, Untouched)
  {
    hide Encode;
  }

  lemma TruthfulEncode(e: Encoder, f: Frame, s: Settings, auto: bool, vaapi: bool, outcome: Outcome, t: int, now: int)
    requires Consistent(e) && Fits(f.geometry, f.data)
    ensures Truthful(Encode(e, f, s, auto, vaapi, outcome, t, now))
  {
    hide Total, TileOf, HashRows, Geometry.Valid, ChosenCodec, DirtyFlags, DirtyRects, KeyframeDue, Adopt;
    if e.ready {
      AdoptPrimes(e, f.geometry);
    }
  }

  predicate IsAvc(codec: Codec) {
    codec == Avc444Codec || codec == Avc420Codec
  }

  /**
    The two replies without success, for a prepared encoder: pending means that the AVC codec
    produced nothing, or that no keyframe is due and no tile dirty; failed means that a stage that
    was reached broke off, and a RemoteFX message counts as broken when it is empty.
   */
  lemma PendingAndFailed(e: Encoder, f: Frame, s: Settings, auto: bool, vaapi: bool, outcome: Outcome, t: int, now: int)
    requires Consistent(e) && Fits(f.geometry, f.data) && e.ready
    ensures Primed(Adopt(e, f.geometry)) && Adopt(e, f.geometry).diff == f.geometry
    ensures
      var e1 := Adopt(e, f.geometry);
      var codec := ChosenCodec(e1, f.data, s, auto, vaapi);
      var reply := Encode(e, f, s, auto, vaapi, outcome, t, now).1;
      var idle := !KeyframeDue(e1, t) && !AnyDirty(e1, f.data);
      && (reply == Pending <==>
            || (IsAvc(codec) && outcome == NoData)
            || (IsExact(codec) && outcome != PrepareFailed && idle))
      && (reply == Failed <==>
            || (codec != NoCodec && outcome == PrepareFailed)
            || (IsAvc(codec) && outcome in {CompressFailed, SendFailed})
            || (IsExact(codec) && !idle && outcome in {CompressFailed, SendFailed})
            || (codec == RemoteFxCodec && !idle && outcome == NoData))
  {
    hide Total, TileOf, HashRows, Geometry.Valid, ChosenCodec, DirtyFlags, DirtyRects, KeyframeDue, Adopt;
    AdoptPrimes(e, f.geometry);
    var e1 := Adopt(e, f.geometry);
    RectsIffFlags(e1.diff, DirtyFlags(e1, f.data));
  }

  /** What reaches the client, for a prepared encoder: by the kind of codec, how far the send got, and whether there was anything to send. */
  lemma UpdateIs(e: Encoder, f: Frame, s: Settings, auto: bool, vaapi: bool, outcome: Outcome, t: int, now: int)
    requires Consistent(e) && Fits(f.geometry, f.data) && e.ready
    ensures Primed(Adopt(e, f.geometry)) && Adopt(e, f.geometry).diff == f.geometry
    ensures
      var e1 := Adopt(e, f.geometry);
      var codec := ChosenCodec(e1, f.data, s, auto, vaapi);
      var update := Encode(e, f, s, auto, vaapi, outcome, t, now).2;
      var idle := !KeyframeDue(e1, t) && !AnyDirty(e1, f.data);
      && (update.Lossy? <==> IsAvc(codec) && outcome == Sent)
      && (update.Exact? <==> IsExact(codec) && outcome == Sent && !idle)
      && (update.Torn? <==> IsExact(codec) && outcome == SendFailed && !idle)
      && (update.Exact? ==> (update.key <==> KeyframeDue(e1, t)))
      && (update.Exact? && update.key ==> update.rects == [Rect(0, 0, f.geometry.width, f.geometry.height)])
      && (update.Exact? && !update.key ==> update.rects == DirtyRects(f.geometry, DirtyFlags(e1, f.data)))
  {
    hide Total, TileOf, HashRows, Geometry.Valid, ChosenCodec, DirtyFlags, DirtyRects, KeyframeDue, Adopt;
    AdoptPrimes(e, f.geometry);
    var e1 := Adopt(e, f.geometry);
    RectsIffFlags(e1.diff, DirtyFlags(e1, f.data));
  }

  /** A delta frame repaints exactly the pixels of the tiles to be sent. */
  lemma DeltaRepaintsDirtyTiles(e: Encoder, data: seq<byte>, px: nat, py: nat)
    requires Primed(e) && Fits(e.diff, data) && px < e.diff.width && py < e.diff.height
    ensures Covered(DirtyRects(e.diff, DirtyFlags(e, data)), px, py) <==> IndexOf(e.diff, px, py) in DirtyTiles(e, data)
  {
    hide Total, TileOf, HashRows, TileRect, IndexOf;
    DirtyRectsCover(e.diff, DirtyFlags(e, data), px, py);
  }

  /** A client that announces no AVC codec is never told that a frame was H264. */
  lemma NoAvcNoH264(e: Encoder, f: Frame, s: Settings, auto: bool, vaapi: bool, outcome: Outcome, t: int, now: int)
    requires Consistent(e) && Fits(f.geometry, f.data) && !Usable(s, Avc444Codec) && !Usable(s, Avc420Codec)
    ensures Encode(e, f, s, auto, vaapi, outcome, t, now).1 != Accepted(true)
  {
    if e.ready {
      UpdateIs(e, f, s, auto, vaapi, outcome, t, now);
      TruthfulEncode(e, f, s, auto, vaapi, outcome, t, now);
      hide Total, TileOf, HashRows, Geometry.Valid, DirtyFlags, DirtyRects, KeyframeDue, Adopt, PickCodec, Encode, AnyDirty;
      var e1 := Adopt(e, f.geometry);
      TotalPositive(e1.diff);
      PickedCodec(s, auto, vaapi && e1.hwAccel, LargeChange(CountTrue(DirtyFlags(e1, f.data)), Total(e1.diff), e1.threshold));
    }
  }

  /**
    An encode that sends nothing whole keeps the remembered frame.  A keyframe that was prepared but
    did not get through leaves the hash table zeroed, a torn one also forces the next.
   */
  lemma FailureLeaves(e: Encoder, f: Frame, s: Settings, auto: bool, vaapi: bool, outcome: Outcome, t: int, now: int)
    requires Consistent(e) && Fits(f.geometry, f.data) && e.ready
    requires var update := Encode(e, f, s, auto, vaapi, outcome, t, now).2; update.Untouched? || update.Torn?
    ensures Primed(Adopt(e, f.geometry)) && Adopt(e, f.geometry).diff == f.geometry
    ensures
      var e1 := Adopt(e, f.geometry);
      var codec := ChosenCodec(e1, f.data, s, auto, vaapi);
      var (e', _, update) := Encode(e, f, s, auto, vaapi, outcome, t, now);
      && e'.prev == e1.prev && e'.diff == f.geometry && |e'.hashes| == |e1.hashes|
      && (forall i | 0 <= i < |e'.hashes| ::
            e'.hashes[i] == if IsExact(codec) && outcome != PrepareFailed && KeyframeDue(e1, t) then 0 else e1.hashes[i])
      && (e'.forceKey <==> e1.forceKey || update.Torn?)
  {
    hide Total, TileOf, HashRows, Geometry.Valid, ChosenCodec, DirtyFlags, DirtyRects, Adopt, RefreshReached;
    AdoptPrimes(e, f.geometry);
  }

  // ---- How much has changed ----

  /** The numbers of the tiles to be sent. */
  function DirtyTiles(e: Encoder, data: seq<byte>): set<nat>
    requires Primed(e) && Fits(e.diff, data)
  {
    Flagged(DirtyFlags(e, data))
  }

  function Flagged(flags: seq<bool>): set<nat> {
    set i: nat | i < |flags| && flags[i]
  }

  lemma {:induction false} CountIsCardinality(flags: seq<bool>)
    ensures CountTrue(flags) == |Flagged(flags)|
  {
    if flags == [] {
      assert Flagged(flags) == {};
    } else {
      var n := |flags| - 1;
      CountIsCardinality(flags[..n]);
      assert Flagged(flags) == Flagged(flags[..n]) + if flags[n] then {n as nat} else {};
    }
  }

  /** A tile is to be sent exactly when its hash is new and its bytes differ. */
  lemma DirtyTilesAre(e: Encoder, data: seq<byte>, i: nat)
    requires Primed(e) && Fits(e.diff, data) && i < Total(e.diff)
    ensures i in DirtyTiles(e, data) <==>
      e.hashes[i] != TileDigest(e.diff, data, i) && TileOf(e.diff, e.prev, i) != TileOf(e.diff, data, i)
  {
    hide Total, TileOf, HashRows, Geometry.Valid;
  }

  /** The part is at least that share of the whole. */
  predicate AtLeastShare(part: nat, whole: nat, threshold: real) {
    part as real >= threshold * whole as real
  }

  lemma RatioAtLeast(part: nat, whole: nat, threshold: real)
    requires whole > 0
    ensures LargeChange(part, whole, threshold) <==> AtLeastShare(part, whole, threshold)
  {
    var ratio := part as real / whole as real;
    assert part as real == ratio * whole as real;
    if ratio >= threshold {
      assert (ratio - threshold) * whole as real >= 0.0;
    } else {
      assert (threshold - ratio) * whole as real > 0.0;
    }
  }

  /**
    In automatic mode without hardware encoding, a client with both kinds of codec gets an exact one
    exactly when the tiles to be sent are fewer than the threshold's share of all tiles.
   */
  lemma ExactIffFewTiles(e: Encoder, data: seq<byte>, s: Settings, vaapi: bool)
    requires Primed(e) && Fits(e.diff, data) && !(vaapi && e.hwAccel && s.avc420)
    requires Usable(s, Avc444Codec) || Usable(s, Avc420Codec)
    requires Usable(s, ProgressiveCodec) || Usable(s, RemoteFxCodec)
    ensures IsExact(ChosenCodec(e, data, s, true, vaapi)) <==> |DirtyTiles(e, data)| as real < e.threshold * Total(e.diff) as real
  {
    hide Total, TileOf, HashRows, Geometry.Valid, PickCodec, DirtyFlags;
    TotalPositive(e.diff);
    var flags := DirtyFlags(e, data);
    CountIsCardinality(flags);
    RatioAtLeast(CountTrue(flags), Total(e.diff), e.threshold);
    PickedCodec(s, true, vaapi && e.hwAccel, LargeChange(CountTrue(flags), Total(e.diff), e.threshold));
  }
}
