/**
  The surface encoder as a value: its remembered frame, tile hashes, keyframe flag and the
  AVC-to-non-AVC refresh tracking, with one function for each operation on it.

  The codecs and the transport are oracles: each encode is told how far it got.  The clock is
  passed in, once for the refresh check and once for the moment the result is registered.
 */
module EncoderSpec {
  import opened TileHash
  import opened TileGrid

  datatype CodecClass = UnknownCodec | Avc | NonAvc

  datatype Mode = Raw | Rfx | H264 | Auto

  datatype Options = Options(
    width: nat, height: nat, mode: Mode, enableDiff: bool, hwAccel: bool,
    threshold: real, interval: nat, timeoutMs: nat)

  const DEFAULT_THRESHOLD: real := 0.05
  const DEFAULT_INTERVAL: nat := 6
  const DEFAULT_TIMEOUT_MS: nat := 100

  datatype Encoder = Encoder(
    ready: bool, frameWidth: nat, frameHeight: nat, enableDiff: bool, hwAccel: bool,
    prev: seq<byte>, hashes: seq<Digest>, diff: Geometry,
    forceKey: bool, rfxFrames: nat, threshold: real, interval: nat, timeoutMs: nat,
    lastCodec: CodecClass, transition: bool, switchTs: int)

  const NO_GEOMETRY := Geometry(0, 0, 0)

  const INITIAL := Encoder(
    false, 0, 0, true, false, [], [], NO_GEOMETRY,
    true, 0, DEFAULT_THRESHOLD, DEFAULT_INTERVAL, DEFAULT_TIMEOUT_MS, UnknownCodec, false, 0)

  datatype Settings = Settings(
    avc420: bool, avc444: bool, avc444v2: bool, remoteFx: bool, progressive: bool, remoteFxId: nat)

  datatype Codec = Avc444Codec | Avc420Codec | ProgressiveCodec | RemoteFxCodec | NoCodec

  /** How far the chosen codec and the transport got. */
  datatype Outcome = PrepareFailed | CompressFailed | NoData | SendFailed | Sent

  datatype Reply = NotPrepared | NoCachedFrame | Failed | Pending | Accepted(h264: bool)

  /** What reached the client's surface. */
  datatype Update = Untouched | Lossy | Torn | Exact(rects: seq<Rect>, key: bool)

  datatype Frame = Frame(geometry: Geometry, data: seq<byte>)

  // ---- Tiles of the remembered frame ----

  function TileDigest(g: Geometry, data: seq<byte>, i: nat): Digest
    requires Fits(g, data) && i < Total(g)
  {
    HashRows(TileOf(g, data, i))
  }

  function Digests(g: Geometry, data: seq<byte>): (ds: seq<Digest>)
    requires Fits(g, data)
    ensures |ds| == Total(g) && forall i | 0 <= i < Total(g) :: ds[i] == TileDigest(g, data, i)
  {
    seq(Total(g), i requires 0 <= i < Total(g) => TileDigest(g, data, i))
  }

  /** Geometry, remembered frame and hash table agree in size; before the first frame all are empty. */
  ghost predicate Consistent(e: Encoder) {
    if e.diff == NO_GEOMETRY then
      e.prev == [] && e.hashes == [] && e.forceKey
    else
      Fits(e.diff, e.prev) && |e.hashes| == Total(e.diff)
  }

  ghost predicate Primed(e: Encoder) {
    Consistent(e) && e.diff != NO_GEOMETRY
  }

  /** Every stored hash is the hash of the remembered tile. */
  ghost predicate Synced(e: Encoder)
    requires Consistent(e)
  {
    e.diff != NO_GEOMETRY ==> forall i | 0 <= i < Total(e.diff) :: e.hashes[i] == TileDigest(e.diff, e.prev, i)
  }

  /** The analyzer's verdict on one tile: equal hashes are trusted, unequal ones are checked. */
  predicate TileChanged(e: Encoder, data: seq<byte>, i: nat)
    requires Primed(e) && Fits(e.diff, data) && i < Total(e.diff)
  {
    e.hashes[i] != TileDigest(e.diff, data, i) && TileOf(e.diff, e.prev, i) != TileOf(e.diff, data, i)
  }

  function DirtyFlags(e: Encoder, data: seq<byte>): (flags: seq<bool>)
    requires Primed(e) && Fits(e.diff, data)
    ensures |flags| == Total(e.diff)
    ensures forall i | 0 <= i < Total(e.diff) :: flags[i] == TileChanged(e, data, i)
  {
    seq(Total(e.diff), i requires 0 <= i < Total(e.diff) => TileChanged(e, data, i))
  }

  function CountTrue(flags: seq<bool>): nat {
    if flags == [] then 0 else CountTrue(flags[..|flags| - 1]) + if flags[|flags| - 1] then 1 else 0
  }

  predicate LargeChange(changed: nat, total: nat, threshold: real)
    requires total > 0
  {
    changed as real / total as real >= threshold
  }

  // ---- Operations ----

  function Reset(e: Encoder): Encoder {
    if !e.ready then e else INITIAL.(hwAccel := e.hwAccel)
  }

  function Prepare(e: Encoder, o: Options): (r: (Encoder, bool))
  {
    if o.width == 0 || o.height == 0 then (e, false)
    else if o.mode == Raw then (Reset(e), false)
    else
      var e1 := if e.ready && (e.frameWidth != o.width || e.frameHeight != o.height) then Reset(e) else e;
      (e1.(ready := true, frameWidth := o.width, frameHeight := o.height,
           enableDiff := o.enableDiff, hwAccel := o.hwAccel, forceKey := true, rfxFrames := 0,
           threshold := o.threshold, interval := o.interval, timeoutMs := o.timeoutMs,
           lastCodec := UnknownCodec, transition := false), true)
  }

  predicate RefreshReached(e: Encoder, now: int) {
    && e.transition
    && e.switchTs > 0
    && (|| (e.interval > 0 && e.rfxFrames + 1 >= e.interval)
        || (e.timeoutMs > 0 && now - e.switchTs >= e.timeoutMs * 1000))
  }

  /** Would a non-AVC encode at this time send the whole frame? */
  predicate KeyframeDue(e: Encoder, now: int) {
    e.forceKey || !e.enableDiff || RefreshReached(e, now)
  }

  function PrepareDiff(e: Encoder, g: Geometry): Encoder
    requires g.Valid()
  {
    if e.diff == g && |e.prev| == g.Bytes() then e
    else e.(diff := g, prev := seq(g.Bytes(), _ => 0 as byte), hashes := seq(Total(g), _ => 0 as Digest),
            forceKey := true, rfxFrames := 0)
  }

  function Commit(e: Encoder, data: seq<byte>): Encoder
    requires Fits(e.diff, data)
  {
    e.(prev := data, hashes := Digests(e.diff, data))
  }

  function Register(e: Encoder, codec: CodecClass, key: bool, now: int): Encoder {
    match codec
    case Avc =>
      e.(lastCodec := Avc, transition := false, rfxFrames := 0, switchTs := 0)
    case UnknownCodec =>
      e.(lastCodec := UnknownCodec, transition := false, rfxFrames := 0, switchTs := 0)
    case NonAvc =>
      var entering := e.lastCodec == Avc;
      var tracking := entering || e.transition;
      var frames := if !tracking || key || e.interval == 0 then 0 else (if entering then 0 else e.rfxFrames) + 1;
      e.(lastCodec := NonAvc,
         rfxFrames := frames,
         switchTs := if key then (if tracking then now else 0) else if entering then now else e.switchTs,
         transition := tracking && !key)
  }

  function PickCodec(s: Settings, autoSwitch: bool, vaapi: bool, large: bool): Codec {
    var avc444 := s.avc444v2 || s.avc444;
    var rfx := s.remoteFx && s.remoteFxId != 0;
    if autoSwitch && vaapi && s.avc420 then Avc420Codec
    else if autoSwitch && large then
      if avc444 then Avc444Codec
      else if s.avc420 then Avc420Codec
      else if s.progressive then ProgressiveCodec
      else if rfx then RemoteFxCodec
      else NoCodec
    else if autoSwitch then
      if s.progressive then ProgressiveCodec
      else if rfx then RemoteFxCodec
      else if avc444 then Avc444Codec
      else if s.avc420 then Avc420Codec
      else NoCodec
    else if avc444 then Avc444Codec
    else if s.avc420 then Avc420Codec
    else if s.progressive then ProgressiveCodec
    else if rfx then RemoteFxCodec
    else NoCodec
  }

  /** What the client can decode. */
  predicate Usable(s: Settings, codec: Codec) {
    match codec
    case Avc444Codec => s.avc444v2 || s.avc444
    case Avc420Codec => s.avc420
    case ProgressiveCodec => s.progressive
    case RemoteFxCodec => s.remoteFx && s.remoteFxId != 0
    case NoCodec => false
  }

  predicate IsExact(codec: Codec) {
    codec == ProgressiveCodec || codec == RemoteFxCodec
  }

  /**
    The choice, by what it means: a usable codec whenever there is one; an exact one only if the
    client has no AVC, or in automatic mode for a small change without hardware encoding; within
    each kind the better one, but hardware encoding takes AVC420.
   */
  lemma PickedCodec(s: Settings, autoSwitch: bool, vaapi: bool, large: bool)
    ensures
      var codec := PickCodec(s, autoSwitch, vaapi, large);
      var avc := Usable(s, Avc444Codec) || Usable(s, Avc420Codec);
      var exact := Usable(s, ProgressiveCodec) || Usable(s, RemoteFxCodec);
      var hardware := autoSwitch && vaapi && s.avc420;
      && (codec != NoCodec ==> Usable(s, codec))
      && (codec == NoCodec <==> !avc && !exact)
      && (IsExact(codec) <==> exact && (avc ==> autoSwitch && !large && !hardware))
      && (codec == RemoteFxCodec ==> !Usable(s, ProgressiveCodec))
      && (hardware ==> codec == Avc420Codec)
      && (codec == Avc420Codec && Usable(s, Avc444Codec) ==> hardware)
  {}

  function EncodeAvc(e: Encoder, data: seq<byte>, outcome: Outcome, now: int): (Encoder, Reply, Update)
    requires Fits(e.diff, data)
  {
    match outcome
    case NoData => (e, Pending, Untouched)
    case Sent => (Register(Commit(e, data), Avc, true, now), Accepted(true), Lossy)
    case _ => (e, Failed, Untouched)
  }

  function ZeroHashes(e: Encoder): Encoder {
    e.(hashes := seq(|e.hashes|, _ => 0 as Digest))
  }

  function FullRect(g: Geometry): seq<Rect> {
    [Rect(0, 0, g.width, g.height)]
  }

  function EncodeExact(e: Encoder, data: seq<byte>, codec: Codec, outcome: Outcome, checkTime: int, now: int)
    : (Encoder, Reply, Update)
    requires Primed(e) && Fits(e.diff, data)
  {
    if outcome == PrepareFailed then (e, Failed, Untouched) else
      var key := KeyframeDue(e, checkTime);
      var rects := if key then FullRect(e.diff) else DirtyRects(e.diff, DirtyFlags(e, data));
      var e1 := if key then ZeroHashes(e) else e;
      if rects == [] then (e1, Pending, Untouched) else
        match outcome
        case Sent => (Register(Commit(e1, data), NonAvc, key, now).(forceKey := false), Accepted(false), Exact(rects, key))
        case SendFailed => (e1.(forceKey := true), Failed, Torn)
        case NoData => (e1, if codec == ProgressiveCodec then Accepted(false) else Failed, Untouched)
        case _ => (e1, Failed, Untouched)
  }

  lemma TotalPositive(g: Geometry)
    requires g.Valid()
    ensures Total(g) > 0 && g.Bytes() > 0
  {
    ScaleMonotone(Across(g.width), 1, Across(g.height));
    ScaleMonotone(g.stride, 1, g.height);
  }

  /** The state after taking on the size of the frame to be sent. */
  function Adopt(e: Encoder, g: Geometry): Encoder
    requires g.Valid()
  {
    PrepareDiff(e.(frameWidth := g.width, frameHeight := g.height), g)
  }

  lemma AdoptPrimes(e: Encoder, g: Geometry)
    requires Consistent(e) && g.Valid()
    ensures Primed(Adopt(e, g)) && Adopt(e, g).diff == g
  {
    hide Total;
    TotalPositive(g);
  }

  function ChosenCodec(e: Encoder, data: seq<byte>, s: Settings, autoSwitch: bool, vaapi: bool): Codec
    requires Primed(e) && Fits(e.diff, data)
  {
    TotalPositive(e.diff);
    PickCodec(s, autoSwitch, vaapi && e.hwAccel, LargeChange(CountTrue(DirtyFlags(e, data)), Total(e.diff), e.threshold))
  }

  function EncodeWith(e: Encoder, data: seq<byte>, codec: Codec, outcome: Outcome, checkTime: int, now: int)
    : (Encoder, Reply, Update)
    requires Primed(e) && Fits(e.diff, data)
  {
    match codec
    case Avc444Codec => EncodeAvc(e, data, outcome, now)
    case Avc420Codec => EncodeAvc(e, data, outcome, now)
    case NoCodec => (e, Accepted(false), Untouched)
    case _ => EncodeExact(e, data, codec, outcome, checkTime, now)
  }

  function Encode(e: Encoder, frame: Frame, s: Settings, autoSwitch: bool, vaapi: bool, outcome: Outcome,
                  checkTime: int, now: int): (Encoder, Reply, Update)
    requires Consistent(e) && Fits(frame.geometry, frame.data)
  {
    if !e.ready then (e, NotPrepared, Untouched) else
      AdoptPrimes(e, frame.geometry);
      var e1 := Adopt(e, frame.geometry);
      EncodeWith(e1, frame.data, ChosenCodec(e1, frame.data, s, autoSwitch, vaapi), outcome, checkTime, now)
  }

  /** Re-sends the remembered frame as a keyframe. */
  function EncodeCached(e: Encoder, s: Settings, autoSwitch: bool, vaapi: bool, outcome: Outcome,
                        checkTime: int, now: int): (Encoder, Reply, Update)
    requires Consistent(e)
  {
    if !e.ready then (e, NotPrepared, Untouched)
    else if e.diff == NO_GEOMETRY then (e, NoCachedFrame, Untouched)
    else Encode(e.(forceKey := true), Frame(e.diff, e.prev), s, autoSwitch, vaapi, outcome, checkTime, now)
  }
}
