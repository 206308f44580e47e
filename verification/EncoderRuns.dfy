/**
  Whole runs of the surface encoder against a client that displays what it is sent.

  The world adds three ghosts to the encoder: the surface the client shows, the set of tiles it
  last received through a lossy AVC frame, and the number of non-AVC delta frames sent since then.
 */
module EncoderRuns {
  import opened TileHash
  import opened TileGrid
  import opened EncoderSpec

  datatype World = World(enc: Encoder, client: Surface, lossy: set<nat>, armed: bool, deltas: nat, clock: int)

  /** `shown` is whatever the client displays after a lossy frame or a send that failed half-way. */
  datatype Event =
    | DoPrepare(options: Options)
    | DoReset
    | DoForceKeyframe
    | DoEncode(frame: Frame, settings: Settings, auto: bool, vaapi: bool, outcome: Outcome,
               checkTime: int, now: int, shown: Surface)
    | DoEncodeCached(settings: Settings, auto: bool, vaapi: bool, outcome: Outcome,
                     checkTime: int, now: int, shown: Surface)

  ghost predicate Encodes(e: Encoder, ev: Event) {
    (ev.DoEncode? && e.ready) || (ev.DoEncodeCached? && e.ready && e.diff != NO_GEOMETRY)
  }

  function FrameOf(e: Encoder, ev: Event): Frame
    requires ev.DoEncode? || ev.DoEncodeCached?
  {
    if ev.DoEncode? then ev.frame else Frame(e.diff, e.prev)
  }

  /** Frames are well formed, the clock is positive and never runs backwards, surfaces keep their shape. */
  ghost predicate Enabled(w: World, ev: Event) {
    && Consistent(w.enc)
    && (ev.DoEncode? || ev.DoEncodeCached? ==> 0 < ev.checkTime <= ev.now && w.clock <= ev.checkTime)
    && (ev.DoEncode? ==> Fits(ev.frame.geometry, ev.frame.data))
    && (Encodes(w.enc, ev) ==> Shaped(FrameOf(w.enc, ev).geometry, ev.shown))
  }

  function Result(e: Encoder, ev: Event): (Encoder, Reply, Update)
    requires Consistent(e) && (ev.DoEncode? ==> Fits(ev.frame.geometry, ev.frame.data))
  {
    match ev
    case DoPrepare(o) => var (e', ok) := Prepare(e, o); (e', if ok then Accepted(false) else Failed, Untouched)
    case DoReset => (Reset(e), Accepted(false), Untouched)
    case DoForceKeyframe => (e.(forceKey := true), Accepted(false), Untouched)
    case DoEncode(f, s, auto, vaapi, outcome, t, now, _) => Encode(e, f, s, auto, vaapi, outcome, t, now)
    case DoEncodeCached(s, auto, vaapi, outcome, t, now, _) => EncodeCached(e, s, auto, vaapi, outcome, t, now)
  }

  /** A surface of the frame's shape to patch: the client's own, or anything when the frame changed shape. */
  ghost function Canvas(g: Geometry, client: Surface, shown: Surface): (s: Surface)
    requires Shaped(g, shown)
    ensures Shaped(g, s)
  {
    if Shaped(g, client) then client else shown
  }

  predicate IsTile(g: Geometry, i: nat) {
    i < Total(g)
  }

  function AllTiles(g: Geometry): set<nat> {
    set i: nat | i < Total(g) && IsTile(g, i)
  }

  /** The tiles all of whose pixels lie in some rectangle of the list. */
  ghost function Covers(g: Geometry, rects: seq<Rect>): set<nat>
    requires g.Valid()
  {
    set i: nat | i < Total(g) && FullyCovered(g, rects, i)
  }

  ghost predicate FullyCovered(g: Geometry, rects: seq<Rect>, i: nat)
    requires g.Valid() && i < Total(g)
  {
    forall px: nat, py: nat | InRect(TileRect(g, i), px, py) :: Covered(rects, px, py)
  }

  /** What an encode does to the client and to the ghosts; `shown` is whatever the client may make up. */
  ghost function Deliver(w: World, e: Encoder, update: Update, f: Frame, shown: Surface, clock: int): World
    requires Fits(f.geometry, f.data) && Shaped(f.geometry, shown)
  {
    var g := f.geometry;
    match update
    case Untouched => w.(enc := e, clock := clock)
    case Torn => w.(enc := e, client := shown, clock := clock)
    case Lossy => World(e, shown, AllTiles(g), true, 0, clock)
    case Exact(rects, key) =>
      var latest := SurfaceOf(g, f.data);
      var client := Patch(g, Canvas(g, w.client, shown), latest, rects);
      if key then World(e, client, {}, false, 0, clock)
      else World(e, client, w.lossy - Covers(g, rects), w.armed, if w.armed then w.deltas + 1 else 0, clock)
  }

  ghost function Next(w: World, ev: Event): World
    requires Enabled(w, ev)
  {
    var (e, _, update) := Result(w.enc, ev);
    if Encodes(w.enc, ev) then Deliver(w, e, update, FrameOf(w.enc, ev), ev.shown, ev.now)
    else w.(enc := e, clock := if ev.DoEncode? || ev.DoEncodeCached? then ev.now else w.clock)
  }

  const START := World(INITIAL, [], {}, false, 0, 0)

  ghost predicate Possible(events: seq<Event>)
    decreases |events|, 0
  {
    events == [] || (var n := |events| - 1; Possible(events[..n]) && Enabled(Run(events[..n]), events[n]))
  }

  /** The world after a sequence of events from start-up. */
  ghost function Run(events: seq<Event>): World
    requires Possible(events)
    decreases |events|, 1
  {
    if events == [] then START else var n := |events| - 1; Next(Run(events[..n]), events[n])
  }

  // ---- The invariant ----

  ghost predicate HashTrust(e: Encoder, clock: int)
    requires Consistent(e)
  {
    Synced(e) || forall t | t >= clock :: KeyframeDue(e, t)
  }

  ghost predicate Mirrors(w: World)
    requires Consistent(w.enc)
  {
    && Shaped(w.enc.diff, w.client) && w.enc.diff.Valid()
    && forall i | 0 <= i < Total(w.enc.diff) && i !in w.lossy ::
         HashRows(TileOn(w.enc.diff, w.client, i)) == TileDigest(w.enc.diff, w.enc.prev, i)
  }

  function DeltaLimit(interval: nat): nat {
    if interval <= 2 then 1 else interval - 1
  }

  ghost predicate Tracking(w: World) {
    && (w.enc.transition ==> w.enc.lastCodec == NonAvc && 0 < w.enc.switchTs <= w.clock)
    && (w.enc.lastCodec == Avc || w.enc.transition ==> w.armed)
    && (!w.enc.forceKey && w.armed ==>
          || (w.enc.lastCodec == Avc && w.deltas == 0)
          || (w.enc.transition && (w.enc.interval > 0 ==> w.deltas == w.enc.rfxFrames)))
    && (!w.enc.forceKey && w.armed && w.enc.interval > 0 ==> w.deltas <= DeltaLimit(w.enc.interval))
    && (!w.enc.forceKey && w.lossy != {} ==> w.armed)
  }

  ghost predicate Inv(w: World) {
    && Consistent(w.enc)
    && HashTrust(w.enc, w.clock)
    && (!w.enc.forceKey ==> Mirrors(w))
    && Tracking(w)
  }

  lemma StartInv()
    ensures Inv(START)
  {}

  lemma RefreshStays(e: Encoder, t1: int, t2: int)
    requires RefreshReached(e, t1) && t1 <= t2
    ensures RefreshReached(e, t2)
  {}

  lemma DueStays(e: Encoder, t1: int)
    requires KeyframeDue(e, t1)
    ensures forall t | t >= t1 :: KeyframeDue(e, t)
  {
    if RefreshReached(e, t1) {
      forall t | t >= t1 ensures RefreshReached(e, t) {
        RefreshStays(e, t1, t);
      }
    }
  }

  // ---- Every step keeps it ----

  /** Adopting the frame's geometry: either nothing changes or the next non-AVC frame is a keyframe. */
  lemma ResizeInv(w: World, g: Geometry, e: Encoder)
    requires Inv(w) && g.Valid()
    requires e == Adopt(w.enc, g)
    ensures Primed(e) && e.diff == g && Inv(w.(enc := e))
  {
    hide HashRows, TileOf, TileOn, Total;
    TotalPositive(g);
    if !Synced(w.enc) {
      forall t | t >= w.clock ensures KeyframeDue(e, t) {
        assert KeyframeDue(w.enc, t);
      }
    }
  }

  lemma KeyframeInv(w: World, data: seq<byte>, shown: Surface, codec: Codec, outcome: Outcome, t: int, now: int)
    requires Inv(w) && Primed(w.enc) && Fits(w.enc.diff, data) && w.clock <= t <= now && t > 0
    requires KeyframeDue(w.enc, t) && Shaped(w.enc.diff, shown)
    ensures
      var (e, _, update) := EncodeExact(w.enc, data, codec, outcome, t, now);
      Inv(Deliver(w, e, update, Frame(w.enc.diff, data), shown, now))
  {
    hide HashRows, TileOf, TileOn, Total, Geometry.Valid, Patch;
    var g := w.enc.diff;
    var (e, _, update) := EncodeExact(w.enc, data, codec, outcome, t, now);
    DueStays(w.enc, t);
    if update.Exact? {
      var latest := SurfaceOf(g, data);
      PatchFull(g, Canvas(g, w.client, shown), latest);
      forall i | 0 <= i < Total(g) ensures HashRows(TileOn(g, latest, i)) == TileDigest(g, data, i) {
        TileOfSurface(g, data, i);
      }
    }
  }

  lemma AvcInv(w: World, data: seq<byte>, shown: Surface, outcome: Outcome, now: int)
    requires Inv(w) && Primed(w.enc) && Fits(w.enc.diff, data) && w.clock <= now && now > 0
    requires Shaped(w.enc.diff, shown)
    ensures
      var (e, _, update) := EncodeAvc(w.enc, data, outcome, now);
      Inv(Deliver(w, e, update, Frame(w.enc.diff, data), shown, now))
  {
    hide HashRows, TileOf, TileOn, Total, Geometry.Valid, Patch;
  }

  /** A delta covers exactly the flagged tiles. */
  lemma DeltaCovers(g: Geometry, flags: seq<bool>, i: nat)
    requires g.Valid() && i < Total(g) == |flags|
    ensures i in Covers(g, DirtyRects(g, flags)) <==> flags[i]
  {
    hide TileRect, Total, Geometry.Valid, DirtyRects, Covered;
    TileInside(g, i);
    var r := TileRect(g, i);
    assert InRect(r, r.x, r.y);
    forall px: nat, py: nat | InRect(r, px, py) ensures Covered(DirtyRects(g, flags), px, py) <==> flags[i] {
      TileOfPixel(g, i, px, py);
      DirtyRectsCover(g, flags, px, py);
    }
  }

  /** An unflagged tile keeps its hash: that is all the analyzer checks, and all a delta needs. */
  lemma UnflaggedKeepsHash(e: Encoder, data: seq<byte>, i: nat)
    requires Primed(e) && Synced(e) && Fits(e.diff, data) && i < Total(e.diff) && !TileChanged(e, data, i)
    ensures TileDigest(e.diff, data, i) == TileDigest(e.diff, e.prev, i)
  {
    hide HashRows, TileOf, Total, Geometry.Valid;
  }

  lemma DeltaTile(w: World, data: seq<byte>, i: nat)
    requires Inv(w) && Primed(w.enc) && Fits(w.enc.diff, data) && !w.enc.forceKey && Synced(w.enc)
    requires i < Total(w.enc.diff)
    ensures
      var g := w.enc.diff;
      var flags := DirtyFlags(w.enc, data);
      var client := Patch(g, w.client, SurfaceOf(g, data), DirtyRects(g, flags));
      && Shaped(g, client)
      && (i !in w.lossy - Covers(g, DirtyRects(g, flags)) ==> HashRows(TileOn(g, client, i)) == TileDigest(g, data, i))
  {
    hide HashRows, TileOf, TileOn, Total, Geometry.Valid, Patch, Covers, DirtyRects, TileChanged;
    var g := w.enc.diff;
    var flags := DirtyFlags(w.enc, data);
    PatchTile(g, w.client, SurfaceOf(g, data), flags, i);
    DeltaCovers(g, flags, i);
    if flags[i] {
      TileOfSurface(g, data, i);
    } else {
      UnflaggedKeepsHash(w.enc, data, i);
    }
  }

  lemma DeltaInv(w: World, data: seq<byte>, shown: Surface, codec: Codec, outcome: Outcome, t: int, now: int)
    requires Inv(w) && Primed(w.enc) && Fits(w.enc.diff, data) && w.clock <= t <= now && t > 0
    requires !KeyframeDue(w.enc, t) && Shaped(w.enc.diff, shown)
    ensures
      var (e, _, update) := EncodeExact(w.enc, data, codec, outcome, t, now);
      Inv(Deliver(w, e, update, Frame(w.enc.diff, data), shown, now))
  {
    hide HashRows, TileOf, TileOn, Total, Geometry.Valid, Patch, Covers, DirtyRects, TileChanged;
    var g := w.enc.diff;
    var (e, _, update) := EncodeExact(w.enc, data, codec, outcome, t, now);
    assert Synced(w.enc);
    var after := Deliver(w, e, update, Frame(g, data), shown, now);
    if update.Exact? {
      forall i | 0 <= i < Total(g) && i !in after.lossy
        ensures Shaped(g, after.client) && HashRows(TileOn(g, after.client, i)) == TileDigest(g, data, i)
      {
        DeltaTile(w, data, i);
      }
      TotalPositive(g);
      DeltaTile(w, data, 0);
    }
  }

  lemma EncodeInv(w: World, f: Frame, s: Settings, auto: bool, vaapi: bool, outcome: Outcome, t: int, now: int, shown: Surface)
    requires Inv(w) && w.enc.ready && Fits(f.geometry, f.data) && w.clock <= t <= now && 0 < t
    requires Shaped(f.geometry, shown)
    ensures
      var (e, _, update) := Encode(w.enc, f, s, auto, vaapi, outcome, t, now);
      Inv(Deliver(w, e, update, f, shown, now))
  {
    hide TileOf, Total, Geometry.Valid, Inv, EncodeAvc, EncodeExact, Adopt, ChosenCodec, Deliver, KeyframeDue;
    InvConsistent(w);
    AdoptPrimes(w.enc, f.geometry);
    var (e, reply, update) := Encode(w.enc, f, s, auto, vaapi, outcome, t, now);
    var e1 := Adopt(w.enc, f.geometry);
    ResizeInv(w, f.geometry, e1);
    var w1 := w.(enc := e1);
    DeliverFrom(w, w1, e, update, f, shown, now);
    var codec := ChosenCodec(e1, f.data, s, auto, vaapi);
    if codec == NoCodec {
      UntouchedInv(w1, f, shown, now);
    } else if codec == Avc444Codec || codec == Avc420Codec {
      AvcInv(w1, f.data, shown, outcome, now);
    } else if KeyframeDue(e1, t) {
      KeyframeInv(w1, f.data, shown, codec, outcome, t, now);
    } else {
      DeltaInv(w1, f.data, shown, codec, outcome, t, now);
    }
  }

  lemma InvConsistent(w: World)
    requires Inv(w)
    ensures Consistent(w.enc)
  {}

  lemma UntouchedInv(w: World, f: Frame, shown: Surface, now: int)
    requires Inv(w) && w.clock <= now && Fits(f.geometry, f.data) && Shaped(f.geometry, shown)
    ensures Inv(Deliver(w, w.enc, Untouched, f, shown, now))
  {
    hide HashRows, TileOf, TileOn, Total, Geometry.Valid, Synced, KeyframeDue;
  }

  /** Only the encoder part of the world may differ before a delivery. */
  lemma DeliverFrom(w: World, w1: World, e: Encoder, update: Update, f: Frame, shown: Surface, clock: int)
    requires w1 == w.(enc := w1.enc) && Fits(f.geometry, f.data) && Shaped(f.geometry, shown)
    ensures Deliver(w, e, update, f, shown, clock) == Deliver(w1, e, update, f, shown, clock)
  {
    hide Patch, Covers, Total, TileOf, Geometry.Valid;
  }

  lemma ForceInv(w: World)
    requires Inv(w)
    ensures Inv(w.(enc := w.enc.(forceKey := true)))
  {
    hide HashRows, TileOf, TileOn, Total, Geometry.Valid;
  }

  lemma PrepareInv(w: World, o: Options)
    requires Inv(w)
    ensures Inv(w.(enc := Reset(w.enc)))
    ensures Inv(w.(enc := Prepare(w.enc, o).0))
  {
    hide HashRows, TileOf, TileOn, Total, Geometry.Valid;
  }

  lemma NextInv(w: World, ev: Event)
    requires Inv(w) && Enabled(w, ev)
    ensures Inv(Next(w, ev))
  {
    hide Inv, Encode, Deliver, Prepare, Reset, Shaped, Consistent;
    match ev
    case DoPrepare(o) => PrepareInv(w, o);
    case DoReset => PrepareInv(w, Options(0, 0, Raw, false, false, 0.0, 0, 0));
    case DoForceKeyframe => ForceInv(w);
    case DoEncode(f, s, auto, vaapi, outcome, t, now, shown) =>
      if w.enc.ready {
        EncodeInv(w, f, s, auto, vaapi, outcome, t, now, shown);
      } else {
        NotReady(w.enc, f, s, auto, vaapi, outcome, t, now);
        LaterInv(w, now);
      }
    case DoEncodeCached(s, auto, vaapi, outcome, t, now, shown) =>
      if Encodes(w.enc, ev) {
        CachedInv(w, s, auto, vaapi, outcome, t, now, shown);
      } else {
        LaterInv(w, now);
      }
  }

  lemma NotReady(e: Encoder, f: Frame, s: Settings, auto: bool, vaapi: bool, outcome: Outcome, t: int, now: int)
    requires Consistent(e) && Fits(f.geometry, f.data) && !e.ready
    ensures Encode(e, f, s, auto, vaapi, outcome, t, now) == (e, NotPrepared, Untouched)
  {}

  lemma CachedInv(w: World, s: Settings, auto: bool, vaapi: bool, outcome: Outcome, t: int, now: int, shown: Surface)
    requires Inv(w) && w.enc.ready && w.enc.diff != NO_GEOMETRY && w.clock <= t <= now && 0 < t
    requires Shaped(w.enc.diff, shown)
    ensures Fits(w.enc.diff, w.enc.prev)
    ensures
      var (e, _, update) := EncodeCached(w.enc, s, auto, vaapi, outcome, t, now);
      Inv(Deliver(w, e, update, Frame(w.enc.diff, w.enc.prev), shown, now))
  {
    hide Encode, Deliver, Inv, Shaped;
    InvConsistent(w);
    var f := Frame(w.enc.diff, w.enc.prev);
    var forced := w.(enc := w.enc.(forceKey := true));
    ForceInv(w);
    EncodeInv(forced, f, s, auto, vaapi, outcome, t, now, shown);
    var (e, _, update) := EncodeCached(w.enc, s, auto, vaapi, outcome, t, now);
    DeliverFrom(w, forced, e, update, f, shown, now);
  }

  lemma LaterInv(w: World, now: int)
    requires Inv(w) && w.clock <= now
    ensures Inv(w.(clock := now))
  {
    hide HashRows, TileOf, TileOn, Total, Geometry.Valid, Synced, KeyframeDue;
  }

  lemma {:induction false} RunInv(events: seq<Event>)
    requires Possible(events)
    ensures Inv(Run(events))
    decreases |events|
  {
    hide Inv, Next, Enabled;
    if events == [] {
      StartInv();
    } else {
      var n := |events| - 1;
      RunInv(events[..n]);
      NextInv(Run(events[..n]), events[n]);
    }
  }

  // ---- What holds after every run ----

  /**
    The client mirrors the server.  Unless a keyframe is already forced, every tile not last painted
    by a lossy frame shows exactly the server's remembered pixels, or different pixels with the same
    hash; and in that case the two tiles do not differ inside a single chunk.
   */
  lemma ClientMirrorsServer(events: seq<Event>, i: nat)
    requires Possible(events)
    requires !Run(events).enc.forceKey
    ensures var w := Run(events); Primed(w.enc) && Shaped(w.enc.diff, w.client)
    ensures
      var w := Run(events);
      var g := w.enc.diff;
      i < Total(g) && i !in w.lossy ==>
        var shown, kept := TileOn(g, w.client, i), TileOf(g, w.enc.prev, i);
        && HashRows(shown) == HashRows(kept)
        && forall row, group :: !TilesDifferInGroup(shown, kept, row, group)
  {
    hide HashRows, TileOf, TileOn, Total, Geometry.Valid, TilesDifferInGroup, Run;
    RunInv(events);
    var w := Run(events);
    var g := w.enc.diff;
    if i < Total(g) && i !in w.lossy {
      var shown, kept := TileOn(g, w.client, i), TileOf(g, w.enc.prev, i);
      forall row, group ensures !TilesDifferInGroup(shown, kept, row, group) {
        if TilesDifferInGroup(shown, kept, row, group) {
          OneChunkNeverCollides(shown, kept, row, group);
        }
      }
    }
  }

  lemma SameTilesSameSurface(g: Geometry, a: Surface, b: Surface)
    requires g.Valid() && Shaped(g, a) && Shaped(g, b)
    requires forall i | 0 <= i < Total(g) :: TileOn(g, a, i) == TileOn(g, b, i)
    ensures a == b
  {
    forall y | 0 <= y < g.height ensures a[y] == b[y] {
      forall k | 0 <= k < 4 * g.width ensures a[y][k] == b[y][k] {
        SamePixel(g, a, b, k, y);
      }
    }
  }

  lemma SamePixel(g: Geometry, a: Surface, b: Surface, k: nat, y: nat)
    requires g.Valid() && Shaped(g, a) && Shaped(g, b) && y < g.height && k < 4 * g.width
    requires forall i | 0 <= i < Total(g) :: TileOn(g, a, i) == TileOn(g, b, i)
    ensures a[y][k] == b[y][k]
  {
    hide TileRect, Total, IndexOf, Geometry.Valid;
    PixelTile(g, k / 4, y);
    var i := IndexOf(g, k / 4, y);
    TileInside(g, i);
    var r := TileRect(g, i);
    var ta, tb := TileOn(g, a, i), TileOn(g, b, i);
    assert ta[y - r.y][k - 4 * r.x] == a[y][k];
    assert tb[y - r.y][k - 4 * r.x] == b[y][k];
  }

  /** With no lossy tile left, the client shows the remembered frame, unless two tiles collided. */
  lemma ClientShowsFrame(events: seq<Event>)
    requires Possible(events)
    requires !Run(events).enc.forceKey && Run(events).lossy == {}
    ensures var w := Run(events); Primed(w.enc) && Shaped(w.enc.diff, w.client)
    ensures
      var w := Run(events);
      var g := w.enc.diff;
      || w.client == SurfaceOf(g, w.enc.prev)
      || exists i | 0 <= i < Total(g) ::
           && TileOn(g, w.client, i) != TileOf(g, w.enc.prev, i)
           && HashRows(TileOn(g, w.client, i)) == HashRows(TileOf(g, w.enc.prev, i))
  {
    hide HashRows, TileOf, TileOn, Total, Geometry.Valid, Run;
    RunInv(events);
    var w := Run(events);
    var g := w.enc.diff;
    if forall i | 0 <= i < Total(g) :: TileOn(g, w.client, i) == TileOf(g, w.enc.prev, i) {
      forall i | 0 <= i < Total(g) ensures TileOn(g, w.client, i) == TileOn(g, SurfaceOf(g, w.enc.prev), i) {
        TileOfSurface(g, w.enc.prev, i);
      }
      SameTilesSameSurface(g, w.client, SurfaceOf(g, w.enc.prev));
    }
  }

  /** At the start of every encode the hash table is true, or the next non-AVC frame is a keyframe. */
  lemma HashesTrueOrKeyframeDue(events: seq<Event>, t: int)
    requires Possible(events) && t >= Run(events).clock
    ensures var e := Run(events).enc; Consistent(e) && (Synced(e) || KeyframeDue(e, t))
  {
    hide Run, Mirrors, Synced, KeyframeDue;
    RunInv(events);
  }

  /**
    Delta frames sent on top of a lossy frame stay within the refresh budget, and once the budget
    is used up the next non-AVC frame is a keyframe.
   */
  lemma LossyTilesExpire(events: seq<Event>, t: int)
    requires Possible(events) && t >= Run(events).clock
    requires !Run(events).enc.forceKey && Run(events).lossy != {} && Run(events).enc.interval > 0
    ensures
      var w := Run(events);
      && w.deltas <= DeltaLimit(w.enc.interval)
      && (w.deltas == DeltaLimit(w.enc.interval) ==> KeyframeDue(w.enc, t))
  {
    hide Run, Mirrors, Synced;
    RunInv(events);
  }

  /** A keyframe that reaches the client leaves no lossy tile and shows exactly the new frame. */
  lemma KeyframeRepaints(w: World, ev: Event)
    requires Inv(w) && Enabled(w, ev) && Encodes(w.enc, ev)
    requires Result(w.enc, ev).2.Exact? && Result(w.enc, ev).2.key
    ensures
      var f := FrameOf(w.enc, ev);
      var w' := Next(w, ev);
      && w'.lossy == {} && w'.client == SurfaceOf(f.geometry, f.data)
      && w'.enc.prev == f.data && !w'.enc.forceKey && Consistent(w'.enc) && Synced(w'.enc)
  {
    hide Inv, Total, TileOf, HashRows, Geometry.Valid, Patch, DirtyFlags, DirtyRects, Adopt, ChosenCodec;
    InvConsistent(w);
    var f := FrameOf(w.enc, ev);
    var latest := SurfaceOf(f.geometry, f.data);
    PatchFull(f.geometry, Canvas(f.geometry, w.client, ev.shown), latest);
    AdoptPrimes(if ev.DoEncode? then w.enc else w.enc.(forceKey := true), f.geometry);
  }

  /** Once the budget is used up, the next exact frame that reaches the client repaints all of it. */
  lemma SpentBudgetRepaints(events: seq<Event>, ev: Event)
    requires Possible(events) && Enabled(Run(events), ev) && Encodes(Run(events).enc, ev)
    requires Run(events).lossy != {} && Run(events).enc.interval > 0
    requires Run(events).enc.forceKey || Run(events).deltas == DeltaLimit(Run(events).enc.interval)
    requires Result(Run(events).enc, ev).2.Exact?
    ensures Result(Run(events).enc, ev).2.key
    ensures
      var w := Next(Run(events), ev);
      w.lossy == {} && w.client == SurfaceOf(FrameOf(Run(events).enc, ev).geometry, FrameOf(Run(events).enc, ev).data)
  {
    hide Run, Next, Inv, Total, TileOf, HashRows, Geometry.Valid, DirtyFlags, DirtyRects, RefreshReached, Adopt, ChosenCodec;
    var w := Run(events);
    RunInv(events);
    InvConsistent(w);
    var f := FrameOf(w.enc, ev);
    var e := if ev.DoEncode? then w.enc else w.enc.(forceKey := true);
    AdoptPrimes(e, f.geometry);
    if w.enc.forceKey || ev.DoEncodeCached? {
      ForceStays(e, f.geometry);
    }
    if !w.enc.forceKey {
      LossyTilesExpire(events, ev.checkTime);
      DueWithGeometry(w.enc, f.geometry, ev.checkTime);
    }
    KeyframeRepaints(w, ev);
  }

  lemma DueWithGeometry(e: Encoder, g: Geometry, t: int)
    requires g.Valid() && KeyframeDue(e, t)
    ensures KeyframeDue(Adopt(e, g), t)
  {
    hide Total, Geometry.Valid;
  }

  lemma ForceStays(e: Encoder, g: Geometry)
    requires g.Valid() && e.forceKey
    ensures Adopt(e, g).forceKey
  {
    hide Total, Geometry.Valid;
  }

  ghost predicate Settled(e: Encoder, result: (Encoder, Reply, Update))
    requires Consistent(e)
  {
    var (e', _, update) := result;
    && e'.prev == e.prev && e'.diff == e.diff && Consistent(e')
    && (update.Lossy? || update.Exact? ==> Synced(e') && !e'.transition)
    && (update.Exact? ==> update.key && update.rects == FullRect(e.diff))
  }

  /** A cached refresh that reaches the client keeps the remembered frame, trues the hashes and ends the transition. */
  lemma CachedRefreshSettles(e: Encoder, s: Settings, auto: bool, vaapi: bool, outcome: Outcome, t: int, now: int)
    requires Consistent(e)
    ensures Settled(e, EncodeCached(e, s, auto, vaapi, outcome, t, now))
  {
    hide Total, TileOf, HashRows, Geometry.Valid, ChosenCodec, EncodeAvc, EncodeExact;
    if e.ready && e.diff != NO_GEOMETRY {
      var e1 := Adopt(e.(forceKey := true), e.diff);
      AdoptPrimes(e.(forceKey := true), e.diff);
      AvcSettles(e1, outcome, now);
      var codec := ChosenCodec(e1, e.prev, s, auto, vaapi);
      ExactSettles(e1, codec, outcome, t, now);
    }
  }

  lemma AvcSettles(e: Encoder, outcome: Outcome, now: int)
    requires Primed(e)
    ensures Settled(e, EncodeAvc(e, e.prev, outcome, now))
  {
    hide Total, TileOf, HashRows, Geometry.Valid;
  }

  lemma ExactSettles(e: Encoder, codec: Codec, outcome: Outcome, t: int, now: int)
    requires Primed(e) && e.forceKey
    ensures Settled(e, EncodeExact(e, e.prev, codec, outcome, t, now))
  {
    hide Total, TileOf, HashRows, Geometry.Valid, DirtyFlags, DirtyRects;
  }

  /** With a true hash table the analyzer flags a tile exactly when its hash changes. */
  lemma FlaggedIffHashDiffers(e: Encoder, data: seq<byte>, i: nat)
    requires Primed(e) && Synced(e) && Fits(e.diff, data) && i < Total(e.diff)
    ensures DirtyFlags(e, data)[i] <==> TileDigest(e.diff, data, i) != TileDigest(e.diff, e.prev, i)
    ensures DirtyFlags(e, data)[i] ==> TileOf(e.diff, data, i) != TileOf(e.diff, e.prev, i)
  {
    hide Total, TileOf, HashRows, Geometry.Valid;
  }

  /** A change inside one chunk of a tile, such as one pixel, is always flagged. */
  lemma SmallChangeIsFlagged(e: Encoder, data: seq<byte>, i: nat, row: nat, group: nat)
    requires Primed(e) && Synced(e) && Fits(e.diff, data) && i < Total(e.diff)
    requires TilesDifferInGroup(TileOf(e.diff, e.prev, i), TileOf(e.diff, data, i), row, group)
    ensures DirtyFlags(e, data)[i]
  {
    hide Total, TileOf, HashRows, Geometry.Valid, TilesDifferInGroup, DirtyFlags;
    OneChunkNeverCollides(TileOf(e.diff, e.prev, i), TileOf(e.diff, data, i), row, group);
    FlaggedIffHashDiffers(e, data, i);
  }

  // ---- Success without data ----

  lemma RectsIffFlags(g: Geometry, flags: seq<bool>)
    requires g.Valid() && |flags| == Total(g)
    ensures DirtyRects(g, flags) != [] <==> exists i | 0 <= i < |flags| :: flags[i]
  {
    hide TileRect, Total, Geometry.Valid;
    if forall i | 0 <= i < |flags| :: !flags[i] {
      NoFlagsNoRects(g, flags, Total(g));
    } else {
      DirtyUpToTiles(g, flags, Total(g));
    }
  }

  ghost predicate AnyDirty(e: Encoder, data: seq<byte>)
    requires Primed(e) && Fits(e.diff, data)
  {
    exists i | 0 <= i < |DirtyFlags(e, data)| :: DirtyFlags(e, data)[i]
  }

  /** An encode reports success although nothing was sent. */
  predicate SilentSuccess(result: (Encoder, Reply, Update)) {
    result.1.Accepted? && result.2.Untouched?
  }

  /** That happens exactly with no codec, or when the progressive codec had something to encode and made nothing of it. */
  lemma SilentSuccessIff(e: Encoder, f: Frame, s: Settings, auto: bool, vaapi: bool, outcome: Outcome, t: int, now: int)
    requires Consistent(e) && Fits(f.geometry, f.data) && e.ready
    ensures Primed(Adopt(e, f.geometry)) && Adopt(e, f.geometry).diff == f.geometry
    ensures
      var e1 := Adopt(e, f.geometry);
      var codec := ChosenCodec(e1, f.data, s, auto, vaapi);
      SilentSuccess(Encode(e, f, s, auto, vaapi, outcome, t, now)) <==>
        || codec == NoCodec
        || (codec == ProgressiveCodec && outcome == NoData && (KeyframeDue(e1, t) || AnyDirty(e1, f.data)))
  {
    hide Total, TileOf, HashRows, Geometry.Valid, ChosenCodec, DirtyFlags, DirtyRects, KeyframeDue, Adopt;
    AdoptPrimes(e, f.geometry);
    var e1 := Adopt(e, f.geometry);
    RectsIffFlags(e1.diff, DirtyFlags(e1, f.data));
  }

  /** No codec is picked exactly when the client announced none that the server can use, so the settings alone decide. */
  lemma NoCodecIffNothingUsable(e: Encoder, data: seq<byte>, s: Settings, auto: bool, vaapi: bool)
    requires Primed(e) && Fits(e.diff, data)
    ensures ChosenCodec(e, data, s, auto, vaapi) == NoCodec <==> forall codec :: !Usable(s, codec)
  {
    hide Total, TileOf, HashRows, Geometry.Valid, DirtyFlags, PickCodec;
    TotalPositive(e.diff);
    PickedCodec(s, auto, vaapi && e.hwAccel, LargeChange(CountTrue(DirtyFlags(e, data)), Total(e.diff), e.threshold));
    assert (forall codec :: !Usable(s, codec)) <==>
      !Usable(s, Avc444Codec) && !Usable(s, Avc420Codec) && !Usable(s, ProgressiveCodec) && !Usable(s, RemoteFxCodec);
  }

  // ---- A screen that stands still ----

  /** A screen that stands still is repainted exactly when a keyframe is due, an exact codec is picked and the send succeeds. */
  lemma StillScreenRepaintedIff(e: Encoder, s: Settings, auto: bool, vaapi: bool, outcome: Outcome, t: int, now: int)
    requires Primed(e) && e.ready
    ensures Primed(Adopt(e, e.diff)) && Fits(Adopt(e, e.diff).diff, e.prev)
    ensures Encode(e, Frame(e.diff, e.prev), s, auto, vaapi, outcome, t, now).2.Exact?
      <==> KeyframeDue(e, t) && outcome == Sent
           && ChosenCodec(Adopt(e, e.diff), e.prev, s, auto, vaapi) in {ProgressiveCodec, RemoteFxCodec}
  {
    hide Total, TileOf, HashRows, Geometry.Valid, ChosenCodec;
    AdoptPrimes(e, e.diff);
    var e1 := Adopt(e, e.diff);
    NoFlagsNoRects(e.diff, DirtyFlags(e1, e.prev), Total(e.diff));
  }

  /**
    The refresh tracking has a gap: while an AVC frame is the last one sent and the screen stands
    still, no encode of that screen repaints the lossy tiles exactly, and no refresh falls due.
   */
  lemma StillScreenStaysLossy(e: Encoder, s: Settings, auto: bool, vaapi: bool, outcome: Outcome, t: int, now: int)
    requires Primed(e) && e.ready && !e.forceKey && e.enableDiff && e.lastCodec == Avc && !e.transition
    ensures !Encode(e, Frame(e.diff, e.prev), s, auto, vaapi, outcome, t, now).2.Exact?
    ensures forall later :: !RefreshReached(e, later)
  {
    StillScreenRepaintedIff(e, s, auto, vaapi, outcome, t, now);
    hide Encode;
  }

  /** No keyframe is due, and none will fall due however long the screen stands still. */
  predicate NeverDue(e: Encoder) {
    && !e.forceKey && e.enableDiff
    && !(e.transition && e.switchTs > 0 && (e.timeoutMs > 0 || (e.interval > 0 && e.rfxFrames + 1 >= e.interval)))
  }

  lemma NeverDueMeansNever(e: Encoder)
    ensures NeverDue(e) <==> forall t :: !KeyframeDue(e, t)
  {
    if !NeverDue(e) {
      assert KeyframeDue(e, e.switchTs + e.timeoutMs * 1000);
    }
  }

  /** The screen stands still: every frame captured is the remembered one; a refresh of the cache is only asked for when due. */
  ghost predicate Still(w: World, ev: Event) {
    && Enabled(w, ev) && Encodes(w.enc, ev)
    && match ev
       case DoEncode(f, _, _, _, _, _, _, _) => f == Frame(w.enc.diff, w.enc.prev)
       case DoEncodeCached(_, _, _, _, t, _, _) => RefreshReached(w.enc, t)
       case _ => false
  }

  ghost predicate StandsStill(w: World, more: seq<Event>)
    decreases |more|
  {
    more == [] || (Still(w, more[0]) && StandsStill(Next(w, more[0]), more[1..]))
  }

  ghost function After(w: World, more: seq<Event>): World
    requires StandsStill(w, more)
    decreases |more|
  {
    if more == [] then w else After(Next(w, more[0]), more[1..])
  }

  /** Standing still is one way to continue a run. */
  lemma {:induction false} StandingStillIsARun(events: seq<Event>, more: seq<Event>)
    requires Possible(events) && StandsStill(Run(events), more)
    ensures Possible(events + more) && Run(events + more) == After(Run(events), more)
    decreases |more|
  {
    hide Next, Run, Possible, Enabled;
    if more == [] {
      assert events + more == events;
    } else {
      Extend(events, more[0]);
      StandingStillIsARun(events + [more[0]], more[1..]);
      assert events + [more[0]] + more[1..] == events + more;
    }
  }

  /** The frame is remembered and no keyframe will ever be due. */
  ghost predicate Stuck(w: World, g: Geometry, data: seq<byte>) {
    w.enc.ready && Primed(w.enc) && w.enc.diff == g && w.enc.prev == data && NeverDue(w.enc)
  }

  lemma StillStep(w: World, ev: Event)
    requires Primed(w.enc) && w.enc.ready && NeverDue(w.enc) && Still(w, ev)
    ensures Stuck(Next(w, ev), w.enc.diff, w.enc.prev)
    ensures Next(w, ev).lossy == w.lossy || Next(w, ev).lossy == AllTiles(w.enc.diff)
  {
    NeverDueMeansNever(w.enc);
    hide Total, TileOf, HashRows, Geometry.Valid, ChosenCodec, AllTiles;
    AdoptPrimes(w.enc, w.enc.diff);
    var e1 := Adopt(w.enc, w.enc.diff);
    NoFlagsNoRects(w.enc.diff, DirtyFlags(e1, w.enc.prev), Total(w.enc.diff));
  }

  /** In that state no number of encodes of a still screen, with any settings and outcomes, makes a lossy tile exact. */
  lemma {:induction false} StillScreenStaysLossyForever(w: World, more: seq<Event>)
    requires Stuck(w, w.enc.diff, w.enc.prev) && StandsStill(w, more)
    ensures Stuck(After(w, more), w.enc.diff, w.enc.prev)
    ensures After(w, more).lossy == w.lossy || After(w, more).lossy == AllTiles(w.enc.diff)
    decreases |more|
  {
    if more != [] {
      StillStep(w, more[0]);
      hide Next, Still, NeverDue, Consistent, AllTiles;
      StillScreenStaysLossyForever(Next(w, more[0]), more[1..]);
    }
  }

  // ---- ... under the settings of one connection ----

  predicate Uses(ev: Event, s: Settings, auto: bool, vaapi: bool) {
    match ev
    case DoEncode(_, s', auto', vaapi', _, _, _, _) => s' == s && auto' == auto && vaapi' == vaapi
    case DoEncodeCached(s', auto', vaapi', _, _, _, _) => s' == s && auto' == auto && vaapi' == vaapi
    case _ => false
  }

  predicate AllUse(events: seq<Event>, s: Settings, auto: bool, vaapi: bool) {
    forall i | 0 <= i < |events| :: Uses(events[i], s, auto, vaapi)
  }

  /** The codec an unchanged screen gets: nothing has changed, which is much only for a threshold of zero or less. */
  function StillCodec(e: Encoder, s: Settings, auto: bool, vaapi: bool): Codec {
    PickCodec(s, auto, vaapi && e.hwAccel, 0.0 >= e.threshold)
  }

  lemma StillChoice(e: Encoder, s: Settings, auto: bool, vaapi: bool)
    requires Primed(e)
    ensures ChosenCodec(e, e.prev, s, auto, vaapi) == StillCodec(e, s, auto, vaapi)
  {
    hide Total, TileOf, HashRows, Geometry.Valid, PickCodec;
    TotalPositive(e.diff);
    CountNone(DirtyFlags(e, e.prev));
  }

  /** The same client, configuration and remembered frame. */
  ghost predicate SameScreen(e: Encoder, e': Encoder) {
    && e'.ready && Primed(e') && e'.diff == e.diff && e'.prev == e.prev
    && e'.hwAccel == e.hwAccel && e'.threshold == e.threshold
  }

  lemma InexactEncode(e: Encoder, s: Settings, auto: bool, vaapi: bool, outcome: Outcome, t: int, now: int)
    requires SameScreen(e, e) && !IsExact(StillCodec(e, s, auto, vaapi))
    ensures var (e', _, update) := Encode(e, Frame(e.diff, e.prev), s, auto, vaapi, outcome, t, now);
      SameScreen(e, e') && (update.Untouched? || update.Lossy?)
  {
    hide Total, TileOf, HashRows, Geometry.Valid, ChosenCodec, PickCodec, EncodeExact, DirtyFlags, RefreshReached;
    AdoptPrimes(e, e.diff);
    StillChoice(Adopt(e, e.diff), s, auto, vaapi);
  }

  lemma InexactStep(w: World, ev: Event, s: Settings, auto: bool, vaapi: bool)
    requires SameScreen(w.enc, w.enc) && Still(w, ev) && Uses(ev, s, auto, vaapi) && !IsExact(StillCodec(w.enc, s, auto, vaapi))
    ensures SameScreen(w.enc, Next(w, ev).enc)
    ensures Next(w, ev).lossy == w.lossy || Next(w, ev).lossy == AllTiles(w.enc.diff)
  {
    hide Total, TileOf, HashRows, Geometry.Valid, ChosenCodec, AllTiles, PickCodec, Encode, RefreshReached, Shaped;
    var e := if ev.DoEncode? then w.enc else w.enc.(forceKey := true);
    InexactEncode(e, s, auto, vaapi, ev.outcome, ev.checkTime, ev.now);
  }

  /** With a codec that is not exact, no number of encodes of a still screen makes a lossy tile exact, due or not. */
  lemma {:induction false} InexactStaysLossy(w: World, more: seq<Event>, s: Settings, auto: bool, vaapi: bool)
    requires SameScreen(w.enc, w.enc) && StandsStill(w, more) && AllUse(more, s, auto, vaapi)
    requires !IsExact(StillCodec(w.enc, s, auto, vaapi))
    ensures SameScreen(w.enc, After(w, more).enc)
    ensures After(w, more).lossy == w.lossy || After(w, more).lossy == AllTiles(w.enc.diff)
    decreases |more|
  {
    if more != [] {
      InexactStep(w, more[0], s, auto, vaapi);
      hide Next, Still, Consistent, AllTiles;
      assert forall i | 0 <= i < |more| - 1 :: more[1..][i] == more[i + 1];
      InexactStaysLossy(Next(w, more[0]), more[1..], s, auto, vaapi);
    }
  }

  lemma DueSometime(e: Encoder, clock: int) returns (t: int)
    requires !NeverDue(e)
    ensures t > 0 && t >= clock && KeyframeDue(e, t)
  {
    NeverDueMeansNever(e);
    var due :| KeyframeDue(e, due);
    DueStays(e, due);
    t := if due > clock then due else clock;
    t := if t > 0 then t else 1;
  }

  /** An encode of the unchanged screen that gets through. */
  function Refresh(e: Encoder, s: Settings, auto: bool, vaapi: bool, t: int): Event
    requires Fits(e.diff, e.prev)
  {
    DoEncode(Frame(e.diff, e.prev), s, auto, vaapi, Sent, t, t, SurfaceOf(e.diff, e.prev))
  }

  lemma RefreshRepaints(w: World, s: Settings, auto: bool, vaapi: bool, t: int)
    requires Inv(w) && w.enc.ready && Primed(w.enc) && t > 0 && t >= w.clock && KeyframeDue(w.enc, t)
    requires IsExact(StillCodec(w.enc, s, auto, vaapi))
    ensures Still(w, Refresh(w.enc, s, auto, vaapi, t)) && Next(w, Refresh(w.enc, s, auto, vaapi, t)).lossy == {}
  {
    var e := w.enc;
    StillScreenRepaintedIff(e, s, auto, vaapi, Sent, t, t);
    StillChoice(Adopt(e, e.diff), s, auto, vaapi);
    hide Inv, Next, Total, TileOf, HashRows, Geometry.Valid, KeyframeDue, Encode, NeverDue, ChosenCodec, PickCodec;
    StillUpdateIsKey(e, s, auto, vaapi, Sent, t, t);
    assert Enabled(w, Refresh(e, s, auto, vaapi, t));
    hide Adopt;
    KeyframeRepaints(w, Refresh(e, s, auto, vaapi, t));
  }

  /** The one way to send an unchanged screen exactly is to send all of it. */
  lemma StillUpdateIsKey(e: Encoder, s: Settings, auto: bool, vaapi: bool, outcome: Outcome, t: int, now: int)
    requires Primed(e) && e.ready
    ensures var update := Encode(e, Frame(e.diff, e.prev), s, auto, vaapi, outcome, t, now).2; update.Exact? ==> update.key
  {
    hide Total, TileOf, HashRows, Geometry.Valid, ChosenCodec, KeyframeDue;
    AdoptPrimes(e, e.diff);
    var e1 := Adopt(e, e.diff);
    NoFlagsNoRects(e.diff, DirtyFlags(e1, e.prev), Total(e.diff));
  }

  /** However long the screen then stands still, under the settings of one connection, a tile is left lossy. */
  ghost predicate StaysLossy(events: seq<Event>, s: Settings, auto: bool, vaapi: bool)
    requires Possible(events)
  {
    forall more | StandsStill(Run(events), more) && AllUse(more, s, auto, vaapi) ::
      Possible(events + more) && Run(events + more).lossy != {}
  }

  /**
    Exactly when a still screen stays lossy for good under the settings of a connection: no keyframe
    is due and none ever will be, or an unchanged screen gets a codec that is not exact.
   */
  lemma StaysLossyIff(events: seq<Event>, s: Settings, auto: bool, vaapi: bool)
    requires Possible(events) && Run(events).enc.ready && Primed(Run(events).enc) && Run(events).lossy != {}
    ensures StaysLossy(events, s, auto, vaapi)
      <==> NeverDue(Run(events).enc) || !IsExact(StillCodec(Run(events).enc, s, auto, vaapi))
  {
    var w := Run(events);
    hide Next, Still, Run, Possible, NeverDue, PickCodec;
    if NeverDue(w.enc) || !IsExact(StillCodec(w.enc, s, auto, vaapi)) {
      forall more | StandsStill(w, more) && AllUse(more, s, auto, vaapi)
        ensures Possible(events + more) && Run(events + more).lossy != {}
      {
        if NeverDue(w.enc) {
          StillScreenStaysLossyForever(w, more);
        } else {
          InexactStaysLossy(w, more, s, auto, vaapi);
        }
        FirstTileIsThere(w.enc.diff);
        StandingStillIsARun(events, more);
      }
    } else {
      RunInv(events);
      hide Inv;
      var t := DueSometime(w.enc, w.clock);
      RefreshRepaints(w, s, auto, vaapi, t);
      var ev := Refresh(w.enc, s, auto, vaapi, t);
      OneStill(w, ev);
      StandingStillIsARun(events, [ev]);
      assert Uses(ev, s, auto, vaapi);
      assert AllUse([ev], s, auto, vaapi);
    }
  }

  /** If the settings could change as well, only the keyframe counts. */
  lemma StuckForeverIffNeverDue(events: seq<Event>)
    requires Possible(events) && Run(events).enc.ready && Primed(Run(events).enc) && Run(events).lossy != {}
    ensures (forall more | StandsStill(Run(events), more) :: After(Run(events), more).lossy != {}) <==> NeverDue(Run(events).enc)
  {
    var w := Run(events);
    if NeverDue(w.enc) {
      forall more | StandsStill(w, more) ensures After(w, more).lossy != {} {
        StillScreenStaysLossyForever(w, more);
        FirstTileIsThere(w.enc.diff);
      }
    } else {
      var exactOnly := Settings(false, false, false, false, true, 0);
      assert IsExact(StillCodec(w.enc, exactOnly, false, false));
      hide Next, Still, Run, Possible, NeverDue, PickCodec;
      RunInv(events);
      hide Inv;
      var t := DueSometime(w.enc, w.clock);
      RefreshRepaints(w, exactOnly, false, false, t);
      OneStill(w, Refresh(w.enc, exactOnly, false, false, t));
      assert After(w, [Refresh(w.enc, exactOnly, false, false, t)]).lossy == {};
    }
  }

  lemma OneStill(w: World, ev: Event)
    requires Still(w, ev)
    ensures StandsStill(w, [ev]) && After(w, [ev]) == Next(w, ev)
  {
    hide Next, Still;
    assert [ev][1..] == [];
  }

  const MIXED := Settings(true, false, false, false, true, 0)

  function SendTo(f: Frame, vaapi: bool, time: int, shown: Surface): Event {
    DoEncode(f, MIXED, true, vaapi, Sent, time, time, shown)
  }

  lemma Extend(events: seq<Event>, ev: Event)
    requires Possible(events) && Enabled(Run(events), ev)
    ensures Possible(events + [ev]) && Run(events + [ev]) == Next(Run(events), ev)
  {
    hide Enabled, Next;
    var all := events + [ev];
    assert all[..|all| - 1] == events && all[|all| - 1] == ev;
  }

  /**
    The gap is reached in automatic mode when hardware encoding is available, then fails once, then
    is available again: AVC, one refresh in between, AVC again, and every tile is lossy.
   */
  lemma StillScreenGapIsReachable(o: Options, f: Frame, shown: Surface) returns (events: seq<Event>)
    requires o.width > 0 && o.height > 0 && o.mode == Auto && o.enableDiff && o.hwAccel && o.threshold > 0.0
    requires Fits(f.geometry, f.data) && Shaped(f.geometry, shown)
    ensures Possible(events)
    ensures
      var w := Run(events);
      && Primed(w.enc) && w.enc.ready && !w.enc.forceKey && w.enc.enableDiff
      && w.enc.lastCodec == Avc && !w.enc.transition
      && w.enc.diff == f.geometry && w.enc.prev == f.data
      && w.client == shown && w.lossy == AllTiles(f.geometry) && 0 in w.lossy
      && Stuck(w, f.geometry, f.data)
  {
    hide Possible, Run, Enabled, Next;
    EmptyRun();
    var prepare := DoPrepare(o);
    Prepared(o);
    Extend([], prepare);
    var w1 := Run([] + [prepare]);
    var avc, key := SendTo(f, true, 1, shown), SendTo(f, false, 2, shown);
    AvcSent(w1, f, 1, shown);
    Extend([] + [prepare], avc);
    var w2 := Run([] + [prepare] + [avc]);
    RefreshSent(w2, f, 2, shown);
    Extend([] + [prepare] + [avc], key);
    var w3 := Run([] + [prepare] + [avc] + [key]);
    var again := SendTo(f, true, 3, shown);
    AvcSent(w3, f, 3, shown);
    Extend([] + [prepare] + [avc] + [key], again);
    events := [] + [prepare] + [avc] + [key] + [again];
    FirstTileIsThere(f.geometry);
  }

  lemma EmptyRun()
    ensures Possible([]) && Run([]) == START
  {}

  lemma FirstTileIsThere(g: Geometry)
    requires g.Valid()
    ensures 0 in AllTiles(g)
  {
    TotalPositive(g);
    assert IsTile(g, 0);
  }

  lemma Prepared(o: Options)
    requires o.width > 0 && o.height > 0 && o.mode == Auto && o.enableDiff && o.hwAccel && o.threshold > 0.0
    ensures Enabled(START, DoPrepare(o)) && Consistent(Next(START, DoPrepare(o)).enc)
    ensures var w := Next(START, DoPrepare(o)); Expects(w, 0) && w.enc.forceKey
  {}

  ghost predicate Expects(w: World, clock: int) {
    w.enc.ready && w.enc.enableDiff && w.enc.hwAccel && w.enc.threshold > 0.0 && w.clock == clock && !w.enc.transition
  }

  lemma AvcSent(w: World, f: Frame, time: int, shown: Surface)
    requires Consistent(w.enc) && Expects(w, time - 1) && time > 0
    requires Fits(f.geometry, f.data) && Shaped(f.geometry, shown)
    ensures Enabled(w, SendTo(f, true, time, shown))
    ensures
      var w' := Next(w, SendTo(f, true, time, shown));
      && Primed(w'.enc) && Expects(w', time) && w'.enc.lastCodec == Avc
      && w'.enc.diff == f.geometry && w'.enc.prev == f.data && w'.client == shown && w'.lossy == AllTiles(f.geometry)
      && (w.enc.forceKey ==> w'.enc.forceKey)
      && (w.enc.diff == f.geometry && |w.enc.prev| == f.geometry.Bytes() ==> w'.enc.forceKey == w.enc.forceKey)
  {
    hide Total, TileOf, HashRows, Geometry.Valid, DirtyFlags, LargeChange;
    AdoptPrimes(w.enc, f.geometry);
  }

  lemma RefreshSent(w: World, f: Frame, time: int, shown: Surface)
    requires Primed(w.enc) && Expects(w, time - 1) && time > 0 && w.enc.forceKey
    requires Fits(f.geometry, f.data) && w.enc.diff == f.geometry && w.enc.prev == f.data && Shaped(f.geometry, shown)
    ensures Enabled(w, SendTo(f, false, time, shown))
    ensures
      var w' := Next(w, SendTo(f, false, time, shown));
      && Primed(w'.enc) && Expects(w', time) && !w'.enc.forceKey && w'.enc.diff == f.geometry && w'.enc.prev == f.data
  {
    AdoptPrimes(w.enc, f.geometry);
    StillPicksProgressive(Adopt(w.enc, f.geometry));
    hide Total, TileOf, HashRows, Geometry.Valid, Patch, DirtyRects, DirtyFlags, ChosenCodec, SurfaceOf, Covers;
  }

  lemma StillPicksProgressive(e: Encoder)
    requires Primed(e) && e.threshold > 0.0
    ensures ChosenCodec(e, e.prev, MIXED, true, false) == ProgressiveCodec
  {
    hide Total, TileOf, HashRows, Geometry.Valid;
    TotalPositive(e.diff);
    CountNone(DirtyFlags(e, e.prev));
  }

  lemma {:induction false} CountNone(flags: seq<bool>)
    requires forall i | 0 <= i < |flags| :: !flags[i]
    ensures CountTrue(flags) == 0
  {
    if flags != [] {
      CountNone(flags[..|flags| - 1]);
    }
  }

  lemma {:induction false} NoFlagsNoRects(g: Geometry, flags: seq<bool>, k: nat)
    requires g.Valid() && k <= Total(g) == |flags| && forall i | 0 <= i < k :: !flags[i]
    ensures DirtyUpTo(g, flags, k) == []
  {
    if k > 0 {
      NoFlagsNoRects(g, flags, k - 1);
    }
  }
}
