/**
  The 64x64 tile grid over a frame: tile numbering, tile rectangles, the pixels they cover, and
  what patching a surface with a set of rectangles does to each tile.
 */
module TileGrid {
  import opened TileHash

  /** Pixel size of a frame and the byte length of one buffer row. */
  datatype Geometry = Geometry(width: nat, height: nat, stride: nat) {
    predicate Valid() {
      && 1 <= width <= 65535 && 1 <= height <= 65535
      && 4 * width <= stride && stride * height < 0x1_0000_0000
    }

    function Bytes(): nat { stride * height }
  }

  datatype Rect = Rect(x: nat, y: nat, w: nat, h: nat)

  /** A buffer that holds a whole frame. */
  ghost predicate Fits(g: Geometry, data: seq<byte>) {
    g.Valid() && |data| == g.Bytes()
  }

  function Across(pixels: nat): nat {
    (pixels + 63) / 64
  }

  function Total(g: Geometry): nat {
    Across(g.width) * Across(g.height)
  }

  /** The tile holding pixel (x, y). */
  function IndexOf(g: Geometry, x: nat, y: nat): nat {
    TileIndex(Across(g.width), x, y)
  }

  function TileIndex(tilesX: nat, x: nat, y: nat): nat {
    (y / 64) * tilesX + x / 64
  }

  function Min64(left: nat): nat {
    if left < 64 then left else 64
  }

  function TileRect(g: Geometry, i: nat): Rect
    requires g.Valid() && i < Total(g)
  {
    RowBelow(g, i);
    var x, y := 64 * (i % Across(g.width)), 64 * (i / Across(g.width));
    Rect(x, y, Min64(g.width - x), Min64(g.height - y))
  }

  lemma RowBelow(g: Geometry, i: nat)
    requires g.Valid() && i < Total(g)
    ensures i / Across(g.width) < Across(g.height)
    ensures 64 * (i % Across(g.width)) < g.width && 64 * (i / Across(g.width)) < g.height
  {
    var t := Across(g.width);
    assert i == t * (i / t) + i % t;
    if i / t >= Across(g.height) {
      ScaleMonotone(t, Across(g.height), i / t);
    }
  }

  lemma TileInside(g: Geometry, i: nat)
    requires g.Valid() && i < Total(g)
    ensures var r := TileRect(g, i);
      && r.w > 0 && r.h > 0 && r.x + r.w <= g.width && r.y + r.h <= g.height
      && InBuffer(g.Bytes(), g.stride, r.x, r.y, r.w, r.h)
  {
    RowBelow(g, i);
    var r := TileRect(g, i);
    ScaleMonotone(g.stride, r.y + r.h, g.height);
  }

  // ---- Numbering ----

  lemma SplitUnique(rows: nat, t: nat, r: nat)
    requires r < t
    ensures (rows * t + r) / t == rows && (rows * t + r) % t == r
  {
    var n := rows * t + r;
    assert n == t * (n / t) + n % t;
    if n / t < rows {
      ScaleMonotone(t, n / t + 1, rows);
    } else if n / t > rows {
      ScaleMonotone(t, rows + 1, n / t);
    }
  }

  /** A tile corner is the corner of the tile numbered after it. */
  lemma CornerTile(g: Geometry, x: nat, y: nat)
    requires g.Valid() && x < g.width && y < g.height && x % 64 == y % 64 == 0
    ensures IndexOf(g, x, y) < Total(g)
    ensures TileRect(g, IndexOf(g, x, y)) == Rect(x, y, Min64(g.width - x), Min64(g.height - y))
  {
    PixelTile(g, x, y);
  }

  /** Every pixel lies in the tile it is numbered with. */
  lemma PixelTile(g: Geometry, x: nat, y: nat)
    requires g.Valid() && x < g.width && y < g.height
    ensures IndexOf(g, x, y) < Total(g)
    ensures TileRect(g, IndexOf(g, x, y)) == Rect(x / 64 * 64, y / 64 * 64, Min64(g.width - x / 64 * 64), Min64(g.height - y / 64 * 64))
    ensures InRect(TileRect(g, IndexOf(g, x, y)), x, y)
  {
    var t := Across(g.width);
    SplitUnique(y / 64, t, x / 64);
    ScaleMonotone(t, y / 64 + 1, Across(g.height));
  }

  /** The tile numbers run on from the end of one tile row to the start of the next. */
  lemma RowWraps(g: Geometry, x: nat, y: nat)
    requires g.width <= x < g.width + 64 && x % 64 == 0
    ensures IndexOf(g, x, y) == IndexOf(g, 0, y + 64)
  {}

  lemma LastTile(g: Geometry, y: nat)
    requires g.height <= y < g.height + 64 && y % 64 == 0
    ensures IndexOf(g, 0, y) == Total(g)
  {}

  // ---- Rectangles and pixels ----

  predicate InRect(r: Rect, px: nat, py: nat) {
    r.x <= px < r.x + r.w && r.y <= py < r.y + r.h
  }

  predicate Covered(rects: seq<Rect>, px: nat, py: nat) {
    exists k | 0 <= k < |rects| :: InRect(rects[k], px, py)
  }

  /** Tile rectangles lie inside the frame, and a pixel determines the only tile containing it. */
  lemma TileOfPixel(g: Geometry, i: nat, px: nat, py: nat)
    requires g.Valid() && i < Total(g) && InRect(TileRect(g, i), px, py)
    ensures px < g.width && py < g.height && IndexOf(g, px, py) == i
  {
    var t := Across(g.width);
    RowBelow(g, i);
    assert px / 64 == i % t && py / 64 == i / t;
    assert i == t * (i / t) + i % t;
  }

  predicate IsCorner(g: Geometry, x: nat, y: nat) {
    x < g.width && y < g.height && x % 64 == y % 64 == 0
  }

  /** Every number below the tile count is the number of a tile corner ... */
  lemma EveryNumberIsATile(g: Geometry, i: nat)
    requires g.Valid() && i < Total(g)
    ensures IsCorner(g, TileRect(g, i).x, TileRect(g, i).y) && IndexOf(g, TileRect(g, i).x, TileRect(g, i).y) == i
  {
    TileAligned(g, i);
    hide TileRect, IndexOf, Total, Geometry.Valid, InBuffer;
    TileInside(g, i);
    TileOfPixel(g, i, TileRect(g, i).x, TileRect(g, i).y);
  }

  lemma TileAligned(g: Geometry, i: nat)
    requires g.Valid() && i < Total(g)
    ensures TileRect(g, i).x % 64 == TileRect(g, i).y % 64 == 0
  {
    hide Total, Min64;
  }

  /** ... and different corners have different numbers. */
  lemma TileNumbersAreDistinct(g: Geometry, x: nat, y: nat, u: nat, v: nat)
    requires g.Valid() && IsCorner(g, x, y) && IsCorner(g, u, v)
    ensures IndexOf(g, x, y) < Total(g) && (IndexOf(g, x, y) == IndexOf(g, u, v) ==> x == u && y == v)
  {
    hide IndexOf, Total;
    CornerTile(g, x, y);
    CornerTile(g, u, v);
  }

  /** The rectangles of the flagged tiles among the first k, in tile order. */
  function DirtyUpTo(g: Geometry, flags: seq<bool>, k: nat): seq<Rect>
    requires g.Valid() && k <= Total(g) == |flags|
  {
    if k == 0 then [] else
      DirtyUpTo(g, flags, k - 1) + if flags[k - 1] then [TileRect(g, k - 1)] else []
  }

  function DirtyRects(g: Geometry, flags: seq<bool>): seq<Rect>
    requires g.Valid() && |flags| == Total(g)
  {
    DirtyUpTo(g, flags, Total(g))
  }

  lemma {:induction false} DirtyUpToTiles(g: Geometry, flags: seq<bool>, k: nat)
    requires g.Valid() && k <= Total(g) == |flags|
    ensures forall r | r in DirtyUpTo(g, flags, k) :: exists i | 0 <= i < k :: flags[i] && r == TileRect(g, i)
    ensures forall i | 0 <= i < k && flags[i] :: TileRect(g, i) in DirtyUpTo(g, flags, k)
  {
    if k > 0 {
      DirtyUpToTiles(g, flags, k - 1);
    }
  }

  /** The emitted rectangles cover exactly the pixels of the flagged tiles. */
  lemma DirtyRectsCover(g: Geometry, flags: seq<bool>, px: nat, py: nat)
    requires g.Valid() && |flags| == Total(g) && px < g.width && py < g.height
    ensures IndexOf(g, px, py) < Total(g)
    ensures Covered(DirtyRects(g, flags), px, py) <==> flags[IndexOf(g, px, py)]
  {
    var rects := DirtyRects(g, flags);
    PixelTile(g, px, py);
    DirtyUpToTiles(g, flags, Total(g));
    if Covered(rects, px, py) {
      var k :| 0 <= k < |rects| && InRect(rects[k], px, py);
      assert rects[k] in rects;
      var i :| 0 <= i < Total(g) && flags[i] && rects[k] == TileRect(g, i);
      TileOfPixel(g, i, px, py);
    }
  }

  ghost predicate Disjoint(a: Rect, b: Rect) {
    forall px, py | InRect(a, px, py) :: !InRect(b, px, py)
  }

  ghost predicate PairwiseDisjoint(rects: seq<Rect>) {
    forall a, b | 0 <= a < b < |rects| :: Disjoint(rects[a], rects[b])
  }

  lemma PairwiseSnoc(rects: seq<Rect>, last: Rect)
    requires PairwiseDisjoint(rects) && forall r | r in rects :: Disjoint(r, last)
    ensures PairwiseDisjoint(rects + [last])
  {
    hide Disjoint;
    assert forall a | 0 <= a < |rects| :: rects[a] in rects;
  }

  lemma TilesDisjoint(g: Geometry, i: nat, j: nat)
    requires g.Valid() && i < Total(g) && j < Total(g) && i != j
    ensures Disjoint(TileRect(g, i), TileRect(g, j))
  {
    hide TileRect, IndexOf, Total;
    forall px, py | InRect(TileRect(g, i), px, py) ensures !InRect(TileRect(g, j), px, py) {
      TileOfPixel(g, i, px, py);
      if InRect(TileRect(g, j), px, py) {
        TileOfPixel(g, j, px, py);
      }
    }
  }

  lemma {:induction false} DirtyUpToDisjoint(g: Geometry, flags: seq<bool>, k: nat)
    requires g.Valid() && k <= Total(g) == |flags|
    ensures PairwiseDisjoint(DirtyUpTo(g, flags, k))
  {
    hide TileRect, IndexOf, Total, PairwiseDisjoint, Disjoint;
    if k == 0 {
      NoRectsDisjoint();
    } else {
      DirtyUpToDisjoint(g, flags, k - 1);
      DirtyUpToTiles(g, flags, k - 1);
      var before := DirtyUpTo(g, flags, k - 1);
      forall r | r in before ensures Disjoint(r, TileRect(g, k - 1)) {
        var i :| 0 <= i < k - 1 && flags[i] && r == TileRect(g, i);
        TilesDisjoint(g, i, k - 1);
      }
      PairwiseSnoc(before, TileRect(g, k - 1));
      assert before + [] == before;
    }
  }

  lemma NoRectsDisjoint()
    ensures PairwiseDisjoint([])
  {}

  /** The emitted rectangles are pairwise disjoint and stay inside the frame. */
  lemma DirtyRectsPartition(g: Geometry, flags: seq<bool>)
    requires g.Valid() && |flags| == Total(g)
    ensures PairwiseDisjoint(DirtyRects(g, flags))
    ensures forall r | r in DirtyRects(g, flags) :: r.w > 0 && r.h > 0 && r.x + r.w <= g.width && r.y + r.h <= g.height
  {
    hide TileRect, IndexOf, Total;
    DirtyUpToDisjoint(g, flags, Total(g));
    DirtyUpToTiles(g, flags, Total(g));
    forall r | r in DirtyRects(g, flags)
      ensures r.w > 0 && r.h > 0 && r.x + r.w <= g.width && r.y + r.h <= g.height
    {
      var i :| 0 <= i < Total(g) && flags[i] && r == TileRect(g, i);
      TileInside(g, i);
    }
  }

  // ---- Surfaces ----

  /** A displayed surface: one run of pixel bytes a row, without the buffer's padding. */
  type Surface = seq<Row>

  ghost predicate Shaped(g: Geometry, s: Surface) {
    |s| == g.height && forall y | 0 <= y < g.height :: |s[y]| == 4 * g.width
  }

  function SurfaceOf(g: Geometry, data: seq<byte>): (s: Surface)
    requires Fits(g, data)
    ensures Shaped(g, s)
    ensures forall y | 0 <= y < g.height :: s[y] == PixelRun(data, g.stride, 0, y, g.width, g.height)
  {
    seq(g.height, y requires 0 <= y < g.height => PixelRun(data, g.stride, 0, y, g.width, g.height))
  }

  function Crop(s: Surface, r: Rect): (rows: seq<Row>)
    requires r.y + r.h <= |s| && forall y | r.y <= y < r.y + r.h :: 4 * (r.x + r.w) <= |s[y]|
    ensures |rows| == r.h && forall i | 0 <= i < r.h :: rows[i] == s[r.y + i][4 * r.x..4 * (r.x + r.w)]
  {
    seq(r.h, i requires 0 <= i < r.h => s[r.y + i][4 * r.x..4 * (r.x + r.w)])
  }

  /** Tile i of a frame buffer. */
  function TileOf(g: Geometry, data: seq<byte>, i: nat): seq<Row>
    requires Fits(g, data) && i < Total(g)
  {
    TileInside(g, i);
    var r := TileRect(g, i);
    TileRows(data, g.stride, r.x, r.y, r.w, r.h)
  }

  /** One step of the loops over tile corners: where the tile at (x, y) is, and what comes next. */
  lemma TileStep(g: Geometry, data: seq<byte>, x: nat, y: nat, tilesX: nat)
    requires Fits(g, data) && x < g.width && y < g.height && x % 64 == y % 64 == 0 && tilesX == Across(g.width)
    ensures TileIndex(tilesX, x, y) == IndexOf(g, x, y) < Total(g)
    ensures IndexOf(g, x + 64, y) == IndexOf(g, x, y) + 1
    ensures InBuffer(|data|, g.stride, x, y, Min64(g.width - x), Min64(g.height - y))
    ensures TileOf(g, data, IndexOf(g, x, y)) == TileRows(data, g.stride, x, y, Min64(g.width - x), Min64(g.height - y))
  {
    hide TileRect, Total;
    CornerTile(g, x, y);
    TileInside(g, IndexOf(g, x, y));
  }

  lemma FirstTile(g: Geometry)
    ensures IndexOf(g, 0, 0) == 0
  {}

  /** Tile i of a displayed surface. */
  function TileOn(g: Geometry, s: Surface, i: nat): seq<Row>
    requires g.Valid() && Shaped(g, s) && i < Total(g)
  {
    TileInside(g, i);
    Crop(s, TileRect(g, i))
  }

  lemma TileOfSurface(g: Geometry, data: seq<byte>, i: nat)
    requires Fits(g, data) && i < Total(g)
    ensures Shaped(g, SurfaceOf(g, data))
    ensures TileOn(g, SurfaceOf(g, data), i) == TileOf(g, data, i)
  {
    hide TileRect, Total, PixelRun, Geometry.Valid;
    TileInside(g, i);
    var r := TileRect(g, i);
    var a, b := TileOn(g, SurfaceOf(g, data), i), TileOf(g, data, i);
    forall k | 0 <= k < r.h ensures a[k] == b[k] {
      RunInside(g, data, r, r.y + k);
    }
    assert a == b;
  }

  lemma RunInside(g: Geometry, data: seq<byte>, r: Rect, y: nat)
    requires Fits(g, data) && r.x + r.w <= g.width && y < r.y + r.h <= g.height
    requires InBuffer(|data|, g.stride, r.x, r.y, r.w, r.h)
    ensures SurfaceOf(g, data)[y][4 * r.x..4 * (r.x + r.w)] == PixelRun(data, g.stride, r.x, y, r.w, r.y + r.h)
  {
    hide Offset;
    RowInside(g.stride, y, g.height);
    OffsetShift(g.stride, r.x, y);
    SubRun(data, Offset(g.stride, 0, y), 4 * g.width, 4 * r.x, 4 * (r.x + r.w));
  }

  lemma SubRun(data: seq<byte>, start: nat, length: nat, lo: nat, hi: nat)
    requires lo <= hi <= length && start + length <= |data|
    ensures data[start..start + length][lo..hi] == data[start + lo..start + hi]
  {
    var a, b := data[start..start + length][lo..hi], data[start + lo..start + hi];
    assert |a| == |b|;
    assert forall k | 0 <= k < |a| :: a[k] == data[start + lo + k] == b[k];
  }

  /** The client's surface after the pixels inside the rectangles are replaced by the new ones. */
  function Patch(g: Geometry, client: Surface, latest: Surface, rects: seq<Rect>): (s: Surface)
    requires Shaped(g, client) && Shaped(g, latest)
  {
    seq(g.height, y requires 0 <= y < g.height => PatchRow(g, client[y], latest[y], rects, y))
  }

  function PatchRow(g: Geometry, client: Row, latest: Row, rects: seq<Rect>, y: nat): (row: Row)
    requires |client| == |latest| == 4 * g.width
    ensures |row| == 4 * g.width
    ensures forall b | 0 <= b < 4 * g.width :: row[b] == if Covered(rects, b / 4, y) then latest[b] else client[b]
  {
    seq(4 * g.width, b requires 0 <= b < 4 * g.width => if Covered(rects, b / 4, y) then latest[b] else client[b])
  }

  /** Patching with the dirty rectangles replaces the flagged tiles and leaves the others alone. */
  lemma PatchTile(g: Geometry, client: Surface, latest: Surface, flags: seq<bool>, i: nat)
    requires g.Valid() && Shaped(g, client) && Shaped(g, latest) && i < Total(g) == |flags|
    ensures Shaped(g, Patch(g, client, latest, DirtyRects(g, flags)))
    ensures TileOn(g, Patch(g, client, latest, DirtyRects(g, flags)), i)
         == if flags[i] then TileOn(g, latest, i) else TileOn(g, client, i)
  {
    hide TileRect, Total;
    TileInside(g, i);
    var r := TileRect(g, i);
    var patched := Patch(g, client, latest, DirtyRects(g, flags));
    var want := if flags[i] then TileOn(g, latest, i) else TileOn(g, client, i);
    var got := TileOn(g, patched, i);
    forall k | 0 <= k < r.h ensures got[k] == want[k] {
      PatchRun(g, client, latest, flags, i, r.y + k);
    }
    assert got == want;
  }

  lemma PatchRun(g: Geometry, client: Surface, latest: Surface, flags: seq<bool>, i: nat, y: nat)
    requires g.Valid() && Shaped(g, client) && Shaped(g, latest) && i < Total(g) == |flags|
    requires TileRect(g, i).y <= y < TileRect(g, i).y + TileRect(g, i).h
    requires TileRect(g, i).x + TileRect(g, i).w <= g.width && y < g.height
    ensures
      var r := TileRect(g, i);
      Patch(g, client, latest, DirtyRects(g, flags))[y][4 * r.x..4 * (r.x + r.w)]
      == (if flags[i] then latest else client)[y][4 * r.x..4 * (r.x + r.w)]
  {
    hide IndexOf, Total, Covered, DirtyRects, TileRect;
    var r := TileRect(g, i);
    var row := Patch(g, client, latest, DirtyRects(g, flags))[y];
    forall b | 4 * r.x <= b < 4 * (r.x + r.w)
      ensures row[b] == if flags[i] then latest[y][b] else client[y][b]
    {
      TileOfPixel(g, i, b / 4, y);
      DirtyRectsCover(g, flags, b / 4, y);
    }
  }

  /** One rectangle over the whole frame replaces everything. */
  lemma PatchFull(g: Geometry, client: Surface, latest: Surface)
    requires Shaped(g, client) && Shaped(g, latest)
    ensures Patch(g, client, latest, [Rect(0, 0, g.width, g.height)]) == latest
  {
    var full := [Rect(0, 0, g.width, g.height)];
    var patched := Patch(g, client, latest, full);
    forall y | 0 <= y < g.height ensures patched[y] == latest[y] {
      forall b | 0 <= b < 4 * g.width ensures patched[y][b] == latest[y][b] {
        assert InRect(full[0], b / 4, y);
      }
      assert patched[y] == latest[y];
    }
  }
}
