/**
 The integer and comparison logic of the slippy-map helper object `GeoUtil`:
 the three-way clamp, the tile-index validity check, the map size in tiles,
 the seeds of the bounding-box reduction and the bounding-box reduction itself.
 Coordinates are `real`; Kotlin's 32-bit `Int` is `Int32` and its wrapping
 multiplication is written out.
 */
module GeoUtil {

  // ---------------------------------------------------------------------------
  // Data model
  // ---------------------------------------------------------------------------

  /** Kotlin's `Int`: a signed 32-bit two's-complement integer. */
  newtype Int32 = x: int | -0x8000_0000 <= x < 0x8000_0000

  /** A geographic position in degrees; a value with equality, kept in sets. */
  datatype GeoPosition = GeoPosition(latitude: real, longitude: real)

  /** A point of the pixel plane at one zoom level (`Point2D.Double`). */
  datatype PixelPoint = PixelPoint(x: real, y: real)

  /** An axis-aligned pixel rectangle (`Rectangle2D.Double`). */
  datatype Rect = Rect(x: real, y: real, width: real, height: real)

  /** The width and height of the map in tiles (`java.awt.Dimension`). */
  datatype Dimension = Dimension(width: Int32, height: Int32)

  /**
   The parts of the tile-geometry descriptor the core reads: the tile edge
   in pixels, and per zoom level the pixel of the geographic origin, whether
   the zoom is supported, and the map width in tiles.
   */
  datatype TileInfo = TileInfo(
    tileSize: Int32,
    centerPxAt: Int32 -> PixelPoint,
    isValidZoom: Int32 -> bool,
    mapWidthInTilesAt: Int32 -> Int32)

  /** `Double.MAX_VALUE`, the largest finite double, (2^53 - 1) * 2^971. */
  const DoubleMaxValue: real := 179769313486231570814527423731704356798070567525844996598917476803157260780028538760589558632766878171540458953514382464234321326889464182768467546703537516986049910576551282076245490090389328944075868508455133942304583236903222948165808559332123348274797826204144723168738177180919299881250404026184124858368.0

  /** `Double.MIN_VALUE`, the smallest POSITIVE double, 2^-1074. */
  const DoubleMinValue: real := 1.0 / 202402253307310618352495346718917307049556649764142118356901358027430339567995346891960383701437124495187077864316811911389808737385793476867013399940738509921517424276566361364466907742093216341239767678472745068562007483424692698618103355649159556340810056512358769552333414615230502532186327508646006263307707741093494784.0

  /** A finite double lies within [-Double.MAX_VALUE, Double.MAX_VALUE]. */
  predicate IsFinite(v: real) {
    -DoubleMaxValue <= v <= DoubleMaxValue
  }

  // ---------------------------------------------------------------------------
  // 32-bit integer arithmetic
  // ---------------------------------------------------------------------------

  /** Reduces an unbounded integer to the Int32 congruent to it modulo 2^32. */
  function Wrap32(v: int): (r: Int32)
    ensures (r as int - v) % 0x1_0000_0000 == 0
    ensures -0x8000_0000 <= v < 0x8000_0000 ==> r as int == v
  {
    var m := v % 0x1_0000_0000;
    if m < 0x8000_0000 then m as Int32 else (m - 0x1_0000_0000) as Int32
  }

  /** Kotlin's `Int` multiplication, which wraps around on overflow. */
  function Mul32(a: Int32, b: Int32): (r: Int32)
    ensures (r as int - a as int * b as int) % 0x1_0000_0000 == 0
    ensures -0x8000_0000 <= a as int * b as int < 0x8000_0000 ==> r as int == a as int * b as int
  {
    Wrap32(a as int * b as int)
  }

  // ---------------------------------------------------------------------------
  // clamp
  // ---------------------------------------------------------------------------

  /**
   Three-way clamp. The lower bound is tested first, so when
   `lower > upper` a value below `lower` still yields `lower`.
   */
  function Clamp(x: real, lower: real, upper: real): (r: real)
    ensures lower <= upper ==> lower <= r <= upper
    ensures lower <= x <= upper ==> r == x
    ensures x < lower ==> r == lower
    ensures lower <= x && upper < x ==> r == upper
    ensures r == x || r == lower || r == upper
  {
    if x < lower then lower
    else if x > upper then upper
    else x
  }

  /** Clamping an already clamped value changes nothing. */
  lemma ClampIdempotent(x: real, lower: real, upper: real)
    requires lower <= upper
    ensures Clamp(Clamp(x, lower, upper), lower, upper) == Clamp(x, lower, upper)
  {
  }

  /** Clamp is monotone in its value when the bounds are ordered. */
  lemma ClampMonotone(x: real, x': real, lower: real, upper: real)
    requires lower <= upper && x <= x'
    ensures Clamp(x, lower, upper) <= Clamp(x', lower, upper)
  {
  }

  /**
   The forward Mercator projection clamps `e = sin(lat)` to [-0.9999, 0.9999]
   before taking `ln((1 + e) / (1 - e))`; the clamp keeps that argument
   positive and within [1/19999, 19999] for every `e`, poles included.
   */
  lemma PoleClampBoundsLogArgument(e: real)
    ensures var c := Clamp(e, -0.9999, 0.9999);
      && 0.0 < 1.0 - c
      && 0.0 < 1.0 + c
      && 1.0 / 19999.0 <= (1.0 + c) / (1.0 - c) <= 19999.0
  {
    var c := Clamp(e, -0.9999, 0.9999);
    var q := (1.0 + c) / (1.0 - c);
    assert q * (1.0 - c) == 1.0 + c;
    assert 20000.0 * c <= 19998.0;
    assert q <= 19999.0 by {
      assert q * (1.0 - c) <= 19999.0 * (1.0 - c);
      ScaleByPositive(19999.0, q, 1.0 - c);
    }
    assert 1.0 / 19999.0 <= q by {
      var t, d := 19999.0 * q, 1.0 - c;
      assert t * d == 19999.0 * (1.0 + c) >= d;
      ScaleByPositive(t, 1.0, d);
    }
  }

  /** Multiplying by a positive factor preserves a strict order. */
  lemma ScaleByPositive(a: real, b: real, k: real)
    requires 0.0 < k && a * k >= b * k
    ensures a >= b
  {
  }

  // ---------------------------------------------------------------------------
  // getMapSize and isValidTile
  // ---------------------------------------------------------------------------

  /** The map is a square whose side is the map width in tiles at `zoom`. */
  function MapSize(zoom: Int32, info: TileInfo): (d: Dimension)
    ensures d.width == d.height
    ensures d.width == info.mapWidthInTilesAt(zoom)
  {
    var size := info.mapWidthInTilesAt(zoom);
    Dimension(size, size)
  }

  /**
   Whether tile (x, y) lies on the map at `zoom`, as `isValidTile` computes it:
   the pixel offsets `x * tileSize` and `y * tileSize` are 32-bit products.
   */
  function IsValidTile(x: Int32, y: Int32, zoom: Int32, info: TileInfo): (valid: bool)
    ensures valid <==>
      && 0 <= x && 0 <= y
      && (Mul32(x, info.tileSize) as real) < info.centerPxAt(zoom).x * 2.0
      && (Mul32(y, info.tileSize) as real) < info.centerPxAt(zoom).y * 2.0
      && info.isValidZoom(zoom)
  {
    if x < 0 || y < 0 then false
    else if info.centerPxAt(zoom).x * 2.0 <= Mul32(x, info.tileSize) as real then false
    else if info.centerPxAt(zoom).y * 2.0 <= Mul32(y, info.tileSize) as real then false
    else info.isValidZoom(zoom)
  }

  /**
   The tile check with the pixel offsets computed without overflow: a tile is
   valid exactly when its pixel offset lies in [0, 2 * center) on both axes
   and the zoom is supported.
   */
  function IsValidTileIntended(x: Int32, y: Int32, zoom: Int32, info: TileInfo): (valid: bool)
    ensures valid <==>
      && 0 <= x && 0 <= y
      && (x as int * info.tileSize as int) as real < info.centerPxAt(zoom).x * 2.0
      && (y as int * info.tileSize as int) as real < info.centerPxAt(zoom).y * 2.0
      && info.isValidZoom(zoom)
  {
    if x < 0 || y < 0 then false
    else if info.centerPxAt(zoom).x * 2.0 <= (x as int * info.tileSize as int) as real then false
    else if info.centerPxAt(zoom).y * 2.0 <= (y as int * info.tileSize as int) as real then false
    else info.isValidZoom(zoom)
  }

  /** Where neither product overflows, `isValidTile` as written is the intended check. */
  lemma IsValidTileAgreesWithoutOverflow(x: Int32, y: Int32, zoom: Int32, info: TileInfo)
    requires -0x8000_0000 <= x as int * info.tileSize as int < 0x8000_0000
    requires -0x8000_0000 <= y as int * info.tileSize as int < 0x8000_0000
    ensures IsValidTile(x, y, zoom, info) == IsValidTileIntended(x, y, zoom, info)
  {
  }

  /**
   With 256-pixel tiles and the origin at pixel (2^29, 2^29) (zoom 22), tile
   column 2^23 lies beyond the map's right edge, yet `x * tileSize` = 2^31
   wraps to -2^31 and `isValidTile` as written accepts the tile.
   */
  lemma IsValidTileOverflowExample()
    ensures var info := TileInfo(256, z => PixelPoint(536870912.0, 536870912.0), z => true, z => 4194304);
      && IsValidTile(0x80_0000, 0, 22, info)
      && !IsValidTileIntended(0x80_0000, 0, 22, info)
  {
  }

  // ---------------------------------------------------------------------------
  // boundingBox
  // ---------------------------------------------------------------------------

  /** The seeds of the running (min, max) pair of each axis. */
  function MaxRange(): (seeds: (real, real))
    ensures 0.0 < seeds.1 < 1.0 < seeds.0
    ensures IsFinite(seeds.0) && IsFinite(seeds.1)
    ensures forall v :: IsFinite(v) ==> v <= seeds.0
  {
    (DoubleMaxValue, DoubleMinValue)
  }

  datatype Axis = X | Y

  function Coord(p: PixelPoint, axis: Axis): real {
    match axis
    case X => p.x
    case Y => p.y
  }

  /** The pixel points the positions project to. */
  ghost function Projected(positions: set<GeoPosition>, geoToPixel: (GeoPosition, Int32) -> PixelPoint, zoom: Int32): set<PixelPoint> {
    set p | p in positions :: geoToPixel(p, zoom)
  }

  /** `m` is the least of `seed` and the `axis` coordinates of `pts`. */
  ghost predicate IsLow(m: real, seed: real, pts: set<PixelPoint>, axis: Axis) {
    && m <= seed
    && (forall q | q in pts :: m <= Coord(q, axis))
    && (m == seed || exists q | q in pts :: Coord(q, axis) == m)
  }

  /** `m` is the greatest of `seed` and the `axis` coordinates of `pts`. */
  ghost predicate IsHigh(m: real, seed: real, pts: set<PixelPoint>, axis: Axis) {
    && seed <= m
    && (forall q | q in pts :: Coord(q, axis) <= m)
    && (m == seed || exists q | q in pts :: Coord(q, axis) == m)
  }

  /**
   `r` is the rectangle from the running minima to the running maxima of
   `pts`, each reduction started at the corresponding seed.
   */
  ghost predicate IsBoxFrom(r: Rect, seeds: (real, real), pts: set<PixelPoint>) {
    && IsLow(r.x, seeds.0, pts, X)
    && IsHigh(r.x + r.width, seeds.1, pts, X)
    && IsLow(r.y, seeds.0, pts, Y)
    && IsHigh(r.y + r.height, seeds.1, pts, Y)
  }

  predicate Contains(r: Rect, p: PixelPoint) {
    r.x <= p.x <= r.x + r.width && r.y <= p.y <= r.y + r.height
  }

  /** Every edge of `r` is the coordinate of some point of `pts`. */
  ghost predicate IsTight(r: Rect, pts: set<PixelPoint>) {
    && (exists q | q in pts :: q.x == r.x)
    && (exists q | q in pts :: q.x == r.x + r.width)
    && (exists q | q in pts :: q.y == r.y)
    && (exists q | q in pts :: q.y == r.y + r.height)
  }

  /**
   A rectangle within the seeds that contains every projected point, each of
   whose edges is a seed or the coordinate of a projected point, is the
   reduction of the projected points.
   */
  lemma ReducedIsBox(r: Rect, seeds: (real, real), positions: set<GeoPosition>,
                     geoToPixel: (GeoPosition, Int32) -> PixelPoint, zoom: Int32,
                     atMinX: GeoPosition, atMaxX: GeoPosition, atMinY: GeoPosition, atMaxY: GeoPosition)
    requires r.x <= seeds.0 && seeds.1 <= r.x + r.width && r.y <= seeds.0 && seeds.1 <= r.y + r.height
    requires forall p | p in positions :: Contains(r, geoToPixel(p, zoom))
    requires r.x == seeds.0 || (atMinX in positions && geoToPixel(atMinX, zoom).x == r.x)
    requires r.x + r.width == seeds.1 || (atMaxX in positions && geoToPixel(atMaxX, zoom).x == r.x + r.width)
    requires r.y == seeds.0 || (atMinY in positions && geoToPixel(atMinY, zoom).y == r.y)
    requires r.y + r.height == seeds.1 || (atMaxY in positions && geoToPixel(atMaxY, zoom).y == r.y + r.height)
    ensures IsBoxFrom(r, seeds, Projected(positions, geoToPixel, zoom))
  {
    var pts := Projected(positions, geoToPixel, zoom);
    forall q | q in pts
      ensures r.x <= Coord(q, X) <= r.x + r.width && r.y <= Coord(q, Y) <= r.y + r.height
    {
      var p :| p in positions && geoToPixel(p, zoom) == q;
    }
    var qMinX, qMaxX := geoToPixel(atMinX, zoom), geoToPixel(atMaxX, zoom);
    var qMinY, qMaxY := geoToPixel(atMinY, zoom), geoToPixel(atMaxY, zoom);
    assert Coord(qMinX, X) == qMinX.x && Coord(qMaxX, X) == qMaxX.x;
    assert Coord(qMinY, Y) == qMinY.y && Coord(qMaxY, Y) == qMaxY.y;
  }

  /**
   The reduction loop: projects each position and widens the four running
   bounds, visiting the positions in an unspecified order.
   */
  method BoundingBoxFrom(seeds: (real, real), positions: set<GeoPosition>,
                         geoToPixel: (GeoPosition, Int32) -> PixelPoint, zoom: Int32)
    returns (r: Rect)
    ensures IsBoxFrom(r, seeds, Projected(positions, geoToPixel, zoom))
    ensures forall p | p in positions :: Contains(r, geoToPixel(p, zoom))
  {
    var minX, maxX := seeds.0, seeds.1;
    var minY, maxY := seeds.0, seeds.1;
    var todo := positions;
    // the position whose point set each running bound, once one has
    ghost var origin := GeoPosition(0.0, 0.0);
    ghost var atMinX, atMaxX, atMinY, atMaxY := origin, origin, origin, origin;
    while todo != {}
      invariant todo <= positions
      invariant minX <= seeds.0 && seeds.1 <= maxX && minY <= seeds.0 && seeds.1 <= maxY
      invariant forall p | p in positions - todo ::
        minX <= geoToPixel(p, zoom).x <= maxX && minY <= geoToPixel(p, zoom).y <= maxY
      invariant minX == seeds.0 || (atMinX in positions - todo && geoToPixel(atMinX, zoom).x == minX)
      invariant maxX == seeds.1 || (atMaxX in positions - todo && geoToPixel(atMaxX, zoom).x == maxX)
      invariant minY == seeds.0 || (atMinY in positions - todo && geoToPixel(atMinY, zoom).y == minY)
      invariant maxY == seeds.1 || (atMaxY in positions - todo && geoToPixel(atMaxY, zoom).y == maxY)
      decreases todo
    {
      var position :| position in todo;
      var point := geoToPixel(position, zoom);
      if point.x < minX { minX := point.x; atMinX := position; }
      if point.x > maxX { maxX := point.x; atMaxX := position; }
      if point.y < minY { minY := point.y; atMinY := position; }
      if point.y > maxY { maxY := point.y; atMaxY := position; }
      todo := todo - {position};
    }
    assert positions - todo == positions;
    r := Rect(minX, minY, maxX - minX, maxY - minY);
    ReducedIsBox(r, seeds, positions, geoToPixel, zoom, atMinX, atMaxX, atMinY, atMaxY);
  }

  /**
   `boundingBox` as written: seeded from `MaxRange()`, so the minima start at
   `Double.MAX_VALUE` and the maxima at the tiny positive `Double.MIN_VALUE`.
   Every projected point lies inside the result; an empty set yields a
   rectangle of negative width and height.
   */
  method BoundingBox(positions: set<GeoPosition>,
                     geoToPixel: (GeoPosition, Int32) -> PixelPoint, zoom: Int32)
    returns (r: Rect)
    ensures IsBoxFrom(r, (DoubleMaxValue, DoubleMinValue), Projected(positions, geoToPixel, zoom))
    ensures forall p | p in positions :: Contains(r, geoToPixel(p, zoom))
    ensures positions == {} ==>
      r == Rect(DoubleMaxValue, DoubleMaxValue, DoubleMinValue - DoubleMaxValue, DoubleMinValue - DoubleMaxValue)
      && r.width < 0.0 && r.height < 0.0
  {
    r := BoundingBoxFrom(MaxRange(), positions, geoToPixel, zoom);
  }

  /**
   The result of the reduction is determined by the seeds and the set of
   projected points alone, so the order in which the positions are visited
   does not matter.
   */
  lemma BoundsDetermined(r1: Rect, r2: Rect, seeds: (real, real), pts: set<PixelPoint>)
    requires IsBoxFrom(r1, seeds, pts) && IsBoxFrom(r2, seeds, pts)
    ensures r1 == r2
  {
  }

  /**
   With the seeds of `maxRange`, when every point has a negative `axis`
   coordinate the running maximum never leaves `Double.MIN_VALUE`: the far
   edge of the box is positive and no point lies on it.
   */
  lemma NegativeCoordinatesKeepMaxSeed(m: real, pts: set<PixelPoint>, axis: Axis)
    requires IsHigh(m, MaxRange().1, pts, axis)
    requires forall q | q in pts :: Coord(q, axis) < 0.0
    ensures m == DoubleMinValue && 0.0 < m
    ensures forall q | q in pts :: Coord(q, axis) < m
  {
  }

  /** A one-point example: the point (-5, -5) yields a box reaching x = MIN_VALUE. */
  lemma BoundingBoxNegativePointExample(r: Rect)
    requires IsBoxFrom(r, MaxRange(), {PixelPoint(-5.0, -5.0)})
    ensures r.x == -5.0 && r.x + r.width == DoubleMinValue
    ensures r.y == -5.0 && r.y + r.height == DoubleMinValue
    ensures !IsTight(r, {PixelPoint(-5.0, -5.0)})
  {
  }

  /** Seeds for a minimal box over finite points: (MAX_VALUE, -MAX_VALUE). */
  function CorrectedRange(): (seeds: (real, real))
    ensures seeds.1 < 0.0 < seeds.0
    ensures forall v :: IsFinite(v) ==> seeds.1 <= v <= seeds.0
  {
    (DoubleMaxValue, -DoubleMaxValue)
  }

  /**
   A reduction whose seeds bound every finite coordinate never ends at a
   seed that no point reaches: on a non-empty set of finite points each
   bound is attained.
   */
  lemma FiniteSeedsAreAttained(r: Rect, pts: set<PixelPoint>)
    requires IsBoxFrom(r, CorrectedRange(), pts)
    requires pts != {}
    requires forall q | q in pts :: IsFinite(q.x) && IsFinite(q.y)
    ensures IsTight(r, pts)
  {
  }

  /**
   The bounding box seeded so that the maxima start at -MAX_VALUE: for a
   non-empty set of positions with finite projections it is the least
   rectangle containing every projected point, each edge touching a point.
   */
  method BoundingBoxCorrected(positions: set<GeoPosition>,
                              geoToPixel: (GeoPosition, Int32) -> PixelPoint, zoom: Int32)
    returns (r: Rect)
    ensures forall p | p in positions :: Contains(r, geoToPixel(p, zoom))
    ensures positions != {} && (forall p | p in positions :: IsFinite(geoToPixel(p, zoom).x) && IsFinite(geoToPixel(p, zoom).y))
      ==> IsTight(r, Projected(positions, geoToPixel, zoom))
  {
    r := BoundingBoxFrom(CorrectedRange(), positions, geoToPixel, zoom);
    var pts := Projected(positions, geoToPixel, zoom);
    if positions != {} && (forall p | p in positions :: IsFinite(geoToPixel(p, zoom).x) && IsFinite(geoToPixel(p, zoom).y)) {
      var p0 :| p0 in positions;
      assert geoToPixel(p0, zoom) in pts;
      FiniteSeedsAreAttained(r, pts);
    }
  }
}
