# Komap `GeoUtil` — comparison and integer logic

This project models the part of the slippy-map helper object `GeoUtil`
(`komap-core/src/main/kotlin/nice/fontaine/utils/GeoUtil.kt`) that is not
floating-point projection maths:

- `clamp`: a three-way clamp over reals. The lower bound is tested first.
- `getMapSize`: the map's size in tiles. It is a square.
- `isValidTile`: whether a tile index lies on the map at a zoom level. Kotlin's
  `Int` is 32 bits wide, so `x * tileSize` wraps around. The model writes this
  out as `Mul32`.
- `maxRange`: the seeds of the bounding-box reduction. They are the exact
  values of `Double.MAX_VALUE`, (2^53 - 1) * 2^971, and `Double.MIN_VALUE`,
  2^-1074, written as reals.
- `boundingBox`: a method with a loop that projects each position of a
  `set<GeoPosition>` and widens four running bounds. Kotlin's `for` over a
  `Set` visits the elements in an order the code does not control, so the
  loop picks an arbitrary remaining element each round. The tile factory's
  `geoToPixel` is a function parameter.

Everything lives in one module, `GeoUtil` (`GeoUtil.dfy`). The tile-geometry
descriptor `TileInfo` is a datatype of the four things the core reads from it.
Its source file, `TileInfo.kt`, is not part of this model. The model takes
`tileSize` to be a Kotlin `Int`, which is also the type of `resolution`'s
`tileSize` parameter at `GeoUtil.kt:68`.

The reduction is seeded with `Double.MAX_VALUE` and `Double.MIN_VALUE` (the
smallest positive double), not with ±infinity, and `clamp` has no
precondition; the model follows the code.

## Model

| member | source | states |
|---|---|---|
| GeoUtil.Clamp | komap-core/src/main/kotlin/nice/fontaine/utils/GeoUtil.kt:37-42 | for ordered bounds the result lies in [lower, upper]; an in-range value comes back unchanged; a value below `lower` gives `lower` even when `lower > upper`; the result is always one of x, lower or upper |
| GeoUtil.ClampIdempotent | komap-core/src/main/kotlin/nice/fontaine/utils/GeoUtil.kt:37-42 | with ordered bounds, clamping twice gives the same result as clamping once |
| GeoUtil.ClampMonotone | komap-core/src/main/kotlin/nice/fontaine/utils/GeoUtil.kt:37-42 | with ordered bounds, clamp preserves the order of its inputs |
| GeoUtil.PoleClampBoundsLogArgument | komap-core/src/main/kotlin/nice/fontaine/utils/GeoUtil.kt:31-33 | after the clamp to [-0.9999, 0.9999], the Mercator log argument (1+e)/(1-e) is positive and lies in [1/19999, 19999] for every e |
| GeoUtil.MapSize | komap-core/src/main/kotlin/nice/fontaine/utils/GeoUtil.kt:16-19 | the map is square, and its side is the map width in tiles at that zoom |
| GeoUtil.Wrap32 | komap-core/src/main/kotlin/nice/fontaine/utils/GeoUtil.kt:24-25 | the result is the 32-bit value congruent to the input modulo 2^32; an input already in range is returned as is |
| GeoUtil.Mul32 | komap-core/src/main/kotlin/nice/fontaine/utils/GeoUtil.kt:24-25 | Kotlin `Int` multiplication: congruent to the true product modulo 2^32, and equal to it when the product fits in 32 bits |
| GeoUtil.IsValidTile | komap-core/src/main/kotlin/nice/fontaine/utils/GeoUtil.kt:21-27 | a negative x or y is rejected whatever the geometry; so is a 32-bit pixel offset of at least twice the center on either axis; the tile is valid exactly when both indices are non-negative, both offsets are below twice the center and the zoom is valid |
| GeoUtil.IsValidTileIntended | komap-core/src/main/kotlin/nice/fontaine/utils/GeoUtil.kt:21-27 | the same check with exact (unbounded) pixel offsets: valid exactly when both indices are non-negative, both exact offsets are below twice the center and the zoom is valid |
| GeoUtil.IsValidTileAgreesWithoutOverflow | komap-core/src/main/kotlin/nice/fontaine/utils/GeoUtil.kt:24-25 | when neither product overflows 32 bits, `isValidTile` as written and the exact check agree |
| GeoUtil.IsValidTileOverflowExample | komap-core/src/main/kotlin/nice/fontaine/utils/GeoUtil.kt:24-25 | with 256-pixel tiles and center (2^29, 2^29), tile (2^23, 0) is accepted by `isValidTile` as written and rejected by the exact one |
| GeoUtil.MaxRange | komap-core/src/main/kotlin/nice/fontaine/utils/GeoUtil.kt:66 | both seeds are positive; the max seed is below 1; the min seed is at least every finite double |
| GeoUtil.BoundingBoxFrom | komap-core/src/main/kotlin/nice/fontaine/utils/GeoUtil.kt:51-64 | each edge is the running min or max of the projected coordinates, started at the given seeds, whatever the visiting order; every projected point lies inside the rectangle |
| GeoUtil.BoundingBox | komap-core/src/main/kotlin/nice/fontaine/utils/GeoUtil.kt:51-66 | x = min(MAX_VALUE, min p.x), x + width = max(MIN_VALUE, max p.x), and the same for y; every projected point is contained; an empty set gives x = y = MAX_VALUE with negative width and height MIN_VALUE - MAX_VALUE |
| GeoUtil.BoundsDetermined | komap-core/src/main/kotlin/nice/fontaine/utils/GeoUtil.kt:55-61 | two rectangles that meet the reduction's contract for the same seeds and points are equal, so the result does not depend on iteration order |
| GeoUtil.NegativeCoordinatesKeepMaxSeed | komap-core/src/main/kotlin/nice/fontaine/utils/GeoUtil.kt:51-66 | with the seeds of `maxRange`, if every coordinate on an axis is negative, the running max stays at the positive MIN_VALUE, which is above every point |
| GeoUtil.BoundingBoxNegativePointExample | komap-core/src/main/kotlin/nice/fontaine/utils/GeoUtil.kt:51-66 | the single point (-5, -5) gives a box from -5 to MIN_VALUE on both axes, so the far edges touch no point |
| GeoUtil.CorrectedRange | komap-core/src/main/kotlin/nice/fontaine/utils/GeoUtil.kt:66 | the max seed is negative, the min seed positive, and together they bound every finite double |
| GeoUtil.FiniteSeedsAreAttained | komap-core/src/main/kotlin/nice/fontaine/utils/GeoUtil.kt:52-60 | with the corrected seeds and a non-empty set of finite points, every edge of the reduced rectangle is a coordinate of some point |
| GeoUtil.BoundingBoxCorrected | komap-core/src/main/kotlin/nice/fontaine/utils/GeoUtil.kt:51-64 | contains every projected point; for a non-empty set with finite projections each edge touches a projected point (the least enclosing rectangle) |

## Findings

| source | as written | input that shows it | evidently intended | confidence | as-written member | corrected member |
|---|---|---|---|---|---|---|
| komap-core/src/main/kotlin/nice/fontaine/utils/GeoUtil.kt:66 | the max trackers start at `Double.MIN_VALUE`, the smallest positive double | one position projecting to (-5, -5): the box runs from -5 to 2^-1074 on both axes | start the max trackers at `-Double.MAX_VALUE` (or -infinity), so the box is the least one around the points | high (not executed) | GeoUtil.BoundingBox, shown by GeoUtil.NegativeCoordinatesKeepMaxSeed and GeoUtil.BoundingBoxNegativePointExample | GeoUtil.BoundingBoxCorrected, proved by GeoUtil.FiniteSeedsAreAttained |
| komap-core/src/main/kotlin/nice/fontaine/utils/GeoUtil.kt:24-25 | `x * info.tileSize` is a 32-bit `Int` product and can wrap to a negative value | tileSize 256, center (2^29, 2^29), zoom valid, tile (2^23, 0): 2^23 * 256 wraps to -2^31, so the tile is accepted | compare the exact pixel offset, for example in `Long` or `Double` | medium (not executed; assumes `TileInfo.tileSize` is an `Int`) | GeoUtil.IsValidTile, shown by GeoUtil.IsValidTileOverflowExample | GeoUtil.IsValidTileIntended, with GeoUtil.IsValidTileAgreesWithoutOverflow |

`BoundingBox` keeps the seeds of `maxRange`, because that is what the Kotlin code does.
`BoundingBoxCorrected` runs the same loop (`BoundingBoxFrom`) with
`CorrectedRange()` as its seeds.

## Left out

- `geoToPixel` and `pixelToGeo` (`GeoUtil.kt:29-49`): spherical Mercator with `sin`, `ln`, `atan` and `exp` on doubles. Their round trip holds only up to rounding. The clamp inside `geoToPixel` is modelled by `Clamp` and `PoleClampBoundsLogArgument`.
- `resolution` (`GeoUtil.kt:68-71`): floating-point `cos` and `pow`.
- `toDegrees` and `toRadians` (`GeoUtil.kt:75-77`): floating-point scaling by pi.
- `getMapBounds` and `getMapGeoBounds` (`GeoUtil.kt:73, 79-89`): glue over the map canvas and the tile factory. They have no logic beyond two calls to the external `pixelToGeo`.
- The tile factory's `geoToPixel`, used by `boundingBox`: its implementation is not part of this model. It is a function parameter `(GeoPosition, Int32) -> PixelPoint`.
- `TileInfo`: its implementation is not part of this model. Its tile size, center pixel, zoom validity and map width are fields of the `TileInfo` datatype, and nothing relates them to each other. `centerPxAt` is taken to return Double coordinates (a `Point2D`), so `centerPxAt(zoom).x * 2` does not wrap, and to be defined for every zoom: `isValidTile` calls it before it checks `isValidZoom`, and a lookup that throws for an unsupported zoom is not modelled.
- IEEE-754 details: coordinates are exact reals, so there is no rounding, NaN or infinity. `Double.MAX_VALUE` and `Double.MIN_VALUE` are kept as their exact real values. `IsFinite` is the range [-MAX_VALUE, MAX_VALUE] of finite doubles.
