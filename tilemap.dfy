/** The tile layout of `generate_map` (src/map/map.ts): which region tiles around a block
    coordinate are fetched, and where each fetched tile is placed on the square canvas. */
module TileMap {

  /** The side of one region tile, in pixels. */
  const TileSize := 512

  // ---------------------------------------------------------------------------------------
  // Arithmetic on JavaScript numbers: ToInt32 and the arithmetic right shift `>>`
  // ---------------------------------------------------------------------------------------

  const TwoTo31 := 0x8000_0000
  const TwoTo32 := 0x1_0000_0000

  predicate InInt32(x: int) { -TwoTo31 <= x < TwoTo31 }

  /** ToInt32 of an integral number: the 32-bit two's-complement value congruent to it. */
  function ToInt32(x: int): (r: int)
    ensures InInt32(r)
    ensures (x - r) % TwoTo32 == 0
    ensures InInt32(x) ==> r == x
  {
    var m := x % TwoTo32;
    if m >= TwoTo31 then m - TwoTo32 else m
  }

  /** A one-bit arithmetic shift right: the lowest bit is dropped and the sign kept, so a
      negative odd value moves away from zero. */
  function ShiftRightOne(x: int): int {
    if x >= 0 then x / 2 else -((-x + 1) / 2)
  }

  function ShiftRightBits(x: int, n: nat): int {
    if n == 0 then x else ShiftRightOne(ShiftRightBits(x, n - 1))
  }

  /** `x >> n` on an integral number: ToInt32, then an arithmetic shift by n mod 32 bits. */
  function ShiftRight(x: int, n: nat): int {
    ShiftRightBits(ToInt32(x), n % 32)
  }

  /** `x >> n` is the 32-bit value of x divided by 2^(n mod 32), rounded down. */
  lemma ShiftRightIsFloorDiv(x: int, n: nat)
    ensures ShiftRight(x, n) == ToInt32(x) / Pow2(n % 32)
  {
    ShiftRightBitsIsFloorDiv(ToInt32(x), n % 32);
  }

  function Pow2(n: nat): (p: nat)
    ensures p >= 1
  {
    if n == 0 then 1 else 2 * Pow2(n - 1)
  }

  /** A multiple of a positive d other than d * 0 is at least d away from zero. */
  lemma MulAwayFromZero(d: int, k: int)
    requires d > 0
    ensures k >= 1 ==> d * k >= d
    ensures k <= -1 ==> d * k <= -d
  {
  }

  lemma DivUnique(x: int, d: int, q: int, r: int)
    requires d > 0 && 0 <= r < d && x == d * q + r
    ensures x / d == q && x % d == r
  {
    var q', r' := x / d, x % d;
    assert d * q' + r' == x;
    assert d * (q - q') == r' - r by {
      assert d * (q - q') == d * q - d * q';
    }
    MulAwayFromZero(d, q - q');
  }

  lemma MulAssociates(a: int, b: int, c: int)
    ensures a * (b * c) == (a * b) * c
  {
  }

  lemma MulDistributes(a: int, b: int, c: int)
    ensures a * (b + c) == a * b + a * c
  {
  }

  lemma MulMonotone(a: int, b: int, c: int)
    requires a >= 0
    ensures b <= c ==> a * b <= a * c
  {
  }

  /** A quotient of a value below n * m by n is below m. */
  lemma DivBelow(i: int, n: int, m: int)
    requires n > 0 && 0 <= i < n * m
    ensures 0 <= i / n < m
  {
    assert n * (i / n) + i % n == i;
    MulMonotone(n, m, i / n);
  }

  /** Dividing by a and then by b is dividing by a * b, rounding down both times. */
  lemma DivDiv(x: int, a: int, b: int)
    requires a > 0 && b > 0
    ensures (x / a) / b == x / (a * b)
  {
    var q, r := x / a, x % a;
    var q2, r2 := q / b, q % b;
    assert x == a * q + r;
    assert q == b * q2 + r2;
    MulDistributes(a, b * q2, r2);
    MulAssociates(a, b, q2);
    assert x == (a * b) * q2 + (a * r2 + r);
    MulMonotone(a, r2, b - 1);
    MulDistributes(a, b, -1);
    assert 0 <= a * r2 + r < a * b;
    assert a * b > 0 by { MulAwayFromZero(a, b); }
    DivUnique(x, a * b, q2, a * r2 + r);
  }

  lemma ShiftRightOneHalves(x: int)
    ensures ShiftRightOne(x) == x / 2
  {
    if x < 0 {
      DivUnique(x, 2, -((-x + 1) / 2), x - 2 * -((-x + 1) / 2));
    }
  }

  /** Shifting right by n bits rounds x / 2^n toward negative infinity. */
  lemma {:induction false} ShiftRightBitsIsFloorDiv(x: int, n: nat)
    ensures ShiftRightBits(x, n) == x / Pow2(n)
  {
    if n > 0 {
      ShiftRightBitsIsFloorDiv(x, n - 1);
      ShiftRightOneHalves(ShiftRightBits(x, n - 1));
      DivDiv(x, Pow2(n - 1), 2);
    }
  }

  /** The region index of a block coordinate: `(x >> 4) >> 5`. */
  function Region(coordinate: int): int {
    ShiftRight(ShiftRight(coordinate, 4), 5)
  }

  /** For a coordinate in the int32 range, the region is the coordinate divided by 512 rounded
      toward negative infinity: the region holds blocks 512 * r up to 512 * r + 511. Outside
      that range the coordinate first wraps to 32 bits. */
  lemma RegionIsFloorDiv(x: int)
    ensures Region(x) == ToInt32(x) / 512
    ensures InInt32(x) ==> 512 * Region(x) <= x < 512 * Region(x) + 512
  {
    var y := ToInt32(x);
    ShiftRightBitsIsFloorDiv(y, 4);
    assert Pow2(4) == 16;
    var s := y / 16;
    assert InInt32(s);
    ShiftRightBitsIsFloorDiv(s, 5);
    assert Pow2(5) == 32;
    DivDiv(y, 16, 32);
  }

  lemma RegionExamples()
    ensures Region(0) == 0 && Region(511) == 0 && Region(512) == 1
    ensures Region(-1) == -1 && Region(-512) == -1 && Region(-513) == -2
  {
    RegionIsFloorDiv(0);
    RegionIsFloorDiv(511);
    RegionIsFloorDiv(512);
    RegionIsFloorDiv(-1);
    RegionIsFloorDiv(-512);
    RegionIsFloorDiv(-513);
  }

  // ---------------------------------------------------------------------------------------
  // Canvas dimensions and tile placement
  // ---------------------------------------------------------------------------------------

  /** The tiles per side of the grid: the centre tile and `radius` tiles on each side of it. */
  function TileCount(radius: int): int { radius * 2 + 1 }

  /** The padding around the tile grid. */
  function Offset(radius: int): int { 32 * TileCount(radius) }

  /** The side of the square canvas. */
  function CanvasSize(radius: int): int { TileSize * TileCount(radius) + Offset(radius) * 2 }

  /** A grid exists exactly for a radius of 0 or more; the padding is a sixteenth of the grid's
      side, and the canvas is the grid padded on both sides, 576 pixels per tile. */
  lemma CanvasDimensions(radius: int)
    ensures TileCount(radius) >= 1 <==> radius >= 0
    ensures 16 * Offset(radius) == TileSize * TileCount(radius)
    ensures CanvasSize(radius) == 576 * TileCount(radius)
  {
  }

  /** The map renderer named in the tile URLs. */
  function Renderer(world: string): (r: string)
    ensures r == "vanilla" <==> world == "world"
    ensures r == "basic" <==> world != "world"
  {
    if world == "world" then "vanilla" else "basic"
  }

  /** The parts of the URL of one tile image. */
  datatype TileKey = TileKey(world: string, renderer: string, regionX: int, regionZ: int)

  /** A fetched tile and the top-left corner at which it is drawn. */
  datatype Tile = Tile(key: TileKey, x: int, y: int)

  /** The centre of the map and the region tiles around it. */
  datatype MapRequest = MapRequest(world: string, radius: int, x: int, z: int)

  /** The tile fetched at grid offset (dx, dz): region (region_x + dx, region_z - dz), drawn at
      column radius + dx and row radius - dz. */
  function PlaceTile(req: MapRequest, dx: int, dz: int): Tile {
    var col := req.radius + dx;
    var row := req.radius - dz;
    Tile(TileKey(req.world, Renderer(req.world), Region(req.x) + dx, Region(req.z) - dz),
         Offset(req.radius) + TileSize * col,
         Offset(req.radius) + TileSize * row)
  }

  /** The (dx, dz) offsets in the order the nested loops visit them: dz ascending in the outer
      loop, dx ascending in the inner loop, both from -radius to radius. */
  function GridOffsets(radius: int): seq<(int, int)> {
    if radius < 0 then []
    else
      var n := TileCount(radius);
      seq(n * n, i requires 0 <= i < n * n => (-radius + i % n, -radius + i / n))
  }

  /** The tiles among `offsets` whose fetch succeeds, placed, in the order of `offsets`. */
  function PlacedTiles(req: MapRequest, present: TileKey -> bool, offsets: seq<(int, int)>): seq<Tile> {
    if offsets == [] then []
    else
      var (dx, dz) := offsets[|offsets| - 1];
      var t := PlaceTile(req, dx, dz);
      PlacedTiles(req, present, offsets[..|offsets| - 1]) + (if present(t.key) then [t] else [])
  }

  /** At most one tile is placed per offset. */
  lemma {:induction false} PlacedTilesLength(req: MapRequest, present: TileKey -> bool, offsets: seq<(int, int)>)
    ensures |PlacedTiles(req, present, offsets)| <= |offsets|
  {
    if offsets != [] {
      PlacedTilesLength(req, present, offsets[..|offsets| - 1]);
    }
  }

  /** The number of offsets in the first `rows` rows of the grid, counted row by row. */
  function RowStart(radius: int, rows: int): int
    decreases rows
  {
    if rows <= 0 then 0 else RowStart(radius, rows - 1) + TileCount(radius)
  }

  lemma {:induction false} RowStartIsProduct(radius: int, rows: int)
    requires rows >= 0
    ensures RowStart(radius, rows) == rows * TileCount(radius)
    decreases rows
  {
    if rows > 0 {
      RowStartIsProduct(radius, rows - 1);
      MulDistributes(TileCount(radius), rows - 1, 1);
    }
  }

  /** The position in GridOffsets(radius) of the offset (dx, dz): (dz + radius) whole rows,
      then dx + radius more. */
  function GridIndex(radius: int, dx: int, dz: int): int {
    RowStart(radius, dz + radius) + (dx + radius)
  }

  lemma GridIndexInverse(radius: int, dx: int, dz: int)
    requires radius >= 0
    requires -radius <= dx <= radius && -radius <= dz <= radius
    ensures var n := TileCount(radius);
            var k := GridIndex(radius, dx, dz);
            0 <= k < n * n && k % n == dx + radius && k / n == dz + radius
  {
    var n := TileCount(radius);
    var k := GridIndex(radius, dx, dz);
    RowStartIsProduct(radius, dz + radius);
    DivUnique(k, n, dz + radius, dx + radius);
    MulMonotone(n, dz + radius, n - 1);
    MulDistributes(n, n, -1);
  }

  lemma GridOffsetAt(radius: int, i: int)
    requires radius >= 0 && 0 <= i < TileCount(radius) * TileCount(radius)
    ensures var n := TileCount(radius);
            GridOffsets(radius)[i] == (-radius + i % n, -radius + i / n)
    ensures -radius <= GridOffsets(radius)[i].0 <= radius && -radius <= GridOffsets(radius)[i].1 <= radius
  {
    DivBelow(i, TileCount(radius), TileCount(radius));
  }

  lemma GridOrderAt(radius: int, i: int, j: int)
    requires radius >= 0 && 0 <= i < j < TileCount(radius) * TileCount(radius)
    ensures var (a, b) := (GridOffsets(radius)[i], GridOffsets(radius)[j]);
            a.1 < b.1 || (a.1 == b.1 && a.0 < b.0)
  {
    var n := TileCount(radius);
    GridOffsetAt(radius, i);
    GridOffsetAt(radius, j);
    var qi, ri, qj, rj := i / n, i % n, j / n, j % n;
    assert i == n * qi + ri && j == n * qj + rj;
    MulMonotone(n, qj + 1, qi);
    MulDistributes(n, qj, 1);
  }

  /** The loops visit (dx, dz) only from [-radius, radius]^2, (2 * radius + 1)^2 times. */
  lemma GridOffsetsInRange(radius: int)
    requires radius >= 0
    ensures |GridOffsets(radius)| == TileCount(radius) * TileCount(radius)
    ensures forall i | 0 <= i < |GridOffsets(radius)| ::
              -radius <= GridOffsets(radius)[i].0 <= radius && -radius <= GridOffsets(radius)[i].1 <= radius
  {
    forall i | 0 <= i < |GridOffsets(radius)|
      ensures -radius <= GridOffsets(radius)[i].0 <= radius && -radius <= GridOffsets(radius)[i].1 <= radius
    {
      GridOffsetAt(radius, i);
    }
  }

  /** A negative radius visits nothing; any other radius visits at least the centre. */
  lemma GridOffsetsEmpty(radius: int)
    ensures GridOffsets(radius) == [] <==> radius < 0
  {
    if radius >= 0 {
      MulMonotone(TileCount(radius), 1, TileCount(radius));
      assert |GridOffsets(radius)| >= 1;
    }
  }

  /** Every (dx, dz) of [-radius, radius]^2 is visited, at position GridIndex(radius, dx, dz). */
  lemma GridOffsetsCover(radius: int)
    requires radius >= 0
    ensures forall dx, dz | -radius <= dx <= radius && -radius <= dz <= radius ::
              0 <= GridIndex(radius, dx, dz) < |GridOffsets(radius)| &&
              GridOffsets(radius)[GridIndex(radius, dx, dz)] == (dx, dz)
  {
    forall dx, dz | -radius <= dx <= radius && -radius <= dz <= radius
      ensures 0 <= GridIndex(radius, dx, dz) < |GridOffsets(radius)|
      ensures GridOffsets(radius)[GridIndex(radius, dx, dz)] == (dx, dz)
    {
      GridIndexInverse(radius, dx, dz);
      GridOffsetAt(radius, GridIndex(radius, dx, dz));
    }
  }

  /** The visits are in ascending order of dz and, for equal dz, of dx; so no (dx, dz) is
      visited twice. */
  lemma GridOffsetsOrdered(radius: int)
    requires radius >= 0
    ensures forall i, j | 0 <= i < j < |GridOffsets(radius)| ::
              GridOffsets(radius)[i].1 < GridOffsets(radius)[j].1 ||
              (GridOffsets(radius)[i].1 == GridOffsets(radius)[j].1 && GridOffsets(radius)[i].0 < GridOffsets(radius)[j].0)
    ensures forall i, j | 0 <= i < j < |GridOffsets(radius)| :: GridOffsets(radius)[i] != GridOffsets(radius)[j]
  {
    forall i, j | 0 <= i < j < |GridOffsets(radius)|
      ensures GridOffsets(radius)[i].1 < GridOffsets(radius)[j].1 ||
              (GridOffsets(radius)[i].1 == GridOffsets(radius)[j].1 && GridOffsets(radius)[i].0 < GridOffsets(radius)[j].0)
    {
      GridOrderAt(radius, i, j);
    }
  }

  /** A tile is drawn exactly for the offsets whose fetch succeeds, each where its own offset
      puts it: a missing tile is skipped and moves no other tile. */
  lemma {:induction false} PlacedTilesMembers(req: MapRequest, present: TileKey -> bool, offsets: seq<(int, int)>)
    ensures forall t :: t in PlacedTiles(req, present, offsets) <==>
              exists o | o in offsets :: t == PlaceTile(req, o.0, o.1) && present(t.key)
  {
    if offsets != [] {
      var init := offsets[..|offsets| - 1];
      var last := offsets[|offsets| - 1];
      PlacedTilesMembers(req, present, init);
      assert offsets == init + [last];
      forall t ensures t in PlacedTiles(req, present, offsets) <==>
                       exists o | o in offsets :: t == PlaceTile(req, o.0, o.1) && present(t.key)
      {
        if t in PlacedTiles(req, present, offsets) && t !in PlacedTiles(req, present, init) {
          assert t == PlaceTile(req, last.0, last.1);
        }
        if o :| o in offsets && t == PlaceTile(req, o.0, o.1) && present(t.key) {
          if o != last {
            assert o in init;
          }
        }
      }
    }
  }

  /** A tile at grid offset (dx, dz) has column radius + dx and row radius - dz in
      [0, 2 * radius], lies inside the canvas without touching the padding, and shows region
      (region_x - radius + column, region_z - radius + row). */
  lemma PlaceTileBounds(req: MapRequest, dx: int, dz: int)
    requires req.radius >= 0
    requires -req.radius <= dx <= req.radius && -req.radius <= dz <= req.radius
    ensures var t := PlaceTile(req, dx, dz);
            var col := (t.x - Offset(req.radius)) / TileSize;
            var row := (t.y - Offset(req.radius)) / TileSize;
            && 0 <= col <= 2 * req.radius && 0 <= row <= 2 * req.radius
            && t.x == Offset(req.radius) + TileSize * col && t.y == Offset(req.radius) + TileSize * row
            && Offset(req.radius) <= t.x && t.x + TileSize <= CanvasSize(req.radius) - Offset(req.radius)
            && Offset(req.radius) <= t.y && t.y + TileSize <= CanvasSize(req.radius) - Offset(req.radius)
            && t.key.regionX == Region(req.x) - req.radius + col
            && t.key.regionZ == Region(req.z) - req.radius + row
  {
    var t := PlaceTile(req, dx, dz);
    var r := req.radius;
    DivUnique(t.x - Offset(r), TileSize, r + dx, 0);
    DivUnique(t.y - Offset(r), TileSize, r - dz, 0);
  }

  /** Tiles at two different grid offsets do not overlap. */
  lemma PlacedTilesDisjoint(req: MapRequest, dx1: int, dz1: int, dx2: int, dz2: int)
    requires (dx1, dz1) != (dx2, dz2)
    ensures var (t1, t2) := (PlaceTile(req, dx1, dz1), PlaceTile(req, dx2, dz2));
            t1.x + TileSize <= t2.x || t2.x + TileSize <= t1.x ||
            t1.y + TileSize <= t2.y || t2.y + TileSize <= t1.y
  {
  }

  /** The end of one row of the grid is the start of the next. */
  lemma GridRowEnd(radius: int, dz: int)
    requires radius >= 0 && dz >= -radius
    ensures GridIndex(radius, radius + 1, dz) == GridIndex(radius, -radius, dz + 1)
    ensures GridIndex(radius, -radius, radius + 1) == TileCount(radius) * TileCount(radius)
  {
    RowStartIsProduct(radius, radius + 1 + radius);
  }

  /** The tiles placed from the first k offsets of the visiting order (from all of them once
      k passes the end). */
  ghost function PlacedPrefix(req: MapRequest, present: TileKey -> bool, k: int): seq<Tile> {
    var grid := GridOffsets(req.radius);
    if 0 <= k <= |grid| then PlacedTiles(req, present, grid[..k]) else PlacedTiles(req, present, grid)
  }

  /** Visiting (dx, dz) in loop order extends the placed tiles by that offset's tile, if any. */
  lemma VisitStep(req: MapRequest, present: TileKey -> bool, dx: int, dz: int)
    requires req.radius >= 0
    requires -req.radius <= dx <= req.radius && -req.radius <= dz <= req.radius
    ensures var t := PlaceTile(req, dx, dz);
            PlacedPrefix(req, present, GridIndex(req.radius, dx + 1, dz)) ==
            PlacedPrefix(req, present, GridIndex(req.radius, dx, dz)) + (if present(t.key) then [t] else [])
  {
    var grid := GridOffsets(req.radius);
    var k := GridIndex(req.radius, dx, dz);
    GridIndexInverse(req.radius, dx, dz);
    GridOffsetAt(req.radius, k);
    assert GridIndex(req.radius, dx + 1, dz) == k + 1;
    assert grid[..k + 1][..k] == grid[..k];
    assert grid[..k + 1][k] == (dx, dz);
  }

  /** Before the first offset nothing is placed; after the last row every offset has been. */
  lemma VisitBounds(req: MapRequest, present: TileKey -> bool)
    requires req.radius >= 0
    ensures PlacedPrefix(req, present, GridIndex(req.radius, -req.radius, -req.radius)) == []
    ensures PlacedPrefix(req, present, GridIndex(req.radius, -req.radius, req.radius + 1)) ==
            PlacedTiles(req, present, GridOffsets(req.radius))
  {
    var grid := GridOffsets(req.radius);
    GridRowEnd(req.radius, req.radius);
    assert grid[..0] == [];
    assert grid[..|grid|] == grid;
  }

  /** What `generate_map` hands to the image merge: the canvas size and the layers in order. */
  datatype Layer = Background(x: int, y: int) | TileLayer(tile: Tile)

  datatype MapPlan = MapPlan(size: int, layers: seq<Layer>)

  function TileLayers(tiles: seq<Tile>): (r: seq<Layer>)
    ensures |r| == |tiles|
    ensures forall i | 0 <= i < |tiles| :: r[i] == TileLayer(tiles[i])
  {
    if tiles == [] then [] else TileLayers(tiles[..|tiles| - 1]) + [TileLayer(tiles[|tiles| - 1])]
  }

  /** The tile of offset (dx, dz) from the values `generate_map` computes before its loops. */
  lemma PlaceTileFrom(req: MapRequest, renderer: string, regionX: int, regionZ: int, offset: int, dx: int, dz: int)
    requires renderer == Renderer(req.world) && regionX == Region(req.x) && regionZ == Region(req.z)
    requires offset == Offset(req.radius)
    ensures PlaceTile(req, dx, dz) ==
            Tile(TileKey(req.world, renderer, regionX + dx, regionZ - dz),
                 offset + TileSize * (req.radius + dx), offset + TileSize * (req.radius - dz))
  {
  }

  /** The inner loop of `generate_map`: one row dz of the grid, dx from -radius to radius, each
      fetched tile pushed in turn. The values computed before the loops come in as parameters. */
  method VisitRow(req: MapRequest, present: TileKey -> bool, renderer: string, regionX: int, regionZ: int,
                  offset: int, dz: int, tiles0: seq<Tile>)
    returns (tiles: seq<Tile>)
    requires req.radius >= 0 && -req.radius <= dz <= req.radius
    requires renderer == Renderer(req.world) && regionX == Region(req.x) && regionZ == Region(req.z)
    requires offset == Offset(req.radius)
    requires tiles0 == PlacedPrefix(req, present, GridIndex(req.radius, -req.radius, dz))
    ensures tiles == PlacedPrefix(req, present, GridIndex(req.radius, -req.radius, dz + 1))
  {
    var radius := req.radius;
    tiles := tiles0;
    var dx := -radius;
    while dx <= radius
      invariant -radius <= dx <= radius + 1
      invariant tiles == PlacedPrefix(req, present, GridIndex(radius, dx, dz))
      decreases radius - dx
    {
      VisitStep(req, present, dx, dz);
      PlaceTileFrom(req, renderer, regionX, regionZ, offset, dx, dz);
      var key := TileKey(req.world, renderer, regionX + dx, regionZ - dz);
      if present(key) {
        var col := radius + dx;
        var row := radius - dz;
        var tile := Tile(key, offset + TileSize * col, offset + TileSize * row);
        tiles := tiles + [tile];
      }
      dx := dx + 1;
    }
    GridRowEnd(radius, dz);
  }

  /** `generate_map` without the image work: the fetch of a tile is the oracle `present`, which
      says whether the tile server answered with an image. */
  method GenerateMap(req: MapRequest, present: TileKey -> bool) returns (plan: MapPlan)
    ensures plan.size == CanvasSize(req.radius)
    ensures |plan.layers| >= 1 && plan.layers[0] == Background(0, 0)
    ensures plan.layers[1..] == TileLayers(PlacedTiles(req, present, GridOffsets(req.radius)))
  {
    var radius := req.radius;
    var tileCount := radius * 2 + 1;
    var offset := 32 * tileCount;
    var size := TileSize * tileCount + offset * 2;
    var renderer := Renderer(req.world);
    var regionX := ShiftRight(ShiftRight(req.x, 4), 5);
    var regionZ := ShiftRight(ShiftRight(req.z, 4), 5);

    var tiles: seq<Tile> := [];
    if radius >= 0 {
      VisitBounds(req, present);
    }
    var dz := -radius;
    while dz <= radius
      invariant -radius <= dz && (dz <= radius + 1 || dz == -radius)
      invariant radius >= 0 ==> tiles == PlacedPrefix(req, present, GridIndex(radius, -radius, dz))
      invariant radius < 0 ==> tiles == []
      decreases radius - dz
    {
      tiles := VisitRow(req, present, renderer, regionX, regionZ, offset, dz, tiles);
      dz := dz + 1;
    }
    plan := MapPlan(size, [Background(0, 0)] + TileLayers(tiles));
  }
}
