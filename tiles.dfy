/**
 * The read-only queries of the tile grid (game/game_map.py): bounds,
 * walkability, the two straight-line visibility tests and the two rectangle
 * movement tests. They read only the grid, so they are functions of its value;
 * the class GameMap (module Maps) owns the grid and changes it.
 */
module Tiles {
  import opened Constants

  /** Cells are addressed grid[y][x]. */
  type Grid = seq<seq<TileType>>

  predicate WellFormed(g: Grid)
  {
    |g| == Rows && forall y :: 0 <= y < |g| ==> |g[y]| == Cols
  }

  predicate InBounds(x: int, y: int)
  {
    0 <= x < Cols && 0 <= y < Rows
  }

  /** The cell kind at (x, y); everything outside the grid reads as a wall. */
  function GetTile(g: Grid, x: int, y: int): (t: TileType)
    requires WellFormed(g)
    ensures !InBounds(x, y) ==> t == Wall
  {
    if InBounds(x, y) then g[y][x] else Wall
  }

  /** Walls and bricks stop movement, sight and blasts. */
  predicate IsBlocking(t: TileType)
  {
    t == Wall || t == Brick
  }

  predicate IsWalkableKind(t: TileType)
  {
    t == Empty || t == PowerupBomb || t == PowerupRange || t == PowerupSpeed
  }

  function IsWalkable(g: Grid, x: int, y: int): (r: bool)
    requires WellFormed(g)
    ensures r ==> InBounds(x, y) && !IsBlocking(GetTile(g, x, y))
    ensures r <==> InBounds(x, y) && IsWalkableKind(g[y][x])
  {
    IsWalkableKind(GetTile(g, x, y))
  }

  /** The grid after `set_tile`: one cell replaced, or nothing when out of bounds. */
  function SetCell(g: Grid, x: int, y: int, t: TileType): (r: Grid)
    requires WellFormed(g)
    ensures WellFormed(r)
    ensures forall j, i :: 0 <= j < Rows && 0 <= i < Cols ==>
      r[j][i] == if i == x && j == y then t else g[j][i]
    ensures !InBounds(x, y) ==> r == g
  {
    if InBounds(x, y) then g[y := g[y][x := t]] else g
  }

  /** Two well-formed grids agreeing on every cell are equal. */
  lemma GridExtensionality(a: Grid, b: Grid)
    requires WellFormed(a) && WellFormed(b)
    requires forall j, i :: 0 <= j < Rows && 0 <= i < Cols ==> a[j][i] == b[j][i]
    ensures a == b
  {
    forall j | 0 <= j < Rows ensures a[j] == b[j] {
      assert forall i :: 0 <= i < Cols ==> a[j][i] == b[j][i];
    }
  }

  /** The grid whose cell (x, y) is f(x, y, old cell): the result of one pass over every cell. */
  function MapGrid(g: Grid, f: (int, int, TileType) -> TileType): (r: Grid)
    requires WellFormed(g)
    ensures WellFormed(r)
    ensures forall j, i :: 0 <= j < Rows && 0 <= i < Cols ==> r[j][i] == f(i, j, g[j][i])
  {
    var r := seq(Rows, y => seq(Cols, x => f(x, y, GetTile(g, x, y))));
    assert forall j, i :: 0 <= j < Rows && 0 <= i < Cols ==> r[j][i] == f(i, j, GetTile(g, i, j));
    r
  }

  function Min(a: int, b: int): int { if a <= b then a else b }

  function Max(a: int, b: int): int { if a <= b then b else a }

  /** The grid cell holding a coordinate, `int(p // TILE_SIZE)` (floor division). */
  function CellOf(p: int): (c: int)
    ensures c * Tile <= p < c * Tile + Tile
  {
    p / Tile
  }

  /** The cell under an entity's centre, `int((p + TILE_SIZE // 2) // TILE_SIZE)`. */
  function RoundedCell(p: int): (c: int)
    ensures c * Tile <= p + Tile / 2 < c * Tile + Tile
  {
    (p + Tile / 2) / Tile
  }

  lemma RoundedCellOfCorner(c: int)
    ensures RoundedCell(c * Tile) == c && CellOf(c * Tile) == c
  {
  }

  /** No cell of column x with lo <= y < hi is a wall or a brick (a scan with early exit). */
  function ColumnClear(g: Grid, x: int, lo: int, hi: int): (r: bool)
    requires WellFormed(g)
    decreases hi - lo
    ensures r <==> forall y :: lo <= y < hi ==> !IsBlocking(GetTile(g, x, y))
  {
    if lo >= hi then true
    else if IsBlocking(GetTile(g, x, lo)) then false
    else ColumnClear(g, x, lo + 1, hi)
  }

  /** No cell of row y with lo <= x < hi is a wall or a brick. */
  function RowClear(g: Grid, y: int, lo: int, hi: int): (r: bool)
    requires WellFormed(g)
    decreases hi - lo
    ensures r <==> forall x :: lo <= x < hi ==> !IsBlocking(GetTile(g, x, y))
  {
    if lo >= hi then true
    else if IsBlocking(GetTile(g, lo, y)) then false
    else RowClear(g, y, lo + 1, hi)
  }

  /**
   * Line of sight between two positions: always clear within one cell and
   * between positions in different rows and columns; otherwise clear iff no
   * cell of the straight segment, both end cells included, blocks.
   */
  function HasClearLineOfSight(g: Grid, x1: int, y1: int, x2: int, y2: int): (r: bool)
    requires WellFormed(g)
    ensures CellOf(x1) == CellOf(x2) && CellOf(y1) == CellOf(y2) ==> r
    ensures CellOf(x1) != CellOf(x2) && CellOf(y1) != CellOf(y2) ==> r
    ensures CellOf(x1) == CellOf(x2) && CellOf(y1) != CellOf(y2) ==>
      (r <==> forall y :: Min(CellOf(y1), CellOf(y2)) <= y <= Max(CellOf(y1), CellOf(y2)) ==>
                 !IsBlocking(GetTile(g, CellOf(x1), y)))
    ensures CellOf(y1) == CellOf(y2) && CellOf(x1) != CellOf(x2) ==>
      (r <==> forall x :: Min(CellOf(x1), CellOf(x2)) <= x <= Max(CellOf(x1), CellOf(x2)) ==>
                 !IsBlocking(GetTile(g, x, CellOf(y1))))
  {
    var gx1, gy1, gx2, gy2 := CellOf(x1), CellOf(y1), CellOf(x2), CellOf(y2);
    if gx1 == gx2 && gy1 == gy2 then true
    else if gx1 == gx2 then ColumnClear(g, gx1, Min(gy1, gy2), Max(gy1, gy2) + 1)
    else if gy1 == gy2 then RowClear(g, gy1, Min(gx1, gx2), Max(gx1, gx2) + 1)
    else true
  }

  /**
   * Whether a blast at one position can reach another: always within one
   * cell, never between positions in different rows and columns; otherwise
   * iff no cell strictly between the two blocks (the end cells are not looked at).
   */
  function CanExplosionReachPlayer(g: Grid, ex: int, ey: int, px: int, py: int): (r: bool)
    requires WellFormed(g)
    ensures CellOf(ex) == CellOf(px) && CellOf(ey) == CellOf(py) ==> r
    ensures CellOf(ex) != CellOf(px) && CellOf(ey) != CellOf(py) ==> !r
    ensures CellOf(ex) == CellOf(px) && CellOf(ey) != CellOf(py) ==>
      (r <==> forall y :: Min(CellOf(ey), CellOf(py)) < y < Max(CellOf(ey), CellOf(py)) ==>
                 !IsBlocking(GetTile(g, CellOf(ex), y)))
    ensures CellOf(ey) == CellOf(py) && CellOf(ex) != CellOf(px) ==>
      (r <==> forall x :: Min(CellOf(ex), CellOf(px)) < x < Max(CellOf(ex), CellOf(px)) ==>
                 !IsBlocking(GetTile(g, x, CellOf(ey))))
  {
    var gx1, gy1, gx2, gy2 := CellOf(ex), CellOf(ey), CellOf(px), CellOf(py);
    if gx1 == gx2 && gy1 == gy2 then true
    else if gx1 == gx2 then ColumnClear(g, gx1, Min(gy1, gy2) + 1, Max(gy1, gy2))
    else if gy1 == gy2 then RowClear(g, gy1, Min(gx1, gx2) + 1, Max(gx1, gx2))
    else false
  }

  /** On a shared row or column, clear sight (end cells included) implies a blast can reach. */
  lemma SightImpliesReach(g: Grid, x1: int, y1: int, x2: int, y2: int)
    requires WellFormed(g)
    requires CellOf(x1) == CellOf(x2) || CellOf(y1) == CellOf(y2)
    requires HasClearLineOfSight(g, x1, y1, x2, y2)
    ensures CanExplosionReachPlayer(g, x1, y1, x2, y2)
  {
  }

  /** A blast's reach never depends on what its two end cells hold. */
  lemma ReachIgnoresEndCells(g: Grid, ex: int, ey: int, px: int, py: int, t1: TileType, t2: TileType)
    requires WellFormed(g)
    ensures var h := SetCell(SetCell(g, CellOf(ex), CellOf(ey), t1), CellOf(px), CellOf(py), t2);
      CanExplosionReachPlayer(h, ex, ey, px, py) == CanExplosionReachPlayer(g, ex, ey, px, py)
  {
    var h := SetCell(SetCell(g, CellOf(ex), CellOf(ey), t1), CellOf(px), CellOf(py), t2);
    var a, b, c, d := CellOf(ex), CellOf(ey), CellOf(px), CellOf(py);
    if a == c && b != d {
      forall y | Min(b, d) < y < Max(b, d)
        ensures GetTile(h, a, y) == GetTile(g, a, y)
      {
      }
    } else if b == d && a != c {
      forall x | Min(a, c) < x < Max(a, c)
        ensures GetTile(h, x, b) == GetTile(g, x, b)
      {
      }
    }
  }

  /** The target must keep a whole tile inside the playing field. */
  predicate InsideField(px: int, py: int)
  {
    0 <= px && 0 <= py && px < (Cols - 1) * Tile && py < (Rows - 1) * Tile
  }

  /** Offset of a mover's far edge: TILE_SIZE - 1 pixels. */
  const RectSpan: int := (TileSize - 1) * SubPixel

  /** The four corners of the mover's tile-sized box, in the source's order. */
  function CornerX(px: int, k: int): int
  {
    if k == 1 || k == 3 then px + RectSpan else px
  }

  function CornerY(py: int, k: int): int
  {
    if k >= 2 then py + RectSpan else py
  }

  /**
   * An enemy's corner test: the corner's cell must be on the grid and not a
   * wall or brick, and a bomb cell is accepted only when it is the cell
   * (cx, cy) the enemy is standing on.
   */
  predicate CornerPasses(g: Grid, qx: int, qy: int, cx: int, cy: int)
    requires WellFormed(g)
  {
    var gx, gy := CellOf(qx), CellOf(qy);
    InBounds(gx, gy) && !IsBlocking(GetTile(g, gx, gy)) &&
    (GetTile(g, gx, gy) == Bomb ==> gx == cx && gy == cy)
  }

  /**
   * Enemy movement test for a box whose top-left corner moves to (px, py)
   * while the enemy stands at (ex, ey).
   */
  function CanMoveTo(g: Grid, px: int, py: int, ex: int, ey: int): (r: bool)
    requires WellFormed(g)
    ensures !InsideField(px, py) ==> !r
    ensures r ==> forall k :: 0 <= k < 4 ==>
      InBounds(CellOf(CornerX(px, k)), CellOf(CornerY(py, k))) &&
      !IsBlocking(GetTile(g, CellOf(CornerX(px, k)), CellOf(CornerY(py, k))))
    ensures r ==> forall k :: 0 <= k < 4 && GetTile(g, CellOf(CornerX(px, k)), CellOf(CornerY(py, k))) == Bomb ==>
      CellOf(CornerX(px, k)) == RoundedCell(ex) && CellOf(CornerY(py, k)) == RoundedCell(ey)
    ensures (InsideField(px, py) && forall k :: 0 <= k < 4 ==>
               InBounds(CellOf(CornerX(px, k)), CellOf(CornerY(py, k))) &&
               !IsBlocking(GetTile(g, CellOf(CornerX(px, k)), CellOf(CornerY(py, k)))) &&
               (GetTile(g, CellOf(CornerX(px, k)), CellOf(CornerY(py, k))) == Bomb ==>
                  CellOf(CornerX(px, k)) == RoundedCell(ex) && CellOf(CornerY(py, k)) == RoundedCell(ey))) ==> r
  {
    InsideField(px, py) &&
    forall k :: 0 <= k < 4 ==> CornerPasses(g, CornerX(px, k), CornerY(py, k), RoundedCell(ex), RoundedCell(ey))
  }

  /** The player's sample points: four corners inset by TILE_SIZE // 8, then the centre. */
  const Margin: int := (TileSize / 8) * SubPixel
  const FarInset: int := (TileSize - TileSize / 8 - 1) * SubPixel
  const Centre: int := (TileSize / 2) * SubPixel

  function SampleX(px: int, k: int): int
  {
    if k == 4 then px + Centre else if k == 1 || k == 3 then px + FarInset else px + Margin
  }

  function SampleY(py: int, k: int): int
  {
    if k == 4 then py + Centre else if k >= 2 then py + FarInset else py + Margin
  }

  /** A player's sample point passes when its cell is on the grid and not a wall or brick. */
  predicate PointFree(g: Grid, qx: int, qy: int)
    requires WellFormed(g)
  {
    InBounds(CellOf(qx), CellOf(qy)) && !IsBlocking(GetTile(g, CellOf(qx), CellOf(qy)))
  }

  /** Player movement test: only walls and bricks refuse; bombs and explosions never do. */
  function CanPlayerMoveTo(g: Grid, px: int, py: int): (r: bool)
    requires WellFormed(g)
    ensures !InsideField(px, py) ==> !r
    ensures r ==> forall k :: 0 <= k < 5 ==>
      InBounds(CellOf(SampleX(px, k)), CellOf(SampleY(py, k))) &&
      GetTile(g, CellOf(SampleX(px, k)), CellOf(SampleY(py, k))) !in {Wall, Brick}
    ensures (InsideField(px, py) && forall k :: 0 <= k < 5 ==>
               InBounds(CellOf(SampleX(px, k)), CellOf(SampleY(py, k))) &&
               !IsBlocking(GetTile(g, CellOf(SampleX(px, k)), CellOf(SampleY(py, k))))) ==> r
  {
    InsideField(px, py) && forall k :: 0 <= k < 5 ==> PointFree(g, SampleX(px, k), SampleY(py, k))
  }

  /** Putting a bomb or an explosion on a free cell never changes where the player may go. */
  lemma PlayerIgnoresBombs(g: Grid, px: int, py: int, x: int, y: int, t: TileType)
    requires WellFormed(g)
    requires !IsBlocking(t) && !IsBlocking(GetTile(g, x, y))
    ensures CanPlayerMoveTo(SetCell(g, x, y, t), px, py) == CanPlayerMoveTo(g, px, py)
  {
    var h := SetCell(g, x, y, t);
    forall qx, qy ensures PointFree(h, qx, qy) == PointFree(g, qx, qy) {
      var i, j := CellOf(qx), CellOf(qy);
      if InBounds(i, j) && i == x && j == y {
        assert GetTile(h, i, j) == t;
      }
    }
  }

  /** A point within one box span of p lies in p's cell or in the far corner's cell. */
  lemma CellWithinSpan(p: int, off: int)
    requires 0 <= off <= RectSpan
    ensures CellOf(p + off) == CellOf(p) || CellOf(p + off) == CellOf(p + RectSpan)
  {
    var a, b, c := CellOf(p), CellOf(p + off), CellOf(p + RectSpan);
    assert a <= b <= c <= a + 1;
  }

  /** Wherever an enemy may move, the player may move too (same bounds, fewer cells, no bombs). */
  lemma EnemyRoomIsPlayerRoom(g: Grid, px: int, py: int, ex: int, ey: int)
    requires WellFormed(g)
    requires CanMoveTo(g, px, py, ex, ey)
    ensures CanPlayerMoveTo(g, px, py)
  {
    forall k | 0 <= k < 5
      ensures PointFree(g, SampleX(px, k), SampleY(py, k))
    {
      var sx, sy := SampleX(px, k), SampleY(py, k);
      CellWithinSpan(px, sx - px);
      CellWithinSpan(py, sy - py);
      var kx := if CellOf(sx) == CellOf(px) then 0 else 1;
      var ky := if CellOf(sy) == CellOf(py) then 0 else 2;
      assert CellOf(CornerX(px, kx + ky)) == CellOf(sx);
      assert CellOf(CornerY(py, kx + ky)) == CellOf(sy);
      assert CornerPasses(g, CornerX(px, kx + ky), CornerY(py, kx + ky), RoundedCell(ex), RoundedCell(ey));
    }
  }

  /** A pygame rectangle, in whole pixels. */
  datatype Rect = Rect(left: int, top: int, width: int, height: int)

  /** `colliderect`: the two rectangles share interior area. */
  predicate Colliding(a: Rect, b: Rect)
  {
    a.left < b.left + b.width && b.left < a.left + a.width &&
    a.top < b.top + b.height && b.top < a.top + a.height
  }

  /** A half-pixel coordinate converted to whole pixels by truncation toward zero. */
  function PixelOf(h: int): (p: int)
    ensures h >= 0 ==> 0 <= p && SubPixel * p <= h < SubPixel * p + SubPixel
  {
    if h >= 0 then h / SubPixel else -((-h) / SubPixel)
  }

  /** The tile-sized collision box of an entity at half-pixel position (x, y). */
  function EntityRect(x: int, y: int): Rect
  {
    Rect(PixelOf(x), PixelOf(y), TileSize, TileSize)
  }

  /** Two tile-sized boxes overlap iff they are less than a tile apart on both axes. */
  lemma EntityRectsCollide(x1: int, y1: int, x2: int, y2: int)
    ensures Colliding(EntityRect(x1, y1), EntityRect(x2, y2)) <==>
      -TileSize < PixelOf(x1) - PixelOf(x2) < TileSize && -TileSize < PixelOf(y1) - PixelOf(y2) < TileSize
  {
  }
}
