/**
 * The player (class Player of game/entities.py): a position in half-pixels,
 * a speed, bomb capacity and range, lives and a facing direction.
 */
module Players {
  import opened Constants
  import Tiles

  /** Start speed in half-pixels per frame, and the cap of the speed power-up (4 pixels). */
  const StartSpeed: int := PlayerSpeed * SubPixel
  const MaxSpeed: int := 4 * SubPixel

  /**
   * The facing after a successful move by (dx, dy): a horizontal component
   * wins; with none, the vertical one decides; with neither, it is kept.
   */
  function FacingAfter(dx: int, dy: int, d: Direction): (r: Direction)
    ensures dx != 0 ==> r.Dy() == 0 && r.Dx() * dx > 0
    ensures dx == 0 && dy != 0 ==> r.Dx() == 0 && r.Dy() * dy > 0
    ensures dx == 0 && dy == 0 ==> r == d
  {
    if dx > 0 then Right
    else if dx < 0 then Left
    else if dy > 0 then Down
    else if dy < 0 then Up
    else d
  }

  /** The three quantities power-ups raise. */
  datatype Stats = Stats(maxBombs: int, bombRange: int, speed: int)

  class Player {
    /** Top-left corner of the player's box, in half-pixels. */
    var x: int
    var y: int
    const character: Character
    /** Half-pixels per step. */
    var speed: int
    var maxBombs: int
    var bombRange: int
    var lives: int
    var isMoving: bool
    var direction: Direction

    /** A player standing on grid cell (gx, gy). */
    constructor (gx: int, gy: int, character: Character)
      ensures x == gx * Tile && y == gy * Tile
      ensures this.character == character
      ensures speed == StartSpeed && maxBombs == 1 && bombRange == 2 && lives == 3
      ensures !isMoving && direction == Down
    {
      x := gx * Tile;
      y := gy * Tile;
      this.character := character;
      speed := StartSpeed;
      maxBombs := 1;
      bombRange := 2;
      lives := 3;
      isMoving := false;
      direction := Down;
    }

    /**
     * One step by (dx, dy) times the speed on grid g: taken exactly when the
     * player movement test accepts the target; a refused step changes only
     * `isMoving`.
     */
    method Move(dx: int, dy: int, g: Tiles.Grid)
      requires Tiles.WellFormed(g)
      modifies this
      ensures var nx, ny := old(x) + dx * old(speed), old(y) + dy * old(speed);
        if Tiles.CanPlayerMoveTo(g, nx, ny) then
          x == nx && y == ny && isMoving && direction == FacingAfter(dx, dy, old(direction))
        else
          x == old(x) && y == old(y) && !isMoving && direction == old(direction)
      ensures isMoving ==> Tiles.InsideField(x, y)
      ensures speed == old(speed) && maxBombs == old(maxBombs) && bombRange == old(bombRange)
      ensures lives == old(lives)
    {
      var newX := x + dx * speed;
      var newY := y + dy * speed;
      if Tiles.CanPlayerMoveTo(g, newX, newY) {
        x, y := newX, newY;
        isMoving := true;
        if dx > 0 {
          direction := Right;
        } else if dx < 0 {
          direction := Left;
        } else if dy > 0 {
          direction := Down;
        } else if dy < 0 {
          direction := Up;
        }
      } else {
        isMoving := false;
      }
    }

    /** The grid cell under the player's centre. */
    function GetGridPos(): (cell: (int, int))
      reads this
      ensures cell.0 * Tile <= x + Tile / 2 < cell.0 * Tile + Tile
      ensures cell.1 * Tile <= y + Tile / 2 < cell.1 * Tile + Tile
    {
      (Tiles.RoundedCell(x), Tiles.RoundedCell(y))
    }

    function GetStats(): Stats
      reads this
    {
      Stats(maxBombs, bombRange, speed)
    }

    /** Everything but the stats: position, lives, facing and motion. */
    function Pose(): (int, int, int, Direction, bool)
      reads this
    {
      (x, y, lives, direction, isMoving)
    }

    function GetRect(): Tiles.Rect
      reads this
    {
      Tiles.EntityRect(x, y)
    }
  }

  /** A player placed on a cell reports that very cell as its grid position. */
  lemma SpawnCellIsGridPos(gx: int, gy: int)
    ensures Tiles.RoundedCell(gx * Tile) == gx && Tiles.RoundedCell(gy * Tile) == gy
  {
    Tiles.RoundedCellOfCorner(gx);
    Tiles.RoundedCellOfCorner(gy);
  }
}
