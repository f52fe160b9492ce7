/**
 * The logic of the sprite manager (game/sprites.py): the collision grid it
 * generates once at start-up, its lookups, the walking-animation frame
 * arithmetic and the direction mapping that picks a character sprite.
 * Images themselves are not modelled; a sprite sheet is described by which
 * idle images exist and how many walking frames each direction has.
 */
module Sprites {
  import opened Options
  import opened Constants
  import Tiles

  /**
   * Collision codes. They are NOT the TileType codes (where WALL is 1 and
   * BRICK is 2): 0 is free space, 1 a destructible block, 2 a structural wall.
   */
  const FreeCode: int := 0
  const BrickCode: int := 1
  const WallCode: int := 2

  type CollisionGrid = seq<seq<int>>

  predicate CollisionShape(g: CollisionGrid)
  {
    |g| == Rows && forall row :: 0 <= row < |g| ==> |g[row]| == Cols
  }

  predicate IsBorder(col: int, row: int)
  {
    col == 0 || col == Cols - 1 || row == 0 || row == Rows - 1
  }

  /** Odd column and odd row: the fixed pillar lattice of the generator. */
  predicate IsStructural(col: int, row: int)
  {
    col % 2 == 1 && row % 2 == 1
  }

  /** The two spawn corners kept free: top-left 3x3 and bottom-right 3x3. */
  predicate IsSpawnArea(col: int, row: int)
  {
    (col <= 2 && row <= 2) || (col >= Cols - 3 && row >= Rows - 3)
  }

  /**
   * The code the generator writes at (col, row); `brick` is the outcome of
   * the draw `random.random() < 0.6`, consulted only for the remaining cells.
   */
  function SimpleCollisionCode(col: int, row: int, brick: bool): (c: int)
    ensures c == FreeCode || c == BrickCode || c == WallCode
    ensures IsBorder(col, row) || IsStructural(col, row) ==> c == WallCode
    ensures !IsBorder(col, row) && !IsStructural(col, row) && IsSpawnArea(col, row) ==> c == FreeCode
    ensures !IsBorder(col, row) && !IsStructural(col, row) && !IsSpawnArea(col, row) ==>
      (c == BrickCode <==> brick) && c != WallCode
  {
    if IsBorder(col, row) || IsStructural(col, row) then WallCode
    else if IsSpawnArea(col, row) then FreeCode
    else if brick then BrickCode
    else FreeCode
  }

  /** The whole grid the generator produces from a brick oracle indexed by cell. */
  function SimpleCollisionGrid(brick: (int, int) -> bool): (g: CollisionGrid)
    ensures CollisionShape(g)
  {
    seq(Rows, row => seq(Cols, col => SimpleCollisionCode(col, row, brick(col, row))))
  }

  /** Every generated value is one of the three collision codes, at the code its cell calls for. */
  lemma SimpleCollisionGridCells(brick: (int, int) -> bool, col: int, row: int)
    requires 0 <= row < Rows && 0 <= col < Cols
    ensures SimpleCollisionGrid(brick)[row][col] == SimpleCollisionCode(col, row, brick(col, row))
    ensures SimpleCollisionGrid(brick)[row][col] in {FreeCode, BrickCode, WallCode}
  {
  }

  /**
   * The player's spawn cell (1, 2) and the bottom-right enemy corner
   * (Cols - 2, Rows - 2) are free whatever the draws; the other two enemy
   * corners (Cols - 2, 1) and (1, Rows - 2) lie outside the spawn areas, so a
   * draw can put a brick there.
   */
  lemma SpawnCorners(brick: (int, int) -> bool)
    ensures SimpleCollisionGrid(brick)[2][1] == FreeCode
    ensures SimpleCollisionGrid(brick)[Rows - 2][Cols - 2] == FreeCode
    ensures brick(Cols - 2, 1) ==> SimpleCollisionGrid(brick)[1][Cols - 2] == BrickCode
    ensures brick(1, Rows - 2) ==> SimpleCollisionGrid(brick)[Rows - 2][1] == BrickCode
  {
    SimpleCollisionGridCells(brick, 1, 2);
    SimpleCollisionGridCells(brick, Cols - 2, Rows - 2);
    SimpleCollisionGridCells(brick, Cols - 2, 1);
    SimpleCollisionGridCells(brick, 1, Rows - 2);
  }

  /** Translation of a collision code into a tile kind: 0 free, 1 brick, anything else wall. */
  function TileTypeOfCollision(c: int): (t: TileType)
    ensures t == Empty <==> c == FreeCode
    ensures t == Brick <==> c == BrickCode
    ensures t == Wall <==> c != FreeCode && c != BrickCode
  {
    if c == FreeCode then Empty
    else if c == BrickCode then Brick
    else Wall
  }

  /** The collision code at a cell; 2 outside the grid or when no grid exists yet. */
  function CollisionAt(g: Option<CollisionGrid>, x: int, y: int): (c: int)
    requires g.Some? ==> CollisionShape(g.value)
    ensures !Tiles.InBounds(x, y) || g.None? ==> c == WallCode
    ensures Tiles.InBounds(x, y) && g.Some? ==> c == g.value[y][x]
  {
    if Tiles.InBounds(x, y) && g.Some? then g.value[y][x] else WallCode
  }

  /** Animation speed of every character sheet, in frames per second. */
  const AnimationSpeed: int := 8
  /** Milliseconds per walking frame: 1000 // 8 = 125. */
  const FrameDuration: int := 1000 / AnimationSpeed

  /** The walking frame shown at time t for an animation of `count` frames. */
  function FrameIndex(t: int, count: int): (i: int)
    requires count > 0
    ensures 0 <= i < count
  {
    (t / FrameDuration) % count
  }

  /** The frame advances by one, cyclically, every FrameDuration milliseconds. */
  lemma FrameAdvances(t: int, count: int)
    requires count > 0
    ensures FrameIndex(t + FrameDuration, count) == (FrameIndex(t, count) + 1) % count
  {
    var q := t / FrameDuration;
    assert (t + FrameDuration) / FrameDuration == q + 1;
    ModSucc(q, count);
  }

  lemma ModSucc(q: int, n: int)
    requires n > 0
    ensures (q + 1) % n == (q % n + 1) % n
  {
    var d, r := q / n, q % n;
    if r + 1 < n {
      DivModUnique(q + 1, n, d, r + 1);
      DivModUnique(r + 1, n, 0, r + 1);
    } else {
      DivModUnique(q + 1, n, d + 1, 0);
      DivModUnique(r + 1, n, 1, 0);
    }
  }

  /** Euclidean quotient and remainder are the only k, x with a == k * n + x and 0 <= x < n. */
  lemma DivModUnique(a: int, n: int, k: int, x: int)
    requires n > 0 && a == k * n + x && 0 <= x < n
    ensures a % n == x && a / n == k
  {
    var k2, x2 := a / n, a % n;
    if k < k2 {
      MulMonotone(k + 1, k2, n);
    } else if k2 < k {
      MulMonotone(k2 + 1, k, n);
    }
  }

  lemma MulMonotone(a: int, b: int, n: int)
    requires a <= b && n > 0
    ensures a * n <= b * n
  {
  }

  /** The facing name of a direction code, `{0: 'up', 1: 'right', 2: 'down', 3: 'left'}`. */
  function FacingOfCode(c: int): (d: Option<Direction>)
    ensures d.Some? <==> 0 <= c < 4
    ensures d.Some? ==> d.value.Code() == c
  {
    if 0 <= c < 4 then Some(DirectionOfCode(c)) else None
  }

  /**
   * A character's sprite sheet: the directions having an idle image, the
   * number of walking frames per direction, and the animation state
   * (walking or idle, facing, current frame).
   */
  datatype Sheet = Sheet(idle: set<Direction>, walkFrames: map<Direction, nat>,
                         walking: bool, facing: Direction, frame: int)
  {
    predicate CanWalk()
    {
      facing in walkFrames && walkFrames[facing] > 0
    }
  }

  /** A freshly loaded sheet: idle, facing down, frame 0. */
  function FreshSheet(idle: set<Direction>, walkFrames: map<Direction, nat>): Sheet
  {
    Sheet(idle, walkFrames, false, Down, 0)
  }

  /** The image chosen for a character. */
  datatype Sprite = IdleImage(facing: Direction) | WalkImage(facing: Direction, index: int) | NoImage

  /** One sheet after the animation clock reads `now`: only a walking, animated sheet changes frame. */
  function Animated(s: Sheet, now: int): (r: Sheet)
    ensures r == s.(frame := r.frame)
    ensures s.walking && s.CanWalk() ==> 0 <= r.frame < s.walkFrames[s.facing]
    ensures !(s.walking && s.CanWalk()) ==> r == s
  {
    if s.walking && s.CanWalk() then s.(frame := FrameIndex(now, s.walkFrames[s.facing])) else s
  }

  /**
   * Sprite selection for a character sheet: moving switches to walking and
   * takes the facing from a valid direction code, standing still switches to
   * idle. The result is the new sheet and the image to draw.
   */
  function DirectionalSprite(s: Sheet, isMoving: bool, direction: Option<int>): (r: (Sheet, Sprite))
    ensures r.0.walking == isMoving
    ensures r.0.idle == s.idle && r.0.walkFrames == s.walkFrames && r.0.frame == s.frame
    ensures r.0.facing == (if isMoving && direction.Some? && 0 <= direction.value < 4
                           then DirectionOfCode(direction.value) else s.facing)
    ensures r.1.WalkImage? ==>
              isMoving && r.1.facing == r.0.facing && r.0.CanWalk() && 0 <= r.1.index < s.walkFrames[r.1.facing]
    ensures r.1.IdleImage? ==> r.1.facing in s.idle
    ensures isMoving && r.0.CanWalk() ==> r.1.WalkImage?
  {
    var facing := if isMoving && direction.Some? && FacingOfCode(direction.value).Some?
                  then FacingOfCode(direction.value).value else s.facing;
    var t := s.(walking := isMoving, facing := facing);
    var sprite :=
      if !isMoving then
        if facing in s.idle then IdleImage(facing)
        else if Down in s.idle then IdleImage(Down)
        else NoImage
      else if t.CanWalk() then WalkImage(facing, s.frame % s.walkFrames[facing])
      else if facing in s.idle then IdleImage(facing)
      else NoImage;
    (t, sprite)
  }

  class SpriteManager {
    /** None until the grid is generated (the `hasattr` test of the lookups). */
    var collisionGrid: Option<CollisionGrid>
    var sheets: map<Character, Sheet>

    predicate Valid()
      reads this
    {
      collisionGrid.Some? ==> CollisionShape(collisionGrid.value)
    }

    /**
     * Loading the images yields, per character, the directions with an idle
     * image and the walking frame counts (a parameter here); the collision
     * grid is then generated from the brick oracle.
     */
    constructor (loaded: map<Character, (set<Direction>, map<Direction, nat>)>, brick: (int, int) -> bool)
      ensures Valid()
      ensures sheets == map c | c in loaded :: FreshSheet(loaded[c].0, loaded[c].1)
      ensures collisionGrid == Some(SimpleCollisionGrid(brick))
    {
      sheets := map c | c in loaded :: FreshSheet(loaded[c].0, loaded[c].1);
      collisionGrid := None;
      new;
      GenerateSimpleCollisionGrid(brick);
    }

    /** Builds the grid row by row, one appended code per column. */
    method GenerateSimpleCollisionGrid(brick: (int, int) -> bool)
      modifies this
      ensures Valid()
      ensures collisionGrid == Some(SimpleCollisionGrid(brick))
      ensures sheets == old(sheets)
    {
      var grid: CollisionGrid := [];
      for row := 0 to Rows
        invariant |grid| == row
        invariant forall j :: 0 <= j < row ==> grid[j] == SimpleCollisionGrid(brick)[j]
      {
        var collisionRow: seq<int> := [];
        for col := 0 to Cols
          invariant |collisionRow| == col
          invariant forall i :: 0 <= i < col ==> collisionRow[i] == SimpleCollisionCode(i, row, brick(i, row))
        {
          collisionRow := collisionRow + [SimpleCollisionCode(col, row, brick(col, row))];
        }
        assert collisionRow == SimpleCollisionGrid(brick)[row];
        grid := grid + [collisionRow];
      }
      assert grid == SimpleCollisionGrid(brick);
      collisionGrid := Some(grid);
    }

    /** The collision code at a cell, read from the generated grid. */
    function GetCollisionAt(x: int, y: int): (c: int)
      reads this
      requires Valid()
      ensures !Tiles.InBounds(x, y) || collisionGrid.None? ==> c == WallCode
      ensures Tiles.InBounds(x, y) && collisionGrid.Some? ==> c == collisionGrid.value[y][x]
    {
      CollisionAt(collisionGrid, x, y)
    }

    /** The tile kind at a cell, read through the collision code. */
    function GetTileTypeAt(x: int, y: int): (t: TileType)
      reads this
      requires Valid()
      ensures t == Empty || t == Brick || t == Wall
      ensures !Tiles.InBounds(x, y) ==> t == Wall
      ensures t == Empty <==> GetCollisionAt(x, y) == FreeCode
      ensures t == Brick <==> GetCollisionAt(x, y) == BrickCode
    {
      TileTypeOfCollision(GetCollisionAt(x, y))
    }

    /** Advances the walking frame of every listed character's sheet to the clock reading `now`. */
    method UpdateAnimations(now: int)
      modifies this
      ensures collisionGrid == old(collisionGrid)
      ensures sheets.Keys == old(sheets).Keys
      ensures forall c :: c in sheets ==> sheets[c] == Animated(old(sheets)[c], now)
    {
      for i := 0 to |AllCharacters|
        invariant collisionGrid == old(collisionGrid)
        invariant sheets.Keys == old(sheets).Keys
        invariant forall c :: c in sheets ==>
          sheets[c] == if c in AllCharacters[..i] then Animated(old(sheets)[c], now) else old(sheets)[c]
      {
        var c := AllCharacters[i];
        if c in sheets && sheets[c].walking && sheets[c].CanWalk() {
          var s := sheets[c];
          sheets := sheets[c := s.(frame := FrameIndex(now, s.walkFrames[s.facing]))];
        }
      }
      forall c | c in sheets ensures c in AllCharacters {
        AllCharactersListed(c);
      }
    }
  }
}
