/**
 * Screen geometry, tile kinds, directions, characters, game states and timers
 * shared by every part of the game.
 */
module Constants {
  import opened Options

  const ScreenWidth: int := 800
  const ScreenHeight: int := 600
  const TileSize: int := 50

  /** The grid is 800 / 50 = 16 tiles wide (an inline comment in the source says 20). */
  const Cols: int := ScreenWidth / TileSize
  /** The grid is 600 / 50 = 12 tiles high (an inline comment in the source says 15). */
  const Rows: int := ScreenHeight / TileSize

  /** Pixels moved per frame. */
  const PlayerSpeed: int := 2
  const EnemySpeed: int := 1

  /** Fuse of a bomb and lifetime of an explosion, in milliseconds. */
  const BombTimer: int := 3000
  const ExplosionDuration: int := 500
  const ExplosionRange: int := 2

  /**
   * Positions are kept in half-pixels: the speed power-up adds half a pixel
   * per frame, so a player coordinate may be a multiple of 0.5. Every pixel
   * quantity of the source is multiplied by SubPixel in this model.
   */
  const SubPixel: int := 2
  /** One tile, in half-pixels. */
  const Tile: int := TileSize * SubPixel

  lemma GridDimensions()
    ensures Cols == 16 && Rows == 12 && Tile == 100
  {
  }

  /** The kind of a grid cell, with the integer codes of the source. */
  datatype TileType = Empty | Wall | Brick | Bomb | Explosion | PowerupBomb | PowerupRange | PowerupSpeed
  {
    function Code(): (c: int)
      ensures 0 <= c < 8
    {
      match this
      case Empty => 0
      case Wall => 1
      case Brick => 2
      case Bomb => 3
      case Explosion => 4
      case PowerupBomb => 5
      case PowerupRange => 6
      case PowerupSpeed => 7
    }
  }

  /** Decodes an integer tile code; only 0..7 name a tile kind. */
  function TileTypeOfCode(c: int): (t: Option<TileType>)
    ensures t.Some? <==> 0 <= c < 8
    ensures t.Some? ==> t.value.Code() == c
  {
    if c == 0 then Some(Empty)
    else if c == 1 then Some(Wall)
    else if c == 2 then Some(Brick)
    else if c == 3 then Some(Bomb)
    else if c == 4 then Some(Explosion)
    else if c == 5 then Some(PowerupBomb)
    else if c == 6 then Some(PowerupRange)
    else if c == 7 then Some(PowerupSpeed)
    else None
  }

  /** The eight tile codes are distinct: decoding a code gives back its kind. */
  lemma TileCodesDistinct(a: TileType, b: TileType)
    ensures TileTypeOfCode(a.Code()) == Some(a)
    ensures a.Code() == b.Code() ==> a == b
  {
  }

  /** The four directions with the codes 0..3 of the source. */
  datatype Direction = Up | Right | Down | Left
  {
    function Code(): (c: int)
      ensures 0 <= c < 4
    {
      match this
      case Up => 0
      case Right => 1
      case Down => 2
      case Left => 3
    }

    /** The delta table: a unit step along one axis, y growing downwards. */
    function Dx(): (dx: int)
      ensures -1 <= dx <= 1
    {
      match this
      case Up => 0
      case Right => 1
      case Down => 0
      case Left => -1
    }

    function Dy(): (dy: int)
      ensures -1 <= dy <= 1
    {
      match this
      case Up => -1
      case Right => 0
      case Down => 1
      case Left => 0
    }
  }

  /** The direction with a given code, as `random.randint(0, 3)` produces them. */
  function DirectionOfCode(c: int): (d: Direction)
    requires 0 <= c < 4
    ensures d.Code() == c
  {
    if c == 0 then Up else if c == 1 then Right else if c == 2 then Down else Left
  }

  /** Every delta is a unit vector with exactly one non-zero component. */
  lemma DeltasAreUnit(d: Direction)
    ensures (d.Dx() == 0) != (d.Dy() == 0)
    ensures d.Dx() * d.Dx() + d.Dy() * d.Dy() == 1
  {
  }

  /** Directions d and (d + 2) % 4 point opposite ways. */
  lemma OppositeDeltas(d: Direction)
    ensures DirectionOfCode((d.Code() + 2) % 4).Dx() == -d.Dx()
    ensures DirectionOfCode((d.Code() + 2) % 4).Dy() == -d.Dy()
  {
  }

  datatype Character = Finn | Jake | Marceline | PrincessLump | FirePrincess | JellybeanPrincess

  /** The selectable characters, in menu order. */
  const AllCharacters: seq<Character> := [Finn, Jake, Marceline, PrincessLump, FirePrincess, JellybeanPrincess]

  lemma AllCharactersListed(c: Character)
    ensures |AllCharacters| == 6
    ensures c in AllCharacters
    ensures forall i, j :: 0 <= i < j < |AllCharacters| ==> AllCharacters[i] != AllCharacters[j]
  {
  }

  datatype GameState = Start | CharacterSelect | Playing | GameOver | Victory | Paused

  /** The bomb timer outlasts the explosion it turns into. */
  lemma FuseOutlastsExplosion()
    ensures BombTimer > ExplosionDuration > 0
  {
  }
}
