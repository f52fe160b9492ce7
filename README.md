# BOOM na Terra de Ooo — a verified model of the game engine

This project models the engine of a tile-based Bomberman game written in
Python with pygame. Its parts are:

- the 16 x 12 tile grid and the queries on it (walkability, line of sight,
  blast reach, the movement tests of the player and of the enemies);
- level generation, both the collision grid of the sprite manager and the
  fallback generator, with the random power-ups;
- bombs, their explosions and their power-up drops;
- the player, the power-ups and the enemies' decision rules;
- the match bookkeeping of the main game object: the screen state machine,
  lives, score, level, the bomb and explosion lists, and the collision
  checks.

Conventions used throughout:

- **Coordinates are in half-pixels.** One tile of 50 pixels is `Tile = 100`
  units. The 0.5-pixel speed power-up is then an exact integer step. Floor
  division by the tile size is Dafny's `/`, because the divisor is positive.
- **Random draws are parameters.** Every `random.random()`, `randint` and
  `choice` becomes a parameter: a boolean, a direction, an index, or an
  oracle function indexed by cell or slot.
- **The clock is a parameter.** Every reading of `pygame.time.get_ticks()`
  becomes a `now` parameter.

Modules, one per concern:

| file | module | models |
|---|---|---|
| `constants.dfy` | `Constants` | `game/constants.py`: grid size, tile kinds, directions, timers, characters, screens |
| `sprites.dfy` | `Sprites` | `game/sprites.py`: the collision-grid generator and lookups, the frame arithmetic, the facing map |
| `tiles.dfy` | `Tiles` | the read-only grid queries of `game/game_map.py` |
| `player.dfy` | `Players` | `Player` from `game/entities.py` |
| `powerup.dfy` | `Pickups` | `PowerUp` from `game/entities.py` |
| `game_map.dfy` | `Maps` | class `GameMap` of `game/game_map.py` |
| `blast.dfy` | `Blast` | `Bomb` and `Explosion` from `game/entities.py` |
| `enemy.dfy` | `Enemies` | `Enemy` from `game/entities.py` |
| `game.dfy` | `Game` | class `BombermanGame` of `game/bomberman_game.py` |

The grid queries sit in `Tiles` rather than in the `GameMap` class, because
the player's move needs them while the map's power-up update needs the
player. Dafny forbids that import cycle.

Objects whose fields the source updates in place are classes:

- `Player` and `Enemy`;
- `GameMap`, holding its grid and its power-up list;
- `SpriteManager`, holding its collision grid and per-character sheets;
- `BombermanGame`.

Bombs, explosions and power-ups are datatypes. Each of them lives in exactly
one list, so changing one of its fields is modelled as replacing that list
element.

The imperative operations are methods proved against specification
functions:

- `Bomb.explode` (`Blast.Explode`) produces the tiles of `Blast.BlastTiles`.
  It marks the map exactly there and drops the power-ups of
  `Blast.BlastDrops`.
- `update_bombs` and `update_explosions` keep `Ticked` and `Live` and
  revert `EndedTiles`.
- `update_powerups` keeps `Kept`, applies `Taken`, and pops the hits from
  the back.

## Model

| member | source | states |
|---|---|---|
| Constants.GridDimensions | game/constants.py:6-10 | The grid is 800 // 50 = 16 columns by 600 // 50 = 12 rows (not the 20 and 15 of the comments); a 50-pixel tile is 100 half-pixels |
| Constants.TileTypeOfCode | game/constants.py:52-60 | Exactly the codes 0..7 name a tile kind, and the decoded kind has that code |
| Constants.TileCodesDistinct | game/constants.py:52-60 | The eight tile codes are distinct: decoding a kind's code gives back that kind |
| Constants.TileType.Code | game/constants.py:52-60 | Every tile kind has a code in 0..7 |
| Constants.DirectionOfCode | game/constants.py:93-97 | The direction decoded from a code 0..3 has that code |
| Constants.Direction.Code | game/constants.py:93-97 | Every direction has a code in 0..3 |
| Constants.Direction.Dx | game/constants.py:99-104 | The horizontal delta of a direction is -1, 0 or 1 |
| Constants.Direction.Dy | game/constants.py:99-104 | The vertical delta of a direction is -1, 0 or 1 |
| Constants.DeltasAreUnit | game/constants.py:99-104 | Every direction delta is a unit vector with exactly one non-zero component |
| Constants.OppositeDeltas | game/constants.py:93-104 | Directions d and (d + 2) % 4 have opposite deltas |
| Constants.AllCharactersListed | game/constants.py:32-40 | The character list has six entries, holds every character, and repeats none |
| Constants.FuseOutlastsExplosion | game/constants.py:18-19 | The bomb timer (3000 ms) is longer than the explosion duration (500 ms), which is positive |
| Sprites.SimpleCollisionCode | game/sprites.py:678-692 | Border and odd/odd cells are walls (2); other cells in the two 3x3 spawn corners are free (0); every other cell is a brick (1) exactly when its draw succeeded, and free otherwise |
| Sprites.SimpleCollisionGrid | game/sprites.py:661-694 | The generated grid has ROWS rows of COLS codes |
| Sprites.SimpleCollisionGridCells | game/sprites.py:665-694 | Each generated value is one of 0, 1, 2, and is the code its cell calls for given its draw |
| Sprites.SpawnCorners | game/sprites.py:678-692 | Cells (1, 2) and (COLS - 2, ROWS - 2) are always free; corners (COLS - 2, 1) and (1, ROWS - 2) are outside the spawn areas and become bricks when their draw succeeds |
| Sprites.TileTypeOfCollision | game/sprites.py:787-796 | Code 0 gives EMPTY, code 1 gives BRICK, and any other code gives WALL, each as an if-and-only-if |
| Sprites.CollisionAt | game/sprites.py:778-785 | A cell off the grid, or any cell when no grid exists, reads 2; otherwise the grid's own value is returned |
| Sprites.FrameIndex | game/sprites.py:815-818 | The walking frame index always lies in 0..frame_count - 1 |
| Sprites.FrameAdvances | game/sprites.py:815-818 | After one frame duration the frame index moves on by one, cyclically |
| Sprites.FacingOfCode | game/sprites.py:843-846 | Direction codes 0..3 map to up, right, down, left (each to the direction with that code); no other code maps to a direction |
| Sprites.Animated | game/sprites.py:806-818 | Only a walking sheet with frames for its facing changes, and only its frame, which lands in range; any other sheet is unchanged |
| Sprites.DirectionalSprite | game/sprites.py:837-871 | Moving means walking and not moving means idle; the facing changes only when moving with a valid code; the frames are kept; a walk image is in range and an idle image exists |
| Sprites.SpriteManager.constructor | game/sprites.py:12-15 | Loading gives each character a fresh sheet, and the collision grid is always generated |
| Sprites.SpriteManager.GenerateSimpleCollisionGrid | game/sprites.py:661-694 | The row-by-row build yields exactly the generator's grid and leaves the sheets alone |
| Sprites.SpriteManager.GetCollisionAt | game/sprites.py:778-785 | Off the grid or without a grid the code is 2; otherwise it is the stored value |
| Sprites.SpriteManager.GetTileTypeAt | game/sprites.py:787-796 | The kind is EMPTY, BRICK or WALL; off the grid it is WALL; EMPTY and BRICK exactly for codes 0 and 1 |
| Sprites.SpriteManager.UpdateAnimations | game/sprites.py:798-818 | Every listed sheet becomes its animated version at time now; the collision grid and the set of sheets are kept |
| Tiles.GetTile | game/game_map.py:99-103 | Any out-of-bounds cell reads as WALL |
| Tiles.IsWalkable | game/game_map.py:178-182 | A cell is walkable iff it is on the grid and its kind is walkable; walls and bricks never are |
| Tiles.SetCell | game/game_map.py:173-176 | In bounds only cell (x, y) changes, to t; out of bounds the grid is unchanged |
| Tiles.CellOf | game/game_map.py:107-110 | The cell of a coordinate is its floor division by the tile size: the coordinate lies within that tile |
| Tiles.RoundedCell | game/entities.py:49-54 | The cell under an entity's centre: the coordinate plus half a tile lies within it |
| Tiles.RoundedCellOfCorner | game/entities.py:49-54 | An entity placed on a cell reports that very cell, both rounded and floored |
| Tiles.ColumnClear | game/game_map.py:117-122 | True iff no cell of the column between lo and hi blocks |
| Tiles.RowClear | game/game_map.py:124-129 | True iff no cell of the row between lo and hi blocks |
| Tiles.HasClearLineOfSight | game/game_map.py:105-135 | True within one cell and between different rows and columns; on a shared row or column, false iff a cell of the inclusive segment (both end cells) is a wall or brick |
| Tiles.CanExplosionReachPlayer | game/game_map.py:137-171 | True within one cell, false between different rows and columns; on a shared row or column, false iff a strictly-between cell is a wall or brick |
| Tiles.SightImpliesReach | game/game_map.py:105-171 | Clear sight on a shared row or column implies a blast can reach |
| Tiles.ReachIgnoresEndCells | game/game_map.py:137-171 | Reach never depends on what the two end cells hold |
| Tiles.CanMoveTo | game/game_map.py:184-224 | Refused outside the field or when a corner is on a wall or brick; a bomb corner passes only on the enemy's own rounded cell; accepted exactly when inside the field and every corner is on the grid, not a wall or brick, and a bomb only on the enemy's own rounded cell |
| Tiles.CanPlayerMoveTo | game/game_map.py:226-256 | Refused outside the field or when one of the five sample points is off the grid or on a wall or brick; accepted whenever every sample point is on the grid and not a wall or brick, whatever else (bomb, explosion, power-up) lies there |
| Tiles.PlayerIgnoresBombs | game/game_map.py:226-256 | Putting a bomb or an explosion on a cell that is not a wall or brick never changes where the player may go |
| Tiles.EnemyRoomIsPlayerRoom | game/game_map.py:184-256 | Wherever the enemy test accepts a target, the player test accepts it too |
| Tiles.PixelOf | game/entities.py:56-58 | A non-negative half-pixel coordinate becomes the whole pixel that truncation gives |
| Tiles.EntityRectsCollide | game/bomberman_game.py:324-325 | Two tile-sized boxes overlap iff they are less than a tile apart on both axes |
| Players.FacingAfter | game/entities.py:37-45 | A horizontal move faces its way horizontally; otherwise a vertical move faces its way vertically; with no move the facing is kept |
| Players.Player.constructor | game/entities.py:11-20 | A new player is on the given cell with the starting speed, 1 bomb, range 2, 3 lives, standing and facing down |
| Players.Player.Move | game/entities.py:26-47 | The step of dx and dy times the speed is taken iff the player test accepts the target, with the facing from FacingAfter; a refused step only stops the player; stats and lives never change |
| Players.Player.GetGridPos | game/entities.py:49-54 | The cell under the player's centre |
| Players.SpawnCellIsGridPos | game/entities.py:49-54 | A player placed on a cell reports that cell |
| Pickups.PowerUp.Update | game/entities.py:682-687 | Cell and kind are kept; the clock never passes 500 ms; the frame stays in 0..1; a frame change restarts the clock; up to 500 ms only the clock advances, past 500 ms the frame flips (mod 2) and the clock restarts at 0 |
| Pickups.NewPowerUp | game/entities.py:673-680 | A new power-up sits at its cell's pixel corner with the given kind, its animation clock and frame at 0 |
| Pickups.BoostedSpeed | game/entities.py:700 | The speed boost never passes the cap of 4, grows a speed below it, and adds at most half a pixel |
| Pickups.Boost | game/entities.py:693-700 | A bomb power-up adds one bomb, a range power-up adds one range, a speed power-up boosts the speed; a kind that is no power-up changes nothing |
| Pickups.ApplyTo | game/entities.py:693-700 | The player's stats become Boost of the old stats; the position, lives and facing are kept |
| Pickups.BoostsStayCapped | game/entities.py:700 | However many speed power-ups are taken, the speed stays between the start speed and the cap, and it reaches the cap after enough of them |
| Maps.EmptyGrid | game/game_map.py:13-20 | ROWS rows of COLS cells, all EMPTY |
| Maps.TraditionalGrid | game/game_map.py:56-76 | The fallback generator's grid has ROWS rows of COLS cells |
| Maps.CopiedGrid | game/game_map.py:41-47 | The copy of the collision grid has ROWS rows of COLS cells |
| Maps.TraditionalLayout | game/game_map.py:56-76 | The fallback layout has walls on the border and on even/even cells; a brick only where there was one or on an interior empty cell outside the top-left 3x3 whose draw succeeded; every other cell is kept |
| Maps.CopiedFromIff | game/game_map.py:41-47 | A grid is cell-by-cell the copy of the collision grid iff it equals the copied grid |
| Maps.FallbackFromIff | game/game_map.py:51-54 | A grid is cell-by-cell the fallback generator's iff it equals the fallback grid over an empty map |
| Maps.CopiedLevelLayout | game/game_map.py:41-47 | The level actually played has walls on the border and on odd/odd cells, empty spawn corners, and a brick elsewhere exactly where the draw succeeded |
| Maps.CopiedLevelWalkable | game/game_map.py:41-47 | A cell of the level actually played is walkable iff it is no wall and no drawn brick |
| Maps.CopiedLevelSpawns | game/game_map.py:41-47 | On the level actually played, the player's cell (1, 2) and the bottom-right enemy corner are walkable |
| Maps.CopiedLevelCornerBricks | game/bomberman_game.py:466-470 | The other two enemy corners are bricks, and so not walkable, when their draws succeed |
| Maps.PowerupCount | game/game_map.py:82 | min(3 + level, 8) |
| Maps.FirstEmptySpot | game/game_map.py:86-97 | A spot found for a slot is an EMPTY cell |
| Maps.FirstEmptySpotIsDrawn | game/game_map.py:86-97 | The spot found is a draw from the remaining attempts and no earlier attempt was empty; none is found iff every remaining draw lands on a non-empty cell |
| Maps.FoundSpotInRange | game/game_map.py:87-88 | With draws in [3, COLS - 4] x [3, ROWS - 4], the spot found lies there too |
| Maps.DropAt | game/game_map.py:84-97 | A slot places at most one power-up |
| Maps.PowerupDrops | game/game_map.py:80-97 | The slots together place at most one power-up each |
| Maps.PowerupDropsPlacement | game/game_map.py:80-97 | Every placed power-up lies on an EMPTY cell, inside the draw range when the draws are, has a power-up kind, and starts at frame 0 |
| Maps.UpdatedAll | game/game_map.py:271-272 | Each power-up is replaced by its animation step, in order |
| Maps.Kept | game/game_map.py:281-284 | The power-ups left after collection are no more than the list |
| Maps.Taken | game/game_map.py:272-278 | The power-ups collected are no more than the list |
| Maps.KeptTakenLength | game/game_map.py:267-284 | Every power-up is either kept or collected |
| Maps.KeptMembers | game/game_map.py:267-284 | A power-up is kept iff it is in the list and does not touch the player |
| Maps.TakenMembers | game/game_map.py:267-284 | A power-up is collected iff it is in the list and touches the player |
| Maps.KeptTakenPermutation | game/game_map.py:267-284 | The kept and the collected power-ups together are a permutation of the list |
| Maps.TakenHasHit | game/game_map.py:275-278 | A list holding a touching power-up collects something |
| Maps.HitIndicesShrink | game/game_map.py:281-284 | The collection shrinks the list iff some index was recorded, so the result says whether anything was collected |
| Maps.FreeSpaceRadiusZero | game/game_map.py:316-336 | With radius 0 the free-space test is walkability of the centre |
| Maps.Cleared | game/game_map.py:394-399 | The cleared grid has ROWS rows of COLS cells |
| Maps.ClearedFacts | game/game_map.py:394-399 | Clearing leaves no explosion cell, turns explosion cells into EMPTY, keeps every other cell, and a second clearing changes nothing |
| Maps.ClearingKeepsBricks | game/game_map.py:394-399 | Clearing explosions keeps the number of bricks |
| Maps.GameMap.constructor | game/game_map.py:7-11 | A new map holds the empty grid, no power-ups and the given sprite manager |
| Maps.GameMap.InitEmptyMap | game/game_map.py:13-20 | The grid becomes the empty grid; the power-ups are kept |
| Maps.GameMap.GenerateLevel | game/game_map.py:22-54 | With a collision grid, the map is its cell-by-cell copy plus the level's random power-ups; otherwise it is the fallback grid with its power-ups |
| Maps.GameMap.GenerateTraditionalLevel | game/game_map.py:56-78 | The grid becomes the fallback layout of the old grid, and the level's power-ups are appended |
| Maps.GameMap.PlaceLatticeWalls | game/game_map.py:58-65 | The first pass puts walls on the border and on even/even cells and keeps every other cell |
| Maps.GameMap.AddRandomPowerups | game/game_map.py:80-97 | The grid is unchanged, and the power-ups of PowerupDrops for the level are appended |
| Maps.GameMap.DropPowerup | game/game_map.py:84-97 | One slot extends the drops of the earlier slots by its own drop |
| Maps.GameMap.FindEmptySpot | game/game_map.py:86-97 | The 50-attempt scan returns exactly FirstEmptySpot |
| Maps.GameMap.GetTile | game/game_map.py:99-103 | WALL out of bounds; the stored cell otherwise |
| Maps.GameMap.SetTile | game/game_map.py:173-176 | The grid becomes SetCell of the old grid; the power-ups are kept |
| Maps.GameMap.AddPowerupAt | game/game_map.py:258-265 | Exactly one power-up of the drawn kind, on that cell, is appended; the grid is kept |
| Maps.GameMap.UpdatePowerups | game/game_map.py:267-284 | The list becomes the animated power-ups not touching the player, in order; the player's stats absorb the touching ones in order; the pose is kept; the result says whether the list shrank |
| Maps.GameMap.ScanPowerups | game/game_map.py:271-278 | The scan animates every power-up, records exactly the touching indices in order, and applies them to the player |
| Maps.GameMap.CollectOne | game/game_map.py:272-278 | One step of the scan animates power-up i and applies and records it when it touches the player |
| Maps.GameMap.RemoveCollected | game/game_map.py:281-282 | Popping the recorded indices from the back leaves exactly the power-ups not touching the player |
| Maps.GameMap.GetValidSpawnPositions | game/game_map.py:286-296 | Exactly the interior walkable cells outside the avoided top-left square, in row-major order |
| Maps.CornersWithSpace | game/game_map.py:306-314 | The first k probed corners kept by the free-space test, in order: a corner is in the result iff it is among the first k and has room around it |
| Maps.GameMap.GetCornerSpawnPositionsWithSpace | game/game_map.py:298-314 | The four corners in probe order, filtered by the free-space test; so exactly the probed corners with enough free space around them |
| Maps.GameMap.HasFreeSpaceAround | game/game_map.py:316-336 | The centre is walkable and at least half of the square around it is walkable; a true result implies a walkable centre |
| Maps.GameMap.CountDestructibleBlocks | game/game_map.py:338-345 | The number of BRICK cells on the grid |
| Maps.GameMap.ClearExplosions | game/game_map.py:394-399 | The grid becomes Cleared of the old grid; the power-ups are kept |
| Maps.GameMap.GetSafePositionsFromExplosions | game/game_map.py:401-419 | Exactly the interior walkable cells at Manhattan distance of at least 3 from every explosion tile, in row-major order |
| Blast.BlinkRate | game/entities.py:598 | max(100, 1000 - elapsed): at least 100 and equal to one of the two |
| Blast.Bomb.Update | game/entities.py:591-602 | The flag is true iff the elapsed time reaches BOMB_TIMER; only the animation clock and the blink change; blinking holds iff elapsed // max(100, 1000 - elapsed) is even |
| Blast.NewBomb | game/entities.py:578-589 | A new bomb has its cell, range, owner and lighting time, and does not go off at once |
| Blast.FuseMonotone | game/entities.py:591-602 | Once a bomb is due it stays due, and it becomes due exactly at BOMB_TIMER after lighting |
| Blast.StepFollowsDeltas | game/entities.py:613-618 | Step j along d is the origin plus j times d's delta |
| Blast.StepOnRay | game/entities.py:616-618 | A step j >= 1 lies on d's ray at Manhattan distance j |
| Blast.BlastDrops | game/entities.py:634-636 | At most one power-up per marked cell |
| Blast.ArmMembers | game/entities.py:616-642 | A cell along an arm is marked iff it is within range, nothing blocks before it, and it is EMPTY or a BRICK |
| Blast.ArmOnRay | game/entities.py:616-618 | Every arm cell lies on its direction's ray, within the range |
| Blast.ArmIncreasing | game/entities.py:616-642 | Along an arm the distance from the bomb strictly increases |
| Blast.ArmLength | game/entities.py:616 | An arm looks at no more than the range |
| Blast.ArmsOnRays | game/entities.py:613-642 | The first k arms lie on the rays of codes 0..k-1, within the range |
| Blast.ArmsLength | game/entities.py:613-616 | The first k arms hold at most k times the range cells |
| Blast.ArmsDistinct | game/entities.py:613-642 | The arms repeat no cell |
| Blast.BlastTilesShape | game/entities.py:606-644 | The tiles start with the bomb's cell, repeat no cell and number at most 4 * range + 1 |
| Blast.BlastReach | game/entities.py:604-644 | A cell j >= 1 steps from the bomb is a tile iff j is within range, nothing blocks before it and it was EMPTY or BRICK |
| Blast.BlastDropsOnBricks | game/entities.py:631-636 | Every dropped power-up lies on a marked cell that was a brick, and has a power-up kind |
| Blast.BlastDropsSingle | game/entities.py:631-636 | One cell drops a power-up iff it is a brick and its draw succeeds |
| Blast.ExplodeCell | game/entities.py:617-642 | One step of an arm keeps the map marked exactly at the tiles so far, and either continues or completes the arm |
| Blast.BurnBrick | game/entities.py:631-636 | The brick becomes an explosion cell and, when its draw succeeds, a power-up of the drawn kind is appended |
| Blast.ExplodeArm | game/entities.py:614-642 | One arm adds exactly its cells and their drops |
| Blast.Explode | game/entities.py:604-644 | The explosion holds BlastTiles of the grid before the blast, lit at now; the map is marked exactly at those tiles and otherwise unchanged; the drops of the destroyed bricks are appended |
| Blast.Explosion.Animate | game/entities.py:656-660 | Tiles and timer are kept; the frame stays in 0..3; a frame change restarts the clock; up to 100 ms only the clock advances, past 100 ms the frame advances (mod 4) and the clock restarts at 0 |
| Blast.NewExplosion | game/entities.py:647-651 | A new explosion over its tiles, lit at now, at frame 0 |
| Blast.Reverted | game/entities.py:663-668 | The reverted grid has ROWS rows of COLS cells |
| Blast.RevertedFacts | game/entities.py:663-668 | Ending an explosion turns only its tiles still marked EXPLOSION into EMPTY, whoever marked them; doing it twice is doing it once; over all explosion cells it is clear_explosions |
| Blast.BlastThenRevert | game/entities.py:604-670 | A blast followed by its end leaves every blast tile EMPTY and every other cell as before |
| Blast.UpdateExplosion | game/entities.py:653-670 | The explosion is animated; it reports ending iff EXPLOSION_DURATION has elapsed; then the map is reverted over its tiles, and before that it is untouched |
| Enemies.BlastWithinPath | game/entities.py:150-156 | Every tile of an actual blast passes the straight-line danger test |
| Enemies.PathIgnoresWalls | game/entities.py:150-156 | The danger test ignores walls: it flags a cell that a wall keeps the actual blast from |
| Enemies.OwnedCount | game/entities.py:161 | The count is at most the number of bombs, and zero iff the owner has none |
| Enemies.EscapeCount | game/entities.py:262-281 | Between 0 and 4, and 4 iff every neighbour is walkable and outside every bomb's Manhattan range |
| Enemies.EscapeRouteIsEscape | game/entities.py:262-329 | A counted escape route is also found by the three-step escape search |
| Enemies.FirstEscape | game/entities.py:262-281 | A positive count names a direction that is an escape |
| Enemies.BricksOnRay | game/entities.py:367-373 | At most one brick per step looked at |
| Enemies.StrategicBricks | game/entities.py:360-375 | At most 4 times the range |
| Enemies.BlastBrickCounted | game/entities.py:360-375 | Any brick the enemy's own blast would destroy is counted |
| Enemies.SafeRouteCount | game/entities.py:221-244 | Between 0 and the number of probed directions |
| Enemies.ProbeAvoidsPlayer | game/entities.py:227-241 | A safe probe passes only walkable cells more than two cells from the player |
| Enemies.ProbeCoversFive | game/entities.py:227-243 | A safe probe covers at least five walkable in-bounds cells away from the player |
| Enemies.SafeRouteExists | game/entities.py:221-247 | A positive count names a direction whose probe passes |
| Enemies.Penalty | game/entities.py:407-410 | A penalty lies in 0..5 |
| Enemies.Probe | game/entities.py:400-410 | The penalties are non-negative, and the cell is safe iff no bomb's straight-line path covers it |
| Enemies.ProbeStuck | game/entities.py:400-405 | Once a cell is unsafe, later bombs change nothing |
| Enemies.ScoreWithoutBombs | game/entities.py:386-415 | Without bombs the score is non-negative and rewards every walkable step |
| Enemies.Scores | game/entities.py:382-417 | The four scores by direction code |
| Enemies.ArgMax | game/entities.py:421 | The first position of a greatest element, as Python's max |
| Enemies.ArgMin | game/entities.py:454 | The first position of a least element, as Python's min |
| Enemies.Neighbours | game/entities.py:493-500 | At most one neighbour per direction looked at |
| Enemies.NeighboursMembers | game/entities.py:493-500 | The listed neighbours are exactly the walkable ones |
| Enemies.SafeDirectionChoice | game/entities.py:419-436 | With a positive best score the flight picks the first best direction; otherwise the first walkable neighbour; otherwise the draw |
| Enemies.NeighboursFirst | game/entities.py:427-434 | The first listed neighbour has the lowest code among the walkable ones |
| Enemies.Danger | game/entities.py:446-449 | At most one per bomb |
| Enemies.Dangers | game/entities.py:442-451 | The four danger counts by direction code |
| Enemies.ChooseNeighbour | game/entities.py:488-502 | The drawn neighbour is walkable, and the fallback draw is used only when none is |
| Enemies.AttackWalkable | game/entities.py:456-486 | The attack keeps to walkable cells whenever some neighbour is walkable |
| Enemies.AttackApproaches | game/entities.py:462-477 | When the step towards the player on the dominant axis is walkable, the attack gets closer |
| Enemies.FirstWorkingTry | game/entities.py:552-564 | The retry taken is the first draw the movement test accepts, and none is taken iff the test refuses all of them |
| Enemies.SelectMode | game/entities.py:126-148 | Any bomb means flight; otherwise exploration in the first 10 s; attack only at 5 to 8 tiles with the 10 % draw |
| Enemies.Enemy.constructor | game/entities.py:61-80 | A new enemy is on its cell, alive, exploring, facing and cooling down as drawn, spawned at now |
| Enemies.Enemy.GetGridPos | game/entities.py:566-571 | The cell under the enemy's centre |
| Enemies.Enemy.WillBombHitPlayer | game/entities.py:343-350 | The straight-line danger test of a bomb of the enemy's range at that cell |
| Enemies.Enemy.UpdateAiMode | game/entities.py:104-148 | Only the mode changes, to SelectMode of the bombs, the time since spawning and the squared distance |
| Enemies.Enemy.NoBombNear | game/entities.py:274-278 | True iff the cell is outside every bomb's Manhattan range |
| Enemies.Enemy.CountEscapeRoutes | game/entities.py:262-281 | EscapeCount over the four directions |
| Enemies.Enemy.PathClear | game/entities.py:318-324 | True iff every cell of the path is walkable |
| Enemies.Enemy.HasAnyEscapeRoute | game/entities.py:285-329 | True iff a safe cell lies within three walkable steps in a straight line |
| Enemies.Enemy.EscapeAlong | game/entities.py:295-327 | True iff some step along this direction is such an escape |
| Enemies.Enemy.CountStrategicBricks | game/entities.py:360-375 | StrategicBricks with the enemy's range |
| Enemies.Enemy.ProbeCell | game/entities.py:400-410 | The bomb scan of one cell, as Probe |
| Enemies.Enemy.DirectionScore | game/entities.py:384-417 | The score of one direction, as DirScore |
| Enemies.Enemy.WalkableNeighbours | game/entities.py:493-500 | The walkable neighbours in code order |
| Enemies.Enemy.GetSafeDirection | game/entities.py:377-436 | The flight direction, as SafeDirection from the enemy's cell |
| Enemies.Enemy.GetLeastDangerousDirection | game/entities.py:438-454 | A code with the fewest bombs in range, the first on a tie |
| Enemies.Enemy.GetAttackDirection | game/entities.py:456-486 | The attack direction, as AttackDirection towards the player's cell |
| Enemies.Enemy.GetExplorationDirection | game/entities.py:488-502 | A drawn walkable neighbour, or the fallback draw |
| Enemies.Enemy.ProbeDirection | game/entities.py:222-244 | The ultra-safe probe of one direction, as ProbeRoute |
| Enemies.Enemy.ShouldPlaceBombUltraSafe | game/entities.py:203-260 | The decision of UltraSafe; a yes implies no bomb on the map and the player at least 8 tiles away |
| Enemies.Enemy.ShouldPlaceBomb | game/entities.py:158-201 | A yes implies the gates hold (capacity, fewer than 5 bombs, 2 escapes, no rival bomb within 3); within the gates the strategy draws decide in order |
| Enemies.Enemy.PlaceBomb | game/entities.py:504-519 | With a bomb on the enemy's cell nothing changes; otherwise exactly one bomb of the enemy's range and character is appended and the time recorded |
| Enemies.Enemy.Turn | game/entities.py:524-537 | After 1500 ms or on the draw, the enemy faces the direction its mode steers to and records the time; otherwise nothing changes |
| Enemies.Enemy.Walk | game/entities.py:540-564 | The step is taken when the enemy test accepts it; otherwise the first accepted retry is taken, or the enemy stops |
| Enemies.Enemy.Retry | game/entities.py:549-564 | The first accepted retry is taken with its direction and the time, or the enemy stops |
| Enemies.Enemy.UpdateMovement | game/entities.py:521-564 | The turn followed by the step; a moving enemy stays inside the field |
| Enemies.Enemy.Update | game/entities.py:82-102 | A dead enemy changes nothing; a live one takes its mode, bombs only past the cooldown and truce when not in panic and the decision says so, then moves |
| Enemies.Enemy.Decide | game/entities.py:87-99 | The mode, then the bomb decision and the new cooldown under the cooldown and truce conditions |
| Enemies.RunBlocked | game/entities.py:300-305 | A non-walkable cell stops every straight escape walk through it |
| Game.KeyTransition | game/bomberman_game.py:70-121 | ESCAPE always leads to the title; keys other than RETURN, ESCAPE and P keep the screen; play is entered from another screen exactly by RETURN on the menu or an end screen, or by P in pause; P pauses play; pause is reached only from play or pause |
| Game.PauseRoundTrip | game/bomberman_game.py:528-535 | Pressing P twice in play or in pause returns to the same screen |
| Game.Cycle | game/bomberman_game.py:76-92 | The cursor stays in range, congruent to the old index plus the move |
| Game.CycleUndo | game/bomberman_game.py:76-92 | Moving back undoes a move |
| Game.IneffectiveKeepsScreen | game/bomberman_game.py:70-121 | A key without effect keeps the screen, and every screen change comes from an effective key |
| Game.WithPlayerBomb | game/bomberman_game.py:366-387 | Either unchanged or one new bomb on the cell appended; it is appended iff the owner is under the cap and no bomb lies on the cell |
| Game.PlacementKeepsLimits | game/bomberman_game.py:366-387 | Placing never takes the owner past the cap and never puts two bombs on a cell |
| Game.UpdateKeepsBomb | game/entities.py:591-602 | A frame update keeps the cell, range, owner and lighting time |
| Game.Fused | game/bomberman_game.py:283-289 | The bombs that go off are no more than the list |
| Game.Ticked | game/bomberman_game.py:283-291 | The bombs kept are no more than the list |
| Game.FuseSides | game/bomberman_game.py:280-291 | The exploded bombs are exactly the due ones; the kept ones are not due |
| Game.FuseSplit | game/bomberman_game.py:280-291 | Every bomb either explodes or is kept, and each owner's count is split the same way |
| Game.Live | game/bomberman_game.py:293-298 | The kept explosions are still within their duration and keep their tiles |
| Game.EndedTiles | game/bomberman_game.py:293-298 | The tiles of every ended explosion are reverted |
| Game.RevertedCompose | game/bomberman_game.py:295-298 | Two explosions ending in turn revert the same as one over both tile lists |
| Game.CatchesFromBombCell | game/bomberman_game.py:308-321 | For the explosion of a bomb, the catch test is reach from the bomb's own cell plus the floor cell being a tile: the intended check |
| Game.CollisionRunAsWritten | game/bomberman_game.py:308-311 | As written, the check raises iff there is a player and at least one explosion |
| Game.FirstBlastRaises | game/bomberman_game.py:308-311 | The first bomb to go off in play makes the next collision check raise |
| Game.CatchCount | game/bomberman_game.py:336-350 | The count is at most the number of explosions looked at |
| Game.CatchCountZero | game/bomberman_game.py:336-350 | The count is zero iff no explosion catches the entity |
| Game.CatchCountMono | game/bomberman_game.py:336-350 | More explosions never count fewer catches |
| Game.CaughtByIff | game/bomberman_game.py:308-321 | Being caught means some explosion catches |
| Game.CaughtOnlyOnTiles | game/bomberman_game.py:315-321 | Nothing is caught on a cell that is no explosion's tile |
| Game.Reward | game/bomberman_game.py:336-350 | Points only for a live enemy, in multiples of 100 |
| Game.RewardIffKilled | game/bomberman_game.py:332-350 | An enemy earns points iff it is alive and caught |
| Game.Bounty | game/bomberman_game.py:332-350 | The total is a multiple of 100 |
| Game.BountyZero | game/bomberman_game.py:332-350 | Nothing is earned iff no enemy is alive and caught |
| Game.OverlapPaysTwice | game/bomberman_game.py:336-350 | An enemy where two explosions overlap earns 100 points twice |
| Game.OnTiles | game/bomberman_game.py:318-321 | True iff the cell is a tile |
| Game.Without | game/bomberman_game.py:462 | The other characters, in order |
| Game.Rivals | game/bomberman_game.py:462 | Five characters, none of them the selected one |
| Game.WithoutDistinct | game/bomberman_game.py:462 | Removing a listed character shortens a list without repetitions by one |
| Game.Spawns | game/bomberman_game.py:466-487 | At most one spawn per slot, each on a walkable enemy corner with a rival character |
| Game.SomeEnemySpawns | game/bomberman_game.py:466-487 | On the level actually played at least one enemy is created |
| Game.SpawnCornersDistinct | game/bomberman_game.py:466-470 | Every spawn uses a different corner |
| Game.SpawnEnemies | game/bomberman_game.py:477-487 | The loop creates fresh, distinct enemies, exactly those of Spawns |
| Game.SpawnSlot | game/bomberman_game.py:477-487 | One slot adds a fresh enemy, rival i on corner i, exactly when that corner is walkable; the enemies before it are kept |
| Game.PlaceDemoEnemies | game/bomberman_game.py:418-427 | Fresh, distinct demonstration enemies, each rival on its own valid spawn cell; fewer than three only when the cells ran out |
| Game.CountCatches | game/bomberman_game.py:336-350 | The count of catching explosions, as CatchCount |
| Game.JudgeEnemy | game/bomberman_game.py:332-350 | The enemy dies iff it was alive and caught; it earns its Reward |
| Game.StrikeEnemies | game/bomberman_game.py:331-350 | Each enemy dies iff alive and caught; the total earned is the Bounty |
| Game.EndExplosions | game/bomberman_game.py:293-298 | The kept explosions are Live; the map is reverted over EndedTiles; the power-ups are kept |
| Game.Fire | game/bomberman_game.py:285-289 | One due bomb appends one explosion starting on its cell at now; the marks accumulate |
| Game.Detonate | game/bomberman_game.py:280-291 | The kept bombs are Ticked; one explosion per exploded bomb; the map is marked exactly at their tiles |
| Game.FireBombs | game/bomberman_game.py:280-291 | Detonate with the new explosions appended after the old |
| Game.BombermanGame.constructor | game/bomberman_game.py:12-39 | A new game on the title screen at level 1, no score, Finn selected, nothing on the map |
| Game.BombermanGame.TogglePause | game/bomberman_game.py:528-535 | Play and pause swap; every other screen and every other field is kept |
| Game.BombermanGame.GameOver | game/bomberman_game.py:514-519 | Only the screen changes, to GAME_OVER |
| Game.BombermanGame.Victory | game/bomberman_game.py:521-526 | The screen becomes VICTORY and the score grows by 500 times the level |
| Game.BombermanGame.PlayerHit | game/bomberman_game.py:393-405 | Without a player nothing changes; otherwise one life fewer, back on cell (1, 2) while lives remain, else GAME_OVER |
| Game.BombermanGame.PlaceBomb | game/bomberman_game.py:366-391 | The bombs become WithPlayerBomb of the player's cell, range, character and cap; nothing else changes |
| Game.BombermanGame.UpdateBombs | game/bomberman_game.py:280-291 | The kept bombs are Ticked; one explosion per exploded bomb is appended, starting on its cell; the map gains exactly their marks |
| Game.BombermanGame.UpdateExplosions | game/bomberman_game.py:293-298 | The explosions become Live; the map is reverted over EndedTiles |
| Game.BombermanGame.IsCaught | game/bomberman_game.py:308-321 | True iff some explosion catches the entity |
| Game.BombermanGame.EnemyContact | game/bomberman_game.py:324-329 | True iff a live enemy overlaps the player in clear sight |
| Game.BombermanGame.KillCaughtEnemies | game/bomberman_game.py:331-350 | Caught live enemies die; the score grows by the Bounty |
| Game.BombermanGame.PlayerInDanger | game/bomberman_game.py:305-329 | Whether an explosion catches the player or an enemy touches them |
| Game.BombermanGame.CheckCollisions | game/bomberman_game.py:300-350 | Without a player nothing changes; a player in danger is hit and no enemy changes; otherwise the caught enemies die and the score grows by the Bounty |
| Game.BombermanGame.CreateEnemies | game/bomberman_game.py:457-500 | The enemies become fresh enemies, exactly those of Spawns; nothing else changes |
| Game.BombermanGame.StartGame | game/bomberman_game.py:431-455 | Play with the level's map built, the score reset on level 1, a fresh player on (1, 2), the spawned enemies, and no bombs or explosions |
| Game.BombermanGame.NewRound | game/bomberman_game.py:433-450 | The screen, the level-1 score reset, the map of the level, and empty bomb and explosion lists |
| Game.BombermanGame.CreateCast | game/bomberman_game.py:443-446 | A fresh player on (1, 2) with the selected character, and the spawned enemies |
| Game.BombermanGame.RestartGame | game/bomberman_game.py:502-506 | Level 1, score 0, and a new game |
| Game.BombermanGame.NextLevel | game/bomberman_game.py:508-512 | One level up, 500 times the new level added, and a new game on it |
| Game.BombermanGame.StartCharacterSelect | game/bomberman_game.py:407-429 | The menu over a level-1 map, a fresh player on (1, 2), and the demonstration enemies |
| Game.BombermanGame.CreateDemoCast | game/bomberman_game.py:414-427 | A fresh player on (1, 2) and the demonstration enemies on drawn valid spawn cells |
| Game.BombermanGame.HandleKeyPress | game/bomberman_game.py:70-125 | The screen moves as KeyTransition says; an ineffective key changes nothing; each effective key has its effect (cursor, bomb, pause, new map and game) |
| Game.BombermanGame.TitleKey | game/bomberman_game.py:72-74 | RETURN opens the menu over a level-1 map |
| Game.BombermanGame.MenuKey | game/bomberman_game.py:76-96 | The arrows move the cursor, RETURN starts the game, ESCAPE goes to the title |
| Game.BombermanGame.PlayKey | game/bomberman_game.py:98-112 | SPACE places a bomb in play, P pauses or resumes, ESCAPE goes to the title |
| Game.BombermanGame.DefeatKey | game/bomberman_game.py:114-121 | RETURN restarts from level 1, ESCAPE goes to the title |
| Game.BombermanGame.VictoryKey | game/bomberman_game.py:114-121 | RETURN goes to the next level, ESCAPE goes to the title |
| Game.BombermanGame.CheckWinLoseConditions | game/bomberman_game.py:352-364 | With no live enemy: VICTORY and 500 times the level, taking precedence; else with no lives: GAME_OVER; else nothing |

## Left out

- Rendering, sprites' images and scaling, the UI and audio: `game/ui.py`, `game/audio.py`, the `draw_*` and `render` functions, `analyze_map_collisions` (float brightness, never called) and the image loading of the sprite manager. The loaded sheets become a parameter of `Sprites.SpriteManager.constructor`.
- The M key: it only toggles audio mute, so in the model it changes nothing.
- The event loop and the frame driver: `run`, `handle_events`, `handle_mouse_click`, `update`, `update_game`, `update_player` of `game/bomberman_game.py`, and the empty `Player.update`. The operations they call are modelled one by one; the 50 points `update_game` adds to the score inline for each frame in which a power-up is collected (game/bomberman_game.py:246-248) are not modelled.
- Randomness: each draw is a parameter (a boolean, a direction, a list index, or an oracle by cell or slot). Nothing is said about probabilities.
- The clock: `now` is a parameter, and `dt` is given with it.
- Floating point: positions and speeds are in half-pixels. The `math.sqrt` distances of the enemy AI are compared as squared integer distances (`Enemies.TilesSq`). The brick density of the fallback generator (`min(0.4 + level * 0.05, 0.7)`) is folded into the brick oracle.
- Game.BombermanGame.constructor: it takes the map as a parameter instead of building the sprite manager, the audio, the UI and the map itself.
- The `get_theme_for_level` / `set_map_theme` branch of `generate_level`: the sprite manager has neither method, so that branch never runs.
- `Enemy.can_block_player_escape` and `Enemy.is_direction_walkable`: the first is never called; the second is `Tiles.IsWalkable` on a neighbour.
- Enemies.Enemy.Update: its contract states the mode, the bomb and the cooldown exactly, but of the movement only that a moving enemy stays inside the field; the exact step is stated by `Enemies.Enemy.UpdateMovement`. The panic flag is never set to true anywhere in the source, so it stays as it was.
- Game.BombermanGame.HandleKeyPress: the audio calls are left out.
- The catch test of `check_collisions` starts the reach from the explosion's first tile, the bomb's cell, instead of the undefined `bomb_x` and `bomb_y` (see Findings).
- The per-frame loop of `update_game` over the enemy list: one enemy's tick is `Enemies.Enemy.Update`.
- Object identity of bombs, explosions and power-ups: they are values, and `list.remove` of a bomb or an explosion removes the element being visited, as it is the only one of its kind in the list at that point.

## Findings

| source | as written | input that shows it | evidently intended | confidence | as-written member | corrected member |
|---|---|---|---|---|---|---|
| game/bomberman_game.py:310-311 | `check_collisions` reads `explosion.bomb_x` and `explosion.bomb_y`; `Explosion` (game/entities.py:647-651) never sets them, so the read raises `AttributeError` | a player in play and any explosion in the list, e.g. right after the first bomb goes off | the reach test starts from the bomb's cell, which is the explosion's first tile | not executed | Game.CollisionRunAsWritten, Game.FirstBlastRaises | Game.CatchesFromBombCell |
