/**
 * Power-ups (class PowerUp of game/entities.py): a collectible lying on a
 * grid cell, its two-frame animation and its effect on the player.
 */
module Pickups {
  import opened Constants
  import Tiles
  import Players

  /** The three tile kinds a power-up can be. */
  predicate IsPowerupKind(t: TileType)
  {
    t == PowerupBomb || t == PowerupRange || t == PowerupSpeed
  }

  const PowerupKinds: seq<TileType> := [PowerupBomb, PowerupRange, PowerupSpeed]

  /** An index into PowerupKinds, as drawn by `random.choice` over the three kinds. */
  type KindIndex = k: int | 0 <= k < 3

  /** Milliseconds between the two animation frames. */
  const PowerupFramePeriod: int := 500

  datatype PowerUp = PowerUp(gridX: int, gridY: int, kind: TileType, animationTimer: int, animationFrame: int)
  {
    function X(): int { gridX * Tile }
    function Y(): int { gridY * Tile }

    /**
     * Advances the animation clock by dt milliseconds; past 500 ms the frame
     * flips and the clock restarts. The cell and kind never change.
     */
    function Update(dt: int): (r: PowerUp)
      ensures r.gridX == gridX && r.gridY == gridY && r.kind == kind
      ensures r.animationTimer <= PowerupFramePeriod
      ensures 0 <= animationFrame < 2 ==> 0 <= r.animationFrame < 2
      ensures r.animationFrame != animationFrame ==> r.animationTimer == 0
      ensures animationTimer + dt <= PowerupFramePeriod ==> r == this.(animationTimer := animationTimer + dt)
      ensures animationTimer + dt > PowerupFramePeriod ==>
                r == this.(animationTimer := 0, animationFrame := (animationFrame + 1) % 2)
    {
      var t := animationTimer + dt;
      if t > PowerupFramePeriod then this.(animationTimer := 0, animationFrame := (animationFrame + 1) % 2)
      else this.(animationTimer := t)
    }

    function Rect(): Tiles.Rect
    {
      Tiles.EntityRect(X(), Y())
    }
  }

  /** A new power-up on cell (gx, gy), at frame 0. */
  function NewPowerUp(gx: int, gy: int, kind: TileType): (p: PowerUp)
    ensures p.X() == gx * Tile && p.Y() == gy * Tile && p.kind == kind
    ensures p.gridX == gx && p.gridY == gy
    ensures p.animationTimer == 0 && p.animationFrame == 0
  {
    PowerUp(gx, gy, kind, 0, 0)
  }

  /** The speed after a speed power-up: half a pixel more, never past the cap. */
  function BoostedSpeed(s: int): (r: int)
    ensures r <= Players.MaxSpeed
    ensures s < Players.MaxSpeed ==> s < r
    ensures r <= s + 1
  {
    if s + 1 <= Players.MaxSpeed then s + 1 else Players.MaxSpeed
  }

  /** The effect of a power-up of kind k: one more bomb, one more range, or a faster player. */
  function Boost(s: Players.Stats, k: TileType): (r: Players.Stats)
    ensures r.maxBombs == s.maxBombs + (if k == PowerupBomb then 1 else 0)
    ensures r.bombRange == s.bombRange + (if k == PowerupRange then 1 else 0)
    ensures k == PowerupSpeed ==> r.speed == BoostedSpeed(s.speed)
    ensures k != PowerupSpeed ==> r.speed == s.speed
    ensures !IsPowerupKind(k) ==> r == s
  {
    match k
    case PowerupBomb => s.(maxBombs := s.maxBombs + 1)
    case PowerupRange => s.(bombRange := s.bombRange + 1)
    case PowerupSpeed => s.(speed := BoostedSpeed(s.speed))
    case _ => s
  }

  /** Applies the power-up to the player; nothing but the three stats changes. */
  method ApplyTo(p: PowerUp, player: Players.Player)
    modifies player
    ensures player.GetStats() == Boost(old(player.GetStats()), p.kind)
    ensures player.Pose() == old(player.Pose())
  {
    if p.kind == PowerupBomb {
      player.maxBombs := player.maxBombs + 1;
    } else if p.kind == PowerupRange {
      player.bombRange := player.bombRange + 1;
    } else if p.kind == PowerupSpeed {
      player.speed := BoostedSpeed(player.speed);
    }
  }

  /** The stats after collecting the power-ups ps, in order. */
  function ApplyAll(s: Players.Stats, ps: seq<PowerUp>): (r: Players.Stats)
    decreases |ps|
  {
    if ps == [] then s else Boost(ApplyAll(s, ps[..|ps| - 1]), ps[|ps| - 1].kind)
  }

  /** Boosting never takes the speed past the cap, however many power-ups are collected. */
  lemma {:induction false} BoostsStayCapped(s: int, n: nat)
    requires s <= Players.MaxSpeed
    decreases n
    ensures BoostIter(s, n) <= Players.MaxSpeed
    ensures s >= Players.StartSpeed ==> BoostIter(s, n) >= Players.StartSpeed
    ensures n >= Players.MaxSpeed - s ==> BoostIter(s, n) == Players.MaxSpeed
  {
    if n > 0 {
      BoostsStayCapped(BoostedSpeed(s), n - 1);
    }
  }

  /** The speed after n speed power-ups. */
  function BoostIter(s: int, n: nat): int
    decreases n
  {
    if n == 0 then s else BoostIter(BoostedSpeed(s), n - 1)
  }
}
