/**
 * The computer-controlled opponents (class Enemy of game/entities.py): the
 * deterministic part of their decision making (danger tests, escape-route
 * and brick counts, the gates on placing a bomb, the choice of mode and of
 * direction) and the state they update (mode, direction, position, the
 * bomb clock). Every random draw of the source is an oracle parameter and
 * the clock is the parameter `now`. Distances compared through a square
 * root in the source are compared here as squared integer distances.
 */
module Enemies {
  import opened Options
  import opened Constants
  import opened Tiles
  import Blast
  import Players
  import Maps

  type Cell = (int, int)

  /** The three behaviours of the decision making. */
  datatype Mode = Explore | Attack | Flee

  /** Half-pixels per step of an enemy. */
  const EnemyStep: int := EnemySpeed * SubPixel
  /** Milliseconds after spawning during which an enemy only explores. */
  const ExploreGrace: int := 10000
  /** Milliseconds after spawning before an enemy may place a bomb at all. */
  const BombQuarantine: int := 120000
  /** Milliseconds between planned changes of direction. */
  const TurnPeriod: int := 1500

  function Abs(a: int): nat
  {
    if a >= 0 then a else -a
  }

  /** The squared distance between two half-pixel positions. */
  function SqDist(x1: int, y1: int, x2: int, y2: int): nat
  {
    (x1 - x2) * (x1 - x2) + (y1 - y2) * (y1 - y2)
  }

  /** A squared distance compared with n tiles: n * Tile squared. */
  function TilesSq(n: int): nat
  {
    (n * Tile) * (n * Tile)
  }

  // ---------------------------------------------------------------------
  // Danger

  /**
   * The straight-line danger test of a bomb, walls ignored: the cell shares
   * the bomb's column or row and lies within its range.
   */
  predicate InBombPath(c: Cell, b: Blast.Bomb)
  {
    (c.0 == b.gridX && Abs(c.1 - b.gridY) <= b.explosionRange) ||
    (c.1 == b.gridY && Abs(c.0 - b.gridX) <= b.explosionRange)
  }

  /** Every tile an actual blast covers passes the straight-line danger test. */
  lemma BlastWithinPath(g: Grid, b: Blast.Bomb, a: int)
    requires WellFormed(g) && b.explosionRange >= 0 && 0 <= a < |Blast.BlastTiles(g, b)|
    ensures InBombPath(Blast.BlastTiles(g, b)[a], b)
  {
    if a > 0 {
      Blast.ArmsOnRays(g, b.Origin(), b.explosionRange, 4, a - 1);
    }
  }

  /**
   * The straight-line test is strictly wider than a real blast: a wall next
   * to the bomb keeps the blast from a cell the test still flags.
   */
  lemma PathIgnoresWalls(g: Grid, b: Blast.Bomb)
    requires WellFormed(g) && b.explosionRange >= 2 && InBounds(b.gridX + 1, b.gridY) && InBounds(b.gridX + 2, b.gridY)
    requires g[b.gridY][b.gridX + 1] == Wall
    ensures InBombPath((b.gridX + 2, b.gridY), b)
    ensures (b.gridX + 2, b.gridY) !in Blast.BlastTiles(g, b)
  {
    var c := Blast.Step(b.Origin(), Right, 2);
    assert c == (b.gridX + 2, b.gridY);
    assert Blast.Step(b.Origin(), Right, 1) == (b.gridX + 1, b.gridY);
    assert !Blast.PassableBetween(g, b.Origin(), Right, 1, 2);
    Blast.BlastReach(g, b, Right, 2);
  }

  /** No bomb has the cell within Manhattan distance of its range. */
  predicate ClearOfBombs(c: Cell, bombs: seq<Blast.Bomb>)
  {
    forall i :: 0 <= i < |bombs| ==> Maps.Manhattan(bombs[i].Origin(), c) > bombs[i].explosionRange
  }

  /** The number of bombs owned by character ch. */
  function OwnedCount(bombs: seq<Blast.Bomb>, ch: Character): (n: nat)
    ensures n <= |bombs|
    ensures n == 0 <==> forall i :: 0 <= i < |bombs| ==> bombs[i].owner != ch
  {
    if bombs == [] then 0
    else OwnedCount(bombs[..|bombs| - 1], ch) + (if bombs[|bombs| - 1].owner == ch then 1 else 0)
  }

  // ---------------------------------------------------------------------
  // Escape routes

  /** Neighbour d of o is an escape: walkable, and outside every bomb's Manhattan range. */
  predicate IsEscape(g: Grid, bombs: seq<Blast.Bomb>, o: Cell, d: Direction)
    requires WellFormed(g)
  {
    var c := Blast.Step(o, d, 1);
    IsWalkable(g, c.0, c.1) && ClearOfBombs(c, bombs)
  }

  /** The number of escapes among the directions of codes 0..k-1. */
  function EscapeCount(g: Grid, bombs: seq<Blast.Bomb>, o: Cell, k: int): (n: int)
    requires WellFormed(g) && 0 <= k <= 4
    ensures 0 <= n <= k
    ensures n == k <==> forall c :: 0 <= c < k ==> IsEscape(g, bombs, o, DirectionOfCode(c))
  {
    if k == 0 then 0
    else EscapeCount(g, bombs, o, k - 1) + (if IsEscape(g, bombs, o, DirectionOfCode(k - 1)) then 1 else 0)
  }

  /** The first s cells along d are walkable. */
  predicate WalkableRun(g: Grid, o: Cell, d: Direction, s: int)
    requires WellFormed(g)
  {
    forall m :: 1 <= m <= s ==> IsWalkable(g, Blast.Step(o, d, m).0, Blast.Step(o, d, m).1)
  }

  /** Reaching the cell s steps along d over walkable cells, and finding it out of every bomb's range. */
  predicate EscapeAt(g: Grid, bombs: seq<Blast.Bomb>, o: Cell, d: Direction, s: int)
    requires WellFormed(g)
  {
    1 <= s <= 3 && WalkableRun(g, o, d, s) && ClearOfBombs(Blast.Step(o, d, s), bombs)
  }

  /** A safe cell lies within three walkable steps in a straight line. */
  ghost predicate HasEscape(g: Grid, bombs: seq<Blast.Bomb>, o: Cell)
    requires WellFormed(g)
  {
    exists d: Direction, s :: EscapeAt(g, bombs, o, d, s)
  }

  /** A counted escape route is also an escape found by the three-step search. */
  lemma EscapeRouteIsEscape(g: Grid, bombs: seq<Blast.Bomb>, o: Cell)
    requires WellFormed(g) && EscapeCount(g, bombs, o, 4) > 0
    ensures HasEscape(g, bombs, o)
  {
    var c := FirstEscape(g, bombs, o, 4);
    var d := DirectionOfCode(c);
    assert EscapeAt(g, bombs, o, d, 1);
  }

  /** The code of some escape among codes 0..k-1, when the count is positive. */
  lemma {:induction false} FirstEscape(g: Grid, bombs: seq<Blast.Bomb>, o: Cell, k: int) returns (c: int)
    requires WellFormed(g) && 0 <= k <= 4 && EscapeCount(g, bombs, o, k) > 0
    ensures 0 <= c < k && IsEscape(g, bombs, o, DirectionOfCode(c))
  {
    if IsEscape(g, bombs, o, DirectionOfCode(k - 1)) {
      c := k - 1;
    } else {
      c := FirstEscape(g, bombs, o, k - 1);
    }
  }

  // ---------------------------------------------------------------------
  // Bricks in reach

  /** Bricks at steps j..range along d, counted whatever lies between. */
  function BricksOnRay(g: Grid, o: Cell, d: Direction, j: int, range: int): (n: int)
    requires WellFormed(g)
    decreases range - j + 1
    ensures 0 <= n <= Max(range - j + 1, 0)
  {
    if j > range then 0
    else
      var c := Blast.Step(o, d, j);
      (if InBounds(c.0, c.1) && g[c.1][c.0] == Brick then 1 else 0) + BricksOnRay(g, o, d, j + 1, range)
  }

  /** Bricks within range on the rays of codes 0..k-1. */
  function StrategicBricks(g: Grid, o: Cell, range: int, k: int): (n: int)
    requires WellFormed(g) && 0 <= k <= 4
    ensures 0 <= n <= k * Max(range, 0)
  {
    if k == 0 then 0
    else StrategicBricks(g, o, range, k - 1) + BricksOnRay(g, o, DirectionOfCode(k - 1), 1, range)
  }

  /** A brick the blast from o would destroy along d is among the counted bricks. */
  lemma {:induction false} BlastBrickCounted(g: Grid, o: Cell, d: Direction, i: int, range: int, j: int)
    requires WellFormed(g) && i <= j <= range
    requires InBounds(Blast.Step(o, d, j).0, Blast.Step(o, d, j).1) && g[Blast.Step(o, d, j).1][Blast.Step(o, d, j).0] == Brick
    decreases j - i
    ensures BricksOnRay(g, o, d, i, range) >= 1
  {
    if i < j {
      BlastBrickCounted(g, o, d, i + 1, range, j);
    }
  }

  // ---------------------------------------------------------------------
  // The ultra-safe probe

  /**
   * The probe of one direction from step j of at most 8: the route is safe
   * when it runs 8 walkable cells, or meets the edge of the map at step 6 or
   * later, with the player more than 2 cells away from each cell looked at.
   */
  function ProbeRoute(g: Grid, o: Cell, d: Direction, pc: Cell, j: int): bool
    requires WellFormed(g) && j >= 1
    decreases 9 - j, |g|
  {
    if j > 8 then true
    else
      var c := Blast.Step(o, d, j);
      if !InBounds(c.0, c.1) then j >= 6
      else if !IsWalkable(g, c.0, c.1) then false
      else if Maps.Manhattan(c, pc) <= 2 then false
      else ProbeRoute(g, o, d, pc, j + 1)
  }

  /** The number of safe probes among codes 0..k-1. */
  function SafeRouteCount(g: Grid, o: Cell, pc: Cell, k: int): (n: int)
    requires WellFormed(g) && 0 <= k <= 4
    decreases k, |g|
    ensures 0 <= n <= k
  {
    if k == 0 then 0
    else SafeRouteCount(g, o, pc, k - 1) + (if ProbeRoute(g, o, DirectionOfCode(k - 1), pc, 1) then 1 else 0)
  }

  /**
   * A safe probe from step j never passes within two cells of the player
   * and never crosses a wall or brick before it ends.
   */
  lemma {:induction false} ProbeAvoidsPlayer(g: Grid, o: Cell, d: Direction, pc: Cell, j: int, m: int)
    requires WellFormed(g) && 1 <= j <= m <= 8 && ProbeRoute(g, o, d, pc, j)
    requires forall s :: j <= s <= m ==> InBounds(Blast.Step(o, d, s).0, Blast.Step(o, d, s).1)
    decreases m - j
    ensures Maps.Manhattan(Blast.Step(o, d, m), pc) > 2
    ensures IsWalkable(g, Blast.Step(o, d, m).0, Blast.Step(o, d, m).1)
  {
    if j < m {
      assert InBounds(Blast.Step(o, d, j).0, Blast.Step(o, d, j).1);
      ProbeAvoidsPlayer(g, o, d, pc, j + 1, m);
    }
  }

  /**
   * A probe that passes from step j covers its first five cells: each is on
   * the grid, walkable and more than two cells from the player, since the
   * edge counts only from the sixth cell on.
   */
  lemma {:induction false} ProbeCoversFive(g: Grid, o: Cell, d: Direction, pc: Cell, j: int, s: int)
    requires WellFormed(g) && 1 <= j <= s <= 5 && ProbeRoute(g, o, d, pc, j)
    decreases s - j
    ensures InBounds(Blast.Step(o, d, s).0, Blast.Step(o, d, s).1)
    ensures IsWalkable(g, Blast.Step(o, d, s).0, Blast.Step(o, d, s).1)
    ensures Maps.Manhattan(Blast.Step(o, d, s), pc) > 2
  {
    if j < s {
      ProbeCoversFive(g, o, d, pc, j + 1, s);
    }
  }

  /** A positive count of safe probes names a code whose probe passes. */
  lemma {:induction false} SafeRouteExists(g: Grid, o: Cell, pc: Cell, k: int) returns (c: int)
    requires WellFormed(g) && 0 <= k <= 4 && SafeRouteCount(g, o, pc, k) > 0
    ensures 0 <= c < k && ProbeRoute(g, o, DirectionOfCode(c), pc, 1)
  {
    if ProbeRoute(g, o, DirectionOfCode(k - 1), pc, 1) {
      c := k - 1;
    } else {
      c := SafeRouteExists(g, o, pc, k - 1);
    }
  }

  // ---------------------------------------------------------------------
  // Choosing a direction

  /** The penalty of one bomb close to a cell: 5 - distance within 4 cells, else nothing. */
  function Penalty(c: Cell, b: Blast.Bomb): (p: int)
    ensures 0 <= p <= 5
  {
    var m := Maps.Manhattan(b.Origin(), c);
    if m <= 4 then 5 - m else 0
  }

  /**
   * Scanning the bombs in order for cell c: the penalties of the bombs
   * looked at, and whether the cell is safe. The scan stops at the first
   * bomb whose straight-line path covers the cell.
   */
  function Probe(c: Cell, bs: seq<Blast.Bomb>): (r: (int, bool))
    decreases |bs|
    ensures r.0 >= 0
    ensures r.1 <==> forall i :: 0 <= i < |bs| ==> !InBombPath(c, bs[i])
  {
    if bs == [] then (0, true)
    else
      var front := Probe(c, bs[..|bs| - 1]);
      var b := bs[|bs| - 1];
      if !front.1 then (front.0, false)
      else if InBombPath(c, b) then (front.0, false)
      else (front.0 + Penalty(c, b), true)
  }

  /** Once the scan has found the cell unsafe, the later bombs change nothing. */
  lemma {:induction false} ProbeStuck(c: Cell, bs: seq<Blast.Bomb>, k: int)
    requires 0 <= k <= |bs| && !Probe(c, bs[..k]).1
    decreases |bs|
    ensures Probe(c, bs) == Probe(c, bs[..k])
  {
    if k < |bs| {
      var front := bs[..|bs| - 1];
      assert front[..k] == bs[..k];
      ProbeStuck(c, front, k);
    } else {
      assert bs[..k] == bs;
    }
  }

  /**
   * The safety score of direction d from step j (at most 5): each walkable
   * cell loses the penalties of its scan and, when safe, gains twice its
   * distance; the walk stops at the edge, at a non-walkable cell, or after
   * an unsafe cell.
   */
  function DirScore(g: Grid, o: Cell, d: Direction, bs: seq<Blast.Bomb>, j: int): int
    requires WellFormed(g)
    decreases 6 - j, |g|
  {
    if j > 5 then 0
    else
      var c := Blast.Step(o, d, j);
      if !InBounds(c.0, c.1) || !IsWalkable(g, c.0, c.1) then 0
      else
        var p := Probe(c, bs);
        if p.1 then -p.0 + 2 * j + DirScore(g, o, d, bs, j + 1) else -p.0
  }

  /** Without bombs the score counts the walkable run: 2 + 4 + ... over its steps. */
  lemma {:induction false} ScoreWithoutBombs(g: Grid, o: Cell, d: Direction, j: int)
    requires WellFormed(g) && j >= 1
    decreases 6 - j
    ensures DirScore(g, o, d, [], j) >= 0
    ensures j <= 5 && IsWalkable(g, Blast.Step(o, d, j).0, Blast.Step(o, d, j).1) ==> DirScore(g, o, d, [], j) >= 2 * j
  {
    if j <= 5 {
      ScoreWithoutBombs(g, o, d, j + 1);
    }
  }

  /** The four scores, by direction code. */
  function Scores(g: Grid, o: Cell, bs: seq<Blast.Bomb>): (s: seq<int>)
    requires WellFormed(g)
    ensures |s| == 4 && forall c :: 0 <= c < 4 ==> s[c] == DirScore(g, o, DirectionOfCode(c), bs, 1)
  {
    [DirScore(g, o, Up, bs, 1), DirScore(g, o, Right, bs, 1), DirScore(g, o, Down, bs, 1), DirScore(g, o, Left, bs, 1)]
  }

  /** The first position of a greatest element, as Python's `max` over keys in order. */
  function ArgMax(s: seq<int>): (i: int)
    requires |s| > 0
    ensures 0 <= i < |s|
    ensures forall k :: 0 <= k < |s| ==> s[k] <= s[i]
    ensures forall k :: 0 <= k < i ==> s[k] < s[i]
  {
    if |s| == 1 then 0
    else
      var m := ArgMax(s[..|s| - 1]);
      if s[|s| - 1] > s[m] then |s| - 1 else m
  }

  /** The first position of a least element, as Python's `min` over keys in order. */
  function ArgMin(s: seq<int>): (i: int)
    requires |s| > 0
    ensures 0 <= i < |s|
    ensures forall k :: 0 <= k < |s| ==> s[i] <= s[k]
    ensures forall k :: 0 <= k < i ==> s[i] < s[k]
  {
    if |s| == 1 then 0
    else
      var m := ArgMin(s[..|s| - 1]);
      if s[|s| - 1] < s[m] then |s| - 1 else m
  }

  /** The walkable neighbours among the codes 0..k-1, in code order. */
  function Neighbours(g: Grid, o: Cell, k: int): (ds: seq<Direction>)
    requires WellFormed(g) && 0 <= k <= 4
    decreases k, |g|
    ensures |ds| <= k
  {
    if k == 0 then []
    else
      var d := DirectionOfCode(k - 1);
      Neighbours(g, o, k - 1) + (if IsWalkable(g, Blast.Step(o, d, 1).0, Blast.Step(o, d, 1).1) then [d] else [])
  }

  /** The neighbours listed are exactly the walkable ones among the codes 0..k-1. */
  lemma {:induction false} NeighboursMembers(g: Grid, o: Cell, k: int)
    requires WellFormed(g) && 0 <= k <= 4
    decreases k
    ensures forall d :: d in Neighbours(g, o, k) <==> d.Code() < k && IsWalkable(g, Blast.Step(o, d, 1).0, Blast.Step(o, d, 1).1)
  {
    if k > 0 {
      NeighboursMembers(g, o, k - 1);
    }
  }

  /** The direction the flight picks: the first best score when positive, else the first walkable neighbour, else the draw. */
  function SafeDirection(g: Grid, o: Cell, bs: seq<Blast.Bomb>, fallback: Direction): Direction
    requires WellFormed(g)
  {
    var s := Scores(g, o, bs);
    var best := ArgMax(s);
    if s[best] > 0 then DirectionOfCode(best)
    else
      var ns := Neighbours(g, o, 4);
      if |ns| > 0 then ns[0] else fallback
  }

  /**
   * The flight's choice: with a positive score it is a best-scoring
   * direction and no earlier code scores as much; otherwise it is the
   * walkable neighbour of lowest code, or the draw when there is none.
   */
  lemma SafeDirectionChoice(g: Grid, o: Cell, bs: seq<Blast.Bomb>, fallback: Direction)
    requires WellFormed(g)
    ensures var s, d := Scores(g, o, bs), SafeDirection(g, o, bs, fallback);
      var positive := exists c :: 0 <= c < 4 && s[c] > 0;
      (positive ==> s[d.Code()] > 0 && (forall c :: 0 <= c < 4 ==> s[c] <= s[d.Code()]) &&
                    (forall c :: 0 <= c < d.Code() ==> s[c] < s[d.Code()])) &&
      (!positive && IsWalkable(g, Blast.Step(o, d, 1).0, Blast.Step(o, d, 1).1) ==>
         forall c :: 0 <= c < d.Code() ==> !IsWalkable(g, Blast.Step(o, DirectionOfCode(c), 1).0, Blast.Step(o, DirectionOfCode(c), 1).1)) &&
      (!positive && (forall e: Direction :: !IsWalkable(g, Blast.Step(o, e, 1).0, Blast.Step(o, e, 1).1)) ==> d == fallback)
  {
    var s := Scores(g, o, bs);
    var best := ArgMax(s);
    var ns := Neighbours(g, o, 4);
    NeighboursMembers(g, o, 4);
    if s[best] <= 0 && |ns| > 0 {
      NeighboursFirst(g, o, 4);
    }
  }

  /** The first walkable neighbour has the lowest code among the walkable ones. */
  lemma {:induction false} NeighboursFirst(g: Grid, o: Cell, k: int)
    requires WellFormed(g) && 0 <= k <= 4 && |Neighbours(g, o, k)| > 0
    decreases k
    ensures var d := Neighbours(g, o, k)[0];
      forall c :: 0 <= c < d.Code() ==> !IsWalkable(g, Blast.Step(o, DirectionOfCode(c), 1).0, Blast.Step(o, DirectionOfCode(c), 1).1)
  {
    var front := Neighbours(g, o, k - 1);
    if |front| > 0 {
      NeighboursFirst(g, o, k - 1);
    } else {
      NeighboursMembers(g, o, k - 1);
      forall c | 0 <= c < k - 1
        ensures !IsWalkable(g, Blast.Step(o, DirectionOfCode(c), 1).0, Blast.Step(o, DirectionOfCode(c), 1).1)
      {
        assert DirectionOfCode(c) !in front;
      }
    }
  }

  /** The number of bombs whose range reaches the neighbour d of o. */
  function Danger(bs: seq<Blast.Bomb>, o: Cell, d: Direction): (n: nat)
    ensures n <= |bs|
  {
    if bs == [] then 0
    else
      var b := bs[|bs| - 1];
      Danger(bs[..|bs| - 1], o, d) + (if Maps.Manhattan(Blast.Step(o, d, 1), b.Origin()) <= b.explosionRange then 1 else 0)
  }

  /** The four danger counts, by direction code. */
  function Dangers(bs: seq<Blast.Bomb>, o: Cell): (s: seq<int>)
    ensures |s| == 4 && forall c :: 0 <= c < 4 ==> s[c] == Danger(bs, o, DirectionOfCode(c))
  {
    [Danger(bs, o, Up), Danger(bs, o, Right), Danger(bs, o, Down), Danger(bs, o, Left)]
  }

  /** A direction picked by a choice draw among ds, or the fallback draw when ds is empty. */
  function Choose(ds: seq<Direction>, pick: int -> int, fallback: Direction): Direction
    requires PicksInRange(pick)
  {
    if |ds| > 0 then ds[pick(|ds|)] else fallback
  }

  /** `random.choice` draws: an index below every positive length. */
  ghost predicate PicksInRange(pick: int -> int)
  {
    forall n :: n > 0 ==> 0 <= pick(n) < n
  }

  /** A choice among the walkable neighbours is walkable, and falls back only when none is. */
  lemma ChooseNeighbour(g: Grid, o: Cell, pick: int -> int, fallback: Direction)
    requires WellFormed(g) && PicksInRange(pick)
    ensures var d := Choose(Neighbours(g, o, 4), pick, fallback);
      (exists e: Direction :: IsWalkable(g, Blast.Step(o, e, 1).0, Blast.Step(o, e, 1).1)) ==>
        IsWalkable(g, Blast.Step(o, d, 1).0, Blast.Step(o, d, 1).1)
    ensures (forall e: Direction :: !IsWalkable(g, Blast.Step(o, e, 1).0, Blast.Step(o, e, 1).1)) ==>
      Choose(Neighbours(g, o, 4), pick, fallback) == fallback
  {
    var ns := Neighbours(g, o, 4);
    NeighboursMembers(g, o, 4);
    if |ns| > 0 {
      assert ns[pick(|ns|)] in ns;
    } else {
      forall e: Direction ensures !IsWalkable(g, Blast.Step(o, e, 1).0, Blast.Step(o, e, 1).1) {
        assert e !in ns;
      }
    }
  }

  /**
   * The attack's choice from cell o towards the player's cell pc: along
   * the axis of the larger difference (the vertical one on a tie) when that
   * neighbour is walkable, otherwise a drawn walkable neighbour.
   */
  function AttackDirection(g: Grid, o: Cell, pc: Cell, pick: int -> int, fallback: Direction): Direction
    requires WellFormed(g) && PicksInRange(pick)
  {
    var dx, dy := pc.0 - o.0, pc.1 - o.1;
    if Abs(dx) > Abs(dy) && dx > 0 && IsWalkable(g, o.0 + 1, o.1) then Right
    else if Abs(dx) > Abs(dy) && dx < 0 && IsWalkable(g, o.0 - 1, o.1) then Left
    else if Abs(dx) <= Abs(dy) && dy > 0 && IsWalkable(g, o.0, o.1 + 1) then Down
    else if Abs(dx) <= Abs(dy) && dy < 0 && IsWalkable(g, o.0, o.1 - 1) then Up
    else Choose(Neighbours(g, o, 4), pick, fallback)
  }

  /** The attack keeps to walkable cells whenever some neighbour is walkable. */
  lemma AttackWalkable(g: Grid, o: Cell, pc: Cell, pick: int -> int, fallback: Direction)
    requires WellFormed(g) && PicksInRange(pick)
    ensures var n := Blast.Step(o, AttackDirection(g, o, pc, pick, fallback), 1);
      (exists e: Direction :: IsWalkable(g, Blast.Step(o, e, 1).0, Blast.Step(o, e, 1).1)) ==> IsWalkable(g, n.0, n.1)
  {
    var dx, dy := pc.0 - o.0, pc.1 - o.1;
    if Abs(dx) > Abs(dy) && dx > 0 && IsWalkable(g, o.0 + 1, o.1) {
      assert Blast.Step(o, Right, 1) == (o.0 + 1, o.1);
    } else if Abs(dx) > Abs(dy) && dx < 0 && IsWalkable(g, o.0 - 1, o.1) {
      assert Blast.Step(o, Left, 1) == (o.0 - 1, o.1);
    } else if Abs(dx) <= Abs(dy) && dy > 0 && IsWalkable(g, o.0, o.1 + 1) {
      assert Blast.Step(o, Down, 1) == (o.0, o.1 + 1);
    } else if Abs(dx) <= Abs(dy) && dy < 0 && IsWalkable(g, o.0, o.1 - 1) {
      assert Blast.Step(o, Up, 1) == (o.0, o.1 - 1);
    } else {
      ChooseNeighbour(g, o, pick, fallback);
    }
  }

  /** When the neighbour towards the player along the dominant axis is walkable, the attack steps closer. */
  lemma AttackApproaches(g: Grid, o: Cell, pc: Cell, pick: int -> int, fallback: Direction)
    requires WellFormed(g) && PicksInRange(pick)
    requires var h := Abs(pc.0 - o.0) > Abs(pc.1 - o.1);
      var n := if h then (o.0 + (if pc.0 > o.0 then 1 else -1), o.1) else (o.0, o.1 + (if pc.1 > o.1 then 1 else -1));
      pc != o && IsWalkable(g, n.0, n.1)
    ensures Maps.Manhattan(Blast.Step(o, AttackDirection(g, o, pc, pick, fallback), 1), pc) < Maps.Manhattan(o, pc)
  {
  }

  /** The movement test for one step of the given length along d from (x, y). */
  predicate Accepts(g: Grid, x: int, y: int, step: int, d: Direction)
    requires WellFormed(g)
  {
    CanMoveTo(g, x + d.Dx() * step, y + d.Dy() * step, x, y)
  }

  /** The first of the retry draws, from position i on, whose step the movement test accepts. */
  function FirstWorkingTry(g: Grid, x: int, y: int, step: int, tries: seq<Direction>, i: int): (r: Option<Direction>)
    requires WellFormed(g) && 0 <= i <= |tries|
    decreases |tries| - i
    ensures r.Some? ==> r.value in tries[i..] && Accepts(g, x, y, step, r.value)
    ensures r.None? <==> forall k :: i <= k < |tries| ==> !Accepts(g, x, y, step, tries[k])
  {
    if i == |tries| then None
    else if Accepts(g, x, y, step, tries[i]) then Some(tries[i])
    else FirstWorkingTry(g, x, y, step, tries, i + 1)
  }

  /**
   * The mode chosen at time now: flight when a bomb is on the map,
   * exploration in the grace period after spawning, and otherwise by the
   * squared distance to the player: explore beyond 8 tiles, flee within 5,
   * and in between attack only when the 10 % draw says so.
   */
  function SelectMode(bombs: seq<Blast.Bomb>, sinceSpawn: int, distSq: int, attack: bool): (m: Mode)
    ensures |bombs| > 0 ==> m == Flee
    ensures |bombs| == 0 && sinceSpawn < ExploreGrace ==> m == Explore
    ensures m == Attack ==> |bombs| == 0 && TilesSq(5) <= distSq <= TilesSq(8) && attack
  {
    if |bombs| > 0 then Flee
    else if sinceSpawn < ExploreGrace then Explore
    else if distSq > TilesSq(8) then Explore
    else if distSq < TilesSq(5) then Flee
    else if attack then Attack
    else Explore
  }

  /** Some bomb covers cell c in its straight-line path, or lies within 4 cells of it. */
  predicate Endangered(c: Cell, bombs: seq<Blast.Bomb>)
  {
    exists i :: 0 <= i < |bombs| && (InBombPath(c, bombs[i]) || Maps.Manhattan(bombs[i].Origin(), c) <= 4)
  }

  /** No bomb of another owner lies within 3 cells of c. */
  predicate NoRivalNear(c: Cell, bombs: seq<Blast.Bomb>, ch: Character)
  {
    forall i :: 0 <= i < |bombs| && bombs[i].owner != ch ==> Maps.Manhattan(bombs[i].Origin(), c) > 3
  }

  /** The direction a turn picks in mode m. */
  function Steer(g: Grid, bombs: seq<Blast.Bomb>, o: Cell, pc: Cell, m: Mode, pick: int -> int, fallback: Direction): Direction
    requires WellFormed(g) && PicksInRange(pick)
  {
    match m
    case Flee => SafeDirection(g, o, bombs, fallback)
    case Attack => AttackDirection(g, o, pc, pick, fallback)
    case Explore => Choose(Neighbours(g, o, 4), pick, fallback)
  }

  /** The fields of an enemy that its methods update. */
  datatype EnemyState = EnemyState(x: int, y: int, direction: Direction, lastDirectionChange: int, alive: bool,
                                   isMoving: bool, lastBombTime: int, bombCooldown: int, mode: Mode, panicMode: bool)

  class Enemy {
    /** Top-left corner of the enemy's box, in half-pixels. */
    var x: int
    var y: int
    const character: Character
    /** Half-pixels per step. */
    const speed: int
    var direction: Direction
    var lastDirectionChange: int
    var alive: bool
    var isMoving: bool
    const maxBombs: int
    const bombRange: int
    var lastBombTime: int
    /** Milliseconds that must pass between two bombs of this enemy. */
    var bombCooldown: int
    const spawnTime: int
    var mode: Mode
    var panicMode: bool

    /**
     * An enemy on grid cell (gx, gy) spawned at time now, facing the drawn
     * direction, with the drawn first bomb cooldown of 2 to 3 minutes.
     */
    constructor (gx: int, gy: int, character: Character, facing: Direction, cooldown: int, now: int)
      requires 120000 <= cooldown <= 180000
      ensures x == gx * Tile && y == gy * Tile && this.character == character
      ensures speed == EnemyStep && direction == facing && lastDirectionChange == 0
      ensures alive && !isMoving && maxBombs == 1 && bombRange == 2
      ensures lastBombTime == 0 && bombCooldown == cooldown && spawnTime == now
      ensures mode == Explore && !panicMode
    {
      x := gx * Tile;
      y := gy * Tile;
      this.character := character;
      speed := EnemyStep;
      direction := facing;
      lastDirectionChange := 0;
      alive := true;
      isMoving := false;
      maxBombs := 1;
      bombRange := 2;
      lastBombTime := 0;
      bombCooldown := cooldown;
      spawnTime := now;
      mode := Explore;
      panicMode := false;
    }

    function State(): EnemyState
      reads this
    {
      EnemyState(x, y, direction, lastDirectionChange, alive, isMoving, lastBombTime, bombCooldown, mode, panicMode)
    }

    /** The grid cell under the enemy's centre. */
    function GetGridPos(): (cell: Cell)
      reads this
      ensures cell.0 * Tile <= x + Tile / 2 < cell.0 * Tile + Tile
      ensures cell.1 * Tile <= y + Tile / 2 < cell.1 * Tile + Tile
    {
      (RoundedCell(x), RoundedCell(y))
    }

    function GetRect(): Rect
      reads this
    {
      EntityRect(x, y)
    }

    /**
     * Whether a bomb of this enemy's range on (bombX, bombY) would hit the
     * player on (playerX, playerY): on a shared row or column within the range.
     */
    function WillBombHitPlayer(bombX: int, bombY: int, playerX: int, playerY: int): (r: bool)
      reads this
      ensures r <==> InBombPath((playerX, playerY), Blast.NewBomb(bombX, bombY, bombRange, character, 0))
    {
      if bombX == playerX || bombY == playerY then Abs(bombX - playerX) + Abs(bombY - playerY) <= bombRange else false
    }

    /**
     * Chooses the mode at time now: scans the bombs for one threatening
     * the enemy's cell, then decides as SelectMode does; the scan never
     * changes the outcome, since any bomb already means flight.
     */
    method UpdateAiMode(player: Players.Player, bombs: seq<Blast.Bomb>, now: int, attack: bool)
      modifies this`mode
      ensures State() == old(State()).(mode := mode)
      ensures mode == SelectMode(bombs, now - spawnTime, old(SqDist(player.x, player.y, x, y)), attack)
    {
      var cell := GetGridPos();
      var danger := false;
      var i := 0;
      while i < |bombs|
        invariant 0 <= i <= |bombs| && !danger
      {
        if InBombPath(cell, bombs[i]) {
          danger := true;
          break;
        }
        if Maps.Manhattan(bombs[i].Origin(), cell) <= 4 {
          danger := true;
          break;
        }
        i := i + 1;
      }
      if danger || |bombs| > 0 {
        mode := Flee;
      } else if now - spawnTime < ExploreGrace {
        mode := Explore;
      } else {
        var distSq := SqDist(player.x, player.y, x, y);
        if distSq > TilesSq(8) {
          mode := Explore;
        } else if distSq < TilesSq(5) {
          mode := Flee;
        } else if attack {
          mode := Attack;
        } else {
          mode := Explore;
        }
      }
    }

    /** Whether cell c lies outside the Manhattan range of every bomb. */
    method NoBombNear(c: Cell, bombs: seq<Blast.Bomb>) returns (clear: bool)
      ensures clear <==> ClearOfBombs(c, bombs)
    {
      clear := true;
      var i := 0;
      while i < |bombs|
        invariant 0 <= i <= |bombs| && clear
        invariant forall k :: 0 <= k < i ==> Maps.Manhattan(bombs[k].Origin(), c) > bombs[k].explosionRange
      {
        if Maps.Manhattan(bombs[i].Origin(), c) <= bombs[i].explosionRange {
          clear := false;
          break;
        }
        i := i + 1;
      }
    }

    /** The number of neighbours of (gx, gy) that are walkable and outside every bomb's range. */
    method CountEscapeRoutes(g: Grid, bombs: seq<Blast.Bomb>, gx: int, gy: int) returns (n: int)
      requires WellFormed(g)
      ensures n == EscapeCount(g, bombs, (gx, gy), 4)
    {
      n := 0;
      for c := 0 to 4
        invariant n == EscapeCount(g, bombs, (gx, gy), c)
      {
        var d := DirectionOfCode(c);
        var ex, ey := gx + d.Dx(), gy + d.Dy();
        Blast.StepFollowsDeltas((gx, gy), d, 1);
        if 0 <= ex < Cols && 0 <= ey < Rows && IsWalkable(g, ex, ey) {
          var safe := NoBombNear((ex, ey), bombs);
          if safe {
            n := n + 1;
          }
        }
      }
    }

    /** Whether every cell at steps 1..s-1 along d is walkable. */
    method PathClear(g: Grid, gx: int, gy: int, d: Direction, s: int) returns (clear: bool)
      requires WellFormed(g)
      ensures clear <==> WalkableRun(g, (gx, gy), d, s - 1)
    {
      clear := true;
      var m := 1;
      while m < s
        invariant 1 <= m && (m <= s || s < 1) && clear
        invariant WalkableRun(g, (gx, gy), d, m - 1)
      {
        Blast.StepFollowsDeltas((gx, gy), d, m);
        if !IsWalkable(g, gx + d.Dx() * m, gy + d.Dy() * m) {
          clear := false;
          break;
        }
        m := m + 1;
      }
    }

    /**
     * Whether a straight walk of 1 to 3 walkable cells from (gx, gy) ends on
     * a cell outside every bomb's range.
     */
    method HasAnyEscapeRoute(g: Grid, bombs: seq<Blast.Bomb>, gx: int, gy: int) returns (r: bool)
      requires WellFormed(g)
      ensures r <==> HasEscape(g, bombs, (gx, gy))
    {
      for c := 0 to 4
        invariant forall e: Direction, s :: e.Code() < c ==> !EscapeAt(g, bombs, (gx, gy), e, s)
      {
        var found := EscapeAlong(g, bombs, gx, gy, DirectionOfCode(c));
        if found {
          return true;
        }
      }
      r := false;
    }

    /** The search along one direction: walkable steps 1 to 3, stopping at the first safe cell with a clear path. */
    method EscapeAlong(g: Grid, bombs: seq<Blast.Bomb>, gx: int, gy: int, d: Direction) returns (r: bool)
      requires WellFormed(g)
      ensures r <==> exists s :: EscapeAt(g, bombs, (gx, gy), d, s)
    {
      var o := (gx, gy);
      var s := 1;
      while s <= 3
        invariant 1 <= s <= 4 && WalkableRun(g, o, d, s - 1)
        invariant forall t :: t < s ==> !EscapeAt(g, bombs, o, d, t)
      {
        var ex, ey := gx + d.Dx() * s, gy + d.Dy() * s;
        Blast.StepFollowsDeltas(o, d, s);
        if !(0 <= ex < Cols && 0 <= ey < Rows) {
          RunBlocked(g, o, d, s);
          return false;
        }
        if !IsWalkable(g, ex, ey) {
          RunBlocked(g, o, d, s);
          return false;
        }
        assert WalkableRun(g, o, d, s);
        var safe := NoBombNear((ex, ey), bombs);
        if safe {
          var clear := PathClear(g, gx, gy, d, s);
          if clear {
            assert EscapeAt(g, bombs, o, d, s);
            return true;
          }
        }
        assert !EscapeAt(g, bombs, o, d, s);
        s := s + 1;
      }
      r := false;
    }

    /** Bricks within this enemy's range on the four rays from (gx, gy), whatever lies between. */
    method CountStrategicBricks(g: Grid, gx: int, gy: int) returns (n: int)
      requires WellFormed(g)
      ensures n == StrategicBricks(g, (gx, gy), bombRange, 4)
    {
      n := 0;
      for c := 0 to 4
        invariant n == StrategicBricks(g, (gx, gy), bombRange, c)
      {
        var d := DirectionOfCode(c);
        var i := 1;
        while i <= bombRange
          invariant 1 <= i <= Max(bombRange + 1, 1)
          invariant n + BricksOnRay(g, (gx, gy), d, i, bombRange) ==
            StrategicBricks(g, (gx, gy), bombRange, c) + BricksOnRay(g, (gx, gy), d, 1, bombRange)
        {
          var cx, cy := gx + d.Dx() * i, gy + d.Dy() * i;
          Blast.StepFollowsDeltas((gx, gy), d, i);
          if 0 <= cx < Cols && 0 <= cy < Rows && GetTile(g, cx, cy) == Brick {
            n := n + 1;
          }
          i := i + 1;
        }
      }
    }

    /** The bomb scan of one cell: the penalties met and whether no bomb's path covers it. */
    method ProbeCell(c: Cell, bombs: seq<Blast.Bomb>) returns (penalty: int, safe: bool)
      ensures (penalty, safe) == Probe(c, bombs)
    {
      penalty, safe := 0, true;
      var i := 0;
      while i < |bombs|
        invariant 0 <= i <= |bombs| && safe
        invariant (penalty, true) == Probe(c, bombs[..i])
      {
        assert bombs[..i + 1][..i] == bombs[..i];
        if InBombPath(c, bombs[i]) {
          safe := false;
          ProbeStuck(c, bombs, i + 1);
          break;
        }
        var m := Maps.Manhattan(bombs[i].Origin(), c);
        if m <= 4 {
          penalty := penalty + (5 - m);
        }
        i := i + 1;
      }
      if safe {
        assert bombs[..i] == bombs;
      }
    }

    /** The safety score of direction d from (gx, gy). */
    method DirectionScore(g: Grid, bombs: seq<Blast.Bomb>, gx: int, gy: int, d: Direction) returns (score: int)
      requires WellFormed(g)
      ensures score == DirScore(g, (gx, gy), d, bombs, 1)
    {
      score := 0;
      var j := 1;
      while j <= 5
        invariant 1 <= j <= 6
        invariant score + DirScore(g, (gx, gy), d, bombs, j) == DirScore(g, (gx, gy), d, bombs, 1)
      {
        var cx, cy := gx + d.Dx() * j, gy + d.Dy() * j;
        Blast.StepFollowsDeltas((gx, gy), d, j);
        if !(0 <= cx < Cols && 0 <= cy < Rows) {
          break;
        }
        if !IsWalkable(g, cx, cy) {
          break;
        }
        var penalty, safe := ProbeCell((cx, cy), bombs);
        score := score - penalty;
        if safe {
          score := score + j * 2;
        } else {
          break;
        }
        j := j + 1;
      }
    }

    /** The walkable neighbours of (gx, gy), in code order. */
    method WalkableNeighbours(g: Grid, gx: int, gy: int) returns (ds: seq<Direction>)
      requires WellFormed(g)
      ensures ds == Neighbours(g, (gx, gy), 4)
    {
      ds := [];
      for c := 0 to 4
        invariant ds == Neighbours(g, (gx, gy), c)
      {
        var d := DirectionOfCode(c);
        Blast.StepFollowsDeltas((gx, gy), d, 1);
        if 0 <= gx + d.Dx() < Cols && 0 <= gy + d.Dy() < Rows && IsWalkable(g, gx + d.Dx(), gy + d.Dy()) {
          ds := ds + [d];
        }
      }
    }

    /**
     * The flight direction: the first best-scoring direction when its score
     * is positive, otherwise the first walkable neighbour, otherwise the draw.
     */
    method GetSafeDirection(g: Grid, bombs: seq<Blast.Bomb>, fallback: Direction) returns (d: Direction)
      requires WellFormed(g)
      ensures d == SafeDirection(g, GetGridPos(), bombs, fallback)
    {
      var (gx, gy) := GetGridPos();
      var scores: seq<int> := [];
      for c := 0 to 4
        invariant |scores| == c
        invariant forall k :: 0 <= k < c ==> scores[k] == DirScore(g, (gx, gy), DirectionOfCode(k), bombs, 1)
      {
        var score := DirectionScore(g, bombs, gx, gy, DirectionOfCode(c));
        scores := scores + [score];
      }
      assert scores == Scores(g, (gx, gy), bombs);
      var best := ArgMax(scores);
      if scores[best] > 0 {
        return DirectionOfCode(best);
      }
      var ns := WalkableNeighbours(g, gx, gy);
      if |ns| > 0 {
        return ns[0];
      }
      d := fallback;
    }

    /** The neighbour code of (gx, gy) with the fewest bombs in range, the first on a tie. */
    method GetLeastDangerousDirection(bombs: seq<Blast.Bomb>, gx: int, gy: int) returns (c: int)
      ensures 0 <= c < 4
      ensures forall k :: 0 <= k < 4 ==> Danger(bombs, (gx, gy), DirectionOfCode(c)) <= Danger(bombs, (gx, gy), DirectionOfCode(k))
      ensures forall k :: 0 <= k < c ==> Danger(bombs, (gx, gy), DirectionOfCode(c)) < Danger(bombs, (gx, gy), DirectionOfCode(k))
    {
      var dangers: seq<int> := [];
      for k := 0 to 4
        invariant |dangers| == k
        invariant forall m :: 0 <= m < k ==> dangers[m] == Danger(bombs, (gx, gy), DirectionOfCode(m))
      {
        var d := DirectionOfCode(k);
        var level := 0;
        for i := 0 to |bombs|
          invariant level == Danger(bombs[..i], (gx, gy), d)
        {
          assert bombs[..i + 1][..i] == bombs[..i];
          Blast.StepFollowsDeltas((gx, gy), d, 1);
          if Maps.Manhattan((gx + d.Dx(), gy + d.Dy()), bombs[i].Origin()) <= bombs[i].explosionRange {
            level := level + 1;
          }
        }
        assert bombs[..|bombs|] == bombs;
        dangers := dangers + [level];
      }
      c := ArgMin(dangers);
    }

    /**
     * The attack direction towards the player: straight along the axis of
     * the larger difference when that neighbour is walkable, otherwise a
     * drawn walkable neighbour, otherwise the fallback draw.
     */
    method GetAttackDirection(g: Grid, player: Players.Player, pick: int -> int, fallback: Direction) returns (d: Direction)
      requires WellFormed(g) && PicksInRange(pick)
      ensures d == AttackDirection(g, GetGridPos(), player.GetGridPos(), pick, fallback)
    {
      var (gx, gy) := GetGridPos();
      var (px, py) := player.GetGridPos();
      var dx, dy := px - gx, py - gy;
      ghost var fallbackChoice := Choose(Neighbours(g, (gx, gy), 4), pick, fallback);
      if Abs(dx) > Abs(dy) {
        if dx > 0 && IsWalkable(g, gx + 1, gy) {
          return Right;
        } else if dx < 0 && IsWalkable(g, gx - 1, gy) {
          return Left;
        }
      } else {
        if dy > 0 && IsWalkable(g, gx, gy + 1) {
          return Down;
        } else if dy < 0 && IsWalkable(g, gx, gy - 1) {
          return Up;
        }
      }
      var ns := WalkableNeighbours(g, gx, gy);
      d := if |ns| > 0 then ns[pick(|ns|)] else fallback;
      assert d == fallbackChoice;
    }

    /** The exploration direction: a drawn walkable neighbour, or the fallback draw when none is walkable. */
    method GetExplorationDirection(g: Grid, pick: int -> int, fallback: Direction) returns (d: Direction)
      requires WellFormed(g) && PicksInRange(pick)
      ensures d == Choose(Neighbours(g, GetGridPos(), 4), pick, fallback)
    {
      var (gx, gy) := GetGridPos();
      var ns := WalkableNeighbours(g, gx, gy);
      d := if |ns| > 0 then ns[pick(|ns|)] else fallback;
    }

    /**
     * The ultra-safe probe of direction d: walks up to 8 cells, stopping at
     * the edge, at a cell that is not walkable or at a cell within 2 of the
     * player's cell pc; safe when it stopped at no obstacle and went at
     * least 6 cells.
     */
    method ProbeDirection(g: Grid, gx: int, gy: int, d: Direction, pc: Cell) returns (safe: bool)
      requires WellFormed(g)
      ensures safe == ProbeRoute(g, (gx, gy), d, pc, 1)
    {
      var routeSafe := true;
      var distance := 0;
      var j := 1;
      while j <= 8
        invariant 1 <= j <= 9 && routeSafe
        invariant distance == j - 1
        invariant ProbeRoute(g, (gx, gy), d, pc, j) == ProbeRoute(g, (gx, gy), d, pc, 1)
      {
        distance := j;
        var c := Blast.Step((gx, gy), d, j);
        if !InBounds(c.0, c.1) {
          break;
        }
        if !IsWalkable(g, c.0, c.1) {
          routeSafe := false;
          break;
        }
        if Maps.Manhattan(c, pc) <= 2 {
          routeSafe := false;
          break;
        }
        j := j + 1;
      }
      safe := routeSafe && distance >= 6;
    }

    /**
     * The bomb decision in play: never with any bomb on the map, in panic,
     * with this enemy's bombs at capacity, with fewer than 3 safe probes or
     * with the player closer than 8 tiles; otherwise the 1 % draw decides.
     */
    predicate UltraSafe(g: Grid, player: Players.Player, bombs: seq<Blast.Bomb>, draw: bool)
      reads this, player
      requires WellFormed(g)
    {
      |bombs| == 0 && !panicMode && OwnedCount(bombs, character) < maxBombs &&
      SafeRouteCount(g, GetGridPos(), player.GetGridPos(), 4) >= 3 &&
      SqDist(player.x, player.y, x, y) >= TilesSq(8) && draw
    }

    method ShouldPlaceBombUltraSafe(g: Grid, player: Players.Player, bombs: seq<Blast.Bomb>, draw: bool) returns (r: bool)
      requires WellFormed(g)
      ensures r == UltraSafe(g, player, bombs, draw)
      ensures r ==> |bombs| == 0 && SqDist(player.x, player.y, x, y) >= TilesSq(8)
    {
      if |bombs| > 0 {
        return false;
      }
      if panicMode {
        return false;
      }
      var mine := OwnedCount(bombs, character);
      if mine >= maxBombs {
        return false;
      }
      var (gx, gy) := GetGridPos();
      var safeRoutes := 0;
      for c := 0 to 4
        invariant safeRoutes == SafeRouteCount(g, (gx, gy), player.GetGridPos(), c)
      {
        var safe := ProbeDirection(g, gx, gy, DirectionOfCode(c), player.GetGridPos());
        if safe {
          safeRoutes := safeRoutes + 1;
        }
      }
      if safeRoutes < 3 {
        return false;
      }
      if SqDist(player.x, player.y, x, y) < TilesSq(8) {
        return false;
      }
      r := draw;
    }

    /**
     * The gates of the general bomb decision at cell o: fewer own bombs than
     * the capacity, fewer than 5 bombs in all, at least 2 escape routes and
     * no other owner's bomb within 3 cells.
     */
    predicate PlacementGates(g: Grid, bombs: seq<Blast.Bomb>, o: Cell)
      reads this
      requires WellFormed(g)
    {
      OwnedCount(bombs, character) < maxBombs && |bombs| < 5 &&
      EscapeCount(g, bombs, o, 4) >= 2 && NoRivalNear(o, bombs, character)
    }

    /**
     * The general bomb decision: false unless the gates hold; then the
     * aggression draw when the player is 3 to 5 tiles away and in the
     * bomb's line, else the 40 % draw with at least 2 bricks in reach, else
     * the 10 % draw.
     */
    method ShouldPlaceBomb(g: Grid, player: Players.Player, bombs: seq<Blast.Bomb>, aggressive: bool, brickDraw: bool, whim: bool)
      returns (r: bool)
      requires WellFormed(g)
      ensures r ==> PlacementGates(g, bombs, GetGridPos())
      ensures PlacementGates(g, bombs, GetGridPos()) ==>
        var o, pc := GetGridPos(), player.GetGridPos();
        var distSq := SqDist(player.x, player.y, x, y);
        r == if TilesSq(3) <= distSq <= TilesSq(5) && WillBombHitPlayer(o.0, o.1, pc.0, pc.1) then aggressive
             else if StrategicBricks(g, o, bombRange, 4) >= 2 then brickDraw
             else whim
    {
      var mine := OwnedCount(bombs, character);
      if mine >= maxBombs || |bombs| >= 5 {
        return false;
      }
      var (gx, gy) := GetGridPos();
      var routes := CountEscapeRoutes(g, bombs, gx, gy);
      if routes < 2 {
        return false;
      }
      for i := 0 to |bombs|
        invariant forall k :: 0 <= k < i && bombs[k].owner != character ==> Maps.Manhattan(bombs[k].Origin(), (gx, gy)) > 3
      {
        if bombs[i].owner != character && Maps.Manhattan(bombs[i].Origin(), (gx, gy)) <= 3 {
          return false;
        }
      }
      var distSq := SqDist(player.x, player.y, x, y);
      if TilesSq(3) <= distSq <= TilesSq(5) {
        var (px, py) := player.GetGridPos();
        if WillBombHitPlayer(gx, gy, px, py) {
          return aggressive;
        }
      }
      var bricks := CountStrategicBricks(g, gx, gy);
      if bricks >= 2 {
        return brickDraw;
      }
      r := whim;
    }

    /**
     * Drops a bomb on the enemy's cell at time now, unless one is already
     * there; reports whether it did.
     */
    method PlaceBomb(bombs: seq<Blast.Bomb>, now: int) returns (placed: bool, bombs': seq<Blast.Bomb>)
      modifies this`lastBombTime
      ensures var o := old(GetGridPos());
        if exists i :: 0 <= i < |bombs| && bombs[i].Origin() == o then
          !placed && bombs' == bombs && State() == old(State())
        else
          placed && bombs' == bombs + [Blast.NewBomb(o.0, o.1, bombRange, character, now)] &&
          State() == old(State()).(lastBombTime := now)
    {
      var (gx, gy) := GetGridPos();
      for i := 0 to |bombs|
        invariant forall k :: 0 <= k < i ==> bombs[k].Origin() != (gx, gy)
      {
        if bombs[i].gridX == gx && bombs[i].gridY == gy {
          return false, bombs;
        }
      }
      bombs' := bombs + [Blast.NewBomb(gx, gy, bombRange, character, now)];
      lastBombTime := now;
      placed := true;
    }

    /**
     * The turn of a movement tick: after 1500 ms since the last turn, or when
     * the 5 % draw `whim` says so, the enemy faces the direction its mode
     * steers to and records the time.
     */
    method Turn(g: Grid, bombs: seq<Blast.Bomb>, player: Players.Player, now: int, whim: bool,
                pick: int -> int, fallback: Direction)
      requires WellFormed(g) && PicksInRange(pick)
      modifies this`direction, this`lastDirectionChange
      ensures if now - old(lastDirectionChange) > TurnPeriod || whim then
          State() == old(State()).(direction := old(Steer(g, bombs, GetGridPos(), player.GetGridPos(), mode, pick, fallback)),
                                   lastDirectionChange := now)
        else State() == old(State())
    {
      if now - lastDirectionChange > TurnPeriod || whim {
        var heading: Direction;
        match mode {
          case Flee =>
            heading := GetSafeDirection(g, bombs, fallback);
          case Attack =>
            heading := GetAttackDirection(g, player, pick, fallback);
          case Explore =>
            heading := GetExplorationDirection(g, pick, fallback);
        }
        direction, lastDirectionChange := heading, now;
      }
    }

    /**
     * The step of a movement tick: by the speed in the current direction if
     * the enemy movement test accepts the target; otherwise the enemy stops
     * and tries the four random directions `tries` in order, taking the
     * first the test accepts and recording the time.
     */
    method Walk(g: Grid, now: int, tries: seq<Direction>)
      requires WellFormed(g) && |tries| == 4
      modifies this`x, this`y, this`direction, this`lastDirectionChange, this`isMoving
      ensures var st := old(State());
        if Accepts(g, st.x, st.y, speed, st.direction) then
          State() == st.(x := st.x + st.direction.Dx() * speed, y := st.y + st.direction.Dy() * speed, isMoving := true)
        else
          match FirstWorkingTry(g, st.x, st.y, speed, tries, 0)
          case None => State() == st.(isMoving := false)
          case Some(t) => State() == st.(x := st.x + t.Dx() * speed, y := st.y + t.Dy() * speed,
                                         direction := t, lastDirectionChange := now, isMoving := true)
      ensures isMoving ==> InsideField(x, y)
    {
      if Accepts(g, x, y, speed, direction) {
        x, y := x + direction.Dx() * speed, y + direction.Dy() * speed;
        isMoving := true;
      } else {
        Retry(g, now, tries);
      }
    }

    /**
     * A blocked step: the enemy stops and tries the four random directions
     * in order, taking the first the movement test accepts.
     */
    method Retry(g: Grid, now: int, tries: seq<Direction>)
      requires WellFormed(g) && |tries| == 4
      modifies this`x, this`y, this`direction, this`lastDirectionChange, this`isMoving
      ensures var st := old(State());
        match FirstWorkingTry(g, st.x, st.y, speed, tries, 0)
        case None => State() == st.(isMoving := false)
        case Some(t) => State() == st.(x := st.x + t.Dx() * speed, y := st.y + t.Dy() * speed,
                                       direction := t, lastDirectionChange := now, isMoving := true)
      ensures isMoving ==> InsideField(x, y)
    {
      isMoving := false;
      for k := 0 to 4
        invariant State() == old(State()).(isMoving := false)
        invariant FirstWorkingTry(g, x, y, speed, tries, k) == FirstWorkingTry(g, x, y, speed, tries, 0)
      {
        var t := tries[k];
        if Accepts(g, x, y, speed, t) {
          direction := t;
          x, y := x + t.Dx() * speed, y + t.Dy() * speed;
          lastDirectionChange := now;
          isMoving := true;
          return;
        }
      }
    }

    /** One movement tick at time now: the turn, then the step. */
    method UpdateMovement(g: Grid, bombs: seq<Blast.Bomb>, player: Players.Player, now: int, whim: bool,
                          pick: int -> int, fallback: Direction, tries: seq<Direction>)
      requires WellFormed(g) && PicksInRange(pick) && |tries| == 4
      modifies this`x, this`y, this`direction, this`lastDirectionChange, this`isMoving
      ensures var turn := now - old(lastDirectionChange) > TurnPeriod || whim;
        var heading := if turn then old(Steer(g, bombs, GetGridPos(), player.GetGridPos(), mode, pick, fallback))
                       else old(direction);
        var stamp := if turn then now else old(lastDirectionChange);
        var st := old(State());
        if Accepts(g, st.x, st.y, speed, heading) then
          State() == st.(x := st.x + heading.Dx() * speed, y := st.y + heading.Dy() * speed,
                         direction := heading, lastDirectionChange := stamp, isMoving := true)
        else
          match FirstWorkingTry(g, st.x, st.y, speed, tries, 0)
          case None => State() == st.(direction := heading, lastDirectionChange := stamp, isMoving := false)
          case Some(t) => State() == st.(x := st.x + t.Dx() * speed, y := st.y + t.Dy() * speed,
                                         direction := t, lastDirectionChange := now, isMoving := true)
      ensures isMoving ==> InsideField(x, y)
    {
      Turn(g, bombs, player, now, whim, pick, fallback);
      Walk(g, now, tries);
    }

    /**
     * One tick of a living enemy at time now: the mode is chosen first; then,
     * once the cooldown and the two-minute truce since spawning have passed
     * and the enemy is not in panic, the ultra-safe decision may drop a bomb,
     * after which the cooldown is redrawn as `newCooldown` whether or not the
     * bomb was placed; finally the enemy moves, seeing the new bomb. A dead
     * enemy does nothing.
     */
    method Update(g: Grid, player: Players.Player, bombs: seq<Blast.Bomb>, now: int, attack: bool, draw: bool,
                  newCooldown: int, whim: bool, pick: int -> int, fallback: Direction, tries: seq<Direction>)
      returns (bombs': seq<Blast.Bomb>)
      requires WellFormed(g) && PicksInRange(pick) && |tries| == 4
      requires 180000 <= newCooldown <= 300000
      modifies this
      ensures !old(alive) ==> bombs' == bombs && State() == old(State())
      ensures old(alive) ==> mode == SelectMode(bombs, now - spawnTime, old(SqDist(player.x, player.y, x, y)), attack)
      ensures var wants := old(alive) && now - old(lastBombTime) > old(bombCooldown) && now - spawnTime > 120000 &&
                           !old(panicMode) && old(UltraSafe(g, player, bombs, draw));
        var o := old(GetGridPos());
        (wants ==> bombs' == [Blast.NewBomb(o.0, o.1, bombRange, character, now)] &&
                   lastBombTime == now && bombCooldown == newCooldown) &&
        (!wants ==> bombs' == bombs && lastBombTime == old(lastBombTime) && bombCooldown == old(bombCooldown))
      ensures alive == old(alive) && panicMode == old(panicMode)
      ensures old(alive) && isMoving ==> InsideField(x, y)
    {
      if !alive {
        return bombs;
      }
      bombs' := Decide(g, player, bombs, now, attack, draw, newCooldown);
      UpdateMovement(g, bombs', player, now, whim, pick, fallback, tries);
    }

    /**
     * The first half of a tick of a living enemy: the mode, then, when the
     * cooldown and the truce have passed and the enemy is not in panic, the
     * ultra-safe decision, a bomb and a fresh cooldown.
     */
    method Decide(g: Grid, player: Players.Player, bombs: seq<Blast.Bomb>, now: int, attack: bool, draw: bool,
                  newCooldown: int)
      returns (bombs': seq<Blast.Bomb>)
      requires WellFormed(g)
      modifies this`mode, this`lastBombTime, this`bombCooldown
      ensures mode == SelectMode(bombs, now - spawnTime, old(SqDist(player.x, player.y, x, y)), attack)
      ensures var wants := now - old(lastBombTime) > old(bombCooldown) && now - spawnTime > 120000 &&
                           !old(panicMode) && old(UltraSafe(g, player, bombs, draw));
        var o := old(GetGridPos());
        (wants ==> bombs' == [Blast.NewBomb(o.0, o.1, bombRange, character, now)] &&
                   State() == old(State()).(mode := mode, lastBombTime := now, bombCooldown := newCooldown)) &&
        (!wants ==> bombs' == bombs && State() == old(State()).(mode := mode))
    {
      UpdateAiMode(player, bombs, now, attack);
      bombs' := bombs;
      if now - lastBombTime > bombCooldown && now - spawnTime > 120000 && !panicMode {
        var wanted := ShouldPlaceBombUltraSafe(g, player, bombs, draw);
        if wanted {
          var placed;
          placed, bombs' := PlaceBomb(bombs, now);
          bombCooldown := newCooldown;
        }
      }
    }
  }

  /** A cell that is not walkable at step s blocks every walk of s or more steps. */
  lemma RunBlocked(g: Grid, o: Cell, d: Direction, s: int)
    requires WellFormed(g) && s >= 1 && !IsWalkable(g, Blast.Step(o, d, s).0, Blast.Step(o, d, s).1)
    ensures forall bombs: seq<Blast.Bomb>, t :: t >= s ==> !EscapeAt(g, bombs, o, d, t)
  {
  }
}
