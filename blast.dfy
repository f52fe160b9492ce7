/**
 * Bombs and explosions (classes Bomb and Explosion of game/entities.py):
 * the fuse, the four-armed blast written onto the tile map, and the
 * explosion's animation and clean-up. The clock is the parameter `now`;
 * the 30 % power-up draw and the kind draw are oracle parameters.
 */
module Blast {
  import opened Constants
  import opened Tiles
  import opened Pickups
  import Maps
  import Seqs

  type Cell = (int, int)

  // ---------------------------------------------------------------------
  // The fuse

  /** Milliseconds per blink phase: max(100, 1000 - elapsed). */
  function BlinkRate(elapsed: int): (r: int)
    ensures r >= 100 && r >= 1000 - elapsed
    ensures r == 100 || r == 1000 - elapsed
  {
    if 1000 - elapsed > 100 then 1000 - elapsed else 100
  }

  datatype Bomb = Bomb(gridX: int, gridY: int, explosionRange: int, owner: Character,
                       timer: int, animationTimer: int, blinking: bool)
  {
    function Origin(): Cell { (gridX, gridY) }

    /**
     * One frame of the fuse at time now: the animation clock advances by
     * dt, the blink phase follows the elapsed time, and the flag says
     * whether the fuse has burnt down. Nothing else changes.
     */
    function Update(dt: int, now: int): (r: (Bomb, bool))
      ensures r.1 <==> now - timer >= BombTimer
      ensures r.0 == this.(animationTimer := animationTimer + dt, blinking := r.0.blinking)
      ensures r.0.blinking <==> ((now - timer) / BlinkRate(now - timer)) % 2 == 0
    {
      var elapsed := now - timer;
      (this.(animationTimer := animationTimer + dt,
             blinking := (elapsed / BlinkRate(elapsed)) % 2 == 0),
       elapsed >= BombTimer)
    }
  }

  /** A bomb lit at time now on cell (gx, gy). */
  function NewBomb(gx: int, gy: int, range: int, owner: Character, now: int): (b: Bomb)
    ensures b.Origin() == (gx, gy) && b.explosionRange == range && b.owner == owner && b.timer == now
    ensures !b.Update(0, now).1
  {
    Bomb.Bomb(gx, gy, range, owner, now, 0, false)
  }

  /** A bomb explodes on the first update at least BombTimer after it was lit, and from then on. */
  lemma FuseMonotone(b: Bomb, dt: int, now: int, later: int)
    requires now <= later
    ensures b.Update(dt, now).1 ==> b.Update(dt, later).1
    ensures now < b.timer + BombTimer <= later ==> !b.Update(dt, now).1 && b.Update(dt, later).1
  {
  }

  // ---------------------------------------------------------------------
  // The blast, as a function of the grid before it

  /** The cell j steps from o in direction d. */
  function Step(o: Cell, d: Direction, j: int): Cell
  {
    match d
    case Up => (o.0, o.1 - j)
    case Right => (o.0 + j, o.1)
    case Down => (o.0, o.1 + j)
    case Left => (o.0 - j, o.1)
  }

  /** Steps follow the delta table. */
  lemma StepFollowsDeltas(o: Cell, d: Direction, j: int)
    ensures Step(o, d, j) == (o.0 + d.Dx() * j, o.1 + d.Dy() * j)
  {
  }

  /** The direction code of the ray from o through t, or -1 when t is o or on none of the four rays. */
  function RayCode(o: Cell, t: Cell): int
  {
    if t.0 == o.0 && t.1 < o.1 then 0
    else if t.1 == o.1 && t.0 > o.0 then 1
    else if t.0 == o.0 && t.1 > o.1 then 2
    else if t.1 == o.1 && t.0 < o.0 then 3
    else -1
  }

  /** A cell j >= 1 steps away lies on the ray of d, at distance j. */
  lemma StepOnRay(o: Cell, d: Direction, j: int)
    requires j >= 1
    ensures RayCode(o, Step(o, d, j)) == d.Code() && Maps.Manhattan(o, Step(o, d, j)) == j
  {
  }

  /** Cells a blast may mark: only empty cells and bricks. */
  predicate Markable(t: TileType)
  {
    t == Empty || t == Brick
  }

  /** No wall, brick or out-of-bounds cell lies at steps i..j-1 from o along d. */
  predicate PassableBetween(g: Grid, o: Cell, d: Direction, i: int, j: int)
    requires WellFormed(g)
  {
    forall m :: i <= m < j ==> !IsBlocking(GetTile(g, Step(o, d, m).0, Step(o, d, m).1))
  }

  /**
   * The cells one arm marks, looking at steps i..range: a wall or the edge
   * stops it before marking, a brick is marked and stops it, an empty cell
   * is marked and the arm goes on, any other kind is passed over unmarked.
   */
  function Arm(g: Grid, o: Cell, d: Direction, i: int, range: int): (cs: seq<Cell>)
    requires WellFormed(g)
    decreases range - i + 1
  {
    if i > range then []
    else
      var c := Step(o, d, i);
      match GetTile(g, c.0, c.1)
      case Wall => []
      case Brick => [c]
      case Empty => [c] + Arm(g, o, d, i + 1, range)
      case _ => Arm(g, o, d, i + 1, range)
  }

  /** The arms of the direction codes 0..k-1, in that order. */
  function Arms(g: Grid, o: Cell, range: int, k: int): seq<Cell>
    requires WellFormed(g) && 0 <= k <= 4
    decreases k
  {
    if k == 0 then [] else Arms(g, o, range, k - 1) + Arm(g, o, DirectionOfCode(k - 1), 1, range)
  }

  /** The explosion's tiles: the bomb's own cell, then the four arms. */
  function BlastTiles(g: Grid, b: Bomb): seq<Cell>
    requires WellFormed(g)
  {
    [b.Origin()] + Arms(g, b.Origin(), b.explosionRange, 4)
  }

  /** The power-ups left by the marked cells cs: one on each brick whose 30 % draw succeeded. */
  function BlastDrops(g: Grid, cs: seq<Cell>, drop: (int, int) -> bool, kind: (int, int) -> KindIndex): (ps: seq<PowerUp>)
    requires WellFormed(g)
    decreases |cs|
    ensures |ps| <= |cs|
  {
    if cs == [] then []
    else
      var c := cs[|cs| - 1];
      BlastDrops(g, cs[..|cs| - 1], drop, kind) +
      (if GetTile(g, c.0, c.1) == Brick && drop(c.0, c.1) then [NewPowerUp(c.0, c.1, PowerupKinds[kind(c.0, c.1)])] else [])
  }

  predicate Distinct(s: seq<Cell>)
  {
    forall a, c :: 0 <= a < c < |s| ==> s[a] != s[c]
  }

  // ---------------------------------------------------------------------
  // Properties of the blast

  /**
   * The cell j steps along d is marked by the arm from step i exactly when
   * i <= j <= range, nothing blocking lies at steps i..j-1, and the cell is
   * an empty cell or a brick.
   */
  lemma {:induction false} ArmMembers(g: Grid, o: Cell, d: Direction, i: int, range: int, j: int)
    requires WellFormed(g)
    decreases range - i + 1
    ensures Step(o, d, j) in Arm(g, o, d, i, range) <==>
      i <= j <= range && PassableBetween(g, o, d, i, j) && Markable(GetTile(g, Step(o, d, j).0, Step(o, d, j).1))
  {
    if i <= range {
      var c := Step(o, d, i);
      var t := GetTile(g, c.0, c.1);
      if t != Wall && t != Brick {
        ArmMembers(g, o, d, i + 1, range, j);
        if j > i && PassableBetween(g, o, d, i + 1, j) {
          assert PassableBetween(g, o, d, i, j);
        }
      }
      if j > i && PassableBetween(g, o, d, i, j) {
        assert !IsBlocking(t);
      }
    }
  }

  /** The arm from step i >= 1 lies on the ray of d, at distances i..range. */
  lemma {:induction false} ArmOnRay(g: Grid, o: Cell, d: Direction, i: int, range: int, a: int)
    requires WellFormed(g) && i >= 1 && 0 <= a < |Arm(g, o, d, i, range)|
    decreases range - i + 1
    ensures var c := Arm(g, o, d, i, range)[a];
      RayCode(o, c) == d.Code() && i <= Maps.Manhattan(o, c) <= range && c == Step(o, d, Maps.Manhattan(o, c))
  {
    StepOnRay(o, d, i);
    var t := GetTile(g, Step(o, d, i).0, Step(o, d, i).1);
    if t == Empty && a > 0 {
      ArmOnRay(g, o, d, i + 1, range, a - 1);
    } else if t != Empty && t != Brick {
      ArmOnRay(g, o, d, i + 1, range, a);
    }
  }

  /** Along the arm the distance from the bomb strictly increases. */
  lemma {:induction false} ArmIncreasing(g: Grid, o: Cell, d: Direction, i: int, range: int, a: int, c: int)
    requires WellFormed(g) && i >= 1 && 0 <= a < c < |Arm(g, o, d, i, range)|
    decreases range - i + 1
    ensures Maps.Manhattan(o, Arm(g, o, d, i, range)[a]) < Maps.Manhattan(o, Arm(g, o, d, i, range)[c])
  {
    StepOnRay(o, d, i);
    var t := GetTile(g, Step(o, d, i).0, Step(o, d, i).1);
    if t == Empty {
      if a == 0 {
        ArmOnRay(g, o, d, i + 1, range, c - 1);
      } else {
        ArmIncreasing(g, o, d, i + 1, range, a - 1, c - 1);
      }
    } else {
      ArmIncreasing(g, o, d, i + 1, range, a, c);
    }
  }

  /** An arm from step i marks at most range - i + 1 cells. */
  lemma {:induction false} ArmLength(g: Grid, o: Cell, d: Direction, i: int, range: int)
    requires WellFormed(g)
    decreases range - i + 1
    ensures |Arm(g, o, d, i, range)| <= Max(range - i + 1, 0)
  {
    if i <= range {
      ArmLength(g, o, d, i + 1, range);
    }
  }

  /** The first k arms lie on the rays 0..k-1, at distances 1..range. */
  lemma {:induction false} ArmsOnRays(g: Grid, o: Cell, range: int, k: int, a: int)
    requires WellFormed(g) && 0 <= k <= 4 && 0 <= a < |Arms(g, o, range, k)|
    decreases k
    ensures var c := Arms(g, o, range, k)[a];
      0 <= RayCode(o, c) < k && 1 <= Maps.Manhattan(o, c) <= range
  {
    var front := Arms(g, o, range, k - 1);
    if a < |front| {
      ArmsOnRays(g, o, range, k - 1, a);
    } else {
      ArmOnRay(g, o, DirectionOfCode(k - 1), 1, range, a - |front|);
    }
  }

  lemma MulStep(k: int, m: int)
    ensures (k - 1) * m + m == k * m
  {
  }

  /** The first k arms hold at most k * range cells. */
  lemma {:induction false} ArmsLength(g: Grid, o: Cell, range: int, k: int)
    requires WellFormed(g) && 0 <= k <= 4
    decreases k
    ensures |Arms(g, o, range, k)| <= k * Max(range, 0)
  {
    if k > 0 {
      ArmsLength(g, o, range, k - 1);
      ArmLength(g, o, DirectionOfCode(k - 1), 1, range);
      MulStep(k, Max(range, 0));
    }
  }

  /** The first k arms repeat no cell. */
  lemma {:induction false} ArmsDistinct(g: Grid, o: Cell, range: int, k: int)
    requires WellFormed(g) && 0 <= k <= 4
    decreases k
    ensures Distinct(Arms(g, o, range, k))
  {
    if k > 0 {
      var d := DirectionOfCode(k - 1);
      var front, arm := Arms(g, o, range, k - 1), Arm(g, o, d, 1, range);
      ArmsDistinct(g, o, range, k - 1);
      var cs := front + arm;
      assert Arms(g, o, range, k) == cs;
      forall a, c | 0 <= a < c < |cs| ensures cs[a] != cs[c] {
        if a >= |front| {
          assert cs[a] == arm[a - |front|] && cs[c] == arm[c - |front|];
          ArmIncreasing(g, o, d, 1, range, a - |front|, c - |front|);
        } else if c >= |front| {
          assert cs[a] == front[a] && cs[c] == arm[c - |front|];
          ArmsOnRays(g, o, range, k - 1, a);
          ArmOnRay(g, o, d, 1, range, c - |front|);
        } else {
          assert cs[a] == front[a] && cs[c] == front[c];
        }
      }
    }
  }

  /**
   * The explosion's tiles start with the bomb's cell, repeat no cell and
   * number at most 4 * range + 1.
   */
  lemma BlastTilesShape(g: Grid, b: Bomb)
    requires WellFormed(g)
    ensures var ts := BlastTiles(g, b);
      ts[0] == b.Origin() && Distinct(ts) && |ts| <= 4 * Max(b.explosionRange, 0) + 1
  {
    var o, arms := b.Origin(), Arms(g, b.Origin(), b.explosionRange, 4);
    ArmsDistinct(g, o, b.explosionRange, 4);
    ArmsLength(g, o, b.explosionRange, 4);
    forall a | 0 <= a < |arms| ensures arms[a] != o {
      ArmsOnRays(g, o, b.explosionRange, 4, a);
    }
    HeadedDistinct(o, arms);
  }

  /** A cell put in front of distinct cells that avoid it keeps them distinct. */
  lemma HeadedDistinct(o: Cell, s: seq<Cell>)
    requires Distinct(s) && forall a :: 0 <= a < |s| ==> s[a] != o
    ensures Distinct([o] + s)
  {
    var ts := [o] + s;
    forall a, c | 0 <= a < c < |ts| ensures ts[a] != ts[c] {
      if a > 0 {
        assert ts[a] == s[a - 1] && ts[c] == s[c - 1];
      }
    }
  }

  /** The arms before code k and after it never reach the cells of the ray k. */
  lemma {:induction false} ArmsAvoidRay(g: Grid, o: Cell, range: int, k: int, d: Direction, j: int)
    requires WellFormed(g) && 0 <= k <= 4 && j >= 1 && d.Code() >= k
    decreases k
    ensures Step(o, d, j) !in Arms(g, o, range, k)
  {
    StepOnRay(o, d, j);
    if Step(o, d, j) in Arms(g, o, range, k) {
      var a :| 0 <= a < |Arms(g, o, range, k)| && Arms(g, o, range, k)[a] == Step(o, d, j);
      ArmsOnRays(g, o, range, k, a);
    }
  }

  /**
   * The cell j >= 1 steps from the bomb along d is an explosion tile exactly
   * when j <= range, nothing blocking lies at steps 1..j-1 and the cell was
   * empty or a brick.
   */
  lemma BlastReach(g: Grid, b: Bomb, d: Direction, j: int)
    requires WellFormed(g) && j >= 1
    ensures var c := Step(b.Origin(), d, j);
      c in BlastTiles(g, b) <==>
      j <= b.explosionRange && PassableBetween(g, b.Origin(), d, 1, j) && Markable(GetTile(g, c.0, c.1))
  {
    var o, r := b.Origin(), b.explosionRange;
    var c := Step(o, d, j);
    StepOnRay(o, d, j);
    ArmMembers(g, o, d, 1, r, j);
    var k := d.Code();
    assert DirectionOfCode(k) == d;
    ArmsAvoidRay(g, o, r, k, d, j);
    ArmsSplit(g, o, r, k);
    var before, arm, after := Arms(g, o, r, k), Arm(g, o, d, 1, r), Arms(g, o, r, 4);
    if c in after {
      var a :| 0 <= a < |after| && after[a] == c;
      if a >= |before| + |arm| {
        ArmsAfter(g, o, r, k, a);
      }
    }
  }

  /** The first k + 1 arms are the first k followed by arm k. */
  lemma ArmsSplit(g: Grid, o: Cell, range: int, k: int)
    requires WellFormed(g) && 0 <= k < 4
    ensures |Arms(g, o, range, k + 1)| <= |Arms(g, o, range, 4)|
    ensures Arms(g, o, range, 4)[..|Arms(g, o, range, k + 1)|] == Arms(g, o, range, k + 1)
    ensures Arms(g, o, range, k + 1) == Arms(g, o, range, k) + Arm(g, o, DirectionOfCode(k), 1, range)
  {
    ArmsPrefix(g, o, range, k + 1, 4);
  }

  /** The first k arms are a prefix of the first m >= k arms. */
  lemma {:induction false} ArmsPrefix(g: Grid, o: Cell, range: int, k: int, m: int)
    requires WellFormed(g) && 0 <= k <= m <= 4
    decreases m
    ensures |Arms(g, o, range, k)| <= |Arms(g, o, range, m)|
    ensures Arms(g, o, range, m)[..|Arms(g, o, range, k)|] == Arms(g, o, range, k)
  {
    if k < m {
      ArmsPrefix(g, o, range, k, m - 1);
      var p, q := Arms(g, o, range, k), Arms(g, o, range, m - 1);
      assert (q + Arm(g, o, DirectionOfCode(m - 1), 1, range))[..|p|] == q[..|p|];
    }
  }

  /** A cell after the first k + 1 arms lies on a ray of code greater than k. */
  lemma ArmsAfter(g: Grid, o: Cell, range: int, k: int, a: int)
    requires WellFormed(g) && 0 <= k < 4
    requires |Arms(g, o, range, k + 1)| <= a < |Arms(g, o, range, 4)|
    ensures RayCode(o, Arms(g, o, range, 4)[a]) > k
  {
    ArmsTail(g, o, range, k + 1, 4, a);
  }

  /** A cell past the first k arms lies on a ray of code at least k. */
  lemma {:induction false} ArmsTail(g: Grid, o: Cell, range: int, k: int, m: int, a: int)
    requires WellFormed(g) && 0 <= k <= m <= 4
    requires |Arms(g, o, range, k)| <= a < |Arms(g, o, range, m)|
    decreases m
    ensures RayCode(o, Arms(g, o, range, m)[a]) >= k
  {
    var q := Arms(g, o, range, m - 1);
    ArmsPrefix(g, o, range, k, m - 1);
    if a < |q| {
      ArmsTail(g, o, range, k, m - 1, a);
    } else {
      var d := DirectionOfCode(m - 1);
      ArmOnRay(g, o, d, 1, range, a - |q|);
      assert Arms(g, o, range, m)[a] == Arm(g, o, d, 1, range)[a - |q|];
    }
  }

  /** Every dropped power-up lies on a marked cell that was a brick, and is of a power-up kind. */
  lemma {:induction false} BlastDropsOnBricks(g: Grid, cs: seq<Cell>, drop: (int, int) -> bool, kind: (int, int) -> KindIndex, i: int)
    requires WellFormed(g)
    requires 0 <= i < |BlastDrops(g, cs, drop, kind)|
    decreases |cs|
    ensures var p := BlastDrops(g, cs, drop, kind)[i];
      (p.gridX, p.gridY) in cs && GetTile(g, p.gridX, p.gridY) == Brick && IsPowerupKind(p.kind) &&
      drop(p.gridX, p.gridY)
  {
    var init := cs[..|cs| - 1];
    if i < |BlastDrops(g, init, drop, kind)| {
      BlastDropsOnBricks(g, init, drop, kind, i);
      assert forall c :: c in init ==> c in cs;
    }
  }

  lemma BlastDropsSnoc(g: Grid, cs: seq<Cell>, c: Cell, drop: (int, int) -> bool, kind: (int, int) -> KindIndex)
    requires WellFormed(g)
    ensures BlastDrops(g, cs + [c], drop, kind) == BlastDrops(g, cs, drop, kind) +
      (if GetTile(g, c.0, c.1) == Brick && drop(c.0, c.1) then [NewPowerUp(c.0, c.1, PowerupKinds[kind(c.0, c.1)])] else [])
  {
    assert (cs + [c])[..|cs|] == cs;
  }

  // ---------------------------------------------------------------------
  // Explode, on the tile map

  /** A single cell drops a power-up exactly when it is a brick and the draw says so. */
  lemma BlastDropsSingle(g: Grid, c: Cell, drop: (int, int) -> bool, kind: (int, int) -> KindIndex)
    requires WellFormed(g)
    ensures BlastDrops(g, [c], drop, kind) ==
      if GetTile(g, c.0, c.1) == Brick && drop(c.0, c.1) then [NewPowerUp(c.0, c.1, PowerupKinds[kind(c.0, c.1)])] else []
  {
    assert [c][..0] == [];
  }

  /** Cells of g are marked EXPLOSION exactly at the tiles ts, and are as in g0 elsewhere. */
  ghost predicate MarkedAt(g: Grid, g0: Grid, ts: seq<Cell>)
  {
    WellFormed(g) && WellFormed(g0) &&
    forall y, x :: InBounds(x, y) ==> g[y][x] == if (x, y) in ts then TileType.Explosion else g0[y][x]
  }

  /** The cells already taken before step i of arm k: the bomb's cell, the earlier arms and the closer cells of arm k. */
  ghost predicate TakenBefore(o: Cell, ts: seq<Cell>, k: int, i: int)
  {
    forall t :: t in ts ==> t == o || (0 <= RayCode(o, t) < k) || (RayCode(o, t) == k && Maps.Manhattan(o, t) < i)
  }

  /**
   * Progress of arm d at step i: the cells marked so far followed by the
   * rest of the arm are the cells before the arm followed by the whole arm,
   * and likewise for the dropped power-ups.
   */
  ghost predicate ArmProgress(g0: Grid, o: Cell, d: Direction, r: int, i: int, kind: (int, int) -> KindIndex, drop: (int, int) -> bool,
                              arms: seq<Cell>, cur: seq<Cell>, p0: seq<PowerUp>, ps: seq<PowerUp>)
  {
    WellFormed(g0) && 1 <= i &&
    cur + Arm(g0, o, d, i, r) == arms + Arm(g0, o, d, 1, r) &&
    ps + BlastDrops(g0, Arm(g0, o, d, i, r), drop, kind) == p0 + BlastDrops(g0, Arm(g0, o, d, 1, r), drop, kind)
  }

  /** The arm is complete: its cells and its drops have all been added. */
  ghost predicate ArmDone(g0: Grid, o: Cell, d: Direction, r: int, kind: (int, int) -> KindIndex, drop: (int, int) -> bool,
                          arms: seq<Cell>, cur: seq<Cell>, p0: seq<PowerUp>, ps: seq<PowerUp>)
  {
    WellFormed(g0) &&
    cur == arms + Arm(g0, o, d, 1, r) && ps == p0 + BlastDrops(g0, Arm(g0, o, d, 1, r), drop, kind)
  }

  /** The cell about to be read has not been marked yet, so the map still shows the grid before the blast. */
  lemma NotYetMarked(g: Grid, g0: Grid, o: Cell, ts: seq<Cell>, d: Direction, i: int)
    requires MarkedAt(g, g0, ts) && TakenBefore(o, ts, d.Code(), i) && i >= 1
    requires InBounds(Step(o, d, i).0, Step(o, d, i).1)
    ensures Step(o, d, i) !in ts
    ensures g[Step(o, d, i).1][Step(o, d, i).0] == g0[Step(o, d, i).1][Step(o, d, i).0]
  {
    StepOnRay(o, d, i);
  }

  /** Marking the cell at step i keeps the map and the taken cells in step. */
  lemma MarkStep(g: Grid, g0: Grid, o: Cell, ts: seq<Cell>, d: Direction, i: int)
    requires MarkedAt(g, g0, ts) && TakenBefore(o, ts, d.Code(), i) && i >= 1
    ensures var c := Step(o, d, i);
      MarkedAt(SetCell(g, c.0, c.1, TileType.Explosion), g0, ts + [c]) && TakenBefore(o, ts + [c], d.Code(), i + 1)
  {
    StepOnRay(o, d, i);
  }

  /** Passing over a cell moves the arm on without marking. */
  lemma ArmPass(g0: Grid, o: Cell, d: Direction, r: int, i: int, kind: (int, int) -> KindIndex, drop: (int, int) -> bool,
                arms: seq<Cell>, cur: seq<Cell>, p0: seq<PowerUp>, ps: seq<PowerUp>)
    requires ArmProgress(g0, o, d, r, i, kind, drop, arms, cur, p0, ps) && i <= r
    requires var t := GetTile(g0, Step(o, d, i).0, Step(o, d, i).1); t != Wall && t != Brick && t != Empty
    ensures ArmProgress(g0, o, d, r, i + 1, kind, drop, arms, cur, p0, ps)
  {
  }

  /** Marking an empty cell moves the arm on. */
  lemma ArmMarkEmpty(g0: Grid, o: Cell, d: Direction, r: int, i: int, kind: (int, int) -> KindIndex, drop: (int, int) -> bool,
                     arms: seq<Cell>, cur: seq<Cell>, p0: seq<PowerUp>, ps: seq<PowerUp>)
    requires ArmProgress(g0, o, d, r, i, kind, drop, arms, cur, p0, ps) && i <= r
    requires GetTile(g0, Step(o, d, i).0, Step(o, d, i).1) == Empty
    ensures ArmProgress(g0, o, d, r, i + 1, kind, drop, arms, cur + [Step(o, d, i)], p0, ps)
  {
    ArmEmptyUnfold(g0, o, d, r, i, kind, drop);
    Seqs.AppendAssoc(cur, [Step(o, d, i)], Arm(g0, o, d, i + 1, r));
  }

  /** At an empty cell the arm goes on, and the cell itself drops nothing. */
  lemma ArmEmptyUnfold(g0: Grid, o: Cell, d: Direction, r: int, i: int, kind: (int, int) -> KindIndex, drop: (int, int) -> bool)
    requires WellFormed(g0) && i <= r
    requires GetTile(g0, Step(o, d, i).0, Step(o, d, i).1) == Empty
    ensures Arm(g0, o, d, i, r) == [Step(o, d, i)] + Arm(g0, o, d, i + 1, r)
    ensures BlastDrops(g0, Arm(g0, o, d, i, r), drop, kind) == BlastDrops(g0, Arm(g0, o, d, i + 1, r), drop, kind)
  {
    var c, rest := Step(o, d, i), Arm(g0, o, d, i + 1, r);
    BlastDropsConcat(g0, [c], rest, drop, kind);
    BlastDropsSingle(g0, c, drop, kind);
    assert [] + BlastDrops(g0, rest, drop, kind) == BlastDrops(g0, rest, drop, kind);
  }

  /** Marking a brick, with its drop, completes the arm. */
  lemma ArmMarkBrick(g0: Grid, o: Cell, d: Direction, r: int, i: int, kind: (int, int) -> KindIndex, drop: (int, int) -> bool,
                     arms: seq<Cell>, cur: seq<Cell>, p0: seq<PowerUp>, ps: seq<PowerUp>)
    requires ArmProgress(g0, o, d, r, i, kind, drop, arms, cur, p0, ps) && i <= r
    requires GetTile(g0, Step(o, d, i).0, Step(o, d, i).1) == Brick
    ensures var c := Step(o, d, i);
      ArmDone(g0, o, d, r, kind, drop, arms, cur + [c], p0,
              ps + if drop(c.0, c.1) then [NewPowerUp(c.0, c.1, PowerupKinds[kind(c.0, c.1)])] else [])
  {
    var c := Step(o, d, i);
    assert Arm(g0, o, d, i, r) == [c];
    BlastDropsSingle(g0, c, drop, kind);
  }

  /** A wall, the edge of the map or the end of the range completes the arm. */
  lemma ArmStop(g0: Grid, o: Cell, d: Direction, r: int, i: int, kind: (int, int) -> KindIndex, drop: (int, int) -> bool,
                arms: seq<Cell>, cur: seq<Cell>, p0: seq<PowerUp>, ps: seq<PowerUp>)
    requires ArmProgress(g0, o, d, r, i, kind, drop, arms, cur, p0, ps)
    requires i > r || GetTile(g0, Step(o, d, i).0, Step(o, d, i).1) == Wall
    ensures ArmDone(g0, o, d, r, kind, drop, arms, cur, p0, ps)
  {
    assert Arm(g0, o, d, i, r) == [];
    assert cur + [] == cur && ps + [] == ps;
  }

  /** The arm starts with nothing marked. */
  lemma ArmStart(g0: Grid, o: Cell, d: Direction, r: int, kind: (int, int) -> KindIndex, drop: (int, int) -> bool,
                 arms: seq<Cell>, p0: seq<PowerUp>)
    requires WellFormed(g0)
    ensures ArmProgress(g0, o, d, r, 1, kind, drop, arms, arms, p0, p0)
  {
  }

  /**
   * Step i of arm d: reads the cell the step reaches and marks it when the
   * blast takes it, dropping a power-up on a destroyed brick when the draw
   * says so; `stop` says that the arm ends here.
   */
  method ExplodeCell(b: Bomb, d: Direction, i: int, gameMap: Maps.GameMap, drop: (int, int) -> bool, kind: (int, int) -> KindIndex,
                     ghost g0: Grid, ghost arms: seq<Cell>, ghost p0: seq<PowerUp>, tiles: seq<Cell>)
    returns (tiles': seq<Cell>, stop: bool)
    requires gameMap.Valid() && 1 <= i <= b.explosionRange
    requires MarkedAt(gameMap.grid, g0, tiles) && TakenBefore(b.Origin(), tiles, d.Code(), i)
    requires ArmProgress(g0, b.Origin(), d, b.explosionRange, i, kind, drop, arms, tiles, p0, gameMap.powerups)
    modifies gameMap
    ensures gameMap.Valid()
    ensures MarkedAt(gameMap.grid, g0, tiles') && TakenBefore(b.Origin(), tiles', d.Code(), i + 1)
    ensures stop ==> ArmDone(g0, b.Origin(), d, b.explosionRange, kind, drop, arms, tiles', p0, gameMap.powerups)
    ensures !stop ==> ArmProgress(g0, b.Origin(), d, b.explosionRange, i + 1, kind, drop, arms, tiles', p0, gameMap.powerups)
  {
    ghost var o, r := b.Origin(), b.explosionRange;
    var x := b.gridX + d.Dx() * i;
    var y := b.gridY + d.Dy() * i;
    StepFollowsDeltas(o, d, i);
    tiles', stop := tiles, true;
    if !(0 <= x < Cols && 0 <= y < Rows) {
      ArmStop(g0, o, d, r, i, kind, drop, arms, tiles, p0, gameMap.powerups);
      return;
    }
    NotYetMarked(gameMap.grid, g0, o, tiles, d, i);
    var t := gameMap.GetTile(x, y);
    if t == Wall {
      ArmStop(g0, o, d, r, i, kind, drop, arms, tiles, p0, gameMap.powerups);
    } else if t == Brick {
      MarkStep(gameMap.grid, g0, o, tiles, d, i);
      ArmMarkBrick(g0, o, d, r, i, kind, drop, arms, tiles, p0, gameMap.powerups);
      BurnBrick(gameMap, x, y, drop, kind);
      tiles' := tiles + [(x, y)];
    } else if t == Empty {
      MarkStep(gameMap.grid, g0, o, tiles, d, i);
      ArmMarkEmpty(g0, o, d, r, i, kind, drop, arms, tiles, p0, gameMap.powerups);
      gameMap.SetTile(x, y, TileType.Explosion);
      tiles', stop := tiles + [(x, y)], false;
    } else {
      ArmPass(g0, o, d, r, i, kind, drop, arms, tiles, p0, gameMap.powerups);
      stop := false;
    }
  }

  /**
   * A brick the blast takes becomes an explosion cell and, when its 30 %
   * draw succeeds, leaves a power-up of the drawn kind on that cell.
   */
  method BurnBrick(gameMap: Maps.GameMap, x: int, y: int, drop: (int, int) -> bool, kind: (int, int) -> KindIndex)
    requires gameMap.Valid()
    modifies gameMap
    ensures gameMap.Valid()
    ensures gameMap.grid == SetCell(old(gameMap.grid), x, y, TileType.Explosion)
    ensures gameMap.powerups == old(gameMap.powerups) + if drop(x, y) then [NewPowerUp(x, y, PowerupKinds[kind(x, y)])] else []
  {
    gameMap.SetTile(x, y, TileType.Explosion);
    if drop(x, y) {
      gameMap.AddPowerupAt(x, y, kind(x, y));
    }
  }

  /**
   * One arm of the blast: walks steps 1..range of direction d until a step
   * ends the arm.
   */
  method ExplodeArm(b: Bomb, d: Direction, gameMap: Maps.GameMap, drop: (int, int) -> bool, kind: (int, int) -> KindIndex,
                    ghost g0: Grid, tiles: seq<Cell>)
    returns (tiles': seq<Cell>)
    requires gameMap.Valid() && WellFormed(g0)
    requires MarkedAt(gameMap.grid, g0, tiles) && TakenBefore(b.Origin(), tiles, d.Code(), 1)
    modifies gameMap
    ensures gameMap.Valid()
    ensures MarkedAt(gameMap.grid, g0, tiles') && TakenBefore(b.Origin(), tiles', d.Code() + 1, 1)
    ensures ArmDone(g0, b.Origin(), d, b.explosionRange, kind, drop, tiles, tiles', old(gameMap.powerups), gameMap.powerups)
  {
    ghost var o, r := b.Origin(), b.explosionRange;
    ghost var p0 := gameMap.powerups;
    tiles' := tiles;
    ArmStart(g0, o, d, r, kind, drop, tiles, p0);
    var i, stop := 1, false;
    while i <= b.explosionRange && !stop
      invariant gameMap.Valid()
      invariant MarkedAt(gameMap.grid, g0, tiles') && TakenBefore(o, tiles', d.Code(), i)
      invariant stop ==> ArmDone(g0, o, d, r, kind, drop, tiles, tiles', p0, gameMap.powerups)
      invariant !stop ==> ArmProgress(g0, o, d, r, i, kind, drop, tiles, tiles', p0, gameMap.powerups)
      decreases r - i
    {
      tiles', stop := ExplodeCell(b, d, i, gameMap, drop, kind, g0, tiles, p0, tiles');
      i := i + 1;
    }
    if !stop {
      ArmStop(g0, o, d, r, i, kind, drop, tiles, tiles', p0, gameMap.powerups);
    }
  }

  /** Adding arm k to the bomb's cell and the first k arms gives the first k + 1 arms, with their drops. */
  lemma ExplodeStep(g0: Grid, o: Cell, r: int, k: int, kind: (int, int) -> KindIndex, drop: (int, int) -> bool,
                    tiles: seq<Cell>, tiles': seq<Cell>, p0: seq<PowerUp>, before: seq<PowerUp>, after: seq<PowerUp>)
    requires WellFormed(g0) && 0 <= k < 4
    requires tiles == [o] + Arms(g0, o, r, k) && before == p0 + BlastDrops(g0, Arms(g0, o, r, k), drop, kind)
    requires ArmDone(g0, o, DirectionOfCode(k), r, kind, drop, tiles, tiles', before, after)
    ensures tiles' == [o] + Arms(g0, o, r, k + 1) && after == p0 + BlastDrops(g0, Arms(g0, o, r, k + 1), drop, kind)
  {
    var arms, arm := Arms(g0, o, r, k), Arm(g0, o, DirectionOfCode(k), 1, r);
    BlastDropsConcat(g0, arms, arm, drop, kind);
    Seqs.AppendAssoc([o], arms, arm);
    Seqs.AppendAssoc(p0, BlastDrops(g0, arms, drop, kind), BlastDrops(g0, arm, drop, kind));
  }

  /**
   * `Bomb.explode`: marks the bomb's cell, then the four arms in the order
   * of the direction codes, and returns the explosion lit at time now.
   * The tiles are those of the specification on the grid before the blast,
   * the map is marked exactly there, and the power-ups gain the drops of
   * the destroyed bricks.
   */
  method Explode(b: Bomb, gameMap: Maps.GameMap, now: int, drop: (int, int) -> bool, kind: (int, int) -> KindIndex)
    returns (e: Explosion)
    requires gameMap.Valid()
    modifies gameMap
    ensures gameMap.Valid()
    ensures e == NewExplosion(BlastTiles(old(gameMap.grid), b), now)
    ensures MarkedAt(gameMap.grid, old(gameMap.grid), e.tiles)
    ensures gameMap.powerups == old(gameMap.powerups) +
      BlastDrops(old(gameMap.grid), Arms(old(gameMap.grid), b.Origin(), b.explosionRange, 4), drop, kind)
  {
    ghost var g0 := gameMap.grid;
    ghost var p0 := gameMap.powerups;
    ghost var o := b.Origin();
    var tiles := [(b.gridX, b.gridY)];
    gameMap.SetTile(b.gridX, b.gridY, TileType.Explosion);
    assert p0 + [] == p0 && tiles == [o] + [];
    for k := 0 to 4
      invariant gameMap.Valid()
      invariant tiles == [o] + Arms(g0, o, b.explosionRange, k)
      invariant MarkedAt(gameMap.grid, g0, tiles) && TakenBefore(o, tiles, k, 1)
      invariant gameMap.powerups == p0 + BlastDrops(g0, Arms(g0, o, b.explosionRange, k), drop, kind)
    {
      ghost var before := gameMap.powerups;
      ghost var tiles0 := tiles;
      var d := DirectionOfCode(k);
      tiles := ExplodeArm(b, d, gameMap, drop, kind, g0, tiles);
      ExplodeStep(g0, o, b.explosionRange, k, kind, drop, tiles0, tiles, p0, before, gameMap.powerups);
    }
    e := NewExplosion(tiles, now);
  }

  /** The drops of a concatenation are the drops of each part in turn. */
  lemma {:induction false} BlastDropsConcat(g: Grid, a: seq<Cell>, b: seq<Cell>, drop: (int, int) -> bool, kind: (int, int) -> KindIndex)
    requires WellFormed(g)
    decreases |b|
    ensures BlastDrops(g, a + b, drop, kind) == BlastDrops(g, a, drop, kind) + BlastDrops(g, b, drop, kind)
  {
    if b == [] {
      assert a + b == a;
    } else {
      var init, c := b[..|b| - 1], b[|b| - 1];
      BlastDropsConcat(g, a, init, drop, kind);
      assert (a + b)[..|a + b| - 1] == a + init;
      assert (a + b)[|a + b| - 1] == c;
      var tail := if GetTile(g, c.0, c.1) == Brick && drop(c.0, c.1) then [NewPowerUp(c.0, c.1, PowerupKinds[kind(c.0, c.1)])] else [];
      assert BlastDrops(g, a + b, drop, kind) == BlastDrops(g, a + init, drop, kind) + tail;
      assert BlastDrops(g, b, drop, kind) == BlastDrops(g, init, drop, kind) + tail;
    }
  }

  // ---------------------------------------------------------------------
  // The explosion

  /** Milliseconds between two animation frames of an explosion. */
  const ExplosionFramePeriod: int := 100

  datatype Explosion = Explosion(tiles: seq<Cell>, timer: int, animationTimer: int, animationFrame: int)
  {
    /** Advances the animation clock; past 100 ms the frame moves on (mod 4) and the clock restarts. */
    function Animate(dt: int): (r: Explosion)
      ensures r.tiles == tiles && r.timer == timer
      ensures r.animationTimer <= ExplosionFramePeriod || r.animationTimer == animationTimer + dt
      ensures 0 <= animationFrame < 4 ==> 0 <= r.animationFrame < 4
      ensures r.animationFrame != animationFrame ==> r.animationTimer == 0
      ensures animationTimer + dt <= ExplosionFramePeriod ==> r == this.(animationTimer := animationTimer + dt)
      ensures animationTimer + dt > ExplosionFramePeriod ==>
                r == this.(animationTimer := 0, animationFrame := (animationFrame + 1) % 4)
    {
      var t := animationTimer + dt;
      if t > ExplosionFramePeriod then this.(animationTimer := 0, animationFrame := (animationFrame + 1) % 4)
      else this.(animationTimer := t)
    }
  }

  /** An explosion lit at time now over the given tiles. */
  function NewExplosion(tiles: seq<Cell>, now: int): (e: Explosion)
    ensures e.tiles == tiles && e.timer == now && e.animationFrame == 0
  {
    Explosion.Explosion(tiles, now, 0, 0)
  }

  /** The grid after an explosion over ts ends: its cells still marked EXPLOSION become EMPTY. */
  function Reverted(g: Grid, ts: seq<Cell>): (r: Grid)
    requires WellFormed(g)
    ensures WellFormed(r)
  {
    MapGrid(g, (x, y, t) => if (x, y) in ts && t == TileType.Explosion then Empty else t)
  }

  /**
   * Reverting only touches explosion cells of its own tiles, turning them
   * EMPTY; whatever else marked them (another explosion) does not matter.
   * Reverting twice is reverting once, and reverting over every explosion
   * cell is `clear_explosions`.
   */
  lemma RevertedFacts(g: Grid, ts: seq<Cell>)
    requires WellFormed(g)
    ensures forall y, x :: InBounds(x, y) ==>
      Reverted(g, ts)[y][x] == if (x, y) in ts && g[y][x] == TileType.Explosion then Empty else g[y][x]
    ensures Reverted(Reverted(g, ts), ts) == Reverted(g, ts)
    ensures (forall y, x :: InBounds(x, y) && g[y][x] == TileType.Explosion ==> (x, y) in ts) ==> Reverted(g, ts) == Maps.Cleared(g)
  {
    GridExtensionality(Reverted(Reverted(g, ts), ts), Reverted(g, ts));
    if forall y, x :: InBounds(x, y) && g[y][x] == TileType.Explosion ==> (x, y) in ts {
      GridExtensionality(Reverted(g, ts), Maps.Cleared(g));
    }
  }

  /**
   * A blast followed by the end of its explosion, with nothing in between:
   * every tile of the blast is EMPTY (bricks are destroyed for good) and
   * every other cell is as before the blast.
   */
  lemma BlastThenRevert(g0: Grid, g1: Grid, ts: seq<Cell>)
    requires MarkedAt(g1, g0, ts)
    ensures forall y, x :: InBounds(x, y) ==>
      Reverted(g1, ts)[y][x] == if (x, y) in ts then Empty else g0[y][x]
  {
    RevertedFacts(g1, ts);
  }

  /**
   * `Explosion.update`: animates, and once ExplosionDuration has elapsed
   * since it was lit reverts its tiles that are still EXPLOSION and reports
   * that it is over; before that the map is untouched.
   */
  method UpdateExplosion(e: Explosion, dt: int, now: int, gameMap: Maps.GameMap) returns (r: Explosion, ended: bool)
    requires gameMap.Valid()
    modifies gameMap
    ensures gameMap.Valid() && gameMap.powerups == old(gameMap.powerups)
    ensures r == e.Animate(dt)
    ensures ended <==> now - e.timer >= ExplosionDuration
    ensures gameMap.grid == if ended then Reverted(old(gameMap.grid), e.tiles) else old(gameMap.grid)
  {
    r := e.Animate(dt);
    ended := false;
    if now - e.timer >= ExplosionDuration {
      ghost var g0 := gameMap.grid;
      for k := 0 to |e.tiles|
        invariant gameMap.Valid() && gameMap.powerups == old(gameMap.powerups)
        invariant forall y, x :: InBounds(x, y) ==>
          gameMap.grid[y][x] == if (x, y) in e.tiles[..k] && g0[y][x] == TileType.Explosion then Empty else g0[y][x]
      {
        var (x, y) := e.tiles[k];
        assert e.tiles[..k + 1] == e.tiles[..k] + [(x, y)];
        if gameMap.GetTile(x, y) == TileType.Explosion {
          gameMap.SetTile(x, y, Empty);
        }
      }
      assert e.tiles[..|e.tiles|] == e.tiles;
      GridExtensionality(gameMap.grid, Reverted(g0, e.tiles));
      ended := true;
    }
  }
}
