/**
 * The tile map (class GameMap of game/game_map.py): the grid and the
 * power-ups lying on it, level generation, power-up collection, explosion
 * clearing and the spawn-position scans. Random draws are oracle parameters.
 */
module Maps {
  import opened Options
  import opened Constants
  import opened Tiles
  import Sprites
  import Players
  import opened Pickups
  import Seqs

  /** A grid of ROWS rows of COLS empty cells. */
  function EmptyGrid(): (g: Grid)
    ensures WellFormed(g)
    ensures forall j, i :: 0 <= j < Rows && 0 <= i < Cols ==> g[j][i] == Empty
  {
    seq(Rows, _ => seq(Cols, _ => Empty))
  }

  // ---------------------------------------------------------------------
  // Level generation

  predicate IsBorderCell(x: int, y: int)
  {
    x == 0 || y == 0 || x == Cols - 1 || y == Rows - 1
  }

  /** First pass of the fallback generator: border cells and even/even cells become walls. */
  function LatticeCell(x: int, y: int, t: TileType): TileType
  {
    if IsBorderCell(x, y) then Wall
    else if x % 2 == 0 && y % 2 == 0 then Wall
    else t
  }

  /**
   * Second pass: an interior empty cell outside the top-left 3x3 corner
   * becomes a brick when its draw (`random.random() < brick_density`) says so.
   */
  function BrickCell(brick: (int, int) -> bool, x: int, y: int, t: TileType): TileType
  {
    if 1 <= x < Cols - 1 && 1 <= y < Rows - 1 && t == Empty && !(x <= 2 && y <= 2) && brick(x, y)
    then Brick else t
  }

  /** The grid left by the two passes of the fallback generator. */
  function TraditionalGrid(g: Grid, brick: (int, int) -> bool): (r: Grid)
    requires WellFormed(g)
    ensures WellFormed(r)
  {
    MapGrid(MapGrid(g, LatticeCell), (x, y, t) => BrickCell(brick, x, y, t))
  }

  /**
   * The fallback layout: walls on the border and on even/even cells; a brick
   * appears only where the cell was already a brick, or on an interior empty
   * cell outside the top-left corner whose draw came up; every other cell keeps its kind.
   */
  lemma TraditionalLayout(g: Grid, brick: (int, int) -> bool, x: int, y: int)
    requires WellFormed(g) && InBounds(x, y)
    ensures IsBorderCell(x, y) || (x % 2 == 0 && y % 2 == 0) ==> TraditionalGrid(g, brick)[y][x] == Wall
    ensures TraditionalGrid(g, brick)[y][x] == Brick ==>
      g[y][x] == Brick || (!IsBorderCell(x, y) && g[y][x] == Empty && !(x <= 2 && y <= 2) && brick(x, y))
    ensures TraditionalGrid(g, brick)[y][x] !in {Wall, Brick} ==> TraditionalGrid(g, brick)[y][x] == g[y][x]
  {
  }

  /** The collision-grid copy: cell (x, y) is the tile kind of the collision code there. */
  function CopiedCell(cg: Sprites.CollisionGrid, x: int, y: int): TileType
    requires Sprites.CollisionShape(cg)
  {
    Sprites.TileTypeOfCollision(Sprites.CollisionAt(Some(cg), x, y))
  }

  function CopiedGrid(cg: Sprites.CollisionGrid): (r: Grid)
    requires Sprites.CollisionShape(cg)
    ensures WellFormed(r)
  {
    MapGrid(EmptyGrid(), (x, y, t) => CopiedCell(cg, x, y))
  }

  /** Cell by cell, g is the copy of the collision grid cg. */
  predicate CopiedFrom(g: Grid, cg: Sprites.CollisionGrid)
    requires Sprites.CollisionShape(cg)
  {
    WellFormed(g) && forall j, i :: 0 <= j < Rows && 0 <= i < Cols ==> g[j][i] == CopiedCell(cg, i, j)
  }

  /** Cell by cell, g is what the fallback generator makes of an empty grid. */
  predicate FallbackFrom(g: Grid, brick: (int, int) -> bool)
  {
    WellFormed(g) && forall j, i :: 0 <= j < Rows && 0 <= i < Cols ==> g[j][i] == BrickCell(brick, i, j, LatticeCell(i, j, Empty))
  }

  /** The collision-grid copy is the one grid that is cell by cell the copy of cg. */
  lemma CopiedFromIff(g: Grid, cg: Sprites.CollisionGrid)
    requires Sprites.CollisionShape(cg)
    ensures CopiedFrom(g, cg) <==> g == CopiedGrid(cg)
  {
    if CopiedFrom(g, cg) {
      GridExtensionality(g, CopiedGrid(cg));
    }
  }

  /** The fallback grid is the one grid that is cell by cell the fallback generator's. */
  lemma FallbackFromIff(g: Grid, brick: (int, int) -> bool)
    ensures FallbackFrom(g, brick) <==> g == TraditionalGrid(EmptyGrid(), brick)
  {
    if FallbackFrom(g, brick) {
      GridExtensionality(g, TraditionalGrid(EmptyGrid(), brick));
    }
  }

  /**
   * The level actually played: the copy of the generated collision grid has
   * walls on the border and on odd/odd cells (not the even/even lattice of the
   * fallback), empty spawn corners, and a brick elsewhere exactly where the draw came up.
   */
  lemma CopiedLevelLayout(brick: (int, int) -> bool, x: int, y: int)
    requires InBounds(x, y)
    ensures var g := CopiedGrid(Sprites.SimpleCollisionGrid(brick));
      (g[y][x] == Wall <==> Sprites.IsBorder(x, y) || Sprites.IsStructural(x, y)) &&
      (g[y][x] == Brick <==> !Sprites.IsBorder(x, y) && !Sprites.IsStructural(x, y) &&
                             !Sprites.IsSpawnArea(x, y) && brick(x, y)) &&
      g[y][x] in {Empty, Wall, Brick}
  {
    Sprites.SimpleCollisionGridCells(brick, x, y);
  }

  /** A cell of the level actually played is walkable exactly when it is no wall and holds no drawn brick. */
  lemma CopiedLevelWalkable(brick: (int, int) -> bool, x: int, y: int)
    requires InBounds(x, y)
    ensures IsWalkable(CopiedGrid(Sprites.SimpleCollisionGrid(brick)), x, y) <==>
      !Sprites.IsBorder(x, y) && !Sprites.IsStructural(x, y) && (Sprites.IsSpawnArea(x, y) || !brick(x, y))
  {
    CopiedLevelLayout(brick, x, y);
  }

  /**
   * On the level actually played the player's start cell (1, 2) and the
   * bottom-right enemy corner are always walkable.
   */
  lemma CopiedLevelSpawns(brick: (int, int) -> bool)
    ensures IsWalkable(CopiedGrid(Sprites.SimpleCollisionGrid(brick)), 1, 2)
    ensures IsWalkable(CopiedGrid(Sprites.SimpleCollisionGrid(brick)), Cols - 2, Rows - 2)
  {
    CopiedLevelWalkable(brick, 1, 2);
    assert Sprites.IsSpawnArea(Cols - 2, Rows - 2) && !Sprites.IsStructural(Cols - 2, Rows - 2);
    CopiedLevelWalkable(brick, Cols - 2, Rows - 2);
  }

  /**
   * The other two enemy corners, (Cols - 2, 1) and (1, Rows - 2), lie outside
   * the spawn areas: each is a brick whenever its draw comes up.
   */
  lemma CopiedLevelCornerBricks(brick: (int, int) -> bool)
    ensures brick(Cols - 2, 1) ==> !IsWalkable(CopiedGrid(Sprites.SimpleCollisionGrid(brick)), Cols - 2, 1)
    ensures brick(1, Rows - 2) ==> !IsWalkable(CopiedGrid(Sprites.SimpleCollisionGrid(brick)), 1, Rows - 2)
  {
    CopiedLevelWalkable(brick, Cols - 2, 1);
    CopiedLevelWalkable(brick, 1, Rows - 2);
  }

  // ---------------------------------------------------------------------
  // Random power-ups

  /** Attempts per power-up before it is given up. */
  const MaxAttempts: int := 50

  /** Power-ups placed for a level: min(3 + level, 8). */
  function PowerupCount(level: int): (n: int)
    ensures n <= 8
    ensures n == 8 || n == 3 + level
  {
    Min(3 + level, 8)
  }

  /** Every drawn spot lies in [3, Cols - 4] x [3, Rows - 4], as `randint` guarantees. */
  ghost predicate SpotsInRange(spot: (int, int) -> (int, int))
  {
    forall n, a :: 3 <= spot(n, a).0 <= Cols - 4 && 3 <= spot(n, a).1 <= Rows - 4
  }

  /**
   * The spot taken by the n-th power-up: the first of the draws spot(n, a),
   * a..MaxAttempts-1, that lands on an empty cell, if any.
   */
  function FirstEmptySpot(g: Grid, spot: (int, int) -> (int, int), n: int, a: int): (r: Option<(int, int)>)
    requires WellFormed(g)
    // |g| is carried along so that a literal start does not unfold all the draws at once
    decreases MaxAttempts - a, |g|
    ensures r.Some? ==> GetTile(g, r.value.0, r.value.1) == Empty
  {
    if a >= MaxAttempts then None
    else if GetTile(g, spot(n, a).0, spot(n, a).1) == Empty then Some(spot(n, a))
    else FirstEmptySpot(g, spot, n, a + 1)
  }

  /**
   * The spot found is one of the draws a..MaxAttempts-1, and none is found
   * only when every one of those draws lands on a non-empty cell.
   */
  lemma {:induction false} FirstEmptySpotIsDrawn(g: Grid, spot: (int, int) -> (int, int), n: int, a: int)
    requires WellFormed(g)
    decreases MaxAttempts - a
    ensures var r := FirstEmptySpot(g, spot, n, a);
      (r.Some? ==> exists k :: a <= k < MaxAttempts && r.value == spot(n, k)) &&
      (r.None? <==> forall k :: a <= k < MaxAttempts ==> GetTile(g, spot(n, k).0, spot(n, k).1) != Empty)
  {
    if a < MaxAttempts && GetTile(g, spot(n, a).0, spot(n, a).1) != Empty {
      FirstEmptySpotIsDrawn(g, spot, n, a + 1);
      var r := FirstEmptySpot(g, spot, n, a);
      if r.None? {
        forall k | a <= k < MaxAttempts ensures GetTile(g, spot(n, k).0, spot(n, k).1) != Empty {
          if k > a {
          }
        }
      }
    }
  }

  /** With every draw inside [3, Cols - 4] x [3, Rows - 4], so is the spot found. */
  lemma FoundSpotInRange(g: Grid, spot: (int, int) -> (int, int), n: int)
    requires WellFormed(g) && SpotsInRange(spot) && FirstEmptySpot(g, spot, n, 0).Some?
    ensures var p := FirstEmptySpot(g, spot, n, 0).value;
      3 <= p.0 <= Cols - 4 && 3 <= p.1 <= Rows - 4
  {
    FirstEmptySpotIsDrawn(g, spot, n, 0);
    var p := FirstEmptySpot(g, spot, n, 0).value;
    var k :| 0 <= k < MaxAttempts && p == spot(n, k);
  }

  /** The power-up placed for the n-th slot: one on the first empty drawn spot, or none. */
  function DropAt(g: Grid, spot: (int, int) -> (int, int), choice: int -> KindIndex, n: int): (ps: seq<PowerUp>)
    requires WellFormed(g)
    ensures |ps| <= 1
  {
    match FirstEmptySpot(g, spot, n, 0)
    case None => []
    case Some(p) => [NewPowerUp(p.0, p.1, PowerupKinds[choice(n)])]
  }

  /** The power-ups placed by slots 0..n-1, in order. */
  function PowerupDrops(g: Grid, spot: (int, int) -> (int, int), choice: int -> KindIndex, n: int): (ps: seq<PowerUp>)
    requires WellFormed(g)
    decreases n, |g|
    ensures |ps| <= Max(n, 0)
  {
    if n <= 0 then [] else PowerupDrops(g, spot, choice, n - 1) + DropAt(g, spot, choice, n - 1)
  }

  /**
   * Every placed power-up lies on a cell that was empty, inside
   * [3, Cols - 4] x [3, Rows - 4] when the draws are, is of one of the three
   * power-up kinds and starts at frame 0.
   */
  lemma {:induction false} PowerupDropsPlacement(g: Grid, spot: (int, int) -> (int, int), choice: int -> KindIndex,
                                                  n: int, i: int)
    requires WellFormed(g)
    requires 0 <= i < |PowerupDrops(g, spot, choice, n)|
    decreases n
    ensures var p := PowerupDrops(g, spot, choice, n)[i];
      GetTile(g, p.gridX, p.gridY) == Empty && IsPowerupKind(p.kind) && p.animationFrame == 0 &&
      (SpotsInRange(spot) ==> 3 <= p.gridX <= Cols - 4 && 3 <= p.gridY <= Rows - 4)
  {
    var all := PowerupDrops(g, spot, choice, n);
    var front, d := PowerupDrops(g, spot, choice, n - 1), DropAt(g, spot, choice, n - 1);
    assert all == front + d;
    if i < |front| {
      assert all[i] == front[i];
      PowerupDropsPlacement(g, spot, choice, n - 1, i);
    } else {
      var r := FirstEmptySpot(g, spot, n - 1, 0);
      assert r.Some? && all[i] == d[0];
      var p := r.value;
      assert d[0] == NewPowerUp(p.0, p.1, PowerupKinds[choice(n - 1)]);
      if SpotsInRange(spot) {
        FoundSpotInRange(g, spot, n - 1);
      }
    }
  }

  // ---------------------------------------------------------------------
  // Power-up collection

  function Hit(p: PowerUp, r: Rect): bool
  {
    Colliding(p.Rect(), r)
  }

  /** The power-ups after one animation step each. */
  function UpdatedAll(ps: seq<PowerUp>, dt: int): (r: seq<PowerUp>)
    ensures |r| == |ps|
    ensures forall i :: 0 <= i < |ps| ==> r[i] == ps[i].Update(dt)
  {
    seq(|ps|, i requires 0 <= i < |ps| => ps[i].Update(dt))
  }

  /** The power-ups not touching rectangle r, in their order. */
  function Kept(ps: seq<PowerUp>, r: Rect): (k: seq<PowerUp>)
    decreases |ps|
    ensures |k| <= |ps|
  {
    if ps == [] then []
    else Kept(ps[..|ps| - 1], r) + (if Hit(ps[|ps| - 1], r) then [] else [ps[|ps| - 1]])
  }

  /** The power-ups touching rectangle r, in their order. */
  function Taken(ps: seq<PowerUp>, r: Rect): (t: seq<PowerUp>)
    decreases |ps|
    ensures |t| <= |ps|
  {
    if ps == [] then []
    else Taken(ps[..|ps| - 1], r) + (if Hit(ps[|ps| - 1], r) then [ps[|ps| - 1]] else [])
  }

  /** Every power-up is either kept or taken. */
  lemma {:induction false} KeptTakenLength(ps: seq<PowerUp>, r: Rect)
    decreases |ps|
    ensures |Kept(ps, r)| + |Taken(ps, r)| == |ps|
  {
    if ps != [] {
      KeptTakenLength(ps[..|ps| - 1], r);
    }
  }

  /** A power-up is kept by collection exactly when it is in the list and does not touch the rectangle. */
  lemma {:induction false} KeptMembers(ps: seq<PowerUp>, r: Rect)
    decreases |ps|
    ensures forall p :: p in Kept(ps, r) <==> p in ps && !Hit(p, r)
  {
    if ps != [] {
      KeptMembers(ps[..|ps| - 1], r);
      assert ps == ps[..|ps| - 1] + [ps[|ps| - 1]];
    }
  }

  /** A power-up is taken by collection exactly when it is in the list and touches the rectangle. */
  lemma {:induction false} TakenMembers(ps: seq<PowerUp>, r: Rect)
    decreases |ps|
    ensures forall p :: p in Taken(ps, r) <==> p in ps && Hit(p, r)
  {
    if ps != [] {
      TakenMembers(ps[..|ps| - 1], r);
      assert ps == ps[..|ps| - 1] + [ps[|ps| - 1]];
    }
  }

  /** The kept and the taken power-ups together are a permutation of the list. */
  lemma {:induction false} KeptTakenPermutation(ps: seq<PowerUp>, r: Rect)
    decreases |ps|
    ensures multiset(Kept(ps, r)) + multiset(Taken(ps, r)) == multiset(ps)
  {
    if ps != [] {
      var init, last := ps[..|ps| - 1], ps[|ps| - 1];
      KeptTakenPermutation(init, r);
      assert ps == init + [last];
      var k, t := if Hit(last, r) then [] else [last], if Hit(last, r) then [last] else [];
      assert Kept(ps, r) == Kept(init, r) + k && Taken(ps, r) == Taken(init, r) + t;
      assert multiset(k) + multiset(t) == multiset{last};
    }
  }

  /** A list holding a hit loses something to collection. */
  lemma {:induction false} TakenHasHit(ps: seq<PowerUp>, r: Rect, k: int)
    requires 0 <= k < |ps| && Hit(ps[k], r)
    decreases |ps|
    ensures |Taken(ps, r)| > 0
  {
    if k < |ps| - 1 {
      TakenHasHit(ps[..|ps| - 1], r, k);
    }
  }

  lemma {:induction false} KeptConcat(a: seq<PowerUp>, b: seq<PowerUp>, r: Rect)
    decreases |b|
    ensures Kept(a + b, r) == Kept(a, r) + Kept(b, r)
  {
    if b == [] {
      assert a + b == a;
    } else {
      var init, last := b[..|b| - 1], b[|b| - 1];
      KeptConcat(a, init, r);
      assert (a + b)[..|a + b| - 1] == a + init;
      assert (a + b)[|a + b| - 1] == last;
      var tail := if Hit(last, r) then [] else [last];
      calc {
        Kept(a + b, r);
        Kept(a + init, r) + tail;
        Kept(a, r) + Kept(init, r) + tail;
        Kept(a, r) + Kept(b, r);
      }
    }
  }

  /** Removing the hit at c from the list that has no other hit before b. */
  lemma KeptSkipHit(u: seq<PowerUp>, r: Rect, c: int, b: int)
    requires 0 <= c < b <= |u|
    requires Hit(u[c], r)
    requires forall k :: c < k < b ==> !Hit(u[k], r)
    ensures Kept(u[c..], r) == u[c + 1..b] + Kept(u[b..], r)
  {
    var x, m, t := [u[c]], u[c + 1..b], u[b..];
    forall i | 0 <= i < |m| ensures !Hit(m[i], r) {
      assert m[i] == u[c + 1 + i];
    }
    KeptNoHits(m, r);
    assert Kept(x, r) == [] by {
      assert x[..0] == [];
    }
    KeptConcat(x, m, r);
    assert Kept(x + m, r) == m;
    KeptConcat(x + m, t, r);
    Seqs.SplitSuffix(u, c, b);
  }

  lemma {:induction false} KeptNoHits(ps: seq<PowerUp>, r: Rect)
    requires forall i :: 0 <= i < |ps| ==> !Hit(ps[i], r)
    decreases |ps|
    ensures Kept(ps, r) == ps
  {
    if ps != [] {
      KeptNoHits(ps[..|ps| - 1], r);
    }
  }

  lemma ApplyAllSnoc(s: Players.Stats, ps: seq<PowerUp>, p: PowerUp)
    ensures ApplyAll(s, ps + [p]) == Boost(ApplyAll(s, ps), p.kind)
  {
    assert (ps + [p])[..|ps|] == ps;
  }

  /** Scanning index i boosts the stats by u[i] exactly when it is a hit. */
  lemma {:induction false} TakenStep(s: Players.Stats, u: seq<PowerUp>, i: int, r: Rect)
    requires 0 <= i < |u|
    ensures ApplyAll(s, Taken(u[..i + 1], r)) ==
      if Hit(u[i], r) then Boost(ApplyAll(s, Taken(u[..i], r)), u[i].kind) else ApplyAll(s, Taken(u[..i], r))
  {
    var w := u[..i + 1];
    assert w[..|w| - 1] == u[..i] && w[|w| - 1] == u[i];
    var t := Taken(u[..i], r);
    assert Taken(w, r) == t + (if Hit(u[i], r) then [u[i]] else []);
    if Hit(u[i], r) {
      ApplyAllSnoc(s, t, u[i]);
    } else {
      assert t + [] == t;
    }
  }

  lemma TakenWhole(u: seq<PowerUp>, r: Rect)
    ensures Taken(u[..|u|], r) == Taken(u, r)
  {
    assert u[..|u|] == u;
  }

  /**
   * hits lists, in increasing order, exactly the indices below i whose
   * power-up touches rectangle r.
   */
  ghost predicate HitIndices(u: seq<PowerUp>, r: Rect, hits: seq<int>, i: int)
  {
    0 <= i <= |u| &&
    (forall k :: 0 <= k < |hits| ==> 0 <= hits[k] < i && Hit(u[hits[k]], r)) &&
    (forall a, b :: 0 <= a < b < |hits| ==> hits[a] < hits[b]) &&
    (forall k :: 0 <= k < i && Hit(u[k], r) ==> k in hits)
  }

  /**
   * The state of the collection scan before index i: the first i power-ups
   * are animated (as in u), the rest are as in orig, and hits records the
   * hits so far.
   */
  ghost predicate ScanState(orig: seq<PowerUp>, u: seq<PowerUp>, r: Rect, i: int, ps: seq<PowerUp>, hits: seq<int>)
  {
    |ps| == |u| == |orig| && HitIndices(u, r, hits, i) &&
    forall k :: 0 <= k < |ps| ==> ps[k] == if k < i then u[k] else orig[k]
  }

  /** One step of the scan animates u[i] in place and records i when it is a hit. */
  lemma ScanStep(orig: seq<PowerUp>, u: seq<PowerUp>, r: Rect, i: int, ps: seq<PowerUp>, hits: seq<int>)
    requires ScanState(orig, u, r, i, ps, hits) && i < |u|
    ensures Hit(u[i], r) ==> ScanState(orig, u, r, i + 1, ps[i := u[i]], hits + [i])
    ensures !Hit(u[i], r) ==> ScanState(orig, u, r, i + 1, ps[i := u[i]], hits)
  {
    HitIndicesStep(u, r, hits, i);
    assert hits + [] == hits;
  }

  /** At the end of the scan every power-up is animated. */
  lemma ScanDone(orig: seq<PowerUp>, u: seq<PowerUp>, r: Rect, ps: seq<PowerUp>, hits: seq<int>)
    requires ScanState(orig, u, r, |u|, ps, hits)
    ensures ps == u && HitIndices(u, r, hits, |u|)
  {
  }

  /** Scanning index i extends the hit list by i exactly when u[i] is a hit. */
  lemma HitIndicesStep(u: seq<PowerUp>, r: Rect, hits: seq<int>, i: int)
    requires HitIndices(u, r, hits, i) && i < |u|
    ensures HitIndices(u, r, hits + (if Hit(u[i], r) then [i] else []), i + 1)
  {
  }

  /** Popping index c of a list that starts with u[..b] leaves u[..c], then u[c + 1..b], then the rest. */
  lemma PopAt(s: seq<PowerUp>, u: seq<PowerUp>, tail: seq<PowerUp>, c: int, b: int)
    requires 0 <= c < b <= |u| && s == u[..b] + tail
    ensures s[..c] + s[c + 1..] == u[..c] + (u[c + 1..b] + tail)
  {
    assert s[..c] == u[..c];
    assert s[c + 1..] == u[c + 1..b] + tail;
  }

  /**
   * Removing the j-th recorded hit from the list that is untouched before
   * it and already collected from the next recorded hit on.
   */
  lemma HitIndicesSkip(u: seq<PowerUp>, r: Rect, hits: seq<int>, j: int)
    requires HitIndices(u, r, hits, |u|) && 0 <= j < |hits|
    ensures var b := if j + 1 == |hits| then |u| else hits[j + 1];
      hits[j] < b <= |u| && Kept(u[hits[j]..], r) == u[hits[j] + 1..b] + Kept(u[b..], r)
  {
    var c, b := hits[j], if j + 1 == |hits| then |u| else hits[j + 1];
    forall k | c < k < b ensures !Hit(u[k], r) {
      forall m | 0 <= m < |hits| ensures hits[m] != k {
        if m < j {
          assert hits[m] < c;
        } else if j + 1 < m {
          assert b < hits[m];
        }
      }
    }
    KeptSkipHit(u, r, c, b);
  }

  /** Nothing before the first recorded hit is collected. */
  lemma HitIndicesPrefix(u: seq<PowerUp>, r: Rect, hits: seq<int>)
    requires HitIndices(u, r, hits, |u|)
    ensures var first := if |hits| == 0 then |u| else hits[0];
      first <= |u| && u[..first] + Kept(u[first..], r) == Kept(u, r)
  {
    var first := if |hits| == 0 then |u| else hits[0];
    forall k | 0 <= k < first ensures !Hit(u[k], r) {
      NoHitBeforeFirst(u, r, hits, k);
    }
    KeptNoHits(u[..first], r);
    KeptConcat(u[..first], u[first..], r);
    Seqs.TakeDrop(u, first);
  }

  /** A power-up before the first recorded hit does not touch the rectangle. */
  lemma NoHitBeforeFirst(u: seq<PowerUp>, r: Rect, hits: seq<int>, k: int)
    requires HitIndices(u, r, hits, |u|)
    requires 0 <= k < |u| && (|hits| == 0 || k < hits[0])
    ensures !Hit(u[k], r)
  {
    forall m | 0 <= m < |hits| ensures hits[m] != k {
      if 0 < m {
        assert hits[0] < hits[m];
      }
    }
  }

  /** Collection shrinks the list exactly when some hit was recorded. */
  lemma HitIndicesShrink(u: seq<PowerUp>, r: Rect, hits: seq<int>)
    requires HitIndices(u, r, hits, |u|)
    ensures |hits| > 0 <==> |Kept(u, r)| < |u|
  {
    KeptTakenLength(u, r);
    if |hits| > 0 {
      TakenHasHit(u, r, hits[0]);
    } else {
      forall k | 0 <= k < |u| ensures !Hit(u[k], r) {
      }
      KeptNoHits(u, r);
    }
  }

  // ---------------------------------------------------------------------
  // Counting and scanning

  /** The number of cells (x, y) with x0 <= x < x1 and y0 <= y < y1 on the grid whose kind satisfies p. */
  function CountCells(g: Grid, p: TileType -> bool, x0: int, x1: int, y0: int, y1: int): (n: nat)
    requires WellFormed(g)
    decreases y1 - y0, |g|
  {
    if y1 <= y0 then 0 else CountCells(g, p, x0, x1, y0, y1 - 1) + CountRow(g, p, y1 - 1, x0, x1)
  }

  function CountRow(g: Grid, p: TileType -> bool, y: int, x0: int, x1: int): (n: nat)
    requires WellFormed(g)
    decreases x1 - x0
  {
    if x1 <= x0 then 0 else CountRow(g, p, y, x0, x1 - 1) + (if InBounds(x1 - 1, y) && p(GetTile(g, x1 - 1, y)) then 1 else 0)
  }

  /** Counts depend only on which cells satisfy the predicate. */
  lemma {:induction false} CountCellsCongruent(g: Grid, h: Grid, p: TileType -> bool, x0: int, x1: int, y0: int, y1: int)
    requires WellFormed(g) && WellFormed(h)
    requires forall y, x :: InBounds(x, y) ==> p(g[y][x]) == p(h[y][x])
    decreases y1 - y0
    ensures CountCells(g, p, x0, x1, y0, y1) == CountCells(h, p, x0, x1, y0, y1)
  {
    if y1 > y0 {
      CountCellsCongruent(g, h, p, x0, x1, y0, y1 - 1);
      CountRowCongruent(g, h, p, y1 - 1, x0, x1);
    }
  }

  lemma {:induction false} CountRowCongruent(g: Grid, h: Grid, p: TileType -> bool, y: int, x0: int, x1: int)
    requires WellFormed(g) && WellFormed(h)
    requires forall y, x :: InBounds(x, y) ==> p(g[y][x]) == p(h[y][x])
    decreases x1 - x0
    ensures CountRow(g, p, y, x0, x1) == CountRow(h, p, y, x0, x1)
  {
    if x1 > x0 {
      CountRowCongruent(g, h, p, y, x0, x1 - 1);
    }
  }

  predicate IsBrickKind(t: TileType)
  {
    t == Brick
  }

  /**
   * `has_free_space_around`: the centre is walkable and at least half of the
   * (2r+1)x(2r+1) square around it (cells off the grid counting as not free) is walkable.
   */
  predicate FreeSpaceAround(g: Grid, cx: int, cy: int, r: int)
    requires WellFormed(g)
  {
    IsWalkable(g, cx, cy) &&
    2 * CountCells(g, IsWalkableKind, cx - r, cx + r + 1, cy - r, cy + r + 1) >= (2 * r + 1) * (2 * r + 1)
  }

  /** With radius 0 the square is the centre alone, so the test is walkability of the centre. */
  lemma FreeSpaceRadiusZero(g: Grid, cx: int, cy: int)
    requires WellFormed(g)
    ensures FreeSpaceAround(g, cx, cy, 0) <==> IsWalkable(g, cx, cy)
  {
    assert CountRow(g, IsWalkableKind, cy, cx, cx) == 0;
    assert CountCells(g, IsWalkableKind, cx, cx + 1, cy, cy) == 0;
  }

  /** Spawn corners probed by `get_corner_spawn_positions_with_space`, in order. */
  const SpawnCorners: seq<(int, int)> := [(Cols - 2, 1), (Cols - 2, Rows - 2), (1, Rows - 2), (Cols / 2, 1)]

  /**
   * The first k spawn corners kept by the free-space test, in probe order:
   * exactly the corners (and only those) around which there is room.
   */
  function CornersWithSpace(g: Grid, minSpace: int, k: int): (r: seq<(int, int)>)
    requires WellFormed(g) && 0 <= k <= |SpawnCorners|
    ensures |r| <= k
    ensures forall p :: p in r <==> p in SpawnCorners[..k] && FreeSpaceAround(g, p.0, p.1, minSpace)
    decreases k
  {
    if k == 0 then []
    else
      var c := SpawnCorners[k - 1];
      assert SpawnCorners[..k] == SpawnCorners[..k - 1] + [c];
      CornersWithSpace(g, minSpace, k - 1) + (if FreeSpaceAround(g, c.0, c.1, minSpace) then [c] else [])
  }

  /** Row-major order: p comes before q. */
  predicate Before(p: (int, int), q: (int, int))
  {
    p.1 < q.1 || (p.1 == q.1 && p.0 < q.0)
  }

  predicate RowMajor(ps: seq<(int, int)>)
  {
    forall a, b :: 0 <= a < b < |ps| ==> Before(ps[a], ps[b])
  }

  predicate Interior(x: int, y: int)
  {
    1 <= x < Cols - 1 && 1 <= y < Rows - 1
  }

  /** An interior walkable cell outside the avoided top-left square. */
  predicate SpawnCandidate(g: Grid, p: (int, int), avoid: int)
    requires WellFormed(g)
  {
    Interior(p.0, p.1) && IsWalkable(g, p.0, p.1) && !(p.0 <= avoid && p.1 <= avoid)
  }

  function Manhattan(a: (int, int), b: (int, int)): nat
  {
    (if a.0 >= b.0 then a.0 - b.0 else b.0 - a.0) + (if a.1 >= b.1 then a.1 - b.1 else b.1 - a.1)
  }

  /** An interior walkable cell at Manhattan distance at least 3 from every given explosion cell. */
  predicate SafeFromBlasts(g: Grid, p: (int, int), tiles: seq<(int, int)>)
    requires WellFormed(g)
  {
    Interior(p.0, p.1) && IsWalkable(g, p.0, p.1) && forall k :: 0 <= k < |tiles| ==> Manhattan(p, tiles[k]) >= 3
  }

  function ClearCell(t: TileType): TileType
  {
    if t == Explosion then Empty else t
  }

  /** The grid after `clear_explosions`. */
  function Cleared(g: Grid): (r: Grid)
    requires WellFormed(g)
    ensures WellFormed(r)
  {
    MapGrid(g, (x, y, t) => ClearCell(t))
  }

  /** Clearing removes every explosion, changes no other cell, and a second clearing changes nothing. */
  lemma ClearedFacts(g: Grid)
    requires WellFormed(g)
    ensures forall y, x :: InBounds(x, y) ==> Cleared(g)[y][x] != Explosion
    ensures forall y, x :: InBounds(x, y) && g[y][x] != Explosion ==> Cleared(g)[y][x] == g[y][x]
    ensures forall y, x :: InBounds(x, y) && g[y][x] == Explosion ==> Cleared(g)[y][x] == Empty
    ensures Cleared(Cleared(g)) == Cleared(g)
  {
    GridExtensionality(Cleared(Cleared(g)), Cleared(g));
  }

  /** Clearing explosions leaves the number of bricks unchanged. */
  lemma ClearingKeepsBricks(g: Grid)
    requires WellFormed(g)
    ensures CountCells(Cleared(g), IsBrickKind, 0, Cols, 0, Rows) == CountCells(g, IsBrickKind, 0, Cols, 0, Rows)
  {
    CountCellsCongruent(Cleared(g), g, IsBrickKind, 0, Cols, 0, Rows);
  }

  class GameMap {
    var grid: Grid
    var powerups: seq<PowerUp>
    const spriteManager: Sprites.SpriteManager?

    predicate Valid()
      reads this`grid, spriteManager
    {
      WellFormed(grid) && (spriteManager != null ==> spriteManager.Valid())
    }

    constructor (spriteManager: Sprites.SpriteManager?)
      requires spriteManager != null ==> spriteManager.Valid()
      ensures Valid()
      ensures grid == EmptyGrid() && powerups == [] && this.spriteManager == spriteManager
    {
      this.spriteManager := spriteManager;
      grid := [];
      powerups := [];
      new;
      InitEmptyMap();
    }

    /** Rebuilds the grid row by row, every cell empty. */
    method InitEmptyMap()
      requires spriteManager != null ==> spriteManager.Valid()
      modifies this
      ensures Valid()
      ensures grid == EmptyGrid() && powerups == old(powerups)
    {
      var rows: Grid := [];
      for y := 0 to Rows
        invariant |rows| == y
        invariant forall j :: 0 <= j < y ==> |rows[j]| == Cols
        invariant forall j, i :: 0 <= j < y && 0 <= i < Cols ==> rows[j][i] == Empty
      {
        var row: seq<TileType> := [];
        for x := 0 to Cols
          invariant |row| == x
          invariant forall i :: 0 <= i < x ==> row[i] == Empty
        {
          row := row + [Empty];
        }
        rows := rows + [row];
      }
      grid := rows;
      GridExtensionality(grid, EmptyGrid());
    }

    /** Whether level generation copies the sprite manager's collision grid (a non-empty one exists). */
    predicate UsesCollisionGrid()
      reads this, spriteManager
    {
      spriteManager != null && spriteManager.collisionGrid.Some? && |spriteManager.collisionGrid.value| > 0
    }

    /**
     * The map a level is built into from these draws: the copy of the
     * collision grid when there is one, the fallback generator's grid
     * otherwise, and on it the random power-ups of the level.
     */
    predicate LevelBuilt(level: int, brick: (int, int) -> bool, spot: (int, int) -> (int, int), choice: int -> KindIndex)
      reads this, spriteManager
    {
      Valid() &&
      (UsesCollisionGrid() ==> CopiedFrom(grid, spriteManager.collisionGrid.value)) &&
      (!UsesCollisionGrid() ==> FallbackFrom(grid, brick)) &&
      powerups == PowerupDrops(grid, spot, choice, PowerupCount(level))
    }

    /**
     * Builds a level: no power-ups, an empty grid, then either the copy of
     * the collision grid followed by random power-ups, or the fallback generator.
     */
    method GenerateLevel(level: int, brick: (int, int) -> bool, spot: (int, int) -> (int, int), choice: int -> KindIndex)
      requires Valid()
      modifies this
      ensures LevelBuilt(level, brick, spot, choice)
    {
      powerups := [];
      InitEmptyMap();
      if UsesCollisionGrid() {
        var cg := spriteManager.collisionGrid.value;
        for y := 0 to Rows
          invariant WellFormed(grid) && powerups == []
          invariant forall j, i :: 0 <= j < Rows && 0 <= i < Cols ==>
            grid[j][i] == if j < y then CopiedCell(cg, i, j) else Empty
        {
          for x := 0 to Cols
            invariant WellFormed(grid) && powerups == []
            invariant forall j, i :: 0 <= j < Rows && 0 <= i < Cols ==>
              grid[j][i] == if j < y || (j == y && i < x) then CopiedCell(cg, i, j) else Empty
          {
            if y < |cg| && x < |cg[y]| {
              var t := spriteManager.GetTileTypeAt(x, y);
              grid := SetCell(grid, x, y, t);
            }
          }
        }
        AddRandomPowerups(level, spot, choice);
      } else {
        GenerateTraditionalLevel(level, brick, spot, choice);
        FallbackFromIff(grid, brick);
      }
    }

    /** The fallback generator: the wall lattice, then bricks, then random power-ups. */
    method GenerateTraditionalLevel(level: int, brick: (int, int) -> bool, spot: (int, int) -> (int, int), choice: int -> KindIndex)
      requires Valid()
      modifies this
      ensures Valid()
      ensures grid == TraditionalGrid(old(grid), brick)
      ensures powerups == old(powerups) + PowerupDrops(grid, spot, choice, PowerupCount(level))
    {
      ghost var g0 := grid;
      PlaceLatticeWalls();
      ghost var g1 := grid;
      for y := 1 to Rows - 1
        invariant WellFormed(grid) && powerups == old(powerups)
        invariant forall j, i :: 0 <= j < Rows && 0 <= i < Cols ==>
          grid[j][i] == if j < y then BrickCell(brick, i, j, g1[j][i]) else g1[j][i]
      {
        for x := 1 to Cols - 1
          invariant WellFormed(grid) && powerups == old(powerups)
          invariant forall j, i :: 0 <= j < Rows && 0 <= i < Cols ==>
            grid[j][i] == if j < y || (j == y && i < x) then BrickCell(brick, i, j, g1[j][i]) else g1[j][i]
        {
          if grid[y][x] == Empty {
            if !(x <= 2 && y <= 2) {
              if brick(x, y) {
                grid := SetCell(grid, x, y, Brick);
              }
            }
          }
        }
      }
      GridExtensionality(grid, TraditionalGrid(g0, brick));
      AddRandomPowerups(level, spot, choice);
    }

    /** The first pass of the fallback generator: walls on the border and on the even/even lattice. */
    method PlaceLatticeWalls()
      requires Valid()
      modifies this
      ensures Valid() && grid == MapGrid(old(grid), LatticeCell) && powerups == old(powerups)
    {
      ghost var g0 := grid;
      for y := 0 to Rows
        invariant WellFormed(grid) && powerups == old(powerups)
        invariant forall j, i :: 0 <= j < Rows && 0 <= i < Cols ==>
          grid[j][i] == if j < y then LatticeCell(i, j, g0[j][i]) else g0[j][i]
      {
        for x := 0 to Cols
          invariant WellFormed(grid) && powerups == old(powerups)
          invariant forall j, i :: 0 <= j < Rows && 0 <= i < Cols ==>
            grid[j][i] == if j < y || (j == y && i < x) then LatticeCell(i, j, g0[j][i]) else g0[j][i]
        {
          if x == 0 || y == 0 || x == Cols - 1 || y == Rows - 1 {
            grid := SetCell(grid, x, y, Wall);
          } else if x % 2 == 0 && y % 2 == 0 {
            grid := SetCell(grid, x, y, Wall);
          }
        }
      }
      GridExtensionality(grid, MapGrid(g0, LatticeCell));
    }

    /**
     * Places up to min(3 + level, 8) power-ups: for each, up to 50 drawn
     * spots are tried and the first empty one receives a power-up of the
     * drawn kind. The grid itself is not changed.
     */
    method AddRandomPowerups(level: int, spot: (int, int) -> (int, int), choice: int -> KindIndex)
      requires Valid()
      modifies this`powerups
      ensures Valid() && grid == old(grid)
      ensures powerups == old(powerups) + PowerupDrops(grid, spot, choice, PowerupCount(level))
    {
      var count := PowerupCount(level);
      ghost var p0 := powerups;
      for n := 0 to Max(count, 0)
        invariant powerups == p0 + PowerupDrops(grid, spot, choice, n)
      {
        DropPowerup(spot, choice, n, p0);
      }
    }

    /**
     * Places the n-th power-up on the first empty drawn spot, if any: after
     * the drops of slots 0..n-1 on top of p0 come those of slots 0..n.
     */
    method DropPowerup(spot: (int, int) -> (int, int), choice: int -> KindIndex, n: int, ghost p0: seq<PowerUp>)
      requires Valid() && 0 <= n && powerups == p0 + PowerupDrops(grid, spot, choice, n)
      modifies this`powerups
      ensures Valid()
      ensures powerups == p0 + PowerupDrops(grid, spot, choice, n + 1)
    {
      var found := FindEmptySpot(spot, n);
      Seqs.AppendAssoc(p0, PowerupDrops(grid, spot, choice, n), DropAt(grid, spot, choice, n));
      if found.Some? {
        powerups := powerups + [NewPowerUp(found.value.0, found.value.1, PowerupKinds[choice(n)])];
      }
    }

    /** Tries the drawn spots of the n-th power-up in turn, stopping at the first empty cell. */
    method FindEmptySpot(spot: (int, int) -> (int, int), n: int) returns (found: Option<(int, int)>)
      requires Valid()
      ensures found == FirstEmptySpot(grid, spot, n, 0)
    {
      var attempt := 0;
      while attempt < MaxAttempts
        invariant 0 <= attempt <= MaxAttempts
        invariant FirstEmptySpot(grid, spot, n, attempt) == FirstEmptySpot(grid, spot, n, 0)
      {
        var (x, y) := spot(n, attempt);
        if Tiles.GetTile(grid, x, y) == Empty {
          return Some((x, y));
        }
        attempt := attempt + 1;
      }
      return None;
    }

    function GetTile(x: int, y: int): (t: TileType)
      reads this, spriteManager
      requires Valid()
      ensures !InBounds(x, y) ==> t == Wall
      ensures InBounds(x, y) ==> t == grid[y][x]
    {
      Tiles.GetTile(grid, x, y)
    }

    /** Writes one cell; out of bounds nothing changes. */
    method SetTile(x: int, y: int, t: TileType)
      requires Valid()
      modifies this
      ensures Valid()
      ensures grid == SetCell(old(grid), x, y, t) && powerups == old(powerups)
    {
      if InBounds(x, y) {
        grid := grid[y := grid[y][x := t]];
      }
    }

    /** Drops a power-up of the drawn kind on cell (gx, gy). */
    method AddPowerupAt(gx: int, gy: int, choice: int)
      requires 0 <= choice < |PowerupKinds|
      modifies this
      ensures grid == old(grid)
      ensures powerups == old(powerups) + [NewPowerUp(gx, gy, PowerupKinds[choice])]
      ensures IsPowerupKind(powerups[|powerups| - 1].kind)
    {
      powerups := powerups + [NewPowerUp(gx, gy, PowerupKinds[choice])];
    }

    /**
     * Animates every power-up, applies those touching the player (in list
     * order) and removes them, popping the collected indices from the back.
     * Returns whether anything was collected.
     */
    method UpdatePowerups(dt: int, player: Players.Player) returns (collected: bool)
      requires Valid()
      modifies this, player
      ensures Valid() && grid == old(grid)
      ensures powerups == Kept(UpdatedAll(old(powerups), dt), old(player.GetRect()))
      ensures player.GetStats() == ApplyAll(old(player.GetStats()), Taken(UpdatedAll(old(powerups), dt), old(player.GetRect())))
      ensures player.Pose() == old(player.Pose())
      ensures collected <==> |powerups| < |old(powerups)|
    {
      ghost var u := UpdatedAll(powerups, dt);
      ghost var pr := player.GetRect();
      var hits := ScanPowerups(dt, player, u, pr);
      RemoveCollected(hits, u, pr);
      HitIndicesShrink(u, pr, hits);
      collected := |hits| > 0;
    }

    /**
     * The scan of the power-up update: animates each power-up in place and
     * applies and records those touching the player, in list order.
     */
    method ScanPowerups(dt: int, player: Players.Player, ghost u: seq<PowerUp>, ghost pr: Rect) returns (hits: seq<int>)
      requires Valid() && u == UpdatedAll(powerups, dt) && pr == player.GetRect()
      modifies this`powerups, player
      ensures Valid() && grid == old(grid)
      ensures powerups == u && HitIndices(u, pr, hits, |u|)
      ensures player.GetStats() == ApplyAll(old(player.GetStats()), Taken(u, pr))
      ensures player.Pose() == old(player.Pose())
    {
      ghost var s0 := player.GetStats();
      hits := [];
      var i := 0;
      while i < |powerups|
        invariant 0 <= i <= |u|
        invariant ScanState(old(powerups), u, pr, i, powerups, hits)
        invariant player.Pose() == old(player.Pose()) && pr == player.GetRect()
        invariant player.GetStats() == ApplyAll(s0, Taken(u[..i], pr))
      {
        hits := CollectOne(i, dt, player, old(powerups), u, pr, s0, hits);
        i := i + 1;
      }
      ScanDone(old(powerups), u, pr, powerups, hits);
      TakenWhole(u, pr);
    }

    /**
     * One step of the scan: animates the i-th power-up and, when it touches
     * the player, applies it and records i.
     */
    method CollectOne(i: int, dt: int, player: Players.Player, ghost orig: seq<PowerUp>, ghost u: seq<PowerUp>,
                      ghost pr: Rect, ghost s0: Players.Stats, hits: seq<int>) returns (hits': seq<int>)
      requires 0 <= i < |u| && u == UpdatedAll(orig, dt) && pr == player.GetRect()
      requires ScanState(orig, u, pr, i, powerups, hits)
      requires player.GetStats() == ApplyAll(s0, Taken(u[..i], pr))
      modifies this`powerups, player
      ensures ScanState(orig, u, pr, i + 1, powerups, hits')
      ensures player.GetStats() == ApplyAll(s0, Taken(u[..i + 1], pr))
      ensures player.Pose() == old(player.Pose()) && pr == player.GetRect()
    {
      ScanStep(orig, u, pr, i, powerups, hits);
      TakenStep(s0, u, i, pr);
      var p := powerups[i].Update(dt);
      assert p == u[i];
      powerups := powerups[i := p];
      hits' := hits;
      if Colliding(p.Rect(), player.GetRect()) {
        ApplyTo(p, player);
        hits' := hits + [i];
      }
    }

    /** Pops the recorded indices, the last one first, leaving the power-ups not hit. */
    method RemoveCollected(hits: seq<int>, ghost u: seq<PowerUp>, ghost pr: Rect)
      requires powerups == u && HitIndices(u, pr, hits, |u|)
      modifies this
      ensures grid == old(grid)
      ensures powerups == Kept(u, pr)
    {
      assert u[|u|..] == [];
      var j := |hits|;
      while j > 0
        invariant 0 <= j <= |hits|
        invariant grid == old(grid)
        invariant var b := if j == |hits| then |u| else hits[j];
          0 <= b <= |u| && powerups == u[..b] + Kept(u[b..], pr)
      {
        j := j - 1;
        var c := hits[j];
        HitIndicesSkip(u, pr, hits, j);
        ghost var b := if j + 1 == |hits| then |u| else hits[j + 1];
        PopAt(powerups, u, Kept(u[b..], pr), c, b);
        powerups := powerups[..c] + powerups[c + 1..];
      }
      HitIndicesPrefix(u, pr, hits);
    }

    /** Interior walkable cells outside the avoided top-left square, in row-major order. */
    method GetValidSpawnPositions(avoid: int) returns (positions: seq<(int, int)>)
      requires Valid()
      ensures forall p :: p in positions <==> SpawnCandidate(grid, p, avoid)
      ensures RowMajor(positions)
    {
      positions := [];
      for y := 1 to Rows - 1
        invariant forall p :: p in positions <==> SpawnCandidate(grid, p, avoid) && p.1 < y
        invariant forall k :: 0 <= k < |positions| ==> positions[k].1 < y
        invariant RowMajor(positions)
      {
        for x := 1 to Cols - 1
          invariant forall p :: p in positions <==> SpawnCandidate(grid, p, avoid) && Before(p, (x, y))
          invariant forall k :: 0 <= k < |positions| ==> Before(positions[k], (x, y))
          invariant RowMajor(positions)
        {
          if IsWalkable(grid, x, y) && !(x <= avoid && y <= avoid) {
            positions := positions + [(x, y)];
          }
        }
      }
    }

    /** The spawn corners that have free space of the given radius around them, in probe order. */
    method GetCornerSpawnPositionsWithSpace(minSpace: int) returns (positions: seq<(int, int)>)
      requires Valid()
      ensures positions == CornersWithSpace(grid, minSpace, |SpawnCorners|)
      ensures forall p :: p in positions <==> p in SpawnCorners && FreeSpaceAround(grid, p.0, p.1, minSpace)
      ensures |positions| <= |SpawnCorners|
    {
      positions := [];
      for k := 0 to |SpawnCorners|
        invariant positions == CornersWithSpace(grid, minSpace, k)
      {
        var (x, y) := SpawnCorners[k];
        var free := HasFreeSpaceAround(x, y, minSpace);
        if free {
          positions := positions + [(x, y)];
        }
      }
      assert SpawnCorners[..|SpawnCorners|] == SpawnCorners;
    }

    /** Scans the square of radius minRadius around the centre, counting walkable cells. */
    method HasFreeSpaceAround(cx: int, cy: int, minRadius: int) returns (free: bool)
      requires Valid()
      ensures free == FreeSpaceAround(grid, cx, cy, minRadius)
      ensures free ==> IsWalkable(grid, cx, cy)
    {
      if !IsWalkable(grid, cx, cy) {
        return false;
      }
      var x0, x1 := cx - minRadius, cx + minRadius + 1;
      var freeCount := 0;
      var y := cy - minRadius;
      while y < cy + minRadius + 1
        invariant y == cy - minRadius || cy - minRadius <= y <= cy + minRadius + 1
        invariant freeCount == CountCells(grid, IsWalkableKind, x0, x1, cy - minRadius, y)
      {
        var x := x0;
        while x < x1
          invariant x0 <= x <= x1
          invariant freeCount == CountCells(grid, IsWalkableKind, x0, x1, cy - minRadius, y) + CountRow(grid, IsWalkableKind, y, x0, x)
        {
          if 0 <= x < Cols && 0 <= y < Rows {
            if IsWalkable(grid, x, y) {
              freeCount := freeCount + 1;
            }
          }
          x := x + 1;
        }
        y := y + 1;
      }
      var total := (2 * minRadius + 1) * (2 * minRadius + 1);
      free := 2 * freeCount >= total;
    }

    /** Counts the brick cells of the whole grid. */
    method CountDestructibleBlocks() returns (count: int)
      requires Valid()
      ensures count == CountCells(grid, IsBrickKind, 0, Cols, 0, Rows)
    {
      count := 0;
      for y := 0 to Rows
        invariant count == CountCells(grid, IsBrickKind, 0, Cols, 0, y)
      {
        for x := 0 to Cols
          invariant count == CountCells(grid, IsBrickKind, 0, Cols, 0, y) + CountRow(grid, IsBrickKind, y, 0, x)
        {
          if grid[y][x] == Brick {
            count := count + 1;
          }
        }
      }
    }

    /** Turns every explosion cell back into an empty cell. */
    method ClearExplosions()
      requires Valid()
      modifies this
      ensures Valid()
      ensures grid == Cleared(old(grid)) && powerups == old(powerups)
    {
      ghost var g0 := grid;
      for y := 0 to Rows
        invariant WellFormed(grid) && powerups == old(powerups)
        invariant forall j, i :: 0 <= j < Rows && 0 <= i < Cols ==>
          grid[j][i] == if j < y then ClearCell(g0[j][i]) else g0[j][i]
      {
        for x := 0 to Cols
          invariant WellFormed(grid) && powerups == old(powerups)
          invariant forall j, i :: 0 <= j < Rows && 0 <= i < Cols ==>
            grid[j][i] == if j < y || (j == y && i < x) then ClearCell(g0[j][i]) else g0[j][i]
        {
          if grid[y][x] == Explosion {
            grid := SetCell(grid, x, y, Empty);
          }
        }
      }
      GridExtensionality(grid, Cleared(g0));
    }

    /** Interior walkable cells at Manhattan distance at least 3 from every explosion cell, in row-major order. */
    method GetSafePositionsFromExplosions(tiles: seq<(int, int)>) returns (positions: seq<(int, int)>)
      requires Valid()
      ensures forall p :: p in positions <==> SafeFromBlasts(grid, p, tiles)
      ensures RowMajor(positions)
    {
      positions := [];
      for y := 1 to Rows - 1
        invariant forall p :: p in positions <==> SafeFromBlasts(grid, p, tiles) && p.1 < y
        invariant forall k :: 0 <= k < |positions| ==> positions[k].1 < y
        invariant RowMajor(positions)
      {
        for x := 1 to Cols - 1
          invariant forall p :: p in positions <==> SafeFromBlasts(grid, p, tiles) && Before(p, (x, y))
          invariant forall k :: 0 <= k < |positions| ==> Before(positions[k], (x, y))
          invariant RowMajor(positions)
        {
          if IsWalkable(grid, x, y) {
            var safe := true;
            var k := 0;
            while k < |tiles| && safe
              invariant 0 <= k <= |tiles|
              invariant safe <==> forall m :: 0 <= m < k ==> Manhattan((x, y), tiles[m]) >= 3
            {
              if Manhattan((x, y), tiles[k]) < 3 {
                safe := false;
              }
              k := k + 1;
            }
            if safe {
              positions := positions + [(x, y)];
            }
          }
        }
      }
    }
  }
}
