/**
 * The match bookkeeping of game/bomberman_game.py: the screen state machine
 * driven by key presses, the character menu, the player's bombs, the fuse
 * to explosion hand-over, the end of explosions, collisions, lives, levels
 * and score.
 */
module Game {
  import opened Options
  import opened Constants
  import opened Tiles
  import Seqs
  import Maps
  import Sprites
  import Players
  import Blast
  import Enemies
  import Pickups

  type Cell = (int, int)

  // ---------------------------------------------------------------------
  // Keys and screens

  /** The keys the game reacts to; every other key is `OtherKey`. */
  datatype Key = Return | Escape | LeftArrow | RightArrow | UpArrow | DownArrow | Space | PKey | MKey | OtherKey

  /**
   * The screen after a key press. RETURN moves from the title to the
   * character menu, from the menu into play, and from the end screens back
   * into play (the next level or a new game); P pauses and resumes; ESCAPE
   * goes back to the title from everywhere else. M only mutes, and SPACE
   * places a bomb without leaving play.
   */
  function KeyTransition(s: GameState, k: Key): (r: GameState)
    ensures k == Escape ==> r == Start
    ensures k !in {Return, Escape, PKey} ==> r == s
    ensures r == Playing && s != Playing <==>
      (k == Return && s in {CharacterSelect, GameOver, Victory}) || (k == PKey && s == Paused)
    ensures s == Playing && k == PKey ==> r == Paused
    ensures r == Paused ==> s in {Playing, Paused} && k != Escape
  {
    match s
    case Start => if k == Return then CharacterSelect else Start
    case CharacterSelect => if k == Return then Playing else if k == Escape then Start else CharacterSelect
    case Playing => if k == PKey then Paused else if k == Escape then Start else Playing
    case Paused => if k == PKey then Playing else if k == Escape then Start else Paused
    case GameOver => if k == Return then Playing else if k == Escape then Start else GameOver
    case Victory => if k == Return then Playing else if k == Escape then Start else Victory
  }

  /** Pressing P twice in play or in pause comes back to where it started. */
  lemma PauseRoundTrip(s: GameState)
    requires s == Playing || s == Paused
    ensures KeyTransition(KeyTransition(s, PKey), PKey) == s
  {
  }

  /** How far an arrow key moves the menu cursor: one step sideways, one row (two entries) up or down. */
  function ArrowDelta(k: Key): int
  {
    match k
    case LeftArrow => -1
    case RightArrow => 1
    case UpArrow => -2
    case DownArrow => 2
    case _ => 0
  }

  predicate IsArrow(k: Key)
  {
    k in {LeftArrow, RightArrow, UpArrow, DownArrow}
  }

  /** The menu cursor moved by delta, wrapping around the character list (Python's `%` is a floor modulo). */
  function Cycle(index: int, delta: int): (r: int)
    ensures 0 <= r < |AllCharacters|
    ensures (r - index - delta) % |AllCharacters| == 0
  {
    (index + delta) % |AllCharacters|
  }

  /** Moving the cursor back undoes the move: LEFT after RIGHT, UP after DOWN, and so on. */
  lemma {:induction false} CycleUndo(index: int, delta: int)
    requires 0 <= index < |AllCharacters|
    ensures Cycle(Cycle(index, delta), -delta) == index
  {
    var n := |AllCharacters|;
    var q := (index + delta) / n;
    assert Cycle(index, delta) == index + delta - n * q;
    assert Cycle(index, delta) - delta == index + n * (-q);
  }

  /**
   * Whether key k does anything on screen s: RETURN on the title, the menu
   * and the end screens, the arrows in the menu, SPACE in play, P in play
   * and in pause, and ESCAPE everywhere but on the title.
   */
  predicate Effective(s: GameState, k: Key)
  {
    match s
    case Start => k == Return
    case CharacterSelect => IsArrow(k) || k == Return || k == Escape
    case Playing => k == Space || k == PKey || k == Escape
    case Paused => k == PKey || k == Escape
    case GameOver => k == Return || k == Escape
    case Victory => k == Return || k == Escape
  }

  /** A key without effect leaves the screen as it is; a screen change always comes from an effective key. */
  lemma IneffectiveKeepsScreen(s: GameState, k: Key)
    ensures !Effective(s, k) ==> KeyTransition(s, k) == s
    ensures KeyTransition(s, k) != s ==> Effective(s, k)
  {
  }

  // ---------------------------------------------------------------------
  // The player's bombs

  /** No two bombs share a cell. */
  predicate CellsApart(bs: seq<Blast.Bomb>)
  {
    forall i, j :: 0 <= i < j < |bs| ==> bs[i].Origin() != bs[j].Origin()
  }

  /**
   * The bomb list after the player asks for a bomb on cell c: unchanged when
   * the owner already has cap bombs out or some bomb lies on c, otherwise
   * one new bomb lit at time now on c, appended.
   */
  function WithPlayerBomb(bs: seq<Blast.Bomb>, c: Cell, range: int, owner: Character, cap: int, now: int): (r: seq<Blast.Bomb>)
    ensures r == bs || r == bs + [Blast.NewBomb(c.0, c.1, range, owner, now)]
    ensures r != bs <==> Enemies.OwnedCount(bs, owner) < cap && forall i :: 0 <= i < |bs| ==> bs[i].Origin() != c
  {
    if Enemies.OwnedCount(bs, owner) >= cap then bs
    else if exists i :: 0 <= i < |bs| && bs[i].Origin() == c then bs
    else bs + [Blast.NewBomb(c.0, c.1, range, owner, now)]
  }

  /** Appending a bomb adds one to its owner's count and nothing to the others'. */
  lemma OwnedCountSnoc(bs: seq<Blast.Bomb>, b: Blast.Bomb, ch: Character)
    ensures Enemies.OwnedCount(bs + [b], ch) == Enemies.OwnedCount(bs, ch) + (if b.owner == ch then 1 else 0)
  {
    assert (bs + [b])[..|bs|] == bs;
  }

  /**
   * Asking for a bomb never takes the owner past the cap, and never puts
   * two bombs on one cell.
   */
  lemma PlacementKeepsLimits(bs: seq<Blast.Bomb>, c: Cell, range: int, owner: Character, cap: int, now: int)
    requires Enemies.OwnedCount(bs, owner) <= cap && CellsApart(bs)
    ensures Enemies.OwnedCount(WithPlayerBomb(bs, c, range, owner, cap, now), owner) <= cap
    ensures CellsApart(WithPlayerBomb(bs, c, range, owner, cap, now))
  {
    var r := WithPlayerBomb(bs, c, range, owner, cap, now);
    if r != bs {
      OwnedCountSnoc(bs, Blast.NewBomb(c.0, c.1, range, owner, now), owner);
    }
  }

  // ---------------------------------------------------------------------
  // Fuses

  /** The bombs whose fuse has burnt down at time now, after their frame update, in list order. */
  function Fused(bs: seq<Blast.Bomb>, dt: int, now: int): (r: seq<Blast.Bomb>)
    ensures |r| <= |bs|
  {
    if bs == [] then []
    else
      var u := bs[|bs| - 1].Update(dt, now);
      Fused(bs[..|bs| - 1], dt, now) + (if u.1 then [u.0] else [])
  }

  /** The bombs still burning at time now, after their frame update, in list order. */
  function Ticked(bs: seq<Blast.Bomb>, dt: int, now: int): (r: seq<Blast.Bomb>)
    ensures |r| <= |bs|
  {
    if bs == [] then []
    else
      var u := bs[|bs| - 1].Update(dt, now);
      Ticked(bs[..|bs| - 1], dt, now) + (if u.1 then [] else [u.0])
  }

  /** A frame update moves the fuse clock only: the cell, range, owner and lighting time stay. */
  lemma UpdateKeepsBomb(b: Blast.Bomb, dt: int, now: int)
    ensures var u := b.Update(dt, now).0;
      u.Origin() == b.Origin() && u.explosionRange == b.explosionRange && u.owner == b.owner && u.timer == b.timer
  {
  }

  /** The exploded bombs are exactly those whose fuse has burnt down; the others keep burning. */
  lemma {:induction false} FuseSides(bs: seq<Blast.Bomb>, dt: int, now: int)
    decreases |bs|
    ensures forall k :: 0 <= k < |Fused(bs, dt, now)| ==> now - Fused(bs, dt, now)[k].timer >= BombTimer
    ensures forall k :: 0 <= k < |Ticked(bs, dt, now)| ==> now - Ticked(bs, dt, now)[k].timer < BombTimer
  {
    if bs != [] {
      var init, b := bs[..|bs| - 1], bs[|bs| - 1];
      var u := b.Update(dt, now);
      FuseSides(init, dt, now);
      UpdateKeepsBomb(b, dt, now);
      if u.1 {
        assert Fused(bs, dt, now) == Fused(init, dt, now) + [u.0];
        assert Ticked(bs, dt, now) == Ticked(init, dt, now);
      } else {
        assert Fused(bs, dt, now) == Fused(init, dt, now);
        assert Ticked(bs, dt, now) == Ticked(init, dt, now) + [u.0];
      }
    }
  }

  /**
   * Every bomb either explodes or keeps burning, and an owner's bombs are
   * split between the two: the ones that explode free their places.
   */
  lemma {:induction false} FuseSplit(bs: seq<Blast.Bomb>, dt: int, now: int, ch: Character)
    decreases |bs|
    ensures |Fused(bs, dt, now)| + |Ticked(bs, dt, now)| == |bs|
    ensures Enemies.OwnedCount(Fused(bs, dt, now), ch) + Enemies.OwnedCount(Ticked(bs, dt, now), ch) == Enemies.OwnedCount(bs, ch)
  {
    if bs != [] {
      var init, b := bs[..|bs| - 1], bs[|bs| - 1];
      var u := b.Update(dt, now);
      FuseSplit(init, dt, now, ch);
      UpdateKeepsBomb(b, dt, now);
      assert Enemies.OwnedCount(bs, ch) == Enemies.OwnedCount(init, ch) + (if b.owner == ch then 1 else 0);
      if u.1 {
        assert Fused(bs, dt, now) == Fused(init, dt, now) + [u.0];
        assert Ticked(bs, dt, now) == Ticked(init, dt, now);
        OwnedCountSnoc(Fused(init, dt, now), u.0, ch);
      } else {
        assert Fused(bs, dt, now) == Fused(init, dt, now);
        assert Ticked(bs, dt, now) == Ticked(init, dt, now) + [u.0];
        OwnedCountSnoc(Ticked(init, dt, now), u.0, ch);
      }
    }
  }

  /** Taking one more bomb of the list into account moves it to one side of the split. */
  lemma FuseStep(bs: seq<Blast.Bomb>, i: int, dt: int, now: int)
    requires 0 <= i < |bs|
    ensures var u := bs[i].Update(dt, now);
      if u.1 then
        Fused(bs[..i + 1], dt, now) == Fused(bs[..i], dt, now) + [u.0] && Ticked(bs[..i + 1], dt, now) == Ticked(bs[..i], dt, now)
      else
        Fused(bs[..i + 1], dt, now) == Fused(bs[..i], dt, now) && Ticked(bs[..i + 1], dt, now) == Ticked(bs[..i], dt, now) + [u.0]
  {
    assert bs[..i + 1][..i] == bs[..i];
    assert Fused(bs[..i], dt, now) + [] == Fused(bs[..i], dt, now);
    assert Ticked(bs[..i], dt, now) + [] == Ticked(bs[..i], dt, now);
  }

  // ---------------------------------------------------------------------
  // The end of explosions

  /** The explosions still burning at time now, animated by dt, in list order. */
  function Live(es: seq<Blast.Explosion>, dt: int, now: int): (r: seq<Blast.Explosion>)
    ensures |r| <= |es|
    ensures forall k :: 0 <= k < |r| ==> now - r[k].timer < ExplosionDuration
    ensures (forall k :: 0 <= k < |es| ==> |es[k].tiles| > 0) ==> forall k :: 0 <= k < |r| ==> |r[k].tiles| > 0
  {
    if es == [] then []
    else
      var e := es[|es| - 1];
      Live(es[..|es| - 1], dt, now) + (if now - e.timer >= ExplosionDuration then [] else [e.Animate(dt)])
  }

  /** The tiles of the explosions that end at time now, one explosion after the other. */
  function EndedTiles(es: seq<Blast.Explosion>, now: int): (r: seq<Cell>)
    ensures forall k, t :: 0 <= k < |es| && now - es[k].timer >= ExplosionDuration && t in es[k].tiles ==> t in r
  {
    if es == [] then []
    else
      var e := es[|es| - 1];
      EndedTiles(es[..|es| - 1], now) + (if now - e.timer >= ExplosionDuration then e.tiles else [])
  }

  /** Taking one more explosion of the list into account either keeps it, animated, or adds its tiles to the cleared ones. */
  lemma ExplosionStep(es: seq<Blast.Explosion>, i: int, dt: int, now: int)
    requires 0 <= i < |es|
    ensures if now - es[i].timer >= ExplosionDuration then
        Live(es[..i + 1], dt, now) == Live(es[..i], dt, now) &&
        EndedTiles(es[..i + 1], now) == EndedTiles(es[..i], now) + es[i].tiles
      else
        Live(es[..i + 1], dt, now) == Live(es[..i], dt, now) + [es[i].Animate(dt)] &&
        EndedTiles(es[..i + 1], now) == EndedTiles(es[..i], now)
  {
    assert es[..i + 1][..i] == es[..i];
    assert EndedTiles(es[..i], now) + [] == EndedTiles(es[..i], now);
    assert Live(es[..i], dt, now) + [] == Live(es[..i], dt, now);
  }

  /** Reverting nothing leaves the grid as it is. */
  lemma RevertedNothing(g: Grid)
    requires WellFormed(g)
    ensures Blast.Reverted(g, []) == g
  {
    GridExtensionality(Blast.Reverted(g, []), g);
  }

  /**
   * Two explosions ending one after the other revert the same cells as one
   * explosion over both tile lists: a cell reverted by the first is EMPTY
   * and the second leaves it so.
   */
  lemma RevertedCompose(g: Grid, a: seq<Cell>, b: seq<Cell>)
    requires WellFormed(g)
    ensures Blast.Reverted(Blast.Reverted(g, a), b) == Blast.Reverted(g, a + b)
  {
    var h := Blast.Reverted(g, a);
    forall j, i | 0 <= j < Rows && 0 <= i < Cols
      ensures Blast.Reverted(h, b)[j][i] == Blast.Reverted(g, a + b)[j][i]
    {
      assert (i, j) in a + b <==> (i, j) in a || (i, j) in b;
    }
    GridExtensionality(Blast.Reverted(h, b), Blast.Reverted(g, a + b));
  }

  // ---------------------------------------------------------------------
  // Collisions

  /**
   * Explosion e catches an entity whose box starts at (x, y): the blast
   * from the explosion's first tile, the bomb's cell, can reach that point,
   * and the cell of the point (floor division) is one of its tiles.
   */
  predicate Catches(g: Grid, e: Blast.Explosion, x: int, y: int)
    requires WellFormed(g) && |e.tiles| > 0
  {
    var o := e.tiles[0];
    CanExplosionReachPlayer(g, o.0 * Tile, o.1 * Tile, x, y) && (CellOf(x), CellOf(y)) in e.tiles
  }

  /**
   * The explosion made by bomb b is caught-checked from the bomb's own cell:
   * its first tile is the bomb's cell, so the reach test starts where the
   * bomb lay, as `check_collisions` means to with `bomb_x` and `bomb_y`.
   */
  lemma CatchesFromBombCell(g: Grid, h: Grid, b: Blast.Bomb, now: int, x: int, y: int)
    requires WellFormed(g) && WellFormed(h)
    ensures var e := Blast.NewExplosion(Blast.BlastTiles(g, b), now);
      Catches(h, e, x, y) <==>
        CanExplosionReachPlayer(h, b.gridX * Tile, b.gridY * Tile, x, y) && (CellOf(x), CellOf(y)) in e.tiles
  {
    Blast.BlastTilesShape(g, b);
  }

  /** How `check_collisions` ends as written. */
  datatype CheckRun = Raised | Finished

  /**
   * `check_collisions` as written: with a player, its first loop reads
   * `bomb_x` of the first explosion, an attribute no Explosion has, and
   * raises; without an explosion no such read happens.
   */
  function CollisionRunAsWritten(hasPlayer: bool, explosions: seq<Blast.Explosion>): (r: CheckRun)
    ensures r == Raised <==> hasPlayer && |explosions| > 0
  {
    if hasPlayer && |explosions| > 0 then Raised else Finished
  }

  /** The first bomb that goes off in play makes the next collision check raise. */
  lemma FirstBlastRaises(g: Grid, b: Blast.Bomb, now: int)
    requires WellFormed(g)
    ensures CollisionRunAsWritten(true, [Blast.NewExplosion(Blast.BlastTiles(g, b), now)]) == Raised
  {
  }

  /** How many of the first k explosions of es catch an entity at (x, y), counted in list order. */
  function CatchCount(g: Grid, es: seq<Blast.Explosion>, x: int, y: int, k: int): (n: nat)
    requires WellFormed(g) && forall i :: 0 <= i < |es| ==> |es[i].tiles| > 0
    requires 0 <= k <= |es|
    ensures n <= k
  {
    if k == 0 then 0 else CatchCount(g, es, x, y, k - 1) + (if Catches(g, es[k - 1], x, y) then 1 else 0)
  }

  /** None of the first k explosions catches the entity iff the count over them is zero. */
  lemma {:induction false} CatchCountZero(g: Grid, es: seq<Blast.Explosion>, x: int, y: int, k: int)
    requires WellFormed(g) && forall i :: 0 <= i < |es| ==> |es[i].tiles| > 0
    requires 0 <= k <= |es|
    ensures CatchCount(g, es, x, y, k) == 0 <==> forall i :: 0 <= i < k ==> !Catches(g, es[i], x, y)
  {
    if k > 0 {
      CatchCountZero(g, es, x, y, k - 1);
    }
  }

  /** Counting over more explosions never counts fewer catches. */
  lemma {:induction false} CatchCountMono(g: Grid, es: seq<Blast.Explosion>, x: int, y: int, a: int, b: int)
    requires WellFormed(g) && forall i :: 0 <= i < |es| ==> |es[i].tiles| > 0
    requires 0 <= a <= b <= |es|
    ensures CatchCount(g, es, x, y, a) <= CatchCount(g, es, x, y, b)
  {
    if a < b {
      CatchCountMono(g, es, x, y, a, b - 1);
    }
  }

  /** Some explosion of es catches an entity at (x, y). */
  predicate CaughtBy(g: Grid, es: seq<Blast.Explosion>, x: int, y: int)
    requires WellFormed(g) && forall k :: 0 <= k < |es| ==> |es[k].tiles| > 0
  {
    CatchCount(g, es, x, y, |es|) > 0
  }

  /** Being caught means exactly that one of the explosions catches the entity. */
  lemma CaughtByIff(g: Grid, es: seq<Blast.Explosion>, x: int, y: int)
    requires WellFormed(g) && forall k :: 0 <= k < |es| ==> |es[k].tiles| > 0
    ensures CaughtBy(g, es, x, y) <==> exists k :: 0 <= k < |es| && Catches(g, es[k], x, y)
  {
    CatchCountZero(g, es, x, y, |es|);
  }

  /** No explosion catches anything on a cell that is none of its tiles. */
  lemma CaughtOnlyOnTiles(g: Grid, es: seq<Blast.Explosion>, x: int, y: int)
    requires WellFormed(g) && forall k :: 0 <= k < |es| ==> |es[k].tiles| > 0
    requires forall k :: 0 <= k < |es| ==> (CellOf(x), CellOf(y)) !in es[k].tiles
    ensures !CaughtBy(g, es, x, y)
  {
    CatchCountZero(g, es, x, y, |es|);
  }

  /** The states of the enemies ens, in list order. */
  function States(ens: seq<Enemies.Enemy>): (r: seq<Enemies.EnemyState>)
    reads ens
    ensures |r| == |ens|
  {
    if ens == [] then [] else States(ens[..|ens| - 1]) + [ens[|ens| - 1].State()]
  }

  /** The list of states holds each enemy's state at its index. */
  lemma {:induction false} StatesAt(ens: seq<Enemies.Enemy>)
    ensures forall i :: 0 <= i < |ens| ==> States(ens)[i] == ens[i].State()
  {
    if ens != [] {
      var init := ens[..|ens| - 1];
      StatesAt(init);
      assert forall i :: 0 <= i < |init| ==> init[i] == ens[i];
    }
  }

  /** The points an enemy in state s earns: 100 for each explosion that catches it, if it is alive. */
  function Reward(g: Grid, es: seq<Blast.Explosion>, s: Enemies.EnemyState): (n: nat)
    requires WellFormed(g) && forall i :: 0 <= i < |es| ==> |es[i].tiles| > 0
    ensures n > 0 ==> s.alive
    ensures n % 100 == 0
  {
    if s.alive then 100 * CatchCount(g, es, s.x, s.y, |es|) else 0
  }

  /** An enemy earns points exactly when it is alive and caught, that is, when the explosions kill it. */
  lemma RewardIffKilled(g: Grid, es: seq<Blast.Explosion>, s: Enemies.EnemyState)
    requires WellFormed(g) && forall i :: 0 <= i < |es| ==> |es[i].tiles| > 0
    ensures Reward(g, es, s) > 0 <==> s.alive && CaughtBy(g, es, s.x, s.y)
  {
  }

  /** The points the enemies in states sts earn, each judged in list order. */
  function Bounty(g: Grid, es: seq<Blast.Explosion>, sts: seq<Enemies.EnemyState>): (n: nat)
    requires WellFormed(g) && forall i :: 0 <= i < |es| ==> |es[i].tiles| > 0
    ensures n % 100 == 0
  {
    if sts == [] then 0 else Bounty(g, es, sts[..|sts| - 1]) + Reward(g, es, sts[|sts| - 1])
  }

  /** The enemies earn nothing exactly when none of them, alive, is caught. */
  lemma {:induction false} BountyZero(g: Grid, es: seq<Blast.Explosion>, sts: seq<Enemies.EnemyState>)
    requires WellFormed(g) && forall i :: 0 <= i < |es| ==> |es[i].tiles| > 0
    ensures Bounty(g, es, sts) == 0 <==> forall i :: 0 <= i < |sts| ==> !(sts[i].alive && CaughtBy(g, es, sts[i].x, sts[i].y))
  {
    if sts != [] {
      var init := sts[..|sts| - 1];
      BountyZero(g, es, init);
      assert forall i :: 0 <= i < |init| ==> init[i] == sts[i];
    }
  }

  /** Judging one more enemy adds its reward. */
  lemma BountyStep(g: Grid, es: seq<Blast.Explosion>, sts: seq<Enemies.EnemyState>, i: int)
    requires WellFormed(g) && forall i :: 0 <= i < |es| ==> |es[i].tiles| > 0
    requires 0 <= i < |sts|
    ensures Bounty(g, es, sts[..i + 1]) == Bounty(g, es, sts[..i]) + Reward(g, es, sts[i])
  {
    assert sts[..i + 1][..i] == sts[..i];
  }

  /** An enemy standing where two explosions overlap earns its 100 points twice. */
  lemma OverlapPaysTwice(g: Grid, e1: Blast.Explosion, e2: Blast.Explosion, x: int, y: int)
    requires WellFormed(g) && |e1.tiles| > 0 && |e2.tiles| > 0
    requires Catches(g, e1, x, y) && Catches(g, e2, x, y)
    ensures CatchCount(g, [e1, e2], x, y, 2) == 2
  {
    assert CatchCount(g, [e1, e2], x, y, 1) == 1;
  }

  /** Whether cell c is one of the tiles ts, scanning them in order. */
  method OnTiles(ts: seq<Cell>, c: Cell) returns (found: bool)
    ensures found <==> c in ts
  {
    for t := 0 to |ts|
      invariant forall j :: 0 <= j < t ==> ts[j] != c
    {
      if ts[t] == c {
        return true;
      }
    }
    return false;
  }

  // ---------------------------------------------------------------------
  // Enemies

  /** The characters other than c, in menu order. */
  function Without(s: seq<Character>, c: Character): (r: seq<Character>)
    ensures forall x :: x in r <==> x in s && x != c
    ensures |r| <= |s|
    // c is carried along so that the constant character list does not unfold on its own
    decreases s, c
  {
    if s == [] then []
    else Without(s[..|s| - 1], c) + (if s[|s| - 1] == c then [] else [s[|s| - 1]])
  }

  /** The enemies' characters: every character but the selected one, in menu order. */
  function Rivals(c: Character): (r: seq<Character>)
    ensures c !in r
    ensures |r| == |AllCharacters| - 1 == 5
  {
    AllCharactersListed(c);
    WithoutDistinct(AllCharacters, c);
    Without(AllCharacters, c)
  }

  /** Removing a character from a list without repetitions shortens it by one exactly when the character is there. */
  lemma {:induction false} WithoutDistinct(s: seq<Character>, c: Character)
    requires forall i, j :: 0 <= i < j < |s| ==> s[i] != s[j]
    decreases |s|
    ensures |Without(s, c)| == if c in s then |s| - 1 else |s|
  {
    if s != [] {
      var init := s[..|s| - 1];
      WithoutDistinct(init, c);
      assert s == init + [s[|s| - 1]];
    }
  }

  /** No cell is listed twice. */
  predicate DistinctCells(ps: seq<Cell>)
  {
    forall a, b :: 0 <= a < b < |ps| ==> ps[a] != ps[b]
  }

  /** `list.remove` on a list without repetitions: the cell at j goes, the others stay, still without repetitions. */
  lemma RemoveAt(ps: seq<Cell>, j: int)
    requires DistinctCells(ps) && 0 <= j < |ps|
    ensures var r := ps[..j] + ps[j + 1..];
      DistinctCells(r) && |r| == |ps| - 1 && forall c :: c in r <==> c in ps && c != ps[j]
  {
    var r := ps[..j] + ps[j + 1..];
    assert forall a :: 0 <= a < |r| ==> r[a] == if a < j then ps[a] else ps[a + 1];
    forall c ensures c in r <==> c in ps && c != ps[j] {
      if c in ps && c != ps[j] {
        var a :| 0 <= a < |ps| && ps[a] == c;
        assert r[if a < j then a else a - 1] == c;
      }
    }
  }

  /** Some enemy of ens stands on cell c. */
  predicate OccupiedBy(ens: seq<Enemies.Enemy>, c: Cell)
    reads ens
  {
    exists i :: 0 <= i < |ens| && ens[i].x == c.0 * Tile && ens[i].y == c.1 * Tile
  }

  /** The three enemy corners, in the order enemies are created: top right, bottom left, bottom right. */
  const EnemyCorners: seq<Cell> := [(Cols - 2, 1), (1, Rows - 2), (Cols - 2, Rows - 2)]

  /**
   * The enemies created for slots 0..k-1: slot i puts rival i on corner i
   * when that corner is walkable, and creates nothing otherwise.
   */
  function Spawns(g: Grid, rivals: seq<Character>, k: int): (r: seq<(Cell, Character)>)
    requires WellFormed(g) && 0 <= k <= 3 && k <= |rivals|
    decreases k, |g|
    ensures |r| <= k
    ensures forall i :: 0 <= i < |r| ==> r[i].0 in EnemyCorners[..k] && IsWalkable(g, r[i].0.0, r[i].0.1) && r[i].1 in rivals
  {
    if k == 0 then []
    else
      var c := EnemyCorners[k - 1];
      Spawns(g, rivals, k - 1) + (if IsWalkable(g, c.0, c.1) then [(c, rivals[k - 1])] else [])
  }

  /**
   * On the level actually played at least one enemy is created: the
   * bottom-right corner is always free. The other two corners may be
   * bricks, so fewer than three enemies is possible.
   */
  lemma SomeEnemySpawns(brick: (int, int) -> bool, rivals: seq<Character>)
    requires |rivals| >= 3
    ensures var g := Maps.CopiedGrid(Sprites.SimpleCollisionGrid(brick));
      1 <= |Spawns(g, rivals, 3)| <= 3
  {
    Maps.CopiedLevelSpawns(brick);
  }

  /** Every spawn uses a different corner. */
  lemma {:induction false} SpawnCornersDistinct(g: Grid, rivals: seq<Character>, k: int)
    requires WellFormed(g) && 0 <= k <= 3 && k <= |rivals|
    decreases k
    ensures forall i, j :: 0 <= i < j < |Spawns(g, rivals, k)| ==> Spawns(g, rivals, k)[i].0 != Spawns(g, rivals, k)[j].0
  {
    if k > 0 {
      SpawnCornersDistinct(g, rivals, k - 1);
    }
  }

  // ---------------------------------------------------------------------
  // The game

  /** The fields of the game that its methods update. */
  datatype GameFields = GameFields(state: GameState, score: int, level: int, selectedIndex: int, selectedCharacter: Character,
                                   player: Players.Player?, enemies: seq<Enemies.Enemy>, bombs: seq<Blast.Bomb>,
                                   explosions: seq<Blast.Explosion>)

  /**
   * The random draws a new level consumes: the brick and power-up draws of
   * the map, the spawn-cell choice of the menu's demonstration, and the
   * facing and bomb cooldown of the enemy created in each slot.
   */
  datatype Draws = Draws(brick: (int, int) -> bool, spot: (int, int) -> (int, int), choice: int -> Pickups.KindIndex,
                         pick: int -> int, facings: seq<Direction>, cooldowns: seq<int>)

  /** The draws lie in the ranges of the `random` calls that make them. */
  ghost predicate DrawsOk(d: Draws)
  {
    Enemies.PicksInRange(d.pick) && |d.facings| >= 3 && |d.cooldowns| >= 3 &&
    forall i :: 0 <= i < 3 ==> 120000 <= d.cooldowns[i] <= 180000
  }

  /** The enemies ens stand, alive and exploring, on the spawn cells sp with the characters sp gives. */
  predicate Spawned(ens: seq<Enemies.Enemy>, sp: seq<(Cell, Character)>)
    reads ens
  {
    |ens| == |sp| &&
    forall i :: 0 <= i < |ens| ==>
      ens[i].x == sp[i].0.0 * Tile && ens[i].y == sp[i].0.1 * Tile && ens[i].character == sp[i].1 &&
      ens[i].alive && ens[i].mode == Enemies.Explore
  }

  /** One more enemy, created on cell c as character ch, extends what was spawned by that pair. */
  lemma SpawnedSnoc(ens: seq<Enemies.Enemy>, sp: seq<(Cell, Character)>, e: Enemies.Enemy, c: Cell, ch: Character)
    requires Spawned(ens, sp)
    requires e.x == c.0 * Tile && e.y == c.1 * Tile && e.character == ch && e.alive && e.mode == Enemies.Explore
    ensures Spawned(ens + [e], sp + [(c, ch)])
  {
  }

  /** Enemies spawned on different cells are different objects. */
  lemma SpawnedDistinct(ens: seq<Enemies.Enemy>, g: Grid, rivals: seq<Character>)
    requires WellFormed(g) && |rivals| >= 3 && Spawned(ens, Spawns(g, rivals, 3))
    ensures forall a, b :: 0 <= a < b < |ens| ==> ens[a] != ens[b]
  {
    SpawnCornersDistinct(g, rivals, 3);
    forall a, b | 0 <= a < b < |ens|
      ensures ens[a] != ens[b]
    {
      SpawnedApart(ens, Spawns(g, rivals, 3), a, b);
    }
  }

  /** Two enemies spawned on different cells are different objects. */
  lemma SpawnedApart(ens: seq<Enemies.Enemy>, sp: seq<(Cell, Character)>, a: int, b: int)
    requires Spawned(ens, sp) && 0 <= a < |ens| && 0 <= b < |ens| && sp[a].0 != sp[b].0
    ensures ens[a] != ens[b]
  {
    var ca, cb := sp[a].0, sp[b].0;
    if ca.0 != cb.0 {
      assert ens[a].x == ca.0 * 100 && ens[b].x == cb.0 * 100;
    } else {
      assert ens[a].y == ca.1 * 100 && ens[b].y == cb.1 * 100;
    }
  }

  /**
   * The loop of `create_enemies`: slot i (i < 3) creates rival i on enemy
   * corner i, facing and cooling down as drawn for that slot, when the corner
   * is walkable; a corner that is not leaves its slot empty.
   */
  method SpawnEnemies(g: Grid, rivals: seq<Character>, now: int, facings: seq<Direction>, cooldowns: seq<int>)
    returns (ens: seq<Enemies.Enemy>)
    requires WellFormed(g) && |rivals| >= 3 && |facings| >= 3 && |cooldowns| >= 3
    requires forall i :: 0 <= i < 3 ==> 120000 <= cooldowns[i] <= 180000
    ensures Spawned(ens, Spawns(g, rivals, 3))
    ensures forall k :: 0 <= k < |ens| ==> fresh(ens[k])
    ensures forall a, b :: 0 <= a < b < |ens| ==> ens[a] != ens[b]
  {
    ens := [];
    for i := 0 to 3
      invariant Spawned(ens, Spawns(g, rivals, i))
      invariant forall k :: 0 <= k < |ens| ==> fresh(ens[k])
    {
      ens := SpawnSlot(g, rivals, i, now, facings[i], cooldowns[i], ens);
    }
    SpawnedDistinct(ens, g, rivals);
  }

  /** Slot i of `create_enemies`: rival i on enemy corner i when that corner is walkable, nothing otherwise. */
  method SpawnSlot(g: Grid, rivals: seq<Character>, i: int, now: int, facing: Direction, cooldown: int, ens: seq<Enemies.Enemy>)
    returns (ens': seq<Enemies.Enemy>)
    requires WellFormed(g) && 0 <= i < 3 && |rivals| >= 3 && 120000 <= cooldown <= 180000
    requires Spawned(ens, Spawns(g, rivals, i))
    ensures Spawned(ens', Spawns(g, rivals, i + 1))
    ensures |ens'| >= |ens| && forall k :: 0 <= k < |ens'| ==> if k < |ens| then ens'[k] == ens[k] else fresh(ens'[k])
  {
    var (x, y) := EnemyCorners[i];
    ens' := ens;
    if 0 <= x < Cols && 0 <= y < Rows && IsWalkable(g, x, y) {
      var e := new Enemies.Enemy(x, y, rivals[i], facing, cooldown, now);
      SpawnedSnoc(ens, Spawns(g, rivals, i), e, (x, y), rivals[i]);
      ens' := ens + [e];
    }
  }

  /**
   * The menu's demonstration enemies: at most three, the i-th playing rival i,
   * alive, each on its own valid spawn cell (a whole cell, outside the
   * top-left corner), and fewer than three only when every valid spawn cell
   * is taken.
   */
  ghost predicate DemoEnemies(g: Grid, ens: seq<Enemies.Enemy>, rivals: seq<Character>)
    requires WellFormed(g)
    reads ens
  {
    |ens| <= 3 && |ens| <= |rivals| &&
    (forall i :: 0 <= i < |ens| ==>
      ens[i].character == rivals[i] && ens[i].alive &&
      ens[i].x % Tile == 0 && ens[i].y % Tile == 0 && Maps.SpawnCandidate(g, (ens[i].x / Tile, ens[i].y / Tile), 3)) &&
    (forall a, b :: 0 <= a < b < |ens| ==> (ens[a].x, ens[a].y) != (ens[b].x, ens[b].y)) &&
    (|ens| < 3 ==> forall c :: Maps.SpawnCandidate(g, c, 3) ==> OccupiedBy(ens, c))
  }

  /** A cell times the tile size is a multiple of it, and divides back to the cell. */
  lemma Scaled(c: int)
    ensures (c * Tile) % Tile == 0 && (c * Tile) / Tile == c
  {
  }

  /**
   * The loop of `start_character_select`: for each of the first three rivals,
   * while valid spawn cells remain, one of them is drawn, removed from the
   * list and given to that rival.
   */
  method PlaceDemoEnemies(g: Grid, positions: seq<Cell>, rivals: seq<Character>, now: int, d: Draws)
    returns (ens: seq<Enemies.Enemy>)
    requires WellFormed(g) && |rivals| >= 3 && DrawsOk(d) && DistinctCells(positions)
    requires forall c :: c in positions <==> Maps.SpawnCandidate(g, c, 3)
    ensures DemoEnemies(g, ens, rivals)
    ensures forall i :: 0 <= i < |ens| ==> fresh(ens[i])
    ensures forall a, b :: 0 <= a < b < |ens| ==> ens[a] != ens[b]
  {
    var left := positions;
    ghost var cells: seq<Cell> := [];
    ens := [];
    for i := 0 to 3
      invariant |ens| == |cells| <= i && (|ens| == i || left == [])
      invariant forall k :: 0 <= k < |ens| ==>
        fresh(ens[k]) && ens[k].character == rivals[k] && ens[k].alive &&
        ens[k].x == cells[k].0 * Tile && ens[k].y == cells[k].1 * Tile && Maps.SpawnCandidate(g, cells[k], 3)
      invariant DistinctCells(cells) && DistinctCells(left)
      invariant forall c :: c in left <==> Maps.SpawnCandidate(g, c, 3) && c !in cells
    {
      if |left| > 0 {
        var j := d.pick(|left|);
        var pos := left[j];
        RemoveAt(left, j);
        left := left[..j] + left[j + 1..];
        var e := new Enemies.Enemy(pos.0, pos.1, rivals[i], d.facings[i], d.cooldowns[i], now);
        ens := ens + [e];
        cells := cells + [pos];
      }
    }
    forall i | 0 <= i < |ens|
      ensures ens[i].x % Tile == 0 && ens[i].y % Tile == 0 && (ens[i].x / Tile, ens[i].y / Tile) == cells[i]
    {
      Scaled(cells[i].0);
      Scaled(cells[i].1);
    }
    if |ens| < 3 {
      forall c | Maps.SpawnCandidate(g, c, 3)
        ensures OccupiedBy(ens, c)
      {
        var k :| 0 <= k < |cells| && cells[k] == c;
        assert ens[k].x == c.0 * Tile && ens[k].y == c.1 * Tile;
      }
    }
  }

  /** An enemy alive, overlapping the player's box, with a clear line of sight between them. */
  predicate Touching(g: Grid, p: Players.Player, e: Enemies.Enemy)
    reads p, e
    requires WellFormed(g)
  {
    e.alive && Colliding(p.GetRect(), e.GetRect()) && HasClearLineOfSight(g, p.x, p.y, e.x, e.y)
  }

  /** How many of the explosions es catch an entity at (x, y), checking each in turn. */
  method CountCatches(g: Grid, es: seq<Blast.Explosion>, x: int, y: int) returns (n: nat)
    requires WellFormed(g) && forall i :: 0 <= i < |es| ==> |es[i].tiles| > 0
    ensures n == CatchCount(g, es, x, y, |es|)
  {
    n := 0;
    for k := 0 to |es|
      invariant n == CatchCount(g, es, x, y, k)
    {
      var o := es[k].tiles[0];
      if CanExplosionReachPlayer(g, o.0 * Tile, o.1 * Tile, x, y) {
        var on := OnTiles(es[k].tiles, (CellOf(x), CellOf(y)));
        if on {
          n := n + 1;
        }
      }
    }
  }

  /** An enemy, if alive, dies when an explosion catches it, and earns 100 points per catching explosion. */
  method JudgeEnemy(e: Enemies.Enemy, g: Grid, es: seq<Blast.Explosion>) returns (points: nat)
    requires WellFormed(g) && forall i :: 0 <= i < |es| ==> |es[i].tiles| > 0
    modifies e`alive
    ensures e.alive == (old(e.alive) && !CaughtBy(g, es, e.x, e.y))
    ensures points == Reward(g, es, old(e.State()))
  {
    points := 0;
    if e.alive {
      var n := CountCatches(g, es, e.x, e.y);
      if n > 0 {
        e.alive := false;
        points := 100 * n;
      }
    }
  }

  /** The enemy loop of the collision checks: each enemy of ens in turn is judged; the points are summed. */
  method StrikeEnemies(ens: seq<Enemies.Enemy>, g: Grid, es: seq<Blast.Explosion>) returns (bounty: nat)
    requires WellFormed(g) && forall i :: 0 <= i < |es| ==> |es[i].tiles| > 0
    requires forall a, b :: 0 <= a < b < |ens| ==> ens[a] != ens[b]
    modifies ens`alive
    ensures forall i :: 0 <= i < |ens| ==> ens[i].alive == (old(ens[i].alive) && !CaughtBy(g, es, ens[i].x, ens[i].y))
    ensures bounty == Bounty(g, es, old(States(ens)))
  {
    ghost var before := States(ens);
    StatesAt(ens);
    ghost var caught := seq(|ens|, j requires 0 <= j < |ens| => CaughtBy(g, es, before[j].x, before[j].y));
    bounty := 0;
    for i := 0 to |ens|
      invariant bounty == Bounty(g, es, before[..i])
      invariant forall j :: 0 <= j < i ==> ens[j].alive == (before[j].alive && !caught[j])
      invariant forall j :: i <= j < |ens| ==> ens[j].State() == before[j]
    {
      BountyStep(g, es, before, i);
      var points := JudgeEnemy(ens[i], g, es);
      bounty := bounty + points;
    }
    assert before[..|ens|] == before;
  }

  /**
   * The explosion loop of a frame: each explosion of es in turn is animated
   * and, once over, clears its cells on the map and is dropped.
   */
  method EndExplosions(es: seq<Blast.Explosion>, dt: int, now: int, gameMap: Maps.GameMap) returns (kept: seq<Blast.Explosion>)
    requires gameMap.Valid()
    modifies gameMap
    ensures gameMap.Valid() && gameMap.powerups == old(gameMap.powerups)
    ensures kept == Live(es, dt, now)
    ensures gameMap.grid == Blast.Reverted(old(gameMap.grid), EndedTiles(es, now))
  {
    kept := [];
    RevertedNothing(gameMap.grid);
    for i := 0 to |es|
      invariant gameMap.Valid() && gameMap.powerups == old(gameMap.powerups)
      invariant kept == Live(es[..i], dt, now)
      invariant gameMap.grid == Blast.Reverted(old(gameMap.grid), EndedTiles(es[..i], now))
    {
      ExplosionStep(es, i, dt, now);
      ghost var cleared := EndedTiles(es[..i], now);
      var e, ended := Blast.UpdateExplosion(es[i], dt, now, gameMap);
      if ended {
        RevertedCompose(old(gameMap.grid), cleared, es[i].tiles);
      } else {
        kept := kept + [e];
      }
    }
    assert es[..|es|] == es;
  }

  /** The tiles of the explosions es, one explosion after the other. */
  function AllTiles(es: seq<Blast.Explosion>): (r: seq<Cell>)
  {
    if es == [] then [] else AllTiles(es[..|es| - 1]) + es[|es| - 1].tiles
  }

  /** Marking a, then b, marks a + b: explosion marks are only ever added. */
  lemma MarkedCompose(g0: Grid, g1: Grid, g2: Grid, a: seq<Cell>, b: seq<Cell>)
    requires Blast.MarkedAt(g1, g0, a) && Blast.MarkedAt(g2, g1, b)
    ensures Blast.MarkedAt(g2, g0, a + b)
  {
    forall y, x | InBounds(x, y)
      ensures g2[y][x] == if (x, y) in a + b then TileType.Explosion else g0[y][x]
    {
      assert (x, y) in a + b <==> (x, y) in a || (x, y) in b;
    }
  }

  /** One burnt-out bomb b explodes: its explosion joins fired, and its marks join theirs. */
  method Fire(b: Blast.Bomb, now: int, gameMap: Maps.GameMap, drop: (int, int) -> bool, kind: (int, int) -> Pickups.KindIndex,
              ghost g0: Grid, ghost p0: seq<Pickups.PowerUp>, fired: seq<Blast.Explosion>)
    returns (fired': seq<Blast.Explosion>)
    requires gameMap.Valid()
    requires Blast.MarkedAt(gameMap.grid, g0, AllTiles(fired)) && p0 <= gameMap.powerups
    modifies gameMap
    ensures gameMap.Valid()
    ensures |fired'| == |fired| + 1 && fired'[..|fired|] == fired
    ensures |fired'[|fired|].tiles| > 0 && fired'[|fired|].tiles[0] == b.Origin() && fired'[|fired|].timer == now
    ensures Blast.MarkedAt(gameMap.grid, g0, AllTiles(fired')) && p0 <= gameMap.powerups
  {
    ghost var g := gameMap.grid;
    var e := Blast.Explode(b, gameMap, now, drop, kind);
    Blast.BlastTilesShape(g, b);
    MarkedCompose(g0, g, gameMap.grid, AllTiles(fired), e.tiles);
    fired' := fired + [e];
    assert fired'[..|fired|] == fired;
  }

  /**
   * The bomb loop of a frame: each bomb of bs in turn is updated; a burnt-out
   * one explodes on the map and yields its explosion, the others are kept.
   * The map changes only by the marks of the explosions and the power-ups
   * they drop.
   */
  method Detonate(bs: seq<Blast.Bomb>, dt: int, now: int, gameMap: Maps.GameMap, drop: (int, int) -> bool,
                  kind: (int, int) -> Pickups.KindIndex)
    returns (kept: seq<Blast.Bomb>, fired: seq<Blast.Explosion>)
    requires gameMap.Valid()
    modifies gameMap
    ensures gameMap.Valid()
    ensures kept == Ticked(bs, dt, now) && |fired| == |Fused(bs, dt, now)|
    ensures forall k :: 0 <= k < |fired| ==>
      |fired[k].tiles| > 0 && fired[k].tiles[0] == Fused(bs, dt, now)[k].Origin() && fired[k].timer == now
    ensures Blast.MarkedAt(gameMap.grid, old(gameMap.grid), AllTiles(fired))
    ensures old(gameMap.powerups) <= gameMap.powerups
  {
    kept, fired := [], [];
    for i := 0 to |bs|
      invariant gameMap.Valid()
      invariant kept == Ticked(bs[..i], dt, now) && |fired| == |Fused(bs[..i], dt, now)|
      invariant forall k :: 0 <= k < |fired| ==>
        |fired[k].tiles| > 0 && fired[k].tiles[0] == Fused(bs[..i], dt, now)[k].Origin() && fired[k].timer == now
      invariant Blast.MarkedAt(gameMap.grid, old(gameMap.grid), AllTiles(fired))
      invariant old(gameMap.powerups) <= gameMap.powerups
    {
      FuseStep(bs, i, dt, now);
      var u := bs[i].Update(dt, now);
      if u.1 {
        fired := Fire(u.0, now, gameMap, drop, kind, old(gameMap.grid), old(gameMap.powerups), fired);
      } else {
        kept := kept + [u.0];
      }
    }
    assert bs[..|bs|] == bs;
  }

  /**
   * exps' is exps followed by one explosion per exploded bomb of bs, in
   * order, each starting on its bomb's cell and stamped with time now.
   */
  ghost predicate FiredAfter(exps: seq<Blast.Explosion>, exps': seq<Blast.Explosion>, bs: seq<Blast.Bomb>, dt: int, now: int)
  {
    |exps'| == |exps| + |Fused(bs, dt, now)| && exps'[..|exps|] == exps &&
    forall k :: 0 <= k < |Fused(bs, dt, now)| ==>
      |exps'[|exps| + k].tiles| > 0 && exps'[|exps| + k].tiles[0] == Fused(bs, dt, now)[k].Origin() &&
      exps'[|exps| + k].timer == now
  }

  /** Detonate, with the explosions appended to those already burning. */
  method FireBombs(bs: seq<Blast.Bomb>, exps: seq<Blast.Explosion>, dt: int, now: int, gameMap: Maps.GameMap,
                   drop: (int, int) -> bool, kind: (int, int) -> Pickups.KindIndex)
    returns (kept: seq<Blast.Bomb>, exps': seq<Blast.Explosion>)
    requires gameMap.Valid()
    requires forall k :: 0 <= k < |exps| ==> |exps[k].tiles| > 0
    modifies gameMap
    ensures gameMap.Valid()
    ensures kept == Ticked(bs, dt, now)
    ensures FiredAfter(exps, exps', bs, dt, now)
    ensures forall k :: 0 <= k < |exps'| ==> |exps'[k].tiles| > 0
    ensures Blast.MarkedAt(gameMap.grid, old(gameMap.grid), AllTiles(exps'[|exps|..]))
    ensures old(gameMap.powerups) <= gameMap.powerups
  {
    var fired;
    kept, fired := Detonate(bs, dt, now, gameMap, drop, kind);
    exps' := exps + fired;
    assert exps'[|exps|..] == fired;
  }

  /**
   * The player's pose after a hit: a life fewer, and back on the free cell
   * (1, 2) while lives remain; otherwise where they fell.
   */
  function Struck(pose: (int, int, int, Direction, bool)): (int, int, int, Direction, bool)
  {
    var lives := pose.2 - 1;
    if lives > 0 then (1 * Tile, 2 * Tile, lives, pose.3, pose.4) else (pose.0, pose.1, lives, pose.3, pose.4)
  }

  class BombermanGame {
    var state: GameState
    var score: int
    var level: int
    /** The menu cursor and the character under it. */
    var selectedIndex: int
    var selectedCharacter: Character
    var player: Players.Player?
    var enemies: seq<Enemies.Enemy>
    var bombs: seq<Blast.Bomb>
    var explosions: seq<Blast.Explosion>
    const gameMap: Maps.GameMap

    /**
     * The map is well formed, the selected character is the one under the
     * cursor, levels count from 1, every explosion has its bomb's cell as
     * first tile, and no enemy is listed twice.
     */
    predicate Valid()
      reads this`selectedIndex, this`selectedCharacter, this`level, this`explosions, this`enemies
      reads gameMap`grid, gameMap.spriteManager
    {
      gameMap.Valid() && 0 <= selectedIndex < |AllCharacters| && selectedCharacter == AllCharacters[selectedIndex] &&
      level >= 1 &&
      (forall k :: 0 <= k < |explosions| ==> |explosions[k].tiles| > 0) &&
      (forall i, j :: 0 <= i < j < |enemies| ==> enemies[i] != enemies[j])
    }

    /** What the collision checks need: a well-formed grid, and explosions that have a first tile. */
    predicate Checkable()
      reads this`explosions, gameMap`grid
    {
      WellFormed(gameMap.grid) && forall k :: 0 <= k < |explosions| ==> |explosions[k].tiles| > 0
    }

    function Fields(): GameFields
      reads this
    {
      GameFields(state, score, level, selectedIndex, selectedCharacter, player, enemies, bombs, explosions)
    }

    /** A new game on the title screen, at level 1 with no score, Finn selected. */
    constructor (gameMap: Maps.GameMap)
      requires gameMap.Valid()
      ensures Valid() && this.gameMap == gameMap
      ensures Fields() == GameFields(Start, 0, 1, 0, Finn, null, [], [], [])
    {
      state := Start;
      score := 0;
      level := 1;
      selectedIndex := 0;
      selectedCharacter := Finn;
      player := null;
      enemies := [];
      bombs := [];
      explosions := [];
      this.gameMap := gameMap;
    }

    /** Pause swaps play and pause and leaves every other screen alone. */
    method TogglePause()
      modifies this`state
      ensures state == if old(state) == Playing then Paused else if old(state) == Paused then Playing else old(state)
      ensures Fields() == old(Fields()).(state := state)
    {
      if state == Playing {
        state := Paused;
      } else if state == Paused {
        state := Playing;
      }
    }

    /** `game_over`: the defeat screen. */
    method GameOver()
      modifies this`state
      ensures Fields() == old(Fields()).(state := GameState.GameOver)
    {
      state := GameState.GameOver;
    }

    /** `victory`: the victory screen, and a bonus of 500 points per level. */
    method Victory()
      modifies this`state, this`score
      ensures Fields() == old(Fields()).(state := GameState.Victory, score := old(score) + 500 * level)
    {
      state := GameState.Victory;
      score := score + 500 * level;
    }

    /**
     * The player loses a life; with lives left they go back to the cell
     * (1, 2), otherwise the game is over. Without a player nothing happens.
     */
    method PlayerHit()
      modifies this`state, player
      ensures player == old(player)
      ensures old(player) == null ==> Fields() == old(Fields())
      ensures old(player) != null ==>
        player.Pose() == Struck(old(player.Pose())) && player.GetStats() == old(player.GetStats()) &&
        Fields() == old(Fields()).(state := if player.lives > 0 then old(state) else GameState.GameOver)
    {
      if player == null {
        return;
      }
      player.lives := player.lives - 1;
      if player.lives > 0 {
        player.x := 1 * Tile;
        player.y := 2 * Tile;
      } else {
        GameOver();
      }
    }

    /**
     * SPACE in play: a bomb on the player's cell, with the player's range,
     * unless the player already has as many bombs out as they may or a bomb
     * lies on that cell.
     */
    method PlaceBomb(now: int)
      modifies this`bombs
      ensures player == old(player)
      ensures old(player) != null ==> bombs == WithPlayerBomb(old(bombs), player.GetGridPos(), player.bombRange,
                                                             player.character, player.maxBombs, now)
      ensures Fields() == old(Fields()).(bombs := bombs)
    {
      if player == null {
        return;
      }
      var owned := 0;
      for i := 0 to |bombs|
        invariant owned == Enemies.OwnedCount(bombs[..i], player.character)
      {
        assert bombs[..i + 1][..i] == bombs[..i];
        if bombs[i].owner == player.character {
          owned := owned + 1;
        }
      }
      assert bombs[..|bombs|] == bombs;
      if owned >= player.maxBombs {
        return;
      }
      var (gx, gy) := player.GetGridPos();
      for i := 0 to |bombs|
        invariant forall k :: 0 <= k < i ==> bombs[k].Origin() != (gx, gy)
      {
        if bombs[i].gridX == gx && bombs[i].gridY == gy {
          return;
        }
      }
      bombs := bombs + [Blast.NewBomb(gx, gy, player.bombRange, player.character, now)];
    }

    /**
     * One frame of the bombs, in list order: a bomb whose fuse has burnt
     * explodes on the map and leaves the list, its explosion appended to the
     * explosions; the others stay, updated.
     */
    method UpdateBombs(dt: int, now: int, drop: (int, int) -> bool, kind: (int, int) -> Pickups.KindIndex)
      requires Valid()
      modifies this`bombs, this`explosions, gameMap
      ensures Valid()
      ensures bombs == Ticked(old(bombs), dt, now)
      ensures FiredAfter(old(explosions), explosions, old(bombs), dt, now)
      ensures Blast.MarkedAt(gameMap.grid, old(gameMap.grid), AllTiles(explosions[|old(explosions)|..]))
      ensures old(gameMap.powerups) <= gameMap.powerups
      ensures Fields() == old(Fields()).(bombs := bombs, explosions := explosions)
    {
      bombs, explosions := FireBombs(bombs, explosions, dt, now, gameMap, drop, kind);
    }

    /**
     * One frame of the explosions, in list order: an explosion whose time is
     * up clears its cells on the map and leaves the list; the others stay,
     * animated.
     */
    method UpdateExplosions(dt: int, now: int)
      requires Valid()
      modifies this`explosions, gameMap
      ensures Valid()
      ensures explosions == Live(old(explosions), dt, now)
      ensures gameMap.grid == Blast.Reverted(old(gameMap.grid), EndedTiles(old(explosions), now))
      ensures gameMap.powerups == old(gameMap.powerups)
      ensures Fields() == old(Fields()).(explosions := explosions)
    {
      explosions := EndExplosions(explosions, dt, now, gameMap);
    }

    /** Whether some explosion catches an entity at (x, y): it reaches there and covers that floor cell. */
    method IsCaught(x: int, y: int) returns (caught: bool)
      requires Checkable()
      ensures caught == CaughtBy(gameMap.grid, explosions, x, y)
    {
      for k := 0 to |explosions|
        invariant CatchCount(gameMap.grid, explosions, x, y, k) == 0
      {
        var o := explosions[k].tiles[0];
        if CanExplosionReachPlayer(gameMap.grid, o.0 * Tile, o.1 * Tile, x, y) {
          var on := OnTiles(explosions[k].tiles, (CellOf(x), CellOf(y)));
          if on {
            CatchCountMono(gameMap.grid, explosions, x, y, k + 1, |explosions|);
            return true;
          }
        }
      }
      return false;
    }

    /** Whether a live enemy touches the player with nothing solid between them. */
    method EnemyContact() returns (touch: bool)
      requires Valid() && player != null
      ensures touch <==> exists i :: 0 <= i < |enemies| && Touching(gameMap.grid, player, enemies[i])
    {
      var box := player.GetRect();
      for i := 0 to |enemies|
        invariant forall j :: 0 <= j < i ==> !Touching(gameMap.grid, player, enemies[j])
      {
        var e := enemies[i];
        if e.alive && Colliding(box, e.GetRect()) {
          if HasClearLineOfSight(gameMap.grid, player.x, player.y, e.x, e.y) {
            return true;
          }
        }
      }
      return false;
    }

    /**
     * Every enemy alive when its turn comes and caught by an explosion dies,
     * and the score grows by 100 for each explosion that caught it.
     */
    method KillCaughtEnemies()
      requires Checkable() && forall a, b :: 0 <= a < b < |enemies| ==> enemies[a] != enemies[b]
      modifies this`score, enemies`alive
      ensures forall i :: 0 <= i < |enemies| ==>
        enemies[i].alive == (old(enemies[i].alive) && !CaughtBy(gameMap.grid, explosions, enemies[i].x, enemies[i].y))
      ensures score == old(score) + Bounty(gameMap.grid, explosions, old(States(enemies)))
    {
      var bounty := StrikeEnemies(enemies, gameMap.grid, explosions);
      score := score + bounty;
    }

    /** The player is in danger: an explosion catches them, or a live enemy touches them in plain sight. */
    predicate InDanger()
      requires Checkable() && player != null
      reads this, gameMap, player, enemies
    {
      CaughtBy(gameMap.grid, explosions, player.x, player.y) ||
      exists i :: 0 <= i < |enemies| && Touching(gameMap.grid, player, enemies[i])
    }

    /** Whether the player is in danger, checking the explosions first and then the enemies. */
    method PlayerInDanger() returns (danger: bool)
      requires Valid() && player != null
      ensures danger == InDanger()
    {
      danger := IsCaught(player.x, player.y);
      if !danger {
        danger := EnemyContact();
      }
    }

    /**
     * The player is hit first by an explosion that catches them, then by a
     * live enemy they touch in plain sight; only when neither happens do the
     * explosions catch enemies.
     */
    method CheckCollisions()
      requires Valid()
      modifies this`state, this`score, player, enemies`alive
      ensures Valid() && player == old(player) && enemies == old(enemies)
      ensures old(player) == null ==> Fields() == old(Fields()) && forall i :: 0 <= i < |enemies| ==> enemies[i].alive == old(enemies[i].alive)
      ensures old(player) != null && old(InDanger()) ==>
        (forall i :: 0 <= i < |enemies| ==> enemies[i].alive == old(enemies[i].alive)) &&
        player.Pose() == Struck(old(player.Pose())) && player.GetStats() == old(player.GetStats()) &&
        Fields() == old(Fields()).(state := if player.lives > 0 then old(state) else GameState.GameOver)
      ensures old(player) != null && !old(InDanger()) ==>
        player.Pose() == old(player.Pose()) && player.GetStats() == old(player.GetStats()) &&
        (forall i :: 0 <= i < |enemies| ==>
          enemies[i].alive == (old(enemies[i].alive) && !CaughtBy(gameMap.grid, explosions, enemies[i].x, enemies[i].y))) &&
        Fields() == old(Fields()).(score := old(score) + Bounty(gameMap.grid, explosions, old(States(enemies))))
    {
      if player == null {
        return;
      }
      var danger := InDanger();
      if danger {
        PlayerHit();
        return;
      }
      KillCaughtEnemies();
    }

    /**
     * `create_enemies`: slot i (i < 3) creates the i-th rival on enemy
     * corner i, facing and cooling down as drawn for that slot, when the
     * corner is walkable; a corner that is not leaves its slot empty.
     */
    method CreateEnemies(now: int, facings: seq<Direction>, cooldowns: seq<int>)
      requires Valid() && |facings| >= 3 && |cooldowns| >= 3
      requires forall i :: 0 <= i < 3 ==> 120000 <= cooldowns[i] <= 180000
      modifies this`enemies
      ensures Valid()
      ensures Spawned(enemies, Spawns(gameMap.grid, Rivals(selectedCharacter), 3))
      ensures forall i :: 0 <= i < |enemies| ==> fresh(enemies[i])
      ensures Fields() == old(Fields()).(enemies := enemies)
    {
      enemies := SpawnEnemies(gameMap.grid, Rivals(selectedCharacter), now, facings, cooldowns);
    }

    /**
     * `start_game`: play begins on a new map of the current level, the score
     * reset on level 1, the player on cell (1, 2) with the selected
     * character, the enemies on their corners, and no bombs or explosions.
     */
    method StartGame(now: int, d: Draws)
      requires Valid() && DrawsOk(d)
      modifies this`state, this`score, this`player, this`enemies, this`bombs, this`explosions, gameMap
      ensures Valid() && gameMap.LevelBuilt(level, d.brick, d.spot, d.choice)
      ensures fresh(player) && player.character == selectedCharacter
      ensures player.Pose() == (1 * Tile, 2 * Tile, 3, Down, false) && player.GetStats() == Players.Stats(1, 2, Players.StartSpeed)
      ensures Spawned(enemies, Spawns(gameMap.grid, Rivals(selectedCharacter), 3))
      ensures forall i :: 0 <= i < |enemies| ==> fresh(enemies[i])
      ensures Fields() == old(Fields()).(state := Playing, score := if old(level) == 1 then 0 else old(score),
                                         player := player, enemies := enemies, bombs := [], explosions := [])
    {
      NewRound(d);
      CreateCast(now, d.facings, d.cooldowns);
    }

    /**
     * The first half of `start_game`: play state, the score reset on level 1,
     * a new map of the current level, and no bombs or explosions (generation
     * reads none of these fields, so clearing them first changes nothing).
     */
    method NewRound(d: Draws)
      requires Valid()
      modifies this`state, this`score, this`bombs, this`explosions, gameMap
      ensures Valid() && gameMap.LevelBuilt(level, d.brick, d.spot, d.choice)
      ensures Fields() == old(Fields()).(state := Playing, score := if old(level) == 1 then 0 else old(score),
                                         bombs := [], explosions := [])
    {
      state, score, bombs, explosions := Playing, if level == 1 then 0 else score, [], [];
      gameMap.GenerateLevel(level, d.brick, d.spot, d.choice);
    }

    /** The second half of `start_game`: the player on cell (1, 2) with the selected character, and the enemies. */
    method CreateCast(now: int, facings: seq<Direction>, cooldowns: seq<int>)
      requires Valid() && |facings| >= 3 && |cooldowns| >= 3
      requires forall i :: 0 <= i < 3 ==> 120000 <= cooldowns[i] <= 180000
      modifies this`player, this`enemies
      ensures Valid()
      ensures fresh(player) && player.character == selectedCharacter
      ensures player.Pose() == (1 * Tile, 2 * Tile, 3, Down, false) && player.GetStats() == Players.Stats(1, 2, Players.StartSpeed)
      ensures Spawned(enemies, Spawns(gameMap.grid, Rivals(selectedCharacter), 3))
      ensures forall i :: 0 <= i < |enemies| ==> fresh(enemies[i])
      ensures Fields() == old(Fields()).(player := player, enemies := enemies)
    {
      player := new Players.Player(1, 2, selectedCharacter);
      CreateEnemies(now, facings, cooldowns);
    }

    /** `restart_game`: back to level 1 with no score, and a new game. */
    method RestartGame(now: int, d: Draws)
      requires Valid() && DrawsOk(d)
      modifies this`state, this`score, this`level, this`player, this`enemies, this`bombs, this`explosions, gameMap
      ensures Valid() && gameMap.LevelBuilt(1, d.brick, d.spot, d.choice)
      ensures fresh(player) && player.character == selectedCharacter && player.Pose() == (1 * Tile, 2 * Tile, 3, Down, false)
      ensures Spawned(enemies, Spawns(gameMap.grid, Rivals(selectedCharacter), 3))
      ensures Fields() == old(Fields()).(state := Playing, score := 0, level := 1,
                                         player := player, enemies := enemies, bombs := [], explosions := [])
    {
      level := 1;
      score := 0;
      StartGame(now, d);
    }

    /** `next_level`: one level up, a bonus of 500 points times the new level, and a new game on it. */
    method NextLevel(now: int, d: Draws)
      requires Valid() && DrawsOk(d)
      modifies this`state, this`score, this`level, this`player, this`enemies, this`bombs, this`explosions, gameMap
      ensures Valid() && level == old(level) + 1 && gameMap.LevelBuilt(level, d.brick, d.spot, d.choice)
      ensures fresh(player) && player.character == selectedCharacter && player.Pose() == (1 * Tile, 2 * Tile, 3, Down, false)
      ensures Spawned(enemies, Spawns(gameMap.grid, Rivals(selectedCharacter), 3))
      ensures Fields() == old(Fields()).(state := Playing, score := old(score) + 500 * (old(level) + 1), level := old(level) + 1,
                                         player := player, enemies := enemies, bombs := [], explosions := [])
    {
      level := level + 1;
      score := score + 500 * level;
      StartGame(now, d);
    }

    /**
     * `start_character_select`: the menu, over a level-1 demonstration map,
     * with the player on cell (1, 2) and the first three rivals, in order,
     * each on a cell drawn from the remaining valid spawn positions while
     * any remain.
     */
    method StartCharacterSelect(now: int, d: Draws)
      requires Valid() && DrawsOk(d)
      modifies this`state, this`player, this`enemies, gameMap
      ensures Valid() && gameMap.LevelBuilt(1, d.brick, d.spot, d.choice)
      ensures fresh(player) && player.character == selectedCharacter && player.Pose() == (1 * Tile, 2 * Tile, 3, Down, false)
      ensures DemoEnemies(gameMap.grid, enemies, Rivals(selectedCharacter))
      ensures forall i :: 0 <= i < |enemies| ==> fresh(enemies[i])
      ensures Fields() == old(Fields()).(state := CharacterSelect, player := player, enemies := enemies)
    {
      state := CharacterSelect;
      gameMap.GenerateLevel(1, d.brick, d.spot, d.choice);
      CreateDemoCast(now, d);
    }

    /** The player and the demonstration enemies of the menu, on the current map. */
    method CreateDemoCast(now: int, d: Draws)
      requires Valid() && DrawsOk(d)
      modifies this`player, this`enemies
      ensures Valid()
      ensures fresh(player) && player.character == selectedCharacter && player.Pose() == (1 * Tile, 2 * Tile, 3, Down, false)
      ensures DemoEnemies(gameMap.grid, enemies, Rivals(selectedCharacter))
      ensures forall i :: 0 <= i < |enemies| ==> fresh(enemies[i])
      ensures Fields() == old(Fields()).(player := player, enemies := enemies)
    {
      player := new Players.Player(1, 2, selectedCharacter);
      var positions := gameMap.GetValidSpawnPositions(3);
      assert DistinctCells(positions);
      enemies := PlaceDemoEnemies(gameMap.grid, positions, Rivals(selectedCharacter), now, d);
    }

    /**
     * What `handle_key_press` does with key k: the screen moves as
     * KeyTransition says; a key without effect changes nothing, and ESCAPE
     * only changes the screen; the menu's arrows move the cursor; SPACE in
     * play places a bomb and P only changes the screen; RETURN builds a new
     * map: of level 1 for the menu and after a defeat (which also resets
     * level and score), of the current level when the game starts, and of
     * the next level, with its bonus, after a victory.
     */
    twostate predicate KeyHandled(k: Key, now: int, d: Draws)
      reads this, gameMap, gameMap.spriteManager, player
    {
      Valid() && state == KeyTransition(old(state), k) &&
      (!Effective(old(state), k) ==> Fields() == old(Fields()) && unchanged(gameMap)) &&
      (k == Escape && old(state) != Start ==> Fields() == old(Fields()).(state := Start) && unchanged(gameMap)) &&
      (old(state) == CharacterSelect && IsArrow(k) ==>
        var i := Cycle(old(selectedIndex), ArrowDelta(k));
        Fields() == old(Fields()).(selectedIndex := i, selectedCharacter := AllCharacters[i]) && unchanged(gameMap)) &&
      (old(state) == Playing && k == Space ==> Fields() == old(Fields()).(bombs := bombs) && unchanged(gameMap)) &&
      (old(state) == Playing && k == Space && player != null ==>
        bombs == WithPlayerBomb(old(bombs), player.GetGridPos(), player.bombRange, player.character, player.maxBombs, now)) &&
      (old(state) in {Playing, Paused} && k == PKey ==> Fields() == old(Fields()).(state := state) && unchanged(gameMap)) &&
      (k == Return && old(state) == Start ==> gameMap.LevelBuilt(1, d.brick, d.spot, d.choice)) &&
      (k == Return && old(state) == CharacterSelect ==>
        level == old(level) && score == (if old(level) == 1 then 0 else old(score)) && gameMap.LevelBuilt(level, d.brick, d.spot, d.choice)) &&
      (k == Return && old(state) == GameState.GameOver ==> level == 1 && score == 0 && gameMap.LevelBuilt(1, d.brick, d.spot, d.choice)) &&
      (k == Return && old(state) == GameState.Victory ==>
        level == old(level) + 1 && score == old(score) + 500 * level && gameMap.LevelBuilt(level, d.brick, d.spot, d.choice))
    }

    /** `handle_key_press`, screen by screen. */
    method HandleKeyPress(k: Key, now: int, d: Draws)
      requires Valid() && DrawsOk(d)
      modifies this`state, this`score, this`level, this`selectedIndex, this`selectedCharacter
      modifies this`player, this`enemies, this`bombs, this`explosions, gameMap
      ensures KeyHandled(k, now, d)
    {
      match state
      case Start => TitleKey(k, now, d);
      case CharacterSelect => MenuKey(k, now, d);
      case Playing | Paused => PlayKey(k, now);
      case GameOver => DefeatKey(k, now, d);
      case Victory => VictoryKey(k, now, d);
    }

    /** The title's keys: RETURN opens the character menu over a level-1 map. */
    method TitleKey(k: Key, now: int, d: Draws)
      requires Valid() && DrawsOk(d) && state == Start
      modifies this`state, this`player, this`enemies, gameMap
      ensures KeyHandled(k, now, d)
    {
      if k == Return {
        StartCharacterSelect(now, d);
      }
    }

    /** The keys in play and in pause: SPACE places a bomb (in play), P pauses or resumes, ESCAPE goes back to the title. */
    method PlayKey(k: Key, now: int)
      requires Valid() && state in {Playing, Paused}
      modifies this`state, this`bombs
      ensures forall d :: KeyHandled(k, now, d)
    {
      if k == Space && state == Playing {
        PlaceBomb(now);
      } else if k == PKey {
        TogglePause();
      } else if k == Escape {
        state := Start;
      }
    }

    /** The defeat screen's keys: RETURN starts a new game from level 1, ESCAPE goes back to the title. */
    method DefeatKey(k: Key, now: int, d: Draws)
      requires Valid() && DrawsOk(d) && state == GameState.GameOver
      modifies this`state, this`score, this`level, this`player, this`enemies, this`bombs, this`explosions, gameMap
      ensures KeyHandled(k, now, d)
    {
      if k == Return {
        RestartGame(now, d);
      } else if k == Escape {
        state := Start;
      }
    }

    /** The victory screen's keys: RETURN goes to the next level, ESCAPE goes back to the title. */
    method VictoryKey(k: Key, now: int, d: Draws)
      requires Valid() && DrawsOk(d) && state == GameState.Victory
      modifies this`state, this`score, this`level, this`player, this`enemies, this`bombs, this`explosions, gameMap
      ensures KeyHandled(k, now, d)
    {
      if k == Return {
        NextLevel(now, d);
      } else if k == Escape {
        state := Start;
      }
    }

    /** The character menu's keys: the arrows move the cursor, RETURN starts the game, ESCAPE goes back to the title. */
    method MenuKey(k: Key, now: int, d: Draws)
      requires Valid() && DrawsOk(d) && state == CharacterSelect
      modifies this`state, this`score, this`selectedIndex, this`selectedCharacter
      modifies this`player, this`enemies, this`bombs, this`explosions, gameMap
      ensures KeyHandled(k, now, d)
    {
      if IsArrow(k) {
        var i := Cycle(selectedIndex, ArrowDelta(k));
        selectedIndex, selectedCharacter := i, AllCharacters[i];
      } else if k == Return {
        StartGame(now, d);
      } else if k == Escape {
        state := Start;
      }
    }

    /**
     * With no lives left the game is lost; with no enemy alive the level is
     * won, which takes precedence (the victory screen comes last).
     */
    method CheckWinLoseConditions()
      modifies this`state, this`score
      ensures player == old(player)
      ensures old(player) == null ==> Fields() == old(Fields())
      ensures old(player) != null ==>
        var cleared := forall i :: 0 <= i < |enemies| ==> !enemies[i].alive;
        Fields() == old(Fields()).(state := if cleared then GameState.Victory
                                            else if player.lives <= 0 then GameState.GameOver else old(state),
                                   score := if cleared then old(score) + 500 * level else old(score))
    {
      if player == null {
        return;
      }
      if player.lives <= 0 {
        GameOver();
      }
      var anyAlive := false;
      for i := 0 to |enemies|
        invariant anyAlive <==> exists j :: 0 <= j < i && enemies[j].alive
      {
        if enemies[i].alive {
          anyAlive := true;
        }
      }
      if !anyAlive {
        Victory();
      }
    }
  }
}
