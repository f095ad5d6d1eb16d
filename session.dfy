/** The state of one game component and its three operations as functions
    of that state: starting a game, a click, and one animation frame. */
module Session {
  import opened Entities
  import opened Bullets
  import opened Enemies

  /** The mutable game record (player, bullets, enemies, spawn timer and
      spawn interval) together with the component's score, game-over and
      started flags. */
  datatype GameState = GameState(player: Point, bullets: seq<Bullet>, enemies: seq<Enemy>,
                                 lastEnemySpawn: int, enemySpawnInterval: int,
                                 score: int, gameOver: bool, gameStarted: bool)

  /** The state after a frame, and whether the frame asked for another one. */
  datatype Frame = Frame(state: GameState, scheduled: bool)

  /** The state when the component first appears. */
  function Initial(): (r: GameState)
    ensures r == Restarted().(gameStarted := false)
  {
    GameState(Point(0, 0), [], [], 0, SpawnInterval, 0, false, false)
  }

  /** The record that starting a game installs. */
  function Restarted(): GameState
  {
    GameState(Point(0, 0), [], [], 0, SpawnInterval, 0, false, true)
  }

  /** Starting a game: the state is replaced and one frame runs at once.
      That frame, and every frame it schedules, sees the game-over flag of
      the moment the button was pressed, not the reset one. */
  function Start(s: GameState, now: int, spawnX: int): Frame
  {
    Tick(Restarted(), now, spawnX, s.gameOver)
  }

  /** A click at (x, y): ignored before the first start and after game over;
      otherwise the player moves to the click and one bullet is fired from
      there, after all earlier bullets. */
  function Click(s: GameState, x: int, y: int): (r: GameState)
    ensures !s.gameStarted || s.gameOver ==> r == s
    ensures s.gameStarted && !s.gameOver ==>
              r.player == Point(x, y)
              && |r.bullets| == |s.bullets| + 1
              && r.bullets[..|s.bullets|] == s.bullets
              && r.bullets[|s.bullets|] == Bullet(x, y, BulletSpeed)
              && r.(player := s.player, bullets := s.bullets) == s
  {
    if !s.gameStarted || s.gameOver then s
    else s.(player := Point(x, y), bullets := s.bullets + [Bullet(x, y, BulletSpeed)])
  }

  /** The enemy list after the spawn phase of a frame. */
  function AfterSpawn(s: GameState, now: int, spawnX: int): Spawned
  {
    Spawn(s.enemies, s.lastEnemySpawn, s.enemySpawnInterval, now, spawnX)
  }

  /** The collision sweep of a frame, over the bullets left by the bullet
      phase and the enemies left by the spawn phase. */
  function Sweep(s: GameState, now: int, spawnX: int): Collision
  {
    var es := AfterSpawn(s, now, spawnX).enemies;
    Collide(s.player, es, MoveBullets(s.bullets), s.score, |es|)
  }

  /** One animation frame at time `now`; a spawned enemy appears at
      `spawnX`. `capturedGameOver` is the game-over flag that the running
      frame callback saw when it was created. */
  function Tick(s: GameState, now: int, spawnX: int, capturedGameOver: bool): Frame
  {
    var last := AfterSpawn(s, now, spawnX).lastEnemySpawn;
    var c := Sweep(s, now, spawnX);
    if c.hit.Some? then
      Frame(s.(bullets := c.bullets, enemies := c.enemies, lastEnemySpawn := last,
               score := c.score, gameOver := true), false)
    else
      Frame(s.(bullets := c.bullets, enemies := KeepUnmarked(c.enemies, c.marked),
               lastEnemySpawn := last, score := c.score), !capturedGameOver)
  }

  /** The score never decreases; it grows by exactly 100 per bullet that
      an enemy consumed this frame, at most one bullet per enemy, and the
      bullets left are drawn from those the bullet phase left. */
  lemma TickScore(s: GameState, now: int, spawnX: int, captured: bool)
    ensures var f, moved := Tick(s, now, spawnX, captured), MoveBullets(s.bullets);
            s.score <= f.state.score
            && f.state.score - s.score == PointsPerKill * (|moved| - |f.state.bullets|)
            && |moved| - |f.state.bullets| <= |AfterSpawn(s, now, spawnX).enemies|
            && multiset(f.state.bullets) <= multiset(moved)
  {
    var es := AfterSpawn(s, now, spawnX).enemies;
    CollideScore(s.player, es, MoveBullets(s.bullets), s.score, |es|);
    CollideAtMostOnePerEnemy(s.player, es, MoveBullets(s.bullets), s.score, |es|);
  }

  /** A frame in which an enemy touches the player ends the game and
      schedules nothing; the enemies up to that one have moved, the later
      ones have not, and none is removed. */
  lemma TickPlayerHit(s: GameState, now: int, spawnX: int, captured: bool)
    requires Sweep(s, now, spawnX).hit.Some?
    ensures var f, es, h := Tick(s, now, spawnX, captured), AfterSpawn(s, now, spawnX).enemies,
                            Sweep(s, now, spawnX).hit.value;
            f.state.gameOver && !f.scheduled
            && h < |es| && HitsPlayer(s.player, Fall(es[h]))
            && |f.state.enemies| == |es|
            && forall i :: 0 <= i < |es| ==> f.state.enemies[i] == if i <= h then Fall(es[i]) else es[i]
  {
    var es := AfterSpawn(s, now, spawnX).enemies;
    CollideShape(s.player, es, MoveBullets(s.bullets), s.score, |es|);
  }

  /** A frame in which no enemy touches the player leaves the game-over
      flag alone, schedules the next frame iff the captured flag is false,
      and keeps exactly the moved enemies whose indices were not marked, in
      order. */
  lemma TickNoHit(s: GameState, now: int, spawnX: int, captured: bool)
    requires Sweep(s, now, spawnX).hit.None?
    ensures var f, es := Tick(s, now, spawnX, captured), AfterSpawn(s, now, spawnX).enemies;
            f.state.gameOver == s.gameOver && f.scheduled == !captured
            && f.state.enemies == KeepUnmarked(FallAll(es), Sweep(s, now, spawnX).marked)
  {
    var es := AfterSpawn(s, now, spawnX).enemies;
    var c := Sweep(s, now, spawnX);
    CollideShape(s.player, es, MoveBullets(s.bullets), s.score, |es|);
    assert c.enemies == FallAll(es);
  }

  /** A frame never moves the player, never changes the spawn interval or
      the started flag, and never clears game over; it asks for the next
      frame only when the captured flag is false and the player survived. */
  lemma TickFrame(s: GameState, now: int, spawnX: int, captured: bool)
    ensures var f := Tick(s, now, spawnX, captured);
            f.state.player == s.player
            && f.state.enemySpawnInterval == s.enemySpawnInterval
            && f.state.gameStarted == s.gameStarted
            && (s.gameOver ==> f.state.gameOver)
            && (f.scheduled <==> !captured && Sweep(s, now, spawnX).hit.None?)
  {
  }

  /** Starting at a time no later than the spawn interval: the fresh record
      is kept as it is, and the next frame is scheduled iff the game was not
      over when the button was pressed. */
  lemma StartEarly(s: GameState, now: int, spawnX: int)
    requires now <= SpawnInterval
    ensures Start(s, now, spawnX) == Frame(Restarted(), !s.gameOver)
  {
  }

  /** Starting at a later time (every real clock reading is): the first
      frame spawns one enemy, which falls once. The player still sits at
      the origin, so an enemy spawned within reach of it ends the new game
      on its first frame without any click; otherwise the game runs, and
      the next frame is scheduled iff the game was not over when the button
      was pressed. */
  lemma StartLate(s: GameState, now: int, spawnX: int)
    requires now > SpawnInterval
    ensures var f, e := Start(s, now, spawnX), Enemy(spawnX, EnemySpeed, EnemySpeed);
            var atOrigin := spawnX * spawnX + EnemySpeed * EnemySpeed < PlayerHitRadius * PlayerHitRadius;
            (atOrigin ==> f == Frame(Restarted().(enemies := [e], lastEnemySpawn := now, gameOver := true), false))
            && (!atOrigin ==> f == Frame(Restarted().(enemies := [e], lastEnemySpawn := now), !s.gameOver))
  {
    var r := Restarted();
    var es := AfterSpawn(r, now, spawnX).enemies;
    assert es == [Enemy(spawnX, 0, EnemySpeed)];
    var c0 := Collide(r.player, es, [], 0, 0);
    assert c0.enemies == es;
    var c := Sweep(r, now, spawnX);
    assert c == Collide(r.player, es, [], 0, 1);
    var e := Enemy(spawnX, EnemySpeed, EnemySpeed);
    assert HitsPlayer(r.player, e) <==> spawnX * spawnX + EnemySpeed * EnemySpeed < PlayerHitRadius * PlayerHitRadius;
    assert c.enemies == [e];
    if !HitsPlayer(r.player, e) {
      assert c.marked == {};
      KeepUnmarkedNone([e], {});
    }
  }

  /** Retry: a game started while the previous one is over never schedules
      a second frame, because the frame callback captured game over. */
  lemma RetryRunsOneFrame(s: GameState, now: int, spawnX: int)
    requires s.gameOver
    ensures !Start(s, now, spawnX).scheduled
    ensures !Start(s, now, spawnX).state.gameOver ==> Start(s, now, spawnX).state.gameStarted
  {
  }

  /** A bullet that rises into range of a falling enemy destroys it: both
      disappear and 100 is scored. */
  lemma ShotScenario(now: int)
    ensures var s := Restarted().(player := Point(400, 100), bullets := [Bullet(400, 45, BulletSpeed)],
                                  enemies := [Enemy(400, 22, EnemySpeed)], lastEnemySpawn := now);
            Tick(s, now, 0, false)
              == Frame(s.(bullets := [], enemies := [], score := PointsPerKill), true)
  {
  }

  /** An enemy that falls below the bottom edge is removed and scores
      nothing. */
  lemma OffBottomScenario(now: int)
    ensures var s := Restarted().(enemies := [Enemy(400, Height - 1, EnemySpeed)], lastEnemySpawn := now);
            Tick(s, now, 0, false) == Frame(s.(enemies := []), true)
  {
    var s := Restarted().(enemies := [Enemy(400, Height - 1, EnemySpeed)], lastEnemySpawn := now);
    var e := Enemy(400, Height + 1, EnemySpeed);
    assert MoveBullets(s.bullets) == [];
    assert AfterSpawn(s, now, 0).enemies == s.enemies;
    var c := Sweep(s, now, 0);
    assert c == Collide(s.player, s.enemies, [], 0, 1);
    assert c.marked == {0} && c.bullets == [] && c.score == 0;
    assert KeepUnmarked([e], {0}) == [] by {
      assert [e][..0] == [];
    }
  }
}
