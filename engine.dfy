/** The game component as an object whose fields are updated in place:
    the game record, the score and the two flags. Each method is proved to
    compute the function of the Session, Bullets and Enemies modules that
    specifies it. */
module Engine {
  import opened Entities
  import opened Bullets
  import opened Enemies
  import opened Session

  class ShootingGame {
    var player: Point
    var bullets: seq<Bullet>
    var enemies: seq<Enemy>
    var lastEnemySpawn: int
    var enemySpawnInterval: int
    var score: int
    var gameOver: bool
    var gameStarted: bool

    /** The abstract value of the object. */
    function State(): GameState
      reads this
    {
      GameState(player, bullets, enemies, lastEnemySpawn, enemySpawnInterval, score, gameOver, gameStarted)
    }

    constructor ()
      ensures State() == Initial()
    {
      player, bullets, enemies := Point(0, 0), [], [];
      lastEnemySpawn, enemySpawnInterval := 0, SpawnInterval;
      score, gameOver, gameStarted := 0, false, false;
    }

    /** Reset everything and run the first frame at once; the frame sees the
        game-over flag as it was before the reset. */
    method StartGame(now: int, spawnX: int) returns (scheduled: bool)
      modifies this
      ensures Frame(State(), scheduled) == Start(old(State()), now, spawnX)
    {
      var captured := gameOver;
      gameStarted, gameOver, score := true, false, 0;
      player, bullets, enemies := Point(0, 0), [], [];
      lastEnemySpawn, enemySpawnInterval := 0, SpawnInterval;
      scheduled := GameLoop(now, spawnX, captured);
    }

    /** A click at (x, y) on the canvas. */
    method HandleClick(x: int, y: int)
      modifies this
      ensures State() == Click(old(State()), x, y)
    {
      if !gameStarted || gameOver {
        return;
      }
      player := Point(x, y);
      bullets := bullets + [Bullet(x, y, BulletSpeed)];
    }

    /** A new enemy at the top edge, after all others. */
    method SpawnEnemy(spawnX: int)
      modifies this
      ensures State() == old(State()).(enemies := old(enemies) + [Enemy(spawnX, 0, EnemySpeed)])
    {
      enemies := enemies + [Enemy(spawnX, 0, EnemySpeed)];
    }

    /** The bullet phase, from the last bullet to the first: each bullet
        rises and is cut out of the list when it is above the top edge. */
    method UpdateBullets()
      modifies this
      ensures State() == old(State()).(bullets := MoveBullets(old(bullets)))
    {
      var list := bullets;
      var i := |list| - 1;
      while i >= 0
        invariant -1 <= i < |bullets|
        invariant list == bullets[..i + 1] + MoveBullets(bullets[i + 1..])
        modifies {}
      {
        MoveBulletsFrom(bullets, i);
        assert list[..i] == bullets[..i] && list[i + 1..] == MoveBullets(bullets[i + 1..]);
        var b := list[i];
        b := b.(y := b.y - b.speed);
        if b.y < 0 {
          list := list[..i] + list[i + 1..];
        } else {
          list := list[i := b];
        }
        i := i - 1;
      }
      assert bullets[0..] == bullets;
      bullets := list;
    }

    /** The search from the last bullet to the first for one within range
        of `e`; the first found is cut out and scores. */
    method ShootAt(e: Enemy) returns (shot: bool)
      modifies this
      ensures var t := FindBullet(old(bullets), e);
              shot == t.Some?
              && bullets == (if t.Some? then RemoveAt(old(bullets), t.value) else old(bullets))
              && score == (if t.Some? then old(score) + PointsPerKill else old(score))
      ensures State() == old(State()).(bullets := bullets, score := score)
    {
      var j := |bullets| - 1;
      while j >= 0
        invariant -1 <= j < |bullets|
        invariant State() == old(State())
        invariant forall k :: j < k < |bullets| ==> !HitsEnemy(bullets[k], e)
      {
        if HitsEnemy(bullets[j], e) {
          assert FindBullet(bullets, e) == Some(j);
          bullets := bullets[..j] + bullets[j + 1..];
          score := score + PointsPerKill;
          return true;
        }
        j := j - 1;
      }
      return false;
    }

    /** The visit of enemy `i` in the sweep: it falls, and is marked when it
        is below the bottom edge; touching the player is reported as `hit`;
        otherwise it takes a bullet in range, if any, and is then marked. */
    method VisitEnemy(i: nat, marked: set<int>) returns (hit: bool, marked': set<int>)
      requires i < |enemies|
      modifies this
      ensures Visit(old(player), Collision(old(enemies), old(bullets), old(score), marked, None), i)
              == Collision(enemies, bullets, score, marked', if hit then Some(i) else None)
      ensures State() == old(State()).(enemies := enemies, bullets := bullets, score := score)
    {
      var e := enemies[i];
      e := e.(y := e.y + e.speed);
      enemies := enemies[i := e];
      if e.y > Height {
        return false, marked + {i};
      }
      if HitsPlayer(player, e) {
        return true, marked;
      }
      var shot := ShootAt(e);
      marked' := if shot then marked + {i} else marked;
      hit := false;
    }

    /** The collision sweep over the enemies in index order. It stops at
        once, reporting `hit`, when an enemy touches the player; otherwise
        it returns the indices of the enemies to remove. */
    method UpdateEnemies() returns (hit: bool, marked: set<int>)
      modifies this
      ensures var c := Collide(old(player), old(enemies), old(bullets), old(score), |old(enemies)|);
              State() == old(State()).(enemies := c.enemies, bullets := c.bullets, score := c.score)
              && hit == c.hit.Some? && (!hit ==> marked == c.marked)
    {
      ghost var p, es, bs, sc := player, enemies, bullets, score;
      marked := {};
      var i := 0;
      while i < |enemies|
        invariant i <= |es| == |enemies|
        invariant Collide(p, es, bs, sc, i) == Collision(enemies, bullets, score, marked, None)
        invariant State() == old(State()).(enemies := enemies, bullets := bullets, score := score)
      {
        hit, marked := VisitEnemy(i, marked);
        if hit {
          CollideHitSticks(p, es, bs, sc, i + 1, |es|);
          return;
        }
        i := i + 1;
      }
      hit := false;
    }

    /** One animation frame; the result says whether the next frame is
        requested. */
    method GameLoop(now: int, spawnX: int, capturedGameOver: bool) returns (scheduled: bool)
      modifies this
      ensures Frame(State(), scheduled) == Tick(old(State()), now, spawnX, capturedGameOver)
    {
      UpdateBullets();
      if now - lastEnemySpawn > enemySpawnInterval {
        SpawnEnemy(spawnX);
        lastEnemySpawn := now;
      }
      var hit, marked := UpdateEnemies();
      if hit {
        gameOver := true;
        return false;
      }
      enemies := KeepUnmarked(enemies, marked);
      scheduled := !capturedGameOver;
    }
  }
}
