/** The entities of the shooting game and the fixed constants of its rules.
    Coordinates are integers; distances are compared squared, which is the
    same test as comparing the distance itself since both sides are
    non-negative. */
module Entities {

  /** The canvas is fixed at 800 x 600 pixels. */
  const Width: int := 800
  const Height: int := 600

  /** An enemy is spawned once strictly more than this many milliseconds
      have passed since the previous spawn. */
  const SpawnInterval: int := 2000

  /** Pixels per frame: bullets rise, enemies fall. */
  const BulletSpeed: int := 5
  const EnemySpeed: int := 2

  /** An enemy closer than this to the player ends the game. */
  const PlayerHitRadius: int := 25

  /** A bullet closer than this to an enemy destroys both. */
  const BulletHitRadius: int := 18

  /** Points scored per enemy destroyed by a bullet. */
  const PointsPerKill: int := 100

  datatype Option<T> = None | Some(value: T)

  /** Indices listed in strictly increasing order. */
  predicate Increasing(f: seq<nat>)
  {
    forall k, l :: 0 <= k < l < |f| ==> f[k] < f[l]
  }

  datatype Point = Point(x: int, y: int)

  /** A bullet; it moves straight up by `speed` every frame. */
  datatype Bullet = Bullet(x: int, y: int, speed: int)

  /** An enemy; it moves straight down by `speed` every frame. */
  datatype Enemy = Enemy(x: int, y: int, speed: int)

  /** Squared Euclidean distance between (x1, y1) and (x2, y2). */
  function SqDist(x1: int, y1: int, x2: int, y2: int): int
  {
    (x1 - x2) * (x1 - x2) + (y1 - y2) * (y1 - y2)
  }

  /** The enemy touches the player: distance below 25. */
  predicate HitsPlayer(p: Point, e: Enemy)
  {
    SqDist(p.x, p.y, e.x, e.y) < PlayerHitRadius * PlayerHitRadius
  }

  /** The bullet touches the enemy: distance below 18. */
  predicate HitsEnemy(b: Bullet, e: Enemy)
  {
    SqDist(b.x, b.y, e.x, e.y) < BulletHitRadius * BulletHitRadius
  }
}
