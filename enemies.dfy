/** The enemy phases of a frame: spawning, the collision sweep over the
    enemies in index order, and the final removal of marked enemies. */
module Enemies {
  import opened Entities
  import opened Bullets

  /** One frame of motion: the enemy falls by its own speed; x is kept. */
  function Fall(e: Enemy): Enemy
  {
    e.(y := e.y + e.speed)
  }

  /** Every enemy of `es` after one frame of motion. */
  function FallAll(es: seq<Enemy>): seq<Enemy>
  {
    seq(|es|, i requires 0 <= i < |es| => Fall(es[i]))
  }

  datatype Spawned = Spawned(enemies: seq<Enemy>, lastEnemySpawn: int)

  /** The spawn phase: at most one enemy appears per frame, at the top edge,
      exactly when strictly more than `interval` ms have passed since the
      last spawn, and the spawn time is then reset to `now`. */
  function Spawn(es: seq<Enemy>, last: int, interval: int, now: int, spawnX: int): (r: Spawned)
    ensures |es| <= |r.enemies| <= |es| + 1 && r.enemies[..|es|] == es
    ensures |r.enemies| == |es| + 1 <==> now - last > interval
    ensures |r.enemies| == |es| + 1 ==> r.enemies[|es|] == Enemy(spawnX, 0, EnemySpeed) && r.lastEnemySpawn == now
    ensures |r.enemies| == |es| ==> r.lastEnemySpawn == last
  {
    if now - last > interval then Spawned(es + [Enemy(spawnX, 0, EnemySpeed)], now)
    else Spawned(es, last)
  }

  /** The state of the collision sweep: the enemy list (those already
      visited have moved), the bullets left, the score, the indices marked
      for removal, and the index of the enemy that touched the player, if
      one did. */
  datatype Collision = Collision(enemies: seq<Enemy>, bullets: seq<Bullet>, score: int,
                                 marked: set<int>, hit: Option<nat>)

  /** The visit of enemy `i`: it falls; below the bottom edge it is marked;
      touching the player it stops the sweep; otherwise it takes the
      highest-indexed bullet in range, if any, which is removed and scores,
      and it is marked. */
  function Visit(p: Point, c: Collision, i: nat): (r: Collision)
    requires i < |c.enemies|
    ensures |r.enemies| == |c.enemies|
  {
    var e := Fall(c.enemies[i]);
    var moved := c.enemies[i := e];
    if e.y > Height then c.(enemies := moved, marked := c.marked + {i})
    else if HitsPlayer(p, e) then c.(enemies := moved, hit := Some(i))
    else match FindBullet(c.bullets, e)
      case None => c.(enemies := moved)
      case Some(j) =>
        c.(enemies := moved, bullets := RemoveAt(c.bullets, j),
           score := c.score + PointsPerKill, marked := c.marked + {i})
  }

  /** The sweep after visiting the first `k` enemies in index order; once
      an enemy has touched the player no further enemy is visited. */
  function Collide(p: Point, es: seq<Enemy>, bs: seq<Bullet>, score: int, k: nat): (r: Collision)
    requires k <= |es|
    ensures |r.enemies| == |es|
    decreases k
  {
    if k == 0 then Collision(es, bs, score, {}, None)
    else
      var c := Collide(p, es, bs, score, k - 1);
      if c.hit.Some? then c else Visit(p, c, k - 1)
  }

  /** The enemies visited so far have fallen once and the rest are as they
      were; when an enemy touched the player, the visit stopped right after
      it, and that enemy was on screen and within reach of the player. */
  lemma {:induction false} CollideShape(p: Point, es: seq<Enemy>, bs: seq<Bullet>, score: int, k: nat)
    requires k <= |es|
    ensures var r := Collide(p, es, bs, score, k);
            var n := if r.hit.Some? then r.hit.value + 1 else k;
            n <= k
            && (r.hit.Some? ==> Fall(es[r.hit.value]).y <= Height && HitsPlayer(p, Fall(es[r.hit.value])))
            && forall i :: 0 <= i < |es| ==> r.enemies[i] == if i < n then Fall(es[i]) else es[i]
  {
    if k > 0 {
      CollideShape(p, es, bs, score, k - 1);
    }
  }

  /** Touching the player ends the sweep: nothing changes afterwards. */
  lemma {:induction false} CollideHitSticks(p: Point, es: seq<Enemy>, bs: seq<Bullet>, score: int, k: nat, m: nat)
    requires k <= m <= |es|
    requires Collide(p, es, bs, score, k).hit.Some?
    ensures Collide(p, es, bs, score, m) == Collide(p, es, bs, score, k)
    decreases m
  {
    if m > k {
      CollideHitSticks(p, es, bs, score, k, m - 1);
    }
  }

  /** Every bullet consumed scores exactly 100, so the score gained is 100
      times the number of bullets removed; the score never decreases, and the
      bullets left are drawn from the bullets given. */
  lemma {:induction false} CollideScore(p: Point, es: seq<Enemy>, bs: seq<Bullet>, score: int, k: nat)
    requires k <= |es|
    ensures var r := Collide(p, es, bs, score, k);
            |r.bullets| <= |bs|
            && r.score - score == PointsPerKill * (|bs| - |r.bullets|)
            && score <= r.score
            && multiset(r.bullets) <= multiset(bs)
  {
    if k > 0 {
      CollideScore(p, es, bs, score, k - 1);
    }
  }

  /** Only visited enemies are marked, and each enemy consumes at most one
      bullet: no more bullets are removed than enemies are marked, and no
      more than one per visited enemy. */
  lemma {:induction false} CollideAtMostOnePerEnemy(p: Point, es: seq<Enemy>, bs: seq<Bullet>, score: int, k: nat)
    requires k <= |es|
    ensures var r := Collide(p, es, bs, score, k);
            (forall m :: m in r.marked ==> 0 <= m < k)
            && |bs| - |r.bullets| <= |r.marked| <= k
  {
    if k > 0 {
      CollideAtMostOnePerEnemy(p, es, bs, score, k - 1);
      var c := Collide(p, es, bs, score, k - 1);
      var r := Collide(p, es, bs, score, k);
      assert k - 1 !in c.marked;
      assert |c.marked + {k - 1}| == |c.marked| + 1;
      if c.hit.None? {
        var e := Fall(c.enemies[k - 1]);
        if e.y <= Height && !HitsPlayer(p, e) && FindBullet(c.bullets, e).Some? {
          assert |r.bullets| == |c.bullets| - 1 && r.marked == c.marked + {k - 1};
        } else {
          assert r.bullets == c.bullets && (r.marked == c.marked || r.marked == c.marked + {k - 1});
        }
      }
    }
  }

  /** An enemy that falls below the bottom edge is marked; it consumes no
      bullet and scores nothing. */
  lemma CollideOffBottom(p: Point, es: seq<Enemy>, bs: seq<Bullet>, score: int, k: nat)
    requires 0 < k <= |es|
    requires Collide(p, es, bs, score, k - 1).hit.None?
    requires Fall(es[k - 1]).y > Height
    ensures var c, r := Collide(p, es, bs, score, k - 1), Collide(p, es, bs, score, k);
            r.hit.None? && r.marked == c.marked + {k - 1}
            && r.bullets == c.bullets && r.score == c.score
  {
    CollideShape(p, es, bs, score, k - 1);
  }

  /** An enemy on screen that touches the player ends the sweep at once:
      bullets, score and marks stay as they were before it, and the enemies
      after it are never visited. */
  lemma CollidePlayerHit(p: Point, es: seq<Enemy>, bs: seq<Bullet>, score: int, k: nat)
    requires 0 < k <= |es|
    requires Collide(p, es, bs, score, k - 1).hit.None?
    requires Fall(es[k - 1]).y <= Height && HitsPlayer(p, Fall(es[k - 1]))
    ensures var c, r := Collide(p, es, bs, score, k - 1), Collide(p, es, bs, score, |es|);
            r.hit == Some(k - 1) && r.marked == c.marked
            && r.bullets == c.bullets && r.score == c.score
  {
    CollideShape(p, es, bs, score, k - 1);
    CollideHitSticks(p, es, bs, score, k, |es|);
  }

  /** An enemy on screen that does not touch the player takes the
      highest-indexed bullet in range, if any: that one bullet is removed,
      100 is scored and the enemy is marked; with no bullet in range nothing
      but its position changes. */
  lemma CollideShot(p: Point, es: seq<Enemy>, bs: seq<Bullet>, score: int, k: nat)
    requires 0 < k <= |es|
    requires Collide(p, es, bs, score, k - 1).hit.None?
    requires Fall(es[k - 1]).y <= Height && !HitsPlayer(p, Fall(es[k - 1]))
    ensures var c, r := Collide(p, es, bs, score, k - 1), Collide(p, es, bs, score, k);
            r.hit.None?
            && match FindBullet(c.bullets, Fall(es[k - 1]))
               case None => r.bullets == c.bullets && r.score == c.score && r.marked == c.marked
               case Some(j) =>
                 r.bullets == RemoveAt(c.bullets, j) && r.score == c.score + PointsPerKill
                 && r.marked == c.marked + {k - 1}
  {
    CollideShape(p, es, bs, score, k - 1);
  }

  /** The enemies whose indices are not marked, in their original order
      (the removal pass after the sweep). */
  function KeepUnmarked(es: seq<Enemy>, marked: set<int>): (r: seq<Enemy>)
    ensures |r| <= |es|
  {
    if es == [] then []
    else KeepUnmarked(es[..|es| - 1], marked) + (if |es| - 1 in marked then [] else [es[|es| - 1]])
  }

  /** An enemy is kept iff it stands at some index that is not marked. */
  lemma {:induction false} KeepUnmarkedMembers(es: seq<Enemy>, marked: set<int>, x: Enemy)
    ensures x in KeepUnmarked(es, marked) <==> exists i :: 0 <= i < |es| && i !in marked && es[i] == x
  {
    if es != [] {
      var front := es[..|es| - 1];
      KeepUnmarkedMembers(front, marked, x);
      if exists i :: 0 <= i < |es| && i !in marked && es[i] == x {
        var i :| 0 <= i < |es| && i !in marked && es[i] == x;
        if i < |es| - 1 {
          assert front[i] == x;
        }
      }
      if x in KeepUnmarked(front, marked) {
        var i :| 0 <= i < |front| && i !in marked && front[i] == x;
        assert es[i] == x;
      }
    }
  }

  /** `f` lists, in increasing order, exactly the unmarked indices of `es`,
      and `r` holds the enemies at those indices, in that order. */
  predicate KeptAt(es: seq<Enemy>, marked: set<int>, r: seq<Enemy>, f: seq<nat>)
  {
    |f| == |r| && Increasing(f)
    && (forall k :: 0 <= k < |f| ==> f[k] < |es| && r[k] == es[f[k]])
    && (forall i :: 0 <= i < |es| ==> (i in f <==> i !in marked))
  }

  /** One more enemy at the end: its index joins the list iff it is not
      marked. */
  lemma KeptAtExtend(es: seq<Enemy>, marked: set<int>, r: seq<Enemy>, g: seq<nat>)
    requires es != [] && KeptAt(es[..|es| - 1], marked, r, g)
    ensures var n := |es| - 1;
            KeptAt(es, marked, r + (if n in marked then [] else [es[n]]), if n in marked then g else g + [n])
  {
    var n := |es| - 1;
    var front := es[..n];
    forall k | 0 <= k < |g| ensures g[k] < n && r[k] == es[g[k]] {
      assert front[g[k]] == es[g[k]];
    }
    assert n !in g;
    if n in marked {
      assert r + [] == r;
    } else {
      var r', f := r + [es[n]], g + [n];
      assert forall k :: 0 <= k < |g| ==> f[k] == g[k] && r'[k] == r[k];
      assert f[|g|] == n && r'[|g|] == es[n];
      assert Increasing(f);
      forall i | 0 <= i < |es| ensures (i in f <==> i !in marked) {
        assert i in f <==> i in g || i == n;
      }
    }
  }

  /** Index by index, not value by value: the result holds one entry per
      unmarked index, the enemy at that index, in index order; equal enemies
      at a marked and an unmarked index are told apart. */
  lemma {:induction false} KeepUnmarkedIndexed(es: seq<Enemy>, marked: set<int>)
    ensures exists f :: KeptAt(es, marked, KeepUnmarked(es, marked), f)
  {
    if es == [] {
      var none: seq<nat> := [];
      assert KeptAt(es, marked, KeepUnmarked(es, marked), none);
    } else {
      var front := es[..|es| - 1];
      KeepUnmarkedIndexed(front, marked);
      var g: seq<nat> :| KeptAt(front, marked, KeepUnmarked(front, marked), g);
      KeptAtExtend(es, marked, KeepUnmarked(front, marked), g);
      var n := |es| - 1;
      assert KeptAt(es, marked, KeepUnmarked(es, marked), if n in marked then g else g + [n]);
    }
  }

  /** Filtering a prefix gives a prefix of the filtered list. */
  lemma {:induction false} KeepUnmarkedPrefix(es: seq<Enemy>, marked: set<int>, n: nat)
    requires n <= |es|
    ensures KeepUnmarked(es[..n], marked) <= KeepUnmarked(es, marked)
    decreases |es| - n
  {
    if n < |es| {
      var front := es[..|es| - 1];
      assert front[..n] == es[..n];
      KeepUnmarkedPrefix(front, marked, n);
    } else {
      assert es[..n] == es;
    }
  }

  /** Kept enemies keep their relative order. */
  lemma KeepUnmarkedKeepsOrder(es: seq<Enemy>, marked: set<int>, i: nat, j: nat)
    requires i < j < |es| && i !in marked && j !in marked
    ensures exists k, l :: 0 <= k < l < |KeepUnmarked(es, marked)|
              && KeepUnmarked(es, marked)[k] == es[i] && KeepUnmarked(es, marked)[l] == es[j]
  {
    var front := es[..j];
    KeepUnmarkedMembers(front, marked, es[i]);
    assert front[i] == es[i];
    var pre := KeepUnmarked(front, marked);
    var k :| 0 <= k < |pre| && pre[k] == es[i];
    var upto := es[..j + 1];
    assert upto[..|upto| - 1] == front;
    assert KeepUnmarked(upto, marked) == pre + [es[j]];
    KeepUnmarkedPrefix(es, marked, j + 1);
    assert KeepUnmarked(es, marked)[k] == es[i];
    assert KeepUnmarked(es, marked)[|pre|] == es[j];
  }

  /** With nothing marked, nothing is removed. */
  lemma {:induction false} KeepUnmarkedNone(es: seq<Enemy>, marked: set<int>)
    requires forall i :: 0 <= i < |es| ==> i !in marked
    ensures KeepUnmarked(es, marked) == es
  {
    if es != [] {
      KeepUnmarkedNone(es[..|es| - 1], marked);
      assert es[..|es| - 1] + [es[|es| - 1]] == es;
    }
  }
}
