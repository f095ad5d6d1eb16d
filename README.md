# Shooting game: a verified model of the per-frame game update

This project models the arcade shooting game component `ShootingGame`
(`src/ShootingGame.jsx`). The component keeps one mutable game record: the
player position, the bullets, the enemies, the last spawn time and the spawn
interval. Beside the record it keeps a score and two flags, "started" and
"game over". It has three operations:

- **startGame** replaces the record, resets score and flags, and runs one
  frame at once.
- **handleClick** moves the player to the click and fires one bullet. It is
  ignored before the first start and after game over.
- **gameLoop** runs one animation frame, in this order:
  1. Bullets rise and those above the top edge are cut out, scanning from the
     last bullet to the first.
  2. At most one enemy spawns.
  3. The enemies are swept in index order. Each enemy falls, and is marked if
     it is below the bottom edge. An enemy touching the player ends the game
     and the frame at once. Otherwise the enemy takes the highest-indexed
     bullet within range: that bullet is cut out, 100 is scored, and the
     enemy is marked.
  4. The marked enemies are filtered out.
  5. The next frame is requested unless the game-over flag that the frame
     callback captured is set.

Layout, one module per file:

- `entities.dfy` (`Entities`): the 800 x 600 canvas, the rule constants
  (spawn every 2000 ms, bullet speed 5, enemy speed 2, radii 25 and 18,
  100 points), and the `Point`, `Bullet` and `Enemy` values. Distance tests
  compare squared distances with squared radii.
- `bullets.dfy` (`Bullets`): the bullet phase `MoveBullets`, the bullet
  search `FindBullet`, and the one-element splice `RemoveAt`.
- `enemies.dfy` (`Enemies`): `Spawn`, the collision sweep `Collide` (the
  state after the first `k` enemies), and the filter `KeepUnmarked`.
- `session.dfy` (`Session`): the whole state `GameState` and the three
  operations as functions `Start`, `Click` and `Tick`. `Tick` returns the new
  state and whether the next frame is requested.
- `engine.dfy` (`Engine`): the class `ShootingGame`. Its fields are updated in
  place by methods that follow the source's loops: a backwards loop with
  splice for bullets, a forward loop with early return over enemies, a
  backwards search with splice for the bullet hit. Each method is proved
  to leave the state that a function of the old state gives: `Initial`,
  `Start`, `Click`, `MoveBullets`, `FindBullet` with `RemoveAt`, `Visit`,
  `Collide` and `Tick`. `SpawnEnemy` is specified directly: the old state
  with one enemy appended.
- `page.dfy` (`Page`): the component as the browser drives it. The
  Start/Retry button is shown only before the first start or after game over.
  Animation frames arrive only while a frame callback is pending.

Inputs from the environment are parameters: `now` stands for the clock,
`spawnX` for the random spawn position, and `(x, y)` for the click already
translated into canvas coordinates.

Two behaviours of the code are modelled as written and proved as lemmas:

- The player sits at (0, 0) until the first click. Every real clock reading
  is past 2000 ms, so the first frame of a game always spawns an enemy. If
  that enemy lands within reach of the origin, the game is over before any
  input (`Session.StartLate`).
- The frame callback reads the game-over flag from the render in which it was
  created. After Retry that flag is still "over", so the new game runs exactly
  one frame and no animation frame ever arrives again
  (`Session.RetryRunsOneFrame`, `Page.OverNeverRunsAgain`). The button stays
  hidden and the game is frozen, unless that one frame ended the game, in
  which case Retry is offered again (`Page.RetryFreezes`,
  `Page.FrozenStaysFrozen`).

Details of the code's behaviour that the model keeps exactly:

- The code takes the highest-indexed bullet in range, not the first one.
- Bullets off the top are spliced out during the bullet phase itself, not in a
  later removal pass.
- A frame does not check the game-over flag before it runs. After game over
  no frame is pending, so nothing changes (`Page.GameOverIsFinal`).
- Retry after game over stops the frame loop for good, as explained above
  (`Page.OverNeverRunsAgain`). No single line of the code does this; it
  follows from the captured flag.

## Model

| member | source | states |
|---|---|---|
| `Engine.ShootingGame.constructor` | src/ShootingGame.jsx:5-16 | the initial state: player at (0,0), no bullets or enemies, spawn time 0, interval 2000, score 0, not started, not over |
| `Session.Initial` | src/ShootingGame.jsx:9-16 | the initial record equals the record installed by starting a game, except that it is not started |
| `Session.Restarted` | src/ShootingGame.jsx:19-29 | the record a start installs: player (0,0), no bullets or enemies, spawn time 0, interval 2000, score 0, started, not over; it has no contract of its own, `Session.Initial`, `StartEarly` and `StartLate` state what it is |
| `Session.Start` | src/ShootingGame.jsx:18-31 | reset, then one frame that sees the game-over flag of the moment of the press; it has no contract of its own, `StartEarly`, `StartLate` and `RetryRunsOneFrame` state what it computes |
| `Engine.ShootingGame.StartGame` | src/ShootingGame.jsx:18-31 | the new state and the reschedule flag are exactly `Start` of the old state: reset, then one frame that sees the old game-over flag |
| `Session.StartEarly` | src/ShootingGame.jsx:18-31 | starting at `now` <= 2000 leaves player (0,0), no bullets or enemies, spawn time 0, interval 2000, score 0, started, not over; the next frame is requested iff the game was not over before |
| `Session.StartLate` | src/ShootingGame.jsx:18-31 | starting at `now` > 2000 gives one enemy at (spawnX, 2) and spawn time `now`, all else reset; if spawnX² + 4 < 625 the game is over at once with no frame requested, otherwise it runs and the next frame is requested iff the game was not over before |
| `Session.RetryRunsOneFrame` | src/ShootingGame.jsx:147-149 | a game started while the previous one is over never requests a second frame |
| `Session.Click` | src/ShootingGame.jsx:33-49 | ignored (state unchanged) before the first start or after game over; otherwise the player is at (x,y), exactly one bullet (x, y, speed 5) is appended, earlier bullets are unchanged, and nothing else changes |
| `Engine.ShootingGame.HandleClick` | src/ShootingGame.jsx:33-49 | the new state is `Click` of the old state |
| `Engine.ShootingGame.SpawnEnemy` | src/ShootingGame.jsx:51-59 | appends one enemy (spawnX, 0, speed 2) after the others and changes nothing else |
| `Enemies.Spawn` | src/ShootingGame.jsx:90-94 | at most one enemy is added, after the existing ones, which stay unchanged; one is added iff now - last > interval, and it is (spawnX, 0, speed 2) with the spawn time set to now; otherwise the spawn time is kept |
| `Bullets.MoveBullets` | src/ShootingGame.jsx:75-87 | the bullet phase never adds bullets |
| `Bullets.MoveBulletsMembers` | src/ShootingGame.jsx:75-87 | by value: a value is in the output iff it is some input bullet with x unchanged and y reduced by exactly its speed, and the new y is not negative (the per-bullet statement is `MoveBulletsIndexed`) |
| `Bullets.MoveBulletsIndexed` | src/ShootingGame.jsx:75-87 | bullet by bullet: there is an increasing list of input indices, holding exactly those whose new y is not negative, such that the output is the bullets at those indices advanced, one entry each, in index order; so equal bullets are counted separately |
| `Bullets.MoveBulletsKeepsOrder` | src/ShootingGame.jsx:75-87 | two surviving bullets appear in the output in their input order |
| `Bullets.MoveBulletsAppend` | src/ShootingGame.jsx:75-87 | the bullet phase treats each bullet independently: it distributes over concatenation |
| `Engine.ShootingGame.UpdateBullets` | src/ShootingGame.jsx:75-87 | the backwards loop with splice leaves exactly `MoveBullets` of the old bullets and changes nothing else |
| `Bullets.FindBullet` | src/ShootingGame.jsx:121-133 | the result is the highest index whose bullet is within distance < 18 of the enemy, or none iff no bullet is in range |
| `Bullets.RemoveAt` | src/ShootingGame.jsx:129 | the splice removes exactly the element at j: one shorter, elements before j and after j kept in place, the rest of the multiset unchanged |
| `Engine.ShootingGame.ShootAt` | src/ShootingGame.jsx:121-133 | the backwards search cuts out exactly the bullet `FindBullet` names and adds 100, or changes nothing when there is none |
| `Engine.ShootingGame.VisitEnemy` | src/ShootingGame.jsx:101-133 | one visit leaves enemies, bullets, score and marks exactly as `Visit` says and reports a player hit iff `Visit` records one; nothing else changes |
| `Enemies.Visit` | src/ShootingGame.jsx:101-133 | a visit never changes the number of enemies |
| `Engine.ShootingGame.UpdateEnemies` | src/ShootingGame.jsx:97-142 | the forward loop with early return leaves enemies, bullets and score as `Collide` over all enemies says, reports whether the player was touched, and otherwise returns `Collide`'s marked set |
| `Enemies.Collide` | src/ShootingGame.jsx:97-142 | the sweep never changes the number of enemies |
| `Enemies.CollideShape` | src/ShootingGame.jsx:100-118 | the enemies visited have fallen once and the rest are untouched; when the player is touched, the visit stopped right after that enemy, which was on screen and within distance < 25 |
| `Enemies.CollideHitSticks` | src/ShootingGame.jsx:115-118 | once an enemy touches the player, later enemies change nothing |
| `Enemies.CollideScore` | src/ShootingGame.jsx:121-133 | score gained = 100 × bullets removed; the score never decreases; the bullets left are a sub-multiset of the bullets given |
| `Enemies.CollideAtMostOnePerEnemy` | src/ShootingGame.jsx:121-133 | only visited indices are marked; bullets removed <= enemies marked <= enemies visited |
| `Enemies.CollideOffBottom` | src/ShootingGame.jsx:105-108 | an enemy falling below y = 600 is marked, and bullets and score stay unchanged |
| `Enemies.CollidePlayerHit` | src/ShootingGame.jsx:110-118 | an on-screen enemy within distance < 25 of the player ends the sweep: the hit index is that enemy, and bullets, score and marks stay as before it |
| `Enemies.CollideShot` | src/ShootingGame.jsx:120-133 | an on-screen enemy not touching the player takes the `FindBullet` bullet: removed, +100, enemy marked; with none in range nothing changes except its position |
| `Enemies.KeepUnmarked` | src/ShootingGame.jsx:145 | the filter never adds enemies |
| `Enemies.KeepUnmarkedMembers` | src/ShootingGame.jsx:145 | by value: an enemy is kept iff it stands at an index that is not marked (the per-index statement is `KeepUnmarkedIndexed`) |
| `Enemies.KeepUnmarkedIndexed` | src/ShootingGame.jsx:145 | index by index: there is an increasing list holding exactly the unmarked indices such that the output is the enemies at those indices, one entry each, in index order |
| `Enemies.KeepUnmarkedKeepsOrder` | src/ShootingGame.jsx:145 | two kept enemies appear in their original order |
| `Enemies.KeepUnmarkedPrefix` | src/ShootingGame.jsx:145 | filtering a prefix of the list gives a prefix of the filtered list |
| `Enemies.KeepUnmarkedNone` | src/ShootingGame.jsx:145 | with no index marked the list is unchanged |
| `Session.Tick` | src/ShootingGame.jsx:61-150 | one frame: bullet phase, spawn, collision sweep, game over on a hit, filter and reschedule; it has no contract of its own, `TickScore`, `TickPlayerHit`, `TickNoHit` and `TickFrame` state what it computes |
| `Engine.ShootingGame.GameLoop` | src/ShootingGame.jsx:61-150 | the new state and the reschedule flag are exactly `Tick` of the old state with the captured flag |
| `Session.TickScore` | src/ShootingGame.jsx:121-133 | over a frame the score never decreases; it grows by exactly 100 per bullet consumed; at most one bullet is consumed per enemy; the bullets left are drawn from those that survived the bullet phase |
| `Session.TickPlayerHit` | src/ShootingGame.jsx:110-118 | when an enemy touches the player, game over is set and no frame is requested; enemies up to that one have fallen, later ones are unmoved, and none is filtered out |
| `Session.TickNoHit` | src/ShootingGame.jsx:145-149 | otherwise game over is unchanged, the next frame is requested iff the captured flag is false, and the enemies are exactly the fallen enemies at unmarked indices, in order |
| `Session.TickFrame` | src/ShootingGame.jsx:61-150 | a frame never moves the player, never changes the interval or the started flag, and never clears game over; it requests a frame iff the captured flag is false and the player was not touched |
| `Session.ShotScenario` | src/ShootingGame.jsx:121-133 | a bullet at (400,45) and an enemy at (400,22), player at (400,100): after one frame both are gone and the score is 100 |
| `Session.OffBottomScenario` | src/ShootingGame.jsx:105-108 | an enemy at y = 599 falls to 601 and is removed; the score is unchanged |
| `Page.Step` | src/ShootingGame.jsx:172-179 | one browser event: a press of the button (only while it is shown) starts a game whose pending frame captured the flag of the press; a click goes to `Click`; a frame runs only the pending callback; it has no contract of its own, `StepConsistent`, `GameOverIsFinal`, `RetryFreezes` and `FrozenStaysFrozen` state what it does |
| `Page.StepConsistent` | src/ShootingGame.jsx:147-149 | every event keeps the page consistent: a pending frame belongs to a started game that is not over, and it captured "not over" |
| `Page.RunConsistent` | src/ShootingGame.jsx:172-179 | consistency holds after any sequence of events |
| `Page.GameOverIsFinal` | src/ShootingGame.jsx:115-118 | after game over, no sequence of events without a button press changes anything |
| `Page.FirstStartKeepsRunning` | src/ShootingGame.jsx:18-31 | the first start, with the first enemy out of reach of the origin, leaves a frame pending and the game not over |
| `Page.RetryFreezes` | src/ShootingGame.jsx:172-179 | pressing Retry leaves no frame pending: the new game is over at once, or it is started, not over and frozen |
| `Page.OverNeverRunsAgain` | src/ShootingGame.jsx:147-149 | from a consistent page whose game is over or frozen, no sequence of events, button presses included, ever leaves a frame pending again |
| `Page.FrozenStaysFrozen` | src/ShootingGame.jsx:147-149 | a frozen game stays frozen under any events: enemies, score, spawn time and flags never change, and existing bullets are kept |

## Left out

- Canvas drawing (clearing, the circles for player, bullets and enemies) has no effect on the state and is not modelled.
- React's hooks and JSX are not modelled. Score, game over and started are plain fields, and a state update takes effect at once. The stale read of game over by the frame callback is kept, as the captured flag.
- `requestAnimationFrame`, `cancelAnimationFrame`, the `animationFrameId` field and the unmount cleanup are browser scheduling. `Tick` only reports whether the next frame is requested, and `Page` only records whether a callback is pending.
- The clock, the random spawn position and the translation of click coordinates are parameters. `spawnX` is any integer, not only a value in [0, 800).
- Floating point is not modelled. Coordinates are integers, and `Math.sqrt(d) < r` is modelled as `d < r * r`.
- The bullet's `angle` field is a float that nothing reads. It is not stored.
- `src/App.jsx` (the messaging-platform SDK login and greeting) is not part of this model.
