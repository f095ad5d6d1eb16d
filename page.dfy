/** The component as the browser drives it: the Start/Retry button, clicks
    on the canvas and animation frames. A frame is delivered only while a
    frame callback is pending, and that callback carries the game-over flag
    it captured when it was created. */
module Page {
  import opened Entities
  import opened Bullets
  import opened Enemies
  import opened Session

  datatype Event =
    | PressButton(now: int, spawnX: int)
    | CanvasClick(x: int, y: int)
    | AnimationFrame(now: int, spawnX: int)

  /** The game and the pending frame callback, if any, with the game-over
      flag that callback captured. */
  datatype Page = Page(game: GameState, pending: Option<bool>)

  /** The page as first rendered. */
  function Mounted(): Page
  {
    Page(Initial(), None)
  }

  /** The button is rendered before the first start and after game over. */
  predicate ButtonShown(g: GameState)
  {
    !g.gameStarted || g.gameOver
  }

  /** One event. Pressing the button starts a game whose frame callback
      captures the game-over flag shown when the button was pressed; a
      frame runs the pending callback, which schedules itself again or not. */
  function Step(pg: Page, ev: Event): Page
  {
    match ev
    case PressButton(now, spawnX) =>
      if !ButtonShown(pg.game) then pg
      else
        var f := Start(pg.game, now, spawnX);
        Page(f.state, if f.scheduled then Some(pg.game.gameOver) else None)
    case CanvasClick(x, y) =>
      pg.(game := Click(pg.game, x, y))
    case AnimationFrame(now, spawnX) =>
      match pg.pending
      case None => pg
      case Some(captured) =>
        var f := Tick(pg.game, now, spawnX, captured);
        Page(f.state, if f.scheduled then Some(captured) else None)
  }

  /** A sequence of events, in order. */
  function Run(pg: Page, evs: seq<Event>): Page
    decreases |evs|
  {
    if evs == [] then pg else Run(Step(pg, evs[0]), evs[1..])
  }

  /** A pending callback belongs to a running game and captured "not over". */
  predicate Consistent(pg: Page)
  {
    pg.pending.Some? ==> pg.pending == Some(false) && pg.game.gameStarted && !pg.game.gameOver
  }

  /** Every event keeps the page consistent. */
  lemma StepConsistent(pg: Page, ev: Event)
    requires Consistent(pg)
    ensures Consistent(Step(pg, ev))
  {
  }

  /** Every page reachable from the mounted one is consistent: at most one
      frame callback runs, and it never captured game over. */
  lemma {:induction false} RunConsistent(pg: Page, evs: seq<Event>)
    requires Consistent(pg)
    ensures Consistent(Run(pg, evs))
    decreases |evs|
  {
    if evs != [] {
      StepConsistent(pg, evs[0]);
      RunConsistent(Step(pg, evs[0]), evs[1..]);
    }
  }

  /** Once the game is over, nothing but the Retry button changes anything:
      no frame is pending and clicks are ignored. */
  lemma {:induction false} GameOverIsFinal(pg: Page, evs: seq<Event>)
    requires Consistent(pg) && pg.game.gameOver
    requires forall i :: 0 <= i < |evs| ==> !evs[i].PressButton?
    ensures Run(pg, evs) == pg
    decreases |evs|
  {
    if evs != [] {
      assert Step(pg, evs[0]) == pg;
      forall i | 0 <= i < |evs[1..]| ensures !evs[1..][i].PressButton? {
        assert evs[1..][i] == evs[i + 1];
      }
      GameOverIsFinal(pg, evs[1..]);
    }
  }

  /** A started game that is not over but has no pending frame: the button
      is hidden and no frame ever comes. */
  predicate Frozen(pg: Page)
  {
    pg.pending.None? && pg.game.gameStarted && !pg.game.gameOver
  }

  /** The first start, at a real clock reading and with the first enemy out
      of reach of the origin, leaves a frame callback pending. */
  lemma FirstStartKeepsRunning(now: int, spawnX: int)
    requires now > SpawnInterval
    requires spawnX * spawnX + EnemySpeed * EnemySpeed >= PlayerHitRadius * PlayerHitRadius
    ensures Step(Mounted(), PressButton(now, spawnX)).pending == Some(false)
    ensures !Step(Mounted(), PressButton(now, spawnX)).game.gameOver
  {
    StartLate(Initial(), now, spawnX);
  }

  /** Retry after game over leaves no frame pending: the new game either
      ends at once or is frozen. */
  lemma RetryFreezes(pg: Page, now: int, spawnX: int)
    requires Consistent(pg) && pg.game.gameOver
    ensures var q := Step(pg, PressButton(now, spawnX));
            q.pending.None? && (q.game.gameOver || Frozen(q))
  {
  }

  /** A frozen game stays frozen whatever happens: enemies, score and spawn
      timer never change again, and clicks only move the player and add
      bullets that never move. */
  lemma {:induction false} FrozenStaysFrozen(pg: Page, evs: seq<Event>)
    requires Frozen(pg)
    ensures var q := Run(pg, evs);
            Frozen(q)
            && q.game.(player := pg.game.player, bullets := pg.game.bullets) == pg.game
            && pg.game.bullets <= q.game.bullets
    decreases |evs|
  {
    if evs != [] {
      var q := Step(pg, evs[0]);
      assert Frozen(q) && q.game.(player := pg.game.player, bullets := pg.game.bullets) == pg.game
             && pg.game.bullets <= q.game.bullets;
      FrozenStaysFrozen(q, evs[1..]);
    }
  }

  /** Once a game is over or frozen, no animation frame ever runs again,
      whatever events follow, Retry presses included: Retry after game over
      leaves the new game over or frozen, and neither has a pending frame. */
  lemma {:induction false} OverNeverRunsAgain(pg: Page, evs: seq<Event>)
    requires Consistent(pg) && (pg.game.gameOver || Frozen(pg))
    ensures Run(pg, evs).pending.None?
    decreases |evs|
  {
    if evs != [] {
      var q := Step(pg, evs[0]);
      StepConsistent(pg, evs[0]);
      if evs[0].PressButton? && pg.game.gameOver {
        RetryFreezes(pg, evs[0].now, evs[0].spawnX);
      }
      assert q.game.gameOver || Frozen(q);
      OverNeverRunsAgain(q, evs[1..]);
    } else {
      assert Run(pg, evs) == pg;
    }
  }
}
