# Snake game simulation core in Dafny

This project models the simulation core of a browser snake game played on a
30×30 grid, and proves properties about it. The game keeps a handful of
session variables:

- the snake, a head-first list of cells;
- the food cell;
- the score;
- the committed direction `dx/dy`;
- the pending direction `nextDx/nextDy`, written by key presses;
- the `isGameRunning` flag.

A timer calls `gameLoop` every `currentSpeed` ms (100 by default, changed by
the difficulty buttons). Each call runs `update`, one tick:

1. The pending direction is committed if it is not a reversal.
2. The head moves one cell.
3. Hitting a wall or any segment of the body before the move ends the game.
4. Otherwise the snake either eats (it grows, scores 10 and food is placed
   again) or drops its tail.

`initGame` starts a session. `gameOver` and `showMainMenu` stop it. The keydown
handler sets the pending direction, but refuses a reversal of the *committed*
direction.

Modules:

- `Grid` (`grid.dfy`): cells, direction vectors, the board, and a counting
  argument. It shows that a snake that stays on the board and never overlaps
  itself leaves a cell free exactly when it has fewer than 900 segments.
- `Direction` (`direction.dfy`): the keydown switch and the commit guard,
  written as the source tests them. Their contracts state what those tests
  mean on the five direction values. The module also covers a run of key
  presses between two ticks.
- `Food` (`food.dfy`): the membership scan used by both collision checks, and
  `FirstFree`, the index at which the retry loop of food placement stops (the
  loop itself is `Game.Session.PlaceFood`). `Math.random` becomes a stream of
  draws: each element is the cell one retry picks.
- `Simulation` (`simulation.dfy`): the session state as a value (`Snapshot`),
  the invariant `Inv`, the tick as a function `Step`, and the lemmas about
  ticks.
- `Game` (`game.dfy`): class `Session`. Its fields are the game's variables and
  its methods are its handlers. Each method performs the handler's steps
  (loops included) and is proved to produce the state that `Simulation`
  specifies.

`Inv` says four things:

- every segment is on the board and no two segments share a cell;
- the food is on the board and off the snake;
- the pending direction never reverses a moving committed direction;
- once a session has started, the score is 10 for each segment grown beyond
  the first three.

Every operation preserves `Inv`.

Some facts about the game that the model keeps:

- The game keeps no Menu/Playing/GameOver status variable. Only
  `isGameRunning` and the screen overlays represent it, and the overlays are
  not modelled.
- Returning to the menu does not reset the session's variables. It only stops
  the game, and the next `initGame` overwrites them.
- `initGame` does not draw. The first redraw comes after the first tick.
- The direction is committed before the collision checks, so a tick that ends
  the game still changes `dx/dy`.

It follows from the model that the commit guard's own reversal test never
fires. The key filter already blocks every reversal of the committed direction
(`Direction.AcceptedKeyCommits`, and `DirsOk` inside `Inv`). Moving into the
cell the tail is about to leave ends the game, because the check uses the body
before the move (`Simulation.MovingIntoTailEndsGame`). The model keeps that
behaviour.

## Model

| member | source | states |
|---|---|---|
| `Grid.Reverse` | script.js:203-212 | The opposite of a unit step is a different unit step. |
| `Grid.MoveMeaning` | script.js:115 | The new head is the old head when standing still, and an orthogonal neighbour of it for a unit step. |
| `Grid.UnitSteps` | script.js:203-212 | A unit step is exactly one of Up (0,-1), Down (0,1), Left (-1,0) and Right (1,0), and a direction value is exactly a unit step or (0,0). |
| `Grid.FreeCellIff` | script.js:87-102 | A snake on the board without overlaps leaves some board cell free if and only if it has fewer than 30·30 segments. |
| `Direction.KeyDir` | script.js:201-214 | Each arrow key asks for a unit step. |
| `Direction.AcceptsMeaning` | script.js:201-214 | The per-key axis tests accept a key exactly when it is an arrow whose step does not reverse the committed direction (neither the pending one nor any other value). |
| `Direction.CommitMeaning` | script.js:107-112 | On direction values, the axis-wise guard adopts the pending direction exactly when it moves and does not reverse the committed one, and otherwise keeps the committed one. A moving snake is never given the opposite of its committed direction. |
| `Direction.LastAccepted` | script.js:201-214 | Gives the index of the last accepted key of a run, or -1 when no key is accepted. No later key is accepted. |
| `Direction.LastAcceptedKeyWins` | script.js:193-215 | Over any number of key presses between ticks, the pending direction ends as the step of the last accepted key, or unchanged if no key was accepted. |
| `Direction.AcceptedKeyCommits` | script.js:107-112 | After at least one accepted key, the next commit always adopts the pending direction. |
| `Direction.RequestScenarios` | script.js:201-214 | Moving up, Right then Left leaves Left pending, and Up then Down leaves Up pending, because only reversals of the committed direction are refused. |
| `Food.Contains` | script.js:94-100 | The early-exit scan over the segments reports a hit exactly when the cell is on the snake. |
| `Food.FirstFree` | script.js:87-102 | The retry that ends placement is the first draw off the snake. Every earlier draw was on the snake. |
| `Food.PlacementNeedsRoom` | script.js:87-102 | Placement can only stop while the snake (on the board, without overlaps) is shorter than the board has cells. |
| `Simulation.BootInv` | script.js:19-30 | The variables as the page loads satisfy the invariant. |
| `Simulation.StartedInv` | script.js:46-66 | A freshly started session satisfies the invariant. |
| `Simulation.KeyPressedInv` | script.js:201-214 | A key press keeps the invariant. In particular the pending direction never becomes a reversal of the committed one. |
| `Simulation.StoppedInv` | script.js:77-79 | Stopping the game keeps the invariant. |
| `Simulation.HeadingInv` | script.js:107-112 | The committed direction stays a unit step that does not reverse the previous one, and the pending direction does not reverse it. |
| `Simulation.StepInv` | script.js:106-145 | Every tick keeps the invariant. Segments stay in bounds and pairwise apart, food stays in bounds and off the snake, the direction slots stay valid, and the score stays 10 per segment of growth. |
| `Simulation.CollisionEndsGame` | script.js:114-129 | A wall or self collision stops the game and leaves snake, food and score unchanged. Only the direction commit has happened. |
| `Simulation.MovingIntoTailEndsGame` | script.js:123-129 | Moving onto the cell of the current tail ends the game. |
| `Simulation.GameOverIff` | script.js:117-129 | A running game stops in a tick if and only if the new head leaves the board or lands on the body before the move. |
| `Simulation.MoveTick` | script.js:131-144 | After a tick without collision, the new head is the old head moved in the committed direction, and the old segments follow it in order. Eating adds exactly one segment and 10 points. Otherwise the last segment is dropped, and length, score and food stay. |
| `Simulation.ScoreTick` | script.js:135-144 | The score never decreases. It rises by 0 or 10, by exactly 10 per segment grown, and stays a non-negative multiple of 10. |
| `Simulation.NoReversal` | script.js:107-112 | No tick makes the committed direction the opposite of the previous one. It stays a unit step. |
| `Simulation.MoveUpScenario` | script.js:131-144 | The starting snake heading up, with the food elsewhere, moves to (10,9),(10,10),(10,11). |
| `Simulation.EatScenario` | script.js:134-140 | With food at (10,9) the snake grows to four segments, scores 10, and the food moves to the first draw off the grown snake. |
| `Simulation.WallScenario` | script.js:117-121 | A head about to move to (-1,10) ends the game with the snake unchanged. |
| `Game.Session.constructor` | script.js:19-30 | The initial values of the variables: empty snake, food at (0,0), score 0, all direction components 0, not running. |
| `Game.Session.PlaceFood` | script.js:85-103 | The retry loop leaves the food at the first draw off the snake, which is on the board and unequal to every segment. |
| `Game.Session.InitGame` | script.js:46-74 | The snake is exactly (10,10),(10,11),(10,12). Score is 0, committed and pending direction are (0,-1), food is placed off the snake, and the game is running. |
| `Game.Session.GameOver` | script.js:77-82 | Stops the game and changes nothing else. |
| `Game.Session.ShowMainMenu` | script.js:234-246 | Stops the game and changes nothing else. |
| `Game.Session.KeyDown` | script.js:193-215 | An accepted arrow makes its step pending. Anything else leaves the pending direction as it was. The invariant is kept. |
| `Game.Session.Update` | script.js:106-145 | The tick leaves exactly the state `Simulation.Step` describes, and keeps the invariant. |
| `Game.Session.GameLoop` | script.js:185-190 | Runs one tick and asks for a redraw exactly when the game is still running afterwards. |

## Left out

- Drawing on the canvas (`draw`, tile sizes, colours) is not modelled because it is pure rendering. `Game.Session.GameLoop` only reports whether a redraw would happen.
- DOM access is not modelled because it is display only. This covers element lookups, score and final-score text, overlay class toggling, and clearing the canvas.
- The `setInterval`/`clearInterval` timer and its id are not modelled. The interval is active exactly while `isGameRunning` is true, so the running flag stands for it, and a timer firing is a call of `GameLoop`.
- The difficulty buttons and `currentSpeed` are not modelled. They only choose the timer interval, which has no effect on the game's logic.
- `Math.random` is not modelled. Each retry of food placement takes the next cell of a `draws` sequence supplied by the caller. The caller guarantees every cell is on the board, as `Math.floor(Math.random() * 30)` does.
- Listener registration and `preventDefault` are not modelled because they are event wiring. The header menu button's handler stops the game and calls `showMainMenu`, so its effect on the modelled state is that of `Game.Session.ShowMainMenu`.
- Game.Session.PlaceFood: requires some draw of the stream to land off the snake. The source's `while (true)` loop never stops otherwise, which happens for certain once the snake covers all 900 cells (`Food.PlacementNeedsRoom`). `Simulation.CanPlaceFood` passes the same requirement on to a tick that eats.
- Game.Session.Update: requires a non-empty snake. The source would fail on `snake[0]` before the first `initGame`, but the timer never runs then.
- Game.Session.GameLoop: requires `isGameRunning`, because the timer only calls it while a game runs.
