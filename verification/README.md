# Alien Blitz game-state model

A Dafny model of the game logic of Alien Blitz, a single-screen turtle-graphics
arcade game in Python. A plane sweeps across the screen, one row lower on each
pass. The player drops bombs to destroy the cells of 20 randomly generated
towers before the plane crashes into one. This model takes the logic out of the
turtle calls and into an immutable `GameState`, with one pure function per
transition:

- `field.dfy` (module `Field`): tower cells and the field generator. It also
  has the first-hit scan both collision checks use and the destruction of a
  struck cell. A destroyed cell stays in its tower with `alive` false (the
  game moves it to x = -1000 and keeps it).
- `flight.dfy` (module `Flight`): the playfield edges and the plane's
  horizontal step with wrap-around. The plane's altitude is a count of wraps.
- `game.dfy` (module `Game`): the game state, bomb hits, crash and level-win
  restarts, the plane tick, the space key, one bomb tick, and a whole drop.
- `rules.dfy` (module `Rules`): runs of arbitrarily interleaved events, and the
  invariants every run keeps.

Inputs the game gets from outside become parameters:

- The random tower heights are a `seq<int>`, required to hold 20 values in
  [1, 10].
- The distance tests are a `Probe`: whether an object at (x, y) is close
  enough to a cell. The plane and the bomb each have their own probe.
- The playfield size is a `Screen` of integer width and height (the window
  less 50 pixels).

Python's `- width // 2` is written `(-width) / 2`. With a positive divisor,
Dafny's `/` rounds toward negative infinity, as Python's `//` does. Vertical
positions are `real` because the cell size `width / 20` is fractional (37.5 at
the default window).

Behaviour of the source that the model keeps:

- A crash does not end a drop in progress. The crash hides the bomb, and the
  restart moves it to the start position. Its timer chain keeps running, so
  it goes on falling from there, and it can still strike and score. A
  level-win restart moves a falling bomb in the same way. `Game.Restart`
  models both.
- `playing` is false only inside the crash tick, before the restart sets it
  again. So between ticks the game is always playing (`Rules.Inv`). The bomb
  tick's "not playing" guard is modelled, and `Rules.NoHitsUnlessPlaying`
  states what it does, but no reachable state triggers it.
- A level is won when `score >= winning_score`. The ledger invariant
  (`Rules.Ledger`: score plus ten times the live cells equals the target)
  shows that this is the same as "every cell destroyed". The invariant holds
  when the bomb cannot reach destroyed cells, as the geometry ensures.

## Model

| member | source | states |
|---|---|---|
| `Field.GetTowers` | alien_blitz.py:119-131 | a generated field has 20 towers in columns -10..9 with the drawn heights, cells at consecutive levels sharing their tower's column, all cells live, and as many cells as the heights sum to |
| `Field.GeneratorIsOnto` | alien_blitz.py:119-131 | conversely, every well-formed all-live field is what the generator builds from its own heights |
| `Field.TotalCellsBounds` | alien_blitz.py:11-12 | a well-formed field has between NUM_TOWERS and NUM_TOWERS × MAX_TOWER_HEIGHT cells |
| `Field.FirstHit` | alien_blitz.py:69-76 | the scan returns the first touched cell in tower order, then bottom up, with no earlier cell touched; it returns nothing exactly when no cell is touched |
| `Field.Destroy` | alien_blitz.py:83-84 | destroying a cell marks only that cell not alive, keeps its column and level, and leaves every other cell and every tower length unchanged |
| `Field.DestroyKeepsShape` | alien_blitz.py:83-84 | destroying a cell keeps the field well formed, with the same heights and cell count |
| `Field.DestroyLive` | alien_blitz.py:83-85 | destroying a live cell lowers the live count by exactly one |
| `Field.ClearedIffNoLive` | alien_blitz.py:39-43 | the live count is zero exactly when every cell has been destroyed |
| `Field.LiveAtMostTotal` | alien_blitz.py:83-84 | a field never has more live cells than cells |
| `Flight.Step` | alien_blitz.py:21-27 | the plane drops one row exactly when it was beyond width // 2, re-entering at -width // 2; otherwise it moves 12 right at the same row |
| `Flight.FlightStaysInBand` | alien_blitz.py:21-27 | over any number of ticks, a plane starting within [-width // 2, width // 2 + 12] stays there, its row never decreases and its altitude never rises |
| `Flight.Sweep` | alien_blitz.py:21-27 | entering at the left edge, the plane keeps its row for (width // 2 - (-width // 2)) // 12 + 1 ticks (63 at the default 750-pixel playfield) and is back at the left edge one row lower on the next tick |
| `Flight.SweepProgress` | alien_blitz.py:26-27 | within a sweep, after k ticks the plane is k strides right of the left edge at the same row |
| `Flight.WrapLowers` | alien_blitz.py:24-25 | a wrap lowers the plane by exactly one cell size |
| `Game.BombHit` | alien_blitz.py:79-88 | a hit adds 10 to the score, sets the high score to the larger of the old high score and the new score, destroys the struck cell, and changes nothing else |
| `Game.Restart` | alien_blitz.py:177-198 | a fresh field from the draw; after a crash the score is 0 and the target is 10 × the new cells; after a won level the score is kept and 10 × the new cells (at least 200) is added to the target; the high score is unchanged, the game plays, the plane is at the start, and a falling bomb is moved to the start and keeps falling |
| `Game.Setup` | alien_blitz.py:134-174 | before the first restart the high score is 0, the space key is bound, no bomb falls, the plane is at the left edge at the top of the playfield, and there is no field yet |
| `Game.StopBombDrop` | alien_blitz.py:108-111 | ending a drop removes the bomb and binds the space key again, and changes nothing else |
| `Game.NewGame` | alien_blitz.py:203-205 | a game starts with score and high score 0, the target 10 × the cells of the first field, playing, no bomb and the space key bound, with the plane at the start |
| `Game.PlaneTick` | alien_blitz.py:21-43 | after the move, a collision with any cell is a crash (score 0, new target); otherwise score ≥ target is a level win (score kept, target raised); otherwise the plane flies on and nothing else changes; the high score and the key binding never change, and after a restart a falling bomb is back at the start position |
| `Game.BombStep` | alien_blitz.py:99-111 | the bomb falls 12; while playing, a touched cell means the first such cell is destroyed and scored and the drop ends; the drop also ends below -height // 2 or when not playing, and ending it rebinds the key; otherwise only the bomb moves |
| `Game.PressSpace` | alien_blitz.py:91-96 | with the key unbound a press changes nothing; otherwise the bomb starts at the plane and takes its first 12-pixel step at once: if, while playing, it then touches a cell, the first such cell is destroyed and scored and the drop ends at once; otherwise score, high score and field are unchanged; the drop keeps running exactly when nothing was hit, the game is playing and the bomb is not below -height // 2, and while it runs the key stays unbound |
| `Game.Drop` | alien_blitz.py:99-111 | a drop left to run on its own, with no plane tick in between, always ends, with the key bound again, and destroys at most one cell: either it scores nothing and leaves the field alone, or it scores 10 and destroys exactly one cell |
| `Rules.NextInv` | alien_blitz.py:85-87 | every event keeps the score a non-negative multiple of 10 and at most the high score, the key bound exactly when no bomb falls, the game playing and the field well formed, and never lowers the high score |
| `Rules.RunInv` | alien_blitz.py:177-200 | any interleaving of plane ticks, bomb ticks and key presses keeps the invariant and never lowers the high score |
| `Rules.NextLedger` | alien_blitz.py:190-194 | every event keeps the target equal to the score plus 10 × the live cells, when the bomb cannot reach destroyed cells |
| `Rules.RunLedger` | alien_blitz.py:190-194 | any run keeps that ledger |
| `Rules.Reachable` | alien_blitz.py:203-205 | every state reached from a new game satisfies the invariant and the ledger, so 0 ≤ score ≤ target |
| `Rules.LevelWonIffCleared` | alien_blitz.py:39-43 | under the ledger, a plane tick wins the level exactly when the plane touches no cell and every cell has been destroyed |
| `Rules.NoHitsUnlessPlaying` | alien_blitz.py:69-76 | when the game is not playing, a bomb tick ends the drop and changes nothing else |
| `Rules.PressesDuringDrop` | alien_blitz.py:91-93 | while a bomb falls, any number of key presses leave the state unchanged: no second drop starts |

## Left out

- Rendering: turtle shapes, colours, visibility, screen updates and the score text. This is display work over a library the model does not include. The plane turning red on a crash and the bomb being hidden change only what is drawn.
- Sound playback and the optional `playsound` import. This is foreign I/O, and the game logic does not depend on it.
- Timer scheduling (`ontimer`, PLANE_DELAY, BOMB_DELAY). Ticks are events the caller orders in any interleaving (`Rules.Run`). There is no wall-clock time.
- `restart` ends by calling `move_plane` itself. In the model that call is the caller's next plane tick. Folding it in would make a restart recursive without bound under an abstract probe.
- The Euclidean distance tests with float radii. They are abstracted as the plane and bomb probes. Which cells a real geometry touches, and that destroyed cells at x = -1000 are out of reach, are hypotheses (`Rules.SparesWreckage`), not proved.
- Random height and colour draws. Heights are an input satisfying ValidHeights. Colour is not modelled.
- Window setup: CURSOR_SIZE, WIDTH, HEIGHT, the 50-pixel margin and the cell offset. The playfield size is a parameter, and cell positions matter only through the probes.
- Float rounding: vertical positions use exact `real` arithmetic, so a drift in Python's repeated float subtraction is not modelled.
- The `NameError` guard on the first restart. `Game.Setup` has an empty field, and the old field is simply replaced; its off-screen clean-up is display work.
- Rules.NextLedger: holds only under the hypothesis that the bomb probe never touches a destroyed cell. The real distance test would reach a destroyed cell near x = -1000, so the probe stands for that test restricted to the x a bomb can have: between -width // 2 and width // 2 + 12, which the plane's flight keeps to (`Flight.FlightStaysInBand`). The source would score a destroyed cell again if the geometry allowed it.
- Game.Drop: promises termination only for a drop that no plane tick interrupts. A crash or level-win restart moves a falling bomb back to the top, and the model does not bound how often that can happen during one drop. In the game the plane needs several sweeps before it can reach a tower, far more ticks than one fall takes, so a drop ends. That argument rests on geometry the probes abstract, so termination across restarts is not proved.
- Rules.RunLedger: carries the same hypothesis about the bomb probe, and so does Rules.Reachable, which builds on it.
