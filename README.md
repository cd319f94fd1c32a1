# Snake game engine, modelled in Dafny

A model of the game-state engine of a small Android Snake game. The
view-model (`SnakeGameViewModel`) holds one snapshot (`SnakeGameState`):
the snake as a list of grid cells from head to tail, the food cell, the
direction, the phase (`IDLE`, `STARTED`, `PAUSED`), an `isGameOver` flag and
the grid size. It changes through:

- `updateGame`, one timer tick: move the head one cell, end the game on a
  collision with the snake or the border, otherwise grow onto the food or
  shift forward;
- `isWithinBounds`, the interior test the tick uses;
- `updateDirection`, a tap that turns the snake a quarter turn;
- `onEvent`: Pause, Start (which launches the tick loop), Reset and taps;
- the delay before each tick, chosen from the snake's length.

Files:

- `snake_state.dfy` (module `SnakeState`): the snapshot types, 32-bit
  integers with explicit wrap-around, and the score (`snake.size - 1`).
- `snake_engine.dfy` (module `SnakeEngine`): the tick, the bounds test, the
  turn, the delay tier and the tick loop, as functions.
- `snake_properties.dfy` (module `SnakeProperties`): lemmas about one tick,
  a tap and the tick loop, and two worked runs.
- `snake_view_model.dfy` (module `SnakeViewModel`): the view-model as a class
  whose `state` field the event methods overwrite. `RunTickLoop` is the
  `while` loop of the Start branch, proved against `RunLoop`.

Kotlin's `Int` is 32 bits wide, so coordinates, grid sizes and tapped cells
are `Int32`. The `head.y - 1` of a move and the `xAxisGridSize - 1` of the
bounds test wrap around through `Wrap32`. `InteriorHeadMovesOneCell` shows
that a move from an interior cell never wraps.

Behaviour of the code that the model keeps:

- The loop keeps ticking after the game is over as long as the phase is
  `STARTED`. The tick returns its input unchanged, so the loop only waits
  (`GameOverIsTerminal`).
- The collision test uses the snake as it is before the move, tail
  included, so moving into the tail cell ends the game
  (`TailCellIsCollision`).
- The new food is not chosen against the snake's body. The model makes no
  claim that food avoids the snake.
- A tap can never reverse the heading, but two taps before one tick can
  (`TwoTapsCanReverse`).

## Model

| member | source | states |
|---|---|---|
| `SnakeState.Score` | app/src/main/java/com/example/snake/SnakeGame.kt:77 | the score is the snake's length minus one, never negative while the snake has a cell |
| `SnakeEngine.Move` | app/src/main/java/com/example/snake/SnakeGameViewModel.kt:73-78 | UP and DOWN keep x and move y by -1 and +1; LEFT and RIGHT keep y and move x by -1 and +1 (exact unless the 32-bit value wraps) |
| `SnakeEngine.IsWithinBounds` | app/src/main/java/com/example/snake/SnakeGameViewModel.kt:100-106 | for every grid size above the smallest `Int`, true exactly when 1 <= x <= W-2 and 1 <= y <= H-2, so border cells are out of bounds |
| `SnakeEngine.UpdateGame` | app/src/main/java/com/example/snake/SnakeGameViewModel.kt:63-98 | a tick throws exactly when a running game has an empty snake; it never changes direction, phase or grid size; a result still in play has a non-empty snake |
| `SnakeEngine.NewDirection` | app/src/main/java/com/example/snake/SnakeGameViewModel.kt:50-57 | the new heading is always on the other axis; from UP/DOWN it is LEFT exactly when the tap is left of the head, and from LEFT/RIGHT it is UP exactly when the tap is above the head |
| `SnakeEngine.UpdateDirection` | app/src/main/java/com/example/snake/SnakeGameViewModel.kt:41-61 | no change when the game is over; throws exactly on a running game with an empty snake; otherwise only `direction` changes, to the quarter turn towards the tap |
| `SnakeEngine.DelayMillis` | app/src/main/java/com/example/snake/SnakeGameViewModel.kt:27-31 | the delay is 120 ms exactly for lengths 1..5, 110 ms exactly for 6..10, and 100 ms otherwise (length 0 included) |
| `SnakeEngine.RunLoop` | app/src/main/java/com/example/snake/SnakeGameViewModel.kt:25-35 | the loop waits at most one delay per tick and does nothing when the phase is not STARTED |
| `SnakeProperties.GameOverIsTerminal` | app/src/main/java/com/example/snake/SnakeGameViewModel.kt:63-66 | a finished game is a fixed point of the tick; a started loop on it only waits the same delay for every tick and never changes the snapshot |
| `SnakeProperties.HeadMovesOneCell` | app/src/main/java/com/example/snake/SnakeGameViewModel.kt:73-78 | away from the 32-bit edges the new head is the old head moved exactly one cell in the direction, and it shares a side with the old head |
| `SnakeProperties.InteriorHeadMovesOneCell` | app/src/main/java/com/example/snake/SnakeGameViewModel.kt:73-78 | a head inside the board never wraps when it moves: the new head is exactly one cell away in the direction, beside the old head |
| `SnakeProperties.CollisionEndsGame` | app/src/main/java/com/example/snake/SnakeGameViewModel.kt:81-85 | a running tick ends the game exactly when the new head is in the pre-move snake or out of bounds, and then only `isGameOver` changes |
| `SnakeProperties.TailCellIsCollision` | app/src/main/java/com/example/snake/SnakeGameViewModel.kt:82 | moving into the cell the tail occupies ends the game, even though the tail would move away |
| `SnakeProperties.ShiftWithoutFood` | app/src/main/java/com/example/snake/SnakeGameViewModel.kt:88-95 | a safe move that misses the food gives the new head followed by the old snake minus its last cell; length and food are unchanged |
| `SnakeProperties.GrowOnFood` | app/src/main/java/com/example/snake/SnakeGameViewModel.kt:88-97 | a safe move onto the food gives the new head followed by the whole old snake and the generated food; length and score grow by one |
| `SnakeProperties.LengthStep` | app/src/main/java/com/example/snake/SnakeGameViewModel.kt:88-97 | a tick changes the length by 0 or +1, by +1 exactly when a running game's new head safely reaches the food, and keeps the food when the length is unchanged |
| `SnakeProperties.TickPreservesWellFormed` | app/src/main/java/com/example/snake/SnakeGameViewModel.kt:63-98 | a non-empty snake of distinct, side-by-side interior cells stays so after a tick, and the tick does not throw |
| `SnakeProperties.TapNeverReverses` | app/src/main/java/com/example/snake/SnakeGameViewModel.kt:50-57 | a tap on a running game never keeps the heading and never reverses it |
| `SnakeProperties.TwoTapsCanReverse` | app/src/main/java/com/example/snake/SnakeGameViewModel.kt:41-61 | an upward snake tapped left of its head and then below it heads down: two taps between ticks can reverse it |
| `SnakeProperties.LoopKeepsPhase` | app/src/main/java/com/example/snake/SnakeGameViewModel.kt:26-34 | the loop never changes phase, direction or grid size; unless a tick throws, a started loop runs every tick it is given |
| `SnakeProperties.LoopLengthBounds` | app/src/main/java/com/example/snake/SnakeGameViewModel.kt:26-34 | over the loop the snake never shrinks and grows by at most one cell per tick that ran |
| `SnakeProperties.LoopDelaysNonIncreasing` | app/src/main/java/com/example/snake/SnakeGameViewModel.kt:27-31 | the delays never increase from tick to tick, and none exceeds the delay for the starting length |
| `SnakeProperties.LoopPreservesWellFormed` | app/src/main/java/com/example/snake/SnakeGameViewModel.kt:26-34 | a well-formed snake stays well formed over any number of ticks, and the loop never throws on it |
| `SnakeProperties.EatAfterThreeTicks` | app/src/main/java/com/example/snake/SnakeGameViewModel.kt:63-98 | snake [(5,5)] heading right with food at (8,5): after three ticks the snake is [(8,5),(7,5)], the food is the generated cell, the score is 1 and each delay is 120 ms |
| `SnakeProperties.WallEndsGame` | app/src/main/java/com/example/snake/SnakeGameViewModel.kt:81-106 | snake [(2,1)] heading left: one tick reaches (1,1), the next hits the border and only sets `isGameOver` |
| `SnakeViewModel.SnakeGameViewModel.constructor` | app/src/main/java/com/example/snake/SnakeGameViewModel.kt:14 | the view-model starts from the snapshot `SnakeGameState()` builds |
| `SnakeViewModel.SnakeGameViewModel.OnEvent` | app/src/main/java/com/example/snake/SnakeGameViewModel.kt:17-39 | Pause sets PAUSED and Start sets STARTED, both keeping every other field; Reset installs the snapshot that its own call of `SnakeGameState()` builds, given as `resetState`; a tap applies `UpdateDirection` and leaves the snapshot alone when it throws |
| `SnakeViewModel.SnakeGameViewModel.UpdateDirectionAt` | app/src/main/java/com/example/snake/SnakeGameViewModel.kt:41-61 | the new snapshot is the one `UpdateDirection` gives, or the old one when `first()` throws |
| `SnakeViewModel.SnakeGameViewModel.RunTickLoop` | app/src/main/java/com/example/snake/SnakeGameViewModel.kt:25-35 | the final snapshot, the delays waited and whether a tick threw are exactly those of `RunLoop` on the starting snapshot |

## Left out

- The coroutine around the tick loop (`viewModelScope.launch`, `delay`, `MutableStateFlow`): `RunTickLoop` runs the ticks that fire before the next event, one after another. It does not model interleaving with later events. It also does not model a second loop launched by a second Start.
- `SnakeGameState.generateRandomFoodCoordinate()` is not part of this model. Each tick takes the coordinate it would return as a parameter. Nothing is assumed about where that coordinate lies.
- The default values of `SnakeGameState()` are not part of this model. The constructor and each Reset take the snapshot that their own call of `SnakeGameState()` builds as a parameter, so two calls may differ (in the food, for one).
- The pixel-to-cell conversion of a tap (`canvasWidth / xAxisGridSize`, then a float division and `toInt()`, which can divide by zero): a tap event carries the grid cell as an `Int32`.
- The screen (`SnakeGame.kt`): drawing, images, sound, buttons. Its guards are preconditions on events and are not modelled as code. Taps are only delivered while STARTED. Reset is enabled only when PAUSED or game over. Start/Pause is enabled only while the game is not over.
- An uncaught exception in the tick coroutine crashes the app. The model only reports it (`crashed`) and stops the loop.
