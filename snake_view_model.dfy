/** The view-model: the one mutable cell holding the current snapshot, and
    the event handler that the screen calls. */
module SnakeViewModel {
  import opened SnakeState
  import opened SnakeEngine

  class SnakeGameViewModel {
    /** The snapshot the screen renders. */
    var state: SnakeGameState
    /** `initial` is the snapshot `SnakeGameState()` builds when the
        view-model is created; its default field values are not part of
        this model. */
    constructor (initial: SnakeGameState)
      ensures state == initial
    {
      state := initial;
    }

    /** Handles one event. Pause and Start set the phase and keep every other
        field; Reset replaces the snapshot by `resetState`, the one this call of
        `SnakeGameState()` builds (its food may be drawn anew, so it need not
        equal the first snapshot); a tap turns the snake.
        `thrown` is true when the call throws NoSuchElementException, which
        leaves the snapshot as it was. The tick loop that Start launches runs
        on its own, as `RunTickLoop`. */
    method OnEvent(event: SnakeGameEvent, resetState: SnakeGameState) returns (thrown: bool)
      modifies this
      ensures event == PauseGame ==> state == old(state).(gameState := PAUSED) && !thrown
      ensures event == StartGame ==> state == old(state).(gameState := STARTED) && !thrown
      ensures event == ResetGame ==> state == resetState && !thrown
      ensures event.UpdateDirection? ==>
        var r := SnakeEngine.UpdateDirection(old(state), event.tapX, event.tapY);
        thrown == r.Err? && state == (if r.Ok? then r.value else old(state))
    {
      thrown := false;
      match event
      case PauseGame =>
        state := state.(gameState := PAUSED);
      case ResetGame =>
        state := resetState;
      case StartGame =>
        state := state.(gameState := STARTED);
      case UpdateDirection(tapX, tapY) =>
        thrown := UpdateDirectionAt(tapX, tapY);
    }

    /** A tap on grid cell (`tapX`, `tapY`): unless the game is over, the
        snake turns a quarter turn towards the tap and only `direction` changes. */
    method UpdateDirectionAt(tapX: Int32, tapY: Int32) returns (thrown: bool)
      modifies this
      ensures var r := SnakeEngine.UpdateDirection(old(state), tapX, tapY);
        thrown == r.Err? && state == (if r.Ok? then r.value else old(state))
    {
      thrown := false;
      if !state.isGameOver {
        if |state.snake| == 0 {
          thrown := true;
          return;
        }
        var head := state.snake[0];
        state := state.(direction := NewDirection(state.direction, head, tapX, tapY));
      }
    }

    /** The loop launched by StartGame, run over the timer ticks in `foods`
        that fire before the next event (one candidate food coordinate per
        tick): while the phase is STARTED, choose the delay from the current
        length, wait it, and replace the snapshot by one tick of it. A tick
        that throws ends the loop. */
    method RunTickLoop(foods: seq<Coordinate>) returns (delays: seq<int>, crashed: bool)
      modifies this
      ensures RunLoop(old(state), foods) == LoopTrace(state, delays, crashed)
    {
      ghost var start := state;
      delays, crashed := [], false;
      var i := 0;
      while i < |foods| && state.gameState == STARTED
        invariant 0 <= i <= |foods|
        invariant var rest := RunLoop(state, foods[i..]);
          RunLoop(start, foods) == LoopTrace(rest.final, delays + rest.delays, rest.crashed)
        decreases |foods| - i
      {
        var delayMillis := DelayMillis(|state.snake|);
        delays := delays + [delayMillis];
        var next := UpdateGame(state, foods[i]);
        if next.Err? {
          crashed := true;
          return;
        }
        state := next.value;
        i := i + 1;
      }
    }
  }
}
