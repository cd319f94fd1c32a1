/** The game engine of the view-model: one timer tick (`UpdateGame`), the
    interior test it uses (`IsWithinBounds`), the turn a tap causes
    (`UpdateDirection`), the delay chosen before each tick (`DelayMillis`)
    and the tick loop that runs while the game is started (`RunLoop`). */
module SnakeEngine {
  import opened SnakeState

  /** The head moved one cell in direction `d`, with Kotlin's 32-bit wrap-around. */
  function Move(head: Coordinate, d: Direction): (r: Coordinate)
    ensures d == UP ==> r.x == head.x && (head.y > MinInt32 ==> r.y == head.y - 1)
    ensures d == DOWN ==> r.x == head.x && (head.y < MaxInt32 ==> r.y == head.y + 1)
    ensures d == LEFT ==> r.y == head.y && (head.x > MinInt32 ==> r.x == head.x - 1)
    ensures d == RIGHT ==> r.y == head.y && (head.x < MaxInt32 ==> r.x == head.x + 1)
  {
    match d
    case UP => Coordinate(head.x, Wrap32(head.y - 1))
    case DOWN => Coordinate(head.x, Wrap32(head.y + 1))
    case LEFT => Coordinate(Wrap32(head.x - 1), head.y)
    case RIGHT => Coordinate(Wrap32(head.x + 1), head.y)
  }

  /** `x in 1 until xAxisGridSize - 1 && y in 1 until yAxisGridSize - 1`,
      where the subtraction is a 32-bit one. For every grid size except
      the smallest `Int` this is the interior of the board: border cells
      are out of bounds. */
  function IsWithinBounds(c: Coordinate, xAxisGridSize: Int32, yAxisGridSize: Int32): (r: bool)
    ensures xAxisGridSize > MinInt32 && yAxisGridSize > MinInt32 ==>
      (r <==> 1 <= c.x <= xAxisGridSize - 2 && 1 <= c.y <= yAxisGridSize - 2)
    ensures xAxisGridSize == MinInt32 ==> (r ==> c.x < MaxInt32)
    ensures yAxisGridSize == MinInt32 ==> (r ==> c.y < MaxInt32)
  {
    1 <= c.x < Wrap32(xAxisGridSize - 1) && 1 <= c.y < Wrap32(yAxisGridSize - 1)
  }

  /** The cell the head moves into on the next tick. */
  function NextHead(s: SnakeGameState): Coordinate
    requires |s.snake| > 0
  {
    Move(s.snake[0], s.direction)
  }

  /** True when moving into `newHead` ends the game: the cell is part of the
      snake as it is before the move (tail included) or lies outside the interior. */
  predicate Collides(s: SnakeGameState, newHead: Coordinate) {
    newHead in s.snake || !IsWithinBounds(newHead, s.xAxisGridSize, s.yAxisGridSize)
  }

  /** One tick. `newFood` is the coordinate the random food generator yields
      if it is called on this tick; it is used only when the head reaches
      the food. An empty snake on a running game makes `first()` throw. */
  function UpdateGame(s: SnakeGameState, newFood: Coordinate): (r: Result<SnakeGameState>)
    ensures r.Err? <==> !s.isGameOver && |s.snake| == 0
    ensures r.Ok? ==> r.value.direction == s.direction && r.value.gameState == s.gameState
    ensures r.Ok? ==> r.value.xAxisGridSize == s.xAxisGridSize && r.value.yAxisGridSize == s.yAxisGridSize
    ensures r.Ok? && !r.value.isGameOver ==> !s.isGameOver && |r.value.snake| > 0
  {
    if s.isGameOver then Ok(s)
    else if |s.snake| == 0 then Err(NoSuchElement)
    else
      var newHead := NextHead(s);
      if Collides(s, newHead) then Ok(s.(isGameOver := true))
      else
        var grown := [newHead] + s.snake;
        var food := if newHead == s.food then newFood else s.food;
        var snake := if newHead != s.food then grown[..|grown| - 1] else grown;
        Ok(s.(snake := snake, food := food))
  }

  /** The direction a tap gives: a vertical heading turns left or right
      according to the tapped column, a horizontal one up or down according
      to the tapped row. */
  function NewDirection(d: Direction, head: Coordinate, tapX: Int32, tapY: Int32): (r: Direction)
    ensures IsVertical(r) != IsVertical(d)
    ensures IsVertical(d) ==> (r == LEFT <==> tapX < head.x)
    ensures !IsVertical(d) ==> (r == UP <==> tapY < head.y)
  {
    match d
    case UP | DOWN => if tapX < head.x then LEFT else RIGHT
    case LEFT | RIGHT => if tapY < head.y then UP else DOWN
  }

  /** The effect of a tap on the tapped cell (`tapX`, `tapY`). */
  function UpdateDirection(s: SnakeGameState, tapX: Int32, tapY: Int32): (r: Result<SnakeGameState>)
    ensures s.isGameOver ==> r == Ok(s)
    ensures r.Err? <==> !s.isGameOver && |s.snake| == 0
    ensures r.Ok? ==> r.value == s.(direction := r.value.direction)
    ensures r.Ok? && !s.isGameOver ==>
      IsVertical(r.value.direction) != IsVertical(s.direction) &&
      r.value.direction == NewDirection(s.direction, s.snake[0], tapX, tapY)
  {
    if s.isGameOver then Ok(s)
    else if |s.snake| == 0 then Err(NoSuchElement)
    else Ok(s.(direction := NewDirection(s.direction, s.snake[0], tapX, tapY)))
  }

  /** The delay in milliseconds before the next tick, chosen from the
      snake's length. A length of 0 is not in `1..5` and gets the last tier. */
  function DelayMillis(size: nat): (r: int)
    ensures r == 100 || r == 110 || r == 120
    ensures r == 120 <==> 1 <= size <= 5
    ensures r == 110 <==> 6 <= size <= 10
  {
    if 1 <= size <= 5 then 120
    else if 6 <= size <= 10 then 110
    else 100
  }

  /** What the tick loop leaves behind: the last snapshot, the delay waited
      before each tick that ran, and whether a tick threw. */
  datatype LoopTrace = LoopTrace(final: SnakeGameState, delays: seq<int>, crashed: bool)

  /** The tick loop started by the StartGame event, run for the timer ticks
      in `foods` (one candidate food coordinate per tick): while the phase is
      STARTED, wait the delay for the current length, then tick. A tick that
      throws ends the coroutine with the snapshot it was given. */
  function RunLoop(s: SnakeGameState, foods: seq<Coordinate>): (t: LoopTrace)
    ensures |t.delays| <= |foods|
    ensures s.gameState != STARTED ==> t == LoopTrace(s, [], false)
    decreases |foods|
  {
    if |foods| == 0 || s.gameState != STARTED then LoopTrace(s, [], false)
    else
      var d := DelayMillis(|s.snake|);
      match UpdateGame(s, foods[0])
      case Err(_) => LoopTrace(s, [d], true)
      case Ok(next) =>
        var rest := RunLoop(next, foods[1..]);
        LoopTrace(rest.final, [d] + rest.delays, rest.crashed)
  }
}
