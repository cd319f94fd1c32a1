/** The snapshot types of the game: coordinates, directions, the game phase,
    the immutable game snapshot and the events the screen sends.
    Kotlin's `Int` is a 32-bit two's-complement integer, so coordinates,
    grid sizes and tapped cells are `Int32` and the arithmetic that the
    source does on them wraps around explicitly through `Wrap32`. */
module SnakeState {

  const MinInt32: int := -0x8000_0000
  const MaxInt32: int := 0x7fff_ffff
  const Modulus32: int := 0x1_0000_0000

  type Int32 = x: int | MinInt32 <= x <= MaxInt32

  /** The value a 32-bit Kotlin `Int` holds after an operation whose exact result is `x`. */
  function Wrap32(x: int): (r: Int32)
    ensures MinInt32 <= x <= MaxInt32 ==> r == x
    ensures (r - x) % Modulus32 == 0
  {
    (x - MinInt32) % Modulus32 + MinInt32
  }

  /** A grid cell; equality is by value, like a Kotlin data class. */
  datatype Coordinate = Coordinate(x: Int32, y: Int32)

  datatype Direction = UP | DOWN | LEFT | RIGHT

  /** True for the two directions that move along the y axis. */
  predicate IsVertical(d: Direction) {
    d == UP || d == DOWN
  }

  /** The phase of a session; `isGameOver` is a separate flag beside it. */
  datatype GameState = IDLE | STARTED | PAUSED

  /** One snapshot of the game. `snake` runs from the head (index 0) to the tail. */
  datatype SnakeGameState = SnakeGameState(
    snake: seq<Coordinate>,
    food: Coordinate,
    direction: Direction,
    gameState: GameState,
    isGameOver: bool,
    xAxisGridSize: Int32,
    yAxisGridSize: Int32
  )

  /** The events the screen dispatches. A tap carries the grid cell it hit,
      already converted from pixels. */
  datatype SnakeGameEvent =
    | PauseGame
    | ResetGame
    | StartGame
    | UpdateDirection(tapX: Int32, tapY: Int32)

  /** The exception Kotlin's `List.first()` throws on an empty list. */
  datatype Error = NoSuchElement

  datatype Result<T> = Ok(value: T) | Err(error: Error)

  /** The score the screen shows: one point per cell grown beyond the head. */
  function Score(s: SnakeGameState): (r: int)
    ensures r + 1 == |s.snake|
    ensures |s.snake| >= 1 ==> r >= 0
  {
    |s.snake| - 1
  }
}
