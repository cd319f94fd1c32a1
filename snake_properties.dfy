/** What one tick, a tap and the tick loop guarantee about the snapshot. */
module SnakeProperties {
  import opened SnakeState
  import opened SnakeEngine

  function Abs(n: int): nat {
    if n < 0 then -n else n
  }

  /** Two cells that share a side. */
  predicate Adjacent(a: Coordinate, b: Coordinate) {
    Abs(a.x - b.x) + Abs(a.y - b.y) == 1
  }

  /** No cell occurs twice in `cs`. */
  predicate Distinct(cs: seq<Coordinate>) {
    forall i, j :: 0 <= i < j < |cs| ==> cs[i] != cs[j]
  }

  /** Each cell of `cs` shares a side with the next one. */
  predicate Connected(cs: seq<Coordinate>) {
    forall i :: 0 <= i < |cs| - 1 ==> Adjacent(cs[i], cs[i + 1])
  }

  /** Every cell of the snake lies in the interior of the board. */
  predicate Inside(s: SnakeGameState) {
    forall i :: 0 <= i < |s.snake| ==> IsWithinBounds(s.snake[i], s.xAxisGridSize, s.yAxisGridSize)
  }

  /** A snake as the game draws it: a non-empty chain of distinct,
      side-by-side interior cells. */
  predicate WellFormed(s: SnakeGameState) {
    |s.snake| >= 1 && Distinct(s.snake) && Connected(s.snake) && Inside(s)
  }

  /** The heading opposite to `d`. */
  function Opposite(d: Direction): (r: Direction)
    ensures IsVertical(r) == IsVertical(d) && r != d
  {
    match d
    case UP => DOWN
    case DOWN => UP
    case LEFT => RIGHT
    case RIGHT => LEFT
  }

  // ---------------------------------------------------------------------
  // One tick

  /** A finished game is terminal: ticking it any number of times changes nothing. */
  lemma {:induction false} GameOverIsTerminal(s: SnakeGameState, foods: seq<Coordinate>)
    requires s.isGameOver
    ensures forall newFood :: UpdateGame(s, newFood) == Ok(s)
    ensures s.gameState == STARTED ==>
      RunLoop(s, foods) == LoopTrace(s, seq(|foods|, _ => DelayMillis(|s.snake|)), false)
    decreases |foods|
  {
    if |foods| > 0 && s.gameState == STARTED {
      GameOverIsTerminal(s, foods[1..]);
      assert [DelayMillis(|s.snake|)] + seq(|foods| - 1, _ => DelayMillis(|s.snake|))
          == seq(|foods|, _ => DelayMillis(|s.snake|));
    }
  }

  /** The head moves one cell in the current direction, unless the 32-bit
      value wraps around. */
  lemma HeadMovesOneCell(s: SnakeGameState)
    requires |s.snake| > 0 && s.snake[0].x > MinInt32 && s.snake[0].x < MaxInt32
    requires s.snake[0].y > MinInt32 && s.snake[0].y < MaxInt32
    ensures var h, n := s.snake[0], NextHead(s);
      match s.direction
      case UP => n == Coordinate(h.x, h.y - 1)
      case DOWN => n == Coordinate(h.x, h.y + 1)
      case LEFT => n == Coordinate(h.x - 1, h.y)
      case RIGHT => n == Coordinate(h.x + 1, h.y)
    ensures Adjacent(NextHead(s), s.snake[0])
  {
  }

  /** A head inside the board is away from the 32-bit edges, so its move
      never wraps: the new head is exactly one cell away, beside the old one. */
  lemma InteriorHeadMovesOneCell(s: SnakeGameState)
    requires |s.snake| > 0 && IsWithinBounds(s.snake[0], s.xAxisGridSize, s.yAxisGridSize)
    ensures MinInt32 < s.snake[0].x < MaxInt32 && MinInt32 < s.snake[0].y < MaxInt32
    ensures var h, n := s.snake[0], NextHead(s);
      match s.direction
      case UP => n == Coordinate(h.x, h.y - 1)
      case DOWN => n == Coordinate(h.x, h.y + 1)
      case LEFT => n == Coordinate(h.x - 1, h.y)
      case RIGHT => n == Coordinate(h.x + 1, h.y)
    ensures Adjacent(NextHead(s), s.snake[0])
  {
    InsideNoWrap(s.snake[0], s.xAxisGridSize, s.yAxisGridSize);
    HeadMovesOneCell(s);
  }

  /** A tick ends the game exactly when the new head hits the snake as it is
      before the move, or leaves the interior; then nothing but the flag changes. */
  lemma CollisionEndsGame(s: SnakeGameState, newFood: Coordinate)
    requires !s.isGameOver && |s.snake| > 0
    ensures UpdateGame(s, newFood).Ok?
    ensures UpdateGame(s, newFood).value.isGameOver <==> Collides(s, NextHead(s))
    ensures Collides(s, NextHead(s)) ==> UpdateGame(s, newFood).value == s.(isGameOver := true)
  {
  }

  /** Moving into the cell the tail occupies is a collision, even on a tick
      where the tail would move away. */
  lemma TailCellIsCollision(s: SnakeGameState, newFood: Coordinate)
    requires !s.isGameOver && |s.snake| > 0
    requires NextHead(s) == s.snake[|s.snake| - 1]
    ensures UpdateGame(s, newFood) == Ok(s.(isGameOver := true))
  {
  }

  /** A move that misses the food shifts the snake: new head, old body minus
      its last cell; length and food stay. */
  lemma ShiftWithoutFood(s: SnakeGameState, newFood: Coordinate)
    requires !s.isGameOver && |s.snake| > 0 && !Collides(s, NextHead(s))
    requires NextHead(s) != s.food
    ensures var r := UpdateGame(s, newFood).value;
      r == s.(snake := [NextHead(s)] + s.snake[..|s.snake| - 1]) &&
      |r.snake| == |s.snake| && r.food == s.food && !r.isGameOver
  {
  }

  /** A move onto the food grows the snake by the new head and takes the
      generated food; direction, phase and the flag stay. */
  lemma GrowOnFood(s: SnakeGameState, newFood: Coordinate)
    requires !s.isGameOver && |s.snake| > 0 && !Collides(s, NextHead(s))
    requires NextHead(s) == s.food
    ensures var r := UpdateGame(s, newFood).value;
      r == s.(snake := [NextHead(s)] + s.snake, food := newFood) &&
      |r.snake| == |s.snake| + 1 && Score(r) == Score(s) + 1
  {
  }

  /** A tick changes the length by 0 or +1, and by +1 exactly when the
      running game's new head reaches the food. */
  lemma LengthStep(s: SnakeGameState, newFood: Coordinate)
    requires UpdateGame(s, newFood).Ok?
    ensures var r := UpdateGame(s, newFood).value;
      && (|r.snake| == |s.snake| || |r.snake| == |s.snake| + 1)
      && (|r.snake| == |s.snake| + 1 <==>
            !s.isGameOver && !Collides(s, NextHead(s)) && NextHead(s) == s.food)
      && (|r.snake| == |s.snake| ==> r.food == s.food)
  {
  }

  /** A cell inside the board is never at the edge of the 32-bit range. */
  lemma InsideNoWrap(c: Coordinate, w: Int32, h: Int32)
    requires IsWithinBounds(c, w, h)
    ensures MinInt32 < c.x < MaxInt32 && MinInt32 < c.y < MaxInt32
  {
  }

  /** A tick keeps the snake a non-empty chain of distinct, side-by-side
      interior cells. */
  lemma TickPreservesWellFormed(s: SnakeGameState, newFood: Coordinate)
    requires WellFormed(s)
    ensures UpdateGame(s, newFood).Ok? && WellFormed(UpdateGame(s, newFood).value)
  {
  }

  // ---------------------------------------------------------------------
  // Taps

  /** A tap turns the snake a quarter turn: never onto its own axis, so never
      straight back. */
  lemma TapNeverReverses(s: SnakeGameState, tapX: Int32, tapY: Int32)
    requires SnakeEngine.UpdateDirection(s, tapX, tapY).Ok? && !s.isGameOver
    ensures SnakeEngine.UpdateDirection(s, tapX, tapY).value.direction != Opposite(s.direction)
    ensures SnakeEngine.UpdateDirection(s, tapX, tapY).value.direction != s.direction
  {
  }

  /** Two taps before the next tick can still reverse the heading: an upward
      snake tapped left of its head and then below it heads down. */
  lemma TwoTapsCanReverse(s: SnakeGameState)
    requires !s.isGameOver && |s.snake| > 0 && s.direction == UP
    requires s.snake[0].x > MinInt32 && s.snake[0].y < MaxInt32
    ensures var h := s.snake[0];
      var once := SnakeEngine.UpdateDirection(s, h.x - 1, h.y).value;
      SnakeEngine.UpdateDirection(once, h.x, h.y + 1).value.direction == Opposite(s.direction)
  {
  }

  // ---------------------------------------------------------------------
  // The tick loop

  /** Ticks never change the phase, the direction or the board, so the loop
      runs until it is out of ticks or a tick throws. */
  lemma {:induction false} LoopKeepsPhase(s: SnakeGameState, foods: seq<Coordinate>)
    ensures var t := RunLoop(s, foods);
      t.final.gameState == s.gameState && t.final.direction == s.direction &&
      t.final.xAxisGridSize == s.xAxisGridSize && t.final.yAxisGridSize == s.yAxisGridSize
    ensures s.gameState == STARTED && !RunLoop(s, foods).crashed ==> |RunLoop(s, foods).delays| == |foods|
    decreases |foods|
  {
    if |foods| > 0 && s.gameState == STARTED {
      var r := UpdateGame(s, foods[0]);
      if r.Ok? {
        LoopKeepsPhase(r.value, foods[1..]);
      }
    }
  }

  /** Over the loop the snake never shrinks and grows by at most one cell per tick. */
  lemma {:induction false} LoopLengthBounds(s: SnakeGameState, foods: seq<Coordinate>)
    ensures var t := RunLoop(s, foods);
      |s.snake| <= |t.final.snake| <= |s.snake| + |t.delays|
    decreases |foods|
  {
    if |foods| > 0 && s.gameState == STARTED {
      var r := UpdateGame(s, foods[0]);
      if r.Ok? {
        LengthStep(s, foods[0]);
        LoopLengthBounds(r.value, foods[1..]);
      }
    }
  }

  /** The loop never slows down: every delay is at most the one before it.
      (An empty snake waits 100 ms and then throws, or, when the game is
      over, keeps waiting 100 ms.) */
  lemma {:induction false} LoopDelaysNonIncreasing(s: SnakeGameState, foods: seq<Coordinate>)
    ensures forall i :: 0 <= i < |RunLoop(s, foods).delays| ==>
      RunLoop(s, foods).delays[i] <= DelayMillis(|s.snake|)
    ensures forall i, j :: 0 <= i < j < |RunLoop(s, foods).delays| ==>
      RunLoop(s, foods).delays[j] <= RunLoop(s, foods).delays[i]
    decreases |foods|
  {
    if |foods| > 0 && s.gameState == STARTED {
      var r := UpdateGame(s, foods[0]);
      if r.Ok? {
        var next := r.value;
        LengthStep(s, foods[0]);
        var rest := RunLoop(next, foods[1..]);
        LoopDelaysNonIncreasing(next, foods[1..]);
        assert forall k :: 0 <= k < |rest.delays| ==> rest.delays[k] <= DelayMillis(|next.snake|);
        var t := RunLoop(s, foods);
        var d := DelayMillis(|s.snake|);
        assert t.delays == [d] + rest.delays;
        assert t.delays[0] == d;
        assert DelayMillis(|next.snake|) <= d;
        forall i | 0 <= i < |t.delays| ensures t.delays[i] <= d {
          if i > 0 { assert t.delays[i] == rest.delays[i - 1]; }
        }
        forall i, j | 0 <= i < j < |t.delays| ensures t.delays[j] <= t.delays[i] {
          assert t.delays[j] == rest.delays[j - 1];
          if i > 0 { assert t.delays[i] == rest.delays[i - 1]; }
        }
      }
    }
  }

  /** The loop keeps the snake well formed, however many ticks run. */
  lemma {:induction false} LoopPreservesWellFormed(s: SnakeGameState, foods: seq<Coordinate>)
    requires WellFormed(s)
    ensures WellFormed(RunLoop(s, foods).final) && !RunLoop(s, foods).crashed
    decreases |foods|
  {
    if |foods| > 0 && s.gameState == STARTED {
      TickPreservesWellFormed(s, foods[0]);
      LoopPreservesWellFormed(UpdateGame(s, foods[0]).value, foods[1..]);
    }
  }

  // ---------------------------------------------------------------------
  // Worked runs

  /** A one-cell snake three cells left of the food, heading right: after
      three ticks the head is on the old food, the snake has two cells and
      the food is the generated one. */
  lemma EatAfterThreeTicks(w: Int32, h: Int32, generated: Coordinate)
    requires w == 20 && h == 30
    ensures var s := SnakeGameState([Coordinate(5, 5)], Coordinate(8, 5), RIGHT, STARTED, false, w, h);
      var t := RunLoop(s, [generated, generated, generated]);
      t.final.snake == [Coordinate(8, 5), Coordinate(7, 5)] && t.final.food == generated &&
      Score(t.final) == 1 && t.delays == [120, 120, 120] && !t.crashed
  {
    var s := SnakeGameState([Coordinate(5, 5)], Coordinate(8, 5), RIGHT, STARTED, false, w, h);
    var s1 := s.(snake := [Coordinate(6, 5)]);
    var s2 := s.(snake := [Coordinate(7, 5)]);
    var s3 := s.(snake := [Coordinate(8, 5), Coordinate(7, 5)], food := generated);
    var g := [generated, generated, generated];
    assert UpdateGame(s, generated) == Ok(s1);
    assert UpdateGame(s1, generated) == Ok(s2);
    assert [Coordinate(8, 5)] + s2.snake == s3.snake;
    assert UpdateGame(s2, generated) == Ok(s3);
    assert RunLoop(s3, g[3..]) == LoopTrace(s3, [], false);
    assert RunLoop(s2, g[2..]) == LoopTrace(s3, [120], false);
    assert RunLoop(s1, g[1..]) == LoopTrace(s3, [120, 120], false);
  }

  /** A snake at the left edge of the interior, heading left: one tick reaches
      x = 1, the next would reach the border and ends the game, leaving the
      snake and food where they were. */
  lemma WallEndsGame(w: Int32, h: Int32, food: Coordinate)
    requires w == 20 && h == 30 && food == Coordinate(10, 10)
    ensures var s := SnakeGameState([Coordinate(2, 1)], food, LEFT, STARTED, false, w, h);
      var t := RunLoop(s, [food, food]);
      t.final == s.(snake := [Coordinate(1, 1)], isGameOver := true) && !t.crashed
  {
    var s := SnakeGameState([Coordinate(2, 1)], food, LEFT, STARTED, false, w, h);
    var s1 := s.(snake := [Coordinate(1, 1)]);
    assert UpdateGame(s, food) == Ok(s1);
    var over := s1.(isGameOver := true);
    assert UpdateGame(s1, food) == Ok(over);
    assert RunLoop(over, [food, food][2..]) == LoopTrace(over, [], false);
    assert RunLoop(s1, [food, food][1..]) == LoopTrace(over, [120], false);
  }
}
