/** The scenarios of the repository's tests (game_test.go, hander_test.go),
    stated against the model. */
module Scenarios {
  import opened Types
  import opened Game
  import opened Handler

  const Board10: State := State("123", 10, 10, 0, Fruit(3, 3), Snake(0, 0, 1, 0))
  const RightThenDown: seq<Tick> :=
    [Tick(1, 0), Tick(1, 0), Tick(1, 0), Tick(0, 1), Tick(0, 1), Tick(0, 1)]

  lemma InitializeSnakeExample()
    ensures InitializeSnake(1).velX == 1
  {
  }

  lemma CreateStateExample()
    ensures var s := CreateState("11", 10, 10, 0, Fruit(2, 3), Snake(5, 5, 0, 0));
            s == State("11", 10, 10, 0, Fruit(2, 3), Snake(5, 5, 0, 0))
  {
  }

  lemma UpdateSnakeExample()
    ensures var rb := RequestBody(State("", 0, 0, 0, Fruit(0, 0), Snake(5, 5, 1, 0)), []);
            UpdateSnake(rb, 6, 5, 1, 0).state.snake == Snake(6, 5, 1, 0)
  {
  }

  lemma IncrementScoreExample()
    ensures IncrementScore(RequestBody(State("", 0, 0, 0, Fruit(0, 0), Snake(0, 0, 0, 0)), [])).state.score == 1
  {
  }

  /** Three steps right then three down from the origin reach the fruit at
      (3, 3) on the last tick, breaking no rule. */
  lemma RightThenDownReplay()
    ensures Replay(Board10, RightThenDown) == Progress(Snake(3, 3, 0, 1), true, None, 6)
  {
    var ts := RightThenDown;
    assert ts[..0] == [];
    assert ts[..1][..0] == ts[..0];
    assert Replay(Board10, ts[..1]) == Progress(Snake(1, 0, 1, 0), false, None, 1);
    assert ts[..2][..1] == ts[..1];
    assert Replay(Board10, ts[..2]) == Progress(Snake(2, 0, 1, 0), false, None, 2);
    assert ts[..3][..2] == ts[..2];
    assert Replay(Board10, ts[..3]) == Progress(Snake(3, 0, 1, 0), false, None, 3);
    assert ts[..4][..3] == ts[..3];
    assert Replay(Board10, ts[..4]) == Progress(Snake(3, 1, 0, 1), false, None, 4);
    assert ts[..5][..4] == ts[..4];
    assert Replay(Board10, ts[..5]) == Progress(Snake(3, 2, 0, 1), false, None, 5);
    assert ts[..6][..5] == ts[..5];
    assert ts[..6] == ts;
  }

  /** The request of the validation test is answered with 200 and one point. */
  method RightThenDownResponse() returns (resp: Response)
    ensures resp.StateReply? && resp.code == StatusOK && resp.state.score == 1
    ensures resp.state.snake == Snake(3, 3, 0, 1)
  {
    RightThenDownReplay();
    assert IsUnixNanoTimestamp("123") by { GameIdExamples(); }
    resp := ValidateHandler(Some(RequestBody(Board10, RightThenDown)));
  }

  /** A reversal on the second tick stops the replay with the reversing
      tick already applied: the snake is back at the origin, still moving
      right, and the score would not change. */
  lemma ReverseOnSecondTick()
    ensures var st := State("1", 10, 10, 0, Fruit(5, 5), Snake(0, 0, 1, 0));
            Replay(st, [Tick(1, 0), Tick(-1, 0)]) == Progress(Snake(0, 0, 1, 0), false, Some(ReverseMove), 2)
  {
    var st := State("1", 10, 10, 0, Fruit(5, 5), Snake(0, 0, 1, 0));
    var ts := [Tick(1, 0), Tick(-1, 0)];
    assert ts[..1][..0] == [];
    assert Replay(st, ts[..1]) == Progress(Snake(1, 0, 1, 0), false, None, 1);
    assert ts[..2][..1] == ts[..1];
    assert ts[..2] == ts;
  }

  /** On any board, a snake on the right edge that is not moving left and
      is sent right leaves the board: the tick is the snake's one step past
      the last column, and only the boundary rule objects to it. */
  lemma RightEdgeOutOfBounds(st: State)
    requires 0 < st.width < MaxInt64
    requires st.snake.x == st.width - 1 && 0 <= st.snake.y < st.height
    requires st.snake.velX != -1
    ensures Replay(st, [Tick(1, 0)]).err == Some(OutOfBounds)
    ensures Replay(st, [Tick(1, 0)]).snake.x == st.width
    ensures Replay(st, [Tick(1, 0)]).snake.y == st.snake.y
  {
    assert [Tick(1, 0)][..0] == [];
  }

  method CorrectDimensionsResponse() returns (resp: Response)
    ensures resp.StateReply? && resp.code == StatusOK && resp.state.width == 10 && resp.state.height == 10
  {
    resp := NewHandler(Some((10, 10)), 1_700_000_000_000_000_000);
  }

  method IncorrectDimensionsResponse() returns (resp: Response)
    ensures resp == ErrorReply(StatusBadRequest, InvalidBoardDimensions)
  {
    resp := NewHandler(Some((-10, -10)), 1_700_000_000_000_000_000);
  }
}
