/** The snake-game rule engine (game.go): creating a board, the four move
    rules, and replaying a request's ticks against its state.

    The replay loop of `Play` is specified by the function `Replay`, which
    consumes the ticks one `Step` at a time and stops at the first rule
    violation; the lemmas below state what a replay reaches. */
module Game {
  import opened Types

  const InitialGameScore: Int64 := 0
  const InitialVelocityX: Int64 := 1
  const WidthStart: Int64 := 2
  const HeightStart: Int64 := 2

  /** The per-component velocities a tick may carry. */
  const AvailableMoves: seq<Int64> := [-1, 0, 1]

  /** The cell (x, y) lies on a width-by-height board. */
  predicate OnBoard(x: int, y: int, width: int, height: int)
  {
    0 <= x < width && 0 <= y < height
  }

  // ---------------------------------------------------------------------------
  // Board creation
  // ---------------------------------------------------------------------------

  /** The snake starts in the origin cell, moving along X only. */
  function InitializeSnake(velX: Int64): (s: Snake)
    ensures s.x == 0 && s.y == 0 && s.velY == 0
    ensures s.velX == velX
  {
    Snake(0, 0, velX, 0)
  }

  /** `rand.Intn(n)`: some integer in [0, n); Go panics when n <= 0. */
  method RandIntn(n: Int64) returns (r: Int64)
    requires n > 0
    ensures 0 <= r < n
  {
    r :| 0 <= r < n;
  }

  /** A random fruit cell on the board. The snake is passed but not used:
      nothing keeps the fruit off the snake's cell. */
  method GenerateFruitPosition(boardWidth: Int64, boardHeight: Int64, snake: Snake) returns (f: Fruit)
    requires boardWidth > 0 && boardHeight > 0
    ensures OnBoard(f.x, f.y, boardWidth, boardHeight)
  {
    var fruitX := RandIntn(boardWidth);
    var fruitY := RandIntn(boardHeight);
    f := Fruit(fruitX, fruitY);
  }

  function CreateState(gameId: string, width: Int64, height: Int64, score: Int64, fruit: Fruit, snake: Snake): (s: State)
    ensures s.gameId == gameId && s.width == width && s.height == height
    ensures s.score == score && s.fruit == fruit && s.snake == snake
  {
    State(gameId, width, height, score, fruit, snake)
  }

  /** A board is playable when both sides exceed the minimum of 2 cells. */
  predicate IsBoardDimensionValid(boardWidth: Int64, boardHeight: Int64)
    ensures IsBoardDimensionValid(boardWidth, boardHeight) <==> boardWidth > 2 && boardHeight > 2
  {
    boardWidth > WidthStart && boardHeight > HeightStart
  }

  /** The digit of `d` as a character. */
  function DigitChar(d: nat): (c: char)
    requires d < 10
    ensures '0' <= c <= '9'
    ensures DigitValue(c) == d
  {
    "0123456789"[d]
  }

  /** The value of a digit character. */
  function DigitValue(c: char): int
  {
    c as int - '0' as int
  }

  /** The number a string of digits denotes, most significant digit first. */
  function NumeralValue(s: string): int
    decreases |s|
  {
    if s == [] then 0 else NumeralValue(s[..|s| - 1]) * 10 + DigitValue(s[|s| - 1])
  }

  /** The decimal numeral of `n`, most significant digit first, without leading zeros. */
  function Decimal(n: nat): (s: string)
    ensures |s| > 0
    ensures forall i :: 0 <= i < |s| ==> '0' <= s[i] <= '9'
    decreases n
  {
    if n < 10 then [DigitChar(n)] else Decimal(n / 10) + [DigitChar(n % 10)]
  }

  /** `fmt.Sprint` of an integer: its decimal numeral, with a minus sign when negative. */
  function FormatInt(n: Int64): (s: string)
    ensures |s| > 0
    ensures (s[0] == '-') <==> n < 0
    ensures forall i :: 0 < i < |s| ==> '0' <= s[i] <= '9'
  {
    if n < 0 then "-" + Decimal(-(n as int)) else Decimal(n)
  }

  /** The numeral denotes the number it was printed from. */
  lemma {:induction false} DecimalValue(n: nat)
    ensures NumeralValue(Decimal(n)) == n
    decreases n
  {
    var s := Decimal(n);
    if n >= 10 {
      DecimalValue(n / 10);
      assert s[..|s| - 1] == Decimal(n / 10);
    } else {
      assert s[..|s| - 1] == [];
    }
  }

  /** Distinct clock readings give distinct game identifiers. */
  lemma FormatIntInjective(a: Int64, b: Int64)
    requires FormatInt(a) == FormatInt(b)
    ensures a == b
  {
    var s := FormatInt(a);
    if a < 0 {
      assert s[0] == '-';
      NegativeValue(a);
      NegativeValue(b);
    } else {
      assert s[0] != '-';
      DecimalValue(a);
      DecimalValue(b);
    }
  }

  /** A negative reading is recovered from the digits after the sign. */
  lemma NegativeValue(n: Int64)
    requires n < 0
    ensures NumeralValue(FormatInt(n)[1..]) == -(n as int)
  {
    var m: nat := -(n as int);
    var d := Decimal(m);
    assert FormatInt(n) == "-" + d;
    assert ("-" + d)[1..] == d;
    DecimalValue(m);
  }

  /** What a freshly created game looks like, apart from its identifier. */
  predicate IsNewGame(s: State, boardWidth: Int64, boardHeight: Int64)
  {
    && s.width == boardWidth && s.height == boardHeight
    && s.score == 0
    && s.snake == Snake(0, 0, 1, 0)
    && OnBoard(s.fruit.x, s.fruit.y, boardWidth, boardHeight)
  }

  /** A new game: its identifier is the clock reading `unixNano` in decimal,
      the snake is at the origin moving right, the score is zero and the
      fruit is somewhere on the board. */
  method GetNewGame(boardWidth: Int64, boardHeight: Int64, unixNano: Int64) returns (s: State)
    requires boardWidth > 0 && boardHeight > 0
    ensures s.gameId == FormatInt(unixNano)
    ensures IsNewGame(s, boardWidth, boardHeight)
  {
    var gameId := FormatInt(unixNano);
    var snake := InitializeSnake(InitialVelocityX);
    var fruit := GenerateFruitPosition(boardWidth, boardHeight, snake);
    s := CreateState(gameId, boardWidth, boardHeight, InitialGameScore, fruit, snake);
  }

  // ---------------------------------------------------------------------------
  // Move rules
  // ---------------------------------------------------------------------------

  /** A velocity component moves at most one cell. */
  predicate MagnitudeOk(v: int)
  {
    -1 <= v <= 1
  }

  /** Searches `AvailableMoves` for `target`. */
  method IsMoveValid(target: Int64) returns (valid: bool)
    ensures valid <==> MagnitudeOk(target)
  {
    for i := 0 to |AvailableMoves|
      invariant forall j :: 0 <= j < i ==> AvailableMoves[j] != target
    {
      if AvailableMoves[i] == target {
        return true;
      }
    }
    assert AvailableMoves[0] != target && AvailableMoves[1] != target && AvailableMoves[2] != target;
    return false;
  }

  /** Some non-zero component of the tick is the (Go) negation of the
      previous velocity's component on the same axis. */
  predicate IsReverseMove(previousSnakeVelX: Int64, tickX: Int64, previousSnakeVelY: Int64, tickY: Int64)
  {
    (Neg64(previousSnakeVelX) == tickX && tickX != 0) || (Neg64(previousSnakeVelY) == tickY && tickY != 0)
  }

  /** The source's literal diagonal test: the two components are equal. */
  predicate IsDiagonalMove(tickX: Int64, tickY: Int64)
  {
    tickX == tickY
  }

  /** Despite its name, true when the cell is OFF the board. */
  predicate IsWithinBoundaries(snakeX: Int64, snakeY: Int64, width: Int64, height: Int64)
    ensures IsWithinBoundaries(snakeX, snakeY, width, height) <==> !OnBoard(snakeX, snakeY, width, height)
  {
    snakeX < 0 || snakeX >= width || snakeY < 0 || snakeY >= height
  }

  /** The first rule the tick breaks against the (already moved) snake of
      `st`, tested in the source's order, or None when it breaks none. */
  function MoveVerdict(t: Tick, st: State): (r: Option<MoveError>)
  {
    if !MagnitudeOk(t.velX) || !MagnitudeOk(t.velY) then Some(InvalidMove)
    else if IsReverseMove(st.snake.velX, t.velX, st.snake.velY, t.velY) then Some(ReverseMove)
    else if IsDiagonalMove(t.velX, t.velY) then Some(DiagonalMove)
    else if IsWithinBoundaries(st.snake.x, st.snake.y, st.width, st.height) then Some(OutOfBounds)
    else None
  }

  method ValidateMove(t: Tick, st: State) returns (err: Option<MoveError>)
    ensures err == MoveVerdict(t, st)
  {
    var validX := IsMoveValid(t.velX);
    var validY := IsMoveValid(t.velY);
    if !validX || !validY {
      return Some(InvalidMove);
    }
    if IsReverseMove(st.snake.velX, t.velX, st.snake.velY, t.velY) {
      return Some(ReverseMove);
    }
    if IsDiagonalMove(t.velX, t.velY) {
      return Some(DiagonalMove);
    }
    if IsWithinBoundaries(st.snake.x, st.snake.y, st.width, st.height) {
      return Some(OutOfBounds);
    }
    return None;
  }

  /** Every rule the tick breaks, regardless of order. */
  function Violations(t: Tick, st: State): set<MoveError>
  {
    (if !MagnitudeOk(t.velX) || !MagnitudeOk(t.velY) then {InvalidMove} else {})
    + (if IsReverseMove(st.snake.velX, t.velX, st.snake.velY, t.velY) then {ReverseMove} else {})
    + (if IsDiagonalMove(t.velX, t.velY) then {DiagonalMove} else {})
    + (if IsWithinBoundaries(st.snake.x, st.snake.y, st.width, st.height) then {OutOfBounds} else {})
  }

  /** The position of each rule in the testing order. */
  function Rank(e: MoveError): nat
  {
    match e
    case InvalidMove => 0
    case ReverseMove => 1
    case DiagonalMove => 2
    case OutOfBounds => 3
  }

  lemma MoveVerdictIsFirstViolation(t: Tick, st: State)
    ensures MoveVerdict(t, st) == None <==> Violations(t, st) == {}
    ensures MoveVerdict(t, st).Some? ==>
              && MoveVerdict(t, st).value in Violations(t, st)
              && forall e :: e in Violations(t, st) ==> Rank(MoveVerdict(t, st).value) <= Rank(e)
  {
  }

  lemma MoveValidExamples()
    ensures MagnitudeOk(-1) && MagnitudeOk(0) && MagnitudeOk(1)
    ensures !MagnitudeOk(2) && !MagnitudeOk(-2)
  {
  }

  /** For velocities that move along one axis by one cell, a reversal is
      exactly a tick pointing the opposite way. */
  lemma ReverseMoveOnAxes(prevX: Int64, prevY: Int64, tickX: Int64, tickY: Int64)
    requires (prevX == 0) != (prevY == 0) && MagnitudeOk(prevX) && MagnitudeOk(prevY)
    requires (tickX == 0) != (tickY == 0) && MagnitudeOk(tickX) && MagnitudeOk(tickY)
    ensures IsReverseMove(prevX, tickX, prevY, tickY) <==> tickX == -prevX && tickY == -prevY
  {
  }

  /** A snake at rest (velocity (0, 0)) can never reverse. */
  lemma NoReverseFromRest(tickX: Int64, tickY: Int64)
    ensures !IsReverseMove(0, tickX, 0, tickY)
  {
  }

  lemma ReverseMoveExamples()
    ensures !IsReverseMove(1, 1, 0, 0)
    ensures IsReverseMove(1, -1, 0, 0)
  {
  }

  /** On one-cell ticks the literal test flags (1, 1), (-1, -1) and also
      (0, 0), while the anti-diagonals (1, -1) and (-1, 1) pass. */
  lemma DiagonalMoveOnUnitTicks(tickX: Int64, tickY: Int64)
    requires MagnitudeOk(tickX) && MagnitudeOk(tickY)
    ensures IsDiagonalMove(tickX, tickY) <==> (tickX, tickY) in {(0, 0), (1, 1), (-1, -1)}
  {
  }

  lemma DiagonalMoveExamples()
    ensures IsDiagonalMove(1, 1) && IsDiagonalMove(0, 0) && IsDiagonalMove(-1, -1)
    ensures !IsDiagonalMove(1, 0) && !IsDiagonalMove(1, -1) && !IsDiagonalMove(-1, 1)
  {
  }

  lemma WithinBoundariesExamples()
    ensures !IsWithinBoundaries(5, 5, 10, 10)
    ensures IsWithinBoundaries(-5, -5, 10, 10)
    ensures IsWithinBoundaries(10, 0, 10, 10) && IsWithinBoundaries(0, 10, 10, 10)
  {
  }

  /** A tick that breaks no rule keeps the snake on the board and moves it
      by one cell along one axis, or by one cell along the anti-diagonal. */
  lemma LegalTickShape(t: Tick, st: State)
    requires MoveVerdict(t, st) == None
    ensures OnBoard(st.snake.x, st.snake.y, st.width, st.height)
    ensures (t.velX, t.velY) in {(1, 0), (-1, 0), (0, 1), (0, -1), (1, -1), (-1, 1)}
  {
  }

  // ---------------------------------------------------------------------------
  // Replay
  // ---------------------------------------------------------------------------

  /** The progress of a replay: the snake, whether the fruit has been
      reached, the rule violation that stopped it if any, and how many
      ticks it has applied. */
  datatype Progress = Progress(snake: Snake, fruitFound: bool, err: Option<MoveError>, steps: nat)

  /** The snake stands on the fruit of `st`. */
  predicate AtFruit(st: State, s: Snake)
  {
    s.x == st.fruit.x && s.y == st.fruit.y
  }

  /** The snake after moving by tick `t`, keeping its velocity. */
  function Moved(s: Snake, t: Tick): Snake
  {
    s.(x := Add64(s.x, t.velX), y := Add64(s.y, t.velY))
  }

  /** One iteration of the replay loop: move, test for the fruit, test the
      rules, and commit the tick's velocity only when no rule is broken. */
  function Step(st: State, p: Progress, t: Tick): Progress
  {
    var moved := Moved(p.snake, t);
    var found := p.fruitFound || AtFruit(st, moved);
    var verdict := MoveVerdict(t, st.(snake := moved));
    if verdict.Some? then Progress(moved, found, verdict, p.steps + 1)
    else Progress(moved.(velX := t.velX, velY := t.velY), found, None, p.steps + 1)
  }

  /** Replaying `ticks` in order against `st`, stopping at the first violation. */
  function Replay(st: State, ticks: seq<Tick>): (p: Progress)
    ensures p.steps <= |ticks|
    ensures p.err.None? ==> p.steps == |ticks|
    decreases |ticks|
  {
    if ticks == [] then Progress(st.snake, false, None, 0)
    else
      var p := Replay(st, ticks[..|ticks| - 1]);
      if p.err.Some? then p else Step(st, p, ticks[|ticks| - 1])
  }

  function SumX(ticks: seq<Tick>): int
  {
    if ticks == [] then 0 else SumX(ticks[..|ticks| - 1]) + ticks[|ticks| - 1].velX
  }

  function SumY(ticks: seq<Tick>): int
  {
    if ticks == [] then 0 else SumY(ticks[..|ticks| - 1]) + ticks[|ticks| - 1].velY
  }

  /** Once a replay has stopped, further ticks change nothing. */
  lemma {:induction false} ReplayStopsAtError(st: State, ticks: seq<Tick>, later: seq<Tick>)
    requires Replay(st, ticks).err.Some?
    ensures Replay(st, ticks + later) == Replay(st, ticks)
    decreases |later|
  {
    if later == [] {
      assert ticks + later == ticks;
    } else {
      var all := ticks + later;
      var front := later[..|later| - 1];
      assert all[..|all| - 1] == ticks + front;
      ReplayStopsAtError(st, ticks, front);
    }
  }

  /** Replaying one more tick: nothing happens after a violation, otherwise one more `Step`. */
  lemma ReplayNext(st: State, ticks: seq<Tick>, i: nat)
    requires i < |ticks|
    ensures Replay(st, ticks[..i + 1]) ==
              var p := Replay(st, ticks[..i]);
              if p.err.Some? then p else Step(st, p, ticks[i])
  {
    assert ticks[..i + 1][..i] == ticks[..i];
  }

  /** A replay that stops does so right after the tick that breaks a rule:
      the ticks before it replay without violation. */
  lemma {:induction false} ReplayStopsAt(st: State, ticks: seq<Tick>)
    requires Replay(st, ticks).err.Some?
    ensures var k := Replay(st, ticks).steps - 1;
            && 0 <= k < |ticks|
            && Replay(st, ticks[..k]).err.None?
            && Replay(st, ticks) == Step(st, Replay(st, ticks[..k]), ticks[k])
    decreases |ticks|
  {
    var n := |ticks|;
    var front := ticks[..n - 1];
    var p := Replay(st, front);
    if p.err.Some? {
      assert Replay(st, ticks) == p;
      ReplayStopsAt(st, front);
      var k := p.steps - 1;
      assert front[..k] == ticks[..k];
      assert front[k] == ticks[k];
    } else {
      assert Replay(st, ticks) == Step(st, p, ticks[n - 1]);
      assert p.steps == n - 1;
    }
  }

  /** A legal move by at most one cell that lands on the board cannot have
      wrapped around. */
  lemma NoWrapOnBoard(a: Int64, v: Int64, width: Int64)
    requires MagnitudeOk(v)
    requires 0 <= Add64(a, v) < width
    ensures Add64(a, v) == a + v
  {
  }

  /** A replay without violation puts the snake at its start plus the sum
      of all ticks, on the board, moving with the last tick's velocity. */
  lemma {:induction false} ReplayWithoutError(st: State, ticks: seq<Tick>)
    requires Replay(st, ticks).err.None?
    ensures Replay(st, ticks).snake.x == st.snake.x + SumX(ticks)
    ensures Replay(st, ticks).snake.y == st.snake.y + SumY(ticks)
    ensures ticks == [] ==> Replay(st, ticks).snake == st.snake
    ensures ticks != [] ==>
              && Replay(st, ticks).snake.velX == ticks[|ticks| - 1].velX
              && Replay(st, ticks).snake.velY == ticks[|ticks| - 1].velY
              && OnBoard(Replay(st, ticks).snake.x, Replay(st, ticks).snake.y, st.width, st.height)
    decreases |ticks|
  {
    if ticks != [] {
      var n := |ticks|;
      var front := ticks[..n - 1];
      var p := Replay(st, front);
      var t := ticks[n - 1];
      assert p.err.None?;
      ReplayWithoutError(st, front);
      var moved := Moved(p.snake, t);
      assert MoveVerdict(t, st.(snake := moved)) == None;
      NoWrapOnBoard(p.snake.x, t.velX, st.width);
      NoWrapOnBoard(p.snake.y, t.velY, st.height);
    }
  }

  /** A step that breaks a rule moves the snake but keeps its velocity. */
  lemma StepWithError(st: State, p: Progress, t: Tick)
    ensures Step(st, p, t).err.Some? ==>
              && Step(st, p, t).snake == Moved(p.snake, t)
              && Step(st, p, t).err == MoveVerdict(t, st.(snake := Moved(p.snake, t)))
  {
  }

  /** A replay that breaks a rule on tick k (k = steps - 1) leaves the snake
      at its start plus the first k ticks, displaced by tick k as well, and
      reports tick k's verdict against that cell. */
  lemma ReplayWithError(st: State, ticks: seq<Tick>)
    requires Replay(st, ticks).err.Some?
    ensures var p := Replay(st, ticks);
            var k := p.steps - 1;
            && 0 <= k < |ticks|
            && Replay(st, ticks[..k]).err.None?
            && Replay(st, ticks[..k]).snake.x == st.snake.x + SumX(ticks[..k])
            && Replay(st, ticks[..k]).snake.y == st.snake.y + SumY(ticks[..k])
            && p.snake == Moved(Replay(st, ticks[..k]).snake, ticks[k])
            && p.err == MoveVerdict(ticks[k], st.(snake := p.snake))
  {
    ReplayStopsAt(st, ticks);
    var k := Replay(st, ticks).steps - 1;
    PrefixOfLegalReplay(st, ticks[..k], k);
    assert ticks[..k][..k] == ticks[..k];
    StepWithError(st, Replay(st, ticks[..k]), ticks[k]);
  }

  /** ... and keeps the velocity committed by tick k - 1, or the original
      velocity when the very first tick fails. */
  lemma ReplayWithErrorVelocity(st: State, ticks: seq<Tick>)
    requires Replay(st, ticks).err.Some?
    ensures var p := Replay(st, ticks);
            var k := p.steps - 1;
            && (k == 0 ==> p.snake.velX == st.snake.velX && p.snake.velY == st.snake.velY)
            && (k > 0 ==> p.snake.velX == ticks[k - 1].velX && p.snake.velY == ticks[k - 1].velY)
  {
    ReplayStopsAt(st, ticks);
    var k := Replay(st, ticks).steps - 1;
    var before := Replay(st, ticks[..k]);
    StepWithError(st, before, ticks[k]);
    if k > 0 {
      ReplayVelocity(st, ticks[..k]);
      assert ticks[..k][k - 1] == ticks[k - 1];
    } else {
      assert ticks[..k] == [];
    }
  }

  /** After a legal replay of at least one tick, the velocity is the last tick's. */
  lemma ReplayVelocity(st: State, ticks: seq<Tick>)
    requires ticks != [] && Replay(st, ticks).err.None?
    ensures Replay(st, ticks).snake.velX == ticks[|ticks| - 1].velX
    ensures Replay(st, ticks).snake.velY == ticks[|ticks| - 1].velY
  {
    var front := ticks[..|ticks| - 1];
    assert Replay(st, front).err.None?;
  }

  /** Every prefix of a legal replay is legal and ends at the start plus its sum. */
  lemma PrefixOfLegalReplay(st: State, ticks: seq<Tick>, j: nat)
    requires Replay(st, ticks).err.None?
    requires j <= |ticks|
    ensures Replay(st, ticks[..j]).err.None?
    ensures Replay(st, ticks[..j]).snake.x == st.snake.x + SumX(ticks[..j])
    ensures Replay(st, ticks[..j]).snake.y == st.snake.y + SumY(ticks[..j])
  {
    if Replay(st, ticks[..j]).err.Some? {
      assert ticks[..j] + ticks[j..] == ticks;
      ReplayStopsAtError(st, ticks[..j], ticks[j..]);
    }
    ReplayWithoutError(st, ticks[..j]);
  }

  /** The fruit is found exactly when one of the cells the replay reaches,
      the failing tick's cell included, is the fruit's cell. */
  lemma {:induction false} ReplayFruitFound(st: State, ticks: seq<Tick>)
    ensures Replay(st, ticks).fruitFound <==> FruitReached(st, ticks, Replay(st, ticks).steps)
    decreases |ticks|
  {
    if ticks != [] {
      var front := ticks[..|ticks| - 1];
      ReplayFruitFound(st, front);
      FruitReachedOnPrefix(st, ticks, Replay(st, front).steps);
      if Replay(st, front).err.None? {
        FruitReachedLastStep(st, ticks);
      }
    }
  }

  /** Some cell among the first m reached by replaying `ticks` is the fruit's. */
  predicate FruitReached(st: State, ticks: seq<Tick>, m: nat)
  {
    exists j :: 1 <= j <= m && j <= |ticks| && AtFruit(st, Replay(st, ticks[..j]).snake)
  }

  /** Dropping ticks beyond the first m does not change the first m cells reached. */
  lemma FruitReachedOnPrefix(st: State, ticks: seq<Tick>, m: nat)
    requires m < |ticks|
    ensures FruitReached(st, ticks[..|ticks| - 1], m) <==> FruitReached(st, ticks, m)
  {
    var front := ticks[..|ticks| - 1];
    forall j | 1 <= j <= m
      ensures Replay(st, front[..j]) == Replay(st, ticks[..j])
    {
      assert front[..j] == ticks[..j];
    }
    if FruitReached(st, ticks, m) {
      var j :| 1 <= j <= m && j <= |ticks| && AtFruit(st, Replay(st, ticks[..j]).snake);
      assert AtFruit(st, Replay(st, front[..j]).snake);
    }
    if FruitReached(st, front, m) {
      var j :| 1 <= j <= m && j <= |front| && AtFruit(st, Replay(st, front[..j]).snake);
      assert AtFruit(st, Replay(st, ticks[..j]).snake);
    }
  }

  /** When the replay reaches the last tick, that tick's cell is one more reached cell. */
  lemma FruitReachedLastStep(st: State, ticks: seq<Tick>)
    requires ticks != []
    requires Replay(st, ticks[..|ticks| - 1]).err.None?
    ensures Replay(st, ticks).steps == |ticks|
    ensures Replay(st, ticks).fruitFound ==
              (Replay(st, ticks[..|ticks| - 1]).fruitFound || AtFruit(st, Replay(st, ticks).snake))
    ensures FruitReached(st, ticks, |ticks|) <==>
              FruitReached(st, ticks, |ticks| - 1) || AtFruit(st, Replay(st, ticks).snake)
  {
    FruitReachedExtend(st, ticks);
  }

  lemma FruitReachedExtend(st: State, ticks: seq<Tick>)
    requires ticks != []
    ensures FruitReached(st, ticks, |ticks|) <==>
              FruitReached(st, ticks, |ticks| - 1) || AtFruit(st, Replay(st, ticks).snake)
  {
    var n := |ticks|;
    assert ticks[..n] == ticks;
    if FruitReached(st, ticks, n) && !AtFruit(st, Replay(st, ticks).snake) {
      var j :| 1 <= j <= n && j <= n && AtFruit(st, Replay(st, ticks[..j]).snake);
      assert j < n;
    }
  }

  /** Without violation, the fruit is found exactly when the start plus
      the sum of some non-empty prefix of the ticks is the fruit's cell. */
  lemma FruitFoundOnRoute(st: State, ticks: seq<Tick>)
    requires Replay(st, ticks).err.None?
    ensures Replay(st, ticks).fruitFound <==>
              exists j :: 1 <= j <= |ticks| &&
                st.snake.x + SumX(ticks[..j]) == st.fruit.x && st.snake.y + SumY(ticks[..j]) == st.fruit.y
  {
    ReplayFruitFound(st, ticks);
    if Replay(st, ticks).fruitFound {
      var j :| 1 <= j <= |ticks| && AtFruit(st, Replay(st, ticks[..j]).snake);
      PrefixOfLegalReplay(st, ticks, j);
    } else {
      forall j | 1 <= j <= |ticks|
        ensures !(st.snake.x + SumX(ticks[..j]) == st.fruit.x && st.snake.y + SumY(ticks[..j]) == st.fruit.y)
      {
        PrefixOfLegalReplay(st, ticks, j);
      }
    }
  }

  // ---------------------------------------------------------------------------
  // Game update and play
  // ---------------------------------------------------------------------------

  function IncrementScore(rb: RequestBody): (r: RequestBody)
    ensures r.ticks == rb.ticks && r.state.(score := rb.state.score) == rb.state
    ensures rb.state.score < MaxInt64 ==> r.state.score == rb.state.score + 1
    ensures rb.state.score == MaxInt64 ==> r.state.score == MinInt64
  {
    rb.(state := rb.state.(score := Add64(rb.state.score, 1)))
  }

  function UpdateSnake(rb: RequestBody, snakeX: Int64, snakeY: Int64, snakeVelX: Int64, snakeVelY: Int64): (r: RequestBody)
    ensures r.state.snake == Snake(snakeX, snakeY, snakeVelX, snakeVelY)
    ensures r.ticks == rb.ticks && r.state.(snake := rb.state.snake) == rb.state
  {
    rb.(state := rb.state.(snake := Snake(snakeX, snakeY, snakeVelX, snakeVelY)))
  }

  /** After the fruit is eaten: one more point, the snake as it is, and a
      new fruit on the board. */
  method UpdateGame(rb: RequestBody) returns (r: RequestBody)
    requires rb.state.width > 0 && rb.state.height > 0
    ensures r.state.score == Add64(rb.state.score, 1)
    ensures r.state.snake == rb.state.snake
    ensures OnBoard(r.state.fruit.x, r.state.fruit.y, rb.state.width, rb.state.height)
    ensures r.state.gameId == rb.state.gameId && r.state.width == rb.state.width && r.state.height == rb.state.height
    ensures r.ticks == rb.ticks
  {
    r := IncrementScore(rb);
    r := UpdateSnake(r, r.state.snake.x, r.state.snake.y, r.state.snake.velX, r.state.snake.velY);
    var f := GenerateFruitPosition(r.state.width, r.state.height, r.state.snake);
    r := r.(state := r.state.(fruit := f));
  }

  /** What `play` returns, or that it panicked: `rand.Intn` panics when the
      fruit was found on a board whose width or height is not positive. */
  datatype PlayResult = Played(fruitFound: bool, rb: RequestBody, err: Option<MoveError>) | Panicked

  /** The tick loop of `play`: each tick moves the snake, is tested against
      the fruit and the rules, and the loop stops at the first violation.
      The outcome is that of `Replay`; only the snake of the request changes. */
  method RunTicks(rb: RequestBody) returns (cur: RequestBody, fruitFound: bool, err: Option<MoveError>)
    ensures var p := Replay(rb.state, rb.ticks);
            && cur == rb.(state := rb.state.(snake := p.snake))
            && fruitFound == p.fruitFound
            && err == p.err
  {
    cur := rb;
    err := None;
    fruitFound := false;
    var i := 0;
    ghost var applied := 0;
    while i < |rb.ticks|
      invariant 0 <= i <= |rb.ticks|
      invariant err.None? && applied == i
      invariant cur == rb.(state := rb.state.(snake := cur.state.snake))
      invariant Replay(rb.state, rb.ticks[..i]) == Progress(cur.state.snake, fruitFound, None, i)
    {
      var tick := rb.ticks[i];
      ghost var before := Progress(cur.state.snake, fruitFound, None, i);
      ReplayNext(rb.state, rb.ticks, i);
      cur := cur.(state := cur.state.(snake := cur.state.snake.(x := Add64(cur.state.snake.x, tick.velX),
                                                                y := Add64(cur.state.snake.y, tick.velY))));
      if cur.state.snake.x == cur.state.fruit.x && cur.state.snake.y == cur.state.fruit.y {
        fruitFound := true;
      }
      err := ValidateMove(tick, cur.state);
      if err.Some? {
        assert Step(rb.state, before, tick) == Progress(cur.state.snake, fruitFound, err, i + 1);
        assert rb.ticks[..i + 1] + rb.ticks[i + 1..] == rb.ticks;
        ReplayStopsAtError(rb.state, rb.ticks[..i + 1], rb.ticks[i + 1..]);
        applied := i + 1;
        break;
      }
      cur := cur.(state := cur.state.(snake := cur.state.snake.(velX := tick.velX, velY := tick.velY)));
      assert Step(rb.state, before, tick) == Progress(cur.state.snake, fruitFound, None, i + 1);
      i := i + 1;
      applied := i;
    }
    assert i == |rb.ticks| ==> rb.ticks[..i] == rb.ticks;
    assert Replay(rb.state, rb.ticks) == Progress(cur.state.snake, fruitFound, err, applied);
  }

  /** Replays the request's ticks; when the fruit was reached (even by the
      failing tick) the score goes up by one and the fruit moves. */
  method Play(rb: RequestBody) returns (r: PlayResult)
    ensures var p := Replay(rb.state, rb.ticks);
            if p.fruitFound && !(rb.state.width > 0 && rb.state.height > 0) then r == Panicked
            else
              && r.Played?
              && r.fruitFound == p.fruitFound
              && r.err == p.err
              && r.rb.ticks == rb.ticks
              && r.rb.state.snake == p.snake
              && r.rb.state.gameId == rb.state.gameId
              && r.rb.state.width == rb.state.width
              && r.rb.state.height == rb.state.height
              && (p.fruitFound ==>
                    && r.rb.state.score == Add64(rb.state.score, 1)
                    && OnBoard(r.rb.state.fruit.x, r.rb.state.fruit.y, rb.state.width, rb.state.height))
              && (!p.fruitFound ==> r.rb.state.score == rb.state.score && r.rb.state.fruit == rb.state.fruit)
  {
    var cur, fruitFound, err := RunTicks(rb);
    if fruitFound {
      if !(cur.state.width > 0 && cur.state.height > 0) {
        return Panicked;
      }
      cur := UpdateGame(cur);
    }
    return Played(fruitFound, cur, err);
  }
}
