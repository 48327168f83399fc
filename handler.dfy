/** The request-level decisions of the service (handler.go): which checks a
    request passes, in which order, and which status code and message each
    outcome is answered with. Reading the query string and the JSON body
    are inputs here (`dims`, `body`); the answer is a `Response` value. */
module Handler {
  import opened Types
  import opened Game

  const StatusOK := 200
  const StatusBadRequest := 400
  const StatusNotFound := 404
  const StatusTeapot := 418
  const StatusInternalServerError := 500

  /** The error messages (const.go), one constructor per message constant.
      OUT_OF_BOUNDS and SNAKE_OUT_OF_BOUNDS have the same text ("snake is out
      of bounds"), so `MoveRejected(OutOfBounds)` and `SnakeOutOfBounds`
      reach the caller as the same message and differ only in the status
      code that accompanies them (418 and 500). */
  datatype Message =
    | MoveRejected(error: MoveError)
    | FruitNotFound
    | SnakeNotMoving
    | InvalidBoardDimensions
    | InvalidBodyRequest
    | SnakeOutOfBounds
    | FruitOutOfBounds
    | InvalidNumber
    | InvalidGameId

  /** What a handler writes: a state as JSON, an error object, or nothing
      (when the handler panicked). */
  datatype Response =
    | StateReply(code: int, state: State)
    | ErrorReply(code: int, message: Message)
    | NoReply

  /** Only upper bounds are checked: a fruit at negative coordinates passes. */
  predicate IsFruitWithinBoard(s: State)
    ensures OnBoard(s.fruit.x, s.fruit.y, s.width, s.height) ==> IsFruitWithinBoard(s)
  {
    s.fruit.x < s.width && s.fruit.y < s.height
  }

  /** Only upper bounds are checked: a snake at negative coordinates passes. */
  predicate IsSnakeWithinBoard(s: State)
    ensures OnBoard(s.snake.x, s.snake.y, s.width, s.height) ==> IsSnakeWithinBoard(s)
  {
    s.snake.x < s.width && s.snake.y < s.height
  }

  /** There is at least one tick to replay. */
  predicate IsSnakeMoving(rb: RequestBody)
    ensures IsSnakeMoving(rb) <==> rb.ticks != []
  {
    |rb.ticks| > 0
  }

  lemma SnakeMovingExamples(s: State)
    ensures IsSnakeMoving(RequestBody(s, [Tick(1, 0)]))
    ensures !IsSnakeMoving(RequestBody(s, []))
  {
  }

  /** `\d` in Go's RE2 syntax: an ASCII digit. */
  predicate IsDigit(c: char)
  {
    '0' <= c <= '9'
  }

  /** Every character is a digit, checked from the front as `\d+` consumes them. */
  predicate AllDigits(s: string)
  {
    s == [] || (IsDigit(s[0]) && AllDigits(s[1..]))
  }

  /** `^\d+$`: one or more digits and nothing else. */
  predicate IsUnixNanoTimestamp(gameId: string)
  {
    |gameId| > 0 && AllDigits(gameId)
  }

  lemma {:induction false} AllDigitsEverywhere(s: string)
    ensures AllDigits(s) <==> forall i :: 0 <= i < |s| ==> IsDigit(s[i])
  {
    if s != [] {
      AllDigitsEverywhere(s[1..]);
      assert forall i :: 1 <= i < |s| ==> s[i] == s[1..][i - 1];
    }
  }

  /** A game identifier is accepted exactly when it is a non-empty string
      of ASCII digits. */
  lemma UnixNanoTimestampIsDigitString(gameId: string)
    ensures IsUnixNanoTimestamp(gameId) <==>
              |gameId| > 0 && forall i :: 0 <= i < |gameId| ==> '0' <= gameId[i] <= '9'
  {
    AllDigitsEverywhere(gameId);
  }

  /** An identifier `getNewGame` makes from the clock is accepted back
      exactly when the clock reading is not negative. */
  lemma NewGameIdAccepted(unixNano: Int64)
    ensures IsUnixNanoTimestamp(FormatInt(unixNano)) <==> unixNano >= 0
  {
    var s := FormatInt(unixNano);
    AllDigitsEverywhere(s);
    if unixNano < 0 {
      assert !IsDigit(s[0]);
    }
  }

  lemma GameIdExamples()
    ensures IsUnixNanoTimestamp("111111")
    ensures IsUnixNanoTimestamp("123")
    ensures !IsUnixNanoTimestamp("SELECT * FROM games;")
    ensures !IsUnixNanoTimestamp("<script>alert('XSS')</script>")
    ensures !IsUnixNanoTimestamp("")
    ensures !IsUnixNanoTimestamp("12a")
  {
    assert !AllDigits("a");
    assert !AllDigits("2a");
  }

  lemma BoardChecksExamples()
    ensures IsFruitWithinBoard(State("", 10, 10, 0, Fruit(5, 5), Snake(0, 0, 0, 0)))
    ensures !IsFruitWithinBoard(State("", 10, 10, 0, Fruit(11, 11), Snake(0, 0, 0, 0)))
    ensures IsFruitWithinBoard(State("", 10, 10, 0, Fruit(-1, -1), Snake(0, 0, 0, 0)))
    ensures IsSnakeWithinBoard(State("", 10, 10, 0, Fruit(0, 0), Snake(5, 5, 0, 0)))
    ensures !IsSnakeWithinBoard(State("", 10, 10, 0, Fruit(0, 0), Snake(11, 11, 0, 0)))
    ensures IsSnakeWithinBoard(State("", 10, 10, 0, Fruit(0, 0), Snake(-1, -1, 0, 0)))
  {
  }

  /** A malformed move is a bad request; a reversal, a diagonal or leaving
      the board is answered with 418. */
  function HandlePlayError(err: MoveError): (resp: Response)
    ensures resp.ErrorReply? && resp.message == MoveRejected(err)
    ensures resp.code == StatusBadRequest <==> err == InvalidMove
    ensures resp.code == StatusTeapot <==> err != InvalidMove
  {
    match err
    case InvalidMove => ErrorReply(StatusBadRequest, MoveRejected(InvalidMove))
    case ReverseMove => ErrorReply(StatusTeapot, MoveRejected(ReverseMove))
    case DiagonalMove => ErrorReply(StatusTeapot, MoveRejected(DiagonalMove))
    case OutOfBounds => ErrorReply(StatusTeapot, MoveRejected(OutOfBounds))
  }

  /** `/new`: `dims` is what reading the `w` and `h` query parameters gave
      (None when one is not a number), `unixNano` the clock. The two
      internal-fault branches cannot be taken. */
  method NewHandler(dims: Option<(Int64, Int64)>, unixNano: Int64) returns (resp: Response)
    ensures dims.None? ==> resp == ErrorReply(StatusBadRequest, InvalidNumber)
    ensures dims.Some? && !IsBoardDimensionValid(dims.value.0, dims.value.1) ==>
              resp == ErrorReply(StatusBadRequest, InvalidBoardDimensions)
    ensures dims.Some? && IsBoardDimensionValid(dims.value.0, dims.value.1) ==>
              && resp.StateReply? && resp.code == StatusOK
              && resp.state.gameId == FormatInt(unixNano)
              && IsNewGame(resp.state, dims.value.0, dims.value.1)
  {
    if dims.None? {
      return ErrorReply(StatusBadRequest, InvalidNumber);
    }
    var (boardWidth, boardHeight) := dims.value;

    if !IsBoardDimensionValid(boardWidth, boardHeight) {
      return ErrorReply(StatusBadRequest, InvalidBoardDimensions);
    }

    var state := GetNewGame(boardWidth, boardHeight, unixNano);

    if !IsFruitWithinBoard(state) {
      return ErrorReply(StatusInternalServerError, FruitOutOfBounds);
    }

    if !IsSnakeWithinBoard(state) {
      return ErrorReply(StatusInternalServerError, SnakeOutOfBounds);
    }

    return StateReply(StatusOK, state);
  }

  /** After a replay with at least one tick and no violation, the snake is
      on the board, so the snake check of `validateHandler` always passes. */
  lemma SnakeOnBoardAfterLegalReplay(rb: RequestBody)
    requires IsSnakeMoving(rb)
    requires Replay(rb.state, rb.ticks).err.None?
    ensures IsSnakeWithinBoard(rb.state.(snake := Replay(rb.state, rb.ticks).snake))
  {
    ReplayWithoutError(rb.state, rb.ticks);
  }

  /** `/validate`: `body` is the decoded JSON request (None when it does not
      decode). The checks run in order: game identifier, at least one tick,
      the replay (whose violation is answered by `HandlePlayError`, dropping
      any score it gained), fruit and snake on the board, and finally 200
      with the new state when the fruit was eaten, 404 otherwise. */
  method ValidateHandler(body: Option<RequestBody>) returns (resp: Response)
    ensures body.None? ==> resp == ErrorReply(StatusBadRequest, InvalidBodyRequest)
    ensures body.Some? ==>
              var rb := body.value;
              var p := Replay(rb.state, rb.ticks);
              if !IsUnixNanoTimestamp(rb.state.gameId) then resp == ErrorReply(StatusBadRequest, InvalidGameId)
              else if !IsSnakeMoving(rb) then resp == ErrorReply(StatusBadRequest, SnakeNotMoving)
              else if p.fruitFound && !(rb.state.width > 0 && rb.state.height > 0) then resp == NoReply
              else if p.err.Some? then resp == HandlePlayError(p.err.value)
              else if !p.fruitFound && !IsFruitWithinBoard(rb.state) then
                resp == ErrorReply(StatusInternalServerError, FruitOutOfBounds)
              else if p.fruitFound then
                && resp.StateReply? && resp.code == StatusOK
                && resp.state.gameId == rb.state.gameId
                && resp.state.width == rb.state.width && resp.state.height == rb.state.height
                && resp.state.score == Add64(rb.state.score, 1)
                && resp.state.snake == p.snake
                && OnBoard(resp.state.fruit.x, resp.state.fruit.y, rb.state.width, rb.state.height)
              else resp == ErrorReply(StatusNotFound, FruitNotFound)
  {
    if body.None? {
      return ErrorReply(StatusBadRequest, InvalidBodyRequest);
    }
    var rb := body.value;

    if !IsUnixNanoTimestamp(rb.state.gameId) {
      return ErrorReply(StatusBadRequest, InvalidGameId);
    }

    if !IsSnakeMoving(rb) {
      return ErrorReply(StatusBadRequest, SnakeNotMoving);
    }

    var result := Play(rb);
    if result.Panicked? {
      return NoReply;
    }
    var fruitFound, err := result.fruitFound, result.err;
    var played := result.rb;
    if err.Some? {
      return HandlePlayError(err.value);
    }

    if !IsFruitWithinBoard(played.state) {
      return ErrorReply(StatusInternalServerError, FruitOutOfBounds);
    }

    SnakeOnBoardAfterLegalReplay(rb);
    if !IsSnakeWithinBoard(played.state) {
      return ErrorReply(StatusInternalServerError, SnakeOutOfBounds);
    }

    if fruitFound {
      return StateReply(StatusOK, played.state);
    }

    return ErrorReply(StatusNotFound, FruitNotFound);
  }
}
