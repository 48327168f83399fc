# Snake-game rule engine, modelled in Dafny

The service answers two requests. `/new?w=..&h=..` creates a game board.
`/validate` takes a game state and a list of ticks, replays the ticks and
reports the outcome as an HTTP status. This project models the rule engine
behind both. It covers board creation, the four move rules and the tick
replay (`game.go`). It also covers the request predicates and the order of
checks that picks each status code (`handler.go`).

- `types.dfy` (module `Types`): the records of `types.go` and Go's 64-bit
  `int`. Addition (`Add64`) and negation (`Neg64`) wrap around, as in Go.
  The four rule violations form one enumerated type, `MoveError`; the
  source compares message strings instead.
- `game.dfy` (module `Game`): board creation and the move rules. The
  method `Play` replays the ticks with a loop. It is proved equal to the
  function `Replay`, which applies one `Step` per tick and stops at the
  first violation. The lemmas say where a replay leaves the snake, which
  velocity it keeps, when the fruit counts as found, and that ticks after
  a violation are never applied.
- `handler.dfy` (module `Handler`): the board and game-id predicates, the
  mapping from a violation to a status code, and the two handlers as
  methods that return a `Response` value.
- `scenarios.dfy` (module `Scenarios`): the scenarios of the repository's
  tests, stated against the model.

Behaviour kept exactly as the code has it:

- `isDiagonalMove` is the literal test `tickX == tickY`. So (0, 0) is
  rejected as diagonal, and (1, -1) and (-1, 1) are accepted
  (`DiagonalMoveOnUnitTicks`, `LegalTickShape`).
- `isWithinBoundaries` is true when the cell is OFF the board.
- The position is updated before the checks run. A failing tick's
  displacement is therefore part of the state `play` returns: that state
  is not the state before the failing tick, but the state after the
  failing tick's move with the velocity from before it
  (`ReplayWithError`, `ReplayWithErrorVelocity`, `ReverseOnSecondTick`).
- The fruit check runs before the rules. A failing tick that lands on the
  fruit still counts as finding it, and `updateGame` still runs
  (`ReplayFruitFound`, `Play`).
- `validateHandler` never checks the board size. If the fruit is found on
  a board whose width or height is not positive, `rand.Intn` panics inside
  `updateGame` and no reply is written. This is modelled as
  `PlayResult.Panicked` and `Response.NoReply`.
- `isFruitWithinBoard` and `isSnakeWithinBoard` check upper bounds only.
- Randomness: `rand.Intn(n)` is a nondeterministic choice in [0, n)
  (`RandIntn`). The clock reading `time.Now().UnixNano()` is the parameter
  `unixNano`, formatted as `fmt.Sprint` does (`FormatInt`).

## Model

| member | source | states |
|---|---|---|
| `Types.Add64` | game.go:63-64 | Go's `+=` on `int`: the exact sum whenever it fits in 64 bits |
| `Types.Add64IsModular` | game.go:63-64 | the wrapped sum is the 64-bit two's-complement value congruent to the exact sum modulo 2^64 |
| `Types.Neg64` | game.go:125 | Go's unary minus: exact for every value except the most negative one |
| `Types.Neg64IsModular` | game.go:125 | the wrapped negation is congruent to the exact one modulo 2^64, so the most negative value negates to itself |
| `Game.InitializeSnake` | game.go:22-26 | the new snake is at (0, 0) with vertical velocity 0; only its horizontal velocity is given |
| `Game.RandIntn` | game.go:30-31 | a random draw lies in [0, n); it is only defined for n > 0 |
| `Game.GenerateFruitPosition` | game.go:29-38 | the fruit lands on the board, 0 <= X < width and 0 <= Y < height; nothing keeps it off the snake |
| `Game.CreateState` | game.go:41-50 | each field of the state is the corresponding argument |
| `Game.IsBoardDimensionValid` | game.go:53-55 | holds exactly when width > 2 and height > 2 |
| `Game.Decimal` | game.go:11 | a decimal numeral is non-empty and made of digits only |
| `Game.FormatInt` | game.go:11 | the printed clock reading starts with '-' exactly when it is negative; every later character is a digit |
| `Game.DecimalValue` | game.go:11 | the decimal numeral denotes the number it was printed from |
| `Game.NegativeValue` | game.go:11 | the digits after the sign of a negative reading denote its magnitude |
| `Game.FormatIntInjective` | game.go:11 | distinct clock readings give distinct game ids |
| `Game.GetNewGame` | game.go:10-19 | a new game's id is the printed clock reading; the snake is at (0, 0) moving (1, 0); score 0; the given width and height; the fruit on the board |
| `Game.IsMoveValid` | game.go:113-121 | the search of the available moves succeeds exactly when the component is -1, 0 or 1 |
| `Game.MoveValidExamples` | game_test.go:31-41 | -1, 0 and 1 are valid components; 2 and -2 are not |
| `Game.ReverseMoveOnAxes` | game.go:124-126 | `IsReverseMove`: for one-cell velocities along one axis, a reversal is exactly the opposite direction |
| `Game.NoReverseFromRest` | game.go:124-126 | `IsReverseMove`: from velocity (0, 0) no tick is a reversal |
| `Game.ReverseMoveExamples` | game_test.go:43-53 | (1,0) then (1,0) is not a reversal; (1,0) then (-1,0) is one |
| `Game.DiagonalMoveOnUnitTicks` | game.go:129-131 | `IsDiagonalMove`: among one-cell ticks, exactly (0,0), (1,1) and (-1,-1) count as diagonal |
| `Game.DiagonalMoveExamples` | game_test.go:55-65 | (1,1), (0,0) and (-1,-1) are flagged; (1,0), (1,-1) and (-1,1) are not |
| `Game.IsWithinBoundaries` | game.go:134-136 | true exactly when the cell is off the board [0,width) x [0,height) |
| `Game.WithinBoundariesExamples` | game_test.go:67-77 | (5,5) on a 10x10 board is not flagged; (-5,-5), (10,0) and (0,10) are |
| `Game.ValidateMove` | game.go:92-110 | the validator returns `MoveVerdict`, the verdict of the four rules, tested in their fixed order |
| `Game.MoveVerdictIsFirstViolation` | game.go:92-110 | `MoveVerdict`: no error exactly when no rule is broken; otherwise the reported rule is broken and comes first among the broken ones in the order INVALID_MOVE, REVERSE_MOVE, DIAGONAL_MOVE, OUT_OF_BOUNDS |
| `Game.LegalTickShape` | game.go:92-136 | a tick breaking no rule leaves the snake on the board and is one of (±1,0), (0,±1), (1,-1), (-1,1) |
| `Game.Replay` | game.go:62-79 | a replay applies at most all its ticks, and all of them when no rule is broken |
| `Game.ReplayStopsAtError` | game.go:73-75 | once a tick breaks a rule, appending further ticks changes nothing |
| `Game.ReplayNext` | game.go:62-79 | replaying one more tick applies one more `Step` (move, fruit test, rules, velocity), unless the replay already stopped |
| `Game.ReplayStopsAt` | game.go:62-79 | a stopped replay applied k+1 ticks; the first k break no rule, and tick k is the failing step |
| `Game.NoWrapOnBoard` | game.go:63-64 | a one-cell move that lands on the board did not wrap around |
| `Game.ReplayWithoutError` | game.go:62-79 | without a violation the snake ends at its start plus the sum of all ticks, on the board, with the last tick's velocity; with no ticks it is unchanged |
| `Game.StepWithError` | game.go:63-79 | `Step`: a step that breaks a rule still moves the snake but keeps its velocity, and reports the verdict on the moved cell |
| `Game.ReplayWithError` | game.go:62-79 | a violation on tick k leaves the snake at start + sum of the first k ticks, moved by tick k; the reported error is tick k's verdict on that cell |
| `Game.ReplayWithErrorVelocity` | game.go:62-79 | after a violation on tick k the velocity is the one committed by tick k-1, or the original one for k = 0 |
| `Game.ReplayVelocity` | game.go:77-78 | after a legal replay of at least one tick the velocity is the last tick's |
| `Game.PrefixOfLegalReplay` | game.go:62-79 | every prefix of a legal replay is legal and ends at the start plus the sum of that prefix |
| `Game.ReplayFruitFound` | game.go:69-71 | the fruit is found exactly when one of the cells reached, the failing tick's included, is the fruit's cell |
| `Game.FruitFoundOnRoute` | game.go:62-71 | without a violation the fruit is found exactly when the start plus the sum of some non-empty prefix of the ticks is the fruit's cell |
| `Game.IncrementScore` | game.go:147-150 | the score goes up by one (wrapping at the 64-bit maximum); nothing else changes |
| `Game.UpdateSnake` | game.go:153-159 | the snake becomes the given position and velocity; nothing else changes |
| `Game.UpdateGame` | game.go:139-144 | one more point, the snake unchanged, a new fruit on the board; id, size and ticks unchanged; needs a positive board size, as `rand.Intn` panics otherwise |
| `Game.RunTicks` | game.go:62-79 | the tick loop ends with the outcome of `Replay`: its snake, fruit flag and error; nothing but the snake changes |
| `Game.Play` | game.go:58-89 | the result is the replay's snake, fruit flag and error; if the fruit was found, score + 1 and a new fruit on the board (even after an error); otherwise score and fruit unchanged; id, width, height never change; a found fruit on a board with a non-positive side panics |
| `Handler.IsFruitWithinBoard` | handler.go:55-57 | a fruit on the board passes; only upper bounds are checked |
| `Handler.IsSnakeWithinBoard` | handler.go:60-62 | a snake on the board passes; only upper bounds are checked |
| `Handler.BoardChecksExamples` | hander_test.go:63-109 | (5,5) passes and (11,11) fails on a 10x10 board; (-1,-1) passes |
| `Handler.IsSnakeMoving` | handler.go:106-108 | holds exactly when the request has at least one tick |
| `Handler.SnakeMovingExamples` | hander_test.go:149-169 | one tick means the snake is moving; no tick means it is not |
| `Handler.AllDigitsEverywhere` | handler.go:133-134 | `AllDigits`: the front-to-back digit scan accepts exactly the strings whose every character is a digit |
| `Handler.UnixNanoTimestampIsDigitString` | handler.go:132-135 | `IsUnixNanoTimestamp`: a game id is accepted exactly when it is non-empty and all ASCII digits |
| `Handler.NewGameIdAccepted` | handler.go:72-75 | the id of a new game is accepted exactly when the clock reading is not negative |
| `Handler.GameIdExamples` | hander_test.go:171-193 | "111111" is accepted; the SQL and script strings, "" and "12a" are rejected |
| `Handler.HandlePlayError` | handler.go:112-123 | INVALID_MOVE gives 400; REVERSE_MOVE, DIAGONAL_MOVE and OUT_OF_BOUNDS give 418; the message names the violation |
| `Handler.NewHandler` | handler.go:12-37 | a parse failure gives 400; invalid dimensions give 400; otherwise 200 with a new game; the two 500 branches are unreachable |
| `Handler.SnakeOnBoardAfterLegalReplay` | handler.go:93-96 | after a legal replay of at least one tick the snake check passes |
| `Handler.ValidateHandler` | handler.go:65-104 | in order: bad body 400; non-digit id 400; no ticks 400; panic gives no reply; a violation gives its mapped code with the gained point discarded; an unfound fruit with x >= width or y >= height 500 (a fruit at negative coordinates passes and gets 404); fruit found 200 with score + 1, the replayed snake and a fruit on the board; otherwise 404 |
| `Scenarios.InitializeSnakeExample` | game_test.go:7-12 | a snake created with velocity 1 moves with X velocity 1 |
| `Scenarios.CreateStateExample` | game_test.go:22-29 | the state holds exactly the given fields |
| `Scenarios.UpdateSnakeExample` | game_test.go:79-85 | updating (5,5) moving (1,0) to (6,5) moving (1,0) gives that snake |
| `Scenarios.IncrementScoreExample` | game_test.go:87-93 | score 0 becomes 1 |
| `Scenarios.RightThenDownReplay` | hander_test.go:111-147 | three ticks right then three down from (0,0) reach the fruit at (3,3) with no violation |
| `Scenarios.RightThenDownResponse` | hander_test.go:111-147 | that request is answered with 200, score 1 and the snake at (3,3) moving (0,1) |
| `Scenarios.ReverseOnSecondTick` | game.go:62-79 | (1,0) then (-1,0) stops with REVERSE_MOVE, the snake back at (0,0) and its velocity still (1,0) |
| `Scenarios.RightEdgeOutOfBounds` | game.go:105-107 | on any board narrower than the 64-bit maximum, a snake on the right edge that is not moving left and is sent right by (1, 0) ends one column past the board with OUT_OF_BOUNDS |
| `Scenarios.CorrectDimensionsResponse` | hander_test.go:18-30 | a 10x10 board is created with 200 |
| `Scenarios.IncorrectDimensionsResponse` | hander_test.go:32-44 | a -10x-10 board is refused with 400 |

## Left out

- HTTP routing, the method dispatch that answers 405 (main.go) and the
  gin context. These are plumbing around the handlers.
- JSON binding and serialisation. A request body that does not decode is
  the input `None`. A number outside Go's `int` range cannot be an input,
  since binding rejects it.
- `getBoardDimensions` (handler.go:40-52): query parsing with
  `strconv.Atoi`. Its outcome is the oracle input `dims` of `NewHandler`.
- Terminal rendering: `printGame`, `displayNewGame` and the `fmt.Println`
  calls in `play`. They are output only.
- The clock and the random source. They are a parameter (`unixNano`) and a
  nondeterministic choice (`RandIntn`). Only the bounds of a random draw
  are constrained.
- What happens after a panic. net/http just drops the connection, which
  the model writes as `NoReply`.
- The test's claim that the fruit never lands on the snake
  (game_test.go:14-20). The code that would enforce it is commented out,
  so it is not a property of the code.
- `Game.GetNewGame`: requires a positive width and height, because `rand.Intn` panics otherwise; its only caller checks `isBoardDimensionValid` first.
