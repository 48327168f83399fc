/** The records the snake-game service exchanges with its callers (types.go),
    the 64-bit integers they are built from, and the closed set of rule
    violations the move validator reports (const.go). */
module Types {

  const MinInt64: int := -0x8000_0000_0000_0000
  const MaxInt64: int := 0x7fff_ffff_ffff_ffff
  const TwoTo64: int := 0x1_0000_0000_0000_0000

  /** Go's `int` on a 64-bit platform: every record field is one. */
  type Int64 = x: int | MinInt64 <= x <= MaxInt64

  /** Go's `a + b` on `int`: exact unless it overflows, then off by 2^64. */
  function Add64(a: Int64, b: Int64): (r: Int64)
    ensures MinInt64 <= a + b <= MaxInt64 ==> r == a + b
  {
    if a as int + b as int > MaxInt64 then a as int + b as int - TwoTo64
    else if a as int + b as int < MinInt64 then a as int + b as int + TwoTo64
    else a + b
  }

  /** Go's unary `-a` on `int`: exact except that the most negative value is its own negation. */
  function Neg64(a: Int64): (r: Int64)
    ensures a != MinInt64 ==> r == -a
  {
    if a == MinInt64 then a else -a
  }

  /** The sum is two's-complement arithmetic: the Int64 congruent to the
      exact sum modulo 2^64. */
  lemma Add64IsModular(a: Int64, b: Int64)
    ensures Add64(a, b) == (a as int + b as int - MinInt64) % TwoTo64 + MinInt64
  {
  }

  /** So is the negation. */
  lemma Neg64IsModular(a: Int64)
    ensures Neg64(a) == (-(a as int) - MinInt64) % TwoTo64 + MinInt64
  {
  }

  datatype Option<+T> = None | Some(value: T)

  /** The fruit's cell. */
  datatype Fruit = Fruit(x: Int64, y: Int64)

  /** The snake's cell and its current velocity. */
  datatype Snake = Snake(x: Int64, y: Int64, velX: Int64, velY: Int64)

  /** One proposed velocity. */
  datatype Tick = Tick(velX: Int64, velY: Int64)

  /** The whole game, owned by the caller between requests. */
  datatype State = State(gameId: string, width: Int64, height: Int64, score: Int64, fruit: Fruit, snake: Snake)

  /** A validation request: a state with the ticks to replay against it. */
  datatype RequestBody = RequestBody(state: State, ticks: seq<Tick>)

  /** The rule violations, in the order the validator tests them. */
  datatype MoveError = InvalidMove | ReverseMove | DiagonalMove | OutOfBounds
}
