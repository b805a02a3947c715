/**
 * The records the server's game loop works on (old/config.py): the twelve-field
 * match state, a player's input, and the ball as the physics sees it.
 */
module GameModel {
  import opened Geometry

  /** A player's latest command: -1 up, 0 still, +1 down. The server never range-checks it. */
  datatype PlayerInput = PlayerInput(direction: int)

  /**
   * The match state the server owns and broadcasts once per tick. Paddle positions and
   * scores are integers; ball position, velocity and the remaining time are reals.
   * `winner` is 0 for a tie (or no result yet), 1 for the left player, 2 for the right.
   */
  datatype GameState = GameState(
    p1y: int,
    p2y: int,
    ballX: real,
    ballY: real,
    ballVx: real,
    ballVy: real,
    score1: nat,
    score2: nat,
    started: bool,
    timeLeft: real,
    over: bool,
    winner: int)

  /** Ball centre and velocity, in pixels and pixels per tick. */
  datatype Ball = Ball(x: real, y: real, vx: real, vy: real)

  const NoWinner: int := 0
  const LeftWins: int := 1
  const RightWins: int := 2

  function BallOf(s: GameState): Ball {
    Ball(s.ballX, s.ballY, s.ballVx, s.ballVy)
  }

  function WithBall(s: GameState, b: Ball): (r: GameState)
    ensures BallOf(r) == b
  {
    s.(ballX := b.x, ballY := b.y, ballVx := b.vx, ballVy := b.vy)
  }

  /** The state the server starts with: paddles and ball centred, ball idle, full clock. */
  const Initial: GameState := GameState(
    FieldCenterY, FieldCenterY,
    (Width / 2) as real, FieldCenterY as real, 0.0, 0.0,
    0, 0,
    false, TimeLimitSeconds as real, false, NoWinner)

  /** The result of comparing final scores: the higher score wins, equal scores tie. */
  function WinnerOf(score1: int, score2: int): (w: int)
    ensures w == LeftWins <==> score1 > score2
    ensures w == RightWins <==> score2 > score1
    ensures w == NoWinner <==> score1 == score2
  {
    if score1 > score2 then LeftWins
    else if score2 > score1 then RightWins
    else NoWinner
  }

  predicate PaddleInRange(y: int) {
    PaddleMinY <= y <= PaddleMaxY
  }

  /** Between the floor and the ceiling, and no further than one ball size outside the side walls. */
  predicate BallInField(b: Ball) {
    && BallMinY as real <= b.y <= BallMaxY as real
    && -BallSize as real <= b.x <= (Width + BallSize) as real
  }

  /**
   * What holds of every state the server can reach from `Initial`: paddles clamped,
   * ball in the field, a non-negative clock that only runs out together with `over`,
   * a winner only once the match is over, and an idle ball whenever play is not running.
   */
  predicate Valid(s: GameState) {
    && PaddleInRange(s.p1y)
    && PaddleInRange(s.p2y)
    && BallInField(BallOf(s))
    && s.timeLeft >= 0.0
    && (!s.over ==> s.timeLeft > 0.0)
    && (s.over ==> s.started)
    && s.winner == (if s.over then WinnerOf(s.score1, s.score2) else NoWinner)
    && ((!s.started || s.over) ==> s.ballVx == 0.0 && s.ballVy == 0.0)
  }

  lemma InitialIsValid()
    ensures Valid(Initial)
  {
  }
}
