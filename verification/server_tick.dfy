/**
 * One tick of the authoritative game loop of old/server.py: everything the loop does
 * while it holds the lock, as a pure function from the old state to the new one.
 * The number of registered players, both players' inputs, the elapsed time `dt` and
 * the trigonometric functions are parameters.
 */
module ServerTick {
  import opened Geometry
  import opened GameModel
  import opened Physics

  /** What the loop reads besides the state on one tick. */
  datatype TickInput = TickInput(in1: PlayerInput, in2: PlayerInput, players: nat, dt: real)

  function Max(a: real, b: real): real {
    if a >= b then a else b
  }

  /** Start when at least two players are registered and the match has not ended. */
  predicate ShouldStart(s: GameState, players: nat) {
    players >= 2 && !s.over
  }

  /** The start/pause control at the top of the tick. */
  function StartOrPause(s: GameState, players: nat): (r: GameState)
    ensures s.over ==> r == s
    ensures !s.over ==> (r.started <==> players >= 2)
    ensures r.started == s.started ==> r == s
    ensures !s.started && r.started ==> BallOf(r) == Centre
    ensures s.started && !r.started ==> r.ballVx == 0.0 && r.ballVy == 0.0
    ensures r.p1y == s.p1y && r.p2y == s.p2y && r.score1 == s.score1 && r.score2 == s.score2
    ensures r.timeLeft == s.timeLeft && r.over == s.over && r.winner == s.winner
  {
    if !s.started && ShouldStart(s, players) then
      WithBall(s, Centre).(started := true)
    else if s.started && !ShouldStart(s, players) && !s.over then
      s.(ballVx := 0.0, ballVy := 0.0, started := false)
    else
      s
  }

  /** A paddle moves `direction` steps of `PaddleSpeed`, clamped to the field. */
  function MovePaddle(y: int, direction: int): (r: int)
    ensures PaddleInRange(r)
    ensures PaddleInRange(y + direction * PaddleSpeed) ==> r == y + direction * PaddleSpeed
    ensures y + direction * PaddleSpeed < PaddleMinY ==> r == PaddleMinY
    ensures y + direction * PaddleSpeed > PaddleMaxY ==> r == PaddleMaxY
  {
    var target := y + direction * PaddleSpeed;
    if target > PaddleMaxY then PaddleMaxY
    else if target < PaddleMinY then PaddleMinY
    else target
  }

  /** What the ball physics produces: the ball and both scores. */
  datatype Rally = Rally(ball: Ball, score1: nat, score2: nat)

  /**
   * The ball's part of a running tick that does not end the match: flight, wall bounce,
   * then either a goal (score and reset) or the post and bar bounces, then both paddles,
   * then the reset of a ball that escaped the screen.
   */
  function Play(b: Ball, score1: nat, score2: nat, p1y: int, p2y: int, trig: Trig): (r: Rally)
    ensures BallInField(r.ball)
    ensures GoalCheck(Flight(b)) == LeftGoal ==> r == Rally(Centre, score1, score2 + 1)
    ensures GoalCheck(Flight(b)) == RightGoal ==> r == Rally(Centre, score1 + 1, score2)
    ensures GoalCheck(Flight(b)) == NoGoal ==> r.score1 == score1 && r.score2 == score2
  {
    var f := Flight(b);
    var (b1, s1, s2) :=
      match GoalCheck(f)
      case LeftGoal => (Centre, score1, score2 + 1)
      case RightGoal => (Centre, score1 + 1, score2)
      case NoGoal => (BarBounce(PostBounce(f)), score1, score2);
    var c1 := PaddleCollision(b1, PaddleDistanceFromGoal, p1y, trig).ball;
    var c2 := PaddleCollision(c1, Width - PaddleDistanceFromGoal, p2y, trig).ball;
    var b2 := if c2.x < -BallSize as real || c2.x > (Width + BallSize) as real then Centre else c2;
    Rally(b2, s1, s2)
  }

  /** The clock and ball part of a tick in which play is running. */
  function RunningTick(a: GameState, p1y: int, p2y: int, dt: real, trig: Trig): (r: GameState)
    ensures r.p1y == p1y && r.p2y == p2y && r.started == a.started
    ensures 0.0 <= r.timeLeft && (dt >= 0.0 ==> r.timeLeft <= Max(0.0, a.timeLeft))
    ensures r.timeLeft == 0.0 ==>
              && r.over && r.winner == WinnerOf(a.score1, a.score2)
              && r.score1 == a.score1 && r.score2 == a.score2
              && r.ballVx == 0.0 && r.ballVy == 0.0
    ensures r.timeLeft > 0.0 ==>
              && r.over == a.over && r.winner == a.winner && BallInField(BallOf(r))
              && a.score1 <= r.score1 && a.score2 <= r.score2
              && r.score1 + r.score2 <= a.score1 + a.score2 + 1
  {
    var time := Max(0.0, a.timeLeft - dt);
    if time <= 0.0 then
      a.(p1y := p1y, p2y := p2y, ballVx := 0.0, ballVy := 0.0,
         timeLeft := time, over := true, winner := WinnerOf(a.score1, a.score2))
    else
      var r := Play(BallOf(a), a.score1, a.score2, p1y, p2y, trig);
      WithBall(a, r.ball).(p1y := p1y, p2y := p2y, score1 := r.score1, score2 := r.score2, timeLeft := time)
  }

  /** Play runs on a tick when, after the start/pause control, the match is started and not over. */
  predicate Running(s: GameState, players: nat) {
    StartOrPause(s, players).started && !s.over
  }

  /**
   * One tick of the game loop. Paddles move on every tick, whether or not play runs;
   * on the tick play starts the ball is reset and then moved by that same tick.
   */
  function Step(s: GameState, i: TickInput, trig: Trig): (t: GameState)
    ensures PaddleInRange(t.p1y) && PaddleInRange(t.p2y)
  {
    var a := StartOrPause(s, i.players);
    var p1y := MovePaddle(s.p1y, i.in1.direction);
    var p2y := MovePaddle(s.p2y, i.in2.direction);
    if a.started && !a.over then RunningTick(a, p1y, p2y, i.dt, trig)
    else a.(p1y := p1y, p2y := p2y)
  }

  /** The ticks of a whole run, in order. */
  function Run(s: GameState, ticks: seq<TickInput>, trig: Trig): GameState
    decreases |ticks|
  {
    if |ticks| == 0 then s else Run(Step(s, ticks[0], trig), ticks[1..], trig)
  }

  // ---------------------------------------------------------------- properties

  /** Play runs exactly when at least two players are registered and the match is not over. */
  lemma RunningIffTwoPlayers(s: GameState, players: nat)
    ensures Running(s, players) <==> players >= 2 && !s.over
  {
  }

  /** Whatever the directions, a paddle moves to its clamped target, at most one step for a direction in {-1, 0, 1}. */
  lemma PaddleMotion(s: GameState, i: TickInput, trig: Trig)
    ensures var t := Step(s, i, trig);
            && t.p1y == MovePaddle(s.p1y, i.in1.direction)
            && t.p2y == MovePaddle(s.p2y, i.in2.direction)
            && (PaddleInRange(s.p1y) && -1 <= i.in1.direction <= 1 ==> -PaddleSpeed <= t.p1y - s.p1y <= PaddleSpeed)
            && (PaddleInRange(s.p2y) && -1 <= i.in2.direction <= 1 ==> -PaddleSpeed <= t.p2y - s.p2y <= PaddleSpeed)
  {
  }

  /**
   * The start transition: with two players and the match not over, a stopped match starts
   * with the ball reset to the centre. The same tick then moves it, so unless the clock
   * runs out the tick ends one step to the right of the centre, still heading right.
   */
  lemma StartTick(s: GameState, i: TickInput, trig: Trig)
    requires !s.started && i.players >= 2 && !s.over
    ensures BallOf(StartOrPause(s, i.players)) == Centre
    ensures Step(s, i, trig).started
    ensures s.timeLeft - i.dt > 0.0 ==>
      BallOf(Step(s, i, trig)) == Centre.(x := Centre.x + BallSpeed as real)
  {
    if s.timeLeft - i.dt > 0.0 {
      var f := Flight(Centre);
      assert f == Centre.(x := Centre.x + BallSpeed as real);
      assert GoalCheck(f) == NoGoal;
      assert BarBounce(PostBounce(f)) == f;
      assert !Overlaps(f, PaddleDistanceFromGoal, MovePaddle(s.p1y, i.in1.direction));
      assert !Overlaps(f, Width - PaddleDistanceFromGoal, MovePaddle(s.p2y, i.in2.direction));
    }
  }

  /**
   * The pause transition: a started match that loses a player stops the ball where it is;
   * positions, scores, the clock and the result are untouched (the paddles still move).
   */
  lemma PauseTick(s: GameState, i: TickInput, trig: Trig)
    requires s.started && i.players < 2 && !s.over
    ensures Step(s, i, trig) == s.(ballVx := 0.0, ballVy := 0.0, started := false,
                                   p1y := MovePaddle(s.p1y, i.in1.direction),
                                   p2y := MovePaddle(s.p2y, i.in2.direction))
  {
  }

  /** Only a running tick touches the clock, and it never winds it forward or below zero. */
  lemma TimerCountdown(s: GameState, i: TickInput, trig: Trig)
    requires i.dt >= 0.0 && s.timeLeft >= 0.0
    ensures var t := Step(s, i, trig);
            && 0.0 <= t.timeLeft <= s.timeLeft
            && (Running(s, i.players) ==> t.timeLeft == Max(0.0, s.timeLeft - i.dt))
            && (!Running(s, i.players) ==> t.timeLeft == s.timeLeft)
  {
  }

  /**
   * The match ends exactly on a running tick whose clock reaches zero; that tick decides the
   * winner from the scores and stops the ball where it is.
   */
  lemma TimeUpEndsMatch(s: GameState, i: TickInput, trig: Trig)
    requires !s.over
    ensures var t := Step(s, i, trig);
            t.over <==> Running(s, i.players) && s.timeLeft - i.dt <= 0.0
    ensures var t := Step(s, i, trig);
            t.over ==>
              && t.timeLeft == 0.0
              && t.winner == WinnerOf(s.score1, s.score2)
              && t.score1 == s.score1 && t.score2 == s.score2
              && t.ballVx == 0.0 && t.ballVy == 0.0
              && t.started
  {
  }

  /** An ended match is terminal: a tick may move the paddles and changes nothing else. */
  lemma OverIsTerminal(s: GameState, i: TickInput, trig: Trig)
    requires s.over
    ensures Step(s, i, trig) == s.(p1y := MovePaddle(s.p1y, i.in1.direction),
                                   p2y := MovePaddle(s.p2y, i.in2.direction))
  {
  }

  /** The same over any number of ticks: after the end only the paddles ever change. */
  lemma {:induction false} OverStaysOver(s: GameState, ticks: seq<TickInput>, trig: Trig)
    requires s.over
    ensures var t := Run(s, ticks, trig);
            t == s.(p1y := t.p1y, p2y := t.p2y)
    decreases |ticks|
  {
    if |ticks| > 0 {
      var s1 := Step(s, ticks[0], trig);
      OverIsTerminal(s, ticks[0], trig);
      OverStaysOver(s1, ticks[1..], trig);
    }
  }

  /**
   * Scoring: on a running tick that does not end the match, a ball in the left goal mouth
   * gives player 2 exactly one point, one in the right mouth gives player 1 exactly one
   * point, and either way the tick ends with the ball at the centre heading right.
   * Otherwise the scores are unchanged.
   */
  lemma GoalScores(s: GameState, i: TickInput, trig: Trig)
    requires Running(s, i.players) && s.timeLeft - i.dt > 0.0
    ensures var t := Step(s, i, trig);
            var g := GoalCheck(Flight(BallOf(StartOrPause(s, i.players))));
            && (g == LeftGoal ==> t.score2 == s.score2 + 1 && t.score1 == s.score1 && BallOf(t) == Centre)
            && (g == RightGoal ==> t.score1 == s.score1 + 1 && t.score2 == s.score2 && BallOf(t) == Centre)
            && (g == NoGoal ==> t.score1 == s.score1 && t.score2 == s.score2)
  {
  }

  /** On every tick the scores never decrease and at most one of them goes up, by one. */
  lemma ScoresMonotone(s: GameState, i: TickInput, trig: Trig)
    ensures var t := Step(s, i, trig);
            && s.score1 <= t.score1 <= s.score1 + 1
            && s.score2 <= t.score2 <= s.score2 + 1
            && t.score1 + t.score2 <= s.score1 + s.score2 + 1
  {
  }

  /** After a tick in which the ball moved, it is between floor and ceiling and near the screen. */
  lemma BallStaysInField(s: GameState, i: TickInput, trig: Trig)
    requires Running(s, i.players) && s.timeLeft - i.dt > 0.0
    ensures BallInField(BallOf(Step(s, i, trig)))
  {
  }

  /** Every tick with a non-negative `dt` keeps the state invariant. */
  lemma StepPreservesValid(s: GameState, i: TickInput, trig: Trig)
    requires Valid(s) && i.dt >= 0.0
    ensures Valid(Step(s, i, trig))
  {
  }

  /** Every state reached from the initial one by ticks with non-negative `dt` satisfies the invariant. */
  lemma {:induction false} RunPreservesValid(s: GameState, ticks: seq<TickInput>, trig: Trig)
    requires Valid(s)
    requires forall k :: 0 <= k < |ticks| ==> ticks[k].dt >= 0.0
    ensures Valid(Run(s, ticks, trig))
    decreases |ticks|
  {
    if |ticks| > 0 {
      StepPreservesValid(s, ticks[0], trig);
      RunPreservesValid(Step(s, ticks[0], trig), ticks[1..], trig);
    }
  }
}
