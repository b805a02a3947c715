/**
 * The ball physics of one running tick (old/server.py): the reset to centre, flight,
 * the floor/ceiling bounce, the "C"-shaped goals with their posts and bars, and the
 * paddle bounce. Positions and velocities are reals; IEEE rounding is not modelled.
 */
module Physics {
  import opened Geometry
  import opened GameModel

  /** The value of Python's `math.pi`. */
  const Pi: real := 3.141592653589793

  /**
   * The cosine and sine the paddle bounce calls. They are parameters rather than
   * definitions: the model only relies on the cosine being positive on [-Pi/4, Pi/4].
   */
  datatype Trig = Trig(cos: real -> real, sin: real -> real)

  ghost predicate CosPositive(trig: Trig) {
    forall a: real :: -Pi / 4.0 <= a <= Pi / 4.0 ==> trig.cos(a) > 0.0
  }

  function Abs(r: real): real {
    if r < 0.0 then -r else r
  }

  /** `reset_ball`: the ball at the centre of the field, heading right at full speed. */
  const Centre: Ball := Ball((Width / 2) as real, FieldCenterY as real, BallSpeed as real, 0.0)

  const HalfBall: real := BallSize as real / 2.0
  const HalfThickness: real := GoalThickness as real / 2.0

  /** One step of flight: no sub-stepping. */
  function Advance(b: Ball): Ball {
    b.(x := b.x + b.vx, y := b.y + b.vy)
  }

  /** Bounce off the ceiling (the bottom of the score strip) or the floor, flush with it. */
  function WallBounce(b: Ball): (r: Ball)
    ensures BallMinY as real <= r.y <= BallMaxY as real
    ensures r.x == b.x && r.vx == b.vx
    ensures Abs(r.vy) == Abs(b.vy)
    ensures b.y <= BallMinY as real ==> r.y == BallMinY as real && r.vy >= 0.0
    ensures b.y >= BallMaxY as real ==> r.y == BallMaxY as real && r.vy <= 0.0
    ensures BallMinY as real < b.y < BallMaxY as real ==> r == b
  {
    if b.y <= BallMinY as real then b.(vy := Abs(b.vy), y := BallMinY as real)
    else if b.y >= BallMaxY as real then b.(vy := -Abs(b.vy), y := BallMaxY as real)
    else b
  }

  /** Where the ball is after flight and the wall bounce; the goal and post checks look at this. */
  function Flight(b: Ball): (r: Ball)
    ensures r.x == b.x + b.vx && r.vx == b.vx
    ensures Abs(r.vy) == Abs(b.vy)
    ensures BallMinY as real <= r.y <= BallMaxY as real
    ensures BallMinY as real < b.y + b.vy < BallMaxY as real ==> r.y == b.y + b.vy && r.vy == b.vy
  {
    WallBounce(Advance(b))
  }

  /** Within the vertical scoring window of either goal (both ends included). */
  predicate InMouth(y: real) {
    GoalY as real <= y <= (GoalY + GoalHeight) as real
  }

  datatype Goal = NoGoal | LeftGoal | RightGoal

  /** A goal on the left (scored by player 2) is checked before one on the right. */
  function GoalCheck(b: Ball): (g: Goal)
    ensures !InMouth(b.y) ==> g == NoGoal
    ensures g == LeftGoal ==> b.x <= GoalInset as real + HalfBall
    ensures g == RightGoal ==> GoalInset as real + HalfBall < b.x && b.x >= (Width - GoalInset) as real - HalfBall
    ensures g == NoGoal && InMouth(b.y) ==>
              GoalInset as real + HalfBall < b.x < (Width - GoalInset) as real - HalfBall
  {
    if b.x - HalfBall <= GoalInset as real && InMouth(b.y) then LeftGoal
    else if b.x + HalfBall >= (Width - GoalInset) as real && InMouth(b.y) then RightGoal
    else NoGoal
  }

  /** The ball reaches the left post's outer face. */
  predicate AtLeftPost(x: real) {
    x - HalfBall <= GoalInset as real + HalfThickness
  }

  /** The ball reaches the right post's outer face. */
  predicate AtRightPost(x: real) {
    x + HalfBall >= (Width - GoalInset) as real - HalfThickness
  }

  /**
   * Bounce off the vertical posts outside the scoring window: the ball is sent back towards
   * the middle at the same horizontal speed and placed flush with the post. The right post
   * sees the left post's result.
   */
  function PostBounce(b: Ball): (r: Ball)
    ensures r.y == b.y && r.vy == b.vy
    ensures Abs(r.vx) == Abs(b.vx)
    ensures InMouth(b.y) ==> r == b
    ensures !InMouth(b.y) && AtLeftPost(b.x) ==>
              r.x == GoalInset as real + HalfThickness + HalfBall && r.vx >= 0.0
    ensures !InMouth(b.y) && AtRightPost(b.x) ==>
              r.x == (Width - GoalInset) as real - HalfThickness - HalfBall && r.vx <= 0.0
    ensures !AtLeftPost(b.x) && !AtRightPost(b.x) ==> r == b
  {
    var b1 :=
      if AtLeftPost(b.x) && !InMouth(b.y)
      then b.(vx := Abs(b.vx), x := GoalInset as real + HalfThickness + HalfBall)
      else b;
    if AtRightPost(b1.x) && !InMouth(b1.y)
    then b1.(vx := -Abs(b1.vx), x := (Width - GoalInset) as real - HalfThickness - HalfBall)
    else b1
  }

  /** How close the ball centre must come to a bar's centre line to touch it. */
  const BarReach: real := HalfThickness + HalfBall

  /**
   * Bounce off one horizontal bar at height `barY`: a ball within reach is pushed clear of
   * the bar on the side its centre is on (above when level with it), with its vertical speed
   * kept and pointing away from the bar.
   */
  function BarReflect(b: Ball, barY: int): (r: Ball)
    ensures r.x == b.x && r.vx == b.vx
    ensures Abs(r.vy) == Abs(b.vy)
    ensures Abs(b.y - barY as real) > BarReach ==> r == b
    ensures Abs(b.y - barY as real) <= BarReach && b.y <= barY as real ==>
              r.y == barY as real - BarReach && r.vy <= 0.0
    ensures Abs(b.y - barY as real) <= BarReach && b.y > barY as real ==>
              r.y == barY as real + BarReach && r.vy >= 0.0
  {
    if Abs(b.y - barY as real) <= BarReach then
      if b.y <= barY as real then b.(vy := -Abs(b.vy), y := barY as real - BarReach)
      else b.(vy := Abs(b.vy), y := barY as real + BarReach)
    else b
  }

  /** The top bar, then the bottom bar, of one goal. */
  function GoalBars(b: Ball): Ball {
    BarReflect(BarReflect(b, GoalY), GoalY + GoalHeight)
  }

  predicate OverLeftBars(x: real) {
    GoalInset as real - HalfThickness <= x <= (GoalInset + GoalBarLength) as real + HalfThickness
  }

  predicate OverRightBars(x: real) {
    (Width - GoalInset - GoalBarLength) as real - HalfThickness <= x <= (Width - GoalInset) as real + HalfThickness
  }

  /** The ball's centre is within reach of the bar at height `barY`. */
  predicate NearBar(y: real, barY: int) {
    Abs(y - barY as real) <= BarReach
  }

  /**
   * The bar bounce of both goals, each applied only when the ball is over that goal's bars.
   * A ball over a goal and within reach of its top or bottom bar is pushed clear of that bar,
   * on the side its centre is on, with vy pointing away from it.
   */
  function BarBounce(b: Ball): (r: Ball)
    ensures r.x == b.x && r.vx == b.vx
    ensures Abs(r.vy) == Abs(b.vy)
    ensures BallMinY as real <= b.y <= BallMaxY as real ==> BallMinY as real <= r.y <= BallMaxY as real
    ensures !OverLeftBars(b.x) && !OverRightBars(b.x) ==> r == b
    ensures !NearBar(b.y, GoalY) && !NearBar(b.y, GoalY + GoalHeight) ==> r == b
    ensures (OverLeftBars(b.x) || OverRightBars(b.x)) && NearBar(b.y, GoalY) ==>
              if b.y <= GoalY as real then r.y == GoalY as real - BarReach && r.vy <= 0.0
              else r.y == GoalY as real + BarReach && r.vy >= 0.0
    ensures (OverLeftBars(b.x) || OverRightBars(b.x)) && NearBar(b.y, GoalY + GoalHeight) ==>
              if b.y <= (GoalY + GoalHeight) as real then r.y == (GoalY + GoalHeight) as real - BarReach && r.vy <= 0.0
              else r.y == (GoalY + GoalHeight) as real + BarReach && r.vy >= 0.0
  {
    var b1 := if OverLeftBars(b.x) then GoalBars(b) else b;
    GoalBarsReflect(b);
    GoalBarsReflect(b1);
    if OverRightBars(b1.x) then GoalBars(b1) else b1
  }

  /** One goal's bars: the bar the ball is near pushes it clear, and the other bar, 178 away, is then out of reach. */
  lemma GoalBarsReflect(b: Ball)
    ensures var r := GoalBars(b);
            && r.x == b.x && r.vx == b.vx && Abs(r.vy) == Abs(b.vy)
            && (!NearBar(b.y, GoalY) && !NearBar(b.y, GoalY + GoalHeight) ==> r == b)
            && (NearBar(b.y, GoalY) ==>
                  if b.y <= GoalY as real then r.y == GoalY as real - BarReach && r.vy <= 0.0
                  else r.y == GoalY as real + BarReach && r.vy >= 0.0)
            && (NearBar(b.y, GoalY + GoalHeight) ==>
                  if b.y <= (GoalY + GoalHeight) as real then r.y == (GoalY + GoalHeight) as real - BarReach && r.vy <= 0.0
                  else r.y == (GoalY + GoalHeight) as real + BarReach && r.vy >= 0.0)
  {
  }

  /** The axis-aligned boxes of the ball and of a paddle centred at (`paddleX`, `paddleY`) touch. */
  predicate Overlaps(b: Ball, paddleX: int, paddleY: int) {
    && b.x - (BallSize / 2) as real <= (paddleX + PaddleWidth / 2) as real
    && b.x + (BallSize / 2) as real >= (paddleX - PaddleWidth / 2) as real
    && b.y - (BallSize / 2) as real <= (paddleY + PaddleHeight / 2) as real
    && b.y + (BallSize / 2) as real >= (paddleY - PaddleHeight / 2) as real
  }

  /** Where the ball struck the paddle, relative to the paddle's half height, clamped to [-1, 1]. */
  function ImpactOffset(ballY: real, paddleY: int): (r: real)
    ensures -1.0 <= r <= 1.0
    ensures var raw := (ballY - paddleY as real) / (PaddleHeight / 2) as real;
            (-1.0 <= raw <= 1.0 ==> r == raw) && (raw > 1.0 ==> r == 1.0) && (raw < -1.0 ==> r == -1.0)
  {
    var raw := (ballY - paddleY as real) / (PaddleHeight / 2) as real;
    if raw > 1.0 then 1.0 else if raw < -1.0 then -1.0 else raw
  }

  /** The distance from a paddle's centre line at which a bounced ball is placed. */
  const ClearOfPaddle: int := PaddleWidth / 2 + BallSize / 2

  /** `check_paddle_collision`'s result: whether the ball hit, and the ball afterwards. */
  datatype Contact = Contact(hit: bool, ball: Ball)

  /**
   * On contact, the ball leaves at an angle of up to 45 degrees set by the impact offset,
   * horizontally away from the direction it came from, and is placed clear of the paddle.
   */
  function PaddleCollision(b: Ball, paddleX: int, paddleY: int, trig: Trig): (c: Contact)
    ensures c.hit <==> Overlaps(b, paddleX, paddleY)
    ensures !c.hit ==> c.ball == b
    ensures c.ball.y == b.y
    ensures c.hit && c.ball.vx > 0.0 ==> c.ball.x == (paddleX + ClearOfPaddle) as real
    ensures c.hit && c.ball.vx <= 0.0 ==> c.ball.x == (paddleX - ClearOfPaddle) as real
  {
    if Overlaps(b, paddleX, paddleY) then
      var angle := ImpactOffset(b.y, paddleY) * (Pi / 4.0);
      var speed := BallSpeed as real;
      var vx := speed * trig.cos(angle) * (if b.vx > 0.0 then -1.0 else 1.0);
      var vy := speed * trig.sin(angle);
      var x := if vx > 0.0 then (paddleX + PaddleWidth / 2 + BallSize / 2) as real
               else (paddleX - PaddleWidth / 2 - BallSize / 2) as real;
      Contact(true, Ball(x, b.y, vx, vy))
    else
      Contact(false, b)
  }

  /**
   * With a cosine that is positive on [-45, 45] degrees, a hit always reverses the ball's
   * horizontal heading (a ball at rest or moving left leaves to the right) and puts the
   * ball on the side of the paddle it now moves towards.
   */
  lemma PaddleBounceTurnsBack(b: Ball, paddleX: int, paddleY: int, trig: Trig)
    requires CosPositive(trig)
    requires Overlaps(b, paddleX, paddleY)
    ensures var c := PaddleCollision(b, paddleX, paddleY, trig);
            && c.hit
            && (c.ball.vx < 0.0 <==> b.vx > 0.0)
            && (c.ball.vx > 0.0 <==> b.vx <= 0.0)
            && c.ball.x == (if b.vx > 0.0 then paddleX - ClearOfPaddle else paddleX + ClearOfPaddle) as real
  {
    var offset := ImpactOffset(b.y, paddleY);
    var angle := offset * (Pi / 4.0);
    assert -Pi / 4.0 <= angle <= Pi / 4.0;
    assert trig.cos(angle) > 0.0;
  }
}
