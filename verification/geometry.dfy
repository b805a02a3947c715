/**
 * The fixed geometry of the field (old/config.py), and the field centre and paddle
 * speed that old/server.py defines next to its game loop. Lengths are pixels; the
 * source's integer division `//` is Dafny's `/`, which agrees on these positive values.
 */
module Geometry {

  const Width: int := 800
  const Height: int := 600
  /** Height of the score strip at the top; the playable field is below it. */
  const HudHeight: int := 60

  const PaddleWidth: int := 12
  const PaddleHeight: int := 48
  const BallSize: int := 14
  const BallSpeed: int := 6

  const FieldHeight: int := Height - HudHeight

  /** Distance from a side wall to the vertical post of the "C"-shaped goal. */
  const GoalInset: int := 40
  const GoalBarLength: int := 48
  const GoalThickness: int := 18

  /** `int(FIELD_HEIGHT * 0.33)`: a truncation, which is the floor for this positive value. */
  const GoalHeight: int := (FieldHeight as real * 0.33).Floor
  /** Top of the scoring window, centring the goal in the field. */
  const GoalY: int := HudHeight + (FieldHeight - GoalHeight) / 2

  /** x of the left paddle's centre; the right paddle sits at `Width - PaddleDistanceFromGoal`. */
  const PaddleDistanceFromGoal: int := GoalInset + 70

  const TimeLimitSeconds: int := 180

  /** Centre line of the playable field (old/server.py). */
  const FieldCenterY: int := HudHeight + (Height - HudHeight) / 2
  /** Pixels a paddle moves per tick per unit of direction (old/server.py). */
  const PaddleSpeed: int := 5

  /** The range a paddle centre is clamped to on every tick. */
  const PaddleMinY: int := HudHeight + PaddleHeight / 2
  const PaddleMaxY: int := Height - PaddleHeight / 2

  /** The range a ball centre is clamped to by the floor and ceiling bounce. */
  const BallMinY: int := HudHeight + BallSize / 2
  const BallMaxY: int := Height - BallSize / 2

  /** The values the formulas above produce, and how the pieces fit together. */
  lemma GeometryFacts()
    ensures GoalHeight == 178 && GoalY == 241 && FieldCenterY == 330
    // the goal is centred: equal margins above and below the scoring window
    ensures GoalY - HudHeight == 181 && Height - (GoalY + GoalHeight) == 181
    // the scoring window lies strictly inside the playable field
    ensures HudHeight < GoalY && GoalY + GoalHeight < Height
    // the paddle line is in front of the goal's bars
    ensures PaddleDistanceFromGoal == 110 && GoalInset + GoalBarLength == 88
    ensures PaddleDistanceFromGoal > GoalInset + GoalBarLength
    // the paddle clamp range is non-empty
    ensures PaddleMinY == 84 && PaddleMaxY == 576 && PaddleMinY <= PaddleMaxY
    ensures BallMinY == 67 && BallMaxY == 593
  {
  }
}
