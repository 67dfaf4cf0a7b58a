/** The angle-difference helper of the boat simulation: the difference of
    two angles brought into `(-PI, PI]` by stepping a fixed amount at a
    time. The original steps by half a turn; the stepping itself is
    defined once for any step up to a full turn. */
module Boat {

  /** `np.pi`, as the double it is. */
  const PI: real := 3.141592653589793

  /** The first loop, one step per call: down by `step` while above PI. */
  function StepDown(d: real, step: real): real
    requires PI <= step
    decreases if d > PI then d.Floor else 0
  {
    if d > PI then StepDown(d - step, step) else d
  }

  /** The second loop: up by `step` while at or below -PI. */
  function StepUp(d: real, step: real): real
    requires PI <= step
    decreases if d <= -PI then (-d).Floor else 0
  {
    if d <= -PI then StepUp(d + step, step) else d
  }

  /** The steps the first loop takes. */
  function StepsDown(d: real, step: real): nat
    requires PI <= step
    decreases if d > PI then d.Floor else 0
  {
    if d > PI then 1 + StepsDown(d - step, step) else 0
  }

  /** The steps the second loop takes. */
  function StepsUp(d: real, step: real): nat
    requires PI <= step
    decreases if d <= -PI then (-d).Floor else 0
  {
    if d <= -PI then 1 + StepsUp(d + step, step) else 0
  }

  /** Both loops in turn. */
  function Reduce(d: real, step: real): real
    requires PI <= step
  {
    StepUp(StepDown(d, step), step)
  }

  /** The net number of steps taken, downward counted positive. */
  function Turns(d: real, step: real): int
    requires PI <= step
  {
    StepsDown(d, step) as int - StepsUp(StepDown(d, step), step) as int
  }

  /** `min_angle_diff`, the loops as the original runs them, with the
      step as a parameter. */
  method Normalize(d: real, step: real) returns (diff: real)
    requires PI <= step <= 2.0 * PI
    ensures diff == Reduce(d, step)
  {
    diff := d;
    while diff > PI
      invariant StepDown(diff, step) == StepDown(d, step)
      decreases diff.Floor
    {
      diff := diff - step;
    }
    ghost var down := diff;
    while diff <= -PI
      invariant StepUp(diff, step) == StepUp(down, step)
      decreases (-diff).Floor
    {
      diff := diff + step;
    }
  }

  /** `min_angle_diff` as written: half a turn per step. */
  method MinAngleDiff(lhs: real, rhs: real) returns (diff: real)
    ensures diff == Reduce(lhs - rhs, PI)
  {
    diff := Normalize(lhs - rhs, PI);
  }

  /** The evidently intended helper: a full turn per step, so that the
      result names the same angle as the difference. */
  method MinAngleDiffFullTurn(lhs: real, rhs: real) returns (diff: real)
    ensures diff == Reduce(lhs - rhs, 2.0 * PI)
  {
    diff := Normalize(lhs - rhs, 2.0 * PI);
  }

  // ------------------------------------------------------------ properties

  /** After the first loop the value is at most PI; if the loop ran, it
      is above PI less one step. */
  lemma {:induction false} StepDownRange(d: real, step: real)
    requires PI <= step
    ensures StepDown(d, step) <= PI
    ensures d > PI ==> PI - step < StepDown(d, step)
    ensures d <= PI ==> StepDown(d, step) == d
    decreases if d > PI then d.Floor else 0
  {
    if d > PI && d - step > PI {
      StepDownRange(d - step, step);
    }
  }

  /** After the second loop the value is above -PI; if the loop ran, it is
      at most -PI plus one step. */
  lemma {:induction false} StepUpRange(d: real, step: real)
    requires PI <= step
    ensures -PI < StepUp(d, step)
    ensures d <= -PI ==> StepUp(d, step) <= -PI + step
    ensures d > -PI ==> StepUp(d, step) == d
    decreases if d <= -PI then (-d).Floor else 0
  {
    if d <= -PI && d + step <= -PI {
      StepUpRange(d + step, step);
    }
  }

  /** Each loop moves the value by a whole number of steps. */
  lemma {:induction false} StepDownTurns(d: real, step: real)
    requires PI <= step
    ensures StepDown(d, step) == d - (StepsDown(d, step) as real) * step
    decreases if d > PI then d.Floor else 0
  {
    if d > PI {
      StepDownTurns(d - step, step);
      var n := StepsDown(d - step, step) as real;
      assert (d - step) - n * step == d - (n + 1.0) * step;
    }
  }

  lemma {:induction false} StepUpTurns(d: real, step: real)
    requires PI <= step
    ensures StepUp(d, step) == d + (StepsUp(d, step) as real) * step
    decreases if d <= -PI then (-d).Floor else 0
  {
    if d <= -PI {
      StepUpTurns(d + step, step);
      var n := StepsUp(d + step, step) as real;
      assert (d + step) + n * step == d + (n + 1.0) * step;
    }
  }

  /** The result lies in `(-PI, PI]`: the first loop leaves it at most PI,
      and the second loop, which only runs on values at most -PI, lifts it
      above -PI without passing PI, since one step is at most a full turn.
      A value already in range is returned as it is. */
  lemma ReduceRange(d: real, step: real)
    requires PI <= step <= 2.0 * PI
    ensures -PI < Reduce(d, step) <= PI
    ensures -PI < d <= PI ==> Reduce(d, step) == d
  {
    StepDownRange(d, step);
    StepUpRange(StepDown(d, step), step);
  }

  /** And it differs from the input by a whole number of steps. */
  lemma ReduceTurns(d: real, step: real)
    requires PI <= step
    ensures Reduce(d, step) == d - (Turns(d, step) as real) * step
  {
    var down := StepDown(d, step);
    StepDownTurns(d, step);
    StepUpTurns(down, step);
    var a := StepsDown(d, step) as real;
    var b := StepsUp(down, step) as real;
    assert (d - a * step) + b * step == d - (a - b) * step;
  }

  /** With half-turn steps a value above PI lands in `(0, PI]` and one at or
      below -PI in `(-PI, 0]`. */
  lemma HalfTurnSides(d: real)
    ensures d > PI ==> 0.0 < Reduce(d, PI) <= PI
    ensures d <= -PI ==> -PI < Reduce(d, PI) <= 0.0
  {
    StepDownRange(d, PI);
    StepUpRange(StepDown(d, PI), PI);
  }

  /** Within `(-PI, PI]` two values a whole number of full turns apart are
      the same: the full-turn result is the one angle in that range equal
      to the difference. */
  lemma FullTurnUnique(a: real, b: real, k: int)
    requires -PI < a <= PI && -PI < b <= PI
    requires a - b == (k as real) * (2.0 * PI)
    ensures a == b
  {
  }

  /** So the full-turn result is exactly the angle in `(-PI, PI]` that
      differs from the difference by whole turns. */
  lemma FullTurnIsTheAngle(d: real, r: real, k: int)
    requires -PI < r <= PI && d - r == (k as real) * (2.0 * PI)
    ensures Reduce(d, 2.0 * PI) == r
  {
    ReduceRange(d, 2.0 * PI);
    ReduceTurns(d, 2.0 * PI);
    var t := Turns(d, 2.0 * PI);
    assert Reduce(d, 2.0 * PI) - r == ((k - t) as real) * (2.0 * PI);
    FullTurnUnique(Reduce(d, 2.0 * PI), r, k - t);
  }

  /** The half-turn version does not give that angle: a difference of one
      and a half turns of PI, which is the angle `-PI / 2`, comes out as
      `PI / 2`, half a turn away. */
  lemma HalfTurnCounterexample()
    ensures Reduce(1.5 * PI, PI) == 0.5 * PI
    ensures Reduce(1.5 * PI, 2.0 * PI) == -0.5 * PI
    ensures Reduce(1.5 * PI, PI) != Reduce(1.5 * PI, 2.0 * PI)
  {
    assert StepDown(0.5 * PI, PI) == 0.5 * PI;
    assert StepDown(1.5 * PI, PI) == 0.5 * PI;
    assert StepUp(0.5 * PI, PI) == 0.5 * PI;
    assert StepDown(-0.5 * PI, 2.0 * PI) == -0.5 * PI;
    assert StepDown(1.5 * PI, 2.0 * PI) == -0.5 * PI;
    assert StepUp(-0.5 * PI, 2.0 * PI) == -0.5 * PI;
  }
}
