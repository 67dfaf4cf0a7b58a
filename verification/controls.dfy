/** The pan/zoom control panel of the fractal viewer: a view state moved by
    buttons and keys, each press reported to the parent as the new state
    together with the step it took. */
module Controls {
  import opened Wrappers
  import opened Utils

  /** Centre, zoom and the last step taken on each of them, if any. */
  datatype ControlState = ControlState(
    x: real, y: real, scale: real,
    dx: Option<real>, dy: Option<real>, dscale: Option<real>)

  datatype Action = IncX | DecX | IncY | DecY | IncScale | DecScale | Reset

  /** A press: the action and whether shift was held. */
  datatype ControlMessage = ControlMessage(shift: bool, action: Action)

  /** `f64::EPSILON`, 2^-52: the smallest scale the panel allows. */
  const EPSILON: real := 1.0 / 4503599627370496.0

  /** `ControlState::default`: the initial view, with no step taken. */
  function Default(): (s: ControlState)
    ensures s.x == -1.745 && s.y == -0.038 && s.scale == 0.1789
    ensures s.dx.None? && s.dy.None? && s.dscale.None?
  {
    ControlState(-1.745, -0.038, 0.1789, None, None, None)
  }

  /** The step of one press: a quarter of the scale, a tenth of that with
      shift. */
  function StepOf(scale: real, shift: bool): (d: real)
    ensures shift ==> d == 0.025 * scale
    ensures !shift ==> d == 0.25 * scale
    ensures scale > 0.0 ==> 0.0 < d <= 0.25 * scale
  {
    scale * (if shift then 0.1 else 1.0) * 0.25
  }

  /** The state after a press, all at once: the deltas are cleared, one
      coordinate moves by the step and records it (the y axis and the scale
      move against the direction of their names), Reset restores the
      default, and the scale is kept positive. */
  function Next(s: ControlState, msg: ControlMessage): (t: ControlState)
  {
    var d := StepOf(s.scale, msg.shift);
    var u := match msg.action
      case IncX => ControlState(s.x + d, s.y, s.scale, Some(d), None, None)
      case DecX => ControlState(s.x - d, s.y, s.scale, Some(-d), None, None)
      case IncY => ControlState(s.x, s.y - d, s.scale, None, Some(d), None)
      case DecY => ControlState(s.x, s.y + d, s.scale, None, Some(-d), None)
      case IncScale => ControlState(s.x, s.y, s.scale - d, None, None, Some(d))
      case DecScale => ControlState(s.x, s.y, s.scale + d, None, None, Some(-d))
      case Reset => Default();
    u.(scale := Max(Abs(u.scale), EPSILON))
  }

  /** `ControlPanel`: the current state and everything sent to the parent
      through the callback, in order. */
  class ControlPanel {
    var state: ControlState
    var emitted: seq<ControlState>

    /** `create`: start at the default and report it once. */
    constructor ()
      ensures state == Default() && emitted == [Default()]
    {
      state := Default();
      emitted := [Default()];
    }

    /** `update`, step by step as the original does it. */
    method Update(msg: ControlMessage) returns (redraw: bool)
      modifies this
      ensures state == Next(old(state), msg)
      ensures emitted == old(emitted) + [state]
      ensures redraw
    {
      state := state.(dx := None);
      state := state.(dy := None);
      state := state.(dscale := None);

      var scale := state.scale * if msg.shift then 0.1 else 1.0;
      var dx := scale * 0.25;
      var dy := scale * 0.25;
      var dscale := scale * 0.25;

      match msg.action {
        case IncX =>
          state := state.(x := state.x + dx);
          state := state.(dx := Some(dx));
        case DecX =>
          state := state.(x := state.x - dx);
          state := state.(dx := Some(-dx));
        case IncY =>
          state := state.(y := state.y - dy);
          state := state.(dy := Some(dy));
        case DecY =>
          state := state.(y := state.y + dy);
          state := state.(dy := Some(-dy));
        case IncScale =>
          state := state.(scale := state.scale - dscale);
          state := state.(dscale := Some(dscale));
        case DecScale =>
          state := state.(scale := state.scale + dscale);
          state := state.(dscale := Some(-dscale));
        case Reset =>
          state := Default();
      }
      state := state.(scale := Max(Abs(state.scale), EPSILON));
      emitted := emitted + [state];
      redraw := true;
    }
  }

  // ------------------------------------------------------------ properties

  /** After any press at most one delta is set, and none after Reset. */
  lemma AtMostOneDelta(s: ControlState, msg: ControlMessage)
    ensures var t := Next(s, msg);
            (t.dx.Some? ==> t.dy.None? && t.dscale.None?) &&
            (t.dy.Some? ==> t.dscale.None?)
    ensures msg.action == Reset ==> Next(s, msg).dx.None? && Next(s, msg).dy.None? && Next(s, msg).dscale.None?
  {
  }

  /** The scale stays positive: it is the absolute value, raised to EPSILON. */
  lemma ScalePositive(s: ControlState, msg: ControlMessage)
    ensures Next(s, msg).scale >= EPSILON > 0.0
  {
  }

  /** Reset restores the default view exactly. */
  lemma ResetIsDefault(s: ControlState, shift: bool)
    ensures Next(s, ControlMessage(shift, Reset)) == Default()
  {
  }

  /** A move along x changes x alone, by the step, and records it. */
  lemma MoveX(s: ControlState, shift: bool)
    requires s.scale >= EPSILON
    ensures var d := StepOf(s.scale, shift);
            var inc := Next(s, ControlMessage(shift, IncX));
            var dec := Next(s, ControlMessage(shift, DecX));
            && inc == s.(x := s.x + d, dx := Some(d), dy := None, dscale := None)
            && dec == s.(x := s.x - d, dx := Some(-d), dy := None, dscale := None)
  {
  }

  /** IncY lowers y and DecY raises it. */
  lemma MoveY(s: ControlState, shift: bool)
    requires s.scale >= EPSILON
    ensures var d := StepOf(s.scale, shift);
            var inc := Next(s, ControlMessage(shift, IncY));
            var dec := Next(s, ControlMessage(shift, DecY));
            && inc == s.(y := s.y - d, dx := None, dy := Some(d), dscale := None)
            && dec == s.(y := s.y + d, dx := None, dy := Some(-d), dscale := None)
  {
  }

  /** IncScale shrinks the scale (zooming in) by a quarter, or a fortieth
      with shift; DecScale grows it; the centre does not move. (Near
      EPSILON the shrunk scale would be raised back to EPSILON.) */
  lemma MoveScale(s: ControlState, shift: bool)
    requires 0.75 * s.scale >= EPSILON
    ensures var d := StepOf(s.scale, shift);
            var inc := Next(s, ControlMessage(shift, IncScale));
            var dec := Next(s, ControlMessage(shift, DecScale));
            && inc.x == s.x && inc.y == s.y && inc.scale == s.scale - d && inc.dscale == Some(d)
            && dec.x == s.x && dec.y == s.y && dec.scale == s.scale + d && dec.dscale == Some(-d)
  {
  }

  /** Moving one way and back with the same modifier returns to the same
      centre. */
  lemma MoveUndo(s: ControlState, shift: bool)
    requires s.scale >= EPSILON
    ensures Next(Next(s, ControlMessage(shift, IncX)), ControlMessage(shift, DecX)).x == s.x
    ensures Next(Next(s, ControlMessage(shift, DecX)), ControlMessage(shift, IncX)).x == s.x
    ensures Next(Next(s, ControlMessage(shift, IncY)), ControlMessage(shift, DecY)).y == s.y
    ensures Next(Next(s, ControlMessage(shift, DecY)), ControlMessage(shift, IncY)).y == s.y
  {
  }

  // ---------------------------------------------------------- the keyboard

  /** The key handler of `rendered`: arrows move, `x` and `z` zoom, every
      other key is ignored. */
  function KeyAction(key: string): (a: Option<Action>)
    ensures a != Some(Reset)
  {
    if key == "ArrowRight" then Some(IncX)
    else if key == "ArrowLeft" then Some(DecX)
    else if key == "ArrowUp" then Some(IncY)
    else if key == "ArrowDown" then Some(DecY)
    else if key == "x" then Some(IncScale)
    else if key == "z" then Some(DecScale)
    else None
  }

  /** The key bound to each action; Reset has only its button. */
  function KeyFor(a: Action): (k: Option<string>)
    ensures k.None? <==> a == Reset
  {
    match a
    case IncX => Some("ArrowRight")
    case DecX => Some("ArrowLeft")
    case IncY => Some("ArrowUp")
    case DecY => Some("ArrowDown")
    case IncScale => Some("x")
    case DecScale => Some("z")
    case Reset => None
  }

  /** A key triggers an action exactly when it is that action's key. */
  lemma KeyActionKeyFor(key: string, a: Action)
    ensures KeyAction(key) == Some(a) <==> KeyFor(a) == Some(key)
  {
  }

  /** The message a key press sends, carrying the shift state. */
  function KeyMessage(key: string, shift: bool): (m: Option<ControlMessage>)
    ensures m.Some? <==> KeyAction(key).Some?
    ensures m.Some? ==> m.value == ControlMessage(shift, KeyAction(key).value)
  {
    match KeyAction(key)
    case None => None
    case Some(a) => Some(ControlMessage(shift, a))
  }
}
