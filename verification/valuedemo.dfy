/** The stand-alone demo page: a value setter with `-` and `+` buttons and a
    text field, and an app that keeps the scale and centre it is told. */
module ValueDemo {

  /** `ValueSetterProps`; `init` and `step` default to 0 and 1. */
  datatype Props = Props(name: string, init: real, step: real)

  function DefaultProps(name: string): (p: Props)
    ensures p.name == name && p.init == 0.0 && p.step == 1.0
  {
    Props(name, 0.0, 1.0)
  }

  datatype SetterMessage = Inc | Dec | Set(value: real)

  /** The value after a message. */
  function Apply(value: real, step: real, msg: SetterMessage): (v: real)
  {
    match msg
    case Inc => value + step
    case Dec => value - step
    case Set(s) => s
  }

  /** `ValueSetter`: its value and name, the properties it was created with
      and everything it has passed to the callback, in order. */
  class ValueSetter {
    var value: real
    var name: string
    const props: Props
    var emitted: seq<real>

    /** `create`: start at `init`, with the given name. */
    constructor (p: Props)
      ensures value == p.init && name == p.name && props == p && emitted == []
    {
      props := p;
      value := p.init;
      name := p.name;
      emitted := [];
    }

    /** `update`: change the value, report it, and redraw. */
    method Update(msg: SetterMessage) returns (redraw: bool)
      modifies this
      ensures value == Apply(old(value), props.step, msg)
      ensures emitted == old(emitted) + [value]
      ensures name == old(name)
      ensures redraw
    {
      match msg {
        case Inc => value := value + props.step;
        case Dec => value := value - props.step;
        case Set(s) => value := s;
      }
      emitted := emitted + [value];
      redraw := true;
    }
  }

  /** Inc moves up by the step, Dec down, and Set replaces. */
  lemma ApplyMeaning(value: real, step: real, s: real)
    ensures Apply(value, step, Inc) - value == step
    ensures value - Apply(value, step, Dec) == step
    ensures Apply(value, step, Set(s)) == s
  {
  }

  /** Inc and Dec undo each other, in either order; Set forgets the value
      before it. */
  lemma ApplyInverse(value: real, step: real, other: real, s: real)
    ensures Apply(Apply(value, step, Inc), step, Dec) == value
    ensures Apply(Apply(value, step, Dec), step, Inc) == value
    ensures Apply(value, step, Set(s)) == Apply(other, step, Set(s))
  {
  }

  /** The value after a run of messages. */
  function ApplyAll(value: real, step: real, msgs: seq<SetterMessage>): real
    decreases |msgs|
  {
    if msgs == [] then value else ApplyAll(Apply(value, step, msgs[0]), step, msgs[1..])
  }

  function CountOf(msgs: seq<SetterMessage>, m: SetterMessage): nat
    decreases |msgs|
  {
    if msgs == [] then 0 else (if msgs[0] == m then 1 else 0) + CountOf(msgs[1..], m)
  }

  /** Without a Set, only the balance of presses counts: the value moves by
      the step times the number of Incs less the number of Decs. */
  lemma {:induction false} ApplyAllBalance(value: real, step: real, msgs: seq<SetterMessage>)
    requires forall i :: 0 <= i < |msgs| ==> !msgs[i].Set?
    ensures ApplyAll(value, step, msgs) == value + step * ((CountOf(msgs, Inc) as int - CountOf(msgs, Dec) as int) as real)
    decreases |msgs|
  {
    if msgs != [] {
      var next := Apply(value, step, msgs[0]);
      ApplyAllBalance(next, step, msgs[1..]);
      var i := CountOf(msgs[1..], Inc) as int;
      var d := CountOf(msgs[1..], Dec) as int;
      if msgs[0] == Inc {
        assert step * ((i + 1 - d) as real) == step + step * ((i - d) as real);
      } else {
        assert step * ((i - (d + 1)) as real) == -step + step * ((i - d) as real);
      }
    }
  }

  // --------------------------------------------------------------- the app

  datatype Msg = SetScale(scale: real) | SetCenterX(x: real) | SetCenterY(y: real)

  /** The demo's `App`: a scale and a centre. */
  class App {
    var scale: real
    var centerX: real
    var centerY: real

    /** `create`: unit scale around the origin. */
    constructor ()
      ensures scale == 1.0 && centerX == 0.0 && centerY == 0.0
    {
      scale := 1.0;
      centerX := 0.0;
      centerY := 0.0;
    }

    /** `update`: each message sets its own field and no other. */
    method Update(msg: Msg) returns (redraw: bool)
      modifies this
      ensures scale == (if msg.SetScale? then msg.scale else old(scale))
      ensures centerX == (if msg.SetCenterX? then msg.x else old(centerX))
      ensures centerY == (if msg.SetCenterY? then msg.y else old(centerY))
      ensures redraw
    {
      match msg {
        case SetScale(s) => scale := s;
        case SetCenterX(x) => centerX := x;
        case SetCenterY(y) => centerY := y;
      }
      redraw := true;
    }
  }
}
