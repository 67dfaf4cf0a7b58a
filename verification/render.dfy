/** The fractal viewer's render loop: the page keeps one render request,
    sends it to a worker, and on every image that comes back doubles the
    iteration budget and asks again until the budget reaches 64. The worker
    counts, for each pixel, how many iterations stay below the divergence
    threshold. */
module Render {
  import opened Wrappers
  import opened Utils
  import Controls

  newtype u8 = x: int | 0 <= x < 256

  /** `u16::MAX`. */
  const U16_MAX: nat := 65535

  datatype RenderRequest = RenderRequest(
    centerX: real, centerY: real, scale: real,
    windowX: real, windowY: real,
    steps: u8,
    divergenceThreshold: real)

  datatype RenderResponse = RenderResponse(
    data: seq<nat>, min: nat, max: nat, windowX: nat, windowY: nat)

  // ------------------------------------------------------ pixel addressing

  /** `index`: the column and row of pixel `i` in rows `w` wide. */
  function Index(i: nat, w: nat): (r: (nat, nat))
    requires w > 0
    ensures r.0 < w && i == r.1 * w + r.0
  {
    (i % w, i / w)
  }

  /** `rindex`: the pixel at row `x`, column `y` of rows `w` wide (the
      image callback passes the row first). */
  function RIndex(x: nat, y: nat, w: nat): (r: nat)
    ensures y < w ==> x * w <= r < (x + 1) * w
  {
    x * w + y
  }

  /** Reading a pixel back with its row and column gives the pixel. */
  lemma RIndexIndex(i: nat, w: nat)
    requires w > 0
    ensures RIndex(Index(i, w).1, Index(i, w).0, w) == i
  {
  }

  /** And the other way round: the address of a row and an in-range column
      splits back into that column and row. */
  lemma IndexRIndex(x: nat, y: nat, w: nat)
    requires y < w
    ensures Index(RIndex(x, y, w), w) == (y, x)
  {
    DivModUnique(RIndex(x, y, w), w, x, y);
  }

  lemma IndexExamples()
    ensures Index(3, 2) == (1, 1)
    ensures RIndex(1, 1, 2) == 3
  {
  }

  // ------------------------------------------------------------ the worker

  /** `f64 as usize`: truncation toward zero, negative sizes giving 0. */
  function ToUsize(r: real): (n: nat)
    ensures r >= 0.0 ==> n as real <= r < n as real + 1.0
    ensures r < 1.0 ==> n == 0
  {
    if r < 0.0 then 0 else r.Floor
  }

  /** The `take_while` count of one pixel from iteration `k` on: the
      iterations `k`, `k + 1`, … below `steps` whose orbit is still inside
      the threshold, up to the first one that is not. `bounded(x, y, k)`
      says the orbit of pixel `(x, y)` is inside after iteration `k`; the
      complex arithmetic behind it is not modelled. */
  function CountFrom(bounded: (nat, nat, nat) -> bool, x: nat, y: nat, k: nat, steps: nat): (r: nat)
    requires k <= steps
    ensures k <= r <= steps
    ensures forall j :: k <= j < r ==> bounded(x, y, j)
    ensures r < steps ==> !bounded(x, y, r)
    decreases steps - k
  {
    if k == steps || !bounded(x, y, k) then k else CountFrom(bounded, x, y, k + 1, steps)
  }

  /** The count of pixel `i`, as the worker computes it. */
  function PixelCount(bounded: (nat, nat, nat) -> bool, wx: nat, steps: nat, i: nat): (r: nat)
    requires wx > 0
    ensures r <= steps
  {
    CountFrom(bounded, Index(i, wx).0, Index(i, wx).1, 0, steps)
  }

  /** `u16::max` on the pixel counts. */
  function MaxCount(a: nat, b: nat): (m: nat)
    ensures m >= a && m >= b && (m == a || m == b)
  {
    if a >= b then a else b
  }

  /** `u16::min` on the pixel counts. */
  function MinCount(a: nat, b: nat): (m: nat)
    ensures m <= a && m <= b && (m == a || m == b)
  {
    if a <= b then a else b
  }

  /** The running maximum, from `u16::MIN`. */
  function MaxOf(s: seq<nat>): nat {
    if s == [] then 0 else MaxCount(MaxOf(s[..|s| - 1]), s[|s| - 1])
  }

  /** The running minimum, from `u16::MAX`. */
  function MinOf(s: seq<nat>): nat {
    if s == [] then U16_MAX else MinCount(MinOf(s[..|s| - 1]), s[|s| - 1])
  }

  /** The running "minimum" as written: it starts at `u16::MAX` but is
      updated with `max`. */
  function MinAsWritten(s: seq<nat>): nat {
    if s == [] then U16_MAX else MaxCount(MinAsWritten(s[..|s| - 1]), s[|s| - 1])
  }

  lemma {:induction false} MaxOfIsMax(s: seq<nat>)
    ensures forall i :: 0 <= i < |s| ==> s[i] <= MaxOf(s)
    ensures s != [] ==> exists i :: 0 <= i < |s| && s[i] == MaxOf(s)
    decreases |s|
  {
    if s != [] {
      var f := s[..|s| - 1];
      MaxOfIsMax(f);
      assert forall i :: 0 <= i < |f| ==> s[i] == f[i];
      if MaxOf(s) == s[|s| - 1] {
        assert s[|s| - 1] == MaxOf(s);
      } else {
        var i :| 0 <= i < |f| && f[i] == MaxOf(f);
        assert s[i] == MaxOf(s);
      }
    }
  }

  /** The corrected minimum: of 16-bit counts, it is the smallest. */
  lemma {:induction false} MinOfIsMin(s: seq<nat>)
    requires forall i :: 0 <= i < |s| ==> s[i] <= U16_MAX
    ensures forall i :: 0 <= i < |s| ==> MinOf(s) <= s[i]
    ensures s != [] ==> exists i :: 0 <= i < |s| && s[i] == MinOf(s)
    decreases |s|
  {
    if s != [] {
      var f := s[..|s| - 1];
      assert forall i :: 0 <= i < |f| ==> s[i] == f[i];
      MinOfIsMin(f);
    }
  }

  /** As written, the reported minimum of 16-bit counts is always
      `u16::MAX`. */
  lemma {:induction false} MinAsWrittenStuck(s: seq<nat>)
    requires forall i :: 0 <= i < |s| ==> s[i] <= U16_MAX
    ensures MinAsWritten(s) == U16_MAX
    decreases |s|
  {
    if s != [] {
      var f := s[..|s| - 1];
      assert forall i :: 0 <= i < |f| ==> s[i] == f[i];
      MinAsWrittenStuck(f);
    }
  }

  /** A one-pixel image whose count is 3 reports a minimum of 65535. */
  lemma MinAsWrittenExample()
    ensures MinAsWritten([3]) == U16_MAX && MinOf([3]) == 3
  {
    assert [3][..0] == [];
  }

  /** `Worker::received`: one count per pixel of the truncated window, at
      most `steps` each, and their extremes. The minimum is the corrected
      one (see MinAsWritten for the original's). */
  method Received(req: RenderRequest, bounded: (nat, nat, nat) -> bool) returns (resp: RenderResponse)
    ensures resp.windowX == ToUsize(req.windowX) && resp.windowY == ToUsize(req.windowY)
    ensures |resp.data| == resp.windowX * resp.windowY
    ensures forall i :: 0 <= i < |resp.data| ==>
              resp.data[i] == PixelCount(bounded, resp.windowX, req.steps as nat, i) <= req.steps as nat
    ensures resp.max == MaxOf(resp.data) && resp.min == MinOf(resp.data)
  {
    var wx := ToUsize(req.windowX);
    var wy := ToUsize(req.windowY);
    var steps := req.steps as nat;
    var dataSize := wx * wy;
    var max := 0;
    var min := U16_MAX;
    var data: seq<nat> := [];
    var i := 0;
    while i < dataSize
      invariant i <= dataSize && |data| == i
      invariant forall j :: 0 <= j < i ==> data[j] == PixelCount(bounded, wx, steps, j)
      invariant max == MaxOf(data) && min == MinOf(data)
    {
      var (x, y) := Index(i, wx);
      var count := 0;
      while count < steps && bounded(x, y, count)
        invariant count <= steps
        invariant CountFrom(bounded, x, y, 0, steps) == CountFrom(bounded, x, y, count, steps)
        decreases steps - count
      {
        count := count + 1;
      }
      assert (data + [count])[..i] == data;
      max := MaxCount(max, count);
      min := MinCount(min, count);
      data := data + [count];
      i := i + 1;
    }
    resp := RenderResponse(data, min, max, wx, wy);
  }

  // --------------------------------------------------------------- the app

  /** The page's messages; a resize carries the new window size, which the
      original reads from the browser. */
  datatype Msg = Resize(width: real, height: real) | Update(view: Controls.ControlState) | SetImage(image: RenderResponse)

  /** `u8::saturating_mul(2)`. */
  function SaturatingDouble(s: u8): (r: u8)
    ensures s < 128 ==> r as int == 2 * s as int
    ensures s >= 128 ==> r == 255
  {
    if 2 * (s as int) > 255 then 255 else (2 * s as int) as u8
  }

  /** The request after a message, and whether it is sent to the worker. */
  function NextRequest(req: RenderRequest, msg: Msg): (r: (RenderRequest, bool))
  {
    match msg
    case Resize(w, h) => (req.(windowX := w, windowY := h, steps := 16), true)
    case Update(v) => (req.(centerX := v.x, centerY := v.y, scale := v.scale, steps := 16), true)
    case SetImage(_) =>
      if req.steps < 64 then (req.(steps := SaturatingDouble(req.steps)), true) else (req, false)
  }

  /** The opening view of `App::create`, for a window of the given size. */
  function InitialRequest(width: real, height: real): (r: RenderRequest)
    ensures r.centerX == -1.745 && r.centerY == -0.038 && r.scale == 0.1789
    ensures r.windowX == width && r.windowY == height
    ensures r.steps == 8 && r.divergenceThreshold == 10.0
  {
    RenderRequest(-1.745, -0.038, 0.1789, width, height, 8, 10.0)
  }

  /** `App`: the current request and every request sent to the worker, in
      order. The encoded image is not modelled. */
  class App {
    var request: RenderRequest
    var sent: seq<RenderRequest>

    /** `create`: nothing is sent until the first message. */
    constructor (width: real, height: real)
      ensures request == InitialRequest(width, height) && sent == []
    {
      request := InitialRequest(width, height);
      sent := [];
    }

    /** `update`: returns whether the page redraws. */
    method Update(msg: Msg) returns (redraw: bool)
      modifies this
      ensures request == NextRequest(old(request), msg).0
      ensures sent == old(sent) + (if NextRequest(old(request), msg).1 then [request] else [])
      ensures redraw <==> msg.SetImage?
    {
      match msg {
        case Resize(w, h) =>
          request := request.(windowX := w);
          request := request.(windowY := h);
          request := request.(steps := 16);
          sent := sent + [request];
          redraw := false;
        case Update(v) =>
          request := request.(centerX := v.x);
          request := request.(centerY := v.y);
          request := request.(scale := v.scale);
          request := request.(steps := 16);
          sent := sent + [request];
          redraw := false;
        case SetImage(_) =>
          if request.steps < 64 {
            request := request.(steps := SaturatingDouble(request.steps));
            sent := sent + [request];
          }
          redraw := true;
      }
    }
  }

  // ------------------------------------------------------------ properties

  /** Resizing and moving both restart the refinement at 16 iterations and
      send; a move copies the view, a resize the window, and nothing else
      changes. */
  lemma RestartAt16(req: RenderRequest, msg: Msg)
    requires !msg.SetImage?
    ensures NextRequest(req, msg).0.steps == 16 && NextRequest(req, msg).1
    ensures NextRequest(req, msg).0.divergenceThreshold == req.divergenceThreshold
    ensures msg.Update? ==> var r := NextRequest(req, msg).0;
              r.centerX == msg.view.x && r.centerY == msg.view.y && r.scale == msg.view.scale &&
              r.windowX == req.windowX && r.windowY == req.windowY
    ensures msg.Resize? ==> var r := NextRequest(req, msg).0;
              r.windowX == msg.width && r.windowY == msg.height &&
              r.centerX == req.centerX && r.centerY == req.centerY && r.scale == req.scale
  {
  }

  /** Each image doubles the budget below 64 and sends; from 64 on nothing
      changes and nothing is sent. */
  lemma SetImageDoubles(req: RenderRequest, image: RenderResponse)
    ensures var (r, send) := NextRequest(req, SetImage(image));
            && (send <==> req.steps < 64)
            && (req.steps < 64 ==> r == req.(steps := 2 * req.steps))
            && (req.steps >= 64 ==> r == req)
  {
  }

  /** The request after a run of images. */
  function AfterImages(req: RenderRequest, images: seq<RenderResponse>): RenderRequest
    decreases |images|
  {
    if images == [] then req else AfterImages(NextRequest(req, SetImage(images[0])).0, images[1..])
  }

  /** From 16, the images bring the budget to 32 and then 64, where it
      stays, and only the first two of them are answered with a request. */
  lemma {:induction false} RefinementStopsAt64(req: RenderRequest, images: seq<RenderResponse>)
    requires req.steps == 16 && |images| >= 2
    ensures NextRequest(req, SetImage(images[0])).0.steps == 32
    ensures NextRequest(NextRequest(req, SetImage(images[0])).0, SetImage(images[1])).0.steps == 64
    ensures AfterImages(req, images).steps == 64
  {
    var r1 := NextRequest(req, SetImage(images[0])).0;
    var r2 := NextRequest(r1, SetImage(images[1])).0;
    assert AfterImages(req, images) == AfterImages(r1, images[1..]);
    assert AfterImages(r1, images[1..]) == AfterImages(r2, images[2..]);
    AfterImagesFixed(r2, images[2..]);
  }

  /** Once the budget is at least 64, further images change nothing. */
  lemma {:induction false} AfterImagesFixed(req: RenderRequest, images: seq<RenderResponse>)
    requires req.steps >= 64
    ensures AfterImages(req, images) == req
    decreases |images|
  {
    if images != [] {
      AfterImagesFixed(req, images[1..]);
    }
  }
}
