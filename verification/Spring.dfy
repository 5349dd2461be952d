/**
 `NumericSpringAnimator` of FloatingPanel, over exact reals: every frame moves a
 value on a damped spring toward a target until both tests of `update` are met.
 */
module Spring {

  datatype Data = Data(value: real, velocity: real)

  /** What an animator is created with, and the angular frequency and damping ratio it derives. */
  datatype Params = Params(target: real, displayScale: real, zeta: real, omega: real)

  predicate WfParams(p: Params) {
    p.displayScale > 0.0 && p.zeta >= 0.0 && p.omega >= 0.0
  }

  function Abs(x: real): real {
    if x < 0.0 then -x else x
  }

  /** `f` of the integrator */
  function Damping(p: Params, h: real): (f: real)
    requires WfParams(p) && h >= 0.0
    ensures f >= 1.0
  {
    ProductNonNegative(h, p.zeta);
    ProductNonNegative(h * p.zeta, p.omega);
    1.0 + 2.0 * h * p.zeta * p.omega
  }

  lemma ProductNonNegative(a: real, b: real)
    requires a >= 0.0 && b >= 0.0
    ensures a * b >= 0.0
  {
  }

  lemma SquarePositive(a: real, s: real)
    requires a > 0.0 && s == a * a
    ensures s > 0.0
  {
    ProductPositive(a, a, s);
  }

  lemma SquareNonNegative(a: real)
    ensures a * a >= 0.0
  {
  }

  /** `h2 * o2`, the square of h times omega */
  function Stiffness(p: Params, h: real): (a: real)
    ensures a >= 0.0
  {
    SquareNonNegative(h);
    SquareNonNegative(p.omega);
    ProductNonNegative(h * h, p.omega * p.omega);
    h * h * (p.omega * p.omega)
  }

  /** `spring`: the position first, then the velocity, which already sees the new position. */
  function Step(p: Params, d: Data, h: real): Data
    requires WfParams(p) && h >= 0.0
  {
    var f := Damping(p, h);
    var det := f + Stiffness(p, h);
    var x := (f * d.value + h * d.velocity + Stiffness(p, h) * p.target) / det;
    Data(x, (d.velocity + h * (p.omega * p.omega) * (p.target - x)) / det)
  }

  /** The stop test of `update` */
  predicate Settled(p: Params, before: real, after: real)
    requires WfParams(p)
  {
    Abs(p.target - after) <= 1.0 / p.displayScale && Abs(before - after) / (1.0 / p.displayScale) <= 1.0
  }

  /** What a stop implies: the value is within a pixel of the target, the last move was at most a
      pixel, and the speed that is left is at most that of such a move over the frame, damped. */
  predicate Stopped(p: Params, before: Data, after: Data, h: real)
    requires WfParams(p) && h >= 0.0
  {
    var pixel := 1.0 / p.displayScale;
    && Abs(p.target - after.value) <= pixel && Abs(before.value - after.value) <= pixel
    && DampedTo(h, after.velocity, Damping(p, h) + Stiffness(p, h), Damping(p, h), pixel)
  }

  /** A speed of at most f / det of a way in h seconds. */
  predicate DampedTo(h: real, v: real, det: real, f: real, way: real) {
    h * Abs(v) * det <= way * f
  }

  class NumericSpringAnimator {
    const params: Params
    var data: Data
    var isRunning: bool

    constructor (params: Params, initialData: Data)
      ensures this.params == params && data == initialData && !isRunning
    {
      this.params, data, isRunning := params, initialData, false;
    }

    /** `startAnimation` */
    method StartAnimation() returns (started: bool)
      modifies `isRunning
      ensures started == !old(isRunning) && isRunning
    {
      if isRunning {
        return false;
      }
      isRunning := true;
      started := true;
    }

    /** `spring` on its two `inout` arguments */
    method Integrate(x0: real, v0: real, h: real) returns (x: real, v: real)
      requires WfParams(params) && h >= 0.0
      ensures Data(x, v) == Step(params, Data(x0, v0), h)
    {
      x, v := x0, v0;
      var f := 1.0 + 2.0 * h * params.zeta * params.omega;
      var h2 := h * h;
      var o2 := params.omega * params.omega;
      assert f == Damping(params, h) && h2 * o2 == Stiffness(params, h);
      var det := f + h2 * o2;
      x := (f * x + h * v + h2 * o2 * params.target) / det;
      v := (v + h * o2 * (params.target - x)) / det;
    }

    /** `update`: one frame of h seconds. The energy never grows, it shrinks by the factor of the
        frame, and a frame that begins with little enough of it is the last one. */
    method Update(h: real)
      requires WfParams(params) && h >= 0.0
      modifies this
      ensures data == Step(params, old(data), h)
      ensures isRunning == (old(isRunning) && !Settled(params, old(data).value, data.value))
      ensures old(isRunning) && !isRunning ==> Stopped(params, old(data), data, h)
      ensures Energy(params, data) <= Energy(params, old(data))
      ensures Energy(params, data) * (Damping(params, h) + Stiffness(params, h))
              <= Energy(params, old(data)) * Damping(params, h)
      ensures params.omega > 0.0 && Energy(params, old(data)) <= Threshold(params) ==> !isRunning
    {
      EnergyNeverGrows(params, data, h);
      EnergyShrinks(params, data, h);
      if Settled(params, data.value, Step(params, data, h).value) {
        StopBounds(params, data, h);
      }
      if params.omega > 0.0 && Energy(params, data) <= Threshold(params) {
        LastFrame(params, data, h);
      }
      var pre := data.value;
      var cur, velocity := Integrate(pre, data.velocity, h);
      data := Data(cur, velocity);
      if Abs(params.target - data.value) <= 1.0 / params.displayScale
         && Abs(pre - data.value) / (1.0 / params.displayScale) <= 1.0 {
        isRunning := false;
      }
    }
  }

  // ------------------------------------------------ what the step computes

  /** What the velocity of one step of implicit Euler is. */
  function ImplicitVelocity(p: Params, d: Data, h: real): real
    requires WfParams(p) && h >= 0.0
  {
    (d.velocity - h * (p.omega * p.omega) * (d.value - p.target)) / (Damping(p, h) + Stiffness(p, h))
  }

  /** The new position is one of implicit Euler, x + h * u, where u solves
      u == v - h * (2 * zeta * omega * u + omega^2 * (x + h * u - target)); the new velocity
      is u damped once more, for the code reads the position after its update. */
  lemma StepIsImplicitEuler(p: Params, d: Data, h: real) returns (u: real)
    requires WfParams(p) && h >= 0.0
    ensures Step(p, d, h).value == d.value + h * u
    ensures u == d.velocity - h * (2.0 * p.zeta * p.omega * u + p.omega * p.omega * (d.value + h * u - p.target))
    ensures Step(p, d, h).velocity * (Damping(p, h) + Stiffness(p, h)) == u * Damping(p, h)
  {
    u := ImplicitVelocity(p, d, h);
    StepPosition(p, d, h);
    StepVelocity(p, d, h);
    ImplicitEquation(p, d, h);
  }

  lemma StepPosition(p: Params, d: Data, h: real)
    requires WfParams(p) && h >= 0.0
    ensures Step(p, d, h).value == d.value + h * ImplicitVelocity(p, d, h)
  {
    var c := h * (p.omega * p.omega);
    assert Stiffness(p, h) == h * c;
    PositionOf(d.value, d.velocity, p.target, Damping(p, h), h, c, ImplicitVelocity(p, d, h), Step(p, d, h).value);
  }

  lemma StepVelocity(p: Params, d: Data, h: real)
    requires WfParams(p) && h >= 0.0
    ensures Step(p, d, h).velocity * (Damping(p, h) + Stiffness(p, h)) == ImplicitVelocity(p, d, h) * Damping(p, h)
  {
    var c := h * (p.omega * p.omega);
    assert Stiffness(p, h) == h * c;
    StepPosition(p, d, h);
    VelocityOf(d.value, d.velocity, p.target, Damping(p, h), h, c, ImplicitVelocity(p, d, h), Step(p, d, h).value);
  }

  lemma ImplicitEquation(p: Params, d: Data, h: real)
    requires WfParams(p) && h >= 0.0
    ensures var u := ImplicitVelocity(p, d, h);
            u == d.velocity - h * (2.0 * p.zeta * p.omega * u + p.omega * p.omega * (d.value + h * u - p.target))
  {
    var f, c, u := Damping(p, h), h * (p.omega * p.omega), ImplicitVelocity(p, d, h);
    assert Stiffness(p, h) == h * c;
    VelocityOf(d.value, d.velocity, p.target, f, h, c, u, d.value + h * u);
    var x, k := d.value + h * u - p.target, 2.0 * p.zeta * p.omega;
    assert f == 1.0 + h * k;
    assert f * u == u + h * (k * u);
    assert c * x == h * (p.omega * p.omega * x);
  }

  lemma PositionOf(x: real, v: real, target: real, f: real, h: real, c: real, u: real, x': real)
    requires f + h * c > 0.0
    requires u == (v - c * (x - target)) / (f + h * c) && x' == (f * x + h * v + h * c * target) / (f + h * c)
    ensures x' == x + h * u
  {
    var det := f + h * c;
    assert u * det == v - c * (x - target);
    assert x' * det == f * x + h * v + h * c * target;
    assert (x + h * u) * det == x * det + h * (u * det);
    assert x * det == f * x + h * c * x;
    assert h * (v - c * (x - target)) == h * v - h * c * x + h * c * target;
    SameQuotient(det, x', x + h * u);
  }

  lemma SameQuotient(det: real, a: real, b: real)
    requires det > 0.0 && a * det == b * det
    ensures a == b
  {
    assert (a - b) * det == a * det - b * det;
  }

  lemma VelocityOf(x: real, v: real, target: real, f: real, h: real, c: real, u: real, x': real)
    requires f + h * c > 0.0 && x' == x + h * u
    requires u == (v - c * (x - target)) / (f + h * c)
    ensures f * u == v - c * (x' - target)
    ensures v + c * (target - x') == u * f
  {
    var det := f + h * c;
    assert u * det == v - c * (x - target);
    assert u * det == f * u + h * c * u;
    assert c * (x' - target) == c * (x - target) + h * c * u;
  }

  // --------------------------------------------------------------- energy

  function Energy(p: Params, d: Data): (e: real)
    ensures e >= 0.0
  {
    var y := p.omega * (d.value - p.target);
    SquareNonNegative(y);
    SquareNonNegative(d.velocity);
    y * y + d.velocity * d.velocity
  }

  /** The step in terms of the scaled error y = omega * (x - target) and of b = h * omega. */
  lemma StepEquations(p: Params, d: Data, h: real)
    requires WfParams(p) && h >= 0.0
    ensures var f, b := Damping(p, h), h * p.omega;
            var y, y' := p.omega * (d.value - p.target), p.omega * (Step(p, d, h).value - p.target);
            && b * b == Stiffness(p, h)
            && y' * (f + b * b) == f * y + b * d.velocity
            && Step(p, d, h).velocity * (f + b * b) == d.velocity - b * y'
  {
    var f, a, b := Damping(p, h), Stiffness(p, h), h * p.omega;
    assert a == b * b by {
      assert a == h * h * (p.omega * p.omega) == (h * p.omega) * (h * p.omega);
    }
    var x' := Step(p, d, h).value;
    NewError(d.value, x', p.target, p.omega, d.velocity, f, a, h);
    assert Step(p, d, h).velocity * (f + a) == d.velocity + h * (p.omega * p.omega) * (p.target - x');
    assert h * (p.omega * p.omega) * (p.target - x') == -(b * (p.omega * (x' - p.target)));
  }

  lemma NewError(x: real, x': real, target: real, omega: real, v: real, f: real, a: real, h: real)
    requires f + a > 0.0 && x' == (f * x + h * v + a * target) / (f + a)
    ensures omega * (x' - target) * (f + a) == f * (omega * (x - target)) + h * omega * v
  {
    assert x' * (f + a) == f * x + h * v + a * target;
    assert (x' - target) * (f + a) == f * (x - target) + h * v by {
      assert (x' - target) * (f + a) == x' * (f + a) - target * (f + a);
    }
    assert omega * (x' - target) * (f + a) == omega * ((x' - target) * (f + a));
    assert omega * (f * (x - target) + h * v) == f * (omega * (x - target)) + h * omega * v;
  }

  /** The heart of the matter, in numbers: with D = f + b^2, the new energy times D is at most
      f times the old one. */
  lemma Contraction(f: real, b: real, y: real, v: real, y': real, v': real)
    requires f >= 1.0
    requires y' * (f + b * b) == f * y + b * v
    requires v' * (f + b * b) == v - b * y'
    ensures (y' * y' + v' * v') * (f + b * b) <= f * (y * y + v * v)
  {
    var D := f + b * b;
    SquareNonNegative(b);
    VelocityTimesSquare(f, b, y, v, y', v', D);
    Smaller(v' * D, f, D, v - b * y);
    QuadraticForm(f, b, y, v);
    Squares(y', v', D);
    Chain(D, y' * y' + v' * v', f, y * y, v * v, y' * D, v' * D, f * y + b * v, v - b * y);
  }

  lemma Chain(D: real, e: real, f: real, yy: real, vv: real, p: real, q: real, s: real, w: real)
    requires D > 0.0 && f >= 1.0 && vv >= 0.0
    requires p * p + q * q == D * (e * D) && p == s && q * q <= w * w && s * s + w * w <= D * (f * yy + vv)
    ensures e * D <= f * (yy + vv)
  {
    ProductNonNegative(f - 1.0, vv);
    assert f * (yy + vv) - (f * yy + vv) == (f - 1.0) * vv;
    Unscale(D, e * D, f * yy + vv);
  }

  lemma Squares(a: real, b: real, D: real)
    ensures (a * D) * (a * D) + (b * D) * (b * D) == D * ((a * a + b * b) * D)
  {
    assert (a * D) * (a * D) == D * (a * a * D);
    assert (b * D) * (b * D) == D * (b * b * D);
    assert (a * a + b * b) * D == a * a * D + b * b * D;
  }

  lemma Scale(D: real, a: real, b: real)
    requires D >= 0.0 && a <= b
    ensures D * a <= D * b
  {
    ProductNonNegative(D, b - a);
    assert D * (b - a) == D * b - D * a;
  }

  lemma Unscale(D: real, a: real, b: real)
    requires D > 0.0 && D * a <= D * b
    ensures a <= b
  {
    var q := 1.0 / D;
    ProductNonNegative(q, D * b - D * a);
    assert q * (D * b - D * a) == q * D * b - q * D * a;
    assert q * D == 1.0;
  }

  lemma VelocityTimesSquare(f: real, b: real, y: real, v: real, y': real, v': real, D: real)
    requires D == f + b * b && y' * D == f * y + b * v && v' * D == v - b * y'
    ensures v' * D * D == f * (v - b * y)
  {
    assert v' * D * D == (v - b * y') * D == v * D - b * (y' * D);
    assert b * (f * y + b * v) == f * (b * y) + b * b * v;
    assert v * D == v * f + b * b * v;
    assert f * (v - b * y) == v * f - f * (b * y);
  }

  /** When z * D == f * w with 0 <= f <= D, then z^2 <= w^2. */
  lemma Smaller(z: real, f: real, D: real, w: real)
    requires 0.0 <= f <= D && D > 0.0 && z * D == f * w
    ensures z * z <= w * w
  {
    var g := f / D;
    assert z == g * w;
    assert 0.0 <= g <= 1.0;
    assert z * z == g * g * (w * w);
    ProductNonNegative(1.0 - g, 1.0 + g);
    assert (1.0 - g) * (1.0 + g) == 1.0 - g * g;
    SquareNonNegative(w);
    ProductNonNegative(1.0 - g * g, w * w);
    assert (1.0 - g * g) * (w * w) == w * w - g * g * (w * w);
  }

  lemma QuadraticForm(f: real, b: real, y: real, v: real)
    requires f >= 1.0
    ensures (f * y + b * v) * (f * y + b * v) + (v - b * y) * (v - b * y) <= (f + b * b) * (f * (y * y) + v * v)
  {
    var r := b * y - v;
    SquareNonNegative(r);
    ProductNonNegative(f - 1.0, r * r);
    var yy, yv, vv := y * y, y * v, v * v;
    assert (f * y + b * v) * (f * y + b * v) == f * f * yy + 2.0 * (f * b) * yv + b * b * vv;
    assert (v - b * y) * (v - b * y) == vv - 2.0 * b * yv + b * b * yy;
    assert r * r == b * b * yy - 2.0 * b * yv + vv;
    assert (f - 1.0) * (r * r) == f * (b * b) * yy - 2.0 * (f * b) * yv + f * vv - (b * b * yy - 2.0 * b * yv + vv);
    assert (f + b * b) * (f * yy + vv) == f * f * yy + f * vv + f * (b * b) * yy + b * b * vv;
  }

  /** In every frame the energy shrinks at least by the factor f / (f + h^2 * omega^2). */
  lemma EnergyShrinks(p: Params, d: Data, h: real)
    requires WfParams(p) && h >= 0.0
    ensures Energy(p, Step(p, d, h)) * (Damping(p, h) + Stiffness(p, h)) <= Energy(p, d) * Damping(p, h)
  {
    StepEquations(p, d, h);
    var n := Step(p, d, h);
    Contraction(Damping(p, h), h * p.omega, p.omega * (d.value - p.target), d.velocity,
                p.omega * (n.value - p.target), n.velocity);
  }

  /** The energy never grows, whatever the frame. */
  lemma EnergyNeverGrows(p: Params, d: Data, h: real)
    requires WfParams(p) && h >= 0.0
    ensures Energy(p, Step(p, d, h)) <= Energy(p, d)
  {
    EnergyShrinks(p, d, h);
    Cancel(Energy(p, Step(p, d, h)), Energy(p, d), Damping(p, h), Stiffness(p, h));
  }

  lemma Cancel(e': real, e: real, f: real, a: real)
    requires e' >= 0.0 && a >= 0.0 && f > 0.0 && e' * (f + a) <= e * f
    ensures e' <= e
  {
    ProductNonNegative(e', a);
    assert e' * (f + a) == e' * f + e' * a;
    assert f * e' == e' * f;
    assert f * e == e * f;
    Unscale(f, e', e);
  }

  // ---------------------------------------------------------- termination

  /** The animation stops within the frames hs. */
  predicate StopsWithin(p: Params, d: Data, hs: seq<real>)
    requires WfParams(p) && AllAtLeast(hs, 0.0)
    decreases |hs|
  {
    hs != [] && var next := Step(p, d, hs[0]); Settled(p, d.value, next.value) || StopsWithin(p, next, hs[1..])
  }

  predicate AllAtLeast(hs: seq<real>, h0: real) {
    hs == [] || (hs[0] >= h0 && AllAtLeast(hs[1..], h0))
  }

  lemma {:induction false} AtLeastLess(hs: seq<real>, h0: real, h1: real)
    requires AllAtLeast(hs, h0) && h1 <= h0
    ensures AllAtLeast(hs, h1)
  {
    if hs != [] {
      AtLeastLess(hs[1..], h0, h1);
    }
  }

  /** What an energy may be for the next frame to be the last: (omega / (2 * displayScale))^2. */
  function Threshold(p: Params): real
    requires WfParams(p)
  {
    var t := p.omega / (2.0 * p.displayScale);
    t * t
  }

  /** With that little energy the value is within half a pixel of the target. */
  lemma CloseToTarget(p: Params, d: Data)
    requires WfParams(p) && p.omega > 0.0 && Energy(p, d) <= Threshold(p)
    ensures Abs(p.target - d.value) <= 1.0 / p.displayScale / 2.0
  {
    var y, half := d.value - p.target, 1.0 / p.displayScale / 2.0;
    SquareNonNegative(d.velocity);
    assert p.omega / (2.0 * p.displayScale) == p.omega * half;
    assert (p.omega * y) * (p.omega * y) <= (p.omega * half) * (p.omega * half);
    Root(p.omega, y, half);
  }

  lemma Root(omega: real, y: real, half: real)
    requires omega > 0.0 && half > 0.0 && (omega * y) * (omega * y) <= (omega * half) * (omega * half)
    ensures -half <= y <= half
  {
    var a, c := Abs(y), half;
    assert (omega * y) * (omega * y) == omega * omega * (a * a);
    assert (omega * c) * (omega * c) == omega * omega * (c * c);
    var o2 := omega * omega;
    SquarePositive(omega, o2);
    Unscale(o2, a * a, c * c);
    if a > c {
      Bigger(a, c);
    }
  }

  lemma Bigger(a: real, c: real)
    requires a > c > 0.0
    ensures a * a > c * c
  {
    assert a * a - c * c == (a - c) * (a + c);
  }

  lemma LastFrame(p: Params, d: Data, h: real)
    requires WfParams(p) && p.omega > 0.0 && h >= 0.0 && Energy(p, d) <= Threshold(p)
    ensures Settled(p, d.value, Step(p, d, h).value)
  {
    EnergyNeverGrows(p, d, h);
    CloseToTarget(p, d);
    CloseToTarget(p, Step(p, d, h));
    AtMostOne(Abs(d.value - Step(p, d, h).value), 1.0 / p.displayScale);
  }

  lemma AtMostOne(gap: real, pixel: real)
    requires gap <= pixel && pixel > 0.0
    ensures gap / pixel <= 1.0
  {
    assert gap / pixel * pixel == gap;
    Unscale(pixel, gap / pixel, 1.0);
  }

  /** The rate of a frame of h seconds, omega^2 * h^2 / (1 + 2 * h * zeta * omega). */
  function Rate(p: Params, h: real): real
    requires WfParams(p) && h >= 0.0
  {
    Stiffness(p, h) / Damping(p, h)
  }

  /** A longer frame takes more energy away. */
  lemma RateGrows(p: Params, h0: real, h: real)
    requires WfParams(p) && 0.0 <= h0 <= h
    ensures Rate(p, h0) <= Rate(p, h)
  {
    var k, o2 := 2.0 * p.zeta * p.omega, p.omega * p.omega;
    ProductNonNegative(p.zeta, p.omega);
    SquareNonNegative(p.omega);
    assert Damping(p, h0) == 1.0 + k * h0 && Damping(p, h) == 1.0 + k * h;
    Fractions(h0, h, k, o2);
    assert Rate(p, h0) == h0 * h0 * o2 / (1.0 + k * h0);
    assert Rate(p, h) == h * h * o2 / (1.0 + k * h);
  }

  lemma Fractions(h0: real, h: real, k: real, o2: real)
    requires 0.0 <= h0 <= h && k >= 0.0 && o2 >= 0.0
    ensures 1.0 + k * h0 > 0.0 && 1.0 + k * h > 0.0
    ensures h0 * h0 * o2 / (1.0 + k * h0) <= h * h * o2 / (1.0 + k * h)
  {
    ProductNonNegative(k, h0);
    ProductNonNegative(k, h);
    var f0, f := 1.0 + k * h0, 1.0 + k * h;
    var a, b := h0 * h0 * o2 / f0, h * h * o2 / f;
    CrossTerms(h0, h, k);
    Scale(o2, h0 * h0 * f, h * h * f0);
    assert a * f0 == h0 * h0 * o2 && b * f == h * h * o2;
    assert f0 * f * a == o2 * (h0 * h0 * f) by {
      assert f0 * f * a == (a * f0) * f;
    }
    assert f0 * f * b == o2 * (h * h * f0) by {
      assert f0 * f * b == (b * f) * f0;
    }
    Unscale(f0 * f, a, b);
  }

  lemma CrossTerms(h0: real, h: real, k: real)
    requires 0.0 <= h0 <= h && k >= 0.0
    ensures h0 * h0 * (1.0 + k * h) <= h * h * (1.0 + k * h0)
  {
    ProductNonNegative(h - h0, h + h0);
    ProductNonNegative(h, h0);
    ProductNonNegative(k, h * h0);
    ProductNonNegative(k * (h * h0), h - h0);
    assert h * h * (1.0 + k * h0) - h0 * h0 * (1.0 + k * h) == (h - h0) * (h + h0) + k * (h * h0) * (h - h0);
  }

  /** Frames of at least h0 seconds stop the animation in a known number: n + 1 frames are
      enough when the energy is at most the threshold times 1 + n * Rate(h0). */
  lemma {:induction false} Converges(p: Params, d: Data, hs: seq<real>, h0: real)
    requires WfParams(p) && p.omega > 0.0 && h0 >= 0.0 && AllAtLeast(hs, h0) && hs != []
    requires Energy(p, d) <= Threshold(p) * (1.0 + (|hs| - 1) as real * Rate(p, h0))
    ensures AllAtLeast(hs, 0.0) && StopsWithin(p, d, hs)
    decreases |hs|
  {
    AtLeastLess(hs, h0, 0.0);
    if |hs| == 1 {
      LastFrame(p, d, hs[0]);
    } else {
      FrameGains(p, d, hs[0], h0, |hs| - 1);
      assert |hs[1..]| - 1 == |hs| - 2;
      Converges(p, Step(p, d, hs[0]), hs[1..], h0);
    }
  }

  lemma FrameGains(p: Params, d: Data, h: real, h0: real, n: nat)
    requires WfParams(p) && 0.0 <= h0 <= h && n > 0
    requires Energy(p, d) <= Threshold(p) * (1.0 + n as real * Rate(p, h0))
    ensures Energy(p, Step(p, d, h)) <= Threshold(p) * (1.0 + (n - 1) as real * Rate(p, h0))
  {
    EnergyShrinks(p, d, h);
    RateGrows(p, h0, h);
    var f, a, e, e' := Damping(p, h), Stiffness(p, h), Energy(p, d), Energy(p, Step(p, d, h));
    ByRate(e', e, f, a, Rate(p, h), Rate(p, h0));
    SquareNonNegative(p.omega / (2.0 * p.displayScale));
    RateNonNegative(p, h0);
    OneLess(e', e, Threshold(p), Rate(p, h0), (n - 1) as real);
  }

  lemma RateNonNegative(p: Params, h: real)
    requires WfParams(p) && h >= 0.0
    ensures Rate(p, h) >= 0.0
  {
    ProductNonNegative(Stiffness(p, h), 1.0 / Damping(p, h));
  }

  lemma ByRate(e': real, e: real, f: real, a: real, c: real, c0: real)
    requires e' * (f + a) <= e * f && f > 0.0 && c == a / f && c0 <= c && e' >= 0.0
    ensures e' * (1.0 + c0) <= e
  {
    assert c * f == a;
    assert f * (e' * (1.0 + c)) == e' * (f + a);
    assert f * e == e * f;
    Unscale(f, e' * (1.0 + c), e);
    Scale(e', 1.0 + c0, 1.0 + c);
  }

  lemma OneLess(e': real, e: real, t: real, c: real, m: real)
    requires e' * (1.0 + c) <= e && e <= t * (1.0 + (m + 1.0) * c) && t >= 0.0 && c >= 0.0 && m >= 0.0
    ensures e' <= t * (1.0 + m * c)
  {
    SquareNonNegative(c);
    ProductNonNegative(m, c * c);
    assert (1.0 + c) * (1.0 + m * c) == 1.0 + (m + 1.0) * c + m * (c * c);
    Scale(t, 1.0 + (m + 1.0) * c, (1.0 + c) * (1.0 + m * c));
    assert (1.0 + c) * (t * (1.0 + m * c)) == t * ((1.0 + c) * (1.0 + m * c));
    assert (1.0 + c) * e' == e' * (1.0 + c);
    Unscale(1.0 + c, e', t * (1.0 + m * c));
  }

  /** Whatever the start, the animation stops within finitely many frames of at least h0
      seconds. */
  lemma Finite(p: Params, d: Data, h0: real) returns (n: nat)
    requires WfParams(p) && p.omega > 0.0 && h0 > 0.0
    ensures forall hs :: |hs| > n && AllAtLeast(hs, h0) ==> AllAtLeast(hs, 0.0) && StopsWithin(p, d, hs)
  {
    var t, c, e := Threshold(p), Rate(p, h0), Energy(p, d);
    Positive(p, h0);
    n := Archimedes(e, t * c);
    forall hs: seq<real> | |hs| > n && AllAtLeast(hs, h0)
      ensures AllAtLeast(hs, 0.0) && StopsWithin(p, d, hs)
    {
      EnoughFrames(e, t, c, n as real, (|hs| - 1) as real);
      Converges(p, d, hs, h0);
    }
  }

  lemma EnoughFrames(e: real, t: real, c: real, n: real, m: real)
    requires t > 0.0 && c > 0.0 && t * c > 0.0 && n <= m && e <= t * c * n
    ensures e <= t * (1.0 + m * c)
  {
    Scale(t * c, n, m);
    assert t * (1.0 + m * c) == t + t * c * m;
  }

  lemma Positive(p: Params, h0: real)
    requires WfParams(p) && p.omega > 0.0 && h0 > 0.0
    ensures Threshold(p) > 0.0 && Rate(p, h0) > 0.0 && Threshold(p) * Rate(p, h0) > 0.0
  {
    assert p.omega / (2.0 * p.displayScale) > 0.0;
    var hh, oo := h0 * h0, p.omega * p.omega;
    SquarePositive(h0, hh);
    SquarePositive(p.omega, oo);
    ProductPositive(hh, oo, Stiffness(p, h0));
    SquarePositive(p.omega / (2.0 * p.displayScale), Threshold(p));
    ProductPositive(Threshold(p), Rate(p, h0), Threshold(p) * Rate(p, h0));
  }

  lemma ProductPositive(a: real, b: real, c: real)
    requires a > 0.0 && b > 0.0 && c == a * b
    ensures c > 0.0
  {
  }

  lemma Archimedes(e: real, step: real) returns (n: nat)
    requires step > 0.0 && e >= 0.0
    ensures e <= step * n as real
  {
    n := (e / step).Floor + 1;
    assert e / step <= n as real;
    Scale(step, e / step, n as real);
    assert step * (e / step) == e;
  }

  // ------------------------------------------------------ what a stop implies

  lemma StopBounds(p: Params, d: Data, h: real)
    requires WfParams(p) && h >= 0.0 && Settled(p, d.value, Step(p, d, h).value)
    ensures Stopped(p, d, Step(p, d, h), h)
  {
    var u := StepMoves(p, d, h);
    LastMove(p, d.value, Step(p, d, h), u, h);
  }

  lemma StepMoves(p: Params, d: Data, h: real) returns (u: real)
    requires WfParams(p) && h >= 0.0
    ensures Step(p, d, h).value - d.value == h * u
    ensures Step(p, d, h).velocity * (Damping(p, h) + Stiffness(p, h)) == u * Damping(p, h)
  {
    u := StepIsImplicitEuler(p, d, h);
  }

  lemma LastMove(p: Params, before: real, after: Data, u: real, h: real)
    requires WfParams(p) && h >= 0.0 && Settled(p, before, after.value)
    requires after.value - before == h * u
    requires after.velocity * (Damping(p, h) + Stiffness(p, h)) == u * Damping(p, h)
    ensures var pixel := 1.0 / p.displayScale;
            && Abs(before - after.value) <= pixel
            && DampedTo(h, after.velocity, Damping(p, h) + Stiffness(p, h), Damping(p, h), pixel)
  {
    var move, pixel := after.value - before, 1.0 / p.displayScale;
    NotMore(Abs(before - after.value), pixel);
    DampedMove(h, after.velocity, Damping(p, h) + Stiffness(p, h), u, Damping(p, h), move, pixel);
  }

  lemma NotMore(gap: real, pixel: real)
    requires pixel > 0.0 && gap / pixel <= 1.0
    ensures gap <= pixel
  {
    var q := gap / pixel;
    assert q * pixel == gap;
    ProductNonNegative(1.0 - q, pixel);
    assert (1.0 - q) * pixel == pixel - gap;
  }

  lemma DampedMove(h: real, v: real, det: real, u: real, f: real, move: real, pixel: real)
    requires h >= 0.0 && det > 0.0 && f >= 1.0 && v * det == u * f && move == h * u && Abs(move) <= pixel
    ensures DampedTo(h, v, det, f, pixel)
  {
    var w := h * v * det;
    assert w == h * (u * f) == move * f;
    AbsTimes(h, v, det, w);
    AbsTimes(1.0, move, f, w);
    ProductNonNegative(f, pixel - Abs(move));
    assert f * (pixel - Abs(move)) == pixel * f - Abs(move) * f;
  }

  lemma AbsTimes(a: real, x: real, b: real, w: real)
    requires a >= 0.0 && b >= 0.0 && w == a * x * b
    ensures a * Abs(x) * b == Abs(w)
  {
    ProductNonNegative(a, Abs(x));
    ProductNonNegative(a * Abs(x), b);
    if x < 0.0 {
      assert a * (-x) * b == -w;
    }
  }

  /** The animation may stop with speed left: a value that passes its target at any speed v is stopped
      there when the frame is short enough for the way to be a pixel. */
  lemma StopsInMotion(p: Params, v: real, h: real)
    requires WfParams(p) && h >= 0.0 && h * Abs(v) <= 1.0 / p.displayScale
    ensures var after := Step(p, Data(p.target, v), h);
            Settled(p, p.target, after.value) && (v != 0.0 ==> after.velocity != 0.0)
  {
    var u, det, f, after := PassingMove(p, v, h);
    StopsAfter(p, v, h, u, det, after.value);
    StillMoving(u, v, after.velocity, det, f);
  }

  lemma PassingMove(p: Params, v: real, h: real) returns (u: real, det: real, f: real, after: Data)
    requires WfParams(p) && h >= 0.0
    ensures after == Step(p, Data(p.target, v), h) && det >= 1.0 && f >= 1.0
    ensures u * det == v && after.value == p.target + h * u && after.velocity * det == u * f
  {
    var d := Data(p.target, v);
    u, f, after := ImplicitVelocity(p, d, h), Damping(p, h), Step(p, d, h);
    det := f + Stiffness(p, h);
    StepPosition(p, d, h);
    StepVelocity(p, d, h);
    AtTarget(p, d, h);
  }

  lemma StopsAfter(p: Params, v: real, h: real, u: real, det: real, after: real)
    requires WfParams(p) && h >= 0.0 && h * Abs(v) <= 1.0 / p.displayScale
    requires det >= 1.0 && u * det == v && after == p.target + h * u
    ensures Settled(p, p.target, after)
  {
    Slower(h, u, v, det);
    AtMostOne(Abs(h * u), 1.0 / p.displayScale);
  }

  lemma AtTarget(p: Params, d: Data, h: real)
    requires WfParams(p) && h >= 0.0 && d.value == p.target
    ensures ImplicitVelocity(p, d, h) * (Damping(p, h) + Stiffness(p, h)) == d.velocity
  {
    var c := h * (p.omega * p.omega);
    assert c * (d.value - p.target) == 0.0;
  }

  lemma Slower(h: real, u: real, v: real, det: real)
    requires h >= 0.0 && det >= 1.0 && u * det == v
    ensures Abs(h * u) <= h * Abs(v)
  {
    AbsTimes(1.0, u, det, v);
    ProductNonNegative(Abs(u), det - 1.0);
    assert Abs(u) * (det - 1.0) == Abs(v) - Abs(u);
    Scale(h, Abs(u), Abs(v));
    AbsTimes(h, u, 1.0, h * u);
  }

  lemma StillMoving(u: real, v: real, w: real, det: real, f: real)
    requires u * det == v && w * det == u * f && f >= 1.0
    ensures w == 0.0 ==> v == 0.0
  {
    if w == 0.0 {
      assert u * f == 0.0;
      assert u == 0.0;
    }
  }
}
