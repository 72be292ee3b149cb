/** The three stencil coefficients of the damped wave equation
    (js/main.js, lines 87-97). The stable time step is an input: its
    derivation needs a square root. */
module Coefficients {

  const SPACING: real := 0.4
  const WAVE_SPEED: real := 2.0
  const VISCOSITY: real := 1.0

  datatype Coeffs = Coeffs(c1: real, c2: real, c3: real)

  /** The coefficients of a consistent scheme add up to one over the
      five-point stencil: a flat, resting surface stays flat. */
  predicate Consistent(k: Coeffs) {
    k.c1 + k.c2 + 4.0 * k.c3 == 1.0
  }

  /** D = viscosity * timeStep + 2, the common denominator. */
  function Denominator(viscosity: real, timeStep: real): (d: real)
    requires viscosity >= 0.0 && timeStep > 0.0
    ensures d >= 2.0
  {
    viscosity * timeStep + 2.0
  }

  /** C1, C2 and C3 as the simulation derives them from spacing, wave speed,
      viscosity and time step. */
  function Derive(spacing: real, speed: real, viscosity: real, timeStep: real): (k: Coeffs)
    requires spacing > 0.0 && viscosity >= 0.0 && timeStep > 0.0
    ensures Consistent(k)
    ensures k.c3 >= 0.0
    ensures -1.0 <= k.c2 < 1.0
    ensures k.c2 == -1.0 <==> viscosity == 0.0
  {
    var d := Denominator(viscosity, timeStep);
    var courant := Courant(spacing, speed, timeStep);
    var k := Coeffs((4.0 - 8.0 * courant) / d, (viscosity * timeStep - 2.0) / d, (2.0 * courant) / d);
    SumOverCommonDenominator(4.0 - 8.0 * courant, viscosity * timeStep - 2.0, 2.0 * courant, d);
    DivNonneg(2.0 * courant, d);
    DampingRange(viscosity * timeStep, d);
    k
  }

  lemma SumOverCommonDenominator(a: real, b: real, c: real, d: real)
    requires d > 0.0
    ensures a / d + b / d + 4.0 * (c / d) == (a + b + 4.0 * c) / d
  {
  }

  /** v^2 t^2 / h^2, the squared Courant number of the scheme. */
  function Courant(spacing: real, speed: real, timeStep: real): (c: real)
    requires spacing > 0.0
    ensures c >= 0.0
  {
    assert speed * speed * timeStep * timeStep == (speed * timeStep) * (speed * timeStep);
    OverSquareNonneg(speed * speed * timeStep * timeStep, spacing);
    speed * speed * timeStep * timeStep / (spacing * spacing)
  }

  lemma OverSquareNonneg(a: real, h: real)
    requires a >= 0.0 && h > 0.0
    ensures a / (h * h) >= 0.0
  {
    var q := a / (h * h);
    assert h * h != 0.0;
    assert q * (h * h) == a;
    NegTimesPos(q, h);
    NegTimesPos(q * h, h);
    assert q * (h * h) == (q * h) * h;
  }

  lemma NegTimesPos(x: real, y: real)
    requires y > 0.0
    ensures x < 0.0 ==> x * y < 0.0
  {
  }

  lemma DivNonneg(a: real, d: real)
    requires a >= 0.0 && d > 0.0
    ensures a / d >= 0.0
  {
  }

  /** (m - 2) / (m + 2) lies in [-1, 1) and is -1 exactly when m == 0. */
  lemma DampingRange(m: real, d: real)
    requires m >= 0.0 && d == m + 2.0
    ensures -1.0 <= (m - 2.0) / d < 1.0
    ensures (m - 2.0) / d == -1.0 <==> m == 0.0
  {
    var q := (m - 2.0) / d;
    assert q * d == m - 2.0;
    assert q == 1.0 - 4.0 / d;
    assert (4.0 / d) * d == 4.0;
  }

  /** The coefficients of the simulation's physical constants. */
  function SourceCoeffs(timeStep: real): (k: Coeffs)
    requires timeStep > 0.0
    ensures Consistent(k) && k.c3 >= 0.0 && -1.0 < k.c2 < 1.0
  {
    Derive(SPACING, WAVE_SPEED, VISCOSITY, timeStep)
  }
}
