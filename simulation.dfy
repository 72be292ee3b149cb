/** The simulation state of RainSimulation (js/main.js): the current,
    previous and next height buffers, the raindrop seeding, the wave step
    and the buffer rotation that follows it. */
module Simulation {
  import opened Grid
  import opened Coefficients
  import opened Stencil

  /** Height one raindrop adds to the surface. */
  const RIPPLE_HEIGHT: real := 1.0

  /** Grid resolution the simulation is configured with. */
  const WATER_WIDTH: int := 200
  const WATER_HEIGHT: int := 200

  /** On the simulation's own 200 x 200 grid, the model's index is indexFrom
      as written, for every coordinate the neighbour reads use. */
  lemma SourceGridIndex(x: int, z: int)
    requires x >= -WATER_WIDTH && z >= -WATER_HEIGHT
    ensures CellIndex(WATER_WIDTH, WATER_HEIGHT, x, z) == IndexFrom(WATER_WIDTH, WATER_HEIGHT, x, z)
  {
    CellIndexMatchesSource(WATER_WIDTH, x, z);
  }

  /** A fresh array with the same heights, as `Array.from` makes. */
  method CopyOf(a: array<real>) returns (b: array<real>)
    ensures fresh(b) && b[..] == a[..]
  {
    b := new real[a.Length];
    for i := 0 to a.Length
      invariant b[..i] == a[..i]
    {
      b[i] := a[i];
    }
  }

  /** computeNext: writes the stencil value of cell (x, z) into `next`,
      reading the cell and its four wrap-around neighbours from `now` and
      the cell from `prev`. The three buffers are distinct. */
  method ComputeNext(next: array<real>, now: array<real>, prev: array<real>,
                     w: int, h: int, k: Coeffs, x: int, z: int)
    requires next != now && next != prev && now != prev
    requires IsField(now[..], w, h) && IsField(prev[..], w, h) && next.Length == w * h
    requires 0 <= x < w && 0 <= z < h
    modifies next
    ensures next[..] == old(next[..])[CellIndex(w, h, x, z) := StencilAt(k, now[..], prev[..], w, h, x, z)]
  {
    var index0 := CellIndex(w, h, x, z);
    var index1 := CellIndex(w, h, x + 1, z);
    var index2 := CellIndex(w, h, x - 1, z);
    var index3 := CellIndex(w, h, x, z + 1);
    var index4 := CellIndex(w, h, x, z - 1);
    var value := k.c1 * now[index0]
               + k.c2 * prev[index0]
               + k.c3 * (now[index1] + now[index2] + now[index3] + now[index4]);
    assert value == FivePoint(k, now[index0], prev[index0], now[index1], now[index2], now[index3], now[index4]);
    assert value == StencilAt(k, now[..], prev[..], w, h, x, z);
    next[index0] := value;
  }

  /** The nested loop of updateWaterSurface: every cell of `next` receives
      its stencil value, so `next` ends up as the next field of (`now`,
      `prev`). `order` lists the cells written, in the order written: each
      index of the grid exactly once, in row-major order. */
  method StepInto(next: array<real>, now: array<real>, prev: array<real>,
                  w: int, h: int, k: Coeffs) returns (ghost order: seq<int>)
    requires next != now && next != prev && now != prev
    requires IsField(now[..], w, h) && IsField(prev[..], w, h) && next.Length == w * h
    modifies next
    ensures next[..] == NextField(k, now[..], prev[..], w, h)
    ensures |order| == w * h && forall n :: 0 <= n < w * h ==> order[n] == n
  {
    ghost var target := NextField(k, now[..], prev[..], w, h);
    order := [];
    for x := 0 to w
      invariant |order| == x * h
      invariant forall n :: 0 <= n < x * h ==> order[n] == n
      invariant forall n :: 0 <= n < x * h ==> next[n] == target[n]
    {
      MulMonoLe(x + 1, w, h);
      for z := 0 to h
        invariant |order| == x * h + z
        invariant forall n :: 0 <= n < x * h + z ==> order[n] == n
        invariant forall n :: 0 <= n < x * h + z ==> next[n] == target[n]
      {
        RowMajor(x, z, w, h);
        InRangeWrap(x, w);
        InRangeWrap(z, h);
        ComputeNext(next, now, prev, w, h, k, x, z);
        order := order + [CellIndex(w, h, x, z)];
      }
    }
    assert next[..] == target;
  }

  class RainSimulation {
    const width: int
    const height: int
    const coeffs: Coeffs
    /** Heights of the surface on display (waterGeometry.vertices). */
    var now: array<real>
    /** Heights one step back (waterVerticesPrev). */
    var prev: array<real>
    /** Target of the next step (waterVerticesNext). */
    var next: array<real>

    ghost predicate Valid()
      reads this
    {
      width > 0 && height > 0 &&
      now.Length == width * height && prev.Length == width * height && next.Length == width * height &&
      now != prev && now != next && prev != next &&
      Consistent(coeffs)
    }

    /** A flat surface on the WATER_WIDTH x WATER_HEIGHT grid, with the
        coefficients of the simulation's physical constants for the given
        time step. */
    constructor (timeStep: real)
      requires timeStep > 0.0
      ensures Valid()
      ensures width == WATER_WIDTH && height == WATER_HEIGHT && coeffs == SourceCoeffs(timeStep)
      ensures fresh(now) && fresh(prev) && fresh(next)
      ensures now[..] == Uniform(0.0, width, height)
      ensures prev[..] == Uniform(0.0, width, height)
      ensures next[..] == Uniform(0.0, width, height)
    {
      width := WATER_WIDTH;
      height := WATER_HEIGHT;
      coeffs := SourceCoeffs(timeStep);
      now := new real[WATER_WIDTH * WATER_HEIGHT](_ => 0.0);
      prev := new real[WATER_WIDTH * WATER_HEIGHT](_ => 0.0);
      next := new real[WATER_WIDTH * WATER_HEIGHT](_ => 0.0);
    }

    /** seedWaterSurface: a raindrop at cell (a, b) (the two random picks)
        raises that cell of the surface by RIPPLE_HEIGHT; nothing else
        changes. */
    method SeedWaterSurface(a: int, b: int)
      requires Valid() && 0 <= a < width && 0 <= b < height
      modifies now
      ensures Valid()
      ensures now[..] == old(now[..])[CellIndex(width, height, a, b) := old(now[CellIndex(width, height, a, b)]) + RIPPLE_HEIGHT]
    {
      var idx := CellIndex(width, height, a, b);
      now[idx] := now[idx] + RIPPLE_HEIGHT;
    }

    /** updateWaterSurface: computes the next field into `next`, then the
        old surface becomes `prev` and the computed field the new surface
        (both fresh copies). The old `now` and `prev` arrays are only read. */
    method UpdateWaterSurface()
      requires Valid()
      modifies this, next
      ensures Valid()
      ensures fresh(now) && fresh(prev) && next == old(next)
      ensures prev[..] == old(now[..])
      ensures now[..] == NextField(coeffs, old(now[..]), old(prev[..]), width, height)
      ensures next[..] == now[..]
      ensures old(now)[..] == old(now[..]) && old(prev)[..] == old(prev[..])
    {
      ghost var order := StepInto(next, now, prev, width, height, coeffs);
      prev := CopyOf(now);
      now := CopyOf(next);
    }

    /** The simulation part of render(): one raindrop at (a, b), then one
        wave step. */
    method Render(a: int, b: int)
      requires Valid() && 0 <= a < width && 0 <= b < height
      modifies this, now, next
      ensures Valid()
      ensures prev[..] == old(now[..])[CellIndex(width, height, a, b) := old(now[CellIndex(width, height, a, b)]) + RIPPLE_HEIGHT]
      ensures now[..] == NextField(coeffs, prev[..], old(prev[..]), width, height)
    {
      SeedWaterSurface(a, b);
      UpdateWaterSurface();
    }
  }
}
