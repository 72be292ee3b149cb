# Rain simulation wave core, in Dafny

A model of the simulation logic of `RainSimulation` (js/main.js) in the
three.js rain demo. The water surface is a W x H torus of heights. Each
frame, one raindrop raises a random cell by `RIPPLE_HEIGHT`. Then an
explicit finite-difference step of the damped 2-D wave equation computes the
next height field from the current and previous ones, with the five-point
stencil

    next[x,z] = C1*now[x,z] + C2*prev[x,z]
              + C3*(now[x+1,z] + now[x-1,z] + now[x,z+1] + now[x,z-1])

and wrap-around neighbours. Then the buffers rotate: the old surface becomes
`prev` and the computed field becomes the surface.

Modules:

- `Grid` (grid.dfy) covers `indexFrom`. `JsRem` is JavaScript's truncating
  `%`. `IndexFrom` is the index computation exactly as written. `Wrap` and
  `CellIndex` give the wrap-around index the model uses, with lemmas for
  range, injectivity, surjectivity, periodicity and the glued edges.
- `Coefficients` (coefficients.dfy) covers C1, C2, C3 and D as functions of
  spacing, wave speed, viscosity and time step, with the source's constants.
- `Stencil` (stencil.dfy) covers the per-cell update (`StencilAt`,
  `FivePoint`) and the whole next field (`NextField`) as pure functions. It
  also proves the single-drop and resting-surface scenarios. It proves too
  that the step commutes with translating the surface on the torus and with
  mirroring it in x or in z.
- `Simulation` (simulation.dfy) holds the class `RainSimulation`, with the
  three buffers as `array<real>` fields. `SeedWaterSurface`,
  `UpdateWaterSurface` (with `ComputeNext` and the nested loop `StepInto`)
  and the simulation half of `render` are methods proved against the
  `Stencil` functions.

Heights and coefficients are `real`. The two random picks of
`seedWaterSurface` and the time step are parameters.

In three places the model follows the code where a textbook version of
this scheme would differ:

- `indexFrom` reduces with `(x + W) % W` and JavaScript's truncating `%`.
  It is correct only for x >= -W and z >= -H, not for every integer. The
  loop only passes coordinates in [-1, W]. `CellIndex` requires that domain,
  and `IndexFromNegativeBelowDomain` shows a negative index below it.
- Rotation copies, as `Array.from` does. The old surface is copied into a
  fresh `prev` array, and the computed field into a fresh surface array.
  `next` keeps its array and its contents. It is not an O(1) relabelling of
  three fixed buffers.
- The grid size and physical constants are fixed in the source (200 x 200,
  spacing 0.4, speed 2, viscosity 1). So there is no configuration error
  path. The constructor builds the 200 x 200 grid and takes only the time
  step, which it requires positive. The functions and lemmas of `Grid` and
  `Stencil` are stated for any W x H grid.

## Model

| member | source | states |
|---|---|---|
| Grid.JsRem | js/main.js:125-126 | JavaScript `%` by a positive divisor: the result has the dividend's sign, lies strictly within one divisor of zero, and differs from the dividend by a multiple of the divisor |
| Grid.Wrap | js/main.js:125-126 | for a >= -n, `(a + n) % n` lies in [0, n) and equals the mathematical residue a mod n |
| Grid.IndexFromCoordinates | js/main.js:125-126 | for x >= -W and z >= -H, indexFrom's two reduced coordinates lie in [0, W) and [0, H) and are x mod W and z mod H |
| Grid.IndexFromSquare | js/main.js:124-128 | on the square grid the source uses, indexFrom as written lies in [0, n*n) and two in-range cells get the same index if and only if they are the same cell |
| Grid.CellIndex | js/main.js:124-128 | the wrap-around index of any cell with x >= -W, z >= -H lies in [0, W*H) |
| Grid.CellIndexDecodes | js/main.js:124-128 | dividing the index by H gives x mod W and the remainder gives z mod H, so the index names the wrapped cell |
| Grid.CellIndexInjective | js/main.js:124-128 | distinct in-range cells get distinct indices |
| Grid.CellIndexSurjective | js/main.js:124-128 | every index in [0, W*H) is the index of the in-range cell (n / H, n % H) |
| Grid.InRangeWrap | js/main.js:125-126 | an in-range coordinate wraps to itself |
| Grid.WrapAround | js/main.js:133-137 | x = -1 addresses the cell at x = W-1 and x = W the cell at x = 0, and the same for z: edge cells take the opposite edge as neighbours |
| Grid.CellIndexPeriodic | js/main.js:125-126 | shifting x by W or z by H addresses the same cell |
| Grid.CellIndexOfResidues | js/main.js:125-126 | for non-negative coordinates, indexing (x mod W, z mod H) addresses the same cell as (x, z) |
| Grid.CellIndexMatchesSource | js/main.js:124-128 | on a square grid the model's index equals indexFrom as written, for every coordinate >= -W |
| Grid.SeedIndexMatchesSource | js/main.js:118 | on a square grid the raindrop index `a * W + b` is the index of cell (a, b) |
| Grid.IndexFromCollides | js/main.js:127 | with the width as row stride and W = 2, H = 3, the distinct cells (0, 2) and (1, 0) both get index 2 |
| Grid.IndexFromOverruns | js/main.js:127 | with the width as row stride and W = 3, H = 2, cell (2, 1) gets index 7, past the grid's 6 cells |
| Grid.IndexFromNegativeBelowDomain | js/main.js:125 | below -W the truncating `%` makes indexFrom negative (x = -5 on a 4 x 4 grid) |
| Coefficients.Denominator | js/main.js:93 | D = viscosity * timeStep + 2 is at least 2 for a positive time step and non-negative viscosity |
| Coefficients.Courant | js/main.js:95-97 | the factor v^2 t^2 / h^2 shared by C1 and C3 is non-negative |
| Coefficients.Derive | js/main.js:93-97 | C1 + C2 + 4*C3 = 1; C3 >= 0; C2 lies in [-1, 1) and is -1 exactly when viscosity is 0 |
| Coefficients.SourceCoeffs | js/main.js:87-97 | with the source's spacing, speed and viscosity the coefficients are consistent, C3 >= 0 and -1 < C2 < 1 |
| Stencil.NextFieldAt | js/main.js:132-148 | each cell of the next field is C1 times its current height, plus C2 times its previous height, plus C3 times the sum of its four wrap-around neighbours' current heights |
| Stencil.UniformIsFixpoint | js/main.js:93-97 | a resting surface with prev = now = c everywhere steps to c everywhere |
| Stencil.FivePointUniform | js/main.js:93-97 | with coefficients that sum to one over the stencil, a cell whose own, previous and four neighbour heights all equal c updates to c |
| Stencil.ShiftAt | js/main.js:125-126 | reading the surface translated by (dx, dz) at any coordinate the stencil uses gives the original surface's height at the coordinate plus (dx, dz) |
| Stencil.ShiftedStencil | js/main.js:132-141 | the stencil of the translated surfaces at (x, z) equals the stencil of the original surfaces at the wrapped cell (x + dx, z + dz) |
| Stencil.ShiftCommutes | js/main.js:132-148 | the update has no preferred cell on the torus: stepping the translated (now, prev) gives the translated step, edge cells included |
| Stencil.ReflectXAt | js/main.js:125-126 | reading the surface mirrored in x at any coordinate the stencil uses gives the original surface's height at (W - x, z) |
| Stencil.ReflectedXStencil | js/main.js:132-141 | the stencil of the x-mirrored surfaces at (x, z) equals the stencil of the original surfaces at the mirror cell (W - x mod W, z), whose right and left neighbours are swapped |
| Stencil.ReflectXCommutes | js/main.js:132-148 | the update has no preferred side along x: stepping the x-mirrored (now, prev) gives the x-mirrored step |
| Stencil.ReflectZAt | js/main.js:125-126 | reading the surface mirrored in z at any coordinate the stencil uses gives the original surface's height at (x, H - z) |
| Stencil.ReflectedZStencil | js/main.js:132-141 | the stencil of the z-mirrored surfaces at (x, z) equals the stencil of the original surfaces at the mirror cell (x, H - z mod H), whose up and down neighbours are swapped |
| Stencil.ReflectZCommutes | js/main.js:132-148 | the update has no preferred side along z: stepping the z-mirrored (now, prev) gives the z-mirrored step |
| Stencil.NegMod | js/main.js:125-126 | mirroring a coordinate before or after reducing it modulo n gives the same residue |
| Grid.ModShift | js/main.js:125-126 | reducing a coordinate before adding a neighbour offset or after it gives the same residue |
| Grid.CellIndexCongruent | js/main.js:124-128 | coordinates congruent modulo the grid size address the same cell |
| Stencil.SameCellAfterOffset | js/main.js:133-137 | a neighbour offset of -1, 0 or 1 from the wrapped coordinates addresses the same cell as the offset from the unwrapped ones |
| Stencil.SingleImpulse | js/main.js:132-141 | with prev all zero and now zero except 1 at (0, 0), one step gives C1 at (0, 0), C3 at (1, 0), (W-1, 0), (0, 1) and (0, H-1), and 0 at every other cell |
| Stencil.IsOrigin | js/main.js:133-137 | of the coordinates the stencil reads, exactly those wrapping to (0, 0) address index 0 |
| Simulation.SourceGridIndex | js/main.js:124-128 | on the simulation's WATER_WIDTH x WATER_HEIGHT = 200 x 200 grid (lines 65-66) the model's index equals indexFrom as written for every coordinate >= -200 |
| Simulation.CopyOf | js/main.js:150-151 | `Array.from` gives a fresh array with the same contents |
| Simulation.ComputeNext | js/main.js:132-141 | writes the stencil value of (x, z) into `next` at that cell's index, changes no other cell of `next`, and does not touch `now` or `prev` |
| Simulation.StepInto | js/main.js:144-148 | after the nested loop, `next` is the next field of (`now`, `prev`); the cells were written in row-major order, each index exactly once; `now` and `prev` are unchanged |
| Simulation.RainSimulation.constructor | js/main.js:65-69 | a 200 x 200 grid of three distinct zero-height buffers, with consistent coefficients derived from the source's constants |
| Simulation.RainSimulation.SeedWaterSurface | js/main.js:113-122 | the picked cell (a, b) of the surface rises by exactly RIPPLE_HEIGHT = 1 and every other cell is unchanged |
| Simulation.RainSimulation.UpdateWaterSurface | js/main.js:131-155 | the new `prev` holds the old surface, the new surface is the next field of the old (surface, prev), `next` holds the same field, and the old surface and prev arrays are not modified |
| Simulation.RainSimulation.Render | js/main.js:159-161 | one frame: the surface seeded at (a, b) becomes `prev`, and the new surface is the next field of the seeded surface and the old `prev` |

## Findings

| source | as written | input that shows it | evidently intended | confidence | as-written member | corrected member |
|---|---|---|---|---|---|---|
| js/main.js:127 | `i * this.WATER_WIDTH + j`, with j in [0, WATER_HEIGHT). Line 118 uses the same width stride. | W = 2, H = 3: cells (0, 2) and (1, 0) both get index 2. W = 3, H = 2: cell (2, 1) gets index 7 of 6. | row stride WATER_HEIGHT, so the index is row-major over W x H cells | low; not executed; the source's grid is 200 x 200, where both strides agree | Grid.IndexFromCollides | Grid.CellIndex |

The rest of the model uses `CellIndex`. `CellIndexMatchesSource` and
`SeedIndexMatchesSource` prove that it is the source's index on every
square grid, so on the source's 200 x 200 grid the two agree.

## Left out

- Scene, camera, lights, floor, fog, resize, the renderer and orbit-control calls in `render`, the `run` animation loop and `console.log` are rendering and I/O glue (js/main.js:2-61, 70-84, 99-111, 163-174).
- Three.js library calls cannot be seen here: `PlaneGeometry`'s vertex layout, `computeVertexNormals` and `verticesNeedUpdate` (js/main.js:67, 121, 152-153). `PlaneGeometry(20, 20, 200, 200)` really has 201 x 201 vertices. The model treats the surface as exactly W*H heights.
- `THREE.MathUtils.randInt` (js/main.js:118) is replaced by the two picks `a` and `b`, passed in with 0 <= a < W and 0 <= b < H.
- The time-step derivation (js/main.js:91-92) needs `Math.sqrt`. It includes the 0.22 safety factor and the precedence quirk `/ SPACING * SPACING`. The time step is an input, and only its positivity is used.
- Floating-point rounding, numerical stability and long-run boundedness over many frames are not modelled. Heights are exact reals.
- Simulation.ComputeNext: requires three distinct buffers. In the source, `Array.from` (js/main.js:68-69, 150-151) makes shallow copies of one array of vertex objects. So `prev`, `now` and `next` share cells, and a write at line 138 is seen by later neighbour reads at line 140. The model follows the separate `next`, `now` and `prev` parameters of `computeNext` instead.
- Simulation.StepInto: requires the same three distinct buffers, for the same reason.
- Grid.CellIndex: defined only for x >= -W and z >= -H, the coordinates `indexFrom` is called with. Below that, the source's truncating `%` gives negative indices (see Grid.IndexFromNegativeBelowDomain).
- Reuse of three fixed buffers is not modelled, because the source allocates fresh copies on every rotation (js/main.js:150-151). `UpdateWaterSurface` does the same.
