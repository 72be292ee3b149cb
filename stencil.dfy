/** The explicit five-point update of the damped wave equation on the
    torus (js/main.js, computeNext inside updateWaterSurface), as pure
    functions on height fields. */
module Stencil {
  import opened Grid
  import opened Coefficients

  /** A height field of a w x h grid: one height per cell. */
  predicate IsField(f: seq<real>, w: int, h: int) {
    w > 0 && h > 0 && |f| == w * h
  }

  /** Height of the cell (x, z) wraps to. */
  function At(f: seq<real>, w: int, h: int, x: int, z: int): real
    requires IsField(f, w, h) && x >= -w && z >= -h
  {
    f[CellIndex(w, h, x, z)]
  }

  /** The new height of cell (x, z): C1 times its current height, C2 times
      its previous height, C3 times the sum of its four wrap-around
      neighbours' current heights. */
  function StencilAt(k: Coeffs, now: seq<real>, prev: seq<real>, w: int, h: int, x: int, z: int): real
    requires IsField(now, w, h) && IsField(prev, w, h)
    requires 0 <= x < w && 0 <= z < h
  {
    FivePoint(k, At(now, w, h, x, z), At(prev, w, h, x, z),
              At(now, w, h, x + 1, z), At(now, w, h, x - 1, z),
              At(now, w, h, x, z + 1), At(now, w, h, x, z - 1))
  }

  /** The update rule on the values it reads: a cell's current and previous
      heights and its four neighbours' current heights. */
  function FivePoint(k: Coeffs, self: real, previous: real, right: real, left: real, up: real, down: real): real {
    k.c1 * self + k.c2 * previous + k.c3 * (right + left + up + down)
  }

  /** The whole next field, cell n holding the stencil of the cell it is
      the index of. */
  function NextField(k: Coeffs, now: seq<real>, prev: seq<real>, w: int, h: int): (next: seq<real>)
    requires IsField(now, w, h) && IsField(prev, w, h)
    ensures IsField(next, w, h)
  {
    seq(w * h, n requires 0 <= n < w * h =>
      CellIndexSurjective(w, h, n);
      StencilAt(k, now, prev, w, h, n / h, n % h))
  }

  /** Every cell of the next field is the stencil of that cell, read with
      wrap-around from the current and previous fields. */
  lemma NextFieldAt(k: Coeffs, now: seq<real>, prev: seq<real>, w: int, h: int, x: int, z: int)
    requires IsField(now, w, h) && IsField(prev, w, h)
    requires 0 <= x < w && 0 <= z < h
    ensures At(NextField(k, now, prev, w, h), w, h, x, z) == StencilAt(k, now, prev, w, h, x, z)
  {
    var n := CellIndex(w, h, x, z);
    InRangeWrap(x, w);
    InRangeWrap(z, h);
    RowMajor(x, z, w, h);
  }

  /** The field with height c everywhere. */
  function Uniform(c: real, w: int, h: int): (f: seq<real>)
    requires w > 0 && h > 0
    ensures IsField(f, w, h)
    ensures forall n :: 0 <= n < |f| ==> f[n] == c
  {
    seq(w * h, _ => c)
  }

  /** A surface at rest at height c (current and previous both c) stays at
      c: the coefficients of a consistent scheme sum to one. */
  lemma UniformIsFixpoint(k: Coeffs, c: real, w: int, h: int)
    requires Consistent(k) && w > 0 && h > 0
    ensures NextField(k, Uniform(c, w, h), Uniform(c, w, h), w, h) == Uniform(c, w, h)
  {
    var u := Uniform(c, w, h);
    var next := NextField(k, u, u, w, h);
    forall n | 0 <= n < w * h
      ensures next[n] == c
    {
      CellIndexSurjective(w, h, n);
      var x, z := n / h, n % h;
      NextFieldAt(k, u, u, w, h, x, z);
      StencilCong(k, u, u, u, u, w, h, x, z, x, z);
      FivePointUniform(k, c);
      assert StencilAt(k, u, u, w, h, x, z) == FivePoint(k, c, c, c, c, c, c);
    }
  }

  /** With consistent coefficients, five equal heights update to that height. */
  lemma FivePointUniform(k: Coeffs, c: real)
    requires Consistent(k)
    ensures FivePoint(k, c, c, c, c, c, c) == c
  {
    calc {
      FivePoint(k, c, c, c, c, c, c);
      k.c1 * c + k.c2 * c + k.c3 * (4.0 * c);
      (k.c1 + k.c2 + 4.0 * k.c3) * c;
    }
  }

  /** The field that is zero except for height 1 at cell (0, 0). */
  function Impulse(w: int, h: int): (f: seq<real>)
    requires w > 0 && h > 0
    ensures IsField(f, w, h)
    ensures f[0] == 1.0 && forall n :: 0 < n < |f| ==> f[n] == 0.0
  {
    seq(w * h, n => if n == 0 then 1.0 else 0.0)
  }

  /** Cell (x, z) is one of the four wrap-around neighbours of (0, 0). */
  predicate NeighbourOfOrigin(w: int, h: int, x: int, z: int) {
    (z == 0 && (x == 1 || x == w - 1)) || (x == 0 && (z == 1 || z == h - 1))
  }

  /** A single unit drop at (0, 0) on a resting surface: after one step the
      drop's cell holds C1, its four wrap-around neighbours hold C3, and
      every other cell is still 0. */
  lemma SingleImpulse(k: Coeffs, w: int, h: int, x: int, z: int)
    requires w >= 3 && h >= 3 && 0 <= x < w && 0 <= z < h
    ensures At(NextField(k, Impulse(w, h), Uniform(0.0, w, h), w, h), w, h, x, z)
         == if x == 0 && z == 0 then k.c1
            else if NeighbourOfOrigin(w, h, x, z) then k.c3
            else 0.0
  {
    var imp, zero := Impulse(w, h), Uniform(0.0, w, h);
    NextFieldAt(k, imp, zero, w, h, x, z);
    IsOrigin(w, h, x, z);
    IsOrigin(w, h, x + 1, z);
    IsOrigin(w, h, x - 1, z);
    IsOrigin(w, h, x, z + 1);
    IsOrigin(w, h, x, z - 1);
  }

  /** Index 0 belongs to exactly the coordinates that wrap to (0, 0). */
  lemma IsOrigin(w: int, h: int, x: int, z: int)
    requires w >= 2 && h >= 2 && -1 <= x <= w && -1 <= z <= h
    ensures CellIndex(w, h, x, z) == 0 <==> (x == 0 || x == w) && (z == 0 || z == h)
  {
    var i, j := Wrap(x, w), Wrap(z, h);
    RemUnique(x, w, if x == -1 then -1 else if x == w then 1 else 0, if x == -1 then w - 1 else if x == w then 0 else x);
    RemUnique(z, h, if z == -1 then -1 else if z == h then 1 else 0, if z == -1 then h - 1 else if z == h then 0 else z);
    assert CellIndex(w, h, x, z) == i * h + j;
    MulMonoLe(1, i, h);
  }

  /** The surface translated by (dx, dz) on the torus: cell (x, z) takes
      the height of cell (x + dx, z + dz). */
  function Shift(f: seq<real>, w: int, h: int, dx: nat, dz: nat): (g: seq<real>)
    requires IsField(f, w, h)
    ensures IsField(g, w, h)
  {
    seq(w * h, n requires 0 <= n < w * h =>
      CellIndexSurjective(w, h, n);
      At(f, w, h, n / h + dx, n % h + dz))
  }

  /** Reading a translated surface at any coordinate the stencil uses. */
  lemma ShiftAt(f: seq<real>, w: int, h: int, dx: nat, dz: nat, x: int, z: int)
    requires IsField(f, w, h) && x >= -w && z >= -h
    ensures At(Shift(f, w, h, dx, dz), w, h, x, z) == At(f, w, h, x + dx, z + dz)
  {
    CellIndexDecodes(w, h, x, z);
    ModShift(x, dx, w);
    ModShift(z, dz, h);
    CellIndexCongruent(w, h, x % w + dx, z % h + dz, x + dx, z + dz);
  }

  /** The update has no preferred position: stepping a translated surface
      gives the translated step, edge cells included. */
  lemma ShiftCommutes(k: Coeffs, now: seq<real>, prev: seq<real>, w: int, h: int, dx: nat, dz: nat)
    requires IsField(now, w, h) && IsField(prev, w, h)
    ensures NextField(k, Shift(now, w, h, dx, dz), Shift(prev, w, h, dx, dz), w, h)
         == Shift(NextField(k, now, prev, w, h), w, h, dx, dz)
  {
    var lhs := NextField(k, Shift(now, w, h, dx, dz), Shift(prev, w, h, dx, dz), w, h);
    var rhs := Shift(NextField(k, now, prev, w, h), w, h, dx, dz);
    forall n | 0 <= n < w * h
      ensures lhs[n] == rhs[n]
    {
      ShiftCommutesAt(k, now, prev, w, h, dx, dz, n);
    }
  }

  lemma ShiftCommutesAt(k: Coeffs, now: seq<real>, prev: seq<real>, w: int, h: int, dx: nat, dz: nat, n: int)
    requires IsField(now, w, h) && IsField(prev, w, h) && 0 <= n < w * h
    ensures NextField(k, Shift(now, w, h, dx, dz), Shift(prev, w, h, dx, dz), w, h)[n]
         == Shift(NextField(k, now, prev, w, h), w, h, dx, dz)[n]
  {
    var sNow, sPrev := Shift(now, w, h, dx, dz), Shift(prev, w, h, dx, dz);
    var next := NextField(k, now, prev, w, h);
    CellIndexSurjective(w, h, n);
    var x, z := n / h, n % h;
    var x1, z1 := Wrap(x + dx, w), Wrap(z + dz, h);
    NextFieldAt(k, sNow, sPrev, w, h, x, z);
    ShiftedStencil(k, now, prev, w, h, dx, dz, x, z);
    RemUnique(x1, w, 0, x1);
    RemUnique(z1, h, 0, z1);
    CellIndexCongruent(w, h, x + dx, z + dz, x1, z1);
    NextFieldAt(k, now, prev, w, h, x1, z1);
    assert Shift(next, w, h, dx, dz)[n] == At(next, w, h, x + dx, z + dz);
  }

  /** The stencil of a translated surface at (x, z) is the stencil of the
      original surface at the translated cell. */
  lemma ShiftedRead(f: seq<real>, w: int, h: int, dx: nat, dz: nat, x: int, z: int, xn: int, zn: int, xm: int, zm: int)
    requires IsField(f, w, h) && 0 <= x < w && 0 <= z < h
    requires -1 <= xn - x <= 1 && -1 <= zn - z <= 1
    requires xm == Wrap(x + dx, w) + (xn - x) && zm == Wrap(z + dz, h) + (zn - z)
    ensures At(Shift(f, w, h, dx, dz), w, h, xn, zn) == At(f, w, h, xm, zm)
  {
    ShiftAt(f, w, h, dx, dz, xn, zn);
    SameCellAfterOffset(w, h, x + dx, z + dz, xn - x, zn - z);
  }

  lemma StencilCong(k: Coeffs, a: seq<real>, b: seq<real>, c: seq<real>, d: seq<real>, w: int, h: int, x: int, z: int, x1: int, z1: int)
    requires IsField(a, w, h) && IsField(b, w, h) && IsField(c, w, h) && IsField(d, w, h)
    requires 0 <= x < w && 0 <= z < h && 0 <= x1 < w && 0 <= z1 < h
    requires At(a, w, h, x, z) == At(c, w, h, x1, z1)
    requires At(b, w, h, x, z) == At(d, w, h, x1, z1)
    requires At(a, w, h, x + 1, z) == At(c, w, h, x1 + 1, z1)
    requires At(a, w, h, x - 1, z) == At(c, w, h, x1 - 1, z1)
    requires At(a, w, h, x, z + 1) == At(c, w, h, x1, z1 + 1)
    requires At(a, w, h, x, z - 1) == At(c, w, h, x1, z1 - 1)
    ensures StencilAt(k, a, b, w, h, x, z) == StencilAt(k, c, d, w, h, x1, z1)
  {
  }

  lemma ShiftedStencil(k: Coeffs, now: seq<real>, prev: seq<real>, w: int, h: int, dx: nat, dz: nat, x: int, z: int)
    requires IsField(now, w, h) && IsField(prev, w, h) && 0 <= x < w && 0 <= z < h
    ensures StencilAt(k, Shift(now, w, h, dx, dz), Shift(prev, w, h, dx, dz), w, h, x, z)
         == StencilAt(k, now, prev, w, h, Wrap(x + dx, w), Wrap(z + dz, h))
  {
    var x1, z1 := Wrap(x + dx, w), Wrap(z + dz, h);
    ShiftedRead(now, w, h, dx, dz, x, z, x, z, x1, z1);
    ShiftedRead(prev, w, h, dx, dz, x, z, x, z, x1, z1);
    ShiftedRead(now, w, h, dx, dz, x, z, x + 1, z, x1 + 1, z1);
    ShiftedRead(now, w, h, dx, dz, x, z, x - 1, z, x1 - 1, z1);
    ShiftedRead(now, w, h, dx, dz, x, z, x, z + 1, x1, z1 + 1);
    ShiftedRead(now, w, h, dx, dz, x, z, x, z - 1, x1, z1 - 1);
    StencilCong(k, Shift(now, w, h, dx, dz), Shift(prev, w, h, dx, dz), now, prev, w, h, x, z, x1, z1);
  }

  /** Offsetting a coordinate pair or its wrapped form addresses the same cell. */
  lemma SameCellAfterOffset(w: int, h: int, x: int, z: int, d: int, e: int)
    requires w > 0 && h > 0 && x >= 0 && z >= 0 && -1 <= d <= 1 && -1 <= e <= 1
    ensures CellIndex(w, h, Wrap(x, w) + d, Wrap(z, h) + e) == CellIndex(w, h, x + d, z + e)
  {
    ModShift(x, d, w);
    ModShift(z, e, h);
  }

  /** The surface mirrored across x = 0 on the torus: cell (x, z) takes
      the height of cell (w - x, z). */
  function ReflectX(f: seq<real>, w: int, h: int): (g: seq<real>)
    requires IsField(f, w, h)
    ensures IsField(g, w, h)
  {
    seq(w * h, n requires 0 <= n < w * h =>
      CellIndexSurjective(w, h, n);
      At(f, w, h, w - n / h, n % h))
  }

  /** The surface mirrored across z = 0 on the torus: cell (x, z) takes
      the height of cell (x, h - z). */
  function ReflectZ(f: seq<real>, w: int, h: int): (g: seq<real>)
    requires IsField(f, w, h)
    ensures IsField(g, w, h)
  {
    seq(w * h, n requires 0 <= n < w * h =>
      CellIndexSurjective(w, h, n);
      At(f, w, h, n / h, h - n % h))
  }

  /** Reading a mirrored surface at any coordinate the stencil uses. */
  lemma ReflectXAt(f: seq<real>, w: int, h: int, x: int, z: int)
    requires IsField(f, w, h) && -w <= x <= 2 * w && z >= -h
    ensures At(ReflectX(f, w, h), w, h, x, z) == At(f, w, h, w - x, z)
  {
    CellIndexDecodes(w, h, x, z);
    NegMod(x, w);
    RemUnique(z % h, h, 0, z % h);
    CellIndexCongruent(w, h, w - x % w, z % h, w - x, z);
  }

  lemma ReflectZAt(f: seq<real>, w: int, h: int, x: int, z: int)
    requires IsField(f, w, h) && x >= -w && -h <= z <= 2 * h
    ensures At(ReflectZ(f, w, h), w, h, x, z) == At(f, w, h, x, h - z)
  {
    CellIndexDecodes(w, h, x, z);
    NegMod(z, h);
    RemUnique(x % w, w, 0, x % w);
    CellIndexCongruent(w, h, x % w, h - z % h, x, h - z);
  }

  /** Mirroring a coordinate before or after reducing it gives the same residue. */
  lemma NegMod(a: int, n: int)
    requires n > 0
    ensures (n - a % n) % n == (n - a) % n
  {
    var q, r := a / n, a % n;
    var q2, r2 := (n - r) / n, (n - r) % n;
    assert n - a == (q2 - q) * n + r2;
    RemUnique(n - a, n, q2 - q, r2);
  }

  /** The update has no preferred side along x: stepping the mirrored
      surface gives the mirrored step. */
  lemma ReflectXCommutes(k: Coeffs, now: seq<real>, prev: seq<real>, w: int, h: int)
    requires IsField(now, w, h) && IsField(prev, w, h)
    ensures NextField(k, ReflectX(now, w, h), ReflectX(prev, w, h), w, h)
         == ReflectX(NextField(k, now, prev, w, h), w, h)
  {
    var lhs := NextField(k, ReflectX(now, w, h), ReflectX(prev, w, h), w, h);
    var rhs := ReflectX(NextField(k, now, prev, w, h), w, h);
    forall n | 0 <= n < w * h
      ensures lhs[n] == rhs[n]
    {
      ReflectXCommutesAt(k, now, prev, w, h, n);
    }
  }

  /** The update has no preferred side along z. */
  lemma ReflectZCommutes(k: Coeffs, now: seq<real>, prev: seq<real>, w: int, h: int)
    requires IsField(now, w, h) && IsField(prev, w, h)
    ensures NextField(k, ReflectZ(now, w, h), ReflectZ(prev, w, h), w, h)
         == ReflectZ(NextField(k, now, prev, w, h), w, h)
  {
    var lhs := NextField(k, ReflectZ(now, w, h), ReflectZ(prev, w, h), w, h);
    var rhs := ReflectZ(NextField(k, now, prev, w, h), w, h);
    forall n | 0 <= n < w * h
      ensures lhs[n] == rhs[n]
    {
      ReflectZCommutesAt(k, now, prev, w, h, n);
    }
  }

  lemma ReflectXCommutesAt(k: Coeffs, now: seq<real>, prev: seq<real>, w: int, h: int, n: int)
    requires IsField(now, w, h) && IsField(prev, w, h) && 0 <= n < w * h
    ensures NextField(k, ReflectX(now, w, h), ReflectX(prev, w, h), w, h)[n]
         == ReflectX(NextField(k, now, prev, w, h), w, h)[n]
  {
    var rNow, rPrev := ReflectX(now, w, h), ReflectX(prev, w, h);
    var next := NextField(k, now, prev, w, h);
    CellIndexSurjective(w, h, n);
    var x, z := n / h, n % h;
    var x1 := Wrap(w - x, w);
    NextFieldAt(k, rNow, rPrev, w, h, x, z);
    ReflectedXStencil(k, now, prev, w, h, x, z);
    RemUnique(x1, w, 0, x1);
    CellIndexCongruent(w, h, w - x, z, x1, z);
    NextFieldAt(k, now, prev, w, h, x1, z);
    assert ReflectX(next, w, h)[n] == At(next, w, h, w - x, z);
  }

  lemma ReflectZCommutesAt(k: Coeffs, now: seq<real>, prev: seq<real>, w: int, h: int, n: int)
    requires IsField(now, w, h) && IsField(prev, w, h) && 0 <= n < w * h
    ensures NextField(k, ReflectZ(now, w, h), ReflectZ(prev, w, h), w, h)[n]
         == ReflectZ(NextField(k, now, prev, w, h), w, h)[n]
  {
    var rNow, rPrev := ReflectZ(now, w, h), ReflectZ(prev, w, h);
    var next := NextField(k, now, prev, w, h);
    CellIndexSurjective(w, h, n);
    var x, z := n / h, n % h;
    var z1 := Wrap(h - z, h);
    NextFieldAt(k, rNow, rPrev, w, h, x, z);
    ReflectedZStencil(k, now, prev, w, h, x, z);
    RemUnique(z1, h, 0, z1);
    CellIndexCongruent(w, h, x, h - z, x, z1);
    NextFieldAt(k, now, prev, w, h, x, z1);
    assert ReflectZ(next, w, h)[n] == At(next, w, h, x, h - z);
  }

  /** The stencil of the mirrored surfaces at (x, z) is the stencil of the
      original surfaces at the mirror cell, with its two x-neighbours swapped. */
  lemma ReflectedXStencil(k: Coeffs, now: seq<real>, prev: seq<real>, w: int, h: int, x: int, z: int)
    requires IsField(now, w, h) && IsField(prev, w, h) && 0 <= x < w && 0 <= z < h
    ensures StencilAt(k, ReflectX(now, w, h), ReflectX(prev, w, h), w, h, x, z)
         == StencilAt(k, now, prev, w, h, Wrap(w - x, w), z)
  {
    var x1 := Wrap(w - x, w);
    ReflectedXRead(now, w, h, x, z, x, z, x1, z);
    ReflectedXRead(prev, w, h, x, z, x, z, x1, z);
    ReflectedXRead(now, w, h, x, z, x + 1, z, x1 - 1, z);
    ReflectedXRead(now, w, h, x, z, x - 1, z, x1 + 1, z);
    ReflectedXRead(now, w, h, x, z, x, z + 1, x1, z + 1);
    ReflectedXRead(now, w, h, x, z, x, z - 1, x1, z - 1);
    StencilMirrorX(k, ReflectX(now, w, h), ReflectX(prev, w, h), now, prev, w, h, x, z, x1, z);
  }

  lemma ReflectedZStencil(k: Coeffs, now: seq<real>, prev: seq<real>, w: int, h: int, x: int, z: int)
    requires IsField(now, w, h) && IsField(prev, w, h) && 0 <= x < w && 0 <= z < h
    ensures StencilAt(k, ReflectZ(now, w, h), ReflectZ(prev, w, h), w, h, x, z)
         == StencilAt(k, now, prev, w, h, x, Wrap(h - z, h))
  {
    var z1 := Wrap(h - z, h);
    ReflectedZRead(now, w, h, x, z, x, z, x, z1);
    ReflectedZRead(prev, w, h, x, z, x, z, x, z1);
    ReflectedZRead(now, w, h, x, z, x + 1, z, x + 1, z1);
    ReflectedZRead(now, w, h, x, z, x - 1, z, x - 1, z1);
    ReflectedZRead(now, w, h, x, z, x, z + 1, x, z1 - 1);
    ReflectedZRead(now, w, h, x, z, x, z - 1, x, z1 + 1);
    StencilMirrorZ(k, ReflectZ(now, w, h), ReflectZ(prev, w, h), now, prev, w, h, x, z, x, z1);
  }

  /** A read of the x-mirrored surface next to (x, z) is the read of the
      original surface on the opposite side of the mirror cell. */
  lemma ReflectedXRead(f: seq<real>, w: int, h: int, x: int, z: int, xn: int, zn: int, xm: int, zm: int)
    requires IsField(f, w, h) && 0 <= x < w && 0 <= z < h
    requires -1 <= xn - x <= 1 && -1 <= zn - z <= 1
    requires xm == Wrap(w - x, w) - (xn - x) && zm == zn
    ensures At(ReflectX(f, w, h), w, h, xn, zn) == At(f, w, h, xm, zm)
  {
    ReflectXAt(f, w, h, xn, zn);
    InRangeWrap(z, h);
    SameCellAfterOffset(w, h, w - x, z, x - xn, zn - z);
  }

  lemma ReflectedZRead(f: seq<real>, w: int, h: int, x: int, z: int, xn: int, zn: int, xm: int, zm: int)
    requires IsField(f, w, h) && 0 <= x < w && 0 <= z < h
    requires -1 <= xn - x <= 1 && -1 <= zn - z <= 1
    requires xm == xn && zm == Wrap(h - z, h) - (zn - z)
    ensures At(ReflectZ(f, w, h), w, h, xn, zn) == At(f, w, h, xm, zm)
  {
    ReflectZAt(f, w, h, xn, zn);
    InRangeWrap(x, w);
    SameCellAfterOffset(w, h, x, h - z, xn - x, z - zn);
  }

  /** Equal stencils from reads that agree with the two x-neighbours swapped. */
  lemma StencilMirrorX(k: Coeffs, a: seq<real>, b: seq<real>, c: seq<real>, d: seq<real>, w: int, h: int, x: int, z: int, x1: int, z1: int)
    requires IsField(a, w, h) && IsField(b, w, h) && IsField(c, w, h) && IsField(d, w, h)
    requires 0 <= x < w && 0 <= z < h && 0 <= x1 < w && 0 <= z1 < h
    requires At(a, w, h, x, z) == At(c, w, h, x1, z1)
    requires At(b, w, h, x, z) == At(d, w, h, x1, z1)
    requires At(a, w, h, x + 1, z) == At(c, w, h, x1 - 1, z1)
    requires At(a, w, h, x - 1, z) == At(c, w, h, x1 + 1, z1)
    requires At(a, w, h, x, z + 1) == At(c, w, h, x1, z1 + 1)
    requires At(a, w, h, x, z - 1) == At(c, w, h, x1, z1 - 1)
    ensures StencilAt(k, a, b, w, h, x, z) == StencilAt(k, c, d, w, h, x1, z1)
  {
  }

  /** Equal stencils from reads that agree with the two z-neighbours swapped. */
  lemma StencilMirrorZ(k: Coeffs, a: seq<real>, b: seq<real>, c: seq<real>, d: seq<real>, w: int, h: int, x: int, z: int, x1: int, z1: int)
    requires IsField(a, w, h) && IsField(b, w, h) && IsField(c, w, h) && IsField(d, w, h)
    requires 0 <= x < w && 0 <= z < h && 0 <= x1 < w && 0 <= z1 < h
    requires At(a, w, h, x, z) == At(c, w, h, x1, z1)
    requires At(b, w, h, x, z) == At(d, w, h, x1, z1)
    requires At(a, w, h, x + 1, z) == At(c, w, h, x1 + 1, z1)
    requires At(a, w, h, x - 1, z) == At(c, w, h, x1 - 1, z1)
    requires At(a, w, h, x, z + 1) == At(c, w, h, x1, z1 - 1)
    requires At(a, w, h, x, z - 1) == At(c, w, h, x1, z1 + 1)
    ensures StencilAt(k, a, b, w, h, x, z) == StencilAt(k, c, d, w, h, x1, z1)
  {
  }
}
