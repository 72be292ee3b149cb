/** Toroidal addressing of the W x H water grid (js/main.js, indexFrom). */
module Grid {

  /** JavaScript's `%` on integers: the remainder of division truncated
      toward zero, so it takes the sign of the dividend. */
  function JsRem(a: int, b: int): (r: int)
    requires b > 0
    ensures a >= 0 ==> 0 <= r < b
    ensures a < 0 ==> -b < r <= 0
    ensures (a - r) % b == 0
  {
    if a >= 0 then
      RemUnique(a - a % b, b, a / b, 0);
      a % b
    else
      RemUnique(-((-a) - (-a) % b), b, -((-a) / b), 0);
      -((-a) % b)
  }

  /** indexFrom as written: both coordinates are shifted by one period and
      reduced with JavaScript's `%`, and the row stride is the WIDTH. */
  function IndexFrom(w: int, h: int, x: int, z: int): int
    requires w > 0 && h > 0
  {
    JsRem(x + w, w) * w + JsRem(z + h, h)
  }

  /** The coordinate reduction used by indexFrom: `(a + n) % n` in JavaScript.
      On the domain the simulation uses (a >= -n) it is the mathematical
      residue of a modulo n. */
  function Wrap(a: int, n: int): (r: int)
    requires n > 0 && a >= -n
    ensures 0 <= r < n
    ensures r == a % n
  {
    ShiftByPeriod(a, n);
    JsRem(a + n, n)
  }

  lemma ShiftByPeriod(a: int, n: int)
    requires n > 0
    ensures (a + n) % n == a % n
  {
    var q, r := a / n, a % n;
    assert a + n == (q + 1) * n + r;
    RemUnique(a + n, n, q + 1, r);
  }

  /** The remainder is the unique r in [0, n) with a == q * n + r. */
  lemma RemUnique(a: int, n: int, q: int, r: int)
    requires n > 0 && 0 <= r < n && a == q * n + r
    ensures a % n == r && a / n == q
  {
    var k := q - a / n;
    assert k * n == a % n - r;
    MulMonoLe(1, k, n);
    MulMonoLe(k, -1, n);
  }

  lemma {:induction false} MulNonneg(a: int, b: int)
    requires a >= 0 && b >= 0
    ensures a * b >= 0
    decreases a
  {
    if a > 0 {
      MulNonneg(a - 1, b);
    }
  }

  lemma MulMonoLe(a: int, b: int, c: int)
    ensures 0 <= c && a <= b ==> a * c <= b * c
  {
    if 0 <= c && a <= b {
      MulNonneg(b - a, c);
    }
  }

  /** The linear index of the cell (x, z) wraps to: row-major with stride h,
      as the simulation intends (see CellIndexMatchesSource for the
      relation to the source's stride w). */
  function CellIndex(w: int, h: int, x: int, z: int): (r: int)
    requires w > 0 && h > 0 && x >= -w && z >= -h
    ensures 0 <= r < w * h
  {
    var i, j := Wrap(x, w), Wrap(z, h);
    RowMajor(i, j, w, h);
    i * h + j
  }

  /** The index decodes, by division and remainder by h, to the wrapped
      coordinates of the cell. */
  lemma CellIndexDecodes(w: int, h: int, x: int, z: int)
    requires w > 0 && h > 0 && x >= -w && z >= -h
    ensures CellIndex(w, h, x, z) / h == x % w
    ensures CellIndex(w, h, x, z) % h == z % h
  {
    RowMajor(Wrap(x, w), Wrap(z, h), w, h);
  }

  lemma RowMajor(i: int, j: int, w: int, h: int)
    requires 0 <= i < w && 0 <= j < h
    ensures 0 <= i * h + j < w * h
    ensures (i * h + j) / h == i && (i * h + j) % h == j
  {
    RemUnique(i * h + j, h, i, j);
    MulNonneg(i, h);
    MulMonoLe(i + 1, w, h);
  }

  /** Reducing before an offset and after it agree. */
  lemma ModShift(a: int, d: int, n: int)
    requires n > 0
    ensures (a % n + d) % n == (a + d) % n
  {
    var q, r := a / n, a % n;
    var q2, r2 := (r + d) / n, (r + d) % n;
    assert a + d == (q + q2) * n + r2;
    RemUnique(a + d, n, q + q2, r2);
  }

  /** Coordinates congruent modulo the grid size address the same cell. */
  lemma CellIndexCongruent(w: int, h: int, a: int, c: int, b: int, d: int)
    requires w > 0 && h > 0 && a >= -w && b >= -w && c >= -h && d >= -h
    requires a % w == b % w && c % h == d % h
    ensures CellIndex(w, h, a, c) == CellIndex(w, h, b, d)
  {
  }

  /** Every in-range cell gets a distinct index. */
  lemma CellIndexInjective(w: int, h: int, x1: int, z1: int, x2: int, z2: int)
    requires w > 0 && h > 0
    requires 0 <= x1 < w && 0 <= z1 < h && 0 <= x2 < w && 0 <= z2 < h
    requires CellIndex(w, h, x1, z1) == CellIndex(w, h, x2, z2)
    ensures x1 == x2 && z1 == z2
  {
    CellIndexDecodes(w, h, x1, z1);
    CellIndexDecodes(w, h, x2, z2);
    RemUnique(x1, w, 0, x1);
    RemUnique(x2, w, 0, x2);
    RemUnique(z1, h, 0, z1);
    RemUnique(z2, h, 0, z2);
  }

  /** Every index in [0, w*h) is the index of exactly the cell it decodes to. */
  lemma CellIndexSurjective(w: int, h: int, n: int)
    requires w > 0 && h > 0 && 0 <= n < w * h
    ensures 0 <= n / h < w && 0 <= n % h < h
    ensures CellIndex(w, h, n / h, n % h) == n
  {
    var i, j := n / h, n % h;
    MulMonoLe(i, -1, h);
    MulMonoLe(w, i, h);
    InRangeWrap(i, w);
    InRangeWrap(j, h);
  }

  /** An in-range coordinate is its own wrap. */
  lemma InRangeWrap(a: int, n: int)
    requires 0 <= a < n
    ensures Wrap(a, n) == a
  {
    RemUnique(a, n, 0, a);
  }

  /** Edges are glued: stepping off one edge lands on the opposite one. */
  lemma WrapAround(w: int, h: int, x: int, z: int)
    requires w > 0 && h > 0 && 0 <= x < w && 0 <= z < h
    ensures CellIndex(w, h, -1, z) == CellIndex(w, h, w - 1, z)
    ensures CellIndex(w, h, w, z) == CellIndex(w, h, 0, z)
    ensures CellIndex(w, h, x, -1) == CellIndex(w, h, x, h - 1)
    ensures CellIndex(w, h, x, h) == CellIndex(w, h, x, 0)
  {
    RemUnique(-1, w, -1, w - 1);
    RemUnique(w - 1, w, 0, w - 1);
    RemUnique(w, w, 1, 0);
    RemUnique(0, w, 0, 0);
    RemUnique(-1, h, -1, h - 1);
    RemUnique(h - 1, h, 0, h - 1);
    RemUnique(h, h, 1, 0);
    RemUnique(0, h, 0, 0);
  }

  /** Shifting a coordinate by a whole period does not change the cell. */
  lemma CellIndexPeriodic(w: int, h: int, x: int, z: int)
    requires w > 0 && h > 0 && x >= -w && z >= -h
    ensures CellIndex(w, h, x + w, z) == CellIndex(w, h, x, z)
    ensures CellIndex(w, h, x, z + h) == CellIndex(w, h, x, z)
  {
    ShiftByPeriod(x, w);
    ShiftByPeriod(z, h);
  }

  /** On the square grid the source uses (WATER_WIDTH == WATER_HEIGHT),
      CellIndex is exactly indexFrom as written. */
  lemma CellIndexMatchesSource(n: int, x: int, z: int)
    requires n > 0 && x >= -n && z >= -n
    ensures CellIndex(n, n, x, z) == IndexFrom(n, n, x, z)
  {
  }

  /** indexFrom as written reduces each coordinate into its range once it
      is at least minus one period. */
  lemma IndexFromCoordinates(w: int, h: int, x: int, z: int)
    requires w > 0 && h > 0 && x >= -w && z >= -h
    ensures 0 <= JsRem(x + w, w) < w && 0 <= JsRem(z + h, h) < h
    ensures JsRem(x + w, w) == x % w && JsRem(z + h, h) == z % h
  {
    ShiftByPeriod(x, w);
    ShiftByPeriod(z, h);
  }

  /** On the square grid, indexFrom as written lands in [0, n*n) and tells
      in-range cells apart. */
  lemma IndexFromSquare(n: int, x1: int, z1: int, x2: int, z2: int)
    requires n > 0 && 0 <= x1 < n && 0 <= z1 < n && 0 <= x2 < n && 0 <= z2 < n
    ensures 0 <= IndexFrom(n, n, x1, z1) < n * n
    ensures IndexFrom(n, n, x1, z1) == IndexFrom(n, n, x2, z2) <==> x1 == x2 && z1 == z2
  {
    CellIndexMatchesSource(n, x1, z1);
    CellIndexMatchesSource(n, x2, z2);
    if IndexFrom(n, n, x1, z1) == IndexFrom(n, n, x2, z2) {
      CellIndexInjective(n, n, x1, z1, x2, z2);
    }
  }

  /** Reducing non-negative coordinates first does not change the cell. */
  lemma CellIndexOfResidues(w: int, h: int, x: int, z: int)
    requires w > 0 && h > 0 && x >= 0 && z >= 0
    ensures CellIndex(w, h, x % w, z % h) == CellIndex(w, h, x, z)
  {
    RemUnique(x % w, w, 0, x % w);
    RemUnique(z % h, h, 0, z % h);
  }

  /** The raindrop cell `a * WATER_WIDTH + b` of seedWaterSurface is the
      cell (a, b) on the square grid. */
  lemma SeedIndexMatchesSource(n: int, a: int, b: int)
    requires 0 <= a < n && 0 <= b < n
    ensures CellIndex(n, n, a, b) == a * n + b
  {
    InRangeWrap(a, n);
    InRangeWrap(b, n);
  }

  /** With a width stride and W != H, indexFrom maps two different cells of
      a 2 x 3 grid to the same index ... */
  lemma IndexFromCollides()
    ensures IndexFrom(2, 3, 0, 2) == IndexFrom(2, 3, 1, 0) == 2
  {
  }

  /** ... and sends a cell of a 3 x 2 grid past the end of its 6 cells. */
  lemma IndexFromOverruns()
    ensures IndexFrom(3, 2, 2, 1) == 7
  {
  }

  /** Below -W, JavaScript's truncating `%` gives a negative index: the
      wrap-around of indexFrom holds only for coordinates >= -W. */
  lemma IndexFromNegativeBelowDomain()
    ensures IndexFrom(4, 4, -5, 0) < 0
  {
  }
}
