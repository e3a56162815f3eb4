/**
 * Arithmetic of the scrolling spawn window of LocalSandManager: the C# integer
 * cast and float remainder it relies on, its two floor helpers, and the
 * formula that places column (i, j) around the anchor.
 */
module SpawnWindow {

  /** The C# cast `(int)v` of a float: truncation toward zero. */
  function Trunc(v: real): (r: int)
    ensures v >= 0.0 ==> r >= 0 && r as real <= v < r as real + 1.0
    ensures v < 0.0 ==> r <= 0 && r as real - 1.0 < v <= r as real
  {
    if v >= 0.0 then v.Floor else -((-v).Floor)
  }

  /** The C# float remainder `a % b`: truncated, it takes the sign of `a`. */
  function FMod(a: real, b: real): real
    requires b != 0.0
  {
    a - b * Trunc(a / b) as real
  }

  /** `x` is an integer multiple of `w`. */
  predicate IsMultipleOf(x: real, w: real)
    requires w != 0.0
  {
    (x / w).Floor as real == x / w
  }

  /** `Floor(val, interval)` of the window (truncate, then step down once for negatives). */
  function Floor(val: real, interval: real): real
    requires interval != 0.0
  {
    interval * Trunc(val / interval) as real + (if val < 0.0 then -interval else 0.0)
  }

  /** The cell width `_wpr` of a window of the given width and resolution. */
  function CellWidth(width: real, resolution: nat): (wpr: real)
    requires width > 0.0 && resolution > 0
    ensures wpr > 0.0 && wpr * resolution as real == width
  {
    width / resolution as real
  }

  /** `UnsignedFloor(val)`: the anchor quantised to the cell width, with its sign correction. */
  function UnsignedFloor(val: real, width: real, resolution: nat): real
    requires width > 0.0 && resolution > 0
  {
    var wpr := CellWidth(width, resolution);
    wpr * Trunc(val / wpr) as real + (if val < 0.0 then -Floor(val, width) - wpr else 0.0)
  }

  /** The wrapped part of one horizontal coordinate of column `index` (the `%` term). */
  function ColumnOffset(anchor: real, index: nat, width: real, resolution: nat): real
    requires width > 0.0 && resolution > 0
  {
    FMod(UnsignedFloor(anchor, width, resolution) * (resolution - 1) as real
         + index as real * CellWidth(width, resolution), width)
  }

  /** One horizontal coordinate of the target of column `index` for an anchor coordinate. */
  function ColumnCoord(anchor: real, index: nat, width: real, resolution: nat): real
    requires width > 0.0 && resolution > 0
  {
    ColumnOffset(anchor, index, width, resolution)
      + Floor(anchor, CellWidth(width, resolution)) - width * 0.5
  }

  // ---------------------------------------------------------------------------
  // Integer and real facts

  /** A non-zero integer multiple of `d` is at least `d` in size. */
  lemma MulAtLeast(e: int, d: int)
    requires d > 0
    ensures e >= 1 ==> e * d >= d
    ensures e <= -1 ==> e * d <= -d
  {
  }

  /** Euclidean division is determined by its quotient and remainder. */
  lemma DivModUnique(x: int, d: int, q: int, r: int)
    requires d > 0 && 0 <= r < d && x == q * d + r
    ensures x / d == q && x % d == r
  {
    var q0, r0 := x / d, x % d;
    assert x == q0 * d + r0;
    assert (q - q0) * d == r0 - r;
    MulAtLeast(q - q0, d);
  }

  /** Adding a multiple of `d` does not change the remainder. */
  lemma ModShift(x: int, k: int, d: int)
    requires d > 0
    ensures (x + k * d) % d == x % d
  {
    DivModUnique(x + k * d, d, x / d + k, x % d);
  }

  /** The exact real quotient of two integers floors to their integer quotient. */
  lemma RealQuotientFloor(n: int, d: int)
    requires d > 0
    ensures ((n as real) / (d as real)).Floor == n / d
  {
    var q, r := n / d, n % d;
    assert n as real == q as real * d as real + r as real;
    var x := (n as real) / (d as real);
    assert x == q as real + (r as real) / (d as real);
    assert 0.0 <= (r as real) / (d as real) < 1.0;
  }

  /** A common positive factor cancels in a quotient. */
  lemma CancelFactor(w: real, a: real, b: real)
    requires w > 0.0 && b != 0.0
    ensures (w * a) / (w * b) == a / b
  {
    var x := a / b;
    assert x * b == a;
    assert (w * b) * x == w * a;
  }

  /** Dividing a product by one factor gives the other. */
  lemma ProductQuotient(c: real, w: real, p: real)
    requires w != 0.0 && p == c * w
    ensures p / w == c
  {
  }

  /** Multiplying by a positive factor keeps an ordering. */
  lemma MulMono(w: real, a: real, b: real)
    requires w > 0.0 && a <= b
    ensures w * a <= w * b
    ensures a < b ==> w * a < w * b
  {
  }

  // ---------------------------------------------------------------------------
  // Properties of the floor helpers

  /** For a non-negative value, Floor is a multiple of the interval in (v - w, v]. */
  lemma FloorNonNegative(v: real, w: real)
    requires v >= 0.0 && w > 0.0
    ensures IsMultipleOf(Floor(v, w), w)
    ensures v - w < Floor(v, w) <= v
    ensures Floor(v, w) == (v / w).Floor as real * w
  {
    var n := (v / w).Floor;
    assert Trunc(v / w) == n;
    assert Floor(v, w) == w * n as real;
    assert (w * n as real) / w == n as real;
    assert n as real <= v / w < n as real + 1.0;
    assert w * (v / w) == v;
    MulMono(w, n as real, v / w);
    MulMono(w, v / w, n as real + 1.0);
  }

  /**
   * For a negative value that is not a multiple of the interval, Floor is the
   * true floor; for a negative exact multiple it is one interval too low.
   */
  lemma FloorNegative(v: real, w: real)
    requires v < 0.0 && w > 0.0
    ensures IsMultipleOf(Floor(v, w), w)
    ensures !IsMultipleOf(v, w) ==> Floor(v, w) == w * (v / w).Floor as real
    ensures IsMultipleOf(v, w) ==> Floor(v, w) == w * (v / w - 1.0)
  {
    var y := -v / w;
    var m := y.Floor;
    FloorNegativeCells(v, w);
    assert v / w == -y;
    NegatedFloor(y);
    if (v / w).Floor as real == v / w {
      assert v / w - 1.0 == -(m as real) - 1.0;
    } else {
      assert (v / w).Floor as real == -(m as real) - 1.0;
    }
  }

  /** The floor of a negation: `-y` itself when `y` is integral, else one below `-floor(y)`. */
  lemma NegatedFloor(y: real)
    ensures (-y).Floor as real == -y <==> y.Floor as real == y
    ensures y.Floor as real != y ==> (-y).Floor == -y.Floor - 1
  {
    var n := y.Floor;
    if n as real == y {
      assert -y == (-n) as real;
      IntegralFloor(-n);
    } else {
      assert n as real < y < n as real + 1.0;
      assert (-n - 1) as real < -y < (-n) as real;
      FloorBetween(-y, -n - 1);
    }
  }

  /** An integer-valued real is its own floor. */
  lemma IntegralFloor(n: int)
    ensures (n as real).Floor == n
  {
  }

  /** A real strictly between `n` and `n + 1` floors to `n`. */
  lemma FloorBetween(x: real, n: int)
    requires n as real <= x < n as real + 1.0
    ensures x.Floor == n
  {
  }

  /** For a negative value, Floor is `-(m + 1)` intervals, `m` the floor of `-v / w`. */
  lemma FloorNegativeCells(v: real, w: real)
    requires v < 0.0 && w > 0.0
    ensures Floor(v, w) == w * (-((-v / w).Floor as real) - 1.0)
    ensures IsMultipleOf(Floor(v, w), w)
  {
    var y := -v / w;
    assert v / w == -y;
    var m := y.Floor;
    assert Trunc(v / w) == -m;
    assert Floor(v, w) == w * (-(m as real) - 1.0);
    ProductQuotient(-(m as real) - 1.0, w, Floor(v, w));
    IntegralFloor(-m - 1);
  }

  /** The window's Floor is not a true floor: -1 with interval 1 maps to -2. */
  lemma FloorNegativeMultipleExample()
    ensures Floor(-1.0, 1.0) == -2.0
  {
    assert Trunc(-1.0) == -1;
  }

  /** For a non-negative value, UnsignedFloor is a multiple of the cell width. */
  lemma UnsignedFloorNonNegative(v: real, width: real, resolution: nat)
    requires v >= 0.0 && width > 0.0 && resolution > 0
    ensures IsMultipleOf(UnsignedFloor(v, width, resolution), CellWidth(width, resolution))
    ensures UnsignedFloor(v, width, resolution) == Floor(v, CellWidth(width, resolution))
  {
    FloorNonNegative(v, CellWidth(width, resolution));
  }

  // ---------------------------------------------------------------------------
  // The toroidal wrap

  /** C# `%` of a non-negative multiple of the cell width by the window width. */
  lemma FModCells(n: nat, wpr: real, resolution: nat, width: real)
    requires wpr > 0.0 && resolution > 0 && width == wpr * resolution as real
    ensures FMod(wpr * n as real, width) == wpr * (n % resolution) as real
  {
    var a := wpr * n as real;
    CancelFactor(wpr, n as real, resolution as real);
    RealQuotientFloor(n, resolution);
    var q := n / resolution;
    assert Trunc(a / width) == q;
    assert (n % resolution) as real == n as real - resolution as real * q as real;
    assert FMod(a, width) == a - width * q as real;
    assert width * q as real == wpr * (resolution as real * q as real);
  }

  /** The cell number `k` of a non-negative anchor coordinate. */
  function AnchorCell(anchor: real, width: real, resolution: nat): (k: nat)
    requires anchor >= 0.0 && width > 0.0 && resolution > 0
    ensures k as real * CellWidth(width, resolution) <= anchor
  {
    FloorNonNegative(anchor, CellWidth(width, resolution));
    (anchor / CellWidth(width, resolution)).Floor
  }

  /** The window cell `(i - k) mod R` that column `i` occupies. */
  function OffsetCell(anchor: real, i: nat, width: real, resolution: nat): (m: nat)
    requires anchor >= 0.0 && width > 0.0 && resolution > 0
    ensures m < resolution
  {
    (i - AnchorCell(anchor, width, resolution)) % resolution
  }

  /** The column that occupies window cell `m`. */
  function ColumnOfCell(anchor: real, m: nat, width: real, resolution: nat): (i: nat)
    requires anchor >= 0.0 && width > 0.0 && resolution > 0
    ensures i < resolution
  {
    (m + AnchorCell(anchor, width, resolution)) % resolution
  }

  /** The dividend of the `%` for anchor cell `k` and column `i`, as cells. */
  lemma DividendCells(k: nat, i: nat, resolution: nat, wpr: real)
    requires resolution > 0
    ensures (k as real * wpr) * (resolution - 1) as real + i as real * wpr
            == wpr * (k * (resolution - 1) + i) as real
  {
    assert (k * (resolution - 1)) as real == k as real * (resolution - 1) as real;
  }

  /**
   * For a non-negative anchor coordinate, the wrapped offset of column `i` is
   * its window cell times the cell width.
   */
  lemma ColumnOffsetCell(anchor: real, i: nat, width: real, resolution: nat)
    requires anchor >= 0.0 && width > 0.0 && resolution > 0
    ensures ColumnOffset(anchor, i, width, resolution)
            == CellWidth(width, resolution) * OffsetCell(anchor, i, width, resolution) as real
  {
    var wpr := CellWidth(width, resolution);
    var k := AnchorCell(anchor, width, resolution);
    var n: nat := k * (resolution - 1) + i;
    UnsignedFloorCells(anchor, width, resolution);
    DividendCells(k, i, resolution, wpr);
    assert UnsignedFloor(anchor, width, resolution) * (resolution - 1) as real
           + i as real * CellWidth(width, resolution) == wpr * n as real;
    FModCells(n, wpr, resolution, width);
    assert ColumnOffset(anchor, i, width, resolution) == wpr * (n % resolution) as real;
    ModShift(i - k, k, resolution);
    assert n == (i - k) + k * resolution;
  }

  /** For a non-negative anchor, UnsignedFloor is its cell number times the cell width. */
  lemma UnsignedFloorCells(anchor: real, width: real, resolution: nat)
    requires anchor >= 0.0 && width > 0.0 && resolution > 0
    ensures UnsignedFloor(anchor, width, resolution)
            == AnchorCell(anchor, width, resolution) as real * CellWidth(width, resolution)
  {
    UnsignedFloorNonNegative(anchor, width, resolution);
    FloorNonNegative(anchor, CellWidth(width, resolution));
  }

  /** Distinct columns occupy distinct window cells. */
  lemma OffsetCellInjective(anchor: real, i1: nat, i2: nat, width: real, resolution: nat)
    requires anchor >= 0.0 && width > 0.0 && resolution > 0
    requires i1 < resolution && i2 < resolution && i1 != i2
    ensures OffsetCell(anchor, i1, width, resolution) != OffsetCell(anchor, i2, width, resolution)
  {
    var k := AnchorCell(anchor, width, resolution);
    var m1, m2 := (i1 - k) % resolution, (i2 - k) % resolution;
    var q1, q2 := (i1 - k) / resolution, (i2 - k) / resolution;
    assert i1 - k == q1 * resolution + m1;
    assert i2 - k == q2 * resolution + m2;
    if m1 == m2 {
      assert i1 - i2 == (q1 - q2) * resolution;
      MulAtLeast(q1 - q2, resolution);
    }
  }

  /** ColumnOfCell inverts OffsetCell. */
  lemma ColumnOfCellInverse(anchor: real, m: nat, width: real, resolution: nat)
    requires anchor >= 0.0 && width > 0.0 && resolution > 0 && m < resolution
    ensures OffsetCell(anchor, ColumnOfCell(anchor, m, width, resolution), width, resolution) == m
  {
    var k := AnchorCell(anchor, width, resolution);
    var i := (m + k) % resolution;
    var q := (m + k) / resolution;
    assert m + k == q * resolution + i;
    DivModUnique(i - k, resolution, -q, m);
  }

  /**
   * For a non-negative anchor coordinate the R wrapped offsets of columns
   * 0 .. R-1 are a permutation of the cells 0, w, .., (R-1)w: each column
   * sits on a cell, no two columns share one, and every cell has a column.
   */
  lemma ColumnOffsetsPermutation(anchor: real, width: real, resolution: nat)
    requires anchor >= 0.0 && width > 0.0 && resolution > 0
    ensures forall i :: 0 <= i < resolution ==>
      ColumnOffset(anchor, i, width, resolution)
        == CellWidth(width, resolution) * OffsetCell(anchor, i, width, resolution) as real
    ensures forall i1, i2 :: 0 <= i1 < resolution && 0 <= i2 < resolution && i1 != i2 ==>
      OffsetCell(anchor, i1, width, resolution) != OffsetCell(anchor, i2, width, resolution)
    ensures forall m :: 0 <= m < resolution ==>
      OffsetCell(anchor, ColumnOfCell(anchor, m, width, resolution), width, resolution) == m
  {
    forall i | 0 <= i < resolution
      ensures ColumnOffset(anchor, i, width, resolution)
        == CellWidth(width, resolution) * OffsetCell(anchor, i, width, resolution) as real
    {
      ColumnOffsetCell(anchor, i, width, resolution);
    }
    forall i1, i2 | 0 <= i1 < resolution && 0 <= i2 < resolution && i1 != i2
      ensures OffsetCell(anchor, i1, width, resolution) != OffsetCell(anchor, i2, width, resolution)
    {
      OffsetCellInjective(anchor, i1, i2, width, resolution);
    }
    forall m | 0 <= m < resolution
      ensures OffsetCell(anchor, ColumnOfCell(anchor, m, width, resolution), width, resolution) == m
    {
      ColumnOfCellInverse(anchor, m, width, resolution);
    }
  }

  /**
   * For a non-negative anchor coordinate every column coordinate lies on the
   * cell grid of the window `[Floor(a) - W/2, Floor(a) + W/2)` around the anchor.
   */
  lemma ColumnCoordInWindow(anchor: real, i: nat, width: real, resolution: nat)
    requires anchor >= 0.0 && width > 0.0 && resolution > 0
    ensures ColumnCoord(anchor, i, width, resolution)
            == Floor(anchor, CellWidth(width, resolution)) - width * 0.5
               + OffsetCell(anchor, i, width, resolution) as real * CellWidth(width, resolution)
    ensures Floor(anchor, CellWidth(width, resolution)) - width * 0.5
            <= ColumnCoord(anchor, i, width, resolution)
            < Floor(anchor, CellWidth(width, resolution)) + width * 0.5
  {
    var wpr := CellWidth(width, resolution);
    ColumnOffsetCell(anchor, i, width, resolution);
    var m := OffsetCell(anchor, i, width, resolution);
    MulMono(wpr, m as real, (resolution - 1) as real);
    assert wpr * (resolution - 1) as real == width - wpr;
  }
}
