/** `calcCentroid`: the intensity-weighted centroid of the pixels above a threshold inside the
    box [x - xr, x + xr] x [y - yr, y + yr]. The source accumulates the weighted sums in
    `float`; here they are exact integers. */
module Centroid {
  import opened Samples

  /** What a pixel contributes to the sums: its value when strictly above `min`, else nothing. */
  function Weight(v: int, min: int): (w: int)
    ensures 0 <= v ==> 0 <= w <= v
  {
    if v > min then v else 0
  }

  /** The box [x - xr, x + xr] x [y - yr, y + yr] lies inside the frame. */
  predicate BoxInFrame(f: Frame, x: int, y: int, xr: int, yr: int)
  {
    0 <= xr && 0 <= yr && 0 <= x - xr && x + xr < f.width && 0 <= y - yr && y + yr < f.height
  }

  /** Sum of the weights of pixels i0 .. i1-1 of row j. */
  function RowMass(f: Frame, j: int, i0: int, i1: int, min: int): int
    requires f.WellFormed() && 0 <= j < f.height && 0 <= i0 && i1 <= f.width
    decreases i1 - i0
  {
    if i1 <= i0 then 0 else RowMass(f, j, i0, i1 - 1, min) + Weight(f.At(i1 - 1, j), min)
  }

  /** Sum of i * weight over pixels i0 .. i1-1 of row j. */
  function RowMoment(f: Frame, j: int, i0: int, i1: int, min: int): int
    requires f.WellFormed() && 0 <= j < f.height && 0 <= i0 && i1 <= f.width
    decreases i1 - i0
  {
    if i1 <= i0 then 0 else RowMoment(f, j, i0, i1 - 1, min) + (i1 - 1) * Weight(f.At(i1 - 1, j), min)
  }

  /** Sum of the weights over columns i0 .. i1-1 of rows j0 .. j1-1. */
  function BoxMass(f: Frame, i0: int, i1: int, j0: int, j1: int, min: int): int
    requires f.WellFormed() && 0 <= i0 && i1 <= f.width && 0 <= j0 && j1 <= f.height
    decreases j1 - j0
  {
    if j1 <= j0 then 0 else BoxMass(f, i0, i1, j0, j1 - 1, min) + RowMass(f, j1 - 1, i0, i1, min)
  }

  /** Sum of i * weight over the same box. */
  function BoxXMoment(f: Frame, i0: int, i1: int, j0: int, j1: int, min: int): int
    requires f.WellFormed() && 0 <= i0 && i1 <= f.width && 0 <= j0 && j1 <= f.height
    decreases j1 - j0
  {
    if j1 <= j0 then 0 else BoxXMoment(f, i0, i1, j0, j1 - 1, min) + RowMoment(f, j1 - 1, i0, i1, min)
  }

  /** Sum of j * weight over the same box. */
  function BoxYMoment(f: Frame, i0: int, i1: int, j0: int, j1: int, min: int): int
    requires f.WellFormed() && 0 <= i0 && i1 <= f.width && 0 <= j0 && j1 <= f.height
    decreases j1 - j0
  {
    if j1 <= j0 then 0 else BoxYMoment(f, i0, i1, j0, j1 - 1, min) + (j1 - 1) * RowMass(f, j1 - 1, i0, i1, min)
  }

  /** Adding one more column (or row) at position `k` of weight `w` keeps the moment between
      `lo` and `k` times the mass. */
  lemma BoundsStep(lo: int, k: int, m: int, mo: int, w: int, kw: int)
    requires 0 <= m && 0 <= w && lo <= k && kw == k * w
    requires lo * m <= mo <= (k - 1) * m
    ensures lo * (m + w) <= mo + kw <= k * (m + w)
  {
    MulLe(m, k - 1, k);
    MulLe(w, lo, k);
    assert lo * (m + w) == lo * m + lo * w;
    assert k * (m + w) == k * m + k * w;
  }

  /** Two parts whose moments lie between `lo` and `hi` times their masses add up to a whole
      with the same bounds. */
  lemma SumBounds(lo: int, hi: int, m: int, mo: int, r: int, ro: int)
    requires lo * m <= mo <= hi * m && lo * r <= ro <= hi * r
    ensures lo * (m + r) <= mo + ro <= hi * (m + r)
  {
    assert lo * (m + r) == lo * m + lo * r;
    assert hi * (m + r) == hi * m + hi * r;
  }

  /** A row's mass is non-negative and its moment lies between i0 and i1-1 times its mass. */
  lemma {:induction false} RowBounds(f: Frame, j: int, i0: int, i1: int, min: int)
    requires f.WellFormed() && 0 <= j < f.height && 0 <= i0 && i1 <= f.width
    ensures 0 <= RowMass(f, j, i0, i1, min)
    ensures i0 * RowMass(f, j, i0, i1, min) <= RowMoment(f, j, i0, i1, min)
    ensures RowMoment(f, j, i0, i1, min) <= (i1 - 1) * RowMass(f, j, i0, i1, min)
    decreases i1 - i0
  {
    if i0 < i1 {
      RowBounds(f, j, i0, i1 - 1, min);
      var w := Weight(f.At(i1 - 1, j), min);
      BoundsStep(i0, i1 - 1, RowMass(f, j, i0, i1 - 1, min), RowMoment(f, j, i0, i1 - 1, min), w, (i1 - 1) * w);
    }
  }

  /** The same bounds for a box, on both axes. */
  lemma {:induction false} BoxBounds(f: Frame, i0: int, i1: int, j0: int, j1: int, min: int)
    requires f.WellFormed() && 0 <= i0 && i1 <= f.width && 0 <= j0 && j1 <= f.height
    ensures 0 <= BoxMass(f, i0, i1, j0, j1, min)
    ensures i0 * BoxMass(f, i0, i1, j0, j1, min) <= BoxXMoment(f, i0, i1, j0, j1, min)
    ensures BoxXMoment(f, i0, i1, j0, j1, min) <= (i1 - 1) * BoxMass(f, i0, i1, j0, j1, min)
    ensures j0 * BoxMass(f, i0, i1, j0, j1, min) <= BoxYMoment(f, i0, i1, j0, j1, min)
    ensures BoxYMoment(f, i0, i1, j0, j1, min) <= (j1 - 1) * BoxMass(f, i0, i1, j0, j1, min)
    decreases j1 - j0
  {
    if j0 < j1 {
      BoxBounds(f, i0, i1, j0, j1 - 1, min);
      RowBounds(f, j1 - 1, i0, i1, min);
      var m, r := BoxMass(f, i0, i1, j0, j1 - 1, min), RowMass(f, j1 - 1, i0, i1, min);
      SumBounds(i0, i1 - 1, m, BoxXMoment(f, i0, i1, j0, j1 - 1, min), r, RowMoment(f, j1 - 1, i0, i1, min));
      BoundsStep(j0, j1 - 1, m, BoxYMoment(f, i0, i1, j0, j1 - 1, min), r, (j1 - 1) * r);
    }
  }

  lemma QuotientBetween(lo: int, hi: int, moment: int, mass: int)
    requires 0 < mass && lo * mass <= moment <= hi * mass
    ensures lo as real <= moment as real / mass as real <= hi as real
  {
    var q := moment as real / mass as real;
    assert q * mass as real == moment as real;
    RealCancel(lo as real, q, mass as real);
    RealCancel(q, hi as real, mass as real);
  }

  lemma Distribute(k: int, a: int, b: int)
    ensures k * (a + b) == k * a + k * b
  {
  }

  lemma RealCancel(a: real, b: real, c: real)
    requires 0.0 < c && a * c <= b * c
    ensures a <= b
  {
  }

  /** The centroid `calcCentroid` reports for the box around (x, y): the weighted mean position
      of the pixels strictly above `min`, or (0, 0) when their total is zero. */
  function CentroidOf(f: Frame, x: int, y: int, xr: int, yr: int, min: int): (real, real)
    requires f.WellFormed() && BoxInFrame(f, x, y, xr, yr)
  {
    var mass := BoxMass(f, x - xr, x + xr + 1, y - yr, y + yr + 1, min);
    if mass == 0 then (0.0, 0.0)
    else (BoxXMoment(f, x - xr, x + xr + 1, y - yr, y + yr + 1, min) as real / mass as real,
          BoxYMoment(f, x - xr, x + xr + 1, y - yr, y + yr + 1, min) as real / mass as real)
  }

  /** The centroid is (0, 0) when no pixel of the box carries weight, and otherwise lies inside
      the box. */
  lemma CentroidInBox(f: Frame, x: int, y: int, xr: int, yr: int, min: int)
    requires f.WellFormed() && BoxInFrame(f, x, y, xr, yr)
    ensures BoxMass(f, x - xr, x + xr + 1, y - yr, y + yr + 1, min) == 0 ==> CentroidOf(f, x, y, xr, yr, min) == (0.0, 0.0)
    ensures BoxMass(f, x - xr, x + xr + 1, y - yr, y + yr + 1, min) != 0 ==>
              var c := CentroidOf(f, x, y, xr, yr, min);
              (x - xr) as real <= c.0 <= (x + xr) as real && (y - yr) as real <= c.1 <= (y + yr) as real
  {
    var i0, i1, j0, j1 := x - xr, x + xr + 1, y - yr, y + yr + 1;
    var mass := BoxMass(f, i0, i1, j0, j1, min);
    BoxBounds(f, i0, i1, j0, j1, min);
    if mass != 0 {
      QuotientBetween(i0, i1 - 1, BoxXMoment(f, i0, i1, j0, j1, min), mass);
      QuotientBetween(j0, j1 - 1, BoxYMoment(f, i0, i1, j0, j1, min), mass);
    }
  }

  /** `calcCentroid(width, height, pixels, x, y, x_radius, y_radius, &xc, &yc, min)`: the nested
      loops over the box add i * p, j * p and p for every pixel p strictly above `min`, then
      divide by the total when it is not zero. Every read stays in the buffer when the box does. */
  method CalcCentroid(width: int, height: int, pixels: array<Sample>, x: int, y: int,
                      xRadius: int, yRadius: int, min: int)
    returns (xCentroid: real, yCentroid: real)
    requires 0 <= width && 0 <= height && pixels.Length == width * height
    requires BoxInFrame(Frame(width, height, pixels[..]), x, y, xRadius, yRadius)
    ensures (xCentroid, yCentroid) == CentroidOf(Frame(width, height, pixels[..]), x, y, xRadius, yRadius, min)
    ensures xCentroid == 0.0 || (x - xRadius) as real <= xCentroid <= (x + xRadius) as real
    ensures yCentroid == 0.0 || (y - yRadius) as real <= yCentroid <= (y + yRadius) as real
  {
    ghost var f := Frame(width, height, pixels[..]);
    var i0, i1, j0 := x - xRadius, x + xRadius + 1, y - yRadius;
    var sx, sy, sum := 0, 0, 0;
    var j := j0;
    while j <= y + yRadius
      invariant j0 <= j <= y + yRadius + 1
      invariant sum == BoxMass(f, i0, i1, j0, j, min)
      invariant sx == BoxXMoment(f, i0, i1, j0, j, min)
      invariant sy == BoxYMoment(f, i0, i1, j0, j, min)
    {
      var i := i0;
      ghost var rowStart := sy;
      while i <= x + xRadius
        invariant i0 <= i <= i1
        invariant sum == BoxMass(f, i0, i1, j0, j, min) + RowMass(f, j, i0, i, min)
        invariant sx == BoxXMoment(f, i0, i1, j0, j, min) + RowMoment(f, j, i0, i, min)
        invariant sy == BoxYMoment(f, i0, i1, j0, j, min) + j * RowMass(f, j, i0, i, min)
      {
        IndexInRange(i, j, width, height);
        var p := pixels[j * width + i];
        assert p == f.pixels[j * width + i] == f.At(i, j);
        if p > min {
          sx := sx + i * p;
          sy := sy + j * p;
          sum := sum + p;
        }
        ghost var wt := Weight(p, min);
        assert RowMass(f, j, i0, i + 1, min) == RowMass(f, j, i0, i, min) + wt;
        assert RowMoment(f, j, i0, i + 1, min) == RowMoment(f, j, i0, i, min) + i * wt;
        Distribute(j, RowMass(f, j, i0, i, min), wt);
        i := i + 1;
      }
      j := j + 1;
    }
    CentroidInBox(f, x, y, xRadius, yRadius, min);
    xCentroid, yCentroid := 0.0, 0.0;
    if sum != 0 {
      xCentroid := sx as real / sum as real;
      yCentroid := sy as real / sum as real;
    }
  }
}
