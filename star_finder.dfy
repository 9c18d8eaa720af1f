/** `findBestCentroid`: the search for the brightest compact star in a window of a frame.
    The window is clamped inward by the radius caps; every 4-neighbour local maximum strictly
    brighter than the best so far is measured by growing a radius along each axis, rejected when
    either radius reaches its cap, and otherwise becomes the new best, with its centroid. */
module StarFinder {
  import opened Samples
  import opened Centroid

  /** The search window: columns xMin .. xMax-1 and rows yMin .. yMax-1. */
  datatype Window = Window(xMin: int, xMax: int, yMin: int, yMax: int)

  /** The window `findBestCentroid` scans: the seed centroid truncated to integers, widened by
      the ranges, then pulled inward so that every column is at least `xCap` from either edge
      and every row at least `yCap` from the top and bottom. */
  function ClampWindow(width: int, height: int, xSeed: real, ySeed: real,
                       xRange: int, yRange: int, xCap: int, yCap: int): (w: Window)
    ensures xCap <= w.xMin && w.xMax <= width - xCap && yCap <= w.yMin && w.yMax <= height - yCap
    ensures Trunc(xSeed) - xRange <= w.xMin && w.xMax <= Trunc(xSeed) + xRange
    ensures Trunc(ySeed) - yRange <= w.yMin && w.yMax <= Trunc(ySeed) + yRange
    ensures (w.xMin == xCap || w.xMin == Trunc(xSeed) - xRange) && (w.xMax == width - xCap || w.xMax == Trunc(xSeed) + xRange)
    ensures (w.yMin == yCap || w.yMin == Trunc(ySeed) - yRange) && (w.yMax == height - yCap || w.yMax == Trunc(ySeed) + yRange)
  {
    var x, y := Trunc(xSeed), Trunc(ySeed);
    Window(if x - xRange < xCap then xCap else x - xRange,
           if x + xRange > width - xCap then width - xCap else x + xRange,
           if y - yRange < yCap then yCap else y - yRange,
           if y + yRange > height - yCap then height - yCap else y + yRange)
  }

  /** One search: the frame, the clamped window, the radius caps and the integer threshold
      (`pixel_min`; the source derives it from the window's mean and standard deviation). */
  datatype Search = Search(f: Frame, win: Window, xCap: int, yCap: int, threshold: int)
  {
    /** The window keeps the caps' distance from every edge: what the clamping guarantees. */
    predicate Valid()
    {
      f.WellFormed() && 1 <= xCap && 1 <= yCap &&
      xCap <= win.xMin && win.xMax <= f.width - xCap &&
      yCap <= win.yMin && win.yMax <= f.height - yCap
    }

    predicate InWindow(i: int, j: int)
    {
      win.xMin <= i < win.xMax && win.yMin <= j < win.yMax
    }

    /** One past the last column the scan visits (the loop does not run when xMax <= xMin). */
    function XEnd(): int { Max(win.xMin, win.xMax) }

    function YEnd(): int { Max(win.yMin, win.yMax) }
  }

  /** Pixel (i, j) is at least as bright as its four direct neighbours. */
  predicate LocalMax(s: Search, i: int, j: int)
    requires s.Valid() && s.InWindow(i, j)
  {
    var p := s.f.At(i, j);
    p >= s.f.At(i + 1, j) && p >= s.f.At(i - 1, j) && p >= s.f.At(i, j + 1) && p >= s.f.At(i, j - 1)
  }

  /** The probe at vertical distance k finds a pixel above the threshold on either side. */
  predicate AboveY(s: Search, i: int, j: int, k: int)
    requires s.Valid() && s.InWindow(i, j) && 1 <= k <= s.yCap
  {
    s.f.At(i, j + k) > s.threshold || s.f.At(i, j - k) > s.threshold
  }

  /** The probe at horizontal distance k finds a pixel above the threshold on either side. */
  predicate AboveX(s: Search, i: int, j: int, k: int)
    requires s.Valid() && s.InWindow(i, j) && 1 <= k <= s.xCap
  {
    s.f.At(i + k, j) > s.threshold || s.f.At(i - k, j) > s.threshold
  }

  /** The y radius grown from r: it goes on while either side is above the threshold and the
      cap is not passed, so it stops at the first distance where both sides are at or below
      the threshold, or at cap + 1. */
  function GrowY(s: Search, i: int, j: int, r: int): (n: int)
    requires s.Valid() && s.InWindow(i, j) && 1 <= r <= s.yCap + 1
    ensures r <= n <= s.yCap + 1
    ensures forall k :: r <= k < n ==> AboveY(s, i, j, k)
    ensures n <= s.yCap ==> !AboveY(s, i, j, n)
    decreases s.yCap + 1 - r
  {
    if r <= s.yCap && AboveY(s, i, j, r) then GrowY(s, i, j, r + 1) else r
  }

  /** The x radius grown from r, by the same rule along the row. */
  function GrowX(s: Search, i: int, j: int, r: int): (n: int)
    requires s.Valid() && s.InWindow(i, j) && 1 <= r <= s.xCap + 1
    ensures r <= n <= s.xCap + 1
    ensures forall k :: r <= k < n ==> AboveX(s, i, j, k)
    ensures n <= s.xCap ==> !AboveX(s, i, j, n)
    decreases s.xCap + 1 - r
  {
    if r <= s.xCap && AboveX(s, i, j, r) then GrowX(s, i, j, r + 1) else r
  }

  /** A pixel the search accepts whenever it is examined: strictly above the threshold, a local
      maximum, and with both grown radii strictly below their caps. Whether a pixel is
      acceptable does not depend on what the scan has seen before it. */
  predicate Acceptable(s: Search, i: int, j: int)
    requires s.Valid()
  {
    s.InWindow(i, j) && s.f.At(i, j) > s.threshold && LocalMax(s, i, j) &&
    GrowX(s, i, j, 1) < s.xCap && GrowY(s, i, j, 1) < s.yCap
  }

  /** The centroid `calcCentroid` computes around a candidate whose radii are below the caps. */
  function CandidateCentroid(s: Search, i: int, j: int): (real, real)
    requires s.Valid() && s.InWindow(i, j) && GrowX(s, i, j, 1) < s.xCap && GrowY(s, i, j, 1) < s.yCap
  {
    CentroidOf(s.f, i, j, GrowX(s, i, j, 1), GrowY(s, i, j, 1), s.threshold)
  }

  /** The variables of the scanning loop (`pixel_max`, the centroid written to the output
      parameters, its rounded `x`, `y`, and the last radii), together with two positions the source
      does not keep but which explain the result: the accepted peak and the last candidate
      whose radii were measured. */
  datatype Scan = Scan(pixelMax: int, xc: real, yc: real, x: int, y: int, xRadius: int, yRadius: int,
                       peak: Option<(int, int)>, last: Option<(int, int)>)

  function InitialScan(s: Search, xSeed: real, ySeed: real): Scan
  {
    Scan(s.threshold, xSeed, ySeed, -1, -1, 0, 0, None, None)
  }

  /** The loop body for pixel (i, j). */
  function Step(s: Search, st: Scan, i: int, j: int): Scan
    requires s.Valid() && s.InWindow(i, j)
  {
    var p := s.f.At(i, j);
    if p > st.pixelMax && LocalMax(s, i, j) then
      var yr := GrowY(s, i, j, 1);
      var xr := GrowX(s, i, j, 1);
      if xr < s.xCap && yr < s.yCap then
        var c := CandidateCentroid(s, i, j);
        Scan(p, c.0, c.1, Trunc(c.0 + 0.5), Trunc(c.1 + 0.5), xr, yr, Some((i, j)), Some((i, j)))
      else
        st.(xRadius := xr, yRadius := yr, last := Some((i, j)))
    else
      st
  }

  /** Cell (i, j) comes strictly before cell (ci, cj) in row-major order. */
  predicate Before(i: int, j: int, ci: int, cj: int)
  {
    j < cj || (j == cj && i < ci)
  }

  /** Selection part of the scan invariant, with the cursor at (ci, cj) after every window cell
      before it has been scanned: either no acceptable cell has been seen and `pixelMax` is still
      the threshold, or the recorded peak is an acceptable cell already scanned, the brightest
      acceptable cell seen so far, and strictly brighter than every acceptable cell before it. */
  ghost predicate SelectionInv(s: Search, st: Scan, ci: int, cj: int)
    requires s.Valid()
  {
    (st.peak.None? && st.pixelMax == s.threshold &&
     forall i, j {:trigger Acceptable(s, i, j)} :: Acceptable(s, i, j) ==> !Before(i, j, ci, cj)) ||
    (st.peak.Some? &&
     Acceptable(s, st.peak.value.0, st.peak.value.1) &&
     Before(st.peak.value.0, st.peak.value.1, ci, cj) &&
     st.pixelMax == s.f.At(st.peak.value.0, st.peak.value.1) &&
     (forall i, j {:trigger Acceptable(s, i, j)} ::
        Acceptable(s, i, j) && Before(i, j, ci, cj) ==> s.f.At(i, j) <= st.pixelMax) &&
     (forall i, j {:trigger Acceptable(s, i, j)} ::
        Acceptable(s, i, j) && Before(i, j, st.peak.value.0, st.peak.value.1) ==> s.f.At(i, j) < st.pixelMax))
  }

  /** Output part of the scan invariant: either there is no peak and the seed centroid and
      x = y = -1 are untouched, or they are the peak's centroid and its rounded position. */
  ghost predicate CentroidInv(s: Search, st: Scan, xSeed: real, ySeed: real)
    requires s.Valid()
  {
    (st.peak.None? && st.xc == xSeed && st.yc == ySeed && st.x == -1 && st.y == -1) ||
    (st.peak.Some? &&
     s.InWindow(st.peak.value.0, st.peak.value.1) &&
     GrowX(s, st.peak.value.0, st.peak.value.1, 1) < s.xCap &&
     GrowY(s, st.peak.value.0, st.peak.value.1, 1) < s.yCap &&
     (st.xc, st.yc) == CandidateCentroid(s, st.peak.value.0, st.peak.value.1) &&
     st.x == Trunc(st.xc + 0.5) && st.y == Trunc(st.yc + 0.5))
  }

  /** Radius part of the scan invariant: either no candidate has been measured (so there is no
      peak and the radii are 0), or the radii are those of the last candidate measured, which is
      the peak itself or a brighter local maximum after it that was rejected. */
  ghost predicate RadiusInv(s: Search, st: Scan, ci: int, cj: int)
    requires s.Valid()
  {
    (st.last.None? && st.peak.None? && st.xRadius == 0 && st.yRadius == 0) ||
    (st.last.Some? &&
     s.InWindow(st.last.value.0, st.last.value.1) &&
     Before(st.last.value.0, st.last.value.1, ci, cj) &&
     LocalMax(s, st.last.value.0, st.last.value.1) &&
     s.f.At(st.last.value.0, st.last.value.1) > s.threshold &&
     st.xRadius == GrowX(s, st.last.value.0, st.last.value.1, 1) &&
     st.yRadius == GrowY(s, st.last.value.0, st.last.value.1, 1) &&
     (st.peak.Some? ==>
        (st.last == st.peak ||
         (Before(st.peak.value.0, st.peak.value.1, st.last.value.0, st.last.value.1) &&
          !Acceptable(s, st.last.value.0, st.last.value.1) &&
          s.f.At(st.last.value.0, st.last.value.1) > st.pixelMax))))
  }

  /** Recency part of the scan invariant: no local maximum scanned after the last measured
      candidate was brighter than `pixelMax`, so none of them had its radii measured. */
  ghost predicate QuietInv(s: Search, st: Scan, ci: int, cj: int)
    requires s.Valid()
  {
    st.last.None? ||
    forall i, j {:trigger LocalMax(s, i, j)} ::
      (s.InWindow(i, j) && Before(st.last.value.0, st.last.value.1, i, j) && Before(i, j, ci, cj) &&
       LocalMax(s, i, j)) ==> s.f.At(i, j) <= st.pixelMax
  }

  ghost predicate Inv(s: Search, st: Scan, xSeed: real, ySeed: real, ci: int, cj: int)
    requires s.Valid()
  {
    SelectionInv(s, st, ci, cj) && CentroidInv(s, st, xSeed, ySeed) && RadiusInv(s, st, ci, cj) &&
    QuietInv(s, st, ci, cj)
  }

  lemma StepKeepsSelection(s: Search, st: Scan, i: int, j: int, next: int)
    requires s.Valid() && s.InWindow(i, j) && SelectionInv(s, st, i, j) && next == i + 1
    ensures SelectionInv(s, Step(s, st, i, j), next, j)
  {
    var p := s.f.At(i, j);
    var st' := Step(s, st, i, j);
    if p > st.pixelMax && LocalMax(s, i, j) && GrowX(s, i, j, 1) < s.xCap && GrowY(s, i, j, 1) < s.yCap {
      assert Acceptable(s, i, j);
      assert st'.peak == Some((i, j)) && st'.pixelMax == p;
    } else {
      assert st'.peak == st.peak && st'.pixelMax == st.pixelMax;
      assert Acceptable(s, i, j) ==> p <= st.pixelMax;
    }
  }

  lemma StepKeepsCentroid(s: Search, st: Scan, xSeed: real, ySeed: real, i: int, j: int)
    requires s.Valid() && s.InWindow(i, j) && CentroidInv(s, st, xSeed, ySeed)
    ensures CentroidInv(s, Step(s, st, i, j), xSeed, ySeed)
  {
  }

  lemma StepKeepsRadius(s: Search, st: Scan, i: int, j: int, next: int)
    requires s.Valid() && s.InWindow(i, j) && next == i + 1
    requires SelectionInv(s, st, i, j) && RadiusInv(s, st, i, j)
    ensures RadiusInv(s, Step(s, st, i, j), next, j)
  {
    var p := s.f.At(i, j);
    var st' := Step(s, st, i, j);
    if p > st.pixelMax && LocalMax(s, i, j) {
      if GrowX(s, i, j, 1) < s.xCap && GrowY(s, i, j, 1) < s.yCap {
        assert st'.last == st'.peak == Some((i, j));
      } else {
        assert !Acceptable(s, i, j);
        assert st'.last == Some((i, j)) && st'.peak == st.peak && st'.pixelMax == st.pixelMax;
      }
    } else {
      assert st' == st;
    }
  }

  lemma StepKeepsQuiet(s: Search, st: Scan, i: int, j: int, next: int)
    requires s.Valid() && s.InWindow(i, j) && next == i + 1 && QuietInv(s, st, i, j)
    ensures QuietInv(s, Step(s, st, i, j), next, j)
  {
    var p := s.f.At(i, j);
    var st' := Step(s, st, i, j);
    if p > st.pixelMax && LocalMax(s, i, j) {
      assert st'.last == Some((i, j));
      assert forall a, b :: Before(i, j, a, b) ==> !Before(a, b, next, j);
    } else if st.last.Some? {
      assert st' == st;
      forall a, b | s.InWindow(a, b) && Before(st.last.value.0, st.last.value.1, a, b) && Before(a, b, next, j) &&
                    LocalMax(s, a, b)
        ensures s.f.At(a, b) <= st.pixelMax
      {
        if (a, b) != (i, j) {
          assert Before(a, b, i, j);
        }
      }
    }
  }

  lemma StepKeepsInv(s: Search, st: Scan, xSeed: real, ySeed: real, i: int, j: int, next: int)
    requires s.Valid() && s.InWindow(i, j) && next == i + 1
    requires Inv(s, st, xSeed, ySeed, i, j)
    ensures Inv(s, Step(s, st, i, j), xSeed, ySeed, next, j)
  {
    StepKeepsSelection(s, st, i, j, next);
    StepKeepsCentroid(s, st, xSeed, ySeed, i, j);
    StepKeepsRadius(s, st, i, j, next);
    StepKeepsQuiet(s, st, i, j, next);
  }

  /** Having scanned row j to its end is the same as standing at the start of row j + 1. */
  lemma RowWrap(s: Search, st: Scan, xSeed: real, ySeed: real, j: int)
    requires s.Valid() && Inv(s, st, xSeed, ySeed, s.XEnd(), j)
    ensures Inv(s, st, xSeed, ySeed, s.win.xMin, j + 1)
  {
    assert forall a, b {:trigger Acceptable(s, a, b)} :: Acceptable(s, a, b) ==> (Before(a, b, s.XEnd(), j) <==> Before(a, b, s.win.xMin, j + 1));
    assert forall a, b {:trigger LocalMax(s, a, b)} ::
      s.InWindow(a, b) && LocalMax(s, a, b) ==> (Before(a, b, s.XEnd(), j) <==> Before(a, b, s.win.xMin, j + 1));
    if st.last.Some? {
      assert s.InWindow(st.last.value.0, st.last.value.1);
    }
  }

  /** Before any cell is scanned the invariant holds of the initial state. */
  lemma InitialInv(s: Search, xSeed: real, ySeed: real)
    requires s.Valid()
    ensures Inv(s, InitialScan(s, xSeed, ySeed), xSeed, ySeed, s.win.xMin, s.win.yMin)
  {
    assert forall i, j {:trigger Acceptable(s, i, j)} :: Acceptable(s, i, j) ==> !Before(i, j, s.win.xMin, s.win.yMin);
  }

  /** Cell (pi, pj) is the cell the search settles on: acceptable, at least as bright as every
      acceptable cell, and strictly brighter than every acceptable cell before it in row-major
      order (ties go to the first). */
  ghost predicate IsBest(s: Search, pi: int, pj: int)
    requires s.Valid()
  {
    Acceptable(s, pi, pj) &&
    (forall i, j {:trigger Acceptable(s, i, j)} :: Acceptable(s, i, j) ==> s.f.At(i, j) <= s.f.At(pi, pj)) &&
    (forall i, j {:trigger Acceptable(s, i, j)} ::
       Acceptable(s, i, j) && Before(i, j, pi, pj) ==> s.f.At(i, j) < s.f.At(pi, pj))
  }

  /** Cell (li, lj) is the last candidate whose radii were measured when (pi, pj) is the best
      cell: the best cell itself, or a later, brighter local maximum above the threshold that
      was rejected because a radius reached its cap; and no local maximum after it is brighter
      than the best cell, so none after it was measured. */
  ghost predicate LastCandidate(s: Search, pi: int, pj: int, li: int, lj: int)
    requires s.Valid()
  {
    s.InWindow(li, lj) && s.InWindow(pi, pj) && LocalMax(s, li, lj) && s.f.At(li, lj) > s.threshold &&
    ((li, lj) == (pi, pj) ||
     (Before(pi, pj, li, lj) && !Acceptable(s, li, lj) && s.f.At(li, lj) > s.f.At(pi, pj))) &&
    forall i, j {:trigger LocalMax(s, i, j)} ::
      s.InWindow(i, j) && Before(li, lj, i, j) && LocalMax(s, i, j) ==> s.f.At(i, j) <= s.f.At(pi, pj)
  }

  /** For a given best cell there is one last candidate, so the reported radii are fixed. */
  lemma LastCandidateUnique(s: Search, pi: int, pj: int, li: int, lj: int, mi: int, mj: int)
    requires s.Valid() && LastCandidate(s, pi, pj, li, lj) && LastCandidate(s, pi, pj, mi, mj)
    ensures li == mi && lj == mj
  {
    assert !Before(li, lj, mi, mj);
    assert !Before(mi, mj, li, lj);
  }

  /** What `findBestCentroid` reports: it succeeds exactly when some cell is acceptable. On
      failure the centroid and the radius caps are left as they were; on success the centroid
      is the one computed around the best cell, and the radii are those of the last candidate
      measured. */
  ghost predicate Reports(s: Search, xSeed: real, ySeed: real, found: bool,
                          xc: real, yc: real, xr: int, yr: int)
    requires s.Valid()
  {
    (found <==> exists i, j {:trigger Acceptable(s, i, j)} :: Acceptable(s, i, j)) &&
    (!found ==> xc == xSeed && yc == ySeed && xr == s.xCap && yr == s.yCap) &&
    (found ==>
       exists pi, pj {:trigger IsBest(s, pi, pj)} ::
         IsBest(s, pi, pj) && (xc, yc) == CandidateCentroid(s, pi, pj) &&
         exists li, lj {:trigger LastCandidate(s, pi, pj, li, lj)} ::
           LastCandidate(s, pi, pj, li, lj) && xr == GrowX(s, li, lj, 1) && yr == GrowY(s, li, lj, 1))
  }

  /** Two best cells are the same cell: the selection is determined by the frame alone. */
  lemma BestIsUnique(s: Search, pi: int, pj: int, qi: int, qj: int)
    requires s.Valid() && IsBest(s, pi, pj) && IsBest(s, qi, qj)
    ensures pi == qi && pj == qj
  {
    assert Acceptable(s, pi, pj) && Acceptable(s, qi, qj);
    assert !Before(pi, pj, qi, qj) && !Before(qi, qj, pi, pj);
  }

  /** Whatever satisfies `Reports` for one search is the same outcome: the success flag, the
      centroid and the radii are determined by the frame, the window, the caps and the
      threshold. */
  lemma ReportsDetermined(s: Search, xSeed: real, ySeed: real,
                          found: bool, xc: real, yc: real, xr: int, yr: int,
                          found': bool, xc': real, yc': real, xr': int, yr': int)
    requires s.Valid()
    requires Reports(s, xSeed, ySeed, found, xc, yc, xr, yr)
    requires Reports(s, xSeed, ySeed, found', xc', yc', xr', yr')
    ensures found == found' && xc == xc' && yc == yc' && xr == xr' && yr == yr'
  {
    if found {
      var pi, pj :| IsBest(s, pi, pj) && (xc, yc) == CandidateCentroid(s, pi, pj) &&
                    exists li, lj {:trigger LastCandidate(s, pi, pj, li, lj)} ::
                      LastCandidate(s, pi, pj, li, lj) && xr == GrowX(s, li, lj, 1) && yr == GrowY(s, li, lj, 1);
      var qi, qj :| IsBest(s, qi, qj) && (xc', yc') == CandidateCentroid(s, qi, qj) &&
                    exists li, lj {:trigger LastCandidate(s, qi, qj, li, lj)} ::
                      LastCandidate(s, qi, qj, li, lj) && xr' == GrowX(s, li, lj, 1) && yr' == GrowY(s, li, lj, 1);
      BestIsUnique(s, pi, pj, qi, qj);
      var li, lj :| LastCandidate(s, pi, pj, li, lj) && xr == GrowX(s, li, lj, 1) && yr == GrowY(s, li, lj, 1);
      var mi, mj :| LastCandidate(s, pi, pj, mi, mj) && xr' == GrowX(s, mi, mj, 1) && yr' == GrowY(s, mi, mj, 1);
      LastCandidateUnique(s, pi, pj, li, lj, mi, mj);
    }
  }

  /** A candidate's centroid lies in its box, whose left and top edges are at least 1, so its
      rounded position is never negative. */
  lemma RoundedCandidateNonNegative(s: Search, i: int, j: int)
    requires s.Valid() && s.InWindow(i, j) && GrowX(s, i, j, 1) < s.xCap && GrowY(s, i, j, 1) < s.yCap
    ensures Trunc(CandidateCentroid(s, i, j).0 + 0.5) >= 0 && Trunc(CandidateCentroid(s, i, j).1 + 0.5) >= 0
  {
    CentroidInBox(s.f, i, j, GrowX(s, i, j, 1), GrowY(s, i, j, 1), s.threshold);
  }

  /** Once every row of the window has been scanned, the invariant gives what the search
      reports: success is recorded by a non-negative rounded position. */
  lemma ScanOutcome(s: Search, st: Scan, xSeed: real, ySeed: real)
    requires s.Valid() && Inv(s, st, xSeed, ySeed, s.win.xMin, s.YEnd())
    ensures var found := st.x >= 0 && st.y >= 0;
            Reports(s, xSeed, ySeed, found, st.xc, st.yc,
                    if found then st.xRadius else s.xCap, if found then st.yRadius else s.yCap)
  {
    assert forall i, j {:trigger Acceptable(s, i, j)} :: Acceptable(s, i, j) ==> Before(i, j, s.win.xMin, s.YEnd());
    assert forall i, j {:trigger LocalMax(s, i, j)} ::
      s.InWindow(i, j) && LocalMax(s, i, j) ==> Before(i, j, s.win.xMin, s.YEnd());
    if st.peak.Some? {
      var (pi, pj) := st.peak.value;
      RoundedCandidateNonNegative(s, pi, pj);
      assert IsBest(s, pi, pj);
      var (li, lj) := st.last.value;
      assert LastCandidate(s, pi, pj, li, lj);
    }
  }

  /** The loop variables of `findBestCentroid` hold the fields of the scan state. */
  predicate Matches(st: Scan, pixelMax: int, xc: real, yc: real, x: int, y: int, xRadius: int, yRadius: int)
  {
    st == Scan(pixelMax, xc, yc, x, y, xRadius, yRadius, st.peak, st.last)
  }

  /** The search window and parameters `findBestCentroid` works with for these arguments. */
  function SearchOf(width: int, height: int, pixels: seq<Sample>, xSeed: real, ySeed: real,
                    xRange: int, yRange: int, xCap: int, yCap: int, threshold: int): (s: Search)
    requires 0 <= width && 0 <= height && |pixels| == width * height && 1 <= xCap && 1 <= yCap
    ensures s.Valid()
  {
    Search(Frame(width, height, pixels), ClampWindow(width, height, xSeed, ySeed, xRange, yRange, xCap, yCap),
           xCap, yCap, threshold)
  }

  /** The body of the scanning loop for cell (i, j): a local maximum brighter than `pixelMax` has
      its radii grown (while either side is above the threshold and the cap is not passed) and,
      when both stay below their caps, becomes the new best with its centroid. */
  method Examine(width: int, height: int, pixels: array<Sample>, xCap: int, yCap: int, threshold: int,
                 ghost s: Search, ghost st: Scan, i: int, j: int,
                 pixelMax: int, xc: real, yc: real, x: int, y: int, xRadius: int, yRadius: int)
    returns (pixelMax': int, xc': real, yc': real, x': int, y': int, xRadius': int, yRadius': int)
    requires s.Valid() && s.f == Frame(width, height, pixels[..]) && pixels.Length == width * height
    requires s.xCap == xCap && s.yCap == yCap && s.threshold == threshold && s.InWindow(i, j)
    requires Matches(st, pixelMax, xc, yc, x, y, xRadius, yRadius)
    ensures Matches(Step(s, st, i, j), pixelMax', xc', yc', x', y', xRadius', yRadius')
  {
    pixelMax', xc', yc', x', y', xRadius', yRadius' := pixelMax, xc, yc, x, y, xRadius, yRadius;
    var pixel := Read(pixels, width, height, i, j);
    if pixel > pixelMax {
      if pixel >= Read(pixels, width, height, i + 1, j) && pixel >= Read(pixels, width, height, i - 1, j) &&
         pixel >= Read(pixels, width, height, i, j + 1) && pixel >= Read(pixels, width, height, i, j - 1)
      {
        assert LocalMax(s, i, j);
        yRadius' := 1;
        while yRadius' <= yCap &&
              (Read(pixels, width, height, i, j + yRadius') > threshold || Read(pixels, width, height, i, j - yRadius') > threshold)
          invariant 1 <= yRadius' <= yCap + 1
          invariant GrowY(s, i, j, yRadius') == GrowY(s, i, j, 1)
          decreases yCap + 1 - yRadius'
        {
          assert AboveY(s, i, j, yRadius');
          yRadius' := yRadius' + 1;
        }
        assert yRadius' <= yCap ==> !AboveY(s, i, j, yRadius');
        assert yRadius' == GrowY(s, i, j, 1);
        xRadius' := 1;
        while xRadius' <= xCap &&
              (Read(pixels, width, height, i + xRadius', j) > threshold || Read(pixels, width, height, i - xRadius', j) > threshold)
          invariant 1 <= xRadius' <= xCap + 1
          invariant GrowX(s, i, j, xRadius') == GrowX(s, i, j, 1)
          decreases xCap + 1 - xRadius'
        {
          assert AboveX(s, i, j, xRadius');
          xRadius' := xRadius' + 1;
        }
        assert xRadius' <= xCap ==> !AboveX(s, i, j, xRadius');
        assert xRadius' == GrowX(s, i, j, 1);
        if xRadius' < xCap && yRadius' < yCap {
          pixelMax' := pixel;
          xc', yc' := CalcCentroid(width, height, pixels, i, j, xRadius', yRadius', threshold);
          x' := Trunc(xc' + 0.5);
          y' := Trunc(yc' + 0.5);
        }
      }
    }
  }

  /** The inner loop of `findBestCentroid`: examine every window cell of row j from left to
      right. */
  method ScanRow(width: int, height: int, pixels: array<Sample>, xCap: int, yCap: int, threshold: int,
                 ghost s: Search, ghost st: Scan, ghost xSeed: real, ghost ySeed: real,
                 xMin: int, xMax: int, j: int, pixelMax: int, xc: real, yc: real, x: int, y: int, xRadius: int, yRadius: int)
    returns (pixelMax': int, xc': real, yc': real, x': int, y': int, xRadius': int, yRadius': int,
             ghost st': Scan)
    requires s.Valid() && s.f == Frame(width, height, pixels[..]) && pixels.Length == width * height
    requires s.xCap == xCap && s.yCap == yCap && s.threshold == threshold
    requires s.win.xMin == xMin && s.win.xMax == xMax && s.win.yMin <= j < s.win.yMax
    requires Inv(s, st, xSeed, ySeed, xMin, j) && Matches(st, pixelMax, xc, yc, x, y, xRadius, yRadius)
    ensures Inv(s, st', xSeed, ySeed, s.XEnd(), j) && Matches(st', pixelMax', xc', yc', x', y', xRadius', yRadius')
  {
    pixelMax', xc', yc', x', y', xRadius', yRadius', st' := pixelMax, xc, yc, x, y, xRadius, yRadius, st;
    var i := xMin;
    while i < xMax
      invariant xMin <= i <= s.XEnd()
      invariant Inv(s, st', xSeed, ySeed, i, j)
      invariant Matches(st', pixelMax', xc', yc', x', y', xRadius', yRadius')
    {
      pixelMax', xc', yc', x', y', xRadius', yRadius' :=
        Examine(width, height, pixels, xCap, yCap, threshold, s, st', i, j,
                pixelMax', xc', yc', x', y', xRadius', yRadius');
      StepKeepsInv(s, st', xSeed, ySeed, i, j, i + 1);
      st' := Step(s, st', i, j);
      i := i + 1;
    }
  }

  /** The outer loop of `findBestCentroid`: scan every row of the window from the top, starting
      from the threshold as `pixelMax`, the seed centroid, x = y = -1 and zero radii. */
  method ScanWindow(width: int, height: int, pixels: array<Sample>, xCap: int, yCap: int, threshold: int,
                    ghost s: Search, xSeed: real, ySeed: real, xMin: int, xMax: int, yMin: int, yMax: int)
    returns (pixelMax: int, xc: real, yc: real, x: int, y: int, xRadius: int, yRadius: int, ghost st: Scan)
    requires s.Valid() && s.f == Frame(width, height, pixels[..]) && pixels.Length == width * height
    requires s.xCap == xCap && s.yCap == yCap && s.threshold == threshold
    requires s.win == Window(xMin, xMax, yMin, yMax)
    ensures Inv(s, st, xSeed, ySeed, xMin, s.YEnd()) && Matches(st, pixelMax, xc, yc, x, y, xRadius, yRadius)
  {
    pixelMax, xc, yc, x, y, xRadius, yRadius := threshold, xSeed, ySeed, -1, -1, 0, 0;
    st := InitialScan(s, xSeed, ySeed);
    InitialInv(s, xSeed, ySeed);
    var j := yMin;
    while j < yMax
      invariant yMin <= j <= s.YEnd()
      invariant Inv(s, st, xSeed, ySeed, xMin, j)
      invariant Matches(st, pixelMax, xc, yc, x, y, xRadius, yRadius)
    {
      pixelMax, xc, yc, x, y, xRadius, yRadius, st :=
        ScanRow(width, height, pixels, xCap, yCap, threshold, s, st, xSeed, ySeed, xMin, xMax, j,
                pixelMax, xc, yc, x, y, xRadius, yRadius);
      RowWrap(s, st, xSeed, ySeed, j);
      j := j + 1;
    }
  }

  /** `findBestCentroid`: clamp the window, scan it row by row, and report the best cell's
      centroid, or leave the seed and the caps untouched when no cell is acceptable. The seed
      centroid and the caps are the in/out arguments of the source. */
  method FindBestCentroid(width: int, height: int, pixels: array<Sample>, xSeed: real, ySeed: real,
                          xRange: int, yRange: int, xCap: int, yCap: int, threshold: int)
    returns (found: bool, xCentroid: real, yCentroid: real, xMaxRadius: int, yMaxRadius: int)
    requires 0 <= width && 0 <= height && pixels.Length == width * height && 1 <= xCap && 1 <= yCap
    ensures Reports(SearchOf(width, height, pixels[..], xSeed, ySeed, xRange, yRange, xCap, yCap, threshold),
                    xSeed, ySeed, found, xCentroid, yCentroid, xMaxRadius, yMaxRadius)
  {
    var x := Trunc(xSeed);
    var y := Trunc(ySeed);
    var xMin, xMax, yMin, yMax := x - xRange, x + xRange, y - yRange, y + yRange;
    x, y := -1, -1;
    var xRadius, yRadius := 0, 0;
    if xMin < xCap { xMin := xCap; }
    if xMax > width - xCap { xMax := width - xCap; }
    if yMin < yCap { yMin := yCap; }
    if yMax > height - yCap { yMax := height - yCap; }
    ghost var s := SearchOf(width, height, pixels[..], xSeed, ySeed, xRange, yRange, xCap, yCap, threshold);
    assert s.win == Window(xMin, xMax, yMin, yMax);
    var pixelMax, xc, yc;
    ghost var st;
    pixelMax, xc, yc, x, y, xRadius, yRadius, st :=
      ScanWindow(width, height, pixels, xCap, yCap, threshold, s, xSeed, ySeed, xMin, xMax, yMin, yMax);
    ScanOutcome(s, st, xSeed, ySeed);
    found := x >= 0 && y >= 0;
    xCentroid, yCentroid := xc, yc;
    if found {
      xMaxRadius, yMaxRadius := xRadius, yRadius;
    } else {
      xMaxRadius, yMaxRadius := xCap, yCap;
    }
  }
}
