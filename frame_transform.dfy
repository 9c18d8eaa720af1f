/** The two copies the display makes of a frame: `DoAlign` stores the camera's frame upside
    down (raw row H-1-r becomes row r), and both renderers copy a W by H window into the
    H by W RGB image turned 90 degrees counter-clockwise, looking each sample up in the display
    ramp and tracking the smallest and largest sample shown. */
module FrameTransform {
  import opened Samples
  import opened DisplayRamp

  /** The index of the sample that lands at index k when a `w` by `h` frame is turned upside
      down: same column, row h-1-k/w. */
  function FlipSource(k: int, w: int, h: int): (src: int)
    requires 0 <= k < w * h && 0 <= h
    ensures 0 <= src < w * h
  {
    RowMajorSplit(k, w, h);
    IndexInRange(k % w, h - 1 - k / w, w, h);
    (h - 1 - k / w) * w + k % w
  }

  /** Cell (i, j) is filled from cell (i, h-1-j). */
  lemma FlipSourceAt(i: int, j: int, w: int, h: int)
    requires 0 <= i < w && 0 <= j < h
    ensures 0 <= j * w + i < w * h && FlipSource(j * w + i, w, h) == (h - 1 - j) * w + i
  {
    IndexInRange(i, j, w, h);
    RowMajorJoin(i, j, w);
  }

  /** The frame turned upside down: its row r is row H-1-r of `f`. */
  function Flipped(f: Frame): (g: Frame)
    requires f.WellFormed()
    ensures g.WellFormed() && g.width == f.width && g.height == f.height
  {
    Frame(f.width, f.height,
          seq(f.width * f.height,
              k requires 0 <= k < f.width * f.height => f.pixels[FlipSource(k, f.width, f.height)]))
  }

  /** Pixel (i, j) of the flipped frame is pixel (i, H-1-j) of the original. */
  lemma FlippedAt(f: Frame, i: int, j: int)
    requires f.WellFormed() && 0 <= i < f.width && 0 <= j < f.height
    ensures Flipped(f).At(i, j) == f.At(i, f.height - 1 - j)
  {
    FlipSourceAt(i, j, f.width, f.height);
  }

  /** Turning a frame upside down twice gives the frame back. */
  lemma FlipInvolution(f: Frame)
    requires f.WellFormed()
    ensures Flipped(Flipped(f)) == f
  {
    var g := Flipped(Flipped(f));
    forall k | 0 <= k < f.width * f.height
      ensures g.pixels[k] == f.pixels[k]
    {
      RowMajorSplit(k, f.width, f.height);
      var i, j := k % f.width, k / f.width;
      FlippedAt(Flipped(f), i, j);
      FlippedAt(f, i, f.height - 1 - j);
    }
  }

  /** Where the row copy for frame row r reads the sample it writes at index k: the same column
      of raw row h-1-r. */
  function RowCopySource(k: int, r: int, w: int, h: int): (src: int)
    requires 0 <= r < h && r * w <= k < (r + 1) * w
    ensures 0 <= src < w * h && src == (h - 1 - r) * w + (k - r * w)
  {
    IndexInRange(k - r * w, h - 1 - r, w, h);
    (h - 1 - r) * w + (k - r * w)
  }

  /** The copy at the top of `DoAlign`: row r of `frame` becomes raw row H-1-r, one row at a
      time. */
  method FlipInto(raw: seq<Sample>, frame: array<Sample>, width: int, height: int)
    requires 0 <= width && 0 <= height && |raw| == width * height && frame.Length == width * height
    modifies frame
    ensures Frame(width, height, frame[..]) == Flipped(Frame(width, height, raw))
  {
    ghost var g := Flipped(Frame(width, height, raw));
    for r := 0 to height
      invariant forall k :: 0 <= k < r * width ==> frame[k] == g.pixels[k]
    {
      MulLe(width, r + 1, height);
      forall k | r * width <= k < (r + 1) * width {
        frame[k] := raw[RowCopySource(k, r, width, height)];
      }
      forall k | r * width <= k < (r + 1) * width
        ensures frame[k] == g.pixels[k]
      {
        FlipSourceAt(k - r * width, r, width, height);
      }
    }
    assert frame[..] == g.pixels;
  }

  /** The window sample shown at RGB pixel q of the rotated image (pixel q is column q % H of
      image row q / H): sample column W-1-q/H of window row q % H. */
  function SourceIndex(q: int, width: int, height: int): int
    requires 0 < height
  {
    (q % height) * width + (width - 1 - q / height)
  }

  /** Every RGB pixel shows a window sample. */
  lemma SourceIndexInRange(q: int, width: int, height: int)
    requires 0 <= q < width * height && 0 <= width
    ensures 0 < height && 0 <= SourceIndex(q, width, height) < width * height
  {
    RowMajorSplit(q, height, width);
    assert width * height == height * width;
    IndexInRange(width - 1 - q / height, q % height, width, height);
  }

  /** RGB pixel (y, x) of the rotated image shows window row x, column W-1-y. */
  lemma RenderedPixel(y: int, x: int, width: int, height: int)
    requires 0 <= y < width && 0 <= x < height
    ensures SourceIndex(y * height + x, width, height) == x * width + (width - 1 - y)
  {
    RowMajorJoin(x, y, height);
  }

  /** Every window sample is shown at some RGB pixel. */
  lemma SourceIndexOnto(k: int, width: int, height: int) returns (q: int)
    requires 0 <= k < width * height && 0 <= height
    ensures 0 <= q < width * height && 0 < height && SourceIndex(q, width, height) == k
  {
    RowMajorSplit(k, width, height);
    var j, i := k / width, k % width;
    q := (width - 1 - i) * height + j;
    IndexInRange(j, width - 1 - i, height, width);
    assert width * height == height * width;
    RenderedPixel(width - 1 - i, j, width, height);
  }

  /** The sample of a W by H window shown at RGB pixel q of the rotated image. */
  function Shown(w: seq<Sample>, q: int, width: int, height: int): Sample
    requires 0 <= width && |w| == width * height && 0 <= q < width * height
  {
    SourceIndexInRange(q, width, height);
    w[SourceIndex(q, width, height)]
  }

  /** A channel of the image after one render: the larger of the old value and the ramp value
      when accumulating (`DoAlign`), the ramp value alone otherwise (`DoTDI`). */
  function Shade(before: Byte, v: Byte, accumulate: bool): (b: Byte)
    ensures accumulate ==> b >= before && b >= v && (b == before || b == v)
    ensures !accumulate ==> b == v
  {
    if accumulate then (if before >= v then before else v) else v
  }

  /** The RGB image after rendering window `w` over `before`: byte k is channel k % 3 of pixel
      k / 3, red from the red table and green and blue from the blue/green table, each looked
      up at the bucket of the sample shown there. */
  function RenderedImage(before: seq<Byte>, w: seq<Sample>, width: int, height: int,
                         red: seq<Byte>, blugrn: seq<Byte>, accumulate: bool): (img: seq<Byte>)
    requires 0 <= width && |w| == width * height && |before| == 3 * |w|
    requires |red| == LUT_SIZE && |blugrn| == LUT_SIZE
    ensures |img| == |before|
  {
    seq(|before|, k requires 0 <= k < |before| =>
      var v := Shown(w, k / 3, width, height);
      Shade(before[k], (if k % 3 == 0 then red else blugrn)[LutIndex(v)], accumulate))
  }

  /** Pixel (y, x) of the rendered image shows column W-1-y of window row x: its red byte comes
      from the red table, its green and blue bytes from the blue/green table. */
  lemma RenderedImagePixel(before: seq<Byte>, w: seq<Sample>, width: int, height: int,
                           red: seq<Byte>, blugrn: seq<Byte>, accumulate: bool, y: int, x: int)
    requires 0 <= width && |w| == width * height && |before| == 3 * |w|
    requires |red| == LUT_SIZE && |blugrn| == LUT_SIZE
    requires 0 <= y < width && 0 <= x < height
    ensures var img := RenderedImage(before, w, width, height, red, blugrn, accumulate);
            var q := y * height + x;
            var v := Frame(width, height, w).At(width - 1 - y, x);
            0 <= q < width * height &&
            img[3 * q] == Shade(before[3 * q], red[LutIndex(v)], accumulate) &&
            img[3 * q + 1] == Shade(before[3 * q + 1], blugrn[LutIndex(v)], accumulate) &&
            img[3 * q + 2] == Shade(before[3 * q + 2], blugrn[LutIndex(v)], accumulate)
  {
    IndexInRange(x, y, height, width);
    assert width * height == height * width;
    RenderedPixel(y, x, width, height);
  }

  /** Accumulating never darkens a byte of the image; overwriting forgets the old image. */
  lemma RenderAccumulates(before: seq<Byte>, other: seq<Byte>, w: seq<Sample>, width: int, height: int,
                          red: seq<Byte>, blugrn: seq<Byte>)
    requires 0 <= width && |w| == width * height && |before| == 3 * |w| && |other| == |before|
    requires |red| == LUT_SIZE && |blugrn| == LUT_SIZE
    ensures forall k :: 0 <= k < |before| ==>
              RenderedImage(before, w, width, height, red, blugrn, true)[k] >= before[k]
    ensures RenderedImage(before, w, width, height, red, blugrn, false) ==
            RenderedImage(other, w, width, height, red, blugrn, false)
  {
  }

  /** The first p bytes triples of the image are painted and the rest are untouched. */
  ghost predicate Painted(rgb: seq<Byte>, before: seq<Byte>, img: seq<Byte>, p: int)
    requires |rgb| == |before| == |img|
  {
    0 <= 3 * p <= |rgb| &&
    (forall k :: 0 <= k < 3 * p ==> rgb[k] == img[k]) &&
    (forall k :: 3 * p <= k < |rgb| ==> rgb[k] == before[k])
  }

  /** `lo` and `hi` are the smallest and largest of the first p samples shown (`MAX_PIX` and
      `MIN_PIX` before any). */
  ghost predicate Extremes(w: seq<Sample>, width: int, height: int, p: int, lo: int, hi: int)
    requires 0 <= width && |w| == width * height
  {
    0 <= p <= |w| &&
    (forall q :: 0 <= q < p ==> lo <= Shown(w, q, width, height) <= hi) &&
    (p == 0 ==> lo == MAX_PIX && hi == MIN_PIX) &&
    (p > 0 ==> (exists q :: 0 <= q < p && Shown(w, q, width, height) == lo) &&
               (exists q :: 0 <= q < p && Shown(w, q, width, height) == hi))
  }

  /** Taking one more sample into the running minimum and maximum. */
  lemma ExtremesStep(w: seq<Sample>, width: int, height: int, p: int, lo: int, hi: int, lo': int, hi': int)
    requires 0 <= width && |w| == width * height && 0 <= p < |w|
    requires Extremes(w, width, height, p, lo, hi)
    requires var v := Shown(w, p, width, height);
             hi' == (if v > hi then v else hi) && lo' == (if v < lo then v else lo)
    ensures Extremes(w, width, height, p + 1, lo', hi')
  {
    var v := Shown(w, p, width, height);
    if p > 0 {
      var a :| 0 <= a < p && Shown(w, a, width, height) == lo;
      var b :| 0 <= b < p && Shown(w, b, width, height) == hi;
      assert lo' == Shown(w, if v < lo then p else a, width, height);
      assert hi' == Shown(w, if v > hi then p else b, width, height);
    } else {
      assert lo' == v && hi' == v;
    }
  }

  /** The three bytes of pixel p of the rendered image. */
  lemma ImageTriple(before: seq<Byte>, w: seq<Sample>, width: int, height: int,
                    red: seq<Byte>, blugrn: seq<Byte>, accumulate: bool, p: int)
    requires 0 <= width && |w| == width * height && |before| == 3 * |w|
    requires |red| == LUT_SIZE && |blugrn| == LUT_SIZE && 0 <= p < |w|
    ensures var img := RenderedImage(before, w, width, height, red, blugrn, accumulate);
            var i := LutIndex(Shown(w, p, width, height));
            img[3 * p] == Shade(before[3 * p], red[i], accumulate) &&
            img[3 * p + 1] == Shade(before[3 * p + 1], blugrn[i], accumulate) &&
            img[3 * p + 2] == Shade(before[3 * p + 2], blugrn[i], accumulate)
  {
    assert (3 * p) / 3 == p && (3 * p) % 3 == 0;
    assert (3 * p + 1) / 3 == p && (3 * p + 1) % 3 == 1;
    assert (3 * p + 2) / 3 == p && (3 * p + 2) % 3 == 2;
  }

  /** Paints pixel p, whose sample is v, over the partly painted image. */
  method PaintPixel(rgb: array<Byte>, red: array<Byte>, blugrn: array<Byte>, accumulate: bool,
                    p: int, v: Sample, ghost before: seq<Byte>, ghost img: seq<Byte>,
                    ghost w: seq<Sample>, ghost width: int, ghost height: int)
    requires 0 <= width && |w| == width * height && 0 <= p < |w| && v == Shown(w, p, width, height)
    requires rgb.Length == 3 * |w| && |before| == rgb.Length
    requires red.Length == LUT_SIZE && blugrn.Length == LUT_SIZE && rgb != red && rgb != blugrn
    requires img == RenderedImage(before, w, width, height, red[..], blugrn[..], accumulate)
    requires Painted(rgb[..], before, img, p)
    modifies rgb
    ensures Painted(rgb[..], before, img, p + 1)
  {
    ImageTriple(before, w, width, height, red[..], blugrn[..], accumulate, p);
    rgb[3 * p] := Shade(rgb[3 * p], red[LutIndex(v)], accumulate);
    rgb[3 * p + 1] := Shade(rgb[3 * p + 1], blugrn[LutIndex(v)], accumulate);
    rgb[3 * p + 2] := Shade(rgb[3 * p + 2], blugrn[LutIndex(v)], accumulate);
  }

  /** Reads the sample shown at pixel p = y*H + x of the image: window sample m = x*W + W-1-y. */
  method ReadShown(src: array<Sample>, base: int, width: int, height: int, ghost w: seq<Sample>,
                   y: int, x: int, p: int, m: int) returns (v: Sample)
    requires 0 <= width && 0 < height && 0 <= base && base + width * height <= src.Length
    requires w == src[base..base + width * height]
    requires 0 <= y < width && 0 <= x < height && p == y * height + x && m == x * width + (width - 1 - y)
    ensures 0 <= p < |w| && v == Shown(w, p, width, height)
    ensures m + width == (x + 1) * width + (width - 1 - y)
  {
    RenderedPixel(y, x, width, height);
    IndexInRange(width - 1 - y, x, width, height);
    IndexInRange(x, y, height, width);
    assert height * width == width * height;
    v := src[base + m];
  }

  /** The inner loop of the renderers: image row y, that is window column W-1-y read from the
      top row down, painted at pixels y*H .. y*H+H-1. */
  method RenderImageRow(src: array<Sample>, base: int, width: int, height: int, rgb: array<Byte>,
                        red: array<Byte>, blugrn: array<Byte>, accumulate: bool,
                        ghost before: seq<Byte>, ghost img: seq<Byte>, ghost w: seq<Sample>,
                        y: int, p0: int, lo0: int, hi0: int)
    returns (p: int, lo: int, hi: int)
    requires 0 <= width && 0 < height && 0 <= base && base + width * height <= src.Length
    requires rgb.Length == 3 * (width * height) && red.Length == LUT_SIZE && blugrn.Length == LUT_SIZE
    requires rgb != red && rgb != blugrn
    requires w == src[base..base + width * height] && |before| == rgb.Length
    requires img == RenderedImage(before, w, width, height, red[..], blugrn[..], accumulate)
    requires 0 <= y < width && p0 == y * height
    requires Painted(rgb[..], before, img, p0) && Extremes(w, width, height, p0, lo0, hi0)
    modifies rgb
    ensures p == p0 + height && Painted(rgb[..], before, img, p) && Extremes(w, width, height, p, lo, hi)
  {
    p, lo, hi := p0, lo0, hi0;
    var m := width - y - 1;
    for x := 0 to height
      invariant p == p0 + x && m == x * width + (width - 1 - y)
      invariant Painted(rgb[..], before, img, p) && Extremes(w, width, height, p, lo, hi)
    {
      var v := ReadShown(src, base, width, height, w, y, x, p, m);
      ExtremesStep(w, width, height, p, lo, hi, if v < lo then v else lo, if v > hi then v else hi);
      if v > hi { hi := v; }
      if v < lo { lo := v; }
      PaintPixel(rgb, red, blugrn, accumulate, p, v, before, img, w, width, height);
      p := p + 1;
      m := m + width;
    }
  }

  /** The rendering loop shared by `DoAlign` and `DoTDI`: the W by H window starting at sample
      `base` of `src` is copied into `rgb` rotated 90 degrees counter-clockwise, one image row
      (one window column, from the right) at a time, and the smallest and largest sample of the
      window are tracked from `MAX_PIX` and `MIN_PIX`. */
  method Render(src: array<Sample>, base: int, n: int, width: int, height: int, rgb: array<Byte>,
                red: array<Byte>, blugrn: array<Byte>, accumulate: bool, ghost w: seq<Sample>,
                ghost before: seq<Byte>, ghost redT: seq<Byte>, ghost blugrnT: seq<Byte>)
    returns (lo: int, hi: int)
    requires 0 < width && 0 < height && n == width * height && 0 <= base && base + n <= src.Length
    requires rgb.Length == 3 * n && red.Length == LUT_SIZE && blugrn.Length == LUT_SIZE
    requires rgb != red && rgb != blugrn && src as object != rgb
    requires src[base..base + n] == w && rgb[..] == before && red[..] == redT && blugrn[..] == blugrnT
    modifies rgb
    ensures rgb[..] == RenderedImage(before, w, width, height, redT, blugrnT, accumulate)
    ensures lo == SeqMin(w) && hi == SeqMax(w)
  {
    MulLe(width, 1, height);
    ghost var img := RenderedImage(before, w, width, height, redT, blugrnT, accumulate);
    lo, hi := MAX_PIX, MIN_PIX;
    var p := 0;
    for y := 0 to width
      invariant p == y * height
      invariant Painted(rgb[..], before, img, p) && Extremes(w, width, height, p, lo, hi)
    {
      p, lo, hi := RenderImageRow(src, base, width, height, rgb, red, blugrn, accumulate,
                                  before, img, w, y, p, lo, hi);
      assert p == (y + 1) * height;
    }
    assert rgb[..] == img;
    forall k | 0 <= k < |w|
      ensures lo <= w[k] <= hi
    {
      var q := SourceIndexOnto(k, width, height);
      assert Shown(w, q, width, height) == w[k];
    }
    if |w| > 0 {
      var q1 :| 0 <= q1 < p && Shown(w, q1, width, height) == lo;
      var q2 :| 0 <= q2 < p && Shown(w, q2, width, height) == hi;
      SourceIndexInRange(q1, width, height);
      SourceIndexInRange(q2, width, height);
    }
    TrackedBoundsAreExtremes(w, lo, hi);
  }

  /** The smallest sample of a non-empty window. */
  function SeqMin(w: seq<Sample>): (m: Sample)
    requires |w| > 0
    ensures m in w && forall k :: 0 <= k < |w| ==> m <= w[k]
  {
    if |w| == 1 then w[0]
    else
      var r := SeqMin(w[1..]);
      assert forall k :: 1 <= k < |w| ==> w[k] == w[1..][k - 1];
      if w[0] <= r then w[0] else r
  }

  /** The largest sample of a non-empty window. */
  function SeqMax(w: seq<Sample>): (m: Sample)
    requires |w| > 0
    ensures m in w && forall k :: 0 <= k < |w| ==> w[k] <= m
  {
    if |w| == 1 then w[0]
    else
      var r := SeqMax(w[1..]);
      assert forall k :: 1 <= k < |w| ==> w[k] == w[1..][k - 1];
      if w[0] >= r then w[0] else r
  }

  /** The bounds `Render` tracks are exactly the window's minimum and maximum. */
  lemma TrackedBoundsAreExtremes(w: seq<Sample>, lo: int, hi: int)
    requires |w| > 0 && lo in w && hi in w
    requires forall k :: 0 <= k < |w| ==> lo <= w[k] <= hi
    ensures lo == SeqMin(w) && hi == SeqMax(w)
  {
    var a :| 0 <= a < |w| && w[a] == SeqMin(w);
    var b :| 0 <= b < |w| && w[b] == SeqMax(w);
    var c :| 0 <= c < |w| && w[c] == lo;
    var d :| 0 <= d < |w| && w[d] == hi;
    assert lo <= w[a] && SeqMin(w) <= w[c];
    assert w[b] <= hi && w[d] <= SeqMax(w);
  }

  /** The rendering step of both ticks: the W by H window starting at sample `base` of `src`
      is drawn rotated into the image over `before` (accumulating or overwriting) with the
      tables as they were, and the ramp is then recomputed for the window's extremes, guarded
      against a uniform window. */
  method Present(src: array<Sample>, base: int, width: int, height: int, rgb: array<Byte>,
                 red: array<Byte>, blugrn: array<Byte>, accumulate: bool, filter: bool, ghost w: seq<Sample>,
                 ghost before: seq<Byte>, ghost redBefore: seq<Byte>, ghost blugrnBefore: seq<Byte>)
    requires 0 < width && 0 < height && 0 <= base && base + Area(height, width) <= src.Length
    requires rgb.Length == 3 * Area(height, width) && red.Length == LUT_SIZE && blugrn.Length == LUT_SIZE
    requires rgb != red && rgb != blugrn && red != blugrn
    requires src as object != rgb && src as object != red && src as object != blugrn
    requires src[base..base + Area(height, width)] == w
    requires rgb[..] == before && red[..] == redBefore && blugrn[..] == blugrnBefore
    modifies rgb, red, blugrn
    ensures |w| > 0 && |before| == 3 * |w| &&
            (AreaIsProduct(height, width);
             rgb[..] == RenderedImage(before, w, width, height, redBefore, blugrnBefore, accumulate))
    ensures var levels := RampLevels(SeqMin(w), SeqMax(w));
            red[..] == RedTable(levels.0, levels.1) && blugrn[..] == BlugrnTable(levels.0, levels.1, filter)
  {
    AreaIsProduct(height, width);
    var lo, hi := Render(src, base, Area(height, width), width, height, rgb, red, blugrn, accumulate,
                         w, before, redBefore, blugrnBefore);
    var levels := RampLevels(lo, hi);
    CalcRamp(red, blugrn, levels.0, levels.1, filter);
  }
}
