/** The scan session of `ScanFrame`: the alignment phase that tracks a star drifting down the
    sensor to measure the sidereal scan rate, and the time-delay-integration scan that reads one
    sensor row per exposure into a growing scan buffer. Each menu command and each timer tick is
    one method call; the camera's reads are parameters. */
module ScanSession {
  import opened Samples
  import opened DisplayRamp
  import opened StarFinder
  import opened FrameTransform

  /** Exposure of one alignment frame in milliseconds (`ALIGN_EXP`). */
  const ALIGN_EXP := 2000
  /** The radius cap `DoAlign` passes for both axes. */
  const TRACK_CAP := 15
  /** The x half-range of the search window once a star is being tracked. */
  const TRACK_RANGE := 5
  /** Frame size used when no camera is attached. */
  const DEFAULT_SIZE := 512

  datatype TdiState = Idle | Aligning | Scanning | Stopping

  /** The scalar part of the session, so that a handler can say in one line which fields it
      changes and that all the others keep their values. */
  datatype View = View(state: TdiState, timerRunning: bool, timerPeriod: int, tdiFrame: array?<Sample>,
                       filter: bool, tdiLength: int, tdiRow: int, numFrames: int, tdiExposure: int,
                       tdiMinutes: int, tdiScanRate: real, trackInitialX: real, trackInitialY: real,
                       trackX: real, trackY: real)

  /** `tdiLength`: the rows a scan of `minutes` takes at one row per `exposure` milliseconds,
      but never fewer than the sensor height. */
  function ScanLength(minutes: int, exposure: int, height: int): int
    requires 0 < exposure
  {
    Max(minutes * 60000 / exposure, height)
  }

  /** The scan covers the requested duration to within one exposure, unless the sensor height
      is the larger bound; it is never shorter than the sensor. */
  lemma ScanLengthCoversDuration(minutes: int, exposure: int, height: int)
    requires 0 < exposure
    ensures var n := ScanLength(minutes, exposure, height);
            height <= n &&
            (n != height ==> n * exposure <= minutes * 60000 < (n + 1) * exposure) &&
            (n == height ==> minutes * 60000 < (height + 1) * exposure)
  {
    var d := minutes * 60000;
    var q := d / exposure;
    assert d == q * exposure + d % exposure;
    assert (q + 1) * exposure == q * exposure + exposure;
    if q <= height {
      MulLe(exposure, q + 1, height + 1);
      assert (height + 1) * exposure == exposure * (height + 1);
      assert (q + 1) * exposure == exposure * (q + 1);
    }
  }

  /** First sample of the window a TDI tick renders: the start of the buffer until a full
      sensor height has been read, then `tdiRow - H` rows of W samples in. */
  function TdiWindowBase(row: int, width: int, height: int): int
  {
    if row < height then 0 else Area(row - height, width)
  }

  /** The rendered window lies inside the scan buffer. Until a sensor height of rows has been
      read it includes the row just read; from then on it ends exactly where that row begins,
      so the newest row is not on display. */
  lemma TdiWindowPlacement(row: int, length: int, width: int, height: int)
    requires 0 <= width && 1 <= height <= length && 0 <= row < length
    ensures var b := TdiWindowBase(row, width, height);
            0 <= b && b + Area(height, width) <= Area(length, width) &&
            (row < height ==> Area(row, width) + width <= b + Area(height, width)) &&
            (height <= row ==> b + Area(height, width) == Area(row, width))
  {
    AreaIsProduct(height, width);
    AreaIsProduct(length, width);
    AreaIsProduct(row, width);
    TdiWindowArithmetic(row, length, width, height);
  }

  /** `TdiWindowPlacement` on products. */
  lemma TdiWindowArithmetic(row: int, length: int, width: int, height: int)
    requires 0 <= width && 1 <= height <= length && 0 <= row < length
    ensures var b := if row < height then 0 else (row - height) * width;
            0 <= b && b + height * width <= length * width &&
            (row < height ==> row * width + width <= b + height * width) &&
            (height <= row ==> b + height * width == row * width)
  {
    MulLe(width, height, length);
    if row < height {
      MulLe(width, row + 1, height);
    } else {
      MulLe(width, 0, row - height);
      MulLe(width, row, length);
    }
  }

  /** `after` is `before` with row `r` of a `width`-sample row-major buffer replaced by `row`. */
  ghost predicate RowWritten(before: seq<Sample>, after: seq<Sample>, r: int, width: int, row: seq<Sample>)
  {
    var o := Area(r, width);
    0 <= o && o + width <= |before| && |row| == width &&
    after == before[..o] + row + before[o + width..]
  }

  /** Writing a row changes that row's samples and no other. */
  lemma RowWrittenExactly(before: seq<Sample>, after: seq<Sample>, r: int, width: int, row: seq<Sample>)
    requires RowWritten(before, after, r, width, row)
    ensures |after| == |before|
    ensures var o := Area(r, width);
            forall k :: 0 <= k < |after| && o <= k < o + width ==> after[k] == row[k - o]
    ensures var o := Area(r, width);
            forall k :: 0 <= k < |after| && !(o <= k < o + width) ==> after[k] == before[k]
  {
    var o := Area(r, width);
    forall k | 0 <= k < |after|
      ensures o <= k < o + width ==> after[k] == row[k - o]
      ensures !(o <= k < o + width) ==> after[k] == before[k]
    {
      if k < o {
        assert after[k] == (before[..o] + row)[k];
      } else if k < o + width {
        assert after[k] == (before[..o] + row)[k];
      }
    }
  }

  /** The exposure `DoAlign` measures after `n` counted frames and a downward drift of
      `drift` rows: `ALIGN_EXP * n / drift` milliseconds per row, truncated to an `int`. */
  function AlignExposure(n: int, drift: real): int
    requires 0 < n && 0.0 < drift
  {
    Trunc((ALIGN_EXP * n) as real / drift)
  }

  /** The scan rate `DoAlign` measures from the same drift: `drift / (ALIGN_EXP / 1000 * n)`
      rows per second, where `ALIGN_EXP / 1000` is the integer 2. */
  function AlignRate(n: int, drift: real): real
    requires 0 < n && 0.0 < drift
  {
    drift / ((ALIGN_EXP / 1000) * n) as real
  }

  /** The exposure and the rate agree: the exposure is the largest whole number of
      milliseconds within which the star, moving at the measured rate, crosses at most one
      row, i.e. `e * rate <= 1000 < (e + 1) * rate`. */
  lemma ExposureMatchesRate(n: int, drift: real)
    requires 0 < n && 0.0 < drift
    ensures var e := AlignExposure(n, drift);
            var rate := AlignRate(n, drift);
            0 <= e && e as real * rate <= 1000.0 < (e as real + 1.0) * rate
  {
    var q := (ALIGN_EXP * n) as real / drift;
    var e := AlignExposure(n, drift);
    var rate := AlignRate(n, drift);
    ReciprocalRates(n, drift, q, rate);
    Bracket(e as real, q, rate);
  }

  /** Truncating a quantity whose product with `rate` is 1000 brackets 1000. */
  lemma Bracket(e: real, q: real, rate: real)
    requires e <= q < e + 1.0 && 0.0 < rate && q * rate == 1000.0
    ensures e * rate <= 1000.0 < (e + 1.0) * rate
  {
    ScaleLe(e, q, rate);
    ScaleLt(q, e + 1.0, rate);
  }

  /** Milliseconds per row times rows per second is a thousand. */
  lemma ReciprocalRates(n: int, drift: real, q: real, rate: real)
    requires 0 < n && 0.0 < drift
    requires q == (ALIGN_EXP * n) as real / drift && rate == drift / (2 * n) as real
    ensures 0.0 < rate && q * rate == 1000.0
  {
    var m := (2 * n) as real;
    assert q * drift == 1000.0 * m;
    assert rate * m == drift;
    assert (q * rate) * m == q * drift;
    if q * rate < 1000.0 {
      ScaleLt(q * rate, 1000.0, m);
    } else if q * rate > 1000.0 {
      ScaleLt(1000.0, q * rate, m);
    }
  }

  lemma ScaleLe(a: real, b: real, c: real)
    requires a <= b && 0.0 < c
    ensures a * c <= b * c
  {
  }

  lemma ScaleLt(a: real, b: real, c: real)
    requires a < b && 0.0 < c
    ensures a * c < b * c
  {
  }

  /** The cleared scan buffer `OnScan` allocates. */
  method Zeroed(n: nat) returns (buffer: array<Sample>)
    ensures fresh(buffer) && buffer.Length == n && forall k :: 0 <= k < n ==> buffer[k] == 0
  {
    buffer := new Sample[n](_ => 0);
  }

  class Scanner {
    var state: TdiState
    var timerRunning: bool
    var timerPeriod: int
    /** Whether a camera opened at start-up (`ccdModel` non-zero). */
    const hasCamera: bool
    const width: int
    const height: int
    /** The current alignment frame, upright. */
    const ccdFrame: array<Sample>
    /** The pixels of the displayed image: H columns by W rows, three bytes each. */
    const rgb: array<Byte>
    /** The display lookup tables `redLUT` and `blugrnLUT`. */
    const red: array<Byte>
    const blugrn: array<Byte>
    /** The scan buffer, `tdiLength` rows of W samples; null when no scan is held. */
    var tdiFrame: array?<Sample>
    var filter: bool
    var tdiLength: int
    var tdiRow: int
    var numFrames: int
    var tdiExposure: int
    var tdiMinutes: int
    var tdiScanRate: real
    var trackInitialX: real
    var trackInitialY: real
    var trackX: real
    var trackY: real

    function Snapshot(): View
      reads this
    {
      View(state, timerRunning, timerPeriod, tdiFrame, filter, tdiLength, tdiRow, numFrames,
           tdiExposure, tdiMinutes, tdiScanRate, trackInitialX, trackInitialY, trackX, trackY)
    }

    /** The buffers have their sizes and are distinct. These are fixed at construction. */
    ghost predicate Shape()
    {
      1 <= width && 1 <= height &&
      ccdFrame.Length == Area(height, width) && rgb.Length == 3 * Area(height, width) &&
      red.Length == LUT_SIZE && blugrn.Length == LUT_SIZE &&
      rgb != red && rgb != blugrn && red != blugrn &&
      ccdFrame as object != rgb && ccdFrame as object != red && ccdFrame as object != blugrn
    }

    /** What every handler keeps: the timer runs exactly outside IDLE (and only with a camera,
        at the alignment period while aligning and at the row exposure while scanning), STOPPING
        is never entered, and a scan in progress has a row inside a length of at least one
        sensor height. */
    ghost predicate Valid()
      reads this
    {
      Shape() && tdiFrame != ccdFrame &&
      tdiFrame as object? != rgb && tdiFrame as object? != red && tdiFrame as object? != blugrn &&
      (timerRunning <==> state != Idle) && state != Stopping &&
      (state != Idle ==> hasCamera) &&
      (state == Aligning ==> timerPeriod == ALIGN_EXP) &&
      (state == Scanning ==>
         timerPeriod == tdiExposure && 0 < tdiExposure && height <= tdiLength && 0 <= tdiRow < tdiLength) &&
      (state == Scanning && tdiFrame != null ==> tdiFrame.Length == Area(tdiLength, width)) &&
      0 <= tdiExposure && 0 <= tdiMinutes && 0 <= numFrames && 0.0 <= tdiScanRate
    }

    /** The alignment frame holds the camera's frame `raw` upside down. */
    ghost predicate HoldsFlipped(raw: seq<Sample>)
      reads this, ccdFrame
    {
      0 <= width && 0 <= height && |raw| == Area(height, width) && ccdFrame.Length == |raw| &&
      (AreaIsProduct(height, width);
       Frame(width, height, ccdFrame[..]) == Flipped(Frame(width, height, raw)))
    }

    /** A scan in progress has its buffer. */
    ghost predicate ScanReady()
      reads this
    {
      state == Scanning ==> tdiFrame != null
    }

    /** The image shows window `w` rendered over `before` with the tables `redBefore` and
        `blugrnBefore`, and the tables then hold the ramp for the window's extremes under the
        red filter setting `filter`. */
    ghost predicate Displayed(w: seq<Sample>, before: seq<Byte>, redBefore: seq<Byte>,
                              blugrnBefore: seq<Byte>, accumulate: bool, filter: bool)
      reads rgb, red, blugrn
    {
      0 <= width && 0 <= height && |w| == Area(height, width) && |w| > 0 && |before| == 3 * |w| &&
      |redBefore| == LUT_SIZE && |blugrnBefore| == LUT_SIZE &&
      (AreaIsProduct(height, width);
       rgb[..] == RenderedImage(before, w, width, height, redBefore, blugrnBefore, accumulate)) &&
      var levels := RampLevels(SeqMin(w), SeqMax(w));
      red[..] == RedTable(levels.0, levels.1) && blugrn[..] == BlugrnTable(levels.0, levels.1, filter)
    }

    /** `ScanFrame()`: the session starts IDLE with no scan, no duration, no measured exposure
        or rate, the filter off and the full-range ramp. Without a camera the frame is 512 by
        512. Fields the source leaves uninitialised start at zero. */
    constructor (camera: bool, camWidth: int, camHeight: int)
      requires camera ==> 1 <= camWidth && 1 <= camHeight
      ensures Valid() && ScanReady()
      ensures hasCamera == camera
      ensures width == (if camera then camWidth else DEFAULT_SIZE)
      ensures height == (if camera then camHeight else DEFAULT_SIZE)
      ensures state == Idle && !timerRunning && tdiFrame == null && !filter
      ensures tdiMinutes == 0 && tdiExposure == 0 && tdiScanRate == 0.0
      ensures red[..] == RedTable(MIN_PIX, MAX_PIX) && blugrn[..] == BlugrnTable(MIN_PIX, MAX_PIX, false)
    {
      hasCamera := camera;
      var w, h := if camera then camWidth else DEFAULT_SIZE, if camera then camHeight else DEFAULT_SIZE;
      width, height := w, h;
      AreaIsProduct(h, w);
      ccdFrame := new Sample[Area(h, w)];
      rgb := new Byte[3 * Area(h, w)];
      red := new Byte[LUT_SIZE];
      blugrn := new Byte[LUT_SIZE];
      state, timerRunning, timerPeriod := Idle, false, 0;
      tdiFrame := null;
      filter := false;
      tdiLength, tdiRow, numFrames := 0, 0, 0;
      tdiExposure, tdiMinutes, tdiScanRate := 0, 0, 0.0;
      trackInitialX, trackInitialY, trackX, trackY := 0.0, 0.0, 0.0, 0.0;
      new;
      CalcRamp(red, blugrn, MIN_PIX, MAX_PIX, false);
    }

    /** `OnFilter`: the red-filter menu item. The tables are recomputed at the next render. */
    method OnFilter(checked: bool)
      requires Valid()
      modifies this
      ensures Valid()
      ensures Snapshot() == old(Snapshot()).(filter := checked)
    {
      filter := checked;
    }

    /** `OnDuration`: the dialog offers whole hours from 1 to 12; on OK the duration becomes
        that many hours in minutes, on cancel (`None`) nothing changes. */
    method OnDuration(reply: Option<int>)
      requires Valid()
      requires reply.Some? ==> 1 <= reply.value <= 12
      modifies this
      ensures Valid() && (old(ScanReady()) ==> ScanReady())
      ensures Snapshot() == old(Snapshot()).(tdiMinutes := if reply.Some? then 60 * reply.value else old(tdiMinutes))
      ensures 0 <= tdiMinutes && (reply.Some? ==> 60 <= tdiMinutes <= 720)
    {
      if reply.Some? {
        tdiMinutes := reply.value * 60;
      }
    }

    /** `OnAlign`: from IDLE with a camera, starts the 2-second alignment timer, clears the
        image and restarts the rate measurement; the exposure measured so far is kept. */
    method OnAlign()
      requires Valid()
      modifies this, rgb
      ensures Valid() && (old(ScanReady()) ==> ScanReady())
      ensures var starts := old(state) == Idle && hasCamera;
              (starts ==> Snapshot() == old(Snapshot()).(state := Aligning, timerRunning := true,
                                                 timerPeriod := ALIGN_EXP, tdiScanRate := 0.0,
                                                 numFrames := 0) &&
                          forall k :: 0 <= k < rgb.Length ==> rgb[k] == 0) &&
              (!starts ==> Snapshot() == old(Snapshot()) && rgb[..] == old(rgb[..]))
    {
      if state == Idle && hasCamera {
        timerRunning, timerPeriod := true, ALIGN_EXP;
        forall k | 0 <= k < rgb.Length {
          rgb[k] := 0;
        }
        tdiScanRate := 0.0;
        numFrames := 0;
        state := Aligning;
      }
    }

    /** `OnScan`: from IDLE, with a camera, no scan held and a measured exposure, asks for the
        duration when none is set (`reply` is the dialog's answer) and, with a duration,
        allocates a zero-filled buffer of `ScanLength` rows, starts the timer at the row
        exposure and enters SCANNING at row 0. Otherwise only the dialog's answer is kept. */
    method OnScan(reply: Option<int>)
      requires Valid()
      requires reply.Some? ==> 1 <= reply.value <= 12
      modifies this
      ensures Valid() && (old(ScanReady()) ==> ScanReady())
      ensures var asks := old(state) == Idle && hasCamera && old(tdiFrame) == null &&
                          old(tdiExposure) != 0 && old(tdiMinutes) == 0;
              var minutes := if asks && reply.Some? then 60 * reply.value else old(tdiMinutes);
              var starts := old(state) == Idle && hasCamera && old(tdiFrame) == null &&
                            old(tdiExposure) != 0 && minutes != 0;
              (!starts ==> Snapshot() == old(Snapshot()).(tdiMinutes := minutes)) &&
              (starts ==> tdiFrame != null && fresh(tdiFrame) &&
                          tdiLength == ScanLength(minutes, old(tdiExposure), height) &&
                          tdiFrame.Length == Area(tdiLength, width) &&
                          (forall k :: 0 <= k < tdiFrame.Length ==> tdiFrame[k] == 0) &&
                          Snapshot() == old(Snapshot()).(state := Scanning, timerRunning := true,
                                                 timerPeriod := old(tdiExposure), tdiFrame := tdiFrame,
                                                 tdiLength := tdiLength, tdiRow := 0, tdiMinutes := minutes))
    {
      if state == Idle && hasCamera {
        if tdiFrame != null {
          return;
        }
        if tdiExposure == 0 {
          return;
        }
        if tdiMinutes == 0 {
          OnDuration(reply);
          if tdiMinutes == 0 {
            return;
          }
        }
        StartScan(ScanLength(tdiMinutes, tdiExposure, height));
      }
    }

    /** The starting step of `OnScan`: a zero-filled buffer of `ScanLength` rows for the chosen
        duration, the timer started at the row exposure, SCANNING at row 0. */
    method StartScan(length: int)
      requires Valid() && state == Idle && hasCamera && tdiExposure != 0 && height <= length
      modifies this
      ensures Valid() && ScanReady()
      ensures tdiFrame != null && fresh(tdiFrame) && tdiLength == length &&
              tdiFrame.Length == Area(tdiLength, width) &&
              (forall k :: 0 <= k < tdiFrame.Length ==> tdiFrame[k] == 0)
      ensures Snapshot() == old(Snapshot()).(state := Scanning, timerRunning := true,
                                             timerPeriod := old(tdiExposure), tdiFrame := tdiFrame,
                                             tdiLength := tdiLength, tdiRow := 0)
    {
      tdiLength := length;
      AreaMonotone(0, tdiLength, width);
      var buffer := Zeroed(Area(tdiLength, width));
      tdiFrame := buffer;
      timerRunning, timerPeriod := true, tdiExposure;
      tdiRow := 0;
      state := Scanning;
    }

    /** `OnStop`: with the timer running, stops it; a scan is cut short at the rows read so
        far. The session always ends IDLE. */
    method OnStop()
      requires Valid()
      modifies this
      ensures Valid() && ScanReady()
      ensures old(timerRunning) ==> Snapshot() == old(Snapshot()).(state := Idle, timerRunning := false,
                                        tdiLength := if old(state) == Scanning then old(tdiRow) else old(tdiLength))
      ensures !old(timerRunning) ==> Snapshot() == old(Snapshot())
    {
      if timerRunning {
        timerRunning := false;
        if state == Scanning {
          tdiLength := tdiRow;
        }
        state := Idle;
      }
    }

    /** `OnNew` as written: drops the scan buffer whatever the state, also under a scan in
        progress, whose next tick then has no buffer to write to. */
    method OnNew()
      requires Valid()
      modifies this
      ensures Valid()
      ensures Snapshot() == old(Snapshot()).(tdiFrame := null)
      ensures old(state) == Scanning <==> !ScanReady()
    {
      tdiFrame := null;
    }

    /** `OnNew` with the scan in progress protected: the buffer is dropped only when no scan
        is running, so a running scan keeps its buffer. */
    method OnNewWhenIdle()
      requires Valid()
      modifies this
      ensures Valid() && (old(ScanReady()) ==> ScanReady())
      ensures old(state) != Scanning ==> Snapshot() == old(Snapshot()).(tdiFrame := null)
      ensures old(state) == Scanning ==> Snapshot() == old(Snapshot())
    {
      if state != Scanning {
        tdiFrame := null;
      }
    }

    /** The rendering step of both ticks on the session's image and tables. */
    method Show(src: array<Sample>, base: int, accumulate: bool, ghost w: seq<Sample>,
                ghost before: seq<Byte>, ghost redBefore: seq<Byte>, ghost blugrnBefore: seq<Byte>)
      requires Valid() && 0 <= base && base + Area(height, width) <= src.Length
      requires src as object != rgb && src as object != red && src as object != blugrn
      requires src[base..base + Area(height, width)] == w
      requires rgb[..] == before && red[..] == redBefore && blugrn[..] == blugrnBefore
      modifies rgb, red, blugrn
      ensures Displayed(w, before, redBefore, blugrnBefore, accumulate, filter)
    {
      Present(src, base, width, height, rgb, red, blugrn, accumulate, filter, w,
              before, redBefore, blugrnBefore);
    }

    /** The outcome of the first alignment frame over the upright frame `f`, from the
        session `v` before it: the whole frame minus its bottom quarter is searched from the
        top centre; a star found there becomes the reference and the tracked position and one
        frame is counted, otherwise the reference is left at the search seed. */
    ghost predicate Acquired(v: View, f: seq<Sample>, threshold: int, found: bool, xr: int, yr: int)
      reads this
    {
      var xs, ys := (width / 2) as real, 0.0;
      0 <= width && 0 <= height && |f| == Area(height, width) &&
      (AreaIsProduct(height, width);
       var s := SearchOf(width, height, f, xs, ys, width, height - height / 4, TRACK_CAP, TRACK_CAP, threshold);
      (found && Reports(s, xs, ys, found, trackInitialX, trackInitialY, xr, yr) &&
       Snapshot() == v.(trackInitialX := trackInitialX, trackInitialY := trackInitialY,
                        trackX := trackInitialX, trackY := trackInitialY, numFrames := 1)) ||
      (!found && Reports(s, xs, ys, found, trackInitialX, trackInitialY, xr, yr) &&
       Snapshot() == v.(trackInitialX := xs, trackInitialY := ys)))
    }

    /** The outcome of a later alignment frame: while the tracked star is more than one
        frame's drift above the bottom row, a narrow window around it is searched; a star
        found below its reference position yields the exposure and the rate for the frames
        counted so far, and one more frame is counted. */
    ghost predicate Followed(v: View, f: seq<Sample>, threshold: int, found: bool, xr: int, yr: int)
      reads this
    {
      var xs, ys := v.trackX, v.trackY;
      var inMargin := ys < (height - 1) as real - v.tdiScanRate * (ALIGN_EXP / 1000) as real;
      var drift := trackY - v.trackInitialY;
      0 <= width && 0 <= height && |f| == Area(height, width) &&
      (AreaIsProduct(height, width);
       var s := SearchOf(width, height, f, xs, ys, TRACK_RANGE, height, TRACK_CAP, TRACK_CAP, threshold);
      (!inMargin ==> !found && Snapshot() == v) &&
      (inMargin ==> Reports(s, xs, ys, found, trackX, trackY, xr, yr)) &&
      (inMargin && found && 0.0 < drift && 0 < v.numFrames ==>
         Snapshot() == v.(trackX := trackX, trackY := trackY, numFrames := v.numFrames + 1,
                          tdiExposure := AlignExposure(v.numFrames, drift),
                          tdiScanRate := AlignRate(v.numFrames, drift))) &&
      (inMargin && !(found && 0.0 < drift && 0 < v.numFrames) ==>
         Snapshot() == v.(trackX := trackX, trackY := trackY)))
    }

    /** The first-frame branch of `DoAlign`. */
    method AcquireStar(threshold: int) returns (found: bool, xRadius: int, yRadius: int)
      requires Valid() && state == Aligning && numFrames == 0
      modifies this
      ensures Valid() && ScanReady()
      ensures Acquired(old(Snapshot()), ccdFrame[..], threshold, found, xRadius, yRadius)
    {
      AreaIsProduct(height, width);
      var x, y;
      found, x, y, xRadius, yRadius :=
        FindBestCentroid(width, height, ccdFrame, (width / 2) as real, 0.0, width, height - height / 4,
                         TRACK_CAP, TRACK_CAP, threshold);
      StartTrack(found, x, y);
    }

    /** The reference position becomes the search result (the search seed when nothing was
        found); a star found there is also the tracked position and counts one frame. */
    method StartTrack(found: bool, x: real, y: real)
      requires Valid() && state == Aligning
      modifies this
      ensures Valid() && ScanReady()
      ensures found ==> Snapshot() == old(Snapshot()).(trackInitialX := x, trackInitialY := y,
                                                      trackX := x, trackY := y, numFrames := 1)
      ensures !found ==> Snapshot() == old(Snapshot()).(trackInitialX := x, trackInitialY := y)
    {
      trackInitialX, trackInitialY := x, y;
      if found {
        trackX, trackY := x, y;
        numFrames := 1;
      }
    }

    /** The later-frame branch of `DoAlign`. */
    method FollowStar(threshold: int) returns (found: bool, xRadius: int, yRadius: int)
      requires Valid() && state == Aligning && numFrames != 0
      modifies this
      ensures Valid() && ScanReady()
      ensures Followed(old(Snapshot()), ccdFrame[..], threshold, found, xRadius, yRadius)
    {
      ghost var v := Snapshot();
      xRadius, yRadius := TRACK_CAP, TRACK_CAP;
      found := false;
      if trackY < (height - 1) as real - tdiScanRate * (ALIGN_EXP / 1000) as real {
        AreaIsProduct(height, width);
        ghost var f := ccdFrame[..];
        var x, y;
        found, x, y, xRadius, yRadius :=
          FindBestCentroid(width, height, ccdFrame, trackX, trackY, TRACK_RANGE, height,
                           TRACK_CAP, TRACK_CAP, threshold);
        MeasureRate(found, x, y);
        assert trackX == x && trackY == y;
        FollowedOnTrack(v, f, threshold, found, x, y, xRadius, yRadius);
      } else {
        assert Snapshot() == v;
      }
    }

    /** `Followed` for a frame whose tracked star lies inside the margin, from the search's report
        and the counted frame. */
    lemma FollowedOnTrack(v: View, f: seq<Sample>, threshold: int, found: bool, xc: real, yc: real, xr: int, yr: int)
      requires 0 <= width && 0 <= height && |f| == Area(height, width)
      requires v.trackY < (height - 1) as real - v.tdiScanRate * (ALIGN_EXP / 1000) as real
      requires (AreaIsProduct(height, width);
                Reports(SearchOf(width, height, f, v.trackX, v.trackY, TRACK_RANGE, height, TRACK_CAP, TRACK_CAP, threshold),
                        v.trackX, v.trackY, found, xc, yc, xr, yr))
      requires trackX == xc && trackY == yc
      requires var drift := trackY - v.trackInitialY;
               (found && 0.0 < drift && 0 < v.numFrames ==>
                  Snapshot() == v.(trackX := trackX, trackY := trackY, numFrames := v.numFrames + 1,
                                   tdiExposure := AlignExposure(v.numFrames, drift),
                                   tdiScanRate := AlignRate(v.numFrames, drift))) &&
               (!(found && 0.0 < drift && 0 < v.numFrames) ==> Snapshot() == v.(trackX := trackX, trackY := trackY))
      ensures Followed(v, f, threshold, found, xr, yr)
    {
    }

    /** The tracked position moves to the search result (the seed itself when nothing was
        found); a star found below its reference position yields the exposure and the rate for
        the frames counted so far, and one more frame is counted. */
    method MeasureRate(found: bool, x: real, y: real)
      requires Valid() && state == Aligning && numFrames != 0
      modifies this
      ensures Valid() && ScanReady()
      ensures var drift := y - old(trackInitialY);
              (found && 0.0 < drift ==>
                 Snapshot() == old(Snapshot()).(trackX := x, trackY := y, numFrames := old(numFrames) + 1,
                                                tdiExposure := AlignExposure(old(numFrames), drift),
                                                tdiScanRate := AlignRate(old(numFrames), drift))) &&
              (!(found && 0.0 < drift) ==> Snapshot() == old(Snapshot()).(trackX := x, trackY := y))
    {
      trackX, trackY := x, y;
      if found && trackInitialY < trackY {
        var drift := trackY - trackInitialY;
        ExposureMatchesRate(numFrames, drift);
        tdiExposure := AlignExposure(numFrames, drift);
        tdiScanRate := AlignRate(numFrames, drift);
        numFrames := numFrames + 1;
      }
    }

    /** `DoAlign`, one alignment tick: the raw frame `raw` the camera read is stored upside
        down into `ccdFrame`, the star is tracked, and when the window is visible the frame is
        accumulated into the image with the ramp updated. */
    method DoAlign(raw: seq<Sample>, threshold: int, shown: bool) returns (found: bool, xRadius: int, yRadius: int)
      requires Valid() && state == Aligning && |raw| == Area(height, width)
      modifies this, ccdFrame, rgb, red, blugrn
      ensures Valid() && ScanReady()
      ensures HoldsFlipped(raw)
      ensures old(numFrames) == 0 ==> Acquired(old(Snapshot()), ccdFrame[..], threshold, found, xRadius, yRadius)
      ensures old(numFrames) != 0 ==> Followed(old(Snapshot()), ccdFrame[..], threshold, found, xRadius, yRadius)
      ensures shown ==> Displayed(ccdFrame[0..Area(height, width)], old(rgb[..]), old(red[..]), old(blugrn[..]), true, filter)
      ensures !shown ==> rgb[..] == old(rgb[..]) && red[..] == old(red[..]) && blugrn[..] == old(blugrn[..])
    {
      ghost var img, rt, bt := rgb[..], red[..], blugrn[..];
      AreaIsProduct(height, width);
      FlipInto(raw, ccdFrame, width, height);
      ghost var f := ccdFrame[..];
      if numFrames == 0 {
        found, xRadius, yRadius := AcquireStar(threshold);
      } else {
        found, xRadius, yRadius := FollowStar(threshold);
      }
      if shown {
        Show(ccdFrame, 0, true, ccdFrame[0..Area(height, width)], img, rt, bt);
      }
      assert ccdFrame[..] == f;
    }

    /** The row-store part of `DoTDI`: the camera's row becomes row `tdiRow` of the buffer. */
    method StoreRow(row: seq<Sample>)
      requires Valid() && state == Scanning && tdiFrame != null && |row| == width
      modifies tdiFrame
      ensures RowWritten(old(tdiFrame[..]), tdiFrame[..], tdiRow, width, row)
    {
      AreaMonotone(tdiRow + 1, tdiLength, width);
      AreaMonotone(0, tdiRow, width);
      var o := Area(tdiRow, width);
      forall k | 0 <= k < width {
        tdiFrame[o + k] := row[k];
      }
      assert tdiFrame[..] == old(tdiFrame[..])[..o] + row + old(tdiFrame[..])[o + width..];
    }

    /** `DoTDI`, one scan tick: the row the camera read is stored as row `tdiRow` of the scan
        buffer; when the window is visible the last sensor height of rows is drawn over the
        image with the ramp updated; the row count advances and the scan ends (timer stopped,
        IDLE) when it reaches `tdiLength`. */
    method DoTDI(row: seq<Sample>, shown: bool) returns (ghost window: seq<Sample>)
      requires Valid() && state == Scanning && tdiFrame != null && |row| == width
      modifies this, tdiFrame, rgb, red, blugrn
      ensures Valid() && ScanReady()
      ensures tdiFrame == old(tdiFrame)
      ensures RowWritten(old(tdiFrame[..]), tdiFrame[..], old(tdiRow), width, row)
      ensures var b := TdiWindowBase(old(tdiRow), width, height);
              0 <= b && b + Area(height, width) <= tdiFrame.Length && window == tdiFrame[b..b + Area(height, width)]
      ensures shown ==> Displayed(window, old(rgb[..]), old(red[..]), old(blugrn[..]), false, filter)
      ensures !shown ==> unchanged(rgb, red, blugrn)
      ensures var r := old(tdiRow) + 1;
              Snapshot() == old(Snapshot()).(tdiRow := r, state := if r == tdiLength then Idle else Scanning,
                                             timerRunning := r != tdiLength)
    {
      ghost var img, rt, bt := rgb[..], red[..], blugrn[..];
      StoreRow(row);
      TdiWindowPlacement(tdiRow, tdiLength, width, height);
      var base := TdiWindowBase(tdiRow, width, height);
      var buffer := tdiFrame;
      // The rendering does not read the row count, so advancing it first changes nothing.
      Advance();
      window := buffer[base..base + Area(height, width)];
      if shown {
        Show(buffer, base, false, window, img, rt, bt);
      }
      assert buffer == tdiFrame && base == TdiWindowBase(old(tdiRow), width, height);
      assert window == buffer[base..base + Area(height, width)];
    }

    /** The counting part of `DoTDI`: one more row has been read, and the scan ends (timer
        stopped, IDLE) once `tdiLength` rows have been. */
    method Advance()
      requires Valid() && state == Scanning && tdiFrame != null
      modifies this
      ensures Valid() && ScanReady()
      ensures var r := old(tdiRow) + 1;
              Snapshot() == old(Snapshot()).(tdiRow := r, state := if r == tdiLength then Idle else Scanning,
                                             timerRunning := r != tdiLength)
    {
      tdiRow := tdiRow + 1;
      if tdiRow == tdiLength {
        timerRunning := false;
        state := Idle;
      }
    }

    /** `OnTimer`: a tick of the running timer reads a scan row while SCANNING (`DoTDI`) and an
        alignment frame otherwise (`DoAlign`). A scan whose buffer was dropped has nothing to
        write the row to: the tick reports a fault and changes nothing. The ghost results are
        the star search's outcome while aligning and the displayed window while scanning. */
    method OnTimer(raw: seq<Sample>, row: seq<Sample>, threshold: int, shown: bool)
      returns (fault: bool, ghost found: bool, ghost xRadius: int, ghost yRadius: int, ghost window: seq<Sample>)
      requires Valid() && timerRunning && |raw| == Area(height, width) && |row| == width
      modifies this, ccdFrame, rgb, red, blugrn, tdiFrame
      ensures Valid() && (old(ScanReady()) ==> ScanReady())
      ensures fault <==> old(state) == Scanning && old(tdiFrame) == null
      ensures fault ==> Snapshot() == old(Snapshot())
      ensures old(state) == Scanning && !fault ==>
                tdiFrame == old(tdiFrame) &&
                RowWritten(old(tdiFrame[..]), tdiFrame[..], old(tdiRow), width, row) &&
                (var b := TdiWindowBase(old(tdiRow), width, height);
                 0 <= b && b + Area(height, width) <= tdiFrame.Length && window == tdiFrame[b..b + Area(height, width)]) &&
                (shown ==> Displayed(window, old(rgb[..]), old(red[..]), old(blugrn[..]), false, filter)) &&
                (!shown ==> unchanged(rgb, red, blugrn)) &&
                (var r := old(tdiRow) + 1;
                 Snapshot() == old(Snapshot()).(tdiRow := r, state := if r == tdiLength then Idle else Scanning,
                                                timerRunning := r != tdiLength))
      ensures old(state) == Aligning ==>
                state == Aligning && HoldsFlipped(raw) &&
                (old(numFrames) == 0 ==> Acquired(old(Snapshot()), ccdFrame[..], threshold, found, xRadius, yRadius)) &&
                (old(numFrames) != 0 ==> Followed(old(Snapshot()), ccdFrame[..], threshold, found, xRadius, yRadius)) &&
                (shown ==> Displayed(ccdFrame[0..Area(height, width)], old(rgb[..]), old(red[..]), old(blugrn[..]), true, filter)) &&
                (!shown ==> rgb[..] == old(rgb[..]) && red[..] == old(red[..]) && blugrn[..] == old(blugrn[..]))
    {
      fault, found, xRadius, yRadius, window := false, false, 0, 0, [];
      if state == Scanning {
        if tdiFrame == null {
          fault := true;
        } else {
          window := DoTDI(row, shown);
        }
      } else {
        var f, xr, yr := DoAlign(raw, threshold, shown);
        found, xRadius, yRadius := f, xr, yr;
      }
    }
  }

  /** The sequence the as-written `OnNew` allows: New during a scan, then the next tick, which
      has no buffer for its row. */
  method NewDuringScan(sc: Scanner, raw: seq<Sample>, row: seq<Sample>, threshold: int, shown: bool)
    returns (fault: bool)
    requires sc.Valid() && sc.ScanReady() && sc.state == Scanning
    requires |raw| == Area(sc.height, sc.width) && |row| == sc.width
    modifies sc, sc.ccdFrame, sc.rgb, sc.red, sc.blugrn, sc.tdiFrame
    ensures fault
  {
    sc.OnNew();
    var f, found, xr, yr, window := sc.OnTimer(raw, row, threshold, shown);
    fault := f;
  }

  /** The same sequence with `OnNewWhenIdle`: the tick finds its buffer. */
  method NewWhenIdleDuringScan(sc: Scanner, raw: seq<Sample>, row: seq<Sample>, threshold: int, shown: bool)
    returns (fault: bool)
    requires sc.Valid() && sc.ScanReady() && sc.state == Scanning
    requires |raw| == Area(sc.height, sc.width) && |row| == sc.width
    modifies sc, sc.ccdFrame, sc.rgb, sc.red, sc.blugrn, sc.tdiFrame
    ensures !fault
  {
    sc.OnNewWhenIdle();
    var f, found, xr, yr, window := sc.OnTimer(raw, row, threshold, shown);
    fault := f;
  }
}
