/** Value types shared by the sxtdi model: camera samples, display bytes and the C helpers
    (the `max` macro and float-to-int conversion) that the application uses on them. */
module Samples {

  /** An unsigned 16-bit camera sample (`uint16_t`). */
  type Sample = v: int | 0 <= v < 0x1_0000

  /** An unsigned 8-bit display intensity (`uint8_t` / `unsigned char`). */
  type Byte = v: int | 0 <= v < 0x100

  const MIN_PIX: Sample := 0
  const MAX_PIX: Sample := 0xFFFF

  datatype Option<T> = None | Some(value: T)

  /** The `max(a,b)` macro: `a` when `a >= b`, otherwise `b`. */
  function Max(a: int, b: int): (r: int)
    ensures r >= a && r >= b
    ensures r == a || r == b
  {
    if a >= b then a else b
  }

  /** C conversion of a floating value to `int`: truncation toward zero. */
  function Trunc(r: real): (t: int)
    ensures 0.0 <= r ==> 0 <= t && t as real <= r < t as real + 1.0
    ensures r < 0.0 ==> t <= 0 && t as real - 1.0 < r <= t as real
  {
    if r >= 0.0 then r.Floor else -((-r).Floor)
  }

  /** A row-major buffer of `width * height` samples: pixel (i, j) is column i of row j. */
  datatype Frame = Frame(width: int, height: int, pixels: seq<Sample>)
  {
    predicate WellFormed()
    {
      0 <= width && 0 <= height && |pixels| == width * height
    }

    /** `pixels[j * width + i]`. */
    function At(i: int, j: int): Sample
      requires WellFormed() && 0 <= i < width && 0 <= j < height
    {
      IndexInRange(i, j, width, height);
      pixels[j * width + i]
    }
  }

  /** The number of samples in `rows` rows of `w` samples each, counted row by row. */
  function Area(rows: int, w: int): int
  {
    if rows <= 0 then 0 else Area(rows - 1, w) + w
  }

  /** Counting row by row gives the product. */
  lemma {:induction false} AreaIsProduct(rows: int, w: int)
    requires 0 <= rows
    ensures Area(rows, w) == rows * w
  {
    if rows > 0 {
      AreaIsProduct(rows - 1, w);
    }
  }

  /** More rows never hold fewer samples. */
  lemma AreaMonotone(a: int, b: int, w: int)
    requires 0 <= a <= b && 0 <= w
    ensures 0 <= Area(a, w) <= Area(b, w)
  {
    AreaIsProduct(a, w);
    AreaIsProduct(b, w);
    MulLe(w, a, b);
    MulLe(w, 0, a);
  }

  lemma MulLe(k: int, m: int, n: int)
    requires 0 <= k && m <= n
    ensures k * m <= k * n
  {
  }

  /** Row-major indexing of a cell inside a `w` by `h` buffer stays inside the buffer. */
  lemma IndexInRange(i: int, j: int, w: int, h: int)
    requires 0 <= i < w && 0 <= j < h
    ensures 0 <= j * w + i < w * h
  {
    MulLe(w, j + 1, h);
    assert j * w + i < (j + 1) * w;
  }

  /** Splitting a row-major index k of a `w` by `h` buffer into its row k / w and column k % w. */
  lemma RowMajorSplit(k: int, w: int, h: int)
    requires 0 <= k < w * h && 0 <= h
    ensures 0 < w && 0 <= k / w < h && 0 <= k % w < w && k == (k / w) * w + k % w
  {
    if w <= 0 {
      MulLe(h, w, 0);
      assert false;
    }
    if k / w >= h {
      MulLe(w, h, k / w);
    }
  }

  /** The row and column of cell (i, j) come back out of its row-major index. */
  lemma RowMajorJoin(i: int, j: int, w: int)
    requires 0 <= i < w && 0 <= j
    ensures (j * w + i) / w == j && (j * w + i) % w == i
  {
    var k := j * w + i;
    var q, r := k / w, k % w;
    assert q * w + r == j * w + i;
    if q > j {
      MulLe(w, j + 1, q);
    } else if q < j {
      MulLe(w, q + 1, j);
    }
  }

  /** Reads `pixels[j * width + i]` of a row-major buffer: pixel (i, j) of the frame the buffer
      currently holds. */
  function Read(pixels: array<Sample>, width: int, height: int, i: int, j: int): (v: Sample)
    reads pixels
    requires pixels.Length == width * height && 0 <= i < width && 0 <= j < height
    ensures v == Frame(width, height, pixels[..]).At(i, j)
  {
    IndexInRange(i, j, width, height);
    pixels[j * width + i]
  }
}
