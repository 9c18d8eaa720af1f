/** The display ramp: two 1024-entry lookup tables that map the top ten bits of a 16-bit sample
    to an 8-bit intensity between a black and a white level (`calcRamp`, `LUT_INDEX`). */
module DisplayRamp {
  import opened Samples

  const PIX_BITWIDTH := 16
  const LUT_BITWIDTH := 10
  const LUT_SIZE := 1024

  /** `LUT_INDEX(i)`: the sample shifted right by six bits, i.e. its top ten bits. */
  function LutIndex(s: Sample): (i: nat)
    ensures i < LUT_SIZE
    ensures i * 64 <= s < i * 64 + 64
  {
    s / 64
  }

  lemma ScaledBelowFull(num: int, den: int)
    requires 0 <= num < den
    ensures 0 <= 255 * num / den < 255
  {
    assert 255 * num < 255 * den;
  }

  lemma DivMonotone(a: int, b: int, den: int)
    requires 0 <= a <= b && 0 < den
    ensures a / den <= b / den
  {
    var qa, qb := a / den, b / den;
    assert a == den * qa + a % den && b == den * qb + b % den;
    if qa > qb {
      MulLe(den, qb + 1, qa);
    }
  }

  /** One red table entry, with the gamma fixed at 1.0: the bucket's distance past
      `LUT_INDEX(black) - 1`, scaled so that a span of `white - black` sample values fills the
      range, clamped to [0,1] and multiplied by 255 with the fraction dropped. */
  function RampEntry(pix: int, black: Sample, white: Sample): (v: Byte)
    requires black < white
    ensures pix <= LutIndex(black) - 1 ==> v == 0
  {
    var d := pix - (LutIndex(black) - 1);
    var num := d * MAX_PIX;
    var den := (LUT_SIZE - 1) * (white - black);
    if d <= 0 then 0
    else if num >= den then 255
    else ScaledBelowFull(num, den); 255 * num / den
  }

  /** The red table `calcRamp(black, white, 1.0, filter)` writes. */
  function RedTable(black: Sample, white: Sample): (t: seq<Byte>)
    requires black < white
    ensures |t| == LUT_SIZE
  {
    RampPrefix(black, white, LUT_SIZE)
  }

  /** The first `n` entries of the red table, built one bucket at a time. */
  function RampPrefix(black: Sample, white: Sample, n: nat): (t: seq<Byte>)
    requires black < white
    ensures |t| == n
  {
    if n == 0 then [] else RampPrefix(black, white, n - 1) + [RampEntry(n - 1, black, white)]
  }

  /** Entry `k` of a table prefix is the ramp value of bucket `k`. */
  lemma {:induction false} RampPrefixAt(black: Sample, white: Sample, n: nat)
    requires black < white
    ensures forall k :: 0 <= k < n ==> RampPrefix(black, white, n)[k] == RampEntry(k, black, white)
  {
    if n > 0 {
      RampPrefixAt(black, white, n - 1);
    }
  }

  /** The blue/green table: all zero under the red filter, otherwise the red table. */
  function BlugrnTable(black: Sample, white: Sample, filter: bool): (t: seq<Byte>)
    requires black < white
    ensures |t| == LUT_SIZE
  {
    if filter then seq(LUT_SIZE, _ => 0) else RedTable(black, white)
  }

  /** Entry `k` of both tables: red is the ramp value of bucket `k`, blue/green is 0 under the
      red filter and the red entry otherwise. */
  lemma TableEntry(black: Sample, white: Sample, filter: bool, k: int)
    requires black < white && 0 <= k < LUT_SIZE
    ensures RedTable(black, white)[k] == RampEntry(k, black, white)
    ensures BlugrnTable(black, white, filter)[k] == if filter then 0 else RedTable(black, white)[k]
  {
    RampPrefixAt(black, white, LUT_SIZE);
  }

  /** Every bucket at or above the one holding `white` is full scale. */
  lemma RampSaturatesAtWhite(pix: int, black: Sample, white: Sample)
    requires black < white
    requires LutIndex(white) <= pix
    ensures RampEntry(pix, black, white) == 255
  {
    var lb: int, lw: int := LutIndex(black), LutIndex(white);
    var d := pix - (lb - 1);
    assert white - black < 64 * d;
    assert (LUT_SIZE - 1) * (white - black) <= (LUT_SIZE - 1) * (64 * d - 1);
    assert d * MAX_PIX >= (LUT_SIZE - 1) * (white - black);
  }

  /** The ramp never decreases as the bucket index grows. */
  lemma RampMonotone(p: int, q: int, black: Sample, white: Sample)
    requires black < white
    requires p <= q
    ensures RampEntry(p, black, white) <= RampEntry(q, black, white)
  {
    var off := LutIndex(black) - 1;
    var den := (LUT_SIZE - 1) * (white - black);
    var dp, dq := p - off, q - off;
    if 0 < dp && dq * MAX_PIX < den {
      assert dp * MAX_PIX <= dq * MAX_PIX;
      DivMonotone(255 * (dp * MAX_PIX), 255 * (dq * MAX_PIX), den);
    } else if 0 < dp && dp * MAX_PIX < den {
      ScaledBelowFull(dp * MAX_PIX, den);
    }
  }

  /** `calcRamp(black, white, gamma, filter)` with `gamma` at its fixed value 1.0: rewrites all
      1024 entries of both tables in one loop. The result depends on the arguments alone, so two
      calls with the same arguments leave identical tables. */
  method CalcRamp(red: array<Byte>, blugrn: array<Byte>, black: Sample, white: Sample, filter: bool)
    requires red.Length == LUT_SIZE && blugrn.Length == LUT_SIZE && red != blugrn
    requires black < white
    modifies red, blugrn
    ensures red[..] == RedTable(black, white)
    ensures blugrn[..] == BlugrnTable(black, white, filter)
  {
    var offset := LutIndex(black) - 1;
    for pix := 0 to LUT_SIZE
      invariant forall k :: 0 <= k < pix ==> red[k] == RampEntry(k, black, white)
      invariant forall k :: 0 <= k < pix ==> blugrn[k] == if filter then 0 else red[k]
    {
      var d := pix - offset;
      var num := d * MAX_PIX;
      var den := (LUT_SIZE - 1) * (white - black);
      if d <= 0 {
        red[pix] := 0;
      } else if num >= den {
        red[pix] := 255;
      } else {
        ScaledBelowFull(num, den);
        red[pix] := 255 * num / den;
      }
      blugrn[pix] := if filter then 0 else red[pix];
    }
    RampPrefixAt(black, white, LUT_SIZE);
  }

  /** The scale `calcRamp` computes before its loop, `MAX_PIX / (white - black)`, as written:
      there is no guard, so equal levels divide by zero (an infinite float scale, after which
      the bucket at `LUT_INDEX(black) - 1` computes 0 times infinity and converts the NaN to a
      byte). That case is `None` here. */
  function RampScale(black: Sample, white: Sample): (r: Option<real>)
    ensures r.None? <==> black == white
    ensures r.Some? ==> r.value * (white - black) as real == MAX_PIX as real
  {
    if black == white then None else Some(MAX_PIX as real / (white - black) as real)
  }

  /** The levels both renderers pass on are the smallest and largest sample of the window they
      just drew. When every sample of the window is the same value, the two levels coincide and
      the ramp's scale divides by zero: an alignment frame saturated at 65535 in every pixel
      reaches `calcRamp` with `black == white`. */
  lemma UniformWindowDegenerate(w: seq<Sample>, lo: int, hi: int)
    requires |w| > 0 && forall k :: 0 <= k < |w| ==> w[k] == w[0]
    requires forall k :: 0 <= k < |w| ==> lo <= w[k] <= hi
    requires lo in w && hi in w
    ensures lo == hi == w[0]
    ensures RampScale(lo, hi).None?
  {
    var a :| 0 <= a < |w| && w[a] == lo;
    var b :| 0 <= b < |w| && w[b] == hi;
    assert w[a] == w[0] && w[b] == w[0];
  }

  /** The ramp levels with the degenerate case guarded by a span of at least one level: the
      observed levels when they differ, otherwise a span of one sample value at the observed
      level (one below it at the top of the sample range). */
  function RampLevels(lo: Sample, hi: Sample): (levels: (Sample, Sample))
    ensures levels.0 < levels.1
    ensures lo < hi ==> levels == (lo, hi)
    ensures hi <= lo ==> levels.1 - levels.0 == 1 && levels.0 <= lo <= levels.1
  {
    if lo < hi then (lo, hi)
    else if lo < MAX_PIX then (lo, lo + 1)
    else (MAX_PIX - 1, MAX_PIX)
  }

  /** On a uniform window the guarded table is a step: every bucket below the one holding the
      observed level is black and every other bucket is full scale. This is the table the
      unguarded scale gives (0 below, 255 above), except at the single bucket
      `LUT_INDEX(level) - 1`, which the unguarded loop fills from a NaN and which is 0 here. */
  lemma DegenerateRampIsStep(level: Sample, k: int)
    requires 0 <= k < LUT_SIZE
    ensures RedTable(RampLevels(level, level).0, RampLevels(level, level).1)[k] ==
            if k < LutIndex(level) then 0 else 255
  {
    var b, w := RampLevels(level, level).0, RampLevels(level, level).1;
    TableEntry(b, w, false, k);
    assert LutIndex(b) == LutIndex(level);
    var d := k - (LutIndex(b) - 1);
    if d > 0 {
      assert d * MAX_PIX >= (LUT_SIZE - 1) * (w - b);
    }
  }
}
