/** Error Level Analysis (src/ela.py, process_ela): the image is recompressed
    as JPEG, the per-channel absolute difference with the original is taken,
    and the difference is brightened so that its largest channel value maps
    to 255 * scale / 10 (clamped to 8 bits).

    The JPEG save/reload round trip is a function parameter `recompress`
    that keeps the dimensions and the channel range when it succeeds. */
module Ela {
  import opened Raster

  // ---------------------------------------------------------------------------
  // Step 4: the difference image (ImageChops.difference)
  // ---------------------------------------------------------------------------

  function AbsDiff(a: int, b: int): (d: int)
    ensures 0 <= d && (d == a - b || d == b - a)
  {
    if a < b then b - a else a - b
  }

  function PixelDifference(p: Rgb, q: Rgb): (d: Rgb)
    ensures forall band :: Channel(d, band) == AbsDiff(Channel(p, band), Channel(q, band))
  {
    Rgb(AbsDiff(p.r, q.r), AbsDiff(p.g, q.g), AbsDiff(p.b, q.b))
  }

  /** Per-channel |a - b|: in range, and black exactly where the two agree. */
  function Difference(a: Image, b: Image): (d: Image)
    requires SameShape(a, b)
    ensures SameShape(d, a)
    ensures forall i, j, band :: 0 <= i < |d| && 0 <= j < |d[i]| ==>
              Channel(d[i][j], band) == AbsDiff(Channel(a[i][j], band), Channel(b[i][j], band))
    ensures forall i, j :: 0 <= i < |d| && 0 <= j < |d[i]| ==> (d[i][j] == Black <==> a[i][j] == b[i][j])
    ensures InRange(a) && InRange(b) ==> InRange(d)
  {
    seq(|a|, i requires 0 <= i < |a| =>
      seq(|a[i]|, j requires 0 <= j < |a[i]| => PixelDifference(a[i][j], b[i][j])))
  }

  /** ImageChops.difference does not depend on the order of its arguments. */
  lemma DifferenceSymmetric(a: Image, b: Image)
    requires SameShape(a, b)
    ensures Difference(a, b) == Difference(b, a)
  {
    var d, e := Difference(a, b), Difference(b, a);
    forall i | 0 <= i < |d| ensures d[i] == e[i] {
      forall j | 0 <= j < |d[i]| ensures d[i][j] == e[i][j] {
        assert Channel(d[i][j], Red) == Channel(e[i][j], Red);
        assert Channel(d[i][j], Green) == Channel(e[i][j], Green);
        assert Channel(d[i][j], Blue) == Channel(e[i][j], Blue);
      }
    }
  }

  // ---------------------------------------------------------------------------
  // Step 5: the largest band maximum (getextrema, max over ex[1])
  // ---------------------------------------------------------------------------

  /** The maximum of one band over a row (0 for an empty row). */
  function RowBandMax(row: seq<Rgb>, band: Band): (m: int)
    ensures 0 <= m
    ensures forall k :: 0 <= k < |row| ==> Channel(row[k], band) <= m
    ensures (forall k :: 0 <= k < |row| ==> Channel(row[k], band) <= 255) ==> m <= 255
  {
    if row == [] then 0
    else Max(RowBandMax(row[..|row| - 1], band), Channel(row[|row| - 1], band))
  }

  /** The maximum of one band over an image: the second component of that
      band's entry in getextrema (0 for an image without pixels). */
  function BandMax(img: Image, band: Band): (m: int)
    ensures 0 <= m
    ensures forall i, j :: 0 <= i < |img| && 0 <= j < |img[i]| ==> Channel(img[i][j], band) <= m
    ensures InRange(img) ==> m <= 255
  {
    if img == [] then 0
    else Max(BandMax(img[..|img| - 1], band), RowBandMax(img[|img| - 1], band))
  }

  /** max_diff before the guard: the largest channel value of the image. */
  function MaxDiff(img: Image): (m: int)
    ensures 0 <= m
    ensures forall i, j, band :: 0 <= i < |img| && 0 <= j < |img[i]| ==> Channel(img[i][j], band) <= m
    ensures InRange(img) ==> m <= 255
  {
    Max(Max(BandMax(img, Red), BandMax(img, Green)), BandMax(img, Blue))
  }

  lemma {:induction false} RowBandMaxAttained(row: seq<Rgb>, band: Band)
    requires RowBandMax(row, band) > 0
    ensures exists k :: 0 <= k < |row| && Channel(row[k], band) == RowBandMax(row, band)
  {
    var init := row[..|row| - 1];
    if RowBandMax(init, band) < Channel(row[|row| - 1], band) {
      assert Channel(row[|row| - 1], band) == RowBandMax(row, band);
    } else {
      RowBandMaxAttained(init, band);
      var k :| 0 <= k < |init| && Channel(init[k], band) == RowBandMax(init, band);
      assert row[k] == init[k];
    }
  }

  lemma {:induction false} BandMaxAttained(img: Image, band: Band)
    requires BandMax(img, band) > 0
    ensures exists i, j :: 0 <= i < |img| && 0 <= j < |img[i]| && Channel(img[i][j], band) == BandMax(img, band)
  {
    var init, last := img[..|img| - 1], img[|img| - 1];
    if BandMax(init, band) < RowBandMax(last, band) {
      RowBandMaxAttained(last, band);
      var k :| 0 <= k < |last| && Channel(last[k], band) == RowBandMax(last, band);
      assert Channel(img[|img| - 1][k], band) == BandMax(img, band);
    } else {
      BandMaxAttained(init, band);
      var i, j :| 0 <= i < |init| && 0 <= j < |init[i]| && Channel(init[i][j], band) == BandMax(init, band);
      assert img[i] == init[i];
    }
  }

  /** A positive max_diff is the value of some channel of some pixel. */
  lemma MaxDiffAttained(img: Image)
    requires MaxDiff(img) > 0
    ensures exists i, j, band :: 0 <= i < |img| && 0 <= j < |img[i]| && Channel(img[i][j], band) == MaxDiff(img)
  {
    var band := if MaxDiff(img) == BandMax(img, Red) then Red
                else if MaxDiff(img) == BandMax(img, Green) then Green
                else Blue;
    BandMaxAttained(img, band);
  }

  // ---------------------------------------------------------------------------
  // The divide-by-zero guard and the gain
  // ---------------------------------------------------------------------------

  /** max_diff after the divide-by-zero guard, which turns 0 into 1. */
  function Divisor(img: Image): (m: int)
    ensures 1 <= m
    ensures forall i, j, band :: 0 <= i < |img| && 0 <= j < |img[i]| ==> Channel(img[i][j], band) <= m
    ensures InRange(img) ==> m <= 255
    ensures MaxDiff(img) > 0 ==> m == MaxDiff(img)
    ensures MaxDiff(img) == 0 ==> m == 1
  {
    var m := MaxDiff(img);
    if m == 0 then 1 else m
  }

  /** Either the guard forced the divisor to 1 on an all-black image, or the
      divisor is the value of one of the image's channels. */
  lemma DivisorAttained(img: Image)
    requires InRange(img)
    ensures || (Divisor(img) == 1 && forall i, j :: 0 <= i < |img| && 0 <= j < |img[i]| ==> img[i][j] == Black)
            || exists i, j, band :: 0 <= i < |img| && 0 <= j < |img[i]| && Channel(img[i][j], band) == Divisor(img)
  {
    if MaxDiff(img) > 0 {
      MaxDiffAttained(img);
    } else {
      forall i, j | 0 <= i < |img| && 0 <= j < |img[i]| ensures img[i][j] == Black {
        assert Channel(img[i][j], Red) <= 0 && Channel(img[i][j], Green) <= 0 && Channel(img[i][j], Blue) <= 0;
      }
    }
  }

  /** The brightness gain: the one that carries a channel equal to the
      divisor to 255 * scale / 10. */
  function ScaleFactor(divisor: int, scale: int): (f: real)
    requires 1 <= divisor
    ensures f * (divisor as real) == 255.0 * (scale as real) / 10.0
    ensures scale > 0 ==> f > 0.0
    ensures scale == 0 ==> f == 0.0
    ensures scale < 0 ==> f < 0.0
  {
    255.0 / (divisor as real) * (scale as real / 10.0)
  }

  // ---------------------------------------------------------------------------
  // Brightness enhancement (ImageEnhance.Brightness(..).enhance(f))
  // ---------------------------------------------------------------------------

  /** One channel scaled by `f`, clipped to [0,255] and truncated. */
  function Enhance(v: int, f: real): (r: int)
    ensures IsByte(r)
    ensures (v as real) * f <= 0.0 ==> r == 0
    ensures (v as real) * f >= 255.0 ==> r == 255
    ensures 0.0 <= (v as real) * f < 255.0 ==> r as real <= (v as real) * f < r as real + 1.0
  {
    var x := (v as real) * f;
    if x <= 0.0 then 0 else if x >= 255.0 then 255 else x.Floor
  }

  /** For a non-negative gain, brightening never reorders two channel values. */
  lemma EnhanceMonotone(v1: int, v2: int, f: real)
    requires v1 <= v2 && 0.0 <= f
    ensures Enhance(v1, f) <= Enhance(v2, f)
  {
    assert (v2 as real) * f - (v1 as real) * f == ((v2 - v1) as real) * f;
    assert ((v2 - v1) as real) * f >= 0.0;
  }

  function EnhancePixel(p: Rgb, f: real): (q: Rgb)
    ensures PixelInRange(q)
    ensures forall band :: Channel(q, band) == Enhance(Channel(p, band), f)
  {
    Rgb(Enhance(p.r, f), Enhance(p.g, f), Enhance(p.b, f))
  }

  function Brightness(img: Image, f: real): (r: Image)
    ensures SameShape(r, img) && InRange(r)
    ensures forall i, j, band :: 0 <= i < |r| && 0 <= j < |r[i]| ==>
              Channel(r[i][j], band) == Enhance(Channel(img[i][j], band), f)
  {
    seq(|img|, i requires 0 <= i < |img| =>
      seq(|img[i]|, j requires 0 <= j < |img[i]| => EnhancePixel(img[i][j], f)))
  }

  // ---------------------------------------------------------------------------
  // process_ela
  // ---------------------------------------------------------------------------

  /** Steps 4 and 5 of process_ela for a given recompressed raster: the
      result has the original's shape, 8-bit channels, and every pixel where
      the recompression changed nothing is black. */
  function ElaFromRecompressed(original: Image, compressed: Image, scale: int): (r: Image)
    requires SameShape(compressed, original)
    ensures SameShape(r, original) && InRange(r)
    ensures forall i, j :: 0 <= i < |r| && 0 <= j < |r[i]| && original[i][j] == compressed[i][j] ==> r[i][j] == Black
  {
    var diff := Difference(original, compressed);
    Brightness(diff, ScaleFactor(Divisor(diff), scale))
  }

  /** Contract of the JPEG round trip: the JPEG writer refuses a raster
      without pixels, and when the round trip succeeds it keeps the shape and
      the channel range of the raster it is given. */
  ghost predicate IsRecompressor(recompress: (Image, int) -> Result<Image>)
  {
    forall img, quality {:trigger recompress(img, quality)} ::
      && ((|img| == 0 || Width(img) == 0) ==> recompress(img, quality).CodecError?)
      && (Rectangular(img) && InRange(img) && recompress(img, quality).Ok? ==>
            SameShape(recompress(img, quality).value, img) && InRange(recompress(img, quality).value))
  }

  /** process_ela on an RGB raster: a codec failure propagates (a raster
      without pixels always fails there), otherwise the result is the
      normalised difference image, with the input's dimensions and 8-bit
      channels. */
  function ProcessEla(original: Image, quality: int, scale: int,
                      recompress: (Image, int) -> Result<Image>): (r: Result<Image>)
    requires Rectangular(original) && InRange(original)
    requires IsRecompressor(recompress)
    ensures r.CodecError? <==> recompress(original, quality).CodecError?
    ensures |original| == 0 || Width(original) == 0 ==> r.CodecError?
    ensures r.Ok? ==> |r.value| > 0 && Width(r.value) > 0
    ensures r.Ok? ==> Rectangular(r.value) && SameShape(r.value, original) && InRange(r.value)
    ensures r.Ok? ==> r.value == ElaFromRecompressed(original, recompress(original, quality).value, scale)
  {
    match recompress(original, quality)
    case CodecError => CodecError
    case Ok(compressed) => Ok(ElaFromRecompressed(original, compressed, scale))
  }

  // ---------------------------------------------------------------------------
  // Properties of the normalisation
  // ---------------------------------------------------------------------------

  /** Helper: the floor of an exact quotient of naturals is integer division. */
  lemma FloorOfQuotient(n: int, d: int)
    requires 0 <= n && 0 < d
    ensures ((n as real) / (d as real)).Floor == n / d
  {
    var q, rem := n / d, n % d;
    assert n == q * d + rem && 0 <= rem < d;
    assert (n as real) == (q as real) * (d as real) + (rem as real);
    assert (n as real) / (d as real) == (q as real) + (rem as real) / (d as real);
    assert 0.0 <= (rem as real) / (d as real) < 1.0;
  }

  /** Helper: the gain applied to a channel v is the exact quotient
      255*v*scale / (10*divisor). */
  lemma GainAsQuotient(v: int, m: int, scale: int)
    requires 0 <= v && 1 <= m
    ensures (v as real) * ScaleFactor(m, scale) == ((255 * v * scale) as real) / ((10 * m) as real)
  {
    var f := ScaleFactor(m, scale);
    var vr, mr, sr := v as real, m as real, scale as real;
    assert f * mr == 255.0 * sr / 10.0;
    assert vr * f * (10.0 * mr) == 10.0 * vr * (f * mr);
    assert ((255 * v * scale) as real) == 255.0 * vr * sr;
    assert ((10 * m) as real) == 10.0 * mr;
    assert (vr * f) * (10.0 * mr) == ((255 * v * scale) as real);
  }

  /** Helper: brightening by an exact quotient n/d of naturals is min(255, n / d). */
  lemma EnhanceOfQuotient(v: int, f: real, n: int, d: int)
    requires 0 <= n && 0 < d
    requires (v as real) * f == (n as real) / (d as real)
    ensures Enhance(v, f) == Min(255, n / d)
  {
    FloorOfQuotient(n, d);
    var x := (n as real) / (d as real);
    assert 0.0 <= x;
    assert x.Floor as real <= x < x.Floor as real + 1.0;
  }

  /** One channel brightened by the ELA gain, in integers. */
  lemma EnhanceByGain(v: int, m: int, scale: int)
    requires 0 <= v && 1 <= m && 0 <= scale
    ensures Enhance(v, ScaleFactor(m, scale)) == Min(255, (255 * v * scale) / (10 * m))
  {
    var n := 255 * v * scale;
    assert 0 <= n by {
      assert 0 <= 255 * v;
    }
    GainAsQuotient(v, m, scale);
    EnhanceOfQuotient(v, ScaleFactor(m, scale), n, 10 * m);
  }

  /** Every output channel, in integers: with v the difference channel and m
      the guarded max_diff, the output is min(255, floor(255*v*scale / (10*m))). */
  lemma ElaIntegerForm(original: Image, compressed: Image, scale: int, i: int, j: int, band: Band)
    requires SameShape(compressed, original)
    requires 0 <= scale
    requires 0 <= i < |original| && 0 <= j < |original[i]|
    ensures var diff := Difference(original, compressed);
            Channel(ElaFromRecompressed(original, compressed, scale)[i][j], band)
              == Min(255, (255 * Channel(diff[i][j], band) * scale) / (10 * Divisor(diff)))
  {
    var diff := Difference(original, compressed);
    EnhanceByGain(Channel(diff[i][j], band), Divisor(diff), scale);
  }

  /** Brightening preserves the order of error levels (for scale >= 0). */
  lemma ElaMonotone(original: Image, compressed: Image, scale: int,
                    i1: int, j1: int, b1: Band, i2: int, j2: int, b2: Band)
    requires SameShape(compressed, original)
    requires 0 <= scale
    requires 0 <= i1 < |original| && 0 <= j1 < |original[i1]|
    requires 0 <= i2 < |original| && 0 <= j2 < |original[i2]|
    requires var diff := Difference(original, compressed);
             Channel(diff[i1][j1], b1) <= Channel(diff[i2][j2], b2)
    ensures var r := ElaFromRecompressed(original, compressed, scale);
            Channel(r[i1][j1], b1) <= Channel(r[i2][j2], b2)
  {
    var diff := Difference(original, compressed);
    EnhanceMonotone(Channel(diff[i1][j1], b1), Channel(diff[i2][j2], b2), ScaleFactor(Divisor(diff), scale));
  }

  /** Helper: a channel equal to the divisor ends at 255 once scale >= 10. */
  lemma EnhanceDivisor(m: int, scale: int)
    requires 1 <= m && 10 <= scale
    ensures Enhance(m, ScaleFactor(m, scale)) == 255
  {
    var f := ScaleFactor(m, scale);
    assert (m as real) * f == 255.0 * (scale as real) / 10.0;
  }

  /** With scale >= 10 (so also at the default 10), every channel equal to a
      non-zero max_diff is brightened to full white. */
  lemma ElaMaxSaturates(original: Image, compressed: Image, scale: int, i: int, j: int, band: Band)
    requires SameShape(compressed, original)
    requires 10 <= scale
    requires 0 <= i < |original| && 0 <= j < |original[i]|
    requires var diff := Difference(original, compressed);
             0 < MaxDiff(diff) == Channel(diff[i][j], band)
    ensures Channel(ElaFromRecompressed(original, compressed, scale)[i][j], band) == 255
  {
    var diff := Difference(original, compressed);
    EnhanceDivisor(Divisor(diff), scale);
  }

  /** An original that survives recompression unchanged gives an all-black
      result, whatever the scale (the guard keeps the division defined). */
  lemma ElaOfFixedPoint(original: Image, scale: int)
    requires Rectangular(original)
    ensures ElaFromRecompressed(original, original, scale) == Uniform(original, Black)
  {
    var r, u := ElaFromRecompressed(original, original, scale), Uniform(original, Black);
    forall i | 0 <= i < |r| ensures r[i] == u[i] {
      assert |r[i]| == |u[i]|;
    }
  }
}
