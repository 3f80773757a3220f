/** Heatmap overlay (src/analysis.py, generate_heatmap): the ELA image is
    reduced to gray, thresholded at a level derived from the sensitivity,
    cleaned by a 5x5 morphological closing, softened by a Gaussian blur, and
    the resulting weight blends pure red into the original.

    Gray conversion and the Gaussian blur are function parameters; the blur
    is only assumed to keep the shape and the 8-bit range. */
module Analysis {
  import opened Raster

  // ---------------------------------------------------------------------------
  // Threshold from sensitivity
  // ---------------------------------------------------------------------------

  /** int(sensitivity * 2.5): the exact product 5*s/2, truncated toward zero. */
  function SensitivityOffset(s: int): (k: int)
    ensures 0 <= s ==> (k as real) <= (s as real) * 2.5 < (k as real) + 1.0
    ensures s < 0 ==> (k as real) - 1.0 < (s as real) * 2.5 <= (k as real)
  {
    if 0 <= s then (5 * s) / 2 else -((-5 * s) / 2)
  }

  const MinThreshold := 10
  const MaxThreshold := 250

  /** 255 - int(sensitivity * 2.5), clamped into [10, 250]. */
  function Threshold(sensitivity: int): (t: int)
    ensures MinThreshold <= t <= MaxThreshold
    ensures MinThreshold < t < MaxThreshold ==> t == 255 - SensitivityOffset(sensitivity)
    ensures t == MaxThreshold ==> 255 - SensitivityOffset(sensitivity) >= MaxThreshold
    ensures t == MinThreshold ==> 255 - SensitivityOffset(sensitivity) <= MinThreshold
  {
    var t := 255 - SensitivityOffset(sensitivity);
    Max(MinThreshold, Min(MaxThreshold, t))
  }

  lemma SensitivityOffsetMonotone(s1: int, s2: int)
    requires s1 <= s2
    ensures SensitivityOffset(s1) <= SensitivityOffset(s2)
  {
    if 0 <= s1 {
      assert 5 * s1 <= 5 * s2;
    } else if s2 < 0 {
      assert -5 * s2 <= -5 * s1;
    } else {
      assert SensitivityOffset(s1) <= 0 <= SensitivityOffset(s2);
    }
  }

  /** Higher sensitivity never raises the threshold: it detects more. */
  lemma ThresholdAntitone(s1: int, s2: int)
    requires s1 <= s2
    ensures Threshold(s2) <= Threshold(s1)
  {
    SensitivityOffsetMonotone(s1, s2);
  }

  // ---------------------------------------------------------------------------
  // Binary masks (cv2.threshold with THRESH_BINARY, maxval 255)
  // ---------------------------------------------------------------------------

  /** Every cell is 0 or 255. */
  predicate Binary(m: Grid)
  {
    forall i, j :: 0 <= i < |m| && 0 <= j < |m[i]| ==> m[i][j] == 0 || m[i][j] == 255
  }

  /** `big` has the shape of `small` and is set wherever `small` is. */
  predicate Covers(small: Grid, big: Grid)
  {
    SameShape(small, big) &&
    forall i, j :: 0 <= i < |small| && 0 <= j < |small[i]| && small[i][j] == 255 ==> big[i][j] == 255
  }

  /** 255 where the gray value is strictly above the threshold, 0 elsewhere. */
  function BinaryThreshold(gray: Grid, t: int): (mask: Grid)
    ensures SameShape(mask, gray) && Binary(mask)
    ensures forall i, j :: 0 <= i < |mask| && 0 <= j < |mask[i]| ==> (mask[i][j] == 255 <==> gray[i][j] > t)
  {
    seq(|gray|, i requires 0 <= i < |gray| =>
      seq(|gray[i]|, j requires 0 <= j < |gray[i]| => if gray[i][j] > t then 255 else 0))
  }

  /** A lower threshold sets every pixel a higher one sets. */
  lemma BinaryThresholdAntitone(gray: Grid, t1: int, t2: int)
    requires t2 <= t1
    ensures Covers(BinaryThreshold(gray, t1), BinaryThreshold(gray, t2))
  {
  }

  // ---------------------------------------------------------------------------
  // Morphological closing with the 5x5 all-ones kernel
  // ---------------------------------------------------------------------------

  /** Half the side of the 5x5 kernel, anchored at its centre. */
  const Radius := 2

  /** Some in-grid cell of the window centred on (i, j) is set. Pixels outside
      the grid take no part, as with OpenCV's default morphology border. */
  predicate AnySetNear(m: Grid, i: int, j: int)
  {
    exists a, b :: i - Radius <= a <= i + Radius && j - Radius <= b <= j + Radius &&
                   0 <= a < |m| && 0 <= b < |m[a]| && m[a][b] == 255
  }

  /** Every in-grid cell of the window centred on (i, j) is set. */
  predicate AllSetNear(m: Grid, i: int, j: int)
  {
    forall a, b ::
      (i - Radius <= a <= i + Radius && j - Radius <= b <= j + Radius && 0 <= a < |m| && 0 <= b < |m[a]|)
        ==> m[a][b] == 255
  }

  /** Dilation of a 0/255 mask: the maximum over the window. */
  function Dilate(m: Grid): (r: Grid)
    ensures SameShape(r, m) && Binary(r)
    ensures forall i, j :: 0 <= i < |r| && 0 <= j < |r[i]| ==> (r[i][j] == 255 <==> AnySetNear(m, i, j))
  {
    seq(|m|, i requires 0 <= i < |m| =>
      seq(|m[i]|, j requires 0 <= j < |m[i]| => if AnySetNear(m, i, j) then 255 else 0))
  }

  /** Erosion of a 0/255 mask: the minimum over the window. */
  function Erode(m: Grid): (r: Grid)
    ensures SameShape(r, m) && Binary(r)
    ensures forall i, j :: 0 <= i < |r| && 0 <= j < |r[i]| ==> (r[i][j] == 255 <==> AllSetNear(m, i, j))
  {
    seq(|m|, i requires 0 <= i < |m| =>
      seq(|m[i]|, j requires 0 <= j < |m[i]| => if AllSetNear(m, i, j) then 255 else 0))
  }

  /** cv2.MORPH_CLOSE: dilate, then erode, with the same kernel. */
  function Close(m: Grid): (r: Grid)
    ensures SameShape(r, m) && Binary(r)
  {
    Erode(Dilate(m))
  }

  /** Dilation only adds pixels. */
  lemma DilateExtensive(m: Grid)
    ensures Covers(m, Dilate(m))
  {
    var d := Dilate(m);
    forall i, j | 0 <= i < |m| && 0 <= j < |m[i]| && m[i][j] == 255 ensures d[i][j] == 255 {
      assert i - Radius <= i <= i + Radius && j - Radius <= j <= j + Radius;
    }
  }

  /** Closing only adds pixels: every detected pixel survives the clean-up. */
  lemma CloseExtensive(m: Grid)
    ensures Covers(m, Close(m))
  {
    var d := Dilate(m);
    var c := Erode(d);
    forall i, j | 0 <= i < |m| && 0 <= j < |m[i]| && m[i][j] == 255 ensures c[i][j] == 255 {
      forall a, b | i - Radius <= a <= i + Radius && j - Radius <= b <= j + Radius && 0 <= a < |d| && 0 <= b < |d[a]|
        ensures d[a][b] == 255
      {
        assert a - Radius <= i <= a + Radius && b - Radius <= j <= b + Radius && m[i][j] == 255;
      }
    }
  }

  lemma DilateMonotone(m1: Grid, m2: Grid)
    requires Covers(m1, m2)
    ensures Covers(Dilate(m1), Dilate(m2))
  {
    var d1, d2 := Dilate(m1), Dilate(m2);
    forall i, j | 0 <= i < |d1| && 0 <= j < |d1[i]| && d1[i][j] == 255 ensures d2[i][j] == 255 {
      var a, b :| i - Radius <= a <= i + Radius && j - Radius <= b <= j + Radius &&
                  0 <= a < |m1| && 0 <= b < |m1[a]| && m1[a][b] == 255;
      assert m2[a][b] == 255;
    }
  }

  lemma ErodeMonotone(m1: Grid, m2: Grid)
    requires Covers(m1, m2)
    ensures Covers(Erode(m1), Erode(m2))
  {
    var e1, e2 := Erode(m1), Erode(m2);
    forall i, j | 0 <= i < |e1| && 0 <= j < |e1[i]| && e1[i][j] == 255 ensures e2[i][j] == 255 {
      forall a, b | i - Radius <= a <= i + Radius && j - Radius <= b <= j + Radius && 0 <= a < |m2| && 0 <= b < |m2[a]|
        ensures m2[a][b] == 255
      {
        assert m1[a][b] == 255;
      }
    }
  }

  /** A larger mask closes to a larger mask. */
  lemma CloseMonotone(m1: Grid, m2: Grid)
    requires Covers(m1, m2)
    ensures Covers(Close(m1), Close(m2))
  {
    DilateMonotone(m1, m2);
    ErodeMonotone(Dilate(m1), Dilate(m2));
  }

  /** Dilating the erosion of a mask stays inside that mask. */
  lemma DilateErodeShrinks(y: Grid)
    ensures Covers(Dilate(Erode(y)), y)
  {
    var e := Erode(y);
    var d := Dilate(e);
    forall i, j | 0 <= i < |d| && 0 <= j < |d[i]| && d[i][j] == 255 ensures y[i][j] == 255 {
      var a, b :| i - Radius <= a <= i + Radius && j - Radius <= b <= j + Radius &&
                  0 <= a < |e| && 0 <= b < |e[a]| && e[a][b] == 255;
      assert AllSetNear(y, a, b);
      assert a - Radius <= i <= a + Radius && b - Radius <= j <= b + Radius;
    }
  }

  /** Two binary masks of one shape that cover each other are equal. */
  lemma CoversAntisymmetric(m1: Grid, m2: Grid)
    requires Binary(m1) && Binary(m2) && Covers(m1, m2) && Covers(m2, m1)
    ensures m1 == m2
  {
    forall i | 0 <= i < |m1| ensures m1[i] == m2[i] {
      forall j | 0 <= j < |m1[i]| ensures m1[i][j] == m2[i][j] {
        if m1[i][j] == 0 {
          assert m2[i][j] != 255;
        }
      }
    }
  }

  /** Closing a closed mask changes nothing. */
  lemma CloseIdempotent(m: Grid)
    ensures Close(Close(m)) == Close(m)
  {
    var d := Dilate(m);
    CloseExtensive(Close(m));
    DilateErodeShrinks(d);
    ErodeMonotone(Dilate(Erode(d)), d);
    CoversAntisymmetric(Close(Close(m)), Close(m));
  }

  /** Raising sensitivity only grows the cleaned-up detection mask. */
  lemma HigherSensitivityDetectsMore(gray: Grid, s1: int, s2: int)
    requires s1 <= s2
    ensures Covers(Close(BinaryThreshold(gray, Threshold(s1))), Close(BinaryThreshold(gray, Threshold(s2))))
  {
    ThresholdAntitone(s1, s2);
    BinaryThresholdAntitone(gray, Threshold(s1), Threshold(s2));
    CloseMonotone(BinaryThreshold(gray, Threshold(s1)), BinaryThreshold(gray, Threshold(s2)));
  }

  // ---------------------------------------------------------------------------
  // Gray conversion, blur and normalisation
  // ---------------------------------------------------------------------------

  /** cv2.cvtColor(.., COLOR_RGB2GRAY), with the pixel formula as a parameter. */
  function GrayImage(img: Image, toGray: Rgb -> int): (g: Grid)
    ensures SameShape(g, img)
    ensures forall i, j :: 0 <= i < |g| && 0 <= j < |g[i]| ==> g[i][j] == toGray(img[i][j])
  {
    seq(|img|, i requires 0 <= i < |img| =>
      seq(|img[i]|, j requires 0 <= j < |img[i]| => toGray(img[i][j])))
  }

  /** Contract of the Gaussian blur: shape and 8-bit range are kept. */
  ghost predicate IsSmoothing(blur: Grid -> Grid)
  {
    forall g {:trigger blur(g)} :: Bytes(g) ==> SameShape(blur(g), g) && Bytes(blur(g))
  }

  predicate UnitWeights(w: seq<seq<real>>)
  {
    forall i, j :: 0 <= i < |w| && 0 <= j < |w[i]| ==> 0.0 <= w[i][j] <= 1.0
  }

  /** The blurred mask scaled from [0,255] to [0,1]. */
  function Normalize(g: Grid): (w: seq<seq<real>>)
    ensures SameShape(w, g)
    ensures Bytes(g) ==> UnitWeights(w)
    ensures forall i, j :: 0 <= i < |w| && 0 <= j < |w[i]| ==> (w[i][j] == 0.0 <==> g[i][j] == 0)
    ensures forall i, j :: 0 <= i < |w| && 0 <= j < |w[i]| ==> (w[i][j] == 1.0 <==> g[i][j] == 255)
  {
    seq(|g|, i requires 0 <= i < |g| =>
      seq(|g[i]|, j requires 0 <= j < |g[i]| => (g[i][j] as real) / 255.0))
  }

  /** The per-pixel blend weight of generate_heatmap before the opacity. */
  function MaskWeights(ela: Image, sensitivity: int, toGray: Rgb -> int, blur: Grid -> Grid): (w: seq<seq<real>>)
    requires IsSmoothing(blur)
    ensures SameShape(w, ela) && UnitWeights(w)
  {
    var mask := Close(BinaryThreshold(GrayImage(ela, toGray), Threshold(sensitivity)));
    assert Bytes(mask);
    Normalize(blur(mask))
  }

  // ---------------------------------------------------------------------------
  // The red heatmap: a zero image whose red channel is then set to 255
  // ---------------------------------------------------------------------------

  /** A zero image of the original's size whose red channel is then set to 255. */
  method RedHeatmap(original: Image) returns (heat: array2<Rgb>)
    ensures heat.Length0 == |original| && heat.Length1 == Width(original)
    ensures forall i, j :: 0 <= i < heat.Length0 && 0 <= j < heat.Length1 ==> heat[i, j] == PureRed
  {
    var h, w := |original|, Width(original);
    heat := new Rgb[h, w]((_, _) => Black);
    var i := 0;
    while i < h
      invariant 0 <= i <= h
      invariant forall a, b :: 0 <= a < i && 0 <= b < w ==> heat[a, b] == PureRed
      invariant forall a, b :: i <= a < h && 0 <= b < w ==> heat[a, b] == Black
    {
      var j := 0;
      while j < w
        invariant 0 <= j <= w
        invariant forall a, b :: 0 <= a < i && 0 <= b < w ==> heat[a, b] == PureRed
        invariant forall b :: 0 <= b < j ==> heat[i, b] == PureRed
        invariant forall a, b :: i <= a < h && 0 <= b < w && (a > i || b >= j) ==> heat[a, b] == Black
      {
        heat[i, j] := heat[i, j].(r := 255);
        j := j + 1;
      }
      i := i + 1;
    }
  }

  /** The pixels of a two-dimensional array as rows. */
  function ToImage(a: array2<Rgb>): (img: Image)
    reads a
    ensures |img| == a.Length0
    ensures forall i :: 0 <= i < |img| ==> |img[i]| == a.Length1
    ensures forall i, j :: 0 <= i < a.Length0 && 0 <= j < a.Length1 ==> img[i][j] == a[i, j]
  {
    seq(a.Length0, i requires 0 <= i < a.Length0 reads a =>
      seq(a.Length1, j requires 0 <= j < a.Length1 reads a => a[i, j]))
  }

  // ---------------------------------------------------------------------------
  // The convex blend of the heatmap into the original, weighted by opacity * mask
  // ---------------------------------------------------------------------------

  /** Helper: scaling a non-negative real by a unit factor keeps it in [0, x]. */
  lemma ScaleByUnit(x: real, w: real)
    requires 0.0 <= x && 0.0 <= w <= 1.0
    ensures 0.0 <= x * w <= x
  {
    assert x * w <= x * 1.0 by {
      assert x * (1.0 - w) >= 0.0;
    }
  }

  /** Helper: the exact blend o*(1-w) + h*w of two channels lies between them,
      and is o at weight 0 and h at weight 1. */
  lemma BlendBounds(o: int, h: int, w: real, x: real)
    requires 0.0 <= w <= 1.0 && x == (o as real) * (1.0 - w) + (h as real) * w
    ensures Min(o, h) as real <= x <= Max(o, h) as real
    ensures w == 0.0 ==> x == o as real
    ensures w == 1.0 ==> x == h as real
  {
    var d := (h - o) as real;
    var t := d * w;
    assert x == (o as real) + t;
    if o <= h {
      ScaleByUnit(d, w);
    } else {
      ScaleByUnit(-d, w);
      assert (-d) * w == -t;
    }
  }

  /** Helper: the integer part of a real between two integers lies between them. */
  lemma FloorBetween(x: real, lo: int, hi: int)
    requires lo as real <= x <= hi as real
    ensures lo <= x.Floor <= hi
  {
  }

  /** One channel of the blend, truncated to an integer as np.uint8 does. */
  function BlendChannel(o: int, h: int, w: real): (v: int)
    requires 0.0 <= w <= 1.0
    ensures Min(o, h) <= v <= Max(o, h)
    ensures w == 0.0 ==> v == o
    ensures w == 1.0 ==> v == h
  {
    var x := (o as real) * (1.0 - w) + (h as real) * w;
    BlendBounds(o, h, w, x);
    FloorBetween(x, Min(o, h), Max(o, h));
    x.Floor
  }

  function BlendPixel(o: Rgb, h: Rgb, w: real): (p: Rgb)
    requires 0.0 <= w <= 1.0
    ensures forall band :: Min(Channel(o, band), Channel(h, band)) <= Channel(p, band) <= Max(Channel(o, band), Channel(h, band))
    ensures w == 0.0 ==> p == o
    ensures w == 1.0 ==> p == h
  {
    Rgb(BlendChannel(o.r, h.r, w), BlendChannel(o.g, h.g, w), BlendChannel(o.b, h.b, w))
  }

  /** Helper: the blend weight opacity * mask lies in [0, 1]. */
  function Weight(opacity: real, m: real): (w: real)
    requires 0.0 <= opacity <= 1.0 && 0.0 <= m <= 1.0
    ensures w == opacity * m && 0.0 <= w <= 1.0
  {
    ScaleByUnit(opacity, m);
    opacity * m
  }

  /** The blended image: each channel lies between the original's and the
      heatmap's; a pixel with zero weight is the original's, a pixel with
      full weight the heatmap's. */
  function Blend(original: Image, heat: Image, mask: seq<seq<real>>, opacity: real): (r: Image)
    requires SameShape(heat, original) && SameShape(mask, original) && UnitWeights(mask)
    requires 0.0 <= opacity <= 1.0
    ensures SameShape(r, original)
    ensures forall i, j, band :: 0 <= i < |r| && 0 <= j < |r[i]| ==>
              Min(Channel(original[i][j], band), Channel(heat[i][j], band)) <= Channel(r[i][j], band)
              <= Max(Channel(original[i][j], band), Channel(heat[i][j], band))
    ensures forall i, j :: 0 <= i < |r| && 0 <= j < |r[i]| && opacity * mask[i][j] == 0.0 ==> r[i][j] == original[i][j]
    ensures forall i, j :: 0 <= i < |r| && 0 <= j < |r[i]| && opacity * mask[i][j] == 1.0 ==> r[i][j] == heat[i][j]
  {
    seq(|original|, i requires 0 <= i < |original| =>
      seq(|original[i]|, j requires 0 <= j < |original[i]| =>
        BlendPixel(original[i][j], heat[i][j], Weight(opacity, mask[i][j]))))
  }

  /** Blending two 8-bit images gives an 8-bit image. */
  lemma BlendInRange(original: Image, heat: Image, mask: seq<seq<real>>, opacity: real)
    requires SameShape(heat, original) && SameShape(mask, original) && UnitWeights(mask)
    requires 0.0 <= opacity <= 1.0
    requires InRange(original) && InRange(heat)
    ensures InRange(Blend(original, heat, mask, opacity))
  {
  }

  /** Opacity 0 reproduces the original exactly. */
  lemma BlendOpacityZero(original: Image, heat: Image, mask: seq<seq<real>>)
    requires SameShape(heat, original) && SameShape(mask, original) && UnitWeights(mask)
    ensures Blend(original, heat, mask, 0.0) == original
  {
    var r := Blend(original, heat, mask, 0.0);
    forall i | 0 <= i < |r| ensures r[i] == original[i] {
      forall j | 0 <= j < |r[i]| ensures r[i][j] == original[i][j] {
        assert 0.0 * mask[i][j] == 0.0;
      }
    }
  }

  // ---------------------------------------------------------------------------
  // generate_heatmap
  // ---------------------------------------------------------------------------

  /** generate_heatmap: the original with pure red blended in wherever the
      cleaned-up ELA detection mask is set, in proportion to the opacity. */
  method GenerateHeatmap(originalImage: Image, elaImage: Image, sensitivity: int, opacity: real,
                         toGray: Rgb -> int, blur: Grid -> Grid) returns (blended: Image)
    requires Rectangular(originalImage) && InRange(originalImage)
    requires |originalImage| > 0 && Width(originalImage) > 0
    requires SameShape(elaImage, originalImage)
    requires 0.0 <= opacity <= 1.0
    requires IsSmoothing(blur)
    ensures SameShape(blended, originalImage) && InRange(blended)
    ensures blended == Blend(originalImage, Uniform(originalImage, PureRed),
                             MaskWeights(elaImage, sensitivity, toGray, blur), opacity)
    ensures opacity == 0.0 ==> blended == originalImage
    ensures forall i, j :: 0 <= i < |blended| && 0 <= j < |blended[i]| ==>
              originalImage[i][j].r <= blended[i][j].r &&
              blended[i][j].g <= originalImage[i][j].g &&
              blended[i][j].b <= originalImage[i][j].b
  {
    var grayEla := GrayImage(elaImage, toGray);
    var thresholdValue := Threshold(sensitivity);
    var mask := BinaryThreshold(grayEla, thresholdValue);
    mask := Close(mask);
    assert Bytes(mask);
    mask := blur(mask);
    var heatmap := RedHeatmap(originalImage);
    var maskNormalized := Normalize(mask);
    var heat := ToImage(heatmap);
    assert heat == Uniform(originalImage, PureRed) by {
      var u := Uniform(originalImage, PureRed);
      forall i | 0 <= i < |heat| ensures heat[i] == u[i] {
        assert |heat[i]| == |u[i]|;
      }
    }
    blended := Blend(originalImage, heat, maskNormalized, opacity);
    BlendInRange(originalImage, heat, maskNormalized, opacity);
    if opacity == 0.0 {
      BlendOpacityZero(originalImage, heat, maskNormalized);
    }
    forall i, j | 0 <= i < |blended| && 0 <= j < |blended[i]|
      ensures originalImage[i][j].r <= blended[i][j].r && blended[i][j].g <= originalImage[i][j].g &&
              blended[i][j].b <= originalImage[i][j].b
    {
      assert Channel(heat[i][j], Red) == 255 && Channel(heat[i][j], Green) == 0 && Channel(heat[i][j], Blue) == 0;
      assert Min(Channel(originalImage[i][j], Red), 255) <= Channel(blended[i][j], Red);
      assert Channel(blended[i][j], Green) <= Max(Channel(originalImage[i][j], Green), 0);
      assert Channel(blended[i][j], Blue) <= Max(Channel(originalImage[i][j], Blue), 0);
    }
  }
}
