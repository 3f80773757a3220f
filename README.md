# ELA Mate: Error Level Analysis and heatmap overlay, modelled in Dafny

ELA Mate looks for edits in a photo. Its analysis core has two functions:

- `process_ela` (src/ela.py) saves the RGB image as a JPEG at a chosen
  quality and loads it back. It takes the per-channel absolute difference
  between the original and the reloaded copy. It finds the largest channel
  value of that difference (`max_diff`), replacing 0 by 1. It then brightens
  the difference by `255 / max_diff * (scale / 10)`, clamped to 8 bits.
- `generate_heatmap` (src/analysis.py) turns the ELA image into a detection
  mask and blends pure red into the original where the mask is set. The
  steps are: gray conversion; binary threshold at
  `clamp(255 - int(sensitivity * 2.5), 10, 250)`; closing with a 5x5
  all-ones kernel; Gaussian blur; division by 255; and the blend
  `original * (1 - opacity*mask) + red * (opacity*mask)`.

The model has three modules:

- `Raster` (raster.dfy): pixels (`Rgb`) and bands, images as
  `seq<seq<Rgb>>`, single-channel grids as `seq<seq<int>>`, shape and
  range predicates, and a `Result` type for codec failures.
- `Ela` (ela.py's `process_ela`): pure functions and lemmas.
- `Analysis` (analysis.py's `generate_heatmap`): functions for the
  whole-array expressions. The heatmap is a method that fills an
  `array2<Rgb>` in place, setting the red channel of a zero image to 255.
  `GenerateHeatmap` is the method that runs the whole pipeline.

Library primitives the model cannot see are function parameters. Each one
carries only the contract the model needs:

- the JPEG save/reload round trip is `recompress: (Image, int) -> Result<Image>`.
  It fails on a raster without pixels, as Pillow's JPEG writer does. When it
  succeeds it keeps the shape and the 8-bit range (`Ela.IsRecompressor`).
- `cv2.cvtColor(.., COLOR_RGB2GRAY)` is `toGray: Rgb -> int`, with no contract.
- `cv2.GaussianBlur` is `blur: Grid -> Grid`. It keeps the shape and the
  8-bit range (`Analysis.IsSmoothing`).

Arithmetic is exact: `real` for the gain, the normalised mask and the blend.
The truncating casts are written out: Pillow's brightness blend truncates
after clipping to [0,255], and `np.uint8` truncates the blended floats,
which are already in range. Both become `.Floor` of a non-negative real.
`int(sensitivity * 2.5)` truncates toward zero; the model writes this out
for every integer sensitivity, negative ones included.

## Model

| member | source | states |
|---|---|---|
| `Ela.Difference` | src/ela.py:20 | The difference image has the original's shape. Each channel is the absolute difference of the two inputs' channels. A pixel is black exactly when the two input pixels are equal. 8-bit inputs give an 8-bit result. |
| `Ela.DifferenceSymmetric` | src/ela.py:20 | Swapping the two images gives the same difference image. |
| `Ela.RowBandMax` | src/ela.py:23 | The band maximum of a row is at least every value of that band in the row. It is non-negative, and it is at most 255 when the band's values are. |
| `Ela.BandMax` | src/ela.py:23 | One band's `getextrema` maximum is at least that band's value at every pixel. It is non-negative, and it is at most 255 for an 8-bit image. |
| `Ela.MaxDiff` | src/ela.py:23-24 | `max_diff` (the maximum over the three band maxima) is at least every channel of every pixel, and it lies in [0,255] for an 8-bit image. |
| `Ela.RowBandMaxAttained` | src/ela.py:23 | A positive row band maximum is the value of that band at some pixel of the row. |
| `Ela.BandMaxAttained` | src/ela.py:23 | A positive band maximum is the value of that band at some pixel of the image. |
| `Ela.MaxDiffAttained` | src/ela.py:23-24 | A positive `max_diff` equals some channel of some pixel. |
| `Ela.Divisor` | src/ela.py:26-27 | After the zero guard `max_diff` is at least 1. It still bounds every channel. It equals the unguarded maximum when that is positive, and it is 1 when that is 0. |
| `Ela.DivisorAttained` | src/ela.py:23-27 | For an 8-bit difference image the guarded `max_diff` has two cases. Either it was forced to 1 and the image is all black, or it equals one of the image's channel values. |
| `Ela.ScaleFactor` | src/ela.py:29 | The gain times the divisor is `255 * scale / 10`: a channel equal to `max_diff` goes to `25.5 * scale`. The gain is positive, zero or negative as `scale` is. |
| `Ela.Enhance` | src/ela.py:30 | A brightened channel is an 8-bit value. It is 0 when `v*f <= 0`, 255 when `v*f >= 255`, and otherwise the integer part of `v*f`. |
| `Ela.EnhanceMonotone` | src/ela.py:30 | For a non-negative gain, brightening preserves the order of channel values. |
| `Ela.Brightness` | src/ela.py:30 | `enhance` keeps the shape and yields 8-bit channels. Each channel is the brightened input channel. |
| `Ela.ElaFromRecompressed` | src/ela.py:20-30 | Given the reloaded JPEG, the ELA image has the original's shape and 8-bit channels. It is black at every pixel the recompression left unchanged, for every scale, thanks to the guard. |
| `Ela.ProcessEla` | src/ela.py:4-32 | `process_ela` fails exactly when the codec fails, and it always fails on a raster without pixels. Otherwise it returns a non-empty rectangular 8-bit image of the input's size, namely the ELA image of the reloaded raster. |
| `Ela.EnhanceByGain` | src/ela.py:29-30 | A channel `v` brightened by the gain for divisor `m` is `min(255, (255*v*scale) / (10*m))` in integer arithmetic. |
| `Ela.ElaIntegerForm` | src/ela.py:23-30 | For `scale >= 0`, each ELA output channel is `min(255, (255*v*scale) / (10*m))`. Here `v` is the difference channel and `m` the guarded `max_diff`. |
| `Ela.ElaMonotone` | src/ela.py:29-30 | For `scale >= 0`, a larger difference channel never gives a smaller output channel, across pixels and bands. |
| `Ela.ElaMaxSaturates` | src/ela.py:29-30 | For `scale >= 10`, including the default 10, a channel equal to a positive `max_diff` becomes 255. |
| `Ela.ElaOfFixedPoint` | src/ela.py:20-30 | If recompression changes nothing, the result is an all-black image of the same shape. |
| `Analysis.SensitivityOffset` | src/analysis.py:18 | `int(s * 2.5)` is the integer that `s * 2.5` truncates to toward zero, for every integer `s`. |
| `Analysis.Threshold` | src/analysis.py:18-19 | The threshold is always in [10,250]. Strictly inside that range it is `255 - int(s*2.5)`. It is 250 or 10 only when the clamp applies. |
| `Analysis.SensitivityOffsetMonotone` | src/analysis.py:18 | `int(s * 2.5)` is non-decreasing in `s`. |
| `Analysis.ThresholdAntitone` | src/analysis.py:17-19 | Higher sensitivity never raises the threshold. |
| `Analysis.BinaryThreshold` | src/analysis.py:21 | The mask has the gray image's shape and holds only 0 and 255. A cell is 255 exactly when its gray value is strictly above the threshold. |
| `Analysis.BinaryThresholdAntitone` | src/analysis.py:21 | A lower threshold sets every pixel that a higher one sets. |
| `Analysis.Dilate` | src/analysis.py:25-26 | Dilation keeps the shape and gives a 0/255 mask. A cell is set exactly when some in-grid cell within 2 rows and 2 columns of it is set. |
| `Analysis.Erode` | src/analysis.py:25-26 | Erosion keeps the shape and gives a 0/255 mask. A cell is set exactly when every in-grid cell within 2 rows and 2 columns of it is set. |
| `Analysis.Close` | src/analysis.py:25-26 | Closing keeps the shape and gives a 0/255 mask. |
| `Analysis.DilateExtensive` | src/analysis.py:25-26 | Dilation only adds pixels. |
| `Analysis.CloseExtensive` | src/analysis.py:25-26 | Closing only adds pixels ("fill holes"): every pixel set before it is still set after it. |
| `Analysis.DilateMonotone` | src/analysis.py:25-26 | A larger mask dilates to a larger mask. |
| `Analysis.ErodeMonotone` | src/analysis.py:25-26 | A larger mask erodes to a larger mask. |
| `Analysis.CloseMonotone` | src/analysis.py:25-26 | A larger mask closes to a larger mask. |
| `Analysis.DilateErodeShrinks` | src/analysis.py:25-26 | Dilating the erosion of a mask gives a subset of that mask. |
| `Analysis.CloseIdempotent` | src/analysis.py:25-26 | Closing a closed mask leaves it unchanged. |
| `Analysis.HigherSensitivityDetectsMore` | src/analysis.py:17-26 | Raising the sensitivity only grows the cleaned-up detection mask. |
| `Analysis.GrayImage` | src/analysis.py:14 | The gray image has the ELA image's shape, with the gray formula applied at each pixel. |
| `Analysis.Normalize` | src/analysis.py:34 | `mask / 255.0` keeps the shape and lies in [0,1] for an 8-bit mask. It is 0 exactly where the mask is 0, and 1 exactly where it is 255. |
| `Analysis.MaskWeights` | src/analysis.py:13-35 | The blend weight from threshold, closing, blur and normalisation has the ELA image's shape and lies in [0,1]. |
| `Analysis.RedHeatmap` | src/analysis.py:30-31 | The heatmap has the original's height and width, and every pixel is (255,0,0). |
| `Analysis.BlendChannel` | src/analysis.py:38-41 | A blended, truncated channel lies between the original and heatmap channels. Weight 0 gives the original channel; weight 1 gives the heatmap channel. |
| `Analysis.BlendPixel` | src/analysis.py:38-39 | Every band of a blended pixel lies between the original's and the heatmap's. Weight 0 gives the original pixel; weight 1 gives the heatmap pixel. |
| `Analysis.Blend` | src/analysis.py:34-41 | The blend has the original's shape. Every channel lies between the original's and the heatmap's. A pixel with `opacity*mask == 0` is the original pixel; one with `opacity*mask == 1` is the heatmap pixel. |
| `Analysis.BlendInRange` | src/analysis.py:38-41 | Blending two 8-bit images gives an 8-bit image. |
| `Analysis.BlendOpacityZero` | src/analysis.py:38-39 | Opacity 0 reproduces the original exactly. |
| `Analysis.GenerateHeatmap` | src/analysis.py:5-41 | The overlay has the original's shape and 8-bit channels, and it is the blend of red into the original. Opacity 0 returns the original. Each pixel's red channel only rises, and its green and blue channels only fall. |

## Left out

- RGB conversion (`convert('RGB')`, src/ela.py:9, src/analysis.py:10-11): inputs are modelled as RGB rasters already. Other image modes are not modelled.
- The JPEG encode/decode through `io.BytesIO` (src/ela.py:12-17) is a foreign codec. It is the `recompress` parameter, and its failure is the `CodecError` result.
- The RGB-to-gray coefficients (src/analysis.py:14) and the 15x15 Gaussian kernel (src/analysis.py:27) are library internals. They are the `toGray` and `blur` parameters.
- Floating point: the gain, the normalised mask and the blend use exact `real` arithmetic. In float32, a channel equal to `max_diff` at scale 10 could truncate to 254 instead of 255; the model does not capture that.
- Pillow's internal brightness formula is taken to be "clip to [0,255], then truncate". Its float32 evaluation is not modelled.
- `Analysis.Threshold`: sensitivity is modelled as an integer. A fractional sensitivity from a float slider is not modelled.
- `Analysis.GenerateHeatmap`: requires a non-empty original (at least one row and one column) and `0 <= opacity <= 1` (the same opacity and weight bounds are required by `Analysis.Blend` and `Analysis.BlendChannel`). On an empty raster `cv2.cvtColor` raises (src/analysis.py:14); outside [0,1] the blended floats leave [0,255] and `np.uint8` (src/analysis.py:41) wraps them, which the model does not capture. The callers produce only non-empty images and keep the opacity in [0,1].
- `Analysis.GenerateHeatmap`: requires the ELA image to have the original's shape; the ELA image is derived from the original, so this holds in practice. With other shapes numpy broadcasts or raises, and the model leaves that out.
- `Analysis.Dilate` and `Analysis.Erode` are stated for 0/255 masks, the only masks the threshold produces. On such masks, OpenCV's maximum/minimum is "any set" / "all set".
- `Ela.Difference` requires equal shapes. `ImageChops.difference` crops to the smaller size, but the recompressed image always has the original's size.
- An image without pixels never reaches the maximum: Pillow's JPEG writer refuses it (src/ela.py:13), which the model expresses as `CodecError` in every case. `Ela.BandMax` still returns 0 for such an image, but `process_ela` never applies it to one.
- The page in app.py (sliders, uploader, display) is UI. The slider ranges (quality 50-100, scale 1-100, app.py:14-15) are not preconditions: `process_ela` itself accepts any value. The lemmas state the scale they need (`scale >= 0`, `scale >= 10`).
- Delta ELA, noise-variance detection, quantization-table quality estimation, split-view compositing and denoising belong to the wider system. None of them has code in src/ela.py or src/analysis.py, so none is modelled.
