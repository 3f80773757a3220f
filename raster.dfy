/** Rasters shared by the ELA and heatmap models: 8-bit RGB pixels laid out
    as rows of pixels, single-channel grids, and the shape predicates that
    every stage of the pipeline keeps. */
module Raster {

  /** One RGB pixel; a well-formed pixel has every channel in [0,255]. */
  datatype Rgb = Rgb(r: int, g: int, b: int)

  /** The three bands of an RGB image, in the order Pillow reports them. */
  datatype Band = Red | Green | Blue

  const Black := Rgb(0, 0, 0)
  const PureRed := Rgb(255, 0, 0)

  /** An image is a sequence of rows; a grid is a single-channel image. */
  type Image = seq<seq<Rgb>>
  type Grid = seq<seq<int>>

  /** The result of a call that can fail inside a foreign codec. */
  datatype Result<T> = Ok(value: T) | CodecError

  function Channel(p: Rgb, band: Band): int
  {
    match band
    case Red => p.r
    case Green => p.g
    case Blue => p.b
  }

  function Max(x: int, y: int): int { if x < y then y else x }
  function Min(x: int, y: int): int { if x < y then x else y }

  predicate IsByte(v: int) { 0 <= v <= 255 }

  predicate PixelInRange(p: Rgb) { IsByte(p.r) && IsByte(p.g) && IsByte(p.b) }

  /** Number of columns; an image without rows has none. */
  function Width<T>(g: seq<seq<T>>): nat
  {
    if |g| == 0 then 0 else |g[0]|
  }

  /** Every row has the same length. */
  predicate Rectangular<T>(g: seq<seq<T>>)
  {
    forall i :: 0 <= i < |g| ==> |g[i]| == Width(g)
  }

  /** Same height and, row by row, the same width. */
  predicate SameShape<T, U>(a: seq<seq<T>>, b: seq<seq<U>>)
  {
    |a| == |b| && forall i :: 0 <= i < |a| ==> |a[i]| == |b[i]|
  }

  /** Every channel of every pixel is an 8-bit value. */
  predicate InRange(img: Image)
  {
    forall i, j :: 0 <= i < |img| && 0 <= j < |img[i]| ==> PixelInRange(img[i][j])
  }

  /** Every cell of a single-channel grid is an 8-bit value. */
  predicate Bytes(g: Grid)
  {
    forall i, j :: 0 <= i < |g| && 0 <= j < |g[i]| ==> IsByte(g[i][j])
  }

  /** A grid with the shape of `img` holding the same pixel everywhere. */
  function Uniform(img: Image, p: Rgb): (u: Image)
    ensures SameShape(u, img)
    ensures forall i, j :: 0 <= i < |u| && 0 <= j < |u[i]| ==> u[i][j] == p
  {
    seq(|img|, i requires 0 <= i < |img| => seq(|img[i]|, _ => p))
  }
}
