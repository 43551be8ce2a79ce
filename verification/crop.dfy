/** `crop_formula_image`: the pixel arithmetic that turns a formula's box in points into a
    crop of the rendered page, clamped to the bitmap and padded with a white border. Pixel
    contents are not modelled; a bitmap is its size. */
module Crop {
  import opened Results
  import opened Geometry

  /** Resolution at which pages are rendered for cropping. */
  const RenderDpi: int := 300

  /** White border, in pixels, added on every side of the crop. */
  const CropPadding: nat := 5

  /** A rendered page image, by its size. */
  datatype Bitmap = Bitmap(width: nat, height: nat)

  /** A crop rectangle in pixels: columns `left .. right - 1`, rows `top .. bottom - 1`. */
  datatype PixelBox = PixelBox(left: int, top: int, right: int, bottom: int)

  /** The padded crop: its size, and the part of the page bitmap pasted at offset (5, 5). */
  datatype Padded = Padded(width: nat, height: nat, source: PixelBox)

  /** The image library refuses a crop whose right edge lies left of its left edge, or whose
      bottom lies above its top. */
  datatype CropError = InvertedBox(box: PixelBox)

  /** Python's `int(x)` on a float: truncation toward zero. */
  function Trunc(x: real): (n: int)
    ensures x >= 0.0 ==> 0 <= n && n as real <= x < n as real + 1.0
    ensures x < 0.0 ==> n <= 0 && n as real - 1.0 < x <= n as real
  {
    if x >= 0.0 then x.Floor else -((-x).Floor)
  }

  /** A coordinate in points scaled to pixels at `dpi` (72 points per inch) and truncated. */
  function ToPixels(v: real, dpi: int): int
  {
    Trunc(v * (dpi as real / 72.0))
  }

  /** The formula box scaled to pixels, before clamping. */
  function ScaledBox(b: Box, dpi: int): PixelBox
  {
    PixelBox(ToPixels(b.x0, dpi), ToPixels(b.y0, dpi), ToPixels(b.x1, dpi), ToPixels(b.y1, dpi))
  }

  /** Pixel index `x` lies in the half-open range `lo .. hi - 1`. */
  predicate Within(lo: int, hi: int, x: int) { lo <= x < hi }

  function MaxInt(a: int, b: int): int { if a >= b then a else b }

  function MinInt(a: int, b: int): int { if a <= b then a else b }

  /** The scaled box with its left and top raised to 0 and its right and bottom lowered to the
      bitmap's size, as the source does; the crop fails when the result is inverted. */
  function ClampedBox(img: Bitmap, b: Box, dpi: int): (r: Result<PixelBox, CropError>)
    ensures r.Ok? ==> 0 <= r.value.left <= r.value.right <= img.width
    ensures r.Ok? ==> 0 <= r.value.top <= r.value.bottom <= img.height
    ensures r.Ok? ==> forall x: int :: Within(r.value.left, r.value.right, x) <==>
              Within(ScaledBox(b, dpi).left, ScaledBox(b, dpi).right, x) && Within(0, img.width, x)
    ensures r.Ok? ==> forall y: int :: Within(r.value.top, r.value.bottom, y) <==>
              Within(ScaledBox(b, dpi).top, ScaledBox(b, dpi).bottom, y) && Within(0, img.height, y)
    ensures r.Err? <==>
              MaxInt(0, ScaledBox(b, dpi).left) > MinInt(img.width, ScaledBox(b, dpi).right)
              || MaxInt(0, ScaledBox(b, dpi).top) > MinInt(img.height, ScaledBox(b, dpi).bottom)
  {
    var s := ScaledBox(b, dpi);
    var c := PixelBox(MaxInt(0, s.left), MaxInt(0, s.top), MinInt(img.width, s.right), MinInt(img.height, s.bottom));
    if c.right < c.left || c.bottom < c.top then Err(InvertedBox(c)) else Ok(c)
  }

  /** `crop_formula_image`: the clamped crop, enlarged by the padding on every side. */
  function CropFormulaImage(img: Bitmap, b: Box, dpi: int): (r: Result<Padded, CropError>)
    ensures r.Ok? <==> ClampedBox(img, b, dpi).Ok?
    ensures r.Ok? ==> r.value.source == ClampedBox(img, b, dpi).value
    ensures r.Ok? ==> r.value.width == r.value.source.right - r.value.source.left + 2 * CropPadding
    ensures r.Ok? ==> r.value.height == r.value.source.bottom - r.value.source.top + 2 * CropPadding
    ensures r.Ok? ==> 2 * CropPadding <= r.value.width <= img.width + 2 * CropPadding
    ensures r.Ok? ==> 2 * CropPadding <= r.value.height <= img.height + 2 * CropPadding
  {
    var c := ClampedBox(img, b, dpi);
    if c.Err? then Err(c.error)
    else
      var box := c.value;
      Ok(Padded(box.right - box.left + 2 * CropPadding, box.bottom - box.top + 2 * CropPadding, box))
  }

  /** A formula whose scaled box lies inside the bitmap is cropped exactly to that box. */
  lemma InsideNotClamped(img: Bitmap, b: Box, dpi: int)
    requires var s := ScaledBox(b, dpi);
             0 <= s.left <= s.right <= img.width && 0 <= s.top <= s.bottom <= img.height
    ensures ClampedBox(img, b, dpi) == Ok(ScaledBox(b, dpi))
  {
  }

  /** At 72 dpi a point is a pixel: whole-number coordinates are kept as they are. */
  lemma SeventyTwoDpiIsIdentity(v: int)
    ensures ToPixels(v as real, 72) == v
  {
    assert v as real * (72 as real / 72.0) == v as real;
  }

  /** The documented example: a 40 by 20 point formula on a 200 by 100 pixel page rendered at
      72 dpi gives a 50 by 30 pixel padded image. */
  lemma CropExample()
    ensures var r := CropFormulaImage(Bitmap(200, 100), Box(10.0, 10.0, 50.0, 30.0), 72);
            r.Ok? && r.value.width == 50 && r.value.height == 30
  {
    SeventyTwoDpiIsIdentity(10);
    SeventyTwoDpiIsIdentity(50);
    SeventyTwoDpiIsIdentity(30);
    assert ScaledBox(Box(10.0, 10.0, 50.0, 30.0), 72) == PixelBox(10, 10, 50, 30);
  }

  /** A formula entirely to the right of the page cannot be cropped. */
  lemma OffPageFails(img: Bitmap, b: Box, dpi: int)
    requires ScaledBox(b, dpi).left > img.width
    ensures CropFormulaImage(img, b, dpi).Err?
  {
  }
}
