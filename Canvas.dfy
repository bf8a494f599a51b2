/** Canvas geometry of the visual template: the canvas size chosen by the
    ratio selector, the centre crop of an uploaded background, the
    translucent bottom band and the rows at which caption lines are drawn.
    Pixels are never modelled, only the numbers that place them. */
module Canvas {

  /** The longest side of every canvas. */
  const MaxDim: int := 1000

  /** Point size of the caption font; a line is 1.3 times as tall. */
  const FontSize: int := 40
  const LineHeight: real := FontSize as real * 1.3

  datatype Size = Size(width: int, height: int)

  /** A crop rectangle in the coordinates of the resized image:
      columns left..right and rows top..bottom, right and bottom exclusive. */
  datatype Box = Box(left: int, top: int, right: int, bottom: int)

  /** The background after the resize step and the box then cut from it. */
  datatype Crop = Crop(resized: Size, box: Box)

  /** What the file uploader handed over: nothing, a decodable image of the
      given size, or bytes the image library cannot decode. */
  datatype Upload = NoUpload | Picture(size: Size) | Undecodable

  /** The base layer under the band: the solid dark-blue canvas or a
      cropped background. */
  datatype Base = Solid(size: Size) | Cropped(crop: Crop)

  /** The rows covered by the translucent band, both ends inclusive. */
  datatype Band = Band(start: int, end: int)

  /** Python's int() on a number: truncation toward zero. */
  function Trunc(x: real): (n: int)
    ensures 0.0 <= x ==> 0 <= n && n as real <= x < n as real + 1.0
    ensures x < 0.0 ==> n <= 0 && n as real - 1.0 < x <= n as real
  {
    if x >= 0.0 then x.Floor else -((-x).Floor)
  }

  /** The canvas for a ratio selector: '4:3' is the 3:4 portrait layout,
      every other value the square one. */
  function CanvasSize(ratio: string): (s: Size)
    ensures ratio == "4:3" ==> s == Size(750, 1000) && 4 * s.width == 3 * s.height
    ensures ratio != "4:3" ==> s == Size(1000, 1000)
  {
    if ratio == "4:3" then Size(Trunc((MaxDim * 3) as real / 4.0), MaxDim)
    else Size(MaxDim, MaxDim)
  }

  /** Characters per caption line, chosen by canvas width. */
  function CharLimit(width: int): (k: nat)
    ensures (k == 24) == (width < 1000) && (k == 36) == (width >= 1000)
  {
    if width < 1000 then 24 else 36
  }

  lemma CharLimitByRatio(ratio: string)
    ensures CharLimit(CanvasSize(ratio).width) == (if ratio == "4:3" then 24 else 36)
  {
  }

  /** The image is relatively wider than the canvas:
      img_width / img_height > WIDTH / HEIGHT, cross-multiplied. */
  predicate Wider(img: Size, canvas: Size)
  {
    img.width * canvas.height > canvas.width * img.height
  }

  /** The cross-multiplied test is the quotient comparison
      img_width / img_height > WIDTH / HEIGHT of the source. */
  lemma WiderIsAspect(img: Size, canvas: Size)
    requires 0 < img.height && 0 < canvas.height
    ensures Wider(img, canvas) <==>
            img.width as real / img.height as real > canvas.width as real / canvas.height as real
  {
    var a, b, c, d := img.width as real, img.height as real, canvas.width as real, canvas.height as real;
    assert a / b == (a * d) / (b * d);
    assert c / d == (c * b) / (b * d);
  }

  /** For x >= 0, int(x / 2) of an integer x is x / 2. */
  lemma TruncHalf(x: int)
    requires 0 <= x
    ensures Trunc(x as real / 2.0) == x / 2
  {
    var q, r := x / 2, x % 2;
    assert x == 2 * q + r && 0 <= r < 2;
    assert x as real / 2.0 == q as real + r as real / 2.0;
  }

  /** int(x / 2 + w) for integers x, w >= 0. */
  lemma TruncHalfPlus(x: int, w: int)
    requires 0 <= x && 0 <= w
    ensures Trunc(x as real / 2.0 + w as real) == x / 2 + w
  {
    var q, r := x / 2, x % 2;
    assert x == 2 * q + r && 0 <= r < 2;
    assert x as real / 2.0 + w as real == (q + w) as real + r as real / 2.0;
  }

  lemma MulMono(x: int, y: int, b: int)
    requires x <= y && 0 <= b
    ensures x * b <= y * b
  {
    assert y * b - x * b == (y - x) * b;
  }

  /** Integer floor division brackets the exact quotient. */
  lemma DivBounds(a: int, b: int)
    requires 0 < b
    ensures (a / b) * b <= a < (a / b + 1) * b
  {
    assert a == (a / b) * b + a % b;
    assert (a / b + 1) * b == (a / b) * b + b;
  }

  /** The centre crop of an uploaded image of positive size: scale so that
      one side matches the canvas (floor of the exact quotient), then cut the
      overflow of the other side equally at both ends. */
  function CenterCrop(img: Size, canvas: Size): (c: Crop)
    requires 0 < img.width && 0 < img.height && 0 < canvas.width && 0 < canvas.height
    // the box is exactly the canvas size
    ensures c.box.right - c.box.left == canvas.width
    ensures c.box.bottom - c.box.top == canvas.height
    // and lies inside the resized image
    ensures 0 <= c.box.left && 0 <= c.box.top
    ensures c.box.right <= c.resized.width && c.box.bottom <= c.resized.height
    // the overflow is cut equally at both ends (one pixel more on the far side when odd)
    ensures c.box.left <= c.resized.width - c.box.right <= c.box.left + 1
    ensures c.box.top <= c.resized.height - c.box.bottom <= c.box.top + 1
    // a wide image is scaled to the canvas height and cropped sideways only,
    // a tall one scaled to the canvas width and cropped vertically only;
    // the other side is the floor of the aspect-preserving length
    ensures Wider(img, canvas) ==>
              c.resized.height == canvas.height && c.box.top == 0 &&
              c.resized.width * img.height <= img.width * canvas.height < (c.resized.width + 1) * img.height
    ensures !Wider(img, canvas) ==>
              c.resized.width == canvas.width && c.box.left == 0 &&
              c.resized.height * img.width <= img.height * canvas.width < (c.resized.height + 1) * img.width
  {
    if Wider(img, canvas) then
      var newWidth := (img.width * canvas.height) / img.height;
      DivBounds(img.width * canvas.height, img.height);
      DivAtLeastEq(img.width * canvas.height, img.height, canvas.width);
      var box := SideCut(newWidth, canvas.width);
      Crop(Size(newWidth, canvas.height), Box(box.0, 0, box.1, canvas.height))
    else
      var newHeight := (img.height * canvas.width) / img.width;
      DivBounds(img.height * canvas.width, img.width);
      DivAtLeastEq(img.height * canvas.width, img.width, canvas.height);
      var box := SideCut(newHeight, canvas.height);
      Crop(Size(canvas.width, newHeight), Box(0, box.0, canvas.width, box.1))
  }

  /** The cut along the overflowing side: lo = int((len - keep) / 2) and
      hi = int((len - keep) / 2 + keep). */
  function SideCut(len: int, keep: int): (r: (int, int))
    requires 0 <= keep <= len
    ensures r.1 - r.0 == keep && 0 <= r.0
    ensures r.0 <= len - r.1 <= r.0 + 1
  {
    var lo := (len - keep) as real / 2.0;
    TruncHalf(len - keep);
    TruncHalfPlus(len - keep, keep);
    (Trunc(lo), Trunc(lo + keep as real))
  }

  /** If a >= w * b then floor(a / b) >= w. */
  lemma DivAtLeastEq(a: int, b: int, w: int)
    requires 0 < b && 0 <= w && w * b <= a
    ensures w <= a / b
  {
    var q := a / b;
    assert a == q * b + a % b && a % b < b;
    if q < w {
      MulMono(q + 1, w, b);
      assert false;
    }
  }

  /** The crop box of the tall branch as the source computes it from the
      resized height its floating-point product yielded:
      top = (new_height - HEIGHT) / 2 and bottom = top + HEIGHT, both
      truncated by int(). */
  function TallBox(canvas: Size, newHeight: int): (b: Box)
    requires 0 < canvas.height
    ensures b.left == 0 && b.right == canvas.width
    ensures canvas.height <= newHeight ==> b.bottom - b.top == canvas.height
  {
    var top := (newHeight - canvas.height) as real / 2.0;
    var box := Box(0, Trunc(top), canvas.width, Trunc(top + canvas.height as real));
    if canvas.height <= newHeight then
      TruncHalf(newHeight - canvas.height);
      TruncHalfPlus(newHeight - canvas.height, canvas.height);
      box
    else box
  }

  /** When the product comes out one below the canvas height, as
      666 * (1000 / 666) does in binary floating point, top is -0.5 and the
      box is one row short of the canvas. */
  lemma ShortBox(canvas: Size)
    requires 0 < canvas.height
    ensures var b := TallBox(canvas, canvas.height - 1);
      b.top == 0 && b.bottom == canvas.height - 1 && b.bottom - b.top != canvas.height
  {
    var top := -1.0 / 2.0;
    assert ((canvas.height - 1) - canvas.height) as real / 2.0 == top;
    assert Trunc(top) == 0;
    assert Trunc(top + canvas.height as real) == canvas.height - 1;
  }

  /** The base layer. A missing upload and undecodable bytes give the solid
      canvas; so does an image with a zero side, for which the aspect
      comparison or the scale factor divides by zero and the exception
      handler substitutes the solid canvas. */
  function BaseLayer(canvas: Size, upload: Upload): (b: Base)
    requires 0 < canvas.width && 0 < canvas.height
    ensures b.Cropped? <==> upload.Picture? && 0 < upload.size.width && 0 < upload.size.height
    ensures b.Solid? ==> b.size == canvas
    ensures b.Cropped? ==> b.crop == CenterCrop(upload.size, canvas)
  {
    match upload
    case Picture(img) =>
      if 0 < img.width && 0 < img.height then Cropped(CenterCrop(img, canvas))
      else Solid(canvas)
    case _ => Solid(canvas)
  }

  /** The size of an image: a crop yields exactly its box. */
  function BaseSize(b: Base): Size
  {
    match b
    case Solid(s) => s
    case Cropped(c) => Size(c.box.right - c.box.left, c.box.bottom - c.box.top)
  }

  /** Whatever was uploaded, the base layer has the canvas size. */
  lemma BaseLayerHasCanvasSize(canvas: Size, upload: Upload)
    requires 0 < canvas.width && 0 < canvas.height
    ensures BaseSize(BaseLayer(canvas, upload)) == canvas
  {
  }

  /** The band rows: int(H * (1.0 - 0.10)) down to int(H * (1.0 - 0.10 - 0.15)). */
  function OverlayBand(height: int): (b: Band)
    requires 0 <= height
    ensures 0 <= b.start <= b.end <= height
    ensures height == 1000 ==> b == Band(750, 900)
  {
    Band(Trunc(height as real * (1.0 - 0.10 - 0.15)), Trunc(height as real * (1.0 - 0.10)))
  }

  /** The band's vertical midpoint. */
  function BandCenter(b: Band): (y: real)
    ensures y - b.start as real == b.end as real - y
  {
    (b.start + b.end) as real / 2.0
  }

  /** The top row of the first of n caption lines. */
  function TextTop(b: Band, n: nat): (y: real)
    ensures y + n as real * LineHeight / 2.0 == BandCenter(b)
  {
    BandCenter(b) - (n as real * LineHeight) / 2.0
  }

  /** The row at which each of n caption lines is anchored by its top. */
  function LineTops(b: Band, n: nat): (ys: seq<real>)
    ensures |ys| == n
    ensures forall i :: 0 <= i < n ==> ys[i] == TextTop(b, n) + i as real * LineHeight
  {
    seq(n, i => TextTop(b, n) + i as real * LineHeight)
  }

  /** The lines are stacked without gaps and the block they form, from the
      first top to the last bottom, is centred on the band. */
  lemma {:induction false} LineTopsCentered(b: Band, n: nat)
    requires 0 < n
    ensures var ys := LineTops(b, n);
      (forall i :: 0 < i < n ==> ys[i] - ys[i - 1] == LineHeight) &&
      (ys[0] + (ys[n - 1] + LineHeight)) / 2.0 == BandCenter(b)
  {
    var ys := LineTops(b, n);
    assert ys[n - 1] + LineHeight == TextTop(b, n) + n as real * LineHeight;
  }

  /** The text block lies within the band exactly when its height does not
      exceed the band's: on the 1000-row canvases, at most two lines. */
  lemma {:induction false} BlockFitsBand(b: Band, n: nat)
    requires b.start <= b.end
    ensures (b.start as real <= TextTop(b, n) && TextTop(b, n) + n as real * LineHeight <= b.end as real)
            <==> n as real * LineHeight <= (b.end - b.start) as real
    ensures b == Band(750, 900) ==>
            ((750.0 <= TextTop(b, n) && TextTop(b, n) + n as real * LineHeight <= 900.0) <==> n <= 2)
  {
    if b == Band(750, 900) {
      assert LineHeight == 52.0;
      if n > 2 {
        assert n as real * LineHeight >= 3.0 * 52.0;
      }
    }
  }
}
