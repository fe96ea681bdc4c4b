/**
 The RGBA byte buffers the palettes fill before handing them to
 `UIImage(rgbaBytes:width:height:)`. Each pixel takes four consecutive
 bytes, red, green, blue and an opaque alpha of 255; the pixel's colour is
 the palette's reading at that pixel at full brightness. Turning the buffer
 into an image, and clipping it, is foreign.
 */
module PixelBuffer {
  import opened RealMath
  import opened ColorMath
  import opened Geometry
  import opened HSB
  import RectPalette
  import RadialPalette
  import HueRing

  /** The four bytes at `index` encode colour `c` with alpha 255. */
  predicate PixelIs(data: seq<int>, index: int, c: RGB) {
    && 0 <= index && index + 4 <= |data|
    && data[index] == ColorComponentToUInt8(c.red)
    && data[index + 1] == ColorComponentToUInt8(c.green)
    && data[index + 2] == ColorComponentToUInt8(c.blue)
    && data[index + 3] == 255
  }

  predicate AllBytes(data: seq<int>) {
    forall k :: 0 <= k < |data| ==> 0 <= data[k] <= 255
  }

  /** The four writes of one loop iteration. */
  function SetPixel(data: seq<int>, index: int, c: RGB): (r: seq<int>)
    requires 0 <= index && index + 4 <= |data|
    ensures |r| == |data|
    ensures PixelIs(r, index, c)
    ensures forall k :: 0 <= k < |data| && (k < index || index + 4 <= k) ==> r[k] == data[k]
    ensures AllBytes(data) ==> AllBytes(r)
  {
    data[index := ColorComponentToUInt8(c.red)]
        [index + 1 := ColorComponentToUInt8(c.green)]
        [index + 2 := ColorComponentToUInt8(c.blue)]
        [index + 3 := 255]
  }

  /** Pixel number `column + row * width` of a row-major grid lies inside
      the grid. */
  lemma BlockInGrid(width: int, height: int, column: int, row: int)
    requires 0 <= column < width && 0 <= row < height
    ensures 0 <= column + row * width < width * height
  {
    assert row * width <= (height - 1) * width by {
      MulMonotone(row, height - 1, width);
    }
  }

  lemma MulMonotone(a: int, b: int, w: int)
    requires 0 <= a <= b && w >= 0
    ensures a * w <= b * w
  {
    assert b * w - a * w == (b - a) * w;
  }

  /** Different cells of the grid have different pixel numbers. */
  lemma BlocksDistinct(width: int, c1: int, r1: int, c2: int, r2: int)
    requires 0 <= c1 < width && 0 <= c2 < width && 0 <= r1 && 0 <= r2
    requires c1 != c2 || r1 != r2
    ensures c1 + r1 * width != c2 + r2 * width
  {
    if r1 < r2 {
      MulMonotone(r1 + 1, r2, width);
    } else if r2 < r1 {
      MulMonotone(r2 + 1, r1, width);
    }
  }

  /** Byte `k` of a `width` by `height` buffer belongs to the pixel in
      column `(k / 4) % width`, row `(k / 4) / width`. */
  lemma ByteOfPixel(width: int, height: int, k: int)
    requires width > 0 && 0 <= k < 4 * width * height
    ensures 0 <= (k / 4) % width < width && 0 <= (k / 4) / width < height
    ensures 4 * ((k / 4) % width + (k / 4) / width * width) + k % 4 == k
  {
    var cell := k / 4;
    assert cell < width * height;
    var row := cell / width;
    assert cell == row * width + cell % width;
    if row >= height {
      MulMonotone(height, row, width);
    }
  }

  /** Writing one pixel's four bytes leaves every other pixel as it was. */
  lemma OtherPixelKept(data: seq<int>, next: seq<int>, cell: int, otherCell: int, c: RGB)
    requires 0 <= 4 * cell && 4 * cell + 4 <= |data| && |next| == |data|
    requires forall k :: 0 <= k < |data| && (k < 4 * cell || 4 * cell + 4 <= k) ==> next[k] == data[k]
    requires otherCell != cell
    requires PixelIs(data, 4 * otherCell, c)
    ensures PixelIs(next, 4 * otherCell, c)
  {
  }

  /** The byte offset of pixel (i, j) in the rectangular palette's buffer,
      `4 * (i + j * intWidth)`. */
  function RectIndex(width: int, i: int, j: int): int {
    4 * (i + j * width)
  }

  /** Every index the rectangular fill writes, up to the alpha byte, is
      inside the buffer of `4 * intWidth * intHeight` bytes. */
  lemma RectIndexInBounds(width: int, height: int, i: int, j: int)
    requires 0 <= i < width && 0 <= j < height
    ensures 0 <= RectIndex(width, i, j) && RectIndex(width, i, j) + 3 < 4 * width * height
  {
    BlockInGrid(width, height, i, j);
  }

  /** The colour of pixel (i, j): the palette's reading at (i, j) at full
      brightness. */
  function RectPixel(p: RectPalette.RectPalette, i: int, j: int): RGB
    requires p.size.width != 0.0 && p.size.height != 0.0
  {
    var hs := RectPalette.HueAndSaturation(p, Point(i as real, j as real));
    RgbFrom(hs.hue, hs.saturation, 1.0)
  }

  /** The cells a column-by-column walk has painted before cell (i, j). */
  predicate Before(a: int, b: int, i: int, j: int) {
    a < i || (a == i && b < j)
  }

  /** The fill loop of the rectangular palette, for any pixel colouring:
      a buffer of `4 * width * height` bytes set to `initial`, then for each
      column `i` and each row `j` the pixel `i + j * width` painted with
      `pixel(i, j)`. */
  method FillByColumns(width: nat, height: nat, initial: int, pixel: (int, int) -> RGB) returns (data: seq<int>)
    requires 0 <= initial <= 255
    ensures |data| == 4 * width * height
    ensures AllBytes(data)
    ensures forall i, j :: 0 <= i < width && 0 <= j < height ==> PixelIs(data, RectIndex(width, i, j), pixel(i, j))
  {
    data := seq(4 * width * height, _ => initial);
    var i := 0;
    while i < width
      invariant 0 <= i <= width
      invariant |data| == 4 * width * height && AllBytes(data)
      invariant forall a, b :: 0 <= a < i && 0 <= b < height ==> PixelIs(data, 4 * (a + b * width), pixel(a, b))
    {
      var j := 0;
      while j < height
        invariant 0 <= j <= height
        invariant |data| == 4 * width * height && AllBytes(data)
        invariant forall a, b :: 0 <= a < width && 0 <= b < height && Before(a, b, i, j) ==>
          PixelIs(data, 4 * (a + b * width), pixel(a, b))
      {
        BlockInGrid(width, height, i, j);
        var next := SetPixel(data, 4 * (i + j * width), pixel(i, j));
        ColumnStep(data, next, width, height, i, j, pixel);
        data := next;
        j := j + 1;
      }
      i := i + 1;
    }
  }

  /** One step of the column walk: painting cell (i, j) keeps every cell
      painted before it. */
  lemma ColumnStep(data: seq<int>, next: seq<int>, width: int, height: int, i: int, j: int, pixel: (int, int) -> RGB)
    requires 0 <= i < width && 0 <= j < height && |data| == 4 * width * height
    requires 4 * (i + j * width) + 4 <= |data| && 0 <= i + j * width
    requires forall a, b :: 0 <= a < width && 0 <= b < height && Before(a, b, i, j) ==>
      PixelIs(data, 4 * (a + b * width), pixel(a, b))
    requires next == SetPixel(data, 4 * (i + j * width), pixel(i, j))
    ensures forall a, b :: 0 <= a < width && 0 <= b < height && Before(a, b, i, j + 1) ==>
      PixelIs(next, 4 * (a + b * width), pixel(a, b))
  {
    forall a, b | 0 <= a < width && 0 <= b < height && Before(a, b, i, j + 1)
      ensures PixelIs(next, 4 * (a + b * width), pixel(a, b))
    {
      if a != i || b != j {
        BlocksDistinct(width, a, b, i, j);
        OtherPixelKept(data, next, i + j * width, a + b * width, pixel(a, b));
      }
    }
  }

  /** `foregroundImage()` of the rectangular palette: every pixel (i, j) of
      the `intWidth` by `intHeight` buffer shows the palette's reading at
      (i, j) at full brightness, opaque. */
  method RectForeground(p: RectPalette.RectPalette) returns (data: seq<int>)
    requires RectPalette.Consistent(p)
    requires p.intWidth >= 0 && p.intHeight >= 0
    ensures |data| == 4 * p.intWidth * p.intHeight
    ensures AllBytes(data)
    ensures forall i, j :: 0 <= i < p.intWidth && 0 <= j < p.intHeight ==>
      p.size.width != 0.0 && p.size.height != 0.0 && PixelIs(data, RectIndex(p.intWidth, i, j), RectPixel(p, i, j))
    ensures forall k :: 0 <= k < |data| && k % 4 == 3 ==> data[k] == 255
  {
    if p.intWidth == 0 || p.intHeight == 0 {
      data := seq(4 * p.intWidth * p.intHeight, _ => 1);
      return;
    }
    assert p.size.width >= 1.0 && p.size.height >= 1.0;
    var pixel := (a: int, b: int) => RectPixel(p, a, b);
    data := FillByColumns(p.intWidth, p.intHeight, 1, pixel);
    forall i, j | 0 <= i < p.intWidth && 0 <= j < p.intHeight
      ensures PixelIs(data, RectIndex(p.intWidth, i, j), RectPixel(p, i, j))
    {
      assert pixel(i, j) == RectPixel(p, i, j);
    }
    forall k | 0 <= k < |data| && k % 4 == 3
      ensures data[k] == 255
    {
      ByteOfPixel(p.intWidth, p.intHeight, k);
      var i, j := (k / 4) % p.intWidth, (k / 4) / p.intWidth;
      assert PixelIs(data, RectIndex(p.intWidth, i, j), pixel(i, j));
    }
  }

  /** The fill loop of the radial palettes, for any pixel colouring: a
      buffer of `4 * width * height` bytes set to `initial`, then for each
      row `i` and each column `j` the pixel `i * width + j` painted with
      `pixel(j, i)`; the colouring takes (x, y), so the row is the y. */
  method FillByRows(width: nat, height: nat, initial: int, pixel: (int, int) -> RGB) returns (data: seq<int>)
    requires 0 <= initial <= 255
    ensures |data| == 4 * width * height
    ensures AllBytes(data)
    ensures forall i, j :: 0 <= i < height && 0 <= j < width ==> PixelIs(data, RadialIndex(width, i, j), pixel(j, i))
  {
    data := seq(4 * width * height, _ => initial);
    var i := 0;
    while i < height
      invariant 0 <= i <= height
      invariant |data| == 4 * width * height && AllBytes(data)
      invariant forall a, b :: 0 <= a < i && 0 <= b < width ==> PixelIs(data, 4 * (b + a * width), pixel(b, a))
    {
      var j := 0;
      while j < width
        invariant 0 <= j <= width
        invariant |data| == 4 * width * height && AllBytes(data)
        invariant forall a, b :: 0 <= a < height && 0 <= b < width && Before(a, b, i, j) ==>
          PixelIs(data, 4 * (b + a * width), pixel(b, a))
      {
        BlockInGrid(width, height, j, i);
        var next := SetPixel(data, 4 * (j + i * width), pixel(j, i));
        RowStep(data, next, width, height, i, j, pixel);
        data := next;
        j := j + 1;
      }
      i := i + 1;
    }
  }

  /** One step of the row walk: painting row `i`, column `j` keeps every
      cell painted before it. */
  lemma RowStep(data: seq<int>, next: seq<int>, width: int, height: int, i: int, j: int, pixel: (int, int) -> RGB)
    requires 0 <= i < height && 0 <= j < width && |data| == 4 * width * height
    requires 4 * (j + i * width) + 4 <= |data| && 0 <= j + i * width
    requires forall a, b :: 0 <= a < height && 0 <= b < width && Before(a, b, i, j) ==>
      PixelIs(data, 4 * (b + a * width), pixel(b, a))
    requires next == SetPixel(data, 4 * (j + i * width), pixel(j, i))
    ensures forall a, b :: 0 <= a < height && 0 <= b < width && Before(a, b, i, j + 1) ==>
      PixelIs(next, 4 * (b + a * width), pixel(b, a))
  {
    forall a, b | 0 <= a < height && 0 <= b < width && Before(a, b, i, j + 1)
      ensures PixelIs(next, 4 * (b + a * width), pixel(b, a))
    {
      if a != i || b != j {
        BlocksDistinct(width, b, a, j, i);
        OtherPixelKept(data, next, j + i * width, b + a * width, pixel(b, a));
      }
    }
  }

  /** The byte offset of row `i`, column `j` in a radial palette's buffer,
      `4 * (i * ceiledDiameter + j)`. */
  function RadialIndex(diameter: int, i: int, j: int): int {
    4 * (i * diameter + j)
  }

  /** Every index the radial fill writes, up to the alpha byte, is inside
      the buffer of `4 * ceiledDiameter * ceiledDiameter` bytes. */
  lemma RadialIndexInBounds(diameter: int, i: int, j: int)
    requires 0 <= i < diameter && 0 <= j < diameter
    ensures 0 <= RadialIndex(diameter, i, j) && RadialIndex(diameter, i, j) + 3 < 4 * diameter * diameter
  {
    BlockInGrid(diameter, diameter, j, i);
  }

  /** The colour the HSB circle shows at (x, y): its reading there at full
      brightness. */
  function RadialPixel(t: Trig, l: RadialLayout, x: int, y: int): RGB
    requires Sound(t) && l.radius != 0.0
  {
    var hs := RadialPalette.HueAndSaturation(t, l, Point(x as real, y as real));
    RgbFrom(hs.hue, hs.saturation, 1.0)
  }

  /** `foregroundImage()` of the HSB circle before it is clipped to the
      circle: a `ceiledDiameter`-square buffer whose pixel in row `i`,
      column `j` shows the reading at (j, i), opaque. */
  method RadialForeground(t: Trig, l: RadialLayout) returns (data: seq<int>)
    requires Sound(t)
    requires Laid(l)
    requires l.ceiledDiameter >= 0
    ensures |data| == 4 * l.ceiledDiameter * l.ceiledDiameter
    ensures AllBytes(data)
    ensures forall i, j :: 0 <= i < l.ceiledDiameter && 0 <= j < l.ceiledDiameter ==>
      l.radius != 0.0 && PixelIs(data, RadialIndex(l.ceiledDiameter, i, j), RadialPixel(t, l, j, i))
  {
    var d := l.ceiledDiameter;
    if d == 0 {
      data := seq(0, _ => 255);
      return;
    }
    assert l.radius > 0.0;
    var pixel := (x: int, y: int) => RadialPixel(t, l, x, y);
    data := FillByRows(d, d, 255, pixel);
    forall i, j | 0 <= i < d && 0 <= j < d
      ensures PixelIs(data, RadialIndex(d, i, j), RadialPixel(t, l, j, i))
    {
      assert pixel(j, i) == RadialPixel(t, l, j, i);
    }
  }

  /** The colour the hue ring shows at (x, y): the hue there at full
      saturation and brightness. */
  function RingPixel(t: Trig, l: RadialLayout, x: int, y: int): RGB
    requires Sound(t) && l.radius != 0.0
  {
    RgbFrom(HueRing.Hue(t, l, Point(x as real, y as real)), 1.0, 1.0)
  }

  /** `foregroundImage()` of the hue ring before the ring is cut out: the
      same square buffer, each pixel the hue at (j, i) fully saturated. */
  method RingForeground(t: Trig, l: RadialLayout) returns (data: seq<int>)
    requires Sound(t)
    requires Laid(l)
    requires l.ceiledDiameter >= 0
    ensures |data| == 4 * l.ceiledDiameter * l.ceiledDiameter
    ensures AllBytes(data)
    ensures forall i, j :: 0 <= i < l.ceiledDiameter && 0 <= j < l.ceiledDiameter ==>
      l.radius != 0.0 && PixelIs(data, RadialIndex(l.ceiledDiameter, i, j), RingPixel(t, l, j, i))
  {
    var d := l.ceiledDiameter;
    if d == 0 {
      data := seq(0, _ => 255);
      return;
    }
    assert l.radius > 0.0;
    var pixel := (x: int, y: int) => RingPixel(t, l, x, y);
    data := FillByRows(d, d, 255, pixel);
    forall i, j | 0 <= i < d && 0 <= j < d
      ensures PixelIs(data, RadialIndex(d, i, j), RingPixel(t, l, j, i))
    {
      assert pixel(j, i) == RingPixel(t, l, j, i);
    }
  }
}
