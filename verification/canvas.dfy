/**
 * The pixel buffer of a window surface (src/raw_canvas.rs): colour packing
 * into 32-bit words, the bottom-up row layout used by `put_pixel`, and
 * filling the buffer with one colour. The raw pointer becomes a sequence
 * of `width * height` words.
 */
module Canvas {

  /** `PixelColor` (src/pixel_color.rs:1-6): four 8-bit channels. */
  datatype PixelColor = PixelColor(red: bv8, green: bv8, blue: bv8, alpha: bv8)

  /** `PixelColor::red` (src/pixel_color.rs:9-11). */
  const Red: PixelColor := PixelColor(255, 0, 0, 0)

  /** The bit position of each channel in a pixel word (src/raw_canvas.rs:8-11). */
  datatype PixelFormat = PixelFormat(redShift: bv8, greenShift: bv8, blueShift: bv8, alphaShift: bv8)

  /**
   * `RawCanvas` (src/raw_canvas.rs:4-12): the surface size, its pixel words
   * in row order, and the channel positions.
   */
  datatype RawCanvas = RawCanvas(width: nat, height: nat, pixels: seq<bv32>, format: PixelFormat)

  /** Every shift is a legal `u32` shift amount, as `<<` demands. */
  predicate ShiftsInRange(f: PixelFormat)
  {
    f.redShift < 32 && f.greenShift < 32 && f.blueShift < 32 && f.alphaShift < 32
  }

  /**
   * A well-formed surface: the buffer holds `width * height` words, that
   * product fits the `u32` loop bound of `clean_color`, and the shifts are
   * legal.
   */
  predicate Valid(c: RawCanvas)
  {
    |c.pixels| == c.width * c.height && c.width * c.height < 0x1_0000_0000 && ShiftsInRange(c.format)
  }

  /** Each shift is byte aligned and no two channels share a byte. */
  predicate ByteLayout(f: PixelFormat)
  {
    IsByteShift(f.redShift) && IsByteShift(f.greenShift) && IsByteShift(f.blueShift) && IsByteShift(f.alphaShift)
    && f.redShift != f.greenShift && f.redShift != f.blueShift && f.redShift != f.alphaShift
    && f.greenShift != f.blueShift && f.greenShift != f.alphaShift && f.blueShift != f.alphaShift
  }

  predicate IsByteShift(s: bv8)
  {
    s == 0 || s == 8 || s == 16 || s == 24
  }

  /** The byte of `v` that starts at bit `shift`. */
  function Channel(v: bv32, shift: bv8): bv8
    requires shift < 32
  {
    ((v >> shift) & 0xFF) as bv8
  }

  /**
   * `calculate_color_value` (src/raw_canvas.rs:53-58): every channel shifted
   * to its position and the four or-ed together. With a byte layout each
   * channel can be read back from the word.
   */
  function CalculateColorValue(f: PixelFormat, color: PixelColor): (v: bv32)
    requires ShiftsInRange(f)
    ensures ByteLayout(f) ==>
      Channel(v, f.redShift) == color.red && Channel(v, f.greenShift) == color.green
      && Channel(v, f.blueShift) == color.blue && Channel(v, f.alphaShift) == color.alpha
  {
    ((color.red as bv32) << f.redShift)
    | ((color.blue as bv32) << f.blueShift)
    | ((color.green as bv32) << f.greenShift)
    | ((color.alpha as bv32) << f.alphaShift)
  }

  /** With a byte layout, distinct colours pack to distinct words. */
  lemma ColorValueInjective(f: PixelFormat, a: PixelColor, b: PixelColor)
    requires ShiftsInRange(f) && ByteLayout(f)
    ensures CalculateColorValue(f, a) == CalculateColorValue(f, b) <==> a == b
  {
    if CalculateColorValue(f, a) == CalculateColorValue(f, b) {
      assert a.red == b.red && a.green == b.green && a.blue == b.blue && a.alpha == b.alpha;
    }
  }

  /**
   * The buffer index `put_pixel` writes for `(x, y)` (src/raw_canvas.rs:69):
   * rows are stored top-down while `y` counts from the bottom, so `y` picks
   * buffer row `height - y - 1` and `x` the column. The `u32` subtraction
   * underflows unless `y < height`, and the word lies outside the buffer
   * unless `x < width`.
   */
  function PixelOffset(c: RawCanvas, x: nat, y: nat): (offset: nat)
    requires x < c.width && y < c.height
    ensures offset < c.width * c.height
    ensures offset / c.width == c.height - y - 1 && offset % c.width == x
  {
    var row := c.height - y - 1;
    RowLayout(row, c.width, x);
    RowBound(row, c.height, c.width, x);
    row * c.width + x
  }

  /** Division by the row width recovers the row and the column. */
  lemma RowLayout(row: nat, width: nat, x: nat)
    requires x < width
    ensures (row * width + x) / width == row && (row * width + x) % width == x
  {
    var n := row * width + x;
    var q, m := n / width, n % width;
    assert q * width + m == row * width + x;
    if q < row {
      assert (row - q) * width == m - x;
      LeastMultiple(row - q, width);
    } else if q > row {
      assert (q - row) * width == x - m;
      LeastMultiple(q - row, width);
    }
  }

  /** A positive multiple of `width` is at least `width`. */
  lemma LeastMultiple(k: nat, width: nat)
    requires k >= 1
    ensures k * width >= width
  {
  }

  /** The offset of a pixel in row `row < height` is below `height * width`. */
  lemma RowBound(row: nat, height: nat, width: nat, x: nat)
    requires row < height && x < width
    ensures row * width + x < width * height
  {
    assert (height - row) * width >= width by {
      LeastMultiple(height - row, width);
    }
  }

  /** Distinct in-bounds pixels have distinct offsets; `y = 0` is the last row. */
  lemma OffsetInjective(c: RawCanvas, x: nat, y: nat, x': nat, y': nat)
    requires x < c.width && y < c.height && x' < c.width && y' < c.height
    ensures PixelOffset(c, x, y) == PixelOffset(c, x', y') <==> x == x' && y == y'
    ensures PixelOffset(c, x, 0) == (c.height - 1) * c.width + x
    ensures PixelOffset(c, x, c.height - 1) == x
  {
  }

  /** The word shown at `(x, y)`. */
  function GetPixel(c: RawCanvas, x: nat, y: nat): bv32
    requires Valid(c) && x < c.width && y < c.height
  {
    c.pixels[PixelOffset(c, x, y)]
  }

  /**
   * `put_pixel` (src/raw_canvas.rs:68-73): the packed colour is written to
   * the word of `(x, y)`; every other word, the size and the shifts are
   * unchanged.
   */
  function PutPixel(c: RawCanvas, x: nat, y: nat, color: PixelColor): (r: RawCanvas)
    requires Valid(c) && x < c.width && y < c.height
    ensures Valid(r) && r.width == c.width && r.height == c.height
    ensures r == c.(pixels := r.pixels)
    ensures GetPixel(r, x, y) == CalculateColorValue(c.format, color)
    ensures forall i | 0 <= i < |c.pixels| && i != PixelOffset(c, x, y) :: r.pixels[i] == c.pixels[i]
  {
    c.(pixels := c.pixels[PixelOffset(c, x, y) := CalculateColorValue(c.format, color)])
  }

  /**
   * Reading a pixel after `put_pixel`: the written colour at `(x, y)`, the
   * old word everywhere else.
   */
  lemma PutThenGet(c: RawCanvas, x: nat, y: nat, color: PixelColor, x': nat, y': nat)
    requires Valid(c) && x < c.width && y < c.height && x' < c.width && y' < c.height
    ensures GetPixel(PutPixel(c, x, y, color), x', y')
      == if x' == x && y' == y then CalculateColorValue(c.format, color) else GetPixel(c, x', y')
  {
    OffsetInjective(c, x, y, x', y');
  }

  /**
   * `clean_color` (src/raw_canvas.rs:60-66): every word of the buffer set
   * to the packed colour.
   */
  method CleanColor(c: RawCanvas, color: PixelColor) returns (r: RawCanvas)
    requires Valid(c)
    ensures Valid(r) && r == c.(pixels := r.pixels)
    ensures forall i | 0 <= i < |r.pixels| :: r.pixels[i] == CalculateColorValue(c.format, color)
  {
    var value := CalculateColorValue(c.format, color);
    var pixels := c.pixels;
    var n := 0;
    while n < c.width * c.height
      invariant 0 <= n <= c.width * c.height == |pixels|
      invariant forall i | 0 <= i < n :: pixels[i] == value
    {
      pixels := pixels[n := value];
      n := n + 1;
    }
    r := c.(pixels := pixels);
  }
}
