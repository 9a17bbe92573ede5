/**
 * Pixel operations on a 32-bit canvas (canvas_drawing.hpp).
 *
 * A MemoryCanvas is a width x height block of pixels laid out row after row;
 * here its pixels are a two-dimensional array indexed [y, x], so the pixel
 * that the source addresses as ptr[x + y * width] is pixels[y, x].
 */
module CanvasDrawing {

  /** A rectangle of LONG coordinates, right and bottom exclusive. */
  datatype Rect = Rect(left: int, top: int, right: int, bottom: int) {
    function Width(): int { right - left }
    function Height(): int { bottom - top }
    predicate Contains(x: int, y: int) { left <= x < right && top <= y < bottom }
  }

  // ---------------------------------------------------------------------------
  // Color

  /** A 32-bit pixel value, and one 8-bit channel of it. */
  type Color = c: int | 0 <= c < 0x1_0000_0000
  type Channel = v: int | 0 <= v < 0x100

  /**
   * Color(r, g, b, a): a in bits 24-31, r in 16-23, g in 8-15, b in 0-7.
   * The fields do not overlap, so the bitwise or of the shifted channels is their sum.
   */
  function MakeColor(r: Channel, g: Channel, b: Channel, a: Channel): Color {
    a * 0x100_0000 + r * 0x1_0000 + g * 0x100 + b
  }

  function Red(c: Color): Channel { c / 0x1_0000 % 0x100 }
  function Green(c: Color): Channel { c / 0x100 % 0x100 }
  function Blue(c: Color): Channel { c % 0x100 }
  function Alpha(c: Color): Channel { c / 0x100_0000 }

  /** The accessors give back the components a colour was made of. */
  lemma ComponentsRoundTrip(r: Channel, g: Channel, b: Channel, a: Channel)
    ensures var c := MakeColor(r, g, b, a);
      Red(c) == r && Green(c) == g && Blue(c) == b && Alpha(c) == a
  {
    var c := MakeColor(r, g, b, a);
    DivMod(c, 0x1_0000, a * 0x100 + r, g * 0x100 + b);
    DivMod(a * 0x100 + r, 0x100, a, r);
    DivMod(c, 0x100, a * 0x1_0000 + r * 0x100 + g, b);
    DivMod(a * 0x1_0000 + r * 0x100 + g, 0x100, a * 0x100 + r, g);
    DivMod(c, 0x100_0000, a, r * 0x1_0000 + g * 0x100 + b);
  }

  /** A colour is made of its components. */
  lemma ColorRoundTrip(c: Color)
    ensures MakeColor(Red(c), Green(c), Blue(c), Alpha(c)) == c
  {
    var q1, b := c / 0x100, c % 0x100;
    var q2, g := q1 / 0x100, q1 % 0x100;
    var a, r := q2 / 0x100, q2 % 0x100;
    DivMod(c, 0x1_0000, q2, g * 0x100 + b);
    DivMod(c, 0x100_0000, a, r * 0x1_0000 + g * 0x100 + b);
  }

  /** Euclidean division is unique: n = q * k + r with 0 <= r < k fixes the quotient and the remainder. */
  lemma DivMod(n: int, k: int, q: int, r: int)
    requires k > 0 && 0 <= r < k && n == q * k + r
    ensures n / k == q && n % k == r
  {
    var q', r' := n / k, n % k;
    assert (q - q') * k == r' - r;
    if q > q' {
      MulMono(1, q - q', k);
    } else if q < q' {
      MulMono(1, q' - q, k);
    }
  }

  /** One channel of mergeColors: (c0 * (256 - w)) >> 8 plus (c1 * w) >> 8, on channel values in [0, 255]. */
  function MergeChannel(c0: nat, c1: nat, w: nat): (v: nat)
    requires c0 <= 255 && c1 <= 255 && w <= 256
    ensures v <= 255
    ensures w == 0 ==> v == c0
    ensures w == 256 ==> v == c1
    ensures Min(c0, c1) <= v + 1 && v <= Max(c0, c1)
  {
    MergeBounds(c0, c1, w);
    c0 * (256 - w) / 256 + c1 * w / 256
  }

  /** The two shifted products stay between min(a, b) - 1 and max(a, b), and give a or b at the ends. */
  lemma MergeBounds(a: nat, b: nat, w: nat)
    requires a <= 255 && b <= 255 && w <= 256
    ensures var v := a * (256 - w) / 256 + b * w / 256;
      v <= Max(a, b) && Min(a, b) <= v + 1 && (w == 0 ==> v == a) && (w == 256 ==> v == b)
  {
    var lo, hi := Min(a, b), Max(a, b);
    MulMono(lo, a, 256 - w);
    MulMono(a, hi, 256 - w);
    MulMono(lo, b, w);
    MulMono(b, hi, w);
    assert lo * (256 - w) + lo * w == lo * 256;
    assert hi * (256 - w) + hi * w == hi * 256;
    if w == 0 {
      DivMod(a * 256, 256, a, 0);
    } else if w == 256 {
      DivMod(b * 256, 256, b, 0);
    }
  }

  lemma MulMono(x: nat, y: nat, k: nat)
    requires x <= y
    ensures x * k <= y * k
  {
  }

  /**
   * mergeColors with the weight already scaled to an integer w = weight * 256
   * in [0, 256]: each channel blends c0 and c1, and the alpha byte is 0.
   */
  function MergeColors(c0: Color, c1: Color, w: nat): (c: Color)
    requires w <= 256
    ensures Alpha(c) == 0
    ensures Red(c) == MergeChannel(Red(c0), Red(c1), w)
    ensures Green(c) == MergeChannel(Green(c0), Green(c1), w)
    ensures Blue(c) == MergeChannel(Blue(c0), Blue(c1), w)
  {
    var r := MergeChannel(Red(c0), Red(c1), w);
    var g := MergeChannel(Green(c0), Green(c1), w);
    var b := MergeChannel(Blue(c0), Blue(c1), w);
    ComponentsRoundTrip(r, g, b, 0);
    MakeColor(r, g, b, 0)
  }

  /** Weight 0 keeps the first colour and weight 256 takes the second, each with alpha cleared. */
  lemma MergeEndpoints(c0: Color, c1: Color)
    ensures MergeColors(c0, c1, 0) == MakeColor(Red(c0), Green(c0), Blue(c0), 0)
    ensures MergeColors(c0, c1, 256) == MakeColor(Red(c1), Green(c1), Blue(c1), 0)
  {
    var m0, m1 := MergeColors(c0, c1, 0), MergeColors(c0, c1, 256);
    ColorRoundTrip(m0);
    ColorRoundTrip(m1);
  }

  // ---------------------------------------------------------------------------
  // The canvas

  /** A MemoryCanvas: its pixel block, Height() rows of Width() pixels. */
  class Canvas {
    var pixels: array2<Color>

    function Width(): nat
      reads this
    {
      pixels.Length1
    }

    function Height(): nat
      reads this
    {
      pixels.Length0
    }

    constructor (width: nat, height: nat)
      ensures Width() == width && Height() == height && fresh(pixels)
    {
      pixels := new Color[height, width];
    }

    predicate InBounds(x: int, y: int)
      reads this
    {
      0 <= x < Width() && 0 <= y < Height()
    }
  }

  /** resizeCanvasPredictive's roundUp: (x + 16) with the low four bits cleared. */
  function RoundUp(x: nat): (r: nat)
    ensures r % 16 == 0 && x < r <= x + 16
  {
    (x + 16) - (x + 16) % 16
  }

  /** A larger request never rounds up to a smaller size. */
  lemma RoundUpMonotone(x: nat, y: nat)
    requires x <= y
    ensures RoundUp(x) <= RoundUp(y)
  {
  }

  /** Whether resizeCanvasPredictive keeps a canvas of size w x h for a request of width x height. */
  predicate KeepsCanvas(w: nat, h: nat, width: nat, height: nat) {
    !(w == 0 || h == 0 || w > width * 5 / 4 || h > height * 5 / 4) && !(w < width || h < height)
  }

  /**
   * resizeCanvasPredictive: an empty or more than 5/4 oversized canvas is
   * reallocated at the requested size, rounded up; one that is too small at
   * 5/4 of the requested size, rounded up; otherwise it is kept.
   */
  method ResizeCanvasPredictive(canvas: Canvas, width: nat, height: nat)
    modifies canvas
    ensures KeepsCanvas(old(canvas.Width()), old(canvas.Height()), width, height) ==>
      canvas.pixels == old(canvas.pixels)
    ensures !KeepsCanvas(old(canvas.Width()), old(canvas.Height()), width, height) ==>
      fresh(canvas.pixels) && canvas.Width() % 16 == 0 && canvas.Height() % 16 == 0
    ensures var w, h := old(canvas.Width()), old(canvas.Height());
      w == 0 || h == 0 || w > width * 5 / 4 || h > height * 5 / 4 ==>
        canvas.Width() == RoundUp(width) && canvas.Height() == RoundUp(height)
    ensures var w, h := old(canvas.Width()), old(canvas.Height());
      !(w == 0 || h == 0 || w > width * 5 / 4 || h > height * 5 / 4) && (w < width || h < height) ==>
        canvas.Width() == RoundUp(width * 5 / 4) && canvas.Height() == RoundUp(height * 5 / 4)
    ensures canvas.Width() >= width && canvas.Height() >= height
    ensures canvas.Width() <= RoundUp(width * 5 / 4) && canvas.Height() <= RoundUp(height * 5 / 4)
  {
    var w, h := canvas.Width(), canvas.Height();
    RoundUpMonotone(width, width * 5 / 4);
    RoundUpMonotone(height, height * 5 / 4);
    if w == 0 || h == 0 || w > width * 5 / 4 || h > height * 5 / 4 {
      canvas.pixels := new Color[RoundUp(height), RoundUp(width)];
    } else if w < width || h < height {
      canvas.pixels := new Color[RoundUp(height * 5 / 4), RoundUp(width * 5 / 4)];
    }
  }

  /** clearCanvas: every pixel becomes the colour. */
  method ClearCanvas(canvas: Canvas, color: Color)
    modifies canvas.pixels
    ensures forall y, x | 0 <= y < canvas.Height() && 0 <= x < canvas.Width() :: canvas.pixels[y, x] == color
  {
    var p := canvas.pixels;
    var y := 0;
    while y < p.Length0
      invariant 0 <= y <= p.Length0
      invariant forall y', x | 0 <= y' < y && 0 <= x < p.Length1 :: p[y', x] == color
    {
      var x := 0;
      while x < p.Length1
        invariant 0 <= x <= p.Length1
        invariant forall y', x' | 0 <= y' < y && 0 <= x' < p.Length1 :: p[y', x'] == color
        invariant forall x' | 0 <= x' < x :: p[y, x'] == color
      {
        p[y, x] := color;
        x := x + 1;
      }
      y := y + 1;
    }
  }

  /** Sets columns [left, right) of row y, the inner loop of the rectangle fill. */
  method FillRow(canvas: Canvas, y: nat, left: nat, right: nat, color: Color)
    requires y < canvas.Height() && left <= right <= canvas.Width()
    modifies canvas.pixels
    ensures forall y', x | 0 <= y' < canvas.Height() && 0 <= x < canvas.Width() ::
      canvas.pixels[y', x] == if y' == y && left <= x < right then color else old(canvas.pixels[y', x])
  {
    var p := canvas.pixels;
    var x := left;
    while x < right
      invariant left <= x <= right
      invariant forall y', x' | 0 <= y' < p.Length0 && 0 <= x' < p.Length1 ::
        p[y', x'] == if y' == y && left <= x' < x then color else old(p[y', x'])
    {
      p[y, x] := color;
      x := x + 1;
    }
  }

  /** The pixels that fillCanvasRect writes as it stands: columns [left, right) of rows [0, height), whatever the top. */
  predicate FilledAsWritten(rect: Rect, x: int, y: int) {
    rect.left <= x < rect.right && 0 <= y < rect.Height()
  }

  /**
   * fillCanvasRect as written: the row offset starts from 0 instead of
   * rect.top, so the rows filled are the first rect.Height() rows of the canvas.
   */
  method FillCanvasRectAsWritten(canvas: Canvas, rect: Rect, color: Color)
    requires 0 <= rect.left <= rect.right <= canvas.Width()
    requires 0 <= rect.Height() <= canvas.Height()
    modifies canvas.pixels
    ensures forall y, x | 0 <= y < canvas.Height() && 0 <= x < canvas.Width() ::
      canvas.pixels[y, x] == if FilledAsWritten(rect, x, y) then color else old(canvas.pixels[y, x])
  {
    var j := 0;
    while j < rect.Height()
      invariant 0 <= j <= rect.Height()
      invariant forall y, x | 0 <= y < canvas.Height() && 0 <= x < canvas.Width() ::
        canvas.pixels[y, x] == if rect.left <= x < rect.right && y < j then color else old(canvas.pixels[y, x])
    {
      FillRow(canvas, j, rect.left, rect.right, color);
      j := j + 1;
    }
  }

  /** The rectangle starting at row 1 shows it: row 0, outside the rectangle, is filled, and its last row is not. */
  lemma FillIgnoresTop()
    ensures var rect := Rect(0, 1, 1, 2);
      FilledAsWritten(rect, 0, 0) && !rect.Contains(0, 0)
      && rect.Contains(0, 1) && !FilledAsWritten(rect, 0, 1)
  {
  }

  /** fillCanvasRect as intended: exactly the pixels of the rectangle take the colour. */
  method FillCanvasRect(canvas: Canvas, rect: Rect, color: Color)
    requires 0 <= rect.left <= rect.right <= canvas.Width()
    requires 0 <= rect.top <= rect.bottom <= canvas.Height()
    modifies canvas.pixels
    ensures forall y, x | 0 <= y < canvas.Height() && 0 <= x < canvas.Width() ::
      canvas.pixels[y, x] == if rect.Contains(x, y) then color else old(canvas.pixels[y, x])
  {
    var j := 0;
    while j < rect.Height()
      invariant 0 <= j <= rect.Height()
      invariant forall y, x | 0 <= y < canvas.Height() && 0 <= x < canvas.Width() ::
        canvas.pixels[y, x] == if rect.left <= x < rect.right && rect.top <= y < rect.top + j
                               then color else old(canvas.pixels[y, x])
    {
      FillRow(canvas, rect.top + j, rect.left, rect.right, color);
      j := j + 1;
    }
  }

  /** The memcpy of one row: dest row dy gets source row sy's pixels [sx, sx + width) from column dx on. */
  method CopyRow(dest: Canvas, source: Canvas, dy: nat, dx: nat, sy: nat, sx: nat, width: nat)
    requires dest.pixels != source.pixels
    requires dy < dest.Height() && dx + width <= dest.Width()
    requires sy < source.Height() && sx + width <= source.Width()
    modifies dest.pixels
    ensures forall y, x | 0 <= y < dest.Height() && 0 <= x < dest.Width() ::
      dest.pixels[y, x] == if y == dy && dx <= x < dx + width then source.pixels[sy, sx + x - dx]
                           else old(dest.pixels[y, x])
  {
    var d, s := dest.pixels, source.pixels;
    var i := 0;
    while i < width
      invariant 0 <= i <= width
      invariant forall y, x | 0 <= y < d.Length0 && 0 <= x < d.Length1 ::
        d[y, x] == if y == dy && dx <= x < dx + i then s[sy, sx + x - dx] else old(d[y, x])
    {
      d[dy, dx + i] := s[sy, sx + i];
      i := i + 1;
    }
  }

  /**
   * copyCanvasRect: row by row, the destination rectangle takes the source's
   * pixels from (sourceX, sourceY) on; nothing else changes.
   */
  method CopyCanvasRect(dest: Canvas, source: Canvas, destRect: Rect, sourceX: nat, sourceY: nat)
    requires dest.pixels != source.pixels
    requires 0 <= destRect.left <= destRect.right <= dest.Width()
    requires 0 <= destRect.top <= destRect.bottom <= dest.Height()
    requires sourceX + destRect.Width() <= source.Width() && sourceY + destRect.Height() <= source.Height()
    modifies dest.pixels
    ensures forall y, x | 0 <= y < dest.Height() && 0 <= x < dest.Width() ::
      dest.pixels[y, x] == if destRect.Contains(x, y)
                           then source.pixels[sourceY + y - destRect.top, sourceX + x - destRect.left]
                           else old(dest.pixels[y, x])
  {
    var j := 0;
    while j < destRect.Height()
      invariant 0 <= j <= destRect.Height()
      invariant forall y, x | 0 <= y < dest.Height() && 0 <= x < dest.Width() ::
        dest.pixels[y, x] == if destRect.left <= x < destRect.right && destRect.top <= y < destRect.top + j
                             then source.pixels[sourceY + y - destRect.top, sourceX + x - destRect.left]
                             else old(dest.pixels[y, x])
    {
      CopyRow(dest, source, destRect.top + j, destRect.left, sourceY + j, sourceX, destRect.Width());
      j := j + 1;
    }
  }

  /** The clip tests of plot and the lines; the clip lies inside the canvas. */
  predicate ClipInside(canvas: Canvas, clip: Rect)
    reads canvas
  {
    0 <= clip.left && clip.right <= canvas.Width() && 0 <= clip.top && clip.bottom <= canvas.Height()
  }

  /** plot: the pixel takes the colour if it lies inside the clip rectangle. */
  method Plot(canvas: Canvas, clip: Rect, x: int, y: int, color: Color)
    requires ClipInside(canvas, clip)
    modifies canvas.pixels
    ensures forall y', x' | 0 <= y' < canvas.Height() && 0 <= x' < canvas.Width() ::
      canvas.pixels[y', x'] == if x' == x && y' == y && clip.Contains(x, y) then color else old(canvas.pixels[y', x'])
  {
    if x >= clip.left && x < clip.right && y >= clip.top && y < clip.bottom {
      canvas.pixels[y, x] := color;
    }
  }

  /** plot with a weight (already scaled to w in [0, 256]): the pixel inside the clip is blended towards the colour. */
  method PlotBlended(canvas: Canvas, clip: Rect, x: int, y: int, color: Color, w: nat)
    requires ClipInside(canvas, clip) && w <= 256
    modifies canvas.pixels
    ensures forall y', x' | 0 <= y' < canvas.Height() && 0 <= x' < canvas.Width() ::
      canvas.pixels[y', x'] == if x' == x && y' == y && clip.Contains(x, y)
                               then MergeColors(old(canvas.pixels[y, x]), color, w) else old(canvas.pixels[y', x'])
  {
    if x >= clip.left && x < clip.right && y >= clip.top && y < clip.bottom {
      canvas.pixels[y, x] := MergeColors(canvas.pixels[y, x], color, w);
    }
  }

  /** std::clamp(v, lo, hi). */
  function Clamp(v: int, lo: int, hi: int): (r: int)
    requires lo <= hi
    ensures lo <= r <= hi
    ensures lo <= v <= hi ==> r == v
  {
    if v < lo then lo else if hi < v then hi else v
  }

  function Min(a: int, b: int): int { if a < b then a else b }
  function Max(a: int, b: int): int { if a < b then b else a }

  /**
   * The pixels drawHorizontalLine writes: row y if the clip holds it, from
   * the smaller end to the larger one, each clamped to the clip's columns.
   */
  predicate OnHorizontalLine(clip: Rect, y: int, x0: int, x1: int, x: int, y': int)
    requires clip.left < clip.right
  {
    y' == y && clip.top <= y < clip.bottom
    && Clamp(Min(x0, x1), clip.left, clip.right - 1) <= x <= Clamp(Max(x0, x1), clip.left, clip.right - 1)
  }

  /** drawHorizontalLine. */
  method DrawHorizontalLine(canvas: Canvas, clip: Rect, color: Color, y: int, x0: int, x1: int)
    requires ClipInside(canvas, clip) && clip.left < clip.right
    modifies canvas.pixels
    ensures forall y', x | 0 <= y' < canvas.Height() && 0 <= x < canvas.Width() ::
      canvas.pixels[y', x] == if OnHorizontalLine(clip, y, x0, x1, x, y') then color else old(canvas.pixels[y', x])
  {
    if y >= clip.top && y < clip.bottom {
      var a, b := x0, x1;
      if a > b {
        a, b := b, a;
      }
      a := Clamp(a, clip.left, clip.right - 1);
      b := Clamp(b, clip.left, clip.right - 1);
      FillRow(canvas, y, a, b + 1, color);
    }
  }

  /** The pixels drawVerticalLine writes: drawHorizontalLine with the axes swapped. */
  predicate OnVerticalLine(clip: Rect, x: int, y0: int, y1: int, x': int, y: int)
    requires clip.top < clip.bottom
  {
    x' == x && clip.left <= x < clip.right
    && Clamp(Min(y0, y1), clip.top, clip.bottom - 1) <= y <= Clamp(Max(y0, y1), clip.top, clip.bottom - 1)
  }

  /** drawVerticalLine: the pointer steps by one row from the upper end to the lower one. */
  method DrawVerticalLine(canvas: Canvas, clip: Rect, color: Color, x: int, y0: int, y1: int)
    requires ClipInside(canvas, clip) && clip.top < clip.bottom
    modifies canvas.pixels
    ensures forall y, x' | 0 <= y < canvas.Height() && 0 <= x' < canvas.Width() ::
      canvas.pixels[y, x'] == if OnVerticalLine(clip, x, y0, y1, x', y) then color else old(canvas.pixels[y, x'])
  {
    if x >= clip.left && x < clip.right {
      var a, b := y0, y1;
      if a > b {
        a, b := b, a;
      }
      a := Clamp(a, clip.top, clip.bottom - 1);
      b := Clamp(b, clip.top, clip.bottom - 1);
      var p := canvas.pixels;
      var j := a;
      while j <= b
        invariant a <= j <= b + 1
        invariant forall y, x' | 0 <= y < p.Length0 && 0 <= x' < p.Length1 ::
          p[y, x'] == if x' == x && a <= y < j then color else old(p[y, x'])
      {
        p[j, x] := color;
        j := j + 1;
      }
    }
  }

  /** A line never leaves its clip rectangle, and one whose ends lie in the clip covers exactly the span between them. */
  lemma HorizontalLineInClip(clip: Rect, y: int, x0: int, x1: int, x: int, y': int)
    requires clip.left < clip.right
    ensures OnHorizontalLine(clip, y, x0, x1, x, y') ==> clip.Contains(x, y')
    ensures clip.top <= y < clip.bottom && clip.left <= x0 < clip.right && clip.left <= x1 < clip.right ==>
      (OnHorizontalLine(clip, y, x0, x1, x, y') <==> y' == y && Min(x0, x1) <= x <= Max(x0, x1))
  {
  }

  /** The same for vertical lines. */
  lemma VerticalLineInClip(clip: Rect, x: int, y0: int, y1: int, x': int, y: int)
    requires clip.top < clip.bottom
    ensures OnVerticalLine(clip, x, y0, y1, x', y) ==> clip.Contains(x', y)
    ensures clip.left <= x < clip.right && clip.top <= y0 < clip.bottom && clip.top <= y1 < clip.bottom ==>
      (OnVerticalLine(clip, x, y0, y1, x', y) <==> x' == x && Min(y0, y1) <= y <= Max(y0, y1))
  {
  }
}
