/**
 * The pixel and timing rules of the graph printer (graph_printer.hpp): the
 * 2x downsampler from the high-resolution buffer to the back buffer, the
 * draw-deadline catch-up loop and the buffer sizes kept by drawAndSwapBuffers.
 */
module GraphPrinter {
  import opened CanvasDrawing

  /** The high-resolution buffer is ANTI_ALIASING times the back buffer in each direction. */
  const ANTI_ALIASING: nat := 2

  /** A std::uint16_t conversion: the value modulo 2^16. */
  function Uint16(x: int): (r: int)
    ensures 0 <= r < 0x1_0000
    ensures 0 <= x < 0x1_0000 ==> r == x
  {
    x % 0x1_0000
  }

  // ---------------------------------------------------------------------------
  // scaleBitmap2

  /** One output pixel: the floor of the mean of each channel of the four inputs; bits 24-31 are 0. */
  function Average4(p0: Color, p1: Color, p2: Color, p3: Color): Color {
    var r := (Red(p0) + Red(p1) + Red(p2) + Red(p3)) / 4;
    var g := (Green(p0) + Green(p1) + Green(p2) + Green(p3)) / 4;
    var b := (Blue(p0) + Blue(p1) + Blue(p2) + Blue(p3)) / 4;
    MakeColor(r, g, b, 0)
  }

  /** Each channel of Average4 is the floor of the mean of the inputs' channels, and its top byte is 0. */
  lemma Average4Channels(p0: Color, p1: Color, p2: Color, p3: Color)
    ensures var q := Average4(p0, p1, p2, p3);
      && Alpha(q) == 0
      && Red(q) == (Red(p0) + Red(p1) + Red(p2) + Red(p3)) / 4
      && Green(q) == (Green(p0) + Green(p1) + Green(p2) + Green(p3)) / 4
      && Blue(q) == (Blue(p0) + Blue(p1) + Blue(p2) + Blue(p3)) / 4
  {
    var r := (Red(p0) + Red(p1) + Red(p2) + Red(p3)) / 4;
    var g := (Green(p0) + Green(p1) + Green(p2) + Green(p3)) / 4;
    var b := (Blue(p0) + Blue(p1) + Blue(p2) + Blue(p3)) / 4;
    ComponentsRoundTrip(r, g, b, 0);
  }

  /** Four copies of a colour whose top byte is 0 average to that colour. */
  lemma UniformAverage(p: Color)
    requires Alpha(p) == 0
    ensures Average4(p, p, p, p) == p
  {
    var q := Average4(p, p, p, p);
    Average4Channels(p, p, p, p);
    assert Red(q) == Red(p) && Green(q) == Green(p) && Blue(q) == Blue(p) && Alpha(q) == Alpha(p);
    ColorRoundTrip(p);
    ColorRoundTrip(q);
  }

  /** The start of row k in rows of w pixels, k * w, by repeated addition. */
  function RowStart(k: nat, w: nat): nat {
    if k == 0 then 0 else RowStart(k - 1, w) + w
  }

  lemma {:induction false} RowStartIsProduct(k: nat, w: nat)
    ensures RowStart(k, w) == k * w
  {
    if k > 0 {
      RowStartIsProduct(k - 1, w);
      assert (k - 1) * w + w == k * w;
    }
  }

  /** A row before row b ends no later than row b starts. */
  lemma {:induction false} RowStartBelow(a: nat, b: nat, w: nat)
    requires a < b
    ensures RowStart(a, w) + w <= RowStart(b, w)
    decreases b - a
  {
    if a + 1 < b {
      RowStartBelow(a + 1, b, w);
    }
  }

  /** Rows 2k and 2k + 1 of a 2w-wide buffer start at 4 * RowStart(k, w) and 2w later. */
  lemma {:induction false} DoubleRows(k: nat, w: nat)
    ensures RowStart(2 * k, 2 * w) == 4 * RowStart(k, w)
    ensures RowStart(2 * k + 1, 2 * w) == 4 * RowStart(k, w) + 2 * w
  {
    if k > 0 {
      DoubleRows(k - 1, w);
      assert RowStart(2 * k - 1, 2 * w) == RowStart(2 * k - 2, 2 * w) + 2 * w;
    }
  }

  /** scaleBitmap2 as it stands, and as evidently intended. */
  datatype Version = AsWritten | Intended

  /**
   * How far the second source row of a 2x2 block lies past the first: the
   * source width 2w as intended, but 1 as written (iTimesWidth + 1 + j where
   * iTimesWidth + scaledWidth + j was meant).
   */
  function SecondRow(v: Version, w: nat): nat {
    match v
    case AsWritten => 1
    case Intended => 2 * w
  }

  /**
   * The source index of p_t (t = 0, 1, 2, 3) for the output pixel written at
   * iTimesWidth / 4 + j / 2: p0 and p1 are columns j and j + 1 of the source
   * row starting at iTimesWidth, p2 and p3 the same columns SecondRow later.
   */
  function Read(v: Version, w: nat, iTimesWidth: nat, j: nat, t: nat): nat
    requires t < 4
  {
    iTimesWidth + (if t < 2 then 0 else SecondRow(v, w)) + j + t % 2
  }

  /**
   * As written, p1 and p2 are the same source pixel, the pixel below p1 is
   * never read, and when the target is wider than one pixel no pixel of the
   * second source row of the block is read at all.
   */
  lemma AsWrittenSkipsSecondRow(w: nat, iTimesWidth: nat, j: nat)
    requires j < 2 * w
    ensures Read(AsWritten, w, iTimesWidth, j, 1) == Read(AsWritten, w, iTimesWidth, j, 2)
    ensures forall t | 0 <= t < 4 :: Read(AsWritten, w, iTimesWidth, j, t) != Read(Intended, w, iTimesWidth, j, 3)
    ensures w > 1 ==> forall t | 0 <= t < 4 :: Read(AsWritten, w, iTimesWidth, j, t) != Read(Intended, w, iTimesWidth, j, 2)
  {
  }

  /** For output row k < h, column c < w, every index either version reads lies inside the 2w x 2h source. */
  lemma ReadBounds(v: Version, w: nat, h: nat, k: nat, c: nat, iTimesWidth: nat, j: nat)
    requires k < h && c < w && iTimesWidth == 4 * RowStart(k, w) && j == 2 * c
    ensures iTimesWidth + 2 * w + j + 1 < 4 * RowStart(h, w)
    ensures iTimesWidth + SecondRow(v, w) + j + 1 < 4 * RowStart(h, w)
  {
    RowStartBelow(k, h, w);
  }

  /** The average of the four source pixels p0..p3 read for the output pixel at iTimesWidth / 4 + j / 2. */
  function AverageAt(s: seq<Color>, v: Version, w: nat, iTimesWidth: nat, j: nat): Color
    requires iTimesWidth + SecondRow(v, w) + j + 1 < |s|
  {
    Average4(s[Read(v, w, iTimesWidth, j, 0)], s[Read(v, w, iTimesWidth, j, 1)],
             s[Read(v, w, iTimesWidth, j, 2)], s[Read(v, w, iTimesWidth, j, 3)])
  }

  /** The first c values f(k, 0), ..., f(k, c - 1) of row k. */
  function RowPrefix<T>(f: (nat, nat) -> T, k: nat, c: nat): (r: seq<T>)
    ensures |r| == c
  {
    if c == 0 then [] else RowPrefix(f, k, c - 1) + [f(k, c - 1)]
  }

  /** Rows 0 .. h - 1 of w values each, laid out one after the other: f(k, c) lands at RowStart(k, w) + c. */
  function RowMajor<T>(f: (nat, nat) -> T, w: nat, h: nat): (r: seq<T>)
    ensures |r| == RowStart(h, w)
  {
    if h == 0 then [] else RowMajor(f, w, h - 1) + RowPrefix(f, h - 1, w)
  }

  lemma {:induction false} RowPrefixAt<T>(f: (nat, nat) -> T, k: nat, c: nat, n: nat)
    requires c < n
    ensures RowPrefix(f, k, n)[c] == f(k, c)
  {
    if c < n - 1 {
      RowPrefixAt(f, k, c, n - 1);
    }
  }

  /** Entry RowStart(k, w) + c of the row-major layout of h rows is f(k, c). */
  lemma {:induction false} RowMajorAt<T>(f: (nat, nat) -> T, w: nat, h: nat, k: nat, c: nat)
    requires k < h && c < w
    ensures RowStart(k, w) + c < RowStart(h, w) && RowMajor(f, w, h)[RowStart(k, w) + c] == f(k, c)
  {
    RowStartBelow(k, h, w);
    if k < h - 1 {
      RowMajorAt(f, w, h - 1, k, c);
    } else {
      RowPrefixAt(f, k, c, w);
    }
  }

  /**
   * Output pixel (k, c) of the given version: the average of the pixels read
   * at iTimesWidth = 4 * RowStart(k, w) and j = 2c. Positions whose reads
   * would leave the source are never used (ReadBounds) and give 0.
   */
  function PixelAt(v: Version, s: seq<Color>, w: nat, k: nat, c: nat): Color {
    if 4 * RowStart(k, w) + SecondRow(v, w) + 2 * c + 1 < |s| then AverageAt(s, v, w, 4 * RowStart(k, w), 2 * c) else 0
  }

  /** The whole w x h target image of the given version. */
  function ScaledImage(v: Version, s: seq<Color>, w: nat, h: nat): seq<Color> {
    RowMajor((k: nat, c: nat) => PixelAt(v, s, w, k, c), w, h)
  }

  /**
   * Target pixel (k, c), at RowStart(k, w) + c, is the average of the source
   * pixels the version reads for it.
   */
  lemma ImagePixel(v: Version, s: seq<Color>, w: nat, h: nat, k: nat, c: nat)
    requires 4 * RowStart(h, w) <= |s| && k < h && c < w
    ensures RowStart(k, w) + c < RowStart(h, w) && 4 * RowStart(k, w) + SecondRow(v, w) + 2 * c + 1 < |s|
    ensures |ScaledImage(v, s, w, h)| == RowStart(h, w)
    ensures ScaledImage(v, s, w, h)[RowStart(k, w) + c] == AverageAt(s, v, w, 4 * RowStart(k, w), 2 * c)
  {
    RowMajorAt((k: nat, c: nat) => PixelAt(v, s, w, k, c), w, h, k, c);
    ReadBounds(v, w, h, k, c, 4 * RowStart(k, w), 2 * c);
  }

  /**
   * As intended, output (k, c) is the mean of source pixels (2c, 2k),
   * (2c + 1, 2k), (2c, 2k + 1) and (2c + 1, 2k + 1) of the 2w-wide source,
   * pixel (x, y) being at RowStart(y, 2w) + x.
   */
  lemma ScaledIsBlockMean(s: seq<Color>, w: nat, h: nat, k: nat, c: nat)
    requires 4 * RowStart(h, w) <= |s| && k < h && c < w
    ensures RowStart(k, w) + c < RowStart(h, w) && RowStart(2 * k + 1, 2 * w) + 2 * c + 1 < |s|
    ensures ScaledImage(Intended, s, w, h)[RowStart(k, w) + c]
         == Average4(s[RowStart(2 * k, 2 * w) + 2 * c], s[RowStart(2 * k, 2 * w) + 2 * c + 1],
                     s[RowStart(2 * k + 1, 2 * w) + 2 * c], s[RowStart(2 * k + 1, 2 * w) + 2 * c + 1])
  {
    ImagePixel(Intended, s, w, h, k, c);
    DoubleRows(k, w);
  }

  /** Both versions reproduce a uniform source whose top byte is 0. */
  lemma UniformIsReproduced(v: Version, s: seq<Color>, w: nat, h: nat, k: nat, c: nat, p: Color)
    requires 4 * RowStart(h, w) <= |s| && k < h && c < w && Alpha(p) == 0
    requires forall t | 0 <= t < |s| :: s[t] == p
    ensures RowStart(k, w) + c < RowStart(h, w) && ScaledImage(v, s, w, h)[RowStart(k, w) + c] == p
  {
    ImagePixel(v, s, w, h, k, c);
    var iTimesWidth, j := 4 * RowStart(k, w), 2 * c;
    assert s[Read(v, w, iTimesWidth, j, 0)] == s[Read(v, w, iTimesWidth, j, 1)] == p;
    assert s[Read(v, w, iTimesWidth, j, 2)] == s[Read(v, w, iTimesWidth, j, 3)] == p;
    UniformAverage(p);
  }

  /**
   * For a 2x2 source (one output pixel), the version as written averages
   * p0, p1, p1 and p2; as intended all four pixels.
   */
  lemma OnePixelImage(s: seq<Color>)
    requires |s| == 4
    ensures |ScaledImage(AsWritten, s, 1, 1)| == |ScaledImage(Intended, s, 1, 1)| == 1
    ensures ScaledImage(AsWritten, s, 1, 1)[0] == Average4(s[0], s[1], s[1], s[2])
    ensures ScaledImage(Intended, s, 1, 1)[0] == Average4(s[0], s[1], s[2], s[3])
  {
    assert RowStart(1, 1) == 1;
    ImagePixel(AsWritten, s, 1, 1, 0, 0);
    ImagePixel(Intended, s, 1, 1, 0, 0);
  }

  /**
   * A 2x2 source whose top row has blue 0 and whose bottom row has blue 4
   * (say black above, blue 4 below): as written the single output pixel
   * gets blue 1, as intended the true mean 2.
   */
  lemma AsWrittenMissesSecondRow(s: seq<Color>)
    requires |s| == 4 && Blue(s[0]) == Blue(s[1]) == 0 && Blue(s[2]) == Blue(s[3]) == 4
    ensures Blue(ScaledImage(AsWritten, s, 1, 1)[0]) == 1
    ensures Blue(ScaledImage(Intended, s, 1, 1)[0]) == 2
  {
    OnePixelImage(s);
    Average4Channels(s[0], s[1], s[1], s[2]);
    Average4Channels(s[0], s[1], s[2], s[3]);
  }

  /** The four pixels read, averaged: AverageAt in terms of the values p0..p3 at the indices Read names. */
  lemma AverageOf(s: seq<Color>, v: Version, w: nat, iTimesWidth: nat, j: nat, p0: Color, p1: Color, p2: Color, p3: Color)
    requires iTimesWidth + SecondRow(v, w) + j + 1 < |s|
    requires s[iTimesWidth + j] == p0 && s[iTimesWidth + j + 1] == p1
    requires s[iTimesWidth + SecondRow(v, w) + j] == p2 && s[iTimesWidth + SecondRow(v, w) + j + 1] == p3
    ensures AverageAt(s, v, w, iTimesWidth, j) == Average4(p0, p1, p2, p3)
  {
    assert Read(v, w, iTimesWidth, j, 0) == iTimesWidth + j;
    assert Read(v, w, iTimesWidth, j, 1) == iTimesWidth + j + 1;
    assert Read(v, w, iTimesWidth, j, 2) == iTimesWidth + SecondRow(v, w) + j;
    assert Read(v, w, iTimesWidth, j, 3) == iTimesWidth + SecondRow(v, w) + j + 1;
  }

  /**
   * One pass of the inner loop: the four pixels loaded for output (k, c)
   * average to the pixel the image has there, written at iTimesWidth / 4 + j / 2.
   */
  lemma PixelStep(v: Version, s: seq<Color>, w: nat, h: nat, k: nat, c: nat, iTimesWidth: nat, j: nat,
                  p0: Color, p1: Color, p2: Color, p3: Color)
    requires 4 * RowStart(h, w) <= |s| && k < h && c < w && iTimesWidth == 4 * RowStart(k, w) && j == 2 * c
    requires iTimesWidth + SecondRow(v, w) + j + 1 < |s|
    requires s[iTimesWidth + j] == p0 && s[iTimesWidth + j + 1] == p1
    requires s[iTimesWidth + SecondRow(v, w) + j] == p2 && s[iTimesWidth + SecondRow(v, w) + j + 1] == p3
    ensures iTimesWidth / 4 + j / 2 == RowStart(k, w) + c && RowStart(k, w) + c < |ScaledImage(v, s, w, h)|
    ensures ScaledImage(v, s, w, h)[RowStart(k, w) + c] == Average4(p0, p1, p2, p3)
  {
    ImagePixel(v, s, w, h, k, c);
    AverageOf(s, v, w, iTimesWidth, j, p0, p1, p2, p3);
    WriteIndex(w, k, c, iTimesWidth, j);
  }

  /** The inner loop writes output (k, c) at iTimesWidth / 4 + j / 2 = RowStart(k, w) + c. */
  lemma WriteIndex(w: nat, k: nat, c: nat, iTimesWidth: nat, j: nat)
    requires iTimesWidth == 4 * RowStart(k, w) && j == 2 * c
    ensures iTimesWidth / 4 + j / 2 == RowStart(k, w) + c
  {
    DivMod(iTimesWidth, 4, RowStart(k, w), 0);
    DivMod(j, 2, c, 0);
  }

  /** Writing the expected pixel at index n just past an expected prefix extends that prefix by one and keeps what follows. */
  lemma WritePastPrefix(before: seq<Color>, after: seq<Color>, n: nat, expected: seq<Color>)
    requires n < |before| && n < |expected| && before[..n] == expected[..n] && after == before[n := expected[n]]
    ensures after[..n + 1] == expected[..n + 1] && after[n + 1..] == before[n + 1..]
  {
    assert after[..n + 1] == before[..n] + [expected[n]];
    assert expected[..n + 1] == expected[..n] + [expected[n]];
  }

  /** The inner loop of scaleBitmap2 as written, for output row k (iTimesWidth = 4kw). */
  method ScaleRowAsWritten(target: array<Color>, source: array<Color>, width: nat, height: nat,
                  ghost k: nat, iTimesWidth: nat, ghost expected: seq<Color>)
    requires target != source && target.Length >= RowStart(height, width) && source.Length >= 4 * RowStart(height, width)
    requires k < height && iTimesWidth == 4 * RowStart(k, width) && RowStart(k, width) + width <= RowStart(height, width)
    requires expected == ScaledImage(AsWritten, source[..], width, height)
    requires target[..RowStart(k, width)] == expected[..RowStart(k, width)]
    modifies target
    ensures target[..RowStart(k + 1, width)] == expected[..RowStart(k + 1, width)]
    ensures target[RowStart(k + 1, width)..] == old(target[RowStart(k + 1, width)..])
  {
    var scaledWidth := width * 2;
    var j := 0;
    ghost var c := 0;
    while j < scaledWidth
      invariant j == 2 * c && c <= width
      invariant target[..RowStart(k, width) + c] == expected[..RowStart(k, width) + c]
      invariant target[RowStart(k, width) + c..] == old(target[RowStart(k, width) + c..])
    {
      ReadBounds(AsWritten, width, height, k, c, iTimesWidth, j);
      var p0 := source[iTimesWidth + 0 + j + 0];
      var p1 := source[iTimesWidth + 0 + j + 1];
      var p2 := source[iTimesWidth + 1 + j + 0];
      var p3 := source[iTimesWidth + 1 + j + 1];
      PixelStep(AsWritten, source[..], width, height, k, c, iTimesWidth, j, p0, p1, p2, p3);
      ghost var before := target[..];
      target[iTimesWidth / 4 + j / 2] := Average4(p0, p1, p2, p3);
      WritePastPrefix(before, target[..], RowStart(k, width) + c, expected);
      j, c := j + 2, c + 1;
    }
  }

  /** The inner loop of scaleBitmap2 as intended, reading rows 2k and 2k + 1 of the source. */
  method ScaleRow(target: array<Color>, source: array<Color>, width: nat, height: nat,
                  ghost k: nat, iTimesWidth: nat, ghost expected: seq<Color>)
    requires target != source && target.Length >= RowStart(height, width) && source.Length >= 4 * RowStart(height, width)
    requires k < height && iTimesWidth == 4 * RowStart(k, width) && RowStart(k, width) + width <= RowStart(height, width)
    requires expected == ScaledImage(Intended, source[..], width, height)
    requires target[..RowStart(k, width)] == expected[..RowStart(k, width)]
    modifies target
    ensures target[..RowStart(k + 1, width)] == expected[..RowStart(k + 1, width)]
    ensures target[RowStart(k + 1, width)..] == old(target[RowStart(k + 1, width)..])
  {
    var scaledWidth := width * 2;
    var j := 0;
    ghost var c := 0;
    while j < scaledWidth
      invariant j == 2 * c && c <= width
      invariant target[..RowStart(k, width) + c] == expected[..RowStart(k, width) + c]
      invariant target[RowStart(k, width) + c..] == old(target[RowStart(k, width) + c..])
    {
      ReadBounds(Intended, width, height, k, c, iTimesWidth, j);
      var p0 := source[iTimesWidth + j];
      var p1 := source[iTimesWidth + j + 1];
      var p2 := source[iTimesWidth + scaledWidth + j];
      var p3 := source[iTimesWidth + scaledWidth + j + 1];
      PixelStep(Intended, source[..], width, height, k, c, iTimesWidth, j, p0, p1, p2, p3);
      ghost var before := target[..];
      target[iTimesWidth / 4 + j / 2] := Average4(p0, p1, p2, p3);
      WritePastPrefix(before, target[..], RowStart(k, width) + c, expected);
      j, c := j + 2, c + 1;
    }
  }

  /** While the row start is below the pixel count, the row is below h and ends within it. */
  lemma NextRow(k: nat, w: nat, h: nat)
    requires RowStart(k, w) < RowStart(h, w)
    ensures k < h && RowStart(k, w) + w <= RowStart(h, w)
  {
    if h < k {
      RowStartBelow(h, k, w);
    }
    if k < h {
      RowStartBelow(k, h, w);
    }
  }

  /** The loop bound of scaleBitmap2: (2h) * (2w) is four times the w * h target pixels. */
  lemma ScaledSize(w: nat, h: nat)
    ensures (h * 2) * (w * 2) == 4 * RowStart(h, w) && RowStart(h, w) == w * h
  {
    RowStartIsProduct(h, w);
  }

  /** Once the row start reaches the pixel count, it equals it: the loops stop exactly at w * h. */
  lemma LastRow(k: nat, w: nat, h: nat)
    requires k <= h && RowStart(k, w) >= RowStart(h, w)
    ensures RowStart(k, w) == RowStart(h, w)
  {
    if k < h {
      RowStartBelow(k, h, w);
    }
  }

  /** scaleBitmap2 as written: the first width * height target pixels become the as-written image; the rest stay. */
  method ScaleBitmap2AsWritten(target: array<Color>, source: array<Color>, width: nat, height: nat)
    requires target != source && target.Length >= width * height && source.Length >= 4 * (width * height)
    modifies target
    ensures RowStart(height, width) == width * height
    ensures target[..width * height] == ScaledImage(AsWritten, source[..], width, height)
    ensures target[width * height..] == old(target[width * height..])
  {
    ScaledSize(width, height);
    ghost var expected := ScaledImage(AsWritten, source[..], width, height);
    var scaledWidth := width * 2;
    var scaledHeight := height * 2;
    var scaledSize := scaledHeight * scaledWidth;
    var scaledStep := scaledWidth * 2;
    ghost var k := 0;
    var iTimesWidth := 0;
    while iTimesWidth < scaledSize
      invariant k <= height && iTimesWidth == 4 * RowStart(k, width) && RowStart(k, width) <= RowStart(height, width)
      invariant target[..RowStart(k, width)] == expected[..RowStart(k, width)]
      invariant target[RowStart(k, width)..] == old(target[RowStart(k, width)..])
    {
      NextRow(k, width, height);
      ghost var before := target[..];
      ScaleRowAsWritten(target, source, width, height, k, iTimesWidth, expected);
      assert before[RowStart(k + 1, width)..] == before[RowStart(k, width)..][width..];
      iTimesWidth := iTimesWidth + scaledStep;
      k := k + 1;
    }
    LastRow(k, width, height);
    assert expected[..RowStart(height, width)] == expected;
  }

  /** scaleBitmap2 as intended: the first width * height target pixels become the 2x2 block means; the rest stay. */
  method ScaleBitmap2(target: array<Color>, source: array<Color>, width: nat, height: nat)
    requires target != source && target.Length >= width * height && source.Length >= 4 * (width * height)
    modifies target
    ensures RowStart(height, width) == width * height
    ensures target[..width * height] == ScaledImage(Intended, source[..], width, height)
    ensures target[width * height..] == old(target[width * height..])
  {
    ScaledSize(width, height);
    ghost var expected := ScaledImage(Intended, source[..], width, height);
    var scaledWidth := width * 2;
    var scaledHeight := height * 2;
    var scaledSize := scaledHeight * scaledWidth;
    var scaledStep := scaledWidth * 2;
    ghost var k := 0;
    var iTimesWidth := 0;
    while iTimesWidth < scaledSize
      invariant k <= height && iTimesWidth == 4 * RowStart(k, width) && RowStart(k, width) <= RowStart(height, width)
      invariant target[..RowStart(k, width)] == expected[..RowStart(k, width)]
      invariant target[RowStart(k, width)..] == old(target[RowStart(k, width)..])
    {
      NextRow(k, width, height);
      ghost var before := target[..];
      ScaleRow(target, source, width, height, k, iTimesWidth, expected);
      assert before[RowStart(k + 1, width)..] == before[RowStart(k, width)..][width..];
      iTimesWidth := iTimesWidth + scaledStep;
      k := k + 1;
    }
    LastRow(k, width, height);
    assert expected[..RowStart(height, width)] == expected;
  }

  // ---------------------------------------------------------------------------
  // The draw deadline

  /** Where the catch-up loop leaves nextDraw: stepped by drawDelay while now has reached it. */
  function CaughtUp(now: int, nextDraw: int, drawDelay: nat): int
    decreases if drawDelay > 0 && now >= nextDraw then now - nextDraw + 1 else 0
  {
    if now >= nextDraw && drawDelay > 0 then CaughtUp(now, nextDraw + drawDelay, drawDelay) else nextDraw
  }

  /**
   * The catch-up lands on the first deadline after now that lies a whole
   * number m of periods after nextDraw; a zero delay leaves it alone.
   */
  lemma {:induction false} CaughtUpPeriods(now: int, nextDraw: int, drawDelay: nat) returns (m: nat)
    ensures CaughtUp(now, nextDraw, drawDelay) == nextDraw + m * drawDelay
    ensures drawDelay > 0 ==> CaughtUp(now, nextDraw, drawDelay) > now
    ensures m > 0 ==> drawDelay > 0 && nextDraw + (m - 1) * drawDelay <= now
    decreases if drawDelay > 0 && now >= nextDraw then now - nextDraw + 1 else 0
  {
    if now >= nextDraw && drawDelay > 0 {
      var m' := CaughtUpPeriods(now, nextDraw + drawDelay, drawDelay);
      m := m' + 1;
    } else {
      m := 0;
    }
  }

  /** The catch-up loop after a draw, with now held fixed. */
  method CatchUpDeadline(now: int, nextDraw: int, drawDelay: nat) returns (next: int)
    ensures next == CaughtUp(now, nextDraw, drawDelay)
    ensures drawDelay > 0 ==> next > now
    ensures drawDelay == 0 || nextDraw > now ==> next == nextDraw
  {
    next := nextDraw;
    while now >= next && drawDelay > 0
      invariant CaughtUp(now, next, drawDelay) == CaughtUp(now, nextDraw, drawDelay)
      invariant next == nextDraw || (drawDelay > 0 && next > nextDraw)
      decreases now - next
    {
      next := next + drawDelay;
    }
    var _ := CaughtUpPeriods(now, nextDraw, drawDelay);
  }

  // ---------------------------------------------------------------------------
  // Buffer sizes

  /** The width and height of a MemoryCanvas (uint16 values). */
  datatype Dims = Dims(width: int, height: int)

  /** Whether drawAndSwapBuffers resets the back buffer for a client of cw x ch. */
  predicate NeedsReset(resetFlag: bool, cw: int, ch: int, back: Dims) {
    resetFlag || cw > back.width || ch > back.height || cw < back.width / 2 || ch < back.height / 2
  }

  /** The buffers drawAndSwapBuffers keeps; the pixels drawn on them are not modelled. */
  class GraphPrinter {
    var front: Dims
    var back: Dims
    var highRes: Dims
    var resetBackBufferSizeFlag: bool

    /** All three buffers start as 0 x 0 and the reset flag is clear. */
    constructor ()
      ensures front == back == highRes == Dims(0, 0) && !resetBackBufferSizeFlag
    {
      front, back, highRes := Dims(0, 0), Dims(0, 0), Dims(0, 0);
      resetBackBufferSizeFlag := false;
    }

    /** resetBackBufferSize: the next drawn frame reallocates the back buffer. */
    method ResetBackBufferSize()
      modifies this
      ensures resetBackBufferSizeFlag && front == old(front) && back == old(back) && highRes == old(highRes)
    {
      resetBackBufferSizeFlag := true;
    }

    /**
     * drawAndSwapBuffers for a client rectangle of the given extent: nothing
     * happens unless both uint16 client sizes are at least 16; otherwise the
     * back buffer is resized by the reset rule, the high-resolution buffer
     * follows it, and the drawn back buffer is swapped to the front.
     */
    method DrawAndSwapBuffers(clientRectWidth: int, clientRectHeight: int) returns (drawn: bool)
      modifies this
      ensures var cw, ch := Uint16(clientRectWidth), Uint16(clientRectHeight);
        drawn <==> cw >= 16 && ch >= 16
      ensures !drawn ==> front == old(front) && back == old(back) && highRes == old(highRes)
                         && resetBackBufferSizeFlag == old(resetBackBufferSizeFlag)
      ensures drawn ==> back == old(front) && !resetBackBufferSizeFlag
      ensures drawn ==> var cw, ch := Uint16(clientRectWidth), Uint16(clientRectHeight);
        front == (if NeedsReset(old(resetBackBufferSizeFlag), cw, ch, old(back))
                  then Dims(Uint16(cw + 16), Uint16(ch + 16)) else old(back))
      ensures drawn ==> highRes == (if old(highRes) == Dims(front.width * ANTI_ALIASING, front.height * ANTI_ALIASING)
                                    then old(highRes)
                                    else Dims(Uint16(front.width * ANTI_ALIASING), Uint16(front.height * ANTI_ALIASING)))
    {
      var clientWidth := Uint16(clientRectWidth);
      var clientHeight := Uint16(clientRectHeight);
      drawn := clientWidth >= 16 && clientHeight >= 16;
      if drawn {
        if resetBackBufferSizeFlag || clientWidth > back.width || clientHeight > back.height
          || clientWidth < back.width / 2 || clientHeight < back.height / 2
        {
          resetBackBufferSizeFlag := false;
          back := Dims(Uint16(clientWidth + 16), Uint16(clientHeight + 16));
        }
        if highRes.width != back.width * ANTI_ALIASING || highRes.height != back.height * ANTI_ALIASING {
          highRes := Dims(Uint16(back.width * ANTI_ALIASING), Uint16(back.height * ANTI_ALIASING));
        }
        front, back := back, front;
      }
    }
  }

  /**
   * The frame drawn holds the client (given client + 16 fits in 16 bits),
   * is not more than twice its size, and the high-resolution buffer is twice
   * its size while that fits in 16 bits.
   */
  lemma DrawnFrameFitsClient(resetFlag: bool, cw: int, ch: int, back: Dims, highRes: Dims)
    requires 16 <= cw && cw + 16 < 0x1_0000 && 16 <= ch && ch + 16 < 0x1_0000
    ensures var drawnBack := if NeedsReset(resetFlag, cw, ch, back) then Dims(Uint16(cw + 16), Uint16(ch + 16)) else back;
      cw <= drawnBack.width && ch <= drawnBack.height
      && drawnBack.width / 2 <= cw && drawnBack.height / 2 <= ch
      && (resetFlag ==> drawnBack == Dims(cw + 16, ch + 16))
  {
  }

  /** The high-resolution size rule: it ends up as twice the drawn back buffer whenever that is representable. */
  lemma HighResFollowsBack(front: Dims, highRes: Dims)
    requires 0 <= front.width < 0x8000 && 0 <= front.height < 0x8000
    ensures var h := if highRes == Dims(front.width * ANTI_ALIASING, front.height * ANTI_ALIASING) then highRes
                     else Dims(Uint16(front.width * ANTI_ALIASING), Uint16(front.height * ANTI_ALIASING));
      h == Dims(2 * front.width, 2 * front.height)
  {
  }
}
