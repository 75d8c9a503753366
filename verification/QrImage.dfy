/** A QR matrix drawn as a scaled bitmap with a quiet zone, encoded as a PNG data URL, and
    read back from it. */
module QrImage {
  import opened Wrappers
  import opened Bytes
  import opened Crc32
  import opened Zlib
  import opened Png
  import opened Base64

  // ------------------------------------------------------------------ sizes and positions

  /** As many pixels per module as the image has room for, and at least one. */
  predicate LargestScale(n: nat, imageSize: nat, s: nat) {
    if imageSize < n then s == 1 else n * s <= imageSize < n * (s + 1)
  }

  /** Pixels per module for a matrix of `n` by `n` modules. */
  function Scale(n: nat, imageSize: nat): (r: nat)
    requires n > 0
    ensures r > 0 && LargestScale(n, imageSize, r)
  {
    QuotientFits(imageSize, n);
    if 1 < imageSize / n then imageSize / n else 1
  }

  lemma QuotientFits(a: nat, n: nat)
    requires n > 0
    ensures n * (a / n) <= a < n * (a / n + 1) && (a / n > 0 <==> n <= a)
  {
    assert a == n * (a / n) + a % n;
  }

  /** No other scale is as large. */
  lemma OneScale(n: nat, imageSize: nat, s: nat)
    requires n > 0 && LargestScale(n, imageSize, s)
    ensures s == Scale(n, imageSize)
  {
    var r := Scale(n, imageSize);
    hide Scale;
    if s < r {
      NextMultiple(s, r, n);
    } else if r < s {
      NextMultiple(r, s, n);
    }
  }

  /** The width of the code and of the four-module quiet zone on either side. */
  function TotalSize(n: nat, scale: nat): nat {
    n * scale + scale * 4 * 2
  }

  function Index(width: nat, x: int, y: int): int {
    y * width + x
  }

  /** The module a pixel coordinate falls into; negative in the quiet zone before the code. */
  function ModuleOf(scale: nat, p: int): int
    requires scale > 0
  {
    (p - scale * 4) / scale
  }

  predicate InCode(n: nat, scale: nat, x: int, y: int)
    requires scale > 0
  {
    0 <= ModuleOf(scale, x) < n && 0 <= ModuleOf(scale, y) < n
  }

  function Color(module_: byte): byte {
    if module_ % 2 == 1 then 0 else 255
  }

  /** The colour every pixel should have. */
  function Pixel(qr: seq<byte>, n: nat, scale: nat, x: int, y: int): byte
    requires scale > 0 && |qr| == n * n
  {
    if InCode(n, scale, x, y) then
      IndexInBounds(n, ModuleOf(scale, x), ModuleOf(scale, y));
      Color(qr[Index(n, ModuleOf(scale, x), ModuleOf(scale, y))])
    else 255
  }

  lemma IndexInBounds(width: nat, x: int, y: int)
    requires 0 <= x < width && 0 <= y < width
    ensures 0 <= Index(width, x, y) < width * width
  {
    NextMultiple(y, width, width);
    NotNegative(y, width);
  }

  lemma NextMultiple(a: int, b: int, w: nat)
    requires a < b
    ensures a * w + w <= b * w
  {
    var d := b - a - 1;
    NotNegative(d, w);
    Distributes(a, 1 + d, w);
    Distributes(1, d, w);
  }

  lemma Distributes(a: int, b: int, w: int)
    ensures (a + b) * w == a * w + b * w
  {
  }

  lemma NotNegative(a: nat, b: nat)
    ensures a * b >= 0
  {
  }

  /** No two pixels share a place in the bitmap. */
  lemma IndexInjective(width: nat, x: int, y: int, x': int, y': int)
    requires 0 <= x < width && 0 <= x' < width
    requires Index(width, x, y) == Index(width, x', y')
    ensures x == x' && y == y'
  {
    if y < y' {
      NextMultiple(y, y', width);
    } else if y' < y {
      NextMultiple(y', y, width);
    }
  }

  /** The pixels of a module are a square of `scale` by `scale`. */
  lemma ModuleSquare(scale: nat, p: int, m: int)
    requires scale > 0
    ensures ModuleOf(scale, p) == m <==> scale * 4 + m * scale <= p < scale * 4 + m * scale + scale
  {
    var d := p - scale * 4;
    var q := d / scale;
    assert q * scale <= d < q * scale + scale;
    if q < m {
      NextMultiple(q, m, scale);
    } else if m < q {
      NextMultiple(m, q, scale);
    }
  }

  /** Exactly the four outermost modules on every side are quiet. */
  lemma QuietZone(n: nat, scale: nat, p: int)
    requires scale > 0
    ensures 0 <= ModuleOf(scale, p) < n <==> 4 * scale <= p < TotalSize(n, scale) - 4 * scale
  {
    var d := p - scale * 4;
    QuotientBelow(d, scale, 0);
    QuotientBelow(d, scale, n);
    assert TotalSize(n, scale) - 4 * scale == n * scale + scale * 4;
  }

  lemma QuotientBelow(d: int, scale: nat, n: nat)
    requires scale > 0
    ensures d / scale < n <==> d < n * scale
  {
    var q := d / scale;
    QuotientBounds(d, scale);
    hide *;
    if q < n {
      NextMultiple(q, n, scale);
    } else if n < q {
      NextMultiple(n, q, scale);
    }
  }

  lemma QuotientBounds(d: int, scale: nat)
    requires scale > 0
    ensures d / scale * scale <= d < d / scale * scale + scale
  {
  }

  // --------------------------------------------------------------------------- drawing

  /** The bitmap after the modules before (x, y) in row order have been drawn. */
  function Drawn(qr: seq<byte>, n: nat, scale: nat, mx: int, my: int, x: int, y: int): byte
    requires scale > 0 && |qr| == n * n
  {
    var i, j := ModuleOf(scale, x), ModuleOf(scale, y);
    if j < my || (j == my && i < mx) then Pixel(qr, n, scale, x, y) else 255
  }

  /** The two inner loops: fills the square of one module, every pixel once. */
  method FillModule(bitmap: array<byte>, width: nat, x0: nat, y0: nat, scale: nat, color: byte)
    requires bitmap.Length == width * width
    requires x0 + scale <= width && y0 + scale <= width
    modifies bitmap
    ensures forall x, y :: 0 <= x < width && 0 <= y < width ==>
              0 <= Index(width, x, y) < width * width &&
              bitmap[Index(width, x, y)] ==
              if x0 <= x < x0 + scale && y0 <= y < y0 + scale then color else old(bitmap[Index(width, x, y)])
  {
    AllInBounds(width);
    for sy := 0 to scale
      invariant forall x, y :: 0 <= x < width && 0 <= y < width ==>
                  bitmap[Index(width, x, y)] ==
                  if x0 <= x < x0 + scale && y0 <= y < y0 + sy then color else old(bitmap[Index(width, x, y)])
    {
      for sx := 0 to scale
        invariant forall x, y :: 0 <= x < width && 0 <= y < width ==>
                    bitmap[Index(width, x, y)] ==
                    if (x0 <= x < x0 + scale && y0 <= y < y0 + sy) || (y == y0 + sy && x0 <= x < x0 + sx)
                    then color else old(bitmap[Index(width, x, y)])
      {
        bitmap[Index(width, x0 + sx, y0 + sy)] := color;
      }
    }
  }

  lemma AllInBounds(width: nat)
    ensures forall x, y :: 0 <= x < width && 0 <= y < width ==> 0 <= Index(width, x, y) < width * width
    ensures forall x, y, x', y' :: 0 <= x < width && 0 <= x' < width && Index(width, x, y) == Index(width, x', y') ==> x == x' && y == y'
  {
    forall x, y | 0 <= x < width && 0 <= y < width
      ensures 0 <= Index(width, x, y) < width * width
    {
      IndexInBounds(width, x, y);
    }
    forall x, y, x', y' | 0 <= x < width && 0 <= x' < width && Index(width, x, y) == Index(width, x', y')
      ensures x == x' && y == y'
    {
      IndexInjective(width, x, y, x', y');
    }
  }

  /** The four loops of the drawing: the square of every module in row order. */
  method DrawModules(qr: seq<byte>, n: nat, scale: nat, bitmap: array<byte>)
    requires |qr| == n * n && scale > 0
    requires bitmap.Length == TotalSize(n, scale) * TotalSize(n, scale)
    requires forall i :: 0 <= i < bitmap.Length ==> bitmap[i] == 255
    modifies bitmap
    ensures forall x, y :: 0 <= x < TotalSize(n, scale) && 0 <= y < TotalSize(n, scale) ==>
              0 <= Index(TotalSize(n, scale), x, y) < bitmap.Length &&
              bitmap[Index(TotalSize(n, scale), x, y)] == Pixel(qr, n, scale, x, y)
  {
    var width, border := TotalSize(n, scale), scale * 4;
    AllInBounds(width);
    for my := 0 to n
      invariant forall x, y :: 0 <= x < width && 0 <= y < width ==>
                  bitmap[Index(width, x, y)] == Drawn(qr, n, scale, 0, my, x, y)
    {
      for mx := 0 to n
        invariant forall x, y :: 0 <= x < width && 0 <= y < width ==>
                    bitmap[Index(width, x, y)] == Drawn(qr, n, scale, mx, my, x, y)
      {
        IndexInBounds(n, mx, my);
        var color := Color(qr[Index(n, mx, my)]);
        NextMultiple(mx, n, scale);
        NextMultiple(my, n, scale);
        FillModule(bitmap, width, border + mx * scale, border + my * scale, scale, color);
        forall x, y | 0 <= x < width && 0 <= y < width
          ensures bitmap[Index(width, x, y)] == Drawn(qr, n, scale, mx + 1, my, x, y)
        {
          ModuleSquare(scale, x, mx);
          ModuleSquare(scale, y, my);
        }
      }
      forall x, y | 0 <= x < width && 0 <= y < width
        ensures bitmap[Index(width, x, y)] == Drawn(qr, n, scale, 0, my + 1, x, y)
      {
        RowDone(qr, n, scale, my, x, y);
      }
    }
    forall x, y | 0 <= x < width && 0 <= y < width
      ensures bitmap[Index(width, x, y)] == Pixel(qr, n, scale, x, y)
    {
      assert Drawn(qr, n, scale, 0, n, x, y) == Pixel(qr, n, scale, x, y);
    }
  }

  lemma RowDone(qr: seq<byte>, n: nat, scale: nat, my: nat, x: int, y: int)
    requires scale > 0 && |qr| == n * n
    ensures Drawn(qr, n, scale, n, my, x, y) == Drawn(qr, n, scale, 0, my + 1, x, y)
  {
  }

  // ---------------------------------------------------------------------- the whole image

  /** The bitmap of a matrix, as the pixel law gives it. */
  ghost predicate IsUpscaled(bitmap: seq<byte>, qr: seq<byte>, n: nat, scale: nat)
    requires |qr| == n * n && scale > 0
  {
    var width := TotalSize(n, scale);
    && |bitmap| == width * width
    && forall x, y :: 0 <= x < width && 0 <= y < width ==>
         0 <= Index(width, x, y) < width * width &&
         bitmap[Index(width, x, y)] == Pixel(qr, n, scale, x, y)
  }

  /** The picture of a matrix: squares of `s` by `s` pixels, black for the modules that are set, in a
      white frame of four modules. */
  ghost predicate Shows(img: Image, qr: seq<byte>, n: nat, s: nat)
    requires |qr| == n * n && s > 0
  {
    var width := (n + 8) * s;
    && img.width == width && img.height == width && |img.pixels| == width * width
    && forall x, y :: 0 <= x < width && 0 <= y < width ==>
         0 <= Index(width, x, y) < width * width &&
         img.pixels[Index(width, x, y)] == if IsDark(qr, n, x / s - 4, y / s - 4) then 0 else 255
  }

  /** The module in a column and a row is set. */
  predicate IsDark(qr: seq<byte>, n: nat, column: int, row: int) {
    && 0 <= column < n && 0 <= row < n
    && 0 <= row * n + column < |qr| && qr[row * n + column] % 2 == 1
  }

  lemma UpscaledShows(bitmap: seq<byte>, qr: seq<byte>, n: nat, s: nat)
    requires n > 0 && s > 0 && |qr| == n * n && IsUpscaled(bitmap, qr, n, s)
    ensures TotalSize(n, s) == (n + 8) * s
    ensures Shows(Image((n + 8) * s, (n + 8) * s, bitmap), qr, n, s)
  {
    var width := (n + 8) * s;
    SampleCoordinate(n, s, 0);
    forall x, y | 0 <= x < width && 0 <= y < width
      ensures 0 <= Index(width, x, y) < width * width
      ensures bitmap[Index(width, x, y)] == if IsDark(qr, n, x / s - 4, y / s - 4) then 0 else 255
    {
      PixelIs(qr, n, s, x, y);
      hide Pixel, IsDark, TotalSize, Index;
    }
    hide IsUpscaled, Pixel, IsDark, TotalSize, Index;
  }

  lemma PixelIs(qr: seq<byte>, n: nat, s: nat, x: nat, y: nat)
    requires s > 0 && |qr| == n * n
    ensures Pixel(qr, n, s, x, y) == if IsDark(qr, n, x / s - 4, y / s - 4) then 0 else 255
  {
    ModuleIs(s, x);
    ModuleIs(s, y);
    if InCode(n, s, x, y) {
      IndexInBounds(n, ModuleOf(s, x), ModuleOf(s, y));
    }
    hide ModuleOf;
  }

  lemma ModuleIs(s: nat, p: nat)
    requires s > 0
    ensures ModuleOf(s, p) == p / s - 4
  {
    QuotientBounds(p, s);
    var m := p / s - 4;
    Distributes(m, 4, s);
    ModuleSquare(s, p, m);
  }

  // --------------------------------------------------------------------- reading it back

  function DarkModules(qr: seq<byte>): seq<bool> {
    seq(|qr|, i requires 0 <= i < |qr| => qr[i] % 2 == 1)
  }

  /** Samples the first pixel of every module of an image of `n` by `n` modules with its
      quiet zone. */
  function Sample(img: Image, n: nat): Option<seq<bool>> {
    var width := img.width;
    var scale := width / (n + 8);
    if n == 0 || width == 0 || img.height != width || width % (n + 8) != 0 || |img.pixels| != width * width then None
    else
      SamplesInBounds(n, scale, width);
      Some(seq(n * n, i requires 0 <= i < n * n => img.pixels[SampleIndex(n, scale, width, i)] == 0))
  }

  function SampleIndex(n: nat, scale: nat, width: nat, i: nat): int
    requires n > 0
  {
    Index(width, scale * 4 + i % n * scale, scale * 4 + i / n * scale)
  }

  lemma SamplesInBounds(n: nat, scale: nat, width: nat)
    requires n > 0 && scale == width / (n + 8) && width % (n + 8) == 0 && width > 0
    ensures forall i :: 0 <= i < n * n ==> 0 <= SampleIndex(n, scale, width, i) < width * width
  {
    forall i | 0 <= i < n * n
      ensures 0 <= SampleIndex(n, scale, width, i) < width * width
    {
      assert width == (n + 8) * scale;
      SampleInBounds(n, scale, i);
    }
  }

  lemma RowAndColumn(n: nat, i: nat)
    requires i < n * n
    ensures n > 0 && i / n < n && i % n < n && i == i / n * n + i % n
  {
    assert n > 0;
    LargeProduct(i / n, n);
  }

  lemma LargeProduct(q: nat, n: nat)
    ensures q >= n ==> q * n >= n * n
  {
  }

  lemma SampleInBounds(n: nat, scale: nat, i: nat)
    requires i < n * n && n > 0 && scale > 0
    ensures var width := TotalSize(n, scale);
            && width == (n + 8) * scale
            && 0 <= scale * 4 + i % n * scale < width
            && 0 <= scale * 4 + i / n * scale < width
            && 0 <= SampleIndex(n, scale, width, i) < width * width
  {
    RowAndColumn(n, i);
    SampleCoordinate(n, scale, i % n);
    SampleCoordinate(n, scale, i / n);
    hide TotalSize, Index;
    IndexInBounds(TotalSize(n, scale), scale * 4 + i % n * scale, scale * 4 + i / n * scale);
  }

  lemma SampleCoordinate(n: nat, scale: nat, m: nat)
    requires m < n && scale > 0
    ensures TotalSize(n, scale) == (n + 8) * scale && 0 <= scale * 4 + m * scale < TotalSize(n, scale)
  {
    NextMultiple(m, n, scale);
    NotNegative(m, scale);
  }

  /** The sampled pixel of a module is black exactly when the module is set. */
  lemma SampleOne(bitmap: seq<byte>, qr: seq<byte>, n: nat, scale: nat, i: nat)
    requires n > 0 && scale > 0 && |qr| == n * n && IsUpscaled(bitmap, qr, n, scale) && i < n * n
    ensures 0 <= SampleIndex(n, scale, TotalSize(n, scale), i) < |bitmap|
    ensures (bitmap[SampleIndex(n, scale, TotalSize(n, scale), i)] == 0) == (qr[i] % 2 == 1)
  {
    RowAndColumn(n, i);
    assert Index(n, i % n, i / n) == i;
    hide *;
    CornerPixel(bitmap, qr, n, scale, i % n, i / n);
    SampledCorner(n, scale, TotalSize(n, scale), i);
    ColorIsDark(qr[i]);
  }

  lemma SampledCorner(n: nat, scale: nat, width: nat, i: nat)
    requires n > 0
    ensures SampleIndex(n, scale, width, i) == Index(width, scale * 4 + i % n * scale, scale * 4 + i / n * scale)
  {
    hide Index;
  }

  lemma ColorIsDark(module_: byte)
    ensures Color(module_) == 0 <==> module_ % 2 == 1
  {
  }

  /** The first pixel of a module has its colour. */
  lemma CornerPixel(bitmap: seq<byte>, qr: seq<byte>, n: nat, scale: nat, mx: nat, my: nat)
    requires scale > 0 && |qr| == n * n && IsUpscaled(bitmap, qr, n, scale) && mx < n && my < n
    ensures var x, y, width := scale * 4 + mx * scale, scale * 4 + my * scale, TotalSize(n, scale);
            && 0 <= Index(n, mx, my) < |qr|
            && 0 <= x < width && 0 <= y < width && 0 <= Index(width, x, y) < |bitmap|
            && bitmap[Index(width, x, y)] == Color(qr[Index(n, mx, my)])
  {
    var x, y := scale * 4 + mx * scale, scale * 4 + my * scale;
    SampleCoordinate(n, scale, mx);
    SampleCoordinate(n, scale, my);
    ModuleSquare(scale, x, mx);
    ModuleSquare(scale, y, my);
    IndexInBounds(n, mx, my);
    IndexInBounds(TotalSize(n, scale), x, y);
    hide Index, ModuleOf, TotalSize, Color;
    assert bitmap[Index(TotalSize(n, scale), x, y)] == Pixel(qr, n, scale, x, y);
  }

  /** One pixel of every module of the upscaled bitmap is enough to recover the matrix. */
  lemma SampleUpscaled(bitmap: seq<byte>, qr: seq<byte>, n: nat, scale: nat)
    requires n > 0 && scale > 0 && |qr| == n * n && IsUpscaled(bitmap, qr, n, scale)
    ensures Sample(Image(TotalSize(n, scale), TotalSize(n, scale), bitmap), n) == Some(DarkModules(qr))
  {
    var width := TotalSize(n, scale);
    WidthDivides(n, scale);
    forall i | 0 <= i < n * n
      ensures 0 <= SampleIndex(n, scale, width, i) < |bitmap|
      ensures (bitmap[SampleIndex(n, scale, width, i)] == 0) == (qr[i] % 2 == 1)
    {
      SampleOne(bitmap, qr, n, scale, i);
    }
    assert |bitmap| == width * width;
    hide IsUpscaled, SampleIndex, TotalSize;
    var r := Sample(Image(width, width, bitmap), n);
    assert r.Some? && |r.value| == |qr|;
    assert forall i :: 0 <= i < |qr| ==> r.value[i] == DarkModules(qr)[i];
    assert r.value == DarkModules(qr);
  }

  lemma WidthDivides(n: nat, scale: nat)
    requires scale > 0
    ensures TotalSize(n, scale) % (n + 8) == 0 && TotalSize(n, scale) / (n + 8) == scale && TotalSize(n, scale) > 0
  {
    assert TotalSize(n, scale) == scale * (n + 8);
    Quotient(scale, n + 8);
  }

  lemma Quotient(q: nat, d: nat)
    requires d > 0
    ensures q * d / d == q && q * d % d == 0
  {
    var x := q * d;
    assert x / d * d <= x < x / d * d + d;
    if x / d < q {
      NextMultiple(x / d, q, d);
    } else if q < x / d {
      NextMultiple(q, x / d, d);
    }
  }

  /** The length of the IDAT chunk of an image of the given width. */
  function IdatLength(width: nat): nat {
    var raw := (width + 1) * width;
    raw + 5 * ((raw + MAX_STORED - 1) / MAX_STORED) + 6
  }

  /** The sizes for which the file is a legal PNG. */
  predicate FitsPng(n: nat, scale: nat) {
    TotalSize(n, scale) < TWO_TO_THE_32 && IdatLength(TotalSize(n, scale)) < TWO_TO_THE_31
  }

  /** The number of pixels is a 32-bit signed integer, as the encoder computes it. */
  predicate AreaFits(width: nat) {
    width * width < TWO_TO_THE_31
  }

  lemma AreaBoundsWidth(width: nat)
    requires AreaFits(width)
    ensures width < 46341
  {
    if width >= 46341 {
      SquareGrows(46341, width);
    }
  }

  /** The file of an image of such a width. */
  function AreaPng(bitmap: seq<byte>, width: nat): seq<byte>
    requires AreaFits(width) && |bitmap| == width * width
  {
    AreaBoundsWidth(width);
    PngBytes(bitmap, width)
  }

  lemma SquareGrows(a: nat, b: nat)
    requires a <= b
    ensures a * a <= b * b
  {
    assert a * a <= a * b <= b * b;
  }

  lemma FitsPngArea(n: nat, scale: nat)
    requires FitsPng(n, scale)
    ensures AreaFits(TotalSize(n, scale))
  {
    var width := TotalSize(n, scale);
    hide TotalSize;
    assert (width + 1) * width == width * width + width;
  }

  lemma {:induction false} BlocksLength(data: seq<byte>)
    ensures |StoredBlocks(data)| == |data| + 5 * |Pieces(data)|
    decreases |data|
  {
    PiecesFit(data);
    if data == [] {
    } else {
      var n := if MAX_STORED < |data| then MAX_STORED else |data|;
      StoredStep(data, n, n == |data|);
      BlocksLength(data[n..]);
    }
  }

  lemma {:induction false} FilterLength(pixels: seq<byte>, width: nat, height: nat)
    requires width > 0 && |pixels| == width * height
    ensures |Filter(pixels, width)| == (width + 1) * height
    decreases height
  {
    if height > 0 {
      assert width * height == width + width * (height - 1);
      assert (width + 1) * height == width + 1 + (width + 1) * (height - 1);
      FilterLength(pixels[width..], width, height - 1);
    } else {
      assert pixels == [];
    }
  }

  lemma IdatLengthIs(bitmap: seq<byte>, width: nat)
    requires width > 0 && |bitmap| == width * width
    ensures |Deflate(Filter(bitmap, width))| == IdatLength(width)
  {
    var raw := Filter(bitmap, width);
    FilterLength(bitmap, width, width);
    BlocksLength(raw);
    PiecesCover(raw);
  }

  const DATA_URL := "data:image/png;base64,"

  /** Everything undone in turn: the URL prefix, base64, the chunks, the blocks, the filter
      bytes, and the scaling. */
  function ReadDataUrl(url: string, n: nat): Option<seq<bool>> {
    if |url| < |DATA_URL| || url[..|DATA_URL|] != DATA_URL then None
    else
      var png :- Decode(url[|DATA_URL|..]);
      var img :- DecodePng(png);
      Sample(img, n)
  }

  /** A data URL made from a matrix gives the matrix back. */
  lemma MatrixSurvives(bitmap: seq<byte>, qr: seq<byte>, n: nat, scale: nat, url: string)
    requires n > 0 && scale > 0 && |qr| == n * n && FitsPng(n, scale) && IsUpscaled(bitmap, qr, n, scale)
    requires url == DATA_URL + Encode(PngBytes(bitmap, TotalSize(n, scale)))
    ensures ReadDataUrl(url, n) == Some(DarkModules(qr))
  {
    var width := TotalSize(n, scale);
    WidthDivides(n, scale);
    IdatLengthIs(bitmap, width);
    DecodeWritten(bitmap, width);
    DecodeEncode(PngBytes(bitmap, width));
    SampleUpscaled(bitmap, qr, n, scale);
    hide PngBytes, Encode, Decode, DecodePng, Sample, IsUpscaled, TotalSize, FitsPng, Deflate, Filter;
    assert url[|DATA_URL|..] == Encode(PngBytes(bitmap, width));
  }

  /** qr_to_png: the matrix as PNG bytes, or nothing when a size is not positive. */
  method QrToPng(qr: seq<byte>, n: int, imageSize: int, table: CrcTable) returns (png: seq<byte>, ghost bitmap: seq<byte>)
    requires table.Valid()
    requires n > 0 && imageSize > 0 ==> |qr| == n * n
    requires n > 0 && imageSize > 0 ==> AreaFits(TotalSize(n, Scale(n, imageSize)))
    modifies table, table.entries
    ensures table.Valid()
    ensures n <= 0 || imageSize <= 0 ==> png == []
    ensures n > 0 && imageSize > 0 ==>
              IsUpscaled(bitmap, qr, n, Scale(n, imageSize)) &&
              png == PngBytes(bitmap, TotalSize(n, Scale(n, imageSize)))
    ensures n > 0 && imageSize > 0 ==> forall s: nat :: s > 0 && LargestScale(n, imageSize, s) ==> IsPictureOf(png, qr, n, s)
  {
    bitmap := [];
    if n <= 0 || imageSize <= 0 {
      return [], [];
    }
    var scale := Scale(n, imageSize);
    var width := TotalSize(n, scale);
    AreaBoundsWidth(width);
    var pixels := new byte[width * width](_ => 255);
    DrawModules(qr, n, scale, pixels);
    bitmap := pixels[..];
    png := CreateSimplePng(pixels[..], width, table);
    hide PngBytes, IsUpscaled, Scale, IsPictureOf;
    OnlyPicture(png, bitmap, qr, n, imageSize);
  }

  /** The decoded file is the picture of the matrix, if its data chunk is of a legal length. */
  ghost predicate IsPictureOf(png: seq<byte>, qr: seq<byte>, n: nat, s: nat)
    requires |qr| == n * n && s > 0
  {
    IdatLength((n + 8) * s) < TWO_TO_THE_31 ==> DecodePng(png).Some? && Shows(DecodePng(png).value, qr, n, s)
  }

  lemma OnlyPicture(png: seq<byte>, bitmap: seq<byte>, qr: seq<byte>, n: nat, imageSize: nat)
    requires n > 0 && |qr| == n * n && AreaFits(TotalSize(n, Scale(n, imageSize)))
    requires IsUpscaled(bitmap, qr, n, Scale(n, imageSize))
    requires png == AreaPng(bitmap, TotalSize(n, Scale(n, imageSize)))
    ensures forall s: nat :: s > 0 && LargestScale(n, imageSize, s) ==> IsPictureOf(png, qr, n, s)
  {
    var r := Scale(n, imageSize);
    PictureWritten(png, bitmap, qr, n, r);
    forall s: nat | s > 0 && LargestScale(n, imageSize, s)
      ensures IsPictureOf(png, qr, n, s)
    {
      OneScale(n, imageSize, s);
    }
  }

  lemma PictureWritten(png: seq<byte>, bitmap: seq<byte>, qr: seq<byte>, n: nat, s: nat)
    requires n > 0 && s > 0 && |qr| == n * n && AreaFits(TotalSize(n, s)) && IsUpscaled(bitmap, qr, n, s)
    requires png == AreaPng(bitmap, TotalSize(n, s))
    ensures IsPictureOf(png, qr, n, s)
  {
    var width := TotalSize(n, s);
    AreaBoundsWidth(width);
    WidthDivides(n, s);
    UpscaledShows(bitmap, qr, n, s);
    IdatLengthIs(bitmap, width);
    hide PngBytes, DecodePng, IsUpscaled, Shows, TotalSize, Deflate, Filter, IdatLength;
    if IdatLength(width) < TWO_TO_THE_31 {
      DecodeWritten(bitmap, width);
    }
  }

  lemma PngNotEmpty(bitmap: seq<byte>, width: word)
    ensures PngBytes(bitmap, width) != []
  {
  }

  lemma UrlParts(url: string, png: seq<byte>)
    requires url == DATA_URL + Encode(png)
    ensures "data:image/png;base64," <= url && Decode(url[22..]) == Some(png)
  {
    DecodeEncode(png);
    hide Encode, Decode;
    assert DATA_URL == "data:image/png;base64," && |DATA_URL| == 22;
    assert url[22..] == Encode(png);
  }

  /** generate_data_url, from the matrix on: a reader gets the picture and the matrix back. */
  method DataUrl(qr: seq<byte>, n: int, imageSize: int, table: CrcTable) returns (url: string, ghost png: seq<byte>)
    requires table.Valid()
    requires n > 0 && imageSize > 0 ==> |qr| == n * n && AreaFits(TotalSize(n, Scale(n, imageSize)))
    modifies table, table.entries
    ensures table.Valid()
    ensures n <= 0 || imageSize <= 0 ==> url == ""
    ensures n > 0 && imageSize > 0 ==> "data:image/png;base64," <= url && Decode(url[22..]) == Some(png)
    ensures n > 0 && imageSize > 0 ==> forall s: nat :: s > 0 && LargestScale(n, imageSize, s) ==> IsPictureOf(png, qr, n, s)
    ensures n > 0 && imageSize > 0 && FitsPng(n, Scale(n, imageSize)) ==> ReadDataUrl(url, n) == Some(DarkModules(qr))
  {
    hide PngBytes, Encode, Decode, ReadDataUrl, TotalSize, Scale, IsUpscaled, IdatLength, AreaFits, IsPictureOf, LargestScale,
         FitsPng;
    ghost var bitmap;
    var file;
    file, bitmap := QrToPng(qr, n, imageSize, table);
    png := file;
    if n > 0 && imageSize > 0 {
      AreaBoundsWidth(TotalSize(n, Scale(n, imageSize)));
      PngNotEmpty(bitmap, TotalSize(n, Scale(n, imageSize)));
    }
    if file == [] {
      return "", [];
    }
    var base64 := Base64Encode(file);
    url := DATA_URL + base64;
    UrlParts(url, png);
    if FitsPng(n, Scale(n, imageSize)) {
      FitsPngArea(n, Scale(n, imageSize));
      MatrixSurvives(bitmap, qr, n, Scale(n, imageSize), url);
    }
  }
}
