/**
 * The integer skeleton of bilinear_u8 and blend4_u8: which source pixels
 * feed a destination pixel, the clamp of the high neighbour to the last
 * row and column, transparency contagion, and the row-major output buffer.
 *
 * The floating-point scale, fractional weights and channel blend are not
 * modelled: a Filter value stands for them, and the only thing assumed of
 * it is that the truncated source coordinate stays inside the source image
 * (Filter.Valid).
 */
module Resample {
  import opened Layout
  import opened Palette

  /** The floating-point parts of the resampler, left abstract.
      low(i, n, k)  = (int)(i * ((float)n / (float)k)), the source coordinate
                      of destination coordinate i when n pixels shrink to k;
      frac(i, n, k) = the fractional part of that product (alpha or beta);
      mix(alpha, beta, a, b, c, d) = the per-channel weighted sum of the four
                      neighbours' colours, truncated to int (blend4_u8). */
  datatype Filter = Filter(
    low: (int, int, int) -> int,
    frac: (int, int, int) -> real,
    mix: (real, real, Rgb, Rgb, Rgb, Rgb) -> Rgb)
  {
    ghost predicate Valid()
    {
      forall i, n, k :: 0 <= i < k <= n ==> 0 <= low(i, n, k) < n
    }
  }

  /** The source coordinate under exact arithmetic: floor(i * n / k). */
  function ExactLow(i: int, n: int, k: int): int
  {
    if k > 0 then i * n / k else 0
  }

  lemma ExactLowInRange(i: int, n: int, k: int)
    requires 0 <= i < k <= n
    ensures 0 <= ExactLow(i, n, k) < n
  {
    var q := i * n / k;
    assert i * n >= 0;
    assert q * k <= i * n;
    assert i * n < k * n by {
      assert (k - i) * n > 0;
    }
    assert (n - q) * k > 0;
    PositiveFactor(n - q, k);
  }

  lemma PositiveFactor(a: int, k: int)
    requires k > 0 && a * k > 0
    ensures a > 0
  {
  }

  lemma AtLeastFactor(e: int, d: int)
    requires d > 0 && e > 0
    ensures e * d >= d
  {
    assert e * d == (e - 1) * d + d;
    if e > 1 {
      AtLeastFactor(e - 1, d);
    }
  }

  /** With exact arithmetic in place of floats, the assumption that Filter
      makes about the source coordinate holds for every input. */
  lemma ExactFilterIsValid(frac: (int, int, int) -> real, mix: (real, real, Rgb, Rgb, Rgb, Rgb) -> Rgb)
    ensures Filter(ExactLow, frac, mix).Valid()
  {
    forall i, n, k | 0 <= i < k <= n
      ensures 0 <= ExactLow(i, n, k) < n
    {
      ExactLowInRange(i, n, k);
    }
  }

  /** A w-by-h source of w*h bytes, shrunk to newW-by-newH. */
  predicate Shape(image: seq<Byte>, w: int, h: int, newW: int, newH: int)
  {
    0 <= newW <= w && 0 <= newH <= h && |image| == w * h
  }

  /** Pixel (x, y) of a row-major image `width` wide and `rows` high lies
      inside its width*rows bytes. */
  lemma RowMajor(x: int, y: int, width: int, rows: int)
    requires 0 <= x < width && 0 <= y < rows
    ensures 0 <= y * width + x < width * rows
  {
    Before(x, y, 0, rows, width);
  }

  /** Row y of a row-major image `width` wide ends inside the image. */
  lemma RowEnd(y: int, width: int, rows: int)
    requires 0 <= y < rows && 0 <= width
    ensures 0 <= y * width && y * width + width <= width * rows
    ensures y * width + width == (y + 1) * width
  {
    var rest := rows - (y + 1);
    assert (y + 1) * width == y * width + width;
    assert rows * width == (y + 1) * width + rest * width;
    assert rest * width >= 0;
    assert y * width >= 0;
  }

  /** The four source coordinates read for one destination pixel. */
  datatype Taps = Taps(xlow: int, ylow: int, xhigh: int, yhigh: int)

  /** The neighbours of destination pixel (x, y): the truncated source
      coordinate and the next column and row, clamped to the last ones. */
  function TapsAt(w: int, h: int, newW: int, newH: int, f: Filter, x: int, y: int): (t: Taps)
    requires f.Valid() && 0 <= x < newW <= w && 0 <= y < newH <= h
    ensures 0 <= t.xlow <= t.xhigh < w && 0 <= t.ylow <= t.yhigh < h
    ensures t.xhigh == t.xlow + 1 || t.xhigh == t.xlow == w - 1
    ensures t.yhigh == t.ylow + 1 || t.yhigh == t.ylow == h - 1
  {
    var xlow := f.low(x, w, newW);
    var ylow := f.low(y, h, newH);
    Taps(xlow, ylow, Min(xlow + 1, w - 1), Min(ylow + 1, h - 1))
  }

  /** The four sampled palette indices: top-left, top-right, bottom-left,
      bottom-right. */
  datatype Quad = Quad(a: Byte, b: Byte, c: Byte, d: Byte)
  {
    predicate AnyTransparent()
    {
      a == TRANSPARENT || b == TRANSPARENT || c == TRANSPARENT || d == TRANSPARENT
    }
  }

  function Neighbours(image: seq<Byte>, w: int, h: int, t: Taps): Quad
    requires |image| == w * h
    requires 0 <= t.xlow <= t.xhigh < w && 0 <= t.ylow <= t.yhigh < h
  {
    RowMajor(t.xlow, t.ylow, w, h);
    RowMajor(t.xhigh, t.ylow, w, h);
    RowMajor(t.xlow, t.yhigh, w, h);
    RowMajor(t.xhigh, t.yhigh, w, h);
    Quad(image[t.ylow * w + t.xlow], image[t.ylow * w + t.xhigh],
         image[t.yhigh * w + t.xlow], image[t.yhigh * w + t.xhigh])
  }

  /** The four reads of a destination pixel stay inside the w*h source
      bytes, for every destination pixel of a shrink. */
  lemma NeighbourReadsInBounds(w: int, h: int, newW: int, newH: int, f: Filter, x: int, y: int)
    requires f.Valid() && 0 <= x < newW <= w && 0 <= y < newH <= h
    ensures var t := TapsAt(w, h, newW, newH, f, x, y);
      && 0 <= t.ylow * w + t.xlow < w * h
      && 0 <= t.ylow * w + t.xhigh < w * h
      && 0 <= t.yhigh * w + t.xlow < w * h
      && 0 <= t.yhigh * w + t.xhigh < w * h
  {
    var t := TapsAt(w, h, newW, newH, f, x, y);
    RowMajor(t.xlow, t.ylow, w, h);
    RowMajor(t.xhigh, t.ylow, w, h);
    RowMajor(t.xlow, t.yhigh, w, h);
    RowMajor(t.xhigh, t.yhigh, w, h);
  }

  /** The colour blend4_u8 hands to palette_search for destination (x, y). */
  function Mixed(palette: seq<Byte>, f: Filter, w: int, h: int, newW: int, newH: int, x: int, y: int, q: Quad): Rgb
    requires |palette| == PALETTE_BYTES
  {
    f.mix(f.frac(x, w, newW), f.frac(y, h, newH),
          Color(palette, q.a), Color(palette, q.b), Color(palette, q.c), Color(palette, q.d))
  }

  /** Destination pixel (x, y) of the shrunk image. */
  function Pixel(image: seq<Byte>, w: int, h: int, newW: int, newH: int, palette: seq<Byte>, f: Filter, x: int, y: int): Byte
    requires Shape(image, w, h, newW, newH) && |palette| == PALETTE_BYTES && f.Valid()
    requires 0 <= x < newW && 0 <= y < newH
  {
    var q := Neighbours(image, w, h, TapsAt(w, h, newW, newH, f, x, y));
    if q.AnyTransparent() then
      TRANSPARENT
    else
      var c := Mixed(palette, f, w, h, newW, newH, x, y, q);
      Nearest(palette, c.r, c.g, c.b)
  }

  /** The rows of a row-major image laid end to end. */
  function Flatten(rows: seq<seq<Byte>>): seq<Byte>
  {
    if |rows| == 0 then [] else Flatten(rows[..|rows| - 1]) + rows[|rows| - 1]
  }

  predicate Rectangular(rows: seq<seq<Byte>>, width: int)
  {
    forall y :: 0 <= y < |rows| ==> |rows[y]| == width
  }

  /** Flattening equal-width rows gives width bytes per row, and the byte of
      column x in row y lands at y*width+x. */
  lemma {:induction false} FlattenAt(rows: seq<seq<Byte>>, width: int, x: int, y: int)
    requires 0 <= width && Rectangular(rows, width)
    requires 0 <= x < width && 0 <= y < |rows|
    ensures |Flatten(rows)| == |rows| * width
    ensures 0 <= y * width + x < |Flatten(rows)|
    ensures Flatten(rows)[y * width + x] == rows[y][x]
    decreases |rows|
  {
    var n := |rows| - 1;
    var init := rows[..n];
    FlattenLength(init, width);
    if y < n {
      FlattenAt(init, width, x, y);
    }
    assert (n + 1) * width == n * width + width;
    if y < n {
      Before(x, y, 0, n, width);
    }
  }

  /** Flattening one more row appends it. */
  lemma FlattenSnoc(rows: seq<seq<Byte>>, k: int)
    requires 0 <= k < |rows|
    ensures Flatten(rows[..k + 1]) == Flatten(rows[..k]) + rows[k]
  {
    assert rows[..k + 1][..k] == rows[..k];
  }

  lemma {:induction false} FlattenLength(rows: seq<seq<Byte>>, width: int)
    requires 0 <= width && Rectangular(rows, width)
    ensures |Flatten(rows)| == |rows| * width
    decreases |rows|
  {
    if |rows| > 0 {
      var n := |rows| - 1;
      FlattenLength(rows[..n], width);
      assert (n + 1) * width == n * width + width;
    }
  }

  /** Pixel (x', y') comes before pixel (x, y) in row-major order. */
  lemma Before(x': int, y': int, x: int, y: int, width: int)
    requires 0 <= x' < width && 0 <= y' && 0 <= x && (y' < y || (y' == y && x' < x))
    ensures 0 <= y' * width + x' < y * width + x
  {
    if y' < y {
      assert (y - y') * width >= width by {
        AtLeastFactor(y - y', width);
      }
    }
  }

  /** Row y of the shrunk image: its newW destination pixels. */
  function PixelRow(image: seq<Byte>, w: int, h: int, newW: int, newH: int, palette: seq<Byte>, f: Filter, y: int): (line: seq<Byte>)
    requires Shape(image, w, h, newW, newH) && |palette| == PALETTE_BYTES && f.Valid()
    requires 0 <= y < newH
    ensures |line| == newW
  {
    seq(newW, x requires 0 <= x < newW => Pixel(image, w, h, newW, newH, palette, f, x, y))
  }

  /** The shrunk image as rows of destination pixels. */
  function Grid(image: seq<Byte>, w: int, h: int, newW: int, newH: int, palette: seq<Byte>, f: Filter): (rows: seq<seq<Byte>>)
    requires Shape(image, w, h, newW, newH) && |palette| == PALETTE_BYTES && f.Valid()
    ensures |rows| == newH && Rectangular(rows, newW)
  {
    seq(newH, y requires 0 <= y < newH => PixelRow(image, w, h, newW, newH, palette, f, y))
  }

  /** Row y of the grid is the row of destination pixels, and flattening
      the rows up to it appends it. */
  lemma GridRow(image: seq<Byte>, w: int, h: int, newW: int, newH: int, palette: seq<Byte>, f: Filter, y: int)
    requires Shape(image, w, h, newW, newH) && |palette| == PALETTE_BYTES && f.Valid()
    requires 0 <= y < newH
    ensures var grid := Grid(image, w, h, newW, newH, palette, f);
      && |grid[y]| == newW
      && (forall x :: 0 <= x < newW ==> grid[y][x] == Pixel(image, w, h, newW, newH, palette, f, x, y))
      && Flatten(grid[..y + 1]) == Flatten(grid[..y]) + grid[y]
  {
    FlattenSnoc(Grid(image, w, h, newW, newH, palette, f), y);
  }

  /** The whole shrunk image, row-major: the buffer bilinear_u8 returns. */
  function Resampled(image: seq<Byte>, w: int, h: int, newW: int, newH: int, palette: seq<Byte>, f: Filter): (out: seq<Byte>)
    requires Shape(image, w, h, newW, newH) && |palette| == PALETTE_BYTES && f.Valid()
    ensures |out| == newW * newH
  {
    var rows := Grid(image, w, h, newW, newH, palette, f);
    FlattenLength(rows, newW);
    Flatten(rows)
  }

  /** Byte y*newW+x of the shrunk image is destination pixel (x, y). */
  lemma ResampledAt(image: seq<Byte>, w: int, h: int, newW: int, newH: int,
                    palette: seq<Byte>, f: Filter, x: int, y: int)
    requires Shape(image, w, h, newW, newH) && |palette| == PALETTE_BYTES && f.Valid()
    requires 0 <= x < newW && 0 <= y < newH
    ensures 0 <= y * newW + x < newW * newH
    ensures Resampled(image, w, h, newW, newH, palette, f)[y * newW + x]
         == Pixel(image, w, h, newW, newH, palette, f, x, y)
  {
    FlattenAt(Grid(image, w, h, newW, newH, palette, f), newW, x, y);
  }

  /** Transparency is contagious: if any of the four sampled source pixels
      is index 255, the destination pixel is 255, whatever the others are. */
  lemma TransparencyIsContagious(image: seq<Byte>, w: int, h: int, newW: int, newH: int,
                                 palette: seq<Byte>, f: Filter, x: int, y: int)
    requires Shape(image, w, h, newW, newH) && |palette| == PALETTE_BYTES && f.Valid()
    requires 0 <= x < newW && 0 <= y < newH
    requires Neighbours(image, w, h, TapsAt(w, h, newW, newH, f, x, y)).AnyTransparent()
    ensures 0 <= y * newW + x < newW * newH
    ensures Resampled(image, w, h, newW, newH, palette, f)[y * newW + x] == TRANSPARENT
  {
    ResampledAt(image, w, h, newW, newH, palette, f, x, y);
  }

  /** A destination pixel whose four neighbours are all opaque is the
      palette entry nearest to their blended colour (ties to the highest
      index); it is 255 only if entry 255 is that nearest entry. */
  lemma OpaquePixelIsBlend(image: seq<Byte>, w: int, h: int, newW: int, newH: int,
                           palette: seq<Byte>, f: Filter, x: int, y: int)
    requires Shape(image, w, h, newW, newH) && |palette| == PALETTE_BYTES && f.Valid()
    requires 0 <= x < newW && 0 <= y < newH
    requires !Neighbours(image, w, h, TapsAt(w, h, newW, newH, f, x, y)).AnyTransparent()
    ensures 0 <= y * newW + x < newW * newH
    ensures var c := Mixed(palette, f, w, h, newW, newH, x, y, Neighbours(image, w, h, TapsAt(w, h, newW, newH, f, x, y)));
      IsNearest(palette, c.r, c.g, c.b, Resampled(image, w, h, newW, newH, palette, f)[y * newW + x])
  {
    ResampledAt(image, w, h, newW, newH, palette, f, x, y);
    var c := Mixed(palette, f, w, h, newW, newH, x, y, Neighbours(image, w, h, TapsAt(w, h, newW, newH, f, x, y)));
    NearestIsUniqueNearest(palette, c.r, c.g, c.b);
  }

  /** blend4_u8: mix the palette colours of the four neighbours and return
      the palette entry nearest to the result. */
  method Blend4(alpha: real, beta: real, a: Byte, b: Byte, c: Byte, d: Byte, palette: seq<Byte>, f: Filter)
    returns (k: Byte)
    requires |palette| == PALETTE_BYTES
    ensures var m := f.mix(alpha, beta, Color(palette, a), Color(palette, b), Color(palette, c), Color(palette, d));
      IsNearest(palette, m.r, m.g, m.b, k) && k == Nearest(palette, m.r, m.g, m.b)
  {
    var result := f.mix(alpha, beta, Color(palette, a), Color(palette, b), Color(palette, c), Color(palette, d));
    k := PaletteSearch(palette, result.r, result.g, result.b);
  }

  /** One destination pixel of bilinear_u8: read the four neighbours, write
      255 if any is transparent, otherwise blend them. */
  method SamplePixel(image: seq<Byte>, w: int, h: int, newW: int, newH: int, palette: seq<Byte>, f: Filter,
                     x: int, y: int) returns (v: Byte)
    requires Shape(image, w, h, newW, newH) && |palette| == PALETTE_BYTES && f.Valid()
    requires 0 <= x < newW && 0 <= y < newH
    ensures v == Pixel(image, w, h, newW, newH, palette, f, x, y)
  {
    var t := TapsAt(w, h, newW, newH, f, x, y);
    var q := Neighbours(image, w, h, t);
    if q.a == TRANSPARENT || q.b == TRANSPARENT || q.c == TRANSPARENT || q.d == TRANSPARENT {
      v := TRANSPARENT;
    } else {
      var alpha := f.frac(x, w, newW);
      var beta := f.frac(y, h, newH);
      v := Blend4(alpha, beta, q.a, q.b, q.c, q.d, palette, f);
    }
  }

  /** One pass of the inner loop of bilinear_u8: fill row y of `out`,
      which starts at byte `row`, with the destination pixels of that row
      (`line`), leaving every other byte alone. */
  method FillRow(out: array<Byte>, image: seq<Byte>, w: int, h: int, newW: int, newH: int, palette: seq<Byte>, f: Filter,
                 y: int, row: int, ghost line: seq<Byte>)
    requires Shape(image, w, h, newW, newH) && |palette| == PALETTE_BYTES && f.Valid()
    requires 0 <= y < newH && 0 <= row && row + newW <= out.Length
    requires |line| == newW
    requires forall x {:trigger Pixel(image, w, h, newW, newH, palette, f, x, y)} :: 0 <= x < newW ==>
      line[x] == Pixel(image, w, h, newW, newH, palette, f, x, y)
    modifies out
    ensures out[..] == old(out[..row]) + line + old(out[row + newW..])
  {
    ghost var above := out[..row];
    var x := 0;
    while x < newW
      invariant 0 <= x <= newW
      invariant out[..row] == above
      invariant forall i :: 0 <= i < x ==> out[row + i] == line[i]
      invariant out[row + newW..] == old(out[row + newW..])
    {
      var v := SamplePixel(image, w, h, newW, newH, palette, f, x, y);
      out[row + x] := v;
      x := x + 1;
    }
    RowWritten(out[..], above, line);
    assert out[..] == out[..row + newW] + out[row + newW..];
  }

  /** The first two parts of a three-part sequence are its prefix. */
  lemma PrefixOfConcat(s: seq<Byte>, a: seq<Byte>, b: seq<Byte>, c: seq<Byte>)
    requires s == a + b + c
    ensures s[..|a| + |b|] == a + b
  {
    assert s[..|a| + |b|] == (a + b + c)[..|a + b|];
  }

  /** A buffer that starts with `above` and then holds `line` byte by byte
      has above + line as its prefix. */
  lemma RowWritten(s: seq<Byte>, above: seq<Byte>, line: seq<Byte>)
    requires |above| + |line| <= |s| && s[..|above|] == above
    requires forall i :: 0 <= i < |line| ==> s[|above| + i] == line[i]
    ensures s[..|above| + |line|] == above + line
  {
    assert forall i :: 0 <= i < |above| ==> s[i] == s[..|above|][i];
  }

  /** The first k rows of a flattened image are the flattening of those
      k rows. */
  lemma {:induction false} FlattenPrefix(rows: seq<seq<Byte>>, width: int, k: int)
    requires 0 <= width && Rectangular(rows, width) && 0 <= k <= |rows|
    ensures |Flatten(rows)| == |rows| * width
    ensures 0 <= k * width <= |Flatten(rows)|
    ensures Flatten(rows)[..k * width] == Flatten(rows[..k])
    decreases |rows|
  {
    FlattenLength(rows, width);
    if k == |rows| {
      assert rows[..k] == rows;
    } else {
      var n := |rows| - 1;
      FlattenPrefix(rows[..n], width, k);
      assert rows[..n][..k] == rows[..k];
    }
  }

  /** One pass of the outer loop of bilinear_u8: with the rows above y of
      the shrunk image in place, fill row y. */
  method FillNextRow(out: array<Byte>, image: seq<Byte>, w: int, h: int, newW: int, newH: int, palette: seq<Byte>, f: Filter,
                     y: int, row: int)
    requires Shape(image, w, h, newW, newH) && |palette| == PALETTE_BYTES && f.Valid()
    requires 0 <= y < newH && row == y * newW && row + newW <= out.Length == newW * newH
    requires out[..row] == Resampled(image, w, h, newW, newH, palette, f)[..row]
    modifies out
    ensures row + newW == (y + 1) * newW
    ensures out[..row + newW] == Resampled(image, w, h, newW, newH, palette, f)[..row + newW]
    ensures out[row + newW..] == old(out[row + newW..])
  {
    ghost var grid := Grid(image, w, h, newW, newH, palette, f);
    RowEnd(y, newW, newH);
    GridRow(image, w, h, newW, newH, palette, f, y);
    FlattenPrefix(grid, newW, y);
    FlattenPrefix(grid, newW, y + 1);
    ghost var rest := out[row + newW..];
    FillRow(out, image, w, h, newW, newH, palette, f, y, row, grid[y]);
    PrefixOfConcat(out[..], Flatten(grid[..y]), grid[y], rest);
  }

  /** A prefix as long as both sequences is all of them. */
  lemma WholeBuffer(s: seq<Byte>, t: seq<Byte>, n: int)
    requires |s| == |t| == n && s[..n] == t[..n]
    ensures s == t
  {
    assert s == s[..n] && t == t[..n];
  }

  /** bilinear_u8: a zero-filled buffer of newW*newH bytes, filled row by
      row with the destination pixels. */
  method Bilinear(image: seq<Byte>, w: int, h: int, newW: int, newH: int, palette: seq<Byte>, f: Filter)
    returns (out: array<Byte>)
    requires Shape(image, w, h, newW, newH) && |palette| == PALETTE_BYTES && f.Valid()
    ensures fresh(out)
    ensures out.Length == newW * newH
    ensures out[..] == Resampled(image, w, h, newW, newH, palette, f)
  {
    assert newW * newH >= 0;
    out := new Byte[newW * newH](_ => 0);
    var row := 0;
    var y := 0;
    while y < newH
      invariant 0 <= y <= newH
      invariant row == y * newW
      invariant out[..row] == Resampled(image, w, h, newW, newH, palette, f)[..row]
    {
      RowEnd(y, newW, newH);
      FillNextRow(out, image, w, h, newW, newH, palette, f, y, row);
      y := y + 1;
      row := row + newW;
    }
    WholeBuffer(out[..], Resampled(image, w, h, newW, newH, palette, f), row);
  }
}
