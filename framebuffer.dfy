/**
 * The drawing half of the slideshow (src/main.c): `position`, which turns a
 * row and a column into a word index of the framebuffer, and `draw`, which
 * clears the back buffer, writes a centred and clipped picture into it as
 * 0xRRGGBB words, and copies the back buffer to the screen.
 *
 * Both buffers are arrays of 32-bit words; they stand for the `smem_len`
 * bytes the driver reports, so each holds `smem_len / 4` words. The screen
 * description the driver returns is a parameter.
 */
module Framebuffer {
  import opened BmpFormat

  /** What the program takes from the driver: resolution, line length in bytes, bits per pixel. */
  datatype Screen = Screen(xres: nat, yres: nat, lineLength: nat, bpp: nat)

  /** Words from the start of one screen line to the start of the next: `ll / (bpp / 8)`. */
  function Stride(s: Screen): nat
    requires s.bpp >= 8
  {
    s.lineLength / (s.bpp / 8)
  }

  /** `position`: the word index of (row, col), computed in 32-bit unsigned arithmetic. */
  function Position(s: Screen, row: nat, col: nat): (p: nat)
    requires s.bpp >= 8
    ensures p < TWO_32
  {
    Wrap32(row * Stride(s) + col)
  }

  /**
   * A screen whose `n`-word buffer holds every line it shows: a line is at
   * least as long as the visible width, and `yres` lines fit in the buffer,
   * which itself is addressable with 32-bit indices.
   */
  predicate Fits(s: Screen, n: nat)
  {
    && s.bpp >= 8
    && s.xres <= Stride(s)
    && s.yres * Stride(s) <= n
    && n < TWO_32
  }

  /** `position` is row-major: the row and the column come back out of the index. */
  lemma PositionRowMajor(s: Screen, n: nat, row: nat, col: nat)
    requires Fits(s, n) && row < s.yres && col < s.xres
    ensures Position(s, row, col) == row * Stride(s) + col < n
    ensures LineOf(Position(s, row, col), Stride(s)) == row && ColumnOf(Position(s, row, col), Stride(s)) == col
  {
    GridBound(Stride(s), s.yres, row, col);
    GridCell(Stride(s), row, col);
  }

  /** The next column is the next word, and the next row is a stride further on. */
  lemma PositionNeighbours(s: Screen, n: nat, row: nat, col: nat)
    requires Fits(s, n) && row + 1 < s.yres && col + 1 < s.xres
    ensures Position(s, row, col + 1) == Position(s, row, col) + 1
    ensures Position(s, row + 1, col) == Position(s, row, col) + Stride(s)
  {
    PositionRowMajor(s, n, row, col);
    PositionRowMajor(s, n, row, col + 1);
    PositionRowMajor(s, n, row + 1, col);
    GridShift(Stride(s), row, col, 1, 0);
  }

  /** The line of index `x` in a grid `stride` words wide: how many whole lines lie before it. */
  function LineOf(x: nat, stride: nat): nat
    requires stride > 0
    decreases x
  {
    if x < stride then 0 else 1 + LineOf(x - stride, stride)
  }

  /** The column of index `x` in a grid `stride` words wide. */
  function ColumnOf(x: nat, stride: nat): nat
    requires stride > 0
    decreases x
  {
    if x < stride then x else ColumnOf(x - stride, stride)
  }

  /** In a grid `stride` cells wide, the cell at (row, col) lies below the first `lines` lines when row does. */
  lemma GridBound(stride: nat, lines: nat, row: nat, col: nat)
    requires row < lines && col < stride
    ensures row * stride + col < lines * stride
  {
    MulMonotone(row + 1, lines, stride);
    assert (row + 1) * stride == row * stride + stride;
  }

  /** The index of cell (row, col) splits back into its line and column. */
  lemma {:induction false} GridCell(stride: nat, row: nat, col: nat)
    requires col < stride
    ensures LineOf(row * stride + col, stride) == row && ColumnOf(row * stride + col, stride) == col
  {
    if row > 0 {
      MulMonotone(1, row, stride);
      assert row * stride + col - stride == (row - 1) * stride + col;
      GridCell(stride, row - 1, col);
    }
  }

  /** Moving a cell down `top` lines and right `left` columns adds `left + top * stride` to its index. */
  lemma GridShift(stride: nat, row: nat, col: nat, top: nat, left: nat)
    ensures (row + top) * stride + (col + left) == (row * stride + col) + (left + top * stride)
  {
  }

  /** Every index is its line times the stride plus its column, and the column is within the line. */
  lemma {:induction false} GridUnsplit(x: nat, stride: nat)
    requires stride > 0
    ensures x == LineOf(x, stride) * stride + ColumnOf(x, stride) && ColumnOf(x, stride) < stride
  {
    if x >= stride {
      GridUnsplit(x - stride, stride);
      assert (1 + LineOf(x - stride, stride)) * stride == LineOf(x - stride, stride) * stride + stride;
    }
  }

  /**
   * The left margin: half of the unused width when the picture is narrower
   * than the screen. The centring is fair: the margin after the drawn
   * columns is never smaller and at most one column larger, and together
   * they fill the screen's width.
   */
  function LeftMargin(s: Screen, width: nat): (m: nat)
    ensures m + DrawnCols(s, width) <= s.xres
    ensures width < s.xres ==> m <= s.xres - width - m <= m + 1
    ensures width >= s.xres ==> m == 0
  {
    if width < s.xres then (s.xres - width) / 2 else 0
  }

  /**
   * The top margin in lines: half of the unused height when the picture is
   * shorter than the screen, balanced against the margin below it the same
   * way.
   */
  function TopMargin(s: Screen, height: nat): (m: nat)
    ensures m + DrawnRows(s, height) <= s.yres
    ensures height < s.yres ==> m <= s.yres - height - m <= m + 1
    ensures height >= s.yres ==> m == 0
  {
    if height < s.yres then (s.yres - height) / 2 else 0
  }

  /**
   * The centring offset `draw` adds to every index: on a screen whose lines
   * hold its visible width, the word at line TopMargin, column LeftMargin.
   */
  function CenterOffset(s: Screen, width: nat, height: nat): (o: nat)
    requires s.bpp >= 8
    ensures 0 < s.xres <= Stride(s) ==>
              LineOf(o, Stride(s)) == TopMargin(s, height) && ColumnOf(o, Stride(s)) == LeftMargin(s, width)
  {
    var o := LeftMargin(s, width) + TopMargin(s, height) * Stride(s);
    if 0 < s.xres <= Stride(s) then GridCell(Stride(s), TopMargin(s, height), LeftMargin(s, width)); o else o
  }

  /** Lines of the picture that are drawn: those the screen has room for. */
  function DrawnRows(s: Screen, height: nat): (k: nat)
    ensures k <= height && k <= s.yres && (k == height || k == s.yres)
  {
    if height < s.yres then height else s.yres
  }

  /** Columns of the picture that are drawn. */
  function DrawnCols(s: Screen, width: nat): (k: nat)
    ensures k <= width && k <= s.xres && (k == width || k == s.xres)
  {
    if width < s.xres then width else s.xres
  }

  /** Every drawn line of `rows` holds three bytes (R, G, B) for every drawn column. */
  predicate RowsCover(rows: seq<seq<bv8>>, s: Screen, width: nat, height: nat)
  {
    && DrawnRows(s, height) <= |rows|
    && forall r :: 0 <= r < DrawnRows(s, height) ==> 3 * DrawnCols(s, width) <= |rows[r]|
  }

  /**
   * The word 0xRRGGBB. Packing loses nothing: each channel comes back out
   * of its byte of the word, and the top byte is clear.
   */
  function Packed(r: bv8, g: bv8, b: bv8): (w: bv32)
    ensures w >> 24 == 0
    ensures ((w >> 16) & 0xFF) as bv8 == r
    ensures ((w >> 8) & 0xFF) as bv8 == g
    ensures (w & 0xFF) as bv8 == b
  {
    (r as bv32 << 16) | (g as bv32 << 8) | b as bv32
  }

  /** As a number the packed word is R * 65536 + G * 256 + B. */
  lemma PackedValue(r: bv8, g: bv8, b: bv8)
    ensures Packed(r, g, b) == r as bv32 * 0x10000 + g as bv32 * 0x100 + b as bv32
  {
  }

  /** `|= (v << 16) & 0xFF0000`: the red channel ORed in. */
  function OrRed(w: bv32, v: bv8): bv32
  {
    w | ((v as bv32 << 16) & 0xFF0000)
  }

  /** `|= (v << 8) & 0xFF00`: the green channel ORed in. */
  function OrGreen(w: bv32, v: bv8): bv32
  {
    w | ((v as bv32 << 8) & 0xFF00)
  }

  /** `|= v & 0xFF`: the blue channel ORed in. */
  function OrBlue(w: bv32, v: bv8): bv32
  {
    w | (v as bv32 & 0xFF)
  }

  /** The three ORs applied to a cleared word leave exactly the packed pixel. */
  lemma OrsIntoClearedWord(r: bv8, g: bv8, b: bv8)
    ensures OrBlue(OrGreen(OrRed(0, r), g), b) == Packed(r, g, b)
  {
  }

  /** The word for the picture's pixel (row, col): bytes `3 * col` to `3 * col + 2` of its line. */
  function PixelWord(rows: seq<seq<bv8>>, row: nat, col: nat): bv32
    requires row < |rows| && 3 * col + 2 < |rows[row]|
  {
    Packed(rows[row][3 * col], rows[row][3 * col + 1], rows[row][3 * col + 2])
  }

  /**
   * Word `i` of the back buffer once the pixels before (row, col), in the
   * order `draw` visits them, have been written: the pixel whose line and
   * column index `i` denotes, or 0.
   */
  function WordDrawnUpTo(rows: seq<seq<bv8>>, s: Screen, width: nat, height: nat, i: nat, row: nat, col: nat): bv32
    requires s.bpp >= 8 && RowsCover(rows, s, width, height)
  {
    var stride, offset := Stride(s), CenterOffset(s, width, height);
    if stride == 0 || i < offset then 0
    else
      var r, c := LineOf(i - offset, stride), ColumnOf(i - offset, stride);
      if r < DrawnRows(s, height) && c < DrawnCols(s, width) && (r < row || (r == row && c < col))
      then PixelWord(rows, r, c)
      else 0
  }

  /** The back buffer of `n` words after `draw`. */
  function Frame(rows: seq<seq<bv8>>, s: Screen, width: nat, height: nat, n: nat): (f: seq<bv32>)
    requires s.bpp >= 8 && RowsCover(rows, s, width, height)
    ensures |f| == n
    ensures forall i :: 0 <= i < n && i < CenterOffset(s, width, height) ==> f[i] == 0
  {
    seq(n, i requires 0 <= i < n => WordDrawnUpTo(rows, s, width, height, i, DrawnRows(s, height), 0))
  }

  /** Where `draw` puts pixel (row, col): its position plus the centring offset, inside the buffer. */
  lemma TargetInBuffer(s: Screen, n: nat, width: nat, height: nat, row: nat, col: nat)
    requires Fits(s, n) && row < DrawnRows(s, height) && col < DrawnCols(s, width)
    ensures Position(s, row, col) == row * Stride(s) + col
    ensures Position(s, row, col) + CenterOffset(s, width, height) < n
    ensures LineOf(Position(s, row, col), Stride(s)) == row && ColumnOf(Position(s, row, col), Stride(s)) == col
  {
    var top, left := TopMargin(s, height), LeftMargin(s, width);
    PositionRowMajor(s, n, row, col);
    GridBound(Stride(s), s.yres, row + top, col + left);
    GridShift(Stride(s), row, col, top, left);
  }

  /**
   * Writing pixel (row, col) changes exactly one word: the one at its
   * target, which was still 0 and now holds the pixel.
   */
  lemma DrawStep(rows: seq<seq<bv8>>, s: Screen, n: nat, width: nat, height: nat, row: nat, col: nat)
    requires Fits(s, n) && RowsCover(rows, s, width, height)
    requires row < DrawnRows(s, height) && col < DrawnCols(s, width)
    ensures var t := Position(s, row, col) + CenterOffset(s, width, height);
            && t < n
            && WordDrawnUpTo(rows, s, width, height, t, row, col) == 0
            && WordDrawnUpTo(rows, s, width, height, t, row, col + 1) == PixelWord(rows, row, col)
    ensures forall i :: 0 <= i < n && i != Position(s, row, col) + CenterOffset(s, width, height) ==>
              WordDrawnUpTo(rows, s, width, height, i, row, col + 1) == WordDrawnUpTo(rows, s, width, height, i, row, col)
  {
    var stride, offset := Stride(s), CenterOffset(s, width, height);
    TargetInBuffer(s, n, width, height, row, col);
    PositionRowMajor(s, n, row, col);
    forall i | 0 <= i < n && i != Position(s, row, col) + offset
      ensures WordDrawnUpTo(rows, s, width, height, i, row, col + 1) == WordDrawnUpTo(rows, s, width, height, i, row, col)
    {
      if i >= offset && LineOf(i - offset, stride) == row && ColumnOf(i - offset, stride) == col {
        GridUnsplit(i - offset, stride);
        assert false;
      }
    }
  }

  /** After draw, the word at pixel (row, col)'s target holds that pixel. */
  lemma FrameAt(rows: seq<seq<bv8>>, s: Screen, n: nat, width: nat, height: nat, row: nat, col: nat)
    requires Fits(s, n) && RowsCover(rows, s, width, height)
    requires row < DrawnRows(s, height) && col < DrawnCols(s, width)
    ensures var t := Position(s, row, col) + CenterOffset(s, width, height);
            t < n && Frame(rows, s, width, height, n)[t] == PixelWord(rows, row, col)
  {
    var t := Position(s, row, col) + CenterOffset(s, width, height);
    TargetInBuffer(s, n, width, height, row, col);
    assert Frame(rows, s, width, height, n)[t] == WordDrawnUpTo(rows, s, width, height, t, DrawnRows(s, height), 0);
  }

  /**
   * After draw, a word is either 0 or the target of a drawn pixel, which
   * it then holds: nothing outside the centred, clipped picture is written.
   */
  lemma FrameBlankElsewhere(rows: seq<seq<bv8>>, s: Screen, n: nat, width: nat, height: nat, i: nat)
    requires Fits(s, n) && RowsCover(rows, s, width, height) && i < n
    ensures || Frame(rows, s, width, height, n)[i] == 0
            || exists row: nat, col: nat :: row < DrawnRows(s, height) && col < DrawnCols(s, width)
                 && i == Position(s, row, col) + CenterOffset(s, width, height)
                 && Frame(rows, s, width, height, n)[i] == PixelWord(rows, row, col)
  {
    var drawn, r, c := FinalWordSource(rows, s, n, width, height, i);
  }

  /** The pixel, if any, that the final word `i` comes from. */
  lemma FinalWordSource(rows: seq<seq<bv8>>, s: Screen, n: nat, width: nat, height: nat, i: nat)
      returns (drawn: bool, r: nat, c: nat)
    requires Fits(s, n) && RowsCover(rows, s, width, height) && i < n
    ensures var w := WordDrawnUpTo(rows, s, width, height, i, DrawnRows(s, height), 0);
            && (!drawn ==> w == 0)
            && (drawn ==> && r < DrawnRows(s, height) && c < DrawnCols(s, width)
                          && i == Position(s, r, c) + CenterOffset(s, width, height)
                          && w == PixelWord(rows, r, c))
  {
    var stride, offset := Stride(s), CenterOffset(s, width, height);
    drawn := stride > 0 && i >= offset
             && LineOf(i - offset, stride) < DrawnRows(s, height) && ColumnOf(i - offset, stride) < DrawnCols(s, width);
    if drawn {
      r, c := LineOf(i - offset, stride), ColumnOf(i - offset, stride);
      PositionRowMajor(s, n, r, c);
      GridUnsplit(i - offset, stride);
    } else {
      r, c := 0, 0;
    }
  }

  /** Before the first pixel is written every word is 0. */
  lemma NothingDrawnYet(rows: seq<seq<bv8>>, s: Screen, width: nat, height: nat, i: nat)
    requires s.bpp >= 8 && RowsCover(rows, s, width, height)
    ensures WordDrawnUpTo(rows, s, width, height, i, 0, 0) == 0
  {
  }

  /** Finishing a line of the loop is starting the next one. */
  lemma NextLine(rows: seq<seq<bv8>>, s: Screen, width: nat, height: nat, row: nat, i: nat)
    requires s.bpp >= 8 && RowsCover(rows, s, width, height)
    ensures WordDrawnUpTo(rows, s, width, height, i, row, DrawnCols(s, width))
            == WordDrawnUpTo(rows, s, width, height, i, row + 1, 0)
  {
  }

  /** The three `|=` statements of the inner loop of `draw`, on word `t`. */
  method OrPixel(fbBuf: array<bv32>, t: nat, r: bv8, g: bv8, b: bv8)
    requires t < fbBuf.Length
    modifies fbBuf
    ensures fbBuf[t] == OrBlue(OrGreen(OrRed(old(fbBuf[t]), r), g), b)
    ensures forall i :: 0 <= i < fbBuf.Length && i != t ==> fbBuf[i] == old(fbBuf[i])
  {
    fbBuf[t] := OrRed(fbBuf[t], r);
    fbBuf[t] := OrGreen(fbBuf[t], g);
    fbBuf[t] := OrBlue(fbBuf[t], b);
  }

  /**
   * One pass of the outer loop of `draw`: the pixels of line `row` that fit
   * on the screen, each ORed channel by channel into its word.
   */
  method DrawLine(fbBuf: array<bv32>, s: Screen, rows: seq<seq<bv8>>, width: nat, height: nat, row: nat, offset: nat)
    requires Fits(s, fbBuf.Length) && RowsCover(rows, s, width, height)
    requires row < DrawnRows(s, height) && offset == CenterOffset(s, width, height)
    requires forall i :: 0 <= i < fbBuf.Length ==> fbBuf[i] == WordDrawnUpTo(rows, s, width, height, i, row, 0)
    modifies fbBuf
    ensures forall i :: 0 <= i < fbBuf.Length ==> fbBuf[i] == WordDrawnUpTo(rows, s, width, height, i, row + 1, 0)
  {
    var cx := 0;
    var col := 0;
    while col < width && col < s.xres
      invariant col <= DrawnCols(s, width) && cx == 3 * col
      invariant forall i :: 0 <= i < fbBuf.Length ==> fbBuf[i] == WordDrawnUpTo(rows, s, width, height, i, row, col)
    {
      DrawStep(rows, s, fbBuf.Length, width, height, row, col);
      OrPixel(fbBuf, Position(s, row, col) + offset, rows[row][cx + 0], rows[row][cx + 1], rows[row][cx + 2]);
      OrsIntoClearedWord(rows[row][cx], rows[row][cx + 1], rows[row][cx + 2]);
      cx := cx + 3;
      col := col + 1;
    }
    forall i | 0 <= i < fbBuf.Length
      ensures fbBuf[i] == WordDrawnUpTo(rows, s, width, height, i, row + 1, 0)
    {
      NextLine(rows, s, width, height, row, i);
    }
  }

  /**
   * `draw`: clears the back buffer `fbBuf`, writes every pixel of the
   * picture that fits on the screen to its centred position as 0xRRGGBB,
   * and copies the back buffer to the screen buffer `fb`.
   */
  method Draw(fbBuf: array<bv32>, fb: array<bv32>, s: Screen, rows: seq<seq<bv8>>, width: nat, height: nat)
    requires fbBuf != fb && fb.Length == fbBuf.Length
    requires Fits(s, fbBuf.Length) && RowsCover(rows, s, width, height)
    modifies fbBuf, fb
    ensures fbBuf[..] == Frame(rows, s, width, height, fbBuf.Length)
    ensures fb[..] == fbBuf[..]
  {
    // Clear the back buffer
    forall i | 0 <= i < fbBuf.Length {
      fbBuf[i] := 0;
    }

    var offset := 0;
    if width < s.xres {
      offset := (s.xres - width) / 2;
    }
    if height < s.yres {
      offset := offset + (s.yres - height) / 2 * (s.lineLength / (s.bpp / 8));
    }
    assert offset == CenterOffset(s, width, height);
    forall i | 0 <= i < fbBuf.Length
      ensures fbBuf[i] == WordDrawnUpTo(rows, s, width, height, i, 0, 0)
    {
      NothingDrawnYet(rows, s, width, height, i);
    }

    var row := 0;
    while row < height && row < s.yres
      invariant row <= DrawnRows(s, height)
      invariant forall i :: 0 <= i < fbBuf.Length ==> fbBuf[i] == WordDrawnUpTo(rows, s, width, height, i, row, 0)
    {
      DrawLine(fbBuf, s, rows, width, height, row, offset);
      row := row + 1;
    }

    // Copy to the screen
    forall i | 0 <= i < fb.Length {
      fb[i] := fbBuf[i];
    }
  }
}
