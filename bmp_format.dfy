/**
 * What `read_bmp` (src/bmp.c) computes from the bytes of a file, as pure
 * functions: the 14-byte file header, the DIB header whose first four bytes
 * give its own length, the optional palette that is read and skipped, and
 * the padded BGR rows that are unpacked into RGB pixels with the rows
 * turned upside down.
 *
 * A file is the sequence of its bytes; `start` is where the file cursor
 * stands when `read_bmp` is called. Every read is satisfied from the cursor
 * onwards and is short exactly when the file ends first.
 */
module BmpFormat {
  import opened ByteOrder

  /** HEADER_SIZE of src/bmp.h: the length of the BMP file header. */
  const HEADER_SIZE: nat := 14
  /** The DIB header bytes after its size field that the reader consults (offsets 0 to 35). */
  const DIB_FIELDS_SIZE: nat := 36
  const TWO_32: nat := 0x1_0000_0000

  /** An unsigned 32-bit C result: the value modulo 2^32. */
  function Wrap32(x: int): (r: nat)
    ensures r < TWO_32
    ensures 0 <= x < TWO_32 ==> r == x
  {
    x % TWO_32
  }

  /** `struct pixel`: one RGB pixel of the decoded picture. */
  datatype Pixel = Pixel(r: bv8, g: bv8, b: bv8)

  /** `struct image`: what a successful `read_bmp` stores in `*picture`. */
  datatype Image = Image(width: nat, height: nat, bpp: nat, pixels: seq<Pixel>)

  /** The five reads of `read_bmp`, in the order it issues them. */
  datatype ReadStage = FileHeaderRead | DibSizeRead | DibBodyRead | PaletteRead | PixelDataRead

  /**
   * Why `read_bmp` returns 0. ShortRead is the C code's own failure. The
   * other two stand where the C code would read outside a buffer: a DIB
   * header too short to hold the fields at offsets 0 to 35, and pixel data
   * shorter than the last byte the unpack loop reads.
   */
  datatype ReadError = ShortRead(stage: ReadStage) | DibTooShort | PixelDataTooShort

  datatype Result<T> = Success(value: T) | Failure(error: ReadError)

  /** The file header fields: magic bytes, reported file size, pixel data offset. */
  datatype FileHeader = FileHeader(magic: seq<bv8>, size: nat, dataOffset: nat)

  /**
   * The BITMAPINFOHEADER fields as `read_bmp` extracts them, after the byte
   * order correction. `bottomUp` is `read_bmp`'s `bot_top`; nothing reads it.
   */
  datatype InfoHeader = InfoHeader(
    dibSize: nat, width: nat, height: nat, planes: nat, bpp: nat,
    compression: nat, dataSize: nat, ppmH: nat, ppmV: nat,
    nPalette: nat, nImportant: nat, bottomUp: bool)

  /** Everything `read_bmp` knows once the headers and the palette are read. */
  datatype Headers = Headers(
    reverse: bool, file: FileHeader, info: InfoHeader, dataStart: nat)

  /**
   * The value of a stored field: read natively (little-endian) as it is,
   * or, when the byte order is foreign, after `rev` has reversed it.
   */
  function Field(stored: seq<bv8>, reverse: bool): nat
  {
    if reverse then BigEndian(stored) else LittleEndian(stored)
  }

  /** A field of `n` bytes is below 256^n whichever way it is read. */
  lemma FieldBound(stored: seq<bv8>, reverse: bool)
    ensures Field(stored, reverse) < Pow256(|stored|)
  {
    if reverse {
      LittleEndianOfReversed(stored);
      LittleEndianBound(Reversed(stored));
    } else {
      LittleEndianBound(stored);
    }
  }

  /**
   * The outcome of `check_end`, negated: the file length differs from the
   * size field of the header read natively.
   */
  predicate ForeignByteOrder(fileLength: nat, header: seq<bv8>)
    requires |header| == HEADER_SIZE
    ensures !ForeignByteOrder(fileLength, header) ==> Field(header[2..6], false) == fileLength
    ensures fileLength >= TWO_32 ==> ForeignByteOrder(fileLength, header)
  {
    LittleEndianBound(header[2..6]);
    Pow256Four();
    fileLength != LittleEndian(header[2..6])
  }

  /** Four bytes hold exactly the 32-bit values. */
  lemma Pow256Four()
    ensures Pow256(4) == TWO_32
  {
    assert Pow256(1) == 256;
    assert Pow256(2) == 256 * 256;
    assert Pow256(3) == 256 * 256 * 256;
  }

  /** `*(int32_t *)`: an unsigned 32-bit pattern as a two's-complement number. */
  function AsInt32(u: nat): (v: int)
    ensures u < TWO_32 ==> -(TWO_32 / 2) <= v < TWO_32 / 2 && Wrap32(v) == u
    ensures u < TWO_32 ==> (v < 0 <==> u >= TWO_32 / 2)
  {
    if u < TWO_32 / 2 then u else u - TWO_32
  }

  /** The file header fields: the magic bytes, and two 32-bit fields at offsets 2 and 10. */
  function ParseFileHeader(header: seq<bv8>, reverse: bool): (fh: FileHeader)
    requires |header| == HEADER_SIZE
    ensures |fh.magic| == 2 && fh.size < TWO_32 && fh.dataOffset < TWO_32
  {
    FieldBound(header[2..6], reverse);
    FieldBound(header[10..14], reverse);
    Pow256Four();
    FileHeader(header[..2], Field(header[2..6], reverse), Field(header[10..14], reverse))
  }

  /**
   * The DIB fields: 32-bit fields everywhere but the 16-bit planes and bpp
   * at offsets 8 and 10; `bot_top` holds exactly when the height read as a
   * signed 32-bit number is positive.
   */
  function ParseInfoHeader(dibSize: nat, body: seq<bv8>, reverse: bool): (info: InfoHeader)
    requires |body| >= DIB_FIELDS_SIZE
    ensures info.dibSize == dibSize
    ensures info.width < TWO_32 && info.height < TWO_32 && info.compression < TWO_32
            && info.dataSize < TWO_32 && info.nPalette < TWO_32
    ensures info.planes < 0x1_0000 && info.bpp < 0x1_0000
    ensures info.bottomUp <==> 0 < info.height < TWO_32 / 2
  {
    FieldBound(body[0..4], reverse);
    FieldBound(body[4..8], reverse);
    FieldBound(body[8..10], reverse);
    FieldBound(body[10..12], reverse);
    FieldBound(body[12..16], reverse);
    FieldBound(body[16..20], reverse);
    FieldBound(body[28..32], reverse);
    Pow256Four();
    assert Pow256(2) == 0x1_0000;
    var height := Field(body[4..8], reverse);
    InfoHeader(
      dibSize, Field(body[0..4], reverse), height, Field(body[8..10], reverse),
      Field(body[10..12], reverse), Field(body[12..16], reverse),
      Field(body[16..20], reverse), Field(body[20..24], reverse),
      Field(body[24..28], reverse), Field(body[28..32], reverse),
      Field(body[32..36], reverse), AsInt32(height) > 0)
  }

  /** The length of the second DIB read, `dib_size - 4` in unsigned 32-bit arithmetic. */
  function DibBodyLength(dibSize: nat): (n: nat)
    ensures n < TWO_32
    ensures 4 <= dibSize < TWO_32 + 4 ==> n == dibSize - 4
    ensures dibSize < 4 ==> n == TWO_32 + dibSize - 4
  {
    Wrap32(dibSize - 4)
  }

  /**
   * Whether `read_bmp` reads a palette: always for 8 bits per pixel or
   * fewer, and for 24-bit pictures exactly when the colour count is non-zero.
   */
  predicate HasPalette(info: InfoHeader)
    ensures info.bpp <= 8 ==> HasPalette(info)
    ensures info.bpp == 24 ==> (HasPalette(info) <==> info.nPalette != 0)
  {
    info.nPalette != 0 || info.bpp <= 8
  }

  /** `palette_bytes`: `data_off - (14 + dib_size)` in unsigned 32-bit arithmetic. */
  function PaletteBytes(fh: FileHeader, info: InfoHeader): (n: nat)
    ensures n < TWO_32
    ensures HEADER_SIZE + info.dibSize <= fh.dataOffset < TWO_32 ==>
              n == fh.dataOffset - (HEADER_SIZE + info.dibSize)
    ensures fh.dataOffset < HEADER_SIZE + info.dibSize < TWO_32 ==>
              n == TWO_32 + fh.dataOffset - (HEADER_SIZE + info.dibSize)
  {
    Wrap32(fh.dataOffset - Wrap32(HEADER_SIZE + info.dibSize))
  }

  /** `pad`: `(width * bpp / 8) % 4`, the product taken modulo 2^32. */
  function RowPad(width: nat, bpp: nat): (pad: nat)
    ensures pad < 4
  {
    Wrap32(width * bpp) / 8 % 4
  }

  /** The pad the BMP format prescribes for 24-bit rows: up to the next multiple of 4. */
  function StandardPad(width: nat): (pad: nat)
    ensures pad < 4 && (3 * width + pad) % 4 == 0
  {
    (4 - 3 * width % 4) % 4
  }

  /** Where the unpack loop finds the blue byte of source row `row`, column `col`. */
  function PixelOffset(width: nat, pad: nat, row: nat, col: nat): nat
  {
    row * 3 * width + row * pad + col * 3
  }

  /**
   * One more than the last byte index the unpack loop reads, so the pixel
   * data must hold at least this many bytes.
   */
  function RequiredDataBytes(width: nat, height: nat, pad: nat): nat
  {
    if width == 0 || height == 0 then 0 else (height - 1) * (3 * width + pad) + 3 * width
  }

  /** The three stored bytes of a pixel are blue, green, red. */
  function SourcePixel(data: seq<bv8>, width: nat, height: nat, pad: nat, row: nat, col: nat): Pixel
    requires row < height && col < width
    requires RequiredDataBytes(width, height, pad) <= |data|
  {
    OffsetInBounds(width, height, pad, row, col);
    var o := PixelOffset(width, pad, row, col);
    Pixel(data[o + 2], data[o + 1], data[o])
  }

  /**
   * The picture as `read_bmp` assembles it: output index `i` lies in output
   * row `i / width`, which comes from source row `height - 1 - i / width`.
   */
  function Unpacked(data: seq<bv8>, width: nat, height: nat, pad: nat): (pixels: seq<Pixel>)
    requires RequiredDataBytes(width, height, pad) <= |data|
    ensures |pixels| == width * height
  {
    seq(width * height, i requires 0 <= i < width * height => OutputPixel(data, width, height, pad, i))
  }

  /** Output pixel `i`: the source pixel in row `height - 1 - i / width`, column `i % width`. */
  function OutputPixel(data: seq<bv8>, width: nat, height: nat, pad: nat, i: nat): Pixel
    requires i < width * height
    requires RequiredDataBytes(width, height, pad) <= |data|
  {
    RowOfIndex(i, width, height);
    SourcePixel(data, width, height, pad, height - 1 - i / width, i % width)
  }

  /**
   * The DIB header read at `p`: its size field, then `dib_size - 4` more
   * bytes, which must hold the fields at offsets 0 to 35.
   */
  function ParseDib(file: seq<bv8>, p: nat, reverse: bool): (r: Result<InfoHeader>)
    requires p <= |file|
    ensures r.Success? ==> DIB_FIELDS_SIZE <= DibBodyLength(r.value.dibSize)
                           && p + 4 + DibBodyLength(r.value.dibSize) <= |file|
  {
    if |file| - p < 4 then Failure(ShortRead(DibSizeRead))
    else
      var dibSize := Field(file[p..p + 4], reverse);
      var bodyLen := DibBodyLength(dibSize);
      if |file| - (p + 4) < bodyLen then Failure(ShortRead(DibBodyRead))
      else if bodyLen < DIB_FIELDS_SIZE then Failure(DibTooShort)
      else Success(ParseInfoHeader(dibSize, file[p + 4..p + 4 + bodyLen], reverse))
  }

  /** The file header, the DIB header and the palette, read from `start`. */
  function ParseHeaders(file: seq<bv8>, start: nat): (r: Result<Headers>)
    requires start <= |file|
    ensures r.Success? ==> r.value.dataStart <= |file|
  {
    if |file| - start < HEADER_SIZE then Failure(ShortRead(FileHeaderRead))
    else
      var header := file[start..start + HEADER_SIZE];
      var reverse := ForeignByteOrder(|file|, header);
      var fh := ParseFileHeader(header, reverse);
      match ParseDib(file, start + HEADER_SIZE, reverse)
      case Failure(e) => Failure(e)
      case Success(info) =>
        match ParsePalette(file, start + HEADER_SIZE + 4 + DibBodyLength(info.dibSize), fh, info)
        case Failure(e) => Failure(e)
        case Success(dataStart) => Success(Headers(reverse, fh, info, dataStart))
  }

  /**
   * The palette stage: where the pixel data starts once the palette that
   * follows the DIB header at `q` has been read and skipped.
   */
  function ParsePalette(file: seq<bv8>, q: nat, fh: FileHeader, info: InfoHeader): (r: Result<nat>)
    requires q <= |file|
    ensures r.Success? ==> q <= r.value <= |file|
    ensures r.Failure? <==> HasPalette(info) && q + PaletteBytes(fh, info) > |file|
  {
    if !HasPalette(info) then Success(q)
    else if |file| - q < PaletteBytes(fh, info) then Failure(ShortRead(PaletteRead))
    else Success(q + PaletteBytes(fh, info))
  }

  /**
   * `read_bmp` on a file whose cursor stands at `start`: the picture, or
   * why it returns 0.
   */
  function Decode(file: seq<bv8>, start: nat): (r: Result<Image>)
    requires start <= |file|
    ensures r.Success? ==> |r.value.pixels| == r.value.width * r.value.height
  {
    match ParseHeaders(file, start)
    case Failure(e) => Failure(e)
    case Success(hs) => DecodePixels(file, hs.dataStart, hs.info)
  }

  /** The pixel data read at `p` and unpacked into the picture. */
  function DecodePixels(file: seq<bv8>, p: nat, info: InfoHeader): (r: Result<Image>)
    requires p <= |file|
    ensures r.Success? ==> |r.value.pixels| == r.value.width * r.value.height
  {
    if |file| - p < info.dataSize then Failure(ShortRead(PixelDataRead))
    else
      var data := file[p..p + info.dataSize];
      var pad := RowPad(info.width, info.bpp);
      if info.dataSize < RequiredDataBytes(info.width, info.height, pad) then Failure(PixelDataTooShort)
      else Success(Image(info.width, info.height, info.bpp, Unpacked(data, info.width, info.height, pad)))
  }

  // ---------------------------------------------------------------------
  // Index arithmetic of the unpack loop

  /** Output index `i` splits into row `i / width` and column `i % width`. */
  lemma RowOfIndex(i: nat, width: nat, height: nat)
    requires i < width * height
    ensures width > 0 && i / width < height && i % width < width
  {
    if width > 0 && i / width >= height {
      MulMonotone(height, i / width, width);
      assert false;
    }
  }

  lemma MulMonotone(a: nat, b: nat, c: nat)
    requires a <= b
    ensures a * c <= b * c
  {
  }

  /** Row `q` and column `col < width` are recovered from `q * width + col`. */
  lemma SplitIndex(q: nat, col: nat, width: nat)
    requires col < width
    ensures (q * width + col) / width == q && (q * width + col) % width == col
  {
    var x := q * width + col;
    var d, m := x / width, x % width;
    assert x == d * width + m;
    if q > d {
      MulMonotone(1, q - d, width);
      assert false;
    } else if q < d {
      MulMonotone(1, d - q, width);
      assert false;
    }
  }

  /**
   * Where the unpack loop stores source row `row`, column `col`: output row
   * `height - 1 - row`. It always lies inside the picture.
   */
  function OutputIndex(width: nat, height: nat, row: nat, col: nat): (i: nat)
    requires row < height && col < width
    ensures i < width * height
  {
    MulMonotone(height - 1 - row, height - 1, width);
    assert (height - 1) * width + width == width * height;
    (height - 1 - row) * width + col
  }

  /** Every byte the unpack loop reads lies below RequiredDataBytes. */
  lemma OffsetInBounds(width: nat, height: nat, pad: nat, row: nat, col: nat)
    requires row < height && col < width
    ensures PixelOffset(width, pad, row, col) + 3 <= RequiredDataBytes(width, height, pad)
  {
    assert PixelOffset(width, pad, row, col) == row * (3 * width + pad) + 3 * col;
    MulMonotone(row, height - 1, 3 * width + pad);
  }

  /** RequiredDataBytes is exact: the last pixel ends at its last byte. */
  lemma RequiredDataBytesTight(width: nat, height: nat, pad: nat)
    requires width > 0 && height > 0
    ensures PixelOffset(width, pad, height - 1, width - 1) + 3 == RequiredDataBytes(width, height, pad)
  {
    assert PixelOffset(width, pad, height - 1, width - 1) == (height - 1) * (3 * width + pad) + 3 * (width - 1);
  }

  /**
   * Source row `row`, column `col` lands in output row `height - 1 - row`
   * as red, green, blue from the stored bytes `o + 2`, `o + 1`, `o`.
   */
  lemma UnpackedAt(data: seq<bv8>, width: nat, height: nat, pad: nat, row: nat, col: nat)
    requires RequiredDataBytes(width, height, pad) <= |data|
    requires row < height && col < width
    ensures var o := PixelOffset(width, pad, row, col);
            && o + 2 < |data|
            && Unpacked(data, width, height, pad)[OutputIndex(width, height, row, col)]
                 == Pixel(data[o + 2], data[o + 1], data[o])
  {
    OffsetInBounds(width, height, pad, row, col);
    var i := OutputIndex(width, height, row, col);
    SplitIndex(height - 1 - row, col, width);
    assert height - 1 - i / width == row && i % width == col;
  }

  /**
   * When the pixel data holds RequiredDataBytes, none of the 32-bit
   * expressions of the unpack loop wraps around: the byte offsets, the
   * output indices and the pixel count `width * height` all stay below 2^32.
   */
  lemma NoWrapInUnpack(width: nat, height: nat, pad: nat, dataSize: nat)
    requires dataSize < TWO_32
    requires RequiredDataBytes(width, height, pad) <= dataSize
    ensures width * height < TWO_32
    ensures forall row: nat, col: nat :: row < height && col < width ==>
              PixelOffset(width, pad, row, col) + 2 < TWO_32
  {
    if width > 0 && height > 0 {
      MulMonotone(height - 1, height - 1, 3 * width + pad);
      assert (height - 1) * (3 * width + pad) >= (height - 1) * width * 3;
      assert width * height == (height - 1) * width + width;
    }
    forall row: nat, col: nat | row < height && col < width
      ensures PixelOffset(width, pad, row, col) + 2 < TWO_32
    {
      OffsetInBounds(width, height, pad, row, col);
    }
  }

  // ---------------------------------------------------------------------
  // The row padding as written

  /**
   * For 24-bit pixels `read_bmp`'s pad is `3 * width % 4`, even where
   * `width * 24` wraps around 2^32.
   */
  lemma RowPad24(width: nat)
    ensures RowPad(width, 24) == 3 * width % 4
  {
    var k := width * 24 / TWO_32;
    var m := width * 24 % TWO_32;
    assert width * 24 == k * TWO_32 + m;
    assert m == 8 * (3 * width - k * (TWO_32 / 8));
    assert m / 8 == 3 * width - k * (TWO_32 / 8);
    assert (3 * width - k * (TWO_32 / 8)) % 4 == 3 * width % 4 by {
      assert TWO_32 / 8 == 4 * 0x800_0000;
      ModMultiple(3 * width, k * 0x800_0000);
    }
  }

  lemma ModMultiple(x: nat, j: nat)
    requires 4 * j <= x
    ensures (x - 4 * j) % 4 == x % 4
  {
  }

  /** A 24-bit row whose length is already a multiple of 4 gets no pad. */
  lemma AlignedRowHasNoPad(width: nat)
    requires 3 * width % 4 == 0
    ensures RowPad(width, 24) == 0
  {
    RowPad24(width);
  }

  /**
   * `read_bmp`'s pad agrees with the format's exactly when `3 * width`
   * leaves remainder 0 or 2 modulo 4; for remainders 1 and 3 the rows as
   * `read_bmp` steps through them are not 4-byte aligned.
   */
  lemma PadMatchesStandardIff(width: nat)
    ensures RowPad(width, 24) == StandardPad(width) <==> (3 * width % 4 == 0 || 3 * width % 4 == 2)
    ensures (3 * width % 4 == 1 || 3 * width % 4 == 3) ==> (3 * width + RowPad(width, 24)) % 4 != 0
  {
    RowPad24(width);
    PadCases(3 * width);
  }

  /** A row of `x` bytes: the two pads on the residue of `x` modulo 4. */
  lemma PadCases(x: nat)
    ensures x % 4 == (4 - x % 4) % 4 <==> (x % 4 == 0 || x % 4 == 2)
    ensures (x % 4 == 1 || x % 4 == 3) ==> (x + x % 4) % 4 != 0
  {
    var m, q := x % 4, x / 4;
    assert x == 4 * q + m && m < 4;
    assert x + m == 4 * q + 2 * m;
  }

  // ---------------------------------------------------------------------
  // What a successful decode consists of

  lemma SliceOfSlice(s: seq<bv8>, a: nat, b: nat, c: nat, d: nat)
    requires a <= b <= |s| && c <= d <= b - a
    ensures s[a..b][c..d] == s[a + c..a + d]
  {
    assert forall k :: 0 <= k < d - c ==> s[a..b][c..d][k] == s[a + c..a + d][k];
  }

  /** ParseDib on a file whose DIB header was read in full. */
  lemma DibStages(file: seq<bv8>, p: nat, reverse: bool, dibSize: nat, body: seq<bv8>, info: InfoHeader)
    requires p + 4 <= |file| && dibSize == Field(file[p..p + 4], reverse)
    requires p + 4 + DibBodyLength(dibSize) <= |file| && body == file[p + 4..p + 4 + DibBodyLength(dibSize)]
    requires DIB_FIELDS_SIZE <= |body| && info == ParseInfoHeader(dibSize, body, reverse)
    ensures ParseDib(file, p, reverse) == Success(info)
  {
  }

  /** ParseHeaders put together from the outcomes of its three stages. */
  lemma HeadersStages(file: seq<bv8>, start: nat, reverse: bool, fh: FileHeader,
                      dib: Result<InfoHeader>, palette: Result<nat>)
    requires start + HEADER_SIZE <= |file|
    requires var header := file[start..start + HEADER_SIZE];
             reverse == ForeignByteOrder(|file|, header) && fh == ParseFileHeader(header, reverse)
    requires dib == ParseDib(file, start + HEADER_SIZE, reverse)
    requires dib.Success? ==>
               palette == ParsePalette(file, start + HEADER_SIZE + 4 + DibBodyLength(dib.value.dibSize), fh, dib.value)
    ensures dib.Failure? ==> ParseHeaders(file, start) == Failure(dib.error)
    ensures dib.Success? && palette.Failure? ==> ParseHeaders(file, start) == Failure(palette.error)
    ensures dib.Success? && palette.Success? ==>
              ParseHeaders(file, start) == Success(Headers(reverse, fh, dib.value, palette.value))
  {
  }

  /**
   * The file header comes from fixed offsets of the file, each field
   * reversed exactly when the file length differs from the size field read
   * natively: size at 2, data offset at 10. The DIB header follows at 14,
   * and the pixel data starts after it and, when a palette is read, after
   * the palette's `data_off - (14 + dib_size)` bytes.
   */
  lemma HeadersAtFixedOffsets(file: seq<bv8>, start: nat)
    requires start <= |file|
    requires ParseHeaders(file, start).Success?
    ensures start + 18 <= |file|
    ensures var hs := ParseHeaders(file, start).value;
            var s := start;
            var rev := hs.reverse;
            && rev == (|file| != LittleEndian(file[s + 2..s + 6]))
            && hs.file.size == Field(file[s + 2..s + 6], rev)
            && hs.file.dataOffset == Field(file[s + 10..s + 14], rev)
            && ParseDib(file, s + 14, rev) == Success(hs.info)
            && hs.dataStart == s + 18 + DibBodyLength(hs.info.dibSize)
                                 + (if HasPalette(hs.info) then PaletteBytes(hs.file, hs.info) else 0)
  {
    SliceOfSlice(file, start, start + HEADER_SIZE, 2, 6);
    SliceOfSlice(file, start, start + HEADER_SIZE, 10, 14);
  }

  /**
   * The DIB header read at `p` comes from fixed offsets, each field
   * reversed when the byte order is foreign: DIB size at 0, then from the
   * body at 4: width at 0, height at 4, planes at 8, bpp at 10, compression
   * at 12, data size at 16 and palette count at 28. The body holds at least
   * the 36 bytes of these fields.
   */
  lemma DibAtFixedOffsets(file: seq<bv8>, p: nat, reverse: bool)
    requires p <= |file|
    requires ParseDib(file, p, reverse).Success?
    ensures p + 4 + DIB_FIELDS_SIZE <= |file|
    ensures var info := ParseDib(file, p, reverse).value;
            var q := p + 4;
            && info.dibSize == Field(file[p..p + 4], reverse)
            && DibBodyLength(info.dibSize) >= DIB_FIELDS_SIZE
            && info.width == Field(file[q..q + 4], reverse)
            && info.height == Field(file[q + 4..q + 8], reverse)
            && info.planes == Field(file[q + 8..q + 10], reverse)
            && info.bpp == Field(file[q + 10..q + 12], reverse)
            && info.compression == Field(file[q + 12..q + 16], reverse)
            && info.dataSize == Field(file[q + 16..q + 20], reverse)
            && info.nPalette == Field(file[q + 28..q + 32], reverse)
  {
    var bodyLen := DibBodyLength(Field(file[p..p + 4], reverse));
    var q := p + 4;
    SliceOfSlice(file, q, q + bodyLen, 0, 4);
    SliceOfSlice(file, q, q + bodyLen, 4, 8);
    SliceOfSlice(file, q, q + bodyLen, 8, 10);
    SliceOfSlice(file, q, q + bodyLen, 10, 12);
    SliceOfSlice(file, q, q + bodyLen, 12, 16);
    SliceOfSlice(file, q, q + bodyLen, 16, 20);
    SliceOfSlice(file, q, q + bodyLen, 28, 32);
  }

  /**
   * A successful decode returns `width * height` pixels, and the pixel of
   * source row `row`, column `col` is output pixel
   * `(height - 1 - row) * width + col`, built from the file bytes at
   * `o + 2`, `o + 1`, `o` (red, green, blue) where `o` is its offset in the
   * pixel data. The rows are flipped whatever the sign of the stored height.
   */
  lemma DecodedPixels(file: seq<bv8>, start: nat, row: nat, col: nat)
    requires start <= |file|
    requires Decode(file, start).Success?
    requires row < Decode(file, start).value.height && col < Decode(file, start).value.width
    ensures ParseHeaders(file, start).Success?
    ensures var img := Decode(file, start).value;
            var hs := ParseHeaders(file, start).value;
            var pad := RowPad(img.width, img.bpp);
            var o := hs.dataStart + PixelOffset(img.width, pad, row, col);
            && img.width == hs.info.width && img.height == hs.info.height && img.bpp == hs.info.bpp
            && |img.pixels| == img.width * img.height
            && o + 2 < |file|
            && img.pixels[OutputIndex(img.width, img.height, row, col)] == Pixel(file[o + 2], file[o + 1], file[o])
  {
    var hs := ParseHeaders(file, start).value;
    var info := hs.info;
    var data := file[hs.dataStart..hs.dataStart + info.dataSize];
    var pad := RowPad(info.width, info.bpp);
    UnpackedAt(data, info.width, info.height, pad, row, col);
    var o := PixelOffset(info.width, pad, row, col);
    assert data[o] == file[hs.dataStart + o];
    assert data[o + 1] == file[hs.dataStart + o + 1];
    assert data[o + 2] == file[hs.dataStart + o + 2];
  }

  /** A file with fewer than 18 bytes after the cursor never decodes. */
  lemma TruncatedHeaderFails(file: seq<bv8>, start: nat)
    requires start <= |file| && |file| - start < HEADER_SIZE + 4
    ensures Decode(file, start) == Failure(ShortRead(if |file| - start < HEADER_SIZE then FileHeaderRead else DibSizeRead))
  {
  }

  /**
   * A stored height with the sign bit set (a top-down file, `bot_top` false)
   * is taken as an unsigned number of at least 2^31 rows, so with any
   * columns at all the pixel data can never be long enough.
   */
  lemma TopDownNeverDecodes(file: seq<bv8>, start: nat)
    requires start <= |file|
    requires ParseHeaders(file, start).Success?
    requires var info := ParseHeaders(file, start).value.info;
             AsInt32(info.height) < 0 && info.width > 0
    ensures !ParseHeaders(file, start).value.info.bottomUp
    ensures Decode(file, start).Failure?
  {
    var hs := ParseHeaders(file, start).value;
    var info := hs.info;
    HeadersAtFixedOffsets(file, start);
    DibAtFixedOffsets(file, start + HEADER_SIZE, hs.reverse);
    FieldBound(file[start + 34..start + 38], hs.reverse);
    Pow256Four();
    var pad := RowPad(info.width, info.bpp);
    TallRowsExceed32Bits(info.width, info.height, pad);
  }

  /** At least 2^31 rows of at least one pixel need more than 2^32 - 1 bytes. */
  lemma TallRowsExceed32Bits(width: nat, height: nat, pad: nat)
    requires height >= TWO_32 / 2 && width > 0
    ensures RequiredDataBytes(width, height, pad) >= TWO_32
  {
    var m := TWO_32 / 2 - 1;
    MulMonotone(m, height - 1, 3 * width + pad);
    MulMonotone(3, 3 * width + pad, m);
  }
}
