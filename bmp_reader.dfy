/**
 * The imperative side of src/bmp.c: an open file with a cursor, the
 * byte-order probe `check_end`, and `read_bmp`, which reads the headers into
 * byte arrays, reverses them when the probe says so, reads and skips the
 * palette, reads the pixel data and unpacks it in two nested loops. Each
 * method is proved against the functions of BmpFormat.
 */
module BmpReader {
  import opened ByteOrder
  import opened BmpFormat

  function Min(a: nat, b: nat): nat
  {
    if a <= b then a else b
  }

  /**
   * An open regular file: its bytes and the offset that `read` and `lseek`
   * move. The operating system calls are modelled as its methods.
   */
  class FileDescriptor {
    const contents: seq<bv8>
    var cursor: nat

    ghost predicate Valid()
      reads this
    {
      cursor <= |contents|
    }

    constructor (contents: seq<bv8>, cursor: nat)
      requires cursor <= |contents|
      ensures Valid() && this.contents == contents && this.cursor == cursor
    {
      this.contents := contents;
      this.cursor := cursor;
    }

    /** `read(fd, buf, n)`: as many of `n` bytes as the file still holds. */
    method Read(buf: array<bv8>, n: nat) returns (nread: nat)
      requires Valid() && n <= buf.Length
      modifies this, buf
      ensures Valid()
      ensures nread == Min(n, |contents| - old(cursor))
      ensures cursor == old(cursor) + nread
      ensures buf[..nread] == contents[old(cursor)..cursor]
      ensures buf[nread..] == old(buf[nread..])
    {
      nread := Min(n, |contents| - cursor);
      forall i | 0 <= i < nread {
        buf[i] := contents[cursor + i];
      }
      cursor := cursor + nread;
    }

    /** `lseek(fd, 0, SEEK_CUR)`. */
    method SeekCurrent() returns (offset: nat)
      requires Valid()
      ensures offset == cursor
    {
      offset := cursor;
    }

    /** `lseek(fd, 0, SEEK_END)`. */
    method SeekEnd() returns (offset: nat)
      modifies this
      ensures Valid() && cursor == |contents| && offset == |contents|
    {
      cursor := |contents|;
      offset := cursor;
    }

    /** `lseek(fd, offset, SEEK_SET)`. */
    method SeekSet(offset: nat)
      requires offset <= |contents|
      modifies this
      ensures Valid() && cursor == offset
    {
      cursor := offset;
    }
  }

  /**
   * `check_end`: true exactly when the file is `size` bytes long. It finds
   * the length by seeking to the end and puts the cursor back where it was.
   */
  method CheckEnd(fd: FileDescriptor, size: nat) returns (same: bool)
    requires fd.Valid()
    modifies fd
    ensures fd.Valid() && fd.cursor == old(fd.cursor)
    ensures same <==> |fd.contents| == size
  {
    var cur := fd.SeekCurrent();
    var s := fd.SeekEnd();
    fd.SeekSet(cur);
    same := s == size;
  }

  /** `memcpy(dst, src + offset, n)` between two distinct buffers. */
  method Memcpy(dst: array<bv8>, src: array<bv8>, offset: nat, n: nat)
    requires n <= dst.Length && offset + n <= src.Length && dst != src
    modifies dst
    ensures dst[..n] == src[offset..offset + n]
    ensures dst[n..] == old(dst[n..])
  {
    forall i | 0 <= i < n {
      dst[i] := src[offset + i];
    }
  }

  /** A field array after the optional `rev`, read natively, is the field's value. */
  lemma NativeRead(stored: seq<bv8>, current: seq<bv8>, reverse: bool)
    requires current == if reverse then Reversed(stored) else stored
    ensures LittleEndian(current) == Field(stored, reverse)
  {
    if reverse {
      LittleEndianOfReversed(stored);
    }
  }

  /**
   * A field array as the reader uses it: reversed in place by `rev` when the
   * byte order is foreign, then read natively.
   */
  method NativeValue(field: array<bv8>, reverse: bool) returns (value: nat)
    modifies field
    ensures value == Field(old(field[..]), reverse)
    ensures field[..] == if reverse then Reversed(old(field[..])) else old(field[..])
  {
    ghost var stored := field[..];
    assert stored == stored[..field.Length];
    if reverse {
      Rev(field, field.Length);
      assert field[..] == field[..field.Length];
    }
    value := LittleEndian(field[..]);
    NativeRead(stored, field[..], reverse);
  }

  /**
   * Copies a field of `n` bytes out of a header buffer, reverses it when
   * the byte order is foreign, and reads it natively.
   */
  method ExtractField(header: array<bv8>, offset: nat, n: nat, reverse: bool) returns (value: nat)
    requires offset + n <= header.Length
    ensures value == Field(header[..][offset..offset + n], reverse)
  {
    var field := new bv8[n];
    Memcpy(field, header, offset, n);
    assert field[..] == field[..n] == header[..][offset..offset + n];
    value := NativeValue(field, reverse);
  }

  /**
   * The nested loops of `read_bmp`: source row `row`, column `col` is read
   * as blue, green, red from `row * 3 * width + row * pad + col * 3` and
   * stored as red, green, blue at `(height - row - 1) * width + col`.
   */
  method Unpack(data: array<bv8>, width: nat, height: nat, pad: nat) returns (pixels: seq<Pixel>)
    requires RequiredDataBytes(width, height, pad) <= data.Length
    ensures pixels == Unpacked(data[..], width, height, pad)
  {
    ghost var want := Unpacked(data[..], width, height, pad);
    var out := new Pixel[width * height](_ => Pixel(0, 0, 0));
    var row := 0;
    while row < height
      invariant row <= height
      invariant forall i :: FirstFilled(width, height, row) <= i < width * height ==> out[i] == want[i]
    {
      var base := FirstFilled(width, height, row + 1);
      var start := PixelOffset(width, pad, row, 0);
      FirstFilledStep(width, height, row);
      RowOfUnpacked(data[..], width, height, pad, row);
      UnpackRow(data, out, width, start, base, data[..], want);
      row := row + 1;
    }
    pixels := out[..];
    assert forall i :: 0 <= i < width * height ==> pixels[i] == want[i];
  }

  /**
   * The first output index the loops have filled before source row `row`:
   * source rows `0` to `row - 1` are output rows `height - row` to
   * `height - 1`.
   */
  function FirstFilled(width: nat, height: nat, row: nat): (i: nat)
    requires row <= height
    ensures i <= width * height
    ensures row == height ==> i == 0
  {
    MulMonotone(height - row, height, width);
    (height - row) * width
  }

  /** Source row `row` fills the `width` output indices just before those of the rows before it. */
  lemma FirstFilledStep(width: nat, height: nat, row: nat)
    requires row < height
    ensures FirstFilled(width, height, row + 1) + width == FirstFilled(width, height, row)
  {
    assert (height - row) * width == (height - (row + 1)) * width + width;
  }

  /**
   * Output row `height - 1 - row` of the picture is source row `row`: its
   * pixels start at output index `FirstFilled(width, height, row + 1)`, they
   * end where the rows already filled begin, and their bytes start at
   * `PixelOffset(width, pad, row, 0)`, three bytes apart.
   */
  lemma RowOfUnpacked(data: seq<bv8>, width: nat, height: nat, pad: nat, row: nat)
    requires RequiredDataBytes(width, height, pad) <= |data| && row < height
    ensures width > 0 ==> PixelOffset(width, pad, row, 0) + 3 * width <= |data|
    ensures forall col :: 0 <= col < width ==>
              Unpacked(data, width, height, pad)[FirstFilled(width, height, row + 1) + col]
                == Pixel(data[PixelOffset(width, pad, row, 0) + 3 * col + 2],
                         data[PixelOffset(width, pad, row, 0) + 3 * col + 1],
                         data[PixelOffset(width, pad, row, 0) + 3 * col])
  {
    if width > 0 {
      OffsetInBounds(width, height, pad, row, width - 1);
    }
    forall col | 0 <= col < width
      ensures Unpacked(data, width, height, pad)[FirstFilled(width, height, row + 1) + col]
                == Pixel(data[PixelOffset(width, pad, row, 0) + 3 * col + 2],
                         data[PixelOffset(width, pad, row, 0) + 3 * col + 1],
                         data[PixelOffset(width, pad, row, 0) + 3 * col])
    {
      UnpackedAt(data, width, height, pad, row, col);
      assert PixelOffset(width, pad, row, col) == PixelOffset(width, pad, row, 0) + 3 * col;
    }
  }

  /**
   * One pass of the outer unpack loop: the `width` pixels whose bytes start
   * at `start` in `data` are stored, left to right, from `base` on in
   * `out`, which then agrees with `want` from `base` to its end.
   */
  method UnpackRow(data: array<bv8>, out: array<Pixel>, width: nat, start: nat, base: nat,
                   ghost d: seq<bv8>, ghost want: seq<Pixel>)
    requires data as object != out && d == data[..] && (width > 0 ==> start + 3 * width <= |d|)
    requires base + width <= out.Length == |want|
    requires forall i :: base <= i < base + width ==>
               want[i] == Pixel(d[start + 3 * (i - base) + 2], d[start + 3 * (i - base) + 1], d[start + 3 * (i - base)])
    requires forall i :: base + width <= i < out.Length ==> out[i] == want[i]
    modifies out
    ensures forall i :: base <= i < out.Length ==> out[i] == want[i]
    ensures forall i :: 0 <= i < base ==> out[i] == old(out[i])
  {
    var col := 0;
    while col < width
      invariant col <= width && data[..] == d
      invariant forall i :: (base <= i < base + col || base + width <= i < out.Length) ==> out[i] == want[i]
      invariant forall i :: 0 <= i < base ==> out[i] == old(out[i])
    {
      var o := start + col * 3;
      var b, g, r := data[o], data[o + 1], data[o + 2];
      out[base + col] := Pixel(r, g, b);
      col := col + 1;
    }
  }

  /**
   * The first part of `read_bmp`: the 14-byte file header, the probe, and
   * the size and data offset fields reversed when the probe fails.
   */
  method ReadFileHeader(fd: FileDescriptor) returns (ok: bool, fh: FileHeader, reverseEndian: bool)
    requires fd.Valid()
    modifies fd
    ensures fd.Valid()
    ensures ok <==> |fd.contents| - old(fd.cursor) >= HEADER_SIZE
    ensures ok ==> var header := fd.contents[old(fd.cursor)..old(fd.cursor) + HEADER_SIZE];
                   && reverseEndian == ForeignByteOrder(|fd.contents|, header)
                   && fh == ParseFileHeader(header, reverseEndian)
                   && fd.cursor == old(fd.cursor) + HEADER_SIZE
  {
    ghost var start := fd.cursor;
    fh, reverseEndian := FileHeader([], 0, 0), false;
    var bmpHeader := new bv8[HEADER_SIZE];
    var nread := fd.Read(bmpHeader, HEADER_SIZE);
    if nread != HEADER_SIZE {
      return false, fh, reverseEndian;
    }
    assert bmpHeader[..] == bmpHeader[..nread];
    ghost var header := bmpHeader[..];
    assert header == fd.contents[start..start + HEADER_SIZE];
    var magic, size, dataOff := new bv8[2], new bv8[4], new bv8[4];
    Memcpy(magic, bmpHeader, 0, 2);
    Memcpy(size, bmpHeader, 2, 4);
    Memcpy(dataOff, bmpHeader, 10, 4);
    assert magic[..] == magic[..2] == header[..2];
    assert size[..] == size[..4] == header[2..6];
    assert dataOff[..] == dataOff[..4] == header[10..14];

    var same := CheckEnd(fd, LittleEndian(size[..]));
    reverseEndian := !same;
    fh := FileHeaderFields(magic, size, dataOff, reverseEndian);
    assert fh == ParseFileHeader(header, reverseEndian);
    ok := true;
  }

  /**
   * The end of the file header stage: size and data offset reversed in
   * place when the byte order is foreign, then read natively.
   */
  method FileHeaderFields(magic: array<bv8>, size: array<bv8>, dataOff: array<bv8>, reverse: bool)
      returns (fh: FileHeader)
    requires size != dataOff && magic != size && magic != dataOff
    modifies size, dataOff
    ensures fh == FileHeader(old(magic[..]), Field(old(size[..]), reverse), Field(old(dataOff[..]), reverse))
    ensures magic[..] == old(magic[..])
    ensures size[..] == if reverse then Reversed(old(size[..])) else old(size[..])
    ensures dataOff[..] == if reverse then Reversed(old(dataOff[..])) else old(dataOff[..])
  {
    var sizeValue := NativeValue(size, reverse);
    var dataOffValue := NativeValue(dataOff, reverse);
    fh := FileHeader(magic[..], sizeValue, dataOffValue);
  }

  /**
   * Reads a field of `n` bytes from the file into its own array, reverses
   * it when the byte order is foreign, and reads it natively.
   */
  method ReadField(fd: FileDescriptor, n: nat, reverseEndian: bool) returns (ok: bool, value: nat)
    requires fd.Valid()
    modifies fd
    ensures fd.Valid()
    ensures ok <==> |fd.contents| - old(fd.cursor) >= n
    ensures ok ==> fd.cursor == old(fd.cursor) + n
                   && value == Field(fd.contents[old(fd.cursor)..old(fd.cursor) + n], reverseEndian)
  {
    ghost var file, p := fd.contents, fd.cursor;
    var field := new bv8[n];
    var nread := fd.Read(field, n);
    if nread != n {
      return false, 0;
    }
    assert field[..] == field[..n];
    value := NativeValue(field, reverseEndian);
    return true, value;
  }

  /**
   * The second part of `read_bmp`: the DIB size field, the `dib_size - 4`
   * bytes after it, and the fields at their fixed offsets, each reversed
   * when the byte order is foreign.
   */
  method ReadDibHeader(fd: FileDescriptor, reverseEndian: bool) returns (r: Result<InfoHeader>)
    requires fd.Valid()
    modifies fd
    ensures fd.Valid()
    ensures r == ParseDib(fd.contents, old(fd.cursor), reverseEndian)
    ensures r.Success? ==> fd.cursor == old(fd.cursor) + 4 + DibBodyLength(r.value.dibSize)
  {
    ghost var file, p := fd.contents, fd.cursor;
    var ok, dibSize := ReadField(fd, 4, reverseEndian);
    if !ok {
      return Failure(ShortRead(DibSizeRead));
    }

    var bodyLen := DibBodyLength(dibSize);
    var dibHeader := new bv8[bodyLen];
    var nread := fd.Read(dibHeader, bodyLen);
    if nread != bodyLen {
      return Failure(ShortRead(DibBodyRead));
    }
    if bodyLen < DIB_FIELDS_SIZE {
      return Failure(DibTooShort);
    }
    assert dibHeader[..] == dibHeader[..nread];
    var info := ExtractDibFields(dibHeader, dibSize, reverseEndian);
    DibStages(file, p, reverseEndian, dibSize, dibHeader[..], info);
    r := Success(info);
  }

  /**
   * The fields of the DIB header at their fixed offsets, each copied out of
   * the buffer and reversed when the byte order is foreign.
   */
  method ExtractDibFields(dibHeader: array<bv8>, dibSize: nat, reverseEndian: bool) returns (info: InfoHeader)
    requires DIB_FIELDS_SIZE <= dibHeader.Length
    ensures info == ParseInfoHeader(dibSize, dibHeader[..], reverseEndian)
  {
    var width := ExtractField(dibHeader, 0, 4, reverseEndian);
    var height := ExtractField(dibHeader, 4, 4, reverseEndian);
    var cPlanes := ExtractField(dibHeader, 8, 2, reverseEndian);
    var bpp := ExtractField(dibHeader, 10, 2, reverseEndian);
    var compression := ExtractField(dibHeader, 12, 4, reverseEndian);
    var dataSize := ExtractField(dibHeader, 16, 4, reverseEndian);
    var ppmH := ExtractField(dibHeader, 20, 4, reverseEndian);
    var ppmV := ExtractField(dibHeader, 24, 4, reverseEndian);
    var nPalette := ExtractField(dibHeader, 28, 4, reverseEndian);
    var nImportant := ExtractField(dibHeader, 32, 4, reverseEndian);
    var botTop := AsInt32(height) > 0;
    info := InfoHeader(dibSize, width, height, cPlanes, bpp, compression, dataSize,
                       ppmH, ppmV, nPalette, nImportant, botTop);
  }

  /**
   * `read_bmp`: reads a BMP picture from the cursor of `fd`. The outcome is
   * Decode of the file's bytes from where the cursor stood; on success the
   * cursor has moved past the pixel data.
   */
  method ReadBmp(fd: FileDescriptor) returns (r: Result<Image>)
    requires fd.Valid()
    modifies fd
    ensures fd.Valid()
    ensures r == Decode(fd.contents, old(fd.cursor))
    ensures r.Success? ==>
              && ParseHeaders(fd.contents, old(fd.cursor)).Success?
              && fd.cursor == ParseHeaders(fd.contents, old(fd.cursor)).value.dataStart
                              + ParseHeaders(fd.contents, old(fd.cursor)).value.info.dataSize
  {
    var hs := ReadHeaders(fd);
    if hs.Failure? {
      return Failure(hs.error);
    }
    r := ReadPixels(fd, hs.value.info);
  }

  /**
   * The header part of `read_bmp`: the file header and the probe, the DIB
   * header, and the palette, each stage failing on a short read.
   */
  method ReadHeaders(fd: FileDescriptor) returns (r: Result<Headers>)
    requires fd.Valid()
    modifies fd
    ensures fd.Valid()
    ensures r == ParseHeaders(fd.contents, old(fd.cursor))
    ensures r.Success? ==> fd.cursor == r.value.dataStart
  {
    ghost var file, start := fd.contents, fd.cursor;
    var ok, fh, reverseEndian := ReadFileHeader(fd);
    if !ok {
      return Failure(ShortRead(FileHeaderRead));
    }
    var dib := ReadDibHeader(fd, reverseEndian);
    if dib.Failure? {
      HeadersStages(file, start, reverseEndian, fh, dib, Failure(ShortRead(PaletteRead)));
      return Failure(dib.error);
    }
    var info := dib.value;
    var dataStart := ReadPalette(fd, fh, info);
    HeadersStages(file, start, reverseEndian, fh, dib, dataStart);
    if dataStart.Failure? {
      return Failure(dataStart.error);
    }
    r := Success(Headers(reverseEndian, fh, info, dataStart.value));
  }

  /**
   * The palette stage of `read_bmp`: when there is a palette (a non-zero
   * colour count, or at most 8 bits per pixel) the bytes between the end of
   * the DIB header and the pixel data are read and then dropped.
   */
  method ReadPalette(fd: FileDescriptor, fh: FileHeader, info: InfoHeader) returns (r: Result<nat>)
    requires fd.Valid()
    modifies fd
    ensures fd.Valid()
    ensures r == ParsePalette(fd.contents, old(fd.cursor), fh, info)
    ensures r.Success? ==> fd.cursor == r.value
  {
    if info.nPalette != 0 || info.bpp <= 8 {
      var dibEnd := Wrap32(HEADER_SIZE + info.dibSize);
      var paletteBytes := Wrap32(fh.dataOffset as int - dibEnd);
      var palette := new bv8[paletteBytes];
      var nread := fd.Read(palette, paletteBytes);
      if nread != paletteBytes {
        return Failure(ShortRead(PaletteRead));
      }
    }
    return Success(fd.cursor);
  }

  /**
   * The last part of `read_bmp`: the `data_size` bytes of pixel data, the
   * row pad, and the unpacked picture.
   */
  method ReadPixels(fd: FileDescriptor, info: InfoHeader) returns (r: Result<Image>)
    requires fd.Valid()
    modifies fd
    ensures fd.Valid()
    ensures r == DecodePixels(fd.contents, old(fd.cursor), info)
    ensures r.Success? ==> fd.cursor == old(fd.cursor) + info.dataSize
  {
    ghost var file, p := fd.contents, fd.cursor;
    var data := new bv8[info.dataSize];
    var nread := fd.Read(data, info.dataSize);
    if nread != info.dataSize {
      return Failure(ShortRead(PixelDataRead));
    }
    assert data[..] == data[..nread] == file[p..p + info.dataSize];
    var pad := Wrap32(info.width * info.bpp) / 8 % 4;
    if info.dataSize < RequiredDataBytes(info.width, info.height, pad) {
      return Failure(PixelDataTooShort);
    }
    var pixels := Unpack(data, info.width, info.height, pad);
    r := Success(Image(info.width, info.height, info.bpp, pixels));
  }
}
