# A verified model of the BMP decoder and slide renderer of a framebuffer slideshow

The program is a terminal slideshow. It shows pictures on the Linux
framebuffer, one slide at a time, and the user moves between slides with
single keys. This project models its computational core in Dafny and proves
properties of that model.

- **`src/bmp.c`**
  - `rev` reverses a byte buffer in place with an XOR swap.
  - `check_end` is the byte-order probe. It compares the file's real length
    with the size field of the header read natively.
  - `read_bmp`:
    - reads the 14-byte file header;
    - reads the DIB header, whose first four bytes give its own length;
    - extracts the BITMAPINFOHEADER fields at fixed offsets, reversing each
      one when the probe says the byte order is foreign;
    - reads and drops the palette when there is one;
    - unpacks the padded BGR rows into RGB pixels, with the rows turned
      upside down.
- **`src/main.c`**
  - `position` computes a framebuffer word index.
  - `draw` clears the back buffer, ORs the centred and clipped picture into
    it as `0xRRGGBB` words, and copies it to the screen buffer.
  - The key `switch` of the main loop moves the slide index.

Modules:

- **`ByteOrder`** (`byte_order.dfy`):
  - `Reversed`, the specification of `rev`;
  - the method `Rev`, the loop of `rev` over an `array<bv8>`, proved against
    `Reversed`;
  - `LittleEndian` and `BigEndian`, the two readings of a stored field.

  The host is fixed as little-endian. A native `*(uint32_t *)` read is
  therefore `LittleEndian`, and a field reversed by `rev` reads as
  `BigEndian` of its stored bytes.
- **`BmpFormat`** (`bmp_format.dfy`): what `read_bmp` computes, as pure
  functions.
  - `ParseHeaders` covers the file header, the DIB header and the palette.
  - `DecodePixels` covers the pixel data.
  - `Decode` is the whole call.
  - The lemmas state where each field and each pixel comes from in the file.
- **`BmpReader`** (`bmp_reader.dfy`): the imperative reader.
  - A file is a `FileDescriptor` object holding its bytes and a cursor.
  - `read`, `lseek` and `memcpy` become methods.
  - `CheckEnd` and `ReadBmp` follow the C control flow: byte arrays,
    in-place `Rev`, and nested unpack loops.
  - `ReadBmp` is proved to return exactly `Decode` of the file's bytes.
- **`Framebuffer`** (`framebuffer.dfy`):
  - `Position`;
  - the centring margins;
  - the channel packing;
  - the method `Draw` over two `array<bv32>` buffers, proved to leave
    exactly `Frame` in both buffers;
  - the lemmas that say what `Frame` holds.
- **`Slideshow`** (`slideshow.dfy`):
  - `Navigate`, the key `switch`;
  - the method `Run`, the main loop over a finite sequence of keys.

Unsigned 32-bit arithmetic is written out with `Wrap32` in the reader and
in `position`, where the C code can wrap:

- `dib_size - 4`;
- `14 + dib_size`;
- `data_off - dib_end`;
- `width * bpp` in the row pad;
- `position`.

The loop offsets of the unpack loop are proved not to wrap once the pixel
data is long enough (`NoWrapInUnpack`).

The centring `offset` of `draw` and the index `position(row, col) + offset`
are unsigned too, but are kept unbounded. On a screen that fits its buffer
(`Fits`), every such index lies below the buffer length, itself below
2^32, so neither can wrap (`TargetInBuffer`).

### Behaviour of the code worth knowing

- **bpp and compression.** The BMP format allows bit depths from 1 to 32
  and several compression methods. `read_bmp` checks neither the bit depth
  nor the compression field. Every file is unpacked as uncompressed 24-bit
  BGR.
- **Row order.** In the BMP format a positive height means the rows are
  stored bottom-up and a negative height means top-down. `read_bmp`
  computes `bot_top` from the sign and never reads it, so the rows are
  always flipped (`DecodedPixels`).
  - The model keeps the flag as `InfoHeader.bottomUp`.
  - `read_bmp` uses the height as an unsigned value. A negative height is
    therefore at least 2^31 rows, and such a file with a non-zero width
    never decodes
    (`TopDownNeverDecodes`).
- **Row pad.** The BMP format pads each row up to the next multiple of 4
  bytes. `read_bmp` computes `(width * bpp / 8) % 4` with a 32-bit product.
  - For 24 bits per pixel this is `3 * width % 4` (`RowPad24`).
  - It agrees with the format's pad only when `3 * width % 4` is 0 or 2
    (`PadMatchesStandardIff`).
- **Magic bytes.** `read_bmp` reads the two `BM` bytes but never checks them.
- **Pixel data offset.** `read_bmp` never seeks to `data_off`. The pixel
  data is read from wherever the file's cursor stands after the headers
  (`HeadersAtFixedOffsets`).
  - With no palette, that is straight after the DIB header. Any bytes
    between the DIB header and `data_off`, such as BI_BITFIELDS masks, are
    read as pixels.
  - With a palette, `data_off` only sizes the palette read, as
    `data_off - (14 + dib_size)` in 32-bit arithmetic. The pixel data then
    starts at `data_off` when that lies past the DIB header.

## Model

| member | source | states |
|---|---|---|
| ByteOrder.Rev | src/bmp.c:23-30 | reversing the first `len` bytes in place leaves them as `Reversed` of the old bytes, and leaves the bytes after `len` unchanged |
| ByteOrder.XorSwapCells | src/bmp.c:26-28 | the three XOR assignments exchange the two cells when the indices differ, and change no other cell |
| ByteOrder.XorSwap | src/bmp.c:26-28 | for two distinct cells holding x and y, the three XORs leave y in the first and x in the second |
| ByteOrder.XorSelfClears | src/bmp.c:25-26 | if the two indices were equal, the first XOR would clear the cell to 0, so the swap needs `cx != len - cx - 1` |
| ByteOrder.Reversed | src/bmp.c:23-30 | the reversal has the buffer's length, and its byte `k` is byte `len - 1 - k` of the buffer |
| ByteOrder.Xor | src/bmp.c:26-28 | XORing the same byte in again gives back the other operand, which is what lets three XORs swap two cells |
| ByteOrder.ReversedTwice | src/bmp.c:23-30 | reversing twice gives back the original buffer |
| ByteOrder.ShortIsOwnReversal | src/bmp.c:25 | a buffer of length 0 or 1 is unchanged by `rev` |
| ByteOrder.MiddleByteFixed | src/bmp.c:25 | for an odd length the middle byte stays where it is |
| ByteOrder.LittleEndian | src/bmp.c:91 | by definition the native `*(uint32_t *)` read on a little-endian host: byte 0 is least significant, each later byte worth 256 times more |
| ByteOrder.LittleEndianOfReversed | src/bmp.c:94-96 | reading natively a field reversed by `rev` gives its big-endian value |
| ByteOrder.LittleEndianBound | src/bmp.c:91 | a stored field of `n` bytes read natively is below 256^n |
| BmpFormat.Field | src/bmp.c:93-97 | by definition a field's value: the native read of its bytes, or their big-endian value when the order is foreign, which is the native read after `rev` (`LittleEndianOfReversed`) |
| BmpFormat.FieldBound | src/bmp.c:124-161 | a field of `n` bytes is below 256^n, whether reversed or not |
| BmpFormat.Wrap32 | src/bmp.c:112 | unsigned 32-bit results lie below 2^32, and values already in range are unchanged |
| BmpFormat.ForeignByteOrder | src/bmp.c:91 | when the order counts as native, the size field read natively is the file's length; a file of 2^32 bytes or more always counts as foreign, since no 32-bit field can equal its length |
| BmpFormat.AsInt32 | src/bmp.c:169 | the `int32_t` reading of a 32-bit value lies in [-2^31, 2^31), has the same 32 bits, and is negative exactly when the value is 2^31 or more |
| BmpFormat.ParseFileHeader | src/bmp.c:82-97 | the magic is two bytes, and the size and data offset are 32-bit values |
| BmpFormat.ParseInfoHeader | src/bmp.c:123-169 | the DIB size is kept; width, height, compression, data size and palette count are 32-bit values, planes and bpp 16-bit ones; `bot_top` holds exactly when the height read as `int32_t` is positive |
| BmpFormat.HasPalette | src/bmp.c:172 | a bit depth of 8 or less always reads a palette; at 24 bits a palette is read exactly when the palette count is non-zero |
| BmpFormat.PaletteBytes | src/bmp.c:173-174 | `data_off - (14 + dib_size)` in 32-bit unsigned arithmetic: the plain difference when the data offset lies past the DIB header, that difference plus 2^32 when it lies before its end |
| BmpFormat.Unpacked | src/bmp.c:199-225 | the unpacked picture holds exactly `width * height` pixels; what each pixel holds is `UnpackedAt` |
| BmpReader.FileDescriptor.Read | src/bmp.c:75 | `read` returns the smaller of `n` and the bytes left, copies those bytes from the cursor, and advances the cursor by that count |
| BmpReader.FileDescriptor.SeekCurrent | src/bmp.c:15 | `lseek(fd, 0, SEEK_CUR)` returns the cursor and moves nothing |
| BmpReader.FileDescriptor.SeekEnd | src/bmp.c:16 | `lseek(fd, 0, SEEK_END)` moves the cursor to the end and returns the file's length |
| BmpReader.FileDescriptor.SeekSet | src/bmp.c:17 | `lseek(fd, cur, SEEK_SET)` puts the cursor at `cur` |
| BmpReader.CheckEnd | src/bmp.c:15-20 | true exactly when the file length equals `size`, and the cursor is back where it was |
| BmpReader.Memcpy | src/bmp.c:82-88 | the first `n` bytes of the destination are the source bytes from `offset`, and the rest are unchanged |
| BmpReader.NativeValue | src/bmp.c:94-96 | a field array, reversed in place when the order is foreign and then read natively, yields `Field` of its stored bytes; afterwards the array holds `Reversed` of its old bytes when the order is foreign and is unchanged otherwise |
| BmpReader.ExtractField | src/bmp.c:124-161 | a field copied out of the DIB buffer at a fixed offset and optionally reversed yields `Field` of those bytes |
| BmpReader.ReadFileHeader | src/bmp.c:74-97 | succeeds exactly when 14 bytes remain; the order is foreign exactly when the file length differs from the size field read natively; size and data offset are `Field`s at offsets 2 and 10; the cursor advances by 14 |
| BmpReader.FileHeaderFields | src/bmp.c:93-97 | size and data offset are read natively as `Field`s of their stored bytes; afterwards each array holds `Reversed` of its old bytes when the order is foreign and is unchanged otherwise, and the magic array is untouched and kept as stored |
| BmpReader.ReadField | src/bmp.c:99-109 | succeeds exactly when `n` bytes remain, and then returns `Field` of those bytes |
| BmpReader.ReadDibHeader | src/bmp.c:99-161 | the outcome is exactly `ParseDib`; on success the cursor is past the `dib_size - 4` body bytes |
| BmpReader.ExtractDibFields | src/bmp.c:123-161 | the ten fields extracted at offsets 0 to 35 of the DIB body, each optionally reversed, plus `bot_top`, are exactly `ParseInfoHeader` |
| BmpReader.ReadPalette | src/bmp.c:171-185 | the outcome is exactly `ParsePalette`; on success the cursor stands at the start of the pixel data |
| BmpReader.Unpack | src/bmp.c:214-225 | the nested loops fill the pixel array with exactly `Unpacked` of the data |
| BmpReader.RowOfUnpacked | src/bmp.c:214-223 | proof step: output row `height - 1 - row` holds source row `row`, its pixels red, green and blue from bytes three apart from the row's start offset; a non-empty row's bytes lie inside the data |
| BmpReader.UnpackRow | src/bmp.c:215-223 | one pass of the inner loop stores the row's `width` pixels at consecutive output indices, red, green and blue from bytes `o+2`, `o+1` and `o`; the rows already stored keep their pixels and the output indices before the row are unchanged |
| BmpReader.ReadPixels | src/bmp.c:187-230 | the outcome is exactly `DecodePixels`; on success the cursor is past the `data_size` bytes |
| BmpReader.ReadHeaders | src/bmp.c:74-185 | the header part of `read_bmp` returns exactly `ParseHeaders` of the file from the cursor; on success the cursor stands at the pixel data |
| BmpReader.ReadBmp | src/bmp.c:38-235 | `read_bmp` returns exactly `Decode` of the file's bytes from the cursor; on success the cursor is past the pixel data |
| BmpFormat.DibBodyLength | src/bmp.c:112-118 | `dib_size - 4` in unsigned 32-bit arithmetic: below 2^32, the plain difference for a size of 4 or more, and the difference plus 2^32 for a size below 4 |
| BmpFormat.ParseDib | src/bmp.c:99-121 | a successful DIB read had a body of at least 36 bytes that lies inside the file |
| BmpFormat.ParsePalette | src/bmp.c:171-185 | the palette stage fails exactly when a palette is read (`n_palette != 0 or bpp <= 8`) and fewer than `data_off - (14 + dib_size)` bytes remain; otherwise it skips those bytes when there is a palette |
| BmpFormat.ParseHeaders | src/bmp.c:74-185 | on success the pixel data starts inside the file |
| BmpFormat.Decode | src/bmp.c:38-235 | a decoded picture holds exactly `width * height` pixels |
| BmpFormat.DecodePixels | src/bmp.c:187-230 | a picture built from the pixel data holds exactly `width * height` pixels |
| BmpFormat.HeadersAtFixedOffsets | src/bmp.c:74-185 | size and data offset come from offsets 2 and 10, each reversed exactly when the file length differs from the native size field; the DIB header is parsed at 14; the pixel data starts after the DIB header and, when a palette is read, after `data_off - (14 + dib_size)` more bytes |
| BmpFormat.DibAtFixedOffsets | src/bmp.c:99-161 | DIB size comes from offset 0; in the body width comes from 0, height from 4, planes from 8, bpp from 10, compression from 12, data size from 16 and palette count from 28, each reversed exactly when the order is foreign |
| BmpFormat.DibStages | src/bmp.c:99-161 | proof step for `ReadDibHeader`: a DIB header whose size field and full body were read parses to the fields extracted from that body |
| BmpFormat.HeadersStages | src/bmp.c:74-185 | proof step for `ReadHeaders`: the header parse fails with the DIB stage's error or the palette stage's error, or succeeds with the three stages' results |
| BmpFormat.TruncatedHeaderFails | src/bmp.c:75-79 | fewer than 14 bytes fail at the header read, and 14 to 17 bytes fail at the DIB size read |
| BmpFormat.DecodedPixels | src/bmp.c:199-230 | on success: the picture carries the DIB's width, height and bpp and `width * height` pixels; output `(height-1-row)*width + col` is red, green and blue from file bytes `o+2`, `o+1` and `o`, where `o` is the pixel's offset; rows are flipped whatever `bot_top` says |
| BmpFormat.UnpackedAt | src/bmp.c:214-223 | source row `row`, column `col` lands at output `(height-1-row)*width + col` as bytes `o+2`, `o+1`, `o` of the data |
| BmpFormat.PixelOffset | src/bmp.c:216-217 | by definition `row * 3 * width + row * pad + col * 3`, the offset of the blue byte the loop copies first |
| BmpFormat.SourcePixel | src/bmp.c:216-220 | by definition the pixel whose red, green and blue are the bytes at `o+2`, `o+1` and `o` |
| BmpFormat.OutputPixel | src/bmp.c:221-223 | by definition output pixel `i` is the source pixel of row `height - 1 - i / width`, column `i % width` |
| BmpFormat.OffsetInBounds | src/bmp.c:216-217 | every byte the unpack loop reads lies below the required data length |
| BmpFormat.RequiredDataBytesTight | src/bmp.c:214-217 | the required data length is exactly one past the last byte the loop reads |
| BmpFormat.NoWrapInUnpack | src/bmp.c:199-223 | when the data is long enough, `width * height` and every byte offset of the loop stay below 2^32 |
| BmpFormat.OutputIndex | src/bmp.c:221-223 | the output index of every source pixel lies inside the `width * height` array |
| BmpFormat.RowOfIndex | src/bmp.c:221-223 | every output index splits into a row below `height` and a column below `width` |
| BmpFormat.SplitIndex | src/bmp.c:221-223 | an output index `q * width + col` gives back its row `q` and column `col` |
| BmpFormat.RowPad | src/bmp.c:206 | the pad is below 4 |
| BmpFormat.RowPad24 | src/bmp.c:206 | for 24 bits per pixel the pad is `3 * width % 4`, even where `width * 24` wraps |
| BmpFormat.AlignedRowHasNoPad | src/bmp.c:206 | the pad is 0 when `3 * width` is a multiple of 4 |
| BmpFormat.StandardPad | src/bmp.c:205-206 | the format's pad is below 4 and makes each row a multiple of 4 bytes |
| BmpFormat.PadMatchesStandardIff | src/bmp.c:205-206 | `read_bmp`'s pad equals the format's pad exactly when `3 * width % 4` is 0 or 2; otherwise its rows are not 4-byte aligned |
| BmpFormat.TopDownNeverDecodes | src/bmp.c:169 | a stored height with the sign bit set clears `bot_top`, and with a non-zero width such a file never decodes |
| BmpFormat.TallRowsExceed32Bits | src/bmp.c:214-217 | 2^31 or more rows of at least one pixel need at least 2^32 bytes of data |
| Framebuffer.Stride | src/main.c:39 | by definition `ll / (bpp / 8)`, the words from one screen line to the next |
| Framebuffer.Position | src/main.c:38-40 | `position` is an unsigned 32-bit index |
| Framebuffer.PositionRowMajor | src/main.c:38-40 | on a screen that fits the buffer, `position(row, col)` is `row * (ll / (bpp / 8)) + col`, lies inside the buffer, and gives back its row and column |
| Framebuffer.PositionNeighbours | src/main.c:38-40 | the next column is the next word, and the next row is one stride further on |
| Framebuffer.GridCell | src/main.c:38-40 | the index of cell (row, col) gives back its line and column |
| Framebuffer.GridUnsplit | src/main.c:38-40 | every index is its line times the stride plus its column, and the column is within the line |
| Framebuffer.GridBound | src/main.c:38-40 | a cell below `lines` lines lies before index `lines * stride` |
| Framebuffer.DrawnRows | src/main.c:59 | the drawn rows are the minimum of the picture height and `yres` |
| Framebuffer.DrawnCols | src/main.c:61 | the drawn columns are the minimum of the picture width and `xres` |
| Framebuffer.LeftMargin | src/main.c:53-54 | the left margin and the drawn columns fit in `xres`; the margin is at most the space right of the picture and at most one column less; a picture at least as wide as the screen has none |
| Framebuffer.TopMargin | src/main.c:55-56 | the top margin and the drawn lines fit in `yres`; the margin is at most the space below the picture and at most one line less; a picture at least as tall as the screen has none |
| Framebuffer.CenterOffset | src/main.c:52-56 | on a screen whose lines hold `xres` words, the offset is the word at line `TopMargin`, column `LeftMargin` |
| Framebuffer.Packed | src/main.c:62-67 | red, green and blue come back out of their bytes of the packed word, and its top byte is 0 |
| Framebuffer.PackedValue | src/main.c:62-67 | the packed word is R * 65536 + G * 256 + B |
| Framebuffer.OrRed | src/main.c:63 | by definition `w \| ((R << 16) & 0xFF0000)` |
| Framebuffer.OrGreen | src/main.c:65 | by definition `w \| ((G << 8) & 0xFF00)` |
| Framebuffer.OrBlue | src/main.c:67 | by definition `w \| (B & 0xFF)` |
| Framebuffer.PixelWord | src/main.c:62-67 | by definition the packed word of bytes `3*col`, `3*col+1` and `3*col+2` of picture line `row` |
| Framebuffer.OrsIntoClearedWord | src/main.c:62-67 | the three masked ORs into a cleared word give exactly `(R<<16) \| (G<<8) \| B` |
| Framebuffer.OrPixel | src/main.c:62-67 | the three `\|=` statements change only word `t` |
| Framebuffer.TargetInBuffer | src/main.c:53-63 | a drawn pixel's target, `position(row, col)` plus the centring offset, lies inside the buffer |
| Framebuffer.DrawStep | src/main.c:61-68 | writing one pixel changes only its target word, which was 0 and now holds the pixel |
| Framebuffer.FrameAt | src/main.c:59-70 | after `draw`, the word at each drawn pixel's centred position holds that pixel's `0xRRGGBB` |
| Framebuffer.FrameBlankElsewhere | src/main.c:50-70 | after `draw`, every word is 0 unless it is the target of a drawn pixel in the clipped rectangle, which it then holds |
| Framebuffer.NothingDrawnYet | src/main.c:50 | the cleared back buffer is the frame with no pixel drawn |
| Framebuffer.NextLine | src/main.c:59-61 | finishing one picture line is starting the next |
| Framebuffer.DrawLine | src/main.c:61-69 | one pass of the inner loop writes all drawn pixels of line `row` into their words |
| Framebuffer.Frame | src/main.c:50-70 | the frame has one word per buffer word, and every word before the centring offset is 0 |
| Framebuffer.Draw | src/main.c:43-73 | the back buffer ends as exactly `Frame` (cleared, centred, clipped, packed), and the screen buffer equals the back buffer |
| Slideshow.IsQuitKey | src/main.c:263-264 | by definition `q` and `Q`, the keys that leave the loop |
| Slideshow.Navigate | src/main.c:262-284 | `q` and `Q` quit and no other key does; every other key keeps the index in `[0, slide_count)`; the next index is the same one, one step either way, 0 or `slide_count - 1` |
| Slideshow.ForwardPresses | src/main.c:274-277 | pressing `l` or `k` `m` times moves `m` slides on, stopping at the last |
| Slideshow.BackwardPresses | src/main.c:266-269 | pressing `h` or `j` `m` times moves `m` slides back, stopping at the first |
| Slideshow.EverySlideReachable | src/main.c:274-277 | every slide can be reached from the first with the forward key |
| Slideshow.BackUndoesForward | src/main.c:266-277 | one step forward and one back returns to the same slide, unless it was the last |
| Slideshow.JumpsIgnoreCurrent | src/main.c:270-281 | `H` and `J` go to slide 0 and `K` and `L` to slide `slide_count - 1`, whatever the current slide is |
| Slideshow.OtherKeysKeepSlide | src/main.c:282-283 | a key none of the cases names keeps the current slide |
| Slideshow.Run | src/main.c:254-285 | the loop starts on slide 0; consecutive slides are related by the `switch`; it ends on a quit key or when the keys run out; with at least one slide every shown index is in range |

## Left out

- PNG loading through libpng is not modelled. The pictures `draw` receives
  are a parameter: rows of R, G, B bytes.
- Framebuffer device I/O is not modelled: `open`, `ioctl`, `mmap`, `munmap`
  and `close`. `fb` and `fb_buf` are two distinct arrays of 32-bit words, one
  word per 4 bytes of `smem_len`. A `smem_len` that is not a multiple of 4 is
  not modelled.
- The screen description the driver returns is a parameter (`Screen`).
- ncurses setup, `getch` and `printw` are not modelled. The keys are a
  finite sequence of key codes, which stands in for the endless loop.
- File names, opening files and error messages are not modelled.
- Allocation failures are not modelled: every `calloc` succeeds.
- The free and cleanup paths are not modelled.
- The commented-out test `main` of src/bmp.c is dead code and not modelled.
- The palette's buffer is not modelled. `read_bmp` allocates it with
  `calloc(palette_bytes / 4, sizeof(struct pixel))` and then reads
  `palette_bytes` bytes into it (src/bmp.c:175-180). That overruns the
  buffer unless `sizeof(struct pixel)` is at least 4 and `palette_bytes` is
  a multiple of 4. `struct pixel` is not part of this model. Only the read
  is modelled: it consumes `palette_bytes` bytes of the file or fails.
- The host byte order is fixed as little-endian. A host of the other byte
  order is not modelled.
- BmpReader.ReadDibHeader: a DIB body shorter than the 36 bytes the field
  copies read fails with `DibTooShort`. The C code would read past its
  buffer.
- BmpReader.ReadPixels: pixel data shorter than the last byte the unpack
  loop reads fails with `PixelDataTooShort`. The C code would read past its
  buffer. The check is exact (`RequiredDataBytesTight`).
- BmpReader.FileDescriptor.Read: `read` on a regular file returns as many
  bytes as remain, up to the count asked for. Linux caps a single `read` at
  0x7ffff000 bytes, and the model does not; for a larger `data_size` or
  palette, the C code would see a short read and fail where the model
  succeeds. Interrupted and partial reads, and I/O errors, are not modelled.
- `struct image` stores width, height and bpp as `int`. The model
  keeps them as the unsigned values the reader extracted.
- Framebuffer.Draw requires that the screen fits its buffer (`Fits`).
  The buffer is `smem_len / 4` words, and `yres` lines of
  `ll / (bpp / 8)` words must fit in it. Each line must also hold `xres`
  words, and `bpp` must be at least 8.
  - This excludes 16-bit screens whose virtual height is under twice
    `yres`, and 24-bit screens whose virtual height is under 4/3 of `yres`.
    On those, the C code writes past `fb_buf` only for pictures that reach
    far enough down.
  - When `xres` exceeds the stride, the C code wraps the rest of a line
    onto the next one. The model does not cover such screens.
  - When `bpp < 8`, the C code divides by zero.
- Framebuffer.Draw requires that every drawn line holds three bytes per
  drawn column (`RowsCover`). The C code reads past a row otherwise.
- Framebuffer.Position: the index is taken modulo 2^32. In `Draw` it never
  wraps, because the screen fits a buffer addressable with 32-bit indices.
- Slideshow.Run: the slide index is an unbounded integer. `slide_count` is
  not restricted. The range property is stated for `slide_count >= 1`.
