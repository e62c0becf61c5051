# ZRLE decoding and the SDL client of rust-vnc, in Dafny

This project models two parts of the rust-vnc VNC client library and its SDL viewer:

- **The ZRLE decoder** (`src/zrle.rs`). It takes the zlib stream of one rectangle
  and cuts the rectangle into 64 x 64 tiles. It reads each tile with a bit reader, handles the
  five tile sub-encodings (raw, solid, packed palette, plain RLE and palette RLE) and hands
  each decoded tile to a consumer callback. At the end it checks that no bit or byte of the
  rectangle's data is left over. The decoder keeps its zlib inflater between rectangles.
  - `BitReading` models the `BitReader`. It defines the reads as functions on reader states
    and implements them as a class whose methods are proved to agree with those functions.
  - `ZrleTiles` models the tile grid.
  - `ZrleSpec` describes a tile's decoding as functions.
  - `ZrleDecode` describes the walk over a rectangle's tiles and what happens to the inflater.
  - `Zrle` is the decoder as imperative code: a `Decoder` class and its `decode` loops,
    proved to compute what `ZrleSpec` and `ZrleDecode` describe.
  - `ZrleProperties` proves what the decoder does in terms of the ZRLE encoding of
    RFC 6143 (section 7.7.6), including where the code as written departs from it.
- **The helpers of the SDL client** (`bin/client.rs`):
  - `PixelFormats`: the table that pairs SDL texture formats with RFB pixel formats, and the
    lookups across it.
  - `Keys`: the translation of SDL key codes into X11 keysyms.
  - `Input`: the pointer, button, wheel, key and text-input logic. It is a class holding the
    button mask, the pointer position and the Control state.
  - `Cursor`: the expansion of a cursor's mask bitmap, and `mask_cursor`, which gives the
    cursor's pixels an alpha channel.

Shared types live in `Protocol`: bytes, the fixed-width integers, the RFB pixel format,
rectangles and errors. A Rust panic in a debug build is modelled as an error value
`Panic(reason)`. The reasons are:

- an `unwrap` of nothing;
- a shift by the operand's full width;
- a slice or index out of range;
- an integer sum or product past the largest value of its type;
- a pixel format with no alpha counterpart;
- a value too wide for the bytes it is written to.

The decoder is modelled as the code is written, including the places where it departs from
RFC 6143:

- **CPIXEL width outside 32-bit true colour.** The decoder takes `bits_per_pixel / 4` bytes,
  where the RFC says `bits_per_pixel / 8`.
- **Padded CPIXEL.** It is read with the slice `entry[1..3]`, which is two bytes, not three.
- **Palette indices.** Packed and RLE palette indices are not checked against the palette
  size. An index that is too large panics.
- **Overshooting runs.** A run may go past the end of its tile, and the decoder emits the
  extra pixels.
- **Early return.** A decode that returns before the end leaves the decoder without its
  inflater. The next decode then panics.
- **Depth 32.** A 32-bit true-colour format of depth 32 is outside the 3-byte case, so its
  CPIXEL is taken to be `32 / 4 = 8` bytes. The slice `entry[0..8]` of the 4-byte entry is out
  of range, so every tile of such a format panics. The RFC reads 4 bytes.

The keysym of the caret key is `XK_caret` (0xafc), as the client writes it, not
`XK_asciicircum` (0x5e).

`mask_cursor` copies colour channels bit for bit and does not rescale them. A channel wider
than the one it is written to loses its high bits. A 6-bit green of RGB565 written as the 5-bit
green of ARGB1555 is one case: green 32, its top bit, is written as 0 (`Cursor.GreenTopBitLost`).

## Model

| member | source | states |
|---|---|---|
| BitReading.Mask | src/zrle.rs:75 | the mask for a `count`-bit read selects exactly the low `count` bits, 8 included |
| BitReading.MaskAsWritten | src/zrle.rs:75 | `(1 << count) - 1` in 8 bits succeeds exactly for `count < 8` and then equals the full mask |
| BitReading.WholeByteRead | src/zrle.rs:65-83 | an 8-bit read overflows the as-written mask, while the full-width mask reads the next byte whole |
| BitReading.Field | src/zrle.rs:74-76 | `(buffer >> shift) & mask` holds exactly the `count` bits following the first `position` bits, most significant first |
| BitReading.Refill | src/zrle.rs:68-71 | a new byte is fetched exactly when the current one is used up; EOF exactly when none is left |
| BitReading.ReadBitsFrom | src/zrle.rs:65-83 | `read_bits` as written: EOF exactly when a byte is needed and none is left; an unaligned-read error exactly when the bits would straddle a byte; a shift overflow exactly for an 8-bit read that does not straddle; otherwise the value is the next `count` bits |
| BitReading.ReadBitsWide | src/zrle.rs:65-83 | `read_bits` with the full-width mask: the same as written below 8 bits; fails exactly where the as-written read fails for a reason other than the mask; the value is the next `count` bits |
| BitReading.ReadBitFrom | src/zrle.rs:85-87 | `read_bit` succeeds exactly when a 1-bit read does, fails with its error, and returns the bit just passed |
| BitReading.ReadExactFrom | src/zrle.rs:94-103 | whole bytes are read only on a byte boundary, and they are exactly the next `n` bytes of the stream; EOF exactly when fewer remain |
| BitReading.ReadU8From | src/zrle.rs:94-103 | one byte succeeds exactly on a byte boundary with data left, and takes the next byte |
| BitReading.AlignFrom | src/zrle.rs:89-91 | after `align` the reader is on a byte boundary, and no stream byte is skipped |
| BitReading.IntoInnerFrom | src/zrle.rs:57-63 | the wrapped reader comes back exactly when no bit is left unread; otherwise the error is leftover bit data |
| BitReading.ByteReadsNeedAlignment | src/zrle.rs:94-103 | a byte read succeeds only on a byte boundary; after `align` it succeeds exactly when enough bytes remain |
| BitReading.ReadBitOfByte | src/zrle.rs:85-87 | `read_bit` after `j` bits of a byte returns bit `j` and advances one bit |
| BitReading.SingleBitsSpellTheByte | src/zrle.rs:85-87 | `k` single-bit reads from a byte boundary return the first `k` bits of the next byte, in order |
| BitReading.ReadBitsN | src/zrle.rs:85-87 | `k` successful bit reads yield `k` bits and a valid state |
| BitReading.BitReader.constructor | src/zrle.rs:53-55 | a new reader has no partly read byte |
| BitReading.BitReader.ReadBits | src/zrle.rs:65-83 | the in-place read, with the mask as written, returns and leaves what `ReadBitsFrom` describes |
| BitReading.BitReader.ReadBit | src/zrle.rs:85-87 | the in-place bit read agrees with `ReadBitFrom` |
| BitReading.BitReader.Align | src/zrle.rs:89-91 | the in-place `align` agrees with `AlignFrom` |
| BitReading.BitReader.ReadExact | src/zrle.rs:94-103 | the in-place `read_exact` agrees with `ReadExactFrom` |
| BitReading.BitReader.ReadU8 | src/zrle.rs:94-103 | the in-place `read_u8` agrees with `ReadU8From` |
| BitReading.BitReader.IntoInner | src/zrle.rs:57-63 | the bytes not yet delivered come back exactly when the position is 8; otherwise leftover bit data |
| ZrleSpec.ChannelMask | src/zrle.rs:134-137 | one channel's `max << shift` fails exactly when the shift is 32 or more |
| ZrleSpec.PixelMask | src/zrle.rs:134-137 | the pixel mask fails exactly when some channel shift is 32 or more |
| ZrleSpec.CompressedPixel | src/zrle.rs:133-149 | pixel width is `bpp / 8`. Outside the 32-bit true-colour, depth <= 24 case, CPIXELs are `bpp / 4` bytes and unpadded. Inside it, 3 bytes if the low or the high byte of the mask is free, else 4. Padding per the byte order as the code decides it |
| ZrleSpec.ReadPixel | src/zrle.rs:117-121 | panics exactly when the slice `start..cbpp` is out of range; otherwise a 4-byte entry whose slice is the next stream bytes and whose other bytes are zero |
| ZrleSpec.PixelBytes | src/zrle.rs:173 | `pixel[0..bpp]` succeeds exactly for `bpp <= 4` and is the entry's first `bpp` bytes |
| ZrleSpec.PaletteColour | src/zrle.rs:189 | an index past the palette panics; a colour found is the first `bpp` bytes of that entry |
| ZrleSpec.Repeat | src/zrle.rs:199-201 | `n` copies of a pixel are `n` times its length |
| ZrleSpec.RunLengthFrom | src/zrle.rs:126-129 | the run length never decreases, consumes at least one byte from the front of the stream, and can only fail by EOF or misalignment |
| ZrleSpec.ReadRunLength | src/zrle.rs:123-131 | a run length is at least 1; from a byte boundary it fails only by EOF |
| ZrleSpec.ReadPalette | src/zrle.rs:163-166 | a palette read yields exactly `size` whole 4-byte entries and never misreads from a byte boundary |
| ZrleSpec.RawPixels | src/zrle.rs:170-175 | a raw tile yields `bpp` bytes per pixel and never misreads from a byte boundary |
| ZrleSpec.SolidPixels | src/zrle.rs:176-180 | a solid tile yields `bpp` bytes per pixel; a nonempty one succeeds exactly when `bpp <= 4` |
| ZrleSpec.BitsPerIndex | src/zrle.rs:182-185 | 1, 2 or 4 bits per index, enough to name every colour of the palette |
| ZrleSpec.PackedRow | src/zrle.rs:187-190 | a row of packed indices yields `bpp` bytes per pixel; reads never straddle a byte when aligned to the index width |
| ZrleSpec.PackedRows | src/zrle.rs:186-192 | each row is re-aligned, so a packed tile from a byte boundary ends on one and never misreads |
| ZrleSpec.RawRun | src/zrle.rs:197-198 | a plain-RLE run is a whole entry and a length of at least 1, and keeps byte alignment |
| ZrleSpec.PaletteRun | src/zrle.rs:208-215 | a palette-RLE run is a whole entry and a length of at least 1, and keeps byte alignment |
| ZrleSpec.RawRuns | src/zrle.rs:197-198 | plain-RLE runs are read as the run reader of the RLE loop expects |
| ZrleSpec.PaletteRuns | src/zrle.rs:208-217 | palette-RLE runs are read as the run reader of the RLE loop expects |
| ZrleSpec.RawRle | src/zrle.rs:194-204 | a plain-RLE tile keeps the reader valid; from a byte boundary it ends on one and never misreads; it never reports a bad sub-encoding |
| ZrleSpec.PaletteRle | src/zrle.rs:205-221 | a palette-RLE tile keeps the reader valid; from a byte boundary it ends on one and never misreads; it never reports a bad sub-encoding |
| ZrleSpec.Rle | src/zrle.rs:194-221 | the RLE loop keeps the reader valid and aligned and never misreads from a byte boundary |
| ZrleSpec.RleAfter | src/zrle.rs:196-203 | a run's error ends the loop with that error; a run read keeps alignment |
| ZrleSpec.RleStep | src/zrle.rs:196-203 | while pixels are missing, one run emits `length` copies of its first `bpp` bytes and the loop goes on |
| ZrleSpec.RleFails | src/zrle.rs:196-203 | a run that cannot be read or sliced ends the loop with that error |
| ZrleSpec.ReadHeader | src/zrle.rs:160-161 | from a byte boundary the header succeeds exactly when a byte remains: the RLE flag is its top bit and the palette size its low 7 bits |
| ZrleSpec.DecodeTile | src/zrle.rs:160-223 | a tile keeps the reader valid, and from a byte boundary ends on one and never misreads |
| ZrleSpec.DecodeTileReads | src/zrle.rs:160-223 | once the header and palette are read, the tile is the pixels of the sub-encoding they name |
| ZrleSpec.DecodeTileFails | src/zrle.rs:160-166 | a header or palette that cannot be read fails the tile with that error |
| ZrleSpec.TilePixels | src/zrle.rs:169-223 | the sub-encoding keeps the reader valid and aligned |
| ZrleTiles.TileWidth | src/zrle.rs:158 | a tile is 1 to 64 pixels wide and ends inside the row; one narrower than 64 ends exactly at the row's end |
| ZrleTiles.TileHeight | src/zrle.rs:155 | a band is 1 to 64 pixels high and ends inside the rectangle; one lower than 64 ends exactly at the bottom |
| ZrleTiles.RowTiles | src/zrle.rs:157-232 | a band from column `x` has one tile per 64-pixel stretch of the rest of the row |
| ZrleTiles.TilesFrom | src/zrle.rs:154-234 | the bands from row `y` hold no tile exactly when no row or no column is left |
| ZrleTiles.Tiles | src/zrle.rs:153-234 | a rectangle has no tile exactly when it is empty |
| ZrleTiles.TilesFromCount | src/zrle.rs:154-234 | the bands from row `y` hold a row of tiles per 64-pixel stretch of the remaining height |
| ZrleTiles.TileCount | src/zrle.rs:153-234 | a rectangle has as many tiles as it takes 64 x 64 tiles to cover it |
| ZrleTiles.RowTilesShape | src/zrle.rs:157-232 | the tiles of a band lie inside the rectangle on the 64-pixel grid, left to right |
| ZrleTiles.TilesFromShape | src/zrle.rs:153-234 | the tiles of the bands from `y` down lie on the grid, in raster order |
| ZrleTiles.TilesShape | src/zrle.rs:153-234 | every tile lies inside the rectangle on the 64-pixel grid and is 64 wide and high or what remains; the tiles come in raster order |
| ZrleTiles.RowTilesCover | src/zrle.rs:157-232 | each pixel of a band lies in exactly one of its tiles |
| ZrleTiles.TilesFromCover | src/zrle.rs:153-234 | each pixel below `y` lies in exactly one tile |
| ZrleTiles.TilesCover | src/zrle.rs:153-234 | each pixel of the rectangle lies in exactly one tile, and no pixel outside it lies in any |
| ZrleTiles.NextBand | src/zrle.rs:154-155 | a band starting inside the rectangle is its row of tiles followed by the bands below |
| ZrleTiles.NextTile | src/zrle.rs:157-158 | the next tile of a band is at column `x`, as wide as `TileWidth`, and the walk goes on at `x + width` |
| ZrleTiles.BandDone | src/zrle.rs:157 | a band walked to its right edge leaves the bands below it |
| ZrleDecode.ZrleTile | src/zrle.rs:160-223 | the ZRLE tile decoder keeps states valid, and aligned ones aligned |
| ZrleDecode.DecodeTiles | src/zrle.rs:153-234 | a walk that finishes leaves a valid state, aligned when it started aligned |
| ZrleDecode.WalkShape | src/zrle.rs:153-234 | the walk hands over tiles for a prefix of the rectangles, in order, each accepted except possibly the last. It finishes only after all, stops only on a `false`, and an unaligned read from a byte boundary can only come from the consumer |
| ZrleDecode.WalkTileFails | src/zrle.rs:160-223 | a tile that does not decode ends the walk with its error |
| ZrleDecode.WalkTileHanded | src/zrle.rs:225-229 | a decoded tile is handed to the consumer; its error or `false` ends the walk, `true` goes on with the next rectangle |
| ZrleDecode.ZlibIntoInner | src/zrle.rs:17-23 | the inflater comes back exactly when no data is left; otherwise leftover byte data |
| ZrleDecode.Decode | src/zrle.rs:114-238 | a bad pixel format fails before anything is read and leaves the inflater in place; without an inflater the decode panics; past the format check the inflater is kept exactly on success, fed with the input |
| ZrleDecode.Conclude | src/zrle.rs:227-237 | the inflater is kept exactly on success. Success means the walk finished with no bits and no bytes left; `false` comes only from the consumer; a failure reports its error |
| ZrleDecode.WalkSuccess | src/zrle.rs:153-237 | a successful walk handed over one accepted tile per rectangle, in order |
| ZrleDecode.WalkAligned | src/zrle.rs:153-237 | a finished walk from a byte boundary either succeeds or has bytes left over; an unaligned-read error is the consumer's own |
| ZrleDecode.SuccessHandsEveryTile | src/zrle.rs:114-238 | a successful decode had an inflater, keeps it fed with the input, and handed over every tile of the rectangle, in order, each accepted |
| ZrleDecode.SuccessCoversEachPixel | src/zrle.rs:114-238 | every pixel of the rectangle lies in a tile a successful decode handed over |
| ZrleDecode.ContainingTileExists | src/zrle.rs:153-234 | a pixel that some tile contains has a tile containing it |
| ZrleDecode.DecompressorKeptOnlyOnSuccess | src/zrle.rs:151 | the decoder has its inflater afterwards exactly when the decode succeeded or stopped at the pixel-format check with one |
| ZrleDecode.LostDecompressorPanics | src/zrle.rs:151 | after a decode that did not succeed, the next one panics once past the pixel-format check |
| ZrleDecode.NeverMisaligned | src/zrle.rs:114-238 | the decoder never reads across a byte boundary by itself; a finished walk either succeeds or has data left over |
| ZrleDecode.LeftoverDataRejected | src/zrle.rs:236 | after all tiles are accepted, the decode succeeds exactly when the data is used up, and otherwise fails with leftover data |
| Zrle.ReadPixel | src/zrle.rs:117-121 | the in-place `read_pixel` returns and leaves what `ZrleSpec.ReadPixel` describes |
| Zrle.ReadRunLength | src/zrle.rs:123-131 | the `while` loop of `read_run_length` agrees with `ZrleSpec.ReadRunLength` |
| Zrle.ReadPalette | src/zrle.rs:163-166 | the palette loop agrees with `ZrleSpec.ReadPalette` |
| Zrle.RawPixels | src/zrle.rs:170-175 | the raw-pixel loop agrees with `ZrleSpec.RawPixels` |
| Zrle.SolidPixels | src/zrle.rs:176-180 | the fill loop agrees with `ZrleSpec.SolidPixels` |
| Zrle.PackedRows | src/zrle.rs:181-193 | the nested packed-index loops agree with `ZrleSpec.PackedRows` |
| Zrle.EmitRun | src/zrle.rs:199-201 | a run appends `n` copies of the entry's first `bpp` bytes, or panics exactly when `bpp > 4` |
| Zrle.RawRun | src/zrle.rs:197-198 | reading a CPIXEL and its run length agrees with `ZrleSpec.RawRun` |
| Zrle.PaletteRun | src/zrle.rs:208-217 | the flag, the index and the optional length agree with `ZrleSpec.PaletteRun` |
| Zrle.RawRleRun | src/zrle.rs:196-203 | one iteration of the plain-RLE loop advances the count and leaves the rest of the loop's outcome unchanged |
| Zrle.RawRle | src/zrle.rs:194-204 | the plain-RLE loop agrees with `ZrleSpec.RawRle` |
| Zrle.PaletteRleRun | src/zrle.rs:207-220 | one iteration of the palette-RLE loop advances the count and leaves the rest of the loop's outcome unchanged |
| Zrle.PaletteRle | src/zrle.rs:205-221 | the palette-RLE loop agrees with `ZrleSpec.PaletteRle` |
| Zrle.DecodeTile | src/zrle.rs:160-223 | one tile, decoded in place, agrees with `ZrleSpec.DecodeTile` |
| Zrle.TilePixels | src/zrle.rs:168-223 | the `match` on the sub-encoding agrees with `ZrleSpec.TilePixels` |
| Zrle.WalkTile | src/zrle.rs:160-223 | a tile of the walk is decoded as the walk's tile decoder says |
| Zrle.DecodeBand | src/zrle.rs:155-232 | the `while x` loop over a band follows the walk: its error, its stop, or the walk over the bands below |
| Zrle.DecodeRect | src/zrle.rs:153-234 | the `while y` loop hands over the tiles and ends as `ZrleDecode.DecodeTiles` describes |
| Zrle.Decoder.constructor | src/zrle.rs:110-112 | a new decoder holds a fresh inflater |
| Zrle.Decoder.Decode | src/zrle.rs:114-238 | result, tiles handed over and the inflater left in the decoder are those of `ZrleDecode.Decode` |
| ZrleProperties.RunLengthBytes | src/zrle.rs:123-131 | a run length consumes bytes of 255 followed by one that is not, and equals one plus their sum |
| ZrleProperties.RunLengthRunsOut | src/zrle.rs:123-131 | from a byte boundary a run length fails only if the data ends before a byte other than 255 |
| ZrleProperties.RunLengthAtLeastOne | src/zrle.rs:125 | every run is at least one pixel long |
| ZrleProperties.PackedRowsLength | src/zrle.rs:186-192 | a packed tile yields `bpp` bytes for each of its `w * h` pixels |
| ZrleProperties.RleLength | src/zrle.rs:194-221 | an RLE tile yields whole pixels, at least as many as were missing |
| ZrleProperties.TileLength | src/zrle.rs:169-221 | raw, solid and packed tiles yield exactly `width * height` pixels; RLE tiles at least that many |
| ZrleProperties.BadSubencodingExactly | src/zrle.rs:169-222 | a tile fails with a bad sub-encoding exactly when its header names none |
| ZrleProperties.RawPixelsStep | src/zrle.rs:171-174 | one raw pixel with full-width unpadded CPIXELs takes the next `bpp` stream bytes |
| ZrleProperties.RawPixelsCopyTheStream | src/zrle.rs:170-175 | with full-width unpadded CPIXELs a raw tile is the next `n * bpp` stream bytes |
| ZrleProperties.RawPixelsRunOut | src/zrle.rs:170-175 | a raw tile with too few stream bytes fails with EOF |
| ZrleProperties.SolidTile | src/zrle.rs:176-180 | a solid tile is its one palette CPIXEL repeated over the tile |
| ZrleProperties.RleRunOvershoots | src/zrle.rs:196-203 | a 1 x 1 tile whose only run is 4 long yields four pixels, and is accepted |
| ZrleProperties.PaletteIndexUnchecked | src/zrle.rs:188-189 | a packed index of 3 into a three-colour palette panics instead of reporting an error |
| ZrleProperties.PaddedPixelReadsTwoBytes | src/zrle.rs:119 | a padded 3-byte CPIXEL is read as two stream bytes |
| ZrleProperties.CompressedPixelDoubleWidth | src/zrle.rs:147-148 | outside the 32-bit true-colour case a CPIXEL is taken to be twice as wide as a pixel |
| ZrleProperties.CompressedPixelDepth24 | src/zrle.rs:138-149 | the common depth-24 layouts get 3-byte CPIXELs, padded in front when the colour is in the top three bytes of a little-endian pixel; depth 32 falls outside that case and gets 8-byte CPIXELs |
| ZrleProperties.Depth32PixelPanics | src/zrle.rs:117-121 | a 32-bit format of depth 32 gets 8-byte CPIXELs, and every CPIXEL read then panics on the slice |
| PixelFormats.FormatMapAsWritten | bin/client.rs:12-99 | the table as written has five entries |
| PixelFormats.FormatMap | bin/client.rs:12-99 | the corrected table has five entries |
| PixelFormats.VncToSdl | bin/client.rs:101-108 | none exactly when no entry has the RFB format; otherwise the SDL format of the first entry that has it |
| PixelFormats.SdlToVnc | bin/client.rs:110-117 | none exactly when no entry has the SDL format; otherwise the RFB format of the first entry that has it |
| PixelFormats.LookupsInverse | bin/client.rs:101-117 | on a table without repeats the two lookups are inverse, both ways round |
| PixelFormats.TablesDistinct | bin/client.rs:12-99 | both tables repeat neither an SDL nor an RFB format |
| PixelFormats.EveryEntryFound | bin/client.rs:12-117 | every entry of the table, as written or corrected, is found by both lookups |
| PixelFormats.FallbackFound | bin/client.rs:310-323 | the fallback RGB888 is in the table, as written or corrected, so the client's `unwrap` succeeds, and its RFB format leads back to it |
| PixelFormats.CorrectedMaxima | bin/client.rs:12-99 | every corrected maximum is of the form 2^n - 1 and fits, shifted, within the depth |
| PixelFormats.MaximaAsWritten | bin/client.rs:37-97 | the 16- and 8-bit entries as written have maxima not of the form 2^n - 1 |
| PixelFormats.Rgb565Recognised | bin/client.rs:101-108 | a server offering 5-6-5 with maxima 31, 63, 31 is not recognised by the table as written and is by the corrected one |
| PixelFormats.CursorFormat | bin/client.rs:126-135 | the cursor format is one of the five alpha formats; it panics exactly for a format with alpha or one the rule does not name |
| PixelFormats.CursorFormatOfTable | bin/client.rs:126-135 | every format of the table, as written or corrected, has a cursor format, and the red-first ones keep red first |
| PixelFormats.FoundFormatHasCursorFormat | bin/client.rs:126-135 | a format the lookup finds in either table has a cursor format |
| Keys.PrintableKeysym | bin/client.rs:688-755 | the printable table sends ASCII keysyms 0x20 to 0x7e or the caret 0xafc, and nothing for a key it does not name |
| Keys.SpecialKeysym | bin/client.rs:760-831 | the special table sends keysyms of the 0xff00 page, and nothing for a key it does not name |
| Keys.MapSpecialKey | bin/client.rs:684-837 | never keysym 0. None exactly when neither table applies. With Control a printable key sends its printable keysym; otherwise a key sends its special keysym |
| Keys.TablesDisjoint | bin/client.rs:688-831 | no key is in both tables; a printable key sends nothing without Control, and a special key sends the same with or without it |
| Keys.KeysymRanges | bin/client.rs:688-831 | printable keysyms are ASCII 0x20 to 0x7e except caret (0xafc); special keysyms are in 0xff00 to 0xffff |
| Keys.PrintableInvertible | bin/client.rs:688-755 | the printable table is injective: a keysym it sends names its key back |
| Keys.SpecialInvertible | bin/client.rs:760-831 | the special table is injective: a keysym it sends names its key back |
| Keys.MapSpecialKeyInjective | bin/client.rs:684-837 | no two keys send the same keysym, with or without Control |
| Input.ButtonBit | bin/client.rs:626-633 | each button has at most one bit, never a wheel bit (3 or 4); only the unknown button has none |
| Input.ButtonBitsDistinct | bin/client.rs:626-633 | different buttons have disjoint bits |
| Input.Press | bin/client.rs:634-638 | a press sets its bit, a release clears it, and no other bit changes |
| Input.PressThenRelease | bin/client.rs:634-638 | press then release of a button that was up restores the mask |
| Input.Truncate16 | bin/client.rs:610-611 | `as u16` keeps a coordinate in range and is congruent to it modulo 2^16 |
| Input.UnicodeKeysym | bin/client.rs:605 | a character's keysym is at least 0x01000000 |
| Input.UnicodeKeysymInverse | bin/client.rs:600-606 | a Unicode keysym names its character back and is never sent by a key of the tables |
| Input.TextInput | bin/client.rs:604-608 | panics exactly for empty text; otherwise a press and then a release of the first character's keysym |
| Input.InputState.constructor | bin/client.rs:360-363 | the state starts with no button, position 0 and Control up |
| Input.InputState.Key | bin/client.rs:586-603 | a Control key records its state first; the key is sent with the keysym `MapSpecialKey` gives for the new state, or nothing is sent; the pointer is untouched |
| Input.InputState.Motion | bin/client.rs:609-616 | the position becomes the truncated coordinates and is sent with the held buttons, unless `qemu_hacks` |
| Input.InputState.Button | bin/client.rs:617-641 | the position is recorded; the button's bit is set on press and cleared on release, with every other bit unchanged; the new mask is sent |
| Input.WheelBit | bin/client.rs:642-654 | a step up (`y == 1`) sets bit 3 and a step down bit 4, neither of them a button's bit |
| Input.InputState.Wheel | bin/client.rs:642-654 | a step of +1 or -1 sends the mask with the wheel's bit, then the mask as held; any other value sends nothing; the state is unchanged |
| Input.WheelIsClick | bin/client.rs:642-654 | the wheel's press sets exactly its bit, which no button owns, and its release restores the mask |
| Cursor.MaskBit | bin/client.rs:491 | `b & (1 << (7 - w))` is nonzero exactly when bit `7 - w` of `b` is set |
| Cursor.ExpandsStep | bin/client.rs:488-493 | eight mask bytes of the next bitmap byte extend the expansion by that byte |
| Cursor.ExpandedMask | bin/client.rs:484-494 | as written: succeeds exactly when `width + 7` and every byte index fit in `u16` and the bitmap is long enough, with 8 mask bytes per bitmap byte; an index out of bounds exactly when the bitmap runs out first; otherwise a `u16` overflow |
| Cursor.ExpandMask | bin/client.rs:484-494 | the nested loops as written, with `u16` stride and index arithmetic, compute `ExpandedMask` |
| Cursor.ExpandByte | bin/client.rs:490-492 | the eight mask bytes of a bitmap byte, leftmost pixel first |
| Cursor.ExpandedMaskEntries | bin/client.rs:484-494 | a successful expansion as written has 8 bytes per bitmap byte, each nonzero exactly when its bit is set |
| Cursor.RowMask | bin/client.rs:484-494 | the corrected expansion succeeds exactly when the bitmap holds `height` rows of `(width + 7) / 8` bytes, gives one mask byte per pixel, and otherwise panics with an index out of bounds |
| Cursor.RowBits | bin/client.rs:484-494 | a corrected row has one mask byte per pixel |
| Cursor.RowsBefore | bin/client.rs:484-494 | `y` corrected rows have `y * width` mask bytes |
| Cursor.ExpandMaskRows | bin/client.rs:484-494 | the corrected loops compute `RowMask` |
| Cursor.ExpandRow | bin/client.rs:488-493 | the corrected row loop computes `RowBits` |
| Cursor.RowsPrefix | bin/client.rs:487 | the first `y` rows are a prefix of the first `h` |
| Cursor.RowMaskEntries | bin/client.rs:484-494 | the corrected expansion has one byte per pixel, nonzero exactly when the pixel's bit is set |
| Cursor.LastRowEntry | bin/client.rs:487-493 | pixel `x` of row `y` is its bit of byte `x / 8` of the row |
| Cursor.MaskRowsDrift | bin/client.rs:484-494 | a 1 x 2 cursor with both pixels opaque: as written the second pixel's mask byte is 0; the corrected one is opaque |
| Cursor.ReadPacked | bin/client.rs:148 | no bytes read as 0 |
| Cursor.WritePacked | bin/client.rs:170-172 | a value written in `size` bytes takes `size` bytes |
| Cursor.ReadFirstByte | bin/client.rs:148 | a written value read back starts with its low byte, followed by the rest shifted up a byte |
| Cursor.ReadBack1 | bin/client.rs:148 | written in 1 byte and read back, a value keeps its low byte |
| Cursor.ReadBack2 | bin/client.rs:148 | written in 2 bytes and read back, a value keeps its low 2 bytes |
| Cursor.ReadBack3 | bin/client.rs:148 | written in 3 bytes and read back, a value keeps its low 3 bytes |
| Cursor.ReadBack4 | bin/client.rs:148 | written in 4 bytes and read back, a value is unchanged |
| Cursor.FitsRoundTrip | bin/client.rs:170-172 | for 1 to 4 bytes, a value fits exactly when writing it and reading it back gives it unchanged |
| Cursor.FitsThreeBytes | bin/client.rs:170-172 | a value fits in 3 bytes exactly when it survives 3 bytes written and read back |
| Cursor.FitsTwoBytes | bin/client.rs:170-172 | a value fits in 2 bytes exactly when it survives 2 bytes written and read back |
| Cursor.FitsOneByte | bin/client.rs:170-172 | a value fits in 1 byte exactly when it survives 1 byte written and read back |
| Cursor.Extract | bin/client.rs:150-152 | a pixel with none of the channel's bits set has the channel at zero; the round trip with `Insert` is in `CursorColourRoundTrip` |
| Cursor.Insert | bin/client.rs:164-167 | an inserted channel sets no bit outside its mask; extracting it again gives the byte cut to the channel's width (`CursorColourRoundTrip`) |
| Cursor.ReadColor | bin/client.rs:147-154 | the colour read is opaque, and a channel none of whose bits is set reads as zero |
| Cursor.WriteColor | bin/client.rs:156-174 | a written colour takes `size` bytes; the only failure is a value too wide for its bytes |
| Cursor.WriteColorFits | bin/client.rs:164-172 | `write_color` fails exactly when the packed colour does not fit in `size` bytes, and otherwise its bytes read back as the packed colour |
| Cursor.WriteThenRead | bin/client.rs:147-174 | a colour whose packed pixel fits is written, and read back with the same masks gives the packed pixel and each channel as the packed pixel holds it, opaque |
| Cursor.MaskedWriteThenRead | bin/client.rs:147-188 | when the masks carry a masked colour channel by channel, it is written, read back with each channel cut to its width, and its alpha channel holds all ones for a nonzero mask byte and 0 for a zero one |
| Cursor.CursorColourRoundTrip | bin/client.rs:127-188 | in each of the five formats with alpha that `mask_cursor` writes, a masked colour is written, read back with each channel cut to the format's widths, and its alpha is all ones or 0 as the mask byte is nonzero or zero |
| Cursor.AlphaSize | bin/client.rs:140 | the formats with alpha take 2 or 4 bytes per pixel |
| Cursor.AlphaMasks | bin/client.rs:127-141 | SDL's masks of the formats with alpha: each shift is its mask's lowest set bit, and no two channels share a bit |
| Cursor.Argb4444Channels | bin/client.rs:150-167 | ARGB4444 keeps the low 4 bits of each channel, and a packed colour fits in 2 bytes |
| Cursor.Argb1555Channels | bin/client.rs:150-167 | ARGB1555 keeps the low 5 bits of red, green and blue and the lowest bit of alpha, and a packed colour fits in 2 bytes |
| Cursor.Abgr1555Channels | bin/client.rs:150-167 | ABGR1555 keeps the low 5 bits of red, green and blue and the lowest bit of alpha, and a packed colour fits in 2 bytes |
| Cursor.Argb8888Channels | bin/client.rs:150-167 | ARGB8888 keeps every channel whole, and a packed colour fits in 4 bytes |
| Cursor.Abgr8888Channels | bin/client.rs:150-167 | ABGR8888 keeps every channel whole, and a packed colour fits in 4 bytes |
| Cursor.Argb4444RoundTrip | bin/client.rs:147-188 | a masked colour written in ARGB4444 reads back with each channel cut to 4 bits, and with alpha 0xF or 0 |
| Cursor.Argb1555RoundTrip | bin/client.rs:147-188 | a masked colour written in ARGB1555 reads back with each channel cut to 5 bits, and with alpha 1 or 0 |
| Cursor.Abgr1555RoundTrip | bin/client.rs:147-188 | a masked colour written in ABGR1555 reads back with each channel cut to 5 bits, and with alpha 1 or 0 |
| Cursor.Argb8888RoundTrip | bin/client.rs:147-188 | a masked colour written in ARGB8888 reads back unchanged, with alpha 0xFF or 0 |
| Cursor.Abgr8888RoundTrip | bin/client.rs:147-188 | a masked colour written in ABGR8888 reads back unchanged, with alpha 0xFF or 0 |
| Cursor.GreenTopBitLost | bin/client.rs:127-167 | an RGB565 pixel with green 32 reads with green 32, and written as ARGB1555 reads back with green 0 |
| Cursor.WithAlpha | bin/client.rs:182-184 | the colour is kept; alpha is 255 exactly for a nonzero mask byte and 0 exactly for a zero one |
| Cursor.MaskedCursor | bin/client.rs:119-191 | fails exactly when the format is not in the corrected table or the pixel loop fails; a format not in the table panics; the output format has an alpha channel |
| Cursor.MaskCursor | bin/client.rs:119-191 | the format lookups, in the corrected table, and then the pixel loop compute `MaskedCursor` |
| Cursor.MaskedPixels | bin/client.rs:176-188 | the pixel loop fails only by running out of mask bytes or writing a colour too wide for its bytes |
| Cursor.MaskPixels | bin/client.rs:176-188 | the pixel loop computes `MaskedPixels` |
| Cursor.MaskedStep | bin/client.rs:176-188 | one pixel read, masked and written, then the loop goes on |
| Cursor.MaskedPixelsStep | bin/client.rs:176-188 | on a whole pixel and a mask byte, the loop writes that pixel and goes on, or stops at a write that fails |
| Cursor.WholePixels | bin/client.rs:176-178 | the whole pixels read each have `size` bytes |
| Cursor.WholePixelsCover | bin/client.rs:176-178 | the whole pixels are the input from the start, less an incomplete last pixel |
| Cursor.OutColours | bin/client.rs:180-184 | output pixel `i` is input pixel `i` with the alpha of mask byte `i` |
| Cursor.WriteAll | bin/client.rs:185 | written colours take `size` bytes each |
| Cursor.MaskedPixelsShort | bin/client.rs:181 | with fewer mask bytes than whole pixels the loop fails |
| Cursor.MaskedPixelsAlpha | bin/client.rs:176-188 | with enough mask bytes the output is each whole pixel with its mask's alpha, written in order; the incomplete tail is dropped |

## Left out

- **The zlib inflater.** It is not modelled. `decode` is given the bytes that inflating the
  rectangle's input yields. The inflater is reduced to the input fed to it.
- **`ZlibIntoInner`.** It checks for inflated bytes left unread. The original checks for
  compressed input left unconsumed. The two agree when the inflater consumes input only as
  output is demanded.
- **I/O error kinds.** These are reduced to EOF and the decoder's own messages:
  - the `Read` impl of `ZlibReader`, with its `BufError` and `StreamEnd` cases;
  - a short `read` from `BitReader`'s `Read` impl.
- **The consumer callback.** It is a pure function. Its side effects are the returned list of
  tiles.
- **Tile coordinates** are unbounded integers: `y + 64`, `x + 64`, `x += width`,
  `y += height`, `rect.top + y`, `rect.left + x` and `width * height`
  (src/zrle.rs:155, 158, 225-226, 231, 233). Their `u16` overflow is not modelled.
- Cursor.ExpandMaskRows: the corrected expansion computes the stride and the byte index in
  unbounded integers (as with `usize`), so it has no `u16` overflow. The as-written
  `Cursor.ExpandMask` models the overflow.
- Cursor.MaskCursor: looks the server's format up in the corrected table (`FormatMap`), where
  bin/client.rs:126 uses the table as written; the two differ only for the 16- and 8-bit
  entries (see Findings). The same holds for `Cursor.MaskedCursor`.
- **Cursor pixel byte order.** `mask_cursor` reads pixels in `NativeEndian`, taken here to be
  little endian.
- **SDL's channel masks and pixel sizes** for the formats are parameters (`UsableMasks`), not
  SDL's tables.
- **Creating the SDL cursor texture** is not part of this model.
- **Sending RFB events** is modelled by returning them. The `unwrap` of a failed send is not
  modelled.
- **The `view_only` switch**, the clipboard event and the rest of `main`'s event loop and
  rendering are not part of this model.
- **`qemu_hacks`** is a constructor parameter of `InputState`. Only its effect on motion
  events is modelled.
- **`Keys.MapSpecialKey`:** keysyms are `int` values of the tables, not `u32`.
  `Keys.KeysymRanges` proves that they lie in 0x20..0xffff.

## Findings

| source | as written | input that shows it | evidently intended | confidence | as-written member | corrected member |
|---|---|---|---|---|---|---|
| src/zrle.rs:75 | the mask `(1 << count) - 1` is computed in 8 bits, so an 8-bit read shifts by the full width (a panic in a debug build, a zero mask in a release build) | `read_bits(8)` on any byte | the mask of the low `count` bits, 0xff for `count == 8` | not executed | BitReading.MaskAsWritten, BitReading.ReadBitsFrom, BitReading.WholeByteRead | BitReading.Mask, BitReading.ReadBitsWide |
| bin/client.rs:37-97 | the 5-6-5 and 3-3-2 entries give channel maxima 32, 64, 32 and 8, 8, 4, where RFB pixel formats give `2^n - 1` | a server offering the 5-6-5 format with maxima 31, 63, 31 | maxima 31, 63, 31 and 7, 7, 3, so that such a server is recognised | not executed | PixelFormats.FormatMapAsWritten, PixelFormats.MaximaAsWritten, PixelFormats.Rgb565Recognised | PixelFormats.FormatMap, PixelFormats.CorrectedMaxima |
| bin/client.rs:484-494 | the expansion emits 8 mask bytes per bitmap byte, padding bits included, while `mask_cursor` takes one mask byte per pixel, so rows drift apart when the width is not a multiple of 8 | width 1, height 2, bitmap `[0x80, 0x80]`: the second pixel gets mask byte 0 | one mask byte per pixel, each taken from its bit of the row's bitmap | not executed | Cursor.ExpandMask, Cursor.MaskRowsDrift | Cursor.ExpandMaskRows, Cursor.RowMaskEntries |
