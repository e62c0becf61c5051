/**
 * `Decoder` of src/zrle.rs as the imperative code it is: a decoder object
 * that owns the zlib inflater between rectangles, and a `decode` method
 * that walks the tiles of a rectangle with a `BitReader`, decoding each tile
 * with loops and handing it to the consumer.
 *
 * The nested helpers `read_pixel` and `read_run_length` are methods here, and
 * the body of each tile sub-encoding is a method of its own; each method is
 * proved to compute what the function of the same name in ZrleSpec (or
 * ZrleDecode, for the whole rectangle) describes.
 */
module Zrle {
  import opened Protocol
  import opened BitReading
  import opened ZrleTiles
  import Spec = ZrleSpec
  import opened ZrleDecode

  /** `read_pixel`: a zeroed 4-byte entry whose slice `start..cbpp` is read from the stream. */
  method ReadPixel(reader: BitReader, pad: bool, cbpp: nat) returns (r: Result<seq<byte>>)
    requires reader.Valid()
    modifies reader
    ensures reader.Valid()
    ensures Paired(r, reader.State()) == Spec.ReadPixel(old(reader.State()), pad, cbpp)
  {
    var start := if pad then 1 else 0;
    if cbpp > 4 || start > cbpp {
      return Err(Panic(SliceOutOfRange));
    }
    var entry := new byte[4](_ => 0);
    var bytes := reader.ReadExact(cbpp - start);
    if bytes.Err? {
      return Err(bytes.error);
    }
    forall i | start <= i < cbpp {
      entry[i] := bytes.value[i - start];
    }
    ghost var expected := Spec.Zeros(start) + bytes.value + Spec.Zeros(4 - cbpp);
    assert forall i :: 0 <= i < 4 ==> entry[i] == expected[i];
    assert entry[..] == expected;
    r := Ok(entry[..]);
  }

  /** `read_run_length`: one plus a byte, plus one more byte for as long as the last was 255. */
  method ReadRunLength(reader: BitReader) returns (r: Result<nat>)
    requires reader.Valid()
    modifies reader
    ensures reader.Valid()
    ensures Paired(r, reader.State()) == Spec.ReadRunLength(old(reader.State()))
  {
    var first := reader.ReadU8();
    if first.Err? {
      return Err(first.error);
    }
    var part := first.value;
    var runLength: nat := 1 + part as nat;
    while part == 255
      invariant reader.Valid()
      invariant Spec.ReadRunLength(old(reader.State())) ==
        if part == 255 then Spec.RunLengthFrom(reader.State(), runLength) else Ok(Step(runLength, reader.State()))
      decreases |reader.rest|
    {
      var next := reader.ReadU8();
      if next.Err? {
        return Err(next.error);
      }
      part := next.value;
      runLength := runLength + part as nat;
    }
    r := Ok(runLength);
  }

  /** The palette of a tile: `size` CPIXELs. */
  method ReadPalette(reader: BitReader, size: nat, cfg: Spec.PixelConfig) returns (r: Result<seq<seq<byte>>>)
    requires reader.Valid()
    modifies reader
    ensures reader.Valid()
    ensures Paired(r, reader.State()) == Spec.ReadPalette(old(reader.State()), size, cfg, [])
  {
    var palette: seq<seq<byte>> := [];
    for i := 0 to size
      invariant reader.Valid()
      invariant Spec.WholeEntries(palette)
      invariant Spec.ReadPalette(old(reader.State()), size, cfg, []) ==
        Spec.ReadPalette(reader.State(), size - i, cfg, palette)
    {
      var entry := ReadPixel(reader, cfg.pad, cfg.cbpp);
      if entry.Err? {
        return Err(entry.error);
      }
      palette := palette + [entry.value];
    }
    r := Ok(palette);
  }

  /** Raw pixels: `n` CPIXELs, each emitted as its first `bpp` bytes. */
  method RawPixels(reader: BitReader, n: nat, cfg: Spec.PixelConfig) returns (r: Result<seq<byte>>)
    requires reader.Valid()
    modifies reader
    ensures reader.Valid()
    ensures Paired(r, reader.State()) == Spec.RawPixels(old(reader.State()), n, cfg, [])
  {
    var pixels: seq<byte> := [];
    for i := 0 to n
      invariant reader.Valid()
      invariant Spec.RawPixels(old(reader.State()), n, cfg, []) ==
        Spec.RawPixels(reader.State(), n - i, cfg, pixels)
    {
      var pixel := ReadPixel(reader, cfg.pad, cfg.cbpp);
      if pixel.Err? {
        return Err(pixel.error);
      }
      var px := Spec.PixelBytes(pixel.value, cfg.bpp);
      if px.Err? {
        return Err(px.error);
      }
      pixels := pixels + px.value;
    }
    r := Ok(pixels);
  }

  /** Colour fill: the one palette colour, `n` times. */
  method SolidPixels(colour: seq<byte>, n: nat, bpp: nat) returns (r: Result<seq<byte>>)
    requires |colour| == 4
    ensures r == Spec.SolidPixels(colour, n, bpp)
  {
    var pixels: seq<byte> := [];
    for i := 0 to n
      invariant i == 0 ==> pixels == []
      invariant i > 0 ==> bpp <= 4 && pixels == Spec.Repeat(colour[..bpp], i)
    {
      var px := Spec.PixelBytes(colour, bpp);
      if px.Err? {
        return Err(px.error);
      }
      pixels := pixels + px.value;
    }
    r := Ok(pixels);
  }

  /** Packed palette indices: `h` rows of `w` indices of `bits` bits, each row re-aligned on a
      byte boundary. */
  method PackedRows(reader: BitReader, palette: seq<seq<byte>>, bits: bv8, bpp: nat, w: nat, h: nat)
    returns (r: Result<seq<byte>>)
    requires reader.Valid() && (bits == 1 || bits == 2 || bits == 4)
    requires Spec.WholeEntries(palette)
    modifies reader
    ensures reader.Valid()
    ensures Paired(r, reader.State()) == Spec.PackedRows(old(reader.State()), palette, bits, bpp, w, h, [])
  {
    var pixels: seq<byte> := [];
    for y := 0 to h
      invariant reader.Valid()
      invariant Spec.PackedRows(old(reader.State()), palette, bits, bpp, w, h, []) ==
        Spec.PackedRows(reader.State(), palette, bits, bpp, w, h - y, pixels)
    {
      ghost var rowStart, rowPixels := reader.State(), pixels;
      for x := 0 to w
        invariant reader.Valid()
        invariant Spec.PackedRow(rowStart, palette, bits, bpp, w, rowPixels) ==
          Spec.PackedRow(reader.State(), palette, bits, bpp, w - x, pixels)
      {
        var index := reader.ReadBits(bits);
        if index.Err? {
          return Err(index.error);
        }
        var colour := Spec.PaletteColour(palette, index.value as nat, bpp);
        if colour.Err? {
          return Err(colour.error);
        }
        pixels := pixels + colour.value;
      }
      reader.Align();
    }
    r := Ok(pixels);
  }

  /** `n` copies of `px` appended to `pixels`, where slicing `entry` to `px` may panic. */
  method EmitRun(pixels: seq<byte>, entry: seq<byte>, bpp: nat, n: nat) returns (r: Result<seq<byte>>)
    requires |entry| == 4 && n >= 1
    ensures r.Ok? <==> bpp <= 4
    ensures r.Ok? ==> r.value == pixels + Spec.Repeat(entry[..bpp], n)
    ensures r.Err? ==> r.error == Panic(SliceOutOfRange)
  {
    var out := pixels;
    for j := 0 to n
      invariant j == 0 ==> out == pixels
      invariant j > 0 ==> bpp <= 4 && out == pixels + Spec.Repeat(entry[..bpp], j)
    {
      var px := Spec.PixelBytes(entry, bpp);
      if px.Err? {
        return Err(px.error);
      }
      out := out + px.value;
    }
    r := Ok(out);
  }

  /** A run of plain RLE: a CPIXEL and its run length. */
  method RawRun(reader: BitReader, cfg: Spec.PixelConfig) returns (r: Result<Spec.Run>)
    requires reader.Valid()
    modifies reader
    ensures reader.Valid()
    ensures Paired(r, reader.State()) == Spec.RawRun(old(reader.State()), cfg)
  {
    var pixel := ReadPixel(reader, cfg.pad, cfg.cbpp);
    if pixel.Err? {
      return Err(pixel.error);
    }
    var runLength := ReadRunLength(reader);
    if runLength.Err? {
      return Err(runLength.error);
    }
    r := Ok(Spec.Run(pixel.value, runLength.value));
  }

  /** A run of palette RLE: the flag bit, the 7-bit index and, if the flag is set, the run
      length; the index is then looked up in the palette without a bounds check. */
  method PaletteRun(reader: BitReader, palette: seq<seq<byte>>) returns (r: Result<Spec.Run>)
    requires reader.Valid()
    requires Spec.WholeEntries(palette)
    modifies reader
    ensures reader.Valid()
    ensures Paired(r, reader.State()) == Spec.PaletteRun(old(reader.State()), palette)
  {
    var longerThanOne := reader.ReadBit();
    if longerThanOne.Err? {
      return Err(longerThanOne.error);
    }
    var index := reader.ReadBits(7);
    if index.Err? {
      return Err(index.error);
    }
    var runLength: nat := 1;
    if longerThanOne.value {
      var length := ReadRunLength(reader);
      if length.Err? {
        return Err(length.error);
      }
      runLength := length.value;
    }
    if index.value as nat >= |palette| {
      return Err(Panic(IndexOutOfBounds));
    }
    r := Ok(Spec.Run(palette[index.value], runLength));
  }

  /** Where an RLE walk stands after a run: the pixels counted so far and the bytes emitted. */
  datatype RunsDone = RunsDone(count: nat, pixels: seq<byte>)

  /** One run of plain RLE, read and emitted: the walk of `read`, which reads runs as `RawRun`
      does, moves on past the run, or stops with the run's error. */
  method RawRleRun(reader: BitReader, cfg: Spec.PixelConfig, ghost read: Spec.RunReader, total: nat, count: nat,
                   pixels: seq<byte>) returns (r: Result<RunsDone>)
    requires reader.Valid() && count < total
    requires Spec.ReadsRuns(read) && read(reader.State()) == Spec.RawRun(reader.State(), cfg)
    modifies reader
    ensures reader.Valid()
    ensures r.Ok? ==> r.value.count > count
    ensures r.Ok? ==> Spec.Rle(old(reader.State()), read, cfg.bpp, total, count, pixels) ==
                      Spec.Rle(reader.State(), read, cfg.bpp, total, r.value.count, r.value.pixels)
    ensures r.Err? ==> Spec.Rle(old(reader.State()), read, cfg.bpp, total, count, pixels) == Err(r.error)
  {
    ghost var before := reader.State();
    var run := RawRun(reader, cfg);
    if run.Err? {
      Spec.RleFails(before, read, cfg.bpp, total, count, pixels);
      return Err(run.error);
    }
    var emitted := EmitRun(pixels, run.value.entry, cfg.bpp, run.value.length);
    if emitted.Err? {
      Spec.RleFails(before, read, cfg.bpp, total, count, pixels);
      return Err(emitted.error);
    }
    Spec.RleStep(before, read, cfg.bpp, total, count, pixels, run.value, reader.State());
    r := Ok(RunsDone(count + run.value.length, emitted.value));
  }

  /** Plain RLE: runs until the tile's `total` pixels are reached or passed. */
  method RawRle(reader: BitReader, cfg: Spec.PixelConfig, total: nat) returns (r: Result<seq<byte>>)
    requires reader.Valid()
    modifies reader
    ensures reader.Valid()
    ensures Paired(r, reader.State()) == Spec.RawRle(old(reader.State()), cfg, total, 0, [])
  {
    ghost var read := Spec.RawRuns(cfg);
    var pixels: seq<byte> := [];
    var count: nat := 0;
    while count < total
      invariant reader.Valid()
      invariant Spec.Rle(old(reader.State()), read, cfg.bpp, total, 0, []) ==
                Spec.Rle(reader.State(), read, cfg.bpp, total, count, pixels)
      decreases total - count
    {
      var step := RawRleRun(reader, cfg, read, total, count, pixels);
      if step.Err? {
        return Err(step.error);
      }
      count, pixels := step.value.count, step.value.pixels;
    }
    r := Ok(pixels);
  }

  /** One run of palette RLE, read and emitted, as for plain RLE. */
  method PaletteRleRun(reader: BitReader, palette: seq<seq<byte>>, bpp: nat, ghost read: Spec.RunReader, total: nat,
                       count: nat, pixels: seq<byte>) returns (r: Result<RunsDone>)
    requires reader.Valid() && count < total
    requires Spec.WholeEntries(palette)
    requires Spec.ReadsRuns(read) && read(reader.State()) == Spec.PaletteRun(reader.State(), palette)
    modifies reader
    ensures reader.Valid()
    ensures r.Ok? ==> r.value.count > count
    ensures r.Ok? ==> Spec.Rle(old(reader.State()), read, bpp, total, count, pixels) ==
                      Spec.Rle(reader.State(), read, bpp, total, r.value.count, r.value.pixels)
    ensures r.Err? ==> Spec.Rle(old(reader.State()), read, bpp, total, count, pixels) == Err(r.error)
  {
    ghost var before := reader.State();
    var run := PaletteRun(reader, palette);
    if run.Err? {
      Spec.RleFails(before, read, bpp, total, count, pixels);
      return Err(run.error);
    }
    var emitted := EmitRun(pixels, run.value.entry, bpp, run.value.length);
    if emitted.Err? {
      Spec.RleFails(before, read, bpp, total, count, pixels);
      return Err(emitted.error);
    }
    Spec.RleStep(before, read, bpp, total, count, pixels, run.value, reader.State());
    r := Ok(RunsDone(count + run.value.length, emitted.value));
  }

  /** Palette RLE: runs of palette colours until the tile's `total` pixels are reached or
      passed. */
  method PaletteRle(reader: BitReader, palette: seq<seq<byte>>, bpp: nat, total: nat) returns (r: Result<seq<byte>>)
    requires reader.Valid()
    requires Spec.WholeEntries(palette)
    modifies reader
    ensures reader.Valid()
    ensures Paired(r, reader.State()) == Spec.PaletteRle(old(reader.State()), palette, bpp, total, 0, [])
  {
    ghost var read := Spec.PaletteRuns(palette);
    var pixels: seq<byte> := [];
    var count: nat := 0;
    while count < total
      invariant reader.Valid()
      invariant Spec.Rle(old(reader.State()), read, bpp, total, 0, []) ==
                Spec.Rle(reader.State(), read, bpp, total, count, pixels)
      decreases total - count
    {
      var step := PaletteRleRun(reader, palette, bpp, read, total, count, pixels);
      if step.Err? {
        return Err(step.error);
      }
      count, pixels := step.value.count, step.value.pixels;
    }
    r := Ok(pixels);
  }

  /** One tile: the header bit and palette size, the palette, then the pixels of the
      sub-encoding they name. */
  method DecodeTile(reader: BitReader, width: nat, height: nat, cfg: Spec.PixelConfig) returns (r: Result<seq<byte>>)
    requires reader.Valid()
    modifies reader
    ensures reader.Valid()
    ensures Paired(r, reader.State()) == Spec.DecodeTile(old(reader.State()), width, height, cfg)
  {
    ghost var start := reader.State();
    var isRle := reader.ReadBit();
    if isRle.Err? {
      Spec.DecodeTileFails(start, width, height, cfg, isRle.error);
      return Err(isRle.error);
    }
    var paletteSize := reader.ReadBits(7);
    if paletteSize.Err? {
      Spec.DecodeTileFails(start, width, height, cfg, paletteSize.error);
      return Err(paletteSize.error);
    }
    var header := Spec.Header(isRle.value, paletteSize.value as nat);
    ghost var afterHeader := reader.State();
    assert Spec.ReadHeader(start) == Ok(Step(header, afterHeader));
    var palette := ReadPalette(reader, header.paletteSize, cfg);
    if palette.Err? {
      Spec.DecodeTileFails(start, width, height, cfg, palette.error);
      return Err(palette.error);
    }
    Spec.DecodeTileReads(start, width, height, cfg, header, afterHeader, palette.value, reader.State());
    r := TilePixels(reader, header, palette.value, width, height, cfg);
  }

  /** The pixels of the sub-encoding a tile header names. */
  method TilePixels(reader: BitReader, header: Spec.Header, palette: seq<seq<byte>>, width: nat, height: nat,
                    cfg: Spec.PixelConfig) returns (r: Result<seq<byte>>)
    requires reader.Valid() && Spec.WholeEntries(palette) && |palette| == header.paletteSize
    modifies reader
    ensures reader.Valid()
    ensures Paired(r, reader.State()) == Spec.TilePixels(old(reader.State()), header, palette, width, height, cfg)
  {
    var n := width * height;
    var size := header.paletteSize;
    if !header.rle && size == 0 {
      r := RawPixels(reader, n, cfg);
    } else if !header.rle && size == 1 {
      r := SolidPixels(palette[0], n, cfg.bpp);
    } else if !header.rle && size <= 16 {
      r := PackedRows(reader, palette, Spec.BitsPerIndex(size), cfg.bpp, width, height);
    } else if header.rle && size == 0 {
      r := RawRle(reader, cfg, n);
    } else if header.rle && size >= 2 {
      r := PaletteRle(reader, palette, cfg.bpp, n);
    } else {
      r := Err(BadSubencoding);
    }
  }

  /** A tile decoder that agrees with `DecodeTile` for the CPIXEL layout `cfg`. */
  ghost predicate DecodesTiles(decode: TileDecoder, cfg: Spec.PixelConfig) {
    && KeepsValid(decode)
    && forall s: BitState, t: Rect {:trigger Spec.DecodeTile(s, t.width, t.height, cfg)} ::
         s.Valid() ==> decode(s, t) == Spec.DecodeTile(s, t.width, t.height, cfg)
  }

  /** The tile at `tile`, read by `DecodeTile`, as the walk sees it. */
  method WalkTile(reader: BitReader, tile: Rect, cfg: Spec.PixelConfig, ghost decode: TileDecoder)
    returns (r: Result<seq<byte>>)
    requires reader.Valid() && DecodesTiles(decode, cfg)
    modifies reader
    ensures reader.Valid()
    ensures Paired(r, reader.State()) == decode(old(reader.State()), tile)
  {
    r := DecodeTile(reader, tile.width, tile.height, cfg);
  }

  /** One band of the tile loops of `decode`: the tiles of `rect` in the band at offset `y`,
      `height` rows high, left to right, each decoded and handed to `callback`; `below` are the
      tiles of the bands after it, which the walk reaches when the consumer accepts every tile. */
  method DecodeBand(reader: BitReader, rect: Rect, y: nat, height: nat, cfg: Spec.PixelConfig, callback: Callback,
                    ghost decode: TileDecoder, ghost below: seq<Rect>, done: seq<Tile>)
    returns (r: Result<bool>, tiles: seq<Tile>)
    requires reader.Valid() && DecodesTiles(decode, cfg)
    modifies reader
    ensures reader.Valid()
    ensures var walk := DecodeTiles(old(reader.State()), RowTiles(rect, y, height, 0) + below, decode, callback, done);
      match r
      case Err(e) => walk == Progress(tiles, Failed(e))
      case Ok(false) => walk == Progress(tiles, Stopped)
      case Ok(true) => walk == DecodeTiles(reader.State(), below, decode, callback, tiles)
  {
    tiles := done;
    ghost var walk := DecodeTiles(reader.State(), RowTiles(rect, y, height, 0) + below, decode, callback, done);
    ghost var pending := RowTiles(rect, y, height, 0) + below;
    var x := 0;
    while x < rect.width
      invariant reader.Valid()
      invariant pending == RowTiles(rect, y, height, x) + below
      invariant walk == DecodeTiles(reader.State(), pending, decode, callback, tiles)
      decreases rect.width - x
    {
      var width := if x + TileSide > rect.width then rect.width - x else TileSide;
      var tile := Rect(rect.left + x, rect.top + y, width, height);
      NextTile(rect, y, height, x, below);
      ghost var before := reader.State();
      var pixels := WalkTile(reader, tile, cfg, decode);
      if pixels.Err? {
        WalkTileFails(before, pending, decode, callback, tiles, pixels.error);
        return Err(pixels.error), tiles;
      }
      WalkTileHanded(before, pending, decode, callback, tiles, pixels.value, reader.State());
      tiles := tiles + [Tile(tile, pixels.value)];
      var answer := callback(tile, pixels.value);
      if answer.Err? {
        return Err(answer.error), tiles;
      }
      if !answer.value {
        return Ok(false), tiles;
      }
      pending := pending[1..];
      x := x + width;
    }
    BandDone(rect, y, height, x, below);
    r := Ok(true);
  }

  /** The tile loops of `decode`: the tiles of `rect`, band by band and left to right, each
      decoded and handed to `callback`. It is stated for any tile decoder `decode` that agrees
      with the ZRLE one, so that the walk is followed one tile at a time. */
  method DecodeRect(reader: BitReader, rect: Rect, cfg: Spec.PixelConfig, callback: Callback, ghost decode: TileDecoder)
    returns (r: Result<bool>, tiles: seq<Tile>)
    requires reader.Valid() && DecodesTiles(decode, cfg)
    modifies reader
    ensures reader.Valid()
    ensures DecodeTiles(old(reader.State()), Tiles(rect), decode, callback, []) ==
      Progress(tiles, match r case Err(e) => Failed(e) case Ok(false) => Stopped case Ok(true) => Finished(reader.State()))
  {
    tiles := [];
    ghost var walk := DecodeTiles(reader.State(), Tiles(rect), decode, callback, []);
    var y := 0;
    while y < rect.height
      invariant reader.Valid()
      invariant walk == DecodeTiles(reader.State(), TilesFrom(rect, y), decode, callback, tiles)
      decreases rect.height - y
    {
      var height := if y + TileSide > rect.height then rect.height - y else TileSide;
      NextBand(rect, y);
      r, tiles := DecodeBand(reader, rect, y, height, cfg, callback, decode, TilesFrom(rect, y + height), tiles);
      if r != Ok(true) {
        return;
      }
      y := y + height;
    }
    r := Ok(true);
  }

  /** `Decoder`: the zlib inflater that carries over from one rectangle to the next. It is
      taken out for the length of a call and put back only when the call succeeds. */
  class Decoder {
    var decompressor: Option<Inflate>

    constructor ()
      ensures decompressor == Some(Inflate([]))
    {
      decompressor := Some(Inflate([]));
    }

    /** Decodes one ZRLE rectangle whose zlib data `input` inflates to `inflated`, handing each
        tile to `callback`; `tiles` are the tiles handed over, in order. */
    method Decode(format: PixelFormat, rect: Rect, input: seq<byte>, inflated: seq<byte>, callback: Callback)
      returns (r: Result<bool>, tiles: seq<Tile>)
      modifies this
      ensures Outcome(r, tiles, decompressor) == ZrleDecode.Decode(old(decompressor), format, rect, input, inflated, callback)
    {
      var layout := Spec.CompressedPixel(format);
      if layout.Err? {
        return Err(layout.error), [];
      }
      var cfg := layout.value;
      var taken := decompressor;
      decompressor := None;
      if taken.None? {
        return Err(Panic(UnwrapNone)), [];
      }
      var inflater := Inflate(taken.value.history + input);
      var reader := new BitReader(inflated);
      r, tiles := DecodeRect(reader, rect, cfg, callback, ZrleTile(cfg));
      if r != Ok(true) {
        return;
      }
      var unread := reader.IntoInner();
      if unread.Err? {
        return Err(LeftoverBitData), tiles;
      }
      var back := ZlibIntoInner(ZlibReader(inflater, unread.value));
      if back.Err? {
        return Err(back.error), tiles;
      }
      decompressor := Some(back.value);
    }
  }
}
