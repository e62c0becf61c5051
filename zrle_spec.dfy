/**
 * What `Decoder::decode` of src/zrle.rs computes, written as functions on
 * bit-reader states: the CPIXEL layout chosen from the pixel format, the
 * reading of CPIXELs and run lengths, the five tile sub-encodings, and the
 * walk over the tiles of a rectangle with the consumer's callback. The
 * imperative decoder (module Zrle) is proved to agree with these functions;
 * the lemmas here state what the decoder does in ZRLE's own terms (section
 * 7.7.6 of RFC 6143, which reuses the tile sub-encodings of section 7.7.5).
 *
 * The zlib inflater is not modelled: the decoder is given the bytes that
 * inflating the rectangle's input yields.
 */
module ZrleSpec {
  import opened Protocol
  import opened BitReading
  import opened ZrleTiles

  /** How pixels are read and emitted: `bpp` bytes per output pixel, `cbpp` the end of the
      CPIXEL slice in a 4-byte entry, and `pad` whether the slice starts at byte 1 instead of 0. */
  datatype PixelConfig = PixelConfig(bpp: nat, cbpp: nat, pad: bool)

  /** One channel of the pixel mask, `(max as u32) << shift`. */
  function ChannelMask(max: U16, shift: U8): (r: Result<bv32>)
    ensures r.Err? <==> shift >= 32
  {
    if shift >= 32 then Err(Panic(ShiftOverflow)) else Ok((max as bv32) << shift)
  }

  /** The bits any colour channel may occupy in a pixel value. */
  function PixelMask(f: PixelFormat): (r: Result<bv32>)
    ensures r.Err? <==> f.redShift >= 32 || f.greenShift >= 32 || f.blueShift >= 32
  {
    var red :- ChannelMask(f.redMax, f.redShift);
    var green :- ChannelMask(f.greenMax, f.greenShift);
    var blue :- ChannelMask(f.blueMax, f.blueShift);
    Ok(red | green | blue)
  }

  /** The pixel format qualifies for 3-byte CPIXELs: 32 bits per pixel, true colour, depth at
      most 24. */
  predicate Packable(f: PixelFormat) {
    f.bitsPerPixel == 32 && f.trueColour && f.depth <= 24
  }

  /** The CPIXEL layout the decoder picks for a pixel format. */
  function CompressedPixel(f: PixelFormat): (r: Result<PixelConfig>)
    ensures r.Err? <==> PixelMask(f).Err?
    ensures r.Ok? ==> r.value.bpp == f.bitsPerPixel / 8
    ensures r.Ok? && !Packable(f) ==> r.value.cbpp == f.bitsPerPixel / 4 && !r.value.pad
    ensures r.Ok? && Packable(f) ==>
      var mask := PixelMask(f).value;
      var lowFree, highFree := mask & 0xff == 0, mask & 0xff00_0000 == 0;
      && (r.value.cbpp == 3 <==> lowFree || highFree)
      && (r.value.cbpp != 3 ==> r.value.cbpp == 4)
      && (r.value.pad <==> (lowFree && !f.bigEndian) || (!lowFree && highFree && f.bigEndian))
    ensures r.Ok? && r.value.pad ==> r.value.cbpp == 3
  {
    var mask :- PixelMask(f);
    var bpp := f.bitsPerPixel / 8;
    if Packable(f) then
      if mask & 0xff == 0 then Ok(PixelConfig(bpp, 3, !f.bigEndian))
      else if mask & 0xff00_0000 == 0 then Ok(PixelConfig(bpp, 3, f.bigEndian))
      else Ok(PixelConfig(bpp, 4, false))
    else
      Ok(PixelConfig(bpp, f.bitsPerPixel / 4, false))
  }

  function Zeros(n: nat): (z: seq<byte>)
    ensures |z| == n && forall i :: 0 <= i < n ==> z[i] == 0
  {
    seq(n, _ => 0)
  }

  /** `read_pixel`: fills `entry[start..cbpp]` of a zeroed 4-byte entry from the stream, where
      `start` is 1 for a padded CPIXEL and 0 otherwise. */
  function ReadPixel(s: BitState, pad: bool, cbpp: nat): (r: Result<Step<seq<byte>>>)
    requires s.Valid()
    ensures cbpp > 4 || (pad && cbpp == 0) <==> r == Err(Panic(SliceOutOfRange))
    ensures r.Ok? ==>
      var start := if pad then 1 else 0;
      && |r.value.value| == 4
      && s.rest == r.value.value[start..cbpp] + r.value.next.rest
      && (forall i :: 0 <= i < 4 && !(start <= i < cbpp) ==> r.value.value[i] == 0)
      && r.value.next.position == s.position
  {
    var start := if pad then 1 else 0;
    if cbpp > 4 || start > cbpp then Err(Panic(SliceOutOfRange))
    else
      var bytes :- ReadExactFrom(s, cbpp - start);
      var entry := Zeros(start) + bytes.value + Zeros(4 - cbpp);
      assert entry[start..cbpp] == bytes.value;
      Ok(Step(entry, bytes.next))
  }

  /** `pixel[0..bpp]`: the bytes of an entry that make up one output pixel. */
  function PixelBytes(entry: seq<byte>, bpp: nat): (r: Result<seq<byte>>)
    requires |entry| == 4
    ensures r.Ok? <==> bpp <= 4
    ensures r.Ok? ==> r.value == entry[..bpp]
  {
    if bpp > 4 then Err(Panic(SliceOutOfRange)) else Ok(entry[..bpp])
  }

  /** Every palette entry is a whole 4-byte entry. */
  predicate WholeEntries(palette: seq<seq<byte>>) {
    forall i :: 0 <= i < |palette| ==> |palette[i]| == 4
  }

  /** `palette[index][0..bpp]`, where the index is not checked against the palette size. */
  function PaletteColour(palette: seq<seq<byte>>, index: nat, bpp: nat): (r: Result<seq<byte>>)
    requires WholeEntries(palette)
    ensures index >= |palette| ==> r == Err(Panic(IndexOutOfBounds))
    ensures r.Ok? ==> index < |palette| && bpp <= 4 && r.value == palette[index][..bpp]
  {
    if index >= |palette| then Err(Panic(IndexOutOfBounds)) else PixelBytes(palette[index], bpp)
  }

  /** `n` copies of `px`, one after the other. */
  function Repeat(px: seq<byte>, n: nat): (r: seq<byte>)
    ensures |r| == n * |px|
  {
    if n == 0 then [] else Repeat(px, n - 1) + px
  }

  /** The sum of some bytes, as integers. */
  function Sum(bs: seq<byte>): nat {
    if bs == [] then 0 else Sum(bs[..|bs| - 1]) + bs[|bs| - 1] as nat
  }

  /** The loop of `read_run_length` after it has accumulated `acc`: add a byte, and go on while
      that byte was 255. */
  function RunLengthFrom(s: BitState, acc: nat): (r: Result<Step<nat>>)
    requires s.Valid()
    ensures r.Ok? ==> r.value.value >= acc && r.value.next.position == s.position
    ensures r.Ok? ==> |r.value.next.rest| < |s.rest| && r.value.next.rest == s.rest[|s.rest| - |r.value.next.rest|..]
    ensures r.Ok? || r == Err(UnexpectedEof) || r == Err(UnalignedByteRead)
    ensures s.Aligned() ==> r.Ok? || r == Err(UnexpectedEof)
    decreases |s.rest|
  {
    var part :- ReadU8From(s);
    var total := acc + part.value as nat;
    if part.value == 255 then RunLengthFrom(part.next, total) else Ok(Step(total, part.next))
  }

  /** `read_run_length`: one plus the bytes read. */
  function ReadRunLength(s: BitState): (r: Result<Step<nat>>)
    requires s.Valid()
    ensures r.Ok? ==> r.value.value >= 1 && r.value.next.position == s.position
    ensures s.Aligned() ==> r.Ok? || r == Err(UnexpectedEof)
  {
    RunLengthFrom(s, 1)
  }

  /** The palette: `n` CPIXELs read one after the other. */
  function ReadPalette(s: BitState, n: nat, cfg: PixelConfig, acc: seq<seq<byte>>): (r: Result<Step<seq<seq<byte>>>>)
    requires s.Valid()
    requires WholeEntries(acc)
    ensures r.Ok? ==> |r.value.value| == |acc| + n
    ensures r.Ok? ==> WholeEntries(r.value.value)
    ensures r.Ok? ==> r.value.next.position == s.position
    ensures s.Aligned() ==> r != Err(UnalignedBitRead) && r != Err(UnalignedByteRead)
    decreases n
  {
    if n == 0 then Ok(Step(acc, s))
    else
      var entry :- ReadPixel(s, cfg.pad, cfg.cbpp);
      ReadPalette(entry.next, n - 1, cfg, acc + [entry.value])
  }

  /** Sub-encoding (raw, palette size 0): `n` CPIXELs, each emitted as `bpp` bytes. */
  function RawPixels(s: BitState, n: nat, cfg: PixelConfig, acc: seq<byte>): (r: Result<Step<seq<byte>>>)
    requires s.Valid()
    ensures r.Ok? ==> |r.value.value| == |acc| + n * cfg.bpp
    ensures r.Ok? ==> r.value.next.position == s.position
    ensures s.Aligned() ==> r != Err(UnalignedBitRead) && r != Err(UnalignedByteRead)
    ensures r != Err(BadSubencoding)
    decreases n
  {
    if n == 0 then Ok(Step(acc, s))
    else
      var entry :- ReadPixel(s, cfg.pad, cfg.cbpp);
      var px :- PixelBytes(entry.value, cfg.bpp);
      RawPixels(entry.next, n - 1, cfg, acc + px)
  }

  /** Sub-encoding (solid, palette size 1): the one palette colour, `n` times. */
  function SolidPixels(colour: seq<byte>, n: nat, bpp: nat): (r: Result<seq<byte>>)
    requires |colour| == 4
    ensures r.Ok? ==> |r.value| == n * bpp
    ensures n > 0 ==> (r.Ok? <==> bpp <= 4)
  {
    if n == 0 then Ok([])
    else
      var px :- PixelBytes(colour, bpp);
      Ok(Repeat(px, n))
  }

  /** The width of a packed palette index for a palette of 2 to 16 colours. */
  function BitsPerIndex(size: nat): (bits: bv8)
    requires 2 <= size <= 16
    ensures bits == 1 || bits == 2 || bits == 4
    ensures size <= if bits == 1 then 2 else if bits == 2 then 4 else 16
  {
    if size == 2 then 1 else if size <= 4 then 2 else 4
  }

  /** One row of a packed-palette tile: `n` indices of `bits` bits each. */
  function PackedRow(s: BitState, palette: seq<seq<byte>>, bits: bv8, bpp: nat, n: nat, acc: seq<byte>)
    : (r: Result<Step<seq<byte>>>)
    requires s.Valid() && (bits == 1 || bits == 2 || bits == 4)
    requires WholeEntries(palette)
    ensures r.Ok? ==> |r.value.value| == |acc| + n * bpp
    ensures r.Ok? ==> r.value.next.Valid()
    ensures s.position % bits == 0 ==> r != Err(UnalignedBitRead)
    ensures r != Err(UnalignedByteRead)
    ensures s.position % bits == 0 && r.Ok? ==> r.value.next.position % bits == 0
    ensures r != Err(BadSubencoding)
    decreases n
  {
    if n == 0 then Ok(Step(acc, s))
    else
      var index :- ReadBitsFrom(s, bits);
      var colour :- PaletteColour(palette, index.value as nat, bpp);
      PackedRow(index.next, palette, bits, bpp, n - 1, acc + colour)
  }

  /** Sub-encoding (packed palette, 2 to 16 colours): `h` rows of `w` indices, each row starting
      on a byte boundary. */
  function PackedRows(s: BitState, palette: seq<seq<byte>>, bits: bv8, bpp: nat, w: nat, h: nat, acc: seq<byte>)
    : (r: Result<Step<seq<byte>>>)
    requires s.Valid() && (bits == 1 || bits == 2 || bits == 4)
    requires WholeEntries(palette)
    ensures s.Aligned() && r.Ok? ==> r.value.next.Aligned()
    ensures s.Aligned() ==> r != Err(UnalignedBitRead) && r != Err(UnalignedByteRead)
    ensures r != Err(BadSubencoding)
    decreases h
  {
    if h == 0 then Ok(Step(acc, s))
    else
      var row :- PackedRow(s, palette, bits, bpp, w, acc);
      PackedRows(AlignFrom(row.next), palette, bits, bpp, w, h - 1, row.value)
  }

  /** One run of an RLE tile: the 4-byte entry its pixels are cut from, and how many there are. */
  datatype Run = Run(entry: seq<byte>, length: nat)

  /** A run of plain RLE: a CPIXEL, then its run length. */
  function RawRun(s: BitState, cfg: PixelConfig): (r: Result<Step<Run>>)
    requires s.Valid()
    ensures r.Ok? ==> |r.value.value.entry| == 4 && r.value.value.length >= 1 && r.value.next.Valid()
    ensures s.Aligned() && r.Ok? ==> r.value.next.Aligned()
    ensures s.Aligned() ==> r != Err(UnalignedBitRead) && r != Err(UnalignedByteRead)
    ensures r != Err(BadSubencoding)
  {
    var entry :- ReadPixel(s, cfg.pad, cfg.cbpp);
    var length :- ReadRunLength(entry.next);
    Ok(Step(Run(entry.value, length.value), length.next))
  }

  /** A run of palette RLE: a flag bit and a 7-bit palette index, then a run length if the flag
      is set and a run of one otherwise; the index is looked up only then, and is not checked
      against the palette size. */
  function PaletteRun(s: BitState, palette: seq<seq<byte>>): (r: Result<Step<Run>>)
    requires s.Valid()
    requires WholeEntries(palette)
    ensures r.Ok? ==> |r.value.value.entry| == 4 && r.value.value.length >= 1 && r.value.next.Valid()
    ensures s.Aligned() && r.Ok? ==> r.value.next.Aligned()
    ensures s.Aligned() ==> r != Err(UnalignedBitRead) && r != Err(UnalignedByteRead)
    ensures r != Err(BadSubencoding)
  {
    var longer :- ReadBitFrom(s);
    var index :- ReadBitsFrom(longer.next, 7);
    var length :- if longer.value then ReadRunLength(index.next) else Ok(Step(1, index.next));
    if index.value as nat >= |palette| then Err(Panic(IndexOutOfBounds))
    else Ok(Step(Run(palette[index.value], length.value), length.next))
  }

  /** Reads one run of an RLE tile. */
  type RunReader = BitState --> Result<Step<Run>>

  /** The reader can be applied to every valid state and leaves a valid one; it yields a whole
      entry and a run of at least one pixel; from a byte boundary it ends on one and never reads
      across one; and it never reports a bad sub-encoding. */
  ghost predicate ReadsRuns(read: RunReader) {
    forall s: BitState {:trigger read(s)} {:trigger read.requires(s)} :: s.Valid() ==>
      && read.requires(s)
      && (read(s).Ok? ==> |read(s).value.value.entry| == 4 && read(s).value.value.length >= 1)
      && (read(s).Ok? ==> read(s).value.next.Valid())
      && (s.Aligned() && read(s).Ok? ==> read(s).value.next.Aligned())
      && (s.Aligned() ==> read(s) != Err(UnalignedBitRead) && read(s) != Err(UnalignedByteRead))
      && read(s) != Err(BadSubencoding)
  }

  function RawRuns(cfg: PixelConfig): (read: RunReader)
    ensures ReadsRuns(read)
  {
    (s: BitState) requires s.Valid() => RawRun(s, cfg)
  }

  function PaletteRuns(palette: seq<seq<byte>>): (read: RunReader)
    requires WholeEntries(palette)
    ensures ReadsRuns(read)
  {
    (s: BitState) requires s.Valid() => PaletteRun(s, palette)
  }

  /** The RLE sub-encodings: runs, each emitted as `length` copies of the first `bpp` bytes of its
      entry, until at least `total` pixels have been emitted; `count` is how many have been so far. */
  function Rle(s: BitState, read: RunReader, bpp: nat, total: nat, count: nat, acc: seq<byte>)
    : (r: Result<Step<seq<byte>>>)
    requires s.Valid() && ReadsRuns(read)
    ensures r.Ok? ==> r.value.next.Valid()
    ensures s.Aligned() && r.Ok? ==> r.value.next.Aligned()
    ensures s.Aligned() ==> r != Err(UnalignedBitRead) && r != Err(UnalignedByteRead)
    ensures r != Err(BadSubencoding)
    decreases total - count, 1
  {
    if count >= total then Ok(Step(acc, s))
    else RleAfter(read(s), read, bpp, total, count, acc)
  }

  /** What follows a run that `Rle` has read: its pixels are emitted and the walk goes on, or
      the error that cut the run short ends it. */
  function RleAfter(step: Result<Step<Run>>, read: RunReader, bpp: nat, total: nat, count: nat, acc: seq<byte>)
    : (r: Result<Step<seq<byte>>>)
    requires ReadsRuns(read) && count < total
    requires step.Ok? ==> step.value.next.Valid() && |step.value.value.entry| == 4 && step.value.value.length >= 1
    ensures r.Ok? ==> step.Ok? && r.value.next.Valid()
    ensures step.Ok? && step.value.next.Aligned() && r.Ok? ==> r.value.next.Aligned()
    ensures step.Ok? && step.value.next.Aligned() ==> r != Err(UnalignedBitRead) && r != Err(UnalignedByteRead)
    ensures step.Err? ==> r == Err(step.error)
    ensures step != Err(BadSubencoding) ==> r != Err(BadSubencoding)
    decreases total - count, 0
  {
    match step
    case Err(e) => Err(e)
    case Ok(Step(run, t)) =>
      match PixelBytes(run.entry, bpp)
      case Err(e) => Err(e)
      case Ok(px) => Rle(t, read, bpp, total, count + run.length, acc + Repeat(px, run.length))
  }

  /** Plain RLE (sub-encoding 128): runs of CPIXELs. From a byte boundary it ends on one and
      never reads across one, and it never reports a bad sub-encoding. */
  function RawRle(s: BitState, cfg: PixelConfig, total: nat, count: nat, acc: seq<byte>): (r: Result<Step<seq<byte>>>)
    requires s.Valid()
    ensures r.Ok? ==> r.value.next.Valid()
    ensures s.Aligned() ==> r != Err(UnalignedBitRead) && r != Err(UnalignedByteRead) && (r.Ok? ==> r.value.next.Aligned())
    ensures r != Err(BadSubencoding)
  {
    Rle(s, RawRuns(cfg), cfg.bpp, total, count, acc)
  }

  /** Palette RLE (sub-encodings 130 to 255): runs of palette indices. From a byte boundary
      it ends on one and never reads across one, and it never reports a bad sub-encoding. */
  function PaletteRle(s: BitState, palette: seq<seq<byte>>, bpp: nat, total: nat, count: nat, acc: seq<byte>)
    : (r: Result<Step<seq<byte>>>)
    requires s.Valid()
    requires WholeEntries(palette)
    ensures r.Ok? ==> r.value.next.Valid()
    ensures s.Aligned() ==> r != Err(UnalignedBitRead) && r != Err(UnalignedByteRead) && (r.Ok? ==> r.value.next.Aligned())
    ensures r != Err(BadSubencoding)
  {
    Rle(s, PaletteRuns(palette), bpp, total, count, acc)
  }

  /** The tile header: the RLE flag (top bit) and the palette size (low 7 bits). */
  datatype Header = Header(rle: bool, paletteSize: nat)

  function ReadHeader(s: BitState): (r: Result<Step<Header>>)
    requires s.Valid()
    ensures s.Aligned() ==> (r.Ok? <==> s.rest != [])
    ensures s.Aligned() && r.Ok? ==>
      && r.value.value == Header(s.rest[0] & 0x80 != 0, (s.rest[0] & 0x7f) as nat)
      && r.value.next == BitState(s.rest[1..], s.rest[0], 8)
    ensures r.Ok? ==> r.value.value.paletteSize < 128 && r.value.next.Valid()
  {
    var rle :- ReadBitFrom(s);
    var size :- ReadBitsFrom(rle.next, 7);
    Ok(Step(Header(rle.value, size.value as nat), size.next))
  }

  /** The sub-encoding a header names, or `BadSubencoding`. */
  predicate KnownSubencoding(h: Header) {
    if h.rle then h.paletteSize != 1 else h.paletteSize <= 16
  }

  /** One `width` x `height` tile: the header, the palette, then the pixels of its sub-encoding. */
  function DecodeTile(s: BitState, width: nat, height: nat, cfg: PixelConfig): (r: Result<Step<seq<byte>>>)
    requires s.Valid()
    ensures r.Ok? ==> r.value.next.Valid()
    ensures s.Aligned() && r.Ok? ==> r.value.next.Aligned()
    ensures s.Aligned() ==> r != Err(UnalignedBitRead) && r != Err(UnalignedByteRead)
  {
    var header :- ReadHeader(s);
    var palette :- ReadPalette(header.next, header.value.paletteSize, cfg, []);
    TilePixels(palette.next, header.value, palette.value, width, height, cfg)
  }

  /** A tile whose header and palette were read goes on with the pixels of its sub-encoding ... */
  lemma DecodeTileReads(s: BitState, width: nat, height: nat, cfg: PixelConfig, header: Header, t: BitState,
                        palette: seq<seq<byte>>, u: BitState)
    requires s.Valid()
    requires ReadHeader(s) == Ok(Step(header, t))
    requires ReadPalette(t, header.paletteSize, cfg, []) == Ok(Step(palette, u))
    ensures WholeEntries(palette) && |palette| == header.paletteSize && u.Valid()
    ensures DecodeTile(s, width, height, cfg) == TilePixels(u, header, palette, width, height, cfg)
  {
  }

  /** ... and one whose header or palette could not be read fails with that error. */
  lemma DecodeTileFails(s: BitState, width: nat, height: nat, cfg: PixelConfig, e: Error)
    requires s.Valid()
    requires ReadHeader(s) == Err(e) ||
      (ReadHeader(s).Ok? && ReadPalette(ReadHeader(s).value.next, ReadHeader(s).value.value.paletteSize, cfg, []) == Err(e))
    ensures DecodeTile(s, width, height, cfg) == Err(e)
  {
  }

  /** The pixels of a tile once its header and palette have been read. */
  function TilePixels(t: BitState, header: Header, palette: seq<seq<byte>>, width: nat, height: nat, cfg: PixelConfig)
    : (r: Result<Step<seq<byte>>>)
    requires t.Valid() && WholeEntries(palette) && |palette| == header.paletteSize
    ensures r.Ok? ==> r.value.next.Valid()
    ensures t.Aligned() && r.Ok? ==> r.value.next.Aligned()
    ensures t.Aligned() ==> r != Err(UnalignedBitRead) && r != Err(UnalignedByteRead)
  {
    var n := width * height;
    match header
    case Header(false, 0) => RawPixels(t, n, cfg, [])
    case Header(false, 1) =>
      var px :- SolidPixels(palette[0], n, cfg.bpp);
      Ok(Step(px, t))
    case Header(false, size) =>
      if size <= 16 then PackedRows(t, palette, BitsPerIndex(size), cfg.bpp, width, height, [])
      else Err(BadSubencoding)
    case Header(true, 0) => RawRle(t, cfg, n, 0, [])
    case Header(true, 1) => Err(BadSubencoding)
    case Header(true, _) => PaletteRle(t, palette, cfg.bpp, n, 0, [])
  }

  /** One run of RLE, while pixels are still missing ... */
  lemma RleStep(s: BitState, read: RunReader, bpp: nat, total: nat, count: nat, acc: seq<byte>,
                run: Run, t: BitState)
    requires s.Valid() && ReadsRuns(read) && count < total
    requires read(s) == Ok(Step(run, t)) && bpp <= 4
    ensures Rle(s, read, bpp, total, count, acc) ==
      Rle(t, read, bpp, total, count + run.length, acc + Repeat(run.entry[..bpp], run.length))
  {
  }

  /** ... or the error that cuts it short. */
  lemma RleFails(s: BitState, read: RunReader, bpp: nat, total: nat, count: nat, acc: seq<byte>)
    requires s.Valid() && ReadsRuns(read) && count < total
    requires read(s).Err? || bpp > 4
    ensures Rle(s, read, bpp, total, count, acc) ==
      if read(s).Err? then Err(read(s).error) else Err(Panic(SliceOutOfRange))
  {
  }
}
