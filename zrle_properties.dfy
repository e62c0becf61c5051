/**
 * Properties of the ZRLE decoder of src/zrle.rs, proved about the functions of ZrleSpec: what a
 * run length is, how long each kind of tile's pixel data is, what raw and solid tiles contain,
 * which tiles reach the consumer, and when the decoder keeps its inflater. Some lemmas exhibit
 * the places where the decoder departs from the ZRLE encoding as RFC 6143 describes it.
 */
module ZrleProperties {
  import opened Protocol
  import opened BitReading
  import opened ZrleTiles
  import opened ZrleSpec

  lemma {:induction false} SumPrepend(b: byte, c: seq<byte>)
    ensures Sum([b] + c) == b as nat + Sum(c)
    decreases |c|
  {
    if c == [] {
      assert [b] + c == [b];
      assert [b][..0] == [];
    } else {
      var last := c[|c| - 1];
      assert ([b] + c)[..|c|] == [b] + c[..|c| - 1];
      SumPrepend(b, c[..|c| - 1]);
    }
  }

  /** A run length is made of bytes of 255 followed by one byte that is not 255, and it is one
      more than their sum (`acc` is what has been added up before). */
  lemma {:induction false} RunLengthBytes(s: BitState, acc: nat)
    requires s.Valid() && RunLengthFrom(s, acc).Ok?
    ensures var r := RunLengthFrom(s, acc).value;
      var k := |s.rest| - |r.next.rest|;
      var consumed := s.rest[..k];
      && 1 <= k
      && consumed[k - 1] != 255
      && (forall i :: 0 <= i < k - 1 ==> consumed[i] == 255)
      && r.value == acc + Sum(consumed)
    decreases |s.rest|
  {
    var r := RunLengthFrom(s, acc).value;
    var t := s.(rest := s.rest[1..]);
    assert ReadU8From(s) == Ok(Step(s.rest[0], t));
    var k := |s.rest| - |r.next.rest|;
    if s.rest[0] == 255 {
      assert RunLengthFrom(s, acc) == RunLengthFrom(t, acc + 255);
      RunLengthBytes(t, acc + 255);
      var k' := |t.rest| - |r.next.rest|;
      assert k == k' + 1;
      var consumed, later := s.rest[..k], t.rest[..k'];
      assert consumed == [255] + later;
      assert consumed[k - 1] == later[k' - 1];
      assert forall i :: 1 <= i < k - 1 ==> consumed[i] == later[i - 1];
      SumPrepend(255, later);
    } else {
      assert r.next == t && k == 1;
      assert s.rest[..1] == [s.rest[0]];
      assert [s.rest[0]][..0] == [];
    }
  }

  /** From a byte boundary the only way a run length can fail is the data running out, and
      then every byte left was 255. */
  lemma {:induction false} RunLengthRunsOut(s: BitState, acc: nat)
    requires s.Valid() && s.Aligned() && RunLengthFrom(s, acc).Err?
    ensures RunLengthFrom(s, acc) == Err(UnexpectedEof)
    ensures forall i :: 0 <= i < |s.rest| ==> s.rest[i] == 255
    decreases |s.rest|
  {
    if s.rest != [] {
      var t := s.(rest := s.rest[1..]);
      assert ReadU8From(s) == Ok(Step(s.rest[0], t));
      assert s.rest[0] == 255;
      RunLengthRunsOut(t, acc + 255);
      forall i | 0 <= i < |s.rest| ensures s.rest[i] == 255 {
        if i > 0 { assert s.rest[i] == t.rest[i - 1]; }
      }
    }
  }

  /** `read_run_length` from a byte boundary: the run is at least one pixel long. */
  lemma RunLengthAtLeastOne(s: BitState)
    requires s.Valid() && ReadRunLength(s).Ok?
    ensures ReadRunLength(s).value.value >= 1 && |ReadRunLength(s).value.next.rest| < |s.rest|
  {
    RunLengthBytes(s, 1);
  }

  /** A packed-palette tile emits `bpp` bytes for each of its `w` x `h` pixels. */
  lemma {:induction false} PackedRowsLength(s: BitState, palette: seq<seq<byte>>, bits: bv8, bpp: nat, w: nat, h: nat, acc: seq<byte>)
    requires s.Valid() && (bits == 1 || bits == 2 || bits == 4)
    requires WholeEntries(palette)
    ensures var r := PackedRows(s, palette, bits, bpp, w, h, acc);
      r.Ok? ==> |r.value.value| == |acc| + w * h * bpp
    decreases h
  {
    if h > 0 {
      var row := PackedRow(s, palette, bits, bpp, w, acc);
      if row.Ok? {
        PackedRowsLength(AlignFrom(row.value.next), palette, bits, bpp, w, h - 1, row.value.value);
        assert w * h * bpp == w * bpp + w * (h - 1) * bpp;
      }
    }
  }

  /** Multiplication distributes over addition. */
  lemma Distribute(a: nat, b: nat, c: nat)
    ensures (a + b) * c == a * c + b * c
  {
  }

  /** An RLE tile emits a whole number of pixels, at least as many as were still missing (the
      last run may go past the tile's size): the lemma names how many were emitted. */
  lemma {:induction false} RleLength(s: BitState, read: RunReader, bpp: nat, total: nat, count: nat, acc: seq<byte>,
                                     r: Result<Step<seq<byte>>>) returns (pixels: nat)
    requires s.Valid() && ReadsRuns(read)
    requires r == Rle(s, read, bpp, total, count, acc)
    ensures r.Ok? ==> count + pixels >= total && |r.value.value| == |acc| + pixels * bpp
    decreases total - count
  {
    pixels := 0;
    if count < total {
      var run := read(s);
      if run.Ok? && bpp <= 4 {
        var Step(Run(entry, length), t) := run.value;
        var grown := acc + Repeat(entry[..bpp], length);
        assert |grown| == |acc| + length * bpp;
        RleStep(s, read, bpp, total, count, acc, run.value.value, t);
        var more := RleLength(t, read, bpp, total, count + length, grown, r);
        pixels := length + more;
        Distribute(length, more, bpp);
      } else {
        RleFails(s, read, bpp, total, count, acc);
      }
    }
  }

  /** The length of a decoded tile: exactly `width * height` pixels for the raw, solid and
      packed sub-encodings, and at least that many for the RLE ones. */
  lemma TileLength(s: BitState, width: nat, height: nat, cfg: PixelConfig)
    requires s.Valid() && s.Aligned() && s.rest != []
    ensures var r := DecodeTile(s, width, height, cfg);
      r.Ok? && s.rest[0] & 0x80 == 0 ==> |r.value.value| == width * height * cfg.bpp
    ensures var r := DecodeTile(s, width, height, cfg);
      r.Ok? && s.rest[0] & 0x80 != 0 ==>
        exists runs: nat :: runs >= width * height && |r.value.value| == runs * cfg.bpp
  {
    var header := ReadHeader(s).value;
    var palette := ReadPalette(header.next, header.value.paletteSize, cfg, []);
    if palette.Ok? {
      var t, n := palette.value.next, width * height;
      match header.value
      case Header(false, 0) =>
      case Header(false, 1) =>
      case Header(false, size) =>
        if size <= 16 {
          PackedRowsLength(t, palette.value.value, BitsPerIndex(size), cfg.bpp, width, height, []);
        }
      case Header(true, 0) =>
        var pixels := RleLength(t, RawRuns(cfg), cfg.bpp, n, 0, [], RawRle(t, cfg, n, 0, []));
      case Header(true, 1) =>
      case Header(true, _) =>
        var pixels := RleLength(t, PaletteRuns(palette.value.value), cfg.bpp, n, 0, [], PaletteRle(t, palette.value.value, cfg.bpp, n, 0, []));
    }
  }

  /** The tile header decides the sub-encoding: once the header and the palette have been read,
      the tile fails with `BadSubencoding` exactly when the header names none. */
  lemma BadSubencodingExactly(s: BitState, width: nat, height: nat, cfg: PixelConfig)
    requires s.Valid() && s.Aligned() && s.rest != []
    requires ReadPalette(BitState(s.rest[1..], s.rest[0], 8), (s.rest[0] & 0x7f) as nat, cfg, []).Ok?
    ensures DecodeTile(s, width, height, cfg) == Err(BadSubencoding)
      <==> !KnownSubencoding(Header(s.rest[0] & 0x80 != 0, (s.rest[0] & 0x7f) as nat))
  {
  }

  lemma SplitAt(acc: seq<byte>, a: seq<byte>, i: nat, m: nat)
    requires i + m <= |a|
    ensures (acc + a[..i]) + a[i..][..m] == acc + a[..i + m]
    ensures a[i..][m..] == a[i + m..]
  {
    assert a[..i] + a[i..][..m] == a[..i + m];
  }

  /** One raw pixel read from a byte boundary, with CPIXELs as wide as pixels and unpadded. */
  lemma RawPixelsStep(s: BitState, n: nat, cfg: PixelConfig, acc: seq<byte>)
    requires s.Valid() && s.Aligned()
    requires cfg.cbpp == cfg.bpp <= 4 && !cfg.pad && n > 0 && cfg.bpp <= |s.rest|
    ensures RawPixels(s, n, cfg, acc)
      == RawPixels(s.(rest := s.rest[cfg.bpp..]), n - 1, cfg, acc + s.rest[..cfg.bpp])
  {
    var bpp := cfg.bpp;
    var t := s.(rest := s.rest[bpp..]);
    assert ReadExactFrom(s, bpp) == Ok(Step(s.rest[..bpp], t));
    assert ReadPixel(s, false, bpp) == Ok(Step(s.rest[..bpp] + Zeros(4 - bpp), t));
    assert (s.rest[..bpp] + Zeros(4 - bpp))[..bpp] == s.rest[..bpp];
  }

  lemma OneMore(n: nat, b: nat)
    ensures (n + 1) * b == b + n * b
  {
  }

  /** With CPIXELs as wide as pixels and unpadded, a raw tile's pixels are the next
      `n * bpp` bytes of the stream, unchanged. */
  lemma {:induction false} RawPixelsCopyTheStream(s: BitState, n: nat, cfg: PixelConfig, acc: seq<byte>)
    requires s.Valid() && s.Aligned()
    requires cfg.cbpp == cfg.bpp <= 4 && !cfg.pad && n * cfg.bpp <= |s.rest|
    ensures RawPixels(s, n, cfg, acc) == Ok(Step(acc + s.rest[..n * cfg.bpp], s.(rest := s.rest[n * cfg.bpp..])))
    decreases n
  {
    var bpp := cfg.bpp;
    if n > 0 {
      var t := s.(rest := s.rest[bpp..]);
      var m := (n - 1) * bpp;
      OneMore(n - 1, bpp);
      assert n * bpp == bpp + m;
      RawPixelsStep(s, n, cfg, acc);
      RawPixelsCopyTheStream(t, n - 1, cfg, acc + s.rest[..bpp]);
      SplitAt(acc, s.rest, bpp, m);
      assert t.rest[..m] == s.rest[bpp..][..m] && t.rest[m..] == s.rest[bpp + m..];
    } else {
      assert s.rest[..0] == [] && acc + [] == acc;
    }
  }

  /** ... and when the stream holds fewer than `n * bpp` bytes the tile is cut short. */
  lemma {:induction false} RawPixelsRunOut(s: BitState, n: nat, cfg: PixelConfig, acc: seq<byte>)
    requires s.Valid() && s.Aligned()
    requires cfg.cbpp == cfg.bpp <= 4 && !cfg.pad && n * cfg.bpp > |s.rest|
    ensures RawPixels(s, n, cfg, acc) == Err(UnexpectedEof)
    decreases n
  {
    var bpp := cfg.bpp;
    assert n > 0;
    assert n * bpp == bpp + (n - 1) * bpp;
    if bpp <= |s.rest| {
      RawPixelsStep(s, n, cfg, acc);
      RawPixelsRunOut(s.(rest := s.rest[bpp..]), n - 1, cfg, acc + s.rest[..bpp]);
    }
  }

  /** A solid tile (header byte 1) is one CPIXEL from the stream, repeated over the tile. */
  lemma SolidTile(s: BitState, width: nat, height: nat, cfg: PixelConfig)
    requires s.Valid() && s.Aligned() && |s.rest| > cfg.cbpp && s.rest[0] == 0x01
    requires !cfg.pad && cfg.bpp <= cfg.cbpp <= 4 && width * height > 0
    ensures DecodeTile(s, width, height, cfg)
      == Ok(Step(Repeat(s.rest[1..1 + cfg.bpp], width * height), BitState(s.rest[1 + cfg.cbpp..], 0x01, 8)))
  {
    var t := BitState(s.rest[1..], s.rest[0], 8);
    assert ReadHeader(s) == Ok(Step(Header(false, 1), t));
    var entry := ReadPixel(t, false, cfg.cbpp);
    assert entry.Ok? && entry.value.value[..cfg.bpp] == s.rest[1..1 + cfg.bpp];
    assert entry.value.next == BitState(s.rest[1 + cfg.cbpp..], 0x01, 8);
    assert [] + [entry.value.value] == [entry.value.value];
    assert ReadPalette(t, 1, cfg, []) == Ok(Step([entry.value.value], entry.value.next));
  }

  /** A plain-RLE run may overshoot the tile: a 1 x 1 tile whose only run is 4 pixels long yields
      four pixels, and the decoder accepts it. */
  lemma RleRunOvershoots()
    ensures DecodeTile(BitState([0x80, 1, 2, 3, 3], 0, 8), 1, 1, PixelConfig(4, 3, false))
      == Ok(Step(Repeat([1, 2, 3, 0], 4), BitState([], 0x80, 8)))
  {
    var s := BitState([0x80, 1, 2, 3, 3], 0, 8);
    var cfg := PixelConfig(4, 3, false);
    var t := BitState([1, 2, 3, 3], 0x80, 8);
    assert ReadHeader(s) == Ok(Step(Header(true, 0), t));
    assert ReadPalette(t, 0, cfg, []) == Ok(Step([], t));
    var u := BitState([3], 0x80, 8);
    assert t.rest[..3] == [1, 2, 3] && t.rest[3..] == [3];
    assert ReadExactFrom(t, 3) == Ok(Step([1, 2, 3], u));
    assert Zeros(0) + [1, 2, 3] + Zeros(1) == [1, 2, 3, 0];
    assert ReadPixel(t, false, 3) == Ok(Step([1, 2, 3, 0], u));
    assert ReadRunLength(u) == Ok(Step(4, BitState([], 0x80, 8)));
    var colour: seq<byte> := [1, 2, 3, 0];
    assert colour[..4] == colour;
    assert RawRun(t, cfg) == Ok(Step(Run(colour, 4), BitState([], 0x80, 8)));
    assert [] + Repeat([1, 2, 3, 0], 4) == Repeat([1, 2, 3, 0], 4);
  }

  /** Packed palette indices are not checked against the palette size: a 2-bit index of 3 into
      a palette of three colours makes the decoder panic instead of reporting an error. */
  lemma PaletteIndexUnchecked()
    ensures DecodeTile(BitState([0x03, 1, 1, 1, 2, 2, 2, 3, 3, 3, 0xc0], 0, 8), 1, 1, PixelConfig(4, 3, false))
      == Err(Panic(IndexOutOfBounds))
  {
    var s := BitState([0x03, 1, 1, 1, 2, 2, 2, 3, 3, 3, 0xc0], 0, 8);
    var cfg := PixelConfig(4, 3, false);
    var t := BitState(s.rest[1..], 0x03, 8);
    assert ReadHeader(s) == Ok(Step(Header(false, 3), t));
    var u := BitState([0xc0], 0x03, 8);
    var palette := ReadPalette(t, 3, cfg, []);
    assert palette.Ok? && palette.value.next == u && |palette.value.value| == 3;
    assert |u.rest[1..]| == 0;
    assert Refill(u) == Ok(BitState([], 0xc0, 0));
    assert Field(0xc0, 0, 2) == 3;
    assert ReadBitsFrom(u, 2) == Ok(Step(3, BitState([], 0xc0, 2)));
    var colours := palette.value.value;
    assert PaletteColour(colours, 3, 4) == Err(Panic(IndexOutOfBounds));
    assert PackedRow(u, colours, 2, 4, 1, []) == Err(Panic(IndexOutOfBounds));
    assert PackedRows(u, colours, 2, 4, 1, 1, []) == Err(Panic(IndexOutOfBounds));
  }

  /** A padded CPIXEL is read as only two bytes: the slice `entry[1..3]` stops one byte short of
      the three bytes RFC 6143 puts in a compressed pixel. */
  lemma PaddedPixelReadsTwoBytes(s: BitState)
    requires s.Valid() && s.Aligned() && |s.rest| >= 2
    ensures ReadPixel(s, true, 3) == Ok(Step([0, s.rest[0], s.rest[1], 0], s.(rest := s.rest[2..])))
  {
    assert ReadExactFrom(s, 2) == Ok(Step(s.rest[..2], s.(rest := s.rest[2..])));
    assert Zeros(1) + s.rest[..2] + Zeros(1) == [0, s.rest[0], s.rest[1], 0];
  }

  /** Outside the 32-bit true-colour case a CPIXEL is taken to be twice as wide as a pixel, where
      RFC 6143 makes it exactly as wide: 16-bit pixels are read from 4-byte CPIXELs. */
  lemma CompressedPixelDoubleWidth(f: PixelFormat)
    requires PixelMask(f).Ok? && !Packable(f) && f.bitsPerPixel % 8 == 0
    ensures CompressedPixel(f).Ok?
    ensures CompressedPixel(f).value.cbpp == 2 * CompressedPixel(f).value.bpp
  {
  }

  /** For the common depth-24 layouts the CPIXEL has 3 bytes, padded in front when the colour
      bits sit in the top three bytes of a little-endian pixel; at depth 32 the format falls
      outside the 3-byte case and the CPIXEL is taken to be 8 bytes. */
  lemma CompressedPixelDepth24()
    ensures CompressedPixel(PixelFormat(32, 24, false, true, 255, 255, 255, 16, 8, 0)) == Ok(PixelConfig(4, 3, false))
    ensures CompressedPixel(PixelFormat(32, 24, false, true, 255, 255, 255, 24, 16, 8)) == Ok(PixelConfig(4, 3, true))
    ensures CompressedPixel(PixelFormat(32, 24, true, true, 255, 255, 255, 16, 8, 0)) == Ok(PixelConfig(4, 3, true))
    ensures CompressedPixel(PixelFormat(32, 32, false, true, 255, 255, 255, 16, 8, 0)) == Ok(PixelConfig(4, 8, false))
  {
    assert PixelMask(PixelFormat(32, 24, false, true, 255, 255, 255, 16, 8, 0)) == Ok(0x00ff_ffff);
    assert PixelMask(PixelFormat(32, 24, false, true, 255, 255, 255, 24, 16, 8)) == Ok(0xffff_ff00);
  }

  /** A 32-bit true-colour format of depth 32 gets 8-byte CPIXELs, where RFC 6143 reads 4: every
      CPIXEL read slices past the 4-byte entry and aborts, so no tile of such a format decodes. */
  lemma Depth32PixelPanics(f: PixelFormat, s: BitState)
    requires s.Valid() && PixelMask(f).Ok?
    requires f.bitsPerPixel == 32 && f.depth > 24
    ensures CompressedPixel(f).Ok? && CompressedPixel(f).value.cbpp == 8
    ensures ReadPixel(s, CompressedPixel(f).value.pad, CompressedPixel(f).value.cbpp) == Err(Panic(SliceOutOfRange))
  {
  }
}
