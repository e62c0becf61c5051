/**
 * The client's cursor: the expansion of an RFB cursor's mask bitmap (one bit
 * per pixel, each row padded to whole bytes, most significant bit first) into
 * one mask byte per pixel, and `mask_cursor`, which re-encodes the cursor's
 * pixels in a format with an alpha channel, opaque where the mask byte is
 * nonzero and transparent elsewhere.
 *
 * The expansion as written emits eight mask bytes for every byte of the bitmap,
 * padding bits included, while `mask_cursor` takes one mask byte per pixel; for
 * a width that is not a multiple of 8 the rows drift apart. `ExpandMask`
 * models the loops as written, `ExpandMaskRows` the expansion that keeps one
 * mask byte per pixel.
 */
module Cursor {
  import opened Protocol
  import opened PixelFormats

  /** Bit `k` (0 the least significant) of `b` is set. */
  predicate Bit(b: byte, k: nat)
    requires k < 8
  {
    (b >> k) & 1 == 1
  }

  /** `b & (1 << (7 - w))`: the mask byte for the `w`-th pixel, from the left, of the eight
      that the bitmap byte `b` covers. */
  function MaskBit(b: byte, w: nat): (m: byte)
    requires w < 8
    ensures m != 0 <==> Bit(b, 7 - w)
  {
    b & ((1 as bv8) << (7 - w))
  }

  /** The number of bytes of a row of the mask bitmap of a cursor `width` pixels wide. */
  function MaskStride(width: nat): nat {
    (width + 7) / 8
  }

  /** The mask bytes of the expansion as written: for each of the first `height * stride`
      bytes of the bitmap, eight mask bytes. The stride and each byte index are computed as
      `u16`: a width whose `width + 7` passes 0xFFFF aborts the client, and so does reaching
      byte index 0x1_0000; a bitmap that runs out before that aborts it too. */
  function ExpandedMask(width: nat, height: nat, bits: seq<byte>): (r: Result<seq<byte>>)
    ensures r.Ok? <==> width + 7 <= 0xFFFF && height * MaskStride(width) <= |bits| && height * MaskStride(width) <= 0x1_0000
    ensures r.Ok? ==> |r.value| == 8 * (height * MaskStride(width))
    ensures r == Err(Panic(IndexOutOfBounds)) <==>
              width + 7 <= 0xFFFF && |bits| < height * MaskStride(width) && |bits| <= 0xFFFF
    ensures r.Err? ==> r.error in {Panic(IndexOutOfBounds), Panic(ArithmeticOverflow)}
  {
    var n := height * MaskStride(width);
    if width + 7 > 0xFFFF then Err(Panic(ArithmeticOverflow))
    // the first index past a bitmap of at most 0xFFFF bytes is still a `u16`
    else if |bits| < n && |bits| <= 0xFFFF then Err(Panic(IndexOutOfBounds))
    // index 0x1_0000 is reached before the end
    else if n > 0x1_0000 then Err(Panic(ArithmeticOverflow))
    else Ok(seq(8 * n, i requires 0 <= i < 8 * n => MaskBit(bits[i / 8], i % 8)))
  }

  /** `pixels` are the mask bytes of the first `count` bytes of the bitmap, eight each. */
  ghost predicate Expands(pixels: seq<byte>, bits: seq<byte>, count: nat) {
    && count <= |bits| && |pixels| == 8 * count
    && forall i :: 0 <= i < |pixels| ==> pixels[i] == MaskBit(bits[i / 8], i % 8)
  }

  /** The eight mask bytes of the next bitmap byte extend the expansion by one byte. */
  lemma ExpandsStep(pixels: seq<byte>, bits: seq<byte>, count: nat, expanded: seq<byte>)
    requires Expands(pixels, bits, count) && count < |bits|
    requires |expanded| == 8 && forall w :: 0 <= w < 8 ==> expanded[w] == MaskBit(bits[count], w)
    ensures Expands(pixels + expanded, bits, count + 1)
  {
    var grown := pixels + expanded;
    forall i | 8 * count <= i < |grown|
      ensures grown[i] == MaskBit(bits[i / 8], i % 8)
    {
      assert i / 8 == count && i % 8 == i - 8 * count;
    }
  }

  /** The mask expansion of the cursor event, as written: rows `y`, bitmap bytes `x` of the
      row, bits `w` of the byte, one mask byte each. */
  method ExpandMask(width: U16, height: U16, bits: seq<byte>) returns (r: Result<seq<byte>>)
    requires width > 0 && height > 0
    ensures r == ExpandedMask(width, height, bits)
  {
    if width + 7 > 0xFFFF {
      return Err(Panic(ArithmeticOverflow));
    }
    var stride := (width + 7) / 8;
    var pixels: seq<byte> := [];
    ghost var row: nat := 0;
    var y := 0;
    while y < height
      invariant y <= height && row == y * stride && row <= 0x1_0000
      invariant Expands(pixels, bits, row)
      decreases height - y
    {
      var x := 0;
      StrideBound(y, height, stride);
      while x < stride
        invariant x <= stride && row + x <= 0x1_0000
        invariant Expands(pixels, bits, row + x)
        decreases stride - x
      {
        var index := y * stride + x;
        if index > 0xFFFF {
          return Err(Panic(ArithmeticOverflow));
        }
        if index >= |bits| {
          return Err(Panic(IndexOutOfBounds));
        }
        var expanded := ExpandByte(bits[index]);
        ExpandsStep(pixels, bits, index, expanded);
        pixels := pixels + expanded;
        x := x + 1;
      }
      row := row + stride;
      y := y + 1;
    }
    ghost var n := height * MaskStride(width);
    assert pixels == seq(8 * n, i requires 0 <= i < 8 * n => MaskBit(bits[i / 8], i % 8));
    r := Ok(pixels);
  }

  /** The eight mask bytes of bitmap byte `b`, leftmost pixel first. */
  method ExpandByte(b: byte) returns (expanded: seq<byte>)
    ensures |expanded| == 8
    ensures forall w :: 0 <= w < 8 ==> expanded[w] == MaskBit(b, w)
  {
    expanded := [];
    var w := 0;
    while w < 8
      invariant w <= 8 && |expanded| == w
      invariant forall k :: 0 <= k < w ==> expanded[k] == MaskBit(b, k)
      decreases 8 - w
    {
      expanded := expanded + [b & ((1 as bv8) << (7 - w))];
      w := w + 1;
    }
  }

  /** `y * stride + stride` is at most `height * stride` for a row `y` above the last. */
  lemma {:induction false} StrideBound(y: nat, height: nat, stride: nat)
    requires y < height
    ensures y * stride + stride == (y + 1) * stride <= height * stride
    decreases height - y
  {
    if y + 1 < height {
      StrideBound(y + 1, height, stride);
    }
  }

  /** The expansion as written yields eight mask bytes per bitmap byte, and the byte for bit
      `w` of bitmap byte `x` of row `y` is nonzero exactly when bit `7 - w` of that bitmap
      byte is set. */
  lemma ExpandedMaskEntries(width: nat, height: nat, bits: seq<byte>, y: nat, x: nat, w: nat)
    requires y < height && x < MaskStride(width) && w < 8
    ensures var stride := MaskStride(width); var r := ExpandedMask(width, height, bits);
      r.Ok? ==>
        && |r.value| == 8 * (height * stride)
        && y * stride + x < height * stride <= |bits|
        && (r.value[8 * (y * stride + x) + w] != 0 <==> Bit(bits[y * stride + x], 7 - w))
  {
    var stride := MaskStride(width);
    StrideBound(y, height, stride);
    var i := 8 * (y * stride + x) + w;
    assert i / 8 == y * stride + x && i % 8 == w;
  }

  /** One row of the corrected expansion: a mask byte for each of the `width` pixels of the row
      whose bitmap starts at `start`. */
  function RowBits(bits: seq<byte>, start: nat, width: nat): (row: seq<byte>)
    requires start + MaskStride(width) <= |bits|
    ensures |row| == width
  {
    seq(width, x requires 0 <= x < width => MaskBit(bits[start + x / 8], x % 8))
  }

  /** The first `y` rows of the corrected expansion. */
  function RowsBefore(bits: seq<byte>, width: nat, y: nat): (rows: seq<byte>)
    requires y * MaskStride(width) <= |bits|
    ensures |rows| == y * width
  {
    if y == 0 then []
    else
      assert (y - 1) * MaskStride(width) + MaskStride(width) == y * MaskStride(width);
      RowsBefore(bits, width, y - 1) + RowBits(bits, (y - 1) * MaskStride(width), width)
  }

  /** The corrected expansion: a mask byte per pixel, row by row; a bitmap shorter than the
      rows need is an error, as it is for the expansion as written. */
  function RowMask(width: nat, height: nat, bits: seq<byte>): (r: Result<seq<byte>>)
    ensures r.Ok? <==> height * MaskStride(width) <= |bits|
    ensures r.Ok? ==> |r.value| == height * width
    ensures r.Err? ==> r.error == Panic(IndexOutOfBounds)
  {
    if |bits| < height * MaskStride(width) then Err(Panic(IndexOutOfBounds))
    else Ok(RowsBefore(bits, width, height))
  }

  /** The corrected expansion with the loops of the original: rows `y`, pixels `x` of the row,
      each taking its bit of bitmap byte `x / 8` of the row. */
  method ExpandMaskRows(width: U16, height: U16, bits: seq<byte>) returns (r: Result<seq<byte>>)
    requires width > 0 && height > 0
    ensures r == RowMask(width, height, bits)
  {
    var stride := (width + 7) / 8;
    var pixels: seq<byte> := [];
    var y := 0;
    while y < height
      invariant y <= height && y * stride <= |bits|
      invariant pixels == RowsBefore(bits, width, y)
      decreases height - y
    {
      var start := y * stride;
      if start + stride > |bits| {
        StrideBound(y, height, stride);
        return Err(Panic(IndexOutOfBounds));
      }
      var row := ExpandRow(bits, start, width);
      pixels := pixels + row;
      StrideBound(y, height, stride);
      y := y + 1;
    }
    r := Ok(pixels);
  }

  /** One row of the corrected expansion: pixels `x` of the row, each taking its bit of bitmap
      byte `x / 8` of the row that starts at `start`. */
  method ExpandRow(bits: seq<byte>, start: nat, width: nat) returns (row: seq<byte>)
    requires start + MaskStride(width) <= |bits|
    ensures row == RowBits(bits, start, width)
  {
    row := [];
    var x := 0;
    while x < width
      invariant x <= width && |row| == x
      invariant forall k :: 0 <= k < x ==> row[k] == MaskBit(bits[start + k / 8], k % 8)
      decreases width - x
    {
      row := row + [bits[start + x / 8] & ((1 as bv8) << (7 - x % 8))];
      x := x + 1;
    }
  }

  /** The first `y` rows of the corrected expansion are a prefix of the first `h`. */
  lemma {:induction false} RowsPrefix(bits: seq<byte>, width: nat, y: nat, h: nat)
    requires y <= h && h * MaskStride(width) <= |bits|
    ensures y * MaskStride(width) <= |bits|
    ensures RowsBefore(bits, width, y) <= RowsBefore(bits, width, h)
    decreases h - y
  {
    if y < h {
      StrideBound(y, h, MaskStride(width));
      RowsPrefix(bits, width, y + 1, h);
    }
  }

  /** The corrected expansion yields one mask byte per pixel, and the byte of pixel `(x, y)`
      is nonzero exactly when the pixel's bit of the bitmap is set. */
  lemma RowMaskEntries(width: nat, height: nat, bits: seq<byte>, y: nat, x: nat)
    requires y < height && x < width && height * MaskStride(width) <= |bits|
    ensures var stride := MaskStride(width); var rows := RowsBefore(bits, width, height);
      && |rows| == height * width
      && y * width + x < height * width
      && y * stride + x / 8 < |bits|
      && (rows[y * width + x] != 0 <==> Bit(bits[y * stride + x / 8], 7 - x % 8))
  {
    var stride := MaskStride(width);
    StrideBound(y, height, stride);
    StrideBound(y, height, width);
    RowsPrefix(bits, width, y + 1, height);
    LastRowEntry(bits, width, y, x);
  }

  /** Pixel `x` of row `y` is the last row's `x`-th byte in the first `y + 1` rows. */
  lemma LastRowEntry(bits: seq<byte>, width: nat, y: nat, x: nat)
    requires x < width && y * MaskStride(width) + MaskStride(width) <= |bits|
    ensures (y + 1) * MaskStride(width) <= |bits|
    ensures y * MaskStride(width) + x / 8 < |bits|
    ensures var rows := RowsBefore(bits, width, y + 1);
      |rows| == y * width + width &&
      rows[y * width + x] == MaskBit(bits[y * MaskStride(width) + x / 8], x % 8)
  {
    var stride := MaskStride(width);
    assert (y + 1) * stride == y * stride + stride;
    assert (y + 1) * width == y * width + width;
    var before := RowsBefore(bits, width, y);
    var row := RowBits(bits, y * stride, width);
    assert RowsBefore(bits, width, y + 1) == before + row;
  }

  /** A 1-pixel-wide, 2-row cursor whose bitmap marks both pixels opaque. */
  function NarrowCursorBits(): seq<byte> {
    [0x80, 0x80]
  }

  /** As written, the second pixel of that cursor takes the mask byte of a padding bit of the
      first row and is transparent, though its bit is set; the corrected expansion gives it
      its own bit. */
  lemma MaskRowsDrift()
    ensures ExpandedMask(1, 2, NarrowCursorBits()).Ok? && ExpandedMask(1, 2, NarrowCursorBits()).value[1] == 0
    ensures Bit(NarrowCursorBits()[1 * MaskStride(1) + 0], 7)
    ensures RowMask(1, 2, NarrowCursorBits()) == Ok([0x80, 0x80])
  {
    var bits := NarrowCursorBits();
    assert MaskStride(1) == 1;
    assert ExpandedMask(1, 2, bits).value[1] == MaskBit(bits[0], 1);
    assert RowBits(bits, 0, 1) == [0x80];
    assert RowBits(bits, 1, 1) == [0x80];
    assert RowsBefore(bits, 1, 1) == [0x80];
    assert RowsBefore(bits, 1, 2) == RowsBefore(bits, 1, 1) + RowBits(bits, 1, 1) == [0x80, 0x80];
  }

  /** A colour with its alpha channel. */
  datatype Color = Color(r: byte, g: byte, b: byte, a: byte)

  /** A channel of an SDL pixel format: its mask, and the shift that is the mask's
      `trailing_zeros`. */
  datatype Channel = Channel(mask: bv32, shift: bv32)

  /** `shift` is the position of the lowest set bit of the nonzero `mask`. */
  predicate LowestBit(c: Channel) {
    c.shift < 32 && (c.mask >> c.shift) & 1 == 1 && c.mask & ((1 << c.shift) - 1) == 0
  }

  /** The channels of an SDL pixel format. */
  datatype PixelMasks = PixelMasks(red: Channel, green: Channel, blue: Channel, alpha: Channel)

  /** Every channel's shift is less than 32, so shifting by it does not overflow. */
  predicate Shifts(masks: PixelMasks) {
    masks.red.shift < 32 && masks.green.shift < 32 && masks.blue.shift < 32 && masks.alpha.shift < 32
  }

  /** The channel masks the cursor is read with and written with: SDL's masks of the two
      formats, each with its trailing-zero count. */
  predicate UsableMasks(inMasks: PixelMasks, outMasks: PixelMasks) {
    && LowestBit(inMasks.red) && LowestBit(inMasks.green) && LowestBit(inMasks.blue)
    && LowestBit(outMasks.red) && LowestBit(outMasks.green) && LowestBit(outMasks.blue) && LowestBit(outMasks.alpha)
  }

  /** The number a little-endian byte string stands for, cut to its low 32 bits: the first
      byte is the least significant. */
  function ReadPacked(bytes: seq<byte>): (packed: bv32)
    ensures bytes == [] ==> packed == 0
  {
    if bytes == [] then 0 else (bytes[0] as bv32) | (ReadPacked(bytes[1..]) << 8)
  }

  /** The `size` low bytes of `packed`, least significant first. */
  function WritePacked(packed: bv32, size: nat): (bytes: seq<byte>)
    ensures |bytes| == size
  {
    if size == 0 then [] else [(packed & 0xFF) as byte] + WritePacked(packed >> 8, size - 1)
  }

  /** The first byte of `packed` written in `size` bytes, read back, is its low byte, and the
      rest is what the other `size - 1` bytes read back to, shifted up a byte. */
  lemma ReadFirstByte(packed: bv32, size: nat)
    requires size >= 1
    ensures ReadPacked(WritePacked(packed, size)) == (packed & 0xFF) | (ReadPacked(WritePacked(packed >> 8, size - 1)) << 8)
  {
    var bytes := WritePacked(packed, size);
    assert bytes[1..] == WritePacked(packed >> 8, size - 1);
    assert bytes[0] as bv32 == packed & 0xFF;
  }

  /** Written in 1 byte and read back, a value keeps its low byte. */
  lemma ReadBack1(packed: bv32)
    ensures ReadPacked(WritePacked(packed, 1)) == packed & 0xFF
  {
    ReadFirstByte(packed, 1);
    assert WritePacked(packed >> 8, 0) == [];
  }

  /** Written in 2 bytes and read back, a value keeps its low 2 bytes. */
  lemma ReadBack2(packed: bv32)
    ensures ReadPacked(WritePacked(packed, 2)) == packed & 0xFFFF
  {
    ReadFirstByte(packed, 2);
    ReadBack1(packed >> 8);
  }

  /** Written in 3 bytes and read back, a value keeps its low 3 bytes. */
  lemma ReadBack3(packed: bv32)
    ensures ReadPacked(WritePacked(packed, 3)) == packed & 0xFF_FFFF
  {
    ReadFirstByte(packed, 3);
    ReadBack2(packed >> 8);
  }

  /** Written in 4 bytes and read back, a value is unchanged. */
  lemma ReadBack4(packed: bv32)
    ensures ReadPacked(WritePacked(packed, 4)) == packed
  {
    ReadFirstByte(packed, 4);
    ReadBack3(packed >> 8);
  }

  /** `packed` can be written in `size` bytes: its bits above the lowest `size` bytes are
      clear (`FitsRoundTrip`). */
  predicate Fits(packed: bv32, size: nat) {
    if size >= 4 then true
    else if size == 3 then packed < 0x100_0000
    else if size == 2 then packed < 0x1_0000
    else if size == 1 then packed < 0x100
    else false
  }

  /** For 1 to 4 bytes, a value fits exactly when, written in that many bytes and read back,
      it is unchanged. */
  lemma FitsRoundTrip(packed: bv32, size: nat)
    requires 1 <= size <= 4
    ensures Fits(packed, size) <==> ReadPacked(WritePacked(packed, size)) == packed
  {
    if size == 4 {
      ReadBack4(packed);
    } else if size == 3 {
      FitsThreeBytes(packed);
    } else if size == 2 {
      FitsTwoBytes(packed);
    } else {
      FitsOneByte(packed);
    }
  }

  /** A value fits in 3 bytes exactly when it survives 3 bytes written and read back. */
  lemma FitsThreeBytes(packed: bv32)
    ensures Fits(packed, 3) <==> ReadPacked(WritePacked(packed, 3)) == packed
  {
    ReadBack3(packed);
    assert packed & 0xFF_FFFF == packed <==> packed < 0x100_0000;
  }

  /** A value fits in 2 bytes exactly when it survives 2 bytes written and read back. */
  lemma FitsTwoBytes(packed: bv32)
    ensures Fits(packed, 2) <==> ReadPacked(WritePacked(packed, 2)) == packed
  {
    ReadBack2(packed);
    assert packed & 0xFFFF == packed <==> packed < 0x1_0000;
  }

  /** A value fits in 1 byte exactly when it survives 1 byte written and read back. */
  lemma FitsOneByte(packed: bv32)
    ensures Fits(packed, 1) <==> ReadPacked(WritePacked(packed, 1)) == packed
  {
    ReadBack1(packed);
    assert packed & 0xFF == packed <==> packed < 0x100;
  }

  /** The pixel `packed` has none of the bits of channel `c` set. */
  predicate Unset(packed: bv32, c: Channel) {
    packed & c.mask == 0
  }

  /** One channel of a packed pixel: its masked bits, shifted down, cut to a byte; a pixel
      with none of the channel's bits set has the channel at zero. */
  function Extract(packed: bv32, c: Channel): (value: byte)
    requires c.shift < 32
    ensures Unset(packed, c) ==> value == 0
  {
    (((packed & c.mask) >> c.shift) & 0xFF) as byte
  }

  /** One channel of a colour, shifted into place and masked: it sets no bit outside the
      channel's mask. `PacksChannels` and `CursorColourRoundTrip` give what reading it back
      yields. */
  function Insert(value: byte, c: Channel): (packed: bv32)
    requires c.shift < 32
    ensures packed & !c.mask == 0
  {
    ((value as bv32) << c.shift) & c.mask
  }

  /** `read_color`: the pixel held in `bytes`, read in the machine's byte order (taken to be
      little endian), its channels taken by `masks`; SDL makes it opaque, and a channel none of
      whose bits is set reads as zero. */
  function ReadColor(bytes: seq<byte>, masks: PixelMasks): (c: Color)
    requires masks.red.shift < 32 && masks.green.shift < 32 && masks.blue.shift < 32
    ensures c.a == 0xFF
    ensures Unset(ReadPacked(bytes), masks.red) ==> c.r == 0
    ensures Unset(ReadPacked(bytes), masks.green) ==> c.g == 0
    ensures Unset(ReadPacked(bytes), masks.blue) ==> c.b == 0
  {
    var packed := ReadPacked(bytes);
    Color(Extract(packed, masks.red), Extract(packed, masks.green), Extract(packed, masks.blue), 0xFF)
  }

  /** The four channels of a colour, each inserted by its mask, in one packed pixel. */
  function Pack(c: Color, masks: PixelMasks): bv32
    requires Shifts(masks)
  {
    Insert(c.r, masks.red) | Insert(c.g, masks.green) | Insert(c.b, masks.blue) | Insert(c.a, masks.alpha)
  }

  /** `write_color`: the colour packed by `masks` and written in `size` bytes, which read back
      give the packed pixel; a packed value that does not fit in `size` bytes aborts the
      client. */
  function WriteColor(c: Color, size: nat, masks: PixelMasks): (r: Result<seq<byte>>)
    requires Shifts(masks)
    ensures r.Ok? ==> |r.value| == size
    ensures r.Err? ==> r.error == Panic(ValueTooWide)
  {
    var packed := Pack(c, masks);
    if Fits(packed, size) then Ok(WritePacked(packed, size)) else Err(Panic(ValueTooWide))
  }

  /** `write_color` aborts the client exactly when the packed colour does not fit in its
      bytes, and otherwise writes bytes that read back as the packed colour. */
  lemma WriteColorFits(c: Color, size: nat, masks: PixelMasks)
    requires Shifts(masks)
    ensures WriteColor(c, size, masks).Err? <==> !Fits(Pack(c, masks), size)
    ensures WriteColor(c, size, masks).Ok? && 1 <= size <= 4 ==> ReadPacked(WriteColor(c, size, masks).value) == Pack(c, masks)
  {
    if 1 <= size <= 4 {
      FitsRoundTrip(Pack(c, masks), size);
    }
  }

  /** No two channels share a bit. */
  predicate Disjoint(masks: PixelMasks) {
    && masks.red.mask & masks.green.mask == 0 && masks.red.mask & masks.blue.mask == 0
    && masks.red.mask & masks.alpha.mask == 0 && masks.green.mask & masks.blue.mask == 0
    && masks.green.mask & masks.alpha.mask == 0 && masks.blue.mask & masks.alpha.mask == 0
  }

  /** A colour whose packed pixel fits in `size` bytes is written, and read back with the same
      masks gives each channel as the packed pixel holds it. */
  lemma WriteThenRead(c: Color, size: nat, masks: PixelMasks)
    requires Shifts(masks)
    requires 1 <= size <= 4 && Fits(Pack(c, masks), size)
    ensures WriteColor(c, size, masks).Ok?
    ensures ReadPacked(WriteColor(c, size, masks).value) == Pack(c, masks)
    ensures ReadColor(WriteColor(c, size, masks).value, masks)
         == Color(Extract(Pack(c, masks), masks.red), Extract(Pack(c, masks), masks.green), Extract(Pack(c, masks), masks.blue), 0xFF)
  {
    FitsRoundTrip(Pack(c, masks), size);
  }

  /** The five formats with an alpha channel that `mask_cursor` writes. */
  predicate AlphaFormat(f: SdlFormat) {
    f in {ARGB4444, ARGB1555, ABGR1555, ARGB8888, ABGR8888}
  }

  /** SDL's bytes per pixel of a format with an alpha channel. */
  function AlphaSize(f: SdlFormat): (size: nat)
    requires AlphaFormat(f)
    ensures size == 2 || size == 4
  {
    if f in {ARGB8888, ABGR8888} then 4 else 2
  }

  /** SDL's channel masks of a format with an alpha channel, each with its trailing-zero count;
      the channels share no bit and fit in the format's bytes. */
  function AlphaMasks(f: SdlFormat): (masks: PixelMasks)
    requires AlphaFormat(f)
    ensures LowestBit(masks.red) && LowestBit(masks.green) && LowestBit(masks.blue) && LowestBit(masks.alpha)
    ensures Shifts(masks)
    ensures Disjoint(masks)
  {
    match f
    case ARGB4444 => PixelMasks(Channel(0x0F00, 8), Channel(0x00F0, 4), Channel(0x000F, 0), Channel(0xF000, 12))
    case ARGB1555 => PixelMasks(Channel(0x7C00, 10), Channel(0x03E0, 5), Channel(0x001F, 0), Channel(0x8000, 15))
    case ABGR1555 => PixelMasks(Channel(0x001F, 0), Channel(0x03E0, 5), Channel(0x7C00, 10), Channel(0x8000, 15))
    case ARGB8888 => PixelMasks(Channel(0x00FF_0000, 16), Channel(0x0000_FF00, 8), Channel(0x0000_00FF, 0), Channel(0xFF00_0000, 24))
    case ABGR8888 => PixelMasks(Channel(0x0000_00FF, 0), Channel(0x0000_FF00, 8), Channel(0x00FF_0000, 16), Channel(0xFF00_0000, 24))
  }

  /** The bits a channel keeps of a byte: its width's worth of low bits (`0x1F` for a 5-bit
      channel, `0xFF` for an 8-bit one). */
  function ChannelBits(c: Channel): byte
    requires c.shift < 32
  {
    ((c.mask >> c.shift) & 0xFF) as byte
  }

  /** Channels `masks` in `size` bytes carry the colour `c`: each channel of the packed colour
      reads back as the colour's byte cut to the low bits the channel has room for, and the
      packed pixel fits in `size` bytes. */
  predicate PacksChannels(masks: PixelMasks, size: nat, c: Color)
    requires Shifts(masks)
  {
    && Extract(Pack(c, masks), masks.red) == c.r & ChannelBits(masks.red)
    && Extract(Pack(c, masks), masks.green) == c.g & ChannelBits(masks.green)
    && Extract(Pack(c, masks), masks.blue) == c.b & ChannelBits(masks.blue)
    && Extract(Pack(c, masks), masks.alpha) == c.a & ChannelBits(masks.alpha)
    && Fits(Pack(c, masks), size)
  }

  /** The colour `c` given the alpha of mask byte `mask`, written by `write_color` with channels
      `masks` in `size` bytes, is written, and read back with the same masks keeps each channel
      cut to the channel's width; its alpha reads back as all the alpha channel's bits for a
      nonzero mask byte and as zero for a zero one. */
  predicate ColourRoundTrip(masks: PixelMasks, size: nat, c: Color, mask: byte)
    requires Shifts(masks)
  {
    var w := WriteColor(WithAlpha(c, mask), size, masks);
    && w.Ok?
    && ReadColor(w.value, masks) == Color(c.r & ChannelBits(masks.red), c.g & ChannelBits(masks.green), c.b & ChannelBits(masks.blue), 0xFF)
    && Extract(ReadPacked(w.value), masks.alpha) == (if mask != 0 then ChannelBits(masks.alpha) else 0)
  }

  /** Channels that carry a masked colour carry it through `write_color` and `read_color`. */
  lemma MaskedWriteThenRead(c: Color, mask: byte, size: nat, masks: PixelMasks)
    requires Shifts(masks)
    requires 1 <= size <= 4 && PacksChannels(masks, size, WithAlpha(c, mask))
    ensures ColourRoundTrip(masks, size, c, mask)
  {
    var out := WithAlpha(c, mask);
    WriteThenRead(out, size, masks);
    assert out.a & ChannelBits(masks.alpha) == if mask != 0 then ChannelBits(masks.alpha) else 0;
  }

  /** In every format with an alpha channel, a masked colour survives being written and read
      back, cut to the channels' widths. */
  lemma CursorColourRoundTrip(f: SdlFormat, c: Color, mask: byte)
    requires AlphaFormat(f)
    ensures ColourRoundTrip(AlphaMasks(f), AlphaSize(f), c, mask)
  {
    match f
    case ARGB4444 => Argb4444RoundTrip(c, mask);
    case ARGB1555 => Argb1555RoundTrip(c, mask);
    case ABGR1555 => Abgr1555RoundTrip(c, mask);
    case ARGB8888 => Argb8888RoundTrip(c, mask);
    case ABGR8888 => Abgr8888RoundTrip(c, mask);
  }

  /** ARGB4444 keeps the low 4 bits of each channel, in 2 bytes. */
  lemma Argb4444Channels(c: Color)
    ensures var m := AlphaMasks(ARGB4444);
            && Extract(Pack(c, m), m.red) == c.r & 0x0F && Extract(Pack(c, m), m.green) == c.g & 0x0F
            && Extract(Pack(c, m), m.blue) == c.b & 0x0F && Extract(Pack(c, m), m.alpha) == c.a & 0x0F
            && Fits(Pack(c, m), 2)
    ensures var m := AlphaMasks(ARGB4444);
            ChannelBits(m.red) == 0x0F && ChannelBits(m.green) == 0x0F && ChannelBits(m.blue) == 0x0F && ChannelBits(m.alpha) == 0x0F
  {
  }

  /** A masked colour written in ARGB4444 reads back cut to the channels' widths. */
  lemma Argb4444RoundTrip(c: Color, mask: byte)
    ensures ColourRoundTrip(AlphaMasks(ARGB4444), AlphaSize(ARGB4444), c, mask)
  {
    Argb4444Channels(WithAlpha(c, mask));
    MaskedWriteThenRead(c, mask, 2, AlphaMasks(ARGB4444));
    assert AlphaSize(ARGB4444) == 2;
  }

  /** ARGB1555 keeps the low 5 bits of red, green and blue and the lowest bit of alpha, in 2
      bytes. */
  lemma Argb1555Channels(c: Color)
    ensures var m := AlphaMasks(ARGB1555);
            && Extract(Pack(c, m), m.red) == c.r & 0x1F && Extract(Pack(c, m), m.green) == c.g & 0x1F
            && Extract(Pack(c, m), m.blue) == c.b & 0x1F && Extract(Pack(c, m), m.alpha) == c.a & 0x01
            && Fits(Pack(c, m), 2)
    ensures var m := AlphaMasks(ARGB1555);
            ChannelBits(m.red) == 0x1F && ChannelBits(m.green) == 0x1F && ChannelBits(m.blue) == 0x1F && ChannelBits(m.alpha) == 0x01
  {
  }

  /** A masked colour written in ARGB1555 reads back cut to the channels' widths. */
  lemma Argb1555RoundTrip(c: Color, mask: byte)
    ensures ColourRoundTrip(AlphaMasks(ARGB1555), AlphaSize(ARGB1555), c, mask)
  {
    Argb1555Channels(WithAlpha(c, mask));
    MaskedWriteThenRead(c, mask, 2, AlphaMasks(ARGB1555));
    assert AlphaSize(ARGB1555) == 2;
  }

  /** ABGR1555 keeps the low 5 bits of red, green and blue and the lowest bit of alpha, in 2
      bytes. */
  lemma Abgr1555Channels(c: Color)
    ensures var m := AlphaMasks(ABGR1555);
            && Extract(Pack(c, m), m.red) == c.r & 0x1F && Extract(Pack(c, m), m.green) == c.g & 0x1F
            && Extract(Pack(c, m), m.blue) == c.b & 0x1F && Extract(Pack(c, m), m.alpha) == c.a & 0x01
            && Fits(Pack(c, m), 2)
    ensures var m := AlphaMasks(ABGR1555);
            ChannelBits(m.red) == 0x1F && ChannelBits(m.green) == 0x1F && ChannelBits(m.blue) == 0x1F && ChannelBits(m.alpha) == 0x01
  {
  }

  /** A masked colour written in ABGR1555 reads back cut to the channels' widths. */
  lemma Abgr1555RoundTrip(c: Color, mask: byte)
    ensures ColourRoundTrip(AlphaMasks(ABGR1555), AlphaSize(ABGR1555), c, mask)
  {
    Abgr1555Channels(WithAlpha(c, mask));
    MaskedWriteThenRead(c, mask, 2, AlphaMasks(ABGR1555));
    assert AlphaSize(ABGR1555) == 2;
  }

  /** ARGB8888 keeps every channel whole, in 4 bytes. */
  lemma Argb8888Channels(c: Color)
    ensures var m := AlphaMasks(ARGB8888);
            && Extract(Pack(c, m), m.red) == c.r && Extract(Pack(c, m), m.green) == c.g
            && Extract(Pack(c, m), m.blue) == c.b && Extract(Pack(c, m), m.alpha) == c.a
            && Fits(Pack(c, m), 4)
    ensures var m := AlphaMasks(ARGB8888);
            ChannelBits(m.red) == 0xFF && ChannelBits(m.green) == 0xFF && ChannelBits(m.blue) == 0xFF && ChannelBits(m.alpha) == 0xFF
  {
  }

  /** A masked colour written in ARGB8888 reads back cut to the channels' widths. */
  lemma Argb8888RoundTrip(c: Color, mask: byte)
    ensures ColourRoundTrip(AlphaMasks(ARGB8888), AlphaSize(ARGB8888), c, mask)
  {
    Argb8888Channels(WithAlpha(c, mask));
    MaskedWriteThenRead(c, mask, 4, AlphaMasks(ARGB8888));
    assert AlphaSize(ARGB8888) == 4;
  }

  /** ABGR8888 keeps every channel whole, in 4 bytes. */
  lemma Abgr8888Channels(c: Color)
    ensures var m := AlphaMasks(ABGR8888);
            && Extract(Pack(c, m), m.red) == c.r && Extract(Pack(c, m), m.green) == c.g
            && Extract(Pack(c, m), m.blue) == c.b && Extract(Pack(c, m), m.alpha) == c.a
            && Fits(Pack(c, m), 4)
    ensures var m := AlphaMasks(ABGR8888);
            ChannelBits(m.red) == 0xFF && ChannelBits(m.green) == 0xFF && ChannelBits(m.blue) == 0xFF && ChannelBits(m.alpha) == 0xFF
  {
  }

  /** A masked colour written in ABGR8888 reads back cut to the channels' widths. */
  lemma Abgr8888RoundTrip(c: Color, mask: byte)
    ensures ColourRoundTrip(AlphaMasks(ABGR8888), AlphaSize(ABGR8888), c, mask)
  {
    Abgr8888Channels(WithAlpha(c, mask));
    MaskedWriteThenRead(c, mask, 4, AlphaMasks(ABGR8888));
    assert AlphaSize(ABGR8888) == 4;
  }

  /** SDL's channel masks of RGB565, with alpha absent. */
  function Rgb565Masks(): PixelMasks {
    PixelMasks(Channel(0xF800, 11), Channel(0x07E0, 5), Channel(0x001F, 0), Channel(0, 32))
  }

  /** A 5-6-5 cursor is drawn as 1-5-5-5 with its 6-bit green unscaled: a pixel whose green is
      32, the top bit of the 6, reads with green 32 and is written with green 0. */
  lemma GreenTopBitLost()
    ensures ReadColor([0x00, 0x04], Rgb565Masks()).g == 32
    ensures var out := WriteColor(WithAlpha(ReadColor([0x00, 0x04], Rgb565Masks()), 1), 2, AlphaMasks(ARGB1555));
            out.Ok? && ReadColor(out.value, AlphaMasks(ARGB1555)).g == 0
  {
    assert ReadPacked([0x00, 0x04]) == 0x0400 by {
      assert ReadPacked([0x04]) == 0x04;
    }
    Argb1555RoundTrip(ReadColor([0x00, 0x04], Rgb565Masks()), 1);
  }

  /** The alpha rule of `mask_cursor`: the colour kept, opaque for a nonzero mask byte and
      transparent for a zero one. */
  function WithAlpha(c: Color, mask: byte): (out: Color)
    ensures out.r == c.r && out.g == c.g && out.b == c.b
    ensures out.a == 0xFF <==> mask != 0
    ensures out.a == 0 <==> mask == 0
  {
    Color(c.r, c.g, c.b, if mask != 0 then 0xFF else 0)
  }

  /** `r` with `out` written before it. */
  function Prepend(out: seq<byte>, r: Result<seq<byte>>): Result<seq<byte>> {
    if r.Err? then r else Ok(out + r.value)
  }

  /** The pixel loop of `mask_cursor`: each whole pixel of `pixels` read, given the alpha of
      the next mask byte and written; an incomplete last pixel ends the loop. It aborts the
      client only by running out of mask bytes or writing a colour too wide for its bytes. */
  function MaskedPixels(pixels: seq<byte>, masks: seq<byte>, inSize: nat, inMasks: PixelMasks,
                        outSize: nat, outMasks: PixelMasks): (r: Result<seq<byte>>)
    requires inSize >= 1 && UsableMasks(inMasks, outMasks)
    ensures r.Err? ==> r.error == Panic(UnwrapErr) || r.error == Panic(ValueTooWide)
    decreases |pixels|
  {
    if |pixels| < inSize then Ok([])
    else if masks == [] then Err(Panic(UnwrapErr))
    else
      var written := WriteColor(WithAlpha(ReadColor(pixels[..inSize], inMasks), masks[0]), outSize, outMasks);
      if written.Err? then written
      else Prepend(written.value, MaskedPixels(pixels[inSize..], masks[1..], inSize, inMasks, outSize, outMasks))
  }

  /** `mask_cursor`: the cursor's pixels in the format with alpha that `CursorFormat` picks for
      the session's format, which must be in the table. It fails only for a format the table
      does not hold or when the pixel loop fails, and the format it picks has an alpha channel. */
  function MaskedCursor(format: PixelFormat, pixels: seq<byte>, masks: seq<byte>, inSize: nat, inMasks: PixelMasks,
                        outSize: nat, outMasks: PixelMasks): (r: Result<(SdlFormat, seq<byte>)>)
    requires inSize >= 1 && UsableMasks(inMasks, outMasks)
    ensures r.Err? <==> VncToSdl(FormatMap(), format).None? ||
                        MaskedPixels(pixels, masks, inSize, inMasks, outSize, outMasks).Err?
    ensures VncToSdl(FormatMap(), format).None? ==> r == Err(Panic(UnwrapNone))
    ensures r.Ok? ==> r.value.0 in {ARGB4444, ARGB1555, ABGR1555, ARGB8888, ABGR8888}
  {
    FoundFormatHasCursorFormat(FormatMap(), format);
    match VncToSdl(FormatMap(), format)
    case None => Err(Panic(UnwrapNone))
    case Some(inFormat) =>
      match CursorFormat(inFormat)
      case Err(e) => Err(e)
      case Ok(outFormat) =>
        match MaskedPixels(pixels, masks, inSize, inMasks, outSize, outMasks)
        case Err(e) => Err(e)
        case Ok(out) => Ok((outFormat, out))
  }

  /** `mask_cursor`: the formats looked up, then the pixel loop. `inSize`, `inMasks`, `outSize`
      and `outMasks` are the pixel sizes and channels SDL gives the two formats. */
  method MaskCursor(format: PixelFormat, pixels: seq<byte>, masks: seq<byte>, inSize: nat, inMasks: PixelMasks,
                    outSize: nat, outMasks: PixelMasks) returns (r: Result<(SdlFormat, seq<byte>)>)
    requires inSize >= 1 && UsableMasks(inMasks, outMasks)
    ensures r == MaskedCursor(format, pixels, masks, inSize, inMasks, outSize, outMasks)
  {
    var inFormat := VncToSdl(FormatMap(), format);
    if inFormat.None? {
      return Err(Panic(UnwrapNone));
    }
    var outFormat := CursorFormat(inFormat.value);
    if outFormat.Err? {
      return Err(outFormat.error);
    }
    var out := MaskPixels(pixels, masks, inSize, inMasks, outSize, outMasks);
    if out.Err? {
      return Err(out.error);
    }
    return Ok((outFormat.value, out.value));
  }

  /** The pixel loop of `mask_cursor`: read a pixel, take the next mask byte, write the pixel
      with its alpha, until no whole pixel is left. */
  method MaskPixels(pixels: seq<byte>, masks: seq<byte>, inSize: nat, inMasks: PixelMasks,
                    outSize: nat, outMasks: PixelMasks) returns (r: Result<seq<byte>>)
    requires inSize >= 1 && UsableMasks(inMasks, outMasks)
    ensures r == MaskedPixels(pixels, masks, inSize, inMasks, outSize, outMasks)
  {
    var out: seq<byte> := [];
    var pos := 0;
    var m := 0;
    assert pixels[pos..] == pixels && masks[m..] == masks;
    ghost var whole := MaskedPixels(pixels, masks, inSize, inMasks, outSize, outMasks);
    assert whole.Ok? ==> [] + whole.value == whole.value;
    while pos + inSize <= |pixels|
      invariant pos <= |pixels| && m <= |masks|
      invariant whole == Prepend(out, MaskedPixels(pixels[pos..], masks[m..], inSize, inMasks, outSize, outMasks))
      decreases |pixels| - pos
    {
      var colour := ReadColor(pixels[pos..pos + inSize], inMasks);
      assert pixels[pos..][..inSize] == pixels[pos..pos + inSize];
      if m >= |masks| {
        assert MaskedPixels(pixels[pos..], masks[m..], inSize, inMasks, outSize, outMasks) == Err(Panic(UnwrapErr));
        return Err(Panic(UnwrapErr));
      }
      var written := WriteColor(WithAlpha(colour, masks[m]), outSize, outMasks);
      if written.Err? {
        MaskedPixelsStep(pixels[pos..], masks[m..], inSize, inMasks, outSize, outMasks);
        return Err(written.error);
      }
      MaskedStep(pixels[pos..], masks[m..], inSize, inMasks, outSize, outMasks, out, written.value);
      assert pixels[pos..][inSize..] == pixels[pos + inSize..] && masks[m..][1..] == masks[m + 1..];
      out := out + written.value;
      pos := pos + inSize;
      m := m + 1;
    }
    assert out + [] == out;
    return Ok(out);
  }

  /** One step of the pixel loop, with the bytes already written put in front. */
  lemma MaskedStep(pixels: seq<byte>, masks: seq<byte>, inSize: nat, inMasks: PixelMasks,
                   outSize: nat, outMasks: PixelMasks, out: seq<byte>, written: seq<byte>)
    requires inSize >= 1 && UsableMasks(inMasks, outMasks)
    requires |pixels| >= inSize && masks != []
    requires WriteColor(WithAlpha(ReadColor(pixels[..inSize], inMasks), masks[0]), outSize, outMasks) == Ok(written)
    ensures Prepend(out, MaskedPixels(pixels, masks, inSize, inMasks, outSize, outMasks)) ==
            Prepend(out + written, MaskedPixels(pixels[inSize..], masks[1..], inSize, inMasks, outSize, outMasks))
  {
    var rest := MaskedPixels(pixels[inSize..], masks[1..], inSize, inMasks, outSize, outMasks);
    MaskedPixelsStep(pixels, masks, inSize, inMasks, outSize, outMasks);
    PrependTwice(out, written, rest);
  }

  /** The pixel loop on a whole pixel and a mask byte: the pixel drawn, then the rest. */
  lemma MaskedPixelsStep(pixels: seq<byte>, masks: seq<byte>, inSize: nat, inMasks: PixelMasks,
                         outSize: nat, outMasks: PixelMasks)
    requires inSize >= 1 && UsableMasks(inMasks, outMasks)
    requires |pixels| >= inSize && masks != []
    ensures var written := WriteColor(WithAlpha(ReadColor(pixels[..inSize], inMasks), masks[0]), outSize, outMasks);
            MaskedPixels(pixels, masks, inSize, inMasks, outSize, outMasks) ==
            if written.Err? then written
            else Prepend(written.value, MaskedPixels(pixels[inSize..], masks[1..], inSize, inMasks, outSize, outMasks))
  {
  }

  /** Writing `a` then `b` in front of `r` is writing `a + b` in front of it. */
  lemma PrependTwice(a: seq<byte>, b: seq<byte>, r: Result<seq<byte>>)
    ensures Prepend(a, Prepend(b, r)) == Prepend(a + b, r)
  {
    if r.Ok? {
      assert a + (b + r.value) == (a + b) + r.value;
    }
  }

  /** The whole pixels of `pixels`, `size` bytes each; an incomplete last pixel is dropped. */
  function WholePixels(pixels: seq<byte>, size: nat): (whole: seq<seq<byte>>)
    requires size >= 1
    ensures forall i :: 0 <= i < |whole| ==> |whole[i]| == size
    decreases |pixels|
  {
    if |pixels| < size then [] else [pixels[..size]] + WholePixels(pixels[size..], size)
  }

  /** The bytes of `parts`, one after the other. */
  function Concat(parts: seq<seq<byte>>): seq<byte> {
    if parts == [] then [] else parts[0] + Concat(parts[1..])
  }

  /** The whole pixels are the input read from the start, less fewer than `size` bytes. */
  lemma {:induction false} WholePixelsCover(pixels: seq<byte>, size: nat)
    requires size >= 1
    ensures |Concat(WholePixels(pixels, size))| <= |pixels| < |Concat(WholePixels(pixels, size))| + size
    ensures Concat(WholePixels(pixels, size)) == pixels[..|Concat(WholePixels(pixels, size))|]
    decreases |pixels|
  {
    if |pixels| >= size {
      WholePixelsCover(pixels[size..], size);
      var rest := Concat(WholePixels(pixels[size..], size));
      assert pixels[..size] + rest == pixels[..size + |rest|];
    }
  }

  /** The output colours of the cursor: pixel `i` read with `inMasks` and given the alpha of
      mask byte `i`. */
  function OutColours(whole: seq<seq<byte>>, masks: seq<byte>, inMasks: PixelMasks): (out: seq<Color>)
    requires |masks| >= |whole|
    requires inMasks.red.shift < 32 && inMasks.green.shift < 32 && inMasks.blue.shift < 32
    ensures |out| == |whole|
    ensures forall i :: 0 <= i < |out| ==> out[i] == WithAlpha(ReadColor(whole[i], inMasks), masks[i])
  {
    seq(|whole|, i requires 0 <= i < |whole| => WithAlpha(ReadColor(whole[i], inMasks), masks[i]))
  }

  /** The colours written one after the other; the first that does not fit is the error. */
  function WriteAll(colours: seq<Color>, size: nat, masks: PixelMasks): (r: Result<seq<byte>>)
    requires Shifts(masks)
    ensures r.Ok? ==> |r.value| == |colours| * size
  {
    if colours == [] then Ok([])
    else
      var written := WriteColor(colours[0], size, masks);
      if written.Err? then written else Prepend(written.value, WriteAll(colours[1..], size, masks))
  }

  /** With fewer mask bytes than whole pixels the pixel loop fails. */
  lemma {:induction false} MaskedPixelsShort(pixels: seq<byte>, masks: seq<byte>, inSize: nat, inMasks: PixelMasks,
                                             outSize: nat, outMasks: PixelMasks)
    requires inSize >= 1 && UsableMasks(inMasks, outMasks)
    requires |masks| < |WholePixels(pixels, inSize)|
    ensures MaskedPixels(pixels, masks, inSize, inMasks, outSize, outMasks).Err?
    decreases |pixels|
  {
    if masks != [] {
      MaskedPixelsShort(pixels[inSize..], masks[1..], inSize, inMasks, outSize, outMasks);
    }
  }

  /** The alpha rule over the whole cursor: with a mask byte for each whole pixel, the loop
      writes, in order, each pixel's colour, opaque exactly where its mask byte is nonzero
      (`OutColours`, `WithAlpha`). */
  lemma {:induction false} MaskedPixelsAlpha(pixels: seq<byte>, masks: seq<byte>, inSize: nat, inMasks: PixelMasks,
                                             outSize: nat, outMasks: PixelMasks)
    requires inSize >= 1 && UsableMasks(inMasks, outMasks)
    requires |masks| >= |WholePixels(pixels, inSize)|
    ensures MaskedPixels(pixels, masks, inSize, inMasks, outSize, outMasks) ==
            WriteAll(OutColours(WholePixels(pixels, inSize), masks, inMasks), outSize, outMasks)
    decreases |pixels|
  {
    var whole := WholePixels(pixels, inSize);
    if |pixels| >= inSize {
      MaskedPixelsAlpha(pixels[inSize..], masks[1..], inSize, inMasks, outSize, outMasks);
      var colours := OutColours(whole, masks, inMasks);
      assert colours[1..] == OutColours(WholePixels(pixels[inSize..], inSize), masks[1..], inMasks);
    }
  }
}
