/**
 * The rectangle level of `Decoder::decode` in src/zrle.rs: the walk over the
 * tiles of a rectangle, handing each decoded tile to the consumer, and the
 * bookkeeping of the decoder's zlib inflater around it.
 *
 * The walk is stated for any tile decoder that keeps the reader state valid;
 * `Decode` instantiates it with the ZRLE tile decoder of ZrleSpec.
 */
module ZrleDecode {
  import opened Protocol
  import opened BitReading
  import opened ZrleTiles
  import opened ZrleSpec

  /** A decoded tile, as handed to the consumer's callback. */
  datatype Tile = Tile(rect: Rect, pixels: seq<byte>)

  /** The consumer: given a tile and its pixels, it fails, asks to stop (`false`) or to go on. */
  type Callback = (Rect, seq<byte>) -> Result<bool>

  /** Decodes one tile of the given extent from a reader state. */
  type TileDecoder = (BitState, Rect) --> Result<Step<seq<byte>>>

  /** The decoder can be applied to every valid state and leaves a valid one. */
  ghost predicate KeepsValid(decode: TileDecoder) {
    forall s: BitState, r: Rect :: s.Valid() ==>
      decode.requires(s, r) && (decode(s, r).Ok? ==> decode(s, r).value.next.Valid())
  }

  /** From a byte boundary, the decoder ends on a byte boundary and never reads across one. */
  ghost predicate KeepsAligned(decode: TileDecoder)
    requires KeepsValid(decode)
  {
    forall s: BitState, r: Rect :: s.Valid() && s.Aligned() ==>
      && (decode(s, r).Ok? ==> decode(s, r).value.next.Aligned())
      && decode(s, r) != Err(UnalignedBitRead) && decode(s, r) != Err(UnalignedByteRead)
  }

  /** The ZRLE tile decoder for a CPIXEL layout. */
  function ZrleTile(cfg: PixelConfig): (decode: TileDecoder)
    ensures KeepsValid(decode) && KeepsAligned(decode)
  {
    (s: BitState, r: Rect) requires s.Valid() => DecodeTile(s, r.width, r.height, cfg)
  }

  /** How the walk over the tiles ended: an error, the consumer asking to stop, or every tile
      decoded with the reader left in `state`. */
  datatype Ending = Failed(error: Error) | Stopped | Finished(state: BitState)

  /** The tiles handed to the consumer, and how the walk ended. */
  datatype Progress = Progress(tiles: seq<Tile>, ending: Ending)

  /** What the consumer answered for the last of `tiles`. */
  function Accepted(tiles: seq<Tile>, callback: Callback): Result<bool>
    requires tiles != []
  {
    callback(tiles[|tiles| - 1].rect, tiles[|tiles| - 1].pixels)
  }

  /** The tile loop of `decode`: decode each tile of `rects` in turn and hand it to the
      consumer; `done` are the tiles already handed over. */
  function DecodeTiles(s: BitState, rects: seq<Rect>, decode: TileDecoder, callback: Callback, done: seq<Tile>)
    : (p: Progress)
    requires s.Valid() && KeepsValid(decode)
    ensures p.ending.Finished? ==> p.ending.state.Valid()
    ensures KeepsAligned(decode) && s.Aligned() && p.ending.Finished? ==> p.ending.state.Aligned()
    decreases |rects|
  {
    if rects == [] then Progress(done, Finished(s))
    else
      match decode(s, rects[0])
      case Err(e) => Progress(done, Failed(e))
      case Ok(tile) =>
        var handed := done + [Tile(rects[0], tile.value)];
        match callback(rects[0], tile.value)
        case Err(e) => Progress(handed, Failed(e))
        case Ok(false) => Progress(handed, Stopped)
        case Ok(true) => DecodeTiles(tile.next, rects[1..], decode, callback, handed)
  }

  /** The tiles the walk hands over are the first tiles of `rects`, in order; the consumer
      accepted every one of them but the last; the walk finishes only after all of them and
      stops only when the consumer refuses the last one; and from a byte boundary a misaligned
      read can only be the consumer's own error. */
  lemma {:induction false} WalkShape(s: BitState, rects: seq<Rect>, decode: TileDecoder, callback: Callback,
                                     done: seq<Tile>)
    requires s.Valid() && KeepsValid(decode)
    ensures var p := DecodeTiles(s, rects, decode, callback, done);
      && |done| <= |p.tiles| <= |done| + |rects| && p.tiles[..|done|] == done
      && (forall i :: |done| <= i < |p.tiles| ==> p.tiles[i].rect == rects[i - |done|])
      && (forall i :: |done| <= i < |p.tiles| - 1 ==> callback(p.tiles[i].rect, p.tiles[i].pixels) == Ok(true))
      && (p.ending.Finished? ==> |p.tiles| == |done| + |rects|)
      && (p.ending.Finished? && |p.tiles| > |done| ==> Accepted(p.tiles, callback) == Ok(true))
      && (p.ending.Stopped? ==> |p.tiles| > |done| && Accepted(p.tiles, callback) == Ok(false))
      && ((KeepsAligned(decode) && s.Aligned() && p.ending.Failed? &&
           (p.ending.error == UnalignedBitRead || p.ending.error == UnalignedByteRead)) ==>
            |p.tiles| > |done| && Accepted(p.tiles, callback) == Err(p.ending.error))
    decreases |rects|
  {
    if rects != [] {
      match decode(s, rects[0])
      case Err(e) =>
      case Ok(tile) =>
        var handed := done + [Tile(rects[0], tile.value)];
        if callback(rects[0], tile.value) == Ok(true) {
          WalkShape(tile.next, rects[1..], decode, callback, handed);
        }
    }
  }

  /** The zlib inflater, reduced to the compressed bytes it has been fed so far. */
  datatype Inflate = Inflate(history: seq<byte>)

  /** `ZlibReader`: the inflater, and the inflated bytes of the current rectangle not yet read. */
  datatype ZlibReader = ZlibReader(inflater: Inflate, unread: seq<byte>)

  /** `ZlibReader::into_inner`: the inflater back, unless data is left over. */
  function ZlibIntoInner(z: ZlibReader): (r: Result<Inflate>)
    ensures r.Ok? <==> z.unread == []
    ensures r.Ok? ==> r.value == z.inflater
    ensures r.Err? ==> r.error == LeftoverByteData
  {
    if z.unread == [] then Ok(z.inflater) else Err(LeftoverByteData)
  }

  /** What one call of `decode` yields: its result, the tiles handed to the consumer, and the
      decoder's inflater afterwards. */
  datatype Outcome = Outcome(result: Result<bool>, tiles: seq<Tile>, decompressor: Option<Inflate>)

  /** The end of `decode` once the walk is over: the reader and then the zlib reader are
      unwrapped, and the inflater is handed back only if both are exhausted. */
  function Conclude(p: Progress, inflater: Inflate): (o: Outcome)
    ensures o.tiles == p.tiles
    ensures o.decompressor.Some? <==> o.result == Ok(true)
    ensures o.result == Ok(true) <==> p.ending.Finished? && p.ending.state.Aligned() && p.ending.state.rest == []
    ensures o.result == Ok(true) ==> o.decompressor == Some(inflater)
    ensures o.result == Ok(false) <==> p.ending.Stopped?
    ensures p.ending.Failed? ==> o.result == Err(p.ending.error)
  {
    match p.ending
    case Failed(e) => Outcome(Err(e), p.tiles, None)
    case Stopped => Outcome(Ok(false), p.tiles, None)
    case Finished(s) =>
      match IntoInnerFrom(s)
      case Err(e) => Outcome(Err(e), p.tiles, None)
      case Ok(unread) =>
        match ZlibIntoInner(ZlibReader(inflater, unread))
        case Err(e) => Outcome(Err(e), p.tiles, None)
        case Ok(back) => Outcome(Ok(true), p.tiles, Some(back))
  }

  /** The pixel-format checks come first; then the inflater is taken out of the decoder, and it
      is put back only when every tile was decoded and accepted and nothing is left over. */
  function Decode(decompressor: Option<Inflate>, format: PixelFormat, rect: Rect,
                  input: seq<byte>, inflated: seq<byte>, callback: Callback): (o: Outcome)
    ensures CompressedPixel(format).Err? ==> o.result.Err? && o.tiles == [] && o.decompressor == decompressor
    ensures CompressedPixel(format).Ok? && decompressor.None? ==> o.result == Err(Panic(UnwrapNone)) && o.tiles == []
    ensures CompressedPixel(format).Ok? ==> (o.decompressor.Some? <==> o.result == Ok(true))
    ensures o.result == Ok(true) ==> decompressor.Some? && o.decompressor == Some(Inflate(decompressor.value.history + input))
  {
    match CompressedPixel(format)
    case Err(e) => Outcome(Err(e), [], decompressor)
    case Ok(cfg) =>
      if decompressor.None? then Outcome(Err(Panic(UnwrapNone)), [], None)
      else
        Conclude(DecodeTiles(BitState(inflated, 0, 8), Tiles(rect), ZrleTile(cfg), callback, []),
                 Inflate(decompressor.value.history + input))
  }

  /** A tile of the walk that does not decode ends the walk with that error ... */
  lemma WalkTileFails(s: BitState, rects: seq<Rect>, decode: TileDecoder, callback: Callback, done: seq<Tile>, e: Error)
    requires s.Valid() && KeepsValid(decode) && rects != []
    requires decode(s, rects[0]) == Err(e)
    ensures DecodeTiles(s, rects, decode, callback, done) == Progress(done, Failed(e))
  {
  }

  /** ... and one that does is handed to the consumer, whose answer ends the walk or lets it go
      on with the next rectangle. */
  lemma WalkTileHanded(s: BitState, rects: seq<Rect>, decode: TileDecoder, callback: Callback, done: seq<Tile>,
                       pixels: seq<byte>, t: BitState)
    requires s.Valid() && KeepsValid(decode) && rects != []
    requires decode(s, rects[0]) == Ok(Step(pixels, t))
    ensures var handed := done + [Tile(rects[0], pixels)];
      match callback(rects[0], pixels)
      case Err(e) => DecodeTiles(s, rects, decode, callback, done) == Progress(handed, Failed(e))
      case Ok(false) => DecodeTiles(s, rects, decode, callback, done) == Progress(handed, Stopped)
      case Ok(true) =>
        DecodeTiles(s, rects, decode, callback, done) == DecodeTiles(t, rects[1..], decode, callback, handed)
  {
  }

  /** A successful walk handed over a tile for each rectangle, in order, each accepted. */
  lemma WalkSuccess(s: BitState, rects: seq<Rect>, decode: TileDecoder, callback: Callback, inflater: Inflate)
    requires s.Valid() && KeepsValid(decode)
    ensures var o := Conclude(DecodeTiles(s, rects, decode, callback, []), inflater);
      o.result == Ok(true) ==>
        && |o.tiles| == |rects|
        && (forall i :: 0 <= i < |o.tiles| ==> o.tiles[i].rect == rects[i])
        && (forall i :: 0 <= i < |o.tiles| ==> callback(o.tiles[i].rect, o.tiles[i].pixels) == Ok(true))
  {
    WalkShape(s, rects, decode, callback, []);
    var o := Conclude(DecodeTiles(s, rects, decode, callback, []), inflater);
    if o.result == Ok(true) && o.tiles != [] {
      assert callback(o.tiles[|o.tiles| - 1].rect, o.tiles[|o.tiles| - 1].pixels) == Ok(true);
    }
  }

  /** A walk from a byte boundary with an aligned tile decoder leaves no bits over when it
      finishes, and an unaligned read can only be the consumer's own error. */
  lemma WalkAligned(s: BitState, rects: seq<Rect>, decode: TileDecoder, callback: Callback, inflater: Inflate)
    requires s.Valid() && s.Aligned() && KeepsValid(decode) && KeepsAligned(decode)
    ensures var p := DecodeTiles(s, rects, decode, callback, []);
      var o := Conclude(p, inflater);
      && (p.ending.Finished? ==> o.result == Ok(true) || o.result == Err(LeftoverByteData))
      && (o.result == Err(UnalignedBitRead) || o.result == Err(UnalignedByteRead) ==>
            o.tiles != [] && Accepted(o.tiles, callback) == o.result)
  {
    WalkShape(s, rects, decode, callback, []);
  }

  /** A successful decode hands every tile of the rectangle to the consumer, in raster order,
      each accepted by it, and leaves the inflater back in the decoder, having been fed this
      rectangle's input. */
  lemma SuccessHandsEveryTile(d: Option<Inflate>, format: PixelFormat, rect: Rect,
                              input: seq<byte>, inflated: seq<byte>, callback: Callback)
    ensures var o := Decode(d, format, rect, input, inflated, callback);
      o.result == Ok(true) ==>
        && d.Some?
        && o.decompressor == Some(Inflate(d.value.history + input))
        && |o.tiles| == |Tiles(rect)|
        && (forall i :: 0 <= i < |o.tiles| ==> o.tiles[i].rect == Tiles(rect)[i])
        && (forall i :: 0 <= i < |o.tiles| ==> callback(o.tiles[i].rect, o.tiles[i].pixels) == Ok(true))
  {
    if CompressedPixel(format).Ok? && d.Some? {
      WalkSuccess(BitState(inflated, 0, 8), Tiles(rect), ZrleTile(CompressedPixel(format).value), callback,
                  Inflate(d.value.history + input));
    }
  }
  /** Every pixel of the rectangle lies in one of the tiles a successful decode hands over. */
  lemma SuccessCoversEachPixel(d: Option<Inflate>, format: PixelFormat, rect: Rect,
                               input: seq<byte>, inflated: seq<byte>, callback: Callback, x: nat, y: nat)
    requires Decode(d, format, rect, input, inflated, callback).result == Ok(true)
    requires rect.Contains(x, y)
    ensures var tiles := Decode(d, format, rect, input, inflated, callback).tiles;
      exists i :: 0 <= i < |tiles| && tiles[i].rect.Contains(x, y)
  {
    SuccessHandsEveryTile(d, format, rect, input, inflated, callback);
    TilesCover(rect, x, y);
    ContainingTileExists(Tiles(rect), x, y);
    var i :| 0 <= i < |Tiles(rect)| && Tiles(rect)[i].Contains(x, y);
    var tiles := Decode(d, format, rect, input, inflated, callback).tiles;
    assert tiles[i].rect.Contains(x, y);
  }

  lemma {:induction false} ContainingTileExists(ts: seq<Rect>, x: nat, y: nat)
    requires CountContaining(ts, x, y) > 0
    ensures exists i :: 0 <= i < |ts| && ts[i].Contains(x, y)
    decreases |ts|
  {
    if !ts[0].Contains(x, y) {
      ContainingTileExists(ts[1..], x, y);
      var i :| 0 <= i < |ts[1..]| && ts[1..][i].Contains(x, y);
      assert ts[i + 1].Contains(x, y);
    }
  }

  /** The inflater stays in the decoder only when the decode succeeds, or when it fails on the
      pixel format before the inflater is taken out: an error in the data, a refusal by the
      consumer or left-over data all leave the decoder without one. */
  lemma DecompressorKeptOnlyOnSuccess(d: Option<Inflate>, format: PixelFormat, rect: Rect,
                                      input: seq<byte>, inflated: seq<byte>, callback: Callback)
    ensures var o := Decode(d, format, rect, input, inflated, callback);
      o.decompressor.Some? <==> o.result == Ok(true) || (CompressedPixel(format).Err? && d.Some?)
  {
  }

  /** Once a decode has returned early, the next one panics as soon as it is past the
      pixel-format checks, whatever its data. */
  lemma LostDecompressorPanics(d: Option<Inflate>, format: PixelFormat, rect: Rect,
                               input: seq<byte>, inflated: seq<byte>, callback: Callback,
                               format': PixelFormat, rect': Rect, input': seq<byte>, inflated': seq<byte>, callback': Callback)
    requires CompressedPixel(format).Ok? && CompressedPixel(format').Ok?
    requires Decode(d, format, rect, input, inflated, callback).result != Ok(true)
    ensures var o := Decode(d, format, rect, input, inflated, callback);
      Decode(o.decompressor, format', rect', input', inflated', callback').result == Err(Panic(UnwrapNone))
  {
  }

  /** Decoding starts on a byte boundary and every tile ends on one, so once every tile is
      accepted the check for left-over bits passes, and an unaligned read can only be reported
      by the consumer itself. */
  lemma NeverMisaligned(d: Option<Inflate>, format: PixelFormat, rect: Rect,
                        input: seq<byte>, inflated: seq<byte>, callback: Callback)
    requires d.Some? && CompressedPixel(format).Ok?
    ensures var o := Decode(d, format, rect, input, inflated, callback);
      var p := DecodeTiles(BitState(inflated, 0, 8), Tiles(rect), ZrleTile(CompressedPixel(format).value), callback, []);
      && (p.ending.Finished? ==> o.result == Ok(true) || o.result == Err(LeftoverByteData))
      && (o.result == Err(UnalignedBitRead) || o.result == Err(UnalignedByteRead) ==>
            o.tiles != [] && Accepted(o.tiles, callback) == o.result)
  {
    WalkAligned(BitState(inflated, 0, 8), Tiles(rect), ZrleTile(CompressedPixel(format).value), callback,
                Inflate(d.value.history + input));
  }

  /** The data of a rectangle must be used up exactly: a decode that leaves inflated bytes
      unread fails with `LeftoverByteData` once all tiles are accepted. */
  lemma LeftoverDataRejected(d: Option<Inflate>, format: PixelFormat, rect: Rect,
                             input: seq<byte>, inflated: seq<byte>, callback: Callback)
    requires d.Some? && CompressedPixel(format).Ok?
    ensures var o := Decode(d, format, rect, input, inflated, callback);
      var p := DecodeTiles(BitState(inflated, 0, 8), Tiles(rect), ZrleTile(CompressedPixel(format).value), callback, []);
      p.ending.Finished? ==>
        && (o.result == Ok(true) <==> p.ending.state.rest == [])
        && (o.result != Ok(true) ==> o.result == Err(LeftoverByteData))
  {
  }
}
