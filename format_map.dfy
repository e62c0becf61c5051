/**
 * The client's pixel-format table: the five SDL texture formats it renders to,
 * each paired with the RFB pixel format that has the same layout, and the two
 * lookups across it. It also holds the choice of a format with an alpha
 * channel for the cursor.
 *
 * The table as the client writes it gives channel maxima of 32, 64 and 8 where
 * the RFB protocol requires 2^n - 1 (31, 63, 7). `FormatMapAsWritten` records that
 * table and `FormatMap` the corrected one, which the lookups are applied to.
 */
module PixelFormats {
  import opened Protocol

  /** The SDL pixel formats the client names. */
  datatype SdlFormat =
    | RGB888 | BGR888 | RGB565 | BGR565 | RGB332
    | RGB444 | RGB555 | BGR555 | RGB24 | BGR24 | RGBX8888 | BGRX8888
    | ARGB4444 | ARGB1555 | ABGR1555 | ARGB8888 | ABGR8888
    | Unlisted  // any SDL format the client does not name

  /** An entry of the table: an SDL format and the RFB format of the same layout. */
  datatype Entry = Entry(sdl: SdlFormat, vnc: PixelFormat)

  /** A little-endian true-colour RFB format. */
  function TrueColour(bpp: U8, depth: U8, redMax: U16, greenMax: U16, blueMax: U16,
                      redShift: U8, greenShift: U8, blueShift: U8): PixelFormat
  {
    PixelFormat(bpp, depth, false, true, redMax, greenMax, blueMax, redShift, greenShift, blueShift)
  }

  /** The table as written, with the 16- and 8-bit maxima one too large. */
  function FormatMapAsWritten(): (table: seq<Entry>)
    ensures |table| == 5
  {
    [ Entry(RGB888, TrueColour(32, 24, 255, 255, 255, 16, 8, 0)),
      Entry(BGR888, TrueColour(32, 24, 255, 255, 255, 0, 8, 16)),
      Entry(RGB565, TrueColour(16, 16, 32, 64, 32, 11, 5, 0)),
      Entry(BGR565, TrueColour(16, 16, 32, 64, 32, 0, 5, 11)),
      Entry(RGB332, TrueColour(8, 8, 8, 8, 4, 5, 2, 0)) ]
  }

  /** The table with every channel maximum of the form 2^n - 1. */
  function FormatMap(): (table: seq<Entry>)
    ensures |table| == 5
  {
    [ Entry(RGB888, TrueColour(32, 24, 255, 255, 255, 16, 8, 0)),
      Entry(BGR888, TrueColour(32, 24, 255, 255, 255, 0, 8, 16)),
      Entry(RGB565, TrueColour(16, 16, 31, 63, 31, 11, 5, 0)),
      Entry(BGR565, TrueColour(16, 16, 31, 63, 31, 0, 5, 11)),
      Entry(RGB332, TrueColour(8, 8, 7, 7, 3, 5, 2, 0)) ]
  }

  /** `pixel_format_vnc_to_sdl`: the SDL format of the first entry whose RFB format is `vnc`. */
  function VncToSdl(table: seq<Entry>, vnc: PixelFormat): (r: Option<SdlFormat>)
    ensures r.None? <==> forall i :: 0 <= i < |table| ==> table[i].vnc != vnc
    ensures r.Some? ==> exists i :: 0 <= i < |table| && table[i] == Entry(r.value, vnc) &&
                                    forall j :: 0 <= j < i ==> table[j].vnc != vnc
  {
    if table == [] then None
    else if table[0].vnc == vnc then Some(table[0].sdl)
    else
      var r := VncToSdl(table[1..], vnc);
      assert r.Some? ==> forall i :: 1 <= i < |table| && table[i].vnc == vnc ==> table[i - 1 + 1] == table[1..][i - 1];
      r
  }

  /** `pixel_format_sdl_to_vnc`: the RFB format of the first entry whose SDL format is `sdl`. */
  function SdlToVnc(table: seq<Entry>, sdl: SdlFormat): (r: Option<PixelFormat>)
    ensures r.None? <==> forall i :: 0 <= i < |table| ==> table[i].sdl != sdl
    ensures r.Some? ==> exists i :: 0 <= i < |table| && table[i] == Entry(sdl, r.value) &&
                                    forall j :: 0 <= j < i ==> table[j].sdl != sdl
  {
    if table == [] then None
    else if table[0].sdl == sdl then Some(table[0].vnc)
    else
      var r := SdlToVnc(table[1..], sdl);
      assert r.Some? ==> forall i :: 1 <= i < |table| && table[i].sdl == sdl ==> table[i - 1 + 1] == table[1..][i - 1];
      r
  }

  /** No two entries share an SDL format or an RFB format. */
  predicate Distinct(table: seq<Entry>) {
    forall i, j :: 0 <= i < j < |table| ==> table[i].sdl != table[j].sdl && table[i].vnc != table[j].vnc
  }

  /** On a table without repeats the two lookups undo each other: an RFB format found for
      an SDL format leads back to it, and the other way round. */
  lemma LookupsInverse(table: seq<Entry>, sdl: SdlFormat, vnc: PixelFormat)
    requires Distinct(table)
    ensures VncToSdl(table, vnc) == Some(sdl) <==> SdlToVnc(table, sdl) == Some(vnc)
  {
  }

  /** Both tables list five different SDL formats and five different RFB formats. */
  lemma TablesDistinct()
    ensures Distinct(FormatMap()) && Distinct(FormatMapAsWritten())
  {
  }

  /** Every entry of either table, as written or corrected, is found by both lookups, from
      either side. */
  lemma {:induction false} EveryEntryFound(table: seq<Entry>, i: nat)
    requires table == FormatMap() || table == FormatMapAsWritten()
    requires i < |table|
    ensures VncToSdl(table, table[i].vnc) == Some(table[i].sdl)
    ensures SdlToVnc(table, table[i].sdl) == Some(table[i].vnc)
  {
    TablesDistinct();
    var e := table[i];
    assert VncToSdl(table, e.vnc).Some?;
    var r := VncToSdl(table, e.vnc);
    var k :| 0 <= k < |table| && table[k] == Entry(r.value, e.vnc);
    assert k == i;
    LookupsInverse(table, e.sdl, e.vnc);
  }

  /** The fallback the client uses when the server's format is not in the table: RGB888 is
      always found, in either table, and its RFB format leads back to it. */
  lemma FallbackFound(table: seq<Entry>)
    requires table == FormatMap() || table == FormatMapAsWritten()
    ensures SdlToVnc(table, RGB888) == Some(table[0].vnc)
    ensures VncToSdl(table, table[0].vnc) == Some(RGB888)
  {
    EveryEntryFound(table, 0);
  }

  /** `n` is of the form 2^k - 1: its binary digits are all ones. */
  predicate AllOnes(n: nat) {
    n == 0 || (n % 2 == 1 && AllOnes(n / 2))
  }

  /** The requirement the RFB protocol puts on a true-colour format's channel maxima. */
  predicate ValidMaxima(f: PixelFormat) {
    AllOnes(f.redMax) && AllOnes(f.greenMax) && AllOnes(f.blueMax)
  }

  /** The number of binary digits of `n`. */
  function Width(n: nat): nat {
    if n == 0 then 0 else 1 + Width(n / 2)
  }

  /** The channel maxima of every corrected entry are of the form 2^n - 1, and each channel,
      shifted into place, lies within the pixel's depth. */
  lemma CorrectedMaxima(i: nat)
    requires i < |FormatMap()|
    ensures ValidMaxima(FormatMap()[i].vnc)
    ensures var f := FormatMap()[i].vnc;
      && f.redShift + Width(f.redMax) <= f.depth
      && f.greenShift + Width(f.greenMax) <= f.depth
      && f.blueShift + Width(f.blueMax) <= f.depth
  {
    assert Width(255) == 8 && Width(31) == 5 && Width(63) == 6 && Width(7) == 3 && Width(3) == 2;
  }

  /** The 5-6-5 format with the maxima the RFB protocol demands (31, 63, 31). */
  function Rgb565(): PixelFormat {
    TrueColour(16, 16, 31, 63, 31, 11, 5, 0)
  }

  /** As written, the 16- and 8-bit entries break the protocol's rule on channel maxima. */
  lemma MaximaAsWritten()
    ensures !ValidMaxima(FormatMapAsWritten()[2].vnc) && !ValidMaxima(FormatMapAsWritten()[4].vnc)
  {
  }

  /** So a server offering the 5-6-5 format is not recognised by the table as written, and
      is by the corrected one. */
  lemma Rgb565Recognised()
    ensures VncToSdl(FormatMapAsWritten(), Rgb565()) == None
    ensures VncToSdl(FormatMap(), Rgb565()) == Some(RGB565)
  {
    var written := FormatMapAsWritten();
    assert forall i :: 0 <= i < |written| ==> written[i].vnc.redMax != 31;
    EveryEntryFound(FormatMap(), 2);
  }

  /** The format with alpha `mask_cursor` renders a cursor of format `f` to; a format it has
      no rule for aborts the client. */
  function CursorFormat(f: SdlFormat): (r: Result<SdlFormat>)
    ensures r.Ok? ==> r.value in {ARGB4444, ARGB1555, ABGR1555, ARGB8888, ABGR8888}
    ensures r.Err? <==> f in {Unlisted, ARGB4444, ARGB1555, ABGR1555, ARGB8888, ABGR8888}
  {
    match f
    case RGB332 => Ok(ARGB4444)
    case RGB444 => Ok(ARGB4444)
    case RGB555 | RGB565 => Ok(ARGB1555)
    case BGR555 | BGR565 => Ok(ABGR1555)
    case RGB24 | RGB888 | RGBX8888 => Ok(ARGB8888)
    case BGR24 | BGR888 | BGRX8888 => Ok(ABGR8888)
    case _ => Err(Panic(NoAlphaFormat))
  }

  /** Every format of either table has a cursor format, so `mask_cursor` only aborts for a
      server format the table does not hold; the red-first formats keep red first. */
  lemma CursorFormatOfTable(table: seq<Entry>, i: nat)
    requires table == FormatMap() || table == FormatMapAsWritten()
    requires i < |table|
    ensures CursorFormat(table[i].sdl).Ok?
    ensures table[i].sdl in {RGB888, RGB565, RGB332} ==> CursorFormat(table[i].sdl).value in {ARGB8888, ARGB1555, ARGB4444}
  {
  }

  /** So a format the lookup finds in either table always has a cursor format. */
  lemma FoundFormatHasCursorFormat(table: seq<Entry>, vnc: PixelFormat)
    requires table == FormatMap() || table == FormatMapAsWritten()
    ensures VncToSdl(table, vnc).Some? ==> CursorFormat(VncToSdl(table, vnc).value).Ok?
  {
    if VncToSdl(table, vnc).Some? {
      var i :| 0 <= i < |table| && table[i] == Entry(VncToSdl(table, vnc).value, vnc) &&
               forall j :: 0 <= j < i ==> table[j].vnc != vnc;
      CursorFormatOfTable(table, i);
    }
  }
}
