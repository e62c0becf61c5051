/**
 * The tiling of a ZRLE rectangle (src/zrle.rs, the `while y` and `while x`
 * loops of `Decoder::decode`): the rectangle is cut into tiles of 64 by 64
 * pixels, row by row and left to right, the last tile of a row and the tiles
 * of the last row being as wide and as high as what remains.
 */
module ZrleTiles {
  import opened Protocol

  /** The side of a full ZRLE tile. */
  const TileSide := 64

  function Min(a: int, b: int): int {
    if a <= b then a else b
  }

  /** The number of 64-pixel stretches it takes to cover `n` pixels. */
  function Stretches(n: int): nat
    decreases n
  {
    if n <= 0 then 0 else 1 + Stretches(n - TileSide)
  }

  /** The width of the tile starting at column offset `x`: 64, or what remains of the row. */
  function TileWidth(rect: Rect, x: nat): (w: nat)
    requires x < rect.width
    ensures 1 <= w <= TileSide && x + w <= rect.width
    ensures w < TileSide ==> x + w == rect.width
  {
    if x + TileSide > rect.width then rect.width - x else TileSide
  }

  /** The height of the tiles starting at row offset `y`: 64, or what remains of the rectangle. */
  function TileHeight(rect: Rect, y: nat): (h: nat)
    requires y < rect.height
    ensures 1 <= h <= TileSide && y + h <= rect.height
    ensures h < TileSide ==> y + h == rect.height
  {
    if y + TileSide > rect.height then rect.height - y else TileSide
  }

  /** The tiles of the band at row offset `y` (of height `h`), from column offset `x` onward:
      one for each 64-pixel stretch of what remains of the row. */
  function RowTiles(rect: Rect, y: nat, h: nat, x: nat): (ts: seq<Rect>)
    ensures |ts| == Stretches(rect.width - x)
    decreases rect.width - x
  {
    if x >= rect.width then []
    else
      var w := TileWidth(rect, x);
      [Rect(rect.left + x, rect.top + y, w, h)] + RowTiles(rect, y, h, x + w)
  }

  /** The tiles of the bands from row offset `y` downward; there are none exactly when no row
      or no column is left. */
  function TilesFrom(rect: Rect, y: nat): (ts: seq<Rect>)
    ensures ts == [] <==> y >= rect.height || rect.width == 0
    decreases rect.height - y
  {
    if y >= rect.height then []
    else
      var h := TileHeight(rect, y);
      RowTiles(rect, y, h, 0) + TilesFrom(rect, y + h)
  }

  /** The tiles of `rect`, in the order the decoder visits them; an empty rectangle has none. */
  function Tiles(rect: Rect): (ts: seq<Rect>)
    ensures ts == [] <==> rect.width == 0 || rect.height == 0
  {
    TilesFrom(rect, 0)
  }

  /** The bands from row offset `y` down hold a row of tiles for each 64-pixel stretch of the
      remaining height. */
  lemma {:induction false} TilesFromCount(rect: Rect, y: nat)
    ensures |TilesFrom(rect, y)| == Stretches(rect.height - y) * Stretches(rect.width)
    decreases rect.height - y
  {
    if y < rect.height {
      var h := TileHeight(rect, y);
      TilesFromCount(rect, y + h);
      var bands := Stretches(rect.height - y - h);
      assert Stretches(rect.height - y) == bands + 1;
      assert (bands + 1) * Stretches(rect.width) == Stretches(rect.width) + bands * Stretches(rect.width);
    }
  }

  /** A rectangle has as many tiles as it takes 64 by 64 tiles to cover it. */
  lemma TileCount(rect: Rect)
    ensures |Tiles(rect)| == Stretches(rect.width) * Stretches(rect.height)
  {
    TilesFromCount(rect, 0);
  }

  /** Tile `a` comes before tile `b` in raster order: an earlier band, or the same band further left. */
  predicate Before(a: Rect, b: Rect) {
    a.top < b.top || (a.top == b.top && a.left < b.left)
  }

  predicate RasterOrdered(ts: seq<Rect>) {
    forall i, j :: 0 <= i < j < |ts| ==> Before(ts[i], ts[j])
  }

  /** A tile of `rect` as the decoder must produce it: inside `rect`, on the 64-pixel grid that
      starts at `rect`'s corner, and as wide and as high as 64 or what remains. */
  predicate GridTile(rect: Rect, t: Rect) {
    && rect.left <= t.left && rect.top <= t.top
    && (t.left - rect.left) % TileSide == 0
    && (t.top - rect.top) % TileSide == 0
    && t.width == Min(TileSide, rect.left + rect.width - t.left)
    && t.height == Min(TileSide, rect.top + rect.height - t.top)
    && 1 <= t.width && 1 <= t.height
  }

  /** How many of the tiles `ts` contain the pixel `(x, y)`. */
  function CountContaining(ts: seq<Rect>, x: int, y: int): nat {
    if ts == [] then 0
    else (if ts[0].Contains(x, y) then 1 else 0) + CountContaining(ts[1..], x, y)
  }

  lemma {:induction false} CountContainingAppend(a: seq<Rect>, b: seq<Rect>, x: int, y: int)
    ensures CountContaining(a + b, x, y) == CountContaining(a, x, y) + CountContaining(b, x, y)
  {
    if a == [] {
      assert a + b == b;
    } else {
      assert (a + b)[1..] == a[1..] + b;
      CountContainingAppend(a[1..], b, x, y);
    }
  }

  lemma {:induction false} RowTilesShape(rect: Rect, y: nat, h: nat, x: nat)
    requires y % TileSide == 0 && (x % TileSide == 0 || x >= rect.width)
    requires y < rect.height && h == TileHeight(rect, y)
    ensures forall t :: t in RowTiles(rect, y, h, x) ==>
      GridTile(rect, t) && t.top == rect.top + y && t.left >= rect.left + x
    ensures forall i, j :: 0 <= i < j < |RowTiles(rect, y, h, x)| ==>
      RowTiles(rect, y, h, x)[i].left < RowTiles(rect, y, h, x)[j].left
    decreases rect.width - x
  {
    if x < rect.width {
      var w := TileWidth(rect, x);
      var first, rest := Rect(rect.left + x, rect.top + y, w, h), RowTiles(rect, y, h, x + w);
      assert RowTiles(rect, y, h, x) == [first] + rest;
      RowTilesShape(rect, y, h, x + w);
      assert GridTile(rect, first);
    }
  }

  lemma {:induction false} TilesFromShape(rect: Rect, y: nat)
    requires y % TileSide == 0 || y >= rect.height
    ensures forall t :: t in TilesFrom(rect, y) ==> GridTile(rect, t) && t.top >= rect.top + y
    ensures RasterOrdered(TilesFrom(rect, y))
    decreases rect.height - y
  {
    if y < rect.height {
      var h := TileHeight(rect, y);
      var row, below := RowTiles(rect, y, h, 0), TilesFrom(rect, y + h);
      RowTilesShape(rect, y, h, 0);
      TilesFromShape(rect, y + h);
      var all := row + below;
      forall i, j | 0 <= i < j < |all| ensures Before(all[i], all[j]) {
        if j < |row| {
          assert all[i] == row[i] && all[j] == row[j];
        } else if i < |row| {
          assert all[i] in row && all[j] in below;
        } else {
          assert all[i] == below[i - |row|] && all[j] == below[j - |row|];
        }
      }
    }
  }

  /** Every tile lies inside the rectangle on the 64-pixel grid, is 64 pixels wide and high or
      as much as remains, and the tiles come band by band, left to right. */
  lemma TilesShape(rect: Rect)
    ensures forall t :: t in Tiles(rect) ==> GridTile(rect, t)
    ensures forall t :: t in Tiles(rect) ==>
      t.left + t.width <= rect.left + rect.width && t.top + t.height <= rect.top + rect.height
    ensures RasterOrdered(Tiles(rect))
  {
    TilesFromShape(rect, 0);
  }

  lemma {:induction false} RowTilesCover(rect: Rect, y: nat, h: nat, x: nat, px: int, py: int)
    ensures CountContaining(RowTiles(rect, y, h, x), px, py) ==
      if rect.left + x <= px < rect.left + rect.width && rect.top + y <= py < rect.top + y + h then 1 else 0
    decreases rect.width - x
  {
    if x < rect.width {
      var w := TileWidth(rect, x);
      var ts := RowTiles(rect, y, h, x);
      assert ts[1..] == RowTiles(rect, y, h, x + w);
      RowTilesCover(rect, y, h, x + w, px, py);
    }
  }

  lemma {:induction false} TilesFromCover(rect: Rect, y: nat, px: int, py: int)
    ensures CountContaining(TilesFrom(rect, y), px, py) ==
      if rect.left <= px < rect.left + rect.width && rect.top + y <= py < rect.top + rect.height then 1 else 0
    decreases rect.height - y
  {
    if y < rect.height {
      var h := TileHeight(rect, y);
      CountContainingAppend(RowTiles(rect, y, h, 0), TilesFrom(rect, y + h), px, py);
      RowTilesCover(rect, y, h, 0, px, py);
      TilesFromCover(rect, y + h, px, py);
    }
  }

  /** The tiles cover the rectangle exactly: each pixel of it lies in exactly one tile, and no
      tile holds a pixel outside it. */
  lemma TilesCover(rect: Rect, px: int, py: int)
    ensures CountContaining(Tiles(rect), px, py) == if rect.Contains(px, py) then 1 else 0
  {
    TilesFromCover(rect, 0, px, py);
  }

  /** The walk over the bands: a band that starts inside the rectangle is its row of tiles
      followed by the bands below it ... */
  lemma NextBand(rect: Rect, y: nat)
    requires y < rect.height
    ensures TilesFrom(rect, y) == RowTiles(rect, y, TileHeight(rect, y), 0) + TilesFrom(rect, y + TileHeight(rect, y))
  {
  }

  /** ... the next tile of a band is the one at column offset `x`, and the walk goes on from the
      column after it ... */
  lemma NextTile(rect: Rect, y: nat, h: nat, x: nat, below: seq<Rect>)
    requires x < rect.width
    ensures var pending := RowTiles(rect, y, h, x) + below;
      && pending != []
      && pending[0] == Rect(rect.left + x, rect.top + y, TileWidth(rect, x), h)
      && pending[1..] == RowTiles(rect, y, h, x + TileWidth(rect, x)) + below
  {
    var w := TileWidth(rect, x);
    assert RowTiles(rect, y, h, x) == [Rect(rect.left + x, rect.top + y, w, h)] + RowTiles(rect, y, h, x + w);
  }

  /** ... and a band walked to its right edge leaves the bands below it. */
  lemma BandDone(rect: Rect, y: nat, h: nat, x: nat, below: seq<Rect>)
    requires x >= rect.width
    ensures RowTiles(rect, y, h, x) + below == below
  {
  }
}

