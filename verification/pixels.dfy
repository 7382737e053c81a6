/**
 * The pixel layer: tiles as `TileW × TileH` grids, the four axis-flip
 * transforms of `transformCell`, the side strips of `getCellLine`, and the
 * two strip comparisons `isWhiteLine` and `isSameLine`.
 *
 * Strips are compared by exact equality; the source asks `Jimp.diff` for a
 * zero difference percentage, which this model reads as "no pixel differs".
 */
module Pixels {
  import opened Config

  newtype byte = x: int | 0 <= x < 256

  /** One RGBA pixel as Jimp stores it. */
  datatype Pixel = Rgba(r: byte, g: byte, b: byte, a: byte)

  /** The colour `#FFFFFF` of the marker strips (opaque white). */
  const White: Pixel := Rgba(255, 255, 255, 255)

  /** A picture as a sequence of pixel rows: `img[y][x]`. */
  type Image = seq<seq<Pixel>>

  /** `img` is exactly `w` pixels wide and `h` pixels high. */
  predicate IsBlock(img: Image, w: nat, h: nat)
  {
    |img| == h && forall y :: 0 <= y < h ==> |img[y]| == w
  }

  /** `img` has the size of a tile. */
  predicate IsTile(img: Image)
  {
    IsBlock(img, TileW, TileH)
  }

  /** A `w × h` picture filled with `p` (`new Jimp(w, h, colour)`). */
  function Solid(w: nat, h: nat, p: Pixel): (r: Image)
    ensures IsBlock(r, w, h)
  {
    seq(h, y => seq(w, x => p))
  }

  /** Coordinate `i` of an axis of length `n`, mirrored when `mirror` holds. */
  function Reflect(mirror: bool, n: nat, i: nat): (r: nat)
    requires i < n
    ensures r < n
  {
    if mirror then n - 1 - i else i
  }

  /** Jimp's `flip(horizontal, vertical)`: mirror the columns, the rows, or both. */
  function Flip(img: Image, horizontal: bool, vertical: bool): (r: Image)
    requires IsTile(img)
    ensures IsTile(r)
    ensures forall y, x :: 0 <= y < TileH && 0 <= x < TileW ==>
      r[Reflect(vertical, TileH, y)][Reflect(horizontal, TileW, x)] == img[y][x]
  {
    seq(TileH, y requires 0 <= y < TileH =>
      seq(TileW, x requires 0 <= x < TileW =>
        img[Reflect(vertical, TileH, y)][Reflect(horizontal, TileW, x)]))
  }

  /** The flip reads pixel `(x, y)` from the mirrored source position. */
  lemma FlipAt(img: Image, horizontal: bool, vertical: bool, x: nat, y: nat)
    requires IsTile(img) && x < TileW && y < TileH
    ensures Flip(img, horizontal, vertical)[y][x] == img[Reflect(vertical, TileH, y)][Reflect(horizontal, TileW, x)]
  {
  }

  /** Transform numbers the search may use: 0 to 3. */
  type Transform = t: nat | t < 4

  /** Transform 0 mirrors nothing, 1 the columns, 2 the rows, 3 both. */
  predicate MirrorsColumns(t: Transform) { t == 1 || t == 3 }
  predicate MirrorsRows(t: Transform) { t == 2 || t == 3 }

  /** `transformCell`: transform 0 is the identity, 1 to 3 are the flips. */
  function TransformCell(cell: Image, t: Transform): (r: Image)
    requires IsTile(cell)
    ensures IsTile(r)
  {
    match t
    case 0 => cell
    case 1 => Flip(cell, true, false)
    case 2 => Flip(cell, false, true)
    case 3 => Flip(cell, true, true)
  }

  /** The pixel transform `t` shows at `(x, y)` comes from this source pixel of the tile. */
  lemma TransformAt(cell: Image, t: Transform, x: nat, y: nat)
    requires IsTile(cell) && x < TileW && y < TileH
    ensures TransformCell(cell, t)[y][x] == cell[Reflect(MirrorsRows(t), TileH, y)][Reflect(MirrorsColumns(t), TileW, x)]
  {
    if t != 0 {
      FlipAt(cell, MirrorsColumns(t), MirrorsRows(t), x, y);
    }
  }

  /** Two tiles with the same pixels are the same tile. */
  lemma TileExt(a: Image, b: Image)
    requires IsTile(a) && IsTile(b)
    requires forall y, x :: 0 <= y < TileH && 0 <= x < TileW ==> a[y][x] == b[y][x]
    ensures a == b
  {
    forall y | 0 <= y < TileH
      ensures a[y] == b[y]
    {
      assert forall x :: 0 <= x < TileW ==> a[y][x] == b[y][x];
    }
  }

  /** Two flips in a row are one flip: each axis is mirrored when exactly one of them mirrors it. */
  lemma FlipTwice(cell: Image, h1: bool, v1: bool, h2: bool, v2: bool)
    requires IsTile(cell)
    ensures Flip(Flip(cell, h1, v1), h2, v2) == Flip(cell, h1 != h2, v1 != v2)
  {
    var a := Flip(Flip(cell, h1, v1), h2, v2);
    var b := Flip(cell, h1 != h2, v1 != v2);
    forall y, x | 0 <= y < TileH && 0 <= x < TileW
      ensures a[y][x] == b[y][x]
    {
      var y', x' := Reflect(v2, TileH, y), Reflect(h2, TileW, x);
      FlipAt(Flip(cell, h1, v1), h2, v2, x, y);
      FlipAt(cell, h1, v1, x', y');
      FlipAt(cell, h1 != h2, v1 != v2, x, y);
    }
    TileExt(a, b);
  }

  /** Two pictures of one size that agree on every pixel are equal. */
  lemma BlockExt(a: Image, b: Image, w: nat, h: nat)
    requires IsBlock(a, w, h) && IsBlock(b, w, h)
    ensures (forall y, x :: 0 <= y < h && 0 <= x < w ==> a[y][x] == b[y][x]) ==> a == b
  {
    if forall y, x :: 0 <= y < h && 0 <= x < w ==> a[y][x] == b[y][x] {
      forall y | 0 <= y < h
        ensures a[y] == b[y]
      {
        assert forall x :: 0 <= x < w ==> a[y][x] == b[y][x];
      }
    }
  }

  /** Every transform is its own inverse. */
  lemma TransformInvolution(cell: Image, t: Transform)
    requires IsTile(cell)
    ensures TransformCell(TransformCell(cell, t), t) == cell
  {
    var h, v := MirrorsColumns(t), MirrorsRows(t);
    if t != 0 {
      FlipTwice(cell, h, v, h, v);
      var same := Flip(cell, false, false);
      forall y, x | 0 <= y < TileH && 0 <= x < TileW
        ensures same[y][x] == cell[y][x]
      {
      }
      TileExt(same, cell);
    }
  }

  /** Transform 3 is transform 1 followed by transform 2, in either order. */
  lemma TransformCompose(cell: Image)
    requires IsTile(cell)
    ensures TransformCell(cell, 3) == TransformCell(TransformCell(cell, 1), 2)
    ensures TransformCell(cell, 3) == TransformCell(TransformCell(cell, 2), 1)
  {
    FlipTwice(cell, true, false, false, true);
    FlipTwice(cell, false, true, true, false);
  }

  /** `img.crop(x0, y0, cw, ch)` for a window inside the tile. */
  function Crop(img: Image, x0: nat, y0: nat, cw: nat, ch: nat): (r: Image)
    requires IsTile(img) && x0 + cw <= TileW && y0 + ch <= TileH
    ensures IsBlock(r, cw, ch)
    ensures forall y, x :: y0 <= y < y0 + ch && x0 <= x < x0 + cw ==> r[y - y0][x - x0] == img[y][x]
  {
    seq(ch, j requires 0 <= j < ch => seq(cw, i requires 0 <= i < cw => img[y0 + j][x0 + i]))
  }

  /** Cropping a whole tile gives the tile back. */
  lemma CropWhole(img: Image)
    requires IsTile(img)
    ensures Crop(img, 0, 0, TileW, TileH) == img
  {
    BlockExt(Crop(img, 0, 0, TileW, TileH), img, TileW, TileH);
  }

  /** A strip thickness `getCellLine` can cut from any side of a tile. */
  predicate FitsTile(width: nat)
  {
    width <= TileW && width <= TileH
  }

  /** Sides 0 and 1 give vertical strips, sides 2 and 3 horizontal ones. */
  predicate Vertical(side: Side) { side == Left || side == Right }

  /**
   * `getCellLine`: the strip of thickness `width` along `side` — the first or
   * last `width` columns (full height), or the first or last `width` rows
   * (full width).
   */
  function Line(cell: Image, side: Side, width: nat): (r: Image)
    requires IsTile(cell) && FitsTile(width)
    ensures Vertical(side) ==> IsBlock(r, width, TileH)
    ensures !Vertical(side) ==> IsBlock(r, TileW, width)
  {
    match side
    case Left => Crop(cell, 0, 0, width, TileH)
    case Right => Crop(cell, TileW - width, 0, width, TileH)
    case Up => Crop(cell, 0, 0, TileW, width)
    case Down => Crop(cell, 0, TileH - width, TileW, width)
  }

  /** `(x, y)` of a tile lies in the strip of thickness `width` along `side`. */
  predicate InStrip(side: Side, width: nat, x: int, y: int)
  {
    match side
    case Left => x < width
    case Right => x >= TileW - width
    case Up => y < width
    case Down => y >= TileH - width
  }

  /** The white reference a marker strip is compared with: `vertWhiteLine` or `horizWhiteLine`. */
  function WhiteReference(side: Side): (r: Image)
    ensures Vertical(side) ==> IsBlock(r, WhiteWidth, TileH)
    ensures !Vertical(side) ==> IsBlock(r, TileW, WhiteWidth)
    ensures forall y, x :: 0 <= y < |r| && 0 <= x < |r[y]| ==> r[y][x] == White
  {
    if Vertical(side) then Solid(WhiteWidth, TileH, White) else Solid(TileW, WhiteWidth, White)
  }

  /** `isWhiteLine`: the marker-width strip along `side` equals the white reference. */
  predicate IsWhiteLine(cell: Image, side: Side): (r: bool)
    requires IsTile(cell)
    ensures r <==> AllWhite(cell, side)
  {
    WhiteStripMeaning(cell, side);
    Line(cell, side, WhiteWidth) == WhiteReference(side)
  }

  /**
   * `isSameLine`: the strip along `prevSide` of one tile equals the strip
   * along `lastSide` of another. For two strips of the same orientation this
   * holds exactly when they agree pixel by pixel at the same strip offsets.
   */
  predicate IsSameLine(prev: Image, last: Image, prevSide: Side, lastSide: Side, width: nat): (r: bool)
    requires IsTile(prev) && IsTile(last) && FitsTile(width)
    ensures Vertical(prevSide) == Vertical(lastSide) ==>
      (r <==> forall j, i :: 0 <= j < StripH(prevSide, width) && 0 <= i < StripW(prevSide, width) ==>
                StripPixel(prev, prevSide, width, i, j) == StripPixel(last, lastSide, width, i, j))
  {
    SameStripMeaning(prev, last, prevSide, lastSide, width);
    Line(prev, prevSide, width) == Line(last, lastSide, width)
  }

  /** Width of the strip along `side`: `width` columns for sides 0 and 1, the full tile width otherwise. */
  function StripW(side: Side, width: nat): nat
  {
    if Vertical(side) then width else TileW
  }

  /** Height of the strip along `side`: the full tile height for sides 0 and 1, `width` rows otherwise. */
  function StripH(side: Side, width: nat): nat
  {
    if Vertical(side) then TileH else width
  }

  /** The tile pixel shown at `(i, j)` of the strip along `side`: the strip starts at the tile's far edge for sides 1 and 3. */
  function StripPixel(cell: Image, side: Side, width: nat, i: nat, j: nat): Pixel
    requires IsTile(cell) && FitsTile(width) && i < StripW(side, width) && j < StripH(side, width)
  {
    cell[if side == Down then TileH - width + j else j][if side == Right then TileW - width + i else i]
  }

  /** Two strips of the same orientation are equal exactly when their pixels agree at every strip offset. */
  lemma SameStripMeaning(prev: Image, last: Image, prevSide: Side, lastSide: Side, width: nat)
    requires IsTile(prev) && IsTile(last) && FitsTile(width)
    ensures Vertical(prevSide) == Vertical(lastSide) ==>
      ((Line(prev, prevSide, width) == Line(last, lastSide, width)) <==>
       forall j, i :: 0 <= j < StripH(prevSide, width) && 0 <= i < StripW(prevSide, width) ==>
         StripPixel(prev, prevSide, width, i, j) == StripPixel(last, lastSide, width, i, j))
  {
    if Vertical(prevSide) == Vertical(lastSide) {
      var a, b := Line(prev, prevSide, width), Line(last, lastSide, width);
      var lw, lh := StripW(prevSide, width), StripH(prevSide, width);
      forall j, i | 0 <= j < lh && 0 <= i < lw
        ensures a[j][i] == StripPixel(prev, prevSide, width, i, j)
        ensures b[j][i] == StripPixel(last, lastSide, width, i, j)
      {
        LineAt(prev, prevSide, width, i, j);
        LineAt(last, lastSide, width, i, j);
      }
      BlockExt(a, b, lw, lh);
    }
  }

  /** The pixel a strip shows at `(i, j)` is the tile's pixel at the strip's offset. */
  lemma LineAt(cell: Image, side: Side, width: nat, i: nat, j: nat)
    requires IsTile(cell) && FitsTile(width)
    requires if Vertical(side) then i < width && j < TileH else i < TileW && j < width
    ensures Line(cell, side, width)[j][i]
         == cell[if side == Down then TileH - width + j else j][if side == Right then TileW - width + i else i]
  {
  }

  /** Every pixel of the marker-width strip along `side` is white. */
  predicate AllWhite(cell: Image, side: Side)
    requires IsTile(cell)
  {
    forall y, x :: 0 <= y < TileH && 0 <= x < TileW && InStrip(side, WhiteWidth, x, y) ==> cell[y][x] == White
  }

  /** A tile's marker strip matches the white reference exactly when every pixel in it is white. */
  lemma WhiteStripMeaning(cell: Image, side: Side)
    requires IsTile(cell)
    ensures (Line(cell, side, WhiteWidth) == WhiteReference(side)) <==> AllWhite(cell, side)
  {
    var line := Line(cell, side, WhiteWidth);
    var white := WhiteReference(side);
    var dx: nat := if side == Right then TileW - WhiteWidth else 0;
    var dy: nat := if side == Down then TileH - WhiteWidth else 0;
    var lw: nat := if Vertical(side) then WhiteWidth else TileW;
    var lh: nat := if Vertical(side) then TileH else WhiteWidth;
    if line == white {
      forall y, x | 0 <= y < TileH && 0 <= x < TileW && InStrip(side, WhiteWidth, x, y)
        ensures cell[y][x] == White
      {
        LineAt(cell, side, WhiteWidth, x - dx, y - dy);
        assert line[y - dy][x - dx] == white[y - dy][x - dx];
      }
    } else {
      assert IsBlock(line, lw, lh) && IsBlock(white, lw, lh);
      BlockExt(line, white, lw, lh);
      var j, i :| 0 <= j < lh && 0 <= i < lw && line[j][i] != white[j][i];
      LineAt(cell, side, WhiteWidth, i, j);
      assert InStrip(side, WhiteWidth, i + dx, j + dy);
      assert cell[j + dy][i + dx] != White;
    }
  }

  /** The side a transform moves onto `side`: mirroring columns swaps left and right, mirroring rows up and down. */
  function Mirror(t: Transform, side: Side): (r: Side)
    ensures Vertical(r) == Vertical(side)
  {
    match side
    case Left => if MirrorsColumns(t) then Right else Left
    case Right => if MirrorsColumns(t) then Left else Right
    case Up => if MirrorsRows(t) then Down else Up
    case Down => if MirrorsRows(t) then Up else Down
  }

  /** A transformed tile is white along `side` exactly when the original is white along the mirrored side. */
  lemma WhiteLineUnderTransform(cell: Image, t: Transform, side: Side)
    requires IsTile(cell)
    ensures IsWhiteLine(TransformCell(cell, t), side) <==> IsWhiteLine(cell, Mirror(t, side))
  {
    var moved := TransformCell(cell, t);
    var other := Mirror(t, side);
    if AllWhite(cell, other) {
      forall y, x | 0 <= y < TileH && 0 <= x < TileW && InStrip(side, WhiteWidth, x, y)
        ensures moved[y][x] == White
      {
        TransformAt(cell, t, x, y);
        assert InStrip(other, WhiteWidth, Reflect(MirrorsColumns(t), TileW, x), Reflect(MirrorsRows(t), TileH, y));
      }
    }
    if AllWhite(moved, side) {
      forall y, x | 0 <= y < TileH && 0 <= x < TileW && InStrip(other, WhiteWidth, x, y)
        ensures cell[y][x] == White
      {
        var y', x' := Reflect(MirrorsRows(t), TileH, y), Reflect(MirrorsColumns(t), TileW, x);
        TransformAt(cell, t, x', y');
        assert InStrip(side, WhiteWidth, x', y');
      }
    }
  }

  /**
   * The 1-pixel comparisons the search makes: a tile's right column against
   * its right neighbour's left column, and its bottom row against the top
   * row of the tile below, pixel by pixel.
   */
  lemma EdgeMatchMeaning(prev: Image, last: Image)
    requires IsTile(prev) && IsTile(last)
    ensures IsSameLine(prev, last, Right, Left, 1) <==> forall y :: 0 <= y < TileH ==> prev[y][TileW - 1] == last[y][0]
    ensures IsSameLine(prev, last, Down, Up, 1) <==> forall x :: 0 <= x < TileW ==> prev[TileH - 1][x] == last[0][x]
  {
    var pr, ll := Line(prev, Right, 1), Line(last, Left, 1);
    var pd, lu := Line(prev, Down, 1), Line(last, Up, 1);
    forall y | 0 <= y < TileH
      ensures pr[y][0] == prev[y][TileW - 1] && ll[y][0] == last[y][0]
    {
      LineAt(prev, Right, 1, 0, y);
      LineAt(last, Left, 1, 0, y);
    }
    forall x | 0 <= x < TileW
      ensures pd[0][x] == prev[TileH - 1][x] && lu[0][x] == last[0][x]
    {
      LineAt(prev, Down, 1, x, 0);
      LineAt(last, Up, 1, x, 0);
    }
    BlockExt(pr, ll, 1, TileH);
    BlockExt(pd, lu, TileW, 1);
  }
}
