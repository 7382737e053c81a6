/**
 * Rectangle arithmetic of `genCells` (cutting the 16 tiles out of the
 * cropped picture) and `genImage` (placing 16 transformed tiles on the
 * canvas that is handed to the decoder). Pixel copying itself is not
 * modelled; only where each rectangle lies.
 */
module Layout {
  import opened Wrappers
  import opened Config

  /** An axis-aligned rectangle: top-left corner and size. */
  datatype Rect = Rect(x: int, y: int, w: nat, h: nat)

  /** `r` lies completely inside a `width × height` picture. */
  predicate Inside(r: Rect, width: int, height: int)
  {
    0 <= r.x && r.x + r.w <= width && 0 <= r.y && r.y + r.h <= height
  }

  /** `a` and `b` share no pixel. */
  predicate Disjoint(a: Rect, b: Rect)
  {
    a.x + a.w <= b.x || b.x + b.w <= a.x || a.y + a.h <= b.y || b.y + b.h <= a.y
  }

  /** Size of the picture left after `image.crop(sx, sy, ex - sx, ey - sy)`. */
  const CropW: nat := EndX - StartX
  const CropH: nat := EndY - StartY

  /** Size of the canvas `genImage` creates. */
  const CanvasW: nat := MarginX * 2 + TileW * 4
  const CanvasH: nat := MarginY * 2 + TileH * 4

  /** Row and column of the `i`-th tile of a four-wide row-major grid. */
  lemma RowMajor(r: nat, c: nat)
    requires c < 4
    ensures (4 * r + c) / 4 == r && (4 * r + c) % 4 == c
  {
  }

  /** Where tile number `i` is cut from: column `i % 4`, row `i / 4`, a margin before each. */
  function CellRect(i: nat): Rect
  {
    Rect(MarginX + (MarginX + TileW) * (i % 4), MarginY + (MarginY + TileH) * (i / 4), TileW, TileH)
  }

  /**
   * The rectangles `genCells` crops, in the order it pushes the tiles:
   * tile `4r + c` is cut at column `c` and row `r`.
   */
  method CellRects() returns (rects: seq<Rect>)
    ensures |rects| == 16
    ensures forall i :: 0 <= i < |rects| ==> rects[i] == CellRect(i)
  {
    rects := [];
    var r := 0;
    while r < 4
      invariant 0 <= r <= 4
      invariant |rects| == 4 * r
      invariant forall i :: 0 <= i < |rects| ==> rects[i] == CellRect(i)
    {
      var cy := MarginY + (MarginY + TileH) * r;
      var c := 0;
      while c < 4
        invariant 0 <= c <= 4
        invariant |rects| == 4 * r + c
        invariant forall i :: 0 <= i < |rects| ==> rects[i] == CellRect(i)
      {
        var cx := MarginX + (MarginX + TileW) * c;
        RowMajor(r, c);
        rects := rects + [Rect(cx, cy, TileW, TileH)];
        c := c + 1;
      }
      r := r + 1;
    }
  }

  /** The 16 cut rectangles fit in the cropped picture and never overlap. */
  lemma CellRectsFit(i: nat, j: nat)
    requires i < 16 && j < 16
    ensures Inside(CellRect(i), CropW, CropH)
    ensures i != j ==> Disjoint(CellRect(i), CellRect(j))
  {
  }

  /** Where slot `ndx` of the composed picture goes: no gap between tiles, a margin around them. */
  function SlotRect(ndx: nat): Rect
  {
    Rect(MarginX + (ndx % 4) * TileW, MarginY + (ndx / 4) * TileH, TileW, TileH)
  }

  /**
   * The geometry behind the neighbour rules of the search: the slot before
   * `ndx` sits immediately to its left when `ndx` is not in column 0, and the
   * slot four earlier sits immediately above it when `ndx` is not in row 0.
   */
  lemma SlotNeighbours(ndx: nat)
    ensures ndx % 4 > 0 ==>
      && SlotRect(ndx - 1).x + TileW == SlotRect(ndx).x
      && SlotRect(ndx - 1).y == SlotRect(ndx).y
    ensures ndx / 4 > 0 ==>
      && SlotRect(ndx - 4).y + TileH == SlotRect(ndx).y
      && SlotRect(ndx - 4).x == SlotRect(ndx).x
  {
    if ndx % 4 > 0 {
      assert (ndx - 1) / 4 == ndx / 4 && (ndx - 1) % 4 == ndx % 4 - 1;
    }
    if ndx / 4 > 0 {
      assert (ndx - 4) / 4 == ndx / 4 - 1 && (ndx - 4) % 4 == ndx % 4;
    }
  }

  /** One tile copied onto the canvas: which tile, which transform, where. */
  datatype Blit = Blit(cell: nat, rot: nat, at: Rect)

  /**
   * The copies `genImage` makes: slot `ndx` receives tile `ndxs[ndx]` under
   * transform `rots[ndx]` when that tile exists, and is left as background
   * (`None`) when `cells[ndxs[ndx]]` is undefined.
   */
  method Placements(nCells: nat, ndxs: seq<nat>, rots: seq<nat>) returns (slots: seq<Option<Blit>>)
    requires |rots| == |ndxs|
    ensures |slots| == 16
    ensures forall ndx :: 0 <= ndx < 16 ==>
      slots[ndx] == if ndx < |ndxs| && ndxs[ndx] < nCells
                    then Some(Blit(ndxs[ndx], rots[ndx], SlotRect(ndx)))
                    else None
  {
    slots := [];
    var ndx := 0;
    var r := 0;
    while r < 4
      invariant 0 <= r <= 4
      invariant ndx == 4 * r == |slots|
      invariant forall k :: 0 <= k < |slots| ==>
        slots[k] == if k < |ndxs| && ndxs[k] < nCells then Some(Blit(ndxs[k], rots[k], SlotRect(k))) else None
    {
      var y := r * TileH;
      var c := 0;
      while c < 4
        invariant 0 <= c <= 4
        invariant ndx == 4 * r + c == |slots|
        invariant forall k :: 0 <= k < |slots| ==>
          slots[k] == if k < |ndxs| && ndxs[k] < nCells then Some(Blit(ndxs[k], rots[k], SlotRect(k))) else None
      {
        var x := c * TileW;
        RowMajor(r, c);
        if ndx < |ndxs| && ndxs[ndx] < nCells {
          slots := slots + [Some(Blit(ndxs[ndx], rots[ndx], Rect(MarginX + x, MarginY + y, TileW, TileH)))];
        } else {
          slots := slots + [None];
        }
        ndx := ndx + 1;
        c := c + 1;
      }
      r := r + 1;
    }
  }

  /** The 16 slots fit in the `(2ox + 4w) × (2oy + 4h)` canvas and never overlap. */
  lemma SlotRectsFit(i: nat, j: nat)
    requires i < 16 && j < 16
    ensures Inside(SlotRect(i), CanvasW, CanvasH)
    ensures i != j ==> Disjoint(SlotRect(i), SlotRect(j))
  {
  }
}
