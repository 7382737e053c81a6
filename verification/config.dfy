/**
 * The fixed configuration of the tile search (detectQrCode.js lines 4-12)
 * and the numbering of tile sides shared by the pixel layer and the search.
 */
module Config {

  /** Top-left corner `(sx, sy)` of the crop window on the source photograph. */
  const StartX: int := 844
  const StartY: int := 60

  /** Bottom-right corner `(ex, ey)` of the crop window. */
  const EndX: int := 1138
  const EndY: int := 356

  /** Margin `(ox, oy)`: the gap before and between tiles in the cropped picture. */
  const MarginX: nat := 8
  const MarginY: nat := 8

  /** Tile size `(w, h)` in pixels. */
  const TileW: nat := 64
  const TileH: nat := 64

  /** Grid size and number of transforms tried per tile (`rows`, `cols`, `rotz`). */
  const Rows: nat := 4
  const Cols: nat := 4
  const Rotz: nat := 4

  /** Thickness of the white marker strip on the outward sides of border tiles. */
  const WhiteWidth: nat := 16

  /** The four sides of a tile; the source numbers them 0 (left), 1 (right), 2 (up), 3 (down). */
  datatype Side = Left | Right | Up | Down
}
