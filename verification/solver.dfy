/**
 * The search run on real tiles: the pixel predicates plugged into the
 * generic search, and the driver that starts it with the full pool
 * `[0..n-1]` on the configured 4 × 4 grid with 4 transforms.
 */
module Solver {
  import opened Wrappers
  import opened Config
  import opened Pixels
  import opened Pool
  import opened Search
  import opened Solutions
  import opened SearchOrder

  /** Every cell `genCells` produced is a `w × h` tile. */
  predicate AllTiles(cells: seq<Image>)
  {
    forall i :: 0 <= i < |cells| ==> IsTile(cells[i])
  }

  /**
   * `isWhiteLine(transformCell(cells[tile], rot), side)` and the 1-pixel
   * `isSameLine` of two transformed cells, as the search consults them.
   * Out-of-range tiles and transforms (which the search never produces
   * when `rotz <= 4`) answer false.
   */
  function PixelTests(cells: seq<Image>): Tests
  {
    Tests(
      (tile: nat, rot: nat, side: Side) =>
        tile < |cells| && rot < 4 && IsTile(cells[tile]) && IsWhiteLine(TransformCell(cells[tile], rot), side),
      (a: nat, ra: nat, sa: Side, b: nat, rb: nat, sb: Side) =>
        a < |cells| && b < |cells| && ra < 4 && rb < 4 && IsTile(cells[a]) && IsTile(cells[b])
        && IsSameLine(TransformCell(cells[a], ra), TransformCell(cells[b], rb), sa, sb, 1))
  }

  /** The configured search: `rows × cols` = 4 × 4, transforms 0 to 3. */
  const Configured: Grid := Grid(Rows, Cols, Rotz)

  /**
   * The driver: `explore` from the full pool, nothing placed. `checkState`
   * sees only solutions, in ascending order; a result is accepted and is
   * the least accepted solution; no result means (for at least one tile)
   * that no solution is accepted.
   */
  function Solve(cells: seq<Image>, accept: Oracle): (o: Outcome)
    requires AllTiles(cells)
    ensures forall i :: 0 <= i < |o.checked| ==> IsSolution(PixelTests(cells), Configured, |cells|, o.checked[i])
    ensures Sorted(o.checked)
    ensures o.found.Some? ==> Accepts(accept, o.found.value)
    ensures o.found.Some? ==> |o.checked| > 0 && o.checked[|o.checked| - 1] == o.found.value
    ensures o.found.None? ==> o.checked == Leaves(PixelTests(cells), Configured, Range(|cells|), [], [])
    ensures o.found.Some? ==>
      forall b :: IsSolution(PixelTests(cells), Configured, |cells|, b) && Before(b, o.found.value) ==> !Accepts(accept, b)
    ensures |cells| > 0 ==>
      (o.found.None? <==> forall a :: IsSolution(PixelTests(cells), Configured, |cells|, a) ==> !Accepts(accept, a))
  {
    SearchSound(PixelTests(cells), accept, Configured, |cells|);
    SearchFindsLeast(PixelTests(cells), accept, Configured, |cells|);
    SearchComplete(PixelTests(cells), accept, Configured, |cells|);
    Explore(PixelTests(cells), accept, Configured, Range(|cells|), [], [])
  }

  /** The transformed tile a slot of the assembled grid shows, when the slot's tile exists. */
  function Shown(cells: seq<Image>, a: Assignment, k: nat): (r: Option<Image>)
    requires AllTiles(cells)
    ensures r.Some? ==> IsTile(r.value)
  {
    if k < |a.used| && k < |a.rots| && a.used[k] < |cells| && a.rots[k] < 4
    then Some(TransformCell(cells[a.used[k]], a.rots[k]))
    else None
  }

  /** A permutation of `0..n-1` holds only tile numbers below `n`. */
  lemma PermutationBound(s: seq<nat>, n: nat, k: nat)
    requires IsPermutation(s, n) && k < |s|
    ensures s[k] < n
  {
    assert s[k] in multiset(Range(n));
    var i :| 0 <= i < n && Range(n)[i] == s[k];
  }

  /** Every slot of a solution with transforms below 4 shows a tile. */
  lemma SolutionShown(cells: seq<Image>, g: Grid, a: Assignment, k: nat)
    requires AllTiles(cells) && g.cols > 0 && g.rotz <= 4
    requires IsSolution(PixelTests(cells), g, |cells|, a) && k < |cells|
    ensures k < |a.used| && a.used[k] < |cells| && a.rots[k] < 4
    ensures Shown(cells, a, k) == Some(TransformCell(cells[a.used[k]], a.rots[k]))
  {
    PermutationBound(a.used, |cells|, k);
  }

  /**
   * What a solution means in pixels at the borders, for every slot `k` but
   * the last: outward sides carry a fully white marker strip, the sides of
   * interior columns and rows show at least one non-white pixel in theirs.
   */
  lemma SolutionBorders(cells: seq<Image>, g: Grid, a: Assignment, k: nat)
    requires AllTiles(cells) && g.cols > 0 && g.rotz <= 4
    requires IsSolution(PixelTests(cells), g, |cells|, a) && k + 1 < |cells|
    ensures Shown(cells, a, k).Some?
    ensures var tile, row, col := Shown(cells, a, k).value, k / g.cols, k % g.cols;
      && (col == 0 ==> AllWhite(tile, Left))
      && (row == 0 ==> AllWhite(tile, Up))
      && (col == g.cols - 1 ==> AllWhite(tile, Right))
      && (row == g.rows - 1 ==> AllWhite(tile, Down))
      && (col != 0 && col != g.cols - 1 ==> !AllWhite(tile, Left) && !AllWhite(tile, Right))
      && (row != 0 && row != g.rows - 1 ==> !AllWhite(tile, Up) && !AllWhite(tile, Down))
  {
    var t := PixelTests(cells);
    SolutionShown(cells, g, a, k);
    assert PlacementOk(t, g, a, k);
    RowOf(k, g.cols);
    var tile := Shown(cells, a, k).value;
    assert forall side: Side :: t.white(a.used[k], a.rots[k], side) <==> AllWhite(tile, side);
  }

  /**
   * What a solution means in pixels between row neighbours, for every slot
   * `k` but the last that is not in the first column: the right 1-pixel edge
   * of its left neighbour is identical to its own left edge.
   */
  lemma SolutionEdgeLeft(cells: seq<Image>, g: Grid, a: Assignment, k: nat)
    requires AllTiles(cells) && g.cols > 0 && g.rotz <= 4
    requires IsSolution(PixelTests(cells), g, |cells|, a) && k + 1 < |cells|
    requires k % g.cols > 0
    ensures k >= 1
    ensures Shown(cells, a, k - 1).Some? && Shown(cells, a, k).Some?
    ensures forall y :: 0 <= y < TileH ==> Shown(cells, a, k - 1).value[y][TileW - 1] == Shown(cells, a, k).value[y][0]
  {
    assert PlacementOk(PixelTests(cells), g, a, k);
    RowOf(k, g.cols);
    SolutionShown(cells, g, a, k);
    SolutionShown(cells, g, a, k - 1);
    EdgeMatchMeaning(Shown(cells, a, k - 1).value, Shown(cells, a, k).value);
  }

  /**
   * What a solution means in pixels between column neighbours, for every
   * slot `k` but the last that is not in the first row: the bottom 1-pixel
   * edge of its upper neighbour is identical to its own top edge.
   */
  lemma SolutionEdgeUp(cells: seq<Image>, g: Grid, a: Assignment, k: nat)
    requires AllTiles(cells) && g.cols > 0 && g.rotz <= 4
    requires IsSolution(PixelTests(cells), g, |cells|, a) && k + 1 < |cells|
    requires k / g.cols > 0
    ensures k >= g.cols
    ensures Shown(cells, a, k - g.cols).Some? && Shown(cells, a, k).Some?
    ensures forall x :: 0 <= x < TileW ==> Shown(cells, a, k - g.cols).value[TileH - 1][x] == Shown(cells, a, k).value[0][x]
  {
    assert PlacementOk(PixelTests(cells), g, a, k);
    RowOf(k, g.cols);
    SolutionShown(cells, g, a, k);
    SolutionShown(cells, g, a, k - g.cols);
    EdgeMatchMeaning(Shown(cells, a, k - g.cols).value, Shown(cells, a, k).value);
  }
}
