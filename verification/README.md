# Tile-puzzle QR search, modelled in Dafny

`detectQrCode.js` reassembles a QR code that was cut into a 4 × 4 grid of
64 × 64 tiles, shuffled, and mirrored. It cuts the tiles out of a photograph
(`genCells`). Then a backtracking search (`explore`) fills the grid in
row-major order with (tile, transform) pairs. Every placement except the
last is pruned by two rules:

- Border rule: outward sides carry a 16-pixel white marker strip, and the
  sides of interior columns and rows do not.
- Adjacency rule: the 1-pixel edges shared with the left and upper
  neighbours must be identical.

Each complete assignment is composed into a picture (`genImage`) and handed
to a QR decoder (`checkState`). The first one that decodes ends the run.

The model has one module per concern:

| module | file | what it models |
|---|---|---|
| `Config` | config.dfy | the constants of lines 4-12 and the side numbering 0-3 |
| `Layout` | layout.dfy | the rectangle arithmetic of `genCells` and `genImage` |
| `Pixels` | pixels.dfy | tiles as pixel grids; `transformCell`, `getCellLine`, `isWhiteLine`, `isSameLine` |
| `Pool` | pool.dfy | the pool `possible`, `filter`, the pool/used invariant |
| `Search` | search.dfy | `explore` as a pure recursive function; a reference enumeration `Leaves`; a first-match `Scan` |
| `Solutions` | solutions.dfy | what a solution is; the enumeration is exactly the solutions |
| `SearchOrder` | order.dfy | the visiting order and the "least accepted solution" theorem |
| `Solver` | solver.dfy | the pixel predicates plugged into the search, and the driver |
| `Scenarios` | scenarios.dfy | two small cases: one tile, and a tile set without white markers |

The search is generic over tile numbers. Its image predicates are the two
function fields of a `Tests` value. The decoder check is an `accept`
function on `(used, rots)`. `Explore` returns an `Outcome`, which holds the
accepted assignment (if any) and the list of every assignment handed to
`checkState`, in call order. The source stops with `process.exit()`; the
model returns instead. With the call list, "no `checkState` call after the
first success" becomes a statement about a value.

Points where the code is easy to misread, and the model follows the code:

- Transforms are the four axis flips of `transformCell`: 0 is the identity,
  1 mirrors columns, 2 mirrors rows, 3 mirrors both. They are not 90°
  rotations.
- `genImage` places tiles edge to edge inside an outer margin `(ox, oy)`,
  with no gutter between tiles.
- The last placement is never pruned. The `else` branch at line 312 hands
  it to `checkState` without any border or adjacency check.
- `genCells` and `genImage` hard-code 4 × 4, while `explore` uses
  `rows`/`cols`. The search module takes the grid as a parameter. The driver
  uses the configured 4 × 4 grid.

## Model

| member | source | states |
|---|---|---|
| `Layout.CellRects` | detectQrCode.js:14-32 | the nested loop pushes tile `4r + c` cut at column `c`, row `r`: `(ox + (ox+w)c, oy + (oy+h)r)`, size `w × h`, 16 in all |
| `Layout.CellRectsFit` | detectQrCode.js:17-28 | the 16 cut rectangles lie inside the `(ex-sx) × (ey-sy)` crop and are pairwise disjoint |
| `Layout.Placements` | detectQrCode.js:118-141 | slot `ndx` receives tile `ndxs[ndx]` with transform `rots[ndx]` at `(ox + (ndx%4)w, oy + (ndx/4)h)`; a slot whose tile is undefined stays background |
| `Layout.SlotRectsFit` | detectQrCode.js:119-136 | the 16 slots lie inside the `(2ox+4w) × (2oy+4h)` canvas and never overlap |
| `Layout.SlotNeighbours` | detectQrCode.js:121-135 | slot `ndx - 1` sits directly left of slot `ndx` (same `y`, touching) when `ndx` is not in column 0, and slot `ndx - 4` directly above it when `ndx` is not in row 0, which gives the search's left and upper neighbours their place in the picture |
| `Pixels.Flip` | detectQrCode.js:87-93 | Jimp's `flip(horizontal, vertical)` keeps the tile size and moves source pixel `(x, y)` to the position mirrored on each flipped axis |
| `Pixels.TransformCell` | detectQrCode.js:71-116 | every transform keeps the `w × h` size |
| `Pixels.TransformAt` | detectQrCode.js:82-94 | transform `t` reads pixel `(x, y)` from the source with `x` mirrored for 1 and 3 and `y` mirrored for 2 and 3 |
| `Pixels.FlipTwice` | detectQrCode.js:82-94 | two flips compose to one flip that mirrors an axis when exactly one of them does |
| `Pixels.TransformInvolution` | detectQrCode.js:82-94 | each of the four transforms is its own inverse |
| `Pixels.TransformCompose` | detectQrCode.js:82-94 | transform 3 equals transform 1 followed by 2, and 2 followed by 1 |
| `Pixels.Crop` | detectQrCode.js:47-56 | `crop(x0, y0, cw, ch)` gives a `cw × ch` picture whose pixel at offset `(x - x0, y - y0)` is the tile's pixel `(x, y)` |
| `Pixels.CropWhole` | detectQrCode.js:47-56 | cropping the whole `w × h` tile gives the tile back |
| `Pixels.Line` | detectQrCode.js:36-64 | sides 0 and 1 give a `width × h` strip, sides 2 and 3 a `w × width` strip |
| `Pixels.LineAt` | detectQrCode.js:45-58 | strip pixel `(i, j)` is the tile pixel at the strip's offset (last `width` columns for side 1, last rows for side 3) |
| `Pixels.WhiteReference` | detectQrCode.js:66-67 | the white reference for sides 0/1 is `16 × h`, for sides 2/3 `w × 16`, all white, so it has the shape of the strip it is compared with |
| `Pixels.IsWhiteLine` | detectQrCode.js:172-197 | `isWhiteLine` holds exactly when every tile pixel in the 16-pixel strip along the side is `#FFFFFF`, both directions |
| `Pixels.WhiteStripMeaning` | detectQrCode.js:172-197 | the strip equals the all-white reference of its shape exactly when every tile pixel it covers is white |
| `Pixels.IsSameLine` | detectQrCode.js:199-214 | for two sides of the same orientation, `isSameLine` holds exactly when the two strips show equal tile pixels at every strip offset, both directions |
| `Pixels.SameStripMeaning` | detectQrCode.js:199-214 | two strips of the same orientation are equal exactly when the tile pixels at every strip offset agree |
| `Pixels.WhiteLineUnderTransform` | detectQrCode.js:172-197 | a transformed tile is white on a side exactly when the original is white on the mirrored side |
| `Pixels.EdgeMatchMeaning` | detectQrCode.js:199-214 | the 1-pixel right/left and down/up comparisons hold exactly when the touching pixel column or row is identical |
| `Pool.Filter` | detectQrCode.js:220 | `filter` removes every occurrence of the drawn tile and keeps the rest (as a multiset), and shrinks a pool containing the tile |
| `Pool.FilterKeepsDistinct` | detectQrCode.js:220 | filtering a pool without repeats leaves a pool without repeats |
| `Pool.FilterLength` | detectQrCode.js:220 | the filtered pool is shorter by exactly the number of occurrences of the drawn tile |
| `Pool.FilterDistinct` | detectQrCode.js:220 | on a pool without repeats, the drawn tile occurs once and the pool shrinks by exactly one |
| `Pool.ConsIncreasing` | detectQrCode.js:220 | a tile number below every remaining one, put in front, keeps the pool ascending |
| `Pool.FilterIncreasing` | detectQrCode.js:220 | filtering keeps an ascending pool ascending, so pool order stays tile-number order |
| `Pool.PoolInit` | detectQrCode.js:332-337 | the initial state `possible = [0..n-1]`, `used = rots = []` satisfies the pool invariant |
| `Pool.PoolStep` | detectQrCode.js:217-229 | each step keeps `possible` and `used` disjoint with union `0..n-1` and no repeats, `|rots| = |used|`, every `rot < rotz` |
| `Search.RowOf` | detectQrCode.js:238-241 | `lastRow = (lastPos - lastCol)/cols` is exact, `lastRow*cols + lastCol = lastPos`; outside column 0, `lastPos - 1` is in the same row one column left; outside row 0, `lastPos - cols` is in the same column one row up |
| `Search.BorderOk` | detectQrCode.js:247-283 | a tile that passes the border rule at an in-grid position shows a white marker on a left or right side only in the first or last column, and on an up or down side only in the first or last row |
| `Search.Good` | detectQrCode.js:237-305 | `isGood` holds exactly when the border rule holds at the true row `lastPos / cols` and column `lastPos % cols`, the left neighbour matches outside column 0 and the upper neighbour matches outside row 0 |
| `Search.Explore` | detectQrCode.js:216-326 | a result is accepted by `checkState` and is its last call; every earlier call was rejected; with no result, every call was rejected |
| `Search.ExploreFrom` | detectQrCode.js:217-224 | the same first-wins contract for the loop over pool indices |
| `Search.ExploreRots` | detectQrCode.js:225-230 | the same first-wins contract for the loop over transforms |
| `Search.ExploreAt` | detectQrCode.js:237-323 | the same contract for one placement: recurse only after `isGood`, or call `checkState` once when the pool is empty |
| `Search.Scan` | detectQrCode.js:316-322 | first-match scan: the calls are a prefix of the candidates up to the first accepted one; no result exactly when none is accepted |
| `Search.ScanAppend` | detectQrCode.js:316-322 | scanning two candidate lists in a row stops in the first when it finds a result there |
| `Search.ExploreIsScan` | detectQrCode.js:216-326 | the search equals the first-match scan of the reference enumeration `Leaves` |
| `Search.ExploreFromIsScan` | detectQrCode.js:217-224 | the same, for the pool loop from index `ndx` |
| `Search.ExploreRotsIsScan` | detectQrCode.js:225-230 | the same, for the transform loop from `rot` |
| `Search.ExploreAtIsScan` | detectQrCode.js:237-323 | the same, for one placement |
| `Solutions.GoodIsPlacementOk` | detectQrCode.js:238-305 | the check made when slot `k` is filled equals the border and adjacency rules read off the finished grid at row `k/cols`, column `k%cols` |
| `Solutions.ExtendsStep` | detectQrCode.js:237-311 | completing the state after a placement that passed `isGood` completes the state before it |
| `Solutions.LeavesSound` | detectQrCode.js:216-326 | every enumerated assignment completes its state: prefix kept, pool placed once each, transforms below `rotz`, every non-final placement passed |
| `Solutions.LeavesFromSound` | detectQrCode.js:217-224 | the same, for the pool loop |
| `Solutions.LeavesRotsSound` | detectQrCode.js:225-230 | the same, for the transform loop |
| `Solutions.LeavesAtSound` | detectQrCode.js:237-323 | the same, for one placement |
| `Solutions.LeavesComplete` | detectQrCode.js:216-326 | every assignment that completes the state is enumerated (no solution is pruned away) |
| `Solutions.LeavesFromComplete` | detectQrCode.js:217-224 | the same, for the pool loop |
| `Solutions.LeavesRotsComplete` | detectQrCode.js:225-230 | the same, for the transform loop |
| `Solutions.LeavesAtComplete` | detectQrCode.js:237-323 | the same, for one placement |
| `Solutions.ExtendsFromStart` | detectQrCode.js:332-337 | from the initial state, completing it is being a solution: a permutation of `0..n-1`, transforms below `rotz`, every placement but the last obeying the rules |
| `Solutions.LeavesAreSolutions` | detectQrCode.js:216-326 | for at least one tile, the enumeration contains exactly the solutions |
| `Solutions.SearchSound` | detectQrCode.js:307-316 | `checkState` is called only with solutions, in enumeration order, and with all of them when none is accepted |
| `Solutions.SearchComplete` | detectQrCode.js:316-322 | with at least one tile, the search ends without a result exactly when `checkState` accepts no solution |
| `SearchOrder.DiffersFirstAtExcludes` | detectQrCode.js:217-225 | two assignments cannot each precede the other in (tile, transform) order |
| `SearchOrder.BeforeAsymmetric` | detectQrCode.js:217-225 | the visiting order is a strict order |
| `SearchOrder.LeavesAtHead` | detectQrCode.js:218-229 | everything enumerated under one placement starts with that tile and transform |
| `SearchOrder.LeavesRotsHead` | detectQrCode.js:225-229 | everything enumerated from transform `rot` on uses the drawn tile with a transform at least `rot` |
| `SearchOrder.LeavesFromHead` | detectQrCode.js:217-223 | everything enumerated from pool index `ndx` on starts with a tile at index `ndx` or later |
| `SearchOrder.LeavesSorted` | detectQrCode.js:216-326 | from an ascending pool, complete assignments are produced in strictly ascending lexicographic (tile, transform) order |
| `SearchOrder.LeavesFromSorted` | detectQrCode.js:217-224 | the same, for the pool loop |
| `SearchOrder.LeavesRotsSorted` | detectQrCode.js:225-230 | the same, for the transform loop |
| `SearchOrder.LeavesAtSorted` | detectQrCode.js:237-311 | the same, for one placement |
| `SearchOrder.SearchFindsLeast` | detectQrCode.js:316-322 | `checkState` calls come in strictly ascending order, and a result is the least accepted solution: every solution before it is rejected |
| `Solver.Solve` | detectQrCode.js:328-338 | the driver on 4 × 4 tiles with 4 transforms: only solutions are checked, in ascending order; a result is accepted, least, and the last `checkState` call; no result means every solution was checked, and (with tiles) that no solution is accepted |
| `Solver.Shown` | detectQrCode.js:128-135 | the picture a slot of the assembled grid shows, when its tile exists, is a `w × h` tile |
| `Scenarios.OneTileIsCheckedUnpruned` | detectQrCode.js:312-322 | with one tile, the first placement reaches `checkState` unpruned whatever the image predicates say; if accepted it is the only call and the result, if rejected transform 1 is checked next |
| `Scenarios.NoLeavesRots` | detectQrCode.js:247-249 | with no white strip anywhere, a first placement that leaves tiles in the pool fails the column-0 rule for every transform |
| `Scenarios.NoLeavesFrom` | detectQrCode.js:217-224 | the same, for every candidate tile of the pool |
| `Scenarios.NoMarkersNoChecks` | detectQrCode.js:237-311 | with no white strip anywhere and two tiles or more, the search ends without a result and without a single `checkState` call |
| `Solver.SolutionShown` | detectQrCode.js:243 | every slot of a solution shows its tile under its transform (the placed tiles are exactly `0..n-1`) |
| `Solver.SolutionBorders` | detectQrCode.js:247-283 | in pixels, for every slot but the last: outward 16-pixel strips are all white, interior sides have a non-white pixel |
| `Solver.SolutionEdgeLeft` | detectQrCode.js:286-294 | in pixels, for every slot but the last outside the first column: the left neighbour's right 1-pixel edge equals the slot's left edge |
| `Solver.SolutionEdgeUp` | detectQrCode.js:296-304 | in pixels, for every slot but the last outside the first row: the upper neighbour's bottom 1-pixel edge equals the slot's top edge |

## Left out

- Image I/O is not modelled: `Jimp.read`, `image.write`, the pixel copying of `crop`, `clone` and `blit`, and the `#000080` background fill. Only the rectangle arithmetic is kept. Strips are modelled by index remapping inside a tile.
- QR decoding (`checkImage`, `QrCodeReader`) and the composed picture it reads are the opaque `accept` oracle on `(used, rots)`. A failed write makes `checkState` return false too; that is folded into the same oracle.
- Pixels.IsWhiteLine: `Jimp.diff` reports a difference percentage with a colour threshold; the model compares strips for exact equality, which is a simplification.
- Pixels.IsSameLine: the same simplification, exact equality in place of `Jimp.diff`'s percentage.
- Pixels.Line: Jimp clamps a crop that leaves the picture; the model requires the strip thickness to fit the tile, as both callers do (16 and 1 against 64).
- The `WeakMap` caches `cellLineCache` and `transformCellCache` are memoisation keyed on object identity and change no result; the model uses the pure functions.
- `async`/`await`, the progress dots written to stdout, and `console.log` are not modelled. `process.exit()` is replaced by returning the `Outcome`.
- The `path` field is recorded but never read. The commented-out code is not modelled: the `rotate(90)` transforms 4-7 and the `used.length == 8` skip.
- Transforms above 3 are undefined in the source. The pixel tests answer false for them. The pixel-level lemmas `SolutionShown`, `SolutionBorders`, `SolutionEdgeLeft` and `SolutionEdgeUp` require `rotz <= 4`.
- The JavaScript `%` is applied only to non-negative integers, where it agrees with Dafny's `%`. The JavaScript `/` is floating-point division. Its only use, `(lastPos - lastCol) / cols` at detectQrCode.js:241, divides a multiple of `cols`, so the quotient is a whole number and equals Dafny's integer `/`; `Search.RowOf` proves this.
