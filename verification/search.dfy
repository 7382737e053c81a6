/**
 * The backtracking search `explore` as a pure recursive function over tile
 * numbers. The image predicates it prunes with are the two functions of a
 * `Tests` value; the decoder check `checkState` is the `accept` function.
 *
 * The search fills a `rows × cols` grid in row-major order. At each step it
 * draws a tile from the pool in pool order and tries transforms `0..rotz-1`.
 * A placement that leaves the pool non-empty is pruned by the border and
 * adjacency rules; a placement that empties the pool is never pruned and
 * goes straight to `accept`. The first accepted assignment ends the search.
 */
module Search {
  import opened Wrappers
  import opened Config
  import opened Pool

  /** Grid height and width, and the number of transforms tried per tile. */
  datatype Grid = Grid(rows: nat, cols: nat, rotz: nat)

  /** Placed tiles in row-major order with the transform of each (`used`, `rots`). */
  datatype Assignment = Assignment(used: seq<nat>, rots: seq<nat>)

  /**
   * The image predicates, over (tile, transform) pairs: `white(tile, rot, side)`
   * is `isWhiteLine`, `same(a, ra, sa, b, rb, sb)` is the 1-pixel `isSameLine`.
   */
  datatype Tests = Tests(white: (nat, nat, Side) -> bool, same: (nat, nat, Side, nat, nat, Side) -> bool)

  /** The decoder check `checkState(cells, used, rots)`. */
  type Oracle = (seq<nat>, seq<nat>) -> bool

  predicate Accepts(accept: Oracle, a: Assignment)
  {
    accept(a.used, a.rots)
  }

  /**
   * What a run of the search amounts to: the accepted assignment, if any,
   * and every assignment handed to `checkState`, in call order.
   */
  datatype Outcome = Outcome(found: Option<Assignment>, checked: seq<Assignment>)

  /** `d * c` grows with `d`. */
  lemma {:induction false} MulAtLeast(d: nat, c: nat)
    requires d >= 1
    ensures d * c >= c
  {
    if d > 1 {
      MulAtLeast(d - 1, c);
      assert d * c == (d - 1) * c + c;
    }
  }

  /** Quotient and remainder are determined by any decomposition `x == q * c + m` with `0 <= m < c`. */
  lemma DivUnique(x: nat, c: nat, q: nat, m: nat)
    requires c > 0 && m < c && x == q * c + m
    ensures x / c == q && x % c == m
  {
    var q', m' := x / c, x % c;
    assert x == q' * c + m';
    if q' > q {
      MulAtLeast(q' - q, c);
    } else if q' < q {
      MulAtLeast(q - q', c);
    }
  }

  /**
   * Row-major index arithmetic: `(pos - pos % cols) / cols` is the row; the
   * index before `pos` is its left neighbour in the same row when the column
   * is not 0, and the index `cols` earlier is its upper neighbour in the same
   * column when the row is not 0.
   */
  lemma RowOf(pos: nat, cols: nat)
    requires cols > 0
    ensures (pos - pos % cols) / cols == pos / cols
    ensures (pos / cols) * cols + pos % cols == pos
    ensures pos / cols > 0 ==> pos >= cols
    ensures pos % cols > 0 ==> pos >= 1
    ensures pos % cols > 0 ==> (pos - 1) / cols == pos / cols && (pos - 1) % cols == pos % cols - 1
    ensures pos / cols > 0 ==> (pos - cols) / cols == pos / cols - 1 && (pos - cols) % cols == pos % cols
  {
    var q, m := pos / cols, pos % cols;
    DivUnique(pos - m, cols, q, 0);
    if m > 0 {
      DivUnique(pos - 1, cols, q, m - 1);
    }
    if q > 0 {
      MulAtLeast(q, cols);
      DivUnique(pos - cols, cols, q - 1, m);
    }
  }

  /**
   * The border rule for a tile shown with transform `rot` at `(row, col)`:
   * outward sides carry the white marker, the sides of interior columns and
   * rows do not. So a tile that passes shows a marker only on the frame.
   */
  predicate BorderOk(t: Tests, g: Grid, row: int, col: int, tile: nat, rot: nat): (r: bool)
    ensures r && 0 <= col < g.cols && (t.white(tile, rot, Left) || t.white(tile, rot, Right)) ==>
      col == 0 || col == g.cols - 1
    ensures r && 0 <= row < g.rows && (t.white(tile, rot, Up) || t.white(tile, rot, Down)) ==>
      row == 0 || row == g.rows - 1
  {
    && (col == 0 ==> t.white(tile, rot, Left))
    && (row == 0 ==> t.white(tile, rot, Up))
    && (col != 0 && col != g.cols - 1 ==> !t.white(tile, rot, Left) && !t.white(tile, rot, Right))
    && (row != 0 && row != g.rows - 1 ==> !t.white(tile, rot, Up) && !t.white(tile, rot, Down))
    && (col == g.cols - 1 ==> t.white(tile, rot, Right))
    && (row == g.rows - 1 ==> t.white(tile, rot, Down))
  }

  /**
   * `isGood` for the placement just made, the last entry of `used`/`rots`:
   * its position `lastPos`, column `lastCol` and row `lastRow` are computed
   * as the source does, then the border rule and the 1-pixel match against
   * the left and upper neighbours are required. The source's row formula is
   * the true row, and its guard `lastRow > 0 || lastCol > 0` changes nothing.
   */
  predicate Good(t: Tests, g: Grid, used: seq<nat>, rots: seq<nat>): (r: bool)
    requires g.cols > 0 && |used| == |rots| > 0
    ensures var pos := |used| - 1;
      (RowOf(pos, g.cols);
       r <==>
         && BorderOk(t, g, pos / g.cols, pos % g.cols, used[pos], rots[pos])
         && (pos % g.cols > 0 ==> t.same(used[pos - 1], rots[pos - 1], Right, used[pos], rots[pos], Left))
         && (pos / g.cols > 0 ==> t.same(used[pos - g.cols], rots[pos - g.cols], Down, used[pos], rots[pos], Up)))
  {
    var lastPos := |used| - 1;
    var lastCol := lastPos % g.cols;
    var lastRow := (lastPos - lastCol) / g.cols;
    var cell, rot := used[lastPos], rots[lastPos];
    RowOf(lastPos, g.cols);
    && BorderOk(t, g, lastRow, lastCol, cell, rot)
    && (lastRow > 0 || lastCol > 0 ==>
          && (lastCol > 0 ==> t.same(used[lastPos - 1], rots[lastPos - 1], Right, cell, rot, Left))
          && (lastRow > 0 ==> t.same(used[lastPos - g.cols], rots[lastPos - g.cols], Down, cell, rot, Up)))
  }

  /* ---------------------------------------------------------------------
   * The search itself. The two nested loops of `explore` become
   * `ExploreFrom` (over pool index `ndx`) and `ExploreRots` (over `rot`);
   * `ExploreAt` is the body of the inner loop.
   * ------------------------------------------------------------------ */

  /** `explore(cells, {possible, used, rots})`. */
  function Explore(t: Tests, accept: Oracle, g: Grid, possible: seq<nat>, used: seq<nat>, rots: seq<nat>): (o: Outcome)
    requires g.cols > 0 && |used| == |rots|
    ensures o.found.None? ==> forall i :: 0 <= i < |o.checked| ==> !Accepts(accept, o.checked[i])
    ensures o.found.Some? ==> |o.checked| > 0 && o.checked[|o.checked| - 1] == o.found.value
    ensures o.found.Some? ==> Accepts(accept, o.found.value)
    ensures o.found.Some? ==> forall i :: 0 <= i < |o.checked| - 1 ==> !Accepts(accept, o.checked[i])
    decreases |possible|, 3, 0
  {
    ExploreFrom(t, accept, g, possible, 0, used, rots)
  }

  /** The outer loop from pool index `ndx` on. */
  function ExploreFrom(t: Tests, accept: Oracle, g: Grid, possible: seq<nat>, ndx: nat, used: seq<nat>, rots: seq<nat>): (o: Outcome)
    requires g.cols > 0 && |used| == |rots|
    ensures o.found.None? ==> forall i :: 0 <= i < |o.checked| ==> !Accepts(accept, o.checked[i])
    ensures o.found.Some? ==> |o.checked| > 0 && o.checked[|o.checked| - 1] == o.found.value
    ensures o.found.Some? ==> Accepts(accept, o.found.value)
    ensures o.found.Some? ==> forall i :: 0 <= i < |o.checked| - 1 ==> !Accepts(accept, o.checked[i])
    decreases |possible|, 2, |possible| - ndx
  {
    if ndx >= |possible| then Outcome(None, [])
    else
      var here := ExploreRots(t, accept, g, possible, ndx, used, rots, 0);
      if here.found.Some? then here
      else
        var later := ExploreFrom(t, accept, g, possible, ndx + 1, used, rots);
        Outcome(later.found, here.checked + later.checked)
  }

  /** The inner loop over transforms `rot..rotz-1` for the candidate `possible[ndx]`. */
  function ExploreRots(t: Tests, accept: Oracle, g: Grid, possible: seq<nat>, ndx: nat, used: seq<nat>, rots: seq<nat>, rot: nat): (o: Outcome)
    requires g.cols > 0 && |used| == |rots| && ndx < |possible|
    ensures o.found.None? ==> forall i :: 0 <= i < |o.checked| ==> !Accepts(accept, o.checked[i])
    ensures o.found.Some? ==> |o.checked| > 0 && o.checked[|o.checked| - 1] == o.found.value
    ensures o.found.Some? ==> Accepts(accept, o.found.value)
    ensures o.found.Some? ==> forall i :: 0 <= i < |o.checked| - 1 ==> !Accepts(accept, o.checked[i])
    decreases |possible|, 1, g.rotz - rot
  {
    if rot >= g.rotz then Outcome(None, [])
    else
      var here := ExploreAt(t, accept, g, possible, ndx, used, rots, rot);
      if here.found.Some? then here
      else
        var later := ExploreRots(t, accept, g, possible, ndx, used, rots, rot + 1);
        Outcome(later.found, here.checked + later.checked)
  }

  /**
   * One placement: tile `possible[ndx]` with transform `rot`. With tiles
   * left in the pool it recurses only if `Good`; with the pool empty it
   * calls `checkState` unconditionally.
   */
  function ExploreAt(t: Tests, accept: Oracle, g: Grid, possible: seq<nat>, ndx: nat, used: seq<nat>, rots: seq<nat>, rot: nat): (o: Outcome)
    requires g.cols > 0 && |used| == |rots| && ndx < |possible|
    ensures o.found.None? ==> forall i :: 0 <= i < |o.checked| ==> !Accepts(accept, o.checked[i])
    ensures o.found.Some? ==> |o.checked| > 0 && o.checked[|o.checked| - 1] == o.found.value
    ensures o.found.Some? ==> Accepts(accept, o.found.value)
    ensures o.found.Some? ==> forall i :: 0 <= i < |o.checked| - 1 ==> !Accepts(accept, o.checked[i])
    decreases |possible|, 0, 0
  {
    var cellNum := possible[ndx];
    var rest := Filter(possible, cellNum);
    var used', rots' := used + [cellNum], rots + [rot];
    if |rest| != 0 then
      if Good(t, g, used', rots') then Explore(t, accept, g, rest, used', rots') else Outcome(None, [])
    else
      var a := Assignment(used', rots');
      Outcome(if Accepts(accept, a) then Some(a) else None, [a])
  }

  /* ---------------------------------------------------------------------
   * Reference definitions: the order in which complete assignments reach
   * `checkState` when nothing is accepted, and a first-match scan.
   * ------------------------------------------------------------------ */

  /** Every complete assignment the pruned search reaches, in search order. */
  function Leaves(t: Tests, g: Grid, possible: seq<nat>, used: seq<nat>, rots: seq<nat>): seq<Assignment>
    requires g.cols > 0 && |used| == |rots|
    decreases |possible|, 3, 0
  {
    LeavesFrom(t, g, possible, 0, used, rots)
  }

  function LeavesFrom(t: Tests, g: Grid, possible: seq<nat>, ndx: nat, used: seq<nat>, rots: seq<nat>): seq<Assignment>
    requires g.cols > 0 && |used| == |rots|
    decreases |possible|, 2, |possible| - ndx
  {
    if ndx >= |possible| then []
    else LeavesRots(t, g, possible, ndx, used, rots, 0) + LeavesFrom(t, g, possible, ndx + 1, used, rots)
  }

  function LeavesRots(t: Tests, g: Grid, possible: seq<nat>, ndx: nat, used: seq<nat>, rots: seq<nat>, rot: nat): seq<Assignment>
    requires g.cols > 0 && |used| == |rots| && ndx < |possible|
    decreases |possible|, 1, g.rotz - rot
  {
    if rot >= g.rotz then []
    else LeavesAt(t, g, possible, ndx, used, rots, rot) + LeavesRots(t, g, possible, ndx, used, rots, rot + 1)
  }

  function LeavesAt(t: Tests, g: Grid, possible: seq<nat>, ndx: nat, used: seq<nat>, rots: seq<nat>, rot: nat): seq<Assignment>
    requires g.cols > 0 && |used| == |rots| && ndx < |possible|
    decreases |possible|, 0, 0
  {
    var cellNum := possible[ndx];
    var rest := Filter(possible, cellNum);
    var used', rots' := used + [cellNum], rots + [rot];
    if |rest| != 0 then
      if Good(t, g, used', rots') then Leaves(t, g, rest, used', rots') else []
    else [Assignment(used', rots')]
  }

  /**
   * Hand the assignments of `s` to `accept` one by one and stop at the
   * first one accepted: `checked` is the prefix of `s` up to and including
   * it (all of `s` when none is accepted).
   */
  function Scan(s: seq<Assignment>, accept: Oracle): (o: Outcome)
    ensures o.checked <= s
    ensures o.found.None? <==> forall i :: 0 <= i < |s| ==> !Accepts(accept, s[i])
    ensures o.found.None? ==> o.checked == s
    ensures o.found.Some? ==> |o.checked| > 0 && o.checked[|o.checked| - 1] == o.found.value
    ensures o.found.Some? ==> Accepts(accept, o.found.value)
    ensures o.found.Some? ==> forall i :: 0 <= i < |o.checked| - 1 ==> !Accepts(accept, o.checked[i])
  {
    if |s| == 0 then Outcome(None, [])
    else if Accepts(accept, s[0]) then Outcome(Some(s[0]), [s[0]])
    else
      var o := Scan(s[1..], accept);
      assert forall i :: 1 <= i < |s| ==> s[i] == s[1..][i - 1];
      Outcome(o.found, [s[0]] + o.checked)
  }

  /** Scanning a concatenation scans the first part and continues into the second only if nothing was accepted. */
  lemma {:induction false} ScanAppend(s: seq<Assignment>, s': seq<Assignment>, accept: Oracle)
    ensures Scan(s + s', accept)
         == if Scan(s, accept).found.Some? then Scan(s, accept)
            else Outcome(Scan(s', accept).found, Scan(s, accept).checked + Scan(s', accept).checked)
  {
    if |s| > 0 {
      assert (s + s')[0] == s[0];
      assert (s + s')[1..] == s[1..] + s';
      ScanAppend(s[1..], s', accept);
      if !Accepts(accept, s[0]) {
        assert [s[0]] + (Scan(s[1..], accept).checked + Scan(s', accept).checked)
            == ([s[0]] + Scan(s[1..], accept).checked) + Scan(s', accept).checked;
      }
    } else {
      assert s + s' == s';
    }
  }

  /* ---------------------------------------------------------------------
   * The search is the scan of its reference order.
   * ------------------------------------------------------------------ */

  lemma {:induction false} ExploreIsScan(t: Tests, accept: Oracle, g: Grid, possible: seq<nat>, used: seq<nat>, rots: seq<nat>)
    requires g.cols > 0 && |used| == |rots|
    ensures Explore(t, accept, g, possible, used, rots) == Scan(Leaves(t, g, possible, used, rots), accept)
    decreases |possible|, 3, 0
  {
    ExploreFromIsScan(t, accept, g, possible, 0, used, rots);
  }

  lemma {:induction false} ExploreFromIsScan(t: Tests, accept: Oracle, g: Grid, possible: seq<nat>, ndx: nat, used: seq<nat>, rots: seq<nat>)
    requires g.cols > 0 && |used| == |rots|
    ensures ExploreFrom(t, accept, g, possible, ndx, used, rots) == Scan(LeavesFrom(t, g, possible, ndx, used, rots), accept)
    decreases |possible|, 2, |possible| - ndx
  {
    if ndx < |possible| {
      ExploreRotsIsScan(t, accept, g, possible, ndx, used, rots, 0);
      ExploreFromIsScan(t, accept, g, possible, ndx + 1, used, rots);
      ScanAppend(LeavesRots(t, g, possible, ndx, used, rots, 0), LeavesFrom(t, g, possible, ndx + 1, used, rots), accept);
    }
  }

  lemma {:induction false} ExploreRotsIsScan(t: Tests, accept: Oracle, g: Grid, possible: seq<nat>, ndx: nat, used: seq<nat>, rots: seq<nat>, rot: nat)
    requires g.cols > 0 && |used| == |rots| && ndx < |possible|
    ensures ExploreRots(t, accept, g, possible, ndx, used, rots, rot) == Scan(LeavesRots(t, g, possible, ndx, used, rots, rot), accept)
    decreases |possible|, 1, g.rotz - rot
  {
    if rot < g.rotz {
      ExploreAtIsScan(t, accept, g, possible, ndx, used, rots, rot);
      ExploreRotsIsScan(t, accept, g, possible, ndx, used, rots, rot + 1);
      ScanAppend(LeavesAt(t, g, possible, ndx, used, rots, rot), LeavesRots(t, g, possible, ndx, used, rots, rot + 1), accept);
    }
  }

  lemma {:induction false} ExploreAtIsScan(t: Tests, accept: Oracle, g: Grid, possible: seq<nat>, ndx: nat, used: seq<nat>, rots: seq<nat>, rot: nat)
    requires g.cols > 0 && |used| == |rots| && ndx < |possible|
    ensures ExploreAt(t, accept, g, possible, ndx, used, rots, rot) == Scan(LeavesAt(t, g, possible, ndx, used, rots, rot), accept)
    decreases |possible|, 0, 0
  {
    var cellNum := possible[ndx];
    var rest := Filter(possible, cellNum);
    var used', rots' := used + [cellNum], rots + [rot];
    if |rest| != 0 {
      if Good(t, g, used', rots') {
        ExploreIsScan(t, accept, g, rest, used', rots');
      }
    } else {
      var a := Assignment(used', rots');
      assert [a][1..] == [];
    }
  }
}
