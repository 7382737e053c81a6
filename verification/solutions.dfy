/**
 * What the search finds, stated without reference to its loops: a solution
 * is a permutation of the tiles with one transform per tile in which every
 * placement but the last obeys the border and adjacency rules. The
 * enumeration `Leaves` produces exactly the solutions, so `Explore` hands
 * `checkState` only solutions and misses none.
 */
module Solutions {
  import opened Wrappers
  import opened Config
  import opened Pool
  import opened Search

  /**
   * The rules at position `k` of a complete assignment, read off the grid:
   * row `k / cols`, column `k % cols`, left neighbour at `k - 1`, upper
   * neighbour at `k - cols`.
   */
  predicate PlacementOk(t: Tests, g: Grid, a: Assignment, k: nat)
    requires g.cols > 0 && |a.rots| == |a.used| && k < |a.used|
  {
    var row, col := k / g.cols, k % g.cols;
    RowOf(k, g.cols);
    && BorderOk(t, g, row, col, a.used[k], a.rots[k])
    && (col > 0 ==> t.same(a.used[k - 1], a.rots[k - 1], Right, a.used[k], a.rots[k], Left))
    && (row > 0 ==> t.same(a.used[k - g.cols], a.rots[k - g.cols], Down, a.used[k], a.rots[k], Up))
  }

  /** The check made when position `k` is filled agrees with the rules read off the finished assignment. */
  lemma GoodIsPlacementOk(t: Tests, g: Grid, a: Assignment, k: nat)
    requires g.cols > 0 && |a.rots| == |a.used| && k < |a.used|
    ensures Good(t, g, a.used[..k + 1], a.rots[..k + 1]) <==> PlacementOk(t, g, a, k)
  {
    RowOf(k, g.cols);
  }

  /**
   * `a` completes the state `(possible, used, rots)`: it starts with
   * `used`/`rots`, places the pool's tiles once each with transforms below
   * `rotz`, and every placement it adds that is not the last passes `Good`.
   */
  ghost predicate Extends(t: Tests, g: Grid, possible: seq<nat>, used: seq<nat>, rots: seq<nat>, a: Assignment)
    requires g.cols > 0 && |used| == |rots|
  {
    && |a.used| == |used| + |possible|
    && |a.rots| == |a.used|
    && a.used[..|used|] == used
    && a.rots[..|used|] == rots
    && multiset(a.used[|used|..]) == multiset(possible)
    && (forall i :: |used| <= i < |a.rots| ==> a.rots[i] < g.rotz)
    && (forall k :: |used| < k < |a.used| ==> Good(t, g, a.used[..k], a.rots[..k]))
  }

  /* ---------------------------------------------------------------------
   * Soundness: everything enumerated completes the state.
   * ------------------------------------------------------------------ */

  lemma {:induction false} LeavesSound(t: Tests, g: Grid, possible: seq<nat>, used: seq<nat>, rots: seq<nat>, a: Assignment)
    requires g.cols > 0 && |used| == |rots| && Distinct(possible)
    requires a in Leaves(t, g, possible, used, rots)
    ensures Extends(t, g, possible, used, rots, a)
    decreases |possible|, 3, 0
  {
    LeavesFromSound(t, g, possible, 0, used, rots, a);
  }

  lemma {:induction false} LeavesFromSound(t: Tests, g: Grid, possible: seq<nat>, ndx: nat, used: seq<nat>, rots: seq<nat>, a: Assignment)
    requires g.cols > 0 && |used| == |rots| && Distinct(possible)
    requires a in LeavesFrom(t, g, possible, ndx, used, rots)
    ensures Extends(t, g, possible, used, rots, a)
    decreases |possible|, 2, |possible| - ndx
  {
    if a in LeavesRots(t, g, possible, ndx, used, rots, 0) {
      LeavesRotsSound(t, g, possible, ndx, used, rots, 0, a);
    } else {
      LeavesFromSound(t, g, possible, ndx + 1, used, rots, a);
    }
  }

  lemma {:induction false} LeavesRotsSound(t: Tests, g: Grid, possible: seq<nat>, ndx: nat, used: seq<nat>, rots: seq<nat>, rot: nat, a: Assignment)
    requires g.cols > 0 && |used| == |rots| && Distinct(possible) && ndx < |possible|
    requires a in LeavesRots(t, g, possible, ndx, used, rots, rot)
    ensures Extends(t, g, possible, used, rots, a)
    decreases |possible|, 1, g.rotz - rot
  {
    if a in LeavesAt(t, g, possible, ndx, used, rots, rot) {
      LeavesAtSound(t, g, possible, ndx, used, rots, rot, a);
    } else {
      LeavesRotsSound(t, g, possible, ndx, used, rots, rot + 1, a);
    }
  }

  lemma {:induction false} LeavesAtSound(t: Tests, g: Grid, possible: seq<nat>, ndx: nat, used: seq<nat>, rots: seq<nat>, rot: nat, a: Assignment)
    requires g.cols > 0 && |used| == |rots| && Distinct(possible) && ndx < |possible| && rot < g.rotz
    requires a in LeavesAt(t, g, possible, ndx, used, rots, rot)
    ensures Extends(t, g, possible, used, rots, a)
    decreases |possible|, 0, 0
  {
    var c := possible[ndx];
    var rest := Filter(possible, c);
    var used', rots' := used + [c], rots + [rot];
    FilterDistinct(possible, c);
    assert multiset(possible) == multiset(rest) + multiset{c};
    if |rest| != 0 {
      LeavesSound(t, g, rest, used', rots', a);
      ExtendsStep(t, g, possible, c, rest, used, rots, rot, a);
    } else {
      assert a == Assignment(used', rots');
      assert a.used[|used|..] == [c];
    }
  }

  /** Completing the state after placing `c` with `rot` (and passing `Good`) completes the state before it. */
  lemma ExtendsStep(t: Tests, g: Grid, possible: seq<nat>, c: nat, rest: seq<nat>, used: seq<nat>, rots: seq<nat>, rot: nat, a: Assignment)
    requires g.cols > 0 && |used| == |rots| && rot < g.rotz
    requires multiset(possible) == multiset(rest) + multiset{c} && |possible| == |rest| + 1
    requires Good(t, g, used + [c], rots + [rot])
    requires Extends(t, g, rest, used + [c], rots + [rot], a)
    ensures Extends(t, g, possible, used, rots, a)
  {
    var n := |used|;
    assert a.used[..n + 1] == used + [c];
    assert a.rots[..n + 1] == rots + [rot];
    assert a.used[..n] == a.used[..n + 1][..n];
    assert a.rots[..n] == a.rots[..n + 1][..n];
    assert a.used[n..] == [c] + a.used[n + 1..];
    assert a.rots[n] == a.rots[..n + 1][n];
    forall k | n < k < |a.used|
      ensures Good(t, g, a.used[..k], a.rots[..k])
    {
      if k == n + 1 {
        assert a.used[..k] == used + [c];
        assert a.rots[..k] == rots + [rot];
      }
    }
  }

  /* ---------------------------------------------------------------------
   * Completeness: everything that completes the state is enumerated.
   * ------------------------------------------------------------------ */

  lemma {:induction false} LeavesComplete(t: Tests, g: Grid, possible: seq<nat>, used: seq<nat>, rots: seq<nat>, a: Assignment)
    requires g.cols > 0 && |used| == |rots| && Distinct(possible) && |possible| > 0
    requires Extends(t, g, possible, used, rots, a)
    ensures a in Leaves(t, g, possible, used, rots)
    decreases |possible|, 3, 0
  {
    var c := a.used[|used|];
    assert a.used[|used|..][0] == c;
    assert c in multiset(possible);
    var ndx :| 0 <= ndx < |possible| && possible[ndx] == c;
    LeavesFromComplete(t, g, possible, 0, ndx, used, rots, a);
  }

  lemma {:induction false} LeavesFromComplete(t: Tests, g: Grid, possible: seq<nat>, j: nat, ndx: nat, used: seq<nat>, rots: seq<nat>, a: Assignment)
    requires g.cols > 0 && |used| == |rots| && Distinct(possible)
    requires j <= ndx < |possible|
    requires Extends(t, g, possible, used, rots, a) && possible[ndx] == a.used[|used|]
    ensures a in LeavesFrom(t, g, possible, j, used, rots)
    decreases |possible|, 2, ndx - j
  {
    if j == ndx {
      LeavesRotsComplete(t, g, possible, ndx, used, rots, 0, a);
    } else {
      LeavesFromComplete(t, g, possible, j + 1, ndx, used, rots, a);
    }
  }

  lemma {:induction false} LeavesRotsComplete(t: Tests, g: Grid, possible: seq<nat>, ndx: nat, used: seq<nat>, rots: seq<nat>, rot: nat, a: Assignment)
    requires g.cols > 0 && |used| == |rots| && Distinct(possible) && ndx < |possible|
    requires Extends(t, g, possible, used, rots, a) && possible[ndx] == a.used[|used|]
    requires rot <= a.rots[|used|]
    ensures a in LeavesRots(t, g, possible, ndx, used, rots, rot)
    decreases |possible|, 1, a.rots[|used|] - rot
  {
    if rot == a.rots[|used|] {
      LeavesAtComplete(t, g, possible, ndx, used, rots, a);
    } else {
      LeavesRotsComplete(t, g, possible, ndx, used, rots, rot + 1, a);
    }
  }

  lemma {:induction false} LeavesAtComplete(t: Tests, g: Grid, possible: seq<nat>, ndx: nat, used: seq<nat>, rots: seq<nat>, a: Assignment)
    requires g.cols > 0 && |used| == |rots| && Distinct(possible) && ndx < |possible|
    requires Extends(t, g, possible, used, rots, a) && possible[ndx] == a.used[|used|]
    ensures a in LeavesAt(t, g, possible, ndx, used, rots, a.rots[|used|])
    decreases |possible|, 0, 0
  {
    var c, rot := possible[ndx], a.rots[|used|];
    var rest := Filter(possible, c);
    var used', rots' := used + [c], rots + [rot];
    FilterDistinct(possible, c);
    assert a.used[..|used'|] == used';
    assert a.rots[..|used'|] == rots';
    if |rest| != 0 {
      assert Good(t, g, a.used[..|used'|], a.rots[..|used'|]);
      assert a.used[|used|..] == [c] + a.used[|used'|..];
      assert multiset(possible) == multiset(rest) + multiset{c};
      LeavesComplete(t, g, rest, used', rots', a);
    } else {
      assert a.used == a.used[..|used'|];
      assert a.rots == a.rots[..|used'|];
    }
  }

  /* ---------------------------------------------------------------------
   * The whole search, started as the driver starts it.
   * ------------------------------------------------------------------ */

  /**
   * A solution for `n` tiles: a permutation of `0..n-1`, one transform
   * below `rotz` per tile, and every placement except the last obeying the
   * border and adjacency rules. The last placement is never checked.
   */
  ghost predicate IsSolution(t: Tests, g: Grid, n: nat, a: Assignment)
    requires g.cols > 0
  {
    && IsPermutation(a.used, n)
    && |a.rots| == n
    && (forall i :: 0 <= i < n ==> a.rots[i] < g.rotz)
    && (forall k :: 0 <= k < n - 1 ==> PlacementOk(t, g, a, k))
  }

  /** Completing the initial state is the same as being a solution. */
  lemma ExtendsFromStart(t: Tests, g: Grid, n: nat, a: Assignment)
    requires g.cols > 0
    ensures Extends(t, g, Range(n), [], [], a) <==> IsSolution(t, g, n, a)
  {
    assert a.used[0..] == a.used;
    if |a.used| == n && |a.rots| == n {
      forall k | 0 <= k < n - 1
        ensures Good(t, g, a.used[..k + 1], a.rots[..k + 1]) <==> PlacementOk(t, g, a, k)
      {
        GoodIsPlacementOk(t, g, a, k);
      }
      if IsSolution(t, g, n, a) {
        forall k | 0 < k < n
          ensures Good(t, g, a.used[..k], a.rots[..k])
        {
          assert PlacementOk(t, g, a, k - 1);
        }
      }
      if Extends(t, g, Range(n), [], [], a) {
        forall k | 0 <= k < n - 1
          ensures PlacementOk(t, g, a, k)
        {
          assert Good(t, g, a.used[..k + 1], a.rots[..k + 1]);
        }
      }
    }
  }

  /** The enumeration from the initial state is exactly the set of solutions (for at least one tile). */
  lemma LeavesAreSolutions(t: Tests, g: Grid, n: nat, a: Assignment)
    requires g.cols > 0 && n > 0
    ensures a in Leaves(t, g, Range(n), [], []) <==> IsSolution(t, g, n, a)
  {
    PoolInit(n, g.rotz);
    ExtendsFromStart(t, g, n, a);
    if a in Leaves(t, g, Range(n), [], []) {
      LeavesSound(t, g, Range(n), [], [], a);
    }
    if IsSolution(t, g, n, a) {
      LeavesComplete(t, g, Range(n), [], [], a);
    }
  }

  /**
   * Soundness and order of the search run by the driver: `checkState` is
   * called only with solutions, in the enumeration order, and the calls
   * stop at the first accepted one (all of them are made if none is).
   */
  lemma SearchSound(t: Tests, accept: Oracle, g: Grid, n: nat)
    requires g.cols > 0
    ensures var o := Explore(t, accept, g, Range(n), [], []);
      && o.checked <= Leaves(t, g, Range(n), [], [])
      && (o.found.None? ==> o.checked == Leaves(t, g, Range(n), [], []))
      && forall i :: 0 <= i < |o.checked| ==> IsSolution(t, g, n, o.checked[i])
  {
    var o := Explore(t, accept, g, Range(n), [], []);
    var leaves := Leaves(t, g, Range(n), [], []);
    ExploreIsScan(t, accept, g, Range(n), [], []);
    PoolInit(n, g.rotz);
    forall i | 0 <= i < |o.checked|
      ensures IsSolution(t, g, n, o.checked[i])
    {
      assert o.checked[i] == leaves[i];
      LeavesSound(t, g, Range(n), [], [], leaves[i]);
      ExtendsFromStart(t, g, n, leaves[i]);
    }
  }

  /**
   * Completeness of the search: with at least one tile, it ends without a
   * result exactly when `checkState` accepts no solution. (With no tiles
   * the loop never runs and `checkState` is never called.)
   */
  lemma SearchComplete(t: Tests, accept: Oracle, g: Grid, n: nat)
    requires g.cols > 0
    ensures var o := Explore(t, accept, g, Range(n), [], []);
      n > 0 ==> (o.found.None? <==> forall a :: IsSolution(t, g, n, a) ==> !Accepts(accept, a))
  {
    var o := Explore(t, accept, g, Range(n), [], []);
    var leaves := Leaves(t, g, Range(n), [], []);
    ExploreIsScan(t, accept, g, Range(n), [], []);
    if n == 0 {
    } else if o.found.None? {
      forall a | IsSolution(t, g, n, a)
        ensures !Accepts(accept, a)
      {
        LeavesAreSolutions(t, g, n, a);
        var i :| 0 <= i < |leaves| && leaves[i] == a;
      }
    } else {
      LeavesAreSolutions(t, g, n, o.found.value);
      assert o.found.value in leaves;
    }
  }
}
