/**
 * The order in which the search visits complete assignments: tiles are
 * drawn in pool order, which stays ascending as the pool shrinks, and
 * transforms in ascending order. So `checkState` sees solutions in
 * lexicographic order of (tile, transform) per position, and the search
 * returns the least accepted solution in that order.
 */
module SearchOrder {
  import opened Wrappers
  import opened Pool
  import opened Search
  import opened Solutions

  /**
   * `a` precedes `b`: at the first position `k` where they differ, `a` has
   * the smaller tile number, or the same tile with a smaller transform.
   */
  ghost predicate Before(a: Assignment, b: Assignment)
  {
    exists k :: DiffersFirstAt(a, b, k)
  }

  ghost predicate DiffersFirstAt(a: Assignment, b: Assignment, k: nat)
  {
    && k < |a.used| && k < |b.used| && k < |a.rots| && k < |b.rots|
    && a.used[..k] == b.used[..k] && a.rots[..k] == b.rots[..k]
    && (a.used[k] < b.used[k] || (a.used[k] == b.used[k] && a.rots[k] < b.rots[k]))
  }

  /** Once `a` and `b` first differ at `k` in `a`'s favour, `b` cannot first differ from `a` in its favour anywhere. */
  lemma DiffersFirstAtExcludes(a: Assignment, b: Assignment, k: nat)
    requires DiffersFirstAt(a, b, k)
    ensures forall k' :: !DiffersFirstAt(b, a, k')
  {
    forall k': nat
      ensures !DiffersFirstAt(b, a, k')
    {
      if k' < k {
        assert a.used[..k][k'] == b.used[..k][k'];
        assert a.rots[..k][k'] == b.rots[..k][k'];
      } else if k' > k && k' <= |a.used| && k' <= |b.used| && k' <= |a.rots| && k' <= |b.rots| {
        assert a.used[..k'][k] == a.used[k] && b.used[..k'][k] == b.used[k];
        assert a.rots[..k'][k] == a.rots[k] && b.rots[..k'][k] == b.rots[k];
      }
    }
  }

  /** `Before` is a strict order: never both ways, so never reflexive. */
  lemma BeforeAsymmetric(a: Assignment, b: Assignment)
    ensures Before(a, b) ==> !Before(b, a)
  {
    if Before(a, b) {
      var k :| DiffersFirstAt(a, b, k);
      DiffersFirstAtExcludes(a, b, k);
    }
  }

  /** Every element of `s` precedes every later element. */
  ghost predicate Sorted(s: seq<Assignment>)
  {
    forall i, j :: 0 <= i < j < |s| ==> Before(s[i], s[j])
  }

  lemma SortedConcat(xs: seq<Assignment>, ys: seq<Assignment>)
    requires Sorted(xs) && Sorted(ys)
    requires forall i, j :: 0 <= i < |xs| && 0 <= j < |ys| ==> Before(xs[i], ys[j])
    ensures Sorted(xs + ys)
  {
    var s := xs + ys;
    forall i, j | 0 <= i < j < |s|
      ensures Before(s[i], s[j])
    {
      if j < |xs| {
        assert s[i] == xs[i] && s[j] == xs[j];
      } else if i >= |xs| {
        assert s[i] == ys[i - |xs|] && s[j] == ys[j - |xs|];
      } else {
        assert s[i] == xs[i] && s[j] == ys[j - |xs|];
      }
    }
  }

  /* ---------------------------------------------------------------------
   * The first placement of an enumerated assignment.
   * ------------------------------------------------------------------ */

  lemma LeavesAtHead(t: Tests, g: Grid, possible: seq<nat>, ndx: nat, used: seq<nat>, rots: seq<nat>, rot: nat, a: Assignment)
    requires g.cols > 0 && |used| == |rots| && Distinct(possible) && ndx < |possible|
    requires a in LeavesAt(t, g, possible, ndx, used, rots, rot)
    ensures |used| < |a.used| && |used| < |a.rots|
    ensures a.used[..|used|] == used && a.rots[..|used|] == rots
    ensures a.used[|used|] == possible[ndx] && a.rots[|used|] == rot
  {
    var c := possible[ndx];
    var rest := Filter(possible, c);
    if |rest| != 0 {
      FilterDistinct(possible, c);
      LeavesSound(t, g, rest, used + [c], rots + [rot], a);
      assert a.used[..|used|] == a.used[..|used| + 1][..|used|];
      assert a.rots[..|used|] == a.rots[..|used| + 1][..|used|];
      assert a.used[|used|] == a.used[..|used| + 1][|used|];
      assert a.rots[|used|] == a.rots[..|used| + 1][|used|];
    }
  }

  lemma {:induction false} LeavesRotsHead(t: Tests, g: Grid, possible: seq<nat>, ndx: nat, used: seq<nat>, rots: seq<nat>, rot: nat, a: Assignment)
    requires g.cols > 0 && |used| == |rots| && Distinct(possible) && ndx < |possible|
    requires a in LeavesRots(t, g, possible, ndx, used, rots, rot)
    ensures |used| < |a.used| && |used| < |a.rots|
    ensures a.used[..|used|] == used && a.rots[..|used|] == rots
    ensures a.used[|used|] == possible[ndx] && rot <= a.rots[|used|]
    decreases g.rotz - rot
  {
    if a in LeavesAt(t, g, possible, ndx, used, rots, rot) {
      LeavesAtHead(t, g, possible, ndx, used, rots, rot, a);
    } else {
      LeavesRotsHead(t, g, possible, ndx, used, rots, rot + 1, a);
    }
  }

  lemma {:induction false} LeavesFromHead(t: Tests, g: Grid, possible: seq<nat>, ndx: nat, used: seq<nat>, rots: seq<nat>, a: Assignment)
    returns (j: nat)
    requires g.cols > 0 && |used| == |rots| && Distinct(possible)
    requires a in LeavesFrom(t, g, possible, ndx, used, rots)
    ensures ndx <= j < |possible|
    ensures |used| < |a.used| && |used| < |a.rots|
    ensures a.used[..|used|] == used && a.rots[..|used|] == rots
    ensures a.used[|used|] == possible[j]
    decreases |possible| - ndx
  {
    if a in LeavesRots(t, g, possible, ndx, used, rots, 0) {
      LeavesRotsHead(t, g, possible, ndx, used, rots, 0, a);
      j := ndx;
    } else {
      j := LeavesFromHead(t, g, possible, ndx + 1, used, rots, a);
    }
  }

  /** Two assignments extending the same state that first differ right after it. */
  lemma BeforeAfterPrefix(a: Assignment, b: Assignment, used: seq<nat>, rots: seq<nat>)
    requires |used| == |rots| && |used| < |a.used| && |used| < |b.used| && |used| < |a.rots| && |used| < |b.rots|
    requires a.used[..|used|] == used == b.used[..|used|] && a.rots[..|used|] == rots == b.rots[..|used|]
    requires a.used[|used|] < b.used[|used|] || (a.used[|used|] == b.used[|used|] && a.rots[|used|] < b.rots[|used|])
    ensures Before(a, b)
  {
    assert DiffersFirstAt(a, b, |used|);
  }

  /* ---------------------------------------------------------------------
   * The enumeration is sorted.
   * ------------------------------------------------------------------ */

  lemma {:induction false} LeavesSorted(t: Tests, g: Grid, possible: seq<nat>, used: seq<nat>, rots: seq<nat>)
    requires g.cols > 0 && |used| == |rots| && Increasing(possible)
    ensures Sorted(Leaves(t, g, possible, used, rots))
    decreases |possible|, 3, 0
  {
    LeavesFromSorted(t, g, possible, 0, used, rots);
  }

  lemma {:induction false} LeavesFromSorted(t: Tests, g: Grid, possible: seq<nat>, ndx: nat, used: seq<nat>, rots: seq<nat>)
    requires g.cols > 0 && |used| == |rots| && Increasing(possible)
    ensures Sorted(LeavesFrom(t, g, possible, ndx, used, rots))
    decreases |possible|, 2, |possible| - ndx
  {
    if ndx < |possible| {
      var xs := LeavesRots(t, g, possible, ndx, used, rots, 0);
      var ys := LeavesFrom(t, g, possible, ndx + 1, used, rots);
      LeavesRotsSorted(t, g, possible, ndx, used, rots, 0);
      LeavesFromSorted(t, g, possible, ndx + 1, used, rots);
      forall i, j | 0 <= i < |xs| && 0 <= j < |ys|
        ensures Before(xs[i], ys[j])
      {
        LeavesRotsHead(t, g, possible, ndx, used, rots, 0, xs[i]);
        var k := LeavesFromHead(t, g, possible, ndx + 1, used, rots, ys[j]);
        BeforeAfterPrefix(xs[i], ys[j], used, rots);
      }
      SortedConcat(xs, ys);
    }
  }

  lemma {:induction false} LeavesRotsSorted(t: Tests, g: Grid, possible: seq<nat>, ndx: nat, used: seq<nat>, rots: seq<nat>, rot: nat)
    requires g.cols > 0 && |used| == |rots| && Increasing(possible) && ndx < |possible|
    ensures Sorted(LeavesRots(t, g, possible, ndx, used, rots, rot))
    decreases |possible|, 1, g.rotz - rot
  {
    if rot < g.rotz {
      var xs := LeavesAt(t, g, possible, ndx, used, rots, rot);
      var ys := LeavesRots(t, g, possible, ndx, used, rots, rot + 1);
      LeavesAtSorted(t, g, possible, ndx, used, rots, rot);
      LeavesRotsSorted(t, g, possible, ndx, used, rots, rot + 1);
      forall i, j | 0 <= i < |xs| && 0 <= j < |ys|
        ensures Before(xs[i], ys[j])
      {
        LeavesAtHead(t, g, possible, ndx, used, rots, rot, xs[i]);
        LeavesRotsHead(t, g, possible, ndx, used, rots, rot + 1, ys[j]);
        BeforeAfterPrefix(xs[i], ys[j], used, rots);
      }
      SortedConcat(xs, ys);
    }
  }

  lemma {:induction false} LeavesAtSorted(t: Tests, g: Grid, possible: seq<nat>, ndx: nat, used: seq<nat>, rots: seq<nat>, rot: nat)
    requires g.cols > 0 && |used| == |rots| && Increasing(possible) && ndx < |possible|
    ensures Sorted(LeavesAt(t, g, possible, ndx, used, rots, rot))
    decreases |possible|, 0, 0
  {
    var c := possible[ndx];
    var rest := Filter(possible, c);
    if |rest| != 0 && Good(t, g, used + [c], rots + [rot]) {
      FilterIncreasing(possible, c);
      LeavesSorted(t, g, rest, used + [c], rots + [rot]);
    }
  }

  /**
   * The search run by the driver calls `checkState` in strictly ascending
   * order, and what it returns is the least accepted solution: every
   * solution before it is rejected.
   */
  lemma SearchFindsLeast(t: Tests, accept: Oracle, g: Grid, n: nat)
    requires g.cols > 0
    ensures var o := Explore(t, accept, g, Range(n), [], []);
      && Sorted(o.checked)
      && (o.found.Some? ==> forall b :: IsSolution(t, g, n, b) && Before(b, o.found.value) ==> !Accepts(accept, b))
  {
    var o := Explore(t, accept, g, Range(n), [], []);
    var leaves := Leaves(t, g, Range(n), [], []);
    SearchSound(t, accept, g, n);
    LeavesSorted(t, g, Range(n), [], []);
    assert forall i :: 0 <= i < |o.checked| ==> o.checked[i] == leaves[i];
    if o.found.Some? {
      var a := o.found.value;
      var last := |o.checked| - 1;
      forall b | IsSolution(t, g, n, b) && Before(b, a)
        ensures !Accepts(accept, b)
      {
        LeavesAreSolutions(t, g, n, b);
        var j :| 0 <= j < |leaves| && leaves[j] == b;
        if j > last {
          assert Before(leaves[last], leaves[j]);
          BeforeAsymmetric(a, b);
        } else if j == last {
          BeforeAsymmetric(a, a);
        }
      }
    }
  }
}
