/**
 * Small cases of the search that show its edge cases: the last placement is
 * never pruned, and pruning alone can end the search before `checkState`
 * is ever called.
 */
module Scenarios {
  import opened Wrappers
  import opened Config
  import opened Pool
  import opened Search
  import opened Solutions

  /**
   * With a single tile, the first placement empties the pool. So it goes
   * straight to `checkState`, whatever the image predicates say. If that
   * call accepts, it is the only call and the result; otherwise the next
   * transform of the same tile is checked next.
   */
  lemma OneTileIsCheckedUnpruned(t: Tests, accept: Oracle, g: Grid)
    requires g.cols > 0 && g.rotz > 0
    ensures var o := Explore(t, accept, g, [0], [], []);
      && |o.checked| > 0
      && o.checked[0] == Assignment([0], [0])
      && (accept([0], [0]) ==> o == Outcome(Some(Assignment([0], [0])), [Assignment([0], [0])]))
      && (!accept([0], [0]) && g.rotz > 1 ==> |o.checked| > 1 && o.checked[1] == Assignment([0], [1]))
  {
    assert [0][1..] == [] && Filter([0], 0) == [];
    assert [] + [0] == [0];
    var first := ExploreAt(t, accept, g, [0], 0, [], [], 0);
    assert first.checked == [Assignment([0], [0])];
    if g.rotz > 1 {
      var second := ExploreAt(t, accept, g, [0], 0, [], [], 1);
      assert [] + [1] == [1];
      assert second.checked == [Assignment([0], [1])];
      var rest := ExploreRots(t, accept, g, [0], 0, [], [], 1);
      assert rest.checked[0] == Assignment([0], [1]);
    }
  }

  /** Image predicates that find no white strip and no matching edge anywhere. */
  function NothingMatches(): (t: Tests)
    ensures forall tile, rot, side :: !t.white(tile, rot, side)
  {
    Tests((tile: nat, rot: nat, side: Side) => false, (a: nat, ra: nat, sa: Side, b: nat, rb: nat, sb: Side) => false)
  }

  /** A first placement with tiles left over fails the column-0 rule when nothing is white. */
  lemma {:induction false} NoLeavesRots(g: Grid, n: nat, ndx: nat, rot: nat)
    requires g.cols > 0 && n >= 2 && ndx < n
    ensures LeavesRots(NothingMatches(), g, Range(n), ndx, [], [], rot) == []
    decreases g.rotz - rot
  {
    if rot < g.rotz {
      var c := Range(n)[ndx];
      FilterDistinct(Range(n), c);
      assert !Good(NothingMatches(), g, [] + [c], [] + [rot]);
      NoLeavesRots(g, n, ndx, rot + 1);
    }
  }

  lemma {:induction false} NoLeavesFrom(g: Grid, n: nat, ndx: nat)
    requires g.cols > 0 && n >= 2
    ensures LeavesFrom(NothingMatches(), g, Range(n), ndx, [], []) == []
    decreases n - ndx
  {
    if ndx < n {
      NoLeavesRots(g, n, ndx, 0);
      NoLeavesFrom(g, n, ndx + 1);
    }
  }

  /**
   * When no tile shows a white marker, every first placement fails the
   * column-0 rule. So with two tiles or more the search is exhausted
   * without a single `checkState` call.
   */
  lemma NoMarkersNoChecks(accept: Oracle, g: Grid, n: nat)
    requires g.cols > 0 && n >= 2
    ensures Explore(NothingMatches(), accept, g, Range(n), [], []) == Outcome(None, [])
  {
    NoLeavesFrom(g, n, 0);
    ExploreIsScan(NothingMatches(), accept, g, Range(n), [], []);
  }
}
