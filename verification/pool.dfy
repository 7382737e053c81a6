/**
 * Bookkeeping of the search state: the pool `possible` of tile numbers not
 * yet placed, the placed tiles `used` and their transforms `rots`.
 */
module Pool {

  /** `[0, 1, …, n-1]`: the initial pool `cells.map((cell, ndx) => ndx)`. */
  function Range(n: nat): (r: seq<nat>)
    ensures |r| == n
    ensures forall i :: 0 <= i < n ==> r[i] == i
  {
    seq(n, i requires 0 <= i < n => i)
  }

  /** No tile number occurs twice. */
  predicate Distinct(s: seq<nat>)
  {
    forall i, j :: 0 <= i < j < |s| ==> s[i] != s[j]
  }

  /**
   * `possible.filter(num => num !== cellNum)`: every occurrence of `x`
   * removed, everything else kept in order.
   */
  function Filter(s: seq<nat>, x: nat): (r: seq<nat>)
    ensures forall y :: y in r <==> y in s && y != x
    ensures multiset(r) == multiset(s)[x := 0]
    ensures x in s ==> |r| < |s|
  {
    if |s| == 0 then []
    else
      var rest := Filter(s[1..], x);
      assert s == [s[0]] + s[1..];
      if s[0] == x then rest else [s[0]] + rest
  }

  /** Filtering a pool without repeats leaves a pool without repeats. */
  lemma {:induction false} FilterKeepsDistinct(s: seq<nat>, x: nat)
    requires Distinct(s)
    ensures Distinct(Filter(s, x))
  {
    if |s| > 0 {
      FilterKeepsDistinct(s[1..], x);
      var rest := Filter(s[1..], x);
      var r := Filter(s, x);
      if s[0] != x {
        assert s[0] !in rest by {
          forall i | 1 <= i < |s| ensures s[i] != s[0] {}
          assert s[0] !in s[1..];
        }
        assert r == [s[0]] + rest;
        forall i, j | 0 <= i < j < |r|
          ensures r[i] != r[j]
        {
          if i == 0 {
            assert r[j] == rest[j - 1] && rest[j - 1] in rest;
          } else {
            assert r[i] == rest[i - 1] && r[j] == rest[j - 1];
          }
        }
      }
    }
  }

  /** Filtering drops exactly the occurrences of `x`. */
  lemma {:induction false} FilterLength(s: seq<nat>, x: nat)
    ensures |Filter(s, x)| == |s| - multiset(s)[x]
  {
    if |s| > 0 {
      FilterLength(s[1..], x);
      assert s == [s[0]] + s[1..];
      assert multiset(s) == multiset{s[0]} + multiset(s[1..]);
    }
  }

  /** In a pool without repeats, a member occurs exactly once. */
  lemma OccursOnce(s: seq<nat>, x: nat)
    requires Distinct(s) && x in s
    ensures multiset(s)[x] == 1
  {
    var k :| 0 <= k < |s| && s[k] == x;
    assert s == s[..k] + [x] + s[k + 1..];
    assert x !in s[..k] && x !in s[k + 1..] by {
      forall i | 0 <= i < |s| && i != k ensures s[i] != x {}
    }
  }

  /** For a pool without repeats, removing a member shortens it by exactly one. */
  lemma FilterDistinct(s: seq<nat>, x: nat)
    requires Distinct(s) && x in s
    ensures multiset(s)[x] == 1
    ensures |Filter(s, x)| == |s| - 1
    ensures Distinct(Filter(s, x))
  {
    FilterKeepsDistinct(s, x);
    OccursOnce(s, x);
    FilterLength(s, x);
  }

  /**
   * The search state invariant for `n` tiles and `rotz` transforms: the pool
   * and the placed tiles are disjoint, together they are exactly `0..n-1`
   * without repeats, and every placed tile has one transform below `rotz`.
   */
  ghost predicate PoolInv(n: nat, rotz: nat, possible: seq<nat>, used: seq<nat>, rots: seq<nat>)
  {
    && Distinct(possible)
    && Distinct(used)
    && (forall x :: x in possible ==> x !in used)
    && (forall x: nat :: x < n <==> x in possible || x in used)
    && |rots| == |used|
    && (forall i :: 0 <= i < |rots| ==> rots[i] < rotz)
  }

  /** The state `explore` is first called with satisfies the invariant. */
  lemma PoolInit(n: nat, rotz: nat)
    ensures PoolInv(n, rotz, Range(n), [], [])
  {
    forall x: nat | x < n
      ensures x in Range(n)
    {
      assert Range(n)[x] == x;
    }
  }

  /**
   * Drawing `possible[ndx]` and a transform `rot < rotz` keeps the invariant,
   * and the pool shrinks by exactly one.
   */
  lemma PoolStep(n: nat, rotz: nat, possible: seq<nat>, used: seq<nat>, rots: seq<nat>, ndx: nat, rot: nat)
    requires PoolInv(n, rotz, possible, used, rots)
    requires ndx < |possible| && rot < rotz
    ensures PoolInv(n, rotz, Filter(possible, possible[ndx]), used + [possible[ndx]], rots + [rot])
    ensures |Filter(possible, possible[ndx])| == |possible| - 1
  {
    var c := possible[ndx];
    FilterDistinct(possible, c);
    var used' := used + [c];
    forall i, j | 0 <= i < j < |used'|
      ensures used'[i] != used'[j]
    {
      if j == |used| {
        assert used'[i] in used;
      }
    }
  }

  /** Tile numbers `0..n-1` in any order, each once. */
  predicate IsPermutation(s: seq<nat>, n: nat)
  {
    |s| == n && multiset(s) == multiset(Range(n))
  }

  /** Tile numbers in strictly ascending order, as in the initial pool. */
  predicate Increasing(s: seq<nat>)
  {
    forall i, j :: 0 <= i < j < |s| ==> s[i] < s[j]
  }

  /** Prepending a value below every element keeps a sequence ascending. */
  lemma ConsIncreasing(h: nat, rest: seq<nat>)
    requires Increasing(rest) && forall y :: y in rest ==> h < y
    ensures Increasing([h] + rest)
  {
    var r := [h] + rest;
    forall i, j | 0 <= i < j < |r|
      ensures r[i] < r[j]
    {
      assert r[j] == rest[j - 1];
      if i == 0 {
        assert rest[j - 1] in rest;
      } else {
        assert r[i] == rest[i - 1];
      }
    }
  }

  /** The initial pool is ascending, and filtering keeps a pool ascending. */
  lemma {:induction false} FilterIncreasing(s: seq<nat>, x: nat)
    requires Increasing(s)
    ensures Increasing(Filter(s, x))
  {
    if |s| > 0 {
      assert Increasing(s[1..]) by {
        forall i, j | 0 <= i < j < |s| - 1 ensures s[1..][i] < s[1..][j] {
          assert s[1..][i] == s[i + 1] && s[1..][j] == s[j + 1];
        }
      }
      FilterIncreasing(s[1..], x);
      var rest := Filter(s[1..], x);
      if s[0] != x {
        forall y | y in rest
          ensures s[0] < y
        {
          assert y in s[1..];
          var k :| 0 <= k < |s| - 1 && s[1..][k] == y;
          assert s[k + 1] == y;
        }
        ConsIncreasing(s[0], rest);
      }
    }
  }
}
