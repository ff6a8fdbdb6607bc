/**
 * Child expansion over the pool of candidate states: AllPossibleChildren keeps the pool
 * states adjacent to a state, PossibleChildren also drops the ancestors' states, and the
 * breadth-first levels are the repeated expansion of the initial state.
 */
module Expansion {
  import opened Seqs
  import opened Grids
  import opened Evaluator
  import opened Levels

  /** Every pool state has the shape of s and holds the agent, so AdjacentStates applies to it. */
  ghost predicate Fits(pool: seq<Grid>, s: Grid) {
    forall c :: c in pool ==> SameShape(c, s) && TileG in Flatten(c)
  }

  /**
   * AllPossibleChildren's specification: the pool states adjacent to data, in pool order.
   * The source only asks it of a state holding the agent and of pools of that state's
   * shape (Fits); elsewhere this total definition keeps no state.
   */
  function ChildStates(pool: seq<Grid>, data: Grid): (children: seq<Grid>)
    ensures forall c :: c in children ==> c in pool
  {
    if |pool| == 0 || TileG !in Flatten(data) then []
    else
      var init, last := pool[..|pool| - 1], pool[|pool| - 1];
      assert pool == init + [last];
      ChildStates(init, data) + (if SameShape(last, data) && Adjacent(last, data) then [last] else [])
  }

  /** The pool's first n + 1 states give the children of the first n, and the next state if adjacent. */
  lemma ChildStatesPrefix(pool: seq<Grid>, data: Grid, n: nat)
    requires Fits(pool, data) && TileG in Flatten(data) && n < |pool|
    ensures Fits(pool[..n], data) && Fits(pool[..n + 1], data)
    ensures ChildStates(pool[..n + 1], data)
            == ChildStates(pool[..n], data) + (if Adjacent(pool[n], data) then [pool[n]] else [])
  {
    assert forall c :: c in pool[..n + 1] ==> c in pool;
    assert pool[..n + 1][..n] == pool[..n];
  }

  /** The children are exactly the pool states adjacent to data. */
  lemma {:induction false} ChildStatesMembership(pool: seq<Grid>, data: Grid, c: Grid)
    requires Fits(pool, data) && TileG in Flatten(data)
    ensures c in ChildStates(pool, data) <==> c in pool && Adjacent(c, data)
  {
    if |pool| > 0 {
      var init, last := pool[..|pool| - 1], pool[|pool| - 1];
      assert pool == init + [last];
      ChildStatesMembership(init, data, c);
    }
  }

  /** A pool without repetition gives children without repetition. */
  lemma {:induction false} ChildStatesDistinct(pool: seq<Grid>, data: Grid)
    requires Fits(pool, data) && TileG in Flatten(data) && Distinct(pool)
    ensures Distinct(ChildStates(pool, data))
  {
    if |pool| > 0 {
      var init, last := pool[..|pool| - 1], pool[|pool| - 1];
      assert pool == init + [last];
      assert Distinct(init) by {
        forall i, j | 0 <= i < |init| && 0 <= j < |init| && i != j ensures init[i] != init[j] {
          assert init[i] == pool[i] && init[j] == pool[j];
        }
      }
      ChildStatesDistinct(init, data);
      var a := ChildStates(init, data);
      var b := if Adjacent(last, data) then [last] else [];
      forall i, j | 0 <= i < |a| && 0 <= j < |b| ensures a[i] != b[j] {
        assert a[i] in a;
        assert a[i] in init;
        var k :| 0 <= k < |init| && init[k] == a[i];
        assert pool[k] == a[i] && pool[|pool| - 1] == b[j];
      }
      DistinctConcat(a, b);
    }
  }

  /**
   * Between well-formed states with the same tiles, the children of data are exactly the
   * pool states one agent move away from data.
   */
  lemma ChildStatesAreMoves(pool: seq<Grid>, data: Grid, c: Grid)
    requires Fits(pool, data) && TileG in Flatten(data) && WellFormed(data)
    requires c in pool ==> WellFormed(c) && SameTiles(c, data)
    ensures c in ChildStates(pool, data) <==> c in pool && OneMove(data, c)
  {
    ChildStatesMembership(pool, data, c);
    if c in pool {
      assert SameShape(c, data);
      assert SameTiles(data, c);
      if Adjacent(c, data) {
        AdjacentSymmetric(c, data);
      }
      if Adjacent(data, c) {
        AdjacentSymmetric(data, c);
      }
      AdjacentIffOneMove(data, c);
    }
  }

  /** PossibleChildren's specification: the children, less one copy of each ancestor state. */
  function PossibleChildStates(pool: seq<Grid>, data: Grid, ancestors: seq<Grid>): seq<Grid> {
    RemoveAll(ChildStates(pool, data), ancestors)
  }

  /**
   * Over a pool without repetition, the possible children are the pool states adjacent to
   * data that no ancestor holds, without repetition, in pool order.
   */
  lemma PossibleChildStatesMembership(pool: seq<Grid>, data: Grid, ancestors: seq<Grid>, c: Grid)
    requires Fits(pool, data) && TileG in Flatten(data) && Distinct(pool)
    ensures PossibleChildStates(pool, data, ancestors) == FilterOut(ChildStates(pool, data), ancestors)
    ensures Distinct(PossibleChildStates(pool, data, ancestors))
    ensures c in PossibleChildStates(pool, data, ancestors)
            <==> c in pool && Adjacent(c, data) && c !in ancestors
  {
    ChildStatesDistinct(pool, data);
    RemoveAllIsFilter(ChildStates(pool, data), ancestors);
    ChildStatesMembership(pool, data, c);
    FilterOutMembership(ChildStates(pool, data), ancestors, c);
    FilterOutDistinct(ChildStates(pool, data), ancestors);
  }

  // ---------------------------------------------------------------------------------------
  // Breadth-first levels.

  /** Every pool state fits the initial state, which holds the agent. */
  ghost predicate PoolFits(pool: seq<Grid>, init: Grid) {
    TileG in Flatten(init) && Fits(pool, init)
  }

  /** Every state of the initial state's shape fits the pool. */
  lemma FitsShape(pool: seq<Grid>, init: Grid, s: Grid)
    requires PoolFits(pool, init) && SameShape(s, init)
    ensures Fits(pool, s)
  {
  }

  /** The successor function of the breadth-first search: the children of a state. */
  function Successors(pool: seq<Grid>): Grid -> seq<Grid> {
    s => ChildStates(pool, s)
  }

  /** Every state of every level has the initial state's shape and holds the agent. */
  lemma LevelFits(pool: seq<Grid>, init: Grid, k: nat, x: Grid)
    requires PoolFits(pool, init) && x in Level(Successors(pool), init, k)
    ensures SameShape(x, init) && TileG in Flatten(x) && Fits(pool, x)
  {
    if k > 0 {
      ExpandAllMembership(Successors(pool), Level(Successors(pool), init, k - 1), x);
      var s :| s in Level(Successors(pool), init, k - 1) && x in Successors(pool)(s);
      assert x in pool;
    }
  }
}
