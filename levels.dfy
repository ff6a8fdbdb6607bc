/**
 * Breadth-first levels over an arbitrary successor function: level 0 is the initial state
 * and level k + 1 is the successors of each state of level k in turn, with repetitions
 * kept. A level holds exactly the ends of the walks of that many steps.
 */
module Levels {
  /** The successors of each state in turn, concatenated in the order of the states. */
  function ExpandAll<T(!new)>(succ: T -> seq<T>, states: seq<T>): seq<T> {
    if |states| == 0 then []
    else ExpandAll(succ, states[..|states| - 1]) + succ(states[|states| - 1])
  }

  lemma {:induction false} ExpandAllMembership<T(!new)>(succ: T -> seq<T>, states: seq<T>, x: T)
    ensures x in ExpandAll(succ, states) <==> exists s :: s in states && x in succ(s)
  {
    if |states| > 0 {
      var init, last := states[..|states| - 1], states[|states| - 1];
      assert states == init + [last];
      ExpandAllMembership(succ, init, x);
    }
  }

  /** The number of states of the next level is the sum of the numbers of successors. */
  function SuccessorCount<T(!new)>(succ: T -> seq<T>, states: seq<T>): nat {
    if |states| == 0 then 0
    else SuccessorCount(succ, states[..|states| - 1]) + |succ(states[|states| - 1])|
  }

  lemma {:induction false} ExpandAllLength<T(!new)>(succ: T -> seq<T>, states: seq<T>)
    ensures |ExpandAll(succ, states)| == SuccessorCount(succ, states)
  {
    if |states| > 0 {
      ExpandAllLength(succ, states[..|states| - 1]);
    }
  }

  /** Expanding a sequence followed by one more state appends that state's successors. */
  lemma ExpandAllSnoc<T(!new)>(succ: T -> seq<T>, states: seq<T>, s: T)
    ensures ExpandAll(succ, states + [s]) == ExpandAll(succ, states) + succ(s)
    ensures SuccessorCount(succ, states + [s]) == SuccessorCount(succ, states) + |succ(s)|
  {
    assert (states + [s])[..|states|] == states;
  }

  /** The states of level k, in breadth-first order. */
  function Level<T(!new)>(succ: T -> seq<T>, init: T, k: nat): seq<T> {
    if k == 0 then [init] else ExpandAll(succ, Level(succ, init, k - 1))
  }

  /** The number of states of levels 1 to k. */
  function LevelTotal<T(!new)>(succ: T -> seq<T>, init: T, k: nat): nat {
    if k == 0 then 0 else LevelTotal(succ, init, k - 1) + |Level(succ, init, k)|
  }

  /** Each state after the first is a successor of the one before. */
  ghost predicate IsWalk<T(!new)>(succ: T -> seq<T>, w: seq<T>)
    decreases |w|
  {
    |w| <= 1 || (IsWalk(succ, w[..|w| - 1]) && w[|w| - 1] in succ(w[|w| - 2]))
  }

  /** A walk followed by a successor of its last state is a walk. */
  lemma WalkExtend<T(!new)>(succ: T -> seq<T>, w: seq<T>, x: T)
    requires |w| > 0 && IsWalk(succ, w) && x in succ(w[|w| - 1])
    ensures IsWalk(succ, w + [x])
  {
    assert (w + [x])[..|w|] == w;
  }

  /** Some walk of k steps from the initial state ends at x. */
  ghost predicate WalkTo<T(!new)>(succ: T -> seq<T>, init: T, k: nat, x: T) {
    exists w :: |w| == k + 1 && w[0] == init && w[k] == x && IsWalk(succ, w)
  }

  /** The initial state ends the walk of no steps. */
  lemma WalkToStart<T(!new)>(succ: T -> seq<T>, init: T)
    ensures WalkTo(succ, init, 0, init)
  {
    assert IsWalk(succ, [init]);
    assert [init][0] == init;
  }

  /** A walk of k steps to s extends to a walk of k + 1 steps to each successor of s. */
  lemma WalkToExtend<T(!new)>(succ: T -> seq<T>, init: T, k: nat, s: T, x: T)
    requires WalkTo(succ, init, k, s) && x in succ(s)
    ensures WalkTo(succ, init, k + 1, x)
  {
    var w :| |w| == k + 1 && w[0] == init && w[k] == s && IsWalk(succ, w);
    WalkExtend(succ, w, x);
    var w' := w + [x];
    assert |w'| == k + 2 && w'[0] == init && w'[k + 1] == x;
  }

  /** A walk of k steps from the initial state to a given state of level k. */
  lemma {:induction false} LevelWalk<T(!new)>(succ: T -> seq<T>, init: T, k: nat, x: T) returns (w: seq<T>)
    requires x in Level(succ, init, k)
    ensures |w| == k + 1 && w[0] == init && w[k] == x && IsWalk(succ, w)
  {
    if k == 0 {
      w := [init];
    } else {
      ExpandAllMembership(succ, Level(succ, init, k - 1), x);
      var s :| s in Level(succ, init, k - 1) && x in succ(s);
      var v := LevelWalk(succ, init, k - 1, s);
      WalkExtend(succ, v, x);
      w := v + [x];
    }
  }

  /** Every state of level k ends a walk of k steps from the initial state. */
  lemma LevelsAreWalks<T(!new)>(succ: T -> seq<T>, init: T, k: nat, x: T)
    requires x in Level(succ, init, k)
    ensures WalkTo(succ, init, k, x)
  {
    var w := LevelWalk(succ, init, k, x);
  }

  /** Every walk of k steps from the initial state ends in level k. */
  lemma {:induction false} WalksAreLevels<T(!new)>(succ: T -> seq<T>, init: T, w: seq<T>)
    requires |w| > 0 && w[0] == init && IsWalk(succ, w)
    ensures w[|w| - 1] in Level(succ, init, |w| - 1)
    decreases |w|
  {
    var k := |w| - 1;
    if k > 0 {
      var w' := w[..k];
      assert IsWalk(succ, w');
      WalksAreLevels(succ, init, w');
      assert w'[k - 1] == w[k - 1];
      ExpandAllMembership(succ, Level(succ, init, k - 1), w[k]);
    }
  }

  /** Level k holds exactly the ends of the walks of k steps from the initial state. */
  lemma LevelIffWalk<T(!new)>(succ: T -> seq<T>, init: T, k: nat, x: T)
    ensures x in Level(succ, init, k) <==> WalkTo(succ, init, k, x)
  {
    if x in Level(succ, init, k) {
      LevelsAreWalks(succ, init, k, x);
    }
    if WalkTo(succ, init, k, x) {
      var w :| |w| == k + 1 && w[0] == init && w[k] == x && IsWalk(succ, w);
      WalksAreLevels(succ, init, w);
    }
  }

  /**
   * A state first found at level k is reached by no walk of fewer steps: breadth-first
   * search, stopping at the first level that holds the goal, finds a shortest move sequence.
   */
  lemma Shortest<T(!new)>(succ: T -> seq<T>, init: T, k: nat, x: T, j: nat)
    requires forall i :: 0 <= i < k ==> x !in Level(succ, init, i)
    requires j < k
    ensures !WalkTo(succ, init, j, x)
  {
    LevelIffWalk(succ, init, j, x);
  }

  /** A set holding the initial state and closed under successors holds every level. */
  lemma {:induction false} LevelsWithin<T(!new)>(succ: T -> seq<T>, init: T, S: set<T>, k: nat, x: T)
    requires init in S && forall s, y :: s in S && y in succ(s) ==> y in S
    requires x in Level(succ, init, k)
    ensures x in S
  {
    if k > 0 {
      ExpandAllMembership(succ, Level(succ, init, k - 1), x);
      var s :| s in Level(succ, init, k - 1) && x in succ(s);
      LevelsWithin(succ, init, S, k - 1, s);
    }
  }
}
