/**
 * The puzzle the window sets up: a 4x4 board, the three lettered tiles and the agent in
 * the bottom row at the start, the letters stacked in the second column at the goal, and
 * the pool of candidate states generated from an empty board.
 */
module Puzzle {
  import opened Seqs
  import opened Grids
  import opened Pool
  import opened Levels
  import opened Expansion

  /** The initial state. */
  function InitialGrid(): (g: Grid)
    ensures Height(g) == 4 && Width(g) == 4
  {
    ["----",
     "----",
     "----",
     "abcg"]
  }

  /** The goal state. */
  function GoalGrid(): (g: Grid)
    ensures Height(g) == 4 && Width(g) == 4
  {
    ["----",
     "-a--",
     "-b--",
     "-c-g"]
  }

  /** The empty board the pool is generated from. */
  function EmptyBoard(): (g: Grid)
    ensures Height(g) == 4 && Width(g) == 4
  {
    ["----",
     "----",
     "----",
     "----"]
  }

  lemma EmptyBoardCells()
    ensures |Flatten(EmptyBoard())| == 16
    ensures forall p :: 0 <= p < 16 ==> Flatten(EmptyBoard())[p] == TileE
  {
    var e := EmptyBoard();
    forall p | 0 <= p < 16 ensures Flatten(e)[p] == TileE {
      FlatBound(p, 4, 4);
    }
  }

  /** A tile other than the empty one is not on the empty board. */
  lemma EmptyBoardLacks(c: char)
    requires c != TileE
    ensures c !in Flatten(EmptyBoard())
  {
    EmptyBoardCells();
  }

  /** The pool as the window builds it: the agent, then the letter a, placed on the empty board. */
  function AsWrittenPool(): seq<Grid> {
    Permutations(TileA, Permutations(TileG, [EmptyBoard()]))
  }

  /** The pool with every tile of the puzzle placed: agent, a, b, then c. */
  function FullPool(): seq<Grid> {
    Permutations(TileC, Permutations(TileB, AsWrittenPool()))
  }

  lemma EmptyBoardCount()
    ensures EmptyCount(EmptyBoard()) == 16
  {
    EmptyBoardCells();
    MultisetUniform(Flatten(EmptyBoard()), TileE);
  }

  /**
   * Placing the agent and then a on a board with 16 empty cells gives 16 * 15 states, each
   * with 14 empty cells.
   */
  lemma TwoPlacedSize(b: Grid)
    requires EmptyCount(b) == 16
    ensures |Permutations(TileA, Permutations(TileG, [b]))| == 240
    ensures forall x :: x in Permutations(TileA, Permutations(TileG, [b])) ==> EmptyCount(x) == 14
  {
    var pg := Permutations(TileG, [b]);
    PlaceUniform(TileG, [b], 15);
    PlaceUniform(TileA, pg, 14);
  }

  /** The window's pool holds 16 * 15 states. */
  lemma AsWrittenPoolSize()
    ensures |AsWrittenPool()| == 240
  {
    EmptyBoardCount();
    TwoPlacedSize(EmptyBoard());
  }

  /** Placing the four tiles on a board with 16 empty cells gives 16 * 15 * 14 * 13 states. */
  lemma FourPlacedSize(b: Grid)
    requires EmptyCount(b) == 16
    ensures |Permutations(TileC, Permutations(TileB, Permutations(TileA, Permutations(TileG, [b]))))| == 43680
  {
    TwoPlacedSize(b);
    var pa := Permutations(TileA, Permutations(TileG, [b]));
    PlaceUniform(TileB, pa, 13);
    PlaceUniform(TileC, Permutations(TileB, pa), 12);
  }

  /** The full pool holds 16 * 15 * 14 * 13 states. */
  lemma FullPoolSize()
    ensures |FullPool()| == 43680
  {
    EmptyBoardCount();
    FourPlacedSize(EmptyBoard());
  }

  /** No state of the window's pool holds b or c. */
  lemma AsWrittenPoolLetters()
    ensures forall x :: x in AsWrittenPool() ==> TileB !in Flatten(x) && TileC !in Flatten(x)
  {
    var e := [EmptyBoard()];
    EmptyBoardLacks(TileB);
    EmptyBoardLacks(TileC);
    PermutationsAbsentTile(TileG, e, TileB);
    PermutationsAbsentTile(TileG, e, TileC);
    PermutationsAbsentTile(TileA, Permutations(TileG, e), TileB);
    PermutationsAbsentTile(TileA, Permutations(TileG, e), TileC);
  }

  lemma GoalHoldsB()
    ensures TileB in Flatten(GoalGrid())
  {
    FlattenAt(GoalGrid(), 2, 1);
  }

  /**
   * The goal is missing from the window's pool, so no search starting from the initial state
   * ever reaches it: every level past the first holds pool states only.
   */
  lemma AsWrittenGoalUnreachable(k: nat)
    ensures GoalGrid() !in AsWrittenPool()
    ensures GoalGrid() !in Level(Successors(AsWrittenPool()), InitialGrid(), k)
    ensures !WalkTo(Successors(AsWrittenPool()), InitialGrid(), k, GoalGrid())
  {
    LevelIffWalk(Successors(AsWrittenPool()), InitialGrid(), k, GoalGrid());
    AsWrittenPoolLetters();
    GoalHoldsB();
    if k > 0 {
      var succ := Successors(AsWrittenPool());
      ExpandAllMembership(succ, Level(succ, InitialGrid(), k - 1), GoalGrid());
    } else {
      assert InitialGrid()[1] != GoalGrid()[1];
    }
  }

  /** With the window's pool, no walk of any length leads from the initial state to the goal. */
  lemma AsWrittenNoSolution()
    ensures GoalGrid() !in AsWrittenPool()
    ensures forall k: nat :: !WalkTo(Successors(AsWrittenPool()), InitialGrid(), k, GoalGrid())
  {
    AsWrittenGoalUnreachable(0);
    forall k: nat
      ensures !WalkTo(Successors(AsWrittenPool()), InitialGrid(), k, GoalGrid())
    {
      AsWrittenGoalUnreachable(k);
    }
  }

  /** Every state of the window's pool has the board's shape and holds the agent. */
  lemma AsWrittenPoolFits()
    ensures PoolFits(AsWrittenPool(), InitialGrid())
  {
    var init := InitialGrid();
    var e := [EmptyBoard()];
    var pg := Permutations(TileG, e);
    PermutationsKeepShape(TileG, e, init);
    PermutationsKeepShape(TileA, pg, init);
    PermutationsPlaceTile(TileG, e);
    PermutationsKeepTile(TileA, pg, TileG);
    FlattenAt(init, 3, 3);
  }

  /** The window's pool repeats no state. */
  lemma AsWrittenPoolDistinct()
    ensures Distinct(AsWrittenPool())
  {
    var e := [EmptyBoard()];
    var pg := Permutations(TileG, e);
    EmptyBoardLacks(TileG);
    EmptyBoardLacks(TileA);
    PermutationsDistinct(TileG, e);
    PermutationsAbsentTile(TileG, e, TileA);
    PermutationsDistinct(TileA, pg);
  }

  /** Every state of the full pool has the board's shape and holds the agent. */
  lemma FullPoolFits()
    ensures PoolFits(FullPool(), InitialGrid())
  {
    var init := InitialGrid();
    var e := [EmptyBoard()];
    var pg := Permutations(TileG, e);
    var pa := Permutations(TileA, pg);
    var pb := Permutations(TileB, pa);
    PermutationsKeepShape(TileG, e, init);
    PermutationsKeepShape(TileA, pg, init);
    PermutationsKeepShape(TileB, pa, init);
    PermutationsKeepShape(TileC, pb, init);
    PermutationsPlaceTile(TileG, e);
    PermutationsKeepTile(TileA, pg, TileG);
    PermutationsKeepTile(TileB, pa, TileG);
    PermutationsKeepTile(TileC, pb, TileG);
    FlattenAt(init, 3, 3);
  }

  /** The full pool repeats no state. */
  lemma FullPoolDistinct()
    ensures Distinct(FullPool())
  {
    var e := [EmptyBoard()];
    var pg := Permutations(TileG, e);
    var pa := Permutations(TileA, pg);
    var pb := Permutations(TileB, pa);
    EmptyBoardLacks(TileG);
    EmptyBoardLacks(TileA);
    EmptyBoardLacks(TileB);
    EmptyBoardLacks(TileC);
    PermutationsDistinct(TileG, e);
    PermutationsAbsentTile(TileG, e, TileA);
    PermutationsDistinct(TileA, pg);
    PermutationsAbsentTile(TileG, e, TileB);
    PermutationsAbsentTile(TileA, pg, TileB);
    PermutationsDistinct(TileB, pa);
    PermutationsAbsentTile(TileG, e, TileC);
    PermutationsAbsentTile(TileA, pg, TileC);
    PermutationsAbsentTile(TileB, pa, TileC);
    PermutationsDistinct(TileC, pb);
  }

  /** Writing the agent, a, b and c in turn into empty cells of a 4 x 4 board gives a state of its pool. */
  lemma PlacedInPool(e: Grid, s1: Grid, s2: Grid, s3: Grid, g: Grid)
    requires Height(e) == 4 && Width(e) == 4
    requires e[3][3] == TileE && s1 == SetCell(e, 3, 3, TileG)
    requires s1[1][1] == TileE && s2 == SetCell(s1, 1, 1, TileA)
    requires s2[2][1] == TileE && s3 == SetCell(s2, 2, 1, TileB)
    requires s3[3][1] == TileE && g == SetCell(s3, 3, 1, TileC)
    ensures g in Permutations(TileC, Permutations(TileB, Permutations(TileA, Permutations(TileG, [e]))))
  {
    PlaceCell(TileG, [e], e, 3, 3);
    PlaceCell(TileA, Permutations(TileG, [e]), s1, 1, 1);
    PlaceCell(TileB, Permutations(TileA, Permutations(TileG, [e])), s2, 2, 1);
    PlaceCell(TileC, Permutations(TileB, Permutations(TileA, Permutations(TileG, [e]))), s3, 3, 1);
  }

  /** The goal is a state of the full pool: the agent, a, b and c written in turn into the empty board. */
  lemma FullPoolHoldsGoal()
    ensures GoalGrid() in FullPool()
  {
    var e := EmptyBoard();
    var s1: Grid := ["----", "----", "----", "---g"];
    var s2: Grid := ["----", "-a--", "----", "---g"];
    var s3: Grid := ["----", "-a--", "-b--", "---g"];
    assert s1 == SetCell(e, 3, 3, TileG) by {
      assert e[3][3 := TileG] == "---g";
    }
    assert s2 == SetCell(s1, 1, 1, TileA) by {
      assert s1[1][1 := TileA] == "-a--";
    }
    assert s3 == SetCell(s2, 2, 1, TileB) by {
      assert s2[2][1 := TileB] == "-b--";
    }
    assert GoalGrid() == SetCell(s3, 3, 1, TileC) by {
      assert s3[3][1 := TileC] == "-c-g";
    }
    PlacedInPool(e, s1, s2, s3, GoalGrid());
  }
}
