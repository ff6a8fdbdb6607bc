/**
 * How the engine compares two states: the agent's distance (DistanceTileG), the letters'
 * displacement (DistanceExceptTileG), the heuristic cost (HeuristicValue) and the one-move
 * test (AdjacentStates). Each is specified by a function on the row-major cell lists; the
 * lemmas connect those functions to the puzzle's rules.
 */
module Evaluator {
  import opened Seqs
  import opened Grids

  predicate IsLetter(c: char) { c == TileA || c == TileB || c == TileC }

  predicate IsTile(c: char) { c == TileE || IsLetter(c) || c == TileG }

  /**
   * Distance from flat cell p to the flat index q that IndexOf returned, with C#'s truncating
   * / and %: when q is -1 (the tile is absent) it still yields a number.
   */
  function Dist(p: nat, q: int, w: nat): nat
    requires w > 0
  {
    Abs(p / w - CsDiv(q, w)) + Abs(p % w - CsMod(q, w))
  }

  lemma DistManhattan(p: nat, q: int, w: nat)
    requires w > 0 && q >= 0
    ensures Dist(p, q, w) == Manhattan(p, q, w)
  {
  }

  lemma ManhattanSelf(p: nat, w: nat)
    requires w > 0
    ensures Manhattan(p, p, w) == 0
  {
  }

  lemma WidthPositive(g: Grid)
    requires |Flatten(g)| > 0
    ensures Width(g) > 0
  {
  }

  // ---------------------------------------------------------------------------------------
  // The specifications, on row-major cell lists A and B of one grid width w.

  /** Is the tile counted: a letter, or the agent when agent is set. */
  predicate Counted(c: char, agent: bool) {
    IsLetter(c) || (agent && c == TileG)
  }

  /**
   * The contribution of cell p: when it holds a counted tile that B has elsewhere, the
   * distance to the first cell of B holding that tile; otherwise 0.
   */
  function Misplaced(A: seq<char>, B: seq<char>, w: nat, agent: bool, p: nat): nat
    requires |A| == |B| && p < |A| && w > 0
  {
    if Counted(A[p], agent) && A[p] != B[p] then Dist(p, IndexOf(B, A[p]), w) else 0
  }

  /** The contributions of the first k cells. */
  function Displacement(A: seq<char>, B: seq<char>, w: nat, agent: bool, k: nat): nat
    requires |A| == |B| && k <= |A| && (k > 0 ==> w > 0)
  {
    if k == 0 then 0 else Displacement(A, B, w, agent, k - 1) + Misplaced(A, B, w, agent, k - 1)
  }

  /** How far A's first agent cell lies from B's first agent cell; 0 when it already matches B. */
  function AgentOffset(A: seq<char>, B: seq<char>, w: nat): nat
    requires |A| == |B| && (|A| > 0 ==> w > 0)
  {
    var k := IndexOf(A, TileG);
    if k < 0 || A[k] == B[k] then 0 else Dist(k, IndexOf(B, TileG), w)
  }

  /** The one-move decision of AdjacentStates, on cell lists. */
  function StepOf(A: seq<char>, B: seq<char>, w: nat): bool
    requires |A| == |B| && (|A| > 0 ==> w > 0) && TileG in B
  {
    if A == B then false
    else
      var dg, dl := AgentOffset(A, B, w), Displacement(A, B, w, false, |A|);
      if dg > 1 || dl > 1 then false
      else if dg == 1 && dl == 1 then
        var ia, ib := IndexOf(A, TileG), IndexOf(B, TileG);
        B[ia] == A[ib] && B[ia] != TileE
      else dg == 1 && dl == 0
  }

  /** DistanceTileG's specification. */
  function AgentDistance(a: Grid, b: Grid): nat
    requires SameShape(a, b)
  {
    if |Flatten(a)| == 0 then 0
    else WidthPositive(a); AgentOffset(Flatten(a), Flatten(b), Width(a))
  }

  /** DistanceExceptTileG's specification: the letters' summed displacement. */
  function LettersDisplacement(a: Grid, b: Grid): nat
    requires SameShape(a, b)
  {
    if |Flatten(a)| == 0 then 0
    else WidthPositive(a); Displacement(Flatten(a), Flatten(b), Width(a), false, |Flatten(a)|)
  }

  /** HeuristicValue's specification: the summed displacement of the letters and the agent. */
  function HeuristicCost(s: Grid, goal: Grid): nat
    requires SameShape(s, goal)
  {
    if |Flatten(s)| == 0 then 0
    else WidthPositive(s); Displacement(Flatten(s), Flatten(goal), Width(s), true, |Flatten(s)|)
  }

  /** AdjacentStates' specification. */
  function Adjacent(a: Grid, b: Grid): bool
    requires SameShape(a, b) && TileG in Flatten(b)
  {
    WidthPositive(a);
    StepOf(Flatten(a), Flatten(b), Width(a))
  }

  // ---------------------------------------------------------------------------------------
  // The puzzle's rules: well-formed states and the agent's move.

  /** Every cell holds a tile, the agent is present, and no tile but the empty one occurs twice. */
  ghost predicate WellFormedCells(f: seq<char>) {
    && TileG in f
    && (forall p :: 0 <= p < |f| ==> IsTile(f[p]))
    && (forall p, r :: 0 <= p < |f| && 0 <= r < |f| && f[p] == f[r] && f[p] != TileE ==> p == r)
  }

  ghost predicate WellFormed(s: Grid) {
    WellFormedCells(Flatten(s))
  }

  /** Two states hold the same tiles, each as often. */
  ghost predicate SameTiles(a: Grid, b: Grid) {
    multiset(Flatten(a)) == multiset(Flatten(b))
  }

  /** B is A with the agent swapped with the tile in cell q, a horizontal or vertical neighbour. */
  ghost predicate SwapsAgent(A: seq<char>, B: seq<char>, w: nat, q: nat)
    requires w > 0
  {
    var ia := IndexOf(A, TileG);
    && 0 <= ia
    && q < |A|
    && Manhattan(ia, q, w) == 1
    && B == A[ia := A[q]][q := TileG]
  }

  /** b arises from a by one move of the agent. */
  ghost predicate OneMove(a: Grid, b: Grid)
    requires SameShape(a, b)
  {
    && |Flatten(a)| > 0
    && (WidthPositive(a); exists q: nat :: SwapsAgent(Flatten(a), Flatten(b), Width(a), q))
  }

  // ---------------------------------------------------------------------------------------
  // Sums of contributions.

  /** A counted tile that B holds somewhere contributes nothing only when B holds it in place. */
  lemma MisplacedInPlace(A: seq<char>, B: seq<char>, w: nat, agent: bool, p: nat)
    requires |A| == |B| && p < |A| && w > 0
    requires Counted(A[p], agent) && A[p] in B && Misplaced(A, B, w, agent, p) == 0
    ensures B[p] == A[p]
  {
    var q := IndexOf(B, A[p]);
    if A[p] != B[p] {
      DistManhattan(p, q, w);
      ManhattanZero(p, q, w);
    }
  }

  lemma {:induction false} DisplacementZero(A: seq<char>, B: seq<char>, w: nat, agent: bool, k: nat)
    requires |A| == |B| && k <= |A| && (k > 0 ==> w > 0)
    ensures Displacement(A, B, w, agent, k) == 0
            <==> forall p :: 0 <= p < k ==> Misplaced(A, B, w, agent, p) == 0
  {
    if k > 0 {
      DisplacementZero(A, B, w, agent, k - 1);
    }
  }

  lemma {:induction false} DisplacementAtLeast(A: seq<char>, B: seq<char>, w: nat, agent: bool, k: nat, p: nat)
    requires |A| == |B| && k <= |A| && p < k && w > 0
    ensures Displacement(A, B, w, agent, k) >= Misplaced(A, B, w, agent, p)
  {
    if p < k - 1 {
      DisplacementAtLeast(A, B, w, agent, k - 1, p);
    }
  }

  lemma {:induction false} DisplacementAtLeastTwo(A: seq<char>, B: seq<char>, w: nat, agent: bool, k: nat, p: nat, q: nat)
    requires |A| == |B| && k <= |A| && p < k && q < k && p != q && w > 0
    ensures Displacement(A, B, w, agent, k) >= Misplaced(A, B, w, agent, p) + Misplaced(A, B, w, agent, q)
  {
    if p == k - 1 {
      DisplacementAtLeast(A, B, w, agent, k - 1, q);
    } else if q == k - 1 {
      DisplacementAtLeast(A, B, w, agent, k - 1, p);
    } else {
      DisplacementAtLeastTwo(A, B, w, agent, k - 1, p, q);
    }
  }

  lemma {:induction false} DisplacementOnly(A: seq<char>, B: seq<char>, w: nat, agent: bool, k: nat, q: nat)
    requires |A| == |B| && k <= |A| && q < k && w > 0
    requires forall p :: 0 <= p < k && p != q ==> Misplaced(A, B, w, agent, p) == 0
    ensures Displacement(A, B, w, agent, k) == Misplaced(A, B, w, agent, q)
  {
    if q < k - 1 {
      DisplacementOnly(A, B, w, agent, k - 1, q);
    } else {
      DisplacementZero(A, B, w, agent, k - 1);
    }
  }

  // ---------------------------------------------------------------------------------------
  // AdjacentStates accepts exactly the agent's moves.

  /** Facts about well-formed cell lists used below. */
  lemma UniqueTile(f: seq<char>, p: nat, r: nat)
    requires WellFormedCells(f) && p < |f| && r < |f| && f[p] == f[r] && f[p] != TileE
    ensures p == r
  {
  }

  /** In the one-move decision's accepting branches, the agent moved to a neighbouring cell. */
  lemma StepAgent(A: seq<char>, B: seq<char>, w: nat)
    requires |A| == |B| && w > 0 && TileG in B && WellFormedCells(A) && WellFormedCells(B)
    requires StepOf(A, B, w)
    ensures var ia, ib := IndexOf(A, TileG), IndexOf(B, TileG);
            0 <= ia < |A| && 0 <= ib < |A| && ia != ib && Manhattan(ia, ib, w) == 1
  {
    var ia, ib := IndexOf(A, TileG), IndexOf(B, TileG);
    assert AgentOffset(A, B, w) == 1;
    DistManhattan(ia, ib, w);
    if ia == ib {
      ManhattanSelf(ia, w);
    }
  }

  /**
   * In the accepting branches the agent's old cell receives the tile from its new cell, and
   * no cell other than those two contributes to the letters' displacement.
   */
  lemma StepContributions(A: seq<char>, B: seq<char>, w: nat)
    requires |A| == |B| && w > 0 && TileG in B && WellFormedCells(A) && WellFormedCells(B)
    requires multiset(A) == multiset(B) && StepOf(A, B, w)
    ensures var ia, ib := IndexOf(A, TileG), IndexOf(B, TileG);
            0 <= ia < |A| && 0 <= ib < |A|
            && B[ia] == A[ib]
            && forall r :: 0 <= r < |A| && r != ib ==> Misplaced(A, B, w, false, r) == 0
  {
    var ia, ib := IndexOf(A, TileG), IndexOf(B, TileG);
    var N := |A|;
    StepAgent(A, B, w);
    if Displacement(A, B, w, false, N) == 0 {
      DisplacementZero(A, B, w, false, N);
      if IsLetter(A[ib]) {
        assert A[ib] in multiset(A);
        MisplacedInPlace(A, B, w, false, ib);
        assert false;
      }
      if A[ib] == TileG {
        assert false;
      }
      if IsLetter(B[ia]) {
        var y := B[ia];
        assert y in multiset(B);
        var r := IndexOf(A, y);
        assert A[r] == y;
        MisplacedInPlace(A, B, w, false, r);
        assert false;
      }
      if B[ia] == TileG {
        assert false;
      }
    } else {
      var x := B[ia];
      assert x == A[ib] && x != TileE;
      if x == TileG {
        assert false;
      }
      IndexOfUnique(B, x, ia);
      DistManhattan(ib, ia, w);
      assert Misplaced(A, B, w, false, ib) == 1;
      forall r | 0 <= r < N && r != ib ensures Misplaced(A, B, w, false, r) == 0 {
        DisplacementAtLeastTwo(A, B, w, false, N, ib, r);
      }
    }
  }

  /** A cell away from the agent's old and new cells is the same in both lists. */
  lemma StepCell(A: seq<char>, B: seq<char>, w: nat, ia: nat, ib: nat, p: nat)
    requires |A| == |B| && w > 0 && WellFormedCells(A) && WellFormedCells(B)
    requires multiset(A) == multiset(B)
    requires ia < |A| && ib < |A| && A[ia] == TileG && B[ib] == TileG && B[ia] == A[ib]
    requires forall r :: 0 <= r < |A| && r != ib ==> Misplaced(A, B, w, false, r) == 0
    requires p < |A| && p != ia && p != ib
    ensures B[p] == A[p]
  {
    if IsLetter(A[p]) {
      assert A[p] in multiset(A);
      MisplacedInPlace(A, B, w, false, p);
    } else if A[p] == TileG {
      UniqueTile(A, ia, p);
    } else {
      assert A[p] == TileE;
      if IsLetter(B[p]) {
        var y := B[p];
        assert y in multiset(B);
        var r := IndexOf(A, y);
        assert A[r] == y;
        if r == ib {
          UniqueTile(B, ia, p);
        } else {
          MisplacedInPlace(A, B, w, false, r);
          UniqueTile(B, r, p);
        }
        assert false;
      } else if B[p] == TileG {
        UniqueTile(B, ib, p);
        assert false;
      }
    }
  }

  /** What AdjacentStates accepts is one move of the agent. */
  lemma StepIsMove(A: seq<char>, B: seq<char>, w: nat)
    requires |A| == |B| && w > 0 && TileG in B && WellFormedCells(A) && WellFormedCells(B)
    requires multiset(A) == multiset(B) && StepOf(A, B, w)
    ensures IndexOf(B, TileG) >= 0 && SwapsAgent(A, B, w, IndexOf(B, TileG))
  {
    var ia, ib := IndexOf(A, TileG), IndexOf(B, TileG);
    StepAgent(A, B, w);
    StepContributions(A, B, w);
    forall p | 0 <= p < |A| ensures B[p] == A[ia := A[ib]][ib := TileG][p] {
      if p != ia && p != ib {
        StepCell(A, B, w, ia, ib, p);
      }
    }
  }

  /** Every move of the agent is accepted by AdjacentStates. */
  lemma MoveIsStep(A: seq<char>, B: seq<char>, w: nat, q: nat)
    requires |A| == |B| && w > 0 && WellFormedCells(A) && SwapsAgent(A, B, w, q)
    ensures TileG in B && StepOf(A, B, w)
  {
    var ia := IndexOf(A, TileG);
    var N := |A|;
    if ia == q {
      ManhattanSelf(ia, w);
    }
    assert A[q] != TileG;
    assert B[q] == TileG && B[ia] == A[q];
    assert A != B by { assert A[q] != B[q]; }
    assert forall r :: 0 <= r < |B| && B[r] == TileG ==> r == q;
    IndexOfUnique(B, TileG, q);
    DistManhattan(ia, q, w);
    assert AgentOffset(A, B, w) == 1;
    forall r | 0 <= r < N && r != q ensures Misplaced(A, B, w, false, r) == 0 {
      if r != ia {
        assert A[r] == B[r];
      }
    }
    if IsLetter(A[q]) {
      var y := A[q];
      assert forall r :: 0 <= r < |B| && B[r] == y ==> r == ia;
      IndexOfUnique(B, y, ia);
      DistManhattan(q, ia, w);
      DisplacementOnly(A, B, w, false, N, q);
      assert Displacement(A, B, w, false, N) == 1;
    } else {
      DisplacementOnly(A, B, w, false, N, q);
      assert Displacement(A, B, w, false, N) == 0;
    }
  }

  /**
   * For two well-formed states with the same tiles, AdjacentStates holds exactly when the
   * second arises from the first by swapping the agent with a horizontal or vertical neighbour.
   */
  lemma AdjacentIffOneMove(a: Grid, b: Grid)
    requires SameShape(a, b) && WellFormed(a) && WellFormed(b) && SameTiles(a, b)
    ensures Adjacent(a, b) <==> OneMove(a, b)
  {
    var A, B, w := Flatten(a), Flatten(b), Width(a);
    WidthPositive(a);
    if Adjacent(a, b) {
      StepIsMove(A, B, w);
    }
    if OneMove(a, b) {
      var q: nat :| SwapsAgent(A, B, w, q);
      MoveIsStep(A, B, w, q);
    }
  }

  /** Adjacency is symmetric between well-formed states holding the same tiles. */
  lemma AdjacentSymmetric(a: Grid, b: Grid)
    requires SameShape(a, b) && WellFormed(a) && WellFormed(b) && SameTiles(a, b)
    requires Adjacent(a, b)
    ensures TileG in Flatten(a) && Adjacent(b, a)
  {
    var A, B, w := Flatten(a), Flatten(b), Width(a);
    WidthPositive(a);
    StepIsMove(A, B, w);
    var ia, ib := IndexOf(A, TileG), IndexOf(B, TileG);
    assert A == B[ib := B[ia]][ia := TileG];
    assert Manhattan(ib, ia, w) == Manhattan(ia, ib, w);
    assert SwapsAgent(B, A, w, ia);
    MoveIsStep(B, A, w, ia);
  }

  /** A move keeps a state well formed and keeps its tiles. */
  lemma MoveKeepsTiles(a: Grid, b: Grid)
    requires SameShape(a, b) && WellFormed(a) && OneMove(a, b)
    ensures WellFormed(b) && SameTiles(a, b)
  {
    var A, B, w := Flatten(a), Flatten(b), Width(a);
    WidthPositive(a);
    var q: nat :| SwapsAgent(A, B, w, q);
    var ia := IndexOf(A, TileG);
    assert B[q] == TileG;
    forall p, r | 0 <= p < |B| && 0 <= r < |B| && B[p] == B[r] && B[p] != TileE ensures p == r {
      assert B[p] == A[if p == ia then q else if p == q then ia else p];
      assert B[r] == A[if r == ia then q else if r == q then ia else r];
    }
    assert WellFormedCells(B) by {
      forall p | 0 <= p < |B| ensures IsTile(B[p]) {
        assert B[p] == A[if p == ia then q else if p == q then ia else p];
      }
    }
    assert A[q := TileG] == A[q := A[ia]];
    calc {
      multiset(B);
      multiset(A[ia := A[q]][q := A[ia]]);
      { SwapMultiset(A, ia, q); }
      multiset(A);
    }
  }

  lemma SwapMultiset(A: seq<char>, i: nat, j: nat)
    requires i < |A| && j < |A|
    ensures multiset(A[i := A[j]][j := A[i]]) == multiset(A)
  {
    var S1 := A[i := A[j]];
    assert multiset(S1) == multiset(A) - multiset{A[i]} + multiset{A[j]};
    assert S1[j] == A[j];
    assert multiset(S1[j := A[i]]) == multiset(S1) - multiset{A[j]} + multiset{A[i]};
  }

  // ---------------------------------------------------------------------------------------
  // What the distances mean.

  /** Between well-formed states, DistanceTileG is the Manhattan distance between the agents. */
  lemma AgentDistanceManhattan(a: Grid, b: Grid)
    requires SameShape(a, b) && WellFormed(a) && WellFormed(b)
    ensures Width(a) > 0
    ensures AgentDistance(a, b)
            == Manhattan(IndexOf(Flatten(a), TileG), IndexOf(Flatten(b), TileG), Width(a))
  {
    var A, B, w := Flatten(a), Flatten(b), Width(a);
    WidthPositive(a);
    var ia, ib := IndexOf(A, TileG), IndexOf(B, TileG);
    if A[ia] == B[ia] {
      IndexOfUnique(B, TileG, ia);
      ManhattanSelf(ia, w);
    } else {
      DistManhattan(ia, ib, w);
    }
  }

  /**
   * Between states with the same tiles, DistanceExceptTileG is zero exactly when every
   * letter already sits where the second state has it.
   */
  lemma LettersDisplacementZeroIff(a: Grid, b: Grid)
    requires SameShape(a, b) && SameTiles(a, b)
    ensures LettersDisplacement(a, b) == 0
            <==> forall p :: 0 <= p < |Flatten(a)| && IsLetter(Flatten(a)[p]) ==> Flatten(b)[p] == Flatten(a)[p]
  {
    var A, B, w := Flatten(a), Flatten(b), Width(a);
    if |A| > 0 {
      WidthPositive(a);
      DisplacementZero(A, B, w, false, |A|);
      if LettersDisplacement(a, b) == 0 {
        forall p | 0 <= p < |A| && IsLetter(A[p]) ensures B[p] == A[p] {
          assert A[p] in multiset(A);
          MisplacedInPlace(A, B, w, false, p);
        }
      }
    }
  }

  /**
   * Between well-formed states with the same tiles, the heuristic cost is zero exactly when
   * the state is the goal.
   */
  lemma HeuristicZeroIff(s: Grid, goal: Grid)
    requires SameShape(s, goal) && WellFormed(s) && WellFormed(goal) && SameTiles(s, goal)
    ensures HeuristicCost(s, goal) == 0 <==> s == goal
  {
    var A, B, w := Flatten(s), Flatten(goal), Width(s);
    WidthPositive(s);
    DisplacementZero(A, B, w, true, |A|);
    if HeuristicCost(s, goal) == 0 {
      forall p | 0 <= p < |A| ensures B[p] == A[p] {
        if A[p] != TileE {
          assert A[p] in multiset(A);
          MisplacedInPlace(A, B, w, true, p);
        } else if B[p] != TileE {
          var y := B[p];
          assert y in multiset(B);
          var r := IndexOf(A, y);
          MisplacedInPlace(A, B, w, true, r);
          assert false;
        }
      }
      FlattenInjective(s, goal);
    }
  }

  // ---------------------------------------------------------------------------------------
  // The source's loops.

  /**
   * The source's DistanceTileG: find a's first agent cell; when it differs from b's cell
   * there, measure the distance to b's first agent cell.
   */
  method DistanceTileG(dataA: Grid, dataB: Grid) returns (distance: int)
    requires SameShape(dataA, dataB)
    ensures distance == AgentDistance(dataA, dataB)
  {
    var dimensionX, dimensionY := Width(dataA), Height(dataA);
    distance := 0;
    var dataBList := TwoDToOneD(dataB);
    ghost var A := Flatten(dataA);
    for i := 0 to dimensionY
      invariant i * dimensionX <= dimensionY * dimensionX
      invariant TileG !in A[..i * dimensionX]
    {
      for j := 0 to dimensionX
        invariant i * dimensionX + j <= dimensionY * dimensionX
        invariant TileG !in A[..i * dimensionX + j]
      {
        FlattenAt(dataA, i, j);
        var k := i * dimensionX + j;
        if dataA[i][j] == TileG {
          IndexOfFirst(A, TileG, k);
          RowCol(i, j, dimensionX);
          FlattenAt(dataB, i, j);
          if dataA[i][j] != dataB[i][j] {
            var index := IndexOf(dataBList, TileG);
            var x := CsMod(index, dimensionX);
            var y := CsDiv(index, dimensionX);
            distance := Abs(i - y) + Abs(j - x);
          }
          return distance;
        }
        assert A[..k + 1] == A[..k] + [A[k]];
      }
      MulLe(i + 1, dimensionY, dimensionX);
      assert i * dimensionX + dimensionX == (i + 1) * dimensionX;
    }
    assert A[..dimensionY * dimensionX] == A;
  }

  /** Counting cell (i, j) adds its contribution, read off the grids and the target's cell list. */
  lemma MisplacedAt(dataA: Grid, target: Grid, agent: bool, i: int, j: int)
    requires SameShape(dataA, target) && 0 <= i < Height(dataA) && 0 <= j < Width(dataA)
    ensures 0 <= i * Width(dataA) + j < |Flatten(dataA)| == |Flatten(target)|
    ensures Displacement(Flatten(dataA), Flatten(target), Width(dataA), agent, i * Width(dataA) + j + 1)
            == Displacement(Flatten(dataA), Flatten(target), Width(dataA), agent, i * Width(dataA) + j)
            + if Counted(dataA[i][j], agent) && dataA[i][j] != target[i][j]
               then Abs(i - CsDiv(IndexOf(Flatten(target), dataA[i][j]), Width(dataA)))
                    + Abs(j - CsMod(IndexOf(Flatten(target), dataA[i][j]), Width(dataA)))
               else 0
  {
    FlattenAt(dataA, i, j);
    FlattenAt(target, i, j);
    RowCol(i, j, Width(dataA));
  }

  /**
   * The loop shared by DistanceExceptTileG and HeuristicValue: add, over the cells in row-major
   * order, the distance of each counted tile of dataA that is not in place in target.
   */
  method SumDisplacement(dataA: Grid, target: Grid, targetList: seq<char>, agent: bool) returns (distance: int)
    requires SameShape(dataA, target) && targetList == Flatten(target)
    ensures |Flatten(dataA)| > 0 ==> Width(dataA) > 0
    ensures distance == if |Flatten(dataA)| == 0 then 0
                        else Displacement(Flatten(dataA), Flatten(target), Width(dataA), agent, |Flatten(dataA)|)
  {
    var dimensionX, dimensionY := Width(dataA), Height(dataA);
    ghost var A, B := Flatten(dataA), Flatten(target);
    distance := 0;
    for i := 0 to dimensionY
      invariant i * dimensionX <= dimensionY * dimensionX
      invariant i * dimensionX > 0 ==> dimensionX > 0
      invariant distance == Displacement(A, B, dimensionX, agent, i * dimensionX)
    {
      for j := 0 to dimensionX
        invariant i * dimensionX + j <= dimensionY * dimensionX
        invariant distance == Displacement(A, B, dimensionX, agent, i * dimensionX + j)
      {
        MisplacedAt(dataA, target, agent, i, j);
        var t := dataA[i][j];
        if (t == TileA || t == TileB || t == TileC || (agent && t == TileG)) && t != target[i][j] {
          var index := IndexOf(targetList, t);
          var x := CsMod(index, dimensionX);
          var y := CsDiv(index, dimensionX);
          distance := distance + Abs(i - y) + Abs(j - x);
        }
      }
      MulLe(i + 1, dimensionY, dimensionX);
      assert i * dimensionX + dimensionX == (i + 1) * dimensionX;
    }
  }

  /** The source's DistanceExceptTileG: the letters' summed displacement. */
  method DistanceExceptTileG(dataA: Grid, dataB: Grid) returns (distance: int)
    requires SameShape(dataA, dataB)
    ensures distance == LettersDisplacement(dataA, dataB)
  {
    var dataBList := TwoDToOneD(dataB);
    distance := SumDisplacement(dataA, dataB, dataBList, false);
  }

  /**
   * The source's HeuristicValue: the summed displacement of the letters and the agent from
   * the goal, with goalState1D the goal's cell list.
   */
  method HeuristicValue(dataOne: Grid, goalState: Grid, goalState1D: seq<char>) returns (misplacedCount: int)
    requires SameShape(dataOne, goalState) && goalState1D == Flatten(goalState)
    ensures misplacedCount == HeuristicCost(dataOne, goalState)
  {
    misplacedCount := SumDisplacement(dataOne, goalState, goalState1D, true);
  }

  /**
   * The source's AdjacentStates: equal states are not adjacent; otherwise, at the first
   * differing cell, decide by the agent's distance, the letters' displacement and, when both
   * are 1, whether the agent swapped with the letter that moved.
   */
  method AdjacentStates(dataA: Grid, dataB: Grid) returns (adjacent: bool)
    requires SameShape(dataA, dataB) && TileG in Flatten(dataB)
    ensures adjacent == Adjacent(dataA, dataB)
  {
    var equal := EqualStates(dataA, dataB);
    ghost var A, B := Flatten(dataA), Flatten(dataB);
    if equal {
      return false;
    }
    assert A != B by {
      if A == B { FlattenInjective(dataA, dataB); }
    }
    var dimensionX, dimensionY := Width(dataA), Height(dataA);
    for i := 0 to dimensionY
      invariant i * dimensionX <= dimensionY * dimensionX
      invariant A[..i * dimensionX] == B[..i * dimensionX]
    {
      for j := 0 to dimensionX
        invariant i * dimensionX + j <= dimensionY * dimensionX
        invariant A[..i * dimensionX + j] == B[..i * dimensionX + j]
      {
        FlattenAt(dataA, i, j);
        FlattenAt(dataB, i, j);
        var k := i * dimensionX + j;
        if dataA[i][j] != dataB[i][j] {
          var distanceTileG := DistanceTileG(dataA, dataB);
          if distanceTileG > 1 {
            return false;
          }
          var distanceExceptTileG := DistanceExceptTileG(dataA, dataB);
          if distanceExceptTileG > 1 {
            return false;
          }
          if distanceTileG == 1 && distanceExceptTileG == 1 {
            var dataAList := TwoDToOneD(dataA);
            var dataBList := TwoDToOneD(dataB);
            var indexA := IndexOf(dataAList, TileG);
            var indexB := IndexOf(dataBList, TileG);
            return dataBList[indexA] == dataAList[indexB] && dataBList[indexA] != TileE;
          } else if distanceTileG == 1 && distanceExceptTileG == 0 {
            return true;
          }
          return false;
        }
        assert A[..k + 1] == A[..k] + [A[k]] && B[..k + 1] == B[..k] + [B[k]];
      }
      MulLe(i + 1, dimensionY, dimensionX);
      assert i * dimensionX + dimensionX == (i + 1) * dimensionX;
    }
    assert false;
  }
}
