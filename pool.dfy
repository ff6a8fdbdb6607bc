/**
 * The state-pool generator: DataPermutations writes a tile into every empty cell of every
 * input state, producing the pool of candidate states the searches filter.
 */
module Pool {
  import opened Seqs
  import opened Grids

  /**
   * The clones of s with tile written into one empty cell, for each empty cell among the
   * first k cells of s in row-major order.
   */
  function Placements(tile: char, s: Grid, k: nat): seq<Grid>
    requires k <= |Flatten(s)|
  {
    if k == 0 then []
    else Placements(tile, s, k - 1) + (if Flatten(s)[k - 1] == TileE then [SetAt(s, k - 1, tile)] else [])
  }

  /** DataPermutations' specification: the placements into each input state, input by input. */
  function Permutations(tile: char, states: seq<Grid>): seq<Grid>
  {
    if |states| == 0 then []
    else
      var last := states[|states| - 1];
      Permutations(tile, states[..|states| - 1]) + Placements(tile, last, |Flatten(last)|)
  }

  /** Scanning cell (i, j) appends its placement, when the cell is empty, to what came before. */
  lemma PlacementAt(tile: char, prefix: seq<Grid>, s: Grid, i: nat, j: nat)
    requires i < Height(s) && j < Width(s)
    ensures i * Width(s) + j < |Flatten(s)|
    ensures prefix + Placements(tile, s, i * Width(s) + j + 1)
            == prefix + Placements(tile, s, i * Width(s) + j)
               + (if s[i][j] == TileE then [SetCell(s, i, j, tile)] else [])
  {
    FlattenAt(s, i, j);
    SetCellAt(s, i, j, tile);
  }

  /**
   * The source's DataPermutations: for each input state, scan its cells row by row and, for
   * each empty cell, add a clone of the state with that cell set to tile.
   */
  method DataPermutations(tile: char, states: seq<Grid>) returns (permutatedStates: seq<Grid>)
    ensures permutatedStates == Permutations(tile, states)
  {
    permutatedStates := [];
    for n := 0 to |states|
      invariant permutatedStates == Permutations(tile, states[..n])
    {
      var state := states[n];
      var dimensionX, dimensionY := Width(state), Height(state);
      for i := 0 to dimensionY
        invariant i * dimensionX <= dimensionY * dimensionX
        invariant permutatedStates == Permutations(tile, states[..n]) + Placements(tile, state, i * dimensionX)
      {
        for j := 0 to dimensionX
          invariant i * dimensionX + j <= dimensionY * dimensionX
          invariant permutatedStates
                    == Permutations(tile, states[..n]) + Placements(tile, state, i * dimensionX + j)
        {
          PlacementAt(tile, Permutations(tile, states[..n]), state, i, j);
          if state[i][j] == TileE {
            var newState := SetCell(state, i, j, tile);
            permutatedStates := permutatedStates + [newState];
          }
        }
        MulLe(i + 1, dimensionY, dimensionX);
        assert i * dimensionX + dimensionX == (i + 1) * dimensionX;
      }
      assert states[..n + 1][..n] == states[..n];
    }
    assert states[..|states|] == states;
  }

  // ---------------------------------------------------------------------------------------
  // What the generated states are.

  /** A state is among the first k placements exactly when it is s with one empty cell p < k set to tile. */
  lemma {:induction false} PlacementsMembership(tile: char, s: Grid, k: nat, x: Grid)
    requires k <= |Flatten(s)|
    ensures x in Placements(tile, s, k)
            <==> exists p :: 0 <= p < k && Flatten(s)[p] == TileE && x == SetAt(s, p, tile)
  {
    if k > 0 {
      PlacementsMembership(tile, s, k - 1, x);
    }
  }

  /**
   * Every generated state is an input state with one of its empty cells set to tile, and
   * every such state is generated.
   */
  lemma {:induction false} PermutationsMembership(tile: char, states: seq<Grid>, x: Grid)
    ensures x in Permutations(tile, states)
            <==> exists s, p :: s in states && 0 <= p < |Flatten(s)| && Flatten(s)[p] == TileE
                               && x == SetAt(s, p, tile)
  {
    if |states| > 0 {
      var init, last := states[..|states| - 1], states[|states| - 1];
      PermutationsMembership(tile, init, x);
      PlacementsMembership(tile, last, |Flatten(last)|, x);
      assert states == init + [last];
      if x in Permutations(tile, states) {
        if x in Permutations(tile, init) {
          var s, p :| s in init && 0 <= p < |Flatten(s)| && Flatten(s)[p] == TileE && x == SetAt(s, p, tile);
          assert s in states;
        }
      }
      if exists s, p :: s in states && 0 <= p < |Flatten(s)| && Flatten(s)[p] == TileE && x == SetAt(s, p, tile) {
        var s, p :| s in states && 0 <= p < |Flatten(s)| && Flatten(s)[p] == TileE && x == SetAt(s, p, tile);
        if s != last {
          assert s in init;
        }
      }
    }
  }

  // ---------------------------------------------------------------------------------------
  // How many states are generated.

  /** The number of empty cells of a state. */
  function EmptyCount(s: Grid): nat {
    multiset(Flatten(s))[TileE]
  }

  /** The number of empty cells over all input states. */
  function TotalEmpty(states: seq<Grid>): nat {
    if |states| == 0 then 0 else TotalEmpty(states[..|states| - 1]) + EmptyCount(states[|states| - 1])
  }

  lemma {:induction false} PlacementsCount(tile: char, s: Grid, k: nat)
    requires k <= |Flatten(s)|
    ensures |Placements(tile, s, k)| == multiset(Flatten(s)[..k])[TileE]
  {
    if k > 0 {
      PlacementsCount(tile, s, k - 1);
      var f := Flatten(s);
      assert f[..k] == f[..k - 1] + [f[k - 1]];
      assert multiset(f[..k]) == multiset(f[..k - 1]) + multiset{f[k - 1]};
    }
  }

  /** DataPermutations returns one state per empty cell of each input. */
  lemma {:induction false} PermutationsCount(tile: char, states: seq<Grid>)
    ensures |Permutations(tile, states)| == TotalEmpty(states)
  {
    if |states| > 0 {
      var last := states[|states| - 1];
      PermutationsCount(tile, states[..|states| - 1]);
      PlacementsCount(tile, last, |Flatten(last)|);
      assert Flatten(last)[..|Flatten(last)|] == Flatten(last);
    }
  }

  /** Writing a non-empty tile into an empty cell leaves one empty cell fewer. */
  lemma SetAtEmptyCount(s: Grid, p: nat, tile: char)
    requires p < |Flatten(s)| && Flatten(s)[p] == TileE && tile != TileE
    ensures EmptyCount(SetAt(s, p, tile)) == EmptyCount(s) - 1
  {
    var f := Flatten(s);
    assert f == f[..p] + [f[p]] + f[p + 1..];
    assert f[p := tile] == f[..p] + [tile] + f[p + 1..];
  }

  /** When every input has e empty cells, the inputs have |states| * e empty cells in all. */
  lemma {:induction false} TotalEmptyUniform(states: seq<Grid>, e: nat)
    requires forall s :: s in states ==> EmptyCount(s) == e
    ensures TotalEmpty(states) == |states| * e
  {
    if |states| > 0 {
      var n, init := |states|, states[..|states| - 1];
      assert forall s :: s in init ==> s in states;
      TotalEmptyUniform(init, e);
      assert TotalEmpty(states) == TotalEmpty(init) + e;
      MulSucc(n - 1, e);
    }
  }

  lemma MulSucc(m: nat, e: nat)
    ensures m * e + e == (m + 1) * e
  {
  }

  // ---------------------------------------------------------------------------------------
  // The generated pool has no repeated state.

  lemma {:induction false} PlacementsDistinct(tile: char, s: Grid, k: nat)
    requires k <= |Flatten(s)| && tile != TileE
    ensures Distinct(Placements(tile, s, k))
  {
    if k > 0 {
      PlacementsDistinct(tile, s, k - 1);
      var init := Placements(tile, s, k - 1);
      if Flatten(s)[k - 1] == TileE {
        var y := SetAt(s, k - 1, tile);
        forall i, j | 0 <= i < |init| && 0 <= j < 1 ensures init[i] != [y][j] {
          PlacementsMembership(tile, s, k - 1, init[i]);
          var p :| 0 <= p < k - 1 && Flatten(s)[p] == TileE && init[i] == SetAt(s, p, tile);
          assert Flatten(init[i])[p] == tile && Flatten(y)[p] == TileE;
        }
        DistinctConcat(init, [y]);
      } else {
        assert Placements(tile, s, k) == init + [];
      }
    }
  }

  /** Two placements of a tile absent from both inputs coincide only for the same input and cell. */
  lemma PlacementInjective(tile: char, s1: Grid, p1: nat, s2: Grid, p2: nat)
    requires p1 < |Flatten(s1)| && p2 < |Flatten(s2)|
    requires Flatten(s1)[p1] == TileE && Flatten(s2)[p2] == TileE
    requires tile !in Flatten(s1) && tile !in Flatten(s2)
    requires SetAt(s1, p1, tile) == SetAt(s2, p2, tile)
    ensures s1 == s2 && p1 == p2
  {
    var f1, f2 := Flatten(s1), Flatten(s2);
    var x := SetAt(s1, p1, tile);
    assert Flatten(x) == f1[p1 := tile] == f2[p2 := tile];
    assert Flatten(x)[p2] == tile;
    assert f1[p2] != tile;
    assert p1 == p2;
    assert forall q :: 0 <= q < |f1| ==> f1[q] == f2[q] by {
      forall q | 0 <= q < |f1| ensures f1[q] == f2[q] {
        if q != p1 {
          assert f1[p1 := tile][q] == f2[p2 := tile][q];
        }
      }
    }
    FlattenInjective(s1, s2);
  }

  /**
   * Placing a tile that no input holds into repetition-free inputs yields a repetition-free
   * pool (the placement tile is not the empty tile).
   */
  lemma {:induction false} PermutationsDistinct(tile: char, states: seq<Grid>)
    requires tile != TileE && Distinct(states)
    requires forall s :: s in states ==> tile !in Flatten(s)
    ensures Distinct(Permutations(tile, states))
  {
    if |states| > 0 {
      var init, last := states[..|states| - 1], states[|states| - 1];
      assert Distinct(init) by {
        forall i, j | 0 <= i < |init| && 0 <= j < |init| && i != j ensures init[i] != init[j] {
          assert init[i] == states[i] && init[j] == states[j];
        }
      }
      assert forall s :: s in init ==> s in states;
      PermutationsDistinct(tile, init);
      PlacementsDistinct(tile, last, |Flatten(last)|);
      var a, b := Permutations(tile, init), Placements(tile, last, |Flatten(last)|);
      forall i, j | 0 <= i < |a| && 0 <= j < |b| ensures a[i] != b[j] {
        PermutationsMembership(tile, init, a[i]);
        PlacementsMembership(tile, last, |Flatten(last)|, b[j]);
        var s1, p1 :| s1 in init && 0 <= p1 < |Flatten(s1)| && Flatten(s1)[p1] == TileE && a[i] == SetAt(s1, p1, tile);
        var p2 :| 0 <= p2 < |Flatten(last)| && Flatten(last)[p2] == TileE && b[j] == SetAt(last, p2, tile);
        if a[i] == b[j] {
          PlacementInjective(tile, s1, p1, last, p2);
          assert false;
        }
      }
      DistinctConcat(a, b);
    }
  }

  // ---------------------------------------------------------------------------------------
  // What every generated state keeps from its input.

  /** Every generated state has the shape of the inputs. */
  lemma PermutationsKeepShape(tile: char, states: seq<Grid>, g: Grid)
    requires forall s :: s in states ==> SameShape(s, g)
    ensures forall x :: x in Permutations(tile, states) ==> SameShape(x, g)
  {
    forall x | x in Permutations(tile, states) ensures SameShape(x, g) {
      PermutationsMembership(tile, states, x);
    }
  }

  /** Every generated state holds the placed tile. */
  lemma PermutationsPlaceTile(tile: char, states: seq<Grid>)
    ensures forall x :: x in Permutations(tile, states) ==> tile in Flatten(x)
  {
    forall x | x in Permutations(tile, states) ensures tile in Flatten(x) {
      PermutationsMembership(tile, states, x);
      var s, p :| s in states && 0 <= p < |Flatten(s)| && Flatten(s)[p] == TileE && x == SetAt(s, p, tile);
      assert Flatten(x)[p] == tile;
    }
  }

  /** A non-empty tile every input holds is held by every generated state: only an empty cell is overwritten. */
  lemma PermutationsKeepTile(tile: char, states: seq<Grid>, c: char)
    requires c != TileE && forall s :: s in states ==> c in Flatten(s)
    ensures forall x :: x in Permutations(tile, states) ==> c in Flatten(x)
  {
    forall x | x in Permutations(tile, states) ensures c in Flatten(x) {
      PermutationsMembership(tile, states, x);
      var s, p :| s in states && 0 <= p < |Flatten(s)| && Flatten(s)[p] == TileE && x == SetAt(s, p, tile);
      var q :| 0 <= q < |Flatten(s)| && Flatten(s)[q] == c;
      assert Flatten(x)[q] == c;
    }
  }

  /** A tile other than the placed one that no input holds is held by no generated state. */
  lemma PermutationsAbsentTile(tile: char, states: seq<Grid>, c: char)
    requires c != tile && forall s :: s in states ==> c !in Flatten(s)
    ensures forall x :: x in Permutations(tile, states) ==> c !in Flatten(x)
  {
    forall x | x in Permutations(tile, states) ensures c !in Flatten(x) {
      PermutationsMembership(tile, states, x);
      var s, p :| s in states && 0 <= p < |Flatten(s)| && Flatten(s)[p] == TileE && x == SetAt(s, p, tile);
    }
  }

  /** Placing a non-empty tile into inputs with e + 1 empty cells each leaves e in every output. */
  lemma PermutationsEmptyCount(tile: char, states: seq<Grid>, e: nat)
    requires tile != TileE && forall s :: s in states ==> EmptyCount(s) == e + 1
    ensures forall x :: x in Permutations(tile, states) ==> EmptyCount(x) == e
  {
    forall x | x in Permutations(tile, states) ensures EmptyCount(x) == e {
      PermutationsMembership(tile, states, x);
      var s, p :| s in states && 0 <= p < |Flatten(s)| && Flatten(s)[p] == TileE && x == SetAt(s, p, tile);
      SetAtEmptyCount(s, p, tile);
    }
  }

  /** Placing a tile over states with e + 1 empty cells each gives e + 1 states per input, each with e. */
  lemma PlaceUniform(tile: char, states: seq<Grid>, e: nat)
    requires tile != TileE && forall s :: s in states ==> EmptyCount(s) == e + 1
    ensures |Permutations(tile, states)| == |states| * (e + 1)
    ensures forall x :: x in Permutations(tile, states) ==> EmptyCount(x) == e
  {
    TotalEmptyUniform(states, e + 1);
    PermutationsCount(tile, states);
    PermutationsEmptyCount(tile, states, e);
  }

  /** Writing the tile into an empty cell (i, j) of an input yields a generated state. */
  lemma PlaceCell(tile: char, states: seq<Grid>, s: Grid, i: nat, j: nat)
    requires s in states && i < Height(s) && j < Width(s) && s[i][j] == TileE
    ensures SetCell(s, i, j, tile) in Permutations(tile, states)
  {
    FlattenAt(s, i, j);
    SetCellAt(s, i, j, tile);
    PermutationsMembership(tile, states, SetCell(s, i, j, tile));
  }
}
