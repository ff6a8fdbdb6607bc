/**
 * The puzzle's grid states: the char[,] arrays of the engine as values, their row-major
 * flattening (TwoDToOneD), cell-wise equality (EqualStates) and single-cell updates.
 */
module Grids {

  /** The empty/blank tile. */
  const TileE := '-'
  /** The lettered tiles. */
  const TileA := 'a'
  const TileB := 'b'
  const TileC := 'c'
  /** The agent tile. */
  const TileG := 'g'

  predicate IsRectangular(rows: seq<seq<char>>) {
    forall i :: 0 <= i < |rows| ==> |rows[i]| == |rows[0]|
  }

  /** A char[,] grid, as its rows. Every row has the same length. */
  type Grid = rows: seq<seq<char>> | IsRectangular(rows)

  /** GetLength(0). */
  function Height(g: Grid): nat { |g| }

  /** GetLength(1). */
  function Width(g: Grid): nat { if |g| == 0 then 0 else |g[0]| }

  predicate SameShape(a: Grid, b: Grid) {
    Height(a) == Height(b) && Width(a) == Width(b)
  }

  /** A grid of the given shape holding only empty tiles. */
  function EmptyGrid(h: nat, w: nat): (g: Grid)
    ensures Height(g) == h && (h > 0 ==> Width(g) == w)
    ensures forall i, j :: 0 <= i < h && 0 <= j < w ==> g[i][j] == TileE
  {
    seq(h, _ => seq(w, _ => TileE))
  }

  // ---------------------------------------------------------------------------------------
  // Row-major index arithmetic: cell (i, j) of a grid of width w is flat index i * w + j.

  lemma MulLe(a: int, b: int, w: int)
    requires a <= b && 0 <= w
    ensures a * w <= b * w
  {
    assert b * w - a * w == (b - a) * w;
  }

  lemma RowCol(i: int, j: int, w: int)
    requires 0 <= i && 0 <= j < w
    ensures (i * w + j) / w == i && (i * w + j) % w == j
  {
    var n := i * w + j;
    var q, r := n / w, n % w;
    assert q * w + r == n;
    assert (i + 1) * w == i * w + w;
    assert (q + 1) * w == q * w + w;
    if q > i {
      MulLe(i + 1, q, w);
      assert false;
    } else if q < i {
      MulLe(q + 1, i, w);
      assert false;
    }
  }

  lemma CellBound(i: int, j: int, h: int, w: int)
    requires 0 <= i < h && 0 <= j < w
    ensures 0 <= i * w + j < h * w
  {
    MulLe(i + 1, h, w);
    assert (i + 1) * w == i * w + w;
    MulLe(0, i, w);
  }

  lemma RowEnd(i: int, h: int, w: int)
    requires 0 <= i < h && 0 <= w
    ensures i * w + w == (i + 1) * w <= h * w
  {
    MulLe(i + 1, h, w);
  }

  lemma FlatBound(p: int, h: int, w: int)
    requires 0 <= p < h * w && h >= 0 && w >= 0
    ensures w > 0 && 0 <= p / w < h && 0 <= p % w < w
  {
  }

  /** TwoDToOneD's specification: the cells in row-major order. */
  function Flatten(g: Grid): (s: seq<char>)
    ensures |s| == Height(g) * Width(g)
  {
    var h, w := Height(g), Width(g);
    seq(h * w, p requires 0 <= p < h * w => FlatBound(p, h, w); g[p / w][p % w])
  }

  /** Cell (i, j) sits at flat index i * width + j. */
  lemma FlattenAt(g: Grid, i: int, j: int)
    requires 0 <= i < Height(g) && 0 <= j < Width(g)
    ensures 0 <= i * Width(g) + j < |Flatten(g)|
    ensures Flatten(g)[i * Width(g) + j] == g[i][j]
  {
    CellBound(i, j, Height(g), Width(g));
    RowCol(i, j, Width(g));
  }

  /** Two grids of one shape with the same flattening are the same grid. */
  lemma FlattenInjective(a: Grid, b: Grid)
    requires SameShape(a, b) && Flatten(a) == Flatten(b)
    ensures a == b
  {
    forall i | 0 <= i < Height(a) ensures a[i] == b[i] {
      forall j | 0 <= j < Width(a) ensures a[i][j] == b[i][j] {
        FlattenAt(a, i, j);
        FlattenAt(b, i, j);
      }
    }
  }

  /**
   * The source's EqualStates: scan a's cells row by row and report false at the first cell
   * where b differs.
   */
  method EqualStates(dataA: Grid, dataB: Grid) returns (equal: bool)
    requires SameShape(dataA, dataB)
    ensures equal <==> dataA == dataB
  {
    var dimensionX, dimensionY := Width(dataA), Height(dataA);
    for i := 0 to dimensionY
      invariant forall r :: 0 <= r < i ==> dataA[r] == dataB[r]
    {
      for j := 0 to dimensionX
        invariant forall c :: 0 <= c < j ==> dataA[i][c] == dataB[i][c]
      {
        if dataA[i][j] != dataB[i][j] {
          return false;
        }
      }
      assert dataA[i] == dataB[i];
    }
    return true;
  }

  /** Clone the grid and write t into cell (i, j). */
  function SetCell(g: Grid, i: nat, j: nat, t: char): (r: Grid)
    requires i < Height(g) && j < Width(g)
    ensures SameShape(r, g)
  {
    g[i := g[i][j := t]]
  }

  /** SetCell addressed by flat index. */
  function SetAt(g: Grid, p: nat, t: char): (r: Grid)
    requires p < |Flatten(g)|
    ensures SameShape(r, g)
    ensures Flatten(r) == Flatten(g)[p := t]
  {
    FlatBound(p, Height(g), Width(g));
    var w := Width(g);
    var r := SetCell(g, p / w, p % w, t);
    assert forall q :: 0 <= q < |Flatten(r)| ==> Flatten(r)[q] == Flatten(g)[p := t][q] by {
      forall q | 0 <= q < |Flatten(r)| ensures Flatten(r)[q] == Flatten(g)[p := t][q] {
        FlatBound(q, Height(g), w);
        if q / w == p / w && q % w == p % w {
          assert q == (q / w) * w + q % w && p == (p / w) * w + p % w;
        }
      }
    }
    r
  }

  /** SetCell at (i, j) is SetAt at i * width + j. */
  lemma SetCellAt(g: Grid, i: nat, j: nat, t: char)
    requires i < Height(g) && j < Width(g)
    ensures i * Width(g) + j < |Flatten(g)| && SetCell(g, i, j, t) == SetAt(g, i * Width(g) + j, t)
  {
    FlattenAt(g, i, j);
    RowCol(i, j, Width(g));
  }

  /**
   * The source's TwoDToOneD: copy the grid into a fresh array of Height * Width cells,
   * cell (i, j) going to index Width * i + j, and return it as a list.
   */
  method TwoDToOneD(data: Grid) returns (list: seq<char>)
    ensures list == Flatten(data)
  {
    var dimensionX, dimensionY := Width(data), Height(data);
    var newArray := new char[dimensionY * dimensionX];
    for i := 0 to dimensionY
      invariant i * dimensionX <= dimensionY * dimensionX
      invariant forall p :: 0 <= p < i * dimensionX ==> newArray[p] == Flatten(data)[p]
    {
      RowEnd(i, dimensionY, dimensionX);
      for j := 0 to dimensionX
        invariant i * dimensionX + j <= dimensionY * dimensionX
        invariant forall p :: 0 <= p < i * dimensionX + j ==> newArray[p] == Flatten(data)[p]
      {
        var p := FlatIndex(data, i, j);
        newArray[p] := data[i][j];
      }
    }
    list := newArray[..];
  }

  /** The index Width * i + j of cell (i, j), and what Flatten holds there. */
  function FlatIndex(g: Grid, i: int, j: int): (p: nat)
    requires 0 <= i < Height(g) && 0 <= j < Width(g)
    ensures p == Width(g) * i + j && p == i * Width(g) + j && p < Height(g) * Width(g)
    ensures Flatten(g)[p] == g[i][j]
  {
    FlattenAt(g, i, j);
    Width(g) * i + j
  }

  // ---------------------------------------------------------------------------------------
  // The integer arithmetic of the distance helpers.

  /** Math.Abs. */
  function Abs(x: int): nat { if x < 0 then -x else x }

  /** C#'s integer division, which truncates toward zero (IndexOf may hand it -1). */
  function CsDiv(x: int, w: int): int
    requires w > 0
  {
    if x >= 0 then x / w else -((-x) / w)
  }

  /** C#'s remainder, whose sign follows the dividend. */
  function CsMod(x: int, w: int): int
    requires w > 0
  {
    x - w * CsDiv(x, w)
  }

  /** Manhattan distance between two flat cells of a grid of width w. */
  function Manhattan(p: nat, q: nat, w: nat): nat
    requires w > 0
  {
    Abs(p / w - q / w) + Abs(p % w - q % w)
  }

  /** Only a cell is at distance zero from itself. */
  lemma ManhattanZero(p: nat, q: nat, w: nat)
    requires w > 0 && Manhattan(p, q, w) == 0
    ensures p == q
  {
    assert p == (p / w) * w + p % w && q == (q / w) * w + q % w;
  }
}
