/** The board of `py_boggle/my_game_manager.py`: a square grid of
    single-character cells, the eight neighbour offsets in the order the
    searches try them, and the declarative notion of a word lying on the
    board along a simple path of adjacent cells. */
module Board {

  /** `SHORT`: a word scores only when it is longer than this. */
  const Short := 3

  /** Neighbour offsets in visiting order: up, down, left, right, up-left,
      up-right, down-left, down-right. */
  const Directions: seq<(int, int)> :=
    [(-1, 0), (1, 0), (0, -1), (0, 1), (-1, -1), (-1, 1), (1, -1), (1, 1)]

  datatype Cell = Cell(row: int, col: int)

  type Grid = seq<seq<char>>

  /** Every row is as long as the number of rows, which is the board size. */
  predicate IsSquare(b: Grid)
  {
    forall r :: 0 <= r < |b| ==> |b[r]| == |b|
  }

  predicate InBounds(b: Grid, c: Cell)
  {
    0 <= c.row < |b| && 0 <= c.col < |b|
  }

  function At(b: Grid, c: Cell): char
    requires IsSquare(b) && InBounds(b, c)
  {
    b[c.row][c.col]
  }

  /** The neighbour of `c` in direction `k`. */
  function Step(c: Cell, k: nat): Cell
    requires k < |Directions|
  {
    Cell(c.row + Directions[k].0, c.col + Directions[k].1)
  }

  /** Two different cells touching horizontally, vertically or diagonally. */
  predicate Adjacent(a: Cell, c: Cell)
  {
    a != c && -1 <= a.row - c.row <= 1 && -1 <= a.col - c.col <= 1
  }

  predicate Distinct(p: seq<Cell>)
  {
    forall i, j :: 0 <= i < j < |p| ==> p[i] != p[j]
  }

  predicate AllInBounds(b: Grid, p: seq<Cell>)
  {
    forall i :: 0 <= i < |p| ==> InBounds(b, p[i])
  }

  /** A simple path: in bounds, no cell twice, each step to a neighbour. */
  predicate IsPath(b: Grid, p: seq<Cell>)
  {
    && AllInBounds(b, p)
    && Distinct(p)
    && forall i :: 0 < i < |p| ==> Adjacent(p[i - 1], p[i])
  }

  /** The letters along `p`. */
  function Spell(b: Grid, p: seq<Cell>): (r: string)
    requires IsSquare(b) && AllInBounds(b, p)
    ensures |r| == |p|
    ensures forall i :: 0 <= i < |p| ==> r[i] == At(b, p[i])
  {
    seq(|p|, i requires 0 <= i < |p| => At(b, p[i]))
  }

  /** `w` is spelled by some simple path of adjacent cells. */
  ghost predicate OnBoard(b: Grid, w: string)
    requires IsSquare(b)
  {
    exists p :: IsPath(b, p) && Spell(b, p) == w
  }

  /** `(row, col)` is not after `c` in row-major order. */
  predicate NotBefore(row: int, col: int, c: Cell)
  {
    row < c.row || (row == c.row && col <= c.col)
  }

  /** The cells of a `n` by `n` board. */
  function Cells(n: nat): set<Cell>
  {
    set r, c | 0 <= r < n && 0 <= c < n :: Cell(r, c)
  }

  function Elems(p: seq<Cell>): set<Cell>
  {
    set x | x in p
  }

  // ---------------------------------------------------------------------
  // Neighbours

  /** Every direction leads to a neighbour. */
  lemma StepAdjacent(c: Cell, k: nat)
    requires k < |Directions|
    ensures Adjacent(c, Step(c, k))
  {
  }

  /** The index of the direction leading from `a` to `c`, or
      `|Directions|` when `c` is not a neighbour of `a`. */
  function DirOf(a: Cell, c: Cell): (k: nat)
    ensures k <= |Directions|
    ensures k < |Directions| <==> Adjacent(a, c)
    ensures k < |Directions| ==> Step(a, k) == c
    ensures forall j :: 0 <= j < |Directions| && Step(a, j) == c ==> j == k
  {
    var dr, dc := c.row - a.row, c.col - a.col;
    if dr == -1 && dc == 0 then 0
    else if dr == 1 && dc == 0 then 1
    else if dr == 0 && dc == -1 then 2
    else if dr == 0 && dc == 1 then 3
    else if dr == -1 && dc == -1 then 4
    else if dr == -1 && dc == 1 then 5
    else if dr == 1 && dc == -1 then 6
    else if dr == 1 && dc == 1 then 7
    else |Directions|
  }

  /** Each later cell of a simple path is in bounds, a neighbour of the cell
      before it, and not among the cells before it. */
  lemma PathNext(b: Grid, p: seq<Cell>, i: nat)
    requires IsPath(b, p) && 0 < i < |p|
    ensures InBounds(b, p[i]) && Adjacent(p[i - 1], p[i]) && p[i] !in Elems(p[..i])
  {
    forall j | 0 <= j < i ensures p[..i][j] != p[i] {
      assert p[..i][j] == p[j];
    }
  }

  // ---------------------------------------------------------------------
  // Counting cells

  lemma InCells(n: nat, c: Cell)
    ensures c in Cells(n) <==> 0 <= c.row < n && 0 <= c.col < n
  {
    if 0 <= c.row < n && 0 <= c.col < n {
      assert c == Cell(c.row, c.col);
    }
  }

  function RowCells(r: int, n: nat): set<Cell>
  {
    set c | 0 <= c < n :: Cell(r, c)
  }

  function Rect(m: nat, n: nat): set<Cell>
  {
    set r, c | 0 <= r < m && 0 <= c < n :: Cell(r, c)
  }

  lemma {:induction false} RowCellsCard(r: int, n: nat)
    ensures |RowCells(r, n)| == n
  {
    if n > 0 {
      RowCellsCard(r, n - 1);
      assert RowCells(r, n) == RowCells(r, n - 1) + {Cell(r, n - 1)};
    }
  }

  lemma RectSplit(m: nat, n: nat)
    requires m > 0
    ensures Rect(m, n) == Rect(m - 1, n) + RowCells(m - 1, n)
    ensures Rect(m - 1, n) !! RowCells(m - 1, n)
  {
    forall x | x in Rect(m, n)
      ensures x in Rect(m - 1, n) + RowCells(m - 1, n)
    {
      var r, c :| 0 <= r < m && 0 <= c < n && x == Cell(r, c);
      if r < m - 1 {
        assert x in Rect(m - 1, n);
      } else {
        assert x in RowCells(m - 1, n);
      }
    }
    var last := m - 1;
    forall x | x in RowCells(last, n)
      ensures x !in Rect(last, n)
    {
      var c :| 0 <= c < n && x == Cell(last, c);
    }
  }

  lemma {:induction false} RectCard(m: nat, n: nat)
    ensures |Rect(m, n)| == m * n
  {
    if m > 0 {
      RectCard(m - 1, n);
      RowCellsCard(m - 1, n);
      RectSplit(m, n);
      assert m * n == (m - 1) * n + n;
    }
  }

  /** A board of size `n` has `n * n` cells. */
  lemma CellsCard(n: nat)
    ensures |Cells(n)| == n * n
  {
    RectCard(n, n);
    assert Cells(n) == Rect(n, n);
  }

  lemma {:induction false} SubsetCard(a: set<Cell>, s: set<Cell>)
    requires a <= s
    ensures |a| <= |s|
    decreases |a|
  {
    if a != {} {
      var x :| x in a;
      SubsetCard(a - {x}, s - {x});
    }
  }

  /** Any set of in-bounds cells has at most `n * n` members. */
  lemma CellSetBound(n: nat, a: set<Cell>)
    requires a <= Cells(n)
    ensures |a| <= n * n
  {
    SubsetCard(a, Cells(n));
    CellsCard(n);
  }

  lemma {:induction false} DistinctElems(p: seq<Cell>)
    requires Distinct(p)
    ensures |Elems(p)| == |p|
  {
    if p != [] {
      var q := p[..|p| - 1];
      DistinctElems(q);
      assert Elems(p) == Elems(q) + {p[|p| - 1]};
    }
  }

  lemma PathCells(b: Grid, p: seq<Cell>)
    requires AllInBounds(b, p)
    ensures Elems(p) <= Cells(|b|)
  {
    forall x | x in Elems(p)
      ensures x in Cells(|b|)
    {
      InCells(|b|, x);
    }
  }

  /** A simple path visits each cell at most once, so it is no longer than
      the number of cells. */
  lemma PathLength(b: Grid, p: seq<Cell>)
    requires IsPath(b, p)
    ensures |p| <= |b| * |b|
  {
    DistinctElems(p);
    PathCells(b, p);
    CellSetBound(|b|, Elems(p));
  }
}
