/** The 9x9 Sudoku grid and the three regions a cell belongs to: its row,
    its column and its 3x3 cluster. A cell holds 0 when it is blank. */
module Grids {

  /** A grid is a list of rows, each a list of cell values. */
  type Grid = seq<seq<int>>

  /** Nine rows of nine cells each. */
  predicate IsGrid(s: Grid) {
    |s| == 9 && forall r :: 0 <= r < 9 ==> |s[r]| == 9
  }

  /** Cell (r, c) comes strictly before cell (i, j) in row-major order. */
  predicate Before(r: int, c: int, i: int, j: int) {
    r < i || (r == i && c < j)
  }

  /** Cells (r, c) and (i, j) lie in the same 3x3 cluster. */
  predicate SameBlock(r: int, c: int, i: int, j: int) {
    r / 3 == i / 3 && c / 3 == j / 3
  }

  /** Column c, read top to bottom. */
  function Column(s: Grid, c: int): (col: seq<int>)
    requires 0 <= c && forall r :: 0 <= r < |s| ==> c < |s[r]|
    ensures |col| == |s|
    ensures forall r :: 0 <= r < |s| ==> col[r] == s[r][c]
  {
    seq(|s|, r requires 0 <= r < |s| => s[r][c])
  }

  /** Cluster (bi, bj): rows 3bi..3bi+2, columns 3bj..3bj+2, row-major. */
  function Block(s: Grid, bi: int, bj: int): (b: seq<int>)
    requires IsGrid(s) && 0 <= bi < 3 && 0 <= bj < 3
    ensures |b| == 9
    ensures b[..3] == s[3 * bi][3 * bj..3 * bj + 3]
    ensures b[3..6] == s[3 * bi + 1][3 * bj..3 * bj + 3]
    ensures b[6..] == s[3 * bi + 2][3 * bj..3 * bj + 3]
  {
    s[3 * bi][3 * bj..3 * bj + 3] + s[3 * bi + 1][3 * bj..3 * bj + 3] + s[3 * bi + 2][3 * bj..3 * bj + 3]
  }

  /** Place t of cluster (bi, bj) holds the cell at row t / 3, column t % 3
      of that cluster. */
  lemma BlockCell(s: Grid, bi: int, bj: int, t: int)
    requires IsGrid(s) && 0 <= bi < 3 && 0 <= bj < 3 && 0 <= t < 9
    ensures Block(s, bi, bj)[t] == s[3 * bi + t / 3][3 * bj + t % 3]
  {
    var b := Block(s, bi, bj);
    if t < 3 {
      assert b[t] == b[..3][t];
    } else if t < 6 {
      assert b[t] == b[3..6][t - 3];
    } else {
      assert b[t] == b[6..][t - 6];
    }
  }

  /** The position of cell (r, c) inside its own cluster. */
  lemma BlockIndex(s: Grid, r: int, c: int)
    requires IsGrid(s) && 0 <= r < 9 && 0 <= c < 9
    ensures 0 <= 3 * (r % 3) + c % 3 < 9
    ensures Block(s, r / 3, c / 3)[3 * (r % 3) + c % 3] == s[r][c]
  {
    var t := 3 * (r % 3) + c % 3;
    assert t / 3 == r % 3 && t % 3 == c % 3;
    BlockCell(s, r / 3, c / 3, t);
  }

  /** same_row: the values in the row of cell (i, j). */
  function SameRow(s: Grid, i: int, j: int): seq<int>
    requires 0 <= i < |s|
  {
    s[i]
  }

  /** same_column: the values in the column of cell (i, j), one per row. */
  function SameColumn(s: Grid, i: int, j: int): seq<int>
    requires 0 <= j && forall r :: 0 <= r < |s| ==> j < |s[r]|
  {
    Column(s, j)
  }

  /** same_cluster: the values in the 3x3 cluster of cell (i, j). */
  function SameCluster(s: Grid, i: int, j: int): seq<int>
    requires IsGrid(s) && 0 <= i < 9 && 0 <= j < 9
  {
    Block(s, i / 3, j / 3)
  }

  /** same_cluster yields exactly the values of the cells in the 3x3 block of (i, j). */
  lemma ClusterMembership(s: Grid, i: int, j: int, x: int)
    requires IsGrid(s) && 0 <= i < 9 && 0 <= j < 9
    ensures x in SameCluster(s, i, j) <==>
      exists r, c :: 0 <= r < 9 && 0 <= c < 9 && SameBlock(r, c, i, j) && s[r][c] == x
  {
    var b := SameCluster(s, i, j);
    if x in b {
      var t :| 0 <= t < 9 && b[t] == x;
      BlockCell(s, i / 3, j / 3, t);
      var r, c := 3 * (i / 3) + t / 3, 3 * (j / 3) + t % 3;
      assert SameBlock(r, c, i, j) && s[r][c] == x;
    }
    if exists r, c :: 0 <= r < 9 && 0 <= c < 9 && SameBlock(r, c, i, j) && s[r][c] == x {
      var r, c :| 0 <= r < 9 && 0 <= c < 9 && SameBlock(r, c, i, j) && s[r][c] == x;
      BlockIndex(s, r, c);
    }
  }

  /** Each accessor yields exactly the values of the cells in that region. */
  lemma RegionMembership(s: Grid, i: int, j: int, x: int)
    requires IsGrid(s) && 0 <= i < 9 && 0 <= j < 9
    ensures |SameRow(s, i, j)| == 9 && |SameColumn(s, i, j)| == 9 && |SameCluster(s, i, j)| == 9
    ensures x in SameRow(s, i, j) <==> exists c :: 0 <= c < 9 && s[i][c] == x
    ensures x in SameColumn(s, i, j) <==> exists r :: 0 <= r < 9 && s[r][j] == x
    ensures x in SameCluster(s, i, j) <==>
      exists r, c :: 0 <= r < 9 && 0 <= c < 9 && SameBlock(r, c, i, j) && s[r][c] == x
  {
    ClusterMembership(s, i, j, x);
  }

  /** All cells of one 3x3 block see the same cluster. */
  lemma ClusterSharedByBlock(s: Grid, i: int, j: int, i': int, j': int)
    requires IsGrid(s) && 0 <= i < 9 && 0 <= j < 9 && 0 <= i' < 9 && 0 <= j' < 9
    requires SameBlock(i, j, i', j')
    ensures SameCluster(s, i, j) == SameCluster(s, i', j')
  {
  }
}
