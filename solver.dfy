/** solveSudoku: a plain backtracking search. It takes the first blank cell
    in row-major order, tries the digits 1..9 that are absent from the
    cell's row, column and cluster, recurses on a copy with the digit
    written in, and returns the first branch result that is a valid
    solution. */
module Solver {
  import opened Grids
  import opened Validity

  datatype Option<T> = None | Some(value: T)

  /** Number of blank cells in a row. */
  function ZerosInRow(row: seq<int>): nat {
    if row == [] then 0 else (if row[0] == 0 then 1 else 0) + ZerosInRow(row[1..])
  }

  /** Number of blank cells in the grid. */
  function ZeroCount(s: Grid): nat {
    if s == [] then 0 else ZerosInRow(s[0]) + ZeroCount(s[1..])
  }

  /** Writing a non-zero value over one blank of a row removes one blank. */
  lemma {:induction false} ZerosInRowFill(row: seq<int>, j: int, k: int)
    requires 0 <= j < |row| && row[j] == 0 && k != 0
    ensures ZerosInRow(row[j := k]) == ZerosInRow(row) - 1
  {
    if j > 0 {
      assert row[j := k][1..] == row[1..][j - 1 := k];
      ZerosInRowFill(row[1..], j - 1, k);
    }
  }

  /** Replacing one row changes the blank count by that row's difference. */
  lemma {:induction false} ZeroCountReplaceRow(s: Grid, i: int, row: seq<int>)
    requires 0 <= i < |s|
    ensures ZeroCount(s[i := row]) == ZeroCount(s) - ZerosInRow(s[i]) + ZerosInRow(row)
  {
    if i > 0 {
      assert s[i := row][1..] == s[1..][i - 1 := row];
      ZeroCountReplaceRow(s[1..], i - 1, row);
    }
  }

  /** A row never has more blanks than cells. */
  lemma {:induction false} ZerosInRowBound(row: seq<int>)
    ensures ZerosInRow(row) <= |row|
  {
    if row != [] {
      ZerosInRowBound(row[1..]);
    }
  }

  /** A 9x9 grid has at most 81 blank cells, so the search is at most 81 deep. */
  lemma {:induction false} ZeroCountBound(s: Grid)
    requires forall r :: 0 <= r < |s| ==> |s[r]| == 9
    ensures ZeroCount(s) <= 9 * |s|
  {
    if s != [] {
      ZerosInRowBound(s[0]);
      ZeroCountBound(s[1..]);
    }
  }

  /** The test of sudokusolver.py line 191: k is not yet in the row, column or cluster of (i, j). */
  predicate IsCandidate(s: Grid, i: int, j: int, k: int)
    requires IsGrid(s) && 0 <= i < 9 && 0 <= j < 9
  {
    !(k in SameRow(s, i, j) || k in SameColumn(s, i, j) || k in SameCluster(s, i, j))
  }

  /** `temp = copy.deepcopy(s); temp[i][j] = k`: a new grid equal to s except
      at (i, j), which now holds k. The search only ever writes a candidate
      digit into a blank cell, and each write removes exactly one blank. */
  function Place(s: Grid, i: int, j: int, k: int): (t: Grid)
    requires IsGrid(s) && 0 <= i < 9 && 0 <= j < 9
    requires s[i][j] == 0 && 1 <= k <= 9 && IsCandidate(s, i, j, k)
    ensures IsGrid(t) && t[i][j] == k
    ensures forall r, c :: 0 <= r < 9 && 0 <= c < 9 && (r, c) != (i, j) ==> t[r][c] == s[r][c]
    ensures ZeroCount(t) == ZeroCount(s) - 1
  {
    ZerosInRowFill(s[i], j, k);
    ZeroCountReplaceRow(s, i, s[i][j := k]);
    s[i := s[i][j := k]]
  }

  /** The first blank cell at or after (i, j) in row-major order. */
  function FirstZeroFrom(s: Grid, i: int, j: int): (z: Option<(int, int)>)
    requires IsGrid(s) && 0 <= i <= 9 && 0 <= j < 9
    ensures z.Some? ==>
      0 <= z.value.0 < 9 && 0 <= z.value.1 < 9 && s[z.value.0][z.value.1] == 0
      && !Before(z.value.0, z.value.1, i, j)
      && forall r, c :: 0 <= r < 9 && 0 <= c < 9 && !Before(r, c, i, j) && Before(r, c, z.value.0, z.value.1)
           ==> s[r][c] != 0
    ensures z.None? ==> forall r, c :: 0 <= r < 9 && 0 <= c < 9 && !Before(r, c, i, j) ==> s[r][c] != 0
    decreases 9 - i, 9 - j
  {
    if i == 9 then None
    else if s[i][j] == 0 then Some((i, j))
    else if j < 8 then FirstZeroFrom(s, i, j + 1)
    else FirstZeroFrom(s, i + 1, 0)
  }

  /** The cell the nested loops of solveSudoku stop at: the first blank in
      row-major order, or None when the grid has no blank. */
  function FirstZero(s: Grid): (z: Option<(int, int)>)
    requires IsGrid(s)
    ensures z.Some? ==>
      0 <= z.value.0 < 9 && 0 <= z.value.1 < 9 && s[z.value.0][z.value.1] == 0
      && forall r, c :: 0 <= r < 9 && 0 <= c < 9 && Before(r, c, z.value.0, z.value.1) ==> s[r][c] != 0
    ensures z.None? <==> forall r, c :: 0 <= r < 9 && 0 <= c < 9 ==> s[r][c] != 0
  {
    FirstZeroFrom(s, 0, 0)
  }

  /** The loop of sudokusolver.py lines 202-205: the first collected result that passes
      isValidSolution, or None. */
  function FirstValid(solutions: seq<Grid>): (r: Option<Grid>)
    ensures r.Some? ==> r.value in solutions && ValidSolution(r.value)
    ensures r.None? <==> forall t :: 0 <= t < |solutions| ==> !ValidSolution(solutions[t])
    ensures forall t ::
      (0 <= t < |solutions| && ValidSolution(solutions[t]) && forall u :: 0 <= u < t ==> !ValidSolution(solutions[u]))
      ==> r == Some(solutions[t])
  {
    if solutions == [] then None
    else if ValidSolution(solutions[0]) then Some(solutions[0])
    else
      var r := FirstValid(solutions[1..]);
      assert forall t :: 0 < t < |solutions| ==> solutions[t] == solutions[1..][t - 1];
      r
  }

  /** The non-None outcomes, in the order they were produced. */
  function Successes(outs: seq<Option<Grid>>): seq<Grid>
  {
    if outs == [] then []
    else
      var rest := Successes(outs[..|outs| - 1]);
      match outs[|outs| - 1]
      case Some(g) => rest + [g]
      case None => rest
  }

  /** Appending an outcome appends its grid, if any, to the collected list. */
  lemma SuccessesAppend(outs: seq<Option<Grid>>, o: Option<Grid>)
    ensures Successes(outs + [o]) == Successes(outs) + (if o.Some? then [o.value] else [])
  {
  }

  /** The specification of solveSudoku: at the first blank, the results of
      trying the digits 1..9 are collected and the first valid one is
      returned; without a blank, the grid itself if it is valid. */
  function Solve(s: Grid): Option<Grid>
    requires IsGrid(s)
    decreases ZeroCount(s), 2
  {
    match FirstZero(s)
    case None => if ValidSolution(s) then Some(s) else None
    case Some((i, j)) => FirstValid(Successes(Attempts(s, i, j, 9)))
  }

  /** The outcomes of trying the digits 1..n, in order, at blank cell (i, j). */
  function Attempts(s: Grid, i: int, j: int, n: int): (outs: seq<Option<Grid>>)
    requires IsGrid(s) && 0 <= i < 9 && 0 <= j < 9 && s[i][j] == 0 && 0 <= n <= 9
    ensures |outs| == n
    decreases ZeroCount(s), 1, n
  {
    if n == 0 then [] else Attempts(s, i, j, n - 1) + [Attempt(s, i, j, n)]
  }

  /** Trying digit k at blank cell (i, j): when k is a candidate, the result
      of solving the copy with k written in; otherwise nothing. */
  function Attempt(s: Grid, i: int, j: int, k: int): Option<Grid>
    requires IsGrid(s) && 0 <= i < 9 && 0 <= j < 9 && s[i][j] == 0 && 1 <= k <= 9
    decreases ZeroCount(s), 0, 0
  {
    if IsCandidate(s, i, j, k) then Solve(Place(s, i, j, k)) else None
  }

  /** sudokusolver.py lines 202-205: scan the collected results in order and return the
      first that passes isValidSolution. */
  method PickValid(solutions: seq<Grid>) returns (result: Option<Grid>)
    ensures result == FirstValid(solutions)
  {
    for t := 0 to |solutions|
      invariant FirstValid(solutions[t..]) == FirstValid(solutions)
    {
      var rest := solutions[t..];
      assert rest[0] == solutions[t] && rest[1..] == solutions[t + 1..];
      var valid := IsValidSolution(solutions[t]);
      if valid {
        return Some(solutions[t]);
      }
    }
    assert solutions[|solutions|..] == [];
    return None;
  }

  /** solveSudoku: the nested loops look for the first blank; at that blank
      the digit loop collects the results and the first valid one is
      returned; a grid without blanks is returned when it is valid. The
      progress output is not modelled. */
  method SolveSudoku(s: Grid) returns (result: Option<Grid>)
    requires IsGrid(s)
    ensures result == Solve(s)
    decreases ZeroCount(s), 2
  {
    for i := 0 to 9
      invariant forall r, c :: 0 <= r < i && 0 <= c < 9 ==> s[r][c] != 0
    {
      for j := 0 to 9
        invariant forall c :: 0 <= c < j ==> s[i][c] != 0
      {
        if s[i][j] == 0 {
          assert FirstZero(s) == Some((i, j));
          var solutions := TryDigits(s, i, j);
          result := PickValid(solutions);
          return;
        }
      }
    }
    var valid := IsValidSolution(s);
    if valid {
      return Some(s);
    }
    return None;
  }

  /** The loop over k = 1..9 at the first blank (i, j) of solveSudoku: each
      candidate digit is written into a copy, the copy is solved
      recursively, and every non-None result is appended to `solutions`. */
  method TryDigits(s: Grid, i: int, j: int) returns (solutions: seq<Grid>)
    requires IsGrid(s) && 0 <= i < 9 && 0 <= j < 9 && s[i][j] == 0
    ensures solutions == Successes(Attempts(s, i, j, 9))
    decreases ZeroCount(s), 1
  {
    solutions := [];
    for k := 1 to 10
      invariant solutions == Successes(Attempts(s, i, j, k - 1))
    {
      ghost var tried := Attempts(s, i, j, k - 1);
      assert Attempts(s, i, j, k) == tried + [Attempt(s, i, j, k)];
      SuccessesAppend(tried, Attempt(s, i, j, k));
      if !(k in SameRow(s, i, j) || k in SameColumn(s, i, j) || k in SameCluster(s, i, j)) {
        var temp := Place(s, i, j, k);
        var solution := SolveSudoku(temp);
        assert solution == Attempt(s, i, j, k);
        if solution != None {
          solutions := solutions + [solution.value];
        }
      }
    }
  }
}
