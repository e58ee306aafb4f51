/** What solveSudoku promises: a returned grid is a valid solution that keeps
    every given digit; a grid with some valid completion is never reported
    unsolvable; and of all valid completions the search returns the least
    one in row-major order, because it fills the first blank first and tries
    the digits in ascending order. */
module SolverProperties {
  import opened Grids
  import opened Validity
  import opened Solver

  /** g is a 9x9 grid that keeps every non-blank cell of s. */
  predicate Extends(g: Grid, s: Grid) {
    IsGrid(g) && IsGrid(s)
    && forall r, c :: 0 <= r < 9 && 0 <= c < 9 && s[r][c] != 0 ==> g[r][c] == s[r][c]
  }

  /** g comes strictly before h when both are read cell by cell in row-major order. */
  ghost predicate LexLess(g: Grid, h: Grid)
    requires IsGrid(g) && IsGrid(h)
  {
    exists i, j :: 0 <= i < 9 && 0 <= j < 9 && g[i][j] < h[i][j]
      && forall r, c :: 0 <= r < 9 && 0 <= c < 9 && Before(r, c, i, j) ==> g[r][c] == h[r][c]
  }

  /** No two different cells of one row, column or cluster hold the same
      non-zero digit. */
  predicate Consistent(s: Grid)
    requires IsGrid(s)
  {
    forall r, c, r', c' ::
      0 <= r < 9 && 0 <= c < 9 && 0 <= r' < 9 && 0 <= c' < 9 && (r, c) != (r', c')
      && (r == r' || c == c' || SameBlock(r, c, r', c')) && s[r][c] != 0
      ==> s[r][c] != s[r'][c']
  }

  /** The test of sudokusolver.py line 191 passes exactly when no cell in the row, the
      column or the 3x3 block of (i, j) holds k. */
  lemma CandidateIff(s: Grid, i: int, j: int, k: int)
    requires IsGrid(s) && 0 <= i < 9 && 0 <= j < 9
    ensures IsCandidate(s, i, j, k) <==>
      forall r, c :: 0 <= r < 9 && 0 <= c < 9 && (r == i || c == j || SameBlock(r, c, i, j)) ==> s[r][c] != k
  {
    RegionMembership(s, i, j, k);
    if !IsCandidate(s, i, j, k) {
      if k in SameRow(s, i, j) {
        var c :| 0 <= c < 9 && s[i][c] == k;
        assert i == i && s[i][c] == k;
      } else if k in SameColumn(s, i, j) {
        var r :| 0 <= r < 9 && s[r][j] == k;
        assert j == j && s[r][j] == k;
      } else {
        var r, c :| 0 <= r < 9 && 0 <= c < 9 && SameBlock(r, c, i, j) && s[r][c] == k;
      }
    }
  }

  /** Writing a candidate digit into a blank keeps a consistent grid consistent:
      the invariant the forward check maintains along every branch. */
  lemma PlaceKeepsConsistent(s: Grid, i: int, j: int, k: int)
    requires IsGrid(s) && 0 <= i < 9 && 0 <= j < 9
    requires s[i][j] == 0 && 1 <= k <= 9 && IsCandidate(s, i, j, k)
    requires Consistent(s)
    ensures Consistent(Place(s, i, j, k))
  {
    CandidateIff(s, i, j, k);
    var t := Place(s, i, j, k);
    forall r, c, r', c' |
      0 <= r < 9 && 0 <= c < 9 && 0 <= r' < 9 && 0 <= c' < 9 && (r, c) != (r', c')
      && (r == r' || c == c' || SameBlock(r, c, r', c')) && t[r][c] != 0
      ensures t[r][c] != t[r'][c']
    {
      if (r, c) == (i, j) {
        assert s[r'][c'] != k;
      } else if (r', c') == (i, j) {
        assert s[r][c] != k;
      } else {
        assert s[r][c] != s[r'][c'];
      }
    }
  }

  /** A valid solution has no blank: every cell holds a digit 1..9. */
  lemma ValidHasNoBlanks(g: Grid)
    requires ValidSolution(g)
    ensures IsGrid(g) && forall r, c :: 0 <= r < 9 && 0 <= c < 9 ==> 1 <= g[r][c] <= 9
  {
    forall r, c | 0 <= r < 9 && 0 <= c < 9
      ensures IsGrid(g) && 1 <= g[r][c] <= 9
    {
      ValidSolutionCells(g, r, c, r, c);
    }
  }

  /** In a valid completion h of s, the digit h puts at a blank (i, j) of s is
      a candidate there, and h also completes s with that digit written in. */
  lemma CompletionDigitIsCandidate(s: Grid, h: Grid, i: int, j: int)
    requires IsGrid(s) && ValidSolution(h) && Extends(h, s)
    requires 0 <= i < 9 && 0 <= j < 9 && s[i][j] == 0
    ensures 1 <= h[i][j] <= 9 && IsCandidate(s, i, j, h[i][j])
    ensures Extends(h, Place(s, i, j, h[i][j]))
  {
    var k := h[i][j];
    ValidSolutionCells(h, i, j, i, j);
    forall r, c | 0 <= r < 9 && 0 <= c < 9 && (r == i || c == j || SameBlock(r, c, i, j))
      ensures s[r][c] != k
    {
      ValidSolutionCells(h, r, c, i, j);
    }
    RegionMembership(s, i, j, k);
  }

  /** Every grid the collected list holds was produced by one of the outcomes. */
  lemma {:induction false} SuccessesOrigin(outs: seq<Option<Grid>>, g: Grid) returns (t: int)
    requires g in Successes(outs)
    ensures 0 <= t < |outs| && outs[t] == Some(g)
  {
    var init := outs[..|outs| - 1];
    if g in Successes(init) {
      t := SuccessesOrigin(init, g);
      assert outs[t] == init[t];
    } else {
      t := |outs| - 1;
    }
  }

  /** Every successful outcome is in the collected list. */
  lemma {:induction false} SuccessesContains(outs: seq<Option<Grid>>, t: int)
    requires 0 <= t < |outs| && outs[t].Some?
    ensures outs[t].value in Successes(outs)
  {
    var init := outs[..|outs| - 1];
    if t < |outs| - 1 {
      assert outs[t] == init[t];
      SuccessesContains(init, t);
    }
  }

  /** The head of the collected list comes from the first successful outcome. */
  lemma {:induction false} SuccessesHead(outs: seq<Option<Grid>>) returns (t: int)
    requires |Successes(outs)| > 0
    ensures 0 <= t < |outs| && outs[t] == Some(Successes(outs)[0])
    ensures forall u :: 0 <= u < t ==> outs[u].None?
  {
    var init := outs[..|outs| - 1];
    if |Successes(init)| > 0 {
      t := SuccessesHead(init);
      assert outs[t] == init[t];
      assert forall u :: 0 <= u < t ==> outs[u] == init[u];
    } else {
      t := |outs| - 1;
      forall u | 0 <= u < t
        ensures outs[u].None?
      {
        assert outs[u] == init[u];
        if init[u].Some? {
          SuccessesContains(init, u);
        }
      }
    }
  }

  /** Place t of the outcome list is the outcome of digit t + 1. */
  lemma {:induction false} AttemptsIndex(s: Grid, i: int, j: int, n: int, t: int)
    requires IsGrid(s) && 0 <= i < 9 && 0 <= j < 9 && s[i][j] == 0 && 0 <= n <= 9
    requires 0 <= t < n
    ensures Attempts(s, i, j, n)[t] == Attempt(s, i, j, t + 1)
  {
    if t < n - 1 {
      AttemptsIndex(s, i, j, n - 1, t);
    }
  }

  /** A successful attempt yields a valid solution extending s; stated
      together with the same fact for Solve, by mutual induction on the
      number of blanks. */
  lemma {:induction false} AttemptSound(s: Grid, i: int, j: int, k: int)
    requires IsGrid(s) && 0 <= i < 9 && 0 <= j < 9 && s[i][j] == 0 && 1 <= k <= 9
    ensures Attempt(s, i, j, k).Some? ==>
      ValidSolution(Attempt(s, i, j, k).value) && Extends(Attempt(s, i, j, k).value, s)
    decreases ZeroCount(s), 0
  {
    if IsCandidate(s, i, j, k) {
      SolveSound(Place(s, i, j, k));
    }
  }

  /** Soundness: a returned grid passes isValidSolution, has no blank and
      keeps every given digit of the input. */
  lemma {:induction false} SolveSound(s: Grid)
    requires IsGrid(s)
    ensures Solve(s).Some? ==>
      ValidSolution(Solve(s).value) && Extends(Solve(s).value, s)
      && forall r, c :: 0 <= r < 9 && 0 <= c < 9 ==> Solve(s).value[r][c] != 0
    decreases ZeroCount(s), 1
  {
    if Solve(s).Some? {
      var g := Solve(s).value;
      match FirstZero(s) {
        case None =>
        case Some((i, j)) =>
          var t := SuccessesOrigin(Attempts(s, i, j, 9), g);
          AttemptsIndex(s, i, j, 9, t);
          AttemptSound(s, i, j, t + 1);
      }
      ValidHasNoBlanks(g);
    }
  }

  /** A grid that agrees with s on every cell is s itself. */
  lemma SameCells(s: Grid, h: Grid)
    requires IsGrid(s) && IsGrid(h)
    requires forall r, c :: 0 <= r < 9 && 0 <= c < 9 ==> s[r][c] == h[r][c]
    ensures s == h
  {
    forall r | 0 <= r < 9
      ensures s[r] == h[r]
    {
    }
  }

  /** Completeness: if s has any valid completion, solveSudoku finds a solution. */
  lemma {:induction false} SolveComplete(s: Grid, h: Grid)
    requires IsGrid(s) && ValidSolution(h) && Extends(h, s)
    ensures Solve(s).Some?
    decreases ZeroCount(s)
  {
    match FirstZero(s)
    case None =>
      SameCells(s, h);
    case Some((i, j)) =>
      CompletionDigitIsCandidate(s, h, i, j);
      var k := h[i][j];
      var t := Place(s, i, j, k);
      SolveComplete(t, h);
      SolveSound(t);
      var outs := Attempts(s, i, j, 9);
      AttemptsIndex(s, i, j, 9, k - 1);
      SuccessesContains(outs, k - 1);
      var found := Successes(outs);
      var p :| 0 <= p < |found| && found[p] == Solve(t).value;
  }

  /** Solving fails exactly when no valid completion of s exists. */
  lemma SolveNoneIff(s: Grid)
    requires IsGrid(s)
    ensures Solve(s).None? <==> forall h :: !(ValidSolution(h) && Extends(h, s))
  {
    SolveSound(s);
    forall h | ValidSolution(h) && Extends(h, s)
      ensures Solve(s).Some?
    {
      SolveComplete(s, h);
    }
  }

  /** The givens of a grid that has a valid completion never clash. */
  lemma CompletableIsConsistent(s: Grid, h: Grid)
    requires IsGrid(s) && ValidSolution(h) && Extends(h, s)
    ensures Consistent(s)
  {
    forall r, c, r', c' |
      0 <= r < 9 && 0 <= c < 9 && 0 <= r' < 9 && 0 <= c' < 9 && (r, c) != (r', c')
      && (r == r' || c == c' || SameBlock(r, c, r', c')) && s[r][c] != 0
      ensures s[r][c] != s[r'][c']
    {
      ValidSolutionCells(h, r, c, r', c');
      assert h[r][c] == s[r][c];
      if s[r'][c'] != 0 {
        assert h[r'][c'] == s[r'][c'];
      }
    }
  }

  /** A grid whose givens already clash in some row, column or cluster has
      no solution: solveSudoku returns None for it. */
  lemma ConflictingGivensUnsolvable(s: Grid)
    requires IsGrid(s)
    ensures !Consistent(s) ==> Solve(s).None?
  {
    SolveSound(s);
    if Solve(s).Some? {
      CompletableIsConsistent(s, Solve(s).value);
    }
  }

  /** At the first blank, every collected result is valid, so the first
      one is what solveSudoku returns. */
  lemma SolveTakesHead(s: Grid, i: int, j: int)
    requires IsGrid(s) && FirstZero(s) == Some((i, j)) && Solve(s).Some?
    ensures |Successes(Attempts(s, i, j, 9))| > 0
    ensures Solve(s) == Some(Successes(Attempts(s, i, j, 9))[0])
  {
    var outs := Attempts(s, i, j, 9);
    var found := Successes(outs);
    assert Solve(s) == FirstValid(found);
    assert Solve(s).value in found;
    var t := SuccessesHead(outs);
    AttemptsIndex(s, i, j, 9, t);
    AttemptSound(s, i, j, t + 1);
  }

  /** At the first blank (i, j), None comes back exactly when nothing was
      collected: every collected grid passes the final validity filter, so
      the filter never empties a non-empty `solutions`. */
  lemma SolveNoneIffNothingCollected(s: Grid, i: int, j: int)
    requires IsGrid(s) && FirstZero(s) == Some((i, j))
    ensures Solve(s).None? <==> |Successes(Attempts(s, i, j, 9))| == 0
  {
    var outs := Attempts(s, i, j, 9);
    var found := Successes(outs);
    assert Solve(s) == FirstValid(found);
    if |found| > 0 {
      var t := SuccessesHead(outs);
      AttemptsIndex(s, i, j, 9, t);
      AttemptSound(s, i, j, t + 1);
      assert ValidSolution(found[0]);
    }
  }

  /** At the first blank (i, j), the returned grid is what the least digit
      whose branch succeeds returns: every smaller digit is no candidate or
      led to no solution. */
  lemma FirstSuccessfulDigit(s: Grid, i: int, j: int) returns (k: int)
    requires IsGrid(s) && FirstZero(s) == Some((i, j)) && Solve(s).Some?
    ensures 1 <= k <= 9 && Attempt(s, i, j, k) == Solve(s)
    ensures forall k' :: 1 <= k' < k ==> Attempt(s, i, j, k').None?
  {
    SolveTakesHead(s, i, j);
    var t := SuccessesHead(Attempts(s, i, j, 9));
    k := t + 1;
    AttemptsIndex(s, i, j, 9, t);
    forall k' | 1 <= k' < k
      ensures Attempt(s, i, j, k').None?
    {
      AttemptsIndex(s, i, j, 9, k' - 1);
    }
  }

  /** g comes before h when they first differ at (i, j) and g is smaller there. */
  lemma LexLessAt(g: Grid, h: Grid, i: int, j: int)
    requires IsGrid(g) && IsGrid(h) && 0 <= i < 9 && 0 <= j < 9 && g[i][j] < h[i][j]
    requires forall r, c :: 0 <= r < 9 && 0 <= c < 9 && Before(r, c, i, j) ==> g[r][c] == h[r][c]
    ensures LexLess(g, h)
  {
  }

  /** Determinism made precise: the returned grid is the least valid
      completion of s in row-major order, so every other completion comes
      after it. */
  lemma {:induction false} SolveLeast(s: Grid, h: Grid)
    requires IsGrid(s) && ValidSolution(h) && Extends(h, s) && Solve(s).Some?
    ensures IsGrid(Solve(s).value) && IsGrid(h)
    ensures Solve(s).value == h || LexLess(Solve(s).value, h)
    decreases ZeroCount(s)
  {
    SolveSound(s);
    var g := Solve(s).value;
    match FirstZero(s)
    case None =>
      SameCells(s, h);
    case Some((i, j)) =>
      var kg := FirstSuccessfulDigit(s, i, j);
      assert IsCandidate(s, i, j, kg);
      var tg := Place(s, i, j, kg);
      SolveSound(tg);
      CompletionDigitIsCandidate(s, h, i, j);
      var kh := h[i][j];
      SolveComplete(Place(s, i, j, kh), h);
      assert Attempt(s, i, j, kh).Some?;
      if kh == kg {
        SolveLeast(tg, h);
      } else {
        assert kg < kh && g[i][j] == kg;
        LexLessAt(g, h, i, j);
      }
  }

  /** A grid without blanks is returned as it is when valid, and rejected otherwise. */
  lemma SolveFullGrid(s: Grid)
    requires IsGrid(s) && forall r, c :: 0 <= r < 9 && 0 <= c < 9 ==> s[r][c] != 0
    ensures Solve(s) == if ValidSolution(s) then Some(s) else None
  {
  }
}
