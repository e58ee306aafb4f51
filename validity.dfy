/** isValidSolution: a grid is a solution when it has nine rows and every
    row, column and 3x3 cluster, once sorted, reads 1, 2, ..., 9. */
module Validity {
  import opened Grids

  /** The list [1, 2, ..., 9] that isValidSolution compares each sorted region with. */
  const Digits: seq<int> := [1, 2, 3, 4, 5, 6, 7, 8, 9]

  /** Place t of Digits holds t + 1. */
  lemma DigitsAt(t: int)
    requires 0 <= t < 9
    ensures |Digits| == 9 && Digits[t] == t + 1
  {
  }

  predicate IsSorted(xs: seq<int>) {
    forall a, b :: 0 <= a < b < |xs| ==> xs[a] <= xs[b]
  }

  /** Inserts x into the sorted list xs before its first larger element. */
  function Insert(x: int, xs: seq<int>): (r: seq<int>)
    ensures |r| == |xs| + 1
  {
    if xs == [] || x <= xs[0] then [x] + xs else [xs[0]] + Insert(x, xs[1..])
  }

  /** Python's sorted() on a list of integers (an insertion sort here). */
  function Sort(xs: seq<int>): seq<int>
  {
    if xs == [] then [] else Insert(xs[0], Sort(xs[1..]))
  }

  lemma {:induction false} InsertPermutes(x: int, xs: seq<int>)
    ensures multiset(Insert(x, xs)) == multiset(xs) + multiset{x}
  {
    if xs != [] && x > xs[0] {
      assert xs == [xs[0]] + xs[1..];
      InsertPermutes(x, xs[1..]);
    }
  }

  /** Inserting a value no smaller than lo into a list bounded below by lo
      keeps the bound. */
  lemma {:induction false} InsertBounded(x: int, xs: seq<int>, lo: int)
    requires lo <= x && forall t :: 0 <= t < |xs| ==> lo <= xs[t]
    ensures forall t :: 0 <= t < |Insert(x, xs)| ==> lo <= Insert(x, xs)[t]
  {
    if xs != [] && x > xs[0] {
      InsertBounded(x, xs[1..], lo);
      var r := Insert(x, xs);
      assert r == [xs[0]] + Insert(x, xs[1..]);
      forall t | 0 < t < |r|
        ensures lo <= r[t]
      {
        assert r[t] == Insert(x, xs[1..])[t - 1];
      }
    }
  }

  lemma {:induction false} InsertSorted(x: int, xs: seq<int>)
    requires IsSorted(xs)
    ensures IsSorted(Insert(x, xs))
  {
    var r := Insert(x, xs);
    if xs == [] || x <= xs[0] {
      assert r == [x] + xs;
      forall a, b | 0 <= a < b < |r|
        ensures r[a] <= r[b]
      {
        assert r[b] == xs[b - 1];
        if a > 0 {
          assert r[a] == xs[a - 1];
        } else {
          assert xs[0] <= xs[b - 1];
        }
      }
    } else {
      var rest := Insert(x, xs[1..]);
      assert r == [xs[0]] + rest;
      InsertSorted(x, xs[1..]);
      InsertBounded(x, xs[1..], xs[0]);
      forall a, b | 0 <= a < b < |r|
        ensures r[a] <= r[b]
      {
        assert r[b] == rest[b - 1];
        if a > 0 {
          assert r[a] == rest[a - 1];
        }
      }
    }
  }

  /** sorted() returns an ascending rearrangement of its argument. */
  lemma {:induction false} SortSpec(xs: seq<int>)
    ensures IsSorted(Sort(xs)) && multiset(Sort(xs)) == multiset(xs)
  {
    if xs != [] {
      assert xs == [xs[0]] + xs[1..];
      SortSpec(xs[1..]);
      InsertSorted(xs[0], Sort(xs[1..]));
      InsertPermutes(xs[0], Sort(xs[1..]));
    }
  }

  /** The nine values of a region include every digit 1..9; having only
      nine places, they then hold each digit exactly once. */
  predicate IsDigitPermutation(xs: seq<int>) {
    |xs| == 9 && forall d :: 1 <= d <= 9 ==> d in xs
  }

  /** xs contains every value lo, lo + 1, ..., lo + k. */
  predicate Covers(xs: seq<int>, lo: int, k: int) {
    forall v :: lo <= v <= lo + k ==> v in xs
  }

  /** A sorted list cannot hold more consecutive values than it has places. */
  lemma {:induction false} NoOverCover(r: seq<int>, lo: int, k: int)
    requires IsSorted(r) && k >= |r|
    ensures !Covers(r, lo, k)
  {
    if r == [] {
      assert lo !in r;
    } else if Covers(r, lo, k) {
      assert lo in r;
      var p :| 0 <= p < |r| && r[p] == lo;
      assert r[0] <= lo;
      forall v | lo + 1 <= v <= lo + 1 + (k - 1)
        ensures v in r[1..]
      {
        assert v in r;
        var q :| 0 <= q < |r| && r[q] == v;
        assert q != 0;
        assert r[1..][q - 1] == v;
      }
      NoOverCover(r[1..], lo + 1, k - 1);
    }
  }

  /** A sorted list of n places holding lo, ..., lo + n - 1 is exactly that run. */
  lemma {:induction false} SortedRun(r: seq<int>, lo: int)
    requires IsSorted(r) && Covers(r, lo, |r| - 1)
    ensures forall t :: 0 <= t < |r| ==> r[t] == lo + t
  {
    if r != [] {
      assert lo in r;
      var p :| 0 <= p < |r| && r[p] == lo;
      assert r[0] <= lo;
      if r[0] < lo {
        forall v | lo <= v <= lo + (|r| - 1)
          ensures v in r[1..]
        {
          assert v in r;
        var q :| 0 <= q < |r| && r[q] == v;
          assert r[1..][q - 1] == v;
        }
        NoOverCover(r[1..], lo, |r| - 1);
      }
      forall v | lo + 1 <= v <= lo + 1 + (|r[1..]| - 1)
        ensures v in r[1..]
      {
        assert v in r;
        var q :| 0 <= q < |r| && r[q] == v;
        assert r[1..][q - 1] == v;
      }
      SortedRun(r[1..], lo + 1);
      forall t | 0 < t < |r|
        ensures r[t] == lo + t
      {
        assert r[t] == r[1..][t - 1];
      }
    }
  }

  /** An ascending rearrangement of a permutation of 1..9 reads 1..9. */
  lemma AscendingPermutationIsDigits(r: seq<int>, xs: seq<int>)
    requires IsSorted(r) && multiset(r) == multiset(xs) && IsDigitPermutation(xs)
    ensures r == Digits
  {
    assert |r| == |multiset(r)| == |multiset(xs)| == |xs|;
    forall v | 1 <= v <= 1 + (|r| - 1)
      ensures v in r
    {
      assert v in xs;
      assert v in multiset(xs);
    }
    SortedRun(r, 1);
    forall t | 0 <= t < 9
      ensures r[t] == Digits[t]
    {
      DigitsAt(t);
    }
  }

  /** A list whose rearrangement reads 1..9 is a permutation of 1..9. */
  lemma DigitsRearrangedIsPermutation(xs: seq<int>)
    requires multiset(Digits) == multiset(xs)
    ensures IsDigitPermutation(xs)
  {
    assert |xs| == |multiset(xs)| == |multiset(Digits)| == 9;
    forall d | 1 <= d <= 9
      ensures d in xs
    {
      DigitsAt(d - 1);
      assert d in multiset(Digits);
    }
  }

  /** An ascending rearrangement r of xs reads 1..9 exactly when xs is a
      permutation of 1..9. */
  lemma AscendingIsDigitsIff(r: seq<int>, xs: seq<int>)
    requires IsSorted(r) && multiset(r) == multiset(xs)
    ensures r == Digits <==> IsDigitPermutation(xs)
  {
    if IsDigitPermutation(xs) {
      AscendingPermutationIsDigits(r, xs);
    }
    if r == Digits {
      DigitsRearrangedIsPermutation(xs);
    }
  }

  /** sorted(xs) == [1..9] holds exactly when xs is a permutation of 1..9. */
  lemma SortIsDigitsIff(xs: seq<int>)
    ensures Sort(xs) == Digits <==> IsDigitPermutation(xs)
  {
    SortSpec(xs);
    AscendingIsDigitsIff(Sort(xs), xs);
  }

  /** The test `sorted(xs) == [1, ..., 9]` that isValidSolution applies to
      each region. */
  method SortsToDigits(xs: seq<int>) returns (b: bool)
    ensures b <==> IsDigitPermutation(xs)
  {
    SortIsDigitsIff(xs);
    b := Sort(xs) == Digits;
  }

  /** The specification of isValidSolution. */
  predicate ValidSolution(s: Grid) {
    |s| == 9
    && (forall r :: 0 <= r < 9 ==> IsDigitPermutation(s[r]))
    && (forall c :: 0 <= c < 9 ==> IsDigitPermutation(Column(s, c)))
    && (forall bi, bj :: 0 <= bi < 3 && 0 <= bj < 3 ==> IsDigitPermutation(Block(s, bi, bj)))
  }

  /** The row check of isValidSolution: every row sorts to 1..9. */
  method RowsValid(s: Grid) returns (ok: bool)
    requires |s| == 9
    ensures ok == forall r :: 0 <= r < 9 ==> IsDigitPermutation(s[r])
  {
    for r := 0 to 9
      invariant forall r' :: 0 <= r' < r ==> IsDigitPermutation(s[r'])
    {
      var sorted := SortsToDigits(s[r]);
      if !sorted {
        return false;
      }
    }
    return true;
  }

  /** The column check: each column, gathered cell by cell, sorts to 1..9. */
  method ColumnsValid(s: Grid) returns (ok: bool)
    requires IsGrid(s)
    ensures ok == forall c :: 0 <= c < 9 ==> IsDigitPermutation(Column(s, c))
  {
    for c := 0 to 9
      invariant forall c' :: 0 <= c' < c ==> IsDigitPermutation(Column(s, c'))
    {
      var temp := [];
      for r := 0 to 9
        invariant temp == Column(s, c)[..r]
      {
        temp := temp + [s[r][c]];
      }
      assert temp == Column(s, c);
      var sorted := SortsToDigits(temp);
      if !sorted {
        return false;
      }
    }
    return true;
  }

  /** The cluster check: each of the nine 3x3 clusters sorts to 1..9. */
  method ClustersValid(s: Grid) returns (ok: bool)
    requires IsGrid(s)
    ensures ok == forall bi, bj :: 0 <= bi < 3 && 0 <= bj < 3 ==> IsDigitPermutation(Block(s, bi, bj))
  {
    for bi := 0 to 3
      invariant forall bi', bj' :: 0 <= bi' < bi && 0 <= bj' < 3 ==> IsDigitPermutation(Block(s, bi', bj'))
    {
      for bj := 0 to 3
        invariant forall bj' :: 0 <= bj' < bj ==> IsDigitPermutation(Block(s, bi, bj'))
      {
        var sorted := SortsToDigits(Block(s, bi, bj));
        if !sorted {
          return false;
        }
      }
    }
    return true;
  }

  /** isValidSolution: nine rows, then rows, columns and clusters in turn,
      returning false at the first region that fails. */
  method IsValidSolution(s: Grid) returns (ok: bool)
    ensures ok == ValidSolution(s)
  {
    if |s| != 9 {
      return false;
    }
    ok := RowsValid(s);
    if !ok {
      return false;
    }
    assert IsGrid(s);
    ok := ColumnsValid(s);
    if !ok {
      return false;
    }
    ok := ClustersValid(s);
  }

  /** Pigeonhole: a list cannot hold more distinct consecutive values than
      it has places. */
  lemma ShortCannotCover(ys: seq<int>, lo: int, k: int)
    requires k >= |ys|
    ensures !Covers(ys, lo, k)
  {
    SortSpec(ys);
    var r := Sort(ys);
    assert |r| == |multiset(r)| == |ys|;
    NoOverCover(r, lo, k);
    forall v | v in ys
      ensures v in r
    {
      assert v in multiset(ys);
    }
  }

  /** Every value of a permutation of 1..9 is a digit, and no value repeats:
      dropping one place would otherwise leave all nine digits in eight places. */
  lemma PermutationDistinct(xs: seq<int>, a: int, b: int)
    requires IsDigitPermutation(xs) && 0 <= a < 9 && 0 <= b < 9
    ensures 1 <= xs[a] <= 9
    ensures a != b ==> xs[a] != xs[b]
  {
    var rest := xs[..a] + xs[a + 1..];
    forall t | 0 <= t < 9 && t != a
      ensures xs[t] in rest
    {
      if t < a {
        assert rest[t] == xs[t];
      } else {
        assert rest[t - 1] == xs[t];
      }
    }
    forall v | 1 <= v <= 9
      ensures v in rest || v == xs[a]
    {
      assert v in xs;
      var t :| 0 <= t < 9 && xs[t] == v;
    }
    ShortCannotCover(rest, 1, 8);
  }

  /** A valid solution has a digit 1..9 in every cell, and two different
      cells of the same row, column or cluster never hold the same digit;
      so a grid with a 0 or a repeated digit in some region is not valid. */
  lemma ValidSolutionCells(s: Grid, r: int, c: int, r': int, c': int)
    requires ValidSolution(s)
    requires 0 <= r < 9 && 0 <= c < 9 && 0 <= r' < 9 && 0 <= c' < 9
    ensures IsGrid(s) && 1 <= s[r][c] <= 9
    ensures (r, c) != (r', c') && (r == r' || c == c' || SameBlock(r, c, r', c')) ==> s[r][c] != s[r'][c']
  {
    PermutationDistinct(s[r], c, c');
    if (r, c) != (r', c') {
      if r == r' {
      } else if c == c' {
        PermutationDistinct(Column(s, c), r, r');
      } else if SameBlock(r, c, r', c') {
        BlockIndex(s, r, c);
        BlockIndex(s, r', c');
        PermutationDistinct(Block(s, r / 3, c / 3), 3 * (r % 3) + c % 3, 3 * (r' % 3) + c' % 3);
      }
    }
  }
}
