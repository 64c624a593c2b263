// Board-wide views used by the solver: the tile lists it scans, the groups
// (rows, columns, blocks), the "no repeated digit" property and `solved`.

module Groups {
  import opened Tile

  /** The digits 1..n, ascending, that no cell sharing a group with (r, c) holds. */
  function UnseenUpTo(g: Grid, r: int, c: int, n: nat): (vals: seq<int>)
    requires IsCoord(r, c)
    ensures |vals| <= n
    ensures forall k :: 0 <= k < |vals| ==> 1 <= vals[k] <= n
    ensures forall k, l :: 0 <= k < l < |vals| ==> vals[k] < vals[l]
  {
    if n == 0 then []
    else if !NoPeerHolds(g, r, c, n) then UnseenUpTo(g, r, c, n - 1)
    else UnseenUpTo(g, r, c, n - 1) + [n]
  }

  /** The candidates of the tile at board position i (0..80), found digit by
      digit; CandsAreCandidates shows this is the tile's candidate list. */
  function Cands(g: Grid, i: int): (vals: seq<int>)
    requires 0 <= i < 81
    ensures g[i] != 0 ==> vals == []
    ensures |vals| <= 9
    ensures forall v :: v in vals ==> 1 <= v <= 9
    ensures forall k, l :: 0 <= k < l < |vals| ==> vals[k] < vals[l]
  {
    if g[i] != 0 then [] else UnseenUpTo(g, i / 9, i % 9, 9)
  }

  /** Digit by digit, the peer test and the membership test in the tile's
      groups agree, so the two lists agree. */
  lemma {:induction false} UnseenIsMissing(g: Grid, r: int, c: int, xs: seq<int>, n: nat)
    requires IsCoord(r, c) && n <= 9
    requires forall v :: 1 <= v <= 9 ==> (NoPeerHolds(g, r, c, v) <==> v !in xs)
    ensures UnseenUpTo(g, r, c, n) == MissingUpTo(xs, n)
  {
    if n > 0 {
      UnseenIsMissing(g, r, c, xs, n - 1);
    }
  }

  /** The board-position candidate list is the tile's `possible_values`. */
  lemma CandsAreCandidates(g: Grid, i: int)
    requires 0 <= i < 81
    ensures Cands(g, i) == Candidates(g, i / 9, i % 9)
  {
    var r, c := i / 9, i % 9;
    assert At(r, c) == i;
    if g[i] == 0 {
      var xs := Block(g, r, c).1 + RowOf(g, r) + ColumnOf(g, c);
      forall v | 1 <= v <= 9 ensures NoPeerHolds(g, r, c, v) <==> v !in xs {
        CandidateIffNoPeerHolds(g, r, c, v);
      }
      UnseenIsMissing(g, r, c, xs, 9);
    }
  }

  /** Which tiles a tile list keeps: all of them, or those of one row, column or block. */
  datatype Scope = Everywhere | InRow(k: int) | InColumn(k: int) | InBlock(k: int)

  predicate InScope(i: int, s: Scope)
    requires 0 <= i < 81
  {
    match s
    case Everywhere => true
    case InRow(k) => i / 9 == k
    case InColumn(k) => i % 9 == k
    case InBlock(k) => BlockIndex(i / 9, i % 9) == k
  }

  /** Positions of an ascending list of board cells. */
  predicate ValidCells(cells: seq<int>) {
    forall k :: 0 <= k < |cells| ==> 0 <= cells[k] < 81
  }

  /**
   * The empty tiles of scope s at positions 0..n-1, in row-major order: with
   * n = 81, the list comprehension over all tiles that keeps the empty ones of
   * the scope.
   */
  function EmptyCells(g: Grid, s: Scope, n: nat): (cells: seq<int>)
    requires n <= 81
    ensures ValidCells(cells)
    ensures forall k :: 0 <= k < |cells| ==> cells[k] < n
    ensures forall k, l :: 0 <= k < l < |cells| ==> cells[k] < cells[l]
    ensures forall i :: i in cells <==> 0 <= i < n && g[i] == 0 && InScope(i, s)
  {
    if n == 0 then []
    else if g[n - 1] == 0 && InScope(n - 1, s) then EmptyCells(g, s, n - 1) + [n - 1]
    else EmptyCells(g, s, n - 1)
  }

  /** All empty tiles of the board, in row-major order. */
  function EmptyTiles(g: Grid): (cells: seq<int>)
    ensures ValidCells(cells)
  {
    EmptyCells(g, Everywhere, 81)
  }

  // ---------------------------------------------------------------------
  // No repeated digit in any group

  /** No non-zero value occurs twice in xs. */
  predicate NoRepeat(xs: seq<int>) {
    forall a, b :: 0 <= a < b < |xs| && xs[a] != 0 ==> xs[a] != xs[b]
  }

  /** Every row, column and block is free of repeated digits (zeros ignored). */
  predicate Consistent(g: Grid) {
    forall k :: 0 <= k < 9 ==>
      NoRepeat(RowOf(g, k)) && NoRepeat(ColumnOf(g, k)) && NoRepeat(BlockByIndex(g, k))
  }

  lemma NoRepeatUpdate(xs: seq<int>, p: int, v: int)
    requires NoRepeat(xs) && 0 <= p < |xs| && v !in xs
    ensures NoRepeat(xs[p := v])
  {
    var ys := xs[p := v];
    forall a, b | 0 <= a < b < |ys| && ys[a] != 0 ensures ys[a] != ys[b] {
      if a != p && b != p {
        assert ys[a] == xs[a] && ys[b] == xs[b];
      } else if a == p {
        assert ys[b] == xs[b];
      } else {
        assert ys[a] == xs[a];
      }
    }
  }

  /** Block k's entry m is the tile (r, c) exactly when k is (r, c)'s block and m its slot. */
  lemma BlockSlot(k: int, m: int, r: int, c: int)
    requires 0 <= k < 9 && 0 <= m < 9 && IsCoord(r, c)
    ensures At(3 * (k / 3) + m / 3, 3 * (k % 3) + m % 3) == At(r, c) <==>
      k == BlockIndex(r, c) && m == 3 * (r % 3) + c % 3
  {
    var rr, cc := 3 * (k / 3) + m / 3, 3 * (k % 3) + m % 3;
    ThreeSplit(k / 3, m / 3);
    ThreeSplit(k % 3, m % 3);
    ThreeSplit(r % 3, c % 3);
    if At(rr, cc) == At(r, c) {
      assert rr == r && cc == c;
    }
    if k == BlockIndex(r, c) && m == 3 * (r % 3) + c % 3 {
      assert rr == r && cc == c;
    }
  }

  /** What the candidate v of tile i excludes: v occurs nowhere in its row, column or block. */
  lemma CandidateAbsentFromGroups(g: Grid, i: int, v: int)
    requires 0 <= i < 81 && v in Cands(g, i)
    ensures g[i] == 0 && 1 <= v <= 9
    ensures v !in RowOf(g, i / 9) && v !in ColumnOf(g, i % 9)
    ensures v !in BlockByIndex(g, BlockIndex(i / 9, i % 9))
  {
    var r, c := i / 9, i % 9;
    assert At(r, c) == i;
    CandsAreCandidates(g, i);
    BlockIsSubGrid(g, r, c);
  }

  lemma RowsAfterWrite(g: Grid, i: int, v: int, k: int)
    requires 0 <= i < 81 && 0 <= k < 9 && NoRepeat(RowOf(g, k))
    requires v !in RowOf(g, i / 9)
    ensures NoRepeat(RowOf(g[i := v], k))
  {
    var r, c := i / 9, i % 9;
    assert At(r, c) == i;
    if k == r {
      assert RowOf(g[i := v], k) == RowOf(g, k)[c := v];
      NoRepeatUpdate(RowOf(g, k), c, v);
    } else {
      assert RowOf(g[i := v], k) == RowOf(g, k);
    }
  }

  lemma ColumnsAfterWrite(g: Grid, i: int, v: int, k: int)
    requires 0 <= i < 81 && 0 <= k < 9 && NoRepeat(ColumnOf(g, k))
    requires v !in ColumnOf(g, i % 9)
    ensures NoRepeat(ColumnOf(g[i := v], k))
  {
    var r, c := i / 9, i % 9;
    assert At(r, c) == i;
    if k == c {
      assert ColumnOf(g[i := v], k) == ColumnOf(g, k)[r := v];
      NoRepeatUpdate(ColumnOf(g, k), r, v);
    } else {
      forall m | 0 <= m < 9 ensures ColumnOf(g[i := v], k)[m] == ColumnOf(g, k)[m] {
        assert At(m, k) != i;
      }
      assert ColumnOf(g[i := v], k) == ColumnOf(g, k);
    }
  }

  /** Writing tile i changes only its own slot of its own block. */
  lemma BlockEntryAfterWrite(g: Grid, i: int, v: int, k: int, m: int)
    requires 0 <= i < 81 && 0 <= k < 9 && 0 <= m < 9
    ensures BlockByIndex(g[i := v], k)[m] ==
      if k == BlockIndex(i / 9, i % 9) && m == 3 * (i / 9 % 3) + i % 9 % 3 then v
      else BlockByIndex(g, k)[m]
  {
    var r, c := i / 9, i % 9;
    assert At(r, c) == i;
    var p := At(3 * (k / 3) + m / 3, 3 * (k % 3) + m % 3);
    assert BlockByIndex(g[i := v], k)[m] == g[i := v][p];
    assert BlockByIndex(g, k)[m] == g[p];
    BlockSlot(k, m, r, c);
  }

  lemma BlocksAfterWrite(g: Grid, i: int, v: int, k: int)
    requires 0 <= i < 81 && 0 <= k < 9 && NoRepeat(BlockByIndex(g, k))
    requires v !in BlockByIndex(g, BlockIndex(i / 9, i % 9))
    ensures NoRepeat(BlockByIndex(g[i := v], k))
  {
    var b, slot := BlockIndex(i / 9, i % 9), 3 * (i / 9 % 3) + i % 9 % 3;
    var h: Grid := g[i := v];
    forall m | 0 <= m < 9
      ensures BlockByIndex(h, k)[m] == if k == b && m == slot then v else BlockByIndex(g, k)[m]
    {
      BlockEntryAfterWrite(g, i, v, k, m);
    }
    if k == b {
      assert BlockByIndex(h, k) == BlockByIndex(g, k)[slot := v];
      NoRepeatUpdate(BlockByIndex(g, k), slot, v);
    } else {
      assert BlockByIndex(h, k) == BlockByIndex(g, k);
    }
  }

  /** Writing a current candidate into an empty tile keeps every group free of repeats. */
  lemma WriteKeepsConsistent(g: Grid, i: int, v: int)
    requires 0 <= i < 81 && Consistent(g) && v in Cands(g, i)
    ensures Consistent(g[i := v])
  {
    CandidateAbsentFromGroups(g, i, v);
    var h: Grid := g[i := v];
    forall k | 0 <= k < 9
      ensures NoRepeat(RowOf(h, k)) && NoRepeat(ColumnOf(h, k)) && NoRepeat(BlockByIndex(h, k))
    {
      RowsAfterWrite(g, i, v, k);
      ColumnsAfterWrite(g, i, v, k);
      BlocksAfterWrite(g, i, v, k);
    }
  }

  // ---------------------------------------------------------------------
  // The solved check

  /** The list 1, 2, ..., 9. */
  function Digits(): (ds: seq<int>)
    ensures |ds| == 9 && forall k :: 0 <= k < 9 ==> ds[k] == k + 1
  {
    seq(9, k => k + 1)
  }

  /** `sorted(xs) == [1, ..., 9]`, read literally: xs and 1..9 hold the same
      values the same number of times. */
  ghost predicate SortsToDigits(xs: seq<int>) {
    multiset(xs) == multiset(Digits())
  }

  /** Nine entries among which every digit 1..9 occurs. */
  predicate IsDigitPermutation(xs: seq<int>) {
    |xs| == 9 && forall v :: 1 <= v <= 9 ==> v in xs
  }

  /** How many cells of the board hold v. */
  function CountOf(g: Grid, v: int): nat {
    multiset(g)[v]
  }

  predicate CountsAreNine(g: Grid) {
    forall v :: 1 <= v <= 9 ==> CountOf(g, v) == 9
  }

  predicate RowsColumnsBlocksOk(g: Grid) {
    forall k :: 0 <= k < 9 ==>
      IsDigitPermutation(RowOf(g, k)) && IsDigitPermutation(ColumnOf(g, k)) &&
      IsDigitPermutation(BlockByIndex(g, k))
  }

  /** The solved check: each digit occurs nine times, and then every row, every
      column and every 3x3 block, once sorted, is 1..9. */
  predicate Solved(g: Grid) {
    CountsAreNine(g) && RowsColumnsBlocksOk(g)
  }

  /** In a strictly increasing list every member occurs exactly once. */
  lemma {:induction false} IncreasingHoldsOnce(xs: seq<int>, v: int)
    requires forall k, l :: 0 <= k < l < |xs| ==> xs[k] < xs[l]
    requires v in xs
    ensures multiset(xs)[v] == 1
  {
    var rest := xs[1..];
    assert xs == [xs[0]] + rest;
    if v == xs[0] {
      forall k | 0 <= k < |rest| ensures rest[k] != v {
        assert rest[k] == xs[k + 1];
      }
    } else {
      IncreasingHoldsOnce(rest, v);
    }
  }

  lemma DigitsOnce(v: int)
    requires 1 <= v <= 9
    ensures multiset(Digits())[v] == 1
  {
    assert Digits()[v - 1] == v;
    IncreasingHoldsOnce(Digits(), v);
  }

  /** The group test is the sorted comparison: nine entries that include every
      digit sort to exactly 1, 2, ..., 9, and conversely. */
  lemma DigitPermutationIffSortsToDigits(xs: seq<int>)
    ensures IsDigitPermutation(xs) <==> SortsToDigits(xs)
  {
    if SortsToDigits(xs) {
      SortedDigitsArePermutation(xs);
    }
    if IsDigitPermutation(xs) {
      PermutationSortsToDigits(xs);
    }
  }

  lemma SortedDigitsArePermutation(xs: seq<int>)
    requires SortsToDigits(xs)
    ensures IsDigitPermutation(xs)
  {
    var m := multiset(xs);
    assert |xs| == |m| == |multiset(Digits())| == 9;
    forall v | 1 <= v <= 9 ensures v in xs {
      DigitsOnce(v);
      assert v in m;
    }
  }

  lemma PermutationSortsToDigits(xs: seq<int>)
    requires IsDigitPermutation(xs)
    ensures SortsToDigits(xs)
  {
    var m, d := multiset(xs), multiset(Digits());
    forall v ensures d[v] <= m[v] {
      if 1 <= v <= 9 {
        DigitsOnce(v);
        assert v in xs;
        assert v in m;
      } else {
        forall k | 0 <= k < 9 ensures Digits()[k] != v { }
        assert v !in Digits();
      }
    }
    assert d <= m;
    assert m == d + (m - d);
    assert |m - d| == 0;
    assert m - d == multiset{};
  }

  /** When every row is a permutation of 1..9, the first k rows hold each digit k times. */
  lemma {:induction false} RowsGiveCounts(g: Grid, k: nat, v: int)
    requires k <= 9 && 1 <= v <= 9
    requires forall r :: 0 <= r < 9 ==> IsDigitPermutation(RowOf(g, r))
    ensures multiset(g[..9 * k])[v] == k
  {
    if k > 0 {
      RowsGiveCounts(g, k - 1, v);
      assert g[..9 * k] == g[..9 * (k - 1)] + RowOf(g, k - 1);
      DigitPermutationIffSortsToDigits(RowOf(g, k - 1));
      DigitsOnce(v);
    }
  }

  /** The per-digit count check adds nothing: solved holds exactly when every row,
      column and block is a permutation of 1..9. */
  lemma SolvedIffGroupsArePermutations(g: Grid)
    ensures Solved(g) <==> RowsColumnsBlocksOk(g)
  {
    if RowsColumnsBlocksOk(g) {
      forall v | 1 <= v <= 9 ensures CountOf(g, v) == 9 {
        RowsGiveCounts(g, 9, v);
        assert g[..81] == g;
      }
    }
  }

  /** Two equal entries of xs make its value occur at least twice. */
  lemma TwiceCounted(xs: seq<int>, a: int, b: int)
    requires 0 <= a < b < |xs| && xs[a] == xs[b]
    ensures multiset(xs)[xs[a]] >= 2
  {
    assert xs == xs[..a] + [xs[a]] + xs[a + 1..b] + [xs[b]] + xs[b + 1..];
  }

  lemma PermutationHasNoRepeatAndNoZero(xs: seq<int>)
    requires IsDigitPermutation(xs)
    ensures NoRepeat(xs)
    ensures forall k :: 0 <= k < |xs| ==> 1 <= xs[k] <= 9
  {
    DigitPermutationIffSortsToDigits(xs);
    forall k | 0 <= k < |xs| ensures 1 <= xs[k] <= 9 {
      assert xs[k] in multiset(xs);
      assert xs[k] in Digits();
    }
    forall a, b | 0 <= a < b < |xs| && xs[a] != 0 ensures xs[a] != xs[b] {
      DigitsOnce(xs[a]);
      if xs[a] == xs[b] {
        TwiceCounted(xs, a, b);
      }
    }
  }

  /** A solved board is full, and no digit repeats in any row, column or block. */
  lemma SolvedIsFullAndConsistent(g: Grid)
    requires Solved(g)
    ensures Consistent(g)
    ensures forall i :: 0 <= i < 81 ==> 1 <= g[i] <= 9
  {
    forall k | 0 <= k < 9 ensures
      NoRepeat(RowOf(g, k)) && NoRepeat(ColumnOf(g, k)) && NoRepeat(BlockByIndex(g, k))
    {
      PermutationHasNoRepeatAndNoZero(RowOf(g, k));
      PermutationHasNoRepeatAndNoZero(ColumnOf(g, k));
      PermutationHasNoRepeatAndNoZero(BlockByIndex(g, k));
    }
    forall i | 0 <= i < 81 ensures 1 <= g[i] <= 9 {
      var r, c := i / 9, i % 9;
      assert At(r, c) == i;
      PermutationHasNoRepeatAndNoZero(RowOf(g, r));
      assert RowOf(g, r)[c] == g[i];
    }
  }

  /** The board whose every row reads 1, 2, ..., 9. */
  function RepeatedRows(): (g: Grid)
    ensures forall r :: 0 <= r < 9 ==> RowOf(g, r) == Digits()
    ensures g[At(0, 0)] == 1 && g[At(1, 0)] == 1
  {
    var g: Grid := seq(81, i requires 0 <= i < 81 => i % 9 + 1);
    assert forall r, c :: 0 <= r < 9 && 0 <= c < 9 ==> g[At(r, c)] == c + 1;
    g
  }

  /** Counting alone is not enough: the board whose every row is 1..9 passes the
      count check but is not solved (its first column is all ones). */
  lemma CountCheckAloneIsNotEnough()
    ensures exists g: Grid :: CountsAreNine(g) && !Solved(g)
  {
    var g := RepeatedRows();
    forall r | 0 <= r < 9 ensures IsDigitPermutation(RowOf(g, r)) {
      assert RowOf(g, r) == Digits();
      DigitPermutationIffSortsToDigits(Digits());
    }
    forall v | 1 <= v <= 9 ensures CountOf(g, v) == 9 {
      RowsGiveCounts(g, 9, v);
      assert g[..81] == g;
    }
    assert CountsAreNine(g);
    var col := ColumnOf(g, 0);
    assert col[0] == 1 && col[1] == 1;
    TwiceCounted(col, 0, 1);
    DigitsOnce(1);
    DigitPermutationIffSortsToDigits(col);
    assert !IsDigitPermutation(col);
    assert !RowsColumnsBlocksOk(g);
  }
}
