// The propagation half of the solver as procedures on the board array: the
// writes a tile's value setter makes land in the shared array, so each of
// `_look_for_single_possible_value`, `_look_for_single_occurence` and
// `_lookup_possible_values` is a method that modifies that array, proved
// against the value-level definitions of the Propagation module.

module BoardLookup {
  import opened Tile
  import opened Groups
  import opened Propagation

  /** `_look_for_single_possible_value`: passes over all tiles, each filling
      the empty tiles that have a single candidate, until a pass fills none. */
  method LookForSinglePossibleValue(board: array<int>)
    requires board.Length == 81
    modifies board
    ensures board[..] == NakedFixpoint(old(board[..]))
  {
    while true
      invariant NakedFixpoint(board[..]) == NakedFixpoint(old(board[..]))
      decreases Zeros(board[..])
    {
      ghost var start: Grid := board[..];
      var n := SinglePossibleValuePass(board);
      NakedFixpointStep(start);
      if n == 0 {
        break;
      }
    }
  }

  /** `_look_for_single_occurence` over a list of tiles: each tile takes the
      first of its candidates that no other tile of the list holds, if any. */
  method LookForSingleOccurrence(board: array<int>, group: seq<int>)
    requires board.Length == 81 && ValidCells(group)
    modifies board
    ensures board[..] == HiddenScan(old(board[..]), group, 0)
  {
    for t := 0 to |group|
      invariant HiddenScan(board[..], group, t) == HiddenScan(old(board[..]), group, 0)
    {
      ghost var gt: Grid := board[..];
      var vals := Cands(board[..], group[t]);
      for u := 0 to |vals|
        invariant board[..] == gt
        invariant FirstHidden(gt, group, t, vals, u) == FirstHidden(gt, group, t, vals, 0)
      {
        var val := vals[u];
        var inOther := OccursElsewhere(board, group, t, val);
        HeldFromMeaning(gt, group, t, val, 0);
        if !inOther {
          assert At(group[t] / 9, group[t] % 9) == group[t];
          SetValue(board, group[t] / 9, group[t] % 9, val);
          assert board[..] == HiddenAt(gt, group, t);
          break;
        }
      }
      assert board[..] == HiddenAt(gt, group, t);
    }
  }

  /** The inner loop of `_look_for_single_occurence`: whether some tile of the
      list other than the t-th has val among its candidates. */
  method OccursElsewhere(board: array<int>, group: seq<int>, t: int, val: int) returns (inOther: bool)
    requires board.Length == 81 && ValidCells(group) && 0 <= t < |group|
    ensures inOther <==> HeldElsewhere(board[..], group, t, val)
  {
    var g: Grid := board[..];
    inOther := false;
    for w := 0 to |group|
      invariant !inOther ==> forall x :: 0 <= x < w && x != t ==> val !in Cands(g, group[x])
    {
      if w != t {
        if val in Cands(g, group[w]) {
          inOther := true;
          break;
        }
      }
      assert forall x :: 0 <= x < w + 1 && x != t ==> val !in Cands(g, group[x]);
    }
  }

  /** `_lookup_possible_values`: naked singles, then hidden singles in each
      block and each row; the column loop only rebuilds its tile list, and
      the single scan after it uses the list of column 8. */
  method LookupPossibleValues(board: array<int>)
    requires board.Length == 81
    modifies board
    ensures board[..] == Lookup(old(board[..]))
  {
    LookForSinglePossibleValue(board);
    LookForSingleOccurrenceIn(board, BlockScopes());
    LookForSingleOccurrenceIn(board, RowScopes());
    LookForSingleOccurrenceInColumns(board);
  }

  /** The column loop of `_lookup_possible_values`: it only rebuilds the tile
      list, column by column, and the scan after the loop uses the last list
      built, that of column 8. */
  method LookForSingleOccurrenceInColumns(board: array<int>)
    requires board.Length == 81
    modifies board
    ensures board[..] == HiddenSinglesIn(old(board[..]), InColumn(8))
  {
    var tilesColumn: seq<int> := [];
    for column := 0 to 9
      invariant board[..] == old(board[..])
      invariant column > 0 ==> tilesColumn == EmptyCells(board[..], InColumn(column - 1), 81)
    {
      tilesColumn := EmptyCells(board[..], InColumn(column), 81);
    }
    LookForSingleOccurrence(board, tilesColumn);
  }

  /** One loop of `_lookup_possible_values` over a list of groups: each
      group's empty tiles are listed afresh and scanned for hidden singles. */
  method LookForSingleOccurrenceIn(board: array<int>, scopes: seq<Scope>)
    requires board.Length == 81
    modifies board
    ensures board[..] == Sweep(old(board[..]), scopes)
  {
    for k := 0 to |scopes|
      invariant Sweep(board[..], scopes[k..]) == Sweep(old(board[..]), scopes)
    {
      assert scopes[k..][1..] == scopes[k + 1..];
      var tiles := EmptyCells(board[..], scopes[k], 81);
      LookForSingleOccurrence(board, tiles);
    }
    assert scopes[|scopes|..] == [];
  }

  /** The body of `_look_for_single_possible_value`'s loop: one pass over the
      tiles in row-major order, filling each empty tile that has a single
      candidate on the board as it stands; returns how many tiles it filled. */
  method SinglePossibleValuePass(board: array<int>) returns (n: nat)
    requires board.Length == 81
    modifies board
    ensures board[..] == NakedScan(old(board[..]), 0)
    ensures n == 0 <==> board[..] == old(board[..])
  {
    ghost var start: Grid := board[..];
    ghost var written := 0;
    n := 0;
    for i := 0 to 81
      invariant NakedScan(board[..], i) == NakedScan(start, 0)
      invariant Fills(start, board[..])
      invariant n == 0 ==> board[..] == start
      invariant n > 0 ==> 0 <= written < 81 && start[written] == 0 && board[written] != 0
    {
      var filled := FillIfSingle(board, i);
      if filled {
        n, written := n + 1, i;
      }
    }
  }

  /** One tile of the pass: tile i receives its candidate when it is empty and
      has exactly one. */
  method FillIfSingle(board: array<int>, i: int) returns (filled: bool)
    requires board.Length == 81 && 0 <= i < 81
    modifies board
    ensures board[..] == NakedAt(old(board[..]), i)
    ensures filled <==> board[..] != old(board[..])
    ensures filled ==> old(board[i]) == 0 && 1 <= board[i] <= 9
  {
    ghost var before: Grid := board[..];
    NakedAtEffect(before, i);
    filled := false;
    if board[i] == 0 {
      var vals := Cands(board[..], i);
      if |vals| == 1 {
        assert At(i / 9, i % 9) == i;
        SetValue(board, i / 9, i % 9, vals[0]);
        filled := true;
      }
    }
  }
}
