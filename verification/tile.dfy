// A tile is a (row, column) view onto the shared 9x9 board. The board is kept
// row-major in one sequence of 81 integers; 0 marks an empty cell.

module Tile {

  datatype Option<T> = None | Some(value: T)

  /** The value view of a board: 81 cells, cell (r, c) at index 9 * r + c. */
  type Grid = g: seq<int> | |g| == 81 witness seq(81, _ => 0)

  predicate IsCoord(r: int, c: int) {
    0 <= r < 9 && 0 <= c < 9
  }

  /** Position of cell (r, c) in the row-major board; the position decodes back. */
  function At(r: int, c: int): (i: nat)
    requires IsCoord(r, c)
    ensures i < 81 && i / 9 == r && i % 9 == c
  {
    9 * r + c
  }

  /** Index of the 3x3 block holding (r, c): blocks 0 1 2 on top, 6 7 8 at the bottom. */
  function BlockIndex(r: int, c: int): (b: nat)
    requires IsCoord(r, c)
    ensures b < 9 && b / 3 == r / 3 && b % 3 == c / 3
  {
    3 * (r / 3) + c / 3
  }

  /** The 3x3 sub-grid whose top-left cell is (r0, c0), flattened row by row. */
  function SubGrid(g: Grid, r0: int, c0: int): (vals: seq<int>)
    requires 0 <= r0 <= 6 && 0 <= c0 <= 6
    ensures |vals| == 9
  {
    seq(9, k requires 0 <= k < 9 => g[At(r0 + k / 3, c0 + k % 3)])
  }

  /** The values of block number b (0..8). */
  function BlockByIndex(g: Grid, b: int): (vals: seq<int>)
    requires 0 <= b < 9
    ensures |vals| == 9
  {
    SubGrid(g, 3 * (b / 3), 3 * (b % 3))
  }

  /** The tile's block: its index and its 3x3 values, flattened row by row. */
  function Block(g: Grid, r: int, c: int): (res: (nat, seq<int>))
    requires IsCoord(r, c)
  {
    (BlockIndex(r, c), SubGrid(g, 3 * (r / 3), 3 * (c / 3)))
  }

  /** Row r of the board. */
  function RowOf(g: Grid, r: int): (row: seq<int>)
    requires 0 <= r < 9
    ensures |row| == 9 && forall c :: 0 <= c < 9 ==> row[c] == g[At(r, c)]
  {
    g[9 * r .. 9 * r + 9]
  }

  /** Column c of the board. */
  function ColumnOf(g: Grid, c: int): (col: seq<int>)
    requires 0 <= c < 9
    ensures |col| == 9 && forall r :: 0 <= r < 9 ==> col[r] == g[At(r, c)]
  {
    seq(9, r requires 0 <= r < 9 => g[At(r, c)])
  }

  /** The tile is empty when its board cell holds 0. */
  predicate IsEmpty(g: Grid, r: int, c: int)
    requires IsCoord(r, c)
  {
    g[At(r, c)] == 0
  }

  /** The value getter: no value for an empty cell, the stored number otherwise. */
  function Value(g: Grid, r: int, c: int): (v: Option<int>)
    requires IsCoord(r, c)
    ensures v.None? <==> IsEmpty(g, r, c)
    ensures v.Some? ==> v.value != 0 && v.value == g[At(r, c)]
  {
    if g[At(r, c)] != 0 then Some(g[At(r, c)]) else None
  }

  /** The digits 1..n that do not occur in xs, in ascending order. */
  function MissingUpTo(xs: seq<int>, n: nat): (r: seq<int>)
    ensures |r| <= n
    ensures forall k :: 0 <= k < |r| ==> 1 <= r[k] <= n
    ensures forall k, l :: 0 <= k < l < |r| ==> r[k] < r[l]
    ensures forall v :: v in r <==> 1 <= v <= n && v !in xs
  {
    if n == 0 then []
    else if n in xs then MissingUpTo(xs, n - 1)
    else MissingUpTo(xs, n - 1) + [n]
  }

  /** The digits 1..9 absent from xs, ascending; zeros in xs play no part. */
  function ValuesNotIn1To9(xs: seq<int>): (r: seq<int>)
    ensures forall k, l :: 0 <= k < l < |r| ==> r[k] < r[l]
    ensures forall v :: v in r <==> 1 <= v <= 9 && v !in xs
  {
    MissingUpTo(xs, 9)
  }

  /**
   * The candidates of tile (r, c): for an empty tile, the ascending digits that
   * occur in none of its block, row and column; for a filled tile, nothing.
   */
  function Candidates(g: Grid, r: int, c: int): (vals: seq<int>)
    requires IsCoord(r, c)
    ensures !IsEmpty(g, r, c) ==> vals == []
    ensures |vals| <= 9
    ensures forall k, l :: 0 <= k < l < |vals| ==> vals[k] < vals[l]
    ensures forall v :: v in vals <==>
      IsEmpty(g, r, c) && 1 <= v <= 9 &&
      v !in Block(g, r, c).1 && v !in RowOf(g, r) && v !in ColumnOf(g, c)
  {
    if IsEmpty(g, r, c) then
      ValuesNotIn1To9(Block(g, r, c).1 + RowOf(g, r) + ColumnOf(g, c))
    else
      []
  }

  /** The value setter: writes one cell of the shared board and nothing else. */
  method SetValue(a: array<int>, r: int, c: int, v: int)
    requires a.Length == 81 && IsCoord(r, c)
    modifies a
    ensures a[..] == old(a[..])[At(r, c) := v]
  {
    a[At(r, c)] := v;
  }

  // ---------------------------------------------------------------------
  // Properties of the block geometry and of the candidates

  /** Cell (i, j) of the 3x3 block that holds (r, c), counted from its top-left cell. */
  function BlockCell(r: int, c: int, i: int, j: int): (p: nat)
    requires IsCoord(r, c) && 0 <= i < 3 && 0 <= j < 3
    ensures p < 81
  {
    At(3 * (r / 3) + i, 3 * (c / 3) + j)
  }

  /** The tile's block index lies in 0..8, its values are the block numbered so,
      entry 3 * i + j of them is cell (i, j) of the block, and the tile's own
      cell sits at entry 3 * (r % 3) + c % 3. */
  lemma BlockIsSubGrid(g: Grid, r: int, c: int)
    requires IsCoord(r, c)
    ensures Block(g, r, c).0 < 9
    ensures Block(g, r, c).1 == BlockByIndex(g, Block(g, r, c).0)
    ensures forall i, j :: 0 <= i < 3 && 0 <= j < 3 ==>
      Block(g, r, c).1[3 * i + j] == g[BlockCell(r, c, i, j)]
    ensures Block(g, r, c).1[3 * (r % 3) + c % 3] == g[At(r, c)]
  {
    var r0, c0 := 3 * (r / 3), 3 * (c / 3);
    var b := BlockIndex(r, c);
    assert Block(g, r, c) == (b, SubGrid(g, r0, c0));
    assert 3 * (b / 3) == r0 && 3 * (b % 3) == c0;
    forall i, j | 0 <= i < 3 && 0 <= j < 3
      ensures SubGrid(g, r0, c0)[3 * i + j] == g[BlockCell(r, c, i, j)]
    {
      SubGridEntry(g, r0, c0, i, j);
    }
    SubGridEntry(g, r0, c0, r % 3, c % 3);
    assert r0 + r % 3 == r && c0 + c % 3 == c;
  }

  /** Entry 3 * i + j of a sub-grid is the tile i rows and j columns from its corner. */
  lemma SubGridEntry(g: Grid, r0: int, c0: int, i: int, j: int)
    requires 0 <= r0 <= 6 && 0 <= c0 <= 6 && 0 <= i < 3 && 0 <= j < 3
    ensures SubGrid(g, r0, c0)[3 * i + j] == g[At(r0 + i, c0 + j)]
  {
    ThreeSplit(i, j);
  }

  /** Splitting 3 * q + s, for a digit s below 3, into its quotient and remainder by 3. */
  lemma ThreeSplit(q: int, s: int)
    requires 0 <= s < 3
    ensures (3 * q + s) / 3 == q && (3 * q + s) % 3 == s
  {
  }

  /** No cell sharing a row, a column or a block with (r, c) holds v. */
  predicate NoPeerHolds(g: Grid, r: int, c: int, v: int)
    requires IsCoord(r, c)
  {
    (forall k :: 0 <= k < 9 ==> g[At(r, k)] != v && g[At(k, c)] != v) &&
    (forall i, j :: 0 <= i < 3 && 0 <= j < 3 ==> g[BlockCell(r, c, i, j)] != v)
  }

  /** A candidate is a digit that no cell sharing a row, a column or a block with
      the tile holds; conversely every such digit of an empty tile is a candidate. */
  lemma CandidateIffNoPeerHolds(g: Grid, r: int, c: int, v: int)
    requires IsCoord(r, c)
    ensures v in Candidates(g, r, c) <==> IsEmpty(g, r, c) && 1 <= v <= 9 && NoPeerHolds(g, r, c, v)
  {
    if v in Block(g, r, c).1 || v in RowOf(g, r) || v in ColumnOf(g, c) {
      GroupMemberIsPeer(g, r, c, v);
    } else {
      MissingFromGroupsIsNoPeer(g, r, c, v);
    }
  }

  /** A digit in the tile's block, row or column is held by one of its peers. */
  lemma GroupMemberIsPeer(g: Grid, r: int, c: int, v: int)
    requires IsCoord(r, c)
    requires v in Block(g, r, c).1 || v in RowOf(g, r) || v in ColumnOf(g, c)
    ensures !NoPeerHolds(g, r, c, v)
  {
    BlockIsSubGrid(g, r, c);
    var blk, row, col := Block(g, r, c).1, RowOf(g, r), ColumnOf(g, c);
    if v in blk {
      var m :| 0 <= m < 9 && blk[m] == v;
      var i, j := m / 3, m % 3;
      assert m == 3 * i + j;
      assert g[BlockCell(r, c, i, j)] == v;
    } else if v in row {
      var m :| 0 <= m < 9 && row[m] == v;
      assert g[At(r, m)] == v;
    } else {
      var m :| 0 <= m < 9 && col[m] == v;
      assert g[At(m, c)] == v;
    }
  }

  /** A digit absent from the tile's block, row and column is held by no peer. */
  lemma MissingFromGroupsIsNoPeer(g: Grid, r: int, c: int, v: int)
    requires IsCoord(r, c)
    requires v !in Block(g, r, c).1 && v !in RowOf(g, r) && v !in ColumnOf(g, c)
    ensures NoPeerHolds(g, r, c, v)
  {
    BlockIsSubGrid(g, r, c);
    var blk, row, col := Block(g, r, c).1, RowOf(g, r), ColumnOf(g, c);
    forall k | 0 <= k < 9 ensures g[At(r, k)] != v && g[At(k, c)] != v {
      assert row[k] == g[At(r, k)] && col[k] == g[At(k, c)];
    }
    forall i, j | 0 <= i < 3 && 0 <= j < 3 ensures g[BlockCell(r, c, i, j)] != v {
      assert blk[3 * i + j] == g[BlockCell(r, c, i, j)];
    }
  }
}
