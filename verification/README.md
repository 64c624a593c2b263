# A verified model of the Sudoku solving engine

This project is a Dafny model of the solving engine of the `sudoku` package. It covers three parts:

- **The tile view** (`sudoku/tile.py`). A tile's block, emptiness, value and candidate list are computed from the shared board, and its value setter writes one cell of that board.
- **The solver object** (`sudoku/board.py`). Each step does two things:
  - it propagates naked singles to a fixpoint and then hidden singles over tile groups;
  - when propagation stalls, it saves the state and then either guesses a value or backtracks to an earlier saved state.
- **The line validators of the interactive reader** (`sudoku/reader.py`).

## Layout

- `tile.dfy` (module `Tile`)
  - A board is a row-major sequence of 81 integers: cell (r, c) is at position `9 * r + c`, and 0 marks an empty tile.
  - Block index, block contents, rows, columns, the value getter, `_values_not_in_range1to9`, `possible_values`, and the value setter as a method on the board array.
- `board_groups.dfy` (module `Groups`)
  - The per-cell candidate list used by the engine, and the empty-tile lists of the board, a block, a row or a column.
  - The no-repeated-digit invariant, and proof that writing a candidate keeps it.
  - The `solved` predicate and its meaning.
- `board_propagation.dfy` (module `Propagation`): `_lookup_possible_values` stated as functions of the board.
  - the naked-single pass and its repetition to a fixpoint;
  - the hidden-single scan of one tile list;
  - the sweep over the 19 tile lists the engine examines.
- `board_lookup.dfy` (module `BoardLookup`): the same passes as loops that write into the board array, each proved equal to its function.
- `board_search.dfy` (module `Search`): what a stalled step decides.
  - the candidate map used to compare tiles;
  - the ordering of the empty tiles by candidate count;
  - the mapping from the stored search index to a (tile, value) guess.
- `board.dfy` (module `Board`): the class `Board`, with these fields:
  - the board array, the original array and the iteration counter;
  - the saved states, as a sequence of entries in dictionary insertion order. Each entry holds the iteration number, a board array and a search index.
- `reader.dfy` (module `Reader`): `check_length`, `check_uniqueness` and `convert_to_array`, and what a line that passes both checks converts to.

## Behaviour kept as the code has it

- **Shared arrays.** Board arrays are shared by reference, as numpy arrays are.
  - A saved state holds a fresh copy of the board.
  - A revert makes the saved array itself the current board, so later guesses write into that saved array.
  - `reset` makes the original array itself the current board. It leaves the saved states and the counter as they are.
  - The invariant that no reachable array repeats a digit in a row, column or block covers the current board, the original and every saved array.
- **Only column 8 is examined.** The hidden-single call for columns sits after its loop (`sudoku/board.py:207-211`), so the sweep examines blocks 0..8, rows 0..8 and column 8 only. `LookupScansColumnEightOnly` states this.
- **The guess index can run past the end.** The guess loop picks the first tile whose running total of candidates is not below the search index. When the index is below the total number of candidates and equals such a running total, the value index equals that tile's candidate count, and reading the candidate raises `IndexError`. The model gives this case the step outcome `GuessOutOfRange`; `DecideOutOfRange` states the exact condition. An index equal to the total is not this case: the step reverts as exhausted.
  - Because of this, every tile after the first skips its first candidate (`LaterTilesSkipFirstCandidate`).
  - The guess loop maps the index equal to the first tile's count to value index one past its last candidate (`FirstTotalIsOutOfRange`). When no tile is dead and at least one more empty tile follows, that index is below the total, so the step raises `IndexError` (`FirstTotalFailsWithAnotherTile`).
- **A revert can find nothing left.** When no saved state remains after the current entry is dropped, the step raises `IndexError`. The model gives this case the outcome `Unsolvable`.
- **Ties in the ordering.** `np.argsort` does not promise an order between tiles with equal counts. The model orders tiles by count and keeps scan order among equal counts.

## Model

| member | source | states |
|---|---|---|
| Tile.At | sudoku/tile.py:20-25 | The tile at (row, column) is board position 9*row+column; row and column are recovered from it by division and remainder. |
| Tile.BlockIndex | sudoku/tile.py:55-60 | The block index lies in 0..8; its block row is row div 3 and its block column is column div 3. |
| Tile.BlockIsSubGrid | sudoku/tile.py:55-60 | The block values are exactly the 3x3 sub-grid starting at (3*(row div 3), 3*(column div 3)), in row-major order, and the tile's own cell is among them at slot 3*(row mod 3)+column mod 3. |
| Tile.Block | sudoku/tile.py:27-60 | The pair (block index, block values); its contents are stated by `Tile.BlockIsSubGrid`. |
| Tile.IsEmpty | sudoku/tile.py:86-89 | A tile is empty exactly when its cell holds 0 (the definition; `Tile.Value` and `Groups.EmptyCells` are stated in terms of it). |
| Tile.RowOf | sudoku/tile.py:107 | A row holds the nine cells of that row in column order. |
| Tile.ColumnOf | sudoku/tile.py:108 | A column holds the nine cells of that column in row order. |
| Tile.Value | sudoku/tile.py:62-68 | The getter gives None exactly when the tile is empty, and otherwise the nonzero cell value. |
| Tile.MissingUpTo | sudoku/tile.py:91-97 | `_values_not_in_range1to9` gives a strictly ascending list of digits in range, holding v exactly when v is not among the values; zeros play no part. |
| Tile.ValuesNotIn1To9 | sudoku/tile.py:91-97 | The result is strictly ascending and holds v exactly when v is a digit 1..9 that does not occur in the values; zeros make no difference. |
| Tile.Candidates | sudoku/tile.py:99-112 | A filled tile has no candidates. Otherwise the list is strictly ascending, at most nine long, and holds v exactly when v is a digit 1..9 absent from the tile's block, row and column. |
| Tile.CandidateIffNoPeerHolds | sudoku/tile.py:99-112 | v is a candidate exactly when the tile is empty, v is in 1..9 and no cell sharing the tile's row, column or block holds v. |
| Tile.SetValue | sudoku/tile.py:70-74 | The setter writes the value into the tile's cell of the shared board and leaves every other cell as it was. |
| Groups.Cands | sudoku/tile.py:99-112 | The candidate list of a board position is empty on a filled tile, ascending, and within 1..9. |
| Groups.CandsAreCandidates | sudoku/tile.py:99-112 | The engine's per-position candidate list equals the tile's `possible_values`. |
| Groups.UnseenIsMissing | sudoku/tile.py:94-96 | Collecting the digits no peer holds gives the same list as removing the filled values from 1..9. |
| Groups.EmptyCells | sudoku/board.py:71-74 | The empty-tile list of a scope (board, block, row or column) is in scan order, has no duplicates, and holds a position exactly when that tile is empty and lies in the scope. |
| Groups.CandidateAbsentFromGroups | sudoku/tile.py:105-110 | A candidate of a tile is a digit and occurs in none of the tile's row, column or block, and the tile is empty. |
| Groups.WriteKeepsConsistent | sudoku/board.py:176-182 | Writing a current candidate into its tile keeps a board without repeated digits in any row, column or block free of them. |
| Groups.DigitPermutationIffSortsToDigits | sudoku/board.py:92-106 | A group is a permutation of 1..9 exactly when sorting it gives [1..9]. |
| Groups.PermutationHasNoRepeatAndNoZero | sudoku/board.py:92-106 | A group that sorts to [1..9] holds only digits 1..9 and none twice. |
| Groups.RowsGiveCounts | sudoku/board.py:88-95 | When every row sorts to [1..9], each digit occurs exactly nine times, so the count check is implied by the row check. |
| Groups.SolvedIffGroupsArePermutations | sudoku/board.py:83-109 | `solved` holds exactly when every row, every column and every block sorts to [1..9]. |
| Groups.SolvedIsFullAndConsistent | sudoku/board.py:83-109 | A solved board is full of digits 1..9 and repeats none in any row, column or block. |
| Groups.CountCheckAloneIsNotEnough | sudoku/board.py:88-89 | Some board has every digit nine times and is still not solved. |
| Groups.CountOf | sudoku/board.py:76-81 | The number of cells holding v (`np.sum(self.board == val)`); `Board.Board.CountOccurrence` computes it for each digit. |
| Groups.Solved | sudoku/board.py:83-109 | The count check and the row, column and block checks together; its meaning is stated by `Groups.SolvedIffGroupsArePermutations` and `Groups.SolvedIsFullAndConsistent`. |
| Propagation.CandidateWriteRefines | sudoku/board.py:222-224 | Writing a current candidate fills an empty tile with a digit and keeps a board without repeats free of them. |
| Propagation.NakedAt | sudoku/board.py:221-225 | One tile of the pass: an empty tile with a single candidate receives it; stated by `Propagation.NakedAtEffect`. |
| Propagation.NakedScan | sudoku/board.py:219-225 | One pass over the tiles in scan order, each tile seeing the writes before it; stated by `Propagation.NakedScanEffect`. |
| Propagation.NakedFixpoint | sudoku/board.py:218-227 | Passes repeated until one writes nothing; stated by `Propagation.NakedFixpointStep` and `Propagation.NakedFixpointEffect`. |
| Propagation.NakedAtEffect | sudoku/board.py:221-225 | At one tile the pass fills exactly an empty tile with a single candidate, with that candidate, and otherwise changes nothing. |
| Propagation.NakedScanEffect | sudoku/board.py:219-225 | A pass only fills empty tiles with digits, keeps boards without repeats so, and when it fills nothing no remaining tile has a single candidate. |
| Propagation.NakedFixpointStep | sudoku/board.py:218-227 | A pass that fills nothing ends the loop, and a pass that fills something strictly lowers the number of empty tiles, so the loop terminates. |
| Propagation.NakedFixpointEffect | sudoku/board.py:218-227 | At the end of the loop no empty tile has exactly one candidate, and the board was refined. |
| Propagation.HeldFromMeaning | sudoku/board.py:238-243 | The inner search over the other tiles of the list finds val exactly when some other tile of the list has val as a candidate. |
| Propagation.FirstHidden | sudoku/board.py:237-247 | The position of the first candidate from u on that no other tile of the list holds, between u and the number of candidates; stated further by `Propagation.FirstHiddenSpec`. |
| Propagation.FirstHiddenSpec | sudoku/board.py:237-247 | The value a tile takes is the first of its candidates that no other tile of the list holds; every earlier candidate is held elsewhere. |
| Propagation.BelowFirstHiddenIsHeld | sudoku/board.py:237-247 | Every candidate smaller than the chosen one is held by another tile of the list. |
| Propagation.HiddenAt | sudoku/board.py:236-247 | One tile of the list takes its first candidate held by no other tile, if any; stated by `Propagation.HiddenAtEffect`. |
| Propagation.HiddenScan | sudoku/board.py:229-247 | The tiles of the list in order, each seeing the writes before it; stated by `Propagation.HiddenScanStalled`. |
| Propagation.HiddenSinglesIn | sudoku/board.py:199-211 | The scan of the empty tiles of one block, row or column, listed from the current board; stated by `Propagation.HiddenSinglesInEffect`. |
| Propagation.Sweep | sudoku/board.py:199-206 | The scans of a sequence of groups one after the other; stated by `Propagation.SweepRefines` and `Propagation.SweepStalled`. |
| Propagation.HiddenAtEffect | sudoku/board.py:236-247 | One tile of the list is written at most once, with a current candidate that no other tile of the list holds and all smaller candidates held elsewhere; if it is not written, every candidate is held elsewhere. |
| Propagation.HiddenScanStalled | sudoku/board.py:236-247 | When the scan of a list changes nothing, every candidate of every tile in it is held by another tile of the list. |
| Propagation.HiddenSinglesInEffect | sudoku/board.py:199-211 | The scan of one block, row or column refines the board and leaves every tile outside that group unchanged. |
| Propagation.SweepRefines | sudoku/board.py:199-211 | The sweep over the tile lists refines the board. |
| Propagation.SweepStalled | sudoku/board.py:199-211 | When the sweep changes nothing, no examined group has a hidden single. |
| Propagation.Lookup | sudoku/board.py:196-211 | The propagation round: naked singles to a fixpoint, then hidden singles in blocks 0..8, rows 0..8 and column 8; stated by `Propagation.LookupIsSweep` and `Propagation.LookupRefines`. |
| Propagation.LookupIsSweep | sudoku/board.py:196-211 | `_lookup_possible_values` is the naked-single fixpoint followed by the hidden-single sweep over blocks 0..8, rows 0..8 and column 8. |
| Propagation.LookupRefines | sudoku/board.py:196-211 | The propagation round only fills empty tiles with digits and never introduces a repeated digit. |
| Propagation.LookupScansColumnEightOnly | sudoku/board.py:207-211 | Every block and row is examined, and of the columns only column 8. |
| Propagation.StalledRoundHasNoSingle | sudoku/board.py:125-132 | After a round that changes nothing, no empty tile has a single candidate and no examined group has a hidden single. |
| Search.CandidateMap | sudoku/board.py:277-286 | The map holds exactly the empty tiles, keyed by (row, column), each with its candidate list. |
| Search.TilesSame | sudoku/board.py:271-275 | The two candidate maps are equal; stated by `Search.TilesSameIffUnchanged`. |
| Search.TilesSameIffUnchanged | sudoku/board.py:271-275 | For a round that only fills empty tiles, the candidate maps before and after agree exactly when the board is unchanged. |
| Search.CandidateCounts | sudoku/board.py:137-139 | One count per empty tile in scan order, each the length of that tile's candidate list and at most 9. |
| Search.ZeroCountIsDeadTile | sudoku/board.py:137-141 | A zero count occurs exactly when some empty tile has no candidate. |
| Search.SortFrom | sudoku/board.py:151 | The tiles with count at least n, ordered by count with scan order among equal counts, each exactly once. |
| Search.ArgSort | sudoku/board.py:151 | The ordering has one entry per tile and names only tiles that exist; `Search.ArgSortIsStableSort` states that it is a stable sort by count. |
| Search.ArgSortIsStableSort | sudoku/board.py:151-153 | The ordering is a permutation of the tile indices, non-decreasing in count, and keeps scan order among equal counts. |
| Search.SelectGuess | sudoku/board.py:169-174 | The loop picks the first sorted tile whose running total is not below the search index, and the value index is the index less the total before it. |
| Search.Locate | sudoku/board.py:169-174 | The guess selected by a search index not above the total, as a function. |
| Search.GuessIsUnique | sudoku/board.py:169-174 | A search index selects at most one (tile, value index) pair. |
| Search.GuessExistsFrom | sudoku/board.py:164-174 | For a search index not above the total, the loop always stops at some tile. |
| Search.GuessIndexRange | sudoku/board.py:169-176 | The value index lies in 0..count of the tile, and equals the count exactly when the search index equals the running total through that tile. |
| Search.LaterTilesSkipFirstCandidate | sudoku/board.py:169-174 | A tile after the first is never tried with its first candidate. |
| Search.FirstTotalIsOutOfRange | sudoku/board.py:169-176 | A search index equal to the first tile's count selects value index one past its last candidate. |
| Search.FirstTotalFailsWithAnotherTile | sudoku/board.py:164-176 | With no dead tile and at least two empty tiles, a stalled step whose search index equals the smallest count fails with IndexError. |
| Search.FlatPairs | sudoku/board.py:167-168 | The flattened (tile, value) list is as long as the total count, and each entry names a tile and a value index within that tile's count. |
| Search.FlatPairsAt | sudoku/board.py:167-168 | Value index v of tile m is entry Sum(counts[..m]) + v of the flattened list, so the tiles' candidates follow each other in order. |
| Search.GuessInRangeIsFlatEntry | sudoku/board.py:164-176 | When the value index is in range, the guess is entry s of the flattened (tile, value) list. |
| Search.Choose | sudoku/board.py:141-176 | NoCandidate exactly when some empty tile has no candidate. A pick names the empty tile at place ii of the argsort order, for the ii and value index that the guess loop selects for the search index on the sorted counts; the value index lies in 0..that tile's count. |
| Search.ChooseAgainstTotal | sudoku/board.py:164-176 | Without zero counts, the search is exhausted exactly when the index reaches the total, and a picked value index is out of range exactly when the index equals a running total. |
| Search.Decide | sudoku/board.py:137-181 | The decision of a stalled step: dead end, exhausted, a guess of a tile position within the board, or out of range; its cases are stated by `Search.DecideDeadEnd`, `Search.DecideAgainstTotal`, `Search.DecideTriesCandidate` and `Search.DecideOutOfRange`. |
| Search.DecideDeadEnd | sudoku/board.py:141-146 | A stalled step reverts as a dead end exactly when some empty tile has no candidate. |
| Search.DecideAgainstTotal | sudoku/board.py:164 | A stalled step reverts as exhausted exactly when there is no dead tile and the search index has reached the total number of candidates. |
| Search.DecideTriesCandidate | sudoku/board.py:175-181 | A guess always writes a current candidate into an empty tile. |
| Search.DecideOutOfRange | sudoku/board.py:169-176 | A stalled step fails with IndexError exactly when there is no dead tile, the index is below the total and equals some running total. |
| Search.StuckDecision | sudoku/board.py:137-176 | Computes the decision of a stalled step (dead end, exhausted, guess, or out of range). |
| Search.StuckChoice | sudoku/board.py:151-174 | Computes the choice of sorted position and value index for a search index. |
| BoardLookup.FillIfSingle | sudoku/board.py:221-225 | Fills the tile exactly when it is empty with one candidate, with that candidate, and reports whether it did. |
| BoardLookup.SinglePossibleValuePass | sudoku/board.py:219-225 | One pass over all tiles leaves the naked-single scan of the board, and its count is zero exactly when nothing changed. |
| BoardLookup.LookForSinglePossibleValue | sudoku/board.py:213-227 | The repeated passes leave the naked-single fixpoint of the board. |
| BoardLookup.OccursElsewhere | sudoku/board.py:238-243 | The inner loop reports exactly whether another tile of the list has val as a candidate. |
| BoardLookup.LookForSingleOccurrence | sudoku/board.py:229-247 | The nested loops leave the hidden-single scan of the tile list. |
| BoardLookup.LookForSingleOccurrenceIn | sudoku/board.py:199-206 | Scanning the block lists and then the row lists, in order, leaves the sweep of those groups. |
| BoardLookup.LookForSingleOccurrenceInColumns | sudoku/board.py:207-211 | The column loop scans the last column's list only. |
| BoardLookup.LookupPossibleValues | sudoku/board.py:196-211 | The propagation round leaves the board its specification computes. |
| Board.Flatten | sudoku/board.py:51-52 | The board holds the nested list's entry (r, c) at the tile (r, c). |
| Board.CopyOf | sudoku/board.py:254 | `copy.copy` gives a new array with the same cells. |
| Board.Board.constructor | sudoku/board.py:51-56 | The board and the original are separate arrays holding the input; there are no saved states and the counter is 0. |
| Board.Board.Create | sudoku/board.py:51-56 | A solver is built exactly when the input is 9x9. |
| Board.Board.CountOccurrence | sudoku/board.py:76-81 | Entry v-1 is the number of cells holding v, for each digit v. |
| Board.Board.CountCells | sudoku/board.py:80 | Counting the cells equal to v one by one gives the number of cells holding v. |
| Board.Board.CheckSolved | sudoku/board.py:83-109 | The count check and the row, column and block checks together return exactly the `solved` predicate. |
| Board.Board.UpdateIntermediateState | sudoku/board.py:249-259 | A first visit of the iteration appends a fresh copy of the board with search index 0; a later visit adds one to that entry's search index; board, original and counter are unchanged. |
| Board.Board.SaveState | sudoku/board.py:251-255 | Appends one entry for the current iteration: a fresh copy of the board with search index 0; earlier entries are kept. |
| Board.Board.MoveSearchIndexOn | sudoku/board.py:256-259 | The last entry's search index goes up by one; its snapshot and every other entry are unchanged. |
| Board.Board.RevertState | sudoku/board.py:261-269 | Drops the entry of the current iteration. When another entry remains, its array becomes the board and the counter is one below its iteration; otherwise it fails. |
| Board.Board.Propagate | sudoku/board.py:125-132 | Leaves the propagated board and reports "same" exactly when propagation changed nothing. |
| Board.Board.CountIteration | sudoku/board.py:193 | The counter goes up by one and nothing else changes. |
| Board.Board.Guess | sudoku/board.py:175-182 | The chosen candidate is written into the current array, and the counter goes up by one. |
| Board.Board.SaveAndDecide | sudoku/board.py:131-181 | Saving the state leaves the board cells and counter as they were, appends a newly allocated snapshot on a first visit, and yields exactly the decision `Decide` takes for the board and the saved entry's search index; a guess names an empty tile and one of its candidates. |
| Board.Board.Backtrack | sudoku/board.py:183-193 | The outcome is always a revert or Unsolvable. After a revert the board is the newest remaining saved array and the counter equals that entry's iteration; with nothing left the step fails as Unsolvable. |
| Board.Board.Act | sudoku/board.py:141-193 | After the state is saved: a guess writes the chosen candidate into the current array and counts the iteration; the out-of-range failure changes nothing further; neither of these touches the trail; a revert drops the current entry and goes back to the newest remaining saved array, or fails as Unsolvable, and in both of these cases the array the step started from keeps its cells. |
| Board.Board.Stuck | sudoku/board.py:132-193 | A stalled step saves the state (a fresh copy on a first visit, else the search index moves on), then does what the decision for the board and the next search index says. A guess writes into the same array, and after a first-visit guess or out-of-range failure the saved entry's snapshot is a newly allocated array. On a revert or an Unsolvable result, the array the step started from keeps its cells. |
| Board.Board.Step | sudoku/board.py:121-194 | A step propagates exactly when propagation changes the board, and then counts the iteration; otherwise it saves, then guesses, fails, or reverts as decided; after a first-visit guess or out-of-range failure the saved snapshot is a newly allocated array; and a revert or an Unsolvable result leaves the cells of the array it started from as they were. It keeps the no-repeat invariant over every board array. |
| Board.Board.Solve | sudoku/board.py:111-119 | Steps until `solved` holds; a finished run leaves a solved board, and only the two IndexErrors end a run early. |
| Board.Board.Reset | sudoku/board.py:313-315 | The original array itself becomes the board; the saved states and the counter are unchanged. |
| Reader.CountBelowTwo | sudoku/reader.py:65-66 | A character is counted fewer than two times exactly when it does not occur at two positions. |
| Reader.CheckLength | sudoku/reader.py:55-60 | Fails exactly when the line does not have nine characters (the definition; `Reader.AcceptedLineConverts` uses it). |
| Reader.CheckUniqueness | sudoku/reader.py:62-69 | Passes exactly when every digit 1..9 is counted fewer than two times; its meaning is stated by `Reader.UniquenessIsNoRepeatedDigit`. |
| Reader.UniquenessIsNoRepeatedDigit | sudoku/reader.py:62-69 | The uniqueness check passes exactly when no digit 1..9 occurs twice in the line. |
| Reader.IntOfChar | sudoku/reader.py:78 | `int()` of a character succeeds exactly on '0'..'9', and the value converts back to the same character. |
| Reader.CharValue | sudoku/reader.py:74-78 | A character converts exactly when it is an empty marker or a digit 1..9; the value lies in 0..9 and is 0 exactly for the empty markers. |
| Reader.Convert | sudoku/reader.py:71-79 | The conversion succeeds exactly when every character is an empty marker or a digit. Then it has the line's length and position i holds the value of character i; otherwise the error names the first bad character. |
| Reader.ConvertToArray | sudoku/reader.py:71-79 | The append loop computes the conversion. |
| Reader.AcceptedLineConverts | sudoku/reader.py:41-53 | A line of empty markers and digits 1..9 that passes both checks converts to nine values in 0..9, none nonzero twice. |

## Left out

- Printing: `display`, `_print_one_row`, the `verbose` messages of `step`, and the messages of the reader checks.
- Timing and the callback: the clock in `solve` and the callback after each step are not modelled.
- Board.Board.Solve: the `while not self.solved` loop is bounded by a fuel parameter, because the source gives no termination guarantee. The contract does not claim that a solution is found.
- Board.Board.Create: the model builds the solver from a nested list of integers. `np.asarray` on an existing numpy array would share the caller's array, and that sharing is not modelled.
- Integer width: cells are unbounded integers. The engine writes only 0..9 and counts up to 81, so numpy's 64-bit integers cannot overflow.
- Tile objects: tiles and `copy.deepcopy` of the tile list are modelled as board positions and the candidate map they produce.
- Tile.Value reads the board cell, not the tile's `_value` cache. The cache can differ from the cell in two ways: another tile object writes the same cell, or the tile's `board` setter (`sudoku/tile.py:81-84`) points it at another array without refreshing the cache. The engine never reads `.value`.
- Search.ArgSort: ties between tiles with equal counts keep scan order. `np.argsort`'s default sort does not promise any particular order for ties.
- Reader.IntOfChar: only the ASCII digits '0'..'9' convert. Python's `int()` also accepts other Unicode decimal digits.
- The interactive reader: `__init__`, `update_row` and the `input()` loop of `request_line` are left out. `Reader.AcceptedLineConverts` states what a line accepted by that loop converts to.
- `sudoku/generate_problem.py`, `sudoku/utils.py`, `sudoku/main.py`, the web application and packaging are not part of this model. They are random generation, stdout redirection and drivers.
