// The solver object: the mutable board, the original problem, the trail of
// saved intermediate states (`_intermediate_state`, a dictionary keyed by
// iteration number) and the iteration counter. Boards are arrays shared by
// reference exactly as the numpy arrays are: a revert makes the saved array
// itself the current board, and a reset makes the original array the current
// board, so later writes land in those arrays.

module Board {
  import opened Tile
  import opened Groups
  import opened Propagation
  import opened Search
  import opened BoardLookup

  /** One saved state: the iteration it belongs to, a copy of the board taken
      then, and how many guesses from that state have been started. */
  datatype Entry = Entry(iter: int, snapshot: array<int>, searchIdx: nat)

  /** What one step did. The last two are the IndexErrors the step can raise:
      the trail running empty on a revert, and a value index one past the end
      of the chosen tile's candidate list. */
  datatype StepOutcome =
    | Propagated
    | Guessed(cell: int, value: int)
    | Reverted(deadEnd: bool)
    | Unsolvable
    | GuessOutOfRange

  datatype SolveOutcome = Finished | OutOfFuel | Failed(error: StepOutcome)

  /** The result of building a solver from a nested list: the shape check fails,
      or a solver. */
  datatype Construction = ShapeError | Built(solver: Board)

  /** The iteration numbers present in the trail. */
  function Keys(trail: seq<Entry>): (ks: set<int>)
    ensures forall n :: n in ks <==> exists k :: 0 <= k < |trail| && trail[k].iter == n
  {
    set e | e in trail :: e.iter
  }

  /** Keys strictly increase along the trail (insertion order of the dictionary). */
  predicate Increasing(trail: seq<Entry>) {
    forall k, l :: 0 <= k < l < |trail| ==> trail[k].iter < trail[l].iter
  }

  /** With increasing keys, none above n, a key n can only be the last entry. */
  lemma KeyIsLast(trail: seq<Entry>, n: int)
    requires Increasing(trail) && (trail != [] ==> trail[|trail| - 1].iter <= n)
    ensures n in Keys(trail) <==> trail != [] && trail[|trail| - 1].iter == n
  {
    if n in Keys(trail) {
      var k :| 0 <= k < |trail| && trail[k].iter == n;
      if k < |trail| - 1 {
        assert trail[k].iter < trail[|trail| - 1].iter;
      }
    }
  }

  /** The row-major flattening of a 9x9 nested list. */
  function Flatten(rows: seq<seq<int>>): (g: Grid)
    requires |rows| == 9 && forall r :: 0 <= r < 9 ==> |rows[r]| == 9
    ensures forall r, c :: IsCoord(r, c) ==> g[At(r, c)] == rows[r][c]
  {
    seq(81, i requires 0 <= i < 81 => rows[i / 9][i % 9])
  }

  predicate IsNineByNine(rows: seq<seq<int>>) {
    |rows| == 9 && forall r :: 0 <= r < 9 ==> |rows[r]| == 9
  }

  /** The search index the step will use at iteration n: a fresh state starts at
      0, a state seen before moves on by one. */
  function NextSearchIdx(trail: seq<Entry>, n: int): nat {
    if n in Keys(trail) && trail != [] then trail[|trail| - 1].searchIdx + 1 else 0
  }

  /** The trail after a revert from iteration n: the entry of n is dropped. */
  function Popped(trail: seq<Entry>, n: int): seq<Entry> {
    if n in Keys(trail) && trail != [] then trail[..|trail| - 1] else trail
  }

  /** `copy.copy` of a board: a new array with the same cells. */
  method CopyOf(a: array<int>) returns (b: array<int>)
    ensures fresh(b) && b[..] == a[..]
  {
    b := new int[a.Length];
    forall i | 0 <= i < a.Length {
      b[i] := a[i];
    }
  }

  class Board {
    var board: array<int>
    var origBoard: array<int>
    var trail: seq<Entry>
    var niter: int

    /** Every board array the solver has held: the current and original boards
        and the saved snapshots are among them. */
    ghost var Repr: set<array<int>>

    /** All boards are 9x9 and in Repr, and the keys of the trail increase. */
    ghost predicate Shaped()
      reads this
    {
      board.Length == 81 && origBoard.Length == 81 && board in Repr && origBoard in Repr &&
      (forall k :: 0 <= k < |trail| ==> trail[k].snapshot.Length == 81 && trail[k].snapshot in Repr) &&
      Increasing(trail)
    }

    /** Between steps, in addition, no key is above the counter. */
    ghost predicate Valid()
      reads this
    {
      Shaped() && (trail != [] ==> trail[|trail| - 1].iter <= niter)
    }

    /** No reachable board repeats a digit in a row, a column or a block. */
    ghost predicate AllConsistent()
      requires Shaped()
      reads this, Repr
    {
      Consistent(board[..]) && Consistent(origBoard[..]) &&
      forall k :: 0 <= k < |trail| ==> Consistent(trail[k].snapshot[..])
    }

    /** The trail after saving the state of iteration n0 whose board was g: a new
        entry with search index 0 and a copy of g, or the existing entry of n0
        (the last one) with its search index moved on by one. */
    ghost predicate SavedFrom(t0: seq<Entry>, n0: int, g: seq<int>)
      requires Shaped()
      reads this, Repr
    {
      if n0 in Keys(t0) && t0 != [] then
        trail == t0[|t0| - 1 := t0[|t0| - 1].(searchIdx := t0[|t0| - 1].searchIdx + 1)]
      else
        |trail| == |t0| + 1 && trail[..|t0|] == t0 && trail[|t0|].iter == n0 &&
        trail[|t0|].searchIdx == 0 && trail[|t0|].snapshot[..] == g
    }

    /** `Board(board)` for a 9x9 nested list: the board and a separate copy of
        it as the original problem, an empty trail and iteration 0. */
    constructor(rows: seq<seq<int>>)
      requires IsNineByNine(rows)
      ensures Valid() && AllConsistent() == Consistent(Flatten(rows))
      ensures board[..] == Flatten(rows) && origBoard[..] == Flatten(rows)
      ensures fresh(board) && fresh(origBoard) && board != origBoard
      ensures trail == [] && niter == 0
    {
      var g := Flatten(rows);
      board := new int[81](i requires 0 <= i < 81 => g[i]);
      origBoard := new int[81](i requires 0 <= i < 81 => g[i]);
      trail := [];
      niter := 0;
      Repr := {board, origBoard};
      new;
      assert board[..] == g && origBoard[..] == g;
    }

    /** Building a solver checks the shape: anything other than 9x9 is refused. */
    static method Create(rows: seq<seq<int>>) returns (res: Construction)
      ensures res.Built? <==> IsNineByNine(rows)
      ensures res.Built? ==>
        fresh(res.solver) && res.solver.Valid() && res.solver.board[..] == Flatten(rows) &&
        res.solver.trail == [] && res.solver.niter == 0
    {
      if !IsNineByNine(rows) {
        return ShapeError;
      }
      var b := new Board(rows);
      res := Built(b);
    }

    /** `_count_occurence`: how often each digit 1..9 occurs, digit v at v - 1. */
    method CountOccurrence() returns (occur: seq<nat>)
      requires Valid()
      ensures |occur| == 9 && forall v :: 1 <= v <= 9 ==> occur[v - 1] == CountOf(board[..], v)
    {
      occur := [];
      for v := 1 to 10
        invariant |occur| == v - 1
        invariant forall u :: 1 <= u < v ==> occur[u - 1] == CountOf(board[..], u)
      {
        var n := CountCells(v);
        occur := occur + [n];
      }
    }

    /** `np.sum(self.board == val)`: the cells holding v, counted one by one. */
    method CountCells(v: int) returns (n: nat)
      requires Valid()
      ensures n == CountOf(board[..], v)
    {
      n := 0;
      for i := 0 to 81
        invariant n == multiset(board[..i])[v]
      {
        assert board[..i + 1] == board[..i] + [board[i]];
        if board[i] == v {
          n := n + 1;
        }
      }
      assert board[..81] == board[..];
    }

    /** `solved`: the count check, then the rows, the columns and the 3x3 blocks,
        stopping at the first group that is not a permutation of 1..9. */
    method CheckSolved() returns (solved: bool)
      requires Valid()
      ensures solved == Solved(board[..])
    {
      var occur := CountOccurrence();
      if !(forall k :: 0 <= k < 9 ==> occur[k] == 9) {
        assert !CountsAreNine(board[..]) by {
          var k :| 0 <= k < 9 && occur[k] != 9;
          assert CountOf(board[..], k + 1) != 9;
        }
        return false;
      }
      var g: Grid := board[..];
      for r := 0 to 9
        invariant forall k :: 0 <= k < r ==> IsDigitPermutation(RowOf(g, k))
      {
        if !IsDigitPermutation(RowOf(g, r)) {
          return false;
        }
      }
      for c := 0 to 9
        invariant forall k :: 0 <= k < c ==> IsDigitPermutation(ColumnOf(g, k))
      {
        if !IsDigitPermutation(ColumnOf(g, c)) {
          return false;
        }
      }
      for i := 0 to 3
        invariant forall b :: 0 <= b < 3 * i ==> IsDigitPermutation(BlockByIndex(g, b))
      {
        for j := 0 to 3
          invariant forall b :: 0 <= b < 3 * i + j ==> IsDigitPermutation(BlockByIndex(g, b))
        {
          var subgrid := SubGrid(g, 3 * i, 3 * j);
          assert subgrid == BlockByIndex(g, 3 * i + j) by {
            var b := 3 * i + j;
            assert b / 3 == i && b % 3 == j;
          }
          if !IsDigitPermutation(subgrid) {
            return false;
          }
        }
      }
      return true;
    }

    /** `_update_intermediate_state`: the first visit of an iteration saves a
        copy of the board with search index 0; a later visit moves the search
        index of that saved state on by one. */
    method UpdateIntermediateState()
      requires Valid()
      modifies this
      ensures Valid()
      ensures old(AllConsistent()) ==> AllConsistent()
      ensures board == old(board) && origBoard == old(origBoard) && niter == old(niter)
      ensures SavedFrom(old(trail), niter, board[..])
      ensures trail != [] && trail[|trail| - 1].iter == niter
      ensures !(niter in Keys(old(trail))) ==> fresh(trail[|trail| - 1].snapshot)
      ensures old(Repr) <= Repr && fresh(Repr - old(Repr))
    {
      KeyIsLast(trail, niter);
      if niter !in Keys(trail) {
        SaveState();
      } else {
        MoveSearchIndexOn();
      }
    }

    /** The first visit of the current iteration: a copy of the board is
        appended to the trail with search index 0. */
    method SaveState()
      requires Valid() && (trail != [] ==> trail[|trail| - 1].iter < niter)
      modifies this
      ensures Valid()
      ensures old(AllConsistent()) ==> AllConsistent()
      ensures board == old(board) && origBoard == old(origBoard) && niter == old(niter)
      ensures |trail| == |old(trail)| + 1 && trail[..|old(trail)|] == old(trail)
      ensures trail[|old(trail)|].iter == niter && trail[|old(trail)|].searchIdx == 0
      ensures trail[|old(trail)|].snapshot[..] == board[..] && fresh(trail[|old(trail)|].snapshot)
      ensures Repr == old(Repr) + {trail[|old(trail)|].snapshot}
    {
      var snap := CopyOf(board);
      trail := trail + [Entry(niter, snap, 0)];
      Repr := Repr + {snap};
      assert trail[..|trail| - 1] == old(trail);
    }

    /** A later visit of the current iteration, whose entry is the last one:
        its search index moves on by one. */
    method MoveSearchIndexOn()
      requires Valid() && trail != [] && trail[|trail| - 1].iter == niter
      modifies this
      ensures Valid()
      ensures old(AllConsistent()) ==> AllConsistent()
      ensures board == old(board) && origBoard == old(origBoard) && niter == old(niter) && Repr == old(Repr)
      ensures var last := |old(trail)| - 1;
        trail == old(trail)[last := old(trail)[last].(searchIdx := old(trail)[last].searchIdx + 1)]
    {
      var last := |trail| - 1;
      trail := trail[last := trail[last].(searchIdx := trail[last].searchIdx + 1)];
    }

    /** `_revert_state`: drop the entry of the current iteration (the last one),
        then go back to the newest remaining saved state: its board array becomes
        the board and the counter is set one below its iteration. With nothing
        left the lookup of the newest entry fails and false is returned. */
    method RevertState() returns (ok: bool)
      requires Valid() && niter in Keys(trail)
      modifies this
      ensures Shaped()
      ensures origBoard == old(origBoard) && Repr == old(Repr)
      ensures old(AllConsistent()) ==> AllConsistent()
      ensures trail == old(trail)[..|old(trail)| - 1]
      ensures ok <==> trail != []
      ensures !ok ==> board == old(board) && niter == old(niter)
      ensures ok ==> board == trail[|trail| - 1].snapshot && niter == trail[|trail| - 1].iter - 1
    {
      KeyIsLast(trail, niter);
      trail := trail[..|trail| - 1];
      if trail == [] {
        return false;
      }
      niter := trail[|trail| - 1].iter;
      board := trail[|trail| - 1].snapshot;
      niter := niter - 1;
      return true;
    }

    /**
     * What the stuck branch of `step` leaves behind, for the decision d taken
     * on the board g, trail t0, counter n0 and board array b0 it started from:
     * a guess writes the chosen value into the same array and counts the
     * iteration; a value index past the end fails after saving; a dead end or
     * an exhausted index drops the entry of n0 and goes back to the newest
     * remaining saved state, or fails when none is left, and in both cases
     * the array the step started from keeps its cells.
     */
    ghost predicate StuckResult(outcome: StepOutcome, d: Decision, g: Grid, t0: seq<Entry>, n0: int, b0: array<int>)
      requires Shaped()
      reads this, Repr, b0
    {
      match d
      case Try(cell, value) =>
        outcome == Guessed(cell, value) && board == b0 && 0 <= cell < 81 &&
        board[..] == g[cell := value] && niter == n0 + 1 && SavedFrom(t0, n0, g)
      case OutOfRange =>
        outcome == GuessOutOfRange && board == b0 && board[..] == g &&
        niter == n0 && SavedFrom(t0, n0, g)
      case _ =>
        trail == Popped(t0, n0) && b0[..] == g &&
        (trail == [] ==> outcome == Unsolvable && board == b0 && niter == n0) &&
        (trail != [] ==>
          outcome == Reverted(d.DeadEnd?) &&
          board == trail[|trail| - 1].snapshot && niter == trail[|trail| - 1].iter)
    }

    /**
     * `step`: one round of propagation; when it changes nothing, save the state
     * and then revert on a dead end or an exhausted search index, or else guess
     * the tile and value the search index selects.
     */
    method Step() returns (outcome: StepOutcome)
      requires Valid()
      modifies this, board
      ensures Valid()
      ensures old(AllConsistent()) ==> AllConsistent()
      ensures origBoard == old(origBoard)
      ensures old(Repr) <= Repr && fresh(Repr - old(Repr))
      ensures outcome.Propagated? <==> Lookup(old(board[..])) != old(board[..])
      ensures outcome.Propagated? ==>
        board == old(board) && board[..] == Lookup(old(board[..])) &&
        trail == old(trail) && niter == old(niter) + 1
      ensures !outcome.Propagated? ==>
        StuckResult(outcome, Decide(old(board[..]), NextSearchIdx(old(trail), old(niter))),
          old(board[..]), old(trail), old(niter), old(board))
      ensures (outcome.Guessed? || outcome.GuessOutOfRange?) && old(niter) !in Keys(old(trail)) ==>
        |trail| == |old(trail)| + 1 && fresh(trail[|old(trail)|].snapshot)
    {
      ghost var g0 := board[..];
      var same := Propagate();
      if same {
        assert board[..] == g0;
        assert trail == old(trail) && niter == old(niter);
        outcome := Stuck();
      } else {
        CountIteration();
        outcome := Propagated;
      }
    }

    /** The propagation half of `step`: the candidate maps of the empty tiles
        before and after `_lookup_possible_values`, and whether they agree. */
    method Propagate() returns (same: bool)
      requires Valid()
      modifies board
      ensures board[..] == Lookup(old(board[..]))
      ensures same <==> Lookup(old(board[..])) == old(board[..])
      ensures old(AllConsistent()) ==> AllConsistent()
    {
      var oldTiles := CandidateMap(board[..]);
      ghost var g: Grid := board[..];
      LookupRefines(g);
      LookupPossibleValues(board);
      var newTiles := CandidateMap(board[..]);
      TilesSameIffUnchanged(g, board[..]);
      same := oldTiles == newTiles;
    }

    /** `self._niter += 1`: the iteration counter moves on and nothing else changes. */
    method CountIteration()
      requires Shaped()
      modifies this
      ensures Shaped() && (old(Valid()) ==> Valid())
      ensures board == old(board) && origBoard == old(origBoard) && trail == old(trail) && Repr == old(Repr)
      ensures niter == old(niter) + 1
      ensures old(AllConsistent()) ==> AllConsistent()
    {
      niter := niter + 1;
    }

    /** The stuck branch of `step`, entered when propagation changed nothing. */
    method Stuck() returns (outcome: StepOutcome)
      requires Valid()
      modifies this, board
      ensures Valid()
      ensures old(AllConsistent()) ==> AllConsistent()
      ensures origBoard == old(origBoard)
      ensures old(Repr) <= Repr && fresh(Repr - old(Repr))
      ensures !outcome.Propagated?
      ensures StuckResult(outcome, Decide(old(board[..]), NextSearchIdx(old(trail), old(niter))),
          old(board[..]), old(trail), old(niter), old(board))
      ensures (outcome.Guessed? || outcome.GuessOutOfRange?) && old(niter) !in Keys(old(trail)) ==>
        |trail| == |old(trail)| + 1 && fresh(trail[|old(trail)|].snapshot)
    {
      var d := SaveAndDecide();
      ghost var saved := trail;
      outcome := Act(d, old(board[..]), old(trail), old(niter));
      if outcome.Guessed? || outcome.GuessOutOfRange? {
        assert trail == saved;
      }
    }

    /** The start of the stuck branch: save the state, then take the decision
        the search index of the saved entry selects on the unchanged board. */
    method SaveAndDecide() returns (d: Decision)
      requires Valid()
      modifies this
      ensures Valid()
      ensures old(AllConsistent()) ==> AllConsistent()
      ensures board == old(board) && origBoard == old(origBoard) && niter == old(niter)
      ensures SavedFrom(old(trail), niter, board[..])
      ensures trail != [] && trail[|trail| - 1].iter == niter
      ensures old(niter) !in Keys(old(trail)) ==>
        |trail| == |old(trail)| + 1 && fresh(trail[|old(trail)|].snapshot) &&
        trail[|trail| - 1].snapshot != board
      ensures old(Repr) <= Repr && fresh(Repr - old(Repr))
      ensures d == Decide(board[..], NextSearchIdx(old(trail), niter))
      ensures d.Try? ==> 0 <= d.cell < 81 && board[d.cell] == 0 && d.value in Cands(board[..], d.cell)
    {
      var g: Grid := board[..];
      ghost var s := NextSearchIdx(trail, niter);
      KeyIsLast(trail, niter);
      UpdateIntermediateState();
      var idxSearch := trail[|trail| - 1].searchIdx;
      assert idxSearch == s;
      d := StuckDecision(g, idxSearch);
      DecideTriesCandidate(g, s);
    }

    /** The end of the stuck branch, once the state is saved: guess, fail on a
        value index past the end, or revert. */
    method Act(d: Decision, ghost g: Grid, ghost t0: seq<Entry>, ghost n0: int) returns (outcome: StepOutcome)
      requires Valid() && board[..] == g && niter == n0 && SavedFrom(t0, n0, g)
      requires trail != [] && trail[|trail| - 1].iter == niter
      requires n0 !in Keys(t0) ==> trail[|trail| - 1].snapshot != board
      requires d.Try? ==> 0 <= d.cell < 81 && g[d.cell] == 0 && d.value in Cands(g, d.cell)
      modifies this, board
      ensures Valid()
      ensures old(AllConsistent()) ==> AllConsistent()
      ensures origBoard == old(origBoard) && Repr == old(Repr)
      ensures !outcome.Propagated?
      ensures StuckResult(outcome, d, g, t0, n0, old(board))
      ensures outcome.Guessed? || outcome.GuessOutOfRange? ==> trail == old(trail)
    {
      if d.Try? {
        Guess(d.cell, d.value);
        assert trail == old(trail);
        outcome := Guessed(d.cell, d.value);
      } else if d.OutOfRange? {
        outcome := GuessOutOfRange;
      } else {
        KeyIsLast(trail, niter);
        assert trail[..|trail| - 1] == Popped(t0, n0);
        outcome := Backtrack(d.DeadEnd?);
      }
    }

    /** A guess: the value goes into the board array through the tile's setter,
        and the iteration is counted. */
    method Guess(cell: int, value: int)
      requires Valid() && 0 <= cell < 81 && value in Cands(board[..], cell)
      modifies this, board
      ensures Valid()
      ensures board == old(board) && origBoard == old(origBoard) && trail == old(trail) && Repr == old(Repr)
      ensures board[..] == old(board[..])[cell := value] && niter == old(niter) + 1
      ensures old(AllConsistent()) ==> AllConsistent()
    {
      CandidateWriteRefines(board[..], cell, value);
      assert At(cell / 9, cell % 9) == cell;
      SetValue(board, cell / 9, cell % 9, value);
      CountIteration();
    }

    /** A dead end or an exhausted search index: `_revert_state`, counting the
        iteration when a saved state was left to go back to, and failing when
        none was. */
    method Backtrack(deadEnd: bool) returns (outcome: StepOutcome)
      requires Valid() && niter in Keys(trail)
      modifies this
      ensures Valid()
      ensures origBoard == old(origBoard) && Repr == old(Repr)
      ensures old(AllConsistent()) ==> AllConsistent()
      ensures trail == old(trail)[..|old(trail)| - 1]
      ensures outcome.Reverted? || outcome.Unsolvable?
      ensures trail == [] ==> outcome == Unsolvable && board == old(board) && niter == old(niter)
      ensures trail != [] ==>
        outcome == Reverted(deadEnd) &&
        board == trail[|trail| - 1].snapshot && niter == trail[|trail| - 1].iter
    {
      var ok := RevertState();
      if ok {
        CountIteration();
        outcome := Reverted(deadEnd);
      } else {
        outcome := Unsolvable;
      }
    }

    /** `solve`: steps until the solved check passes. The step budget `fuel`
        stands in for the unbounded loop; an IndexError ends the run. */
    method Solve(fuel: nat) returns (res: SolveOutcome)
      requires Valid()
      modifies this, Repr
      ensures Valid()
      ensures old(AllConsistent()) ==> AllConsistent()
      ensures res.Finished? ==> Solved(board[..])
      ensures res.OutOfFuel? ==> !Solved(board[..])
      ensures res.Failed? ==> res.error.Unsolvable? || res.error.GuessOutOfRange?
    {
      var remaining := fuel;
      while true
        invariant Valid()
        invariant origBoard == old(origBoard)
        invariant old(Repr) <= Repr && fresh(Repr - old(Repr))
        invariant old(AllConsistent()) ==> AllConsistent()
        decreases remaining
      {
        var done := CheckSolved();
        if done {
          return Finished;
        }
        if remaining == 0 {
          return OutOfFuel;
        }
        var o := Step();
        if o.Unsolvable? || o.GuessOutOfRange? {
          return Failed(o);
        }
        remaining := remaining - 1;
      }
    }

    /** `reset`: the original array becomes the board again (the same array, not
        a copy); the trail and the counter are left as they are. */
    method Reset()
      requires Valid()
      modifies this
      ensures Valid()
      ensures board == old(origBoard) && origBoard == old(origBoard)
      ensures trail == old(trail) && niter == old(niter)
    {
      board := origBoard;
    }
  }
}
