// The deterministic part of a solver step (`_lookup_possible_values`), stated as
// functions of the board: the naked-single scan repeated to a fixpoint, then the
// hidden-single scan over a sequence of tile groups.

module Propagation {
  import opened Tile
  import opened Groups

  /** h comes from g by filling empty tiles with digits, and a board with no
      repeated digit in any group stays so. */
  ghost predicate Refines(g: Grid, h: Grid) {
    Fills(g, h) && (Consistent(g) ==> Consistent(h))
  }

  /** Every cell of h is the cell of g, or a digit where g was empty. */
  ghost predicate Fills(g: Grid, h: Grid) {
    forall i :: 0 <= i < 81 ==> h[i] == g[i] || (g[i] == 0 && 1 <= h[i] <= 9)
  }

  /** Writing a current candidate into a tile is a refinement. */
  lemma CandidateWriteRefines(g: Grid, i: int, v: int)
    requires 0 <= i < 81 && v in Cands(g, i)
    ensures Refines(g, g[i := v])
  {
    var h: Grid := g[i := v];
    assert Fills(g, h) by {
      CandidateAbsentFromGroups(g, i, v);
    }
    if Consistent(g) {
      WriteKeepsConsistent(g, i, v);
    }
  }

  lemma RefinesTransitive(g: Grid, h: Grid, k: Grid)
    requires Refines(g, h) && Refines(h, k)
    ensures Refines(g, k)
  {
    assert Fills(g, k);
  }

  /** Number of empty cells. */
  function Zeros(s: seq<int>): nat {
    if s == [] then 0 else (if s[0] == 0 then 1 else 0) + Zeros(s[1..])
  }

  /** Filling empty cells never adds empty cells, and filling one removes one. */
  lemma {:induction false} FewerZeros(s: seq<int>, t: seq<int>)
    requires |s| == |t|
    requires forall i :: 0 <= i < |s| ==> t[i] == s[i] || (s[i] == 0 && t[i] != 0)
    ensures Zeros(t) <= Zeros(s)
    ensures s != t ==> Zeros(t) < Zeros(s)
  {
    if s != [] {
      FewerZeros(s[1..], t[1..]);
      assert s == [s[0]] + s[1..] && t == [t[0]] + t[1..];
    }
  }

  // ---------------------------------------------------------------------
  // Naked singles (`_look_for_single_possible_value`)

  /** One tile of the scan: an empty tile with exactly one candidate receives it. */
  function NakedAt(g: Grid, i: int): Grid
    requires 0 <= i < 81
  {
    if g[i] == 0 && |Cands(g, i)| == 1 then g[i := Cands(g, i)[0]] else g
  }

  /** The tile is written exactly when it is empty with a single candidate, and
      it receives that candidate; the write is a refinement. */
  lemma NakedAtEffect(g: Grid, i: int)
    requires 0 <= i < 81
    ensures Refines(g, NakedAt(g, i))
    ensures NakedAt(g, i) != g <==> g[i] == 0 && |Cands(g, i)| == 1
    ensures NakedAt(g, i) != g ==> NakedAt(g, i) == g[i := Cands(g, i)[0]]
  {
    if g[i] == 0 && |Cands(g, i)| == 1 {
      CandidateWriteRefines(g, i, Cands(g, i)[0]);
      assert NakedAt(g, i)[i] != g[i];
    }
  }

  /** One pass over the tiles i..80 in row-major order; each tile sees the writes
      made before it in the same pass. */
  function NakedScan(g: Grid, i: nat): (h: Grid)
    requires i <= 81
    decreases 81 - i
  {
    if i == 81 then g else NakedScan(NakedAt(g, i), i + 1)
  }

  /** A pass refines the board, and a pass that changes nothing found no empty
      tile with a single candidate. */
  lemma {:induction false} NakedScanEffect(g: Grid, i: nat)
    requires i <= 81
    decreases 81 - i
    ensures Refines(g, NakedScan(g, i))
    ensures NakedScan(g, i) == g ==> forall j :: i <= j < 81 ==> g[j] != 0 || |Cands(g, j)| != 1
  {
    if i < 81 {
      var next := NakedAt(g, i);
      var h := NakedScan(next, i + 1);
      NakedAtEffect(g, i);
      NakedScanEffect(next, i + 1);
      RefinesTransitive(g, next, h);
      if next != g {
        assert h[i] != g[i];
      }
    }
  }

  /** Passes repeated until one makes no write. Each productive pass fills at
      least one empty tile, so this terminates. */
  function NakedFixpoint(g: Grid): (h: Grid)
    decreases Zeros(g)
  {
    var next := NakedScan(g, 0);
    if next == g then g
    else
      NakedScanEffect(g, 0);
      FewerZeros(g, next);
      NakedFixpoint(next)
  }

  /** The fixpoint refines the board, and in it no empty tile has exactly one
      candidate. */
  lemma {:induction false} NakedFixpointEffect(g: Grid)
    decreases Zeros(g)
    ensures Refines(g, NakedFixpoint(g))
    ensures forall j :: 0 <= j < 81 ==> NakedFixpoint(g)[j] != 0 || |Cands(NakedFixpoint(g), j)| != 1
  {
    var next := NakedScan(g, 0);
    NakedScanEffect(g, 0);
    if next != g {
      FewerZeros(g, next);
      NakedFixpointEffect(next);
      RefinesTransitive(g, next, NakedFixpoint(next));
    }
  }

  /** One pass either changes nothing, and the fixpoint is reached, or it fills
      at least one tile, and the fixpoint is that of the new board. */
  lemma NakedFixpointStep(g: Grid)
    ensures NakedScan(g, 0) == g ==> NakedFixpoint(g) == g
    ensures NakedScan(g, 0) != g ==>
      NakedFixpoint(NakedScan(g, 0)) == NakedFixpoint(g) && Zeros(NakedScan(g, 0)) < Zeros(g)
  {
    if NakedScan(g, 0) != g {
      NakedScanEffect(g, 0);
      FewerZeros(g, NakedScan(g, 0));
    }
  }

  // ---------------------------------------------------------------------
  // Hidden singles (`_look_for_single_occurence`)

  /** Some tile of the list other than the t-th has v as a candidate. */
  ghost predicate HeldElsewhere(g: Grid, group: seq<int>, t: int, v: int)
    requires ValidCells(group) && 0 <= t < |group|
  {
    exists w :: 0 <= w < |group| && w != t && v in Cands(g, group[w])
  }

  /** A left-to-right search for a position in [w, n) that passes the test p. */
  function AnyFrom(p: int -> bool, w: nat, n: nat): bool
    decreases n - w
  {
    w < n && (p(w) || AnyFrom(p, w + 1, n))
  }

  /** The search succeeds exactly when some position in [w, n) passes. */
  lemma {:induction false} AnyFromMeaning(p: int -> bool, w: nat, n: nat)
    decreases n - w
    ensures AnyFrom(p, w, n) <==> exists x :: w <= x < n && p(x)
  {
    if w < n {
      AnyFromMeaning(p, w + 1, n);
    }
  }

  /** The test "position x of the list is another tile that holds v". */
  function HolderTest(g: Grid, group: seq<int>, t: int, v: int): int -> bool
    requires ValidCells(group)
  {
    x => 0 <= x < |group| && x != t && v in Cands(g, group[x])
  }

  /** The search for another holder of v, tile by tile from the w-th on. */
  function HeldFrom(g: Grid, group: seq<int>, t: int, v: int, w: nat): bool
    requires ValidCells(group) && 0 <= t < |group| && w <= |group|
  {
    AnyFrom(HolderTest(g, group, t, v), w, |group|)
  }

  /** The search from w finds a holder exactly when one exists at w or later. */
  lemma HeldFromMeaning(g: Grid, group: seq<int>, t: int, v: int, w: nat)
    requires ValidCells(group) && 0 <= t < |group| && w <= |group|
    ensures HeldFrom(g, group, t, v, w) <==>
      exists x :: w <= x < |group| && x != t && v in Cands(g, group[x])
  {
    var p := HolderTest(g, group, t, v);
    AnyFromMeaning(p, w, |group|);
    forall x | w <= x < |group|
      ensures p(x) == (x != t && v in Cands(g, group[x]))
    {
    }
  }

  /** Position of the first of vals[u..] that no other tile of the list holds. */
  function FirstHidden(g: Grid, group: seq<int>, t: int, vals: seq<int>, u: nat): (k: nat)
    requires ValidCells(group) && 0 <= t < |group| && u <= |vals|
    decreases |vals| - u
    ensures u <= k <= |vals|
  {
    if u == |vals| then u
    else if !HeldFrom(g, group, t, vals[u], 0) then u
    else FirstHidden(g, group, t, vals, u + 1)
  }

  /** The value found is not held elsewhere, and every value before it is. */
  lemma {:induction false} FirstHiddenSpec(g: Grid, group: seq<int>, t: int, vals: seq<int>, u: nat)
    requires ValidCells(group) && 0 <= t < |group| && u <= |vals|
    decreases |vals| - u
    ensures var k := FirstHidden(g, group, t, vals, u);
      (k < |vals| ==> !HeldElsewhere(g, group, t, vals[k])) &&
      forall m :: u <= m < k ==> HeldElsewhere(g, group, t, vals[m])
  {
    if u < |vals| {
      HeldFromMeaning(g, group, t, vals[u], 0);
      if HeldFrom(g, group, t, vals[u], 0) {
        FirstHiddenSpec(g, group, t, vals, u + 1);
      }
    }
  }

  /** In an ascending list, every value below the first unheld one is held. */
  lemma BelowFirstHiddenIsHeld(g: Grid, group: seq<int>, t: int, vals: seq<int>, k: nat)
    requires ValidCells(group) && 0 <= t < |group| && k < |vals|
    requires forall a, b :: 0 <= a < b < |vals| ==> vals[a] < vals[b]
    requires forall m :: 0 <= m < k ==> HeldElsewhere(g, group, t, vals[m])
    ensures forall u :: u in vals && u < vals[k] ==> HeldElsewhere(g, group, t, u)
  {
    forall u | u in vals && u < vals[k] ensures HeldElsewhere(g, group, t, u) {
      var m :| 0 <= m < |vals| && vals[m] == u;
    }
  }

  /**
   * The t-th tile of the list: it receives its smallest candidate that no other
   * tile of the list holds, if there is one, and is left alone otherwise.
   */
  function HiddenAt(g: Grid, group: seq<int>, t: int): Grid
    requires ValidCells(group) && 0 <= t < |group|
  {
    var vals := Cands(g, group[t]);
    var k := FirstHidden(g, group, t, vals, 0);
    if k < |vals| then g[group[t] := vals[k]] else g
  }

  /** The step writes at most the t-th tile. */
  lemma HiddenAtFrame(g: Grid, group: seq<int>, t: int, i: int)
    requires ValidCells(group) && 0 <= t < |group| && 0 <= i < 81 && i != group[t]
    ensures HiddenAt(g, group, t)[i] == g[i]
  {
  }

  /** The step is a refinement. */
  lemma HiddenAtRefines(g: Grid, group: seq<int>, t: int)
    requires ValidCells(group) && 0 <= t < |group|
    ensures Refines(g, HiddenAt(g, group, t))
  {
    var vals := Cands(g, group[t]);
    var k := FirstHidden(g, group, t, vals, 0);
    if k < |vals| {
      CandidateWriteRefines(g, group[t], vals[k]);
    }
  }

  /** The tile receives a candidate that no other tile of the list holds while
      every smaller candidate is held elsewhere, and it is left alone exactly
      when all its candidates are held elsewhere. */
  lemma HiddenAtEffect(g: Grid, group: seq<int>, t: int)
    requires ValidCells(group) && 0 <= t < |group|
    ensures HiddenAt(g, group, t) != g ==>
      var v := HiddenAt(g, group, t)[group[t]];
      HiddenAt(g, group, t) == g[group[t] := v] && v in Cands(g, group[t]) &&
      !HeldElsewhere(g, group, t, v) &&
      forall u :: u in Cands(g, group[t]) && u < v ==> HeldElsewhere(g, group, t, u)
    ensures HiddenAt(g, group, t) == g ==>
      forall v :: v in Cands(g, group[t]) ==> HeldElsewhere(g, group, t, v)
  {
    var vals := Cands(g, group[t]);
    var k := FirstHidden(g, group, t, vals, 0);
    FirstHiddenSpec(g, group, t, vals, 0);
    if k < |vals| {
      BelowFirstHiddenIsHeld(g, group, t, vals, k);
      assert vals[k] in vals;
    }
  }

  /** A scan: steps t..n-1 in order, each seeing the board the previous ones left. */
  function Scan(step: (Grid, nat) -> Grid, g: Grid, n: nat, t: nat): Grid
    requires t <= n
    decreases n - t
  {
    if t == n then g else Scan(step, step(g, t), n, t + 1)
  }

  /** Every step below n refines whatever board it is given. */
  ghost predicate StepsRefine(step: (Grid, nat) -> Grid, n: nat) {
    forall h: Grid, u: nat :: u < n ==> Refines(h, step(h, u))
  }

  /** Step u writes at most the cell cells[u]. */
  ghost predicate StepsWriteOwnCell(step: (Grid, nat) -> Grid, cells: seq<int>) {
    forall h: Grid, u: nat, i :: u < |cells| && 0 <= i < 81 && i != cells[u] ==> step(h, u)[i] == h[i]
  }

  /** Cell i is none of cells[t..]. */
  predicate NotListedFrom(cells: seq<int>, t: int, i: int) {
    forall u :: 0 <= t <= u < |cells| ==> cells[u] != i
  }

  /** A scan of refining steps refines the board. */
  lemma {:induction false} ScanRefines(step: (Grid, nat) -> Grid, g: Grid, n: nat, t: nat)
    requires t <= n && StepsRefine(step, n)
    decreases n - t
    ensures Refines(g, Scan(step, g, n, t))
  {
    if t < n {
      var next := step(g, t);
      ScanRefines(step, next, n, t + 1);
      RefinesTransitive(g, next, Scan(step, next, n, t + 1));
    }
  }

  /** A scan whose steps write their own cells leaves every cell not listed
      from t on alone. */
  lemma {:induction false} ScanFrame(step: (Grid, nat) -> Grid, g: Grid, cells: seq<int>, t: nat, i: int)
    requires t <= |cells| && StepsWriteOwnCell(step, cells)
    requires 0 <= i < 81 && NotListedFrom(cells, t, i)
    decreases |cells| - t
    ensures Scan(step, g, |cells|, t)[i] == g[i]
  {
    if t < |cells| {
      ScanFrame(step, step(g, t), cells, t + 1, i);
    }
  }

  /** A scan of refining steps that changes nothing met no step that changes
      anything. */
  lemma {:induction false} ScanStalled(step: (Grid, nat) -> Grid, g: Grid, n: nat, t: nat)
    requires t <= n && StepsRefine(step, n) && Scan(step, g, n, t) == g
    decreases n - t
    ensures forall u :: t <= u < n ==> step(g, u) == g
  {
    if t < n {
      var next := step(g, t);
      ScanRefines(step, next, n, t + 1);
      RoundTripRefinement(g, next, Scan(step, next, n, t + 1));
      ScanStalled(step, g, n, t + 1);
    }
  }

  /** The hidden-single step over a tile list, as a scan step. */
  function HiddenStep(group: seq<int>): (Grid, nat) -> Grid
    requires ValidCells(group)
  {
    (h: Grid, u: nat) => if u < |group| then HiddenAt(h, group, u) else h
  }

  /** The hidden-single steps refine the board and write their own tiles only. */
  lemma HiddenStepFacts(group: seq<int>)
    requires ValidCells(group)
    ensures StepsRefine(HiddenStep(group), |group|)
    ensures StepsWriteOwnCell(HiddenStep(group), group)
  {
    var step := HiddenStep(group);
    forall h: Grid, u: nat | u < |group| ensures Refines(h, step(h, u)) {
      HiddenAtRefines(h, group, u);
    }
    forall h: Grid, u: nat, i | u < |group| && 0 <= i < 81 && i != group[u]
      ensures step(h, u)[i] == h[i]
    {
      HiddenAtFrame(h, group, u, i);
    }
  }

  /** The scan over tiles t.. of the list. */
  function HiddenScan(g: Grid, group: seq<int>, t: nat): Grid
    requires ValidCells(group) && t <= |group|
  {
    Scan(HiddenStep(group), g, |group|, t)
  }

  /** The hidden-single scan over the empty tiles of one scope, listed afresh. */
  function HiddenSinglesIn(g: Grid, s: Scope): Grid {
    HiddenScan(g, EmptyCells(g, s, 81), 0)
  }

  /** The scan of a scope refines the board and leaves the cells outside the
      scope alone. */
  lemma HiddenSinglesInEffect(g: Grid, s: Scope)
    ensures Refines(g, HiddenSinglesIn(g, s))
    ensures forall i :: 0 <= i < 81 && !InScope(i, s) ==> HiddenSinglesIn(g, s)[i] == g[i]
  {
    var group := EmptyCells(g, s, 81);
    HiddenStepFacts(group);
    ScanRefines(HiddenStep(group), g, |group|, 0);
    forall i | 0 <= i < 81 && !InScope(i, s) ensures HiddenSinglesIn(g, s)[i] == g[i] {
      ScanFrame(HiddenStep(group), g, group, 0, i);
    }
  }

  /** The hidden-single scans over a sequence of scopes, one after the other. */
  function Sweep(g: Grid, scopes: seq<Scope>): Grid
    decreases scopes
  {
    if scopes == [] then g else Sweep(HiddenSinglesIn(g, scopes[0]), scopes[1..])
  }

  lemma {:induction false} SweepRefines(g: Grid, scopes: seq<Scope>)
    decreases scopes
    ensures Refines(g, Sweep(g, scopes))
  {
    if scopes != [] {
      var next := HiddenSinglesIn(g, scopes[0]);
      HiddenSinglesInEffect(g, scopes[0]);
      SweepRefines(next, scopes[1..]);
      RefinesTransitive(g, next, Sweep(next, scopes[1..]));
    }
  }

  /** The groups the lookup scans, in order: blocks 0..8, rows 0..8, and then the
      single column list that is left over from the column loop, column 8. */
  function LookupScopes(): (scopes: seq<Scope>)
    ensures |scopes| == 19
  {
    BlockScopes() + RowScopes() + [InColumn(8)]
  }

  function BlockScopes(): seq<Scope> {
    seq(9, b => InBlock(b))
  }

  function RowScopes(): seq<Scope> {
    seq(9, r => InRow(r))
  }

  /** Sweeping two lists of scopes one after the other is sweeping their
      concatenation. */
  lemma {:induction false} SweepAppend(g: Grid, a: seq<Scope>, b: seq<Scope>)
    decreases a
    ensures Sweep(g, a + b) == Sweep(Sweep(g, a), b)
  {
    if a != [] {
      assert (a + b)[0] == a[0] && (a + b)[1..] == a[1..] + b;
      SweepAppend(HiddenSinglesIn(g, a[0]), a[1..], b);
    } else {
      assert a + b == b;
    }
  }

  /** One propagation round: naked singles to a fixpoint, then hidden singles
      in each block, in each row, and in the tiles of column 8 only. */
  function Lookup(g: Grid): Grid {
    var swept := Sweep(Sweep(NakedFixpoint(g), BlockScopes()), RowScopes());
    HiddenSinglesIn(swept, InColumn(8))
  }

  /** The round is the naked-single fixpoint swept over LookupScopes(). */
  lemma LookupIsSweep(g: Grid)
    ensures Lookup(g) == Sweep(NakedFixpoint(g), LookupScopes())
  {
    var n := NakedFixpoint(g);
    SweepAppend(n, BlockScopes(), RowScopes());
    SweepAppend(n, BlockScopes() + RowScopes(), [InColumn(8)]);
    var swept := Sweep(Sweep(n, BlockScopes()), RowScopes());
    assert [InColumn(8)][1..] == [];
    assert Sweep(swept, [InColumn(8)]) == HiddenSinglesIn(swept, InColumn(8));
  }

  /** A round only fills empty tiles with digits, and keeps a board free of
      repeated digits so. */
  lemma LookupRefines(g: Grid)
    ensures Refines(g, Lookup(g))
  {
    var n := NakedFixpoint(g);
    LookupIsSweep(g);
    NakedFixpointEffect(g);
    SweepRefines(n, LookupScopes());
    RefinesTransitive(g, n, Lookup(g));
  }

  /** Only column 8 is scanned for hidden singles; every block and row is. */
  lemma LookupScansColumnEightOnly()
    ensures forall c :: InColumn(c) in LookupScopes() <==> c == 8
    ensures forall k :: 0 <= k < 9 ==> InBlock(k) in LookupScopes() && InRow(k) in LookupScopes()
  {
    var scopes := LookupScopes();
    forall k | 0 <= k < 9 ensures InBlock(k) in scopes && InRow(k) in scopes {
      assert scopes[k] == InBlock(k) && scopes[9 + k] == InRow(k);
    }
    assert scopes[18] == InColumn(8);
  }

  /** If two refinements in a row come back to where they started, the
      intermediate board equals the start. */
  lemma RoundTripRefinement(g: Grid, n: Grid, h: Grid)
    requires Refines(g, n) && Refines(n, h) && h == g
    ensures n == g
  {
    forall i | 0 <= i < 81 ensures n[i] == g[i] {
    }
  }

  /** Every candidate of every empty tile of the scope is also a candidate of
      another empty tile of the same scope. */
  ghost predicate NoHiddenSingle(g: Grid, s: Scope) {
    var group := EmptyCells(g, s, 81);
    forall u, v :: 0 <= u < |group| && v in Cands(g, group[u]) ==> HeldElsewhere(g, group, u, v)
  }

  /** A scan of a tile list that changes nothing met no tile with a candidate
      that no other tile of the list holds. */
  lemma HiddenScanStalled(g: Grid, group: seq<int>)
    requires ValidCells(group) && HiddenScan(g, group, 0) == g
    ensures forall u, v :: 0 <= u < |group| && v in Cands(g, group[u]) ==> HeldElsewhere(g, group, u, v)
  {
    var step := HiddenStep(group);
    HiddenStepFacts(group);
    ScanStalled(step, g, |group|, 0);
    forall u | 0 <= u < |group|
      ensures forall v :: v in Cands(g, group[u]) ==> HeldElsewhere(g, group, u, v)
    {
      assert step(g, u) == HiddenAt(g, group, u) == g;
      HiddenAtEffect(g, group, u);
    }
  }

  /** A sweep that changes nothing changes nothing in any of its scopes. */
  lemma {:induction false} SweepStalled(g: Grid, scopes: seq<Scope>)
    requires Sweep(g, scopes) == g
    ensures forall k :: 0 <= k < |scopes| ==> NoHiddenSingle(g, scopes[k])
    decreases scopes
  {
    if scopes != [] {
      var next := HiddenSinglesIn(g, scopes[0]);
      HiddenSinglesInEffect(g, scopes[0]);
      SweepRefines(next, scopes[1..]);
      RoundTripRefinement(g, next, Sweep(next, scopes[1..]));
      HiddenScanStalled(g, EmptyCells(g, scopes[0], 81));
      SweepStalled(g, scopes[1..]);
      assert forall k :: 1 <= k < |scopes| ==> scopes[k] == scopes[1..][k - 1];
    }
  }

  /** A round that changes nothing changes nothing at either of its stages. */
  lemma StalledRoundStallsEachStage(g: Grid)
    requires Lookup(g) == g
    ensures NakedFixpoint(g) == g && Sweep(g, LookupScopes()) == g
  {
    var n := NakedFixpoint(g);
    LookupIsSweep(g);
    NakedFixpointEffect(g);
    SweepRefines(n, LookupScopes());
    RoundTripRefinement(g, n, Lookup(g));
  }

  /**
   * A round that changes nothing leaves no empty tile with exactly one candidate,
   * and in every block, every row and column 8 each candidate of an empty tile is
   * shared with another empty tile of that group. Columns 0..7 are not covered.
   */
  lemma StalledRoundHasNoSingle(g: Grid)
    requires Lookup(g) == g
    ensures forall j :: 0 <= j < 81 ==> g[j] != 0 || |Cands(g, j)| != 1
    ensures forall k :: 0 <= k < 9 ==> NoHiddenSingle(g, InBlock(k)) && NoHiddenSingle(g, InRow(k))
    ensures NoHiddenSingle(g, InColumn(8))
  {
    StalledRoundStallsEachStage(g);
    StalledStagesHaveNoSingle(g);
  }

  lemma StalledStagesHaveNoSingle(g: Grid)
    requires NakedFixpoint(g) == g && Sweep(g, LookupScopes()) == g
    ensures forall j :: 0 <= j < 81 ==> g[j] != 0 || |Cands(g, j)| != 1
    ensures forall k :: 0 <= k < 9 ==> NoHiddenSingle(g, InBlock(k)) && NoHiddenSingle(g, InRow(k))
    ensures NoHiddenSingle(g, InColumn(8))
  {
    NakedFixpointEffect(g);
    SweepStalled(g, LookupScopes());
    var scopes := LookupScopes();
    forall k | 0 <= k < 9 ensures NoHiddenSingle(g, InBlock(k)) && NoHiddenSingle(g, InRow(k)) {
      assert scopes[k] == InBlock(k) && scopes[9 + k] == InRow(k);
    }
    assert scopes[18] == InColumn(8);
  }
}
