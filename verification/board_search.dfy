// The search half of a solver step: deciding whether propagation changed the
// board, ordering the empty tiles by their number of candidates, and turning
// the stored search index into a (tile, value) guess.

module Search {
  import opened Tile
  import opened Groups
  import opened Propagation

  // ---------------------------------------------------------------------
  // `_tiles_same` and `_tiles_to_dict_possible_values`

  /** Every empty tile, keyed by (row, column), mapped to its candidate list. */
  function CandidateMap(g: Grid): (m: map<(int, int), seq<int>>)
    ensures forall r, c :: (r, c) in m <==> IsCoord(r, c) && IsEmpty(g, r, c)
    ensures forall r, c :: (r, c) in m ==> m[(r, c)] == Candidates(g, r, c)
  {
    map r, c | 0 <= r < 9 && 0 <= c < 9 && g[At(r, c)] == 0 :: (r, c) := Candidates(g, r, c)
  }

  /** The two boards have the same empty tiles with the same candidates. */
  predicate TilesSame(g: Grid, h: Grid) {
    CandidateMap(g) == CandidateMap(h)
  }

  /** When h only fills empty tiles of g, the comparison of candidate maps sees
      every change: it reports "same" exactly when nothing was written. */
  lemma TilesSameIffUnchanged(g: Grid, h: Grid)
    requires Fills(g, h)
    ensures TilesSame(g, h) <==> g == h
  {
    if g != h {
      var i :| 0 <= i < 81 && g[i] != h[i];
      var r, c := i / 9, i % 9;
      assert At(r, c) == i;
      assert (r, c) in CandidateMap(g) && (r, c) !in CandidateMap(h);
    }
  }

  // ---------------------------------------------------------------------
  // `nposs_vals` and `np.argsort`

  /** The number of candidates of each empty tile, in row-major order. */
  function CandidateCounts(g: Grid): (counts: seq<nat>)
    ensures |counts| == |EmptyTiles(g)|
    ensures forall k :: 0 <= k < |counts| ==> counts[k] == |Cands(g, EmptyTiles(g)[k])| <= 9
  {
    var cells := EmptyTiles(g);
    seq(|cells|, k requires 0 <= k < |cells| => |Cands(g, cells[k])|)
  }

  predicate AtMostNine(counts: seq<nat>) {
    forall p :: 0 <= p < |counts| ==> counts[p] <= 9
  }

  /** Positions p..|counts|-1 whose count is exactly n, ascending. */
  function WithCount(counts: seq<nat>, n: nat, p: nat): seq<nat>
    requires p <= |counts|
    decreases |counts| - p
  {
    if p == |counts| then []
    else if counts[p] == n then [p] + WithCount(counts, n, p + 1)
    else WithCount(counts, n, p + 1)
  }

  /** The bucket holds, in ascending order, exactly the positions from p on
      whose count is n. */
  lemma {:induction false} WithCountFacts(counts: seq<nat>, n: nat, p: nat)
    requires p <= |counts|
    decreases |counts| - p
    ensures var ps := WithCount(counts, n, p);
      (forall k :: 0 <= k < |ps| ==> p <= ps[k]) &&
      (forall k, l :: 0 <= k < l < |ps| ==> ps[k] < ps[l]) &&
      (forall q :: q in ps <==> p <= q < |counts| && counts[q] == n)
  {
    if p < |counts| {
      WithCountFacts(counts, n, p + 1);
      var rest := WithCount(counts, n, p + 1);
      if counts[p] == n {
        var ps := [p] + rest;
        assert forall k :: 1 <= k < |ps| ==> ps[k] == rest[k - 1];
      }
    }
  }

  /** Positions p..|counts|-1 whose count is at least n, ascending. */
  function AtLeast(counts: seq<nat>, n: nat, p: nat): (ps: seq<nat>)
    requires p <= |counts|
    decreases |counts| - p
  {
    if p == |counts| then []
    else if n <= counts[p] then [p] + AtLeast(counts, n, p + 1)
    else AtLeast(counts, n, p + 1)
  }

  /** Splitting off the bucket of count n from those of count at least n. */
  lemma {:induction false} AtLeastSplits(counts: seq<nat>, n: nat, p: nat)
    requires p <= |counts|
    decreases |counts| - p
    ensures multiset(AtLeast(counts, n, p)) ==
      multiset(WithCount(counts, n, p)) + multiset(AtLeast(counts, n + 1, p))
  {
    if p < |counts| {
      AtLeastSplits(counts, n, p + 1);
      var all, bucket, later := AtLeast(counts, n, p + 1), WithCount(counts, n, p + 1), AtLeast(counts, n + 1, p + 1);
      if counts[p] == n {
        assert multiset(AtLeast(counts, n, p)) == multiset{p} + multiset(all) by {
          assert AtLeast(counts, n, p) == [p] + all;
        }
        assert multiset(WithCount(counts, n, p)) == multiset{p} + multiset(bucket) by {
          assert WithCount(counts, n, p) == [p] + bucket;
        }
        assert AtLeast(counts, n + 1, p) == later;
      } else if n < counts[p] {
        assert multiset(AtLeast(counts, n, p)) == multiset{p} + multiset(all) by {
          assert AtLeast(counts, n, p) == [p] + all;
        }
        assert WithCount(counts, n, p) == bucket;
        assert multiset(AtLeast(counts, n + 1, p)) == multiset{p} + multiset(later) by {
          assert AtLeast(counts, n + 1, p) == [p] + later;
        }
      } else {
        assert AtLeast(counts, n, p) == all;
        assert WithCount(counts, n, p) == bucket;
        assert AtLeast(counts, n + 1, p) == later;
      }
    }
  }

  /** With counts at most 9, no position has a count of 10 or more. */
  lemma {:induction false} AtLeastTenIsEmpty(counts: seq<nat>, p: nat)
    requires p <= |counts| && AtMostNine(counts)
    decreases |counts| - p
    ensures AtLeast(counts, 10, p) == []
  {
    if p < |counts| {
      AtLeastTenIsEmpty(counts, p + 1);
    }
  }

  /** Every position from p on has count at least 0: each occurs once. */
  lemma {:induction false} AtLeastZeroIsAll(counts: seq<nat>, p: nat)
    requires p <= |counts|
    decreases |counts| - p
    ensures |AtLeast(counts, 0, p)| == |counts| - p
    ensures forall q :: multiset(AtLeast(counts, 0, p))[q] == if p <= q < |counts| then 1 else 0
  {
    if p < |counts| {
      AtLeastZeroIsAll(counts, p + 1);
    }
  }

  /** order lists positions by ascending count. */
  predicate SortedBy(counts: seq<nat>, order: seq<nat>)
    requires forall k :: 0 <= k < |order| ==> order[k] < |counts|
  {
    forall k, l :: 0 <= k < l < |order| ==> counts[order[k]] <= counts[order[l]]
  }

  /** order keeps positions of equal count in their original order. */
  predicate StableBy(counts: seq<nat>, order: seq<nat>)
    requires forall k :: 0 <= k < |order| ==> order[k] < |counts|
  {
    forall k, l :: 0 <= k < l < |order| && counts[order[k]] == counts[order[l]] ==> order[k] < order[l]
  }

  /** The bucket of count n, ascending, followed by positions of larger count
      that are sorted and stable, is sorted and stable. */
  lemma BucketThenRest(counts: seq<nat>, n: nat, bucket: seq<nat>, rest: seq<nat>)
    requires forall k :: 0 <= k < |bucket| ==> bucket[k] < |counts| && counts[bucket[k]] == n
    requires forall k, l :: 0 <= k < l < |bucket| ==> bucket[k] < bucket[l]
    requires forall k :: 0 <= k < |rest| ==> rest[k] < |counts| && n + 1 <= counts[rest[k]]
    requires SortedBy(counts, rest) && StableBy(counts, rest)
    ensures forall k :: 0 <= k < |bucket + rest| ==> (bucket + rest)[k] < |counts|
    ensures SortedBy(counts, bucket + rest) && StableBy(counts, bucket + rest)
  {
    var order := bucket + rest;
    forall k, l | 0 <= k < l < |order|
      ensures counts[order[k]] <= counts[order[l]]
      ensures counts[order[k]] == counts[order[l]] ==> order[k] < order[l]
    {
      if l < |bucket| {
        assert order[k] == bucket[k] && order[l] == bucket[l];
      } else if k >= |bucket| {
        assert order[k] == rest[k - |bucket|] && order[l] == rest[l - |bucket|];
      } else {
        assert order[k] == bucket[k] && order[l] == rest[l - |bucket|];
      }
    }
  }

  /** The buckets n, n + 1, ..., 9 one after the other. */
  function SortFrom(counts: seq<nat>, n: nat): (order: seq<nat>)
    requires n <= 10 && AtMostNine(counts)
    decreases 10 - n
    ensures multiset(order) == multiset(AtLeast(counts, n, 0))
    ensures forall k :: 0 <= k < |order| ==> order[k] < |counts| && n <= counts[order[k]]
    ensures SortedBy(counts, order) && StableBy(counts, order)
  {
    if n == 10 then
      AtLeastTenIsEmpty(counts, 0);
      []
    else
      AtLeastSplits(counts, n, 0);
      var bucket := WithCount(counts, n, 0);
      WithCountFacts(counts, n, 0);
      var rest := SortFrom(counts, n + 1);
      assert forall k :: 0 <= k < |bucket| ==> bucket[k] in bucket;
      BucketThenRest(counts, n, bucket, rest);
      var order := bucket + rest;
      assert forall k :: 0 <= k < |order| ==> n <= counts[order[k]] by {
        forall k | 0 <= k < |order| ensures n <= counts[order[k]] {
          if k < |bucket| {
            assert order[k] == bucket[k];
          } else {
            assert order[k] == rest[k - |bucket|];
          }
        }
      }
      order
  }

  /** The stable argsort of the counts (`np.argsort` with a stable kind): the
      buckets of count 0, 1, ..., 9, each in ascending position order. */
  function ArgSort(counts: seq<nat>): (order: seq<nat>)
    requires AtMostNine(counts)
    ensures |order| == |counts|
    ensures forall k :: 0 <= k < |order| ==> order[k] < |counts|
  {
    AtLeastZeroIsAll(counts, 0);
    var order := SortFrom(counts, 0);
    assert |multiset(order)| == |multiset(AtLeast(counts, 0, 0))|;
    order
  }

  /** The argsort is a permutation of the positions 0..|counts|-1 that lists
      them by ascending count, and positions of equal count in their original
      order. */
  lemma ArgSortIsStableSort(counts: seq<nat>)
    requires AtMostNine(counts)
    ensures forall p :: multiset(ArgSort(counts))[p] == if 0 <= p < |counts| then 1 else 0
    ensures SortedBy(counts, ArgSort(counts)) && StableBy(counts, ArgSort(counts))
  {
    AtLeastZeroIsAll(counts, 0);
  }

  /** The counts rearranged by a permutation of their positions. */
  function Permuted(counts: seq<nat>, order: seq<nat>): (sorted: seq<nat>)
    requires forall k :: 0 <= k < |order| ==> order[k] < |counts|
    ensures |sorted| == |order|
    ensures forall k :: 0 <= k < |order| ==> sorted[k] == counts[order[k]]
  {
    seq(|order|, k requires 0 <= k < |order| => counts[order[k]])
  }

  // ---------------------------------------------------------------------
  // From the search index to a guess

  /** Sum of a sequence of counts (`np.sum`). */
  function Sum(xs: seq<nat>): nat {
    if xs == [] then 0 else Sum(xs[..|xs| - 1]) + xs[|xs| - 1]
  }

  /** Sum of the counts of the first m + 1 tiles: `np.sum(nposs_vals[: m + 1])`. */
  function Through(counts: seq<nat>, m: nat): nat
    requires m < |counts|
  {
    Sum(counts[..m + 1])
  }

  /**
   * What the guess loop picks for search index s: tile ii is the first whose
   * running total reaches s, and the value index is s minus the total of the
   * tiles before it.
   */
  predicate SelectsGuess(counts: seq<nat>, s: int, ii: int, j: int) {
    0 <= s && 0 <= ii < |counts| && s <= Through(counts, ii) &&
    (forall m :: 0 <= m < ii ==> Through(counts, m) < s) &&
    j == s - Sum(counts[..ii])
  }

  lemma SumSplit(xs: seq<nat>, m: nat)
    requires m < |xs|
    ensures Sum(xs[..m + 1]) == Sum(xs[..m]) + xs[m]
  {
    assert xs[..m + 1][..m] == xs[..m];
  }

  /** The running totals do not decrease. */
  lemma {:induction false} ThroughMonotone(counts: seq<nat>, m: nat, n: nat)
    requires m <= n < |counts|
    decreases n - m
    ensures Through(counts, m) <= Through(counts, n)
  {
    if m < n {
      ThroughMonotone(counts, m, n - 1);
      SumSplit(counts, n);
    }
  }

  /** The guess loop: the first tile whose running total is not below s. The
      loop always breaks, because s is below the total of all counts. */
  method SelectGuess(counts: seq<nat>, s: nat) returns (ii: nat, j: int)
    requires s < Sum(counts)
    ensures SelectsGuess(counts, s, ii, j)
  {
    assert counts != [] && counts[..|counts|] == counts;
    for k := 0 to |counts|
      invariant forall m :: 0 <= m < k ==> Through(counts, m) < s
      invariant 0 < k ==> Through(counts, k - 1) < s
    {
      var total := Sum(counts[..k + 1]);
      if !(total < s) {
        ii, j := k, s - Sum(counts[..k]);
        return;
      }
    }
    assert false;
  }

  /** The value index lies in 0..counts[ii], and it equals counts[ii], past the
      end of the tile's candidate list, exactly when s is the running total
      through tile ii. */
  lemma GuessIndexRange(counts: seq<nat>, s: int, ii: int, j: int)
    requires SelectsGuess(counts, s, ii, j)
    ensures 0 <= j <= counts[ii]
    ensures j == counts[ii] <==> s == Through(counts, ii)
  {
    SumSplit(counts, ii);
    if ii > 0 {
      assert Through(counts, ii - 1) < s;
      assert counts[..ii - 1 + 1] == counts[..ii];
    } else {
      assert counts[..0] == [];
    }
  }

  /** The loop's choice is determined by s. */
  lemma GuessIsUnique(counts: seq<nat>, s: int, ii: int, j: int, ii': int, j': int)
    requires SelectsGuess(counts, s, ii, j) && SelectsGuess(counts, s, ii', j')
    ensures ii == ii' && j == j'
  {
  }

  /** With no zero count, no running total other than the selected tile's
      can equal the search index. */
  lemma OtherTotalsMissIndex(counts: seq<nat>, s: int, ii: int, j: int, m: int)
    requires SelectsGuess(counts, s, ii, j) && 0 !in counts && 0 <= m < |counts| && m != ii
    ensures Through(counts, m) != s
  {
    if m > ii {
      ThroughMonotone(counts, ii + 1, m);
      SumSplit(counts, ii + 1);
      assert counts[ii + 1] in counts;
    }
  }

  /** A tile after the first is never tried with its first candidate: its value
      index is always at least 1. */
  lemma LaterTilesSkipFirstCandidate(counts: seq<nat>, s: int, ii: int, j: int)
    requires SelectsGuess(counts, s, ii, j) && ii > 0
    ensures j >= 1
  {
    assert Through(counts, ii - 1) < s;
    assert counts[..ii - 1 + 1] == counts[..ii];
  }

  /** Search index counts[0] already runs past the first tile's list, for every
      positive first count. */
  lemma FirstTotalIsOutOfRange(counts: seq<nat>)
    requires |counts| > 0 && counts[0] > 0
    ensures SelectsGuess(counts, counts[0], 0, counts[0])
  {
    assert counts[..1] == [counts[0]];
    assert counts[..0] == [];
  }

  /** The (tile, value-index) pairs listed tile by tile: the flattening of the
      candidate lists that the search index counts through. */
  function FlatPairs(counts: seq<nat>): (ps: seq<(nat, nat)>)
    ensures |ps| == Sum(counts)
    ensures forall k :: 0 <= k < |ps| ==> ps[k].0 < |counts| && ps[k].1 < counts[ps[k].0]
  {
    if counts == [] then []
    else
      var n := |counts| - 1;
      var front := FlatPairs(counts[..n]);
      front + seq(counts[n], v => (n, v))
  }

  /** Value index v of tile m is entry Sum(counts[..m]) + v of the flattened
      list: the tiles' candidates follow each other in order. */
  lemma {:induction false} FlatPairsAt(counts: seq<nat>, m: int, v: int)
    requires 0 <= m < |counts| && 0 <= v < counts[m]
    ensures Sum(counts[..m]) + v < |FlatPairs(counts)|
    ensures FlatPairs(counts)[Sum(counts[..m]) + v] == (m, v)
    decreases |counts|
  {
    var n := |counts| - 1;
    var front := counts[..n];
    var tail := seq(counts[n], w => (n, w));
    assert FlatPairs(counts) == FlatPairs(front) + tail;
    if m < n {
      assert front[m] == counts[m] && front[..m] == counts[..m];
      FlatPairsAt(front, m, v);
    } else {
      assert front == counts[..m];
      assert FlatPairs(counts)[Sum(counts[..m]) + v] == tail[v];
    }
  }

  /** A choice among the tiles before the last is the same choice on the
      counts without the last tile. */
  lemma SelectsInFront(counts: seq<nat>, s: int, ii: int, j: int)
    requires SelectsGuess(counts, s, ii, j) && ii < |counts| - 1
    ensures SelectsGuess(counts[..|counts| - 1], s, ii, j)
  {
    var front := counts[..|counts| - 1];
    forall m | 0 <= m <= ii ensures Through(front, m) == Through(counts, m) {
      assert front[..m + 1] == counts[..m + 1];
    }
    assert front[..ii] == counts[..ii];
  }

  /** A choice on the counts without the last tile is the same choice on all
      of them. */
  lemma FrontSelects(counts: seq<nat>, s: int, ii: int, j: int)
    requires counts != [] && SelectsGuess(counts[..|counts| - 1], s, ii, j)
    ensures SelectsGuess(counts, s, ii, j)
  {
    var front := counts[..|counts| - 1];
    forall m | 0 <= m <= ii ensures Through(front, m) == Through(counts, m) {
      assert front[..m + 1] == counts[..m + 1];
    }
    assert front[..ii] == counts[..ii];
  }

  /** When s lies above the total of all tiles but the last, and not above the
      total, the last tile is chosen. */
  lemma LastSelects(counts: seq<nat>, s: nat)
    requires counts != [] && s <= Sum(counts)
    requires |counts| > 1 ==> Sum(counts[..|counts| - 1]) < s
    ensures SelectsGuess(counts, s, |counts| - 1, s - Sum(counts[..|counts| - 1]))
  {
    var n := |counts| - 1;
    assert counts[..n + 1] == counts;
    forall m | 0 <= m < n ensures Through(counts, m) < s {
      ThroughMonotone(counts, m, n - 1);
      assert counts[..n - 1 + 1] == counts[..n];
    }
  }

  /** Whenever the chosen value index is in range, the guess is entry s of the
      flattened list. */
  lemma {:induction false} GuessInRangeIsFlatEntry(counts: seq<nat>, s: int, ii: int, j: int)
    requires SelectsGuess(counts, s, ii, j) && j < counts[ii]
    ensures 0 <= s < |FlatPairs(counts)| && FlatPairs(counts)[s] == (ii, j)
    decreases |counts|
  {
    var n := |counts| - 1;
    var front := counts[..n];
    var tail := seq(counts[n], v => (n, v));
    assert FlatPairs(counts) == FlatPairs(front) + tail;
    if ii < n {
      SelectsInFront(counts, s, ii, j);
      assert front[ii] == counts[ii];
      GuessInRangeIsFlatEntry(front, s, ii, j);
      assert FlatPairs(counts)[s] == FlatPairs(front)[s];
    } else {
      GuessIndexRange(counts, s, ii, j);
      assert front == counts[..ii];
      assert s - |FlatPairs(front)| == j;
      assert FlatPairs(counts)[s] == tail[j];
    }
  }

  /** Some choice exists for every index below the total. */
  lemma {:induction false} GuessExistsFrom(counts: seq<nat>, s: nat, m: nat)
    requires m < |counts| && s <= Through(counts, |counts| - 1)
    requires forall k :: 0 <= k < m ==> Through(counts, k) < s
    ensures exists ii, j :: SelectsGuess(counts, s, ii, j)
    decreases |counts| - m
  {
    if s <= Through(counts, m) {
      assert SelectsGuess(counts, s, m, s - Sum(counts[..m]));
    } else {
      GuessExistsFrom(counts, s, m + 1);
    }
  }

  // ---------------------------------------------------------------------
  // The decision taken when propagation is stuck

  /** The candidate counts of the empty tiles, in argsort order. */
  function SortedCounts(g: Grid): (sorted: seq<nat>)
    ensures |sorted| == |EmptyTiles(g)|
  {
    var counts := CandidateCounts(g);
    Permuted(counts, ArgSort(counts))
  }

  /** A zero count is an empty tile without candidates. */
  lemma ZeroCountIsDeadTile(g: Grid)
    ensures 0 in CandidateCounts(g) <==>
      exists k :: 0 <= k < |EmptyTiles(g)| && Cands(g, EmptyTiles(g)[k]) == []
  {
    var counts := CandidateCounts(g);
    if 0 in counts {
      var k :| 0 <= k < |counts| && counts[k] == 0;
      assert Cands(g, EmptyTiles(g)[k]) == [];
    }
    if exists k :: 0 <= k < |EmptyTiles(g)| && Cands(g, EmptyTiles(g)[k]) == [] {
      var k :| 0 <= k < |EmptyTiles(g)| && Cands(g, EmptyTiles(g)[k]) == [];
      assert counts[k] == 0;
    }
  }

  /** Where the guess loop stops for search index s on the sorted counts: the
      first tile whose running total reaches s, and s minus the total before it. */
  function Locate(sorted: seq<nat>, s: nat): (pick: (nat, int))
    requires sorted != [] && s <= Sum(sorted)
    ensures SelectsGuess(sorted, s, pick.0, pick.1)
    decreases |sorted|
  {
    var n := |sorted| - 1;
    var front := sorted[..n];
    assert sorted[..n + 1] == sorted;
    if n > 0 && s <= Sum(front) then
      var pick := Locate(front, s);
      FrontSelects(sorted, s, pick.0, pick.1);
      pick
    else
      LastSelects(sorted, s);
      (n, s - Sum(front))
  }

  /** The stuck branch on the candidate counts alone: no choice when a count is
      zero, none when s has run past the total, otherwise the index of the
      chosen tile in the list of empty tiles and the value index. */
  datatype Choice = NoCandidate | PastTotal | Pick(pos: nat, j: int)

  function Choose(counts: seq<nat>, s: nat): (ch: Choice)
    requires AtMostNine(counts)
    ensures ch.NoCandidate? <==> 0 in counts
    ensures ch.Pick? ==> ch.pos < |counts| && 0 <= ch.j <= counts[ch.pos]
    ensures ch.Pick? ==>
      exists ii :: 0 <= ii < |counts| && ch.pos == ArgSort(counts)[ii] &&
        SelectsGuess(Permuted(counts, ArgSort(counts)), s, ii, ch.j)
  {
    if 0 in counts then NoCandidate
    else
      var order := ArgSort(counts);
      var sorted := Permuted(counts, order);
      if s < Sum(sorted) then
        var pick := Locate(sorted, s);
        GuessIndexRange(sorted, s, pick.0, pick.1);
        Pick(order[pick.0], pick.1)
      else
        PastTotal
  }

  /** Past the total exactly when s reaches the sum of the counts; a pick's value
      index reaches the tile's count exactly when s is a running total of the
      sorted counts. */
  lemma ChooseAgainstTotal(counts: seq<nat>, s: nat)
    requires AtMostNine(counts) && 0 !in counts
    ensures Choose(counts, s).PastTotal? <==> Sum(Permuted(counts, ArgSort(counts))) <= s
    ensures Choose(counts, s).Pick? ==>
      var sorted := Permuted(counts, ArgSort(counts));
      (Choose(counts, s).j == counts[Choose(counts, s).pos] <==>
       exists ii :: 0 <= ii < |sorted| && s == Through(sorted, ii))
  {
    var order := ArgSort(counts);
    var sorted := Permuted(counts, order);
    if s < Sum(sorted) {
      var pick := Locate(sorted, s);
      assert Choose(counts, s) == Pick(order[pick.0], pick.1);
      assert 0 !in sorted by {
        forall k | 0 <= k < |sorted| ensures sorted[k] != 0 {
          assert counts[order[k]] in counts;
        }
      }
      assert counts[order[pick.0]] == sorted[pick.0];
      PickHitsTotal(sorted, s, pick.0, pick.1);
    } else {
      assert Choose(counts, s) == PastTotal;
    }
  }

  /** With no zero count, the selected value index reaches the tile's count
      exactly when s is one of the running totals. */
  lemma PickHitsTotal(sorted: seq<nat>, s: int, ii: int, j: int)
    requires SelectsGuess(sorted, s, ii, j) && 0 !in sorted
    ensures j == sorted[ii] <==> exists k :: 0 <= k < |sorted| && s == Through(sorted, k)
  {
    GuessIndexRange(sorted, s, ii, j);
    forall k | 0 <= k < |sorted| && k != ii ensures Through(sorted, k) != s {
      OtherTotalsMissIndex(sorted, s, ii, j, k);
    }
    if j == sorted[ii] {
      assert s == Through(sorted, ii);
    }
  }

  datatype Decision = DeadEnd | Exhausted | Try(cell: int, value: int) | OutOfRange

  /**
   * What a stuck step does with search index s: revert when some empty tile
   * has no candidate, revert when the index has run past the total number of
   * candidates, otherwise guess the tile and value the index selects, or fail
   * when the value index runs one past the tile's candidate list.
   */
  function Decide(g: Grid, s: nat): (d: Decision)
    ensures d.Try? ==> 0 <= d.cell < 81
  {
    var cells := EmptyTiles(g);
    var counts := CandidateCounts(g);
    match Choose(counts, s)
    case NoCandidate => DeadEnd
    case PastTotal => Exhausted
    case Pick(p, j) =>
      var vals := Cands(g, cells[p]);
      if j < |vals| then Try(cells[p], vals[j]) else OutOfRange
  }

  /** A stuck step reverts as a dead end exactly when some empty tile has no
      candidate left. */
  lemma DecideDeadEnd(g: Grid, s: nat)
    ensures Decide(g, s).DeadEnd? <==>
      exists k :: 0 <= k < |EmptyTiles(g)| && Cands(g, EmptyTiles(g)[k]) == []
  {
    ZeroCountIsDeadTile(g);
  }

  /** It reverts as exhausted exactly when no tile is dead and the index has
      reached the total number of candidates. */
  lemma DecideAgainstTotal(g: Grid, s: nat)
    ensures Decide(g, s).Exhausted? <==> 0 !in CandidateCounts(g) && Sum(SortedCounts(g)) <= s
  {
    var cells := EmptyTiles(g);
    var counts := CandidateCounts(g);
    var ch := Choose(counts, s);
    if 0 !in counts {
      ChooseAgainstTotal(counts, s);
      if ch.Pick? {
        var vals := Cands(g, cells[ch.pos]);
        assert |vals| == counts[ch.pos];
        assert Decide(g, s) == if ch.j < |vals| then Try(cells[ch.pos], vals[ch.j]) else OutOfRange;
      } else {
        assert Decide(g, s) == Exhausted;
      }
    } else {
      assert Decide(g, s) == DeadEnd;
    }
  }

  /** A guess writes one of the candidates of an empty tile. */
  lemma DecideTriesCandidate(g: Grid, s: nat)
    ensures Decide(g, s).Try? ==>
      var d := Decide(g, s);
      g[d.cell] == 0 && d.value in Cands(g, d.cell)
  {
    var d := Decide(g, s);
    if d.Try? {
      var ch := Choose(CandidateCounts(g), s);
      assert ch.Pick?;
      var cell := EmptyTiles(g)[ch.pos];
      EmptyTileIsEmpty(g, ch.pos);
      assert d == Try(cell, Cands(g, cell)[ch.j]);
    }
  }

  /** Every entry of the empty-tile list is an empty tile. */
  lemma EmptyTileIsEmpty(g: Grid, p: int)
    requires 0 <= p < |EmptyTiles(g)|
    ensures 0 <= EmptyTiles(g)[p] < 81 && g[EmptyTiles(g)[p]] == 0
  {
    assert EmptyTiles(g)[p] in EmptyCells(g, Everywhere, 81);
  }

  /** The value index runs past the tile's list exactly at a running total of
      the sorted counts. */
  lemma DecideOutOfRange(g: Grid, s: nat)
    ensures Decide(g, s).OutOfRange? <==>
      0 !in CandidateCounts(g) && s < Sum(SortedCounts(g)) &&
      exists ii :: 0 <= ii < |SortedCounts(g)| && s == Through(SortedCounts(g), ii)
  {
    var cells := EmptyTiles(g);
    var counts := CandidateCounts(g);
    var ch := Choose(counts, s);
    if 0 !in counts {
      ChooseAgainstTotal(counts, s);
      if ch.Pick? {
        var vals := Cands(g, cells[ch.pos]);
        assert |vals| == counts[ch.pos];
        assert Decide(g, s) == if ch.j < |vals| then Try(cells[ch.pos], vals[ch.j]) else OutOfRange;
      } else {
        assert Decide(g, s) == Exhausted;
      }
    } else {
      assert Decide(g, s) == DeadEnd;
    }
  }

  /** With a second tile of positive count, the first tile's running total
      lies below the total. */
  lemma FirstTotalBelowSum(sorted: seq<nat>)
    requires |sorted| >= 2 && sorted[1] != 0
    ensures Through(sorted, 0) == sorted[0] < Sum(sorted)
  {
    var n := |sorted| - 1;
    assert sorted[..1] == [sorted[0]];
    assert sorted[..1][..0] == [];
    SumSplit(sorted, 1);
    ThroughMonotone(sorted, 1, n);
    assert sorted[..n + 1] == sorted;
  }

  /** With no dead tile and at least two empty tiles, the search index equal to
      the smallest count lies below the total, so the step fails with the value
      index one past that tile's candidates. */
  lemma FirstTotalFailsWithAnotherTile(g: Grid)
    requires 0 !in CandidateCounts(g) && |EmptyTiles(g)| >= 2
    ensures Decide(g, SortedCounts(g)[0]).OutOfRange?
  {
    var counts := CandidateCounts(g);
    var sorted := SortedCounts(g);
    assert sorted[1] != 0 by {
      var order := ArgSort(counts);
      assert sorted[1] == counts[order[1]];
      assert counts[order[1]] in counts;
    }
    FirstTotalBelowSum(sorted);
    DecideOutOfRange(g, sorted[0]);
  }

  /**
   * The stuck branch of `step` on the board g with search index s: the
   * candidate counts of the empty tiles, the dead-end check, the argsort, the
   * guess loop and the lookup of the value in the chosen tile's list.
   */
  method StuckDecision(g: Grid, s: nat) returns (d: Decision)
    ensures d == Decide(g, s)
  {
    var cells := EmptyTiles(g);
    var counts := CandidateCounts(g);
    var ch := StuckChoice(counts, s);
    match ch {
      case NoCandidate => return DeadEnd;
      case PastTotal => return Exhausted;
      case Pick(p, j) =>
        var cell := cells[p];
        var vals := Cands(g, cell);
        if j >= |vals| {
          return OutOfRange;
        }
        return Try(cell, vals[j]);
    }
  }

  /** The count-level part of the stuck branch: the dead-end check, the
      argsort, the comparison with the total and the guess loop. */
  method StuckChoice(counts: seq<nat>, s: nat) returns (ch: Choice)
    requires AtMostNine(counts)
    ensures ch == Choose(counts, s)
  {
    if 0 in counts {
      return NoCandidate;
    }
    var order := ArgSort(counts);
    var sorted := Permuted(counts, order);
    if s < Sum(sorted) {
      var ii, j := SelectGuess(sorted, s);
      ghost var pick := Locate(sorted, s);
      GuessIsUnique(sorted, s, ii, j, pick.0, pick.1);
      return Pick(order[ii], j);
    }
    return PastTotal;
  }
}
