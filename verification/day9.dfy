/** Day 9 (smoke basin): a height map, its low points, the basins that drain into
    them, the largest basin sizes, and the parser for the map's text. */
module Day9 {
  import opened Wrappers
  import opened Text
  import opened Seqs
  import opened Grid

  /** `HeightMap`: the heights of a rectangular area. */
  type HeightMap = Grid<nat>

  /** A valid array whose dimensions are `usize` values. */
  predicate Shaped(m: HeightMap) {
    m.Valid() && m.rows <= USIZE_MAX && m.columns <= USIZE_MAX
  }

  /** Two cells side by side, or one right above the other. */
  predicate Orthogonal(a: Index, b: Index) {
    || (a.0 == b.0 && (a.1 + 1 == b.1 || b.1 + 1 == a.1))
    || (a.1 == b.1 && (a.0 + 1 == b.0 || b.0 + 1 == a.0))
  }

  // ------------------------------------------------------------------ neighbours

  /** The up, down, left and right neighbours of `ij`, in that order, each only when
      its coordinates stay inside `usize` (the `when!` guards of `get_adjacents`). */
  function Candidates(ij: Index): (r: seq<Index>)
    ensures |r| <= 4
    ensures forall k :: 0 <= k < |r| ==> Orthogonal(ij, r[k])
  {
    var (i, j) := ij;
    var up := if i > 0 then [(i - 1, j)] else [];
    var down := if i < USIZE_MAX then [(i + 1, j)] else [];
    var left := if j > 0 then [(i, j - 1)] else [];
    var right := if j < USIZE_MAX then [(i, j + 1)] else [];
    up + down + left + right
  }

  /** Every neighbour whose coordinates are `usize` values is a candidate. */
  lemma CandidatesComplete(ij: Index, nb: Index)
    requires Orthogonal(ij, nb) && nb.0 <= USIZE_MAX && nb.1 <= USIZE_MAX
    ensures nb in Candidates(ij)
  {
  }

  /** Neighbourhood is symmetric between cells whose coordinates are `usize` values. */
  lemma CandidatesSymmetric(p: Index, q: Index)
    requires q in Candidates(p) && p.0 <= USIZE_MAX && p.1 <= USIZE_MAX
    ensures p in Candidates(q)
  {
    CandidatesComplete(q, p);
  }

  /** The in-bounds cells of `cs`, in order, paired with their heights
      (`filter_map(|ij| self.get(ij).map(|v| (ij, v)))`). */
  function WithHeights(m: HeightMap, cs: seq<Index>): (r: seq<(Index, nat)>)
    requires m.Valid()
    ensures |r| <= |cs|
    ensures forall k :: 0 <= k < |r| ==> r[k].0 in cs && m.InBounds(r[k].0) && r[k].1 == m.At(r[k].0)
    ensures forall c :: c in cs && m.InBounds(c) ==> (c, m.At(c)) in r
  {
    if |cs| == 0 then []
    else
      var rest := WithHeights(m, cs[1..]);
      match m.Get(cs[0])
      case None => rest
      case Some(v) => [(cs[0], v)] + rest
  }

  /** `get_adjacents`: at most four entries, each an in-bounds orthogonal neighbour
      (never the cell itself) with its height. */
  function Adjacents(m: HeightMap, ij: Index): (r: seq<(Index, nat)>)
    requires m.Valid()
    ensures |r| <= 4
    ensures forall k :: 0 <= k < |r| ==>
      && m.InBounds(r[k].0) && r[k].0 in Candidates(ij) && r[k].1 == m.At(r[k].0)
      && Orthogonal(ij, r[k].0) && r[k].0 != ij
  {
    WithHeights(m, Candidates(ij))
  }

  /** On a map with `usize` dimensions the neighbours listed are exactly the in-bounds
      orthogonal ones. */
  lemma AdjacentsExact(m: HeightMap, ij: Index, nb: Index, v: nat)
    requires Shaped(m)
    ensures (nb, v) in Adjacents(m, ij) <==> m.InBounds(nb) && Orthogonal(ij, nb) && v == m.At(nb)
  {
    if m.InBounds(nb) && Orthogonal(ij, nb) && v == m.At(nb) {
      CandidatesComplete(ij, nb);
    }
  }

  // ------------------------------------------------------------------ low points

  /** `Iterator::min`: `None` on an empty sequence, otherwise its least element. */
  function MinOf(s: seq<nat>): (r: Option<nat>)
    ensures r.None? <==> |s| == 0
    ensures r.Some? ==> r.value in s && forall k :: 0 <= k < |s| ==> r.value <= s[k]
  {
    if |s| == 0 then None
    else match MinOf(s[1..])
      case None => Some(s[0])
      case Some(low) => Some(if s[0] <= low then s[0] else low)
  }

  /** The heights of a list of `(index, height)` pairs. */
  function HeightsOf(ps: seq<(Index, nat)>): (r: seq<nat>)
    ensures |r| == |ps| && forall k :: 0 <= k < |ps| ==> r[k] == ps[k].1
  {
    if |ps| == 0 then [] else [ps[0].1] + HeightsOf(ps[1..])
  }

  /** `is_minima`: false outside the map, true for a cell without neighbours, and
      otherwise whether the cell is lower than its lowest neighbour. */
  function IsMinima(m: HeightMap, ij: Index): (r: bool)
    requires m.Valid()
    ensures r ==> m.InBounds(ij)
  {
    var center := m.Get(ij);
    var low := MinOf(HeightsOf(Adjacents(m, ij)));
    if center.None? then false
    else if low.None? then true
    else center.value < low.value
  }

  /** A low point is an in-bounds cell strictly lower than every in-bounds orthogonal
      neighbour; in particular a cell with no neighbours is one. */
  lemma IsMinimaSpec(m: HeightMap, ij: Index)
    requires Shaped(m)
    ensures IsMinima(m, ij) <==>
      m.InBounds(ij) && forall nb :: m.InBounds(nb) && Orthogonal(ij, nb) ==> m.At(ij) < m.At(nb)
  {
    var adj := Adjacents(m, ij);
    var hs := HeightsOf(adj);
    if m.InBounds(ij) {
      if IsMinima(m, ij) {
        forall nb | m.InBounds(nb) && Orthogonal(ij, nb)
          ensures m.At(ij) < m.At(nb)
        {
          AdjacentsExact(m, ij, nb, m.At(nb));
          var k := Seqs.IndexOf(adj, (nb, m.At(nb)));
          assert hs[k] == m.At(nb);
        }
      }
      if forall nb :: m.InBounds(nb) && Orthogonal(ij, nb) ==> m.At(ij) < m.At(nb) {
        var low := MinOf(hs);
        if low.Some? {
          var k := Seqs.IndexOf(hs, low.value);
          assert m.InBounds(adj[k].0) && Orthogonal(ij, adj[k].0);
        }
      }
    }
  }

  /** The `h + 1` of every cell of `cs` that `isLow` selects, in order (the
      `filter(..).map(|(_, &h)| h + 1)` of `minimas`). */
  function LowRisks(m: HeightMap, cs: seq<Index>, isLow: Index -> bool): (r: seq<nat>)
    requires m.Valid() && forall c :: isLow(c) ==> m.InBounds(c)
    ensures |r| <= |cs|
  {
    if |cs| == 0 then []
    else (if isLow(cs[0]) then [m.At(cs[0]) + 1] else []) + LowRisks(m, cs[1..], isLow)
  }

  /** `minimas`: the `h + 1` of every low point, in row-major order. */
  function Minimas(m: HeightMap): seq<nat>
    requires m.Valid()
  {
    LowRisks(m, Indices(m.rows, m.columns), c => IsMinima(m, c))
  }

  lemma {:induction false} LowRisksSound(m: HeightMap, cs: seq<Index>, isLow: Index -> bool, x: nat) returns (k: nat)
    requires m.Valid() && (forall c :: isLow(c) ==> m.InBounds(c)) && x in LowRisks(m, cs, isLow)
    ensures k < |cs| && isLow(cs[k]) && x == m.At(cs[k]) + 1
    decreases |cs|
  {
    if isLow(cs[0]) && x == m.At(cs[0]) + 1 {
      k := 0;
    } else {
      var k' := LowRisksSound(m, cs[1..], isLow, x);
      k := k' + 1;
    }
  }

  lemma {:induction false} LowRisksComplete(m: HeightMap, cs: seq<Index>, isLow: Index -> bool, k: nat, ij: Index)
    requires m.Valid() && (forall c :: isLow(c) ==> m.InBounds(c))
    requires isLow(ij) && k < |cs| && cs[k] == ij
    ensures m.At(ij) + 1 in LowRisks(m, cs, isLow)
    decreases k
  {
    if k > 0 {
      LowRisksComplete(m, cs[1..], isLow, k - 1, ij);
    }
  }

  /** Every entry of `minimas` is `h + 1` for some low point of height `h`. */
  lemma MinimasSound(m: HeightMap, x: nat) returns (ij: Index)
    requires m.Valid() && x in Minimas(m)
    ensures IsMinima(m, ij) && x == m.At(ij) + 1
  {
    var k := LowRisksSound(m, Indices(m.rows, m.columns), c => IsMinima(m, c), x);
    ij := Indices(m.rows, m.columns)[k];
  }

  /** Every low point contributes its `h + 1` to `minimas`. */
  lemma MinimasComplete(m: HeightMap, ij: Index)
    requires m.Valid() && IsMinima(m, ij)
    ensures m.At(ij) + 1 in Minimas(m)
  {
    var k := IndexPosition(m.rows, m.columns, ij);
    LowRisksComplete(m, Indices(m.rows, m.columns), c => IsMinima(m, c), k, ij);
  }

  /** The cells of `cs` that `isLow` selects, in order. */
  function Selected(cs: seq<Index>, isLow: Index -> bool): (r: seq<Index>)
    ensures forall c :: c in r <==> c in cs && isLow(c)
  {
    if |cs| == 0 then [] else (if isLow(cs[0]) then [cs[0]] else []) + Selected(cs[1..], isLow)
  }

  /** Selecting from a list without repeats gives a list without repeats. */
  lemma {:induction false} SelectedNoRepeats(cs: seq<Index>, isLow: Index -> bool)
    requires NoRepeats(cs)
    ensures NoRepeats(Selected(cs, isLow))
    decreases |cs|
  {
    if |cs| > 0 {
      assert NoRepeats(cs[1..]) by {
        forall x, y | 0 <= x < y < |cs| - 1
          ensures cs[1..][x] != cs[1..][y]
        {
          assert cs[1..][x] == cs[x + 1] && cs[1..][y] == cs[y + 1];
        }
      }
      SelectedNoRepeats(cs[1..], isLow);
      if isLow(cs[0]) {
        assert cs[0] !in cs[1..] by {
          forall k | 0 <= k < |cs| - 1
            ensures cs[1..][k] != cs[0]
          {
            assert cs[1..][k] == cs[k + 1];
          }
        }
        NoRepeatsConcat([cs[0]], Selected(cs[1..], isLow));
      }
    }
  }

  /** `LowRisks` lists, entry by entry, the `h + 1` of the selected cells. */
  lemma {:induction false} LowRisksSelected(m: HeightMap, cs: seq<Index>, isLow: Index -> bool)
    requires m.Valid() && forall c :: isLow(c) ==> m.InBounds(c)
    ensures |LowRisks(m, cs, isLow)| == |Selected(cs, isLow)|
    ensures forall k :: 0 <= k < |Selected(cs, isLow)| ==>
      LowRisks(m, cs, isLow)[k] == m.At(Selected(cs, isLow)[k]) + 1
    decreases |cs|
  {
    if |cs| > 0 {
      LowRisksSelected(m, cs[1..], isLow);
    }
  }

  /** The low points in row-major order: each low point exactly once. */
  function LowPoints(m: HeightMap): (lows: seq<Index>)
    requires m.Valid()
    ensures NoRepeats(lows)
    ensures forall c :: c in lows <==> IsMinima(m, c)
    ensures forall k :: 0 <= k < |lows| ==> m.InBounds(lows[k])
  {
    var isLow := c => IsMinima(m, c);
    SelectedIndices(m, isLow);
    Selected(Indices(m.rows, m.columns), isLow)
  }

  /** Selecting in-bounds cells from the enumeration of a valid array. */
  lemma SelectedIndices(m: HeightMap, isLow: Index -> bool)
    requires m.Valid() && forall c :: isLow(c) ==> m.InBounds(c)
    ensures var lows := Selected(Indices(m.rows, m.columns), isLow);
      && NoRepeats(lows)
      && (forall c :: c in lows <==> isLow(c))
      && (forall k :: 0 <= k < |lows| ==> m.InBounds(lows[k]))
  {
    var lows := Selected(Indices(m.rows, m.columns), isLow);
    IndicesNoRepeats(m.rows, m.columns);
    SelectedNoRepeats(Indices(m.rows, m.columns), isLow);
    forall c
      ensures c in lows <==> isLow(c)
    {
      IndicesMember(m.rows, m.columns, c);
    }
    forall k | 0 <= k < |lows|
      ensures m.InBounds(lows[k])
    {
      assert isLow(lows[k]);
    }
  }

  /** `minimas` lists the `h + 1` of the low points, entry `k` for the `k`-th low
      point in row-major order, so each low point counts exactly once. */
  lemma MinimasLowPoints(m: HeightMap)
    requires m.Valid()
    ensures |Minimas(m)| == |LowPoints(m)|
    ensures forall k :: 0 <= k < |LowPoints(m)| ==> Minimas(m)[k] == m.At(LowPoints(m)[k]) + 1
  {
    LowRisksSelected(m, Indices(m.rows, m.columns), c => IsMinima(m, c));
  }

  // ------------------------------------------------------------------ basins

  /** The flood fill moves from `p` to a neighbour `q` that is higher than `p` but
      lower than 9. */
  predicate Flows(m: HeightMap, p: Index, q: Index)
    requires m.Valid()
  {
    m.InBounds(p) && m.InBounds(q) && q in Candidates(p) && m.At(p) < m.At(q) < 9
  }

  /** The basin grown from `start`: `start` itself when it is in the map, and every
      cell some basin cell flows into. Heights rise along a flow, so this is well founded. */
  predicate InBasin(m: HeightMap, start: Index, c: Index)
    requires m.Valid()
    decreases if m.InBounds(c) then m.At(c) else 0
  {
    && m.InBounds(c)
    && (|| c == start
        || exists k :: 0 <= k < |Candidates(c)| && Flows(m, Candidates(c)[k], c) && InBasin(m, start, Candidates(c)[k]))
  }

  /** The reference basin as a mask of the map's shape. */
  function BasinMask(m: HeightMap, start: Index): (mask: Grid<bool>)
    requires m.Valid()
    ensures mask.Valid() && mask.rows == m.rows && mask.columns == m.columns
    ensures forall c :: mask.InBounds(c) ==> (mask.At(c) <==> InBasin(m, start, c))
  {
    Grid(m.rows, m.columns, seq(m.rows, i requires 0 <= i => seq(m.columns, j requires 0 <= j => InBasin(m, start, (i, j)))))
  }

  /** A flow out of a basin cell stays in the basin. */
  lemma FlowExtends(m: HeightMap, start: Index, p: Index, q: Index)
    requires Shaped(m) && Flows(m, p, q) && InBasin(m, start, p)
    ensures InBasin(m, start, q)
  {
    CandidatesSymmetric(p, q);
    var k := Seqs.IndexOf(Candidates(q), p);
  }

  /** The neighbours `basin_impl` queues after visiting `p`
      (`filter_map(|(ij, v)| when!(center < v && v < 9, ij))`): exactly those `p` flows into. */
  function Uphill(m: HeightMap, p: Index): (r: seq<Index>)
    requires m.Valid() && m.InBounds(p)
    ensures forall q :: q in r <==> Flows(m, p, q)
  {
    var adj := Adjacents(m, p);
    var r := UphillOf(m, m.At(p), p, adj);
    assert forall q :: Flows(m, p, q) ==> q in r by {
      forall q | Flows(m, p, q)
        ensures q in r
      {
        assert (q, m.At(q)) in WithHeights(m, Candidates(p));
        var k := Seqs.IndexOf(adj, (q, m.At(q)));
      }
    }
    r
  }

  function UphillOf(m: HeightMap, center: nat, p: Index, adj: seq<(Index, nat)>): (r: seq<Index>)
    requires m.Valid() && m.InBounds(p) && center == m.At(p)
    requires forall k :: 0 <= k < |adj| ==>
      m.InBounds(adj[k].0) && adj[k].0 in Candidates(p) && adj[k].1 == m.At(adj[k].0)
    ensures forall q :: q in r ==> Flows(m, p, q)
    ensures forall k :: 0 <= k < |adj| && center < adj[k].1 < 9 ==> adj[k].0 in r
  {
    if |adj| == 0 then []
    else
      var rest := UphillOf(m, center, p, adj[1..]);
      if center < adj[0].1 < 9 then [adj[0].0] + rest else rest
  }

  /** `basin_size`: the number of cells set in a mask. */
  function BasinSize(basin: Grid<bool>): (r: nat)
    ensures r == multiset(basin.Items())[true]
  {
    CountTrue(basin.Items())
  }

  function CountTrue(s: seq<bool>): (r: nat)
    ensures r == multiset(s)[true]
  {
    if |s| == 0 then 0
    else
      assert s == [s[0]] + s[1..];
      (if s[0] then 1 else 0) + CountTrue(s[1..])
  }

  /** Every cell of the map that the reference basin holds is set in a mask that holds
      `start` and is closed under flows. */
  lemma {:induction false} ClosedMaskCovers(m: HeightMap, start: Index, mask: Grid<bool>, c: Index)
    requires m.Valid() && mask.Valid() && mask.rows == m.rows && mask.columns == m.columns
    requires m.InBounds(start) ==> mask.At(start)
    requires forall p, q :: Flows(m, p, q) && mask.At(p) ==> mask.At(q)
    requires InBasin(m, start, c)
    ensures mask.At(c)
    decreases m.At(c)
  {
    if c != start {
      var k :| 0 <= k < |Candidates(c)| && Flows(m, Candidates(c)[k], c) && InBasin(m, start, Candidates(c)[k]);
      ClosedMaskCovers(m, start, mask, Candidates(c)[k]);
    }
  }

  /** What the flood fill keeps true: every visited cell and every queued in-bounds
      cell is in the basin, every flow out of a visited cell ends at a visited or queued
      cell, and `start` is visited or queued. */
  ghost predicate FillInvariant(m: HeightMap, start: Index, visited: Grid<bool>, toVisit: seq<Index>)
    requires m.Valid()
  {
    && visited.Valid() && visited.rows == m.rows && visited.columns == m.columns
    && (forall c :: visited.InBounds(c) && visited.At(c) ==> InBasin(m, start, c))
    && (forall k :: 0 <= k < |toVisit| && m.InBounds(toVisit[k]) ==> InBasin(m, start, toVisit[k]))
    && (forall p, q :: Flows(m, p, q) && visited.At(p) ==> visited.At(q) || q in toVisit)
    && (m.InBounds(start) ==> visited.At(start) || start in toVisit)
  }

  lemma FillBegins(m: HeightMap, start: Index)
    requires m.Valid()
    ensures FillInvariant(m, start, Filled(m.rows, m.columns, false), [start])
  {
  }

  /** Popping an index that is out of bounds or already visited. */
  lemma FillSkips(m: HeightMap, start: Index, visited: Grid<bool>, toVisit: seq<Index>)
    requires m.Valid() && FillInvariant(m, start, visited, toVisit) && |toVisit| > 0
    requires !visited.InBounds(toVisit[0]) || visited.At(toVisit[0])
    ensures FillInvariant(m, start, visited, toVisit[1..])
  {
    assert toVisit == [toVisit[0]] + toVisit[1..];
  }

  /** Visiting a popped cell: mark it and queue the cells it flows into. */
  lemma FillVisits(m: HeightMap, start: Index, visited: Grid<bool>, toVisit: seq<Index>)
    requires Shaped(m) && FillInvariant(m, start, visited, toVisit) && |toVisit| > 0
    requires visited.InBounds(toVisit[0]) && !visited.At(toVisit[0])
    ensures FillInvariant(m, start, visited.Set(toVisit[0], true), toVisit[1..] + Uphill(m, toVisit[0]))
  {
    QueuedInBasin(m, start, visited, toVisit);
    FlowsCovered(m, start, visited, toVisit);
  }

  /** Marking an unmarked cell moves one cell from the unmarked count to the marked count. */
  lemma MarkCounts(visited: Grid<bool>, ij: Index)
    requires visited.Valid() && visited.InBounds(ij) && !visited.At(ij)
    ensures multiset(visited.Set(ij, true).Items())[true] == multiset(visited.Items())[true] + 1
    ensures multiset(visited.Set(ij, true).Items())[false] < multiset(visited.Items())[false]
  {
    AtInItems(visited, ij);
    SetItems(visited, ij, true);
  }

  lemma QueuedInBasin(m: HeightMap, start: Index, visited: Grid<bool>, toVisit: seq<Index>)
    requires Shaped(m) && |toVisit| > 0 && m.InBounds(toVisit[0])
    requires forall k :: 0 <= k < |toVisit| && m.InBounds(toVisit[k]) ==> InBasin(m, start, toVisit[k])
    ensures var toVisit' := toVisit[1..] + Uphill(m, toVisit[0]);
      forall k :: 0 <= k < |toVisit'| && m.InBounds(toVisit'[k]) ==> InBasin(m, start, toVisit'[k])
  {
    var ij := toVisit[0];
    var toVisit' := toVisit[1..] + Uphill(m, ij);
    forall k | 0 <= k < |toVisit'| && m.InBounds(toVisit'[k])
      ensures InBasin(m, start, toVisit'[k])
    {
      if k >= |toVisit| - 1 {
        FlowExtends(m, start, ij, toVisit'[k]);
      } else {
        assert toVisit'[k] == toVisit[k + 1];
      }
    }
  }

  lemma FlowsCovered(m: HeightMap, start: Index, visited: Grid<bool>, toVisit: seq<Index>)
    requires m.Valid() && visited.Valid() && visited.rows == m.rows && visited.columns == m.columns
    requires |toVisit| > 0 && visited.InBounds(toVisit[0])
    requires forall p, q :: Flows(m, p, q) && visited.At(p) ==> visited.At(q) || q in toVisit
    ensures var visited', toVisit' := visited.Set(toVisit[0], true), toVisit[1..] + Uphill(m, toVisit[0]);
      forall p, q :: Flows(m, p, q) && visited'.At(p) ==> visited'.At(q) || q in toVisit'
  {
    var ij := toVisit[0];
    var visited', toVisit' := visited.Set(ij, true), toVisit[1..] + Uphill(m, ij);
    assert toVisit == [ij] + toVisit[1..];
    forall p, q | Flows(m, p, q) && visited'.At(p)
      ensures visited'.At(q) || q in toVisit'
    {
      if p == ij {
        assert q in Uphill(m, ij);
      }
    }
  }

  /** An exhausted queue leaves exactly the reference basin marked. */
  lemma FillEnds(m: HeightMap, start: Index, visited: Grid<bool>)
    requires m.Valid() && FillInvariant(m, start, visited, [])
    ensures visited == BasinMask(m, start)
  {
    forall c | visited.InBounds(c)
      ensures visited.At(c) == BasinMask(m, start).At(c)
    {
      if InBasin(m, start, c) {
        ClosedMaskCovers(m, start, visited, c);
      }
    }
    CellsDetermine(visited, BasinMask(m, start));
  }

  /** `basin` / `basin_impl`: the worklist flood fill from `start`. Out-of-bounds
      indices count as already visited, so an out-of-bounds start yields an empty mask.
      The result is the reference basin, and the count returned is its size. */
  method Basin(m: HeightMap, start: Index) returns (visited: Grid<bool>, size: nat)
    requires Shaped(m)
    ensures visited == BasinMask(m, start)
    ensures size == BasinSize(visited)
  {
    visited := Filled(m.rows, m.columns, false);
    if true in visited.Items() {
      var ij := ItemsMember(visited, true);
    }
    var toVisit: seq<Index> := [start];
    size := 0;
    FillBegins(m, start);
    while |toVisit| > 0
      invariant FillInvariant(m, start, visited, toVisit)
      invariant size == multiset(visited.Items())[true]
      decreases multiset(visited.Items())[false], |toVisit|
    {
      var ij := toVisit[0];
      if !visited.InBounds(ij) || visited.At(ij) {
        FillSkips(m, start, visited, toVisit);
        toVisit := toVisit[1..];
      } else {
        // the `expect` never fails: an index that is not already visited is in bounds
        var center := m.Get(ij).value;
        FillVisits(m, start, visited, toVisit);
        MarkCounts(visited, ij);
        toVisit := toVisit[1..] + Uphill(m, ij);
        visited := visited.Set(ij, true);
        size := size + 1;
      }
    }
    FillEnds(m, start, visited);
  }

  // ------------------------------------------------------------------ largest basins

  /** One step of the `largest_basin_sizes` fold: push, sort in decreasing order, and
      pop the smallest when there are more than `n`. */
  function KeepLargest(largest: seq<int>, size: int, n: nat): (r: seq<int>)
  {
    var sorted := SortDesc(largest + [size]);
    if |sorted| > n then sorted[..|sorted| - 1] else sorted
  }

  /** The fold over a list of sizes, from the first to the last. */
  function Largest(sizes: seq<int>, n: nat): seq<int>
  {
    if |sizes| == 0 then [] else KeepLargest(Largest(sizes[..|sizes| - 1], n), sizes[|sizes| - 1], n)
  }

  /** The sizes of the reference basins grown from each of `cs`. */
  function BasinSizes(m: HeightMap, cs: seq<Index>): (r: seq<int>)
    requires m.Valid()
    ensures |r| == |cs|
  {
    if |cs| == 0 then [] else BasinSizes(m, cs[..|cs| - 1]) + [BasinSize(BasinMask(m, cs[|cs| - 1]))]
  }

  /** `largest_basin_sizes`: the fold above over the basin of every cell, in row-major order. */
  method LargestBasinSizes(m: HeightMap, n: nat) returns (largest: seq<int>)
    requires Shaped(m)
    ensures largest == Largest(BasinSizes(m, Indices(m.rows, m.columns)), n)
  {
    largest := LargestBasinsOf(m, Indices(m.rows, m.columns), n);
  }

  /** The fold over the basins grown from each of `cells`, in order. */
  method LargestBasinsOf(m: HeightMap, cells: seq<Index>, n: nat) returns (largest: seq<int>)
    requires Shaped(m)
    ensures largest == Largest(BasinSizes(m, cells), n)
  {
    largest := [];
    for k := 0 to |cells|
      invariant largest == Largest(BasinSizes(m, cells[..k]), n)
    {
      var mask, size := Basin(m, cells[k]);
      LargestStep(m, cells, k, size, n);
      largest := KeepLargest(largest, size, n);
    }
    assert cells[..|cells|] == cells;
  }

  lemma LargestStep(m: HeightMap, cells: seq<Index>, k: nat, size: nat, n: nat)
    requires m.Valid() && k < |cells| && size == BasinSize(BasinMask(m, cells[k]))
    ensures Largest(BasinSizes(m, cells[..k + 1]), n) == KeepLargest(Largest(BasinSizes(m, cells[..k]), n), size, n)
  {
    assert cells[..k + 1][..k] == cells[..k];
    var sizes := BasinSizes(m, cells[..k + 1]);
    assert sizes[..k] == BasinSizes(m, cells[..k]);
  }

  /** `r` is a top-`n` selection of `sizes`: decreasing, of length min(n, |sizes|), drawn
      from `sizes`, and no size left out exceeds a size kept. */
  predicate TopN(r: seq<int>, sizes: seq<int>, n: nat) {
    && SortedDesc(r)
    && |r| == (if |sizes| < n then |sizes| else n)
    && multiset(r) <= multiset(sizes)
    && forall x, i :: x in multiset(sizes) - multiset(r) && 0 <= i < |r| ==> x <= r[i]
  }

  /** One fold step keeps a top-`n` selection. */
  lemma KeepLargestTopN(r: seq<int>, sizes: seq<int>, x: int, n: nat)
    requires TopN(r, sizes, n)
    ensures TopN(KeepLargest(r, x, n), sizes + [x], n)
  {
    var l := SortDesc(r + [x]);
    assert multiset(r + [x]) == multiset(r) + multiset{x};
    if |l| > n {
      DropSmallest(r, sizes, x, n, l);
    } else {
      KeepAll(r, sizes, x, n, l);
    }
  }

  /** When the pushed list is short enough, all of it is a top-`n` selection. */
  lemma KeepAll(r: seq<int>, sizes: seq<int>, x: int, n: nat, l: seq<int>)
    requires TopN(r, sizes, n)
    requires SortedDesc(l) && multiset(l) == multiset(r) + multiset{x} && |l| <= n
    ensures TopN(l, sizes + [x], n)
  {
    assert multiset(sizes + [x]) == multiset(sizes) + multiset{x};
    SameSize(multiset(r), multiset(sizes));
  }

  /** When the pushed list is too long, dropping its last (smallest) entry keeps a
      top-`n` selection. */
  lemma DropSmallest(r: seq<int>, sizes: seq<int>, x: int, n: nat, l: seq<int>)
    requires TopN(r, sizes, n)
    requires SortedDesc(l) && multiset(l) == multiset(r) + multiset{x} && |l| > n
    ensures TopN(l[..|l| - 1], sizes + [x], n)
  {
    var kept := l[..|l| - 1];
    DropLast(l);
    assert multiset(sizes + [x]) == multiset(sizes) + multiset{x};
    DropDominates(r, sizes, x, l, kept);
  }

  /** Dropping the last entry of a decreasing list. */
  lemma DropLast(l: seq<int>)
    requires SortedDesc(l) && |l| > 0
    ensures SortedDesc(l[..|l| - 1])
    ensures multiset(l[..|l| - 1]) == multiset(l) - multiset{l[|l| - 1]}
  {
    assert l == l[..|l| - 1] + [l[|l| - 1]];
  }

  lemma DropDominates(r: seq<int>, sizes: seq<int>, x: int, l: seq<int>, kept: seq<int>)
    requires multiset(r) <= multiset(sizes)
    requires forall y, i :: y in multiset(sizes) - multiset(r) && 0 <= i < |r| ==> y <= r[i]
    requires SortedDesc(l) && |l| > 0 && multiset(l) == multiset(r) + multiset{x}
    requires kept == l[..|l| - 1]
    ensures forall y, i :: y in multiset(sizes + [x]) - multiset(kept) && 0 <= i < |kept| ==> y <= kept[i]
  {
    var d := l[|l| - 1];
    var all := multiset(sizes + [x]);
    assert all == multiset(sizes) + multiset{x};
    assert l == kept + [d];
    assert multiset(kept) == multiset(l) - multiset{d};
    forall y, i | y in all - multiset(kept) && 0 <= i < |kept|
      ensures y <= kept[i]
    {
      if y != d {
        assert multiset(sizes)[y] > multiset(r)[y];
        assert y in multiset(sizes) - multiset(r);
        KeptDominates(r, x, l, y, i);
      }
    }
  }

  /** An entry kept after the push is at least every size the earlier selection had
      already left out. */
  lemma KeptDominates(r: seq<int>, x: int, l: seq<int>, y: int, i: nat)
    requires SortedDesc(l) && |l| > 0 && multiset(l) == multiset(r) + multiset{x}
    requires forall j :: 0 <= j < |r| ==> y <= r[j]
    requires i < |l| - 1
    ensures y <= l[i]
  {
    var d := l[|l| - 1];
    assert l[i] in multiset(l) && d in multiset(l);
    if l[i] in r {
      var j := Seqs.IndexOf(r, l[i]);
    } else if d in r {
      var j := Seqs.IndexOf(r, d);
    } else {
      assert l[i] == x && d == x;
      TwoPositions(l, i, |l| - 1);
      assert false;
    }
  }

  /** A value at two positions occurs at least twice. */
  lemma TwoPositions<T>(s: seq<T>, i: nat, j: nat)
    requires i < j < |s| && s[i] == s[j]
    ensures multiset(s)[s[i]] >= 2
  {
    assert s == s[..j] + [s[j]] + s[j + 1..];
    assert s[i] in s[..j];
  }

  /** A sub-multiset of the same size is the whole multiset. */
  lemma SameSize<T>(a: multiset<T>, b: multiset<T>)
    requires a <= b && |a| == |b|
    ensures a == b
  {
    assert b == a + (b - a);
    assert |b - a| == 0;
  }

  /** The fold keeps the `n` largest sizes, largest first. */
  lemma {:induction false} LargestTopN(sizes: seq<int>, n: nat)
    ensures TopN(Largest(sizes, n), sizes, n)
    decreases |sizes|
  {
    if |sizes| > 0 {
      var init, x := sizes[..|sizes| - 1], sizes[|sizes| - 1];
      LargestTopN(init, n);
      KeepLargestTopN(Largest(init, n), init, x, n);
      LargestUnfold(sizes, n);
      TopNLast(KeepLargest(Largest(init, n), x, n), sizes, n);
    }
  }

  lemma TopNLast(r: seq<int>, sizes: seq<int>, n: nat)
    requires |sizes| > 0 && TopN(r, sizes[..|sizes| - 1] + [sizes[|sizes| - 1]], n)
    ensures TopN(r, sizes, n)
  {
    assert sizes[..|sizes| - 1] + [sizes[|sizes| - 1]] == sizes;
  }

  lemma LargestUnfold(sizes: seq<int>, n: nat)
    requires |sizes| > 0
    ensures Largest(sizes, n) == KeepLargest(Largest(sizes[..|sizes| - 1], n), sizes[|sizes| - 1], n)
  {
  }

  // ------------------------------------------------------------------ parsing

  datatype ParseError =
    | InvalidChar(c: char)   // a character that is neither a digit nor whitespace
    | ShapeMismatch          // the digit count is not rows × columns

  /** `take_while(|&c| c != '\n').count()`: the length of the first line. */
  function FirstLineLength(s: string): (r: nat)
    ensures r <= |s| && '\n' !in s[..r] && (r < |s| ==> s[r] == '\n')
  {
    match Text.IndexOf(s, '\n')
    case None => |s|
    case Some(k) => k
  }

  /** The digits of a text in order: whitespace (including '\n' and '\t') is skipped,
      and any other character fails with that character, the first one met. */
  function HeightDigits(s: string): (r: Result<seq<nat>, ParseError>)
    ensures r.Ok? <==> forall k :: 0 <= k < |s| ==> IsAsciiDigit(s[k]) || IsWhitespace(s[k])
    ensures r.Ok? ==> forall k :: 0 <= k < |r.value| ==> r.value[k] < 10
    ensures r.Err? ==>
      r.error.InvalidChar? && r.error.c in s && !IsAsciiDigit(r.error.c) && !IsWhitespace(r.error.c)
  {
    if |s| == 0 then Ok([])
    else if IsAsciiDigit(s[0]) then
      var rest :- HeightDigits(s[1..]);
      Ok([DigitValue(s[0])] + rest)
    else if IsWhitespace(s[0]) then HeightDigits(s[1..])
    else Err(InvalidChar(s[0]))
  }

  /** `FromStr for HeightMap`: as many rows as '\n'-separated pieces, as many columns as
      characters before the first '\n', and the digits filling the array row by row. */
  function ParseHeightMap(s: string): (r: Result<HeightMap, ParseError>)
    ensures r.Ok? ==> r.value.Valid() && r.value.rows == |Split(s, '\n')| && r.value.columns == FirstLineLength(s)
    ensures r.Ok? ==> HeightDigits(s) == Ok(r.value.Items())
    ensures r == Err(ShapeMismatch) <==>
      HeightDigits(s).Ok? && |HeightDigits(s).value| != |Split(s, '\n')| * FirstLineLength(s)
  {
    var columns := FirstLineLength(s);
    var rows := |Split(s, '\n')|;
    var digits :- HeightDigits(s);
    match FromShapeVec(rows, columns, digits)
    case None => Err(ShapeMismatch)
    case Some(g) => Ok(g)
  }

  /** Every height is a single digit. */
  predicate DigitHeights(m: HeightMap) {
    forall i, k :: 0 <= i < |m.cells| && 0 <= k < |m.cells[i]| ==> m.cells[i][k] < 10
  }

  /** The text of one row. */
  function RowText(row: seq<nat>): (r: string)
    requires forall k :: 0 <= k < |row| ==> row[k] < 10
    ensures |r| == |row| && '\n' !in r
  {
    if |row| == 0 then "" else [DigitChar(row[0])] + RowText(row[1..])
  }

  function RowTexts(rows: seq<seq<nat>>): (r: seq<string>)
    requires forall i, k :: 0 <= i < |rows| && 0 <= k < |rows[i]| ==> rows[i][k] < 10
    ensures |r| == |rows| && forall i :: 0 <= i < |rows| ==> r[i] == RowText(rows[i])
  {
    if |rows| == 0 then [] else [RowText(rows[0])] + RowTexts(rows[1..])
  }

  /** The text of a map: one line of digits per row. */
  function Render(m: HeightMap): string
    requires m.Valid() && m.rows > 0 && DigitHeights(m)
  {
    Join(RowTexts(m.cells), '\n')
  }

  lemma {:induction false} RowDigits(row: seq<nat>, rest: string, digits: seq<nat>)
    requires forall k :: 0 <= k < |row| ==> row[k] < 10
    requires HeightDigits(rest) == Ok(digits)
    ensures HeightDigits(RowText(row) + rest) == Ok(row + digits)
    decreases |row|
  {
    if |row| == 0 {
      assert RowText(row) + rest == rest;
      assert row + digits == digits;
    } else {
      RowTextCons(row, rest, digits);
      RowDigits(row[1..], rest, digits);
      DigitStep(DigitChar(row[0]), RowText(row[1..]) + rest, row[1..] + digits);
    }
  }

  lemma RowTextCons(row: seq<nat>, rest: string, digits: seq<nat>)
    requires |row| > 0 && forall k :: 0 <= k < |row| ==> row[k] < 10
    ensures RowText(row) + rest == [DigitChar(row[0])] + (RowText(row[1..]) + rest)
    ensures row + digits == [row[0]] + (row[1..] + digits)
  {
    var text := RowText(row);
    assert text[0] == DigitChar(row[0]) && text[1..] == RowText(row[1..]);
    ConsAppend(text, rest);
    ConsAppend(row, digits);
  }

  /** A leading digit is prepended to the digits of the rest. */
  lemma DigitStep(c: char, t: string, digits: seq<nat>)
    requires IsAsciiDigit(c) && HeightDigits(t) == Ok(digits)
    ensures HeightDigits([c] + t) == Ok([DigitValue(c)] + digits)
  {
    assert ([c] + t)[1..] == t;
  }

  lemma {:induction false} JoinDigits(rows: seq<seq<nat>>)
    requires |rows| > 0
    requires forall i, k :: 0 <= i < |rows| && 0 <= k < |rows[i]| ==> rows[i][k] < 10
    ensures HeightDigits(Join(RowTexts(rows), '\n')) == Ok(Flatten(rows))
    decreases |rows|
  {
    if |rows| == 1 {
      OneRowDigits(rows);
    } else {
      JoinDigits(rows[1..]);
      NextRowDigits(rows);
    }
  }

  lemma OneRowDigits(rows: seq<seq<nat>>)
    requires |rows| == 1 && forall k :: 0 <= k < |rows[0]| ==> rows[0][k] < 10
    ensures HeightDigits(Join(RowTexts(rows), '\n')) == Ok(Flatten(rows))
  {
    RowDigits(rows[0], "", []);
    assert RowText(rows[0]) + "" == RowText(rows[0]);
    assert rows[0] + [] == rows[0];
    assert Flatten(rows) == rows[0] + Flatten(rows[1..]);
  }

  lemma NextRowDigits(rows: seq<seq<nat>>)
    requires |rows| > 1
    requires forall i, k :: 0 <= i < |rows| && 0 <= k < |rows[i]| ==> rows[i][k] < 10
    requires HeightDigits(Join(RowTexts(rows[1..]), '\n')) == Ok(Flatten(rows[1..]))
    ensures HeightDigits(Join(RowTexts(rows), '\n')) == Ok(Flatten(rows))
  {
    var texts := RowTexts(rows);
    RowTextsTail(rows);
    var tail := Join(texts[1..], '\n');
    LineDigits(rows[0], tail, Flatten(rows[1..]));
    JoinCons(texts, '\n');
  }

  lemma RowTextsTail(rows: seq<seq<nat>>)
    requires |rows| > 0
    requires forall i, k :: 0 <= i < |rows| && 0 <= k < |rows[i]| ==> rows[i][k] < 10
    ensures RowTexts(rows)[1..] == RowTexts(rows[1..])
  {
  }

  lemma LineDigits(row: seq<nat>, tail: string, digits: seq<nat>)
    requires forall k :: 0 <= k < |row| ==> row[k] < 10
    requires HeightDigits(tail) == Ok(digits)
    ensures HeightDigits(RowText(row) + ("\n" + tail)) == Ok(row + digits)
  {
    assert ("\n" + tail)[1..] == tail;
    assert HeightDigits("\n" + tail) == HeightDigits(tail);
    RowDigits(row, "\n" + tail, digits);
  }

  lemma FirstLineOfJoin(pieces: seq<string>)
    requires |pieces| > 0 && '\n' !in pieces[0]
    ensures FirstLineLength(Join(pieces, '\n')) == |pieces[0]|
  {
    var s := Join(pieces, '\n');
    var r := FirstLineLength(s);
    assert s[..|pieces[0]|] == pieces[0];
    if |pieces| == 1 {
      assert s == pieces[0];
    } else {
      assert s == pieces[0] + ['\n'] + Join(pieces[1..], '\n');
      assert s[|pieces[0]|] == '\n';
    }
  }

  /** Round trip: a map of digit heights with at least one row is parsed back from its
      text. */
  lemma ParseRender(m: HeightMap)
    requires m.Valid() && m.rows > 0 && DigitHeights(m)
    ensures ParseHeightMap(Render(m)) == Ok(m)
  {
    var texts := RowTexts(m.cells);
    SplitJoin(texts, '\n');
    FirstLineOfJoin(texts);
    JoinDigits(m.cells);
    FromShapeVecItems(m);
  }
}
