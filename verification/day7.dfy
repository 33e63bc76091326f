/** Day 7 (the treachery of whales), part 1: aligning crabs at the median of their
    positions, which minimizes the total distance they move. */
module Day7 {
  import opened Seqs
  import opened Common

  /** The crabs' horizontal positions (`u16` in the source). */
  datatype Crabs = Crabs(positions: seq<nat>)

  /** The cost of moving a crab from `p` to `c`: `delta(c, p)`. */
  function DistanceTo(c: nat): nat -> int
  {
    (p: nat) => Delta(c, p)
  }

  /** `Crabs::displace`: the sum of the cost function over every crab. */
  function Displace(crabs: Crabs, cost: nat -> int): int
  {
    SumOf(crabs.positions, cost)
  }

  /** The total cost does not depend on the order of the crabs, so sorting them
      (as `min_displace_part1` does) changes no cost. */
  lemma DisplacePermutation(a: Crabs, b: Crabs, cost: nat -> int)
    requires multiset(a.positions) == multiset(b.positions)
    ensures Displace(a, cost) == Displace(b, cost)
  {
    SumOfPermutation(a.positions, b.positions, cost);
  }

  /** The cost of two groups of crabs is the sum of their costs. */
  lemma DisplaceConcat(a: Crabs, b: Crabs, cost: nat -> int)
    ensures Displace(Crabs(a.positions + b.positions), cost) == Displace(a, cost) + Displace(b, cost)
  {
    SumOfConcat(a.positions, b.positions, cost);
  }

  /** Sorting natural numbers gives natural numbers. */
  function SortPositions(s: seq<nat>): (r: seq<nat>)
    ensures SortedAsc(r)
    ensures multiset(r) == multiset(s) && |r| == |s|
  {
    var sorted := SortAsc(s);
    assert |sorted| == |multiset(sorted)|;
    assert forall i :: 0 <= i < |sorted| ==> sorted[i] in multiset(s);
    sorted
  }

  /** `min_displace_part1`: returns the crabs (sorted in place unless there are none)
      and the total distance to the median `positions[n / 2]` of the sorted positions. */
  function MinDisplacePart1(crabs: Crabs): (r: (Crabs, nat))
    ensures multiset(r.0.positions) == multiset(crabs.positions)
    ensures |r.0.positions| == |crabs.positions|
    ensures |crabs.positions| > 0 ==> SortedAsc(r.0.positions)
    ensures |crabs.positions| == 0 ==> r == (crabs, 0)
  {
    if |crabs.positions| == 0 then (crabs, 0)
    else
      var sorted := Crabs(SortPositions(crabs.positions));
      var median := sorted.positions[|sorted.positions| / 2];
      SumOfNonNegative(sorted.positions, DistanceTo(median));
      (sorted, Displace(sorted, DistanceTo(median)))
  }

  lemma {:induction false} SumOfNonNegative(s: seq<nat>, f: nat -> int)
    requires forall p :: f(p) >= 0
    ensures SumOf(s, f) >= 0
    decreases |s|
  {
    if |s| > 0 {
      SumOfNonNegative(s[1..], f);
    }
  }

  /** The result is the total distance of the original crabs to the median of their
      positions. */
  lemma MinDisplaceIsMedianCost(crabs: Crabs)
    requires |crabs.positions| > 0
    ensures var r := MinDisplacePart1(crabs);
      r.1 == Displace(crabs, DistanceTo(r.0.positions[|crabs.positions| / 2]))
  {
    var r := MinDisplacePart1(crabs);
    DisplacePermutation(r.0, crabs, DistanceTo(r.0.positions[|crabs.positions| / 2]));
  }

  /** The median is optimal: no alignment position is cheaper than the result. */
  lemma MinDisplaceOptimal(crabs: Crabs, c: nat)
    ensures MinDisplacePart1(crabs).1 <= Displace(crabs, DistanceTo(c))
  {
    var r := MinDisplacePart1(crabs);
    if |crabs.positions| == 0 {
    } else {
      var s := r.0.positions;
      MedianOptimal(s, c);
      DisplacePermutation(r.0, crabs, DistanceTo(c));
    }
  }

  /** For sorted positions, the total distance to the median is at most the total
      distance to any `c`. Removing the smallest and the largest crab keeps the median,
      and those two crabs are at least as far apart as they are from the median. */
  lemma {:induction false} MedianOptimal(s: seq<nat>, c: nat)
    requires SortedAsc(s) && |s| > 0
    ensures SumOf(s, DistanceTo(s[|s| / 2])) <= SumOf(s, DistanceTo(c))
    decreases |s|
  {
    var m := s[|s| / 2];
    if |s| == 1 {
      assert s[1..] == [];
    } else if |s| == 2 {
      SumOfEnds(s, DistanceTo(m));
      SumOfEnds(s, DistanceTo(c));
    } else {
      var inner := s[1..|s| - 1];
      assert inner[|inner| / 2] == m;
      assert SortedAsc(inner);
      MedianOptimal(inner, c);
      SumOfEnds(s, DistanceTo(m));
      SumOfEnds(s, DistanceTo(c));
      assert s[0] <= m <= s[|s| - 1];
    }
  }

  // -------------------------------------------------------------------- example

  const POSITIONS: seq<nat> := [16, 1, 2, 0, 4, 2, 7, 1, 2, 14]

  /** The cost of the example crabs, term by term. */
  lemma DisplaceExample(f: nat -> int)
    ensures Displace(Crabs(POSITIONS), f)
         == f(16) + f(1) + f(2) + f(0) + f(4) + f(2) + f(7) + f(1) + f(2) + f(14)
  {
    var front: seq<nat>, back: seq<nat> := [16, 1, 2, 0, 4], [2, 7, 1, 2, 14];
    SumOfFive<nat>(16, 1, 2, 0, 4, f);
    SumOfFive<nat>(2, 7, 1, 2, 14, f);
    assert POSITIONS == front + back;
    SumOfConcat(front, back, f);
  }

  /** The total distance of the example crabs to `c`, given the distance of each
      distinct position. */
  lemma DisplaceAt(c: nat, d0: nat, d1: nat, d2: nat, d4: nat, d7: nat, d14: nat, d16: nat, total: int)
    requires d0 == Delta(c, 0) && d1 == Delta(c, 1) && d2 == Delta(c, 2) && d4 == Delta(c, 4)
    requires d7 == Delta(c, 7) && d14 == Delta(c, 14) && d16 == Delta(c, 16)
    requires total == d0 + 2 * d1 + 3 * d2 + d4 + d7 + d14 + d16
    ensures Displace(Crabs(POSITIONS), DistanceTo(c)) == total
  {
    var f := DistanceTo(c);
    DisplaceExample(f);
    assert f(0) == d0 && f(1) == d1 && f(2) == d2 && f(4) == d4;
    assert f(7) == d7 && f(14) == d14 && f(16) == d16;
  }

  /** The costs of the unit test: aligning at 1, 2, 3 and 10 costs 41, 37, 39 and 71. */
  lemma DisplaceExamples()
    ensures Displace(Crabs(POSITIONS), DistanceTo(1)) == 41
    ensures Displace(Crabs(POSITIONS), DistanceTo(2)) == 37
    ensures Displace(Crabs(POSITIONS), DistanceTo(3)) == 39
    ensures Displace(Crabs(POSITIONS), DistanceTo(10)) == 71
  {
    DisplaceAt(1, 1, 0, 1, 3, 6, 13, 15, 41);
    DisplaceAt(2, 2, 1, 0, 2, 5, 12, 14, 37);
    DisplaceAt(3, 3, 2, 1, 1, 4, 11, 13, 39);
    DisplaceAt(10, 10, 9, 8, 6, 3, 4, 6, 71);
  }

  const SORTED: seq<nat> := [0, 1, 1, 2, 2, 2, 4, 7, 14, 16]

  lemma SortedExample()
    ensures SortedAsc(SORTED)
  {
    forall i, j | 0 <= i < j < |SORTED|
      ensures SORTED[i] <= SORTED[j]
    {
      assert SORTED[i] <= SORTED[j - 1] || j - 1 == i;
    }
  }

  lemma SortedExampleSameCrabs()
    ensures multiset(SORTED) == multiset(POSITIONS)
  {
    assert multiset(SORTED) == multiset{0, 1, 1, 2, 2, 2, 4, 7, 14, 16};
    assert multiset(POSITIONS) == multiset{16, 1, 2, 0, 4, 2, 7, 1, 2, 14};
    SameCrabsDisplay();
  }

  lemma SameCrabsDisplay()
    ensures multiset{0, 1, 1, 2, 2, 2, 4, 7, 14, 16} == multiset{16, 1, 2, 0, 4, 2, 7, 1, 2, 14}
  {
  }

  /** The result is determined by any sorted arrangement of the positions. */
  lemma MinDisplaceOfSorted(crabs: Crabs, sorted: seq<nat>, median: nat)
    requires SortedAsc(sorted) && multiset(sorted) == multiset(crabs.positions)
    requires |sorted| > 0 && median == sorted[|sorted| / 2]
    ensures MinDisplacePart1(crabs).1 == Displace(crabs, DistanceTo(median))
  {
    var r := MinDisplacePart1(crabs);
    assert |sorted| == |multiset(sorted)| == |crabs.positions|;
    SortedAscUnique(r.0.positions, sorted);
    MinDisplaceIsMedianCost(crabs);
  }

  /** The example's cheapest alignment costs 37 fuel: the sorted positions are
      0, 1, 1, 2, 2, 2, 4, 7, 14, 16 and their median is 2. */
  lemma MinDisplaceExample(crabs: Crabs)
    requires crabs.positions == POSITIONS
    ensures MinDisplacePart1(crabs).1 == 37
  {
    assert SORTED[5] == 2;
    DisplaceAt(2, 2, 1, 0, 2, 5, 12, 14, 37);
    SortedExampleSameCrabs();
    assert multiset(SORTED) == multiset(crabs.positions);
    SortedExample();
    MinDisplaceOfSorted(crabs, SORTED, 2);
  }
}
