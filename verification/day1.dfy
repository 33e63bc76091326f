/** Day 1 (sonar sweep): counting depth increases, directly and over a sliding
    window of three measurements. */
module Day1 {

  /** `count_increases`: a left fold over the consecutive pairs (d0, d1), adding one
      whenever d1 > d0. */
  function CountIncreases(depths: seq<nat>): (n: nat)
    ensures n <= if |depths| < 2 then 0 else |depths| - 1
  {
    if |depths| < 2 then 0
    else
      var last := |depths| - 1;
      CountIncreases(depths[..last]) + (if depths[last] > depths[last - 1] then 1 else 0)
  }

  predicate DeeperNext(depths: seq<nat>, i: nat)
    requires i + 1 < |depths|
  {
    depths[i + 1] > depths[i]
  }

  /** The positions i at which the next measurement is deeper. */
  ghost function Increases(depths: seq<nat>): set<nat>
  {
    set i | 0 <= i < |depths| - 1 && DeeperNext(depths, i)
  }

  /** The fold counts exactly the positions followed by a deeper measurement. */
  lemma {:induction false} CountIncreasesCounts(depths: seq<nat>)
    ensures CountIncreases(depths) == |Increases(depths)|
    decreases |depths|
  {
    if |depths| < 2 {
      assert Increases(depths) == {};
    } else {
      var last := |depths| - 1;
      var prefix := depths[..last];
      CountIncreasesCounts(prefix);
      if depths[last] > depths[last - 1] {
        assert Increases(depths) == Increases(prefix) + {last - 1};
      } else {
        assert Increases(depths) == Increases(prefix);
      }
    }
  }

  /** A sequence that never gets deeper has no increase. */
  lemma {:induction false} NonIncreasingHasNone(depths: seq<nat>)
    requires forall i :: 0 < i < |depths| ==> depths[i] <= depths[i - 1]
    ensures CountIncreases(depths) == 0
    decreases |depths|
  {
    if |depths| >= 2 {
      NonIncreasingHasNone(depths[..|depths| - 1]);
    }
  }

  /** The sums of the three-measurement windows of `day1_part2` (`tuple_windows`). */
  function RollingSums(depths: seq<nat>): (sums: seq<nat>)
    ensures |sums| == if |depths| < 3 then 0 else |depths| - 2
    ensures forall i :: 0 <= i < |sums| ==> sums[i] == depths[i] + depths[i + 1] + depths[i + 2]
  {
    if |depths| < 3 then [] else [depths[0] + depths[1] + depths[2]] + RollingSums(depths[1..])
  }

  /** `day1_part2` without the file reading. */
  function Part2(depths: seq<nat>): nat
  {
    CountIncreases(RollingSums(depths))
  }

  /** Two overlapping windows share two measurements, so the window sum increases
      exactly when the measurement entering the window exceeds the one leaving it. */
  lemma WindowIncreases(depths: seq<nat>)
    ensures Part2(depths) == |set i | 0 <= i < |depths| - 3 && DeeperThirdNext(depths, i)|
  {
    var sums := RollingSums(depths);
    CountIncreasesCounts(sums);
    var gains := set i | 0 <= i < |depths| - 3 && DeeperThirdNext(depths, i);
    forall i ensures i in Increases(sums) <==> i in gains {
      if 0 <= i < |depths| - 3 {
        assert sums[i] == depths[i] + depths[i + 1] + depths[i + 2];
        assert sums[i + 1] == depths[i + 1] + depths[i + 2] + depths[i + 3];
      }
    }
    assert Increases(sums) == gains;
  }

  predicate DeeperThirdNext(depths: seq<nat>, i: nat)
    requires i + 3 < |depths|
  {
    depths[i + 3] > depths[i]
  }
}
