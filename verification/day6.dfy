/** Day 6 (lanternfish): the population counted by days left before spawning,
    advanced one day at a time, and its comma-separated parser. */
module Day6 {
  import opened Wrappers
  import opened Text

  const SPAWN_PERIOD: nat := 7
  const FIRST_SPAWN_PERIOD: nat := SPAWN_PERIOD + 2
  /** The larger of the two periods: the number of buckets. */
  const SPAWN_PERIOD_MAX: nat := if SPAWN_PERIOD > FIRST_SPAWN_PERIOD then SPAWN_PERIOD else FIRST_SPAWN_PERIOD

  /** The fixed-size bucket array: bucket k counts the fish with k days left. */
  type Population = p: seq<nat> | |p| == SPAWN_PERIOD_MAX witness [0, 0, 0, 0, 0, 0, 0, 0, 0]

  datatype LanternFish = LanternFish(population: Population)

  function Sum(s: seq<nat>): nat
  {
    if |s| == 0 then 0 else s[0] + Sum(s[1..])
  }

  lemma {:induction false} SumConcat(a: seq<nat>, b: seq<nat>)
    ensures Sum(a + b) == Sum(a) + Sum(b)
    decreases |a|
  {
    if |a| == 0 {
      assert a + b == b;
    } else {
      assert (a + b)[1..] == a[1..] + b;
      SumConcat(a[1..], b);
    }
  }

  lemma SumZero(s: seq<nat>)
    requires forall i :: 0 <= i < |s| ==> s[i] == 0
    ensures Sum(s) == 0
  {
  }

  /** Adding to one entry adds the same amount to the sum. */
  lemma {:induction false} SumUpdate(s: seq<nat>, i: nat, v: nat)
    requires i < |s|
    ensures Sum(s[i := s[i] + v]) == Sum(s) + v
    decreases |s|
  {
    if i > 0 {
      assert s[i := s[i] + v][1..] == s[1..][i - 1 := s[i] + v];
      SumUpdate(s[1..], i - 1, v);
    }
  }

  /** `LanternFish::new`: every bucket empty. */
  function New(): (f: LanternFish)
    ensures forall k :: 0 <= k < SPAWN_PERIOD_MAX ==> f.population[k] == 0
    ensures Total(f) == 0
  {
    var f := LanternFish([0, 0, 0, 0, 0, 0, 0, 0, 0]);
    SumZero(f.population);
    f
  }

  /** `total`: the number of fish. */
  function Total(f: LanternFish): nat
  {
    Sum(f.population)
  }

  /** `next_day`: rotate every bucket one step down, then the fish that were due
      respawn: they go to bucket 6 and their offspring to bucket 8. */
  function NextDay(f: LanternFish): (g: LanternFish)
    ensures g.population[SPAWN_PERIOD_MAX - 1] == f.population[0]
    ensures g.population[SPAWN_PERIOD - 1] == f.population[SPAWN_PERIOD] + f.population[0]
    ensures forall i :: 0 <= i < SPAWN_PERIOD_MAX - 1 && i != SPAWN_PERIOD - 1 ==>
      g.population[i] == f.population[i + 1]
  {
    var p := f.population;
    var rotated := p[1..] + [p[0]];
    LanternFish(rotated[SPAWN_PERIOD - 1 := rotated[SPAWN_PERIOD - 1] + p[0]])
  }

  /** A day adds exactly the newborn fish, one per fish that was due. */
  lemma NextDayTotal(f: LanternFish)
    ensures Total(NextDay(f)) == Total(f) + f.population[0]
  {
    var p := f.population;
    var rotated := p[1..] + [p[0]];
    SumConcat(p[1..], [p[0]]);
    assert p == [p[0]] + p[1..];
    SumConcat([p[0]], p[1..]);
    SumUpdate(rotated, SPAWN_PERIOD - 1, p[0]);
  }

  /** The state after `n` days. */
  function Days(f: LanternFish, n: nat): LanternFish
    decreases n
  {
    if n == 0 then f else Days(NextDay(f), n - 1)
  }

  /** The population never shrinks. */
  lemma {:induction false} DaysTotalGrows(f: LanternFish, n: nat)
    ensures Total(Days(f, n)) >= Total(f)
    decreases n
  {
    if n > 0 {
      NextDayTotal(f);
      DaysTotalGrows(NextDay(f), n - 1);
    }
  }

  // ------------------------------------------------------------------ parsing

  /** The ways `from_str` panics: a piece that is not a `usize`, a number above
      SPAWN_PERIOD_MAX, and a number equal to it, which passes the guard but indexes
      past the last bucket in `add_one`. */
  datatype FishError = InvalidNumber(piece: string) | TooLarge(n: nat) | IndexOutOfBounds(n: nat)

  /** `add_one`: one more fish in bucket i. */
  function AddOne(f: LanternFish, i: nat): (r: Result<LanternFish, FishError>)
    ensures r.Ok? <==> i < SPAWN_PERIOD_MAX
    ensures r.Ok? ==> r.value.population == f.population[i := f.population[i] + 1]
  {
    if i < SPAWN_PERIOD_MAX then Ok(LanternFish(f.population[i := f.population[i] + 1]))
    else Err(IndexOutOfBounds(i))
  }

  /** The loop of `from_str` over the pieces, from `f` on. */
  function Load(f: LanternFish, pieces: seq<string>): Result<LanternFish, FishError>
    decreases |pieces|
  {
    if |pieces| == 0 then Ok(f)
    else
      match ParseUnsigned(pieces[0], USIZE_MAX)
      case None => Err(InvalidNumber(pieces[0]))
      case Some(n) =>
        if n > SPAWN_PERIOD_MAX then Err(TooLarge(n))
        else
          match AddOne(f, n)
          case Err(e) => Err(e)
          case Ok(g) => Load(g, pieces[1..])
  }

  /** `FromStr for LanternFish`: the trimmed text split at every ','. */
  function FromStr(s: string): Result<LanternFish, FishError>
  {
    Load(New(), Split(Trim(s), ','))
  }

  /** A piece `from_str` accepts: a `usize` that names a bucket. */
  predicate Accepted(piece: string) {
    var n := ParseUnsigned(piece, USIZE_MAX);
    n.Some? && n.value < SPAWN_PERIOD_MAX
  }

  predicate AllAccepted(pieces: seq<string>) {
    forall i :: 0 <= i < |pieces| ==> Accepted(pieces[i])
  }

  function Timer(piece: string): nat
    requires Accepted(piece)
  {
    ParseUnsigned(piece, USIZE_MAX).value
  }

  /** The number of pieces that name bucket k. */
  function CountTimer(pieces: seq<string>, k: nat): nat
    requires AllAccepted(pieces)
  {
    if |pieces| == 0 then 0
    else (if Timer(pieces[0]) == k then 1 else 0) + CountTimer(pieces[1..], k)
  }

  /** Loading succeeds exactly when every piece names a bucket. */
  lemma {:induction false} LoadOk(f: LanternFish, pieces: seq<string>)
    ensures Load(f, pieces).Ok? <==> AllAccepted(pieces)
    decreases |pieces|
  {
    if |pieces| > 0 {
      var n := ParseUnsigned(pieces[0], USIZE_MAX);
      if n.Some? && n.value < SPAWN_PERIOD_MAX {
        var g := LanternFish(f.population[n.value := f.population[n.value] + 1]);
        LoadOk(g, pieces[1..]);
        assert forall i :: 0 <= i < |pieces| - 1 ==> pieces[1..][i] == pieces[i + 1];
        assert forall i :: 1 <= i < |pieces| ==> pieces[i] == pieces[1..][i - 1];
      } else {
        assert !Accepted(pieces[0]);
      }
    }
  }

  /** Loaded pieces add, to bucket k, one fish per piece naming k, and to the total
      one fish per piece. */
  lemma {:induction false} LoadCounts(f: LanternFish, pieces: seq<string>)
    requires AllAccepted(pieces)
    ensures Load(f, pieces).Ok?
    ensures forall k :: 0 <= k < SPAWN_PERIOD_MAX ==>
      Load(f, pieces).value.population[k] == f.population[k] + CountTimer(pieces, k)
    ensures Total(Load(f, pieces).value) == Total(f) + |pieces|
    decreases |pieces|
  {
    if |pieces| > 0 {
      var n := Timer(pieces[0]);
      var g := LoadFirst(f, pieces);
      LoadCounts(g, pieces[1..]);
      forall k | 0 <= k < SPAWN_PERIOD_MAX
        ensures CountTimer(pieces, k) == (if n == k then 1 else 0) + CountTimer(pieces[1..], k)
      {
      }
    }
  }

  /** The population after the first accepted piece, from which loading goes on. */
  lemma LoadFirst(f: LanternFish, pieces: seq<string>) returns (g: LanternFish)
    requires |pieces| > 0 && AllAccepted(pieces)
    ensures g.population == f.population[Timer(pieces[0]) := f.population[Timer(pieces[0])] + 1]
    ensures Total(g) == Total(f) + 1
    ensures AllAccepted(pieces[1..])
    ensures Load(f, pieces) == Load(g, pieces[1..])
  {
    var n := Timer(pieces[0]);
    g := LanternFish(f.population[n := f.population[n] + 1]);
    SumUpdate(f.population, n, 1);
    assert forall i :: 0 <= i < |pieces| - 1 ==> pieces[1..][i] == pieces[i + 1];
  }

  /** From an empty population, the bucket counts of `from_str` are the numbers of
      pieces naming each bucket and the total is the number of pieces. */
  lemma FromStrCounts(s: string)
    ensures var pieces := Split(Trim(s), ',');
      FromStr(s).Ok? <==> AllAccepted(pieces)
    ensures var pieces := Split(Trim(s), ',');
      FromStr(s).Ok? ==>
        (forall k :: 0 <= k < SPAWN_PERIOD_MAX ==> FromStr(s).value.population[k] == CountTimer(pieces, k))
        && Total(FromStr(s).value) == |pieces|
  {
    var pieces := Split(Trim(s), ',');
    assert FromStr(s) == Load(New(), pieces);
    LoadOk(New(), pieces);
    if AllAccepted(pieces) {
      LoadCounts(New(), pieces);
    }
  }

  /** A number equal to SPAWN_PERIOD_MAX passes the guard of `from_str` and then fails
      in `add_one`; a larger one fails the guard. */
  lemma LoadRejects(f: LanternFish)
    ensures Load(f, ["9"]) == Err(IndexOutOfBounds(9))
    ensures Load(f, ["10"]) == Err(TooLarge(10))
  {
    ParseUnsignedDecimal(9, USIZE_MAX);
    ParseUnsignedDecimal(10, USIZE_MAX);
    assert Decimal(9) == "9";
    assert Decimal(10) == "10";
  }

  lemma {:induction false} DaysSucc(f: LanternFish, n: nat)
    ensures Days(f, n + 1) == NextDay(Days(f, n))
    decreases n
  {
    if n > 0 {
      DaysSucc(NextDay(f), n - 1);
    }
  }

  /** The days add up: n days after m days are m + n days. */
  lemma {:induction false} DaysAdd(f: LanternFish, m: nat, n: nat)
    ensures Days(f, m + n) == Days(Days(f, m), n)
    decreases m
  {
    if m > 0 {
      DaysAdd(NextDay(f), m - 1, n);
    }
  }

  /** One day on an explicit population: the buckets shift down, bucket 8 receives
      the due fish and bucket 6 receives them as well. */
  lemma DaysStep(f: LanternFish, n: nat, a0: nat, a1: nat, a2: nat, a3: nat, a4: nat, a5: nat, a6: nat, a7: nat, a8: nat, b6: nat)
    requires Days(f, n).population == [a0, a1, a2, a3, a4, a5, a6, a7, a8]
    requires b6 == a7 + a0
    ensures Days(f, n + 1).population == [a1, a2, a3, a4, a5, a6, b6, a8, a0]
  {
    DaysSucc(f, n);
  }

  /** The example school `3,4,3,1,2`. */
  const EXAMPLE := LanternFish([0, 1, 1, 2, 1, 0, 0, 0, 0])

  lemma ExampleDay2(f: LanternFish)
    requires f == EXAMPLE
    ensures Days(f, 2).population == [1, 2, 1, 0, 0, 0, 1, 0, 1]
  {
    DaysStep(f, 0, 0, 1, 1, 2, 1, 0, 0, 0, 0, 0);
    DaysStep(f, 1, 1, 1, 2, 1, 0, 0, 0, 0, 0, 1);
  }

  lemma ExampleDay10(f: LanternFish)
    requires f == EXAMPLE
    ensures Days(f, 10).population == [3, 2, 2, 1, 0, 1, 1, 1, 1]
  {
    ExampleDay2(f);
    DaysStep(f, 2, 1, 2, 1, 0, 0, 0, 1, 0, 1, 1);
    DaysStep(f, 3, 2, 1, 0, 0, 0, 1, 1, 1, 1, 3);
    DaysStep(f, 4, 1, 0, 0, 0, 1, 1, 3, 1, 2, 2);
    DaysStep(f, 5, 0, 0, 0, 1, 1, 3, 2, 2, 1, 2);
    DaysStep(f, 6, 0, 0, 1, 1, 3, 2, 2, 1, 0, 1);
    DaysStep(f, 7, 0, 1, 1, 3, 2, 2, 1, 0, 0, 0);
    DaysStep(f, 8, 1, 1, 3, 2, 2, 1, 0, 0, 0, 1);
    DaysStep(f, 9, 1, 3, 2, 2, 1, 0, 1, 0, 1, 1);
  }

  lemma ExampleDay18(f: LanternFish)
    requires f == EXAMPLE
    ensures Days(f, 18).population == [3, 5, 3, 2, 2, 1, 5, 1, 4]
  {
    ExampleDay10(f);
    DaysStep(f, 10, 3, 2, 2, 1, 0, 1, 1, 1, 1, 4);
    DaysStep(f, 11, 2, 2, 1, 0, 1, 1, 4, 1, 3, 3);
    DaysStep(f, 12, 2, 1, 0, 1, 1, 4, 3, 3, 2, 5);
    DaysStep(f, 13, 1, 0, 1, 1, 4, 3, 5, 2, 2, 3);
    DaysStep(f, 14, 0, 1, 1, 4, 3, 5, 3, 2, 1, 2);
    DaysStep(f, 15, 1, 1, 4, 3, 5, 3, 2, 1, 0, 2);
    DaysStep(f, 16, 1, 4, 3, 5, 3, 2, 2, 0, 1, 1);
    DaysStep(f, 17, 4, 3, 5, 3, 2, 2, 1, 1, 1, 5);
  }

  lemma ExampleDay26(f: LanternFish)
    requires f == EXAMPLE
    ensures Days(f, 26).population == [9, 6, 7, 5, 3, 7, 5, 5, 4]
  {
    ExampleDay18(f);
    DaysStep(f, 18, 3, 5, 3, 2, 2, 1, 5, 1, 4, 4);
    DaysStep(f, 19, 5, 3, 2, 2, 1, 5, 4, 4, 3, 9);
    DaysStep(f, 20, 3, 2, 2, 1, 5, 4, 9, 3, 5, 6);
    DaysStep(f, 21, 2, 2, 1, 5, 4, 9, 6, 5, 3, 7);
    DaysStep(f, 22, 2, 1, 5, 4, 9, 6, 7, 3, 2, 5);
    DaysStep(f, 23, 1, 5, 4, 9, 6, 7, 5, 2, 2, 3);
    DaysStep(f, 24, 5, 4, 9, 6, 7, 5, 3, 2, 1, 7);
    DaysStep(f, 25, 4, 9, 6, 7, 5, 3, 7, 1, 5, 5);
  }

  lemma ExampleDay34(f: LanternFish)
    requires f == EXAMPLE
    ensures Days(f, 34).population == [10, 16, 11, 10, 12, 8, 21, 5, 14]
  {
    ExampleDay26(f);
    DaysStep(f, 26, 9, 6, 7, 5, 3, 7, 5, 5, 4, 14);
    DaysStep(f, 27, 6, 7, 5, 3, 7, 5, 14, 4, 9, 10);
    DaysStep(f, 28, 7, 5, 3, 7, 5, 14, 10, 9, 6, 16);
    DaysStep(f, 29, 5, 3, 7, 5, 14, 10, 16, 6, 7, 11);
    DaysStep(f, 30, 3, 7, 5, 14, 10, 16, 11, 7, 5, 10);
    DaysStep(f, 31, 7, 5, 14, 10, 16, 11, 10, 5, 3, 12);
    DaysStep(f, 32, 5, 14, 10, 16, 11, 10, 12, 3, 7, 8);
    DaysStep(f, 33, 14, 10, 16, 11, 10, 12, 8, 7, 5, 21);
  }

  lemma ExampleDay42(f: LanternFish)
    requires f == EXAMPLE
    ensures Days(f, 42).population == [30, 21, 26, 23, 18, 33, 23, 21, 15]
  {
    ExampleDay34(f);
    DaysStep(f, 34, 10, 16, 11, 10, 12, 8, 21, 5, 14, 15);
    DaysStep(f, 35, 16, 11, 10, 12, 8, 21, 15, 14, 10, 30);
    DaysStep(f, 36, 11, 10, 12, 8, 21, 15, 30, 10, 16, 21);
    DaysStep(f, 37, 10, 12, 8, 21, 15, 30, 21, 16, 11, 26);
    DaysStep(f, 38, 12, 8, 21, 15, 30, 21, 26, 11, 10, 23);
    DaysStep(f, 39, 8, 21, 15, 30, 21, 26, 23, 10, 12, 18);
    DaysStep(f, 40, 21, 15, 30, 21, 26, 23, 18, 12, 8, 33);
    DaysStep(f, 41, 15, 30, 21, 26, 23, 18, 33, 8, 21, 23);
  }

  lemma ExampleDay50(f: LanternFish)
    requires f == EXAMPLE
    ensures Days(f, 50).population == [36, 56, 44, 44, 56, 41, 84, 23, 51]
  {
    ExampleDay42(f);
    DaysStep(f, 42, 30, 21, 26, 23, 18, 33, 23, 21, 15, 51);
    DaysStep(f, 43, 21, 26, 23, 18, 33, 23, 51, 15, 30, 36);
    DaysStep(f, 44, 26, 23, 18, 33, 23, 51, 36, 30, 21, 56);
    DaysStep(f, 45, 23, 18, 33, 23, 51, 36, 56, 21, 26, 44);
    DaysStep(f, 46, 18, 33, 23, 51, 36, 56, 44, 26, 23, 44);
    DaysStep(f, 47, 33, 23, 51, 36, 56, 44, 44, 23, 18, 56);
    DaysStep(f, 48, 23, 51, 36, 56, 44, 44, 56, 18, 33, 41);
    DaysStep(f, 49, 51, 36, 56, 44, 44, 56, 41, 33, 23, 84);
  }

  lemma ExampleDay58(f: LanternFish)
    requires f == EXAMPLE
    ensures Days(f, 58).population == [107, 80, 100, 100, 85, 140, 100, 84, 59]
  {
    ExampleDay50(f);
    DaysStep(f, 50, 36, 56, 44, 44, 56, 41, 84, 23, 51, 59);
    DaysStep(f, 51, 56, 44, 44, 56, 41, 84, 59, 51, 36, 107);
    DaysStep(f, 52, 44, 44, 56, 41, 84, 59, 107, 36, 56, 80);
    DaysStep(f, 53, 44, 56, 41, 84, 59, 107, 80, 56, 44, 100);
    DaysStep(f, 54, 56, 41, 84, 59, 107, 80, 100, 44, 44, 100);
    DaysStep(f, 55, 41, 84, 59, 107, 80, 100, 100, 44, 56, 85);
    DaysStep(f, 56, 84, 59, 107, 80, 100, 100, 85, 56, 41, 140);
    DaysStep(f, 57, 59, 107, 80, 100, 100, 85, 140, 41, 84, 100);
  }

  lemma ExampleDay66(f: LanternFish)
    requires f == EXAMPLE
    ensures Days(f, 66).population == [139, 207, 180, 185, 240, 185, 331, 100, 191]
  {
    ExampleDay58(f);
    DaysStep(f, 58, 107, 80, 100, 100, 85, 140, 100, 84, 59, 191);
    DaysStep(f, 59, 80, 100, 100, 85, 140, 100, 191, 59, 107, 139);
    DaysStep(f, 60, 100, 100, 85, 140, 100, 191, 139, 107, 80, 207);
    DaysStep(f, 61, 100, 85, 140, 100, 191, 139, 207, 80, 100, 180);
    DaysStep(f, 62, 85, 140, 100, 191, 139, 207, 180, 100, 100, 185);
    DaysStep(f, 63, 140, 100, 191, 139, 207, 180, 185, 100, 85, 240);
    DaysStep(f, 64, 100, 191, 139, 207, 180, 185, 240, 85, 140, 185);
    DaysStep(f, 65, 191, 139, 207, 180, 185, 240, 185, 140, 100, 331);
  }

  lemma ExampleDay74(f: LanternFish)
    requires f == EXAMPLE
    ensures Days(f, 74).population == [398, 319, 392, 420, 370, 571, 424, 331, 239]
  {
    ExampleDay66(f);
    DaysStep(f, 66, 139, 207, 180, 185, 240, 185, 331, 100, 191, 239);
    DaysStep(f, 67, 207, 180, 185, 240, 185, 331, 239, 191, 139, 398);
    DaysStep(f, 68, 180, 185, 240, 185, 331, 239, 398, 139, 207, 319);
    DaysStep(f, 69, 185, 240, 185, 331, 239, 398, 319, 207, 180, 392);
    DaysStep(f, 70, 240, 185, 331, 239, 398, 319, 392, 180, 185, 420);
    DaysStep(f, 71, 185, 331, 239, 398, 319, 392, 420, 185, 240, 370);
    DaysStep(f, 72, 331, 239, 398, 319, 392, 420, 370, 240, 185, 571);
    DaysStep(f, 73, 239, 398, 319, 392, 420, 370, 571, 185, 331, 424);
  }

  lemma ExampleDay80(f: LanternFish)
    requires f == EXAMPLE
    ensures Days(f, 80).population == [424, 729, 558, 790, 739, 762, 991, 370, 571]
  {
    ExampleDay74(f);
    DaysStep(f, 74, 398, 319, 392, 420, 370, 571, 424, 331, 239, 729);
    DaysStep(f, 75, 319, 392, 420, 370, 571, 424, 729, 239, 398, 558);
    DaysStep(f, 76, 392, 420, 370, 571, 424, 729, 558, 398, 319, 790);
    DaysStep(f, 77, 420, 370, 571, 424, 729, 558, 790, 319, 392, 739);
    DaysStep(f, 78, 370, 571, 424, 729, 558, 790, 739, 392, 420, 762);
    DaysStep(f, 79, 571, 424, 729, 558, 790, 739, 762, 420, 370, 991);
  }

  /** The total written out over the nine buckets. */
  lemma TotalBuckets(f: LanternFish)
    ensures var p := f.population;
      Total(f) == p[0] + p[1] + p[2] + p[3] + p[4] + p[5] + p[6] + p[7] + p[8]
  {
    var p := f.population;
    assert Sum(p[8..]) == p[8] by {
      assert p[8..][1..] == [];
    }
    assert Sum(p[7..]) == p[7] + Sum(p[8..]) by { assert p[7..][1..] == p[8..]; }
    assert Sum(p[6..]) == p[6] + Sum(p[7..]) by { assert p[6..][1..] == p[7..]; }
    assert Sum(p[5..]) == p[5] + Sum(p[6..]) by { assert p[5..][1..] == p[6..]; }
    assert Sum(p[4..]) == p[4] + Sum(p[5..]) by { assert p[4..][1..] == p[5..]; }
    assert Sum(p[3..]) == p[3] + Sum(p[4..]) by { assert p[3..][1..] == p[4..]; }
    assert Sum(p[2..]) == p[2] + Sum(p[3..]) by { assert p[2..][1..] == p[3..]; }
    assert Sum(p[1..]) == p[1] + Sum(p[2..]) by { assert p[1..][1..] == p[2..]; }
  }

  /** The example school holds 26 fish after 18 days and 5934 after 80. */
  lemma ExampleTotals()
    ensures Total(Days(EXAMPLE, 18)) == 26
    ensures Total(Days(EXAMPLE, 80)) == 5934
  {
    ExampleDay18(EXAMPLE);
    TotalBuckets(Days(EXAMPLE, 18));
    ExampleDay80(EXAMPLE);
    TotalBuckets(Days(EXAMPLE, 80));
  }
}
