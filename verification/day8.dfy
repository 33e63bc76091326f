/** Day 8 (seven segment search): recovering how the seven signal wires of a display
    are connected to its segments, from the ten distinct digits it shows. */
module Day8 {
  import opened Wrappers
  import opened Seqs
  import opened Common

  datatype Signal = A | B | C | D | E | F | G

  /** `SIGNALS`: every signal, in order. */
  const SIGNALS: seq<Signal> := [A, B, C, D, E, F, G]

  /** The position of a signal in `SIGNALS` (its discriminant in the source). */
  function Ord(s: Signal): (r: nat)
    ensures r < 7
  {
    match s
    case A => 0
    case B => 1
    case C => 2
    case D => 3
    case E => 4
    case F => 5
    case G => 6
  }

  /** The signals lit for one digit, in the order they are listed. */
  type Digit = seq<Signal>

  /** The three `expect`s of `signal_rosetta`. */
  datatype RosettaError = NoLedWithFreq(n: nat) | NoDigitWithLeds(n: nat) | NoRemainingLed

  /** How often a signal is lit over all the digits. */
  function Freq(digits: seq<Digit>, s: Signal): nat
  {
    multiset(Flatten(digits))[s]
  }

  /** The `led_with_freq` closure: a signal lit exactly `n` times, looked up in the
      `freq_count` map of all lit signals. The source scans a `HashMap`, whose order is
      unspecified; the model scans the signals in order A to G. */
  function LedWithFreq(digits: seq<Digit>, n: nat): (r: Option<Signal>)
    ensures r.Some? ==> Freq(digits, r.value) == n
    ensures n > 0 ==> (r.None? <==> forall s: Signal :: Freq(digits, s) != n)
  {
    var freqs := FreqCount(Flatten(digits));
    var r := FirstCounted(SIGNALS, freqs, n);
    if n > 0 then
      FreqCountLookup(Flatten(digits), n);
      assert r.None? <==> forall s: Signal :: !(s in freqs && freqs[s] == n) by {
        if r.None? {
          forall s: Signal
            ensures !(s in freqs && freqs[s] == n)
          {
            assert SIGNALS[Ord(s)] == s;
          }
        }
      }
      r
    else
      r
  }

  /** The first of `cands` that the map counts `n` times. */
  function FirstCounted(cands: seq<Signal>, freqs: map<Signal, nat>, n: nat): (r: Option<Signal>)
    ensures r.Some? ==> r.value in cands && r.value in freqs && freqs[r.value] == n
    ensures r.None? <==> forall i :: 0 <= i < |cands| ==> !(cands[i] in freqs && freqs[cands[i]] == n)
  {
    if |cands| == 0 then None
    else if cands[0] in freqs && freqs[cands[0]] == n then Some(cands[0])
    else FirstCounted(cands[1..], freqs, n)
  }

  /** A positive count is found in the `freq_count` map exactly when the item has it. */
  lemma FreqCountLookup<K>(items: seq<K>, n: nat)
    requires n > 0
    ensures forall k :: (k in FreqCount(items) && FreqCount(items)[k] == n) <==> multiset(items)[k] == n
  {
    forall k | multiset(items)[k] == n
      ensures k in FreqCount(items)
    {
      assert k in multiset(items);
    }
  }

  /** The `digit_with_leds` closure: the first digit with `n` lit signals. */
  function DigitWithLeds(digits: seq<Digit>, n: nat): (r: Option<Digit>)
    ensures r.Some? ==> r.value in digits && |r.value| == n
    ensures r.None? <==> forall k :: 0 <= k < |digits| ==> |digits[k]| != n
  {
    if |digits| == 0 then None
    else if |digits[0]| == n then Some(digits[0])
    else DigitWithLeds(digits[1..], n)
  }

  /** `remaining_led`: the first signal of `digit` that is not in `toRemove`. */
  function RemainingLed(digit: Digit, toRemove: seq<Signal>): (r: Option<Signal>)
    ensures r.Some? ==> r.value in digit && r.value !in toRemove
    ensures r.None? <==> forall i :: 0 <= i < |digit| ==> digit[i] in toRemove
  {
    if |digit| == 0 then None
    else if digit[0] !in toRemove then Some(digit[0])
    else RemainingLed(digit[1..], toRemove)
  }

  function Need<T>(o: Option<T>, e: RosettaError): Result<T, RosettaError>
  {
    match o
    case Some(v) => Ok(v)
    case None => Err(e)
  }

  /** `signal_rosetta`: the wire of each segment a to g. Segments f, e and b are the
      only ones lit by 9, 4 and 6 of the ten digits; c is the segment of digit 1 that is
      not f, d the segment of digit 4 that is not b, c or f, a the segment of digit 7
      that is not c or f, and g the remaining signal. */
  function SignalRosetta(digits: seq<Digit>): (r: Result<seq<Signal>, RosettaError>)
    requires |digits| == 10
    ensures r.Ok? ==> |r.value| == 7
  {
    var (f, e, b) :- ByFrequency(digits);
    BySegments(digits, f, e, b)
  }

  /** The first three lookups: the signals lit 9, 4 and 6 times (f, e and b). */
  function ByFrequency(digits: seq<Digit>): Result<(Signal, Signal, Signal), RosettaError>
  {
    var f :- Need(LedWithFreq(digits, 9), NoLedWithFreq(9));
    var e :- Need(LedWithFreq(digits, 4), NoLedWithFreq(4));
    var b :- Need(LedWithFreq(digits, 6), NoLedWithFreq(6));
    Ok((f, e, b))
  }

  /** The remaining lookups, given f, e and b. */
  function BySegments(digits: seq<Digit>, f: Signal, e: Signal, b: Signal): (r: Result<seq<Signal>, RosettaError>)
    ensures r.Ok? ==> |r.value| == 7
    ensures r.Err? ==> !r.error.NoLedWithFreq?
  {
    var one :- Need(DigitWithLeds(digits, 2), NoDigitWithLeds(2));
    var c :- Need(RemainingLed(one, [f]), NoRemainingLed);
    var four :- Need(DigitWithLeds(digits, 4), NoDigitWithLeds(4));
    var d :- Need(RemainingLed(four, [b, c, f]), NoRemainingLed);
    var seven :- Need(DigitWithLeds(digits, 3), NoDigitWithLeds(3));
    var a :- Need(RemainingLed(seven, [c, f]), NoRemainingLed);
    var g :- Need(RemainingLed(SIGNALS, [a, b, c, d, e, f]), NoRemainingLed);
    Ok([a, b, c, d, e, f, g])
  }

  /** A decoded result is made of the three frequency lookups and the segment
      lookups that follow them. */
  lemma RosettaSteps(digits: seq<Digit>)
    requires |digits| == 10
    ensures var r := SignalRosetta(digits);
      r.Ok? ==>
        && LedWithFreq(digits, 9) == Some(r.value[5])
        && LedWithFreq(digits, 4) == Some(r.value[4])
        && LedWithFreq(digits, 6) == Some(r.value[1])
        && r == BySegments(digits, r.value[5], r.value[4], r.value[1])
  {
    var first := ByFrequency(digits);
    if first.Ok? {
      FrequencySteps(digits);
      var (f, e, b) := first.value;
      var r := BySegments(digits, f, e, b);
      if r.Ok? {
        SegmentSteps(digits, f, e, b);
      }
    }
  }

  /** The frequency lookups, one by one. */
  lemma FrequencySteps(digits: seq<Digit>)
    ensures var r := ByFrequency(digits);
      r.Ok? ==>
        && LedWithFreq(digits, 9) == Some(r.value.0)
        && LedWithFreq(digits, 4) == Some(r.value.1)
        && LedWithFreq(digits, 6) == Some(r.value.2)
  {
  }

  /** The segment lookups, one by one. */
  lemma SegmentSteps(digits: seq<Digit>, f: Signal, e: Signal, b: Signal)
    ensures var r := BySegments(digits, f, e, b);
      r.Ok? ==>
        && r.value[1] == b && r.value[4] == e && r.value[5] == f
        && DigitWithLeds(digits, 2).Some?
        && RemainingLed(DigitWithLeds(digits, 2).value, [f]) == Some(r.value[2])
        && DigitWithLeds(digits, 4).Some?
        && RemainingLed(DigitWithLeds(digits, 4).value, [b, r.value[2], f]) == Some(r.value[3])
        && DigitWithLeds(digits, 3).Some?
        && RemainingLed(DigitWithLeds(digits, 3).value, [r.value[2], f]) == Some(r.value[0])
        && RemainingLed(SIGNALS, r.value[..6]) == Some(r.value[6])
  {
    var r := BySegments(digits, f, e, b);
    if r.Ok? {
      assert r.value[..6] == [r.value[0], r.value[1], r.value[2], r.value[3], r.value[4], r.value[5]];
    }
  }

  /** The first check fails exactly when no signal is lit 9 times. */
  lemma RosettaNoNine(digits: seq<Digit>)
    requires |digits| == 10
    ensures SignalRosetta(digits) == Err(NoLedWithFreq(9)) <==> forall s: Signal :: Freq(digits, s) != 9
  {
    var first := ByFrequency(digits);
    if LedWithFreq(digits, 9).None? {
      assert first == Err(NoLedWithFreq(9));
    } else {
      assert first.Err? ==> first.error != NoLedWithFreq(9);
    }
  }

  /** What a decoded result guarantees: f, e and b have the frequencies 9, 4 and 6;
      c lies in a two-signal digit and is not f; d lies in a four-signal digit and is
      none of b, c and f; a lies in a three-signal digit and is neither c nor f; g is
      none of the others. */
  lemma SignalRosettaOutcome(digits: seq<Digit>)
    requires |digits| == 10
    ensures var r := SignalRosetta(digits);
      r.Ok? ==> Freq(digits, r.value[5]) == 9 && Freq(digits, r.value[4]) == 4 && Freq(digits, r.value[1]) == 6
    ensures var r := SignalRosetta(digits);
      r.Ok? ==> r.value[2] != r.value[5] && exists k :: 0 <= k < 10 && |digits[k]| == 2 && r.value[2] in digits[k]
    ensures var r := SignalRosetta(digits);
      r.Ok? ==> (r.value[3] !in [r.value[1], r.value[2], r.value[5]]
             && exists k :: 0 <= k < 10 && |digits[k]| == 4 && r.value[3] in digits[k])
    ensures var r := SignalRosetta(digits);
      r.Ok? ==> (r.value[0] !in [r.value[2], r.value[5]]
             && exists k :: 0 <= k < 10 && |digits[k]| == 3 && r.value[0] in digits[k])
    ensures var r := SignalRosetta(digits);
      r.Ok? ==> r.value[6] !in r.value[..6]
  {
    RosettaSteps(digits);
    var r := SignalRosetta(digits);
    if r.Ok? {
      var x := r.value;
      SegmentSteps(digits, x[5], x[4], x[1]);
      var one := DigitWithLeds(digits, 2).value;
      var four := DigitWithLeds(digits, 4).value;
      var seven := DigitWithLeds(digits, 3).value;
      var k1 :| 0 <= k1 < 10 && digits[k1] == one;
      var k4 :| 0 <= k4 < 10 && digits[k4] == four;
      var k7 :| 0 <= k7 < 10 && digits[k7] == seven;
    }
  }

  // ------------------------------------------------------------ the decoding

  /** Whether decimal digit `j` lights segment `x` on a correctly wired display:
      ```
      0: a b c   e f g      5: a b   d   f g
      1:     c     f        6: a b   d e f g
      2: a   c d e   g      7: a   c     f
      3: a   c d   f g      8: a b c d e f g
      4:   b c d   f        9: a b c d   f g
      ```
  */
  predicate Lit(j: nat, x: Signal)
  {
    match x
    case A => j != 1 && j != 4
    case B => j == 0 || j == 4 || j == 5 || j == 6 || j == 8 || j == 9
    case C => j != 5 && j != 6
    case D => j != 0 && j != 1 && j != 7
    case E => j == 0 || j == 2 || j == 6 || j == 8
    case F => j != 2
    case G => j != 1 && j != 4 && j != 7
  }

  /** The segments digit `j` lights, in order a to g. */
  function Standard(j: nat): seq<Signal>
  {
    Segment(j, A) + Segment(j, B) + Segment(j, C) + Segment(j, D) + Segment(j, E) + Segment(j, F) + Segment(j, G)
  }

  function Segment(j: nat, x: Signal): seq<Signal>
  {
    if Lit(j, x) then [x] else []
  }

  const DIGIT_VALUES: seq<nat> := [0, 1, 2, 3, 4, 5, 6, 7, 8, 9]

  /** The number of the ten digits that light segment `x`. */
  function SegmentCount(x: Signal): nat
  {
    match x
    case A => 8
    case B => 6
    case C => 8
    case D => 7
    case E => 4
    case F => 9
    case G => 7
  }

  /** A wiring connects segment `x` to the signal `w[Ord(x)]`: it is a permutation of
      the signals, listing each signal once. */
  predicate IsWiring(w: seq<Signal>)
  {
    && |w| == 7
    && (forall i, j :: 0 <= i < j < |w| ==> w[i] != w[j])
    && forall s: Signal :: s in w
  }

  function Wire(w: seq<Signal>, x: Signal): Signal
    requires |w| == 7
  {
    w[Ord(x)]
  }

  /** The signals that light the segments `segs`. */
  function Rewire(w: seq<Signal>, segs: seq<Signal>): (r: seq<Signal>)
    requires |w| == 7
    ensures |r| == |segs|
  {
    if |segs| == 0 then [] else [Wire(w, segs[0])] + Rewire(w, segs[1..])
  }

  lemma {:induction false} RewireAt(w: seq<Signal>, segs: seq<Signal>, i: nat)
    requires |w| == 7 && i < |segs|
    ensures Rewire(w, segs)[i] == Wire(w, segs[i])
    decreases i
  {
    if i > 0 {
      RewireAt(w, segs[1..], i - 1);
    }
  }

  /** The input of a display wired by `w`: the ten digits in the order `order`, each
      listing its signals in any order. */
  predicate Scrambled(digits: seq<Digit>, w: seq<Signal>, order: seq<nat>)
  {
    && IsWiring(w) && |digits| == 10 && |order| == 10
    && multiset(order) == multiset(DIGIT_VALUES)
    && forall k :: 0 <= k < 10 ==>
         order[k] < 10 && multiset(digits[k]) == multiset(Rewire(w, Standard(order[k])))
  }

  /** Decoding recovers the wiring: for any display wired by a permutation `w`, the
      source returns `w` itself, the signal of each segment a to g. */
  lemma RosettaDecodesWiring(digits: seq<Digit>, w: seq<Signal>, order: seq<nat>)
    requires Scrambled(digits, w, order)
    ensures SignalRosetta(digits) == Ok(w)
  {
    FrequenciesDecoded(digits, w, order);
    SegmentsDecoded(digits, w, order);
  }

  /** On a wired display, the frequency lookups find the signals of f, e and b. */
  lemma FrequenciesDecoded(digits: seq<Digit>, w: seq<Signal>, order: seq<nat>)
    requires Scrambled(digits, w, order)
    ensures ByFrequency(digits) == Ok((w[5], w[4], w[1]))
  {
    NineWired(digits, w, order);
    FourWired(digits, w, order);
    SixWired(digits, w, order);
    FrequencyLookups(digits, w);
  }

  /** On a wired display, the segment lookups find the signals of the rest. */
  lemma SegmentsDecoded(digits: seq<Digit>, w: seq<Signal>, order: seq<nat>)
    requires Scrambled(digits, w, order)
    ensures BySegments(digits, w[5], w[4], w[1]) == Ok(w)
  {
    StandardDigits();
    var one := DigitWithLedsWired(digits, w, order, 1);
    DecodeC(w, one);
    var four := DigitWithLedsWired(digits, w, order, 4);
    DecodeD(w, four);
    var seven := DigitWithLedsWired(digits, w, order, 7);
    DecodeA(w, seven);
    DecodeG(w);
    SegmentLookups(digits, w);
  }

  /** The signal lit by 9 digits is f's. */
  lemma NineWired(digits: seq<Digit>, w: seq<Signal>, order: seq<nat>)
    requires Scrambled(digits, w, order)
    ensures LedWithFreq(digits, 9) == Some(w[5])
  {
    LedWithFreqWired(digits, w, order, F, 9, 5);
  }

  /** The signal lit by 4 digits is e's. */
  lemma FourWired(digits: seq<Digit>, w: seq<Signal>, order: seq<nat>)
    requires Scrambled(digits, w, order)
    ensures LedWithFreq(digits, 4) == Some(w[4])
  {
    LedWithFreqWired(digits, w, order, E, 4, 4);
  }

  /** The signal lit by 6 digits is b's. */
  lemma SixWired(digits: seq<Digit>, w: seq<Signal>, order: seq<nat>)
    requires Scrambled(digits, w, order)
    ensures LedWithFreq(digits, 6) == Some(w[1])
  {
    LedWithFreqWired(digits, w, order, B, 6, 1);
  }

  /** The frequency lookups, chained as the source chains them. */
  lemma FrequencyLookups(digits: seq<Digit>, w: seq<Signal>)
    requires |w| == 7
    requires LedWithFreq(digits, 9) == Some(w[5])
    requires LedWithFreq(digits, 4) == Some(w[4])
    requires LedWithFreq(digits, 6) == Some(w[1])
    ensures ByFrequency(digits) == Ok((w[5], w[4], w[1]))
  {
  }

  /** The segment lookups, chained as the source chains them. */
  lemma SegmentLookups(digits: seq<Digit>, w: seq<Signal>)
    requires |w| == 7
    requires DigitWithLeds(digits, 2).Some? && RemainingLed(DigitWithLeds(digits, 2).value, [w[5]]) == Some(w[2])
    requires DigitWithLeds(digits, 4).Some? && RemainingLed(DigitWithLeds(digits, 4).value, [w[1], w[2], w[5]]) == Some(w[3])
    requires DigitWithLeds(digits, 3).Some? && RemainingLed(DigitWithLeds(digits, 3).value, [w[2], w[5]]) == Some(w[0])
    requires RemainingLed(SIGNALS, w[..6]) == Some(w[6])
    ensures BySegments(digits, w[5], w[4], w[1]) == Ok(w)
  {
    assert w[..6] == [w[0], w[1], w[2], w[3], w[4], w[5]];
    assert [w[0], w[1], w[2], w[3], w[4], w[5], w[6]] == w;
  }

  /** In digit 1, the signal remaining without f's is c's. */
  lemma DecodeC(w: seq<Signal>, one: Digit)
    requires IsWiring(w) && multiset(one) == multiset(Rewire(w, [C, F]))
    ensures RemainingLed(one, [w[5]]) == Some(w[2])
  {
    RewireAt(w, [F], 0);
    RemovalCounts();
    RemainingWired(w, one, [C, F], [F], [w[5]], C);
  }

  /** In digit 4, the signal remaining without b's, c's and f's is d's. */
  lemma DecodeD(w: seq<Signal>, four: Digit)
    requires IsWiring(w) && multiset(four) == multiset(Rewire(w, [B, C, D, F]))
    ensures RemainingLed(four, [w[1], w[2], w[5]]) == Some(w[3])
  {
    RewireAt(w, [B, C, F], 0);
    RewireAt(w, [B, C, F], 1);
    RewireAt(w, [B, C, F], 2);
    RemovalCounts();
    RemainingWired(w, four, [B, C, D, F], [B, C, F], [w[1], w[2], w[5]], D);
  }

  /** In digit 7, the signal remaining without c's and f's is a's. */
  lemma DecodeA(w: seq<Signal>, seven: Digit)
    requires IsWiring(w) && multiset(seven) == multiset(Rewire(w, [A, C, F]))
    ensures RemainingLed(seven, [w[2], w[5]]) == Some(w[0])
  {
    RewireAt(w, [C, F], 0);
    RewireAt(w, [C, F], 1);
    RemovalCounts();
    RemainingWired(w, seven, [A, C, F], [C, F], [w[2], w[5]], A);
  }

  /** Without the signals of a to f, g's remains. */
  lemma DecodeG(w: seq<Signal>)
    requires IsWiring(w)
    ensures RemainingLed(SIGNALS, w[..6]) == Some(w[6])
  {
    var r := RemainingLed(SIGNALS, w[..6]);
    assert w[6] !in w[..6];
    assert SIGNALS[Ord(w[6])] == w[6];
    assert r.Some?;
    assert r.value in w;
    var k :| 0 <= k < 7 && w[k] == r.value;
  }

  /** The segment that remains of digits 1, 4 and 7 once the already known
      segments are removed. */
  lemma RemovalCounts()
    ensures C in [C, F] && C !in [F]
    ensures forall y :: y in [C, F] && y !in [F] ==> y == C
    ensures D in [B, C, D, F] && D !in [B, C, F]
    ensures forall y :: y in [B, C, D, F] && y !in [B, C, F] ==> y == D
    ensures A in [A, C, F] && A !in [C, F]
    ensures forall y :: y in [A, C, F] && y !in [C, F] ==> y == A
  {
  }

  /** The segments of the three digits that have a unique count. */
  lemma StandardDigits()
    ensures Standard(1) == [C, F] && Standard(4) == [B, C, D, F] && Standard(7) == [A, C, F]
  {
  }

  /** Distinct segments are wired to distinct signals. */
  lemma WireInjective(w: seq<Signal>, x: Signal, y: Signal)
    requires IsWiring(w) && Wire(w, x) == Wire(w, y)
    ensures x == y
  {
    SignalsOfOrd(x);
    SignalsOfOrd(y);
  }

  /** Every signal is wired to some segment. */
  lemma Unwire(w: seq<Signal>, s: Signal) returns (x: Signal)
    requires IsWiring(w)
    ensures Wire(w, x) == s
  {
    assert s in w;
    var i :| 0 <= i < 7 && w[i] == s;
    x := SIGNALS[i];
    OrdOfSignals(i);
  }

  /** `Ord` and `SIGNALS` are inverse. */
  lemma OrdOfSignals(i: nat)
    requires i < 7
    ensures Ord(SIGNALS[i]) == i
  {
  }

  lemma SignalsOfOrd(s: Signal)
    ensures SIGNALS[Ord(s)] == s
  {
  }

  /** The signals of all segments are the wiring itself. */
  lemma RewireSignals(w: seq<Signal>)
    requires IsWiring(w)
    ensures Rewire(w, SIGNALS) == w
  {
    forall i | 0 <= i < 7
      ensures Rewire(w, SIGNALS)[i] == w[i]
    {
      RewireAt(w, SIGNALS, i);
      OrdOfSignals(i);
    }
  }

  /** A signal occurs among the rewired segments as often as its segment among the
      segments. */
  lemma {:induction false} RewireCount(w: seq<Signal>, segs: seq<Signal>, x: Signal)
    requires IsWiring(w)
    ensures multiset(Rewire(w, segs))[Wire(w, x)] == multiset(segs)[x]
    decreases |segs|
  {
    if |segs| > 0 {
      var h, t := segs[0], segs[1..];
      RewireCount(w, t, x);
      assert segs == [h] + t;
      assert Rewire(w, segs) == [Wire(w, h)] + Rewire(w, t);
      assert multiset(Rewire(w, segs)) == multiset{Wire(w, h)} + multiset(Rewire(w, t));
      if Wire(w, h) == Wire(w, x) {
        WireInjective(w, h, x);
      }
    }
  }

  /** The signal of every segment is among the rewired segments. */
  lemma WireInRewire(w: seq<Signal>, segs: seq<Signal>, y: Signal)
    requires |w| == 7 && y in segs
    ensures Wire(w, y) in Rewire(w, segs)
  {
    var i :| 0 <= i < |segs| && segs[i] == y;
    RewireAt(w, segs, i);
  }

  /** Every signal among the rewired segments is the signal of one of them. */
  lemma RewireMember(w: seq<Signal>, segs: seq<Signal>, v: Signal) returns (y: Signal)
    requires IsWiring(w) && v in Rewire(w, segs)
    ensures y in segs && Wire(w, y) == v
  {
    var i :| 0 <= i < |segs| && Rewire(w, segs)[i] == v;
    RewireAt(w, segs, i);
    y := segs[i];
  }

  /** Each signal is lit as often as its segment is among the ten digits. */
  lemma FreqOfWire(digits: seq<Digit>, w: seq<Signal>, order: seq<nat>, x: Signal)
    requires Scrambled(digits, w, order)
    ensures Freq(digits, Wire(w, x)) == SegmentCount(x)
  {
    var v := Wire(w, x);
    forall k | 0 <= k < 10
      ensures Occurrences(v)(digits[k]) == Column(x)(order[k])
    {
      DigitColumn(digits, w, order, x, k);
    }
    CountColumn(digits, order, v, x);
  }

  /** Digits that light `v` as their standard digits light `x` light it as often in
      total as the ten standard digits light `x`. */
  lemma CountColumn(digits: seq<Digit>, order: seq<nat>, v: Signal, x: Signal)
    requires |digits| == 10 && |order| == 10 && multiset(order) == multiset(DIGIT_VALUES)
    requires forall k :: 0 <= k < 10 ==> Occurrences(v)(digits[k]) == Column(x)(order[k])
    ensures Freq(digits, v) == SegmentCount(x)
  {
    FlattenCount(digits, v);
    SumOfPointwise(digits, Occurrences(v), order, Column(x));
    SumOfPermutation(order, DIGIT_VALUES, Column(x));
    ColumnCount(x);
  }

  /** The k-th digit lights the signal of `x` once if its standard digit lights
      `x`, and not at all otherwise. */
  lemma DigitColumn(digits: seq<Digit>, w: seq<Signal>, order: seq<nat>, x: Signal, k: nat)
    requires Scrambled(digits, w, order) && k < 10
    ensures Occurrences(Wire(w, x))(digits[k]) == Column(x)(order[k])
  {
    RewireCount(w, Standard(order[k]), x);
    StandardOnce(order[k], x);
  }

  /** Whether standard digit `j` lights segment `x`. */
  function Column(x: Signal): nat -> int
  {
    (j: nat) => if j < 10 && Lit(j, x) then 1 else 0
  }

  /** Each standard digit lists each of its segments once. */
  lemma StandardOnce(j: nat, x: Signal)
    requires j < 10
    ensures multiset(Standard(j))[x] == Column(x)(j)
  {
    assert multiset(Standard(j))
      == multiset(Segment(j, A)) + multiset(Segment(j, B)) + multiset(Segment(j, C)) + multiset(Segment(j, D))
       + multiset(Segment(j, E)) + multiset(Segment(j, F)) + multiset(Segment(j, G));
    SegmentOnce(j, x, A);
    SegmentOnce(j, x, B);
    SegmentOnce(j, x, C);
    SegmentOnce(j, x, D);
    SegmentOnce(j, x, E);
    SegmentOnce(j, x, F);
    SegmentOnce(j, x, G);
  }

  lemma SegmentOnce(j: nat, x: Signal, y: Signal)
    ensures multiset(Segment(j, y))[x] == if x == y && Lit(j, x) then 1 else 0
  {
  }

  /** The number of standard digits lighting each segment. */
  lemma ColumnCount(x: Signal)
    ensures SumOf(DIGIT_VALUES, Column(x)) == SegmentCount(x)
  {
    match x
    case A => ColumnSum(x, 1, 0, 1, 1, 0, 1, 1, 1, 1, 1);
    case B => ColumnSum(x, 1, 0, 0, 0, 1, 1, 1, 0, 1, 1);
    case C => ColumnSum(x, 1, 1, 1, 1, 1, 0, 0, 1, 1, 1);
    case D => ColumnSum(x, 0, 0, 1, 1, 1, 1, 1, 0, 1, 1);
    case E => ColumnSum(x, 1, 0, 1, 0, 0, 0, 1, 0, 1, 0);
    case F => ColumnSum(x, 1, 1, 0, 1, 1, 1, 1, 1, 1, 1);
    case G => ColumnSum(x, 1, 0, 1, 1, 0, 1, 1, 0, 1, 1);
  }

  lemma ColumnSum(x: Signal, c0: int, c1: int, c2: int, c3: int, c4: int, c5: int, c6: int, c7: int, c8: int, c9: int)
    requires Column(x)(0) == c0 && Column(x)(1) == c1 && Column(x)(2) == c2 && Column(x)(3) == c3
    requires Column(x)(4) == c4 && Column(x)(5) == c5 && Column(x)(6) == c6 && Column(x)(7) == c7
    requires Column(x)(8) == c8 && Column(x)(9) == c9
    requires c0 + c1 + c2 + c3 + c4 + c5 + c6 + c7 + c8 + c9 == SegmentCount(x)
    ensures SumOf(DIGIT_VALUES, Column(x)) == SegmentCount(x)
  {
    var column := Column(x);
    SumOfFive<nat>(0, 1, 2, 3, 4, column);
    SumOfFive<nat>(5, 6, 7, 8, 9, column);
    assert DIGIT_VALUES == [0, 1, 2, 3, 4] + [5, 6, 7, 8, 9];
    SumOfConcat<nat>([0, 1, 2, 3, 4], [5, 6, 7, 8, 9], column);
  }

  /** The frequency lookups find the signals of f, e and b, the only segments lit by
      9, 4 and 6 digits. */
  lemma LedWithFreqWired(digits: seq<Digit>, w: seq<Signal>, order: seq<nat>, x: Signal, n: nat, i: nat)
    requires Scrambled(digits, w, order)
    requires x == F || x == E || x == B
    requires n == SegmentCount(x) && i == Ord(x)
    ensures LedWithFreq(digits, n) == Some(w[i])
  {
    FreqOfWire(digits, w, order, x);
    var r := LedWithFreq(digits, n);
    assert r.Some?;
    FreqUnique(digits, w, order, x, r.value);
  }

  /** The signals of f, e and b are the only ones lit 9, 4 and 6 times. */
  lemma FreqUnique(digits: seq<Digit>, w: seq<Signal>, order: seq<nat>, x: Signal, s: Signal)
    requires Scrambled(digits, w, order)
    requires x == F || x == E || x == B
    requires Freq(digits, s) == SegmentCount(x)
    ensures s == Wire(w, x)
  {
    var y := Unwire(w, s);
    FreqOfWire(digits, w, order, y);
    SegmentCountUnique(x, y);
  }

  /** Only f, e and b are lit by 9, 4 and 6 of the ten digits. */
  lemma SegmentCountUnique(x: Signal, y: Signal)
    requires x == F || x == E || x == B
    requires SegmentCount(y) == SegmentCount(x)
    ensures y == x
  {
  }

  /** The digit lookup by count finds a digit showing the only standard digit with
      that many segments. */
  lemma DigitWithLedsWired(digits: seq<Digit>, w: seq<Signal>, order: seq<nat>, j: nat) returns (digit: Digit)
    requires Scrambled(digits, w, order)
    requires j == 1 || j == 4 || j == 7
    ensures DigitWithLeds(digits, |Standard(j)|) == Some(digit)
    ensures multiset(digit) == multiset(Rewire(w, Standard(j)))
  {
    var n := |Standard(j)|;
    var k := PositionOf(order, j);
    assert |digits[k]| == |multiset(digits[k])| == n;
    var r := DigitWithLeds(digits, n);
    digit := r.value;
    var k' := IndexOf(digits, digit);
    assert |Standard(order[k'])| == |multiset(digit)| == n;
    UniqueLength(order[k'], j);
  }

  /** Every digit value has a place in an order of the ten digits. */
  lemma PositionOf(order: seq<nat>, j: nat) returns (k: nat)
    requires multiset(order) == multiset(DIGIT_VALUES) && j < 10
    ensures k < |order| && order[k] == j
  {
    DigitValue(j);
    MemberOfPermutation(order, DIGIT_VALUES, j);
    k := IndexOf(order, j);
  }

  lemma DigitValue(j: nat)
    requires j < 10
    ensures j in DIGIT_VALUES
  {
    assert DIGIT_VALUES[j] == j;
  }

  lemma UniqueLength(i: nat, j: nat)
    requires i < 10 && (j == 1 || j == 4 || j == 7) && |Standard(i)| == |Standard(j)|
    ensures i == j
  {
    StandardLength(i);
    StandardLength(j);
  }

  /** The number of segments each digit lights. */
  lemma StandardLength(j: nat)
    requires j < 10
    ensures |Standard(j)| == [6, 2, 5, 5, 4, 5, 6, 3, 7, 6][j]
  {
    match j
    case 0 => assert Standard(0) == [A, B, C, E, F, G];
    case 1 => assert Standard(1) == [C, F];
    case 2 => assert Standard(2) == [A, C, D, E, G];
    case 3 => assert Standard(3) == [A, C, D, F, G];
    case 4 => assert Standard(4) == [B, C, D, F];
    case 5 => assert Standard(5) == [A, B, D, F, G];
    case 6 => assert Standard(6) == [A, B, D, E, F, G];
    case 7 => assert Standard(7) == [A, C, F];
    case 8 => assert Standard(8) == SIGNALS;
    case 9 => assert Standard(9) == [A, B, C, D, F, G];
  }

  /** In a digit showing the segments `segs`, the remaining led after removing the
      signals of `removed` is the signal of the only segment not removed. */
  lemma RemainingWired(w: seq<Signal>, digit: Digit, segs: seq<Signal>, removed: seq<Signal>, rm: seq<Signal>, x: Signal)
    requires IsWiring(w)
    requires multiset(digit) == multiset(Rewire(w, segs))
    requires rm == Rewire(w, removed)
    requires x in segs && x !in removed
    requires forall y :: y in segs && y !in removed ==> y == x
    ensures RemainingLed(digit, rm) == Some(Wire(w, x))
  {
    var v := Wire(w, x);
    RewireCount(w, segs, x);
    assert v in multiset(digit);
    if v in rm {
      var y := RewireMember(w, removed, v);
      WireInjective(w, x, y);
    }
    var r := RemainingLed(digit, rm);
    assert r.Some? by {
      var i :| 0 <= i < |digit| && digit[i] == v;
    }
    assert r.value in multiset(Rewire(w, segs));
    var y := RewireMember(w, segs, r.value);
    if y in removed {
      WireInRewire(w, removed, y);
      assert false;
    }
  }
}
