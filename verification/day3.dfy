/** Day 3 (binary diagnostic): bit strings, the per-column majority, inversion
    and the big-endian value used for the power consumption. */
module Day3 {
  import opened Wrappers
  import opened Text
  import opened Seqs

  type Bits = seq<bool>

  const U32_MODULUS: nat := 0x1_0000_0000

  // ----------------------------------------------------------------- parsing

  predicate IsBitChar(c: char) {
    c == '0' || c == '1'
  }

  /** `to_bitvec`: the trimmed line, '0' as false and '1' as true; any other
      character panics (`None`). */
  function ToBitvec(s: string): Option<Bits>
  {
    ReadBits(Trim(s))
  }

  /** The conversion of `to_bitvec` after trimming. */
  function ReadBits(t: string): (r: Option<Bits>)
    ensures r.Some? <==> forall i :: 0 <= i < |t| ==> IsBitChar(t[i])
    ensures r.Some? ==> (|r.value| == |t|
      && forall i :: 0 <= i < |r.value| ==> (r.value[i] <==> t[i] == '1'))
  {
    if forall i :: 0 <= i < |t| ==> IsBitChar(t[i]) then
      Some(seq(|t|, i requires 0 <= i < |t| => t[i] == '1'))
    else
      None
  }

  /** A bit vector written as a string of '0' and '1'. */
  function Render(b: Bits): (s: string)
    ensures |s| == |b|
    ensures forall i :: 0 <= i < |s| ==> s[i] == if b[i] then '1' else '0'
  {
    seq(|b|, i requires 0 <= i < |b| => if b[i] then '1' else '0')
  }

  /** Reading back a rendered bit vector gives the vector. */
  lemma ToBitvecRender(b: Bits)
    ensures ToBitvec(Render(b)) == Some(b)
  {
    RenderTrimmed(b);
    ReadRender(b);
  }

  lemma RenderTrimmed(b: Bits)
    ensures Trim(Render(b)) == Render(b)
  {
    var s := Render(b);
    if |s| > 0 {
      assert IsBitChar(s[0]) && IsBitChar(s[|s| - 1]);
    }
    TrimNoop(s);
  }

  lemma ReadRender(b: Bits)
    ensures ReadBits(Render(b)) == Some(b)
  {
    var s := Render(b);
    forall i | 0 <= i < |s| ensures IsBitChar(s[i]) && (s[i] == '1' <==> b[i]) {
      assert s[i] == if b[i] then '1' else '0';
    }
    var r := ReadBits(s);
    forall i | 0 <= i < |b| ensures r.value[i] == b[i] {
      assert r.value[i] <==> s[i] == '1';
    }
    assert r.value == b;
  }

  lemma ToBitvecExample()
    ensures ToBitvec("010110") == Some([false, true, false, true, true, false])
  {
    var b := [false, true, false, true, true, false];
    assert Render(b) == "010110";
    ToBitvecRender(b);
  }

  // ------------------------------------------------------- most common bits

  /** How many of the vectors have a one (`bit` true) or a zero (`bit` false) at column i;
      a vector too short to reach column i counts for neither. */
  function CountAt(vecs: seq<Bits>, i: nat, bit: bool): nat
  {
    if |vecs| == 0 then 0
    else (if i < |vecs[0]| && vecs[0][i] == bit then 1 else 0) + CountAt(vecs[1..], i, bit)
  }

  lemma {:induction false} CountAtConcat(a: seq<Bits>, b: seq<Bits>, i: nat, bit: bool)
    ensures CountAt(a + b, i, bit) == CountAt(a, i, bit) + CountAt(b, i, bit)
    decreases |a|
  {
    if |a| == 0 {
      assert a + b == b;
    } else {
      assert (a + b)[1..] == a[1..] + b;
      CountAtConcat(a[1..], b, i, bit);
    }
  }

  /** The length of the longest vector (0 when there is none). */
  function MaxLen(vecs: seq<Bits>): (n: nat)
    ensures forall k :: 0 <= k < |vecs| ==> |vecs[k]| <= n
    ensures n == 0 || exists k :: 0 <= k < |vecs| && |vecs[k]| == n
  {
    if |vecs| == 0 then 0
    else
      var rest := MaxLen(vecs[1..]);
      if |vecs[0]| >= rest then |vecs[0]| else rest
  }

  lemma MaxLenSnoc(vecs: seq<Bits>, bits: Bits)
    ensures MaxLen(vecs + [bits]) == if |bits| > MaxLen(vecs) then |bits| else MaxLen(vecs)
  {
    var all := vecs + [bits];
    var n := MaxLen(all);
    assert all[|vecs|] == bits;
    forall k | 0 <= k < |vecs| ensures |vecs[k]| <= n {
      assert all[k] == vecs[k];
    }
    if n > 0 {
      var k :| 0 <= k < |all| && |all[k]| == n;
      if k < |vecs| {
        assert all[k] == vecs[k];
      }
    }
  }

  /** One round of the loop of `most_common_bits`: grow the weights with zeros up to
      the length of the vector, then add one for each set bit and take one for each
      clear bit. */
  function AddWeights(w: seq<int>, bits: Bits): (r: seq<int>)
    ensures |r| == if |bits| > |w| then |bits| else |w|
  {
    var n := if |bits| > |w| then |bits| else |w|;
    seq(n, i requires 0 <= i < n =>
      (if i < |w| then w[i] else 0) + (if i < |bits| then (if bits[i] then 1 else -1) else 0))
  }

  /** The weight vector after folding all the bit vectors. */
  function Weights(vecs: seq<Bits>): seq<int>
    decreases |vecs|
  {
    if |vecs| == 0 then [] else AddWeights(Weights(vecs[..|vecs| - 1]), vecs[|vecs| - 1])
  }

  /** Weight i is the number of vectors with a one at column i minus the number with
      a zero there, and there is one weight per column of the longest vector. */
  lemma {:induction false} WeightsCount(vecs: seq<Bits>)
    ensures |Weights(vecs)| == MaxLen(vecs)
    ensures forall i :: 0 <= i < |Weights(vecs)| ==>
      Weights(vecs)[i] == CountAt(vecs, i, true) - CountAt(vecs, i, false)
    decreases |vecs|
  {
    if |vecs| > 0 {
      var prefix := vecs[..|vecs| - 1];
      var bits := vecs[|vecs| - 1];
      assert vecs == prefix + [bits];
      WeightsCount(prefix);
      MaxLenSnoc(prefix, bits);
      forall i: nat, bit: bool
        ensures CountAt(vecs, i, bit) == CountAt(prefix, i, bit) + (if i < |bits| && bits[i] == bit then 1 else 0)
      {
        CountAtConcat(prefix, [bits], i, bit);
        assert [bits][1..] == [];
      }
      var w := Weights(prefix);
      forall i | |w| <= i
        ensures CountAt(prefix, i, true) == 0 && CountAt(prefix, i, false) == 0
      {
        CountAtBeyond(prefix, i, true);
        CountAtBeyond(prefix, i, false);
      }
    }
  }

  /** No vector reaches a column at or past the longest length. */
  lemma {:induction false} CountAtBeyond(vecs: seq<Bits>, i: nat, bit: bool)
    requires MaxLen(vecs) <= i
    ensures CountAt(vecs, i, bit) == 0
    decreases |vecs|
  {
    if |vecs| > 0 {
      CountAtBeyond(vecs[1..], i, bit);
    }
  }

  /** `most_common_bits`: the sign of each weight. */
  function MostCommonBits(vecs: seq<Bits>): Bits
  {
    var w := Weights(vecs);
    seq(|w|, i requires 0 <= i < |w| => w[i] >= 0)
  }

  /** Bit i of `most_common_bits` is set exactly when at least as many vectors have a
      one as a zero at column i (ties go to one), and there are as many bits as the
      longest vector has. */
  lemma MostCommonBitsMajority(vecs: seq<Bits>)
    ensures |MostCommonBits(vecs)| == MaxLen(vecs)
    ensures forall i :: 0 <= i < |MostCommonBits(vecs)| ==>
      (MostCommonBits(vecs)[i] <==> CountAt(vecs, i, true) >= CountAt(vecs, i, false))
  {
    WeightsCount(vecs);
  }

  // ------------------------------------------------------- invert, to_integer

  /** `invert_bits`. */
  function InvertBits(b: Bits): (r: Bits)
    ensures |r| == |b|
    ensures forall i :: 0 <= i < |b| ==> r[i] == !b[i]
  {
    seq(|b|, i requires 0 <= i < |b| => !b[i])
  }

  lemma InvertInvolution(b: Bits)
    ensures InvertBits(InvertBits(b)) == b
  {
  }

  /** The big-endian binary value of a bit vector, without any width limit. */
  function Value(b: Bits): nat
  {
    if |b| == 0 then 0 else 2 * Value(b[..|b| - 1]) + (if b[|b| - 1] then 1 else 0)
  }

  function Pow2(n: nat): (p: nat)
    ensures p >= 1
  {
    if n == 0 then 1 else 2 * Pow2(n - 1)
  }

  /** `to_integer`: the left fold `(acc << 1) + bit` in `u32`, where the shift drops
      the bit that leaves the word. */
  function ToInteger(b: Bits): (r: nat)
    ensures r < U32_MODULUS
  {
    if |b| == 0 then 0
    else (ToInteger(b[..|b| - 1]) * 2) % U32_MODULUS + (if b[|b| - 1] then 1 else 0)
  }

  /** `to_integer` is the binary value reduced to its lowest 32 bits. */
  lemma ToIntegerIsValue(b: Bits)
    ensures ToInteger(b) == Value(b) % U32_MODULUS
    ensures |b| <= 32 ==> ToInteger(b) == Value(b)
  {
    ToIntegerIsValueMod(b);
    if |b| <= 32 {
      ValueBound(b);
      Pow2Mono(|b|, 32);
      Pow2Of32();
    }
  }

  lemma {:induction false} ToIntegerIsValueMod(b: Bits)
    ensures ToInteger(b) == Value(b) % U32_MODULUS
    decreases |b|
  {
    if |b| > 0 {
      var p := b[..|b| - 1];
      var bit := if b[|b| - 1] then 1 else 0;
      ToIntegerIsValueMod(p);
      ModDouble(Value(p), bit);
      assert Value(b) == 2 * Value(p) + bit;
      assert ToInteger(b) == (ToInteger(p) * 2) % U32_MODULUS + bit;
    }
  }

  lemma ModDouble(v: nat, bit: nat)
    requires bit <= 1
    ensures (2 * v + bit) % U32_MODULUS == ((v % U32_MODULUS) * 2) % U32_MODULUS + bit
  {
    var q := v / U32_MODULUS;
    var m := v % U32_MODULUS;
    assert v == q * U32_MODULUS + m;
    assert 2 * v + bit == (2 * q) * U32_MODULUS + (2 * m + bit);
    var m2 := (2 * m) % U32_MODULUS;
    var q2 := (2 * m) / U32_MODULUS;
    assert 2 * m == q2 * U32_MODULUS + m2;
    assert m2 % 2 == 0;
    assert 2 * v + bit == (2 * q + q2) * U32_MODULUS + (m2 + bit);
  }

  lemma {:induction false} ValueBound(b: Bits)
    ensures Value(b) < Pow2(|b|)
    decreases |b|
  {
    if |b| > 0 {
      ValueBound(b[..|b| - 1]);
    }
  }

  lemma {:induction false} Pow2Add(a: nat, b: nat)
    ensures Pow2(a + b) == Pow2(a) * Pow2(b)
    decreases a
  {
    if a > 0 {
      Pow2Add(a - 1, b);
    }
  }

  lemma Pow2Of32()
    ensures Pow2(32) == U32_MODULUS
  {
    assert Pow2(4) == 16;
    Pow2Add(4, 4);
    Pow2Add(8, 8);
    Pow2Add(16, 16);
  }

  lemma {:induction false} Pow2Mono(a: nat, b: nat)
    requires a <= b
    ensures Pow2(a) <= Pow2(b)
    decreases b
  {
    if a < b {
      Pow2Mono(a, b - 1);
    }
  }

  /** A value and the value of its inversion add up to the all-ones word. */
  lemma {:induction false} ValueInvert(b: Bits)
    ensures Value(b) + Value(InvertBits(b)) == Pow2(|b|) - 1
    decreases |b|
  {
    if |b| > 0 {
      var p := b[..|b| - 1];
      assert InvertBits(b)[..|b| - 1] == InvertBits(p);
      ValueInvert(p);
    }
  }

  lemma ToIntegerExample()
    ensures ToInteger([true, false, true, false]) == 10
  {
    var b1 := [true];
    var b2 := b1 + [false];
    var b3 := b2 + [true];
    var b4 := b3 + [false];
    assert ToInteger(b1) == 1;
    assert b2[..1] == b1;
    assert ToInteger(b2) == 2;
    assert b3[..2] == b2;
    assert ToInteger(b3) == 5;
    assert b4[..3] == b3;
    assert b4 == [true, false, true, false];
  }

  // ------------------------------------------------------- power consumption

  /** `power_consumption`: gamma (the value of the most common bits) times epsilon
      (the value of their inversion), a `u32` product that panics on overflow. */
  function PowerConsumption(vecs: seq<Bits>): (r: Option<nat>)
    ensures r.Some? ==> r.value <= U32_MAX
  {
    var common := MostCommonBits(vecs);
    var gamma := ToInteger(common);
    var epsilon := ToInteger(InvertBits(common));
    MulU32(gamma, epsilon)
  }

  /** The `u32` product, `None` where a debug build panics on overflow. */
  function MulU32(a: nat, b: nat): (r: Option<nat>)
  {
    if a * b <= U32_MAX then Some(a * b) else None
  }

  /** For vectors of at most 32 bits, gamma is the binary value of the most common
      bits and epsilon is its complement: together they fill every bit of the width. */
  lemma GammaEpsilonComplement(vecs: seq<Bits>)
    requires MaxLen(vecs) <= 32
    ensures var common := MostCommonBits(vecs);
      && ToInteger(common) == Value(common)
      && ToInteger(common) + ToInteger(InvertBits(common)) == Pow2(MaxLen(vecs)) - 1
  {
    var common := MostCommonBits(vecs);
    MostCommonBitsMajority(vecs);
    ToIntegerIsValue(common);
    ToIntegerIsValue(InvertBits(common));
    ValueInvert(common);
  }

  /** For vectors of at most 32 bits the power consumption is gamma, the binary value
      of the most common bits, times its complement in the width of the longest
      vector; it is `None`, the `u32` overflow panic, exactly when that product does
      not fit in 32 bits. */
  lemma {:induction false} PowerConsumptionValue(vecs: seq<Bits>)
    requires MaxLen(vecs) <= 32
    ensures Value(MostCommonBits(vecs)) < Pow2(MaxLen(vecs))
    ensures var gamma := Value(MostCommonBits(vecs));
      PowerConsumption(vecs) == MulU32(gamma, Pow2(MaxLen(vecs)) - 1 - gamma)
  {
    GammaEpsilonComplement(vecs);
  }

  lemma WeightsSnoc(vecs: seq<Bits>, bits: Bits)
    ensures Weights(vecs + [bits]) == AddWeights(Weights(vecs), bits)
  {
    assert (vecs + [bits])[..|vecs|] == vecs;
  }

  lemma ExampleWeights2()
    ensures Weights([[false, false, true, false, false], [true, true, true, true, false]])
      == [0, 0, 2, 0, -2]
  {
    var v: seq<Bits> := [];
    WeightsSnoc(v, [false, false, true, false, false]);
    v := v + [[false, false, true, false, false]];
    assert Weights(v) == [-1, -1, 1, -1, -1];
    WeightsSnoc(v, [true, true, true, true, false]);
    v := v + [[true, true, true, true, false]];
    assert Weights(v) == [0, 0, 2, 0, -2];
    assert v == [[false, false, true, false, false], [true, true, true, true, false]];
  }

  lemma ExampleWeights4()
    ensures Weights([[false, false, true, false, false], [true, true, true, true, false], [true, false, true, true, false], [true, false, true, true, true]])
      == [2, -2, 4, 2, -2]
  {
    ExampleWeights2();
    var v := [[false, false, true, false, false], [true, true, true, true, false]];
    WeightsSnoc(v, [true, false, true, true, false]);
    v := v + [[true, false, true, true, false]];
    assert Weights(v) == [1, -1, 3, 1, -3];
    WeightsSnoc(v, [true, false, true, true, true]);
    v := v + [[true, false, true, true, true]];
    assert Weights(v) == [2, -2, 4, 2, -2];
    assert v == [[false, false, true, false, false], [true, true, true, true, false], [true, false, true, true, false], [true, false, true, true, true]];
  }

  lemma ExampleWeights6()
    ensures Weights([[false, false, true, false, false], [true, true, true, true, false], [true, false, true, true, false], [true, false, true, true, true], [true, false, true, false, true], [false, true, true, true, true]])
      == [2, -2, 6, 2, 0]
  {
    ExampleWeights4();
    var v := [[false, false, true, false, false], [true, true, true, true, false], [true, false, true, true, false], [true, false, true, true, true]];
    WeightsSnoc(v, [true, false, true, false, true]);
    v := v + [[true, false, true, false, true]];
    assert Weights(v) == [3, -3, 5, 1, -1];
    WeightsSnoc(v, [false, true, true, true, true]);
    v := v + [[false, true, true, true, true]];
    assert Weights(v) == [2, -2, 6, 2, 0];
    assert v == [[false, false, true, false, false], [true, true, true, true, false], [true, false, true, true, false], [true, false, true, true, true], [true, false, true, false, true], [false, true, true, true, true]];
  }

  lemma ExampleWeights8()
    ensures Weights([[false, false, true, false, false], [true, true, true, true, false], [true, false, true, true, false], [true, false, true, true, true], [true, false, true, false, true], [false, true, true, true, true], [false, false, true, true, true], [true, true, true, false, false]])
      == [2, -2, 8, 2, 0]
  {
    ExampleWeights6();
    var v := [[false, false, true, false, false], [true, true, true, true, false], [true, false, true, true, false], [true, false, true, true, true], [true, false, true, false, true], [false, true, true, true, true]];
    WeightsSnoc(v, [false, false, true, true, true]);
    v := v + [[false, false, true, true, true]];
    assert Weights(v) == [1, -3, 7, 3, 1];
    WeightsSnoc(v, [true, true, true, false, false]);
    v := v + [[true, true, true, false, false]];
    assert Weights(v) == [2, -2, 8, 2, 0];
    assert v == [[false, false, true, false, false], [true, true, true, true, false], [true, false, true, true, false], [true, false, true, true, true], [true, false, true, false, true], [false, true, true, true, true], [false, false, true, true, true], [true, true, true, false, false]];
  }

  lemma ExampleWeights10()
    ensures Weights([[false, false, true, false, false], [true, true, true, true, false], [true, false, true, true, false], [true, false, true, true, true], [true, false, true, false, true], [false, true, true, true, true], [false, false, true, true, true], [true, true, true, false, false], [true, false, false, false, false], [true, true, false, false, true]])
      == [4, -2, 6, 0, 0]
  {
    ExampleWeights8();
    var v := [[false, false, true, false, false], [true, true, true, true, false], [true, false, true, true, false], [true, false, true, true, true], [true, false, true, false, true], [false, true, true, true, true], [false, false, true, true, true], [true, true, true, false, false]];
    WeightsSnoc(v, [true, false, false, false, false]);
    v := v + [[true, false, false, false, false]];
    assert Weights(v) == [3, -3, 7, 1, -1];
    WeightsSnoc(v, [true, true, false, false, true]);
    v := v + [[true, true, false, false, true]];
    assert Weights(v) == [4, -2, 6, 0, 0];
    assert v == [[false, false, true, false, false], [true, true, true, true, false], [true, false, true, true, false], [true, false, true, true, true], [true, false, true, false, true], [false, true, true, true, true], [false, false, true, true, true], [true, true, true, false, false], [true, false, false, false, false], [true, true, false, false, true]];
  }

  lemma ExampleWeights12()
    ensures Weights([[false, false, true, false, false], [true, true, true, true, false], [true, false, true, true, false], [true, false, true, true, true], [true, false, true, false, true], [false, true, true, true, true], [false, false, true, true, true], [true, true, true, false, false], [true, false, false, false, false], [true, true, false, false, true], [false, false, false, true, false], [false, true, false, true, false]])
      == [2, -2, 4, 2, -2]
  {
    ExampleWeights10();
    var v := [[false, false, true, false, false], [true, true, true, true, false], [true, false, true, true, false], [true, false, true, true, true], [true, false, true, false, true], [false, true, true, true, true], [false, false, true, true, true], [true, true, true, false, false], [true, false, false, false, false], [true, true, false, false, true]];
    WeightsSnoc(v, [false, false, false, true, false]);
    v := v + [[false, false, false, true, false]];
    assert Weights(v) == [3, -3, 5, 1, -1];
    WeightsSnoc(v, [false, true, false, true, false]);
    v := v + [[false, true, false, true, false]];
    assert Weights(v) == [2, -2, 4, 2, -2];
    assert v == [[false, false, true, false, false], [true, true, true, true, false], [true, false, true, true, false], [true, false, true, true, true], [true, false, true, false, true], [false, true, true, true, true], [false, false, true, true, true], [true, true, true, false, false], [true, false, false, false, false], [true, true, false, false, true], [false, false, false, true, false], [false, true, false, true, false]];
  }

  /** The twelve report lines of the example: the most common bits are 10110, so
      gamma is 22, epsilon is 9 and the power consumption is 198. */
  lemma PowerExample()
    ensures MostCommonBits([[false, false, true, false, false], [true, true, true, true, false], [true, false, true, true, false], [true, false, true, true, true], [true, false, true, false, true], [false, true, true, true, true], [false, false, true, true, true], [true, true, true, false, false], [true, false, false, false, false], [true, true, false, false, true], [false, false, false, true, false], [false, true, false, true, false]])
      == [true, false, true, true, false]
    ensures PowerConsumption([[false, false, true, false, false], [true, true, true, true, false], [true, false, true, true, false], [true, false, true, true, true], [true, false, true, false, true], [false, true, true, true, true], [false, false, true, true, true], [true, true, true, false, false], [true, false, false, false, false], [true, true, false, false, true], [false, false, false, true, false], [false, true, false, true, false]]) == Some(198)
  {
    ExampleWeights12();
    var common := [true, false, true, true, false];
    assert MostCommonBits([[false, false, true, false, false], [true, true, true, true, false], [true, false, true, true, false], [true, false, true, true, true], [true, false, true, false, true], [false, true, true, true, true], [false, false, true, true, true], [true, true, true, false, false], [true, false, false, false, false], [true, true, false, false, true], [false, false, false, true, false], [false, true, false, true, false]]) == common;
    assert InvertBits(common) == [false, true, false, false, true];
    ExampleGamma();
    ExampleEpsilon();
  }

  lemma ExampleGamma()
    ensures ToInteger([true, false, true, true, false]) == 22
  {
    var b: Bits := [];
    var b1 := b + [true];
    assert b1[..0] == b;
    assert ToInteger(b1) == 1;
    var b2 := b1 + [false];
    assert b2[..1] == b1;
    assert ToInteger(b2) == 2;
    var b3 := b2 + [true];
    assert b3[..2] == b2;
    assert ToInteger(b3) == 5;
    var b4 := b3 + [true];
    assert b4[..3] == b3;
    assert ToInteger(b4) == 11;
    var b5 := b4 + [false];
    assert b5[..4] == b4;
    assert ToInteger(b5) == 22;
    assert b5 == [true, false, true, true, false];
  }

  lemma ExampleEpsilon()
    ensures ToInteger([false, true, false, false, true]) == 9
  {
    var b: Bits := [];
    var b1 := b + [false];
    assert b1[..0] == b;
    assert ToInteger(b1) == 0;
    var b2 := b1 + [true];
    assert b2[..1] == b1;
    assert ToInteger(b2) == 1;
    var b3 := b2 + [false];
    assert b3[..2] == b2;
    assert ToInteger(b3) == 2;
    var b4 := b3 + [false];
    assert b4[..3] == b3;
    assert ToInteger(b4) == 4;
    var b5 := b4 + [true];
    assert b5[..4] == b4;
    assert ToInteger(b5) == 9;
    assert b5 == [false, true, false, false, true];
  }
}
