/** The helpers of `common.rs` that carry logic: `math::delta`, `math::sum_n` and
    `collections::freq_count`. (The file-reading helpers of `common::parse` are I/O.) */
module Common {
  import opened Wrappers
  import opened Seqs

  // -------------------------------------------------------------------- delta

  /** `math::delta`: the distance between two unsigned numbers. The subtraction always
      takes the smaller from the larger, so it never underflows (a `nat` result here). */
  function Delta(a: nat, b: nat): (r: nat)
    ensures a == b + r || b == a + r
    ensures r == 0 <==> a == b
  {
    if a > b then a - b else b - a
  }

  /** Delta is a metric on the naturals: symmetric and obeying the triangle inequality. */
  lemma DeltaMetric(a: nat, b: nat, c: nat)
    ensures Delta(a, b) == Delta(b, a)
    ensures Delta(a, c) <= Delta(a, b) + Delta(b, c)
  {
  }

  // -------------------------------------------------------------------- sum_n

  /** The reference definition: 0 + 1 + ... + n. */
  function Triangle(n: nat): nat
  {
    if n == 0 then 0 else Triangle(n - 1) + n
  }

  lemma {:induction false} TriangleClosedForm(n: nat)
    ensures 2 * Triangle(n) == n * (n + 1)
  {
    if n > 0 {
      TriangleClosedForm(n - 1);
      assert n * (n + 1) == (n - 1) * n + 2 * n;
    }
  }

  /** `math::sum_n` at an unsigned width whose largest value is `max`. The code forms
      n + 1 and then n * (n + 1) before halving; a debug build panics (`None`) as soon
      as one of them does not fit, even when the final sum would. */
  function SumN(n: nat, max: nat): (r: Option<nat>)
    ensures r.Some? <==> n + 1 <= max && n * (n + 1) <= max
    ensures r.Some? ==> r.value == Triangle(n)
  {
    if n + 1 <= max && n * (n + 1) <= max then
      TriangleClosedForm(n);
      Some(n * (n + 1) / 2)
    else
      None
  }

  // --------------------------------------------------------------- freq_count

  /** `collections::freq_count`: the number of occurrences of each item, built by a
      left fold that bumps the entry of every item it meets. */
  function FreqCount<K(==)>(items: seq<K>): (r: map<K, nat>)
    ensures r.Keys == set k | k in items
    ensures forall k :: k in r ==> r[k] == multiset(items)[k]
  {
    if |items| == 0 then map[]
    else
      var prefix := items[..|items| - 1];
      var k := items[|items| - 1];
      assert items == prefix + [k];
      var m := FreqCount(prefix);
      m[k := (if k in m then m[k] else 0) + 1]
  }

  /** The distinct items, in order of first occurrence; each appears exactly once. */
  function Distinct<K(==)>(items: seq<K>): (r: seq<K>)
    ensures forall k :: k in r ==> k in items
    ensures forall k :: k in items ==> k in r
    ensures forall k :: k in r ==> multiset(r)[k] == 1
  {
    if |items| == 0 then []
    else
      var prefix := items[..|items| - 1];
      var k := items[|items| - 1];
      assert items == prefix + [k];
      if k in prefix then Distinct(prefix) else Distinct(prefix) + [k]
  }

  function CountIn<K>(m: map<K, nat>): K -> int
  {
    k => if k in m then m[k] else 0
  }

  lemma {:induction false} SumOfAgree<T>(s: seq<T>, f: T -> int, g: T -> int)
    requires forall i :: 0 <= i < |s| ==> f(s[i]) == g(s[i])
    ensures SumOf(s, f) == SumOf(s, g)
    decreases |s|
  {
    if |s| > 0 {
      SumOfAgree(s[1..], f, g);
    }
  }

  lemma {:induction false} SumOfBump<T>(s: seq<T>, f: T -> int, g: T -> int, x: T)
    requires forall k :: k != x ==> g(k) == f(k)
    requires g(x) == f(x) + 1
    ensures SumOf(s, g) == SumOf(s, f) + multiset(s)[x]
    decreases |s|
  {
    if |s| > 0 {
      assert s == [s[0]] + s[1..];
      SumOfBump(s[1..], f, g, x);
    }
  }

  /** The counts of `freq_count` add up to the number of items. */
  lemma {:induction false} FreqCountTotal<K>(items: seq<K>)
    ensures SumOf(Distinct(items), CountIn(FreqCount(items))) == |items|
    decreases |items|
  {
    if |items| > 0 {
      var prefix := items[..|items| - 1];
      var x := items[|items| - 1];
      assert items == prefix + [x];
      FreqCountTotal(prefix);
      if x in prefix {
        FreqCountRepeat(prefix, x);
      } else {
        FreqCountFresh(prefix, x);
      }
    }
  }

  /** A repeated item adds one to its own count and changes no other. */
  lemma FreqCountRepeat<K>(prefix: seq<K>, x: K)
    requires x in prefix
    ensures SumOf(Distinct(prefix + [x]), CountIn(FreqCount(prefix + [x])))
         == SumOf(Distinct(prefix), CountIn(FreqCount(prefix))) + 1
  {
    var items := prefix + [x];
    assert items[..|items| - 1] == prefix;
    var d := Distinct(prefix);
    assert Distinct(items) == d;
    assert multiset(d)[x] == 1;
    SumOfBump(d, CountIn(FreqCount(prefix)), CountIn(FreqCount(items)), x);
  }

  /** A new item is appended with count one; the other counts stay. */
  lemma FreqCountFresh<K>(prefix: seq<K>, x: K)
    requires x !in prefix
    ensures SumOf(Distinct(prefix + [x]), CountIn(FreqCount(prefix + [x])))
         == SumOf(Distinct(prefix), CountIn(FreqCount(prefix))) + 1
  {
    var items := prefix + [x];
    assert items[..|items| - 1] == prefix;
    var f := CountIn(FreqCount(prefix));
    var g := CountIn(FreqCount(items));
    var d := Distinct(prefix);
    assert Distinct(items) == d + [x];
    assert x !in d by { assert multiset(d)[x] == 0; }
    forall i | 0 <= i < |d|
      ensures f(d[i]) == g(d[i])
    {
      assert d[i] in multiset(d);
    }
    SumOfAgree(d, f, g);
    SumOfConcat(d, [x], g);
  }
}
