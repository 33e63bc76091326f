/** Sums and sorts over sequences: the models of Rust's `Iterator::sum`,
    `slice::sort`, `sort_by(|a, b| b.cmp(a))` and `rdxsort` used by the puzzles. */
module Seqs {

  /** `s.iter().map(f).sum()`. */
  function SumOf<T>(s: seq<T>, f: T -> int): int
  {
    if |s| == 0 then 0 else f(s[0]) + SumOf(s[1..], f)
  }

  lemma {:induction false} SumOfConcat<T>(a: seq<T>, b: seq<T>, f: T -> int)
    ensures SumOf(a + b, f) == SumOf(a, f) + SumOf(b, f)
    decreases |a|
  {
    if |a| == 0 {
      assert a + b == b;
    } else {
      assert (a + b)[0] == a[0];
      assert (a + b)[1..] == a[1..] + b;
      SumOfConcat(a[1..], b, f);
    }
  }

  /** A sum of at least two terms splits into its first term, the middle and its last. */
  lemma SumOfEnds<T>(s: seq<T>, f: T -> int)
    requires |s| >= 2
    ensures SumOf(s, f) == f(s[0]) + SumOf(s[1..|s| - 1], f) + f(s[|s| - 1])
  {
    var middle := s[1..|s| - 1];
    var last := [s[|s| - 1]];
    assert s[1..] == middle + last;
    SumOfConcat(middle, last, f);
    assert SumOf(last, f) == f(s[|s| - 1]) by {
      assert last[1..] == [];
    }
  }

  lemma SumOfCons<T>(x: T, s: seq<T>, f: T -> int)
    ensures SumOf([x] + s, f) == f(x) + SumOf(s, f)
  {
    assert ([x] + s)[1..] == s;
  }

  /** A sum of five terms, written out. */
  lemma SumOfFive<T>(a: T, b: T, c: T, d: T, e: T, f: T -> int)
    ensures SumOf([a, b, c, d, e], f) == f(a) + f(b) + f(c) + f(d) + f(e)
  {
    SumOfCons(a, [b, c, d, e], f);
    SumOfCons(b, [c, d, e], f);
    SumOfCons(c, [d, e], f);
    SumOfCons(d, [e], f);
    SumOfCons(e, [], f);
    assert [a, b, c, d, e] == [a] + [b, c, d, e];
    assert [b, c, d, e] == [b] + [c, d, e];
    assert [c, d, e] == [c] + [d, e];
    assert [d, e] == [d] + [e];
    assert [e] == [e] + [];
  }

  /** One step of a sum over the suffixes of a sequence. */
  lemma SumOfSuffix<T>(s: seq<T>, k: nat, f: T -> int)
    requires k < |s|
    ensures SumOf(s[k..], f) == f(s[k]) + SumOf(s[k + 1..], f)
  {
    assert s[k..][1..] == s[k + 1..];
  }

  /** `s` without its element at index `j`. */
  function RemoveAt<T>(s: seq<T>, j: nat): (r: seq<T>)
    requires j < |s|
    ensures |r| == |s| - 1
    ensures multiset(r) == multiset(s) - multiset{s[j]}
  {
    assert s == s[..j] + [s[j]] + s[j + 1..];
    assert multiset(s) == multiset(s[..j]) + multiset{s[j]} + multiset(s[j + 1..]);
    s[..j] + s[j + 1..]
  }

  lemma SumOfRemoveAt<T>(s: seq<T>, j: nat, f: T -> int)
    requires j < |s|
    ensures SumOf(s, f) == f(s[j]) + SumOf(RemoveAt(s, j), f)
  {
    var front, back := s[..j], s[j + 1..];
    assert s == front + ([s[j]] + back);
    assert RemoveAt(s, j) == front + back;
    SumOfConcat(front, [s[j]] + back, f);
    SumOfConcat(front, back, f);
    assert ([s[j]] + back)[1..] == back;
    assert SumOf([s[j]] + back, f) == f(s[j]) + SumOf(back, f);
  }

  /** A sum does not depend on the order of its terms. */
  lemma {:induction false} SumOfPermutation<T>(a: seq<T>, b: seq<T>, f: T -> int)
    requires multiset(a) == multiset(b)
    ensures SumOf(a, f) == SumOf(b, f)
    decreases |a|
  {
    if |a| == 0 {
      assert |b| == |multiset(b)| == 0;
    } else {
      var x := a[0];
      assert x in multiset(b);
      var j :| 0 <= j < |b| && b[j] == x;
      assert a == [x] + a[1..];
      assert multiset(a[1..]) == multiset(a) - multiset{x};
      SumOfPermutation(a[1..], RemoveAt(b, j), f);
      SumOfRemoveAt(b, j, f);
    }
  }

  // ------------------------------------------------------------------ sorting

  predicate SortedAsc(s: seq<int>) {
    forall i, j :: 0 <= i < j < |s| ==> s[i] <= s[j]
  }

  predicate SortedDesc(s: seq<int>) {
    forall i, j :: 0 <= i < j < |s| ==> s[i] >= s[j]
  }

  /** Inserts `x` into an ascending sequence, before the first larger element. */
  function InsertAsc(x: int, s: seq<int>): (r: seq<int>)
    requires SortedAsc(s)
    ensures SortedAsc(r)
    ensures multiset(r) == multiset(s) + multiset{x}
    ensures |r| == |s| + 1 && (r[0] == x || (|s| > 0 && r[0] == s[0]))
  {
    if |s| == 0 || x <= s[0] then [x] + s
    else
      var rest := InsertAsc(x, s[1..]);
      assert s == [s[0]] + s[1..];
      assert forall k :: 0 <= k < |rest| ==> rest[0] <= rest[k];
      [s[0]] + rest
  }

  /** The ascending sort of `s` (the result of `sort`/`rdxsort` on a `Vec`). */
  function SortAsc(s: seq<int>): (r: seq<int>)
    ensures SortedAsc(r)
    ensures multiset(r) == multiset(s)
  {
    if |s| == 0 then []
    else
      assert s == [s[0]] + s[1..];
      InsertAsc(s[0], SortAsc(s[1..]))
  }

  /** Inserts `x` into a descending sequence, before the first smaller element. */
  function InsertDesc(x: int, s: seq<int>): (r: seq<int>)
    requires SortedDesc(s)
    ensures SortedDesc(r)
    ensures multiset(r) == multiset(s) + multiset{x}
    ensures |r| == |s| + 1 && (r[0] == x || (|s| > 0 && r[0] == s[0]))
  {
    if |s| == 0 || x >= s[0] then [x] + s
    else
      var rest := InsertDesc(x, s[1..]);
      assert s == [s[0]] + s[1..];
      assert forall k :: 0 <= k < |rest| ==> rest[0] >= rest[k];
      [s[0]] + rest
  }

  /** The descending sort of `s`. */
  function SortDesc(s: seq<int>): (r: seq<int>)
    ensures SortedDesc(r)
    ensures multiset(r) == multiset(s)
  {
    if |s| == 0 then []
    else
      assert s == [s[0]] + s[1..];
      InsertDesc(s[0], SortDesc(s[1..]))
  }

  /** Two ascending sequences with the same elements are equal: a sort's result is
      determined by the multiset it sorts. */
  lemma {:induction false} SortedAscUnique(a: seq<int>, b: seq<int>)
    requires SortedAsc(a) && SortedAsc(b) && multiset(a) == multiset(b)
    ensures a == b
    decreases |a|
  {
    if |a| > 0 {
      assert |b| > 0 by { assert |multiset(b)| == |multiset(a)|; }
      HeadsAsc(a, b);
      TailMultisets(a, b);
      assert SortedAsc(a[1..]) && SortedAsc(b[1..]);
      SortedAscUnique(a[1..], b[1..]);
    }
  }

  /** Equal multisets with equal heads have equal tails. */
  lemma TailMultisets<T>(a: seq<T>, b: seq<T>)
    requires |a| > 0 && |b| > 0 && a[0] == b[0] && multiset(a) == multiset(b)
    ensures multiset(a[1..]) == multiset(b[1..])
  {
    assert a == [a[0]] + a[1..] && b == [b[0]] + b[1..];
    assert multiset(a) == multiset{a[0]} + multiset(a[1..]);
    assert multiset(b) == multiset{b[0]} + multiset(b[1..]);
    forall y
      ensures multiset(a[1..])[y] == multiset(b[1..])[y]
    {
      assert multiset(a)[y] == multiset{a[0]}[y] + multiset(a[1..])[y];
      assert multiset(b)[y] == multiset{b[0]}[y] + multiset(b[1..])[y];
    }
  }

  lemma HeadsAsc(a: seq<int>, b: seq<int>)
    requires SortedAsc(a) && SortedAsc(b) && multiset(a) == multiset(b)
    requires |a| > 0 && |b| > 0
    ensures a[0] == b[0]
  {
    assert a[0] in multiset(b) && b[0] in multiset(a);
    var i :| 0 <= i < |b| && b[i] == a[0];
    var j :| 0 <= j < |a| && a[j] == b[0];
    assert b[0] <= b[i] && a[0] <= a[j];
  }

  /** The same for descending sequences. */
  lemma {:induction false} SortedDescUnique(a: seq<int>, b: seq<int>)
    requires SortedDesc(a) && SortedDesc(b) && multiset(a) == multiset(b)
    ensures a == b
    decreases |a|
  {
    if |a| > 0 {
      assert |b| > 0 by { assert |multiset(b)| == |multiset(a)|; }
      HeadsDesc(a, b);
      TailMultisets(a, b);
      assert SortedDesc(a[1..]) && SortedDesc(b[1..]);
      SortedDescUnique(a[1..], b[1..]);
    }
  }

  lemma HeadsDesc(a: seq<int>, b: seq<int>)
    requires SortedDesc(a) && SortedDesc(b) && multiset(a) == multiset(b)
    requires |a| > 0 && |b| > 0
    ensures a[0] == b[0]
  {
    assert a[0] in multiset(b) && b[0] in multiset(a);
    var i :| 0 <= i < |b| && b[i] == a[0];
    var j :| 0 <= j < |a| && a[j] == b[0];
    assert b[0] >= b[i] && a[0] >= a[j];
  }

  // ------------------------------------------------------------------ flatten

  /** `Iterator::flatten` over a sequence of sequences. */
  function Flatten<T>(ss: seq<seq<T>>): seq<T>
  {
    if |ss| == 0 then [] else ss[0] + Flatten(ss[1..])
  }

  /** The number of occurrences of `x` in a sequence, as a term of a sum. */
  function Occurrences<T(==)>(x: T): seq<T> -> int
  {
    s => multiset(s)[x]
  }

  /** The number of occurrences of `x` in a flattened sequence is the sum of its
      occurrences in the parts. */
  lemma {:induction false} FlattenCount<T>(ss: seq<seq<T>>, x: T)
    ensures multiset(Flatten(ss))[x] == SumOf(ss, Occurrences(x))
    decreases |ss|
  {
    if |ss| > 0 {
      FlattenCount(ss[1..], x);
      assert multiset(Flatten(ss)) == multiset(ss[0]) + multiset(Flatten(ss[1..]));
    }
  }

  /** Two sums agree when their terms agree position by position. */
  lemma {:induction false} SumOfPointwise<T, U>(a: seq<T>, f: T -> int, b: seq<U>, g: U -> int)
    requires |a| == |b|
    requires forall i :: 0 <= i < |a| ==> f(a[i]) == g(b[i])
    ensures SumOf(a, f) == SumOf(b, g)
    decreases |a|
  {
    if |a| > 0 {
      SumOfPointwise(a[1..], f, b[1..], g);
    }
  }

  /** A position of a member. */
  lemma IndexOf<T>(s: seq<T>, x: T) returns (k: nat)
    requires x in s
    ensures k < |s| && s[k] == x
  {
    k :| 0 <= k < |s| && s[k] == x;
  }

  /** A permutation has the same members. */
  lemma MemberOfPermutation<T>(a: seq<T>, b: seq<T>, x: T)
    requires multiset(a) == multiset(b) && x in b
    ensures x in a
  {
    assert x in multiset(b);
  }

  /** Splitting the head off a concatenation. */
  lemma ConsAppend<T>(a: seq<T>, b: seq<T>)
    requires |a| > 0
    ensures a + b == [a[0]] + (a[1..] + b)
  {
    assert a == [a[0]] + a[1..];
  }

  /** A sequence that holds no element twice. */
  predicate NoRepeats<T(==)>(s: seq<T>) {
    forall x, y :: 0 <= x < y < |s| ==> s[x] != s[y]
  }

  /** Two sequences without repeats and without a common element concatenate to one
      without repeats. */
  lemma NoRepeatsConcat<T>(a: seq<T>, b: seq<T>)
    requires NoRepeats(a) && NoRepeats(b)
    requires forall x :: x in a ==> x !in b
    ensures NoRepeats(a + b)
  {
    forall x, y | 0 <= x < y < |a + b|
      ensures (a + b)[x] != (a + b)[y]
    {
      if x < |a| && y >= |a| {
        assert (a + b)[x] in a && (a + b)[y] in b;
      }
    }
  }
}
