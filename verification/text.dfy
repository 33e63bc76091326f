/** The handful of Rust `str` operations the puzzle parsers rely on: `trim`,
    `split_once`, `split`, `char::is_whitespace`, `to_lowercase` and
    `str::parse` for the fixed-width integer types. */
module Text {
  import opened Wrappers

  /** Rust's `char::is_whitespace`: the characters with the Unicode White_Space property. */
  predicate IsWhitespace(c: char) {
    || ('\t' <= c <= '\r')
    || c == ' '
    || c == '\U{85}'
    || c == '\U{A0}'
    || c == '\U{1680}'
    || ('\U{2000}' <= c <= '\U{200A}')
    || c == '\U{2028}'
    || c == '\U{2029}'
    || c == '\U{202F}'
    || c == '\U{205F}'
    || c == '\U{3000}'
  }

  predicate IsAsciiDigit(c: char) {
    '0' <= c <= '9'
  }

  predicate IsAsciiUpper(c: char) {
    'A' <= c <= 'Z'
  }

  predicate IsAsciiLower(c: char) {
    'a' <= c <= 'z'
  }

  predicate AllDigits(s: string) {
    forall i :: 0 <= i < |s| ==> IsAsciiDigit(s[i])
  }

  function DigitValue(c: char): (d: nat)
    requires IsAsciiDigit(c)
    ensures d < 10
  {
    (c as int) - ('0' as int)
  }

  function DigitChar(d: nat): (c: char)
    requires d < 10
    ensures IsAsciiDigit(c) && DigitValue(c) == d
  {
    (('0' as int) + d) as char
  }

  // ---------------------------------------------------------------- trimming

  /** `str::trim_start`: drops the leading whitespace. */
  function TrimStart(s: string): (r: string)
    ensures |r| <= |s| && r == s[|s| - |r|..]
    ensures AllWhitespace(s[..|s| - |r|])
    ensures |r| == 0 || !IsWhitespace(r[0])
    decreases |s|
  {
    if |s| > 0 && IsWhitespace(s[0]) then
      var r := TrimStart(s[1..]);
      WhitespaceCons(s, |s| - |r|);
      r
    else
      s
  }

  /** `str::trim_end`: drops the trailing whitespace. */
  function TrimEnd(s: string): (r: string)
    ensures |r| <= |s| && r == s[..|r|]
    ensures AllWhitespace(s[|r|..])
    ensures |r| == 0 || !IsWhitespace(r[|r| - 1])
    decreases |s|
  {
    if |s| > 0 && IsWhitespace(s[|s| - 1]) then
      var r := TrimEnd(s[..|s| - 1]);
      WhitespaceSnoc(s, |r|);
      r
    else
      s
  }

  lemma WhitespaceCons(s: string, n: nat)
    requires 0 < n <= |s| && IsWhitespace(s[0]) && AllWhitespace(s[1..][..n - 1])
    ensures AllWhitespace(s[..n])
  {
    forall i | 0 < i < n
      ensures IsWhitespace(s[..n][i])
    {
      assert s[..n][i] == s[1..][..n - 1][i - 1];
    }
  }

  lemma WhitespaceSnoc(s: string, m: nat)
    requires m < |s| && IsWhitespace(s[|s| - 1]) && AllWhitespace(s[..|s| - 1][m..])
    ensures AllWhitespace(s[m..])
  {
    forall i | 0 <= i < |s| - 1 - m
      ensures IsWhitespace(s[m..][i])
    {
      assert s[m..][i] == s[..|s| - 1][m..][i];
    }
  }

  /** `str::trim`: drops the whitespace at both ends. */
  function Trim(s: string): string
  {
    TrimEnd(TrimStart(s))
  }

  /** The trim is the largest infix without whitespace at either end: everything
      before and after it is whitespace. */
  lemma TrimSpec(s: string)
    ensures var r := Trim(s); var i := |s| - |TrimStart(s)|;
      && i + |r| <= |s|
      && (forall k :: 0 <= k < |r| ==> r[k] == s[i + k])
      && AllWhitespace(s[..i]) && AllWhitespace(s[i + |r|..])
      && (|r| == 0 || (!IsWhitespace(r[0]) && !IsWhitespace(r[|r| - 1])))
  {
    TrimInfix(s);
    TrimHead(s);
    TrimTail(s);
    TrimEnds(s);
  }

  lemma TrimInfix(s: string)
    ensures var r := Trim(s); var i := |s| - |TrimStart(s)|;
      i + |r| <= |s| && forall k :: 0 <= k < |r| ==> r[k] == s[i + k]
  {
    var t := TrimStart(s);
    var r := TrimEnd(t);
    assert |t| <= |s| && t == s[|s| - |t|..];
    assert |r| <= |t| && r == t[..|r|];
    Infix(s, t, r);
  }

  /** A prefix of a suffix is an infix. */
  lemma Infix(s: string, t: string, r: string)
    requires |t| <= |s| && t == s[|s| - |t|..]
    requires |r| <= |t| && r == t[..|r|]
    ensures forall k :: 0 <= k < |r| ==> r[k] == s[|s| - |t| + k]
  {
    forall k | 0 <= k < |r|
      ensures r[k] == s[|s| - |t| + k]
    {
      assert r[k] == t[k];
    }
  }

  lemma TrimHead(s: string)
    ensures AllWhitespace(s[..|s| - |TrimStart(s)|])
  {
  }

  lemma TrimTail(s: string)
    ensures var r := Trim(s); var i := |s| - |TrimStart(s)|;
      i + |r| <= |s| && AllWhitespace(s[i + |r|..])
  {
    var t := TrimStart(s);
    var r := TrimEnd(t);
    WhitespaceTail(s, t, r);
  }

  /** Whitespace after a prefix of a suffix stays whitespace in the whole. */
  lemma WhitespaceTail(s: string, t: string, r: string)
    requires |t| <= |s| && t == s[|s| - |t|..]
    requires |r| <= |t| && AllWhitespace(t[|r|..])
    ensures AllWhitespace(s[|s| - |t| + |r|..])
  {
    assert s[|s| - |t| + |r|..] == t[|r|..];
  }

  lemma TrimEnds(s: string)
    ensures var r := Trim(s); |r| == 0 || (!IsWhitespace(r[0]) && !IsWhitespace(r[|r| - 1]))
  {
    var t := TrimStart(s);
    PrefixEnds(t, TrimEnd(t));
  }

  /** A nonempty prefix starts where the whole starts. */
  lemma PrefixEnds(t: string, r: string)
    requires |t| == 0 || !IsWhitespace(t[0])
    requires |r| <= |t| && r == t[..|r|]
    requires |r| == 0 || !IsWhitespace(r[|r| - 1])
    ensures |r| == 0 || (!IsWhitespace(r[0]) && !IsWhitespace(r[|r| - 1]))
  {
    if |r| > 0 {
      assert r[0] == t[0];
    }
  }

  /** A string that neither starts nor ends with whitespace is its own trim. */
  lemma TrimNoop(s: string)
    requires |s| == 0 || (!IsWhitespace(s[0]) && !IsWhitespace(s[|s| - 1]))
    ensures Trim(s) == s
  {
  }

  predicate AllWhitespace(s: string) {
    forall i :: 0 <= i < |s| ==> IsWhitespace(s[i])
  }

  lemma {:induction false} TrimStartPadded(pre: string, s: string)
    requires AllWhitespace(pre)
    requires |s| == 0 || !IsWhitespace(s[0])
    ensures TrimStart(pre + s) == s
    decreases |pre|
  {
    if |pre| == 0 {
      assert pre + s == s;
    } else {
      assert (pre + s)[1..] == pre[1..] + s;
      TrimStartPadded(pre[1..], s);
    }
  }

  lemma {:induction false} TrimEndPadded(s: string, post: string)
    requires AllWhitespace(post)
    requires |s| == 0 || !IsWhitespace(s[|s| - 1])
    ensures TrimEnd(s + post) == s
    decreases |post|
  {
    if |post| == 0 {
      assert s + post == s;
    } else {
      var p := post[..|post| - 1];
      assert (s + post)[..|s + post| - 1] == s + p;
      TrimEndPadded(s, p);
    }
  }

  /** Trimming removes exactly the whitespace padding around a word. */
  lemma TrimPadded(pre: string, s: string, post: string)
    requires AllWhitespace(pre) && AllWhitespace(post)
    requires |s| > 0 && !IsWhitespace(s[0]) && !IsWhitespace(s[|s| - 1])
    ensures Trim(pre + s + post) == s
  {
    assert pre + s + post == pre + (s + post);
    TrimStartPadded(pre, s + post);
    TrimEndPadded(s, post);
  }

  // --------------------------------------------------------------- splitting

  /** Index of the first occurrence of `c` in `s`. */
  function IndexOf(s: string, c: char): (r: Option<nat>)
    ensures r.None? <==> c !in s
    ensures r.Some? ==> r.value < |s| && s[r.value] == c && c !in s[..r.value]
  {
    if |s| == 0 then None
    else if s[0] == c then Some(0)
    else match IndexOf(s[1..], c)
      case None => None
      case Some(k) =>
        assert s[..k + 1] == [s[0]] + s[1..][..k];
        Some(k + 1)
  }

  /** `str::split_once(char)`: split around the first occurrence of `sep`. */
  function SplitOnce(s: string, sep: char): (r: Option<(string, string)>)
    ensures r.None? <==> sep !in s
    ensures r.Some? ==> s == r.value.0 + [sep] + r.value.1 && sep !in r.value.0
  {
    match IndexOf(s, sep)
    case None => None
    case Some(k) =>
      assert s == s[..k] + [sep] + s[k + 1..];
      Some((s[..k], s[k + 1..]))
  }

  /** A string formed around a first separator splits back into its two parts. */
  lemma SplitOnceAt(a: string, sep: char, b: string)
    requires sep !in a
    ensures SplitOnce(a + [sep] + b, sep) == Some((a, b))
  {
    var s := a + [sep] + b;
    assert s[|a|] == sep;
    var (a', b') := SplitOnce(s, sep).value;
    assert a' == s[..|a|] == a;
    assert b' == s[|a| + 1..] == b;
  }

  predicate OccursAt(s: string, p: string, k: nat) {
    k + |p| <= |s| && s[k..k + |p|] == p
  }

  /** Index of the first occurrence of `p` in `s` at or after `from`. */
  function FindFrom(s: string, p: string, from: nat): (r: Option<nat>)
    ensures r.None? ==> forall k :: from <= k ==> !OccursAt(s, p, k)
    ensures r.Some? ==> (from <= r.value && OccursAt(s, p, r.value)
      && forall k :: from <= k < r.value ==> !OccursAt(s, p, k))
    decreases |s| - from
  {
    if from + |p| > |s| then None
    else if s[from..from + |p|] == p then Some(from)
    else FindFrom(s, p, from + 1)
  }

  /** `str::split_once(&str)`: split around the first occurrence of the pattern `p`. */
  function SplitOnceStr(s: string, p: string): (r: Option<(string, string)>)
    ensures r.None? <==> forall k :: !OccursAt(s, p, k)
    ensures r.Some? ==> (s == r.value.0 + p + r.value.1
      && forall k :: 0 <= k < |r.value.0| ==> !OccursAt(s, p, k))
  {
    match FindFrom(s, p, 0)
    case None => None
    case Some(k) =>
      assert s == s[..k] + p + s[k + |p|..];
      Some((s[..k], s[k + |p|..]))
  }

  /** A string formed around a first occurrence of a pattern splits back into its parts
      (the pattern's first character does not occur before it). */
  lemma SplitOnceStrAt(a: string, p: string, b: string)
    requires |p| > 0 && p[0] !in a
    ensures SplitOnceStr(a + p + b, p) == Some((a, b))
  {
    var s := a + p + b;
    assert OccursAt(s, p, |a|) by {
      assert s[|a|..|a| + |p|] == p;
    }
    forall k | 0 <= k < |a| ensures !OccursAt(s, p, k) {
      assert s[k] == a[k] != p[0];
      assert k + |p| <= |s| ==> s[k..k + |p|][0] == s[k];
    }
    var r := FindFrom(s, p, 0);
    assert r == Some(|a|);
    assert s[..|a|] == a && s[|a| + |p|..] == b;
  }

  /** Joins the pieces with `sep` between consecutive ones; the inverse of `Split`. */
  function Join(pieces: seq<string>, sep: char): string
    requires |pieces| > 0
  {
    if |pieces| == 1 then pieces[0] else pieces[0] + [sep] + Join(pieces[1..], sep)
  }

  /** Splitting the first piece off a join of several. */
  lemma JoinCons(pieces: seq<string>, sep: char)
    requires |pieces| > 1
    ensures Join(pieces, sep) == pieces[0] + ([sep] + Join(pieces[1..], sep))
  {
  }

  /** `str::split(char)`: the maximal `sep`-free pieces between separators
      (one more piece than there are separators). */
  function Split(s: string, sep: char): (r: seq<string>)
    ensures |r| > 0
    ensures forall i :: 0 <= i < |r| ==> sep !in r[i]
    ensures Join(r, sep) == s
    decreases |s|
  {
    match SplitOnce(s, sep)
    case None => [s]
    case Some((a, b)) => [a] + Split(b, sep)
  }

  /** Splitting is injective: the pieces are determined by the string they join to. */
  lemma {:induction false} SplitJoin(pieces: seq<string>, sep: char)
    requires |pieces| > 0
    requires forall i :: 0 <= i < |pieces| ==> sep !in pieces[i]
    ensures Split(Join(pieces, sep), sep) == pieces
    decreases |pieces|
  {
    var s := Join(pieces, sep);
    if |pieces| == 1 {
      assert SplitOnce(s, sep).None?;
    } else {
      var rest := Join(pieces[1..], sep);
      assert s == pieces[0] + [sep] + rest;
      var a := pieces[0];
      var split := SplitOnce(s, sep);
      assert split.Some? by { assert s[|a|] == sep; }
      var (a', b') := split.value;
      assert a' == a;
      assert b' == rest;
      SplitJoin(pieces[1..], sep);
    }
  }

  // -------------------------------------------------------------- lowercase

  /** `char::to_lowercase` on the ASCII range. */
  function LowerChar(c: char): (r: char)
    ensures IsAsciiUpper(c) ==> IsAsciiLower(r) && r as int == c as int + 32
    ensures !IsAsciiUpper(c) ==> r == c
  {
    if IsAsciiUpper(c) then (c as int + 32) as char else c
  }

  function ToLower(s: string): (r: string)
    ensures |r| == |s|
    ensures forall i :: 0 <= i < |s| ==> r[i] == LowerChar(s[i])
  {
    if |s| == 0 then [] else [LowerChar(s[0])] + ToLower(s[1..])
  }

  /** Lowering leaves a string without ASCII capitals unchanged. */
  lemma ToLowerNoUpper(s: string)
    requires forall i :: 0 <= i < |s| ==> !IsAsciiUpper(s[i])
    ensures ToLower(s) == s
  {
  }

  // ----------------------------------------------------------- number parsing

  const U32_MAX: nat := 0xFFFF_FFFF
  const USIZE_MAX: nat := 0xFFFF_FFFF_FFFF_FFFF
  const I32_MIN: int := -0x8000_0000
  const I32_MAX: int := 0x7FFF_FFFF

  /** A value of Rust's `i32`. */
  predicate IsI32(n: int) {
    I32_MIN <= n <= I32_MAX
  }

  /** Big-endian decimal value of a digit string. */
  function DigitsValue(ds: string): nat
    requires AllDigits(ds)
  {
    if |ds| == 0 then 0 else DigitsValue(ds[..|ds| - 1]) * 10 + DigitValue(ds[|ds| - 1])
  }

  /** Decimal rendering of `n`, without leading zeros. */
  function Decimal(n: nat): (r: string)
    ensures |r| > 0 && AllDigits(r)
    ensures r[0] != '+' && r[0] != '-'
  {
    if n < 10 then [DigitChar(n)] else Decimal(n / 10) + [DigitChar(n % 10)]
  }

  lemma {:induction false} DecimalValue(n: nat)
    ensures DigitsValue(Decimal(n)) == n
  {
    var r := Decimal(n);
    if n >= 10 {
      assert r[..|r| - 1] == Decimal(n / 10);
      DecimalValue(n / 10);
    }
  }

  /** Unsigned `str::parse` (u8, u16, u32, u64, usize with maximum `max`):
      an optional '+', then at least one ASCII digit, and a value that fits. */
  function ParseUnsigned(s: string, max: nat): (r: Option<nat>)
    ensures r.Some? ==> r.value <= max
    ensures r.Some? ==> |s| > 0 && (IsAsciiDigit(s[0]) || (s[0] == '+' && |s| > 1))
  {
    var digits := if |s| > 0 && s[0] == '+' then s[1..] else s;
    if |digits| == 0 || !AllDigits(digits) then None
    else if DigitsValue(digits) <= max then Some(DigitsValue(digits))
    else None
  }

  /** Signed `str::parse` (i8 .. i64 with range `min..=max`): an optional '+' or '-',
      then at least one ASCII digit, and a value that fits. */
  function ParseSigned(s: string, min: int, max: int): (r: Option<int>)
    ensures r.Some? ==> min <= r.value <= max
    ensures r.Some? ==> |s| > 0 && (IsAsciiDigit(s[0]) || ((s[0] == '+' || s[0] == '-') && |s| > 1))
  {
    var negative := |s| > 0 && s[0] == '-';
    var digits := if |s| > 0 && (s[0] == '+' || s[0] == '-') then s[1..] else s;
    if |digits| == 0 || !AllDigits(digits) then None
    else
      var v: int := if negative then -(DigitsValue(digits) as int) else DigitsValue(digits);
      if min <= v <= max then Some(v) else None
  }

  /** Printing a number in decimal and parsing it back gives the number, if it fits. */
  lemma ParseUnsignedDecimal(n: nat, max: nat)
    ensures ParseUnsigned(Decimal(n), max) == if n <= max then Some(n) else None
  {
    DecimalValue(n);
  }

  /** The same round trip for the signed parser, for both signs. */
  lemma ParseSignedDecimal(n: int, min: int, max: int)
    requires min <= n <= max
    ensures n >= 0 ==> ParseSigned(Decimal(n), min, max) == Some(n)
    ensures n < 0 ==> ParseSigned("-" + Decimal(-n), min, max) == Some(n)
  {
    if n >= 0 {
      DecimalValue(n);
    } else {
      DecimalValue(-n);
      assert ("-" + Decimal(-n))[1..] == Decimal(-n);
    }
  }

  /** Decimal rendering of an integer: a '-' before the digits of a negative one. */
  function SignedDecimal(n: int): (r: string)
    ensures |r| > 0
    ensures forall i :: 0 <= i < |r| ==> IsAsciiDigit(r[i]) || (i == 0 && r[i] == '-')
  {
    if n >= 0 then Decimal(n) else "-" + Decimal(-n)
  }

  /** Printing an integer and parsing it back gives the integer, when it is in range. */
  lemma ParseSignedDecimalOf(n: int, min: int, max: int)
    requires min <= n <= max
    ensures ParseSigned(SignedDecimal(n), min, max) == Some(n)
  {
    ParseSignedDecimal(n, min, max);
  }
}
