/** Day 10 (syntax scoring): classifying a line of brackets as valid, incomplete or
    corrupted with a stack scan, and scoring the corrupted lines. */
module Day10 {
  import opened Wrappers

  /** `ParseResult`: the classification of one line. */
  datatype ParseResult =
    | Valid              // every opener is closed by its partner
    | Incomplete         // no wrong closer, but openers are left unclosed
    | Corrupted(c: char) // the first closer that has no partner on the stack

  /** `is_open_delimiter`: one of the four characters `([{<`. */
  predicate IsOpenDelimiter(c: char) {
    c == '(' || c == '[' || c == '{' || c == '<'
  }

  /** `are_matching_pair`: the four bracket pairs. */
  predicate AreMatchingPair(open: char, close: char) {
    || (open == '(' && close == ')')
    || (open == '[' && close == ']')
    || (open == '<' && close == '>')
    || (open == '{' && close == '}')
  }

  /** A matching pair is an opener followed by a character that is not one. */
  lemma PairShape(open: char, close: char)
    requires AreMatchingPair(open, close)
    ensures IsOpenDelimiter(open) && !IsOpenDelimiter(close)
  {
  }

  // ------------------------------------------------------------------ the scan

  /** A character that is not an opener and meets an empty stack or an opener it does
      not match: every character other than `([{<` counts as a closer. */
  predicate Illegal(stack: seq<char>, c: char) {
    !IsOpenDelimiter(c) && (|stack| == 0 || !AreMatchingPair(stack[|stack| - 1], c))
  }

  /** One iteration of `parse_line`'s loop: push an opener, pop the partner of a
      closer, or stop with the offending character. */
  function Step(stack: seq<char>, c: char): (r: Result<seq<char>, char>)
    ensures r.Err? <==> Illegal(stack, c)
    ensures r.Err? ==> r.error == c
    ensures r.Ok? ==> |r.value| == if IsOpenDelimiter(c) then |stack| + 1 else |stack| - 1
  {
    if IsOpenDelimiter(c) then Ok(stack + [c])
    else if |stack| == 0 then Err(c)
    else if !AreMatchingPair(stack[|stack| - 1], c) then Err(c)
    else Ok(stack[..|stack| - 1])
  }

  /** The scan of `s` from `stack`: the stack left at the end, or the first illegal
      character. */
  function Scan(s: string, stack: seq<char>): Result<seq<char>, char>
    decreases |s|
  {
    if |s| == 0 then Ok(stack)
    else match Step(stack, s[0])
      case Err(c) => Err(c)
      case Ok(next) => Scan(s[1..], next)
  }

  /** The result `parse_line` reports for a finished scan. */
  function Classify(scan: Result<seq<char>, char>): ParseResult
  {
    match scan
    case Err(c) => Corrupted(c)
    case Ok(stack) => if |stack| == 0 then Valid else Incomplete
  }

  /** The classification of a line: the scan from an empty stack. */
  function LineResult(line: string): ParseResult
  {
    Classify(Scan(line, []))
  }

  /** Scanning a concatenation scans the first part, then the second from where the
      first left off; an illegal character in the first part ends the scan. */
  lemma {:induction false} ScanConcat(a: string, b: string, stack: seq<char>)
    ensures Scan(a + b, stack) == match Scan(a, stack)
      case Err(c) => Err(c)
      case Ok(next) => Scan(b, next)
    decreases |a|
  {
    if |a| > 0 {
      assert (a + b)[0] == a[0];
      assert (a + b)[1..] == a[1..] + b;
      match Step(stack, a[0])
      case Err(c) =>
      case Ok(next) => ScanConcat(a[1..], b, next);
    } else {
      assert a + b == b;
    }
  }

  // ------------------------------------------------------------------ well-nested lines

  /** The well-nested lines: empty, or an opener, a well-nested line, the opener's
      partner and another well-nested line. */
  ghost predicate Nested(s: string)
    decreases |s|
  {
    || |s| == 0
    || exists k :: 0 < k < |s| && AreMatchingPair(s[0], s[k]) && Nested(s[1..k]) && Nested(s[k + 1..])
  }

  /** `s` closes every opener of `stack`, innermost first, with well-nested text
      between the closers. */
  ghost predicate Closes(s: string, stack: seq<char>)
    decreases |s|
  {
    if |stack| == 0 then Nested(s)
    else
      exists k :: 0 <= k < |s| && Nested(s[..k]) && AreMatchingPair(stack[|stack| - 1], s[k])
        && Closes(s[k + 1..], stack[..|stack| - 1])
  }

  /** Building a well-nested line from its first pair. */
  lemma NestedAt(s: string, k: nat)
    requires 0 < k < |s| && AreMatchingPair(s[0], s[k]) && Nested(s[1..k]) && Nested(s[k + 1..])
    ensures Nested(s)
  {
  }

  /** Building a closing text from its first closer. */
  lemma ClosesAt(s: string, stack: seq<char>, k: nat)
    requires |stack| > 0 && k < |s|
    requires Nested(s[..k]) && AreMatchingPair(stack[|stack| - 1], s[k]) && Closes(s[k + 1..], stack[..|stack| - 1])
    ensures Closes(s, stack)
  {
  }

  /** The closer of the opener on top of the stack pops it. */
  lemma CloserPops(stack: seq<char>, c: char, rest: string)
    requires |stack| > 0 && AreMatchingPair(stack[|stack| - 1], c)
    ensures Scan([c] + rest, stack) == Scan(rest, stack[..|stack| - 1])
  {
    PairShape(stack[|stack| - 1], c);
    assert ([c] + rest)[1..] == rest;
  }

  /** The scan of a line made of a pair around a stretch `inner` that leaves the stack
      alone, followed by a stretch `outer` that leaves the stack alone. */
  lemma PairScan(s: string, k: nat, stack: seq<char>)
    requires 0 < k < |s| && AreMatchingPair(s[0], s[k])
    requires Scan(s[1..k], stack + [s[0]]) == Ok(stack + [s[0]])
    requires Scan(s[k + 1..], stack) == Ok(stack)
    ensures Scan(s, stack) == Ok(stack)
  {
    PairShape(s[0], s[k]);
    var pushed := stack + [s[0]];
    OpenerPushes(s, stack);
    PairSplit(s, k);
    ScanConcat(s[1..k], [s[k]] + s[k + 1..], pushed);
    CloserPops(pushed, s[k], s[k + 1..]);
  }

  /** An opener is pushed. */
  lemma OpenerPushes(s: string, stack: seq<char>)
    requires |s| > 0 && IsOpenDelimiter(s[0])
    ensures Scan(s, stack) == Scan(s[1..], stack + [s[0]])
  {
  }

  /** The text after the first character, split around position `k`. */
  lemma PairSplit<T>(s: seq<T>, k: nat)
    requires 0 < k < |s|
    ensures s[1..] == s[1..k] + ([s[k]] + s[k + 1..])
  {
  }

  lemma {:induction false} NestedScan(s: string, stack: seq<char>)
    requires Nested(s)
    ensures Scan(s, stack) == Ok(stack)
    decreases |s|
  {
    if |s| > 0 {
      var k :| 0 < k < |s| && AreMatchingPair(s[0], s[k]) && Nested(s[1..k]) && Nested(s[k + 1..]);
      NestedScan(s[1..k], stack + [s[0]]);
      NestedScan(s[k + 1..], stack);
      PairScan(s, k, stack);
    }
  }

  /** A scan that ends with an empty stack closed every opener it started with. */
  lemma {:induction false} ScanCloses(s: string, stack: seq<char>)
    requires Scan(s, stack) == Ok([])
    ensures Closes(s, stack)
    decreases |s|
  {
    if |s| == 0 {
      assert Nested(s);
    } else if IsOpenDelimiter(s[0]) {
      OpenerCloses(s, stack);
    } else {
      var rest := stack[..|stack| - 1];
      ScanCloses(s[1..], rest);
      assert Nested(s[..0]);
      assert s[1..] == s[0 + 1..];
    }
  }

  /** The opener case of `ScanCloses`: the opener's partner comes first, after a
      well-nested stretch. */
  lemma {:induction false} OpenerCloses(s: string, stack: seq<char>)
    requires |s| > 0 && IsOpenDelimiter(s[0]) && Scan(s, stack) == Ok([])
    ensures Closes(s, stack)
    decreases |s|, 0
  {
    var o := s[0];
    var pushed := stack + [o];
    assert Scan(s[1..], pushed) == Ok([]);
    ScanCloses(s[1..], pushed);
    assert pushed[..|pushed| - 1] == stack;
    var t := s[1..];
    var k :| 0 <= k < |t| && Nested(t[..k]) && AreMatchingPair(o, t[k]) && Closes(t[k + 1..], stack);
    var close := k + 1;
    TailSlices(s, k);
    if |stack| == 0 {
      NestedAt(s, close);
    } else {
      PairThenCloses(s, stack, close);
    }
  }

  /** Slices of `s[1..]` as slices of `s`. */
  lemma TailSlices<T>(s: seq<T>, k: nat)
    requires k < |s| - 1
    ensures s[1..][..k] == s[1..k + 1] && s[1..][k] == s[k + 1] && s[1..][k + 1..] == s[k + 2..]
  {
  }

  /** Slices of the prefix `s[..end]` and of the suffix `s[close + 1..]` as slices of `s`. */
  lemma PairSlices<T>(s: seq<T>, close: nat, j: nat, end: nat)
    requires 0 < close && end == close + 1 + j && end < |s|
    ensures s[..end][0] == s[0] && s[..end][close] == s[close] && s[..end][1..close] == s[1..close]
    ensures s[..end][close + 1..] == s[close + 1..][..j]
    ensures s[close + 1..][j] == s[end] && s[close + 1..][j + 1..] == s[end + 1..]
  {
  }

  /** A pair around a well-nested stretch, followed by text that closes a non-empty
      stack, closes that stack. */
  lemma PairThenCloses(s: string, stack: seq<char>, close: nat)
    requires |stack| > 0 && 0 < close < |s|
    requires AreMatchingPair(s[0], s[close]) && Nested(s[1..close]) && Closes(s[close + 1..], stack)
    ensures Closes(s, stack)
  {
    var after := s[close + 1..];
    var j :| 0 <= j < |after| && Nested(after[..j]) && AreMatchingPair(stack[|stack| - 1], after[j])
      && Closes(after[j + 1..], stack[..|stack| - 1]);
    var end := close + 1 + j;
    PairSlices(s, close, j, end);
    var head := s[..end];
    NestedAt(head, close);
    ClosesAt(s, stack, end);
  }

  /** The closers of a stack of openers, innermost first. */
  function Completion(stack: seq<char>): (r: string)
    requires forall k :: 0 <= k < |stack| ==> IsOpenDelimiter(stack[k])
    ensures Scan(r, stack) == Ok([])
    decreases |stack|
  {
    if |stack| == 0 then ""
    else
      var o := stack[|stack| - 1];
      var c := if o == '(' then ')' else if o == '[' then ']' else if o == '{' then '}' else '>';
      assert IsOpenDelimiter(o);
      var r := [c] + Completion(stack[..|stack| - 1]);
      CloserPops(stack, c, Completion(stack[..|stack| - 1]));
      r
  }

  /** A scan from a stack of openers leaves a stack of openers. */
  lemma {:induction false} ScanOpeners(s: string, stack: seq<char>)
    requires forall k :: 0 <= k < |stack| ==> IsOpenDelimiter(stack[k])
    requires Scan(s, stack).Ok?
    ensures forall k :: 0 <= k < |Scan(s, stack).value| ==> IsOpenDelimiter(Scan(s, stack).value[k])
    decreases |s|
  {
    if |s| > 0 {
      var next := Step(stack, s[0]).value;
      assert forall k :: 0 <= k < |next| ==> IsOpenDelimiter(next[k]);
      ScanOpeners(s[1..], next);
    }
  }

  // ------------------------------------------------------------------ what the result means

  /** `Valid` is exactly the well-nested lines, the empty line included. */
  lemma ValidIffNested(line: string)
    ensures LineResult(line) == Valid <==> Nested(line)
  {
    if Nested(line) {
      NestedScan(line, []);
    }
    if LineResult(line) == Valid {
      ScanCloses(line, []);
    }
  }

  /** A corrupted line stays corrupted, with the same character, whatever follows it:
      the scan stops at the illegal character. */
  lemma CorruptedStops(line: string, rest: string)
    requires LineResult(line).Corrupted?
    ensures LineResult(line + rest) == LineResult(line)
  {
    ScanConcat(line, rest, []);
  }

  /** A line that is not corrupted has a completion: some text after it makes it
      well-nested. */
  lemma Completable(line: string) returns (t: string)
    requires !LineResult(line).Corrupted?
    ensures Nested(line + t)
  {
    var stack := Scan(line, []).value;
    ScanOpeners(line, []);
    t := Completion(stack);
    ScanConcat(line, t, []);
    ScanCloses(line + t, []);
  }

  /** No text after a corrupted line makes it well-nested. */
  lemma Uncompletable(line: string, t: string)
    requires LineResult(line).Corrupted?
    ensures !Nested(line + t)
  {
    CorruptedStops(line, t);
    ValidIffNested(line + t);
  }

  /** `Incomplete` is exactly the lines that are not well-nested but are the start of
      a well-nested line. */
  lemma IncompleteIffCompletable(line: string)
    ensures LineResult(line) == Incomplete <==> !Nested(line) && exists t :: Nested(line + t)
  {
    ValidIffNested(line);
    if LineResult(line) == Incomplete {
      var t := Completable(line);
    }
    if exists t :: Nested(line + t) {
      var t :| Nested(line + t);
      if LineResult(line).Corrupted? {
        Uncompletable(line, t);
      }
    }
  }

  /** A corrupted line is one that no text can complete. */
  lemma CorruptedIffUncompletable(line: string)
    ensures LineResult(line).Corrupted? <==> forall t :: !Nested(line + t)
  {
    if LineResult(line).Corrupted? {
      forall t
        ensures !Nested(line + t)
      {
        Uncompletable(line, t);
      }
    } else {
      var t := Completable(line);
    }
  }

  /** No prefix of a valid line is corrupted. */
  lemma PrefixOfValid(line: string, rest: string)
    requires LineResult(line + rest) == Valid
    ensures !LineResult(line).Corrupted?
  {
    ValidIffNested(line + rest);
    if LineResult(line).Corrupted? {
      Uncompletable(line, rest);
    }
  }

  /** Position `k` holds the first illegal character of `s` scanned from `stack`:
      the scan of the text before it succeeds, and the character is illegal on the
      stack that scan leaves. */
  ghost predicate FirstIllegalAt(s: string, stack: seq<char>, k: nat) {
    k < |s| && Scan(s[..k], stack).Ok? && Illegal(Scan(s[..k], stack).value, s[k])
  }

  /** `Corrupted(c)` names the first closer that meets an empty stack or an opener it
      does not match. */
  lemma CorruptedAt(line: string, c: char)
    ensures LineResult(line) == Corrupted(c) <==> exists k: nat :: FirstIllegalAt(line, [], k) && line[k] == c
  {
    if LineResult(line) == Corrupted(c) {
      var k := IllegalPosition(line, []);
    }
    if exists k: nat :: FirstIllegalAt(line, [], k) && line[k] == c {
      var k: nat :| FirstIllegalAt(line, [], k) && line[k] == c;
      IllegalHere(line, [], k);
    }
  }

  /** A failing scan fails at the first illegal character. */
  lemma {:induction false} IllegalPosition(s: string, stack: seq<char>) returns (k: nat)
    requires Scan(s, stack).Err?
    ensures FirstIllegalAt(s, stack, k) && s[k] == Scan(s, stack).error
    decreases |s|
  {
    assert s[..0] == [];
    match Step(stack, s[0])
    case Err(c) =>
      k := 0;
    case Ok(next) =>
      var k' := IllegalPosition(s[1..], next);
      k := k' + 1;
      assert s[1..][..k'] == s[1..k];
      assert s[..k] == [s[0]] + s[1..k];
      ScanConcat([s[0]], s[1..k], stack);
      assert [s[0]][1..] == [];
  }

  /** An illegal character after a successful stretch fails the scan with that
      character. */
  lemma IllegalHere(s: string, stack: seq<char>, k: nat)
    requires FirstIllegalAt(s, stack, k)
    ensures Scan(s, stack) == Err(s[k])
  {
    assert s == s[..k] + s[k..];
    ScanConcat(s[..k], s[k..], stack);
  }

  /** `parse_line`: the stack scan, stopping at the first illegal character. The
      result is the classification of the scan, and it is `Valid` exactly for the
      well-nested lines, `Incomplete` exactly for the lines that are not well-nested
      but can be completed, and `Corrupted` exactly for the lines that cannot. */
  method ParseLine(line: string) returns (r: ParseResult)
    ensures r == LineResult(line)
    ensures r == Valid <==> Nested(line)
    ensures r == Incomplete <==> !Nested(line) && exists t :: Nested(line + t)
    ensures r.Corrupted? <==> forall t :: !Nested(line + t)
  {
    ValidIffNested(line);
    IncompleteIffCompletable(line);
    CorruptedIffUncompletable(line);
    var stack: seq<char> := [];
    var i := 0;
    while i < |line|
      invariant i <= |line|
      invariant Scan(line, []) == Scan(line[i..], stack)
    {
      var c := line[i];
      assert line[i..][1..] == line[i + 1..];
      if IsOpenDelimiter(c) {
        stack := stack + [c];
      } else {
        if |stack| == 0 {
          return Corrupted(c);
        }
        var open := stack[|stack| - 1];
        stack := stack[..|stack| - 1];
        if !AreMatchingPair(open, c) {
          return Corrupted(c);
        }
      }
      i := i + 1;
    }
    if |stack| == 0 {
      r := Valid;
    } else {
      r := Incomplete;
    }
  }

  // ------------------------------------------------------------------ scoring

  /** The points of one result: 3, 57, 1197 and 25137 for a line corrupted by `)`,
      `]`, `}` and `>`, and nothing for any other result. */
  function Points(r: ParseResult): nat
  {
    if r == Corrupted(')') then 3
    else if r == Corrupted(']') then 57
    else if r == Corrupted('}') then 1197
    else if r == Corrupted('>') then 25137
    else 0
  }

  /** `score`: the points of every result, added up. */
  function Score(results: seq<ParseResult>): nat
  {
    if |results| == 0 then 0 else Points(results[0]) + Score(results[1..])
  }

  /** The score of a concatenation is the sum of the scores of its parts. */
  lemma {:induction false} ScoreConcat(a: seq<ParseResult>, b: seq<ParseResult>)
    ensures Score(a + b) == Score(a) + Score(b)
    decreases |a|
  {
    if |a| == 0 {
      assert a + b == b;
    } else {
      assert (a + b)[1..] == a[1..] + b;
      ScoreConcat(a[1..], b);
    }
  }

  /** The score counts each kind of corruption at its price. */
  lemma {:induction false} ScoreCounts(results: seq<ParseResult>)
    ensures Score(results) ==
      3 * multiset(results)[Corrupted(')')] + 57 * multiset(results)[Corrupted(']')]
      + 1197 * multiset(results)[Corrupted('}')] + 25137 * multiset(results)[Corrupted('>')]
    decreases |results|
  {
    if |results| > 0 {
      assert results == [results[0]] + results[1..];
      assert multiset(results) == multiset{results[0]} + multiset(results[1..]);
      ScoreCounts(results[1..]);
    }
  }

  // ------------------------------------------------------------------ the unit tests' short lines

  /** The shortest valid lines of the tests. */
  lemma ShortValidLines()
    ensures LineResult("{}") == Valid && LineResult("[]") == Valid
    ensures LineResult("<>") == Valid && LineResult("()") == Valid
    ensures LineResult("([])") == Valid
  {
  }

  /** Longer valid lines of the tests. */
  lemma ValidSiblings()
    ensures LineResult("{()()()}") == Valid
  {
  }

  lemma ValidNesting()
    ensures LineResult("<([{}])>") == Valid
  {
  }

  /** Corrupted lines of the tests, with their offending characters. */
  lemma CorruptedAtOnce()
    ensures LineResult("(]") == Corrupted(']')
  {
  }

  lemma CorruptedAtEnd()
    ensures LineResult("{()()()>") == Corrupted('>')
  {
  }

  /** The sample's results score 26397: three `)`, one `]`, one `}` and one `>`. */
  lemma SampleScore()
    ensures Score([Incomplete, Incomplete, Corrupted('}'), Incomplete, Corrupted(')'),
                   Corrupted(']'), Incomplete, Corrupted(')'), Corrupted('>'), Incomplete]) == 26397
  {
    var first := [Incomplete, Incomplete, Corrupted('}'), Incomplete, Corrupted(')')];
    var second := [Corrupted(']'), Incomplete, Corrupted(')'), Corrupted('>'), Incomplete];
    SampleHalves();
    ScoreConcat(first, second);
    assert first + second == [Incomplete, Incomplete, Corrupted('}'), Incomplete, Corrupted(')'),
                              Corrupted(']'), Incomplete, Corrupted(')'), Corrupted('>'), Incomplete];
  }

  /** The scores of the sample's two halves. */
  lemma SampleHalves()
    ensures Score([Incomplete, Incomplete, Corrupted('}'), Incomplete, Corrupted(')')]) == 1200
    ensures Score([Corrupted(']'), Incomplete, Corrupted(')'), Corrupted('>'), Incomplete]) == 25197
  {
  }
}
