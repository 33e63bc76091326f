/** Day 5 (hydrothermal venture): parsing vent lines `x,y -> x,y` with typed errors
    and collecting every bad line together with its line number. */
module Day5 {
  import opened Wrappers
  import opened Text

  /** Coordinates are `u32`. */
  datatype Point = Point(x: nat, y: nat)

  datatype Line = Line(p0: Point, p1: Point)

  /** `Line::from`: a line from two coordinate pairs. */
  function LineFrom(p0: (nat, nat), p1: (nat, nat)): (l: Line)
    ensures l.p0.x == p0.0 && l.p0.y == p0.1 && l.p1.x == p1.0 && l.p1.y == p1.1
  {
    Line(Point(p0.0, p0.1), Point(p1.0, p1.1))
  }

  /** `PointParseError`: the coordinate that failed is named "x" or "y". */
  datatype PointParseError = MissingComma | InvalidNumber(field: string)

  /** `LineParseError`: the endpoint that failed is named "p0" or "p1". */
  datatype LineParseError = MissingArrow | InvalidPoint(cause: PointParseError, endpoint: string)

  /** `WithLineNumber<LineParseError>`: line numbers count from 1. */
  datatype Numbered<E> = Numbered(lineNo: nat, value: E)

  predicate IsU32(n: nat) {
    n <= U32_MAX
  }

  predicate ValidPoint(p: Point) {
    IsU32(p.x) && IsU32(p.y)
  }

  predicate ValidLine(l: Line) {
    ValidPoint(l.p0) && ValidPoint(l.p1)
  }

  // ----------------------------------------------------------------- parsing

  /** `FromStr for Point`: split at the first ',', then parse the trimmed halves as
      `u32`, x before y. */
  function ParsePoint(s: string): (r: Result<Point, PointParseError>)
    ensures r.Ok? ==> ',' in s && ValidPoint(r.value)
  {
    match SplitOnce(s, ',')
    case None => Err(MissingComma)
    case Some((sx, sy)) =>
      match ParseUnsigned(Trim(sx), U32_MAX)
      case None => Err(InvalidNumber("x"))
      case Some(x) =>
        match ParseUnsigned(Trim(sy), U32_MAX)
        case None => Err(InvalidNumber("y"))
        case Some(y) => Ok(Point(x, y))
  }

  /** `FromStr for Line`: split at the first "->", then parse the trimmed halves as
      points, p0 before p1. */
  function ParseLine(s: string): (r: Result<Line, LineParseError>)
    ensures r.Ok? ==> ValidLine(r.value)
    ensures r.Ok? ==> exists k :: OccursAt(s, "->", k)
  {
    match SplitOnceStr(s, "->")
    case None => Err(MissingArrow)
    case Some((s0, s1)) =>
      match ParsePoint(Trim(s0))
      case Err(e) => Err(InvalidPoint(e, "p0"))
      case Ok(p0) =>
        match ParsePoint(Trim(s1))
        case Err(e) => Err(InvalidPoint(e, "p1"))
        case Ok(p1) => Ok(Line(p0, p1))
  }

  /** A point parses to a pair of `u32` values or to one of three errors; the comma is
      missing exactly when there is none in the text. */
  lemma ParsePointOutcome(s: string)
    ensures ParsePoint(s) == Err(MissingComma) <==> ',' !in s
    ensures ParsePoint(s).Ok? ==> ValidPoint(ParsePoint(s).value)
    ensures ParsePoint(s).Err? ==> ParsePoint(s).error in {MissingComma, InvalidNumber("x"), InvalidNumber("y")}
  {
  }

  /** A line parses to two valid points or to an error; the arrow is missing exactly
      when "->" does not occur in the text, and a bad point is named "p0" or "p1". */
  lemma ParseLineOutcome(s: string)
    ensures ParseLine(s) == Err(MissingArrow) <==> forall k :: !OccursAt(s, "->", k)
    ensures ParseLine(s).Ok? ==> ValidLine(ParseLine(s).value)
    ensures ParseLine(s).Err? && ParseLine(s).error.InvalidPoint? ==> ParseLine(s).error.endpoint in {"p0", "p1"}
  {
    match SplitOnceStr(s, "->")
    case None =>
    case Some((s0, s1)) =>
      ParsePointOutcome(Trim(s0));
      ParsePointOutcome(Trim(s1));
  }

  /** The first failing field decides the error: the x half is reported before the y half.
      When both trimmed halves are numbers, the point is those two numbers. */
  lemma ParsePointErrorOrder(sx: string, sy: string)
    requires ',' !in sx
    ensures ParseUnsigned(Trim(sx), U32_MAX).None? ==> ParsePoint(sx + "," + sy) == Err(InvalidNumber("x"))
    ensures ParseUnsigned(Trim(sx), U32_MAX).Some? && ParseUnsigned(Trim(sy), U32_MAX).None?
      ==> ParsePoint(sx + "," + sy) == Err(InvalidNumber("y"))
    ensures ParseUnsigned(Trim(sx), U32_MAX).Some? && ParseUnsigned(Trim(sy), U32_MAX).Some?
      ==> ParsePoint(sx + "," + sy) == Ok(Point(ParseUnsigned(Trim(sx), U32_MAX).value, ParseUnsigned(Trim(sy), U32_MAX).value))
  {
    SplitOnceAt(sx, ',', sy);
  }

  /** The same for lines: the p0 half is reported before the p1 half, and when both
      trimmed halves are points, the line joins them. */
  lemma ParseLineErrorOrder(s0: string, s1: string)
    requires forall k :: !OccursAt(s0, "->", k)
    ensures ParsePoint(Trim(s0)).Err? ==> ParseLine(s0 + "->" + s1) == Err(InvalidPoint(ParsePoint(Trim(s0)).error, "p0"))
    ensures ParsePoint(Trim(s0)).Ok? && ParsePoint(Trim(s1)).Err?
      ==> ParseLine(s0 + "->" + s1) == Err(InvalidPoint(ParsePoint(Trim(s1)).error, "p1"))
    ensures ParsePoint(Trim(s0)).Ok? && ParsePoint(Trim(s1)).Ok?
      ==> ParseLine(s0 + "->" + s1) == Ok(Line(ParsePoint(Trim(s0)).value, ParsePoint(Trim(s1)).value))
  {
    ArrowSplit(s0, s1);
  }

  /** A line splits at the arrow after `s0` when `s0` holds no arrow of its own. */
  lemma ArrowSplit(s0: string, s1: string)
    requires forall k :: !OccursAt(s0, "->", k)
    ensures SplitOnceStr(s0 + "->" + s1, "->") == Some((s0, s1))
  {
    var s := s0 + "->" + s1;
    assert OccursAt(s, "->", |s0|) by {
      assert s[|s0|..|s0| + 2] == "->";
    }
    forall k | 0 <= k < |s0|
      ensures !OccursAt(s, "->", k)
    {
      if k + 2 <= |s0| {
        assert s[k..k + 2] == s0[k..k + 2];
        assert !OccursAt(s0, "->", k);
      } else {
        assert s[k + 1] == '-';
        assert k + 2 <= |s| ==> s[k..k + 2][1] == s[k + 1];
      }
    }
    var r := SplitOnceStr(s, "->");
    assert r.Some?;
    var (a, b) := r.value;
    assert |a| == |s0| by {
      assert OccursAt(s, "->", |a|) by {
        assert s[|a|..|a| + 2] == "->";
      }
    }
    assert a == s[..|s0|] == s0;
    assert b == s[|s0| + 2..] == s1;
  }

  // --------------------------------------------------------------- rendering

  /** How a point is written in the puzzle input. */
  function RenderPoint(p: Point): string
  {
    Decimal(p.x) + "," + Decimal(p.y)
  }

  /** How a line is written in the puzzle input. */
  function RenderLine(l: Line): string
  {
    RenderPoint(l.p0) + " -> " + RenderPoint(l.p1)
  }

  lemma DecimalPlain(n: nat)
    ensures ',' !in Decimal(n) && '-' !in Decimal(n)
    ensures !IsWhitespace(Decimal(n)[0]) && !IsWhitespace(Decimal(n)[|Decimal(n)| - 1])
  {
    var d := Decimal(n);
    assert forall i :: 0 <= i < |d| ==> IsAsciiDigit(d[i]);
  }

  lemma DecimalTrimmed(n: nat)
    ensures Trim(Decimal(n)) == Decimal(n)
  {
    DecimalPlain(n);
    TrimNoop(Decimal(n));
  }

  /** Parsing a rendered point gives the point back. */
  lemma ParseRenderPoint(p: Point)
    requires ValidPoint(p)
    ensures ParsePoint(RenderPoint(p)) == Ok(p)
  {
    var dx := Decimal(p.x);
    var dy := Decimal(p.y);
    DecimalPlain(p.x);
    DecimalPlain(p.y);
    DecimalTrimmed(p.x);
    DecimalTrimmed(p.y);
    SplitOnceAt(dx, ',', dy);
    assert RenderPoint(p) == dx + [','] + dy;
    ParseUnsignedDecimal(p.x, U32_MAX);
    ParseUnsignedDecimal(p.y, U32_MAX);
    assert ParseUnsigned(Trim(dx), U32_MAX) == Some(p.x);
    assert ParseUnsigned(Trim(dy), U32_MAX) == Some(p.y);
  }

  lemma RenderPointPlain(p: Point)
    ensures '-' !in RenderPoint(p)
    ensures |RenderPoint(p)| > 0 && !IsWhitespace(RenderPoint(p)[0])
      && !IsWhitespace(RenderPoint(p)[|RenderPoint(p)| - 1])
  {
    DecimalPlain(p.x);
    DecimalPlain(p.y);
    var s := RenderPoint(p);
    assert s[0] == Decimal(p.x)[0];
    assert s[|s| - 1] == Decimal(p.y)[|Decimal(p.y)| - 1];
  }

  /** Parsing a rendered line gives the line back. */
  lemma ParseRenderLine(l: Line)
    requires ValidLine(l)
    ensures ParseLine(RenderLine(l)) == Ok(l)
  {
    var a := RenderPoint(l.p0);
    var b := RenderPoint(l.p1);
    RenderPointPlain(l.p0);
    RenderPointPlain(l.p1);
    assert RenderLine(l) == (a + " ") + "->" + (" " + b);
    assert '-' !in a + " ";
    SplitOnceStrAt(a + " ", "->", " " + b);
    assert a + " " == [] + a + " " && " " + b == " " + b + [];
    TrimPadded([], a, " ");
    TrimPadded(" ", b, []);
    ParseRenderPoint(l.p0);
    ParseRenderPoint(l.p1);
  }

  /** The first line of the example. */
  lemma ExampleFirst()
    ensures ParseLine("0,9 -> 5,9") == Ok(LineFrom((0, 9), (5, 9)))
  {
    var l := LineFrom((0, 9), (5, 9));
    assert Decimal(0) == "0" && Decimal(9) == "9" && Decimal(5) == "5";
    assert RenderLine(l) == "0,9 -> 5,9";
    ParseRenderLine(l);
  }

  /** The last line of the example. */
  lemma ExampleLast()
    ensures ParseLine("5,5 -> 8,2") == Ok(LineFrom((5, 5), (8, 2)))
  {
    var l := LineFrom((5, 5), (8, 2));
    assert Decimal(5) == "5" && Decimal(8) == "8" && Decimal(2) == "2";
    assert RenderLine(l) == "5,5 -> 8,2";
    ParseRenderLine(l);
  }

  // ------------------------------------------------------------- parse_lines

  /** `partition_result` over the enumerated results: the values in order, and the
      errors in order, each with its 1-based position. */
  function Partition<T, E>(results: seq<Result<T, E>>): (seq<T>, seq<Numbered<E>>)
    decreases |results|
  {
    if |results| == 0 then ([], [])
    else
      var r := Partition(results[..|results| - 1]);
      match results[|results| - 1]
      case Ok(v) => (r.0 + [v], r.1)
      case Err(e) => (r.0, r.1 + [Numbered(|results|, e)])
  }

  function Values<T, E>(results: seq<Result<T, E>>): seq<T>
  {
    Partition(results).0
  }

  function Errors<T, E>(results: seq<Result<T, E>>): seq<Numbered<E>>
  {
    Partition(results).1
  }

  /** Every reported error carries the error of the result at its line number, and the
      line numbers strictly increase. */
  lemma {:induction false} PartitionErrorsSound<T, E>(results: seq<Result<T, E>>)
    ensures forall k :: 0 <= k < |Errors(results)| ==>
      1 <= Errors(results)[k].lineNo <= |results|
      && results[Errors(results)[k].lineNo - 1] == Err(Errors(results)[k].value)
    ensures forall k, j :: 0 <= k < j < |Errors(results)| ==>
      Errors(results)[k].lineNo < Errors(results)[j].lineNo
    decreases |results|
  {
    if |results| > 0 {
      var prefix := results[..|results| - 1];
      PartitionErrorsSound(prefix);
      var errs0 := Errors(prefix);
      var errs := Errors(results);
      var last := results[|results| - 1];
      assert errs == if last.Ok? then errs0 else errs0 + [Numbered(|results|, last.error)];
      assert forall k :: 0 <= k < |errs0| ==> errs[k] == errs0[k];
      assert forall i :: 0 <= i < |prefix| ==> results[i] == prefix[i];
      forall k | 0 <= k < |errs|
        ensures 1 <= errs[k].lineNo <= |results| && results[errs[k].lineNo - 1] == Err(errs[k].value)
      {
        if k < |errs0| {
          assert errs[k] == errs0[k];
          assert results[errs[k].lineNo - 1] == prefix[errs[k].lineNo - 1];
        }
      }
    }
  }

  /** Every failing result is reported. */
  lemma {:induction false} PartitionErrorsComplete<T, E>(results: seq<Result<T, E>>)
    ensures forall i :: 0 <= i < |results| && results[i].Err? ==>
      exists k :: 0 <= k < |Errors(results)| && Errors(results)[k].lineNo == i + 1
    decreases |results|
  {
    if |results| > 0 {
      var prefix := results[..|results| - 1];
      PartitionErrorsComplete(prefix);
      var errs := Errors(results);
      var errs0 := Errors(prefix);
      forall i | 0 <= i < |results| && results[i].Err?
        ensures exists k :: 0 <= k < |errs| && errs[k].lineNo == i + 1
      {
        if i < |prefix| {
          assert prefix[i] == results[i];
          var k :| 0 <= k < |errs0| && errs0[k].lineNo == i + 1;
          assert errs[k] == errs0[k];
        } else {
          assert errs == errs0 + [Numbered(|results|, results[i].error)];
          assert errs[|errs0|].lineNo == i + 1;
        }
      }
    }
  }

  /** No error is reported exactly when every result is a value, and then the values
      are the results, in order. */
  lemma {:induction false} PartitionAllOk<T, E>(results: seq<Result<T, E>>)
    ensures |Errors(results)| == 0 <==> forall i :: 0 <= i < |results| ==> results[i].Ok?
    ensures |Errors(results)| == 0 ==>
      |Values(results)| == |results|
      && forall i :: 0 <= i < |results| ==> results[i] == Ok(Values(results)[i])
    decreases |results|
  {
    if |results| > 0 {
      var prefix := results[..|results| - 1];
      PartitionAllOk(prefix);
      assert forall i :: 0 <= i < |prefix| ==> results[i] == prefix[i];
    }
  }

  /** The body of `parse_lines` after the per-line parse: Ok with every value, in
      order, when no result failed; otherwise Err with the numbered failures, which
      the lemmas above describe. */
  function Collect<T, E>(results: seq<Result<T, E>>): (r: Result<seq<T>, seq<Numbered<E>>>)
    ensures r.Ok? <==> forall i :: 0 <= i < |results| ==> results[i].Ok?
    ensures r.Ok? ==> (|r.value| == |results|
      && forall i :: 0 <= i < |results| ==> results[i] == Ok(r.value[i]))
    ensures r.Err? ==> |r.error| > 0 && r.error == Errors(results)
  {
    PartitionAllOk(results);
    if |Errors(results)| > 0 then Err(Errors(results)) else Ok(Values(results))
  }

  /** The per-line parse results. */
  function ParseEach<T, E>(parse: string -> Result<T, E>, lines: seq<string>): (results: seq<Result<T, E>>)
    ensures |results| == |lines|
    ensures forall i :: 0 <= i < |lines| ==> results[i] == parse(lines[i])
  {
    seq(|lines|, i requires 0 <= i < |lines| => parse(lines[i]))
  }

  /** `parse_lines`: every line parsed as a `Line`. */
  function ParseLines(lines: seq<string>): Result<seq<Line>, seq<Numbered<LineParseError>>>
  {
    Collect(ParseEach(ParseLine, lines))
  }

  /** `parse_lines` succeeds exactly when every line parses, and then yields the
      parsed lines in input order. */
  lemma ParseLinesOk(lines: seq<string>)
    ensures ParseLines(lines).Ok? <==> forall i :: 0 <= i < |lines| ==> ParseLine(lines[i]).Ok?
    ensures ParseLines(lines).Ok? ==> (|ParseLines(lines).value| == |lines|
      && forall i :: 0 <= i < |lines| ==> ParseLine(lines[i]) == Ok(ParseLines(lines).value[i]))
  {
    var results := ParseEach(ParseLine, lines);
    assert forall i :: 0 <= i < |lines| ==> results[i] == ParseLine(lines[i]);
  }

  /** When the parse of the lines fails, each reported error is the error of the line
      it is numbered with (from 1), the numbers follow the input order, and every
      failing line is reported. */
  lemma ParseErrorsReported<T, E>(parse: string -> Result<T, E>, lines: seq<string>)
    requires Collect(ParseEach(parse, lines)).Err?
    ensures var errs := Collect(ParseEach(parse, lines)).error;
      forall k :: 0 <= k < |errs| ==>
        1 <= errs[k].lineNo <= |lines| && parse(lines[errs[k].lineNo - 1]) == Err(errs[k].value)
    ensures var errs := Collect(ParseEach(parse, lines)).error;
      forall k, j :: 0 <= k < j < |errs| ==> errs[k].lineNo < errs[j].lineNo
    ensures var errs := Collect(ParseEach(parse, lines)).error;
      forall i :: 0 <= i < |lines| && parse(lines[i]).Err? ==>
        exists k :: 0 <= k < |errs| && errs[k].lineNo == i + 1
  {
    var results := ParseEach(parse, lines);
    PartitionErrorsSound(results);
    PartitionErrorsComplete(results);
  }
}
