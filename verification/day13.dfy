/** Day 13 (transparent origami): dots on a sheet of paper, the fold instructions, the
    fold itself and the picture the dots draw. */
module Day13 {
  import opened Wrappers
  import opened Text
  import opened Seqs

  // ------------------------------------------------------------------ dots

  /** `Pos(i, j)`: a dot at column `x` and row `y`, both `i32`. */
  datatype Pos = Pos(x: int, y: int)

  predicate IsI32Pos(p: Pos) {
    IsI32(p.x) && IsI32(p.y)
  }

  /** `Pos::from_str`: split at the first comma, each side an `i32`; anything else
      panics in the source. */
  function PosOf(s: string): (r: Option<Pos>)
    ensures ',' !in s ==> r.None?
    ensures r.Some? ==> IsI32Pos(r.value)
  {
    match SplitOnce(s, ',')
    case None => None
    case Some((a, b)) =>
      match (ParseSigned(a, I32_MIN, I32_MAX), ParseSigned(b, I32_MIN, I32_MAX))
      case (Some(x), Some(y)) => Some(Pos(x, y))
      case _ => None
  }

  /** A line with a comma is read at its first comma: it is a dot exactly when the text
      before the comma and the text after it are both `i32` numerals, and the dot is
      those two numbers. */
  lemma PosOfSplit(s: string, a: string, b: string)
    requires s == a + "," + b && ',' !in a
    ensures PosOf(s).Some? <==>
      ParseSigned(a, I32_MIN, I32_MAX).Some? && ParseSigned(b, I32_MIN, I32_MAX).Some?
    ensures PosOf(s).Some? ==>
      PosOf(s).value == Pos(ParseSigned(a, I32_MIN, I32_MAX).value, ParseSigned(b, I32_MIN, I32_MAX).value)
  {
    SplitOnceAt(a, ',', b);
    assert SplitOnce(s, ',') == Some((a, b));
  }

  /** A dot as the input writes it: `x,y`. */
  function ShowPos(p: Pos): string {
    SignedDecimal(p.x) + "," + SignedDecimal(p.y)
  }

  /** Reading back a written dot gives the dot. */
  lemma PosOfShow(p: Pos)
    requires IsI32Pos(p)
    ensures PosOf(ShowPos(p)) == Some(p)
  {
    var a := SignedDecimal(p.x);
    var b := SignedDecimal(p.y);
    assert ',' !in a;
    SplitOnceAt(a, ',', b);
    ParseSignedDecimalOf(p.x, I32_MIN, I32_MAX);
    ParseSignedDecimalOf(p.y, I32_MIN, I32_MAX);
  }

  /** `Pos::max`: the componentwise maximum. */
  function Max(p: Pos, q: Pos): (r: Pos)
    ensures p.x <= r.x && q.x <= r.x && (r.x == p.x || r.x == q.x)
    ensures p.y <= r.y && q.y <= r.y && (r.y == p.y || r.y == q.y)
  {
    Pos(if p.x < q.x then q.x else p.x, if p.y < q.y then q.y else p.y)
  }

  /** The maximum is commutative, associative and idempotent, so a fold of it does not
      depend on the order of the dots. */
  lemma MaxLaws(p: Pos, q: Pos, s: Pos)
    ensures Max(p, q) == Max(q, p)
    ensures Max(Max(p, q), s) == Max(p, Max(q, s))
    ensures Max(p, p) == p
  {
  }

  // ------------------------------------------------------------------ instructions

  /** `fold along x=N` folds the columns right of `N` over; `fold along y=N` the rows
      below `N` up. */
  datatype Instruction = X(line: int) | Y(line: int)

  /** Why an instruction line panics: it does not match the pattern, its number does not
      fit an `i32`, or its axis is the comma that the character class `[x,y]` also
      admits. */
  datatype InstructionError = NoMatch | OutOfRange | CommaAxis

  const FoldPrefix: string := "fold along "

  /** The pattern `^fold along ([x,y])=(\d+)$`, with ASCII digits. */
  predicate Matches(s: string) {
    && |s| > 13
    && s[..11] == FoldPrefix
    && (s[11] == 'x' || s[11] == ',' || s[11] == 'y')
    && s[12] == '='
    && AllDigits(s[13..])
  }

  /** `Instruction::from_str`. */
  function InstructionOf(s: string): (r: Result<Instruction, InstructionError>)
    ensures r == Err(NoMatch) <==> !Matches(s)
    ensures r == Err(CommaAxis) <==> Matches(s) && s[11] == ',' && DigitsValue(s[13..]) <= I32_MAX
    ensures r == Err(OutOfRange) <==> Matches(s) && DigitsValue(s[13..]) > I32_MAX
    ensures r.Ok? <==> Matches(s) && s[11] != ',' && DigitsValue(s[13..]) <= I32_MAX
    ensures r.Ok? ==> Matches(s) && 0 <= r.value.line <= I32_MAX && r.value.line == DigitsValue(s[13..])
    ensures r.Ok? ==> s[11] == (if r.value.X? then 'x' else 'y')
  {
    if !Matches(s) then Err(NoMatch)
    else
      match ParseSigned(s[13..], I32_MIN, I32_MAX)
      case None => Err(OutOfRange)
      case Some(v) =>
        if s[11] == 'x' then Ok(X(v))
        else if s[11] == 'y' then Ok(Y(v))
        else Err(CommaAxis)
  }

  /** An instruction as the input writes it. */
  function ShowInstruction(ins: Instruction): string
    requires ins.line >= 0
  {
    FoldPrefix + (if ins.X? then "x" else "y") + "=" + Decimal(ins.line)
  }

  /** Reading back a written instruction gives the instruction. */
  lemma InstructionOfShow(ins: Instruction)
    requires 0 <= ins.line <= I32_MAX
    ensures InstructionOf(ShowInstruction(ins)) == Ok(ins)
  {
    var s := ShowInstruction(ins);
    assert s[..11] == FoldPrefix;
    assert s[13..] == Decimal(ins.line);
    ParseUnsignedDecimal(ins.line, I32_MAX);
    ParseSignedDecimalOf(ins.line, I32_MIN, I32_MAX);
  }

  /** The comma axis matches the pattern and then panics, whatever the number. */
  lemma CommaAxisPanics(n: nat)
    requires n <= I32_MAX
    ensures InstructionOf(FoldPrefix + ",=" + Decimal(n)) == Err(CommaAxis)
  {
    var s := FoldPrefix + ",=" + Decimal(n);
    assert s[..11] == FoldPrefix;
    assert s[13..] == Decimal(n);
    DecimalValue(n);
  }

  // ------------------------------------------------------------------ folding

  /** Where one dot lands: a dot past the line is mirrored across it, the others stay.
      The `i32` arithmetic `2 * line - coordinate` overflows to `None`. */
  function Reflect(ins: Instruction, p: Pos): (r: Option<Pos>)
    ensures r.Some? ==> (if ins.X? then r.value.y == p.y else r.value.x == p.x)
    ensures r.Some? && ins.X? ==> r.value.x <= ins.line || r.value.x == p.x
    ensures r.Some? && ins.Y? ==> r.value.y <= ins.line || r.value.y == p.y
  {
    match ins
    case X(col) =>
      if p.x > col then
        if IsI32(2 * col) && IsI32(2 * col - p.x) then Some(Pos(2 * col - p.x, p.y)) else None
      else Some(p)
    case Y(row) =>
      if p.y > row then
        if IsI32(2 * row) && IsI32(2 * row - p.y) then Some(Pos(p.x, 2 * row - p.y)) else None
      else Some(p)
  }

  /** The dot's fold neither overflows nor leaves the sheet (the source asserts both
      coordinates are non-negative). */
  predicate Lands(ins: Instruction, p: Pos) {
    Reflect(ins, p).Some? && Reflect(ins, p).value.x >= 0 && Reflect(ins, p).value.y >= 0
  }

  /** The coordinate a fold acts on. */
  function Coordinate(ins: Instruction, p: Pos): int {
    if ins.X? then p.x else p.y
  }

  /** The dot mirrored across the fold line. */
  function Mirror(ins: Instruction, p: Pos): (r: Pos)
    ensures Coordinate(ins, r) - ins.line == ins.line - Coordinate(ins, p)
    ensures (if ins.X? then r.y == p.y else r.x == p.x)
  {
    match ins
    case X(col) => Pos(2 * col - p.x, p.y)
    case Y(row) => Pos(p.x, 2 * row - p.y)
  }

  /** `Instruction::fold`: the set of landing places, or `None` when some dot does not
      land (the source panics). */
  function Fold(ins: Instruction, dots: set<Pos>): (r: Option<set<Pos>>)
    ensures r.None? <==> exists p :: p in dots && !Lands(ins, p)
    ensures r.Some? ==> forall q :: q in r.value <==> exists p :: p in dots && Reflect(ins, p) == Some(q)
  {
    if forall p :: p in dots ==> Lands(ins, p) then
      Some(set p | p in dots :: Reflect(ins, p).value)
    else None
  }

  /** The folded dots: those on the kept side stay, those past the line come back as
      their mirror images; nothing lies past the line or off the sheet. */
  lemma FoldMembers(ins: Instruction, dots: set<Pos>, q: Pos)
    requires Fold(ins, dots).Some?
    ensures q in Fold(ins, dots).value <==>
      (q in dots && Coordinate(ins, q) <= ins.line)
      || (Mirror(ins, q) in dots && Coordinate(ins, Mirror(ins, q)) > ins.line)
    ensures q in Fold(ins, dots).value ==> Coordinate(ins, q) <= ins.line && q.x >= 0 && q.y >= 0
  {
    var r := Fold(ins, dots).value;
    if q in r {
      var p :| p in dots && Reflect(ins, p) == Some(q);
      assert Lands(ins, p);
    }
    if q in dots && Coordinate(ins, q) <= ins.line {
      assert Reflect(ins, q) == Some(q);
    }
    if Mirror(ins, q) in dots && Coordinate(ins, Mirror(ins, q)) > ins.line {
      assert Lands(ins, Mirror(ins, q));
      assert Reflect(ins, Mirror(ins, q)) == Some(q);
    }
  }

  /** For dots on the sheet and a line whose double is an `i32`, the fold succeeds
      exactly when no dot lies more than the line's distance past it. */
  lemma FoldDefined(ins: Instruction, dots: set<Pos>)
    requires 0 <= ins.line && 2 * ins.line <= I32_MAX
    requires forall p :: p in dots ==> IsI32Pos(p) && p.x >= 0 && p.y >= 0
    ensures Fold(ins, dots).Some? <==> forall p :: p in dots ==> Coordinate(ins, p) <= 2 * ins.line
  {
    forall p | p in dots
      ensures Lands(ins, p) <==> Coordinate(ins, p) <= 2 * ins.line
    {
    }
  }

  /** The image of a set under a function is no larger than the set. */
  lemma {:induction false} ImageSize(dots: set<Pos>, f: Pos -> Pos)
    ensures |set p | p in dots :: f(p)| <= |dots|
    decreases |dots|
  {
    if dots != {} {
      var p :| p in dots;
      var rest := dots - {p};
      ImageSize(rest, f);
      assert (set q | q in dots :: f(q)) == (set q | q in rest :: f(q)) + {f(p)};
    }
  }

  /** Folding never yields more dots than it was given. */
  lemma FoldShrinks(ins: Instruction, dots: set<Pos>)
    requires Fold(ins, dots).Some?
    ensures |Fold(ins, dots).value| <= |dots|
  {
    var f := (p: Pos) => if Lands(ins, p) then Reflect(ins, p).value else p;
    assert Fold(ins, dots).value == set p | p in dots :: f(p);
    ImageSize(dots, f);
  }

  /** Folding again along the same line changes nothing. */
  lemma FoldTwice(ins: Instruction, dots: set<Pos>)
    requires Fold(ins, dots).Some?
    ensures Fold(ins, Fold(ins, dots).value) == Fold(ins, dots)
  {
    var once := Fold(ins, dots).value;
    forall q | q in once
      ensures Reflect(ins, q) == Some(q) && Lands(ins, q)
    {
      FoldMembers(ins, dots, q);
    }
    var twice := Fold(ins, once);
    assert twice.Some?;
    assert twice.value == once;
  }

  // ------------------------------------------------------------------ the picture

  /** The bottom-right corner of the picture: the componentwise maximum of the dots and
      the origin, folded left over the dots. */
  function Corner(dots: seq<Pos>): (r: Pos)
    ensures r.x >= 0 && r.y >= 0
    ensures forall p :: p in dots ==> p.x <= r.x && p.y <= r.y
    ensures r.x == 0 || exists p :: p in dots && p.x == r.x
    ensures r.y == 0 || exists p :: p in dots && p.y == r.y
    decreases |dots|
  {
    if |dots| == 0 then Pos(0, 0)
    else
      var init := dots[..|dots| - 1];
      assert dots == init + [dots[|dots| - 1]];
      Max(dots[|dots| - 1], Corner(init))
  }

  /** One row of the picture: `#` on a dot, a space elsewhere, then a newline. */
  function RowText(dots: set<Pos>, y: int, width: nat): (r: string)
    ensures |r| == width + 1 && r[width] == '\n'
    ensures forall i :: 0 <= i < width ==> r[i] == (if Pos(i, y) in dots then '#' else ' ')
  {
    seq(width, i => if Pos(i, y) in dots then '#' else ' ') + "\n"
  }

  /** The `HashSet` of the dots. */
  function DotSet(dots: seq<Pos>): (r: set<Pos>)
    ensures forall p :: p in r <==> p in dots
  {
    set p | p in dots
  }

  /** The rows of the picture: rows `0..=corner.y`, each of columns `0..=corner.x`. */
  function Picture(dots: seq<Pos>): (r: seq<string>)
    ensures |r| == Corner(dots).y + 1
    ensures forall y :: 0 <= y < |r| ==> r[y] == RowText(DotSet(dots), y, Corner(dots).x + 1)
  {
    var c := Corner(dots);
    seq(c.y + 1, y => RowText(DotSet(dots), y, c.x + 1))
  }

  /** `Display for Dots`: the rows one after the other. */
  function Render(dots: seq<Pos>): string {
    Flatten(Picture(dots))
  }

  /** The picture has a `#` exactly at the dots: every dot on the sheet lies inside the
      picture, and a position of the picture shows `#` exactly when a dot is there. */
  lemma RenderShows(dots: seq<Pos>, x: nat, y: nat)
    ensures Pos(x, y) in dots <==>
      var rows := Picture(dots);
      y < |rows| && x < |rows[y]| && rows[y][x] == '#'
  {
    var c := Corner(dots);
    if Pos(x, y) in dots {
      assert x <= c.x && y <= c.y;
    }
  }

  // ------------------------------------------------------------------ the sample

  /** Two dots of the sample that fold onto one another along `y=7`: this is where the
      sample's eighteen dots become seventeen. */
  lemma SampleMerge()
    ensures Fold(Y(7), {Pos(8, 4), Pos(8, 10)}) == Some({Pos(8, 4)})
  {
    assert Lands(Y(7), Pos(8, 4)) && Lands(Y(7), Pos(8, 10));
    var r := Fold(Y(7), {Pos(8, 4), Pos(8, 10)}).value;
    FoldMembers(Y(7), {Pos(8, 4), Pos(8, 10)}, Pos(8, 4));
    forall q | q in r
      ensures q == Pos(8, 4)
    {
      FoldMembers(Y(7), {Pos(8, 4), Pos(8, 10)}, q);
    }
    assert r == {Pos(8, 4)};
  }

  /** A dot further past the line than the line is from the edge folds off the sheet,
      which the source's assertion rejects. */
  lemma OffTheSheet()
    ensures Fold(Y(7), {Pos(0, 15)}) == None
  {
    assert !Lands(Y(7), Pos(0, 15));
  }
}
