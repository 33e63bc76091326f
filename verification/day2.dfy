/** Day 2 (dive): parsing submarine commands and the two ways of folding them
    into a position. */
module Day2 {
  import opened Wrappers
  import opened Text
  import opened Seqs

  /** A command with its `i32` amplitude. */
  datatype Direction = Forward(dx: int) | Down(dy: int) | Up(dy: int)

  /** The three ways `direction::from` panics. */
  datatype DirectionError = MissingSpace | InvalidAmplitude | UnknownLabel

  /** `direction::ctor`: the constructor named by the label, compared after lowering
      its case; any other label panics. */
  function Ctor(name: string): (r: Result<(int -> Direction), DirectionError>)
    ensures r.Ok? <==> ToLower(name) in {"forward", "down", "up"}
    ensures ToLower(name) == "forward" ==> r.Ok? && forall n :: r.value(n) == Forward(n)
    ensures ToLower(name) == "down" ==> r.Ok? && forall n :: r.value(n) == Down(n)
    ensures ToLower(name) == "up" ==> r.Ok? && forall n :: r.value(n) == Up(n)
  {
    match ToLower(name)
    case "forward" => Ok(n => Forward(n))
    case "down" => Ok(n => Down(n))
    case "up" => Ok(n => Up(n))
    case _ => Err(UnknownLabel)
  }

  /** `direction::from`: trims the line, splits it at the first space, parses the
      amplitude as an `i32` and only then resolves the label. */
  function ParseDirection(line: string): (r: Result<Direction, DirectionError>)
    ensures r.Ok? ==> IsI32(Amplitude(r.value))
    ensures r == Err(MissingSpace) <==> ' ' !in Trim(line)
  {
    match SplitOnce(Trim(line), ' ')
    case None => Err(MissingSpace)
    case Some((name, amplitudeText)) =>
      match ParseSigned(amplitudeText, I32_MIN, I32_MAX)
      case None => Err(InvalidAmplitude)
      case Some(amplitude) =>
        match Ctor(name)
        case Err(e) => Err(e)
        case Ok(ctor) => Ok(ctor(amplitude))
  }

  /** Once the trimmed line splits at its first space into a label and an amplitude,
      the amplitude is checked before the label: an amplitude that is not an `i32`
      panics whatever the label, an unknown label panics next, and otherwise the
      command is the one the label names, carrying the amplitude. */
  lemma ParseDirectionSplit(line: string, name: string, amplitudeText: string)
    requires Trim(line) == name + " " + amplitudeText && ' ' !in name
    ensures ParseDirection(line) == Err(InvalidAmplitude)
      <==> ParseSigned(amplitudeText, I32_MIN, I32_MAX).None?
    ensures ParseDirection(line) == Err(UnknownLabel)
      <==> (ParseSigned(amplitudeText, I32_MIN, I32_MAX).Some?
        && ToLower(name) !in {"forward", "down", "up"})
    ensures ParseDirection(line).Ok? ==>
      var d := ParseDirection(line).value;
      Some(Amplitude(d)) == ParseSigned(amplitudeText, I32_MIN, I32_MAX)
        && Label(d) == ToLower(name)
  {
    SplitOnceAt(name, ' ', amplitudeText);
    assert SplitOnce(Trim(line), ' ') == Some((name, amplitudeText));
    match ParseSigned(amplitudeText, I32_MIN, I32_MAX)
    case None =>
    case Some(n) =>
      var lower := ToLower(name);
      if lower == "forward" {
        assert ParseDirection(line) == Ok(Forward(n));
      } else if lower == "down" {
        assert ParseDirection(line) == Ok(Down(n));
      } else if lower == "up" {
        assert ParseDirection(line) == Ok(Up(n));
      } else {
        assert ParseDirection(line) == Err(UnknownLabel);
      }
  }

  function Amplitude(d: Direction): int
  {
    match d
    case Forward(n) => n
    case Down(n) => n
    case Up(n) => n
  }

  /** How a command is written in the puzzle input. */
  function Render(d: Direction): string
  {
    var n := Amplitude(d);
    Label(d) + " " + SignedDecimal(n)
  }

  function Label(d: Direction): string
  {
    match d
    case Forward(_) => "forward"
    case Down(_) => "down"
    case Up(_) => "up"
  }

  lemma LabelIsPlain(d: Direction)
    ensures ' ' !in Label(d)
    ensures forall i :: 0 <= i < |Label(d)| ==> !IsAsciiUpper(Label(d)[i])
  {
    match d
    case Forward(_) => assert Label(d) == "forward";
    case Down(_) => assert Label(d) == "down";
    case Up(_) => assert Label(d) == "up";
  }

  /** Parsing a rendered command gives the command back. */
  lemma ParseRender(d: Direction)
    requires IsI32(Amplitude(d))
    ensures ParseDirection(Render(d)) == Ok(d)
  {
    var n := Amplitude(d);
    var word := Label(d);
    var number := SignedDecimal(n);
    var line := Render(d);
    assert line == word + " " + number;
    assert line[|line| - 1] == number[|number| - 1];
    TrimNoop(line);
    LabelIsPlain(d);
    SplitOnceAt(word, ' ', number);
    assert SplitOnce(Trim(line), ' ') == Some((word, number));
    ParseSignedDecimal(n, I32_MIN, I32_MAX);
    assert ParseSigned(number, I32_MIN, I32_MAX) == Some(n);
    ToLowerNoUpper(word);
    match d
    case Forward(_) => assert word == "forward";
    case Down(_) => assert word == "down";
    case Up(_) => assert word == "up";
  }

  // ------------------------------------------------------------------- folds

  /** The horizontal and vertical contribution of one command in part 1. */
  function Advance(d: Direction): int
  {
    if d.Forward? then d.dx else 0
  }

  function Descend(d: Direction): int
  {
    match d
    case Forward(_) => 0
    case Down(n) => n
    case Up(n) => -n
  }

  /** `direction::to_coord`: the left fold over the commands. */
  function ToCoord(dirs: seq<Direction>): (int, int)
    decreases |dirs|
  {
    if |dirs| == 0 then (0, 0)
    else
      var xy := ToCoord(dirs[..|dirs| - 1]);
      match dirs[|dirs| - 1]
      case Forward(dx) => (xy.0 + dx, xy.1)
      case Down(dy) => (xy.0, xy.1 + dy)
      case Up(dy) => (xy.0, xy.1 - dy)
  }

  /** The position is the total of the Forward amplitudes ahead and of the Down
      amplitudes minus the Up amplitudes below: Down and Up never move the
      submarine ahead, and Forward never changes its depth. */
  lemma {:induction false} ToCoordIsSums(dirs: seq<Direction>)
    ensures ToCoord(dirs) == (SumOf(dirs, Advance), SumOf(dirs, Descend))
    decreases |dirs|
  {
    if |dirs| > 0 {
      var prefix := dirs[..|dirs| - 1];
      ToCoordIsSums(prefix);
      assert dirs == prefix + [dirs[|dirs| - 1]];
      SumOfConcat(prefix, [dirs[|dirs| - 1]], Advance);
      SumOfConcat(prefix, [dirs[|dirs| - 1]], Descend);
    }
  }

  /** The fold is a homomorphism: the position after a concatenation of command lists
      is the sum of the positions after each. */
  lemma ToCoordConcat(a: seq<Direction>, b: seq<Direction>)
    ensures ToCoord(a + b).0 == ToCoord(a).0 + ToCoord(b).0
    ensures ToCoord(a + b).1 == ToCoord(a).1 + ToCoord(b).1
  {
    ToCoordIsSums(a);
    ToCoordIsSums(b);
    ToCoordIsSums(a + b);
    SumOfConcat(a, b, Advance);
    SumOfConcat(a, b, Descend);
  }

  /** The part 2 state: position, depth and aim. */
  datatype Submarine = Submarine(x: int, depth: int, aim: int)

  /** The fold of `part2`: Down and Up only turn the aim; Forward moves ahead and
      dives by aim times the distance. */
  function Navigate(dirs: seq<Direction>): Submarine
    decreases |dirs|
  {
    if |dirs| == 0 then Submarine(0, 0, 0)
    else
      var s := Navigate(dirs[..|dirs| - 1]);
      match dirs[|dirs| - 1]
      case Forward(dx) => Submarine(s.x + dx, s.depth + s.aim * dx, s.aim)
      case Down(da) => Submarine(s.x, s.depth, s.aim + da)
      case Up(da) => Submarine(s.x, s.depth, s.aim - da)
  }

  /** Both folds move forward by exactly the Forward amplitudes (Down and Up never
      change x), and the aim of part 2 is the depth of part 1. */
  lemma {:induction false} NavigateAgreesWithToCoord(dirs: seq<Direction>)
    ensures Navigate(dirs).x == ToCoord(dirs).0
    ensures Navigate(dirs).aim == ToCoord(dirs).1
    decreases |dirs|
  {
    if |dirs| > 0 {
      NavigateAgreesWithToCoord(dirs[..|dirs| - 1]);
    }
  }

  /** The first line of the part 1 example. */
  lemma ParseExample()
    ensures ParseDirection("forward 5") == Ok(Forward(5))
  {
    assert Render(Forward(5)) == "forward 5";
    ParseRender(Forward(5));
  }

  /** The commands of the part 1 example: the fold ends 15 ahead and 10 down, so
      the product is 150. The unit test of `to_coord` expects `(15, -10)`, a
      position this fold does not reach. */
  lemma Example()
    ensures ToCoord([Forward(5), Down(5), Forward(8), Up(3), Down(8), Forward(2)]) == (15, 10)
  {
    var d1 := [Forward(5)];
    var d2 := d1 + [Down(5)];
    var d3 := d2 + [Forward(8)];
    var d4 := d3 + [Up(3)];
    var d5 := d4 + [Down(8)];
    var d6 := d5 + [Forward(2)];
    assert ToCoord(d1) == (5, 0);
    assert d2[..1] == d1;
    assert ToCoord(d2) == (5, 5);
    assert d3[..2] == d2;
    assert ToCoord(d3) == (13, 5);
    assert d4[..3] == d3;
    assert ToCoord(d4) == (13, 2);
    assert d5[..4] == d4;
    assert ToCoord(d5) == (13, 10);
    assert d6[..5] == d5;
    assert ToCoord(d6) == (15, 10);
    assert d6 == [Forward(5), Down(5), Forward(8), Up(3), Down(8), Forward(2)];
  }

  /** The part 2 fold on the same commands ends 15 ahead at depth 60. */
  lemma NavigateExample()
    ensures Navigate([Forward(5), Down(5), Forward(8), Up(3), Down(8), Forward(2)]) == Submarine(15, 60, 10)
  {
    var d1 := [Forward(5)];
    var d2 := d1 + [Down(5)];
    var d3 := d2 + [Forward(8)];
    var d4 := d3 + [Up(3)];
    var d5 := d4 + [Down(8)];
    var d6 := d5 + [Forward(2)];
    assert Navigate(d1) == Submarine(5, 0, 0);
    assert d2[..1] == d1;
    assert Navigate(d2) == Submarine(5, 0, 5);
    assert d3[..2] == d2;
    assert Navigate(d3) == Submarine(13, 40, 5);
    assert d4[..3] == d3;
    assert Navigate(d4) == Submarine(13, 40, 2);
    assert d5[..4] == d4;
    assert Navigate(d5) == Submarine(13, 40, 10);
    assert d6[..5] == d5;
    assert Navigate(d6) == Submarine(15, 60, 10);
    assert d6 == [Forward(5), Down(5), Forward(8), Up(3), Down(8), Forward(2)];
  }
}
