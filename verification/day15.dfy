/** Day 15 (chiton): loading the risk levels from the lines of the input, stored
    rotated by a half turn, and seeding the cache of minimal path risks. */
module Day15 {
  import opened Wrappers
  import opened Text
  import opened Seqs
  import opened Grid

  /** `RiskLevels`: one risk digit per cell. */
  type RiskLevels = Grid<nat>

  /** Why `from_file` panics, in the order it checks: the row count and the column
      count must be present `usize` values, every later character must be a decimal
      digit, and the digits must fill the declared shape exactly. */
  datatype LoadError =
    | MissingRows
    | BadRows(line: string)
    | MissingColumns
    | BadColumns(line: string)
    | NotADigit(c: char)
    | ShapeMismatch(count: nat)

  // ------------------------------------------------------------------ digits

  /** `chars().map(|c| c.to_digit(10).unwrap())`: the digits of `s`, or the first
      character that is not one. */
  function DigitsOf(s: string): (r: Result<seq<nat>, char>)
    ensures r.Ok? <==> AllDigits(s)
    ensures r.Ok? ==> |r.value| == |s|
    decreases |s|
  {
    if |s| == 0 then Ok([])
    else if !IsAsciiDigit(s[0]) then Err(s[0])
    else
      match DigitsOf(s[1..])
      case Err(c) => Err(c)
      case Ok(ds) => Ok([DigitValue(s[0])] + ds)
  }

  /** Each digit is the value of the character at its position. */
  lemma {:induction false} DigitsOfAt(s: string, k: nat)
    requires AllDigits(s) && k < |s|
    ensures DigitsOf(s).value[k] == DigitValue(s[k])
    decreases k
  {
    if k > 0 {
      DigitsOfAt(s[1..], k - 1);
    }
  }

  /** `c` is the first character of `s` that is not a decimal digit. */
  ghost predicate FirstNonDigit(s: string, c: char) {
    exists k :: (0 <= k < |s| && s[k] == c && !IsAsciiDigit(c)
      && forall j :: 0 <= j < k ==> IsAsciiDigit(s[j]))
  }

  /** The error names the first character that is not a digit. */
  lemma {:induction false} DigitsOfError(s: string)
    requires !AllDigits(s)
    ensures FirstNonDigit(s, DigitsOf(s).error)
    decreases |s|
  {
    if IsAsciiDigit(s[0]) {
      var t := s[1..];
      DigitsOfError(t);
      var c := DigitsOf(s).error;
      assert c == DigitsOf(t).error;
      var k :| 0 <= k < |t| && t[k] == c && !IsAsciiDigit(c)
        && forall j :: 0 <= j < k ==> IsAsciiDigit(t[j]);
      assert s[k + 1] == c;
      forall j | 0 <= j < k + 1 ensures IsAsciiDigit(s[j]) {
        if j > 0 {
          assert s[j] == t[j - 1];
        }
      }
    } else {
      assert s[0] == DigitsOf(s).error;
    }
  }

  /** Digits written as characters. */
  function DigitString(ds: seq<nat>): (r: string)
    requires forall k :: 0 <= k < |ds| ==> ds[k] < 10
    ensures |r| == |ds| && AllDigits(r)
    decreases |ds|
  {
    if |ds| == 0 then "" else [DigitChar(ds[0])] + DigitString(ds[1..])
  }

  /** Written digits read back. */
  lemma {:induction false} DigitsOfString(ds: seq<nat>)
    requires forall k :: 0 <= k < |ds| ==> ds[k] < 10
    ensures DigitsOf(DigitString(ds)) == Ok(ds)
    decreases |ds|
  {
    if |ds| > 0 {
      var s := DigitString(ds);
      assert s[0] == DigitChar(ds[0]) && s[1..] == DigitString(ds[1..]);
      DigitsOfString(ds[1..]);
      assert ds == [ds[0]] + ds[1..];
    }
  }

  // ------------------------------------------------------------------ reversal

  /** `Vec::reverse`. */
  function Reverse<T>(s: seq<T>): (r: seq<T>)
    ensures |r| == |s|
    decreases |s|
  {
    if |s| == 0 then [] else Reverse(s[1..]) + [s[0]]
  }

  /** Position `k` of the reversal holds the element `k` places from the end. */
  lemma {:induction false} ReverseAt<T>(s: seq<T>, k: nat)
    requires k < |s|
    ensures Reverse(s)[k] == s[|s| - 1 - k]
    decreases |s|
  {
    if k < |s| - 1 {
      ReverseAt(s[1..], k);
    }
  }

  /** Reversed digits are digits. */
  lemma ReverseDigits(s: seq<nat>)
    requires forall k :: 0 <= k < |s| ==> s[k] < 10
    ensures forall k :: 0 <= k < |s| ==> Reverse(s)[k] < 10
  {
    forall k | 0 <= k < |s| ensures Reverse(s)[k] < 10 {
      ReverseAt(s, k);
    }
  }

  /** Reversing twice gives the sequence back. */
  lemma ReverseReverse<T>(s: seq<T>)
    ensures Reverse(Reverse(s)) == s
  {
    forall k | 0 <= k < |s| ensures Reverse(Reverse(s))[k] == s[k] {
      ReverseAt(Reverse(s), k);
      ReverseAt(s, |s| - 1 - k);
    }
  }

  // ------------------------------------------------------------------ loading

  /** The lines that hold the digits: those after the row count, the column count and
      the skipped third line. */
  function Body(lines: seq<string>): (r: seq<string>)
    ensures |lines| > 3 ==> r == lines[3..]
    ensures |lines| <= 3 ==> r == []
  {
    if |lines| > 3 then lines[3..] else []
  }

  /** `RiskLevels::from_file` over the lines of the file: the row count, the column
      count, a skipped line, then the digits of all remaining lines in reverse order,
      filling the array row by row. */
  function Load(lines: seq<string>): (r: Result<RiskLevels, LoadError>)
    ensures r == Err(MissingRows) <==> |lines| == 0
    ensures r.Ok? ==> r.value.Valid()
    ensures r.Ok? <==>
      && |lines| >= 2
      && ParseUnsigned(lines[0], USIZE_MAX).Some?
      && ParseUnsigned(lines[1], USIZE_MAX).Some?
      && AllDigits(Flatten(Body(lines)))
      && |Flatten(Body(lines))| == ParseUnsigned(lines[0], USIZE_MAX).value * ParseUnsigned(lines[1], USIZE_MAX).value
    ensures r.Ok? ==> Some(r.value.rows) == ParseUnsigned(lines[0], USIZE_MAX)
    ensures r.Ok? ==> Some(r.value.columns) == ParseUnsigned(lines[1], USIZE_MAX)
    ensures r.Ok? ==> r.value.Items() == Reverse(DigitsOf(Flatten(Body(lines))).value)
  {
    if |lines| == 0 then Err(MissingRows)
    else
      match ParseUnsigned(lines[0], USIZE_MAX)
      case None => Err(BadRows(lines[0]))
      case Some(n) =>
        if |lines| == 1 then Err(MissingColumns)
        else
          match ParseUnsigned(lines[1], USIZE_MAX)
          case None => Err(BadColumns(lines[1]))
          case Some(m) =>
            match DigitsOf(Flatten(Body(lines)))
            case Err(c) => Err(NotADigit(c))
            case Ok(ds) =>
              match FromShapeVec(n, m, Reverse(ds))
              case None => Err(ShapeMismatch(|ds|))
              case Some(g) => Ok(g)
  }

  /** The row-major position of `ij` in rows of `columns` cells. */
  function RowMajor(columns: nat, ij: Index): (k: nat)
    ensures k >= ij.1
  {
    ij.0 * columns + ij.1
  }

  /** Each failure of `Load` is the first check the input fails: the row count, the
      column count, then the first character that is not a digit, then the number of
      digits. */
  lemma LoadFails(lines: seq<string>)
    ensures |lines| > 0 ==>
      (Load(lines) == Err(BadRows(lines[0])) <==> ParseUnsigned(lines[0], USIZE_MAX).None?)
    ensures Load(lines) == Err(MissingColumns) <==>
      |lines| == 1 && ParseUnsigned(lines[0], USIZE_MAX).Some?
    ensures |lines| > 1 ==>
      (Load(lines) == Err(BadColumns(lines[1])) <==>
        ParseUnsigned(lines[0], USIZE_MAX).Some? && ParseUnsigned(lines[1], USIZE_MAX).None?)
    ensures Load(lines).Err? && Load(lines).error.NotADigit? ==>
      FirstNonDigit(Flatten(Body(lines)), Load(lines).error.c)
    ensures Load(lines).Err? && Load(lines).error.ShapeMismatch? ==>
      && AllDigits(Flatten(Body(lines)))
      && Load(lines).error.count == |Flatten(Body(lines))|
      && Load(lines).error.count != ParseUnsigned(lines[0], USIZE_MAX).value * ParseUnsigned(lines[1], USIZE_MAX).value
  {
    if Load(lines).Err? && Load(lines).error.NotADigit? {
      var d := Flatten(Body(lines));
      assert |lines| >= 2 && ParseUnsigned(lines[0], USIZE_MAX).Some? && ParseUnsigned(lines[1], USIZE_MAX).Some?;
      assert DigitsOf(d).Err? && Load(lines).error.c == DigitsOf(d).error;
      DigitsOfError(d);
    }
    if Load(lines).Err? && Load(lines).error.ShapeMismatch? {
      var n := ParseUnsigned(lines[0], USIZE_MAX).value;
      var m := ParseUnsigned(lines[1], USIZE_MAX).value;
      var ds := DigitsOf(Flatten(Body(lines))).value;
      assert FromShapeVec(n, m, Reverse(ds)).None?;
      assert |Reverse(ds)| == |Flatten(Body(lines))|;
    }
  }

  /** Cell `(i, j)` of an array filled row by row with the reversal of `ds` holds
      element `n·m − 1 − (i·m + j)` of `ds`. */
  lemma ReversedCell(g: Grid<nat>, ds: seq<nat>, ij: Index)
    requires g.Valid() && g.InBounds(ij) && g.Items() == Reverse(ds)
    ensures |ds| == g.rows * g.columns
    ensures RowMajor(g.columns, ij) < |ds|
    ensures g.At(ij) == ds[|ds| - 1 - RowMajor(g.columns, ij)]
  {
    var k := RowMajor(g.columns, ij);
    assert |ds| == g.rows * g.columns && k < |ds| && g.Items()[k] == g.At(ij) by {
      ItemsAt(g, ij);
    }
    ReverseAt(ds, k);
  }

  /** A loaded cell `(i, j)` holds digit number `n·m − 1 − (i·m + j)` of the input. */
  lemma LoadCell(lines: seq<string>, ij: Index)
    requires Load(lines).Ok? && Load(lines).value.InBounds(ij)
    ensures var g := Load(lines).value; var d := Flatten(Body(lines));
      && |d| == g.rows * g.columns
      && RowMajor(g.columns, ij) < |d|
      && IsAsciiDigit(d[|d| - 1 - RowMajor(g.columns, ij)])
      && g.At(ij) == DigitValue(d[|d| - 1 - RowMajor(g.columns, ij)])
  {
    var g := Load(lines).value;
    var d := Flatten(Body(lines));
    var ds := DigitsOf(d).value;
    ReversedCell(g, ds, ij);
    var k := |d| - 1 - RowMajor(g.columns, ij);
    DigitsOfAt(d, k);
  }

  /** The half turn of a row-major position in an n × m array. */
  lemma HalfTurn(n: nat, m: nat, ij: Index)
    requires ij.0 < n && ij.1 < m
    ensures RowMajor(m, ij) < n * m
    ensures RowMajor(m, (n - 1 - ij.0, m - 1 - ij.1)) == n * m - 1 - RowMajor(m, ij)
  {
    var (i, j) := ij;
    assert (n - 1 - i) * m == n * m - i * m - m;
    assert (i + 1) * m <= n * m;
  }

  /** When the digit lines form an n × m block, the array is that block turned by a
      half turn: cell `(i, j)` holds the digit at line `n − 1 − i`, column `m − 1 − j`. */
  lemma LoadRotates(lines: seq<string>, ij: Index)
    requires Load(lines).Ok? && Load(lines).value.InBounds(ij)
    requires Grid(Load(lines).value.rows, Load(lines).value.columns, Body(lines)).Valid()
    ensures var g := Load(lines).value; var b := Body(lines);
      && IsAsciiDigit(b[g.rows - 1 - ij.0][g.columns - 1 - ij.1])
      && g.At(ij) == DigitValue(b[g.rows - 1 - ij.0][g.columns - 1 - ij.1])
  {
    var g := Load(lines).value;
    var b := Grid(g.rows, g.columns, Body(lines));
    var back := (g.rows - 1 - ij.0, g.columns - 1 - ij.1);
    LoadCell(lines, ij);
    ItemsAt(b, back);
    HalfTurn(g.rows, g.columns, ij);
    assert b.Items()[RowMajor(g.columns, back)] == b.At(back);
  }

  /** A valid array of digits whose shape is a pair of `usize` values. */
  predicate Loadable(g: RiskLevels) {
    && g.Valid() && g.rows <= USIZE_MAX && g.columns <= USIZE_MAX
    && forall k :: 0 <= k < |g.Items()| ==> g.Items()[k] < 10
  }

  /** An input file for `g`: its shape, an empty line, and its digits reversed on one
      line. */
  function Render(g: RiskLevels): seq<string>
    requires Loadable(g)
  {
    ReverseDigits(g.Items());
    [Decimal(g.rows), Decimal(g.columns), "", DigitString(Reverse(g.Items()))]
  }

  /** Loading a written array gives the array back. */
  lemma LoadRender(g: RiskLevels)
    requires Loadable(g)
    ensures Load(Render(g)) == Ok(g)
  {
    var lines := Render(g);
    var items := Reverse(g.Items());
    ReverseDigits(g.Items());
    ParseUnsignedDecimal(g.rows, USIZE_MAX);
    ParseUnsignedDecimal(g.columns, USIZE_MAX);
    assert Body(lines) == [lines[3]];
    assert Flatten(Body(lines)) == lines[3] + Flatten([lines[3]][1..]);
    assert Flatten(Body(lines)) == DigitString(items);
    DigitsOfString(items);
    ReverseReverse(g.Items());
    ItemsLength(g);
    FromShapeVecItems(g);
  }

  // ------------------------------------------------------------------ the cache

  datatype Direction = Up | Down | Left | Right

  /** An entry of the cache: the direction taken and the risk of the best path from
      the cell to the exit. */
  type Entry = Option<(Direction, nat)>

  /** `MinPaths`: the cache of best paths, next to the risks it is computed from. */
  datatype MinPaths = MinPaths(cache: Grid<Entry>, risks: RiskLevels)

  /** The entry `MinPaths::new` puts at `ij`: the exit's own risk at the exit, nothing
      elsewhere. */
  function Seed(risks: RiskLevels, ij: Index): Entry
    requires risks.Valid() && risks.InBounds(ij)
  {
    if ij == (risks.rows - 1, risks.columns - 1) then Some((Down, risks.At(ij))) else None
  }

  /** `MinPaths::new`: a cache of the risks' shape, empty except at the bottom-right
      exit, which holds its own risk. `None` where the source panics: an array with no
      rows or no columns has no exit cell. */
  function NewMinPaths(risks: RiskLevels): (r: Option<MinPaths>)
    requires risks.Valid()
    ensures r.Some? <==> risks.rows >= 1 && risks.columns >= 1
    ensures r.Some? ==> r.value.risks == risks
    ensures r.Some? ==>
      && r.value.cache.Valid()
      && r.value.cache.rows == risks.rows && r.value.cache.columns == risks.columns
    ensures r.Some? ==> forall ij :: r.value.cache.InBounds(ij) ==> r.value.cache.At(ij) == Seed(risks, ij)
  {
    var (n, m) := (risks.rows, risks.columns);
    if n == 0 || m == 0 then None
    else
      var exit := (n - 1, m - 1);
      Some(MinPaths(Filled(n, m, None).Set(exit, Some((Down, risks.At(exit)))), risks))
  }

  /** A sequence of one repeated value holds that value once per position. */
  lemma {:induction false} ConstantCount<T>(s: seq<T>, v: T)
    requires forall k :: 0 <= k < |s| ==> s[k] == v
    ensures multiset(s)[v] == |s|
    decreases |s|
  {
    if |s| > 0 {
      assert s == [s[0]] + s[1..];
      ConstantCount(s[1..], v);
    }
  }

  /** An array filled with `v` holds `v` once per cell and nothing else. */
  lemma FilledItems<T>(n: nat, m: nat, v: T)
    ensures multiset(Filled(n, m, v).Items())[v] == n * m
    ensures forall x :: x in multiset(Filled(n, m, v).Items()) ==> x == v
  {
    var g := Filled(n, m, v);
    forall k | 0 <= k < |g.Items()| ensures g.Items()[k] == v {
      var ij := ItemsMember(g, g.Items()[k]);
    }
    ConstantCount(g.Items(), v);
    ItemsLength(g);
  }

  /** The new cache holds one seeded entry and n·m − 1 empty ones. */
  lemma NewMinPathsItems(risks: RiskLevels)
    requires risks.Valid() && risks.rows >= 1 && risks.columns >= 1
    ensures var c := NewMinPaths(risks).value.cache;
      var seed: Entry := Some((Down, risks.At((risks.rows - 1, risks.columns - 1))));
      && |c.Items()| == risks.rows * risks.columns
      && multiset(c.Items())[seed] == 1
      && multiset(c.Items())[None] == risks.rows * risks.columns - 1
  {
    var (n, m) := (risks.rows, risks.columns);
    var exit := (n - 1, m - 1);
    var seed: Entry := Some((Down, risks.At(exit)));
    var none: Entry := None;
    var empty := Filled(n, m, none);
    var c := empty.Set(exit, seed);
    assert c == NewMinPaths(risks).value.cache;
    var count := n * m;
    assert count >= 1 by {
      assert n * m >= 1 * m;
    }
    var before := multiset(empty.Items());
    assert before[none] == count && before[seed] == 0 by {
      FilledItems(n, m, none);
    }
    assert multiset(c.Items()) == before - multiset{none} + multiset{seed} by {
      SetItems(empty, exit, seed);
    }
    ItemsLength(c);
  }
}
