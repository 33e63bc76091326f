/** Day 14 (extended polymerization): reading the polymer template and the pair
    insertion rules from the lines of the input. */
module Day14 {
  import opened Wrappers
  import opened Text

  /** A pair of adjacent elements and the element inserted between them. */
  type Pair = (char, char)

  /** `Inputs`: the polymer template and the insertion rules by pair. */
  datatype Inputs = Inputs(polymer: string, rules: map<Pair, char>)

  /** Why reading the input panics: there is no first line, or a non-empty line after it
      is not a rule. */
  datatype InputError = NoPolymer | BadRule(line: string)

  // ------------------------------------------------------------------ one rule

  /** The pattern `^([A-Z])([A-Z]) -> ([A-Z])$`: one capital per capture group. */
  predicate IsRuleLine(l: string) {
    && |l| == 7
    && IsAsciiUpper(l[0]) && IsAsciiUpper(l[1])
    && l[2..6] == " -> "
    && IsAsciiUpper(l[6])
  }

  /** A rule line read as the pair and the element to insert; `None` where the source
      panics. */
  function RuleOf(l: string): (r: Option<(Pair, char)>)
    ensures r.Some? <==> IsRuleLine(l)
    ensures r.Some? ==> l == [r.value.0.0, r.value.0.1] + " -> " + [r.value.1]
  {
    if IsRuleLine(l) then
      assert l == l[..2] + l[2..6] + l[6..];
      Some(((l[0], l[1]), l[6]))
    else None
  }

  /** A rule as the input writes it. */
  function ShowRule(rule: (Pair, char)): string {
    [rule.0.0, rule.0.1] + " -> " + [rule.1]
  }

  /** A rule over the capitals the pattern accepts. */
  predicate Capitals(rule: (Pair, char)) {
    IsAsciiUpper(rule.0.0) && IsAsciiUpper(rule.0.1) && IsAsciiUpper(rule.1)
  }

  /** A rule of capitals reads back from its line. */
  lemma RuleOfShow(rule: (Pair, char))
    requires Capitals(rule)
    ensures RuleOf(ShowRule(rule)) == Some(rule)
  {
    var l := ShowRule(rule);
    assert l[2..6] == " -> ";
  }

  // ------------------------------------------------------------------ the rule fold

  /** The fold over the lines after the first: empty lines are skipped, every other
      line must be a rule, and a rule replaces any earlier one for its pair. */
  function Rules(lines: seq<string>): (r: Result<map<Pair, char>, InputError>)
    ensures r.Err? ==> r.error.BadRule? && r.error.line in lines
    decreases |lines|
  {
    if |lines| == 0 then Ok(map[])
    else
      var last := lines[|lines| - 1];
      match Rules(lines[..|lines| - 1])
      case Err(e) => Err(e)
      case Ok(m) =>
        if |last| == 0 then Ok(m)
        else
          match RuleOf(last)
          case None => Err(BadRule(last))
          case Some((k, c)) => Ok(m[k := c])
  }

  /** A line the fold reads as a rule for `k` inserting `c`. */
  predicate Defines(l: string, k: Pair, c: char) {
    RuleOf(l) == Some((k, c))
  }

  /** A line the fold rejects. */
  predicate Rejected(l: string) {
    |l| > 0 && !IsRuleLine(l)
  }

  /** The fold fails exactly when some non-empty line is not a rule, and then on the
      first such line. */
  lemma {:induction false} RulesFail(lines: seq<string>)
    ensures Rules(lines).Err? <==> exists i :: 0 <= i < |lines| && Rejected(lines[i])
    ensures Rules(lines).Err? ==>
      exists i :: (0 <= i < |lines| && Rejected(lines[i]) && Rules(lines).error == BadRule(lines[i])
        && forall j :: 0 <= j < i ==> !Rejected(lines[j]))
    decreases |lines|
  {
    if |lines| > 0 {
      var init := lines[..|lines| - 1];
      RulesFail(init);
      assert forall i :: 0 <= i < |init| ==> init[i] == lines[i];
      if Rules(init).Ok? && Rejected(lines[|lines| - 1]) {
        assert Rules(lines).error == BadRule(lines[|lines| - 1]);
      }
    }
  }

  /** A line that sets the rule for `k`. */
  predicate SetsPair(l: string, k: Pair) {
    RuleOf(l).Some? && RuleOf(l).value.0 == k
  }

  /** A successful fold holds exactly the pairs some line defines. */
  lemma {:induction false} RulesDomain(lines: seq<string>, k: Pair)
    requires Rules(lines).Ok?
    ensures k in Rules(lines).value <==> exists i :: 0 <= i < |lines| && SetsPair(lines[i], k)
    decreases |lines|
  {
    if |lines| > 0 {
      var init := lines[..|lines| - 1];
      var last := lines[|lines| - 1];
      RulesDomain(init, k);
      assert forall i :: 0 <= i < |init| ==> init[i] == lines[i];
      if |last| == 0 {
        assert !SetsPair(last, k);
      }
    }
  }

  /** A successful fold holds, for each pair it has, the element of the last line that
      defines it. */
  lemma {:induction false} RulesLastWins(lines: seq<string>, k: Pair)
    requires Rules(lines).Ok?
    requires k in Rules(lines).value
    ensures exists i :: (0 <= i < |lines| && Defines(lines[i], k, Rules(lines).value[k])
      && forall j :: i < j < |lines| ==> !SetsPair(lines[j], k))
    decreases |lines|
  {
    var init := lines[..|lines| - 1];
    var last := lines[|lines| - 1];
    assert forall i :: 0 <= i < |init| ==> init[i] == lines[i];
    if |last| > 0 && SetsPair(last, k) {
      assert Defines(last, k, Rules(lines).value[k]);
    } else {
      if |last| == 0 {
        assert !SetsPair(last, k);
      }
      RulesLastWins(init, k);
    }
  }

  /** An empty line changes nothing. */
  lemma {:induction false} EmptyLinesSkipped(a: seq<string>, b: seq<string>)
    ensures Rules(a + [""] + b) == Rules(a + b)
    decreases |b|
  {
    if |b| == 0 {
      assert (a + [""] + b)[..|a|] == a;
      assert a + b == a;
    } else {
      var b' := b[..|b| - 1];
      EmptyLinesSkipped(a, b');
      assert (a + [""] + b)[..|a + [""] + b| - 1] == a + [""] + b';
      assert (a + b)[..|a + b| - 1] == a + b';
    }
  }

  /** The empty line after the polymer changes nothing. */
  lemma LeadingEmptySkipped(lines: seq<string>)
    requires |lines| > 0 && lines[0] == ""
    ensures Rules(lines) == Rules(lines[1..])
  {
    var b := lines[1..];
    EmptyLinesSkipped([], b);
    assert [] + [""] + b == lines;
    assert [] + b == b;
  }

  // ------------------------------------------------------------------ the input

  /** `Inputs::from_file` over the lines of the file: the first line is the polymer,
      verbatim, and the rest are folded into the rules. */
  function ParseInputs(lines: seq<string>): (r: Result<Inputs, InputError>)
    ensures r == Err(NoPolymer) <==> |lines| == 0
    ensures r.Ok? ==> r.value.polymer == lines[0]
    ensures |lines| > 0 ==> r.Err? == Rules(lines[1..]).Err?
  {
    if |lines| == 0 then Err(NoPolymer)
    else
      match Rules(lines[1..])
      case Err(e) => Err(e)
      case Ok(m) => Ok(Inputs(lines[0], m))
  }

  /** The map built by inserting rules in order, a later rule replacing an earlier
      one. */
  function MapOf(rules: seq<(Pair, char)>): map<Pair, char>
    decreases |rules|
  {
    if |rules| == 0 then map[]
    else
      var last := rules[|rules| - 1];
      MapOf(rules[..|rules| - 1])[last.0 := last.1]
  }

  /** Rules written one per line. */
  function ShowRules(rules: seq<(Pair, char)>): (r: seq<string>)
    ensures |r| == |rules|
    ensures forall i :: 0 <= i < |rules| ==> r[i] == ShowRule(rules[i])
  {
    seq(|rules|, i requires 0 <= i < |rules| => ShowRule(rules[i]))
  }

  /** Rules whose pairs are pairwise different. */
  predicate DistinctPairs(rules: seq<(Pair, char)>) {
    forall a, b :: 0 <= a < b < |rules| ==> rules[a].0 != rules[b].0
  }

  /** Pairs in the order of their first, then their second element. */
  predicate PairLess(p: Pair, q: Pair) {
    p.0 < q.0 || (p.0 == q.0 && p.1 < q.1)
  }

  /** Rules listed in increasing order of their pairs. */
  predicate IncreasingPairs(rules: seq<(Pair, char)>) {
    forall j :: 0 < j < |rules| ==> PairLess(rules[j - 1].0, rules[j].0)
  }

  /** Rules listed in increasing order of their pairs have pairwise different pairs. */
  lemma {:induction false} IncreasingDistinct(rules: seq<(Pair, char)>)
    requires IncreasingPairs(rules)
    ensures DistinctPairs(rules)
    decreases |rules|
  {
    if |rules| > 1 {
      var tail := rules[1..];
      assert IncreasingPairs(tail) by {
        forall j | 0 < j < |tail| ensures PairLess(tail[j - 1].0, tail[j].0) {
          assert tail[j - 1] == rules[j] && tail[j] == rules[j + 1];
        }
      }
      IncreasingDistinct(tail);
      forall b | 0 < b < |rules| ensures PairLess(rules[0].0, rules[b].0) {
        HeadBelow(rules, b);
      }
      forall a, b | 0 <= a < b < |rules| ensures rules[a].0 != rules[b].0 {
        if a > 0 {
          assert rules[a] == tail[a - 1] && rules[b] == tail[b - 1];
        }
      }
    }
  }

  /** In increasing rules, the first pair is below every later one. */
  lemma {:induction false} HeadBelow(rules: seq<(Pair, char)>, b: nat)
    requires IncreasingPairs(rules)
    requires 0 < b < |rules|
    ensures PairLess(rules[0].0, rules[b].0)
    decreases b
  {
    if b > 1 {
      HeadBelow(rules, b - 1);
    }
  }

  /** With pairwise different pairs, every rule is in the map as written. */
  lemma {:induction false} MapOfLookup(rules: seq<(Pair, char)>, i: nat)
    requires DistinctPairs(rules)
    requires i < |rules|
    ensures rules[i].0 in MapOf(rules) && MapOf(rules)[rules[i].0] == rules[i].1
    decreases |rules|
  {
    if i < |rules| - 1 {
      var init := rules[..|rules| - 1];
      assert init[i] == rules[i];
      MapOfLookup(init, i);
    }
  }

  /** The map has exactly the pairs of the rules. */
  lemma {:induction false} MapOfDomain(rules: seq<(Pair, char)>, k: Pair)
    ensures k in MapOf(rules) <==> exists i :: 0 <= i < |rules| && rules[i].0 == k
    decreases |rules|
  {
    if |rules| > 0 {
      var init := rules[..|rules| - 1];
      MapOfDomain(init, k);
      assert forall i :: 0 <= i < |init| ==> init[i] == rules[i];
    }
  }

  /** An input file: the polymer, an empty line, then one rule per line. */
  function Render(polymer: string, rules: seq<(Pair, char)>): seq<string> {
    [polymer, ""] + ShowRules(rules)
  }

  /** Rules written one per line fold to the map of those rules. */
  lemma {:induction false} RulesOfShown(rules: seq<(Pair, char)>)
    requires forall i :: 0 <= i < |rules| ==> Capitals(rules[i])
    ensures Rules(ShowRules(rules)) == Ok(MapOf(rules))
    decreases |rules|
  {
    var lines := ShowRules(rules);
    if |rules| > 0 {
      var init := rules[..|rules| - 1];
      RulesOfShown(init);
      assert lines[..|lines| - 1] == ShowRules(init);
      RuleOfShow(rules[|rules| - 1]);
    }
  }

  /** The lines after the polymer of a written input fold to the map of its rules. */
  lemma RulesOfRender(polymer: string, rules: seq<(Pair, char)>)
    requires forall i :: 0 <= i < |rules| ==> Capitals(rules[i])
    ensures Rules(Render(polymer, rules)[1..]) == Ok(MapOf(rules))
  {
    var lines := Render(polymer, rules)[1..];
    assert lines[1..] == ShowRules(rules);
    LeadingEmptySkipped(lines);
    RulesOfShown(rules);
  }

  /** Reading a written input gives back its polymer and the map of its rules. */
  lemma ParseRender(polymer: string, rules: seq<(Pair, char)>)
    requires forall i :: 0 <= i < |rules| ==> Capitals(rules[i])
    ensures ParseInputs(Render(polymer, rules)) == Ok(Inputs(polymer, MapOf(rules)))
  {
    RulesOfRender(polymer, rules);
  }

  // ------------------------------------------------------------------ the sample

  /** The sixteen rules of the sample, in the order the unit test lists them. */
  const SampleRules: seq<(Pair, char)> := [
    (('B', 'B'), 'N'), (('B', 'C'), 'B'), (('B', 'H'), 'H'), (('B', 'N'), 'B'),
    (('C', 'B'), 'H'), (('C', 'C'), 'N'), (('C', 'H'), 'B'), (('C', 'N'), 'C'),
    (('H', 'B'), 'C'), (('H', 'C'), 'B'), (('H', 'H'), 'N'), (('H', 'N'), 'C'),
    (('N', 'B'), 'B'), (('N', 'C'), 'B'), (('N', 'H'), 'C'), (('N', 'N'), 'C')]

  /** The sample lists each pair once. */
  lemma SampleDistinct()
    ensures DistinctPairs(SampleRules)
  {
    assert IncreasingPairs(SampleRules);
    IncreasingDistinct(SampleRules);
  }

  /** The sample written as an input reads back as polymer `NNCB` with each listed
      rule in the map. */
  lemma SampleParse(i: nat)
    requires i < |SampleRules|
    ensures ParseInputs(Render("NNCB", SampleRules)).Ok?
    ensures ParseInputs(Render("NNCB", SampleRules)).value.polymer == "NNCB"
    ensures var m := ParseInputs(Render("NNCB", SampleRules)).value.rules;
      SampleRules[i].0 in m && m[SampleRules[i].0] == SampleRules[i].1
  {
    assert forall j :: 0 <= j < |SampleRules| ==> Capitals(SampleRules[j]);
    ParseRender("NNCB", SampleRules);
    SampleDistinct();
    MapOfLookup(SampleRules, i);
  }

  /** The sample reads back with no rule besides the listed ones. */
  lemma SampleDomain(k: Pair)
    ensures ParseInputs(Render("NNCB", SampleRules)).Ok?
    ensures k in ParseInputs(Render("NNCB", SampleRules)).value.rules
      <==> exists j :: 0 <= j < |SampleRules| && SampleRules[j].0 == k
  {
    assert forall j :: 0 <= j < |SampleRules| ==> Capitals(SampleRules[j]);
    ParseRender("NNCB", SampleRules);
    MapOfDomain(SampleRules, k);
  }
}
