/** Day 12 (passage pathing): the cave graph — cave labels, the check against
    big-cave-to-big-cave passages, the symmetric adjacency map, the sorted node list and
    the parser of `a-b` lines. */
module Day12 {
  import opened Wrappers
  import opened Text
  import opened Seqs

  // ------------------------------------------------------------------ nodes

  /** A cave. The derived order ranks the variants in declaration order. */
  datatype Node = Start | SmallCave(name: string) | BigCave(name: string) | End

  /** `char::is_lowercase` on the ASCII range. */
  predicate AllLower(s: string) {
    forall i :: 0 <= i < |s| ==> IsAsciiLower(s[i])
  }

  /** `Node::from_str`: `start` and `end` first, then an all-lowercase label is a small
      cave and any other label a big one. */
  function NodeOf(s: string): (r: Node)
    ensures r == Start <==> s == "start"
    ensures r == End <==> s == "end"
    ensures r.SmallCave? <==> s != "start" && s != "end" && AllLower(s)
    ensures r.SmallCave? || r.BigCave? ==> r.name == s
  {
    if s == "start" then Start
    else if s == "end" then End
    else if AllLower(s) then SmallCave(s)
    else BigCave(s)
  }

  /** The label a node is written with. */
  function Label(n: Node): string
  {
    match n
    case Start => "start"
    case End => "end"
    case SmallCave(s) => s
    case BigCave(s) => s
  }

  /** A node that its own label reads back as: a small cave's label is lowercase, a
      big cave's is not, and neither is `start` or `end`. */
  predicate WellFormed(n: Node) {
    match n
    case Start => true
    case End => true
    case SmallCave(s) => s != "start" && s != "end" && AllLower(s)
    case BigCave(s) => s != "start" && s != "end" && !AllLower(s)
  }

  /** Reading a label and writing the node back gives the label. */
  lemma LabelOfNode(s: string)
    ensures Label(NodeOf(s)) == s && WellFormed(NodeOf(s))
  {
  }

  /** Writing a well-formed node and reading it back gives the node. */
  lemma NodeOfLabel(n: Node)
    requires WellFormed(n)
    ensures NodeOf(Label(n)) == n
  {
  }

  // ------------------------------------------------------------------ the derived order

  /** The lexicographic order of `str`: a proper prefix comes first, otherwise the first
      differing character decides. */
  predicate StrLess(a: string, b: string)
    decreases |a|
  {
    |b| > 0 && (|a| == 0 || a[0] < b[0] || (a[0] == b[0] && StrLess(a[1..], b[1..])))
  }

  lemma {:induction false} StrLessIrreflexive(a: string)
    ensures !StrLess(a, a)
    decreases |a|
  {
    if |a| > 0 {
      StrLessIrreflexive(a[1..]);
    }
  }

  lemma {:induction false} StrLessTransitive(a: string, b: string, c: string)
    requires StrLess(a, b) && StrLess(b, c)
    ensures StrLess(a, c)
    decreases |a|
  {
    if |a| > 0 && a[0] == b[0] && b[0] == c[0] {
      StrLessTransitive(a[1..], b[1..], c[1..]);
    }
  }

  lemma {:induction false} StrLessTotal(a: string, b: string)
    ensures a == b || StrLess(a, b) || StrLess(b, a)
    decreases |a|
  {
    if |a| > 0 && |b| > 0 && a[0] == b[0] {
      StrLessTotal(a[1..], b[1..]);
      if a[1..] == b[1..] {
        assert a == [a[0]] + a[1..] && b == [b[0]] + b[1..];
      }
    }
  }

  /** The variant's position in the declaration. */
  function Rank(n: Node): nat
  {
    match n
    case Start => 0
    case SmallCave(_) => 1
    case BigCave(_) => 2
    case End => 3
  }

  /** The derived `Ord` of `Node`: by variant, then by label. */
  predicate NodeLess(a: Node, b: Node) {
    Rank(a) < Rank(b) || (Rank(a) == Rank(b) && (a.SmallCave? || a.BigCave?) && StrLess(a.name, b.name))
  }

  /** The derived order is a strict total order. */
  lemma NodeOrder(a: Node, b: Node, c: Node)
    ensures !NodeLess(a, a)
    ensures NodeLess(a, b) && NodeLess(b, c) ==> NodeLess(a, c)
    ensures a == b || NodeLess(a, b) || NodeLess(b, a)
  {
    if a.SmallCave? || a.BigCave? {
      StrLessIrreflexive(a.name);
      if NodeLess(a, b) && NodeLess(b, c) && Rank(a) == Rank(b) == Rank(c) {
        StrLessTransitive(a.name, b.name, c.name);
      }
      if Rank(a) == Rank(b) {
        StrLessTotal(a.name, b.name);
      }
    }
  }

  predicate NodeLeq(a: Node, b: Node) {
    a == b || NodeLess(a, b)
  }

  // ------------------------------------------------------------------ sorting

  /** Non-decreasing in the derived order. */
  predicate Sorted(s: seq<Node>) {
    forall i, j :: 0 <= i < j < |s| ==> NodeLeq(s[i], s[j])
  }

  /** Strictly increasing in the derived order. */
  predicate StrictlySorted(s: seq<Node>) {
    forall i, j :: 0 <= i < j < |s| ==> NodeLess(s[i], s[j])
  }

  /** `x` comes no later than every element of `s`. */
  lemma LeqAll(x: Node, s: seq<Node>)
    requires Sorted(s) && |s| > 0 && NodeLeq(x, s[0])
    ensures forall y :: y in s ==> NodeLeq(x, y)
  {
    forall y | y in s
      ensures NodeLeq(x, y)
    {
      NodeOrder(x, s[0], y);
    }
  }

  /** Putting before a sorted sequence an element that comes no later than any of it
      keeps it sorted. */
  lemma ConsSorted(x: Node, s: seq<Node>)
    requires Sorted(s) && forall y :: y in s ==> NodeLeq(x, y)
    ensures Sorted([x] + s)
  {
    forall i, j | 0 <= i < j < |[x] + s|
      ensures NodeLeq(([x] + s)[i], ([x] + s)[j])
    {
      if i == 0 {
        assert ([x] + s)[j] == s[j - 1];
      } else {
        assert ([x] + s)[i] == s[i - 1] && ([x] + s)[j] == s[j - 1];
      }
    }
  }

  /** The elements of a sequence with one more element. */
  lemma AddedElements(r: seq<Node>, s: seq<Node>, x: Node)
    requires multiset(r) == multiset(s) + multiset{x}
    ensures forall y :: y in r ==> y == x || y in s
  {
    forall y | y in r
      ensures y == x || y in s
    {
      assert y in multiset(r);
    }
  }

  /** Inserting into a sorted sequence, after the elements that come first. */
  function Insert(x: Node, s: seq<Node>): (r: seq<Node>)
    requires Sorted(s)
    ensures Sorted(r) && multiset(r) == multiset(s) + multiset{x}
    decreases |s|
  {
    if |s| == 0 then [x]
    else if NodeLeq(x, s[0]) then
      LeqAll(x, s);
      ConsSorted(x, s);
      [x] + s
    else
      var rest := Insert(x, s[1..]);
      NodeOrder(x, s[0], x);
      AddedElements(rest, s[1..], x);
      assert forall y :: y in s[1..] ==> NodeLeq(s[0], y);
      ConsSorted(s[0], rest);
      assert s == [s[0]] + s[1..];
      [s[0]] + rest
  }

  /** `Itertools::sorted`: an insertion sort. */
  function Sort(s: seq<Node>): (r: seq<Node>)
    ensures Sorted(r) && multiset(r) == multiset(s)
    decreases |s|
  {
    if |s| == 0 then []
    else
      assert s == [s[0]] + s[1..];
      Insert(s[0], Sort(s[1..]))
  }

  /** `Itertools::dedup`: drops each element equal to the one before it. */
  function Dedup(s: seq<Node>): (r: seq<Node>)
    ensures forall x :: x in r <==> x in s
    ensures |s| > 0 ==> |r| > 0 && r[0] == s[0]
    ensures Sorted(s) ==> StrictlySorted(r)
    decreases |s|
  {
    if |s| <= 1 then s
    else if s[0] == s[1] then Dedup(s[1..])
    else
      var rest := Dedup(s[1..]);
      assert Sorted(s) ==> StrictlySorted([s[0]] + rest) by {
        if Sorted(s) {
          assert forall y :: y in rest ==> NodeLess(s[0], y) by {
            forall y | y in rest
              ensures NodeLess(s[0], y)
            {
              var k :| 0 <= k < |s[1..]| && s[1..][k] == y;
              assert NodeLeq(s[0], s[k + 1]);
              if y == s[0] {
                assert NodeLeq(s[1], s[k + 1]);
                NodeOrder(s[0], s[1], s[0]);
              }
            }
          }
        }
      }
      assert forall x :: x in s <==> x == s[0] || x in s[1..];
      [s[0]] + rest
  }

  /** In a strictly sorted sequence the first element comes before every other. */
  lemma HeadFirst(a: seq<Node>, x: Node)
    requires StrictlySorted(a) && |a| > 0 && x in a
    ensures x == a[0] || NodeLess(a[0], x)
  {
  }

  /** Two strictly sorted sequences with the same elements have the same head. */
  lemma SameHead(a: seq<Node>, b: seq<Node>)
    requires StrictlySorted(a) && StrictlySorted(b) && |a| > 0 && |b| > 0
    requires forall x :: x in a <==> x in b
    ensures a[0] == b[0]
  {
    assert a[0] in b && b[0] in a;
    HeadFirst(b, a[0]);
    HeadFirst(a, b[0]);
    NodeOrder(a[0], b[0], a[0]);
  }

  /** The tail of a strictly sorted sequence holds everything but its head. */
  lemma TailElements(a: seq<Node>)
    requires StrictlySorted(a) && |a| > 0
    ensures forall x :: x in a[1..] <==> x in a && x != a[0]
  {
    forall x | x in a[1..]
      ensures x != a[0]
    {
      var k :| 0 <= k < |a[1..]| && a[1..][k] == x;
      assert NodeLess(a[0], a[k + 1]);
      NodeOrder(x, x, x);
    }
    assert a == [a[0]] + a[1..];
  }

  /** Two strictly sorted sequences with the same elements are equal. */
  lemma {:induction false} StrictlySortedUnique(a: seq<Node>, b: seq<Node>)
    requires StrictlySorted(a) && StrictlySorted(b)
    requires forall x :: x in a <==> x in b
    ensures a == b
    decreases |a|
  {
    if |a| > 0 {
      assert a[0] in a;
    }
    if |b| > 0 {
      assert b[0] in b;
    }
    if |a| > 0 && |b| > 0 {
      SameHead(a, b);
      TailElements(a);
      TailElements(b);
      StrictlySortedUnique(a[1..], b[1..]);
      assert a == [a[0]] + a[1..] && b == [b[0]] + b[1..];
    }
  }

  // ------------------------------------------------------------------ edges

  /** A passage with its ends exchanged. */
  function Swap(e: (Node, Node)): (Node, Node) {
    (e.1, e.0)
  }

  /** `BiGraph::bidirectional_edges`: each passage in both directions, in order. */
  function Bidirectional(edges: seq<(Node, Node)>): (r: seq<(Node, Node)>)
    ensures |r| == 2 * |edges|
    ensures forall e :: e in r <==> e in edges || Swap(e) in edges
    decreases |edges|
  {
    if |edges| == 0 then []
    else
      var rest := Bidirectional(edges[1..]);
      assert forall e :: e in edges <==> e == edges[0] || e in edges[1..];
      [edges[0], Swap(edges[0])] + rest
  }

  /** One step of the grouping fold: the value is added to its key's list unless it is
      already there. */
  function Push(m: map<Node, seq<Node>>, p: (Node, Node)): (r: map<Node, seq<Node>>)
    ensures forall a :: a in r <==> a in m || a == p.0
    ensures forall a, b :: a in r ==> (b in r[a] <==> (a in m && b in m[a]) || (a, b) == p)
    ensures (forall a :: a in m ==> NoRepeats(m[a])) ==> forall a :: a in r ==> NoRepeats(r[a])
  {
    var vs := if p.0 in m then m[p.0] else [];
    if p.1 in vs then m
    else
      assert NoRepeats(vs) ==> NoRepeats(vs + [p.1]) by {
        if NoRepeats(vs) {
          NoRepeatsConcat(vs, [p.1]);
        }
      }
      m[p.0 := vs + [p.1]]
  }

  /** `into_grouping_map().fold`: the pushes of all pairs in order. */
  function Group(pairs: seq<(Node, Node)>): map<Node, seq<Node>>
    decreases |pairs|
  {
    if |pairs| == 0 then map[] else Push(Group(pairs[..|pairs| - 1]), pairs[|pairs| - 1])
  }

  /** Every first component of the pairs becomes a key, holding its second components
      without repeats. */
  lemma {:induction false} GroupSpec(pairs: seq<(Node, Node)>)
    ensures forall a :: a in Group(pairs) <==> exists b :: (a, b) in pairs
    ensures forall a, b :: a in Group(pairs) ==> (b in Group(pairs)[a] <==> (a, b) in pairs)
    ensures forall a :: a in Group(pairs) ==> NoRepeats(Group(pairs)[a])
    decreases |pairs|
  {
    if |pairs| > 0 {
      var init := pairs[..|pairs| - 1];
      var last := pairs[|pairs| - 1];
      GroupSpec(init);
      assert pairs == init + [last];
      assert forall e :: e in pairs <==> e in init || e == last;
    }
  }

  // ------------------------------------------------------------------ the graph

  /** A passage between two big caves, which would let a path go round forever. */
  predicate BigToBig(e: (Node, Node)) {
    e.0.BigCave? && e.1.BigCave?
  }

  /** Why a graph could not be built: an input line without a dash, or a passage
      between two big caves. */
  datatype GraphError = MissingDash(line: string) | BigCaveEdge(a: Node, b: Node)

  /** `BiGraph`: each cave with the caves one passage away. */
  datatype BiGraph = BiGraph(edgesMap: map<Node, seq<Node>>)

  /** The position of the first passage between two big caves, if there is one. */
  function FirstBigToBig(edges: seq<(Node, Node)>): (r: Option<nat>)
    ensures r.None? <==> forall i :: 0 <= i < |edges| ==> !BigToBig(edges[i])
    ensures r.Some? ==> r.value < |edges| && BigToBig(edges[r.value])
    ensures r.Some? ==> forall j :: 0 <= j < r.value ==> !BigToBig(edges[j])
    decreases |edges|
  {
    if |edges| == 0 then None
    else if BigToBig(edges[0]) then Some(0)
    else
      match FirstBigToBig(edges[1..])
      case None => None
      case Some(k) => Some(k + 1)
  }

  /** `BiGraph::validate`: the first passage between two big caves is refused; the
      source panics there. */
  function Validate(edges: seq<(Node, Node)>): (r: Result<(), GraphError>)
    ensures r.Ok? <==> forall i :: 0 <= i < |edges| ==> !BigToBig(edges[i])
    ensures r.Err? ==>
      exists k :: (0 <= k < |edges| && BigToBig(edges[k])
        && (forall j :: 0 <= j < k ==> !BigToBig(edges[j]))
        && r.error == BigCaveEdge(edges[k].0, edges[k].1))
  {
    match FirstBigToBig(edges)
    case None => Ok(())
    case Some(k) => Err(BigCaveEdge(edges[k].0, edges[k].1))
  }

  /** A cave at either end of some passage. */
  ghost predicate Endpoint(n: Node, edges: seq<(Node, Node)>) {
    exists m :: (n, m) in edges || (m, n) in edges
  }

  /** The adjacency map of a list of passages: the keys are the caves on some passage,
      each listing without repeats the caves it shares a passage with. */
  ghost predicate AdjacencyOf(g: BiGraph, edges: seq<(Node, Node)>) {
    && (forall n :: n in g.edgesMap <==> Endpoint(n, edges))
    && (forall a, b :: a in g.edgesMap ==> (b in g.edgesMap[a] <==> (a, b) in edges || (b, a) in edges))
    && (forall a :: a in g.edgesMap ==> NoRepeats(g.edgesMap[a]))
  }

  /** `BiGraph::new`: validation, then the grouping of the passages taken both ways. */
  function New(edges: seq<(Node, Node)>): (r: Result<BiGraph, GraphError>)
    ensures r.Ok? <==> forall i :: 0 <= i < |edges| ==> !BigToBig(edges[i])
    ensures r.Ok? ==> AdjacencyOf(r.value, edges)
    ensures r.Err? ==> r.error == Validate(edges).error
  {
    match Validate(edges)
    case Err(e) => Err(e)
    case Ok(_) =>
      var g := BiGraph(Group(Bidirectional(edges)));
      GroupSpec(Bidirectional(edges));
      assert forall n :: n in g.edgesMap <==> Endpoint(n, edges) by {
        forall n
          ensures n in g.edgesMap <==> Endpoint(n, edges)
        {
          if n in g.edgesMap {
            var m :| (n, m) in Bidirectional(edges);
          }
          if Endpoint(n, edges) {
            var m :| (n, m) in edges || (m, n) in edges;
            assert (n, m) in Bidirectional(edges);
          }
        }
      }
      Ok(g)
  }

  /** Passages run both ways: each cave is listed by the caves it lists. */
  lemma Symmetric(g: BiGraph, edges: seq<(Node, Node)>, a: Node, b: Node)
    requires AdjacencyOf(g, edges)
    requires a in g.edgesMap && b in g.edgesMap[a]
    ensures b in g.edgesMap && a in g.edgesMap[b]
  {
    assert Endpoint(b, edges);
  }

  /** A graph that was built joins no big cave to another. */
  lemma NoBigNeighbours(edges: seq<(Node, Node)>, a: Node, b: Node)
    requires New(edges).Ok?
    requires a.BigCave? && a in New(edges).value.edgesMap && b in New(edges).value.edgesMap[a]
    ensures !b.BigCave?
  {
    if (a, b) in edges {
      var i :| 0 <= i < |edges| && edges[i] == (a, b);
    } else {
      var i :| 0 <= i < |edges| && edges[i] == (b, a);
    }
  }

  // ------------------------------------------------------------------ nodes()

  /** The keys in the map's iteration order, each followed by its neighbours. */
  function Stream(g: BiGraph, order: seq<Node>): seq<Node>
    requires forall k :: k in order ==> k in g.edgesMap
    decreases |order|
  {
    if |order| == 0 then [] else [order[0]] + g.edgesMap[order[0]] + Stream(g, order[1..])
  }

  /** A cave of the graph: a key, or a neighbour of one. */
  ghost predicate InGraph(g: BiGraph, n: Node) {
    n in g.edgesMap || exists k :: k in g.edgesMap && n in g.edgesMap[k]
  }

  lemma {:induction false} StreamMember(g: BiGraph, order: seq<Node>, n: Node)
    requires forall k :: k in order ==> k in g.edgesMap
    ensures n in Stream(g, order) <==> n in order || exists k :: k in order && n in g.edgesMap[k]
    decreases |order|
  {
    if |order| > 0 {
      StreamMember(g, order[1..], n);
      assert forall k :: k in order <==> k == order[0] || k in order[1..];
    }
  }

  /** Sorting keeps the elements. */
  lemma SortMember(s: seq<Node>, n: Node)
    ensures n in Sort(s) <==> n in s
  {
    assert n in Sort(s) <==> n in multiset(Sort(s));
  }

  /** `BiGraph::nodes`: every cave of the graph once, in the derived order. The map's
      iteration order is a parameter: any listing of its keys. */
  function Nodes(g: BiGraph, order: seq<Node>): (r: seq<Node>)
    requires forall k :: k in order <==> k in g.edgesMap
    ensures StrictlySorted(r)
    ensures forall n :: n in r <==> InGraph(g, n)
  {
    var r := Dedup(Sort(Stream(g, order)));
    assert forall n :: n in r <==> InGraph(g, n) by {
      forall n
        ensures n in r <==> InGraph(g, n)
      {
        SortMember(Stream(g, order), n);
        StreamMember(g, order, n);
      }
    }
    r
  }

  /** The node list does not depend on the order the map yields its keys in. */
  lemma NodesOrderFree(g: BiGraph, order1: seq<Node>, order2: seq<Node>)
    requires forall k :: k in order1 <==> k in g.edgesMap
    requires forall k :: k in order2 <==> k in g.edgesMap
    ensures Nodes(g, order1) == Nodes(g, order2)
  {
    StrictlySortedUnique(Nodes(g, order1), Nodes(g, order2));
  }

  /** The nodes of a built graph are exactly the caves at the ends of its passages. */
  lemma NodesOfNew(edges: seq<(Node, Node)>, order: seq<Node>, n: Node)
    requires New(edges).Ok?
    requires forall k :: k in order <==> k in New(edges).value.edgesMap
    ensures n in Nodes(New(edges).value, order) <==> Endpoint(n, edges)
  {
    var g := New(edges).value;
    if InGraph(g, n) && n !in g.edgesMap {
      var k :| k in g.edgesMap && n in g.edgesMap[k];
      Symmetric(g, edges, k, n);
    }
  }

  // ------------------------------------------------------------------ parsing

  /** One line `a-b` of the input: trimmed, split at its first dash; a line without a
      dash is an error (the source panics). */
  function ParseEdge(line: string): (r: Result<(Node, Node), GraphError>)
    ensures r.Err? <==> '-' !in Trim(line)
    ensures r.Err? ==> r.error == MissingDash(line)
    ensures r.Ok? ==> Trim(line) == Label(r.value.0) + "-" + Label(r.value.1) && '-' !in Label(r.value.0)
    ensures r.Ok? ==> WellFormed(r.value.0) && WellFormed(r.value.1)
  {
    match SplitOnce(Trim(line), '-')
    case None => Err(MissingDash(line))
    case Some((a, b)) =>
      LabelOfNode(a);
      LabelOfNode(b);
      Ok((NodeOf(a), NodeOf(b)))
  }

  /** The passages of all lines, or the error of the first line that has none. */
  function ParseEdges(lines: seq<string>): Result<seq<(Node, Node)>, GraphError> {
    AllOk(seq(|lines|, i requires 0 <= i < |lines| => ParseEdge(lines[i])))
  }

  /** `BiGraph::from_str`: the lines of the text as passages, then the graph. */
  function FromStr(text: string): Result<BiGraph, GraphError> {
    match ParseEdges(Split(text, '\n'))
    case Err(e) => Err(e)
    case Ok(edges) => New(edges)
  }

  /** A label that can stand on either side of a dash on its own line. */
  predicate Writable(s: string) {
    forall i :: 0 <= i < |s| ==> s[i] != '-' && !IsWhitespace(s[i])
  }

  /** A passage written as `a-b`. */
  function EdgeLine(e: (Node, Node)): string {
    Label(e.0) + "-" + Label(e.1)
  }

  /** The lines of a list of passages. */
  function Lines(edges: seq<(Node, Node)>): (r: seq<string>)
    ensures |r| == |edges|
  {
    seq(|edges|, i requires 0 <= i < |edges| => EdgeLine(edges[i]))
  }

  /** The passages written one per line. */
  function Render(edges: seq<(Node, Node)>): string
    requires |edges| > 0
  {
    Join(Lines(edges), '\n')
  }

  /** Reading back the line of a passage between well-formed, writable caves. */
  lemma ParseEdgeLine(e: (Node, Node))
    requires WellFormed(e.0) && WellFormed(e.1)
    requires Writable(Label(e.0)) && Writable(Label(e.1))
    ensures ParseEdge(EdgeLine(e)) == Ok(e)
  {
    var l := EdgeLine(e);
    assert l[|Label(e.0)|] == '-';
    TrimNoop(l);
    SplitOnceAt(Label(e.0), '-', Label(e.1));
    NodeOfLabel(e.0);
    NodeOfLabel(e.1);
  }

  /** Caves that can be written and read back. */
  ghost predicate Printable(edges: seq<(Node, Node)>) {
    && (forall i :: 0 <= i < |edges| ==> WellFormed(edges[i].0) && WellFormed(edges[i].1))
    && (forall i :: 0 <= i < |edges| ==> Writable(Label(edges[i].0)) && Writable(Label(edges[i].1)))
  }

  /** Splitting the rendering at newlines gives back its lines. */
  lemma SplitRender(edges: seq<(Node, Node)>)
    requires |edges| > 0 && Printable(edges)
    ensures Split(Render(edges), '\n') == Lines(edges)
  {
    var lines := Lines(edges);
    forall i | 0 <= i < |lines|
      ensures '\n' !in lines[i]
    {
      assert IsWhitespace('\n');
      assert '\n' !in Label(edges[i].0) && '\n' !in Label(edges[i].1);
    }
    SplitJoin(lines, '\n');
  }

  /** Each line of printable passages parses back to its passage. */
  lemma ParseLines(edges: seq<(Node, Node)>)
    requires Printable(edges)
    ensures ParseEdges(Lines(edges)) == Ok(edges)
  {
    var lines := Lines(edges);
    var rs := seq(|lines|, i requires 0 <= i < |lines| => ParseEdge(lines[i]));
    forall i | 0 <= i < |lines|
      ensures rs[i] == Ok(edges[i])
    {
      assert lines[i] == EdgeLine(edges[i]);
      ParseEdgeLine(edges[i]);
    }
    AllOkValues(rs, edges);
  }

  /** Writing printable passages one per line and parsing the text builds the graph of
      those passages. */
  lemma ParseRender(edges: seq<(Node, Node)>)
    requires |edges| > 0 && Printable(edges)
    ensures FromStr(Render(edges)) == New(edges)
  {
    SplitRender(edges);
    ParseLines(edges);
  }

  // ------------------------------------------------------------------ sorted neighbour lists

  /** A sorted sequence without repeats is strictly sorted. */
  lemma SortedDistinct(s: seq<Node>)
    requires Sorted(s) && forall x :: multiset(s)[x] <= 1
    ensures StrictlySorted(s)
  {
    forall i, j | 0 <= i < j < |s|
      ensures NodeLess(s[i], s[j])
    {
      assert s == s[..j] + s[j..];
      assert multiset(s)[s[j]] == multiset(s[..j])[s[j]] + multiset(s[j..])[s[j]];
      assert s[j] in multiset(s[j..]);
      assert s[i] in multiset(s[..j]);
    }
  }

  /** A sequence without repeats holds each element at most once. */
  lemma {:induction false} NoRepeatsCount(s: seq<Node>)
    requires NoRepeats(s)
    ensures forall x :: multiset(s)[x] <= 1
    decreases |s|
  {
    if |s| > 0 {
      assert NoRepeats(s[1..]) by {
        forall x, y | 0 <= x < y < |s[1..]|
          ensures s[1..][x] != s[1..][y]
        {
          assert s[1..][x] == s[x + 1] && s[1..][y] == s[y + 1];
        }
      }
      NoRepeatsCount(s[1..]);
      assert s == [s[0]] + s[1..];
      assert s[0] !in s[1..];
    }
  }

  /** The sorted neighbour list of a cave is the strictly sorted list of the caves it
      shares a passage with. */
  lemma SortedNeighbours(g: BiGraph, edges: seq<(Node, Node)>, a: Node, expected: seq<Node>)
    requires AdjacencyOf(g, edges) && a in g.edgesMap
    requires StrictlySorted(expected)
    requires forall b :: b in expected <==> (a, b) in edges || (b, a) in edges
    ensures Sort(g.edgesMap[a]) == expected
  {
    var vs := g.edgesMap[a];
    NoRepeatsCount(vs);
    SortedDistinct(Sort(vs));
    forall b
      ensures b in Sort(vs) <==> b in expected
    {
      SortMember(vs, b);
    }
    StrictlySortedUnique(Sort(vs), expected);
  }

  // ------------------------------------------------------------------ the sample

  /** The passages of the sample. */
  const SampleEdges: seq<(Node, Node)> := [
    (Start, BigCave("A")),
    (Start, SmallCave("b")),
    (BigCave("A"), SmallCave("c")),
    (BigCave("A"), SmallCave("b")),
    (SmallCave("b"), SmallCave("d")),
    (BigCave("A"), End),
    (SmallCave("b"), End)]

  /** The sample text. */
  const SampleGraph: string :=
    "start-A" + "\n" + "start-b" + "\n" + "A-c" + "\n" + "A-b" + "\n" + "b-d" + "\n" + "A-end"
    + "\n" + "b-end"

  /** The sample lines. */
  const SampleLines: seq<string> := ["start-A", "start-b", "A-c", "A-b", "b-d", "A-end", "b-end"]

  lemma SampleLinesOf()
    ensures Lines(SampleEdges) == SampleLines
  {
    var ls := Lines(SampleEdges);
    assert ls[0] == "start-A";
    assert ls[1] == "start-b";
    assert ls[2] == "A-c";
    assert ls[3] == "A-b";
    assert ls[4] == "b-d";
    assert ls[5] == "A-end";
    assert ls[6] == "b-end";
  }

  lemma SampleJoin()
    ensures Join(SampleLines, '\n') == SampleGraph
  {
    var ls := SampleLines;
    assert Join(ls[6..], '\n') == "b-end";
    assert Join(ls[5..], '\n') == "A-end" + "\n" + "b-end";
    assert Join(ls[4..], '\n') == "b-d" + "\n" + "A-end" + "\n" + "b-end";
    assert Join(ls[3..], '\n') == "A-b" + "\n" + "b-d" + "\n" + "A-end" + "\n" + "b-end";
    assert Join(ls[2..], '\n') == "A-c" + "\n" + "A-b" + "\n" + "b-d" + "\n" + "A-end" + "\n" + "b-end";
    assert Join(ls[1..], '\n')
      == "start-b" + "\n" + "A-c" + "\n" + "A-b" + "\n" + "b-d" + "\n" + "A-end" + "\n" + "b-end";
  }

  /** The sample text is the rendering of the sample passages. */
  lemma SampleRender()
    ensures Render(SampleEdges) == SampleGraph
  {
    SampleLinesOf();
    SampleJoin();
  }

  lemma SamplePrintable()
    ensures Printable(SampleEdges)
  {
    assert Writable("start") && Writable("end") && Writable("A");
    assert Writable("b") && Writable("c") && Writable("d");
    assert !IsAsciiLower("A"[0]);
    forall i | 0 <= i < |SampleEdges|
      ensures WellFormed(SampleEdges[i].0) && WellFormed(SampleEdges[i].1)
    {
    }
    forall i | 0 <= i < |SampleEdges|
      ensures Writable(Label(SampleEdges[i].0)) && Writable(Label(SampleEdges[i].1))
    {
    }
  }

  /** The sample text parses to the graph of the sample passages. */
  lemma SampleParse()
    ensures FromStr(SampleGraph) == New(SampleEdges)
  {
    SampleRender();
    SamplePrintable();
    ParseRender(SampleEdges);
  }
}
