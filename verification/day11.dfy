/** Day 11 (dumbo octopus): one step of the flashing octopus grid, a mod-10 cellular
    automaton whose flashes cascade through a worklist. */
module Day11 {
  import opened Wrappers
  import opened Grid
  import opened Seqs

  /** An energy level, stored as a `u8`. */
  type Energy = e: nat | e < 256

  // ------------------------------------------------------------------ indices

  /** The half-open range `lo..hi`. */
  function Span(lo: nat, hi: nat): (r: seq<nat>)
    requires lo <= hi
    ensures |r| == hi - lo
    ensures forall k :: 0 <= k < |r| ==> r[k] == lo + k
  {
    seq(hi - lo, k => lo + k)
  }

  /** The pairs `(x, y)` for each `y` of `ys`, in order. */
  function Pairs(x: nat, ys: seq<nat>): (r: seq<Index>)
    ensures |r| == |ys| && forall k :: 0 <= k < |ys| ==> r[k] == (x, ys[k])
  {
    seq(|ys|, k requires 0 <= k < |ys| => (x, ys[k]))
  }

  /** `Itertools::cartesian_product`: every pair, the first component varying slowest. */
  function Product(xs: seq<nat>, ys: seq<nat>): (r: seq<Index>)
    decreases |xs|
  {
    if |xs| == 0 then [] else Pairs(xs[0], ys) + Product(xs[1..], ys)
  }

  /** The pairs of a product are those whose components are drawn from the factors. */
  lemma {:induction false} ProductMember(xs: seq<nat>, ys: seq<nat>, ij: Index)
    ensures ij in Product(xs, ys) <==> ij.0 in xs && ij.1 in ys
    decreases |xs|
  {
    if |xs| > 0 {
      ProductMember(xs[1..], ys, ij);
      var row := Pairs(xs[0], ys);
      assert ij in row <==> ij.0 == xs[0] && ij.1 in ys by {
        if ij.0 == xs[0] && ij.1 in ys {
          var k :| 0 <= k < |ys| && ys[k] == ij.1;
          assert row[k] == ij;
        }
      }
      assert xs == [xs[0]] + xs[1..];
    }
  }

  /** The product of two factors without repeats has no repeats. */
  lemma {:induction false} ProductNoRepeats(xs: seq<nat>, ys: seq<nat>)
    requires NoRepeats(xs) && NoRepeats(ys)
    ensures NoRepeats(Product(xs, ys))
    decreases |xs|
  {
    if |xs| > 0 {
      var row := Pairs(xs[0], ys);
      ProductNoRepeats(xs[1..], ys);
      forall ij | ij in row
        ensures ij !in Product(xs[1..], ys)
      {
        ProductMember(xs[1..], ys, ij);
        assert xs[0] !in xs[1..] by {
          forall x | 0 <= x < |xs[1..]|
            ensures xs[1..][x] != xs[0]
          {
            assert xs[1..][x] == xs[x + 1];
          }
        }
      }
      NoRepeatsConcat(row, Product(xs[1..], ys));
    }
  }

  /** `i` and `k` differ by at most one. */
  predicate Close(i: nat, k: nat) {
    i <= k + 1 && k <= i + 1
  }

  /** `get_adjacents`: the 3×3 block around an in-bounds cell, clipped to the grid and
      holding the cell itself, in row-major order. */
  function Adjacents(rows: nat, columns: nat, ij: Index): (r: seq<Index>)
    requires ij.0 < rows && ij.1 < columns
    ensures forall kl :: kl in r <==> kl.0 < rows && kl.1 < columns && Close(ij.0, kl.0) && Close(ij.1, kl.1)
    ensures NoRepeats(r)
  {
    var (i, j) := ij;
    var up := if i > 0 then i - 1 else 0;
    var down := if i < rows - 1 then i + 1 else i;
    var left := if j > 0 then j - 1 else 0;
    var right := if j < columns - 1 then j + 1 else j;
    var r := Product(Span(up, down + 1), Span(left, right + 1));
    ProductNoRepeats(Span(up, down + 1), Span(left, right + 1));
    assert forall kl :: kl in r <==> kl.0 < rows && kl.1 < columns && Close(i, kl.0) && Close(j, kl.1) by {
      forall kl
        ensures kl in r <==> kl.0 < rows && kl.1 < columns && Close(i, kl.0) && Close(j, kl.1)
      {
        ProductMember(Span(up, down + 1), Span(left, right + 1), kl);
        assert kl.0 in Span(up, down + 1) <==> up <= kl.0 <= down by {
          if up <= kl.0 <= down {
            assert Span(up, down + 1)[kl.0 - up] == kl.0;
          }
        }
        assert kl.1 in Span(left, right + 1) <==> left <= kl.1 <= right by {
          if left <= kl.1 <= right {
            assert Span(left, right + 1)[kl.1 - left] == kl.1;
          }
        }
      }
    }
    r
  }

  /** `indexed_iter`'s order: every in-bounds index, row by row. */
  function RowMajor(rows: nat, columns: nat): (r: seq<Index>)
    ensures forall ij :: ij in r <==> ij.0 < rows && ij.1 < columns
    ensures NoRepeats(r)
  {
    var r := Product(Span(0, rows), Span(0, columns));
    ProductNoRepeats(Span(0, rows), Span(0, columns));
    assert forall ij :: ij in r <==> ij.0 < rows && ij.1 < columns by {
      forall ij
        ensures ij in r <==> ij.0 < rows && ij.1 < columns
      {
        ProductMember(Span(0, rows), Span(0, columns), ij);
        if ij.0 < rows && ij.1 < columns {
          assert Span(0, rows)[ij.0] == ij.0 && Span(0, columns)[ij.1] == ij.1;
        }
      }
    }
    r
  }

  // ------------------------------------------------------------------ phase 1

  /** The first phase's increment of one cell, wrapping 9 round to 0. */
  function Base(g0: Grid<Energy>, c: Index): nat
    requires g0.Valid() && g0.InBounds(c)
  {
    (g0.At(c) + 1) % 10
  }

  /** Phase 1 of `step`: every octopus gains one unit of energy, modulo 10. The `u8`
      addition panics on an octopus at 255, which is `None`. */
  function Charge(g: Grid<Energy>): (r: Option<Grid<Energy>>)
    requires g.Valid()
    ensures r.None? <==> exists c :: g.InBounds(c) && g.At(c) == 255
    ensures r.Some? ==> r.value.Valid() && r.value.rows == g.rows && r.value.columns == g.columns
    ensures r.Some? ==> forall c :: g.InBounds(c) ==> r.value.At(c) == Base(g, c)
  {
    if exists i, j :: 0 <= i < g.rows && 0 <= j < g.columns && g.cells[i][j] == 255 then
      assert exists c :: g.InBounds(c) && g.At(c) == 255 by {
        var i, j :| 0 <= i < g.rows && 0 <= j < g.columns && g.cells[i][j] == 255;
        assert g.At((i, j)) == 255;
      }
      None
    else
      Some(Grid(g.rows, g.columns,
        seq(g.rows, i requires 0 <= i < g.rows =>
          seq(g.columns, j requires 0 <= j < g.columns => (g.cells[i][j] + 1) % 10))))
  }

  /** The cells of `cs` holding 0, in order: the flashes phase 1 queues. */
  function Zeros(g: Grid<Energy>, cs: seq<Index>): (r: seq<Index>)
    requires g.Valid() && forall c :: c in cs ==> g.InBounds(c)
    ensures forall c :: c in r <==> c in cs && g.At(c) == 0
    ensures NoRepeats(cs) ==> NoRepeats(r)
    decreases |cs|
  {
    if |cs| == 0 then []
    else
      var rest := Zeros(g, cs[1..]);
      var r := (if g.At(cs[0]) == 0 then [cs[0]] else []) + rest;
      assert NoRepeats(cs) ==> NoRepeats(r) by {
        if NoRepeats(cs) {
          assert forall x :: x in cs[1..] ==> x != cs[0] by {
            forall x | 0 <= x < |cs[1..]|
              ensures cs[1..][x] != cs[0]
            {
              assert cs[1..][x] == cs[x + 1];
            }
          }
          assert NoRepeats(cs[1..]) by {
            forall x, y | 0 <= x < y < |cs[1..]|
              ensures cs[1..][x] != cs[1..][y]
            {
              assert cs[1..][x] == cs[x + 1] && cs[1..][y] == cs[y + 1];
            }
          }
          NoRepeatsConcat(if g.At(cs[0]) == 0 then [cs[0]] else [], rest);
        }
      }
      r
  }

  // ------------------------------------------------------------------ phase 2

  /** `f` is one of the eight neighbours of `c`. */
  predicate Near(f: Index, c: Index) {
    f != c && Close(f.0, c.0) && Close(f.1, c.1)
  }

  /** The number of entries of `s` that neighbour `c`. */
  function Flashes(c: Index, s: seq<Index>): nat
  {
    if |s| == 0 then 0 else Flashes(c, s[..|s| - 1]) + (if Near(s[|s| - 1], c) then 1 else 0)
  }

  /** Energies stay single digits. */
  ghost predicate Digits(g: Grid<Energy>)
    requires g.Valid()
  {
    forall c :: g.InBounds(c) ==> g.At(c) <= 9
  }

  ghost predicate AllIn(g: Grid<Energy>, s: seq<Index>) {
    forall c :: c in s ==> g.InBounds(c)
  }

  /** The cells at 0 are exactly the lit ones: those flashed or queued. */
  ghost predicate ZerosAre(g: Grid<Energy>, lit: seq<Index>)
    requires g.Valid()
  {
    forall c :: g.InBounds(c) ==> (g.At(c) == 0 <==> c in lit)
  }

  /** Every unlit cell holds its phase-1 energy plus one unit per neighbour in
      `counted`, and one more if it is in `bumped`. */
  ghost predicate Accounted(g0: Grid<Energy>, g: Grid<Energy>, counted: seq<Index>, bumped: seq<Index>, lit: seq<Index>)
    requires g0.Valid() && g.Valid() && g.rows == g0.rows && g.columns == g0.columns
  {
    forall c :: g.InBounds(c) && c !in lit ==>
      g.At(c) == Base(g0, c) + Flashes(c, counted) + if c in bumped then 1 else 0
  }

  /** Every lit cell reached 0 in phase 1, or its neighbours in `counted` brought it
      to 10. */
  ghost predicate Justified(g0: Grid<Energy>, counted: seq<Index>, lit: seq<Index>)
    requires g0.Valid() && AllIn(g0, lit)
  {
    forall c :: c in lit ==> Base(g0, c) == 0 || Base(g0, c) + Flashes(c, counted) >= 10
  }

  /** Every cell phase 1 brought to 0 is lit. */
  ghost predicate BaseZerosLit(g0: Grid<Energy>, lit: seq<Index>)
    requires g0.Valid()
  {
    forall c :: g0.InBounds(c) && Base(g0, c) == 0 ==> c in lit
  }

  /** Every lit cell, in the order the cells were lit, reached 0 in phase 1 or was
      brought to 10 by the cells lit before it. */
  ghost predicate InOrder(g0: Grid<Energy>, lit: seq<Index>)
    requires g0.Valid() && AllIn(g0, lit)
  {
    forall k :: 0 <= k < |lit| ==> LitAfter(g0, lit, k)
  }

  /** Entry `k` of `lit` reached 0 in phase 1 or was brought to 10 by the entries
      before it. */
  ghost predicate LitAfter(g0: Grid<Energy>, lit: seq<Index>, k: nat)
    requires g0.Valid() && AllIn(g0, lit) && k < |lit|
  {
    Base(g0, lit[k]) == 0 || Base(g0, lit[k]) + Flashes(lit[k], lit[..k]) >= 10
  }

  /** The state of the cascade between two visits: `flashed` visited, `queue` waiting. */
  ghost predicate Cascade(g0: Grid<Energy>, g: Grid<Energy>, flashed: seq<Index>, queue: seq<Index>)
  {
    && g0.Valid() && g.Valid() && g.rows == g0.rows && g.columns == g0.columns
    && Digits(g)
    && NoRepeats(flashed + queue) && AllIn(g0, flashed + queue)
    && ZerosAre(g, flashed + queue)
    && Accounted(g0, g, flashed, [], flashed + queue)
    && Justified(g0, flashed, flashed + queue)
    && BaseZerosLit(g0, flashed + queue)
  }

  /** The state of the cascade while visiting `p`, after bumping its first `k`
      adjacent cells. */
  ghost predicate Visiting(g0: Grid<Energy>, g: Grid<Energy>, flashed: seq<Index>, p: Index, queue: seq<Index>, k: nat)
  {
    && g0.Valid() && g.Valid() && g.rows == g0.rows && g.columns == g0.columns
    && g0.InBounds(p) && k <= |Adjacents(g0.rows, g0.columns, p)|
    && Digits(g)
    && NoRepeats(flashed + [p] + queue) && AllIn(g0, flashed + [p] + queue)
    && ZerosAre(g, flashed + [p] + queue)
    && Accounted(g0, g, flashed, Adjacents(g0.rows, g0.columns, p)[..k], flashed + [p] + queue)
    && Justified(g0, flashed + [p], flashed + [p] + queue)
    && BaseZerosLit(g0, flashed + [p] + queue)
  }

  /** The number of cells at 0. */
  function ZeroCount(g: Grid<Energy>): nat
  {
    multiset(g.Items())[0]
  }

  /** No more cells are at 0 than there are cells. */
  lemma ZeroCountBound(g: Grid<Energy>)
    requires g.Valid()
    ensures ZeroCount(g) <= g.rows * g.columns
  {
    ItemsLength(g);
    CountBound(g.Items(), 0);
  }

  lemma {:induction false} CountBound<T>(s: seq<T>, x: T)
    ensures multiset(s)[x] <= |s|
    decreases |s|
  {
    if |s| > 0 {
      assert s == s[..|s| - 1] + [s[|s| - 1]];
      CountBound(s[..|s| - 1], x);
    }
  }

  /** Lines 45-48: an adjacent octopus that has not flashed gains one unit, and is
      queued when that brings it round to 0. */
  function Bump(g: Grid<Energy>, queue: seq<Index>, c: Index): (r: (Grid<Energy>, seq<Index>))
    requires g.Valid() && g.InBounds(c) && g.At(c) < 255
  {
    if g.At(c) == 0 then (g, queue)
    else
      var e := (g.At(c) + 1) % 10;
      (g.Set(c, e), if e == 0 then queue + [c] else queue)
  }

  /** Phase 1's queue starts the cascade: nothing has flashed yet. */
  lemma CascadeStarts(g0: Grid<Energy>, g: Grid<Energy>)
    requires g0.Valid() && Charge(g0) == Some(g)
    ensures Cascade(g0, g, [], Zeros(g, RowMajor(g.rows, g.columns)))
  {
    var queue := Zeros(g, RowMajor(g.rows, g.columns));
    assert [] + queue == queue;
  }

  /** One more entry in `counted` never lowers a count. */
  lemma FlashesAppend(c: Index, s: seq<Index>, p: Index)
    ensures Flashes(c, s + [p]) == Flashes(c, s) + if Near(p, c) then 1 else 0
  {
    assert (s + [p])[..|s|] == s;
  }

  /** Counting over a prefix never finds more neighbours. */
  lemma {:induction false} FlashesPrefix(c: Index, s: seq<Index>, j: nat)
    requires j <= |s|
    ensures Flashes(c, s[..j]) <= Flashes(c, s)
    decreases |s|
  {
    if j < |s| {
      assert s[..|s| - 1][..j] == s[..j];
      FlashesPrefix(c, s[..|s| - 1], j);
    } else {
      assert s[..j] == s;
    }
  }

  /** Phase 1's queue is in order: every queued cell is at 0 after phase 1. */
  lemma InOrderStarts(g0: Grid<Energy>, g: Grid<Energy>, queue: seq<Index>)
    requires Cascade(g0, g, [], queue)
    ensures InOrder(g0, queue)
  {
    assert [] + queue == queue;
    forall k | 0 <= k < |queue|
      ensures LitAfter(g0, queue, k)
    {
      assert queue[k] in [] + queue;
    }
  }

  /** Lighting a cell justified by a prefix of the lit cells keeps them in order. */
  lemma InOrderAppend(g0: Grid<Energy>, lit: seq<Index>, j: nat, c: Index)
    requires g0.Valid() && AllIn(g0, lit) && g0.InBounds(c) && InOrder(g0, lit) && j <= |lit|
    requires Base(g0, c) == 0 || Base(g0, c) + Flashes(c, lit[..j]) >= 10
    ensures AllIn(g0, lit + [c]) && InOrder(g0, lit + [c])
  {
    var lit' := lit + [c];
    assert lit'[..|lit|] == lit;
    FlashesPrefix(c, lit, j);
    forall k | 0 <= k < |lit'|
      ensures LitAfter(g0, lit', k)
    {
      if k < |lit| {
        assert LitAfter(g0, lit, k);
        assert lit'[..k] == lit[..k];
      }
    }
  }

  /** Popping the head of the queue: the popped cell is at 0. */
  lemma VisitBegins(g0: Grid<Energy>, g: Grid<Energy>, flashed: seq<Index>, queue: seq<Index>)
    requires Cascade(g0, g, flashed, queue) && |queue| > 0
    ensures g.InBounds(queue[0]) && g.At(queue[0]) == 0
    ensures Visiting(g0, g, flashed, queue[0], queue[1..], 0)
  {
    var p := queue[0];
    assert flashed + [p] + queue[1..] == flashed + queue;
    assert p in flashed + queue;
    forall c | c in flashed + queue
      ensures Flashes(c, flashed + [p]) >= Flashes(c, flashed)
    {
      FlashesAppend(c, flashed, p);
    }
  }

  /** A visited cell's adjacent cells other than itself are its neighbours. */
  lemma AdjacentNear(rows: nat, columns: nat, p: Index, c: Index)
    requires p.0 < rows && p.1 < columns && c != p
    ensures c in Adjacents(rows, columns, p) <==> c.0 < rows && c.1 < columns && Near(p, c)
  {
  }

  /** Bumping an adjacent cell that is already at 0 changes nothing. */
  lemma BumpLit(g0: Grid<Energy>, g: Grid<Energy>, flashed: seq<Index>, p: Index, queue: seq<Index>, k: nat)
    requires Visiting(g0, g, flashed, p, queue, k) && k < |Adjacents(g.rows, g.columns, p)|
    requires g.At(Adjacents(g.rows, g.columns, p)[k]) == 0
    ensures Visiting(g0, g, flashed, p, queue, k + 1)
  {
    var adj := Adjacents(g.rows, g.columns, p);
    var lit := flashed + [p] + queue;
    assert adj[..k + 1] == adj[..k] + [adj[k]];
    assert adj[k] in lit;
  }

  /** Overwriting a cell with a digit keeps every energy a digit. */
  lemma SetDigits(g: Grid<Energy>, c: Index, v: Energy)
    requires g.Valid() && g.InBounds(c) && Digits(g) && v <= 9
    ensures Digits(g.Set(c, v))
  {
  }

  /** Overwriting a cell keeps the zeros the lit cells when the cell is at 0 exactly
      when it is now lit, and no other cell changes its lit status. */
  lemma SetZeros(g: Grid<Energy>, c: Index, v: Energy, lit: seq<Index>, lit': seq<Index>)
    requires g.Valid() && g.InBounds(c) && ZerosAre(g, lit)
    requires forall d :: d != c ==> (d in lit' <==> d in lit)
    requires v == 0 <==> c in lit'
    ensures ZerosAre(g.Set(c, v), lit')
  {
  }

  /** Overwriting a cell not yet bumped with one unit more than it is owed accounts
      for it as bumped. */
  lemma SetAccounted(g0: Grid<Energy>, g: Grid<Energy>, c: Index, v: Energy, counted: seq<Index>,
                     bumped: seq<Index>, lit: seq<Index>, lit': seq<Index>)
    requires g0.Valid() && g.Valid() && g.rows == g0.rows && g.columns == g0.columns && g.InBounds(c)
    requires Accounted(g0, g, counted, bumped, lit)
    requires forall d :: d in lit ==> d in lit'
    requires c !in lit' ==> c !in bumped && v == Base(g0, c) + Flashes(c, counted) + 1
    ensures Accounted(g0, g.Set(c, v), counted, bumped + [c], lit')
  {
  }

  /** Bumping an adjacent cell below 9 raises it by one. */
  lemma BumpRises(g0: Grid<Energy>, g: Grid<Energy>, flashed: seq<Index>, p: Index, queue: seq<Index>, k: nat)
    requires Visiting(g0, g, flashed, p, queue, k) && k < |Adjacents(g.rows, g.columns, p)|
    requires 0 < g.At(Adjacents(g.rows, g.columns, p)[k]) < 9
    ensures Bump(g, queue, Adjacents(g.rows, g.columns, p)[k]).1 == queue
    ensures Visiting(g0, Bump(g, queue, Adjacents(g.rows, g.columns, p)[k]).0, flashed, p, queue, k + 1)
    ensures ZeroCount(Bump(g, queue, Adjacents(g.rows, g.columns, p)[k]).0) == ZeroCount(g)
  {
    var adj := Adjacents(g.rows, g.columns, p);
    var c := adj[k];
    var v := (g.At(c) + 1) % 10;
    assert v == g.At(c) + 1;
    BumpUnlit(g, queue, c);
    var lit := flashed + [p] + queue;
    PrefixStep(adj, k);
    SetDigits(g, c, v);
    SetZeros(g, c, v, lit, lit);
    SetAccounted(g0, g, c, v, flashed, adj[..k], lit, lit);
    SetZeroCount(g, c, v);
    VisitingAfter(g0, g, flashed, p, queue, k, g.Set(c, v), queue);
  }

  /** The conditions under which one bump keeps the visit going. */
  lemma VisitingAfter(g0: Grid<Energy>, g: Grid<Energy>, flashed: seq<Index>, p: Index, queue: seq<Index>, k: nat,
                      g': Grid<Energy>, queue': seq<Index>)
    requires Visiting(g0, g, flashed, p, queue, k) && k < |Adjacents(g0.rows, g0.columns, p)|
    requires g'.Valid() && g'.rows == g0.rows && g'.columns == g0.columns && Digits(g')
    requires NoRepeats(flashed + [p] + queue') && AllIn(g0, flashed + [p] + queue')
    requires ZerosAre(g', flashed + [p] + queue')
    requires Accounted(g0, g', flashed, Adjacents(g0.rows, g0.columns, p)[..k] + [Adjacents(g0.rows, g0.columns, p)[k]],
                       flashed + [p] + queue')
    requires Justified(g0, flashed + [p], flashed + [p] + queue') && BaseZerosLit(g0, flashed + [p] + queue')
    ensures Visiting(g0, g', flashed, p, queue', k + 1)
  {
    PrefixStep(Adjacents(g0.rows, g0.columns, p), k);
  }

  /** Bumping an adjacent cell at 9 brings it round to 0 and queues it. */
  lemma BumpFlashes(g0: Grid<Energy>, g: Grid<Energy>, flashed: seq<Index>, p: Index, queue: seq<Index>, k: nat)
    requires Visiting(g0, g, flashed, p, queue, k) && k < |Adjacents(g.rows, g.columns, p)|
    requires g.At(Adjacents(g.rows, g.columns, p)[k]) == 9
    ensures Bump(g, queue, Adjacents(g.rows, g.columns, p)[k]).1 == queue + [Adjacents(g.rows, g.columns, p)[k]]
    ensures Visiting(g0, Bump(g, queue, Adjacents(g.rows, g.columns, p)[k]).0, flashed, p,
                     Bump(g, queue, Adjacents(g.rows, g.columns, p)[k]).1, k + 1)
    ensures ZeroCount(Bump(g, queue, Adjacents(g.rows, g.columns, p)[k]).0) == ZeroCount(g) + 1
  {
    var adj := Adjacents(g.rows, g.columns, p);
    var c := adj[k];
    var queue' := queue + [c];
    BumpUnlit(g, queue, c);
    var lit := flashed + [p] + queue;
    var lit' := flashed + [p] + queue';
    assert lit' == lit + [c];
    PrefixStep(adj, k);
    assert c !in lit;
    SetDigits(g, c, 0);
    SetZeros(g, c, 0, lit, lit');
    SetAccounted(g0, g, c, 0, flashed, adj[..k], lit, lit');
    FlashJustified(g0, g, flashed, p, queue, k);
    NoRepeatsConcat(lit, [c]);
    SetZeroCount(g, c, 0);
  }

  /** An octopus at 0 has flashed this step and is never bumped again. */
  lemma BumpSkipsFlashed(g: Grid<Energy>, queue: seq<Index>, c: Index)
    requires g.Valid() && g.InBounds(c) && g.At(c) == 0
    ensures Bump(g, queue, c) == (g, queue)
  {
  }

  /** Bumping a cell that is not at 0. */
  lemma BumpUnlit(g: Grid<Energy>, queue: seq<Index>, c: Index)
    requires g.Valid() && g.InBounds(c) && 0 < g.At(c) <= 9
    ensures Bump(g, queue, c).0 == g.Set(c, (g.At(c) + 1) % 10)
    ensures Bump(g, queue, c).1 == if g.At(c) == 9 then queue + [c] else queue
  {
  }

  /** The entry at `k` is not among the ones before it. */
  lemma PrefixStep<T>(s: seq<T>, k: nat)
    requires NoRepeats(s) && k < |s|
    ensures s[k] !in s[..k] && s[..k + 1] == s[..k] + [s[k]]
  {
  }

  /** Overwriting a cell that is not at 0 adds one zero exactly when the new value is 0. */
  lemma SetZeroCount(g: Grid<Energy>, c: Index, v: Energy)
    requires g.Valid() && g.InBounds(c) && g.At(c) != 0
    ensures ZeroCount(g.Set(c, v)) == ZeroCount(g) + if v == 0 then 1 else 0
  {
    SetItems(g, c, v);
  }

  /** The cell a bump brings round to 0 was owed 9 units and gets its tenth from `p`. */
  lemma FlashJustified(g0: Grid<Energy>, g: Grid<Energy>, flashed: seq<Index>, p: Index, queue: seq<Index>, k: nat)
    requires Visiting(g0, g, flashed, p, queue, k) && k < |Adjacents(g.rows, g.columns, p)|
    requires g.At(Adjacents(g.rows, g.columns, p)[k]) == 9
    ensures Justified(g0, flashed + [p], flashed + [p] + queue + [Adjacents(g.rows, g.columns, p)[k]])
  {
    var adj := Adjacents(g.rows, g.columns, p);
    var c := adj[k];
    var lit := flashed + [p] + queue;
    PrefixStep(adj, k);
    assert c !in lit;
    AdjacentNear(g.rows, g.columns, p, c);
    FlashesAppend(c, flashed, p);
  }

  /** After the last adjacent cell, the visited cell joins the flashed ones. */
  lemma VisitEnds(g0: Grid<Energy>, g: Grid<Energy>, flashed: seq<Index>, p: Index, queue: seq<Index>)
    requires g.Valid() && g.InBounds(p)
    requires Visiting(g0, g, flashed, p, queue, |Adjacents(g.rows, g.columns, p)|)
    ensures Cascade(g0, g, flashed + [p], queue)
  {
    var adj := Adjacents(g.rows, g.columns, p);
    assert adj[..|adj|] == adj;
    forall c | g.InBounds(c) && c !in flashed + [p] + queue
      ensures (c in adj) == Near(p, c)
      ensures Flashes(c, flashed + [p]) == Flashes(c, flashed) + if Near(p, c) then 1 else 0
    {
      AdjacentNear(g.rows, g.columns, p, c);
      FlashesAppend(c, flashed, p);
    }
  }

  /** When the queue runs out, the flashed cells are the cells at 0, and every other
      cell holds its phase-1 energy plus one unit per flashed neighbour. */
  lemma CascadeEnds(g0: Grid<Energy>, g: Grid<Energy>, flashed: seq<Index>)
    requires Cascade(g0, g, flashed, [])
    ensures NoRepeats(flashed) && forall c :: c in flashed ==> g0.InBounds(c)
    ensures forall c :: g0.InBounds(c) ==> (g.At(c) == 0 <==> c in flashed)
    ensures forall c :: g0.InBounds(c) && c !in flashed ==> g.At(c) == Base(g0, c) + Flashes(c, flashed)
    ensures forall c :: g0.InBounds(c) ==>
      (c in flashed <==> Base(g0, c) == 0 || Base(g0, c) + Flashes(c, flashed) >= 10)
  {
    assert flashed + [] == flashed;
  }

  /** Lines 41-50: visiting `p` bumps its adjacent octopuses in turn, queueing the ones
      that wrap round to 0. Visiting only adds to the queue, and every octopus it
      queues was brought to 10 by the octopuses visited up to and including `p`. */
  method Visit(g0: Grid<Energy>, g: Grid<Energy>, flashed: seq<Index>, p: Index, queue: seq<Index>)
    returns (g': Grid<Energy>, queue': seq<Index>)
    requires Visiting(g0, g, flashed, p, queue, 0) && InOrder(g0, flashed + [p] + queue)
    ensures Visiting(g0, g', flashed, p, queue', |Adjacents(g0.rows, g0.columns, p)|)
    ensures InOrder(g0, flashed + [p] + queue')
    ensures |queue'| >= |queue| && queue'[..|queue|] == queue
    ensures ZeroCount(g') - |queue'| == ZeroCount(g) - |queue|
  {
    g', queue' := g, queue;
    var adj := Adjacents(g0.rows, g0.columns, p);
    var k := 0;
    while k < |adj|
      invariant Visiting(g0, g', flashed, p, queue', k)
      invariant InOrder(g0, flashed + [p] + queue')
      invariant k <= |adj| && adj == Adjacents(g'.rows, g'.columns, p)
      invariant |queue'| >= |queue| && queue'[..|queue|] == queue
      invariant ZeroCount(g') - |queue'| == ZeroCount(g) - |queue|
    {
      var c := adj[k];
      InOrderBump(g0, g', flashed, p, queue', k);
      if g'.At(c) == 0 {
        BumpLit(g0, g', flashed, p, queue', k);
      } else if g'.At(c) < 9 {
        BumpRises(g0, g', flashed, p, queue', k);
      } else {
        BumpFlashes(g0, g', flashed, p, queue', k);
        assert (queue' + [c])[..|queue|] == queue'[..|queue|];
      }
      var next := Bump(g', queue', c);
      g', queue' := next.0, next.1;
      k := k + 1;
    }
  }

  /** A bump keeps the lit octopuses in order: one it queues got its tenth unit from
      `p`, which is lit before it. */
  lemma InOrderBump(g0: Grid<Energy>, g: Grid<Energy>, flashed: seq<Index>, p: Index, queue: seq<Index>, k: nat)
    requires Visiting(g0, g, flashed, p, queue, k) && k < |Adjacents(g.rows, g.columns, p)|
    requires InOrder(g0, flashed + [p] + queue)
    ensures AllIn(g0, flashed + [p] + Bump(g, queue, Adjacents(g.rows, g.columns, p)[k]).1)
    ensures InOrder(g0, flashed + [p] + Bump(g, queue, Adjacents(g.rows, g.columns, p)[k]).1)
  {
    var c := Adjacents(g.rows, g.columns, p)[k];
    if g.At(c) == 9 {
      FlashJustified(g0, g, flashed, p, queue, k);
      var lit := flashed + [p] + queue;
      assert lit[..|flashed| + 1] == flashed + [p];
      InOrderAppend(g0, lit, |flashed| + 1, c);
      assert Bump(g, queue, c).1 == queue + [c];
      assert lit + [c] == flashed + [p] + (queue + [c]);
    } else {
      assert Bump(g, queue, c).1 == queue;
    }
  }

  /** Lines 39-51: the octopuses are visited in queue order until the queue runs out.
      The visited octopuses are the flashed ones, and they stay in order: each was
      brought to 10 by the ones visited before it, or was at 0 after phase 1. */
  method Drain(g0: Grid<Energy>, g: Grid<Energy>, queue: seq<Index>) returns (g': Grid<Energy>, flashed: seq<Index>)
    requires Cascade(g0, g, [], queue) && InOrder(g0, queue)
    ensures Cascade(g0, g', flashed, []) && InOrder(g0, flashed)
  {
    g' := g;
    var waiting := queue;
    flashed := [];
    assert flashed + waiting == queue;
    ZeroCountBound(g');
    while |waiting| > 0
      invariant Cascade(g0, g', flashed, waiting)
      invariant InOrder(g0, flashed + waiting)
      invariant ZeroCount(g') <= g0.rows * g0.columns
      decreases g0.rows * g0.columns - ZeroCount(g'), |waiting|
    {
      var p := waiting[0];
      VisitBegins(g0, g', flashed, waiting);
      assert g'.At(p) == 0;
      assert flashed + [p] + waiting[1..] == flashed + waiting;
      waiting := waiting[1..];
      g', waiting := Visit(g0, g', flashed, p, waiting);
      VisitEnds(g0, g', flashed, p, waiting);
      assert flashed + [p] + waiting == (flashed + [p]) + waiting;
      flashed := flashed + [p];
      ZeroCountBound(g');
    }
    assert flashed + [] == flashed;
  }

  /** `step`: phase 1 charges every octopus and queues the ones that wrap round to 0;
      phase 2 visits the queue in order, bumping every adjacent octopus that is not at
      0 and queueing the ones that wrap round. The result is `None` when the `u8`
      increment of phase 1 overflows. Otherwise `flashed` lists the visited octopuses
      in visiting order, none twice, and the step leaves energies as single digits, at
      0 exactly on the flashed octopuses, and elsewhere at the phase-1 energy plus one
      unit per flashed neighbour; an octopus flashes exactly when phase 1 wrapped it
      round or its flashed neighbours bring it to 10. */
  method Step(g0: Grid<Energy>) returns (r: Option<Grid<Energy>>, flashed: seq<Index>)
    requires g0.Valid()
    ensures r.None? <==> exists c :: g0.InBounds(c) && g0.At(c) == 255
    ensures r.Some? ==> r.value.Valid() && r.value.rows == g0.rows && r.value.columns == g0.columns
    ensures r.Some? ==> forall c :: g0.InBounds(c) ==> r.value.At(c) <= 9
    ensures r.Some? ==> NoRepeats(flashed) && forall c :: c in flashed ==> g0.InBounds(c)
    ensures r.Some? ==> forall c :: g0.InBounds(c) ==> (r.value.At(c) == 0 <==> c in flashed)
    ensures r.Some? ==> forall c :: g0.InBounds(c) && c !in flashed ==>
      r.value.At(c) == Base(g0, c) + Flashes(c, flashed)
    ensures r.Some? ==> forall c :: g0.InBounds(c) ==>
      (c in flashed <==> Base(g0, c) == 0 || Base(g0, c) + Flashes(c, flashed) >= 10)
    ensures r.Some? ==> forall k :: 0 <= k < |flashed| ==>
      Base(g0, flashed[k]) == 0 || Base(g0, flashed[k]) + Flashes(flashed[k], flashed[..k]) >= 10
    ensures r.Some? ==> Outcome(g0, r.value, flashed)
  {
    var charged := Charge(g0);
    if charged.None? {
      return None, [];
    }
    var g := charged.value;
    var queue := Zeros(g, RowMajor(g.rows, g.columns));
    flashed := [];
    CascadeStarts(g0, g);
    InOrderStarts(g0, g, queue);
    g, flashed := Drain(g0, g, queue);
    CascadeOutcome(g0, g, flashed);
    r := Some(g);
  }

  // ------------------------------------------------------------------ uniqueness

  /** What `Step` promises about a grid `g` and its flashed octopuses. */
  ghost predicate Outcome(g0: Grid<Energy>, g: Grid<Energy>, flashed: seq<Index>)
    requires g0.Valid()
  {
    && g.Valid() && g.rows == g0.rows && g.columns == g0.columns
    && (forall c :: g0.InBounds(c) ==> g.At(c) <= 9)
    && NoRepeats(flashed) && (forall c :: c in flashed ==> g0.InBounds(c))
    && (forall c :: g0.InBounds(c) ==> (g.At(c) == 0 <==> c in flashed))
    && (forall c :: g0.InBounds(c) && c !in flashed ==> g.At(c) == Base(g0, c) + Flashes(c, flashed))
    && (forall c :: g0.InBounds(c) ==>
         (c in flashed <==> Base(g0, c) == 0 || Base(g0, c) + Flashes(c, flashed) >= 10))
    && (forall k :: 0 <= k < |flashed| ==>
         Base(g0, flashed[k]) == 0 || Base(g0, flashed[k]) + Flashes(flashed[k], flashed[..k]) >= 10)
  }

  /** The cascade's final state is an outcome of the step. */
  lemma CascadeOutcome(g0: Grid<Energy>, g: Grid<Energy>, flashed: seq<Index>)
    requires Cascade(g0, g, flashed, []) && InOrder(g0, flashed)
    ensures Outcome(g0, g, flashed)
  {
    CascadeEnds(g0, g, flashed);
    forall k | 0 <= k < |flashed|
      ensures Base(g0, flashed[k]) == 0 || Base(g0, flashed[k]) + Flashes(flashed[k], flashed[..k]) >= 10
    {
      assert LitAfter(g0, flashed, k);
    }
  }

  /** The neighbours of `c` listed in `s`. */
  ghost function NearIn(c: Index, s: seq<Index>): set<Index>
  {
    set f | f in s && Near(f, c)
  }

  /** Over a list without repeats, `Flashes` counts the distinct neighbours. */
  lemma {:induction false} FlashesCount(c: Index, s: seq<Index>)
    requires NoRepeats(s)
    ensures Flashes(c, s) == |NearIn(c, s)|
    decreases |s|
  {
    if |s| > 0 {
      var t := s[..|s| - 1];
      var x := s[|s| - 1];
      assert s == t + [x];
      assert NoRepeats(t);
      assert x !in t;
      FlashesCount(c, t);
      if Near(x, c) {
        assert NearIn(c, s) == NearIn(c, t) + {x};
      } else {
        assert NearIn(c, s) == NearIn(c, t);
      }
    }
  }

  /** Fewer distinct neighbours listed means no more flashes counted. */
  lemma FlashesWithin(c: Index, s: seq<Index>, t: seq<Index>)
    requires NoRepeats(s) && NoRepeats(t)
    requires forall f :: f in s ==> f in t
    ensures Flashes(c, s) <= Flashes(c, t)
  {
    FlashesCount(c, s);
    FlashesCount(c, t);
    var a, b := NearIn(c, s), NearIn(c, t);
    assert b == a + (b - a);
    assert |b| == |a| + |b - a|;
  }

  /** The octopuses flashed first in one outcome flash in any other: each was brought
      to 10 by octopuses flashed before it, which by induction flash there too. */
  lemma {:induction false} FlashedWithin(g0: Grid<Energy>, g1: Grid<Energy>, f1: seq<Index>,
                                          g2: Grid<Energy>, f2: seq<Index>, k: nat)
    requires g0.Valid() && Outcome(g0, g1, f1) && Outcome(g0, g2, f2) && k <= |f1|
    ensures forall c :: c in f1[..k] ==> c in f2
    decreases k
  {
    if k > 0 {
      FlashedWithin(g0, g1, f1, g2, f2, k - 1);
      var c := f1[k - 1];
      var before := f1[..k - 1];
      assert f1[..k] == before + [c];
      assert NoRepeats(before) by {
        forall x, y | 0 <= x < y < |before|
          ensures before[x] != before[y]
        {
          assert before[x] == f1[x] && before[y] == f1[y];
        }
      }
      FlashesWithin(c, before, f2);
      assert Base(g0, c) == 0 || Base(g0, c) + Flashes(c, before) >= 10;
    }
  }

  /** `Step`'s contract determines its result: two outcomes that meet it flash the
      same octopuses and leave the same grid. So the octopuses flash as the visiting
      order of the queue lets them, and no larger set of them can. */
  lemma {:induction false} StepDetermined(g0: Grid<Energy>, g1: Grid<Energy>, f1: seq<Index>, g2: Grid<Energy>, f2: seq<Index>)
    requires g0.Valid() && Outcome(g0, g1, f1) && Outcome(g0, g2, f2)
    ensures forall c :: c in f1 <==> c in f2
    ensures g1 == g2
  {
    FlashedWithin(g0, g1, f1, g2, f2, |f1|);
    FlashedWithin(g0, g2, f2, g1, f1, |f2|);
    assert f1[..|f1|] == f1 && f2[..|f2|] == f2;
    forall c | g0.InBounds(c)
      ensures g1.At(c) == g2.At(c)
    {
      if c !in f1 {
        FlashesWithin(c, f1, f2);
        FlashesWithin(c, f2, f1);
      }
    }
    CellsDetermine(g1, g2);
  }
}
