/** The two-dimensional arrays (ndarray's `Array2`) used by the grid puzzles (days 9, 11
    and 15): a rows × columns array stored as its rows, with the bounds-checked `get`,
    row-major iteration and `from_shape_vec`. */
module Grid {
  import opened Wrappers
  import opened Seqs

  /** A `(row, column)` index. */
  type Index = (nat, nat)

  datatype Grid<T> = Grid(rows: nat, columns: nat, cells: seq<seq<T>>) {

    /** The shape is the one declared: `rows` rows of `columns` cells each. */
    predicate Valid() {
      |cells| == rows && forall i :: 0 <= i < |cells| ==> |cells[i]| == columns
    }

    predicate InBounds(ij: Index) {
      ij.0 < rows && ij.1 < columns
    }

    /** Indexing an in-bounds cell (`array[ij]`). */
    function At(ij: Index): T
      requires Valid() && InBounds(ij)
    {
      cells[ij.0][ij.1]
    }

    /** `Array2::get`: `None` outside the array. */
    function Get(ij: Index): (r: Option<T>)
      requires Valid()
      ensures r.Some? <==> InBounds(ij)
      ensures r.Some? ==> r.value == At(ij)
    {
      if InBounds(ij) then Some(cells[ij.0][ij.1]) else None
    }

    /** `array[ij] = v`: the same shape, `v` at `ij`, every other cell unchanged. */
    function Set(ij: Index, v: T): (g: Grid<T>)
      requires Valid() && InBounds(ij)
      ensures g.Valid() && g.rows == rows && g.columns == columns
      ensures g.At(ij) == v
      ensures forall kl :: g.InBounds(kl) && kl != ij ==> g.At(kl) == At(kl)
    {
      Grid(rows, columns, cells[ij.0 := cells[ij.0][ij.1 := v]])
    }

    /** `Array2::iter`: the cells in row-major order. */
    function Items(): seq<T>
    {
      Flatten(cells)
    }
  }

  /** `Array2::from_elem((rows, columns), v)`. */
  function Filled<T>(rows: nat, columns: nat, v: T): (g: Grid<T>)
    ensures g.Valid() && g.rows == rows && g.columns == columns
    ensures forall ij :: g.InBounds(ij) ==> g.At(ij) == v
  {
    Grid(rows, columns, seq(rows, i => seq(columns, j => v)))
  }

  /** The rows of a row-major item list. */
  function Rows<T>(items: seq<T>, rows: nat, columns: nat): (r: seq<seq<T>>)
    requires |items| == rows * columns
    ensures |r| == rows && forall i :: 0 <= i < rows ==> |r[i]| == columns
    ensures Flatten(r) == items
    decreases rows
  {
    if rows == 0 then []
    else
      assert |items[columns..]| == (rows - 1) * columns;
      var r := [items[..columns]] + Rows(items[columns..], rows - 1, columns);
      assert r[1..] == Rows(items[columns..], rows - 1, columns);
      assert items == items[..columns] + items[columns..];
      r
  }

  /** `Array2::from_shape_vec((rows, columns), items)`: `None` (a shape error) unless
      there are exactly rows × columns items, which then fill the array row by row. */
  function FromShapeVec<T>(rows: nat, columns: nat, items: seq<T>): (r: Option<Grid<T>>)
    ensures r.Some? <==> |items| == rows * columns
    ensures r.Some? ==> r.value.Valid() && r.value.rows == rows && r.value.columns == columns
    ensures r.Some? ==> r.value.Items() == items
  {
    if |items| == rows * columns then Some(Grid(rows, columns, Rows(items, rows, columns))) else None
  }

  /** A valid array holds rows × columns items. */
  lemma {:induction false} ItemsLength<T>(g: Grid<T>)
    requires g.Valid()
    ensures |g.Items()| == g.rows * g.columns
    decreases g.rows
  {
    if g.rows > 0 {
      var tail := Grid(g.rows - 1, g.columns, g.cells[1..]);
      ItemsLength(tail);
      assert g.Items() == g.cells[0] + tail.Items();
    }
  }

  /** Row-major position: cell `(i, j)` is item `i * columns + j`. */
  lemma {:induction false} ItemsAt<T>(g: Grid<T>, ij: Index)
    requires g.Valid() && g.InBounds(ij)
    ensures |g.Items()| == g.rows * g.columns
    ensures ij.0 * g.columns + ij.1 < g.rows * g.columns
    ensures g.Items()[ij.0 * g.columns + ij.1] == g.At(ij)
    decreases ij.0
  {
    ItemsLength(g);
    var (i, j) := ij;
    assert i * g.columns + j < g.rows * g.columns by {
      assert (i + 1) * g.columns <= g.rows * g.columns;
    }
    if i > 0 {
      var tail := Grid(g.rows - 1, g.columns, g.cells[1..]);
      ItemsAt(tail, (i - 1, j));
      assert g.Items() == g.cells[0] + tail.Items();
      assert (i - 1) * g.columns + j + g.columns == i * g.columns + j;
    }
  }

  /** Every cell's content is among the items. */
  lemma AtInItems<T>(g: Grid<T>, ij: Index)
    requires g.Valid() && g.InBounds(ij)
    ensures g.At(ij) in multiset(g.Items())
  {
    ItemsAt(g, ij);
  }

  /** Two valid arrays of the same shape with the same items are equal. */
  lemma ItemsDetermine<T>(g: Grid<T>, h: Grid<T>)
    requires g.Valid() && h.Valid() && g.rows == h.rows && g.columns == h.columns
    requires g.Items() == h.Items()
    ensures g == h
  {
    forall i | 0 <= i < g.rows
      ensures g.cells[i] == h.cells[i]
    {
      forall j | 0 <= j < g.columns
        ensures g.cells[i][j] == h.cells[i][j]
      {
        ItemsAt(g, (i, j));
        ItemsAt(h, (i, j));
      }
    }
  }

  /** Two valid arrays of the same shape that agree on every cell are equal. */
  lemma CellsDetermine<T>(g: Grid<T>, h: Grid<T>)
    requires g.Valid() && h.Valid() && g.rows == h.rows && g.columns == h.columns
    requires forall ij :: g.InBounds(ij) ==> g.At(ij) == h.At(ij)
    ensures g == h
  {
    forall i | 0 <= i < g.rows
      ensures g.cells[i] == h.cells[i]
    {
      forall j | 0 <= j < g.columns
        ensures g.cells[i][j] == h.cells[i][j]
      {
        assert g.At((i, j)) == h.At((i, j));
      }
    }
  }

  /** Every item is the content of some cell. */
  lemma ItemsMember<T>(g: Grid<T>, x: T) returns (ij: Index)
    requires g.Valid() && x in g.Items()
    ensures g.InBounds(ij) && g.At(ij) == x
  {
    var i := FlattenMember(g.cells, x);
    var j := IndexOf(g.cells[i], x);
    ij := (i, j);
  }

  /** Round trip: an array rebuilt from its own shape and items is itself. */
  lemma FromShapeVecItems<T>(g: Grid<T>)
    requires g.Valid()
    ensures FromShapeVec(g.rows, g.columns, g.Items()) == Some(g)
  {
    ItemsLength(g);
    ItemsDetermine(FromShapeVec(g.rows, g.columns, g.Items()).value, g);
  }

  /** The array whose cells are their own indices. */
  function IndexGrid(rows: nat, columns: nat): (g: Grid<Index>)
    ensures g.Valid() && g.rows == rows && g.columns == columns
    ensures forall ij :: g.InBounds(ij) ==> g.At(ij) == ij
  {
    Grid(rows, columns, seq(rows, i => seq(columns, j => (i, j))))
  }

  /** `Array2::indexed_iter`: every index of a rows × columns array, in row-major order. */
  function Indices(rows: nat, columns: nat): (r: seq<Index>)
  {
    IndexGrid(rows, columns).Items()
  }

  /** The row-major enumeration has rows × columns entries. */
  lemma IndicesLength(rows: nat, columns: nat)
    ensures |Indices(rows, columns)| == rows * columns
  {
    ItemsLength(IndexGrid(rows, columns));
  }

  /** Index `(i, j)` comes at position `i * columns + j` of the enumeration. */
  lemma IndicesAt(rows: nat, columns: nat, ij: Index)
    requires ij.0 < rows && ij.1 < columns
    ensures |Indices(rows, columns)| == rows * columns
    ensures ij.0 * columns + ij.1 < rows * columns
    ensures Indices(rows, columns)[ij.0 * columns + ij.1] == ij
  {
    ItemsAt(IndexGrid(rows, columns), ij);
  }

  /** The position of an in-bounds index in the enumeration. */
  lemma IndexPosition(rows: nat, columns: nat, ij: Index) returns (k: nat)
    requires ij.0 < rows && ij.1 < columns
    ensures k < |Indices(rows, columns)| && Indices(rows, columns)[k] == ij
  {
    IndicesAt(rows, columns, ij);
    k := ij.0 * columns + ij.1;
  }

  /** Position `k` of the enumeration holds row `k / columns`, column `k % columns`. */
  lemma IndicesPosition(rows: nat, columns: nat, k: nat)
    requires k < |Indices(rows, columns)|
    ensures columns > 0 && k / columns < rows
    ensures Indices(rows, columns)[k] == (k / columns, k % columns)
  {
    IndicesLength(rows, columns);
    assert columns > 0;
    var i, j := k / columns, k % columns;
    assert k == i * columns + j;
    CancelFactor(i, rows, columns);
    IndicesAt(rows, columns, (i, j));
  }

  lemma CancelFactor(a: nat, b: nat, c: nat)
    requires a * c < b * c
    ensures a < b
  {
  }

  /** The enumeration lists no index twice. */
  lemma IndicesNoRepeats(rows: nat, columns: nat)
    ensures NoRepeats(Indices(rows, columns))
  {
    var s := Indices(rows, columns);
    forall x, y | 0 <= x < y < |s|
      ensures s[x] != s[y]
    {
      IndicesPosition(rows, columns, x);
      IndicesPosition(rows, columns, y);
      assert x == (x / columns) * columns + x % columns;
      assert y == (y / columns) * columns + y % columns;
    }
  }

  /** The enumeration lists exactly the in-bounds indices. */
  lemma IndicesMember(rows: nat, columns: nat, ij: Index)
    ensures ij in Indices(rows, columns) <==> ij.0 < rows && ij.1 < columns
  {
    var g := IndexGrid(rows, columns);
    if ij in Indices(rows, columns) {
      var k := FlattenMember(g.cells, ij);
    }
    if ij.0 < rows && ij.1 < columns {
      IndicesAt(rows, columns, ij);
    }
  }

  /** Overwriting one cell swaps one item of the row-major item list for another. */
  lemma SetItems<T>(g: Grid<T>, ij: Index, v: T)
    requires g.Valid() && g.InBounds(ij)
    ensures multiset(g.Set(ij, v).Items()) == multiset(g.Items()) - multiset{g.At(ij)} + multiset{v}
  {
    var row := g.cells[ij.0];
    assert row == row[..ij.1] + [row[ij.1]] + row[ij.1 + 1..];
    assert row[ij.1 := v] == row[..ij.1] + [v] + row[ij.1 + 1..];
    FlattenUpdate(g.cells, ij.0, row[ij.1 := v]);
  }

  /** Replacing one part of a flattened sequence replaces its items. */
  lemma {:induction false} FlattenUpdate<T>(ss: seq<seq<T>>, i: nat, t: seq<T>)
    requires i < |ss|
    ensures multiset(ss[i]) <= multiset(Flatten(ss))
    ensures multiset(Flatten(ss[i := t])) == multiset(Flatten(ss)) - multiset(ss[i]) + multiset(t)
    decreases i
  {
    var u := ss[i := t];
    assert Flatten(ss) == ss[0] + Flatten(ss[1..]);
    assert Flatten(u) == u[0] + Flatten(u[1..]);
    if i == 0 {
      assert u[1..] == ss[1..];
    } else {
      FlattenUpdate(ss[1..], i - 1, t);
      assert u[1..] == ss[1..][i - 1 := t];
    }
  }

  /** A member of a flattened sequence is a member of one of the parts. */
  lemma {:induction false} FlattenMember<T>(ss: seq<seq<T>>, x: T) returns (k: nat)
    requires x in Flatten(ss)
    ensures k < |ss| && x in ss[k]
    decreases |ss|
  {
    if x in ss[0] {
      k := 0;
    } else {
      var k' := FlattenMember(ss[1..], x);
      k := k' + 1;
    }
  }
}
