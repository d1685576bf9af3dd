/**
 * The playing field of the bean machine as a value: 13 rows (row 0 is the
 * top, loss row; row 12 the floor) by 6 columns. A cell holds 0 (empty),
 * 1 (a neutral "black" bean) or 2..6 (a coloured bean).
 *
 * Every change to the field is a list of (row, column, value) writes that
 * are applied in list order; the pair's moves and the column collapse are
 * such lists.
 */
module Board {

  const Rows: int := 13
  const Cols: int := 6

  type Grid = seq<seq<int>>

  /** A (row, column) pair. */
  type Cell = (int, int)

  predicate IsGrid(g: Grid) {
    |g| == Rows && forall y :: 0 <= y < Rows ==> |g[y]| == Cols
  }

  predicate InBounds(y: int, x: int) {
    0 <= y < Rows && 0 <= x < Cols
  }

  /** Every cell holds one of the seven legal cell values. */
  predicate Legal(g: Grid)
    requires IsGrid(g)
  {
    forall y, x :: 0 <= y < Rows && 0 <= x < Cols ==> 0 <= g[y][x] <= 6
  }

  function EmptyGrid(): (g: Grid)
    ensures IsGrid(g) && Legal(g)
    ensures forall y, x :: InBounds(y, x) ==> g[y][x] == 0
  {
    seq(Rows, y => seq(Cols, x => 0))
  }

  /** The grid with the single cell (y, x) set to c. */
  function Write(g: Grid, y: int, x: int, c: int): (r: Grid)
    requires IsGrid(g) && InBounds(y, x)
    ensures IsGrid(r)
  {
    g[y := g[y][x := c]]
  }

  /** No entry of the list is repeated. */
  predicate Distinct<T(==)>(s: seq<T>) {
    forall i, j :: 0 <= i < j < |s| ==> s[i] != s[j]
  }

  /** One write of a change list: cell (y, x) becomes c. */
  datatype Change = Change(y: int, x: int, c: int)

  predicate ChangesInBounds(cs: seq<Change>) {
    forall i :: 0 <= i < |cs| ==> InBounds(cs[i].y, cs[i].x)
  }

  predicate ChangesLegal(cs: seq<Change>) {
    forall i :: 0 <= i < |cs| ==> InBounds(cs[i].y, cs[i].x) && 0 <= cs[i].c <= 6
  }

  /** The change list applied to g from its first entry to its last. */
  function ApplyChanges(g: Grid, cs: seq<Change>): (r: Grid)
    requires IsGrid(g) && ChangesInBounds(cs)
    ensures IsGrid(r)
    decreases |cs|
  {
    if cs == [] then g
    else
      var last := cs[|cs| - 1];
      Write(ApplyChanges(g, cs[..|cs| - 1]), last.y, last.x, last.c)
  }

  /** A cell that no change of the list touches keeps its value. */
  lemma {:induction false} ApplyChangesUntouched(g: Grid, cs: seq<Change>, y: int, x: int)
    requires IsGrid(g) && ChangesInBounds(cs) && InBounds(y, x)
    requires forall i :: 0 <= i < |cs| ==> (cs[i].y, cs[i].x) != (y, x)
    ensures ApplyChanges(g, cs)[y][x] == g[y][x]
    decreases |cs|
  {
    if cs != [] {
      ApplyChangesUntouched(g, cs[..|cs| - 1], y, x);
    }
  }

  /** The last change that touches a cell decides its value. */
  lemma {:induction false} ApplyChangesLastWins(g: Grid, cs: seq<Change>, i: int)
    requires IsGrid(g) && ChangesInBounds(cs) && 0 <= i < |cs|
    requires forall j :: i < j < |cs| ==> (cs[j].y, cs[j].x) != (cs[i].y, cs[i].x)
    ensures ApplyChanges(g, cs)[cs[i].y][cs[i].x] == cs[i].c
    decreases |cs|
  {
    if i < |cs| - 1 {
      ApplyChangesLastWins(g, cs[..|cs| - 1], i);
    }
  }

  /** Applying a list in two parts is applying it whole. */
  lemma {:induction false} ApplyChangesAppend(g: Grid, cs: seq<Change>, ds: seq<Change>)
    requires IsGrid(g) && ChangesInBounds(cs) && ChangesInBounds(ds)
    ensures ChangesInBounds(cs + ds)
    ensures ApplyChanges(ApplyChanges(g, cs), ds) == ApplyChanges(g, cs + ds)
    decreases |ds|
  {
    if ds == [] {
      assert cs + ds == cs;
    } else {
      ApplyChangesAppend(g, cs, ds[..|ds| - 1]);
      assert (cs + ds)[..|cs + ds| - 1] == cs + ds[..|ds| - 1];
      assert (cs + ds)[|cs + ds| - 1] == ds[|ds| - 1];
    }
  }

  /** Writing legal values keeps every cell legal. */
  lemma {:induction false} ApplyChangesLegal(g: Grid, cs: seq<Change>)
    requires IsGrid(g) && Legal(g) && ChangesLegal(cs)
    ensures Legal(ApplyChanges(g, cs))
    decreases |cs|
  {
    if cs != [] {
      ApplyChangesLegal(g, cs[..|cs| - 1]);
    }
  }

  /** Two grids that agree on every cell are equal. */
  lemma GridExt(a: Grid, b: Grid)
    requires IsGrid(a) && IsGrid(b)
    requires forall y, x :: InBounds(y, x) ==> a[y][x] == b[y][x]
    ensures a == b
  {
    forall y | 0 <= y < Rows ensures a[y] == b[y] {
      assert forall x :: 0 <= x < Cols ==> a[y][x] == b[y][x] by {
        forall x | 0 <= x < Cols ensures a[y][x] == b[y][x] {
          assert InBounds(y, x);
        }
      }
    }
  }
}
