/**
 * Column gravity after beans are removed. Each column is read top to bottom
 * as a sequence of 13 cell values. For every vacated row, taken smallest row
 * first, every bean above it moves down exactly one row.
 */
module Gravity {
  import opened Board

  /** Column x of the field, top row first. */
  function Column(g: Grid, x: int): (c: seq<int>)
    requires IsGrid(g) && 0 <= x < Cols
    ensures |c| == Rows && forall y :: 0 <= y < Rows ==> c[y] == g[y][x]
  {
    seq(Rows, y requires 0 <= y < Rows => g[y][x])
  }

  /**
   * A shift at vacated row r carried out for the beans of rows t to r - 1
   * only, cell by cell: such a bean moves to the cell below it, and the cell
   * it leaves is emptied unless the bean above moves in; every other cell is
   * untouched.
   */
  function ShiftFrom(col: seq<int>, r: int, t: int): (s: seq<int>)
    requires |col| == Rows && 0 <= r < Rows && 0 <= t
    ensures |s| == Rows
  {
    seq(Rows, z requires 0 <= z < Rows =>
      if t < z <= r && col[z - 1] != 0 then col[z - 1]
      else if t <= z < r && col[z] != 0 then 0
      else col[z])
  }

  /** One shift at vacated row r: every bean above r moves down one row. */
  function ShiftDown(col: seq<int>, r: int): (s: seq<int>)
    requires |col| == Rows && 0 <= r < Rows
    ensures |s| == Rows
  {
    ShiftFrom(col, r, 0)
  }

  /** When row r is empty, a shift removes that row and puts an empty cell on top. */
  lemma ShiftDownRemovesRow(col: seq<int>, r: int)
    requires |col| == Rows && 0 <= r < Rows && col[r] == 0
    ensures ShiftDown(col, r) == [0] + col[..r] + col[r + 1..]
  {
    var s, t := ShiftDown(col, r), [0] + col[..r] + col[r + 1..];
    assert |t| == Rows;
    forall z | 0 <= z < Rows ensures s[z] == t[z] {
      if z == 0 {
      } else if z <= r {
        assert t[z] == col[z - 1];
      } else {
        assert t[z] == col[z];
      }
    }
  }

  /** A shift at row r leaves row r + 1 and everything below it alone. */
  lemma ShiftDownBelow(col: seq<int>, r: int, z: int)
    requires |col| == Rows && 0 <= r < z < Rows
    ensures ShiftDown(col, r)[z] == col[z]
  {
  }

  /** The vacated rows of one column processed in list order. */
  function Collapse(col: seq<int>, rows: seq<int>): (s: seq<int>)
    requires |col| == Rows && forall i :: 0 <= i < |rows| ==> 0 <= rows[i] < Rows
    ensures |s| == Rows
    decreases |rows|
  {
    if rows == [] then col
    else ShiftDown(Collapse(col, rows[..|rows| - 1]), rows[|rows| - 1])
  }

  /** Collapsing at r0 and then at the rows of rest is collapsing at [r0] + rest. */
  lemma {:induction false} CollapseCons(col: seq<int>, r0: int, rest: seq<int>)
    requires |col| == Rows && 0 <= r0 < Rows && forall i :: 0 <= i < |rest| ==> 0 <= rest[i] < Rows
    ensures Collapse(ShiftDown(col, r0), rest) == Collapse(col, [r0] + rest)
    decreases |rest|
  {
    if rest == [] {
      assert ([r0] + rest)[..0] == [];
    } else {
      var n := |rest|;
      CollapseCons(col, r0, rest[..n - 1]);
      assert ([r0] + rest)[..n] == [r0] + rest[..n - 1];
    }
  }

  /** Collapsing keeps every cell within the values the column already had, or empty. */
  lemma {:induction false} CollapseLegal(col: seq<int>, rows: seq<int>)
    requires |col| == Rows && forall i :: 0 <= i < |rows| ==> 0 <= rows[i] < Rows
    requires forall z :: 0 <= z < Rows ==> 0 <= col[z] <= 6
    ensures forall z :: 0 <= z < Rows ==> 0 <= Collapse(col, rows)[z] <= 6
    decreases |rows|
  {
    if rows != [] {
      CollapseLegal(col, rows[..|rows| - 1]);
    }
  }

  /** The beans of a column, top to bottom, without the empty cells. */
  function Beans(col: seq<int>): seq<int> {
    if col == [] then []
    else (if col[0] != 0 then [col[0]] else []) + Beans(col[1..])
  }

  lemma {:induction false} BeansAppend(a: seq<int>, b: seq<int>)
    ensures Beans(a + b) == Beans(a) + Beans(b)
    decreases |a|
  {
    if a == [] {
      assert a + b == b;
    } else {
      assert (a + b)[1..] == a[1..] + b;
      BeansAppend(a[1..], b);
    }
  }

  predicate StrictlyAscending(rows: seq<int>) {
    forall i, j :: 0 <= i < j < |rows| ==> rows[i] < rows[j]
  }

  /** Rows below every processed row (larger row numbers) are not touched by the collapse. */
  lemma {:induction false} CollapseBelow(col: seq<int>, rows: seq<int>, z: int)
    requires |col| == Rows && forall i :: 0 <= i < |rows| ==> 0 <= rows[i] < z
    requires 0 <= z < Rows
    ensures Collapse(col, rows)[z] == col[z]
    decreases |rows|
  {
    if rows != [] {
      CollapseBelow(col, rows[..|rows| - 1], z);
      ShiftDownBelow(Collapse(col, rows[..|rows| - 1]), rows[|rows| - 1], z);
    }
  }

  /**
   * Collapsing distinct vacated rows, smallest first, keeps every bean of the
   * column in its order (so the number of beans per column is preserved)
   * and leaves one empty cell at the top per vacated row.
   */
  lemma {:induction false} CollapseKeepsBeans(col: seq<int>, rows: seq<int>)
    requires |col| == Rows && forall i :: 0 <= i < |rows| ==> 0 <= rows[i] < Rows
    requires StrictlyAscending(rows)
    requires forall i :: 0 <= i < |rows| ==> col[rows[i]] == 0
    ensures Beans(Collapse(col, rows)) == Beans(col)
    ensures forall z :: 0 <= z < |rows| && z < Rows ==> Collapse(col, rows)[z] == 0
    decreases |rows|
  {
    if rows != [] {
      var n := |rows| - 1;
      var init, r := rows[..n], rows[n];
      var c' := Collapse(col, init);
      CollapseKeepsBeans(col, init);
      CollapseBelow(col, init, r);
      ShiftDownRemovesRow(c', r);
      assert c' == c'[..r] + [c'[r]] + c'[r + 1..];
      BeansAppend(c'[..r] + [c'[r]], c'[r + 1..]);
      BeansAppend(c'[..r], [c'[r]]);
      BeansAppend([0] + c'[..r], c'[r + 1..]);
      BeansAppend([0], c'[..r]);
      AscendingGap(rows, 0, n);
      forall z | 0 <= z < |rows| && z < Rows ensures Collapse(col, rows)[z] == 0 {
        if 0 < z {
          assert c'[z - 1] == 0;
        }
      }
    }
  }

  /** In a strictly ascending list of integers entries at distance k differ by at least k. */
  lemma {:induction false} AscendingGap(rows: seq<int>, i: int, j: int)
    requires StrictlyAscending(rows) && 0 <= i <= j < |rows|
    ensures rows[j] - rows[i] >= j - i
    decreases j - i
  {
    if i < j {
      AscendingGap(rows, i + 1, j);
    }
  }

  // ----- sorted() of the vacated rows -----

  predicate Ascending(s: seq<int>) {
    forall i, j :: 0 <= i < j < |s| ==> s[i] <= s[j]
  }

  function Insert(v: int, s: seq<int>): (r: seq<int>)
    requires Ascending(s)
    ensures Ascending(r) && multiset(r) == multiset(s) + multiset{v}
    ensures r[0] == v || (s != [] && r[0] == s[0])
  {
    if s == [] || v <= s[0] then
      AscendingCons(v, s);
      [v] + s
    else
      assert s == [s[0]] + s[1..];
      var r := Insert(v, s[1..]);
      assert s[0] <= r[0] by {
        if r[0] != v { assert r[0] == s[1]; }
      }
      AscendingCons(s[0], r);
      [s[0]] + r
  }

  /** A value no larger than the head of an ascending list can be put in front of it. */
  lemma AscendingCons(x: int, r: seq<int>)
    requires Ascending(r) && (r == [] || x <= r[0])
    ensures Ascending([x] + r)
  {
    forall i, j | 0 <= i < j < |[x] + r| ensures ([x] + r)[i] <= ([x] + r)[j] {
      if i == 0 { assert r[0] <= r[j - 1]; }
    }
  }

  /** The rows in ascending order: an ordered permutation of its input. */
  function SortRows(s: seq<int>): (r: seq<int>)
    ensures Ascending(r) && multiset(r) == multiset(s)
  {
    if s == [] then []
    else
      assert s == s[..|s| - 1] + [s[|s| - 1]];
      Insert(s[|s| - 1], SortRows(s[..|s| - 1]))
  }

  /** Inserting a value not yet present into a strictly ascending list keeps it strictly ascending. */
  lemma {:induction false} InsertStrict(v: int, s: seq<int>)
    requires Ascending(s) && StrictlyAscending(s) && v !in s
    ensures StrictlyAscending(Insert(v, s))
    decreases |s|
  {
    if s != [] && v > s[0] {
      InsertStrict(v, s[1..]);
    }
  }

  /** Rows without repeats sort into a strictly ascending list. */
  lemma {:induction false} SortStrict(s: seq<int>)
    requires Distinct(s)
    ensures StrictlyAscending(SortRows(s))
    decreases |s|
  {
    if s != [] {
      var init, v := s[..|s| - 1], s[|s| - 1];
      SortStrict(init);
      assert v !in init;
      assert v !in multiset(SortRows(init));
      InsertStrict(v, SortRows(init));
    }
  }

  /**
   * Distinct vacated rows, sorted and then collapsed, keep every bean of the
   * column in its order and leave one empty cell at the top per row.
   */
  lemma SortedCollapseKeepsBeans(col: seq<int>, rows: seq<int>)
    requires |col| == Rows && Distinct(rows)
    requires forall i :: 0 <= i < |rows| ==> 0 <= rows[i] < Rows && col[rows[i]] == 0
    ensures |SortRows(rows)| == |rows|
    ensures forall i :: 0 <= i < |SortRows(rows)| ==> 0 <= SortRows(rows)[i] < Rows
    ensures Beans(Collapse(col, SortRows(rows))) == Beans(col)
    ensures forall z :: 0 <= z < |rows| && z < Rows ==> Collapse(col, SortRows(rows))[z] == 0
  {
    var sorted := SortRows(rows);
    assert |sorted| == |multiset(sorted)| == |rows|;
    forall i | 0 <= i < |sorted| ensures 0 <= sorted[i] < Rows && col[sorted[i]] == 0 {
      assert sorted[i] in multiset(rows);
    }
    SortStrict(rows);
    CollapseKeepsBeans(col, sorted);
  }

  // ----- the per-column drop list built by remove_beans -----

  /** The rows of the cells in column x, in list order. */
  function RowsIn(cells: seq<Cell>, x: int): seq<int> {
    if cells == [] then []
    else
      var last := cells[|cells| - 1];
      RowsIn(cells[..|cells| - 1], x) + (if last.1 == x then [last.0] else [])
  }

  /**
   * The rows listed for column x are the rows of the cells of that column,
   * and a list of cells without repeats gives rows without repeats.
   */
  lemma {:induction false} RowsInCells(cells: seq<Cell>, x: int)
    ensures forall r :: r in RowsIn(cells, x) <==> (r, x) in cells
    ensures Distinct(cells) ==> Distinct(RowsIn(cells, x))
    decreases |cells|
  {
    if cells != [] {
      var init, last := cells[..|cells| - 1], cells[|cells| - 1];
      RowsInCells(init, x);
      assert cells == init + [last];
      if Distinct(cells) {
        assert Distinct(init);
        assert last !in init;
      }
    }
  }

  /**
   * The drop list as remove_beans builds it: for each column that holds an
   * eliminated cell, the rows of those cells in the order they were listed.
   */
  function DropListOf(cells: seq<Cell>): (m: map<int, seq<int>>)
    ensures forall x :: x in m <==> RowsIn(cells, x) != []
    ensures forall x :: x in m ==> m[x] == RowsIn(cells, x)
  {
    if cells == [] then map[]
    else
      var m := DropListOf(cells[..|cells| - 1]);
      var (y, x) := cells[|cells| - 1];
      if x in m then m[x := m[x] + [y]] else m[x := [y]]
  }

  /** The columns of the drop list in the order they were first met (the dict's key order). */
  function ColumnOrder(cells: seq<Cell>): (cs: seq<int>)
    ensures Distinct(cs)
    ensures forall x :: x in cs <==> RowsIn(cells, x) != []
  {
    if cells == [] then []
    else
      var cs := ColumnOrder(cells[..|cells| - 1]);
      var x := cells[|cells| - 1].1;
      if x in cs then cs else cs + [x]
  }
  /** The index of the first cell of column x in cells, or |cells| when there is none. */
  function FirstIndex(cells: seq<Cell>, x: int): (k: int)
    ensures 0 <= k <= |cells| && (k < |cells| ==> cells[k].1 == x)
    ensures forall p :: 0 <= p < k ==> cells[p].1 != x
  {
    if cells == [] then 0
    else
      var k := FirstIndex(cells[..|cells| - 1], x);
      if k < |cells| - 1 then k
      else if cells[|cells| - 1].1 == x then |cells| - 1
      else |cells|
  }

  /**
   * The key order of the drop list is the order in which the columns are
   * first met in the eliminated cells: a column is listed before another
   * exactly when its first cell comes earlier.
   */
  lemma {:induction false} ColumnOrderFirstMet(cells: seq<Cell>)
    ensures forall x :: x in ColumnOrder(cells) <==> FirstIndex(cells, x) < |cells|
    ensures forall i, j :: 0 <= i < j < |ColumnOrder(cells)| ==>
      FirstIndex(cells, ColumnOrder(cells)[i]) < FirstIndex(cells, ColumnOrder(cells)[j])
    decreases |cells|
  {
    if cells != [] {
      var init := cells[..|cells| - 1];
      ColumnOrderFirstMet(init);
    }
  }
}
