/**
 * The passes of completion_drop. Each pass takes, for every column still in
 * the drop list (in the dict's key order), the smallest vacated row left in
 * that column, collects every bean above it from the field as it stood at
 * the start of the pass, and moves those beans down one row with a single
 * change list written from the last collected bean to the first. Passes
 * repeat until the drop list is empty.
 *
 * The net effect proved here: each column of the drop list is collapsed at
 * its rows in list order, and no other column changes.
 */
module Passes {
  import opened Board
  import opened Gravity

  /** A bean that a pass moves down one row: its row, column and colour. */
  datatype Dropper = Dropper(y: int, x: int, c: int)

  /** Every bean can move down one row without leaving the field. */
  predicate OnField(ds: seq<Dropper>) {
    forall i :: 0 <= i < |ds| ==> 0 <= ds[i].y && ds[i].y + 1 < Rows && 0 <= ds[i].x < Cols
  }

  /** The beans of column x above row hi, top row first (the row loop of a pass). */
  function ColumnDroppers(g: Grid, x: int, hi: int): (ds: seq<Dropper>)
    requires IsGrid(g) && 0 <= x < Cols && 0 <= hi < Rows
    ensures OnField(ds)
    decreases hi
  {
    if hi == 0 then []
    else ColumnDroppers(g, x, hi - 1) + RowDropper(g, x, hi - 1)
  }

  /** The beans collected from column x above hi are nonempty cells of that column above hi. */
  lemma {:induction false} ColumnDroppersShape(g: Grid, x: int, hi: int)
    requires IsGrid(g) && 0 <= x < Cols && 0 <= hi < Rows
    ensures forall d :: d in ColumnDroppers(g, x, hi) ==> d.x == x && d.y < hi && d.c == g[d.y][x] != 0
    decreases hi
  {
    if hi > 0 {
      ColumnDroppersShape(g, x, hi - 1);
    }
  }

  /**
   * The change list of a pass: the beans from the last collected to the
   * first, each emptying its cell and then filling the cell below it.
   */
  function DropChanges(ds: seq<Dropper>): (cs: seq<Change>)
    requires OnField(ds)
    ensures ChangesInBounds(cs) && |cs| == 2 * |ds|
    decreases |ds|
  {
    if ds == [] then []
    else DropChanges(ds[1..]) + [Change(ds[0].y, ds[0].x, 0), Change(ds[0].y + 1, ds[0].x, ds[0].c)]
  }

  /** Beans of legal colours make legal changes. */
  lemma {:induction false} DropChangesLegal(ds: seq<Dropper>)
    requires OnField(ds) && forall i :: 0 <= i < |ds| ==> 0 <= ds[i].c <= 6
    ensures ChangesLegal(DropChanges(ds))
    decreases |ds|
  {
    if ds != [] {
      DropChangesLegal(ds[1..]);
    }
  }

  /** The cells a pass drops beans into, in the order the changes are written. */
  function DroppedCells(ds: seq<Dropper>): (cells: seq<Cell>)
    requires OnField(ds)
    ensures |cells| == |ds|
    ensures forall i :: 0 <= i < |cells| ==> InBounds(cells[i].0, cells[i].1)
    decreases |ds|
  {
    if ds == [] then []
    else DroppedCells(ds[1..]) + [(ds[0].y + 1, ds[0].x)]
  }

  /** The changes of two lists of beans: the later list's changes come first. */
  lemma {:induction false} DropChangesAppend(a: seq<Dropper>, b: seq<Dropper>)
    requires OnField(a) && OnField(b)
    ensures OnField(a + b)
    ensures DropChanges(a + b) == DropChanges(b) + DropChanges(a)
    decreases |a|
  {
    if a == [] {
      assert a + b == b;
    } else {
      var p := [Change(a[0].y, a[0].x, 0), Change(a[0].y + 1, a[0].x, a[0].c)];
      var rest := a[1..] + b;
      assert a + b == [a[0]] + rest;
      assert OnField(rest) by { assert forall i :: 0 <= i < |rest| ==> rest[i] == (a + b)[i + 1]; }
      DropChangesAppend(a[1..], b);
      var r, q := DropChanges(b), DropChanges(a[1..]);
      assert DropChanges(a + b) == DropChanges(rest) + p;
      assert (r + q) + p == r + (q + p);
    }
  }

  lemma {:induction false} DroppedCellsAppend(a: seq<Dropper>, b: seq<Dropper>)
    requires OnField(a) && OnField(b)
    ensures OnField(a + b)
    ensures DroppedCells(a + b) == DroppedCells(b) + DroppedCells(a)
    decreases |a|
  {
    if a == [] {
      assert a + b == b;
    } else {
      var p := [(a[0].y + 1, a[0].x)];
      var rest := a[1..] + b;
      assert a + b == [a[0]] + rest;
      assert OnField(rest) by { assert forall i :: 0 <= i < |rest| ==> rest[i] == (a + b)[i + 1]; }
      DroppedCellsAppend(a[1..], b);
      var r, q := DroppedCells(b), DroppedCells(a[1..]);
      assert DroppedCells(a + b) == DroppedCells(rest) + p;
      assert (r + q) + p == r + (q + p);
    }
  }

  /** The grid g with its column x replaced by the shift at hi done from row t down. */
  ghost function ShiftedGrid(g: Grid, x: int, hi: int, t: int): (h: Grid)
    requires IsGrid(g) && 0 <= x < Cols && 0 <= t && 0 <= hi < Rows
    ensures IsGrid(h)
  {
    seq(Rows, y requires 0 <= y < Rows =>
      seq(Cols, z requires 0 <= z < Cols => if z == x then ShiftFrom(Column(g, x), hi, t)[y] else g[y][z]))
  }

  /** The cells of ShiftedGrid. */
  lemma ShiftedGridAt(g: Grid, x: int, hi: int, t: int)
    requires IsGrid(g) && 0 <= x < Cols && 0 <= t && 0 <= hi < Rows
    ensures forall y, z :: InBounds(y, z) ==>
      ShiftedGrid(g, x, hi, t)[y][z] == (if z == x then ShiftFrom(Column(g, x), hi, t)[y] else g[y][z])
  {
  }

  /** The bean of cell (y, x) as a one-element list, or nothing when the cell is empty. */
  function RowDropper(g: Grid, x: int, y: int): (ds: seq<Dropper>)
    requires IsGrid(g) && InBounds(y, x) && y + 1 < Rows
    ensures OnField(ds)
  {
    if g[y][x] != 0 then [Dropper(y, x, g[y][x])] else []
  }

  /** Moving the bean of row t - 1 (if any) extends the shift one row further up. */
  lemma ShiftOneRow(g: Grid, h: Grid, x: int, hi: int, t: int)
    requires IsGrid(g) && IsGrid(h) && 0 <= x < Cols && 0 < t <= hi < Rows
    requires h == ShiftedGrid(g, x, hi, t)
    ensures ApplyChanges(h, DropChanges(RowDropper(g, x, t - 1))) == ShiftedGrid(g, x, hi, t - 1)
  {
    ShiftOneRowCells(g, h, x, hi, t);
    GridExt(ApplyChanges(h, DropChanges(RowDropper(g, x, t - 1))), ShiftedGrid(g, x, hi, t - 1));
  }

  /** ShiftOneRow cell by cell. */
  lemma ShiftOneRowCells(g: Grid, h: Grid, x: int, hi: int, t: int)
    requires IsGrid(g) && IsGrid(h) && 0 <= x < Cols && 0 < t <= hi < Rows
    requires h == ShiftedGrid(g, x, hi, t)
    ensures forall y, z :: InBounds(y, z) ==>
      ApplyChanges(h, DropChanges(RowDropper(g, x, t - 1)))[y][z] == ShiftedGrid(g, x, hi, t - 1)[y][z]
  {
    var col := Column(g, x);
    var h' := ApplyChanges(h, DropChanges(RowDropper(g, x, t - 1)));
    RowDropperWrites(g, h, x, t);
    ShiftedGridAt(g, x, hi, t);
    ShiftedGridAt(g, x, hi, t - 1);
    forall y, z | InBounds(y, z)
      ensures h'[y][z] == (if z == x then ShiftFrom(col, hi, t - 1)[y] else g[y][z])
    {
      if z == x {
        ShiftFromStep(col, hi, t, y);
      }
    }
  }

  /** The changes of the bean of row t - 1, if any: its cell emptied, the cell below it filled. */
  lemma RowDropperWrites(g: Grid, h: Grid, x: int, t: int)
    requires IsGrid(g) && IsGrid(h) && 0 <= x < Cols && 0 < t < Rows
    ensures var c := g[t - 1][x];
      forall y, z :: InBounds(y, z) ==>
        ApplyChanges(h, DropChanges(RowDropper(g, x, t - 1)))[y][z] ==
          if c != 0 && z == x && y == t - 1 then 0 else if c != 0 && z == x && y == t then c else h[y][z]
  {
    var c := g[t - 1][x];
    if c != 0 {
      assert DropChanges(RowDropper(g, x, t - 1)) == [Change(t - 1, x, 0), Change(t, x, c)];
      DropperWrites(h, x, t, c);
    } else {
      assert DropChanges(RowDropper(g, x, t - 1)) == [];
    }
  }

  /** The two writes of the bean at (t - 1, x): its cell emptied, the cell below it filled. */
  lemma DropperWrites(h: Grid, x: int, t: int, c: int)
    requires IsGrid(h) && 0 <= x < Cols && 0 < t < Rows
    ensures ChangesInBounds([Change(t - 1, x, 0), Change(t, x, c)])
    ensures forall y, z :: InBounds(y, z) ==>
      ApplyChanges(h, [Change(t - 1, x, 0), Change(t, x, c)])[y][z] ==
        if z == x && y == t - 1 then 0 else if z == x && y == t then c else h[y][z]
  {
    var two := [Change(t - 1, x, 0), Change(t, x, c)];
    assert two[..1][..0] == [];
    assert ApplyChanges(h, two[..1]) == Write(h, t - 1, x, 0);
  }

  /** Extending the shift up to row t - 1 moves the bean of row t - 1, if any, down into row t. */
  lemma ShiftFromStep(col: seq<int>, hi: int, t: int, y: int)
    requires |col| == Rows && 0 < t <= hi < Rows && 0 <= y < Rows
    ensures ShiftFrom(col, hi, t - 1)[y] ==
      if col[t - 1] != 0 && y == t - 1 then 0
      else if col[t - 1] != 0 && y == t then col[t - 1]
      else ShiftFrom(col, hi, t)[y]
  {
  }

  /** No bean lies above row 0, so there is nothing to write. */
  lemma ColumnPassBase(g: Grid, h: Grid, x: int)
    requires IsGrid(g) && IsGrid(h) && 0 <= x < Cols
    ensures ApplyChanges(h, DropChanges(ColumnDroppers(g, x, 0))) == h
  {
    assert DropChanges(ColumnDroppers(g, x, 0)) == [];
  }

  /** One step of ColumnPass: the bean of row t - 1 is written, then those above it. */
  lemma ColumnPassStep(g: Grid, h: Grid, x: int, hi: int, t: int) returns (h1: Grid)
    requires IsGrid(g) && IsGrid(h) && 0 <= x < Cols && 0 < t <= hi < Rows
    requires h == ShiftedGrid(g, x, hi, t)
    ensures IsGrid(h1) && h1 == ShiftedGrid(g, x, hi, t - 1)
    ensures ApplyChanges(h, DropChanges(ColumnDroppers(g, x, t))) == ApplyChanges(h1, DropChanges(ColumnDroppers(g, x, t - 1)))
  {
    h1 := ApplyChanges(h, DropChanges(RowDropper(g, x, t - 1)));
    ApplyColumnDroppers(g, h, x, t);
    ShiftOneRow(g, h, x, hi, t);
  }

  /** The changes of the beans above row t: the bean of row t - 1 is written first, then those above it. */
  lemma ApplyColumnDroppers(g: Grid, h: Grid, x: int, t: int)
    requires IsGrid(g) && IsGrid(h) && 0 <= x < Cols && 0 < t < Rows
    ensures ApplyChanges(h, DropChanges(ColumnDroppers(g, x, t))) ==
      ApplyChanges(ApplyChanges(h, DropChanges(RowDropper(g, x, t - 1))), DropChanges(ColumnDroppers(g, x, t - 1)))
  {
    var one := RowDropper(g, x, t - 1);
    var rest := ColumnDroppers(g, x, t - 1);
    assert ColumnDroppers(g, x, t) == rest + one;
    DropChangesAppend(rest, one);
    ApplyChangesAppend(h, DropChanges(one), DropChanges(rest));
  }

  /** The changes of the beans of column x above hi shift column x at hi and touch nothing else. */
  lemma ColumnPass(g: Grid, x: int, hi: int)
    requires IsGrid(g) && 0 <= x < Cols && 0 <= hi < Rows
    ensures forall y, z :: InBounds(y, z) ==>
      ApplyChanges(g, DropChanges(ColumnDroppers(g, x, hi)))[y][z]
        == (if z == x then ShiftDown(Column(g, x), hi)[y] else g[y][z])
  {
    var h, t := g, hi;
    ShiftedGridAt(g, x, hi, hi);
    GridExt(g, ShiftedGrid(g, x, hi, hi));
    while t > 0
      invariant 0 <= t <= hi && IsGrid(h) && h == ShiftedGrid(g, x, hi, t)
      invariant ApplyChanges(g, DropChanges(ColumnDroppers(g, x, hi))) == ApplyChanges(h, DropChanges(ColumnDroppers(g, x, t)))
    {
      h := ColumnPassStep(g, h, x, hi, t);
      t := t - 1;
    }
    ColumnPassBase(g, h, x);
    ShiftedGridAt(g, x, hi, 0);
  }

  // ----- one pass over the columns -----

  /** A well-formed drop list: each key a column with a nonempty list of rows of the field. */
  predicate Lists(m: map<int, seq<int>>) {
    forall x :: x in m ==> 0 <= x < Cols && |m[x]| > 0 && forall i :: 0 <= i < |m[x]| ==> 0 <= m[x][i] < Rows
  }

  /** The first row of column x is taken off the drop list, and the key with it when no row is left. */
  function Pop(m: map<int, seq<int>>, x: int): (r: map<int, seq<int>>)
    requires Lists(m) && x in m
    ensures Lists(r)
  {
    var popped := m[x := m[x][1..]];
    if |popped[x]| == 0 then popped - {x} else popped
  }

  /**
   * The column loop of a pass: for each column of cols still in the drop
   * list, its first row is popped and the beans above it on g are collected.
   * Yields the collected beans and the drop list after the pops.
   */
  function Collect(g: Grid, m: map<int, seq<int>>, cols: seq<int>): (r: (seq<Dropper>, map<int, seq<int>>))
    requires IsGrid(g) && Lists(m)
    ensures OnField(r.0) && Lists(r.1)
    ensures forall i :: 0 <= i < |r.0| ==> r.0[i].c == g[r.0[i].y][r.0[i].x]
    decreases |cols|
  {
    if cols == [] then ([], m)
    else
      var (ds, m') := Collect(g, m, cols[..|cols| - 1]);
      var x := cols[|cols| - 1];
      if x in m' then
        ColumnDroppersShape(g, x, m'[x][0]);
        (ds + ColumnDroppers(g, x, m'[x][0]), Pop(m', x))
      else (ds, m')
  }

  /** A pass over distinct columns pops exactly one row of each listed column. */
  lemma {:induction false} CollectPops(g: Grid, m: map<int, seq<int>>, cols: seq<int>)
    requires IsGrid(g) && Lists(m) && Distinct(cols)
    ensures forall x :: x in Collect(g, m, cols).1 <==> x in m && (x in cols ==> |m[x]| > 1)
    ensures forall x :: x in Collect(g, m, cols).1 ==>
      Collect(g, m, cols).1[x] == if x in cols then m[x][1..] else m[x]
    decreases |cols|
  {
    if cols != [] {
      var init := cols[..|cols| - 1];
      assert cols == init + [cols[|cols| - 1]];
      CollectPops(g, m, init);
    }
  }

  /** Column z of the two grids is the same. */
  ghost predicate SameColumn(g: Grid, h: Grid, z: int)
    requires IsGrid(g) && IsGrid(h)
  {
    forall y :: 0 <= y < Rows && 0 <= z < Cols ==> g[y][z] == h[y][z]
  }

  /** The beans collected in a pass depend only on the columns visited. */
  lemma {:induction false} CollectSameColumns(g: Grid, h: Grid, m: map<int, seq<int>>, cols: seq<int>)
    requires IsGrid(g) && IsGrid(h) && Lists(m)
    requires forall i :: 0 <= i < |cols| ==> SameColumn(g, h, cols[i])
    ensures Collect(g, m, cols) == Collect(h, m, cols)
    decreases |cols|
  {
    if cols != [] {
      var init := cols[..|cols| - 1];
      CollectSameColumns(g, h, m, init);
      var x := cols[|cols| - 1];
      var m' := Collect(g, m, init).1;
      if x in m' {
        ColumnDroppersSame(g, h, x, m'[x][0]);
      }
    }
  }

  lemma {:induction false} ColumnDroppersSame(g: Grid, h: Grid, x: int, hi: int)
    requires IsGrid(g) && IsGrid(h) && 0 <= x < Cols && 0 <= hi < Rows && SameColumn(g, h, x)
    ensures ColumnDroppers(g, x, hi) == ColumnDroppers(h, x, hi)
    decreases hi
  {
    if hi > 0 {
      ColumnDroppersSame(g, h, x, hi - 1);
    }
  }

  /** h is g with each listed column of cols shifted at the first row of its list. */
  ghost predicate ShiftedAtHeads(g: Grid, h: Grid, m: map<int, seq<int>>, cols: seq<int>)
    requires IsGrid(g) && IsGrid(h) && Lists(m)
  {
    forall y, z :: InBounds(y, z) ==>
      h[y][z] == (if z in m && z in cols then ShiftDown(Column(g, z), m[z][0])[y] else g[y][z])
  }

  /** The change list of a pass over distinct columns shifts each listed column at its first row. */
  lemma {:induction false} PassShifts(g: Grid, m: map<int, seq<int>>, cols: seq<int>)
    requires IsGrid(g) && Lists(m) && Distinct(cols)
    ensures ShiftedAtHeads(g, ApplyChanges(g, DropChanges(Collect(g, m, cols).0)), m, cols)
    decreases |cols|
  {
    if cols != [] {
      var init, x := cols[..|cols| - 1], cols[|cols| - 1];
      assert cols == init + [x];
      CollectPops(g, m, init);
      if x !in m {
        PassShifts(g, m, init);
      } else {
        var g1 := ApplyChanges(g, DropChanges(ColumnDroppers(g, x, m[x][0])));
        ColumnPass(g, x, m[x][0]);
        forall i | 0 <= i < |init| ensures SameColumn(g, g1, init[i]) {
          assert init[i] != x;
        }
        CollectSameColumns(g, g1, m, init);
        PassShifts(g1, m, init);
        PassShiftsLast(g, g1, m, init, x);
      }
    }
  }

  /** The step of PassShifts for a last column x that is listed: its shift is written first. */
  lemma PassShiftsLast(g: Grid, g1: Grid, m: map<int, seq<int>>, init: seq<int>, x: int)
    requires IsGrid(g) && IsGrid(g1) && Lists(m) && Distinct(init + [x]) && x in m
    requires forall y, z :: InBounds(y, z) ==>
      g1[y][z] == (if z == x then ShiftDown(Column(g, x), m[x][0])[y] else g[y][z])
    requires g1 == ApplyChanges(g, DropChanges(ColumnDroppers(g, x, m[x][0])))
    requires x in Collect(g, m, init).1 && Collect(g, m, init).1[x] == m[x]
    requires Collect(g, m, init) == Collect(g1, m, init)
    requires ShiftedAtHeads(g1, ApplyChanges(g1, DropChanges(Collect(g1, m, init).0)), m, init)
    ensures ShiftedAtHeads(g, ApplyChanges(g, DropChanges(Collect(g, m, init + [x]).0)), m, init + [x])
  {
    var cols := init + [x];
    assert cols[..|cols| - 1] == init;
    var ds := Collect(g, m, init).0;
    var cd := ColumnDroppers(g, x, m[x][0]);
    assert Collect(g, m, cols).0 == ds + cd;
    DropChangesAppend(ds, cd);
    ApplyChangesAppend(g, DropChanges(cd), DropChanges(ds));
    var h := ApplyChanges(g1, DropChanges(ds));
    assert ApplyChanges(g, DropChanges(Collect(g, m, cols).0)) == h;
    HeadsExtend(g, g1, h, m, init, x);
  }

  /** Shifting column x of g, then the listed columns of init, shifts the listed columns of init + [x]. */
  lemma HeadsExtend(g: Grid, g1: Grid, h: Grid, m: map<int, seq<int>>, init: seq<int>, x: int)
    requires IsGrid(g) && IsGrid(g1) && IsGrid(h) && Lists(m) && x in m && x !in init
    requires forall y, z :: InBounds(y, z) ==>
      g1[y][z] == (if z == x then ShiftDown(Column(g, x), m[x][0])[y] else g[y][z])
    requires ShiftedAtHeads(g1, h, m, init)
    ensures ShiftedAtHeads(g, h, m, init + [x])
  {
    forall z | z in m && z in init ensures Column(g1, z) == Column(g, z) {
      assert z != x;
    }
  }

  // ----- the passes until the drop list is empty -----

  /** The number of rows the drop list still holds for column x. */
  function Count(m: map<int, seq<int>>, x: int): nat {
    if x in m then |m[x]| else 0
  }

  /** The number of rows the drop list still holds in columns 0 .. k - 1. */
  function Pending(m: map<int, seq<int>>, k: int): nat
    decreases k
  {
    if k <= 0 then 0 else Pending(m, k - 1) + Count(m, k - 1)
  }

  lemma {:induction false} PendingShrinks(m: map<int, seq<int>>, m': map<int, seq<int>>, k: int, w: int)
    requires forall x :: 0 <= x < k ==> Count(m', x) <= Count(m, x)
    requires 0 <= w < k && Count(m', w) < Count(m, w)
    ensures Pending(m', k) < Pending(m, k)
    decreases k
  {
    if w < k - 1 {
      PendingShrinks(m, m', k - 1, w);
    } else {
      PendingBounded(m, m', k - 1);
    }
  }

  lemma {:induction false} PendingBounded(m: map<int, seq<int>>, m': map<int, seq<int>>, k: int)
    requires forall x :: 0 <= x < k ==> Count(m', x) <= Count(m, x)
    ensures Pending(m', k) <= Pending(m, k)
    decreases k
  {
    if k > 0 {
      PendingBounded(m, m', k - 1);
    }
  }

  /** The columns of cols hold every key of the drop list and none twice. */
  predicate Covers(m: map<int, seq<int>>, cols: seq<int>) {
    Distinct(cols) && forall x :: x in m ==> x in cols
  }

  /** A pass over a nonempty drop list leaves fewer rows pending, and still covered by cols. */
  lemma PassShrinks(g: Grid, m: map<int, seq<int>>, cols: seq<int>)
    requires IsGrid(g) && Lists(m) && Covers(m, cols) && |m| != 0
    ensures Covers(Collect(g, m, cols).1, cols)
    ensures Pending(Collect(g, m, cols).1, Cols) < Pending(m, Cols)
  {
    CollectPops(g, m, cols);
    var m' := Collect(g, m, cols).1;
    if forall x :: x !in m {
      NoKeys(m);
    }
    var w: int :| w in m;
    PendingShrinks(m, m', Cols, w);
  }

  /** A drop list without keys is empty. */
  lemma NoKeys(m: map<int, seq<int>>)
    requires forall x :: x !in m
    ensures |m| == 0
  {
    assert forall x :: x in m.Keys <==> x in {};
    assert m.Keys == {};
  }

  /**
   * The passes of completion_drop until the drop list is empty: the field
   * after them and the cells beans were dropped into, in order.
   */
  function Cascade(g: Grid, m: map<int, seq<int>>, cols: seq<int>): (r: (Grid, seq<Cell>))
    requires IsGrid(g) && Legal(g) && Lists(m) && Covers(m, cols)
    ensures IsGrid(r.0) && Legal(r.0)
    ensures forall i :: 0 <= i < |r.1| ==> InBounds(r.1[i].0, r.1[i].1)
    decreases Pending(m, Cols)
  {
    if |m| == 0 then (g, [])
    else
      var (ds, m') := Collect(g, m, cols);
      PassShrinks(g, m, cols);
      PassLegal(g, m, cols);
      var (h, dropped) := Cascade(ApplyChanges(g, DropChanges(ds)), m', cols);
      (h, DroppedCells(ds) + dropped)
  }

  /** One pass of the cascade: the first pass's moves, then the cascade from the grid it leaves. */
  lemma CascadeUnfold(g: Grid, m: map<int, seq<int>>, cols: seq<int>, before: seq<Cell>)
    requires IsGrid(g) && Legal(g) && Lists(m) && Covers(m, cols) && |m| != 0
    ensures var (ds, m') := Collect(g, m, cols);
      Covers(m', cols) && Legal(ApplyChanges(g, DropChanges(ds))) &&
      Cascade(g, m, cols).0 == Cascade(ApplyChanges(g, DropChanges(ds)), m', cols).0 &&
      before + Cascade(g, m, cols).1 ==
        (before + DroppedCells(ds)) + Cascade(ApplyChanges(g, DropChanges(ds)), m', cols).1
  {
    var pass := Collect(g, m, cols);
    PassShrinks(g, m, cols);
    PassLegal(g, m, cols);
    var r := Cascade(ApplyChanges(g, DropChanges(pass.0)), pass.1, cols);
    assert Cascade(g, m, cols) == (r.0, DroppedCells(pass.0) + r.1);
    CellsAssoc(before, DroppedCells(pass.0), r.1);
  }

  /** Concatenation of cell lists is associative (kept apart to keep the cascade proofs small). */
  lemma CellsAssoc(a: seq<Cell>, b: seq<Cell>, c: seq<Cell>)
    ensures a + (b + c) == (a + b) + c
  {
  }

  /** A pass over a legal field writes only legal values, so the field stays legal. */
  lemma PassLegal(g: Grid, m: map<int, seq<int>>, cols: seq<int>)
    requires IsGrid(g) && Legal(g) && Lists(m)
    ensures Legal(ApplyChanges(g, DropChanges(Collect(g, m, cols).0)))
  {
    var ds := Collect(g, m, cols).0;
    DropChangesLegal(ds);
    ApplyChangesLegal(g, DropChanges(ds));
  }

  /** Each column of the drop list collapsed at its rows in list order; the other columns as in g. */
  function CollapseColumns(g: Grid, m: map<int, seq<int>>): (h: Grid)
    requires IsGrid(g) && Lists(m)
    ensures IsGrid(h)
  {
    seq(Rows, y requires 0 <= y < Rows =>
      seq(Cols, x requires 0 <= x < Cols =>
        if x in m then Collapse(Column(g, x), m[x])[y] else g[y][x]))
  }

  /**
   * The passes collapse every column of the drop list at its rows, in list
   * order, and leave the other columns alone.
   */
  lemma {:induction false} CascadeCollapses(g: Grid, m: map<int, seq<int>>, cols: seq<int>)
    requires IsGrid(g) && Legal(g) && Lists(m) && Covers(m, cols)
    ensures Cascade(g, m, cols).0 == CollapseColumns(g, m)
    decreases Pending(m, Cols)
  {
    if |m| == 0 {
      assert m == map[];
      GridExt(Cascade(g, m, cols).0, CollapseColumns(g, m));
    } else {
      var (ds, m') := Collect(g, m, cols);
      PassShrinks(g, m, cols);
      PassLegal(g, m, cols);
      var g' := ApplyChanges(g, DropChanges(ds));
      PassShifts(g, m, cols);
      CollectPops(g, m, cols);
      CascadeCollapses(g', m', cols);
      CollapseStep(g, g', m, m');
      GridExt(Cascade(g, m, cols).0, CollapseColumns(g, m));
    }
  }

  /** Collapsing the rest of each list after shifting at its head is collapsing the whole list. */
  lemma CollapseStep(g: Grid, g': Grid, m: map<int, seq<int>>, m': map<int, seq<int>>)
    requires IsGrid(g) && IsGrid(g') && Lists(m) && Lists(m')
    requires forall y, z :: InBounds(y, z) ==>
      g'[y][z] == (if z in m then ShiftDown(Column(g, z), m[z][0])[y] else g[y][z])
    requires forall x :: x in m' <==> x in m && |m[x]| > 1
    requires forall x :: x in m' ==> m'[x] == m[x][1..]
    ensures forall y, z :: InBounds(y, z) ==> CollapseColumns(g', m')[y][z] == CollapseColumns(g, m)[y][z]
  {
    forall y, z | InBounds(y, z)
      ensures CollapseColumns(g', m')[y][z] == CollapseColumns(g, m)[y][z]
    {
      if z in m {
        var col := Column(g, z);
        assert Column(g', z) == ShiftDown(col, m[z][0]);
        assert m[z] == [m[z][0]] + m[z][1..];
        CollapseCons(col, m[z][0], m[z][1..]);
        if z !in m' {
          assert m[z][1..] == [];
        }
      }
    }
  }
}
