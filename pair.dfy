/**
 * The rules of the falling pair, as functions of the field: where a move,
 * a rotation or a one-row drop would put the two beans, and whether the
 * field lets them go there. Bean 1 is the pivot; bean 2 sits next to it on
 * the side named by the orientation.
 */
module Pair {
  import opened Board

  datatype Option<T> = None | Some(value: T)

  datatype Bean = Bean(y: int, x: int, color: int)

  datatype Orientation = Above | Below | Left | Right

  /** Where bean 2 sits relative to bean 1, as (row offset, column offset). */
  function Offset(o: Orientation): (int, int) {
    match o
    case Above => (-1, 0)
    case Below => (1, 0)
    case Left => (0, -1)
    case Right => (0, 1)
  }

  /**
   * The orientation map of the source (direction 1 is clockwise, -1 counter-
   * clockwise): each entry turns bean 2's offset a quarter turn about bean 1.
   */
  function NextOrientation(o: Orientation, d: int): (r: Orientation)
    requires d == -1 || d == 1
    ensures Offset(r) == (d * Offset(o).1, -d * Offset(o).0)
  {
    match o
    case Above => if d == -1 then Left else Right
    case Below => if d == -1 then Right else Left
    case Left => if d == -1 then Below else Above
    case Right => if d == -1 then Above else Below
  }

  /** Bean 2 is where the orientation says, next to bean 1. */
  predicate Shaped(b1: Bean, b2: Bean, o: Orientation) {
    b2.y == b1.y + Offset(o).0 && b2.x == b1.x + Offset(o).1
  }

  /** The two beans touch along a side (some orientation holds). */
  predicate Adjacent(b1: Bean, b2: Bean) {
    (b1.y == b2.y && (b1.x - b2.x == 1 || b2.x - b1.x == 1)) ||
    (b1.x == b2.x && (b1.y - b2.y == 1 || b2.y - b1.y == 1))
  }

  predicate PairInBounds(b1: Bean, b2: Bean) {
    InBounds(b1.y, b1.x) && InBounds(b2.y, b2.x)
  }

  /** (y, x) is one of the pair's own cells. */
  predicate Own(b1: Bean, b2: Bean, y: int, x: int) {
    (y, x) == (b1.y, b1.x) || (y, x) == (b2.y, b2.x)
  }

  /** The pair may enter (y, x): it is on the field and empty or the pair's own. */
  predicate Free(g: Grid, b1: Bean, b2: Bean, y: int, x: int)
    requires IsGrid(g)
  {
    InBounds(y, x) && (g[y][x] <= 0 || Own(b1, b2, y, x))
  }

  function Max(a: int, b: int): int { if a < b then b else a }
  function Min(a: int, b: int): int { if a < b then a else b }

  // ----- move_update -----

  /** Clear both old cells, then write bean 2's new cell, then bean 1's. */
  function MoveChanges(b1: Bean, b2: Bean, y1: int, x1: int, y2: int, x2: int): seq<Change> {
    [Change(b1.y, b1.x, 0), Change(b2.y, b2.x, 0), Change(y2, x2, b2.color), Change(y1, x1, b1.color)]
  }

  function MoveUpdate(g: Grid, b1: Bean, b2: Bean, y1: int, x1: int, y2: int, x2: int): (r: Grid)
    requires IsGrid(g) && PairInBounds(b1, b2) && InBounds(y1, x1) && InBounds(y2, x2)
    ensures IsGrid(r)
  {
    var g1 := Write(g, b1.y, b1.x, 0);
    var g2 := Write(g1, b2.y, b2.x, 0);
    var g3 := Write(g2, y2, x2, b2.color);
    Write(g3, y1, x1, b1.color)
  }

  /** The move update is the four-entry change list applied in order. */
  lemma MoveUpdateIsChangeList(g: Grid, b1: Bean, b2: Bean, y1: int, x1: int, y2: int, x2: int)
    requires IsGrid(g) && PairInBounds(b1, b2) && InBounds(y1, x1) && InBounds(y2, x2)
    ensures ChangesInBounds(MoveChanges(b1, b2, y1, x1, y2, x2))
    ensures ApplyChanges(g, MoveChanges(b1, b2, y1, x1, y2, x2)) == MoveUpdate(g, b1, b2, y1, x1, y2, x2)
  {
    var cs := MoveChanges(b1, b2, y1, x1, y2, x2);
    assert cs[..1][..0] == [] && cs[..2][..1] == cs[..1] && cs[..3][..2] == cs[..2] && cs[..4] == cs;
    var g1 := Write(g, b1.y, b1.x, 0);
    var g2 := Write(g1, b2.y, b2.x, 0);
    var g3 := Write(g2, y2, x2, b2.color);
    assert ApplyChanges(g, cs[..1]) == g1;
    assert ApplyChanges(g, cs[..2]) == g2;
    assert ApplyChanges(g, cs[..3]) == g3;
  }

  /**
   * After a move update the new cells hold the beans' colours, the old cells
   * that are not reused are empty, and every other cell is as it was.
   */
  lemma MoveUpdateEffect(g: Grid, b1: Bean, b2: Bean, y1: int, x1: int, y2: int, x2: int)
    requires IsGrid(g) && PairInBounds(b1, b2) && InBounds(y1, x1) && InBounds(y2, x2)
    requires (y1, x1) != (y2, x2)
    ensures MoveUpdate(g, b1, b2, y1, x1, y2, x2)[y1][x1] == b1.color
    ensures MoveUpdate(g, b1, b2, y1, x1, y2, x2)[y2][x2] == b2.color
    ensures forall y, x :: InBounds(y, x) && (y, x) != (y1, x1) && (y, x) != (y2, x2) ==>
      MoveUpdate(g, b1, b2, y1, x1, y2, x2)[y][x] == (if Own(b1, b2, y, x) then 0 else g[y][x])
  {
    var g1 := Write(g, b1.y, b1.x, 0);
    var g2 := Write(g1, b2.y, b2.x, 0);
    var g3 := Write(g2, y2, x2, b2.color);
    var r := Write(g3, y1, x1, b1.color);
    assert r == MoveUpdate(g, b1, b2, y1, x1, y2, x2);
    forall y, x | InBounds(y, x) && (y, x) != (y1, x1) && (y, x) != (y2, x2)
      ensures r[y][x] == (if Own(b1, b2, y, x) then 0 else g[y][x])
    {
      assert r[y][x] == g3[y][x] == g2[y][x];
    }
  }

  /**
   * A bean at (y, x) whose cell below is neither an old nor a new cell of
   * the pair sees the same dropcheck after the move update as before it.
   */
  lemma MoveUpdateBlocked(g: Grid, b1: Bean, b2: Bean, y1: int, x1: int, y2: int, x2: int, y: int, x: int)
    requires IsGrid(g) && PairInBounds(b1, b2) && InBounds(y1, x1) && InBounds(y2, x2) && InBounds(y, x)
    requires (y + 1, x) != (y1, x1) && (y + 1, x) != (y2, x2) && !Own(b1, b2, y + 1, x)
    ensures Blocked(MoveUpdate(g, b1, b2, y1, x1, y2, x2), y, x) <==> Blocked(g, y, x)
  {
  }

  /**
   * Two successive move updates of the same pair are one move update from
   * the first position to the last, provided the intermediate cells that
   * the pair did not start on were empty.
   */
  lemma MoveUpdateCompose(g: Grid, b1: Bean, b2: Bean, y1: int, x1: int, y2: int, x2: int,
                          z1: int, w1: int, z2: int, w2: int)
    requires IsGrid(g) && PairInBounds(b1, b2) && InBounds(y1, x1) && InBounds(y2, x2)
    requires InBounds(z1, w1) && InBounds(z2, w2)
    requires (y1, x1) != (y2, x2) && (z1, w1) != (z2, w2)
    requires Own(b1, b2, y1, x1) || g[y1][x1] == 0
    requires Own(b1, b2, y2, x2) || g[y2][x2] == 0
    ensures MoveUpdate(MoveUpdate(g, b1, b2, y1, x1, y2, x2),
                       Bean(y1, x1, b1.color), Bean(y2, x2, b2.color), z1, w1, z2, w2)
            == MoveUpdate(g, b1, b2, z1, w1, z2, w2)
  {
    var mid := MoveUpdate(g, b1, b2, y1, x1, y2, x2);
    var c1, c2 := Bean(y1, x1, b1.color), Bean(y2, x2, b2.color);
    var lhs := MoveUpdate(mid, c1, c2, z1, w1, z2, w2);
    var rhs := MoveUpdate(g, b1, b2, z1, w1, z2, w2);
    MoveUpdateEffect(g, b1, b2, y1, x1, y2, x2);
    MoveUpdateEffect(mid, c1, c2, z1, w1, z2, w2);
    MoveUpdateEffect(g, b1, b2, z1, w1, z2, w2);
    GridExt(lhs, rhs);
  }


  // ----- move -----

  /** The leading column of a same-row pair moving by d: the larger column for d = 1, the smaller for d = -1. */
  function Leading(d: int, x1: int, x2: int): (x: int)
    requires d == -1 || d == 1
    ensures x == x1 || x == x2
    ensures d == 1 ==> x == Max(x1, x2)
    ensures d == -1 ==> x == Min(x1, x2)
  {
    d * Max(d * x1, d * x2)
  }

  /**
   * A horizontal move by d: both column targets must be on the field; a
   * same-row pair checks only its leading cell, otherwise both targets are
   * checked.
   */
  function TryMove(g: Grid, b1: Bean, b2: Bean, d: int): (r: Option<(Bean, Bean)>)
    requires IsGrid(g) && PairInBounds(b1, b2) && (d == -1 || d == 1)
    ensures r.Some? ==> r.value == (Bean(b1.y, b1.x + d, b1.color), Bean(b2.y, b2.x + d, b2.color))
    ensures r.Some? ==> PairInBounds(r.value.0, r.value.1)
    ensures Adjacent(b1, b2) ==>
      (r.Some? <==> Free(g, b1, b2, b1.y, b1.x + d) && Free(g, b1, b2, b2.y, b2.x + d))
  {
    var y2, x2, y1, x1 := b2.y, b2.x + d, b1.y, b1.x + d;
    if Min(x1, x2) < 0 then None
    else if Max(x1, x2) > 5 then None
    else if y1 == y2 then
      var x := Leading(d, x1, x2);
      if g[y1][x] > 0 then None else Some((Bean(y1, x1, b1.color), Bean(y2, x2, b2.color)))
    else if g[y1][x1] > 0 then None
    else if g[y2][x2] > 0 then None
    else Some((Bean(y1, x1, b1.color), Bean(y2, x2, b2.color)))
  }

  // ----- hard_drop -----

  /**
   * A drop by one row: both row targets must be above the floor; a pair in
   * one column checks only its lower target, otherwise both are checked.
   */
  function TryHardDrop(g: Grid, b1: Bean, b2: Bean): (r: Option<(Bean, Bean)>)
    requires IsGrid(g) && PairInBounds(b1, b2)
    ensures r.Some? ==> r.value == (Bean(b1.y + 1, b1.x, b1.color), Bean(b2.y + 1, b2.x, b2.color))
    ensures r.Some? ==> PairInBounds(r.value.0, r.value.1)
    ensures Adjacent(b1, b2) ==>
      (r.Some? <==> Free(g, b1, b2, b1.y + 1, b1.x) && Free(g, b1, b2, b2.y + 1, b2.x))
  {
    var y2, x2, y1, x1 := b2.y + 1, b2.x, b1.y + 1, b1.x;
    if Max(y1, y2) > 12 then None
    else if x1 == x2 then
      var y := Max(y1, y2);
      if g[y][x1] > 0 then None else Some((Bean(y1, x1, b1.color), Bean(y2, x2, b2.color)))
    else if g[y1][x1] > 0 || g[y2][x2] > 0 then None
    else Some((Bean(y1, x1, b1.color), Bean(y2, x2, b2.color)))
  }

  // ----- rotate -----

  /**
   * For a rotation in direction d: bean 2's target (y2, x2), and the kick
   * cell (y1m, x1m) bean 1 is pushed to when that target is blocked.
   */
  function RotateTargets(o: Orientation, b1: Bean, b2: Bean, d: int): (int, int, int, int) {
    match o
    case Above => (b2.y + 1, b2.x + d, b1.y, b1.x - d)
    case Below => (b2.y - 1, b2.x - d, b1.y, b1.x + d)
    case Left => (b2.y - d, b2.x + 1, b1.y + d, b1.x)
    case Right => (b2.y + d, b2.x - 1, b1.y - d, b1.x)
  }

  /**
   * A rotation: bean 2 goes to its target if that is on the field and
   * empty; otherwise bean 1 is kicked away and bean 2 takes bean 1's old
   * cell, which fails when the kick cell is off the field or occupied.
   * The result keeps the pair's shape under the new orientation.
   */
  function TryRotate(g: Grid, b1: Bean, b2: Bean, o: Orientation, d: int): (r: Option<(Bean, Bean)>)
    requires IsGrid(g) && PairInBounds(b1, b2) && (d == -1 || d == 1)
    ensures r.Some? && Shaped(b1, b2, o) ==>
      Shaped(r.value.0, r.value.1, NextOrientation(o, d))
    ensures r.Some? ==>
      PairInBounds(r.value.0, r.value.1) &&
      r.value.0.color == b1.color && r.value.1.color == b2.color &&
      Free(g, b1, b2, r.value.0.y, r.value.0.x) && Free(g, b1, b2, r.value.1.y, r.value.1.x)
    ensures r.None? <==>
      var (y2, x2, y1m, x1m) := RotateTargets(o, b1, b2, d);
      !(InBounds(y2, x2) && g[y2][x2] <= 0) && !(InBounds(y1m, x1m) && g[y1m][x1m] <= 0)
    ensures r.Some? && Shaped(b1, b2, o) ==>
      var off := Offset(NextOrientation(o, d));
      var free := InBounds(b1.y + off.0, b1.x + off.1) && g[b1.y + off.0][b1.x + off.1] <= 0;
      (free ==> r.value == (b1, Bean(b1.y + off.0, b1.x + off.1, b2.color))) &&
      (!free ==> r.value == (Bean(b1.y - off.0, b1.x - off.1, b1.color), Bean(b1.y, b1.x, b2.color)))
  {
    RotateTargetsShape(o, b1, b2, d);
    var (y2, x2, y1m, x1m) := RotateTargets(o, b1, b2, d);
    if !InBounds(y2, x2) || g[y2][x2] > 0 then
      if !InBounds(y1m, x1m) then None
      else if g[y1m][x1m] > 0 then None
      else Some((Bean(y1m, x1m, b1.color), Bean(b1.y, b1.x, b2.color)))
    else Some((b1, Bean(y2, x2, b2.color)))
  }

  /**
   * For a pair in orientation o, bean 2's target lies at the new
   * orientation's offset from bean 1, and bean 1's old cell lies at that
   * offset from the kick cell.
   */
  lemma RotateTargetsShape(o: Orientation, b1: Bean, b2: Bean, d: int)
    requires d == -1 || d == 1
    ensures Shaped(b1, b2, o) ==>
      var (y2, x2, y1m, x1m) := RotateTargets(o, b1, b2, d);
      var off := Offset(NextOrientation(o, d));
      y2 == b1.y + off.0 && x2 == b1.x + off.1 && b1.y == y1m + off.0 && b1.x == x1m + off.1
  {
  }

  /**
   * The rotation as the source writes it, with no bounds check on the kick
   * cell: a numpy index of -n..-1 wraps to the far row or column, and one
   * beyond the field raises IndexError.
   */
  datatype RotateOutcome = Refused | Rotated(b1: Bean, b2: Bean) | IndexError

  function NumpyIndex(i: int, n: int): Option<int> {
    if 0 <= i < n then Some(i) else if -n <= i < 0 then Some(i + n) else None
  }

  function RotateAsWritten(g: Grid, b1: Bean, b2: Bean, o: Orientation, d: int): (r: RotateOutcome)
    requires IsGrid(g) && PairInBounds(b1, b2) && (d == -1 || d == 1)
    ensures r.IndexError? ==>
      var (y2, x2, y1m, x1m) := RotateTargets(o, b1, b2, d);
      !InBounds(y1m, x1m) && (NumpyIndex(y1m, Rows).None? || NumpyIndex(x1m, Cols).None?)
  {
    var (y2, x2, y1m, x1m) := RotateTargets(o, b1, b2, d);
    if !InBounds(y2, x2) || g[y2][x2] > 0 then
      match (NumpyIndex(y1m, Rows), NumpyIndex(x1m, Cols))
      case (Some(ry), Some(rx)) =>
        if g[ry][rx] > 0 then Refused
        else Rotated(Bean(y1m, x1m, b1.color), Bean(b1.y, b1.x, b2.color))
      case _ => IndexError
    else Rotated(b1, Bean(y2, x2, b2.color))
  }

  /** Whenever the kick cell is on the field, the source and the checked rotation agree. */
  lemma RotateAsWrittenAgrees(g: Grid, b1: Bean, b2: Bean, o: Orientation, d: int)
    requires IsGrid(g) && PairInBounds(b1, b2) && (d == -1 || d == 1)
    requires var t := RotateTargets(o, b1, b2, d); InBounds(t.2, t.3)
    ensures TryRotate(g, b1, b2, o, d).None? <==> RotateAsWritten(g, b1, b2, o, d).Refused?
    ensures TryRotate(g, b1, b2, o, d).Some? ==>
      RotateAsWritten(g, b1, b2, o, d) ==
        Rotated(TryRotate(g, b1, b2, o, d).value.0, TryRotate(g, b1, b2, o, d).value.1)
  {
  }

  /**
   * A pair standing upright in column 0 on the floor, with a bean at (12, 1):
   * rotating clockwise kicks bean 1 to column -1, which the source accepts
   * (the cell it reads and writes is (12, 5)) and leaves bean 1 off the field;
   * the checked rotation refuses.
   */
  lemma KickWrapsAround()
    ensures
      var g := EmptyGrid()[12 := EmptyGrid()[12][1 := 2]];
      var b1, b2 := Bean(12, 0, 3), Bean(11, 0, 4);
      IsGrid(g) && Shaped(b1, b2, Above) &&
      RotateAsWritten(g, b1, b2, Above, 1) == Rotated(Bean(12, -1, 3), Bean(12, 0, 4)) &&
      !InBounds(12, -1) &&
      TryRotate(g, b1, b2, Above, 1) == None
  {
    var g := EmptyGrid()[12 := EmptyGrid()[12][1 := 2]];
    assert g[12][1] == 2 && g[12][5] == 0;
  }

  // ----- the pair on the field -----

  /**
   * The pair is on the field in its orientation, its two cells hold its
   * colours, and both colours are real colours.
   */
  predicate Placed(g: Grid, b1: Bean, b2: Bean, o: Orientation) {
    IsGrid(g) && PairInBounds(b1, b2) && Shaped(b1, b2, o) &&
    g[b1.y][b1.x] == b1.color && g[b2.y][b2.x] == b2.color &&
    2 <= b1.color <= 6 && 2 <= b2.color <= 6
  }

  /** A move update to the cells the pair already holds changes nothing. */
  lemma MoveUpdateStay(g: Grid, b1: Bean, b2: Bean, o: Orientation)
    requires Placed(g, b1, b2, o)
    ensures MoveUpdate(g, b1, b2, b1.y, b1.x, b2.y, b2.x) == g
  {
    MoveUpdateEffect(g, b1, b2, b1.y, b1.x, b2.y, b2.x);
    GridExt(MoveUpdate(g, b1, b2, b1.y, b1.x, b2.y, b2.x), g);
  }

  /** A move update of a placed pair keeps every cell legal. */
  lemma MoveUpdateLegal(g: Grid, b1: Bean, b2: Bean, y1: int, x1: int, y2: int, x2: int)
    requires IsGrid(g) && Legal(g) && PairInBounds(b1, b2) && InBounds(y1, x1) && InBounds(y2, x2)
    requires 0 <= b1.color <= 6 && 0 <= b2.color <= 6
    ensures Legal(MoveUpdate(g, b1, b2, y1, x1, y2, x2))
  {
    ApplyChangesLegal(g, MoveChanges(b1, b2, y1, x1, y2, x2));
  }

  /** The field, the pair and its orientation after move(d): unchanged when the move fails. */
  function AfterMove(g: Grid, b1: Bean, b2: Bean, d: int): (Grid, Bean, Bean)
    requires IsGrid(g) && PairInBounds(b1, b2) && (d == -1 || d == 1)
  {
    match TryMove(g, b1, b2, d)
    case None => (g, b1, b2)
    case Some((n1, n2)) => (MoveUpdate(g, b1, b2, n1.y, n1.x, n2.y, n2.x), n1, n2)
  }

  function AfterHardDrop(g: Grid, b1: Bean, b2: Bean): (Grid, Bean, Bean)
    requires IsGrid(g) && PairInBounds(b1, b2)
  {
    match TryHardDrop(g, b1, b2)
    case None => (g, b1, b2)
    case Some((n1, n2)) => (MoveUpdate(g, b1, b2, n1.y, n1.x, n2.y, n2.x), n1, n2)
  }

  function AfterRotate(g: Grid, b1: Bean, b2: Bean, o: Orientation, d: int): (Grid, Bean, Bean, Orientation)
    requires IsGrid(g) && PairInBounds(b1, b2) && (d == -1 || d == 1)
  {
    match TryRotate(g, b1, b2, o, d)
    case None => (g, b1, b2, o)
    case Some((n1, n2)) => (MoveUpdate(g, b1, b2, n1.y, n1.x, n2.y, n2.x), n1, n2, NextOrientation(o, d))
  }

  /** A move, successful or not, leaves the pair placed on a legal field. */
  lemma MoveKeepsPlaced(g: Grid, b1: Bean, b2: Bean, o: Orientation, d: int)
    requires Placed(g, b1, b2, o) && Legal(g) && (d == -1 || d == 1)
    ensures var (g', n1, n2) := AfterMove(g, b1, b2, d);
      Placed(g', n1, n2, o) && Legal(g')
  {
    match TryMove(g, b1, b2, d)
    case None =>
    case Some((n1, n2)) =>
      MoveUpdateEffect(g, b1, b2, n1.y, n1.x, n2.y, n2.x);
      MoveUpdateLegal(g, b1, b2, n1.y, n1.x, n2.y, n2.x);
  }

  /** A one-row drop, successful or not, leaves the pair placed on a legal field. */
  lemma HardDropKeepsPlaced(g: Grid, b1: Bean, b2: Bean, o: Orientation)
    requires Placed(g, b1, b2, o) && Legal(g)
    ensures var (g', n1, n2) := AfterHardDrop(g, b1, b2);
      Placed(g', n1, n2, o) && Legal(g')
  {
    match TryHardDrop(g, b1, b2)
    case None =>
    case Some((n1, n2)) =>
      MoveUpdateEffect(g, b1, b2, n1.y, n1.x, n2.y, n2.x);
      MoveUpdateLegal(g, b1, b2, n1.y, n1.x, n2.y, n2.x);
  }

  /** A rotation, successful or not, leaves the pair placed in its new orientation. */
  lemma RotateKeepsPlaced(g: Grid, b1: Bean, b2: Bean, o: Orientation, d: int)
    requires Placed(g, b1, b2, o) && Legal(g) && (d == -1 || d == 1)
    ensures var (g', n1, n2, o') := AfterRotate(g, b1, b2, o, d);
      Placed(g', n1, n2, o') && Legal(g')
  {
    match TryRotate(g, b1, b2, o, d)
    case None =>
    case Some((n1, n2)) =>
      MoveUpdateEffect(g, b1, b2, n1.y, n1.x, n2.y, n2.x);
      MoveUpdateLegal(g, b1, b2, n1.y, n1.x, n2.y, n2.x);
  }

  // ----- next_bean and movement -----

  /** The two writes of next_bean: the top bean at (0, 3), then the pivot at (1, 3). */
  function Spawn(g: Grid, c2: int, c1: int): (r: Grid)
    requires IsGrid(g)
    ensures IsGrid(r)
  {
    ApplyChanges(g, [Change(0, 3, c2), Change(1, 3, c1)])
  }

  /**
   * A new pair spawns upright in column 3, bean 2 on row 0 above bean 1 on
   * row 1, whatever was there before; every other cell is kept.
   */
  lemma SpawnPlaced(g: Grid, c2: int, c1: int)
    requires IsGrid(g) && Legal(g) && 2 <= c2 <= 6 && 2 <= c1 <= 6
    ensures Placed(Spawn(g, c2, c1), Bean(1, 3, c1), Bean(0, 3, c2), Above)
    ensures Legal(Spawn(g, c2, c1))
    ensures forall y, x :: InBounds(y, x) && !(x == 3 && y <= 1) ==> Spawn(g, c2, c1)[y][x] == g[y][x]
  {
    var cs := [Change(0, 3, c2), Change(1, 3, c1)];
    ApplyChangesLastWins(g, cs, 0);
    ApplyChangesLastWins(g, cs, 1);
    ApplyChangesLegal(g, cs);
    forall y, x | InBounds(y, x) && !(x == 3 && y <= 1) ensures ApplyChanges(g, cs)[y][x] == g[y][x] {
      ApplyChangesUntouched(g, cs, y, x);
    }
  }

  /**
   * The effect of one movement phase for action code a: 1 and 2 move left
   * and right, 3 and 4 rotate counter-clockwise and clockwise, 5 drops one
   * row; the last component is the points scored. Any other code changes nothing.
   */
  function Act(g: Grid, b1: Bean, b2: Bean, o: Orientation, a: int): (r: (Grid, Bean, Bean, Orientation, int))
    requires IsGrid(g) && PairInBounds(b1, b2)
    ensures !(1 <= a <= 5) ==> r == (g, b1, b2, o, 0)
    ensures r.4 == (if a == 5 && TryHardDrop(g, b1, b2).Some? then 1 else 0)
  {
    if a == 1 then var (g', n1, n2) := AfterMove(g, b1, b2, -1); (g', n1, n2, o, 0)
    else if a == 2 then var (g', n1, n2) := AfterMove(g, b1, b2, 1); (g', n1, n2, o, 0)
    else if a == 3 then var (g', n1, n2, o') := AfterRotate(g, b1, b2, o, -1); (g', n1, n2, o', 0)
    else if a == 4 then var (g', n1, n2, o') := AfterRotate(g, b1, b2, o, 1); (g', n1, n2, o', 0)
    else if a == 5 then
      var (g', n1, n2) := AfterHardDrop(g, b1, b2);
      (g', n1, n2, o, if TryHardDrop(g, b1, b2).Some? then 1 else 0)
    else (g, b1, b2, o, 0)
  }

  /** Whatever the action, the pair stays placed on a legal field. */
  lemma ActKeepsPlaced(g: Grid, b1: Bean, b2: Bean, o: Orientation, a: int)
    requires Placed(g, b1, b2, o) && Legal(g)
    ensures var (g', n1, n2, o', _) := Act(g, b1, b2, o, a); Placed(g', n1, n2, o') && Legal(g')
  {
    if a == 1 { MoveKeepsPlaced(g, b1, b2, o, -1); }
    else if a == 2 { MoveKeepsPlaced(g, b1, b2, o, 1); }
    else if a == 3 { RotateKeepsPlaced(g, b1, b2, o, -1); }
    else if a == 4 { RotateKeepsPlaced(g, b1, b2, o, 1); }
    else if a == 5 { HardDropKeepsPlaced(g, b1, b2, o); }
  }

  // ----- dropcheck and postdrop -----

  /** dropcheck: the bean at (y, x) cannot fall: it is on the floor or rests on a bean. */
  predicate Blocked(g: Grid, y: int, x: int)
    requires IsGrid(g) && InBounds(y, x)
  {
    y + 1 > 12 || g[y + 1][x] > 0
  }

  /**
   * The row a bean starting at (y, x) comes to rest on when it falls one
   * row at a time until dropcheck holds: it passes only empty cells and
   * ends blocked.
   */
  function LandingRow(g: Grid, y: int, x: int): (r: int)
    requires IsGrid(g) && InBounds(y, x)
    ensures y <= r < Rows && Blocked(g, r, x)
    decreases Rows - y
  {
    if Blocked(g, y, x) then y else LandingRow(g, y + 1, x)
  }

  /** On its way to the landing row a falling bean passes only empty cells. */
  lemma {:induction false} LandingRowPassesEmpty(g: Grid, y: int, x: int)
    requires IsGrid(g) && InBounds(y, x)
    ensures forall k :: y < k <= LandingRow(g, y, x) ==> g[k][x] <= 0
    decreases Rows - y
  {
    if !Blocked(g, y, x) {
      LandingRowPassesEmpty(g, y + 1, x);
    }
  }

  /**
   * The row where postdrop leaves bean b when the other bean of the pair is
   * `other`: a bean directly above its partner in the same column is held by
   * the partner's old cell on the first pass and stays; otherwise it falls
   * to its landing row.
   */
  function SettledRow(g: Grid, b: Bean, other: Bean): (r: int)
    requires IsGrid(g) && InBounds(b.y, b.x)
    ensures b.y <= r < Rows
  {
    if b.x == other.x && b.y < other.y then b.y else LandingRow(g, b.y, b.x)
  }
}
