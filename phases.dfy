/**
 * The whole state of the bean machine as a value, the invariant every phase
 * keeps, and the state each phase handler produces from the state before it.
 * The handlers of the class BeanMachine are proved to change the object
 * exactly as these functions say.
 */
module Phases {
  import opened Board
  import opened Pair
  import opened Gravity
  import opened Flood
  import opened Passes

  /** Every cell of the list lies on the field. */
  predicate CellsInBounds(cs: seq<Cell>) {
    forall i :: 0 <= i < |cs| ==> InBounds(cs[i].0, cs[i].1)
  }

  /**
   * The drop list is well formed for field g: its keys are exactly the
   * columns of the key order, listed once, and each key holds a non-empty
   * list of distinct rows whose cells in that column are empty.
   */
  predicate DropListOk(g: Grid, droplist: map<int, seq<int>>, order: seq<int>)
    requires IsGrid(g)
  {
    Distinct(order) && (forall x :: x in order ==> x in droplist) &&
    (forall x :: x in droplist ==>
      x in order && 0 <= x < Cols && |droplist[x]| > 0 && Distinct(droplist[x]) &&
      forall i :: 0 <= i < |droplist[x]| ==> 0 <= droplist[x][i] < Rows && g[droplist[x][i]][x] == 0)
  }

  /** The attributes of the machine (the snapshot array is seen as the grid snapCells). */
  datatype State = State(
    cells: Grid, snapCells: Grid,
    score: int, combo: int, gameover: bool, phase: int, timesteps: int, action: int,
    next1: int, next2: int, bean1: Bean, bean2: Bean, orientation: Orientation,
    eliminate: seq<Cell>, droplist: map<int, seq<int>>, dropOrder: seq<int>,
    droppedYX: seq<Cell>, count: int, coords: seq<Cell>)

  /**
   * What holds between steps: a legal field, the phase in 0..8, score and
   * combo non-negative, the next colours real colours, the pair placed while
   * it is controlled (phases 2 to 5), the frame counter below framesPerDrop
   * while the pair falls, no drop possible once it has settled (phase 5),
   * and the lists the later phases read well formed.
   */
  predicate Inv(s: State, framesPerDrop: int) {
    IsGrid(s.cells) && Legal(s.cells) &&
    0 <= s.phase <= 8 && s.score >= 0 && s.combo >= 0 &&
    2 <= s.next1 <= 6 && 2 <= s.next2 <= 6 &&
    (2 <= s.phase <= 5 ==> Placed(s.cells, s.bean1, s.bean2, s.orientation)) &&
    (2 <= s.phase <= 4 && framesPerDrop >= 1 ==> 0 <= s.timesteps < framesPerDrop) &&
    (s.phase == 5 ==> TryHardDrop(s.cells, s.bean1, s.bean2).None?) &&
    (6 <= s.phase <= 8 ==> CellsInBounds(s.droppedYX)) &&
    (s.phase == 7 ==> CellsInBounds(s.eliminate) && Distinct(s.eliminate)) &&
    (s.phase == 8 ==> DropListOk(s.cells, s.droplist, s.dropOrder))
  }

  /**
   * The phase cycle: each handler hands over to the next phase, except that
   * the timer goes back to movement until the drop frame, drop goes back to
   * movement while the pair can still fall, and completion_drop goes back to
   * completion_check after a collapse and on to check_loss otherwise.
   */
  predicate Follows(p: int, q: int) {
    if p == 3 then q == 2 || q == 4
    else if p == 4 then q == 2 || q == 5
    else if p == 8 then q == 0 || q == 6
    else 0 <= p <= 7 && q == p + 1
  }

  // ----- reset -----

  /**
   * reset: an empty field, score and combo 0, the game on again at next_bean
   * with two new colours; the pair, the lists and the flood-fill state are
   * left as they were.
   */
  function ResetSpec(s: State, draw2: int, draw1: int): State {
    s.(cells := EmptyGrid(), score := 0, combo := 0, gameover := false,
       next2 := draw2, next1 := draw1, phase := 1, timesteps := 0, action := 0)
  }

  /** reset leads to a state that keeps the invariant from any state at all. */
  lemma ResetKeepsInv(s: State, framesPerDrop: int, draw2: int, draw1: int)
    requires 2 <= draw2 <= 6 && 2 <= draw1 <= 6
    ensures Inv(ResetSpec(s, draw2, draw1), framesPerDrop)
  {
  }

  // ----- check_loss -----

  /** Some cell of the top row holds a bean. */
  predicate TopRowOccupied(g: Grid)
    requires IsGrid(g)
  {
    exists x :: 0 <= x < Cols && g[0][x] != 0
  }

  /** check_loss: the combo restarts, the game ends if the top row is occupied, and next_bean follows. */
  function CheckLossSpec(s: State): State
    requires IsGrid(s.cells)
  {
    s.(combo := 0, gameover := s.gameover || TopRowOccupied(s.cells), phase := s.phase + 1)
  }

  lemma CheckLossKeepsInv(s: State, framesPerDrop: int)
    ensures Inv(s, framesPerDrop) && s.phase == 0 ==>
      Inv(CheckLossSpec(s), framesPerDrop) && CheckLossSpec(s).phase == 1
  {
  }

  // ----- next_bean -----

  /** next_bean: the next pair spawns upright in column 3 and two new colours are drawn. */
  function NextBeanSpec(s: State, draw2: int, draw1: int): State
    requires IsGrid(s.cells)
  {
    s.(cells := Spawn(s.cells, s.next2, s.next1),
       orientation := Above, bean2 := Bean(0, 3, s.next2), bean1 := Bean(1, 3, s.next1),
       next2 := draw2, next1 := draw1, timesteps := 0, phase := s.phase + 1)
  }

  lemma NextBeanKeepsInv(s: State, framesPerDrop: int, draw2: int, draw1: int)
    ensures Inv(s, framesPerDrop) && s.phase == 1 && 2 <= draw2 <= 6 && 2 <= draw1 <= 6 ==>
      Inv(NextBeanSpec(s, draw2, draw1), framesPerDrop)
  {
    if Inv(s, framesPerDrop) && s.phase == 1 && 2 <= draw2 <= 6 && 2 <= draw1 <= 6 {
      SpawnPlaced(s.cells, s.next2, s.next1);
    }
  }

  /**
   * next_bean writes its two cells whatever they held: a bean resting at
   * (1, 3) under an empty top row passes check_loss and is then replaced by
   * the new pivot, so it leaves the field.
   */
  lemma SpawnOverwrites()
    ensures
      var g := EmptyGrid()[1 := EmptyGrid()[1][3 := 5]];
      IsGrid(g) && !TopRowOccupied(g) && g[1][3] == 5 &&
      Spawn(g, 2, 3)[1][3] == 3 && Spawn(g, 2, 3)[0][3] == 2
  {
    var g := EmptyGrid()[1 := EmptyGrid()[1][3 := 5]];
    assert forall x :: 0 <= x < Cols ==> g[0][x] == 0;
    SpawnPlaced(g, 2, 3);
  }

  // ----- movement -----

  /** movement: the pending action is carried out and cleared, and the timer follows. */
  function MovementSpec(s: State): State
    requires IsGrid(s.cells) && PairInBounds(s.bean1, s.bean2)
  {
    var (g, n1, n2, o, points) := Act(s.cells, s.bean1, s.bean2, s.orientation, s.action);
    s.(cells := g, bean1 := n1, bean2 := n2, orientation := o, score := s.score + points,
       action := 0, phase := s.phase + 1)
  }

  lemma MovementKeepsInv(s: State, framesPerDrop: int)
    ensures Inv(s, framesPerDrop) && s.phase == 2 ==>
      Inv(MovementSpec(s), framesPerDrop)
  {
    if Inv(s, framesPerDrop) && s.phase == 2 {
      ActKeepsPlaced(s.cells, s.bean1, s.bean2, s.orientation, s.action);
    }
  }

  // ----- timer -----

  /** timer: one more frame; the frame that reaches framesPerDrop resets the counter and leads to drop. */
  function TimerSpec(s: State, framesPerDrop: int): State {
    if s.timesteps + 1 == framesPerDrop then s.(timesteps := 0, phase := s.phase + 1)
    else s.(timesteps := s.timesteps + 1, phase := s.phase - 1)
  }

  /**
   * Starting from a zeroed counter, the timer leads to drop on exactly the
   * framesPerDrop-th frame: the k-th frame before it sends the pair back to
   * movement with the counter at k.
   */
  lemma TimerFiresOnLastFrame(s: State, framesPerDrop: int, k: int)
    requires s.phase == 3 && 1 <= k <= framesPerDrop && s.timesteps == k - 1
    ensures TimerSpec(s, framesPerDrop).phase == (if k == framesPerDrop then 4 else 2)
    ensures TimerSpec(s, framesPerDrop).timesteps == (if k == framesPerDrop then 0 else k)
  {
  }

  lemma TimerKeepsInv(s: State, framesPerDrop: int)
    ensures Inv(s, framesPerDrop) && s.phase == 3 ==>
      Inv(TimerSpec(s, framesPerDrop), framesPerDrop)
  {
  }

  // ----- drop -----

  /** drop: a one-row drop that scores a point and returns to movement, or settling when it fails. */
  function DropSpec(s: State): State
    requires IsGrid(s.cells) && PairInBounds(s.bean1, s.bean2)
  {
    var (g, n1, n2) := AfterHardDrop(s.cells, s.bean1, s.bean2);
    var fell := TryHardDrop(s.cells, s.bean1, s.bean2).Some?;
    s.(cells := g, bean1 := n1, bean2 := n2, score := s.score + (if fell then 1 else 0),
       phase := if fell then 2 else s.phase + 1)
  }

  lemma DropKeepsInv(s: State, framesPerDrop: int)
    ensures Inv(s, framesPerDrop) && s.phase == 4 ==>
      Inv(DropSpec(s), framesPerDrop)
  {
    if Inv(s, framesPerDrop) && s.phase == 4 {
      HardDropKeepsPlaced(s.cells, s.bean1, s.bean2, s.orientation);
    }
  }

  // ----- postdrop -----

  /**
   * postdrop: each bean falls on its own to its settled row, both final
   * cells are recorded as dropped, and completion_check follows.
   */
  function PostdropSpec(s: State): State
    requires IsGrid(s.cells) && PairInBounds(s.bean1, s.bean2)
  {
    var b1, b2 := s.bean1, s.bean2;
    var y1, y2 := SettledRow(s.cells, b1, b2), SettledRow(s.cells, b2, b1);
    s.(cells := Pair.MoveUpdate(s.cells, b1, b2, y1, b1.x, y2, b2.x),
       bean1 := Bean(y1, b1.x, b1.color), bean2 := Bean(y2, b2.x, b2.color),
       droppedYX := [(y1, b1.x), (y2, b2.x)], phase := s.phase + 1)
  }

  lemma PostdropKeepsInv(s: State, framesPerDrop: int)
    ensures Inv(s, framesPerDrop) && s.phase == 5 ==>
      Inv(PostdropSpec(s), framesPerDrop)
  {
    if Inv(s, framesPerDrop) && s.phase == 5 {
      var b1, b2 := s.bean1, s.bean2;
      MoveUpdateLegal(s.cells, b1, b2, SettledRow(s.cells, b1, b2), b1.x, SettledRow(s.cells, b2, b1), b2.x);
    }
  }

  /**
   * One pass of postdrop's loop with the beans at rows y1 and y2 on the way
   * to their settled rows: on the field as it then is, dropcheck holds for a
   * bean exactly when it has reached its settled row; the beans never share
   * a cell, and a cell a bean has entered was empty before the pass began.
   */
  lemma PostdropStep(g: Grid, b1: Bean, b2: Bean, o: Orientation, y1: int, y2: int)
    requires IsGrid(g) && Legal(g) && Placed(g, b1, b2, o) && TryHardDrop(g, b1, b2).None?
    requires b1.y <= y1 <= SettledRow(g, b1, b2) && b2.y <= y2 <= SettledRow(g, b2, b1)
    ensures (y1, b1.x) != (y2, b2.x)
    ensures y1 == b1.y || g[y1][b1.x] == 0
    ensures y2 == b2.y || g[y2][b2.x] == 0
    ensures var cur := Pair.MoveUpdate(g, b1, b2, y1, b1.x, y2, b2.x);
      (Blocked(cur, y1, b1.x) <==> y1 == SettledRow(g, b1, b2)) &&
      (Blocked(cur, y2, b2.x) <==> y2 == SettledRow(g, b2, b1))
  {
    if b1.x == b2.x {
      assert y1 == b1.y && y2 == b2.y;
    } else {
      LandingRowPassesEmpty(g, b1.y, b1.x);
      LandingRowPassesEmpty(g, b2.y, b2.x);
    }
    PostdropCheckFirst(g, b1, b2, o, y1, y2);
    PostdropCheckSecond(g, b1, b2, o, y1, y2);
  }

  /** The first bean of a postdrop pass is blocked exactly at its settled row. */
  lemma PostdropCheckFirst(g: Grid, b1: Bean, b2: Bean, o: Orientation, y1: int, y2: int)
    requires IsGrid(g) && Legal(g) && Placed(g, b1, b2, o) && TryHardDrop(g, b1, b2).None?
    requires b1.y <= y1 <= SettledRow(g, b1, b2) && b2.y <= y2 <= SettledRow(g, b2, b1)
    ensures (y1, b1.x) != (y2, b2.x)
    ensures Blocked(Pair.MoveUpdate(g, b1, b2, y1, b1.x, y2, b2.x), y1, b1.x) <==> y1 == SettledRow(g, b1, b2)
  {
    if b1.x == b2.x {
      PostdropStacked(g, b1, b2, o, y1, y2);
    } else {
      PostdropApartFirst(g, b1, b2, y1, y2);
    }
  }

  /** A pair stacked in one column that cannot drop stays where it is, each bean blocked at its settled row. */
  lemma PostdropStacked(g: Grid, b1: Bean, b2: Bean, o: Orientation, y1: int, y2: int)
    requires IsGrid(g) && Legal(g) && Placed(g, b1, b2, o) && TryHardDrop(g, b1, b2).None?
    requires b1.y <= y1 <= SettledRow(g, b1, b2) && b2.y <= y2 <= SettledRow(g, b2, b1)
    requires b1.x == b2.x
    ensures y1 == b1.y && y2 == b2.y && Pair.MoveUpdate(g, b1, b2, y1, b1.x, y2, b2.x) == g
    ensures Blocked(g, y1, b1.x) <==> y1 == SettledRow(g, b1, b2)
    ensures Blocked(g, y2, b2.x) <==> y2 == SettledRow(g, b2, b1)
  {
    assert y1 == b1.y && y2 == b2.y;
    MoveUpdateStay(g, b1, b2, o);
  }

  /** With the beans in two columns, the first one is blocked exactly at its landing row. */
  lemma PostdropApartFirst(g: Grid, b1: Bean, b2: Bean, y1: int, y2: int)
    requires IsGrid(g) && PairInBounds(b1, b2) && b1.x != b2.x
    requires b1.y <= y1 <= LandingRow(g, b1.y, b1.x) && InBounds(y2, b2.x)
    ensures Blocked(Pair.MoveUpdate(g, b1, b2, y1, b1.x, y2, b2.x), y1, b1.x) <==> y1 == LandingRow(g, b1.y, b1.x)
  {
    MoveUpdateBlocked(g, b1, b2, y1, b1.x, y2, b2.x, y1, b1.x);
    BlockedAtLanding(g, b1.y, y1, b1.x);
  }

  /** With the beans in two columns, the second one is blocked exactly at its landing row. */
  lemma PostdropApartSecond(g: Grid, b1: Bean, b2: Bean, y1: int, y2: int)
    requires IsGrid(g) && PairInBounds(b1, b2) && b1.x != b2.x
    requires InBounds(y1, b1.x) && b2.y <= y2 <= LandingRow(g, b2.y, b2.x)
    ensures Blocked(Pair.MoveUpdate(g, b1, b2, y1, b1.x, y2, b2.x), y2, b2.x) <==> y2 == LandingRow(g, b2.y, b2.x)
  {
    MoveUpdateBlocked(g, b1, b2, y1, b1.x, y2, b2.x, y2, b2.x);
    BlockedAtLanding(g, b2.y, y2, b2.x);
  }

  /** A bean between its row and its landing row is blocked exactly at the landing row. */
  lemma BlockedAtLanding(g: Grid, y0: int, y: int, x: int)
    requires IsGrid(g) && InBounds(y0, x) && y0 <= y <= LandingRow(g, y0, x)
    ensures Blocked(g, y, x) <==> y == LandingRow(g, y0, x)
  {
    LandingRowPassesEmpty(g, y0, x);
  }

  /** The second bean of a postdrop pass is blocked exactly at its settled row. */
  lemma PostdropCheckSecond(g: Grid, b1: Bean, b2: Bean, o: Orientation, y1: int, y2: int)
    requires IsGrid(g) && Legal(g) && Placed(g, b1, b2, o) && TryHardDrop(g, b1, b2).None?
    requires b1.y <= y1 <= SettledRow(g, b1, b2) && b2.y <= y2 <= SettledRow(g, b2, b1)
    ensures (y1, b1.x) != (y2, b2.x)
    ensures Blocked(Pair.MoveUpdate(g, b1, b2, y1, b1.x, y2, b2.x), y2, b2.x) <==> y2 == SettledRow(g, b2, b1)
  {
    if b1.x == b2.x {
      PostdropStacked(g, b1, b2, o, y1, y2);
    } else {
      PostdropApartSecond(g, b1, b2, y1, y2);
    }
  }

  /**
   * After a drop has failed, postdrop lets each bean fall to its own landing
   * row (a pair stacked in one column does not move), both beans keep their
   * colours, and each ends resting on the floor or on a bean.
   */
  lemma PostdropSettles(s: State, framesPerDrop: int)
    requires Inv(s, framesPerDrop) && s.phase == 5
    ensures var t := PostdropSpec(s);
      t.bean1.y == LandingRow(s.cells, s.bean1.y, s.bean1.x) &&
      t.bean2.y == LandingRow(s.cells, s.bean2.y, s.bean2.x) &&
      t.cells[t.bean1.y][t.bean1.x] == s.bean1.color && t.cells[t.bean2.y][t.bean2.x] == s.bean2.color &&
      Blocked(t.cells, t.bean1.y, t.bean1.x) && Blocked(t.cells, t.bean2.y, t.bean2.x)
  {
    var g, b1, b2 := s.cells, s.bean1, s.bean2;
    SettledIsLanding(g, b1, b2);
    SettledIsLanding(g, b2, b1);
    var y1, y2 := SettledRow(g, b1, b2), SettledRow(g, b2, b1);
    if b1.x == b2.x {
      assert y1 == b1.y && y2 == b2.y;
    }
    MoveUpdateEffect(g, b1, b2, y1, b1.x, y2, b2.x);
    PostdropCheckFirst(g, b1, b2, s.orientation, y1, y2);
    PostdropCheckSecond(g, b1, b2, s.orientation, y1, y2);
  }

  /** A bean held by its partner directly below it is already at its landing row. */
  lemma SettledIsLanding(g: Grid, b: Bean, other: Bean)
    requires IsGrid(g) && InBounds(b.y, b.x) && InBounds(other.y, other.x) && g[other.y][other.x] > 0
    requires b.x == other.x ==> other.y == b.y + 1 || b.y == other.y + 1
    ensures SettledRow(g, b, other) == LandingRow(g, b.y, b.x)
  {
  }

  // ----- completion_check -----

  /**
   * completion_check keeps the invariant whatever it marks, as long as the
   * marked cells lie on the field, none twice, and the combo does not fall:
   * it replaces the snapshot, the fill state, the marked cells and the
   * combo, empties the dropped cells and hands over to remove_beans.
   */
  lemma CompletionCheckKeepsInv(s: State, framesPerDrop: int, snap: Grid, count: int,
                                coords: seq<Cell>, eliminate: seq<Cell>, combo: int)
    ensures (Inv(s, framesPerDrop) && s.phase == 6 && CellsInBounds(eliminate) && Distinct(eliminate) &&
             combo >= s.combo) ==>
      Inv(s.(snapCells := snap, count := count, coords := coords, eliminate := eliminate, combo := combo,
             droppedYX := [], phase := 7), framesPerDrop)
  {
  }

  /**
   * completion_single from the dropped cell (y, x) on snapshot s0: a seed
   * holding no colour (empty or neutral) finds nothing and leaves the
   * snapshot alone; a coloured seed finds its group, each cell once, and
   * s1 is s0 with the group emptied.
   */
  ghost predicate Single(s0: Grid, s1: Grid, cs: seq<Cell>, y: int, x: int)
    requires IsGrid(s0) && IsGrid(s1) && InBounds(y, x)
  {
    if s0[y][x] <= 1 then cs == [] && s1 == s0 else Group(s0, s1, cs, y, x) && Distinct(cs)
  }

  /**
   * The loop of completion_check over the dropped cells: fills[k] is what
   * completion_single finds from seeds[k] on snaps[k], the snapshot that
   * the earlier fills have emptied, and it leaves snaps[k + 1].
   */
  ghost predicate Scanned(seeds: seq<Cell>, snaps: seq<Grid>, fills: seq<seq<Cell>>) {
    CellsInBounds(seeds) && |snaps| == |seeds| + 1 && |fills| == |seeds| &&
    (forall k :: 0 <= k < |snaps| ==> IsGrid(snaps[k])) &&
    forall k :: 0 <= k < |seeds| ==> Single(snaps[k], snaps[k + 1], fills[k], seeds[k].0, seeds[k].1)
  }

  /** The cells a fill adds to eliminate: all of them for a group of four or more, none otherwise. */
  function Complete(cs: seq<Cell>): seq<Cell> {
    if |cs| >= 4 then cs else []
  }

  /** The cells marked by a sequence of fills, in order. */
  function Marked(fills: seq<seq<Cell>>): seq<Cell> {
    if fills == [] then [] else Marked(fills[..|fills| - 1]) + Complete(fills[|fills| - 1])
  }

  /** The number of fills that found a group of four or more: the combo steps. */
  function Completed(fills: seq<seq<Cell>>): nat {
    if fills == [] then 0 else Completed(fills[..|fills| - 1]) + (if |fills[|fills| - 1]| >= 4 then 1 else 0)
  }

  /** One more completion_single extends the scan. */
  lemma ScannedExtend(seeds: seq<Cell>, snaps: seq<Grid>, fills: seq<seq<Cell>>, seed: Cell, t: Grid, cs: seq<Cell>)
    requires Scanned(seeds, snaps, fills) && IsGrid(t) && InBounds(seed.0, seed.1)
    requires Single(snaps[|seeds|], t, cs, seed.0, seed.1)
    ensures Scanned(seeds + [seed], snaps + [t], fills + [cs])
    ensures Marked(fills + [cs]) == Marked(fills) + Complete(cs)
    ensures Completed(fills + [cs]) == Completed(fills) + (if |cs| >= 4 then 1 else 0)
  {
    assert (fills + [cs])[..|fills|] == fills;
  }

  /** The scan of the first i seeds, one completion_single later, is the scan of the first i + 1. */
  lemma ScanAdvance(seeds: seq<Cell>, i: int, snaps: seq<Grid>, fills: seq<seq<Cell>>, t: Grid, cs: seq<Cell>)
    requires 0 <= i < |seeds| && CellsInBounds(seeds) && Scanned(seeds[..i], snaps, fills) && IsGrid(t)
    requires Single(snaps[i], t, cs, seeds[i].0, seeds[i].1)
    ensures Scanned(seeds[..i + 1], snaps + [t], fills + [cs])
    ensures Marked(fills + [cs]) == Marked(fills) + Complete(cs)
    ensures Completed(fills + [cs]) == Completed(fills) + (if |cs| >= 4 then 1 else 0)
  {
    ScannedExtend(seeds[..i], snaps, fills, seeds[i], t, cs);
    assert seeds[..i + 1] == seeds[..i] + [seeds[i]];
  }

  /** Dropping the last step of a scan leaves a scan. */
  lemma ScannedPrefix(seeds: seq<Cell>, snaps: seq<Grid>, fills: seq<seq<Cell>>)
    requires Scanned(seeds, snaps, fills) && seeds != []
    ensures Scanned(seeds[..|seeds| - 1], snaps[..|seeds|], fills[..|seeds| - 1])
  {
    var n := |seeds| - 1;
    forall k | 0 <= k < n
      ensures Single(snaps[..n + 1][k], snaps[..n + 1][k + 1], fills[..n][k], seeds[..n][k].0, seeds[..n][k].1)
    {
      assert Single(snaps[k], snaps[k + 1], fills[k], seeds[k].0, seeds[k].1);
    }
  }

  /**
   * One completion_single on a snapshot of the field g that earlier fills
   * emptied at the cells e: the cells it marks are beans of g not in e, and
   * the snapshot stays a partly emptied copy of g.
   */
  lemma MarkStep(g: Grid, s: Grid, t: Grid, e: seq<Cell>, cs: seq<Cell>, y: int, x: int)
    requires IsGrid(g) && IsGrid(s) && IsGrid(t) && InBounds(y, x) && Single(s, t, cs, y, x)
    requires Distinct(e) && Visited(s, e)
    requires forall y, x :: InBounds(y, x) ==> s[y][x] == g[y][x] || s[y][x] == 0
    requires forall k :: 0 <= k < |e| ==> g[e[k].0][e[k].1] != 0
    ensures Distinct(e + Complete(cs)) && Visited(t, e + Complete(cs))
    ensures forall y, x :: InBounds(y, x) ==> t[y][x] == g[y][x] || t[y][x] == 0
    ensures forall k :: 0 <= k < |e + Complete(cs)| ==> g[(e + Complete(cs))[k].0][(e + Complete(cs))[k].1] != 0
  {
    if s[y][x] <= 1 {
      FloodedNone(s, [], s[y][x]);
    }
    AppendFill(s, t, e, cs, s[y][x]);
    FillMarksBeans(g, s, t, cs, s[y][x]);
    if |cs| < 4 {
      assert e + Complete(cs) == e;
      assert Visited(t, e) by {
        assert forall k :: 0 <= k < |e| ==> e[k] == (e + cs)[k];
      }
    }
  }


  /**
   * What a scan marks, from a snapshot of the field g: cells holding beans
   * of g, none twice, all emptied in the last snapshot; every combo step
   * marks at least four cells, there is at most one per dropped cell, and
   * nothing is marked exactly when the combo does not rise.
   */
  lemma {:induction false} ScanMarks(g: Grid, seeds: seq<Cell>, snaps: seq<Grid>, fills: seq<seq<Cell>>)
    requires IsGrid(g) && Scanned(seeds, snaps, fills) && snaps[0] == g
    ensures Distinct(Marked(fills)) && Visited(snaps[|seeds|], Marked(fills))
    ensures forall y, x :: InBounds(y, x) ==> snaps[|seeds|][y][x] == g[y][x] || snaps[|seeds|][y][x] == 0
    ensures forall k :: 0 <= k < |Marked(fills)| ==> g[Marked(fills)[k].0][Marked(fills)[k].1] != 0
    ensures Completed(fills) <= |seeds| && 4 * Completed(fills) <= |Marked(fills)|
    ensures Marked(fills) == [] <==> Completed(fills) == 0
    decreases |seeds|
  {
    if seeds != [] {
      var n := |seeds| - 1;
      ScannedPrefix(seeds, snaps, fills);
      ScanMarks(g, seeds[..n], snaps[..n + 1], fills[..n]);
      assert Single(snaps[n], snaps[n + 1], fills[n], seeds[n].0, seeds[n].1);
      MarkStep(g, snaps[n], snaps[n + 1], Marked(fills[..n]), fills[n], seeds[n].0, seeds[n].1);
      assert fills[..n] == fills[..|fills| - 1];
    }
  }


  /**
   * completion_check from state s: the scan from the dropped cells on a
   * snapshot of the field, with eliminate the cells of the complete groups
   * in scan order and the combo raised once per complete group; count and
   * coords are those of the last fill, the dropped cells are cleared, and
   * remove_beans follows.
   */
  ghost predicate CheckedWith(s: State, t: State, snaps: seq<Grid>, fills: seq<seq<Cell>>)
    requires IsGrid(s.cells)
  {
    Scanned(s.droppedYX, snaps, fills) && snaps[0] == s.cells &&
    t == s.(snapCells := snaps[|fills|], eliminate := Marked(fills), combo := s.combo + Completed(fills),
            count := if fills == [] then s.count else |fills[|fills| - 1]|,
            coords := if fills == [] then s.coords else fills[|fills| - 1],
            droppedYX := [], phase := s.phase + 1)
  }

  /** completion_check may take s to t: some scan from s's dropped cells gives t. */
  ghost predicate CompletionCheckSpec(s: State, t: State)
    requires IsGrid(s.cells)
  {
    exists snaps, fills :: CheckedWith(s, t, snaps, fills)
  }

  // ----- remove_beans -----

  /** The change list of remove_beans: each cell to eliminate is emptied, in list order. */
  function ZeroChanges(e: seq<Cell>): seq<Change> {
    seq(|e|, i requires 0 <= i < |e| => Change(e[i].0, e[i].1, 0))
  }

  /** Applying the change list empties exactly the listed cells. */
  lemma {:induction false} ZeroChangesEffect(g: Grid, e: seq<Cell>)
    requires IsGrid(g) && CellsInBounds(e)
    ensures ChangesLegal(ZeroChanges(e))
    ensures forall y, x :: InBounds(y, x) ==>
      ApplyChanges(g, ZeroChanges(e))[y][x] == (if (y, x) in e then 0 else g[y][x])
    decreases |e|
  {
    if e != [] {
      var init := e[..|e| - 1];
      assert e == init + [e[|e| - 1]];
      assert ZeroChanges(e)[..|e| - 1] == ZeroChanges(init);
      ZeroChangesEffect(g, init);
    }
  }

  /** One more marked cell: its change is appended and its row is added to its column's list. */
  lemma RemoveBeansStep(e: seq<Cell>, i: int)
    requires 0 <= i < |e|
    ensures ZeroChanges(e[..i + 1]) == ZeroChanges(e[..i]) + [Change(e[i].0, e[i].1, 0)]
    ensures var m, (y, x) := DropListOf(e[..i]), e[i];
      DropListOf(e[..i + 1]) == (if x in m then m[x := m[x] + [y]] else m[x := [y]]) &&
      ColumnOrder(e[..i + 1]) == (if x in m then ColumnOrder(e[..i]) else ColumnOrder(e[..i]) + [x])
  {
    assert e[..i + 1][..i] == e[..i];
  }

  /**
   * remove_beans: the marked cells are emptied, each column holding a
   * marked cell gets the rows of its marked cells in the drop list (keys in
   * the order first met), the score grows by combo times the number of
   * marked cells, and completion_drop follows.
   */
  function RemoveBeansSpec(s: State): State
    requires IsGrid(s.cells) && CellsInBounds(s.eliminate)
  {
    ZeroChangesEffect(s.cells, s.eliminate);
    s.(cells := ApplyChanges(s.cells, ZeroChanges(s.eliminate)),
       droplist := DropListOf(s.eliminate), dropOrder := ColumnOrder(s.eliminate),
       score := s.score + s.combo * |s.eliminate|, phase := s.phase + 1)
  }

  /**
   * What remove_beans leaves: exactly the marked cells are empty and the
   * rest of the field is unchanged; the drop list has a key for exactly the
   * columns with a marked cell, in the key order, and lists for each the
   * rows of its marked cells.
   */
  lemma RemoveBeansEffect(s: State)
    requires IsGrid(s.cells) && CellsInBounds(s.eliminate)
    ensures var t := RemoveBeansSpec(s);
      (forall y, x :: InBounds(y, x) ==> t.cells[y][x] == (if (y, x) in s.eliminate then 0 else s.cells[y][x])) &&
      (forall x :: x in t.droplist <==> x in t.dropOrder) &&
      (forall x, y :: (y, x) in s.eliminate ==> x in t.droplist && y in t.droplist[x]) &&
      (forall x, y :: x in t.droplist && y in t.droplist[x] ==> (y, x) in s.eliminate)
  {
    ZeroChangesEffect(s.cells, s.eliminate);
    forall x ensures forall y :: y in RowsIn(s.eliminate, x) <==> (y, x) in s.eliminate {
      RowsInCells(s.eliminate, x);
    }
  }

  lemma RemoveBeansKeepsInv(s: State, framesPerDrop: int)
    ensures Inv(s, framesPerDrop) && s.phase == 7 ==>
      Inv(RemoveBeansSpec(s), framesPerDrop) && RemoveBeansSpec(s).score >= s.score
  {
    if Inv(s, framesPerDrop) && s.phase == 7 {
      ApplyChangesLegal(s.cells, ZeroChanges(s.eliminate));
      assert s.combo * |s.eliminate| >= 0;
      RemovalDropListOk(s.cells, s.eliminate);
    }
  }

  /**
   * The drop list remove_beans builds from marked cells without repeats
   * suits completion_drop: each key a column, each list distinct rows that
   * are now empty, and the key order holding exactly the keys.
   */
  lemma RemovalDropListOk(g: Grid, e: seq<Cell>)
    requires IsGrid(g) && CellsInBounds(e) && Distinct(e)
    ensures DropListOk(ApplyChanges(g, ZeroChanges(e)), DropListOf(e), ColumnOrder(e))
  {
    var h, m := ApplyChanges(g, ZeroChanges(e)), DropListOf(e);
    ZeroChangesEffect(g, e);
    forall x | x in m
      ensures 0 <= x < Cols && Distinct(m[x]) &&
        forall i :: 0 <= i < |m[x]| ==> 0 <= m[x][i] < Rows && h[m[x][i]][x] == 0
    {
      RowsInCells(e, x);
      assert m[x][0] in RowsIn(e, x);
      forall i | 0 <= i < |m[x]|
        ensures 0 <= m[x][i] < Rows && h[m[x][i]][x] == 0
      {
        assert m[x][i] in RowsIn(e, x);
      }
    }
  }

  // ----- completion_drop -----

  /** The sorting loop of completion_drop: the rows of each column of cols in turn replaced by their sorted list. */
  function SortColumns(m: map<int, seq<int>>, cols: seq<int>): (r: map<int, seq<int>>)
    requires forall x :: x in cols ==> x in m
    ensures forall x :: x in r <==> x in m
    decreases |cols|
  {
    if cols == [] then m
    else
      var r := SortColumns(m, cols[..|cols| - 1]);
      var x := cols[|cols| - 1];
      assert x in cols;
      r[x := SortRows(r[x])]
  }

  /** Over distinct columns, each listed column ends with its rows sorted once and the others untouched. */
  lemma {:induction false} SortColumnsSorts(m: map<int, seq<int>>, cols: seq<int>)
    requires Distinct(cols) && forall x :: x in cols ==> x in m
    ensures forall x :: x in m ==> SortColumns(m, cols)[x] == if x in cols then SortRows(m[x]) else m[x]
    decreases |cols|
  {
    if cols != [] {
      var init := cols[..|cols| - 1];
      assert cols == init + [cols[|cols| - 1]];
      SortColumnsSorts(m, init);
    }
  }

  /** Sorting keeps a well-formed drop list well formed. */
  lemma SortColumnsOk(g: Grid, m: map<int, seq<int>>, order: seq<int>)
    requires IsGrid(g) && DropListOk(g, m, order)
    ensures Lists(SortColumns(m, order)) && Covers(SortColumns(m, order), order)
    ensures forall x :: x in m ==> SortColumns(m, order)[x] == SortRows(m[x])
  {
    SortColumnsSorts(m, order);
    forall x | x in m
      ensures |SortRows(m[x])| > 0 && forall i :: 0 <= i < |SortRows(m[x])| ==> 0 <= SortRows(m[x])[i] < Rows
    {
      var r := SortRows(m[x]);
      assert |r| == |multiset(r)| == |multiset(m[x])| == |m[x]|;
      forall i | 0 <= i < |r| ensures 0 <= r[i] < Rows {
        assert r[i] in multiset(m[x]);
      }
    }
  }

  /**
   * completion_drop: with an empty drop list the turn is over and check_loss
   * follows; otherwise the rows of each column are sorted, the passes run
   * until the drop list is empty, the cells beans were dropped into are
   * appended to dropped_yx, and completion_check follows.
   */
  function CompletionDropSpec(s: State): State
    requires IsGrid(s.cells) && Legal(s.cells) && DropListOk(s.cells, s.droplist, s.dropOrder)
  {
    if |s.droplist| == 0 then s.(phase := 0)
    else
      var (g, dropped) := AfterPasses(s.cells, s.droplist, s.dropOrder);
      s.(cells := g, droplist := map[], droppedYX := s.droppedYX + dropped, phase := 6)
  }

  /**
   * The passes of completion_drop on field g: the rows of each column of
   * the drop list sorted, then passes until the list is empty. The result
   * is the new field and the cells beans were dropped into.
   */
  function AfterPasses(g: Grid, droplist: map<int, seq<int>>, order: seq<int>): (Grid, seq<Cell>)
    requires IsGrid(g) && Legal(g) && DropListOk(g, droplist, order)
  {
    SortColumnsOk(g, droplist, order);
    Cascade(g, SortColumns(droplist, order), order)
  }

  lemma CompletionDropKeepsInv(s: State, framesPerDrop: int)
    ensures Inv(s, framesPerDrop) && s.phase == 8 ==>
      Inv(CompletionDropSpec(s), framesPerDrop) && CompletionDropSpec(s).phase == (if |s.droplist| == 0 then 0 else 6)
  {
  }

  /**
   * The columns of the drop list are collapsed at their rows taken smallest
   * first, and every other column is left alone.
   */
  lemma CompletionDropCollapses(s: State)
    requires IsGrid(s.cells) && Legal(s.cells) && DropListOk(s.cells, s.droplist, s.dropOrder)
    requires |s.droplist| != 0
    ensures Lists(SortColumns(s.droplist, s.dropOrder))
    ensures forall x :: x in s.droplist ==> SortColumns(s.droplist, s.dropOrder)[x] == SortRows(s.droplist[x])
    ensures var t := CompletionDropSpec(s);
      IsGrid(t.cells) &&
      forall y, x :: InBounds(y, x) ==>
        t.cells[y][x] == if x in s.droplist then Collapse(Column(s.cells, x), SortRows(s.droplist[x]))[y] else s.cells[y][x]
  {
    SortColumnsOk(s.cells, s.droplist, s.dropOrder);
    CascadeCollapses(s.cells, SortColumns(s.droplist, s.dropOrder), s.dropOrder);
  }

  /**
   * completion_drop neither creates nor destroys a bean: every column keeps
   * its beans in their order, and a column of the drop list ends with one
   * empty cell at the top for each of its vacated rows.
   */
  lemma CompletionDropKeepsBeans(s: State, x: int)
    requires IsGrid(s.cells) && Legal(s.cells) && DropListOk(s.cells, s.droplist, s.dropOrder)
    requires 0 <= x < Cols
    ensures var t := CompletionDropSpec(s);
      IsGrid(t.cells) && Beans(Column(t.cells, x)) == Beans(Column(s.cells, x)) &&
      (x in s.droplist ==> forall y :: 0 <= y < Rows && y < |s.droplist[x]| ==> t.cells[y][x] == 0)
  {
    if |s.droplist| != 0 {
      CompletionDropCollapses(s);
      var t := CompletionDropSpec(s);
      if x in s.droplist {
        var c := Collapse(Column(s.cells, x), SortRows(s.droplist[x]));
        forall y | 0 <= y < Rows ensures t.cells[y][x] == c[y] {
          assert InBounds(y, x);
        }
        CollapsedColumnKeepsBeans(s.cells, t.cells, x, s.droplist[x]);
      } else {
        forall y | 0 <= y < Rows ensures t.cells[y][x] == s.cells[y][x] {
          assert InBounds(y, x);
        }
        ColumnIs(t.cells, x, Column(s.cells, x));
      }
    }
  }

  /** A column collapsed at its vacated rows keeps its beans and has an empty cell on top for each row. */
  lemma CollapsedColumnKeepsBeans(g: Grid, h: Grid, x: int, rows: seq<int>)
    requires IsGrid(g) && IsGrid(h) && 0 <= x < Cols && Distinct(rows)
    requires forall i :: 0 <= i < |rows| ==> 0 <= rows[i] < Rows && g[rows[i]][x] == 0
    requires forall i :: 0 <= i < |SortRows(rows)| ==> 0 <= SortRows(rows)[i] < Rows
    requires forall y :: 0 <= y < Rows ==> h[y][x] == Collapse(Column(g, x), SortRows(rows))[y]
    ensures Beans(Column(h, x)) == Beans(Column(g, x))
    ensures forall y :: 0 <= y < Rows && y < |rows| ==> h[y][x] == 0
  {
    var col := Column(g, x);
    SortedCollapseKeepsBeans(col, rows);
    ColumnIs(h, x, Collapse(col, SortRows(rows)));
  }

  lemma ColumnIs(g: Grid, x: int, c: seq<int>)
    requires IsGrid(g) && 0 <= x < Cols && |c| == Rows
    requires forall y :: 0 <= y < Rows ==> g[y][x] == c[y]
    ensures Column(g, x) == c
  {
  }
  // ----- step -----

  /**
   * step: a finished game stays as it is; otherwise the handler of the
   * current phase runs. next_bean draws the colours draw2 and draw1, and
   * completion_check may give any state its scan allows.
   */
  ghost predicate StepSpec(s: State, t: State, framesPerDrop: int, draw2: int, draw1: int)
    requires Inv(s, framesPerDrop)
  {
    if s.gameover then t == s
    else if s.phase == 0 then t == CheckLossSpec(s)
    else if s.phase == 1 then t == NextBeanSpec(s, draw2, draw1)
    else if s.phase == 2 then t == MovementSpec(s)
    else if s.phase == 3 then t == TimerSpec(s, framesPerDrop)
    else if s.phase == 4 then t == DropSpec(s)
    else if s.phase == 5 then t == PostdropSpec(s)
    else if s.phase == 6 then CompletionCheckSpec(s, t)
    else if s.phase == 7 then t == RemoveBeansSpec(s)
    else t == CompletionDropSpec(s)
  }

  /** completion_check as its scan allows keeps the invariant and raises the combo by at most one per dropped cell. */
  lemma CheckedKeepsInv(s: State, t: State, framesPerDrop: int)
    requires Inv(s, framesPerDrop) && s.phase == 6 && CompletionCheckSpec(s, t)
    ensures Inv(t, framesPerDrop) && t.score == s.score && t.phase == 7
    ensures s.combo <= t.combo <= s.combo + |s.droppedYX|
  {
    var snaps, fills :| CheckedWith(s, t, snaps, fills);
    ScanMarks(s.cells, s.droppedYX, snaps, fills);
    CompletionCheckKeepsInv(s, framesPerDrop, t.snapCells, t.count, t.coords, t.eliminate, t.combo);
  }

  /** The steps of phases 0 to 4 keep the invariant, never lower the score and follow the cycle. */
  lemma PairStepKeepsInv(s: State, t: State, framesPerDrop: int, draw2: int, draw1: int)
    requires Inv(s, framesPerDrop) && 2 <= draw2 <= 6 && 2 <= draw1 <= 6 && !s.gameover && s.phase <= 4
    requires StepSpec(s, t, framesPerDrop, draw2, draw1)
    ensures Inv(t, framesPerDrop) && t.score >= s.score && Follows(s.phase, t.phase)
  {
    if s.phase == 0 {
      CheckLossKeepsInv(s, framesPerDrop);
    } else if s.phase == 1 {
      NextBeanKeepsInv(s, framesPerDrop, draw2, draw1);
    } else if s.phase == 2 {
      MovementKeepsInv(s, framesPerDrop);
    } else if s.phase == 3 {
      TimerKeepsInv(s, framesPerDrop);
    } else {
      DropKeepsInv(s, framesPerDrop);
    }
  }

  /** postdrop keeps the invariant and the score and hands over to completion_check. */
  lemma PostdropStepOk(s: State, t: State, framesPerDrop: int)
    requires Inv(s, framesPerDrop) && s.phase == 5 && t == PostdropSpec(s)
    ensures Inv(t, framesPerDrop) && t.score == s.score && t.phase == 6
  {
    PostdropKeepsInv(s, framesPerDrop);
  }

  /** remove_beans keeps the invariant, does not lower the score and hands over to completion_drop. */
  lemma RemoveBeansStepOk(s: State, t: State, framesPerDrop: int)
    requires Inv(s, framesPerDrop) && s.phase == 7 && t == RemoveBeansSpec(s)
    ensures Inv(t, framesPerDrop) && t.score >= s.score && t.phase == 8
  {
    RemoveBeansKeepsInv(s, framesPerDrop);
  }

  /** completion_drop keeps the invariant and the score and hands over to check_loss or completion_check. */
  lemma CompletionDropStepOk(s: State, t: State, framesPerDrop: int)
    requires Inv(s, framesPerDrop) && s.phase == 8 && t == CompletionDropSpec(s)
    ensures Inv(t, framesPerDrop) && t.score == s.score && (t.phase == 0 || t.phase == 6)
  {
    CompletionDropKeepsInv(s, framesPerDrop);
  }

  /** The steps of phases 5 to 8 keep the invariant, never lower the score and follow the cycle. */
  lemma BoardStepKeepsInv(s: State, t: State, framesPerDrop: int, draw2: int, draw1: int)
    requires Inv(s, framesPerDrop) && !s.gameover && s.phase >= 5
    requires StepSpec(s, t, framesPerDrop, draw2, draw1)
    ensures Inv(t, framesPerDrop) && t.score >= s.score && Follows(s.phase, t.phase)
  {
    if s.phase == 5 {
      PostdropStepOk(s, t, framesPerDrop);
    } else if s.phase == 6 {
      CheckedKeepsInv(s, t, framesPerDrop);
    } else if s.phase == 7 {
      RemoveBeansStepOk(s, t, framesPerDrop);
    } else {
      CompletionDropStepOk(s, t, framesPerDrop);
    }
  }

  /**
   * Every step keeps the invariant and never lowers the score; a finished
   * game stays as it is, and otherwise the phase moves along the cycle.
   */
  lemma StepKeepsInv(s: State, t: State, framesPerDrop: int, draw2: int, draw1: int)
    requires Inv(s, framesPerDrop) && 2 <= draw2 <= 6 && 2 <= draw1 <= 6
    requires StepSpec(s, t, framesPerDrop, draw2, draw1)
    ensures Inv(t, framesPerDrop) && t.score >= s.score
    ensures s.gameover ==> t == s
    ensures !s.gameover ==> Follows(s.phase, t.phase)
  {
    if s.gameover {
    } else if s.phase <= 4 {
      PairStepKeepsInv(s, t, framesPerDrop, draw2, draw1);
    } else {
      BoardStepKeepsInv(s, t, framesPerDrop, draw2, draw1);
    }
  }
}
