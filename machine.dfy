/**
 * The bean machine: the 13 x 6 field, the falling pair, score and combo,
 * and the nine-phase loop that step() drives.
 *
 *   0 check_loss   1 next_bean   2 movement   3 timer   4 drop
 *   5 postdrop     6 completion_check   7 remove_beans   8 completion_drop
 *
 * Each handler is a method whose postcondition ties the new field (seen as
 * the value Cells()) and the new fields of the object to the rules in the
 * modules Board, Pair and Gravity. The random colours of new beans are
 * parameters in the range 2..6.
 */
module Machine {
  import opened Board
  import opened Pair
  import opened Gravity
  import opened Phases
  import opened Flood
  import opened Passes

  class BeanMachine {
    var field: array2<int>
    /** The field as a value, kept equal to the array cell by cell. */
    ghost var cells: Grid
    /** The working copy of the field that the flood fill empties as it visits cells. */
    var snap: array2<int>
    ghost var snapCells: Grid
    const framesPerDrop: int

    var score: int
    var combo: int
    var gameover: bool
    var phase: int
    var timesteps: int
    /** The pending action code: 0 none, 1 left, 2 right, 3 rotate -1, 4 rotate 1, 5 drop. */
    var action: int

    /** The colours of the next pair: next2 spawns on row 0, next1 on row 1. */
    var next1: int
    var next2: int

    var bean1: Bean
    var bean2: Bean
    var orientation: Orientation

    var eliminate: seq<Cell>
    var droplist: map<int, seq<int>>
    /** The key order of the drop list (the order in which columns were first added). */
    var dropOrder: seq<int>
    var droppedYX: seq<Cell>

    /** The size and the cells of the group the flood fill is building. */
    var count: int
    var coords: seq<Cell>

    /** The field array holds exactly the grid cells. */
    ghost predicate Synced()
      reads this`field, this`cells, field
    {
      field.Length0 == Rows && field.Length1 == Cols && IsGrid(cells) &&
      forall y, x :: 0 <= y < Rows && 0 <= x < Cols ==> field[y, x] == cells[y][x]
    }

    ghost predicate SnapSynced()
      reads this`snap, this`snapCells, snap
    {
      snap.Length0 == Rows && snap.Length1 == Cols && IsGrid(snapCells) &&
      forall y, x :: 0 <= y < Rows && 0 <= x < Cols ==> snap[y, x] == snapCells[y][x]
    }

    /** The falling pair is on the field (phases 2 to 5). */
    ghost predicate PairPlaced()
      reads this
    {
      Placed(cells, bean1, bean2, orientation)
    }

    /** The attributes as a value. */
    ghost function St(): State
      reads this
    {
      State(cells, snapCells, score, combo, gameover, phase, timesteps, action,
            next1, next2, bean1, bean2, orientation,
            eliminate, droplist, dropOrder, droppedYX, count, coords)
    }

    ghost predicate Valid()
      reads this, field
    {
      Synced() && field != snap && Inv(St(), framesPerDrop)
    }

    /** __init__: an empty field, phase 1, and the first two colours drawn. */
    constructor (draw2: int, draw1: int, framesPerDrop: int := 3)
      requires 2 <= draw2 <= 6 && 2 <= draw1 <= 6
      ensures Valid() && fresh(field) && fresh(snap)
      ensures cells == EmptyGrid() && score == 0 && combo == 0 && !gameover
      ensures phase == 1 && timesteps == 0 && action == 0
      ensures next2 == draw2 && next1 == draw1 && this.framesPerDrop == framesPerDrop
    {
      this.framesPerDrop := framesPerDrop;
      field := new int[Rows, Cols]((y, x) => 0);
      cells := EmptyGrid();
      snap := new int[Rows, Cols]((y, x) => 0);
      snapCells := EmptyGrid();
      score, combo, gameover := 0, 0, false;
      next2, next1 := draw2, draw1;
      phase, timesteps, action := 1, 0, 0;
      bean1, bean2, orientation := Bean(1, 3, draw1), Bean(0, 3, draw2), Above;
      eliminate, droplist, dropOrder, droppedYX := [], map[], [], [];
      count, coords := 0, [];
    }

    /** reset: a new empty field, score and combo 0, phase 1, two new colours. */
    method Reset(draw2: int, draw1: int)
      requires Valid() && 2 <= draw2 <= 6 && 2 <= draw1 <= 6
      modifies this`field, this`cells, this`score, this`combo, this`gameover, this`next1, this`next2
      modifies this`phase, this`timesteps, this`action
      ensures fresh(field) && St() == ResetSpec(old(St()), draw2, draw1)
      ensures Valid()
    {
      ResetKeepsInv(St(), framesPerDrop, draw2, draw1);
      ClearField();
      ResetCounters(draw2, draw1);
    }

    /** The field of reset: a fresh array of empty cells. */
    method ClearField()
      modifies this`field, this`cells
      ensures Synced() && fresh(field) && cells == EmptyGrid()
    {
      field := new int[Rows, Cols]((y, x) => 0);
      cells := EmptyGrid();
    }

    /** The counters of reset: score and combo 0, the game on, phase 1, two new colours. */
    method ResetCounters(draw2: int, draw1: int)
      modifies this`score, this`combo, this`gameover, this`next1, this`next2
      modifies this`phase, this`timesteps, this`action
      ensures score == 0 && combo == 0 && !gameover && next2 == draw2 && next1 == draw1
      ensures phase == 1 && timesteps == 0 && action == 0
    {
      score, combo, gameover := 0, 0, false;
      next2, next1 := draw2, draw1;
      phase, timesteps, action := 1, 0, 0;
    }

    /** bean_change: apply the writes in list order (the only way the field changes). */
    method BeanChange(changeList: seq<Change>)
      requires Synced() && ChangesLegal(changeList)
      modifies field, this`cells
      ensures Synced() && cells == ApplyChanges(old(cells), changeList)
    {
      var pending := changeList;
      while |pending| > 0
        invariant Synced()
        invariant |pending| <= |changeList| && pending == changeList[|changeList| - |pending|..]
        invariant cells == ApplyChanges(old(cells), changeList[..|changeList| - |pending|])
      {
        var done := changeList[..|changeList| - |pending|];
        var ch := pending[0];
        pending := pending[1..];
        field[ch.y, ch.x] := ch.c;
        cells := Write(cells, ch.y, ch.x, ch.c);
        assert changeList[..|changeList| - |pending|] == done + [ch];
        assert (done + [ch])[..|done|] == done;
      }
      assert changeList[..|changeList|] == changeList;
    }

    /** move_update: clear both old cells, write bean 2 and then bean 1 at their new cells. */
    method MoveUpdate(x1: int, y1: int, x2: int, y2: int)
      requires Synced() && PairInBounds(bean1, bean2) && InBounds(y1, x1) && InBounds(y2, x2)
      requires 0 <= bean1.color <= 6 && 0 <= bean2.color <= 6
      modifies this`bean1, this`bean2, field, this`cells
      ensures Synced() && cells == Pair.MoveUpdate(old(cells), old(bean1), old(bean2), y1, x1, y2, x2)
      ensures bean1 == Bean(y1, x1, old(bean1.color)) && bean2 == Bean(y2, x2, old(bean2.color))
    {
      var change1 := Change(bean1.y, bean1.x, 0);
      var change2 := Change(bean2.y, bean2.x, 0);
      var change3 := Change(y2, x2, bean2.color);
      var change4 := Change(y1, x1, bean1.color);
      MoveUpdateIsChangeList(cells, bean1, bean2, y1, x1, y2, x2);
      BeanChange([change1, change2, change3, change4]);
      bean2 := Bean(y2, x2, bean2.color);
      bean1 := Bean(y1, x1, bean1.color);
    }

    /** move: shift the pair by one column, or return 0 and change nothing. */
    method Move(direction: int) returns (moved: int)
      requires Synced() && Legal(cells) && PairPlaced() && (direction == -1 || direction == 1)
      modifies this`bean1, this`bean2, field, this`cells
      ensures Synced() && Legal(cells) && PairPlaced()
      ensures moved == (if TryMove(old(cells), old(bean1), old(bean2), direction).Some? then 1 else 0)
      ensures (cells, bean1, bean2) == AfterMove(old(cells), old(bean1), old(bean2), direction)
    {
      MoveKeepsPlaced(cells, bean1, bean2, orientation, direction);
      var y2, x2 := bean2.y, bean2.x + direction;
      var y1, x1 := bean1.y, bean1.x + direction;
      var free: bool;
      if Min(x1, x2) < 0 || Max(x1, x2) > 5 {
        free := false;
      } else if y1 == y2 {
        var x := Leading(direction, x1, x2);
        free := field[y1, x] <= 0;
      } else {
        free := field[y1, x1] <= 0 && field[y2, x2] <= 0;
      }
      if free {
        MoveUpdate(x1, y1, x2, y2);
        moved := 1;
      } else {
        moved := 0;
      }
    }

    /**
     * rotate: bean 2 turns about bean 1; when its target is blocked bean 1
     * is kicked away. Unlike the source, a kick cell off the field refuses
     * the rotation.
     */
    method Rotate(direction: int) returns (rotated: int)
      requires Synced() && Legal(cells) && PairPlaced() && (direction == -1 || direction == 1)
      modifies this`bean1, this`bean2, this`orientation, field, this`cells
      ensures Synced() && Legal(cells) && PairPlaced()
      ensures rotated == (if TryRotate(old(cells), old(bean1), old(bean2), old(orientation), direction).Some? then 1 else 0)
      ensures (cells, bean1, bean2, orientation) ==
        AfterRotate(old(cells), old(bean1), old(bean2), old(orientation), direction)
    {
      RotateKeepsPlaced(cells, bean1, bean2, orientation, direction);
      var (y2, x2, y1m, x1m) := RotateTargets(orientation, bean1, bean2, direction);
      var y1, x1 := bean1.y, bean1.x;
      if x2 < 0 || x2 > 5 || y2 < 0 || y2 > 12 || field[y2, x2] > 0 {
        if !InBounds(y1m, x1m) || field[y1m, x1m] > 0 {
          return 0;
        }
        x2, y2 := x1, y1;
        y1, x1 := y1m, x1m;
      }
      MoveUpdate(x1, y1, x2, y2);
      orientation := NextOrientation(orientation, direction);
      return 1;
    }

    /** hard_drop: move the pair down one row and score one point, or return 0 and change nothing. */
    method HardDrop() returns (dropped: int)
      requires Synced() && Legal(cells) && PairPlaced()
      modifies this`bean1, this`bean2, this`score, field, this`cells
      ensures Synced() && Legal(cells) && PairPlaced()
      ensures dropped == (if TryHardDrop(old(cells), old(bean1), old(bean2)).Some? then 1 else 0)
      ensures (cells, bean1, bean2) == AfterHardDrop(old(cells), old(bean1), old(bean2))
      ensures score == old(score) + dropped
    {
      HardDropKeepsPlaced(cells, bean1, bean2, orientation);
      var y2, x2 := bean2.y + 1, bean2.x;
      var y1, x1 := bean1.y + 1, bean1.x;
      var free: bool;
      if Max(y1, y2) > 12 {
        free := false;
      } else if x1 == x2 {
        free := field[Max(y1, y2), x1] <= 0;
      } else {
        free := field[y1, x1] <= 0 && field[y2, x2] <= 0;
      }
      if free {
        MoveUpdate(x1, y1, x2, y2);
        score := score + 1;
        dropped := 1;
      } else {
        dropped := 0;
      }
    }

    /**
     * step: unless the game is over, run the handler of the current phase.
     * draw2 and draw1 are the colours next_bean would draw; the other
     * phases ignore them. A finished game stays exactly as it is, the score
     * never goes down, and the phase moves along the cycle.
     */
    method Step(draw2: int, draw1: int)
      requires Valid() && 2 <= draw2 <= 6 && 2 <= draw1 <= 6
      modifies field, this`cells, this`snap, this`snapCells, this`score, this`combo, this`gameover
      modifies this`phase, this`timesteps, this`action, this`next1, this`next2, this`bean1, this`bean2
      modifies this`orientation, this`eliminate, this`droplist, this`dropOrder, this`droppedYX
      modifies this`count, this`coords
      ensures Valid() && StepSpec(old(St()), St(), framesPerDrop, draw2, draw1)
      ensures old(gameover) ==> St() == old(St())
      ensures !old(gameover) ==> Follows(old(phase), phase)
      ensures score >= old(score)
    {
      ghost var s0 := St();
      if !gameover {
        if phase <= 4 {
          PairPhase(draw2, draw1);
        } else {
          BoardPhase(draw2, draw1);
        }
      }
      StepKeepsInv(s0, St(), framesPerDrop, draw2, draw1);
    }

    /** The handlers of phases 0 to 4: check_loss, next_bean, movement, timer and drop. */
    method PairPhase(draw2: int, draw1: int)
      requires Valid() && !gameover && phase <= 4 && 2 <= draw2 <= 6 && 2 <= draw1 <= 6
      modifies field, this`cells, this`score, this`combo, this`gameover, this`phase, this`timesteps
      modifies this`action, this`next1, this`next2, this`bean1, this`bean2, this`orientation
      ensures Valid() && StepSpec(old(St()), St(), framesPerDrop, draw2, draw1)
    {
      if phase == 0 {
        CheckLoss();
      } else if phase == 1 {
        NextBean(draw2, draw1);
      } else if phase == 2 {
        Movement();
      } else if phase == 3 {
        Timer();
      } else {
        Drop();
      }
    }

    /** The handlers of phases 5 to 8: postdrop, completion_check, remove_beans and completion_drop. */
    method BoardPhase(ghost draw2: int, ghost draw1: int)
      requires Valid() && !gameover && phase >= 5
      modifies field, this`cells, this`snap, this`snapCells, this`score, this`combo, this`phase
      modifies this`bean1, this`bean2, this`eliminate, this`droplist, this`dropOrder, this`droppedYX
      modifies this`count, this`coords
      ensures Valid() && StepSpec(old(St()), St(), framesPerDrop, draw2, draw1)
    {
      if phase == 5 {
        Postdrop();
      } else if phase == 6 {
        CompletionCheck();
      } else if phase == 7 {
        RemoveBeans();
      } else {
        CompletionDrop();
      }
    }

    /** check_loss: clear the combo and end the game if any bean sits in the top row. */
    method CheckLoss()
      requires Valid() && phase == 0
      modifies this`combo, this`gameover, this`phase
      ensures St() == CheckLossSpec(old(St()))
      ensures Valid()
    {
      CheckLossKeepsInv(St(), framesPerDrop);
      var topval := field[0, 0];
      for x := 1 to Cols
        invariant forall k :: 0 <= k < x ==> cells[0][k] <= topval
        invariant exists k :: 0 <= k < x && cells[0][k] == topval
      {
        topval := Max(topval, field[0, x]);
      }
      combo := 0;
      if topval != 0 {
        gameover := true;
      }
      phase := phase + 1;
    }

    /** next_bean: spawn the next pair upright in column 3 and draw the colours after it. */
    method NextBean(draw2: int, draw1: int)
      requires Valid() && phase == 1 && 2 <= draw2 <= 6 && 2 <= draw1 <= 6
      modifies field, this`cells, this`bean1, this`bean2, this`orientation, this`next1, this`next2
      modifies this`timesteps, this`phase
      ensures St() == NextBeanSpec(old(St()), draw2, draw1)
      ensures Valid()
    {
      NextBeanKeepsInv(St(), framesPerDrop, draw2, draw1);
      SpawnNext(draw2, draw1);
    }

    /** The writes of next_bean: the new pair on the field, the colours after it, the frame counter, the phase. */
    method SpawnNext(draw2: int, draw1: int)
      requires Synced() && 0 <= next2 <= 6 && 0 <= next1 <= 6
      modifies field, this`cells, this`bean1, this`bean2, this`orientation, this`next1, this`next2
      modifies this`timesteps, this`phase
      ensures Synced() && cells == Spawn(old(cells), old(next2), old(next1))
      ensures orientation == Above && bean2 == Bean(0, 3, old(next2)) && bean1 == Bean(1, 3, old(next1))
      ensures next2 == draw2 && next1 == draw1 && timesteps == 0 && phase == old(phase) + 1
    {
      BeanChange([Change(0, 3, next2), Change(1, 3, next1)]);
      orientation := Above;
      bean2 := Bean(0, 3, next2);
      bean1 := Bean(1, 3, next1);
      next2, next1 := draw2, draw1;
      timesteps := 0;
      phase := phase + 1;
    }

    /** movement: carry out the pending action, clear it and go on to the timer. */
    method Movement()
      requires Valid() && phase == 2
      modifies field, this`cells, this`bean1, this`bean2, this`orientation, this`score, this`action, this`phase
      ensures St() == MovementSpec(old(St()))
      ensures Valid()
    {
      MovementKeepsInv(St(), framesPerDrop);
      PerformAction();
    }

    /**
     * The writes of movement: the pending action picks move, rotate or
     * hard_drop, then it is cleared and the phase advances.
     */
    method PerformAction()
      requires Synced() && Legal(cells) && PairPlaced()
      modifies field, this`cells, this`bean1, this`bean2, this`orientation, this`score
      modifies this`action, this`phase
      ensures Synced() && (cells, bean1, bean2, orientation, score - old(score)) ==
        Act(old(cells), old(bean1), old(bean2), old(orientation), old(action))
      ensures action == 0 && phase == old(phase) + 1
    {
      ActKeepsPlaced(cells, bean1, bean2, orientation, action);
      if action == 1 {
        var _ := Move(-1);
      } else if action == 2 {
        var _ := Move(1);
      } else if action == 3 {
        var _ := Rotate(-1);
      } else if action == 4 {
        var _ := Rotate(1);
      } else if action == 5 {
        var _ := HardDrop();
      }
      action, phase := 0, phase + 1;
    }

    /** timer: count a frame; after framesPerDrop frames go on to drop, otherwise back to movement. */
    method Timer()
      requires Valid() && phase == 3
      modifies this`timesteps, this`phase
      ensures St() == TimerSpec(old(St()), framesPerDrop)
      ensures Valid()
    {
      TimerKeepsInv(St(), framesPerDrop);
      timesteps := timesteps + 1;
      if timesteps == framesPerDrop {
        timesteps := 0;
        phase := phase + 1;
      } else {
        phase := phase - 1;
      }
    }

    /** drop: move the pair down one row (and score it) and return to movement, or settle when it cannot. */
    method Drop()
      requires Valid() && phase == 4
      modifies field, this`cells, this`bean1, this`bean2, this`score, this`phase
      ensures St() == DropSpec(old(St()))
      ensures Valid()
    {
      DropKeepsInv(St(), framesPerDrop);
      Fall();
    }

    /** The writes of drop: hard_drop, then the phase its result selects. */
    method Fall()
      requires Synced() && Legal(cells) && PairPlaced()
      modifies field, this`cells, this`bean1, this`bean2, this`score, this`phase
      ensures Synced() && (cells, bean1, bean2) == AfterHardDrop(old(cells), old(bean1), old(bean2))
      ensures var fell := TryHardDrop(old(cells), old(bean1), old(bean2)).Some?;
        score == old(score) + (if fell then 1 else 0) && phase == (if fell then 2 else old(phase) + 1)
    {
      var collision := HardDrop();
      phase := if collision == 0 then phase + 1 else 2;
    }

    /** dropcheck: the bean cannot fall one row (it is on the floor or a bean lies below it). */
    function DropCheck(b: Bean): (blocked: bool)
      requires Synced() && InBounds(b.y, b.x)
      reads this`field, this`cells, field
      ensures blocked == Blocked(cells, b.y, b.x)
    {
      b.y + 1 > 12 || field[b.y + 1, b.x] > 0
    }

    /**
     * postdrop: after the pair has settled, let each bean fall one row per
     * pass until dropcheck stops it, then record the two cells it ended on.
     */
    method Postdrop()
      requires Valid() && phase == 5
      modifies field, this`cells, this`bean1, this`bean2, this`droppedYX, this`phase
      ensures St() == PostdropSpec(old(St()))
      ensures Valid()
    {
      PostdropKeepsInv(St(), framesPerDrop);
      Settle();
    }

    /** The writes of postdrop: the settling loop, the dropped cells and the phase. */
    method Settle()
      requires Synced() && Legal(cells) && PairPlaced() && TryHardDrop(cells, bean1, bean2).None?
      modifies field, this`cells, this`bean1, this`bean2, this`droppedYX, this`phase
      ensures var b1, b2 := old(bean1), old(bean2);
        var y1, y2 := SettledRow(old(cells), b1, b2), SettledRow(old(cells), b2, b1);
        Synced() && cells == Pair.MoveUpdate(old(cells), b1, b2, y1, b1.x, y2, b2.x) &&
        bean1 == Bean(y1, b1.x, b1.color) && bean2 == Bean(y2, b2.x, b2.color) &&
        droppedYX == [(y1, b1.x), (y2, b2.x)] && phase == old(phase) + 1
    {
      ghost var g0, b1, b2 := cells, bean1, bean2;
      MoveUpdateStay(cells, bean1, bean2, orientation);
      var flag1, flag2 := true, true;
      var x1, x2 := bean1.x, bean2.x;
      var y1, y2 := bean1.y, bean2.y;
      while flag1 || flag2
        modifies field, this`cells, this`bean1, this`bean2
        invariant Synced()
        invariant x1 == b1.x && x2 == b2.x
        invariant b1.y <= y1 <= SettledRow(g0, b1, b2) && b2.y <= y2 <= SettledRow(g0, b2, b1)
        invariant !flag1 ==> y1 == SettledRow(g0, b1, b2)
        invariant !flag2 ==> y2 == SettledRow(g0, b2, b1)
        invariant bean1 == Bean(y1, x1, b1.color) && bean2 == Bean(y2, x2, b2.color)
        invariant cells == Pair.MoveUpdate(g0, b1, b2, y1, x1, y2, x2)
        decreases (if flag1 then Rows - y1 else 0) + (if flag2 then Rows - y2 else 0)
      {
        PostdropStep(g0, b1, b2, orientation, y1, y2);
        ghost var p1, p2 := y1, y2;
        if flag1 && !DropCheck(bean1) {
          y1 := y1 + 1;
        } else {
          flag1 := false;
        }
        if flag2 && !DropCheck(bean2) {
          y2 := y2 + 1;
        } else {
          flag2 := false;
        }
        PostdropStep(g0, b1, b2, orientation, y1, y2);
        MoveUpdateCompose(g0, b1, b2, p1, x1, p2, x2, y1, x1, y2, x2);
        MoveUpdate(x1, y1, x2, y2);
      }
      droppedYX := [(y1, x1), (y2, x2)];
      phase := phase + 1;
    }

    /**
     * check_neighbors: empty (y, x) in the snapshot, count it, then visit its
     * neighbours below, above, left and right. c is the group colour, or -1
     * when (y, x) is a neutral bean reached from the group.
     */
    method CheckNeighbors(x: int, y: int, c: int)
      requires SnapSynced() && Legal(snapCells) && InBounds(y, x) && Seed(c, snapCells[y][x])
      requires Distinct(coords) && Visited(snapCells, coords)
      modifies snap, this`snapCells, this`count, this`coords
      ensures SnapSynced() && Legal(snapCells) && Distinct(coords) && Visited(snapCells, coords)
      ensures Flooded(old(snapCells), snapCells, old(coords), coords, c)
      ensures Closed(old(snapCells), snapCells, coords, |old(coords)|)
      ensures Connected(old(snapCells), coords, |old(coords)|)
      ensures |coords| > |old(coords)| && coords[|old(coords)|] == (y, x)
      ensures count == old(count) + |coords| - |old(coords)|
      decreases NonZero(snapCells), 1
    {
      ghost var s0, l0 := snapCells, coords;
      FloodStart(snapCells, coords, y, x, c);
      snap[y, x] := 0;
      snapCells := Write(snapCells, y, x, 0);
      count := count + 1;
      coords := coords + [(y, x)];
      VisitAll(x, y, c, s0, l0);
    }

    /** The four neighbour blocks of check_neighbors: below, above, left, right. */
    method VisitAll(x: int, y: int, c: int, ghost s0: Grid, ghost l0: seq<Cell>)
      requires SnapSynced() && Legal(snapCells) && Distinct(coords) && Visited(snapCells, coords)
      requires IsGrid(s0) && InBounds(y, x) && Seed(c, s0[y][x])
      requires SeedProgress(s0, snapCells, l0, coords, y, x, c, 0) && NonZero(snapCells) < NonZero(s0)
      modifies snap, this`snapCells, this`count, this`coords
      ensures SnapSynced() && Legal(snapCells) && Distinct(coords) && Visited(snapCells, coords)
      ensures Flooded(s0, snapCells, l0, coords, c) && Connected(s0, coords, |l0|)
      ensures |coords| > |l0| && coords[|l0|] == (y, x)
      ensures Closed(s0, snapCells, coords, |l0|)
      ensures count == old(count) + |coords| - |old(coords)|
      decreases NonZero(s0), 0
    {
      Visit(x, y - 1, c, s0, l0, y, x, 0);
      Visit(x, y + 1, c, s0, l0, y, x, 1);
      Visit(x - 1, y, c, s0, l0, y, x, 2);
      Visit(x + 1, y, c, s0, l0, y, x, 3);
      SeedDone(s0, snapCells, l0, coords, y, x, c);
    }

    /**
     * One neighbour block of check_neighbors: when (ny, nx) is on the field
     * and its snapshot value is the group colour c, fill from it with c;
     * when it is a neutral bean, fill from it with -1.
     */
    method Visit(nx: int, ny: int, c: int, ghost s0: Grid, ghost l0: seq<Cell>, ghost y: int, ghost x: int, ghost k: int)
      requires SnapSynced() && Legal(snapCells) && Distinct(coords) && Visited(snapCells, coords)
      requires IsGrid(s0) && InBounds(y, x) && Seed(c, s0[y][x]) && 0 <= k < 4 && (ny, nx) == Dir(y, x, k)
      requires SeedProgress(s0, snapCells, l0, coords, y, x, c, k) && NonZero(snapCells) < NonZero(s0)
      modifies snap, this`snapCells, this`count, this`coords
      ensures SnapSynced() && Legal(snapCells) && Distinct(coords) && Visited(snapCells, coords)
      ensures SeedProgress(s0, snapCells, l0, coords, y, x, c, k + 1) && NonZero(snapCells) < NonZero(s0)
      ensures count == old(count) + |coords| - |old(coords)|
      decreases NonZero(snapCells), 2
    {
      ghost var s, l := snapCells, coords;
      FloodedNone(snapCells, coords, c);
      if 0 <= ny < Rows && 0 <= nx < Cols {
        var ck := snap[ny, nx];
        if ck == c {
          CheckNeighbors(nx, ny, c);
        }
        if ck == 1 {
          ghost var s1, l1 := snapCells, coords;
          CheckNeighbors(nx, ny, -1);
          FloodedNeutral(s1, snapCells, l1, coords, c);
        }
      }
      FloodedShrinks(s, snapCells, l, coords, c);
      SeedStep(s0, s, snapCells, l0, l, coords, y, x, c, k);
    }

    /**
     * completion_single: fill from the dropped bean at (y, x) when its
     * snapshot value is a colour; a group of four or more cells (neutral
     * beans included) is added to the cells to eliminate and raises the combo.
     */
    method CompletionSingle(x: int, y: int)
      requires SnapSynced() && Legal(snapCells) && InBounds(y, x)
      requires Distinct(eliminate) && Visited(snapCells, eliminate)
      modifies snap, this`snapCells, this`count, this`coords, this`eliminate, this`combo
      ensures SnapSynced() && Legal(snapCells) && Distinct(eliminate) && Visited(snapCells, eliminate)
      ensures Flooded(old(snapCells), snapCells, [], coords, old(snapCells)[y][x]) && count == |coords|
      ensures old(snapCells)[y][x] <= 1 ==> coords == [] && snapCells == old(snapCells)
      ensures old(snapCells)[y][x] > 1 ==> Group(old(snapCells), snapCells, coords, y, x) && Distinct(coords)
      ensures count >= 4 ==> eliminate == old(eliminate) + coords && combo == old(combo) + 1
      ensures count < 4 ==> eliminate == old(eliminate) && combo == old(combo)
    {
      var c := snap[y, x];
      count := 0;
      coords := [];
      FloodedNone(snapCells, coords, c);
      if c > 1 {
        CheckNeighbors(x, y, c);
      }
      AppendFill(old(snapCells), snapCells, eliminate, coords, c);
      if count >= 4 {
        eliminate := eliminate + coords;
        combo := combo + 1;
      }
    }

    /**
     * completion_check: take a fresh snapshot of the field and look for a
     * complete group at each bean that has just dropped, in order. The new
     * state is one that CompletionCheckSpec allows: the marked cells are the
     * complete groups of the scan. Only beans are marked, no cell twice, and
     * every combo step marks at least four cells.
     */
    method CompletionCheck()
      requires Valid() && phase == 6
      modifies this`snap, this`snapCells, this`count, this`coords, this`eliminate, this`combo
      modifies this`droppedYX, this`phase
      ensures Valid() && SnapSynced() && fresh(snap) && CompletionCheckSpec(old(St()), St())
      ensures old(combo) <= combo <= old(combo) + |old(droppedYX)|
      ensures 4 * (combo - old(combo)) <= |eliminate|
      ensures eliminate == [] <==> combo == old(combo)
      ensures forall i :: 0 <= i < |eliminate| ==> cells[eliminate[i].0][eliminate[i].1] != 0
    {
      ghost var s0 := St();
      ghost var snaps, fills := MarkGroups();
      ScanMarks(cells, s0.droppedYX, snaps, fills);
      CompletionCheckKeepsInv(s0, framesPerDrop, snapCells, count, coords, eliminate, combo);
      assert CheckedWith(s0, St(), snaps, fills);
    }

    /** The writes of completion_check: the snapshot, the scan, the emptied dropped cells, the phase. */
    method MarkGroups() returns (ghost snaps: seq<Grid>, ghost fills: seq<seq<Cell>>)
      requires Synced() && Legal(cells) && CellsInBounds(droppedYX)
      modifies this`snap, this`snapCells, this`count, this`coords, this`eliminate, this`combo
      modifies this`droppedYX, this`phase
      ensures SnapSynced() && fresh(snap) && phase == old(phase) + 1 && droppedYX == []
      ensures Scanned(old(droppedYX), snaps, fills) && snaps[0] == cells && snaps[|fills|] == snapCells
      ensures eliminate == Marked(fills) && combo == old(combo) + Completed(fills)
      ensures fills == [] ==> count == old(count) && coords == old(coords)
      ensures fills != [] ==> count == |fills[|fills| - 1]| && coords == fills[|fills| - 1]
    {
      TakeSnapshot();
      eliminate := [];
      snaps, fills := ScanGroups();
      droppedYX := [];
      phase := phase + 1;
    }

    /** The snapshot of completion_check: a new array holding a copy of the field. */
    method TakeSnapshot()
      requires Synced()
      modifies this`snap, this`snapCells
      ensures fresh(snap) && SnapSynced() && snapCells == cells
    {
      snap := new int[Rows, Cols];
      forall y, x | 0 <= y < Rows && 0 <= x < Cols {
        snap[y, x] := field[y, x];
      }
      snapCells := cells;
    }

    /**
     * The loop of completion_check over the dropped cells: completion_single
     * at each of them, on the snapshot that the earlier fills have emptied.
     * snaps and fills record the scan: eliminate holds the complete groups
     * in scan order and the combo rises once per complete group.
     */
    method ScanGroups() returns (ghost snaps: seq<Grid>, ghost fills: seq<seq<Cell>>)
      requires SnapSynced() && snapCells == cells && Legal(cells) && CellsInBounds(droppedYX) && eliminate == []
      modifies snap, this`snapCells, this`count, this`coords, this`eliminate, this`combo
      ensures SnapSynced() && Scanned(droppedYX, snaps, fills) && snaps[0] == cells && snaps[|fills|] == snapCells
      ensures eliminate == Marked(fills) && combo == old(combo) + Completed(fills)
      ensures fills == [] ==> count == old(count) && coords == old(coords)
      ensures fills != [] ==> count == |fills[|fills| - 1]| && coords == fills[|fills| - 1]
    {
      snaps, fills := [snapCells], [];
      var i := 0;
      while i < |droppedYX|
        invariant 0 <= i <= |droppedYX|
        invariant SnapSynced() && Legal(snapCells)
        invariant Scanned(droppedYX[..i], snaps, fills) && snaps[0] == cells && snaps[i] == snapCells
        invariant eliminate == Marked(fills) && combo == old(combo) + Completed(fills)
        invariant i == 0 ==> count == old(count) && coords == old(coords)
        invariant i > 0 ==> count == |fills[i - 1]| && coords == fills[i - 1]
      {
        ScanMarks(cells, droppedYX[..i], snaps, fills);
        var (y, x) := droppedYX[i];
        CompletionSingle(x, y);
        ScanAdvance(droppedYX, i, snaps, fills, snapCells, coords);
        snaps, fills := snaps + [snapCells], fills + [coords];
        i := i + 1;
      }
      assert droppedYX[..i] == droppedYX;
    }

    /**
     * remove_beans: build the change list and the drop list from the marked
     * cells, add combo times their number to the score, and empty them.
     */
    method RemoveBeans()
      requires Valid() && phase == 7
      modifies field, this`cells, this`droplist, this`dropOrder, this`score, this`phase
      ensures St() == RemoveBeansSpec(old(St()))
      ensures Valid()
    {
      ghost var s0 := St();
      RemoveBeansKeepsInv(s0, framesPerDrop);
      ClearMarked();
    }

    /** The writes of remove_beans: the drop list and its key order, the score, the emptied cells, the phase. */
    method ClearMarked()
      requires Synced() && CellsInBounds(eliminate)
      modifies field, this`cells, this`droplist, this`dropOrder, this`score, this`phase
      ensures Synced() && cells == ApplyChanges(old(cells), ZeroChanges(eliminate))
      ensures droplist == DropListOf(eliminate) && dropOrder == ColumnOrder(eliminate)
      ensures score == old(score) + combo * |eliminate| && phase == old(phase) + 1
    {
      var changeList := ListRemovals();
      score := score + combo * |eliminate|;
      ZeroChangesEffect(cells, eliminate);
      BeanChange(changeList);
      phase := phase + 1;
    }

    /** The loop of remove_beans: one emptying change per marked cell, and the drop list with its key order. */
    method ListRemovals() returns (changeList: seq<Change>)
      modifies this`droplist, this`dropOrder
      ensures changeList == ZeroChanges(eliminate)
      ensures droplist == DropListOf(eliminate) && dropOrder == ColumnOrder(eliminate)
    {
      changeList := [];
      droplist := map[];
      dropOrder := [];
      for i := 0 to |eliminate|
        invariant changeList == ZeroChanges(eliminate[..i])
        invariant droplist == DropListOf(eliminate[..i]) && dropOrder == ColumnOrder(eliminate[..i])
      {
        var (y, x) := eliminate[i];
        RemoveBeansStep(eliminate, i);
        changeList := changeList + [Change(y, x, 0)];
        if x !in droplist {
          droplist := droplist[x := [y]];
          dropOrder := dropOrder + [x];
        } else {
          droplist := droplist[x := droplist[x] + [y]];
        }
      }
      assert eliminate[..|eliminate|] == eliminate;
    }

    /**
     * completion_drop: with an empty drop list the turn ends; otherwise each
     * column's rows are sorted and passes run until the drop list is empty.
     * A pass pops the first row of every listed column, collects every bean
     * above it, and moves the collected beans down one row, last one first,
     * recording the cells they land in.
     */
    method CompletionDrop()
      requires Valid() && phase == 8
      modifies field, this`cells, this`droplist, this`droppedYX, this`phase
      ensures St() == CompletionDropSpec(old(St()))
      ensures Valid()
    {
      CompletionDropKeepsInv(St(), framesPerDrop);
      DropColumns();
    }

    /** The writes of completion_drop: the turn ends, or the passes run. */
    method DropColumns()
      requires Synced() && Legal(cells) && DropListOk(cells, droplist, dropOrder)
      modifies field, this`cells, this`droplist, this`droppedYX, this`phase
      ensures Synced()
      ensures var s := CompletionDropSpec(old(St()));
        cells == s.cells && droplist == s.droplist && droppedYX == s.droppedYX && phase == s.phase
    {
      if |droplist| == 0 {
        phase := 0;
      } else {
        RunPasses();
      }
    }

    /**
     * The passes of completion_drop: each column's rows are sorted, then
     * passes run until the drop list is empty, and completion_check follows.
     */
    method RunPasses()
      requires Synced() && Legal(cells) && DropListOk(cells, droplist, dropOrder)
      modifies field, this`cells, this`droplist, this`droppedYX, this`phase
      ensures Synced() && cells == AfterPasses(old(cells), old(droplist), old(dropOrder)).0
      ensures droppedYX == old(droppedYX) + AfterPasses(old(cells), old(droplist), old(dropOrder)).1
      ensures droplist == map[] && phase == 6
    {
      var columns := dropOrder;
      SortColumnsOk(cells, droplist, columns);
      SortDropList(columns);
      CascadeLoop(columns);
      phase := 6;
    }

    /** The pass loop of completion_drop: passes run until the drop list is empty. */
    method CascadeLoop(columns: seq<int>)
      requires Synced() && Legal(cells) && Lists(droplist) && Covers(droplist, columns)
      modifies field, this`cells, this`droplist, this`droppedYX
      ensures Synced() && cells == Cascade(old(cells), old(droplist), columns).0
      ensures droppedYX == old(droppedYX) + Cascade(old(cells), old(droplist), columns).1
      ensures droplist == map[]
    {
      ghost var target := Cascade(cells, droplist, columns);
      ghost var dropped0 := droppedYX;
      while |droplist| > 0
        modifies field, this`cells, this`droplist, this`droppedYX
        invariant Synced() && Legal(cells) && Lists(droplist) && Covers(droplist, columns)
        invariant Cascade(cells, droplist, columns).0 == target.0
        invariant droppedYX + Cascade(cells, droplist, columns).1 == dropped0 + target.1
        decreases Pending(droplist, Cols)
      {
        ghost var (g, m, d) := (cells, droplist, droppedYX);
        PassShrinks(g, m, columns);
        CascadeUnfold(g, m, columns, d);
        DropPass(columns);
      }
    }

    /** The sorting loop of completion_drop: the rows of each listed column in ascending order. */
    method SortDropList(columns: seq<int>)
      requires forall x :: x in columns ==> x in droplist
      modifies this`droplist
      ensures droplist == SortColumns(old(droplist), columns)
    {
      ghost var unsorted := droplist;
      for k := 0 to |columns|
        invariant forall x :: x in columns ==> x in droplist
        invariant forall x :: x in droplist <==> x in unsorted
        invariant droplist == SortColumns(unsorted, columns[..k])
      {
        assert columns[..k + 1][..k] == columns[..k];
        assert columns[k] in columns;
        droplist := droplist[columns[k] := SortRows(droplist[columns[k]])];
      }
      assert columns[..|columns|] == columns;
    }

    /**
     * One pass of completion_drop: the droppers are collected, then moved
     * down one row each, last one first, and the cells they land in are
     * appended to dropped_yx.
     */
    method DropPass(columns: seq<int>)
      requires Synced() && Legal(cells) && Lists(droplist)
      modifies field, this`cells, this`droplist, this`droppedYX
      ensures Synced()
      ensures var (ds, rest) := Collect(old(cells), old(droplist), columns);
        droplist == rest && cells == ApplyChanges(old(cells), DropChanges(ds)) &&
        droppedYX == old(droppedYX) + DroppedCells(ds)
    {
      ghost var g := cells;
      var droppers := CollectDroppers(columns);
      var changeList := LowerDroppers(droppers);
      DropChangesLegal(droppers);
      ApplyChangesLegal(g, changeList);
      if |changeList| > 0 {
        BeanChange(changeList);
      }
    }

    /**
     * The change loop of a completion_drop pass: each dropper, last one
     * first, is emptied and written one row lower, and the cell it lands in
     * is appended to dropped_yx.
     */
    method LowerDroppers(droppers: seq<Dropper>) returns (changeList: seq<Change>)
      requires OnField(droppers)
      modifies this`droppedYX
      ensures changeList == DropChanges(droppers) && droppedYX == old(droppedYX) + DroppedCells(droppers)
    {
      changeList := [];
      for k := 0 to |droppers|
        invariant changeList == DropChanges(droppers[|droppers| - k..])
        invariant droppedYX == old(droppedYX) + DroppedCells(droppers[|droppers| - k..])
      {
        var n := |droppers| - 1 - k;
        var dropper := droppers[n];
        assert droppers[n..][1..] == droppers[n + 1..];
        changeList := changeList + [Change(dropper.y, dropper.x, 0), Change(dropper.y + 1, dropper.x, dropper.c)];
        droppedYX := droppedYX + [(dropper.y + 1, dropper.x)];
      }
      assert droppers[0..] == droppers;
    }

    /**
     * The column loop of one completion_drop pass: for each column still in
     * the drop list its first row is popped and the beans above that row are
     * collected, top row first.
     */
    method CollectDroppers(columns: seq<int>) returns (droppers: seq<Dropper>)
      requires Synced() && Lists(droplist)
      modifies this`droplist
      ensures (droppers, droplist) == Collect(cells, old(droplist), columns)
    {
      ghost var m := droplist;
      droppers := [];
      for k := 0 to |columns|
        invariant (droppers, droplist) == Collect(cells, m, columns[..k])
      {
        assert columns[..k + 1][..k] == columns[..k];
        var column := columns[k];
        if column in droplist {
          var hiRow := droplist[column][0];
          droplist := droplist[column := droplist[column][1..]];
          var found := ColumnBeans(column, hiRow);
          droppers := droppers + found;
          if |droplist[column]| == 0 {
            droplist := droplist - {column};
          }
        }
      }
      assert columns[..|columns|] == columns;
    }

    /** The row loop of a pass: the beans of column x above row hiRow, top row first. */
    method ColumnBeans(x: int, hiRow: int) returns (found: seq<Dropper>)
      requires Synced() && 0 <= x < Cols && 0 <= hiRow < Rows
      ensures found == ColumnDroppers(cells, x, hiRow)
    {
      found := [];
      for row := 0 to hiRow
        invariant found == ColumnDroppers(cells, x, row)
      {
        var c := field[row, x];
        if c != 0 {
          found := found + [Dropper(row, x, c)];
        }
      }
    }
  }
}
