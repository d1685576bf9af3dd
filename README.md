# BeanMachine in Dafny

A model of the falling-pair puzzle engine `BeanMachine` (`BeanMachine/bean_machine.py`).
The playing field is a 13 x 6 grid of integers. A cell holds 0 (empty), 1 (a neutral "black"
bean) or 2..6 (a coloured bean). A pair of beans spawns at the top of column 3. The player
moves it, rotates it (with a kick when the rotation is blocked) and drops it. Once it lands,
each bean of the pair falls on its own. Groups of four or more connected beans of one colour
(neutral beans join any group they touch) are removed. The score grows by the combo times
the number of removed beans, and the columns collapse. The collapse may complete new groups,
so the check runs again.

`step()` drives a nine-phase state machine:

| phase | handler |
|---|---|
| 0 | check_loss |
| 1 | next_bean |
| 2 | movement |
| 3 | timer |
| 4 | drop |
| 5 | postdrop |
| 6 | completion_check |
| 7 | remove_beans |
| 8 | completion_drop |

The project has two layers.

**Rules on values.** The modules `Board`, `Pair`, `Gravity`, `Flood`, `Passes` and `Phases` hold these, as functions of the grid (`seq<seq<int>>`):
- Every change to the field is a list of `(row, column, value)` writes applied in order, as `bean_change` does.
- `Pair` gives the pair's moves: where a move, rotation or one-row drop would put the pair, and whether the field allows it.
- `Gravity` collapses a column at its vacated rows.
- `Flood` describes the flood fill of `check_neighbors`.
- `Passes` describes the passes of `completion_drop`.
- `Phases` defines the whole machine state as a value, the invariant `Inv` that holds between steps, and the state each handler produces (`CheckLossSpec`, `MovementSpec`, ...). It proves that every handler keeps `Inv`.

**The machine.** The module `Machine` holds the class `BeanMachine`:
- The field is an `array2<int>`. Alongside it, a ghost grid is kept equal to it cell by cell. The flood-fill snapshot `snap` is a second array.
- The other attributes of the source are fields, updated in place.
- Each handler is a method. Its postcondition says that the new state is the phase's function of the old state (`St() == MovementSpec(old(St()))`) and that `Valid()` still holds.
- Where the source loops, the method loops, with its invariants:
  - the maximum of the top row in `check_loss`;
  - the flag loop of `postdrop`;
  - the removal loop of `remove_beans`;
  - the sort, pass, column and change loops of `completion_drop`.
- `check_neighbors` recurses on the snapshot array, as the source does.

The random colours `random.randint(2, 6)` become parameters `draw2`, `draw1` restricted to 2..6. They are parameters of the constructor, `Reset`, `NextBean` and `Step`.

Two behaviours of the code are worth noting:
- `rotate`'s docstring (BeanMachine/bean_machine.py:306-308, 314-315) says that the rotation fails when bean 1 cannot be pushed away, and that 0 reports a movement blocked by other beans or the field boundaries. The kick at 342-351 reads and writes the kick cell without a bounds check (see Findings). The model adds the check and models the unchecked code separately.
- `next_bean` (BeanMachine/bean_machine.py:201-202) writes the new pair's two cells whatever they hold. The model follows the code. `Phases.SpawnOverwrites` exhibits a bean that passes `check_loss` and is then overwritten by the new pair.

## Model

| member | source | states |
|---|---|---|
| Board.EmptyGrid | BeanMachine/bean_machine.py:76 | the new field: 13 x 6, every cell 0 |
| Board.ApplyChangesLastWins | BeanMachine/bean_machine.py:178-193 | the writes of a change list are applied in list order: the last write to a cell decides its value |
| Board.ApplyChangesUntouched | BeanMachine/bean_machine.py:178-193 | a cell that no write of the list names keeps its value |
| Board.ApplyChangesAppend | BeanMachine/bean_machine.py:178-193 | applying two lists one after the other is applying their concatenation |
| Board.ApplyChangesLegal | BeanMachine/bean_machine.py:178-193 | writing values in 0..6 keeps every cell in 0..6 |
| Pair.NextOrientation | BeanMachine/bean_machine.py:47-50 | the orientation map turns bean 2's offset from bean 1 a quarter turn, clockwise for direction 1 and counter-clockwise for -1 |
| Pair.MoveUpdateIsChangeList | BeanMachine/bean_machine.py:246-263 | move_update is the four-write list: clear bean 1's and bean 2's old cells, write bean 2's new cell, then bean 1's |
| Pair.MoveUpdateEffect | BeanMachine/bean_machine.py:246-263 | after move_update the new cells hold the beans' colours, the old cells not reused are 0, and every other cell is unchanged |
| Pair.MoveUpdateBlocked | BeanMachine/bean_machine.py:246-263 | a bean whose cell below is neither an old nor a new cell of the pair has the same dropcheck after move_update as before |
| Pair.MoveUpdateCompose | BeanMachine/bean_machine.py:444-456 | two successive move_updates through empty cells are one move_update from the first position to the last |
| Pair.MoveUpdateStay | BeanMachine/bean_machine.py:246-263 | a move_update of a placed pair onto its own cells leaves the field unchanged |
| Pair.MoveUpdateLegal | BeanMachine/bean_machine.py:246-263 | move_update with colours in 0..6 keeps the field legal |
| Pair.Leading | BeanMachine/bean_machine.py:288-289 | `direction*max(direction*x1, direction*x2)` is the larger column when moving right and the smaller when moving left |
| Pair.TryMove | BeanMachine/bean_machine.py:265-300 | for touching beans, a move succeeds exactly when both target cells are on the field and either empty or the pair's own cell (so for a pair in one row only the leading cell matters); on success both beans shift one column in the direction, keeping rows and colours |
| Pair.TryHardDrop | BeanMachine/bean_machine.py:359-388 | for touching beans, a one-row drop succeeds exactly when both cells below are on the field and either empty or the pair's own cell (so for a pair in one column only the lower bean's cell matters); on success both beans move down one row |
| Pair.RotateTargetsShape | BeanMachine/bean_machine.py:318-340 | on a pair of the right shape, bean 2's target sits at the new orientation's offset from bean 1, and bean 1's kick cell at the same offset the other way |
| Pair.TryRotate | BeanMachine/bean_machine.py:302-357 | bean 2 takes its target when that is on the field and empty; otherwise bean 1 is kicked and bean 2 takes its old cell; the rotation fails exactly when both the target and the kick cell are off the field or occupied; a success keeps the colours, lands on free cells and has the pair's shape under the new orientation |
| Pair.RotateAsWritten | BeanMachine/bean_machine.py:342-351 | the rotation as the code runs it, with no bounds check on the kick cell (a numpy index wraps, or raises): an index error happens only when the kick cell is off the field and beyond the wrap range |
| Pair.RotateAsWrittenAgrees | BeanMachine/bean_machine.py:342-351 | when the kick cell is on the field, the code's rotation and the checked rotation give the same outcome |
| Pair.KickWrapsAround | BeanMachine/bean_machine.py:342-351 | a pair standing in column 0 on the floor, beside a bean, rotated clockwise: the code moves bean 1 to column -1 (off the field), while the checked rotation refuses |
| Pair.MoveKeepsPlaced | BeanMachine/bean_machine.py:265-300 | a move, successful or not, leaves the pair on the field in its shape and colours, on a legal field |
| Pair.HardDropKeepsPlaced | BeanMachine/bean_machine.py:359-388 | a one-row drop, successful or not, leaves the pair placed on a legal field |
| Pair.RotateKeepsPlaced | BeanMachine/bean_machine.py:302-357 | a rotation, successful or not, leaves the pair placed in its new orientation on a legal field |
| Pair.SpawnPlaced | BeanMachine/bean_machine.py:197-212 | next_bean places the pair upright in column 3, bean 2 on row 0 above bean 1 on row 1, and keeps every other cell |
| Pair.Act | BeanMachine/bean_machine.py:214-244 | an action code outside 1..5 changes nothing; a point is scored exactly when code 5 drops the pair one row |
| Pair.ActKeepsPlaced | BeanMachine/bean_machine.py:214-244 | whatever the action, the pair stays placed on a legal field |
| Pair.LandingRow | BeanMachine/bean_machine.py:417-430 | the row where a bean falling one row at a time stops: at or below its row, where dropcheck holds |
| Pair.LandingRowPassesEmpty | BeanMachine/bean_machine.py:444-453 | on its way to the landing row a falling bean passes only empty cells |
| Gravity.Column | BeanMachine/bean_machine.py:601-604 | column x of the field read top to bottom |
| Gravity.ShiftDownRemovesRow | BeanMachine/bean_machine.py:601-618 | one shift at an empty vacated row removes that row from the column and puts an empty cell on top |
| Gravity.ShiftDownBelow | BeanMachine/bean_machine.py:601-618 | a shift at row r leaves the rows below r alone |
| Gravity.CollapseCons | BeanMachine/bean_machine.py:592-622 | collapsing at a first row and then at the rest is collapsing at the whole list |
| Gravity.CollapseLegal | BeanMachine/bean_machine.py:592-622 | a collapse keeps every cell in 0..6 |
| Gravity.BeansAppend | BeanMachine/bean_machine.py:592-622 | the beans of two concatenated column parts are the beans of each part in order |
| Gravity.CollapseBelow | BeanMachine/bean_machine.py:592-622 | rows below every processed row are not touched |
| Gravity.CollapseKeepsBeans | BeanMachine/bean_machine.py:592-622 | collapsing distinct empty rows, smallest first, keeps every bean of the column in its order and leaves one empty cell on top per row |
| Gravity.AscendingGap | BeanMachine/bean_machine.py:588-590 | in a strictly ascending row list, entries k apart differ by at least k |
| Gravity.Insert | BeanMachine/bean_machine.py:588-590 | inserting into an ascending list keeps it ascending and adds exactly the value |
| Gravity.SortRows | BeanMachine/bean_machine.py:588-590 | `sorted()` of a column's rows: ascending and a permutation of its input |
| Gravity.InsertStrict | BeanMachine/bean_machine.py:588-590 | inserting a new value into a strictly ascending list keeps it strictly ascending |
| Gravity.SortStrict | BeanMachine/bean_machine.py:588-590 | rows without repeats sort into a strictly ascending list |
| Gravity.SortedCollapseKeepsBeans | BeanMachine/bean_machine.py:588-622 | distinct vacated rows, sorted and collapsed, keep every bean of the column in order, with one empty cell on top per row |
| Gravity.RowsInCells | BeanMachine/bean_machine.py:563-570 | the rows listed for a column are exactly the rows of the eliminated cells in that column, without repeats when the cells have none |
| Gravity.DropListOf | BeanMachine/bean_machine.py:563-570 | the drop list has a key for exactly the columns with an eliminated cell, holding their rows in list order |
| Gravity.ColumnOrder | BeanMachine/bean_machine.py:563-570 | the dict's keys: each column with an eliminated cell, once |
| Gravity.ColumnOrderFirstMet | BeanMachine/bean_machine.py:563-570 | the keys come in the order their columns are first met in eliminate: a key precedes another exactly when its first cell comes earlier |
| Flood.AppendFill | BeanMachine/bean_machine.py:498-500 | appending a group's cells to the earlier eliminated cells keeps the list free of repeats and every cell of it emptied in the snapshot |
| Flood.FloodStart | BeanMachine/bean_machine.py:519-524 | visiting the seed (zeroing it in the snapshot and appending it) is one step of the fill and removes a bean from the snapshot |
| Flood.FloodedShrinks | BeanMachine/bean_machine.py:502-552 | a fill only empties snapshot cells: it never adds a bean |
| Flood.FloodedNone | BeanMachine/bean_machine.py:502-552 | a visit that absorbs nothing is a trivial fill |
| Flood.FloodedNeutral | BeanMachine/bean_machine.py:526-552 | a fill from a neutral bean (colour -1) absorbs only neutral beans, so it is a fill of any group colour |
| Flood.FloodedTrans | BeanMachine/bean_machine.py:502-552 | two fills of one colour in a row are one fill |
| Flood.ClosedTrans | BeanMachine/bean_machine.py:502-552 | the neighbours a later fill leaves empty stay empty in the combined fill |
| Flood.SeedStep | BeanMachine/bean_machine.py:526-552 | visiting the next of the four neighbours extends check_neighbors' progress by one neighbour |
| Flood.FillMarksBeans | BeanMachine/bean_machine.py:476-500 | a fill on a snapshot that agrees with the field except for emptied cells finds only cells holding beans, and the snapshot it leaves still agrees with the field except for emptied cells |
| Flood.SeedDone | BeanMachine/bean_machine.py:502-552 | after all four neighbours, no neighbour of a visited cell that the group absorbs is left in the snapshot |
| Passes.ColumnDroppers | BeanMachine/bean_machine.py:601-604 | the row loop: every bean collected above the vacated row can move one row down without leaving the field |
| Passes.ColumnDroppersShape | BeanMachine/bean_machine.py:601-604 | the beans collected from a column above the vacated row are nonempty cells of that column above it, carrying their colours |
| Passes.DropChanges | BeanMachine/bean_machine.py:610-618 | the change list of a pass: two writes per collected bean, all on the field |
| Passes.DropChangesLegal | BeanMachine/bean_machine.py:610-618 | beans of legal colours make a change list that writes only legal values |
| Passes.DroppedCells | BeanMachine/bean_machine.py:610-618 | one dropped cell per collected bean, each on the field |
| Passes.DropChangesAppend | BeanMachine/bean_machine.py:612 | the changes are written from the last collected bean to the first |
| Passes.DroppedCellsAppend | BeanMachine/bean_machine.py:612 | the dropped cells are recorded from the last collected bean to the first |
| Passes.RowDropper | BeanMachine/bean_machine.py:601-604 | the bean of one cell as a collected bean, or none when the cell is empty |
| Passes.DropperWrites | BeanMachine/bean_machine.py:612-616 | the two changes of one bean empty its cell, fill the cell below with its colour, and leave every other cell alone |
| Passes.RowDropperWrites | BeanMachine/bean_machine.py:601-616 | the changes of the bean of one row, if the cell holds one, empty that cell and fill the cell below; an empty cell changes nothing |
| Passes.ShiftFromStep | BeanMachine/bean_machine.py:601-618 | extending the column's shift one row up moves the bean of that row, if any, down into the row below and changes no other cell of the column |
| Passes.ShiftOneRow | BeanMachine/bean_machine.py:610-618 | moving the bean of the next row up extends the column's shift by one row |
| Passes.ApplyColumnDroppers | BeanMachine/bean_machine.py:610-618 | since the beans are written from the last collected to the first, the bean just above a row is written before those higher up |
| Passes.ColumnPassStep | BeanMachine/bean_machine.py:610-618 | writing the bean just above a row, then the beans above it, is writing all the beans above that row, and the column's shift grows by one row |
| Passes.ColumnPass | BeanMachine/bean_machine.py:601-618 | the changes of the beans above the vacated row shift that column down by one row there and touch no other cell |
| Passes.Pop | BeanMachine/bean_machine.py:599-608 | popping the first row of a column, and its key once the list is empty, keeps the drop list well formed |
| Passes.Collect | BeanMachine/bean_machine.py:595-608 | the column loop of a pass: the collected beans can all move one row down and carry the colours the field had at the start of the pass |
| Passes.CollectPops | BeanMachine/bean_machine.py:595-608 | a pass over distinct columns pops exactly one row of every listed column and drops exactly the keys with one row left |
| Passes.CollectSameColumns | BeanMachine/bean_machine.py:595-608 | the beans a pass collects depend only on the columns it visits |
| Passes.ColumnDroppersSame | BeanMachine/bean_machine.py:601-604 | the beans collected in a column depend only on that column |
| Passes.PassShifts | BeanMachine/bean_machine.py:592-622 | the change list of one pass shifts each listed column at its first row |
| Passes.PassShiftsLast | BeanMachine/bean_machine.py:592-622 | the step of PassShifts for one more listed column, whose changes are written first |
| Passes.HeadsExtend | BeanMachine/bean_machine.py:592-622 | shifting one column and then the others shifts all of them |
| Passes.PendingShrinks | BeanMachine/bean_machine.py:592 | fewer rows in one column and no more in any other means fewer rows pending |
| Passes.PendingBounded | BeanMachine/bean_machine.py:592 | no column gains rows, so no more rows are pending |
| Passes.PassShrinks | BeanMachine/bean_machine.py:592-608 | each pass over a non-empty drop list leaves fewer rows pending, so the while loop ends |
| Passes.Cascade | BeanMachine/bean_machine.py:592-622 | the passes until the drop list is empty keep the field legal and record only cells on the field |
| Passes.PassLegal | BeanMachine/bean_machine.py:592-622 | a pass over a field of legal values writes only legal values, so the field stays legal |
| Passes.CascadeUnfold | BeanMachine/bean_machine.py:592-622 | the passes are the first pass followed by the passes from the field it leaves |
| Passes.CascadeCollapses | BeanMachine/bean_machine.py:592-622 | the passes collapse every column of the drop list at its rows in list order and leave the other columns alone |
| Passes.CollapseStep | BeanMachine/bean_machine.py:592-622 | shifting at each list's first row, then collapsing at the rest, is collapsing at the whole list |
| Phases.ResetKeepsInv | BeanMachine/bean_machine.py:111-126 | reset leads to a state satisfying the invariant from any state |
| Phases.CheckLossKeepsInv | BeanMachine/bean_machine.py:162-176 | check_loss keeps the invariant and hands over to next_bean |
| Phases.NextBeanKeepsInv | BeanMachine/bean_machine.py:197-212 | next_bean keeps the invariant, which includes the new pair placed on a legal field and the next colours in 2..6 |
| Phases.SpawnOverwrites | BeanMachine/bean_machine.py:197-202 | a bean at (1, 3) under an empty top row passes check_loss and is then overwritten by next_bean |
| Phases.MovementKeepsInv | BeanMachine/bean_machine.py:214-244 | movement keeps the invariant, the pair placed on a legal field |
| Phases.TimerFiresOnLastFrame | BeanMachine/bean_machine.py:390-404 | from a zeroed counter the timer goes on to drop on exactly the frames_per_drop-th frame and back to movement before it |
| Phases.TimerKeepsInv | BeanMachine/bean_machine.py:390-404 | timer keeps the invariant and the counter below frames_per_drop |
| Phases.DropKeepsInv | BeanMachine/bean_machine.py:406-415 | drop keeps the invariant, which includes that postdrop starts only with a pair that cannot fall |
| Phases.PostdropKeepsInv | BeanMachine/bean_machine.py:432-460 | postdrop keeps the invariant, which includes that the recorded dropped cells are on the field |
| Phases.PostdropStep | BeanMachine/bean_machine.py:444-456 | in each pass of postdrop's loop, dropcheck holds for a bean exactly when it has reached its settled row, and the two beans never share a cell |
| Phases.PostdropCheckFirst | BeanMachine/bean_machine.py:444-450 | dropcheck holds for bean 1 exactly at its settled row |
| Phases.PostdropCheckSecond | BeanMachine/bean_machine.py:444-456 | dropcheck holds for bean 2 exactly at its settled row |
| Phases.PostdropStacked | BeanMachine/bean_machine.py:444-456 | a vertical pair found by postdrop stays where it is, each bean blocked exactly where the field already blocks it |
| Phases.PostdropApartFirst | BeanMachine/bean_machine.py:444-450 | with the beans in two columns, dropcheck holds for bean 1 exactly at its landing row |
| Phases.PostdropApartSecond | BeanMachine/bean_machine.py:444-456 | with the beans in two columns, dropcheck holds for bean 2 exactly at its landing row |
| Phases.BlockedAtLanding | BeanMachine/bean_machine.py:444-456 | between its row and its landing row, dropcheck holds for a bean exactly at the landing row |
| Phases.PostdropSettles | BeanMachine/bean_machine.py:432-460 | postdrop lets each bean fall to its own landing row, keeps both colours, and leaves each resting on the floor or on a bean |
| Phases.SettledIsLanding | BeanMachine/bean_machine.py:444-450 | when the partner's cell holds a bean, the row postdrop settles a bean in is the row it would reach by falling alone |
| Phases.CompletionCheckKeepsInv | BeanMachine/bean_machine.py:462-480 | completion_check keeps the invariant whenever it marks cells on the field, none twice, without lowering the combo |
| Phases.ZeroChangesEffect | BeanMachine/bean_machine.py:563-574 | the removal writes empty exactly the eliminated cells and keep every other cell |
| Phases.RemoveBeansStep | BeanMachine/bean_machine.py:563-570 | one more eliminated cell appends its write and adds its row to its column's list, or a new key at the end |
| Phases.RemoveBeansEffect | BeanMachine/bean_machine.py:554-577 | remove_beans empties exactly the eliminated cells, and the drop list holds exactly their rows under exactly their columns |
| Phases.RemovalDropListOk | BeanMachine/bean_machine.py:560-570 | emptying distinct marked cells gives a drop list whose rows are distinct emptied cells of each column, with a column order that lists each key exactly once |
| Phases.RemoveBeansKeepsInv | BeanMachine/bean_machine.py:554-577 | remove_beans keeps the invariant, which includes a drop list of distinct emptied rows per column, in key order, as completion_drop needs |
| Phases.SortColumns | BeanMachine/bean_machine.py:588-590 | sorting the listed columns keeps the keys of the drop list |
| Phases.SortColumnsSorts | BeanMachine/bean_machine.py:588-590 | each listed column ends with its rows sorted once, and the others are untouched |
| Phases.SortColumnsOk | BeanMachine/bean_machine.py:588-590 | the sorted drop list is well formed for the passes |
| Phases.CompletionDropKeepsInv | BeanMachine/bean_machine.py:579-625 | completion_drop keeps the invariant and goes to check_loss on an empty drop list, to completion_check otherwise |
| Phases.CompletionDropCollapses | BeanMachine/bean_machine.py:579-625 | completion_drop collapses each column of the drop list at its rows, smallest first, and leaves the other columns alone |
| Phases.CompletionDropKeepsBeans | BeanMachine/bean_machine.py:579-625 | completion_drop keeps the beans of every column in their order, with one empty cell on top per vacated row |
| Phases.CollapsedColumnKeepsBeans | BeanMachine/bean_machine.py:592-622 | a column collapsed over distinct vacated rows keeps its beans in order and has one empty cell on top per vacated row |
| Machine.BeanMachine.constructor | BeanMachine/bean_machine.py:54-109 | an empty field, score and combo 0, game on, phase 1, the two drawn colours next, frames_per_drop as given (3 by default), and the invariant |
| Machine.BeanMachine.Reset | BeanMachine/bean_machine.py:111-126 | a new empty field, score and combo 0, game on, phase 1, two new colours, and the invariant |
| Machine.BeanMachine.ClearField | BeanMachine/bean_machine.py:115 | a new all-zero field array |
| Machine.BeanMachine.ResetCounters | BeanMachine/bean_machine.py:116-126 | the counters and next colours as reset sets them |
| Machine.BeanMachine.Step | BeanMachine/bean_machine.py:128-134 | a finished game changes nothing; otherwise the new state is the one the current phase's handler gives (StepSpec); the phase moves along the cycle of phase_map, the score never goes down, and the invariant holds |
| Machine.BeanMachine.PairPhase | BeanMachine/bean_machine.py:96-100 | phases 0 to 4 give the state of check_loss, next_bean, movement, timer or drop (StepSpec), and keep the invariant |
| Machine.BeanMachine.BoardPhase | BeanMachine/bean_machine.py:101-104 | phases 5 to 8 give the state of postdrop, completion_check (as its scan allows), remove_beans or completion_drop (StepSpec), and keep the invariant |
| Phases.StepKeepsInv | BeanMachine/bean_machine.py:128-134 | every step keeps the invariant and never lowers the score; a finished game stays as it is, and otherwise the phase moves along the cycle |
| Phases.PairStepKeepsInv | BeanMachine/bean_machine.py:96-100 | the handlers of phases 0 to 4 keep the invariant, never lower the score and follow the cycle |
| Phases.BoardStepKeepsInv | BeanMachine/bean_machine.py:101-104 | the handlers of phases 5 to 8 keep the invariant, never lower the score and follow the cycle |
| Phases.PostdropStepOk | BeanMachine/bean_machine.py:432-460 | postdrop keeps the invariant and the score and hands over to completion_check |
| Phases.RemoveBeansStepOk | BeanMachine/bean_machine.py:554-577 | remove_beans keeps the invariant, does not lower the score and hands over to completion_drop |
| Phases.CompletionDropStepOk | BeanMachine/bean_machine.py:579-625 | completion_drop keeps the invariant and the score and hands over to check_loss or completion_check |
| Phases.CheckedKeepsInv | BeanMachine/bean_machine.py:462-480 | a completion_check its scan allows keeps the invariant, keeps the score, leads to remove_beans and raises the combo by at most one per dropped cell |
| Machine.BeanMachine.CheckLoss | BeanMachine/bean_machine.py:162-176 | combo 0, game over exactly when (or already) a top-row cell holds a bean, phase 1, nothing else changed |
| Machine.BeanMachine.BeanChange | BeanMachine/bean_machine.py:178-193 | the field array afterwards is the change list applied in order |
| Machine.BeanMachine.NextBean | BeanMachine/bean_machine.py:197-212 | the pair spawned upright at column 3 in the next colours, the new colours drawn, the counter 0, phase 2 |
| Machine.BeanMachine.SpawnNext | BeanMachine/bean_machine.py:200-212 | the two spawn writes, the new pair and orientation, the drawn colours, the counter 0, the phase advanced |
| Machine.BeanMachine.Movement | BeanMachine/bean_machine.py:214-244 | the pending action carried out as Act says, the action cleared, phase 3 |
| Machine.BeanMachine.PerformAction | BeanMachine/bean_machine.py:228-244 | the field, pair, orientation and score change exactly as Act says for the pending action |
| Machine.BeanMachine.MoveUpdate | BeanMachine/bean_machine.py:246-263 | the field array is the move_update of the old field, and the beans take the new cells with their colours |
| Machine.BeanMachine.Move | BeanMachine/bean_machine.py:265-300 | returns 1 exactly when TryMove succeeds; the field and pair are as AfterMove says (unchanged on failure) and stay placed |
| Machine.BeanMachine.Rotate | BeanMachine/bean_machine.py:302-357 | returns 1 exactly when TryRotate succeeds; field, pair and orientation as AfterRotate says (orientation_dict only on success) |
| Machine.BeanMachine.HardDrop | BeanMachine/bean_machine.py:359-388 | returns 1 exactly when TryHardDrop succeeds; field and pair as AfterHardDrop says; the score grows by the returned value |
| Machine.BeanMachine.Timer | BeanMachine/bean_machine.py:390-404 | one more frame; on the frames_per_drop-th the counter resets and drop follows, otherwise movement |
| Machine.BeanMachine.Drop | BeanMachine/bean_machine.py:406-415 | hard_drop; phase 2 after a drop (with its point), phase 5 when the pair cannot fall |
| Machine.BeanMachine.Fall | BeanMachine/bean_machine.py:408-415 | the field, pair and score after hard_drop, and the phase its result selects |
| Machine.BeanMachine.DropCheck | BeanMachine/bean_machine.py:417-430 | true exactly when the bean is on the floor or the cell below holds a bean |
| Machine.BeanMachine.Postdrop | BeanMachine/bean_machine.py:432-460 | each bean moved to its settled row by the flag loop, both final cells recorded in dropped_yx, phase 6 |
| Machine.BeanMachine.Settle | BeanMachine/bean_machine.py:436-460 | the flag loop: the field is one move_update of the pair to the two settled rows, the dropped cells are those rows, and the phase advances |
| Machine.BeanMachine.VisitAll | BeanMachine/bean_machine.py:526-552 | the four neighbour checks after the seed is taken: the seed stays first, only group cells connected to earlier ones are found, each once, and no absorbable neighbour is left behind |
| Machine.BeanMachine.CheckNeighbors | BeanMachine/bean_machine.py:502-552 | the fill appends the seed first, then only cells of the group reached from earlier ones, empties exactly them in the snapshot, leaves no absorbable neighbour behind, and counts each once |
| Machine.BeanMachine.Visit | BeanMachine/bean_machine.py:526-552 | one neighbour check of check_neighbors: recurse on a matching colour, or with -1 on a neutral bean; the fill's progress extends by one neighbour |
| Machine.BeanMachine.CompletionSingle | BeanMachine/bean_machine.py:482-500 | a seed of value 0 or 1 finds nothing; otherwise the found cells are the seed's group, each once; a group of four or more is appended to eliminate and the combo grows by 1 |
| Machine.BeanMachine.CompletionCheck | BeanMachine/bean_machine.py:462-480 | the new state is one CompletionCheckSpec allows: the marked cells are the complete groups found from the dropped cells in order, on a fresh snapshot that earlier fills emptied, and the combo grows once per complete group; each combo step marks at least four cells; no more steps than dropped cells; only beans are marked; dropped_yx emptied; phase 7 |
| Machine.BeanMachine.TakeSnapshot | BeanMachine/bean_machine.py:471 | the snapshot is a new array holding the field's current values |
| Machine.BeanMachine.ScanGroups | BeanMachine/bean_machine.py:475-477 | the loop over dropped_yx is a scan (Scanned): each fill is completion_single's result for that seed on the snapshot the earlier fills left; eliminate is the concatenation of the fills of four or more cells, and the combo grows by their number; count and coords are those of the last fill |
| Machine.BeanMachine.MarkGroups | BeanMachine/bean_machine.py:466-480 | eliminate reset, a snapshot of the field, the scan over dropped_yx as ScanGroups states it, dropped_yx emptied and the phase advanced |
| Phases.ScannedExtend | BeanMachine/bean_machine.py:476-477 | one more completion_single extends the scan, appending its fill to the marked cells when it has four or more cells and counting it in the combo |
| Phases.ScanAdvance | BeanMachine/bean_machine.py:476-477 | the scan of the first i dropped cells, one completion_single later, is the scan of the first i + 1 |
| Phases.ScannedPrefix | BeanMachine/bean_machine.py:476-477 | every prefix of a scan is a scan |
| Phases.MarkStep | BeanMachine/bean_machine.py:482-500 | one completion_single marks beans of the field not marked before, and leaves the snapshot a partly emptied copy of the field |
| Phases.ScanMarks | BeanMachine/bean_machine.py:462-500 | a scan marks only beans of the field, none twice, all emptied in the last snapshot; each combo step marks at least four cells, there is at most one per dropped cell, and nothing is marked exactly when the combo does not rise |
| Machine.BeanMachine.RemoveBeans | BeanMachine/bean_machine.py:554-577 | the eliminated cells emptied, the drop list built, the score grown by combo times the number eliminated, phase 8 |
| Machine.BeanMachine.ClearMarked | BeanMachine/bean_machine.py:560-577 | the removal writes applied, the drop list and its key order built, the score and phase updated |
| Machine.BeanMachine.ListRemovals | BeanMachine/bean_machine.py:560-570 | the loop over eliminate builds the removal writes and the drop list with its key order |
| Machine.BeanMachine.CompletionDrop | BeanMachine/bean_machine.py:579-625 | phase 0 on an empty drop list; otherwise the columns collapsed by the passes, the moved beans' cells appended to dropped_yx, the drop list emptied, phase 6 |
| Machine.BeanMachine.DropColumns | BeanMachine/bean_machine.py:583-625 | the two branches of completion_drop as CompletionDropSpec says |
| Machine.BeanMachine.RunPasses | BeanMachine/bean_machine.py:587-625 | sorting and then the passes: the field and dropped_yx as AfterPasses says, the drop list empty, phase 6 |
| Machine.BeanMachine.CascadeLoop | BeanMachine/bean_machine.py:592-622 | the while loop: the field and the appended dropped cells are those of Cascade, and the drop list ends empty |
| Machine.BeanMachine.SortDropList | BeanMachine/bean_machine.py:588-590 | every listed column's rows sorted |
| Machine.BeanMachine.DropPass | BeanMachine/bean_machine.py:593-622 | one pass: the collected beans, the drop list after the pops, their changes written and their new cells appended |
| Machine.BeanMachine.LowerDroppers | BeanMachine/bean_machine.py:610-618 | the change loop, last collected bean first: two writes per bean and its new cell appended to dropped_yx |
| Machine.BeanMachine.ColumnBeans | BeanMachine/bean_machine.py:601-604 | the row loop of one column finds exactly the beans ColumnDroppers names |
| Machine.BeanMachine.CollectDroppers | BeanMachine/bean_machine.py:595-608 | the column loop: the beans above each popped row and the drop list after the pops, as Collect says |

## Left out

- `time.sleep`, `seconds_per_frame`, the `print` in check_loss and the commented-out display code: pacing, logging and rendering with no effect on the state. Only `display_next_beans`' reset of `timesteps` is kept.
- `random.seed` and `random.randint(2, 6)`: the colours are parameters restricted to 2..6.
- Sandbox/meanbean.py, Sandbox/screenwatcher.py, GymEnvironments/bean_gym_controller.py and GymEnvironments/bean_gym/bean_gym/envs/bean_gym_env.py are not part of this model. They are an interactive copy of the game, screen capture and reinforcement-learning adapters around the engine.
- `phase_map` with a phase outside 0..8 (a `KeyError` in the code): unreachable, because the invariant keeps the phase in 0..8.
- Machine.BeanMachine.CompletionCheck, Phases.StepSpec: completion_check is specified by a relation, not a function: the model states that the marked cells are the groups of the scan, each an exact group, but not the order in which check_neighbors lists the cells inside one group. That order is observable later. It fixes the insertion order of remove_beans' dict, hence the column order of the passes and the order of dropped_yx. That order in turn decides which seed's group takes a neutral bean touching two groups in the next completion_check. So the combo and the score of later cascade steps are not determined by StepSpec, only bounded by it.
- Pair.RotateAsWritten: models the outcome of the unchecked kick (including the wrapped read and the IndexError). It does not model the later moves of a pair left off the field.
- Pair.TryMove, Pair.TryHardDrop: the "exactly when" direction is stated for pairs whose beans touch. That holds for every pair the machine controls.
- Python's arbitrary-precision integers and numpy's int64 cells hold only values 0..6 and small counters here, so no overflow is modelled.
- The flood-fill snapshot is a new array on each completion_check (a numpy copy). Aliasing with the field is ruled out by the invariant.

## Findings

| source | as written | input that shows it | evidently intended | confidence | as-written member | corrected member |
|---|---|---|---|---|---|---|
| BeanMachine/bean_machine.py:342-351 | when bean 2's target is blocked, the kick cell `field[y1m, x1m]` is read and written without a bounds check; a negative index wraps to the far column or row, and 6 or 13 raises IndexError | bean 1 at (12, 0), bean 2 at (11, 0) (upright), a bean at (12, 1), `rotate(1)`: the kick cell is (12, -1); numpy reads (12, 5), which is empty, so bean 1 is moved to column -1 | the kick fails, like bean 2's target, when the kick cell is off the field | not executed | Pair.KickWrapsAround | Pair.TryRotate |
