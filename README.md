# ChessForm move list, in Dafny

This project models the core of the chess program's Windows Forms front end
(`ChessUi/ChessForm.cs`). The centre of that core is the **move list** (`listView1`). It is a
table with one row per move number. Each row holds:

- sub-item 0: the move number;
- sub-item 1: White's move;
- sub-item 2: Black's move, when there is one;
- further sub-items, which the code can add but never shows in the ply list.

One cell at a time is highlighted. That cell is the ply the game currently stands on.

The model covers these operations:

- **Recording a move** (`MoveToList`). A backwards loop first removes the rows a move makes
  obsolete. Then a White move opens a new row and a Black move joins the last row. The last
  ply becomes the highlighted one.
- **Flattening** (`GetMoveListItems`). The rows become a list of plies: each row's White cell,
  then its Black cell.
- **Stepping back and forward** (`MoveBackWards`, `MoveForWards`). The highlight moves by one
  ply. The game is told to undo one move, or to play the next one again.
- **`Undo`, `StopAi` and the key handler.**
- **Loading a game** (`LoadFile`). Both players' moves are ordered by move number and then by
  colour, and each is recorded as a move without search information.
- **The engine-move decision** at the head of `EngineMove`. It says whether the engine is asked
  to move, and with which think time.
- **The progress-bar timer tick.**

Modules:

- `Wrappers`: `Option`.
- `Chess`: the game's values the form handles. These are colours, moves, evaluations, and the
  commands the form sends to the game and to the engine.
- `MoveLedger`: the move list as a value. It holds flattening, the removal loop's result
  (`Truncate`), recording (`Appended`), one navigation step (`Backward`, `Forward`) and the
  lemmas about them.
- `LoadOrder`: the load order (a stable sort by move number, then colour) and what replaying a
  game does to the list.
- `Automation`: the engine-move decision, `ComputerIsOff`, and the progress tick.
- `ChessUi`: the class `ChessForm`, which holds the form's state. That state is:
  - the rows;
  - the highlighted ply, as an index into the flattened list;
  - the log of calls made on the game and on the engine;
  - the two check boxes and the board orientation;
  - the two `ProgressBar` objects.

  Its methods change that state step by step as the C# does. The methods that record,
  browse, load and tick are proved against the specification functions of `MoveLedger`,
  `LoadOrder` and `Automation`. `Flipp`, `NewGame`, `StopAi` and the constructor only set
  fields, and their contracts state the new value of every field directly.

The game and the engine are not part of this model. The form's calls on them
(`UndoLastMove`, `PerformLegalMove`, `Abort`, `New`) are recorded in the `issued` log. The
side the engine is thinking for, whether the game has ended, and the side to move are
parameters.

The model follows the code as written. Where the code's behaviour is surprising, it is proved
as such:

- The removal loop takes a row's Black cell away only when the row has more than three
  sub-items (ChessUi/ChessForm.cs:42). A Black move recorded on a row that already has a
  Black cell therefore becomes a fourth, invisible sub-item. This happens, for example, after
  stepping back to White's move and playing a different Black reply. The flattened list then
  still shows the old reply (`DivergingBlackKeepsStaleCell`). The intended "remove, then add"
  behaviour holds exactly when the last remaining row has no Black cell
  (`BlackAppendShowsMove`, `BlackAppendHidesMove`).
- The decision and think-time controls are per control, not per colour. With the board
  flipped, the "White" check box and think time serve Black and vice versa
  (`EngineRequestByServingControls`, `FlipSwapsControls`).
- A Black move that finds no row left fails on an index out of range. It is modelled as a
  failed recording that leaves an empty list.
- Loading does not clear the list first. A game without moves leaves the list as it was.

## Model

| member | source | states |
|---|---|---|
| MoveLedger.FlattenLength | ChessUi/ChessForm.cs:64-76 | The ply list has one entry per row plus one per row that has a Black cell. |
| MoveLedger.ExtraCellsInvisible | ChessUi/ChessForm.cs:68-73 | Adding cells after a row's Black cell (sub-item 3 and beyond) never changes the ply list. |
| MoveLedger.FlattenEntryFromRow | ChessUi/ChessForm.cs:66-74 | Every entry of the ply list is the White cell or the Black cell of some row. |
| MoveLedger.Trimmed | ChessUi/ChessForm.cs:37-44 | One pass of the removal loop leaves at most the row it looked at, with its number and White cell intact. |
| MoveLedger.Truncate | ChessUi/ChessForm.cs:36-45 | The removal loop never adds rows. |
| MoveLedger.TruncateBounds | ChessUi/ChessForm.cs:36-45 | Every row the removal loop keeps is numbered at most the move's number, and strictly below it for a White move. |
| MoveLedger.TruncateForWhite | ChessUi/ChessForm.cs:36-40 | For a White move numbered n, the loop keeps exactly the rows numbered below n, in order. |
| MoveLedger.TruncateForBlack | ChessUi/ChessForm.cs:36-44 | For a Black move numbered n, the loop keeps exactly the rows numbered at most n, in order. Row n loses its Black cell only when it has more than three sub-items. |
| MoveLedger.Attached | ChessUi/ChessForm.cs:46-58 | The adding step fails exactly when a Black move finds no row. Otherwise the list is not empty; a White move keeps every row before it and a Black move keeps every row but the last, which it changes. |
| MoveLedger.Appended | ChessUi/ChessForm.cs:36-58 | Recording a White move never fails. A successful recording leaves at least one row and at most one row more than before. |
| MoveLedger.AppendWhite | ChessUi/ChessForm.cs:36-55 | A White move numbered n leaves the rows numbered below n followed by one new row numbered n holding only that move. The row count is the number of rows below n, plus one. |
| MoveLedger.AppendBlack | ChessUi/ChessForm.cs:36-57 | A Black move numbered n fails exactly when no row numbered at most n exists. Otherwise it keeps that many rows and adds its cell after the last row's existing cells. |
| MoveLedger.BlackAppendShowsMove | ChessUi/ChessForm.cs:41-57 | When the last row the removal loop keeps has no Black cell, recording a Black move gives the ply list of the kept rows followed by exactly that move. |
| MoveLedger.BlackAppendHidesMove | ChessUi/ChessForm.cs:41-57 | When the last row the removal loop keeps already has a Black cell, recording a Black move gives exactly the ply list of the kept rows: the new move does not appear. |
| MoveLedger.DivergingBlackKeepsStaleCell | ChessUi/ChessForm.cs:41-57 | Row 1 holds e2e4 and e7e5. A different Black reply d7d5 becomes a fourth sub-item, and the ply list still reads e2e4, e7e5. |
| MoveLedger.AppendedIncreasing | ChessUi/ChessForm.cs:36-58 | Recording a move keeps the row numbers strictly increasing. |
| MoveLedger.AppendedNonEmpty | ChessUi/ChessForm.cs:59-61 | After a successful recording the ply list is not empty, so its last entry exists to be highlighted. |
| MoveLedger.FlattenFront | ChessUi/ChessForm.cs:64-76 | The ply list of the first k rows is a prefix of the whole ply list. |
| MoveLedger.Backward | ChessUi/ChessForm.cs:78-99 | Stepping back is a no-op exactly when nothing has been played (empty list or no highlight). Otherwise the highlight moves one ply back, to none from the first ply, and exactly one UndoLastMove is issued. The highlight stays within the list. |
| MoveLedger.Forward | ChessUi/ChessForm.cs:101-130 | Stepping forward is a no-op exactly when the last ply is highlighted or the list is empty. Otherwise the next ply is highlighted (the first ply when none is) and exactly one PerformLegalMove of that ply's move is issued. |
| MoveLedger.BackThenForward | ChessUi/ChessForm.cs:91-126 | Back then forward from ply i restores the highlight on ply i. The game is told to undo one move and then to play ply i's move. |
| MoveLedger.ForwardThenBack | ChessUi/ChessForm.cs:91-126 | Forward then back from any position before the end restores the highlight. The back step issues exactly one undo. |
| LoadOrder.Insert | ChessUi/ChessForm.cs:237 | Inserting one move lengthens the list by exactly one. Sortedness and contents are in InsertSorted and InsertPermutation. |
| LoadOrder.SortMoves | ChessUi/ChessForm.cs:237 | The sort keeps the number of moves. Sortedness and contents are in SortMovesSortedPermutation. |
| LoadOrder.ReplayOrder | ChessUi/ChessForm.cs:234-237 | The load order holds as many moves as both players made together. |
| LoadOrder.Replayed | ChessUi/ChessForm.cs:239-241 | Replaying moves adds at most one row per move. |
| LoadOrder.InsertSorted | ChessUi/ChessForm.cs:237 | Inserting a move into a list sorted by (number, colour) keeps it sorted. |
| LoadOrder.InsertPermutation | ChessUi/ChessForm.cs:237 | Inserting a move adds exactly that move. |
| LoadOrder.SortMovesSortedPermutation | ChessUi/ChessForm.cs:234-237 | The load order is sorted by move number, then colour, and holds exactly the moves of both players. |
| LoadOrder.ReplayOrderIsPlayOrder | ChessUi/ChessForm.cs:234-237 | For a game as played (White and Black alternating from some number), the load order is the order of play. |
| LoadOrder.ReplayAfterDone | ChessUi/ChessForm.cs:239-241 | Replaying a game as played after rows numbered below its first move appends one row per White move holding it and its Black reply. |
| LoadOrder.LoadRebuildsHistory | ChessUi/ChessForm.cs:231-242 | Loading a game numbered from 1 over any list numbered from 1 leaves exactly the rows of that game. A game without moves leaves the list unchanged. |
| LoadOrder.FlattenPaired | ChessUi/ChessForm.cs:64-76 | The ply list of a loaded game is its moves in the order of play. |
| LoadOrder.FlattenPairedPrefix | ChessUi/ChessForm.cs:64-76 | The game cut after move k, where Black has made k moves, shows exactly the first 2k plies of the whole game. |
| LoadOrder.TruncateNumberedWhite | ChessUi/ChessForm.cs:36-40 | On rows numbered consecutively from some first number, a White move numbered n keeps exactly the rows before row n. |
| LoadOrder.TruncateNumberedBlack | ChessUi/ChessForm.cs:36-44 | On rows numbered consecutively, a Black move numbered n keeps exactly the rows up to row n when row n has at most three sub-items. |
| LoadOrder.RecordWhiteAfterRewind | ChessUi/ChessForm.cs:33-58 | On a game as played, a White move numbered k+1 leaves the first k moves of each player and a new row holding the move. The ply list is theirs plus the move. |
| LoadOrder.RecordBlackAfterRewind | ChessUi/ChessForm.cs:33-58 | On a game as played, a Black move numbered k+1 succeeds and gives the ply list of the first k+1 moves of each player: the row keeps its old reply and the new move is not shown. |
| LoadOrder.RewindThenRecord | ChessUi/ChessForm.cs:33-62 | After browsing back in a game as played, playing the next move succeeds. For White, the ply list becomes the plies up to the highlight followed by the new move. For Black, it becomes the plies up to and including the old reply, not the new move. |
| Automation.EngineRequest | ChessUi/ChessForm.cs:268-289 | The engine is asked to move only while the game goes on and some check box is ticked, and then with one of the two think times. |
| Automation.EngineRequestByServingControls | ChessUi/ChessForm.cs:268-289 | The engine is asked to move exactly when the game goes on and the check box serving the side to move is ticked. It gets that control pair's think time. The serving pair is the side's own unflipped and the other side's when flipped. |
| Automation.FlipSwapsControls | ChessUi/ChessForm.cs:271-289 | Flipping the board acts exactly like swapping both check boxes and both think-time controls. |
| Automation.OffMeansNoRequest | ChessUi/ChessForm.cs:161-163 | With automation off the engine is never asked to move. |
| Automation.OnMeansSomeRequest | ChessUi/ChessForm.cs:161-163 | With automation on, some side to move gets a request while the game goes on. |
| Automation.Ticked | ChessUi/ChessForm.cs:412-418 | A tick raises a bar by zero or one and never lifts it past its maximum. |
| Automation.TickStaysInRange | ChessUi/ChessForm.cs:412-418 | A tick raises a bar by at most one and never past its maximum. It leaves the bar unchanged exactly when it is full. |
| Automation.TicksSaturate | ChessUi/ChessForm.cs:412-418 | After k ticks a bar shows the smaller of its start plus k and its maximum. |
| ChessUi.ChessForm.constructor | ChessUi/ChessForm.cs:26-31 | The form starts with an empty list, no highlight, a new game, automation off and an unflipped board. |
| ChessUi.ChessForm.GetMoveListItems | ChessUi/ChessForm.cs:64-76 | The loop returns the ply list (the flattened rows). |
| ChessUi.ChessForm.RemoveFutureMoves | ChessUi/ChessForm.cs:36-45 | The backwards removal loop leaves exactly Truncate of the old rows and changes nothing else. |
| ChessUi.ChessForm.TrimRow | ChessUi/ChessForm.cs:37-44 | One pass of the removal loop replaces row i by what Trimmed keeps of it and changes nothing else. |
| ChessUi.ChessForm.AddToList | ChessUi/ChessForm.cs:47-58 | The adding step opens a row for White, or adds a cell to the last row for Black. It fails, changing nothing, when Black finds no row. |
| ChessUi.ChessForm.HighlightLast | ChessUi/ChessForm.cs:59-61 | The last ply of the list becomes the highlighted one. |
| ChessUi.ChessForm.MoveToList | ChessUi/ChessForm.cs:33-62 | Recording leaves the rows Appended describes and highlights the last ply. It fails exactly when Appended does, leaving an empty list. Row numbers stay increasing and the highlight in range. |
| ChessUi.ChessForm.MoveBackWards | ChessUi/ChessForm.cs:78-99 | The highlight and the game calls are those of Backward. The rows are unchanged. |
| ChessUi.ChessForm.MoveForWards | ChessUi/ChessForm.cs:101-130 | The highlight and the game calls are those of Forward. The rows are unchanged. |
| ChessUi.ChessForm.StopAi | ChessUi/ChessForm.cs:155-159 | Both check boxes are cleared and the engine is told to abort. |
| ChessUi.ChessForm.Undo | ChessUi/ChessForm.cs:132-137 | After Undo, automation is off. The engine is aborted first, then one Backward step is taken. |
| ChessUi.ChessForm.KeyDown | ChessUi/ChessForm.cs:139-153 | Ctrl+Z undoes. Left and Right step back and forward only while automation is off; otherwise the keys change nothing. |
| ChessUi.ChessForm.LoadFile | ChessUi/ChessForm.cs:231-242 | Loading replays the moves in load order through MoveToList. The list ends as Replayed describes and the last ply is highlighted. A failed recording stops the load. |
| ChessUi.ChessForm.RecordMoves | ChessUi/ChessForm.cs:239-241 | Recording the moves one by one succeeds exactly when Replayed does and leaves its rows, with the last ply highlighted. A failed recording stops the loop with an empty list. |
| ChessUi.ChessForm.NewGame | ChessUi/ChessForm.cs:250-260 | A confirmed new game clears the check boxes and the list and starts the game over. |
| ChessUi.ChessForm.Flipp | ChessUi/ChessForm.cs:21-24 | Flipping turns the board round and changes nothing else. |
| ChessUi.ChessForm.TimerTick | ChessUi/ChessForm.cs:408-419 | On a tick only the bar of the side the engine is thinking for advances, by one unless full. The bars keep their maxima and stay in range. |

## Left out

- The asynchronous body of `EngineMove` (ChessUi/ChessForm.cs:290-327) is not modelled. This
  covers the await, the retry by re-entry after an exception, the sleep and the message pump.
  It coordinates with an engine whose code is not part of this model. Only the decision and
  the think time (`Automation.EngineRequest`) are modelled.
- The check boxes' `CheckedChanged` handlers, which start `EngineMove` when the engine is idle,
  are not modelled. Setting a check box in the model does not start the engine.
- `Game`, `Engine`, `GameFile` and the internals of moves and evaluations are not part of this
  model. The form's calls on them are recorded as commands.
- `ChessGame.Load` is not modelled. `LoadFile` takes the players' move lists as parameters.
  Reading and writing files is I/O and is not modelled.
- `Engine.ThinkingFor`, `ChessGame.Ended` and the side to move come from the engine and the
  game, so they are parameters.
- `AnimateMove`, `SetScoreLabel`, `InitProgress`, painting, mouse moves, tooltips, dialogs and
  the designer's control layout are not modelled. They are display only. `SetScoreLabel`
  formats numbers with code that is not part of this model.
- The highlight is modelled as one index into the flattened list. Resetting every cell's style
  and colouring one is the widget-level way of keeping exactly one highlighted cell.
- Move numbers are read back from the row text with `int.Parse`. The model keeps the number
  itself.
- `Automation.EngineRequest`: think times are whole seconds; the `(int)` cast of the decimal
  control value is not modelled.
- `ChessUi.ChessForm.MoveForWards`: the `FirstOrDefault() == null` test for a missing
  highlight is left out. It can only hold on an empty list, which the method has already
  returned on.
- `ChessUi.ChessForm.MoveToList`: an index-out-of-range exception is modelled as a result of
  `false`, with the list left empty and no highlight. Callers do not catch it in the code. The
  model's `LoadFile` stops there, as the exception would.
- The order of `Chess.Color` is not part of this model. The load order assumes White sorts
  before Black.
- `ChessUi.ChessForm.NewGame` does not abort the engine, as in the code.
- `ChessUi.ProgressBar` starts at 0 of 100, the control's defaults. `InitProgress`, which
  resets the value and sets the maximum from the engine's search time, is not modelled.
