/**
 * The chess form's own state and the operations that change it: the move list with its
 * highlighted ply, the two "engine plays" check boxes, the board orientation, the two
 * progress bars, and the log of calls the form makes on the game and on the engine.
 */
module ChessUi {
  import opened Wrappers
  import opened Chess
  import opened MoveLedger
  import opened LoadOrder
  import opened Automation

  /** A progress-bar control; its value stays between 0 and its maximum. */
  class ProgressBar {
    var value: int
    var maximum: int

    ghost predicate Valid()
      reads this
    {
      0 <= value <= maximum
    }

    /** A new control, with the toolkit's default range of 0 to 100. */
    constructor ()
      ensures Valid() && value == 0 && maximum == 100
    {
      value := 0;
      maximum := 100;
    }
  }

  /** One pass of the removal loop, at index i, replaces original[i] by what Trimmed leaves
      of it. */
  lemma {:induction false} RemovalStep(original: seq<Row>, i: int, m: Move, before: seq<Row>, after: seq<Row>)
    requires 0 <= i < |original|
    requires before == original[..i + 1] + Truncate(original[i + 1..], m)
    requires after == before[..i] + Trimmed(before[i], m) + before[i + 1..]
    ensures after == original[..i] + Truncate(original[i..], m)
  {
    assert original[i..][1..] == original[i + 1..];
    assert before[..i] == original[..i] && before[i] == original[i];
    assert before[i + 1..] == Truncate(original[i + 1..], m);
  }

  /** The keys the form reacts to. */
  datatype Key = Left | Right | Z | OtherKey

  class ChessForm {
    /** The rows of the move list (listView1). */
    var rows: seq<Row>
    /** The highlighted ply, as a position in the flattened list. */
    var selected: Option<nat>
    /** The calls made on the game and on the engine, oldest first. */
    var issued: seq<Command>
    /** The "engine plays White" and "engine plays Black" check boxes. */
    var whiteChecked: bool
    var blackChecked: bool
    /** Whether the board is shown with Black at the bottom. */
    var flipped: bool
    const progressBarTop: ProgressBar
    const progressBarBottom: ProgressBar

    ghost predicate Valid()
      reads this, progressBarTop, progressBarBottom
    {
      Increasing(rows) && SelectionInRange(rows, selected) &&
      progressBarTop != progressBarBottom && progressBarTop.Valid() && progressBarBottom.Valid()
    }

    /** The form after loading: an empty list, a new game, no automation, unflipped board. */
    constructor ()
      ensures Valid() && fresh(progressBarTop) && fresh(progressBarBottom)
      ensures rows == [] && selected == None && issued == [StartNewGame]
      ensures !whiteChecked && !blackChecked && !flipped
    {
      rows := [];
      selected := None;
      issued := [StartNewGame];
      whiteChecked, blackChecked, flipped := false, false, false;
      progressBarTop := new ProgressBar();
      progressBarBottom := new ProgressBar();
    }

    /** The bar that shows White's thinking: the bottom one unless the board is flipped. */
    function WhiteBar(): ProgressBar
      reads this
    {
      if flipped then progressBarTop else progressBarBottom
    }

    function BlackBar(): ProgressBar
      reads this
    {
      if flipped then progressBarBottom else progressBarTop
    }

    /** The plies of the list in order: each row's White cell and then its Black cell. */
    method GetMoveListItems() returns (list: seq<Evaluation>)
      ensures list == Flatten(rows)
    {
      list := [];
      var i := 0;
      while i < |rows|
        invariant 0 <= i <= |rows|
        invariant list == Flatten(rows[..i])
      {
        var item := rows[i];
        list := list + [item.white];
        if item.SubItemCount() > 2 {
          list := list + [item.after[0]];
        }
        assert rows[..i + 1][..i] == rows[..i];
        i := i + 1;
      }
      assert rows[..|rows|] == rows;
    }

    /** The removal loop of MoveToList: scanning from the bottom, the rows the move makes
        obsolete go (the moves "in the future" after the list was browsed back). */
    method RemoveFutureMoves(move: Move)
      modifies this
      ensures rows == Truncate(old(rows), move)
      ensures selected == old(selected) && issued == old(issued) && whiteChecked == old(whiteChecked) &&
              blackChecked == old(blackChecked) && flipped == old(flipped)
    {
      ghost var original := rows;
      var i := |rows| - 1;
      while i >= 0
        invariant -1 <= i < |original|
        invariant rows == original[..i + 1] + Truncate(original[i + 1..], move)
        invariant selected == old(selected) && issued == old(issued) && whiteChecked == old(whiteChecked) &&
                  blackChecked == old(blackChecked) && flipped == old(flipped)
      {
        ghost var before := rows;
        TrimRow(i, move);
        RemovalStep(original, i, move, before, rows);
        i := i - 1;
      }
      assert original[..0] == [] && original[0..] == original;
    }

    /** One pass of the removal loop, on the row at index i: a row numbered after the move,
        or the move's own row for a White move, is removed; the move's own row for a Black
        move loses its Black cell when it has more than three sub-items. */
    method TrimRow(i: int, move: Move)
      requires 0 <= i < |rows|
      modifies this
      ensures rows == old(rows[..i]) + Trimmed(old(rows[i]), move) + old(rows[i + 1..])
      ensures selected == old(selected) && issued == old(issued) && whiteChecked == old(whiteChecked) &&
              blackChecked == old(blackChecked) && flipped == old(flipped)
    {
      if move.numberInGame < rows[i].number {
        rows := rows[..i] + rows[i + 1..];
      } else if move.numberInGame == rows[i].number && move.color == White {
        rows := rows[..i] + rows[i + 1..];
      } else if move.numberInGame == rows[i].number && move.color == Black {
        if rows[i].SubItemCount() > 3 {
          rows := rows[..i] + [rows[i].(after := rows[i].after[1..])] + rows[i + 1..];
        }
      }
    }

    /** Records a move in the list. The rows it makes obsolete go first; then a White move
        opens a row and a Black move joins the last row. The new move's ply becomes the
        highlighted one, the last of the flattened list. ok is false when a Black move finds
        no row left to join, which the list view reports as an index out of range after the
        removals. */
    method MoveToList(evaluatedMove: Evaluation) returns (ok: bool)
      requires Valid()
      modifies this
      ensures Valid()
      ensures ok == Appended(old(rows), evaluatedMove).Some?
      ensures ok ==> rows == Appended(old(rows), evaluatedMove).value
      ensures ok ==> selected.Some? && selected.value == |Flatten(rows)| - 1
      ensures !ok ==> rows == [] && selected == None
      ensures issued == old(issued) && whiteChecked == old(whiteChecked) &&
              blackChecked == old(blackChecked) && flipped == old(flipped)
    {
      ghost var original := rows;
      RemoveFutureMoves(evaluatedMove.move);
      ok := AddToList(evaluatedMove);
      if !ok {
        // Items[Count - 1] fails: no row is left to hold the Black move, and no cell is
        // left to be highlighted.
        selected := None;
        return;
      }
      AppendedIncreasing(original, evaluatedMove);
      AppendedNonEmpty(original, evaluatedMove);
      HighlightLast();
    }

    /** The adding half of MoveToList, on the rows the removal loop left: a White move opens
        a row; a Black move becomes a new cell of the last row, or fails when there is none. */
    method AddToList(evaluatedMove: Evaluation) returns (ok: bool)
      modifies this
      ensures ok == Attached(old(rows), evaluatedMove).Some?
      ensures ok ==> rows == Attached(old(rows), evaluatedMove).value
      ensures !ok ==> rows == old(rows)
      ensures selected == old(selected) && issued == old(issued) && whiteChecked == old(whiteChecked) &&
              blackChecked == old(blackChecked) && flipped == old(flipped)
    {
      var move := evaluatedMove.move;
      if move.color == White {
        rows := rows + [Row(move.numberInGame, evaluatedMove, [])];
        ok := true;
      } else if |rows| == 0 {
        ok := false;
      } else {
        rows := rows[..|rows| - 1] + [AddCell(rows[|rows| - 1], evaluatedMove)];
        ok := true;
      }
    }

    /** The highlighting half of MoveToList: the last ply of the list becomes the selected one. */
    method HighlightLast()
      requires |Flatten(rows)| > 0
      modifies this
      ensures selected == Some(|Flatten(rows)| - 1)
      ensures rows == old(rows) && issued == old(issued) && whiteChecked == old(whiteChecked) &&
              blackChecked == old(blackChecked) && flipped == old(flipped)
    {
      var list := GetMoveListItems();
      selected := Some(|list| - 1);
    }

    /** The left-arrow step: the highlight moves to the previous ply and the game undoes one
        move; nothing happens on an empty list or without a highlighted ply. */
    method MoveBackWards()
      requires Valid()
      modifies this
      ensures Valid()
      ensures selected == Backward(old(rows), old(selected)).selected
      ensures issued == old(issued) + Backward(old(rows), old(selected)).issued
      ensures rows == old(rows) && whiteChecked == old(whiteChecked) &&
              blackChecked == old(blackChecked) && flipped == old(flipped)
    {
      var lastIndex := |rows| - 1;
      if lastIndex < 0 {
        return;
      }
      if selected.None? {
        return;
      }
      var index := selected.value;
      if index > 0 {
        selected := Some(index - 1);
      } else {
        selected := None;
      }
      issued := issued + [UndoLastMove];
    }

    /** The right-arrow step: the ply after the highlighted one (the first when none is
        highlighted) becomes highlighted and the game plays its move; nothing happens on an
        empty list or when the last ply is highlighted. The source's check for an empty
        flattened list cannot fire here, since a non-empty list always has a White cell. */
    method MoveForWards()
      requires Valid()
      modifies this
      ensures Valid()
      ensures selected == Forward(old(rows), old(selected)).selected
      ensures issued == old(issued) + Forward(old(rows), old(selected)).issued
      ensures rows == old(rows) && whiteChecked == old(whiteChecked) &&
              blackChecked == old(blackChecked) && flipped == old(flipped)
    {
      var lastIndex := |rows| - 1;
      if lastIndex < 0 {
        return;
      }
      var list := GetMoveListItems();
      var index := if selected.None? then 0 else selected.value + 1;
      if index > |list| - 1 {
        return;
      }
      var nextMove := list[index].move;
      selected := Some(index);
      issued := issued + [PerformLegalMove(nextMove)];
    }

    /** Stops automated play: both check boxes are cleared and the engine is told to abort. */
    method StopAi()
      requires Valid()
      modifies this
      ensures Valid()
      ensures !whiteChecked && !blackChecked
      ensures issued == old(issued) + [AbortSearch]
      ensures rows == old(rows) && selected == old(selected) && flipped == old(flipped)
    {
      whiteChecked := false;
      blackChecked := false;
      issued := issued + [AbortSearch];
    }

    /** Undo: automation is stopped first, then the list steps back one ply. */
    method Undo()
      requires Valid()
      modifies this
      ensures Valid()
      ensures ComputerIsOff(whiteChecked, blackChecked)
      ensures selected == Backward(old(rows), old(selected)).selected
      ensures issued == old(issued) + [AbortSearch] + Backward(old(rows), old(selected)).issued
      ensures rows == old(rows) && flipped == old(flipped)
    {
      StopAi();
      MoveBackWards();
    }

    /** Ctrl+Z undoes; the arrow keys step through the list, but only while neither side is
        played by the engine. */
    method KeyDown(control: bool, key: Key)
      requires Valid()
      modifies this
      ensures Valid()
      ensures rows == old(rows) && flipped == old(flipped)
      ensures control && key == Z ==>
        selected == Backward(old(rows), old(selected)).selected &&
        issued == old(issued) + [AbortSearch] + Backward(old(rows), old(selected)).issued &&
        ComputerIsOff(whiteChecked, blackChecked)
      ensures key == Left && ComputerIsOff(old(whiteChecked), old(blackChecked)) ==>
        selected == Backward(old(rows), old(selected)).selected &&
        issued == old(issued) + Backward(old(rows), old(selected)).issued
      ensures key == Right && ComputerIsOff(old(whiteChecked), old(blackChecked)) ==>
        selected == Forward(old(rows), old(selected)).selected &&
        issued == old(issued) + Forward(old(rows), old(selected)).issued
      ensures !(control && key == Z) && !ComputerIsOff(old(whiteChecked), old(blackChecked)) ==>
        selected == old(selected) && issued == old(issued) &&
        whiteChecked == old(whiteChecked) && blackChecked == old(blackChecked)
      ensures !(control && key == Z) ==> whiteChecked == old(whiteChecked) && blackChecked == old(blackChecked)
      ensures !(control && key == Z) && key != Left && key != Right ==>
        selected == old(selected) && issued == old(issued)
    {
      if control && key == Z {
        Undo();
      }
      if ComputerIsOff(whiteChecked, blackChecked) {
        if key == Left {
          MoveBackWards();
        }
        if key == Right {
          MoveForWards();
        }
      }
    }

    /** Records a loaded game in the list: both players' moves, ordered by move number and
        then colour, each as a move without search information. The list is not cleared
        first. ok is false when recording one of the moves fails; the remaining moves are
        then not recorded. */
    method LoadFile(whiteMoves: seq<Move>, blackMoves: seq<Move>) returns (ok: bool)
      requires Valid()
      modifies this
      ensures Valid()
      ensures ok == Replayed(old(rows), ReplayOrder(whiteMoves, blackMoves)).Some?
      ensures ok ==> rows == Replayed(old(rows), ReplayOrder(whiteMoves, blackMoves)).value
      ensures ok && ReplayOrder(whiteMoves, blackMoves) != [] ==> selected == Some(|Flatten(rows)| - 1)
      ensures ok && ReplayOrder(whiteMoves, blackMoves) == [] ==> selected == old(selected)
      ensures !ok ==> rows == [] && selected == None
      ensures issued == old(issued) && whiteChecked == old(whiteChecked) &&
              blackChecked == old(blackChecked) && flipped == old(flipped)
    {
      ok := RecordMoves(ReplayOrder(whiteMoves, blackMoves));
    }

    /** The foreach loop of LoadFile: each move in turn goes through MoveToList. */
    method RecordMoves(moves: seq<Move>) returns (ok: bool)
      requires Valid()
      modifies this
      ensures Valid()
      ensures ok == Replayed(old(rows), moves).Some?
      ensures ok ==> rows == Replayed(old(rows), moves).value
      ensures ok && moves != [] ==> selected.Some? && selected.value == |Flatten(rows)| - 1
      ensures ok && moves == [] ==> selected == old(selected)
      ensures !ok ==> rows == [] && selected == None
      ensures issued == old(issued) && whiteChecked == old(whiteChecked) &&
              blackChecked == old(blackChecked) && flipped == old(flipped)
    {
      var i := 0;
      while i < |moves|
        invariant 0 <= i <= |moves|
        invariant Valid()
        invariant Replayed(old(rows), moves) == Replayed(rows, moves[i..])
        invariant i > 0 ==> selected.Some? && selected.value == |Flatten(rows)| - 1
        invariant i == 0 ==> rows == old(rows) && selected == old(selected)
        invariant issued == old(issued) && whiteChecked == old(whiteChecked) &&
                  blackChecked == old(blackChecked) && flipped == old(flipped)
      {
        ghost var before := rows;
        var recorded := MoveToList(HumanMove(moves[i]));
        if !recorded {
          ReplayHalts(before, moves, i);
          return false;
        }
        ReplayAdvance(before, moves, i, rows);
        i := i + 1;
      }
      ReplayDone(rows, moves);
      ok := true;
    }

    /** A new game, once confirmed: the check boxes are cleared, the list is emptied and the
        game starts over. */
    method NewGame()
      requires Valid()
      modifies this
      ensures Valid()
      ensures !whiteChecked && !blackChecked
      ensures rows == [] && selected == None
      ensures issued == old(issued) + [StartNewGame]
      ensures flipped == old(flipped)
    {
      blackChecked := false;
      whiteChecked := false;
      rows := [];
      selected := None;
      issued := issued + [StartNewGame];
    }

    /** Turns the board round. */
    method Flipp()
      requires Valid()
      modifies this
      ensures Valid()
      ensures flipped == !old(flipped)
      ensures rows == old(rows) && selected == old(selected) && issued == old(issued) &&
              whiteChecked == old(whiteChecked) && blackChecked == old(blackChecked)
    {
      flipped := !flipped;
    }

    /** One timer tick: the bar of the side the engine is thinking for advances by one,
        unless it is full; the other bar, and both bars when the engine is idle, stay. */
    method TimerTick(thinkingFor: Option<Color>)
      requires Valid()
      modifies progressBarTop, progressBarBottom
      ensures Valid()
      ensures progressBarTop.maximum == old(progressBarTop.maximum)
      ensures progressBarBottom.maximum == old(progressBarBottom.maximum)
      ensures WhiteBar().value ==
        if thinkingFor == Some(White) then Ticked(old(WhiteBar().value), WhiteBar().maximum) else old(WhiteBar().value)
      ensures BlackBar().value ==
        if thinkingFor == Some(Black) then Ticked(old(BlackBar().value), BlackBar().maximum) else old(BlackBar().value)
    {
      var progWhite := if flipped then progressBarTop else progressBarBottom;
      var progBlack := if flipped then progressBarBottom else progressBarTop;

      if thinkingFor == Some(White) {
        if progWhite.value < progWhite.maximum {
          progWhite.value := progWhite.value + 1;
        }
      } else if thinkingFor == Some(Black) {
        if progBlack.value < progBlack.maximum {
          progBlack.value := progBlack.value + 1;
        }
      }
    }
  }
}
