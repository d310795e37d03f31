/**
 * The move list of the chess form: a table of rows, one per move number. Sub-item 0 of a row
 * is the move number, sub-item 1 the White cell and sub-item 2, when present, the Black cell.
 * A row may hold further cells after the Black one (see Appended), which the flattened view
 * never shows. This module holds the value-level meaning of the list; the form class that
 * updates it in place is in module ChessUi.
 */
module MoveLedger {
  import opened Wrappers
  import opened Chess

  datatype Row = Row(number: int, white: Evaluation, after: seq<Evaluation>)
  {
    /** The number of sub-items of the list-view row (number and White cell included). */
    function SubItemCount(): nat
    {
      2 + |after|
    }

    predicate HasBlack()
    {
      SubItemCount() > 2
    }
  }

  /** Row numbers strictly increase down the list. */
  ghost predicate Increasing(rows: seq<Row>)
  {
    forall i, j :: 0 <= i < j < |rows| ==> rows[i].number < rows[j].number
  }

  // ---------------------------------------------------------------------------
  // Flattening (GetMoveListItems)
  // ---------------------------------------------------------------------------

  /** The cells of one row that the flattened list takes: the White cell and,
      when the row has more than two sub-items, sub-item 2. */
  function RowEntries(row: Row): seq<Evaluation>
  {
    if row.SubItemCount() > 2 then [row.white, row.after[0]] else [row.white]
  }

  /** The plies of the list in order, row by row. */
  function Flatten(rows: seq<Row>): seq<Evaluation>
  {
    if rows == [] then [] else Flatten(rows[..|rows| - 1]) + RowEntries(rows[|rows| - 1])
  }

  /** The number of rows that hold a Black cell. */
  function CountWithBlack(rows: seq<Row>): nat
  {
    if rows == [] then 0
    else CountWithBlack(rows[..|rows| - 1]) + (if rows[|rows| - 1].HasBlack() then 1 else 0)
  }

  lemma {:induction false} FlattenLength(rows: seq<Row>)
    ensures |Flatten(rows)| == |rows| + CountWithBlack(rows)
  {
    if rows != [] {
      FlattenLength(rows[..|rows| - 1]);
    }
  }

  lemma {:induction false} FlattenConcat(a: seq<Row>, b: seq<Row>)
    ensures Flatten(a + b) == Flatten(a) + Flatten(b)
    decreases |b|
  {
    if b == [] {
      assert a + b == a;
    } else {
      assert (a + b)[..|a + b| - 1] == a + b[..|b| - 1];
      FlattenConcat(a, b[..|b| - 1]);
    }
  }

  /** The rows before a cut show a prefix of the ply list. */
  lemma {:induction false} FlattenFront(rows: seq<Row>, k: nat)
    requires k <= |rows|
    ensures Flatten(rows[..k]) <= Flatten(rows)
  {
    assert rows == rows[..k] + rows[k..];
    FlattenConcat(rows[..k], rows[k..]);
  }

  /** Cells after the Black one (sub-item 3 and beyond) never reach the flattened list:
      adding any of them to a row that has a Black cell leaves it unchanged. */
  lemma {:induction false} ExtraCellsInvisible(rows: seq<Row>, i: nat, extra: seq<Evaluation>)
    requires i < |rows| && rows[i].HasBlack()
    ensures Flatten(rows[i := rows[i].(after := rows[i].after + extra)]) == Flatten(rows)
  {
    var row' := rows[i].(after := rows[i].after + extra);
    assert RowEntries(row') == RowEntries(rows[i]);
    assert rows == rows[..i] + [rows[i]] + rows[i + 1..];
    assert rows[i := row'] == rows[..i] + [row'] + rows[i + 1..];
    FlattenConcat(rows[..i] + [rows[i]], rows[i + 1..]);
    FlattenConcat(rows[..i] + [row'], rows[i + 1..]);
    FlattenConcat(rows[..i], [rows[i]]);
    FlattenConcat(rows[..i], [row']);
  }

  /** The entry of position k of the flattened list is a cell that the flattened view
      takes from some row: its White cell or its Black cell. */
  lemma {:induction false} FlattenEntryFromRow(rows: seq<Row>, k: nat)
    requires k < |Flatten(rows)|
    ensures exists i :: 0 <= i < |rows| && Flatten(rows)[k] in RowEntries(rows[i])
  {
    var n := |rows| - 1;
    FlattenConcat(rows[..n], [rows[n]]);
    assert rows[..n] + [rows[n]] == rows;
    if k < |Flatten(rows[..n])| {
      FlattenEntryFromRow(rows[..n], k);
      var i :| 0 <= i < n && Flatten(rows[..n])[k] in RowEntries(rows[..n][i]);
      assert rows[..n][i] == rows[i];
    } else {
      assert Flatten(rows)[k] in RowEntries(rows[n]);
    }
  }

  // ---------------------------------------------------------------------------
  // Append with truncation (MoveToList)
  // ---------------------------------------------------------------------------

  /** What the removal loop leaves of one row when move m is added: rows numbered after m
      go; for a White move the row of its own number goes too; for a Black move a row of
      its own number loses sub-item 2, but only when it has more than three sub-items. */
  function Trimmed(row: Row, m: Move): (r: seq<Row>)
    ensures |r| <= 1
    ensures r != [] ==> r[0].number == row.number && r[0].white == row.white
  {
    if m.numberInGame < row.number then []
    else if m.numberInGame == row.number && m.color == White then []
    else if m.numberInGame == row.number && m.color == Black then
      (if row.SubItemCount() > 3 then [row.(after := row.after[1..])] else [row])
    else [row]
  }

  /** The rows that survive the removal loop, in their original order. */
  function Truncate(rows: seq<Row>, m: Move): (r: seq<Row>)
    ensures |r| <= |rows|
  {
    if rows == [] then [] else Trimmed(rows[0], m) + Truncate(rows[1..], m)
  }

  /** Every row the removal loop leaves is numbered at most the move's number, and strictly
      below it for a White move. */
  lemma {:induction false} TruncateBounds(rows: seq<Row>, m: Move)
    ensures forall k :: 0 <= k < |Truncate(rows, m)| ==> Truncate(rows, m)[k].number <= m.numberInGame
    ensures m.color == White ==>
      forall k :: 0 <= k < |Truncate(rows, m)| ==> Truncate(rows, m)[k].number < m.numberInGame
  {
    if rows != [] {
      TruncateBounds(rows[1..], m);
      var r := Truncate(rows, m);
      var head := Trimmed(rows[0], m);
      assert r == head + Truncate(rows[1..], m);
      forall k | 0 <= k < |r|
        ensures r[k].number <= m.numberInGame
        ensures m.color == White ==> r[k].number < m.numberInGame
      {
        if k >= |head| {
          assert r[k] == Truncate(rows[1..], m)[k - |head|];
        }
      }
    }
  }

  /** The last row with the new cell added after its existing cells. */
  function AddCell(row: Row, e: Evaluation): Row
  {
    row.(after := row.after + [e])
  }

  /** The rows after the move list records e. A White move opens a new row; a Black move
      is added as a new cell of the last remaining row. None when a Black move finds no row
      left to add to (the list view then fails on an index out of range). */
  function Appended(rows: seq<Row>, e: Evaluation): (r: Option<seq<Row>>)
    ensures r.None? ==> e.move.color != White
    ensures r.Some? ==> 1 <= |r.value| <= |rows| + 1
  {
    Attached(Truncate(rows, e.move), e)
  }

  /** The second half of recording e, once the obsolete rows are gone. */
  function Attached(kept: seq<Row>, e: Evaluation): (r: Option<seq<Row>>)
    ensures r.None? <==> e.move.color != White && kept == []
    ensures r.Some? ==> |r.value| >= 1
    ensures r.Some? && e.move.color == White ==> r.value[..|r.value| - 1] == kept
    ensures r.Some? && e.move.color != White ==> r.value[..|r.value| - 1] == kept[..|kept| - 1]
  {
    if e.move.color == White then Some(kept + [Row(e.move.numberInGame, e, [])])
    else if kept == [] then None
    else Some(kept[..|kept| - 1] + [AddCell(kept[|kept| - 1], e)])
  }

  /** The rows numbered below n, in order. */
  function Below(rows: seq<Row>, n: int): seq<Row>
  {
    if rows == [] then [] else (if rows[0].number < n then [rows[0]] else []) + Below(rows[1..], n)
  }

  /** The rows numbered at most n, in order. */
  function UpTo(rows: seq<Row>, n: int): seq<Row>
  {
    if rows == [] then [] else (if rows[0].number <= n then [rows[0]] else []) + UpTo(rows[1..], n)
  }

  lemma {:induction false} BelowMembers(rows: seq<Row>, n: int)
    ensures forall row :: row in Below(rows, n) <==> row in rows && row.number < n
  {
    if rows != [] {
      BelowMembers(rows[1..], n);
      assert rows == [rows[0]] + rows[1..];
    }
  }

  lemma {:induction false} TruncateForWhite(rows: seq<Row>, m: Move)
    requires m.color == White
    ensures Truncate(rows, m) == Below(rows, m.numberInGame)
  {
    if rows != [] {
      TruncateForWhite(rows[1..], m);
    }
  }

  /** A White move numbered n removes every row numbered n or more and then adds one row
      numbered n that holds only that White cell; the list has one row more than it had
      rows numbered below n. */
  lemma {:induction false} AppendWhite(rows: seq<Row>, e: Evaluation)
    requires e.move.color == White
    ensures Appended(rows, e) == Some(Below(rows, e.move.numberInGame) + [Row(e.move.numberInGame, e, [])])
    ensures |Appended(rows, e).value| == |Below(rows, e.move.numberInGame)| + 1
    ensures forall row :: row in Appended(rows, e).value[..|Appended(rows, e).value| - 1]
                          <==> row in rows && row.number < e.move.numberInGame
  {
    TruncateForWhite(rows, e.move);
    BelowMembers(rows, e.move.numberInGame);
    var r := Appended(rows, e).value;
    assert r[..|r| - 1] == Below(rows, e.move.numberInGame);
  }

  /** For a Black move numbered n the loop keeps exactly the rows numbered at most n, in order;
      each keeps its number and White cell, and the row numbered n loses its Black cell only
      when it has more than three sub-items. */
  lemma {:induction false} TruncateForBlack(rows: seq<Row>, m: Move)
    requires m.color == Black
    ensures |Truncate(rows, m)| == |UpTo(rows, m.numberInGame)|
    ensures forall k :: 0 <= k < |Truncate(rows, m)| ==>
      var row := UpTo(rows, m.numberInGame)[k];
      Truncate(rows, m)[k] ==
        if row.number == m.numberInGame && row.SubItemCount() > 3 then row.(after := row.after[1..]) else row
  {
    if rows != [] {
      TruncateForBlack(rows[1..], m);
    }
  }

  /** A Black move numbered n fails exactly when no row numbered at most n exists; otherwise
      it keeps as many rows as there are rows numbered at most n and adds its cell to the last. */
  lemma {:induction false} AppendBlack(rows: seq<Row>, e: Evaluation)
    requires e.move.color == Black
    ensures Appended(rows, e).None? <==> UpTo(rows, e.move.numberInGame) == []
    ensures Appended(rows, e).Some? ==>
      var kept := Truncate(rows, e.move);
      var r := Appended(rows, e).value;
      |r| == |UpTo(rows, e.move.numberInGame)| && r[..|r| - 1] == kept[..|kept| - 1] &&
      r[|r| - 1] == kept[|kept| - 1].(after := kept[|kept| - 1].after + [e])
  {
    TruncateForBlack(rows, e.move);
  }

  /** Truncate-then-append, as intended, for a Black move: when the last remaining row has
      no Black cell, the flattened list gains exactly the new move. */
  lemma {:induction false} BlackAppendShowsMove(rows: seq<Row>, e: Evaluation)
    requires e.move.color == Black && Appended(rows, e).Some?
    requires var kept := Truncate(rows, e.move); !kept[|kept| - 1].HasBlack()
    ensures Flatten(Appended(rows, e).value) == Flatten(Truncate(rows, e.move)) + [e]
  {
    BlackAttachShowsMove(Truncate(rows, e.move), e);
  }

  lemma {:induction false} BlackAttachShowsMove(kept: seq<Row>, e: Evaluation)
    requires e.move.color == Black && kept != [] && !kept[|kept| - 1].HasBlack()
    ensures Flatten(Attached(kept, e).value) == Flatten(kept) + [e]
  {
    var n := |kept| - 1;
    var last := kept[n];
    assert Attached(kept, e).value == kept[..n] + [AddCell(last, e)];
    FlattenSnoc(kept[..n], AddCell(last, e));
    assert RowEntries(AddCell(last, e)) == RowEntries(last) + [e];
  }

  lemma {:induction false} FlattenSnoc(rows: seq<Row>, row: Row)
    ensures Flatten(rows + [row]) == Flatten(rows) + RowEntries(row)
  {
    assert (rows + [row])[..|rows|] == rows;
  }

  /** As written, the intended property fails whenever the last remaining row still has a
      Black cell (it had exactly three sub-items, or more than three and lost only one): the
      new cell becomes sub-item 3 or later and the flattened list does not change at all. */
  lemma {:induction false} BlackAppendHidesMove(rows: seq<Row>, e: Evaluation)
    requires e.move.color == Black && Appended(rows, e).Some?
    requires var kept := Truncate(rows, e.move); kept[|kept| - 1].HasBlack()
    ensures Flatten(Appended(rows, e).value) == Flatten(Truncate(rows, e.move))
  {
    var kept := Truncate(rows, e.move);
    var n := |kept| - 1;
    var last := kept[n];
    assert Appended(rows, e).value == kept[n := last.(after := last.after + [e])];
    ExtraCellsInvisible(kept, n, [e]);
  }

  lemma {:induction false} FlattenOne(row: Row)
    ensures Flatten([row]) == RowEntries(row)
  {
    assert [row][..0] == [];
  }

  /** Rewind-then-diverge on the Black side: row 1 holds e2e4 and e7e5; the cursor was moved
      back to e2e4 and Black now plays d7d5. The old Black cell stays, d7d5 becomes a fourth
      sub-item, and the flattened list still ends with e7e5. */
  lemma {:induction false} DivergingBlackKeepsStaleCell(e2e4: Evaluation, e7e5: Evaluation, d7d5: Evaluation)
    requires e2e4.move.numberInGame == 1 && e2e4.move.color == White
    requires e7e5.move.numberInGame == 1 && e7e5.move.color == Black
    requires d7d5.move.numberInGame == 1 && d7d5.move.color == Black
    ensures Appended([Row(1, e2e4, [e7e5])], d7d5) == Some([Row(1, e2e4, [e7e5, d7d5])])
    ensures Flatten([Row(1, e2e4, [e7e5, d7d5])]) == [e2e4, e7e5]
  {
    var row := Row(1, e2e4, [e7e5]);
    assert Truncate([row], d7d5.move) == [row] by {
      assert Trimmed(row, d7d5.move) == [row];
      assert [row][1..] == [];
    }
    assert AddCell(row, d7d5) == Row(1, e2e4, [e7e5, d7d5]);
    assert [row][..0] + [AddCell(row, d7d5)] == [Row(1, e2e4, [e7e5, d7d5])];
    FlattenOne(Row(1, e2e4, [e7e5, d7d5]));
  }

  lemma {:induction false} TruncateAbove(rows: seq<Row>, m: Move, lb: int)
    requires forall i :: 0 <= i < |rows| ==> rows[i].number > lb
    ensures forall k :: 0 <= k < |Truncate(rows, m)| ==> Truncate(rows, m)[k].number > lb
  {
    if rows != [] {
      TruncateAbove(rows[1..], m, lb);
    }
  }

  lemma {:induction false} TruncateIncreasing(rows: seq<Row>, m: Move)
    requires Increasing(rows)
    ensures Increasing(Truncate(rows, m))
  {
    if rows != [] {
      TruncateIncreasing(rows[1..], m);
      TruncateAbove(rows[1..], m, rows[0].number);
    }
  }

  /** Recording a move keeps the row numbers strictly increasing. */
  lemma {:induction false} AppendedIncreasing(rows: seq<Row>, e: Evaluation)
    requires Increasing(rows) && Appended(rows, e).Some?
    ensures Increasing(Appended(rows, e).value)
  {
    TruncateIncreasing(rows, e.move);
    TruncateBounds(rows, e.move);
    var kept := Truncate(rows, e.move);
    var r := Appended(rows, e).value;
    assert forall k :: 0 <= k < |r| ==> r[k].number == if k < |kept| then kept[k].number else e.move.numberInGame;
  }

  /** After a successful append the list is not empty, so its last ply can be selected. */
  lemma {:induction false} AppendedNonEmpty(rows: seq<Row>, e: Evaluation)
    requires Appended(rows, e).Some?
    ensures |Flatten(Appended(rows, e).value)| >= 1
  {
    FlattenLength(Appended(rows, e).value);
  }

  // ---------------------------------------------------------------------------
  // Cursor navigation (MoveBackWards, MoveForWards)
  // ---------------------------------------------------------------------------

  /** The highlighted ply, if any, is one of the flattened entries. */
  predicate SelectionInRange(rows: seq<Row>, selected: Option<nat>)
  {
    selected.Some? ==> selected.value < |Flatten(rows)|
  }

  /** The number of plies up to and including the highlighted one: how many moves of the
      list the game has played. */
  function Position(selected: Option<nat>): nat
  {
    if selected.None? then 0 else selected.value + 1
  }

  /** The new highlight, and the commands issued to the game, of one navigation step. */
  datatype Step = Step(selected: Option<nat>, issued: seq<Command>)

  /** One step back: the highlight moves to the previous ply (to none from the first) and the
      game is told to undo one move. A no-op on an empty list or with nothing highlighted. */
  function Backward(rows: seq<Row>, selected: Option<nat>): (r: Step)
    requires SelectionInRange(rows, selected)
    ensures SelectionInRange(rows, r.selected)
    ensures r.issued == [] <==> Position(selected) == 0
    ensures r.issued == [] ==> r.selected == selected
    ensures r.issued != [] ==> r.issued == [UndoLastMove] && Position(r.selected) == Position(selected) - 1
  {
    if rows == [] then Step(selected, [])
    else match selected
      case None => Step(selected, [])
      case Some(index) => Step(if index > 0 then Some(index - 1) else None, [UndoLastMove])
  }

  /** One step forward: the ply after the highlighted one (the first one when none is
      highlighted) becomes highlighted and its move is played again. A no-op on an empty list
      or when the last ply is highlighted. */
  function Forward(rows: seq<Row>, selected: Option<nat>): (r: Step)
    requires SelectionInRange(rows, selected)
    ensures SelectionInRange(rows, r.selected)
    ensures r.issued == [] <==> Position(selected) == |Flatten(rows)|
    ensures r.issued == [] ==> r.selected == selected
    ensures r.issued != [] ==>
              Position(r.selected) == Position(selected) + 1 &&
              r.issued == [PerformLegalMove(Flatten(rows)[Position(selected)].move)]
  {
    FlattenLength(rows);
    if rows == [] then Step(selected, [])
    else
      var list := Flatten(rows);
      var index := if selected.None? then 0 else selected.value + 1;
      if index > |list| - 1 then Step(selected, [])
      else Step(Some(index), [PerformLegalMove(list[index].move)])
  }

  /** Back then forward from ply i restores the highlight on ply i; between them the game
      undoes one move and plays ply i's move again. */
  lemma {:induction false} BackThenForward(rows: seq<Row>, i: nat)
    requires i < |Flatten(rows)|
    ensures var b := Backward(rows, Some(i));
      var f := Forward(rows, b.selected);
      f.selected == Some(i) && b.issued + f.issued == [UndoLastMove, PerformLegalMove(Flatten(rows)[i].move)]
  {
  }

  /** Forward then back returns to the starting highlight; between them the game plays one
      move and undoes it. */
  lemma {:induction false} ForwardThenBack(rows: seq<Row>, selected: Option<nat>)
    requires SelectionInRange(rows, selected) && Position(selected) < |Flatten(rows)|
    ensures var f := Forward(rows, selected);
      var b := Backward(rows, f.selected);
      b.selected == selected && b.issued == [UndoLastMove] && |f.issued| == 1
  {
  }
}
