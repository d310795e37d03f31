/**
 * Loading a game: the moves of both players are put in one list, ordered by move number and
 * then by colour (White before Black), and recorded one by one in the move list.
 */
module LoadOrder {
  import opened Wrappers
  import opened Chess
  import opened MoveLedger

  /** The colour's place in the ThenBy ordering. */
  function Rank(c: Color): nat
  {
    if c == White then 0 else 1
  }

  /** a sorts strictly before b by (number in game, colour). */
  predicate KeyBefore(a: Move, b: Move)
  {
    a.numberInGame < b.numberInGame || (a.numberInGame == b.numberInGame && Rank(a.color) < Rank(b.color))
  }

  /** No move sorts strictly before the move in front of it. */
  predicate Sorted(s: seq<Move>)
  {
    forall i :: 0 < i < |s| ==> !KeyBefore(s[i], s[i - 1])
  }

  /** x put after every move of t that it does not sort strictly before; the moves of t keep
      their order, so equal keys keep their original order (a stable sort). */
  function Insert(t: seq<Move>, x: Move): (r: seq<Move>)
    ensures |r| == |t| + 1
  {
    if t == [] then [x]
    else if KeyBefore(x, t[0]) then [x] + t
    else [t[0]] + Insert(t[1..], x)
  }

  /** The stable sort OrderBy(NumberInGame).ThenBy(Color). */
  function SortMoves(s: seq<Move>): (r: seq<Move>)
    ensures |r| == |s|
  {
    if s == [] then [] else Insert(SortMoves(s[..|s| - 1]), s[|s| - 1])
  }

  /** The inserted list starts with x or with t's first move. */
  lemma {:induction false} InsertHead(t: seq<Move>, x: Move)
    ensures Insert(t, x)[0] == x || (t != [] && Insert(t, x)[0] == t[0])
  {
  }

  /** Inserting adds exactly x. */
  lemma {:induction false} InsertPermutation(t: seq<Move>, x: Move)
    ensures multiset(Insert(t, x)) == multiset(t) + multiset{x}
  {
    if t != [] && !KeyBefore(x, t[0]) {
      InsertPermutation(t[1..], x);
      assert t == [t[0]] + t[1..];
    }
  }

  /** Inserting into a sorted list keeps it sorted. */
  lemma {:induction false} InsertSorted(t: seq<Move>, x: Move)
    requires Sorted(t)
    ensures Sorted(Insert(t, x))
  {
    if t != [] && !KeyBefore(x, t[0]) {
      var tail := Insert(t[1..], x);
      assert Sorted(t[1..]);
      InsertSorted(t[1..], x);
      InsertHead(t[1..], x);
      assert Insert(t, x) == [t[0]] + tail;
      assert !KeyBefore(tail[0], t[0]) by {
        if tail[0] != x {
          assert tail[0] == t[1];
        }
      }
    }
  }

  /** The load order is sorted by (number in game, colour) and holds exactly the given moves. */
  lemma {:induction false} SortMovesSortedPermutation(s: seq<Move>)
    ensures Sorted(SortMoves(s))
    ensures multiset(SortMoves(s)) == multiset(s)
  {
    if s != [] {
      var n := |s| - 1;
      SortMovesSortedPermutation(s[..n]);
      InsertSorted(SortMoves(s[..n]), s[n]);
      InsertPermutation(SortMoves(s[..n]), s[n]);
      assert s == s[..n] + [s[n]];
    }
  }

  /** The order in which a loaded game's moves are recorded. */
  function ReplayOrder(whiteMoves: seq<Move>, blackMoves: seq<Move>): (r: seq<Move>)
    ensures |r| == |whiteMoves| + |blackMoves|
  {
    SortMoves(whiteMoves + blackMoves)
  }

  /** The rows after recording each move in turn, as a move without search information;
      None when one of them fails. */
  function Replayed(rows: seq<Row>, moves: seq<Move>): (r: Option<seq<Row>>)
    ensures r.Some? ==> |r.value| <= |rows| + |moves|
    decreases |moves|
  {
    if moves == [] then Some(rows)
    else match Appended(rows, HumanMove(moves[0]))
      case None => None
      case Some(next) => Replayed(next, moves[1..])
  }

  // ---------------------------------------------------------------------------
  // A game as played: White and Black alternate from move number `first` on.
  // ---------------------------------------------------------------------------

  /** White's moves are numbered first, first + 1, ..., and so are Black's; Black has made as
      many moves as White or one fewer. */
  ghost predicate PlayedFrom(whiteMoves: seq<Move>, blackMoves: seq<Move>, first: int)
  {
    (forall i :: 0 <= i < |whiteMoves| ==>
      whiteMoves[i].numberInGame == first + i && whiteMoves[i].color == White) &&
    (forall i :: 0 <= i < |blackMoves| ==>
      blackMoves[i].numberInGame == first + i && blackMoves[i].color == Black)
  }

  /** The moves in the order they were played: White, Black, White, Black, ... */
  function Alternate(whiteMoves: seq<Move>, blackMoves: seq<Move>): seq<Move>
    decreases |whiteMoves|
  {
    if blackMoves == [] then whiteMoves
    else if whiteMoves == [] then blackMoves
    else [whiteMoves[0], blackMoves[0]] + Alternate(whiteMoves[1..], blackMoves[1..])
  }

  /** The rows of a game as played: one per White move, with the Black reply of the same
      number when there is one. */
  function Paired(whiteMoves: seq<Move>, blackMoves: seq<Move>): seq<Row>
    decreases |whiteMoves|
  {
    if whiteMoves == [] then []
    else
      [Row(whiteMoves[0].numberInGame, HumanMove(whiteMoves[0]),
           if blackMoves == [] then [] else [HumanMove(blackMoves[0])])]
      + Paired(whiteMoves[1..], if blackMoves == [] then [] else blackMoves[1..])
  }

  lemma {:induction false} InsertAtEnd(t: seq<Move>, x: Move)
    requires forall i :: 0 <= i < |t| ==> !KeyBefore(x, t[i])
    ensures Insert(t, x) == t + [x]
  {
    if t != [] {
      InsertAtEnd(t[1..], x);
      assert t == [t[0]] + t[1..];
    }
  }

  lemma {:induction false} SortWhiteMoves(whiteMoves: seq<Move>, first: int)
    requires PlayedFrom(whiteMoves, [], first)
    ensures SortMoves(whiteMoves) == whiteMoves
  {
    if whiteMoves != [] {
      var n := |whiteMoves| - 1;
      SortWhiteMoves(whiteMoves[..n], first);
      InsertAtEnd(whiteMoves[..n], whiteMoves[n]);
      assert whiteMoves[..n] + [whiteMoves[n]] == whiteMoves;
    }
  }

  /** Black's first move goes right after White's first move. */
  lemma {:induction false} InsertFirstReply(whiteMoves: seq<Move>, b: Move, first: int)
    requires PlayedFrom(whiteMoves, [b], first)
    requires |whiteMoves| > 0
    ensures Insert(whiteMoves, b) == Alternate(whiteMoves, [b])
  {
    var w0 := whiteMoves[0];
    var tail := whiteMoves[1..];
    assert b == [b][0];
    assert tail != [] ==> KeyBefore(b, tail[0]) by {
      if tail != [] {
        assert tail[0] == whiteMoves[1];
      }
    }
    InsertAfterFirst(whiteMoves, b);
    AlternateOneReply(whiteMoves, b);
  }

  lemma {:induction false} InsertAfterFirst(t: seq<Move>, x: Move)
    requires t != [] && !KeyBefore(x, t[0])
    requires t[1..] != [] ==> KeyBefore(x, t[1..][0])
    ensures Insert(t, x) == [t[0], x] + t[1..]
  {
    assert Insert(t[1..], x) == [x] + t[1..];
  }

  lemma {:induction false} AlternateOneReply(whiteMoves: seq<Move>, b: Move)
    requires whiteMoves != []
    ensures Alternate(whiteMoves, [b]) == [whiteMoves[0], b] + whiteMoves[1..]
  {
    assert Alternate(whiteMoves[1..], [b][1..]) == whiteMoves[1..];
  }

  /** Black's next move goes right after the White move of its own number. */
  lemma {:induction false} InsertBlackReply(whiteMoves: seq<Move>, blackMoves: seq<Move>, b: Move, first: int)
    requires PlayedFrom(whiteMoves, blackMoves + [b], first)
    requires |blackMoves| < |whiteMoves|
    ensures Insert(Alternate(whiteMoves, blackMoves), b) == Alternate(whiteMoves, blackMoves + [b])
    decreases |blackMoves|
  {
    var bs := blackMoves + [b];
    if blackMoves == [] {
      assert bs == [b];
      InsertFirstReply(whiteMoves, b, first);
    } else {
      var w0, b0 := whiteMoves[0], blackMoves[0];
      var rest := Alternate(whiteMoves[1..], blackMoves[1..]);
      assert b0 == bs[0] && b == bs[|blackMoves|];
      InsertPastPair(w0, b0, rest, b);
      assert bs[1..] == blackMoves[1..] + [b];
      PlayedFromTail(whiteMoves, bs, first);
      InsertBlackReply(whiteMoves[1..], blackMoves[1..], b, first + 1);
      assert Alternate(whiteMoves, bs) == [w0, b0] + Alternate(whiteMoves[1..], bs[1..]);
    }
  }

  lemma {:induction false} InsertPastPair(w: Move, b: Move, rest: seq<Move>, x: Move)
    requires !KeyBefore(x, w) && !KeyBefore(x, b)
    ensures Insert([w, b] + rest, x) == [w, b] + Insert(rest, x)
  {
    assert ([w, b] + rest)[1..] == [b] + rest;
    assert ([b] + rest)[1..] == rest;
  }

  /** Sorting both lists inserts Black's last move into the sorted rest. */
  lemma {:induction false} SortLastBlack(whiteMoves: seq<Move>, blackMoves: seq<Move>)
    requires blackMoves != []
    ensures ReplayOrder(whiteMoves, blackMoves) ==
      Insert(ReplayOrder(whiteMoves, blackMoves[..|blackMoves| - 1]), blackMoves[|blackMoves| - 1])
  {
    var n := |blackMoves| - 1;
    var all := whiteMoves + blackMoves;
    assert all[..|all| - 1] == whiteMoves + blackMoves[..n];
    assert all[|all| - 1] == blackMoves[n];
  }

  /** For a game as played, the load order is the order of play. */
  lemma {:induction false} ReplayOrderIsPlayOrder(whiteMoves: seq<Move>, blackMoves: seq<Move>, first: int)
    requires PlayedFrom(whiteMoves, blackMoves, first)
    requires |blackMoves| <= |whiteMoves|
    ensures ReplayOrder(whiteMoves, blackMoves) == Alternate(whiteMoves, blackMoves)
    decreases |blackMoves|
  {
    if blackMoves == [] {
      assert whiteMoves + blackMoves == whiteMoves;
      SortWhiteMoves(whiteMoves, first);
    } else {
      var n := |blackMoves| - 1;
      SortLastBlack(whiteMoves, blackMoves);
      ReplayOrderIsPlayOrder(whiteMoves, blackMoves[..n], first);
      InsertBlackReply(whiteMoves, blackMoves[..n], blackMoves[n], first);
      assert blackMoves[..n] + [blackMoves[n]] == blackMoves;
    }
  }

  lemma {:induction false} TruncateConcat(a: seq<Row>, b: seq<Row>, m: Move)
    ensures Truncate(a + b, m) == Truncate(a, m) + Truncate(b, m)
  {
    if a != [] {
      TruncateConcat(a[1..], b, m);
      assert (a + b)[1..] == a[1..] + b;
    } else {
      assert a + b == b;
    }
  }

  lemma {:induction false} TruncateKeepsEarlier(rows: seq<Row>, m: Move)
    requires forall i :: 0 <= i < |rows| ==> rows[i].number < m.numberInGame
    ensures Truncate(rows, m) == rows
  {
    if rows != [] {
      TruncateKeepsEarlier(rows[1..], m);
      assert rows == [rows[0]] + rows[1..];
    }
  }

  lemma {:induction false} TruncateDropsLater(rows: seq<Row>, m: Move)
    requires m.color == White
    requires forall i :: 0 <= i < |rows| ==> rows[i].number >= m.numberInGame
    ensures Truncate(rows, m) == []
  {
    if rows != [] {
      TruncateDropsLater(rows[1..], m);
    }
  }

  /** White's move numbered `first` opens its own row after rows numbered below it. */
  lemma {:induction false} RecordWhite(done: seq<Row>, w: Move, first: int)
    requires forall i :: 0 <= i < |done| ==> done[i].number < first
    requires w.numberInGame == first && w.color == White
    ensures Appended(done, HumanMove(w)) == Some(done + [Row(first, HumanMove(w), [])])
  {
    TruncateKeepsEarlier(done, w);
  }

  /** White's move numbered `first` removes every row numbered `first` or more. */
  lemma {:induction false} RecordWhiteOverStale(stale: seq<Row>, w: Move, first: int)
    requires forall i :: 0 <= i < |stale| ==> stale[i].number >= first
    requires w.numberInGame == first && w.color == White
    ensures Appended(stale, HumanMove(w)) == Some([Row(first, HumanMove(w), [])])
  {
    TruncateDropsLater(stale, w);
    assert [] + [Row(first, HumanMove(w), [])] == [Row(first, HumanMove(w), [])];
  }

  /** Black's reply of the same number joins the row White just opened. */
  lemma {:induction false} RecordBlackReply(done: seq<Row>, w: Move, b: Move, first: int)
    requires forall i :: 0 <= i < |done| ==> done[i].number < first
    requires b.numberInGame == first && b.color == Black
    ensures Appended(done + [Row(first, HumanMove(w), [])], HumanMove(b)) ==
      Some(done + [Row(first, HumanMove(w), [HumanMove(b)])])
  {
    var whiteRow := Row(first, HumanMove(w), []);
    TruncateConcat(done, [whiteRow], b);
    TruncateKeepsEarlier(done, b);
    assert Truncate([whiteRow], b) == [whiteRow] by {
      assert Trimmed(whiteRow, b) == [whiteRow];
      assert [whiteRow][1..] == [];
    }
    var kept := done + [whiteRow];
    assert kept[..|kept| - 1] == done;
    assert AddCell(whiteRow, HumanMove(b)) == Row(first, HumanMove(w), [HumanMove(b)]);
  }

  lemma {:induction false} ReplayedFirst(rows: seq<Row>, w: Move, rest: seq<Move>, r1: seq<Row>)
    requires Appended(rows, HumanMove(w)) == Some(r1)
    ensures Replayed(rows, [w] + rest) == Replayed(r1, rest)
  {
    assert ([w] + rest)[1..] == rest;
  }

  lemma {:induction false} ReplayedStops(rows: seq<Row>, w: Move, rest: seq<Move>)
    requires Appended(rows, HumanMove(w)) == None
    ensures Replayed(rows, [w] + rest) == None
  {
    assert ([w] + rest)[0] == w;
  }

  /** Replaying from the i-th move on: its recording, then the rest. */
  lemma {:induction false} ReplayAdvance(before: seq<Row>, moves: seq<Move>, i: nat, after: seq<Row>)
    requires i < |moves|
    requires Appended(before, HumanMove(moves[i])) == Some(after)
    ensures Replayed(before, moves[i..]) == Replayed(after, moves[i + 1..])
  {
    assert moves[i..] == [moves[i]] + moves[i + 1..];
    ReplayedFirst(before, moves[i], moves[i + 1..], after);
  }

  lemma {:induction false} ReplayHalts(before: seq<Row>, moves: seq<Move>, i: nat)
    requires i < |moves|
    requires Appended(before, HumanMove(moves[i])) == None
    ensures Replayed(before, moves[i..]) == None
  {
    assert moves[i..] == [moves[i]] + moves[i + 1..];
    ReplayedStops(before, moves[i], moves[i + 1..]);
  }

  lemma {:induction false} ReplayDone(rows: seq<Row>, moves: seq<Move>)
    ensures Replayed(rows, moves[|moves|..]) == Some(rows)
  {
    assert moves[|moves|..] == [];
  }

  /** Replaying a game as played after rows numbered below `first` gives those rows followed
      by one row per White move with its Black reply. */
  lemma {:induction false} ReplayAfterDone(done: seq<Row>, whiteMoves: seq<Move>, blackMoves: seq<Move>, first: int)
    requires forall i :: 0 <= i < |done| ==> done[i].number < first
    requires PlayedFrom(whiteMoves, blackMoves, first)
    requires |blackMoves| <= |whiteMoves| <= |blackMoves| + 1
    ensures Replayed(done, Alternate(whiteMoves, blackMoves)) == Some(done + Paired(whiteMoves, blackMoves))
    decreases |whiteMoves|
  {
    if whiteMoves == [] {
      assert done + [] == done;
    } else {
      var w0 := whiteMoves[0];
      if blackMoves == [] {
        ReplayLoneWhite(done, whiteMoves, first);
      } else {
        var pairedRow := Row(first, HumanMove(w0), [HumanMove(blackMoves[0])]);
        PlayedFromTail(whiteMoves, blackMoves, first);
        DoneExtended(done, pairedRow, first);
        ReplayAfterDone(done + [pairedRow], whiteMoves[1..], blackMoves[1..], first + 1);
        AlternateCons(whiteMoves, blackMoves);
        PairedCons(whiteMoves, blackMoves);
        ReplayAfterPair(done, w0, blackMoves[0], Alternate(whiteMoves[1..], blackMoves[1..]),
                        Paired(whiteMoves[1..], blackMoves[1..]), first);
      }
    }
  }

  /** A last White move without a reply opens a row of its own. */
  lemma {:induction false} ReplayLoneWhite(done: seq<Row>, whiteMoves: seq<Move>, first: int)
    requires forall i :: 0 <= i < |done| ==> done[i].number < first
    requires PlayedFrom(whiteMoves, [], first)
    requires |whiteMoves| == 1
    ensures Replayed(done, Alternate(whiteMoves, [])) == Some(done + Paired(whiteMoves, []))
  {
    var w0 := whiteMoves[0];
    var whiteRow := Row(first, HumanMove(w0), []);
    RecordWhite(done, w0, first);
    assert whiteMoves == [w0] + [];
    ReplayedFirst(done, w0, [], done + [whiteRow]);
    assert Paired(whiteMoves, []) == [whiteRow];
  }

  /** One step of the replay: the first pair of moves adds its row, and the rest of the game
      is replayed after it. */
  lemma {:induction false} ReplayAfterPair(
    done: seq<Row>, w: Move, b: Move, rest: seq<Move>, later: seq<Row>, first: int)
    requires forall i :: 0 <= i < |done| ==> done[i].number < first
    requires w.numberInGame == first && w.color == White
    requires b.numberInGame == first && b.color == Black
    requires Replayed(done + [Row(first, HumanMove(w), [HumanMove(b)])], rest) ==
             Some(done + [Row(first, HumanMove(w), [HumanMove(b)])] + later)
    ensures Replayed(done, [w] + ([b] + rest)) ==
            Some(done + ([Row(first, HumanMove(w), [HumanMove(b)])] + later))
  {
    ReplayPair(done, w, b, rest, first);
    var pairedRow := Row(first, HumanMove(w), [HumanMove(b)]);
    assert done + [pairedRow] + later == done + ([pairedRow] + later);
  }

  lemma {:induction false} AlternateCons(whiteMoves: seq<Move>, blackMoves: seq<Move>)
    requires whiteMoves != [] && blackMoves != []
    ensures Alternate(whiteMoves, blackMoves) ==
      [whiteMoves[0]] + ([blackMoves[0]] + Alternate(whiteMoves[1..], blackMoves[1..]))
  {
    var rest := Alternate(whiteMoves[1..], blackMoves[1..]);
    assert Alternate(whiteMoves, blackMoves) == [whiteMoves[0], blackMoves[0]] + rest;
    PairThenRest(whiteMoves[0], blackMoves[0], rest);
  }

  lemma {:induction false} PairThenRest(w: Move, b: Move, rest: seq<Move>)
    ensures [w, b] + rest == [w] + ([b] + rest)
  {
    assert ([w, b] + rest)[0] == w;
  }

  lemma {:induction false} PairedCons(whiteMoves: seq<Move>, blackMoves: seq<Move>)
    requires whiteMoves != [] && blackMoves != []
    ensures Paired(whiteMoves, blackMoves) ==
      [Row(whiteMoves[0].numberInGame, HumanMove(whiteMoves[0]), [HumanMove(blackMoves[0])])]
      + Paired(whiteMoves[1..], blackMoves[1..])
  {
  }

  lemma {:induction false} DoneExtended(done: seq<Row>, row: Row, first: int)
    requires forall i :: 0 <= i < |done| ==> done[i].number < first
    requires row.number == first
    ensures forall i :: 0 <= i < |done + [row]| ==> (done + [row])[i].number < first + 1
  {
  }

  /** Replaying a White move and the Black reply of the same number adds their row. */
  lemma {:induction false} ReplayPair(done: seq<Row>, w: Move, b: Move, rest: seq<Move>, first: int)
    requires forall i :: 0 <= i < |done| ==> done[i].number < first
    requires w.numberInGame == first && w.color == White
    requires b.numberInGame == first && b.color == Black
    ensures Replayed(done, [w] + ([b] + rest)) ==
      Replayed(done + [Row(first, HumanMove(w), [HumanMove(b)])], rest)
  {
    var whiteRow := Row(first, HumanMove(w), []);
    RecordWhite(done, w, first);
    RecordBlackReply(done, w, b, first);
    ReplayedFirst(done, w, [b] + rest, done + [whiteRow]);
    ReplayedFirst(done + [whiteRow], b, rest, done + [Row(first, HumanMove(w), [HumanMove(b)])]);
  }

  lemma {:induction false} PlayedFromTail(whiteMoves: seq<Move>, blackMoves: seq<Move>, first: int)
    requires PlayedFrom(whiteMoves, blackMoves, first)
    requires whiteMoves != [] && blackMoves != []
    ensures PlayedFrom(whiteMoves[1..], blackMoves[1..], first + 1)
  {
    var ws, bs := whiteMoves[1..], blackMoves[1..];
    forall i | 0 <= i < |ws|
      ensures ws[i].numberInGame == first + 1 + i && ws[i].color == White
    {
      assert ws[i] == whiteMoves[i + 1];
    }
    forall i | 0 <= i < |bs|
      ensures bs[i].numberInGame == first + 1 + i && bs[i].color == Black
    {
      assert bs[i] == blackMoves[i + 1];
    }
  }

  /** Loading a game as played, numbered from 1, over a list whose rows are numbered 1 or more,
      leaves exactly one row per White move holding it and its Black reply: the list a player
      would have built move by move. A game without moves leaves the list as it was. */
  lemma {:induction false} LoadRebuildsHistory(rows: seq<Row>, whiteMoves: seq<Move>, blackMoves: seq<Move>)
    requires forall i :: 0 <= i < |rows| ==> rows[i].number >= 1
    requires PlayedFrom(whiteMoves, blackMoves, 1)
    requires |blackMoves| <= |whiteMoves| <= |blackMoves| + 1
    ensures Replayed(rows, ReplayOrder(whiteMoves, blackMoves)) ==
      Some(if whiteMoves == [] then rows else Paired(whiteMoves, blackMoves))
  {
    ReplayOrderIsPlayOrder(whiteMoves, blackMoves, 1);
    if whiteMoves != [] {
      ReplayAfterDone([], whiteMoves, blackMoves, 1);
      var w0 := whiteMoves[0];
      var moves := Alternate(whiteMoves, blackMoves);
      var r1 := [Row(1, HumanMove(w0), [])];
      assert moves == [w0] + moves[1..];
      RecordWhiteOverStale(rows, w0, 1);
      RecordWhite([], w0, 1);
      ReplayedFirst(rows, w0, moves[1..], r1);
      ReplayedFirst([], w0, moves[1..], r1);
      assert [] + Paired(whiteMoves, blackMoves) == Paired(whiteMoves, blackMoves);
    }
  }

  /** The flattened list of a game as played is its moves in the order of play. */
  lemma {:induction false} FlattenPaired(whiteMoves: seq<Move>, blackMoves: seq<Move>)
    requires |blackMoves| <= |whiteMoves| <= |blackMoves| + 1
    ensures Flatten(Paired(whiteMoves, blackMoves)) == MapHuman(Alternate(whiteMoves, blackMoves))
    decreases |whiteMoves|
  {
    if whiteMoves != [] {
      var w0 := whiteMoves[0];
      var bs := if blackMoves == [] then [] else blackMoves[1..];
      var row := Row(w0.numberInGame, HumanMove(w0), if blackMoves == [] then [] else [HumanMove(blackMoves[0])]);
      FlattenPaired(whiteMoves[1..], bs);
      FlattenConcat([row], Paired(whiteMoves[1..], bs));
      assert Flatten([row]) == RowEntries(row);
      if blackMoves == [] {
        assert Alternate(whiteMoves, blackMoves) == [w0];
        assert whiteMoves[1..] == [];
      } else {
        var rest := Alternate(whiteMoves[1..], blackMoves[1..]);
        assert Alternate(whiteMoves, blackMoves) == [w0, blackMoves[0]] + rest;
        MapHumanConcat([w0, blackMoves[0]], rest);
      }
    }
  }

  /** Each move as a move-list cell without search information. */
  function MapHuman(moves: seq<Move>): (r: seq<Evaluation>)
    ensures |r| == |moves|
    ensures forall i :: 0 <= i < |moves| ==> r[i] == HumanMove(moves[i])
  {
    if moves == [] then [] else [HumanMove(moves[0])] + MapHuman(moves[1..])
  }

  lemma {:induction false} MapHumanConcat(a: seq<Move>, b: seq<Move>)
    ensures MapHuman(a + b) == MapHuman(a) + MapHuman(b)
  {
  }

  // ---------------------------------------------------------------------------
  // Browsing back, then playing a move
  // ---------------------------------------------------------------------------

  /** Rows numbered first, first + 1, ... in order. */
  ghost predicate NumberedFrom(rows: seq<Row>, first: int)
  {
    forall i :: 0 <= i < |rows| ==> rows[i].number == first + i
  }

  lemma {:induction false} NumberedFromTail(rows: seq<Row>, first: int)
    requires NumberedFrom(rows, first) && rows != []
    ensures NumberedFrom(rows[1..], first + 1)
  {
    forall i | 0 <= i < |rows| - 1
      ensures rows[1..][i].number == first + 1 + i
    {
      assert rows[1..][i] == rows[i + 1];
    }
  }

  lemma {:induction false} TruncateDropsHigher(rows: seq<Row>, m: Move)
    requires forall i :: 0 <= i < |rows| ==> rows[i].number > m.numberInGame
    ensures Truncate(rows, m) == []
  {
    if rows != [] {
      TruncateDropsHigher(rows[1..], m);
    }
  }

  /** On rows numbered from `first`, a White move numbered n keeps the rows before row n. */
  lemma {:induction false} TruncateNumberedWhite(rows: seq<Row>, m: Move, first: int)
    requires NumberedFrom(rows, first) && m.color == White
    requires first <= m.numberInGame <= first + |rows|
    ensures Truncate(rows, m) == rows[..m.numberInGame - first]
    decreases |rows|
  {
    if m.numberInGame == first {
      TruncateDropsLater(rows, m);
    } else {
      NumberedFromTail(rows, first);
      TruncateNumberedWhite(rows[1..], m, first + 1);
      assert Trimmed(rows[0], m) == [rows[0]];
      assert rows[..m.numberInGame - first] == [rows[0]] + rows[1..][..m.numberInGame - first - 1];
    }
  }

  /** On rows numbered from `first`, a Black move numbered n keeps the rows up to row n, and
      row n itself unchanged when it has at most three sub-items. */
  lemma {:induction false} TruncateNumberedBlack(rows: seq<Row>, m: Move, first: int)
    requires NumberedFrom(rows, first) && m.color == Black
    requires first <= m.numberInGame < first + |rows|
    requires rows[m.numberInGame - first].SubItemCount() <= 3
    ensures Truncate(rows, m) == rows[..m.numberInGame - first + 1]
    decreases |rows|
  {
    assert Trimmed(rows[0], m) == [rows[0]];
    if m.numberInGame == first {
      forall i | 0 <= i < |rows| - 1
        ensures rows[1..][i].number > m.numberInGame
      {
        assert rows[1..][i] == rows[i + 1];
      }
      TruncateDropsHigher(rows[1..], m);
      assert rows[..1] == [rows[0]];
    } else {
      NumberedFromTail(rows, first);
      assert rows[1..][m.numberInGame - first - 1] == rows[m.numberInGame - first];
      TruncateNumberedBlack(rows[1..], m, first + 1);
      assert rows[..m.numberInGame - first + 1] == [rows[0]] + rows[1..][..m.numberInGame - first];
    }
  }

  /** Row i of a game as played holds White's move i and, when there is one, Black's move i. */
  lemma {:induction false} PairedRows(whiteMoves: seq<Move>, blackMoves: seq<Move>)
    ensures |Paired(whiteMoves, blackMoves)| == |whiteMoves|
    ensures forall i :: 0 <= i < |whiteMoves| ==>
      (Paired(whiteMoves, blackMoves)[i] ==
       Row(whiteMoves[i].numberInGame, HumanMove(whiteMoves[i]),
           if i < |blackMoves| then [HumanMove(blackMoves[i])] else []))
    decreases |whiteMoves|
  {
    if whiteMoves != [] {
      var bs := if blackMoves == [] then [] else blackMoves[1..];
      var rest := Paired(whiteMoves[1..], bs);
      PairedRows(whiteMoves[1..], bs);
      forall i | 0 < i < |whiteMoves|
        ensures Paired(whiteMoves, blackMoves)[i] ==
          Row(whiteMoves[i].numberInGame, HumanMove(whiteMoves[i]),
              if i < |blackMoves| then [HumanMove(blackMoves[i])] else [])
      {
        assert Paired(whiteMoves, blackMoves)[i] == rest[i - 1];
        assert whiteMoves[1..][i - 1] == whiteMoves[i];
        if i < |blackMoves| {
          assert bs[i - 1] == blackMoves[i];
        }
      }
    }
  }

  lemma {:induction false} AlternateLength(whiteMoves: seq<Move>, blackMoves: seq<Move>)
    ensures |Alternate(whiteMoves, blackMoves)| == |whiteMoves| + |blackMoves|
    decreases |whiteMoves|
  {
    if blackMoves != [] && whiteMoves != [] {
      AlternateLength(whiteMoves[1..], blackMoves[1..]);
    }
  }

  /** A game as played shows one ply per move. */
  lemma {:induction false} FlattenPairedLength(whiteMoves: seq<Move>, blackMoves: seq<Move>)
    requires |blackMoves| <= |whiteMoves| <= |blackMoves| + 1
    ensures |Flatten(Paired(whiteMoves, blackMoves))| == |whiteMoves| + |blackMoves|
  {
    FlattenPaired(whiteMoves, blackMoves);
    AlternateLength(whiteMoves, blackMoves);
  }

  lemma {:induction false} PairedPrefix(whiteMoves: seq<Move>, blackMoves: seq<Move>, k: nat)
    requires k <= |blackMoves| && k <= |whiteMoves|
    ensures |Paired(whiteMoves, blackMoves)| == |whiteMoves|
    ensures Paired(whiteMoves, blackMoves)[..k] == Paired(whiteMoves[..k], blackMoves[..k])
  {
    PairedRows(whiteMoves, blackMoves);
    PairedRows(whiteMoves[..k], blackMoves[..k]);
  }

  lemma {:induction false} PairedNumbered(whiteMoves: seq<Move>, blackMoves: seq<Move>, first: int)
    requires PlayedFrom(whiteMoves, blackMoves, first)
    ensures |Paired(whiteMoves, blackMoves)| == |whiteMoves|
    ensures NumberedFrom(Paired(whiteMoves, blackMoves), first)
  {
    PairedRows(whiteMoves, blackMoves);
  }

  lemma {:induction false} PairedBlackCell(whiteMoves: seq<Move>, blackMoves: seq<Move>, k: nat)
    requires k < |blackMoves| && k < |whiteMoves|
    ensures k < |Paired(whiteMoves, blackMoves)|
    ensures Paired(whiteMoves, blackMoves)[k].after == [HumanMove(blackMoves[k])]
  {
    PairedRows(whiteMoves, blackMoves);
  }

  /** The game cut after move k, where Black has made at least k moves, shows the first 2k
      plies of the whole game. */
  lemma {:induction false} FlattenPairedPrefix(whiteMoves: seq<Move>, blackMoves: seq<Move>, k: nat)
    requires |blackMoves| <= |whiteMoves| <= |blackMoves| + 1 && k <= |blackMoves|
    ensures 2 * k <= |Flatten(Paired(whiteMoves, blackMoves))|
    ensures Flatten(Paired(whiteMoves[..k], blackMoves[..k])) == Flatten(Paired(whiteMoves, blackMoves))[..2 * k]
  {
    FlattenPairedLength(whiteMoves[..k], blackMoves[..k]);
    PairedPrefix(whiteMoves, blackMoves, k);
    FlattenFront(Paired(whiteMoves, blackMoves), k);
  }

  /** Browsing back in a game as played and then playing a move. The highlight stands at
      `selected`, before the last ply, so Position(selected) plies are on the board and the
      move to play is ply Position(selected): number p / 2 + 1, White when p is even.
      A White move replaces everything after the highlight: the ply list becomes the plies
      up to the highlight followed by the new move. A Black move gives a ply list of the
      intended length, the plies up to the highlight and one more, but that last ply is the
      old Black reply, not the new move (the new cell is a fourth, unshown sub-item). */
  lemma {:induction false} RewindThenRecord(
    whiteMoves: seq<Move>, blackMoves: seq<Move>, selected: Option<nat>, e: Evaluation)
    requires PlayedFrom(whiteMoves, blackMoves, 1)
    requires |blackMoves| <= |whiteMoves| <= |blackMoves| + 1
    requires Position(selected) < |Flatten(Paired(whiteMoves, blackMoves))|
    requires e.move.numberInGame == Position(selected) / 2 + 1
    requires e.move.color == if Position(selected) % 2 == 0 then White else Black
    ensures Appended(Paired(whiteMoves, blackMoves), e).Some?
    ensures e.move.color == White ==>
      Flatten(Appended(Paired(whiteMoves, blackMoves), e).value) ==
      Flatten(Paired(whiteMoves, blackMoves))[..Position(selected)] + [e]
    ensures e.move.color == Black ==>
      Flatten(Appended(Paired(whiteMoves, blackMoves), e).value) ==
      Flatten(Paired(whiteMoves, blackMoves))[..Position(selected) + 1]
  {
    var p := Position(selected);
    var k := p / 2;
    FlattenPairedLength(whiteMoves, blackMoves);
    if p % 2 == 0 {
      assert p == 2 * k && k <= |blackMoves|;
      RecordWhiteAfterRewind(whiteMoves, blackMoves, k, e);
      FlattenPairedPrefix(whiteMoves, blackMoves, k);
    } else {
      assert p + 1 == 2 * (k + 1) && k < |blackMoves|;
      RecordBlackAfterRewind(whiteMoves, blackMoves, k, e);
      FlattenPairedPrefix(whiteMoves, blackMoves, k + 1);
    }
  }

  lemma {:induction false} RecordWhiteAfterRewind(
    whiteMoves: seq<Move>, blackMoves: seq<Move>, k: nat, e: Evaluation)
    requires PlayedFrom(whiteMoves, blackMoves, 1)
    requires |blackMoves| <= |whiteMoves| && k <= |blackMoves|
    requires e.move.numberInGame == k + 1 && e.move.color == White
    ensures Appended(Paired(whiteMoves, blackMoves), e) ==
      Some(Paired(whiteMoves[..k], blackMoves[..k]) + [Row(k + 1, e, [])])
    ensures Flatten(Appended(Paired(whiteMoves, blackMoves), e).value) ==
      Flatten(Paired(whiteMoves[..k], blackMoves[..k])) + [e]
  {
    var rows := Paired(whiteMoves, blackMoves);
    PairedNumbered(whiteMoves, blackMoves, 1);
    PairedPrefix(whiteMoves, blackMoves, k);
    TruncateNumberedWhite(rows, e.move, 1);
    FlattenSnoc(rows[..k], Row(k + 1, e, []));
  }

  lemma {:induction false} RecordBlackAfterRewind(
    whiteMoves: seq<Move>, blackMoves: seq<Move>, k: nat, e: Evaluation)
    requires PlayedFrom(whiteMoves, blackMoves, 1)
    requires |blackMoves| <= |whiteMoves| && k < |blackMoves|
    requires e.move.numberInGame == k + 1 && e.move.color == Black
    ensures Appended(Paired(whiteMoves, blackMoves), e).Some?
    ensures Flatten(Appended(Paired(whiteMoves, blackMoves), e).value) ==
      Flatten(Paired(whiteMoves[..k + 1], blackMoves[..k + 1]))
  {
    var rows := Paired(whiteMoves, blackMoves);
    PairedNumbered(whiteMoves, blackMoves, 1);
    PairedBlackCell(whiteMoves, blackMoves, k);
    PairedPrefix(whiteMoves, blackMoves, k + 1);
    TruncateNumberedBlack(rows, e.move, 1);
    var kept := rows[..k + 1];
    assert kept[k] == rows[k];
    BlackAppendHidesMove(rows, e);
  }
}
