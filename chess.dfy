/**
 * The values the form receives from, and sends to, the chess library.
 * The library's own classes (Game, Engine, Move, Evaluation) are not part of this model;
 * only what the form reads from them, and the calls it makes on them, appear here.
 */
module Chess {
  import opened Wrappers

  datatype Color = White | Black

  /** A played half-move: its number in the game (shared by White and Black),
      the colour of the moving piece, and the text the move list shows for it. */
  datatype Move = Move(numberInGame: int, color: Color, notation: string)

  /** What a search reports besides the move. */
  datatype SearchInfo = SearchInfo(value: int, nodes: int, bestLine: string)

  /** An evaluated move, as carried by a move-list cell. A move made by hand or read
      from a file carries no search information. */
  datatype Evaluation = Evaluation(move: Move, search: Option<SearchInfo>)

  function HumanMove(m: Move): Evaluation
  {
    Evaluation(m, None)
  }

  /** A call the form makes on the game or on the engine. */
  datatype Command =
    | UndoLastMove               // ChessGame.UndoLastMove()
    | PerformLegalMove(move: Move) // ChessGame.PerformLegalMove(move)
    | AbortSearch                // Engine.Abort()
    | StartNewGame               // ChessGame.New()
}
