/**
 The part of the chess-rules library (chessops) that the move picker uses.
 Positions are kept abstract: every module that uses them is generic in the
 position type P, and the library's operations are passed in as a `Rules<P>`
 value, so every property proved about the search holds for any rules at all.
 */
module ChessRules {

  /** A square, numbered as the library numbers them: 0 (a1) to 63 (h8). */
  type Square = x: int | 0 <= x < 64

  datatype Color = White | Black

  /** A move by origin and destination only; the move picker never adds a promotion piece. */
  datatype Move = Move(from: Square, to: Square)

  /**
   The library operations on positions of type P.
   - turn: the side to move
   - isStalemate, isCheckmate: the terminal tests
   - occupied(p, c): the squares holding a piece of colour c, in iteration order
   - dests(p, s): the destination squares the library reports for the piece on s,
     in iteration order (nothing is assumed about squares of the side not to move)
   - play(p, m): a copy of p with m played (clone, then play)
   - boardKey(p): the piece-placement string of p (no side to move, no rights, and
     not assumed injective)
   */
  datatype Rules<!P> = Rules(
    turn: P -> Color,
    isStalemate: P -> bool,
    isCheckmate: P -> bool,
    occupied: (P, Color) -> seq<Square>,
    dests: (P, Square) -> seq<Square>,
    play: (P, Move) -> P,
    boardKey: P -> string
  )
}
