/** The collision test: a filled piece cell blocks when the board cell under
    it is outside the board or already filled. Outside lookups read as
    `undefined`, which is not `null`, so the edges need no special case. */
module Collision {
  import opened Wrappers
  import opened Pieces
  import opened Boards
  import opened States

  /** The board cell at (i, j) is off the board or filled. */
  predicate Blocked(b: Board, i: int, j: int)
  {
    !InBoard(b, i, j) || b[i][j].Some?
  }

  /** The inner `row.some(...)`: scans piece row `row` from column `c0`,
      the row lying on board row `i` with its first cell at board column `j`. */
  function RowHits(b: Board, row: seq<bool>, i: int, j: int, c0: nat): (hit: bool)
    requires c0 <= |row|
    ensures hit <==> exists c :: c0 <= c < |row| && row[c] && Blocked(b, i, j + c)
    decreases |row| - c0
  {
    if c0 == |row| then false
    else (row[c0] && Blocked(b, i, j + c0)) || RowHits(b, row, i, j, c0 + 1)
  }

  /** The outer `cells.some(...)`, scanning piece rows from `r0`. */
  function CellsHit(b: Board, cells: seq<seq<bool>>, pos: Position, r0: nat): (hit: bool)
    requires r0 <= |cells|
    ensures hit <==> exists r, c :: r0 <= r < |cells| && 0 <= c < |cells[r]| && cells[r][c]
                                    && Blocked(b, pos.row + r, pos.col + c)
    decreases |cells| - r0
  {
    if r0 == |cells| then false
    else RowHits(b, cells[r0], pos.row + r0, pos.col, 0) || CellsHit(b, cells, pos, r0 + 1)
  }

  /** True exactly when some filled piece cell lands off the board or on a
      filled board cell. */
  function HasCollision(s: GameState): (hit: bool)
    ensures hit <==> exists r, c :: 0 <= r < |s.piece.cells| && 0 <= c < |s.piece.cells[r]|
                                    && s.piece.cells[r][c]
                                    && (!InBoard(s.board, s.piecePosition.row + r, s.piecePosition.col + c)
                                        || s.board[s.piecePosition.row + r][s.piecePosition.col + c].Some?)
  {
    CellsHit(s.board, s.piece.cells, s.piecePosition, 0)
  }

  /** Every filled piece cell lands on the board. */
  predicate PieceInBounds(s: GameState)
  {
    forall r, c :: 0 <= r < |s.piece.cells| && 0 <= c < |s.piece.cells[r]| && s.piece.cells[r][c] ==>
      InBoard(s.board, s.piecePosition.row + r, s.piecePosition.col + c)
  }

  /** Every filled piece cell lands on an empty board cell. */
  predicate PieceOverEmptyCells(s: GameState)
  {
    forall r, c :: 0 <= r < |s.piece.cells| && 0 <= c < |s.piece.cells[r]| && s.piece.cells[r][c] ==>
      InBoard(s.board, s.piecePosition.row + r, s.piecePosition.col + c)
      && s.board[s.piecePosition.row + r][s.piecePosition.col + c] == None
  }

  /** No collision means the piece sits inside the board over empty cells. */
  lemma NoCollisionIsInBoundsOverEmpty(s: GameState)
    ensures !HasCollision(s) <==> PieceOverEmptyCells(s)
    ensures PieceOverEmptyCells(s) ==> PieceInBounds(s)
  {
  }

  /** Moving further out past an edge the piece already crosses keeps it
      colliding: left past the left wall, right past the right wall, down
      past the floor. */
  lemma CollisionPersistsOutward(s: GameState, r: int, c: int)
    requires 0 <= r < |s.piece.cells| && 0 <= c < |s.piece.cells[r]| && s.piece.cells[r][c]
    ensures s.piecePosition.col + c < 0 ==> HasCollision(MovePiece(s, Left).value)
    ensures WellFormed(s.board) && s.piecePosition.col + c >= BoardWidth ==>
              HasCollision(MovePiece(s, Right).value)
    ensures s.piecePosition.row + r >= |s.board| ==> HasCollision(MovePiece(s, Down).value)
  {
  }
}
