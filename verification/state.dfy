/** The game state snapshot, the moves, and `movePiece`, which applies a
    move in isolation without looking at the board. */
module States {
  import opened Wrappers
  import opened Pieces
  import opened Boards

  /** Board coordinate of the piece grid's top-left cell; either part may
      be negative or past the board edge. */
  datatype Position = Position(row: int, col: int)

  const InitialPosition := Position(0, 3)

  datatype GameState = GameState(board: Board, piece: Piece, piecePosition: Position, isDone: bool)

  datatype Move = Down | Left | Right | RotateLeft | RotateRight | Drop

  /** The candidate state for a move. `Drop` has no case in `movePiece`'s
      switch, so the result is `undefined`, modelled as `None`. */
  function MovePiece(s: GameState, move: Move): (r: Option<GameState>)
    requires move in {RotateLeft, RotateRight} ==> IsSquare(s.piece.cells)
    ensures r.None? <==> move == Drop
    ensures r.Some? ==> r.value.board == s.board && r.value.isDone == s.isDone
    ensures move in {Left, Right} ==>
              r.value.piece == s.piece && r.value.piecePosition.row == s.piecePosition.row
    ensures move == Left ==> r.value.piecePosition.col == s.piecePosition.col - 1
    ensures move == Right ==> r.value.piecePosition.col == s.piecePosition.col + 1
    ensures move == Down ==>
              r.value.piece == s.piece && r.value.piecePosition.col == s.piecePosition.col
              && r.value.piecePosition.row == s.piecePosition.row + 1
    ensures move in {RotateLeft, RotateRight} ==>
              r.value.piecePosition == s.piecePosition && r.value.piece.color == s.piece.color
              && IsSquare(r.value.piece.cells) && |r.value.piece.cells| == |s.piece.cells|
    ensures move == RotateLeft ==> r.value.piece == RotatePieceLeft(s.piece)
    ensures move == RotateRight ==> r.value.piece == RotatePieceRight(s.piece)
  {
    var p := s.piecePosition;
    match move
    case RotateLeft => Some(s.(piece := RotatePieceLeft(s.piece)))
    case RotateRight => Some(s.(piece := RotatePieceRight(s.piece)))
    case Left => Some(s.(piecePosition := Position(p.row, p.col - 1)))
    case Right => Some(s.(piecePosition := Position(p.row, p.col + 1)))
    case Down => Some(s.(piecePosition := Position(p.row + 1, p.col)))
    case Drop => None
  }

  /** The opposite move, where there is one. */
  function Opposite(move: Move): Move
    requires move in {Left, Right, RotateLeft, RotateRight}
  {
    match move
    case Left => Right
    case Right => Left
    case RotateLeft => RotateRight
    case RotateRight => RotateLeft
  }

  /** A sideways shift or a rotation followed by its opposite gives back the
      original state. */
  lemma OppositeMoveRestores(s: GameState, move: Move)
    requires move in {Left, Right, RotateLeft, RotateRight}
    requires IsSquare(s.piece.cells)
    ensures MovePiece(MovePiece(s, move).value, Opposite(move)) == Some(s)
  {
    match move
    case Left =>
    case Right =>
    case RotateLeft => RightUndoesLeft(s.piece);
    case RotateRight => LeftUndoesRight(s.piece);
  }
}
