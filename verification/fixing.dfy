/** Fixing a landed piece: its filled cells are written, one at a time as
    in `fixPieceToBoard`'s nested `forEach`, into a copy of the board. */
module Fixing {
  import opened Wrappers
  import opened Pieces
  import opened Boards
  import opened States
  import opened Collision

  /** Same number of rows, and each row as long as before. */
  predicate SameShape(a: Board, b: Board)
  {
    |a| == |b| && forall k :: 0 <= k < |a| ==> |a[k]| == |b[k]|
  }

  lemma SameShapeKeepsInBoard(a: Board, b: Board)
    requires SameShape(a, b)
    ensures forall i, j :: InBoard(b, i, j) ==> InBoard(a, i, j)
  {
  }

  /** Board cell (i, j) lies under a filled cell of `cells` placed at `pos`. */
  predicate Covers(cells: seq<seq<bool>>, pos: Position, i: int, j: int)
  {
    0 <= i - pos.row < |cells| && 0 <= j - pos.col < |cells[i - pos.row]|
    && cells[i - pos.row][j - pos.col]
  }

  /** Writes the filled cells of piece row `row`, from column `c0` on, into
      board row `i` starting at board column `j`. */
  function WriteRow(b: Board, row: seq<bool>, i: int, j: int, color: Color, c0: nat): (r: Board)
    requires c0 <= |row|
    requires forall c :: c0 <= c < |row| && row[c] ==> InBoard(b, i, j + c)
    ensures SameShape(r, b)
    ensures forall k, m :: 0 <= k < |b| && 0 <= m < |b[k]| ==>
              r[k][m] == (if k == i && c0 <= m - j < |row| && row[m - j] then Some(color) else b[k][m])
    decreases |row| - c0
  {
    if c0 == |row| then b
    else
      assert row[c0] ==> InBoard(b, i, j + c0);
      var b' := if row[c0] then b[i := b[i][j + c0 := Some(color)]] else b;
      assert SameShape(b', b);
      SameShapeKeepsInBoard(b', b);
      WriteRow(b', row, i, j, color, c0 + 1)
  }

  /** Writes piece rows `r0` onwards. */
  function WriteRows(b: Board, cells: seq<seq<bool>>, pos: Position, color: Color, r0: nat): (r: Board)
    requires r0 <= |cells|
    requires forall rr, c :: r0 <= rr < |cells| && 0 <= c < |cells[rr]| && cells[rr][c] ==>
               InBoard(b, pos.row + rr, pos.col + c)
    ensures SameShape(r, b)
    ensures forall k, m :: 0 <= k < |b| && 0 <= m < |b[k]| ==>
              r[k][m] == (if r0 <= k - pos.row && Covers(cells, pos, k, m) then Some(color) else b[k][m])
    decreases |cells| - r0
  {
    if r0 == |cells| then b
    else
      var b' := WriteRow(b, cells[r0], pos.row + r0, pos.col, color, 0);
      SameShapeKeepsInBoard(b', b);
      WriteRows(b', cells, pos, color, r0 + 1)
  }

  /** The state with the piece written into its board. Every filled cell
      must land on the board: off-board writes are a fault in `fixPieceToBoard`. */
  function FixPieceToBoard(s: GameState): (r: GameState)
    requires PieceInBounds(s)
    ensures r.piece == s.piece && r.piecePosition == s.piecePosition && r.isDone == s.isDone
    ensures SameShape(r.board, s.board)
    ensures forall i, j :: InBoard(s.board, i, j) && Covers(s.piece.cells, s.piecePosition, i, j) ==>
              r.board[i][j] == Some(s.piece.color)
    ensures forall i, j :: InBoard(s.board, i, j) && !Covers(s.piece.cells, s.piecePosition, i, j) ==>
              r.board[i][j] == s.board[i][j]
  {
    s.(board := WriteRows(s.board, s.piece.cells, s.piecePosition, s.piece.color, 0))
  }

  /** Without a collision, fixing writes only into cells that were empty. */
  lemma FixFillsOnlyEmptyCells(s: GameState, i: int, j: int)
    requires !HasCollision(s)
    requires InBoard(s.board, i, j) && Covers(s.piece.cells, s.piecePosition, i, j)
    ensures s.board[i][j] == None
    ensures FixPieceToBoard(s).board[i][j] == Some(s.piece.color)
  {
  }
}
