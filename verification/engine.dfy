/** The transition engine: spawning, the three-branch `getNextGameState`
    rule, and the invariant every reachable state keeps. The random choice
    of the next piece is an argument. */
module Engine {
  import opened Wrappers
  import opened Pieces
  import opened Boards
  import opened States
  import opened Collision
  import opened Fixing

  /** Puts a fresh catalogue piece at the spawn position. */
  function SpawnNewPiece(s: GameState, next: Kind): (r: GameState)
    ensures r.board == s.board && r.isDone == s.isDone
    ensures r.piecePosition == InitialPosition && r.piece == Catalog(next)
  {
    s.(piecePosition := InitialPosition, piece := Catalog(next))
  }

  /** What holds of every state the game reaches: a well-formed board with no
      full row, a square piece, and no collision unless the game is over. */
  predicate Invariant(s: GameState)
  {
    && WellFormed(s.board)
    && NoFullRows(s.board)
    && IsSquare(s.piece.cells)
    && (!s.isDone ==> !HasCollision(s))
  }

  /** The board cells in rows [top, top + n) and columns [left, left + n)
      exist and are empty. */
  predicate EmptySquare(b: Board, top: int, left: int, n: nat)
  {
    forall i, j :: top <= i < top + n && left <= j < left + n ==> InBoard(b, i, j) && b[i][j] == None
  }

  /** A square piece over an empty square of the board does not collide. */
  lemma FitsEmptySquare(s: GameState)
    requires IsSquare(s.piece.cells)
    requires EmptySquare(s.board, s.piecePosition.row, s.piecePosition.col, |s.piece.cells|)
    ensures !HasCollision(s)
  {
  }

  /** Every catalogue piece fits at the spawn position of an empty board. */
  lemma SpawnFitsEmptyBoard(k: Kind, done: bool)
    ensures !HasCollision(GameState(EmptyBoard(), Catalog(k), InitialPosition, done))
  {
  }

  /** The state the game starts in. */
  function InitialGameState(first: Kind): (s: GameState)
    ensures Invariant(s) && !s.isDone
    ensures s.board == EmptyBoard() && s.piece == Catalog(first)
    ensures s.piecePosition == InitialPosition
  {
    var s := GameState(EmptyBoard(), Catalog(first), InitialPosition, false);
    SpawnFitsEmptyBoard(first, false);
    EmptyBoardHasNoFullRows(s.board);
    s
  }

  /** The landing branch: fix the current piece, clear full rows, spawn the
      next piece, and end the game if the new piece already collides. */
  function Land(s: GameState, next: Kind): (r: GameState)
    requires Invariant(s) && !s.isDone
    ensures Invariant(r)
    ensures r.piece == Catalog(next) && r.piecePosition == InitialPosition
    ensures r.board == ClearFullRows(FixPieceToBoard(s).board)
    ensures r.isDone <==> HasCollision(r)
  {
    NoCollisionIsInBoundsOverEmpty(s);
    var fixed := FixPieceToBoard(s);
    var cleared := fixed.(board := ClearFullRows(fixed.board));
    var spawned := SpawnNewPiece(cleared, next);
    spawned.(isDone := HasCollision(spawned))
  }

  /** One step of the game. Only called while the game is running (the
      driver stops on `isDone`), and never with `Drop`, which has no
      candidate state. */
  function NextGameState(s: GameState, move: Move, next: Kind): (r: GameState)
    requires Invariant(s) && !s.isDone && move != Drop
    ensures Invariant(r)
    ensures var candidate := MovePiece(s, move).value;
            && (!HasCollision(candidate) ==> r == candidate)
            && (HasCollision(candidate) && move != Down ==> r == s)
            && (HasCollision(candidate) && move == Down ==> r == Land(s, next))
    ensures r.isDone ==> move == Down
    ensures r.board != s.board ==> move == Down && r.piecePosition == InitialPosition
  {
    var candidate := MovePiece(s, move).value;
    var hadCollision := HasCollision(candidate);
    if hadCollision && move == Down then Land(s, next)
    else if hadCollision then s
    else candidate
  }

  /** A Left move while the piece touches the left wall is rejected: the
      state comes back unchanged. */
  lemma LeftAgainstWallIsRejected(s: GameState, next: Kind, r: int, c: int)
    requires Invariant(s) && !s.isDone
    requires 0 <= r < |s.piece.cells| && 0 <= c < |s.piece.cells[r]| && s.piece.cells[r][c]
    requires s.piecePosition.col + c == 0
    ensures NextGameState(s, Left, next) == s
  {
  }

  /** Landing a piece that completes no row leaves the fixed board as it is:
      the piece's cells stay where they landed. */
  lemma LandingWithoutClearKeepsFixedBoard(s: GameState, next: Kind)
    requires Invariant(s) && !s.isDone
    requires NoFullRows(FixPieceToBoard(s).board)
    ensures Land(s, next).board == FixPieceToBoard(s).board
  {
    NoCollisionIsInBoundsOverEmpty(s);
    ClearNoFullRowsIsIdentity(FixPieceToBoard(s).board);
  }

  /** The first gravity tick on a fresh game moves the piece one row down. */
  lemma FirstDownOnEmptyBoard(first: Kind, next: Kind)
    ensures NextGameState(InitialGameState(first), Down, next)
            == InitialGameState(first).(piecePosition := Position(1, 3))
  {
    var s := InitialGameState(first);
    var candidate := MovePiece(s, Down).value;
    assert candidate == GameState(EmptyBoard(), Catalog(first), Position(1, 3), false);
    FitsEmptySquare(candidate);
  }

  /** The horizontal I piece has only its second grid row filled, so on an
      empty board it is free wherever that row lies on the board. */
  lemma IPieceOnEmptyBoard(s: GameState)
    requires IsEmptyBoard(s.board) && s.piece == Catalog(I)
    requires 0 <= s.piecePosition.row + 1 < BoardHeight
    requires 0 <= s.piecePosition.col && s.piecePosition.col + 4 <= BoardWidth
    ensures !HasCollision(s)
  {
  }

  /** Dropped from the spawn row, the I piece falls freely: each Down from
      piece row 0 to 17 is accepted and moves it one row down. */
  lemma IPieceFallsFreely(s: GameState, next: Kind)
    requires IsEmptyBoard(s.board) && s.piece == Catalog(I) && !s.isDone
    requires s.piecePosition.col == 3 && 0 <= s.piecePosition.row < BoardHeight - 2
    ensures Invariant(s)
    ensures NextGameState(s, Down, next) == s.(piecePosition := Position(s.piecePosition.row + 1, 3))
  {
    IPieceOnEmptyBoard(s);
    EmptyBoardHasNoFullRows(s.board);
    IPieceOnEmptyBoard(MovePiece(s, Down).value);
  }

  /** With its filled row on the bottom board row, the I piece is valid and
      the next Down is blocked by the floor. */
  lemma IPieceOnFloorIsValid(s: GameState)
    requires IsEmptyBoard(s.board) && s.piece == Catalog(I) && s.piecePosition == Position(18, 3) && !s.isDone
    ensures Invariant(s) && !s.isDone
    ensures HasCollision(MovePiece(s, Down).value)
  {
    IPieceOnEmptyBoard(s);
    EmptyBoardHasNoFullRows(s.board);
    var cells := s.piece.cells;
    var candidate := MovePiece(s, Down).value;
    assert cells[1][0] && !InBoard(candidate.board, candidate.piecePosition.row + 1, candidate.piecePosition.col + 0);
  }

  /** Fixing that I piece colours columns 3 to 6 of the bottom row only. */
  lemma IPieceOnFloorFixedCell(s: GameState, i: int, j: int)
    requires IsEmptyBoard(s.board) && s.piece == Catalog(I) && s.piecePosition == Position(18, 3)
    requires PieceInBounds(s)
    requires 0 <= i < BoardHeight && 0 <= j < BoardWidth
    ensures FixPieceToBoard(s).board[i][j]
            == (if i == BoardHeight - 1 && 3 <= j < 7 then Some(Catalog(I).color) else None)
  {
    var cells := s.piece.cells;
    if i == BoardHeight - 1 && 3 <= j < 7 {
      assert cells[1][j - 3];
      assert Covers(cells, s.piecePosition, i, j);
    } else {
      assert !Covers(cells, s.piecePosition, i, j) by {
        if 0 <= i - 18 < |cells| && 0 <= j - 3 < |cells[i - 18]| {
          assert i - 18 == 0;
          assert cells[0] == [false, false, false, false];
        }
      }
      assert s.board[i][j] == None;
    }
  }

  /** After fixing, the bottom row holds the piece's colour in columns 3 to 6. */
  lemma IPieceOnFloorBottomRow(s: GameState)
    requires IsEmptyBoard(s.board) && s.piece == Catalog(I) && s.piecePosition == Position(18, 3)
    requires PieceInBounds(s)
    ensures FixPieceToBoard(s).board[BoardHeight - 1]
            == seq(BoardWidth, j => if 3 <= j < 7 then Some(Catalog(I).color) else None)
  {
    var bottom := FixPieceToBoard(s).board[BoardHeight - 1];
    forall j | 0 <= j < BoardWidth
      ensures bottom[j] == if 3 <= j < 7 then Some(Catalog(I).color) else None
    {
      IPieceOnFloorFixedCell(s, BoardHeight - 1, j);
    }
  }

  /** After fixing, every row above the bottom one is still empty. */
  lemma IPieceOnFloorRowsAbove(s: GameState)
    requires IsEmptyBoard(s.board) && s.piece == Catalog(I) && s.piecePosition == Position(18, 3)
    requires PieceInBounds(s)
    ensures forall i, j :: 0 <= i < BoardHeight - 1 && 0 <= j < BoardWidth ==>
              FixPieceToBoard(s).board[i][j] == None
  {
  }

  /** After fixing, no row is full: column 0 stays empty throughout. */
  lemma IPieceOnFloorNoFullRows(s: GameState)
    requires IsEmptyBoard(s.board) && s.piece == Catalog(I) && s.piecePosition == Position(18, 3)
    requires PieceInBounds(s)
    ensures NoFullRows(FixPieceToBoard(s).board)
  {
    var fixed := FixPieceToBoard(s).board;
    forall i | 0 <= i < |fixed|
      ensures !IsFull(fixed[i])
    {
      IPieceOnFloorFixedCell(s, i, 0);
    }
  }

  /** A catalogue piece at the spawn position fits when the top four rows
      are empty. */
  lemma SpawnOverEmptyTopRows(t: GameState, k: Kind)
    requires WellFormed(t.board) && t.piece == Catalog(k) && t.piecePosition == InitialPosition
    requires forall i, j :: 0 <= i < 4 && 0 <= j < BoardWidth ==> t.board[i][j] == None
    ensures !HasCollision(t)
  {
  }

  /** A horizontal I piece falling on an empty board: once its filled row is
      on the bottom board row (piece position row 18), the next Down lands
      it. Columns 3 to 6 of the bottom row take its colour, nothing is
      cleared, and any catalogue piece can spawn, so the game goes on. */
  lemma IPieceLandsOnFloor(s: GameState, next: Kind)
    requires IsEmptyBoard(s.board) && s.piece == Catalog(I) && s.piecePosition == Position(18, 3) && !s.isDone
    ensures Invariant(s) && !s.isDone
    ensures var r := NextGameState(s, Down, next);
            && !r.isDone
            && r.piece == Catalog(next) && r.piecePosition == InitialPosition
            && r.board[BoardHeight - 1] == seq(BoardWidth, j => if 3 <= j < 7 then Some(Catalog(I).color) else None)
            && (forall i, j :: 0 <= i < BoardHeight - 1 && 0 <= j < BoardWidth ==> r.board[i][j] == None)
  {
    IPieceOnFloorIsValid(s);
    NoCollisionIsInBoundsOverEmpty(s);
    assert IsEmptyBoard(s.board);
    IPieceOnFloorBottomRow(s);
    IPieceOnFloorRowsAbove(s);
    IPieceOnFloorNoFullRows(s);
    LandingWithoutClearKeepsFixedBoard(s, next);
    var r := Land(s, next);
    assert r == NextGameState(s, Down, next);
    SpawnOverEmptyTopRows(r, next);
  }
}
