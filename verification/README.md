# Falling-block game engine (tetris.js) in Dafny

This project models the pure game-state transition engine of `tetris.js`: a
10 × 20 board of empty or coloured cells, a falling square piece with one
colour, the piece's position (which may lie partly off the board), and the
`isDone` flag. A move gives a candidate state. If the candidate does not
collide, it is accepted. A blocked sideways move or rotation is rejected.
A blocked Down lands the piece: fix it, clear full rows, spawn the next piece.

Modules, leaf first:

- `Wrappers` (wrappers.dfy): `Option`, which stands for tetris.js's `null` board
  cells and its `undefined` move result.
- `Pieces` (pieces.dfy): `Piece`, the two quarter turns, and the seven-shape catalogue `PIECES`.
- `Boards` (board.dfy): the board constants, the empty board, and full-row clearing.
- `States` (state.dfy): `Position`, `GameState`, `Move` and `movePiece`.
- `Collision` (collision.dfy): `hasCollision`, written as tetris.js's nested `some` scans.
- `Fixing` (fixing.dfy): `fixPieceToBoard`, written as tetris.js's nested `forEach` writes.
- `Engine` (engine.dfy): `spawnNewPiece`, `getNextGameState`, the state
  invariant, and scenario lemmas.

The next piece that `getRandomPiece` would pick (`Math.random`) is a
`Kind` argument of `SpawnNewPiece`, `Land` and `NextGameState`.

The invariant kept by every reachable state (`Engine.Invariant`) has four
parts:

- the board is exactly 20 × 10;
- no board row is full;
- the piece grid is square;
- the piece collides with nothing unless the game is over.

`InitialGameState` establishes it, and `NextGameState` preserves it.

## Two consequences of the code

- `movePiece` has no `DROP` case (tetris.js:111-150), so it returns
  `undefined`, and `hasCollision` then throws reading its `piece`
  (tetris.js:154). So `MovePiece` returns `None` for `Drop`, and
  `NextGameState` requires `move != Drop`.
- From the spawn row, the horizontal I piece is free for 18 Downs (piece
  rows 0 to 17), because its filled cells are in its second grid row
  (tetris.js:26-31). The 19th Down, from piece row 18, lands it
  (`IPieceFallsFreely`, `IPieceLandsOnFloor`).

## Model

| member | source | states |
|---|---|---|
| Pieces.RotatePieceRight | tetris.js:100-102 | keeps the colour and the N × N shape; result cell [r][c] is input cell [N-1-c][r] |
| Pieces.RotatePieceLeft | tetris.js:104-106 | keeps the colour and the N × N shape; result cell [r][c] is input cell [c][N-1-r] |
| Pieces.LeftUndoesRight | tetris.js:100-106 | for every square piece, a left turn after a right turn gives the piece back |
| Pieces.RightUndoesLeft | tetris.js:100-106 | for every square piece, a right turn after a left turn gives the piece back |
| Pieces.FourRightTurns | tetris.js:100-102 | four right turns are the identity on every square piece |
| Pieces.Catalog | tetris.js:23-80 | every catalogue shape is a square of side 2 to 4 with exactly four filled cells |
| Boards.EmptyBoard | tetris.js:20-21 | the initial board is 20 rows of 10 cells, all empty |
| Boards.EmptyBoardHasNoFullRows | tetris.js:20-21 | an all-empty board has no full row |
| Boards.NonFullRows | tetris.js:184 | the rows kept are rows of the input that are not full, and every non-full input row is kept |
| Boards.NonFullRowsAppend | tetris.js:184 | keeping the non-full rows distributes over concatenation, so the input order is preserved |
| Boards.NonFullRowsOfNoFullRows | tetris.js:184 | a board with no full row keeps all its rows |
| Boards.ClearFullRows | tetris.js:183-193 | the result has exactly 20 rows and none is full; the bottom part is the input's non-full rows in order; the top part is empty rows of width 10; a board with rows of width 10 gives a 20 × 10 board |
| Boards.ClearNoFullRowsIsIdentity | tetris.js:184-187 | clearing a 20-row board that has no full row returns it unchanged |
| Boards.ClearIsIdempotent | tetris.js:183-193 | clearing twice is the same as clearing once |
| Boards.ClearFullBottomRow | tetris.js:183-193 | when only the bottom row is full, clearing drops it, shifts every other row down one, and adds one empty row on top |
| States.MovePiece | tetris.js:108-151 | `Drop` gives no candidate; Left/Right change only the column, by -1/+1; Down changes only the row, by +1; rotations replace only the piece; board and `isDone` never change |
| States.OppositeMoveRestores | tetris.js:108-151 | Left then Right, Right then Left, and the two rotation orders each give back the original state |
| Collision.RowHits | tetris.js:155-161 | the scan of one piece row is true iff some filled cell from the start column on lies over a blocked board cell |
| Collision.CellsHit | tetris.js:154-162 | the scan of the piece rows is true iff some filled cell in the scanned rows lies over a blocked board cell |
| Collision.HasCollision | tetris.js:153-162 | true iff some filled piece cell maps to a board coordinate that is off the board (row or column negative or too large) or holds a colour |
| Collision.CollisionPersistsOutward | tetris.js:153-162 | a piece already past the left wall, right wall or floor still collides after moving further Left, Right or Down |
| Fixing.WriteRow | tetris.js:171-175 | writing one piece row sets the covered cells of that board row to the colour, keeps all other cells, and keeps the board's shape |
| Fixing.WriteRows | tetris.js:171-175 | writing the remaining piece rows sets exactly the covered cells to the colour, keeps all other cells, and keeps the board's shape |
| Fixing.FixPieceToBoard | tetris.js:165-181 | keeps the board's dimensions, piece, position and `isDone`; cells under filled piece cells become the piece colour; every other cell is unchanged |
| Fixing.FixFillsOnlyEmptyCells | tetris.js:165-181 | without a collision, each cell that fixing colours was empty before |
| Engine.SpawnNewPiece | tetris.js:195-201 | keeps board and `isDone`; the position is the spawn position; the piece is the catalogue piece of the given kind |
| Engine.SpawnFitsEmptyBoard | tetris.js:15-80 | every catalogue piece at the spawn position (row 0, column 3) is collision-free on the empty board |
| Engine.FitsEmptySquare | tetris.js:153-162 | a square piece over an empty, on-board square of its size does not collide |
| Engine.InitialGameState | tetris.js:93-98 | the starting state has an empty board, the given catalogue piece at the spawn position (row 0, column 3), satisfies the invariant, and is not over |
| Engine.Land | tetris.js:208-221 | landing fixes the pre-move piece, clears full rows and spawns the next piece at the spawn position; it sets `isDone` iff the new piece collides; the invariant is preserved |
| Engine.NextGameState | tetris.js:203-229 | an unblocked candidate is returned; a blocked non-Down move returns the input state; a blocked Down lands; the invariant is preserved; the game can end, and the board can change, only on a Down that lands |
| Engine.LeftAgainstWallIsRejected | tetris.js:224-226 | a Left move while a filled piece cell is in board column 0 returns the state unchanged |
| Engine.LandingWithoutClearKeepsFixedBoard | tetris.js:208-221 | when fixing completes no row, the landed board is the fixed board |
| Engine.FirstDownOnEmptyBoard | tetris.js:203-229 | the first Down of a new game moves the piece from row 0 to row 1 |
| Engine.IPieceFallsFreely | tetris.js:203-229 | on an empty board, every Down of the horizontal I piece from piece row 0 to 17 is accepted |
| Engine.IPieceLandsOnFloor | tetris.js:208-221 | from piece row 18, Down lands the I piece: columns 3-6 of the bottom row take its colour, all other cells stay empty, and the game is not over |

## Left out

- Canvas setup and `render` (tetris.js:231-267): drawing and pixel arithmetic only.
- `keyboardEventKeyToMove`, the `keydown` listener and the `setInterval`
  gravity timer (tetris.js:269-297): DOM and timer I/O around a global
  mutable state. The `!s.isDone` precondition of `NextGameState` models the
  keydown guard (tetris.js:284).
- Engine.NextGameState: does not cover the timer tick that follows a game over. The
  timer applies `MOVES.DOWN` (tetris.js:291) before it checks `isDone`
  (tetris.js:294). So when a keyboard Down ends the game (tetris.js:285),
  the next tick still runs `getNextGameState` on the finished state. That
  state's piece may overlap filled cells; if its Down is blocked, the
  landing branch fixes it over them and recomputes `isDone`. The
  `!s.isDone` precondition excludes this one extra step.
- `Math.random` in `getRandomElement` and `getRandomPiece` (tetris.js:10, 91):
  the chosen piece is an argument.
- `log` and `pipe` (tetris.js:3-8): debugging output, and function
  composition that `Land` writes out.
- A hard drop for `MOVES.DROP`: the code has none. `movePiece` yields
  `undefined` and `getNextGameState` throws, so `Drop` is excluded by a
  precondition.
- Row sharing from `Array(...).fill(Array(...))` (tetris.js:21, 185) and the
  structuredClone workaround (tetris.js:168): Dafny sequences are values,
  so there is no aliasing to model.
- Fixing.FixPieceToBoard: requires every filled piece cell to land on the
  board. tetris.js:173 throws for an off-board row. For a negative column
  it silently adds a property to the row array. For a column of 10 or more
  it writes a new element and lengthens the row to column + 1. Neither case
  is modelled, because every piece that gets fixed lies on the board.
  While the game runs, the piece is collision-free. `render` also fixes the
  finished state (tetris.js:245, reached from 286 and 292). That state's
  piece sits at the spawn position or one row below it (rows 0-4,
  columns 3-6).
- Boards.ClearFullRows: requires at most 20 non-full rows. With more,
  tetris.js:185 calls `Array` with a negative length, which throws a
  RangeError. Every reachable board has exactly 20 rows, so this never
  arises in play.
- Pieces.RotatePieceRight: requires a square grid, and so do
  Pieces.RotatePieceLeft and the rotation moves of States.MovePiece. On a non-square grid,
  tetris.js:101 and 105 index past the rows and either throw or yield
  `undefined` cells, which `hasCollision` would treat as filled. Catalogue
  pieces are square, and rotation keeps them square.
- Pieces.RotatePieceLeft: requires a square grid, for the reason just given.
- Engine.NextGameState: requires the state invariant, not just what each branch
  reads. The landing branch needs a collision-free piece and a
  20-row board, and those hold only on reachable states.
