/** Pieces: a square grid of filled/empty cells plus one display colour,
    the two 90-degree rotations, and the fixed catalogue of seven shapes. */
module Pieces {

  /** Colours are CSS colour strings such as "#00ffff". */
  type Color = string

  /** A piece cell is `true` when it is filled (tetris.js's "  " string)
      and `false` when it is `null`. */
  datatype Piece = Piece(cells: seq<seq<bool>>, color: Color)

  /** Every row is as long as there are rows. */
  predicate IsSquare(cells: seq<seq<bool>>)
  {
    forall i :: 0 <= i < |cells| ==> |cells[i]| == |cells|
  }

  /** Quarter turn clockwise. Like `rotatePieceRight`, each row keeps its own length
      and that length is the side used in the index arithmetic. */
  function RotatePieceRight(p: Piece): (r: Piece)
    requires IsSquare(p.cells)
    ensures r.color == p.color
    ensures IsSquare(r.cells) && |r.cells| == |p.cells|
    ensures forall i, j :: 0 <= i < |p.cells| && 0 <= j < |p.cells| ==>
              r.cells[i][j] == p.cells[|p.cells| - 1 - j][i]
  {
    var n := |p.cells|;
    p.(cells := seq(n, i requires 0 <= i < n =>
                      seq(|p.cells[i]|, j requires 0 <= j < |p.cells[i]| =>
                            p.cells[|p.cells[i]| - 1 - j][i])))
  }

  /** Quarter turn counter-clockwise, the mirror of `RotatePieceRight`. */
  function RotatePieceLeft(p: Piece): (r: Piece)
    requires IsSquare(p.cells)
    ensures r.color == p.color
    ensures IsSquare(r.cells) && |r.cells| == |p.cells|
    ensures forall i, j :: 0 <= i < |p.cells| && 0 <= j < |p.cells| ==>
              r.cells[i][j] == p.cells[j][|p.cells| - 1 - i]
  {
    var n := |p.cells|;
    p.(cells := seq(n, i requires 0 <= i < n =>
                      seq(|p.cells[i]|, j requires 0 <= j < |p.cells[i]| =>
                            p.cells[j][|p.cells[i]| - 1 - i])))
  }

  /** Two square grids of the same side that agree cell by cell are equal. */
  lemma SquareExtensionality(a: seq<seq<bool>>, b: seq<seq<bool>>)
    requires IsSquare(a) && IsSquare(b) && |a| == |b|
    requires forall i, j :: 0 <= i < |a| && 0 <= j < |a| ==> a[i][j] == b[i][j]
    ensures a == b
  {
    forall i | 0 <= i < |a|
      ensures a[i] == b[i]
    {
      assert |a[i]| == |b[i]|;
    }
  }

  /** A left turn undoes a right turn. */
  lemma LeftUndoesRight(p: Piece)
    requires IsSquare(p.cells)
    ensures RotatePieceLeft(RotatePieceRight(p)) == p
  {
    var n := |p.cells|;
    var q := RotatePieceLeft(RotatePieceRight(p));
    forall i, j | 0 <= i < n && 0 <= j < n
      ensures q.cells[i][j] == p.cells[i][j]
    {
      assert q.cells[i][j] == RotatePieceRight(p).cells[j][n - 1 - i];
    }
    SquareExtensionality(q.cells, p.cells);
  }

  /** A right turn undoes a left turn. */
  lemma RightUndoesLeft(p: Piece)
    requires IsSquare(p.cells)
    ensures RotatePieceRight(RotatePieceLeft(p)) == p
  {
    var n := |p.cells|;
    var q := RotatePieceRight(RotatePieceLeft(p));
    forall i, j | 0 <= i < n && 0 <= j < n
      ensures q.cells[i][j] == p.cells[i][j]
    {
      assert q.cells[i][j] == RotatePieceLeft(p).cells[n - 1 - j][i];
    }
    SquareExtensionality(q.cells, p.cells);
  }

  /** Four right turns are the identity. */
  lemma FourRightTurns(p: Piece)
    requires IsSquare(p.cells)
    ensures RotatePieceRight(RotatePieceRight(RotatePieceRight(RotatePieceRight(p)))) == p
  {
    var n := |p.cells|;
    var h := RotatePieceRight(RotatePieceRight(p));
    forall i, j | 0 <= i < n && 0 <= j < n
      ensures h.cells[i][j] == p.cells[n - 1 - i][n - 1 - j]
    {
      assert h.cells[i][j] == RotatePieceRight(p).cells[n - 1 - j][i];
    }
    var q := RotatePieceRight(RotatePieceRight(h));
    forall i, j | 0 <= i < n && 0 <= j < n
      ensures q.cells[i][j] == p.cells[i][j]
    {
      assert q.cells[i][j] == RotatePieceRight(h).cells[n - 1 - j][i];
    }
    SquareExtensionality(q.cells, p.cells);
  }

  /** Number of filled cells of a grid. */
  function CountFilled(cells: seq<seq<bool>>): nat
  {
    if |cells| == 0 then 0 else CountRow(cells[0]) + CountFilled(cells[1..])
  }

  function CountRow(row: seq<bool>): nat
  {
    if |row| == 0 then 0 else (if row[0] then 1 else 0) + CountRow(row[1..])
  }

  /** The seven shapes of tetris.js's `PIECES` table. */
  datatype Kind = I | O | T | J | L | S | Z

  /** The catalogue: every shape is a square of side 2 to 4 holding four
      filled cells (a tetromino). */
  function Catalog(k: Kind): (p: Piece)
    ensures IsSquare(p.cells) && 2 <= |p.cells| <= 4
    ensures CountFilled(p.cells) == 4
  {
    match k
    case I => Piece([[false, false, false, false],
                     [true,  true,  true,  true ],
                     [false, false, false, false],
                     [false, false, false, false]], "#00ffff")
    case O => Piece([[true, true],
                     [true, true]], "#ffff00")
    case T => Piece([[false, false, false],
                     [true,  true,  true ],
                     [false, true,  false]], "#ff00fe")
    case J => Piece([[false, true,  false],
                     [false, true,  false],
                     [true,  true,  false]], "#0000fe")
    case L => Piece([[false, true,  false],
                     [false, true,  false],
                     [false, true,  true ]], "#ff7f00")
    case S => Piece([[false, false, false],
                     [false, true,  true ],
                     [true,  true,  false]], "#23fe40")
    case Z => Piece([[false, false, false],
                     [true,  true,  false],
                     [false, true,  true ]], "#fe161d")
  }
}
