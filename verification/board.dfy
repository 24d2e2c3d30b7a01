/** The board: a grid of rows whose cells are empty (`None`, tetris.js's
    `null`) or hold the colour of a fixed piece; and full-row clearing. */
module Boards {
  import opened Wrappers
  import opened Pieces

  const BoardWidth: nat := 10
  const BoardHeight: nat := 20

  type Cell = Option<Color>
  type Board = seq<seq<Cell>>

  /** Exactly `BoardHeight` rows of exactly `BoardWidth` cells. */
  predicate WellFormed(b: Board)
  {
    |b| == BoardHeight && forall i :: 0 <= i < |b| ==> |b[i]| == BoardWidth
  }

  /** (i, j) names a cell that exists on the board. */
  predicate InBoard(b: Board, i: int, j: int)
  {
    0 <= i < |b| && 0 <= j < |b[i]|
  }

  function EmptyRow(): (row: seq<Cell>)
    ensures |row| == BoardWidth
    ensures forall j :: 0 <= j < |row| ==> row[j] == None
  {
    seq(BoardWidth, _ => None)
  }

  /** The initial board: every cell empty. */
  function EmptyBoard(): (b: Board)
    ensures IsEmptyBoard(b)
  {
    seq(BoardHeight, _ => EmptyRow())
  }

  /** A well-formed board with every cell empty. */
  predicate IsEmptyBoard(b: Board)
  {
    WellFormed(b) && forall i, j :: 0 <= i < |b| && 0 <= j < |b[i]| ==> b[i][j] == None
  }

  /** A row is full when none of its cells is empty. */
  predicate IsFull(row: seq<Cell>)
  {
    forall j :: 0 <= j < |row| ==> row[j].Some?
  }

  predicate NoFullRows(b: Board)
  {
    forall i :: 0 <= i < |b| ==> !IsFull(b[i])
  }

  /** An empty board has no full row: each row's first cell is empty. */
  lemma EmptyBoardHasNoFullRows(b: Board)
    requires IsEmptyBoard(b)
    ensures NoFullRows(b)
  {
    forall i | 0 <= i < |b|
      ensures !IsFull(b[i])
    {
      assert b[i][0] == None;
    }
  }

  /** The rows of `b` that are not full, in their original order. */
  function NonFullRows(b: Board): (kept: Board)
    ensures |kept| <= |b|
    ensures forall row :: row in kept ==> row in b && !IsFull(row)
    ensures forall i :: 0 <= i < |b| && !IsFull(b[i]) ==> b[i] in kept
  {
    if |b| == 0 then []
    else (if IsFull(b[0]) then [] else [b[0]]) + NonFullRows(b[1..])
  }

  /** Keeping the non-full rows distributes over concatenation: together
      with the one-row case this pins the result down as the in-order
      subsequence of non-full rows. */
  lemma {:induction false} NonFullRowsAppend(a: Board, b: Board)
    ensures NonFullRows(a + b) == NonFullRows(a) + NonFullRows(b)
  {
    if |a| == 0 {
      assert a + b == b;
    } else {
      assert (a + b)[1..] == a[1..] + b;
      NonFullRowsAppend(a[1..], b);
    }
  }

  /** A board without full rows keeps every row. */
  lemma {:induction false} NonFullRowsOfNoFullRows(b: Board)
    requires NoFullRows(b)
    ensures NonFullRows(b) == b
  {
    if |b| > 0 {
      assert NoFullRows(b[1..]) by {
        forall i | 0 <= i < |b[1..]|
          ensures !IsFull(b[1..][i])
        {
          assert b[1..][i] == b[i + 1];
        }
      }
      NonFullRowsOfNoFullRows(b[1..]);
    }
  }

  /** Removes the full rows and puts as many empty rows on top as are
      needed to get back to `BoardHeight` rows. */
  function ClearFullRows(b: Board): (r: Board)
    requires |NonFullRows(b)| <= BoardHeight
    ensures |r| == BoardHeight
    ensures NoFullRows(r)
    ensures r[BoardHeight - |NonFullRows(b)|..] == NonFullRows(b)
    ensures forall i :: 0 <= i < BoardHeight - |NonFullRows(b)| ==> r[i] == EmptyRow()
    ensures (forall i :: 0 <= i < |b| ==> |b[i]| == BoardWidth) ==> WellFormed(r)
  {
    var kept := NonFullRows(b);
    var cleared := seq(BoardHeight - |kept|, _ => EmptyRow());
    assert !IsFull(EmptyRow()) by {
      assert EmptyRow()[0] == None;
    }
    cleared + kept
  }

  /** Clearing a board that has no full row changes nothing. */
  lemma ClearNoFullRowsIsIdentity(b: Board)
    requires |b| == BoardHeight && NoFullRows(b)
    ensures ClearFullRows(b) == b
  {
    NonFullRowsOfNoFullRows(b);
    var r := ClearFullRows(b);
    assert r == r[0..] == b;
  }

  /** Clearing twice is clearing once. */
  lemma ClearIsIdempotent(b: Board)
    requires |NonFullRows(b)| <= BoardHeight
    ensures ClearFullRows(ClearFullRows(b)) == ClearFullRows(b)
  {
    var r := ClearFullRows(b);
    NonFullRowsOfNoFullRows(r);
    ClearNoFullRowsIsIdentity(r);
  }

  /** When only the bottom row is full, clearing drops it and shifts every
      other row down by one under a new empty top row. */
  lemma ClearFullBottomRow(b: Board)
    requires |b| == BoardHeight
    requires NoFullRows(b[..BoardHeight - 1]) && IsFull(b[BoardHeight - 1])
    ensures ClearFullRows(b) == [EmptyRow()] + b[..BoardHeight - 1]
  {
    var top := b[..BoardHeight - 1];
    assert b == top + [b[BoardHeight - 1]];
    NonFullRowsAppend(top, [b[BoardHeight - 1]]);
    NonFullRowsOfNoFullRows(top);
    assert NonFullRows([b[BoardHeight - 1]]) == [];
    assert NonFullRows(b) == top;
  }
}
