/** `get_non_empty` and the clearing of the cell it picks: the random
    choice arrives as a draw, and clearing a filled cell adds exactly one
    empty cell and keeps every other cell. */
module CreatorPick {

  import opened CreatorBoard
  import Arith

  /** Some cell of the board is filled. */
  ghost predicate HasFilled(b: Board)
    requires IsBoard(b)
  {
    exists r, c | 0 <= r < 9 && 0 <= c < 9 :: b[r][c] != -1
  }

  /** `get_non_empty`: the filled cell the draw picks out of the filled
      cells in row-major order (`random.choice` over `np.where`). */
  function GetNonEmpty(b: Board, draw: nat): (p: Pos)
    requires IsBoard(b) && HasFilled(b)
    ensures InRange(p) && b[p.0][p.1] != -1
  {
    FilledListed(b);
    FilledCellsSpec(b);
    var cs := FilledCells(b);
    assert cs[draw % |cs|] in cs;
    cs[draw % |cs|]
  }

  /** A board with a filled cell has a non-empty list of filled cells. */
  lemma FilledListed(b: Board)
    requires IsBoard(b) && HasFilled(b)
    ensures |FilledCells(b)| > 0
  {
    var r, c :| 0 <= r < 9 && 0 <= c < 9 && b[r][c] != -1;
    FilledCellsSpec(b);
    assert (r, c) in FilledCells(b);
  }

  /** Every filled cell is the pick of some draw. */
  lemma GetNonEmptyCovers(b: Board, p: Pos)
    requires IsBoard(b) && InRange(p) && b[p.0][p.1] != -1
    ensures |FilledCells(b)| > 0
    ensures exists draw: nat | draw < |FilledCells(b)| :: GetNonEmpty(b, draw) == p
  {
    var cs := FilledCells(b);
    FilledCellsSpec(b);
    assert p in cs;
    var k :| 0 <= k < |cs| && cs[k] == p;
    PickAt(cs, k);
    assert GetNonEmpty(b, k) == cs[k];
  }

  /** A draw below the length of the list picks its own position. */
  lemma PickAt<T>(cs: seq<T>, k: nat)
    requires k < |cs|
    ensures cs[k % |cs|] == cs[k]
  {
    Arith.DivMod(0, k, |cs|);
  }

  /** Clearing a cell and writing back its value restores the board. */
  lemma ClearRestore(b: Board, r: int, c: int)
    requires IsBoard(b) && 0 <= r < 9 && 0 <= c < 9
    ensures Set(Set(b, r, c, -1), r, c, b[r][c]) == b
  {
    var b' := Set(Set(b, r, c, -1), r, c, b[r][c]);
    forall i | 0 <= i < 9
      ensures b'[i] == b[i]
    {
      assert forall j | 0 <= j < 9 :: b'[i][j] == b[i][j];
    }
  }

  /** The cells of `puzzle` are those of `full` or empty. */
  ghost predicate ClearedFrom(puzzle: Board, full: Board)
    requires IsBoard(puzzle) && IsBoard(full)
  {
    forall r, c | 0 <= r < 9 && 0 <= c < 9 :: puzzle[r][c] == full[r][c] || puzzle[r][c] == -1
  }

  lemma ClearedTrans(a: Board, b: Board, c: Board)
    requires IsBoard(a) && IsBoard(b) && IsBoard(c)
    requires ClearedFrom(a, b) && ClearedFrom(b, c)
    ensures ClearedFrom(a, c)
  {
  }

  /** A board cleared from a well-formed one is extended by it. */
  lemma ClearedExtends(puzzle: Board, full: Board)
    requires WellFormed(puzzle) && WellFormed(full) && ClearedFrom(puzzle, full)
    ensures Extends(full, puzzle)
  {
  }

  /** Clearing a filled cell: the board stays well formed, gains one empty
      cell, and otherwise keeps its cells. */
  lemma ClearFilled(b: Board, p: Pos)
    requires WellFormed(b) && InRange(p) && b[p.0][p.1] != -1
    ensures var b' := Set(b, p.0, p.1, -1);
      WellFormed(b') && ClearedFrom(b', b) && EmptyCount(b') == EmptyCount(b) + 1
  {
    SetEmptyCount(b, p.0, p.1, -1);
  }

  /** A board with fewer than 81 empty cells has a filled one. */
  lemma EmptyCountHasFilled(b: Board)
    requires IsBoard(b) && EmptyCount(b) < 81
    ensures HasFilled(b)
  {
    EmptyCountCells(b);
    FilledCellsSpec(b);
    var first := FilledCells(b)[0];
    assert first in FilledCells(b);
  }

  /** The board with the cell the draw picks cleared: one more empty cell,
      every other cell kept. */
  function ClearPick(b: Board, draw: nat): (b': Board)
    requires WellFormed(b) && EmptyCount(b) < 81
    ensures WellFormed(b') && ClearedFrom(b', b) && EmptyCount(b') == EmptyCount(b) + 1
  {
    EmptyCountHasFilled(b);
    var p := GetNonEmpty(b, draw);
    ClearFilled(b, p);
    Set(b, p.0, p.1, -1)
  }
}
