/** The board of sudoku_creator.py: a 9×9 list of rows, with -1 for an
    empty cell and 1..9 for a filled one. */
module CreatorBoard {

  import Arith

  type Board = seq<seq<int>>

  /** A cell as the pair (row, column) that `np.where` yields. */
  type Pos = (int, int)

  predicate IsBoard(b: Board) {
    |b| == 9 && forall r | 0 <= r < 9 :: |b[r]| == 9
  }

  predicate InRange(p: Pos) {
    0 <= p.0 < 9 && 0 <= p.1 < 9
  }

  /** Every cell is empty (-1) or holds a digit. */
  predicate WellFormed(b: Board) {
    IsBoard(b) && forall r, c | 0 <= r < 9 && 0 <= c < 9 :: b[r][c] == -1 || 1 <= b[r][c] <= 9
  }

  predicate Complete(b: Board) {
    IsBoard(b) && forall r, c | 0 <= r < 9 && 0 <= c < 9 :: 1 <= b[r][c] <= 9
  }

  /** The board with cell (r, c) set to v, the only way the creator writes. */
  function Set(b: Board, r: int, c: int, v: int): (b': Board)
    requires IsBoard(b) && 0 <= r < 9 && 0 <= c < 9
    ensures IsBoard(b')
    ensures b'[r][c] == v
    ensures forall r', c' | 0 <= r' < 9 && 0 <= c' < 9 && (r', c') != (r, c) :: b'[r'][c'] == b[r'][c']
  {
    b[r := b[r][c := v]]
  }

  /** Two different cells sharing a row, a column or a 3×3 block. */
  predicate Peers(r1: int, c1: int, r2: int, c2: int) {
    && InRange((r1, c1)) && InRange((r2, c2)) && (r1, c1) != (r2, c2)
    && (r1 == r2 || c1 == c2 || (r1 / 3 == r2 / 3 && c1 / 3 == c2 / 3))
  }

  /** No filled cell shares its digit with a peer. */
  ghost predicate ConflictFree(b: Board)
    requires IsBoard(b)
  {
    forall r1, c1, r2, c2 | Peers(r1, c1, r2, c2) :: b[r1][c1] > 0 ==> b[r1][c1] != b[r2][c2]
  }

  ghost predicate IsSolution(s: Board) {
    Complete(s) && ConflictFree(s)
  }

  /** `s` keeps every filled cell of `b`. */
  ghost predicate Extends(s: Board, b: Board) {
    IsBoard(s) && IsBoard(b) &&
    forall r, c | 0 <= r < 9 && 0 <= c < 9 && b[r][c] != -1 :: s[r][c] == b[r][c]
  }

  /** The row-major position of a cell, the order `np.where` lists cells in. */
  function Key(p: Pos): int {
    9 * p.0 + p.1
  }

  /** A row-major position names exactly one cell. */
  lemma KeyCell(k: int)
    requires 0 <= k < 81
    ensures InRange((k / 9, k % 9)) && Key((k / 9, k % 9)) == k
    ensures forall q: Pos | InRange(q) && Key(q) == k :: q == (k / 9, k % 9)
  {
    Arith.Split(k, 9);
    forall q: Pos | InRange(q) && Key(q) == k
      ensures q == (k / 9, k % 9)
    {
      Arith.DivMod(q.0, q.1, 9);
    }
  }

  /** The cells at row-major positions `k..80` that are empty (when `empty`)
      or filled (otherwise), in row-major order. */
  function CellsFrom(b: Board, k: nat, empty: bool): seq<Pos>
    requires IsBoard(b) && k <= 81
    decreases 81 - k
  {
    if k == 81 then []
    else
      Arith.Split(k, 9);
      (if (b[k / 9][k % 9] == -1) == empty then [(k / 9, k % 9)] else []) + CellsFrom(b, k + 1, empty)
  }

  /** The cells `CellsFrom` lists are exactly the selected cells from `k`
      on, in strictly increasing row-major order. */
  lemma {:induction false} CellsFromSpec(b: Board, k: nat, empty: bool)
    requires IsBoard(b) && k <= 81
    ensures var cs := CellsFrom(b, k, empty);
      && (forall p :: p in cs <==> InRange(p) && k <= Key(p) && (b[p.0][p.1] == -1) == empty)
      && (forall i, j | 0 <= i < j < |cs| :: Key(cs[i]) < Key(cs[j]))
    decreases 81 - k
  {
    if k < 81 {
      Arith.Split(k, 9);
      CellsFromSpec(b, k + 1, empty);
      CellsFromStep(b, k, empty, CellsFrom(b, k + 1, empty), CellsFrom(b, k, empty));
    }
  }

  /** Putting cell k in front of the selected cells after it, when it is
      selected, gives the selected cells from k on, still in order. */
  lemma CellsFromStep(b: Board, k: nat, empty: bool, rest: seq<Pos>, cs: seq<Pos>)
    requires IsBoard(b) && k < 81
    requires forall p :: p in rest <==> InRange(p) && k < Key(p) && (b[p.0][p.1] == -1) == empty
    requires forall i, j | 0 <= i < j < |rest| :: Key(rest[i]) < Key(rest[j])
    requires InRange((k / 9, k % 9))
    requires cs == (if (b[k / 9][k % 9] == -1) == empty then [(k / 9, k % 9)] else []) + rest
    ensures forall p :: p in cs <==> InRange(p) && k <= Key(p) && (b[p.0][p.1] == -1) == empty
    ensures forall i, j | 0 <= i < j < |cs| :: Key(cs[i]) < Key(cs[j])
  {
    KeyCell(k);
    var p := (k / 9, k % 9);
    forall i | 0 <= i < |rest|
      ensures Key(p) < Key(rest[i])
    {
      assert rest[i] in rest;
    }
  }

  /** `np.where(board == -1)`: the empty cells in row-major order. */
  function EmptyCells(b: Board): seq<Pos>
    requires IsBoard(b)
  {
    CellsFrom(b, 0, true)
  }

  /** `np.where(board != -1)`: the filled cells in row-major order. */
  function FilledCells(b: Board): seq<Pos>
    requires IsBoard(b)
  {
    CellsFrom(b, 0, false)
  }

  /** `EmptyCells` lists exactly the empty cells, in row-major order. */
  lemma EmptyCellsSpec(b: Board)
    requires IsBoard(b)
    ensures var cs := EmptyCells(b);
      && (forall p :: p in cs <==> InRange(p) && b[p.0][p.1] == -1)
      && (forall i, j | 0 <= i < j < |cs| :: Key(cs[i]) < Key(cs[j]))
  {
    CellsFromSpec(b, 0, true);
  }

  /** `FilledCells` lists exactly the filled cells, in row-major order. */
  lemma FilledCellsSpec(b: Board)
    requires IsBoard(b)
    ensures var cs := FilledCells(b);
      && (forall p :: p in cs <==> InRange(p) && b[p.0][p.1] != -1)
      && (forall i, j | 0 <= i < j < |cs| :: Key(cs[i]) < Key(cs[j]))
  {
    CellsFromSpec(b, 0, false);
  }

  lemma {:induction false} CellsFromSplit(b: Board, k: nat)
    requires IsBoard(b) && k <= 81
    ensures |CellsFrom(b, k, true)| + |CellsFrom(b, k, false)| == 81 - k
    decreases 81 - k
  {
    if k < 81 {
      CellsFromSplit(b, k + 1);
    }
  }

  /** Every cell is either empty or filled. */
  lemma EmptyPlusFilled(b: Board)
    requires IsBoard(b)
    ensures |EmptyCells(b)| + |FilledCells(b)| == 81
  {
    CellsFromSplit(b, 0);
  }

  function Indicator(c: bool): int {
    if c then 1 else 0
  }

  function CountFrom(b: Board, k: nat): nat
    requires IsBoard(b) && k <= 81
    decreases 81 - k
  {
    if k == 81 then 0 else Indicator(b[k / 9][k % 9] == -1) + CountFrom(b, k + 1)
  }

  /** The number of empty cells. */
  function EmptyCount(b: Board): nat
    requires IsBoard(b)
  {
    CountFrom(b, 0)
  }

  lemma {:induction false} CountFromCells(b: Board, k: nat)
    requires IsBoard(b) && k <= 81
    ensures CountFrom(b, k) == |CellsFrom(b, k, true)|
    decreases 81 - k
  {
    if k < 81 {
      CountFromCells(b, k + 1);
    }
  }

  /** `EmptyCount` counts exactly the cells `EmptyCells` lists, and the
      filled cells make up the rest of the 81. */
  lemma EmptyCountCells(b: Board)
    requires IsBoard(b)
    ensures EmptyCount(b) == |EmptyCells(b)|
    ensures EmptyCount(b) + |FilledCells(b)| == 81
  {
    CountFromCells(b, 0);
    EmptyPlusFilled(b);
  }

  lemma {:induction false} CountFromSet(b: Board, r: int, c: int, v: int, k: nat)
    requires IsBoard(b) && 0 <= r < 9 && 0 <= c < 9 && k <= 81
    ensures CountFrom(Set(b, r, c, v), k) ==
            CountFrom(b, k) +
            (if k <= Key((r, c)) then Indicator(v == -1) - Indicator(b[r][c] == -1) else 0)
    decreases 81 - k
  {
    if k < 81 {
      CountFromSet(b, r, c, v, k + 1);
      KeyCell(k);
    }
  }

  /** Writing `v` into cell (r, c) changes the number of empty cells by
      whether `v` is empty minus whether the cell was. */
  lemma SetEmptyCount(b: Board, r: int, c: int, v: int)
    requires IsBoard(b) && 0 <= r < 9 && 0 <= c < 9
    ensures EmptyCount(Set(b, r, c, v)) == EmptyCount(b) + Indicator(v == -1) - Indicator(b[r][c] == -1)
  {
    CountFromSet(b, r, c, v, 0);
  }

  lemma {:induction false} CountFromComplete(b: Board, k: nat)
    requires Complete(b) && k <= 81
    ensures CountFrom(b, k) == 0
    decreases 81 - k
  {
    if k < 81 {
      KeyCell(k);
      CountFromComplete(b, k + 1);
    }
  }

  /** A complete board has no empty cell to list or count. */
  lemma CompleteNoEmpty(b: Board)
    requires Complete(b)
    ensures EmptyCount(b) == 0 && EmptyCells(b) == []
  {
    CountFromComplete(b, 0);
    EmptyCountCells(b);
  }
}
