/** The validity checks of sudoku_creator.py: `check_only_unique`, the row,
    column and block checks, and `check_solution`. */
module CreatorChecks {

  import opened CreatorBoard
  import Counting

  /** `[coor for coor in arr if coor > 0]`. */
  function Positives(arr: seq<int>): (p: seq<int>)
    ensures forall x :: x in p <==> x in arr && x > 0
    ensures |p| <= |arr|
  {
    if |arr| == 0 then [] else (if arr[0] > 0 then [arr[0]] else []) + Positives(arr[1..])
  }

  /** No filled (positive) entry of `arr` appears twice. */
  ghost predicate NoRepeats(arr: seq<int>) {
    forall i, j | 0 <= i < |arr| && 0 <= j < |arr| && i != j :: arr[i] > 0 ==> arr[i] != arr[j]
  }

  /** A filled head repeats nowhere and the tail has no repeats, exactly
      when the whole list has no repeats. */
  lemma NoRepeatsCons(arr: seq<int>)
    requires |arr| > 0
    ensures NoRepeats(arr) <==> NoRepeats(arr[1..]) && (arr[0] > 0 ==> arr[0] !in arr[1..])
  {
    var t := arr[1..];
    if NoRepeats(arr) {
      forall i, j | 0 <= i < |t| && 0 <= j < |t| && i != j && t[i] > 0
        ensures t[i] != t[j]
      {
        assert t[i] == arr[i + 1] && t[j] == arr[j + 1];
      }
      forall j | 0 <= j < |t| && arr[0] > 0
        ensures t[j] != arr[0]
      {
        assert t[j] == arr[j + 1];
      }
    }
    if NoRepeats(t) && (arr[0] > 0 ==> arr[0] !in t) {
      forall i, j | 0 <= i < |arr| && 0 <= j < |arr| && i != j && arr[i] > 0
        ensures arr[i] != arr[j]
      {
        if i > 0 && j > 0 {
          assert arr[i] == t[i - 1] && arr[j] == t[j - 1];
        } else if i == 0 {
          assert arr[j] == t[j - 1];
        } else {
          assert arr[i] == t[i - 1];
        }
      }
    }
  }

  lemma {:induction false} PositivesDistinct(arr: seq<int>)
    ensures Counting.Distinct(Positives(arr)) <==> NoRepeats(arr)
    decreases |arr|
  {
    if |arr| > 0 {
      var t := arr[1..];
      PositivesDistinct(t);
      NoRepeatsCons(arr);
      if arr[0] > 0 {
        assert Positives(arr) == [arr[0]] + Positives(t);
        Counting.DistinctCons(arr[0], Positives(t));
      } else {
        assert Positives(arr) == Positives(t);
      }
    }
  }

  /** `check_only_unique`: the filled entries of `arr` are pairwise
      different. */
  function CheckOnlyUnique(arr: seq<int>): (ok: bool)
    ensures ok <==> NoRepeats(arr)
  {
    var p := Positives(arr);
    Counting.ToSetCard(p);
    PositivesDistinct(arr);
    assert Counting.ToSet(p) == set x | x in p;
    |set x | x in p| == |p|
  }

  function ColumnValues(b: Board, j: int): (col: seq<int>)
    requires IsBoard(b) && 0 <= j < 9
    ensures |col| == 9 && forall i | 0 <= i < 9 :: col[i] == b[i][j]
  {
    seq(9, i requires 0 <= i < 9 => b[i][j])
  }

  /** The 3×3 window with top-left cell (r, c), read row by row as
      `np.reshape` does. */
  function BlockValues(b: Board, r: int, c: int): (blk: seq<int>)
    requires IsBoard(b) && 0 <= r <= 6 && 0 <= c <= 6
    ensures |blk| == 9
    ensures forall t | 0 <= t < 9 :: blk[t] == b[r + t / 3][c + t % 3]
  {
    seq(9, t requires 0 <= t < 9 => b[r + t / 3][c + t % 3])
  }

  /** `check_row`: the verdict and the row's values. */
  function CheckRow(b: Board, i: int): (res: (bool, seq<int>))
    requires IsBoard(b) && 0 <= i < 9
    ensures res.1 == b[i]
    ensures res.0 <==> forall c1, c2 | 0 <= c1 < 9 && 0 <= c2 < 9 && c1 != c2 ::
                         b[i][c1] > 0 ==> b[i][c1] != b[i][c2]
  {
    (CheckOnlyUnique(b[i]), b[i])
  }

  /** `check_column`: the verdict and the column's values. */
  function CheckColumn(b: Board, j: int): (res: (bool, seq<int>))
    requires IsBoard(b) && 0 <= j < 9
    ensures res.1 == ColumnValues(b, j)
    ensures res.0 <==> forall r1, r2 | 0 <= r1 < 9 && 0 <= r2 < 9 && r1 != r2 ::
                         b[r1][j] > 0 ==> b[r1][j] != b[r2][j]
  {
    var col := ColumnValues(b, j);
    assert NoRepeats(col) <==> forall r1, r2 | 0 <= r1 < 9 && 0 <= r2 < 9 && r1 != r2 ::
                                 b[r1][j] > 0 ==> b[r1][j] != b[r2][j];
    (CheckOnlyUnique(col), col)
  }

  lemma BlockOffset(dr: int, dc: int)
    requires 0 <= dr < 3 && 0 <= dc < 3
    ensures (3 * dr + dc) / 3 == dr && (3 * dr + dc) % 3 == dc
  {
  }

  /** No two filled cells of the 3×3 window at (r, c) share a digit. */
  ghost predicate WindowDistinct(b: Board, r: int, c: int)
    requires IsBoard(b) && 0 <= r <= 6 && 0 <= c <= 6
  {
    forall r1, c1, r2, c2 |
      r <= r1 < r + 3 && c <= c1 < c + 3 && r <= r2 < r + 3 && c <= c2 < c + 3 && (r1, c1) != (r2, c2) ::
      b[r1][c1] > 0 ==> b[r1][c1] != b[r2][c2]
  }

  lemma BlockNoRepeats(b: Board, r: int, c: int)
    requires IsBoard(b) && 0 <= r <= 6 && 0 <= c <= 6
    ensures NoRepeats(BlockValues(b, r, c)) <==> WindowDistinct(b, r, c)
  {
    var blk := BlockValues(b, r, c);
    if NoRepeats(blk) {
      forall r1, c1, r2, c2 |
        r <= r1 < r + 3 && c <= c1 < c + 3 && r <= r2 < r + 3 && c <= c2 < c + 3 &&
        (r1, c1) != (r2, c2) && b[r1][c1] > 0
        ensures b[r1][c1] != b[r2][c2]
      {
        BlockOffset(r1 - r, c1 - c);
        BlockOffset(r2 - r, c2 - c);
        var t1 := 3 * (r1 - r) + (c1 - c);
        var t2 := 3 * (r2 - r) + (c2 - c);
        assert blk[t1] == b[r1][c1] && blk[t2] == b[r2][c2];
      }
    }
    if WindowDistinct(b, r, c) {
      forall t1, t2 | 0 <= t1 < 9 && 0 <= t2 < 9 && t1 != t2 && blk[t1] > 0
        ensures blk[t1] != blk[t2]
      {
        assert (r + t1 / 3, c + t1 % 3) != (r + t2 / 3, c + t2 % 3);
      }
    }
  }

  /** `check_block` for the 3×3 window spanning rows `r1..r2` and columns
      `c1..c2`; the source reshapes the window to nine values, so only 3×3
      windows are meaningful. */
  function CheckBlock(b: Board, r1: int, r2: int, c1: int, c2: int): (res: (bool, seq<int>))
    requires IsBoard(b) && 0 <= r1 <= 6 && 0 <= c1 <= 6 && r2 == r1 + 2 && c2 == c1 + 2
    ensures res.1 == BlockValues(b, r1, c1)
    ensures res.0 <==> WindowDistinct(b, r1, c1)
  {
    BlockNoRepeats(b, r1, c1);
    (CheckOnlyUnique(BlockValues(b, r1, c1)), BlockValues(b, r1, c1))
  }

  /** The unit a failed `check_solution` names: "row", "column" or "block". */
  datatype Unit = RowUnit(i: int) | ColumnUnit(j: int) | BlockUnit(x: int, y: int)

  /** `check_solution`'s answer: `[True, "", 0, 0]` or the first unit with a
      repeated digit together with that unit's values. */
  datatype Report = Valid | Invalid(unit: Unit, values: seq<int>)

  /** The 27 units in the order `check_solution` visits them: rows, then
      columns, then blocks with the block row outermost. */
  function UnitAt(k: int): (u: Unit)
    requires 0 <= k < 27
    ensures u.RowUnit? ==> 0 <= u.i < 9
    ensures u.ColumnUnit? ==> 0 <= u.j < 9
    ensures u.BlockUnit? ==> 0 <= u.x < 3 && 0 <= u.y < 3
  {
    if k < 9 then RowUnit(k)
    else if k < 18 then ColumnUnit(k - 9)
    else BlockUnit((k - 18) / 3, (k - 18) % 3)
  }

  function CheckUnit(b: Board, u: Unit): (bool, seq<int>)
    requires IsBoard(b)
    requires u.RowUnit? ==> 0 <= u.i < 9
    requires u.ColumnUnit? ==> 0 <= u.j < 9
    requires u.BlockUnit? ==> 0 <= u.x < 3 && 0 <= u.y < 3
  {
    match u
    case RowUnit(i) => CheckRow(b, i)
    case ColumnUnit(j) => CheckColumn(b, j)
    case BlockUnit(x, y) => CheckBlock(b, x * 3, x * 3 + 2, y * 3, y * 3 + 2)
  }

  ghost predicate UnitOk(b: Board, k: int)
    requires IsBoard(b) && 0 <= k < 27
  {
    CheckUnit(b, UnitAt(k)).0
  }

  /** `rep` reports unit `m` as the first unit from the `k`-th on that
      `check_solution` rejects. */
  ghost predicate FailsFirstAt(b: Board, k: int, m: int, rep: Report)
    requires IsBoard(b)
  {
    && 0 <= k <= m < 27
    && rep.Invalid?
    && rep.unit == UnitAt(m)
    && !CheckUnit(b, rep.unit).0
    && rep.values == CheckUnit(b, rep.unit).1
    && forall m' | k <= m' < m :: UnitOk(b, m')
  }

  /** A first failure from unit `k + 1` on is one from unit `k` on when
      unit `k` passes. */
  lemma FailsFirstBack(b: Board, k: int, next: int, rep: Report)
    requires IsBoard(b) && 0 <= k < 27 && UnitOk(b, k) && next == k + 1
    requires rep.Invalid? ==> exists m :: FailsFirstAt(b, next, m, rep)
    ensures rep.Invalid? ==> exists m :: FailsFirstAt(b, k, m, rep)
  {
    if rep.Invalid? {
      var m :| FailsFirstAt(b, next, m, rep);
      forall m' | k <= m' < m
        ensures UnitOk(b, m')
      {
        if m' != k {
          assert next <= m' < m;
        }
      }
      assert FailsFirstAt(b, k, m, rep);
    }
  }

  /** The scan of `check_solution` from the `k`-th unit on. */
  function FirstInvalid(b: Board, k: nat): (rep: Report)
    requires IsBoard(b) && k <= 27
    ensures rep.Valid? <==> forall m | k <= m < 27 :: UnitOk(b, m)
    ensures rep.Invalid? ==> exists m :: FailsFirstAt(b, k, m, rep)
    decreases 27 - k
  {
    if k == 27 then Valid
    else
      var res := CheckUnit(b, UnitAt(k));
      if !res.0 then
        assert !UnitOk(b, k);
        assert FailsFirstAt(b, k, k, Invalid(UnitAt(k), res.1));
        Invalid(UnitAt(k), res.1)
      else
        var rest := FirstInvalid(b, k + 1);
        FailsFirstBack(b, k, k + 1, rest);
        rest
  }

  lemma BlockUnitOk(b: Board, x: int, y: int)
    requires IsBoard(b) && 0 <= x < 3 && 0 <= y < 3
    ensures UnitAt(18 + 3 * x + y) == BlockUnit(x, y)
    ensures UnitOk(b, 18 + 3 * x + y) <==> WindowDistinct(b, 3 * x, 3 * y)
  {
    BlockOffset(x, y);
  }

  /** A row `check_solution` accepts has no two filled cells alike. */
  lemma RowUnitPeers(b: Board, r: int, c1: int, c2: int)
    requires IsBoard(b) && 0 <= r < 9 && UnitOk(b, r)
    requires 0 <= c1 < 9 && 0 <= c2 < 9 && c1 != c2
    ensures b[r][c1] > 0 ==> b[r][c1] != b[r][c2]
  {
    assert UnitAt(r) == RowUnit(r);
  }

  /** A column `check_solution` accepts has no two filled cells alike. */
  lemma ColumnUnitPeers(b: Board, c: int, r1: int, r2: int)
    requires IsBoard(b) && 0 <= c < 9 && UnitOk(b, 9 + c)
    requires 0 <= r1 < 9 && 0 <= r2 < 9 && r1 != r2
    ensures b[r1][c] > 0 ==> b[r1][c] != b[r2][c]
  {
    assert UnitAt(9 + c) == ColumnUnit(c);
  }

  /** A block `check_solution` accepts has no two filled cells alike. */
  lemma BlockUnitPeers(b: Board, x: int, y: int, r1: int, c1: int, r2: int, c2: int)
    requires IsBoard(b) && 0 <= x < 3 && 0 <= y < 3 && WindowDistinct(b, 3 * x, 3 * y)
    requires 3 * x <= r1 < 3 * x + 3 && 3 * y <= c1 < 3 * y + 3
    requires 3 * x <= r2 < 3 * x + 3 && 3 * y <= c2 < 3 * y + 3
    requires (r1, c1) != (r2, c2)
    ensures b[r1][c1] > 0 ==> b[r1][c1] != b[r2][c2]
  {
  }

  /** Row or column `r` lies in band `r / 3`. */
  lemma BandOf(r: int)
    requires 0 <= r
    ensures 3 * (r / 3) <= r < 3 * (r / 3) + 3
  {
  }

  lemma UnitsConflictFree(b: Board)
    requires IsBoard(b) && forall m | 0 <= m < 27 :: UnitOk(b, m)
    ensures ConflictFree(b)
  {
    forall r1, c1, r2, c2 | Peers(r1, c1, r2, c2) && b[r1][c1] > 0
      ensures b[r1][c1] != b[r2][c2]
    {
      if r1 == r2 {
        RowUnitPeers(b, r1, c1, c2);
      } else if c1 == c2 {
        ColumnUnitPeers(b, c1, r1, r2);
      } else {
        var x, y := r1 / 3, c1 / 3;
        BandOf(r1);
        BandOf(c1);
        BandOf(r2);
        BandOf(c2);
        BlockUnitOk(b, x, y);
        BlockUnitPeers(b, x, y, r1, c1, r2, c2);
      }
    }
  }

  /** A row or column index in `[3 * x, 3 * x + 3)` lies in band `x`. */
  lemma InBand(x: int, r: int)
    requires 3 * x <= r < 3 * x + 3
    ensures r / 3 == x
  {
  }

  lemma ConflictFreeBlock(b: Board, x: int, y: int)
    requires IsBoard(b) && ConflictFree(b) && 0 <= x < 3 && 0 <= y < 3
    ensures UnitOk(b, 18 + 3 * x + y)
  {
    BlockUnitOk(b, x, y);
    forall r1, c1, r2, c2 |
      3 * x <= r1 < 3 * x + 3 && 3 * y <= c1 < 3 * y + 3 &&
      3 * x <= r2 < 3 * x + 3 && 3 * y <= c2 < 3 * y + 3 && (r1, c1) != (r2, c2)
      ensures b[r1][c1] > 0 ==> b[r1][c1] != b[r2][c2]
    {
      InBand(x, r1);
      InBand(x, r2);
      InBand(y, c1);
      InBand(y, c2);
      assert Peers(r1, c1, r2, c2);
    }
  }

  lemma ConflictFreeLine(b: Board, k: int)
    requires IsBoard(b) && ConflictFree(b) && 0 <= k < 9
    ensures UnitOk(b, k) && UnitOk(b, 9 + k)
  {
    assert UnitAt(k) == RowUnit(k) && UnitAt(9 + k) == ColumnUnit(k);
    forall c1, c2 | 0 <= c1 < 9 && 0 <= c2 < 9 && c1 != c2
      ensures b[k][c1] > 0 ==> b[k][c1] != b[k][c2]
    {
      assert Peers(k, c1, k, c2);
    }
    forall r1, r2 | 0 <= r1 < 9 && 0 <= r2 < 9 && r1 != r2
      ensures b[r1][k] > 0 ==> b[r1][k] != b[r2][k]
    {
      assert Peers(r1, k, r2, k);
    }
  }

  lemma ConflictFreeUnits(b: Board)
    requires IsBoard(b) && ConflictFree(b)
    ensures forall m | 0 <= m < 27 :: UnitOk(b, m)
  {
    forall m | 0 <= m < 27
      ensures UnitOk(b, m)
    {
      if m < 9 {
        ConflictFreeLine(b, m);
      } else if m < 18 {
        ConflictFreeLine(b, m - 9);
      } else {
        var x, y := (m - 18) / 3, (m - 18) % 3;
        assert m == 18 + 3 * x + y;
        ConflictFreeBlock(b, x, y);
      }
    }
  }

  lemma UnitsIffConflictFree(b: Board)
    requires IsBoard(b)
    ensures (forall m | 0 <= m < 27 :: UnitOk(b, m)) <==> ConflictFree(b)
  {
    if forall m | 0 <= m < 27 :: UnitOk(b, m) {
      UnitsConflictFree(b);
    }
    if ConflictFree(b) {
      ConflictFreeUnits(b);
    }
  }

  /** `check_solution`: valid exactly when no filled cell repeats a digit in
      its row, column or block; otherwise the first unit, in visiting order,
      that has a repeat. */
  function CheckSolution(b: Board): (rep: Report)
    requires IsBoard(b)
    ensures rep.Valid? <==> ConflictFree(b)
    ensures rep.Invalid? ==> exists m :: FailsFirstAt(b, 0, m, rep)
  {
    UnitsIffConflictFree(b);
    FirstInvalid(b, 0)
  }
}
