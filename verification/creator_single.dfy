/** The deduction step of the creator's `solve`: `check_missing_num` and
    `check_if_single_solution`. */
module CreatorSingle {

  import opened CreatorBoard
  import opened CreatorChecks

  /** `v` is the one digit of 1..9 that `arr` lacks. */
  ghost predicate OnlyMissing(arr: seq<int>, v: int) {
    1 <= v <= 9 && v !in arr && forall u | 1 <= u <= 9 && u != v :: u in arr
  }

  predicate AllDigits(arr: seq<int>) {
    forall k | 0 <= k < |arr| :: 1 <= arr[k] <= 9
  }

  /** `there`: how often each digit occurs in `arr`, digit `k + 1` at
      index `k`. */
  function Tally(arr: seq<int>): (there: seq<nat>)
    ensures |there| == 9
    ensures forall k | 0 <= k < 9 :: there[k] == 0 <==> k + 1 !in arr
  {
    seq(9, k requires 0 <= k < 9 => multiset(arr)[k + 1])
  }

  /** `np.bincount(there)[0]` restricted to the first `n` entries: how many
      of them are zero. */
  function ZeroCount(t: seq<nat>, n: nat): (z: nat)
    requires n <= |t|
    ensures z == 0 <==> forall k | 0 <= k < n :: t[k] != 0
    ensures z == 1 <==> exists k | 0 <= k < n :: t[k] == 0 && forall k' | 0 <= k' < n && k' != k :: t[k'] != 0
  {
    if n == 0 then 0
    else
      var z := ZeroCount(t, n - 1) + (if t[n - 1] == 0 then 1 else 0);
      assert z == 1 && t[n - 1] != 0 ==>
        exists k | 0 <= k < n :: t[k] == 0 && forall k' | 0 <= k' < n && k' != k :: t[k'] != 0 by {
        if z == 1 && t[n - 1] != 0 {
          var k :| 0 <= k < n - 1 && t[k] == 0 && forall k' | 0 <= k' < n - 1 && k' != k :: t[k'] != 0;
          assert forall k' | 0 <= k' < n && k' != k :: t[k'] != 0;
        }
      }
      z
  }

  /** `there.index(0)` searched from `k` on. */
  function FirstZero(t: seq<nat>, k: nat): (i: nat)
    requires k <= |t| && exists j | k <= j < |t| :: t[j] == 0
    ensures k <= i < |t| && t[i] == 0
    ensures forall j | k <= j < i :: t[j] != 0
    decreases |t| - k
  {
    if t[k] == 0 then k else FirstZero(t, k + 1)
  }

  /** `check_missing_num`: the digit `arr` lacks when it lacks exactly one,
      else -1. */
  lemma OnlyMissingTally(arr: seq<int>, u: int)
    requires OnlyMissing(arr, u)
    ensures ZeroCount(Tally(arr), 9) == 1
  {
    var there := Tally(arr);
    var z := u - 1;
    assert there[z] == 0;
    forall k | 0 <= k < 9 && k != z
      ensures there[k] != 0
    {
      assert k + 1 in arr;
    }
    assert exists j | 0 <= j < 9 :: there[j] == 0 && forall k | 0 <= k < 9 && k != j :: there[k] != 0 by {
      assert there[z] == 0 && forall k | 0 <= k < 9 && k != z :: there[k] != 0;
    }
  }

  function CheckMissingNum(arr: seq<int>): (v: int)
    requires AllDigits(arr)
    ensures v == -1 || 1 <= v <= 9
  {
    var there := Tally(arr);
    if ZeroCount(there, 9) == 1 then FirstZero(there, 0) + 1 else -1
  }

  /** What `check_missing_num` answers: the one digit of 1..9 absent from
      `arr` when there is exactly one, and -1 otherwise. */
  lemma CheckMissingNumSpec(arr: seq<int>)
    requires AllDigits(arr)
    ensures var v := CheckMissingNum(arr);
      && (v != -1 ==> OnlyMissing(arr, v))
      && (v == -1 ==> forall u :: !OnlyMissing(arr, u))
  {
    var there := Tally(arr);
    if ZeroCount(there, 9) == 1 {
      var i := FirstZero(there, 0);
      assert OnlyMissing(arr, i + 1) by {
        forall u | 1 <= u <= 9 && u != i + 1
          ensures u in arr
        {
          assert there[u - 1] != 0;
        }
      }
    } else {
      forall u | OnlyMissing(arr, u)
        ensures false
      {
        OnlyMissingTally(arr, u);
      }
    }
  }

  /** The answer of `check_missing_num` depends only on which digits occur,
      so neither order nor repeats matter. */
  lemma CheckMissingNumSetwise(a1: seq<int>, a2: seq<int>)
    requires AllDigits(a1) && AllDigits(a2)
    requires forall x :: x in a1 <==> x in a2
    ensures CheckMissingNum(a1) == CheckMissingNum(a2)
  {
    CheckMissingNumSpec(a1);
    CheckMissingNumSpec(a2);
    assert forall u :: OnlyMissing(a1, u) <==> OnlyMissing(a2, u);
  }

  /** `list(set(vals))` for digit values: each digit of `vals` from `d` on,
      once. */
  function DistinctFrom(vals: seq<int>, d: int): (r: seq<int>)
    ensures forall x :: x in r <==> d <= x <= 9 && x in vals
    ensures forall k | 0 <= k < |r| :: d <= r[k] <= 9
    decreases 10 - d
  {
    if d > 9 then [] else (if d in vals then [d] else []) + DistinctFrom(vals, d + 1)
  }

  lemma PositivesDigits(arr: seq<int>)
    requires forall k | 0 <= k < |arr| :: arr[k] == -1 || 1 <= arr[k] <= 9
    ensures AllDigits(Positives(arr))
  {
    var p := Positives(arr);
    forall k | 0 <= k < |p| ensures 1 <= p[k] <= 9 {
      assert p[k] in p;
    }
  }

  predicate SameBlock(r: int, c: int, x: int, y: int) {
    r / 3 == x / 3 && c / 3 == y / 3
  }

  /** Some cell of column `y` holds `u`. */
  ghost predicate ColumnHolds(b: Board, y: int, u: int)
    requires IsBoard(b) && 0 <= y < 9
  {
    exists r | 0 <= r < 9 :: b[r][y] == u
  }

  /** Some cell of row `x` holds `u`. */
  ghost predicate RowHolds(b: Board, x: int, u: int)
    requires IsBoard(b) && 0 <= x < 9
  {
    exists c | 0 <= c < 9 :: b[x][c] == u
  }

  /** Some cell of the block of (x, y) holds `u`. */
  ghost predicate BlockHolds(b: Board, x: int, y: int, u: int)
    requires IsBoard(b)
  {
    exists r, c | 0 <= r < 9 && 0 <= c < 9 && SameBlock(r, c, x, y) :: b[r][c] == u
  }

  function ColumnDigits(b: Board, y: int): (d: seq<int>)
    requires WellFormed(b) && 0 <= y < 9
    ensures AllDigits(d)
    ensures forall u :: u in d <==> u > 0 && ColumnHolds(b, y, u)
  {
    var col := ColumnValues(b, y);
    PositivesDigits(col);
    assert forall u :: u in col <==> ColumnHolds(b, y, u) by {
      forall u ensures u in col <==> ColumnHolds(b, y, u) {
        if u in col {
          var r :| 0 <= r < 9 && col[r] == u;
        }
      }
    }
    Positives(col)
  }

  function RowDigits(b: Board, x: int): (d: seq<int>)
    requires WellFormed(b) && 0 <= x < 9
    ensures AllDigits(d)
    ensures forall u :: u in d <==> u > 0 && RowHolds(b, x, u)
  {
    PositivesDigits(b[x]);
    assert forall u :: u in b[x] <==> RowHolds(b, x, u);
    Positives(b[x])
  }

  lemma BlockMembers(b: Board, x: int, y: int, u: int)
    requires IsBoard(b) && 0 <= x < 9 && 0 <= y < 9
    ensures u in BlockValues(b, (x / 3) * 3, (y / 3) * 3) <==> BlockHolds(b, x, y, u)
  {
    var br, bc := (x / 3) * 3, (y / 3) * 3;
    var blk := BlockValues(b, br, bc);
    if u in blk {
      var t :| 0 <= t < 9 && blk[t] == u;
      assert SameBlock(br + t / 3, bc + t % 3, x, y);
    }
    if BlockHolds(b, x, y, u) {
      var r, c :| 0 <= r < 9 && 0 <= c < 9 && SameBlock(r, c, x, y) && b[r][c] == u;
      BlockOffset(r - br, c - bc);
      assert blk[3 * (r - br) + (c - bc)] == u;
    }
  }

  function BlockDigits(b: Board, x: int, y: int): (d: seq<int>)
    requires WellFormed(b) && 0 <= x < 9 && 0 <= y < 9
    ensures AllDigits(d)
    ensures forall u :: u in d <==> u > 0 && BlockHolds(b, x, y, u)
  {
    var blk := BlockValues(b, (x / 3) * 3, (y / 3) * 3);
    PositivesDigits(blk);
    assert forall u :: u in blk <==> BlockHolds(b, x, y, u) by {
      forall u ensures u in blk <==> BlockHolds(b, x, y, u) {
        BlockMembers(b, x, y, u);
      }
    }
    Positives(blk)
  }

  /** Every member of three joined digit lists is a digit. */
  lemma DigitsJoined(a: seq<int>, b: seq<int>, c: seq<int>)
    requires AllDigits(a) && AllDigits(b) && AllDigits(c)
    ensures forall u :: u in a + b + c ==> 1 <= u <= 9
  {
    forall u | u in a + b + c ensures 1 <= u <= 9 {
      if u in a {
        var k :| 0 <= k < |a| && a[k] == u;
      } else if u in b {
        var k :| 0 <= k < |b| && b[k] == u;
      } else {
        var k :| 0 <= k < |c| && c[k] == u;
      }
    }
  }

  /** The digits seen by the column, row and block of (x, y) together, each
      once: `list(set(col + row + block))` filtered to positive values. */
  function UnionDigits(b: Board, x: int, y: int): (d: seq<int>)
    requires WellFormed(b) && 0 <= x < 9 && 0 <= y < 9
    ensures AllDigits(d)
    ensures forall u :: u in d <==> u in ColumnDigits(b, y) || u in RowDigits(b, x) || u in BlockDigits(b, x, y)
  {
    var col, row, blk := ColumnDigits(b, y), RowDigits(b, x), BlockDigits(b, x, y);
    var all := col + row + blk;
    var distinct := DistinctFrom(all, 1);
    var d := Positives(distinct);
    assert forall u :: u in d <==> u in distinct;
    DigitsJoined(col, row, blk);
    assert AllDigits(d) by {
      forall k | 0 <= k < |d| ensures 1 <= d[k] <= 9 { assert d[k] in d; }
    }
    d
  }

  /** `check_if_single_solution`: the digit that is the only one missing from
      the column of (x, y), else from its row, else from its block, else from
      the three together; -1 when none of the four lacks exactly one digit. */
  function CheckIfSingleSolution(b: Board, x: int, y: int): (v: int)
    requires WellFormed(b) && 0 <= x < 9 && 0 <= y < 9
    ensures v == -1 || 1 <= v <= 9
  {
    var v := CheckMissingNum(ColumnDigits(b, y));
    if v != -1 then v
    else
      var v := CheckMissingNum(RowDigits(b, x));
      if v != -1 then v
      else
        var v := CheckMissingNum(BlockDigits(b, x, y));
        if v != -1 then v
        else CheckMissingNum(UnionDigits(b, x, y))
  }

  /** What `check_if_single_solution` answers: a digit that is the only one
      missing from the column, the row, the block or the three together, and
      -1 only when none of the four lacks exactly one digit. */
  lemma CheckIfSingleSolutionSpec(b: Board, x: int, y: int)
    requires WellFormed(b) && 0 <= x < 9 && 0 <= y < 9
    ensures var v := CheckIfSingleSolution(b, x, y);
      && (v != -1 ==> OnlyMissing(ColumnDigits(b, y), v) || OnlyMissing(RowDigits(b, x), v) ||
                      OnlyMissing(BlockDigits(b, x, y), v) || OnlyMissing(UnionDigits(b, x, y), v))
      && (v == -1 ==> forall u :: !OnlyMissing(ColumnDigits(b, y), u) && !OnlyMissing(RowDigits(b, x), u) &&
                                  !OnlyMissing(BlockDigits(b, x, y), u) && !OnlyMissing(UnionDigits(b, x, y), u))
  {
    CheckMissingNumSpec(ColumnDigits(b, y));
    CheckMissingNumSpec(RowDigits(b, x));
    CheckMissingNumSpec(BlockDigits(b, x, y));
    CheckMissingNumSpec(UnionDigits(b, x, y));
  }

  /** A solution extending `b` differs, at the empty cell (x, y), from
      every digit of the cell's column, row and block in `b`. */
  lemma SolutionAvoidsColumn(b: Board, x: int, y: int, s: Board)
    requires WellFormed(b) && 0 <= x < 9 && 0 <= y < 9 && b[x][y] == -1
    requires IsSolution(s) && Extends(s, b)
    ensures s[x][y] !in ColumnDigits(b, y)
  {
    forall r | 0 <= r < 9 && b[r][y] > 0
      ensures b[r][y] != s[x][y]
    {
      assert Peers(x, y, r, y);
    }
  }

  lemma SolutionAvoidsRow(b: Board, x: int, y: int, s: Board)
    requires WellFormed(b) && 0 <= x < 9 && 0 <= y < 9 && b[x][y] == -1
    requires IsSolution(s) && Extends(s, b)
    ensures s[x][y] !in RowDigits(b, x)
  {
    forall c | 0 <= c < 9 && b[x][c] > 0
      ensures b[x][c] != s[x][y]
    {
      assert Peers(x, y, x, c);
    }
  }

  lemma SolutionAvoidsBlock(b: Board, x: int, y: int, s: Board)
    requires WellFormed(b) && 0 <= x < 9 && 0 <= y < 9 && b[x][y] == -1
    requires IsSolution(s) && Extends(s, b)
    ensures s[x][y] !in BlockDigits(b, x, y)
  {
    forall r, c | 0 <= r < 9 && 0 <= c < 9 && SameBlock(r, c, x, y) && b[r][c] > 0
      ensures b[r][c] != s[x][y]
    {
      assert Peers(x, y, r, c);
    }
  }

  /** Soundness of `check_if_single_solution`: when the board has a solution,
      a digit it names for an empty cell is that solution's digit. */
  lemma SingleSolutionSound(b: Board, x: int, y: int, s: Board)
    requires WellFormed(b) && 0 <= x < 9 && 0 <= y < 9 && b[x][y] == -1
    requires IsSolution(s) && Extends(s, b)
    ensures CheckIfSingleSolution(b, x, y) != -1 ==> s[x][y] == CheckIfSingleSolution(b, x, y)
  {
    CheckIfSingleSolutionSpec(b, x, y);
    var v, d := CheckIfSingleSolution(b, x, y), s[x][y];
    var col, row, blk, all := ColumnDigits(b, y), RowDigits(b, x), BlockDigits(b, x, y), UnionDigits(b, x, y);
    SolutionAvoidsColumn(b, x, y, s);
    SolutionAvoidsRow(b, x, y, s);
    SolutionAvoidsBlock(b, x, y, s);
    assert d !in all;
    assert 1 <= d <= 9;
    if v != -1 {
      assert OnlyMissing(col, v) || OnlyMissing(row, v) || OnlyMissing(blk, v) || OnlyMissing(all, v);
      if OnlyMissing(col, v) {
        MissingIsOnly(col, v, d);
      } else if OnlyMissing(row, v) {
        MissingIsOnly(row, v, d);
      } else if OnlyMissing(blk, v) {
        MissingIsOnly(blk, v, d);
      } else {
        MissingIsOnly(all, v, d);
      }
    }
  }

  /** A digit absent from a list that lacks only `v` is `v`. */
  lemma MissingIsOnly(arr: seq<int>, v: int, d: int)
    requires OnlyMissing(arr, v) && 1 <= d <= 9 && d !in arr
    ensures d == v
  {
  }

  /** A board on which the column, row and block of (0, 0) each lack
      several digits while together they lack only 9: the union step finds a
      digit the other three do not. */
  function UnionExample(): Board {
    var e := [-1, -1, -1, -1, -1, -1, -1, -1, -1];
    [ [-1, -1, -1, 1, 2, 3, 4, -1, -1],
      [-1, 8, -1, -1, -1, -1, -1, -1, -1],
      e,
      [5, -1, -1, -1, -1, -1, -1, -1, -1],
      [6, -1, -1, -1, -1, -1, -1, -1, -1],
      [7, -1, -1, -1, -1, -1, -1, -1, -1],
      e, e, e ]
  }

  /** The cell pattern of `UnionExample` that the argument uses. */
  ghost predicate UnionPattern(b: Board) {
    && WellFormed(b)
    && (forall r | 0 <= r < 9 :: b[r][0] == -1 || 5 <= b[r][0] <= 7)
    && (forall c | 0 <= c < 9 :: b[0][c] == -1 || 1 <= b[0][c] <= 4)
    && (forall r, c | 0 <= r < 3 && 0 <= c < 3 :: b[r][c] == -1 || b[r][c] == 8)
    && b[0][3] == 1 && b[0][4] == 2 && b[0][5] == 3 && b[0][6] == 4
    && b[3][0] == 5 && b[4][0] == 6 && b[5][0] == 7 && b[1][1] == 8
  }

  lemma PatternColumn(b: Board)
    requires UnionPattern(b)
    ensures CheckMissingNum(ColumnDigits(b, 0)) == -1
    ensures 5 in ColumnDigits(b, 0) && 6 in ColumnDigits(b, 0) && 7 in ColumnDigits(b, 0)
    ensures 9 !in ColumnDigits(b, 0)
  {
    var col := ColumnDigits(b, 0);
    CheckMissingNumSpec(col);
    assert 1 !in col && 2 !in col;
    assert ColumnHolds(b, 0, 5) && ColumnHolds(b, 0, 6) && ColumnHolds(b, 0, 7);
  }

  lemma PatternRow(b: Board)
    requires UnionPattern(b)
    ensures CheckMissingNum(RowDigits(b, 0)) == -1
    ensures 1 in RowDigits(b, 0) && 2 in RowDigits(b, 0) && 3 in RowDigits(b, 0) && 4 in RowDigits(b, 0)
    ensures 9 !in RowDigits(b, 0)
  {
    var row := RowDigits(b, 0);
    CheckMissingNumSpec(row);
    assert 5 !in row && 6 !in row;
    assert RowHolds(b, 0, 1) && RowHolds(b, 0, 2) && RowHolds(b, 0, 3) && RowHolds(b, 0, 4);
  }

  lemma PatternBlock(b: Board)
    requires UnionPattern(b)
    ensures CheckMissingNum(BlockDigits(b, 0, 0)) == -1
    ensures 8 in BlockDigits(b, 0, 0)
    ensures 9 !in BlockDigits(b, 0, 0)
  {
    var blk := BlockDigits(b, 0, 0);
    CheckMissingNumSpec(blk);
    PatternBlockHolds(b, 1);
    PatternBlockHolds(b, 2);
    PatternBlockHolds(b, 9);
    assert 1 !in blk && 2 !in blk;
    assert BlockHolds(b, 0, 0, 8) by {
      assert SameBlock(1, 1, 0, 0);
    }
  }

  /** The top-left block of the pattern holds nothing but 8. */
  lemma PatternBlockHolds(b: Board, u: int)
    requires UnionPattern(b) && u != 8 && u != -1
    ensures !BlockHolds(b, 0, 0, u)
  {
    forall r, c | 0 <= r < 9 && 0 <= c < 9 && SameBlock(r, c, 0, 0)
      ensures b[r][c] != u
    {
      assert r < 3 && c < 3;
    }
  }

  lemma UnionFindsNine(col: seq<int>, row: seq<int>, blk: seq<int>, u: seq<int>)
    requires AllDigits(u)
    requires forall x :: x in u <==> x in col || x in row || x in blk
    requires 1 in row && 2 in row && 3 in row && 4 in row
    requires 5 in col && 6 in col && 7 in col && 8 in blk
    requires 9 !in col && 9 !in row && 9 !in blk
    ensures CheckMissingNum(u) == 9
  {
    assert OnlyMissing(u, 9);
    CheckMissingNumSpec(u);
    MissingIsOnly(u, CheckMissingNum(u), 9);
  }

  lemma UnionStepNeededFor(b: Board)
    requires UnionPattern(b)
    ensures CheckMissingNum(ColumnDigits(b, 0)) == -1
    ensures CheckMissingNum(RowDigits(b, 0)) == -1
    ensures CheckMissingNum(BlockDigits(b, 0, 0)) == -1
    ensures CheckIfSingleSolution(b, 0, 0) == 9
  {
    PatternColumn(b);
    PatternRow(b);
    PatternBlock(b);
    UnionFindsNine(ColumnDigits(b, 0), RowDigits(b, 0), BlockDigits(b, 0, 0), UnionDigits(b, 0, 0));
  }

  lemma UnionStepNeeded()
    ensures WellFormed(UnionExample())
    ensures CheckMissingNum(ColumnDigits(UnionExample(), 0)) == -1
    ensures CheckMissingNum(RowDigits(UnionExample(), 0)) == -1
    ensures CheckMissingNum(BlockDigits(UnionExample(), 0, 0)) == -1
    ensures CheckIfSingleSolution(UnionExample(), 0, 0) == 9
  {
    assert UnionPattern(UnionExample());
    UnionStepNeededFor(UnionExample());
  }
}
