/** The creator's `solve`: deduction passes to a fixed point, then
    backtracking over the cells still empty. */
module CreatorSolve {

  import opened CreatorBoard
  import opened CreatorChecks
  import opened CreatorSingle
  import opened Digits

  /** Cells on the board, listed in strictly increasing row-major order (so
      no cell is listed twice). */
  predicate Ordered(cells: seq<Pos>) {
    && (forall k | 0 <= k < |cells| :: InRange(cells[k]))
    && (forall i, j | 0 <= i < j < |cells| :: Key(cells[i]) < Key(cells[j]))
  }

  function At(t: Board, p: Pos): int
    requires IsBoard(t) && InRange(p)
  {
    t[p.0][p.1]
  }

  /** Every cell of `t'` equals that of `t`, or was empty in `t` and holds a
      digit in `t'`. */
  ghost predicate FillsOnly(t: Board, t': Board)
    requires IsBoard(t) && IsBoard(t')
  {
    forall r, c | 0 <= r < 9 && 0 <= c < 9 :: t'[r][c] == t[r][c] || (t[r][c] == -1 && t'[r][c] != -1)
  }

  lemma FillsOnlyTrans(t1: Board, t2: Board, t3: Board)
    requires IsBoard(t1) && IsBoard(t2) && IsBoard(t3)
    requires FillsOnly(t1, t2) && FillsOnly(t2, t3)
    ensures FillsOnly(t1, t3)
  {
  }

  /** Writing a digit into the listed cell `cells[k]`, empty in `t`. */
  lemma FillListed(t: Board, cells: seq<Pos>, k: nat, v: int)
    requires WellFormed(t) && Ordered(cells) && k < |cells| && 1 <= v <= 9
    requires forall i | k <= i < |cells| :: At(t, cells[i]) == -1
    ensures var t' := Set(t, cells[k].0, cells[k].1, v);
      && WellFormed(t') && FillsOnly(t, t')
      && (forall i | k < i < |cells| :: At(t', cells[i]) == -1)
      && EmptyCount(t') + 1 == EmptyCount(t)
  {
    var p := cells[k];
    SetEmptyCount(t, p.0, p.1, v);
    assert forall i | k < i < |cells| :: cells[i] != p;
  }

  /** One pass of the deduction loop over `cells[k..]`: each cell for which
      `check_if_single_solution` names a digit gets it at once, so later cells
      see the earlier fills. Returns the board and `num_solved`; each solved
      cell is one empty cell fewer. */
  function PassOver(t: Board, cells: seq<Pos>, k: nat): (res: (Board, nat))
    requires WellFormed(t) && Ordered(cells) && k <= |cells|
    requires forall i | k <= i < |cells| :: At(t, cells[i]) == -1
    ensures WellFormed(res.0)
    ensures EmptyCount(res.0) + res.1 == EmptyCount(t)
    ensures res.1 == 0 ==> res.0 == t
    decreases |cells| - k
  {
    if k == |cells| then (t, 0)
    else
      var p := cells[k];
      var v := CheckIfSingleSolution(t, p.0, p.1);
      if v != -1 then
        FillListed(t, cells, k, v);
        var res := PassOver(Set(t, p.0, p.1, v), cells, k + 1);
        (res.0, res.1 + 1)
      else
        PassOver(t, cells, k + 1)
  }

  /** A pass writes only into empty cells. */
  lemma {:induction false} PassOverFills(t: Board, cells: seq<Pos>, k: nat)
    requires WellFormed(t) && Ordered(cells) && k <= |cells|
    requires forall i | k <= i < |cells| :: At(t, cells[i]) == -1
    ensures FillsOnly(t, PassOver(t, cells, k).0)
    decreases |cells| - k
  {
    if k < |cells| {
      var p := cells[k];
      var v := CheckIfSingleSolution(t, p.0, p.1);
      if v != -1 {
        FillListed(t, cells, k, v);
        var t' := Set(t, p.0, p.1, v);
        PassOverFills(t', cells, k + 1);
        FillsOnlyTrans(t, t', PassOver(t', cells, k + 1).0);
      } else {
        PassOverFills(t, cells, k + 1);
      }
    }
  }

  /** No deduction of `check_if_single_solution` applies to cell `p`. */
  ghost predicate Stuck(t: Board, p: Pos)
    requires WellFormed(t) && InRange(p)
  {
    CheckIfSingleSolution(t, p.0, p.1) == -1
  }

  /** The first cell of a pass: a stuck cell leaves the rest of the pass to
      decide; any other cell is solved. */
  lemma PassOverHead(t: Board, cells: seq<Pos>, k: nat)
    requires WellFormed(t) && Ordered(cells) && k < |cells|
    requires forall i | k <= i < |cells| :: At(t, cells[i]) == -1
    ensures Stuck(t, cells[k]) ==> PassOver(t, cells, k) == PassOver(t, cells, k + 1)
    ensures !Stuck(t, cells[k]) ==> PassOver(t, cells, k).1 > 0
  {
    var p := cells[k];
    var v := CheckIfSingleSolution(t, p.0, p.1);
    if v != -1 {
      FillListed(t, cells, k, v);
    }
  }

  /** A pass that solves nothing found no cell with a single candidate. */
  lemma {:induction false} PassOverQuiet(t: Board, cells: seq<Pos>, k: nat)
    requires WellFormed(t) && Ordered(cells) && k <= |cells|
    requires forall i | k <= i < |cells| :: At(t, cells[i]) == -1
    ensures PassOver(t, cells, k).1 == 0 ==> forall i | k <= i < |cells| :: Stuck(t, cells[i])
    decreases |cells| - k
  {
    if k < |cells| {
      PassOverHead(t, cells, k);
      if Stuck(t, cells[k]) {
        PassOverQuiet(t, cells, k + 1);
        if PassOver(t, cells, k).1 == 0 {
          assert PassOver(t, cells, k + 1).1 == 0;
          forall i | k <= i < |cells| ensures Stuck(t, cells[i]) {
            if i > k {
              assert k + 1 <= i < |cells|;
            }
          }
        }
      }
    }
  }

  /** Filling the digit deduced for `cells[k]` keeps the board below the
      solution and leaves the later listed cells empty. */
  lemma FillSound(t: Board, cells: seq<Pos>, k: nat, s: Board)
    requires WellFormed(t) && Ordered(cells) && k < |cells|
    requires forall i | k <= i < |cells| :: At(t, cells[i]) == -1
    requires IsSolution(s) && Extends(s, t)
    requires CheckIfSingleSolution(t, cells[k].0, cells[k].1) != -1
    ensures var t' := Set(t, cells[k].0, cells[k].1, CheckIfSingleSolution(t, cells[k].0, cells[k].1));
      && WellFormed(t') && Extends(s, t')
      && (forall i | k + 1 <= i < |cells| :: At(t', cells[i]) == -1)
  {
    var p := cells[k];
    SingleSolutionSound(t, p.0, p.1, s);
    FillListed(t, cells, k, CheckIfSingleSolution(t, p.0, p.1));
  }

  /** A pass keeps every solution that extends the board. */
  lemma {:induction false} PassOverSound(t: Board, cells: seq<Pos>, k: nat, s: Board)
    requires WellFormed(t) && Ordered(cells) && k <= |cells|
    requires forall i | k <= i < |cells| :: At(t, cells[i]) == -1
    requires IsSolution(s) && Extends(s, t)
    ensures Extends(s, PassOver(t, cells, k).0)
    decreases |cells| - k
  {
    if k < |cells| {
      var p := cells[k];
      var v := CheckIfSingleSolution(t, p.0, p.1);
      if v != -1 {
        FillSound(t, cells, k, s);
        var t' := Set(t, p.0, p.1, v);
        PassOverSound(t', cells, k + 1, s);
        assert PassOver(t, cells, k).0 == PassOver(t', cells, k + 1).0;
      } else {
        PassOverSound(t, cells, k + 1, s);
        assert PassOver(t, cells, k) == PassOver(t, cells, k + 1);
      }
    }
  }

  lemma EmptyCellsOrdered(t: Board)
    requires IsBoard(t)
    ensures Ordered(EmptyCells(t))
    ensures forall i | 0 <= i < |EmptyCells(t)| :: At(t, EmptyCells(t)[i]) == -1
    ensures forall r, c | 0 <= r < 9 && 0 <= c < 9 && (r, c) !in EmptyCells(t) :: t[r][c] != -1
  {
    EmptyCellsSpec(t);
    var cells := EmptyCells(t);
    forall i | 0 <= i < |cells| ensures InRange(cells[i]) && At(t, cells[i]) == -1 {
      assert cells[i] in cells;
    }
    forall r, c | 0 <= r < 9 && 0 <= c < 9 && (r, c) !in cells ensures t[r][c] != -1 {
      assert InRange((r, c));
    }
  }

  /** The first loop of `solve`: passes over the empty cells until a pass
      fills nothing. */
  function Propagate(t: Board): (p: Board)
    requires WellFormed(t)
    ensures WellFormed(p)
    ensures EmptyCount(p) <= EmptyCount(t)
    decreases EmptyCount(t)
  {
    EmptyCellsOrdered(t);
    var res := PassOver(t, EmptyCells(t), 0);
    if res.1 == 0 then t else Propagate(res.0)
  }

  /** Propagation fills only empty cells. */
  lemma {:induction false} PropagateFills(t: Board)
    requires WellFormed(t)
    ensures FillsOnly(t, Propagate(t))
    decreases EmptyCount(t)
  {
    EmptyCellsOrdered(t);
    var cells := EmptyCells(t);
    var res := PassOver(t, cells, 0);
    PassOverFills(t, cells, 0);
    if res.1 != 0 {
      assert Propagate(t) == Propagate(res.0);
      PropagateFills(res.0);
      FillsOnlyTrans(t, res.0, Propagate(res.0));
    }
  }

  /** When every listed empty cell is stuck, every empty cell is. */
  lemma ListedStuck(t: Board, cells: seq<Pos>)
    requires WellFormed(t) && cells == EmptyCells(t) && Ordered(cells)
    requires forall i | 0 <= i < |cells| :: Stuck(t, cells[i])
    ensures forall r, c | 0 <= r < 9 && 0 <= c < 9 && t[r][c] == -1 :: Stuck(t, (r, c))
  {
    EmptyCellsSpec(t);
    forall r, c | 0 <= r < 9 && 0 <= c < 9 && t[r][c] == -1
      ensures Stuck(t, (r, c))
    {
      assert (r, c) in cells;
      var i :| 0 <= i < |cells| && cells[i] == (r, c);
      assert Stuck(t, cells[i]);
    }
  }

  /** No deduction applies to any cell propagation leaves empty. */
  lemma {:induction false} PropagateFixed(t: Board)
    requires WellFormed(t)
    ensures forall r, c | 0 <= r < 9 && 0 <= c < 9 && Propagate(t)[r][c] == -1 :: Stuck(Propagate(t), (r, c))
    decreases EmptyCount(t)
  {
    EmptyCellsOrdered(t);
    var cells := EmptyCells(t);
    var res := PassOver(t, cells, 0);
    if res.1 == 0 {
      assert Propagate(t) == t;
      PassOverQuiet(t, cells, 0);
      ListedStuck(t, cells);
    } else {
      assert Propagate(t) == Propagate(res.0);
      PropagateFixed(res.0);
    }
  }

  /** Propagation keeps every solution that extends the board. */
  lemma {:induction false} PropagateSound(t: Board, s: Board)
    requires WellFormed(t) && IsSolution(s) && Extends(s, t)
    ensures Extends(s, Propagate(t))
    decreases EmptyCount(t)
  {
    EmptyCellsOrdered(t);
    var res := PassOver(t, EmptyCells(t), 0);
    PassOverSound(t, EmptyCells(t), 0, s);
    if res.1 != 0 {
      PropagateSound(res.0, s);
    }
  }

  /** A cell's digit in the backtracking measure: empty counts as 0. */
  function Digit(v: int): int {
    if v == -1 then 0 else v
  }

  ghost function DigitsOf(t: Board, cells: seq<Pos>): (d: seq<int>)
    requires IsBoard(t) && Ordered(cells)
    ensures |d| == |cells|
    ensures forall k | 0 <= k < |cells| :: d[k] == Digit(At(t, cells[k]))
  {
    seq(|cells|, k requires 0 <= k < |cells| => Digit(At(t, cells[k])))
  }

  /** The backtracking measure: the listed cells read as a number in base
      11, scaled by 11, plus a term that shrinks as the cursor `kn`
      advances. Every step of the search makes it grow. */
  ghost function Measure(d: seq<int>, kn: int): int
    requires -1 <= kn <= |d|
  {
    11 * Value(d, 11) + Pow(11, |d| - kn)
  }

  lemma MeasureRaise(d: seq<int>, kn: int)
    requires 0 <= kn < |d| && 0 <= d[kn] <= 8
    ensures Measure(d[kn := d[kn] + 1], kn) > Measure(d, kn)
    ensures Measure(d[kn := d[kn] + 1], kn + 1) > Measure(d, kn)
  {
    ValueUpdate(d, 11, kn, d[kn] + 1);
    assert Pow(11, |d| - kn) == 11 * Pow(11, |d| - 1 - kn);
  }

  lemma MeasureReset(d: seq<int>, kn: int)
    requires 0 <= kn < |d| && d[kn] == 9
    ensures Measure(d[kn := 0], kn - 1) > Measure(d, kn)
  {
    ValueUpdate(d, 11, kn, 0);
    assert Pow(11, |d| - kn) == 11 * Pow(11, |d| - 1 - kn);
    assert Pow(11, |d| - kn + 1) == 11 * Pow(11, |d| - kn);
  }

  lemma MeasureBound(d: seq<int>, kn: int)
    requires InBase(d, 11) && -1 <= kn <= |d|
    ensures Measure(d, kn) < 2 * Pow(11, |d| + 1)
  {
    ValueBounds(d, 11);
    PowGrows(11, |d| - kn, |d| + 1);
    assert Pow(11, |d| + 1) == 11 * Pow(11, |d|);
  }

  /** The backtracking state: the listed cells before the cursor hold
      digits and those after it are empty. */
  ghost predicate Cursor(t: Board, cells: seq<Pos>, kn: int) {
    && WellFormed(t) && Ordered(cells) && -1 <= kn <= |cells|
    && (forall k | 0 <= k < kn :: 1 <= At(t, cells[k]) <= 9)
    && (forall k | kn < k < |cells| :: At(t, cells[k]) == -1)
  }

  /** `t'` agrees with `t` outside the listed cells. */
  ghost predicate SameOutside(t: Board, t': Board, cells: seq<Pos>)
    requires IsBoard(t) && IsBoard(t')
  {
    forall r, c | 0 <= r < 9 && 0 <= c < 9 && (r, c) !in cells :: t'[r][c] == t[r][c]
  }

  lemma CursorDigits(t: Board, cells: seq<Pos>, kn: int)
    requires Cursor(t, cells, kn)
    ensures InBase(DigitsOf(t, cells), 11)
  {
  }

  /** Writing into the cursor cell: clearing it lets the cursor step back,
      a digit lets it stay or advance; only the cursor's digit changes. */
  lemma CursorWrite(t: Board, cells: seq<Pos>, kn: int, v: int)
    requires Cursor(t, cells, kn) && 0 <= kn < |cells| && (v == -1 || 1 <= v <= 9)
    ensures var t' := Set(t, cells[kn].0, cells[kn].1, v);
      && (v == -1 ==> Cursor(t', cells, kn - 1))
      && (v != -1 ==> Cursor(t', cells, kn) && Cursor(t', cells, kn + 1))
      && SameOutside(t, t', cells)
      && DigitsOf(t', cells) == DigitsOf(t, cells)[kn := Digit(v)]
  {
    var p := cells[kn];
    assert forall k | 0 <= k < |cells| && k != kn :: cells[k] != p;
    assert forall r, c | 0 <= r < 9 && 0 <= c < 9 && (r, c) !in cells :: (r, c) != p;
  }

  lemma SameOutsideTrans(t1: Board, t2: Board, t3: Board, cells: seq<Pos>)
    requires IsBoard(t1) && IsBoard(t2) && IsBoard(t3)
    requires SameOutside(t1, t2, cells) && SameOutside(t2, t3, cells)
    ensures SameOutside(t1, t3, cells)
  {
  }

  /** The value the cursor cell takes next: an empty cell becomes 1, a digit
      goes up by one, and anything above 9 is cleared. */
  function Bump(val: int): int {
    var nv := if val == -1 then 1 else val + 1;
    if nv > 9 then -1 else nv
  }

  /** The board after writing the cursor cell's next value. */
  function Next(t: Board, cells: seq<Pos>, kn: int): (t': Board)
    requires Cursor(t, cells, kn) && 0 <= kn < |cells|
    ensures IsBoard(t')
  {
    var p := cells[kn];
    Set(t, p.0, p.1, Bump(At(t, p)))
  }

  lemma StepBack(t: Board, cells: seq<Pos>, kn: int)
    requires Cursor(t, cells, kn) && 0 <= kn < |cells| && Bump(At(t, cells[kn])) == -1
    ensures var t' := Next(t, cells, kn);
      && SameOutside(t, t', cells) && Cursor(t', cells, kn - 1)
      && Measure(DigitsOf(t, cells), kn) < Measure(DigitsOf(t', cells), kn - 1)
  {
    var d := DigitsOf(t, cells);
    assert d[kn] == 9;
    CursorWrite(t, cells, kn, -1);
    MeasureReset(d, kn);
  }

  lemma StepRaise(t: Board, cells: seq<Pos>, kn: int)
    requires Cursor(t, cells, kn) && 0 <= kn < |cells| && Bump(At(t, cells[kn])) != -1
    ensures var t' := Next(t, cells, kn);
      var m := Measure(DigitsOf(t, cells), kn);
      && SameOutside(t, t', cells) && Cursor(t', cells, kn) && Cursor(t', cells, kn + 1)
      && m < Measure(DigitsOf(t', cells), kn) && m < Measure(DigitsOf(t', cells), kn + 1)
  {
    var d := DigitsOf(t, cells);
    var v := Bump(At(t, cells[kn]));
    assert 0 <= d[kn] <= 8 && v == d[kn] + 1;
    CursorWrite(t, cells, kn, v);
    MeasureRaise(d, kn);
  }

  /** One step of the search keeps the cursor state, changes only the
      listed cells, and makes the bounded measure grow, whichever way the
      cursor moves. */
  lemma SearchStep(t: Board, cells: seq<Pos>, kn: int)
    requires Cursor(t, cells, kn) && 0 <= kn < |cells|
    ensures var t' := Next(t, cells, kn);
      var m := Measure(DigitsOf(t, cells), kn);
      && SameOutside(t, t', cells)
      && 0 <= m < 2 * Pow(11, |cells| + 1)
      && (Bump(At(t, cells[kn])) == -1 ==>
            Cursor(t', cells, kn - 1) && m < Measure(DigitsOf(t', cells), kn - 1))
      && (Bump(At(t, cells[kn])) != -1 ==>
            Cursor(t', cells, kn) && Cursor(t', cells, kn + 1) &&
            m < Measure(DigitsOf(t', cells), kn) && m < Measure(DigitsOf(t', cells), kn + 1))
  {
    var d := DigitsOf(t, cells);
    CursorDigits(t, cells, kn);
    MeasureBound(d, kn);
    ValueBounds(d, 11);
    if Bump(At(t, cells[kn])) == -1 {
      StepBack(t, cells, kn);
    } else {
      StepRaise(t, cells, kn);
    }
  }

  /** The cursor after one pass of the loop body: back when the cell ran
      past 9, forward when `check_solution` accepts the board, else in
      place. The board keeps its cells outside the list and the measure
      grows; moving past the last cell needs a board without conflicts. */
  lemma SearchNext(t: Board, cells: seq<Pos>, kn: int, t': Board, next: int)
    requires Cursor(t, cells, kn) && 0 <= kn < |cells| && t' == Next(t, cells, kn)
    requires next == if Bump(At(t, cells[kn])) == -1 then kn - 1
                     else if CheckSolution(t').Valid? then kn + 1
                     else kn
    ensures SameOutside(t, t', cells) && Cursor(t', cells, next)
    ensures 0 <= Measure(DigitsOf(t, cells), kn) < Measure(DigitsOf(t', cells), next)
    ensures Measure(DigitsOf(t', cells), next) < 2 * Pow(11, |cells| + 1)
    ensures next == |cells| ==> ConflictFree(t')
  {
    SearchStep(t, cells, kn);
    CursorDigits(t', cells, next);
    MeasureBound(DigitsOf(t', cells), next);
  }

  /** The backtracking loop of `solve` from cursor `kn`. The cursor cell is
      raised (an empty cell becomes 1); a value above 9 is cleared and the
      cursor steps back; otherwise the cursor advances when `check_solution`
      accepts the whole board. The loop ends with the cursor at -1 (no
      solution, every listed cell empty again) or past the last cell (every
      listed cell holds a digit); cells outside the list never change. */
  function Search(t: Board, cells: seq<Pos>, kn: int): (res: (int, Board))
    requires Cursor(t, cells, kn)
    ensures res.0 == -1 || res.0 == |cells|
    ensures Cursor(res.1, cells, res.0)
    ensures SameOutside(t, res.1, cells)
    ensures res.0 == |cells| && kn < |cells| ==> ConflictFree(res.1)
    decreases 2 * Pow(11, |cells| + 1) - Measure(DigitsOf(t, cells), kn)
  {
    if kn < 0 || kn >= |cells| then (kn, t)
    else
      var t' := Next(t, cells, kn);
      var next :=
        if Bump(At(t, cells[kn])) == -1 then kn - 1
        else if CheckSolution(t').Valid? then kn + 1
        else kn;
      SearchNext(t, cells, kn, t', next);
      var res := Search(t', cells, next);
      SameOutsideTrans(t, t', res.1, cells);
      res
  }

  lemma BoardEq(a: Board, b: Board)
    requires IsBoard(a) && IsBoard(b)
    requires forall r, c | 0 <= r < 9 && 0 <= c < 9 :: a[r][c] == b[r][c]
    ensures a == b
  {
    forall r | 0 <= r < 9 ensures a[r] == b[r] {
      assert forall c | 0 <= c < 9 :: a[r][c] == b[r][c];
    }
  }

  /** One cell after backtracking has stopped at either end of the list of
      empty cells. */
  lemma EndCell(t: Board, t': Board, cells: seq<Pos>, kn: int, r: int, c: int)
    requires WellFormed(t) && Cursor(t', cells, kn) && SameOutside(t, t', cells)
    requires kn == -1 || kn == |cells|
    requires forall k | 0 <= k < |cells| :: At(t, cells[k]) == -1
    requires 0 <= r < 9 && 0 <= c < 9 && ((r, c) !in cells ==> t[r][c] != -1)
    ensures t'[r][c] == t[r][c] || (t[r][c] == -1 && t'[r][c] != -1)
    ensures kn == |cells| ==> 1 <= t'[r][c] <= 9
    ensures kn == -1 ==> t'[r][c] == t[r][c]
  {
    if (r, c) in cells {
      var k :| 0 <= k < |cells| && cells[k] == (r, c);
      assert At(t', cells[k]) == t'[r][c];
      assert At(t, cells[k]) == t[r][c];
    }
  }

  /** Backtracking that has stopped at either end of the list of the empty
      cells of `t`: at the far end every cell holds a digit, at the near end
      the board is `t` again, and in either case only empty cells changed. */
  lemma StoppedAtEnd(t: Board, t': Board, cells: seq<Pos>, kn: int)
    requires WellFormed(t) && Cursor(t', cells, kn) && SameOutside(t, t', cells)
    requires kn == -1 || kn == |cells|
    requires forall k | 0 <= k < |cells| :: At(t, cells[k]) == -1
    requires forall r, c | 0 <= r < 9 && 0 <= c < 9 && (r, c) !in cells :: t[r][c] != -1
    ensures kn == |cells| ==> Complete(t')
    ensures kn == -1 ==> t' == t
    ensures FillsOnly(t, t')
  {
    forall r, c | 0 <= r < 9 && 0 <= c < 9
      ensures t'[r][c] == t[r][c] || (t[r][c] == -1 && t'[r][c] != -1)
      ensures kn == |cells| ==> 1 <= t'[r][c] <= 9
      ensures kn == -1 ==> t'[r][c] == t[r][c]
    {
      EndCell(t, t', cells, kn, r, c);
    }
    if kn == -1 {
      BoardEq(t', t);
    }
  }

  /** Backtracking over the empty cells of `t` from the first one: on
      success every cell holds a digit, on failure the board is `t` again,
      only empty cells are written, and with no empty cell the board comes
      back as it is. */
  lemma SearchOverEmpty(t: Board)
    requires WellFormed(t)
    ensures Cursor(t, EmptyCells(t), 0)
    ensures var res := Search(t, EmptyCells(t), 0);
      && (res.0 == |EmptyCells(t)| ==> Complete(res.1))
      && (res.0 == -1 ==> res.1 == t)
      && (|EmptyCells(t)| == 0 ==> res == (0, t))
      && FillsOnly(t, res.1)
  {
    var cells := EmptyCells(t);
    EmptyCellsOrdered(t);
    var res := Search(t, cells, 0);
    StoppedAtEnd(t, res.1, cells, res.0);
  }

  /** `solve`: `[True, board]` when backtracking runs past the last empty
      cell, `[False, board]` when it runs out of values. A board reported
      solved is complete; an unsolved one is the propagated board. */
  function Solve(b: Board): (res: (bool, Board))
    requires WellFormed(b)
    ensures WellFormed(res.1)
    ensures res.0 ==> Complete(res.1)
    ensures !res.0 ==> res.1 == Propagate(b)
  {
    var t := Propagate(b);
    var cells := EmptyCells(t);
    SearchOverEmpty(t);
    var found := Search(t, cells, 0);
    (!(found.0 < 0 || found.0 > |cells|), found.1)
  }

  /** `solve` writes only into the empty cells of `b`, so its board keeps
      every filled cell. */
  lemma SolveExtends(b: Board)
    requires WellFormed(b)
    ensures FillsOnly(b, Solve(b).1) && Extends(Solve(b).1, b)
  {
    var t := Propagate(b);
    PropagateFills(b);
    SearchOverEmpty(t);
    FillsOnlyTrans(b, t, Solve(b).1);
  }

  /** A board reported solved has a conflict only when propagation alone
      filled it: backtracking's last step is an accepted `check_solution`. */
  lemma SolveConflict(b: Board)
    requires WellFormed(b)
    ensures Solve(b).0 && !ConflictFree(Solve(b).1) ==> Solve(b).1 == Propagate(b)
  {
    var t := Propagate(b);
    SearchOverEmpty(t);
  }

  /** Soundness of `solve`: if some solution extends `b`, a board `solve`
      reports solved is itself a solution extending `b`. */
  lemma SolveSound(b: Board, s: Board)
    requires WellFormed(b) && IsSolution(s) && Extends(s, b)
    ensures Solve(b).0 ==> IsSolution(Solve(b).1) && Extends(Solve(b).1, b)
  {
    var t := Propagate(b);
    PropagateSound(b, s);
    SearchOverEmpty(t);
    SolveExtends(b);
    if Solve(b).0 && |EmptyCells(t)| == 0 {
      forall r, c | 0 <= r < 9 && 0 <= c < 9
        ensures t[r][c] == s[r][c]
      {
        assert (r, c) !in EmptyCells(t);
      }
      assert ConflictFree(t) by {
        forall r1, c1, r2, c2 | Peers(r1, c1, r2, c2)
          ensures t[r1][c1] > 0 ==> t[r1][c1] != t[r2][c2]
        {
          assert t[r1][c1] == s[r1][c1] && t[r2][c2] == s[r2][c2];
        }
      }
    }
  }

  /** A complete board is reported solved and returned as it is, whether or
      not it has a conflict. */
  lemma SolveComplete(b: Board)
    requires Complete(b)
    ensures Solve(b) == (true, b)
  {
    CompleteNoEmpty(b);
    assert PassOver(b, EmptyCells(b), 0) == (b, 0);
    assert Propagate(b) == b;
    SearchOverEmpty(b);
  }
}
