/** The backtracking phase of `solve` in sudoku_solver.py and `solve` as a
    whole. */
module SolverSearch {

  import opened SolverGrid
  import opened SolverPropagation
  import opened Digits
  import Arith

  function LeaveFrom(g: seq<int>, k: nat): (leave: seq<int>)
    ensures forall x :: x in leave <==> k <= x < |g| && g[x] != 0
    ensures forall i, j :: 0 <= i < j < |leave| ==> leave[i] < leave[j]
    decreases |g| - k
  {
    if k >= |g| then []
    else
      var rest := LeaveFrom(g, k + 1);
      assert forall i | 0 <= i < |rest| :: k < rest[i] by {
        forall i | 0 <= i < |rest| ensures k < rest[i] { assert rest[i] in rest; }
      }
      (if g[k] != 0 then [k] else []) + rest
  }

  /** `create_leave_alone`: the indices of the filled cells, in increasing
      order. Backtracking never moves its cursor onto these. */
  function LeaveAlone(g: seq<int>): (leave: seq<int>)
    ensures forall x :: x in leave <==> 0 <= x < |g| && g[x] != 0
    ensures forall i, j :: 0 <= i < j < |leave| ==> leave[i] < leave[j]
  {
    LeaveFrom(g, 0)
  }

  /** `leave` holds exactly the indices of the filled cells of `g0`, which is
      all the backtracking loop relies on about `create_leave_alone`'s list. */
  ghost predicate ListsFilled(leave: seq<int>, g0: seq<int>) {
    forall x :: x in leave <==> 0 <= x < |g0| && g0[x] != 0
  }

  /** Raising digit `i` by one raises the value of the grid. */
  lemma RaiseDigit(g: seq<int>, b: nat, i: int)
    requires b >= 1 && 0 <= i < |g|
    ensures Value(g[i := g[i] + 1], b) > Value(g, b)
  {
    ValueUpdate(g, b, i, g[i] + 1);
  }

  /** Clearing digit `i` (which holds `b - 1`) and raising an earlier digit
      `ic` raises the value of the grid. */
  lemma CarryDigit(g: seq<int>, b: nat, i: int, ic: int)
    requires b >= 1 && 0 <= ic < i < |g| && g[i] == b - 1
    ensures Value(g[i := 0][ic := g[ic] + 1], b) > Value(g, b)
  {
    var n := |g|;
    var p := Pow(b, n - 1 - i);
    var q := Pow(b, n - 1 - ic);
    var h := g[i := 0];
    ValueUpdate(g, b, i, 0);
    assert Value(h, b) == Value(g, b) - (b - 1) * p;
    ValueUpdate(h, b, ic, h[ic] + 1);
    assert Value(h[ic := h[ic] + 1], b) == Value(h, b) + q;
    PowGrows(b, n - i, n - 1 - ic);
    assert Pow(b, n - i) == b * p;
    Arith.MulPred(b, p);
  }

  /** The state of the backtracking cursor `i` over grid `g`, started from
      `g0` with maximum value `n`: the givens are untouched, the free cells
      before the cursor hold a value, the free cells after it are empty, and
      the cell under the cursor holds at most `n + 1`. */
  ghost predicate Cursor(g0: seq<int>, g: seq<int>, i: int, n: nat) {
    && |g| == |g0|
    && 0 <= i <= |g|
    && (forall x | 0 <= x < |g| && g0[x] != 0 :: g[x] == g0[x])
    && (forall x | 0 <= x < i && g0[x] == 0 :: 1 <= g[x] <= n)
    && (forall x | i < x < |g| && g0[x] == 0 :: g[x] == 0)
    && (i < |g| && g0[i] == 0 ==> 0 <= g[i] <= n + 1)
  }

  ghost predicate HasFree(g0: seq<int>) {
    exists x :: 0 <= x < |g0| && g0[x] == 0
  }

  ghost predicate GivenFrom(g0: seq<int>, i: int) {
    forall x | 0 <= x && i <= x < |g0| :: g0[x] != 0
  }

  /** Under the cursor invariant every cell is a digit in base `n + 2`, so
      the grid's value lies below `(n + 2)^|g|`. */
  lemma CursorValue(g0: seq<int>, g: seq<int>, i: int, n: nat)
    requires Cursor(g0, g, i, n)
    requires forall x | 0 <= x < |g0| :: 0 <= g0[x] <= n
    ensures 0 <= Value(g, n + 2) < Pow(n + 2, |g|)
  {
    assert InBase(g, n + 2);
    ValueBounds(g, n + 2);
  }

  lemma CursorStep(g0: seq<int>, g: seq<int>, i: int, n: nat)
    requires Cursor(g0, g, i, n) && i < |g|
    requires g0[i] != 0 || 1 <= g[i] <= n
    ensures Cursor(g0, g, i + 1, n)
  {
  }

  lemma CursorRaise(g0: seq<int>, g: seq<int>, i: int, n: nat)
    requires Cursor(g0, g, i, n) && i < |g| && g0[i] == 0 && g[i] <= n
    ensures Cursor(g0, g[i := g[i] + 1], i, n)
  {
  }

  lemma CursorBack(g0: seq<int>, g: seq<int>, i: int, ic: int, n: nat)
    requires Cursor(g0, g, i, n) && 0 <= ic < i < |g|
    requires g0[i] == 0 && g0[ic] == 0 && forall x | ic < x < i :: g0[x] != 0
    ensures Cursor(g0, g[i := 0][ic := g[ic] + 1], ic, n)
  {
  }

  lemma CursorExhausted(g0: seq<int>, g: seq<int>, i: int, n: nat)
    requires Cursor(g0, g, i, n) && i < |g| && g0[i] == 0
    requires forall x | 0 <= x < i :: g0[x] != 0
    ensures g[i := 0] == g0
  {
  }

  /** The inner loop of the step back: the nearest cell before `i` that is
      not in `leave`, or -1 when there is none. */
  method PreviousFree(g0: seq<int>, leave: seq<int>, i: int) returns (ic: int)
    requires ListsFilled(leave, g0) && 0 <= i <= |g0|
    ensures -1 <= ic < i
    ensures ic >= 0 ==> g0[ic] == 0
    ensures forall x | 0 <= x && ic < x < i :: g0[x] != 0
  {
    ic := i;
    while true
      invariant 0 <= ic <= i
      invariant forall x | ic <= x < i :: g0[x] != 0
      decreases ic
    {
      ic := ic - 1;
      if ic !in leave {
        break;
      }
    }
  }

  /** The backtracking loop of `solve`. A cursor `i` walks the flat grid,
      skipping the cells in `leave` (the filled cells of `g0`); it enters an
      empty cell with 1, raises the value while the grid has a conflict, and
      moves on once it has none. A value above `N` is cleared and the search
      steps back to the previous free cell, which is raised at once. When
      there is no previous free cell the cursor becomes -1, and Python's
      negative indexing makes the step raise the LAST cell of the grid. */
  method Backtrack(g0: seq<int>, w: nat, leave: seq<int>) returns (g: seq<int>, i: int)
    requires WellFormed(g0, w)
    requires ListsFilled(leave, g0)
    ensures |g| == |g0|
    ensures i == -1 || i == |g0|
    ensures i == |g0| ==> forall x | 0 <= x < |g0| && g0[x] != 0 :: g[x] == g0[x]
    ensures i == |g0| ==> forall x | 0 <= x < |g0| :: 1 <= g[x] <= Side(w)
    ensures i == |g0| && (exists x :: 0 <= x < |g0| && g0[x] == 0) ==> ConflictFree(g, w)
    ensures (forall x | 0 <= x < |g0| :: g0[x] != 0) ==> i == |g0| && g == g0
    ensures i == -1 ==> g == g0[|g0| - 1 := g0[|g0| - 1] + 1]
  {
    var n := Side(w);
    g := g0;
    i := 0;
    CursorStart(g0, w);
    while 0 <= i < |g|
      invariant |g| == |g0| && -1 <= i <= |g|
      invariant i == -1 ==> g == g0[|g0| - 1 := g0[|g0| - 1] + 1]
      invariant 0 <= i ==> Cursor(g0, g, i, n)
      invariant !HasFree(g0) ==> 0 <= i && g == g0
      invariant (0 <= i && HasFree(g0) && GivenFrom(g0, i)) ==> ConflictFree(g, w)
      decreases (if 0 <= i then 1 else 0), Pow(n + 2, |g|) - Value(g, n + 2), |g| - i
    {
      g, i := Step(g0, w, leave, g, i);
    }
    CursorDone(g0, w, g, i);
  }

  /** The loop invariant at the start: the cursor on the first cell of the
      untouched grid. */
  lemma CursorStart(g0: seq<int>, w: nat)
    requires WellFormed(g0, w)
    ensures Cursor(g0, g0, 0, Side(w))
    ensures HasFree(g0) && GivenFrom(g0, 0) ==> ConflictFree(g0, w)
  {
  }

  /** What the loop invariant says once the cursor has left the grid: off
      the end, every cell holds a value and the givens are in place; off the
      front, only the last cell differs from the start. */
  lemma CursorDone(g0: seq<int>, w: nat, g: seq<int>, i: int)
    requires WellFormed(g0, w)
    requires |g| == |g0| && (i == -1 || i == |g0|)
    requires i == -1 ==> g == g0[|g0| - 1 := g0[|g0| - 1] + 1]
    requires 0 <= i ==> Cursor(g0, g, i, Side(w))
    requires !HasFree(g0) ==> 0 <= i && g == g0
    requires (0 <= i && HasFree(g0) && GivenFrom(g0, i)) ==> ConflictFree(g, w)
    ensures i == |g0| ==> forall x | 0 <= x < |g0| && g0[x] != 0 :: g[x] == g0[x]
    ensures i == |g0| ==> forall x | 0 <= x < |g0| :: 1 <= g[x] <= Side(w)
    ensures i == |g0| && (exists x :: 0 <= x < |g0| && g0[x] == 0) ==> ConflictFree(g, w)
    ensures (forall x | 0 <= x < |g0| :: g0[x] != 0) ==> i == |g0| && g == g0
  {
  }

  /** The step back of the loop body, for a free cell whose value has run
      past `N`: clear it and raise the nearest earlier free cell, or, when
      there is none, fall onto index -1, whose write raises the last cell of
      the grid. */
  method StepBack(g0: seq<int>, w: nat, leave: seq<int>, g: seq<int>, i: int)
      returns (g': seq<int>, i': int)
    requires WellFormed(g0, w) && ListsFilled(leave, g0)
    requires Cursor(g0, g, i, Side(w)) && i < |g| && g0[i] == 0 && g[i] == Side(w) + 1
    ensures |g'| == |g0| && -1 <= i' < i
    ensures i' == -1 ==> g' == g0[|g0| - 1 := g0[|g0| - 1] + 1]
    ensures 0 <= i' ==> Cursor(g0, g', i', Side(w)) && g0[i'] == 0
    ensures 0 <= i' ==> Value(g', Side(w) + 2) > Value(g, Side(w) + 2)
    ensures i' == -1 <==> forall x | 0 <= x < i :: g0[x] != 0
    ensures 0 <= i' ==> (forall x | i' < x < i :: g0[x] != 0) && g' == g[i := 0][i' := g[i'] + 1]
  {
    var n := Side(w);
    var ic := PreviousFree(g0, leave, i);
    if ic >= 0 {
      CarryDigit(g, n + 2, i, ic);
      CursorBack(g0, g, i, ic, n);
      g', i' := g[i := 0][ic := g[ic] + 1], ic;
      return;
    }
    CursorExhausted(g0, g, i, n);
    var cleared := g[i := 0];
    g', i' := cleared[|cleared| - 1 := cleared[|cleared| - 1] + 1], -1;
  }

  /** The status check of the loop body, for a free cell holding a digit:
      raise the cell while the grid has a conflict, move on once it has
      none. */
  method TryDigit(g0: seq<int>, w: nat, g: seq<int>, i: int) returns (g': seq<int>, i': int)
    requires WellFormed(g0, w)
    requires Cursor(g0, g, i, Side(w)) && i < |g| && g0[i] == 0 && 1 <= g[i] <= Side(w)
    ensures |g'| == |g0| && i <= i' <= i + 1
    ensures Cursor(g0, g', i', Side(w))
    ensures GivenFrom(g0, i') ==> ConflictFree(g', w)
    ensures i' == i + 1 <==> ConflictFree(g, w)
    ensures i' == i + 1 ==> g' == g
    ensures i' == i ==> g' == g[i := g[i] + 1]
    ensures i' == i ==> Value(g', Side(w) + 2) > Value(g, Side(w) + 2)
  {
    var n := Side(w);
    var status := CheckSudokuCorrect(g, w);
    if !status {
      RaiseDigit(g, n + 2, i);
      CursorRaise(g0, g, i, n);
      g', i' := g[i := g[i] + 1], i;
    } else {
      CursorStep(g0, g, i, n);
      g', i' := g, i + 1;
    }
  }

  /** One pass of the backtracking loop body. Unless the search is
      exhausted, the grid read as a number in base `N + 2` grows, or the grid
      stays the same and the cursor moves right. */
  method Step(g0: seq<int>, w: nat, leave: seq<int>, g: seq<int>, i: int)
      returns (g': seq<int>, i': int)
    requires WellFormed(g0, w) && ListsFilled(leave, g0)
    requires Cursor(g0, g, i, Side(w)) && i < |g|
    requires (HasFree(g0) && GivenFrom(g0, i)) ==> ConflictFree(g, w)
    requires !HasFree(g0) ==> g == g0
    ensures |g'| == |g0| && -1 <= i' <= |g|
    ensures i' == -1 ==> g' == g0[|g0| - 1 := g0[|g0| - 1] + 1]
    ensures 0 <= i' ==> Cursor(g0, g', i', Side(w))
    ensures !HasFree(g0) ==> 0 <= i' && g' == g0
    ensures (0 <= i' && HasFree(g0) && GivenFrom(g0, i')) ==> ConflictFree(g', w)
    ensures 0 <= i' ==> Value(g', Side(w) + 2) > Value(g, Side(w) + 2) || (g' == g && i' == i + 1)
    ensures 0 <= Value(g, Side(w) + 2) < Pow(Side(w) + 2, |g|)
    ensures 0 <= i' ==> 0 <= Value(g', Side(w) + 2) < Pow(Side(w) + 2, |g|)
  {
    var n := Side(w);
    CursorValue(g0, g, i, n);
    if i in leave {
      CursorStep(g0, g, i, n);
      g', i' := g, i + 1;
    } else {
      g', i' := Advance(g0, w, leave, g, i);
    }
  }

  /** The free cell `i` as the loop body sees it: an empty cell is
      entered with 1. */
  function Entered(g: seq<int>, i: int): (e: seq<int>)
    requires 0 <= i < |g|
    ensures |e| == |g| && e[i] == (if g[i] == 0 then 1 else g[i])
    ensures forall x | 0 <= x < |g| && x != i :: e[x] == g[x]
  {
    if g[i] == 0 then g[i := 1] else g
  }

  /** The loop body on a free cell: an empty cell is entered with 1, then a
      value past `N` steps back and any other value goes to the status
      check. The grid's value grows unless the search is exhausted. */
  method Advance(g0: seq<int>, w: nat, leave: seq<int>, g: seq<int>, i: int)
      returns (g': seq<int>, i': int)
    requires WellFormed(g0, w) && ListsFilled(leave, g0)
    requires Cursor(g0, g, i, Side(w)) && i < |g| && g0[i] == 0
    ensures |g'| == |g0| && -1 <= i' <= i + 1
    ensures i' == -1 ==> g' == g0[|g0| - 1 := g0[|g0| - 1] + 1]
    ensures 0 <= i' ==> Cursor(g0, g', i', Side(w))
    ensures (0 <= i' && GivenFrom(g0, i')) ==> ConflictFree(g', w)
    ensures 0 <= i' ==> Value(g', Side(w) + 2) > Value(g, Side(w) + 2) || (g' == g && i' == i + 1)
    ensures 0 <= i' ==> 0 <= Value(g', Side(w) + 2) < Pow(Side(w) + 2, |g|)
    ensures Entered(g, i)[i] > Side(w) ==> i' < i
    ensures Entered(g, i)[i] > Side(w) ==> (i' == -1 <==> forall x | 0 <= x < i :: g0[x] != 0)
    ensures Entered(g, i)[i] > Side(w) && 0 <= i' ==>
      (forall x | i' < x < i :: g0[x] != 0) && g' == g[i := 0][i' := g[i'] + 1]
    ensures Entered(g, i)[i] <= Side(w) ==> (i' == i + 1 <==> ConflictFree(Entered(g, i), w))
    ensures Entered(g, i)[i] <= Side(w) && i' == i ==> g' == Entered(g, i)[i := Entered(g, i)[i] + 1]
  {
    if Entered(g, i)[i] > Side(w) {
      g', i' := AdvanceBack(g0, w, leave, g, i);
    } else {
      g', i' := AdvanceTry(g0, w, g, i);
    }
  }

  /** `Advance` when the entered value is past `N`: the step back. */
  method AdvanceBack(g0: seq<int>, w: nat, leave: seq<int>, g: seq<int>, i: int)
      returns (g': seq<int>, i': int)
    requires WellFormed(g0, w) && ListsFilled(leave, g0)
    requires Cursor(g0, g, i, Side(w)) && i < |g| && g0[i] == 0 && Entered(g, i)[i] > Side(w)
    ensures |g'| == |g0| && -1 <= i' < i
    ensures i' == -1 ==> g' == g0[|g0| - 1 := g0[|g0| - 1] + 1]
    ensures 0 <= i' ==> Cursor(g0, g', i', Side(w)) && !GivenFrom(g0, i')
    ensures 0 <= i' ==> Value(g', Side(w) + 2) > Value(g, Side(w) + 2)
    ensures 0 <= i' ==> 0 <= Value(g', Side(w) + 2) < Pow(Side(w) + 2, |g|)
    ensures i' == -1 <==> forall x | 0 <= x < i :: g0[x] != 0
    ensures 0 <= i' ==> (forall x | i' < x < i :: g0[x] != 0) && g' == g[i := 0][i' := g[i'] + 1]
  {
    var n := Side(w);
    g', i' := StepBack(g0, w, leave, g, i);
    if 0 <= i' {
      CursorValue(g0, g', i', n);
    }
  }

  /** `Advance` when the entered value is a digit: the status check. */
  method AdvanceTry(g0: seq<int>, w: nat, g: seq<int>, i: int) returns (g': seq<int>, i': int)
    requires WellFormed(g0, w)
    requires Cursor(g0, g, i, Side(w)) && i < |g| && g0[i] == 0 && Entered(g, i)[i] <= Side(w)
    ensures |g'| == |g0| && i <= i' <= i + 1
    ensures Cursor(g0, g', i', Side(w))
    ensures GivenFrom(g0, i') ==> ConflictFree(g', w)
    ensures Value(g', Side(w) + 2) > Value(g, Side(w) + 2) || (g' == g && i' == i + 1)
    ensures 0 <= Value(g', Side(w) + 2) < Pow(Side(w) + 2, |g|)
    ensures i' == i + 1 <==> ConflictFree(Entered(g, i), w)
    ensures i' == i ==> g' == Entered(g, i)[i := Entered(g, i)[i] + 1]
  {
    var n := Side(w);
    var g1 := Entered(g, i);
    if g[i] == 0 {
      RaiseDigit(g, n + 2, i);
      CursorRaise(g0, g, i, n);
    }
    g', i' := TryDigit(g0, w, g1, i);
    CursorValue(g0, g', i', n);
  }

  /** `solve`: propagation to a fixed point, `create_leave_alone` on the
      result, then backtracking. `found` tells which of the two messages the
      source prints ("Found a solution" when the cursor runs off the end). A
      found grid is full and keeps every given; for a conflict-free input it
      is a solution. A grid without empty cells is returned unchanged as
      found, whether or not it has a conflict. On exhaustion every given but
      the last cell is kept, and a given in the last cell is raised by one. */
  method Solve(g: seq<int>, w: nat) returns (r: seq<int>, found: bool)
    requires WellFormed(g, w)
    ensures |r| == |g|
    ensures found ==> (forall x | 0 <= x < |r| :: 1 <= r[x] <= Side(w)) && Extends(r, g)
    ensures found && ConflictFree(g, w) ==> IsSolution(r, w)
    ensures (forall x | 0 <= x < |g| :: g[x] != 0) ==> found && r == g
    ensures !found ==> forall x | 0 <= x < |g| - 1 && g[x] != 0 :: r[x] == g[x]
    ensures !found && g[|g| - 1] != 0 ==> r[|g| - 1] == g[|g| - 1] + 1
  {
    var p := Propagate(g, w);
    var leave := LeaveAlone(p);
    var i;
    r, i := Backtrack(p, w, leave);
    found := i >= |r|;
    if (forall x | 0 <= x < |g| :: g[x] != 0) {
      assert p == g;
    }
    if found {
      FoundKeepsGivens(g, p, r, w);
    } else {
      ExhaustedKeepsGivens(g, p, r);
    }
  }

  /** A grid the backtracking completes from the propagated grid `p` keeps
      the givens of the original `g`, and solves it when `g` has no
      conflict. */
  lemma FoundKeepsGivens(g: seq<int>, p: seq<int>, r: seq<int>, w: nat)
    requires WellFormed(g, w) && WellFormed(p, w) && |p| == |g|
    requires forall x | 0 <= x < |g| :: p[x] == g[x] || (g[x] == 0 && p[x] != 0)
    requires ConflictFree(g, w) ==> ConflictFree(p, w)
    requires Extends(r, p) && forall x | 0 <= x < |r| :: 1 <= r[x] <= Side(w)
    requires (exists x :: 0 <= x < |p| && p[x] == 0) ==> ConflictFree(r, w)
    requires (forall x | 0 <= x < |p| :: p[x] != 0) ==> r == p
    ensures Extends(r, g)
    ensures ConflictFree(g, w) ==> IsSolution(r, w)
  {
  }

  /** On exhaustion the result is the propagated grid with its last cell
      raised: every given of `g` but the last survives, and a given in the
      last cell is raised by one. */
  lemma ExhaustedKeepsGivens(g: seq<int>, p: seq<int>, r: seq<int>)
    requires |p| == |g| > 0
    requires forall x | 0 <= x < |g| :: p[x] == g[x] || (g[x] == 0 && p[x] != 0)
    requires r == p[|p| - 1 := p[|p| - 1] + 1]
    ensures |r| == |g|
    ensures forall x | 0 <= x < |g| - 1 && g[x] != 0 :: r[x] == g[x]
    ensures g[|g| - 1] != 0 ==> r[|g| - 1] == g[|g| - 1] + 1
  {
  }

  /** `Solve` with the validity check the source skips when propagation
      leaves no empty cell: "found" now always means a solution of `g`. */
  method SolveChecked(g: seq<int>, w: nat) returns (r: seq<int>, found: bool)
    requires WellFormed(g, w)
    ensures |r| == |g|
    ensures found ==> IsSolution(r, w) && Extends(r, g)
    ensures ConflictFree(g, w) && (forall x | 0 <= x < |g| :: g[x] != 0) ==> found && r == g
  {
    r, found := Solve(g, w);
    if found {
      found := CheckSudokuCorrect(r, w);
    }
  }

  /** A full 4×4 grid of ones: it has no empty cell, so `Solve` reports it
      found and returns it, yet it is not conflict-free. */
  lemma FullGridWithConflict()
    ensures var g := seq(16, _ => 1);
      && WellFormed(g, 2)
      && (forall x | 0 <= x < |g| :: g[x] != 0)
      && !ConflictFree(g, 2)
  {
    var g := seq(16, _ => 1);
    assert Side(2) == 4;
    assert Related(2, 0, 1);
  }
}
