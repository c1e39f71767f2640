/** The creator's puzzle making: build a solved grid, then clear cells one
    at a time, keeping a clearing only when `solve` still succeeds. The
    random cell choices arrive as a stream of draws. */
module CreatorRemove {

  import opened CreatorBoard
  import opened CreatorSolve
  import opened CreatorBuild
  import opened CreatorPick

  /** One pass of the attempt loop of `create_sudoku`: clear the filled
      cell the draw picks and run `solve` on the result. The clearing is
      kept exactly when `solve` succeeds; otherwise the old value is
      written back, which restores the board exactly. */
  method Attempt(puzzle: Board, draw: nat) returns (next: Board, kept: bool)
    requires WellFormed(puzzle) && EmptyCount(puzzle) < 81
    ensures WellFormed(next) && ClearedFrom(next, puzzle)
    ensures kept <==> Solve(ClearPick(puzzle, draw)).0
    ensures kept ==> next == ClearPick(puzzle, draw)
    ensures kept ==> Solve(next).0 && EmptyCount(next) == EmptyCount(puzzle) + 1
    ensures !kept ==> next == puzzle
  {
    EmptyCountHasFilled(puzzle);
    var p := GetNonEmpty(puzzle, draw);
    var valcur := puzzle[p.0][p.1];
    ClearRestore(puzzle, p.0, p.1);
    var cleared := Set(puzzle, p.0, p.1, -1);
    assert cleared == ClearPick(puzzle, draw);
    if Solve(cleared).0 {
      next, kept := cleared, true;
    } else {
      next, kept := Set(cleared, p.0, p.1, valcur), false;
    }
  }

  /** `solve` accepts the clearing that `draw` picks. */
  ghost predicate Accepts(puzzle: Board, draw: nat)
    requires WellFormed(puzzle) && EmptyCount(puzzle) < 81
  {
    Solve(ClearPick(puzzle, draw)).0
  }

  /** `solve` rejects the clearing of every draw in `[lo, hi)`. */
  ghost predicate Rejected(puzzle: Board, draws: seq<nat>, lo: nat, hi: nat)
    requires WellFormed(puzzle) && EmptyCount(puzzle) < 81 && lo <= hi <= |draws|
  {
    forall j | lo <= j < hi :: !Accepts(puzzle, draws[j])
  }

  /** `solve`'s verdicts on the clearings of the 201 draws from `start` on,
      in draw order. */
  ghost function Verdicts(puzzle: Board, draws: seq<nat>, start: nat): (v: seq<bool>)
    requires WellFormed(puzzle) && EmptyCount(puzzle) < 81 && start + 201 <= |draws|
    ensures |v| == 201
  {
    seq(201, k requires 0 <= k < 201 => Accepts(puzzle, draws[start + k]))
  }

  /** Verdict `k` is `solve`'s answer on the clearing of draw `start + k`. */
  lemma VerdictAt(puzzle: Board, draws: seq<nat>, start: nat, k: nat)
    requires WellFormed(puzzle) && EmptyCount(puzzle) < 81 && start + 201 <= |draws| && k < 201
    ensures Verdicts(puzzle, draws, start)[k] == Accepts(puzzle, draws[start + k])
  {
  }

  /** The position of the first true verdict from `j` on, or `|v|` when
      there is none. */
  function FirstAccept(v: seq<bool>, j: nat): (k: nat)
    requires j <= |v|
    ensures j <= k <= |v|
    decreases |v| - j
  {
    if j == |v| then |v| else if v[j] then j else FirstAccept(v, j + 1)
  }

  /** `FirstAccept` finds exactly the position that closes a run of false
      verdicts: a true one, or the end. */
  lemma {:induction false} FirstAcceptAt(v: seq<bool>, j: nat, k: nat)
    requires j <= k <= |v|
    requires forall i | j <= i < k :: !v[i]
    requires k == |v| || v[k]
    ensures FirstAccept(v, j) == k
    decreases k - j
  {
    if j < k {
      FirstAcceptAt(v, j + 1, k);
    }
  }

  /** The outcome of one target's attempts: the clearing of the first of
      the 201 draws from `start` that `solve` accepts, with the number of
      draws used up to and including it; the board unchanged after 201
      rejections. */
  ghost function Round(puzzle: Board, draws: seq<nat>, start: nat): (r: (Board, nat))
    requires WellFormed(puzzle) && EmptyCount(puzzle) < 81 && start + 201 <= |draws|
    ensures WellFormed(r.0) && EmptyCount(r.0) <= EmptyCount(puzzle) + 1 && start < r.1 <= start + 201
  {
    RoundOf(puzzle, draws, start, FirstAccept(Verdicts(puzzle, draws, start), 0))
  }

  /** The outcome of a round whose first accepted draw is number `k` of
      201, or none when `k` is 201. */
  function RoundOf(puzzle: Board, draws: seq<nat>, start: nat, k: nat): (r: (Board, nat))
    requires WellFormed(puzzle) && EmptyCount(puzzle) < 81 && start + 201 <= |draws| && k <= 201
    ensures WellFormed(r.0) && EmptyCount(r.0) <= EmptyCount(puzzle) + 1 && start < r.1 <= start + 201
  {
    if k < 201 then (ClearPick(puzzle, draws[start + k]), start + k + 1) else (puzzle, start + 201)
  }

  /** A run of rejected draws closed by an accepted one is the round. */
  lemma RoundKept(puzzle: Board, draws: seq<nat>, start: nat, used: nat)
    requires WellFormed(puzzle) && EmptyCount(puzzle) < 81 && start + 201 <= |draws|
    requires start < used <= start + 201
    requires Rejected(puzzle, draws, start, used - 1) && Accepts(puzzle, draws[used - 1])
    ensures Round(puzzle, draws, start) == (ClearPick(puzzle, draws[used - 1]), used)
  {
    FirstKept(puzzle, draws, start, used);
    var k := used - 1 - start;
    RoundFirst(puzzle, draws, start, k);
    assert start + k == used - 1;
  }

  /** The round whose first accepted draw is number `k` of 201. */
  lemma RoundFirst(puzzle: Board, draws: seq<nat>, start: nat, k: nat)
    requires WellFormed(puzzle) && EmptyCount(puzzle) < 81 && start + 201 <= |draws| && k < 201
    requires FirstAccept(Verdicts(puzzle, draws, start), 0) == k
    ensures Round(puzzle, draws, start) == (ClearPick(puzzle, draws[start + k]), start + k + 1)
  {
    RoundOfKept(puzzle, draws, start, k);
  }

  /** A round whose first accepted draw is number `k` clears that draw's
      pick. */
  lemma RoundOfKept(puzzle: Board, draws: seq<nat>, start: nat, k: nat)
    requires WellFormed(puzzle) && EmptyCount(puzzle) < 81 && start + 201 <= |draws| && k < 201
    ensures RoundOf(puzzle, draws, start, k) == (ClearPick(puzzle, draws[start + k]), start + k + 1)
  {
  }

  /** The first accepted verdict sits at the accepted draw closing a run of
      rejections. */
  lemma FirstKept(puzzle: Board, draws: seq<nat>, start: nat, used: nat)
    requires WellFormed(puzzle) && EmptyCount(puzzle) < 81 && start + 201 <= |draws|
    requires start < used <= start + 201
    requires Rejected(puzzle, draws, start, used - 1) && Accepts(puzzle, draws[used - 1])
    ensures FirstAccept(Verdicts(puzzle, draws, start), 0) == used - 1 - start
  {
    var v := Verdicts(puzzle, draws, start);
    var k := used - 1 - start;
    forall i | 0 <= i < k
      ensures !v[i]
    {
      VerdictAt(puzzle, draws, start, i);
      assert !Accepts(puzzle, draws[start + i]);
    }
    VerdictAt(puzzle, draws, start, k);
    assert start + k == used - 1;
    FirstAcceptAt(v, 0, k);
  }

  /** 201 rejected draws are the round that removes nothing. */
  lemma RoundRejected(puzzle: Board, draws: seq<nat>, start: nat)
    requires WellFormed(puzzle) && EmptyCount(puzzle) < 81 && start + 201 <= |draws|
    requires Rejected(puzzle, draws, start, start + 201)
    ensures Round(puzzle, draws, start) == (puzzle, start + 201)
  {
    var v := Verdicts(puzzle, draws, start);
    forall i | 0 <= i < 201
      ensures !v[i]
    {
      VerdictAt(puzzle, draws, start, i);
      assert !Accepts(puzzle, draws[start + i]);
    }
    FirstAcceptAt(v, 0, 201);
  }

  /** The removal loop as a recursion over the remaining targets: the final
      board and the number of draws used after `targets` more rounds, the
      first taking the draws from `used` on. */
  ghost function Removal(b: Board, targets: nat, draws: seq<nat>, used: nat): (r: (Board, nat))
    requires WellFormed(b) && EmptyCount(b) + targets <= 81 && used + 201 * targets <= |draws|
    ensures WellFormed(r.0) && used + targets <= r.1 <= used + 201 * targets
    decreases targets
  {
    if targets == 0 then (b, used)
    else
      var (nb, u) := Round(b, draws, used);
      Removal(nb, targets - 1, draws, u)
  }

  /** The first of the remaining rounds. */
  lemma RemovalStep(b: Board, targets: nat, draws: seq<nat>, used: nat)
    requires WellFormed(b) && EmptyCount(b) + targets <= 81 && used + 201 * targets <= |draws|
    requires targets > 0
    ensures var (nb, u) := Round(b, draws, used);
      Removal(b, targets, draws, used) == Removal(nb, targets - 1, draws, u)
  {
  }

  /** The state of the attempts for one target after the draws in
      `[start, used)`: every draw but the last was rejected; the clearing is
      kept exactly when the last draw was accepted, and the board is that
      clearing when kept and the old board otherwise. */
  ghost predicate Tried(puzzle: Board, draws: seq<nat>, start: nat, used: nat, next: Board, kept: bool)
    requires WellFormed(puzzle) && EmptyCount(puzzle) < 81
  {
    && start <= used <= |draws|
    && (kept ==> start < used && Rejected(puzzle, draws, start, used - 1)
                 && Accepts(puzzle, draws[used - 1]) && next == ClearPick(puzzle, draws[used - 1]))
    && (!kept ==> Rejected(puzzle, draws, start, used) && next == puzzle)
  }

  /** The attempts for one target removal: at most 201 draws, stopping at
      the first clearing `solve` accepts. Every draw before the last was
      rejected. Either the last draw was accepted, one more cell is empty
      and `solve` accepts the board, or all 201 draws were rejected and the
      board is unchanged. */
  method RemoveOne(puzzle: Board, removed: nat, draws: seq<nat>, start: nat)
    returns (next: Board, removed': nat, used: nat)
    requires WellFormed(puzzle) && EmptyCount(puzzle) == removed < 81
    requires start + 201 <= |draws|
    ensures WellFormed(next) && ClearedFrom(next, puzzle)
    ensures removed <= removed' <= removed + 1 && EmptyCount(next) == removed'
    ensures removed' == removed ==> next == puzzle
    ensures removed' == removed + 1 ==> Solve(next).0
    ensures start < used <= start + 201
    ensures Rejected(puzzle, draws, start, used - 1)
    ensures removed' == removed + 1 <==> Accepts(puzzle, draws[used - 1])
    ensures removed' == removed + 1 ==> next == ClearPick(puzzle, draws[used - 1])
    ensures removed' == removed ==> used == start + 201
    ensures (next, used) == Round(puzzle, draws, start)
  {
    var kept := false;
    next, used := puzzle, start;
    while !kept && used < start + 201
      invariant start <= used <= start + 201
      invariant Tried(puzzle, draws, start, used, next, kept)
      decreases start + 201 - used
    {
      next, kept, used := Retry(puzzle, draws, start, used, next, kept);
    }
    TriedDone(puzzle, draws, start, used, next, kept);
    if kept {
      RoundKept(puzzle, draws, start, used);
    } else {
      RejectedSnoc(puzzle, draws, start, used - 1);
      RoundRejected(puzzle, draws, start);
    }
    removed' := if kept then removed + 1 else removed;
  }

  /** One more attempt after a rejected draw. */
  method Retry(puzzle: Board, draws: seq<nat>, start: nat, used: nat, next0: Board, kept0: bool)
    returns (next: Board, kept: bool, used': nat)
    requires WellFormed(puzzle) && EmptyCount(puzzle) < 81 && start <= used < |draws|
    requires Tried(puzzle, draws, start, used, next0, kept0) && !kept0
    ensures used' == used + 1
    ensures Tried(puzzle, draws, start, used', next, kept)
  {
    next, kept := Attempt(puzzle, draws[used]);
    used' := used + 1;
    if !kept {
      RejectedSnoc(puzzle, draws, start, used);
    }
  }

  /** A rejected draw extends a run of rejections. */
  lemma RejectedSnoc(puzzle: Board, draws: seq<nat>, lo: nat, hi: nat)
    requires WellFormed(puzzle) && EmptyCount(puzzle) < 81 && lo <= hi < |draws|
    requires Rejected(puzzle, draws, lo, hi) && !Accepts(puzzle, draws[hi])
    ensures Rejected(puzzle, draws, lo, hi + 1)
  {
  }

  /** Where the attempts stop: a kept clearing, or 201 rejected draws. */
  lemma TriedDone(puzzle: Board, draws: seq<nat>, start: nat, used: nat, next: Board, kept: bool)
    requires WellFormed(puzzle) && EmptyCount(puzzle) < 81
    requires start <= used <= start + 201 && Tried(puzzle, draws, start, used, next, kept)
    requires !(!kept && used < start + 201)
    ensures start < used
    ensures WellFormed(next) && ClearedFrom(next, puzzle)
    ensures EmptyCount(next) == if kept then EmptyCount(puzzle) + 1 else EmptyCount(puzzle)
    ensures kept ==> Solve(next).0
    ensures Rejected(puzzle, draws, start, used - 1)
    ensures kept <==> Accepts(puzzle, draws[used - 1])
    ensures kept ==> next == ClearPick(puzzle, draws[used - 1])
    ensures !kept ==> next == puzzle && used == start + 201
  {
    if !kept {
      assert !Accepts(puzzle, draws[used - 1]);
    }
  }

  /** The removal loop of `create_sudoku`: for each of the `nToRemove`
      targets, clear a filled cell and keep the clearing when `solve`
      succeeds; otherwise write the value back and try again, giving up on
      the target after 201 attempts. */
  method RemoveCells(full: Board, nToRemove: nat, draws: seq<nat>)
    returns (puzzle: Board, removed: nat, used: nat)
    requires IsSolution(full)
    requires nToRemove <= 81
    requires |draws| >= 201 * nToRemove
    ensures WellFormed(puzzle) && ClearedFrom(puzzle, full) && Extends(full, puzzle)
    ensures removed <= nToRemove && EmptyCount(puzzle) == removed
    ensures nToRemove <= used <= 201 * nToRemove
    ensures Solve(puzzle).0
    ensures IsSolution(Solve(puzzle).1) && Extends(Solve(puzzle).1, puzzle)
    ensures EmptyCount(full) == 0 && (puzzle, used) == Removal(full, nToRemove, draws, 0)
  {
    SolveComplete(full);
    CompleteNoEmpty(full);
    puzzle := full;
    removed, used := 0, 0;
    var n := 0;
    while n < nToRemove
      invariant n <= nToRemove
      invariant Removing(full, nToRemove, draws, n, puzzle, removed, used)
      decreases nToRemove - n
    {
      puzzle, removed, used := RemoveRound(full, nToRemove, draws, n, puzzle, removed, used);
      n := n + 1;
    }
    RemovingDone(full, nToRemove, draws, puzzle, removed, used);
  }

  /** The state of the removal loop after `n` of the `nToRemove` rounds:
      the board is the full grid with `removed` cells cleared, `solve`
      accepts it, at most 201 draws went to each round, and the rounds still
      to come finish what the reference removal computes. */
  ghost predicate Removing(full: Board, nToRemove: nat, draws: seq<nat>, n: nat,
                           puzzle: Board, removed: nat, used: nat)
  {
    && IsSolution(full) && EmptyCount(full) == 0
    && n <= nToRemove <= 81 && |draws| >= 201 * nToRemove
    && WellFormed(puzzle) && ClearedFrom(puzzle, full)
    && removed <= n && EmptyCount(puzzle) == removed
    && n <= used <= 201 * n
    && Solve(puzzle).0
    && Removal(puzzle, nToRemove - n, draws, used) == Removal(full, nToRemove, draws, 0)
  }

  /** One round of the removal loop. */
  method RemoveRound(full: Board, nToRemove: nat, draws: seq<nat>, n: nat,
                     puzzle: Board, removed: nat, used: nat)
    returns (puzzle': Board, removed': nat, used': nat)
    requires n < nToRemove && Removing(full, nToRemove, draws, n, puzzle, removed, used)
    ensures Removing(full, nToRemove, draws, n + 1, puzzle', removed', used')
  {
    RemovalStep(puzzle, nToRemove - n, draws, used);
    puzzle', removed', used' := RemoveOne(puzzle, removed, draws, used);
    ClearedTrans(puzzle', puzzle, full);
  }

  /** What the removal loop state gives once every round has run. */
  lemma RemovingDone(full: Board, nToRemove: nat, draws: seq<nat>, puzzle: Board, removed: nat, used: nat)
    requires Removing(full, nToRemove, draws, nToRemove, puzzle, removed, used)
    ensures WellFormed(puzzle) && ClearedFrom(puzzle, full) && Extends(full, puzzle)
    ensures removed <= nToRemove && EmptyCount(puzzle) == removed
    ensures nToRemove <= used <= 201 * nToRemove
    ensures Solve(puzzle).0
    ensures IsSolution(Solve(puzzle).1) && Extends(Solve(puzzle).1, puzzle)
    ensures EmptyCount(full) == 0 && (puzzle, used) == Removal(full, nToRemove, draws, 0)
  {
    ClearedExtends(puzzle, full);
    SolveSound(puzzle, full);
  }

  /** `create_sudoku` with every random choice a parameter: the top row and
      band orders of `create_filled_in`, and one draw per removal attempt.
      Returns the solved grid, the puzzle, the number of cells removed and
      the number of draws used. */
  method CreateSudoku(toprow: seq<int>, rowPerms: seq<seq<int>>, colPerms: seq<seq<int>>,
                      nToRemove: nat, draws: seq<nat>)
    returns (full: Board, puzzle: Board, removed: nat, used: nat)
    requires DigitPermutation(toprow) && BandPerms(rowPerms) && BandPerms(colPerms)
    requires nToRemove <= 81
    requires |draws| >= 201 * nToRemove
    ensures full == CreateFilledIn(toprow, rowPerms, colPerms) && IsSolution(full)
    ensures WellFormed(puzzle) && ClearedFrom(puzzle, full) && Extends(full, puzzle)
    ensures removed <= nToRemove && EmptyCount(puzzle) == removed
    ensures nToRemove <= used <= 201 * nToRemove
    ensures Solve(puzzle).0
    ensures IsSolution(Solve(puzzle).1) && Extends(Solve(puzzle).1, puzzle)
    ensures EmptyCount(full) == 0 && (puzzle, used) == Removal(full, nToRemove, draws, 0)
  {
    full := CreateFilledIn(toprow, rowPerms, colPerms);
    CreateFilledInSolution(toprow, rowPerms, colPerms);
    puzzle, removed, used := RemoveCells(full, nToRemove, draws);
  }
}
