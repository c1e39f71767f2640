/** Constraint propagation of sudoku_solver.py: `check_if_one_solution` and
    the fixed-point loop at the start of `solve`. */
module SolverPropagation {

  import opened SolverGrid

  /** `v` may go into cell `x`: it is a value of `1..N` that no related cell holds. */
  ghost predicate Candidate(g: seq<int>, w: nat, x: int, v: int)
    requires IsGrid(g, w)
  {
    1 <= v <= Side(w) && forall y {:trigger Related(w, x, y)} | Related(w, x, y) :: g[y] != v
  }

  /** `v` is the one and only candidate of cell `x`. */
  ghost predicate SingleCandidate(g: seq<int>, w: nat, x: int, v: int)
    requires IsGrid(g, w)
  {
    Candidate(g, w, x, v) && forall u | Candidate(g, w, x, u) :: u == v
  }

  /** The filled values among the peers of cell `x`. */
  function PeerValues(g: seq<int>, w: nat, x: int): (vals: set<int>)
    requires IsGrid(g, w) && 0 <= x < |g|
    ensures forall v :: v in vals <==> v != 0 && exists y :: Related(w, x, y) && g[y] == v
  {
    CoordsIndex(w, x);
    set y | y in AssociatedIndices(w, RowOf(w, x), ColOf(w, x)) && g[y] != 0 :: g[y]
  }

  /** The values of `lo..hi` missing from `vals`, in increasing order (the
      zero bins of the padded `np.bincount`). */
  function Absent(vals: set<int>, lo: int, hi: int): (a: seq<int>)
    ensures forall v :: v in a <==> lo <= v <= hi && v !in vals
    ensures forall i, j :: 0 <= i < j < |a| ==> a[i] < a[j]
    decreases hi - lo + 1
  {
    if lo > hi then []
    else
      var rest := Absent(vals, lo + 1, hi);
      assert forall i | 0 <= i < |rest| :: lo < rest[i] by {
        forall i | 0 <= i < |rest| ensures lo < rest[i] { assert rest[i] in rest; }
      }
      (if lo in vals then [] else [lo]) + rest
  }

  /** `check_if_one_solution(x)`: the value of `1..N` that no peer of `x`
      holds when there is exactly one such value, and 0 otherwise. */
  function OneSolution(g: seq<int>, w: nat, x: int): (v: int)
    requires WellFormed(g, w) && 0 <= x < |g|
    ensures 0 <= v <= Side(w)
    ensures v != 0 ==> SingleCandidate(g, w, x, v)
    ensures v == 0 ==> forall u :: !SingleCandidate(g, w, x, u)
  {
    var absent := Absent(PeerValues(g, w, x), 1, Side(w));
    AbsentAreCandidates(g, w, x);
    if |absent| == 1 then absent[0] else 0
  }

  lemma AbsentAreCandidates(g: seq<int>, w: nat, x: int)
    requires IsGrid(g, w) && 0 <= x < |g|
    ensures var absent := Absent(PeerValues(g, w, x), 1, Side(w));
      && (forall u :: Candidate(g, w, x, u) <==> u in absent)
      && (|absent| == 1 ==> SingleCandidate(g, w, x, absent[0]))
      && (|absent| != 1 ==> forall u :: !SingleCandidate(g, w, x, u))
  {
    var vals := PeerValues(g, w, x);
    var absent := Absent(vals, 1, Side(w));
    forall u
      ensures Candidate(g, w, x, u) <==> u in absent
    {
      if Candidate(g, w, x, u) {
        assert u !in vals;
      }
    }
    if |absent| == 1 {
      assert absent[0] in absent;
    }
    if |absent| > 1 {
      assert absent[0] in absent && absent[1] in absent;
      assert absent[0] < absent[1];
    }
  }

  /** A full grid with no conflict. */
  ghost predicate IsSolution(s: seq<int>, w: nat) {
    && IsGrid(s, w)
    && (forall x | 0 <= x < |s| :: 1 <= s[x] <= Side(w))
    && ConflictFree(s, w)
  }

  /** `s` agrees with every filled cell of `g`. */
  ghost predicate Extends(s: seq<int>, g: seq<int>) {
    |s| == |g| && forall x | 0 <= x < |g| && g[x] != 0 :: s[x] == g[x]
  }

  /** A single candidate is the value every solution puts there. */
  lemma OneSolutionSound(g: seq<int>, w: nat, x: int, s: seq<int>)
    requires WellFormed(g, w) && 0 <= x < |g|
    requires IsSolution(s, w) && Extends(s, g)
    requires OneSolution(g, w, x) != 0
    ensures s[x] == OneSolution(g, w, x)
  {
    forall y | Related(w, x, y)
      ensures g[y] != s[x]
    {
      if g[y] != 0 {
        assert s[y] == g[y];
      }
    }
    assert Candidate(g, w, x, s[x]);
  }

  /** Filling a candidate into an empty cell keeps a grid conflict-free. */
  lemma CommitKeepsConflictFree(g: seq<int>, w: nat, x: int, v: int)
    requires IsGrid(g, w) && 0 <= x < |g| && ConflictFree(g, w) && Candidate(g, w, x, v)
    ensures ConflictFree(g[x := v], w)
  {
    var h := g[x := v];
    forall y, z | Related(w, y, z) && h[y] != 0
      ensures h[y] != h[z]
    {
      if y == x {
        assert Related(w, x, z);
      } else if z == x {
        assert Related(w, x, y) by {
          assert RowOf(w, y) == RowOf(w, z) || ColOf(w, y) == ColOf(w, z)
              || (RowOf(w, y) / w == RowOf(w, z) / w && ColOf(w, y) / w == ColOf(w, z) / w);
        }
      }
    }
  }

  lemma CountUpdate(a: seq<int>, x: int, v: int)
    requires 0 <= x < |a| && a[x] == 0 && v != 0
    ensures Count(a[x := v], 0) == Count(a, 0) - 1
    decreases |a|
  {
    var n := |a|;
    if x < n - 1 {
      assert a[x := v][..n - 1] == a[..n - 1][x := v];
      CountUpdate(a[..n - 1], x, v);
    } else {
      assert a[x := v][..n - 1] == a[..n - 1];
    }
  }

  /** One pass of the propagation loop over cells `k..`: each empty cell
      with a single candidate receives it at once, so later cells of the
      same pass see it. Returns the grid and the number of cells filled. */
  function Pass(g: seq<int>, w: nat, k: int): (res: (seq<int>, nat))
    requires WellFormed(g, w) && 0 <= k <= |g|
    ensures WellFormed(res.0, w)
    ensures forall x | 0 <= x < |g| :: res.0[x] == g[x] || (k <= x && g[x] == 0 && res.0[x] != 0)
    ensures Count(res.0, 0) + res.1 == Count(g, 0)
    ensures res.1 == 0 ==> res.0 == g
    ensures res.1 == 0 ==> forall x {:trigger OneSolution(g, w, x)} | k <= x < |g| && g[x] == 0 :: OneSolution(g, w, x) == 0
    ensures ConflictFree(g, w) ==> ConflictFree(res.0, w)
    decreases |g| - k
  {
    if k == |g| then (g, 0)
    else if g[k] == 0 && OneSolution(g, w, k) != 0 then
      var num := OneSolution(g, w, k);
      var (h, checked) := Pass(g[k := num], w, k + 1);
      PassFillStep(g, w, k, num, h, checked);
      PassFillKeeps(g, w, k, num, h);
      (h, checked + 1)
    else
      var res := Pass(g, w, k + 1);
      PassSkipStep(g, w, k, res);
      res
  }

  /** Filling cell k and passing over the cells after it changes only
      empty cells from k on, and fills one more cell than the rest did. */
  lemma PassFillStep(g: seq<int>, w: nat, k: int, num: int, h: seq<int>, checked: nat)
    requires WellFormed(g, w) && 0 <= k < |g| && g[k] == 0 && 1 <= num <= Side(w)
    requires |h| == |g|
    requires forall x | 0 <= x < |g| :: h[x] == g[k := num][x] || (k + 1 <= x && g[k := num][x] == 0 && h[x] != 0)
    requires Count(h, 0) + checked == Count(g[k := num], 0)
    ensures forall x | 0 <= x < |g| :: h[x] == g[x] || (k <= x && g[x] == 0 && h[x] != 0)
    ensures Count(h, 0) + (checked + 1) == Count(g, 0)
  {
    CountUpdate(g, k, num);
  }

  /** Filling cell k with a candidate keeps a conflict-free grid
      conflict-free, and so does the rest of the pass. */
  lemma PassFillKeeps(g: seq<int>, w: nat, k: int, num: int, h: seq<int>)
    requires IsGrid(g, w) && 0 <= k < |g| && Candidate(g, w, k, num)
    requires IsGrid(h, w)
    requires ConflictFree(g[k := num], w) ==> ConflictFree(h, w)
    ensures ConflictFree(g, w) ==> ConflictFree(h, w)
  {
    if ConflictFree(g, w) {
      CommitKeepsConflictFree(g, w, k, num);
    }
  }

  /** Skipping cell k: what the pass from k + 1 promises holds from k. */
  lemma PassSkipStep(g: seq<int>, w: nat, k: int, res: (seq<int>, nat))
    requires WellFormed(g, w) && 0 <= k < |g|
    requires g[k] != 0 || OneSolution(g, w, k) == 0
    requires |res.0| == |g|
    requires forall x | 0 <= x < |g| :: res.0[x] == g[x] || (k + 1 <= x && g[x] == 0 && res.0[x] != 0)
    requires res.1 == 0 ==> forall x | k + 1 <= x < |g| && g[x] == 0 :: OneSolution(g, w, x) == 0
    ensures forall x | 0 <= x < |g| :: res.0[x] == g[x] || (k <= x && g[x] == 0 && res.0[x] != 0)
    ensures res.1 == 0 ==> forall x | k <= x < |g| && g[x] == 0 :: OneSolution(g, w, x) == 0
  {
  }

  /** A pass loses no solution: every solution of the grid it starts from is
      a solution of the grid it returns. */
  lemma {:induction false} PassKeepsSolutions(g: seq<int>, w: nat, k: int, s: seq<int>)
    requires WellFormed(g, w) && 0 <= k <= |g|
    requires IsSolution(s, w) && Extends(s, g)
    ensures Extends(s, Pass(g, w, k).0)
    decreases |g| - k
  {
    if k < |g| {
      if g[k] == 0 && OneSolution(g, w, k) != 0 {
        OneSolutionSound(g, w, k, s);
        PassKeepsSolutions(g[k := OneSolution(g, w, k)], w, k + 1, s);
      } else {
        PassKeepsSolutions(g, w, k + 1, s);
      }
    }
  }

  /** Passes from the start of the grid, repeated until one fills nothing:
      the grid the propagation loop of `solve` stops at. */
  ghost function Fixpoint(g: seq<int>, w: nat): (f: seq<int>)
    requires WellFormed(g, w)
    ensures WellFormed(f, w) && Pass(f, w, 0) == (f, 0)
    decreases Count(g, 0)
  {
    var (h, c) := Pass(g, w, 0);
    if c == 0 then g else Fixpoint(h, w)
  }

  /** The propagation loop of `solve`: repeat passes until one fills
      nothing. Only empty cells are written; the result is a fixed point on
      which a further pass changes nothing; no solution is lost and none is
      gained; conflict-freedom is kept. */
  method Propagate(g: seq<int>, w: nat) returns (p: seq<int>)
    requires WellFormed(g, w)
    ensures WellFormed(p, w)
    ensures forall x | 0 <= x < |g| :: p[x] == g[x] || (g[x] == 0 && p[x] != 0)
    ensures forall x | 0 <= x < |p| && p[x] == 0 :: OneSolution(p, w, x) == 0
    ensures Pass(p, w, 0) == (p, 0)
    ensures p == Fixpoint(g, w)
    ensures forall s | IsSolution(s, w) :: Extends(s, g) <==> Extends(s, p)
    ensures ConflictFree(g, w) ==> ConflictFree(p, w)
  {
    p := g;
    while true
      invariant WellFormed(p, w) && |p| == |g|
      invariant forall x | 0 <= x < |g| :: p[x] == g[x] || (g[x] == 0 && p[x] != 0)
      invariant forall s | IsSolution(s, w) && Extends(s, g) :: Extends(s, p)
      invariant ConflictFree(g, w) ==> ConflictFree(p, w)
      invariant Fixpoint(p, w) == Fixpoint(g, w)
      decreases Count(p, 0)
    {
      var (q, checked) := Pass(p, w, 0);
      if checked == 0 {
        break;
      }
      forall s | IsSolution(s, w) && Extends(s, g)
        ensures Extends(s, q)
      {
        PassKeepsSolutions(p, w, 0, s);
      }
      p := q;
    }
  }
}
