/** The creator's complete-grid construction: a permuted top row, eight
    rotations of it, then band-local row and column shuffles. Every random
    choice is a parameter. */
module CreatorBuild {

  import opened CreatorBoard
  import opened CreatorChecks
  import Arith

  /** `shift`: `collections.deque.rotate(k)`, a rotation to the right by
      `k`: entry j of the result is the entry k places before it, wrapping
      around. */
  function Shift(row: seq<int>, k: int): (r: seq<int>)
    ensures |r| == |row|
    ensures forall j | 0 <= j < |row| :: r[j] == row[(j - k) % |row|]
    ensures multiset(r) == multiset(row)
  {
    if |row| == 0 then row
    else
      var n := |row|;
      var m := k % n;
      var r := row[n - m..] + row[..n - m];
      assert row == row[..n - m] + row[n - m..];
      assert forall j | 0 <= j < n :: r[j] == row[(j - k) % n] by {
        forall j | 0 <= j < n
          ensures r[j] == row[(j - k) % n]
        {
          Arith.ModBack(j, k, n);
        }
      }
      r
  }

  /** Rotating right by `k` moves the entry at position i to position
      (i + k) mod n. */
  lemma ShiftMoves(row: seq<int>, k: int, i: int)
    requires 0 <= i < |row|
    ensures Shift(row, k)[(i + k) % |row|] == row[i]
  {
    var n := |row|;
    var j := (i + k) % n;
    Arith.ModSum(i, k, -k, n);
    Arith.DivMod(0, i, n);
    assert (j - k) % n == i;
    assert 0 <= j < n;
  }

  /** The rotations that produce rows 1..8 from the row above. */
  const Shifts: seq<int> := [3, 3, 1, 3, 3, 1, 3, 3]

  /** Row i of the base grid is the top row rotated right by `Offsets[i]`,
      the running sum of `Shifts` modulo 9. */
  const Offsets: seq<int> := [0, 3, 6, 7, 1, 4, 5, 8, 2]

  /** Each offset is the previous one advanced by the previous shift. */
  lemma OffsetStep(i: int)
    requires 1 <= i < 9
    ensures Offsets[i] == (Offsets[i - 1] + Shifts[i - 1]) % 9
  {
    // One case per row, so that each sum is a closed arithmetic fact.
    if i == 1 {
      assert Offsets[1] == (0 + 3) % 9;
    } else if i == 2 {
      assert Offsets[2] == (3 + 3) % 9;
    } else if i == 3 {
      assert Offsets[3] == (6 + 1) % 9;
    } else if i == 4 {
      assert Offsets[4] == (7 + 3) % 9;
    } else if i == 5 {
      assert Offsets[5] == (1 + 3) % 9;
    } else if i == 6 {
      assert Offsets[6] == (4 + 1) % 9;
    } else if i == 7 {
      assert Offsets[7] == (5 + 3) % 9;
    } else {
      assert Offsets[8] == (8 + 3) % 9;
    }
  }

  /** Where column c of row i reads the top row, reached through the row
      above. */
  lemma OffsetIndex(i: int, c: int)
    requires 1 <= i < 9 && 0 <= c < 9
    ensures ((c - Shifts[i - 1]) % 9 - Offsets[i - 1]) % 9 == (c - Offsets[i]) % 9
  {
    OffsetStep(i);
    Arith.ModDiff(c, Shifts[i - 1], Offsets[i - 1], 9);
  }

  /** Rotating a row that reads the top row at offset `Offsets[i - 1]` by
      `Shifts[i - 1]` gives one that reads it at offset `Offsets[i]`. */
  lemma ShiftReads(toprow: seq<int>, prev: seq<int>, i: int, row: seq<int>)
    requires |toprow| == 9 && |prev| == 9 && 1 <= i < 9
    requires forall c | 0 <= c < 9 :: prev[c] == toprow[(c - Offsets[i - 1]) % 9]
    requires row == Shift(prev, Shifts[i - 1])
    ensures forall c | 0 <= c < 9 :: row[c] == toprow[(c - Offsets[i]) % 9]
  {
    forall c | 0 <= c < 9
      ensures row[c] == toprow[(c - Offsets[i]) % 9]
    {
      OffsetIndex(i, c);
      var x := (c - Shifts[i - 1]) % 9;
      assert row[c] == prev[x];
    }
  }

  /** Row i of the grid `create_filled_in` builds before shuffling: the top
      row, then each row the one above rotated by the next entry of
      `Shifts`. Column c reads the top row at (c - Offsets[i]) mod 9. */
  function BaseRow(toprow: seq<int>, i: nat): (row: seq<int>)
    requires |toprow| == 9 && i < 9
    ensures |row| == 9
    ensures forall c | 0 <= c < 9 :: row[c] == toprow[(c - Offsets[i]) % 9]
  {
    if i == 0 then toprow
    else
      var prev := BaseRow(toprow, i - 1);
      var row := Shift(prev, Shifts[i - 1]);
      ShiftReads(toprow, prev, i, row);
      row
  }

  /** Cell (i, c) of the grid of rotated rows: the top row's entry at
      (c - Offsets[i]) mod 9. */
  function BaseCell(toprow: seq<int>, i: int, c: int): int
    requires |toprow| == 9 && 0 <= i < 9
  {
    toprow[(c - Offsets[i]) % 9]
  }

  /** The grid of rotated rows, given directly cell by cell. */
  function BaseGrid(toprow: seq<int>): (b: Board)
    requires |toprow| == 9
    ensures IsBoard(b)
  {
    seq(9, i requires 0 <= i < 9 => seq(9, c => BaseCell(toprow, i, c)))
  }

  /** The first step of `create_filled_in`: the top row and its eight
      successive rotations, which is the grid `BaseGrid` gives directly. */
  function RotatedRows(toprow: seq<int>): (b: Board)
    requires |toprow| == 9
    ensures IsBoard(b) && b[0] == toprow
    ensures b == BaseGrid(toprow)
  {
    var b := seq(9, i requires 0 <= i < 9 => BaseRow(toprow, i));
    var g := BaseGrid(toprow);
    assert b == g by {
      forall i | 0 <= i < 9
        ensures b[i] == g[i]
      {
        forall c | 0 <= c < 9
          ensures b[i][c] == g[i][c]
        {
          assert b[i] == BaseRow(toprow, i);
          assert g[i][c] == BaseCell(toprow, i, c);
        }
      }
    }
    b
  }

  /** A row holding each of 1..9 once, as `random.shuffle(list(range(1, 10)))`
      leaves it. */
  predicate DigitPermutation(row: seq<int>) {
    && |row| == 9
    && (forall j | 0 <= j < 9 :: 1 <= row[j] <= 9)
    && (forall i, j | 0 <= i < j < 9 :: row[i] != row[j])
  }

  /** Two peers of the base grid read different positions of the top row. */
  lemma BasePositions(r1: int, c1: int, r2: int, c2: int)
    requires Peers(r1, c1, r2, c2)
    ensures (c1 - Offsets[r1]) % 9 != (c2 - Offsets[r2]) % 9
  {
    PositionOf(r1, c1);
    PositionOf(r2, c2);
    if r1 == r2 {
    } else if c1 == c2 {
      OffsetsDistinct(r1, r2);
    } else {
      BandOffsets(r1, r2);
      assert -2 <= c1 - c2 <= 2;
    }
  }

  /** The top-row position column c of base row r reads, without `%`. */
  lemma PositionOf(r: int, c: int)
    requires 0 <= r < 9 && 0 <= c < 9
    ensures (c - Offsets[r]) % 9 == if c < Offsets[r] then c - Offsets[r] + 9 else c - Offsets[r]
  {
    assert 0 <= Offsets[r] < 9;
    Arith.ModBack(c, Offsets[r], 9);
  }

  /** No two base rows are rotated by the same amount. */
  lemma OffsetsDistinct(r1: int, r2: int)
    requires 0 <= r1 < 9 && 0 <= r2 < 9 && r1 != r2
    ensures Offsets[r1] != Offsets[r2]
  {
  }

  /** Inside a band of three rows the offsets differ by 3 or 6. */
  lemma BandOffsets(r1: int, r2: int)
    requires 0 <= r1 < 9 && 0 <= r2 < 9 && r1 != r2 && r1 / 3 == r2 / 3
    ensures var d := Offsets[r1] - Offsets[r2]; d == 3 || d == -3 || d == 6 || d == -6
  {
  }

  lemma DistinctEntries(row: seq<int>, i: int, j: int)
    requires DigitPermutation(row) && 0 <= i < 9 && 0 <= j < 9 && i != j
    ensures row[i] != row[j]
  {
    if i > j {
      DistinctEntries(row, j, i);
    }
  }

  /** Two peers of the base grid hold different digits. */
  lemma BasePair(toprow: seq<int>, r1: int, c1: int, r2: int, c2: int)
    requires DigitPermutation(toprow) && Peers(r1, c1, r2, c2)
    ensures BaseGrid(toprow)[r1][c1] != BaseGrid(toprow)[r2][c2]
  {
    BasePositions(r1, c1, r2, c2);
    DistinctEntries(toprow, (c1 - Offsets[r1]) % 9, (c2 - Offsets[r2]) % 9);
  }

  /** For a permuted top row the base grid is a solved sudoku. */
  lemma BaseGridSolution(toprow: seq<int>)
    requires DigitPermutation(toprow)
    ensures IsSolution(BaseGrid(toprow))
  {
    var b := BaseGrid(toprow);
    forall r1, c1, r2, c2 | Peers(r1, c1, r2, c2)
      ensures b[r1][c1] != b[r2][c2]
    {
      BasePair(toprow, r1, c1, r2, c2);
    }
  }

  /** The order `random.shuffle(list(range(lo, lo + 3)))` leaves. */
  predicate BandPerm(perm: seq<int>, lo: int) {
    && |perm| == 3
    && (forall i | 0 <= i < 3 :: lo <= perm[i] < lo + 3)
    && perm[0] != perm[1] && perm[0] != perm[2] && perm[1] != perm[2]
  }

  /** Where entry i of a sequence permuted on positions lo..lo+2 comes from. */
  function Source(perm: seq<int>, lo: int, i: int): int
    requires |perm| == 3
  {
    if lo <= i < lo + 3 then perm[i - lo] else i
  }

  /** The source map of a band-local permutation is a bijection of 0..8
      that keeps every index in its band of three. */
  lemma SourceBijective(perm: seq<int>, lo: int)
    requires 0 <= lo <= 6 && BandPerm(perm, lo)
    ensures forall i | 0 <= i < 9 :: 0 <= Source(perm, lo, i) < 9
    ensures forall i, j | 0 <= i < 9 && 0 <= j < 9 && i != j :: Source(perm, lo, i) != Source(perm, lo, j)
    ensures lo % 3 == 0 ==> forall i | 0 <= i < 9 :: Source(perm, lo, i) / 3 == i / 3
  {
  }

  /** Exchanging two entries keeps the multiset of entries. */
  lemma Swap<T>(s: seq<T>, i: int, j: int)
    requires 0 <= i < |s| && 0 <= j < |s|
    ensures multiset(s[i := s[j]][j := s[i]]) == multiset(s)
  {
  }

  /** Entries lo..lo+2 of `s` rearranged so that entry lo + i is the old
      entry perm[i]; the copy-and-assign loop of `shuffle_rows` and
      `shuffle_columns`. The result is a rearrangement of `s`. */
  function Permute<T>(s: seq<T>, lo: int, perm: seq<int>): (r: seq<T>)
    requires |s| == 9 && 0 <= lo <= 6 && BandPerm(perm, lo)
    ensures |r| == 9
    ensures forall i | 0 <= i < 9 && !(lo <= i < lo + 3) :: r[i] == s[i]
    ensures forall i | 0 <= i < 3 :: r[lo + i] == s[perm[i]]
    ensures multiset(r) == multiset(s)
  {
    var r := s[lo := s[perm[0]]][lo + 1 := s[perm[1]]][lo + 2 := s[perm[2]]];
    var a, b, c := lo, lo + 1, lo + 2;
    assert multiset(r) == multiset(s) by {
      if perm[0] == a && perm[1] == b {
        assert r == s;
      } else if perm[0] == a {
        assert r == s[b := s[c]][c := s[b]];
        Swap(s, b, c);
      } else if perm[0] == b && perm[1] == a {
        assert r == s[a := s[b]][b := s[a]];
        Swap(s, a, b);
      } else if perm[0] == c && perm[2] == a {
        assert r == s[a := s[c]][c := s[a]];
        Swap(s, a, c);
      } else if perm[0] == b {
        var s1 := s[a := s[b]][b := s[a]];
        Swap(s, a, b);
        assert r == s1[b := s1[c]][c := s1[b]];
        Swap(s1, b, c);
      } else {
        var s1 := s[a := s[c]][c := s[a]];
        Swap(s, a, c);
        assert r == s1[b := s1[c]][c := s1[b]];
        Swap(s1, b, c);
      }
    }
    r
  }

  /** Entry i of a permuted sequence is the old entry at `Source`. */
  lemma PermuteSource<T>(s: seq<T>, lo: int, perm: seq<int>, i: int)
    requires |s| == 9 && 0 <= lo <= 6 && BandPerm(perm, lo) && 0 <= i < 9
    ensures 0 <= Source(perm, lo, i) < 9 && Permute(s, lo, perm)[i] == s[Source(perm, lo, i)]
  {
    if lo <= i < lo + 3 {
      assert Permute(s, lo, perm)[lo + (i - lo)] == s[perm[i - lo]];
    }
  }

  /** `shuffle_rows(lo, lo + 2)` with the shuffled index list `perm`. */
  function ShuffleRows(b: Board, lo: int, perm: seq<int>): (r: Board)
    requires IsBoard(b) && 0 <= lo <= 6 && BandPerm(perm, lo)
    ensures IsBoard(r)
    ensures multiset(r) == multiset(b)
    ensures forall i | 0 <= i < 9 && !(lo <= i < lo + 3) :: r[i] == b[i]
    ensures forall i | 0 <= i < 3 :: r[lo + i] == b[perm[i]]
  {
    var r := Permute(b, lo, perm);
    assert forall i | 0 <= i < 9 :: |r[i]| == 9 by {
      forall i | 0 <= i < 9 ensures |r[i]| == 9 {
        PermuteSource(b, lo, perm, i);
      }
    }
    r
  }

  /** `shuffle_columns(lo, lo + 2)` with the shuffled index list `perm`: the
      same rearrangement applied to every row. */
  function ShuffleColumns(b: Board, lo: int, perm: seq<int>): (r: Board)
    requires IsBoard(b) && 0 <= lo <= 6 && BandPerm(perm, lo)
    ensures IsBoard(r)
    ensures forall i | 0 <= i < 9 :: multiset(r[i]) == multiset(b[i])
    ensures forall i, c | 0 <= i < 9 && 0 <= c < 9 && !(lo <= c < lo + 3) :: r[i][c] == b[i][c]
    ensures forall i, j | 0 <= i < 9 && 0 <= j < 3 :: r[i][lo + j] == b[i][perm[j]]
  {
    seq(9, i requires 0 <= i < 9 => Permute(b[i], lo, perm))
  }

  /** Shuffling the rows of one band keeps a solved grid solved. */
  lemma ShuffleRowsSolution(b: Board, lo: int, perm: seq<int>)
    requires IsSolution(b) && 0 <= lo <= 6 && lo % 3 == 0 && BandPerm(perm, lo)
    ensures IsSolution(ShuffleRows(b, lo, perm))
  {
    var r := ShuffleRows(b, lo, perm);
    SourceBijective(perm, lo);
    forall i, c | 0 <= i < 9 && 0 <= c < 9
      ensures r[i][c] == b[Source(perm, lo, i)][c]
    {
      PermuteSource(b, lo, perm, i);
    }
    forall r1, c1, r2, c2 | Peers(r1, c1, r2, c2)
      ensures r[r1][c1] != r[r2][c2]
    {
      assert Peers(Source(perm, lo, r1), c1, Source(perm, lo, r2), c2);
    }
  }

  /** Shuffling the columns of one band keeps a solved grid solved. */
  lemma ShuffleColumnsSolution(b: Board, lo: int, perm: seq<int>)
    requires IsSolution(b) && 0 <= lo <= 6 && lo % 3 == 0 && BandPerm(perm, lo)
    ensures IsSolution(ShuffleColumns(b, lo, perm))
  {
    var r := ShuffleColumns(b, lo, perm);
    SourceBijective(perm, lo);
    forall i, c | 0 <= i < 9 && 0 <= c < 9
      ensures r[i][c] == b[i][Source(perm, lo, c)]
    {
      PermuteSource(b[i], lo, perm, c);
    }
    forall r1, c1, r2, c2 | Peers(r1, c1, r2, c2)
      ensures r[r1][c1] != r[r2][c2]
    {
      var s1, s2 := Source(perm, lo, c1), Source(perm, lo, c2);
      assert Peers(r1, s1, r2, s2);
      assert r[r1][c1] == b[r1][s1] && r[r2][c2] == b[r2][s2];
    }
  }

  /** The shuffle orders `create_filled_in` draws: one per band. */
  predicate BandPerms(perms: seq<seq<int>>) {
    |perms| == 3 && forall k | 0 <= k < 3 :: BandPerm(perms[k], 3 * k)
  }

  /** `create_filled_in` with its random draws as parameters: the permuted
      top row, then one row order and one column order per band. The
      `np.flip` and `np.rot90` calls discard their results, so they leave
      the grid as it is and do not appear here. */
  function CreateFilledIn(toprow: seq<int>, rowPerms: seq<seq<int>>, colPerms: seq<seq<int>>): (b: Board)
    requires |toprow| == 9 && BandPerms(rowPerms) && BandPerms(colPerms)
    ensures IsBoard(b)
  {
    var g := RotatedRows(toprow);
    var g := ShuffleRows(g, 0, rowPerms[0]);
    var g := ShuffleRows(g, 3, rowPerms[1]);
    var g := ShuffleRows(g, 6, rowPerms[2]);
    var g := ShuffleColumns(g, 0, colPerms[0]);
    var g := ShuffleColumns(g, 3, colPerms[1]);
    ShuffleColumns(g, 6, colPerms[2])
  }

  /** For a permuted top row, `create_filled_in` yields a solved grid that
      `check_solution` accepts. */
  lemma CreateFilledInSolution(toprow: seq<int>, rowPerms: seq<seq<int>>, colPerms: seq<seq<int>>)
    requires DigitPermutation(toprow) && BandPerms(rowPerms) && BandPerms(colPerms)
    ensures IsSolution(CreateFilledIn(toprow, rowPerms, colPerms))
    ensures CheckSolution(CreateFilledIn(toprow, rowPerms, colPerms)).Valid?
  {
    var g0 := RotatedRows(toprow);
    BaseGridSolution(toprow);
    var g1 := ShuffleRows(g0, 0, rowPerms[0]);
    ShuffleRowsSolution(g0, 0, rowPerms[0]);
    var g2 := ShuffleRows(g1, 3, rowPerms[1]);
    ShuffleRowsSolution(g1, 3, rowPerms[1]);
    var g3 := ShuffleRows(g2, 6, rowPerms[2]);
    ShuffleRowsSolution(g2, 6, rowPerms[2]);
    var g4 := ShuffleColumns(g3, 0, colPerms[0]);
    ShuffleColumnsSolution(g3, 0, colPerms[0]);
    var g5 := ShuffleColumns(g4, 3, colPerms[1]);
    ShuffleColumnsSolution(g4, 3, colPerms[1]);
    ShuffleColumnsSolution(g5, 6, colPerms[2]);
  }
}
