/** The grid of sudoku_solver.py: a flat row-major sequence of `N * N` cells,
    `N = w * w` (`w_sudoku`, `w_cell`), 0 marking an empty cell. This module
    holds the connectivity index (`get_all_associated_num`) and the
    validators (`check_if_array_correct`, `check_if_sudoku_correct`). */
module SolverGrid {

  import Arith
  import Counting

  /** Side of the grid (`w_sudoku`) for block side `w` (`w_cell`). */
  function Side(w: nat): (n: nat)
    ensures w >= 1 ==> n >= w
  {
    if w == 0 then 0 else Arith.MulAtLeast(w, w); w * w
  }

  /** Number of cells of the flat grid. */
  function Cells(w: nat): nat {
    Side(w) * Side(w)
  }

  predicate IsGrid(g: seq<int>, w: nat) {
    w >= 1 && |g| == Cells(w)
  }

  /** Every cell is empty (0) or holds a value of `1..N`. */
  predicate WellFormed(g: seq<int>, w: nat) {
    IsGrid(g, w) && forall x :: 0 <= x < |g| ==> 0 <= g[x] <= Side(w)
  }

  /** Flat index of row `r`, column `c` (the `sudoku_index` table). */
  function Index(w: nat, r: int, c: int): int {
    r * Side(w) + c
  }

  function RowOf(w: nat, x: int): int
    requires w >= 1
  {
    x / Side(w)
  }

  function ColOf(w: nat, x: int): int
    requires w >= 1
  {
    x % Side(w)
  }

  /** `x` and `y` are different cells that share a row, a column or a
      `w`×`w` block. */
  predicate Related(w: nat, x: int, y: int)
    requires w >= 1
  {
    && 0 <= x < Cells(w) && 0 <= y < Cells(w) && x != y
    && (|| RowOf(w, x) == RowOf(w, y)
        || ColOf(w, x) == ColOf(w, y)
        || (RowOf(w, x) / w == RowOf(w, y) / w && ColOf(w, x) / w == ColOf(w, y) / w))
  }

  lemma IndexCoords(w: nat, r: int, c: int)
    requires w >= 1 && 0 <= r < Side(w) && 0 <= c < Side(w)
    ensures 0 <= Index(w, r, c) < Cells(w)
    ensures RowOf(w, Index(w, r, c)) == r && ColOf(w, Index(w, r, c)) == c
  {
    Arith.IndexInRange(r, c, Side(w));
    Arith.DivMod(r, c, Side(w));
  }

  lemma CoordsIndex(w: nat, x: int)
    requires w >= 1 && 0 <= x < Cells(w)
    ensures 0 <= RowOf(w, x) < Side(w) && 0 <= ColOf(w, x) < Side(w)
    ensures Index(w, RowOf(w, x), ColOf(w, x)) == x
  {
    Arith.Split(x, Side(w));
  }

  /** Row `r` of the block band of row `r` starts at `(r / w) * w`, and the
      band lies inside the grid. */
  lemma BandInGrid(w: nat, r: int)
    requires w >= 1 && 0 <= r < Side(w)
    ensures 0 <= r / w < w
    ensures 0 <= (r / w) * w <= r < (r / w) * w + w <= Side(w)
  {
    Arith.Split(r, w);
    Arith.IndexInRange(r / w, w - 1, w);
  }

  /** `i` lies in the band that starts at `(r / w) * w` exactly when it is
      in the same band as `r`. */
  lemma SameBand(w: nat, r: int, i: int)
    requires w >= 1 && 0 <= r < Side(w) && 0 <= i
    ensures (r / w) * w <= i < (r / w) * w + w <==> i / w == r / w
  {
    BandInGrid(w, r);
    if (r / w) * w <= i < (r / w) * w + w {
      Arith.Band(r / w, i - (r / w) * w, w);
    }
    if i / w == r / w {
      Arith.Split(i, w);
      assert i == (i / w) * w + i % w;
    }
  }

  // ---------------------------------------------------------------------
  // Connectivity index (get_all_associated_num)
  // ---------------------------------------------------------------------

  function RowCheck(w: nat, r: int): set<int> {
    set j | 0 <= j < Side(w) :: Index(w, r, j)
  }

  function ColumnCheck(w: nat, c: int): set<int> {
    set i | 0 <= i < Side(w) :: Index(w, i, c)
  }

  /** The `w`×`w` block containing row `r` and column `c`. */
  function CellCheck(w: nat, r: int, c: int): set<int>
    requires w >= 1
  {
    var xtop := (r / w) * w;
    var ytop := (c / w) * w;
    set i, j | xtop <= i < xtop + w && ytop <= j < ytop + w :: Index(w, i, j)
  }

  lemma AssociatedMembers(w: nat, r: int, c: int)
    requires w >= 1 && 0 <= r < Side(w) && 0 <= c < Side(w)
    ensures forall x ::
      x in (RowCheck(w, r) + ColumnCheck(w, c) + CellCheck(w, r, c))
           - (RowCheck(w, r) * ColumnCheck(w, c) * CellCheck(w, r, c))
           - {Index(w, r, c)}
      <==> Related(w, Index(w, r, c), x)
  {
    var n := Side(w);
    var me := Index(w, r, c);
    var R, C, B := RowCheck(w, r), ColumnCheck(w, c), CellCheck(w, r, c);
    IndexCoords(w, r, c);
    BandInGrid(w, r);
    BandInGrid(w, c);
    forall x | x in R
      ensures 0 <= x < Cells(w) && RowOf(w, x) == r
    {
      var j :| 0 <= j < n && x == Index(w, r, j);
      IndexCoords(w, r, j);
    }
    forall x | x in C
      ensures 0 <= x < Cells(w) && ColOf(w, x) == c
    {
      var i :| 0 <= i < n && x == Index(w, i, c);
      IndexCoords(w, i, c);
    }
    forall x | x in B
      ensures 0 <= x < Cells(w)
      ensures RowOf(w, x) / w == r / w && ColOf(w, x) / w == c / w
    {
      var i, j :| (r / w) * w <= i < (r / w) * w + w && (c / w) * w <= j < (c / w) * w + w
                  && x == Index(w, i, j);
      IndexCoords(w, i, j);
      SameBand(w, r, i);
      SameBand(w, c, j);
    }
    forall x | x in R * C
      ensures x == me
    {
      CoordsIndex(w, x);
    }
    forall x | Related(w, me, x)
      ensures x in R + C + B
    {
      CoordsIndex(w, x);
      var i, j := RowOf(w, x), ColOf(w, x);
      if i == r {
        assert x == Index(w, r, j);
      } else if j == c {
        assert x == Index(w, i, c);
      } else {
        SameBand(w, r, i);
        SameBand(w, c, j);
        assert x == Index(w, i, j);
      }
    }
  }

  /** `get_all_associated_num(r, c)`: the union of the row, the column and
      the block of `(r, c)`, minus their common part and minus `(r, c)`
      itself. The result is exactly the set of cells related to `(r, c)`. */
  function AssociatedIndices(w: nat, r: int, c: int): (s: set<int>)
    requires w >= 1 && 0 <= r < Side(w) && 0 <= c < Side(w)
    ensures forall x :: x in s <==> Related(w, Index(w, r, c), x)
  {
    var rowCheck := RowCheck(w, r);
    var columnCheck := ColumnCheck(w, c);
    var cellCheck := CellCheck(w, r, c);
    AssociatedMembers(w, r, c);
    (rowCheck + columnCheck + cellCheck) - (rowCheck * columnCheck * cellCheck) - {Index(w, r, c)}
  }

  // The peers of (r, c) as coordinate pairs, split into three disjoint parts.

  /** Row `r` without column `c`. */
  function RowPart(w: nat, r: int, c: int): (s: set<(int, int)>)
    ensures forall i, j :: (i, j) in s <==> i == r && 0 <= j < Side(w) && j != c
  {
    set j | 0 <= j < Side(w) && j != c :: (r, j)
  }

  /** Column `c` without row `r`. */
  function ColumnPart(w: nat, r: int, c: int): (s: set<(int, int)>)
    ensures forall i, j :: (i, j) in s <==> j == c && 0 <= i < Side(w) && i != r
  {
    set i | 0 <= i < Side(w) && i != r :: (i, c)
  }

  /** The block of `(r, c)` without row `r` and without column `c`. */
  function BlockPart(w: nat, r: int, c: int): (s: set<(int, int)>)
    requires w >= 1
    ensures forall i, j :: (i, j) in s <==>
      && (r / w) * w <= i < (r / w) * w + w && i != r
      && (c / w) * w <= j < (c / w) * w + w && j != c
  {
    var xtop, ytop := (r / w) * w, (c / w) * w;
    set i, j | xtop <= i < xtop + w && i != r && ytop <= j < ytop + w && j != c :: (i, j)
  }

  lemma RowPartCount(w: nat, r: int, c: int)
    requires 0 <= c < Side(w)
    ensures |RowPart(w, r, c)| == Side(w) - 1
  {
    var cols := Counting.Range(0, Side(w)) - {c};
    var inRow := (j: int) => (r, j);
    Counting.ImageCard(cols, inRow);
    var image := Counting.Image(cols, inRow);
    forall p | p in RowPart(w, r, c)
      ensures p in image
    {
      assert p == inRow(p.1);
    }
    forall p | p in image
      ensures p in RowPart(w, r, c)
    {
      var j :| j in cols && p == inRow(j);
    }
    assert RowPart(w, r, c) == image;
    var all := Counting.Range(0, Side(w));
    assert |all| == Side(w);
    assert c in all;
    assert |cols| == |all| - 1;
    assert |image| == |cols|;
    assert |RowPart(w, r, c)| == |image|;
  }

  lemma ColumnPartCount(w: nat, r: int, c: int)
    requires 0 <= r < Side(w)
    ensures |ColumnPart(w, r, c)| == Side(w) - 1
  {
    var rows := Counting.Range(0, Side(w)) - {r};
    var inColumn := (i: int) => (i, c);
    Counting.ImageCard(rows, inColumn);
    var image := Counting.Image(rows, inColumn);
    forall p | p in ColumnPart(w, r, c)
      ensures p in image
    {
      assert p == inColumn(p.0);
    }
    assert ColumnPart(w, r, c) == image;
    var all := Counting.Range(0, Side(w));
    assert r in all;
  }

  /** The block part of `(r, c)` is the product of the other rows and the
      other columns of its band and stack. */
  lemma BlockPartProduct(w: nat, r: int, c: int, xtop: int, ytop: int)
    requires w >= 1 && xtop == (r / w) * w && ytop == (c / w) * w
    ensures BlockPart(w, r, c) ==
      Counting.Product(Counting.Range(xtop, xtop + w) - {r}, Counting.Range(ytop, ytop + w) - {c})
  {
    var bandRows := Counting.Range(xtop, xtop + w) - {r};
    var bandCols := Counting.Range(ytop, ytop + w) - {c};
    var prod := Counting.Product(bandRows, bandCols);
    forall p | p in BlockPart(w, r, c)
      ensures p in prod
    {
      assert p.0 in bandRows && p.1 in bandCols;
    }
    forall p | p in prod
      ensures p in BlockPart(w, r, c)
    {
      var i, j :| i in bandRows && j in bandCols && p == (i, j);
    }
  }

  lemma BlockPartCount(w: nat, r: int, c: int)
    requires w >= 1 && 0 <= r < Side(w) && 0 <= c < Side(w)
    ensures |BlockPart(w, r, c)| == (w - 1) * (w - 1)
  {
    BandInGrid(w, r);
    BandInGrid(w, c);
    var xtop, ytop := (r / w) * w, (c / w) * w;
    var bandRows := Counting.Range(xtop, xtop + w) - {r};
    var bandCols := Counting.Range(ytop, ytop + w) - {c};
    Counting.RangeWithout(xtop, w, r);
    Counting.RangeWithout(ytop, w, c);
    BlockPartProduct(w, r, c, xtop, ytop);
    Counting.ProductCard(bandRows, bandCols);
  }

  function PeerCoords(w: nat, r: int, c: int): set<(int, int)>
    requires w >= 1
  {
    RowPart(w, r, c) + ColumnPart(w, r, c) + BlockPart(w, r, c)
  }

  lemma PeerCoordsCount(w: nat, r: int, c: int)
    requires w >= 1 && 0 <= r < Side(w) && 0 <= c < Side(w)
    ensures |PeerCoords(w, r, c)| == 3 * Side(w) - 2 * w - 1
  {
    var n := Side(w);
    RowPartCount(w, r, c);
    ColumnPartCount(w, r, c);
    BlockPartCount(w, r, c);
    var tr, tc, tb := RowPart(w, r, c), ColumnPart(w, r, c), BlockPart(w, r, c);
    assert tr !! tc;
    assert tr !! tb;
    assert tc !! tb;
    assert |tr + tc| == 2 * (n - 1);
    assert (w - 1) * (w - 1) == w * w - 2 * w + 1;
  }

  /** Flattening maps the peer coordinates onto the connectivity index. */
  lemma PeerCoordsFlatten(w: nat, r: int, c: int)
    requires w >= 1 && 0 <= r < Side(w) && 0 <= c < Side(w)
    ensures AssociatedIndices(w, r, c) == set p | p in PeerCoords(w, r, c) :: Index(w, p.0, p.1)
  {
    var t := PeerCoords(w, r, c);
    var s := set p | p in t :: Index(w, p.0, p.1);
    var me := Index(w, r, c);
    IndexCoords(w, r, c);
    BandInGrid(w, r);
    BandInGrid(w, c);
    forall x | x in s
      ensures Related(w, me, x)
    {
      var p :| p in t && x == Index(w, p.0, p.1);
      IndexCoords(w, p.0, p.1);
      if p in BlockPart(w, r, c) {
        SameBand(w, r, p.0);
        SameBand(w, c, p.1);
      }
    }
    forall x | Related(w, me, x)
      ensures x in s
    {
      CoordsIndex(w, x);
      var i, j := RowOf(w, x), ColOf(w, x);
      if i != r && j != c {
        SameBand(w, r, i);
        SameBand(w, c, j);
      }
      assert (i, j) in t;
    }
  }

  /** Each cell has `3N - 2w - 1` peers: `N - 1` in its row, `N - 1` in its
      column and `(w - 1)^2` more in its block (20 for the 9×9 grid). */
  lemma AssociatedIndicesCount(w: nat, r: int, c: int)
    requires w >= 1 && 0 <= r < Side(w) && 0 <= c < Side(w)
    ensures |AssociatedIndices(w, r, c)| == 3 * Side(w) - 2 * w - 1
  {
    var t := PeerCoords(w, r, c);
    PeerCoordsCount(w, r, c);
    PeerCoordsFlatten(w, r, c);
    PeerCoordsInGrid(w, r, c);
    var flat := (p: (int, int)) => Index(w, p.0, p.1);
    forall p, q | p in t && q in t && flat(p) == flat(q)
      ensures p == q
    {
      IndexInjective(w, p, q);
    }
    Counting.ImageCard(t, flat);
    assert AssociatedIndices(w, r, c) == Counting.Image(t, flat);
  }

  /** Every peer coordinate pair lies on the grid. */
  lemma PeerCoordsInGrid(w: nat, r: int, c: int)
    requires w >= 1 && 0 <= r < Side(w) && 0 <= c < Side(w)
    ensures forall p | p in PeerCoords(w, r, c) :: 0 <= p.0 < Side(w) && 0 <= p.1 < Side(w)
  {
    BandInGrid(w, r);
    BandInGrid(w, c);
  }

  /** Different cells of the grid have different flat indices. */
  lemma IndexInjective(w: nat, p: (int, int), q: (int, int))
    requires w >= 1 && 0 <= p.0 < Side(w) && 0 <= p.1 < Side(w)
    requires 0 <= q.0 < Side(w) && 0 <= q.1 < Side(w)
    requires Index(w, p.0, p.1) == Index(w, q.0, q.1)
    ensures p == q
  {
    IndexCoords(w, p.0, p.1);
    IndexCoords(w, q.0, q.1);
  }

  // ---------------------------------------------------------------------
  // Validators (check_if_array_correct, check_if_sudoku_correct)
  // ---------------------------------------------------------------------

  /** Number of occurrences of `v` in `a` (one bin of `np.bincount`). */
  function Count(a: seq<int>, v: int): nat
    decreases |a|
  {
    if |a| == 0 then 0 else Count(a[..|a| - 1], v) + (if a[|a| - 1] == v then 1 else 0)
  }

  lemma {:induction false} CountPositive(a: seq<int>, v: int)
    ensures Count(a, v) >= 1 <==> exists i :: 0 <= i < |a| && a[i] == v
    decreases |a|
  {
    if |a| > 0 {
      var p := a[..|a| - 1];
      CountPositive(p, v);
      if exists i :: 0 <= i < |p| && p[i] == v {
        var i :| 0 <= i < |p| && p[i] == v;
        assert a[i] == v;
      }
      if exists i :: 0 <= i < |a| && a[i] == v {
        var i :| 0 <= i < |a| && a[i] == v;
        if i < |p| { assert p[i] == v; }
      }
    }
  }

  lemma {:induction false} CountTwice(a: seq<int>, v: int)
    ensures Count(a, v) >= 2 <==> exists i, j :: 0 <= i < j < |a| && a[i] == v && a[j] == v
    decreases |a|
  {
    if |a| > 0 {
      var n := |a|;
      var p := a[..n - 1];
      CountTwice(p, v);
      CountPositive(p, v);
      if Count(a, v) >= 2 {
        if a[n - 1] == v {
          var i :| 0 <= i < |p| && p[i] == v;
          assert a[i] == v && a[n - 1] == v;
        } else {
          var i, j :| 0 <= i < j < |p| && p[i] == v && p[j] == v;
          assert a[i] == v && a[j] == v;
        }
      }
      if exists i, j :: 0 <= i < j < n && a[i] == v && a[j] == v {
        var i, j :| 0 <= i < j < n && a[i] == v && a[j] == v;
        assert p[i] == v;
        if j < n - 1 { assert p[j] == v; }
      }
    }
  }

  /** No filled (non-zero) value occurs twice. */
  ghost predicate NoRepeats(a: seq<int>) {
    forall i, j :: 0 <= i < |a| && 0 <= j < |a| && i != j && a[i] != 0 ==> a[i] != a[j]
  }

  lemma CountsIffNoRepeats(a: seq<int>)
    ensures (forall v | v in a && v != 0 :: Count(a, v) < 2) <==> NoRepeats(a)
  {
    if !NoRepeats(a) {
      var i, j :| 0 <= i < |a| && 0 <= j < |a| && i != j && a[i] != 0 && a[i] == a[j];
      CountTwice(a, a[i]);
      if i < j { assert a[j] == a[i]; } else { assert a[j] == a[i]; }
    }
    forall v | v in a && v != 0 && Count(a, v) >= 2
      ensures !NoRepeats(a)
    {
      CountTwice(a, v);
    }
  }

  /** `check_if_array_correct`: drop the empty entries, count every value
      and fail as soon as some value is counted twice. The result is true
      exactly when no filled value repeats. */
  function ArrayCorrect(a: seq<int>): (ok: bool)
    ensures ok <==> NoRepeats(a)
  {
    CountsIffNoRepeats(a);
    forall v | v in a && v != 0 :: Count(a, v) < 2
  }

  function Cell(g: seq<int>, w: nat, r: int, c: int): int
    requires IsGrid(g, w) && 0 <= r < Side(w) && 0 <= c < Side(w)
  {
    IndexCoords(w, r, c);
    g[Index(w, r, c)]
  }

  /** Position `t` of block `(bi, bj)`, in the row-major order in which
      `check_if_sudoku_correct` collects a block. */
  lemma BlockCell(w: nat, bi: int, bj: int, t: int)
    requires w >= 1 && 0 <= bi < w && 0 <= bj < w && 0 <= t < Side(w)
    ensures 0 <= bi * w + t / w < Side(w) && 0 <= bj * w + t % w < Side(w)
    ensures (bi * w + t / w) / w == bi && (bj * w + t % w) / w == bj
    ensures (bi * w + t / w) % w == t / w && (bj * w + t % w) % w == t % w
    ensures t == (t / w) * w + t % w
  {
    Arith.Split(t, w);
    Arith.IndexInRange(bi, t / w, w);
    Arith.IndexInRange(bj, t % w, w);
    Arith.Band(bi, t / w, w);
    Arith.Band(bj, t % w, w);
  }

  /** Where cell `(r, c)` sits inside its block. */
  lemma BlockPosition(w: nat, r: int, c: int)
    requires w >= 1 && 0 <= r < Side(w) && 0 <= c < Side(w)
    ensures var t := (r % w) * w + c % w;
      && 0 <= r / w < w && 0 <= c / w < w && 0 <= t < Side(w)
      && (r / w) * w + t / w == r && (c / w) * w + t % w == c
  {
    Arith.Split(r, w);
    Arith.Split(c, w);
    Arith.IndexInRange(r % w, c % w, w);
    Arith.Band(r % w, c % w, w);
    BandInGrid(w, r);
    BandInGrid(w, c);
  }

  function Row(g: seq<int>, w: nat, r: int): seq<int>
    requires IsGrid(g, w) && 0 <= r < Side(w)
  {
    seq(Side(w), j requires 0 <= j < Side(w) => Cell(g, w, r, j))
  }

  function Column(g: seq<int>, w: nat, c: int): seq<int>
    requires IsGrid(g, w) && 0 <= c < Side(w)
  {
    seq(Side(w), i requires 0 <= i < Side(w) => Cell(g, w, i, c))
  }

  /** The values of block `(bi, bj)`, rows `bi*w .. bi*w+w-1` and columns
      `bj*w .. bj*w+w-1`, collected row by row. */
  function Block(g: seq<int>, w: nat, bi: int, bj: int): seq<int>
    requires IsGrid(g, w) && 0 <= bi < w && 0 <= bj < w
  {
    seq(Side(w), t requires 0 <= t < Side(w) =>
      BlockCell(w, bi, bj, t);
      Cell(g, w, bi * w + t / w, bj * w + t % w))
  }

  /** No two related cells hold the same filled value. */
  ghost predicate ConflictFree(g: seq<int>, w: nat)
    requires IsGrid(g, w)
  {
    forall x, y {:trigger Related(w, x, y)} | Related(w, x, y) :: g[x] != 0 ==> g[x] != g[y]
  }

  predicate RowsCorrect(g: seq<int>, w: nat)
    requires IsGrid(g, w)
  {
    forall r | 0 <= r < Side(w) :: ArrayCorrect(Row(g, w, r))
  }

  predicate ColumnsCorrect(g: seq<int>, w: nat)
    requires IsGrid(g, w)
  {
    forall c | 0 <= c < Side(w) :: ArrayCorrect(Column(g, w, c))
  }

  predicate BlocksCorrect(g: seq<int>, w: nat)
    requires IsGrid(g, w)
  {
    forall bi, bj | 0 <= bi < w && 0 <= bj < w :: ArrayCorrect(Block(g, w, bi, bj))
  }

  lemma ConflictFreeUnits(g: seq<int>, w: nat)
    requires IsGrid(g, w) && ConflictFree(g, w)
    ensures RowsCorrect(g, w) && ColumnsCorrect(g, w) && BlocksCorrect(g, w)
  {
    var n := Side(w);
    forall r | 0 <= r < n
      ensures ArrayCorrect(Row(g, w, r))
    {
      var a := Row(g, w, r);
      forall i, j | 0 <= i < n && 0 <= j < n && i != j && a[i] != 0
        ensures a[i] != a[j]
      {
        IndexCoords(w, r, i);
        IndexCoords(w, r, j);
        assert Related(w, Index(w, r, i), Index(w, r, j));
      }
    }
    forall c | 0 <= c < n
      ensures ArrayCorrect(Column(g, w, c))
    {
      var a := Column(g, w, c);
      forall i, j | 0 <= i < n && 0 <= j < n && i != j && a[i] != 0
        ensures a[i] != a[j]
      {
        IndexCoords(w, i, c);
        IndexCoords(w, j, c);
        assert Related(w, Index(w, i, c), Index(w, j, c));
      }
    }
    forall bi, bj | 0 <= bi < w && 0 <= bj < w
      ensures ArrayCorrect(Block(g, w, bi, bj))
    {
      var a := Block(g, w, bi, bj);
      forall s, t | 0 <= s < n && 0 <= t < n && s != t && a[s] != 0
        ensures a[s] != a[t]
      {
        BlockCell(w, bi, bj, s);
        BlockCell(w, bi, bj, t);
        var x := Index(w, bi * w + s / w, bj * w + s % w);
        var y := Index(w, bi * w + t / w, bj * w + t % w);
        IndexCoords(w, bi * w + s / w, bj * w + s % w);
        IndexCoords(w, bi * w + t / w, bj * w + t % w);
        assert Related(w, x, y);
      }
    }
  }

  lemma UnitsConflictFree(g: seq<int>, w: nat)
    requires IsGrid(g, w) && RowsCorrect(g, w) && ColumnsCorrect(g, w) && BlocksCorrect(g, w)
    ensures ConflictFree(g, w)
  {
    forall x, y | Related(w, x, y) && g[x] != 0
      ensures g[x] != g[y]
    {
      CoordsIndex(w, x);
      CoordsIndex(w, y);
      var rx, cx, ry, cy := RowOf(w, x), ColOf(w, x), RowOf(w, y), ColOf(w, y);
      if rx == ry {
        var a := Row(g, w, rx);
        assert a[cx] == g[x] && a[cy] == g[y];
      } else if cx == cy {
        var a := Column(g, w, cx);
        assert a[rx] == g[x] && a[ry] == g[y];
      } else {
        var bi, bj := rx / w, cx / w;
        BlockPosition(w, rx, cx);
        BlockPosition(w, ry, cy);
        var tx, ty := (rx % w) * w + cx % w, (ry % w) * w + cy % w;
        var a := Block(g, w, bi, bj);
        assert a[tx] == g[x];
        assert a[ty] == g[y];
      }
    }
  }

  /** The three unit scans together decide conflict-freedom. */
  lemma UnitsIffConflictFree(g: seq<int>, w: nat)
    requires IsGrid(g, w)
    ensures RowsCorrect(g, w) && ColumnsCorrect(g, w) && BlocksCorrect(g, w) <==> ConflictFree(g, w)
  {
    if ConflictFree(g, w) {
      ConflictFreeUnits(g, w);
    }
    if RowsCorrect(g, w) && ColumnsCorrect(g, w) && BlocksCorrect(g, w) {
      UnitsConflictFree(g, w);
    }
  }

  /** `check_if_sudoku_correct`: scan the rows, then the columns, then the
      blocks, stopping at the first unit that repeats a value. The verdict is
      true exactly when no two related cells hold the same filled value. */
  method CheckSudokuCorrect(g: seq<int>, w: nat) returns (status: bool)
    requires IsGrid(g, w)
    ensures status <==> ConflictFree(g, w)
  {
    var n := Side(w);
    status := true;
    var i := 0;
    while i < n && status
      invariant 0 <= i <= n
      invariant status <==> forall r | 0 <= r < i :: ArrayCorrect(Row(g, w, r))
    {
      status := ArrayCorrect(Row(g, w, i));
      i := i + 1;
    }
    assert status <==> RowsCorrect(g, w);
    if status {
      i := 0;
      while i < n && status
        invariant 0 <= i <= n
        invariant status <==> forall c | 0 <= c < i :: ArrayCorrect(Column(g, w, c))
      {
        status := ArrayCorrect(Column(g, w, i));
        i := i + 1;
      }
    }
    assert status <==> RowsCorrect(g, w) && ColumnsCorrect(g, w);
    if status {
      var bi := 0;
      while bi < w && status
        invariant 0 <= bi <= w
        invariant status <==> forall p, q | 0 <= p < bi && 0 <= q < w :: ArrayCorrect(Block(g, w, p, q))
      {
        var bj := 0;
        while bj < w && status
          invariant 0 <= bj <= w
          invariant status <==>
            && (forall p, q | 0 <= p < bi && 0 <= q < w :: ArrayCorrect(Block(g, w, p, q)))
            && (forall q | 0 <= q < bj :: ArrayCorrect(Block(g, w, bi, q)))
        {
          status := ArrayCorrect(Block(g, w, bi, bj));
          bj := bj + 1;
        }
        bi := bi + 1;
      }
    }
    assert status <==> RowsCorrect(g, w) && ColumnsCorrect(g, w) && BlocksCorrect(g, w);
    UnitsIffConflictFree(g, w);
  }
}
