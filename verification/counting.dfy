/** Cardinality facts used to count the peers of a cell and to read the
    creator's `len(set(arr)) == len(arr)` test as "no repeats". */
module Counting {

  ghost predicate Distinct<T>(s: seq<T>) {
    forall i, j :: 0 <= i < j < |s| ==> s[i] != s[j]
  }

  /** A sequence with a new head is distinct exactly when its tail is
      distinct and does not hold the head. */
  lemma DistinctCons<T>(x: T, s: seq<T>)
    ensures Distinct([x] + s) <==> Distinct(s) && x !in s
  {
    var t := [x] + s;
    if Distinct(t) {
      forall i, j | 0 <= i < j < |s| ensures s[i] != s[j] {
        assert s[i] == t[i + 1] && s[j] == t[j + 1];
      }
      forall k | 0 <= k < |s|
        ensures s[k] != x
      {
        assert t[0] == x && s[k] == t[k + 1];
      }
    }
    if Distinct(s) && x !in s {
      forall i, j | 0 <= i < j < |t| ensures t[i] != t[j] {
        if i > 0 {
          assert t[i] == s[i - 1] && t[j] == s[j - 1];
        } else {
          assert t[j] == s[j - 1];
        }
      }
    }
  }

  ghost function ToSet<T>(s: seq<T>): set<T> {
    set x | x in s
  }

  /** A sequence has as many distinct elements as entries exactly when no
      entry repeats; otherwise it has fewer. */
  lemma {:induction false} ToSetCard<T>(s: seq<T>)
    ensures |ToSet(s)| <= |s|
    ensures |ToSet(s)| == |s| <==> Distinct(s)
    decreases |s|
  {
    if |s| > 0 {
      var t := s[1..];
      ToSetCard(t);
      assert ToSet(s) == {s[0]} + ToSet(t);
      if s[0] in t {
        assert ToSet(s) == ToSet(t);
        var k :| 0 <= k < |t| && t[k] == s[0];
        assert s[0] == s[k + 1];
      } else {
        assert s[0] !in ToSet(t);
        if Distinct(t) {
          forall i, j | 0 <= i < j < |s|
            ensures s[i] != s[j]
          {
            if i > 0 {
              assert s[i] == t[i - 1] && s[j] == t[j - 1];
            } else {
              assert s[j] == t[j - 1];
            }
          }
        } else {
          var i, j :| 0 <= i < j < |t| && t[i] == t[j];
          assert s[i + 1] == s[j + 1];
        }
      }
    }
  }

  /** The integers of `[lo, hi)`; it has `hi - lo` elements. */
  function Range(lo: int, hi: int): (r: set<int>)
    ensures forall x :: x in r <==> lo <= x < hi
    ensures lo <= hi ==> |r| == hi - lo
    decreases hi - lo
  {
    if hi <= lo then {} else Range(lo, hi - 1) + {hi - 1}
  }

  /** Removing one member of `[lo, lo + n)` leaves `n - 1` integers. */
  lemma RangeWithout(lo: int, n: nat, x: int)
    requires lo <= x < lo + n
    ensures |Range(lo, lo + n) - {x}| == n - 1
  {
    assert x in Range(lo, lo + n);
  }

  ghost function Image<A, B>(s: set<A>, f: A -> B): set<B> {
    set x | x in s :: f(x)
  }

  ghost function Product<A, B>(a: set<A>, b: set<B>): set<(A, B)> {
    set x, y | x in a && y in b :: (x, y)
  }

  /** An injective map keeps the size of a set. */
  lemma {:induction false} ImageCard<A, B>(s: set<A>, f: A -> B)
    requires forall x, y :: x in s && y in s && f(x) == f(y) ==> x == y
    ensures |Image(s, f)| == |s|
    decreases |s|
  {
    if s != {} {
      var a :| a in s;
      var rest := s - {a};
      ImageCard(rest, f);
      assert Image(s, f) == Image(rest, f) + {f(a)};
      assert f(a) !in Image(rest, f);
    }
  }

  /** The Cartesian product of two sets has `|a| * |b|` pairs. */
  lemma {:induction false} ProductCard<A, B>(a: set<A>, b: set<B>)
    ensures |Product(a, b)| == |a| * |b|
    decreases |a|
  {
    if a != {} {
      var x0 :| x0 in a;
      var rest := a - {x0};
      ProductCard(rest, b);
      var pair := (y: B) => (x0, y);
      ImageCard(b, pair);
      ProductSplit(a, b, x0, pair);
      assert |a| == |rest| + 1;
      assert (|rest| + 1) * |b| == |rest| * |b| + |b|;
    }
  }

  /** The product splits into the pairs led by `x0` and those led by the
      rest of `a`, and the two parts do not overlap. */
  lemma ProductSplit<A, B>(a: set<A>, b: set<B>, x0: A, pair: B -> (A, B))
    requires x0 in a
    requires forall y :: pair(y) == (x0, y)
    ensures Product(a, b) == Product(a - {x0}, b) + Image(b, pair)
    ensures Product(a - {x0}, b) !! Image(b, pair)
    ensures |Product(a, b)| == |Product(a - {x0}, b)| + |Image(b, pair)|
  {
    var p, q, row := Product(a, b), Product(a - {x0}, b), Image(b, pair);
    assert p == q + row;
    assert q !! row;
  }
}
