/** Finite sums of real weights over sets, and cardinality facts about
    duplicate-free sequences and pair sets, used by the epidemic model. */
module Sums {

  /** An arbitrary element of a non-empty set; Sum consumes elements in this order. */
  ghost function Pick<T>(s: set<T>): (x: T)
    requires s != {}
    ensures x in s
  {
    var x :| x in s; x
  }

  /** The sum of w over the elements of s. */
  ghost function Sum<T>(s: set<T>, w: map<T, real>): real
    requires s <= w.Keys
  {
    if s == {} then 0.0 else var x := Pick(s); w[x] + Sum(s - {x}, w)
  }

  /** Sum does not depend on the order in which elements are taken:
      any element may be split off first. */
  lemma {:induction false} SumRemove<T>(s: set<T>, w: map<T, real>, y: T)
    requires s <= w.Keys && y in s
    ensures Sum(s, w) == w[y] + Sum(s - {y}, w)
  {
    var x := Pick(s);
    if x != y {
      SumRemove(s - {x}, w, y);
      SumRemove(s - {y}, w, x);
      assert s - {x} - {y} == s - {y} - {x};
    }
  }

  lemma SumSingleton<T>(w: map<T, real>, x: T)
    requires x in w
    ensures Sum({x}, w) == w[x]
  {
    SumRemove({x}, w, x);
  }

  /** The sum over a disjoint union is the sum of the two sums. */
  lemma {:induction false} SumUnion<T>(a: set<T>, b: set<T>, w: map<T, real>)
    requires a <= w.Keys && b <= w.Keys && a !! b
    ensures Sum(a + b, w) == Sum(a, w) + Sum(b, w)
    decreases |b|
  {
    if b == {} {
      assert a + b == a;
    } else {
      var y := Pick(b);
      SumRemove(a + b, w, y);
      assert (a + b) - {y} == a + (b - {y});
      SumUnion(a, b - {y}, w);
      SumRemove(b, w, y);
    }
  }

  /** A sum of values that are all at least lo is at least |s|*lo. */
  lemma {:induction false} SumAtLeast<T>(s: set<T>, w: map<T, real>, lo: real)
    requires s <= w.Keys
    requires forall x :: x in s ==> lo <= w[x]
    ensures (|s| as real) * lo <= Sum(s, w)
  {
    if s != {} {
      var x := Pick(s);
      SumAtLeast(s - {x}, w, lo);
      ScaleStep(|s - {x}| as real, lo);
    }
  }

  /** A sum of values that are all at most hi is at most |s|*hi. */
  lemma {:induction false} SumAtMost<T>(s: set<T>, w: map<T, real>, hi: real)
    requires s <= w.Keys
    requires forall x :: x in s ==> w[x] <= hi
    ensures Sum(s, w) <= (|s| as real) * hi
  {
    if s != {} {
      var x := Pick(s);
      SumAtMost(s - {x}, w, hi);
      ScaleStep(|s - {x}| as real, hi);
    }
  }

  lemma ScaleStep(n: real, c: real)
    ensures (n + 1.0) * c == n * c + c
  {
  }

  lemma AppendAssoc<T>(a: seq<T>, b: seq<T>, c: seq<T>)
    ensures a + (b + c) == (a + b) + c
  {
  }

  /** No element occurs twice. */
  ghost predicate Distinct<T>(c: seq<T>) {
    forall i, j :: 0 <= i < j < |c| ==> c[i] != c[j]
  }

  function Elements<T>(c: seq<T>): set<T> {
    set x | x in c
  }

  /** A duplicate-free sequence has as many elements as its set. */
  lemma {:induction false} DistinctCard<T>(c: seq<T>)
    requires Distinct(c)
    ensures |Elements(c)| == |c|
  {
    if c != [] {
      DistinctCard(c[1..]);
      assert Elements(c) == {c[0]} + Elements(c[1..]);
      assert c[0] !in Elements(c[1..]) by {
        forall i | 0 <= i < |c[1..]| ensures c[1..][i] != c[0] {
          assert c[1..][i] == c[i + 1];
        }
      }
    }
  }

  function Row<T>(x: T, b: set<T>): set<(T, T)> {
    set y | y in b :: (x, y)
  }

  lemma {:induction false} RowCard<T>(x: T, b: set<T>)
    ensures |Row(x, b)| == |b|
  {
    if b != {} {
      var y := Pick(b);
      RowCard(x, b - {y});
      assert Row(x, b) == Row(x, b - {y}) + {(x, y)};
    }
  }

  function Grid<T>(a: set<T>, b: set<T>): set<(T, T)> {
    set x, y | x in a && y in b :: (x, y)
  }

  lemma {:induction false} GridCard<T>(a: set<T>, b: set<T>)
    ensures |Grid(a, b)| == |a| * |b|
  {
    if a != {} {
      var x := Pick(a);
      var rest := a - {x};
      GridCard(rest, b);
      RowCard(x, b);
      assert Grid(a, b) == Grid(rest, b) + Row(x, b);
      assert Grid(rest, b) !! Row(x, b);
      assert |a| == |rest| + 1;
      MulStep(|rest|, |b|);
    }
  }

  lemma MulStep(m: nat, n: nat)
    ensures (m + 1) * n == m * n + n
  {
  }

  /** A subset is no larger than its superset. */
  lemma SubsetCard<T>(a: set<T>, b: set<T>)
    requires a <= b
    ensures |a| <= |b|
  {
    assert b == a + (b - a);
  }

  /** A set of ordered pairs over a has at most |a|*|a| elements. */
  lemma PairSetBound<T>(a: set<T>, es: set<(T, T)>)
    requires forall e :: e in es ==> e.0 in a && e.1 in a
    ensures |es| <= |a| * |a|
  {
    GridCard(a, a);
    assert es <= Grid(a, a) by {
      forall e | e in es ensures e in Grid(a, a) {
        assert e == (e.0, e.1);
      }
    }
    assert Grid(a, a) == es + (Grid(a, a) - es);
  }
}
