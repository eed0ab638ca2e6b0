/**
 * Sums and enumerations over finite collections, used to state what the
 * accumulating loops of the multipolygon compute without fixing the order
 * in which a hash map hands out its keys.
 */
module Collections {

  /** No element of `s` occurs twice. */
  ghost predicate Distinct<T>(s: seq<T>) {
    forall i, j :: 0 <= i < j < |s| ==> s[i] != s[j]
  }

  /** The elements of a list, as a set. */
  ghost function Elements<T>(s: seq<T>): set<T> {
    set x | x in s
  }

  /**
   * Sum of `f` over a list. It is peeled from the back, so a loop that walks
   * the list forwards extends the sum one element per step.
   */
  function ListSum<T>(xs: seq<T>, f: T -> int): int {
    if xs == [] then 0 else ListSum(xs[..|xs| - 1], f) + f(xs[|xs| - 1])
  }

  lemma {:induction false} ListSumAppend<T>(xs: seq<T>, ys: seq<T>, f: T -> int)
    ensures ListSum(xs + ys, f) == ListSum(xs, f) + ListSum(ys, f)
    decreases |ys|
  {
    if ys == [] {
      assert xs + ys == xs;
    } else {
      var n := |ys| - 1;
      assert (xs + ys)[..|xs + ys| - 1] == xs + ys[..n];
      ListSumAppend(xs, ys[..n], f);
    }
  }

  /** Taking one element out of a list takes its value out of the sum. */
  lemma {:induction false} ListSumRemoveAt<T>(xs: seq<T>, j: nat, f: T -> int)
    requires j < |xs|
    ensures ListSum(xs, f) == ListSum(xs[..j] + xs[j + 1..], f) + f(xs[j])
  {
    var a, b := xs[..j], xs[j + 1..];
    assert xs == (a + [xs[j]]) + b;
    ListSumAppend(a + [xs[j]], b, f);
    assert (a + [xs[j]])[..|a|] == a;
    assert ListSum(a + [xs[j]], f) == ListSum(a, f) + f(xs[j]);
    ListSumAppend(a, b, f);
  }

  /** A list sum does not depend on the order of the list. */
  lemma {:induction false} ListSumPermutation<T>(xs: seq<T>, ys: seq<T>, f: T -> int)
    requires multiset(xs) == multiset(ys)
    ensures ListSum(xs, f) == ListSum(ys, f)
    decreases |xs|
  {
    if xs == [] {
      assert |ys| == |multiset(ys)| == 0;
    } else {
      var n := |xs| - 1;
      var x := xs[n];
      assert xs == xs[..n] + [x];
      assert x in multiset(ys);
      var j :| 0 <= j < |ys| && ys[j] == x;
      assert ys == ys[..j] + [x] + ys[j + 1..];
      assert multiset(xs[..n]) == multiset(ys[..j] + ys[j + 1..]) by {
        assert multiset(xs) == multiset(xs[..n]) + multiset{x};
        assert multiset(ys) == multiset(ys[..j]) + multiset{x} + multiset(ys[j + 1..]);
        assert multiset(ys[..j] + ys[j + 1..]) == multiset(ys[..j]) + multiset(ys[j + 1..]);
        assert multiset(xs[..n]) == multiset(xs) - multiset{x};
        assert multiset(ys[..j] + ys[j + 1..]) == multiset(ys) - multiset{x};
      }
      ListSumPermutation(xs[..n], ys[..j] + ys[j + 1..], f);
      ListSumRemoveAt(ys, j, f);
    }
  }

  /** Sum of `f` over a finite set, in no particular order. */
  ghost function SumOver<T>(s: set<T>, f: T -> int): int
    decreases s
  {
    if s == {} then 0 else var x :| x in s; SumOver(s - {x}, f) + f(x)
  }

  /** Any element may be taken out first: the set sum is order-independent. */
  lemma {:induction false} SumOverRemove<T>(s: set<T>, f: T -> int, y: T)
    requires y in s
    ensures SumOver(s, f) == SumOver(s - {y}, f) + f(y)
    decreases s
  {
    var x :| x in s && SumOver(s, f) == SumOver(s - {x}, f) + f(x);
    if x != y {
      SumOverRemove(s - {x}, f, y);
      SumOverRemove(s - {y}, f, x);
      assert s - {x} - {y} == s - {y} - {x};
    }
  }

  lemma SumOverSingleton<T>(x: T, f: T -> int)
    ensures SumOver({x}, f) == f(x)
  {
  }

  /** Summing over the union counts the intersection twice. */
  lemma {:induction false} SumOverUnion<T>(a: set<T>, b: set<T>, f: T -> int)
    ensures SumOver(a + b, f) + SumOver(a * b, f) == SumOver(a, f) + SumOver(b, f)
    decreases a
  {
    if a == {} {
      assert a + b == b;
      assert a * b == {};
    } else {
      var x :| x in a;
      var a' := a - {x};
      SumOverUnion(a', b, f);
      SumOverRemove(a, f, x);
      if x in b {
        assert a + b == a' + b;
        assert (a * b) - {x} == a' * b;
        SumOverRemove(a * b, f, x);
      } else {
        assert (a + b) - {x} == a' + b;
        assert a * b == a' * b;
        SumOverRemove(a + b, f, x);
      }
    }
  }

  /** Two functions that agree on `s` have the same sum over it. */
  lemma {:induction false} SumOverCongruent<T>(s: set<T>, f: T -> int, g: T -> int)
    requires forall x :: x in s ==> f(x) == g(x)
    ensures SumOver(s, f) == SumOver(s, g)
    decreases s
  {
    if s != {} {
      var x :| x in s;
      SumOverRemove(s, f, x);
      SumOverRemove(s, g, x);
      SumOverCongruent(s - {x}, f, g);
    }
  }

  /** The sum is additive in the summed function. */
  lemma {:induction false} SumOverAdd<T>(s: set<T>, f: T -> int, g: T -> int, h: T -> int)
    requires forall x :: x in s ==> h(x) == f(x) + g(x)
    ensures SumOver(s, h) == SumOver(s, f) + SumOver(s, g)
    decreases s
  {
    if s != {} {
      var x :| x in s;
      SumOverRemove(s, f, x);
      SumOverRemove(s, g, x);
      SumOverRemove(s, h, x);
      SumOverAdd(s - {x}, f, g, h);
    }
  }

  /** Elements where `f` is zero do not change the sum. */
  lemma SumOverSupport<T>(s: set<T>, t: set<T>, f: T -> int)
    requires t <= s
    requires forall x :: x in s && x !in t ==> f(x) == 0
    ensures SumOver(s, f) == SumOver(t, f)
  {
    SumOverZero(s - t, f);
    SumOverUnion(t, s - t, f);
    assert t + (s - t) == s;
    assert t * (s - t) == {};
  }

  lemma {:induction false} SumOverZero<T>(s: set<T>, f: T -> int)
    requires forall x :: x in s ==> f(x) == 0
    ensures SumOver(s, f) == 0
    decreases s
  {
    if s != {} {
      var x :| x in s;
      SumOverRemove(s, f, x);
      SumOverZero(s - {x}, f);
    }
  }

  /** Over a list without repetitions, the set sum and the list sum agree. */
  lemma {:induction false} SumOverList<T>(xs: seq<T>, f: T -> int)
    requires Distinct(xs)
    ensures SumOver(Elements(xs), f) == ListSum(xs, f)
    decreases |xs|
  {
    if xs != [] {
      var n := |xs| - 1;
      assert Elements(xs) - {xs[n]} == Elements(xs[..n]) by {
        forall y | y in Elements(xs[..n]) ensures y != xs[n] {
          var i :| 0 <= i < n && xs[..n][i] == y;
        }
      }
      SumOverRemove(Elements(xs), f, xs[n]);
      SumOverList(xs[..n], f);
    }
  }

  /** Some listing of a finite set, each element exactly once, in an unspecified order. */
  ghost function Enumerate<T>(s: set<T>): (r: seq<T>)
    ensures |r| == |s| && Distinct(r)
    ensures Elements(r) == s
    decreases s
  {
    if s == {} then []
    else
      var x :| x in s;
      var rest := Enumerate(s - {x});
      assert forall i :: 0 <= i < |rest| ==> rest[i] != x;
      assert Elements(rest + [x]) == Elements(rest) + {x};
      rest + [x]
  }

  /** A list has at most as many distinct elements as entries, and exactly as many iff it repeats none. */
  lemma {:induction false} ElementsCount<T>(xs: seq<T>)
    ensures |Elements(xs)| <= |xs|
    ensures |Elements(xs)| == |xs| <==> Distinct(xs)
    decreases |xs|
  {
    if xs != [] {
      var n := |xs| - 1;
      ElementsCount(xs[..n]);
      assert xs == xs[..n] + [xs[n]];
      assert Elements(xs) == Elements(xs[..n]) + {xs[n]};
      if xs[n] in Elements(xs[..n]) {
        assert Elements(xs) == Elements(xs[..n]);
        var i :| 0 <= i < n && xs[..n][i] == xs[n];
        assert !Distinct(xs);
      } else {
        assert Distinct(xs) <==> Distinct(xs[..n]) by {
          if Distinct(xs[..n]) {
            forall i, j | 0 <= i < j < |xs| ensures xs[i] != xs[j] {
              if j == n {
                assert xs[..n][i] in Elements(xs[..n]);
              } else {
                assert xs[..n][i] != xs[..n][j];
              }
            }
          }
        }
      }
    }
  }

  /** In a list without repetitions every element occurs exactly once. */
  lemma {:induction false} DistinctMultiplicity<T>(xs: seq<T>, x: T)
    requires Distinct(xs)
    ensures multiset(xs)[x] == if x in xs then 1 else 0
    decreases |xs|
  {
    if xs != [] {
      var n := |xs| - 1;
      assert xs == xs[..n] + [xs[n]];
      assert multiset(xs) == multiset(xs[..n]) + multiset{xs[n]};
      DistinctMultiplicity(xs[..n], x);
    }
  }

  /** A subset as large as its superset is the whole superset. */
  lemma SubsetOfSameSize<T>(a: set<T>, b: set<T>)
    requires a <= b && |a| == |b|
    ensures a == b
  {
    assert b == a + (b - a);
    assert |b| == |a| + |b - a|;
  }
}
