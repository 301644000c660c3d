/** The order of strings, and sorting by it. */
module Ordering {
  import opened Sequences

  /** Lexicographic order. */
  predicate Leq(a: string, b: string)
  {
    a == [] || (b != [] && (a[0] < b[0] || (a[0] == b[0] && Leq(a[1..], b[1..]))))
  }

  /** Which order that is: one string is the beginning of the other, or at the first place
      where they differ the first has the smaller character. */
  lemma {:induction false} LeqMeans(a: string, b: string)
    ensures Leq(a, b) <==> a <= b || exists i :: 0 <= i < |a| && i < |b| && a[..i] == b[..i] && a[i] < b[i]
  {
    if a != [] && b != [] {
      if a[0] == b[0] {
        LeqMeans(a[1..], b[1..]);
        assert a == [a[0]] + a[1..] && b == [b[0]] + b[1..];
        if i :| 0 <= i < |a| && i < |b| && a[..i] == b[..i] && a[i] < b[i] {
          assert a[1..][..i - 1] == a[..i][1..] == b[..i][1..] == b[1..][..i - 1];
          assert a[1..][i - 1] < b[1..][i - 1];
        }
        if i :| 0 <= i < |a| - 1 && i < |b| - 1 && a[1..][..i] == b[1..][..i] && a[1..][i] < b[1..][i] {
          assert a[..i + 1] == [a[0]] + a[1..][..i] == b[..i + 1];
          assert a[i + 1] < b[i + 1];
        }
      } else if a[0] < b[0] {
        assert a[..0] == b[..0];
      } else if i :| 0 <= i < |a| && i < |b| && a[..i] == b[..i] && a[i] < b[i] {
        assert i > 0 ==> a[..i][0] == b[..i][0];
      }
    }
  }

  lemma {:induction false} LeqTotal(a: string, b: string)
    ensures Leq(a, b) || Leq(b, a)
  {
    if a != [] && b != [] && a[0] == b[0] {
      LeqTotal(a[1..], b[1..]);
    }
  }

  lemma {:induction false} LeqAntisymmetric(a: string, b: string)
    requires Leq(a, b) && Leq(b, a)
    ensures a == b
  {
    if a != [] && b != [] {
      LeqAntisymmetric(a[1..], b[1..]);
      assert a == [a[0]] + a[1..] && b == [b[0]] + b[1..];
    }
  }

  lemma {:induction false} LeqTransitive(a: string, b: string, c: string)
    requires Leq(a, b) && Leq(b, c)
    ensures Leq(a, c)
  {
    if a != [] && b != [] && c != [] && a[0] == b[0] == c[0] {
      LeqTransitive(a[1..], b[1..], c[1..]);
    }
  }

  ghost predicate Sorted(xs: seq<string>)
  {
    forall i, j :: 0 <= i < j < |xs| ==> Leq(xs[i], xs[j])
  }

  ghost predicate StrictlyIncreasing(xs: seq<string>)
  {
    forall i, j :: 0 <= i < j < |xs| ==> Leq(xs[i], xs[j]) && xs[i] != xs[j]
  }

  function Insert(x: string, xs: seq<string>): (r: seq<string>)
    ensures multiset(r) == multiset(xs) + multiset{x}
  {
    if xs == [] || Leq(x, xs[0]) then [x] + xs
    else
      assert xs == [xs[0]] + xs[1..];
      [xs[0]] + Insert(x, xs[1..])
  }

  function Sort(xs: seq<string>): (r: seq<string>)
    ensures multiset(r) == multiset(xs)
    ensures |r| == |xs| && forall x :: x in r <==> x in xs
  {
    if xs == [] then []
    else
      assert xs == [xs[0]] + xs[1..];
      var r := Insert(xs[0], Sort(xs[1..]));
      assert |multiset(r)| == |r| && |multiset(xs)| == |xs|;
      assert forall x :: x in r <==> x in multiset(r);
      r
  }

  lemma PrependSorted(x: string, xs: seq<string>)
    requires Sorted(xs) && forall y <- xs :: Leq(x, y)
    ensures Sorted([x] + xs)
  {
  }

  lemma {:induction false} InsertSorts(x: string, xs: seq<string>)
    requires Sorted(xs)
    ensures Sorted(Insert(x, xs))
  {
    if xs == [] {
    } else if Leq(x, xs[0]) {
      forall y <- xs
        ensures Leq(x, y)
      {
        if y != xs[0] {
          LeqTransitive(x, xs[0], y);
        }
      }
      PrependSorted(x, xs);
    } else {
      LeqTotal(x, xs[0]);
      InsertSorts(x, xs[1..]);
      var r := Insert(x, xs[1..]);
      forall y <- r
        ensures Leq(xs[0], y)
      {
        assert y in multiset(r);
        if y != x {
          assert y in multiset(xs[1..]);
          assert y in xs[1..];
        }
      }
      PrependSorted(xs[0], r);
    }
  }

  lemma {:induction false} SortSorts(xs: seq<string>)
    ensures Sorted(Sort(xs))
  {
    if xs != [] {
      SortSorts(xs[1..]);
      InsertSorts(xs[0], Sort(xs[1..]));
    }
  }

  /** A list with the same members the same number of times repeats a member exactly when
      the other does. */
  lemma SameRepeats(xs: seq<string>, ys: seq<string>)
    requires multiset(xs) == multiset(ys)
    ensures Distinct(xs) <==> Distinct(ys)
  {
    CountsDecide(xs);
    CountsDecide(ys);
  }

  lemma {:induction false} CountsDecide(xs: seq<string>)
    ensures Distinct(xs) <==> forall x :: multiset(xs)[x] <= 1
  {
    if xs != [] {
      var t := xs[1..];
      CountsDecide(t);
      assert xs == [xs[0]] + t;
      assert multiset(xs) == multiset(t) + multiset{xs[0]};
      if Distinct(xs) {
        assert Distinct(t);
        assert xs[0] !in t;
        assert multiset(t)[xs[0]] == 0;
        forall x
          ensures multiset(xs)[x] <= 1
        {
          assert multiset(t)[x] <= 1;
        }
      }
      if forall x :: multiset(xs)[x] <= 1 {
        forall x
          ensures multiset(t)[x] <= 1
        {
          assert multiset(xs)[x] <= 1;
        }
        assert multiset(xs)[xs[0]] <= 1;
        assert xs[0] !in multiset(t);
        forall i, j | 0 <= i < j < |xs|
          ensures xs[i] != xs[j]
        {
          assert xs[j] == t[j - 1];
          if i > 0 {
            assert xs[i] == t[i - 1];
          } else {
            assert t[j - 1] in t;
          }
        }
      }
    }
  }
}
