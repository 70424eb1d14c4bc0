/**
  Generic sequence operations used by the models: filtering (the list
  comprehensions of the Python handlers), duplicate-freedom, and the stable
  comparison sort behind Python's `sorted` and JavaScript's `Array.prototype.sort`.
*/
module Sequences {

  /** `le` is a total preorder: any two elements compare, and comparison chains. */
  ghost predicate TotalPreorder<T(!new)>(le: (T, T) -> bool) {
    && (forall a, b :: le(a, b) || le(b, a))
    && (forall a, b, c :: le(a, b) && le(b, c) ==> le(a, c))
  }

  predicate Sorted<T>(xs: seq<T>, le: (T, T) -> bool) {
    forall i, j :: 0 <= i < j < |xs| ==> le(xs[i], xs[j])
  }

  /** No two elements share a key. */
  predicate DistinctBy<T, K(==)>(xs: seq<T>, key: T -> K) {
    forall i, j :: 0 <= i < j < |xs| ==> key(xs[i]) != key(xs[j])
  }

  /**
    Inserts `x` in front of the first element that is not `le` it. Elements
    that compare equal to `x` stay in front of it, which makes the sort below
    stable.
  */
  function Insert<T>(xs: seq<T>, x: T, le: (T, T) -> bool): (r: seq<T>)
    ensures |r| == |xs| + 1
    ensures multiset(r) == multiset(xs) + multiset{x}
  {
    if |xs| == 0 then [x]
    else if le(xs[0], x) then
      assert xs == [xs[0]] + xs[1..];
      [xs[0]] + Insert(xs[1..], x, le)
    else [x] + xs
  }

  /** Stable insertion sort: the elements are taken in list order. */
  function Sort<T>(xs: seq<T>, le: (T, T) -> bool): (r: seq<T>)
    ensures |r| == |xs|
    ensures multiset(r) == multiset(xs)
  {
    if |xs| == 0 then []
    else
      assert xs == xs[..|xs| - 1] + [xs[|xs| - 1]];
      Insert(Sort(xs[..|xs| - 1], le), xs[|xs| - 1], le)
  }

  lemma InsertMembers<T>(xs: seq<T>, x: T, le: (T, T) -> bool)
    ensures forall y :: y in Insert(xs, x, le) <==> y in xs || y == x
  {
    var r := Insert(xs, x, le);
    forall y ensures y in r <==> y in xs || y == x {
      assert y in r <==> y in multiset(r);
      assert y in xs <==> y in multiset(xs);
    }
  }

  lemma {:induction false} InsertSorted<T(!new)>(xs: seq<T>, x: T, le: (T, T) -> bool)
    requires TotalPreorder(le)
    requires Sorted(xs, le)
    ensures Sorted(Insert(xs, x, le), le)
  {
    if |xs| > 0 && le(xs[0], x) {
      var tail := Insert(xs[1..], x, le);
      InsertSorted(xs[1..], x, le);
      InsertMembers(xs[1..], x, le);
      var r := [xs[0]] + tail;
      forall i, j | 0 <= i < j < |r| ensures le(r[i], r[j]) {
        if i == 0 {
          assert r[j] in tail;
          assert r[j] in xs[1..] || r[j] == x;
        }
      }
    } else if |xs| > 0 {
      var r := [x] + xs;
      forall i, j | 0 <= i < j < |r| ensures le(r[i], r[j]) {
        if i == 0 {
          assert le(xs[0], r[j]) || j == 1;
        }
      }
    }
  }

  lemma {:induction false} SortSorted<T(!new)>(xs: seq<T>, le: (T, T) -> bool)
    requires TotalPreorder(le)
    ensures Sorted(Sort(xs, le), le)
  {
    if |xs| > 0 {
      SortSorted(xs[..|xs| - 1], le);
      InsertSorted(Sort(xs[..|xs| - 1], le), xs[|xs| - 1], le);
    }
  }

  lemma {:induction false} InsertDistinctBy<T(!new), K>(xs: seq<T>, x: T, le: (T, T) -> bool, key: T -> K)
    requires DistinctBy(xs, key)
    requires forall y :: y in xs ==> key(y) != key(x)
    ensures DistinctBy(Insert(xs, x, le), key)
  {
    if |xs| > 0 && le(xs[0], x) {
      InsertDistinctBy(xs[1..], x, le, key);
      InsertMembers(xs[1..], x, le);
      var tail := Insert(xs[1..], x, le);
      var r := [xs[0]] + tail;
      forall i, j | 0 <= i < j < |r| ensures key(r[i]) != key(r[j]) {
        if i == 0 {
          assert r[j] in tail;
          assert r[j] in xs[1..] || r[j] == x;
          if r[j] in xs[1..] {
            var k :| 0 <= k < |xs[1..]| && xs[1..][k] == r[j];
            assert key(xs[0]) != key(xs[k + 1]);
          } else {
            assert xs[0] in xs;
          }
        } else {
          assert r[i] == tail[i - 1] && r[j] == tail[j - 1];
        }
      }
    } else if |xs| > 0 {
      var r := [x] + xs;
      forall i, j | 0 <= i < j < |r| ensures key(r[i]) != key(r[j]) {
        if i == 0 {
          assert r[j] in xs;
        } else {
          assert r[i] == xs[i - 1] && r[j] == xs[j - 1];
        }
      }
    }
  }

  /** Sorting keeps keys distinct. */
  lemma {:induction false} SortDistinctBy<T(!new), K>(xs: seq<T>, le: (T, T) -> bool, key: T -> K)
    requires DistinctBy(xs, key)
    ensures DistinctBy(Sort(xs, le), key)
  {
    if |xs| > 0 {
      var init := xs[..|xs| - 1];
      var last := xs[|xs| - 1];
      assert DistinctBy(init, key);
      SortDistinctBy(init, le, key);
      forall y | y in Sort(init, le) ensures key(y) != key(last) {
        assert y in multiset(Sort(init, le));
        var k :| 0 <= k < |init| && init[k] == y;
      }
      InsertDistinctBy(Sort(init, le), last, le, key);
    }
  }

  /** The elements satisfying `p`, in list order (a list comprehension with a condition). */
  function Filter<T>(xs: seq<T>, p: T -> bool): (r: seq<T>)
    ensures |r| <= |xs|
    ensures forall y :: y in r ==> y in xs && p(y)
  {
    if |xs| == 0 then []
    else if p(xs[0]) then [xs[0]] + Filter(xs[1..], p)
    else Filter(xs[1..], p)
  }

  /** Filtering distributes over concatenation, so the kept elements stay in order. */
  lemma {:induction false} FilterConcat<T>(xs: seq<T>, ys: seq<T>, p: T -> bool)
    ensures Filter(xs + ys, p) == Filter(xs, p) + Filter(ys, p)
  {
    if |xs| > 0 {
      assert (xs + ys)[1..] == xs[1..] + ys;
      FilterConcat(xs[1..], ys, p);
    } else {
      assert xs + ys == ys;
    }
  }

  /** Every element satisfying `p` is kept as often as it occurs; the others are dropped. */
  lemma {:induction false} FilterCount<T>(xs: seq<T>, p: T -> bool, y: T)
    ensures multiset(Filter(xs, p))[y] == if p(y) then multiset(xs)[y] else 0
  {
    if |xs| > 0 {
      FilterCount(xs[1..], p, y);
      assert xs == [xs[0]] + xs[1..];
    }
  }

  /** An element is kept exactly when it occurs and satisfies `p`. */
  lemma FilterMembers<T>(xs: seq<T>, p: T -> bool)
    ensures forall y :: y in Filter(xs, p) <==> y in xs && p(y)
  {
    forall y ensures y in Filter(xs, p) <==> y in xs && p(y) {
      FilterCount(xs, p, y);
      assert y in Filter(xs, p) <==> y in multiset(Filter(xs, p));
      assert y in xs <==> y in multiset(xs);
    }
  }

  /** The first kept element is the first element of the list satisfying `p`. */
  lemma {:induction false} FilterHead<T>(xs: seq<T>, p: T -> bool)
    ensures |Filter(xs, p)| > 0 <==> exists i :: 0 <= i < |xs| && p(xs[i])
    ensures |Filter(xs, p)| > 0 ==>
              exists i :: 0 <= i < |xs| && p(xs[i]) && Filter(xs, p)[0] == xs[i]
                && forall j :: 0 <= j < i ==> !p(xs[j])
  {
    if |xs| > 0 && !p(xs[0]) {
      FilterHead(xs[1..], p);
      if exists i :: 0 <= i < |xs| && p(xs[i]) {
        var i :| 0 <= i < |xs| && p(xs[i]);
        assert xs[1..][i - 1] == xs[i];
      }
      if |Filter(xs, p)| > 0 {
        var i :| 0 <= i < |xs[1..]| && p(xs[1..][i]) && Filter(xs[1..], p)[0] == xs[1..][i]
                 && forall j :: 0 <= j < i ==> !p(xs[1..][j]);
        assert forall j :: 1 <= j < i + 1 ==> xs[j] == xs[1..][j - 1];
      }
    } else if |xs| > 0 {
      assert p(xs[0]);
    }
  }
}
