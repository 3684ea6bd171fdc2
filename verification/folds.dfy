/** Aggregates over finite sets of integer ids, the shapes SQL's MIN, MAX and
    SUM take over a queryset. Each picks the smallest remaining id, which is
    uniquely determined, so the folds are deterministic. */
module Folds {

  /** A non-empty set has a member (stated so that `:|` can use it). */
  lemma HasMember(ids: set<int>)
    ensures ids == {} || exists y :: y in ids
  {
    if forall y :: y !in ids {
      assert ids == {};
    }
  }

  lemma {:induction false} MinExists(ids: set<int>)
    requires ids != {}
    ensures exists m :: m in ids && forall i :: i in ids ==> m <= i
    decreases |ids|
  {
    HasMember(ids);
    var x :| x in ids;
    var rest := ids - {x};
    if rest == {} {
      forall i | i in ids
        ensures x <= i
      {
        assert i !in rest;
      }
    } else {
      MinExists(rest);
      var m :| m in rest && forall i :: i in rest ==> m <= i;
      var least := if x < m then x else m;
      forall i | i in ids
        ensures least <= i
      {
        if i != x {
          assert i in rest;
        }
      }
      assert least in ids;
    }
  }

  lemma {:induction false} MaxExists(ids: set<int>)
    requires ids != {}
    ensures exists m :: m in ids && forall i :: i in ids ==> i <= m
    decreases |ids|
  {
    HasMember(ids);
    var x :| x in ids;
    var rest := ids - {x};
    if rest == {} {
      forall i | i in ids
        ensures i <= x
      {
        assert i !in rest;
      }
    } else {
      MaxExists(rest);
      var m :| m in rest && forall i :: i in rest ==> i <= m;
      var greatest := if m < x then x else m;
      forall i | i in ids
        ensures i <= greatest
      {
        if i != x {
          assert i in rest;
        }
      }
      assert greatest in ids;
    }
  }

  /** The least element of a non-empty set. */
  function Min(ids: set<int>): (m: int)
    requires ids != {}
    ensures m in ids && forall i :: i in ids ==> m <= i
  {
    MinExists(ids);
    var m :| m in ids && forall i :: i in ids ==> m <= i;
    m
  }

  /** The greatest element of a non-empty set. */
  function Max(ids: set<int>): (m: int)
    requires ids != {}
    ensures m in ids && forall i :: i in ids ==> i <= m
  {
    MaxExists(ids);
    var m :| m in ids && forall i :: i in ids ==> i <= m;
    m
  }

  /** The sum of `f` over `ids`. */
  function Sum(ids: set<int>, f: int -> int): int
    decreases |ids|
  {
    if ids == {} then 0 else var m := Min(ids); f(m) + Sum(ids - {m}, f)
  }

  /** Any element may be taken out first: the sum does not depend on the
      order in which the set is walked. */
  lemma {:induction false} SumRemove(ids: set<int>, f: int -> int, x: int)
    requires x in ids
    ensures Sum(ids, f) == f(x) + Sum(ids - {x}, f)
    decreases |ids|
  {
    var m := Min(ids);
    if x != m {
      SumRemove(ids - {m}, f, x);
      assert ids - {m} - {x} == ids - {x} - {m};
      assert Min(ids - {x}) == m;
    }
  }

  lemma {:induction false} SumUnion(a: set<int>, b: set<int>, f: int -> int)
    requires a !! b
    ensures Sum(a + b, f) == Sum(a, f) + Sum(b, f)
    decreases |a|
  {
    if a != {} {
      var m := Min(a);
      SumRemove(a + b, f, m);
      assert (a + b) - {m} == (a - {m}) + b;
      SumUnion(a - {m}, b, f);
    } else {
      assert a + b == b;
    }
  }

  /** Summing a constant counts the set, scaled. */
  lemma {:induction false} SumConstant(ids: set<int>, f: int -> int, c: int)
    requires forall i :: i in ids ==> f(i) == c
    ensures Sum(ids, f) == c * |ids|
    decreases |ids|
  {
    if ids != {} {
      var m := Min(ids);
      SumConstant(ids - {m}, f, c);
    }
  }

  lemma {:induction false} SumNonNegative(ids: set<int>, f: int -> int)
    requires forall i :: i in ids ==> f(i) >= 0
    ensures Sum(ids, f) >= 0
    decreases |ids|
  {
    if ids != {} {
      SumNonNegative(ids - {Min(ids)}, f);
    }
  }

  /** The sum of `f` along a sequence, left to right. */
  function SeqSum(xs: seq<int>, f: int -> int): int
    decreases |xs|
  {
    if xs == [] then 0 else f(xs[0]) + SeqSum(xs[1..], f)
  }

  predicate Distinct<T(==)>(xs: seq<T>) {
    forall i, j :: 0 <= i < j < |xs| ==> xs[i] != xs[j]
  }

  /** Summing a set equals summing any duplicate-free enumeration of it, in
      whatever order the database happens to return the rows. */
  lemma {:induction false} SumOfEnumeration(ids: set<int>, xs: seq<int>, f: int -> int)
    requires Distinct(xs)
    requires ids == set i | 0 <= i < |xs| :: xs[i]
    ensures Sum(ids, f) == SeqSum(xs, f)
    decreases |xs|
  {
    if xs != [] {
      var rest := set i | 0 <= i < |xs[1..]| :: xs[1..][i];
      assert rest == ids - {xs[0]} by {
        forall y | y in ids - {xs[0]} ensures y in rest {
          var i :| 0 <= i < |xs| && xs[i] == y;
          assert xs[1..][i - 1] == y;
        }
      }
      SumRemove(ids, f, xs[0]);
      SumOfEnumeration(rest, xs[1..], f);
    } else {
      assert ids == {};
    }
  }

  /** The values a sequence lists. */
  function Elements(xs: seq<int>): set<int> {
    set i | 0 <= i < |xs| :: xs[i]
  }

  /** A duplicate-free sequence lists as many values as it is long. */
  lemma {:induction false} DistinctCardinality(xs: seq<int>)
    requires Distinct(xs)
    ensures |Elements(xs)| == |xs|
    decreases |xs|
  {
    if xs != [] {
      DistinctCardinality(xs[1..]);
      assert Elements(xs) == Elements(xs[1..]) + {xs[0]} by {
        forall y | y in Elements(xs) ensures y in Elements(xs[1..]) + {xs[0]} {
          var i :| 0 <= i < |xs| && xs[i] == y;
          if i > 0 { assert xs[1..][i - 1] == y; }
        }
      }
      assert xs[0] !in Elements(xs[1..]);
    } else {
      assert Elements(xs) == {};
    }
  }

  /** A subset is no larger than its superset. */
  lemma SubsetCardinality<T>(a: set<T>, b: set<T>)
    requires a <= b
    ensures |a| <= |b|
  {
    assert b == a + (b - a);
  }

  /** A subset as large as its superset is the whole superset. */
  lemma SameSizeSubset<T>(a: set<T>, b: set<T>)
    requires a <= b && |a| == |b|
    ensures a == b
  {
    assert b == a + (b - a);
    assert |b - a| == 0;
  }
}
