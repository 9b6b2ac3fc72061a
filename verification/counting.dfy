/** Frequency counting, the shape shared by pandas' `value_counts`, a boolean
    column's `.sum()` and `groupby(...).size()`. */
module Counting {

  /** Number of occurrences of `x` in `xs`. */
  function Occ<T(==)>(xs: seq<T>, x: T): nat
  {
    if |xs| == 0 then 0
    else Occ(xs[..|xs| - 1], x) + (if xs[|xs| - 1] == x then 1 else 0)
  }

  function Sum(ns: seq<nat>): nat
  {
    if |ns| == 0 then 0 else Sum(ns[..|ns| - 1]) + ns[|ns| - 1]
  }

  /** The count of each key, in the keys' order. */
  function OccAll<T(==)>(xs: seq<T>, keys: seq<T>): (r: seq<nat>)
    ensures |r| == |keys|
  {
    seq(|keys|, i requires 0 <= i < |keys| => Occ(xs, keys[i]))
  }

  predicate NoDuplicates<T(==)>(s: seq<T>)
  {
    forall i, j :: 0 <= i < j < |s| ==> s[i] != s[j]
  }

  /** `xs` with every `k` removed. */
  function Without<T(==,!new)>(xs: seq<T>, k: T): (r: seq<T>)
    ensures forall y :: y in r <==> y in xs && y != k
  {
    if |xs| == 0 then []
    else
      var p := Without(xs[..|xs| - 1], k);
      assert forall y :: y in xs <==> y in xs[..|xs| - 1] || y == xs[|xs| - 1] by {
        assert xs == xs[..|xs| - 1] + [xs[|xs| - 1]];
      }
      if xs[|xs| - 1] == k then p else p + [xs[|xs| - 1]]
  }

  lemma {:induction false} OccPositive<T(!new)>(xs: seq<T>, x: T)
    ensures Occ(xs, x) > 0 <==> x in xs
  {
    if |xs| > 0 {
      OccPositive(xs[..|xs| - 1], x);
      assert xs == xs[..|xs| - 1] + [xs[|xs| - 1]];
    }
  }

  lemma {:induction false} OccAppend<T(!new)>(xs: seq<T>, ys: seq<T>, x: T)
    ensures Occ(xs + ys, x) == Occ(xs, x) + Occ(ys, x)
  {
    if |ys| > 0 {
      assert (xs + ys)[..|xs + ys| - 1] == xs + ys[..|ys| - 1];
      OccAppend(xs, ys[..|ys| - 1], x);
    } else {
      assert xs + ys == xs;
    }
  }

  /** Removing every `k` removes exactly `Occ(xs, k)` elements and leaves the
      counts of the other values alone. */
  lemma {:induction false} WithoutCounts<T(!new)>(xs: seq<T>, k: T)
    ensures |Without(xs, k)| + Occ(xs, k) == |xs|
    ensures forall j :: j != k ==> Occ(Without(xs, k), j) == Occ(xs, j)
  {
    if |xs| > 0 {
      var p := xs[..|xs| - 1];
      WithoutCounts(p, k);
      forall j | j != k
        ensures Occ(Without(xs, k), j) == Occ(xs, j)
      {
        if xs[|xs| - 1] != k {
          OccAppend(Without(p, k), [xs[|xs| - 1]], j);
        }
      }
    }
  }

  lemma FirstIsCovered<T>(xs: seq<T>, keys: seq<T>)
    requires forall x :: x in xs ==> x in keys
    ensures |xs| > 0 ==> xs[0] in keys
  {
  }

  /** Summing the counts of a duplicate-free list of keys that covers every
      value in `xs` gives the length of `xs`: every element is counted once. */
  lemma {:induction false} SumOfCounts<T(!new)>(xs: seq<T>, keys: seq<T>)
    requires NoDuplicates(keys)
    requires forall x :: x in xs ==> x in keys
    ensures Sum(OccAll(xs, keys)) == |xs|
    decreases |keys|
  {
    if |keys| == 0 {
      FirstIsCovered(xs, keys);
    } else {
      var ks := keys[..|keys| - 1];
      var k := keys[|keys| - 1];
      var rest := Without(xs, k);
      WithoutCounts(xs, k);
      assert forall x :: x in rest ==> x in ks by {
        forall x | x in rest
          ensures x in ks
        {
          assert x in keys && x != k;
          var i :| 0 <= i < |keys| && keys[i] == x;
          assert i < |keys| - 1;
          assert ks[i] == x;
        }
      }
      SumOfCounts(rest, ks);
      assert k !in ks;
      assert OccAll(xs, keys)[..|keys| - 1] == OccAll(rest, ks);
    }
  }

  /** The distinct values of `xs`, in order of first occurrence. */
  function Distinct<T(==,!new)>(xs: seq<T>): (r: seq<T>)
    ensures NoDuplicates(r)
    ensures forall x :: x in r <==> x in xs
  {
    if |xs| == 0 then []
    else
      var d := Distinct(xs[..|xs| - 1]);
      var last := xs[|xs| - 1];
      assert forall y :: y in xs <==> y in xs[..|xs| - 1] || y == last by {
        assert xs == xs[..|xs| - 1] + [last];
      }
      if last in d then d else d + [last]
  }

  /** pandas' `value_counts`: each distinct value with its number of
      occurrences. */
  function ValueCounts<T(==,!new)>(xs: seq<T>): (r: seq<(T, nat)>)
    ensures forall x :: x in xs <==> exists i :: 0 <= i < |r| && r[i].0 == x
    ensures forall i, j :: 0 <= i < j < |r| ==> r[i].0 != r[j].0
    ensures forall i :: 0 <= i < |r| ==> r[i].1 == Occ(xs, r[i].0) && r[i].1 > 0
    ensures Sum(Counts(r)) == |xs|
  {
    var keys := Distinct(xs);
    var r := seq(|keys|, i requires 0 <= i < |keys| => (keys[i], Occ(xs, keys[i])));
    assert forall x :: x in xs ==> exists i :: 0 <= i < |r| && r[i].0 == x by {
      forall x | x in xs
        ensures exists i :: 0 <= i < |r| && r[i].0 == x
      {
        var i :| 0 <= i < |keys| && keys[i] == x;
        assert r[i].0 == x;
      }
    }
    assert forall i :: 0 <= i < |r| ==> r[i].1 > 0 by {
      forall i | 0 <= i < |r|
        ensures r[i].1 > 0
      {
        OccPositive(xs, keys[i]);
      }
    }
    SumOfCounts(xs, keys);
    assert Counts(r) == OccAll(xs, keys);
    r
  }

  /** The count column of a `value_counts` result. */
  function Counts<T>(r: seq<(T, nat)>): (c: seq<nat>)
    ensures |c| == |r|
    ensures forall i :: 0 <= i < |r| ==> c[i] == r[i].1
  {
    seq(|r|, i requires 0 <= i < |r| => r[i].1)
  }

  /** A duplicate-free sequence holds each value at most once. */
  lemma {:induction false} MultiplicityAtMostOne<T>(s: seq<T>, x: T)
    requires NoDuplicates(s)
    ensures multiset(s)[x] <= 1
  {
    if |s| > 0 {
      var p := s[..|s| - 1];
      assert s == p + [s[|s| - 1]];
      MultiplicityAtMostOne(p, x);
      if s[|s| - 1] == x {
        assert x !in p;
      }
    }
  }

  /** A value found at two positions has multiplicity at least two. */
  lemma RepeatedMultiplicity<T>(s: seq<T>, i: nat, j: nat)
    requires i < j < |s|
    ensures s[i] == s[j] ==> multiset(s)[s[i]] >= 2
  {
    assert s == s[..j] + [s[j]] + s[j + 1..];
    assert s[i] in s[..j];
  }
}
