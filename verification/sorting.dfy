/** The sorts the two scripts depend on: Python's `sorted` over directory
    names, and the sorted, de-duplicated group keys of a pandas `groupby`. */
module Sorting {

  import opened Lexicographic

  /** Every element's key is at most every later element's key. */
  predicate SortedBy<T>(s: seq<T>, key: T -> string)
  {
    forall i, j :: 0 <= i < j < |s| ==> LessEq(key(s[i]), key(s[j]))
  }

  /** Every element's key is strictly below every later element's key, so
      no key occurs twice. */
  predicate StrictlyAscending(s: seq<string>)
  {
    forall i, j :: 0 <= i < j < |s| ==> Less(s[i], s[j])
  }

  function Id(s: string): string
  {
    s
  }

  /** Insertion of one element into a sorted sequence, before the first
      element whose key is not smaller. */
  function InsertBy<T>(x: T, s: seq<T>, key: T -> string): (r: seq<T>)
    requires SortedBy(s, key)
    ensures SortedBy(r, key)
    ensures multiset(r) == multiset(s) + multiset{x}
    ensures |r| == |s| + 1
  {
    if |s| == 0 then [x]
    else if LessEq(key(x), key(s[0])) then
      assert forall j :: 0 <= j < |s| ==> LessEq(key(x), key(s[j])) by {
        forall j | 0 <= j < |s| {
          LessEqTransitive(key(x), key(s[0]), key(s[j]));
        }
      }
      [x] + s
    else
      var tail := InsertBy(x, s[1..], key);
      assert s == [s[0]] + s[1..];
      LessEqTotal(key(x), key(s[0]));
      assert forall y :: y in tail ==> LessEq(key(s[0]), key(y)) by {
        forall y | y in tail
          ensures LessEq(key(s[0]), key(y))
        {
          assert y in multiset(tail);
          if y != x {
            assert y in multiset(s[1..]);
            assert y in s[1..];
          }
        }
      }
      [s[0]] + tail
  }

  /** Python's `sorted`, as an insertion sort: a sorted permutation. */
  function SortBy<T>(s: seq<T>, key: T -> string): (r: seq<T>)
    ensures SortedBy(r, key)
    ensures multiset(r) == multiset(s)
    ensures |r| == |s|
  {
    if |s| == 0 then []
    else
      assert s == s[..|s| - 1] + [s[|s| - 1]];
      InsertBy(s[|s| - 1], SortBy(s[..|s| - 1], key), key)
  }

  /** Sorting neither adds nor drops a value. */
  lemma SortByKeepsElements<T>(s: seq<T>, key: T -> string)
    ensures forall x :: x in SortBy(s, key) <==> x in s
  {
    var r := SortBy(s, key);
    forall x
      ensures x in r <==> x in s
    {
      assert x in r <==> x in multiset(r);
      assert x in s <==> x in multiset(s);
    }
  }

  /** Collapses runs of equal strings in a sorted sequence, leaving each
      distinct string once, in ascending order. */
  function Dedup(s: seq<string>): (r: seq<string>)
    requires SortedBy(s, Id)
    ensures StrictlyAscending(r)
    ensures forall x :: x in r <==> x in s
    ensures |s| > 0 ==> |r| > 0 && r[0] == s[0]
  {
    if |s| <= 1 then s
    else
      var rest := Dedup(s[1..]);
      assert forall x :: x in s <==> x == s[0] || x in s[1..] by {
        assert s == [s[0]] + s[1..];
      }
      if s[0] == s[1] then rest
      else
        assert Less(s[0], rest[0]);
        assert forall j :: 0 <= j < |rest| ==> Less(s[0], rest[j]) by {
          forall j | 0 <= j < |rest|
            ensures Less(s[0], rest[j])
          {
            if j > 0 {
              LessTransitive(s[0], rest[0], rest[j]);
            }
          }
        }
        [s[0]] + rest
  }
}
