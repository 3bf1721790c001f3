/**
 * Stable sorting by a lexicographic pair-of-integers key, as the
 * `sorted_by_key` calls and the CSR iteration order of the model need it.
 */
module Sorting {

  /** Lexicographic `<=` on pairs of integers. */
  predicate LexLe(a: (int, int), b: (int, int)) {
    a.0 < b.0 || (a.0 == b.0 && a.1 <= b.1)
  }

  predicate SortedBy<T>(s: seq<T>, key: T -> (int, int)) {
    forall a, b :: 0 <= a < b < |s| ==> LexLe(key(s[a]), key(s[b]))
  }

  /** Inserts `x` after every element whose key is not greater than its own. */
  function InsertBy<T>(x: T, s: seq<T>, key: T -> (int, int)): (r: seq<T>)
    requires SortedBy(s, key)
    ensures SortedBy(r, key)
    ensures multiset(r) == multiset(s) + multiset{x}
  {
    if |s| == 0 then [x]
    else if !LexLe(key(s[0]), key(x)) then [x] + s
    else
      var rest := InsertBy(x, s[1..], key);
      ConsSorted(x, s, rest, key);
      [s[0]] + rest
  }

  /** Putting the head back in front of the insertion into the tail. */
  lemma ConsSorted<T>(x: T, s: seq<T>, rest: seq<T>, key: T -> (int, int))
    requires |s| > 0 && SortedBy(s, key) && LexLe(key(s[0]), key(x))
    requires SortedBy(rest, key) && multiset(rest) == multiset(s[1..]) + multiset{x}
    ensures SortedBy([s[0]] + rest, key)
    ensures multiset([s[0]] + rest) == multiset(s) + multiset{x}
  {
    assert s == [s[0]] + s[1..];
    forall b | 0 <= b < |rest|
      ensures LexLe(key(s[0]), key(rest[b]))
    {
      assert rest[b] in multiset(rest);
      if rest[b] != x {
        assert rest[b] in multiset(s[1..]);
        var c :| 0 <= c < |s[1..]| && s[1..][c] == rest[b];
        assert s[c + 1] == rest[b];
      }
    }
  }

  /** Insertion sort; equal keys keep their input order. */
  function SortBy<T>(s: seq<T>, key: T -> (int, int)): (r: seq<T>)
    ensures SortedBy(r, key)
    ensures multiset(r) == multiset(s)
  {
    if |s| == 0 then []
    else
      assert s == s[..|s| - 1] + [s[|s| - 1]];
      InsertBy(s[|s| - 1], SortBy(s[..|s| - 1], key), key)
  }
}
