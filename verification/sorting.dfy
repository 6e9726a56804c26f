/**
 * SQL `ORDER BY`: the rows come back ordered by a total preorder, as some
 * permutation of the unordered result. SQLite compares TEXT with the BINARY
 * collation, which on UTF-8 is code-point order, i.e. `LexLe` below.
 */
module Sorting {

  /** Lexicographic order on strings, character by character. */
  predicate LexLe(a: string, b: string) {
    |a| == 0 || (|b| > 0 && (a[0] < b[0] || (a[0] == b[0] && LexLe(a[1..], b[1..]))))
  }

  lemma {:induction false} LexLeTotal(a: string, b: string)
    ensures LexLe(a, b) || LexLe(b, a)
    decreases |a|
  {
    if |a| > 0 && |b| > 0 && a[0] == b[0] {
      LexLeTotal(a[1..], b[1..]);
    }
  }

  lemma {:induction false} LexLeReflexive(a: string)
    ensures LexLe(a, a)
    decreases |a|
  {
    if |a| > 0 {
      LexLeReflexive(a[1..]);
    }
  }

  ghost predicate Total<T(!new)>(le: (T, T) -> bool) {
    forall a, b :: le(a, b) || le(b, a)
  }

  /** Every neighbour pair is in order. */
  predicate SortedBy<T>(xs: seq<T>, le: (T, T) -> bool) {
    forall i :: 0 < i < |xs| ==> le(xs[i - 1], xs[i])
  }

  function Insert<T(!new)>(x: T, xs: seq<T>, le: (T, T) -> bool): (r: seq<T>)
    requires Total(le)
    requires SortedBy(xs, le)
    ensures SortedBy(r, le)
    ensures multiset(r) == multiset(xs) + multiset{x}
    ensures |r| > 0 && (r[0] == x || (|xs| > 0 && r[0] == xs[0]))
  {
    if |xs| == 0 then [x]
    else if le(x, xs[0]) then [x] + xs
    else
      var rest := Insert(x, xs[1..], le);
      assert xs == [xs[0]] + xs[1..];
      [xs[0]] + rest
  }

  /** Insertion sort: an ordered permutation of `xs`. */
  function SortBy<T(!new)>(xs: seq<T>, le: (T, T) -> bool): (r: seq<T>)
    requires Total(le)
    ensures SortedBy(r, le)
    ensures multiset(r) == multiset(xs)
    ensures |r| == |xs|
  {
    if |xs| == 0 then []
    else
      assert xs == [xs[0]] + xs[1..];
      Insert(xs[0], SortBy(xs[1..], le), le)
  }

  lemma SortedElementsComeFromInput<T(!new)>(xs: seq<T>, le: (T, T) -> bool, y: T)
    requires Total(le)
    ensures y in SortBy(xs, le) <==> y in xs
  {
    var r := SortBy(xs, le);
    assert y in r <==> y in multiset(r);
    assert y in xs <==> y in multiset(xs);
  }
}
