/**
 * ORDER BY ... LIMIT n. Every ordering the queries use is ascending on a pair
 * of numbers (a DESC column is negated), compared lexicographically. Rows
 * with equal keys keep their input order; SQL leaves their order open.
 */
module Ranking {
  import opened Seqs

  datatype Key = Key(primary: real, secondary: real)

  /** Lexicographic order on keys: a total preorder. */
  predicate KeyLe(a: Key, b: Key) {
    a.primary < b.primary || (a.primary == b.primary && a.secondary <= b.secondary)
  }

  predicate SortedBy<T>(s: seq<T>, key: T -> Key) {
    forall i, j :: 0 <= i < j < |s| ==> KeyLe(key(s[i]), key(s[j]))
  }

  /** Insert `x` before the first element it does not come after. */
  function Insert<T>(x: T, s: seq<T>, key: T -> Key): (r: seq<T>)
    ensures multiset(r) == multiset(s) + multiset{x}
  {
    if s == [] then [x]
    else if KeyLe(key(x), key(s[0])) then [x] + s
    else
      assert s == [s[0]] + s[1..];
      [s[0]] + Insert(x, s[1..], key)
  }

  /** Inserting into a sorted list keeps it sorted. */
  lemma {:induction false} InsertSorted<T>(x: T, s: seq<T>, key: T -> Key)
    requires SortedBy(s, key)
    ensures SortedBy(Insert(x, s, key), key)
  {
    if s != [] && !KeyLe(key(x), key(s[0])) {
      var rest := Insert(x, s[1..], key);
      InsertSorted(x, s[1..], key);
      forall y | y in rest ensures KeyLe(key(s[0]), key(y)) {
        assert y in multiset(rest);
        if y != x {
          assert y in multiset(s[1..]);
        }
      }
      var r := [s[0]] + rest;
      forall i, j | 0 <= i < j < |r| ensures KeyLe(key(r[i]), key(r[j])) {
        if i == 0 {
          assert r[j] in rest;
        } else {
          assert r[i] == rest[i - 1] && r[j] == rest[j - 1];
        }
      }
    }
  }

  /** Insertion sort: a permutation of the input, ordered by `key`. */
  function SortBy<T>(s: seq<T>, key: T -> Key): (r: seq<T>)
    ensures multiset(r) == multiset(s)
    ensures |r| == |s|
    ensures SortedBy(r, key)
  {
    if s == [] then []
    else
      assert s == [s[0]] + s[1..];
      InsertSorted(s[0], SortBy(s[1..], key), key);
      Insert(s[0], SortBy(s[1..], key), key)
  }

  /** LIMIT n: the first n rows, or all of them when there are fewer. */
  function Take<T>(s: seq<T>, n: nat): (r: seq<T>)
    ensures |r| == if |s| < n then |s| else n
    ensures forall i :: 0 <= i < |r| ==> r[i] == s[i]
  {
    if |s| <= n then s else s[..n]
  }

  /** A row is in the sorted list exactly when it is in the input. */
  lemma SortByMembers<T>(s: seq<T>, key: T -> Key, x: T)
    ensures x in SortBy(s, key) <==> x in s
  {
    var r := SortBy(s, key);
    assert x in r <==> x in multiset(r);
    assert x in s <==> x in multiset(s);
  }

  /**
   * Top-n of a sorted list: a row left out is only left out because n rows
   * rank at or before it.
   */
  lemma {:induction false} TakeKeepsBest<T>(s: seq<T>, key: T -> Key, n: nat, x: T)
    requires SortedBy(s, key)
    requires x in s && x !in Take(s, n)
    ensures |Take(s, n)| == n
    ensures forall y :: y in Take(s, n) ==> KeyLe(key(y), key(x))
  {
    var r := Take(s, n);
    var j :| 0 <= j < |s| && s[j] == x;
    assert j >= n;
    forall y | y in r ensures KeyLe(key(y), key(x)) {
      var i :| 0 <= i < |r| && r[i] == y;
      assert s[i] == y;
    }
  }

  /** Every row of the first n of the sorted list is an input row. */
  lemma TopMembers<T>(s: seq<T>, key: T -> Key, n: nat)
    ensures forall x :: x in Take(SortBy(s, key), n) ==> x in s
  {
    forall x | x in Take(SortBy(s, key), n) ensures x in s {
      var r := Take(SortBy(s, key), n);
      var i :| 0 <= i < |r| && r[i] == x;
      assert SortBy(s, key)[i] == x;
      SortByMembers(s, key, x);
    }
  }

  /** ORDER BY key LIMIT n: at most n input rows, in key order. */
  function TopN<T>(s: seq<T>, key: T -> Key, n: nat): (r: seq<T>)
    ensures |r| == if |s| < n then |s| else n
    ensures forall x :: x in r ==> x in s
    ensures SortedBy(r, key)
  {
    TopMembers(s, key, n);
    Take(SortBy(s, key), n)
  }

  /** A row that qualifies but is not listed is outranked by n listed rows. */
  lemma TopNComplete<T>(s: seq<T>, key: T -> Key, n: nat, x: T)
    requires x in s && x !in TopN(s, key, n)
    ensures |TopN(s, key, n)| == n
    ensures forall y :: y in TopN(s, key, n) ==> KeyLe(key(y), key(x))
  {
    SortByMembers(s, key, x);
    TakeKeepsBest(SortBy(s, key), key, n, x);
  }

  /** Sorting and cutting off list no row twice when the input lists none twice. */
  lemma TopNNoDuplicates<T>(s: seq<T>, key: T -> Key, n: nat)
    requires NoDuplicates(s)
    ensures NoDuplicates(TopN(s, key, n))
  {
    var sorted := SortBy(s, key);
    PermutationNoDuplicates(s, sorted);
    if n < |sorted| {
      PrefixNoDuplicates(sorted, n);
    }
  }
}
