/**
 * Row-set operations the SQL queries are built from: WHERE (Filter), SUM
 * (SumOf), GROUP BY keys (Distinct).
 */
module Seqs {

  /** The elements that satisfy `keep`, in their original order. */
  function Filter<T(==,!new)>(s: seq<T>, keep: T -> bool): (r: seq<T>)
    ensures |r| <= |s|
    ensures forall x :: x in r <==> x in s && keep(x)
    ensures forall i :: 0 <= i < |r| ==> keep(r[i])
  {
    if s == [] then []
    else if keep(s[0]) then [s[0]] + Filter(s[1..], keep)
    else Filter(s[1..], keep)
  }

  /** Nothing is kept when no element satisfies `keep`. */
  lemma {:induction false} FilterNone<T(!new)>(s: seq<T>, keep: T -> bool)
    requires forall x :: x in s ==> !keep(x)
    ensures Filter(s, keep) == []
  {
    if s != [] {
      assert s[0] in s;
      FilterNone(s[1..], keep);
    }
  }

  /** Filtering a concatenation filters each part. */
  lemma {:induction false} FilterAppend<T(!new)>(s: seq<T>, t: seq<T>, keep: T -> bool)
    ensures Filter(s + t, keep) == Filter(s, keep) + Filter(t, keep)
  {
    if s != [] {
      assert (s + t)[1..] == s[1..] + t;
      FilterAppend(s[1..], t, keep);
    } else {
      assert s + t == t;
    }
  }

  /** Two predicates that agree on the elements select the same subsequence. */
  lemma {:induction false} FilterExt<T(!new)>(s: seq<T>, f: T -> bool, g: T -> bool)
    requires forall x :: x in s ==> f(x) == g(x)
    ensures Filter(s, f) == Filter(s, g)
  {
    if s != [] {
      FilterExt(s[1..], f, g);
    }
  }

  /** SUM over a sequence of rows; 0 for none. */
  function SumOf<T>(s: seq<T>, f: T -> real): real {
    if s == [] then 0.0 else f(s[0]) + SumOf(s[1..], f)
  }

  lemma {:induction false} SumOfAppend<T>(s: seq<T>, t: seq<T>, f: T -> real)
    ensures SumOf(s + t, f) == SumOf(s, f) + SumOf(t, f)
  {
    if s != [] {
      assert (s + t)[1..] == s[1..] + t;
      SumOfAppend(s[1..], t, f);
    } else {
      assert s + t == t;
    }
  }

  /** A pointwise smaller term gives a smaller SUM. */
  lemma {:induction false} SumOfMono<T>(s: seq<T>, f: T -> real, g: T -> real)
    requires forall x :: x in s ==> f(x) <= g(x)
    ensures SumOf(s, f) <= SumOf(s, g)
  {
    if s != [] {
      SumOfMono(s[1..], f, g);
    }
  }

  /** SUM(k * x) == k * SUM(x). */
  lemma {:induction false} SumOfScale<T>(s: seq<T>, f: T -> real, g: T -> real, k: real)
    requires forall x :: x in s ==> g(x) == k * f(x)
    ensures SumOf(s, g) == k * SumOf(s, f)
  {
    if s != [] {
      SumOfScale(s[1..], f, g, k);
    }
  }

  /** SUM(x + y) == SUM(x) + SUM(y). */
  lemma {:induction false} SumOfAdd<T>(s: seq<T>, f: T -> real, g: T -> real, h: T -> real)
    requires forall x :: x in s ==> h(x) == f(x) + g(x)
    ensures SumOf(s, h) == SumOf(s, f) + SumOf(s, g)
  {
    if s != [] {
      SumOfAdd(s[1..], f, g, h);
    }
  }

  /** Summing the projected values is summing the composed term. */
  lemma {:induction false} SumOfMap<T, U>(s: seq<T>, f: T -> U, g: U -> real, h: T -> real)
    requires forall x :: x in s ==> h(x) == g(f(x))
    ensures SumOf(MapSeq(s, f), g) == SumOf(s, h)
  {
    if s != [] {
      assert MapSeq(s, f)[1..] == MapSeq(s[1..], f);
      SumOfMap(s[1..], f, g, h);
    }
  }

  /** Taking one row out of a SUM. */
  lemma SumOfRemove<T>(t: seq<T>, i: nat, f: T -> real)
    requires i < |t|
    ensures SumOf(t, f) == f(t[i]) + SumOf(t[..i] + t[i + 1..], f)
  {
    assert t == t[..i] + ([t[i]] + t[i + 1..]);
    SumOfAppend(t[..i], [t[i]] + t[i + 1..], f);
    SumOfAppend(t[..i], t[i + 1..], f);
    assert ([t[i]] + t[i + 1..])[1..] == t[i + 1..];
  }

  /** Removing matching elements from two permutations of each other leaves permutations. */
  lemma MultisetRemove<T>(s: seq<T>, t: seq<T>, i: nat)
    requires s != [] && i < |t| && t[i] == s[0]
    requires multiset(s) == multiset(t)
    ensures multiset(s[1..]) == multiset(t[..i] + t[i + 1..])
  {
    assert s == [s[0]] + s[1..];
    assert t == t[..i] + [t[i]] + t[i + 1..];
    assert multiset(t) == multiset(t[..i]) + multiset{t[i]} + multiset(t[i + 1..]);
    var rest := t[..i] + t[i + 1..];
    assert multiset(rest) == multiset(t[..i]) + multiset(t[i + 1..]);
    forall x ensures multiset(s[1..])[x] == multiset(rest)[x] {
      assert multiset(s)[x] == multiset{s[0]}[x] + multiset(s[1..])[x];
      assert multiset(t)[x] == multiset{t[i]}[x] + multiset(rest)[x];
    }
  }

  /** A SUM does not depend on the order of the rows. */
  lemma {:induction false} SumOfPermutation<T>(s: seq<T>, t: seq<T>, f: T -> real)
    requires multiset(s) == multiset(t)
    ensures SumOf(s, f) == SumOf(t, f)
    decreases |s|
  {
    if s != [] {
      assert s[0] in multiset(t);
      var i :| 0 <= i < |t| && t[i] == s[0];
      MultisetRemove(s, t, i);
      SumOfPermutation(s[1..], t[..i] + t[i + 1..], f);
      SumOfRemove(t, i, f);
    } else {
      assert |t| == |multiset(t)|;
    }
  }

  /** A SUM of constant terms is the count times the constant. */
  lemma {:induction false} SumOfConst<T>(s: seq<T>, f: T -> real, k: real)
    requires forall x :: x in s ==> f(x) == k
    ensures SumOf(s, f) == |s| as real * k
  {
    if s != [] {
      SumOfConst(s[1..], f, k);
    }
  }

  /** The number of elements satisfying `p`, as SUM(CASE WHEN p THEN 1 ELSE 0 END). */
  function CountWhere<T(==,!new)>(s: seq<T>, p: T -> bool): (n: nat)
    ensures n == |Filter(s, p)|
  {
    if s == [] then 0 else (if p(s[0]) then 1 else 0) + CountWhere(s[1..], p)
  }

  ghost predicate NoDuplicates<T>(s: seq<T>) {
    forall i, j :: 0 <= i < j < |s| ==> s[i] != s[j]
  }

  /** Without duplicates every value occurs at most once. */
  lemma {:induction false} NoDuplicatesCount<T>(s: seq<T>, x: T)
    requires NoDuplicates(s)
    ensures multiset(s)[x] <= 1
  {
    if s != [] {
      assert s == [s[0]] + s[1..];
      assert NoDuplicates(s[1..]) by {
        forall i, j | 0 <= i < j < |s[1..]| ensures s[1..][i] != s[1..][j] {
          assert s[1..][i] == s[i + 1] && s[1..][j] == s[j + 1];
        }
      }
      NoDuplicatesCount(s[1..], x);
      if x == s[0] {
        assert x !in s[1..];
      }
    }
  }

  lemma NoDuplicatesTail<T>(s: seq<T>)
    requires s != [] && NoDuplicates(s)
    ensures NoDuplicates(s[1..]) && s[0] !in s[1..]
  {
    forall i, j | 0 <= i < j < |s[1..]| ensures s[1..][i] != s[1..][j] {
      assert s[1..][i] == s[i + 1] && s[1..][j] == s[j + 1];
    }
  }

  /** Filtering keeps a sequence free of duplicates. */
  lemma {:induction false} FilterNoDuplicates<T(!new)>(s: seq<T>, keep: T -> bool)
    requires NoDuplicates(s)
    ensures NoDuplicates(Filter(s, keep))
  {
    if s != [] {
      NoDuplicatesTail(s);
      FilterNoDuplicates(s[1..], keep);
      var rest := Filter(s[1..], keep);
      if keep(s[0]) {
        var r := [s[0]] + rest;
        forall i, j | 0 <= i < j < |r| ensures r[i] != r[j] {
          if i == 0 {
            assert r[j] == rest[j - 1] && r[j] in s[1..];
          } else {
            assert r[i] == rest[i - 1] && r[j] == rest[j - 1];
          }
        }
      }
    }
  }

  /** A prefix of a sequence without duplicates has none either. */
  lemma PrefixNoDuplicates<T>(s: seq<T>, n: nat)
    requires n <= |s| && NoDuplicates(s)
    ensures NoDuplicates(s[..n])
  {
    forall i, j | 0 <= i < j < n ensures s[..n][i] != s[..n][j] {
      assert s[..n][i] == s[i] && s[..n][j] == s[j];
    }
  }

  /** A permutation of a sequence without duplicates has none either. */
  lemma PermutationNoDuplicates<T>(s: seq<T>, r: seq<T>)
    requires multiset(s) == multiset(r)
    requires NoDuplicates(s)
    ensures NoDuplicates(r)
  {
    forall i, j | 0 <= i < j < |r| ensures r[i] != r[j] {
      if r[i] == r[j] {
        var x := r[i];
        assert r == r[..j] + r[j..];
        assert x in r[..j] && x in r[j..];
        assert multiset(r)[x] == multiset(r[..j])[x] + multiset(r[j..])[x];
        NoDuplicatesCount(s, x);
        assert false;
      }
    }
  }

  /** The distinct values of `s` in order of first appearance: the GROUP BY keys. */
  function Distinct<T(==,!new)>(s: seq<T>): (r: seq<T>)
    ensures forall x :: x in r <==> x in s
    ensures NoDuplicates(r)
  {
    if s == [] then []
    else
      var rest := Distinct(s[..|s| - 1]);
      if s[|s| - 1] in rest then rest else rest + [s[|s| - 1]]
  }

  /** The projection of each element through `f`, as a SELECT of one column. */
  function MapSeq<T, U>(s: seq<T>, f: T -> U): (r: seq<U>)
    ensures |r| == |s|
    ensures forall i :: 0 <= i < |s| ==> r[i] == f(s[i])
  {
    if s == [] then [] else [f(s[0])] + MapSeq(s[1..], f)
  }

  /** An element of the projection is the image of an element of the input. */
  lemma MapSeqMember<T, U>(s: seq<T>, f: T -> U, y: U)
    requires y in MapSeq(s, f)
    ensures exists x :: x in s && y == f(x)
  {
    var i :| 0 <= i < |MapSeq(s, f)| && MapSeq(s, f)[i] == y;
    assert s[i] in s;
  }

  /** Every image of an element of the input is in the projection. */
  lemma MapSeqHas<T, U>(s: seq<T>, f: T -> U, x: T)
    requires x in s
    ensures f(x) in MapSeq(s, f)
  {
    var i :| 0 <= i < |s| && s[i] == x;
    assert MapSeq(s, f)[i] == f(x);
  }

  /** Projecting through a function with a left inverse keeps the elements distinct. */
  lemma MapSeqNoDuplicates<T, U>(s: seq<T>, f: T -> U, g: U -> T)
    requires NoDuplicates(s)
    requires forall x :: x in s ==> g(f(x)) == x
    ensures NoDuplicates(MapSeq(s, f))
  {
    var r := MapSeq(s, f);
    forall i, j | 0 <= i < j < |r| ensures r[i] != r[j] {
      assert s[i] in s && s[j] in s;
      assert g(r[i]) == s[i] && g(r[j]) == s[j];
    }
  }
}
