/**
 * Sums of a real-valued function over a finite set of integer keys. The
 * order in which a dictionary is iterated does not matter to such a sum;
 * SumOverRemove is the fact that lets a loop take the keys in any order.
 */
module Sums {

  /** A non-empty set has a member. */
  lemma HasMember(keys: set<int>)
    requires keys != {}
    ensures exists k :: k in keys
  {
    if forall k :: k !in keys {
      assert false;
    }
  }

  ghost function SumOver(keys: set<int>, f: int -> real): real
    decreases keys
  {
    if keys == {} then 0.0
    else
      HasMember(keys);
      var k :| k in keys;
      f(k) + SumOver(keys - {k}, f)
  }

  /** Any key can be taken out first. */
  lemma {:induction false} SumOverRemove(keys: set<int>, f: int -> real, x: int)
    requires x in keys
    ensures SumOver(keys, f) == f(x) + SumOver(keys - {x}, f)
    decreases keys
  {
    var y :| y in keys && SumOver(keys, f) == f(y) + SumOver(keys - {y}, f);
    if y != x {
      SumOverRemove(keys - {y}, f, x);
      assert keys - {y} - {x} == keys - {x} - {y};
      SumOverRemove(keys - {x}, f, y);
    }
  }

  /** Summing a pointwise smaller function gives a smaller sum. */
  lemma {:induction false} SumOverMono(keys: set<int>, f: int -> real, g: int -> real)
    requires forall k :: k in keys ==> f(k) <= g(k)
    ensures SumOver(keys, f) <= SumOver(keys, g)
    decreases keys
  {
    if keys != {} {
      HasMember(keys);
      var k :| k in keys;
      SumOverRemove(keys, f, k);
      SumOverRemove(keys, g, k);
      SumOverMono(keys - {k}, f, g);
    }
  }

  /** Functions that agree on the keys have the same sum. */
  lemma {:induction false} SumOverExt(keys: set<int>, f: int -> real, g: int -> real)
    requires forall k :: k in keys ==> f(k) == g(k)
    ensures SumOver(keys, f) == SumOver(keys, g)
  {
    SumOverMono(keys, f, g);
    SumOverMono(keys, g, f);
  }

  /** The constant zero function sums to zero. */
  lemma {:induction false} SumOverZero(keys: set<int>, f: int -> real)
    requires forall k :: k in keys ==> f(k) == 0.0
    ensures SumOver(keys, f) == 0.0
    decreases keys
  {
    if keys != {} {
      HasMember(keys);
      var k :| k in keys;
      SumOverRemove(keys, f, k);
      SumOverZero(keys - {k}, f);
    }
  }
}
