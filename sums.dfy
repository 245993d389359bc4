/**
  Sums of natural-number weights over finite sets.  Python's `sum(...)` over a
  set or a dictionary's values does not depend on iteration order; `SumOver`
  states that order-free sum and the lemmas below let proofs take it apart.
 */
module Sums {

  /** The sum of `f[x]` over every `x` in `s`. */
  ghost function SumOver<K>(s: set<K>, f: map<K, nat>): nat
    requires s <= f.Keys
  {
    if s == {} then 0
    else
      var x :| x in s;
      f[x] + SumOver(s - {x}, f)
  }

  /** Any element may be taken out first: the sum does not depend on the choice. */
  lemma SumOverRemove<K>(s: set<K>, f: map<K, nat>, x: K)
    requires s <= f.Keys && x in s
    ensures SumOver(s, f) == f[x] + SumOver(s - {x}, f)
    decreases |s|
  {
    var y :| y in s && SumOver(s, f) == f[y] + SumOver(s - {y}, f);
    if y != x {
      SumOverRemove(s - {y}, f, x);
      SumOverRemove(s - {x}, f, y);
      assert s - {y} - {x} == s - {x} - {y};
    }
  }

  /** The sum over a disjoint union is the sum of the two sums. */
  lemma {:induction false} SumOverUnion<K>(a: set<K>, b: set<K>, f: map<K, nat>)
    requires a <= f.Keys && b <= f.Keys && a !! b
    ensures SumOver(a + b, f) == SumOver(a, f) + SumOver(b, f)
    decreases |b|
  {
    if b == {} {
      assert a + b == a;
    } else {
      var x :| x in b;
      SumOverRemove(a + b, f, x);
      SumOverRemove(b, f, x);
      assert (a + b) - {x} == a + (b - {x});
      SumOverUnion(a, b - {x}, f);
    }
  }

  /** Only the weights of the members matter. */
  lemma {:induction false} SumOverAgree<K>(s: set<K>, f: map<K, nat>, g: map<K, nat>)
    requires s <= f.Keys && s <= g.Keys
    requires forall x :: x in s ==> f[x] == g[x]
    ensures SumOver(s, f) == SumOver(s, g)
    decreases |s|
  {
    if s != {} {
      var x :| x in s;
      SumOverRemove(s, f, x);
      SumOverRemove(s, g, x);
      SumOverAgree(s - {x}, f, g);
    }
  }

  /** Members of weight zero add nothing. */
  lemma {:induction false} SumOverZero<K>(s: set<K>, f: map<K, nat>)
    requires s <= f.Keys
    requires forall x :: x in s ==> f[x] == 0
    ensures SumOver(s, f) == 0
    decreases |s|
  {
    if s != {} {
      var x :| x in s;
      SumOverRemove(s, f, x);
      SumOverZero(s - {x}, f);
    }
  }

  /** A one-element set sums to its element's weight. */
  lemma SumOverSingleton<K>(x: K, f: map<K, nat>)
    requires x in f
    ensures SumOver({x}, f) == f[x]
  {
    SumOverRemove({x}, f, x);
    assert {x} - {x} == {};
  }

  /** A sum over a subset is at most the sum over the whole set. */
  lemma SumOverSubset<K>(a: set<K>, b: set<K>, f: map<K, nat>)
    requires a <= b && b <= f.Keys
    ensures SumOver(a, f) <= SumOver(b, f)
  {
    assert b == a + (b - a);
    SumOverUnion(a, b - a, f);
  }
}
