/** Facts about plain sequences used across the model. */
module Seqs {

  /** No element occurs twice. */
  ghost predicate Distinct<T>(xs: seq<T>) {
    forall i, j :: 0 <= i < j < |xs| ==> xs[i] != xs[j]
  }

  /** The set of a duplicate-free sequence has one element per position. */
  lemma {:induction false} DistinctCardinality<T>(xs: seq<T>)
    requires Distinct(xs)
    ensures |set x | x in xs| == |xs|
  {
    if |xs| > 0 {
      var init := xs[..|xs| - 1];
      DistinctCardinality(init);
      assert xs == init + [xs[|xs| - 1]];
      assert (set x | x in xs) == (set x | x in init) + {xs[|xs| - 1]};
    }
  }

  /** The set of a sequence has at most one element per position, and
      exactly one only when no element repeats. */
  lemma {:induction false} SetCardinality<T>(xs: seq<T>)
    ensures |set x | x in xs| <= |xs|
    ensures |set x | x in xs| == |xs| <==> Distinct(xs)
  {
    if Distinct(xs) {
      DistinctCardinality(xs);
    }
    if |xs| > 0 {
      var init, last := xs[..|xs| - 1], xs[|xs| - 1];
      SetCardinality(init);
      assert xs == init + [last];
      assert (set x | x in xs) == (set x | x in init) + {last};
      if |set x | x in xs| == |xs| {
        assert last !in init;
        forall i, j | 0 <= i < j < |xs| ensures xs[i] != xs[j] {
          if j < |init| {
            assert xs[i] == init[i] && xs[j] == init[j];
          } else {
            assert xs[i] == init[i];
          }
        }
      }
    }
  }

  /** A sequence is duplicate-free exactly when its prefix is and its last
      element is new. */
  lemma DistinctSnoc<T>(xs: seq<T>)
    requires |xs| > 0
    ensures Distinct(xs) <==> Distinct(xs[..|xs| - 1]) && xs[|xs| - 1] !in xs[..|xs| - 1]
  {
    var init, last := xs[..|xs| - 1], xs[|xs| - 1];
    if Distinct(xs) {
      forall i, j | 0 <= i < j < |init| ensures init[i] != init[j] { assert xs[i] == init[i] && xs[j] == init[j]; }
      forall j | 0 <= j < |init| ensures init[j] != last { assert xs[j] == init[j]; }
    }
    if Distinct(init) && last !in init {
      forall i, j | 0 <= i < j < |xs| ensures xs[i] != xs[j] {
        assert xs[i] == init[i];
        if j < |init| { assert xs[j] == init[j]; }
      }
    }
  }

  /** A set holding exactly the elements of a sequence is its set. */
  lemma SetOfElements<T>(xs: seq<T>, s: set<T>)
    requires forall x :: x in xs <==> x in s
    ensures (set x | x in xs) == s
  {
  }

  /** An element at two positions occurs at least twice in the multiset. */
  lemma RepeatedElement<T>(xs: seq<T>, i: nat, j: nat)
    requires i < j < |xs| && xs[i] == xs[j]
    ensures multiset(xs)[xs[i]] >= 2
  {
    assert xs == xs[..j] + [xs[j]] + xs[j + 1..];
    assert xs[..j][i] == xs[i];
    assert multiset(xs[..j])[xs[i]] >= 1;
  }

  /** In a duplicate-free sequence every element occurs at most once. */
  lemma {:induction false} DistinctMultiplicity<T>(xs: seq<T>, x: T)
    requires Distinct(xs)
    ensures multiset(xs)[x] <= 1
  {
    if |xs| > 0 {
      var init := xs[..|xs| - 1];
      assert Distinct(init) by {
        forall i, j | 0 <= i < j < |init| ensures init[i] != init[j] { assert xs[i] == init[i] && xs[j] == init[j]; }
      }
      DistinctMultiplicity(init, x);
      assert xs == init + [xs[|xs| - 1]];
      if x == xs[|xs| - 1] {
        assert x !in init by {
          forall j | 0 <= j < |init| ensures init[j] != x { assert xs[j] == init[j]; }
        }
      }
    }
  }
}
