/** Cardinality facts about vertex identities drawn from `[0, n)`. */
module Counting {

  /** Every element of `s` occurs exactly once in it. */
  predicate Distinct(s: seq<nat>) {
    forall i, j :: 0 <= i < j < |s| ==> s[i] != s[j]
  }

  /** A set of vertex identities below `n` has at most `n` members. */
  lemma {:induction false} BoundedSetCard(xs: set<nat>, n: nat)
    requires forall x :: x in xs ==> x < n
    ensures |xs| <= n
  {
    if n > 0 {
      var rest := xs - {n - 1};
      BoundedSetCard(rest, n - 1);
      assert xs <= rest + {n - 1};
      assert |xs| <= |rest + {n - 1}| <= |rest| + 1;
    } else {
      assert xs == {};
    }
  }

  /** The elements of a sequence without repetitions are as many as its positions. */
  lemma {:induction false} DistinctCard(s: seq<nat>)
    requires Distinct(s)
    ensures |set i | 0 <= i < |s| :: s[i]| == |s|
  {
    if |s| > 0 {
      var init := s[..|s| - 1];
      DistinctCard(init);
      var before := set i | 0 <= i < |init| :: init[i];
      var all := set i | 0 <= i < |s| :: s[i];
      assert all == before + {s[|s| - 1]};
      assert s[|s| - 1] !in before;
    }
  }

  /** Pigeonhole: more than `n` positions holding values below `n` must repeat a value. */
  lemma Pigeonhole(s: seq<nat>, n: nat)
    requires |s| > n
    requires forall i :: 0 <= i < |s| ==> s[i] < n
    ensures !Distinct(s)
  {
    if Distinct(s) {
      DistinctCard(s);
      BoundedSetCard(set i | 0 <= i < |s| :: s[i], n);
    }
  }
}
