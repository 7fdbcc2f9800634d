/** Counting sets of ordinals. */
module Sets {

  lemma SubsetCard<T>(a: set<T>, b: set<T>)
    requires a <= b
    ensures |a| <= |b|
  {
    assert b == a + (b - a) && a !! (b - a);
    assert |b| == |a| + |b - a|;
  }

  /** n ordinals fit below n. */
  lemma {:induction false} BelowCard(s: set<nat>, n: nat)
    requires forall o | o in s :: o < n
    ensures |s| <= n
  {
    if n > 0 {
      BelowCard(s - {n - 1}, n - 1);
    } else {
      assert s == {};
    }
  }

  /** A set of ordinals below n as large as n holds all of them. */
  lemma {:induction false} FullSet(s: set<nat>, n: nat)
    requires (forall o | o in s :: o < n) && |s| >= n
    ensures forall o: nat | o < n :: o in s
  {
    if n > 0 {
      BelowCard(s - {n - 1}, n - 1);
      assert n - 1 in s;
      FullSet(s - {n - 1}, n - 1);
    }
  }
}
