/** Cluster backups: which replica a shard is copied from, and which manifests may be restored. */
module Backup {
  import opened Basics
  import opened Sets

  type Digest = string

  /** None: the replica did not answer. Otherwise the digests it reported, possibly repeated. */
  datatype Inventory = Unreachable | Reached(groups: seq<Digest>)

  function Holds(inv: Inventory): set<Digest> {
    if inv.Unreachable? then {} else set d | d in inv.groups
  }

  function Union(states: seq<Inventory>): set<Digest> {
    if states == [] then {} else Union(states[..|states| - 1]) + Holds(states[|states| - 1])
  }

  /** A replica that answered and holds every group any replica that answered holds. */
  predicate Complete(states: seq<Inventory>, i: nat) {
    i < |states| && states[i].Reached? && Union(states) <= Holds(states[i])
  }

  lemma {:induction false} UnionMembers(states: seq<Inventory>, d: Digest)
    ensures d in Union(states) <==> exists i :: 0 <= i < |states| && d in Holds(states[i])
  {
    if states != [] {
      var n := |states| - 1;
      UnionMembers(states[..n], d);
      if d in Union(states[..n]) {
        var i :| 0 <= i < n && d in Holds(states[..n][i]);
        assert d in Holds(states[i]);
      }
      if i :| 0 <= i < |states| && d in Holds(states[i]) {
        if i < n { assert d in Holds(states[..n][i]); }
      }
    }
  }

  /** Replica i holds whatever any replica that answered holds. */
  ghost predicate HoldsAll(states: seq<Inventory>, i: nat)
    requires i < |states| && states[i].Reached?
  {
    forall j, d | 0 <= j < |states| && states[j].Reached? && d in states[j].groups :: d in states[i].groups
  }

  /** Complete is what answered and holds whatever anyone that answered holds. */
  lemma CompleteExactly(states: seq<Inventory>, i: nat)
    ensures Complete(states, i) <==> i < |states| && states[i].Reached? && HoldsAll(states, i)
  {
    if Complete(states, i) {
      forall j, d | 0 <= j < |states| && states[j].Reached? && d in states[j].groups ensures d in states[i].groups {
        assert d in Holds(states[j]);
        UnionMembers(states, d);
        assert d in Holds(states[i]);
      }
    }
    if i < |states| && states[i].Reached? && HoldsAll(states, i) {
      forall d | d in Union(states) ensures d in Holds(states[i]) {
        UnionMembers(states, d);
        var j :| 0 <= j < |states| && d in Holds(states[j]);
        assert states[j].Reached? && d in states[j].groups;
      }
    }
  }

  /** The lowest-numbered complete replica, or none exactly when there is none. */
  method CompleteReplica(states: seq<Inventory>) returns (r: int)
    ensures r >= 0 ==> Complete(states, r) && forall i: nat | i < r :: !Complete(states, i)
    ensures r < 0 ==> forall i: nat :: !Complete(states, i)
  {
    var union := CollectUnion(states);
    r := 0;
    while r < |states|
      invariant 0 <= r <= |states|
      invariant forall i: nat | i < r :: !Complete(states, i)
    {
      if states[r].Reached? {
        var have := set d | d in states[r].groups;
        var missing := Missing(union, have);
        NoneMissing(union, have);
        if missing == 0 { return; }
      }
      r := r + 1;
    }
    r := -1;
  }

  method CollectUnion(states: seq<Inventory>) returns (union: set<Digest>)
    ensures union == Union(states)
  {
    union := {};
    var i := 0;
    while i < |states|
      invariant 0 <= i <= |states| && union == Union(states[..i])
    {
      assert states[..i + 1][..i] == states[..i];
      if states[i].Reached? { union := union + set d | d in states[i].groups; }
      i := i + 1;
    }
    assert states[..i] == states;
  }

  /** How many groups of the union a replica does not hold. */
  method Missing(union: set<Digest>, have: set<Digest>) returns (missing: nat)
    ensures missing == |union - have|
  {
    missing := 0;
    var left := union;
    while left != {}
      invariant left <= union
      invariant missing + |left - have| == |union - have|
    {
      var d :| d in left;
      TakeOne(left, have, d);
      left := left - {d};
      if d !in have { missing := missing + 1; }
    }
  }

  lemma TakeOne(left: set<Digest>, have: set<Digest>, d: Digest)
    requires d in left
    ensures |left - have| == |left - {d} - have| + if d in have then 0 else 1
  {
    if d in have {
      assert left - {d} - have == left - have;
    } else {
      assert left - have == (left - {d} - have) + {d};
    }
  }

  lemma NoneMissing(union: set<Digest>, have: set<Digest>)
    ensures |union - have| == 0 <==> union <= have
  {
    if |union - have| == 0 {
      assert union - have == {};
      assert forall d | d in union :: d in have || d in union - have;
    } else {
      var d :| d in union - have;
    }
  }

  /** Restoring a shard from the replica chosen loses no group any reachable replica had. */
  lemma NothingLost(states: seq<Inventory>, r: nat, i: nat, d: Digest)
    requires Complete(states, r) && i < |states| && d in Holds(states[i])
    ensures d in Holds(states[r])
  {
    UnionMembers(states, d);
  }

  // ------------------------------------------------------------------ the manifest

  datatype Shard = Shard(index: int, archive: string, high: int64)

  datatype Manifest = Manifest(format: int, protocol: int, shards: seq<Shard>)

  const FORMAT: int := 1
  const PROTOCOL: int := 1

  predicate Names(shards: seq<Shard>, i: int) {
    exists k :: 0 <= k < |shards| && shards[k].index == i
  }

  /** In range, no two alike, each with an archive. */
  predicate Distinct(shards: seq<Shard>) {
    && (forall k | 0 <= k < |shards| :: 0 <= shards[k].index < |shards| && shards[k].archive != "")
    && (forall j, k | 0 <= j < k < |shards| :: shards[j].index != shards[k].index)
  }

  /** Each shard number from zero up exactly once, each with an archive, for the right number of shards. */
  predicate Restorable(man: Manifest, into: int) {
    && man.format == FORMAT && man.protocol == PROTOCOL
    && |man.shards| > 0 && (into > 0 ==> |man.shards| == into)
    && Distinct(man.shards) && forall i | 0 <= i < |man.shards| :: Names(man.shards, i)
  }

  function Indices(shards: seq<Shard>, k: nat): set<int>
    requires k <= |shards|
  {
    if k == 0 then {} else Indices(shards, k - 1) + {shards[k - 1].index}
  }

  lemma {:induction false} IndicesMembers(shards: seq<Shard>, k: nat, i: int)
    requires k <= |shards|
    ensures i in Indices(shards, k) <==> exists j :: 0 <= j < k && shards[j].index == i
  {
    if k > 0 { IndicesMembers(shards, k - 1, i); }
  }

  lemma {:induction false} IndicesCard(shards: seq<Shard>, k: nat)
    requires k <= |shards| && forall i, j | 0 <= i < j < k :: shards[i].index != shards[j].index
    ensures |Indices(shards, k)| == k
  {
    if k > 0 {
      IndicesCard(shards, k - 1);
      IndicesMembers(shards, k - 1, shards[k - 1].index);
    }
  }

  /** As many shards as numbers and no two alike: every number is named. */
  lemma NoShardMissing(shards: seq<Shard>)
    requires Distinct(shards)
    ensures forall i | 0 <= i < |shards| :: Names(shards, i)
  {
    var n := |shards|;
    IndicesCard(shards, n);
    forall i ensures i in Indices(shards, n) <==> Names(shards, i) { IndicesMembers(shards, n, i); }
    var seen: set<nat> := Indices(shards, n);
    FullSet(seen, n);
  }

  /** Accepts exactly the restorable manifests. That no shard is missing is never looked at: it follows
      from there being as many entries as shards and no two alike. */
  method ValidateClusterBackup(man: Manifest, into: int) returns (ok: bool)
    ensures ok <==> Restorable(man, into)
  {
    if man.format != FORMAT || man.protocol != PROTOCOL { return false; }
    if |man.shards| == 0 { return false; }
    if into > 0 && |man.shards| != into { return false; }
    ok := CheckShards(man.shards);
    if ok { NoShardMissing(man.shards); }
  }

  method CheckShards(shards: seq<Shard>) returns (ok: bool)
    ensures ok <==> Distinct(shards)
  {
    var seen: set<int> := {};
    var k := 0;
    while k < |shards|
      invariant 0 <= k <= |shards| && seen == Indices(shards, k)
      invariant forall j | 0 <= j < k :: 0 <= shards[j].index < |shards| && shards[j].archive != ""
      invariant forall i, j | 0 <= i < j < k :: shards[i].index != shards[j].index
    {
      var s := shards[k];
      IndicesMembers(shards, k, s.index);
      if s.index < 0 || s.index >= |shards| { return false; }
      if s.index in seen { return false; }
      seen := seen + {s.index};
      if s.archive == "" { return false; }
      k := k + 1;
    }
    return true;
  }

  // ------------------------------------------------------------------ how far apart

  function High(shards: seq<Shard>, k: nat): int
    requires k < |shards|
  {
    shards[k].high
  }

  /** The shards j and k are as far apart as any two. */
  ghost predicate Farthest(shards: seq<Shard>, j: nat, k: nat) {
    && j < |shards| && k < |shards|
    && forall a, b | 0 <= a < |shards| && 0 <= b < |shards| :: High(shards, a) - High(shards, b) <= High(shards, j) - High(shards, k)
  }

  /** d is the distance exactly when 64 bits hold it, and negative otherwise. */
  predicate Reports(d: int, far: int) {
    (d == far <==> far <= MAX64) && (d < 0 <==> far > MAX64)
  }

  /** The largest distance between two shards' watermarks, as 64 bits hold it: exact exactly when it is
      below 2^63, and negative from there on. */
  method Spread(shards: seq<Shard>) returns (d: int64)
    ensures shards == [] ==> d == 0
    ensures forall j, k | Farthest(shards, j, k) :: Reports(d, High(shards, j) - High(shards, k))
    ensures shards != [] ==> exists j, k :: Farthest(shards, j, k)
  {
    if |shards| == 0 { return 0; }
    var lo, hi := shards[0].high, shards[0].high;
    ghost var at: nat, top: nat := 0, 0;
    var i := 1;
    while i < |shards|
      invariant 1 <= i <= |shards|
      invariant forall k | 0 <= k < i :: lo <= High(shards, k) <= hi
      invariant at < i && top < i && High(shards, at) == lo && High(shards, top) == hi
    {
      if shards[i].high < lo { lo, at := shards[i].high, i; }
      if shards[i].high > hi { hi, top := shards[i].high, i; }
      i := i + 1;
    }
    d := Wrap64(hi - lo);
    SpreadIs(shards, top, at, d);
  }

  lemma WrapReports(far: int)
    requires 0 <= far < WORD
    ensures Reports(Wrap64(far), far)
  {
    if far <= MAX64 { WrapFits(far); } else { WrapAbove(far); }
  }

  lemma SpreadIs(shards: seq<Shard>, top: nat, at: nat, d: int64)
    requires top < |shards| && at < |shards| && d == Wrap64(High(shards, top) - High(shards, at))
    requires forall k | 0 <= k < |shards| :: High(shards, at) <= High(shards, k) <= High(shards, top)
    ensures Farthest(shards, top, at)
    ensures forall j, k | Farthest(shards, j, k) :: Reports(d, High(shards, j) - High(shards, k))
  {
    var far := High(shards, top) - High(shards, at);
    WrapReports(far);
    forall j, k | Farthest(shards, j, k) ensures High(shards, j) - High(shards, k) == far {
      assert High(shards, at) <= High(shards, k) && High(shards, j) <= High(shards, top);
    }
  }
}
