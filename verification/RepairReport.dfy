/** The report of a whole pass: what its counters and its complete flag say about every shard and every
replica of the cluster. */
module RepairReport {
  import opened Sorting
  import opened Repair
  import opened RepairSafety
  import opened RepairAccounting
  import opened RepairInStep

  const FRESH := Tally(0, 0, 0, 0, 0, 0, 0, true)

  /** The missing (replica, digest) pairs of all shards. */
  function AllMissing(shards: seq<Shard>): nat {
    if shards == [] then 0
    else
      var rs := shards[|shards| - 1].replicas;
      AllMissing(shards[..|shards| - 1]) + MissingPairs(rs, UnionOf(rs).Keys)
  }

  function CountPass(logs: seq<seq<seq<Entry>>>, v: Verdict): nat {
    if logs == [] then 0 else CountPass(logs[..|logs| - 1], v) + CountAll(logs[|logs| - 1], v)
  }

  /** Declines of either kind: the report does not tell them apart. */
  function Declines(logs: seq<seq<seq<Entry>>>): nat {
    CountPass(logs, STALE) + CountPass(logs, FALSE)
  }

  /** The pass with one more shard. */
  lemma PassSnoc(shards: seq<Shard>, sh: Shard)
    ensures var p := Pass(shards);
            var s := ShardPass(sh, p.budget, p.tally);
            Pass(shards + [sh]) == PassState(s.budget, s.tally, p.logs + [s.logs])
  {
    assert (shards + [sh])[..|shards|] == shards;
  }

  ghost predicate Shaped(shards: seq<Shard>, logs: seq<seq<seq<Entry>>>) {
    |logs| == |shards| && forall k | 0 <= k < |shards| :: |logs[k]| == |shards[k].replicas|
  }

  lemma ShapedSnoc(shards: seq<Shard>, logs: seq<seq<seq<Entry>>>, sh: Shard, more: seq<seq<Entry>>)
    requires Shaped(shards, logs) && |more| == |sh.replicas|
    ensures Shaped(shards + [sh], logs + [more])
  {
  }

  lemma ShapedNext(shards: seq<Shard>, sh: Shard)
    requires Shaped(shards, Pass(shards).logs)
    ensures Shaped(shards + [sh], Pass(shards + [sh]).logs)
  {
    var p := Pass(shards);
    PassSnoc(shards, sh);
    ShapedSnoc(shards, p.logs, sh, ShardPass(sh, p.budget, p.tally).logs);
  }

  lemma {:induction false} PassShaped(shards: seq<Shard>)
    ensures Shaped(shards, Pass(shards).logs)
    decreases |shards|
  {
    if shards != [] {
      var init, sh := LastShard(shards);
      PassShaped(init);
      ShapedNext(init, sh);
    }
  }

  lemma CountPassSnoc(logs: seq<seq<seq<Entry>>>, more: seq<seq<Entry>>, v: Verdict)
    ensures CountPass(logs + [more], v) == CountPass(logs, v) + CountAll(more, v)
  {
    assert (logs + [more])[..|logs|] == logs;
  }

  lemma AllMissingSnoc(shards: seq<Shard>, sh: Shard)
    ensures AllMissing(shards + [sh]) == AllMissing(shards) + MissingPairs(sh.replicas, UnionOf(sh.replicas).Keys)
  {
    assert (shards + [sh])[..|shards|] == shards;
  }

  /** A report of so many missing pairs. */
  ghost predicate Reported(t: Tally, logs: seq<seq<seq<Entry>>>, missing: nat) {
    && Outcomes(t) == missing
    && t.copied == CountPass(logs, Copied) && t.declined == Declines(logs)
  }

  lemma ReportedThen(t: Tally, logs: seq<seq<seq<Entry>>>, a: nat, t': Tally, more: seq<seq<Entry>>, b: nat)
    requires Reported(t, logs, a) && Outcomes(t') == Outcomes(t) + b
    requires t'.copied == t.copied + CountAll(more, Copied) && t'.declined == t.declined + CountAll(more, STALE) + CountAll(more, FALSE)
    ensures Reported(t', logs + [more], a + b)
  {
    CountPassSnoc(logs, more, Copied);
    CountPassSnoc(logs, more, STALE);
    CountPassSnoc(logs, more, FALSE);
  }

  /** The outcomes of the report are the missing pairs of the cluster, and its copies and declines those
      of the logs. */
  ghost predicate FullyReported(shards: seq<Shard>) {
    Reported(Pass(shards).tally, Pass(shards).logs, AllMissing(shards))
  }

  lemma FullyReportedNext(shards: seq<Shard>, sh: Shard, all: seq<Shard>)
    requires FullyReported(shards) && all == shards + [sh]
    ensures FullyReported(all)
  {
    var p := Pass(shards);
    ShardAccounted(sh, p.budget, p.tally);
    PassSnoc(shards, sh);
    AllMissingSnoc(shards, sh);
    var s := ShardPass(sh, p.budget, p.tally);
    ReportedThen(p.tally, p.logs, AllMissing(shards), s.tally, s.logs, MissingPairs(sh.replicas, UnionOf(sh.replicas).Keys));
  }

  lemma NothingCounted(logs: seq<seq<seq<Entry>>>, v: Verdict)
    requires |logs| == 0
    ensures CountPass(logs, v) == 0
  {
  }

  lemma NothingDeclined(logs: seq<seq<seq<Entry>>>)
    requires |logs| == 0
    ensures Declines(logs) == 0
  {
    var a, b := CountPass(logs, STALE), CountPass(logs, FALSE);
    NothingCounted(logs, STALE);
    NothingCounted(logs, FALSE);
    assert a == 0 && b == 0;
  }

  lemma ReportedFresh(t: Tally, logs: seq<seq<seq<Entry>>>, missing: nat)
    requires t == FRESH && |logs| == 0 && missing == 0
    ensures Reported(t, logs, missing)
  {
    NothingCounted(logs, Copied);
    NothingDeclined(logs);
  }

  lemma PassNothing(shards: seq<Shard>)
    requires |shards| == 0
    ensures Pass(shards).tally == FRESH && AllMissing(shards) == 0
  {
  }

  lemma NoneReported(shards: seq<Shard>)
    requires |shards| == 0
    ensures FullyReported(shards)
  {
    PassNothing(shards);
    ReportedFresh(Pass(shards).tally, Pass(shards).logs, AllMissing(shards));
  }

  lemma LastShard(shards: seq<Shard>) returns (init: seq<Shard>, sh: Shard)
    requires shards != []
    ensures shards == init + [sh]
  {
    init, sh := shards[..|shards| - 1], shards[|shards| - 1];
  }

  /** Every pair missing anywhere in the cluster is booked under exactly one outcome of the report, and
      nothing else is. */
  lemma {:induction false} EveryPairReported(shards: seq<Shard>)
    ensures FullyReported(shards)
    decreases |shards|
  {
    if shards != [] {
      var init, sh := LastShard(shards);
      EveryPairReported(init);
      FullyReportedNext(init, sh, shards);
    } else {
      NoneReported(shards);
    }
  }

  /** One more shard keeps the logs there are, and the report can only get worse. */
  lemma PassKeeps(shards: seq<Shard>, sh: Shard)
    ensures forall k | 0 <= k < |shards| :: Pass(shards + [sh]).logs[k] == Pass(shards).logs[k]
    ensures Pass(shards + [sh]).tally.complete ==> Pass(shards).tally.complete
  {
    PassSnoc(shards, sh);
    ShardAccounted(sh, Pass(shards).budget, Pass(shards).tally);
  }

  /** A shard's logs are those of its own pass, from what the shards before it left. */
  lemma {:induction false} PassLog(shards: seq<Shard>, k: nat) returns (b: int, t: Tally)
    requires k < |shards|
    ensures Pass(shards).logs[k] == ShardPass(shards[k], b, t).logs
    ensures Pass(shards).tally.complete ==> ShardPass(shards[k], b, t).tally.complete
  {
    var n := |shards| - 1;
    assert shards == shards[..n] + [shards[n]];
    PassKeeps(shards[..n], shards[n]);
    if k == n {
      b, t := Pass(shards[..n]).budget, Pass(shards[..n]).tally;
      PassSnoc(shards[..n], shards[n]);
    } else {
      b, t := PassLog(shards[..n], k);
    }
  }

  /** Every replica of a shard answered, does not overlap itself, and holds, received or declined every
      group of the union. */
  ghost predicate SettledShard(sh: Shard, logs: seq<seq<Entry>>)
    requires |logs| == |sh.replicas|
  {
    && Fit(sh.replicas) && AllSettled(logs)
    && forall i: nat, d: string | i < |logs| && d in UnionOf(sh.replicas) ::
         d in Digests(sh.replicas[i].groups) || exists e: Entry :: e in logs[i] && e.digest == d && Settled(e.verdict)
  }

  lemma ShardEntry(sh: Shard, b: int, t: Tally, i: nat, d: string) returns (e: Entry)
    requires i < |sh.replicas| && sh.replicas[i].reachable
    requires d in UnionOf(sh.replicas) && d !in Digests(sh.replicas[i].groups)
    ensures e in ShardPass(sh, b, t).logs[i] && e.digest == d
  {
    var b', t' := SweepLog(Context(sh), |sh.replicas|, b, Survey(t, sh.replicas), i);
    e := EntryOf(Context(sh), i, b', t', d);
  }

  lemma SettledEntry(sh: Shard, b: int, t: Tally, logs: seq<seq<Entry>>, i: nat, d: string)
    requires Fit(sh.replicas) && logs == ShardPass(sh, b, t).logs && AllSettled(logs) && i < |logs| && d in UnionOf(sh.replicas)
    ensures d in Digests(sh.replicas[i].groups) || exists e: Entry :: e in logs[i] && e.digest == d && Settled(e.verdict)
  {
    assert sh.replicas[i] in sh.replicas;
    if d !in Digests(sh.replicas[i].groups) {
      var e := ShardEntry(sh, b, t, i, d);
      assert e in logs[i] && Settled(e.verdict);
    }
  }

  lemma ShardSettles(sh: Shard, b: int, t: Tally, logs: seq<seq<Entry>>)
    requires Fit(sh.replicas) && logs == ShardPass(sh, b, t).logs && AllSettled(logs)
    ensures SettledShard(sh, logs)
  {
    forall i: nat, d: string | i < |logs| && d in UnionOf(sh.replicas)
      ensures d in Digests(sh.replicas[i].groups) || exists e: Entry :: e in logs[i] && e.digest == d && Settled(e.verdict)
    {
      SettledEntry(sh, b, t, logs, i, d);
    }
  }

  lemma ShardCompleteExactly(sh: Shard, b: int, t: Tally)
    ensures ShardPass(sh, b, t).tally.complete <==> t.complete && SettledShard(sh, ShardPass(sh, b, t).logs)
  {
    ShardAccounted(sh, b, t);
    if Fit(sh.replicas) && AllSettled(ShardPass(sh, b, t).logs) { ShardSettles(sh, b, t, ShardPass(sh, b, t).logs); }
  }

  ghost predicate SettledPass(shards: seq<Shard>, logs: seq<seq<seq<Entry>>>)
    requires Shaped(shards, logs)
  {
    forall k | 0 <= k < |shards| :: SettledShard(shards[k], logs[k])
  }

  lemma SettledPassSnoc(shards: seq<Shard>, logs: seq<seq<seq<Entry>>>, sh: Shard, more: seq<seq<Entry>>)
    requires Shaped(shards, logs) && |more| == |sh.replicas|
    ensures Shaped(shards + [sh], logs + [more])
    ensures SettledPass(shards + [sh], logs + [more]) <==> SettledPass(shards, logs) && SettledShard(sh, more)
  {
    ShapedSnoc(shards, logs, sh, more);
    var all, ls := shards + [sh], logs + [more];
    assert all[|shards|] == sh && ls[|shards|] == more;
    assert forall k | 0 <= k < |shards| :: all[k] == shards[k] && ls[k] == logs[k];
  }

  /** The report says complete exactly when every shard is settled. */
  ghost predicate RightlyComplete(shards: seq<Shard>) {
    Shaped(shards, Pass(shards).logs) && (Pass(shards).tally.complete <==> SettledPass(shards, Pass(shards).logs))
  }

  lemma RightlyCompleteNext(shards: seq<Shard>, sh: Shard, all: seq<Shard>)
    requires RightlyComplete(shards) && all == shards + [sh]
    ensures RightlyComplete(all)
  {
    var p := Pass(shards);
    ShardCompleteExactly(sh, p.budget, p.tally);
    SettledPassSnoc(shards, p.logs, sh, ShardPass(sh, p.budget, p.tally).logs);
    PassSnoc(shards, sh);
  }

  /** In every pass, whatever the network does. */
  lemma {:induction false} CompleteExactly(shards: seq<Shard>)
    ensures RightlyComplete(shards)
    decreases |shards|
  {
    if shards != [] {
      var init, sh := LastShard(shards);
      CompleteExactly(init);
      RightlyCompleteNext(init, sh, shards);
    }
  }

  /** The cluster after the pass. */
  function AfterPass(shards: seq<Shard>): seq<Shard> {
    PassShaped(shards);
    AllMended(shards, Pass(shards).logs)
  }

  function AllMended(shards: seq<Shard>, logs: seq<seq<seq<Entry>>>): seq<Shard>
    requires Shaped(shards, logs)
  {
    seq(|shards|, k requires 0 <= k < |shards| => shards[k].(replicas := Repaired(shards[k], logs[k])))
  }

  lemma AllMendedSnoc(shards: seq<Shard>, logs: seq<seq<seq<Entry>>>, sh: Shard, more: seq<seq<Entry>>)
    requires Shaped(shards, logs) && |more| == |sh.replicas|
    ensures Shaped(shards + [sh], logs + [more])
    ensures AllMended(shards + [sh], logs + [more]) == AllMended(shards, logs) + [sh.(replicas := Repaired(sh, more))]
  {
    ShapedSnoc(shards, logs, sh, more);
  }

  /** What is missing after the pass, with what was gained, is what was missing before. */
  ghost predicate PassLowers(shards: seq<Shard>) {
    AllMissing(AfterPass(shards)) + Pass(shards).tally.copied + CountPass(Pass(shards).logs, LOST) + CountPass(Pass(shards).logs, STALE)
      == AllMissing(shards)
  }

  lemma AfterPassSnoc(shards: seq<Shard>, sh: Shard)
    ensures var p := Pass(shards);
            var s := ShardPass(sh, p.budget, p.tally);
            AfterPass(shards + [sh]) == AfterPass(shards) + [sh.(replicas := Repaired(sh, s.logs))]
  {
    var p := Pass(shards);
    PassShaped(shards);
    PassSnoc(shards, sh);
    AllMendedSnoc(shards, p.logs, sh, ShardPass(sh, p.budget, p.tally).logs);
  }

  lemma PassLowersNext(shards: seq<Shard>, sh: Shard, all: seq<Shard>)
    requires PassLowers(shards) && all == shards + [sh]
    ensures PassLowers(all)
  {
    var p := Pass(shards);
    ShardConverges(sh, p.budget, p.tally);
    AfterPassSnoc(shards, sh);
    PassSnoc(shards, sh);
    var s := ShardPass(sh, p.budget, p.tally);
    CountPassSnoc(p.logs, s.logs, LOST);
    CountPassSnoc(p.logs, s.logs, STALE);
    AllMissingSnoc(shards, sh);
    AllMissingSnoc(AfterPass(shards), sh.(replicas := Repaired(sh, s.logs)));
  }

  /** One pass lowers the number of missing pairs in the cluster by exactly the copies it reports, the
      groups adopted without an acknowledgement and those declined because they were there. */
  lemma {:induction false} PassConverges(shards: seq<Shard>)
    ensures PassLowers(shards)
    decreases |shards|
  {
    if shards != [] {
      var init, sh := LastShard(shards);
      PassConverges(init);
      PassLowersNext(init, sh, shards);
    }
  }

  ghost predicate AllTrusted(shards: seq<Shard>) {
    forall sh | sh in shards :: Trusted(Context(sh)) && Spanned(sh.replicas)
  }

  ghost predicate AllInStep(shards: seq<Shard>) {
    forall k | 0 <= k < |shards| :: InStep(shards[k].replicas)
  }

  /** No destination of any shard said it held a group it did not. */
  ghost predicate NoFalseWordAnywhere(logs: seq<seq<seq<Entry>>>) {
    forall k | 0 <= k < |logs| :: NoFalseWord(logs[k])
  }

  /** After a complete report every shard is in step exactly when no decline was false. */
  lemma CompleteLeavesInStepExactly(shards: seq<Shard>)
    requires AllTrusted(shards) && Pass(shards).tally.complete
    ensures AllInStep(AfterPass(shards)) <==> NoFalseWordAnywhere(Pass(shards).logs)
  {
    PassShaped(shards);
    forall k: nat | k < |shards| ensures InStep(AfterPass(shards)[k].replicas) <==> NoFalseWord(Pass(shards).logs[k]) {
      assert shards[k] in shards;
      var b, t := PassLog(shards, k);
      CompleteIsInStepExactly(shards[k], b, t);
    }
  }

  // ------------------------------------------------------------------ a pass that has nothing to do

  ghost predicate Idle(shards: seq<Shard>) {
    Pass(shards).tally == FRESH
  }

  lemma {:induction false} InStepIdles(shards: seq<Shard>)
    requires AllInStep(shards)
    ensures Idle(shards) && Pass(shards).budget == MAX_BYTES
    decreases |shards|
  {
    if shards != [] {
      var init, sh := LastShard(shards);
      assert shards[|init|] == sh && forall k | 0 <= k < |init| :: shards[k] == init[k];
      InStepIdles(init);
      InStepIsIdle(sh, MAX_BYTES, FRESH);
      PassSnoc(init, sh);
    }
  }

  lemma {:induction false} NoneMissingIn(shards: seq<Shard>, k: nat)
    requires AllMissing(shards) == 0 && k < |shards|
    ensures MissingPairs(shards[k].replicas, UnionOf(shards[k].replicas).Keys) == 0
  {
    if k < |shards| - 1 { NoneMissingIn(shards[..|shards| - 1], k); }
  }

  lemma NothingMissingAnywhere(shards: seq<Shard>, logs: seq<seq<seq<Entry>>>)
    requires Shaped(shards, logs) && SettledPass(shards, logs) && AllMissing(shards) == 0
    ensures AllInStep(shards)
  {
    forall k: nat | k < |shards| ensures InStep(shards[k].replicas) {
      NoneMissingIn(shards, k);
      assert SettledShard(shards[k], logs[k]);
      NothingMissingInStep(shards[k].replicas);
    }
  }

  /** A pass reports nothing at all exactly when every shard is in step, whatever the network would do. */
  lemma IdleExactly(shards: seq<Shard>)
    ensures Idle(shards) <==> AllInStep(shards)
  {
    if Idle(shards) {
      EveryPairReported(shards);
      CompleteExactly(shards);
      NothingMissingAnywhere(shards, Pass(shards).logs);
    }
    if AllInStep(shards) { InStepIdles(shards); }
  }

  lemma SameReplicasSameStep(a: seq<Shard>, b: seq<Shard>)
    requires |a| == |b| && forall k | 0 <= k < |a| :: a[k].replicas == b[k].replicas
    ensures AllInStep(a) <==> AllInStep(b)
  {
  }

  /** Repeating a pass after a complete report copies nothing, blocks nothing and reports complete,
      whatever the network would do, exactly when no decline of the first was false. */
  lemma RepeatIsIdleExactly(shards: seq<Shard>, again: seq<Shard>)
    requires AllTrusted(shards) && Pass(shards).tally.complete
    requires |again| == |shards| && forall k | 0 <= k < |shards| :: again[k].replicas == AfterPass(shards)[k].replicas
    ensures Idle(again) <==> NoFalseWordAnywhere(Pass(shards).logs)
  {
    CompleteLeavesInStepExactly(shards);
    IdleExactly(again);
    SameReplicasSameStep(again, AfterPass(shards));
  }
}
