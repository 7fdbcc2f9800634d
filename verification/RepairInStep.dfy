/** What a complete pass leaves behind, and what a pass over replicas in step does. */
module RepairInStep {
  import opened Basics
  import opened Sorting
  import opened Repair
  import opened RepairSafety
  import opened RepairAccounting

  /** Every replica reachable and holding the whole union. */
  ghost predicate HoldsUnion(rs: seq<Replica>) {
    forall r | r in rs :: r.reachable && Digests(r.groups) == UnionOf(rs).Keys
  }

  /** In step: besides, no replica overlaps itself. */
  ghost predicate InStep(rs: seq<Replica>) {
    HoldsUnion(rs) && Fit(rs)
  }

  /** No destination said it held a group it did not. */
  ghost predicate NoFalseWord(logs: seq<seq<Entry>>) {
    forall i | 0 <= i < |logs| :: forall e: Entry | e in logs[i] :: e.verdict != FALSE
  }

  // ------------------------------------------------------------------ holding the union

  /** Digests are booked once, so an entry's verdict is the only one of its digest. */
  lemma OneVerdict(log: seq<Entry>, a: Entry, b: Entry)
    requires NoDup(LogDigests(log)) && a in log && b in log && a.digest == b.digest
    ensures a == b
  {
    var i :| 0 <= i < |log| && log[i] == a;
    var j :| 0 <= j < |log| && log[j] == b;
    assert LogDigests(log)[i] == LogDigests(log)[j];
  }

  lemma NotAdopted(log: seq<Entry>, e: Entry)
    requires NoDup(LogDigests(log)) && e in log && !Adopted(e.verdict)
    ensures e.digest !in AdoptedDigests(log)
  {
    forall x | x in log && Adopted(x.verdict) ensures x.digest != e.digest {
      if x.digest == e.digest { OneVerdict(log, x, e); }
    }
  }

  /** What a settled run's log means for a digest that was missing. */
  lemma SettledDigest(c: Ctx, i: nat, b: int, u: Tally, d: string)
    requires c.union == UnionOf(c.replicas) && i < |c.replicas| && c.replicas[i].reachable
    requires (forall e | e in DestRun(c, i, b, u).log :: Settled(e.verdict)) && d in c.union.Keys - Digests(c.replicas[i].groups)
    ensures d in AdoptedDigests(DestRun(c, i, b, u).log) <==> Entry(d, FALSE) !in DestRun(c, i, b, u).log
  {
    var log := DestRun(c, i, b, u).log;
    EveryMissingPairBookedOnce(c, i, b, u);
    var e := EntryOf(c, i, b, u, d);
    if e.verdict == FALSE {
      assert e == Entry(d, FALSE);
      NotAdopted(log, e);
    } else {
      assert Adopted(e.verdict);
      if Entry(d, FALSE) in log { OneVerdict(log, e, Entry(d, FALSE)); }
    }
  }

  /** A settled replica holds the whole union afterwards exactly when none of its declines was false. */
  lemma SettledHoldsExactly(c: Ctx, i: nat, b: int, u: Tally)
    requires c.union == UnionOf(c.replicas) && i < |c.replicas| && c.replicas[i].reachable
    requires forall e | e in DestRun(c, i, b, u).log :: Settled(e.verdict)
    ensures Digests(After(c.replicas[i], c.union, DestRun(c, i, b, u).log)) == c.union.Keys
            <==> forall e | e in DestRun(c, i, b, u).log :: e.verdict != FALSE
  {
    var log := DestRun(c, i, b, u).log;
    var own := Digests(c.replicas[i].groups);
    EveryMissingPairBookedOnce(c, i, b, u);
    DestConverges(c, i, b, u);
    LogInside(log, c.union.Keys - own);
    forall d | d in c.union.Keys - own ensures d in AdoptedDigests(log) <==> Entry(d, FALSE) !in log {
      SettledDigest(c, i, b, u, d);
    }
    if e :| e in log && e.verdict == FALSE {
      assert e == Entry(e.digest, FALSE);
      assert e.digest in c.union.Keys - own;
    }
  }

  /** Replica i's log in a complete pass: its own run, settled throughout, over a fit replica. */
  lemma CompleteRun(sh: Shard, budget: int, t: Tally, i: nat) returns (b: int, u: Tally)
    requires ShardPass(sh, budget, t).tally.complete && i < |sh.replicas|
    ensures ShardPass(sh, budget, t).logs[i] == DestRun(Context(sh), i, b, u).log
    ensures forall e | e in DestRun(Context(sh), i, b, u).log :: Settled(e.verdict)
    ensures sh.replicas[i].reachable && !SelfOverlap(sh.replicas[i].groups)
  {
    ShardAccounted(sh, budget, t);
    assert sh.replicas[i] in sh.replicas;
    b, u := SweepLog(Context(sh), |sh.replicas|, budget, Survey(t, sh.replicas), i);
  }

  lemma CompleteReplicaHolds(sh: Shard, budget: int, t: Tally, logs: seq<seq<Entry>>, i: nat)
    requires ShardPass(sh, budget, t).tally.complete && logs == ShardPass(sh, budget, t).logs && i < |sh.replicas|
    ensures Repaired(sh, logs)[i].reachable
    ensures Digests(Repaired(sh, logs)[i].groups) == UnionOf(sh.replicas).Keys <==> forall e: Entry | e in logs[i] :: e.verdict != FALSE
  {
    var b, u := CompleteRun(sh, budget, t, i);
    SettledHoldsExactly(Context(sh), i, b, u);
  }

  /** After a complete pass every replica holds the whole union exactly when no decline was false,
      whatever the inventories and the network. */
  lemma CompleteHoldsExactly(sh: Shard, budget: int, t: Tally)
    requires ShardPass(sh, budget, t).tally.complete
    ensures HoldsUnion(Repaired(sh, ShardPass(sh, budget, t).logs)) <==> NoFalseWord(ShardPass(sh, budget, t).logs)
  {
    var logs := ShardPass(sh, budget, t).logs;
    UnionKept(sh, budget, t);
    forall i: nat | i < |sh.replicas|
      ensures Repaired(sh, logs)[i].reachable
      ensures Digests(Repaired(sh, logs)[i].groups) == UnionOf(sh.replicas).Keys <==> forall e: Entry | e in logs[i] :: e.verdict != FALSE
    {
      CompleteReplicaHolds(sh, budget, t, logs, i);
    }
    HoldersAndWords(sh, logs);
  }

  lemma HoldersAndWords(sh: Shard, logs: seq<seq<Entry>>)
    requires |logs| == |sh.replicas| && UnionOf(Repaired(sh, logs)).Keys == UnionOf(sh.replicas).Keys
    requires forall i: nat | i < |logs| ::
               && Repaired(sh, logs)[i].reachable
               && (Digests(Repaired(sh, logs)[i].groups) == UnionOf(sh.replicas).Keys <==> forall e: Entry | e in logs[i] :: e.verdict != FALSE)
    ensures HoldsUnion(Repaired(sh, logs)) <==> NoFalseWord(logs)
  {
    var rs := Repaired(sh, logs);
    assert forall i | 0 <= i < |rs| :: rs[i] in rs;
  }

  // ------------------------------------------------------------------ a complete pass saw disjoint groups

  /** Reported spans do not end before they start. */
  ghost predicate Spanned(rs: seq<Replica>) {
    forall g | g in All(rs) :: g.tmin <= g.tmax
  }

  /** Some holder's report reaches down to the start of the union's span. */
  lemma {:induction false} FoldReached(gs: seq<Group>, d: string) returns (g: Group)
    requires d in Fold(gs)
    ensures g in gs && g.digest == d && g.tmin == Fold(gs)[d].tmin
  {
    var n := |gs| - 1;
    var u, last := Fold(gs[..n]), gs[n];
    assert gs == gs[..n] + [last];
    FoldKeys(gs[..n]);
    g := last;
    if d in u && (last.digest != d || u[d].tmin < last.tmin) { g := FoldReached(gs[..n], d); }
  }

  /** A settled destination that reports x: no other group of the union meets both x and x's widened
      span. */
  lemma SettledIsClear(c: Ctx, i: nat, b: int, u: Tally, x: Group, d: string)
    requires Trusted(c) && HoldersRight(c.replicas, c.holders)
    requires i < |c.replicas| && c.replicas[i].reachable && !SelfOverlap(c.replicas[i].groups)
    requires forall e | e in DestRun(c, i, b, u).log :: Settled(e.verdict)
    requires x in c.replicas[i].groups && x.digest in c.union && d in c.union && d != x.digest
    ensures !Overlaps(x, c.union[d]) || !Overlaps(c.union[x.digest], c.union[d])
  {
    if d in Digests(c.replicas[i].groups) {
      assert i in HoldersOf(c.replicas, d) && i in HoldersOf(c.replicas, x.digest);
      assert i in Lookup(c.holders, x.digest) * Lookup(c.holders, d);
    } else {
      var e := EntryOf(c, i, b, u, d);
      var log := DestRun(c, i, b, u).log;
      var k :| 0 <= k < |log| && log[k] == e;
      ReceivedAreDisjoint(c, i, b, u, k);
    }
  }

  /** The group whose span starts later starts inside the other one, and so does the report it got its
      start from. */
  lemma CompletePairApart(sh: Shard, budget: int, t: Tally, a: string, b: string)
    requires Trusted(Context(sh)) && Spanned(sh.replicas) && ShardPass(sh, budget, t).tally.complete
    requires var u := UnionOf(sh.replicas); a in u && b in u && a != b && u[a].tmin >= u[b].tmin
    ensures !Overlaps(UnionOf(sh.replicas)[a], UnionOf(sh.replicas)[b])
  {
    var c, rs := Context(sh), sh.replicas;
    var x := FoldReached(All(rs), a);
    var i := AllSource(rs, x);
    ContextRight(sh);
    var m, v := CompleteRun(sh, budget, t, i);
    SettledIsClear(c, i, m, v, x, b);
  }

  /** A complete pass, whatever was declined or lost in it, is one over groups that are pairwise disjoint:
      where two meet, some replica that reports one of them blocks the other. */
  lemma CompleteIsApart(sh: Shard, budget: int, t: Tally)
    requires Trusted(Context(sh)) && Spanned(sh.replicas) && ShardPass(sh, budget, t).tally.complete
    ensures var u := UnionOf(sh.replicas); forall a, b | a in u && b in u && a != b :: !Overlaps(u[a], u[b])
  {
    var u := UnionOf(sh.replicas);
    forall a, b | a in u && b in u && a != b ensures !Overlaps(u[a], u[b]) {
      if u[a].tmin >= u[b].tmin { CompletePairApart(sh, budget, t, a, b); } else { CompletePairApart(sh, budget, t, b, a); }
    }
  }

  lemma CompleteReplicaFit(sh: Shard, budget: int, t: Tally, logs: seq<seq<Entry>>, i: nat)
    requires Trusted(Context(sh)) && ShardPass(sh, budget, t).tally.complete && logs == ShardPass(sh, budget, t).logs
    requires i < |sh.replicas| && Apart(Context(sh), i)
    ensures Repaired(sh, logs)[i].reachable && !SelfOverlap(Repaired(sh, logs)[i].groups)
  {
    var b, u := CompleteRun(sh, budget, t, i);
    StaysNonOverlapping(Context(sh), i, b, u);
  }

  /** So no replica overlaps itself after it. */
  lemma CompleteStaysFit(sh: Shard, budget: int, t: Tally)
    requires Trusted(Context(sh)) && Spanned(sh.replicas) && ShardPass(sh, budget, t).tally.complete
    ensures Fit(Repaired(sh, ShardPass(sh, budget, t).logs))
  {
    var logs := ShardPass(sh, budget, t).logs;
    CompleteIsApart(sh, budget, t);
    forall i: nat | i < |sh.replicas| ensures Repaired(sh, logs)[i].reachable && !SelfOverlap(Repaired(sh, logs)[i].groups) {
      assert Apart(Context(sh), i);
      CompleteReplicaFit(sh, budget, t, logs, i);
    }
    AllFit(Repaired(sh, logs));
  }

  lemma AllFit(rs: seq<Replica>)
    requires forall i: nat | i < |rs| :: rs[i].reachable && !SelfOverlap(rs[i].groups)
    ensures Fit(rs)
  {
  }

  /** A complete pass leaves its shard in step exactly when no decline was false. */
  lemma CompleteIsInStepExactly(sh: Shard, budget: int, t: Tally)
    requires Trusted(Context(sh)) && Spanned(sh.replicas) && ShardPass(sh, budget, t).tally.complete
    ensures InStep(Repaired(sh, ShardPass(sh, budget, t).logs)) <==> NoFalseWord(ShardPass(sh, budget, t).logs)
  {
    CompleteHoldsExactly(sh, budget, t);
    CompleteStaysFit(sh, budget, t);
  }

  // ------------------------------------------------------------------ a pass over replicas in step

  /** A pass over replicas that are in step books nothing and stays complete, whatever the
      budget left and whatever the network would have answered. */
  lemma {:induction false} NothingToDo(c: Ctx, n: nat, budget: int, t: Tally)
    requires InStep(c.replicas) && c.union == UnionOf(c.replicas) && n <= |c.replicas|
    ensures Sweep(c, n, budget, t).budget == budget && Sweep(c, n, budget, t).tally == t
    ensures forall i | 0 <= i < n :: Sweep(c, n, budget, t).logs[i] == []
  {
    if n > 0 {
      NothingToDo(c, n - 1, budget, t);
      IdleDestination(c, n - 1, Sweep(c, n - 1, budget, t).budget, Sweep(c, n - 1, budget, t).tally);
    }
  }

  lemma IdleDestination(c: Ctx, dst: nat, budget: int, t: Tally)
    requires InStep(c.replicas) && c.union == UnionOf(c.replicas) && dst < |c.replicas|
    ensures var d := DestRun(c, dst, budget, t); d.budget == budget && d.tally == t && d.log == []
  {
    assert c.replicas[dst] in c.replicas;
    OrderMembers(c.replicas);
    RunSkips(c, dst, DestState(c.replicas[dst].groups, budget, t, []), OrderOf(c.replicas));
  }

  lemma {:induction false} RunSkips(c: Ctx, dst: nat, s: DestState, ds: seq<string>)
    requires dst < |c.replicas|
    requires forall d | d in ds :: d in c.union && d in Digests(c.replicas[dst].groups)
    ensures Run(c, dst, s, ds) == s
  {
    if ds != [] { RunSkips(c, dst, s, ds[..|ds| - 1]); }
  }

  /** A shard in step is passed over. */
  lemma InStepIsIdle(sh: Shard, budget: int, t: Tally)
    requires InStep(sh.replicas)
    ensures ShardPass(sh, budget, t).budget == budget && ShardPass(sh, budget, t).tally == t
  {
    SurveyKeeps(t, sh.replicas);
    NothingToDo(Context(sh), |sh.replicas|, budget, Survey(t, sh.replicas));
  }

  /** Replicas that are fit and miss nothing are in step. */
  lemma NothingMissingInStep(rs: seq<Replica>)
    requires Fit(rs) && MissingPairs(rs, UnionOf(rs).Keys) == 0
    ensures InStep(rs)
  {
    FoldKeys(All(rs));
    forall r | r in rs ensures Digests(r.groups) == UnionOf(rs).Keys {
      var i :| 0 <= i < |rs| && rs[i] == r;
      NoneMissing(rs, UnionOf(rs).Keys, i);
      forall g | g in r.groups ensures g.digest in UnionOf(rs).Keys { AllMember(rs, i, g); }
    }
  }

  lemma {:induction false} NoneMissing(rs: seq<Replica>, u: set<string>, i: nat)
    requires MissingPairs(rs, u) == 0 && i < |rs| && rs[i].reachable
    ensures u <= Digests(rs[i].groups)
  {
    var n := |rs| - 1;
    if i < n {
      NoneMissing(rs[..n], u, i);
    } else {
      assert |u - Digests(rs[i].groups)| == 0;
      assert forall d | d in u :: d in Digests(rs[i].groups) || d in u - Digests(rs[i].groups);
    }
  }
}
