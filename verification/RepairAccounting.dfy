/** What a repair report promises: conservation, completeness, convergence and the two bounds. */
module RepairAccounting {
  import opened Basics
  import opened Sorting
  import opened Repair
  import opened RepairSafety

  function Count(log: seq<Entry>, v: Verdict): nat {
    if log == [] then 0
    else Count(log[..|log| - 1], v) + (if log[|log| - 1].verdict == v then 1 else 0)
  }

  function Missing(ds: seq<string>, held: set<string>): seq<string> {
    if ds == [] then []
    else
      var d := ds[|ds| - 1];
      var m := Missing(ds[..|ds| - 1], held);
      if d in held then m else m + [d]
  }

  function LogDigests(log: seq<Entry>): seq<string> {
    seq(|log|, i requires 0 <= i < |log| => log[i].digest)
  }

  predicate Settled(v: Verdict) {
    v == Copied || v.Declined?
  }

  /** Groups found on destinations without a copy being reported, and destinations' false words. */
  const LOST := Broken(true)
  const STALE := Declined(true)
  const FALSE := Declined(false)

  // ------------------------------------------------------------------ conservation

  /** The tally of a destination's run is the tally it started with plus one entry per missing
      digest, each under exactly one heading; bytes spent leave the budget one for one. */
  ghost predicate Booked(t: Tally, budget: int, s: DestState) {
    && s.tally.copied == t.copied + Count(s.log, Copied)
    && s.tally.blocked == t.blocked + Count(s.log, Blocked)
    && s.tally.remaining == t.remaining + Count(s.log, Deferred)
    && s.tally.declined == t.declined + Count(s.log, STALE) + Count(s.log, FALSE)
    && s.tally.failed == t.failed + Count(s.log, LOST) + Count(s.log, Broken(false))
    && s.tally.selfOverlapping == t.selfOverlapping
    && s.budget + s.tally.bytes == budget + t.bytes
    && |s.log| == Count(s.log, Copied) + Count(s.log, Blocked) + Count(s.log, Deferred)
                  + Count(s.log, STALE) + Count(s.log, FALSE) + Count(s.log, LOST) + Count(s.log, Broken(false))
    && (s.tally.complete <==> t.complete && forall e | e in s.log :: Settled(e.verdict))
  }

  lemma CountSnoc(log: seq<Entry>, e: Entry, v: Verdict)
    ensures Count(log + [e], v) == Count(log, v) + (if e.verdict == v then 1 else 0)
  {
    assert (log + [e])[..|log|] == log;
  }

  lemma BookedStep(t: Tally, budget: int, s: DestState, e: Entry, moved: nat, spans: seq<Group>)
    requires Booked(t, budget, s) && (e.verdict != Copied ==> moved == 0)
    ensures Booked(t, budget, DestState(spans, s.budget - moved, Account(s.tally, e.verdict, moved), s.log + [e]))
  {
    SettledSnoc(s.log, e);
    CountSnoc(s.log, e, Copied);
    CountSnoc(s.log, e, Blocked);
    CountSnoc(s.log, e, Deferred);
    CountSnoc(s.log, e, STALE);
    CountSnoc(s.log, e, FALSE);
    CountSnoc(s.log, e, LOST);
    CountSnoc(s.log, e, Broken(false));
  }

  lemma SettledSnoc(log: seq<Entry>, e: Entry)
    ensures (forall x | x in log + [e] :: Settled(x.verdict)) <==> (forall x | x in log :: Settled(x.verdict)) && Settled(e.verdict)
  {
    assert e in log + [e] && forall x | x in log :: x in log + [e];
  }

  lemma {:induction false} RunBooks(c: Ctx, dst: nat, s: DestState, ds: seq<string>)
    requires dst < |c.replicas| && (forall d | d in ds :: d in c.union) && s.log == []
    ensures Booked(s.tally, s.budget, Run(c, dst, s, ds))
  {
    if ds != [] {
      var n := |ds| - 1;
      RunBooks(c, dst, s, ds[..n]);
      var p := Run(c, dst, s, ds[..n]);
      if ds[n] !in Digests(c.replicas[dst].groups) {
        var v := Judge(c, dst, p, ds[n]);
        var moved := if v == Copied then Size(c.net(dst, ds[n])) else 0;
        BookedStep(s.tally, s.budget, p, Entry(ds[n], v), moved, Run(c, dst, s, ds).spans);
      }
    }
  }

  lemma {:induction false} RunLogs(c: Ctx, dst: nat, s: DestState, ds: seq<string>)
    requires dst < |c.replicas| && (forall d | d in ds :: d in c.union) && s.log == []
    ensures LogDigests(Run(c, dst, s, ds).log) == Missing(ds, Digests(c.replicas[dst].groups))
  {
    if ds != [] {
      var n := |ds| - 1;
      RunLogs(c, dst, s, ds[..n]);
      var p := Run(c, dst, s, ds[..n]);
      if ds[n] !in Digests(c.replicas[dst].groups) {
        var e := Entry(ds[n], Judge(c, dst, p, ds[n]));
        assert LogDigests(p.log + [e]) == LogDigests(p.log) + [ds[n]];
      }
    }
  }

  /** Every (replica, digest) pair missing at the start is booked once and only once. */
  lemma EveryMissingPairBookedOnce(c: Ctx, dst: nat, budget: int, t: Tally)
    requires dst < |c.replicas| && c.union == UnionOf(c.replicas) && c.replicas[dst].reachable
    ensures
      var s := DestRun(c, dst, budget, t);
      var missing := c.union.Keys - Digests(c.replicas[dst].groups);
      && Booked(t, budget, s)
      && Elems(LogDigests(s.log)) == missing && NoDup(LogDigests(s.log)) && |s.log| == |missing|
  {
    var own := c.replicas[dst].groups;
    OrderMembers(c.replicas);
    var ds := OrderOf(c.replicas);
    RunBooks(c, dst, DestState(own, budget, t, []), ds);
    RunLogs(c, dst, DestState(own, budget, t, []), ds);
    MissingRight(ds, Digests(own));
    NoDupSize(Missing(ds, Digests(own)));
  }

  lemma {:induction false} MissingRight(ds: seq<string>, held: set<string>)
    requires NoDup(ds)
    ensures NoDup(Missing(ds, held)) && Elems(Missing(ds, held)) == Elems(ds) - held
  {
    if ds != [] {
      var n := |ds| - 1;
      MissingRight(ds[..n], held);
      assert ds == ds[..n] + [ds[n]];
      assert ds[n] !in ds[..n];
      assert forall x | x in Missing(ds[..n], held) :: x in Elems(Missing(ds[..n], held));
      assert Elems(ds) == Elems(ds[..n]) + {ds[n]};
      assert ds[n] !in Elems(Missing(ds[..n], held));
      if ds[n] !in held {
        assert Elems(Missing(ds[..n], held) + [ds[n]]) == Elems(Missing(ds[..n], held)) + {ds[n]};
      }
    }
  }

  // ------------------------------------------------------------------ a shard's report

  /** Under how many headings pairs were booked so far. */
  function Outcomes(t: Tally): nat {
    t.copied + t.blocked + t.remaining + t.declined + t.failed
  }

  function CountAll(logs: seq<seq<Entry>>, v: Verdict): nat {
    if logs == [] then 0 else CountAll(logs[..|logs| - 1], v) + Count(logs[|logs| - 1], v)
  }

  ghost predicate AllSettled(logs: seq<seq<Entry>>) {
    forall i | 0 <= i < |logs| :: forall e | e in logs[i] :: Settled(e.verdict)
  }

  /** The missing pairs of the reachable replicas. */
  function MissingPairs(rs: seq<Replica>, u: set<string>): nat {
    if rs == [] then 0 else MissingPairs(rs[..|rs| - 1], u) + MissingAt(rs[|rs| - 1], u)
  }

  function MissingAt(r: Replica, u: set<string>): nat {
    if r.reachable then |u - Digests(r.groups)| else 0
  }

  lemma MissingSnoc(rs: seq<Replica>, r: Replica, u: set<string>)
    ensures MissingPairs(rs + [r], u) == MissingPairs(rs, u) + MissingAt(r, u)
  {
    assert (rs + [r])[..|rs|] == rs;
  }

  /** The report of some replicas: as many outcomes as missing pairs, each counter the sum of its entries,
      and complete exactly when every pair was settled. */
  ghost predicate ShardBooked(t: Tally, s: ShardState, missing: nat) {
    && Outcomes(s.tally) == Outcomes(t) + missing
    && s.tally.copied == t.copied + CountAll(s.logs, Copied)
    && s.tally.declined == t.declined + CountAll(s.logs, STALE) + CountAll(s.logs, FALSE)
    && (s.tally.complete <==> t.complete && AllSettled(s.logs))
  }

  lemma CountAllSnoc(logs: seq<seq<Entry>>, log: seq<Entry>, v: Verdict)
    ensures CountAll(logs + [log], v) == CountAll(logs, v) + Count(log, v)
  {
    assert (logs + [log])[..|logs|] == logs;
  }

  lemma SettledLogsSnoc(logs: seq<seq<Entry>>, log: seq<Entry>)
    ensures AllSettled(logs + [log]) <==> AllSettled(logs) && forall e | e in log :: Settled(e.verdict)
  {
    var all := logs + [log];
    assert all[|logs|] == log;
    assert forall i | 0 <= i < |logs| :: all[i] == logs[i];
  }

  lemma DestBooked(c: Ctx, dst: nat, budget: int, t: Tally)
    requires dst < |c.replicas| && c.union == UnionOf(c.replicas)
    ensures var d := DestRun(c, dst, budget, t);
            var own := c.replicas[dst];
            ShardBooked(t, ShardState(d.budget, d.tally, [d.log]), MissingAt(own, c.union.Keys))
  {
    var d := DestRun(c, dst, budget, t);
    if c.replicas[dst].reachable { EveryMissingPairBookedOnce(c, dst, budget, t); }
    assert [d.log][..0] == [];
    assert CountAll([], Copied) == 0 && CountAll([], STALE) == 0 && CountAll([], FALSE) == 0;
    SettledLogsSnoc([], d.log);
    assert [] + [d.log] == [d.log];
  }

  lemma BookedThen(t: Tally, p: ShardState, d: DestState, a: nat, b: nat)
    requires ShardBooked(t, p, a) && ShardBooked(p.tally, ShardState(d.budget, d.tally, [d.log]), b)
    ensures ShardBooked(t, ShardState(d.budget, d.tally, p.logs + [d.log]), a + b)
  {
    CountAllSnoc(p.logs, d.log, Copied);
    CountAllSnoc(p.logs, d.log, STALE);
    CountAllSnoc(p.logs, d.log, FALSE);
    SettledLogsSnoc(p.logs, d.log);
    SettledLogsSnoc([], d.log);
    assert [] + [d.log] == [d.log];
    assert [d.log][..0] == [];
    assert CountAll([], Copied) == 0 && CountAll([], STALE) == 0 && CountAll([], FALSE) == 0;
  }

  lemma {:induction false} SweepBooked(c: Ctx, n: nat, budget: int, t: Tally)
    requires n <= |c.replicas| && c.union == UnionOf(c.replicas)
    ensures ShardBooked(t, Sweep(c, n, budget, t), MissingPairs(c.replicas[..n], c.union.Keys))
  {
    if n > 0 {
      SweepBooked(c, n - 1, budget, t);
      var p := Sweep(c, n - 1, budget, t);
      var own := c.replicas[n - 1];
      DestBooked(c, n - 1, p.budget, p.tally);
      BookedThen(t, p, DestRun(c, n - 1, p.budget, p.tally), MissingPairs(c.replicas[..n - 1], c.union.Keys),
                 MissingAt(own, c.union.Keys));
      MissingNext(c, n);
    }
  }

  ghost predicate Fit(rs: seq<Replica>) {
    forall r | r in rs :: r.reachable && !SelfOverlap(r.groups)
  }

  lemma {:induction false} SurveyKeeps(t: Tally, rs: seq<Replica>)
    ensures var s := Survey(t, rs);
            && (s.complete <==> t.complete && Fit(rs)) && s.selfOverlapping >= t.selfOverlapping
            && s == t.(complete := s.complete, selfOverlapping := s.selfOverlapping)
            && (Fit(rs) ==> s == t)
  {
    if rs != [] {
      var n := |rs| - 1;
      SurveyKeeps(t, rs[..n]);
      assert rs == rs[..n] + [rs[n]];
      assert rs[n] in rs && forall r | r in rs[..n] :: r in rs;
    }
  }

  /** One shard: every missing pair is booked once, and complete means every replica answered, none
      overlaps itself, and every missing pair was copied or declined as already there. */
  lemma ShardAccounted(sh: Shard, budget: int, t: Tally)
    ensures var s := ShardPass(sh, budget, t);
            && Outcomes(s.tally) == Outcomes(t) + MissingPairs(sh.replicas, UnionOf(sh.replicas).Keys)
            && s.tally.copied == t.copied + CountAll(s.logs, Copied)
            && s.tally.declined == t.declined + CountAll(s.logs, STALE) + CountAll(s.logs, FALSE)
            && (s.tally.complete <==> t.complete && Fit(sh.replicas) && AllSettled(s.logs))
  {
    SurveyKeeps(t, sh.replicas);
    SweepBooked(Context(sh), |sh.replicas|, budget, Survey(t, sh.replicas));
    assert sh.replicas[..|sh.replicas|] == sh.replicas;
  }

  /** A replica's log is that of its own run, from some budget and tally. */
  lemma {:induction false} SweepLog(c: Ctx, n: nat, budget: int, t: Tally, i: nat) returns (b: int, u: Tally)
    requires i < n <= |c.replicas| && c.union == UnionOf(c.replicas)
    ensures Sweep(c, n, budget, t).logs[i] == DestRun(c, i, b, u).log
  {
    var p := Sweep(c, n - 1, budget, t);
    if i == n - 1 {
      b, u := p.budget, p.tally;
    } else {
      b, u := SweepLog(c, n - 1, budget, t, i);
      assert Sweep(c, n, budget, t).logs[i] == p.logs[i];
    }
  }

  /** The entry of a missing digest. */
  lemma EntryOf(c: Ctx, dst: nat, budget: int, t: Tally, d: string) returns (e: Entry)
    requires c.union == UnionOf(c.replicas) && dst < |c.replicas| && c.replicas[dst].reachable
    requires d in c.union.Keys - Digests(c.replicas[dst].groups)
    ensures e in DestRun(c, dst, budget, t).log && e.digest == d
  {
    EveryMissingPairBookedOnce(c, dst, budget, t);
    var log := DestRun(c, dst, budget, t).log;
    assert d in Elems(LogDigests(log));
    var k :| 0 <= k < |log| && LogDigests(log)[k] == d;
    e := log[k];
  }

  // ------------------------------------------------------------------ convergence

  /** The replicas once the pass is over, if nothing else changed them. */
  function Repaired(sh: Shard, logs: seq<seq<Entry>>): seq<Replica>
    requires |logs| == |sh.replicas|
  {
    seq(|sh.replicas|, i requires 0 <= i < |sh.replicas| => Mended(sh.replicas[i], UnionOf(sh.replicas), logs[i]))
  }

  function AdoptedDigests(log: seq<Entry>): set<string> {
    set e | e in log && Adopted(e.verdict) :: e.digest
  }

  lemma {:induction false} ReceivedDigests(u: map<string, Group>, log: seq<Entry>)
    requires forall d | d in u :: u[d].digest == d
    requires forall e | e in log :: e.digest in u
    ensures Digests(Received(u, log)) == AdoptedDigests(log)
  {
    if log != [] {
      var n := |log| - 1;
      assert log == log[..n] + [log[n]];
      assert log[n] in log && forall e | e in log[..n] :: e in log;
      ReceivedDigests(u, log[..n]);
      var r := Received(u, log[..n]);
      if Adopted(log[n].verdict) {
        assert Digests(r + [u[log[n].digest]]) == Digests(r) + {log[n].digest};
        assert AdoptedDigests(log) == AdoptedDigests(log[..n]) + {log[n].digest};
      } else {
        assert AdoptedDigests(log) == AdoptedDigests(log[..n]);
      }
    }
  }

  lemma FreshEntry(log: seq<Entry>, n: nat)
    requires n < |log| && NoDup(LogDigests(log))
    ensures NoDup(LogDigests(log[..n])) && log[n].digest !in AdoptedDigests(log[..n])
  {
    var ds := LogDigests(log);
    assert LogDigests(log[..n]) == ds[..n];
    forall i | 0 <= i < n ensures log[..n][i].digest != log[n].digest { assert ds[i] == log[i].digest && ds[n] == log[n].digest; }
  }

  lemma AdoptedNext(log: seq<Entry>, e: Entry)
    ensures AdoptedDigests(log + [e]) == AdoptedDigests(log) + (if Adopted(e.verdict) then {e.digest} else {})
  {
  }

  /** How many of the missing groups the destination holds afterwards: the copies, those adopted while
      the answer was lost, and those it held already. */
  function Gained(log: seq<Entry>): nat {
    Count(log, Copied) + Count(log, LOST) + Count(log, STALE)
  }

  lemma {:induction false} AdoptedCount(log: seq<Entry>)
    requires NoDup(LogDigests(log))
    ensures |AdoptedDigests(log)| == Gained(log)
  {
    if log != [] {
      var n := |log| - 1;
      assert log == log[..n] + [log[n]];
      FreshEntry(log, n);
      AdoptedCount(log[..n]);
      AdoptedNext(log[..n], log[n]);
    }
  }

  lemma LessMissing(u: set<string>, own: set<string>, got: set<string>)
    requires got <= u - own && own <= u
    ensures own + got <= u && |u - (own + got)| + |got| == |u - own|
  {
    assert u - (own + got) == (u - own) - got;
  }

  lemma DigestsConcat(a: seq<Group>, b: seq<Group>)
    ensures Digests(a + b) == Digests(a) + Digests(b)
  {
  }

  lemma LogInside(log: seq<Entry>, m: set<string>)
    requires Elems(LogDigests(log)) == m
    ensures forall e | e in log :: e.digest in m
  {
    forall e | e in log ensures e.digest in m {
      var k :| 0 <= k < |log| && log[k] == e;
      assert LogDigests(log)[k] in Elems(LogDigests(log));
    }
  }

  /** One destination, under any network: what was missing shrinks by exactly what it gained. */
  lemma DestConverges(c: Ctx, dst: nat, budget: int, t: Tally)
    requires c.union == UnionOf(c.replicas) && dst < |c.replicas| && c.replicas[dst].reachable
    ensures
      var log := DestRun(c, dst, budget, t).log;
      var fin := Digests(After(c.replicas[dst], c.union, log));
      && fin == Digests(c.replicas[dst].groups) + AdoptedDigests(log) && fin <= c.union.Keys
      && |c.union.Keys - fin| + Gained(log) == |c.union.Keys - Digests(c.replicas[dst].groups)|
  {
    var log := DestRun(c, dst, budget, t).log;
    var own := c.replicas[dst].groups;
    FoldKeys(All(c.replicas));
    EveryMissingPairBookedOnce(c, dst, budget, t);
    var missing := c.union.Keys - Digests(own);
    LogInside(log, missing);
    ReceivedDigests(c.union, log);
    AdoptedCount(log);
    DigestsConcat(own, Received(c.union, log));
    assert AdoptedDigests(log) <= missing;
    forall g | g in own ensures g.digest in c.union.Keys { AllMember(c.replicas, dst, g); }
    LessMissing(c.union.Keys, Digests(own), AdoptedDigests(log));
  }

  function Mended(r: Replica, u: map<string, Group>, log: seq<Entry>): Replica {
    if r.reachable then r.(groups := After(r, u, log)) else r
  }

  /** The first n replicas, repaired. */
  function RepairedUpTo(c: Ctx, logs: seq<seq<Entry>>, n: nat): seq<Replica>
    requires n <= |c.replicas| && n <= |logs|
  {
    seq(n, i requires 0 <= i < n => Mended(c.replicas[i], c.union, logs[i]))
  }

  lemma RepairedSnoc(c: Ctx, logs: seq<seq<Entry>>, log: seq<Entry>, n: nat)
    requires 0 < n <= |c.replicas| && |logs| == n - 1
    ensures RepairedUpTo(c, logs + [log], n) == RepairedUpTo(c, logs, n - 1) + [Mended(c.replicas[n - 1], c.union, log)]
  {
  }

  lemma MendedConverges(c: Ctx, dst: nat, budget: int, t: Tally)
    requires c.union == UnionOf(c.replicas) && dst < |c.replicas|
    ensures var log := DestRun(c, dst, budget, t).log;
            MissingAt(Mended(c.replicas[dst], c.union, log), c.union.Keys) + Gained(log) == MissingAt(c.replicas[dst], c.union.Keys)
  {
    if c.replicas[dst].reachable { DestConverges(c, dst, budget, t); }
  }

  function GainedAll(logs: seq<seq<Entry>>): nat {
    CountAll(logs, Copied) + CountAll(logs, LOST) + CountAll(logs, STALE)
  }

  /** What the first n replicas miss after the pass, with what they adopted, is what they missed before. */
  ghost predicate Converged(c: Ctx, logs: seq<seq<Entry>>, n: nat)
    requires n <= |c.replicas| && n <= |logs|
  {
    MissingPairs(RepairedUpTo(c, logs, n), c.union.Keys) + GainedAll(logs) == MissingPairs(c.replicas[..n], c.union.Keys)
  }

  lemma RepairedMissing(c: Ctx, logs: seq<seq<Entry>>, log: seq<Entry>, n: nat)
    requires 0 < n <= |c.replicas| && |logs| == n - 1
    ensures MissingPairs(RepairedUpTo(c, logs + [log], n), c.union.Keys)
         == MissingPairs(RepairedUpTo(c, logs, n - 1), c.union.Keys) + MissingAt(Mended(c.replicas[n - 1], c.union, log), c.union.Keys)
  {
    RepairedSnoc(c, logs, log, n);
    MissingSnoc(RepairedUpTo(c, logs, n - 1), Mended(c.replicas[n - 1], c.union, log), c.union.Keys);
  }

  lemma MissingNext(c: Ctx, n: nat)
    requires 0 < n <= |c.replicas|
    ensures MissingPairs(c.replicas[..n], c.union.Keys)
         == MissingPairs(c.replicas[..n - 1], c.union.Keys) + MissingAt(c.replicas[n - 1], c.union.Keys)
  {
    MissingSnoc(c.replicas[..n - 1], c.replicas[n - 1], c.union.Keys);
    assert c.replicas[..n] == c.replicas[..n - 1] + [c.replicas[n - 1]];
  }

  lemma ConvergedThen(c: Ctx, logs: seq<seq<Entry>>, log: seq<Entry>, n: nat)
    requires 0 < n <= |c.replicas| && |logs| == n - 1 && Converged(c, logs, n - 1)
    requires MissingAt(Mended(c.replicas[n - 1], c.union, log), c.union.Keys) + Gained(log)
          == MissingAt(c.replicas[n - 1], c.union.Keys)
    ensures Converged(c, logs + [log], n)
  {
    RepairedMissing(c, logs, log, n);
    MissingNext(c, n);
    CountAllSnoc(logs, log, Copied);
    CountAllSnoc(logs, log, LOST);
    CountAllSnoc(logs, log, STALE);
  }

  lemma SweepNext(c: Ctx, n: nat, budget: int, t: Tally)
    requires 0 < n <= |c.replicas| && c.union == UnionOf(c.replicas)
    ensures var p := Sweep(c, n - 1, budget, t);
            Sweep(c, n, budget, t).logs == p.logs + [DestRun(c, n - 1, p.budget, p.tally).log] && |p.logs| == n - 1
  {
  }

  lemma {:induction false} SweepConverges(c: Ctx, n: nat, budget: int, t: Tally)
    requires n <= |c.replicas| && c.union == UnionOf(c.replicas)
    ensures Converged(c, Sweep(c, n, budget, t).logs, n)
  {
    if n > 0 {
      SweepConverges(c, n - 1, budget, t);
      var p := Sweep(c, n - 1, budget, t);
      SweepNext(c, n, budget, t);
      MendedConverges(c, n - 1, p.budget, p.tally);
      ConvergedThen(c, p.logs, DestRun(c, n - 1, p.budget, p.tally).log, n);
    } else {
      NothingConverged(c, Sweep(c, 0, budget, t).logs);
    }
  }

  lemma NothingConverged(c: Ctx, logs: seq<seq<Entry>>)
    requires logs == []
    ensures Converged(c, logs, 0)
  {
    assert RepairedUpTo(c, logs, 0) == [] && c.replicas[..0] == [];
  }

  lemma SweepHolds(c: Ctx, n: nat, budget: int, t: Tally, i: nat)
    requires c.union == UnionOf(c.replicas) && i < n <= |c.replicas| && c.replicas[i].reachable
    ensures
      var log := Sweep(c, n, budget, t).logs[i];
      var fin := Digests(After(c.replicas[i], c.union, log));
      fin == Digests(c.replicas[i].groups) + AdoptedDigests(log) && fin <= c.union.Keys
  {
    var b, u := SweepLog(c, n, budget, t, i);
    DestConverges(c, i, b, u);
  }

  /** The union is what the shard should hold, and repair does not change it: whatever the network does,
      only members of it are added. */
  lemma UnionKept(sh: Shard, budget: int, t: Tally)
    ensures UnionOf(Repaired(sh, ShardPass(sh, budget, t).logs)).Keys == UnionOf(sh.replicas).Keys
  {
    var logs := ShardPass(sh, budget, t).logs;
    var rs' := Repaired(sh, logs);
    FoldKeys(All(sh.replicas));
    FoldKeys(All(rs'));
    forall g | g in All(sh.replicas) ensures g.digest in Digests(All(rs')) {
      var i := AllSource(sh.replicas, g);
      assert g in rs'[i].groups;
      AllMember(rs', i, g);
    }
    forall g | g in All(rs') ensures g.digest in UnionOf(sh.replicas).Keys {
      var i := AllSource(rs', g);
      SweepHolds(Context(sh), |sh.replicas|, budget, Survey(t, sh.replicas), i);
    }
  }

  /** Each pass lowers the number of missing (replica, digest) pairs by exactly the copies it
      reports, the groups adopted without an acknowledgement and those declined because they were
      there, whatever the network does. */
  lemma ShardConverges(sh: Shard, budget: int, t: Tally)
    ensures
      var s := ShardPass(sh, budget, t);
      var rs' := Repaired(sh, s.logs);
      MissingPairs(rs', UnionOf(rs').Keys) + (s.tally.copied - t.copied) + CountAll(s.logs, LOST) + CountAll(s.logs, STALE)
        == MissingPairs(sh.replicas, UnionOf(sh.replicas).Keys)
  {
    var rs := sh.replicas;
    var s := ShardPass(sh, budget, t);
    ShardAccounted(sh, budget, t);
    UnionKept(sh, budget, t);
    SweepConverges(Context(sh), |rs|, budget, Survey(t, rs));
    assert rs[..|rs|] == rs;
    assert Repaired(sh, s.logs) == RepairedUpTo(Context(sh), s.logs, |rs|);
  }

  // ------------------------------------------------------------------ the bounds

  /** No single transfer exceeds the ceiling the spool enforces. */
  ghost predicate Capped(sh: Shard) {
    forall i: nat, d :: Size(sh.net(i, d)) <= MAX_BYTES
  }

  /** The largest claim for which the budget subtraction cannot leave int64. */
  const CLAIM_LIMIT: int := TWO63 - MAX_BYTES

  ghost predicate Sane(sh: Shard) {
    forall g | g in All(sh.replicas) :: Claimed(g) <= CLAIM_LIMIT
  }

  /** The int64 test agrees with true arithmetic exactly when the claim does not reach past the
      budget by more than 2^63. */
  lemma BudgetTestExact(budget: int, claimed: int)
    requires -MAX_BYTES <= budget <= MAX_BYTES && 0 <= claimed < TWO63
    ensures (Wrap64(budget - claimed) < 0 <==> budget < claimed) <==> claimed <= TWO63 + budget
  {
    var x := budget - claimed;
    if x >= -TWO63 {
      WrapFits(x);
    } else {
      WrapBelow(x);
    }
  }

  ghost predicate WithinBounds(budget: int, t: Tally, sane: bool) {
    && t.copied <= MAX_GROUPS
    && budget + t.bytes == MAX_BYTES
    && 0 <= t.bytes <= t.copied * MAX_BYTES
    && (sane ==> t.bytes <= 2 * MAX_BYTES)
  }

  lemma {:induction false} FoldBytes(gs: seq<Group>, d: string) returns (g: Group)
    requires d in Fold(gs)
    ensures g in gs && Fold(gs)[d].bytes == g.bytes
  {
    var n := |gs| - 1;
    assert gs == gs[..n] + [gs[n]];
    if gs[n].digest == d { g := gs[n]; } else { g := FoldBytes(gs[..n], d); }
  }

  lemma BoundsStep(sh: Shard, c: Ctx, dst: nat, s: DestState, d: string, sane: bool)
    requires Capped(sh) && (sane ==> Sane(sh)) && c.net == sh.net && c.replicas == sh.replicas
    requires c.union == UnionOf(sh.replicas) && dst < |c.replicas| && d in c.union
    requires WithinBounds(s.budget, s.tally, sane)
    ensures WithinBounds(Step(c, dst, s, d).budget, Step(c, dst, s, d).tally, sane)
  {
    if d !in Digests(c.replicas[dst].groups) && Judge(c, dst, s, d) == Copied {
      var g := FoldBytes(All(sh.replicas), d);
      var moved := Size(c.net(dst, d));
      assert moved <= MAX_BYTES;
      assert (s.tally.copied + 1) * MAX_BYTES == s.tally.copied * MAX_BYTES + MAX_BYTES;
      if sane {
        BudgetTestExact(s.budget, Claimed(c.union[d]));
        assert s.budget >= 0;
      }
    }
  }

  lemma {:induction false} BoundsRun(sh: Shard, c: Ctx, dst: nat, s: DestState, ds: seq<string>, sane: bool)
    requires Capped(sh) && (sane ==> Sane(sh)) && c.net == sh.net && c.replicas == sh.replicas
    requires c.union == UnionOf(sh.replicas) && dst < |c.replicas| && (forall d | d in ds :: d in c.union)
    requires WithinBounds(s.budget, s.tally, sane)
    ensures WithinBounds(Run(c, dst, s, ds).budget, Run(c, dst, s, ds).tally, sane)
  {
    if ds != [] {
      var n := |ds| - 1;
      BoundsRun(sh, c, dst, s, ds[..n], sane);
      BoundsStep(sh, c, dst, Run(c, dst, s, ds[..n]), ds[n], sane);
    }
  }

  lemma {:induction false} BoundsSweep(sh: Shard, c: Ctx, n: nat, budget: int, t: Tally, sane: bool)
    requires Capped(sh) && (sane ==> Sane(sh)) && c.net == sh.net && c.replicas == sh.replicas
    requires c.union == UnionOf(c.replicas) && n <= |c.replicas| && WithinBounds(budget, t, sane)
    ensures WithinBounds(Sweep(c, n, budget, t).budget, Sweep(c, n, budget, t).tally, sane)
  {
    if n > 0 {
      BoundsSweep(sh, c, n - 1, budget, t, sane);
      var p := Sweep(c, n - 1, budget, t);
      OrderMembers(c.replicas);
      if c.replicas[n - 1].reachable {
        BoundsRun(sh, c, n - 1, DestState(c.replicas[n - 1].groups, p.budget, p.tally, []),
                  OrderOf(c.replicas), sane);
      }
    }
  }

  /** Over every shard of the cluster together, one pass copies at most 64 groups; with claims
      below the wrap limit it moves at most twice its byte budget, and whatever is claimed at
      most one ceiling per copied group. */
  lemma {:induction false} PassIsBounded(shards: seq<Shard>, sane: bool)
    requires forall sh | sh in shards :: Capped(sh) && (sane ==> Sane(sh))
    ensures WithinBounds(Pass(shards).budget, Pass(shards).tally, sane)
  {
    if shards != [] {
      var n := |shards| - 1;
      assert forall sh | sh in shards[..n] :: sh in shards;
      PassIsBounded(shards[..n], sane);
      var p := Pass(shards[..n]);
      var sh := shards[n];
      SurveyKeeps(p.tally, sh.replicas);
      BoundsSweep(sh, Context(sh), |sh.replicas|, p.budget, Survey(p.tally, sh.replicas), sane);
    }
  }
}
