/** What each number of a repair report counts, over all shards and replicas. */
module RepairBooks {
  import opened Sorting
  import opened Repair
  import opened RepairSafety
  import opened RepairAccounting
  import opened RepairReport

  datatype Heading = Copies | Bytes | Blocks | Leaves | Declines | Failures | Overlapping

  function At(t: Tally, h: Heading): int {
    match h
    case Copies => t.copied
    case Bytes => t.bytes
    case Blocks => t.blocked
    case Leaves => t.remaining
    case Declines => t.declined
    case Failures => t.failed
    case Overlapping => t.selfOverlapping
  }

  function One(b: bool): nat {
    if b then 1 else 0
  }

  /** What an entry of a destination's log adds under a heading: one for its own kind of outcome, and for a
      copy the bytes that moved. */
  function Weight(h: Heading, net: (nat, string) -> Outcome, dst: nat, e: Entry): nat {
    match h
    case Copies => One(e.verdict == Copied)
    case Bytes => if e.verdict == Copied && net(dst, e.digest).Moved? then net(dst, e.digest).size else 0
    case Blocks => One(e.verdict == Blocked)
    case Leaves => One(e.verdict == Deferred)
    case Declines => One(e.verdict.Declined?)
    case Failures => One(e.verdict.Broken?)
    case Overlapping => 0
  }

  function LogTotal(h: Heading, net: (nat, string) -> Outcome, dst: nat, log: seq<Entry>): nat {
    if log == [] then 0
    else LogTotal(h, net, dst, log[..|log| - 1]) + Weight(h, net, dst, log[|log| - 1])
  }

  function ShardTotal(h: Heading, net: (nat, string) -> Outcome, logs: seq<seq<Entry>>): nat {
    if logs == [] then 0
    else ShardTotal(h, net, logs[..|logs| - 1]) + LogTotal(h, net, |logs| - 1, logs[|logs| - 1])
  }

  /** The replicas that answered and overlap themselves. */
  function Muddled(rs: seq<Replica>): set<nat> {
    set i: nat | i < |rs| && rs[i].reachable && SelfOverlap(rs[i].groups)
  }

  function PassTotal(h: Heading, shards: seq<Shard>, logs: seq<seq<seq<Entry>>>): nat
    requires |logs| == |shards|
  {
    if shards == [] then 0
    else
      var n := |shards| - 1;
      PassTotal(h, shards[..n], logs[..n]) + ShardTotal(h, shards[n].net, logs[n])
      + if h == Overlapping then |Muddled(shards[n].replicas)| else 0
  }

  lemma LogTotalSnoc(h: Heading, net: (nat, string) -> Outcome, dst: nat, log: seq<Entry>, e: Entry)
    ensures LogTotal(h, net, dst, log + [e]) == LogTotal(h, net, dst, log) + Weight(h, net, dst, e)
  {
    assert (log + [e])[..|log|] == log;
  }

  lemma AccountReports(h: Heading, net: (nat, string) -> Outcome, dst: nat, t: Tally, e: Entry)
    ensures At(Account(t, e.verdict, if e.verdict == Copied then Size(net(dst, e.digest)) else 0), h) == At(t, h) + Weight(h, net, dst, e)
  {
  }

  lemma StepReports(h: Heading, c: Ctx, dst: nat, s: DestState, d: string)
    requires dst < |c.replicas| && d in c.union
    ensures var next := Step(c, dst, s, d);
            At(next.tally, h) - LogTotal(h, c.net, dst, next.log) == At(s.tally, h) - LogTotal(h, c.net, dst, s.log)
  {
    if d !in Digests(c.replicas[dst].groups) {
      var e := Entry(d, Judge(c, dst, s, d));
      AccountReports(h, c.net, dst, s.tally, e);
      LogTotalSnoc(h, c.net, dst, s.log, e);
    }
  }

  lemma {:induction false} RunReports(h: Heading, c: Ctx, dst: nat, s: DestState, ds: seq<string>)
    requires dst < |c.replicas| && (forall d | d in ds :: d in c.union) && s.log == []
    ensures At(Run(c, dst, s, ds).tally, h) == At(s.tally, h) + LogTotal(h, c.net, dst, Run(c, dst, s, ds).log)
  {
    if ds != [] {
      var n := |ds| - 1;
      RunReports(h, c, dst, s, ds[..n]);
      StepReports(h, c, dst, Run(c, dst, s, ds[..n]), ds[n]);
    }
  }

  lemma DestReports(h: Heading, c: Ctx, dst: nat, budget: int, t: Tally)
    requires dst < |c.replicas| && c.union == UnionOf(c.replicas)
    ensures At(DestRun(c, dst, budget, t).tally, h) == At(t, h) + LogTotal(h, c.net, dst, DestRun(c, dst, budget, t).log)
  {
    OrderMembers(c.replicas);
    if c.replicas[dst].reachable {
      RunReports(h, c, dst, DestState(c.replicas[dst].groups, budget, t, []), OrderOf(c.replicas));
    }
  }

  lemma ShardTotalSnoc(h: Heading, net: (nat, string) -> Outcome, logs: seq<seq<Entry>>, log: seq<Entry>)
    ensures ShardTotal(h, net, logs + [log]) == ShardTotal(h, net, logs) + LogTotal(h, net, |logs|, log)
  {
    assert (logs + [log])[..|logs|] == logs;
  }

  lemma {:induction false} SweepReports(h: Heading, c: Ctx, n: nat, budget: int, t: Tally)
    requires n <= |c.replicas| && c.union == UnionOf(c.replicas)
    ensures At(Sweep(c, n, budget, t).tally, h) == At(t, h) + ShardTotal(h, c.net, Sweep(c, n, budget, t).logs)
  {
    if n > 0 {
      SweepReports(h, c, n - 1, budget, t);
      var p := Sweep(c, n - 1, budget, t);
      DestReports(h, c, n - 1, p.budget, p.tally);
      ShardTotalSnoc(h, c.net, p.logs, DestRun(c, n - 1, p.budget, p.tally).log);
    }
  }

  lemma MuddledSnoc(rs: seq<Replica>, r: Replica)
    ensures |Muddled(rs + [r])| == |Muddled(rs)| + One(r.reachable && SelfOverlap(r.groups))
  {
    var more := rs + [r];
    assert forall i: nat | i < |rs| :: more[i] == rs[i];
    if r.reachable && SelfOverlap(r.groups) {
      assert Muddled(more) == Muddled(rs) + {|rs|};
    } else {
      assert Muddled(more) == Muddled(rs);
    }
  }

  lemma {:induction false} SurveyReports(h: Heading, t: Tally, rs: seq<Replica>)
    ensures At(Survey(t, rs), h) == At(t, h) + if h == Overlapping then |Muddled(rs)| else 0
  {
    if |rs| > 0 {
      var n := |rs| - 1;
      SurveyReports(h, t, rs[..n]);
      MuddledSnoc(rs[..n], rs[n]);
      assert rs == rs[..n] + [rs[n]];
    } else {
      assert Muddled(rs) == {};
    }
  }

  lemma ShardReports(h: Heading, sh: Shard, budget: int, t: Tally)
    ensures var s := ShardPass(sh, budget, t);
            At(s.tally, h) == At(t, h) + ShardTotal(h, sh.net, s.logs) + if h == Overlapping then |Muddled(sh.replicas)| else 0
  {
    SurveyReports(h, t, sh.replicas);
    SweepReports(h, Context(sh), |sh.replicas|, budget, Survey(t, sh.replicas));
  }

  lemma PassTotalSnoc(h: Heading, shards: seq<Shard>, logs: seq<seq<seq<Entry>>>, sh: Shard, more: seq<seq<Entry>>)
    requires |logs| == |shards|
    ensures PassTotal(h, shards + [sh], logs + [more]) ==
            PassTotal(h, shards, logs) + ShardTotal(h, sh.net, more) + if h == Overlapping then |Muddled(sh.replicas)| else 0
  {
    assert (shards + [sh])[..|shards|] == shards && (logs + [more])[..|logs|] == logs;
  }

  ghost predicate Tells(h: Heading, shards: seq<Shard>) {
    At(Pass(shards).tally, h) == PassTotal(h, shards, Pass(shards).logs)
  }

  lemma TellsNext(h: Heading, shards: seq<Shard>, sh: Shard, all: seq<Shard>)
    requires Tells(h, shards) && all == shards + [sh]
    ensures Tells(h, all)
  {
    var p := Pass(shards);
    ShardReports(h, sh, p.budget, p.tally);
    PassSnoc(shards, sh);
    PassTotalSnoc(h, shards, p.logs, sh, ShardPass(sh, p.budget, p.tally).logs);
  }

  /** Under every heading the report of a pass is the total over every shard's and every replica's log:
      copies, blocked, left, declined and failed entries each under their own, the bytes that moved, and
      the replicas that overlap themselves. What is left of the budget is the rest of it. */
  lemma {:induction false} EveryHeadingReported(h: Heading, shards: seq<Shard>)
    ensures At(Pass(shards).tally, h) == PassTotal(h, shards, Pass(shards).logs)
    ensures Tells(h, shards)
    decreases |shards|
  {
    if |shards| > 0 {
      var init, sh := LastShard(shards);
      EveryHeadingReported(h, init);
      TellsNext(h, init, sh, shards);
    } else {
      PassNothing(shards);
    }
  }

  lemma {:induction false} BudgetIsRest(shards: seq<Shard>)
    ensures Pass(shards).budget == MAX_BYTES - Pass(shards).tally.bytes
    decreases |shards|
  {
    if |shards| > 0 {
      var init, sh := LastShard(shards);
      BudgetIsRest(init);
      PassSnoc(init, sh);
      SurveyReports(Bytes, Pass(init).tally, sh.replicas);
      SweepSpends(Context(sh), |sh.replicas|, Pass(init).budget, Survey(Pass(init).tally, sh.replicas));
    }
  }

  lemma {:induction false} SweepSpends(c: Ctx, n: nat, budget: int, t: Tally)
    requires n <= |c.replicas| && c.union == UnionOf(c.replicas)
    ensures Sweep(c, n, budget, t).budget + Sweep(c, n, budget, t).tally.bytes == budget + t.bytes
  {
    if n > 0 {
      SweepSpends(c, n - 1, budget, t);
      var p := Sweep(c, n - 1, budget, t);
      if c.replicas[n - 1].reachable { EveryMissingPairBookedOnce(c, n - 1, p.budget, p.tally); }
    }
  }
}
