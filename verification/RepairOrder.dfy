/** The order a pass visits the union in, and what it decides: of groups that meet, the one whose span
starts first, and of those the narrower, is judged first and keeps the others out. */
module RepairOrder {
  import opened Basics
  import opened Sorting
  import opened Repair
  import opened RepairSafety
  import opened RepairAccounting

  /** Starts earlier; on equal starts ends earlier; on equal spans has the smaller digest. */
  predicate Precedes(a: Group, b: Group) {
    || a.tmin < b.tmin
    || (a.tmin == b.tmin && a.tmax < b.tmax)
    || (a.tmin == b.tmin && a.tmax == b.tmax && LexLess(a.digest, b.digest))
  }

  lemma PrecedesOneWay(a: Group, b: Group)
    requires Precedes(a, b)
    ensures !Precedes(b, a)
  {
    LexTotal(a.digest, b.digest);
    if LexLess(a.digest, b.digest) && LexLess(b.digest, a.digest) { LexTransitive(a.digest, b.digest, a.digest); }
  }

  /** The visit order is the order of the union's spans. */
  lemma OrderIsTimeOrder(rs: seq<Replica>, i: nat, j: nat)
    requires i < j < |OrderOf(rs)|
    ensures var u, a, b := UnionOf(rs), OrderOf(rs)[i], OrderOf(rs)[j];
            && a in u && b in u && u[a].tmin <= u[b].tmin
            && (u[a].tmin == u[b].tmin ==> u[a].tmax <= u[b].tmax)
            && (u[a].tmin == u[b].tmin && u[a].tmax == u[b].tmax ==> LexLess(a, b))
            && Precedes(u[a], u[b])
  {
    var u := UnionOf(rs);
    var lt := (a, b) => Before(u, a, b);
    OrderMembers(rs);
    FoldKeys(All(rs));
    KeySeqRight(All(rs));
    BeforeTotal(u, u.Keys);
    SortOrders(lt, KeySeq(All(rs)));
    var o := OrderOf(rs);
    assert o[i] in o && o[j] in o;
    assert lt(o[i], o[j]);
  }

  // ------------------------------------------------------------------ the log follows the order

  lemma {:induction false} MissingOrder(ds: seq<string>, held: set<string>, i: nat, j: nat) returns (p: nat, q: nat)
    requires i < j < |ds| && ds[i] !in held && ds[j] !in held
    ensures p < q < |Missing(ds, held)| && Missing(ds, held)[p] == ds[i] && Missing(ds, held)[q] == ds[j]
  {
    var n := |ds| - 1;
    if j < n {
      p, q := MissingOrder(ds[..n], held, i, j);
    } else {
      p := MissingPlace(ds[..n], held, i);
      q := |Missing(ds[..n], held)|;
    }
  }

  lemma {:induction false} MissingPlace(ds: seq<string>, held: set<string>, i: nat) returns (p: nat)
    requires i < |ds| && ds[i] !in held
    ensures p < |Missing(ds, held)| && Missing(ds, held)[p] == ds[i]
  {
    var n := |ds| - 1;
    if i < n { p := MissingPlace(ds[..n], held, i); } else { p := |Missing(ds[..n], held)|; }
  }

  lemma OrderPlace(rs: seq<Replica>, d: string) returns (i: nat)
    requires d in UnionOf(rs)
    ensures i < |OrderOf(rs)| && OrderOf(rs)[i] == d
  {
    OrderMembers(rs);
    assert d in Elems(OrderOf(rs));
    i :| 0 <= i < |OrderOf(rs)| && OrderOf(rs)[i] == d;
  }

  /** Of two groups missing at a destination the one that precedes is judged first. */
  lemma EarlierIsJudgedFirst(c: Ctx, dst: nat, budget: int, t: Tally, a: string, b: string) returns (p: nat, q: nat)
    requires c.union == UnionOf(c.replicas) && dst < |c.replicas| && c.replicas[dst].reachable
    requires a in c.union && b in c.union && Precedes(c.union[a], c.union[b])
    requires a !in Digests(c.replicas[dst].groups) && b !in Digests(c.replicas[dst].groups)
    ensures var log := DestRun(c, dst, budget, t).log;
            p < q < |log| && log[p].digest == a && log[q].digest == b
  {
    var own, ds := c.replicas[dst].groups, OrderOf(c.replicas);
    var i := OrderPlace(c.replicas, a);
    var j := OrderPlace(c.replicas, b);
    PrecedesOneWay(c.union[a], c.union[b]);
    if j < i { OrderIsTimeOrder(c.replicas, j, i); }
    OrderMembers(c.replicas);
    RunLogs(c, dst, DestState(own, budget, t, []), ds);
    p, q := MissingOrder(ds, Digests(own), i, j);
    var log := DestRun(c, dst, budget, t).log;
    assert LogDigests(log)[p] == a && LogDigests(log)[q] == b;
  }

  // ------------------------------------------------------------------ the spans are the copies

  /** The copies of a log, in order. */
  function Copies(u: map<string, Group>, log: seq<Entry>): seq<Group> {
    if log == [] then []
    else
      var e := log[|log| - 1];
      Copies(u, log[..|log| - 1]) + if e.verdict == Copied && e.digest in u then [u[e.digest]] else []
  }

  /** Where a run stands before entry k: guarded by what the destination reported and the copies so far. */
  ghost predicate StandsAt(c: Ctx, dst: nat, own: seq<Group>, log: seq<Entry>, k: nat)
    requires dst < |c.replicas| && k < |log|
  {
    exists s: DestState ::
      && s.spans == own + Copies(c.union, log[..k]) && log[k].digest in c.union
      && log[k].verdict == Judge(c, dst, s, log[k].digest)
  }

  ghost predicate Explained(c: Ctx, dst: nat, own: seq<Group>, s: DestState)
    requires dst < |c.replicas|
  {
    && s.spans == own + Copies(c.union, s.log)
    && forall k: nat | k < |s.log| :: StandsAt(c, dst, own, s.log, k)
  }

  lemma ExplainedStep(c: Ctx, dst: nat, own: seq<Group>, s: DestState, d: string)
    requires dst < |c.replicas| && d in c.union && Explained(c, dst, own, s)
    ensures Explained(c, dst, own, Step(c, dst, s, d))
  {
    var s' := Step(c, dst, s, d);
    if d !in Digests(c.replicas[dst].groups) {
      var e := Entry(d, Judge(c, dst, s, d));
      assert s'.log == s.log + [e] && s'.log[..|s.log|] == s.log;
      forall k: nat | k < |s'.log| ensures StandsAt(c, dst, own, s'.log, k) {
        if k < |s.log| {
          assert s'.log[..k] == s.log[..k] && s'.log[k] == s.log[k];
          assert StandsAt(c, dst, own, s.log, k);
        } else {
          assert s.spans == own + Copies(c.union, s'.log[..k]) && s'.log[k].verdict == Judge(c, dst, s, s'.log[k].digest);
        }
      }
    }
  }

  lemma {:induction false} ExplainedRun(c: Ctx, dst: nat, s: DestState, ds: seq<string>)
    requires dst < |c.replicas| && (forall d | d in ds :: d in c.union) && s.log == []
    ensures Explained(c, dst, s.spans, Run(c, dst, s, ds))
  {
    if ds == [] {
      assert s.spans + [] == s.spans;
    } else {
      var n := |ds| - 1;
      ExplainedRun(c, dst, s, ds[..n]);
      ExplainedStep(c, dst, s.spans, Run(c, dst, s, ds[..n]), ds[n]);
    }
  }

  lemma {:induction false} CopiesAre(u: map<string, Group>, log: seq<Entry>)
    ensures forall h | h in Copies(u, log) :: exists k :: 0 <= k < |log| && log[k].verdict == Copied && log[k].digest in u && h == u[log[k].digest]
    ensures forall k | 0 <= k < |log| && log[k].verdict == Copied && log[k].digest in u :: u[log[k].digest] in Copies(u, log)
  {
    if log != [] {
      var n := |log| - 1;
      CopiesAre(u, log[..n]);
      forall h | h in Copies(u, log) ensures exists k :: 0 <= k < |log| && log[k].verdict == Copied && log[k].digest in u && h == u[log[k].digest] {
        if h in Copies(u, log[..n]) {
          var k :| 0 <= k < n && log[..n][k].verdict == Copied && log[..n][k].digest in u && h == u[log[..n][k].digest];
          assert log[k] == log[..n][k];
        }
      }
      forall k | 0 <= k < |log| && log[k].verdict == Copied && log[k].digest in u ensures u[log[k].digest] in Copies(u, log) {
        if k < n { assert log[..n][k] == log[k]; }
      }
    }
  }

  // ------------------------------------------------------------------ who keeps whom out

  /** A missing group that is clear of what its destination reported is blocked exactly when it meets a
      group copied before it. */
  lemma BlockedExactly(c: Ctx, dst: nat, budget: int, t: Tally, k: nat)
    requires Trusted(c) && dst < |c.replicas| && c.replicas[dst].reachable
    requires k < |DestRun(c, dst, budget, t).log| && Clear(c, dst, DestRun(c, dst, budget, t).log[k].digest)
    ensures var log := DestRun(c, dst, budget, t).log;
            log[k].verdict == Blocked <==>
              exists j :: 0 <= j < k && log[j].verdict == Copied && log[j].digest in c.union
                          && Overlaps(c.union[log[j].digest], c.union[log[k].digest])
  {
    var own, log := c.replicas[dst].groups, DestRun(c, dst, budget, t).log;
    OrderMembers(c.replicas);
    ExplainedRun(c, dst, DestState(own, budget, t, []), OrderOf(c.replicas));
    assert StandsAt(c, dst, own, log, k);
    var s: DestState :| s.spans == own + Copies(c.union, log[..k]) && log[k].verdict == Judge(c, dst, s, log[k].digest);
    LogNoDup(c, dst, DestState(own, budget, t, []), OrderOf(c.replicas));
    GuardOverCopies(c, dst, log, k, s.spans);
  }

  lemma GuardOverCopies(c: Ctx, dst: nat, log: seq<Entry>, k: nat, spans: seq<Group>)
    requires Trusted(c) && dst < |c.replicas| && c.replicas[dst].reachable && k < |log| && Clear(c, dst, log[k].digest)
    requires spans == c.replicas[dst].groups + Copies(c.union, log[..k])
    requires forall j | 0 <= j < k :: log[j].digest != log[k].digest
    ensures OverlappingFrom(spans, c.union[log[k].digest], c.holders) != "" <==>
            exists j :: 0 <= j < k && log[j].verdict == Copied && log[j].digest in c.union
                        && Overlaps(c.union[log[j].digest], c.union[log[k].digest])
  {
    var own, d := c.replicas[dst].groups, log[k].digest;
    var before := log[..k];
    TrustedKeyed(c);
    CopiesAre(c.union, before);
    forall h | h in spans ensures h.digest != "" {
      if h in own {
        AllMember(c.replicas, dst, h);
      } else {
        assert h in Copies(c.union, before);
      }
    }
    GuardMeets(c, spans, d);
    assert forall h | h in own :: !Overlaps(c.union[d], h);
    if Meets(c, spans, d) {
      var h :| h in spans && !HoldersShare(c.holders, h.digest, d) && Overlaps(c.union[d], h);
      assert h in Copies(c.union, before);
      var j :| 0 <= j < |before| && before[j].verdict == Copied && before[j].digest in c.union && h == c.union[before[j].digest];
      assert log[j] == before[j];
    }
    if j :| 0 <= j < k && log[j].verdict == Copied && log[j].digest in c.union && Overlaps(c.union[log[j].digest], c.union[d]) {
      assert before[j] == log[j];
      var h := c.union[log[j].digest];
      assert h in spans;
      assert !HoldersShare(c.holders, h.digest, d);
    }
  }

  /** Of two groups that meet, both missing at a destination and clear of what it reported, the one that
      precedes is judged first; if it is copied the other is blocked, and if it is blocked itself that is
      by a copy judged still earlier. So what is sent of a range is its earliest, finest spelling. */
  lemma EarlierIsSent(c: Ctx, dst: nat, budget: int, t: Tally, a: string, b: string) returns (p: nat, q: nat)
    requires Trusted(c) && dst < |c.replicas| && c.replicas[dst].reachable
    requires Clear(c, dst, a) && Clear(c, dst, b) && Precedes(c.union[a], c.union[b]) && Overlaps(c.union[a], c.union[b])
    ensures var log := DestRun(c, dst, budget, t).log;
            && p < q < |log| && log[p].digest == a && log[q].digest == b
            && (log[p].verdict == Copied ==> log[q].verdict == Blocked)
            && (log[p].verdict == Blocked ==>
                  exists j :: 0 <= j < p && log[j].verdict == Copied && log[j].digest in c.union
                              && Overlaps(c.union[log[j].digest], c.union[a]) && Precedes(c.union[log[j].digest], c.union[a]))
  {
    p, q := EarlierIsJudgedFirst(c, dst, budget, t, a, b);
    BlockedExactly(c, dst, budget, t, p);
    BlockedExactly(c, dst, budget, t, q);
    var log := DestRun(c, dst, budget, t).log;
    if log[p].verdict == Blocked {
      var j :| 0 <= j < p && log[j].verdict == Copied && log[j].digest in c.union && Overlaps(c.union[log[j].digest], c.union[a]);
      JudgedInOrder(c, dst, budget, t, j, p);
    }
  }

  /** The log is in the order of the spans. */
  lemma JudgedInOrder(c: Ctx, dst: nat, budget: int, t: Tally, j: nat, p: nat)
    requires c.union == UnionOf(c.replicas) && dst < |c.replicas| && c.replicas[dst].reachable
    requires j < p < |DestRun(c, dst, budget, t).log|
    ensures var log := DestRun(c, dst, budget, t).log;
            log[j].digest in c.union && log[p].digest in c.union && Precedes(c.union[log[j].digest], c.union[log[p].digest])
  {
    var own, ds, log := c.replicas[dst].groups, OrderOf(c.replicas), DestRun(c, dst, budget, t).log;
    OrderMembers(c.replicas);
    RunLogs(c, dst, DestState(own, budget, t, []), ds);
    var x, y := MissingPlaces(ds, Digests(own), j, p);
    assert LogDigests(log)[j] == ds[x] && LogDigests(log)[p] == ds[y];
    OrderIsTimeOrder(c.replicas, x, y);
  }

  lemma {:induction false} MissingPlaces(ds: seq<string>, held: set<string>, p: nat, q: nat) returns (i: nat, j: nat)
    requires p < q < |Missing(ds, held)|
    ensures i < j < |ds| && ds[i] == Missing(ds, held)[p] && ds[j] == Missing(ds, held)[q]
  {
    var n := |ds| - 1;
    if q < |Missing(ds[..n], held)| {
      i, j := MissingPlaces(ds[..n], held, p, q);
    } else {
      i := MissingFrom(ds[..n], held, p);
      j := n;
    }
  }

  lemma {:induction false} MissingFrom(ds: seq<string>, held: set<string>, p: nat) returns (i: nat)
    requires p < |Missing(ds, held)|
    ensures i < |ds| && ds[i] == Missing(ds, held)[p]
  {
    var n := |ds| - 1;
    if p < |Missing(ds[..n], held)| { i := MissingFrom(ds[..n], held, p); } else { i := n; }
  }
}
