/** Groups that arrive unseen, by a lost acknowledgement or a stale inventory: exactly which inventories a
destination survives under every network. */
module RepairLost {
  import opened Sorting
  import opened Repair
  import opened RepairSafety

  /** The pass could send d to dst now: the bounds leave room and somebody else has it. */
  ghost predicate Sendable(c: Ctx, dst: nat, budget: int, copied: nat, d: string)
    requires dst < |c.replicas| && d in c.union
  {
    !OverBudget(budget, copied, c.union[d]) && PickSource(c.replicas, d, c.replicas[dst].url) != ""
  }

  /** The two ways a group can be on the destination without the pass seeing it arrive. */
  predicate Hidden(o: Outcome) {
    o == Failed(true) || o == AlreadyHeld(true)
  }

  function VerdictOf(o: Outcome): Verdict {
    match o
    case Moved(_) => Copied
    case AlreadyHeld(h) => Declined(h)
    case Failed(a) => Broken(a)
  }

  /** `first` is on the destination unseen, `second` is moved, all else fails. */
  function Hiding(how: Outcome, first: string, second: string): (nat, string) -> Outcome {
    (i: nat, d: string) => if d == first then how else if d == second then Moved(0) else Failed(false)
  }

  /** Until `second` comes up nothing is acknowledged, and `first` is adopted if it was considered. */
  ghost predicate Waiting(c: Ctx, dst: nat, budget: int, t: Tally, how: Outcome, ds: seq<string>, s: DestState, first: string)
    requires dst < |c.replicas|
  {
    && s.spans == c.replicas[dst].groups && s.budget == budget && s.tally.copied == t.copied
    && (first in ds ==> Entry(first, VerdictOf(how)) in s.log)
  }

  lemma {:induction false} WaitingRun(c: Ctx, dst: nat, budget: int, t: Tally, how: Outcome, ds: seq<string>, first: string, second: string)
    requires Hidden(how) && dst < |c.replicas| && c.net == Hiding(how, first, second) && (forall d | d in ds :: d in c.union)
    requires second !in ds && Clear(c, dst, first) && Sendable(c, dst, budget, t.copied, first)
    ensures Waiting(c, dst, budget, t, how, ds, Run(c, dst, DestState(c.replicas[dst].groups, budget, t, []), ds), first)
  {
    if ds != [] {
      var n := |ds| - 1;
      assert ds == ds[..n] + [ds[n]];
      WaitingRun(c, dst, budget, t, how, ds[..n], first, second);
      WaitingStep(c, dst, budget, t, how, ds[..n], Run(c, dst, DestState(c.replicas[dst].groups, budget, t, []), ds[..n]), ds[n], first, second);
    }
  }

  lemma WaitingStep(c: Ctx, dst: nat, budget: int, t: Tally, how: Outcome, ds: seq<string>, s: DestState, d: string, first: string, second: string)
    requires Hidden(how) && dst < |c.replicas| && c.net == Hiding(how, first, second) && d in c.union && d != second
    requires Clear(c, dst, first) && Sendable(c, dst, budget, t.copied, first) && Waiting(c, dst, budget, t, how, ds, s, first)
    ensures Waiting(c, dst, budget, t, how, ds + [d], Step(c, dst, s, d), first)
  {
    if d == first {
      NothingMet(s.spans, c.union[first], c.holders);
      assert Judge(c, dst, s, d) == VerdictOf(how);
    }
  }

  lemma {:induction false} LogKept(c: Ctx, dst: nat, s: DestState, ds: seq<string>, n: nat, e: Entry)
    requires dst < |c.replicas| && (forall d | d in ds :: d in c.union) && n <= |ds|
    requires e in Run(c, dst, s, ds[..n]).log
    ensures e in Run(c, dst, s, ds).log
    decreases |ds| - n
  {
    if n == |ds| {
      assert ds[..n] == ds;
    } else {
      assert ds[..n + 1][..n] == ds[..n];
      LogKept(c, dst, s, ds, n + 1, e);
    }
  }

  lemma {:induction false} ReceivedHas(u: map<string, Group>, log: seq<Entry>, e: Entry)
    requires e in log && Adopted(e.verdict) && e.digest in u
    ensures u[e.digest] in Received(u, log)
  {
    var n := |log| - 1;
    if e in log[..n] { ReceivedHas(u, log[..n], e); } else { assert e == log[n]; }
  }

  lemma SecondTaken(c: Ctx, dst: nat, budget: int, t: Tally, how: Outcome, ds: seq<string>, s: DestState, first: string, second: string)
    requires Hidden(how) && dst < |c.replicas| && c.net == Hiding(how, first, second) && first != second
    requires Clear(c, dst, second) && Sendable(c, dst, budget, t.copied, second) && Waiting(c, dst, budget, t, how, ds, s, first)
    ensures Entry(second, Copied) in Step(c, dst, s, second).log
  {
    NothingMet(s.spans, c.union[second], c.holders);
    assert Judge(c, dst, s, second) == Copied;
  }

  /** Both groups end up on the destination. */
  lemma BothTaken(c: Ctx, dst: nat, budget: int, t: Tally, how: Outcome, ds: seq<string>, first: string, second: string, p: nat, q: nat)
    requires Hidden(how) && dst < |c.replicas| && c.net == Hiding(how, first, second) && Clear(c, dst, first) && Clear(c, dst, second)
    requires Sendable(c, dst, budget, t.copied, first) && Sendable(c, dst, budget, t.copied, second)
    requires p < q < |ds| && ds[p] == first && ds[q] == second && NoDup(ds) && (forall d | d in ds :: d in c.union)
    ensures var log := Run(c, dst, DestState(c.replicas[dst].groups, budget, t, []), ds).log;
            Entry(first, VerdictOf(how)) in log && Entry(second, Copied) in log
  {
    var s0 := DestState(c.replicas[dst].groups, budget, t, []);
    var front := ds[..q];
    assert second !in front && front[p] == first && first != second;
    WaitingRun(c, dst, budget, t, how, front, first, second);
    var s := Run(c, dst, s0, front);
    LogKept(c, dst, s0, ds, q, Entry(first, VerdictOf(how)));
    SecondTaken(c, dst, budget, t, how, front, s, first, second);
    assert ds[..q + 1][..q] == front;
    LogKept(c, dst, s0, ds, q + 1, Entry(second, Copied));
  }

  lemma TwoMeet(gs: seq<Group>, a: Group, b: Group)
    requires a in gs && b in gs && a != b && Overlaps(a, b)
    ensures SelfOverlap(gs)
  {
    var i :| 0 <= i < |gs| && gs[i] == a;
    var j :| 0 <= j < |gs| && gs[j] == b;
    if i < j { assert Overlaps(gs[i], gs[j]); } else { assert Overlaps(gs[j], gs[i]); }
  }

  /** Both on the destination, they meet. */
  lemma BothMeet(c: Ctx, dst: nat, log: seq<Entry>, first: Entry, second: Entry)
    requires dst < |c.replicas| && first in log && second in log && Adopted(first.verdict) && Adopted(second.verdict)
    requires first.digest in c.union && second.digest in c.union && c.union[first.digest] != c.union[second.digest]
    requires Overlaps(c.union[first.digest], c.union[second.digest])
    ensures SelfOverlap(After(c.replicas[dst], c.union, log))
  {
    ReceivedHas(c.union, log, first);
    ReceivedHas(c.union, log, second);
    TwoMeet(After(c.replicas[dst], c.union, log), c.union[first.digest], c.union[second.digest]);
  }

  lemma PlaceIn(rs: seq<Replica>, d: string) returns (i: nat)
    requires d in UnionOf(rs)
    ensures i < |OrderOf(rs)| && OrderOf(rs)[i] == d
  {
    OrderMembers(rs);
    FoldKeys(All(rs));
    assert d in Elems(OrderOf(rs));
    i :| 0 <= i < |OrderOf(rs)| && OrderOf(rs)[i] == d;
  }

  /** Two sendable groups that meet: some network that hides one of them leaves both on the destination. */
  lemma MeetingPairIsTaken(c: Ctx, dst: nat, budget: int, t: Tally, how: Outcome, a: string, b: string)
    returns (net: (nat, string) -> Outcome)
    requires Hidden(how) && dst < |c.replicas| && c.replicas[dst].reachable && c.union == UnionOf(c.replicas)
    requires Clear(c, dst, a) && Clear(c, dst, b) && a != b && Overlaps(c.union[a], c.union[b])
    requires Sendable(c, dst, budget, t.copied, a) && Sendable(c, dst, budget, t.copied, b)
    ensures HidesOnly(net, how)
    ensures SelfOverlap(After(c.replicas[dst], c.union, DestRun(c.(net := net), dst, budget, t).log))
  {
    OrderMembers(c.replicas);
    FoldKeys(All(c.replicas));
    var i := PlaceIn(c.replicas, a);
    var j := PlaceIn(c.replicas, b);
    var first, second := if i < j then a else b, if i < j then b else a;
    net := Hiding(how, first, second);
    var c' := c.(net := net);
    BothTaken(c', dst, budget, t, how, OrderOf(c.replicas), first, second, if i < j then i else j, if i < j then j else i);
    BothMeet(c', dst, DestRun(c', dst, budget, t).log, Entry(first, VerdictOf(how)), Entry(second, Copied));
  }

  /** Whatever arrives unseen does so in the given way. */
  ghost predicate HidesOnly(net: (nat, string) -> Outcome, how: Outcome) {
    forall i: nat, d | Hidden(net(i, d)) :: net(i, d) == how
  }

  ghost predicate StaysClean(c: Ctx, dst: nat, budget: int, t: Tally, net: (nat, string) -> Outcome)
    requires dst < |c.replicas| && c.union == UnionOf(c.replicas)
  {
    !SelfOverlap(After(c.replicas[dst], c.union, DestRun(c.(net := net), dst, budget, t).log))
  }

  lemma ApartStaysClean(c: Ctx, dst: nat, budget: int, t: Tally, net: (nat, string) -> Outcome)
    requires Trusted(c) && dst < |c.replicas| && c.replicas[dst].reachable
    requires !SelfOverlap(c.replicas[dst].groups) && Apart(c, dst)
    ensures StaysClean(c, dst, budget, t, net)
  {
    var c' := c.(net := net);
    assert Trusted(c');
    assert Apart(c', dst) by {
      assert forall d :: Clear(c', dst, d) <==> Clear(c, dst, d);
    }
    StaysNonOverlapping(c', dst, budget, t);
  }

  /** A destination without overlaps has none after the pass under every network that loses answers,
      exactly when the groups it misses that are clear of its own are pairwise disjoint; the bounds
      leaving room for each of them and each having a source. The same condition is exact for networks
      that lose no answer and whose destinations truly decline what they did not report, and for all
      networks. */
  lemma UnseenArrivalsExactly(c: Ctx, dst: nat, budget: int, t: Tally, how: Outcome)
    requires Hidden(how) && Trusted(c) && dst < |c.replicas| && c.replicas[dst].reachable
    requires !SelfOverlap(c.replicas[dst].groups)
    requires forall d | Clear(c, dst, d) :: Sendable(c, dst, budget, t.copied, d)
    ensures (forall net | HidesOnly(net, how) :: StaysClean(c, dst, budget, t, net)) <==> Apart(c, dst)
    ensures (forall net :: StaysClean(c, dst, budget, t, net)) <==> Apart(c, dst)
  {
    if Apart(c, dst) {
      forall net ensures StaysClean(c, dst, budget, t, net) { ApartStaysClean(c, dst, budget, t, net); }
    } else {
      var a, b :| Clear(c, dst, a) && Clear(c, dst, b) && a != b && Overlaps(c.union[a], c.union[b]);
      var net := MeetingPairIsTaken(c, dst, budget, t, how, a, b);
      assert !StaysClean(c, dst, budget, t, net);
    }
  }
}
