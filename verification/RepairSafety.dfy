/** What a repair pass never does: put a group on top of rows its destination already has. */
module RepairSafety {
  import opened Basics
  import opened Sorting
  import opened Repair

  /** A digest determines its span, wherever it is reported from. */
  ghost predicate Honest(rs: seq<Replica>) {
    forall a, b | a in All(rs) && b in All(rs) && a.digest == b.digest ::
      a.tmin == b.tmin && a.tmax == b.tmax
  }

  ghost predicate Named(rs: seq<Replica>) {
    forall a | a in All(rs) :: a.digest != ""
  }

  /** The destination holds the group although the pass does not add it to the spans it is guarded by:
      the answer was lost, or the group was there and not reported. */
  predicate Unseen(v: Verdict) {
    v == Broken(true) || v == Declined(true)
  }

  /** The destination holds the group once it has been considered. */
  predicate Adopted(v: Verdict) {
    v == Copied || Unseen(v)
  }

  /** The group passed the guard and the bounds and was sent. */
  predicate Sent(v: Verdict) {
    !v.Blocked? && !v.Deferred?
  }

  /** The groups found on the destination during the pass beside those it reported, in order. */
  function Received(u: map<string, Group>, log: seq<Entry>): seq<Group> {
    if log == [] then []
    else
      var e := log[|log| - 1];
      var r := Received(u, log[..|log| - 1]);
      if Adopted(e.verdict) && e.digest in u then r + [u[e.digest]] else r
  }

  /** What the destination holds once the pass is over. */
  function After(r: Replica, u: map<string, Group>, log: seq<Entry>): seq<Group> {
    r.groups + Received(u, log)
  }

  // ------------------------------------------------------------------ inventories

  lemma {:induction false} FoldSpan(gs: seq<Group>, a: Group)
    requires forall x, y | x in gs && y in gs && x.digest == y.digest :: x.tmin == y.tmin && x.tmax == y.tmax
    requires a in gs
    ensures a.digest in Fold(gs)
    ensures Fold(gs)[a.digest].tmin == a.tmin && Fold(gs)[a.digest].tmax == a.tmax
  {
    var n := |gs| - 1;
    FoldKeys(gs[..n]);
    assert gs == gs[..n] + [gs[n]];
    if a in gs[..n] {
      FoldSpan(gs[..n], a);
    } else if gs[n].digest in Digests(gs[..n]) {
      var b :| b in gs[..n] && b.digest == gs[n].digest;
      FoldSpan(gs[..n], b);
    }
  }

  lemma UnionSpan(rs: seq<Replica>, a: Group)
    requires Honest(rs) && a in All(rs)
    ensures a.digest in UnionOf(rs)
    ensures UnionOf(rs)[a.digest].tmin == a.tmin && UnionOf(rs)[a.digest].tmax == a.tmax
  {
    FoldSpan(All(rs), a);
  }

  predicate Within(a: Group, b: Group) {
    b.tmin <= a.tmin && a.tmax <= b.tmax
  }

  lemma {:induction false} FoldCovers(gs: seq<Group>, a: Group)
    requires a in gs
    ensures a.digest in Fold(gs) && Within(a, Fold(gs)[a.digest])
  {
    var n := |gs| - 1;
    assert gs == gs[..n] + [gs[n]];
    if a in gs[..n] { FoldCovers(gs[..n], a); }
  }

  /** The union's entry for a digest is as wide as its reports together and no wider. */
  lemma {:induction false} FoldIsWidest(gs: seq<Group>, d: string)
    requires d in Fold(gs)
    ensures exists g :: g in gs && g.digest == d && g.tmin == Fold(gs)[d].tmin
    ensures exists g :: g in gs && g.digest == d && g.tmax == Fold(gs)[d].tmax
    ensures forall g | g in gs && g.digest == d :: Fold(gs)[d].tmin <= g.tmin && g.tmax <= Fold(gs)[d].tmax
  {
    var n := |gs| - 1;
    var last, before := gs[n], gs[..n];
    assert gs == before + [last] && last in gs && forall g | g in before :: g in gs;
    forall g | g in gs && g.digest == d ensures Fold(gs)[d].tmin <= g.tmin && g.tmax <= Fold(gs)[d].tmax {
      FoldCovers(gs, g);
    }
    if d in Fold(before) { FoldIsWidest(before, d); }
  }

  /** It takes its size from the last of them. */
  lemma {:induction false} FoldSize(gs: seq<Group>, d: string) returns (i: nat)
    requires d in Fold(gs)
    ensures i < |gs| && gs[i].digest == d && gs[i].bytes == Fold(gs)[d].bytes && forall j | i < j < |gs| :: gs[j].digest != d
  {
    i := |gs| - 1;
    if gs[i].digest != d { i := FoldSize(gs[..|gs| - 1], d); }
  }

  lemma UnionIsWidest(rs: seq<Replica>, d: string)
    requires d in UnionOf(rs)
    ensures exists i, g :: 0 <= i < |rs| && rs[i].reachable && g in rs[i].groups && g.digest == d && g.tmin == UnionOf(rs)[d].tmin
    ensures exists i, g :: 0 <= i < |rs| && rs[i].reachable && g in rs[i].groups && g.digest == d && g.tmax == UnionOf(rs)[d].tmax
    ensures forall i, g | 0 <= i < |rs| && rs[i].reachable && g in rs[i].groups && g.digest == d ::
              UnionOf(rs)[d].tmin <= g.tmin && g.tmax <= UnionOf(rs)[d].tmax
  {
    FoldIsWidest(All(rs), d);
    var lo :| lo in All(rs) && lo.digest == d && lo.tmin == UnionOf(rs)[d].tmin;
    var hi :| hi in All(rs) && hi.digest == d && hi.tmax == UnionOf(rs)[d].tmax;
    var i := AllSource(rs, lo);
    var j := AllSource(rs, hi);
    assert lo in rs[i].groups && hi in rs[j].groups;
    forall i, g | 0 <= i < |rs| && rs[i].reachable && g in rs[i].groups && g.digest == d
      ensures UnionOf(rs)[d].tmin <= g.tmin && g.tmax <= UnionOf(rs)[d].tmax
    {
      AllMember(rs, i, g);
    }
  }

  /** Whatever span a holder reports for a digest lies within the union's. */
  lemma UnionCovers(rs: seq<Replica>, a: Group)
    requires a in All(rs)
    ensures a.digest in UnionOf(rs) && Within(a, UnionOf(rs)[a.digest])
  {
    FoldCovers(All(rs), a);
  }

  // ------------------------------------------------------------------ the guard

  /** At every instant, the first listed group that covers it carries a digest. */
  ghost predicate FirstCoverNamed(have: seq<Group>) {
    forall t: int, i | 0 <= i < |have| && Covers(have[i], t) && (forall k | 0 <= k < i :: !Covers(have[k], t)) ::
      have[i].digest != ""
  }

  predicate Covers(g: Group, t: int) {
    g.tmin <= t <= g.tmax
  }

  /** Two spans overlap exactly when they share an instant. */
  lemma OverlapsExactly(a: Group, b: Group)
    requires a.tmin <= a.tmax && b.tmin <= b.tmax
    ensures Overlaps(a, b) <==> exists t :: Covers(a, t) && Covers(b, t)
  {
    if Overlaps(a, b) {
      var t := if a.tmin < b.tmin then b.tmin else a.tmin;
      assert Covers(a, t) && Covers(b, t);
    }
  }

  lemma {:induction false} OverlappingFirst(have: seq<Group>, g: Group) returns (i: nat)
    ensures i <= |have|
    ensures forall k | 0 <= k < i :: !Overlaps(g, have[k])
    ensures i < |have| ==> Overlaps(g, have[i])
    ensures Overlapping(have, g) == (if i < |have| then have[i].digest else "")
  {
    if have == [] || Overlaps(g, have[0]) {
      i := 0;
    } else {
      var j := OverlappingFirst(have[1..], g);
      i := j + 1;
      assert forall k | 0 < k < i :: have[k] == have[1..][k - 1];
    }
  }

  /** The guard answers with a digest and reads "" as "no overlap". So it blocks every
      overlapping group exactly when, at each instant, the first group covering it is named:
      an unnamed group shadows whatever is listed behind it. */
  lemma GuardExact(have: seq<Group>)
    requires forall h | h in have :: h.tmin <= h.tmax
    ensures (forall g: Group | g.tmin <= g.tmax && (exists h | h in have :: Overlaps(g, h)) ::
               Overlapping(have, g) != "")
            <==> FirstCoverNamed(have)
  {
    if FirstCoverNamed(have) {
      forall g: Group | g.tmin <= g.tmax && (exists h | h in have :: Overlaps(g, h))
        ensures Overlapping(have, g) != ""
      {
        var i := OverlappingFirst(have, g);
        assert i < |have|;
        var t := if g.tmin < have[i].tmin then have[i].tmin else g.tmin;
        assert Covers(have[i], t) && Covers(g, t);
        assert forall k | 0 <= k < i :: !Covers(have[k], t);
      }
    }
    if forall g: Group | g.tmin <= g.tmax && (exists h | h in have :: Overlaps(g, h)) :: Overlapping(have, g) != "" {
      forall t: int, i | 0 <= i < |have| && Covers(have[i], t) && (forall k | 0 <= k < i :: !Covers(have[k], t))
        ensures have[i].digest != ""
      {
        var g := Group("g", t, t, 0);
        assert Overlaps(g, have[i]);
        assert Overlapping(have, g) != "";
        var j := OverlappingFirst(have, g);
        assert forall k | 0 <= k < i :: !Overlaps(g, have[k]);
        assert j == i;
      }
    }
  }

  lemma {:induction false} GuardSees(have: seq<Group>, g: Group, holders: map<string, set<nat>>, h: Group)
    requires forall x | x in have :: x.digest != ""
    requires OverlappingFrom(have, g, holders) == "" && h in have
    requires !HoldersShare(holders, h.digest, g.digest)
    ensures !Overlaps(g, h)
  {
    var un := Unshared(have, g.digest, holders);
    var rest := Unshared(have[1..], g.digest, holders);
    if HoldersShare(holders, have[0].digest, g.digest) {
      GuardSees(have[1..], g, holders, h);
    } else {
      assert un[1..] == rest;
      if h != have[0] {
        assert h in have[1..];
        GuardSees(have[1..], g, holders, h);
      }
    }
  }

  /** Every certificate is true: two digests a common holder vouches for have disjoint spans in the
      union. */
  ghost predicate CertifiedDisjoint(c: Ctx) {
    forall a, b | a in c.union && b in c.union && a != b && HoldersShare(c.holders, a, b) ::
      !Overlaps(c.union[a], c.union[b])
  }

  /** A list the guard may be given while it considers d: members of the union other than d. */
  ghost predicate Listable(c: Ctx, have: seq<Group>, d: string) {
    d in c.union && forall h | h in have :: h.digest in c.union && h.digest != d && h == c.union[h.digest]
  }

  ghost predicate Keyed(c: Ctx) {
    forall d | d in c.union :: c.union[d].digest == d && d != ""
  }

  lemma {:induction false} TrueCertificatesChangeNothing(c: Ctx, have: seq<Group>, d: string)
    requires Keyed(c) && CertifiedDisjoint(c) && Listable(c, have, d)
    ensures OverlappingFrom(have, c.union[d], c.holders) == Overlapping(have, c.union[d])
  {
    if have != [] {
      assert forall h | h in have[1..] :: h in have;
      TrueCertificatesChangeNothing(c, have[1..], d);
      assert have[0] in have;
      if !HoldersShare(c.holders, have[0].digest, d) {
        assert Unshared(have, d, c.holders)[1..] == Unshared(have[1..], d, c.holders);
      }
    }
  }

  /** The guard with the shared-holder exemption answers as the guard without it, for every list and
      every digest, exactly when every certificate is true. */
  lemma ExemptionExactly(c: Ctx)
    requires Keyed(c)
    ensures (forall have: seq<Group>, d | Listable(c, have, d) ::
               OverlappingFrom(have, c.union[d], c.holders) == Overlapping(have, c.union[d]))
            <==> CertifiedDisjoint(c)
  {
    if CertifiedDisjoint(c) {
      forall have: seq<Group>, d | Listable(c, have, d)
        ensures OverlappingFrom(have, c.union[d], c.holders) == Overlapping(have, c.union[d])
      {
        TrueCertificatesChangeNothing(c, have, d);
      }
    } else {
      var a, b :| a in c.union && b in c.union && a != b && HoldersShare(c.holders, a, b)
                  && Overlaps(c.union[a], c.union[b]);
      FalseCertificateSkips(c, a, b);
    }
  }

  lemma FalseCertificateSkips(c: Ctx, a: string, b: string)
    requires Keyed(c) && a in c.union && b in c.union && a != b && HoldersShare(c.holders, a, b)
    requires Overlaps(c.union[a], c.union[b])
    ensures Listable(c, [c.union[a]], b)
    ensures OverlappingFrom([c.union[a]], c.union[b], c.holders) == "" != Overlapping([c.union[a]], c.union[b])
  {
    var have := [c.union[a]];
    assert have[1..] == [];
    assert Unshared(have, b, c.holders) == [];
  }

  /** Where a digest determines its span every certificate is true: whoever vouches for a pair reported
      both spans and they did not touch. */
  lemma HonestCertifies(sh: Shard, c: Ctx)
    requires CtxOf(sh, c) && Honest(sh.replicas)
    ensures CertifiedDisjoint(c)
  {
    forall a, b | a in c.union && b in c.union && a != b && HoldersShare(c.holders, a, b)
      ensures !Overlaps(c.union[a], c.union[b])
    {
      HonestPair(sh, c, a, b);
    }
  }

  lemma HonestPair(sh: Shard, c: Ctx, a: string, b: string)
    requires CtxOf(sh, c) && Honest(sh.replicas) && a != b && a in c.union && b in c.union
    requires HoldersShare(c.holders, a, b)
    ensures !Overlaps(c.union[a], c.union[b])
  {
    var rs := sh.replicas;
    var i :| i in Lookup(c.holders, a) * Lookup(c.holders, b);
    assert i in HoldersOf(rs, a) && i in HoldersOf(rs, b);
    var gs := rs[i].groups;
    var x :| x in gs && x.digest == a;
    var y :| y in gs && y.digest == b;
    AllMember(rs, i, x);
    AllMember(rs, i, y);
    UnionSpan(rs, x);
    UnionSpan(rs, y);
    var p :| 0 <= p < |gs| && gs[p] == x;
    var q :| 0 <= q < |gs| && gs[q] == y;
    assert p != q;
    assert !Overlaps(gs[p], gs[q]);
  }

  /** A group that meets nothing listed passes the guard. */
  lemma {:induction false} NothingMet(have: seq<Group>, g: Group, holders: map<string, set<nat>>)
    requires forall h | h in have :: !Overlaps(h, g)
    ensures OverlappingFrom(have, g, holders) == ""
  {
    if have != [] {
      assert have[0] in have && forall h | h in have[1..] :: h in have;
      NothingMet(have[1..], g, holders);
      if !HoldersShare(holders, have[0].digest, g.digest) {
        assert Unshared(have, g.digest, holders)[1..] == Unshared(have[1..], g.digest, holders);
      }
    }
  }

  // ------------------------------------------------------------------ a destination's run

  /** The inventories name their digests and no certificate is false. */
  ghost predicate Trusted(c: Ctx) {
    c.union == UnionOf(c.replicas) && Named(c.replicas) && CertifiedDisjoint(c)
  }

  lemma TrustedKeyed(c: Ctx)
    requires Trusted(c)
    ensures Keyed(c)
  {
    FoldKeys(All(c.replicas));
    forall d | d in c.union ensures d != "" {
      var a :| a in All(c.replicas) && a.digest == d;
    }
  }

  /** The spans compared against are the destination's own and the acknowledged copies. */
  ghost predicate SpansOk(c: Ctx, own: seq<Group>, ds: seq<string>, spans: seq<Group>) {
    && (forall h | h in own :: h in spans)
    && (forall x | x in spans :: && x.digest in c.union && x.digest != "" && Within(x, c.union[x.digest])
                                 && (x in own || x.digest in ds))
  }

  ghost predicate LogOk(c: Ctx, own: seq<Group>, ds: seq<string>, s: DestState) {
    forall k | 0 <= k < |s.log| ::
      && s.log[k].digest in c.union && s.log[k].digest in ds && s.log[k].digest !in Digests(own)
      && (s.log[k].verdict == Copied ==> c.union[s.log[k].digest] in s.spans)
  }

  /** g meets nothing in own and no copy acknowledged among the first k entries. */
  ghost predicate ClearOf(c: Ctx, own: seq<Group>, log: seq<Entry>, k: nat, g: Group)
    requires k <= |log|
  {
    && (forall h | h in own :: !Overlaps(h, g))
    && (forall j | 0 <= j < k && log[j].verdict == Copied && log[j].digest in c.union ::
          !Overlaps(c.union[log[j].digest], g))
  }

  /** What holds after the digests ds have been considered for dst. */
  ghost predicate Guarded(c: Ctx, dst: nat, ds: seq<string>, s: DestState)
    requires dst < |c.replicas|
  {
    var own := c.replicas[dst].groups;
    && SpansOk(c, own, ds, s.spans)
    && LogOk(c, own, ds, s)
    && (forall k | 0 <= k < |s.log| && Sent(s.log[k].verdict) ::
          s.log[k].digest in c.union && ClearOf(c, own, s.log, k, c.union[s.log[k].digest]))
  }

  lemma ClearToCopy(c: Ctx, own: seq<Group>, ds: seq<string>, spans: seq<Group>, d: string)
    requires Trusted(c) && d in c.union && d !in ds && d !in Digests(own)
    requires SpansOk(c, own, ds, spans)
    requires OverlappingFrom(spans, c.union[d], c.holders) == ""
    ensures forall h | h in spans :: !Overlaps(h, c.union[d])
  {
    var g := c.union[d];
    TrustedKeyed(c);
    forall h | h in spans ensures !Overlaps(h, g) {
      if HoldersShare(c.holders, h.digest, d) {
        assert !Overlaps(c.union[h.digest], g);
      } else {
        GuardSees(spans, g, c.holders, h);
      }
    }
  }

  lemma SpansGrow(c: Ctx, own: seq<Group>, ds: seq<string>, spans: seq<Group>, d: string)
    requires d in c.union && d != "" && c.union[d].digest == d && SpansOk(c, own, ds, spans)
    ensures SpansOk(c, own, ds + [d], spans) && SpansOk(c, own, ds + [d], spans + [c.union[d]])
  {
  }

  lemma LogGrows(c: Ctx, own: seq<Group>, ds: seq<string>, s: DestState, s': DestState, d: string, v: Verdict)
    requires d in c.union && d !in Digests(own) && LogOk(c, own, ds, s)
    requires s'.log == s.log + [Entry(d, v)]
    requires s'.spans == if v == Copied then s.spans + [c.union[d]] else s.spans
    ensures LogOk(c, own, ds + [d], s')
  {
    forall k | 0 <= k < |s'.log|
      ensures && s'.log[k].digest in c.union && s'.log[k].digest in ds + [d] && s'.log[k].digest !in Digests(own)
              && (s'.log[k].verdict == Copied ==> c.union[s'.log[k].digest] in s'.spans)
    {
      if k < |s.log| { assert s'.log[k] == s.log[k]; }
    }
  }

  lemma ClearKept(c: Ctx, own: seq<Group>, log: seq<Entry>, e: Entry, k: nat, g: Group)
    requires k <= |log| && ClearOf(c, own, log, k, g)
    ensures ClearOf(c, own, log + [e], k, g)
  {
    assert forall j | 0 <= j < k :: (log + [e])[j] == log[j];
  }

  lemma GuardedStep(c: Ctx, dst: nat, ds: seq<string>, s: DestState, d: string)
    requires Trusted(c) && dst < |c.replicas| && d in c.union && d !in ds && Guarded(c, dst, ds, s)
    ensures Guarded(c, dst, ds + [d], Step(c, dst, s, d))
  {
    var own := c.replicas[dst].groups;
    TrustedKeyed(c);
    SpansGrow(c, own, ds, s.spans, d);
    if d !in Digests(own) {
      var v := Judge(c, dst, s, d);
      var s' := Step(c, dst, s, d);
      LogGrows(c, own, ds, s, s', d, v);
      forall k | 0 <= k < |s'.log| && Sent(s'.log[k].verdict)
        ensures ClearOf(c, own, s'.log, k, c.union[s'.log[k].digest])
      {
        if k < |s.log| {
          ClearKept(c, own, s.log, Entry(d, v), k, c.union[s.log[k].digest]);
        } else {
          ClearToCopy(c, own, ds, s.spans, d);
          assert ClearOf(c, own, s.log, k, c.union[d]);
          ClearKept(c, own, s.log, Entry(d, v), k, c.union[d]);
        }
      }
    }
  }

  lemma {:induction false} GuardedRun(c: Ctx, dst: nat, s: DestState, ds: seq<string>)
    requires Trusted(c) && dst < |c.replicas|
    requires NoDup(ds) && (forall d | d in ds :: d in c.union)
    requires Guarded(c, dst, [], s)
    ensures Guarded(c, dst, ds, Run(c, dst, s, ds))
  {
    if ds != [] {
      var n := |ds| - 1;
      assert ds == ds[..n] + [ds[n]];
      GuardedRun(c, dst, s, ds[..n]);
      GuardedStep(c, dst, ds[..n], Run(c, dst, s, ds[..n]), ds[n]);
    }
  }

  lemma DestGuarded(c: Ctx, dst: nat, budget: int, t: Tally)
    requires Trusted(c) && dst < |c.replicas| && c.replicas[dst].reachable
    ensures Guarded(c, dst, OrderOf(c.replicas), DestRun(c, dst, budget, t))
  {
    OrderMembers(c.replicas);
    var own := c.replicas[dst].groups;
    forall x | x in own ensures x.digest in c.union && x.digest != "" && Within(x, c.union[x.digest]) {
      AllMember(c.replicas, dst, x);
      UnionCovers(c.replicas, x);
    }
    GuardedRun(c, dst, DestState(own, budget, t, []), OrderOf(c.replicas));
  }

  /** No group is copied over rows known to be there. Every group a destination is sent is disjoint
      from all it reported before the pass and from every group it acknowledged earlier in it; the
      only pair that can meet is one whose first member the pass did not see arrive. */
  lemma ReceivedAreDisjoint(c: Ctx, dst: nat, budget: int, t: Tally, k: nat)
    requires Trusted(c) && dst < |c.replicas| && c.replicas[dst].reachable
    requires k < |DestRun(c, dst, budget, t).log| && Sent(DestRun(c, dst, budget, t).log[k].verdict)
    ensures
      var log := DestRun(c, dst, budget, t).log;
      var u := c.union;
      && log[k].digest in u && log[k].digest !in Digests(c.replicas[dst].groups)
      && (forall h | h in c.replicas[dst].groups :: !Overlaps(h, u[log[k].digest]))
      && (forall j | 0 <= j < k && log[j].digest in u && Overlaps(u[log[j].digest], u[log[k].digest]) ::
            log[j].verdict != Copied)
  {
    DestGuarded(c, dst, budget, t);
  }

  ghost predicate AllSeen(log: seq<Entry>) {
    forall e | e in log :: !Unseen(e.verdict)
  }

  lemma {:induction false} ReceivedIs(u: map<string, Group>, log: seq<Entry>, i: nat) returns (k: nat)
    requires i < |Received(u, log)|
    ensures i <= k < |log| && Adopted(log[k].verdict) && log[k].digest in u
    ensures Received(u, log)[i] == u[log[k].digest]
    ensures i == |Received(u, log[..k])|
  {
    var n := |log| - 1;
    if i < |Received(u, log[..n])| {
      k := ReceivedIs(u, log[..n], i);
      assert log[..n][..k] == log[..k];
    } else {
      k := n;
      ReceivedShort(u, log[..n]);
    }
  }

  lemma {:induction false} ReceivedShort(u: map<string, Group>, log: seq<Entry>)
    ensures |Received(u, log)| <= |log|
  {
    if log != [] { ReceivedShort(u, log[..|log| - 1]); }
  }

  lemma {:induction false} ReceivedMonotone(u: map<string, Group>, log: seq<Entry>, j: nat, k: nat)
    requires j <= k <= |log|
    ensures |Received(u, log[..j])| <= |Received(u, log[..k])|
  {
    if j < k {
      ReceivedMonotone(u, log, j, k - 1);
      assert log[..k][..k - 1] == log[..k - 1];
    }
  }

  /** d is missing at dst and clear of all it holds. */
  ghost predicate Clear(c: Ctx, dst: nat, d: string)
    requires dst < |c.replicas|
  {
    && d in c.union && d !in Digests(c.replicas[dst].groups)
    && forall h | h in c.replicas[dst].groups :: !Overlaps(h, c.union[d])
  }

  /** The groups dst may be sent are pairwise disjoint, whichever of them arrive. */
  ghost predicate Apart(c: Ctx, dst: nat)
    requires dst < |c.replicas|
  {
    forall a, b | Clear(c, dst, a) && Clear(c, dst, b) && a != b :: !Overlaps(c.union[a], c.union[b])
  }

  /** Two groups received in a run are of different digests, and meet only if the first was not seen. */
  lemma ReceivedPairs(c: Ctx, dst: nat, budget: int, t: Tally, p: nat, q: nat)
    requires Trusted(c) && dst < |c.replicas| && c.replicas[dst].reachable
    requires p < q < |DestRun(c, dst, budget, t).log|
    requires Adopted(DestRun(c, dst, budget, t).log[p].verdict) && Adopted(DestRun(c, dst, budget, t).log[q].verdict)
    ensures var log := DestRun(c, dst, budget, t).log;
            && Clear(c, dst, log[p].digest) && Clear(c, dst, log[q].digest) && log[p].digest != log[q].digest
            && (Overlaps(c.union[log[p].digest], c.union[log[q].digest]) ==> Unseen(log[p].verdict))
  {
    ReceivedAreDisjoint(c, dst, budget, t, p);
    ReceivedAreDisjoint(c, dst, budget, t, q);
    OrderMembers(c.replicas);
    LogNoDup(c, dst, DestState(c.replicas[dst].groups, budget, t, []), OrderOf(c.replicas));
    var log := DestRun(c, dst, budget, t).log;
    assert log[p].digest != log[q].digest;
    assert Overlaps(c.union[log[p].digest], c.union[log[q].digest]) ==> log[p].verdict != Copied;
  }

  /** One entry per digest considered, at most. */
  ghost predicate OncePer(log: seq<Entry>, ds: seq<string>) {
    && (forall k | 0 <= k < |log| :: log[k].digest in ds)
    && (forall j, k | 0 <= j < k < |log| :: log[j].digest != log[k].digest)
  }

  lemma OncePerSnoc(log: seq<Entry>, ds: seq<string>, e: Entry)
    requires OncePer(log, ds) && e.digest !in ds
    ensures OncePer(log, ds + [e.digest]) && OncePer(log + [e], ds + [e.digest])
  {
  }

  lemma {:induction false} LogNoDup(c: Ctx, dst: nat, s: DestState, ds: seq<string>)
    requires dst < |c.replicas| && NoDup(ds) && (forall d | d in ds :: d in c.union) && s.log == []
    ensures OncePer(Run(c, dst, s, ds).log, ds)
  {
    if ds != [] {
      var n := |ds| - 1;
      LogNoDup(c, dst, s, ds[..n]);
      assert ds == ds[..n] + [ds[n]] && ds[n] !in ds[..n];
      var r := Run(c, dst, s, ds[..n]);
      OncePerSnoc(r.log, ds[..n], Entry(ds[n], Judge(c, dst, r, ds[n])));
    }
  }

  /** A received group meets neither what the destination reported nor what it received before. */
  lemma ReceivedIsClear(c: Ctx, dst: nat, budget: int, t: Tally, k: nat)
    requires Trusted(c) && dst < |c.replicas| && c.replicas[dst].reachable
    requires Apart(c, dst) || AllSeen(DestRun(c, dst, budget, t).log)
    requires k < |Received(c.union, DestRun(c, dst, budget, t).log)|
    ensures var own, got := c.replicas[dst].groups, Received(c.union, DestRun(c, dst, budget, t).log);
            (forall i | 0 <= i < |own| :: !Overlaps(own[i], got[k])) && (forall i | 0 <= i < k :: !Overlaps(got[i], got[k]))
  {
    var log, own := DestRun(c, dst, budget, t).log, c.replicas[dst].groups;
    var got := Received(c.union, log);
    var q := ReceivedIs(c.union, log, k);
    ReceivedAreDisjoint(c, dst, budget, t, q);
    forall i | 0 <= i < |own| ensures !Overlaps(own[i], got[k]) { assert own[i] in own; }
    forall i | 0 <= i < k ensures !Overlaps(got[i], got[k]) {
      var p := ReceivedIs(c.union, log, i);
      if p >= q { ReceivedMonotone(c.union, log, q, p); }
      ReceivedPairs(c, dst, budget, t, p, q);
      assert log[p] in log;
    }
  }

  /** Whenever two received groups that meet are ruled out, what the destination ends up with does not
      overlap. */
  lemma CleanAfter(c: Ctx, dst: nat, budget: int, t: Tally)
    requires Trusted(c) && dst < |c.replicas| && c.replicas[dst].reachable
    requires !SelfOverlap(c.replicas[dst].groups)
    requires Apart(c, dst) || AllSeen(DestRun(c, dst, budget, t).log)
    ensures !SelfOverlap(After(c.replicas[dst], c.union, DestRun(c, dst, budget, t).log))
  {
    var own, got := c.replicas[dst].groups, Received(c.union, DestRun(c, dst, budget, t).log);
    var fin := own + got;
    forall i, j | 0 <= i < j < |fin| ensures !Overlaps(fin[i], fin[j]) {
      if j < |own| {
        assert !Overlaps(own[i], own[j]);
      } else {
        ReceivedIsClear(c, dst, budget, t, j - |own|);
      }
    }
  }

  /** The destination's answers arrive, and its inventory was not stale. */
  ghost predicate NothingUnseen(c: Ctx, dst: nat) {
    forall d :: c.net(dst, d) != Failed(true) && c.net(dst, d) != AlreadyHeld(true)
  }

  lemma {:induction false} LogFromNet(c: Ctx, dst: nat, s: DestState, ds: seq<string>)
    requires dst < |c.replicas| && (forall d | d in ds :: d in c.union) && s.log == [] && NothingUnseen(c, dst)
    ensures AllSeen(Run(c, dst, s, ds).log)
  {
    if ds != [] { LogFromNet(c, dst, s, ds[..|ds| - 1]); }
  }

  /** A replica whose groups did not overlap is left in that state: under every network, lost answers and
      stale inventories included, when the groups it may be sent are pairwise disjoint, and otherwise
      when no answer of this destination is lost and none says truly that a group was already held. */
  lemma StaysNonOverlapping(c: Ctx, dst: nat, budget: int, t: Tally)
    requires Trusted(c) && dst < |c.replicas| && c.replicas[dst].reachable
    requires !SelfOverlap(c.replicas[dst].groups)
    requires Apart(c, dst) || NothingUnseen(c, dst)
    ensures !SelfOverlap(After(c.replicas[dst], c.union, DestRun(c, dst, budget, t).log))
  {
    if NothingUnseen(c, dst) {
      OrderMembers(c.replicas);
      LogFromNet(c, dst, DestState(c.replicas[dst].groups, budget, t, []), OrderOf(c.replicas));
    }
    CleanAfter(c, dst, budget, t);
  }

  /** At row level: an instant covered once stays covered at most once. */
  lemma NoRowTwice(c: Ctx, dst: nat, budget: int, t: Tally, instant: int, i: nat, j: nat)
    requires Trusted(c) && dst < |c.replicas| && c.replicas[dst].reachable
    requires !SelfOverlap(c.replicas[dst].groups)
    requires Apart(c, dst) || NothingUnseen(c, dst)
    requires i < j < |After(c.replicas[dst], c.union, DestRun(c, dst, budget, t).log)|
    ensures
      var fin := After(c.replicas[dst], c.union, DestRun(c, dst, budget, t).log);
      !(Covers(fin[i], instant) && Covers(fin[j], instant))
  {
    StaysNonOverlapping(c, dst, budget, t);
    var fin := After(c.replicas[dst], c.union, DestRun(c, dst, budget, t).log);
    assert !Overlaps(fin[i], fin[j]);
  }

  lemma {:induction false} PickSourceFinds(rs: seq<Replica>, d: string, notThis: string, i: nat) returns (k: nat)
    requires i < |rs| && rs[i].reachable && rs[i].url != notThis && d in Digests(rs[i].groups)
    ensures k <= i && rs[k].reachable && d in Digests(rs[k].groups)
    ensures PickSource(rs, d, notThis) == rs[k].url != notThis
  {
    if rs[0].reachable && rs[0].url != notThis && d in Digests(rs[0].groups) {
      k := 0;
    } else {
      var j := PickSourceFinds(rs[1..], d, notThis, i - 1);
      k := j + 1;
    }
  }

  /** With distinct, non-empty replica URLs a missing group always has a source, so work is left
      for a later pass only by the bounds. */
  lemma MissingGroupHasSource(c: Ctx, dst: nat, s: DestState, d: string)
    requires dst < |c.replicas| && c.union == UnionOf(c.replicas) && d in c.union
    requires d !in Digests(c.replicas[dst].groups)
    requires forall i, j | 0 <= i < j < |c.replicas| :: c.replicas[i].url != c.replicas[j].url
    requires forall r | r in c.replicas :: r.url != ""
    ensures Judge(c, dst, s, d) == Deferred ==> OverBudget(s.budget, s.tally.copied, c.union[d])
  {
    FoldKeys(All(c.replicas));
    var g :| g in All(c.replicas) && g.digest == d;
    var i := AllSource(c.replicas, g);
    assert i != dst;
    var k := PickSourceFinds(c.replicas, d, c.replicas[dst].url, i);
    assert c.replicas[k] in c.replicas;
  }

  // ------------------------------------------------------------------ what a verdict means

  /** Some span the guard is given, not vouched for by a common holder, meets the group. */
  ghost predicate Meets(c: Ctx, spans: seq<Group>, d: string)
    requires d in c.union
  {
    exists h :: h in spans && !HoldersShare(c.holders, h.digest, d) && Overlaps(c.union[d], h)
  }

  lemma {:induction false} GuardMeets(c: Ctx, spans: seq<Group>, d: string)
    requires Keyed(c) && d in c.union && forall h | h in spans :: h.digest != ""
    ensures OverlappingFrom(spans, c.union[d], c.holders) != "" <==> Meets(c, spans, d)
  {
    if spans != [] {
      assert spans[0] in spans && forall h | h in spans[1..] :: h in spans;
      GuardMeets(c, spans[1..], d);
      if !HoldersShare(c.holders, spans[0].digest, d) {
        assert Unshared(spans, d, c.holders)[1..] == Unshared(spans[1..], d, c.holders);
      }
    }
  }

  /** Another reachable replica reports the group. */
  ghost predicate Elsewhere(c: Ctx, dst: nat, d: string)
    requires dst < |c.replicas|
  {
    exists i :: 0 <= i < |c.replicas| && i != dst && c.replicas[i].reachable && d in Digests(c.replicas[i].groups)
  }

  lemma {:induction false} PickSourceFails(rs: seq<Replica>, d: string, notThis: string)
    requires forall i | 0 <= i < |rs| && rs[i].url != notThis && rs[i].reachable :: d !in Digests(rs[i].groups)
    ensures PickSource(rs, d, notThis) == ""
  {
    if rs != [] {
      assert forall i | 0 <= i < |rs[1..]| :: rs[1..][i] == rs[i + 1];
      PickSourceFails(rs[1..], d, notThis);
    }
  }

  /** The verdict on a missing group, in terms of what is there: blocked exactly when an uncertified span
      meets it; otherwise left for later exactly when 64 groups were copied, the claim exceeds what is
      left of the budget, or nobody else has it; otherwise what became of the transfer. */
  lemma JudgedExactly(c: Ctx, dst: nat, s: DestState, d: string)
    requires dst < |c.replicas| && d in c.union && Keyed(c) && forall h | h in s.spans :: h.digest != ""
    requires forall i, j | 0 <= i < j < |c.replicas| :: c.replicas[i].url != c.replicas[j].url
    requires forall i | 0 <= i < |c.replicas| :: c.replicas[i].url != ""
    requires -MAX_BYTES <= s.budget <= MAX_BYTES && c.union[d].bytes <= TWO63 - MAX_BYTES
    ensures
      var v := Judge(c, dst, s, d);
      var later := s.tally.copied >= 64 || s.budget < 0 || s.budget < c.union[d].bytes || !Elsewhere(c, dst, d);
      && (v == Blocked <==> Meets(c, s.spans, d))
      && (v == Deferred <==> !Meets(c, s.spans, d) && later)
      && (!Meets(c, s.spans, d) && !later ==>
            && (v == Copied <==> c.net(dst, d).Moved?) && (forall h :: v == Declined(h) <==> c.net(dst, d) == AlreadyHeld(h))
            && forall a :: v == Broken(a) <==> c.net(dst, d) == Failed(a))
  {
    GuardMeets(c, s.spans, d);
    WrapFits(s.budget - Claimed(c.union[d]));
    if Elsewhere(c, dst, d) {
      var i :| 0 <= i < |c.replicas| && i != dst && c.replicas[i].reachable && d in Digests(c.replicas[i].groups);
      var k := PickSourceFinds(c.replicas, d, c.replicas[dst].url, i);
    } else {
      PickSourceFails(c.replicas, d, c.replicas[dst].url);
    }
  }
}
