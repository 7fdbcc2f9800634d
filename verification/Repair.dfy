/** One bounded anti-entropy pass over the replicas of every shard.

A replica is the inventory it reported; a shard is its replicas plus `net`, the
answer the network gives when a group is sent to a destination. Everything else
is computed as the router computes it: the union of the inventories, who may
certify a pair of groups as different, the overlap guard against spans that grow
while the pass copies, and the two budgets. */
module Repair {
  import opened Basics
  import opened Sorting

  const MAX_GROUPS: int := 64
  const MAX_BYTES: int := 0x4000_0000
  const TWO63: int := 0x8000_0000_0000_0000

  /** A group as a replica reports it: content digest, closed time span, claimed size. */
  datatype Group = Group(digest: string, tmin: int, tmax: int, bytes: int)

  datatype Replica = Replica(url: string, reachable: bool, groups: seq<Group>)

  /** What became of one transfer. A destination that declines says it already holds the group: true of
      one whose inventory was stale, and only its word. A transfer that failed may still have been
      adopted: the acknowledgement can be lost after the destination committed. */
  datatype Outcome = Moved(size: nat) | AlreadyHeld(held: bool) | Failed(adopted: bool)

  datatype Shard = Shard(replicas: seq<Replica>, net: (nat, string) -> Outcome)

  /** How the pass accounted for one group missing from one destination. */
  datatype Verdict = Copied | Blocked | Deferred | Declined(held: bool) | Broken(adopted: bool)

  datatype Entry = Entry(digest: string, verdict: Verdict)

  datatype Tally = Tally(copied: nat, bytes: int, remaining: nat, blocked: nat, declined: nat,
                         failed: nat, selfOverlapping: nat, complete: bool)

  // ------------------------------------------------------------------ inventories

  function Listed(r: Replica): seq<Group> {
    if r.reachable then r.groups else []
  }

  /** Every group any reachable replica reported, replica by replica. */
  function All(rs: seq<Replica>): seq<Group> {
    if rs == [] then [] else All(rs[..|rs| - 1]) + Listed(rs[|rs| - 1])
  }

  function Digests(gs: seq<Group>): set<string> {
    set g | g in gs :: g.digest
  }

  /** One more report: the widest span any holder gives, and the latest size. */
  function Widen(u: map<string, Group>, g: Group): map<string, Group> {
    if g.digest in u then
      var h := u[g.digest];
      u[g.digest := Group(g.digest, if h.tmin < g.tmin then h.tmin else g.tmin,
                          if h.tmax > g.tmax then h.tmax else g.tmax, g.bytes)]
    else u[g.digest := g]
  }

  function Fold(gs: seq<Group>): map<string, Group> {
    if gs == [] then map[] else Widen(Fold(gs[..|gs| - 1]), gs[|gs| - 1])
  }

  function UnionOf(rs: seq<Replica>): map<string, Group> {
    Fold(All(rs))
  }

  /** Closed intervals: sharing one instant is an overlap. */
  predicate Overlaps(a: Group, b: Group) {
    a.tmin <= b.tmax && b.tmin <= a.tmax
  }

  predicate SelfOverlap(gs: seq<Group>) {
    exists i, j :: 0 <= i < j < |gs| && Overlaps(gs[i], gs[j])
  }

  predicate Certifies(r: Replica) {
    r.reachable && !SelfOverlap(r.groups)
  }

  function HoldersOf(rs: seq<Replica>, d: string): set<nat> {
    set i: nat | i < |rs| && Certifies(rs[i]) && d in Digests(rs[i].groups)
  }

  function Lookup(holders: map<string, set<nat>>, d: string): set<nat> {
    if d in holders then holders[d] else {}
  }

  predicate HoldersShare(holders: map<string, set<nat>>, a: string, b: string) {
    Lookup(holders, a) * Lookup(holders, b) != {}
  }

  /** The digest of the first group that overlaps g, or "" when there is none. */
  function Overlapping(have: seq<Group>, g: Group): string {
    if have == [] then ""
    else if Overlaps(g, have[0]) then have[0].digest
    else Overlapping(have[1..], g)
  }

  function Unshared(have: seq<Group>, d: string, holders: map<string, set<nat>>): seq<Group> {
    if have == [] then []
    else if HoldersShare(holders, have[0].digest, d) then Unshared(have[1..], d, holders)
    else [have[0]] + Unshared(have[1..], d, holders)
  }

  function OverlappingFrom(have: seq<Group>, g: Group, holders: map<string, set<nat>>): string {
    Overlapping(Unshared(have, g.digest, holders), g)
  }

  function PickSource(rs: seq<Replica>, d: string, notThis: string): string {
    if rs == [] then ""
    else if rs[0].reachable && rs[0].url != notThis && d in Digests(rs[0].groups) then rs[0].url
    else PickSource(rs[1..], d, notThis)
  }

  // ------------------------------------------------------------------ one destination

  datatype Ctx = Ctx(replicas: seq<Replica>, union: map<string, Group>,
                     holders: map<string, set<nat>>, net: (nat, string) -> Outcome)

  datatype DestState = DestState(spans: seq<Group>, budget: int, tally: Tally, log: seq<Entry>)

  function Claimed(g: Group): int {
    if g.bytes < 0 then 0 else g.bytes
  }

  predicate OverBudget(budget: int, copied: nat, g: Group) {
    copied >= MAX_GROUPS || Wrap64(budget - Claimed(g)) < 0
  }

  function Judge(c: Ctx, dst: nat, s: DestState, d: string): Verdict
    requires dst < |c.replicas| && d in c.union
  {
    var g := c.union[d];
    if OverlappingFrom(s.spans, g, c.holders) != "" then Blocked
    else if OverBudget(s.budget, s.tally.copied, g) then Deferred
    else if PickSource(c.replicas, d, c.replicas[dst].url) == "" then Deferred
    else match c.net(dst, d)
         case Moved(_) => Copied
         case AlreadyHeld(h) => Declined(h)
         case Failed(a) => Broken(a)
  }

  function Size(o: Outcome): nat {
    if o.Moved? then o.size else 0
  }

  function Account(t: Tally, v: Verdict, moved: nat): Tally {
    match v
    case Copied => t.(copied := t.copied + 1, bytes := t.bytes + moved)
    case Blocked => t.(blocked := t.blocked + 1, complete := false)
    case Deferred => t.(remaining := t.remaining + 1, complete := false)
    case Declined(_) => t.(declined := t.declined + 1)
    case Broken(_) => t.(failed := t.failed + 1, complete := false)
  }

  function Step(c: Ctx, dst: nat, s: DestState, d: string): DestState
    requires dst < |c.replicas| && d in c.union
  {
    if d in Digests(c.replicas[dst].groups) then s
    else
      var v := Judge(c, dst, s, d);
      var moved := if v == Copied then Size(c.net(dst, d)) else 0;
      DestState(if v == Copied then s.spans + [c.union[d]] else s.spans,
                s.budget - moved, Account(s.tally, v, moved), s.log + [Entry(d, v)])
  }

  function Run(c: Ctx, dst: nat, s: DestState, ds: seq<string>): DestState
    requires dst < |c.replicas| && forall d | d in ds :: d in c.union
  {
    if ds == [] then s
    else Step(c, dst, Run(c, dst, s, ds[..|ds| - 1]), ds[|ds| - 1])
  }

  /** Time order, narrowest first, then digest. */
  predicate Before(u: map<string, Group>, a: string, b: string) {
    var ga := if a in u then u[a] else Group(a, 0, 0, 0);
    var gb := if b in u then u[b] else Group(b, 0, 0, 0);
    if ga.tmin != gb.tmin then ga.tmin < gb.tmin
    else if ga.tmax != gb.tmax then ga.tmax < gb.tmax
    else LexLess(a, b)
  }

  function KeySeq(gs: seq<Group>): seq<string> {
    if gs == [] then []
    else
      var ks := KeySeq(gs[..|gs| - 1]);
      if gs[|gs| - 1].digest in ks then ks else ks + [gs[|gs| - 1].digest]
  }

  function OrderOf(rs: seq<Replica>): seq<string> {
    Sort((a, b) => Before(UnionOf(rs), a, b), KeySeq(All(rs)))
  }

  // ------------------------------------------------------------------ a shard and a pass

  /** The holder sets the guard is given: one entry per digest some certifying replica holds. */
  ghost predicate HoldersRight(rs: seq<Replica>, holders: map<string, set<nat>>) {
    forall d :: Lookup(holders, d) == HoldersOf(rs, d)
  }

  /** The context the pass works in, computed from the inventories. */
  function Context(sh: Shard): Ctx {
    var rs := sh.replicas;
    var u := UnionOf(rs);
    Ctx(rs, u, map d | d in u.Keys && HoldersOf(rs, d) != {} :: HoldersOf(rs, d), sh.net)
  }

  ghost predicate CtxOf(sh: Shard, c: Ctx) {
    && c.replicas == sh.replicas && c.net == sh.net
    && c.union == UnionOf(sh.replicas) && HoldersRight(sh.replicas, c.holders)
  }

  datatype ShardState = ShardState(budget: int, tally: Tally, logs: seq<seq<Entry>>)

  /** Before any copying: unreachable and self-overlapping replicas make the report incomplete. */
  function Survey(t: Tally, rs: seq<Replica>): Tally {
    if rs == [] then t
    else
      var p := Survey(t, rs[..|rs| - 1]);
      var r := rs[|rs| - 1];
      if !r.reachable then p.(complete := false)
      else if SelfOverlap(r.groups) then
        p.(selfOverlapping := p.selfOverlapping + 1, complete := false)
      else p
  }

  function DestRun(c: Ctx, dst: nat, budget: int, t: Tally): DestState
    requires dst < |c.replicas|
    requires c.union == UnionOf(c.replicas)
  {
    OrderMembers(c.replicas);
    if c.replicas[dst].reachable then
      Run(c, dst, DestState(c.replicas[dst].groups, budget, t, []), OrderOf(c.replicas))
    else DestState([], budget, t, [])
  }

  function Sweep(c: Ctx, n: nat, budget: int, t: Tally): ShardState
    requires n <= |c.replicas| && c.union == UnionOf(c.replicas)
    ensures |Sweep(c, n, budget, t).logs| == n
  {
    if n == 0 then ShardState(budget, t, [])
    else
      var p := Sweep(c, n - 1, budget, t);
      var d := DestRun(c, n - 1, p.budget, p.tally);
      ShardState(d.budget, d.tally, p.logs + [d.log])
  }

  function ShardPass(sh: Shard, budget: int, t: Tally): (s: ShardState)
    ensures |s.logs| == |sh.replicas|
  {
    Sweep(Context(sh), |sh.replicas|, budget, Survey(t, sh.replicas))
  }

  datatype PassState = PassState(budget: int, tally: Tally, logs: seq<seq<seq<Entry>>>)

  /** A pass over the first shards, in shard order, sharing one budget and one copy count. */
  function Pass(shards: seq<Shard>): (p: PassState)
    ensures |p.logs| == |shards|
  {
    if shards == [] then PassState(MAX_BYTES, Tally(0, 0, 0, 0, 0, 0, 0, true), [])
    else
      var p := Pass(shards[..|shards| - 1]);
      var s := ShardPass(shards[|shards| - 1], p.budget, p.tally);
      PassState(s.budget, s.tally, p.logs + [s.logs])
  }

  // ------------------------------------------------------------------ the union and its order

  lemma {:induction false} AllMember(rs: seq<Replica>, i: nat, g: Group)
    requires i < |rs| && rs[i].reachable && g in rs[i].groups
    ensures g in All(rs)
  {
    if i < |rs| - 1 { AllMember(rs[..|rs| - 1], i, g); }
  }

  lemma {:induction false} AllSource(rs: seq<Replica>, g: Group) returns (i: nat)
    requires g in All(rs)
    ensures i < |rs| && rs[i].reachable && g in rs[i].groups
  {
    var n := |rs| - 1;
    if g in Listed(rs[n]) { i := n; } else { i := AllSource(rs[..n], g); }
  }

  lemma ContextRight(sh: Shard)
    ensures CtxOf(sh, Context(sh))
  {
    var rs := sh.replicas;
    FoldKeys(All(rs));
    forall d ensures Lookup(Context(sh).holders, d) == HoldersOf(rs, d) {
      if i :| i in HoldersOf(rs, d) {
        var g :| g in rs[i].groups && g.digest == d;
        AllMember(rs, i, g);
      }
    }
  }

  lemma {:induction false} FoldKeys(gs: seq<Group>)
    ensures Fold(gs).Keys == Digests(gs)
    ensures forall d | d in Fold(gs) :: Fold(gs)[d].digest == d
  {
    if gs != [] {
      var n := |gs| - 1;
      FoldKeys(gs[..n]);
      assert gs == gs[..n] + [gs[n]];
      assert Digests(gs) == Digests(gs[..n]) + {gs[n].digest};
    }
  }

  lemma {:induction false} KeySeqRight(gs: seq<Group>)
    ensures NoDup(KeySeq(gs)) && Elems(KeySeq(gs)) == Digests(gs)
  {
    if gs != [] {
      var n := |gs| - 1;
      KeySeqRight(gs[..n]);
      assert gs == gs[..n] + [gs[n]];
      assert Digests(gs) == Digests(gs[..n]) + {gs[n].digest};
    }
  }

  lemma BeforeTotal(u: map<string, Group>, s: set<string>)
    ensures TotalOn((a, b) => Before(u, a, b), s)
  {
    forall a, b | a in s && b in s
      ensures !Before(u, a, a)
      ensures a != b ==> Before(u, a, b) || Before(u, b, a)
    {
      LexTotal(a, b);
    }
    forall a, b, x | a in s && b in s && x in s && Before(u, a, b) && Before(u, b, x)
      ensures Before(u, a, x)
    {
      if LexLess(a, b) && LexLess(b, x) { LexTransitive(a, b, x); }
    }
  }

  /** The pass visits each digest of the union exactly once. */
  lemma OrderMembers(rs: seq<Replica>)
    ensures Elems(OrderOf(rs)) == UnionOf(rs).Keys && NoDup(OrderOf(rs))
    ensures |OrderOf(rs)| == |UnionOf(rs).Keys|
    ensures forall d | d in OrderOf(rs) :: d in UnionOf(rs)
  {
    var u := UnionOf(rs);
    var lt := (a, b) => Before(u, a, b);
    FoldKeys(All(rs));
    KeySeqRight(All(rs));
    BeforeTotal(u, u.Keys);
    SortOrders(lt, KeySeq(All(rs)));
    var o := Sort(lt, KeySeq(All(rs)));
    assert o == OrderOf(rs);
    assert forall d | d in o :: d in Elems(o);
    forall i, j | 0 <= i < j < |o| ensures o[i] != o[j] {
      assert o[i] in Elems(o);
      assert lt(o[i], o[j]);
    }
    NoDupSize(o);
  }

  lemma {:induction false} NoDupSize<T>(s: seq<T>)
    requires NoDup(s)
    ensures |Elems(s)| == |s|
  {
    if s != [] {
      var n := |s| - 1;
      assert s == s[..n] + [s[n]];
      NoDupSize(s[..n]);
      assert Elems(s) == Elems(s[..n]) + {s[n]};
      assert s[n] !in s[..n];
    }
  }

  /** Whatever order a map hands its keys over in, the sorted visit order is the same. */
  lemma OrderCanonical(rs: seq<Replica>, ds: seq<string>)
    requires NoDup(ds) && Elems(ds) == UnionOf(rs).Keys
    ensures Sort((a, b) => Before(UnionOf(rs), a, b), ds) == OrderOf(rs)
  {
    FoldKeys(All(rs));
    KeySeqRight(All(rs));
    BeforeTotal(UnionOf(rs), Elems(ds));
    SortCanonical((a, b) => Before(UnionOf(rs), a, b), ds, KeySeq(All(rs)));
  }
}
