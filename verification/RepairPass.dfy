/** The pass as the router runs it: nested loops over shards, replicas and digests, growing the
    union, the holder sets, the destination's spans and the report as it goes. */
module RepairPass {
  import opened Basics
  import opened Sorting
  import opened Repair

  lemma FoldSnoc(gs: seq<Group>, g: Group)
    ensures Fold(gs + [g]) == Widen(Fold(gs), g)
  {
    assert (gs + [g])[..|gs|] == gs;
  }

  method WidenAll(union0: map<string, Group>, gs: seq<Group>, ghost seen: seq<Group>)
    returns (union: map<string, Group>)
    requires union0 == Fold(seen)
    ensures union == Fold(seen + gs)
  {
    union := union0;
    assert seen + gs[..0] == seen;
    for j := 0 to |gs|
      invariant union == Fold(seen + gs[..j])
    {
      var g := gs[j];
      FoldSnoc(seen + gs[..j], g);
      assert seen + gs[..j + 1] == (seen + gs[..j]) + [g];
      if g.digest in union {
        var have := union[g.digest];
        if have.tmin < g.tmin { g := g.(tmin := have.tmin); }
        if have.tmax > g.tmax { g := g.(tmax := have.tmax); }
      }
      union := union[g.digest := g];
    }
    assert gs[..|gs|] == gs;
  }

  method CollectUnion(rs: seq<Replica>) returns (union: map<string, Group>)
    ensures union == UnionOf(rs)
  {
    union := map[];
    for i := 0 to |rs|
      invariant union == Fold(All(rs[..i]))
    {
      assert rs[..i + 1][..i] == rs[..i];
      if rs[i].reachable {
        union := WidenAll(union, rs[i].groups, All(rs[..i]));
      } else {
        assert All(rs[..i]) + [] == All(rs[..i]);
      }
    }
    assert rs[..|rs|] == rs;
  }

  /** Who may vouch that two groups differ: only replicas whose own inventory does not overlap. */
  method CollectHolders(rs: seq<Replica>) returns (holders: map<string, set<nat>>)
    ensures HoldersRight(rs, holders)
    ensures forall d | d in holders :: holders[d] != {}
  {
    holders := map[];
    for i := 0 to |rs|
      invariant forall d :: Lookup(holders, d) == (set k | k in HoldersOf(rs, d) && k < i)
      invariant forall d | d in holders :: holders[d] != {}
    {
      if rs[i].reachable && !SelfOverlap(rs[i].groups) {
        holders := AddHolder(holders, rs[i].groups, i);
      }
      forall d ensures Lookup(holders, d) == (set k | k in HoldersOf(rs, d) && k < i + 1) {
      }
    }
    forall d ensures Lookup(holders, d) == HoldersOf(rs, d) {
    }
  }

  method AddHolder(holders0: map<string, set<nat>>, gs: seq<Group>, i: nat)
    returns (holders: map<string, set<nat>>)
    requires forall d | d in holders0 :: holders0[d] != {}
    ensures forall d :: Lookup(holders, d) == Lookup(holders0, d) + (if d in Digests(gs) then {i} else {})
    ensures forall d | d in holders :: holders[d] != {}
  {
    holders := holders0;
    for j := 0 to |gs|
      invariant forall d :: Lookup(holders, d) == Lookup(holders0, d) + (if d in Digests(gs[..j]) then {i} else {})
      invariant forall d | d in holders :: holders[d] != {}
    {
      var d := gs[j].digest;
      var have := if d in holders then holders[d] else {};
      holders := holders[d := have + {i}];
      assert gs[..j + 1] == gs[..j] + [gs[j]];
      assert Digests(gs[..j + 1]) == Digests(gs[..j]) + {d};
    }
    assert gs[..|gs|] == gs;
  }

  method SortedDigests(rs: seq<Replica>, union: map<string, Group>) returns (ds: seq<string>)
    requires union == UnionOf(rs)
    ensures ds == OrderOf(rs)
  {
    var keys := union.Keys;
    ds := [];
    while keys != {}
      invariant NoDup(ds) && Elems(ds) == union.Keys - keys && keys <= union.Keys
      decreases keys
    {
      var d :| d in keys;
      assert d !in Elems(ds);
      assert Elems(ds + [d]) == Elems(ds) + {d};
      ds := ds + [d];
      keys := keys - {d};
    }
    OrderCanonical(rs, ds);
    ds := Sort((a, b) => Before(UnionOf(rs), a, b), ds);
  }

  /** One missing group: guard, bounds, source, transfer, in that order. */
  method Consider(c: Ctx, dst: nat, spans: seq<Group>, budget: int, copied: nat, digest: string)
    returns (v: Verdict, moved: nat)
    requires dst < |c.replicas| && digest in c.union
    ensures forall t: Tally, log | t.copied == copied ::
              v == Judge(c, dst, DestState(spans, budget, t, log), digest)
    ensures moved == if v == Copied then Size(c.net(dst, digest)) else 0
  {
    var g := c.union[digest];
    moved := 0;
    var blocked := OverlappingFrom(spans, g, c.holders);
    if blocked != "" { return Blocked, 0; }
    var claimed := g.bytes;
    if claimed < 0 { claimed := 0; }
    if copied >= MAX_GROUPS || Wrap64(budget - claimed) < 0 { return Deferred, 0; }
    var src := PickSource(c.replicas, digest, c.replicas[dst].url);
    if src == "" { return Deferred, 0; }
    match c.net(dst, digest)
    case AlreadyHeld(held) => v := Declined(held);
    case Failed(adopted) => v := Broken(adopted);
    case Moved(size) => v, moved := Copied, size;
  }

  method RepairDestination(c: Ctx, dst: nat, digests: seq<string>, budget0: int, t0: Tally)
    returns (budget: int, t: Tally, log: seq<Entry>)
    requires dst < |c.replicas| && forall d | d in digests :: d in c.union
    ensures var s := Run(c, dst, DestState(c.replicas[dst].groups, budget0, t0, []), digests);
            budget == s.budget && t == s.tally && log == s.log
  {
    var st := c.replicas[dst];
    var have := Digests(st.groups);
    var spans := st.groups;
    budget, t, log := budget0, t0, [];
    for i := 0 to |digests|
      invariant DestState(spans, budget, t, log)
                == Run(c, dst, DestState(st.groups, budget0, t0, []), digests[..i])
    {
      var digest := digests[i];
      assert digests[..i + 1][..i] == digests[..i];
      if digest in have { continue; }
      ghost var before := DestState(spans, budget, t, log);
      var v, moved := Consider(c, dst, spans, budget, t.copied, digest);
      assert v == Judge(c, dst, before, digest);
      match v {
      case Blocked => t := t.(blocked := t.blocked + 1, complete := false);
      case Deferred => t := t.(remaining := t.remaining + 1, complete := false);
      case Declined(_) => t := t.(declined := t.declined + 1);
      case Broken(_) => t := t.(failed := t.failed + 1, complete := false);
      case Copied =>
        t := t.(copied := t.copied + 1, bytes := t.bytes + moved);
        budget := budget - moved;
        spans := spans + [c.union[digest]];
      }
      log := log + [Entry(digest, v)];
      assert DestState(spans, budget, t, log) == Step(c, dst, before, digest);
    }
    assert digests[..|digests|] == digests;
  }

  method RepairShard(sh: Shard, budget0: int, t0: Tally)
    returns (budget: int, t: Tally, logs: seq<seq<Entry>>)
    ensures ShardState(budget, t, logs) == ShardPass(sh, budget0, t0)
  {
    var rs := sh.replicas;
    t := t0;
    for i := 0 to |rs|
      invariant t == Survey(t0, rs[..i])
    {
      assert rs[..i + 1][..i] == rs[..i];
      if !rs[i].reachable {
        t := t.(complete := false);
      } else if SelfOverlap(rs[i].groups) {
        t := t.(selfOverlapping := t.selfOverlapping + 1, complete := false);
      }
    }
    assert rs[..|rs|] == rs;
    var union := CollectUnion(rs);
    var holders := CollectHolders(rs);
    HoldersCanonical(sh, holders);
    var c := Ctx(rs, union, holders, sh.net);
    var digests := SortedDigests(rs, union);
    OrderMembers(rs);
    budget, logs := budget0, [];
    ghost var start := t;
    for dst := 0 to |rs|
      invariant ShardState(budget, t, logs) == Sweep(c, dst, budget0, start)
    {
      var log := [];
      if rs[dst].reachable {
        budget, t, log := RepairDestination(c, dst, digests, budget, t);
      }
      logs := logs + [log];
    }
  }

  lemma HoldersCanonical(sh: Shard, holders: map<string, set<nat>>)
    requires HoldersRight(sh.replicas, holders) && forall d | d in holders :: holders[d] != {}
    ensures holders == Context(sh).holders
  {
    ContextRight(sh);
    var h := Context(sh).holders;
    forall d ensures d in holders <==> d in h {
      assert Lookup(holders, d) == Lookup(h, d);
    }
    forall d | d in holders ensures holders[d] == h[d] {
      assert Lookup(holders, d) == Lookup(h, d);
    }
  }

  /** The whole pass over every shard computes Pass: one budget, one copy count, one report. */
  method RepairCluster(shards: seq<Shard>) returns (budget: int, t: Tally, logs: seq<seq<seq<Entry>>>)
    ensures PassState(budget, t, logs) == Pass(shards)
  {
    budget, t, logs := MAX_BYTES, Tally(0, 0, 0, 0, 0, 0, 0, true), [];
    for i := 0 to |shards|
      invariant PassState(budget, t, logs) == Pass(shards[..i])
    {
      assert shards[..i + 1][..i] == shards[..i];
      var ls;
      budget, t, ls := RepairShard(shards[i], budget, t);
      logs := logs + [ls];
    }
    assert shards[..|shards|] == shards;
  }
}
