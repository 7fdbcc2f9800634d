/** Where the promises of a repair pass stop: one concrete shard for each hypothesis the safety
    and bound theorems carry, showing that the code really needs it. */
module RepairLimits {
  import opened Basics
  import opened Sorting
  import opened Repair
  import opened RepairSafety
  import opened RepairAccounting
  import opened RepairInStep
  import opened RepairReport

  /** Every transfer succeeds and is acknowledged. */
  ghost predicate AllMoved(sh: Shard) {
    forall i: nat, d :: sh.net(i, d).Moved?
  }

  lemma OrderIs(rs: seq<Replica>, ds: seq<string>)
    requires Elems(ds) == UnionOf(rs).Keys
    requires forall i, j | 0 <= i < j < |ds| :: Before(UnionOf(rs), ds[i], ds[j])
    ensures OrderOf(rs) == ds
  {
    var u := UnionOf(rs);
    var lt := (a, b) => Before(u, a, b);
    BeforeTotal(u, u.Keys);
    FoldKeys(All(rs));
    KeySeqRight(All(rs));
    SortOrders(lt, KeySeq(All(rs)));
    OrderedUnique(lt, Sort(lt, KeySeq(All(rs))), ds);
  }

  lemma RunTwo(c: Ctx, dst: nat, s: DestState, a: string, b: string)
    requires dst < |c.replicas| && a in c.union && b in c.union
    ensures Run(c, dst, s, [a, b]) == Step(c, dst, Step(c, dst, s, a), b)
  {
    assert [a, b][..1] == [a] && [a][..0] == [];
    assert Run(c, dst, s, [a]) == Step(c, dst, s, a);
  }

  lemma RunOne(c: Ctx, dst: nat, s: DestState, a: string)
    requires dst < |c.replicas| && a in c.union
    ensures Run(c, dst, s, [a]) == Step(c, dst, s, a)
  {
    assert [a][..0] == [];
  }

  lemma AllTwo(x: Replica, y: Replica)
    requires x.reachable && y.reachable
    ensures All([x, y]) == x.groups + y.groups
  {
    assert [x, y][..1] == [x] && [x][..0] == [];
    assert All([x]) == x.groups;
  }

  lemma FoldTwo(a: Group, b: Group)
    requires a.digest != b.digest
    ensures Fold([a, b]) == map[a.digest := a, b.digest := b]
  {
    assert [a, b][..1] == [a] && [a][..0] == [];
    assert Fold([a]) == map[a.digest := a];
  }

  lemma Affordable(g: Group)
    requires g.bytes == 1
    ensures !OverBudget(MAX_BYTES, 0, g)
  {
    assert Wrap64(MAX_BYTES - 1) >= 0;
  }

  lemma ReceivedPair(u: map<string, Group>, a: string, v: Verdict, b: string)
    requires a in u && b in u && Unseen(v)
    ensures Received(u, [Entry(b, Copied)]) == [u[b]]
    ensures Received(u, [Entry(a, v), Entry(b, Copied)]) == [u[a]] + [u[b]]
  {
    var log := [Entry(a, v), Entry(b, Copied)];
    assert [Entry(b, Copied)][..0] == [];
    assert log[..1] == [Entry(a, v)] && log[..1][..0] == [];
    assert Received(u, log[..1]) == [u[a]];
  }

  /** A destination that skips a and is clear to take b ends up with its own groups and b. */
  lemma TakesSecond(c: Ctx, dst: nat, a: string, b: string)
    requires dst < |c.replicas| && c.union == UnionOf(c.replicas) && c.replicas[dst].reachable
    requires a in c.union && b in c.union && OrderOf(c.replicas) == [a, b]
    requires a in Digests(c.replicas[dst].groups) && b !in Digests(c.replicas[dst].groups)
    requires OverlappingFrom(c.replicas[dst].groups, c.union[b], c.holders) == "" && c.union[b].bytes == 1
    requires PickSource(c.replicas, b, c.replicas[dst].url) != "" && c.net(dst, b) == Moved(1)
    ensures DestRun(c, dst, MAX_BYTES, FRESH).log == [Entry(b, Copied)]
  {
    var s0 := DestState(c.replicas[dst].groups, MAX_BYTES, FRESH, []);
    RunTwo(c, dst, s0, a, b);
    Affordable(c.union[b]);
    assert Judge(c, dst, s0, b) == Copied;
  }

  /** An empty destination that holds a unseen takes b as well. */
  lemma TakesBehindUnseen(c: Ctx, dst: nat, a: string, v: Verdict, b: string, t: Tally)
    requires dst < |c.replicas| && c.union == UnionOf(c.replicas) && c.replicas[dst].reachable && t.copied == 0
    requires a in c.union && b in c.union && OrderOf(c.replicas) == [a, b] && c.replicas[dst].groups == []
    requires c.union[a].bytes == 1 && c.union[b].bytes == 1 && Unseen(v)
    requires PickSource(c.replicas, a, c.replicas[dst].url) != "" && c.net(dst, a) == (if v == LOST then Failed(true) else AlreadyHeld(true))
    requires PickSource(c.replicas, b, c.replicas[dst].url) != "" && c.net(dst, b) == Moved(1)
    ensures var d := DestRun(c, dst, MAX_BYTES, t);
            d.log == [Entry(a, v), Entry(b, Copied)] && d.tally == Account(Account(t, v, 0), Copied, 1)
  {
    var s0 := DestState([], MAX_BYTES, t, []);
    RunTwo(c, dst, s0, a, b);
    StepIntoEmpty(c, dst, s0, a, v);
    var s1 := Step(c, dst, s0, a);
    assert s1.log == [Entry(a, v)];
    StepIntoEmpty(c, dst, s1, b, Copied);
  }

  lemma StepIntoEmpty(c: Ctx, dst: nat, s: DestState, d: string, v: Verdict)
    requires dst < |c.replicas| && d in c.union && c.replicas[dst].groups == []
    requires s.spans == [] && s.budget == MAX_BYTES && s.tally.copied == 0 && c.union[d].bytes == 1
    requires PickSource(c.replicas, d, c.replicas[dst].url) != "" && (v == Copied || Unseen(v))
    requires c.net(dst, d) == (if v == Copied then Moved(1) else if v == LOST then Failed(true) else AlreadyHeld(true))
    ensures var r := Step(c, dst, s, d);
            && r.log == s.log + [Entry(d, v)] && r.tally == Account(s.tally, v, if v == Copied then 1 else 0)
            && (v != Copied ==> r.spans == [] && r.budget == MAX_BYTES)
  {
    Affordable(c.union[d]);
    assert OverlappingFrom([], c.union[d], c.holders) == "";
  }

  lemma PairOverlaps(own: Group, got: Group)
    requires Overlaps(own, got)
    ensures SelfOverlap([own] + [got])
  {
    var p := [own] + [got];
    assert Overlaps(p[0], p[1]);
  }

  /** An unnamed group [0,10] on one replica, a named group inside it on the other. */
  function Unnamed(): Shard {
    Shard([Replica("u", true, [Group("", 0, 10, 1)]), Replica("v", true, [Group("x", 5, 6, 1)])],
          (_, _) => Moved(1))
  }

  lemma UnnamedUnion()
    ensures UnionOf(Unnamed().replicas) == map["" := Group("", 0, 10, 1), "x" := Group("x", 5, 6, 1)]
    ensures OrderOf(Unnamed().replicas) == ["", "x"]
    ensures Honest(Unnamed().replicas)
  {
    var rs := Unnamed().replicas;
    var g, h := Group("", 0, 10, 1), Group("x", 5, 6, 1);
    AllTwo(rs[0], rs[1]);
    assert All(rs) == [g, h];
    FoldTwo(g, h);
    assert Elems(["", "x"]) == {"", "x"};
    OrderIs(rs, ["", "x"]);
  }

  lemma UnnamedSeenAsNothing(g: Group, h: Group, holders: map<string, set<nat>>)
    requires g.digest == ""
    ensures OverlappingFrom([g], h, holders) == ""
  {
    var none: seq<Group> := [];
    assert [g][1..] == none;
    assert Unshared(none, h.digest, holders) == none && Overlapping(none, h) == "";
    assert Unshared([g], h.digest, holders) == none || Unshared([g], h.digest, holders) == [g];
  }

  /** An unnamed group hides the rows it covers: the guard answers with its empty digest, which
      reads as "nothing there", and a group is copied on top of it. */
  lemma UnnamedGroupIsCopiedOver()
    ensures
      var sh := Unnamed();
      var log := DestRun(Context(sh), 0, MAX_BYTES, FRESH).log;
      && Honest(sh.replicas) && AllMoved(sh) && !SelfOverlap(sh.replicas[0].groups)
      && log == [Entry("x", Copied)] && SelfOverlap(After(sh.replicas[0], UnionOf(sh.replicas), log))
  {
    UnnamedUnion();
    UnnamedRun(Context(Unnamed()));
  }

  lemma UnnamedRun(c: Ctx)
    requires c.replicas == Unnamed().replicas && c.union == UnionOf(c.replicas) && c.net == Unnamed().net
    ensures DestRun(c, 0, MAX_BYTES, FRESH).log == [Entry("x", Copied)]
    ensures SelfOverlap(After(c.replicas[0], c.union, [Entry("x", Copied)]))
  {
    UnnamedUnion();
    UnnamedTaken(c);
    UnnamedOverlap(c.replicas[0], c.union);
  }

  lemma UnnamedTaken(c: Ctx)
    requires c.replicas == Unnamed().replicas && c.union == UnionOf(c.replicas) && c.net == Unnamed().net
    requires c.union == map["" := Group("", 0, 10, 1), "x" := Group("x", 5, 6, 1)] && OrderOf(c.replicas) == ["", "x"]
    ensures DestRun(c, 0, MAX_BYTES, FRESH).log == [Entry("x", Copied)]
  {
    UnnamedSeenAsNothing(Group("", 0, 10, 1), Group("x", 5, 6, 1), c.holders);
    UnnamedSource(c.replicas);
    TakesSecond(c, 0, "", "x");
  }

  lemma UnnamedSource(rs: seq<Replica>)
    requires rs == Unnamed().replicas
    ensures "" in Digests(rs[0].groups) && "x" !in Digests(rs[0].groups)
    ensures PickSource(rs, "x", rs[0].url) != ""
  {
    assert Group("", 0, 10, 1) in rs[0].groups && Group("x", 5, 6, 1) in rs[1].groups;
    assert rs[1..][0] == rs[1];
  }

  lemma UnnamedOverlap(dst: Replica, union: map<string, Group>)
    requires dst.groups == [Group("", 0, 10, 1)]
    requires union == map["" := Group("", 0, 10, 1), "x" := Group("x", 5, 6, 1)]
    ensures SelfOverlap(After(dst, union, [Entry("x", Copied)]))
  {
    ReceivedPair(union, "", LOST, "x");
    PairOverlaps(Group("", 0, 10, 1), Group("x", 5, 6, 1));
  }

  /** A fine group, a coarse spelling of the same range, and a replica that reports neither. The first
      transfer fails after the destination adopted it, or is declined because it was there all along. */
  function Hidden(v: Verdict): Shard {
    Shard([Replica("u", true, [Group("a", 0, 10, 1)]), Replica("v", true, [Group("b", 0, 20, 1)]),
           Replica("w", true, [])],
          (_, d) => if d == "a" then (if v == LOST then Failed(true) else AlreadyHeld(true)) else Moved(1))
  }

  lemma HiddenUnion(v: Verdict)
    ensures UnionOf(Hidden(v).replicas) == map["a" := Group("a", 0, 10, 1), "b" := Group("b", 0, 20, 1)]
    ensures OrderOf(Hidden(v).replicas) == ["a", "b"]
    ensures Honest(Hidden(v).replicas) && Named(Hidden(v).replicas)
  {
    var rs := Hidden(v).replicas;
    var g, h := Group("a", 0, 10, 1), Group("b", 0, 20, 1);
    assert rs[..2] == [rs[0], rs[1]];
    AllTwo(rs[0], rs[1]);
    assert All(rs) == [g, h];
    FoldTwo(g, h);
    assert Elems(["a", "b"]) == {"a", "b"};
    OrderIs(rs, ["a", "b"]);
  }

  lemma HiddenEnds(sh: Shard, c: Ctx, v: Verdict, t: Tally)
    requires Unseen(v) && sh == Hidden(v) && c == Context(sh) && t.copied == 0
    ensures Honest(sh.replicas) && Named(sh.replicas) && |sh.replicas| == 3 && sh.replicas[2].groups == []
    ensures var s := DestRun(c, 2, MAX_BYTES, t);
            && s.log == [Entry("a", v), Entry("b", Copied)] && s.tally.blocked == t.blocked
            && (v == STALE ==> s.tally.complete == t.complete)
            && SelfOverlap(After(sh.replicas[2], UnionOf(sh.replicas), s.log))
  {
    HiddenUnion(v);
    HiddenRun(c, v, t);
    HiddenOverlap(v);
  }

  /** The acknowledgement matters: a group adopted by a destination whose answer was lost is not
      added to the spans, so a coarser spelling of the same rows is copied after it. */
  lemma LostAnswerIsCopiedOver()
    ensures
      var sh := Hidden(LOST);
      var log := DestRun(Context(sh), 2, MAX_BYTES, FRESH).log;
      && Honest(sh.replicas) && Named(sh.replicas) && sh.replicas[2].groups == []
      && log == [Entry("a", LOST), Entry("b", Copied)]
      && SelfOverlap(After(sh.replicas[2], UnionOf(sh.replicas), log))
  {
    HiddenEnds(Hidden(LOST), Context(Hidden(LOST)), LOST, FRESH);
  }

  /** So does the inventory: a group the destination truly declines because it held it is not added to
      the spans either. The destination ends up with both spellings of the rows, and this part of the
      report is complete and blocks nothing. */
  lemma TrueDeclineIsCopiedOver(t: Tally)
    requires t.copied == 0
    ensures
      var sh := Hidden(STALE);
      var s := DestRun(Context(sh), 2, MAX_BYTES, t);
      && Honest(sh.replicas) && Named(sh.replicas) && sh.replicas[2].groups == []
      && s.log == [Entry("a", STALE), Entry("b", Copied)] && s.tally.complete == t.complete && s.tally.blocked == t.blocked
      && SelfOverlap(After(sh.replicas[2], UnionOf(sh.replicas), s.log))
  {
    HiddenEnds(Hidden(STALE), Context(Hidden(STALE)), STALE, t);
  }

  lemma HiddenSources(v: Verdict)
    ensures PickSource(Hidden(v).replicas, "a", "w") == "u"
    ensures PickSource(Hidden(v).replicas, "b", "w") == "v"
  {
    var rs := Hidden(v).replicas;
    assert Group("a", 0, 10, 1) in rs[0].groups;
    var tail := rs[1..];
    assert tail[0] == rs[1] && Group("b", 0, 20, 1) in tail[0].groups;
    assert PickSource(tail, "b", "w") == "v";
  }

  lemma HiddenRun(c: Ctx, v: Verdict, t: Tally)
    requires Unseen(v) && c.replicas == Hidden(v).replicas && c.union == UnionOf(c.replicas) && c.net == Hidden(v).net
    requires t.copied == 0
    ensures var d := DestRun(c, 2, MAX_BYTES, t);
            d.log == [Entry("a", v), Entry("b", Copied)] && d.tally == Account(Account(t, v, 0), Copied, 1)
  {
    HiddenUnion(v);
    HiddenSources(v);
    TakesBehindUnseen(c, 2, "a", v, "b", t);
  }

  lemma HiddenOverlap(v: Verdict)
    requires Unseen(v)
    ensures SelfOverlap(After(Hidden(v).replicas[2], UnionOf(Hidden(v).replicas), [Entry("a", v), Entry("b", Copied)]))
  {
    var u := UnionOf(Hidden(v).replicas);
    HiddenUnion(v);
    ReceivedPair(u, "a", v, "b");
    var own: seq<Group> := [];
    assert own + ([u["a"]] + [u["b"]]) == [u["a"]] + [u["b"]];
    PairOverlaps(u["a"], u["b"]);
  }

  /** One group, and a replica that misses it and says it has it. */
  function FalseWord(): Shard {
    Shard([Replica("u", true, [Group("a", 0, 10, 1)]), Replica("w", true, [])], (_, _) => AlreadyHeld(false))
  }

  lemma FalseWordUnion()
    ensures UnionOf(FalseWord().replicas) == map["a" := Group("a", 0, 10, 1)]
    ensures OrderOf(FalseWord().replicas) == ["a"] && Fit(FalseWord().replicas)
  {
    var rs := FalseWord().replicas;
    AllTwo(rs[0], rs[1]);
    assert All(rs) == [Group("a", 0, 10, 1)];
    assert [Group("a", 0, 10, 1)][..0] == [];
    assert Elems(["a"]) == {"a"};
    OrderIs(rs, ["a"]);
  }

  lemma FalseWordRuns(c: Ctx, t: Tally)
    requires c.replicas == FalseWord().replicas && c.net == FalseWord().net && t.copied == 0
    requires c.union == UnionOf(c.replicas) == map["a" := Group("a", 0, 10, 1)] && OrderOf(c.replicas) == ["a"]
    ensures var d := DestRun(c, 0, MAX_BYTES, t); d.budget == MAX_BYTES && d.tally == t && d.log == []
    ensures var d := DestRun(c, 1, MAX_BYTES, t);
            d.budget == MAX_BYTES && d.tally == Account(t, FALSE, 0) && d.log == [Entry("a", FALSE)]
  {
    var rs := c.replicas;
    assert Group("a", 0, 10, 1) in rs[0].groups;
    RunOne(c, 0, DestState(rs[0].groups, MAX_BYTES, t, []), "a");
    RunOne(c, 1, DestState([], MAX_BYTES, t, []), "a");
    Affordable(c.union["a"]);
    assert OverlappingFrom([], c.union["a"], c.holders) == "" && PickSource(rs, "a", "w") == "u";
  }

  lemma FalseWordSweep(c: Ctx, t: Tally)
    requires c.replicas == FalseWord().replicas && c.net == FalseWord().net && t.copied == 0
    requires c.union == UnionOf(c.replicas) == map["a" := Group("a", 0, 10, 1)] && OrderOf(c.replicas) == ["a"]
    ensures Sweep(c, 2, MAX_BYTES, t).tally == Account(t, FALSE, 0) && Sweep(c, 2, MAX_BYTES, t).logs[1] == [Entry("a", FALSE)]
  {
    FalseWordRuns(c, t);
    assert Sweep(c, 0, MAX_BYTES, t) == ShardState(MAX_BYTES, t, []);
    var p := Sweep(c, 1, MAX_BYTES, t);
    assert p.budget == MAX_BYTES && p.tally == t;
  }

  /** A decline is only the destination's word: the whole report is complete, and a replica holds
      nothing of what it said it held. */
  lemma FalseDeclineIsComplete()
    ensures var sh := FalseWord();
            && Pass([sh]).tally.complete && Pass([sh]).tally.declined == 1
            && !HoldsUnion(Repaired(sh, ShardPass(sh, MAX_BYTES, FRESH).logs))
  {
    var sh := FalseWord();
    FalseWordUnion();
    SurveyKeeps(FRESH, sh.replicas);
    FalseWordSweep(Context(sh), FRESH);
    assert ShardPass(sh, MAX_BYTES, FRESH).logs[1][0] == Entry("a", FALSE);
    CompleteHoldsExactly(sh, MAX_BYTES, FRESH);
    PassOfOne(sh);
  }

  lemma PassOfOne(sh: Shard)
    ensures Pass([sh]).tally == ShardPass(sh, MAX_BYTES, FRESH).tally
  {
    assert [sh][..0] == [];
    assert Pass([]) == PassState(MAX_BYTES, FRESH, []);
  }

  /** Two replicas report overlapping spans for a and b; a third reports them as disjoint. */
  function FalseSpans(): Shard {
    Shard([Replica("v", true, [Group("b", 5, 15, 1)]),
           Replica("u", true, [Group("a", 0, 10, 1), Group("b", 11, 15, 1)]),
           Replica("w", true, [Group("a", 0, 10, 1)])],
          (_, _) => Moved(1))
  }

  lemma FoldFour(h: Group, g: Group, l: Group)
    requires h.digest == l.digest != g.digest && h.tmin <= l.tmin && h.tmax == l.tmax && h.bytes == l.bytes
    ensures Fold([h, g, l, g]) == map[g.digest := g, h.digest := h]
  {
    var gs := [h, g, l, g];
    assert gs[..3] == [h, g, l] && gs[..3][..2] == [h, g];
    FoldTwo(h, g);
    assert Fold(gs[..3]) == map[h.digest := h, g.digest := g];
  }

  lemma FalseSpansUnion()
    ensures UnionOf(FalseSpans().replicas) == map["a" := Group("a", 0, 10, 1), "b" := Group("b", 5, 15, 1)]
    ensures OrderOf(FalseSpans().replicas) == ["a", "b"]
    ensures Named(FalseSpans().replicas)
  {
    var rs := FalseSpans().replicas;
    var g, h, l := Group("a", 0, 10, 1), Group("b", 5, 15, 1), Group("b", 11, 15, 1);
    assert rs[..2] == [rs[0], rs[1]];
    AllTwo(rs[0], rs[1]);
    assert All(rs) == [h, g, l, g];
    FoldFour(h, g, l);
    assert Elems(["a", "b"]) == {"a", "b"};
    OrderIs(rs, ["a", "b"]);
  }

  /** A digest must determine its span. A replica that reports two digests with spans that do
      not touch certifies the pair, whatever spans the others report for them: widening a false
      span does not take the certificate away, so a clean replica ends up overlapping. */
  lemma FalseSpansCertify()
    ensures
      var sh := FalseSpans();
      var log := DestRun(Context(sh), 2, MAX_BYTES, FRESH).log;
      && Named(sh.replicas) && AllMoved(sh) && !SelfOverlap(sh.replicas[2].groups)
      && log == [Entry("b", Copied)] && SelfOverlap(After(sh.replicas[2], UnionOf(sh.replicas), log))
  {
    FalseSpansUnion();
    ContextRight(FalseSpans());
    FalseSpansRun(Context(FalseSpans()));
  }

  lemma FalseSpansCertificate(c: Ctx)
    requires CtxOf(FalseSpans(), c)
    ensures OverlappingFrom([Group("a", 0, 10, 1)], Group("b", 5, 15, 1), c.holders) == ""
  {
    var r := FalseSpans().replicas[1];
    var g := Group("a", 0, 10, 1);
    assert r.groups[0] in r.groups && r.groups[1] in r.groups;
    assert 1 in HoldersOf(FalseSpans().replicas, "a") && 1 in HoldersOf(FalseSpans().replicas, "b");
    assert 1 in Lookup(c.holders, "a") * Lookup(c.holders, "b");
    assert [g][1..] == [];
    assert Unshared([g], "b", c.holders) == [];
  }

  lemma FalseSpansRun(c: Ctx)
    requires CtxOf(FalseSpans(), c)
    ensures DestRun(c, 2, MAX_BYTES, FRESH).log == [Entry("b", Copied)]
    ensures SelfOverlap(After(c.replicas[2], c.union, [Entry("b", Copied)]))
  {
    var rs := c.replicas;
    var g, h := Group("a", 0, 10, 1), Group("b", 5, 15, 1);
    FalseSpansUnion();
    FalseSpansCertificate(c);
    assert g in rs[2].groups && h in rs[0].groups;
    assert PickSource(rs, "b", "w") == "v";
    TakesSecond(c, 2, "a", "b");
    ReceivedPair(c.union, "a", LOST, "b");
    PairOverlaps(g, h);
  }

  /** Two groups claiming nothing and one claiming a byte too much, for a replica that has none. */
  function Overclaimed(): Shard {
    Shard([Replica("u", true, [Group("a", 0, 0, 0), Group("b", 1, 1, 0), Group("c", 2, 2, CLAIM_LIMIT + 1)]),
           Replica("v", true, [])],
          (_, _) => Moved(MAX_BYTES))
  }

  lemma FoldThree(a: Group, b: Group, c: Group)
    requires a.digest != b.digest && a.digest != c.digest && b.digest != c.digest
    ensures Fold([a, b, c]) == map[a.digest := a, b.digest := b, c.digest := c]
  {
    assert [a, b, c][..2] == [a, b];
    FoldTwo(a, b);
  }

  lemma OverclaimedUnion()
    ensures UnionOf(Overclaimed().replicas)
         == map["a" := Group("a", 0, 0, 0), "b" := Group("b", 1, 1, 0), "c" := Group("c", 2, 2, CLAIM_LIMIT + 1)]
    ensures OrderOf(Overclaimed().replicas) == ["a", "b", "c"]
    ensures !SelfOverlap(Overclaimed().replicas[0].groups)
  {
    var rs := Overclaimed().replicas;
    AllTwo(rs[0], rs[1]);
    assert All(rs) == rs[0].groups;
    FoldThree(rs[0].groups[0], rs[0].groups[1], rs[0].groups[2]);
    assert Elems(["a", "b", "c"]) == {"a", "b", "c"};
    OrderIs(rs, ["a", "b", "c"]);
  }

  /** One transfer of a whole ceiling into a destination that has nothing in the way. */
  lemma CeilingMoves(c: Ctx, s: DestState, d: string)
    requires |c.replicas| == 2 && c.replicas[1].groups == [] && d in c.union && c.net(1, d) == Moved(MAX_BYTES)
    requires s.tally.copied < MAX_GROUPS && Wrap64(s.budget - Claimed(c.union[d])) >= 0
    requires PickSource(c.replicas, d, c.replicas[1].url) != "" && OverlappingFrom(s.spans, c.union[d], c.holders) == ""
    ensures var r := Step(c, 1, s, d);
            && r.spans == s.spans + [c.union[d]] && r.budget == s.budget - MAX_BYTES
            && r.tally.copied == s.tally.copied + 1 && r.tally.bytes == s.tally.bytes + MAX_BYTES
  {
    assert Judge(c, 1, s, d) == Copied;
  }

  lemma RunThree(c: Ctx, s: DestState)
    requires |c.replicas| == 2 && "a" in c.union && "b" in c.union && "c" in c.union
    ensures Run(c, 1, s, ["a", "b", "c"]) == Step(c, 1, Step(c, 1, Step(c, 1, s, "a"), "b"), "c")
  {
    assert ["a", "b", "c"][..2] == ["a", "b"];
    RunTwo(c, 1, s, "a", "b");
  }

  lemma OverclaimedSource(rs: seq<Replica>, d: string)
    requires rs == Overclaimed().replicas && (d == "a" || d == "b" || d == "c")
    ensures PickSource(rs, d, rs[1].url) != ""
  {
    assert rs[0].groups[0] in rs[0].groups && rs[0].groups[1] in rs[0].groups && rs[0].groups[2] in rs[0].groups;
  }

  ghost predicate OverclaimedCtx(c: Ctx) {
    && c.replicas == Overclaimed().replicas && c.net == Overclaimed().net
    && c.union == map["a" := Group("a", 0, 0, 0), "b" := Group("b", 1, 1, 0), "c" := Group("c", 2, 2, CLAIM_LIMIT + 1)]
  }

  /** A transfer of the run: what it takes, and that the wrapped subtraction lets it through. */
  lemma OverclaimedStep(c: Ctx, s: DestState, d: string)
    requires OverclaimedCtx(c) && d in c.union && s.tally.copied < 3
    requires (forall h | h in s.spans :: !Overlaps(c.union[d], h)) && Wrap64(s.budget - Claimed(c.union[d])) >= 0
    ensures var r := Step(c, 1, s, d);
            && r.spans == s.spans + [c.union[d]] && r.budget == s.budget - MAX_BYTES
            && r.tally.copied == s.tally.copied + 1 && r.tally.bytes == s.tally.bytes + MAX_BYTES
  {
    OverclaimedSource(c.replicas, d);
    NothingMet(s.spans, c.union[d], c.holders);
    CeilingMoves(c, s, d);
  }

  /** Two groups that claim nothing take two ceilings. */
  lemma OverclaimedTwo(c: Ctx, t: Tally)
    requires OverclaimedCtx(c) && t.copied == 0 && t.bytes == 0
    ensures var s := Step(c, 1, Step(c, 1, DestState([], MAX_BYTES, t, []), "a"), "b");
            s.spans == [c.union["a"], c.union["b"]] && s.budget == -MAX_BYTES && s.tally.copied == 2 && s.tally.bytes == 2 * MAX_BYTES
  {
    var s0 := DestState([], MAX_BYTES, t, []);
    WrapFits(MAX_BYTES);
    OverclaimedStep(c, s0, "a");
    WrapFits(0);
    OverclaimedStep(c, Step(c, 1, s0, "a"), "b");
  }

  lemma OverclaimedThird(c: Ctx, s: DestState)
    requires OverclaimedCtx(c) && s.spans == [c.union["a"], c.union["b"]] && s.budget == -MAX_BYTES
    requires s.tally.copied == 2 && s.tally.bytes == 2 * MAX_BYTES
    ensures Step(c, 1, s, "c").tally.bytes == 3 * MAX_BYTES
  {
    WrapBelow(-TWO63 - 1);
    OverclaimedStep(c, s, "c");
  }

  lemma OverclaimedRun(c: Ctx, t: Tally)
    requires OverclaimedCtx(c) && t.copied == 0 && t.bytes == 0
    ensures Run(c, 1, DestState([], MAX_BYTES, t, []), ["a", "b", "c"]).tally.bytes == 3 * MAX_BYTES
  {
    var s0 := DestState([], MAX_BYTES, t, []);
    RunThree(c, s0);
    OverclaimedTwo(c, t);
    OverclaimedThird(c, Step(c, 1, Step(c, 1, s0, "a"), "b"));
  }

  /** One claim past the limit breaks the byte bound: after two groups that claimed nothing the budget is
      one ceiling below zero, the subtraction wraps, and the pass moves a third ceiling. */
  lemma ClaimPastLimitBreaksBound()
    ensures var sh := Overclaimed();
            Capped(sh) && Pass([sh]).tally.bytes == 3 * MAX_BYTES
  {
    var sh := Overclaimed();
    var c := Context(sh);
    OverclaimedUnion();
    SurveyKeeps(FRESH, sh.replicas);
    var t := Survey(FRESH, sh.replicas);
    OverclaimedFirst(c, t);
    OverclaimedRun(c, t);
    assert [sh][..0] == [];
    assert Pass([]) == PassState(MAX_BYTES, FRESH, []);
    assert Sweep(c, 0, MAX_BYTES, t) == ShardState(MAX_BYTES, t, []);
    assert Sweep(c, 1, MAX_BYTES, t).tally == t && Sweep(c, 1, MAX_BYTES, t).budget == MAX_BYTES;
    assert Sweep(c, 2, MAX_BYTES, t).tally == DestRun(c, 1, MAX_BYTES, t).tally;
  }

  lemma OverclaimedFirst(c: Ctx, t: Tally)
    requires c.replicas == Overclaimed().replicas && c.union == UnionOf(c.replicas)
    ensures DestRun(c, 0, MAX_BYTES, t).tally == t && DestRun(c, 0, MAX_BYTES, t).budget == MAX_BYTES
  {
    OverclaimedUnion();
    OrderMembers(c.replicas);
    var gs := c.replicas[0].groups;
    assert gs[0] in gs && gs[1] in gs && gs[2] in gs;
    RunSkips(c, 0, DestState(gs, MAX_BYTES, t, []), OrderOf(c.replicas));
  }
}
