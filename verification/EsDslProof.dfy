/** The tree and the window together accept exactly the documents the body asks for. */
module EsDslProof {
  import opened Basics
  import opened EsDsl

  /** A document inside the domain a body without an end can reach. */
  predicate Reachable(d: Doc) {
    d.time < NO_END
  }

  predicate All(es: seq<Expr>, d: Doc) {
    forall e | e in es :: Eval(e, d)
  }

  lemma AllConcat(a: seq<Expr>, b: seq<Expr>, d: Doc)
    ensures All(a + b, d) <==> All(a, d) && All(b, d)
  {
    assert forall e | e in a :: e in a + b;
    assert forall e | e in b :: e in a + b;
  }

  lemma CollapseRight(kids: seq<Expr>, d: Doc)
    ensures EvalOpt(Collapse(kids), d) <==> All(kids, d)
  {
    if |kids| == 1 {
      assert kids[0] in kids;
      assert forall e | e in kids :: e == kids[0];
    }
  }

  // ------------------------------------------------------------------ leaves

  lemma LeavesRight(c: Clause, d: Doc)
    ensures All(FieldLeaves(c), d) <==>
            && (forall p | p in c.term :: Get(d, p.0) == p.1)
            && (forall p | p in c.terms :: Get(d, p.0) in p.1)
            && (forall p | p in c.match_ :: Get(d, p.0) == p.1)
            && (forall p | p in c.prefix :: p.1 <= Get(d, p.0))
  {
    EqRight(c.term, d);
    InRight(c.terms, d);
    EqRight(c.match_, d);
    PrefixRight(c.prefix, d);
    AllConcat(EqLeaves(c.term), InLeaves(c.terms), d);
    AllConcat(EqLeaves(c.term) + InLeaves(c.terms), EqLeaves(c.match_), d);
    AllConcat(EqLeaves(c.term) + InLeaves(c.terms) + EqLeaves(c.match_), PrefixLeaves(c.prefix), d);
  }

  lemma EqRight(ps: seq<(string, string)>, d: Doc)
    ensures All(EqLeaves(ps), d) <==> forall p | p in ps :: Get(d, p.0) == p.1
  {
    forall i | 0 <= i < |ps| ensures Eval(EqLeaves(ps)[i], d) <==> Get(d, ps[i].0) == ps[i].1 {
    }
    assert forall i | 0 <= i < |ps| :: EqLeaves(ps)[i] in EqLeaves(ps);
    assert forall i | 0 <= i < |ps| :: ps[i] in ps;
  }

  lemma InRight(ps: seq<(string, seq<string>)>, d: Doc)
    ensures All(InLeaves(ps), d) <==> forall p | p in ps :: Get(d, p.0) in p.1
  {
    forall i | 0 <= i < |ps| ensures Eval(InLeaves(ps)[i], d) <==> Get(d, ps[i].0) in ps[i].1 {
    }
    assert forall i | 0 <= i < |ps| :: InLeaves(ps)[i] in InLeaves(ps);
    assert forall i | 0 <= i < |ps| :: ps[i] in ps;
  }

  lemma PrefixRight(ps: seq<(string, string)>, d: Doc)
    ensures All(PrefixLeaves(ps), d) <==> forall p | p in ps :: p.1 <= Get(d, p.0)
  {
    forall i | 0 <= i < |ps| ensures Eval(PrefixLeaves(ps)[i], d) <==> ps[i].1 <= Get(d, ps[i].0) {
    }
    assert forall i | 0 <= i < |ps| :: PrefixLeaves(ps)[i] in PrefixLeaves(ps);
    assert forall i | 0 <= i < |ps| :: ps[i] in ps;
  }

  // ------------------------------------------------------------------ time ranges

  /** A resolved range is the conjunction of its bounds, for any instant below the saturated end. */
  lemma RangeRight(r: Range, d: Doc)
    requires TimeRangeOf(r).Ok? && Reachable(d)
    ensures Inside(d, TimeRangeOf(r).value) <==> InRange(r, d.time)
  {
  }

  lemma {:induction false} RangesRight(rs: seq<Range>, w: Window, lift: bool, d: Doc)
    requires TrRanges(rs, w, lift).Ok? && Reachable(d)
    ensures
      var (es, w') := TrRanges(rs, w, lift).value;
      && (All(es, d) && Inside(d, w') <==> Inside(d, w) && forall r | r in rs :: InRange(r, d.time))
      && (!lift ==> w' == w && (All(es, d) <==> forall r | r in rs :: InRange(r, d.time)))
      && w'.to <= w.to
  {
    if rs != [] {
      var n := |rs| - 1;
      assert rs == rs[..n] + [rs[n]];
      RangesRight(rs[..n], w, lift, d);
      RangeRight(rs[n], d);
      assert forall r | r in rs[..n] :: r in rs;
      assert rs[n] in rs;
      var span := TimeRangeOf(rs[n]).value;
      var leaf := Leaf(TimeRange(span.from, span.to));
      assert Eval(leaf, d) <==> InRange(rs[n], d.time);
      AllConcat(TrRanges(rs[..n], w, lift).value.0, [leaf], d);
      assert All([leaf], d) <==> Eval(leaf, d) by { assert leaf in [leaf]; }
    }
  }

  // ------------------------------------------------------------------ sub-clauses

  lemma {:induction false} AddAllRight(kids: seq<Expr>, es: seq<Option<Expr>>, d: Doc)
    ensures All(AddAll(kids, es), d) <==> All(kids, d) && forall e | e in es :: EvalOpt(e, d)
  {
    if es != [] {
      var n := |es| - 1;
      assert es == es[..n] + [es[n]];
      AddAllRight(kids, es[..n], d);
      assert es[n] in es && forall e | e in es[..n] :: e in es;
      if es[n].Some? {
        AllConcat(AddAll(kids, es[..n]), [es[n].value], d);
        assert es[n].value in [es[n].value];
      }
    }
  }

  lemma ArmRight(e: Option<Expr>, d: Doc)
    ensures Eval(MatchAllOr(e), d) <==> EvalOpt(e, d)
  {
  }

  lemma NegatedRight(es: seq<Option<Expr>>, d: Doc)
    ensures All(Negated(es), d) <==> forall e | e in es :: !EvalOpt(e, d)
  {
    forall i | 0 <= i < |es| ensures Eval(Negated(es)[i], d) <==> !EvalOpt(es[i], d) {
      ArmRight(es[i], d);
    }
    assert forall i | 0 <= i < |es| :: Negated(es)[i] in Negated(es);
    assert forall i | 0 <= i < |es| :: es[i] in es;
  }

  lemma ShouldRight(msm: int, es: seq<Option<Expr>>, d: Doc)
    requires msm == 0 || msm == 1
    ensures All(ShouldKids(msm, Arms(es)), d) <==> es == [] || msm == 0 || exists e | e in es :: EvalOpt(e, d)
  {
    var or := Arms(es);
    forall i | 0 <= i < |es| ensures Eval(or[i], d) <==> EvalOpt(es[i], d) { ArmRight(es[i], d); }
    assert forall i | 0 <= i < |es| :: or[i] in or;
    assert forall i | 0 <= i < |es| :: es[i] in es;
    if |or| > 0 && msm == 1 {
      var kids := ShouldKids(msm, or);
      assert kids[0] in kids;
      assert All(kids, d) <==> Eval(kids[0], d);
      if |or| == 1 { assert forall e | e in es :: e == es[0]; }
    }
  }

  /** What the pointwise translation of a list says about the list's members. */
  ghost predicate Pointwise(cs: seq<Clause>, es: seq<Option<Expr>>, d: Doc)
    requires |cs| == |es|
  {
    forall i | 0 <= i < |cs| :: Means(cs[i], d) <==> EvalOpt(es[i], d)
  }

  lemma {:induction false} MatchingCounts(cs: seq<Clause>, es: seq<Option<Expr>>, d: Doc)
    requires |cs| == |es| && Pointwise(cs, es, d)
    ensures Matching(cs, d) >= 1 <==> exists e | e in es :: EvalOpt(e, d)
  {
    if cs != [] {
      var n := |cs| - 1;
      MatchingCounts(cs[..n], es[..n], d);
      assert es == es[..n] + [es[n]];
      assert es[n] in es && forall e | e in es[..n] :: e in es;
    }
  }

  ghost predicate AllMean(cs: seq<Clause>, d: Doc) {
    forall c | c in cs :: Means(c, d)
  }

  ghost predicate AllHold(es: seq<Option<Expr>>, d: Doc) {
    forall e | e in es :: EvalOpt(e, d)
  }

  lemma AllMeanSnoc(cs: seq<Clause>, c: Clause, d: Doc)
    ensures AllMean(cs + [c], d) <==> AllMean(cs, d) && Means(c, d)
  {
    assert c in cs + [c] && forall x | x in cs :: x in cs + [c];
  }

  lemma AllHoldSnoc(es: seq<Option<Expr>>, e: Option<Expr>, d: Doc)
    ensures AllHold(es + [e], d) <==> AllHold(es, d) && EvalOpt(e, d)
  {
    assert e in es + [e] && forall x | x in es :: x in es + [e];
  }

  lemma PointwiseSnoc(cs: seq<Clause>, es: seq<Option<Expr>>, c: Clause, e: Option<Expr>, d: Doc)
    requires |cs| == |es| && Pointwise(cs, es, d) && (Means(c, d) <==> EvalOpt(e, d))
    ensures Pointwise(cs + [c], es + [e], d)
  {
  }

  /** The conclusion for a list of sub-clauses. */
  ghost predicate ListOk(cs: seq<Clause>, w: Window, lift: bool, d: Doc) {
    var r := TrList(cs, w, lift);
    r.Ok? ==>
      && (Inside(d, r.value.1) && AllHold(r.value.0, d) <==> Inside(d, w) && AllMean(cs, d))
      && (!lift ==> r.value.1 == w && Pointwise(cs, r.value.0, d))
      && r.value.1.to <= w.to
  }

  /** The conclusion for one clause. */
  ghost predicate ClauseOk(c: Clause, w: Window, lift: bool, d: Doc) {
    var r := Translate(c, w, lift);
    r.Ok? ==>
      && (Inside(d, r.value.1) && EvalOpt(r.value.0, d) <==> Inside(d, w) && Means(c, d))
      && (!lift ==> r.value.1 == w && (EvalOpt(r.value.0, d) <==> Means(c, d)))
      && r.value.1.to <= w.to
  }

  lemma ListStep(cs: seq<Clause>, c: Clause, w: Window, lift: bool, d: Doc)
    requires ListOk(cs, w, lift, d) && TrList(cs, w, lift).Ok?
    requires Translate(c, TrList(cs, w, lift).value.1, lift).Ok?
    requires ClauseOk(c, TrList(cs, w, lift).value.1, lift, d)
    ensures ListOk(cs + [c], w, lift, d)
  {
    var (es, w0) := TrList(cs, w, lift).value;
    var (e, w1) := Translate(c, w0, lift).value;
    assert TrList(cs + [c], w, lift) == Ok((es + [e], w1)) by { assert (cs + [c])[..|cs|] == cs; }
    AllMeanSnoc(cs, c, d);
    AllHoldSnoc(es, e, d);
    if !lift { PointwiseSnoc(cs, es, c, e, d); }
  }

  lemma {:induction false} ListRight(cs: seq<Clause>, w: Window, lift: bool, d: Doc)
    requires Reachable(d)
    ensures ListOk(cs, w, lift, d)
    decreases cs
  {
    if cs != [] && TrList(cs, w, lift).Ok? {
      var n := |cs| - 1;
      ListRight(cs[..n], w, lift, d);
      ClauseRight(cs[n], TrList(cs[..n], w, lift).value.1, lift, d);
      assert cs == cs[..n] + [cs[n]];
      ListStep(cs[..n], cs[n], w, lift, d);
    }
  }

  ghost predicate BoolOk(b: Bool, w: Window, lift: bool, d: Doc) {
    var r := TrBool(b, w, lift);
    r.Ok? ==>
      && (Inside(d, r.value.1) && All(r.value.0, d) <==> Inside(d, w) && MeansBool(b, d))
      && (!lift ==> r.value.1 == w && (All(r.value.0, d) <==> MeansBool(b, d)))
      && r.value.1.to <= w.to
  }

  lemma ShouldMeans(b: Bool, es: seq<Option<Expr>>, d: Doc)
    requires MinShouldMatch(b).Ok? && |es| == |b.should| && Pointwise(b.should, es, d)
    ensures All(ShouldKids(MinShouldMatch(b).value, Arms(es)), d)
            <==> b.should == [] || Matching(b.should, d) >= Needed(b)
  {
    MatchingCounts(b.should, es, d);
    if b.should != [] {
      ShouldRight(MinShouldMatch(b).value, es, d);
    } else {
      assert es == [];
    }
  }

  lemma NegatedMeans(cs: seq<Clause>, es: seq<Option<Expr>>, d: Doc)
    requires |es| == |cs| && Pointwise(cs, es, d)
    ensures All(Negated(es), d) <==> forall c | c in cs :: !Means(c, d)
  {
    NegatedRight(es, d);
    assert forall i | 0 <= i < |cs| :: cs[i] in cs && es[i] in es;
  }

  lemma {:induction false} BoolRight(b: Bool, w: Window, lift: bool, d: Doc)
    requires Reachable(d)
    ensures BoolOk(b, w, lift, d)
    decreases b
  {
    if TrBool(b, w, lift).Ok? {
      var (m, w1) := TrList(b.must, w, lift).value;
      ListRight(b.must, w, lift, d);
      var (f, w2) := TrList(b.filter, w1, lift).value;
      ListRight(b.filter, w1, lift, d);
      var (n, w3) := TrList(b.mustNot, w2, false).value;
      ListRight(b.mustNot, w2, false, d);
      var (s, w4) := TrList(b.should, w3, false).value;
      ListRight(b.should, w3, false, d);
      BoolCombine(b, w, lift, d, m, f, n, s);
    }
  }

  lemma PointwiseAll(cs: seq<Clause>, es: seq<Option<Expr>>, d: Doc)
    requires |cs| == |es| && Pointwise(cs, es, d)
    ensures AllHold(es, d) <==> AllMean(cs, d)
  {
    assert forall i | 0 <= i < |cs| :: cs[i] in cs && es[i] in es;
  }

  lemma BoolCombine(b: Bool, w: Window, lift: bool, d: Doc, m: seq<Option<Expr>>, f: seq<Option<Expr>>,
                    n: seq<Option<Expr>>, s: seq<Option<Expr>>)
    requires TrBool(b, w, lift).Ok?
    requires ListOk(b.must, w, lift, d) && m == TrList(b.must, w, lift).value.0
    requires var w1 := TrList(b.must, w, lift).value.1;
             && ListOk(b.filter, w1, lift, d) && f == TrList(b.filter, w1, lift).value.0
             && var w2 := TrList(b.filter, w1, lift).value.1;
                && ListOk(b.mustNot, w2, false, d) && n == TrList(b.mustNot, w2, false).value.0
                && ListOk(b.should, w2, false, d) && TrList(b.mustNot, w2, false).value.1 == w2
                && s == TrList(b.should, w2, false).value.0
    ensures BoolOk(b, w, lift, d)
  {
    var pos := AddAll(AddAll([], m), f);
    AddAllRight([], m, d);
    AddAllRight(AddAll([], m), f, d);
    NegatedMeans(b.mustNot, n, d);
    ShouldMeans(b, s, d);
    var sh := ShouldKids(MinShouldMatch(b).value, Arms(s));
    AllConcat(pos, Negated(n), d);
    AllConcat(pos + Negated(n), sh, d);
    assert All([], d);
    if !lift {
      PointwiseAll(b.must, m, d);
      PointwiseAll(b.filter, f, d);
    }
  }

  /** The translation preserves meaning: through any nesting of must, filter, must_not and should,
      a document satisfies the clause and lies in the window before exactly when it satisfies the
      tree and lies in the window after. Where nothing may be lifted the window is untouched and
      the tree alone carries the meaning. */
  lemma {:induction false} ClauseRight(c: Clause, w: Window, lift: bool, d: Doc)
    requires Reachable(d)
    ensures ClauseOk(c, w, lift, d)
    decreases c
  {
    if Translate(c, w, lift).Ok? {
      var b := if c.bool_.Some? then TrBool(c.bool_.value, w, lift) else Ok(([], w));
      if c.bool_.Some? { BoolRight(c.bool_.value, w, lift, d); }
      var (bk, w1) := b.value;
      var x := ExistsKids(c.exists_).value;
      RangesRight(c.range, w1, lift, d);
      var (rk, w2) := TrRanges(c.range, w1, lift).value;
      LeavesRight(c, d);
      assert All(x, d) <==> (c.exists_.Some? ==> Get(d, c.exists_.value) != "") by {
        if c.exists_.Some? {
          assert x[0] in x;
          assert Eval(x[0], d) <==> !Eval(Leaf(Eq(c.exists_.value, "")), d);
        }
      }
      AllConcat(bk, FieldLeaves(c), d);
      AllConcat(bk + FieldLeaves(c), x, d);
      AllConcat(bk + FieldLeaves(c) + x, rk, d);
      CollapseRight(bk + FieldLeaves(c) + x + rk, d);
    }
  }

  /** A body that translates answers exactly the documents it describes. */
  lemma QueryRight(c: Clause, d: Doc)
    requires ToQuery(c).Ok? && Reachable(d)
    ensures Means(c, d) <==> EvalOpt(ToQuery(c).value.0, d) && Inside(d, ToQuery(c).value.1)
  {
    ClauseRight(c, Window(MIN64, NO_END), true, d);
  }

  /** Exactly the documents before the no-end sentinel are served faithfully: for a document at or
      past 2^62 even match_all is answered wrongly, and for every earlier one every body is right. */
  lemma FaithfulExactlyBelowNoEnd(d: Doc)
    ensures (forall c: Clause | ToQuery(c).Ok? ::
               Means(c, d) <==> EvalOpt(ToQuery(c).value.0, d) && Inside(d, ToQuery(c).value.1))
            <==> Reachable(d)
  {
    if Reachable(d) {
      forall c: Clause | ToQuery(c).Ok?
        ensures Means(c, d) <==> EvalOpt(ToQuery(c).value.0, d) && Inside(d, ToQuery(c).value.1)
      {
        QueryRight(c, d);
      }
    } else {
      assert ToQuery(MATCH_ALL).Ok? && ToQuery(MATCH_ALL).value.1 == Window(MIN64, NO_END);
      assert Means(MATCH_ALL, d);
    }
  }

  // ------------------------------------------------------------------ what is refused

  predicate SupportedRange(r: Range) {
    && (r.field == "@timestamp" || r.field == "_time") && r.usable
    && r.gte != Unreadable && r.gt != Unreadable && r.lt != Unreadable && r.lte != Unreadable
    && (r.gte.At? || r.gt.At? || r.lt.At? || r.lte.At?)
  }

  predicate SupportedBool(b: Bool)
    decreases b
  {
    && (b.should == [] || Needed(b) == 0 || Needed(b) == 1)
    && (b.should == [] || b.minimumShouldMatch == None || b.minimumShouldMatch.value >= 0)
    && (forall c | c in b.must :: Supported(c)) && (forall c | c in b.filter :: Supported(c))
    && (forall c | c in b.mustNot :: Supported(c)) && (forall c | c in b.should :: Supported(c))
  }

  /** Everything the clause carries, at any depth, can be honoured, optional should arms included. */
  predicate Supported(c: Clause)
    decreases c
  {
    && (c.bool_.Some? ==> SupportedBool(c.bool_.value))
    && c.exists_ != Some("")
    && (forall r | r in c.range :: SupportedRange(r))
  }

  lemma OneSupported(r: Range)
    ensures IsTime(r.field) && TimeRangeOf(r).Ok? <==> SupportedRange(r)
  {
  }

  lemma RangesSnoc(rs: seq<Range>, r: Range, w: Window, lift: bool)
    ensures TrRanges(rs + [r], w, lift).Ok? <==> TrRanges(rs, w, lift).Ok? && IsTime(r.field) && TimeRangeOf(r).Ok?
    ensures (forall x | x in rs + [r] :: SupportedRange(x)) <==> (forall x | x in rs :: SupportedRange(x)) && SupportedRange(r)
  {
    assert (rs + [r])[..|rs|] == rs;
    assert r in rs + [r] && forall x | x in rs :: x in rs + [r];
  }

  lemma {:induction false} RangesSupported(rs: seq<Range>, w: Window, lift: bool)
    ensures TrRanges(rs, w, lift).Ok? <==> forall r | r in rs :: SupportedRange(r)
  {
    if |rs| > 0 {
      var n := |rs| - 1;
      RangesSupported(rs[..n], w, lift);
      OneSupported(rs[n]);
      RangesSnoc(rs[..n], rs[n], w, lift);
      assert rs == rs[..n] + [rs[n]];
    }
  }

  ghost predicate AllSupported(cs: seq<Clause>) {
    forall c | c in cs :: Supported(c)
  }

  lemma AllSupportedSnoc(cs: seq<Clause>, c: Clause)
    ensures AllSupported(cs + [c]) <==> AllSupported(cs) && Supported(c)
  {
    assert c in cs + [c] && forall x | x in cs :: x in cs + [c];
  }

  lemma ListOkSnoc(cs: seq<Clause>, c: Clause, w: Window, lift: bool)
    ensures TrList(cs + [c], w, lift).Ok? <==>
            (TrList(cs, w, lift).Ok? && Translate(c, TrList(cs, w, lift).value.1, lift).Ok?)
  {
    assert (cs + [c])[..|cs|] == cs;
  }

  lemma {:induction false} ListSupported(cs: seq<Clause>, w: Window, lift: bool)
    ensures TrList(cs, w, lift).Ok? <==> AllSupported(cs)
    decreases cs
  {
    if cs != [] {
      var n := |cs| - 1;
      ListSupported(cs[..n], w, lift);
      if TrList(cs[..n], w, lift).Ok? {
        RefusedExactly(cs[n], TrList(cs[..n], w, lift).value.1, lift);
      }
      AllSupportedSnoc(cs[..n], cs[n]);
      ListOkSnoc(cs[..n], cs[n], w, lift);
      assert cs == cs[..n] + [cs[n]];
    }
  }

  lemma {:induction false} BoolSupported(b: Bool, w: Window, lift: bool)
    ensures TrBool(b, w, lift).Ok? <==> SupportedBool(b)
    decreases b
  {
    ListSupported(b.must, w, lift);
    if TrList(b.must, w, lift).Ok? {
      var w1 := TrList(b.must, w, lift).value.1;
      ListSupported(b.filter, w1, lift);
      if TrList(b.filter, w1, lift).Ok? {
        var w2 := TrList(b.filter, w1, lift).value.1;
        ListSupported(b.mustNot, w2, false);
        if TrList(b.mustNot, w2, false).Ok? {
          ListSupported(b.should, TrList(b.mustNot, w2, false).value.1, false);
        }
      }
    }
  }

  /** A body is refused exactly when something in it, at any depth, cannot be honoured; whether a
      range would have been lifted makes no difference. */
  lemma {:induction false} RefusedExactly(c: Clause, w: Window, lift: bool)
    ensures Translate(c, w, lift).Ok? <==> Supported(c)
    decreases c
  {
    if c.bool_.Some? { BoolSupported(c.bool_.value, w, lift); }
    var b := if c.bool_.Some? then TrBool(c.bool_.value, w, lift) else Ok(([], w));
    if b.Ok? { RangesSupported(c.range, b.value.1, lift); }
  }
}
