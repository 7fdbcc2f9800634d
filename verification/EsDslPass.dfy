/** The translation as it runs: one query object whose window is narrowed in place while a growing
list of children is collected, clause by clause. */
module EsDslPass {
  import opened Basics
  import opened EsDsl
  import opened EsDslProof

  class Query {
    var from: int
    var to: int

    constructor ()
      ensures Span() == Window(MIN64, NO_END)
    {
      from, to := MIN64, NO_END;
    }

    function Span(): Window
      reads this
    {
      Window(from, to)
    }

    /** A document is inside the narrowed window exactly when it was inside and is inside the span. */
    method Narrow(span: Window)
      modifies this
      ensures forall d: Doc :: Inside(d, Span()) <==> old(Inside(d, Span())) && Inside(d, span)
      ensures Span() == EsDsl.Narrow(old(Span()), span)
    {
      if span.from > from { from := span.from; }
      if span.to < to { to := span.to; }
    }
  }

  method RangesToExprs(rs: seq<Range>, q: Query, lift: bool) returns (r: Result<seq<Expr>>)
    modifies q
    ensures r.Ok? <==> TrRanges(rs, old(q.Span()), lift).Ok?
    ensures r.Ok? ==> TrRanges(rs, old(q.Span()), lift).value == (r.value, q.Span())
  {
    var kids: seq<Expr> := [];
    var i := 0;
    while i < |rs|
      invariant 0 <= i <= |rs|
      invariant TrRanges(rs[..i], old(q.Span()), lift) == Ok((kids, q.Span()))
    {
      assert rs[..i + 1][..i] == rs[..i];
      if !IsTime(rs[i].field) || TimeRangeOf(rs[i]).Refused? {
        RangesPrefix(rs, i + 1, old(q.Span()), lift);
        return Refused;
      }
      var span := TimeRangeOf(rs[i]).value;
      if lift {
        q.Narrow(span);
      } else {
        kids := kids + [Leaf(TimeRange(span.from, span.to))];
      }
      i := i + 1;
    }
    assert rs[..i] == rs;
    return Ok(kids);
  }

  lemma {:induction false} RangesPrefix(rs: seq<Range>, n: nat, w: Window, lift: bool)
    requires n <= |rs| && TrRanges(rs[..n], w, lift).Refused?
    ensures TrRanges(rs, w, lift).Refused?
    decreases |rs| - n
  {
    if n == |rs| {
      assert rs[..n] == rs;
    } else {
      assert rs[..n + 1][..n] == rs[..n];
      RangesPrefix(rs, n + 1, w, lift);
    }
  }

  lemma {:induction false} ListPrefix(cs: seq<Clause>, n: nat, w: Window, lift: bool)
    requires n <= |cs| && TrList(cs[..n], w, lift).Refused?
    ensures TrList(cs, w, lift).Refused?
    decreases |cs| - n
  {
    if n == |cs| {
      assert cs[..n] == cs;
    } else {
      ListOkSnoc(cs[..n], cs[n], w, lift);
      assert cs[..n] + [cs[n]] == cs[..n + 1];
      ListPrefix(cs, n + 1, w, lift);
    }
  }

  /** Sub-clauses in order, each narrowing the same query. */
  method ListToExprs(cs: seq<Clause>, q: Query, lift: bool) returns (r: Result<seq<Option<Expr>>>)
    modifies q
    ensures r.Ok? <==> TrList(cs, old(q.Span()), lift).Ok?
    ensures r.Ok? ==> TrList(cs, old(q.Span()), lift).value == (r.value, q.Span())
    decreases cs
  {
    ghost var w := q.Span();
    var es: seq<Option<Expr>> := [];
    var i := 0;
    while i < |cs|
      invariant 0 <= i <= |cs|
      invariant TrList(cs[..i], w, lift) == Ok((es, q.Span()))
    {
      ghost var w0 := q.Span();
      var e := ClauseToExpr(cs[i], q, lift);
      assert cs[..i + 1][..i] == cs[..i];
      if e.Refused? {
        ListPrefix(cs, i + 1, w, lift);
        return Refused;
      }
      es := es + [e.value];
      i := i + 1;
    }
    assert cs[..i] == cs;
    return Ok(es);
  }

  /** The children a bool contributes: required arms, negated arms, then the union of should. */
  method BoolToExprs(b: Bool, q: Query, lift: bool) returns (r: Result<seq<Expr>>)
    modifies q
    ensures r.Ok? <==> TrBool(b, old(q.Span()), lift).Ok?
    ensures r.Ok? ==> TrBool(b, old(q.Span()), lift).value == (r.value, q.Span())
    decreases b
  {
    var msm := MinShouldMatch(b);
    if msm.Refused? { return Refused; }
    var must := ListToExprs(b.must, q, lift);
    if must.Refused? { return Refused; }
    var filter := ListToExprs(b.filter, q, lift);
    if filter.Refused? { return Refused; }
    var nots := ListToExprs(b.mustNot, q, false);
    if nots.Refused? { return Refused; }
    var should := ListToExprs(b.should, q, false);
    if should.Refused? { return Refused; }
    var kids := AddAll(AddAll([], must.value), filter.value) + Negated(nots.value);
    return Ok(kids + ShouldKids(msm.value, Arms(should.value)));
  }

  method ClauseToExpr(c: Clause, q: Query, lift: bool) returns (r: Result<Option<Expr>>)
    modifies q
    ensures r.Ok? <==> Translate(c, old(q.Span()), lift).Ok?
    ensures r.Ok? ==> Translate(c, old(q.Span()), lift).value == (r.value, q.Span())
    decreases c
  {
    var kids: seq<Expr> := [];
    if c.bool_.Some? {
      var b := BoolToExprs(c.bool_.value, q, lift);
      if b.Refused? { return Refused; }
      kids := b.value;
    }
    kids := kids + FieldLeaves(c);
    var x := ExistsKids(c.exists_);
    if x.Refused? { return Refused; }
    kids := kids + x.value;
    var ranges := RangesToExprs(c.range, q, lift);
    if ranges.Refused? { return Refused; }
    return Ok(Collapse(kids + ranges.value));
  }

  /** The whole body: an accepted one yields a filter and a window that together accept exactly the
      documents it describes, and it is accepted exactly when all of it can be honoured. */
  method EsToQuery(c: Clause) returns (r: Result<(Option<Expr>, Window)>)
    ensures r.Ok? <==> Supported(c)
    ensures r.Ok? ==> forall d: Doc | d.time < NO_END :: Means(c, d) <==> EvalOpt(r.value.0, d) && Inside(d, r.value.1)
  {
    var q := new Query();
    var e := ClauseToExpr(c, q, true);
    RefusedExactly(c, Window(MIN64, NO_END), true);
    if e.Refused? { return Refused; }
    r := Ok((e.value, q.Span()));
    forall d: Doc | d.time < NO_END
      ensures Means(c, d) <==> EvalOpt(r.value.0, d) && Inside(d, r.value.1)
    {
      QueryRight(c, d);
    }
  }
}
