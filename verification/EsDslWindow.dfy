/** What the scan window of a translated body is: every time range in positive conjunctive position, at any
depth, bounds the scan, and no other does. */
module EsDslWindow {
  import opened Basics
  import opened EsDsl
  import opened EsDslProof

  /** The clause's own ranges and those of its must and filter clauses, at any depth, hold at an instant. */
  predicate Bounds(c: Clause, t: int)
    decreases c
  {
    && (c.bool_.Some? ==> BoundsAll(c.bool_.value.must, t) && BoundsAll(c.bool_.value.filter, t))
    && forall r | r in c.range :: InRange(r, t)
  }

  predicate BoundsAll(cs: seq<Clause>, t: int)
    decreases cs
  {
    forall c | c in cs :: Bounds(c, t)
  }

  lemma {:induction false} RangesWindow(rs: seq<Range>, w: Window, d: Doc)
    requires TrRanges(rs, w, true).Ok? && Reachable(d)
    ensures TrRanges(rs, w, true).value.0 == []
    ensures Inside(d, TrRanges(rs, w, true).value.1) <==> Inside(d, w) && forall r | r in rs :: InRange(r, d.time)
  {
    if rs != [] {
      var n := |rs| - 1;
      RangesWindow(rs[..n], w, d);
      RangeRight(rs[n], d);
      assert rs == rs[..n] + [rs[n]];
      assert rs[n] in rs && forall r | r in rs[..n] :: r in rs;
    }
  }

  ghost predicate ListBounds(cs: seq<Clause>, w: Window, d: Doc) {
    TrList(cs, w, true).Ok? ==> (Inside(d, TrList(cs, w, true).value.1) <==> Inside(d, w) && BoundsAll(cs, d.time))
  }

  lemma BoundsSnoc(cs: seq<Clause>, c: Clause, t: int)
    ensures BoundsAll(cs + [c], t) <==> BoundsAll(cs, t) && Bounds(c, t)
  {
    assert c in cs + [c] && forall x | x in cs :: x in cs + [c];
  }

  lemma {:induction false} ListWindow(cs: seq<Clause>, w: Window, d: Doc)
    requires Reachable(d)
    ensures ListBounds(cs, w, d)
    decreases cs
  {
    if cs != [] && TrList(cs, w, true).Ok? {
      var n := |cs| - 1;
      ListWindow(cs[..n], w, d);
      WindowExactly(cs[n], TrList(cs[..n], w, true).value.1, d);
      BoundsSnoc(cs[..n], cs[n], d.time);
      assert cs == cs[..n] + [cs[n]];
    }
  }

  /** Nothing below must_not or should touches the window. */
  lemma Untouched(cs: seq<Clause>, w: Window, d: Doc)
    requires Reachable(d) && TrList(cs, w, false).Ok?
    ensures TrList(cs, w, false).value.1 == w
  {
    ListRight(cs, w, false, d);
  }

  lemma {:induction false} BoolWindow(b: Bool, w: Window, d: Doc)
    requires Reachable(d) && TrBool(b, w, true).Ok?
    ensures Inside(d, TrBool(b, w, true).value.1) <==> Inside(d, w) && BoundsAll(b.must, d.time) && BoundsAll(b.filter, d.time)
    decreases b
  {
    var w1 := TrList(b.must, w, true).value.1;
    ListWindow(b.must, w, d);
    var w2 := TrList(b.filter, w1, true).value.1;
    ListWindow(b.filter, w1, d);
    Untouched(b.mustNot, w2, d);
    Untouched(b.should, w2, d);
  }

  /** The window after a clause is the window before it, cut by exactly its bounding ranges. */
  lemma {:induction false} WindowExactly(c: Clause, w: Window, d: Doc)
    requires Reachable(d) && Translate(c, w, true).Ok?
    ensures Inside(d, Translate(c, w, true).value.1) <==> Inside(d, w) && Bounds(c, d.time)
    decreases c
  {
    if c.bool_.Some? { BoolWindow(c.bool_.value, w, d); }
    var w1 := if c.bool_.Some? then TrBool(c.bool_.value, w, true).value.1 else w;
    RangesWindow(c.range, w1, d);
  }

  /** The scan a body asks for covers exactly the instants before 2^62 that all its bounding ranges allow. */
  lemma ScanExactly(c: Clause, d: Doc)
    requires ToQuery(c).Ok? && Reachable(d)
    ensures Inside(d, ToQuery(c).value.1) <==> Bounds(c, d.time)
  {
    WindowExactly(c, Window(MIN64, NO_END), d);
  }
}
