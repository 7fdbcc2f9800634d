/** Elasticsearch query bodies and the boolean trees they become.

A body is translated to a filter tree plus a scan window. Time ranges in positive conjunctive
position are lifted onto the window; everywhere else they stay predicates. A clause that cannot
be honoured refuses the whole body. JSON maps (`term`, `range`, ...) are sequences of pairs in
the order the decoder happened to yield them. */
module EsDsl {
  import opened Basics

  /** The end of a window nobody bounded: 2^62 nanoseconds, the year 2116. */
  const NO_END: int := 0x4000_0000_0000_0000

  datatype Result<+T> = Ok(value: T) | Refused

  type Instant = int64

  /** One side of a range after its text was read: absent, an instant, or unreadable. */
  datatype Bound = Absent | At(t: Instant) | Unreadable

  /** usable says the clause's time_zone and format can be honoured. */
  datatype Range = Range(field: string, usable: bool, gte: Bound, gt: Bound, lt: Bound, lte: Bound)

  datatype Clause = Clause(bool_: Option<Bool>, term: seq<(string, string)>, terms: seq<(string, seq<string>)>,
                           match_: seq<(string, string)>, prefix: seq<(string, string)>,
                           exists_: Option<string>, range: seq<Range>)

  datatype Bool = Bool(must: seq<Clause>, filter: seq<Clause>, mustNot: seq<Clause>, should: seq<Clause>,
                       minimumShouldMatch: Option<int>)

  const MATCH_ALL := Clause(None, [], [], [], [], None, [])

  datatype Pred = Eq(field: string, value: string) | In(field: string, values: seq<string>)
                | Prefix(field: string, value: string) | TimeRange(from: int, to: int)

  datatype Expr = Leaf(pred: Pred) | And(kids: seq<Expr>) | Or(kids: seq<Expr>) | Not(child: Expr)

  /** Half-open: a document at `to` is outside. */
  datatype Window = Window(from: int, to: int)

  datatype Doc = Doc(time: Instant, fields: map<string, string>)

  // ------------------------------------------------------------------ what a tree accepts

  /** A column a document does not carry reads as the empty value. */
  function Get(d: Doc, field: string): string {
    if field in d.fields then d.fields[field] else ""
  }

  predicate Holds(p: Pred, d: Doc) {
    match p
    case Eq(f, v) => Get(d, f) == v
    case In(f, vs) => Get(d, f) in vs
    case Prefix(f, v) => v <= Get(d, f)
    case TimeRange(from, to) => from <= d.time < to
  }

  predicate Eval(e: Expr, d: Doc) {
    match e
    case Leaf(p) => Holds(p, d)
    case And(kids) => forall k | k in kids :: Eval(k, d)
    case Or(kids) => exists k | k in kids :: Eval(k, d)
    case Not(child) => !Eval(child, d)
  }

  /** No tree is no filter. */
  predicate EvalOpt(e: Option<Expr>, d: Doc) {
    e.Some? ==> Eval(e.value, d)
  }

  predicate Inside(d: Doc, w: Window) {
    w.from <= d.time < w.to
  }

  // ------------------------------------------------------------------ what a body asks for

  predicate Above(b: Bound, t: int, strict: bool) {
    b.At? ==> if strict then t > b.t else t >= b.t
  }

  predicate Below(b: Bound, t: int, strict: bool) {
    b.At? ==> if strict then t < b.t else t <= b.t
  }

  predicate InRange(r: Range, t: int) {
    Above(r.gte, t, false) && Above(r.gt, t, true) && Below(r.lt, t, true) && Below(r.lte, t, false)
  }

  /** How many of the should arms a document must match. A bool without must and filter needs one
      whatever the body says, because matching none of its arms is not matching it. */
  function Needed(b: Bool): int {
    var required := b.must != [] || b.filter != [];
    var asked := match b.minimumShouldMatch case Some(n) => n case None => if required then 0 else 1;
    if !required && asked < 1 then 1 else asked
  }

  function Matching(cs: seq<Clause>, d: Doc): nat
    decreases cs
  {
    if cs == [] then 0
    else Matching(cs[..|cs| - 1], d) + (if Means(cs[|cs| - 1], d) then 1 else 0)
  }

  predicate MeansBool(b: Bool, d: Doc)
    decreases b
  {
    && (forall c | c in b.must :: Means(c, d))
    && (forall c | c in b.filter :: Means(c, d))
    && (forall c | c in b.mustNot :: !Means(c, d))
    && (b.should == [] || Matching(b.should, d) >= Needed(b))
  }

  /** The meaning of a clause: the conjunction of everything it carries. */
  predicate Means(c: Clause, d: Doc)
    decreases c
  {
    && (c.bool_.Some? ==> MeansBool(c.bool_.value, d))
    && (forall p | p in c.term :: Get(d, p.0) == p.1)
    && (forall p | p in c.terms :: Get(d, p.0) in p.1)
    && (forall p | p in c.match_ :: Get(d, p.0) == p.1)
    && (forall p | p in c.prefix :: p.1 <= Get(d, p.0))
    && (c.exists_.Some? ==> Get(d, c.exists_.value) != "")
    && (forall r | r in c.range :: InRange(r, d.time))
  }

  // ------------------------------------------------------------------ the translation

  function MinShouldMatch(b: Bool): Result<int> {
    var required := |b.must| > 0 || |b.filter| > 0;
    var msm :=
      if b.minimumShouldMatch.Some? then
        if b.minimumShouldMatch.value == 0 && !required && |b.should| > 0 then 1
        else b.minimumShouldMatch.value
      else if required then 0 else 1;
    if |b.should| > 0 && msm != 0 && msm != 1 then Refused else Ok(msm)
  }

  function Bump(t: int): int {
    if t != MAX64 then t + 1 else t
  }

  predicate IsTime(field: string) {
    field == "@timestamp" || field == "_time"
  }

  predicate Readable(r: Range) {
    r.usable && !r.gte.Unreadable? && !r.gt.Unreadable? && !r.lt.Unreadable? && !r.lte.Unreadable?
  }

  predicate NamesBound(r: Range) {
    r.gte.At? || r.gt.At? || r.lt.At? || r.lte.At?
  }

  function TimeRangeOf(r: Range): Result<Window> {
    if !Readable(r) || !NamesBound(r) then Refused
    else
      var f0 := if r.gte.At? && r.gte.t > MIN64 then r.gte.t else MIN64;
      var f1 := if r.gt.At? && Bump(r.gt.t) > f0 then Bump(r.gt.t) else f0;
      var t0 := if r.lt.At? && r.lt.t < MAX64 then r.lt.t else MAX64;
      var t1 := if r.lte.At? && Bump(r.lte.t) < t0 then Bump(r.lte.t) else t0;
      Ok(Window(f1, t1))
  }

  function Narrow(w: Window, span: Window): Window {
    Window(if span.from > w.from then span.from else w.from, if span.to < w.to then span.to else w.to)
  }

  /** Ranges of one clause: lifted onto the window, or leaves, or a refusal. */
  function TrRanges(rs: seq<Range>, w: Window, lift: bool): Result<(seq<Expr>, Window)> {
    if rs == [] then Ok(([], w))
    else
      var p := TrRanges(rs[..|rs| - 1], w, lift);
      var r := rs[|rs| - 1];
      if p.Refused? || !IsTime(r.field) || TimeRangeOf(r).Refused? then Refused
      else
        var span := TimeRangeOf(r).value;
        if lift then Ok((p.value.0, Narrow(p.value.1, span)))
        else Ok((p.value.0 + [Leaf(TimeRange(span.from, span.to))], p.value.1))
  }

  function MatchAllOr(e: Option<Expr>): Expr {
    if e.Some? then e.value else And([])
  }

  function Add(kids: seq<Expr>, e: Option<Expr>): seq<Expr> {
    if e.Some? then kids + [e.value] else kids
  }

  function Collapse(kids: seq<Expr>): Option<Expr> {
    if |kids| == 0 then None else if |kids| == 1 then Some(kids[0]) else Some(And(kids))
  }

  function EqLeaves(ps: seq<(string, string)>): seq<Expr> {
    seq(|ps|, i requires 0 <= i < |ps| => Leaf(Eq(ps[i].0, ps[i].1)))
  }

  function InLeaves(ps: seq<(string, seq<string>)>): seq<Expr> {
    seq(|ps|, i requires 0 <= i < |ps| => Leaf(In(ps[i].0, ps[i].1)))
  }

  function PrefixLeaves(ps: seq<(string, string)>): seq<Expr> {
    seq(|ps|, i requires 0 <= i < |ps| => Leaf(Prefix(ps[i].0, ps[i].1)))
  }

  /** Sub-clauses in order, threading the window. */
  function TrList(cs: seq<Clause>, w: Window, lift: bool): (r: Result<(seq<Option<Expr>>, Window)>)
    ensures r.Ok? ==> |r.value.0| == |cs|
    decreases cs
  {
    if cs == [] then Ok(([], w))
    else
      var p := TrList(cs[..|cs| - 1], w, lift);
      if p.Refused? then Refused
      else
        var q := Translate(cs[|cs| - 1], p.value.1, lift);
        if q.Refused? then Refused else Ok((p.value.0 + [q.value.0], q.value.1))
  }

  function AddAll(kids: seq<Expr>, es: seq<Option<Expr>>): seq<Expr> {
    if es == [] then kids else Add(AddAll(kids, es[..|es| - 1]), es[|es| - 1])
  }

  function Negated(es: seq<Option<Expr>>): seq<Expr> {
    seq(|es|, i requires 0 <= i < |es| => Not(MatchAllOr(es[i])))
  }

  function Arms(es: seq<Option<Expr>>): seq<Expr> {
    seq(|es|, i requires 0 <= i < |es| => MatchAllOr(es[i]))
  }

  function ShouldKids(msm: int, or: seq<Expr>): seq<Expr> {
    if |or| == 0 || msm != 1 then [] else if |or| == 1 then [or[0]] else [Or(or)]
  }

  function TrBool(b: Bool, w: Window, lift: bool): Result<(seq<Expr>, Window)>
    decreases b
  {
    if MinShouldMatch(b).Refused? then Refused
    else
      var must := TrList(b.must, w, lift);
      if must.Refused? then Refused
      else
        var filter := TrList(b.filter, must.value.1, lift);
        if filter.Refused? then Refused
        else
          var nots := TrList(b.mustNot, filter.value.1, false);
          if nots.Refused? then Refused
          else
            var should := TrList(b.should, nots.value.1, false);
            if should.Refused? then Refused
            else Ok((AddAll(AddAll([], must.value.0), filter.value.0) + Negated(nots.value.0)
                     + ShouldKids(MinShouldMatch(b).value, Arms(should.value.0)), should.value.1))
  }

  function ExistsKids(x: Option<string>): Result<seq<Expr>> {
    if x.None? then Ok([])
    else if x.value == "" then Refused
    else Ok([Not(Leaf(Eq(x.value, "")))])
  }

  function FieldLeaves(c: Clause): seq<Expr> {
    EqLeaves(c.term) + InLeaves(c.terms) + EqLeaves(c.match_) + PrefixLeaves(c.prefix)
  }

  function Translate(c: Clause, w: Window, lift: bool): Result<(Option<Expr>, Window)>
    decreases c
  {
    var b := if c.bool_.Some? then TrBool(c.bool_.value, w, lift) else Ok(([], w));
    if b.Refused? || ExistsKids(c.exists_).Refused? then Refused
    else
      var r := TrRanges(c.range, b.value.1, lift);
      if r.Refused? then Refused
      else Ok((Collapse(b.value.0 + FieldLeaves(c) + ExistsKids(c.exists_).value + r.value.0), r.value.1))
  }

  /** The whole body: nothing is bounded until a lifted range bounds it. */
  function ToQuery(c: Clause): Result<(Option<Expr>, Window)> {
    Translate(c, Window(MIN64, NO_END), true)
  }
}
