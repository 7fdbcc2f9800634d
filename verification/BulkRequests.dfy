/** What a client sends and what parsing makes of it: action lines, each with its source line where the
action takes one, in any number and order. */
module BulkRequests {
  import opened Basics
  import opened RowCodec
  import opened Bulk

  /** A delete has no source line. */
  datatype Request = Request(action: Bytes, source: Bytes)

  predicate Readable(f: Format, r: Request) {
    && NEWLINE !in r.action && !f.blank(r.action) && f.action(r.action).Some?
    && (f.action(r.action).value != Delete ==> NEWLINE !in r.source && !f.blank(r.source))
  }

  predicate TakesSource(f: Format, r: Request)
    requires f.action(r.action).Some?
  {
    f.action(r.action).value != Delete
  }

  ghost predicate AllReadable(f: Format, rs: seq<Request>) {
    forall i | 0 <= i < |rs| :: Readable(f, rs[i])
  }

  function LinesOf(f: Format, r: Request, rest: Bytes): Bytes
    requires f.action(r.action).Some?
  {
    r.action + ([NEWLINE] + if TakesSource(f, r) then r.source + ([NEWLINE] + rest) else rest)
  }

  function Written(f: Format, rs: seq<Request>): Bytes
    requires AllReadable(f, rs)
  {
    if rs == [] then [] else LinesOf(f, rs[0], Written(f, rs[1..]))
  }

  /** The verdict a request deserves by itself. */
  function Deserved(f: Format, r: Request): Verdict
    requires f.action(r.action).Some?
  {
    match f.action(r.action).value
    case Delete => DeleteUnsupported
    case Update => UpdateUnsupported
    case _ => if f.braced(r.source) then Created else NotObject
  }

  /** The item answers the request: its operation, the verdict, and its document if it was accepted. */
  ghost predicate Answers(f: Format, r: Request, op: Op, body: Bytes) {
    && f.action(r.action) == Some(op.kind) && op.verdict == Deserved(f, r)
    && (op.doc.Some? <==> op.verdict.Created?) && (op.doc.Some? ==> Carries(op, body, r.source))
  }

  lemma {:induction false} LineEndAt(body: Bytes, i: nat, n: nat)
    requires i + n < |body| && NEWLINE !in body[i..i + n] && body[i + n] == NEWLINE
    ensures LineEnd(body, i) == i + n
    decreases n
  {
    if n > 0 {
      assert body[i] == body[i..i + n][0] && body[i..i + n][1..] == body[i + 1..i + n];
      LineEndAt(body, i + 1, n - 1);
    }
  }

  /** A line from i to e, followed by its newline. */
  lemma LineAt(body: Bytes, i: nat, e: nat, line: Bytes, rest: Bytes)
    requires i <= |body| && e == i + |line| && body[i..] == line + ([NEWLINE] + rest) && NEWLINE !in line
    ensures LineEnd(body, i) == e < |body| && body[i..e] == line && Past(body, e) == e + 1 && body[e + 1..] == rest
  {
    var n := |line|;
    var tail := body[i..];
    assert |tail| == n + 1 + |rest|;
    assert body[i..e] == tail[..n] == line;
    assert body[e] == tail[n] == NEWLINE;
    assert body[e + 1..] == tail[n + 1..] == rest;
    LineEndAt(body, i, n);
  }

  lemma DeleteRead(f: Format, body: Bytes, i: nat, e: nat, r: Request, rest: Bytes)
    requires i <= |body| && f.blank([]) && Readable(f, r) && !TakesSource(f, r)
    requires body[i..] == r.action + ([NEWLINE] + rest) && e == i + |r.action|
    ensures i < |body| && e < |body| && body[e + 1..] == rest
    ensures StepAt(f, body, i) == Item(Op(Delete, None, DeleteUnsupported), e + 1)
  {
    LineAt(body, i, e, r.action, rest);
  }

  lemma SourceAt(f: Format, body: Bytes, s: Span, source: Bytes, rest: Bytes)
    requires s.lo <= |body| && s.hi == s.lo + |source| && NEWLINE !in source && !f.blank(source)
    requires body[s.lo..] == source + ([NEWLINE] + rest)
    ensures SourceLine(f, body, s.lo) == s && s.hi < |body| && body[s.lo..s.hi] == source && body[s.hi + 1..] == rest
  {
    LineAt(body, s.lo, s.hi, source, rest);
  }

  /** An action that takes a source, its source line being known. */
  lemma ActionStep(f: Format, body: Bytes, i: nat, e: nat, r: Request, s: Span)
    requires i < |body| && f.blank([]) && Readable(f, r) && TakesSource(f, r)
    requires LineEnd(body, i) == e < |body| && body[i..e] == r.action
    requires SourceLine(f, body, e + 1) == s && s.hi < |body|
    ensures StepAt(f, body, i) == Item(Judged(f, body, f.action(r.action).value, s), s.hi + 1)
  {
  }

  lemma SourceRead(f: Format, body: Bytes, i: nat, e: nat, r: Request, more: Bytes, rest: Bytes, s: Span)
    requires i <= |body| && f.blank([]) && Readable(f, r) && TakesSource(f, r)
    requires body[i..] == r.action + ([NEWLINE] + more) && more == r.source + ([NEWLINE] + rest)
    requires e == i + |r.action| && s.lo == e + 1 && s.hi == s.lo + |r.source|
    ensures i < |body| && s.hi < |body| && body[s.hi + 1..] == rest && body[s.lo..s.hi] == r.source
    ensures StepAt(f, body, i) == Item(Judged(f, body, f.action(r.action).value, s), s.hi + 1)
  {
    LineAt(body, i, e, r.action, more);
    SourceAt(f, body, s, r.source, rest);
    ActionStep(f, body, i, e, r, s);
  }

  /** A source that was judged answers its request. */
  lemma JudgedAnswers(f: Format, body: Bytes, r: Request, s: Span)
    requires Readable(f, r) && TakesSource(f, r) && s.lo <= s.hi <= |body| && body[s.lo..s.hi] == r.source
    ensures Answers(f, r, Judged(f, body, f.action(r.action).value, s), body)
  {
  }

  /** One request is one item, and parsing goes on right after it. */
  lemma RequestRead(f: Format, body: Bytes, i: nat, r: Request, rest: Bytes) returns (op: Op, next: nat)
    requires i <= |body| && f.blank([]) && Readable(f, r) && body[i..] == LinesOf(f, r, rest)
    ensures i < next <= |body| && body[next..] == rest && Answers(f, r, op, body)
    ensures StepAt(f, body, i) == Item(op, next)
  {
    var e := i + |r.action|;
    if TakesSource(f, r) {
      var s := Span(e + 1, e + 1 + |r.source|);
      SourceRead(f, body, i, e, r, r.source + ([NEWLINE] + rest), rest, s);
      JudgedAnswers(f, body, r, s);
      op, next := Judged(f, body, f.action(r.action).value, s), s.hi + 1;
    } else {
      DeleteRead(f, body, i, e, r, rest);
      op, next := Op(Delete, None, DeleteUnsupported), e + 1;
    }
  }

  /** One item per request, each at its request's position. */
  ghost predicate AllAnswered(f: Format, rs: seq<Request>, ops: seq<Op>, body: Bytes) {
    |ops| == |rs| && forall k | 0 <= k < |rs| :: Answers(f, rs[k], ops[k], body)
  }

  lemma AnsweredCons(f: Format, rs: seq<Request>, op: Op, ops: seq<Op>, body: Bytes)
    requires rs != [] && Answers(f, rs[0], op, body) && AllAnswered(f, rs[1..], ops, body)
    ensures AllAnswered(f, rs, [op] + ops, body)
  {
    forall k | 0 <= k < |rs| ensures Answers(f, rs[k], ([op] + ops)[k], body) {
      if k > 0 { assert rs[k] == rs[1..][k - 1] && ([op] + ops)[k] == ops[k - 1]; }
    }
  }

  /** From i on, parsing yields the requests' items. */
  ghost predicate Served(f: Format, body: Bytes, i: nat, n: nat, rs: seq<Request>)
    requires i <= |body| && f.blank([])
  {
    Parse(f, body, i, n).Some? && AllAnswered(f, rs, Parse(f, body, i, n).value, body)
  }

  lemma StepServed(f: Format, body: Bytes, i: nat, n: nat, rs: seq<Request>, op: Op, next: nat)
    requires i < next <= |body| && f.blank([]) && n < MAX_ACTIONS && StepAt(f, body, i) == Item(op, next)
    requires rs != [] && Answers(f, rs[0], op, body) && Served(f, body, next, n + 1, rs[1..])
    ensures Served(f, body, i, n, rs)
  {
    AnsweredCons(f, rs, op, Parse(f, body, next, n + 1).value, body);
  }

  lemma EndServed(f: Format, body: Bytes, i: nat, n: nat)
    requires i <= |body| && f.blank([]) && body[i..] == []
    ensures Served(f, body, i, n, [])
  {
    assert |body[i..]| == 0;
  }

  lemma WrittenStep(f: Format, rs: seq<Request>)
    requires rs != [] && AllReadable(f, rs)
    ensures AllReadable(f, rs[1..]) && Readable(f, rs[0])
    ensures Written(f, rs) == LinesOf(f, rs[0], Written(f, rs[1..]))
  {
  }

  lemma HeadRead(f: Format, body: Bytes, i: nat, rs: seq<Request>) returns (op: Op, next: nat)
    requires i <= |body| && f.blank([]) && AllReadable(f, rs) && |rs| > 0 && body[i..] == Written(f, rs)
    ensures i < next <= |body| && StepAt(f, body, i) == Item(op, next) && Answers(f, rs[0], op, body)
    ensures AllReadable(f, rs[1..]) && body[next..] == Written(f, rs[1..])
  {
    WrittenStep(f, rs);
    op, next := RequestRead(f, body, i, rs[0], Written(f, rs[1..]));
  }

  /** Every request gets exactly one item, at its own position, with the verdict it deserves by itself,
      whatever stands before and after it. */
  lemma {:induction false} RequestsServed(f: Format, body: Bytes, i: nat, n: nat, rs: seq<Request>)
    requires i <= |body| && f.blank([]) && AllReadable(f, rs) && body[i..] == Written(f, rs)
    requires n + |rs| <= MAX_ACTIONS
    ensures Served(f, body, i, n, rs)
    decreases |rs|
  {
    if |rs| == 0 {
      EndServed(f, body, i, n);
    } else {
      var op, next := HeadRead(f, body, i, rs);
      RequestsServed(f, body, next, n + 1, rs[1..]);
      StepServed(f, body, i, n, rs, op, next);
    }
  }

  /** The whole body. */
  lemma BodyAnswered(f: Format, rs: seq<Request>)
    requires f.blank([]) && AllReadable(f, rs) && |rs| <= MAX_ACTIONS
    ensures var body := Written(f, rs);
            Parse(f, body, 0, 0).Some? && AllAnswered(f, rs, Parse(f, body, 0, 0).value, body)
  {
    var body := Written(f, rs);
    assert body[0..] == body;
    RequestsServed(f, body, 0, 0, rs);
  }
}
