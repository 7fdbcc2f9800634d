/** Whole bodies as clients write them: the action lines of BulkAction in the bodies of BulkRequests. */
module BulkClients {
  import opened Basics
  import opened RowCodec
  import opened Bulk
  import opened BulkAction
  import R = BulkRequests

  /** A source line opens and closes as an object. */
  predicate LooksBraced(doc: Bytes) {
    var t := Trim(doc);
    |t| >= 2 && t[0] == LBRACE && t[|t| - 1] == RBRACE
  }

  /** An object's text: braces around anything, white space around them. */
  function Object(a: Bytes, inner: Bytes, b: Bytes): Bytes {
    a + ([LBRACE] + inner + [RBRACE]) + b
  }

  lemma BracedParts(doc: Bytes) returns (a: Bytes, inner: Bytes, b: Bytes)
    requires LooksBraced(doc)
    ensures AllSpace(a) && AllSpace(b) && doc == Object(a, inner, b)
  {
    a := LeftCut(doc);
    b := RightCut(TrimLeft(doc));
    var t := Trim(doc);
    inner := t[1..|t| - 1];
    assert t == [LBRACE] + inner + [RBRACE];
    assert a + (t + b) == a + t + b;
  }

  lemma ObjectLooks(a: Bytes, inner: Bytes, b: Bytes)
    requires AllSpace(a) && AllSpace(b)
    ensures LooksBraced(Object(a, inner, b))
  {
    Trimmed(a, [LBRACE] + inner + [RBRACE], b);
  }

  /** A source is taken for an object exactly when it opens and closes as one. */
  lemma BracedExactly(doc: Bytes)
    ensures LooksBraced(doc) <==> exists a, inner, b :: AllSpace(a) && AllSpace(b) && doc == Object(a, inner, b)
  {
    if LooksBraced(doc) {
      var a, inner, b := BracedParts(doc);
      assert doc == Object(a, inner, b);
    }
    if a, inner, b :| AllSpace(a) && AllSpace(b) && doc == Object(a, inner, b) { ObjectLooks(a, inner, b); }
  }

  /** How the endpoint reads its lines. */
  const ES := Format(line => Trim(line) == [], line => ParseAction(line), doc => LooksBraced(doc))

  /** One operation: how its action line is laid out, its metadata, and the source line if it has one. */
  datatype Client = Client(layout: Layout, kind: Kind, meta: seq<Piece>, source: Bytes)

  function ActionText(c: Client): Bytes {
    BulkAction.Written(c.layout, Name(c.kind), Braced(c.meta))
  }

  predicate Sendable(c: Client) {
    && Blanks(c.layout) && AllProper(c.meta) && NEWLINE !in ActionText(c)
    && (c.kind != Delete ==> NEWLINE !in c.source && Trim(c.source) != [])
  }

  ghost predicate AllSendable(cs: seq<Client>) {
    forall k | 0 <= k < |cs| :: Sendable(cs[k])
  }

  function RequestOf(c: Client): R.Request {
    R.Request(ActionText(c), c.source)
  }

  function Requests(cs: seq<Client>): (r: seq<R.Request>)
    ensures |r| == |cs|
  {
    seq(|cs|, k requires 0 <= k < |cs| => RequestOf(cs[k]))
  }

  lemma SendableReads(c: Client)
    requires Sendable(c)
    ensures ES.action(ActionText(c)) == Some(c.kind) && R.Readable(ES, RequestOf(c))
  {
    ActionRoundTrip(c.layout, c.kind, c.meta);
  }

  lemma RequestsReadable(cs: seq<Client>)
    requires AllSendable(cs)
    ensures R.AllReadable(ES, Requests(cs))
  {
    forall k | 0 <= k < |cs| ensures R.Readable(ES, Requests(cs)[k]) { SendableReads(cs[k]); }
  }

  /** What an operation deserves by itself. */
  function Verdict(c: Client): Bulk.Verdict {
    match c.kind
    case Delete => DeleteUnsupported
    case Update => UpdateUnsupported
    case _ => if LooksBraced(c.source) then Created else NotObject
  }

  function Body(cs: seq<Client>): Bytes
    requires R.AllReadable(ES, Requests(cs))
  {
    R.Written(ES, Requests(cs))
  }

  /** The item is of the operation written, with its own verdict, and carries its source exactly if it
      was accepted. */
  ghost predicate Answered(c: Client, op: Op, body: Bytes) {
    && op.kind == c.kind && op.verdict == Verdict(c)
    && (op.doc.Some? <==> Verdict(c) == Created) && (op.doc.Some? ==> Carries(op, body, c.source))
  }

  lemma OneAnswered(c: Client, op: Op, body: Bytes)
    requires Sendable(c) && R.Answers(ES, RequestOf(c), op, body)
    ensures Answered(c, op, body)
  {
    SendableReads(c);
  }

  /** Every body of such operations, whatever their metadata, layout and sources, is answered with one
      item each, in order. */
  lemma ClientsAnswered(cs: seq<Client>)
    requires AllSendable(cs) && |cs| <= MAX_ACTIONS
    ensures R.AllReadable(ES, Requests(cs)) && Parse(ES, Body(cs), 0, 0).Some?
    ensures var ops := Parse(ES, Body(cs), 0, 0).value;
            |ops| == |cs| && forall k | 0 <= k < |cs| :: Answered(cs[k], ops[k], Body(cs))
  {
    RequestsReadable(cs);
    R.BodyAnswered(ES, Requests(cs));
    var ops := Parse(ES, Body(cs), 0, 0).value;
    forall k | 0 <= k < |cs| ensures Answered(cs[k], ops[k], Body(cs)) {
      assert Requests(cs)[k] == RequestOf(cs[k]);
      OneAnswered(cs[k], ops[k], Body(cs));
    }
  }
}
