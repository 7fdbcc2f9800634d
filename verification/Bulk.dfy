/** Bulk ingest: alternating action and source lines, the documents compacted into the front of the
very buffer they are slices of, and the ingester's rejects mapped back onto their items. */
module Bulk {
  import opened Basics
  import opened RowCodec
  import RowCodecProof

  datatype Kind = Index | Create | Update | Delete

  /** What an item's status says. */
  datatype Verdict = Created | DeleteUnsupported | NoSource | UpdateUnsupported | NotObject | IngesterRejected

  /** A document is a slice of the body. */
  datatype Span = Span(lo: nat, hi: nat)

  datatype Op = Op(kind: Kind, doc: Option<Span>, verdict: Verdict)

  /** How single lines are read: which are blank, what an action line names, which sources open and
      close as an object. */
  datatype Format = Format(blank: Bytes -> bool, action: Bytes -> Option<Kind>, braced: Bytes -> bool)

  const MAX_ACTIONS: nat := 0x10_0000

  // ------------------------------------------------------------------ lines of the body

  function LineEnd(body: Bytes, i: nat): (e: nat)
    requires i <= |body|
    ensures i <= e <= |body|
    ensures NEWLINE !in body[i..e]
    ensures e < |body| ==> body[e] == NEWLINE
    decreases |body| - i
  {
    if i == |body| || body[i] == NEWLINE then i
    else
      var e := LineEnd(body, i + 1);
      assert body[i..e] == [body[i]] + body[i + 1..e];
      e
  }

  function Past(body: Bytes, e: nat): (j: nat)
    requires e <= |body|
    ensures e <= j <= |body|
  {
    if e < |body| then e + 1 else e
  }

  /** The first line from i that is not blank, or the last line. */
  function SourceLine(f: Format, body: Bytes, i: nat): (s: Span)
    requires i <= |body|
    ensures i <= s.lo <= s.hi <= |body| && s.hi == LineEnd(body, s.lo)
    decreases |body| - i
  {
    var e := LineEnd(body, i);
    if f.blank(body[i..e]) && Past(body, e) < |body| then SourceLine(f, body, Past(body, e)) else Span(i, e)
  }

  function Judged(f: Format, body: Bytes, kind: Kind, s: Span): Op
    requires s.lo <= s.hi <= |body|
  {
    if f.blank(body[s.lo..s.hi]) then Op(kind, None, NoSource)
    else if kind == Update then Op(kind, None, UpdateUnsupported)
    else if !f.braced(body[s.lo..s.hi]) then Op(kind, None, NotObject)
    else Op(kind, Some(s), Created)
  }

  function Then(op: Op, more: Option<seq<Op>>): Option<seq<Op>> {
    if more.None? then None else Some([op] + more.value)
  }

  /** What the line at i leads to: nothing, an item and where to go on, or a refusal. */
  datatype Step = Blank(next: nat) | Refused | Item(op: Op, next: nat)

  function StepAt(f: Format, body: Bytes, i: nat): (r: Step)
    requires i < |body| && f.blank([])
    ensures r.Blank? || r.Item? ==> i < r.next <= |body|
  {
    var e := LineEnd(body, i);
    var j := Past(body, e);
    if f.blank(body[i..e]) then Blank(j)
    else
      var kind := f.action(body[i..e]);
      if kind.None? then Refused
      else if kind.value == Delete then Item(Op(Delete, None, DeleteUnsupported), j)
      else
        var s := SourceLine(f, body, j);
        Item(Judged(f, body, kind.value, s), Past(body, s.hi))
  }

  /** The items of the body from i on, n having been read already; None refuses the request. */
  function Parse(f: Format, body: Bytes, i: nat, n: nat): Option<seq<Op>>
    requires i <= |body| && f.blank([])
    decreases |body| - i
  {
    if i == |body| then Some([])
    else if n >= MAX_ACTIONS then None
    else
      match StepAt(f, body, i)
      case Blank(next) => Parse(f, body, next, n)
      case Refused => None
      case Item(op, next) => Then(op, Parse(f, body, next, n + 1))
  }

  function Prepend(done: seq<Op>, more: Option<seq<Op>>): Option<seq<Op>> {
    if more.None? then None else Some(done + more.value)
  }

  method NextLine(body: Bytes, i: nat) returns (e: nat, j: nat)
    requires i <= |body|
    ensures e == LineEnd(body, i) && j == Past(body, e)
  {
    e := i;
    while e < |body| && body[e] != NEWLINE
      invariant i <= e <= |body| && LineEnd(body, e) == LineEnd(body, i)
    {
      e := e + 1;
    }
    j := if e < |body| then e + 1 else e;
  }

  method NextItem(f: Format, body: Bytes, i: nat) returns (r: Step)
    requires i < |body| && f.blank([])
    ensures r == StepAt(f, body, i)
  {
    var e, j := NextLine(body, i);
    if f.blank(body[i..e]) { return Blank(j); }
    var kind := f.action(body[i..e]);
    if kind.None? { return Refused; }
    if kind.value == Delete { return Item(Op(Delete, None, DeleteUnsupported), j); }
    var s, next := ReadSource(f, body, j);
    return Item(Judged(f, body, kind.value, s), next);
  }

  /** One item per action, in order, or a refusal of the whole request. */
  method ParseBulk(f: Format, body: Bytes) returns (r: Option<seq<Op>>)
    requires f.blank([])
    ensures r == Parse(f, body, 0, 0)
  {
    var ops: seq<Op> := [];
    var i := 0;
    PrependNothing(Parse(f, body, 0, 0));
    while i < |body|
      invariant i <= |body|
      invariant Prepend(ops, Parse(f, body, i, |ops|)) == Parse(f, body, 0, 0)
      decreases |body| - i
    {
      if |ops| >= MAX_ACTIONS { return None; }
      var step := NextItem(f, body, i);
      ParseStep(f, body, i, ops);
      if step.Refused? { return None; }
      if step.Item? { ops := ops + [step.op]; }
      i := step.next;
    }
    assert ops + [] == ops;
    return Some(ops);
  }

  method ReadSource(f: Format, body: Bytes, i: nat) returns (s: Span, next: nat)
    requires i <= |body|
    ensures s == SourceLine(f, body, i) && next == Past(body, s.hi)
  {
    var at := i;
    var e, j := NextLine(body, at);
    while f.blank(body[at..e]) && j < |body|
      invariant i <= at <= |body| && e == LineEnd(body, at) && j == Past(body, e)
      invariant SourceLine(f, body, at) == SourceLine(f, body, i)
      decreases |body| - at
    {
      at := j;
      e, j := NextLine(body, at);
    }
    return Span(at, e), j;
  }

  lemma ParseStep(f: Format, body: Bytes, i: nat, done: seq<Op>)
    requires i < |body| && f.blank([]) && |done| < MAX_ACTIONS
    ensures Prepend(done, Parse(f, body, i, |done|)) ==
            var step := StepAt(f, body, i);
            if step.Blank? then Prepend(done, Parse(f, body, step.next, |done|))
            else if step.Refused? then None
            else Prepend(done + [step.op], Parse(f, body, step.next, |done| + 1))
  {
    var step := StepAt(f, body, i);
    if step.Item? { PrependSnoc(done, step.op, Parse(f, body, step.next, |done| + 1)); }
  }

  lemma PrependNothing(more: Option<seq<Op>>)
    ensures Prepend([], more) == more
  {
    if more.Some? { assert [] + more.value == more.value; }
  }

  lemma PrependSnoc(done: seq<Op>, op: Op, more: Option<seq<Op>>)
    ensures Prepend(done, Then(op, more)) == Prepend(done + [op], more)
  {
    if more.Some? { assert done + ([op] + more.value) == done + [op] + more.value; }
  }

  // ------------------------------------------------------------------ where the documents lie

  /** Every document, when its turn comes, starts strictly past the write cursor w. */
  predicate Trails(ops: seq<Op>, w: nat, size: nat) {
    if ops == [] then true
    else if ops[0].doc.None? then Trails(ops[1..], w, size)
    else
      var s := ops[0].doc.value;
      w < s.lo <= s.hi <= size && Trails(ops[1..], w + (s.hi - s.lo) + 1, size)
  }

  /** An item's document starts past its own action line and ends before the next item. */
  lemma StepTrails(f: Format, body: Bytes, i: nat)
    requires i < |body| && f.blank([]) && StepAt(f, body, i).Item? && StepAt(f, body, i).op.doc.Some?
    ensures var s := StepAt(f, body, i).op.doc.value;
            i + 1 < s.lo < s.hi <= |body| && s.hi <= StepAt(f, body, i).next
  {
    var e := LineEnd(body, i);
    NotBlank(f, body, i, e);
    DocPastAction(f, body, Past(body, e), SourceLine(f, body, Past(body, e)));
  }

  /** The items that follow the one at i. */
  lemma ParsedTail(f: Format, body: Bytes, i: nat, n: nat) returns (op: Option<Op>, next: nat, m: nat)
    requires i < |body| && f.blank([]) && Parse(f, body, i, n).Some?
    ensures i < next <= |body| && Parse(f, body, next, m).Some?
    ensures op.None? ==> Parse(f, body, i, n).value == Parse(f, body, next, m).value
    ensures op.Some? ==> Parse(f, body, i, n).value == [op.value] + Parse(f, body, next, m).value
    ensures op.Some? && op.value.doc.Some? ==>
              var s := op.value.doc.value; i + 1 < s.lo < s.hi <= |body| && s.hi <= next
  {
    var step := StepAt(f, body, i);
    next := step.next;
    if step.Blank? {
      op, m := None, n;
    } else {
      op, m := Some(step.op), n + 1;
      if step.op.doc.Some? { StepTrails(f, body, i); }
    }
  }

  /** Where the write cursor stands after an item. */
  function Advance(op: Option<Op>, w: nat): nat {
    if op.None? || op.value.doc.None? || op.value.doc.value.hi < op.value.doc.value.lo then w
    else w + (op.value.doc.value.hi - op.value.doc.value.lo) + 1
  }

  /** The write cursor stays strictly behind the next unread document, because every document has its
      action line in front of it. */
  lemma {:induction false} ParsedTrails(f: Format, body: Bytes, i: nat, n: nat, w: nat)
    requires i <= |body| && f.blank([]) && w <= i && Parse(f, body, i, n).Some?
    ensures Trails(Parse(f, body, i, n).value, w, |body|)
    decreases |body| - i
  {
    if i < |body| {
      var op, next, m := ParsedTail(f, body, i, n);
      ParsedTrails(f, body, next, m, Advance(op, w));
      TrailsStep(op, Parse(f, body, next, m).value, Parse(f, body, i, n).value, w, |body|);
    }
  }

  lemma TrailsStep(op: Option<Op>, more: seq<Op>, ops: seq<Op>, w: nat, size: nat)
    requires op.None? ==> ops == more
    requires op.Some? ==> ops == [op.value] + more
    requires op.Some? && op.value.doc.Some? ==> w < op.value.doc.value.lo <= op.value.doc.value.hi <= size
    requires Trails(more, Advance(op, w), size)
    ensures Trails(ops, w, size)
  {
    if op.Some? {
      if op.value.doc.Some? { DocTrails(op.value, more, w, size); } else { NoDocTrails(op.value, more, w, size); }
    }
  }

  lemma NoDocTrails(op: Op, more: seq<Op>, w: nat, size: nat)
    requires op.doc.None? && Trails(more, w, size)
    ensures Trails([op] + more, w, size)
  {
    assert ([op] + more)[1..] == more;
  }

  lemma DocTrails(op: Op, more: seq<Op>, w: nat, size: nat)
    requires op.doc.Some? && w < op.doc.value.lo <= op.doc.value.hi <= size
    requires Trails(more, w + (op.doc.value.hi - op.doc.value.lo) + 1, size)
    ensures Trails([op] + more, w, size)
  {
    assert ([op] + more)[1..] == more;
  }

  lemma NotBlank(f: Format, body: Bytes, i: nat, e: nat)
    requires i <= e <= |body| && f.blank([]) && !f.blank(body[i..e])
    ensures i < e
  {
    EmptySlice(body, i);
  }

  lemma EmptySlice(body: Bytes, i: nat)
    requires i <= |body|
    ensures body[i..i] == []
  {
  }

  lemma DocPastAction(f: Format, body: Bytes, j: nat, s: Span)
    requires j <= |body| && s == SourceLine(f, body, j) && f.blank([]) && !f.blank(body[s.lo..s.hi])
    ensures j <= s.lo < s.hi
    ensures j < |body|
  {
    NotBlank(f, body, s.lo, s.hi);
  }

  /** The document an item carries. */
  function Doc(op: Op, body: Bytes): Bytes {
    if op.doc.Some? && op.doc.value.lo <= op.doc.value.hi <= |body| then body[op.doc.value.lo..op.doc.value.hi] else []
  }

  /** The documents as the request carried them. */
  function Docs(ops: seq<Op>, body: Bytes): seq<Bytes> {
    if ops == [] then []
    else if ops[0].doc.None? then Docs(ops[1..], body)
    else [Doc(ops[0], body)] + Docs(ops[1..], body)
  }

  function Joined(docs: seq<Bytes>): Bytes {
    if docs == [] then [] else docs[0] + ([NEWLINE] + Joined(docs[1..]))
  }

  /** Compacting in place: the result is every original document in order, each with a newline, even
      though the documents are slices of the array being overwritten. */
  method BulkDocs(ops: seq<Op>, body: array<byte>) returns (w: nat)
    requires Trails(ops, 0, body.Length)
    modifies body
    ensures w <= body.Length
    ensures body[..w] == Joined(Docs(ops, old(body[..])))
    ensures body[w..] == old(body[w..])
  {
    ghost var was := body[..];
    w := 0;
    var k := 0;
    assert ops[0..] == ops && body[..0] == [];
    while k < |ops|
      invariant k <= |ops| && w <= body.Length
      invariant Compacting(ops, k, was, w, body[..w])
      invariant body[w..] == was[w..]
    {
      if ops[k].doc.None? {
        CompactNone(ops, k, was, w, body[..w]);
      } else {
        w := CompactOne(ops, k, body, w, was);
      }
      k := k + 1;
    }
    assert ops[k..] == [];
    assert body[..w] + [] == body[..w];
  }

  /** Moves item k's document, which nothing written so far has reached. */
  method CompactOne(ops: seq<Op>, k: nat, body: array<byte>, at: nat, ghost was: Bytes) returns (w: nat)
    requires k < |ops| && ops[k].doc.Some? && at <= body.Length == |was|
    requires Compacting(ops, k, was, at, body[..at]) && body[at..] == was[at..]
    modifies body
    ensures w <= body.Length && Compacting(ops, k + 1, was, w, body[..w]) && body[w..] == was[w..]
  {
    var s := ops[k].doc.value;
    CompactDoc(ops, k, was, at, body[..at], s);
    ghost var now := body[..];
    assert now[at..] == body[at..];
    RestKept(now, was, at, s);
    w := PlaceDoc(body, at, s);
  }

  lemma RestKept(now: Bytes, was: Bytes, w: nat, s: Span)
    requires |now| == |was| && w < s.lo <= s.hi <= |was| && now[w..] == was[w..]
    ensures now[s.lo..s.hi] == was[s.lo..s.hi]
    ensures now[w + (s.hi - s.lo) + 1..] == was[w + (s.hi - s.lo) + 1..]
  {
    forall i | w <= i < |now| ensures now[i] == was[i] { assert now[w..][i - w] == was[w..][i - w]; }
  }

  /** The first k items are done, the write cursor is at w, and `front` is what has been written. */
  ghost predicate Compacting(ops: seq<Op>, k: nat, was: Bytes, w: nat, front: Bytes)
    requires k <= |ops|
  {
    Trails(ops[k..], w, |was|) && front + Joined(Docs(ops[k..], was)) == Joined(Docs(ops, was))
  }

  lemma CompactNone(ops: seq<Op>, k: nat, was: Bytes, w: nat, front: Bytes)
    requires k < |ops| && Compacting(ops, k, was, w, front) && ops[k].doc.None?
    ensures Compacting(ops, k + 1, was, w, front)
  {
    assert ops[k..][0] == ops[k] && ops[k..][1..] == ops[k + 1..];
  }

  lemma CompactDoc(ops: seq<Op>, k: nat, was: Bytes, w: nat, front: Bytes, s: Span)
    requires k < |ops| && Compacting(ops, k, was, w, front) && ops[k].doc == Some(s)
    ensures w < s.lo <= s.hi <= |was|
    ensures Compacting(ops, k + 1, was, w + (s.hi - s.lo) + 1, front + was[s.lo..s.hi] + [NEWLINE])
  {
    assert ops[k..][0] == ops[k] && ops[k..][1..] == ops[k + 1..];
    JoinStep(front, was[s.lo..s.hi], Docs(ops[k + 1..], was));
  }

  /** Moves one document to the write cursor and ends it with a newline. */
  method PlaceDoc(body: array<byte>, at: nat, s: Span) returns (w: nat)
    requires at < s.lo <= s.hi <= body.Length
    modifies body
    ensures w == at + (s.hi - s.lo) + 1 <= body.Length
    ensures body[..w] == old(body[..at]) + old(body[s.lo..s.hi]) + [NEWLINE]
    ensures body[w..] == old(body[w..])
  {
    w := at + (s.hi - s.lo);
    MoveDown(body, at, s);
    assert body[..w] == old(body[..at]) + old(body[s.lo..s.hi]);
    body[w] := NEWLINE;
    w := w + 1;
  }

  /** Copies a slice towards the front of its own array. */
  method MoveDown(body: array<byte>, w: nat, s: Span)
    requires w < s.lo <= s.hi <= body.Length
    modifies body
    ensures body[..w] == old(body[..w])
    ensures body[w..w + (s.hi - s.lo)] == old(body[s.lo..s.hi])
    ensures body[w + (s.hi - s.lo)..] == old(body[w + (s.hi - s.lo)..])
  {
    ghost var was := body[..];
    var j := 0;
    while j < s.hi - s.lo
      invariant 0 <= j <= s.hi - s.lo
      invariant forall i | w <= i < w + j :: body[i] == was[i + (s.lo - w)]
      invariant forall i | 0 <= i < w || w + j <= i < body.Length :: body[i] == was[i]
    {
      body[w + j] := body[s.lo + j];
      j := j + 1;
    }
    assert body[w..w + j] == was[s.lo..s.hi];
  }

  lemma JoinStep(front: Bytes, doc: Bytes, more: seq<Bytes>)
    ensures front + Joined([doc] + more) == front + doc + [NEWLINE] + Joined(more)
  {
    assert ([doc] + more)[1..] == more;
    assert front + (doc + ([NEWLINE] + Joined(more))) == front + doc + [NEWLINE] + Joined(more);
  }

  // ------------------------------------------------------------------ the batch the ingester reads

  /** Which items carry a document into the ingester, in order. */
  function Candidates(ops: seq<Op>): seq<nat> {
    if ops == [] then []
    else
      var n := |ops| - 1;
      Candidates(ops[..n]) + if ops[n].doc.Some? && ops[n].verdict.Created? then [n] else []
  }

  /** The item carries this line of the body. */
  predicate Carries(op: Op, body: Bytes, line: Bytes) {
    op.doc.Some? && op.doc.value.lo <= op.doc.value.hi <= |body| && line == body[op.doc.value.lo..op.doc.value.hi]
  }

  /** What parsing leaves: a document exactly on the items accepted so far, a line of its own. */
  ghost predicate Accepted(ops: seq<Op>, body: Bytes) {
    forall i | 0 <= i < |ops| ::
      && (ops[i].doc.Some? <==> ops[i].verdict.Created?)
      && (ops[i].doc.Some? ==>
            var s := ops[i].doc.value;
            s.lo < s.hi <= |body| && NEWLINE !in body[s.lo..s.hi])
  }

  lemma StepAccepted(f: Format, body: Bytes, i: nat)
    requires i < |body| && f.blank([]) && StepAt(f, body, i).Item?
    ensures Accepted([StepAt(f, body, i).op], body)
  {
    var op := StepAt(f, body, i).op;
    if op.doc.Some? { StepTrails(f, body, i); }
  }

  lemma {:induction false} ParsedAccepted(f: Format, body: Bytes, i: nat, n: nat)
    requires i <= |body| && f.blank([]) && Parse(f, body, i, n).Some?
    ensures Accepted(Parse(f, body, i, n).value, body)
    decreases |body| - i
  {
    if i < |body| {
      var step := StepAt(f, body, i);
      if step.Blank? {
        ParsedAccepted(f, body, step.next, n);
      } else {
        ParsedAccepted(f, body, step.next, n + 1);
        StepAccepted(f, body, i);
        assert [step.op][0] == step.op;
      }
    }
  }

  lemma {:induction false} DocsSnoc(ops: seq<Op>, op: Op, body: Bytes)
    ensures Docs(ops + [op], body) == Docs(ops, body) + if op.doc.None? then [] else [Doc(op, body)]
  {
    if ops == [] {
      assert ops + [op] == [op] && [op][1..] == [];
    } else {
      assert (ops + [op])[1..] == ops[1..] + [op];
      DocsSnoc(ops[1..], op, body);
    }
  }

  /** Line k belongs to the k-th of these items. */
  ghost predicate Aligned(lines: seq<Bytes>, idx: seq<nat>, ops: seq<Op>, body: Bytes) {
    |lines| == |idx| && forall k | 0 <= k < |idx| :: idx[k] < |ops| && Carries(ops[idx[k]], body, lines[k])
  }

  lemma AlignedSnoc(lines: seq<Bytes>, idx: seq<nat>, ops: seq<Op>, op: Op, body: Bytes)
    requires Aligned(lines, idx, ops, body)
    ensures Aligned(lines, idx, ops + [op], body)
    ensures forall line :: Carries(op, body, line) ==> Aligned(lines + [line], idx + [|ops|], ops + [op], body)
  {
  }

  /** The k-th document of the batch is the k-th candidate's. */
  lemma {:induction false} DocsAreCandidates(ops: seq<Op>, body: Bytes)
    requires Accepted(ops, body)
    ensures Aligned(Docs(ops, body), Candidates(ops), ops, body)
  {
    if ops != [] {
      var n := |ops| - 1;
      var was, op := ops[..n], ops[n];
      assert ops == was + [op];
      DocsSnoc(was, op, body);
      DocsAreCandidates(was, body);
      AlignedSnoc(Docs(was, body), Candidates(was), was, op, body);
      assert op.doc.Some? ==> Carries(op, body, Doc(op, body));
    }
  }

  lemma {:induction false} JoinedLines(docs: seq<Bytes>)
    requires forall k | 0 <= k < |docs| :: docs[k] != [] && NEWLINE !in docs[k]
    ensures Lines(Joined(docs)) == docs
  {
    if docs != [] {
      RowCodecProof.SplitLine([], docs[0], Joined(docs[1..]));
      assert [] + docs[0] == docs[0];
      JoinedLines(docs[1..]);
      assert [docs[0]] + docs[1..] == docs;
    }
  }

  /** For every body that parses, compaction applies and the batch it leaves has one line per
      candidate: line k is candidate k's document, byte for byte as it was sent. */
  lemma BatchIsCandidates(f: Format, body: Bytes)
    requires f.blank([]) && Parse(f, body, 0, 0).Some?
    ensures var ops := Parse(f, body, 0, 0).value;
            && Trails(ops, 0, |body|)
            && Aligned(Lines(Joined(Docs(ops, body))), Candidates(ops), ops, body)
  {
    var ops := Parse(f, body, 0, 0).value;
    ParsedTrails(f, body, 0, 0, 0);
    ParsedAccepted(f, body, 0, 0);
    DocsAreCandidates(ops, body);
    var docs, idx := Docs(ops, body), Candidates(ops);
    forall k | 0 <= k < |docs| ensures docs[k] != [] && NEWLINE !in docs[k] {
      assert Carries(ops[idx[k]], body, docs[k]);
    }
    JoinedLines(docs);
  }

  /** Parsing and compacting a request: the lines left at the front of the buffer are the candidates'
      documents as they were sent, one each and in order. */
  method CompactBulk(f: Format, body: array<byte>) returns (ops: Option<seq<Op>>, w: nat)
    requires f.blank([])
    modifies body
    ensures ops == Parse(f, old(body[..]), 0, 0)
    ensures ops.None? ==> body[..] == old(body[..])
    ensures ops.Some? ==>
              w <= body.Length && Aligned(Lines(body[..w]), Candidates(ops.value), ops.value, old(body[..]))
  {
    w := 0;
    ops := ParseBulk(f, body[..]);
    if ops.Some? {
      BatchIsCandidates(f, body[..]);
      w := BulkDocs(ops.value, body);
    }
  }
}
