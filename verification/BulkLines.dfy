/** A bulk body as the list of its lines. Parsing works by index into the body; here is what it computes,
line by line, for every body there is. */
module BulkLines {
  import opened Basics
  import opened RowCodec
  import opened Bulk

  /** The lines of a body; a final newline ends the last one. */
  function Cut(body: Bytes): seq<Bytes>
    decreases |body|
  {
    if |body| == 0 then []
    else
      var e := LineEnd(body, 0);
      [body[..e]] + Cut(body[Past(body, e)..])
  }

  /** An item with its document as a line. */
  datatype Want = Want(kind: Kind, verdict: Verdict, doc: Option<Bytes>)

  function Unblank(f: Format, lines: seq<Bytes>): (r: seq<Bytes>)
    ensures |r| <= |lines|
    ensures |r| > 0 ==> !f.blank(r[0])
  {
    if |lines| > 0 && f.blank(lines[0]) then Unblank(f, lines[1..]) else lines
  }

  function Deserved(f: Format, kind: Kind, source: Bytes): Want {
    if kind == Update then Want(kind, UpdateUnsupported, None)
    else if !f.braced(source) then Want(kind, NotObject, None)
    else Want(kind, Created, Some(source))
  }

  function Front(w: Want, more: Option<seq<Want>>): Option<seq<Want>> {
    if more.None? then None else Some([w] + more.value)
  }

  /** Blank lines are passed over. Every other line is an action, and every action but a delete is followed
      by the next line that is not blank, its source. A line that is no action refuses the request, and so
      does anything after the last action allowed. */
  function Items(f: Format, lines: seq<Bytes>, n: nat): Option<seq<Want>>
    decreases |lines|
  {
    if |lines| == 0 then Some([])
    else if n >= MAX_ACTIONS then None
    else if f.blank(lines[0]) then Items(f, lines[1..], n)
    else
      var kind := f.action(lines[0]);
      var rest := Unblank(f, lines[1..]);
      if kind.None? then None
      else if kind.value == Delete then Front(Want(Delete, DeleteUnsupported, None), Items(f, lines[1..], n + 1))
      else if |rest| == 0 then Some([Want(kind.value, NoSource, None)])
      else Front(Deserved(f, kind.value, rest[0]), Items(f, rest[1..], n + 1))
  }

  // ------------------------------------------------------------------ lines by index

  lemma {:induction false} LineEndShift(body: Bytes, i: nat, k: nat)
    requires i + k <= |body|
    ensures LineEnd(body, i + k) == i + LineEnd(body[i..], k)
    decreases |body| - i - k
  {
    if i + k < |body| {
      assert body[i..][k] == body[i + k];
      if body[i + k] != NEWLINE { LineEndShift(body, i, k + 1); }
    }
  }

  lemma CutAt(body: Bytes, i: nat)
    requires i < |body|
    ensures var e := LineEnd(body, i);
            i < Past(body, e) && Cut(body[i..]) == [body[i..e]] + Cut(body[Past(body, e)..])
  {
    var e, tail := LineEnd(body, i), body[i..];
    LineEndShift(body, i, 0);
    assert tail[..e - i] == body[i..e];
    assert Past(tail, e - i) + i == Past(body, e);
    assert tail[Past(tail, e - i)..] == body[Past(body, e)..];
  }

  /** The source line found by index is the first line that is not blank. */
  lemma {:induction false} SourceIs(f: Format, body: Bytes, j: nat)
    requires j <= |body| && f.blank([])
    ensures var s, rest := SourceLine(f, body, j), Unblank(f, Cut(body[j..]));
            if |rest| == 0 then f.blank(body[s.lo..s.hi]) && Past(body, s.hi) == |body|
            else rest[0] == body[s.lo..s.hi] && !f.blank(body[s.lo..s.hi]) && rest[1..] == Cut(body[Past(body, s.hi)..])
    decreases |body| - j
  {
    if j == |body| {
      assert body[j..] == [] && body[j..j] == [];
    } else {
      CutAt(body, j);
      var e := LineEnd(body, j);
      var lines, more := Cut(body[j..]), Cut(body[Past(body, e)..]);
      assert lines[0] == body[j..e] && lines[1..] == more;
      if f.blank(body[j..e]) {
        if Past(body, e) < |body| {
          SourceIs(f, body, Past(body, e));
        } else {
          assert body[Past(body, e)..] == [];
        }
      }
    }
  }

  // ------------------------------------------------------------------ items by line

  ghost predicate Same(op: Op, w: Want, body: Bytes) {
    && op.kind == w.kind && op.verdict == w.verdict && (op.doc.Some? <==> w.doc.Some?)
    && (op.doc.Some? ==> Carries(op, body, w.doc.value))
  }

  ghost predicate Reads(ops: Option<seq<Op>>, wants: Option<seq<Want>>, body: Bytes) {
    if ops.None? || wants.None? then ops.None? && wants.None?
    else |ops.value| == |wants.value| && forall k | 0 <= k < |ops.value| :: Same(ops.value[k], wants.value[k], body)
  }

  lemma ReadsFront(op: Op, w: Want, ops: Option<seq<Op>>, wants: Option<seq<Want>>, body: Bytes)
    requires Same(op, w, body) && Reads(ops, wants, body)
    ensures Reads(Bulk.Then(op, ops), Front(w, wants), body)
  {
  }

  lemma JudgedIs(f: Format, body: Bytes, kind: Kind, s: Span)
    requires s.lo <= s.hi <= |body| && !f.blank(body[s.lo..s.hi])
    ensures Same(Judged(f, body, kind, s), Deserved(f, kind, body[s.lo..s.hi]), body)
  {
  }

  /** Parsing any body from any line on gives the items of its lines: the same refusals, and item for item
      the same operation, the same verdict and the same document. */
  lemma {:induction false} ParseIsItems(f: Format, body: Bytes, i: nat, n: nat)
    requires i <= |body| && f.blank([])
    ensures Reads(Parse(f, body, i, n), Items(f, Cut(body[i..]), n), body)
    decreases |body| - i, 0
  {
    if i == |body| {
      assert body[i..] == [];
    } else if n < MAX_ACTIONS {
      CutAt(body, i);
      var e := LineEnd(body, i);
      var j, lines := Past(body, e), Cut(body[i..]);
      assert lines[0] == body[i..e] && lines[1..] == Cut(body[j..]);
      var step := StepAt(f, body, i);
      if step.Blank? {
        ParseIsItems(f, body, j, n);
      } else if step.Item? {
        ItemIs(f, body, j, f.action(lines[0]).value, n);
      }
    }
  }

  /** The items from an action on. */
  function From(f: Format, kind: Kind, lines: seq<Bytes>, n: nat): Option<seq<Want>> {
    if kind == Delete then Front(Want(Delete, DeleteUnsupported, None), Items(f, lines, n + 1))
    else
      var rest := Unblank(f, lines);
      if |rest| == 0 then Some([Want(kind, NoSource, None)]) else Front(Deserved(f, kind, rest[0]), Items(f, rest[1..], n + 1))
  }

  lemma ItemIs(f: Format, body: Bytes, j: nat, kind: Kind, n: nat)
    requires j <= |body| && f.blank([])
    ensures var s := SourceLine(f, body, j);
            Reads(if kind == Delete then Bulk.Then(Op(Delete, None, DeleteUnsupported), Parse(f, body, j, n + 1))
                  else Bulk.Then(Judged(f, body, kind, s), Parse(f, body, Past(body, s.hi), n + 1)),
                  From(f, kind, Cut(body[j..]), n), body)
    decreases |body| - j, 1
  {
    if kind == Delete {
      ParseIsItems(f, body, j, n + 1);
      ReadsFront(Op(Delete, None, DeleteUnsupported), Want(Delete, DeleteUnsupported, None), Parse(f, body, j, n + 1),
                 Items(f, Cut(body[j..]), n + 1), body);
    } else {
      var s, rest := SourceLine(f, body, j), Unblank(f, Cut(body[j..]));
      SourceIs(f, body, j);
      var next := Past(body, s.hi);
      if |rest| == 0 {
        assert Parse(f, body, next, n + 1) == Some([]);
      } else {
        ParseIsItems(f, body, next, n + 1);
        JudgedIs(f, body, kind, s);
        ReadsFront(Judged(f, body, kind, s), Deserved(f, kind, rest[0]), Parse(f, body, next, n + 1), Items(f, rest[1..], n + 1), body);
      }
    }
  }

  // ------------------------------------------------------------------ blank lines

  function NonBlank(f: Format, lines: seq<Bytes>): seq<Bytes> {
    if |lines| == 0 then []
    else if f.blank(lines[0]) then NonBlank(f, lines[1..])
    else [lines[0]] + NonBlank(f, lines[1..])
  }

  lemma {:induction false} NonBlankFirst(f: Format, lines: seq<Bytes>)
    ensures var rest := Unblank(f, lines);
            if |rest| == 0 then NonBlank(f, lines) == [] else NonBlank(f, lines) == [rest[0]] + NonBlank(f, rest[1..])
    ensures Unblank(f, NonBlank(f, lines)) == NonBlank(f, lines)
  {
    if |lines| > 0 { NonBlankFirst(f, lines[1..]); }
  }

  /** Blank lines change nothing, wherever they stand: before an action, between an action and its source,
      or at the end. */
  lemma {:induction false} BlankLinesIgnored(f: Format, lines: seq<Bytes>, n: nat)
    requires n + |lines| <= MAX_ACTIONS
    ensures Items(f, NonBlank(f, lines), n) == Items(f, lines, n)
    decreases |lines|
  {
    if |lines| > 0 {
      var kept := NonBlank(f, lines);
      if f.blank(lines[0]) {
        BlankLinesIgnored(f, lines[1..], n);
      } else {
        assert kept[0] == lines[0] && kept[1..] == NonBlank(f, lines[1..]);
        if f.action(lines[0]).Some? {
          NonBlankFirst(f, lines[1..]);
          var rest := Unblank(f, lines[1..]);
          BlankLinesIgnored(f, lines[1..], n + 1);
          if |rest| > 0 {
            BlankLinesIgnored(f, rest[1..], n + 1);
            assert kept[1..][1..] == NonBlank(f, rest[1..]);
          }
        }
      }
    }
  }

  /** An answered request never has more items than are allowed. */
  lemma {:induction false} AtMostAllowed(f: Format, lines: seq<Bytes>, n: nat, ops: seq<Want>)
    requires n <= MAX_ACTIONS && Items(f, lines, n) == Some(ops)
    ensures n + |ops| <= MAX_ACTIONS
    decreases |lines|
  {
    if |lines| > 0 {
      if f.blank(lines[0]) {
        AtMostAllowed(f, lines[1..], n, ops);
      } else {
        var kind, rest := f.action(lines[0]).value, Unblank(f, lines[1..]);
        if kind == Delete {
          AtMostAllowed(f, lines[1..], n + 1, Items(f, lines[1..], n + 1).value);
        } else if |rest| > 0 {
          AtMostAllowed(f, rest[1..], n + 1, Items(f, rest[1..], n + 1).value);
        }
      }
    }
  }
}
