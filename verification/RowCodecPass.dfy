/** The printer and the scanners as they run: appending to a buffer, advancing an index. Each is
proved to compute the function of the same meaning on the unread part of the line. */
module RowCodecPass {
  import opened Basics
  import opened RowCodec
  import opened RowCodecProof

  // ------------------------------------------------------------------ printing

  method AppendJSONString(buf: Bytes, s: Bytes) returns (r: Bytes)
    ensures r == buf + Escape(s)
  {
    r := buf;
    var i := 0;
    while i < |s|
      invariant 0 <= i <= |s|
      invariant r == buf + Escape(s[..i])
    {
      EscapeSnoc(s[..i], s[i]);
      assert s[..i + 1] == s[..i] + [s[i]];
      var c := s[i];
      if c == QUOTE {
        r := r + [BACKSLASH, QUOTE];
      } else if c == BACKSLASH {
        r := r + [BACKSLASH, BACKSLASH];
      } else if c < 0x20 {
        r := r + [BACKSLASH, LOWER_U, ZERO, ZERO, HexDigit(c / 16), HexDigit(c % 16)];
      } else {
        r := r + [c];
      }
      i := i + 1;
    }
    assert s[..i] == s;
  }

  lemma EscapeSnoc(s: Bytes, c: byte)
    ensures Escape(s + [c]) == Escape(s) + EscapeByte(c)
  {
    EscapeAppend(s, [c]);
    assert Escape([c]) == EscapeByte(c) + Escape([]);
  }

  method AppendQuoted(buf: Bytes, s: Bytes) returns (r: Bytes)
    ensures r == buf + Quoted(s)
  {
    r := AppendJSONString(buf + [QUOTE], s);
    r := r + [QUOTE];
  }

  lemma {:induction false} MorePairsSnoc(fs: seq<Field>, f: Field)
    ensures MorePairs(fs + [f]) == MorePairs(fs) + ([COMMA] + Pair(f))
  {
    if fs == [] {
      assert fs + [f] == [f] && [f][1..] == [];
      assert MorePairs([f]) == [COMMA] + (Pair(f) + []);
    } else {
      assert (fs + [f])[1..] == fs[1..] + [f];
      MorePairsSnoc(fs[1..], f);
      var c, p, m, t: Bytes := [COMMA], Pair(fs[0]), MorePairs(fs[1..]), [COMMA] + Pair(f);
      assert c + (p + (m + t)) == c + (p + m) + t;
    }
  }

  lemma PairsSnoc(fs: seq<Field>, f: Field)
    ensures Pairs(fs + [f]) == Pairs(fs) + (if fs == [] then Pair(f) else [COMMA] + Pair(f))
  {
    if fs == [] {
      assert fs + [f] == [f] && [f][1..] == [];
    } else {
      assert (fs + [f])[1..] == fs[1..] + [f];
      MorePairsSnoc(fs[1..], f);
      assert Pair(fs[0]) + (MorePairs(fs[1..]) + ([COMMA] + Pair(f)))
          == Pair(fs[0]) + MorePairs(fs[1..]) + ([COMMA] + Pair(f));
    }
  }

  lemma JoinFirst(buf: Bytes, key: Bytes, value: Bytes)
    ensures buf + key + [COLON] + value == buf + (key + ([COLON] + value))
  {
  }

  lemma JoinNext(buf: Bytes, key: Bytes, value: Bytes)
    ensures buf + [COMMA] + key + [COLON] + value == buf + ([COMMA] + (key + ([COLON] + value)))
  {
  }

  lemma Assoc(a: Bytes, b: Bytes, c: Bytes)
    ensures a + b + c == a + (b + c)
  {
  }

  /** Prints one more pair after the ones in `done`. */
  method AppendPair(buf: Bytes, ghost start: Bytes, ghost done: seq<Field>, first: bool, f: Field) returns (r: Bytes)
    requires buf == start + Pairs(done) && (first <==> done == [])
    ensures r == start + Pairs(done + [f])
  {
    if first {
      JoinFirst(buf, Quoted(f.key), Quoted(f.value));
      r := buf;
    } else {
      JoinNext(buf, Quoted(f.key), Quoted(f.value));
      r := buf + [COMMA];
    }
    r := AppendQuoted(r, f.key);
    r := AppendQuoted(r + [COLON], f.value);
    PairsSnoc(done, f);
    Assoc(start, Pairs(done), if first then Pair(f) else [COMMA] + Pair(f));
  }

  /** What the printing loop carries: the fields printed, whether `_time` was, and the last stream
      values met. */
  datatype Carried = Carried(kept: seq<Field>, timed: bool, stream: Bytes, streamId: Bytes)

  function Print1(c: Carried, f: Field, withStream: bool): Carried {
    Carried(
      if Skips(c, f, withStream) then c.kept else c.kept + [f],
      c.timed || f.key == TIME,
      if f.key == STREAM && f.value != [] then f.value else c.stream,
      if f.key == STREAM_ID && f.value != [] then f.value else c.streamId)
  }

  predicate Skips(c: Carried, f: Field, withStream: bool) {
    (f.key == TIME && c.timed) || (withStream && (f.key == STREAM || f.key == STREAM_ID))
  }

  function PrintAll(fs: seq<Field>, stamped: bool, withStream: bool): Carried {
    if fs == [] then Carried([], stamped, [], [])
    else Print1(PrintAll(fs[..|fs| - 1], stamped, withStream), fs[|fs| - 1], withStream)
  }

  lemma PrintSnoc(fs: seq<Field>, i: nat, stamped: bool, withStream: bool)
    requires i < |fs|
    ensures PrintAll(fs[..i + 1], stamped, withStream) == Print1(PrintAll(fs[..i], stamped, withStream), fs[i], withStream)
  {
    assert fs[..i + 1][..i] == fs[..i];
  }

  lemma {:induction false} PrintAllIs(fs: seq<Field>, stamped: bool, withStream: bool)
    ensures PrintAll(fs, stamped, withStream) ==
            Carried(Kept(fs, stamped, withStream), stamped || HasTime(fs), LastValue(fs, STREAM), LastValue(fs, STREAM_ID))
  {
    if fs != [] {
      var n := |fs| - 1;
      PrintAllIs(fs[..n], stamped, withStream);
      HasTimeSnoc(fs[..n], fs[n]);
      assert fs == fs[..n] + [fs[n]];
    }
  }

  lemma Appended(stamp: seq<Field>, kept: seq<Field>, f: Field)
    ensures stamp + kept + [f] == stamp + (kept + [f])
  {
  }

  /** What the loop holds: the buffer and whether nothing is in it, whether `_time` is, the last stream values. */
  datatype Held = Held(buf: Bytes, first: bool, timed: bool, stream: Bytes, streamId: Bytes)

  /** What the loop holds is what it carries, printed. */
  ghost predicate Printing(c: Carried, start: Bytes, stamp: seq<Field>, h: Held) {
    && h.buf == start + Pairs(stamp + c.kept) && (h.first <==> stamp + c.kept == [])
    && h.timed == c.timed && h.stream == c.stream && h.streamId == c.streamId
  }

  /** One field of a row: skipped, or printed behind the ones before it. */
  method PrintField(f: Field, h: Held, withStream: bool, ghost c: Carried, ghost start: Bytes, ghost stamp: seq<Field>)
    returns (r: Held)
    requires Printing(c, start, stamp, h)
    ensures Printing(Print1(c, f, withStream), start, stamp, r)
  {
    r := h;
    if f.key == TIME {
      if r.timed { return; }
      r := r.(timed := true);
    }
    if f.key == STREAM && f.value != [] { r := r.(stream := f.value); }
    if f.key == STREAM_ID && f.value != [] { r := r.(streamId := f.value); }
    if withStream && (f.key == STREAM || f.key == STREAM_ID) { return; }
    Appended(stamp, c.kept, f);
    var buf := AppendPair(r.buf, start, stamp + c.kept, r.first, f);
    r := r.(buf := buf, first := false);
  }

  /** The first i fields are printed. */
  ghost predicate PrintedTo(fs: seq<Field>, i: nat, stamped: bool, withStream: bool, start: Bytes, stamp: seq<Field>, h: Held)
    requires i <= |fs|
  {
    Printing(PrintAll(fs[..i], stamped, withStream), start, stamp, h)
  }

  lemma NonePrinted(fs: seq<Field>, buf: Bytes, start: Bytes, stamp: seq<Field>, stamped: bool, withStream: bool)
    requires buf == start + Pairs(stamp) && (stamped <==> stamp != [])
    ensures PrintedTo(fs, 0, stamped, withStream, start, stamp, Held(buf, !stamped, stamped, [], []))
  {
    assert stamp + [] == stamp;
  }

  method PrintNext(fs: seq<Field>, i: nat, h: Held, ghost stamped: bool, withStream: bool, ghost start: Bytes, ghost stamp: seq<Field>)
    returns (r: Held)
    requires i < |fs| && PrintedTo(fs, i, stamped, withStream, start, stamp, h)
    ensures PrintedTo(fs, i + 1, stamped, withStream, start, stamp, r)
  {
    PrintSnoc(fs, i, stamped, withStream);
    r := PrintField(fs[i], h, withStream, PrintAll(fs[..i], stamped, withStream), start, stamp);
  }

  /** The loop over a row's fields. */
  method PrintFields(fs: seq<Field>, buf: Bytes, ghost start: Bytes, ghost stamp: seq<Field>, stamped: bool, withStream: bool)
    returns (h: Held)
    requires buf == start + Pairs(stamp) && (stamped <==> stamp != [])
    ensures PrintedTo(fs, |fs|, stamped, withStream, start, stamp, h)
  {
    h := Held(buf, !stamped, stamped, [], []);
    NonePrinted(fs, buf, start, stamp, stamped, withStream);
    var i := 0;
    while i < |fs|
      invariant 0 <= i <= |fs| && PrintedTo(fs, i, stamped, withStream, start, stamp, h)
    {
      h := PrintNext(fs, i, h, stamped, withStream, start, stamp);
      i := i + 1;
    }
  }

  /** One row as one line: the printed fields are exactly Emitted, which is what a reader gets. */
  method AppendRowJSON(env: Env, buf: Bytes, row: Row, withStream: bool) returns (r: Bytes)
    ensures r == buf + (Line(Emitted(env, row, withStream)) + [NEWLINE])
    ensures Prints(env, row, withStream, Emitted(env, row, withStream))
  {
    ghost var start := buf + [LBRACE];
    r := buf + [LBRACE];
    assert r == start + Pairs([]);
    ghost var stamp := Stamp(env, row);
    if !row.noTime {
      r := AppendPair(r, start, [], true, Field(TIME, env.format(row.time)));
      assert [] + stamp == stamp;
    }
    var h := PrintFields(row.fields, r, start, stamp, !row.noTime, withStream);
    assert row.fields[..|row.fields|] == row.fields;
    PrintAllIs(row.fields, !row.noTime, withStream);
    ghost var done := stamp + Kept(row.fields, !row.noTime, withStream);
    r := h.buf;
    if withStream {
      r, done := AppendStream(env, r, start, done, h.first, h.stream, h.streamId);
    }
    assert done == Emitted(env, row, withStream);
    r := r + [RBRACE, NEWLINE];
    CloseLine(buf, Pairs(done));
    EmittedIsPrinted(env, row, withStream);
  }

  lemma CloseLine(buf: Bytes, pairs: Bytes)
    ensures buf + [LBRACE] + pairs + [RBRACE, NEWLINE] == buf + ([LBRACE] + (pairs + [RBRACE]) + [NEWLINE])
  {
  }

  method AppendStream(env: Env, buf: Bytes, ghost start: Bytes, ghost done: seq<Field>, first: bool, own: Bytes,
                      ownId: Bytes)
    returns (r: Bytes, ghost all: seq<Field>)
    requires buf == start + Pairs(done) && (first <==> done == [])
    ensures r == start + Pairs(all)
    ensures var stream := if own == [] then EMPTY_STREAM else own;
            all == done + [Field(STREAM, stream), Field(STREAM_ID, if ownId == [] then env.streamId(stream) else ownId)]
  {
    var stream := if own == [] then EMPTY_STREAM else own;
    r := AppendPair(buf, start, done, first, Field(STREAM, stream));
    all := done + [Field(STREAM, stream)];
    var id := if ownId == [] then env.streamId(stream) else ownId;
    r := AppendPair(r, start, all, false, Field(STREAM_ID, id));
    all := all + [Field(STREAM_ID, id)];
  }

  // ------------------------------------------------------------------ reading

  method SkipWS(b: Bytes, at: nat) returns (i: nat)
    requires at <= |b|
    ensures at <= i <= |b| && b[i..] == SkipSpace(b[at..])
  {
    i := at;
    while i < |b| && IsSpace(b[i])
      invariant at <= i <= |b|
      invariant SkipSpace(b[i..]) == SkipSpace(b[at..])
    {
      assert b[i..][1..] == b[i + 1..];
      i := i + 1;
    }
  }

  method ReadHex4(b: Bytes, i: nat) returns (r: Option<int>)
    requires i <= |b|
    ensures r == Hex4(b[i..])
  {
    if i + 4 > |b| { return None; }
    var v, j := 0, 0;
    ghost var s := b[i..];
    while j < 4
      invariant 0 <= j <= 4
      invariant forall k | 0 <= k < j :: HexValue(s[k]).Some?
      invariant j == 1 ==> v == HexValue(s[0]).value
      invariant j == 2 ==> v == HexValue(s[0]).value * 16 + HexValue(s[1]).value
      invariant j == 3 ==> v == HexValue(s[0]).value * 256 + HexValue(s[1]).value * 16 + HexValue(s[2]).value
      invariant j == 4 ==> v == HexValue(s[0]).value * 4096 + HexValue(s[1]).value * 256
                               + HexValue(s[2]).value * 16 + HexValue(s[3]).value
      invariant j == 0 ==> v == 0
    {
      assert s[j] == b[i + j];
      var d := HexValue(b[i + j]);
      if d.None? { return None; }
      v := v * 16 + d.value;
      j := j + 1;
    }
    return Some(v);
  }

  method ScanUnicodeEscape(b: Bytes, i: nat) returns (r: Option<(int, nat)>)
    requires i <= |b|
    ensures r.Some? <==> UnicodeEscape(b[i..]).Some?
    ensures r.Some? ==> i < r.value.1 <= |b| && UnicodeEscape(b[i..]) == Some((r.value.0, b[r.value.1..]))
  {
    var hi := ReadHex4(b, i);
    if hi.None? { return None; }
    assert b[i..][4..] == b[i + 4..];
    if !Surrogate(hi.value) { return Some((hi.value, i + 4)); }
    if i + 5 < |b| && b[i + 4] == BACKSLASH && b[i + 5] == LOWER_U {
      var lo := ReadHex4(b, i + 6);
      assert b[i..][6..] == b[i + 6..];
      if lo.Some? && hi.value < 0xdc00 && 0xdc00 <= lo.value < 0xe000 {
        assert b[i..][10..] == b[i + 10..];
        return Some(((hi.value - 0xd800) * 1024 + (lo.value - 0xdc00) + 0x1_0000, i + 10));
      }
    }
    return Some((REPLACEMENT, i + 4));
  }

  /** The escape at i, just past a backslash. */
  method ScanEscape(b: Bytes, i: nat) returns (r: Option<(Bytes, nat)>)
    requires i <= |b|
    ensures r.Some? <==> EscapeAt(b[i..]).Some?
    ensures r.Some? ==> i < r.value.1 <= |b| && EscapeAt(b[i..]) == Some((r.value.0, b[r.value.1..]))
  {
    if i >= |b| { return None; }
    assert b[i..][1..] == b[i + 1..];
    if b[i] == QUOTE || b[i] == BACKSLASH || b[i] == SLASH { return Some(([b[i]], i + 1)); }
    if b[i] == 98 { return Some(([8], i + 1)); }
    if b[i] == 102 { return Some(([12], i + 1)); }
    if b[i] == 110 { return Some(([10], i + 1)); }
    if b[i] == 114 { return Some(([13], i + 1)); }
    if b[i] == 116 { return Some(([9], i + 1)); }
    if b[i] == LOWER_U {
      var u := ScanUnicodeEscape(b, i + 1);
      if u.None? { return None; }
      return Some((Utf8(u.value.0), u.value.1));
    }
    return None;
  }

  /** The fast path takes an unescaped string as one span; an escape falls back to copying. Both
      read the string the grammar reads. */
  method ScanJSONString(b: Bytes, at: nat) returns (r: Option<(Bytes, nat)>)
    requires at <= |b|
    ensures r.Some? <==> ScanString(b[at..]).Some?
    ensures r.Some? ==> at < r.value.1 <= |b| && ScanString(b[at..]) == Some((r.value.0, b[r.value.1..]))
  {
    if at >= |b| || b[at] != QUOTE { return None; }
    var start := at + 1;
    assert b[at..][1..] == b[start..];
    var i := start;
    BeforeNothing(StringBody(b[start..]));
    assert b[start..start] == [];
    while i < |b| && b[i] != BACKSLASH
      invariant start <= i <= |b|
      invariant StringBody(b[start..]) == Before(b[start..i], StringBody(b[i..]))
    {
      assert b[i..][1..] == b[i + 1..];
      if b[i] == QUOTE {
        assert b[start..i] + [] == b[start..i];
        return Some((b[start..i], i + 1));
      }
      if b[i] < 0x20 { return None; }
      PlainStep(b[start..i], b, i);
      assert b[start..i] + [b[i]] == b[start..i + 1];
      i := i + 1;
    }
    if i >= |b| { return None; }
    r := ScanEscaped(b, i, b[start..i], StringBody(b[start..]));
  }

  lemma PlainStep(done: Bytes, b: Bytes, i: nat)
    requires i < |b| && PlainByte(b[i])
    ensures Before(done, StringBody(b[i..])) == Before(done + [b[i]], StringBody(b[i + 1..]))
  {
    assert b[i..][1..] == b[i + 1..];
    BeforeBefore(done, [b[i]], StringBody(b[i + 1..]));
  }

  lemma BeforeNothing(r: Option<(Bytes, Bytes)>)
    ensures Before([], r) == r
  {
    if r.Some? { assert [] + r.value.0 == r.value.0; }
  }

  method ScanEscaped(b: Bytes, at: nat, scanned: Bytes, ghost whole: Option<(Bytes, Bytes)>) returns (r: Option<(Bytes, nat)>)
    requires at <= |b| && whole == Before(scanned, StringBody(b[at..]))
    ensures r.Some? <==> whole.Some?
    ensures r.Some? ==> at < r.value.1 <= |b| && whole == Some((r.value.0, b[r.value.1..]))
  {
    var i, buf := at, scanned;
    while i < |b|
      invariant at <= i <= |b|
      invariant whole == Before(buf, StringBody(b[i..]))
      decreases |b| - i
    {
      if b[i] == QUOTE {
        ClosingStep(buf, b, i);
        return Some((buf, i + 1));
      }
      var unit := ScanUnit(b, i);
      if unit.None? { return None; }
      BeforeBefore(buf, unit.value.0, StringBody(b[unit.value.1..]));
      buf := buf + unit.value.0;
      i := unit.value.1;
    }
    return None;
  }

  /** One character of a string, plain or escaped. */
  method ScanUnit(b: Bytes, i: nat) returns (r: Option<(Bytes, nat)>)
    requires i < |b| && b[i] != QUOTE
    ensures r.None? ==> StringBody(b[i..]).None?
    ensures r.Some? ==> i < r.value.1 <= |b| && StringBody(b[i..]) == Before(r.value.0, StringBody(b[r.value.1..]))
  {
    assert b[i..][1..] == b[i + 1..];
    if b[i] < 0x20 { return None; }
    if b[i] != BACKSLASH { return Some(([b[i]], i + 1)); }
    r := ScanEscape(b, i + 1);
  }

  lemma ClosingStep(done: Bytes, b: Bytes, i: nat)
    requires i < |b| && b[i] == QUOTE
    ensures Before(done, StringBody(b[i..])) == Some((done, b[i + 1..]))
  {
    assert b[i..][1..] == b[i + 1..];
    assert done + [] == done;
  }

  method PassDigits(b: Bytes, at: nat) returns (i: nat)
    requires at <= |b|
    ensures at <= i <= |b| && b[i..] == SkipDigits(b[at..])
  {
    i := at;
    while i < |b| && Digit(b[i])
      invariant at <= i <= |b|
      invariant SkipDigits(b[i..]) == SkipDigits(b[at..])
    {
      assert b[i..][1..] == b[i + 1..];
      i := i + 1;
    }
  }

  method ScanInteger(b: Bytes, at: nat) returns (r: Option<nat>)
    requires at <= |b|
    ensures r.Some? <==> SkipInteger(b[at..]).Some?
    ensures r.Some? ==> at < r.value <= |b| && SkipInteger(b[at..]) == Some(b[r.value..])
  {
    if at >= |b| || !Digit(b[at]) { return None; }
    assert b[at..][1..] == b[at + 1..];
    if b[at] == ZERO { return Some(at + 1); }
    var i := PassDigits(b, at + 1);
    return Some(i);
  }

  method ScanFraction(b: Bytes, at: nat) returns (r: Option<nat>)
    requires at <= |b|
    ensures r.Some? <==> SkipFraction(b[at..]).Some?
    ensures r.Some? ==> at <= r.value <= |b| && SkipFraction(b[at..]) == Some(b[r.value..])
  {
    if at >= |b| || b[at] != DOT { return Some(at); }
    if at + 1 >= |b| || !Digit(b[at + 1]) { return None; }
    assert b[at..][1..] == b[at + 1..];
    var i := PassDigits(b, at + 1);
    return Some(i);
  }

  method ScanExponent(b: Bytes, at: nat) returns (r: Option<nat>)
    requires at <= |b|
    ensures r.Some? <==> SkipExponent(b[at..]).Some?
    ensures r.Some? ==> at <= r.value <= |b| && SkipExponent(b[at..]) == Some(b[r.value..])
  {
    if at >= |b| || (b[at] != 101 && b[at] != 69) { return Some(at); }
    var i := at + 1;
    assert b[at..][1..] == b[i..];
    if i < |b| && (b[i] == PLUS || b[i] == MINUS) {
      i := i + 1;
      assert b[at..][2..] == b[i..];
    }
    if i >= |b| || !Digit(b[i]) { return None; }
    i := PassDigits(b, i);
    return Some(i);
  }

  method ScanNumber(b: Bytes, at: nat) returns (r: Option<nat>)
    requires at <= |b|
    ensures r.Some? <==> SkipNumber(b[at..]).Some?
    ensures r.Some? ==> at < r.value <= |b| && SkipNumber(b[at..]) == Some(b[r.value..])
  {
    var i := at;
    if i < |b| && b[i] == MINUS {
      assert b[i..][1..] == b[i + 1..];
      i := i + 1;
    }
    r := ScanInteger(b, i);
    if r.None? { return; }
    r := ScanFraction(b, r.value);
    if r.None? { return; }
    r := ScanExponent(b, r.value);
  }

  /** Past a string's closing quote; i stands just past the opening one. */
  method PassString(b: Bytes, at: nat) returns (r: Option<nat>)
    requires at <= |b|
    ensures r.Some? <==> SkipRaw(b[at..]).Some?
    ensures r.Some? ==> at < r.value <= |b| && SkipRaw(b[at..]) == Some(b[r.value..])
  {
    var i := at;
    while i < |b|
      invariant at <= i <= |b|
      invariant SkipRaw(b[i..]) == SkipRaw(b[at..])
    {
      if b[i] == BACKSLASH {
        if i + 2 > |b| { return None; }
        assert b[i..][2..] == b[i + 2..];
        i := i + 2;
        continue;
      }
      assert b[i..][1..] == b[i + 1..];
      if b[i] == QUOTE { return Some(i + 1); }
      i := i + 1;
    }
    return None;
  }

  method ScanComposite(b: Bytes, at: nat) returns (r: Option<nat>)
    requires at <= |b|
    ensures r.Some? <==> SkipComposite(b[at..], 0).Some?
    ensures r.Some? ==> at < r.value <= |b| && SkipComposite(b[at..], 0) == Some(b[r.value..])
  {
    var i, depth := at, 0;
    while i < |b|
      invariant at <= i <= |b| && depth >= 0
      invariant SkipComposite(b[i..], depth) == SkipComposite(b[at..], 0)
      decreases |b| - i
    {
      assert b[i..][1..] == b[i + 1..];
      if b[i] == QUOTE {
        var j := PassString(b, i + 1);
        if j.None? { return None; }
        i := j.value;
        continue;
      } else if b[i] == LBRACE || b[i] == LBRACKET {
        depth := depth + 1;
      } else if b[i] == RBRACE || b[i] == RBRACKET {
        if depth == 1 { return Some(i + 1); }
        if depth == 0 { return None; }
        depth := depth - 1;
      }
      i := i + 1;
    }
    return None;
  }

  lemma PrefixAt(b: Bytes, i: nat, word: Bytes)
    requires i <= |b|
    ensures word <= b[i..] <==> i + |word| <= |b| && b[i..i + |word|] == word
  {
    if i + |word| <= |b| {
      assert b[i..][..|word|] == b[i..i + |word|];
    }
  }

  method ScanLiteral(b: Bytes, i: nat, word: Bytes) returns (r: bool)
    requires i <= |b|
    ensures r <==> word <= b[i..]
    ensures r ==> i + |word| <= |b| && b[i..][|word|..] == b[i + |word|..]
  {
    PrefixAt(b, i, word);
    r := i + |word| <= |b| && b[i..i + |word|] == word;
  }

  method ScanJSONValue(env: Env, b: Bytes, i: nat) returns (r: Option<(Bytes, nat)>)
    requires i <= |b|
    ensures r.Some? <==> ScanValue(env, b[i..]).Some?
    ensures r.Some? ==> i < r.value.1 <= |b| && ScanValue(env, b[i..]) == Some((r.value.0, b[r.value.1..]))
  {
    if i >= |b| { return None; }
    var c := b[i];
    assert b[i..][0] == c;
    if c == QUOTE {
      r := ScanJSONString(b, i);
    } else if c == TRUE[0] {
      var ok := ScanLiteral(b, i, TRUE);
      r := if ok then Some((TRUE, i + 4)) else None;
    } else if c == FALSE[0] {
      var ok := ScanLiteral(b, i, FALSE);
      r := if ok then Some((FALSE, i + 5)) else None;
    } else if c == NULL[0] {
      var ok := ScanLiteral(b, i, NULL);
      r := if ok then Some(([], i + 4)) else None;
    } else if c == MINUS || Digit(c) {
      var n := ScanNumber(b, i);
      if n.None? { return None; }
      TextAt(b, i, n.value);
      r := Some((b[i..n.value], n.value));
    } else if c == LBRACE || c == LBRACKET {
      var n := ScanComposite(b, i);
      if n.None? { return None; }
      TextAt(b, i, n.value);
      r := if env.validJson(b[i..n.value]) then Some((b[i..n.value], n.value)) else None;
    } else {
      r := None;
    }
  }

  lemma TextAt(b: Bytes, i: nat, j: nat)
    requires i <= j <= |b|
    ensures Text(b[i..], Some(b[j..])) == Some((b[i..j], b[j..]))
  {
    assert b[i..][..j - i] == b[i..j];
  }

  /** A colon and the value after it. */
  method ScanAfterKey(env: Env, b: Bytes, at: nat) returns (r: Option<(Bytes, nat)>)
    requires at <= |b|
    ensures r.Some? <==> AfterKey(env, b[at..]).Some?
    ensures r.Some? ==> at < r.value.1 <= |b| && AfterKey(env, b[at..]) == Some((r.value.0, b[r.value.1..]))
  {
    var i := SkipWS(b, at);
    if i >= |b| || b[i] != COLON { return None; }
    assert b[i..][1..] == b[i + 1..];
    i := SkipWS(b, i + 1);
    r := ScanJSONValue(env, b, i);
  }

  method ScanField(env: Env, b: Bytes, at: nat) returns (r: Option<(Field, nat)>)
    requires at <= |b|
    ensures r.Some? <==> ScanPair(env, b[at..]).Some?
    ensures r.Some? ==> at < r.value.1 <= |b| && ScanPair(env, b[at..]) == Some((r.value.0, b[r.value.1..]))
  {
    var k := ScanJSONString(b, at);
    if k.None? { return None; }
    var v := ScanAfterKey(env, b, k.value.1);
    if v.None? { return None; }
    return Some((Field(k.value.0, v.value.0), v.value.1));
  }

  datatype Progress = Finished | Broken | Read(field: Field, next: nat)

  method NextField(env: Env, line: Bytes, at: nat, first: bool) returns (r: Progress)
    requires at <= |line|
    ensures match r
      case Finished => NextPair(env, line[at..], first) == End
      case Broken => NextPair(env, line[at..], first) == Malformed
      case Read(f, next) => at < next <= |line| && NextPair(env, line[at..], first) == More(f, line[next..])
  {
    var i := SkipWS(line, at);
    if i >= |line| { return Broken; }
    assert line[i..][1..] == line[i + 1..];
    if line[i] == RBRACE {
      var end := SkipWS(line, i + 1);
      return if end != |line| then Broken else Finished;
    }
    if !first {
      if line[i] != COMMA { return Broken; }
      i := SkipWS(line, i + 1);
      if i >= |line| || line[i] == RBRACE { return Broken; }
    }
    var p := ScanField(env, line, i);
    if p.None? { return Broken; }
    return Read(p.value.0, p.value.1);
  }

  /** A line back into a row. */
  method JsonLineToRow(env: Env, line: Bytes) returns (row: Row)
    ensures row == Decode(env, line)
  {
    var raw := Row(0, false, [Field(MSG, line)]);
    var i := SkipWS(line, 0);
    assert line[0..] == line;
    if i >= |line| || line[i] != LBRACE { return raw; }
    assert line[i..][1..] == line[i + 1..];
    i := i + 1;
    ghost var all := ScanPairs(env, line[i..], true);
    row := Row(0, true, []);
    ThenNothing(all);
    var first := true;
    while true
      invariant i <= |line|
      invariant row == RowOf(env, row.fields)
      invariant all == Then(row.fields, ScanPairs(env, line[i..], first))
      decreases |line| - i
    {
      var p := NextField(env, line, i, first);
      if p.Broken? { return raw; }
      if p.Finished? {
        assert row.fields + [] == row.fields;
        return row;
      }
      RowOfSnoc(env, row.fields, p.field);
      ThenSnoc(row.fields, p.field, ScanPairs(env, line[p.next..], false));
      row := AddField(env, row, p.field);
      i, first := p.next, false;
    }
  }

  /** Adds a field, lifting the first `_time` that can be read. */
  function AddField(env: Env, row: Row, f: Field): Row {
    var t := if f.key == TIME && row.noTime then env.parse(f.value) else None;
    if t.Some? then Row(t.value, false, row.fields + [f]) else row.(fields := row.fields + [f])
  }

  lemma RowOfSnoc(env: Env, fs: seq<Field>, f: Field)
    ensures AddField(env, RowOf(env, fs), f) == RowOf(env, fs + [f])
  {
    assert (fs + [f])[..|fs|] == fs;
  }

  lemma ThenNothing(more: Option<seq<Field>>)
    ensures Then([], more) == more
  {
    if more.Some? { assert [] + more.value == more.value; }
  }

  lemma ThenSnoc(done: seq<Field>, f: Field, more: Option<seq<Field>>)
    ensures Then(done, Then([f], more)) == Then(done + [f], more)
  {
    if more.Some? { assert done + ([f] + more.value) == done + [f] + more.value; }
  }

  method LooksLikeJSONObject(line: Bytes) returns (r: bool)
    ensures r <==> LooksLikeObject(line)
  {
    var i := SkipWS(line, 0);
    assert line[0..] == line;
    if i >= |line| || line[i] != LBRACE { return false; }
    var end := ScanComposite(line, i);
    if end.None? { return false; }
    var rest := SkipWS(line, end.value);
    return rest == |line|;
  }

  // ------------------------------------------------------------------ splitting a body

  method IndexNewline(body: Bytes, at: nat) returns (e: nat)
    requires at <= |body|
    ensures at <= e <= |body| && (e < |body| ==> body[e] == NEWLINE)
    ensures NEWLINE !in body[at..e]
  {
    e := at;
    while e < |body| && body[e] != NEWLINE
      invariant at <= e <= |body| && NEWLINE !in body[at..e]
    {
      e := e + 1;
    }
  }

  lemma {:induction false} SplitUpTo(current: Bytes, body: Bytes, n: nat)
    requires n <= |body| && NEWLINE !in body[..n]
    ensures SplitFrom(current, body) == SplitFrom(current + body[..n], body[n..])
    decreases n
  {
    if n == 0 {
      assert body[n..] == body && current + body[..n] == current;
    } else {
      assert body[0] == body[..n][0] && body[1..][..n - 1] == body[..n][1..];
      SplitUpTo(current + [body[0]], body[1..], n - 1);
      assert body[1..][n - 1..] == body[n..];
      assert current + [body[0]] + body[1..][..n - 1] == current + body[..n];
    }
  }

  /** The line at `at` and where the next one starts. */
  method NextLine(body: Bytes, at: nat) returns (line: Bytes, next: nat)
    requires at < |body|
    ensures at < next <= |body|
    ensures SplitFrom([], body[at..]) == Whole(line) + SplitFrom([], body[next..])
  {
    var e := IndexNewline(body, at);
    line := body[at..e];
    SplitUpTo([], body[at..], e - at);
    assert body[at..][..e - at] == line && body[at..][e - at..] == body[e..];
    assert [] + line == line;
    SplitNext(line, body, e);
    next := if e < |body| then e + 1 else e;
  }

  /** The first line that is not a row: every line before it is one. */
  function FirstRefused(lines: seq<Bytes>): (r: Option<Bytes>)
    ensures r.None? <==> forall i | 0 <= i < |lines| :: LooksLikeObject(lines[i])
    ensures r.Some? ==> exists i :: 0 <= i < |lines| && lines[i] == r.value && !LooksLikeObject(lines[i])
                                    && forall j | 0 <= j < i :: LooksLikeObject(lines[j])
  {
    if lines == [] then None
    else
      var n := |lines| - 1;
      var before := FirstRefused(lines[..n]);
      assert forall i | 0 <= i < n :: lines[..n][i] == lines[i];
      if before.Some? then before else if LooksLikeObject(lines[n]) then None else Some(lines[n])
  }

  lemma RefusedSnoc(lines: seq<Bytes>, line: Bytes)
    ensures FirstRefused(lines + [line]) ==
            if FirstRefused(lines).Some? then FirstRefused(lines) else if LooksLikeObject(line) then None else Some(line)
  {
    assert (lines + [line])[..|lines|] == lines;
  }

  /** A shard's body cut into lines, and the first line that is not a row. */
  method CollectRows(body: Bytes) returns (rows: seq<Bytes>, bad: Option<Bytes>)
    ensures rows == Accepted(Lines(body))
    ensures bad.None? <==> rows == Lines(body)
    ensures bad == FirstRefused(Lines(body))
  {
    rows, bad := [], None;
    ghost var seen: seq<Bytes> := [];
    var start := 0;
    assert body[start..] == body && [] + Lines(body) == Lines(body);
    while start < |body|
      invariant 0 <= start <= |body|
      invariant seen + SplitFrom([], body[start..]) == Lines(body)
      invariant rows == Accepted(seen)
      invariant bad.None? <==> rows == seen
      invariant bad == FirstRefused(seen)
    {
      var line;
      ghost var here := start;
      line, start := NextLine(body, start);
      SeenStep(seen, line, SplitFrom([], body[start..]));
      if line == [] { continue; }
      AcceptedSnoc(seen, line);
      RefusedSnoc(seen, line);
      var ok := LooksLikeJSONObject(line);
      if ok {
        rows := rows + [line];
      } else if bad.None? {
        bad := Some(line);
      }
      seen := seen + [line];
    }
    assert SplitFrom([], body[start..]) == [] && seen + [] == seen;
  }

  lemma SeenStep(seen: seq<Bytes>, line: Bytes, rest: seq<Bytes>)
    ensures seen + (Whole(line) + rest) == (if line == [] then seen else seen + [line]) + rest
  {
  }

  lemma SplitNext(line: Bytes, body: Bytes, e: nat)
    requires e <= |body| && (e < |body| ==> body[e] == NEWLINE)
    ensures SplitFrom(line, body[e..])
         == Whole(line) + SplitFrom([], body[if e < |body| then e + 1 else e..])
  {
    if e < |body| {
      assert body[e..][1..] == body[e + 1..];
    } else {
      assert Whole(line) + [] == Whole(line);
    }
  }

  function Accepted(lines: seq<Bytes>): (r: seq<Bytes>)
    ensures |r| <= |lines|
  {
    if lines == [] then []
    else
      var n := |lines| - 1;
      if LooksLikeObject(lines[n]) then Accepted(lines[..n]) + [lines[n]] else Accepted(lines[..n])
  }

  lemma AcceptedSnoc(lines: seq<Bytes>, line: Bytes)
    ensures Accepted(lines + [line]) == if LooksLikeObject(line) then Accepted(lines) + [line] else Accepted(lines)
  {
    assert (lines + [line])[..|lines|] == lines;
  }
}
