/** Reading one bulk action line: an object with exactly one key, and that key names the operation.
The key is read, never searched for, so nothing inside the metadata can be mistaken for it. */
module BulkAction {
  import opened Basics
  import opened RowCodec
  import opened Bulk

  predicate Space(c: byte) {
    9 <= c <= 13 || c == 32
  }

  function TrimLeft(s: Bytes): (r: Bytes)
    ensures |r| <= |s|
  {
    if s != [] && Space(s[0]) then TrimLeft(s[1..]) else s
  }

  function TrimRight(s: Bytes): (r: Bytes)
    ensures |r| <= |s|
  {
    if s != [] && Space(s[|s| - 1]) then TrimRight(s[..|s| - 1]) else s
  }

  function Trim(s: Bytes): (r: Bytes)
    ensures |r| <= |s|
  {
    TrimRight(TrimLeft(s))
  }

  /** "index", "create", "update", "delete". */
  const INDEX: Bytes := [105, 110, 100, 101, 120]
  const CREATE: Bytes := [99, 114, 101, 97, 116, 101]
  const UPDATE: Bytes := [117, 112, 100, 97, 116, 101]
  const DELETE: Bytes := [100, 101, 108, 101, 116, 101]

  function Name(kind: Kind): Bytes {
    match kind
    case Index => INDEX
    case Create => CREATE
    case Update => UPDATE
    case Delete => DELETE
  }

  function KindOf(key: Bytes): Option<Kind> {
    if key == INDEX then Some(Index)
    else if key == CREATE then Some(Create)
    else if key == UPDATE then Some(Update)
    else if key == DELETE then Some(Delete)
    else None
  }

  /** What follows the object opened at the front of s, `depth` braces being open already. */
  function SkipBraces(s: Bytes, depth: nat): (r: Option<Bytes>)
    ensures r.Some? ==> |r.value| < |s|
    decreases |s|
  {
    if s == [] then None
    else if s[0] == QUOTE then
      if SkipRaw(s[1..]).None? then None else SkipBraces(SkipRaw(s[1..]).value, depth)
    else if s[0] == LBRACE then SkipBraces(s[1..], depth + 1)
    else if s[0] == RBRACE then
      if depth == 1 then Some(s[1..]) else if depth == 0 then None else SkipBraces(s[1..], depth - 1)
    else SkipBraces(s[1..], depth)
  }

  /** A leading key, as written between its quotes, and what follows its colon. */
  function KeyOf(s: Bytes): Option<(Bytes, Bytes)> {
    if s == [] || s[0] != QUOTE || SkipRaw(s[1..]).None? then None
    else
      var rest := SkipRaw(s[1..]).value;
      var after := Trim(rest);
      if after == [] || after[0] != COLON then None
      else Some((s[1..|s| - |rest| - 1], after[1..]))
  }

  /** Metadata: nothing, null, or one object with nothing behind it. */
  predicate MetadataOk(val: Bytes) {
    val == [] || val == NULL || (val[0] == LBRACE && SkipBraces(val, 0).Some? && Trim(SkipBraces(val, 0).value) == [])
  }

  function ParseAction(line: Bytes): Option<Kind> {
    var t := Trim(line);
    if |t| < 2 || t[0] != LBRACE || t[|t| - 1] != RBRACE then None
    else
      var key := KeyOf(Trim(t[1..|t| - 1]));
      if key.None? || KindOf(key.value.0).None? || !MetadataOk(Trim(key.value.1)) then None
      else KindOf(key.value.0)
  }

  /** The walk for the closing brace as it runs. */
  method MatchBrace(b: Bytes) returns (r: Option<nat>)
    requires b != [] && b[0] == LBRACE
    ensures r.Some? <==> SkipBraces(b, 0).Some?
    ensures r.Some? ==> r.value < |b| && SkipBraces(b, 0) == Some(b[r.value + 1..])
  {
    var i, depth := 0, 0;
    assert b[0..] == b;
    while i < |b|
      invariant 0 <= i <= |b| && depth >= 0
      invariant SkipBraces(b[i..], depth) == SkipBraces(b, 0)
      invariant i > 0 ==> depth > 0
      decreases |b| - i
    {
      assert b[i..][1..] == b[i + 1..];
      if b[i] == QUOTE {
        var e := ScanString(b, i);
        if e.None? { return None; }
        i := e.value;
      } else if b[i] == LBRACE {
        depth := depth + 1;
      } else if b[i] == RBRACE {
        depth := depth - 1;
        if depth == 0 { return Some(i); }
      }
      i := i + 1;
    }
    return None;
  }

  /** The closing quote of the string opened at i. */
  method ScanString(b: Bytes, i: nat) returns (r: Option<nat>)
    requires i < |b|
    ensures r.Some? <==> SkipRaw(b[i + 1..]).Some?
    ensures r.Some? ==> i < r.value < |b| && SkipRaw(b[i + 1..]) == Some(b[r.value + 1..])
  {
    var j := i + 1;
    while j < |b|
      invariant i < j <= |b|
      invariant SkipRaw(b[j..]) == SkipRaw(b[i + 1..])
    {
      if b[j] == BACKSLASH {
        if j + 2 > |b| { return None; }
        assert b[j..][2..] == b[j + 2..];
        j := j + 2;
      } else {
        assert b[j..][1..] == b[j + 1..];
        if b[j] == QUOTE { return Some(j); }
        j := j + 1;
      }
    }
    return None;
  }

  // ------------------------------------------------------------------ metadata

  /** A string between its quotes is made of bytes and of escapes, a backslash before any byte. */
  datatype Unit = Bare(b: byte) | Escape(b: byte)

  function Spelled(units: seq<Unit>): Bytes {
    if units == [] then []
    else (if units[0].Bare? then [units[0].b] else [BACKSLASH, units[0].b]) + Spelled(units[1..])
  }

  predicate Quotable(units: seq<Unit>) {
    forall i | 0 <= i < |units| && units[i].Bare? :: units[i].b != QUOTE && units[i].b != BACKSLASH
  }

  /** The inside of an object, as far as its braces are concerned: strings, nested objects, and bytes
      that are neither quotes nor braces. Numbers, arrays, commas and white space are such bytes. */
  datatype Piece = Other(b: byte) | Text(units: seq<Unit>) | Inner(pieces: seq<Piece>)

  predicate Proper(p: Piece) {
    match p
    case Other(b) => b != QUOTE && b != LBRACE && b != RBRACE
    case Text(units) => Quotable(units)
    case Inner(pieces) => AllProper(pieces)
  }

  predicate AllProper(pieces: seq<Piece>) {
    forall i | 0 <= i < |pieces| :: Proper(pieces[i])
  }

  function Show(p: Piece): Bytes {
    match p
    case Other(b) => [b]
    case Text(units) => [QUOTE] + (Spelled(units) + [QUOTE])
    case Inner(pieces) => [LBRACE] + (ShowAll(pieces) + [RBRACE])
  }

  function ShowAll(pieces: seq<Piece>): Bytes {
    if pieces == [] then [] else Show(pieces[0]) + ShowAll(pieces[1..])
  }

  function Braced(pieces: seq<Piece>): Bytes {
    [LBRACE] + (ShowAll(pieces) + [RBRACE])
  }

  lemma UnitSkipped(u: Unit, rest: Bytes)
    requires Quotable([u])
    ensures SkipRaw((if u.Bare? then [u.b] else [BACKSLASH, u.b]) + rest) == SkipRaw(rest)
  {
    assert [u][0] == u;
    if u.Bare? { assert ([u.b] + rest)[1..] == rest; } else { assert ([BACKSLASH, u.b] + rest)[2..] == rest; }
  }

  lemma {:induction false} SpelledSkipped(units: seq<Unit>, rest: Bytes)
    requires Quotable(units)
    ensures SkipRaw(Spelled(units) + ([QUOTE] + rest)) == Some(rest)
  {
    var tail := [QUOTE] + rest;
    if units == [] {
      assert Spelled(units) + tail == tail && tail[1..] == rest;
    } else {
      var u := units[0];
      var more := Spelled(units[1..]) + tail;
      assert Spelled(units) + tail == (if u.Bare? then [u.b] else [BACKSLASH, u.b]) + more;
      SpelledSkipped(units[1..], rest);
      UnitSkipped(u, more);
    }
  }

  lemma BracesText(units: seq<Unit>, rest: Bytes, depth: nat)
    requires Quotable(units)
    ensures SkipBraces(Show(Text(units)) + rest, depth) == SkipBraces(rest, depth)
  {
    var s := Show(Text(units)) + rest;
    assert s[1..] == Spelled(units) + ([QUOTE] + rest);
    SpelledSkipped(units, rest);
  }

  lemma BracesOther(b: byte, rest: Bytes, depth: nat)
    requires Proper(Other(b))
    ensures SkipBraces([b] + rest, depth) == SkipBraces(rest, depth)
  {
    assert ([b] + rest)[1..] == rest;
  }

  lemma BracesOpen(rest: Bytes, depth: nat)
    ensures SkipBraces([LBRACE] + rest, depth) == SkipBraces(rest, depth + 1)
  {
    assert ([LBRACE] + rest)[1..] == rest;
  }

  lemma BracesClose(rest: Bytes, depth: nat)
    requires depth > 0
    ensures SkipBraces([RBRACE] + rest, depth) == if depth == 1 then Some(rest) else SkipBraces(rest, depth - 1)
  {
    assert ([RBRACE] + rest)[1..] == rest;
  }

  lemma BracedApart(inside: Bytes, rest: Bytes)
    ensures [LBRACE] + (inside + [RBRACE]) + rest == [LBRACE] + (inside + ([RBRACE] + rest))
  {
  }

  /** Quotes, escapes and nested braces inside an object neither open nor close it. */
  lemma {:induction false} BracesPieces(pieces: seq<Piece>, rest: Bytes, depth: nat)
    requires AllProper(pieces) && depth > 0
    ensures SkipBraces(ShowAll(pieces) + rest, depth) == SkipBraces(rest, depth)
    decreases pieces
  {
    if pieces == [] {
      assert ShowAll(pieces) + rest == rest;
    } else {
      var p, more := pieces[0], ShowAll(pieces[1..]) + rest;
      assert ShowAll(pieces) + rest == Show(p) + more;
      BracesPieces(pieces[1..], rest, depth);
      match p
      case Other(b) => BracesOther(b, more, depth);
      case Text(units) => BracesText(units, more, depth);
      case Inner(inner) =>
        BracedApart(ShowAll(inner), more);
        BracesOpen(ShowAll(inner) + ([RBRACE] + more), depth);
        BracesPieces(inner, [RBRACE] + more, depth + 1);
        BracesClose(more, depth + 1);
    }
  }

  lemma BracesObject(pieces: seq<Piece>, rest: Bytes)
    requires AllProper(pieces)
    ensures SkipBraces(Braced(pieces) + rest, 0) == Some(rest)
  {
    var close := [RBRACE] + rest;
    BracedApart(ShowAll(pieces), rest);
    BracesOpen(ShowAll(pieces) + close, 0);
    BracesPieces(pieces, close, 1);
    BracesClose(rest, 1);
  }

  // ------------------------------------------------------------------ white space

  predicate AllSpace(w: Bytes) {
    forall i | 0 <= i < |w| :: w[i] == 9 || w[i] == 10 || w[i] == 11 || w[i] == 12 || w[i] == 13 || w[i] == 32
  }

  /** Neither end is white space. */
  predicate Tight(s: Bytes) {
    s != [] && !Space(s[0]) && !Space(s[|s| - 1])
  }

  lemma {:induction false} LeftTrimmed(w: Bytes, s: Bytes)
    requires AllSpace(w) && s != [] && !Space(s[0])
    ensures TrimLeft(w + s) == s
  {
    if w == [] {
      assert w + s == s;
    } else {
      assert (w + s)[1..] == w[1..] + s;
      LeftTrimmed(w[1..], s);
    }
  }

  lemma {:induction false} RightTrimmed(s: Bytes, w: Bytes)
    requires AllSpace(w) && s != [] && !Space(s[|s| - 1])
    ensures TrimRight(s + w) == s
  {
    if w == [] {
      assert s + w == s;
    } else {
      var n := |w| - 1;
      assert (s + w)[..|s| + n] == s + w[..n];
      RightTrimmed(s, w[..n]);
    }
  }

  lemma {:induction false} LeftCut(s: Bytes) returns (a: Bytes)
    ensures AllSpace(a) && s == a + TrimLeft(s) && (TrimLeft(s) == [] || !Space(TrimLeft(s)[0]))
  {
    a := [];
    if s != [] && Space(s[0]) {
      a := LeftCut(s[1..]);
      assert s == [s[0]] + s[1..];
      a := [s[0]] + a;
    }
  }

  lemma {:induction false} RightCut(s: Bytes) returns (b: Bytes)
    ensures AllSpace(b) && s == TrimRight(s) + b && (TrimRight(s) == [] || !Space(TrimRight(s)[|TrimRight(s)| - 1]))
  {
    b := [];
    if s != [] && Space(s[|s| - 1]) {
      var n := |s| - 1;
      b := RightCut(s[..n]);
      assert s == s[..n] + [s[n]];
      b := b + [s[n]];
    }
  }

  lemma Trimmed(a: Bytes, s: Bytes, b: Bytes)
    requires AllSpace(a) && AllSpace(b) && Tight(s)
    ensures Trim(a + s + b) == s
  {
    assert a + s + b == a + (s + b);
    LeftTrimmed(a, s + b);
    RightTrimmed(s, b);
  }

  // ------------------------------------------------------------------ every action line reads right

  /** Where white space may stand on an action line. */
  datatype Layout = Layout(start: Bytes, beforeKey: Bytes, afterKey: Bytes, beforeValue: Bytes, afterValue: Bytes, end: Bytes)

  predicate Blanks(w: Layout) {
    && AllSpace(w.start) && AllSpace(w.beforeKey) && AllSpace(w.afterKey)
    && AllSpace(w.beforeValue) && AllSpace(w.afterValue) && AllSpace(w.end)
  }

  /** From the key on. */
  function Keyed(w: Layout, key: Bytes, val: Bytes): Bytes {
    [QUOTE] + (key + [QUOTE]) + (w.afterKey + ([COLON] + (w.beforeValue + val)))
  }

  function Written(w: Layout, key: Bytes, val: Bytes): Bytes {
    w.start + ([LBRACE] + (w.beforeKey + Keyed(w, key, val) + w.afterValue) + [RBRACE]) + w.end
  }

  lemma KindRoundTrip(kind: Kind)
    ensures KindOf(Name(kind)) == Some(kind) && forall c | c in Name(kind) :: c != QUOTE && c != BACKSLASH
  {
  }

  lemma {:induction false} PlainSkipped(key: Bytes, rest: Bytes)
    requires forall c | c in key :: c != QUOTE && c != BACKSLASH
    ensures SkipRaw(key + ([QUOTE] + rest)) == Some(rest)
  {
    var s := key + ([QUOTE] + rest);
    if key == [] {
      assert s == [QUOTE] + rest && s[1..] == rest;
    } else {
      assert key[0] in key && s[1..] == key[1..] + ([QUOTE] + rest);
      assert forall c | c in key[1..] :: c in key;
      PlainSkipped(key[1..], rest);
    }
  }

  lemma KeyRead(w: Layout, key: Bytes, val: Bytes)
    requires Blanks(w) && Tight(val) && forall c | c in key :: c != QUOTE && c != BACKSLASH
    ensures KeyOf(Keyed(w, key, val)) == Some((key, w.beforeValue + val))
  {
    var s := Keyed(w, key, val);
    var after := [COLON] + (w.beforeValue + val);
    var rest := w.afterKey + after;
    assert s[1..] == key + ([QUOTE] + rest);
    PlainSkipped(key, rest);
    assert after[|after| - 1] == val[|val| - 1];
    Trimmed(w.afterKey, after, []);
    assert rest + [] == rest;
    assert s[1..|s| - |rest| - 1] == key;
    assert after[1..] == w.beforeValue + val;
  }

  /** What an action line's key decides, whatever follows the colon and however it is laid out. */
  lemma ActionOf(w: Layout, kind: Kind, val: Bytes)
    requires Blanks(w) && Tight(val)
    ensures ParseAction(Written(w, Name(kind), val)) == if MetadataOk(val) then Some(kind) else None
  {
    var keyed := Keyed(w, Name(kind), val);
    var inner := w.beforeKey + keyed + w.afterValue;
    var t := [LBRACE] + inner + [RBRACE];
    Trimmed(w.start, t, w.end);
    assert t[1..|t| - 1] == inner;
    assert keyed[|keyed| - 1] == val[|val| - 1];
    Trimmed(w.beforeKey, keyed, w.afterValue);
    KindRoundTrip(kind);
    KeyRead(w, Name(kind), val);
    Trimmed(w.beforeValue, val, []);
    assert w.beforeValue + val + [] == w.beforeValue + val;
  }

  lemma BracedTight(pieces: seq<Piece>)
    ensures Tight(Braced(pieces)) && Braced(pieces)[0] == LBRACE
  {
  }

  /** Whatever the metadata holds, an index named "delete", an escape, a number or a nested object, and
      wherever white space stands, the operation read is the one written. */
  lemma ActionRoundTrip(w: Layout, kind: Kind, meta: seq<Piece>)
    requires Blanks(w) && AllProper(meta)
    ensures ParseAction(Written(w, Name(kind), Braced(meta))) == Some(kind)
  {
    var val := Braced(meta);
    BracedTight(meta);
    BracesObject(meta, []);
    assert val + [] == val && Trim([]) == [];
    ActionOf(w, kind, val);
  }

  /** Anything behind the metadata, a second key in particular, refuses the line. */
  lemma SecondKeyRefused(w: Layout, kind: Kind, meta: seq<Piece>, gap: Bytes, more: Bytes)
    requires Blanks(w) && AllProper(meta) && AllSpace(gap) && Tight(more)
    ensures ParseAction(Written(w, Name(kind), Braced(meta) + (gap + more))) == None
  {
    var tail := gap + more;
    var val := Braced(meta) + tail;
    BracedTight(meta);
    BracesObject(meta, tail);
    Trimmed(gap, more, []);
    assert tail + [] == tail;
    assert val[0] == LBRACE && val[|val| - 1] == more[|more| - 1];
    ActionOf(w, kind, val);
  }

  /** A key that names no operation refuses the line. */
  lemma UnknownKeyRefused(w: Layout, key: Bytes, val: Bytes)
    requires Blanks(w) && Tight(val) && KindOf(key).None? && forall c | c in key :: c != QUOTE && c != BACKSLASH
    ensures ParseAction(Written(w, key, val)) == None
  {
    var keyed := Keyed(w, key, val);
    var inner := w.beforeKey + keyed + w.afterValue;
    var t := [LBRACE] + inner + [RBRACE];
    Trimmed(w.start, t, w.end);
    assert t[1..|t| - 1] == inner;
    assert keyed[|keyed| - 1] == val[|val| - 1];
    Trimmed(w.beforeKey, keyed, w.afterValue);
    KeyRead(w, key, val);
  }
}
