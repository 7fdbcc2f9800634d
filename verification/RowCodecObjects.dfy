/** Values and flat objects: what is read as an object is exactly what the grammar spells as one. Objects
and arrays inside an object are taken as text, up to the bracket that balances them, if the general
validator takes that text. */
module RowCodecObjects {
  import opened Basics
  import opened RowCodec
  import opened RowCodecGrammar
  import opened RowCodecSyntax

  // ------------------------------------------------------------------ values (section 3)

  datatype Value = Str(us: seq<Unit>) | Num(n: Number) | Yes | No | Nil | Nested(text: Bytes)

  predicate ProperValue(env: Env, v: Value) {
    match v
    case Str(us) => AllProper(us)
    case Num(n) => WellFormed(n)
    case Nested(t) => t != [] && (t[0] == LBRACE || t[0] == LBRACKET) && SkipComposite(t, 0) == Some([]) && env.validJson(t)
    case _ => true
  }

  function InQuotes(us: seq<Unit>, rest: Bytes): Bytes
    requires AllProper(us)
  {
    [QUOTE] + (SpellAll(us) + ([QUOTE] + rest))
  }

  function SpellValue(env: Env, v: Value, rest: Bytes): Bytes
    requires ProperValue(env, v)
  {
    match v
    case Str(us) => InQuotes(us, rest)
    case Num(n) => Written(n, rest)
    case Yes => TRUE + rest
    case No => FALSE + rest
    case Nil => NULL + rest
    case Nested(t) => t + rest
  }

  /** The text a field gets: of a string what it stands for, of null nothing, of anything else its
      spelling. */
  function ValueMeans(env: Env, v: Value): Bytes
    requires ProperValue(env, v)
  {
    match v
    case Str(us) => Meaning(us)
    case Nil => []
    case _ => SpellValue(env, v, [])
  }

  lemma QuotedRead(us: seq<Unit>, rest: Bytes)
    requires AllProper(us)
    ensures ScanString(InQuotes(us, rest)) == Some((Meaning(us), rest))
  {
    StringRead(us, rest);
    assert InQuotes(us, rest)[1..] == SpellAll(us) + ([QUOTE] + rest);
  }

  lemma TailAppend(n: Number, rest: Bytes)
    ensures Tail(n, rest) == Tail(n, []) + rest
  {
    if n.exponent.Some? {
      var e := n.exponent.value;
      assert e.digits + [] == e.digits;
      Assoc(e.sign, e.digits, rest);
      Assoc([e.letter], e.sign + e.digits, rest);
    }
  }

  /** A number's fraction and exponent. */
  function Part(n: Number, rest: Bytes): Bytes {
    if n.fraction.Some? then [DOT] + (n.fraction.value + Tail(n, rest)) else Tail(n, rest)
  }

  lemma PartAppend(n: Number, rest: Bytes)
    ensures Part(n, rest) == Part(n, []) + rest
  {
    TailAppend(n, rest);
    if n.fraction.Some? {
      Assoc(n.fraction.value, Tail(n, []), rest);
      Assoc([DOT], n.fraction.value + Tail(n, []), rest);
    }
  }

  lemma WrittenAppend(n: Number, rest: Bytes)
    requires WellFormed(n)
    ensures Written(n, rest) == Written(n, []) + rest && Written(n, []) != []
    ensures Written(n, rest)[0] == MINUS || Digit(Written(n, rest)[0])
  {
    var sign: Bytes := if n.negative then [MINUS] else [];
    PartAppend(n, rest);
    assert Written(n, []) == sign + (n.whole + Part(n, []));
    assert Written(n, rest) == sign + (n.whole + Part(n, rest));
    Assoc(n.whole, Part(n, []), rest);
    Assoc(sign, n.whole + Part(n, []), rest);
    assert Written(n, rest)[0] == (if n.negative then MINUS else n.whole[0]);
  }

  lemma NumRead(env: Env, n: Number, rest: Bytes)
    requires WellFormed(n) && Ends(rest)
    ensures ScanValue(env, Written(n, rest)) == Some((Written(n, []), rest))
  {
    var s := Written(n, rest);
    WrittenAppend(n, rest);
    NumberRead(n, rest);
    assert s[..|s| - |rest|] == Written(n, []);
  }

  lemma {:induction false} RawAppend(s: Bytes, t: Bytes)
    requires SkipRaw(s).Some?
    ensures SkipRaw(s + t) == Some(SkipRaw(s).value + t)
    decreases |s|
  {
    assert (s + t)[0] == s[0] && (s + t)[1..] == s[1..] + t;
    if s[0] == BACKSLASH {
      assert (s + t)[2..] == s[2..] + t;
      RawAppend(s[2..], t);
    } else if s[0] != QUOTE {
      RawAppend(s[1..], t);
    }
  }

  lemma {:induction false} CompositeAppend(s: Bytes, depth: nat, t: Bytes)
    requires SkipComposite(s, depth).Some?
    ensures SkipComposite(s + t, depth) == Some(SkipComposite(s, depth).value + t)
    decreases |s|
  {
    assert (s + t)[0] == s[0] && (s + t)[1..] == s[1..] + t;
    if s[0] == QUOTE {
      RawAppend(s[1..], t);
      CompositeAppend(SkipRaw(s[1..]).value, depth, t);
    } else if s[0] == LBRACE || s[0] == LBRACKET {
      CompositeAppend(s[1..], depth + 1, t);
    } else if s[0] == RBRACE || s[0] == RBRACKET {
      if depth > 1 { CompositeAppend(s[1..], depth - 1, t); }
    } else {
      CompositeAppend(s[1..], depth, t);
    }
  }

  lemma NestedRead(env: Env, t: Bytes, rest: Bytes)
    requires ProperValue(env, Nested(t))
    ensures ScanValue(env, t + rest) == Some((t, rest))
  {
    var s := t + rest;
    CompositeAppend(t, 0, rest);
    assert [] + rest == rest && s[0] == t[0];
    assert s[..|s| - |rest|] == t;
  }

  /** Every value reads as what it means, and what follows it is left. */
  lemma ValueRead(env: Env, v: Value, rest: Bytes)
    requires ProperValue(env, v) && (v.Num? ==> Ends(rest))
    ensures ScanValue(env, SpellValue(env, v, rest)) == Some((ValueMeans(env, v), rest))
  {
    match v {
      case Str(us) => QuotedRead(us, rest);
      case Num(n) => NumRead(env, n, rest);
      case Yes => WordRead(env, TRUE, rest);
      case No => WordRead(env, FALSE, rest);
      case Nil => WordRead(env, NULL, rest);
      case Nested(t) =>
        NestedRead(env, t, rest);
        assert t + [] == t;
    }
  }

  lemma WordRead(env: Env, word: Bytes, rest: Bytes)
    requires word == TRUE || word == FALSE || word == NULL
    ensures ScanValue(env, word + rest) == Some((if word == NULL then [] else word, rest)) && word + [] == word
  {
    var s := word + rest;
    assert s[0] == word[0] && s[..|word|] == word && s[|word|..] == rest;
  }

  lemma {:induction false} RawCut(s: Bytes) returns (p: Bytes)
    requires SkipRaw(s).Some?
    ensures s == p + SkipRaw(s).value && SkipRaw(p) == Some([])
    decreases |s|
  {
    if s[0] == BACKSLASH {
      p := RawCut(s[2..]);
      assert s == [s[0], s[1]] + s[2..] && ([s[0], s[1]] + p)[2..] == p;
      p := [s[0], s[1]] + p;
    } else if s[0] == QUOTE {
      p := [QUOTE];
      assert s == [QUOTE] + s[1..];
    } else {
      p := RawCut(s[1..]);
      assert s == [s[0]] + s[1..] && ([s[0]] + p)[1..] == p;
      p := [s[0]] + p;
    }
  }

  lemma {:induction false} CompositeCut(s: Bytes, depth: nat) returns (p: Bytes)
    requires SkipComposite(s, depth).Some?
    ensures s == p + SkipComposite(s, depth).value && SkipComposite(p, depth) == Some([]) && p != [] && p[0] == s[0]
    decreases |s|
  {
    assert s == [s[0]] + s[1..];
    if s[0] == QUOTE {
      var q := RawCut(s[1..]);
      var more := CompositeCut(SkipRaw(s[1..]).value, depth);
      RawAppend(q, more);
      assert [] + more == more;
      p := [QUOTE] + (q + more);
      assert p[1..] == q + more;
    } else if s[0] == LBRACE || s[0] == LBRACKET {
      var more := CompositeCut(s[1..], depth + 1);
      p := [s[0]] + more;
      assert p[1..] == more;
    } else if s[0] == RBRACE || s[0] == RBRACKET {
      if depth == 1 {
        p := [s[0]];
      } else {
        var more := CompositeCut(s[1..], depth - 1);
        p := [s[0]] + more;
        assert p[1..] == more;
      }
    } else {
      var more := CompositeCut(s[1..], depth);
      p := [s[0]] + more;
      assert p[1..] == more;
    }
  }

  lemma QuotedSpelled(s: Bytes) returns (us: seq<Unit>)
    requires ScanString(s).Some?
    ensures AllProper(us) && s == InQuotes(us, ScanString(s).value.1) && Meaning(us) == ScanString(s).value.0
  {
    us := StringSpelled(s[1..]);
    assert s == [QUOTE] + s[1..];
  }

  /** Whatever is read as a value is one. */
  lemma ValueSpelled(env: Env, s: Bytes) returns (v: Value)
    requires ScanValue(env, s).Some?
    ensures ProperValue(env, v) && s == SpellValue(env, v, ScanValue(env, s).value.1) && ValueMeans(env, v) == ScanValue(env, s).value.0
  {
    var rest := ScanValue(env, s).value.1;
    if s[0] == QUOTE {
      var us := QuotedSpelled(s);
      v := Str(us);
    } else if s[0] == 116 {
      v := Yes;
      assert s == TRUE + s[4..];
    } else if s[0] == 102 {
      v := No;
      assert s == FALSE + s[5..];
    } else if s[0] == 110 {
      v := Nil;
      assert s == NULL + s[4..];
    } else if s[0] == MINUS || Digit(s[0]) {
      var n := NumberSpelled(s);
      v := Num(n);
      WrittenAppend(n, rest);
      assert s[..|s| - |rest|] == Written(n, []);
    } else {
      var t := CompositeCut(s, 0);
      assert s[..|s| - |rest|] == t && t + [] == t;
      v := Nested(t);
    }
  }

  // ------------------------------------------------------------------ objects (section 4)

  /** White space before the key, after it, before the value and after it. */
  datatype Member = Member(before: Bytes, key: seq<Unit>, colon: Bytes, gap: Bytes, value: Value, after: Bytes)

  predicate ProperMember(env: Env, m: Member) {
    && Gap(m.before) && AllProper(m.key) && Gap(m.colon) && Gap(m.gap) && ProperValue(env, m.value) && Gap(m.after)
  }

  predicate ProperMembers(env: Env, ms: seq<Member>) {
    forall i | 0 <= i < |ms| :: ProperMember(env, ms[i])
  }

  /** From the key on. */
  function SpellPair(env: Env, m: Member, rest: Bytes): Bytes
    requires ProperMember(env, m)
  {
    InQuotes(m.key, m.colon + ([COLON] + (m.gap + SpellValue(env, m.value, rest))))
  }

  /** What follows a member and the white space after it. */
  function SpellTail(env: Env, ms: seq<Member>, end: Bytes): (r: Bytes)
    requires ProperMembers(env, ms)
    ensures |r| > 0 && (r[0] == COMMA || r[0] == RBRACE)
  {
    if |ms| == 0 then [RBRACE] + end
    else [COMMA] + (ms[0].before + SpellPair(env, ms[0], ms[0].after + SpellTail(env, ms[1..], end)))
  }

  /** inner is the white space inside an object without members. */
  datatype Object = Object(lead: Bytes, inner: Bytes, members: seq<Member>, end: Bytes)

  predicate ProperObject(env: Env, o: Object) {
    Gap(o.lead) && Gap(o.inner) && ProperMembers(env, o.members) && Gap(o.end)
  }

  function SpellInside(env: Env, o: Object): Bytes
    requires ProperObject(env, o)
  {
    if |o.members| == 0 then o.inner + ([RBRACE] + o.end) else SpellMembers(env, o.members, o.end)
  }

  function SpellMembers(env: Env, ms: seq<Member>, end: Bytes): Bytes
    requires ProperMembers(env, ms) && |ms| > 0
  {
    ms[0].before + SpellPair(env, ms[0], ms[0].after + SpellTail(env, ms[1..], end))
  }

  function SpellObject(env: Env, o: Object): Bytes
    requires ProperObject(env, o)
  {
    o.lead + ([LBRACE] + SpellInside(env, o))
  }

  function FieldOf(env: Env, m: Member): Field
    requires ProperMember(env, m)
  {
    Field(Meaning(m.key), ValueMeans(env, m.value))
  }

  function Fields(env: Env, ms: seq<Member>): seq<Field>
    requires ProperMembers(env, ms)
  {
    if |ms| == 0 then [] else [FieldOf(env, ms[0])] + Fields(env, ms[1..])
  }

  lemma GapBefore(g: Bytes, s: Bytes)
    requires Gap(g) && s != [] && !IsSpace(s[0])
    ensures SkipSpace(g + s) == s
  {
    GapSkipped(g, s);
  }

  lemma GapEnds(g: Bytes, s: Bytes)
    requires Gap(g) && |s| > 0 && (s[0] == COMMA || s[0] == RBRACE)
    ensures Ends(g + s)
  {
    assert (g + s)[0] == if g == [] then s[0] else g[0];
  }

  lemma ValueStarts(env: Env, v: Value, rest: Bytes)
    requires ProperValue(env, v)
    ensures SpellValue(env, v, rest) != [] && !IsSpace(SpellValue(env, v, rest)[0])
  {
    if v.Num? { WrittenAppend(v.n, rest); }
  }

  /** One pair reads as its field. */
  lemma PairRead(env: Env, m: Member, rest: Bytes)
    requires ProperMember(env, m) && Ends(rest)
    ensures ScanPair(env, SpellPair(env, m, rest)) == Some((FieldOf(env, m), rest))
  {
    var v := SpellValue(env, m.value, rest);
    ValueStarts(env, m.value, rest);
    GapBefore(m.gap, v);
    ValueRead(env, m.value, rest);
    var c := [COLON] + (m.gap + v);
    GapBefore(m.colon, c);
    assert c[1..] == m.gap + v;
    QuotedRead(m.key, m.colon + c);
  }

  lemma PairStarts(env: Env, m: Member, rest: Bytes)
    requires ProperMember(env, m)
    ensures SpellPair(env, m, rest) != [] && SpellPair(env, m, rest)[0] == QUOTE
    ensures SkipSpace(m.before + SpellPair(env, m, rest)) == SpellPair(env, m, rest)
  {
    GapBefore(m.before, SpellPair(env, m, rest));
  }

  /** The members behind the first. */
  lemma {:induction false} TailRead(env: Env, g: Bytes, ms: seq<Member>, end: Bytes)
    requires Gap(g) && ProperMembers(env, ms) && Gap(end)
    ensures ScanPairs(env, g + SpellTail(env, ms, end), false) == Some(Fields(env, ms))
    decreases |ms|
  {
    var tail := SpellTail(env, ms, end);
    GapBefore(g, tail);
    if |ms| == 0 {
      GapSkipped(end, []);
      assert end + [] == end && tail[1..] == end;
    } else {
      var m, more := ms[0], SpellTail(env, ms[1..], end);
      GapEnds(m.after, more);
      PairRead(env, m, m.after + more);
      PairStarts(env, m, m.after + more);
      assert tail[1..] == m.before + SpellPair(env, m, m.after + more);
      assert NextPair(env, g + tail, false) == More(FieldOf(env, m), m.after + more);
      TailRead(env, m.after, ms[1..], end);
    }
  }

  lemma FirstRead(env: Env, ms: seq<Member>, end: Bytes)
    requires ProperMembers(env, ms) && |ms| > 0 && Gap(end)
    ensures ScanPairs(env, SpellMembers(env, ms, end), true) == Some(Fields(env, ms))
  {
    var m, more := ms[0], SpellTail(env, ms[1..], end);
    GapEnds(m.after, more);
    PairRead(env, m, m.after + more);
    PairStarts(env, m, m.after + more);
    assert NextPair(env, SpellMembers(env, ms, end), true) == More(FieldOf(env, m), m.after + more);
    TailRead(env, m.after, ms[1..], end);
  }

  lemma EmptyRead(env: Env, inner: Bytes, end: Bytes)
    requires Gap(inner) && Gap(end)
    ensures ScanPairs(env, inner + ([RBRACE] + end), true) == Some([])
  {
    var close := [RBRACE] + end;
    assert close[1..] == end && end + [] == end;
    GapBefore(inner, close);
    GapSkipped(end, []);
  }

  /** Every object is read as its fields, in order. */
  lemma ObjectRead(env: Env, o: Object)
    requires ProperObject(env, o)
    ensures ScanObject(env, SpellObject(env, o)) == Some(Fields(env, o.members))
  {
    var s := [LBRACE] + SpellInside(env, o);
    GapBefore(o.lead, s);
    assert s[1..] == SpellInside(env, o);
    if |o.members| == 0 { EmptyRead(env, o.inner, o.end); } else { FirstRead(env, o.members, o.end); }
  }

  // ------------------------------------------------------------------ and nothing else is

  lemma {:induction false} GapTaken(s: Bytes) returns (g: Bytes)
    ensures Gap(g) && s == g + SkipSpace(s)
  {
    if s != [] && IsSpace(s[0]) {
      g := GapTaken(s[1..]);
      assert s == [s[0]] + s[1..];
      g := [s[0]] + g;
    } else {
      g := [];
    }
  }

  lemma EmptyGap(s: Bytes)
    requires SkipSpace(s) == []
    ensures Gap(s)
  {
    var g := GapTaken(s);
    assert s == g;
  }

  lemma AfterKeySpelled(env: Env, a: Bytes) returns (colon: Bytes, gap: Bytes, value: Value)
    requires AfterKey(env, a).Some?
    ensures Gap(colon) && Gap(gap) && ProperValue(env, value) && ValueMeans(env, value) == AfterKey(env, a).value.0
    ensures a == colon + ([COLON] + (gap + SpellValue(env, value, AfterKey(env, a).value.1)))
  {
    colon := GapTaken(a);
    var c := SkipSpace(a);
    gap := GapTaken(c[1..]);
    value := ValueSpelled(env, SkipSpace(c[1..]));
    assert c == [COLON] + c[1..];
  }

  lemma PairSpelled(env: Env, before: Bytes, s: Bytes, after: Bytes) returns (m: Member)
    requires ScanPair(env, s).Some? && Gap(before) && Gap(after)
    ensures ProperMember(env, m) && s == SpellPair(env, m, ScanPair(env, s).value.1) && FieldOf(env, m) == ScanPair(env, s).value.0
    ensures m.before == before && m.after == after
  {
    var key := QuotedSpelled(s);
    var colon, gap, value := AfterKeySpelled(env, ScanString(s).value.1);
    m := Member(before, key, colon, gap, value, after);
  }

  /** A tail with one more member in front. */
  lemma TailCons(env: Env, t: Bytes, m: Member, u: Bytes, more: seq<Member>, end: Bytes)
    requires t != [] && t[0] == COMMA && ProperMember(env, m) && ProperMembers(env, more)
    requires t[1..] == m.before + u && u == SpellPair(env, m, m.after + SpellTail(env, more, end))
    ensures ProperMembers(env, [m] + more) && t == SpellTail(env, [m] + more, end)
    ensures Fields(env, [m] + more) == [FieldOf(env, m)] + Fields(env, more)
  {
    assert ([m] + more)[1..] == more && t == [COMMA] + t[1..];
  }

  lemma {:induction false} TailSpelled(env: Env, s: Bytes) returns (g: Bytes, ms: seq<Member>, end: Bytes)
    requires ScanPairs(env, s, false).Some?
    ensures Gap(g) && ProperMembers(env, ms) && Gap(end)
    ensures s == g + SpellTail(env, ms, end) && Fields(env, ms) == ScanPairs(env, s, false).value
    decreases |s|
  {
    g := GapTaken(s);
    var t := SkipSpace(s);
    if t[0] == RBRACE {
      ms, end := [], t[1..];
      EmptyGap(end);
      assert t == [RBRACE] + t[1..];
    } else {
      var before := GapTaken(t[1..]);
      var u := SkipSpace(t[1..]);
      assert NextPair(env, s, false) == More(ScanPair(env, u).value.0, ScanPair(env, u).value.1);
      var after, more, e := TailSpelled(env, ScanPair(env, u).value.1);
      var m := PairSpelled(env, before, u, after);
      TailCons(env, t, m, u, more, e);
      ms, end := [m] + more, e;
    }
  }

  lemma InsideSpelled(env: Env, lead: Bytes, s: Bytes) returns (o: Object)
    requires Gap(lead) && ScanPairs(env, s, true).Some?
    ensures ProperObject(env, o) && o.lead == lead && s == SpellInside(env, o) && Fields(env, o.members) == ScanPairs(env, s, true).value
  {
    var inner := GapTaken(s);
    var t := SkipSpace(s);
    if t[0] == RBRACE {
      EmptyGap(t[1..]);
      assert t == [RBRACE] + t[1..];
      o := Object(lead, inner, [], t[1..]);
    } else {
      assert NextPair(env, s, true) == More(ScanPair(env, t).value.0, ScanPair(env, t).value.1);
      var after, more, end := TailSpelled(env, ScanPair(env, t).value.1);
      var m := PairSpelled(env, inner, t, after);
      o := Object(lead, [], [m] + more, end);
      assert o.members[1..] == more;
    }
  }

  /** Whatever is read as an object is one, and has those fields. */
  lemma ObjectSpelled(env: Env, line: Bytes) returns (o: Object)
    requires ScanObject(env, line).Some?
    ensures ProperObject(env, o) && line == SpellObject(env, o) && Fields(env, o.members) == ScanObject(env, line).value
  {
    var lead := GapTaken(line);
    var s := SkipSpace(line);
    assert s == [LBRACE] + s[1..];
    o := InsideSpelled(env, lead, s[1..]);
  }

  /** A line is read as an object with these fields exactly when it is the spelling of one. */
  lemma ReadExactly(env: Env, line: Bytes, fs: seq<Field>)
    ensures ScanObject(env, line) == Some(fs) <==>
            exists o: Object :: ProperObject(env, o) && SpellObject(env, o) == line && Fields(env, o.members) == fs
  {
    if ScanObject(env, line) == Some(fs) {
      var o := ObjectSpelled(env, line);
      assert ProperObject(env, o) && SpellObject(env, o) == line && Fields(env, o.members) == fs;
    }
    if o: Object :| ProperObject(env, o) && SpellObject(env, o) == line && Fields(env, o.members) == fs {
      ObjectRead(env, o);
    }
  }

  // ------------------------------------------------------------------ lines cut short or run together

  /** A bracketed text cut anywhere before its last bracket is not one. */
  lemma CompositeTruncated(s: Bytes, depth: nat, k: nat)
    requires SkipComposite(s, depth).Some? && k < |s| - |SkipComposite(s, depth).value|
    ensures SkipComposite(s[..k], depth).None?
  {
    assert s == s[..k] + s[k..];
    if SkipComposite(s[..k], depth).Some? { CompositeAppend(s[..k], depth, s[k..]); }
  }

  lemma {:induction false} GapIsSkipped(g: Bytes)
    requires Gap(g)
    ensures SkipSpace(g) == []
  {
    GapSkipped(g, []);
    assert g + [] == g;
  }

  /** A line that does not end in white space ends with its closing brace. */
  lemma EndsWithBrace(line: Bytes) returns (g: Bytes)
    requires LooksLikeObject(line) && !IsSpace(line[|line| - 1])
    ensures Gap(g) && line == g + SkipSpace(line) && SkipComposite(SkipSpace(line), 0) == Some([])
  {
    g := GapTaken(line);
    var s := SkipSpace(line);
    var end := SkipComposite(s, 0).value;
    var p := CompositeCut(s, 0);
    EmptyGap(end);
    Assoc(g, p, end);
    LastByte(g + p, end);
  }

  lemma LastByte(a: Bytes, b: Bytes)
    ensures |b| > 0 ==> (a + b)[|a + b| - 1] == b[|b| - 1]
  {
  }

  /** A line that was cut short is refused, wherever it was cut. */
  lemma TruncatedIsRefused(line: Bytes, k: nat)
    requires LooksLikeObject(line) && !IsSpace(line[|line| - 1]) && k < |line|
    ensures !LooksLikeObject(line[..k])
  {
    var g := EndsWithBrace(line);
    var s := SkipSpace(line);
    if k <= |g| {
      assert line[..k] == g[..k];
      GapIsSkipped(g[..k]);
    } else {
      assert line[..k] == g + s[..k - |g|];
      GapBefore(g, s[..k - |g|]);
      CompositeTruncated(s, 0, k - |g|);
    }
  }

  /** A line followed by anything but white space is refused. */
  lemma GluedIsRefused(line: Bytes, more: Bytes)
    requires LooksLikeObject(line) && !Gap(more)
    ensures !LooksLikeObject(line + more)
  {
    var g := GapTaken(line);
    var s := SkipSpace(line);
    var end := SkipComposite(s, 0).value;
    EmptyGap(end);
    Assoc(g, s, more);
    GapBefore(g, s + more);
    CompositeAppend(s, 0, more);
    GapSkipped(end, more);
    if SkipSpace(more) == [] { EmptyGap(more); }
  }
}
