/** Rows on the wire: the line a storage node prints for a row, and the row a coordinator reads
back from a line. Strings are bytes: any byte at all may appear in a key or a value. */
module RowCodec {
  import opened Basics

  const NEWLINE: byte := 10
  const SPACE: byte := 32
  const QUOTE: byte := 34
  const PLUS: byte := 43
  const COMMA: byte := 44
  const MINUS: byte := 45
  const DOT: byte := 46
  const SLASH: byte := 47
  const ZERO: byte := 48
  const COLON: byte := 58
  const LBRACKET: byte := 91
  const BACKSLASH: byte := 92
  const RBRACKET: byte := 93
  const LOWER_A: byte := 97
  const LOWER_U: byte := 117
  const LBRACE: byte := 123
  const RBRACE: byte := 125

  /** "_time", "_msg", "_stream", "_stream_id" and the empty stream "{}". */
  const TIME: Bytes := [95, 116, 105, 109, 101]
  const MSG: Bytes := [95, 109, 115, 103]
  const STREAM: Bytes := [95, 115, 116, 114, 101, 97, 109]
  const STREAM_ID: Bytes := [95, 115, 116, 114, 101, 97, 109, 95, 105, 100]
  const EMPTY_STREAM: Bytes := [123, 125]
  /** The three JSON literals. */
  const TRUE: Bytes := [116, 114, 117, 101]
  const FALSE: Bytes := [102, 97, 108, 115, 101]
  const NULL: Bytes := [110, 117, 108, 108]

  datatype Field = Field(key: Bytes, value: Bytes)

  datatype Row = Row(time: int64, noTime: bool, fields: seq<Field>)

  /** What the codec calls and does not define: the RFC 3339 printer, the general parser (which
      saturates) and the fast one, the stream hash, and the general JSON validator. */
  datatype Env = Env(format: int64 -> Bytes, parse: Bytes -> Option<int64>, fast: Bytes -> Option<int64>,
                     streamId: Bytes -> Bytes, validJson: Bytes -> bool)

  /** A byte JSON carries as itself. */
  predicate PlainByte(c: byte) {
    c >= 0x20 && c != QUOTE && c != BACKSLASH
  }

  predicate Plain(s: Bytes) {
    forall c | c in s :: PlainByte(c)
  }

  /** A printed instant reads back as itself and needs no escape; the fast parser may decline it. */
  ghost predicate Faithful(env: Env) {
    forall t: int64 ::
      && env.parse(env.format(t)) == Some(t) && Plain(env.format(t))
      && (env.fast(env.format(t)) == None || env.fast(env.format(t)) == Some(t))
  }

  // ------------------------------------------------------------------ printing

  function HexDigit(n: int): (c: byte)
    requires 0 <= n < 16
    ensures PlainByte(c)
  {
    if n < 10 then ZERO + n else LOWER_A + n - 10
  }

  function EscapeByte(c: byte): Bytes {
    if c == QUOTE then [BACKSLASH, QUOTE]
    else if c == BACKSLASH then [BACKSLASH, BACKSLASH]
    else if c < 0x20 then [BACKSLASH, LOWER_U, ZERO, ZERO, HexDigit(c / 16), HexDigit(c % 16)]
    else [c]
  }

  function Escape(s: Bytes): Bytes {
    if s == [] then [] else EscapeByte(s[0]) + Escape(s[1..])
  }

  function Quoted(s: Bytes): Bytes {
    [QUOTE] + (Escape(s) + [QUOTE])
  }

  function Pair(f: Field): Bytes {
    Quoted(f.key) + ([COLON] + Quoted(f.value))
  }

  function MorePairs(fs: seq<Field>): Bytes {
    if fs == [] then [] else [COMMA] + (Pair(fs[0]) + MorePairs(fs[1..]))
  }

  function Pairs(fs: seq<Field>): Bytes {
    if fs == [] then [] else Pair(fs[0]) + MorePairs(fs[1..])
  }

  /** One line, without its newline. */
  function Line(fs: seq<Field>): Bytes {
    [LBRACE] + (Pairs(fs) + [RBRACE])
  }

  predicate HasTime(fs: seq<Field>) {
    exists f | f in fs :: f.key == TIME
  }

  /** The row's own fields that are printed in place: `_time` at most once on the line, the stream
      pair nowhere when it is printed at the end. */
  function Kept(fs: seq<Field>, stamped: bool, withStream: bool): seq<Field> {
    if fs == [] then []
    else
      var n := |fs| - 1;
      var kept := Kept(fs[..n], stamped, withStream);
      if fs[n].key == TIME && (stamped || HasTime(fs[..n])) then kept
      else if withStream && (fs[n].key == STREAM || fs[n].key == STREAM_ID) then kept
      else kept + [fs[n]]
  }

  /** The last non-empty value under a key, or empty. */
  function LastValue(fs: seq<Field>, key: Bytes): Bytes {
    if fs == [] then []
    else if fs[|fs| - 1].key == key && fs[|fs| - 1].value != [] then fs[|fs| - 1].value
    else LastValue(fs[..|fs| - 1], key)
  }

  function StreamPair(env: Env, fs: seq<Field>): seq<Field> {
    var own, ownId := LastValue(fs, STREAM), LastValue(fs, STREAM_ID);
    var stream := if own == [] then EMPTY_STREAM else own;
    [Field(STREAM, stream), Field(STREAM_ID, if ownId == [] then env.streamId(stream) else ownId)]
  }

  function Stamp(env: Env, row: Row): seq<Field> {
    if row.noTime then [] else [Field(TIME, env.format(row.time))]
  }

  /** The fields a reader of the line should see, in order. */
  function Emitted(env: Env, row: Row, withStream: bool): seq<Field> {
    Stamp(env, row) + Kept(row.fields, !row.noTime, withStream)
    + (if withStream then StreamPair(env, row.fields) else [])
  }

  // ------------------------------------------------------------------ reading

  predicate IsSpace(c: byte) {
    c == 32 || c == 9 || c == 10 || c == 13
  }

  function SkipSpace(s: Bytes): (r: Bytes)
    ensures |r| <= |s|
    ensures r != [] ==> !IsSpace(r[0])
  {
    if s != [] && IsSpace(s[0]) then SkipSpace(s[1..]) else s
  }

  function HexValue(c: byte): (r: Option<int>)
    ensures r.Some? ==> 0 <= r.value < 16
  {
    if 48 <= c <= 57 then Some(c - 48)
    else if 97 <= c <= 102 then Some(c - 97 + 10)
    else if 65 <= c <= 70 then Some(c - 65 + 10)
    else None
  }

  function Hex4(s: Bytes): (r: Option<int>)
    ensures r.Some? ==> |s| >= 4 && 0 <= r.value < 0x1_0000
  {
    if |s| < 4 then None
    else
      var a, b, c, d := HexValue(s[0]), HexValue(s[1]), HexValue(s[2]), HexValue(s[3]);
      if a.None? || b.None? || c.None? || d.None? then None
      else Some(a.value * 4096 + b.value * 256 + c.value * 16 + d.value)
  }

  const REPLACEMENT: int := 0xfffd

  predicate Surrogate(r: int) {
    0xd800 <= r < 0xe000
  }

  function Utf8(r: int): Bytes
    requires 0 <= r < 0x11_0000 && !Surrogate(r)
  {
    if r < 0x80 then [r]
    else if r < 0x800 then [0xc0 + r / 64, 0x80 + r % 64]
    else if r < 0x1_0000 then [0xe0 + r / 4096, 0x80 + r / 64 % 64, 0x80 + r % 64]
    else [0xf0 + r / 262144, 0x80 + r / 4096 % 64, 0x80 + r / 64 % 64, 0x80 + r % 64]
  }

  /** The rune of a `\u` escape and what follows it: a surrogate pair is one rune, a lone surrogate
      the replacement character. s starts just past the 'u'. */
  function UnicodeEscape(s: Bytes): (r: Option<(int, Bytes)>)
    ensures r.Some? ==> 0 <= r.value.0 < 0x11_0000 && !Surrogate(r.value.0) && |r.value.1| < |s|
  {
    var hi := Hex4(s);
    if hi.None? then None
    else if !Surrogate(hi.value) then Some((hi.value, s[4..]))
    else if |s| > 5 && s[4] == BACKSLASH && s[5] == LOWER_U && Hex4(s[6..]).Some?
            && hi.value < 0xdc00 && 0xdc00 <= Hex4(s[6..]).value < 0xe000 then
      Some(((hi.value - 0xd800) * 1024 + (Hex4(s[6..]).value - 0xdc00) + 0x1_0000, s[10..]))
    else Some((REPLACEMENT, s[4..]))
  }

  /** The bytes one escape stands for and what follows it; s starts just past the backslash. */
  function EscapeAt(s: Bytes): (r: Option<(Bytes, Bytes)>)
    ensures r.Some? ==> |r.value.1| < |s|
  {
    if s == [] then None
    else if s[0] == QUOTE || s[0] == BACKSLASH || s[0] == SLASH then Some(([s[0]], s[1..]))
    else if s[0] == 98 then Some(([8], s[1..]))
    else if s[0] == 102 then Some(([12], s[1..]))
    else if s[0] == 110 then Some(([10], s[1..]))
    else if s[0] == 114 then Some(([13], s[1..]))
    else if s[0] == 116 then Some(([9], s[1..]))
    else if s[0] == LOWER_U then
      var u := UnicodeEscape(s[1..]);
      if u.None? then None else Some((Utf8(u.value.0), u.value.1))
    else None
  }

  /** Puts bytes already read in front of what is still to be read. */
  function Before<T>(done: seq<T>, r: Option<(seq<T>, Bytes)>): Option<(seq<T>, Bytes)> {
    if r.None? then None else Some((done + r.value.0, r.value.1))
  }

  /** A string's content and what follows its closing quote; s starts just past the opening one. */
  function StringBody(s: Bytes): (r: Option<(Bytes, Bytes)>)
    ensures r.Some? ==> |r.value.1| < |s|
    decreases |s|
  {
    if s == [] then None
    else if s[0] == QUOTE then Some(([], s[1..]))
    else if s[0] < 0x20 then None
    else if s[0] != BACKSLASH then Before([s[0]], StringBody(s[1..]))
    else
      var e := EscapeAt(s[1..]);
      if e.None? then None else Before(e.value.0, StringBody(e.value.1))
  }

  function ScanString(s: Bytes): (r: Option<(Bytes, Bytes)>)
    ensures r.Some? ==> |r.value.1| < |s|
  {
    if s == [] || s[0] != QUOTE then None else StringBody(s[1..])
  }

  function SkipDigits(s: Bytes): (r: Bytes)
    ensures |r| <= |s|
  {
    if s != [] && Digit(s[0]) then SkipDigits(s[1..]) else s
  }

  function SkipInteger(s: Bytes): (r: Option<Bytes>)
    ensures r.Some? ==> |r.value| < |s|
  {
    if s == [] || !Digit(s[0]) then None
    else if s[0] == ZERO then Some(s[1..])
    else Some(SkipDigits(s[1..]))
  }

  function SkipFraction(s: Bytes): (r: Option<Bytes>)
    ensures r.Some? ==> |r.value| <= |s|
  {
    if s == [] || s[0] != DOT then Some(s)
    else if |s| < 2 || !Digit(s[1]) then None
    else Some(SkipDigits(s[1..]))
  }

  function SkipExponent(s: Bytes): (r: Option<Bytes>)
    ensures r.Some? ==> |r.value| <= |s|
  {
    if s == [] || (s[0] != 101 && s[0] != 69) then Some(s)
    else
      var t := if |s| > 1 && (s[1] == PLUS || s[1] == MINUS) then s[2..] else s[1..];
      if t == [] || !Digit(t[0]) then None else Some(SkipDigits(t))
  }

  /** What follows a number of the JSON grammar. */
  function SkipNumber(s: Bytes): (r: Option<Bytes>)
    ensures r.Some? ==> |r.value| < |s|
  {
    var t := if s != [] && s[0] == MINUS then s[1..] else s;
    var i := SkipInteger(t);
    if i.None? then None
    else
      var f := SkipFraction(i.value);
      if f.None? then None else SkipExponent(f.value)
  }

  /** What follows a string's closing quote, escapes not looked into. */
  function SkipRaw(s: Bytes): (r: Option<Bytes>)
    ensures r.Some? ==> |r.value| < |s|
    decreases |s|
  {
    if s == [] then None
    else if s[0] == BACKSLASH then if |s| < 2 then None else SkipRaw(s[2..])
    else if s[0] == QUOTE then Some(s[1..])
    else SkipRaw(s[1..])
  }

  /** What follows a balanced object or array, `depth` brackets being open already. */
  function SkipComposite(s: Bytes, depth: nat): (r: Option<Bytes>)
    ensures r.Some? ==> |r.value| < |s|
    decreases |s|
  {
    if s == [] then None
    else if s[0] == QUOTE then
      if SkipRaw(s[1..]).None? then None else SkipComposite(SkipRaw(s[1..]).value, depth)
    else if s[0] == LBRACE || s[0] == LBRACKET then SkipComposite(s[1..], depth + 1)
    else if s[0] == RBRACE || s[0] == RBRACKET then
      if depth == 1 then Some(s[1..]) else if depth == 0 then None else SkipComposite(s[1..], depth - 1)
    else SkipComposite(s[1..], depth)
  }

  function Text(s: Bytes, rest: Option<Bytes>): Option<(Bytes, Bytes)>
    requires rest.Some? ==> |rest.value| <= |s|
  {
    if rest.None? then None else Some((s[..|s| - |rest.value|], rest.value))
  }

  /** A value's text and what follows it. */
  function ScanValue(env: Env, s: Bytes): (r: Option<(Bytes, Bytes)>)
    ensures r.Some? ==> |r.value.1| < |s|
  {
    if s == [] then None
    else if s[0] == QUOTE then ScanString(s)
    else if s[0] == 116 then if TRUE <= s then Some((TRUE, s[4..])) else None
    else if s[0] == 102 then if FALSE <= s then Some((FALSE, s[5..])) else None
    else if s[0] == 110 then if NULL <= s then Some(([], s[4..])) else None
    else if s[0] == MINUS || Digit(s[0]) then Text(s, SkipNumber(s))
    else if s[0] == LBRACE || s[0] == LBRACKET then
      var t := Text(s, SkipComposite(s, 0));
      if t.Some? && env.validJson(t.value.0) then t else None
    else None
  }

  /** A colon and the value after it. */
  function AfterKey(env: Env, s: Bytes): (r: Option<(Bytes, Bytes)>)
    ensures r.Some? ==> |r.value.1| < |s|
  {
    var t := SkipSpace(s);
    if t == [] || t[0] != COLON then None else ScanValue(env, SkipSpace(t[1..]))
  }

  /** One `"key":value` and what follows it. */
  function ScanPair(env: Env, s: Bytes): (r: Option<(Field, Bytes)>)
    ensures r.Some? ==> |r.value.1| < |s|
  {
    var k := ScanString(s);
    if k.None? then None
    else
      var v := AfterKey(env, k.value.1);
      if v.None? then None else Some((Field(k.value.0, v.value.0), v.value.1))
  }

  datatype Step = End | Malformed | More(field: Field, rest: Bytes)

  /** The next pair of an object, or its closing brace, which must end the line. */
  function NextPair(env: Env, s: Bytes, first: bool): (r: Step)
    ensures r.More? ==> |r.rest| < |s|
  {
    var t := SkipSpace(s);
    if t == [] then Malformed
    else if t[0] == RBRACE then if SkipSpace(t[1..]) == [] then End else Malformed
    else if !first && t[0] != COMMA then Malformed
    else
      var u := if first then t else SkipSpace(t[1..]);
      if u == [] || u[0] == RBRACE then Malformed
      else
        var p := ScanPair(env, u);
        if p.None? then Malformed else More(p.value.0, p.value.1)
  }

  function Then(done: seq<Field>, more: Option<seq<Field>>): Option<seq<Field>> {
    if more.None? then None else Some(done + more.value)
  }

  function ScanPairs(env: Env, s: Bytes, first: bool): Option<seq<Field>>
    decreases |s|
  {
    match NextPair(env, s, first)
    case End => Some([])
    case Malformed => None
    case More(f, rest) => Then([f], ScanPairs(env, rest, false))
  }

  function ScanObject(env: Env, line: Bytes): Option<seq<Field>> {
    var s := SkipSpace(line);
    if s == [] || s[0] != LBRACE then None else ScanPairs(env, s[1..], true)
  }

  /** The instant of the first `_time` that can be read. */
  function Lifted(env: Env, fs: seq<Field>): Option<int64> {
    if fs == [] then None
    else
      var n := |fs| - 1;
      var before := Lifted(env, fs[..n]);
      if before.Some? then before
      else if fs[n].key == TIME then env.parse(fs[n].value)
      else None
  }

  function RowOf(env: Env, fs: seq<Field>): Row {
    var t := Lifted(env, fs);
    if t.Some? then Row(t.value, false, fs) else Row(0, true, fs)
  }

  /** Whatever is not a flat object is the whole line as a message. */
  function Decode(env: Env, line: Bytes): Row {
    var fs := ScanObject(env, line);
    if fs.Some? then RowOf(env, fs.value) else Row(0, false, [Field(MSG, line)])
  }

  /** The cheap check made on every line of every shard's body. */
  predicate LooksLikeObject(line: Bytes) {
    var s := SkipSpace(line);
    && s != [] && s[0] == LBRACE
    && var end := SkipComposite(s, 0);
       end.Some? && SkipSpace(end.value) == []
  }

  /** A body cut at its newlines, empty lines dropped. */
  function Lines(body: Bytes): seq<Bytes> {
    SplitFrom([], body)
  }

  /** The lines of a body whose current line already holds `current`. */
  function SplitFrom(current: Bytes, body: Bytes): seq<Bytes>
    decreases |body|
  {
    if body == [] then Whole(current)
    else if body[0] == NEWLINE then Whole(current) + SplitFrom([], body[1..])
    else SplitFrom(current + [body[0]], body[1..])
  }

  function Whole(line: Bytes): seq<Bytes> {
    if line == [] then [] else [line]
  }

  /** `"_time":"`, the mark the merge looks for in a line. */
  const TIME_MARK: Bytes := [34, 95, 116, 105, 109, 101, 34, 58, 34]

  /** What follows the first occurrence of a mark. */
  function After(s: Bytes, mark: Bytes): Option<Bytes> {
    if mark <= s then Some(s[|mark|..]) else if s == [] then None else After(s[1..], mark)
  }

  /** What stands before the first occurrence of a byte. */
  function UpTo(s: Bytes, c: byte): Option<Bytes> {
    if s == [] then None
    else if s[0] == c then Some([])
    else
      var r := UpTo(s[1..], c);
      if r.None? then None else Some([s[0]] + r.value)
  }

  /** The key the merge orders a line by; zero when it carries no readable time. */
  function LineTime(env: Env, line: Bytes): int64 {
    var s := After(line, TIME_MARK);
    var text := if s.None? then None else UpTo(s.value, QUOTE);
    if text.None? then 0
    else if env.fast(text.value).Some? then env.fast(text.value).value
    else if env.parse(text.value).Some? then env.parse(text.value).value
    else 0
  }
}
