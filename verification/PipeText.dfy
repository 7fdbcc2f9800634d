/** Cutting a query's text at its pipes. The shard query is the caller's own text, cut: the head and as
many segments as the planner kept, joined again. What is proved is that a shard cutting that text
finds exactly those segments. Which characters are white space is a parameter; the special ones are
not. */
module PipeText {

  datatype Quote = Open(mark: char) | Closed

  /** Bracket depth (which may go negative), the open quote, and whether the next character is escaped. */
  datatype State = State(depth: int, quote: Quote, escaped: bool)

  const START := State(0, Closed, false)

  predicate Opening(c: char) {
    c == '(' || c == '[' || c == '{'
  }

  predicate Closing(c: char) {
    c == ')' || c == ']' || c == '}'
  }

  predicate Mark(c: char) {
    c == '"' || c == '\'' || c == '`'
  }

  predicate Special(c: char) {
    Opening(c) || Closing(c) || Mark(c) || c == '|' || c == '\\'
  }

  ghost predicate Spaces(space: char -> bool) {
    space(' ') && forall c | Special(c) :: !space(c)
  }

  predicate Cuts(st: State, c: char) {
    !st.escaped && st.quote.Closed? && st.depth == 0 && c == '|'
  }

  function Next(st: State, c: char): State {
    if st.escaped then st.(escaped := false)
    else if st.quote.Open? then
      if c == '\\' then st.(escaped := true)
      else if c == st.quote.mark then st.(quote := Closed)
      else st
    else if Mark(c) then st.(quote := Open(c))
    else if Opening(c) then st.(depth := st.depth + 1)
    else if Closing(c) then st.(depth := st.depth - 1)
    else st
  }

  function TrimLeft(space: char -> bool, s: string): string {
    if s != "" && space(s[0]) then TrimLeft(space, s[1..]) else s
  }

  function TrimRight(space: char -> bool, s: string): string {
    if s != "" && space(s[|s| - 1]) then TrimRight(space, s[..|s| - 1]) else s
  }

  function Trim(space: char -> bool, s: string): string {
    TrimRight(space, TrimLeft(space, s))
  }

  /** The segments of what is left of a text whose current segment so far is cur. */
  function Split(space: char -> bool, st: State, cur: string, rest: string): seq<string>
    decreases |rest|
  {
    if rest == "" then [Trim(space, cur)]
    else if Cuts(st, rest[0]) then [Trim(space, cur)] + Split(space, START, "", rest[1..])
    else Split(space, Next(st, rest[0]), cur + [rest[0]], rest[1..])
  }

  function Segments(space: char -> bool, raw: string): seq<string> {
    Split(space, START, "", raw)
  }

  /** The splitter as it runs: an index over the text, skipping the character after a backslash. */
  method PipeSegments(space: char -> bool, raw: string) returns (out: seq<string>)
    ensures out == Segments(space, raw)
  {
    out := [];
    var depth, start, i := 0, 0, 0;
    var quote := Closed;
    assert raw[0..] == raw && raw[0..0] == "";
    while i < |raw|
      invariant 0 <= start <= i <= |raw|
      invariant Splitting(space, raw, out, start, i, State(depth, quote, false))
    {
      if quote.Closed? && raw[i] == '|' && depth == 0 {
        CutStep(space, raw, out, start, i);
        out := out + [Trim(space, raw[start..i])];
        start := i + 1;
      } else {
        PassStep(space, raw, out, start, i, State(depth, quote, false));
        var escaped;
        depth, quote, escaped := Advance(depth, quote, raw[i]);
        if escaped {
          i := i + 1;
          if i == |raw| { break; }
          PassStep(space, raw, out, start, i, State(depth, quote, true));
        }
      }
      i := i + 1;
    }
    assert raw[|raw|..] == "" && raw[start..|raw|] == raw[start..];
    out := out + [Trim(space, raw[start..])];
  }

  /** What has been cut off so far, followed by the segments still to come, is all of them. */
  ghost predicate Splitting(space: char -> bool, raw: string, out: seq<string>, start: nat, i: nat, st: State)
    requires start <= i <= |raw|
  {
    out + Split(space, st, raw[start..i], raw[i..]) == Segments(space, raw)
  }

  lemma CutStep(space: char -> bool, raw: string, out: seq<string>, start: nat, i: nat)
    requires start <= i < |raw| && raw[i] == '|' && Splitting(space, raw, out, start, i, START)
    ensures Splitting(space, raw, out + [Trim(space, raw[start..i])], i + 1, i + 1, START)
  {
    SplitStep(space, START, raw, start, i);
    assert raw[i + 1..i + 1] == "";
    var seg, more := [Trim(space, raw[start..i])], Split(space, START, "", raw[i + 1..]);
    assert out + (seg + more) == out + seg + more;
  }

  lemma PassStep(space: char -> bool, raw: string, out: seq<string>, start: nat, i: nat, st: State)
    requires start <= i < |raw| && !Cuts(st, raw[i]) && Splitting(space, raw, out, start, i, st)
    ensures Splitting(space, raw, out, start, i + 1, Next(st, raw[i]))
  {
    SplitStep(space, st, raw, start, i);
  }

  /** What one character does to the depth and the quote. */
  method Advance(depth: int, quote: Quote, c: char) returns (d: int, q: Quote, escaped: bool)
    ensures State(d, q, escaped) == Next(State(depth, quote, false), c)
    ensures escaped ==> q.Open?
  {
    d, q, escaped := depth, quote, false;
    if quote.Open? {
      if c == '\\' {
        escaped := true;
      } else if c == quote.mark {
        q := Closed;
      }
    } else if Mark(c) {
      q := Open(c);
    } else if Opening(c) {
      d := d + 1;
    } else if Closing(c) {
      d := d - 1;
    }
  }

  lemma SplitStep(space: char -> bool, st: State, raw: string, start: nat, i: nat)
    requires start <= i < |raw|
    ensures Split(space, st, raw[start..i], raw[i..]) ==
            if Cuts(st, raw[i]) then [Trim(space, raw[start..i])] + Split(space, START, "", raw[i + 1..])
            else Split(space, Next(st, raw[i]), raw[start..i + 1], raw[i + 1..])
  {
    var rest := raw[i..];
    assert |rest| == |raw| - i && rest[0] == raw[i];
    assert rest[1..] == raw[i + 1..];
    assert raw[start..i] + [rest[0]] == raw[start..i + 1];
    assert Split(space, st, raw[start..i], rest) ==
           if Cuts(st, rest[0]) then [Trim(space, raw[start..i])] + Split(space, START, "", rest[1..])
           else Split(space, Next(st, rest[0]), raw[start..i] + [rest[0]], rest[1..]);
  }

  // ------------------------------------------------------------------ running over a segment

  function Run(st: State, s: string): State {
    if s == "" then st else Next(Run(st, s[..|s| - 1]), s[|s| - 1])
  }

  /** No pipe is met on the way. */
  predicate Uncut(st: State, s: string) {
    s == "" || (Uncut(st, s[..|s| - 1]) && !Cuts(Run(st, s[..|s| - 1]), s[|s| - 1]))
  }

  lemma RunSnoc(st: State, s: string, c: char)
    ensures Run(st, s + [c]) == Next(Run(st, s), c)
    ensures Uncut(st, s + [c]) <==> Uncut(st, s) && !Cuts(Run(st, s), c)
  {
    var t := s + [c];
    assert t != "" && t[..|t| - 1] == s && t[|t| - 1] == c;
    assert Run(st, t) == Next(Run(st, t[..|t| - 1]), t[|t| - 1]);
    assert Uncut(st, t) <==> Uncut(st, t[..|t| - 1]) && !Cuts(Run(st, t[..|t| - 1]), t[|t| - 1]);
  }

  lemma {:induction false} RunConcat(st: State, a: string, b: string)
    ensures Run(st, a + b) == Run(Run(st, a), b)
    ensures Uncut(st, a + b) <==> Uncut(st, a) && Uncut(Run(st, a), b)
  {
    if b == "" {
      assert a + b == a;
    } else {
      var n := |b| - 1;
      RunConcat(st, a, b[..n]);
      RunSnoc(st, a + b[..n], b[n]);
      RunSnoc(Run(st, a), b[..n], b[n]);
      assert a + b == a + b[..n] + [b[n]] && b == b[..n] + [b[n]];
    }
  }

  /** Splitting passes over an uncut stretch. */
  lemma {:induction false} SplitPasses(space: char -> bool, st: State, cur: string, s: string, rest: string)
    requires Uncut(st, s)
    ensures Split(space, st, cur, s + rest) == Split(space, Run(st, s), cur + s, rest)
    decreases |s|
  {
    if s == "" {
      assert s + rest == rest && cur + s == cur;
    } else {
      var c, tail := s[0], s[1..];
      assert s == [c] + tail;
      RunConcat(st, [c], tail);
      RunSnoc(st, "", c);
      assert "" + [c] == [c];
      assert (s + rest)[0] == c && (s + rest)[1..] == tail + rest;
      SplitPasses(space, Next(st, c), cur + [c], tail, rest);
      assert cur + [c] + tail == cur + s;
    }
  }

  // ------------------------------------------------------------------ what is one piece

  /** A quoted text is made of characters and of escapes, a backslash before any character. */
  datatype Unit = Bare(c: char) | Escape(c: char)

  function Spelled(units: seq<Unit>): string {
    if units == [] then ""
    else
      var last := units[|units| - 1];
      Spelled(units[..|units| - 1]) + if last.Bare? then [last.c] else ['\\', last.c]
  }

  predicate Quotable(mark: char, units: seq<Unit>) {
    forall i | 0 <= i < |units| && units[i].Bare? :: units[i].c != mark && units[i].c != '\\'
  }

  lemma {:induction false} QuoteStays(mark: char, depth: int, units: seq<Unit>)
    requires Mark(mark) && Quotable(mark, units)
    ensures var st := State(depth, Open(mark), false); Run(st, Spelled(units)) == st && Uncut(st, Spelled(units))
  {
    if units != [] {
      var n := |units| - 1;
      var st, done := State(depth, Open(mark), false), Spelled(units[..n]);
      QuoteStays(mark, depth, units[..n]);
      if units[n].Bare? {
        RunSnoc(st, done, units[n].c);
      } else {
        RunSnoc(st, done, '\\');
        RunSnoc(st, done + ['\\'], units[n].c);
        assert done + ['\\'] + [units[n].c] == done + ['\\', units[n].c];
      }
    }
  }

  function InQuotes(mark: char, units: seq<Unit>): string {
    [mark] + Spelled(units) + [mark]
  }

  /** A quoted text is passed over at any depth, whatever pipes, brackets, other marks and escapes are
      in it. */
  lemma QuotedRuns(mark: char, units: seq<Unit>, depth: int)
    requires Mark(mark) && Quotable(mark, units)
    ensures var st := State(depth, Closed, false);
            Run(st, InQuotes(mark, units)) == st && Uncut(st, InQuotes(mark, units))
  {
    var st := State(depth, Closed, false);
    RunSnoc(st, "", mark);
    assert "" + [mark] == [mark];
    QuoteStays(mark, depth, units);
    RunConcat(st, [mark], Spelled(units));
    RunSnoc(st, [mark] + Spelled(units), mark);
  }

  lemma QuotedIsOnePiece(mark: char, units: seq<Unit>)
    requires Mark(mark) && Quotable(mark, units)
    ensures Whole(InQuotes(mark, units))
  {
    QuotedRuns(mark, units, 0);
  }

  /** Text whose quotes and brackets are balanced; which bracket closes which does not matter. */
  datatype Piece = Char(c: char) | Quoted(mark: char, units: seq<Unit>) | Group(open: char, inner: seq<Piece>, close: char)

  function Show(p: Piece): string {
    match p
    case Char(c) => [c]
    case Quoted(mark, units) => InQuotes(mark, units)
    case Group(open, inner, close) => [open] + ShowAll(inner) + [close]
  }

  function ShowAll(pieces: seq<Piece>): string {
    if pieces == [] then "" else ShowAll(pieces[..|pieces| - 1]) + Show(pieces[|pieces| - 1])
  }

  /** A pipe may stand in a quote or a group, and on the outside only if that is not the top. */
  predicate Balanced(p: Piece, top: bool) {
    match p
    case Char(c) => !Mark(c) && !Opening(c) && !Closing(c) && (top ==> c != '|')
    case Quoted(mark, units) => Mark(mark) && Quotable(mark, units)
    case Group(open, inner, close) => Opening(open) && Closing(close) && AllBalanced(inner, false)
  }

  predicate AllBalanced(pieces: seq<Piece>, top: bool) {
    forall i | 0 <= i < |pieces| :: Balanced(pieces[i], top)
  }

  lemma CharRuns(c: char, depth: nat)
    requires Balanced(Char(c), depth == 0)
    ensures var st := State(depth, Closed, false); Run(st, [c]) == st && Uncut(st, [c])
  {
    RunSnoc(State(depth, Closed, false), "", c);
    assert "" + [c] == [c];
  }

  /** Brackets around what is passed over one level deeper. */
  lemma GroupRuns(open: char, text: string, close: char, depth: nat)
    requires Opening(open) && Closing(close)
    requires var inside := State(depth + 1, Closed, false); Run(inside, text) == inside && Uncut(inside, text)
    ensures var st := State(depth, Closed, false);
            Run(st, [open] + text + [close]) == st && Uncut(st, [open] + text + [close])
  {
    var st := State(depth, Closed, false);
    RunSnoc(st, "", open);
    assert "" + [open] == [open];
    RunConcat(st, [open], text);
    RunSnoc(st, [open] + text, close);
  }

  lemma {:induction false} PieceRuns(p: Piece, depth: nat)
    requires Balanced(p, depth == 0)
    ensures var st := State(depth, Closed, false); Run(st, Show(p)) == st && Uncut(st, Show(p))
    decreases p
  {
    match p
    case Char(c) => CharRuns(c, depth);
    case Quoted(mark, units) => QuotedRuns(mark, units, depth);
    case Group(open, inner, close) =>
      PiecesRun(inner, depth + 1);
      GroupRuns(open, ShowAll(inner), close, depth);
  }

  lemma {:induction false} PiecesRun(pieces: seq<Piece>, depth: nat)
    requires AllBalanced(pieces, depth == 0)
    ensures var st := State(depth, Closed, false); Run(st, ShowAll(pieces)) == st && Uncut(st, ShowAll(pieces))
    decreases pieces
  {
    if pieces != [] {
      var n := |pieces| - 1;
      PiecesRun(pieces[..n], depth);
      PieceRuns(pieces[n], depth);
      RunConcat(State(depth, Closed, false), ShowAll(pieces[..n]), Show(pieces[n]));
    }
  }

  /** Balanced text without a pipe of its own at the top is one segment: the pipes in its quotes and
      brackets, however deep, never cut it. */
  lemma BalancedIsOnePiece(pieces: seq<Piece>)
    requires AllBalanced(pieces, true)
    ensures Whole(ShowAll(pieces))
  {
    PiecesRun(pieces, 0);
  }

  /** A bracketed text is never cut, whichever brackets are used and whatever is nested in it. */
  lemma BracketedIsOnePiece(open: char, inner: seq<Piece>, close: char)
    requires Opening(open) && Closing(close) && AllBalanced(inner, false)
    ensures Whole([open] + ShowAll(inner) + [close])
  {
    PieceRuns(Group(open, inner, close), 0);
  }

  // ------------------------------------------------------------------ trimming

  predicate AllSpace(space: char -> bool, s: string) {
    forall i | 0 <= i < |s| :: space(s[i])
  }

  lemma {:induction false} LeftParts(space: char -> bool, s: string)
    ensures exists ws :: AllSpace(space, ws) && s == ws + TrimLeft(space, s)
  {
    if s != "" && space(s[0]) {
      LeftParts(space, s[1..]);
      var ws :| AllSpace(space, ws) && s[1..] == ws + TrimLeft(space, s[1..]);
      assert AllSpace(space, [s[0]] + ws) && s == [s[0]] + ws + TrimLeft(space, s);
    } else {
      assert AllSpace(space, "") && s == "" + TrimLeft(space, s);
    }
  }

  lemma {:induction false} RightParts(space: char -> bool, s: string)
    ensures exists ws :: AllSpace(space, ws) && s == TrimRight(space, s) + ws
  {
    if s != "" && space(s[|s| - 1]) {
      var n := |s| - 1;
      RightParts(space, s[..n]);
      var ws :| AllSpace(space, ws) && s[..n] == TrimRight(space, s[..n]) + ws;
      assert AllSpace(space, ws + [s[n]]) && s == TrimRight(space, s) + (ws + [s[n]]);
    } else {
      assert AllSpace(space, "") && s == TrimRight(space, s) + "";
    }
  }

  /** White space outside quotes changes nothing. */
  lemma {:induction false} SpaceRuns(space: char -> bool, st: State, ws: string)
    requires Spaces(space) && AllSpace(space, ws) && st.quote.Closed? && !st.escaped
    ensures Run(st, ws) == st && Uncut(st, ws)
  {
    if ws != "" {
      SpaceRuns(space, st, ws[..|ws| - 1]);
    }
  }

  /** White space never closes a quote. */
  lemma {:induction false} SpaceKeepsQuote(space: char -> bool, st: State, ws: string)
    requires Spaces(space) && AllSpace(space, ws) && (st.quote.Open? ==> Mark(st.quote.mark))
    requires Run(st, ws).quote.Closed? && (st.escaped ==> st.quote.Open?)
    ensures st.quote.Closed? && !st.escaped
  {
    if ws != "" {
      var n := |ws| - 1;
      RunMark(st, ws[..n]);
      SpaceKeepsQuote(space, st, ws[..n]);
    }
  }

  /** An open quote is always a quote mark, and only inside one is anything escaped. */
  lemma {:induction false} RunMark(st: State, s: string)
    requires (st.quote.Open? ==> Mark(st.quote.mark)) && (st.escaped ==> st.quote.Open?)
    ensures Run(st, s).quote.Open? ==> Mark(Run(st, s).quote.mark)
    ensures Run(st, s).escaped ==> Run(st, s).quote.Open?
  {
    if s != "" { RunMark(st, s[..|s| - 1]); }
  }

  predicate Trimmed(space: char -> bool, s: string) {
    s == "" || (!space(s[0]) && !space(s[|s| - 1]))
  }

  lemma {:induction false} LeftTrimmed(space: char -> bool, s: string)
    ensures TrimLeft(space, s) == "" || !space(TrimLeft(space, s)[0])
  {
    if s != "" && space(s[0]) { LeftTrimmed(space, s[1..]); }
  }

  lemma {:induction false} RightTrimmed(space: char -> bool, s: string)
    ensures TrimRight(space, s) <= s
    ensures TrimRight(space, s) == "" || !space(TrimRight(space, s)[|TrimRight(space, s)| - 1])
  {
    if s != "" && space(s[|s| - 1]) { RightTrimmed(space, s[..|s| - 1]); }
  }

  lemma TrimTrimmed(space: char -> bool, s: string)
    ensures Trimmed(space, Trim(space, s))
  {
    LeftTrimmed(space, s);
    RightTrimmed(space, TrimLeft(space, s));
  }

  lemma TrimmedFixed(space: char -> bool, s: string)
    requires Trimmed(space, s)
    ensures Trim(space, s) == s
  {
  }

  lemma {:induction false} TrimLeftAfter(space: char -> bool, ws: string, s: string)
    requires AllSpace(space, ws)
    ensures TrimLeft(space, ws + s) == TrimLeft(space, s)
  {
    if ws == "" {
      assert ws + s == s;
    } else {
      assert (ws + s)[1..] == ws[1..] + s;
      TrimLeftAfter(space, ws[1..], s);
    }
  }

  // ------------------------------------------------------------------ segments

  /** A segment that can be followed by a pipe. */
  predicate Whole(s: string) {
    Uncut(START, s) && Run(START, s) == START
  }

  /** Trimming keeps a segment in one piece, and a finished one finished. */
  lemma TrimKeeps(space: char -> bool, s: string)
    requires Spaces(space) && Uncut(START, s)
    ensures Uncut(START, Trim(space, s))
    ensures Run(START, s) == START ==> Whole(Trim(space, s))
  {
    LeftParts(space, s);
    var left := TrimLeft(space, s);
    var ws :| AllSpace(space, ws) && s == ws + left;
    SpaceRuns(space, START, ws);
    RunConcat(START, ws, left);
    RightParts(space, left);
    var t := TrimRight(space, left);
    var we :| AllSpace(space, we) && left == t + we;
    RunConcat(START, t, we);
    if Run(START, s) == START {
      RunMark(START, t);
      SpaceKeepsQuote(space, Run(START, t), we);
      SpaceRuns(space, Run(START, t), we);
    }
  }

  /** Every segment is in one piece and trimmed; every one but the last is finished. */
  ghost predicate Proper(space: char -> bool, segs: seq<string>) {
    && segs != []
    && (forall i | 0 <= i < |segs| :: Uncut(START, segs[i]) && Trimmed(space, segs[i]))
    && (forall i | 0 <= i < |segs| - 1 :: Whole(segs[i]))
  }

  lemma {:induction false} SplitProper(space: char -> bool, cur: string, rest: string)
    requires Spaces(space) && Uncut(START, cur)
    ensures Proper(space, Split(space, Run(START, cur), cur, rest))
    decreases |rest|
  {
    TrimKeeps(space, cur);
    TrimTrimmed(space, cur);
    if rest != "" {
      var st := Run(START, cur);
      if Cuts(st, rest[0]) {
        SplitProper(space, "", rest[1..]);
      } else {
        RunSnoc(START, cur, rest[0]);
        SplitProper(space, cur + [rest[0]], rest[1..]);
      }
    }
  }

  // ------------------------------------------------------------------ joining again

  function Join(segs: seq<string>): string
    requires segs != []
  {
    if |segs| == 1 then segs[0] else segs[0] + " | " + Join(segs[1..])
  }

  lemma {:induction false} JoinSnoc(segs: seq<string>, seg: string)
    requires segs != []
    ensures Join(segs + [seg]) == Join(segs) + " | " + seg
  {
    assert (segs + [seg])[1..] == segs[1..] + [seg];
    if |segs| == 1 {
      assert segs[1..] + [seg] == [seg];
    } else {
      JoinSnoc(segs[1..], seg);
      assert segs[0] + " | " + (Join(segs[1..]) + " | " + seg) == segs[0] + " | " + Join(segs[1..]) + " | " + seg;
    }
  }

  /** The text sent to the shards, built segment by segment. */
  method ShardText(segs: seq<string>, push: nat) returns (text: string)
    requires push < |segs|
    ensures text == Join(segs[..push + 1])
  {
    text := segs[0];
    var i := 1;
    assert segs[..1] == [segs[0]];
    while i <= push
      invariant 1 <= i <= push + 1
      invariant text == Join(segs[..i])
    {
      JoinSnoc(segs[..i], segs[i]);
      assert segs[..i] + [segs[i]] == segs[..i + 1];
      text := text + " | " + segs[i];
      i := i + 1;
    }
  }

  /** Leading white space of a segment is forgotten. */
  lemma {:induction false} SplitForgets(space: char -> bool, st: State, ws: string, cur: string, rest: string)
    requires AllSpace(space, ws)
    ensures Split(space, st, ws + cur, rest) == Split(space, st, cur, rest)
    decreases |rest|
  {
    TrimLeftAfter(space, ws, cur);
    if rest != "" && !Cuts(st, rest[0]) {
      assert ws + cur + [rest[0]] == ws + (cur + [rest[0]]);
      SplitForgets(space, Next(st, rest[0]), ws, cur + [rest[0]], rest[1..]);
    }
  }

  lemma TrimTrailing(space: char -> bool, s: string)
    requires Spaces(space) && Trimmed(space, s)
    ensures Trim(space, s + " ") == s
  {
    var t := s + " ";
    assert t[..|s|] == s;
    if s == "" {
      assert t[1..] == "" && TrimLeft(space, t) == "";
    } else {
      assert TrimLeft(space, t) == t;
      assert TrimRight(space, t) == TrimRight(space, s);
    }
  }

  /** One segment and its pipe. */
  lemma SplitHead(space: char -> bool, seg: string, rest: string)
    requires Spaces(space) && Whole(seg) && Trimmed(space, seg)
    ensures Segments(space, seg + " | " + rest) == [seg] + Segments(space, rest)
  {
    assert seg + " | " + rest == seg + (" | " + rest);
    SplitPasses(space, START, "", seg, " | " + rest);
    assert "" + seg == seg;
    assert (" | " + rest)[1..] == "| " + rest;
    assert ("| " + rest)[1..] == " " + rest;
    assert (" " + rest)[1..] == rest;
    assert Split(space, START, seg, " | " + rest) == Split(space, START, seg + " ", "| " + rest);
    TrimTrailing(space, seg);
    assert Split(space, START, "", " " + rest) == Split(space, START, " ", rest) by { assert "" + " " == " "; }
    SplitForgets(space, START, " ", "", rest);
    assert " " + "" == " ";
  }

  lemma {:induction false} RejoinProper(space: char -> bool, segs: seq<string>)
    requires Spaces(space) && Proper(space, segs)
    ensures Segments(space, Join(segs)) == segs
  {
    if |segs| == 1 {
      SplitPasses(space, START, "", segs[0], "");
      assert segs[0] + "" == segs[0] && "" + segs[0] == segs[0];
      TrimmedFixed(space, segs[0]);
    } else {
      assert forall i | 0 <= i < |segs[1..]| :: segs[1..][i] == segs[i + 1];
      RejoinProper(space, segs[1..]);
      SplitHead(space, segs[0], Join(segs[1..]));
      assert [segs[0]] + segs[1..] == segs;
    }
  }

  /** The text sent to the shards, the head and the first `push` pipes of any query whatever, is cut
      by a shard into exactly those segments. */
  lemma ShardTextResplits(space: char -> bool, raw: string, push: nat)
    requires Spaces(space) && push < |Segments(space, raw)|
    ensures Segments(space, Join(Segments(space, raw)[..push + 1])) == Segments(space, raw)[..push + 1]
  {
    var segs := Segments(space, raw);
    SplitProper(space, "", raw);
    assert Proper(space, segs[..push + 1]);
    RejoinProper(space, segs[..push + 1]);
  }

  /** Any balanced texts, trimmed and without a pipe of their own at the top, are cut apart exactly at the
      pipes between them. */
  lemma CutExactly(space: char -> bool, texts: seq<seq<Piece>>, segs: seq<string>)
    requires Spaces(space) && texts != [] && |segs| == |texts|
    requires forall i | 0 <= i < |texts| :: AllBalanced(texts[i], true) && segs[i] == ShowAll(texts[i]) && Trimmed(space, segs[i])
    ensures Segments(space, Join(segs)) == segs
  {
    forall i | 0 <= i < |segs| ensures Whole(segs[i]) { BalancedIsOnePiece(texts[i]); }
    RejoinProper(space, segs);
  }
}
