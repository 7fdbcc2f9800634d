/** Syslog framing over a byte stream, both framings of RFC 6587: octet counting (section 3.4.1) and
newline framing (section 3.4.2). A line is read through a buffer of a fixed size. The end of the stream
is reported on a read of its own, as a connection does. */
module Syslog {
  import opened Basics
  import opened RowCodec
  import opened RowCodecGrammar

  datatype Outcome = Message(text: Bytes, counted: bool) | EndOfStream | TooLarge | BadCount | Truncated

  // ------------------------------------------------------------------ what a read may answer

  /** Where the first line ends, its newline included, or the end of the stream. */
  function LineEnd(s: Bytes): (e: nat)
    ensures e <= |s|
    ensures NEWLINE !in s[..e] || (e > 0 && s[e - 1] == NEWLINE && NEWLINE !in s[..e - 1])
    ensures NEWLINE !in s[..e] ==> e == |s|
  {
    if s == [] then 0
    else if s[0] == NEWLINE then 1
    else
      var e := 1 + LineEnd(s[1..]);
      assert s[..e] == [s[0]] + s[1..][..e - 1];
      assert e > 1 ==> s[..e - 1] == [s[0]] + s[1..][..e - 2];
      e
  }

  function TrimEOL(s: Bytes): (r: Bytes)
    ensures |r| <= |s| && r == s[..|r|]
    ensures forall i | |r| <= i < |s| :: s[i] == NEWLINE || s[i] == 13
    ensures r == [] || (r[|r| - 1] != NEWLINE && r[|r| - 1] != 13)
  {
    if s != [] && (s[|s| - 1] == NEWLINE || s[|s| - 1] == 13) then TrimEOL(s[..|s| - 1]) else s
  }

  /** An octet-counted frame, n and digits being what was read of its count. A stream that ends inside
      the count ends cleanly; one that ends inside the payload is cut short. */
  function Counted(s: Bytes, n: nat, digits: nat, max: nat): (Outcome, Bytes) {
    if s == [] then (EndOfStream, s)
    else if s[0] == SPACE then
      if digits == 0 then (BadCount, s[1..])
      else if |s| - 1 < n then (Truncated, [])
      else (Message(s[1..n + 1], true), s[n + 1..])
    else if !Digit(s[0]) then (BadCount, s[1..])
    else if digits + 1 > 10 || n * 10 + (s[0] - 48) > max then (TooLarge, s[1..])
    else Counted(s[1..], n * 10 + (s[0] - 48), digits + 1, max)
  }

  predicate HasNewline(s: Bytes) {
    LineEnd(s) > 0 && s[LineEnd(s) - 1] == NEWLINE
  }

  lemma HasNewlineExactly(s: Bytes)
    ensures HasNewline(s) <==> NEWLINE in s
  {
    var e := LineEnd(s);
    if NEWLINE !in s[..e] { assert s[..e] == s; } else { assert s[e - 1] in s; }
  }

  /** The first line fits a buffer: its newline is inside it, or the stream ends before it is full. */
  predicate FitsBuffer(s: Bytes, size: nat) {
    if HasNewline(s) then LineEnd(s) <= size else LineEnd(s) < size
  }

  /** A newline-framed message. One that fits the buffer is measured without its terminator, a longer
      one with it. */
  function LineFrame(s: Bytes, size: nat, max: nat): (Outcome, Bytes) {
    var e := LineEnd(s);
    var text := TrimEOL(s[..e]);
    if (if FitsBuffer(s, size) then |text| else e) > max then (TooLarge, [])
    else if FitsBuffer(s, size) && !HasNewline(s) && text == [] then (EndOfStream, [])
    else (Message(text, false), s[e..])
  }

  /** What one read answers and leaves unread. After an error the connection is closed. */
  function Read(s: Bytes, size: nat, max: nat): (Outcome, Bytes) {
    var t := SkipSpace(s);
    if t == [] then (EndOfStream, [])
    else if Digit(t[0]) then Counted(t, 0, 0, max)
    else LineFrame(t, size, max)
  }

  // ------------------------------------------------------------------ the reader

  datatype Chunk = Found | Full | AtEnd

  const MIN_BUFFER: nat := 16
  type BufferSize = n: nat | n >= MIN_BUFFER witness MIN_BUFFER

  class FrameReader {
    /** What has not been read yet. */
    var rest: Bytes
    const size: BufferSize
    const max: nat

    constructor (stream: Bytes, asked: int, max: nat)
      ensures rest == stream && this.max == max
      ensures size == if asked < MIN_BUFFER then MIN_BUFFER else asked
    {
      rest, this.max := stream, max;
      size := if asked < MIN_BUFFER then MIN_BUFFER else asked;
    }

    /** Up to and including a newline, or a full buffer without one, or what is left of the stream. */
    method ReadSlice() returns (chunk: Bytes, how: Chunk)
      modifies this
      ensures old(rest) == chunk + rest
      ensures how == Full <==> !FitsBuffer(old(rest), size)
      ensures how == Full ==> NEWLINE !in chunk && |chunk| == size
      ensures how != Full ==> chunk == old(rest)[..LineEnd(old(rest))] && (how == Found <==> HasNewline(old(rest)))
    {
      var e := FindNewline();
      var found := e > 0 && rest[e - 1] == NEWLINE;
      if found && e <= size {
        chunk, rest, how := rest[..e], rest[e..], Found;
      } else if e >= size {
        var n := if found then e - 1 else e;
        assert rest[..size] == rest[..n][..size];
        chunk, rest, how := rest[..size], rest[size..], Full;
      } else {
        chunk, rest, how := rest, [], AtEnd;
      }
    }

    method FindNewline() returns (e: nat)
      ensures e == LineEnd(rest)
    {
      e := 0;
      assert rest[0..] == rest;
      while e < |rest|
        invariant 0 <= e <= |rest| && e + LineEnd(rest[e..]) == LineEnd(rest)
      {
        assert rest[e..][1..] == rest[e + 1..];
        if rest[e] == NEWLINE { return e + 1; }
        e := e + 1;
      }
    }

    method Next() returns (out: Outcome)
      modifies this
      ensures out == Read(old(rest), size, max).0
      ensures out.Message? ==> rest == Read(old(rest), size, max).1
    {
      ghost var was := rest;
      while rest != [] && IsSpace(rest[0])
        invariant SkipSpace(rest) == SkipSpace(was)
        decreases |rest|
      {
        rest := rest[1..];
      }
      if rest == [] { return EndOfStream; }
      if Digit(rest[0]) {
        out := OctetCounted();
      } else {
        out := NewlineFramed();
      }
    }

    method OctetCounted() returns (out: Outcome)
      modifies this
      ensures out == Counted(old(rest), 0, 0, max).0
      ensures out.Message? ==> rest == Counted(old(rest), 0, 0, max).1
    {
      var n, digits := 0, 0;
      while true
        invariant n >= 0 && digits >= 0
        invariant Counted(rest, n, digits, max) == Counted(old(rest), 0, 0, max)
        decreases |rest|
      {
        if rest == [] { return EndOfStream; }
        var c := rest[0];
        assert rest == [c] + rest[1..];
        rest := rest[1..];
        if c == SPACE { break; }
        if !Digit(c) { return BadCount; }
        digits := digits + 1;
        if digits > 10 { return TooLarge; }
        n := n * 10 + (c - 48);
        if n > max { return TooLarge; }
      }
      assert Counted([SPACE] + rest, n, digits, max) == Counted(old(rest), 0, 0, max);
      if digits == 0 { return BadCount; }
      if |rest| < n { return Truncated; }
      out := Message(rest[..n], true);
      ghost var frame := [SPACE] + rest;
      assert frame[1..] == rest;
      assert frame[1..n + 1] == frame[1..][..n];
      assert frame[n + 1..] == frame[1..][n..];
      rest := rest[n..];
    }

    method NewlineFramed() returns (out: Outcome)
      modifies this
      ensures out == LineFrame(old(rest), size, max).0
      ensures out.Message? ==> rest == LineFrame(old(rest), size, max).1
    {
      ghost var was := rest;
      var line, how := ReadSlice();
      if how != Full {
        assert rest == was[LineEnd(was)..];
        var msg := TrimEOL(line);
        if |msg| > max { return TooLarge; }
        if how == AtEnd && |msg| == 0 { return EndOfStream; }
        return Message(msg, false);
      }
      var buf := line;
      while true
        invariant was == buf + rest && NEWLINE !in buf && !FitsBuffer(was, size)
        decreases |rest|
      {
        ghost var before := rest;
        var more, how2 := ReadSlice();
        BufferGrows(was, buf, before, more, rest, how2);
        if |buf| + |more| > max { return TooLarge; }
        buf := buf + more;
        if how2 == Full { continue; }
        return Message(TrimEOL(buf), false);
      }
    }
  }

  lemma {:induction false} LineEndAfter(a: Bytes, b: Bytes)
    requires NEWLINE !in a
    ensures LineEnd(a + b) == |a| + LineEnd(b)
  {
    if a == [] {
      assert a + b == b;
    } else {
      assert a[0] in a && (a + b)[1..] == a[1..] + b;
      LineEndAfter(a[1..], b);
    }
  }

  /** One more chunk of a line that did not fit the buffer. */
  lemma BufferGrows(s: Bytes, buf: Bytes, before: Bytes, more: Bytes, rest: Bytes, how: Chunk)
    requires s == buf + before && before == more + rest && NEWLINE !in buf
    requires how == Full ==> NEWLINE !in more
    requires how != Full ==> more == before[..LineEnd(before)]
    ensures s == buf + more + rest && |buf| + |more| <= LineEnd(s)
    ensures how != Full ==> buf + more == s[..LineEnd(s)] && rest == s[LineEnd(s)..]
  {
    assert s == buf + more + rest;
    LineEndAfter(buf, before);
    if how == Full { LineEndAfter(more, rest); }
  }

  // ------------------------------------------------------------------ every frame sent is read

  datatype Frame = Octets(payload: Bytes) | Newlined(text: Bytes)

  function Decimal(n: nat): Bytes {
    if n < 10 then [48 + n] else Decimal(n / 10) + [48 + n % 10]
  }

  function Encode(f: Frame): Bytes {
    match f
    case Octets(p) => Decimal(|p|) + ([SPACE] + p)
    case Newlined(t) => t + [NEWLINE]
  }

  /** Frames a sender may send: a count of at most ten digits, a line that starts like a message, holds
      no newline and does not end in a carriage return; each fits, terminator included. */
  predicate Fits(f: Frame, max: nat) {
    match f
    case Octets(p) => 0 < |p| <= max && |p| < 10_000_000_000
    case Newlined(t) => t != [] && t[0] == 60 && NEWLINE !in t && t[|t| - 1] != 13 && |t| + 1 <= max
  }

  function Sent(f: Frame): Outcome {
    match f
    case Octets(p) => Message(p, true)
    case Newlined(t) => Message(t, false)
  }

  /** Frames back to back, each after any framing white space. */
  function Stream(gaps: seq<Bytes>, frames: seq<Frame>): Bytes
    requires |gaps| == |frames|
  {
    if frames == [] then [] else gaps[0] + (Encode(frames[0]) + Stream(gaps[1..], frames[1..]))
  }

  lemma {:induction false} DecimalDigits(n: nat)
    ensures |Decimal(n)| >= 1 && forall i | 0 <= i < |Decimal(n)| :: Digit(Decimal(n)[i])
  {
    if n >= 10 { DecimalDigits(n / 10); }
  }

  lemma {:induction false} DecimalLength(n: nat, k: nat)
    requires n < Pow10(k) && k >= 1
    ensures |Decimal(n)| <= k
  {
    if n >= 10 {
      assert Pow10(k) == 10 * Pow10(k - 1);
      DecimalLength(n / 10, k - 1);
    }
  }

  lemma CountedStep(d: byte, t: Bytes, n: nat, digits: nat, max: nat)
    requires Digit(d) && digits < 10 && n * 10 + (d - 48) <= max
    ensures Counted([d] + t, n, digits, max) == Counted(t, n * 10 + (d - 48), digits + 1, max)
  {
    assert ([d] + t)[1..] == t;
  }

  /** Reading a count reads the number. */
  lemma {:induction false} CountRead(n: nat, t: Bytes, max: nat)
    requires n <= max && |Decimal(n)| <= 10
    ensures Counted(Decimal(n) + t, 0, 0, max) == Counted(t, n, |Decimal(n)|, max)
  {
    if n < 10 {
      CountedStep(48 + n, t, 0, 0, max);
    } else {
      var d: byte := 48 + n % 10;
      assert Decimal(n) + t == Decimal(n / 10) + ([d] + t);
      CountRead(n / 10, [d] + t, max);
      CountedStep(d, t, n / 10, |Decimal(n / 10)|, max);
    }
  }

  /** The number a run of digits stands for. */
  function Value(ds: Bytes): nat
    requires forall i | 0 <= i < |ds| :: Digit(ds[i])
  {
    if ds == [] then 0 else assert Digit(ds[|ds| - 1]); Value(ds[..|ds| - 1]) * 10 + (ds[|ds| - 1] - 48)
  }

  lemma {:induction false} DecimalValue(n: nat)
    ensures (forall i | 0 <= i < |Decimal(n)| :: Digit(Decimal(n)[i])) && Value(Decimal(n)) == n
  {
    DecimalDigits(n);
    if n >= 10 {
      DecimalValue(n / 10);
      assert Decimal(n)[..|Decimal(n)| - 1] == Decimal(n / 10);
    } else {
      assert Decimal(n)[..0] == [];
    }
  }

  /** What is answered once the digits ds of a count are read and t is left. */
  ghost predicate CountAnswer(ds: Bytes, t: Bytes, max: nat, r: (Outcome, Bytes))
    requires forall i | 0 <= i < |ds| :: Digit(ds[i])
  {
    var n := Value(ds);
    if |ds| > 10 || n > max then r.0 == TooLarge
    else if t == [] then r.0 == EndOfStream
    else if t[0] != SPACE then r.0 == BadCount
    else if |t| - 1 < n then r.0 == Truncated
    else r == (Message(t[1..n + 1], true), t[n + 1..])
  }

  lemma {:induction false} CountedFrom(ds: Bytes, k: nat, t: Bytes, max: nat)
    requires (forall i | 0 <= i < |ds| :: Digit(ds[i])) && 0 < |ds| && k <= |ds| && k <= 10 && Value(ds[..k]) <= max
    requires t == [] || !Digit(t[0])
    ensures CountAnswer(ds, t, max, Counted(ds[k..] + t, Value(ds[..k]), k, max))
    decreases |ds| - k
  {
    if k == |ds| {
      assert ds[..k] == ds && ds[k..] + t == t;
    } else {
      var s := ds[k..] + t;
      assert s[0] == ds[k] && s[1..] == ds[k + 1..] + t;
      assert ds[..k + 1][..k] == ds[..k];
      if k + 1 > 10 || Value(ds[..k + 1]) > max {
        ValueGrows(ds, k + 1);
      } else {
        CountedFrom(ds, k + 1, t, max);
      }
    }
  }

  lemma {:induction false} ValueGrows(ds: Bytes, k: nat)
    requires (forall i | 0 <= i < |ds| :: Digit(ds[i])) && k <= |ds|
    ensures Value(ds[..k]) <= Value(ds)
    decreases |ds|
  {
    if k < |ds| {
      ValueGrows(ds[..|ds| - 1], k);
      assert ds[..|ds| - 1][..k] == ds[..k];
    } else {
      assert ds[..k] == ds;
    }
  }

  /** A read at a digit is decided by the whole run of digits and what follows it: too large from eleven
      digits or above the maximum, ended with the stream, malformed before anything but a space, cut
      short when the payload is, and otherwise the payload of that length. */
  lemma CountedExactly(ds: Bytes, t: Bytes, size: nat, max: nat)
    requires ds != [] && (forall i | 0 <= i < |ds| :: Digit(ds[i])) && (t == [] || !Digit(t[0]))
    ensures CountAnswer(ds, t, max, Read(ds + t, size, max))
  {
    assert ds[..0] == [] && ds[0..] == ds && (ds + t)[0] == ds[0];
    CountedFrom(ds, 0, t, max);
  }

  lemma OctetsRead(p: Bytes, rest: Bytes, max: nat)
    requires Fits(Octets(p), max)
    ensures Counted(Encode(Octets(p)) + rest, 0, 0, max) == (Message(p, true), rest)
    ensures Digit((Encode(Octets(p)) + rest)[0])
  {
    var t := [SPACE] + p + rest;
    DecimalDigits(|p|);
    assert Pow10(10) == 10_000_000_000 by { assert Pow10(5) == 100_000; }
    DecimalLength(|p|, 10);
    CountRead(|p|, t, max);
    assert Encode(Octets(p)) + rest == Decimal(|p|) + t;
    assert t[1..|p| + 1] == p && t[|p| + 1..] == rest;
  }

  lemma LineRead(text: Bytes, rest: Bytes, max: nat)
    requires Fits(Newlined(text), max)
    ensures var s := Encode(Newlined(text)) + rest;
            LineEnd(s) == |text| + 1 && TrimEOL(s[..LineEnd(s)]) == text && s[LineEnd(s)..] == rest
  {
    var s := Encode(Newlined(text)) + rest;
    var t := [NEWLINE] + rest;
    assert s == text + t;
    LineEndAfter(text, t);
    var line := text + [NEWLINE];
    assert s[..|text| + 1] == line && line[..|text|] == text;
  }

  /** A last line without its newline is read too, whatever the buffer's size. */
  lemma LastLineRead(g: Bytes, text: Bytes, size: nat, max: nat)
    requires Gap(g) && text != [] && text[0] == 60 && NEWLINE !in text && text[|text| - 1] != 13 && |text| <= max
    ensures Read(g + text, size, max) == (Message(text, false), [])
  {
    GapSkipped(g, text);
    var e := LineEnd(text);
    assert forall i | 0 <= i < |text| :: text[i] in text;
    assert e == |text| && text[..e] == text && text[e..] == [];
    assert TrimEOL(text) == text;
  }

  /** A frame that fits is read as it was sent, whatever the buffer's size, and what follows is left. */
  lemma FrameRead(g: Bytes, f: Frame, rest: Bytes, size: nat, max: nat)
    requires Gap(g) && Fits(f, max)
    ensures Read(g + (Encode(f) + rest), size, max) == (Sent(f), rest)
  {
    var s := Encode(f) + rest;
    GapSkipped(g, s);
    if f.Octets? {
      OctetsRead(f.payload, rest, max);
    } else {
      assert s[0] == 60;
      LineRead(f.text, rest, max);
    }
    assert SkipSpace(s) == s;
  }

  /** Any mix of frames that fit comes back as the messages sent, in order, each with its framing, and
      then the stream ends. */
  method ReadAll(reader: FrameReader, ghost gaps: seq<Bytes>, ghost frames: seq<Frame>, count: nat)
    returns (messages: seq<Outcome>, last: Outcome)
    requires |gaps| == |frames| == count && (forall i | 0 <= i < count :: Gap(gaps[i]) && Fits(frames[i], reader.max))
    requires reader.rest == Stream(gaps, frames)
    modifies reader
    ensures |messages| == count && forall i | 0 <= i < count :: messages[i] == Sent(frames[i])
    ensures last == EndOfStream
  {
    messages := [];
    assert gaps[0..] == gaps && frames[0..] == frames;
    var k := 0;
    while k < count
      invariant 0 <= k <= count && |messages| == k
      invariant forall i | 0 <= i < k :: messages[i] == Sent(frames[i])
      invariant reader.rest == Stream(gaps[k..], frames[k..])
    {
      ghost var more := Stream(gaps[k + 1..], frames[k + 1..]);
      assert gaps[k..][1..] == gaps[k + 1..] && frames[k..][1..] == frames[k + 1..];
      assert reader.rest == gaps[k] + (Encode(frames[k]) + more);
      var out := reader.Next();
      FrameRead(gaps[k], frames[k], more, reader.size, reader.max);
      messages := messages + [out];
      k := k + 1;
    }
    last := reader.Next();
  }

  // ------------------------------------------------------------------ the size limit at its edge

  lemma {:induction false} TrimKeepsFirst(s: Bytes)
    requires s != [] && s[0] != NEWLINE && s[0] != 13
    ensures TrimEOL(s) != [] && TrimEOL(s) == s[..|TrimEOL(s)|]
  {
    var n := |s| - 1;
    if s[n] == NEWLINE || s[n] == 13 {
      TrimKeepsFirst(s[..n]);
      assert s[..n][..|TrimEOL(s[..n])|] == s[..|TrimEOL(s[..n])|];
    }
  }

  /** Two readers of different buffer sizes answer one line differently exactly when the message fits
      the maximum, the message with its terminator does not, and the line overflows the smaller
      buffer and fits the larger. */
  lemma SizesDifferExactly(s: Bytes, max: nat, a: nat, b: nat)
    requires s != [] && !IsSpace(s[0]) && a <= b
    ensures LineFrame(s, a, max) != LineFrame(s, b, max) <==>
            |TrimEOL(s[..LineEnd(s)])| <= max < LineEnd(s) && !FitsBuffer(s, a) && FitsBuffer(s, b)
  {
    TrimKeepsFirst(s[..LineEnd(s)]);
  }

  /** So some buffer size decides exactly for a line that overflows the smallest buffer. */
  lemma BufferDecidesExactly(s: Bytes, max: nat)
    requires s != [] && !IsSpace(s[0])
    ensures (exists a: nat, b: nat :: MIN_BUFFER <= a <= b && LineFrame(s, a, max) != LineFrame(s, b, max)) <==>
            |TrimEOL(s[..LineEnd(s)])| <= max < LineEnd(s) && !FitsBuffer(s, MIN_BUFFER)
  {
    forall a: nat, b: nat | MIN_BUFFER <= a <= b && LineFrame(s, a, max) != LineFrame(s, b, max)
      ensures |TrimEOL(s[..LineEnd(s)])| <= max < LineEnd(s) && !FitsBuffer(s, MIN_BUFFER)
    {
      SizesDifferExactly(s, max, a, b);
    }
    if |TrimEOL(s[..LineEnd(s)])| <= max < LineEnd(s) && !FitsBuffer(s, MIN_BUFFER) {
      var b := LineEnd(s) + 1;
      SizesDifferExactly(s, max, MIN_BUFFER, b);
      assert MIN_BUFFER <= MIN_BUFFER <= b && LineFrame(s, MIN_BUFFER, max) != LineFrame(s, b, max);
    }
  }

  /** A line of exactly the maximum is refused by the smallest buffer and read by one that holds it. */
  lemma EdgeLine(text: Bytes, rest: Bytes)
    requires |text| >= MIN_BUFFER && text[0] == 60 && NEWLINE !in text && text[|text| - 1] != 13
    ensures var s := Encode(Newlined(text)) + rest;
            LineFrame(s, MIN_BUFFER, |text|).0 == TooLarge && LineFrame(s, |text| + 1, |text|) == (Message(text, false), rest)
  {
    LineRead(text, rest, |text| + 1);
    var s := Encode(Newlined(text)) + rest;
    assert s[|text|] == NEWLINE;
  }
}
