/** The parts of the grammar a storage node never prints and a peer may still send: numbers and runes
written as escapes. Each is written out here and read back. */
module RowCodecGrammar {
  import opened Basics
  import opened RowCodec

  // ------------------------------------------------------------------ white space (section 2 of RFC 8259)

  predicate Gap(g: Bytes) {
    forall i | 0 <= i < |g| :: g[i] == 32 || g[i] == 9 || g[i] == 10 || g[i] == 13
  }

  lemma {:induction false} GapSkipped(g: Bytes, s: Bytes)
    requires Gap(g)
    ensures SkipSpace(g + s) == SkipSpace(s)
  {
    if g == [] {
      assert g + s == s;
    } else {
      assert (g + s)[1..] == g[1..] + s;
      GapSkipped(g[1..], s);
    }
  }

  // ------------------------------------------------------------------ numbers (section 6 of RFC 8259)

  predicate Digits(s: Bytes) {
    forall i | 0 <= i < |s| :: Digit(s[i])
  }

  /** An integer part without superfluous zeros, an optional fraction and an optional exponent. */
  datatype Number = Number(negative: bool, whole: Bytes, fraction: Option<Bytes>, exponent: Option<Exponent>)

  /** Its letter in either case, an optional sign and the digits. */
  datatype Exponent = Exponent(letter: byte, sign: Bytes, digits: Bytes)

  predicate WellFormed(n: Number) {
    && n.whole != [] && Digits(n.whole) && (n.whole[0] == ZERO ==> |n.whole| == 1)
    && (n.fraction.Some? ==> n.fraction.value != [] && Digits(n.fraction.value))
    && (n.exponent.Some? ==>
          var e := n.exponent.value;
          && (e.letter == 101 || e.letter == 69) && (e.sign == [] || e.sign == [PLUS] || e.sign == [MINUS])
          && e.digits != [] && Digits(e.digits))
  }

  function Tail(n: Number, rest: Bytes): Bytes {
    if n.exponent.None? then rest
    else
      var e := n.exponent.value;
      [e.letter] + (e.sign + (e.digits + rest))
  }

  function Written(n: Number, rest: Bytes): Bytes {
    (if n.negative then [MINUS] else [])
    + (n.whole + if n.fraction.Some? then [DOT] + (n.fraction.value + Tail(n, rest)) else Tail(n, rest))
  }

  /** What may follow a number: nothing that would continue it. */
  predicate Ends(rest: Bytes) {
    rest == [] || !(Digit(rest[0]) || rest[0] == DOT || rest[0] == 101 || rest[0] == 69)
  }

  lemma {:induction false} DigitsSkipped(s: Bytes, rest: Bytes)
    requires Digits(s) && (rest == [] || !Digit(rest[0]))
    ensures SkipDigits(s + rest) == rest
  {
    if s == [] {
      assert s + rest == rest;
    } else {
      assert (s + rest)[1..] == s[1..] + rest;
      DigitsSkipped(s[1..], rest);
    }
  }

  lemma ExponentRead(n: Number, rest: Bytes)
    requires WellFormed(n) && Ends(rest)
    ensures SkipExponent(Tail(n, rest)) == Some(rest)
    ensures Tail(n, rest) == [] || (!Digit(Tail(n, rest)[0]) && Tail(n, rest)[0] != DOT)
  {
    if n.exponent.Some? {
      var sign, ds := n.exponent.value.sign, n.exponent.value.digits;
      var s := Tail(n, rest);
      DigitsSkipped(ds, rest);
      if sign == [] {
        assert s[1..] == ds + rest;
      } else {
        assert s[2..] == ds + rest;
      }
    }
  }

  lemma FractionRead(n: Number, rest: Bytes)
    requires WellFormed(n) && Ends(rest)
    ensures var s := if n.fraction.Some? then [DOT] + (n.fraction.value + Tail(n, rest)) else Tail(n, rest);
            SkipFraction(s) == Some(Tail(n, rest)) && (s == [] || !Digit(s[0]))
  {
    ExponentRead(n, rest);
    if n.fraction.Some? {
      var s := [DOT] + (n.fraction.value + Tail(n, rest));
      assert s[1..] == n.fraction.value + Tail(n, rest);
      DigitsSkipped(n.fraction.value, Tail(n, rest));
    }
  }

  /** Every number of the grammar is read whole, up to the byte that cannot continue it. */
  lemma NumberRead(n: Number, rest: Bytes)
    requires WellFormed(n) && Ends(rest)
    ensures SkipNumber(Written(n, rest)) == Some(rest)
  {
    var s := if n.fraction.Some? then [DOT] + (n.fraction.value + Tail(n, rest)) else Tail(n, rest);
    var t := n.whole + s;
    FractionRead(n, rest);
    ExponentRead(n, rest);
    WholeRead(n.whole, s);
    if n.negative {
      assert Written(n, rest)[1..] == t;
    } else {
      assert Written(n, rest) == t;
    }
  }

  lemma WholeRead(whole: Bytes, s: Bytes)
    requires whole != [] && Digits(whole) && (whole[0] == ZERO ==> |whole| == 1) && (s == [] || !Digit(s[0]))
    ensures SkipInteger(whole + s) == Some(s)
  {
    assert (whole + s)[1..] == whole[1..] + s;
    if whole[0] == ZERO {
      assert whole[1..] + s == s;
    } else {
      DigitsSkipped(whole[1..], s);
    }
  }

  // ------------------------------------------------------------------ nothing else is a number

  lemma {:induction false} DigitsTaken(s: Bytes) returns (ds: Bytes)
    ensures Digits(ds) && s == ds + SkipDigits(s)
    ensures s != [] && Digit(s[0]) ==> ds != [] && ds[0] == s[0]
  {
    if s != [] && Digit(s[0]) {
      ds := DigitsTaken(s[1..]);
      assert s == [s[0]] + s[1..];
      ds := [s[0]] + ds;
    } else {
      ds := [];
    }
  }

  lemma WholeTaken(s: Bytes) returns (whole: Bytes)
    requires SkipInteger(s).Some?
    ensures whole != [] && Digits(whole) && (whole[0] == ZERO ==> |whole| == 1) && s == whole + SkipInteger(s).value
  {
    if s[0] == ZERO {
      whole := [ZERO];
      assert s == [ZERO] + s[1..];
    } else {
      var more := DigitsTaken(s[1..]);
      whole := [s[0]] + more;
      assert s == [s[0]] + s[1..];
    }
  }

  lemma FractionTaken(s: Bytes) returns (fraction: Option<Bytes>)
    requires SkipFraction(s).Some?
    ensures fraction.Some? ==> fraction.value != [] && Digits(fraction.value) && s == [DOT] + (fraction.value + SkipFraction(s).value)
    ensures fraction.None? ==> s == SkipFraction(s).value
  {
    if s == [] || s[0] != DOT {
      fraction := None;
    } else {
      var ds := DigitsTaken(s[1..]);
      fraction := Some(ds);
      assert s == [DOT] + s[1..];
    }
  }

  lemma ExponentTaken(s: Bytes) returns (exponent: Option<Exponent>)
    requires SkipExponent(s).Some?
    ensures exponent.None? ==> s == SkipExponent(s).value
    ensures exponent.Some? ==>
              var e := exponent.value;
              && (e.letter == 101 || e.letter == 69) && (e.sign == [] || e.sign == [PLUS] || e.sign == [MINUS])
              && e.digits != [] && Digits(e.digits) && s == [e.letter] + (e.sign + (e.digits + SkipExponent(s).value))
  {
    if s == [] || (s[0] != 101 && s[0] != 69) {
      exponent := None;
    } else {
      var signed := |s| > 1 && (s[1] == PLUS || s[1] == MINUS);
      var sign, t := if signed then [s[1]] else [], if signed then s[2..] else s[1..];
      assert s == [s[0]] + (sign + t);
      var ds := DigitsTaken(t);
      exponent := Some(Exponent(s[0], sign, ds));
    }
  }

  /** Whatever is read as a number is one of the grammar. */
  lemma NumberSpelled(s: Bytes) returns (n: Number)
    requires SkipNumber(s).Some?
    ensures WellFormed(n) && s == Written(n, SkipNumber(s).value)
  {
    var negative := s[0] == MINUS;
    var t := if negative then s[1..] else s;
    var whole := WholeTaken(t);
    var after := SkipInteger(t).value;
    var fraction := FractionTaken(after);
    var exponent := ExponentTaken(SkipFraction(after).value);
    n := Number(negative, whole, fraction, exponent);
    assert s == (if negative then [MINUS] else []) + t;
  }

  // ------------------------------------------------------------------ runes

  /** Which of the letters of four hex digits are capital. */
  type Caps = c: seq<bool> | |c| == 4 witness [false, false, false, false]

  function CapDigit(n: int, cap: bool): (c: byte)
    requires 0 <= n < 16
    ensures HexValue(c) == Some(n)
  {
    if n < 10 then 48 + n else if cap then 55 + n else 87 + n
  }

  /** Four hex digits. */
  function Hex(v: int, caps: Caps): (r: Bytes)
    requires 0 <= v < 0x1_0000
    ensures |r| == 4
  {
    [CapDigit(v / 4096, caps[0]), CapDigit(v / 256 % 16, caps[1]), CapDigit(v / 16 % 16, caps[2]), CapDigit(v % 16, caps[3])]
  }

  lemma HexRead(v: int, caps: Caps, rest: Bytes)
    requires 0 <= v < 0x1_0000
    ensures Hex4(Hex(v, caps) + rest) == Some(v)
  {
    var s := Hex(v, caps) + rest;
    assert s[0] == Hex(v, caps)[0] && s[1] == Hex(v, caps)[1] && s[2] == Hex(v, caps)[2] && s[3] == Hex(v, caps)[3];
    HexParts(v);
  }

  lemma HexParts(v: int)
    ensures v / 4096 * 4096 + v / 256 % 16 * 256 + v / 16 % 16 * 16 + v % 16 == v
  {
    assert v / 16 / 16 == v / 256 && v / 256 / 16 == v / 4096;
  }

  /** A rune as the escape after its `\u`: one unit, or a surrogate pair past the first plane. */
  function EscapeRune(r: int, first: Caps, second: Caps): Bytes
    requires 0 <= r < 0x11_0000 && !Surrogate(r)
  {
    if r < 0x1_0000 then Hex(r, first)
    else
      Hex(0xd800 + (r - 0x1_0000) / 1024, first) + ([BACKSLASH, LOWER_U] + Hex(0xdc00 + (r - 0x1_0000) % 1024, second))
  }

  /** Every rune written as an escape reads back as that rune, surrogate pairs and either case of hex
      digits included. */
  lemma RuneRoundTrip(r: int, first: Caps, second: Caps, rest: Bytes)
    requires 0 <= r < 0x11_0000 && !Surrogate(r)
    ensures UnicodeEscape(EscapeRune(r, first, second) + rest) == Some((r, rest))
  {
    var s := EscapeRune(r, first, second) + rest;
    if r < 0x1_0000 {
      HexRead(r, first, rest);
      assert s[4..] == rest;
    } else {
      var d := r - 0x1_0000;
      PairRead(d / 1024, d % 1024, first, second, rest);
    }
  }

  lemma PairRead(a: int, b: int, first: Caps, second: Caps, rest: Bytes)
    requires 0 <= a < 1024 && 0 <= b < 1024
    ensures UnicodeEscape(Hex(0xd800 + a, first) + ([BACKSLASH, LOWER_U] + Hex(0xdc00 + b, second)) + rest)
         == Some((a * 1024 + b + 0x1_0000, rest))
  {
    var hi, lo := Hex(0xd800 + a, first), Hex(0xdc00 + b, second);
    var s := hi + ([BACKSLASH, LOWER_U] + lo) + rest;
    var more := [BACKSLASH, LOWER_U] + (lo + rest);
    assert s == hi + more;
    HexRead(0xd800 + a, first, more);
    HexRead(0xdc00 + b, second, rest);
    assert s[4] == BACKSLASH && s[5] == LOWER_U;
    assert s[6..] == lo + rest && s[10..] == rest;
  }

  /** What follows a surrogate completes it: it is a leading one and a trailing one is escaped next. */
  predicate OtherHalf(v: int, rest: Bytes) {
    && v < 0xdc00 && |rest| >= 2 && rest[0] == BACKSLASH && rest[1] == LOWER_U
    && Hex4(rest[2..]).Some? && 0xdc00 <= Hex4(rest[2..]).value < 0xe000
  }

  /** A surrogate is the replacement character exactly when what follows is not its other half, and
      what follows is then read on its own, another escape included. */
  lemma LoneSurrogate(v: int, caps: Caps, rest: Bytes)
    requires Surrogate(v)
    ensures UnicodeEscape(Hex(v, caps) + rest) == Some((REPLACEMENT, rest)) <==> !OtherHalf(v, rest)
  {
    var s := Hex(v, caps) + rest;
    HexRead(v, caps, rest);
    assert s[4..] == rest;
    if |rest| >= 2 {
      assert s[4] == rest[0] && s[5] == rest[1] && s[6..] == rest[2..];
    }
  }

  // ------------------------------------------------------------------ UTF-8 (section 3 of RFC 3629)

  /** The six bits a byte after the first carries. */
  function Six(c: byte): (r: int)
    ensures 0x80 <= c < 0xc0 <==> 0 <= r < 64
  {
    var n: int := c;
    n - 0x80
  }

  /** The leading byte tells how many follow; their bits, most significant first, are the rune. */
  function RuneOf(b: Bytes): Option<int> {
    if |b| == 1 && b[0] < 0x80 then Some(b[0])
    else if |b| == 2 && 0xc0 <= b[0] < 0xe0 then Some((b[0] - 0xc0) * 64 + Six(b[1]))
    else if |b| == 3 && 0xe0 <= b[0] < 0xf0 then Some((b[0] - 0xe0) * 4096 + Six(b[1]) * 64 + Six(b[2]))
    else if |b| == 4 && 0xf0 <= b[0] < 0xf8 then Some((b[0] - 0xf0) * 262144 + Six(b[1]) * 4096 + Six(b[2]) * 64 + Six(b[3]))
    else None
  }

  /** A rune is spelled in as few bytes as hold it, and they make it up again. */
  lemma Utf8Right(r: int)
    requires 0 <= r < 0x11_0000 && !Surrogate(r)
    ensures |Utf8(r)| == (if r < 0x80 then 1 else if r < 0x800 then 2 else if r < 0x1_0000 then 3 else 4)
    ensures RuneOf(Utf8(r)) == Some(r) && forall i | 1 <= i < |Utf8(r)| :: 0x80 <= Utf8(r)[i] < 0xc0
  {
    assert r / 64 / 64 == r / 4096 && r / 4096 / 64 == r / 262144;
  }
}
