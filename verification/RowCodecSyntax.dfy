/** The whole of what the line parser reads: strings, values and flat objects written out as the grammar
of RFC 8259 has them, with white space wherever it may stand. Every such object is read as the fields it
spells, and nothing else is read as an object. */
module RowCodecSyntax {
  import opened Basics
  import opened RowCodec
  import opened RowCodecGrammar

  // ------------------------------------------------------------------ strings (section 7)

  /** A byte that stands for itself, a backslash and a letter, or `\u` and four hex digits. */
  datatype Unit = Itself(c: byte) | Letter(c: byte) | Code(v: int, caps: Caps)

  /** What the letters stand for. */
  const LETTERS: map<byte, byte> := map[34 := 34, 92 := 92, 47 := 47, 98 := 8, 102 := 12, 110 := 10, 114 := 13, 116 := 9]

  predicate Proper(u: Unit) {
    match u
    case Itself(c) => PlainByte(c)
    case Letter(c) => c in LETTERS
    case Code(v, _) => 0 <= v < 0x1_0000
  }

  predicate AllProper(us: seq<Unit>) {
    forall i | 0 <= i < |us| :: Proper(us[i])
  }

  function Spell(u: Unit): (r: Bytes)
    requires Proper(u)
    ensures |r| > 0
  {
    match u
    case Itself(c) => [c]
    case Letter(c) => [BACKSLASH, c]
    case Code(v, caps) => [BACKSLASH, LOWER_U] + Hex(v, caps)
  }

  function SpellAll(us: seq<Unit>): Bytes
    requires AllProper(us)
  {
    if |us| == 0 then [] else Spell(us[0]) + SpellAll(us[1..])
  }

  /** The unit completes the leading surrogate before it. */
  predicate Completes(v: int, us: seq<Unit>) {
    v < 0xdc00 && |us| > 0 && us[0].Code? && 0xdc00 <= us[0].v < 0xe000
  }

  /** How many units are read as one: two of a surrogate pair. */
  function Taken(us: seq<Unit>): (k: nat)
    requires |us| > 0
    ensures 1 <= k <= |us|
  {
    if us[0].Code? && Surrogate(us[0].v) && Completes(us[0].v, us[1..]) then 2 else 1
  }

  /** A surrogate on its own is the replacement character. */
  function Rune(us: seq<Unit>): (r: int)
    requires |us| > 0 && AllProper(us) && us[0].Code?
    ensures 0 <= r < 0x11_0000 && !Surrogate(r)
  {
    var v := us[0].v;
    if !Surrogate(v) then v
    else if Taken(us) == 2 then (v - 0xd800) * 1024 + (us[1].v - 0xdc00) + 0x1_0000
    else REPLACEMENT
  }

  function First(us: seq<Unit>): Bytes
    requires |us| > 0 && AllProper(us)
  {
    match us[0]
    case Itself(c) => [c]
    case Letter(c) => [LETTERS[c]]
    case Code(_, _) => Utf8(Rune(us))
  }

  /** The bytes a string stands for. */
  function Meaning(us: seq<Unit>): Bytes
    requires AllProper(us)
  {
    if |us| == 0 then [] else First(us) + Meaning(us[Taken(us)..])
  }

  lemma SpellStep(us: seq<Unit>, rest: Bytes)
    requires |us| > 0 && AllProper(us)
    ensures AllProper(us[1..]) && SpellAll(us) + rest == Spell(us[0]) + (SpellAll(us[1..]) + rest)
  {
    Assoc(Spell(us[0]), SpellAll(us[1..]), rest);
  }

  lemma Assoc(a: Bytes, b: Bytes, c: Bytes)
    ensures a + b + c == a + (b + c)
  {
  }

  lemma CodeParts(us: seq<Unit>, tail: Bytes)
    requires |us| > 0 && AllProper(us) && us[0].Code?
    ensures var s := SpellAll(us) + tail;
            && |s| > 2 && s[0] == BACKSLASH && s[1] == LOWER_U
            && s[2..] == Hex(us[0].v, us[0].caps) + (SpellAll(us[1..]) + tail)
  {
    var s, h, more := SpellAll(us) + tail, Hex(us[0].v, us[0].caps), SpellAll(us[1..]) + tail;
    SpellStep(us, tail);
    Assoc([BACKSLASH, LOWER_U], h, more);
    assert s[2..] == h + more;
  }

  /** What is spelled after a surrogate is its other half exactly when the next unit is. */
  lemma HalfIs(v: int, us: seq<Unit>, rest: Bytes)
    requires Surrogate(v) && AllProper(us)
    ensures OtherHalf(v, SpellAll(us) + ([QUOTE] + rest)) <==> Completes(v, us)
  {
    var tail := [QUOTE] + rest;
    var s := SpellAll(us) + tail;
    if |us| == 0 {
      assert s[0] == QUOTE;
    } else if us[0].Code? {
      CodeParts(us, tail);
      HexRead(us[0].v, us[0].caps, SpellAll(us[1..]) + tail);
    } else {
      SpellStep(us, tail);
      assert s[0] == Spell(us[0])[0] && (us[0].Letter? ==> s[1] == us[0].c);
    }
  }

  /** The two halves of a pair. */
  lemma HalvesRead(us: seq<Unit>, tail: Bytes)
    requires |us| > 0 && AllProper(us) && us[0].Code? && Taken(us) == 2
    ensures UnicodeEscape(Hex(us[0].v, us[0].caps) + (SpellAll(us[1..]) + tail)) == Some((Rune(us), SpellAll(us[2..]) + tail))
  {
    var hi, lo := Hex(us[0].v, us[0].caps), Hex(us[1].v, us[1].caps);
    var last := SpellAll(us[2..]) + tail;
    SpellStep(us[1..], tail);
    assert us[1..][1..] == us[2..];
    Halves(hi, lo, last);
    PairRead(us[0].v - 0xd800, us[1].v - 0xdc00, us[0].caps, us[1].caps, last);
  }

  lemma Halves(hi: Bytes, lo: Bytes, last: Bytes)
    ensures hi + (([BACKSLASH, LOWER_U] + lo) + last) == hi + ([BACKSLASH, LOWER_U] + lo) + last
  {
  }

  /** An escape by number, or two that pair up. */
  lemma CodeRead(us: seq<Unit>, rest: Bytes)
    requires |us| > 0 && AllProper(us) && us[0].Code?
    ensures UnicodeEscape(Hex(us[0].v, us[0].caps) + (SpellAll(us[1..]) + ([QUOTE] + rest)))
         == Some((Rune(us), SpellAll(us[Taken(us)..]) + ([QUOTE] + rest)))
  {
    var v, caps, tail := us[0].v, us[0].caps, [QUOTE] + rest;
    var more := SpellAll(us[1..]) + tail;
    if !Surrogate(v) {
      RuneRoundTrip(v, caps, caps, more);
    } else if Taken(us) == 2 {
      HalvesRead(us, tail);
    } else {
      HalfIs(v, us[1..], rest);
      LoneSurrogate(v, caps, more);
    }
  }

  lemma LetterRead(c: byte, more: Bytes)
    requires c in LETTERS
    ensures EscapeAt([c] + more) == Some(([LETTERS[c]], more))
  {
    assert ([c] + more)[1..] == more;
  }

  lemma EscapeBody(s: Bytes)
    requires |s| > 0 && s[0] == BACKSLASH && EscapeAt(s[1..]).Some?
    ensures StringBody(s) == Before(EscapeAt(s[1..]).value.0, StringBody(EscapeAt(s[1..]).value.1))
  {
  }

  lemma CodeBody(us: seq<Unit>, rest: Bytes)
    requires |us| > 0 && AllProper(us) && us[0].Code?
    ensures var s := SpellAll(us) + ([QUOTE] + rest);
            StringBody(s) == Before(Utf8(Rune(us)), StringBody(SpellAll(us[Taken(us)..]) + ([QUOTE] + rest)))
  {
    var s := SpellAll(us) + ([QUOTE] + rest);
    CodeParts(us, [QUOTE] + rest);
    CodeRead(us, rest);
    var e := s[1..];
    assert e[0] == LOWER_U && e[1..] == s[2..];
    assert EscapeAt(e) == Some((Utf8(Rune(us)), SpellAll(us[Taken(us)..]) + ([QUOTE] + rest)));
    EscapeBody(s);
  }

  lemma OneBody(us: seq<Unit>, rest: Bytes)
    requires |us| > 0 && AllProper(us) && !us[0].Code?
    ensures StringBody(SpellAll(us) + ([QUOTE] + rest)) == Before(First(us), StringBody(SpellAll(us[1..]) + ([QUOTE] + rest)))
  {
    var s, more := SpellAll(us) + ([QUOTE] + rest), SpellAll(us[1..]) + ([QUOTE] + rest);
    SpellStep(us, [QUOTE] + rest);
    if us[0].Itself? {
      assert s[0] == us[0].c && s[1..] == more;
    } else {
      assert s[0] == BACKSLASH && s[1..] == [us[0].c] + more;
      LetterRead(us[0].c, more);
      EscapeBody(s);
    }
  }

  /** Every string reads as what it stands for, and what follows it is left. */
  lemma {:induction false} StringRead(us: seq<Unit>, rest: Bytes)
    requires AllProper(us)
    ensures StringBody(SpellAll(us) + ([QUOTE] + rest)) == Some((Meaning(us), rest))
    decreases |us|
  {
    if |us| == 0 {
      assert [] + ([QUOTE] + rest) == [QUOTE] + rest && ([QUOTE] + rest)[1..] == rest;
    } else {
      StringRead(us[Taken(us)..], rest);
      if us[0].Code? { CodeBody(us, rest); } else { OneBody(us, rest); }
    }
  }

  lemma DigitSpelled(c: byte)
    requires HexValue(c).Some?
    ensures CapDigit(HexValue(c).value, c < 97) == c
  {
  }

  lemma FourDigits(a: int, b: int, c: int, d: int)
    requires 0 <= a < 16 && 0 <= b < 16 && 0 <= c < 16 && 0 <= d < 16
    ensures var v := a * 4096 + b * 256 + c * 16 + d;
            v / 4096 == a && v / 256 % 16 == b && v / 16 % 16 == c && v % 16 == d
  {
    var v := a * 4096 + b * 256 + c * 16 + d;
    assert v / 16 == a * 256 + b * 16 + c;
    assert v / 256 == a * 16 + b;
  }

  lemma HexSpelled(s: Bytes) returns (caps: Caps)
    requires Hex4(s).Some?
    ensures s[..4] == Hex(Hex4(s).value, caps)
  {
    caps := [s[0] < 97, s[1] < 97, s[2] < 97, s[3] < 97];
    FourDigits(HexValue(s[0]).value, HexValue(s[1]).value, HexValue(s[2]).value, HexValue(s[3]).value);
    DigitSpelled(s[0]);
    DigitSpelled(s[1]);
    DigitSpelled(s[2]);
    DigitSpelled(s[3]);
  }

  lemma SpellCons(u: Unit, us: seq<Unit>)
    requires Proper(u) && AllProper(us)
    ensures AllProper([u] + us) && SpellAll([u] + us) == Spell(u) + SpellAll(us)
  {
    assert ([u] + us)[1..] == us;
  }

  lemma UnitFirst(u: Unit, us: seq<Unit>, t: Bytes, rest: Bytes)
    requires Proper(u) && AllProper(us) && t == SpellAll(us) + ([QUOTE] + rest)
    ensures AllProper([u] + us) && Spell(u) + t == SpellAll([u] + us) + ([QUOTE] + rest)
  {
    SpellCons(u, us);
  }

  /** Whatever is read as a string is one of the grammar. */
  lemma {:induction false} StringSpelled(s: Bytes) returns (us: seq<Unit>)
    requires StringBody(s).Some?
    ensures AllProper(us) && s == SpellAll(us) + ([QUOTE] + StringBody(s).value.1)
    ensures Meaning(us) == StringBody(s).value.0
    decreases |s|, 1
  {
    var rest := StringBody(s).value.1;
    if s[0] == QUOTE {
      us := [];
      assert s == [QUOTE] + s[1..];
    } else if s[0] != BACKSLASH {
      us := StringSpelled(s[1..]);
      UnitFirst(Itself(s[0]), us, s[1..], rest);
      assert s == [s[0]] + s[1..];
      us := [Itself(s[0])] + us;
    } else if s[1] != LOWER_U {
      us := StringSpelled(s[2..]);
      UnitFirst(Letter(s[1]), us, s[2..], rest);
      assert s == [BACKSLASH, s[1]] + s[2..];
      us := [Letter(s[1])] + us;
    } else {
      us := CodeSpelled(s);
    }
    StringRead(us, rest);
  }

  /** Hex digits in front of what is spelled make one more unit. */
  lemma CodeFirst(h: Bytes, us: seq<Unit>, rest: Bytes) returns (u: Unit)
    requires Hex4(h).Some? && AllProper(us) && h[4..] == SpellAll(us) + ([QUOTE] + rest)
    ensures Proper(u) && AllProper([u] + us) && [BACKSLASH, LOWER_U] + h == SpellAll([u] + us) + ([QUOTE] + rest)
  {
    var caps := HexSpelled(h);
    u := Code(Hex4(h).value, caps);
    UnitFirst(u, us, h[4..], rest);
    assert h == h[..4] + h[4..];
    assert [BACKSLASH, LOWER_U] + h == Spell(u) + h[4..];
  }

  /** What an escape by number takes off: four digits, or the ten bytes of a pair. */
  lemma CodeTakes(h: Bytes)
    requires UnicodeEscape(h).Some?
    ensures Hex4(h).Some?
    ensures UnicodeEscape(h).value.1 == h[4..] ||
            (|h| >= 10 && h[4] == BACKSLASH && h[5] == LOWER_U && Hex4(h[6..]).Some? && UnicodeEscape(h).value.1 == h[10..])
  {
  }

  lemma CodeSpelled(s: Bytes) returns (us: seq<Unit>)
    requires StringBody(s).Some? && |s| > 1 && s[0] == BACKSLASH && s[1] == LOWER_U
    ensures AllProper(us) && s == SpellAll(us) + ([QUOTE] + StringBody(s).value.1)
    decreases |s|, 0
  {
    var rest, h := StringBody(s).value.1, s[2..];
    assert s[1..][1..] == h && s == [BACKSLASH, LOWER_U] + h;
    CodeTakes(h);
    us := StringSpelled(UnicodeEscape(h).value.1);
    if UnicodeEscape(h).value.1 != h[4..] {
      var t := h[6..];
      assert t[4..] == h[10..] && h[4..] == [BACKSLASH, LOWER_U] + t;
      var low := CodeFirst(t, us, rest);
      us := [low] + us;
    }
    var u := CodeFirst(h, us, rest);
    us := [u] + us;
  }
}
