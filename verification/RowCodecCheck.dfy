/** The cheap line check never refuses a line the full parser can read: balancing brackets outside
strings is weaker than the grammar, for nested values, escapes and numbers alike. */
module RowCodecCheck {
  import opened Basics
  import opened RowCodec
  import opened RowCodecProof

  // ------------------------------------------------------------------ strings

  lemma HexPlain(s: Bytes)
    requires Hex4(s).Some?
    ensures SkipRaw(s) == SkipRaw(s[4..])
  {
    assert Plain(s[..4]) by {
      assert forall i | 0 <= i < 4 :: HexValue(s[i]).Some? && PlainByte(s[i]);
      assert forall c | c in s[..4] :: exists i | 0 <= i < 4 :: c == s[i];
    }
    assert s == s[..4] + s[4..];
    SkipPlain(s[..4], s[4..]);
  }

  lemma UnicodeRaw(s: Bytes)
    requires UnicodeEscape(s).Some?
    ensures SkipRaw(s) == SkipRaw(UnicodeEscape(s).value.1)
  {
    HexPlain(s);
    if UnicodeEscape(s).value.1 != s[4..] {
      assert s[4..][2..] == s[6..] && s[4..][0] == BACKSLASH;
      assert Hex4(s[6..]).Some?;
      HexPlain(s[6..]);
      assert s[6..][4..] == s[10..];
    }
  }

  lemma EscapeRaw(s: Bytes)
    requires EscapeAt(s).Some?
    ensures SkipRaw([BACKSLASH] + s) == SkipRaw(EscapeAt(s).value.1)
  {
    assert ([BACKSLASH] + s)[2..] == s[1..];
    if s[0] == LOWER_U { UnicodeRaw(s[1..]); }
  }

  /** A string the grammar reads ends where the raw walk says it ends. */
  lemma {:induction false} StringRaw(s: Bytes)
    requires StringBody(s).Some?
    ensures SkipRaw(s) == Some(StringBody(s).value.1)
    decreases |s|
  {
    if s[0] == BACKSLASH {
      assert s == [BACKSLASH] + s[1..];
      EscapeRaw(s[1..]);
      StringRaw(EscapeAt(s[1..]).value.1);
    } else if s[0] != QUOTE {
      StringRaw(s[1..]);
    }
  }

  // ------------------------------------------------------------------ values

  /** A byte the bracket walk steps over. */
  predicate Neutral(c: byte) {
    c != QUOTE && c != LBRACE && c != LBRACKET && c != RBRACE && c != RBRACKET
  }

  lemma NeutralStep(s: Bytes, depth: nat)
    requires s != [] && Neutral(s[0])
    ensures SkipComposite(s, depth) == SkipComposite(s[1..], depth)
  {
  }

  lemma {:induction false} SpacesNeutral(s: Bytes, depth: nat)
    ensures SkipComposite(s, depth) == SkipComposite(SkipSpace(s), depth)
  {
    if s != [] && IsSpace(s[0]) {
      NeutralStep(s, depth);
      SpacesNeutral(s[1..], depth);
    }
  }

  lemma {:induction false} DigitsNeutral(s: Bytes, depth: nat)
    ensures SkipComposite(s, depth) == SkipComposite(SkipDigits(s), depth)
  {
    if s != [] && Digit(s[0]) {
      NeutralStep(s, depth);
      DigitsNeutral(s[1..], depth);
    }
  }

  lemma NumberNeutral(s: Bytes, depth: nat)
    requires SkipNumber(s).Some?
    ensures SkipComposite(s, depth) == SkipComposite(SkipNumber(s).value, depth)
  {
    var t := if s != [] && s[0] == MINUS then s[1..] else s;
    NeutralStep(s, depth);
    NeutralStep(t, depth);
    DigitsNeutral(t[1..], depth);
    var i := SkipInteger(t).value;
    if i != [] && i[0] == DOT {
      NeutralStep(i, depth);
      DigitsNeutral(i[1..], depth);
    }
    ExponentNeutral(SkipFraction(i).value, depth);
  }

  lemma ExponentNeutral(s: Bytes, depth: nat)
    requires SkipExponent(s).Some?
    ensures SkipComposite(s, depth) == SkipComposite(SkipExponent(s).value, depth)
  {
    if s != [] && (s[0] == 101 || s[0] == 69) {
      NeutralStep(s, depth);
      if s[1] == PLUS || s[1] == MINUS {
        NeutralStep(s[1..], depth);
        assert s[1..][1..] == s[2..];
        DigitsNeutral(s[2..], depth);
      } else {
        DigitsNeutral(s[1..], depth);
      }
    }
  }

  lemma {:induction false} WordNeutral(word: Bytes, s: Bytes, depth: nat)
    requires word <= s && forall c | c in word :: Neutral(c)
    ensures SkipComposite(s, depth) == SkipComposite(s[|word|..], depth)
    decreases |word|
  {
    if word != [] {
      assert word[0] in word && forall c | c in word[1..] :: c in word;
      NeutralStep(s, depth);
      WordNeutral(word[1..], s[1..], depth);
      assert s[1..][|word| - 1..] == s[|word|..];
    } else {
      assert s[0..] == s;
    }
  }

  /** A value nested in brackets that are already open closes its own and no more. */
  lemma {:induction false} Nested(s: Bytes, own: nat, open: nat)
    requires open >= 1 && SkipComposite(s, own).Some?
    ensures SkipComposite(s, own + open) == SkipComposite(SkipComposite(s, own).value, open)
    decreases |s|
  {
    if s[0] == QUOTE {
      Nested(SkipRaw(s[1..]).value, own, open);
    } else if s[0] == LBRACE || s[0] == LBRACKET {
      Nested(s[1..], own + 1, open);
    } else if s[0] == RBRACE || s[0] == RBRACKET {
      if own > 1 { Nested(s[1..], own - 1, open); }
    } else {
      Nested(s[1..], own, open);
    }
  }

  lemma StringNeutral(s: Bytes, depth: nat)
    requires ScanString(s).Some?
    ensures SkipComposite(s, depth) == SkipComposite(ScanString(s).value.1, depth)
  {
    StringRaw(s[1..]);
  }

  lemma ValueNeutral(env: Env, s: Bytes, depth: nat)
    requires ScanValue(env, s).Some? && depth >= 1
    ensures SkipComposite(s, depth) == SkipComposite(ScanValue(env, s).value.1, depth)
  {
    if s[0] == QUOTE {
      StringNeutral(s, depth);
    } else if s[0] == 116 {
      WordNeutral(TRUE, s, depth);
    } else if s[0] == 102 {
      WordNeutral(FALSE, s, depth);
    } else if s[0] == 110 {
      WordNeutral(NULL, s, depth);
    } else if s[0] == MINUS || Digit(s[0]) {
      NumberNeutral(s, depth);
    } else {
      Nested(s, 0, depth);
    }
  }

  lemma PairNeutral(env: Env, s: Bytes, depth: nat)
    requires ScanPair(env, s).Some? && depth >= 1
    ensures SkipComposite(s, depth) == SkipComposite(ScanPair(env, s).value.1, depth)
  {
    StringNeutral(s, depth);
    var t := ScanString(s).value.1;
    SpacesNeutral(t, depth);
    var u := SkipSpace(t);
    NeutralStep(u, depth);
    SpacesNeutral(u[1..], depth);
    ValueNeutral(env, SkipSpace(u[1..]), depth);
  }

  /** The rest of an object balances, and nothing but space follows it. */
  predicate Closes(s: Bytes) {
    SkipComposite(s, 1).Some? && SkipSpace(SkipComposite(s, 1).value) == []
  }

  lemma NextCloses(env: Env, s: Bytes, first: bool)
    requires !NextPair(env, s, first).Malformed?
    ensures NextPair(env, s, first).End? ==> Closes(s)
    ensures NextPair(env, s, first).More? ==> SkipComposite(s, 1) == SkipComposite(NextPair(env, s, first).rest, 1)
  {
    var t := SkipSpace(s);
    SpacesNeutral(s, 1);
    if NextPair(env, s, first).More? {
      if !first {
        NeutralStep(t, 1);
        SpacesNeutral(t[1..], 1);
      }
      PairNeutral(env, if first then t else SkipSpace(t[1..]), 1);
    }
  }

  lemma {:induction false} PairsClose(env: Env, s: Bytes, first: bool)
    requires ScanPairs(env, s, first).Some?
    ensures Closes(s)
    decreases |s|
  {
    NextCloses(env, s, first);
    if NextPair(env, s, first).More? {
      PairsClose(env, NextPair(env, s, first).rest, false);
    }
  }

  /** Every line the parser reads as an object passes the check, so the merge refuses none of them. */
  lemma DecodableIsAccepted(env: Env, line: Bytes)
    requires ScanObject(env, line).Some?
    ensures LooksLikeObject(line)
  {
    PairsClose(env, SkipSpace(line)[1..], true);
  }
}
