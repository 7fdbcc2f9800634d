/** What a shard printed is what the coordinator reads, and printing it again gives the same bytes. */
module RowCodecProof {
  import opened Basics
  import opened RowCodec

  // ------------------------------------------------------------------ strings

  /** The escape of one byte reads back as that byte. */
  lemma ByteRoundTrip(c: byte, rest: Bytes)
    ensures StringBody(EscapeByte(c) + rest) == Before([c], StringBody(rest))
  {
    var s := EscapeByte(c) + rest;
    if c == QUOTE || c == BACKSLASH {
      assert s[1..] == [c] + rest;
      assert EscapeAt(s[1..]) == Some(([c], rest));
    } else if c < 0x20 {
      HexRoundTrip(c, rest);
      var u := [ZERO, ZERO, HexDigit(c / 16), HexDigit(c % 16)] + rest;
      assert s[1..] == [LOWER_U] + u;
      assert s[1..][1..] == u;
      assert Utf8(c) == [c];
    } else {
      assert s == [c] + rest;
      assert s[1..] == rest;
    }
  }

  lemma HexRoundTrip(c: byte, rest: Bytes)
    requires c < 0x20
    ensures UnicodeEscape([ZERO, ZERO, HexDigit(c / 16), HexDigit(c % 16)] + rest) == Some((c, rest))
  {
    var u := [ZERO, ZERO, HexDigit(c / 16), HexDigit(c % 16)] + rest;
    assert u[4..] == rest;
    assert HexValue(u[2]) == Some(c / 16) && HexValue(u[3]) == Some(c % 16);
    assert Hex4(u) == Some(c);
  }

  lemma BeforeBefore<T>(a: seq<T>, b: seq<T>, r: Option<(seq<T>, Bytes)>)
    ensures Before(a, Before(b, r)) == Before(a + b, r)
  {
    if r.Some? { assert a + (b + r.value.0) == a + b + r.value.0; }
  }

  /** Any bytes whatever survive quoting. */
  lemma {:induction false} StringRoundTrip(s: Bytes, rest: Bytes)
    ensures StringBody(Escape(s) + [QUOTE] + rest) == Some((s, rest))
  {
    if s == [] {
      assert [] + [QUOTE] + rest == [QUOTE] + rest;
      assert ([QUOTE] + rest)[1..] == rest;
    } else {
      var more := Escape(s[1..]) + [QUOTE] + rest;
      assert Escape(s) + [QUOTE] + rest == EscapeByte(s[0]) + more;
      ByteRoundTrip(s[0], more);
      StringRoundTrip(s[1..], rest);
      assert [s[0]] + s[1..] == s;
    }
  }

  lemma QuotedRoundTrip(s: Bytes, rest: Bytes)
    ensures ScanString(Quoted(s) + rest) == Some((s, rest))
  {
    StringRoundTrip(s, rest);
    assert (Quoted(s) + rest)[1..] == Escape(s) + [QUOTE] + rest;
  }

  /** Printable text is carried as itself. */
  lemma {:induction false} EscapePlain(s: Bytes)
    requires Plain(s)
    ensures Escape(s) == s
  {
    if s != [] {
      assert s[0] in s && forall c | c in s[1..] :: c in s;
      EscapePlain(s[1..]);
      assert [s[0]] + s[1..] == s;
    }
  }

  lemma {:induction false} EscapeAppend(a: Bytes, b: Bytes)
    ensures Escape(a + b) == Escape(a) + Escape(b)
  {
    if a == [] {
      assert a + b == b;
    } else {
      assert (a + b)[1..] == a[1..] + b;
      EscapeAppend(a[1..], b);
      assert EscapeByte(a[0]) + (Escape(a[1..]) + Escape(b)) == EscapeByte(a[0]) + Escape(a[1..]) + Escape(b);
    }
  }

  // ------------------------------------------------------------------ one line

  lemma NoSpace(s: Bytes)
    requires s != [] && !IsSpace(s[0])
    ensures SkipSpace(s) == s
  {
  }

  lemma ValueRoundTrip(env: Env, value: Bytes, rest: Bytes)
    ensures AfterKey(env, [COLON] + (Quoted(value) + rest)) == Some((value, rest))
  {
    var v := Quoted(value) + rest;
    var t := [COLON] + v;
    NoSpace(t);
    assert t[1..] == v && v[0] == QUOTE;
    NoSpace(v);
    QuotedRoundTrip(value, rest);
  }

  lemma PairRoundTrip(env: Env, f: Field, rest: Bytes)
    ensures ScanPair(env, Pair(f) + rest) == Some((f, rest))
  {
    var t := [COLON] + (Quoted(f.value) + rest);
    assert Pair(f) + rest == Quoted(f.key) + t;
    QuotedRoundTrip(f.key, t);
    ValueRoundTrip(env, f.value, rest);
  }

  /** Reading one more pair after a comma. */
  lemma PairsStep(env: Env, f: Field, rest: Bytes)
    ensures ScanPairs(env, [COMMA] + (Pair(f) + rest), false) == Then([f], ScanPairs(env, rest, false))
  {
    var u := Pair(f) + rest;
    var s := [COMMA] + u;
    NoSpace(s);
    assert s[1..] == u && u[0] == QUOTE;
    NoSpace(u);
    PairRoundTrip(env, f, rest);
  }

  lemma MorePairsApart(fs: seq<Field>, rest: Bytes)
    requires fs != []
    ensures MorePairs(fs) + rest == [COMMA] + (Pair(fs[0]) + (MorePairs(fs[1..]) + rest))
  {
    Regrouped(COMMA, Pair(fs[0]), MorePairs(fs[1..]), rest);
  }

  lemma Regrouped(c: byte, a: Bytes, b: Bytes, rest: Bytes)
    ensures [c] + (a + b) + rest == [c] + (a + (b + rest))
  {
  }

  lemma {:induction false} MorePairsRoundTrip(env: Env, fs: seq<Field>)
    ensures ScanPairs(env, MorePairs(fs) + [RBRACE], false) == Some(fs)
  {
    if fs == [] {
      var s: Bytes := MorePairs(fs) + [RBRACE];
      assert s == [RBRACE] && s[1..] == [];
      NoSpace(s);
    } else {
      var more := MorePairs(fs[1..]) + [RBRACE];
      MorePairsApart(fs, [RBRACE]);
      PairsStep(env, fs[0], more);
      MorePairsRoundTrip(env, fs[1..]);
      assert [fs[0]] + fs[1..] == fs;
    }
  }

  /** Reading the first pair. */
  lemma FirstPair(env: Env, f: Field, rest: Bytes)
    ensures ScanPairs(env, Pair(f) + rest, true) == Then([f], ScanPairs(env, rest, false))
  {
    var u := Pair(f) + rest;
    assert u[0] == QUOTE;
    NoSpace(u);
    PairRoundTrip(env, f, rest);
  }

  lemma EmptyObject(env: Env)
    ensures ScanPairs(env, [RBRACE], true) == Some([])
  {
    NoSpace([RBRACE]);
    assert [RBRACE][1..] == [];
  }

  lemma OpenLine(env: Env, s: Bytes)
    ensures ScanObject(env, [LBRACE] + s) == ScanPairs(env, s, true)
  {
    NoSpace([LBRACE] + s);
    assert ([LBRACE] + s)[1..] == s;
  }

  /** A printed line reads back as exactly the fields printed, in order, whatever bytes they hold. */
  lemma LineRoundTrip(env: Env, fs: seq<Field>)
    ensures ScanObject(env, Line(fs)) == Some(fs)
  {
    OpenLine(env, Pairs(fs) + [RBRACE]);
    if fs == [] {
      assert Pairs(fs) + [RBRACE] == [RBRACE];
      EmptyObject(env);
    } else {
      var more := MorePairs(fs[1..]) + [RBRACE];
      assert Pairs(fs) + [RBRACE] == Pair(fs[0]) + more;
      FirstPair(env, fs[0], more);
      MorePairsRoundTrip(env, fs[1..]);
      assert [fs[0]] + fs[1..] == fs;
    }
  }

  /** Distinct field lists print as distinct lines. */
  lemma LineInjective(a: seq<Field>, b: seq<Field>)
    requires Line(a) == Line(b)
    ensures a == b
  {
    var env := Env(t => [], s => None, s => None, s => [], s => false);
    LineRoundTrip(env, a);
    LineRoundTrip(env, b);
  }

  // ------------------------------------------------------------------ rows

  lemma {:induction false} KeptTimes(fs: seq<Field>, stamped: bool, withStream: bool)
    ensures stamped ==> !HasTime(Kept(fs, stamped, withStream))
    ensures !stamped ==> (HasTime(Kept(fs, stamped, withStream)) <==> HasTime(fs))
  {
    if fs != [] {
      var n := |fs| - 1;
      KeptTimes(fs[..n], stamped, withStream);
      assert fs == fs[..n] + [fs[n]];
      assert HasTime(fs) <==> HasTime(fs[..n]) || fs[n].key == TIME by { HasTimeSnoc(fs[..n], fs[n]); }
      HasTimeSnoc(Kept(fs[..n], stamped, withStream), fs[n]);
    }
  }

  lemma HasTimeSnoc(fs: seq<Field>, f: Field)
    ensures HasTime(fs + [f]) <==> HasTime(fs) || f.key == TIME
  {
    assert f in fs + [f] && forall x | x in fs :: x in fs + [f];
  }

  /** `_time` appears at most once. */
  predicate OneTime(fs: seq<Field>) {
    forall i, j | 0 <= i < j < |fs| :: fs[i].key != TIME || fs[j].key != TIME
  }

  lemma {:induction false} KeptOneTime(fs: seq<Field>, stamped: bool, withStream: bool)
    ensures OneTime(Kept(fs, stamped, withStream))
  {
    if fs != [] {
      var n := |fs| - 1;
      var kept := Kept(fs[..n], stamped, withStream);
      KeptOneTime(fs[..n], stamped, withStream);
      KeptTimes(fs[..n], stamped, withStream);
      if fs[n].key == TIME && !stamped && !HasTime(fs[..n]) {
        assert forall i | 0 <= i < |kept| :: kept[i] in kept;
      }
    }
  }

  /** A line never carries `_time` twice, whatever the row held. */
  lemma EmittedOneTime(env: Env, row: Row, withStream: bool)
    ensures OneTime(Emitted(env, row, withStream))
  {
    var kept := Kept(row.fields, !row.noTime, withStream);
    KeptOneTime(row.fields, !row.noTime, withStream);
    KeptTimes(row.fields, !row.noTime, withStream);
    assert forall i | 0 <= i < |kept| :: kept[i] in kept;
  }

  // ------------------------------------------------------------------ which fields are printed

  /** Field i of a row is printed in place: any field but a `_time` that follows another or the row's own
      timestamp, and, when the stream pair is printed at the end, but that pair's two keys. */
  predicate Printed(fs: seq<Field>, i: nat, stamped: bool, withStream: bool)
    requires i < |fs|
  {
    && (fs[i].key == TIME ==> !stamped && forall j | 0 <= j < i :: fs[j].key != TIME)
    && (withStream ==> fs[i].key != STREAM && fs[i].key != STREAM_ID)
  }

  /** The places `at` are the printed ones among the first n, in order. */
  ghost predicate Places(fs: seq<Field>, n: nat, at: seq<nat>, stamped: bool, withStream: bool)
    requires n <= |fs|
  {
    && (forall k | 0 <= k < |at| :: at[k] < n && Printed(fs, at[k], stamped, withStream))
    && (forall j, k | 0 <= j < k < |at| :: at[j] < at[k])
    && (forall i: nat | i < n && Printed(fs, i, stamped, withStream) :: i in at)
  }

  function PickAt(fs: seq<Field>, at: seq<nat>): (r: seq<Field>)
    requires forall k | 0 <= k < |at| :: at[k] < |fs|
    ensures |r| == |at| && forall k | 0 <= k < |at| :: r[k] == fs[at[k]]
  {
    seq(|at|, k requires 0 <= k < |at| => fs[at[k]])
  }

  lemma HasTimeBefore(fs: seq<Field>, n: nat)
    requires n <= |fs|
    ensures HasTime(fs[..n]) <==> exists j :: 0 <= j < n && fs[j].key == TIME
  {
    if j :| 0 <= j < n && fs[j].key == TIME { assert fs[..n][j] in fs[..n]; }
  }

  lemma {:induction false} KeptPlaces(fs: seq<Field>, n: nat, stamped: bool, withStream: bool) returns (at: seq<nat>)
    requires n <= |fs|
    ensures Places(fs, n, at, stamped, withStream) && Kept(fs[..n], stamped, withStream) == PickAt(fs, at)
  {
    at := [];
    if n > 0 {
      var m := n - 1;
      at := KeptPlaces(fs, m, stamped, withStream);
      assert fs[..n][..m] == fs[..m] && fs[..n][m] == fs[m];
      HasTimeBefore(fs, m);
      if Printed(fs, m, stamped, withStream) {
        assert PickAt(fs, at + [m]) == PickAt(fs, at) + [fs[m]];
        at := at + [m];
        assert m in at;
      }
    }
  }

  /** A line prints the row's timestamp if it has one, then the row's own printed fields in order, then
      the stream pair if asked for. */
  ghost predicate Prints(env: Env, row: Row, withStream: bool, out: seq<Field>) {
    exists at: seq<nat> ::
      && Places(row.fields, |row.fields|, at, !row.noTime, withStream)
      && out == (if row.noTime then [] else [Field(TIME, env.format(row.time))]) + PickAt(row.fields, at)
                + (if withStream then StreamPair(env, row.fields) else [])
  }

  lemma EmittedIsPrinted(env: Env, row: Row, withStream: bool)
    ensures Prints(env, row, withStream, Emitted(env, row, withStream))
  {
    var at := KeptPlaces(row.fields, |row.fields|, !row.noTime, withStream);
    assert row.fields[..|row.fields|] == row.fields;
  }

  /** The fields under the keys chosen, in order. */
  function Under(fs: seq<Field>, keys: Bytes -> bool): seq<Field> {
    if fs == [] then [] else Under(fs[..|fs| - 1], keys) + Picked(fs[|fs| - 1], keys)
  }

  function Picked(f: Field, keys: Bytes -> bool): seq<Field> {
    if keys(f.key) then [f] else []
  }

  lemma UnderSnoc(fs: seq<Field>, f: Field, keys: Bytes -> bool)
    ensures Under(fs + [f], keys) == Under(fs, keys) + Picked(f, keys)
  {
    assert (fs + [f])[..|fs|] == fs;
  }

  lemma FieldsAssoc(x: seq<Field>, y: seq<Field>, z: seq<Field>)
    ensures x + (y + z) == (x + y) + z
  {
  }

  lemma {:induction false} UnderAppend(a: seq<Field>, b: seq<Field>, keys: Bytes -> bool)
    ensures Under(a + b, keys) == Under(a, keys) + Under(b, keys)
  {
    if |b| == 0 {
      assert a + b == a;
      assert Under(a, keys) + [] == Under(a, keys);
    } else {
      var front, f := b[..|b| - 1], b[|b| - 1];
      UnderAppend(a, front, keys);
      calc {
        Under(a + b, keys);
        { assert b == front + [f]; FieldsAssoc(a, front, [f]); }
        Under((a + front) + [f], keys);
        { UnderSnoc(a + front, f, keys); }
        (Under(a, keys) + Under(front, keys)) + Picked(f, keys);
        { FieldsAssoc(Under(a, keys), Under(front, keys), Picked(f, keys)); }
        Under(a, keys) + (Under(front, keys) + Picked(f, keys));
        Under(a, keys) + Under(b, keys);
      }
    }
  }

  lemma {:induction false} UnderNone(fs: seq<Field>, keys: Bytes -> bool)
    requires forall i | 0 <= i < |fs| :: !keys(fs[i].key)
    ensures Under(fs, keys) == []
  {
    if fs != [] { UnderNone(fs[..|fs| - 1], keys); }
  }

  lemma {:induction false} KeptUnder(fs: seq<Field>, stamped: bool, withStream: bool, keys: Bytes -> bool)
    requires !keys(TIME) && (withStream ==> !keys(STREAM) && !keys(STREAM_ID))
    ensures Under(Kept(fs, stamped, withStream), keys) == Under(fs, keys)
  {
    if fs != [] {
      var n := |fs| - 1;
      KeptUnder(fs[..n], stamped, withStream, keys);
      UnderSnoc(Kept(fs[..n], stamped, withStream), fs[n], keys);
    }
  }

  /** Nothing else is lost, added or moved: under any keys but `_time`, and but the stream pair's when it
      is printed, a line carries exactly the row's fields in their order. */
  lemma FieldsSurvive(env: Env, row: Row, withStream: bool, keys: Bytes -> bool)
    requires !keys(TIME) && (withStream ==> !keys(STREAM) && !keys(STREAM_ID))
    ensures Under(Emitted(env, row, withStream), keys) == Under(row.fields, keys)
  {
    var tail := if withStream then StreamPair(env, row.fields) else [];
    KeptUnder(row.fields, !row.noTime, withStream, keys);
    BetweenUnder(Stamp(env, row), Kept(row.fields, !row.noTime, withStream), tail, keys);
  }

  lemma BetweenUnder(front: seq<Field>, mid: seq<Field>, tail: seq<Field>, keys: Bytes -> bool)
    requires forall i | 0 <= i < |front| :: !keys(front[i].key)
    requires forall i | 0 <= i < |tail| :: !keys(tail[i].key)
    ensures Under(front + mid + tail, keys) == Under(mid, keys)
  {
    UnderAppend(front + mid, tail, keys);
    UnderAppend(front, mid, keys);
    UnderNone(front, keys);
    UnderNone(tail, keys);
  }

  /** A row without a timestamp prints its first `_time` where it stands. */
  lemma FirstTimeInPlace(env: Env, row: Row, withStream: bool, i: nat, keys: Bytes -> bool)
    requires row.noTime && i < |row.fields| && row.fields[i].key == TIME
    requires forall j | 0 <= j < i :: row.fields[j].key != TIME
    requires forall k :: keys(k) <==> k != TIME && (withStream ==> k != STREAM && k != STREAM_ID)
    ensures Emitted(env, row, withStream) ==
            Under(row.fields[..i], keys) + [row.fields[i]] + Under(row.fields[i + 1..], keys)
            + (if withStream then StreamPair(env, row.fields) else [])
  {
    KeptFirstTime(row.fields, withStream, i, |row.fields|, keys);
    assert row.fields[..|row.fields|] == row.fields && row.fields[i + 1..|row.fields|] == row.fields[i + 1..];
  }

  lemma {:induction false} KeptFirstTime(fs: seq<Field>, withStream: bool, i: nat, n: nat, keys: Bytes -> bool)
    requires i < n <= |fs| && fs[i].key == TIME && forall j | 0 <= j < i :: fs[j].key != TIME
    requires forall k :: keys(k) <==> k != TIME && (withStream ==> k != STREAM && k != STREAM_ID)
    ensures Kept(fs[..n], false, withStream) == Under(fs[..i], keys) + [fs[i]] + Under(fs[i + 1..n], keys)
  {
    var m := n - 1;
    assert fs[..n][..m] == fs[..m];
    HasTimeBefore(fs, m);
    if i == m {
      KeptNoTime(fs, withStream, i, keys);
      assert Under(fs[..i], keys) + [fs[i]] + [] == Under(fs[..i], keys) + [fs[i]];
    } else {
      KeptFirstTime(fs, withStream, i, m, keys);
      assert fs[i + 1..n] == fs[i + 1..m] + [fs[m]];
      UnderSnoc(fs[i + 1..m], fs[m], keys);
      FieldsAssoc(Under(fs[..i], keys) + [fs[i]], Under(fs[i + 1..m], keys), Picked(fs[m], keys));
      assert Kept(fs[..n], false, withStream) == Kept(fs[..m], false, withStream) + Picked(fs[m], keys);
    }
  }

  lemma {:induction false} KeptNoTime(fs: seq<Field>, withStream: bool, n: nat, keys: Bytes -> bool)
    requires n <= |fs| && forall j | 0 <= j < n :: fs[j].key != TIME
    requires forall k :: keys(k) <==> k != TIME && (withStream ==> k != STREAM && k != STREAM_ID)
    ensures Kept(fs[..n], false, withStream) == Under(fs[..n], keys)
  {
    if n > 0 {
      KeptNoTime(fs, withStream, n - 1, keys);
      assert fs[..n][..n - 1] == fs[..n - 1];
    }
  }

  /** v is the last non-empty value under the key. */
  predicate LastUnder(fs: seq<Field>, key: Bytes, v: Bytes) {
    exists i :: 0 <= i < |fs| && fs[i] == Field(key, v) && v != []
                && forall j | i < j < |fs| :: fs[j].key != key || fs[j].value == []
  }

  lemma LastUnderSnoc(fs: seq<Field>, key: Bytes, v: Bytes, f: Field)
    requires LastUnder(fs, key, v) && (f.key != key || f.value == [])
    ensures LastUnder(fs + [f], key, v)
  {
    var all := fs + [f];
    var i :| 0 <= i < |fs| && fs[i] == Field(key, v) && v != []
             && forall j | i < j < |fs| :: fs[j].key != key || fs[j].value == [];
    assert all[i] == Field(key, v);
  }

  lemma {:induction false} LastValueRight(fs: seq<Field>, key: Bytes)
    ensures LastValue(fs, key) == [] <==> forall i | 0 <= i < |fs| :: fs[i].key != key || fs[i].value == []
    ensures LastValue(fs, key) != [] ==> LastUnder(fs, key, LastValue(fs, key))
  {
    if fs != [] {
      var n := |fs| - 1;
      assert fs == fs[..n] + [fs[n]];
      LastValueRight(fs[..n], key);
      if fs[n].key == key && fs[n].value != [] {
        assert fs[n] == Field(key, LastValue(fs, key));
      } else if LastValue(fs, key) != [] {
        LastUnderSnoc(fs[..n], key, LastValue(fs, key), fs[n]);
      }
    }
  }

  lemma {:induction false} KeptNoStream(fs: seq<Field>, stamped: bool)
    ensures forall f | f in Kept(fs, stamped, true) :: f.key != STREAM && f.key != STREAM_ID
  {
    if fs != [] { KeptNoStream(fs[..|fs| - 1], stamped); }
  }

  /** With stream synthesis a line carries `_stream` and `_stream_id` exactly once, at its end: the
      row's own last non-empty value, or the empty stream and the id of the stream printed. */
  lemma StreamPairRight(env: Env, row: Row)
    ensures var fs := Emitted(env, row, true);
            var n := |fs|;
            && n >= 2 && fs[n - 2].key == STREAM && fs[n - 1].key == STREAM_ID
            && (forall i | 0 <= i < n - 2 :: fs[i].key != STREAM && fs[i].key != STREAM_ID)
            && (fs[n - 2].value == EMPTY_STREAM || LastUnder(row.fields, STREAM, fs[n - 2].value))
            && (fs[n - 1].value == env.streamId(fs[n - 2].value) || LastUnder(row.fields, STREAM_ID, fs[n - 1].value))
    ensures forall v | LastUnder(row.fields, STREAM, v) :: Emitted(env, row, true)[|Emitted(env, row, true)| - 2].value == v
    ensures forall v | LastUnder(row.fields, STREAM_ID, v) :: Emitted(env, row, true)[|Emitted(env, row, true)| - 1].value == v
  {
    var kept := Kept(row.fields, !row.noTime, true);
    KeptNoStream(row.fields, !row.noTime);
    assert forall i | 0 <= i < |kept| :: kept[i] in kept;
    LastValueRight(row.fields, STREAM);
    LastValueRight(row.fields, STREAM_ID);
    forall v | LastUnder(row.fields, STREAM, v) ensures v == LastValue(row.fields, STREAM) {
      LastUnique(row.fields, STREAM, v);
    }
    forall v | LastUnder(row.fields, STREAM_ID, v) ensures v == LastValue(row.fields, STREAM_ID) {
      LastUnique(row.fields, STREAM_ID, v);
    }
  }

  lemma LastUnique(fs: seq<Field>, key: Bytes, v: Bytes)
    requires LastUnder(fs, key, v)
    ensures v == LastValue(fs, key)
  {
    LastValueRight(fs, key);
    var i :| 0 <= i < |fs| && fs[i] == Field(key, v) && v != []
             && forall j | i < j < |fs| :: fs[j].key != key || fs[j].value == [];
    assert LastValue(fs, key) != [];
    var w := LastValue(fs, key);
    var k :| 0 <= k < |fs| && fs[k] == Field(key, w) && w != []
             && forall j | k < j < |fs| :: fs[j].key != key || fs[j].value == [];
    assert i == k;
  }

  /** Without stream synthesis a field list with one `_time` at most is printed as it is. */
  lemma {:induction false} KeptAll(fs: seq<Field>)
    requires OneTime(fs)
    ensures Kept(fs, false, false) == fs
  {
    if fs != [] {
      var n := |fs| - 1;
      KeptAll(fs[..n]);
      assert fs == fs[..n] + [fs[n]];
      assert fs[n].key == TIME ==> !HasTime(fs[..n]);
    }
  }

  /** The position-independent part: dropping every `_time`. */
  lemma {:induction false} KeptUntimed(fs: seq<Field>)
    requires !HasTime(fs)
    ensures Kept(fs, true, false) == fs
  {
    if fs != [] {
      var n := |fs| - 1;
      assert fs == fs[..n] + [fs[n]];
      HasTimeSnoc(fs[..n], fs[n]);
      KeptUntimed(fs[..n]);
    }
  }

  lemma {:induction false} KeptTail(fs: seq<Field>)
    requires fs != [] && fs[0].key == TIME
    ensures Kept(fs, true, false) == Kept(fs[1..], true, false)
  {
    if |fs| > 1 {
      var n := |fs| - 1;
      KeptTail(fs[..n]);
      assert fs[..n][1..] == fs[1..][..n - 1];
    }
  }

  lemma {:induction false} LiftedUntimed(env: Env, fs: seq<Field>)
    requires !HasTime(fs)
    ensures Lifted(env, fs) == None
  {
    if fs != [] {
      var n := |fs| - 1;
      assert fs == fs[..n] + [fs[n]];
      HasTimeSnoc(fs[..n], fs[n]);
      LiftedUntimed(env, fs[..n]);
    }
  }

  /** A timestamp is lifted exactly when some `_time` can be read, and from the first of them. */
  lemma {:induction false} LiftedExactly(env: Env, fs: seq<Field>)
    ensures Lifted(env, fs).None? <==> forall i | 0 <= i < |fs| && fs[i].key == TIME :: env.parse(fs[i].value).None?
    ensures forall i | 0 <= i < |fs| && fs[i].key == TIME && env.parse(fs[i].value).Some?
                       && (forall j | 0 <= j < i && fs[j].key == TIME :: env.parse(fs[j].value).None?) ::
              Lifted(env, fs) == env.parse(fs[i].value)
  {
    if fs != [] {
      var n := |fs| - 1;
      LiftedExactly(env, fs[..n]);
      assert forall i | 0 <= i < n :: fs[..n][i] == fs[i];
    }
  }

  /** Nothing but quotes, backslashes and control bytes is escaped. */
  lemma {:induction false} EscapesExactly(s: Bytes)
    ensures Escape(s) == s <==> Plain(s)
    ensures |Escape(s)| >= |s|
  {
    if s != [] {
      EscapesExactly(s[1..]);
      assert s == [s[0]] + s[1..];
      assert s[0] in s;
      if Plain(s) {
        assert forall c | c in s[1..] :: c in s;
      } else if PlainByte(s[0]) {
        assert !Plain(s[1..]);
        assert Escape(s)[1..] == Escape(s[1..]);
      }
    }
  }

  /** With one `_time` at most, what is lifted is that one's value. */
  lemma {:induction false} LiftedAt(env: Env, fs: seq<Field>, p: nat)
    requires p < |fs| && fs[p].key == TIME && OneTime(fs)
    ensures Lifted(env, fs) == env.parse(fs[p].value)
  {
    var n := |fs| - 1;
    if p < n {
      LiftedAt(env, fs[..n], p);
    } else {
      LiftedUntimed(env, fs[..n]);
    }
  }

  /** Reading a printed row gives its fields back. */
  lemma DecodeEncoded(env: Env, row: Row, withStream: bool)
    ensures Decode(env, Line(Emitted(env, row, withStream))) == RowOf(env, Emitted(env, row, withStream))
  {
    LineRoundTrip(env, Emitted(env, row, withStream));
  }

  /** What is printed, without stream synthesis, for the row these fields are read as. */
  function Reprint(env: Env, fs: seq<Field>): seq<Field> {
    var t := Lifted(env, fs);
    if t.None? then Kept(fs, false, false) else [Field(TIME, env.format(t.value))] + Kept(fs, true, false)
  }

  lemma ReprintIs(env: Env, fs: seq<Field>)
    ensures Emitted(env, RowOf(env, fs), false) == Reprint(env, fs)
  {
  }

  /** A leading `_time` that can be read is printed in its place. */
  lemma ReprintFront(env: Env, fs: seq<Field>)
    requires fs != [] && fs[0].key == TIME && OneTime(fs) && env.parse(fs[0].value).Some?
    ensures Reprint(env, fs) == [Field(TIME, env.format(env.parse(fs[0].value).value))] + fs[1..]
  {
    LiftedAt(env, fs, 0);
    KeptTail(fs);
    UntimedTail(fs);
    KeptUntimed(fs[1..]);
  }

  lemma UntimedTail(fs: seq<Field>)
    requires fs != [] && fs[0].key == TIME && OneTime(fs)
    ensures !HasTime(fs[1..])
  {
    assert forall i | 0 <= i < |fs[1..]| :: fs[1..][i] == fs[i + 1];
  }

  /** Field lists that read and print as themselves: no `_time`, or one that is not an instant, or one
      that stands first and is spelled as the printer spells it. */
  predicate SurvivesAs(env: Env, fs: seq<Field>) {
    forall p | 0 <= p < |fs| && fs[p].key == TIME ::
      var t := env.parse(fs[p].value);
      t.Some? ==> p == 0 && fs[p].value == env.format(t.value)
  }

  lemma ReprintExactly(env: Env, fs: seq<Field>)
    requires OneTime(fs)
    ensures Reprint(env, fs) == fs <==> SurvivesAs(env, fs)
  {
    if p: nat :| p < |fs| && fs[p].key == TIME {
      LiftedAt(env, fs, p);
      if env.parse(fs[p].value).None? {
        KeptAll(fs);
      } else if p == 0 {
        ReprintFront(env, fs);
        assert fs == [fs[0]] + fs[1..];
      } else {
        assert Reprint(env, fs)[0].key == TIME && fs[0].key != TIME;
      }
    } else {
      assert !HasTime(fs);
      LiftedUntimed(env, fs);
      KeptAll(fs);
    }
  }

  /** A row with a timestamp comes back at that timestamp, and printing what came back without
      stream synthesis gives the same line, byte for byte. */
  lemma StampedRoundTrip(env: Env, row: Row, withStream: bool)
    requires Faithful(env) && !row.noTime
    ensures
      var line := Line(Emitted(env, row, withStream));
      var back := Decode(env, line);
      && back == Row(row.time, false, Emitted(env, row, withStream))
      && Line(Emitted(env, back, false)) == line
  {
    var fs := Emitted(env, row, withStream);
    DecodeEncoded(env, row, withStream);
    EmittedOneTime(env, row, withStream);
    assert fs[0] == Field(TIME, env.format(row.time));
    LiftedAt(env, fs, 0);
    ReprintFront(env, fs);
    assert fs == [fs[0]] + fs[1..];
    ReprintIs(env, fs);
  }

  /** Whether a row without a timestamp survives being read and printed again. */
  predicate Survives(env: Env, row: Row, withStream: bool) {
    SurvivesAs(env, Emitted(env, row, withStream))
  }

  /** Exactly these rows are reproduced byte for byte. The others carry a `_time` field that is
      lifted, and the printed line moves it to the front or respells it. */
  lemma UnstampedRoundTripExactly(env: Env, row: Row, withStream: bool)
    requires row.noTime
    ensures
      var line := Line(Emitted(env, row, withStream));
      Line(Emitted(env, Decode(env, line), false)) == line <==> Survives(env, row, withStream)
  {
    var fs := Emitted(env, row, withStream);
    DecodeEncoded(env, row, withStream);
    EmittedOneTime(env, row, withStream);
    ReprintIs(env, fs);
    ReprintExactly(env, fs);
    if Line(Reprint(env, fs)) == Line(fs) { LineInjective(Reprint(env, fs), fs); }
  }

  /** Such a row: `_time` after another field, which comes back in front of it. */
  lemma LaterTimeIsMoved(env: Env, value: Bytes)
    requires env.parse(value).Some?
    ensures
      var row := Row(0, true, [Field(MSG, []), Field(TIME, value)]);
      var line := Line(Emitted(env, row, false));
      Line(Emitted(env, Decode(env, line), false)) != line
  {
    var fs := [Field(MSG, []), Field(TIME, value)];
    var row := Row(0, true, fs);
    assert OneTime(fs);
    KeptAll(fs);
    assert Emitted(env, row, false) == fs;
    assert !SurvivesAs(env, fs) by { assert fs[1].key == TIME; }
    UnstampedRoundTripExactly(env, row, false);
  }

  /** A row with neither a timestamp nor a `_time` field always survives. */
  lemma UntimedRoundTrip(env: Env, row: Row, withStream: bool)
    requires row.noTime && !HasTime(row.fields)
    ensures
      var line := Line(Emitted(env, row, withStream));
      && Decode(env, line) == Row(0, true, Emitted(env, row, withStream))
      && Line(Emitted(env, Decode(env, line), false)) == line
  {
    var fs := Emitted(env, row, withStream);
    KeptTimes(row.fields, false, withStream);
    var kept := Kept(row.fields, false, withStream);
    assert forall i | 0 <= i < |kept| :: kept[i] in kept;
    assert !HasTime(fs);
    LiftedUntimed(env, fs);
    DecodeEncoded(env, row, withStream);
    assert forall p | 0 <= p < |fs| :: fs[p] in fs;
    UnstampedRoundTripExactly(env, row, withStream);
  }

  // ------------------------------------------------------------------ framing

  predicate NoControl(s: Bytes) {
    forall c | c in s :: c >= 0x20
  }

  lemma {:induction false} EscapeNoControl(s: Bytes)
    ensures NoControl(Escape(s))
  {
    if s != [] { EscapeNoControl(s[1..]); }
  }

  lemma PairNoControl(f: Field)
    ensures NoControl(Pair(f))
  {
    EscapeNoControl(f.key);
    EscapeNoControl(f.value);
  }

  lemma {:induction false} MorePairsNoControl(fs: seq<Field>)
    ensures NoControl(MorePairs(fs))
  {
    if fs != [] {
      PairNoControl(fs[0]);
      MorePairsNoControl(fs[1..]);
    }
  }

  lemma LineNoControl(fs: seq<Field>)
    ensures NoControl(Line(fs))
  {
    if fs != [] {
      PairNoControl(fs[0]);
      MorePairsNoControl(fs[1..]);
    }
  }

  /** The body a shard sends for a list of rows' fields. */
  function Body(rows: seq<seq<Field>>): Bytes {
    if rows == [] then [] else Line(rows[0]) + ([NEWLINE] + Body(rows[1..]))
  }

  lemma {:induction false} SplitLine(current: Bytes, line: Bytes, rest: Bytes)
    requires NEWLINE !in line
    ensures SplitFrom(current, line + ([NEWLINE] + rest)) == Whole(current + line) + SplitFrom([], rest)
    decreases |line|
  {
    var body := line + ([NEWLINE] + rest);
    if line == [] {
      assert body == [NEWLINE] + rest && body[1..] == rest && current + line == current;
    } else {
      assert body[0] == line[0] && body[1..] == line[1..] + ([NEWLINE] + rest);
      SplitLine(current + [line[0]], line[1..], rest);
      assert current + [line[0]] + line[1..] == current + line;
    }
  }

  /** Cutting a body at its newlines recovers exactly the lines printed, because no printed line
      holds one: not one lost, joined or invented. */
  lemma {:induction false} FramingRoundTrip(rows: seq<seq<Field>>)
    ensures |Lines(Body(rows))| == |rows|
    ensures forall i | 0 <= i < |rows| :: Lines(Body(rows))[i] == Line(rows[i])
  {
    if rows != [] {
      LineNoControl(rows[0]);
      assert NEWLINE !in Line(rows[0]);
      SplitLine([], Line(rows[0]), Body(rows[1..]));
      assert [] + Line(rows[0]) == Line(rows[0]);
      FramingRoundTrip(rows[1..]);
      assert Lines(Body(rows)) == [Line(rows[0])] + Lines(Body(rows[1..]));
    }
  }

  lemma {:induction false} SkipEscaped(s: Bytes, rest: Bytes)
    ensures SkipRaw(Escape(s) + [QUOTE] + rest) == Some(rest)
  {
    if s == [] {
      assert [] + [QUOTE] + rest == [QUOTE] + rest;
      assert ([QUOTE] + rest)[1..] == rest;
    } else {
      var more := Escape(s[1..]) + [QUOTE] + rest;
      assert Escape(s) + [QUOTE] + rest == EscapeByte(s[0]) + more;
      SkipEscapedByte(s[0], more);
      SkipEscaped(s[1..], rest);
    }
  }

  lemma SkipEscapedByte(c: byte, rest: Bytes)
    ensures SkipRaw(EscapeByte(c) + rest) == SkipRaw(rest)
  {
    var s := EscapeByte(c) + rest;
    if c == QUOTE || c == BACKSLASH {
      assert s[2..] == rest;
    } else if c < 0x20 {
      var digits: Bytes := [ZERO, ZERO, HexDigit(c / 16), HexDigit(c % 16)];
      assert Plain(digits) by { assert forall i | 0 <= i < 4 :: PlainByte(digits[i]); }
      SkipPlain(digits, rest);
      assert s[2..] == digits + rest;
    } else {
      assert s[1..] == rest;
    }
  }

  lemma {:induction false} SkipPlain(s: Bytes, rest: Bytes)
    requires Plain(s)
    ensures SkipRaw(s + rest) == SkipRaw(rest)
  {
    if s == [] {
      assert s + rest == rest;
    } else {
      assert s[0] in s && forall c | c in s[1..] :: c in s;
      assert (s + rest)[1..] == s[1..] + rest;
      SkipPlain(s[1..], rest);
    }
  }

  lemma SkipQuoted(s: Bytes, rest: Bytes, depth: nat)
    ensures SkipComposite(Quoted(s) + rest, depth) == SkipComposite(rest, depth)
  {
    assert (Quoted(s) + rest)[1..] == Escape(s) + [QUOTE] + rest;
    SkipEscaped(s, rest);
  }

  lemma SkipColon(rest: Bytes, depth: nat)
    ensures SkipComposite([COLON] + rest, depth) == SkipComposite(rest, depth)
  {
    assert ([COLON] + rest)[1..] == rest;
  }

  lemma SkipPair(f: Field, rest: Bytes, depth: nat)
    ensures SkipComposite(Pair(f) + rest, depth) == SkipComposite(rest, depth)
  {
    var v := Quoted(f.value) + rest;
    assert Pair(f) + rest == Quoted(f.key) + ([COLON] + v);
    SkipQuoted(f.key, [COLON] + v, depth);
    SkipColon(v, depth);
    SkipQuoted(f.value, rest, depth);
  }

  lemma SkipComma(rest: Bytes, depth: nat)
    ensures SkipComposite([COMMA] + rest, depth) == SkipComposite(rest, depth)
  {
    assert ([COMMA] + rest)[1..] == rest;
  }

  lemma {:induction false} SkipMorePairs(fs: seq<Field>, rest: Bytes, depth: nat)
    ensures SkipComposite(MorePairs(fs) + rest, depth) == SkipComposite(rest, depth)
  {
    if fs == [] {
      assert MorePairs(fs) + rest == rest;
    } else {
      var more := MorePairs(fs[1..]) + rest;
      assert MorePairs(fs) + rest == [COMMA] + (Pair(fs[0]) + more);
      SkipComma(Pair(fs[0]) + more, depth);
      SkipPair(fs[0], more, depth);
      SkipMorePairs(fs[1..], rest, depth);
    }
  }

  /** The structural check accepts every printed line, braces and quotes in its fields included. */
  lemma LineAccepted(fs: seq<Field>)
    ensures LooksLikeObject(Line(fs))
  {
    NoSpace(Line(fs));
    var s := Pairs(fs) + [RBRACE];
    assert Line(fs)[1..] == s;
    if fs == [] {
      assert s == [RBRACE];
    } else {
      var more := MorePairs(fs[1..]) + [RBRACE];
      assert s == Pair(fs[0]) + more;
      SkipPair(fs[0], more, 1);
      SkipMorePairs(fs[1..], [RBRACE], 1);
    }
    assert SkipComposite(s, 1) == SkipComposite([RBRACE], 1);
    assert [RBRACE][1..] == [];
  }

  // ------------------------------------------------------------------ merge order

  lemma {:induction false} UpToPlain(s: Bytes, rest: Bytes)
    requires Plain(s)
    ensures UpTo(s + [QUOTE] + rest, QUOTE) == Some(s)
  {
    if s == [] {
      assert (s + [QUOTE] + rest)[0] == QUOTE;
    } else {
      assert s[0] in s && forall c | c in s[1..] :: c in s;
      assert (s + [QUOTE] + rest)[1..] == s[1..] + [QUOTE] + rest;
      UpToPlain(s[1..], rest);
      assert [s[0]] + s[1..] == s;
    }
  }

  lemma StampedPair(value: Bytes)
    requires Plain(value)
    ensures Pair(Field(TIME, value)) == TIME_MARK + (value + [QUOTE])
  {
    EscapePlain(value);
    TimeMark();
    PairApart(Quoted(TIME), value + [QUOTE]);
  }

  lemma TimeMark()
    ensures Quoted(TIME) + [COLON, QUOTE] == TIME_MARK
  {
    EscapePlain(TIME);
    assert [QUOTE] + (TIME + [QUOTE]) == [34, 95, 116, 105, 109, 101, 34];
  }

  lemma PairApart(a: Bytes, b: Bytes)
    ensures a + ([COLON] + ([QUOTE] + b)) == a + [COLON, QUOTE] + b
  {
  }

  lemma Regroup(a: Bytes, b: Bytes, c: Bytes, d: Bytes)
    ensures a + b + c + d == a + (b + (c + d))
  {
  }

  lemma StampedLineStarts(fs: seq<Field>, value: Bytes)
    requires fs != [] && fs[0] == Field(TIME, value) && Plain(value)
    ensures Line(fs) == [LBRACE] + (TIME_MARK + (value + [QUOTE] + (MorePairs(fs[1..]) + [RBRACE])))
  {
    StampedPair(value);
    Regroup(TIME_MARK, value + [QUOTE], MorePairs(fs[1..]), [RBRACE]);
  }

  /** The merge orders every timestamped row by its own timestamp, whatever its other fields hold. */
  lemma StampedLineTime(env: Env, row: Row, withStream: bool)
    requires Faithful(env) && !row.noTime
    ensures LineTime(env, Line(Emitted(env, row, withStream))) == row.time
  {
    var fs := Emitted(env, row, withStream);
    var value := env.format(row.time);
    StampedLineStarts(fs, value);
    var rest := MorePairs(fs[1..]) + [RBRACE];
    var tail := value + [QUOTE] + rest;
    FindMark(tail);
    UpToPlain(value, rest);
  }

  lemma FindMark(tail: Bytes)
    ensures After([LBRACE] + (TIME_MARK + tail), TIME_MARK) == Some(tail)
  {
    var s := [LBRACE] + (TIME_MARK + tail);
    assert s[0] != TIME_MARK[0];
    assert s[1..] == TIME_MARK + tail;
    assert (TIME_MARK + tail)[|TIME_MARK|..] == tail;
  }
}
