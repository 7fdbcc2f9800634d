/** The fast timestamp parser, in machine integers, and the printer it has to read. */
module CalendarParse {
  import opened Basics
  import opened Calendar

  /** The machine integer the parser computes in: an operation whose result leaves it is an error. */
  newtype Machine = x: int | -0x8000_0000_0000_0000 <= x <= 0x7fff_ffff_ffff_ffff

  const ZERO: byte := 48
  const DASH: byte := 45
  const DOT: byte := 46
  const COLON: byte := 58
  const TEE: byte := 84
  const ZED: byte := 90

  // ------------------------------------------------------------------ what is accepted

  predicate AllDigits(s: Bytes) {
    forall c | c in s :: Digit(c)
  }

  function Two(s: Bytes, at: nat): (r: Option<int>)
    requires at + 1 < |s|
    ensures r.Some? ==> 0 <= r.value <= 99
  {
    if Digit(s[at]) && Digit(s[at + 1]) then Some((s[at] - 48) * 10 + (s[at + 1] - 48)) else None
  }

  /** The fixed punctuation. */
  predicate Shaped(s: Bytes) {
    && |s| >= 20 && s[|s| - 1] == ZED && s[4] == DASH && s[7] == DASH && s[10] == TEE
    && s[13] == COLON && s[16] == COLON
  }

  /** 10^8, 10^7, ... 1, 0, 0, ...: what the k-th fraction digit is worth in nanoseconds. */
  function Worth(k: nat): nat {
    if k == 0 then 100_000_000 else Worth(k - 1) / 10
  }

  /** The nanoseconds a fraction names; digits past the ninth are worth nothing. */
  function FractionOf(ds: Bytes): int {
    if ds == [] then 0 else FractionOf(ds[..|ds| - 1]) + (ds[|ds| - 1] - 48) * Worth(|ds| - 1)
  }

  predicate NumbersRead(s: Bytes)
    requires |s| >= 20
  {
    && Two(s, 0).Some? && Two(s, 2).Some? && Two(s, 5).Some? && Two(s, 8).Some?
    && Two(s, 11).Some? && Two(s, 14).Some? && Two(s, 17).Some?
  }

  predicate FractionRead(s: Bytes)
    requires |s| >= 20
  {
    |s| == 20 || (s[19] == DOT && AllDigits(s[20..|s| - 1]))
  }

  function Fields(s: Bytes): Civil
    requires |s| >= 20 && NumbersRead(s)
  {
    Civil(Two(s, 0).value * 100 + Two(s, 2).value, Two(s, 5).value, Two(s, 8).value, Two(s, 11).value,
          Two(s, 14).value, Two(s, 17).value, if |s| == 20 then 0 else FractionOf(s[20..|s| - 1]))
  }

  /** The strings the fast path takes; every other one goes to the general parser. */
  predicate Accepts(s: Bytes) {
    && Shaped(s) && NumbersRead(s) && FractionRead(s)
    && 1 <= Fields(s).month <= 12 && 1678 <= Fields(s).year <= 2261
  }

  // ------------------------------------------------------------------ the parser

  lemma DayBounds(year: int, mo: int, dy: int)
    requires 1678 <= year <= 2261 && 1 <= mo <= 12 && 0 <= dy <= 99
    ensures -106652 <= Days(year, mo, dy) <= 106722
  {
    YearsAddUp(1678);
    YearsAddUp(2262);
    if year > 1678 { YearsGrow(1678, year); }
    YearsGrow(year, 2262);
    assert -106651 <= DaysToYear(year) && DaysToYear(year) + YearLength(year) <= 106651;
    MonthFits(year, mo);
    MonthNonNegative(year, mo);
    assert MonthLength(year, mo) >= 28;
  }

  method D2(s: Bytes, at: nat) returns (v: Machine, ok: bool)
    requires at + 1 < |s|
    ensures ok <==> Two(s, at).Some?
    ensures ok ==> v as int == Two(s, at).value
    ensures 0 <= v <= 99
  {
    if !Digit(s[at]) || !Digit(s[at + 1]) { return 0, false; }
    return (s[at] - 48) as Machine * 10 + (s[at + 1] - 48) as Machine, true;
  }

  lemma DigitTimes(d: int, scale: int)
    requires 0 <= d <= 9 && 0 <= scale
    ensures 0 <= d * scale <= 9 * scale
  {
  }

  lemma FractionStep(s: Bytes, k: nat)
    requires 20 <= k < |s|
    ensures FractionOf(s[20..k + 1]) == FractionOf(s[20..k]) + (s[k] - 48) * Worth(k - 20)
    ensures Worth(k + 1 - 20) == Worth(k - 20) / 10
    ensures AllDigits(s[20..k]) && Digit(s[k]) ==> AllDigits(s[20..k + 1])
  {
    assert s[20..k + 1] == s[20..k] + [s[k]];
  }

  method ReadFraction(s: Bytes, end: nat) returns (frac: Machine, ok: bool)
    requires 20 <= end <= |s|
    ensures ok <==> AllDigits(s[20..end])
    ensures ok ==> frac as int == FractionOf(s[20..end])
    ensures 0 <= frac <= 1_000_000_000
  {
    var scale: Machine := 100_000_000;
    frac := 0;
    var k := 20;
    while k < end
      invariant 20 <= k <= end
      invariant AllDigits(s[20..k])
      invariant 0 <= scale <= 100_000_000 && 0 <= frac <= 1_000_000_000 - 10 * scale
      invariant frac as int == FractionOf(s[20..k]) && scale as int == Worth(k - 20)
    {
      var c := s[k];
      assert c in s[20..end];
      if !Digit(c) { return 0, false; }
      FractionStep(s, k);
      DigitTimes(c - 48, scale as int);
      if scale > 0 {
        frac := frac + (c - 48) as Machine * scale;
        scale := scale / 10;
      }
      k := k + 1;
    }
    return frac, true;
  }

  /** The day number in machine integers. The source's correction of the era for a negative year is
      dead: an accepted year is at least 1678. */
  method DaysFrom(year: Machine, mo: Machine, dy: Machine) returns (days: Machine)
    requires 1678 <= year <= 2261 && 1 <= mo <= 12 && 0 <= dy <= 99
    ensures days as int == Days(year as int, mo as int, dy as int)
  {
    var yy := year;
    if mo <= 2 { yy := yy - 1; }
    var era := yy / 400;
    var yoe := yy - era * 400;
    var mp := (mo + 9) % 12;
    var doy := (153 * mp + 2) / 5 + dy - 1;
    var doe := yoe * 365 + yoe / 4 - yoe / 100 + doy;
    days := era * 146097 + doe - 719468;
    FastDaysRight(year as int, mo as int, dy as int);
  }

  /** No operation leaves the machine integer for any string whatever, day 99 and hour 99 included,
      and an accepted string yields the calendar's own count of nanoseconds. */
  method FastRFC3339Nano(s: Bytes) returns (ns: Machine, ok: bool)
    ensures ok <==> Accepts(s)
    ensures ok ==> ns as int == Nanos(Fields(s))
  {
    if |s| < 20 || s[|s| - 1] != ZED || s[4] != DASH || s[7] != DASH || s[10] != TEE || s[13] != COLON
       || s[16] != COLON {
      return 0, false;
    }
    var y1, ok1 := D2(s, 0);
    var y2, ok2 := D2(s, 2);
    var mo, ok3 := D2(s, 5);
    var dy, ok4 := D2(s, 8);
    var hh, ok5 := D2(s, 11);
    var mi, ok6 := D2(s, 14);
    var ss, ok7 := D2(s, 17);
    if !(ok1 && ok2 && ok3 && ok4 && ok5 && ok6 && ok7) || mo < 1 || mo > 12 { return 0, false; }
    var year := y1 * 100 + y2;
    if year < 1678 || year > 2261 { return 0, false; }
    var days := DaysFrom(year, mo, dy);
    DayBounds(year as int, mo as int, dy as int);
    ns := (days * 86400 + hh * 3600 + mi * 60 + ss) * 1_000_000_000;
    if |s| > 20 {
      if s[19] != DOT { return 0, false; }
      var frac, digits := ReadFraction(s, |s| - 1);
      if !digits { return 0, false; }
      ns := ns + frac;
    }
    return ns, true;
  }

  // ------------------------------------------------------------------ the printer

  function Print2(n: int): Bytes
    requires 0 <= n <= 99
  {
    [ZERO + n / 10, ZERO + n % 10]
  }

  /** The n low decimal digits of v, most significant first. */
  function Digits(v: nat, n: nat): (ds: Bytes)
    ensures |ds| == n
    ensures AllDigits(ds)
  {
    if n == 0 then [] else Digits(v / 10, n - 1) + [ZERO + v % 10]
  }

  /** Trailing zeros are not printed. */
  function Trim(ds: Bytes): (r: Bytes)
    ensures AllDigits(ds) ==> AllDigits(r)
  {
    if ds != [] && ds[|ds| - 1] == ZERO then Trim(ds[..|ds| - 1]) else ds
  }

  function PrintFraction(nanos: nat): Bytes {
    if nanos == 0 then [] else [DOT] + Trim(Digits(nanos, 9))
  }

  predicate Printable(c: Civil) {
    ValidCivil(c) && 0 <= c.year <= 9999
  }

  function Print(c: Civil): Bytes
    requires Printable(c)
  {
    Print2(c.year / 100) + Print2(c.year % 100) + [DASH] + Print2(c.month) + [DASH] + Print2(c.day) + [TEE]
    + Print2(c.hour) + [COLON] + Print2(c.minute) + [COLON] + Print2(c.second) + PrintFraction(c.nanos) + [ZED]
  }

  lemma {:induction false} TrimKeepsValue(ds: Bytes)
    ensures FractionOf(Trim(ds)) == FractionOf(ds)
  {
    if ds != [] && ds[|ds| - 1] == ZERO { TrimKeepsValue(ds[..|ds| - 1]); }
  }

  lemma WorthIs(k: nat)
    requires k <= 8
    ensures Worth(k) == Pow10(8 - k)
  {
    if k > 0 { WorthIs(k - 1); }
  }

  lemma DigitsStep(v: nat, k: nat)
    requires k > 0
    ensures FractionOf(Digits(v, k)) == FractionOf(Digits(v / 10, k - 1)) + v % 10 * Worth(k - 1)
  {
    assert Digits(v, k)[..k - 1] == Digits(v / 10, k - 1);
  }

  lemma Smaller(v: nat, p: nat)
    requires v < 10 * p
    ensures v / 10 < p
  {
  }

  /** The k low digits of v, read as a fraction, are v in units of the k-th place. */
  lemma {:induction false} FractionOfDigits(v: nat, k: nat)
    requires k <= 9 && v < Pow10(k)
    ensures FractionOf(Digits(v, k)) == v * Pow10(9 - k)
  {
    if k > 0 {
      var p := Pow10(9 - k);
      Smaller(v, Pow10(k - 1));
      FractionOfDigits(v / 10, k - 1);
      DigitsStep(v, k);
      WorthIs(k - 1);
      assert Pow10(9 - (k - 1)) == 10 * p;
      Shift(v, p);
    }
  }

  lemma Shift(v: nat, p: nat)
    ensures v / 10 * (10 * p) + v % 10 * p == v * p
  {
    assert v == 10 * (v / 10) + v % 10;
    assert (10 * (v / 10)) * p == v / 10 * (10 * p);
  }

  lemma FractionRoundTrip(nanos: nat)
    requires nanos < SECOND
    ensures FractionOf(Trim(Digits(nanos, 9))) == nanos
  {
    TrimKeepsValue(Digits(nanos, 9));
    assert Pow10(9) == SECOND by { assert Pow10(5) == 100_000; }
    FractionOfDigits(nanos, 9);
  }

  lemma PrintTwo(s: Bytes, at: nat, n: int)
    requires at + 1 < |s| && 0 <= n <= 99 && s[at] == Print2(n)[0] && s[at + 1] == Print2(n)[1]
    ensures Two(s, at) == Some(n)
  {
  }

  /** The printed date and time, without the fraction and the Z. */
  function PrintWhole(c: Civil): (s: Bytes)
    requires Printable(c)
    ensures |s| == 19
  {
    Print2(c.year / 100) + Print2(c.year % 100) + [DASH] + Print2(c.month) + [DASH] + Print2(c.day) + [TEE]
    + Print2(c.hour) + [COLON] + Print2(c.minute) + [COLON] + Print2(c.second)
  }

  lemma WholeRead(c: Civil, s: Bytes)
    requires Printable(c) && |s| >= 20 && PrintWhole(c) <= s && s[|s| - 1] == ZED
    ensures Shaped(s) && NumbersRead(s)
    ensures Fields(s).(nanos := 0) == c.(nanos := 0)
  {
    PrintTwo(s, 0, c.year / 100);
    PrintTwo(s, 2, c.year % 100);
    PrintTwo(s, 5, c.month);
    PrintTwo(s, 8, c.day);
    PrintTwo(s, 11, c.hour);
    PrintTwo(s, 14, c.minute);
    PrintTwo(s, 17, c.second);
  }

  /** Every printed timestamp reads back as the fields it was printed from, and is accepted exactly for
      the years whose nanoseconds always fit. */
  lemma PrintRoundTrip(c: Civil)
    requires Printable(c)
    ensures |Print(c)| >= 20 && NumbersRead(Print(c)) && Fields(Print(c)) == c
    ensures Accepts(Print(c)) <==> 1678 <= c.year <= 2261
  {
    var s := Print(c);
    var whole, f := PrintWhole(c), PrintFraction(c.nanos);
    assert s == whole + f + [ZED];
    WholeRead(c, s);
    if c.nanos != 0 {
      FractionRoundTrip(c.nanos);
      assert s[20..|s| - 1] == Trim(Digits(c.nanos, 9));
      assert s[19] == DOT;
    }
  }

  /** Two digits for each part, whatever they stand for. */
  function SpellWhole(c: Civil): Bytes
    requires 0 <= c.year <= 9999 && 0 <= c.month <= 99 && 0 <= c.day <= 99
    requires 0 <= c.hour <= 99 && 0 <= c.minute <= 99 && 0 <= c.second <= 99
  {
    Print2(c.year / 100) + Print2(c.year % 100) + [DASH] + Print2(c.month) + [DASH] + Print2(c.day) + [TEE]
    + Print2(c.hour) + [COLON] + Print2(c.minute) + [COLON] + Print2(c.second)
  }

  /** The number a run of digits stands for. */
  function Number(ds: Bytes): int {
    if ds == [] then 0
    else
      var c: int := ds[|ds| - 1];
      Number(ds[..|ds| - 1]) * 10 + (c - 48)
  }

  lemma {:induction false} FractionIs(ds: Bytes)
    requires |ds| <= 9
    ensures FractionOf(ds) == Number(ds) * Pow10(9 - |ds|)
  {
    if ds != [] {
      var n := |ds| - 1;
      FractionIs(ds[..n]);
      WorthIs(n);
      assert Pow10(9 - n) == 10 * Pow10(9 - |ds|);
      var c: int := ds[n];
      Regroup(Number(ds[..n]), c - 48, Pow10(9 - |ds|));
    }
  }

  lemma Regroup(a: int, d: int, p: int)
    ensures a * (10 * p) + d * p == (a * 10 + d) * p
  {
  }

  lemma {:induction false} WorthNothing(k: nat)
    requires k >= 9
    ensures Worth(k) == 0
  {
    if k > 9 { WorthNothing(k - 1); } else { WorthIs(8); }
  }

  /** Digits past the ninth are dropped. */
  lemma {:induction false} FractionTruncates(ds: Bytes)
    requires |ds| >= 9
    ensures FractionOf(ds) == Number(ds[..9])
    decreases |ds|
  {
    if |ds| == 9 {
      FractionIs(ds);
      assert ds[..9] == ds;
    } else {
      var n := |ds| - 1;
      WorthNothing(n);
      FractionTruncates(ds[..n]);
      assert ds[..n][..9] == ds[..9];
    }
  }

  lemma TwoSpelled(s: Bytes, at: nat)
    requires at + 1 < |s| && Two(s, at).Some?
    ensures s[at..at + 2] == Print2(Two(s, at).value)
  {
    assert s[at..at + 2] == [s[at], s[at + 1]];
  }

  /** Whatever the fast path takes is the spelling of the date and time it read, then a fraction of which
      nine digits count, then Z. */
  lemma AcceptedIsSpelled(s: Bytes)
    requires Accepts(s)
    ensures s[..19] == SpellWhole(Fields(s)) && s[|s| - 1] == ZED
    ensures |s| == 20 ==> Fields(s).nanos == 0
    ensures |s| > 20 ==>
              var ds := s[20..|s| - 1];
              && s[19] == DOT && AllDigits(ds)
              && Fields(s).nanos == if |ds| <= 9 then Number(ds) * Pow10(9 - |ds|) else Number(ds[..9])
  {
    TwoSpelled(s, 0);
    TwoSpelled(s, 2);
    TwoSpelled(s, 5);
    TwoSpelled(s, 8);
    TwoSpelled(s, 11);
    TwoSpelled(s, 14);
    TwoSpelled(s, 17);
    var c := Fields(s);
    assert c.year / 100 == Two(s, 0).value && c.year % 100 == Two(s, 2).value;
    assert s[..19] == s[0..2] + s[2..4] + [s[4]] + s[5..7] + [s[7]] + s[8..10] + [s[10]] + s[11..13] + [s[13]] + s[14..16] + [s[16]] + s[17..19];
    if |s| > 20 {
      var ds := s[20..|s| - 1];
      if |ds| <= 9 { FractionIs(ds); } else { FractionTruncates(ds); }
    }
  }

  /** The merge key of printed timestamps orders them as the calendar does. */
  lemma PrintedOrder(a: Civil, b: Civil)
    requires Printable(a) && Printable(b) && 1678 <= a.year <= 2261 && 1678 <= b.year <= 2261
    ensures Accepts(Print(a)) && Accepts(Print(b))
    ensures Nanos(Fields(Print(a))) < Nanos(Fields(Print(b))) <==> Earlier(a, b)
  {
    PrintRoundTrip(a);
    PrintRoundTrip(b);
    if Earlier(a, b) {
      NanosMonotone(a, b);
    } else if Earlier(b, a) {
      NanosMonotone(b, a);
    } else {
      assert a == b;
    }
  }

  // ------------------------------------------------------------------ as functions

  lemma AcceptedFits(s: Bytes)
    requires Accepts(s)
    ensures MIN64 <= Nanos(Fields(s)) <= MAX64
  {
    var c := Fields(s);
    DayBounds(c.year, c.month, c.day);
    if |s| > 20 { FractionBounds(s[20..|s| - 1]); }
  }

  lemma {:induction false} FractionBounds(ds: Bytes)
    requires AllDigits(ds)
    ensures 0 <= FractionOf(ds) <= SECOND - 10 * Worth(|ds|)
  {
    if ds != [] {
      var n := |ds| - 1;
      assert ds == ds[..n] + [ds[n]];
      assert forall c | c in ds[..n] :: c in ds;
      assert ds[n] in ds;
      FractionBounds(ds[..n]);
      DigitTimes(ds[n] - 48, Worth(n));
    }
  }

  /** What the fast parser answers. */
  function FastOf(s: Bytes): Option<int64> {
    if Accepts(s) then AcceptedFits(s); Some(Nanos(Fields(s))) else None
  }
}
