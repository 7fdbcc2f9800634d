/** The timestamps of the row codec are those of the calendar: a codec that prints instants as the
calendar does and reads them with the fast parser is faithful as soon as its general parser is. */
module RowClock {
  import opened Basics
  import opened Calendar
  import CP = CalendarParse
  import RC = RowCodec

  lemma DayOfInstant(days: int, rest: int, nanos: int)
    requires 0 <= rest < DAY && 0 <= nanos < SECOND && MIN64 <= (days * DAY + rest) * SECOND + nanos <= MAX64
    ensures -106753 <= days <= 106752
  {
  }

  lemma FourDigits(y: int, n: int)
    requires InYear(n, y) && -106753 <= n <= 106752
    ensures 0 <= y <= 9999
  {
    if y >= 10000 {
      YearsAddUp(y);
    } else if y < 0 {
      YearsAddUp(y);
    }
  }

  lemma DayInYear(c: Civil)
    requires ValidCivil(c)
    ensures InYear(Days(c.year, c.month, c.day), c.year)
  {
    MonthFits(c.year, c.month);
    MonthNonNegative(c.year, c.month);
  }

  /** An instant of 64 bits has a year of four digits. */
  lemma YearOfInstant(c: Civil)
    requires ValidCivil(c) && MIN64 <= Nanos(c) <= MAX64
    ensures 0 <= c.year <= 9999
  {
    var days := Days(c.year, c.month, c.day);
    DayOfInstant(days, c.hour * 3600 + c.minute * 60 + c.second, c.nanos);
    DayInYear(c);
    FourDigits(c.year, days);
  }

  predicate Harmless(c: byte) {
    48 <= c <= 58 || c == 45 || c == 46 || c == 84 || c == 90
  }

  predicate AllHarmless(s: Bytes) {
    forall c | c in s :: Harmless(c)
  }

  lemma HarmlessConcat(a: Bytes, b: Bytes)
    requires AllHarmless(a) && AllHarmless(b)
    ensures AllHarmless(a + b)
  {
  }

  lemma WholeHarmless(c: Civil)
    requires CP.Printable(c)
    ensures AllHarmless(CP.PrintWhole(c))
  {
  }

  lemma FractionHarmless(nanos: nat)
    ensures AllHarmless(CP.PrintFraction(nanos))
  {
    if nanos != 0 {
      var ds := CP.Trim(CP.Digits(nanos, 9));
      assert CP.AllDigits(ds);
      assert AllHarmless(ds) by { forall c | c in ds ensures Harmless(c) { assert Digit(c); } }
      HarmlessConcat([CP.DOT], ds);
    }
  }

  /** A printed timestamp needs no escape. */
  lemma PrintedPlain(c: Civil)
    requires CP.Printable(c)
    ensures RC.Plain(CP.Print(c))
  {
    var whole, f := CP.PrintWhole(c), CP.PrintFraction(c.nanos);
    WholeHarmless(c);
    FractionHarmless(c.nanos);
    HarmlessConcat(whole, f);
    HarmlessConcat(whole + f, [CP.ZED]);
    assert CP.Print(c) == whole + f + [CP.ZED];
    forall x | x in CP.Print(c) ensures RC.PlainByte(x) { assert Harmless(x); }
  }

  /** Instants are printed as their dates and read by the fast parser. */
  ghost predicate Clocked(env: RC.Env) {
    && (forall c | CP.Printable(c) && MIN64 <= Nanos(c) <= MAX64 :: env.format(Nanos(c)) == CP.Print(c))
    && forall s :: env.fast(s) == CP.FastOf(s)
  }

  lemma InstantRight(env: RC.Env, t: int64)
    requires Clocked(env)
    ensures RC.Plain(env.format(t)) && (env.fast(env.format(t)) == None || env.fast(env.format(t)) == Some(t))
  {
    var c := EveryInstantHasDate(t);
    YearOfInstant(c);
    assert env.format(Nanos(c)) == CP.Print(c);
    PrintedPlain(c);
    CP.PrintRoundTrip(c);
  }

  /** All that is left to ask of the general parser is that it reads what is printed. */
  lemma ClockedIsFaithful(env: RC.Env)
    requires Clocked(env) && forall t: int64 :: env.parse(env.format(t)) == Some(t)
    ensures RC.Faithful(env)
  {
    forall t: int64
      ensures RC.Plain(env.format(t)) && (env.fast(env.format(t)) == None || env.fast(env.format(t)) == Some(t))
    {
      InstantRight(env, t);
    }
  }

  /** The fast parser takes over for exactly the instants of the years 1678 to 2261. */
  lemma FastTakesExactly(env: RC.Env, c: Civil)
    requires Clocked(env) && ValidCivil(c) && MIN64 <= Nanos(c) <= MAX64
    ensures env.fast(env.format(Nanos(c))) == if 1678 <= c.year <= 2261 then Some(Nanos(c)) else None
  {
    YearOfInstant(c);
    assert env.format(Nanos(c)) == CP.Print(c);
    CP.PrintRoundTrip(c);
  }
}
