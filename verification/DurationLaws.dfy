/** What printing and parsing durations promise together. */
module DurationLaws {
  import opened Text
  import opened DurationText
  import opened FloatFraction
  import opened Binary64
  import opened JsonDuration

  function SignOf(d: int64): int { if d < 0 then -1 else 1 }

  /** A duration to the nearest microsecond, halves away from zero, capped. */
  function Canon(d: int64): int { SignOf(d) * (Micros(d) * 1_000) }

  lemma RenderStartsWithDigit(c: Clock)
    requires WellFormed(c)
    ensures Render(c) != "" && IsDigit(Render(c)[0])
  {
    assert Render(c)[0] == Front(c)[0];
  }

  lemma PrintedParts(d: int64)
    requires d != MIN64
    ensures WellFormed(ClockOf(Micros(d))) && Unsigned(Printed(d)) == Render(ClockOf(Micros(d)))
    ensures Sign(Printed(d)) == SignOf(d) && Printed(d) == SignText(d) + Unsigned(Printed(d))
  {
    ClockOfMeaning(Micros(d));
    RenderStartsWithDigit(ClockOf(Micros(d)));
  }

  lemma ClockTextReading(fl: real -> real, s: string, c: Clock)
    requires WellFormed(c) && Unsigned(s) == Render(c)
    ensures Accepted(s) && Meaning(s) == Sign(s) * Nanos(c) && Reading(fl, s) == Sign(s) * ReadClock(fl, c)
  {
    ColonInRender(c);
    PiecesOfRender(c);
    AcceptedIsUnsigned(s);
  }

  lemma SmallestPieces()
    ensures Pieces("-2562047:-47:-16.").Some? && Pieces("-2562047:-47:-16.").value.mins == "-47"
  {
    assert "-2562047:-47:-16." == "-2562047" + ":" + "-47" + ":" + "-16.";
    CutFields("-2562047", "-47", "-16.");
  }

  lemma SmallestUnsigned()
    ensures Unsigned(Printed(MIN64)) == "-2562047:-47:-16."
  {
    assert "-2562047:-47:-16" + "." == "-2562047:-47:-16.";
    var p := Printed(MIN64);
    assert p == "-" + ("-2562047:-47:-16" + ".");
  }

  lemma SmallestRefused()
    ensures !Accepted(Printed(MIN64))
  {
    SmallestPieces();
    SmallestUnsigned();
    RenderOfPieces("-2562047:-47:-16.");
    ColonInRender(Pieces("-2562047:-47:-16.").value);
    AcceptedIsUnsigned(Printed(MIN64));
    assert !IsDigit("-47"[0]);
  }

  /** Every printed duration is accepted again, except the smallest one. */
  lemma PrintedAccepted(d: int64)
    ensures Accepted(Printed(d)) <==> d != MIN64
  {
    if d == MIN64 {
      SmallestRefused();
    } else {
      PrintedParts(d);
      ClockTextReading(Exact, Printed(d), ClockOf(Micros(d)));
    }
  }

  /** The printed text means the duration rounded to microseconds. */
  lemma PrintedMeaning(d: int64)
    requires d != MIN64
    ensures Accepted(Printed(d)) && Meaning(Printed(d)) == Canon(d)
  {
    PrintedParts(d);
    ClockOfMeaning(Micros(d));
    ClockTextReading(Exact, Printed(d), ClockOf(Micros(d)));
  }

  /** The printed text has no superfluous digit, and any shortest clock text with this
      sign and meaning is the printed one. */
  lemma PrintedCanonical(d: int64, c: Clock)
    requires d != MIN64 && WellFormed(c)
    ensures Shortest(ClockOf(Micros(d))) && Printed(d) == SignText(d) + Render(ClockOf(Micros(d)))
    ensures Shortest(c) && SignOf(d) * Nanos(c) == Canon(d) ==> Printed(d) == SignText(d) + Render(c)
  {
    PrintedParts(d);
    ClockOfMeaning(Micros(d));
    if Shortest(c) && SignOf(d) * Nanos(c) == Canon(d) {
      SameMeaning(c, Micros(d));
    }
  }

  /** `e` is the multiple of 1000 nearest to `d`, halves away from zero, with the sign of `d`;
      where that is out of range it is the largest multiple there is. */
  predicate NearestThousand(e: int, d: int) {
    var size, given := if e < 0 then -e else e, if d < 0 then -d else d;
    && e % 1_000 == 0 && (d >= 0 ==> e >= 0) && (d <= 0 ==> e <= 0)
    && (size - 500 <= given < size + 500 || (size == 9_223_372_036_854_775_000 && given >= size))
  }

  /** The printed text means, and is read exactly as, the duration to the nearest microsecond. */
  lemma PrintedRounding(d: int64)
    requires d != MIN64
    ensures Accepted(Printed(d))
    ensures Parsed(Exact, Printed(d)) == Meaning(Printed(d)) && NearestThousand(Meaning(Printed(d)), d)
  {
    PrintedMeaning(d);
    RoundTripExact(d);
    CanonIsNearest(d);
  }

  lemma CanonIsNearest(d: int64)
    requires d != MIN64
    ensures NearestThousand(Canon(d), d)
  {
    NearestMicro(Abs(d));
  }

  lemma NearestMicro(given: nat)
    requires given <= MAX64
    ensures var us := (given + 500) / 1_000;
            us * 1_000 - 500 <= given < us * 1_000 + 500 && us <= MAX_MICROS + 1
  {
  }

  lemma SameMeaning(c: Clock, us: nat)
    requires WellFormed(c) && Shortest(c) && Nanos(c) == us * 1_000
    ensures c == ClockOf(us)
  {
    ShortestUnique(c);
  }

  lemma WrapIsIdentity(x: int)
    requires MIN64 <= x <= MAX64
    ensures I64(x) == x
  {
  }

  /* ---------------------------------------------------------------- meaning of parsing */

  /** A bare number is days below a billion and nanoseconds from there on, with its sign. */
  lemma BareMeaning(n: nat)
    requires n < 9_223_372_036_854_775_808
    ensures Accepted(Dec(n)) && Accepted("-" + Dec(n))
    ensures Meaning(Dec(n)) == if n >= 1_000_000_000 then n else n * 86_400_000_000_000
    ensures Meaning("-" + Dec(n)) == -Meaning(Dec(n))
  {
    DecValue(n);
    DigitsHaveNoSeparator(Dec(n));
    assert IsDigit(Dec(n)[0]);
    AcceptedByForm(Dec(n));
    AcceptedByForm("-" + Dec(n));
    assert ("-" + Dec(n))[1..] == Dec(n);
  }

  lemma TextOfParts(d: string, h: string, m: string, s: string, f: string)
    ensures Render(Clock(Some(d), h, m, s, Some(f))) == d + "." + h + ":" + m + ":" + s + "." + f
  {
    assert (d + "." + h) + ":" + m + ":" + (s + "." + f) == d + "." + h + ":" + m + ":" + s + "." + f;
  }

  lemma MeaningOfClock(c: Clock, text: string)
    requires WellFormed(c) && text == Render(c)
    ensures Accepted(text) && Meaning(text) == Nanos(c)
  {
    RenderStartsWithDigit(c);
    ClockTextReading(Exact, text, c);
  }

  lemma NanosInNumbers(c: Clock, days: nat, hours: nat, mins: nat, secs: nat)
    requires WellFormed(c) && c.days.Some? && c.frac.Some? && |c.frac.value| == 9
    requires Value(c.days.value) == days && Value(c.hours) == hours && Value(c.mins) == mins && Value(c.secs) == secs
    ensures Nanos(c) == (((days * 24 + hours) * 60 + mins) * 60 + secs) * 1_000_000_000 + Value(c.frac.value)
  {
    FieldsInSeconds(days, hours, mins, secs);
    assert Pow10(0) == 1;
  }

  lemma PartsWellFormed(days: nat, hours: nat, mins: nat, secs: nat, frac: string)
    requires days < 0x1_0000_0000_0000_0000 && hours < 0x1_0000_0000_0000_0000 && mins < 100 && secs < 100
    requires AllDigits(frac) && |frac| == 9
    ensures var c := Clock(Some(Dec(days)), Dec(hours), Two(mins), Two(secs), Some(frac));
            && WellFormed(c) && Value(Dec(days)) == days && Value(Dec(hours)) == hours
            && Value(Two(mins)) == mins && Value(Two(secs)) == secs
  {
    DecValue(days);
    DecValue(hours);
    ValueOfTwo(mins);
    ValueOfTwo(secs);
  }

  /** A clock text counts days of 24 hours, hours, minutes and seconds; minutes and seconds
      may exceed 60, and nine fraction digits are nanoseconds. */
  lemma ClockMeaning(days: nat, hours: nat, mins: nat, secs: nat, frac: string)
    requires days < 0x1_0000_0000_0000_0000 && hours < 0x1_0000_0000_0000_0000 && mins < 100 && secs < 100
    requires AllDigits(frac) && |frac| == 9
    ensures var text := Dec(days) + "." + Dec(hours) + ":" + Two(mins) + ":" + Two(secs) + "." + frac;
            && Accepted(text)
            && Meaning(text) == (((days * 24 + hours) * 60 + mins) * 60 + secs) * 1_000_000_000 + Value(frac)
  {
    var c := Clock(Some(Dec(days)), Dec(hours), Two(mins), Two(secs), Some(frac));
    TextOfParts(Dec(days), Dec(hours), Two(mins), Two(secs), frac);
    PartsWellFormed(days, hours, mins, secs, frac);
    MeaningOfClock(c, Render(c));
    NanosInNumbers(c, days, hours, mins, secs);
  }

  lemma FieldsInSeconds(days: nat, hours: nat, mins: nat, secs: nat)
    ensures (days * 24 + hours) * HOUR + mins * MINUTE + secs * SECOND
            == (((days * 24 + hours) * 60 + mins) * 60 + secs) * 1_000_000_000
  {
  }

  /** An accepted text is a clock text or a bare number. */
  lemma ByForm(fl: real -> real, s: string) returns (c: Option<Clock>)
    requires Accepted(s)
    ensures c.Some? ==> && WellFormed(c.value) && Unsigned(s) == Render(c.value)
                        && Meaning(s) == Sign(s) * Nanos(c.value)
                        && Reading(fl, s) == Sign(s) * ReadClock(fl, c.value)
    ensures c.None? ==> Reading(fl, s) == Meaning(s)
  {
    AcceptedIsUnsigned(s);
    var t := Unsigned(s);
    if ':' in t {
      c := Pieces(t);
      RenderOfPieces(t);
      ClockTextReading(fl, s, c.value);
    } else {
      c := None;
    }
  }

  lemma ClockReadExactly(c: Clock)
    requires WellFormed(c)
    ensures ReadClock(Exact, c) == Nanos(c)
  {
    ExactReading(Fraction(c));
  }

  lemma ClockReadRounded(fl: real -> real, c: Clock)
    requires Machine(fl) && WellFormed(c)
    ensures Nanos(c) - 1 <= ReadClock(fl, c) <= Nanos(c) && ReadClock(fl, c) >= 0
    ensures c.frac.None? ==> ReadClock(fl, c) == Nanos(c)
  {
    RoundedReading(fl, Fraction(c));
    ReadingSign(fl, Fraction(c));
    if c.frac.None? {
      NothingRead(fl);
      assert Value("") == 0;
    }
  }

  lemma SignApart(sign: int, n: int, m: int)
    requires n - 1 <= m <= n
    ensures sign * m == sign * n || sign * m == sign * n - sign
  {
    assert m == n || m == n - 1;
    assert sign * (n - 1) == sign * n - sign;
  }

  lemma SameReadingExact(s: string)
    requires Accepted(s)
    ensures Reading(Exact, s) == Meaning(s)
  {
    var c := ByForm(Exact, s);
    if c.Some? {
      ClockReadExactly(c.value);
    }
  }

  lemma SameReadingRounded(fl: real -> real, s: string)
    requires Accepted(s) && Machine(fl)
    ensures Reading(fl, s) == Meaning(s) || Reading(fl, s) == Meaning(s) - Sign(s)
    ensures '.' !in Unsigned(s) ==> Reading(fl, s) == Meaning(s)
  {
    var c := ByForm(fl, s);
    if c.Some? {
      PointInRender(c.value);
      ClockReadRounded(fl, c.value);
      SignApart(Sign(s), Nanos(c.value), ReadClock(fl, c.value));
    }
  }

  /** In exact arithmetic the parsed duration is congruent, modulo 2^64, to the meaning
      of the text, and so equal to it whenever it fits, however large the numbers in the
      text or the products on the way. */
  lemma ParsedExactly(s: string)
    requires Accepted(s)
    ensures (Parsed(Exact, s) - Meaning(s)) % TWO64 == 0
    ensures MIN64 <= Meaning(s) <= MAX64 ==> Parsed(Exact, s) == Meaning(s)
  {
    SameReadingExact(s);
    WrapCongruent(Meaning(s));
  }

  lemma WrapCongruent(x: int)
    ensures (I64(x) - x) % TWO64 == 0
    ensures MIN64 <= x <= MAX64 ==> I64(x) == x
  {
    var j, k := WrapAmount(x);
    assert I64(x) - x == -j * TWO64;
  }

  /** Under any rounding arithmetic the meaning is missed by at most one nanosecond,
      toward zero, and only in texts with a fraction. */
  lemma ParsedRounded(fl: real -> real, s: string)
    requires Machine(fl) && Accepted(s)
    ensures Parsed(fl, s) == I64(Meaning(s)) || Parsed(fl, s) == I64(Meaning(s) - Sign(s))
    ensures '.' !in Unsigned(s) ==> Parsed(fl, s) == I64(Meaning(s))
  {
    SameReadingRounded(fl, s);
  }

  lemma PointInRender(c: Clock)
    ensures c.frac.Some? ==> '.' in Render(c)
  {
    if c.frac.Some? {
      assert Render(c)[|Front(c)| + 1 + |c.mins| + 1 + |c.secs|] == '.';
    }
  }

  /* ---------------------------------------------------------------- round trips */

  /** Printing and parsing back, in exact arithmetic, rounds to the microsecond and
      changes nothing else. */
  lemma RoundTripExact(d: int64)
    requires d != MIN64
    ensures Accepted(Printed(d)) && Parsed(Exact, Printed(d)) == Canon(d)
  {
    PrintedMeaning(d);
    ParsedExactly(Printed(d));
  }

  /** The quotes hold nothing but the printed text, so reading back through JSON gives
      the same. */
  lemma RoundTripThroughJson(d: int64, s: string)
    requires d != MIN64 && "\"" + s + "\"" == "\"" + Printed(d) + "\""
    ensures Accepted(s) && Parsed(Exact, s) == Canon(d)
  {
    Unquoting(Quoted(s));
    RoundTripExact(d);
  }

  /** The same with rounding arithmetic: at most one nanosecond is lost. */
  lemma RoundTripRounded(fl: real -> real, d: int64)
    requires Machine(fl) && d != MIN64
    ensures Accepted(Printed(d))
    ensures Parsed(fl, Printed(d)) == Canon(d) || Parsed(fl, Printed(d)) == Canon(d) - SignOf(d)
    ensures Micros(d) % 1_000_000 == 0 ==> Parsed(fl, Printed(d)) == Canon(d)
    ensures Micros(d) == 0 ==> Parsed(fl, Printed(d)) == 0
  {
    var c := ClockOf(Micros(d));
    PrintedParts(d);
    ClockOfMeaning(Micros(d));
    ClockTextReading(fl, Printed(d), c);
    ClockReadRounded(fl, c);
    ReadingInRange(d, ReadClock(fl, c));
  }

  lemma ReadingInRange(d: int64, n: nat)
    requires d != MIN64 && Micros(d) * 1_000 - 1 <= n <= Micros(d) * 1_000
    ensures I64(SignOf(d) * n) == SignOf(d) * n
  {
    WrapIsIdentity(SignOf(d) * n);
  }

  lemma MicrosOfNear(d: int64, e: int64)
    requires d != MIN64 && e != MIN64
    requires Abs(e) == Micros(d) * 1_000 || (Micros(d) > 0 && Abs(e) == Micros(d) * 1_000 - 1)
    ensures Micros(e) == Micros(d)
  {
  }

  /** Printing what was parsed from a printed text gives the same text, whatever the
      rounding of the fraction, except that a negative duration of less than half a
      microsecond loses its sign. */
  lemma PrintParsePrint(fl: real -> real, d: int64)
    requires Machine(fl) && d != MIN64
    ensures Accepted(Printed(d))
    ensures Printed(Parsed(fl, Printed(d))) == Printed(d) <==> !(-499 <= d <= -1)
    ensures -499 <= d <= -1 ==> Printed(Parsed(fl, Printed(d))) == Printed(0)
  {
    RoundTripRounded(fl, d);
    PrintedAgain(d, Parsed(fl, Printed(d)));
  }

  lemma PrintedAgain(d: int64, e: int64)
    requires d != MIN64 && (e == Canon(d) || e == Canon(d) - SignOf(d))
    requires Micros(d) == 0 ==> e == 0
    ensures Printed(e) == Printed(d) <==> !(-499 <= d <= -1)
    ensures -499 <= d <= -1 ==> Printed(e) == Printed(0)
  {
    if Micros(d) == 0 {
      RoundsToZero(d);
      assert Micros(e) == 0;
    } else {
      MicrosOfNear(d, e);
    }
    SignsDecide(d, e);
  }

  /** Durations that round to the same microsecond differ in print by their sign only. */
  lemma SignsDecide(d: int64, e: int64)
    requires d != MIN64 && e != MIN64 && Micros(d) == Micros(e)
    ensures Printed(d) == Printed(e) <==> SignOf(d) == SignOf(e)
  {
    PrintedParts(d);
    PrintedParts(e);
  }

  lemma RoundsToZero(d: int64)
    requires d != MIN64 && Micros(d) == 0
    ensures -499 <= d <= 499
  {
  }

  /* ---------------------------------------------------------------- lost nanoseconds */

  /** Arithmetic that is exact everywhere but at `n`, where it rounds down. */
  ghost function Low(n: real): real -> real { x => if x == n then n - ROUNDOFF * n else x }

  lemma LowRounds(n: real)
    requires n >= 11.0
    ensures Rounds(Low(n))
  {
    forall x: real ensures Near(Low(n), x) {
      AbsScaled(x);
    }
  }

  lemma {:induction false} LowMult(n: real, k: nat)
    requires n >= 11.0
    ensures Mult(Low(n), k) == Tenths(k) && 0.0 < Tenths(k) <= 1.0
  {
    if k > 0 {
      LowMult(n, k - 1);
    }
  }

  lemma LowIsMachine(n: real)
    requires n >= 11.0
    ensures Machine(Low(n))
  {
    LowRounds(n);
    LowMult(n, 9);
    TenthsByTable();
    NinthWeightDecides(Low(n), Tenths(9));
  }

  lemma {:induction false} LowSum(n: real, f: string)
    requires n >= 11.0 && AllDigits(f) && |f| <= 9
    ensures Sum(Low(n), f) == Weighted(f)
    decreases |f|
  {
    if f != "" {
      var init, d := f[..|f| - 1], DigitValue(f[|f| - 1]);
      LowSum(n, init);
      LowMult(n, |f|);
      WeightedRange(init);
      DigitTimes(Tenths(|f|), Tenths(|f|), d, 0.0);
      TimesIsProduct(1.0, d);
      LowPasses(n, Weighted(init), Times(Tenths(|f|), d));
      SumUnfolds(Low(n), f, init, f[|f| - 1]);
    }
  }

  lemma LowPasses(n: real, w: real, t: real)
    requires n >= 11.0 && 0.0 <= w <= 1.0 && 0.0 <= t <= 9.0
    ensures Low(n)(w + Low(n)(t)) == w + t
  {
  }

  lemma LowReading(f: string)
    requires AllDigits(f) && |f| <= 9 && FracNanos(f) >= 11
    ensures ReadNanos(Low(FracNanos(f) as real), f) == FracNanos(f) - 1
  {
    var n := FracNanos(f) as real;
    LowSum(n, f);
    WeightedNanos(f);
    WeightedRange(f);
    assert Low(n)(n) == n - ROUNDOFF * n;
  }

  /** Printing and parsing back is exact on every machine exactly for the durations that
      round to whole seconds. */
  lemma ExactOnEveryMachine(d: int64)
    requires d != MIN64
    ensures Accepted(Printed(d))
    ensures (forall fl: real -> real :: Machine(fl) ==> Parsed(fl, Printed(d)) == Canon(d))
            <==> Micros(d) % 1_000_000 == 0
  {
    PrintedAccepted(d);
    if Micros(d) % 1_000_000 == 0 {
      forall fl: real -> real | Machine(fl) ensures Parsed(fl, Printed(d)) == Canon(d) {
        RoundTripRounded(fl, d);
      }
    } else {
      var n := Micros(d) % 1_000_000 * 1_000;
      LowIsMachine(n as real);
      LowRoundTrip(d, n);
    }
  }

  lemma LowRoundTrip(d: int64, n: nat)
    requires d != MIN64 && n == Micros(d) % 1_000_000 * 1_000 && n > 0
    ensures Accepted(Printed(d)) && Parsed(Low(n as real), Printed(d)) == Canon(d) - SignOf(d)
  {
    var us := Micros(d);
    var c := ClockOf(us);
    PrintedParts(d);
    ClockOfMeaning(us);
    FractionMeaning(us / 1_000_000, us % 1_000_000);
    ClockTextReading(Low(n as real), Printed(d), c);
    LowReading(Fraction(c));
    LowClock(d, ReadClock(Low(n as real), c), us);
  }

  lemma LowClock(d: int64, m: int, us: nat)
    requires d != MIN64 && us == Micros(d) && us > 0 && m == us * 1_000 - 1
    ensures I64(SignOf(d) * m) == Canon(d) - SignOf(d)
  {
    ReadingInRange(d, m);
  }

  lemma FractionOfThirty()
    ensures Micros(30_200_000) == 30_200 && ClockOf(30_200).frac == Some("0302")
  {
    DigitsOf0302();
    ThirtyDigits("0302");
    FracOfMillis(30_200);
  }

  lemma FracOfMillis(us: nat)
    requires 0 < us < 1_000_000
    ensures ClockOf(us).frac == Some(FracDigits(us, 6))
  {
    BelowSecond(us);
    assert ClockOf(us) == ClockFrom(0, us);
  }

  lemma BelowSecond(us: nat)
    requires us < 1_000_000
    ensures us / 1_000_000 == 0 && us % 1_000_000 == us
  {
  }

  lemma ThirtyDigits(f: string)
    requires AllDigits(f) && |f| == 4 && f[3] != '0' && Value(f) == 302
    ensures FracDigits(30_200, 6) == f
  {
    assert Pow10(2) == 100;
    FracDigitsUnique(f, 6);
  }

  lemma ThirtyReading(c: Clock)
    requires c == ClockOf(30_200) && c.frac == Some("0302") && WellFormed(c) && Nanos(c) == 30_200_000
    ensures ReadClock(Round64, c) == 30_199_999
  {
    ThirtyPointTwoMillis();
  }

  /** In binary64 a duration of 30.2 milliseconds comes back one nanosecond short. */
  lemma Binary64LosesNanosecond()
    ensures Machine(Round64)
    ensures Accepted(Printed(30_200_000)) && Parsed(Round64, Printed(30_200_000)) == 30_199_999
  {
    Round64IsMachine();
    FractionOfThirty();
    PrintedParts(30_200_000);
    ClockOfMeaning(30_200);
    ClockTextReading(Round64, Printed(30_200_000), ClockOf(30_200));
    ThirtyReading(ClockOf(30_200));
    WrapIsIdentity(30_199_999);
  }
}
