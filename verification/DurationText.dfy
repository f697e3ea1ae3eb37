/** The text of a duration: which strings are accepted, what they mean, and the one
    shortest text of every whole number of microseconds. */
module DurationText {
  import opened Text

  /* ---------------------------------------------------------------- machine integers */

  const TWO64: int := 0x1_0000_0000_0000_0000
  const MAX64: int := 0x7FFF_FFFF_FFFF_FFFF
  const MIN64: int := -0x8000_0000_0000_0000

  type int64 = x: int | MIN64 <= x <= MAX64

  /** Wrap-around of a 64-bit signed result. */
  function I64(x: int): (r: int64) {
    var r := x % TWO64;
    if r > MAX64 then r - TWO64 else r
  }

  /** Wrap-around of a 64-bit unsigned result. */
  function U64(x: int): (r: nat) { x % TWO64 }

  lemma Congruence(a: int, b: int, k: int)
    requires a == b + k * TWO64
    ensures I64(a) == I64(b) && U64(a) == U64(b)
  {
    assert a / TWO64 == b / TWO64 + k && a % TWO64 == b % TWO64;
  }

  lemma WrapAmount(x: int) returns (j: int, k: int)
    ensures x == I64(x) + j * TWO64 && x == U64(x) + k * TWO64
  {
    k := x / TWO64;
    j := if x % TWO64 > MAX64 then k + 1 else k;
  }

  /* ---------------------------------------------------------------- units */

  const MICRO := 1_000
  const SECOND := 1_000_000_000
  const MINUTE := 60 * SECOND
  const HOUR := 60 * MINUTE
  const DAY := 24 * HOUR

  /** The largest number of whole microseconds a duration can hold. */
  const MAX_MICROS := 9_223_372_036_854_775

  function Pow10(k: nat): (p: nat)
    ensures p >= 1
  {
    if k == 0 then 1 else 10 * Pow10(k - 1)
  }

  /* ---------------------------------------------------------------- clock texts */

  /** The pieces of a clock text, each as it is written. */
  datatype Clock = Clock(days: Option<string>, hours: string, mins: string, secs: string, frac: Option<string>)

  predicate TwoDigits(s: string) { |s| == 2 && AllDigits(s) }

  predicate WellFormed(c: Clock) {
    && (c.days.Some? ==> ParseUint(c.days.value, TWO64).Some?)
    && ParseUint(c.hours, TWO64).Some?
    && TwoDigits(c.mins) && TwoDigits(c.secs)
    && (c.frac.Some? ==> AllDigits(c.frac.value) && |c.frac.value| <= 9)
  }

  /** [days.]hours:mins:secs[.frac] */
  function Render(c: Clock): string {
    Front(c) + ":" + c.mins + ":" + Back(c)
  }

  function Front(c: Clock): string {
    if c.days.Some? then c.days.value + "." + c.hours else c.hours
  }

  function Back(c: Clock): string {
    if c.frac.Some? then c.secs + "." + c.frac.value else c.secs
  }

  /** Cutting a text at its colons and first dots. */
  function Pieces(t: string): Option<Clock> {
    var fields := Split(t, ':');
    if |fields| != 3 then None
    else
      var hd := SplitOnce(fields[0], '.');
      var ss := SplitOnce(fields[2], '.');
      Some(Clock(
        if |hd| == 2 then Some(hd[0]) else None, if |hd| == 2 then hd[1] else hd[0],
        fields[1], ss[0], if |ss| == 2 then Some(ss[1]) else None))
  }

  lemma SplitOnceJoins(s: string, c: char)
    ensures var p := SplitOnce(s, c);
            if |p| == 2 then s == p[0] + [c] + p[1] else p == [s]
    ensures |SplitOnce(s, c)| == 2 <==> c in s
  {
    var i := IndexOf(s, c);
    if i < |s| {
      assert s == s[..i] + [c] + s[i + 1..];
    } else {
      assert s[..i] == s;
    }
  }

  lemma SplitInThree(t: string)
    requires |Split(t, ':')| == 3
    ensures var f := Split(t, ':'); t == f[0] + ":" + f[1] + ":" + f[2]
  {
    SplitParts(t, ':');
    var f := Split(t, ':');
    assert Join(f[1..], ':') == f[1] + ":" + Join(f[2..], ':');
    assert Join(f, ':') == f[0] + ":" + (f[1] + ":" + f[2]);
  }

  lemma DigitsHaveNoSeparator(s: string)
    requires AllDigits(s)
    ensures ':' !in s && '.' !in s
  {
  }

  lemma CutFront(c: Clock)
    requires WellFormed(c)
    ensures ':' !in Front(c)
    ensures SplitOnce(Front(c), '.') == if c.days.Some? then [c.days.value, c.hours] else [c.hours]
  {
    DigitsHaveNoSeparator(c.hours);
    if c.days.Some? {
      DigitsHaveNoSeparator(c.days.value);
      SplitCons(c.days.value, '.', c.hours);
    } else {
      SplitNone(c.hours, '.');
    }
  }

  lemma CutBack(c: Clock)
    requires WellFormed(c)
    ensures ':' !in Back(c)
    ensures SplitOnce(Back(c), '.') == if c.frac.Some? then [c.secs, c.frac.value] else [c.secs]
  {
    DigitsHaveNoSeparator(c.secs);
    if c.frac.Some? {
      DigitsHaveNoSeparator(c.frac.value);
      SplitCons(c.secs, '.', c.frac.value);
    } else {
      SplitNone(c.secs, '.');
    }
  }

  lemma CutFields(front: string, mid: string, back: string)
    requires ':' !in front && ':' !in mid && ':' !in back
    ensures Split(front + ":" + mid + ":" + back, ':') == [front, mid, back]
  {
    var tail := mid + ":" + back;
    assert front + ":" + mid + ":" + back == front + ":" + tail;
    SplitCons(front, ':', tail);
    SplitCons(mid, ':', back);
    SplitNone(back, ':');
  }

  /** Cutting undoes writing ... */
  lemma PiecesOfRender(c: Clock)
    requires WellFormed(c)
    ensures Pieces(Render(c)) == Some(c)
  {
    CutFront(c);
    CutBack(c);
    DigitsHaveNoSeparator(c.mins);
    CutFields(Front(c), c.mins, Back(c));
  }

  /** ... and writing undoes cutting. */
  lemma RenderOfPieces(t: string)
    requires Pieces(t).Some?
    ensures Render(Pieces(t).value) == t
  {
    SplitInThree(t);
    var f := Split(t, ':');
    SplitOnceJoins(f[0], '.');
    SplitOnceJoins(f[2], '.');
  }

  /* ---------------------------------------------------------------- the accepted language */

  function Unsigned(s: string): string { if s != [] && s[0] == '-' then s[1..] else s }

  function Sign(s: string): int { if s != [] && s[0] == '-' then -1 else 1 }

  /** An optional minus, then a decimal below 2^63 or a well-formed clock text. */
  ghost predicate Accepted(s: string) {
    || ParseUint(Unsigned(s), MAX64 + 1).Some?
    || exists c: Clock :: WellFormed(c) && Render(c) == Unsigned(s)
  }

  lemma ColonInRender(c: Clock)
    ensures ':' in Render(c)
  {
    assert Render(c)[|Front(c)|] == ':';
  }

  /** A text is a clock text exactly when cutting it gives well-formed pieces, so no text has two readings. */
  lemma ClockReading(t: string)
    ensures (exists c: Clock :: WellFormed(c) && Render(c) == t) <==> (Pieces(t).Some? && WellFormed(Pieces(t).value))
    ensures forall c: Clock :: WellFormed(c) && Render(c) == t ==> Pieces(t) == Some(c)
  {
    forall c: Clock | WellFormed(c) && Render(c) == t ensures Pieces(t) == Some(c) {
      PiecesOfRender(c);
    }
    if Pieces(t).Some? {
      RenderOfPieces(t);
    }
  }

  /** With a colon only the clock reading is possible, without one only the bare number. */
  lemma AcceptedByForm(s: string)
    ensures var t := Unsigned(s);
            Accepted(s) <==> if ':' in t then Pieces(t).Some? && WellFormed(Pieces(t).value)
                             else ParseUint(t, MAX64 + 1).Some?
  {
    var t := Unsigned(s);
    ClockReading(t);
    forall c: Clock | Render(c) == t ensures ':' in t {
      ColonInRender(c);
    }
  }

  /* ---------------------------------------------------------------- meaning */

  /** Nanoseconds of a fraction of at most nine digits. */
  function FracNanos(f: string): nat
    requires AllDigits(f) && |f| <= 9
  {
    Value(f) * Pow10(9 - |f|)
  }

  function Fraction(c: Clock): string { if c.frac.Some? then c.frac.value else "" }

  /** Nanoseconds of the part in front of the fraction. */
  function WholeNanos(c: Clock): nat
    requires WellFormed(c)
  {
    ((if c.days.Some? then Value(c.days.value) else 0) * 24 + Value(c.hours)) * HOUR
    + Value(c.mins) * MINUTE + Value(c.secs) * SECOND
  }

  function Nanos(c: Clock): nat
    requires WellFormed(c)
  {
    WholeNanos(c) + FracNanos(Fraction(c))
  }

  /** What a text stands for, as a number of nanoseconds of any size. A bare number
      counts days below 10^9 and nanoseconds from there on. */
  function Meaning(s: string): int
    requires Accepted(s)
  {
    AcceptedByForm(s);
    var t := Unsigned(s);
    if ':' in t then Sign(s) * Nanos(Pieces(t).value)
    else Sign(s) * (if Value(t) >= SECOND then Value(t) else Value(t) * DAY)
  }

  /* ---------------------------------------------------------------- printing */

  function Two(n: nat): string
    requires n < 100
  {
    [DigitChar(n / 10), DigitChar(n % 10)]
  }

  /** rem as exactly k digits. */
  function Padded(rem: nat, k: nat): (s: string)
    ensures |s| == k && AllDigits(s)
  {
    if k == 0 then "" else Padded(rem / 10, k - 1) + [DigitChar(rem % 10)]
  }

  /** The digits of rem / 10^k after the point, without trailing zeros. */
  function FracDigits(rem: nat, k: nat): (s: string)
    ensures |s| <= k && AllDigits(s)
  {
    if rem == 0 || k == 0 then ""
    else if rem % 10 == 0 then FracDigits(rem / 10, k - 1)
    else Padded(rem, k)
  }

  function ClockFrom(secs: nat, fus: nat): Clock {
    Clock(
      if secs >= 86_400 then Some(Dec(secs / 86_400)) else None,
      Two(secs / 3_600 % 24), Two(secs / 60 % 60), Two(secs % 60),
      if fus == 0 then None else Some(FracDigits(fus, 6)))
  }

  function ClockOf(us: nat): Clock { ClockFrom(us / 1_000_000, us % 1_000_000) }

  function Abs(x: int): nat { if x < 0 then -x else x }

  /** A duration to the nearest microsecond, halves away from zero, capped at the
      largest whole microsecond. */
  function Micros(d: int64): nat {
    var us := (Abs(d) + 500) / 1_000;
    if us > MAX_MICROS then MAX_MICROS else us
  }

  /** The text Marshal writes. The smallest duration has no positive counterpart
      and comes out malformed. */
  function Printed(d: int64): string {
    if d == MIN64 then "-" + "-2562047:-47:-16" + "."
    else (if d < 0 then "-" else "") + Render(ClockOf(Micros(d)))
  }

  /** No superfluous digit anywhere: two-digit clock fields in range, positive days
      without a leading zero, one to six fraction digits not ending in zero. */
  predicate Shortest(c: Clock) {
    && (c.days.Some? ==> Canonical(c.days.value) && c.days.value[0] != '0')
    && TwoDigits(c.hours) && Value(c.hours) < 24
    && TwoDigits(c.mins) && Value(c.mins) < 60
    && TwoDigits(c.secs) && Value(c.secs) < 60
    && (c.frac.Some? ==> var f := c.frac.value;
                         1 <= |f| <= 6 && AllDigits(f) && f[|f| - 1] != '0')
  }

  lemma TwoValue(s: string)
    requires TwoDigits(s)
    ensures Value(s) < 100 && Two(Value(s)) == s
  {
    assert s[..1][..0] == [];
    assert Value(s[..1]) == DigitValue(s[0]);
    assert s == [s[0], s[1]];
  }

  lemma ValueOfTwo(n: nat)
    requires n < 100
    ensures TwoDigits(Two(n)) && Value(Two(n)) == n
  {
    var s := Two(n);
    assert s[..1][..0] == [];
    assert Value(s[..1]) == DigitValue(s[0]);
  }

  lemma {:induction false} Pow10Add(a: nat, b: nat)
    ensures Pow10(a + b) == Pow10(a) * Pow10(b)
  {
    if a > 0 {
      Pow10Add(a - 1, b);
      assert Pow10(a + b) == 10 * Pow10(a - 1 + b);
      assert 10 * (Pow10(a - 1) * Pow10(b)) == (10 * Pow10(a - 1)) * Pow10(b);
    }
  }

  lemma {:induction false} ValueBound(t: string)
    requires AllDigits(t)
    ensures Value(t) < Pow10(|t|)
    decreases |t|
  {
    if t != [] {
      ValueBound(t[..|t| - 1]);
    }
  }

  lemma MultipleAtLeast(k: int, p: int)
    requires p >= 0
    ensures k >= 1 ==> k * p >= p
    ensures k <= -1 ==> k * p <= -p
  {
    if k >= 1 {
      assert (k - 1) * p >= 0;
    } else if k <= -1 {
      assert (-k - 1) * p >= 0;
    }
  }

  lemma Positive(a: int, b: int)
    requires a >= 1 && b >= 1
    ensures a * b >= 1
  {
  }

  lemma DigitStep(rem: nat, p: nat)
    requires p >= 1 && rem < 10 * p
    ensures rem / p < 10 && rem % p < p && rem == rem / p * p + rem % p
  {
    var q := rem / p;
    assert rem == p * q + rem % p;
    MultipleAtLeast(q - 9, p);
    assert (q - 9) * p == q * p - 9 * p;
  }

  lemma ValueSnoc(s: string, c: char)
    requires AllDigits(s) && IsDigit(c)
    ensures AllDigits(s + [c]) && Value(s + [c]) == 10 * Value(s) + DigitValue(c)
  {
    assert (s + [c])[..|s|] == s;
  }

  lemma LastDigit(rem: nat, p: nat)
    requires rem < 10 * p
    ensures rem / 10 < p && 10 * (rem / 10) + rem % 10 == rem
  {
  }

  lemma {:induction false} PaddedValue(rem: nat, k: nat)
    requires rem < Pow10(k)
    ensures Value(Padded(rem, k)) == rem
  {
    if k > 0 {
      LastDigit(rem, Pow10(k - 1));
      PaddedValue(rem / 10, k - 1);
      ValueSnoc(Padded(rem / 10, k - 1), DigitChar(rem % 10));
    }
  }

  lemma {:induction false} PaddedOfValue(s: string)
    requires AllDigits(s)
    ensures Padded(Value(s), |s|) == s
    decreases |s|
  {
    if s != [] {
      PaddedOfValue(s[..|s| - 1]);
      assert s == s[..|s| - 1] + [s[|s| - 1]];
    }
  }

  lemma TimesTen(v: int, q: int)
    ensures v * (10 * q) == 10 * (v * q)
  {
  }

  lemma Pow10Next(n: nat)
    ensures Pow10(n + 1) == 10 * Pow10(n)
  {
  }

  lemma ShiftTen(v: nat, q: nat, rem: nat)
    requires v * q == rem / 10 && rem % 10 == 0
    ensures v * (10 * q) == rem
  {
    TimesTen(v, q);
  }

  /** The fraction digits are shortest and stand for exactly the remainder. */
  lemma {:induction false} FracDigitsMeaning(rem: nat, k: nat)
    requires rem < Pow10(k)
    ensures var f := FracDigits(rem, k);
            && Value(f) * Pow10(k - |f|) == rem
            && (rem > 0 ==> |f| >= 1 && f[|f| - 1] != '0')
    decreases k
  {
    if rem == 0 || k == 0 {
      assert FracDigits(rem, k) == "" && Value("") == 0;
    } else if rem % 10 == 0 {
      LastDigit(rem, Pow10(k - 1));
      FracDigitsMeaning(rem / 10, k - 1);
      var f := FracDigits(rem / 10, k - 1);
      Pow10Next(k - 1 - |f|);
      ShiftTen(Value(f), Pow10(k - 1 - |f|), rem);
    } else {
      PaddedValue(rem, k);
      assert Pow10(0) == 1;
    }
  }

  /** Digits without a trailing zero are recovered from what they stand for. */
  lemma {:induction false} FracDigitsUnique(f: string, k: nat)
    requires AllDigits(f) && |f| <= k && (f != [] ==> f[|f| - 1] != '0')
    ensures Value(f) * Pow10(k - |f|) < Pow10(k)
    ensures FracDigits(Value(f) * Pow10(k - |f|), k) == f
    decreases k
  {
    if |f| == k {
      ValueBound(f);
      PaddedOfValue(f);
    } else {
      FracDigitsUnique(f, k - 1);
      FracDigitsShift(Value(f) * Pow10(k - 1 - |f|), k);
      TimesTen(Value(f), Pow10(k - 1 - |f|));
    }
  }

  lemma FracDigitsShift(rem: nat, k: nat)
    requires k >= 1
    ensures FracDigits(10 * rem, k) == FracDigits(rem, k - 1)
  {
  }

  lemma {:induction false} ValuePositive(t: string)
    requires AllDigits(t) && t != [] && t[|t| - 1] != '0'
    ensures Value(t) > 0
  {
  }

  /** Six fraction digits in nanoseconds. */
  lemma FracInMicros(f: string)
    requires AllDigits(f) && |f| <= 6
    ensures FracNanos(f) == Value(f) * Pow10(6 - |f|) * 1_000
  {
    Pow10Add(6 - |f|, 3);
    assert Pow10(3) == 1_000;
    var v, q := Value(f), Pow10(6 - |f|);
    assert v * (q * 1_000) == v * q * 1_000;
  }

  lemma SixDigits()
    ensures Pow10(6) == 1_000_000
  {
    assert Pow10(3) == 1_000;
    Pow10Add(3, 3);
  }

  lemma WholeMeaning(secs: nat, fus: nat)
    requires secs <= MAX_MICROS
    ensures var c := ClockFrom(secs, fus);
            && (c.days.Some? ==>
                  Canonical(c.days.value) && c.days.value[0] != '0' && ParseUint(c.days.value, TWO64).Some?)
            && TwoDigits(c.hours) && Value(c.hours) < 24
            && TwoDigits(c.mins) && Value(c.mins) < 60
            && TwoDigits(c.secs) && Value(c.secs) < 60
            && ((if c.days.Some? then Value(c.days.value) else 0) * 24 + Value(c.hours)) * HOUR
               + Value(c.mins) * MINUTE + Value(c.secs) * SECOND == secs * SECOND
  {
    ValueOfTwo(secs / 3_600 % 24);
    ValueOfTwo(secs / 60 % 60);
    ValueOfTwo(secs % 60);
    DecValue(secs / 86_400);
    ClockArithmetic(secs);
  }

  lemma FractionMeaning(secs: nat, fus: nat)
    requires fus < 1_000_000
    ensures var c := ClockFrom(secs, fus); var f := Fraction(c);
            && (c.frac.Some? ==> 1 <= |f| <= 6 && f[|f| - 1] != '0')
            && AllDigits(f) && |f| <= 6 && FracNanos(f) == fus * 1_000
  {
    SixDigits();
    FracDigitsMeaning(fus, 6);
    FracInMicros(Fraction(ClockFrom(secs, fus)));
  }

  lemma PartsMeaning(c: Clock, whole: nat, rest: nat)
    requires c.days.Some? ==>
               Canonical(c.days.value) && c.days.value[0] != '0' && ParseUint(c.days.value, TWO64).Some?
    requires TwoDigits(c.hours) && Value(c.hours) < 24
    requires TwoDigits(c.mins) && Value(c.mins) < 60 && TwoDigits(c.secs) && Value(c.secs) < 60
    requires ((if c.days.Some? then Value(c.days.value) else 0) * 24 + Value(c.hours)) * HOUR
             + Value(c.mins) * MINUTE + Value(c.secs) * SECOND == whole
    requires AllDigits(Fraction(c)) && |Fraction(c)| <= 6 && FracNanos(Fraction(c)) == rest
    requires c.frac.Some? ==> 1 <= |c.frac.value| && c.frac.value[|c.frac.value| - 1] != '0'
    ensures Shortest(c) && WellFormed(c) && Nanos(c) == whole + rest
  {
  }

  lemma ClockFromMeaning(secs: nat, fus: nat)
    requires secs <= MAX_MICROS && fus < 1_000_000
    ensures Shortest(ClockFrom(secs, fus)) && WellFormed(ClockFrom(secs, fus))
    ensures Nanos(ClockFrom(secs, fus)) == secs * SECOND + fus * 1_000
  {
    WholeMeaning(secs, fus);
    FractionMeaning(secs, fus);
    PartsMeaning(ClockFrom(secs, fus), secs * SECOND, fus * 1_000);
  }

  lemma SecondsAndRest(us: nat)
    ensures us / 1_000_000 * SECOND + us % 1_000_000 * 1_000 == us * 1_000
  {
  }

  /** Every number of microseconds has a shortest text, and it means that number. */
  lemma ClockOfMeaning(us: nat)
    requires us <= MAX_MICROS
    ensures Shortest(ClockOf(us)) && WellFormed(ClockOf(us))
    ensures Nanos(ClockOf(us)) == us * 1_000
  {
    ClockFromMeaning(us / 1_000_000, us % 1_000_000);
    SecondsAndRest(us);
  }

  lemma ClockArithmetic(secs: nat)
    ensures ((secs / 86_400) * 24 + secs / 3_600 % 24) * HOUR + (secs / 60 % 60) * MINUTE + (secs % 60) * SECOND
            == secs * SECOND
  {
    var m, h := secs / 60, secs / 3_600;
    assert h == m / 60 && secs / 86_400 == h / 24;
    assert secs == 60 * m + secs % 60;
    assert m == 60 * h + m % 60;
    assert h == 24 * (h / 24) + h % 24;
  }

  lemma ClockDigits(days: nat, h: nat, m: nat, s: nat)
    requires h < 24 && m < 60 && s < 60
    ensures var secs := ((days * 24 + h) * 60 + m) * 60 + s;
            && secs / 86_400 == days && secs / 3_600 % 24 == h && secs / 60 % 60 == m && secs % 60 == s
            && (days * 24 + h) * HOUR + m * MINUTE + s * SECOND == secs * SECOND
  {
    var hours := days * 24 + h;
    var mins := hours * 60 + m;
    var secs := mins * 60 + s;
    assert secs / 60 == mins && mins / 60 == hours && hours / 24 == days;
    assert secs / 3_600 == hours;
    assert secs / 86_400 == days;
  }

  lemma ShortestFraction(c: Clock)
    requires Shortest(c) && WellFormed(c)
    ensures var n := FracNanos(Fraction(c)); var fus := n / 1_000;
            && n == fus * 1_000 && fus < 1_000_000
            && c.frac == if fus == 0 then None else Some(FracDigits(fus, 6))
  {
    var f := Fraction(c);
    SixDigits();
    FracDigitsUnique(f, 6);
    FracInMicros(f);
    if c.frac.Some? {
      ValuePositive(f);
      Positive(Value(f), Pow10(6 - |f|));
    }
  }

  lemma ShortestWhole(c: Clock)
    requires Shortest(c) && WellFormed(c)
    ensures var n := WholeNanos(c); var secs := n / SECOND;
            && n == secs * SECOND
            && c.days == (if secs >= 86_400 then Some(Dec(secs / 86_400)) else None)
            && c.hours == Two(secs / 3_600 % 24) && c.mins == Two(secs / 60 % 60) && c.secs == Two(secs % 60)
  {
    TwoValue(c.hours);
    TwoValue(c.mins);
    TwoValue(c.secs);
    var days := if c.days.Some? then Value(c.days.value) else 0;
    if c.days.Some? {
      DecOfValue(c.days.value);
    }
    ClockDigits(days, Value(c.hours), Value(c.mins), Value(c.secs));
  }

  lemma ShortestParts(c: Clock) returns (secs: nat, fus: nat)
    requires Shortest(c) && WellFormed(c)
    ensures fus < 1_000_000 && Nanos(c) == secs * SECOND + fus * 1_000 && c == ClockFrom(secs, fus)
  {
    ShortestFraction(c);
    ShortestWhole(c);
    secs, fus := WholeNanos(c) / SECOND, FracNanos(Fraction(c)) / 1_000;
  }

  /** A shortest text is the only one with its meaning. */
  lemma ShortestUnique(c: Clock)
    requires Shortest(c) && WellFormed(c)
    ensures Nanos(c) % 1_000 == 0
    ensures c == ClockOf(Nanos(c) / 1_000)
  {
    var secs, fus := ShortestParts(c);
    MicrosApart(secs, fus);
  }

  lemma MicrosApart(secs: nat, fus: nat)
    requires fus < 1_000_000
    ensures var n := secs * SECOND + fus * 1_000;
            n % 1_000 == 0 && n / 1_000 / 1_000_000 == secs && n / 1_000 % 1_000_000 == fus
  {
    var n := secs * SECOND + fus * 1_000;
    assert n == (secs * 1_000_000 + fus) * 1_000;
    assert n / 1_000 == secs * 1_000_000 + fus;
  }
}
