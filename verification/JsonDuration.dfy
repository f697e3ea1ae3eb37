/** The serializable duration: writing its text and reading it back, with 64-bit
    integers that wrap around and a floating-point fraction. */
module JsonDuration {
  import opened Text
  import opened DurationText
  import opened FloatFraction

  /** Division and remainder that truncate toward zero. */
  function Quo(a: int, b: int): int
    requires b > 0
  {
    if a >= 0 then a / b else -((-a) / b)
  }

  function Rem(a: int, b: int): int
    requires b > 0
  {
    if a >= 0 then a % b else -((-a) % b)
  }

  /** Duration.Round(time.Microsecond). */
  function RoundMicro(d: int64): (r: int64) {
    if d < 0 then
      var r := -Rem(d, MICRO);
      if 2 * r < MICRO then d + r else if d - MICRO + r >= MIN64 then d - MICRO + r else MIN64
    else
      var r := d % MICRO;
      if 2 * r < MICRO then d - r else if d + MICRO - r <= MAX64 then d + MICRO - r else MAX64
  }

  /** "%02d" */
  function Pad2(n: int): string {
    if n < 0 then "-" + Dec(-n) else if n < 10 then "0" + Dec(n) else Dec(n)
  }

  lemma Pad2IsTwo(n: nat)
    requires n < 100
    ensures Pad2(n) == Two(n)
  {
    if n >= 10 {
      assert Dec(n) == Dec(n / 10) + [DigitChar(n % 10)];
    }
  }

  lemma RoundedMicros(d: int64)
    requires d != MIN64
    ensures var r := RoundMicro(Abs(d)); 0 <= r && r / MICRO == Micros(d) && (r % MICRO == 0 || r == MAX64)
  {
    var a := Abs(d);
    assert a == a / 1_000 * 1_000 + a % 1_000;
  }

  /** Splitting off a unit leaves the quotient and the rest as they were put together. */
  lemma Peel(q: nat, low: nat, unit: nat)
    requires low < unit && unit in {DAY, HOUR, MINUTE, SECOND}
    ensures (q * unit + low) / unit == q && (q * unit + low) % unit == low
  {
  }

  /** The clock fields, taken one unit at a time, of a duration put together from them. */
  lemma FieldsOf(d: nat, h: nat, m: nat, s: nat, n: nat)
    requires h < 24 && m < 60 && s < 60 && n < SECOND
    ensures var inMinute := s * SECOND + n;
            var inHour := m * MINUTE + inMinute;
            var inDay := h * HOUR + inHour;
            var r := d * DAY + inDay;
            && r / DAY == d && r % DAY == inDay
            && inDay / HOUR == h && inDay % HOUR == inHour
            && inHour / MINUTE == m && inHour % MINUTE == inMinute
            && inMinute / SECOND == s && inMinute % SECOND == n
            && r == (((d * 24 + h) * 60 + m) * 60 + s) * SECOND + n
  {
    var inMinute := s * SECOND + n;
    var inHour := m * MINUTE + inMinute;
    var inDay := h * HOUR + inHour;
    Peel(s, n, SECOND);
    Peel(m, inMinute, MINUTE);
    Peel(h, inHour, HOUR);
    Peel(d, inDay, DAY);
  }

  lemma FieldsFromSeconds(secs: nat)
    ensures secs == ((secs / 86_400 * 24 + secs / 3_600 % 24) * 60 + secs / 60 % 60) * 60 + secs % 60
  {
    var m, h := secs / 60, secs / 3_600;
    assert h == m / 60 && secs / 86_400 == h / 24;
    assert secs == 60 * m + secs % 60 && m == 60 * h + m % 60 && h == 24 * (h / 24) + h % 24;
  }

  lemma Fields(r: nat)
    ensures var secs := r / SECOND;
            var inDay := r % DAY; var inHour := inDay % HOUR; var inMinute := inHour % MINUTE;
            && r / DAY == secs / 86_400 && inDay / HOUR == secs / 3_600 % 24
            && inHour / MINUTE == secs / 60 % 60 && inMinute / SECOND == secs % 60
            && inMinute % SECOND == r % SECOND
  {
    var secs := r / SECOND;
    FieldsFromSeconds(secs);
    FieldsOf(secs / 86_400, secs / 3_600 % 24, secs / 60 % 60, secs % 60, r % SECOND);
    assert r == secs * SECOND + r % SECOND;
  }

  class Buffer {
    var text: string

    constructor ()
      ensures text == ""
    {
      text := "";
    }

    method WriteByte(c: char)
      modifies this
      ensures text == old(text) + [c]
    {
      text := text + [c];
    }

    method Write(s: string)
      modifies this
      ensures text == old(text) + s
    {
      text := text + s;
    }
  }

  /** The text in front of the fraction. */
  function ClockHead(c: Clock): string { Front(c) + ":" + c.mins + ":" + c.secs }

  lemma RenderTail(c: Clock)
    ensures Render(c) == ClockHead(c) + (if c.frac.Some? then "." + c.frac.value else "")
  {
    if c.frac.Some? {
      assert Render(c) == Front(c) + ":" + c.mins + ":" + (c.secs + "." + c.frac.value);
    }
  }

  /** One more fraction digit. */
  lemma NextDigit(w: string, rem: nat, unit: nat, f: nat)
    requires AllDigits(w) && unit >= 1 && rem < 10 * unit
    requires Value(w) * (10 * unit) + rem == f
    ensures rem / unit < 10
    ensures Dec(rem / unit) == [DigitChar(rem / unit)]
    ensures var w' := w + [DigitChar(rem / unit)];
            AllDigits(w') && Value(w') * unit + rem % unit == f && rem % unit < unit
  {
    DigitStep(rem, unit);
    var d := rem / unit;
    var w' := w + [DigitChar(d)];
    assert w'[..|w|] == w;
    Horner(Value(w), d, Value(w'), unit, 10 * unit);
  }

  /** Digits whose last one is not zero, and that stand for all of `f`, are its fraction digits. */
  lemma DigitsComplete(w: string, j: nat, f: nat)
    requires AllDigits(w) && w != "" && w[|w| - 1] != '0' && |w| + j == 6
    requires Value(w) * Pow10(j) == f
    ensures FracDigits(f, 6) == w
  {
    FracDigitsUnique(w, 6);
  }

  class JsonDuration {
    var Duration: int64

    constructor (d: int64)
      ensures Duration == d
    {
      Duration := d;
    }

    /** Writes the digits after the point: as many as are needed, down to microseconds. */
    method MarshalFraction(b: Buffer, rest: int)
      requires 0 < rest < SECOND && (rest % MICRO == 0 || rest == MAX64 % SECOND)
      modifies b
      ensures b.text == old(b.text) + FracDigits(rest / MICRO, 6)
    {
      var dur, intvl := rest, SECOND / 10;
      ghost var w: string, j: nat := "", 6;
      FirstStep(rest);
      while dur > 0 && intvl >= MICRO
        invariant b.text == old(b.text) + w
        invariant Emitting(w, j, dur, intvl, rest / MICRO)
        decreases intvl
      {
        NextStep(w, j, dur, intvl, rest / MICRO);
        b.Write(Itoa(Quo(dur, intvl)));
        w, j := w + [DigitChar(dur / intvl)], j - 1;
        dur := Rem(dur, intvl);
        intvl := intvl / 10;
      }
      LastStep(w, j, dur, intvl, rest / MICRO);
    }

    /** Writes the days and the clock fields and returns what is left below a second. */
    method MarshalClock(b: Buffer, total: int) returns (rest: int)
      modifies b
      ensures b.text == old(b.text) + HeadText(total) && rest == Rest(total)
      ensures total >= 0 ==> b.text == old(b.text) + ClockHead(ClockFrom(total / SECOND, 0)) && rest == total % SECOND
      ensures total == MIN64 ==> b.text == old(b.text) + "-2562047:-47:-16" && rest < 0
    {
      var dur := MarshalDays(b, total);
      b.Write(Pad2(Quo(dur, HOUR)) + ":");
      dur := Rem(dur, HOUR);
      b.Write(Pad2(Quo(dur, MINUTE)) + ":");
      dur := Rem(dur, MINUTE);
      b.Write(Pad2(Quo(dur, SECOND)));
      rest := Rem(dur, SECOND);
      ghost var inHour := Rem(InDay(total), HOUR);
      Chain(old(b.text), DaysText(total), Pad2(Quo(InDay(total), HOUR)) + ":", Pad2(Quo(inHour, MINUTE)) + ":",
            Pad2(Quo(Rem(inHour, MINUTE), SECOND)));
      HeadMeaning(total);
    }

    /** Writes the number of days, if any, and takes them off. */
    method MarshalDays(b: Buffer, total: int) returns (dur: int)
      modifies b
      ensures b.text == old(b.text) + DaysText(total) && dur == InDay(total)
    {
      dur := total;
      var days := Quo(dur, DAY);
      if days > 0 {
        b.Write(Itoa(days) + ".");
        dur := Rem(dur, DAY);
      }
    }

    /** Writes the minus sign, if any, and returns the duration without it. */
    method MarshalSign(b: Buffer) returns (dur: int64)
      modifies b
      ensures b.text == old(b.text) + SignText(Duration) && dur == Unsign(Duration)
    {
      dur := Duration;
      if dur < 0 {
        b.WriteByte('-');
        dur := I64(-(dur as int));
      }
    }

    /** Writes the text of the duration behind what the buffer holds already. */
    method Marshal(b: Buffer)
      modifies b
      ensures b.text == old(b.text) + Printed(Duration)
    {
      var dur := MarshalSign(b);
      dur := RoundMicro(dur);
      var rest := MarshalClock(b, dur);
      MarshalTail(b, Duration, rest);
      Assembled(Duration);
      Regrouped(old(b.text), SignText(Duration), HeadText(dur), TailText(rest));
    }

    method MarshalTail(b: Buffer, ghost d: int64, rest: int)
      requires rest == Rest(Magnitude(d))
      modifies b
      ensures b.text == old(b.text) + TailText(rest)
    {
      RestRange(d);
      if rest == 0 {
        return;
      }
      b.WriteByte('.');
      if rest > 0 {
        MarshalFraction(b, rest);
      }
    }

    /** The unquoted text. */
    method MarshalText() returns (text: string)
      ensures text == Printed(Duration)
    {
      var b := new Buffer();
      Marshal(b);
      text := b.text;
    }

    /** The text between double quotes. */
    method MarshalJSON() returns (text: string)
      ensures text == Quoted(Printed(Duration)) == "\"" + Printed(Duration) + "\""
    {
      var b := new Buffer();
      b.WriteByte('"');
      Marshal(b);
      b.WriteByte('"');
      text := b.text;
      QuotedText(Printed(Duration));
    }

    method Weigh(mult: real, d: nat) returns (r: real)
      ensures r == Times(mult, d)
    {
      TimesIsProduct(mult, d);
      r := mult * (d as real);
    }

    /** Reads the digits after the point; each further digit weighs a tenth of the last. */
    method ParseFraction(digits: string, fl: real -> real) returns (ok: bool, nsecs: int)
      requires Machine(fl)
      ensures ok <==> AllDigits(digits) && |digits| <= 9
      ensures ok ==> nsecs == ReadNanos(fl, digits)
    {
      var mult, val := 1.0, 0.0;
      ok := true;
      var i := 0;
      ReadNothing(fl, digits);
      while i < |digits|
        invariant i <= |digits| && ReadSoFar(fl, digits, i, mult, val)
      {
        ok, mult, val := ParseDigit(digits, i, mult, val, fl);
        if !ok {
          return false, 0;
        }
        i := i + 1;
      }
      ReadAll(fl, digits, mult, val);
      ok, nsecs := true, fl(val * 1000000000.0).Floor;
    }

    method ParseDigit(digits: string, i: nat, mult: real, val: real, fl: real -> real)
      returns (ok: bool, mult': real, val': real)
      requires Machine(fl) && i < |digits| && ReadSoFar(fl, digits, i, mult, val)
      ensures ok ==> ReadSoFar(fl, digits, i + 1, mult', val')
      ensures !ok ==> !(AllDigits(digits) && |digits| <= 9)
    {
      mult', val' := fl(mult / 10.0), val;
      if !IsDigit(digits[i]) || mult' < fl(0.000000001) {
        ReadRefused(fl, digits, i, mult');
        return false, mult', val;
      }
      var weighed := Weigh(mult', DigitValue(digits[i]));
      val' := fl(val + fl(weighed));
      ReadOneMore(fl, digits, i, mult', val');
      ok := true;
    }

    /** Exactly two decimal digits. */
    static function Get2Digits(s: string): (r: Option<nat>)
      ensures r.Some? <==> TwoDigits(s)
      ensures r.Some? ==> r.value == Value(s) && r.value < 100
    {
      if |s| != 2 || s[0] < '0' || s[0] > '9' || s[1] < '0' || s[1] > '9' then None
      else
        TwoDigitValue(s);
        Some((s[0] as int - '0' as int) * 10 + (s[1] as int - '0' as int))
    }

    /** Reads [days.]hours. */
    method ParseHours(field: string) returns (ok: bool, days: nat, hours: nat)
      ensures ok <==> HoursOk(field)
      ensures ok ==> days * 24 + hours == HoursIn(field)
    {
      days, hours := 0, 0;
      var hd := SplitOnce(field, '.');
      if |hd| == 2 {
        var d := ParseUint(hd[0], TWO64);
        if d.None? {
          return false, 0, 0;
        }
        var h := ParseUint(hd[1], TWO64);
        if h.None? {
          return false, 0, 0;
        }
        return true, d.value, h.value;
      }
      var h := ParseUint(field, TWO64);
      if h.None? {
        return false, 0, 0;
      }
      SplitOnceJoins(field, '.');
      return true, 0, h.value;
    }

    /** Reads seconds[.fraction]. */
    method ParseSeconds(field: string, fl: real -> real) returns (ok: bool, secs: nat, nsecs: int)
      requires Machine(fl)
      ensures ok <==> SecondsOk(field)
      ensures ok ==> secs * SECOND + nsecs == NanosIn(fl, field)
    {
      secs, nsecs := 0, 0;
      var parts := SplitOnce(field, '.');
      SplitOnceJoins(field, '.');
      NothingRead(fl);
      var s := Get2Digits(parts[0]);
      if s.None? {
        return false, 0, 0;
      }
      secs := s.value;
      if |parts| == 2 {
        ok, nsecs := ParseFraction(parts[1], fl);
      } else {
        ok := true;
      }
    }

    /** Reads a clock text; the sum is computed in 64-bit arithmetic that wraps around. */
    method ParseClock(t: string, fl: real -> real) returns (ok: bool, sum: int64)
      requires Machine(fl)
      ensures ok <==> Pieces(t).Some? && WellFormed(Pieces(t).value)
      ensures ok ==> sum == I64(ReadClock(fl, Pieces(t).value))
    {
      sum := 0;
      var fields := Split(t, ':');
      if |fields| != 3 {
        return false, sum;
      }
      FieldsDecide(t, fl);
      var days, hours, secs, nsecs;
      ok, days, hours := ParseHours(fields[0]);
      if !ok {
        return;
      }
      var mins := Get2Digits(fields[1]);
      if mins.None? {
        return false, sum;
      }
      ok, secs, nsecs := ParseSeconds(fields[2], fl);
      if !ok {
        return;
      }
      sum := Total(days, hours, mins.value, secs, nsecs);
    }

    /** Adds the fields up in 64-bit arithmetic that wraps around. */
    method Total(days: nat, hours: nat, mins: nat, secs: nat, nsecs: int) returns (sum: int64)
      ensures sum == I64((days * 24 + hours) * HOUR + mins * MINUTE + secs * SECOND + nsecs)
    {
      sum := I64(I64(I64(I64(I64(U64(U64(days * 24) + hours)) * HOUR) + I64(I64(mins) * MINUTE))
                     + I64(I64(secs) * SECOND)) + I64(nsecs));
      WrappedSum(days, hours, mins, secs, nsecs);
    }

    /** Reads a number of days, or from 10^9 on of nanoseconds. */
    method ParseNumber(t: string) returns (ok: bool, dur: int64)
      ensures ok <==> ParseUint(t, MAX64 + 1).Some?
      ensures ok ==> dur == I64(if Value(t) >= SECOND then Value(t) else DAY * Value(t))
    {
      var n := ParseUint(t, MAX64 + 1);
      if n.None? {
        return false, 0;
      }
      if n.value >= SECOND {
        dur := n.value;
      } else {
        dur := I64(DAY * n.value);
      }
      ok := true;
    }

    /** Reads a text without its sign. */
    method ParseUnsigned(t: string, fl: real -> real) returns (ok: bool, dur: int64)
      requires Machine(fl)
      ensures ok <==> AcceptedUnsigned(t)
      ensures ok ==> dur == I64(ReadUnsigned(fl, t))
    {
      if ':' !in t {
        ok, dur := ParseNumber(t);
      } else {
        ok, dur := ParseClock(t, fl);
      }
    }

    /** Accepts exactly the language of durations, and then holds what the text stands for. */
    method Parse(s: string, fl: real -> real) returns (ok: bool)
      requires Machine(fl)
      modifies this
      ensures ok <==> Accepted(s)
      ensures ok ==> Duration == Parsed(fl, s)
      ensures !ok ==> Duration == old(Duration)
    {
      AcceptedIsUnsigned(s);
      if |s| < 1 {
        return false;
      }
      var neg, t := false, s;
      if s[0] == '-' {
        neg, t := true, s[1..];
        if |t| < 1 {
          return false;
        }
      }
      var dur;
      ok, dur := ParseUnsigned(t, fl);
      if !ok {
        return;
      }
      Duration := dur;
      if neg {
        Duration := I64(-(Duration as int));
      }
      Negated(ReadUnsigned(fl, t));
    }

    method UnmarshalText(s: string, fl: real -> real) returns (ok: bool)
      requires Machine(fl)
      modifies this
      ensures ok <==> Accepted(s)
      ensures ok ==> Duration == Parsed(fl, s)
      ensures !ok ==> Duration == old(Duration)
    {
      ok := Parse(s, fl);
    }

    /** The text must stand between double quotes. */
    method UnmarshalJSON(j: string, fl: real -> real) returns (ok: bool)
      requires Machine(fl)
      modifies this
      ensures ok <==> exists s: string :: j == "\"" + s + "\"" && Accepted(s)
      ensures ok ==> exists s: string :: j == "\"" + s + "\"" && Accepted(s) && Duration == Parsed(fl, s)
      ensures !ok ==> Duration == old(Duration)
    {
      Unquoting(j);
      if |j| < 2 || j[|j| - 1] != '"' || j[0] != '"' {
        return false;
      }
      ok := Parse(j[1..|j| - 1], fl);
    }
  }

  function Quoted(s: string): string { "\"" + s + "\"" }

  lemma QuotedText(s: string)
    ensures "" + ['"'] + s + ['"'] == Quoted(s)
  {
  }

  lemma Unquoting(j: string)
    ensures |j| >= 2 && j[|j| - 1] == '"' && j[0] == '"' ==> j == Quoted(j[1..|j| - 1])
    ensures forall s: string :: j == Quoted(s) ==> |j| >= 2 && j[|j| - 1] == '"' && j[0] == '"' && s == j[1..|j| - 1]
  {
  }

  lemma TwoDigitValue(s: string)
    requires TwoDigits(s)
    ensures Value(s) == DigitValue(s[0]) * 10 + DigitValue(s[1]) && Value(s) < 100
  {
    assert s[..1][..0] == [];
    assert Value(s[..1]) == DigitValue(s[0]);
  }

  /** State of the fraction loop after `i` digits. */
  ghost predicate ReadSoFar(fl: real -> real, digits: string, i: nat, mult: real, val: real)
    requires i <= |digits|
  {
    i <= 9 && AllDigits(digits[..i]) && mult == Mult(fl, i) && val == Sum(fl, digits[..i])
  }

  lemma ReadNothing(fl: real -> real, digits: string)
    ensures ReadSoFar(fl, digits, 0, 1.0, 0.0)
  {
  }

  lemma ReadAll(fl: real -> real, digits: string, mult: real, val: real)
    requires ReadSoFar(fl, digits, |digits|, mult, val)
    ensures AllDigits(digits) && |digits| <= 9 && fl(val * 1000000000.0).Floor == ReadNanos(fl, digits)
  {
    assert digits[..|digits|] == digits;
  }

  lemma ReadRefused(fl: real -> real, digits: string, i: nat, mult: real)
    requires Machine(fl) && i < |digits| && i <= 9 && mult == Mult(fl, i + 1)
    requires !IsDigit(digits[i]) || mult < fl(0.000000001)
    ensures !(AllDigits(digits) && |digits| <= 9)
  {
    WeightLimit(fl, i + 1);
  }

  lemma ReadOneMore(fl: real -> real, digits: string, i: nat, mult: real, val: real)
    requires Machine(fl) && i < |digits| && i <= 9 && AllDigits(digits[..i]) && IsDigit(digits[i])
    requires mult == Mult(fl, i + 1) && !(mult < fl(0.000000001))
    requires val == fl(Sum(fl, digits[..i]) + fl(Times(mult, DigitValue(digits[i]))))
    ensures ReadSoFar(fl, digits, i + 1, mult, val)
  {
    WithinNine(fl, i, mult);
    DigitRead(fl, digits, i, mult, val);
  }

  lemma WithinNine(fl: real -> real, i: nat, mult: real)
    requires Machine(fl) && i <= 9 && mult == Mult(fl, i + 1) && !(mult < fl(0.000000001))
    ensures i + 1 <= 9
  {
    WeightLimit(fl, i + 1);
  }

  lemma DigitRead(fl: real -> real, digits: string, i: nat, mult: real, val: real)
    requires i < |digits| && AllDigits(digits[..i]) && IsDigit(digits[i]) && mult == Mult(fl, i + 1)
    requires val == fl(Sum(fl, digits[..i]) + fl(Times(mult, DigitValue(digits[i]))))
    ensures AllDigits(digits[..i + 1]) && val == Sum(fl, digits[..i + 1])
  {
    assert digits[..i + 1] == digits[..i] + [digits[i]];
    SumSnoc(fl, digits[..i], digits[i]);
  }

  lemma NothingRead(fl: real -> real)
    requires Rounds(fl)
    ensures ReadNanos(fl, "") == 0
  {
    assert Near(fl, 0.0);
  }

  /** What the reader takes a clock text for, before wrapping. */
  ghost function ReadClock(fl: real -> real, c: Clock): int
    requires WellFormed(c)
  {
    WholeNanos(c) + ReadNanos(fl, Fraction(c))
  }

  ghost predicate AcceptedUnsigned(t: string) {
    if ':' in t then Pieces(t).Some? && WellFormed(Pieces(t).value) else ParseUint(t, MAX64 + 1).Some?
  }

  lemma AcceptedIsUnsigned(s: string)
    ensures Accepted(s) <==> AcceptedUnsigned(Unsigned(s))
    ensures !AcceptedUnsigned("")
  {
    AcceptedByForm(s);
  }

  ghost function ReadUnsigned(fl: real -> real, t: string): int
    requires AcceptedUnsigned(t)
  {
    if ':' in t then ReadClock(fl, Pieces(t).value)
    else if Value(t) >= SECOND then Value(t) else DAY * Value(t)
  }

  /** What the reader takes a text for, before wrapping. */
  ghost function Reading(fl: real -> real, s: string): int
    requires Accepted(s)
  {
    AcceptedIsUnsigned(s);
    Sign(s) * ReadUnsigned(fl, Unsigned(s))
  }

  predicate HoursOk(field: string) {
    var hd := SplitOnce(field, '.');
    ParseUint(hd[0], TWO64).Some? && (|hd| == 2 ==> ParseUint(hd[1], TWO64).Some?)
  }

  function HoursIn(field: string): nat
    requires HoursOk(field)
  {
    var hd := SplitOnce(field, '.');
    if |hd| == 2 then Value(hd[0]) * 24 + Value(hd[1]) else Value(hd[0])
  }

  predicate SecondsOk(field: string) {
    var ss := SplitOnce(field, '.');
    TwoDigits(ss[0]) && (|ss| == 2 ==> AllDigits(ss[1]) && |ss[1]| <= 9)
  }

  ghost function NanosIn(fl: real -> real, field: string): int
    requires SecondsOk(field)
  {
    var ss := SplitOnce(field, '.');
    Value(ss[0]) * SECOND + ReadNanos(fl, if |ss| == 2 then ss[1] else "")
  }

  /** The three fields decide by themselves, and what they hold adds up to the clock. */
  lemma FieldsDecide(t: string, fl: real -> real)
    requires |Split(t, ':')| == 3
    ensures var f := Split(t, ':'); var c := Pieces(t).value;
            && (WellFormed(c) <==> HoursOk(f[0]) && TwoDigits(f[1]) && SecondsOk(f[2]))
            && (WellFormed(c) ==> ReadClock(fl, c) == HoursIn(f[0]) * HOUR + Value(f[1]) * MINUTE + NanosIn(fl, f[2]))
  {
  }

  /** The duration a text is parsed to. */
  ghost function Parsed(fl: real -> real, s: string): int64
    requires Accepted(s)
  {
    I64(Reading(fl, s))
  }

  lemma Negated(x: int)
    ensures I64(-(I64(x) as int)) == I64(-x) && I64(x) == I64(1 * x) && I64(-x) == I64(-1 * x)
  {
    var j, k := WrapAmount(x);
    Congruence(-(I64(x) as int), -x, j);
  }

  lemma WrapSum(a: int, b: int)
    ensures I64(I64(a) + I64(b)) == I64(a + b)
  {
    var j, _ := WrapAmount(a);
    var k, _ := WrapAmount(b);
    Congruence(a + b, I64(a) + I64(b), j + k);
  }

  lemma WrapProduct(a: int, c: int)
    ensures I64(I64(a) * c) == I64(a * c)
  {
    var j, _ := WrapAmount(a);
    assert (I64(a) + j * TWO64) * c == I64(a) * c + (j * c) * TWO64;
    Congruence(a * c, I64(a) * c, j * c);
  }

  lemma WrapUnsigned(a: int, b: int)
    ensures I64(U64(U64(a) + b)) == I64(a + b)
  {
    var _, j := WrapAmount(a);
    var _, k := WrapAmount(U64(a) + b);
    Congruence(a + b, U64(U64(a) + b), j + k);
  }

  /** However often the sum wraps around on the way, it ends up congruent to the true one. */
  lemma WrappedSum(days: nat, hours: nat, mins: nat, secs: nat, nsecs: int)
    ensures I64(I64(I64(I64(I64(U64(U64(days * 24) + hours)) * HOUR) + I64(I64(mins) * MINUTE))
                    + I64(I64(secs) * SECOND)) + I64(nsecs))
            == I64((days * 24 + hours) * HOUR + mins * MINUTE + secs * SECOND + nsecs)
  {
    WrapUnsigned(days * 24, hours);
    WrapProduct(days * 24 + hours, HOUR);
    WrapProduct(mins, MINUTE);
    WrapProduct(secs, SECOND);
    var h, m, s := (days * 24 + hours) * HOUR, mins * MINUTE, secs * SECOND;
    WrapSum(h, m);
    WrapSum(h + m, s);
    WrapSum(h + m + s, nsecs);
  }

  function InDay(r: int): int { if Quo(r, DAY) > 0 then Rem(r, DAY) else r }

  function DaysText(r: int): string { if Quo(r, DAY) > 0 then Itoa(Quo(r, DAY)) + "." else "" }

  lemma Regrouped(a: string, b: string, c: string, d: string)
    ensures a + b + c + d == a + (b + c + d)
  {
  }

  lemma Chain(a: string, b: string, c: string, d: string, e: string)
    ensures a + b + c + d + e == a + (b + c + d + e)
  {
  }

  /** What is written in front of the fraction. */
  function HeadText(r: int): string {
    var inHour := Rem(InDay(r), HOUR);
    DaysText(r) + (Pad2(Quo(InDay(r), HOUR)) + ":") + (Pad2(Quo(inHour, MINUTE)) + ":")
    + Pad2(Quo(Rem(inHour, MINUTE), SECOND))
  }

  /** What is left for the fraction. */
  function Rest(r: int): int { Rem(Rem(Rem(InDay(r), HOUR), MINUTE), SECOND) }

  /** Negation that leaves the smallest duration as it is. */
  function Unsign(d: int64): int64 { if d < 0 then I64(-(d as int)) else d }

  function Magnitude(d: int64): int64 { RoundMicro(Unsign(d)) }

  function SignText(d: int64): string { if d < 0 then "-" else "" }

  function TailText(rest: int): string {
    if rest == 0 then "" else if rest > 0 then "." + FracDigits(rest / MICRO, 6) else "."
  }

  /** The clock fields in one piece. */
  lemma HeadJoined(dt: string, days: Option<string>, hh: string, mm: string, ss: string)
    requires dt == if days.Some? then days.value + "." else ""
    ensures dt + (hh + ":") + (mm + ":") + ss == ClockHead(Clock(days, hh, mm, ss, None))
  {
    if days.Some? {
      assert days.value + "." + (hh + ":") + (mm + ":") + ss == (days.value + "." + hh) + ":" + mm + ":" + ss;
    } else {
      assert "" + (hh + ":") + (mm + ":") + ss == hh + ":" + mm + ":" + ss;
    }
  }

  lemma HourText(h: nat, m: nat, s: nat)
    requires h < 24 && m < 60 && s < 60
    ensures Pad2(h) == Two(h) && Pad2(m) == Two(m) && Pad2(s) == Two(s)
  {
    Pad2IsTwo(h);
    Pad2IsTwo(m);
    Pad2IsTwo(s);
  }

  lemma HeadFields(r: nat)
    ensures var secs := r / SECOND;
            && DaysText(r) == (if secs >= 86_400 then Dec(secs / 86_400) + "." else "")
            && Quo(InDay(r), HOUR) == secs / 3_600 % 24
            && Quo(Rem(InDay(r), HOUR), MINUTE) == secs / 60 % 60
            && Quo(Rem(Rem(InDay(r), HOUR), MINUTE), SECOND) == secs % 60
            && Rest(r) == r % SECOND
  {
    Fields(r);
    assert InDay(r) == r % DAY;
  }

  lemma HeadOfClock(r: nat)
    ensures HeadText(r) == ClockHead(ClockFrom(r / SECOND, 0)) && Rest(r) == r % SECOND
  {
    var secs := r / SECOND;
    HeadFields(r);
    HourText(secs / 3_600 % 24, secs / 60 % 60, secs % 60);
    HeadJoined(DaysText(r), if secs >= 86_400 then Some(Dec(secs / 86_400)) else None,
               Two(secs / 3_600 % 24), Two(secs / 60 % 60), Two(secs % 60));
  }

  lemma HeadMeaning(r: int)
    ensures r >= 0 ==> HeadText(r) == ClockHead(ClockFrom(r / SECOND, 0)) && Rest(r) == r % SECOND
    ensures r == MIN64 ==> HeadText(r) == "-2562047:-47:-16" && Rest(r) < 0
  {
    if r >= 0 {
      HeadOfClock(r);
    } else if r == MIN64 {
      SmallestFields();
      SmallestText();
    }
  }

  lemma MicrosAndSeconds(r: nat)
    ensures r / SECOND == r / MICRO / 1_000_000 && r % SECOND / MICRO == r / MICRO % 1_000_000
    ensures r % SECOND % MICRO == r % MICRO
  {
    var q := r / MICRO;
    var low := q % 1_000_000 * MICRO + r % MICRO;
    assert r == q / 1_000_000 * SECOND + low;
    Peel(q / 1_000_000, low, SECOND);
  }

  lemma MagnitudeMicros(d: int64)
    requires d != MIN64
    ensures var r := Magnitude(d);
            && r >= 0 && r / SECOND == Micros(d) / 1_000_000 && r % SECOND / MICRO == Micros(d) % 1_000_000
            && (r % SECOND % MICRO == 0 || r % SECOND == MAX64 % SECOND)
  {
    RoundedMicros(d);
    assert Magnitude(d) == RoundMicro(Abs(d));
    MicrosAndSeconds(Magnitude(d));
  }

  lemma ClockText(d: int64)
    requires d != MIN64
    ensures var r := Magnitude(d); var f := r % SECOND / MICRO;
            Render(ClockOf(Micros(d))) == HeadText(r) + if f == 0 then "" else "." + FracDigits(f, 6)
  {
    MagnitudeMicros(d);
    HeadOfClock(Magnitude(d));
    RenderTail(ClockOf(Micros(d)));
  }

  lemma RestRange(d: int64)
    ensures var rest := Rest(Magnitude(d));
            rest > 0 ==> rest < SECOND && (rest % MICRO == 0 || rest == MAX64 % SECOND)
  {
    if d == MIN64 {
      SmallestFields();
      SmallestText();
    } else {
      MagnitudeMicros(d);
      HeadOfClock(Magnitude(d));
    }
  }

  lemma BodyText(d: int64)
    requires d != MIN64
    ensures Render(ClockOf(Micros(d))) == HeadText(Magnitude(d)) + TailText(Rest(Magnitude(d)))
  {
    MagnitudeMicros(d);
    HeadOfClock(Magnitude(d));
    ClockText(d);
    TailOfRest(Magnitude(d) % SECOND);
  }

  lemma PrintedIs(d: int64)
    requires d != MIN64
    ensures Printed(d) == SignText(d) + Render(ClockOf(Micros(d)))
  {
  }

  lemma Joined(whole: string, sign: string, body: string, head: string, tail: string)
    requires whole == sign + body && body == head + tail
    ensures whole == sign + head + tail
  {
    assert sign + (head + tail) == sign + head + tail;
  }

  lemma SmallestAssembled()
    ensures Printed(MIN64) == SignText(MIN64) + HeadText(Magnitude(MIN64)) + TailText(Rest(Magnitude(MIN64)))
  {
    SmallestFields();
    SmallestText();
    assert TailText(Rest(MIN64)) == ".";
  }

  /** The pieces written one after another are the printed text. */
  lemma Assembled(d: int64)
    ensures Printed(d) == SignText(d) + HeadText(Magnitude(d)) + TailText(Rest(Magnitude(d)))
  {
    if d == MIN64 {
      SmallestAssembled();
    } else {
      PrintedIs(d);
      BodyText(d);
      Joined(Printed(d), SignText(d), Render(ClockOf(Micros(d))), HeadText(Magnitude(d)), TailText(Rest(Magnitude(d))));
    }
  }

  lemma TailOfRest(rest: int)
    requires 0 <= rest && (rest % MICRO == 0 || rest == MAX64 % SECOND)
    ensures TailText(rest) == if rest / MICRO == 0 then "" else "." + FracDigits(rest / MICRO, 6)
  {
  }

  lemma SmallestFields()
    ensures Magnitude(MIN64) == MIN64 && Quo(MIN64, DAY) <= 0
    ensures Quo(MIN64, HOUR) == -2_562_047 && Rem(MIN64, HOUR) == -2_836_854_775_808
    ensures Quo(-2_836_854_775_808, MINUTE) == -47 && Rem(-2_836_854_775_808, MINUTE) == -16_854_775_808
    ensures Quo(-16_854_775_808, SECOND) == -16 && Rem(-16_854_775_808, SECOND) < 0
  {
  }

  lemma SmallestHours()
    ensures Dec(2_562_047) == "2562047"
  {
    assert Dec(25) == "25";
    assert Dec(2_562) == "2562";
    assert Dec(256_204) == "256204";
  }

  lemma SmallestNumerals()
    ensures Dec(2_562_047) == "2562047" && Dec(47) == "47" && Dec(16) == "16"
  {
    SmallestHours();
  }

  /** The smallest duration stays negative, and its fields are printed with their signs. */
  lemma SmallestText()
    requires Quo(MIN64, DAY) <= 0
    requires Quo(MIN64, HOUR) == -2_562_047 && Rem(MIN64, HOUR) == -2_836_854_775_808
    requires Quo(-2_836_854_775_808, MINUTE) == -47 && Rem(-2_836_854_775_808, MINUTE) == -16_854_775_808
    requires Quo(-16_854_775_808, SECOND) == -16 && Rem(-16_854_775_808, SECOND) < 0
    ensures HeadText(MIN64) == "-2562047:-47:-16" && Rest(MIN64) < 0
  {
    SmallestNumerals();
    assert Pad2(-2_562_047) == "-2562047" && Pad2(-47) == "-47" && Pad2(-16) == "-16";
  }

  /** The interval that belongs to `j` digits still to come. */
  predicate IntervalAt(j: nat, intvl: int) {
    (j, intvl) in {(6, 100_000_000), (5, 10_000_000), (4, 1_000_000), (3, 100_000), (2, 10_000), (1, 1_000), (0, 100)}
  }

  /** What is left of the capped duration when `j` digits are still to come. */
  predicate CappedAt(j: nat, dur: int) {
    (j, dur) in {(6, 854_775_807), (5, 54_775_807), (4, 4_775_807), (3, 775_807), (2, 75_807), (1, 5_807), (0, 807)}
  }

  /** Digits `w` are written, `j` more could come, and the rest is `dur`. */
  ghost predicate Emitting(w: string, j: nat, dur: int, intvl: int, f: nat) {
    && j <= 6 && |w| + j == 6 && AllDigits(w) && dur >= 0 && IntervalAt(j, intvl)
    && dur / MICRO < Pow10(j) && Value(w) * Pow10(j) + dur / MICRO == f
    && (dur % MICRO == 0 || CappedAt(j, dur))
    && f > 0 && (w != "" && dur / MICRO == 0 ==> w[|w| - 1] != '0')
  }

  lemma FirstStep(rest: int)
    requires 0 < rest < SECOND && (rest % MICRO == 0 || rest == MAX64 % SECOND)
    ensures Emitting("", 6, rest, SECOND / 10, rest / MICRO)
  {
    SixDigits();
  }

  /** Dividing nanoseconds by an interval divides the microseconds by its place. */
  lemma DivideByInterval(j: nat, dur: nat, intvl: int)
    requires IntervalAt(j, intvl) && j > 0
    ensures var unit := Pow10(j - 1);
            && dur / intvl == dur / MICRO / unit
            && dur % intvl / MICRO == dur / MICRO % unit && dur % intvl % MICRO == dur % MICRO
            && (dur % MICRO == 0 && dur > 0 && dur % intvl / MICRO == 0 ==> dur / intvl > 0)
            && IntervalAt(j - 1, intvl / 10)
  {
    SixDigits();
    if j == 6 {
      assert Pow10(5) == 100_000;
    } else if j == 5 {
      assert Pow10(4) == 10_000;
    } else if j == 4 {
      assert Pow10(3) == 1_000;
    } else if j == 3 {
      assert Pow10(2) == 100;
    } else if j == 2 {
      assert Pow10(1) == 10;
    } else {
      assert Pow10(0) == 1;
    }
  }

  lemma CappedStep(j: nat, dur: nat, intvl: int)
    requires IntervalAt(j, intvl) && j > 0 && CappedAt(j, dur)
    ensures CappedAt(j - 1, dur % intvl) && dur / intvl > 0
  {
  }

  lemma NextStep(w: string, j: nat, dur: int, intvl: int, f: nat)
    requires Emitting(w, j, dur, intvl, f) && dur > 0 && intvl >= MICRO
    ensures j > 0 && dur / intvl < 10 && Itoa(dur / intvl) == [DigitChar(dur / intvl)]
    ensures Emitting(w + [DigitChar(dur / intvl)], j - 1, dur % intvl, intvl / 10, f)
  {
    DivideByInterval(j, dur, intvl);
    NextDigit(w, dur / MICRO, Pow10(j - 1), f);
    if dur % MICRO != 0 {
      CappedStep(j, dur, intvl);
    }
  }

  lemma LastStep(w: string, j: nat, dur: int, intvl: int, f: nat)
    requires Emitting(w, j, dur, intvl, f) && (dur == 0 || intvl < MICRO)
    ensures w == FracDigits(f, 6)
  {
    assert dur / MICRO == 0;
    assert Value("") == 0;
    assert w != "";
    DigitsComplete(w, j, f);
  }
}
