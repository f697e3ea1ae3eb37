/** The floating-point loop that reads the digits after the point. Every operation is
    followed by a rounding function, so the same text covers exact arithmetic and
    binary64. */
module FloatFraction {
  import opened Text
  import opened DurationText

  /* Half a unit in the last place of a binary64 significand, relative to the value. */
  const ROUNDOFF: real := 1.0 / 9007199254740992.0

  function RealAbs(x: real): real { if x < 0.0 then -x else x }

  /** The result at `x` is off by at most half a unit in the last place. */
  ghost predicate Near(fl: real -> real, x: real) {
    RealAbs(fl(x) - x) <= ROUNDOFF * RealAbs(x)
  }

  ghost predicate Rounds(fl: real -> real) {
    forall x: real :: Near(fl, x)
  }

  /** 1.0 divided by ten `k` times. */
  ghost function Mult(fl: real -> real, k: nat): real {
    if k == 0 then 1.0 else fl(Mult(fl, k - 1) / 10.0)
  }

  /** Arithmetic accurate enough that the weights of the first nine digits do not fall
      below the smallest weight the reader accepts. */
  ghost predicate Machine(fl: real -> real) {
    Rounds(fl) && forall k: nat :: k <= 9 ==> Weighs(fl, k)
  }

  ghost predicate Weighs(fl: real -> real, k: nat) { Mult(fl, k) >= fl(0.000000001) }

  /** A weight taken `d` times. */
  function Times(x: real, d: nat): real { if d == 0 then 0.0 else x + Times(x, d - 1) }

  lemma {:induction false} TimesIsProduct(x: real, d: nat)
    ensures Times(x, d) == x * (d as real)
  {
    if d > 0 {
      TimesIsProduct(x, d - 1);
      assert x * (d as real) == x * ((d - 1) as real) + x;
    }
  }

  /** The sum of weighted digits after reading all of `f`. */
  ghost function Sum(fl: real -> real, f: string): real
    requires AllDigits(f)
  {
    if f == "" then 0.0
    else fl(Sum(fl, f[..|f| - 1]) + fl(Times(Mult(fl, |f|), DigitValue(f[|f| - 1]))))
  }

  /** One digit more. */
  lemma SumSnoc(fl: real -> real, f: string, c: char)
    requires AllDigits(f) && IsDigit(c)
    ensures AllDigits(f + [c])
    ensures Sum(fl, f + [c]) == fl(Sum(fl, f) + fl(Times(Mult(fl, |f| + 1), DigitValue(c))))
  {
    var g := f + [c];
    assert |g| == |f| + 1 && g[..|g| - 1] == f && g[|g| - 1] == c;
    SumUnfolds(fl, g, f, c);
  }

  lemma SumUnfolds(fl: real -> real, g: string, f: string, c: char)
    requires AllDigits(g) && AllDigits(f) && IsDigit(c)
    requires |g| == |f| + 1 && g[..|g| - 1] == f && g[|g| - 1] == c
    ensures Sum(fl, g) == fl(Sum(fl, f) + fl(Times(Mult(fl, |f| + 1), DigitValue(c))))
  {
  }

  /** The nanoseconds the reader takes a fraction for. */
  ghost function ReadNanos(fl: real -> real, f: string): int
    requires AllDigits(f)
  {
    fl(Sum(fl, f) * 1000000000.0).Floor
  }

  /* ---------------------------------------------------------------- exact arithmetic */

  function Exact(x: real): real { x }

  function Tenths(k: nat): real { if k == 0 then 1.0 else Tenths(k - 1) / 10.0 }

  lemma {:induction false} ExactMult(k: nat)
    ensures Mult(Exact, k) == Tenths(k)
  {
    if k > 0 {
      ExactMult(k - 1);
    }
  }

  lemma TenthsByTable()
    ensures Tenths(1) == 0.1 && Tenths(2) == 0.01 && Tenths(3) == 0.001 && Tenths(4) == 0.0001
    ensures Tenths(5) == 0.00001 && Tenths(6) == 0.000001 && Tenths(7) == 0.0000001
    ensures Tenths(8) == 0.00000001 && Tenths(9) == 0.000000001 && Tenths(10) == 0.0000000001
  {
    assert Tenths(1) == 0.1;
    assert Tenths(2) == 0.01;
    assert Tenths(3) == 0.001;
    assert Tenths(4) == 0.0001;
    assert Tenths(5) == 0.00001;
    assert Tenths(6) == 0.000001;
    assert Tenths(7) == 0.0000001;
    assert Tenths(8) == 0.00000001;
    assert Tenths(9) == 0.000000001;
  }

  /** The mathematical value of the fraction. */
  function Weighted(f: string): real
    requires AllDigits(f)
  {
    if f == "" then 0.0 else Weighted(f[..|f| - 1]) + Times(Tenths(|f|), DigitValue(f[|f| - 1]))
  }

  lemma {:induction false} ExactSum(f: string)
    requires AllDigits(f)
    ensures Sum(Exact, f) == Weighted(f)
    decreases |f|
  {
    if f != "" {
      ExactSum(f[..|f| - 1]);
      ExactMult(|f|);
    }
  }

  lemma {:induction false} TimesScale(x: real, d: nat, p: nat)
    requires x * 1000000000.0 == p as real
    ensures Times(x, d) * 1000000000.0 == (d * p) as real
  {
    if d > 0 {
      TimesScale(x, d - 1, p);
      assert d * p == (d - 1) * p + p;
    }
  }

  lemma {:induction false} TenthsScale(k: nat)
    requires k <= 9
    ensures Tenths(k) * 1000000000.0 == Pow10(9 - k) as real
  {
    if k == 0 {
      SixDigits();
      Pow10Add(6, 3);
      assert Pow10(3) == 1_000;
    } else {
      TenthsScale(k - 1);
      assert Pow10(10 - k) == 10 * Pow10(9 - k);
    }
  }

  lemma FracNanosSnoc(f: string)
    requires AllDigits(f) && 1 <= |f| <= 9
    ensures FracNanos(f) == FracNanos(f[..|f| - 1]) + DigitValue(f[|f| - 1]) * Pow10(9 - |f|)
  {
    Horner(Value(f[..|f| - 1]), DigitValue(f[|f| - 1]), Value(f), Pow10(9 - |f|), Pow10(10 - |f|));
  }

  lemma Horner(v: nat, d: nat, w: nat, q: nat, q10: nat)
    requires w == 10 * v + d && q10 == 10 * q
    ensures w * q == v * q10 + d * q
  {
    assert (10 * v + d) * q == 10 * v * q + d * q;
  }

  lemma {:induction false} WeightedNanos(f: string)
    requires AllDigits(f) && |f| <= 9
    ensures Weighted(f) * 1000000000.0 == FracNanos(f) as real
    decreases |f|
  {
    if f != "" {
      WeightedNanos(f[..|f| - 1]);
      TenthsScale(|f|);
      TimesScale(Tenths(|f|), DigitValue(f[|f| - 1]), Pow10(9 - |f|));
      FracNanosSnoc(f);
    }
  }

  /** With exact arithmetic the reader takes every fraction at its value. */
  lemma ExactReading(f: string)
    requires AllDigits(f) && |f| <= 9
    ensures ReadNanos(Exact, f) == FracNanos(f)
  {
    ExactSum(f);
    WeightedNanos(f);
  }

  /* ---------------------------------------------------------------- rounded arithmetic */

  const STEP: real := 1.0 / 4503599627370496.0
  const DRIFT: real := 128.0 / 4503599627370496.0

  /** Ten rounding errors of the given size stay small. */
  lemma TimesSmall(x: real, k: nat)
    requires 0.0 <= x <= DRIFT && k <= 10
    ensures 0.0 <= Times(x, k) <= 10.0 * x
  {
    TimesIsProduct(x, k);
    ProductBound(x, k as real);
  }

  lemma ProductBound(x: real, y: real)
    requires x >= 0.0 && 0.0 <= y <= 10.0
    ensures 0.0 <= x * y <= 10.0 * x
  {
    assert x * (10.0 - y) >= 0.0;
  }

  lemma DivisionStep(m: real, t: real, e: real, r: real)
    requires RealAbs(m - t) <= e && 0.0 <= t <= 1.0 && 0.0 <= e <= 1.0
    requires RealAbs(r - m / 10.0) <= ROUNDOFF * RealAbs(m / 10.0)
    ensures RealAbs(r - t / 10.0) <= STEP + e
  {
  }

  lemma {:induction false} MultDrift(fl: real -> real, k: nat)
    requires Rounds(fl) && k <= 10
    ensures RealAbs(Mult(fl, k) - Tenths(k)) <= Times(STEP, k)
    ensures 0.0 <= Tenths(k) <= 1.0
  {
    if k > 0 {
      MultDrift(fl, k - 1);
      TimesSmall(STEP, k - 1);
      assert Near(fl, Mult(fl, k - 1) / 10.0);
      DivisionStep(Mult(fl, k - 1), Tenths(k - 1), Times(STEP, k - 1), Mult(fl, k));
    }
  }

  lemma SmallestWeight(fl: real -> real)
    requires Rounds(fl)
    ensures 0.0000000009 <= fl(0.000000001) <= 0.0000000011
  {
    assert Near(fl, 0.000000001);
  }

  lemma EarlyWeights(fl: real -> real, k: nat)
    requires Rounds(fl) && k <= 8
    ensures Mult(fl, k) >= fl(0.000000001)
  {
    MultDrift(fl, k);
    TimesSmall(STEP, k);
    TenthsFloor(k);
    SmallestWeight(fl);
  }

  /** It is enough to look at the ninth weight. */
  lemma NinthWeightDecides(fl: real -> real, ninth: real)
    requires Rounds(fl) && ninth == Mult(fl, 9) && ninth >= fl(0.000000001)
    ensures Machine(fl)
  {
    forall k: nat | k <= 9 ensures Weighs(fl, k) {
      if k <= 8 {
        EarlyWeights(fl, k);
      }
    }
  }

  lemma ExactRounds()
    ensures Rounds(Exact)
  {
    forall x: real ensures Near(Exact, x) {
      AbsScaled(x);
    }
  }

  lemma AbsScaled(x: real)
    ensures 0.0 <= ROUNDOFF * RealAbs(x)
  {
  }

  lemma ExactIsMachine()
    ensures Machine(Exact)
  {
    ExactRounds();
    ExactMult(9);
    TenthsByTable();
    NinthWeightDecides(Exact, Tenths(9));
  }

  /** Exactly the fractions of up to nine digits stay above the smallest weight. */
  lemma WeightLimit(fl: real -> real, k: nat)
    requires Machine(fl) && k <= 10
    ensures Mult(fl, k) < fl(0.000000001) <==> k == 10
  {
    if k == 10 {
      MultDrift(fl, k);
      TimesSmall(STEP, k);
      TenthsByTable();
      SmallestWeight(fl);
    } else {
      assert Weighs(fl, k);
    }
  }

  lemma {:induction false} TenthsFloor(k: nat)
    requires k <= 8
    ensures Tenths(k) >= 0.00000001
  {
    TenthsByTable();
    assert k == 0 || k == 1 || k == 2 || k == 3 || k == 4 || k == 5 || k == 6 || k == 7 || k == 8;
  }

  lemma {:induction false} DigitTimes(m: real, t: real, d: nat, e: real)
    requires RealAbs(m - t) <= e && 0.0 <= t <= 1.0
    ensures RealAbs(Times(m, d) - Times(t, d)) <= Times(e, d)
    ensures 0.0 <= Times(t, d) <= Times(1.0, d)
  {
    if d > 0 {
      DigitTimes(m, t, d - 1, e);
    }
  }

  lemma Billion()
    ensures Pow10(9) == 1_000_000_000
  {
    SixDigits();
    Pow10Add(6, 3);
    assert Pow10(3) == 1_000;
  }

  lemma AtMost(v: nat, a: nat, b: nat)
    requires v <= a
    ensures v * b <= a * b
  {
  }

  lemma FracNanosRange(f: string)
    requires AllDigits(f) && |f| <= 9
    ensures FracNanos(f) <= 1_000_000_000
  {
    Billion();
    ValueBound(f);
    AtMost(Value(f), Pow10(|f|), Pow10(9 - |f|));
    Pow10Add(|f|, 9 - |f|);
  }

  lemma WeightedRange(f: string)
    requires AllDigits(f) && |f| <= 9
    ensures 0.0 <= Weighted(f) <= 1.0
  {
    WeightedNanos(f);
    FracNanosRange(f);
  }

  /** One turn of the loop adds at most DRIFT to the error. */
  lemma DriftStep(s: real, w: real, p: real, q: real, a: real, r: real, e: real)
    requires RealAbs(s - w) <= e && 0.0 <= e <= 1.0 && 0.0 <= w <= 1.0
    requires RealAbs(p - q) <= 100.0 * STEP && 0.0 <= q <= 9.0
    requires RealAbs(a - p) <= ROUNDOFF * RealAbs(p)
    requires RealAbs(r - (s + a)) <= ROUNDOFF * RealAbs(s + a)
    ensures RealAbs(r - (w + q)) <= e + DRIFT
  {
  }

  lemma WeightDrift(fl: real -> real, k: nat, d: nat)
    requires Rounds(fl) && k <= 9 && d <= 9
    ensures RealAbs(Times(Mult(fl, k), d) - Times(Tenths(k), d)) <= 100.0 * STEP
    ensures 0.0 <= Times(Tenths(k), d) <= 9.0
  {
    MultDrift(fl, k);
    TimesSmall(STEP, k);
    var e := 10.0 * STEP;
    DigitTimes(Mult(fl, k), Tenths(k), d, e);
    TimesSmall(e, d);
    TimesIsProduct(1.0, d);
  }

  lemma {:induction false} SumDrift(fl: real -> real, f: string, drift: real)
    requires Rounds(fl) && AllDigits(f) && |f| <= 9 && drift == DRIFT
    ensures RealAbs(Sum(fl, f) - Weighted(f)) <= Times(drift, |f|)
    decreases |f|
  {
    if f != "" {
      var init := f[..|f| - 1];
      SumDrift(fl, init, drift);
      TimesSmall(drift, |init|);
      SumDriftNext(fl, f, init, Times(drift, |init|));
    }
  }

  lemma SumDriftNext(fl: real -> real, f: string, init: string, e: real)
    requires Rounds(fl) && AllDigits(f) && 1 <= |f| <= 9 && init == f[..|f| - 1]
    requires RealAbs(Sum(fl, init) - Weighted(init)) <= e && 0.0 <= e <= 1.0
    ensures RealAbs(Sum(fl, f) - Weighted(f)) <= e + DRIFT
  {
    WeightedRange(init);
    SumUnfolds(fl, f, init, f[|f| - 1]);
    DigitTurn(fl, |f|, DigitValue(f[|f| - 1]), Sum(fl, init), Weighted(init), e);
  }

  lemma DigitTurn(fl: real -> real, k: nat, d: nat, s: real, w: real, e: real)
    requires Rounds(fl) && k <= 9 && d <= 9
    requires RealAbs(s - w) <= e && 0.0 <= e <= 1.0 && 0.0 <= w <= 1.0
    ensures RealAbs(fl(s + fl(Times(Mult(fl, k), d))) - (w + Times(Tenths(k), d))) <= e + DRIFT
  {
    WeightDrift(fl, k, d);
    LoopTurn(fl, s, w, Times(Mult(fl, k), d), Times(Tenths(k), d), e);
  }

  lemma LoopTurn(fl: real -> real, s: real, w: real, p: real, q: real, e: real)
    requires Rounds(fl) && RealAbs(s - w) <= e && 0.0 <= e <= 1.0 && 0.0 <= w <= 1.0
    requires RealAbs(p - q) <= 100.0 * STEP && 0.0 <= q <= 9.0
    ensures RealAbs(fl(s + fl(p)) - (w + q)) <= e + DRIFT
  {
    assert Near(fl, p);
    var y := s + fl(p);
    assert Near(fl, y);
    DriftStep(s, w, p, q, fl(p), fl(y), e);
  }

  /** Under any rounding of this accuracy the reader is at most one nanosecond low and never high. */
  lemma RoundedReading(fl: real -> real, f: string)
    requires Rounds(fl) && AllDigits(f) && |f| <= 9
    ensures FracNanos(f) - 1 <= ReadNanos(fl, f) <= FracNanos(f)
  {
    var drift := DRIFT;
    SumDrift(fl, f, drift);
    TimesSmall(drift, |f|);
    WeightedRange(f);
    WeightedNanos(f);
    var x := Sum(fl, f) * 1000000000.0;
    assert Near(fl, x);
    assert RealAbs(fl(x) - FracNanos(f) as real) < 0.5;
  }

  lemma SignKept(fl: real -> real, x: real)
    requires Rounds(fl) && x >= 0.0
    ensures fl(x) >= 0.0
  {
    assert Near(fl, x);
  }

  lemma {:induction false} TimesSign(x: real, d: nat)
    requires x >= 0.0
    ensures Times(x, d) >= 0.0
  {
    if d > 0 {
      TimesSign(x, d - 1);
    }
  }

  lemma {:induction false} RoundedSumSign(fl: real -> real, f: string)
    requires Rounds(fl) && AllDigits(f)
    ensures Sum(fl, f) >= 0.0
    decreases |f|
  {
    if f != "" {
      RoundedSumSign(fl, f[..|f| - 1]);
      MultSign(fl, |f|);
      var x := Times(Mult(fl, |f|), DigitValue(f[|f| - 1]));
      TimesSign(Mult(fl, |f|), DigitValue(f[|f| - 1]));
      SignKept(fl, x);
      SignKept(fl, Sum(fl, f[..|f| - 1]) + fl(x));
    }
  }

  lemma {:induction false} MultSign(fl: real -> real, k: nat)
    requires Rounds(fl)
    ensures Mult(fl, k) >= 0.0
  {
    if k > 0 {
      MultSign(fl, k - 1);
      SignKept(fl, Mult(fl, k - 1) / 10.0);
    }
  }

  lemma ReadingSign(fl: real -> real, f: string)
    requires Rounds(fl) && AllDigits(f) && |f| <= 9
    ensures ReadNanos(fl, f) >= 0
  {
    RoundedSumSign(fl, f);
    SignKept(fl, Sum(fl, f) * 1000000000.0);
  }
}
