/** binary64 rounding to nearest, ties to even, on the range the fraction reader uses. */
module Binary64 {
  import opened Text
  import opened DurationText
  import opened FloatFraction

  const SIGNIFICAND: real := 4503599627370496.0

  /** 2 to the power 31 - j. */
  function Binade(j: nat): (b: real)
    ensures b > 0.0
  {
    if j == 0 then 2147483648.0 else Binade(j - 1) / 2.0
  }

  /** The binade `x` lies in, looked for from the j-th downwards. */
  function Level(x: real, j: nat): (l: nat)
    ensures l < 80 ==> x >= Binade(l)
    decreases 80 - j, x
  {
    if j >= 80 || x >= Binade(j) then j else Level(x, j + 1)
  }

  /** x * 2^n */
  function Up(x: real, n: nat): real
    decreases n
  { if n == 0 then x else Up(2.0 * x, n - 1) }

  /** y / 2^n */
  function Down(y: real, n: nat): real
    decreases n
  { if n == 0 then y else Down(y / 2.0, n - 1) }

  function Nearest(y: real): (n: int) {
    var f := y.Floor;
    var r := y - f as real;
    if r < 0.5 || (r == 0.5 && f % 2 == 0) then f else f + 1
  }

  /** Rounding of positive values below 2^32 and from 2^-48 on; nothing the reader
      computes lies outside except zero. In binade l neighbouring values are
      2^-(21 + l) apart. */
  function Round64(x: real): real {
    if x <= 0.0 || Level(x, 0) >= 80 then x
    else Down(Nearest(Up(x, 21 + Level(x, 0))) as real, 21 + Level(x, 0))
  }

  lemma {:induction false} DownDifference(a: real, b: real, n: nat)
    ensures Down(a, n) - Down(b, n) == Down(a - b, n)
    decreases n
  {
    if n > 0 {
      DownDifference(a / 2.0, b / 2.0, n - 1);
      assert a / 2.0 - b / 2.0 == (a - b) / 2.0;
    }
  }

  lemma {:induction false} DownOrder(a: real, b: real, n: nat)
    ensures a < b <==> Down(a, n) < Down(b, n)
    decreases n
  {
    if n > 0 {
      DownOrder(a / 2.0, b / 2.0, n - 1);
    }
  }

  lemma {:induction false} DownStep(y: real, n: nat)
    ensures Down(y, n + 1) == Down(y, n) / 2.0
    decreases n
  {
    if n > 0 {
      DownStep(y / 2.0, n - 1);
    }
  }

  lemma {:induction false} UpThenDown(x: real, n: nat)
    ensures Down(Up(x, n), n) == x
    decreases n
  {
    if n > 0 {
      UpThenDown(2.0 * x, n - 1);
      DownStep(Up(2.0 * x, n - 1), n - 1);
    }
  }

  lemma {:induction false} DownScales(y: real, n: nat, u: real)
    requires u == Down(1.0, n)
    ensures Down(y, n) == y * u
    decreases n
  {
    if n > 0 {
      DownStep(1.0, n - 1);
      DownStep(y, n - 1);
      DownScales(y, n - 1, Down(1.0, n - 1));
      assert y * u == y * Down(1.0, n - 1) / 2.0;
    }
  }

  lemma DownByTable()
    ensures Down(1.0, 21) == 1.0 / 2097152.0
  {
    assert Down(1.0, 21) == Down(1.0 / 8.0, 18);
    assert Down(1.0 / 8.0, 18) == Down(1.0 / 64.0, 15);
    assert Down(1.0 / 64.0, 15) == Down(1.0 / 512.0, 12);
    assert Down(1.0 / 512.0, 12) == Down(1.0 / 4096.0, 9);
    assert Down(1.0 / 4096.0, 9) == Down(1.0 / 32768.0, 6);
    assert Down(1.0 / 32768.0, 6) == Down(1.0 / 262144.0, 3);
    assert Down(1.0 / 262144.0, 3) == Down(1.0 / 524288.0, 2);
    assert Down(1.0 / 524288.0, 2) == Down(1.0 / 1048576.0, 1);
  }

  lemma {:induction false} BinadeUnits(j: nat)
    ensures Down(SIGNIFICAND, 21 + j) == Binade(j)
    ensures Down(0.5, 21 + j) == ROUNDOFF * Binade(j)
  {
    if j == 0 {
      DownByTable();
      DownScales(SIGNIFICAND, 21, Down(1.0, 21));
      DownScales(0.5, 21, Down(1.0, 21));
    } else {
      BinadeUnits(j - 1);
      DownStep(SIGNIFICAND, 20 + j);
      DownStep(0.5, 20 + j);
    }
  }

  lemma Round64Near(x: real)
    ensures Near(Round64, x)
  {
    if x > 0.0 && Level(x, 0) < 80 {
      var n := 21 + Level(x, 0);
      var y := Up(x, n);
      var r := Nearest(y) as real;
      UpThenDown(x, n);
      DownDifference(r, y, n);
      DownOrder(0.5, r - y, n);
      DownOrder(r - y, -0.5, n);
      DownDifference(0.0, 0.5, n);
      DownDifference(0.0, 0.0, n);
      BinadeUnits(Level(x, 0));
    }
  }

  lemma Round64Rounds()
    ensures Rounds(Round64)
  {
    forall x: real ensures Near(Round64, x) {
      Round64Near(x);
    }
  }

  lemma {:induction false} BinadesFall(i: nat, j: nat)
    requires i <= j
    ensures Binade(j) <= Binade(i)
  {
    if i < j {
      BinadesFall(i, j - 1);
    }
  }

  lemma {:induction false} LevelIs(x: real, i: nat, j: nat)
    requires i <= j < 80 && Binade(j) <= x && (j > 0 ==> x < Binade(j - 1))
    ensures Level(x, i) == j
    decreases j - i
  {
    if i < j {
      BinadesFall(i, j - 1);
      LevelIs(x, i + 1, j);
    }
  }

  lemma NearestIs(y: real, m: int, tie: bool)
    requires m as real - 0.5 <= y <= m as real + 0.5
    requires if tie then m % 2 == 0 else m as real - 0.5 < y < m as real + 0.5
    ensures Nearest(y) == m
  {
  }

  /** `v` is a whole number `m` of units of the binade of `x` and less than half a unit
      away, so `x` rounds to `v`. */
  lemma RoundsTo(x: real, j: nat, u: real, m: int, v: real)
    requires 1 <= j < 80 && u * SIGNIFICAND == Binade(j)
    requires u * SIGNIFICAND <= x < 2.0 * u * SIGNIFICAND
    requires v == m as real * u && -0.5 * u < x - v < 0.5 * u
    ensures Round64(x) == v
  {
    LevelIs(x, 0, j);
    UnitOfBinade(j, u);
    RoundsToAt(x, 21 + j, u, m, v, false);
  }

  /** Half-way between two neighbours the even one wins. */
  lemma TieRoundsTo(x: real, j: nat, u: real, m: int, h: int, v: real)
    requires 1 <= j < 80 && u * SIGNIFICAND == Binade(j) && m == 2 * h
    requires u * SIGNIFICAND <= x < 2.0 * u * SIGNIFICAND
    requires v == m as real * u && -0.5 * u <= x - v <= 0.5 * u
    ensures Round64(x) == v
  {
    LevelIs(x, 0, j);
    UnitOfBinade(j, u);
    RoundsToAt(x, 21 + j, u, m, v, true);
  }

  lemma UnitOfBinade(j: nat, u: real)
    requires u * SIGNIFICAND == Binade(j)
    ensures Down(1.0, 21 + j) == u
  {
    BinadeUnits(j);
    DownScales(SIGNIFICAND, 21 + j, Down(1.0, 21 + j));
  }

  lemma RoundsToAt(x: real, n: nat, u: real, m: int, v: real, tie: bool)
    requires u == Down(1.0, n) && v == m as real * u && -0.5 * u <= x - v <= 0.5 * u
    requires if tie then m % 2 == 0 else -0.5 * u < x - v < 0.5 * u
    ensures Nearest(Up(x, n)) == m && Down(m as real, n) == v
  {
    var y := Up(x, n);
    UpThenDown(x, n);
    DownScales(m as real, n, u);
    DownScales(0.5, n, u);
    DownScales(-0.5, n, u);
    DownDifference(y, m as real, n);
    DownOrder(-0.5, y - m as real, n);
    DownOrder(y - m as real, 0.5, n);
    DownOrder(y - m as real, -0.5, n);
    DownOrder(0.5, y - m as real, n);
    NearestIs(y, m, tie);
  }

  const WEIGHT1: real := 3602879701896397.0 / 36028797018963968.0
  const WEIGHT2: real := 5764607523034235.0 / 576460752303423488.0
  const WEIGHT3: real := 1152921504606847.0 / 1152921504606846976.0
  const WEIGHT4: real := 7378697629483821.0 / 73786976294838206464.0
  const WEIGHT5: real := 5902958103587057.0 / 590295810358705651712.0
  const WEIGHT6: real := 2361183241434823.0 / 2361183241434822606848.0
  const WEIGHT7: real := 3777893186295717.0 / 37778931862957161709568.0
  const WEIGHT8: real := 6044629098073147.0 / 604462909807314587353088.0
  const WEIGHT9: real := 2417851639229259.0 / 2417851639229258349412352.0
  const SMALLEST: real := 4835703278458517.0 / 4835703278458516698824704.0

  lemma Binades()
    ensures Binade(7) == 16777216.0
    ensures Binade(35) == 1.0 / 16.0
    ensures Binade(37) == 1.0 / 64.0
    ensures Binade(38) == 1.0 / 128.0
    ensures Binade(41) == 1.0 / 1024.0
    ensures Binade(44) == 1.0 / 8192.0
    ensures Binade(45) == 1.0 / 16384.0
    ensures Binade(48) == 1.0 / 131072.0
    ensures Binade(51) == 1.0 / 1048576.0
    ensures Binade(55) == 1.0 / 16777216.0
    ensures Binade(58) == 1.0 / 134217728.0
    ensures Binade(61) == 1.0 / 1073741824.0
  {
    assert Binade(7) == 16777216.0;
    assert Binade(13) == 262144.0;
    assert Binade(19) == 4096.0;
    assert Binade(25) == 64.0;
    assert Binade(31) == 1.0;
    assert Binade(37) == 1.0 / 64.0;
    assert Binade(43) == 1.0 / 4096.0;
    assert Binade(49) == 1.0 / 262144.0;
    assert Binade(55) == 1.0 / 16777216.0;
    assert Binade(61) == 1.0 / 1073741824.0;
  }

  /** What dividing 1.0 by ten again and again gives in binary64. */
  lemma Weights()
    ensures Mult(Round64, 1) == WEIGHT1
    ensures Mult(Round64, 2) == WEIGHT2
    ensures Mult(Round64, 3) == WEIGHT3
    ensures Mult(Round64, 4) == WEIGHT4
    ensures Mult(Round64, 5) == WEIGHT5
    ensures Mult(Round64, 6) == WEIGHT6
    ensures Mult(Round64, 7) == WEIGHT7
    ensures Mult(Round64, 8) == WEIGHT8
    ensures Mult(Round64, 9) == WEIGHT9
    ensures Round64(0.000000001) == SMALLEST
  {
    Binades();
    RoundsTo(1.0 / 10.0, 35, 1.0 / 72057594037927936.0, 7205759403792794, WEIGHT1);
    RoundsTo(WEIGHT1 / 10.0, 38, 1.0 / 576460752303423488.0, 5764607523034235, WEIGHT2);
    RoundsTo(WEIGHT2 / 10.0, 41, 1.0 / 4611686018427387904.0, 4611686018427388, WEIGHT3);
    RoundsTo(WEIGHT3 / 10.0, 45, 1.0 / 73786976294838206464.0, 7378697629483821, WEIGHT4);
    RoundsTo(WEIGHT4 / 10.0, 48, 1.0 / 590295810358705651712.0, 5902958103587057, WEIGHT5);
    RoundsTo(WEIGHT5 / 10.0, 51, 1.0 / 4722366482869645213696.0, 4722366482869646, WEIGHT6);
    RoundsTo(WEIGHT6 / 10.0, 55, 1.0 / 75557863725914323419136.0, 7555786372591434, WEIGHT7);
    RoundsTo(WEIGHT7 / 10.0, 58, 1.0 / 604462909807314587353088.0, 6044629098073147, WEIGHT8);
    RoundsTo(WEIGHT8 / 10.0, 61, 1.0 / 4835703278458516698824704.0, 4835703278458518, WEIGHT9);
    RoundsTo(0.000000001, 61, 1.0 / 4835703278458516698824704.0, 4835703278458517, SMALLEST);
    assert Mult(Round64, 1) == WEIGHT1;
    assert Mult(Round64, 2) == WEIGHT2;
    assert Mult(Round64, 3) == WEIGHT3;
    assert Mult(Round64, 4) == WEIGHT4;
    assert Mult(Round64, 5) == WEIGHT5;
    assert Mult(Round64, 6) == WEIGHT6;
    assert Mult(Round64, 7) == WEIGHT7;
    assert Mult(Round64, 8) == WEIGHT8;
  }

  /** binary64 keeps every error bound the reader relies on, and accepts nine digits. */
  lemma Round64IsMachine()
    ensures Machine(Round64)
  {
    Round64Rounds();
    Weights();
    NinthWeightDecides(Round64, WEIGHT9);
  }

  const THREE: real := 8646911284551352.0 / 288230376151711744.0
  const TWO_LOW: real := 7378697629483821.0 / 36893488147419103232.0
  const TOTAL: real := 8704557359781694.0 / 288230376151711744.0
  const SCALED: real := 8106750771199999.0 / 268435456.0

  lemma TimesThree()
    ensures Round64(3.0 * WEIGHT2) == THREE && Round64(THREE) == THREE
  {
    Binades();
    TieRoundsTo(3.0 * WEIGHT2, 37, 1.0 / 288230376151711744.0, 8646911284551352, 4323455642275676, THREE);
    RoundsTo(THREE, 37, 1.0 / 288230376151711744.0, 8646911284551352, THREE);
  }

  lemma TimesTwo()
    ensures Round64(2.0 * WEIGHT4) == TWO_LOW && Round64(THREE + TWO_LOW) == TOTAL
  {
    Binades();
    RoundsTo(2.0 * WEIGHT4, 44, 1.0 / 36893488147419103232.0, 7378697629483821, TWO_LOW);
    RoundsTo(THREE + TWO_LOW, 37, 1.0 / 288230376151711744.0, 8704557359781694, TOTAL);
  }

  lemma DigitsOf0302()
    ensures FracNanos("0302") == 30_200_000 && Value("0302") == 302 && "0302"[3] != '0'
  {
    var f := "0302";
    assert f[..3] == "030" && "030"[..2] == "03" && "03"[..1] == "0" && "0"[..0] == "";
    assert Value("0") == 0 && Value("03") == 3 && Value("030") == 30 && Value(f) == 302;
    assert Pow10(5) == 100_000;
  }

  /** What one digit adds, once its two roundings are known. */
  lemma SumOfDigit(f: string, c: char, w: real, t: real, p: real, s: real, r: real)
    requires AllDigits(f) && IsDigit(c) && Mult(Round64, |f| + 1) == w && Sum(Round64, f) == s
    requires Times(w, DigitValue(c)) == t && Round64(t) == p && Round64(s + p) == r
    ensures Sum(Round64, f + [c]) == r
  {
    SumSnoc(Round64, f, c);
  }

  lemma RoundOfZero()
    ensures Round64(0.0) == 0.0
  {
  }

  lemma DigitsZeroThree(t: real, p: real)
    requires Times(Mult(Round64, 2), 3) == t && Round64(t) == p && Round64(p) == p
    ensures Sum(Round64, "03") == p
  {
    RoundOfZero();
    SumOfDigit("", '0', Mult(Round64, 1), 0.0, 0.0, 0.0, 0.0);
    assert "" + "0" == "0";
    SumOfDigit("0", '3', Mult(Round64, 2), t, p, 0.0, p);
    assert "0" + "3" == "03";
  }

  lemma DigitZero(p: real)
    requires Sum(Round64, "03") == p && Round64(p) == p
    ensures Sum(Round64, "030") == p
  {
    RoundOfZero();
    SumOfDigit("03", '0', Mult(Round64, 3), 0.0, 0.0, p, p);
    assert "03" + "0" == "030";
  }

  lemma DigitTwo(p: real, t: real, q: real, r: real)
    requires Sum(Round64, "030") == p
    requires Times(Mult(Round64, 4), 2) == t && Round64(t) == q && Round64(p + q) == r
    ensures Sum(Round64, "0302") == r
  {
    SumOfDigit("030", '2', Mult(Round64, 4), t, q, p, r);
    assert "030" + "2" == "0302";
  }

  lemma SumOf0302()
    ensures Sum(Round64, "0302") == TOTAL
  {
    Weights();
    TimesThree();
    TimesTwo();
    TimesIsProduct(WEIGHT2, 3);
    TimesIsProduct(WEIGHT4, 2);
    DigitsZeroThree(3.0 * WEIGHT2, THREE);
    DigitZero(THREE);
    DigitTwo(THREE, 2.0 * WEIGHT4, TWO_LOW, TOTAL);
  }

  /** In binary64 the fraction .0302 of a second is read one nanosecond short. */
  lemma ThirtyPointTwoMillis()
    ensures FracNanos("0302") == 30_200_000
    ensures ReadNanos(Round64, "0302") == 30_199_999
  {
    DigitsOf0302();
    SumOf0302();
    ThirtyPointTwoScaled();
  }

  lemma ThirtyPointTwoScaled()
    ensures Round64(TOTAL * 1000000000.0) == SCALED && SCALED.Floor == 30_199_999
  {
    Binades();
    RoundsTo(TOTAL * 1000000000.0, 7, 1.0 / 268435456.0, 8106750771199999, SCALED);
  }
}
