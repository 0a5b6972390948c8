/**
 * `formatLikeCount` (src/utils/formatNumber.ts): a like count below 1000 is
 * shown as it is; from 1000 it is shown in thousands with the suffix `k`,
 * from 10000 in units of ten thousand with the suffix `만`, either as a whole
 * number or with exactly one digit after the decimal point.
 *
 * The quotient is a double and `toFixed(1)` rounds the double, not the
 * exact quotient. Away from a tie between two tenths the two agree for every
 * count below 10^14. At a tie, such as 1150 / 1000 = 1.15, the double lies
 * slightly below or above the tie, or on it, and that decides the digit.
 */
module FormatNumber {
  import Decimal

  const KiloSuffix: string := "k"
  const ManSuffix: string := "만"

  /** The unit a count is shown in, from 1000 on. */
  function Unit(count: int): nat {
    if count >= 10000 then 10000 else 1000
  }

  function Suffix(count: int): string {
    if count >= 10000 then ManSuffix else KiloSuffix
  }

  const TwoTo52: nat := 0x10_0000_0000_0000

  /** `2^e`. */
  function Pow2(e: nat): (p: nat)
    ensures p >= 1
  {
    if e == 0 then 1 else 2 * Pow2(e - 1)
  }

  /** The binary exponent of `n / d`: the `e` with `2^e * d <= n < 2^(e+1) * d`. */
  function Exponent(n: nat, d: nat): (e: nat)
    requires 0 < d <= n
    ensures Pow2(e) * d <= n < 2 * Pow2(e) * d
    decreases n - d
  {
    if n < 2 * d then 0
    else
      var e := Exponent(n, 2 * d);
      assert Pow2(e + 1) * d == Pow2(e) * (2 * d);
      e + 1
  }

  /**
   * Whether the double nearest to `count / unit`, which the division in
   * the formatter produces, is at least the exact quotient. A double keeps
   * 53 significant bits, so a quotient of binary exponent `e` is rounded to
   * a multiple of `2^(e - 52)`: it goes up, or is exact, when
   * `count * 2^52 / 2^e` leaves a remainder modulo `unit` of zero or of more
   * than half the unit. Quotients of `2^53` and more are taken as exact.
   */
  predicate DoubleAtLeast(count: nat, unit: nat)
    requires 0 < unit <= count
  {
    var e := Exponent(count, unit);
    e > 52 || (var r := count * TwoTo52 / Pow2(e) % unit; r == 0 || 2 * r > unit)
  }

  /**
   * `t` tenths is a nearest tenth of `count / unit`, and at an exact tie
   * between two tenths it is the larger one exactly when `roundUp` holds.
   */
  predicate NearestTenth(count: int, unit: nat, t: int, roundUp: bool)
    requires unit > 0
  {
    && 2 * unit * t - unit <= 20 * count <= 2 * unit * t + unit
    && (20 * count % (2 * unit) == unit ==> (2 * unit * t > 20 * count <==> roundUp))
  }

  /**
   * `t` tenths is what `toFixed(1)` shows for the double of `count / unit`:
   * at a tie the larger tenth exactly when the double lies at or above it.
   */
  predicate ToFixedTenth(count: int, unit: nat, t: int)
    requires 0 < unit <= count
  {
    NearestTenth(count, unit, t, DoubleAtLeast(count, unit))
  }

  /**
   * `toFixed(1)` of `count / unit`, in tenths: the nearest tenth, and at a
   * tie the larger one unless the double of the quotient lies below it.
   */
  function Tenths(count: int, unit: nat): int
    requires 0 < unit <= count
  {
    var up := (20 * count + unit) / (2 * unit);
    if 20 * count % (2 * unit) == unit && !DoubleAtLeast(count, unit) then up - 1 else up
  }

  /** The numeral of `count / unit` before the suffix. */
  function Scaled(count: int, unit: nat): string
    requires unit > 0 && count >= unit
  {
    if count % unit == 0 then Decimal.NatToString(count / unit)
    else
      var t := Tenths(count, unit);
      assert t >= 0;
      Decimal.NatToString(t / 10) + "." + [Decimal.DigitChar(t % 10)]
  }

  /** What the body of a one-decimal display denotes, in tenths. */
  function ShownTenths(body: string): int
    requires |body| >= 2 && Decimal.AllDigits(body[..|body| - 2]) && Decimal.IsDigit(body[|body| - 1])
  {
    Decimal.ParseDigits(body[..|body| - 2]) * 10 + Decimal.DigitValue(body[|body| - 1])
  }

  /** Euclidean division is determined by a quotient and an in-range remainder. */
  lemma DivModOf(x: int, m: int, q: int, r: int)
    requires m > 0 && x == m * q + r && 0 <= r < m
    ensures x / m == q && x % m == r
  {
    var d := q - x / m;
    assert m * d == x % m - r;
    if d >= 1 {
    } else if d <= -1 {
    }
  }

  lemma {:induction false} AtLeastOnce(m: int, k: int)
    requires m > 0 && k >= 1
    ensures m * k >= m
    decreases k
  {
    if k > 1 {
      AtLeastOnce(m, k - 1);
      assert m * k == m * (k - 1) + m;
    }
  }

  lemma TenthsIsNearest(count: int, unit: nat)
    requires 0 < unit <= count
    ensures Tenths(count, unit) >= 0
    ensures ToFixedTenth(count, unit, Tenths(count, unit))
  {
    var m := 2 * unit;
    var up, r := (20 * count + unit) / m, (20 * count + unit) % m;
    assert 20 * count + unit == m * up + r;
    if r == 0 {
      DivModOf(20 * count, m, up - 1, unit);
    } else if r < unit {
      DivModOf(20 * count, m, up - 1, r + unit);
    } else {
      DivModOf(20 * count, m, up, r - unit);
    }
    assert up >= 0;
  }

  /** At most one tenth fits: the rule of `toFixed(1)` names a single display. */
  lemma ToFixedTenthUnique(count: int, unit: nat, t1: int, t2: int)
    requires 0 < unit <= count
    requires ToFixedTenth(count, unit, t1) && ToFixedTenth(count, unit, t2)
    ensures t1 == t2
  {
    NearestTenthUnique(count, unit, t1, t2, DoubleAtLeast(count, unit));
  }

  lemma NearestTenthUnique(count: int, unit: nat, t1: int, t2: int, roundUp: bool)
    requires unit > 0
    requires NearestTenth(count, unit, t1, roundUp) && NearestTenth(count, unit, t2, roundUp)
    ensures t1 == t2
  {
    var m := 2 * unit;
    if t1 != t2 {
      var lo := if t1 < t2 then t1 else t2;
      var hi := if t1 < t2 then t2 else t1;
      assert NearestTenth(count, unit, lo, roundUp) && NearestTenth(count, unit, hi, roundUp);
      AtLeastOnce(m, hi - lo);
      assert m * hi == m * lo + m * (hi - lo);
      DivModOf(20 * count, m, lo, unit);
    }
  }

  /** The one-decimal rendering reads back as the tenths it was built from. */
  lemma OneDecimalReads(t: nat)
    ensures var body := Decimal.NatToString(t / 10) + "." + [Decimal.DigitChar(t % 10)];
      |body| >= 3 && body[|body| - 2] == '.' && Decimal.Canonical(body[..|body| - 2])
      && Decimal.IsDigit(body[|body| - 1]) && ShownTenths(body) == t
  {
    var hi := Decimal.NatToString(t / 10);
    var body := hi + "." + [Decimal.DigitChar(t % 10)];
    assert body[..|body| - 2] == hi;
    Decimal.ParseNatToString(t / 10);
  }

  /**
   * `formatLikeCount`: plain below 1000; otherwise a numeral and the suffix
   * of the count's range, the numeral being the exact quotient when the
   * count is a multiple of the unit and otherwise the nearest tenth with one
   * decimal digit.
   */
  function FormatLikeCount(count: int): (s: string)
    ensures 0 <= count < 1000 ==> Decimal.Canonical(s) && Decimal.ParseDigits(s) == count
    ensures count < 0 ==>
      |s| > 1 && s[0] == '-' && Decimal.Canonical(s[1..]) && Decimal.ParseDigits(s[1..]) == -count
    ensures count >= 1000 ==> |s| > |Suffix(count)| && s[|s| - |Suffix(count)|..] == Suffix(count)
    ensures count >= 1000 && count % Unit(count) == 0 ==>
      var body := s[..|s| - |Suffix(count)|];
      Decimal.Canonical(body) && Decimal.ParseDigits(body) * Unit(count) == count
    ensures count >= 1000 && count % Unit(count) != 0 ==>
      var body := s[..|s| - |Suffix(count)|];
      |body| >= 3 && body[|body| - 2] == '.' && Decimal.Canonical(body[..|body| - 2])
      && Decimal.IsDigit(body[|body| - 1])
      && ToFixedTenth(count, Unit(count), ShownTenths(body))
  {
    if count >= 1000 then
      var unit, suffix := Unit(count), Suffix(count);
      var body := Scaled(count, unit);
      SplitSuffix(body, suffix);
      ScaledReads(count, unit);
      body + suffix
    else
      IntToStringReads(count);
      Decimal.IntToString(count)
  }

  lemma SplitSuffix(body: string, suffix: string)
    ensures (body + suffix)[..|body + suffix| - |suffix|] == body
    ensures (body + suffix)[|body + suffix| - |suffix|..] == suffix
  {
  }

  /** The numeral before the suffix is canonical and denotes the quotient, or its nearest tenth. */
  lemma ScaledReads(count: int, unit: nat)
    requires unit > 0 && count >= unit
    ensures count % unit == 0 ==>
      Decimal.Canonical(Scaled(count, unit)) && Decimal.ParseDigits(Scaled(count, unit)) * unit == count
    ensures count % unit != 0 ==>
      var body := Scaled(count, unit);
      |body| >= 3 && body[|body| - 2] == '.' && Decimal.Canonical(body[..|body| - 2])
      && Decimal.IsDigit(body[|body| - 1])
      && ToFixedTenth(count, unit, ShownTenths(body))
  {
    if count % unit == 0 {
      Decimal.ParseNatToString(count / unit);
    } else {
      TenthsIsNearest(count, unit);
      OneDecimalReads(Tenths(count, unit));
    }
  }

  /** Below 1000 the count is printed as `String(count)`. */
  lemma IntToStringReads(count: int)
    ensures 0 <= count ==>
      Decimal.Canonical(Decimal.IntToString(count)) && Decimal.ParseDigits(Decimal.IntToString(count)) == count
    ensures count < 0 ==>
      var s := Decimal.IntToString(count);
      |s| > 1 && s[0] == '-' && Decimal.Canonical(s[1..]) && Decimal.ParseDigits(s[1..]) == -count
  {
    Decimal.ParseNatToString(if count < 0 then -count else count);
    assert count < 0 ==> Decimal.IntToString(count)[1..] == Decimal.NatToString(-count);
  }

  /** The examples of the formatter's documentation. */
  lemma DocumentedExamples()
    ensures FormatLikeCount(10000) == "1만"
    ensures FormatLikeCount(25000) == "2.5만"
    ensures FormatLikeCount(1000) == "1k"
    ensures FormatLikeCount(1200) == "1.2k"
  {
    assert Tenths(25000, 10000) == 25;
    assert Tenths(1200, 1000) == 12;
    assert Decimal.NatToString(1) == "1";
    assert Decimal.NatToString(2) == "2";
    assert Decimal.DigitChar(5) == '5';
    assert Decimal.DigitChar(2) == '2';
  }

  /**
   * Exact ties follow the double: 1.15 and 9.95 are stored just below the
   * tie and round down, 1.05 is stored just above it and rounds up, and
   * 1.25 is exact and takes the larger tenth.
   */
  lemma TiesFollowTheDouble()
    ensures FormatLikeCount(1150) == "1.1k"
    ensures FormatLikeCount(9950) == "9.9k"
    ensures FormatLikeCount(10500) == "1.1만"
    ensures FormatLikeCount(1250) == "1.3k"
  {
    TieAt1150();
    TieAt9950();
    TieAt10500();
    TieAt1250();
  }

  lemma TieAt1150()
    ensures FormatLikeCount(1150) == "1.1k"
  {
    assert Exponent(1150, 1000) == 0;
    assert !DoubleAtLeast(1150, 1000);
    assert Tenths(1150, 1000) == 11;
    assert Decimal.NatToString(1) == "1";
    assert Decimal.DigitChar(1) == '1';
  }

  lemma TieAt9950()
    ensures FormatLikeCount(9950) == "9.9k"
  {
    assert Exponent(9950, 1000) == 3 by {
      assert Exponent(9950, 8000) == 0;
      assert Exponent(9950, 4000) == 1;
      assert Exponent(9950, 2000) == 2;
    }
    assert !DoubleAtLeast(9950, 1000);
    assert Tenths(9950, 1000) == 99;
    assert Decimal.NatToString(9) == "9";
    assert Decimal.DigitChar(9) == '9';
  }

  lemma TieAt10500()
    ensures FormatLikeCount(10500) == "1.1만"
  {
    assert Exponent(10500, 10000) == 0;
    assert DoubleAtLeast(10500, 10000);
    assert Tenths(10500, 10000) == 11;
    assert Decimal.NatToString(1) == "1";
    assert Decimal.DigitChar(1) == '1';
  }

  lemma TieAt1250()
    ensures FormatLikeCount(1250) == "1.3k"
  {
    assert Exponent(1250, 1000) == 0;
    assert DoubleAtLeast(1250, 1000);
    assert Tenths(1250, 1000) == 13;
    assert Decimal.NatToString(1) == "1";
    assert Decimal.DigitChar(3) == '3';
  }

  /** Both thresholds are inclusive: 999 is plain, 1000 and 10000 switch units. */
  lemma Thresholds()
    ensures FormatLikeCount(999) == "999"
    ensures FormatLikeCount(9000) == "9k"
    ensures FormatLikeCount(10000) == "1만"
  {
    assert Decimal.NatToString(999) == Decimal.NatToString(99) + "9";
    assert Decimal.NatToString(99) == Decimal.NatToString(9) + "9";
    assert Decimal.NatToString(9) == "9";
    assert Decimal.NatToString(1) == "1";
  }

  /**
   * Just below 10000 the nearest tenth of thousands is ten: the display
   * reads `10.0k` rather than switching to the next unit.
   */
  lemma TopOfKiloRange(count: int)
    requires 9951 <= count <= 9999
    ensures FormatLikeCount(count) == "10.0k"
  {
    assert Tenths(count, 1000) == 100;
    assert Decimal.NatToString(10) == Decimal.NatToString(1) + "0";
    assert Decimal.NatToString(1) == "1";
    assert Decimal.DigitChar(0) == '0';
  }

  /** A count just past a whole number of thousands shows a zero tenth. */
  lemma JustPastWholeThousands(count: int)
    requires 1001 <= count <= 1049
    ensures FormatLikeCount(count) == "1.0k"
  {
    assert Tenths(count, 1000) == 10;
    assert Decimal.NatToString(1) == "1";
    assert Decimal.DigitChar(0) == '0';
  }
}
