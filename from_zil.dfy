/** The `fromZil` display filter: an amount in the smallest unit divided by
    10^decimals with big.js decimal arithmetic, by default rounded to three
    places.  Amounts are kept as integers in units of 10^-20, the precision
    (Big.DP) to which big.js carries out a division. */
module FromZilFilter {
  import opened Wrappers
  import opened Decimal

  /** Big.DP: the decimal places big.js keeps in the result of `div`. */
  const DivisionPlaces: nat := 20

  /** The places `toFixed` is asked for when the filter rounds. */
  const RoundedPlaces: nat := 3

  /** What the filter returns: the number 0 for a non-numeric argument, the
      decimal value of the unrounded quotient, or the text of the rounded one. */
  datatype Shown = NumberZero | Plain(value: real) | Fixed(text: string)

  function Abs(n: int): nat
  {
    if n < 0 then -n else n
  }

  /** n / d rounded to the nearest integer with ties away from zero, which is
      big.js rounding mode 1 (ROUND_HALF_UP), the default Big.RM. */
  function RoundHalfUp(n: int, d: nat): (q: int)
    requires d > 0
    ensures 2 * Abs(n - q * d) <= d
    ensures 2 * Abs(n - q * d) == d ==> Abs(q * d) > Abs(n)
    ensures n >= 0 ==> q >= 0
    ensures n <= 0 ==> q <= 0
  {
    if n >= 0 then
      HalfUpMagnitude(n, d)
    else
      var m := HalfUpMagnitude(-n, d);
      NegatedRounding(n, d, m);
      -(m as int)
  }

  /** The rounding of a non-negative n / d: the nearest natural number, ties
      upwards. */
  function HalfUpMagnitude(n: nat, d: nat): (q: nat)
    requires d > 0
    ensures 2 * Abs(n - q * d) <= d
    ensures 2 * Abs(n - q * d) == d ==> Abs(q * d) > Abs(n)
    ensures n == 0 ==> q == 0
  {
    var q := (2 * n + d) / (2 * d);
    RoundNonNegative(n, d, q);
    q
  }

  lemma RoundNonNegative(n: nat, d: nat, q: int)
    requires d > 0 && q == (2 * n + d) / (2 * d)
    ensures q >= 0 && q * d >= 0
    ensures 2 * Abs(n - q * d) <= d
    ensures 2 * Abs(n - q * d) == d ==> Abs(q * d) > Abs(n)
    ensures n == 0 ==> q == 0
  {
    var m, dd := 2 * n + d, 2 * d;
    var r := m % dd;
    assert m == dd * q + r && 0 <= r < dd;
    var p := q * d;
    assert dd * q == 2 * p;
    assert 2 * (n - p) == r - d;
  }

  lemma NegatedRounding(n: int, d: nat, q: int)
    requires n < 0 && d > 0 && q >= 0
    requires 2 * Abs(-n - q * d) <= d
    requires 2 * Abs(-n - q * d) == d ==> Abs(q * d) > Abs(-n)
    ensures 2 * Abs(n - (-q) * d) <= d
    ensures 2 * Abs(n - (-q) * d) == d ==> Abs((-q) * d) > Abs(n)
  {
    var p := q * d;
    assert p >= 0;
    assert (-q) * d == -p;
  }

  /** Rounding a multiple of d loses nothing. */
  lemma RoundExact(k: int, d: nat)
    requires d > 0
    ensures RoundHalfUp(k * d, d) == k
  {
    var q := RoundHalfUp(k * d, d);
    SubtractMultiples(k, q, d);
    OnlyZeroMultipleNear(k * d - q * d, k - q, d);
  }

  lemma SubtractMultiples(k: int, q: int, d: int)
    ensures k * d - q * d == (k - q) * d
  {
  }

  /** The only multiple of d within d/2 of zero is zero itself. */
  lemma OnlyZeroMultipleNear(x: int, e: int, d: nat)
    requires d > 0 && x == e * d && 2 * Abs(x) <= d
    ensures e == 0
  {
    NonZeroMultiple(e, d);
  }

  lemma NonZeroMultiple(e: int, d: nat)
    ensures e != 0 ==> Abs(e * d) >= d
  {
    if e > 0 {
      assert e * d - d == (e - 1) * d;
    } else if e < 0 {
      assert -(e * d) - d == (-e - 1) * d;
    }
  }

  /** `_amount.div(_decimals)`: the quotient in units of 10^-20. */
  function Quotient(value: int, decimals: nat): (q: int)
    ensures 2 * Abs(value * Pow10(DivisionPlaces) - q * Pow10(decimals)) <= Pow10(decimals)
    ensures value >= 0 ==> q >= 0
    ensures value <= 0 ==> q <= 0
    ensures 2 * Abs(value * Pow10(DivisionPlaces) - q * Pow10(decimals)) == Pow10(decimals) ==>
              Abs(q * Pow10(decimals)) > Abs(value * Pow10(DivisionPlaces))
  {
    var n := value * Pow10(DivisionPlaces);
    ProductSign(value, Pow10(DivisionPlaces));
    RoundHalfUp(n, Pow10(decimals))
  }

  lemma ProductSign(v: int, p: nat)
    ensures v >= 0 ==> v * p >= 0
    ensures v <= 0 ==> v * p <= 0
  {
  }

  /** The shape `toFixed(3)` gives its text: an optional minus sign, the
      canonical digits of the whole part, a point, and exactly three digits. */
  predicate ThreePlaces(s: string)
  {
    && |s| >= 5
    && s[|s| - 4] == '.'
    && AllDigits(s[|s| - 3..])
    && Canonical(if s[0] == '-' then s[1..|s| - 4] else s[..|s| - 4])
  }

  /** The number a text of that shape denotes. */
  function ReadFixed(s: string): real
    requires ThreePlaces(s)
  {
    var whole := if s[0] == '-' then s[1..|s| - 4] else s[..|s| - 4];
    var magnitude := (1000 * DigitsValue(whole) + DigitsValue(s[|s| - 3..])) as real / 1000.0;
    if s[0] == '-' then -magnitude else magnitude
  }

  /** `Big(result).toFixed(3)` for a quotient q in units of 10^-20: rounded
      half up to thousandths; the minus sign is written whenever q itself is
      negative, even when the rounded value is zero. */
  function ToFixed3(q: int): (s: string)
    ensures ThreePlaces(s)
    ensures s[0] == '-' <==> q < 0
  {
    var t := RoundHalfUp(q, Pow10(DivisionPlaces - RoundedPlaces));
    var a := Abs(t);
    var whole := NatToString(a / 1000);
    var sign := if q < 0 then "-" else "";
    var s := sign + whole + "." + ThreeDigits(a % 1000);
    assert s[|s| - 3..] == ThreeDigits(a % 1000);
    assert (if s[0] == '-' then s[1..|s| - 4] else s[..|s| - 4]) == whole;
    s
  }

  /** fromZil(value, decimals, isRound = true).  `None` stands for an
      argument that `isNaN` rejects. */
  function FromZil(value: Option<int>, decimals: Option<nat>, isRound: bool := true): (r: Shown)
    ensures r.NumberZero? <==> value.None? || decimals.None?
    ensures r.Fixed? <==> isRound && value.Some? && decimals.Some?
    ensures r.Fixed? ==> ThreePlaces(r.text)
  {
    if value.None? || decimals.None? then NumberZero
    else
      var q := Quotient(value.value, decimals.value);
      if isRound then Fixed(ToFixed3(q))
      else Plain(q as real / Pow10(DivisionPlaces) as real)
  }

  /** With at most 20 decimals, big.js divides without loss. */
  lemma QuotientExact(value: int, decimals: nat)
    requires decimals <= DivisionPlaces
    ensures Quotient(value, decimals) == value * Pow10(DivisionPlaces - decimals)
  {
    var a, b := Pow10(DivisionPlaces - decimals), Pow10(decimals);
    Pow10Add(DivisionPlaces - decimals, decimals);
    assert Pow10(DivisionPlaces) == a * b;
    MulAssoc(value, a, b);
    RoundExact(value * a, b);
  }

  lemma MulAssoc(x: int, y: int, z: int)
    ensures x * (y * z) == (x * y) * z
  {
  }

  lemma RealCancel(v: int, a: nat, b: nat)
    requires a > 0 && b > 0
    ensures (v * a) as real / (a * b) as real == v as real / b as real
  {
    assert (v * a) as real == v as real * a as real;
    assert (a * b) as real == a as real * b as real;
  }

  /** Without rounding, the filter gives exactly value / 10^decimals
      (for the decimals big.js divides exactly). */
  lemma UnroundedIsQuotient(value: int, decimals: nat)
    requires decimals <= DivisionPlaces
    ensures FromZil(Some(value), Some(decimals), false) == Plain(value as real / Pow10(decimals) as real)
  {
    QuotientExact(value, decimals);
    Pow10Add(DivisionPlaces - decimals, decimals);
    RealCancel(value, Pow10(DivisionPlaces - decimals), Pow10(decimals));
  }

  /** With no decimals and no rounding the amount comes back unchanged. */
  lemma UnroundedWholeUnits(value: int)
    ensures FromZil(Some(value), Some(0), false) == Plain(value as real)
  {
    UnroundedIsQuotient(value, 0);
  }

  /** The rounded text reads back as the thousandths toFixed rounded to. */
  lemma ReadToFixed3(q: int)
    ensures ReadFixed(ToFixed3(q)) == RoundHalfUp(q, Pow10(DivisionPlaces - RoundedPlaces)) as real / 1000.0
  {
    var t := RoundHalfUp(q, Pow10(DivisionPlaces - RoundedPlaces));
    var a := Abs(t);
    var whole := NatToString(a / 1000);
    var frac := ThreeDigits(a % 1000);
    var sign := if q < 0 then "-" else "";
    assert ToFixed3(q) == sign + whole + "." + frac;
    ReadParts(sign, whole, frac);
    ReadNatToString(a / 1000);
    assert 1000 * (a / 1000) + a % 1000 == a;
    SignedThousandths(q, t);
  }

  /** A sign, canonical whole digits, a point and three digits read back as
      the signed number of thousandths they spell. */
  lemma ReadParts(sign: string, whole: string, frac: string)
    requires sign == "" || sign == "-"
    requires Canonical(whole) && |frac| == 3 && AllDigits(frac)
    ensures ThreePlaces(sign + whole + "." + frac)
    ensures var m := (1000 * DigitsValue(whole) + DigitsValue(frac)) as real / 1000.0;
            ReadFixed(sign + whole + "." + frac) == if sign == "-" then -m else m
  {
    var s := sign + whole + "." + frac;
    assert s[|s| - 3..] == frac;
    assert s[|s| - 4] == '.';
    assert IsDigit(whole[0]);
    assert s[0] == '-' <==> sign == "-";
    assert (if s[0] == '-' then s[1..|s| - 4] else s[..|s| - 4]) == whole;
  }

  /** The magnitude of t with the sign of q is t, when t has q's sign. */
  lemma SignedThousandths(q: int, t: int)
    requires q >= 0 ==> t >= 0
    requires q <= 0 ==> t <= 0
    ensures (if q < 0 then -(Abs(t) as real / 1000.0) else Abs(t) as real / 1000.0) == t as real / 1000.0
  {
    if q < 0 {
      assert Abs(t) == -t;
    } else {
      assert Abs(t) == t;
    }
  }

  /** The rounded text is within half a thousandth of the 20-place quotient. */
  lemma FixedNearQuotient(q: int)
    ensures -0.0005 <= ReadFixed(ToFixed3(q)) - q as real / Pow10(DivisionPlaces) as real <= 0.0005
  {
    var p := Pow10(DivisionPlaces - RoundedPlaces);
    var t := RoundHalfUp(q, p);
    ReadToFixed3(q);
    Pow10Add(RoundedPlaces, DivisionPlaces - RoundedPlaces);
    assert Pow10(DivisionPlaces) == 1000 * p;
    assert -p <= 2 * (q - t * p) <= p;
    HalfThousandth(t, q, p);
  }

  lemma HalfThousandth(t: int, q: int, p: int)
    requires p > 0 && -p <= 2 * (q - t * p) <= p
    ensures -0.0005 <= t as real / 1000.0 - q as real / (1000 * p) as real <= 0.0005
  {
    var P, e := p as real, q - t * p;
    assert q as real == t as real * P + e as real;
    assert (1000 * p) as real == 1000.0 * P;
    assert t as real / 1000.0 - (t as real * P + e as real) / (1000.0 * P) == -(e as real) / (1000.0 * P);
    assert -P <= 2.0 * e as real <= P;
  }

  /** The filter's default: a rounded result within half a thousandth of
      value / 10^decimals. */
  lemma RoundedWithinHalfThousandth(value: int, decimals: nat)
    requires decimals <= DivisionPlaces
    ensures FromZil(Some(value), Some(decimals)).Fixed?
    ensures -0.0005 <= ReadFixed(FromZil(Some(value), Some(decimals)).text)
                       - value as real / Pow10(decimals) as real <= 0.0005
  {
    var q := Quotient(value, decimals);
    FixedNearQuotient(q);
    UnroundedIsQuotient(value, decimals);
  }

  /** For any number of decimals the unrounded result is value / 10^decimals
      to within half a unit in the 20th place, the precision big.js divides to. */
  lemma UnroundedWithinDivisionPrecision(value: int, decimals: nat)
    ensures FromZil(Some(value), Some(decimals), false).Plain?
    ensures var x := FromZil(Some(value), Some(decimals), false).value - value as real / Pow10(decimals) as real;
            var bound := 1.0 / (2 * Pow10(DivisionPlaces)) as real;
            -bound <= x <= bound
  {
    var a, b := Pow10(DivisionPlaces), Pow10(decimals);
    var q := Quotient(value, decimals);
    var e := value * a - q * b;
    assert 2 * Abs(e) <= b;
    NearDivision(q, value, a, b, e);
  }

  lemma NearDivision(q: int, v: int, a: int, b: int, e: int)
    requires a > 0 && b > 0 && e == v * a - q * b && -b <= 2 * e <= b
    ensures var bound := 1.0 / (2 * a) as real;
            -bound <= q as real / a as real - v as real / b as real <= bound
  {
    var A, B, E := a as real, b as real, e as real;
    assert (v * a) as real == v as real * A;
    assert (q * b) as real == q as real * B;
    assert q as real / A - v as real / B == -E / (A * B);
    assert (2 * a) as real == 2.0 * A;
    ScaledBound(-E, A, B);
  }

  lemma ScaledBound(x: real, a: real, b: real)
    requires a > 0.0 && b > 0.0 && -b <= 2.0 * x <= b
    ensures -(1.0 / (2.0 * a)) <= x / (a * b) <= 1.0 / (2.0 * a)
  {
    var y := x / (a * b);
    assert y * (a * b) == x;
    var h := y * a;
    assert h * b == x;
    PositiveProduct(2.0 * h - 1.0, b);
    PositiveProduct(-(2.0 * h + 1.0), b);
    assert -0.5 <= h <= 0.5;
    var k := 1.0 / (2.0 * a);
    assert k * a == 0.5;
    PositiveProduct(y - k, a);
    PositiveProduct(-k - y, a);
  }

  lemma PositiveProduct(z: real, b: real)
    requires b > 0.0
    ensures z > 0.0 ==> z * b > 0.0
  {
  }

  /** A quotient below zero that rounds to zero keeps its minus sign. */
  lemma NegativeZeroText()
    ensures ToFixed3(-1) == "-0.000"
  {
    Pow10Values();
    assert RoundHalfUp(-1, Pow10(17)) == 0;
    assert NatToString(0) == "0";
    assert ThreeDigits(0) == "000";
  }

  /** Beyond 20 decimals big.js rounds twice, to 20 places in the division
      and to 3 in toFixed, so an amount just under half a thousandth is shown
      as one thousandth. */
  lemma RoundsTwiceBeyondTwentyPlaces()
    ensures FromZil(Some(49999999999999999999999), Some(26)) == Fixed("0.001")
    ensures 49999999999999999999999 as real / Pow10(26) as real < 0.0005
  {
    Pow10Values();
    DivisionRoundsUp();
    HalfRoundsUp();
  }

  lemma DivisionRoundsUp()
    ensures Quotient(49999999999999999999999, 26) == 50000000000000000
  {
    Pow10Values();
    var n := 49999999999999999999999 * 100000000000000000000;
    var d := 100000000000000000000000000;
    assert (2 * n + d) / (2 * d) == 50000000000000000;
  }

  lemma HalfRoundsUp()
    ensures ToFixed3(50000000000000000) == "0.001"
  {
    Pow10Values();
    assert RoundHalfUp(50000000000000000, 100000000000000000) == 1;
    assert NatToString(0) == "0";
    assert ThreeDigits(1) == "001";
  }

  lemma Pow10Values()
    ensures Pow10(17) == 100000000000000000
    ensures Pow10(20) == 100000000000000000000
    ensures Pow10(26) == 100000000000000000000000000
  {
    assert Pow10(2) == 100;
    assert Pow10(3) == 1000;
    Pow10Add(3, 3);
    Pow10Add(6, 6);
    Pow10Add(12, 3);
    Pow10Add(15, 2);
    Pow10Add(17, 3);
    Pow10Add(20, 6);
  }
}
