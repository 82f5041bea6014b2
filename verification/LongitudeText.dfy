/** Astronomical longitudes from a binary64's decimal spelling to nine-place text and to scaled integers. */
module LongitudeText {
  import opened Results
  import opened Digits
  import opened HalfEven
  import opened Scaled

  /** Numerator and denominator, in units of 10^-9 degree, of a decimal's magnitude. */
  function UnitNumerator(d: Dec): nat
  {
    if d.exponent >= -9 then d.coefficient * Pow10(d.exponent + 9) else d.coefficient
  }

  function UnitDenominator(d: Dec): (r: nat)
    ensures r > 0
  {
    if d.exponent >= -9 then 1 else Pow10(-9 - d.exponent)
  }

  /** 0 <= raw < 360, with a zero of either sign; raw is the shortest decimal spelling of the binary64. */
  predicate Accepted(raw: Dec) {
    (raw.negative ==> raw.coefficient == 0)
    && UnitNumerator(raw) < 360_000_000_000 * UnitDenominator(raw)
  }

  /** quantize to nine places half-even, then % 360, which keeps the sign of a zero. */
  function LongitudeDecimal(raw: Dec): Option<Dec> {
    if !Accepted(raw) then None
    else
      match Quantize(raw, -9, PRECISION)
      case None => None
      case Some(q) => Some(Dec(q.negative, q.coefficient % 360_000_000_000, -9))
  }

  /** format(d, ".9f") of a decimal with exponent -9 */
  function NinePlaces(d: Dec): string {
    (if d.negative then "-" else "") + Shortest(d.coefficient / 1_000_000_000) + "."
      + Padded(d.coefficient % 1_000_000_000, 9)
  }

  /** The tropical projection prints 0 in place of a zero of either sign. */
  function TropicalText(d: Dec): string {
    NinePlaces(if d.coefficient == 0 then Dec(false, 0, -9) else d)
  }

  /** The Lahiri projection prints the decimal as it is. */
  function LahiriText(d: Dec): string { NinePlaces(d) }

  predicate WholePattern(w: string) {
    AllDigits(w)
    && (|w| == 1
        || (|w| == 2 && w[0] != '0')
        || (|w| == 3 && (w[0] == '1' || w[0] == '2' || (w[0] == '3' && w[1] <= '5'))))
  }

  /** The wire pattern: 0 to 9, 10 to 99, 100 to 299 or 300 to 359, then a point and nine digits. */
  predicate Pattern(s: string) {
    |s| >= 11 && AllDigits(s[|s| - 9..]) && s[|s| - 10] == '.' && WholePattern(s[..|s| - 10])
  }

  /** Decimals compared by ==, which looks at values only: zeros of either sign are equal. */
  predicate EqualDecimals(a: Dec, b: Dec) {
    var low := if a.exponent <= b.exponent then a.exponent else b.exponent;
    Signed(a.negative, a.coefficient * Pow10(a.exponent - low))
      == Signed(b.negative, b.coefficient * Pow10(b.exponent - low))
  }

  /**
   The validator of a wire longitude: the pattern, and the decimal it reads equals the one computed from the binary64.
   */
  predicate Representation(text: string, decimal: Dec) {
    Pattern(text) && Match(text).Some? && EqualDecimals(DecimalOf(Match(text).value), decimal)
  }

  /** The wire text of k units. */
  function Text(k: nat): string { NinePlaces(Dec(false, k, -9)) }

  lemma OneDigit(n: nat)
    requires n < 10
    ensures Shortest(n) == [DigitChar(n)] && Value([DigitChar(n)]) == n
  {
    assert [DigitChar(n)][..0] == [];
  }

  lemma TwoDigits(n: nat)
    requires 10 <= n < 100
    ensures Shortest(n) == [DigitChar(n / 10), DigitChar(n % 10)]
    ensures Value([DigitChar(n / 10), DigitChar(n % 10)]) == n
  {
    OneDigit(n / 10);
    assert [DigitChar(n / 10), DigitChar(n % 10)][..1] == [DigitChar(n / 10)];
  }

  lemma ThreeDigits(n: nat)
    requires 100 <= n < 1000
    ensures Shortest(n) == [DigitChar(n / 100), DigitChar(n / 10 % 10), DigitChar(n % 10)]
    ensures Value([DigitChar(n / 100), DigitChar(n / 10 % 10), DigitChar(n % 10)]) == n
  {
    TwoDigits(n / 10);
    assert n / 10 / 10 == n / 100;
    assert [DigitChar(n / 100), DigitChar(n / 10 % 10), DigitChar(n % 10)][..2]
           == [DigitChar(n / 100), DigitChar(n / 10 % 10)];
  }

  /** Whole parts below 360 print to the pattern. */
  lemma WholePrints(n: nat)
    requires n < 360
    ensures WholePattern(Shortest(n)) && 1 <= |Shortest(n)| <= 3
  {
    if n < 10 {
      OneDigit(n);
    } else if n < 100 {
      TwoDigits(n);
      assert DigitValue(DigitChar(n / 10)) == n / 10;
    } else {
      ThreeDigits(n);
      assert n < 300 || n / 10 % 10 <= 5;
    }
  }

  /** The pattern's whole parts are the shortest spellings of the numbers below 360. */
  lemma WholeReads(w: string)
    requires WholePattern(w)
    ensures Value(w) < 360 && Shortest(Value(w)) == w
  {
    var a := DigitValue(w[0]);
    if |w| == 1 {
      OneDigit(a);
      assert w == [DigitChar(a)];
    } else if |w| == 2 {
      var n := 10 * a + DigitValue(w[1]);
      TwoDigits(n);
      assert w == [DigitChar(n / 10), DigitChar(n % 10)];
    } else {
      var b, c := DigitValue(w[1]), DigitValue(w[2]);
      var n := 100 * a + 10 * b + c;
      ThreeDigits(n);
      assert n / 10 == 10 * a + b;
      assert n / 100 == a && n / 10 % 10 == b && n % 10 == c;
      assert w == [DigitChar(a), DigitChar(b), DigitChar(c)];
    }
  }

  lemma PatternOfParts(whole: string, frac: string)
    requires WholePattern(whole) && AllDigits(frac) && |frac| == 9
    ensures Pattern(whole + "." + frac)
  {
    var s := whole + "." + frac;
    assert s[..|s| - 10] == whole && s[|s| - 9..] == frac;
  }

  lemma TextMatches(whole: string, frac: string)
    requires AllDigits(whole) && AllDigits(frac) && 1 <= |whole| <= 3 && |frac| == 9
    ensures Match(whole + "." + frac) == Some(Groups(false, whole, frac))
  {
    var s := whole + "." + frac;
    assert s == whole + ("." + frac);
    RunStops(whole, "." + frac);
    assert s[..|whole|] == whole && s[|whole| + 1..] == frac;
  }

  /** Every in-range count prints to text that passes the wire pattern and reads back as the same count. */
  lemma TextRoundTrip(k: nat)
    requires k < 360_000_000_000
    ensures Representation(Text(k), Dec(false, k, -9)) && PythonScaled(Text(k), Angle) == Some(k)
  {
    var w, f := k / 1_000_000_000, k % 1_000_000_000;
    var whole, frac := Shortest(w), Padded(f, 9);
    assert Text(k) == whole + "." + frac;
    WholePrints(w);
    PatternOfParts(whole, frac);
    TextMatches(whole, frac);
    PartsValue(w, f);
    NinePlacesExact(Groups(false, whole, frac), k);
    PythonValue(Text(k), Angle);
  }

  lemma PartsValue(w: nat, f: nat)
    requires f < 1_000_000_000
    ensures Value(Shortest(w) + Padded(f, 9)) == w * 1_000_000_000 + f
  {
    PowersUsed();
    ShortestValue(w);
    PaddedValue(f, 9);
    ValueConcat(Shortest(w), Padded(f, 9));
  }

  lemma NinePlacesExact(g: Groups, k: nat)
    requires ValidGroups(g) && !g.negative && |g.fraction| == 9 && Value(g.whole + g.fraction) == k < 360_000_000_000
    ensures Scaled.Answer(g, Angle) == Some(k)
  {
    PowersUsed();
    var n, den := k * Pow10(9), Pow10(9);
    ByRemainderNearest(n, den);
    assert Nearest(n, den, k);
    NearestUnique(n, den, k, ByRemainder(n, den));
  }

  /** Text the pattern accepts is the text of its own value, so wire text and counts correspond one to one. */
  lemma PatternRoundTrip(s: string)
    requires Pattern(s)
    ensures PythonScaled(s, Angle).Some? && 0 <= PythonScaled(s, Angle).value < 360_000_000_000
    ensures Text(PythonScaled(s, Angle).value) == s
  {
    var whole, frac := s[..|s| - 10], s[|s| - 9..];
    assert s == whole + "." + frac;
    TextMatches(whole, frac);
    var k := CountOf(whole, frac);
    NinePlacesExact(Groups(false, whole, frac), k);
    PythonValue(s, Angle);
  }

  lemma CountOf(whole: string, frac: string) returns (k: nat)
    requires WholePattern(whole) && AllDigits(frac) && |frac| == 9
    ensures k == Value(whole + frac) < 360_000_000_000 && Text(k) == whole + "." + frac
  {
    ValueBound(frac);
    PowersUsed();
    ValueConcat(whole, frac);
    WholeReads(whole);
    ValuePadded(frac);
    k := Value(whole + frac);
    NineDigitSplit(k, Value(whole), Value(frac));
  }

  lemma NineDigitSplit(k: nat, w: nat, f: nat)
    requires k == w * 1_000_000_000 + f && f < 1_000_000_000
    ensures k / 1_000_000_000 == w && k % 1_000_000_000 == f
  {
  }

  /** An accepted longitude quantises to the half-even rounding of its exact value, without overflow. */
  lemma QuantizedLongitude(raw: Dec)
    requires Accepted(raw)
    ensures var q := ByRemainder(UnitNumerator(raw), UnitDenominator(raw));
            Nearest(UnitNumerator(raw), UnitDenominator(raw), q) && q <= 360_000_000_000
            && LongitudeDecimal(raw) == Some(Dec(raw.negative, q % 360_000_000_000, -9))
            && (raw.negative ==> q == 0)
  {
    var num, den := UnitNumerator(raw), UnitDenominator(raw);
    var q := ByRemainder(num, den);
    ByRemainderNearest(num, den);
    NearestBounds(num, den, q, 0, 360_000_000_000);
    if raw.exponent >= -9 {
      assert q == num;
    } else {
      SameRounding(raw.coefficient, -9 - raw.exponent);
    }
    FitsPrecision(q, PRECISION);
    if raw.negative {
      assert num == 0 by {
        assert 0 * Pow10(if raw.exponent >= -9 then raw.exponent + 9 else 0) == 0;
      }
      NearestBounds(num, den, q, 0, 0);
    }
  }

  lemma FitsPrecision(q: nat, precision: nat)
    requires q <= 360_000_000_000 && precision >= 12
    ensures q < Pow10(precision)
  {
    PowersUsed();
    Pow10Add(9, 3);
    assert Pow10(3) == 1000;
    Pow10Grows(12, precision);
  }

  /**
   One rounding from the spelling to the scaled integer: the printed text passes the wire validator,
   and scaling it returns the half-even rounding of the raw value modulo the circle.
   */
  lemma NoDoubleRounding(raw: Dec, q: nat)
    requires Accepted(raw) && Nearest(UnitNumerator(raw), UnitDenominator(raw), q)
    ensures LongitudeDecimal(raw).Some?
    ensures var text := TropicalText(LongitudeDecimal(raw).value);
            Representation(text, LongitudeDecimal(raw).value) && PythonScaled(text, Angle) == Some(q % 360_000_000_000)
  {
    var k := QuantizedTo(raw, q);
    TextRoundTrip(k);
    TropicalIsText(raw.negative, k);
  }

  lemma QuantizedTo(raw: Dec, q: nat) returns (k: nat)
    requires Accepted(raw) && Nearest(UnitNumerator(raw), UnitDenominator(raw), q)
    ensures k == q % 360_000_000_000 && LongitudeDecimal(raw) == Some(Dec(raw.negative, k, -9))
            && (raw.negative ==> k == 0)
  {
    QuantizedLongitude(raw);
    NearestUnique(UnitNumerator(raw), UnitDenominator(raw), q, ByRemainder(UnitNumerator(raw), UnitDenominator(raw)));
    k := q % 360_000_000_000;
  }

  lemma TropicalIsText(negative: bool, k: nat)
    requires negative ==> k == 0
    ensures TropicalText(Dec(negative, k, -9)) == Text(k)
  {
  }

  /**
   Without the zero normalisation the text differs exactly for a negative zero: the Lahiri projection
   passes the wire pattern if and only if the raw value does not carry a minus sign.
   */
  lemma LahiriPassesIffUnsigned(raw: Dec)
    requires Accepted(raw)
    ensures LongitudeDecimal(raw).Some?
    ensures Pattern(LahiriText(LongitudeDecimal(raw).value)) <==> !raw.negative
  {
    QuantizedLongitude(raw);
    var k := ByRemainder(UnitNumerator(raw), UnitDenominator(raw)) % 360_000_000_000;
    TextRoundTrip(k);
    if raw.negative {
      SignedTextFails(k);
    }
  }

  lemma SignedTextFails(k: nat)
    requires Pattern(Text(k))
    ensures LahiriText(Dec(true, k, -9)) == "-" + Text(k) && !Pattern("-" + Text(k))
  {
    var s := "-" + Text(k);
    assert s[..|s| - 10][0] == '-';
  }

  /** Every negative zero, however it is spelled, is accepted and fails there; the tropical text is plain zero. */
  lemma NegativeZeroFails(exponent: int)
    ensures var raw := Dec(true, 0, exponent);
            Accepted(raw) && LongitudeDecimal(raw) == Some(Dec(true, 0, -9))
            && TropicalText(Dec(true, 0, -9)) == Text(0) && LahiriText(Dec(true, 0, -9)) == "-" + Text(0)
            && !Pattern(LahiriText(Dec(true, 0, -9)))
  {
    var raw := Dec(true, 0, exponent);
    assert UnitNumerator(raw) == 0;
    QuantizedLongitude(raw);
    TextRoundTrip(0);
    SignedTextFails(0);
  }
}
