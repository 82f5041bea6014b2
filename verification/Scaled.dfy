/** Bounded decimal text to scaled integers: the Decimal version, the BigInt version and what both mean. */
module Scaled {
  import opened Results
  import opened Digits
  import opened HalfEven

  datatype Kind = Latitude | Longitude | Angle

  /** A finite Decimal: coefficient times a power of ten, with its own sign, so that -0 exists. */
  datatype Dec = Dec(negative: bool, coefficient: nat, exponent: int)

  /** The capture groups of -?[0-9]{1,3}(.[0-9]{1,18})? */
  datatype Groups = Groups(negative: bool, whole: string, fraction: string)

  predicate ValidGroups(g: Groups) {
    1 <= |g.whole| <= 3 && |g.fraction| <= 18 && AllDigits(g.whole) && AllDigits(g.fraction)
  }

  function Match(text: string): (r: Option<Groups>)
    ensures r.Some? ==> ValidGroups(r.value)
  {
    if text != [] && text[0] == '-' then MatchBody(true, text[1..]) else MatchBody(false, text)
  }

  function MatchBody(negative: bool, body: string): (r: Option<Groups>)
    ensures r.Some? ==> ValidGroups(r.value)
  {
    var n := DigitRun(body);
    if !(1 <= n <= 3) then None
    else if n == |body| then Some(Groups(negative, body[..n], ""))
    else if body[n] == '.' && 1 <= |body| - n - 1 <= 18 && AllDigits(body[n + 1..])
      then Some(Groups(negative, body[..n], body[n + 1..]))
    else None
  }

  function Places(kind: Kind): nat { if kind == Angle then 9 else 7 }

  function Low(kind: Kind): int {
    match kind case Latitude => -90 case Longitude => -180 case Angle => 0
  }

  function High(kind: Kind): int {
    match kind case Latitude => 90 case Longitude => 180 case Angle => 360
  }

  function Product(a: nat, b: nat): nat { a * b }

  function Signed(negative: bool, magnitude: nat): int { if negative then 0 - magnitude else magnitude }

  /** The value of the text times ten to the number of its fraction digits. */
  function Numerator(g: Groups): int
    requires ValidGroups(g)
  {
    Signed(g.negative, Value(g.whole + g.fraction))
  }

  /** Within the closed range, and an angle below 360. */
  predicate InRange(kind: Kind, numerator: int, denominator: nat) {
    Low(kind) * denominator <= numerator <= High(kind) * denominator
    && !(kind == Angle && numerator == 360 * denominator)
  }

  // ---- the Python version: Decimal arithmetic in a 40-digit context ----

  function DecimalOf(g: Groups): Dec
    requires ValidGroups(g)
  {
    Dec(g.negative, Value(g.whole + g.fraction), -(|g.fraction| as int))
  }

  /** The context's precision in digits. */
  const PRECISION: nat := 40

  /** How many digits n has beyond the precision. */
  function Excess(n: nat, precision: nat): (k: nat)
    requires precision >= 1
    ensures n < Pow10(precision + k) && (k > 0 ==> Pow10(precision + k - 1) <= n)
    decreases n
  {
    if n < Pow10(precision) then 0 else
      assert Pow10(precision) >= 10;
      1 + Excess(n / 10, precision)
  }

  /** Context rounding: all excess digits are dropped at once, and a carry into one more digit moves the exponent. */
  function ToPrecision(d: Dec, precision: nat): Dec
    requires precision >= 1
  {
    var k := Excess(d.coefficient, precision);
    var c := ByDroppedDigit(d.coefficient, k);
    if k == 0 then d
    else if c < Pow10(precision) then Dec(d.negative, c, d.exponent + k)
    else Dec(d.negative, c / 10, d.exponent + k + 1)
  }

  /** The two decimals are the same number: c times ten to the exponent. */
  predicate SameNumber(r: Dec, negative: bool, c: nat, exponent: int) {
    r.negative == negative
    && ((r.coefficient == c && r.exponent == exponent) || (10 * r.coefficient == c && r.exponent == exponent + 1))
  }

  /** A context rounds once, half-even, at the first power of ten at which the coefficient fits. */
  lemma ContextRoundsOnce(d: Dec, precision: nat) returns (k: nat, c: nat)
    requires precision >= 1
    ensures Nearest(d.coefficient, Pow10(k), c) && d.coefficient < Pow10(precision + k)
    ensures k > 0 ==> Pow10(precision + k - 1) <= d.coefficient
    ensures SameNumber(ToPrecision(d, precision), d.negative, c, d.exponent + k)
            && ToPrecision(d, precision).coefficient < Pow10(precision)
  {
    k, c := Excess(d.coefficient, precision), d.coefficient;
    if k > 0 {
      c := DroppedIsNearest(d.coefficient, k, precision, Pow10(precision));
    }
    ResultIs(d, precision, k, c);
  }

  lemma ResultIs(d: Dec, precision: nat, k: nat, c: nat)
    requires precision >= 1 && k == Excess(d.coefficient, precision) && c <= Pow10(precision)
    requires c == if k == 0 then d.coefficient else ByDroppedDigit(d.coefficient, k)
    ensures SameNumber(ToPrecision(d, precision), d.negative, c, d.exponent + k)
            && ToPrecision(d, precision).coefficient < Pow10(precision)
  {
    CarryKeepsValue(c, Pow10(precision - 1));
  }

  /** A coefficient with a carry is a power of ten, so dropping its last digit is exact. */
  lemma CarryKeepsValue(c: nat, t: nat)
    ensures c == 10 * t ==> 10 * (c / 10) == c && (t > 0 ==> c / 10 < c)
  {
  }

  lemma DroppedIsNearest(n: nat, k: nat, precision: nat, p: nat) returns (c: nat)
    requires p == Pow10(precision) && n < Pow10(precision + k)
    ensures c == ByDroppedDigit(n, k) <= p && Nearest(n, Pow10(k), c)
  {
    c := ByDroppedDigit(n, k);
    var den := Pow10(k);
    SameRounding(n, k);
    ByRemainderNearest(n, den);
    Pow10Add(precision, k);
    NearestBounds(n, den, c, 0, p);
  }

  /** number * 10**places in a context */
  function Multiply(d: Dec, places: nat, precision: nat): Dec
    requires precision >= 1
  {
    ToPrecision(Dec(d.negative, d.coefficient * Pow10(places), d.exponent), precision)
  }

  /** quantize to the given exponent with half-even rounding; an over-long coefficient is an error. */
  function Quantize(d: Dec, exponent: int, precision: nat): Option<Dec> {
    var c := if exponent <= d.exponent then d.coefficient * Pow10(d.exponent - exponent)
             else ByDroppedDigit(d.coefficient, exponent - d.exponent);
    if c < Pow10(precision) then Some(Dec(d.negative, c, exponent)) else None
  }

  /** scaled() in a context of the given precision. */
  function ScaledIn(text: string, kind: Kind, precision: nat): Option<int>
    requires precision >= 1
  {
    match Match(text)
    case None => None
    case Some(g) =>
      var number := DecimalOf(g);
      if !InRange(kind, Signed(number.negative, number.coefficient), Pow10(-number.exponent)) then None
      else
        match Quantize(Multiply(number, Places(kind), precision), 0, precision)
        case None => None
        case Some(q) =>
          var value := Signed(q.negative, q.coefficient);
          var value' := if kind == Angle then value % 360_000_000_000 else value;
          Some(if kind == Longitude && value' == 1_800_000_000 then -1_800_000_000 else value')
  }

  function PythonScaled(text: string, kind: Kind): Option<int> { ScaledIn(text, kind, PRECISION) }

  // ---- the Node version: BigInt quotient and remainder ----

  /** The BigInt remainder takes the sign of the dividend. */
  function BigIntRem(a: int, b: nat): int
    requires b > 0
  {
    if a >= 0 then a % b else -((-a) % b)
  }

  function NodeScaled(text: string, kind: Kind): Option<int> {
    match Match(text)
    case None => None
    case Some(g) =>
      var denominator := Pow10(|g.fraction|);
      var magnitude := Value(g.whole + g.fraction);
      var sign := if g.negative then -1 else 1;
      if !InRange(kind, magnitude * sign, denominator) then None
      else
        var quotient := ByRemainder(Product(magnitude, Pow10(Places(kind))), denominator);
        Some(NodeWrap(kind, quotient * sign))
  }

  function NodeWrap(kind: Kind, result: int): int {
    var result' := if kind == Angle then BigIntRem(result, 360_000_000_000) else result;
    if kind == Longitude && result' == 1_800_000_000 then -1_800_000_000 else result'
  }

  // ---- what both mean ----

  /** Where the rounded value ends up: angles modulo the circle, +180 degrees of longitude at -180. */
  function Wrap(kind: Kind, q: int): int {
    match kind
    case Latitude => q
    case Longitude => if q == 1_800_000_000 then -1_800_000_000 else q
    case Angle => q % 360_000_000_000
  }

  /** The text is these parts: a minus sign or none, one to three digits, and perhaps a point and up to 18 digits. */
  predicate Spells(text: string, g: Groups) {
    ValidGroups(g) && text == (if g.negative then "-" else "") + (g.whole + Tail(g.fraction))
  }

  function Tail(fraction: string): string { if fraction == "" then "" else "." + fraction }

  /** num/den is in the documented range, and v is its half-even rounding in the documented unit, wrapped. */
  ghost predicate InUnits(kind: Kind, num: int, den: nat, v: int)
    requires den > 0
  {
    match kind
    case Latitude => -90 * den <= num <= 90 * den && Nearest(num * 10_000_000, den, v)
    case Longitude =>
      -180 * den <= num <= 180 * den
      && exists q :: Nearest(num * 10_000_000, den, q) && v == if q == 1_800_000_000 then -1_800_000_000 else q
    case Angle =>
      0 <= num < 360 * den && exists q :: Nearest(num * 1_000_000_000, den, q) && v == q % 360_000_000_000
  }

  /** The text is accepted with v: it spells a number in range, and v is its wrapped half-even rounding. */
  ghost predicate Means(text: string, kind: Kind, v: int) {
    exists g :: Spells(text, g) && InUnits(kind, Numerator(g), Pow10(|g.fraction|), v)
  }

  /** At most 21 digits times at most 10^9 has at most 30 digits: a longer context never rounds it. */
  lemma ProductIsExact(g: Groups, places: nat, precision: nat)
    requires ValidGroups(g) && places <= 9 && precision >= 30
    ensures Value(g.whole + g.fraction) * Pow10(places) < Pow10(precision)
    ensures Multiply(DecimalOf(g), places, precision)
            == Dec(g.negative, Value(g.whole + g.fraction) * Pow10(places), -(|g.fraction| as int))
  {
    ValueBound(g.whole + g.fraction);
    FitsContext(Value(g.whole + g.fraction), |g.whole + g.fraction|, places, precision);
  }

  lemma FitsContext(coefficient: nat, digits: nat, places: nat, precision: nat)
    requires coefficient < Pow10(digits) && digits + places <= precision
    ensures coefficient * Pow10(places) < Pow10(precision)
  {
    ProductBound(coefficient, Pow10(digits), Pow10(places));
    Pow10Add(digits, places);
    Pow10Grows(digits + places, precision);
  }

  lemma ProductBound(a: nat, a': nat, b: nat)
    requires a < a' && 0 < b
    ensures a * b < a' * b
  {
  }

  lemma {:induction false} Pow10Grows(m: nat, n: nat)
    requires m <= n
    ensures Pow10(m) <= Pow10(n)
    decreases n
  {
    if m < n {
      Pow10Grows(m, n - 1);
    }
  }

  /** The value both versions return before wrapping. */
  function Rounded(g: Groups, places: nat): int
    requires ValidGroups(g)
  {
    Signed(g.negative, ByRemainder(Value(g.whole + g.fraction) * Pow10(places), Pow10(|g.fraction|)))
  }

  lemma SignedNearest(negative: bool, m: nat, den: nat)
    requires den > 0
    ensures Nearest(Signed(negative, m), den, Signed(negative, ByRemainder(m, den)))
  {
    ByRemainderNearest(m, den);
    NearestOdd(m, den, ByRemainder(m, den));
  }

  lemma SignedTimes(negative: bool, m: nat, s: nat)
    ensures Signed(negative, m) * s == Signed(negative, m * s)
  {
    assert (0 - m) * s == 0 - m * s;
  }

  lemma RoundedIsNearest(g: Groups, places: nat)
    requires ValidGroups(g)
    ensures Nearest(Numerator(g) * Pow10(places), Pow10(|g.fraction|), Rounded(g, places))
  {
    ProductNearest(g.negative, Value(g.whole + g.fraction), Pow10(places), Pow10(|g.fraction|));
  }

  lemma ProductNearest(negative: bool, m: nat, s: nat, den: nat)
    requires den > 0
    ensures Nearest(Signed(negative, m) * s, den, Signed(negative, ByRemainder(m * s, den)))
  {
    SignedTimes(negative, m, s);
    SignedNearest(negative, m * s, den);
  }

  lemma ScaleBounds(low: int, n: int, high: int, den: nat, s: nat)
    requires low * den <= n <= high * den
    ensures low * s * den <= n * s <= high * s * den
  {
    Monotone(low * den, n, s);
    Monotone(n, high * den, s);
    assert low * den * s == low * s * den;
    assert high * den * s == high * s * den;
  }

  lemma RoundedBounds(g: Groups, kind: Kind, places: nat)
    requires ValidGroups(g) && InRange(kind, Numerator(g), Pow10(|g.fraction|))
    ensures Low(kind) * Pow10(places) <= Rounded(g, places) <= High(kind) * Pow10(places)
  {
    var n, s, den := Numerator(g), Pow10(places), Pow10(|g.fraction|);
    RoundedIsNearest(g, places);
    ScaleBounds(Low(kind), n, High(kind), den, s);
    NearestBounds(n * s, den, Rounded(g, places), Low(kind) * s, High(kind) * s);
  }

  lemma PowersUsed()
    ensures Pow10(7) == 10_000_000 && Pow10(9) == 1_000_000_000
  {
  }

  /** What both versions return once the text has matched. */
  function Answer(g: Groups, kind: Kind): Option<int>
    requires ValidGroups(g)
  {
    if InRange(kind, Numerator(g), Pow10(|g.fraction|)) then Some(Wrap(kind, Rounded(g, Places(kind)))) else None
  }

  /** The Decimal path is exact up to the one half-even rounding, which looks at digits. */
  lemma DecimalPath(g: Groups, places: nat, precision: nat)
    requires ValidGroups(g) && places <= 9 && precision >= 30
    ensures Quantize(Multiply(DecimalOf(g), places, precision), 0, precision)
            == Some(Dec(g.negative, ByRemainder(Value(g.whole + g.fraction) * Pow10(places), Pow10(|g.fraction|)), 0))
  {
    var c, k := Value(g.whole + g.fraction) * Pow10(places), |g.fraction|;
    ProductIsExact(g, places, precision);
    QuantizedOnce(Dec(g.negative, c, -k), k, precision);
  }

  /** Quantizing to an integer what fits the context rounds half-even and fits it too. */
  lemma QuantizedOnce(d: Dec, k: nat, precision: nat)
    requires d.coefficient < Pow10(precision) && k == -d.exponent
    ensures Quantize(d, 0, precision) == Some(Dec(d.negative, ByRemainder(d.coefficient, Pow10(k)), 0))
  {
    SameRounding(d.coefficient, k);
    RoundingIsNoLonger(d.coefficient, Pow10(k));
    assert Pow10(0) == 1;
  }

  lemma RoundingIsNoLonger(c: nat, d: nat)
    requires d > 0
    ensures ByRemainder(c, d) <= c
  {
    var q, r := c / d, c % d;
    assert c == q * d + r;
    Monotone(1, d, q);
    if d > 1 && q > 0 {
      Monotone(2, d, q);
    }
  }

  lemma ContextValue(text: string, kind: Kind, precision: nat)
    requires Match(text).Some? && precision >= 30
    ensures ScaledIn(text, kind, precision) == Answer(Match(text).value, kind)
  {
    DecimalPath(Match(text).value, Places(kind), precision);
  }

  lemma PythonValue(text: string, kind: Kind)
    requires Match(text).Some?
    ensures PythonScaled(text, kind) == Answer(Match(text).value, kind)
  {
    ContextValue(text, kind, PRECISION);
  }

  lemma NodeValue(text: string, kind: Kind)
    requires Match(text).Some?
    ensures NodeScaled(text, kind) == Answer(Match(text).value, kind)
  {
    var g := Match(text).value;
    SignOf(g.negative, Value(g.whole + g.fraction));
    if InRange(kind, Numerator(g), Pow10(|g.fraction|)) {
      var quotient := ByRemainder(Value(g.whole + g.fraction) * Pow10(Places(kind)), Pow10(|g.fraction|));
      SignOf(g.negative, quotient);
      RoundedBounds(g, kind, Places(kind));
      SameWrap(kind, Rounded(g, Places(kind)));
    }
  }

  lemma SignOf(negative: bool, n: nat)
    ensures n * (if negative then -1 else 1) == Signed(negative, n)
  {
  }

  lemma SameWrap(kind: Kind, q: int)
    requires kind == Angle ==> q >= 0
    ensures NodeWrap(kind, q) == Wrap(kind, q)
  {
  }

  /** The two versions accept the same texts and return the same integer. */
  lemma SameScaled(text: string, kind: Kind)
    ensures PythonScaled(text, kind) == NodeScaled(text, kind)
  {
    if Match(text).Some? {
      PythonValue(text, kind);
      NodeValue(text, kind);
    }
  }

  /** Both directions: a result is returned exactly when the text means it. */
  lemma ScaledMeans(text: string, kind: Kind, v: int)
    ensures PythonScaled(text, kind) == Some(v) <==> Means(text, kind, v)
  {
    if Match(text).Some? {
      var g := Match(text).value;
      MatchIsSpelling(text, g);
      PythonValue(text, kind);
      AnswerMeans(g, kind, v);
      UnitsAreWrapped(g, kind, v);
    }
    forall g | Spells(text, g) ensures Match(text) == Some(g) {
      MatchIsSpelling(text, g);
    }
  }

  /** The pattern's groups are the only parts a text can be spelled from. */
  lemma MatchIsSpelling(text: string, g: Groups)
    ensures Match(text) == Some(g) <==> Spells(text, g)
  {
    var negative := text != [] && text[0] == '-';
    var body := if negative then text[1..] else text;
    assert text == (if negative then "-" else "") + body;
    BodySpelled(negative, body);
    if Spells(text, g) {
      var spelled := g.whole + Tail(g.fraction);
      assert IsDigit(spelled[0]) by { assert IsDigit(g.whole[0]); }
      assert text == (if g.negative then "-" else "") + spelled;
      assert negative == g.negative && body == spelled;
      SpelledBody(g);
    }
  }

  lemma BodySpelled(negative: bool, body: string)
    ensures var r := MatchBody(negative, body);
            r.Some? ==> r.value.negative == negative && body == r.value.whole + Tail(r.value.fraction)
  {
    var n := DigitRun(body);
    if n < |body| {
      assert body == body[..n] + ([body[n]] + body[n + 1..]);
    }
  }

  lemma SpelledBody(g: Groups)
    requires ValidGroups(g)
    ensures MatchBody(g.negative, g.whole + Tail(g.fraction)) == Some(g)
  {
    var body := g.whole + Tail(g.fraction);
    if g.fraction == "" {
      AllRun(g.whole);
      assert body == g.whole && body[..|g.whole|] == g.whole;
    } else {
      RunStops(g.whole, Tail(g.fraction));
      assert body[..|g.whole|] == g.whole && body[|g.whole| + 1..] == g.fraction;
    }
  }

  lemma {:induction false} AllRun(s: string)
    requires AllDigits(s)
    ensures DigitRun(s) == |s|
  {
    if s != [] {
      AllRun(s[1..]);
    }
  }

  lemma UnitsAreWrapped(g: Groups, kind: Kind, v: int)
    requires ValidGroups(g)
    ensures InUnits(kind, Numerator(g), Pow10(|g.fraction|), v)
            <==> InRange(kind, Numerator(g), Pow10(|g.fraction|))
                 && exists q ::
                      Nearest(Numerator(g) * Pow10(Places(kind)), Pow10(|g.fraction|), q) && v == Wrap(kind, q)
  {
    PowersUsed();
    WrappedUnits(kind, Numerator(g), Pow10(|g.fraction|), Pow10(Places(kind)), v);
  }

  lemma WrappedUnits(kind: Kind, num: int, den: nat, p: nat, v: int)
    requires den > 0 && p == if kind == Angle then 1_000_000_000 else 10_000_000
    ensures InUnits(kind, num, den, v)
            <==> InRange(kind, num, den) && exists q :: Nearest(num * p, den, q) && v == Wrap(kind, q)
  {
  }

  lemma AnswerMeans(g: Groups, kind: Kind, v: int)
    requires ValidGroups(g)
    ensures Answer(g, kind) == Some(v)
            <==> InRange(kind, Numerator(g), Pow10(|g.fraction|))
                 && exists q ::
                      Nearest(Numerator(g) * Pow10(Places(kind)), Pow10(|g.fraction|), q) && v == Wrap(kind, q)
  {
    var n, den, r := Numerator(g) * Pow10(Places(kind)), Pow10(|g.fraction|), Rounded(g, Places(kind));
    RoundedIsNearest(g, Places(kind));
    forall q | Nearest(n, den, q) ensures q == r {
      NearestUnique(n, den, q, r);
    }
  }

  /** The documented ranges: both poles, longitude without +180, angles below the full circle. */
  lemma ScaledRange(text: string, kind: Kind)
    requires PythonScaled(text, kind).Some?
    ensures var v := PythonScaled(text, kind).value;
            match kind
            case Latitude => -900_000_000 <= v <= 900_000_000
            case Longitude => -1_800_000_000 <= v < 1_800_000_000
            case Angle => 0 <= v < 360_000_000_000
  {
    PythonValue(text, kind);
    RoundedBounds(Match(text).value, kind, Places(kind));
    PowersUsed();
  }

  /**
   Before the wrap, rounding is odd: groups that differ only in the sign are rejected together or round to q and -q.
   */
  lemma OddBeforeWrap(g: Groups, kind: Kind) returns (q: int)
    requires ValidGroups(g) && !g.negative && kind != Angle
    ensures Answer(g, kind).None? <==> Answer(g.(negative := true), kind).None?
    ensures Answer(g, kind).Some? ==>
              q >= 0 && Answer(g, kind) == Some(Wrap(kind, q))
              && Answer(g.(negative := true), kind) == Some(Wrap(kind, -q))
  {
    q := Rounded(g, Places(kind));
  }

  lemma SignedMatch(text: string)
    requires text == [] || text[0] != '-'
    ensures Match(text).None? <==> Match(['-'] + text).None?
    ensures Match(text).Some? ==>
            !Match(text).value.negative && Match(['-'] + text) == Some(Match(text).value.(negative := true))
  {
    assert (['-'] + text)[1..] == text;
  }

  /** Changing the sign of a latitude's text changes the sign of the result, rejections included. */
  lemma LatitudeOdd(text: string)
    requires text == [] || text[0] != '-'
    ensures var plus, minus := PythonScaled(text, Latitude), PythonScaled(['-'] + text, Latitude);
            (plus.None? <==> minus.None?) && (plus.Some? ==> minus == Some(-plus.value))
  {
    SignedMatch(text);
    if Match(text).Some? {
      PythonValue(text, Latitude);
      PythonValue(['-'] + text, Latitude);
      var q := OddBeforeWrap(Match(text).value, Latitude);
    }
  }

  /** Likewise a longitude's, but for 180 degrees, which east and west share. */
  lemma LongitudeOdd(text: string)
    requires text == [] || text[0] != '-'
    ensures var plus, minus := PythonScaled(text, Longitude), PythonScaled(['-'] + text, Longitude);
            (plus.None? <==> minus.None?)
            && (plus.Some? ==> minus == Some(if plus.value == -1_800_000_000 then plus.value else -plus.value))
  {
    SignedMatch(text);
    if Match(text).Some? {
      PythonValue(text, Longitude);
      PythonValue(['-'] + text, Longitude);
      var q := OddBeforeWrap(Match(text).value, Longitude);
    }
  }
}
