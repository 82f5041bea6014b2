/** The two UTC normalisers: `timestamp` in Python and in the Node conformance tool. */
module Timestamp {
  import opened Results
  import opened Calendar
  import opened Digits
  import Lex

  datatype Stamp = Stamp(date: Date, time: Time)

  /** 1899-12-31T00:00:00 and 2101-01-02T00:00:00, the bounds both tools use. */
  const FIRST_MICROS := 59_926_608_000_000_000
  const LIMIT_MICROS := 66_269_750_400_000_000

  lemma BoundsAreInstants(t: Time)
    requires OfDay(t) == 0
    ensures Micros(Date(1899, 12, 31), t) == FIRST_MICROS
    ensures Micros(Date(2101, 1, 2), t) == LIMIT_MICROS
  {
    YearLength(1899);
    YearStarts();
  }

  lemma YearStarts()
    ensures DaysBeforeYear(100) == 36159 && DaysBeforeYear(1899) == 693230
    ensures DaysBeforeYear(1900) == 693595
    ensures DaysBeforeYear(2101) == 767009 && DaysBeforeYear(2102) == 767374
  {
    DaysBeforeYearClosed(100);
    DaysBeforeYearClosed(1899);
    DaysBeforeYearClosed(1900);
    DaysBeforeYearClosed(2101);
    DaysBeforeYearClosed(2102);
  }

  /** Both regular expressions: DDDD-DD-DDTDD:DD:DD, an optional fraction of one to six digits, Z. */
  predicate Shaped(s: string) {
    |s| >= 20 && s[|s| - 1] == 'Z'
    && AllDigits(s[0..4]) && s[4] == '-' && AllDigits(s[5..7]) && s[7] == '-' && AllDigits(s[8..10])
    && s[10] == 'T' && AllDigits(s[11..13]) && s[13] == ':' && AllDigits(s[14..16]) && s[16] == ':'
    && AllDigits(s[17..19])
    && (|s| == 20 || (22 <= |s| <= 27 && s[19] == '.' && AllDigits(s[20..|s| - 1])))
  }

  function FractionText(s: string): (f: string)
    requires Shaped(s)
    ensures |f| <= 6 && AllDigits(f)
  {
    if |s| == 20 then "" else s[20..|s| - 1]
  }

  function PadEnd(f: string): (r: string)
    requires |f| <= 6 && AllDigits(f)
    ensures |r| == 6 && AllDigits(r)
    decreases 6 - |f|
  {
    if |f| == 6 then f else PadEnd(f + "0")
  }

  /** The numbers matched by the capture groups. */
  function Fields(s: string): Stamp
    requires Shaped(s)
  {
    Stamp(Date(Value(s[0..4]), Value(s[5..7]), Value(s[8..10])),
          Time(Value(s[11..13]), Value(s[14..16]), Value(s[17..19]), Value(PadEnd(FractionText(s)))))
  }

  predicate Valid(st: Stamp) { ValidDate(st.date) && ValidTime(st.time) }

  function Instant(st: Stamp): int
    requires Valid(st)
  {
    Micros(st.date, st.time)
  }

  /** fromisoformat accepts the fields and the microsecond instant is in range. */
  predicate Supported(st: Stamp) {
    Valid(st) && FIRST_MICROS <= Instant(st) < LIMIT_MICROS
  }

  /** strftime plus the six-digit microsecond field; also isoformat(timespec="microseconds") plus Z. */
  function Print(st: Stamp): (s: string)
    requires 0 <= st.date.year && 0 <= st.date.month && 0 <= st.date.day
    requires ValidTime(st.time)
  {
    Padded(st.date.year, 4) + "-" + Padded(st.date.month, 2) + "-" + Padded(st.date.day, 2) + "T"
    + Padded(st.time.hour, 2) + ":" + Padded(st.time.minute, 2) + ":" + Padded(st.time.second, 2) + "."
    + Padded(st.time.micro, 6) + "Z"
  }

  /** The Python normaliser: parse, compare microsecond instants, print the fields. */
  function PythonTimestamp(s: string): Option<string> {
    if Shaped(s) && Supported(Fields(s)) then Some(Print(Fields(s))) else None
  }

  /** The month that Date.UTC reads: two-digit years mean 19xx, and months may overflow into the next years. */
  function FirstOfMonth(d: Date): Date {
    Date((if 0 <= d.year <= 99 then 1900 + d.year else d.year) + (d.month - 1) / 12, (d.month - 1) % 12 + 1, 1)
  }

  /** Date.UTC in whole seconds: days may overflow too. */
  function DateUtc(d: Date, t: Time): int
    requires 0 <= d.year && 0 <= d.month
  {
    (Ordinal(FirstOfMonth(d)) + d.day - 1) * 86_400 + Seconds(t)
  }

  /** The normalised fields equal the matched ones and the whole second is in range. */
  predicate NodeAccepts(st: Stamp)
    requires 0 <= st.date.year && 0 <= st.date.month
  {
    var utc := DateUtc(st.date, st.time);
    utc >= 86_400 && DateOf(utc * 1_000_000) == st.date && ClockOf(utc * 1_000_000) == st.time.(micro := 0)
    && FIRST_MICROS <= utc * 1_000_000 < LIMIT_MICROS
  }

  /** The Node normaliser: normalise through Date.UTC, compare the fields back, then edit the text. */
  function NodeTimestamp(s: string): Option<string> {
    if Shaped(s) && NodeAccepts(Fields(s)) then Some(s[..19] + "." + PadEnd(FractionText(s)) + "Z") else None
  }

  /** What two-digit and four-digit capture groups can hold. */
  predicate Bounded(st: Stamp) {
    0 <= st.date.year < 10000 && 0 <= st.date.month < 100 && 0 <= st.date.day < 100
    && 0 <= st.time.hour < 100 && 0 <= st.time.minute < 100 && 0 <= st.time.second < 100
    && 0 <= st.time.micro < 1_000_000
  }

  lemma FieldBounds(s: string)
    requires Shaped(s)
    ensures Bounded(Fields(s))
  {
    ValueBound(s[0..4]); ValueBound(s[5..7]); ValueBound(s[8..10]); ValueBound(s[11..13]);
    ValueBound(s[14..16]); ValueBound(s[17..19]); ValueBound(PadEnd(FractionText(s)));
    assert Pow10(4) == 10000 && Pow10(2) == 100;
    assert Pow10(6) == 1_000_000 by { Pow10Add(4, 2); }
  }

  /** Months overflow forwards, or backwards by the one month before January. */
  lemma MonthFrom(d: Date)
    requires 0 <= d.year && 0 <= d.month
    ensures Ordinal(FirstOfMonth(d)) > if d.year < 100 then 693_230 else 36_159 - 366
  {
    var first := FirstOfMonth(d);
    assert first.year >= if d.year < 100 then 1899 else 99;
    DayInYear(first);
    DaysBeforeYearClosed(first.year);
  }

  /** Every count Date.UTC can give here is at least day 1, and two-digit years give 1899 or later. */
  lemma DateUtcFrom(d: Date, t: Time)
    requires Bounded(Stamp(d, t))
    ensures DateUtc(d, t) >= 86_400
    ensures d.year < 100 ==> DateUtc(d, t) >= 86_400 * 693_230
  {
    MonthFrom(d);
  }

  lemma DateUtcOfValid(d: Date, t: Time)
    requires ValidDate(d) && d.year >= 100 && t.micro == 0
    ensures DateUtc(d, t) * 1_000_000 == Micros(d, t)
  {
    assert (d.month - 1) / 12 == 0 && (d.month - 1) % 12 == d.month - 1;
  }

  lemma TwoDigitYearComesBackLater(d: Date, utc: int)
    requires ValidDate(d) && d.year < 100
    requires utc >= 86_400 * 693_230
    ensures utc >= 86_400 && DateOf(utc * 1_000_000) != d
  {
    YearStarts();
    DayInYear(d);
    YearsAscend(d.year + 1, 100);
  }

  /** Comparing the normalised fields back accepts exactly the valid Gregorian date-times after year 99. */
  lemma FieldsComeBackIffValid(d: Date, t: Time)
    requires Bounded(Stamp(d, t)) && t.micro == 0
    ensures var utc := DateUtc(d, t);
            utc >= 86_400
            && (DateOf(utc * 1_000_000) == d && ClockOf(utc * 1_000_000) == t
                <==> ValidDate(d) && ValidTime(t) && d.year >= 100)
    ensures ValidDate(d) && d.year >= 100 ==> DateUtc(d, t) * 1_000_000 == Micros(d, t)
  {
    DateUtcFrom(d, t);
    if ValidDate(d) {
      if d.year < 100 {
        TwoDigitYearComesBackLater(d, DateUtc(d, t));
      } else {
        DateUtcOfValid(d, t);
        if ValidTime(t) {
          FieldsRoundTrip(d, t, Micros(d, t));
        }
      }
    }
  }

  /** The two acceptance tests agree on everything the capture groups can hold. */
  lemma SameAcceptance(st: Stamp)
    requires Bounded(st)
    ensures Supported(st) <==> NodeAccepts(st)
  {
    var whole := st.time.(micro := 0);
    FieldsComeBackIffValid(st.date, whole);
    assert DateUtc(st.date, st.time) == DateUtc(st.date, whole);
    if Valid(st) {
      if st.date.year >= 100 {
        InstantOfWhole(st);
        WholeSecondRange(DateUtc(st.date, whole), st.time.micro);
      } else {
        BeforeFirst(st);
      }
    }
  }

  lemma InstantOfWhole(st: Stamp)
    requires Valid(st)
    ensures Instant(st) == Micros(st.date, st.time.(micro := 0)) + st.time.micro
  {
  }

  lemma BeforeFirst(st: Stamp)
    requires Valid(st) && st.date.year < 100
    ensures Instant(st) < FIRST_MICROS
  {
    DayInYear(st.date);
    YearsAscend(st.date.year + 1, 100);
    YearStarts();
    MicrosCompare(Ordinal(st.date), OfDay(st.time), 693595, 0);
  }

  /** A text is accepted exactly if its groups are a valid date and clock between the two documented midnights. */
  lemma AcceptedTexts(p: Parts, midnight: Time)
    requires ValidParts(p) && ValidTime(midnight) && OfDay(midnight) == 0
    ensures var d, t := Fields(Text(p)).date, Fields(Text(p)).time;
            PythonTimestamp(Text(p)).Some?
            <==> ValidDate(d) && ValidTime(t)
                 && Micros(Date(1899, 12, 31), midnight) <= Micros(d, t) < Micros(Date(2101, 1, 2), midnight)
  {
    TextMeans(p);
    BoundsAreInstants(midnight);
  }

  lemma {:induction false} PadEndOfSix(f: string)
    requires |f| == 6 && AllDigits(f)
    ensures PadEnd(f) == f
  {
  }

  /** Missing digits of the fraction are zeros at its end. */
  lemma {:induction false} FractionIsMicros(f: string)
    requires |f| <= 6 && AllDigits(f)
    ensures Value(PadEnd(f)) == Value(f) * Pow10(6 - |f|)
    decreases 6 - |f|
  {
    if |f| < 6 {
      FractionIsMicros(f + "0");
      ValueConcat(f, "0");
      assert Value("0") == 0 && Pow10(1) == 10;
      Pow10Add(1, 5 - |f|);
      MoveTen(Value(f), Pow10(5 - |f|));
    }
  }

  lemma MoveTen(v: nat, p: nat)
    ensures v * 10 * p == v * (10 * p)
  {
  }

  /** The digit groups of a timestamp. */
  datatype Parts = Parts(year: string, month: string, day: string, hour: string, minute: string, second: string,
                         fraction: string)

  predicate IsGroup(s: string, digits: nat) { |s| == digits && AllDigits(s) }

  predicate ValidParts(p: Parts) {
    IsGroup(p.year, 4) && IsGroup(p.month, 2) && IsGroup(p.day, 2)
    && IsGroup(p.hour, 2) && IsGroup(p.minute, 2) && IsGroup(p.second, 2)
    && |p.fraction| <= 6 && AllDigits(p.fraction)
  }

  function Joined(a: string, b: string, c: string, mark: string): string { a + mark + b + mark + c }

  function End(fraction: string): string { if fraction == "" then "Z" else "." + fraction + "Z" }

  function Text(p: Parts): string {
    Joined(p.year, p.month, p.day, "-") + "T" + Joined(p.hour, p.minute, p.second, ":") + End(p.fraction)
  }

  /** What a text of the pattern says, digit group by digit group; the fraction counts millionths. */
  lemma TextMeans(p: Parts)
    requires ValidParts(p)
    ensures Shaped(Text(p))
    ensures var st := Fields(Text(p));
            st.date == Date(Value(p.year), Value(p.month), Value(p.day))
            && st.time == Time(Value(p.hour), Value(p.minute), Value(p.second),
                               Value(p.fraction) * Pow10(6 - |p.fraction|))
  {
    TextGroups(Text(p), Joined(p.year, p.month, p.day, "-"), Joined(p.hour, p.minute, p.second, ":"), p);
    FractionIsMicros(p.fraction);
  }

  /** Every text of the pattern is spelled by its digit groups. */
  lemma ShapedIsText(s: string) returns (p: Parts)
    requires Shaped(s)
    ensures ValidParts(p) && s == Text(p)
  {
    p := Parts(s[0..4], s[5..7], s[8..10], s[11..13], s[14..16], s[17..19], FractionText(s));
    var date, clock := Joined(p.year, p.month, p.day, "-"), Joined(p.hour, p.minute, p.second, ":");
    assert date == s[0..10] && clock == s[11..19] && End(p.fraction) == s[19..];
  }

  lemma TextGroups(s: string, date: string, clock: string, p: Parts)
    requires |p.year| == 4 && |p.month| == 2 && |p.day| == 2 && |p.hour| == 2 && |p.minute| == 2 && |p.second| == 2
    requires date == Joined(p.year, p.month, p.day, "-") && clock == Joined(p.hour, p.minute, p.second, ":")
    requires s == date + "T" + clock + End(p.fraction) && |p.fraction| <= 6
    ensures |s| == (if p.fraction == "" then 20 else |p.fraction| + 21) && s[|s| - 1] == 'Z'
    ensures s[0..4] == p.year && s[4] == '-' && s[5..7] == p.month && s[7] == '-' && s[8..10] == p.day && s[10] == 'T'
    ensures s[11..13] == p.hour && s[13] == ':' && s[14..16] == p.minute && s[16] == ':' && s[17..19] == p.second
    ensures p.fraction != "" ==> s[19] == '.' && s[20..|s| - 1] == p.fraction
  {
    JoinedGroups(date, p.year, p.month, p.day, "-");
    JoinedGroups(clock, p.hour, p.minute, p.second, ":");
    HeadSlices(s, date, clock, End(p.fraction));
    assert p.fraction != "" ==> s[20..|s| - 1] == End(p.fraction)[1..|s| - 20];
  }

  lemma JoinedGroups(text: string, a: string, b: string, c: string, mark: string)
    requires text == Joined(a, b, c, mark) && |b| == |c| == 2 && |mark| == 1
    ensures |text| == |a| + 6 && text[0..|a|] == a && text[|a|] == mark[0]
    ensures text[|a| + 1..|a| + 3] == b && text[|a| + 3] == mark[0] && text[|a| + 4..|a| + 6] == c
  {
  }

  lemma HeadSlices(s: string, date: string, clock: string, end: string)
    requires |date| == 10 && |clock| == 8 && s == date + "T" + clock + end
    ensures |s| == 19 + |end| && s[19..] == end && s[10] == 'T'
    ensures s[0..4] == date[0..4] && s[4] == date[4] && s[5..7] == date[5..7] && s[7] == date[7]
    ensures s[8..10] == date[8..10]
    ensures s[11..13] == clock[0..2] && s[13] == clock[2] && s[14..16] == clock[3..5] && s[16] == clock[5]
    ensures s[17..19] == clock[6..8]
  {
  }

  /** Re-printing what the capture groups matched gives back the text they matched. */
  lemma PrintIsEdit(s: string)
    requires Shaped(s) && ValidTime(Fields(s).time)
    ensures Print(Fields(s)) == s[..19] + "." + PadEnd(FractionText(s)) + "Z"
  {
    ValuePadded(s[0..4]); ValuePadded(s[5..7]); ValuePadded(s[8..10]); ValuePadded(s[11..13]);
    ValuePadded(s[14..16]); ValuePadded(s[17..19]); ValuePadded(PadEnd(FractionText(s)));
    assert s[..19] == s[0..4] + "-" + s[5..7] + "-" + s[8..10] + "T"
                      + s[11..13] + ":" + s[14..16] + ":" + s[17..19];
  }

  /** The two normalisers accept the same texts and return the same text. */
  lemma SameTimestamp(s: string)
    ensures PythonTimestamp(s) == NodeTimestamp(s)
  {
    if Shaped(s) {
      FieldBounds(s);
      SameAcceptance(Fields(s));
      if Supported(Fields(s)) {
        PrintIsEdit(s);
      }
    }
  }

  /** The whole-second range test equals the microsecond range test. */
  lemma WholeSecondRange(seconds: int, micro: int)
    requires 0 <= micro < 1_000_000
    ensures FIRST_MICROS <= seconds * 1_000_000 + micro < LIMIT_MICROS
            <==> FIRST_MICROS <= seconds * 1_000_000 < LIMIT_MICROS
  {
  }

  /** Printing any four-digit stamp and matching it again recovers every field. */
  lemma PrintParses(st: Stamp)
    requires Valid(st) && 0 <= st.date.year < 10000
    ensures Shaped(Print(st)) && |Print(st)| == 27 && Fields(Print(st)) == st
  {
    var s := Print(st);
    PrintLayout(st);
    assert Pow10(4) == 10000 && Pow10(2) == 100;
    assert Pow10(6) == 1_000_000 by { Pow10Add(4, 2); }
    PaddedValue(st.date.year, 4); PaddedValue(st.date.month, 2); PaddedValue(st.date.day, 2);
    PaddedValue(st.time.hour, 2); PaddedValue(st.time.minute, 2); PaddedValue(st.time.second, 2);
    PaddedValue(st.time.micro, 6);
    PadEndOfSix(s[20..26]);
  }

  lemma PrintLayout(st: Stamp)
    requires Valid(st) && 0 <= st.date.year < 10000
    ensures var s := Print(st);
            |s| == 27 && Shaped(s)
            && s[0..4] == Padded(st.date.year, 4) && s[5..7] == Padded(st.date.month, 2)
            && s[8..10] == Padded(st.date.day, 2)
            && s[11..13] == Padded(st.time.hour, 2) && s[14..16] == Padded(st.time.minute, 2)
            && s[17..19] == Padded(st.time.second, 2) && s[20..26] == Padded(st.time.micro, 6)
  {
    var s := Print(st);
    assert s[0..4] == Padded(st.date.year, 4);
    assert s[5..7] == Padded(st.date.month, 2);
    assert s[8..10] == Padded(st.date.day, 2);
    assert s[11..13] == Padded(st.time.hour, 2);
    assert s[14..16] == Padded(st.time.minute, 2);
    assert s[17..19] == Padded(st.time.second, 2);
    assert s[20..26] == Padded(st.time.micro, 6);
  }

  /** An accepted text denotes a supported instant; its output denotes the same one and is a fixed point. */
  lemma TimestampIdempotent(s: string)
    requires PythonTimestamp(s).Some?
    ensures Shaped(s) && Supported(Fields(s))
    ensures var out := PythonTimestamp(s).value;
            PythonTimestamp(out) == Some(out) && Shaped(out) && Fields(out) == Fields(s)
  {
    FieldBounds(s);
    PrintParses(Fields(s));
  }

  /** Supported texts with all six digits are fixed points. */
  lemma FullTextIsFixed(s: string)
    requires Shaped(s) && |s| == 27 && Supported(Fields(s))
    ensures PythonTimestamp(s) == Some(s)
  {
    PrintIsEdit(s);
    PadEndOfSix(FractionText(s));
    assert s == s[..19] + "." + FractionText(s) + "Z";
  }

  lemma SupportedYears(st: Stamp)
    requires Supported(st)
    ensures 1899 <= st.date.year <= 2101
  {
    var t := ClockOf(0);
    BoundsAreInstants(t);
    MicrosOrder(st.date, st.time, Date(1899, 12, 31), t);
    MicrosOrder(st.date, st.time, Date(2101, 1, 2), t);
  }

  /** Every supported instant is the value of an accepted text. */
  lemma TimestampCovers(st: Stamp)
    requires Supported(st)
    ensures 1899 <= st.date.year <= 2101
    ensures PythonTimestamp(Print(st)) == Some(Print(st)) && Shaped(Print(st)) && Fields(Print(st)) == st
  {
    SupportedYears(st);
    PrintParses(st);
  }

  /** The tail of a printed stamp, one field at a time, compares as its numbers do. */
  lemma FieldOrder(m: nat, n: nat, w: nat, sep: char, a: string, b: string)
    requires m < Pow10(w) && n < Pow10(w)
    ensures Lex.Less(Lex.Codes(Padded(m, w) + [sep] + a), Lex.Codes(Padded(n, w) + [sep] + b))
            <==> m < n || (m == n && Lex.Less(Lex.Codes(a), Lex.Codes(b)))
  {
    var x, y := Lex.Codes(Padded(m, w)), Lex.Codes(Padded(n, w));
    var c := [sep as int];
    assert Lex.Codes(Padded(m, w) + [sep] + a) == x + (c + Lex.Codes(a));
    assert Lex.Codes(Padded(n, w) + [sep] + b) == y + (c + Lex.Codes(b));
    Lex.Blocks(x, c + Lex.Codes(a), y, c + Lex.Codes(b));
    Lex.Blocks(c, Lex.Codes(a), c, Lex.Codes(b));
    PaddedOrder(m, n, w);
    if x == y {
      Lex.CodesInjective(Padded(m, w), Padded(n, w));
      PaddedValue(m, w);
      PaddedValue(n, w);
    }
  }

  function Clock(t: Time): string
    requires ValidTime(t)
  {
    Padded(t.hour, 2) + [':']
      + (Padded(t.minute, 2) + [':'] + (Padded(t.second, 2) + ['.'] + (Padded(t.micro, 6) + ['Z'] + "")))
  }

  lemma ClockOrder(a: Time, b: Time)
    requires ValidTime(a) && ValidTime(b)
    ensures Lex.Less(Lex.Codes(Clock(a)), Lex.Codes(Clock(b)))
            <==> OfDay(a) < OfDay(b)
  {
    assert Pow10(2) == 100;
    assert Pow10(6) == 1_000_000 by { Pow10Add(4, 2); }
    FieldOrder(a.micro, b.micro, 6, 'Z', "", "");
    var a3, b3 := Padded(a.micro, 6) + ['Z'] + "", Padded(b.micro, 6) + ['Z'] + "";
    FieldOrder(a.second, b.second, 2, '.', a3, b3);
    var a2, b2 := Padded(a.second, 2) + ['.'] + a3, Padded(b.second, 2) + ['.'] + b3;
    FieldOrder(a.minute, b.minute, 2, ':', a2, b2);
    var a1, b1 := Padded(a.minute, 2) + [':'] + a2, Padded(b.minute, 2) + [':'] + b2;
    FieldOrder(a.hour, b.hour, 2, ':', a1, b1);
  }

  function DayAndClock(st: Stamp): string
    requires Valid(st)
  {
    Padded(st.date.day, 2) + ['T'] + Clock(st.time)
  }

  function MonthOn(st: Stamp): string
    requires Valid(st)
  {
    Padded(st.date.month, 2) + ['-'] + DayAndClock(st)
  }

  lemma PrintSplits(st: Stamp)
    requires Valid(st) && 0 <= st.date.year < 10000
    ensures Print(st) == Padded(st.date.year, 4) + ['-'] + MonthOn(st)
  {
  }

  lemma DateTextOrder(a: Stamp, b: Stamp)
    requires Valid(a) && Valid(b) && 0 <= a.date.year < 10000 && 0 <= b.date.year < 10000
    ensures Lex.Less(Lex.Codes(Print(a)), Lex.Codes(Print(b)))
            <==> Earlier(a.date, b.date)
                 || (a.date == b.date && Lex.Less(Lex.Codes(Clock(a.time)), Lex.Codes(Clock(b.time))))
  {
    assert Pow10(4) == 10000 && Pow10(2) == 100;
    PrintSplits(a);
    PrintSplits(b);
    FieldOrder(a.date.year, b.date.year, 4, '-', MonthOn(a), MonthOn(b));
    FieldOrder(a.date.month, b.date.month, 2, '-', DayAndClock(a), DayAndClock(b));
    FieldOrder(a.date.day, b.date.day, 2, 'T', Clock(a.time), Clock(b.time));
  }

  /** Text order of normalised timestamps is chronological order. */
  lemma TextOrderIsTimeOrder(a: Stamp, b: Stamp)
    requires Valid(a) && Valid(b) && 0 <= a.date.year < 10000 && 0 <= b.date.year < 10000
    ensures Lex.Less(Lex.Codes(Print(a)), Lex.Codes(Print(b))) <==> Instant(a) < Instant(b)
  {
    DateTextOrder(a, b);
    ClockOrder(a.time, b.time);
    MicrosOrder(a.date, a.time, b.date, b.time);
  }
}
