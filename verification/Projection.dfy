/** From a resolved civil time and validated astronomy to the wire response, and the response validator. */
module Projection {
  import opened Results
  import opened Calendar
  import opened Resolver
  import opened Timestamp
  import Digits
  import Lex
  import CivilTime
  import Boundary

  datatype Body = Sun | Moon

  datatype AstroLimitation = ModelledUt1 | Pre1972Proxy | FrozenLeapTable

  datatype Astronomy = Astronomy(utc: int, bodies: seq<Body>, limitations: seq<AstroLimitation>)

  datatype CivilInput = CivilInput(date: string, time: string, fold: Option<int>)

  datatype CivilFact = CivilFact(utc: string, offsetSeconds: int, explicitFold: bool, fold: Option<int>,
      limitations: seq<Limitation>)

  datatype Response = Response(input: CivilInput, civil: CivilFact, bodies: seq<Body>,
      limitations: seq<AstroLimitation>)

  function AstroLimitationsFor(year: int): seq<AstroLimitation> {
    [ModelledUt1] + (if year < 1972 then [Pre1972Proxy] else if year >= 2017 then [FrozenLeapTable] else [])
  }

  /** The validator of an ephemeris result. */
  predicate AstronomyCoherent(a: Astronomy) {
    FIRST_MICROS <= a.utc < LIMIT_MICROS
    && a.limitations == AstroLimitationsFor(DateOf(a.utc).year)
    && a.bodies == [Sun, Moon]
  }

  /** fromisoformat of a full date and clock. */
  function Parse(text: string): Option<Stamp> {
    if Shaped(text) && Valid(Fields(text)) then Some(Fields(text)) else None
  }

  function DateText(d: Date): string
    requires 0 <= d.year && 0 <= d.month && 0 <= d.day
  {
    Digits.Padded(d.year, 4) + "-" + Digits.Padded(d.month, 2) + "-" + Digits.Padded(d.day, 2)
  }

  function TimeText(t: Time): string
    requires ValidTime(t)
  {
    Digits.Padded(t.hour, 2) + ":" + Digits.Padded(t.minute, 2) + ":" + Digits.Padded(t.second, 2) + "."
      + Digits.Padded(t.micro, 6)
  }

  predicate Pair(s: string, at: nat) { at + 2 <= |s| && Digits.AllDigits(s[at..at + 2]) }

  /** The wire pattern of a date: four, two and two digits. */
  predicate DatePattern(s: string) {
    |s| == 10 && Pair(s, 0) && Pair(s, 2) && s[4] == '-' && Pair(s, 5) && s[7] == '-' && Pair(s, 8)
  }

  /** The wire pattern of a clock: minutes, then perhaps seconds, then perhaps one to six digits of a fraction. */
  predicate ClockPattern(s: string) {
    Pair(s, 0) && |s| >= 5 && s[2] == ':' && Pair(s, 3)
    && (|s| == 5 || (s[5] == ':' && Pair(s, 6)
                     && (|s| == 8 || (10 <= |s| <= 15 && s[8] == '.' && Digits.AllDigits(s[9..])))))
  }

  /** The field bounds and patterns of the civil input and the civil fact. */
  predicate FieldsFit(r: Response) {
    DatePattern(r.input.date) && ClockPattern(r.input.time) && r.input.fold in {None, Some(0), Some(1)}
    && -86_400 < r.civil.offsetSeconds < 86_400 && r.civil.fold in {None, Some(0), Some(1)}
    && (r.civil.explicitFold <==> r.civil.fold.Some?)
    && 1 <= |r.civil.limitations| <= 2 && 1 <= |r.limitations| <= 2
    && |r.civil.utc| == 27
  }

  /** What the wire models check about civil time, the order of bodies and limitations; provenance is constant. */
  predicate ResponseCoherent(r: Response) {
    r.bodies == [Sun, Moon] && FieldsFit(r)
    && var local, utc := Parse(r.input.date + "T" + r.input.time + "Z"), Parse(r.civil.utc);
    local.Some? && utc.Some? && 1900 <= local.value.date.year <= 2100 && FactsAgree(r, local.value, utc.value)
  }

  predicate FactsAgree(r: Response, local: Stamp, utc: Stamp)
    requires Valid(local) && Valid(utc)
  {
    Instant(utc) + r.civil.offsetSeconds * 1_000_000 == Instant(local)
    && r.civil.fold == r.input.fold
    && r.input.time == TimeText(local.time)
    && r.civil.limitations == LimitationsFor(local.date)
    && r.limitations == AstroLimitationsFor(utc.date.year)
  }

  function UtcStamp(utc: int): (st: Stamp)
    requires utc >= 86_400_000_000
    ensures Valid(st) && Instant(st) == utc
  {
    Stamp(DateOf(utc), ClockOf(utc))
  }

  /** The response fields built from the resolved civil time and the astronomy. */
  function Project(c: Resolved, a: Astronomy): Response
    requires Resolver.Coherent(c) && c.utc >= 86_400_000_000
  {
    Response(
      CivilInput(DateText(c.localDate), TimeText(c.localTime), c.fold),
      CivilFact(Print(UtcStamp(c.utc)), c.offsetSeconds, c.explicitFold, c.fold, c.limitations),
      a.bodies,
      a.limitations)
  }

  lemma PrintedStampParses(st: Stamp)
    requires Valid(st) && st.date.year < 10000
    ensures Parse(Print(st)) == Some(st) && |Print(st)| == 27
  {
    PrintParses(st);
  }

  lemma UtcYears(utc: int)
    requires FIRST_MICROS <= utc < LIMIT_MICROS
    ensures utc >= 86_400_000_000 && 1899 <= UtcStamp(utc).date.year <= 2101
  {
    SupportedYears(UtcStamp(utc));
  }

  /** The projected response always satisfies its validator, whatever the zone and the fold. */
  lemma ProjectedIsCoherent(c: Resolved, a: Astronomy)
    requires Resolver.Coherent(c) && AstronomyCoherent(a) && a.utc == c.utc
    ensures c.utc >= 86_400_000_000 && ResponseCoherent(Project(c, a))
  {
    UtcYears(c.utc);
    ProjectedFits(c, a);
    ProjectedFactsAgree(c, a);
    ProjectedParses(c, a);
    CoherentFrom(Project(c, a), Stamp(c.localDate, c.localTime), UtcStamp(c.utc));
  }

  lemma CoherentFrom(r: Response, local: Stamp, utc: Stamp)
    requires r.bodies == [Sun, Moon] && FieldsFit(r) && Valid(local) && Valid(utc) && 1900 <= local.date.year <= 2100
    requires Parse(r.input.date + "T" + r.input.time + "Z") == Some(local) && Parse(r.civil.utc) == Some(utc)
    requires FactsAgree(r, local, utc)
    ensures ResponseCoherent(r)
  {
  }

  lemma ProjectedParses(c: Resolved, a: Astronomy)
    requires Resolver.Coherent(c) && FIRST_MICROS <= c.utc < LIMIT_MICROS && c.utc >= 86_400_000_000
    ensures var r := Project(c, a);
            Parse(r.input.date + "T" + r.input.time + "Z") == Some(Stamp(c.localDate, c.localTime))
            && Parse(r.civil.utc) == Some(UtcStamp(c.utc))
  {
    UtcYears(c.utc);
    TextsParse(c.localDate, c.localTime, UtcStamp(c.utc));
  }

  lemma ProjectedFits(c: Resolved, a: Astronomy)
    requires Resolver.Coherent(c) && AstronomyCoherent(a) && a.utc == c.utc && c.utc >= 86_400_000_000
    ensures FieldsFit(Project(c, a))
  {
    UtcYears(c.utc);
    TextsParse(c.localDate, c.localTime, UtcStamp(c.utc));
    TextsFit(c.localDate, c.localTime);
    AtMostTwo(c.localDate);
  }

  /** Both clocks of a response are read back as they were printed. */
  lemma TextsParse(d: Date, t: Time, utc: Stamp)
    requires ValidDate(d) && ValidTime(t) && d.year < 10000 && Valid(utc) && utc.date.year < 10000
    ensures Parse(DateText(d) + "T" + TimeText(t) + "Z") == Some(Stamp(d, t))
    ensures Parse(Print(utc)) == Some(utc) && |Print(utc)| == 27
  {
    InputText(d, t);
    PrintedStampParses(Stamp(d, t));
    PrintedStampParses(utc);
  }

  lemma TextsFit(d: Date, t: Time)
    requires ValidDate(d) && ValidTime(t)
    ensures DatePattern(DateText(d)) && ClockPattern(TimeText(t))
  {
    DateFits(Digits.Padded(d.year, 4), Digits.Padded(d.month, 2), Digits.Padded(d.day, 2));
    ClockFits(Digits.Padded(t.hour, 2), Digits.Padded(t.minute, 2), Digits.Padded(t.second, 2),
        Digits.Padded(t.micro, 6));
  }

  lemma DateFits(y: string, m: string, d: string)
    requires |y| == 4 && |m| == 2 && |d| == 2 && Digits.AllDigits(y) && Digits.AllDigits(m) && Digits.AllDigits(d)
    ensures DatePattern(y + "-" + m + "-" + d)
  {
    var s := y + "-" + m + "-" + d;
    assert s[0..2] == y[0..2] && s[2..4] == y[2..4] && s[5..7] == m && s[8..10] == d;
  }

  lemma ClockFits(h: string, m: string, s: string, f: string)
    requires |h| == 2 && |m| == 2 && |s| == 2 && |f| == 6
    requires Digits.AllDigits(h) && Digits.AllDigits(m) && Digits.AllDigits(s) && Digits.AllDigits(f)
    ensures ClockPattern(h + ":" + m + ":" + s + "." + f)
  {
    var c := h + ":" + m + ":" + s + "." + f;
    assert c[0..2] == h && c[3..5] == m && c[6..8] == s && c[9..] == f;
  }

  lemma InputText(d: Date, t: Time)
    requires ValidDate(d) && ValidTime(t)
    ensures DateText(d) + "T" + TimeText(t) + "Z" == Print(Stamp(d, t))
  {
  }

  lemma ProjectedFactsAgree(c: Resolved, a: Astronomy)
    requires Resolver.Coherent(c) && AstronomyCoherent(a) && a.utc == c.utc && c.utc >= 86_400_000_000
    ensures FactsAgree(Project(c, a), Stamp(c.localDate, c.localTime), UtcStamp(c.utc))
  {
  }

  lemma AtMostTwo(d: Date)
    ensures 1 <= |LimitationsFor(d)| <= 2
  {
  }

  /**
   Any two resolved instants are ordered on the wire as they are in time, and pass the content normaliser unchanged.
   */
  lemma WireUtcIsCanonical(c: Resolved, c': Resolved)
    requires Resolver.Coherent(c) && Resolver.Coherent(c')
    ensures c.utc >= 86_400_000_000 && c'.utc >= 86_400_000_000
    ensures PythonTimestamp(Print(UtcStamp(c.utc))) == Some(Print(UtcStamp(c.utc)))
    ensures Print(UtcStamp(c.utc)) == Print(UtcStamp(c'.utc)) <==> c.utc == c'.utc
    ensures Lex.Less(Lex.Codes(Print(UtcStamp(c.utc))), Lex.Codes(Print(UtcStamp(c'.utc)))) <==> c.utc < c'.utc
  {
    UtcInEphemerisRange(c);
    UtcInEphemerisRange(c');
    UtcYears(c.utc);
    UtcYears(c'.utc);
    TimestampCovers(UtcStamp(c.utc));
    PrintedStampParses(UtcStamp(c.utc));
    PrintedStampParses(UtcStamp(c'.utc));
    TextOrderIsTimeOrder(UtcStamp(c.utc), UtcStamp(c'.utc));
  }

  /** Every coherent response carries a time that the content normaliser accepts and leaves alone. */
  lemma CoherentUtcIsCanonical(r: Response)
    requires ResponseCoherent(r)
    ensures PythonTimestamp(r.civil.utc) == Some(r.civil.utc)
  {
    var local, utc := Parse(r.input.date + "T" + r.input.time + "Z").value, Parse(r.civil.utc).value;
    UtcNearLocal(local, utc, r.civil.offsetSeconds);
    FullTextIsFixed(r.civil.utc);
  }

  lemma UtcNearLocal(local: Stamp, utc: Stamp, offset: int)
    requires Valid(local) && Valid(utc) && 1900 <= local.date.year <= 2100 && -86_400 < offset < 86_400
    requires Instant(utc) + offset * 1_000_000 == Instant(local)
    ensures Supported(utc)
  {
    LocalRange(local.date, local.time);
  }

  /**
   From request to response: what resolves is verified, is in the ephemeris range, and projects to a valid response.
   */
  lemma ResolvedRequestsProject(zones: map<string, CivilTime.Zone>, catalog: set<string>, date: Date, time: Time,
                                boundary: Boundary.Outcome, fold: Option<int>, a: Astronomy)
    requires ValidZones(zones) && ValidDate(date) && ValidTime(time)
    requires Resolve(zones, catalog, date, time, boundary, fold).Ok?
    requires AstronomyCoherent(a) && a.utc == Resolve(zones, catalog, date, time, boundary, fold).value.utc
    ensures var c := Resolve(zones, catalog, date, time, boundary, fold).value;
            VerifyResult(zones, catalog, c) == Ok(c)
            && FIRST_MICROS <= c.utc < LIMIT_MICROS
            && Resolver.Coherent(c) && c.utc >= 86_400_000_000
            && ResponseCoherent(Project(c, a))
            && Project(c, a).input == CivilInput(DateText(date), TimeText(time), fold)
  {
    var r := Resolve(zones, catalog, date, time, boundary, fold);
    ResolveThenVerify(zones, catalog, date, time, boundary, fold);
    ResolvedIsCoherent(zones, catalog, date, time, boundary, fold);
    UtcInEphemerisRange(r.value);
    ProjectedIsCoherent(r.value, a);
  }

  /** With separated windows, the response's UTC is the instant that the request's fold names. */
  lemma ResponseNamesItsInstant(zones: map<string, CivilTime.Zone>, catalog: set<string>, date: Date, time: Time,
                                boundary: Boundary.Outcome, fold: Option<int>, a: Astronomy)
    requires ValidZones(zones) && ValidDate(date) && ValidTime(time) && InOrder(zones, catalog, date, boundary, fold)
    requires CivilTime.WindowsApart(zones[boundary.tzid.value])
    requires Resolve(zones, catalog, date, time, boundary, fold).Ok?
    requires AstronomyCoherent(a) && a.utc == Resolve(zones, catalog, date, time, boundary, fold).value.utc
    ensures var c := Resolve(zones, catalog, date, time, boundary, fold).value;
            Resolver.Coherent(c) && c.utc >= 86_400_000_000 && Parse(Project(c, a).civil.utc).Some?
            && CivilTime.NamedBy(CivilTime.Showing(zones[boundary.tzid.value], Micros(date, time)),
                                 Instant(Parse(Project(c, a).civil.utc).value), fold)
  {
    var c := Resolve(zones, catalog, date, time, boundary, fold).value;
    ResolvedRequestsProject(zones, catalog, date, time, boundary, fold, a);
    ProjectedParses(c, a);
    ResolvesToTheNamed(zones, catalog, date, time, boundary, fold, c.utc);
  }

  /** The second limitation of an ephemeris result: a proxy before 1972, a frozen leap table from 2017 on. */
  lemma AstroLimitationsMean(a: Astronomy, t: Time)
    requires AstronomyCoherent(a) && ValidTime(t) && OfDay(t) == 0
    ensures 1 <= |a.limitations| <= 2 && a.limitations[0] == ModelledUt1
    ensures a.limitations[1..] == [Pre1972Proxy] <==> a.utc < Micros(Date(1972, 1, 1), t)
    ensures a.limitations[1..] == [FrozenLeapTable] <==> Micros(Date(2017, 1, 1), t) <= a.utc
  {
    UtcYears(a.utc);
    BeforeYear(UtcStamp(a.utc), 1972, t);
    BeforeYear(UtcStamp(a.utc), 2017, t);
  }

  lemma BeforeYear(st: Stamp, year: int, t: Time)
    requires Valid(st) && year >= 1 && ValidTime(t) && OfDay(t) == 0
    ensures Instant(st) < Micros(Date(year, 1, 1), t) <==> st.date.year < year
  {
    MicrosOrder(st.date, st.time, Date(year, 1, 1), t);
  }
}
