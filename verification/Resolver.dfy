/** The civil-time resolver: request checks, fold choice, the validated record and its replay. */
module Resolver {
  import opened Results
  import opened Calendar
  import opened CivilTime
  import Boundary
  import Timestamp

  datatype Failure = InvalidInput | UnresolvedZone | InvalidFold | AmbiguousLocalTime | NonexistentLocalTime
    | ArtifactInvalid

  datatype Limitation = ModernGeography | Pre1970Records | PostReleaseRules

  datatype Resolved = Resolved(
    localDate: Date, localTime: Time, boundary: Boundary.Outcome, utc: int, offsetSeconds: int,
    explicitFold: bool, fold: Option<int>, limitations: seq<Limitation>)

  function LimitationsFor(d: Date): seq<Limitation> {
    [ModernGeography]
    + (if Earlier(d, Date(1970, 1, 1)) then [Pre1970Records] else [])
    + (if Earlier(Date(2026, 7, 8), d) then [PostReleaseRules] else [])
  }

  /** A boundary record that validates and names only registered zones. */
  ghost predicate Registered(b: Boundary.Outcome, catalog: set<string>) {
    Boundary.Coherent(b) && (forall x :: x in b.candidateIds ==> x in catalog)
    && (b.tzid.Some? ==> b.tzid.value in catalog)
  }

  /** The record's own validator, field bounds included. */
  predicate Coherent(r: Resolved) {
    ValidDate(r.localDate) && ValidTime(r.localTime)
    && 1900 <= r.localDate.year <= 2100 && r.boundary.status == Boundary.Resolved
    && r.utc + r.offsetSeconds * 1_000_000 == Micros(r.localDate, r.localTime)
    && -86_400 < r.offsetSeconds < 86_400
    && r.fold in {None, Some(0), Some(1)}
    && (r.explicitFold <==> r.fold.Some?)
    && r.limitations == LimitationsFor(r.localDate)
  }

  /** The failure for each way a choice can fall, and otherwise the record. */
  function Answer(choice: Choice, local: int, date: Date, time: Time, boundary: Boundary.Outcome,
                  fold: Option<int>): Result<Resolved, Failure>
    requires ValidDate(date) && ValidTime(time)
  {
    match choice
    case NoInstant => Err(NonexistentLocalTime)
    case NeedsFold => Err(AmbiguousLocalTime)
    case UnusableFold => Err(InvalidFold)
    case Instant(utc) =>
      Ok(Resolved(date, time, boundary, utc, (local - utc) / 1_000_000, fold.Some?, fold, LimitationsFor(date)))
  }

  /** The checks before any clock arithmetic, in their order. */
  ghost function CheckedZone(zones: map<string, Zone>, catalog: set<string>, date: Date, boundary: Boundary.Outcome,
                             fold: Option<int>): Result<Zone, Failure> {
    if fold !in {None, Some(0), Some(1)} then Err(InvalidFold)
    else if !Registered(boundary, catalog) || !(1900 <= date.year <= 2100) then Err(InvalidInput)
    else if boundary.status != Boundary.Resolved || boundary.tzid.None? then Err(UnresolvedZone)
    else if boundary.tzid.value !in zones then Err(ArtifactInvalid)
    else Ok(zones[boundary.tzid.value])
  }

  /** resolve(): the checks, then the candidate the fold selects. */
  ghost function Resolve(zones: map<string, Zone>, catalog: set<string>, date: Date, time: Time,
                         boundary: Boundary.Outcome, fold: Option<int>): Result<Resolved, Failure>
    requires ValidDate(date) && ValidTime(time)
  {
    match CheckedZone(zones, catalog, date, boundary, fold)
    case Err(e) => Err(e)
    case Ok(zone) => Answer(Pick(zone, Micros(date, time), fold), Micros(date, time), date, time, boundary, fold)
  }

  /** verify_result(): validate the shape, resolve again from the record's own inputs and compare. */
  ghost function VerifyResult(zones: map<string, Zone>, catalog: set<string>,
                              value: Resolved): Result<Resolved, Failure> {
    if !Coherent(value) then Err(InvalidInput)
    else
      match Resolve(zones, catalog, value.localDate, value.localTime, value.boundary, value.fold)
      case Ok(replayed) => if replayed == value then Ok(replayed) else Err(InvalidInput)
      case Err(e) => if e == ArtifactInvalid then Err(ArtifactInvalid) else Err(InvalidInput)
  }

  /** Every zone of the archive has ascending transitions and offsets that datetime accepts. */
  predicate ValidZones(zones: map<string, Zone>) {
    forall name :: name in zones ==> ValidZone(zones[name])
  }

  /** Whatever instant shows a clock, its offset is whole seconds and under a day. */
  lemma ShownOffset(z: Zone, local: int, utc: int) returns (seconds: int)
    requires ValidZone(z) && ToLocal(z, utc) == local
    ensures local == utc + seconds * 1_000_000 && -86_400 < seconds < 86_400
  {
    seconds := Offset(z, Segment(z, utc / 1_000_000));
  }

  lemma CheckedMeans(zones: map<string, Zone>, catalog: set<string>, date: Date, boundary: Boundary.Outcome,
                     fold: Option<int>)
    requires CheckedZone(zones, catalog, date, boundary, fold).Ok?
    ensures fold in {None, Some(0), Some(1)} && boundary.status == Boundary.Resolved && 1900 <= date.year <= 2100
    ensures ValidZones(zones) ==> ValidZone(CheckedZone(zones, catalog, date, boundary, fold).value)
  {
  }

  lemma OkMeansAnswered(zones: map<string, Zone>, catalog: set<string>, date: Date, time: Time,
                        boundary: Boundary.Outcome, fold: Option<int>)
    returns (choice: Choice, local: int, zone: Zone)
    requires ValidZones(zones) && ValidDate(date) && ValidTime(time)
    requires Resolve(zones, catalog, date, time, boundary, fold).Ok?
    ensures local == Micros(date, time) && choice.Instant? && ValidZone(zone) && ToLocal(zone, choice.utc) == local
    ensures Resolve(zones, catalog, date, time, boundary, fold) == Answer(choice, local, date, time, boundary, fold)
  {
    CheckedMeans(zones, catalog, date, boundary, fold);
    zone := CheckedZone(zones, catalog, date, boundary, fold).value;
    local := Micros(date, time);
    choice := Pick(zone, local, fold);
    PickedShows(zone, local, fold);
    AnswerByChoice(choice, local, date, time, boundary, fold);
  }

  /** The record's validator never rejects what the resolver builds, and the inputs are kept. */
  lemma ResolvedIsCoherent(zones: map<string, Zone>, catalog: set<string>, date: Date, time: Time,
                           boundary: Boundary.Outcome, fold: Option<int>)
    requires ValidZones(zones) && ValidDate(date) && ValidTime(time)
    requires Resolve(zones, catalog, date, time, boundary, fold).Ok?
    ensures Coherent(Resolve(zones, catalog, date, time, boundary, fold).value)
    ensures KeepsInputs(Resolve(zones, catalog, date, time, boundary, fold).value, date, time, boundary, fold)
  {
    CheckedMeans(zones, catalog, date, boundary, fold);
    var choice, local, zone := OkMeansAnswered(zones, catalog, date, time, boundary, fold);
    var seconds := ShownOffset(zone, local, choice.utc);
    AnswerIsCoherent(choice, local, date, time, boundary, fold, seconds);
  }

  predicate KeepsInputs(r: Resolved, date: Date, time: Time, boundary: Boundary.Outcome, fold: Option<int>) {
    r.localDate == date && r.localTime == time && r.boundary == boundary && r.fold == fold
  }

  lemma AnswerIsCoherent(choice: Choice, local: int, date: Date, time: Time, boundary: Boundary.Outcome,
                         fold: Option<int>, seconds: int)
    requires ValidDate(date) && ValidTime(time) && 1900 <= date.year <= 2100 && local == Micros(date, time)
    requires boundary.status == Boundary.Resolved && fold in {None, Some(0), Some(1)}
    requires choice.Instant? && local == choice.utc + seconds * 1_000_000 && -86_400 < seconds < 86_400
    ensures Coherent(Answer(choice, local, date, time, boundary, fold).value)
    ensures KeepsInputs(Answer(choice, local, date, time, boundary, fold).value, date, time, boundary, fold)
  {
    SecondsBack(local - choice.utc, seconds);
    var r := Answer(choice, local, date, time, boundary, fold).value;
    assert r.utc == choice.utc && r.offsetSeconds == seconds;
  }

  lemma SecondsBack(micros: int, seconds: int)
    requires micros == seconds * 1_000_000
    ensures micros / 1_000_000 == seconds
  {
  }

  /** A record passes verification, unchanged, exactly when it is what its own inputs resolve to. */
  lemma VerifiedIffResolved(zones: map<string, Zone>, catalog: set<string>, value: Resolved)
    requires ValidZones(zones)
    ensures VerifyResult(zones, catalog, value) == Ok(value)
            <==> ValidDate(value.localDate) && ValidTime(value.localTime)
                 && Resolve(zones, catalog, value.localDate, value.localTime, value.boundary, value.fold) == Ok(value)
    ensures VerifyResult(zones, catalog, value).Ok? ==> VerifyResult(zones, catalog, value).value == value
  {
    if ValidDate(value.localDate) && ValidTime(value.localTime)
       && Resolve(zones, catalog, value.localDate, value.localTime, value.boundary, value.fold) == Ok(value) {
      ResolvedIsCoherent(zones, catalog, value.localDate, value.localTime, value.boundary, value.fold);
    }
  }

  /** Whatever the request resolves to passes verification unchanged. */
  lemma ResolveThenVerify(zones: map<string, Zone>, catalog: set<string>, date: Date, time: Time,
                          boundary: Boundary.Outcome, fold: Option<int>)
    requires ValidZones(zones) && ValidDate(date) && ValidTime(time)
    requires Resolve(zones, catalog, date, time, boundary, fold).Ok?
    ensures var r := Resolve(zones, catalog, date, time, boundary, fold);
            VerifyResult(zones, catalog, r.value) == r
    ensures InOrder(zones, catalog, date, boundary, fold)
    ensures var z, r := zones[boundary.tzid.value], Resolve(zones, catalog, date, time, boundary, fold).value;
            ToLocal(z, r.utc) == Micros(date, time)
            && (fold.Some? ==> r.utc == ToUtc(z, Micros(date, time), fold.value))
  {
    ResolvedIsCoherent(zones, catalog, date, time, boundary, fold);
    RefusedBefore(zones, catalog, date, time, boundary, fold);
    ResolvesByFold(zones, catalog, date, time, boundary, fold);
  }

  /** With separated windows the failures mean what they say. */
  lemma FailuresMeanGapAndFold(zones: map<string, Zone>, catalog: set<string>, date: Date, time: Time,
                               boundary: Boundary.Outcome, fold: Option<int>)
    requires ValidDate(date) && ValidTime(time) && 1900 <= date.year <= 2100 && fold in {None, Some(0), Some(1)}
    requires Registered(boundary, catalog) && boundary.status == Boundary.Resolved && boundary.tzid.value in zones
    requires ValidZones(zones) && WindowsApart(zones[boundary.tzid.value])
    ensures var z, second := zones[boundary.tzid.value], Micros(date, time) / 1_000_000;
            var r := Resolve(zones, catalog, date, time, boundary, fold);
            (r == Err(NonexistentLocalTime) <==> InGap(z, second))
            && (r == Err(AmbiguousLocalTime) <==> InFold(z, second) && fold.None?)
            && (r == Err(InvalidFold) <==> !InFold(z, second) && !InGap(z, second) && fold.Some?)
            && (r.Ok? <==> !InGap(z, second) && (InFold(z, second) <==> fold.Some?))
            && (r.Ok? ==> NamedBy(Showing(z, Micros(date, time)), r.value.utc, fold))
  {
    var zone := zones[boundary.tzid.value];
    assert CheckedZone(zones, catalog, date, boundary, fold) == Ok(zone);
    var choice := Pick(zone, Micros(date, time), fold);
    ChoiceMeansGapOrFold(zone, Micros(date, time), fold);
    AnswerByChoice(choice, Micros(date, time), date, time, boundary, fold);
    if choice.Instant? {
      ResolvesToTheNamed(zones, catalog, date, time, boundary, fold, choice.utc);
    }
  }

  lemma AnswerByChoice(choice: Choice, local: int, date: Date, time: Time, boundary: Boundary.Outcome,
                       fold: Option<int>)
    requires ValidDate(date) && ValidTime(time)
    ensures var r := Answer(choice, local, date, time, boundary, fold);
            (r == Err(NonexistentLocalTime) <==> choice.NoInstant?)
            && (r == Err(AmbiguousLocalTime) <==> choice.NeedsFold?)
            && (r == Err(InvalidFold) <==> choice.UnusableFold?) && (r.Ok? <==> choice.Instant?)
  {
  }

  // ---- what a request resolves to ----

  /** Everything that is checked before any clock arithmetic holds. */
  ghost predicate InOrder(zones: map<string, Zone>, catalog: set<string>, date: Date, boundary: Boundary.Outcome,
                          fold: Option<int>) {
    fold in {None, Some(0), Some(1)} && Registered(boundary, catalog) && 1900 <= date.year <= 2100
    && boundary.status == Boundary.Resolved && boundary.tzid.value in zones
  }

  /** The refusals before any clock arithmetic, and their order: fold, record and year, status, archive. */
  lemma RefusedBefore(zones: map<string, Zone>, catalog: set<string>, date: Date, time: Time,
                      boundary: Boundary.Outcome, fold: Option<int>)
    requires ValidDate(date) && ValidTime(time)
    ensures var r, known := Resolve(zones, catalog, date, time, boundary, fold), fold in {None, Some(0), Some(1)};
            var sound := known && Registered(boundary, catalog) && 1900 <= date.year <= 2100;
            (!known ==> r == Err(InvalidFold)) && (r == Err(InvalidInput) <==> known && !sound)
            && (r == Err(UnresolvedZone) <==> sound && boundary.status != Boundary.Resolved)
            && (r == Err(ArtifactInvalid) <==>
                  sound && boundary.status == Boundary.Resolved && boundary.tzid.value !in zones)
  {
  }

  /** For any zone at all: a fold gives its own instant of two that show the clock; without one there must be one. */
  lemma ResolvesByFold(zones: map<string, Zone>, catalog: set<string>, date: Date, time: Time,
                       boundary: Boundary.Outcome, fold: Option<int>)
    requires ValidDate(date) && ValidTime(time) && InOrder(zones, catalog, date, boundary, fold)
    ensures var z, local := zones[boundary.tzid.value], Micros(date, time);
            var r := Resolve(zones, catalog, date, time, boundary, fold);
            var u0, u1 := ToUtc(z, local, 0), ToUtc(z, local, 1);
            var shows0, shows1 := ToLocal(z, u0) == local, ToLocal(z, u1) == local;
            var twice := shows0 && shows1 && u0 != u1;
            (r == Err(NonexistentLocalTime) <==> !shows0 && !shows1)
            && (r == Err(AmbiguousLocalTime) <==> twice && fold.None?)
            && (r == Err(InvalidFold) <==> (shows0 || shows1) && !twice && fold.Some?)
            && (r.Ok? <==> (shows0 || shows1) && (twice <==> fold.Some?))
            && (r.Ok? ==> r.value.utc == if fold == Some(0) || (fold.None? && shows0) then u0 else u1)
  {
    var z, local := zones[boundary.tzid.value], Micros(date, time);
    assert CheckedZone(zones, catalog, date, boundary, fold) == Ok(z);
    PickCases(z, local, fold);
    AnswerByChoice(Pick(z, local, fold), local, date, time, boundary, fold);
  }

  lemma PickCases(z: Zone, local: int, fold: Option<int>)
    requires fold in {None, Some(0), Some(1)}
    ensures var u0, u1 := ToUtc(z, local, 0), ToUtc(z, local, 1);
            var shows0, shows1 := ToLocal(z, u0) == local, ToLocal(z, u1) == local;
            var twice := shows0 && shows1 && u0 != u1;
            Pick(z, local, fold) == if !shows0 && !shows1 then NoInstant
              else if twice != fold.Some? then (if twice then NeedsFold else UnusableFold)
              else Instant(if fold == Some(0) || (fold.None? && shows0) then u0 else u1)
  {
    var c := Candidates(z, local);
    assert 0 in c || 1 in c ==> c.Keys != {};
    assert 0 in c && 1 in c ==> c.Keys == {0, 1};
    assert 1 in {0, 1} && 0 in {0, 1};
  }

  /** With separated windows, a request resolves to an instant exactly if its fold names it among all that show it. */
  lemma ResolvesToTheNamed(zones: map<string, Zone>, catalog: set<string>, date: Date, time: Time,
                           boundary: Boundary.Outcome, fold: Option<int>, utc: int)
    requires ValidDate(date) && ValidTime(time) && InOrder(zones, catalog, date, boundary, fold)
    requires ValidZones(zones) && WindowsApart(zones[boundary.tzid.value])
    ensures var r := Resolve(zones, catalog, date, time, boundary, fold);
            r.Ok? && r.value.utc == utc
            <==> NamedBy(Showing(zones[boundary.tzid.value], Micros(date, time)), utc, fold)
  {
    var z, local := zones[boundary.tzid.value], Micros(date, time);
    assert CheckedZone(zones, catalog, date, boundary, fold) == Ok(z);
    RequestsMatchInstants(z, local, fold, utc);
    AnswerByChoice(Pick(z, local, fold), local, date, time, boundary, fold);
  }

  /** The limitations of a date: geography first, then at most one about records before 1970 or rules after release. */
  lemma LimitationsMean(d: Date)
    requires ValidDate(d)
    ensures var l := LimitationsFor(d);
            1 <= |l| <= 2 && l[0] == ModernGeography
            && (l[1..] == [Pre1970Records] <==> Ordinal(d) < Ordinal(Date(1970, 1, 1)))
            && (l[1..] == [PostReleaseRules] <==> Ordinal(Date(2026, 7, 8)) < Ordinal(d))
  {
    OrdinalOrder(d, Date(1970, 1, 1));
    OrdinalOrder(Date(2026, 7, 8), d);
  }

  /** A failed replay is reported as a bad artifact exactly when the zone is missing, otherwise as bad input. */
  lemma ReplayFailures(zones: map<string, Zone>, catalog: set<string>, value: Resolved)
    ensures var r := VerifyResult(zones, catalog, value);
            (r == Err(ArtifactInvalid) <==>
               Coherent(value) && Registered(value.boundary, catalog) && value.boundary.tzid.value !in zones)
            && (r.Ok? || r == Err(ArtifactInvalid) || r == Err(InvalidInput))
  {
    if Coherent(value) {
      RefusedBefore(zones, catalog, value.localDate, value.localTime, value.boundary, value.fold);
    }
  }

  /** Local years 1900 to 2100 and offsets under a day keep every instant in the ephemeris range. */
  lemma UtcInEphemerisRange(r: Resolved)
    requires Coherent(r)
    ensures Timestamp.FIRST_MICROS <= r.utc < Timestamp.LIMIT_MICROS
  {
    LocalRange(r.localDate, r.localTime);
  }

  lemma LocalRange(d: Date, t: Time)
    requires ValidDate(d) && ValidTime(t) && 1900 <= d.year <= 2100
    ensures 693_596 * 86_400_000_000 <= Micros(d, t) < 767_010 * 86_400_000_000
  {
    Timestamp.YearStarts();
    DayInYear(d);
    YearsAscend(1900, d.year);
    YearsAscend(d.year + 1, 2101);
    DaysToMicros(Ordinal(d), OfDay(t));
  }

  lemma DaysToMicros(n: int, r: int)
    requires 693_595 < n <= 767_009 && 0 <= r < 86_400_000_000
    ensures 693_596 * 86_400_000_000 <= n * 86_400_000_000 + r < 767_010 * 86_400_000_000
  {
  }
}
