/** The content of responses off the wire: it is always encoded, and a reader of its bytes finds the facts. */
module PassportBytes {
  import opened Results
  import opened Json
  import opened Unicode
  import opened Canonical
  import opened PassportContent
  import LongitudeText
  import Projection
  import Scaled
  import Sorting
  import Timestamp

  // ---- what comes off the wire ----

  /** Facts of a response that its validator accepts: the time it carries, coordinates in range, longitude patterns. */
  predicate OnWire(f: Facts, r: Projection.Response, digits: nat) {
    Projection.ResponseCoherent(r) && f.utc == r.civil.utc
    && InDegrees(f.latitude, 90, digits) && InDegrees(f.longitude, 180, digits)
    && forall i :: 0 <= i < |f.bodies| ==> LongitudeText.Pattern(f.bodies[i].degrees)
  }

  predicate Apart(texts: seq<string>) {
    (forall i :: 0 <= i < |texts| ==> IsAscii(texts[i])) && forall i, j :: 0 <= i < j < |texts| ==> texts[i] != texts[j]
  }

  /** Labels that cannot collide. */
  predicate Usable(labels: Labels) { |labels.keys| == 8 && Apart(labels.keys) && Apart([labels.body, labels.unit]) }

  lemma LabelsAreUsable()
    ensures Usable(LABELS)
  {
    KeysAreAscii(LABELS.keys);
    KeysDiffer(LABELS.keys);
    assert |LABELS.body| == 4 && |LABELS.unit| == 12;
  }

  lemma KeysAreAscii(k: seq<string>)
    requires k == LABELS.keys
    ensures forall i :: 0 <= i < |k| ==> IsAscii(k[i])
  {
  }

  lemma KeysDiffer(k: seq<string>)
    requires k == LABELS.keys
    ensures forall i, j :: 0 <= i < j < |k| ==> k[i] != k[j]
  {
    assert |k[0]| == 6 && |k[1]| == 7 && |k[2]| == 16 && |k[3]| == 3 && |k[4]| == 11 && |k[5]| == 12 && |k[6]| == 5
           && |k[7]| == 6;
    assert k[0][0] == 's' && k[7][0] == 'b';
  }

  // ---- encoding succeeds ----

  predicate Accepted(v: Value, nfc: Form) { Normalize(v, nfc).Some? }

  lemma TextAccepted(s: string, nfc: Form)
    ensures Accepted(Str(s), nfc)
  {
    TextsAlike(s, s, nfc);
  }

  lemma ListAccepted(items: seq<Value>, nfc: Form)
    requires forall i :: 0 <= i < |items| ==> Accepted(items[i], nfc)
    ensures Accepted(List(items), nfc)
  {
    ItemsPointwise(items, nfc);
  }

  /** Keys that NFC leaves alone and tells apart never collide. */
  lemma KeyedAccepted(keys: seq<string>, values: seq<Value>, nfc: Form)
    requires KeepsAscii(nfc) && Apart(keys) && |keys| == |values|
    requires forall i :: 0 <= i < |values| ==> Accepted(values[i], nfc)
    ensures Accepted(Object(Keyed(keys, values)), nfc)
  {
    var m := Keyed(keys, values);
    forall i | 0 <= i < |m| ensures NormalText(m[i].key, nfc) == Some(keys[i]) && Normalize(m[i].value, nfc).Some? {
      UnitsRoundTrip(keys[i]);
      assert Accepted(values[i], nfc);
    }
    MembersPointwise(m, nfc);
  }

  lemma BodyAccepted(p: Position, labels: Labels, nfc: Form)
    requires KeepsAscii(nfc) && Usable(labels) && LongitudeText.Pattern(p.degrees)
    ensures Body(p, labels).Some? && Accepted(Body(p, labels).value, nfc)
  {
    LongitudeText.PatternRoundTrip(p.degrees);
    PairAccepted(labels, p.body, Scaled.PythonScaled(p.degrees, Scaled.Angle).value, nfc);
  }

  lemma PairAccepted(labels: Labels, s: string, n: int, nfc: Form)
    requires KeepsAscii(nfc) && Apart([labels.body, labels.unit]) && 0 <= n < 360_000_000_000
    ensures Accepted(Object(Keyed([labels.body, labels.unit], [Str(s), Int(n)])), nfc)
  {
    TextAccepted(s, nfc);
    KeyedAccepted([labels.body, labels.unit], [Str(s), Int(n)], nfc);
  }

  lemma {:induction false} BodiesAccepted(ps: seq<Position>, labels: Labels, nfc: Form)
    requires KeepsAscii(nfc) && Usable(labels)
    requires forall i :: 0 <= i < |ps| ==> LongitudeText.Pattern(ps[i].degrees)
    ensures Bodies(ps, labels).Some? && forall i :: 0 <= i < |ps| ==> Accepted(Bodies(ps, labels).value[i], nfc)
  {
    if ps != [] {
      BodyAccepted(ps[0], labels, nfc);
      BodiesAccepted(ps[1..], labels, nfc);
    }
  }

  lemma ValuesAccepted(labels: Labels, f: Facts, utc: string, latitude: int, longitude: int, bodies: seq<Value>,
                       nfc: Form)
    requires -SAFE <= latitude <= SAFE && -SAFE <= longitude <= SAFE && Accepted(List(bodies), nfc)
    ensures forall i :: 0 <= i < 8 ==> Accepted(Values(labels, f, utc, latitude, longitude, bodies)[i], nfc)
  {
    TextAccepted(labels.schema, nfc);
    TextAccepted(f.profile, nfc);
    TextAccepted(f.policy, nfc);
    TextAccepted(utc, nfc);
    TextAccepted(f.frame, nfc);
  }

  lemma WholeAccepted(labels: Labels, values: seq<Value>, nfc: Form)
    requires KeepsAscii(nfc) && Apart(labels.keys) && |labels.keys| == |values|
    requires forall i :: 0 <= i < |values| ==> Accepted(values[i], nfc)
    ensures Accepted(Whole(labels, values), nfc)
  {
    TextAccepted(labels.header, nfc);
    TextAccepted(labels.form, nfc);
    KeyedAccepted(labels.keys, values, nfc);
    ListAccepted(Whole(labels, values).items, nfc);
  }

  /** Everything that comes off the wire is encoded: no rejection is left for the encoder. */
  lemma EncodingSucceeds(f: Facts, r: Projection.Response, labels: Labels, nfc: Form, digits: nat)
    requires KeepsAscii(nfc) && Usable(labels) && OnWire(f, r, digits)
    ensures Content(f, labels).Some? && Bytes(f, labels, nfc).Some?
  {
    Projection.CoherentUtcIsCanonical(r);
    PartsAccepted(f, labels, nfc, digits);
  }

  lemma PartsAccepted(f: Facts, labels: Labels, nfc: Form, digits: nat)
    requires KeepsAscii(nfc) && Usable(labels) && Timestamp.PythonTimestamp(f.utc).Some?
    requires InDegrees(f.latitude, 90, digits) && InDegrees(f.longitude, 180, digits)
    requires forall i :: 0 <= i < |f.bodies| ==> LongitudeText.Pattern(f.bodies[i].degrees)
    ensures Content(f, labels).Some? && Bytes(f, labels, nfc).Some?
  {
    CoordinateFits(f.latitude, false, 90, digits);
    CoordinateFits(f.longitude, true, 180, digits);
    BodiesAccepted(f.bodies, labels, nfc);
    ContentAccepted(f, labels, nfc, Bodies(f.bodies, labels).value, Coordinate(f.latitude, false).value,
                    Coordinate(f.longitude, true).value);
  }

  lemma ContentAccepted(f: Facts, labels: Labels, nfc: Form, bodies: seq<Value>, latitude: int, longitude: int)
    requires KeepsAscii(nfc) && Usable(labels) && Timestamp.PythonTimestamp(f.utc).Some?
    requires Coordinate(f.latitude, false) == Some(latitude) && -SAFE <= latitude <= SAFE
    requires Coordinate(f.longitude, true) == Some(longitude) && -SAFE <= longitude <= SAFE
    requires Bodies(f.bodies, labels) == Some(bodies) && forall i :: 0 <= i < |bodies| ==> Accepted(bodies[i], nfc)
    ensures Content(f, labels).Some? && Bytes(f, labels, nfc).Some?
  {
    ListAccepted(bodies, nfc);
    var utc := Timestamp.PythonTimestamp(f.utc).value;
    ValuesAccepted(labels, f, utc, latitude, longitude, bodies, nfc);
    WholeAccepted(labels, Values(labels, f, utc, latitude, longitude, bodies), nfc);
  }

  // ---- what a reader of the bytes finds ----

  /** A consumer's lookup of a member in a parsed object. */
  function Find(members: seq<NMember<string>>, key: string): Option<Norm<string>> {
    if members == [] then None else if members[0].key == key then Some(members[0].value) else Find(members[1..], key)
  }

  lemma {:induction false} FindsIt(members: seq<NMember<string>>, m: NMember<string>)
    requires DistinctNormalKeys(members) && m in members
    ensures Find(members, m.key) == Some(m.value)
  {
    if members[0] != m {
      var i :| 0 <= i < |members| && members[i] == m;
      assert members[1..][i - 1] == m;
      FindsIt(members[1..], m);
    }
  }

  /** The sorted object answers every key with the value that was stored under it. */
  lemma SortedFinds(keys: seq<string>, values: seq<Value>, nfc: Form, i: nat, sorted: seq<NMember<string>>)
    requires |keys| == |values| && i < |keys| && Normalize(Object(Keyed(keys, values)), nfc) == Some(NObject(sorted))
    ensures Find(sorted, nfc(keys[i])) == Normalize(values[i], nfc)
  {
    var x := KeyedMembers(keys, values, nfc);
    UnitsRoundTrip(keys[i]);
    assert x[i].key == nfc(keys[i]);
    DistinctSortsAscending(x);
    AscendingIsDistinct(sorted);
    Sorting.SameElements(sorted, x);
    FindsIt(sorted, x[i]);
  }

  lemma SortedSize(keys: seq<string>, values: seq<Value>, nfc: Form, sorted: seq<NMember<string>>)
    requires |keys| == |values| && Normalize(Object(Keyed(keys, values)), nfc) == Some(NObject(sorted))
    ensures |sorted| == |keys|
  {
    var x := KeyedMembers(keys, values, nfc);
    assert |multiset(sorted)| == |multiset(x)|;
  }

  /** A parsed content: the header, the form, and an object that answers every key as stored. */
  ghost predicate Answers(n: Norm<string>, labels: Labels, values: seq<Value>, nfc: Form)
    requires |labels.keys| == |values|
  {
    n.NList? && |n.items| == 3 && n.items[0] == NText(nfc(labels.header)) && n.items[1] == NText(nfc(labels.form))
    && n.items[2].NObject? && |n.items[2].members| == |values|
    && forall i :: 0 <= i < |values| ==> Find(n.items[2].members, nfc(labels.keys[i])) == Normalize(values[i], nfc)
  }

  lemma WholeAnswers(labels: Labels, values: seq<Value>, nfc: Form)
    requires |labels.keys| == |values| && Accepted(Whole(labels, values), nfc)
    ensures Answers(Normalize(Whole(labels, values), nfc).value, labels, values, nfc)
  {
    var sorted := ThreeItems(labels, values, nfc);
    SortedSize(labels.keys, values, nfc, sorted);
    forall i | 0 <= i < |values| ensures Find(sorted, nfc(labels.keys[i])) == Normalize(values[i], nfc) {
      SortedFinds(labels.keys, values, nfc, i, sorted);
    }
  }

  lemma ThreeItems(labels: Labels, values: seq<Value>, nfc: Form) returns (sorted: seq<NMember<string>>)
    requires |labels.keys| == |values| && Accepted(Whole(labels, values), nfc)
    ensures Normalize(Whole(labels, values), nfc)
            == Some(NList([NText(nfc(labels.header)), NText(nfc(labels.form)), NObject(sorted)]))
    ensures Normalize(Object(Keyed(labels.keys, values)), nfc) == Some(NObject(sorted))
  {
    TextsAlike(labels.header, labels.header, nfc);
    TextsAlike(labels.form, labels.form, nfc);
    var third := ThirdNormal(Whole(labels, values).items, nfc, NText(nfc(labels.header)), NText(nfc(labels.form)));
    sorted := third.members;
  }

  lemma ThirdNormal(items: seq<Value>, nfc: Form, x: Norm<string>, y: Norm<string>) returns (z: Norm<string>)
    requires |items| == 3 && Normalize(items[0], nfc) == Some(x) && Normalize(items[1], nfc) == Some(y)
    requires Accepted(List(items), nfc)
    ensures Normalize(items[2], nfc) == Some(z) && Normalize(List(items), nfc) == Some(NList([x, y, z]))
  {
    var out := ItemsNormal(items, nfc);
    assert Some(x) == Some(out[0]) && Some(y) == Some(out[1]);
    z := out[2];
    assert out == [x, y, z];
  }

  // ---- the facts, read back ----

  /** The parsed content says these facts, each under its own key. */
  ghost predicate Shows(n: Norm<string>, labels: Labels, f: Facts, nfc: Form)
    requires |labels.keys| == 8
  {
    n.NList? && |n.items| == 3 && n.items[0] == NText(nfc(labels.header)) && n.items[1] == NText(nfc(labels.form))
    && n.items[2].NObject? && |n.items[2].members| == 8 && ShowsMembers(n.items[2].members, labels, f, nfc)
  }

  ghost predicate ShowsMembers(members: seq<NMember<string>>, labels: Labels, f: Facts, nfc: Form)
    requires |labels.keys| == 8
  {
    ShowsText(members, nfc(labels.keys[0]), nfc(labels.schema))
    && ShowsText(members, nfc(labels.keys[1]), nfc(f.profile))
    && ShowsFacts(members, labels, f, nfc)
  }

  /** The facts other than schema and profile. */
  ghost predicate ShowsFacts(members: seq<NMember<string>>, labels: Labels, f: Facts, nfc: Form)
    requires |labels.keys| == 8
  {
    var utc, latitude, longitude := Timestamp.PythonTimestamp(f.utc), Coordinate(f.latitude, false),
        Coordinate(f.longitude, true);
    utc.Some? && latitude.Some? && longitude.Some?
    && ShowsText(members, nfc(labels.keys[2]), nfc(f.policy)) && ShowsText(members, nfc(labels.keys[3]), nfc(utc.value))
    && ShowsInt(members, nfc(labels.keys[4]), latitude.value) && ShowsInt(members, nfc(labels.keys[5]), longitude.value)
    && ShowsText(members, nfc(labels.keys[6]), nfc(f.frame))
    && Find(members, nfc(labels.keys[7])).Some?
    && ShowsBodies(Find(members, nfc(labels.keys[7])).value, labels, f.bodies, nfc)
  }

  predicate ShowsText(members: seq<NMember<string>>, key: string, s: string) { Find(members, key) == Some(NText(s)) }

  predicate ShowsInt(members: seq<NMember<string>>, key: string, n: int) { Find(members, key) == Some(NInt(n)) }

  ghost predicate ShowsBodies(n: Norm<string>, labels: Labels, ps: seq<Position>, nfc: Form) {
    n.NList? && |n.items| == |ps| && forall i :: 0 <= i < |ps| ==> ShowsBody(n.items[i], labels, ps[i], nfc)
  }

  ghost predicate ShowsBody(n: Norm<string>, labels: Labels, p: Position, nfc: Form) {
    var units := Scaled.PythonScaled(p.degrees, Scaled.Angle);
    n.NObject? && |n.members| == 2 && units.Some?
    && ShowsText(n.members, nfc(labels.body), nfc(p.body)) && ShowsInt(n.members, nfc(labels.unit), units.value)
  }

  lemma IntAccepted(n: int, nfc: Form)
    requires Accepted(Int(n), nfc)
    ensures Normalize(Int(n), nfc) == Some(NInt(n))
  {
  }

  lemma BodyShown(p: Position, labels: Labels, nfc: Form)
    requires Body(p, labels).Some? && Accepted(Body(p, labels).value, nfc)
    ensures ShowsBody(Normalize(Body(p, labels).value, nfc).value, labels, p, nfc)
  {
    PairShown(labels, p.body, Scaled.PythonScaled(p.degrees, Scaled.Angle).value, nfc);
  }

  lemma PairShown(labels: Labels, s: string, n: int, nfc: Form)
    requires Accepted(Object(Keyed([labels.body, labels.unit], [Str(s), Int(n)])), nfc)
    ensures var o := Normalize(Object(Keyed([labels.body, labels.unit], [Str(s), Int(n)])), nfc).value;
            o.NObject? && |o.members| == 2
            && ShowsText(o.members, nfc(labels.body), nfc(s)) && ShowsInt(o.members, nfc(labels.unit), n)
  {
    var keys, values := [labels.body, labels.unit], [Str(s), Int(n)];
    var sorted := Normalize(Object(Keyed(keys, values)), nfc).value.members;
    ValuesNormal(keys, values, nfc);
    SortedSize(keys, values, nfc, sorted);
    SortedFinds(keys, values, nfc, 0, sorted);
    SortedFinds(keys, values, nfc, 1, sorted);
    TextsAlike(s, s, nfc);
    assert Accepted(values[1], nfc);
    IntAccepted(n, nfc);
  }

  lemma BodiesShown(ps: seq<Position>, labels: Labels, bodies: seq<Value>, nfc: Form)
    requires Bodies(ps, labels) == Some(bodies) && Accepted(List(bodies), nfc)
    ensures ShowsBodies(Normalize(List(bodies), nfc).value, labels, ps, nfc)
  {
    var out := ItemsNormal(bodies, nfc);
    forall i | 0 <= i < |ps| ensures ShowsBody(out[i], labels, ps[i], nfc) {
      assert Body(ps[i], labels) == Some(bodies[i]) && Normalize(bodies[i], nfc) == Some(out[i]);
      BodyShown(ps[i], labels, nfc);
    }
  }

  lemma ItemsNormal(items: seq<Value>, nfc: Form) returns (out: seq<Norm<string>>)
    requires Accepted(List(items), nfc)
    ensures Normalize(List(items), nfc) == Some(NList(out)) && |out| == |items|
    ensures forall i :: 0 <= i < |items| ==> Normalize(items[i], nfc) == Some(out[i])
  {
    ItemsPointwise(items, nfc);
    out := NormalizeItems(items, nfc).value;
    assert forall i :: 0 <= i < |items| ==> Some(out[i]) == Normalize(items[i], nfc);
  }

  /** The normal forms of the eight values. */
  lemma ValuesShown(labels: Labels, f: Facts, s: string, m: int, n: int, bodies: seq<Value>, v: seq<Value>, nfc: Form)
    requires v == Values(labels, f, s, m, n, bodies) && forall i :: 0 <= i < 8 ==> Accepted(v[i], nfc)
    ensures Normalize(v[0], nfc) == Some(NText(nfc(labels.schema)))
            && Normalize(v[1], nfc) == Some(NText(nfc(f.profile)))
    ensures Normalize(v[2], nfc) == Some(NText(nfc(f.policy))) && Normalize(v[3], nfc) == Some(NText(nfc(s)))
    ensures Normalize(v[4], nfc) == Some(NInt(m)) && Normalize(v[5], nfc) == Some(NInt(n))
    ensures Normalize(v[6], nfc) == Some(NText(nfc(f.frame))) && v[7] == List(bodies) && Accepted(List(bodies), nfc)
  {
    assert Accepted(v[4], nfc) && Accepted(v[5], nfc) && Accepted(v[7], nfc);
    TextsAlike(labels.schema, labels.schema, nfc);
    TextsAlike(f.profile, f.profile, nfc);
    TextsAlike(f.policy, f.policy, nfc);
    TextsAlike(s, s, nfc);
    TextsAlike(f.frame, f.frame, nfc);
    IntAccepted(m, nfc);
    IntAccepted(n, nfc);
  }

  /** Whoever parses the bytes finds every fact of the response under its own key. */
  lemma ConsumerReads(f: Facts, labels: Labels, nfc: Form)
    requires |labels.keys| == 8 && Bytes(f, labels, nfc).Some?
    ensures ParseBytes(Bytes(f, labels, nfc).value).Some?
    ensures Shows(ParseBytes(Bytes(f, labels, nfc).value).value, labels, f, nfc)
  {
    var v, bodies := ContentValues(f, labels);
    ParsedBack(Whole(labels, v), nfc);
    WholeAnswers(labels, v, nfc);
    WholesAlike(labels, v, v, nfc);
    AnswersShow(Normalize(Whole(labels, v), nfc).value, labels, f, v, bodies, nfc);
  }

  lemma AnswersShow(n: Norm<string>, labels: Labels, f: Facts, v: seq<Value>, bodies: seq<Value>, nfc: Form)
    requires |labels.keys| == |v| == 8 && SeenIn(labels, f, v, bodies) && Answers(n, labels, v, nfc)
    requires forall i :: 0 <= i < 8 ==> Accepted(v[i], nfc)
    ensures Shows(n, labels, f, nfc)
  {
    ValuesShown(labels, f, Timestamp.PythonTimestamp(f.utc).value, Coordinate(f.latitude, false).value,
                Coordinate(f.longitude, true).value, bodies, v, nfc);
    FactsShown(n.items[2].members, labels, f, v, bodies, nfc);
  }

  lemma FactsShown(members: seq<NMember<string>>, labels: Labels, f: Facts, v: seq<Value>, bodies: seq<Value>,
                   nfc: Form)
    requires |labels.keys| == |v| == 8 && SeenIn(labels, f, v, bodies) && forall i :: 0 <= i < 8 ==> Accepted(v[i], nfc)
    requires forall i :: 2 <= i < 8 ==> Find(members, nfc(labels.keys[i])) == Normalize(v[i], nfc)
    ensures ShowsFacts(members, labels, f, nfc)
  {
    ValuesShown(labels, f, Timestamp.PythonTimestamp(f.utc).value, Coordinate(f.latitude, false).value,
                Coordinate(f.longitude, true).value, bodies, v, nfc);
    BodiesShown(f.bodies, labels, bodies, nfc);
  }

  // ---- at the accepted labels ----

  /** passport_content with the texts it uses. */
  function Passport(f: Facts, nfc: Form): Option<seq<int>> { Bytes(f, LABELS, nfc) }

  /** What a reader finds under the names of the documentation, in units that are spelled out, and nothing else. */
  ghost predicate Reads(n: Norm<string>, f: Facts, nfc: Form)
    requires f.latitude.exponent <= 0 && f.longitude.exponent <= 0
  {
    n.NList? && |n.items| == 3 && n.items[0] == NText("ACEP1")
    && n.items[1] == NText("apt.sun-moon-content.v1-proposed")
    && n.items[2].NObject? && |n.items[2].members| == 8
    && ShowsText(n.items[2].members, "schema", "APTCanonicalSunMoonContent.v1-proposed")
    && ShowsText(n.items[2].members, "profile", nfc(f.profile)) && ReadsFacts(n.items[2].members, f, nfc)
  }

  /** The facts other than schema and profile. */
  ghost predicate ReadsFacts(members: seq<NMember<string>>, f: Facts, nfc: Form)
    requires f.latitude.exponent <= 0 && f.longitude.exponent <= 0
  {
    ShowsText(members, "numerical_policy", nfc(f.policy)) && ShowsText(members, "utc", f.utc)
    && (exists v :: IsE7(f.latitude, false, v) && ShowsInt(members, "latitude_e7", v))
    && (exists v :: IsE7(f.longitude, true, v) && ShowsInt(members, "longitude_e7", v))
    && ShowsText(members, "frame", nfc(f.frame))
    && Find(members, "bodies").Some? && ReadsBodies(Find(members, "bodies").value, f.bodies, nfc)
  }

  ghost predicate ReadsBodies(n: Norm<string>, ps: seq<Position>, nfc: Form) {
    n.NList? && |n.items| == |ps| && forall i :: 0 <= i < |ps| ==> ReadsBody(n.items[i], ps[i], nfc)
  }

  /** The longitude is the count of billionths of a degree that the wire text prints. */
  ghost predicate ReadsBody(n: Norm<string>, p: Position, nfc: Form) {
    n.NObject? && |n.members| == 2 && ShowsText(n.members, "body", nfc(p.body))
    && exists k: nat :: p.degrees == LongitudeText.Text(k) && ShowsInt(n.members, "longitude_e9", k)
  }

  /** By name: NFC leaves the keys alone, so every fact stands under the name that the documentation gives. */
  lemma FactsByName(n: Norm<string>, f: Facts, r: Projection.Response, nfc: Form, digits: nat)
    requires KeepsAscii(nfc) && OnWire(f, r, digits) && Shows(n, LABELS, f, nfc)
    ensures Reads(n, f, nfc)
  {
    LabelsAreUsable();
    HeadersByName(n, f, nfc);
    Projection.CoherentUtcIsCanonical(r);
    MembersByName(n.items[2].members, f, nfc, digits, LABELS.keys);
  }

  lemma HeadersByName(n: Norm<string>, f: Facts, nfc: Form)
    requires KeepsAscii(nfc) && Apart(LABELS.keys) && Shows(n, LABELS, f, nfc)
    ensures n.items[0] == NText("ACEP1") && n.items[1] == NText("apt.sun-moon-content.v1-proposed")
    ensures ShowsText(n.items[2].members, "schema", "APTCanonicalSunMoonContent.v1-proposed")
    ensures ShowsText(n.items[2].members, "profile", nfc(f.profile))
  {
    TextsKept(LABELS, nfc, LABELS.keys);
  }

  lemma TextsKept(labels: Labels, nfc: Form, keys: seq<string>)
    requires KeepsAscii(nfc) && labels == LABELS && keys == LABELS.keys && Apart(keys)
    ensures nfc(labels.header) == "ACEP1" && nfc(labels.form) == "apt.sun-moon-content.v1-proposed"
    ensures nfc(labels.schema) == "APTCanonicalSunMoonContent.v1-proposed"
    ensures nfc(labels.keys[0]) == "schema" && nfc(labels.keys[1]) == "profile"
  {
    assert keys[0] == "schema" && keys[1] == "profile";
    ShortTextAscii(labels.header);
    FormAscii(labels.form);
    SchemaAscii(labels.schema);
  }

  lemma ShortTextAscii(s: string)
    requires s == "ACEP1"
    ensures IsAscii(s)
  {
  }

  lemma FormAscii(s: string)
    requires s == "apt.sun-moon-content.v1-proposed"
    ensures IsAscii(s)
  {
  }

  lemma SchemaAscii(s: string)
    requires s == "APTCanonicalSunMoonContent.v1-proposed"
    ensures IsAscii(s)
  {
  }

  lemma MembersByName(members: seq<NMember<string>>, f: Facts, nfc: Form, digits: nat, keys: seq<string>)
    requires KeepsAscii(nfc) && keys == LABELS.keys && Apart(keys) && ShowsFacts(members, LABELS, f, nfc)
    requires InDegrees(f.latitude, 90, digits) && InDegrees(f.longitude, 180, digits)
    requires Timestamp.PythonTimestamp(f.utc) == Some(f.utc)
    requires forall i :: 0 <= i < |f.bodies| ==> LongitudeText.Pattern(f.bodies[i].degrees)
    ensures ReadsFacts(members, f, nfc)
  {
    assert keys[2] == "numerical_policy" && keys[3] == "utc" && keys[6] == "frame" && keys[7] == "bodies";
    UtcIsAscii(f.utc);
    CoordinatesByName(members, f, nfc, digits, keys);
    BodiesByName(Find(members, "bodies").value, f.bodies, nfc);
  }

  lemma UtcIsAscii(utc: string)
    requires Timestamp.PythonTimestamp(utc) == Some(utc)
    ensures IsAscii(utc)
  {
    Timestamp.FieldBounds(utc);
    PrintAscii(Timestamp.Fields(utc));
  }

  /** The place stands under its two names, in ten-millionths of a degree. */
  lemma CoordinatesByName(members: seq<NMember<string>>, f: Facts, nfc: Form, digits: nat, keys: seq<string>)
    requires KeepsAscii(nfc) && keys == LABELS.keys && Apart(keys) && ShowsFacts(members, LABELS, f, nfc)
    requires InDegrees(f.latitude, 90, digits) && InDegrees(f.longitude, 180, digits)
    ensures exists v :: IsE7(f.latitude, false, v) && ShowsInt(members, "latitude_e7", v)
    ensures exists v :: IsE7(f.longitude, true, v) && ShowsInt(members, "longitude_e7", v)
  {
    assert keys[4] == "latitude_e7" && keys[5] == "longitude_e7";
    CoordinateMeans(f.latitude, false, 90, digits, Coordinate(f.latitude, false).value);
    CoordinateMeans(f.longitude, true, 180, digits, Coordinate(f.longitude, true).value);
  }

  lemma BodiesByName(n: Norm<string>, ps: seq<Position>, nfc: Form)
    requires KeepsAscii(nfc) && ShowsBodies(n, LABELS, ps, nfc)
    requires forall i :: 0 <= i < |ps| ==> LongitudeText.Pattern(ps[i].degrees)
    ensures ReadsBodies(n, ps, nfc)
  {
    assert IsAscii(LABELS.body) && IsAscii(LABELS.unit) && LABELS.body == "body" && LABELS.unit == "longitude_e9";
    forall i | 0 <= i < |ps| ensures ReadsBody(n.items[i], ps[i], nfc) {
      LongitudeText.PatternRoundTrip(ps[i].degrees);
      assert ShowsBody(n.items[i], LABELS, ps[i], nfc);
      var k := Scaled.PythonScaled(ps[i].degrees, Scaled.Angle).value;
      assert ps[i].degrees == LongitudeText.Text(k) && ShowsInt(n.items[i].members, "longitude_e9", k);
    }
  }

  /** Two responses say the same: texts alike after NFC, equal time and longitude texts, equal units of the place. */
  ghost predicate SaySame(f: Facts, g: Facts, nfc: Form)
    requires f.latitude.exponent <= 0 && f.longitude.exponent <= 0
    requires g.latitude.exponent <= 0 && g.longitude.exponent <= 0
  {
    nfc(f.profile) == nfc(g.profile) && nfc(f.policy) == nfc(g.policy) && nfc(f.frame) == nfc(g.frame)
    && f.utc == g.utc
    && SameE7(f.latitude, g.latitude, false) && SameE7(f.longitude, g.longitude, true)
    && |f.bodies| == |g.bodies| && forall i :: 0 <= i < |f.bodies| ==> SaidAlike(f.bodies[i], g.bodies[i], nfc)
  }

  ghost predicate SameE7(d: Dec, e: Dec, wraps: bool)
    requires d.exponent <= 0 && e.exponent <= 0
  {
    forall v :: IsE7(d, wraps, v) <==> IsE7(e, wraps, v)
  }

  predicate SaidAlike(p: Position, q: Position, nfc: Form) { nfc(p.body) == nfc(q.body) && p.degrees == q.degrees }

  lemma SayingIsFacts(f: Facts, r: Projection.Response, g: Facts, r': Projection.Response, nfc: Form, digits: nat)
    requires KeepsAscii(nfc) && OnWire(f, r, digits) && OnWire(g, r', digits)
    ensures SameFacts(f, g, nfc) <==> SaySame(f, g, nfc)
  {
    SameTime(f.utc, r, g.utc, r', nfc);
    SameUnits(f.latitude, g.latitude, false, 90, digits);
    SameUnits(f.longitude, g.longitude, true, 180, digits);
    SamePositions(f.bodies, g.bodies, nfc);
  }

  lemma SameTime(s: string, r: Projection.Response, t: string, r': Projection.Response, nfc: Form)
    requires KeepsAscii(nfc) && Projection.ResponseCoherent(r) && Projection.ResponseCoherent(r')
    requires s == r.civil.utc && t == r'.civil.utc
    ensures SameUtc(s, t, nfc) <==> s == t
  {
    Projection.CoherentUtcIsCanonical(r);
    Projection.CoherentUtcIsCanonical(r');
    UtcIsAscii(s);
    UtcIsAscii(t);
  }

  lemma SamePositions(a: seq<Position>, b: seq<Position>, nfc: Form)
    requires forall i :: 0 <= i < |a| ==> LongitudeText.Pattern(a[i].degrees)
    requires forall i :: 0 <= i < |b| ==> LongitudeText.Pattern(b[i].degrees)
    ensures |a| == |b| ==>
              forall i :: 0 <= i < |a| ==> (SamePosition(a[i], b[i], nfc) <==> SaidAlike(a[i], b[i], nfc))
  {
    if |a| == |b| {
      forall i | 0 <= i < |a| ensures SamePosition(a[i], b[i], nfc) <==> SaidAlike(a[i], b[i], nfc) {
        SameDegrees(a[i].degrees, b[i].degrees);
      }
    }
  }

  lemma SameUnits(d: Dec, e: Dec, wraps: bool, limit: nat, digits: nat)
    requires InDegrees(d, limit, digits) && InDegrees(e, limit, digits) && limit <= 180
    ensures Coordinate(d, wraps) == Coordinate(e, wraps) <==> SameE7(d, e, wraps)
  {
    CoordinateFits(d, wraps, limit, digits);
    CoordinateFits(e, wraps, limit, digits);
    forall v ensures (Coordinate(d, wraps) == Some(v) <==> IsE7(d, wraps, v))
                     && (Coordinate(e, wraps) == Some(v) <==> IsE7(e, wraps, v)) {
      CoordinateMeans(d, wraps, limit, digits, v);
      CoordinateMeans(e, wraps, limit, digits, v);
    }
    var v := Coordinate(d, wraps).value;
    assert IsE7(d, wraps, v);
  }

  lemma SameDegrees(s: string, t: string)
    requires LongitudeText.Pattern(s) && LongitudeText.Pattern(t)
    ensures Scaled.PythonScaled(s, Scaled.Angle) == Scaled.PythonScaled(t, Scaled.Angle) <==> s == t
  {
    LongitudeText.PatternRoundTrip(s);
    LongitudeText.PatternRoundTrip(t);
  }

  /**
   Of responses off the wire, content is always encoded, its bytes are the same exactly if the responses say the same,
   and parsing them shows what was said, under the documented names and in the documented units.
   */
  lemma PassportIdentifiesFacts(f: Facts, r: Projection.Response, g: Facts, r': Projection.Response, nfc: Form,
                                digits: nat)
    requires KeepsAscii(nfc) && OnWire(f, r, digits) && OnWire(g, r', digits)
    ensures Passport(f, nfc).Some? && Passport(g, nfc).Some?
    ensures Passport(f, nfc) == Passport(g, nfc) <==> SaySame(f, g, nfc)
    ensures ParseBytes(Passport(f, nfc).value).Some? && Reads(ParseBytes(Passport(f, nfc).value).value, f, nfc)
  {
    LabelsAreUsable();
    EncodingSucceeds(f, r, LABELS, nfc, digits);
    EncodingSucceeds(g, r', LABELS, nfc, digits);
    SameBytesIffSameFacts(f, g, LABELS, nfc);
    SayingIsFacts(f, r, g, r', nfc, digits);
    ConsumerReads(f, LABELS, nfc);
    FactsByName(ParseBytes(Passport(f, nfc).value).value, f, r, nfc, digits);
  }
}
