/** The content identity of a response: which of its facts the canonical bytes determine, and nothing else. */
module PassportContent {
  import opened Results
  import opened Json
  import opened Unicode
  import opened Canonical
  import opened Digits
  import opened HalfEven
  import Calendar
  import Scaled
  import Sorting
  import Timestamp

  /** A wire longitude or latitude is a binary64 in its shortest decimal spelling. */
  type Dec = Scaled.Dec

  datatype Position = Position(body: string, degrees: string)

  /** The facts a response contributes, as they stand on the wire. */
  datatype Facts = Facts(profile: string, policy: string, utc: string, latitude: Dec, longitude: Dec, frame: string,
      bodies: seq<Position>)

  /** The fixed texts of the encoding. */
  datatype Labels = Labels(header: string, form: string, schema: string, keys: seq<string>, body: string, unit: string)

  const LABELS := Labels("ACEP1", "apt.sun-moon-content.v1-proposed", "APTCanonicalSunMoonContent.v1-proposed",
    ["schema", "profile", "numerical_policy", "utc", "latitude_e7", "longitude_e7", "frame", "bodies"], "body",
        "longitude_e9")

  // ---- coordinates ----

  /** The inner coordinate(): times 10**7 and quantized in a 40-digit context; 180 degrees east become west. */
  function Coordinate(d: Dec, wraps: bool): Option<int> { CoordinateAt(d, wraps, 7, Scaled.PRECISION) }

  function CoordinateAt(d: Dec, wraps: bool, places: nat, precision: nat): Option<int>
    requires precision >= 1
  {
    match Scaled.Quantize(Scaled.Multiply(d, places, precision), 0, precision)
    case None => None
    case Some(q) => Some(Wrapped(Scaled.Signed(q.negative, q.coefficient), wraps))
  }

  function Wrapped(v: int, wraps: bool): int { if wraps && v == 1_800_000_000 then -1_800_000_000 else v }

  /** A product that fits the context is rounded once, to the nearest unit with ties to even; the wrap comes after. */
  lemma CoordinateIsNearest(d: Dec, wraps: bool, n: nat, den: nat, places: nat, precision: nat) returns (q: int)
    requires precision >= 1 && d.exponent <= 0 && den == Pow10(-d.exponent)
    requires n == d.coefficient * Pow10(places) < Pow10(precision)
    ensures Nearest(Scaled.Signed(d.negative, n), den, q)
    ensures CoordinateAt(d, wraps, places, precision) == Some(Wrapped(q, wraps))
  {
    q := Scaled.Signed(d.negative, ByRemainder(n, den));
    RoundsOnce(d, wraps, n, -d.exponent, places, precision);
    Scaled.SignedNearest(d.negative, n, den);
  }

  lemma RoundsOnce(d: Dec, wraps: bool, n: nat, k: nat, places: nat, precision: nat)
    requires precision >= 1 && n < Pow10(precision) && k == -d.exponent && n == d.coefficient * Pow10(places)
    ensures CoordinateAt(d, wraps, places, precision)
            == Some(Wrapped(Scaled.Signed(d.negative, ByRemainder(n, Pow10(k))), wraps))
  {
    Scaled.QuantizedOnce(Scaled.Dec(d.negative, n, d.exponent), k, precision);
  }

  /** The product fits for every spelling of up to 33 digits, twice what a binary64 needs. */
  lemma SpellingsFit(coefficient: nat, digits: nat, places: nat, precision: nat)
    requires coefficient < Pow10(digits) && digits <= 33 && places == 7 && precision == Scaled.PRECISION
    ensures coefficient * Pow10(places) < Pow10(precision)
  {
    Scaled.FitsContext(coefficient, digits, places, precision);
  }

  /** A wire coordinate: a spelling of few enough digits of a value of at most this many degrees. */
  predicate InDegrees(d: Dec, limit: nat, digits: nat) {
    digits <= 33 && d.coefficient < Pow10(digits) && d.exponent <= 0 && d.coefficient <= limit * Pow10(-d.exponent)
  }

  /** Wire coordinates are always encoded, within their degrees, and longitudes short of 180 degrees east. */
  lemma CoordinateFits(d: Dec, wraps: bool, limit: nat, digits: nat)
    requires InDegrees(d, limit, digits) && limit <= 180
    ensures Coordinate(d, wraps).Some?
    ensures -10_000_000 * limit <= Coordinate(d, wraps).value <= 10_000_000 * limit
    ensures wraps ==> Coordinate(d, wraps).value < 1_800_000_000
    ensures IsE7(d, wraps, Coordinate(d, wraps).value)
  {
    FitsAt(d, wraps, limit, digits, 7, Scaled.PRECISION);
    CoordinateMeans(d, wraps, limit, digits, Coordinate(d, wraps).value);
  }

  lemma FitsAt(d: Dec, wraps: bool, limit: nat, digits: nat, places: nat, precision: nat)
    requires InDegrees(d, limit, digits) && limit <= 180 && places == 7 && precision == Scaled.PRECISION
    ensures CoordinateAt(d, wraps, places, precision).Some?
    ensures var v := CoordinateAt(d, wraps, places, precision).value;
            -10_000_000 * limit <= v <= 10_000_000 * limit && (wraps ==> v < 1_800_000_000)
  {
    var n, den := d.coefficient * Pow10(places), Pow10(-d.exponent);
    SpellingsFit(d.coefficient, digits, places, precision);
    var q := CoordinateIsNearest(d, wraps, n, den, places, precision);
    Scaled.PowersUsed();
    DegreesBound(d.coefficient, limit, den, Pow10(places), n);
    NearestBounds(Scaled.Signed(d.negative, n), den, q, -10_000_000 * limit, 10_000_000 * limit);
  }

  /** v counts ten-millionths of a degree: the nearest count, ties to even, with 180 degrees east counted as west. */
  ghost predicate IsE7(d: Dec, wraps: bool, v: int)
    requires d.exponent <= 0
  {
    var tenMillionths, den := Scaled.Signed(d.negative, d.coefficient) * 10_000_000, Pow10(-d.exponent);
    exists q :: Nearest(tenMillionths, den, q) && v == if wraps && q == 1_800_000_000 then -1_800_000_000 else q
  }

  /** The integer of a wire coordinate is the one that counts its ten-millionths of a degree. */
  lemma CoordinateMeans(d: Dec, wraps: bool, limit: nat, digits: nat, v: int)
    requires InDegrees(d, limit, digits)
    ensures Coordinate(d, wraps) == Some(v) <==> IsE7(d, wraps, v)
  {
    MeansAt(d, wraps, limit, digits, 7, Scaled.PRECISION, v);
  }

  lemma MeansAt(d: Dec, wraps: bool, limit: nat, digits: nat, places: nat, precision: nat, v: int)
    requires InDegrees(d, limit, digits) && places == 7 && precision == Scaled.PRECISION
    ensures CoordinateAt(d, wraps, places, precision) == Some(v) <==> IsE7(d, wraps, v)
  {
    var n, den := d.coefficient * Pow10(places), Pow10(-d.exponent);
    SpellingsFit(d.coefficient, digits, places, precision);
    var q := CoordinateIsNearest(d, wraps, n, den, places, precision);
    Scaled.PowersUsed();
    SignTimes(d.negative, d.coefficient, Pow10(places), n);
    forall r | Nearest(Scaled.Signed(d.negative, d.coefficient) * 10_000_000, den, r) ensures r == q {
      NearestUnique(Scaled.Signed(d.negative, n), den, r, q);
    }
  }

  lemma SignTimes(negative: bool, c: nat, p: nat, n: nat)
    requires n == c * p && p == 10_000_000
    ensures Scaled.Signed(negative, n) == Scaled.Signed(negative, c) * 10_000_000
  {
  }

  lemma DegreesBound(c: nat, limit: nat, den: nat, p: nat, n: nat)
    requires c <= limit * den && n == c * p && p == 10_000_000
    ensures n <= 10_000_000 * limit * den
    ensures -10_000_000 * limit * den <= 0 - n
  {
  }

  // ---- the content ----

  function Str(s: string): Value { Text(ToUnits(s)) }

  function Int(n: int): Value { Num(Integer(n)) }

  function Keyed(keys: seq<string>, values: seq<Value>): (r: seq<Member>)
    requires |keys| == |values|
    ensures |r| == |keys| && forall i :: 0 <= i < |keys| ==> r[i] == Member(ToUnits(keys[i]), values[i])
  {
    seq(|keys|, i requires 0 <= i < |keys| => Member(ToUnits(keys[i]), values[i]))
  }

  function Body(p: Position, labels: Labels): Option<Value> {
    match Scaled.PythonScaled(p.degrees, Scaled.Angle)
    case None => None
    case Some(units) => Some(Object(Keyed([labels.body, labels.unit], [Str(p.body), Int(units)])))
  }

  function Bodies(ps: seq<Position>, labels: Labels): (r: Option<seq<Value>>)
    ensures r.Some? ==> |r.value| == |ps| && forall i :: 0 <= i < |ps| ==> Body(ps[i], labels) == Some(r.value[i])
  {
    if ps == [] then Some([])
    else match (Body(ps[0], labels), Bodies(ps[1..], labels))
      case (Some(b), Some(rest)) => Some([b] + rest)
      case _ => None
  }

  function Content(f: Facts, labels: Labels): Option<Value>
    requires |labels.keys| == 8
  {
    match (Timestamp.PythonTimestamp(f.utc), Coordinate(f.latitude, false), Coordinate(f.longitude, true),
        Bodies(f.bodies, labels))
    case (Some(utc), Some(latitude), Some(longitude), Some(bodies)) =>
      Some(Whole(labels, Values(labels, f, utc, latitude, longitude, bodies)))
    case _ => None
  }

  function Values(labels: Labels, f: Facts, utc: string, latitude: int, longitude: int,
                  bodies: seq<Value>): (r: seq<Value>)
    ensures |r| == 8
  {
    [Str(labels.schema), Str(f.profile), Str(f.policy), Str(utc), Int(latitude), Int(longitude), Str(f.frame),
        List(bodies)]
  }

  function Whole(labels: Labels, values: seq<Value>): Value
    requires |labels.keys| == |values|
  {
    List([Str(labels.header), Str(labels.form), Object(Keyed(labels.keys, values))])
  }

  /** passport_content */
  function Bytes(f: Facts, labels: Labels, nfc: Form): Option<seq<int>>
    requires |labels.keys| == 8
  {
    match Content(f, labels) case None => None case Some(v) => Encode(v, nfc)
  }

  // ---- what the bytes determine ----

  predicate Alike(v: Value, w: Value, nfc: Form) { Normalize(v, nfc) == Normalize(w, nfc) }

  predicate AllAlike(a: seq<Value>, b: seq<Value>, nfc: Form) {
    |a| == |b| && forall i :: 0 <= i < |a| ==> Alike(a[i], b[i], nfc)
  }

  lemma TextsAlike(s: string, t: string, nfc: Form)
    ensures Normalize(Str(s), nfc) == Some(NText(nfc(s)))
    ensures Alike(Str(s), Str(t), nfc) <==> nfc(s) == nfc(t)
  {
    UnitsRoundTrip(s);
    UnitsRoundTrip(t);
  }

  lemma ListsAlike(a: seq<Value>, b: seq<Value>, nfc: Form)
    requires Normalize(List(a), nfc).Some? && Normalize(List(b), nfc).Some?
    ensures Alike(List(a), List(b), nfc) <==> AllAlike(a, b, nfc)
    ensures forall i :: 0 <= i < |a| ==> Normalize(a[i], nfc).Some?
  {
    ItemsPointwise(a, nfc);
    ItemsPointwise(b, nfc);
    var x, y := NormalizeItems(a, nfc).value, NormalizeItems(b, nfc).value;
    if AllAlike(a, b, nfc) {
      forall i | 0 <= i < |a| ensures x[i] == y[i] {
        assert Alike(a[i], b[i], nfc);
      }
    }
    if x == y {
      forall i | 0 <= i < |a| ensures Alike(a[i], b[i], nfc) {
        assert Some(x[i]) == Some(y[i]);
      }
    }
  }

  lemma KeyedMembers(keys: seq<string>, a: seq<Value>, nfc: Form) returns (x: seq<NMember<string>>)
    requires |keys| == |a| && Normalize(Object(Keyed(keys, a)), nfc).Some?
    ensures Normalize(Object(Keyed(keys, a)), nfc) == Some(NObject(Sorting.Sort(x, KeyBytes)))
    ensures |x| == |keys| && DistinctNormalKeys(x)
    ensures forall i :: 0 <= i < |keys| ==> Some(x[i].key) == NormalText(ToUnits(keys[i]), nfc)
    ensures forall i :: 0 <= i < |keys| ==> Some(x[i].value) == Normalize(a[i], nfc)
  {
    var m := Keyed(keys, a);
    MembersPointwise(m, nfc);
    x := NormalizeMembers(m, nfc).value;
    forall i | 0 <= i < |keys| ensures Some(x[i].key) == NormalText(ToUnits(keys[i]), nfc)
    && Some(x[i].value) == Normalize(a[i], nfc) {
      assert m[i] == Member(ToUnits(keys[i]), a[i]);
    }
  }

  /**
   Objects with the same keys have the same normal form exactly if their values do, key by key, although the members
   were sorted.
   */
  lemma ObjectsAlike(keys: seq<string>, a: seq<Value>, b: seq<Value>, nfc: Form)
    requires |keys| == |a| == |b|
    requires Normalize(Object(Keyed(keys, a)), nfc).Some? && Normalize(Object(Keyed(keys, b)), nfc).Some?
    ensures Alike(Object(Keyed(keys, a)), Object(Keyed(keys, b)), nfc) <==> AllAlike(a, b, nfc)
  {
    var x := KeyedMembers(keys, a, nfc);
    var y := KeyedMembers(keys, b, nfc);
    SameKeys(keys, x, y, nfc);
    SortsDetermine(x, y);
    SameValues(a, b, x, y, nfc);
  }

  lemma SortsDetermine(x: seq<NMember<string>>, y: seq<NMember<string>>)
    requires |x| == |y| && DistinctNormalKeys(x) && DistinctNormalKeys(y)
    requires forall i :: 0 <= i < |x| ==> x[i].key == y[i].key
    ensures Sorting.Sort(x, KeyBytes) == Sorting.Sort(y, KeyBytes) <==> x == y
  {
    if Sorting.Sort(x, KeyBytes) == Sorting.Sort(y, KeyBytes) {
      SameSortSameMembers(x, y);
    }
  }

  lemma ValuesNormal(keys: seq<string>, a: seq<Value>, nfc: Form)
    requires |keys| == |a| && Normalize(Object(Keyed(keys, a)), nfc).Some?
    ensures forall i :: 0 <= i < |a| ==> Normalize(a[i], nfc).Some?
  {
    var x := KeyedMembers(keys, a, nfc);
  }

  lemma SameKeys(keys: seq<string>, x: seq<NMember<string>>, y: seq<NMember<string>>, nfc: Form)
    requires |x| == |y| == |keys|
    requires forall i :: 0 <= i < |keys| ==> Some(x[i].key) == NormalText(ToUnits(keys[i]), nfc)
    requires forall i :: 0 <= i < |keys| ==> Some(y[i].key) == NormalText(ToUnits(keys[i]), nfc)
    ensures forall i :: 0 <= i < |x| ==> x[i].key == y[i].key
  {
  }

  lemma SameValues(a: seq<Value>, b: seq<Value>, x: seq<NMember<string>>, y: seq<NMember<string>>, nfc: Form)
    requires |a| == |b| == |x| == |y| && forall i :: 0 <= i < |x| ==> x[i].key == y[i].key
    requires forall i :: 0 <= i < |a| ==> Some(x[i].value) == Normalize(a[i], nfc)
    requires forall i :: 0 <= i < |b| ==> Some(y[i].value) == Normalize(b[i], nfc)
    ensures x == y <==> AllAlike(a, b, nfc)
  {
    if x == y {
      forall i | 0 <= i < |a| ensures Alike(a[i], b[i], nfc) {
        assert x[i].value == y[i].value;
      }
    }
    if AllAlike(a, b, nfc) {
      forall i | 0 <= i < |x| ensures x[i] == y[i] {
        assert Alike(a[i], b[i], nfc);
      }
    }
  }

  lemma SameSortSameMembers(x: seq<NMember<string>>, y: seq<NMember<string>>)
    requires |x| == |y| && DistinctNormalKeys(x) && DistinctNormalKeys(y)
    requires forall i :: 0 <= i < |x| ==> x[i].key == y[i].key
    requires Sorting.Sort(x, KeyBytes) == Sorting.Sort(y, KeyBytes)
    ensures x == y
  {
    SameMultiset(x, y, Sorting.Sort(x, KeyBytes));
  }

  lemma SameMultiset(x: seq<NMember<string>>, y: seq<NMember<string>>, sorted: seq<NMember<string>>)
    requires |x| == |y| && DistinctNormalKeys(y)
    requires forall i :: 0 <= i < |x| ==> x[i].key == y[i].key
    requires multiset(x) == multiset(sorted) == multiset(y)
    ensures x == y
  {
    Sorting.SameElements(x, y);
    forall i | 0 <= i < |x| ensures x[i] == y[i] {
      assert x[i] in y;
      var j :| 0 <= j < |y| && y[j] == x[i];
      assert y[j].key == y[i].key;
    }
  }

  /** The two responses state the same facts, up to normalisation of their texts and rounding of their coordinates. */
  predicate SameFacts(f: Facts, g: Facts, nfc: Form)
  {
    nfc(f.profile) == nfc(g.profile) && nfc(f.policy) == nfc(g.policy) && nfc(f.frame) == nfc(g.frame)
    && SameUtc(f.utc, g.utc, nfc)
    && Coordinate(f.latitude, false) == Coordinate(g.latitude, false)
    && Coordinate(f.longitude, true) == Coordinate(g.longitude, true)
    && |f.bodies| == |g.bodies| && forall i :: 0 <= i < |f.bodies| ==> SamePosition(f.bodies[i], g.bodies[i], nfc)
  }

  predicate SameUtc(s: string, t: string, nfc: Form) {
    var a, b := Timestamp.PythonTimestamp(s), Timestamp.PythonTimestamp(t);
    a.Some? && b.Some? && nfc(a.value) == nfc(b.value)
  }

  predicate SamePosition(p: Position, q: Position, nfc: Form) {
    nfc(p.body) == nfc(q.body)
    && Scaled.PythonScaled(p.degrees, Scaled.Angle) == Scaled.PythonScaled(q.degrees, Scaled.Angle)
  }

  lemma BodiesAlike(p: Position, q: Position, labels: Labels, nfc: Form)
    requires Body(p, labels).Some? && Body(q, labels).Some?
    requires Normalize(Body(p, labels).value, nfc).Some? && Normalize(Body(q, labels).value, nfc).Some?
    ensures Alike(Body(p, labels).value, Body(q, labels).value, nfc) <==> SamePosition(p, q, nfc)
  {
    var m, n := Scaled.PythonScaled(p.degrees, Scaled.Angle).value, Scaled.PythonScaled(q.degrees, Scaled.Angle).value;
    PairsAlike(labels, p.body, q.body, m, n, nfc);
  }

  lemma PairsAlike(labels: Labels, s: string, t: string, m: int, n: int, nfc: Form)
    requires Normalize(Object(Keyed([labels.body, labels.unit], [Str(s), Int(m)])), nfc).Some?
    requires Normalize(Object(Keyed([labels.body, labels.unit], [Str(t), Int(n)])), nfc).Some?
    ensures Alike(Object(Keyed([labels.body, labels.unit], [Str(s), Int(m)])),
                Object(Keyed([labels.body, labels.unit], [Str(t), Int(n)])), nfc)
            <==> nfc(s) == nfc(t) && m == n
  {
    var a, b := [Str(s), Int(m)], [Str(t), Int(n)];
    ObjectsAlike([labels.body, labels.unit], a, b, nfc);
    ValuesNormal([labels.body, labels.unit], a, nfc);
    ValuesNormal([labels.body, labels.unit], b, nfc);
    TextsAlike(s, t, nfc);
    assert Normalize(a[1], nfc).Some? && Normalize(b[1], nfc).Some?;
    assert AllAlike(a, b, nfc) <==> Alike(a[0], b[0], nfc) && Alike(a[1], b[1], nfc);
  }

  lemma AllBodiesAlike(f: Facts, g: Facts, labels: Labels, nfc: Form, a: seq<Value>, b: seq<Value>)
    requires Bodies(f.bodies, labels) == Some(a) && Bodies(g.bodies, labels) == Some(b)
    requires Normalize(List(a), nfc).Some? && Normalize(List(b), nfc).Some?
    ensures Alike(List(a), List(b), nfc)
            <==> |f.bodies| == |g.bodies| && forall i :: 0 <= i < |f.bodies| ==>
              SamePosition(f.bodies[i], g.bodies[i], nfc)
  {
    ListsAlike(a, b, nfc);
    ListsAlike(b, a, nfc);
    if |a| == |b| {
      forall i | 0 <= i < |a| ensures Alike(a[i], b[i], nfc) <==> SamePosition(f.bodies[i], g.bodies[i], nfc) {
        assert Body(f.bodies[i], labels) == Some(a[i]) && Body(g.bodies[i], labels) == Some(b[i]);
        BodiesAlike(f.bodies[i], g.bodies[i], labels, nfc);
      }
    }
  }

  lemma WholesAlike(labels: Labels, v: seq<Value>, w: seq<Value>, nfc: Form)
    requires |labels.keys| == |v| == |w| && Normalize(Whole(labels, v), nfc).Some?
             && Normalize(Whole(labels, w), nfc).Some?
    ensures Alike(Whole(labels, v), Whole(labels, w), nfc) <==> AllAlike(v, w, nfc)
    ensures forall i :: 0 <= i < |v| ==> Normalize(v[i], nfc).Some? && Normalize(w[i], nfc).Some?
  {
    var a, b := Whole(labels, v).items, Whole(labels, w).items;
    ListsAlike(a, b, nfc);
    ListsAlike(b, a, nfc);
    assert Normalize(a[2], nfc).Some? && Normalize(b[2], nfc).Some?;
    ObjectsAlike(labels.keys, v, w, nfc);
    ValuesNormal(labels.keys, v, nfc);
    ValuesNormal(labels.keys, w, nfc);
    assert a[0] == b[0] && a[1] == b[1];
    assert AllAlike(a, b, nfc) <==> Alike(a[2], b[2], nfc);
  }

  lemma EightAlike(v: seq<Value>, w: seq<Value>, nfc: Form)
    requires |v| == |w| == 8
    ensures AllAlike(v, w, nfc)
            <==> Alike(v[0], w[0], nfc) && Alike(v[1], w[1], nfc) && Alike(v[2], w[2], nfc) && Alike(v[3], w[3], nfc)
                 && Alike(v[4], w[4], nfc) && Alike(v[5], w[5], nfc) && Alike(v[6], w[6], nfc) && Alike(v[7], w[7], nfc)
  {
  }

  /** The values of two contents are pairwise alike exactly if the facts are the same. */
  lemma ValuesAlike(labels: Labels, f: Facts, g: Facts, nfc: Form, v: seq<Value>, w: seq<Value>, a: seq<Value>,
                    b: seq<Value>)
    requires |v| == |w| == 8 && SeenIn(labels, f, v, a) && SeenIn(labels, g, w, b)
    requires forall i :: 0 <= i < 8 ==> Normalize(v[i], nfc).Some? && Normalize(w[i], nfc).Some?
    ensures AllAlike(v, w, nfc) <==> SameFacts(f, g, nfc)
  {
    var s, t := Timestamp.PythonTimestamp(f.utc).value, Timestamp.PythonTimestamp(g.utc).value;
    FieldsAlike(labels, f, g, nfc, v, w, a, b, s, t,
                Coordinate(f.latitude, false).value, Coordinate(g.latitude, false).value,
                Coordinate(f.longitude, true).value, Coordinate(g.longitude, true).value);
    AllBodiesAlike(f, g, labels, nfc, a, b);
  }

  lemma FieldsAlike(labels: Labels, f: Facts, g: Facts, nfc: Form, v: seq<Value>, w: seq<Value>, a: seq<Value>,
                    b: seq<Value>, s: string, t: string, m: int, m': int, n: int, n': int)
    requires v == Values(labels, f, s, m, n, a) && w == Values(labels, g, t, m', n', b)
    requires forall i :: 0 <= i < 8 ==> Normalize(v[i], nfc).Some? && Normalize(w[i], nfc).Some?
    ensures AllAlike(v, w, nfc)
            <==> nfc(f.profile) == nfc(g.profile) && nfc(f.policy) == nfc(g.policy) && nfc(s) == nfc(t)
                 && m == m' && n == n' && nfc(f.frame) == nfc(g.frame) && Alike(List(a), List(b), nfc)
    ensures Normalize(List(a), nfc).Some? && Normalize(List(b), nfc).Some?
  {
    EightAlike(v, w, nfc);
    assert Alike(v[0], w[0], nfc);
    TextsAlike(f.profile, g.profile, nfc);
    TextsAlike(f.policy, g.policy, nfc);
    TextsAlike(s, t, nfc);
    TextsAlike(f.frame, g.frame, nfc);
    IntsAlike(v[4], w[4], nfc);
    IntsAlike(v[5], w[5], nfc);
    assert v[7] == List(a) && w[7] == List(b);
  }

  lemma IntsAlike(v: Value, w: Value, nfc: Form)
    requires v.Num? && v.n.Integer? && w.Num? && w.n.Integer? && Normalize(v, nfc).Some? && Normalize(w, nfc).Some?
    ensures Alike(v, w, nfc) <==> v == w
  {
  }

  predicate SeenIn(labels: Labels, f: Facts, v: seq<Value>, bodies: seq<Value>) {
    Timestamp.PythonTimestamp(f.utc).Some? && Coordinate(f.latitude, false).Some? && Coordinate(f.longitude, true).Some?
    && Bodies(f.bodies, labels) == Some(bodies)
    && v == Values(labels, f, Timestamp.PythonTimestamp(f.utc).value, Coordinate(f.latitude, false).value,
                   Coordinate(f.longitude, true).value, bodies)
  }

  lemma ContentValues(f: Facts, labels: Labels) returns (v: seq<Value>, bodies: seq<Value>)
    requires |labels.keys| == 8 && Content(f, labels).Some?
    ensures |v| == 8 && SeenIn(labels, f, v, bodies) && Content(f, labels) == Some(Whole(labels, v))
  {
    bodies := Bodies(f.bodies, labels).value;
    v := Values(labels, f, Timestamp.PythonTimestamp(f.utc).value, Coordinate(f.latitude, false).value,
                Coordinate(f.longitude, true).value, bodies);
  }

  /** Two responses have the same content bytes exactly if they state the same facts. */
  lemma SameBytesIffSameFacts(f: Facts, g: Facts, labels: Labels, nfc: Form)
    requires |labels.keys| == 8 && Bytes(f, labels, nfc).Some? && Bytes(g, labels, nfc).Some?
    ensures Bytes(f, labels, nfc) == Bytes(g, labels, nfc) <==> SameFacts(f, g, nfc)
  {
    var v, a := ContentValues(f, labels);
    var w, b := ContentValues(g, labels);
    SameBytesIffSameNormal(Whole(labels, v), Whole(labels, w), nfc);
    WholesAlike(labels, v, w, nfc);
    ValuesAlike(labels, f, g, nfc, v, w, a, b);
  }

  /** NFC leaves texts without characters above 0x7F alone. */
  ghost predicate KeepsAscii(nfc: Form) { forall s: string {:trigger nfc(s)} :: IsAscii(s) ==> nfc(s) == s }

  predicate IsAscii(s: string) { forall i :: 0 <= i < |s| ==> s[i] as int < 0x80 }

  lemma PaddedAscii(n: nat, w: nat)
    ensures IsAscii(Padded(n, w))
  {
    assert AllDigits(Padded(n, w));
    forall i | 0 <= i < w ensures Padded(n, w)[i] as int < 0x80 {
      assert IsDigit(Padded(n, w)[i]);
    }
  }

  /** The times of two responses count as the same exactly if they are the same microsecond. */
  lemma SameUtcIsSameInstant(s: string, t: string, nfc: Form)
    requires KeepsAscii(nfc) && Timestamp.PythonTimestamp(s).Some? && Timestamp.PythonTimestamp(t).Some?
    ensures Timestamp.Shaped(s) && Timestamp.Shaped(t)
    ensures Timestamp.Valid(Timestamp.Fields(s)) && Timestamp.Valid(Timestamp.Fields(t))
    ensures SameUtc(s, t, nfc) <==> Timestamp.Instant(Timestamp.Fields(s)) == Timestamp.Instant(Timestamp.Fields(t))
  {
    Timestamp.TimestampIdempotent(s);
    Timestamp.TimestampIdempotent(t);
    var a, b := Timestamp.Fields(s), Timestamp.Fields(t);
    PrintAscii(a);
    PrintAscii(b);
    Timestamp.SupportedYears(a);
    Timestamp.SupportedYears(b);
    Timestamp.PrintParses(a);
    Timestamp.PrintParses(b);
    InstantDetermines(a, b);
  }

  lemma InstantDetermines(a: Timestamp.Stamp, b: Timestamp.Stamp)
    requires Timestamp.Valid(a) && Timestamp.Valid(b)
    ensures Timestamp.Instant(a) == Timestamp.Instant(b) <==> a == b
  {
    Calendar.FieldsRoundTrip(a.date, a.time, Timestamp.Instant(b));
    Calendar.FieldsRoundTrip(b.date, b.time, Timestamp.Instant(a));
  }

  lemma PrintAscii(st: Timestamp.Stamp)
    requires 0 <= st.date.year && 0 <= st.date.month && 0 <= st.date.day && Calendar.ValidTime(st.time)
    ensures IsAscii(Timestamp.Print(st))
  {
    PaddedAscii(st.date.year, 4);
    PaddedAscii(st.date.month, 2);
    PaddedAscii(st.date.day, 2);
    PaddedAscii(st.time.hour, 2);
    PaddedAscii(st.time.minute, 2);
    PaddedAscii(st.time.second, 2);
    PaddedAscii(st.time.micro, 6);
  }
}
