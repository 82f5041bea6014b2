/** The content of a Lahiri response: the tropical content is parsed back, edited, and encoded again. */
module LahiriContent {
  import opened Results
  import opened Json
  import opened Unicode
  import opened Canonical
  import opened PassportContent
  import opened PassportBytes
  import LongitudeText
  import Projection
  import Scaled
  import Sorting
  import Timestamp

  /** What a Lahiri response contributes: the tropical facts and the texts of two angles. */
  datatype Lahiri = Lahiri(tropical: Facts, ayanamsha: string, moon: string)

  /** The fixed texts of the edit: what replaces form, schema and profile, and the added object's key and members. */
  datatype Names = Names(form: string, schema: string, profile: string, sidereal: string, keys: seq<string>,
                         system: string, mode: int, policy: string, kind: string)

  const NAMES := Names("apt.sun-moon-lahiri-content.v1-mvp", "APTCanonicalLahiriContent.v1-mvp",
    "sun-moon-lahiri.v1-mvp", "sidereal",
    ["system", "swiss_sidereal_mode", "policy", "ayanamsha_kind", "ayanamsha_e9", "moon_longitude_e9"],
    "lahiri", 1, "swiss-lahiri-apparent-moon.v1-mvp", "true-including-nutation")

  // ---- the edit ----

  /** Assignment to a key of a dictionary: in place if the key is there, otherwise at the end. */
  function Put(members: seq<Member>, key: seq<Unit>, value: Value): seq<Member> {
    if members == [] then [Member(key, value)]
    else if members[0].key == key then [Member(key, value)] + members[1..]
    else [members[0]] + Put(members[1..], key, value)
  }

  function SiderealValues(names: Names, ayanamsha: int, moon: int): (r: seq<Value>)
    ensures |r| == 6
  {
    [Str(names.system), Int(names.mode), Str(names.policy), Str(names.kind), Int(ayanamsha), Int(moon)]
  }

  function Sidereal(names: Names, ayanamsha: int, moon: int): Value
    requires |names.keys| == 6
  {
    Object(Keyed(names.keys, SiderealValues(names, ayanamsha, moon)))
  }

  /** content.update(...) and content["sidereal"] = ... */
  function Edited(members: seq<Member>, labels: Labels, names: Names, sidereal: Value): seq<Member>
    requires |labels.keys| == 8
  {
    Put(Put(Put(members, ToUnits(labels.keys[0]), Str(names.schema)), ToUnits(labels.keys[1]), Str(names.profile)),
        ToUnits(names.sidereal), sidereal)
  }

  /** json.loads(...)[2], as a dictionary. */
  function Third(bytes: seq<int>): Option<seq<Member>> {
    match ParseBytes(bytes) case None => None case Some(n) => ThirdItem(n)
  }

  function ThirdItem(n: Norm<string>): Option<seq<Member>> {
    if n.NList? && |n.items| > 2 && n.items[2].NObject? then Some(EmbedMembers(n.items[2].members)) else None
  }

  /** The tropical content, parsed back from its bytes. */
  function Parsed(f: Facts, labels: Labels, nfc: Form): Option<seq<Member>>
    requires |labels.keys| == 8
  {
    match Bytes(f, labels, nfc) case None => None case Some(b) => Third(b)
  }

  /** lahiri_content */
  function LahiriBytes(l: Lahiri, labels: Labels, names: Names, nfc: Form): Option<seq<int>>
    requires |labels.keys| == 8 && |names.keys| == 6
  {
    match (Parsed(l.tropical, labels, nfc), Scaled.PythonScaled(l.ayanamsha, Scaled.Angle),
           Scaled.PythonScaled(l.moon, Scaled.Angle))
    case (Some(content), Some(a), Some(m)) =>
      Encode(Listed(labels, names, Edited(content, labels, names, Sidereal(names, a, m))), nfc)
    case _ => None
  }

  function Listed(labels: Labels, names: Names, content: seq<Member>): Value {
    List([Str(labels.header), Str(names.form), Object(content)])
  }

  // ---- the same content written directly ----

  function DirectLabels(labels: Labels, names: Names): Labels {
    labels.(form := names.form, schema := names.schema, keys := labels.keys + [names.sidereal])
  }

  function DirectValues(v: seq<Value>, names: Names, sidereal: Value): (r: seq<Value>)
    requires |v| == 8
    ensures |r| == 9
  {
    v[0 := Str(names.schema)][1 := Str(names.profile)] + [sidereal]
  }

  /** Keys that NFC leaves alone and tells apart, on both levels. */
  predicate UsableNames(labels: Labels, names: Names) {
    Usable(labels) && |names.keys| == 6 && Apart(labels.keys + [names.sidereal]) && Apart(names.keys)
    && -SAFE <= names.mode <= SAFE
  }

  lemma {:induction false} PutMembers(s: seq<Member>, key: seq<Unit>, value: Value, m: Member)
    requires DistinctRawKeys(s)
    ensures m in Put(s, key, value) <==> m == Member(key, value) || (m in s && m.key != key)
  {
    if s != [] {
      assert s == [s[0]] + s[1..];
      assert forall x :: x in s[1..] ==> x.key != s[0].key;
      if s[0].key != key {
        PutMembers(s[1..], key, value, m);
      }
    }
  }

  lemma {:induction false} PutDistinct(s: seq<Member>, key: seq<Unit>, value: Value)
    requires DistinctRawKeys(s)
    ensures DistinctRawKeys(Put(s, key, value))
  {
    if s != [] && s[0].key != key {
      PutDistinct(s[1..], key, value);
      var rest := Put(s[1..], key, value);
      forall i | 0 <= i < |rest| ensures rest[i].key != s[0].key {
        PutMembers(s[1..], key, value, rest[i]);
        assert rest[i] in rest;
      }
    }
  }

  /** The same assignment keeps two dictionaries alike. */
  lemma PutCovered(a: seq<Member>, b: seq<Member>, key: seq<Unit>, value: Value, nfc: Form)
    requires DistinctRawKeys(a) && DistinctRawKeys(b) && Covered(a, b, nfc)
    ensures Covered(Put(a, key, value), Put(b, key, value), nfc)
  {
    var x, y := Put(a, key, value), Put(b, key, value);
    forall i | 0 <= i < |x| ensures HasMatch(x[i], y, nfc) {
      PutMembers(a, key, value, x[i]);
      assert x[i] in x;
      if x[i] == Member(key, value) {
        PutMembers(b, key, value, x[i]);
        IsMatched(x[i], x[i], y, nfc);
      } else {
        var k :| 0 <= k < |a| && a[k] == x[i];
        assert HasMatch(a[k], b, nfc);
        var j :| 0 <= j < |b| && Matches(a[k], b[j], nfc);
        PutMembers(b, key, value, b[j]);
        IsMatched(x[i], b[j], y, nfc);
      }
    }
  }

  lemma IsMatched(m: Member, other: Member, others: seq<Member>, nfc: Form)
    requires other in others && Matches(m, other, nfc)
    ensures HasMatch(m, others, nfc)
  {
    var j :| 0 <= j < |others| && others[j] == other;
    assert Matches(m, others[j], nfc);
  }

  /** Dictionaries with the same keys and alike values. */
  ghost predicate SameDict(a: seq<Member>, b: seq<Member>, nfc: Form) {
    DistinctRawKeys(a) && DistinctRawKeys(b) && Covered(a, b, nfc) && Covered(b, a, nfc)
  }

  lemma PutSame(a: seq<Member>, b: seq<Member>, key: seq<Unit>, value: Value, nfc: Form)
    requires SameDict(a, b, nfc)
    ensures SameDict(Put(a, key, value), Put(b, key, value), nfc)
  {
    PutDistinct(a, key, value);
    PutDistinct(b, key, value);
    PutCovered(a, b, key, value, nfc);
    PutCovered(b, a, key, value, nfc);
  }

  lemma EditedSame(a: seq<Member>, b: seq<Member>, labels: Labels, names: Names, sidereal: Value, nfc: Form)
    requires |labels.keys| == 8 && SameDict(a, b, nfc)
    ensures SameDict(Edited(a, labels, names, sidereal), Edited(b, labels, names, sidereal), nfc)
  {
    var k0, k1 := ToUnits(labels.keys[0]), ToUnits(labels.keys[1]);
    PutSame(a, b, k0, Str(names.schema), nfc);
    var a', b' := Put(a, k0, Str(names.schema)), Put(b, k0, Str(names.schema));
    PutSame(a', b', k1, Str(names.profile), nfc);
    PutSame(Put(a', k1, Str(names.profile)), Put(b', k1, Str(names.profile)), ToUnits(names.sidereal), sidereal, nfc);
  }

  /** Assignment to a key that stands at i, or nowhere. */
  lemma {:induction false} PutAt(s: seq<Member>, key: seq<Unit>, value: Value, i: nat)
    requires i <= |s| && (i < |s| ==> s[i].key == key) && forall j :: 0 <= j < i ==> s[j].key != key
    ensures Put(s, key, value) == if i < |s| then s[i := Member(key, value)] else s + [Member(key, value)]
  {
    if s != [] && i > 0 {
      PutAt(s[1..], key, value, i - 1);
    }
  }

  lemma KeysApart(keys: seq<string>, values: seq<Value>)
    requires |keys| == |values| && Apart(keys)
    ensures DistinctRawKeys(Keyed(keys, values))
    ensures forall i, j :: 0 <= i < j < |keys| ==> ToUnits(keys[i]) != ToUnits(keys[j])
  {
    forall i, j | 0 <= i < j < |keys| ensures ToUnits(keys[i]) != ToUnits(keys[j]) {
      if ToUnits(keys[i]) == ToUnits(keys[j]) {
        ToUnitsInjective(keys[i], keys[j]);
      }
    }
  }

  lemma PutKeyed(keys: seq<string>, values: seq<Value>, i: nat, value: Value)
    requires |keys| == |values| && i < |keys| && Apart(keys)
    ensures Put(Keyed(keys, values), ToUnits(keys[i]), value) == Keyed(keys, values[i := value])
  {
    KeysApart(keys, values);
    PutAt(Keyed(keys, values), ToUnits(keys[i]), value, i);
  }

  lemma PutNew(keys: seq<string>, values: seq<Value>, key: string, value: Value)
    requires |keys| == |values| && Apart(keys + [key])
    ensures Put(Keyed(keys, values), ToUnits(key), value) == Keyed(keys + [key], values + [value])
  {
    KeysApart(keys + [key], values + [value]);
    assert forall j :: 0 <= j < |keys| ==> (keys + [key])[j] == keys[j];
    assert (keys + [key])[|keys|] == key;
    PutAt(Keyed(keys, values), ToUnits(key), value, |keys|);
  }

  /** Edited in the order it was written, the content is the one written directly. */
  lemma EditedKeyed(v: seq<Value>, labels: Labels, names: Names, sidereal: Value)
    requires |v| == 8 && UsableNames(labels, names)
    ensures Edited(Keyed(labels.keys, v), labels, names, sidereal)
            == Keyed(DirectLabels(labels, names).keys, DirectValues(v, names, sidereal))
  {
    PutKeyed(labels.keys, v, 0, Str(names.schema));
    PutKeyed(labels.keys, v[0 := Str(names.schema)], 1, Str(names.profile));
    PutNew(labels.keys, v[0 := Str(names.schema)][1 := Str(names.profile)], names.sidereal, sidereal);
  }

  lemma {:induction false} EmbedAt(members: seq<NMember<string>>, i: nat)
    requires i < |members|
    ensures EmbedMembers(members)[i] == EmbedMember(members[i])
  {
    if i < |members| - 1 {
      EmbedAt(members[..|members| - 1], i);
    }
  }

  /** What was parsed back is, as a dictionary, what was written. */
  lemma ParsedSame(keys: seq<string>, values: seq<Value>, sorted: seq<NMember<string>>, nfc: Form)
    requires KeepsAscii(nfc) && Idempotent(nfc) && Apart(keys) && |keys| == |values|
    requires Normalize(Object(Keyed(keys, values)), nfc) == Some(NObject(sorted))
    ensures SameDict(EmbedMembers(sorted), Keyed(keys, values), nfc)
  {
    var x := KeyedMembers(keys, values, nfc);
    KeysApart(keys, values);
    NormalizeIsNormal(Object(Keyed(keys, values)), nfc);
    Sorting.SameElements(sorted, x);
    EmbeddedDistinct(sorted);
    forall i | 0 <= i < |keys| ensures x[i].key == keys[i] {
      UnitsRoundTrip(keys[i]);
    }
    EmbeddedCovered(keys, values, sorted, x, nfc);
    KeyedCovered(keys, values, sorted, x, nfc);
  }

  lemma EmbeddedDistinct(sorted: seq<NMember<string>>)
    requires Sorting.Ascending(sorted, KeyBytes)
    ensures DistinctRawKeys(EmbedMembers(sorted))
  {
    AscendingIsDistinct(sorted);
    forall i, j | 0 <= i < j < |sorted| ensures EmbedMembers(sorted)[i].key != EmbedMembers(sorted)[j].key {
      EmbedAt(sorted, i);
      EmbedAt(sorted, j);
      if ToUnits(sorted[i].key) == ToUnits(sorted[j].key) {
        ToUnitsInjective(sorted[i].key, sorted[j].key);
      }
    }
  }

  /** The normal members x of the keyed values, in their first order, and sorted. */
  ghost predicate Stand(keys: seq<string>, values: seq<Value>, sorted: seq<NMember<string>>, x: seq<NMember<string>>,
                        nfc: Form) {
    |keys| == |values| == |x|
    && (forall i :: 0 <= i < |x| ==> x[i].key == keys[i] && Some(x[i].value) == Normalize(values[i], nfc))
    && (forall m :: m in sorted <==> m in x)
    && forall i :: 0 <= i < |sorted| ==> nfc(sorted[i].key) == sorted[i].key && Normal(sorted[i].value, nfc)
  }

  lemma EmbeddedCovered(keys: seq<string>, values: seq<Value>, sorted: seq<NMember<string>>, x: seq<NMember<string>>,
                        nfc: Form)
    requires Stand(keys, values, sorted, x, nfc)
    ensures Covered(EmbedMembers(sorted), Keyed(keys, values), nfc)
  {
    forall i | 0 <= i < |sorted| ensures HasMatch(EmbedMembers(sorted)[i], Keyed(keys, values), nfc) {
      EmbedAt(sorted, i);
      assert sorted[i] in x;
      var j :| 0 <= j < |x| && x[j] == sorted[i];
      NormalMemberFixed(sorted[i], nfc);
      IsMatched(EmbedMembers(sorted)[i], Keyed(keys, values)[j], Keyed(keys, values), nfc);
    }
  }

  lemma KeyedCovered(keys: seq<string>, values: seq<Value>, sorted: seq<NMember<string>>, x: seq<NMember<string>>,
                     nfc: Form)
    requires Stand(keys, values, sorted, x, nfc)
    ensures Covered(Keyed(keys, values), EmbedMembers(sorted), nfc)
  {
    forall i | 0 <= i < |keys| ensures HasMatch(Keyed(keys, values)[i], EmbedMembers(sorted), nfc) {
      assert x[i] in sorted;
      var j :| 0 <= j < |sorted| && sorted[j] == x[i];
      EmbedAt(sorted, j);
      NormalMemberFixed(sorted[j], nfc);
      IsMatched(Keyed(keys, values)[i], EmbedMembers(sorted)[j], EmbedMembers(sorted), nfc);
    }
  }

  lemma ListedAlike(labels: Labels, names: Names, a: seq<Member>, b: seq<Member>, nfc: Form)
    requires SameDict(a, b, nfc)
    ensures Encode(Listed(labels, names, a), nfc) == Encode(Listed(labels, names, b), nfc)
  {
    SameMembers(a, b, nfc);
    SameItems(Listed(labels, names, a).items, Listed(labels, names, b).items, nfc);
  }

  /** What the tropical bytes parse to is, as a dictionary, the content that was encoded. */
  lemma ParsedContent(f: Facts, labels: Labels, nfc: Form, v: seq<Value>) returns (content: seq<Member>)
    requires KeepsAscii(nfc) && Idempotent(nfc) && Usable(labels) && |v| == 8
    requires Content(f, labels) == Some(Whole(labels, v)) && Bytes(f, labels, nfc).Some?
    ensures Parsed(f, labels, nfc) == Some(content) && SameDict(content, Keyed(labels.keys, v), nfc)
  {
    content := WrittenContent(Whole(labels, v), labels, nfc, v);
  }

  lemma WrittenContent(w: Value, labels: Labels, nfc: Form, v: seq<Value>) returns (content: seq<Member>)
    requires KeepsAscii(nfc) && Idempotent(nfc) && Apart(labels.keys) && |v| == |labels.keys|
    requires w == Whole(labels, v) && Encode(w, nfc).Some?
    ensures Third(Encode(w, nfc).value) == Some(content) && SameDict(content, Keyed(labels.keys, v), nfc)
  {
    ParsedBack(w, nfc);
    var sorted := ThreeItems(labels, v, nfc);
    ThirdOfThree(NText(nfc(labels.header)), NText(nfc(labels.form)), sorted);
    ParsedSame(labels.keys, v, sorted, nfc);
    content := EmbedMembers(sorted);
  }

  lemma ThirdOfThree(x: Norm<string>, y: Norm<string>, members: seq<NMember<string>>)
    ensures ThirdItem(NList([x, y, NObject(members)])) == Some(EmbedMembers(members))
  {
  }

  lemma EditedAlike(content: seq<Member>, labels: Labels, names: Names, v: seq<Value>, sidereal: Value, nfc: Form)
    requires UsableNames(labels, names) && |v| == 8 && SameDict(content, Keyed(labels.keys, v), nfc)
    ensures Encode(Listed(labels, names, Edited(content, labels, names, sidereal)), nfc)
            == Encode(Whole(DirectLabels(labels, names), DirectValues(v, names, sidereal)), nfc)
  {
    var written := Keyed(labels.keys, v);
    EditedSame(content, written, labels, names, sidereal, nfc);
    EditedKeyed(v, labels, names, sidereal);
    ListedAlike(labels, names, Edited(content, labels, names, sidereal), Edited(written, labels, names, sidereal), nfc);
  }

  /** Parsing the tropical content back, editing and encoding it gives the bytes of the content written directly. */
  lemma EditIsDirect(l: Lahiri, labels: Labels, names: Names, nfc: Form, v: seq<Value>, a: int, m: int)
    requires KeepsAscii(nfc) && Idempotent(nfc) && UsableNames(labels, names) && |v| == 8
    requires Content(l.tropical, labels) == Some(Whole(labels, v)) && Bytes(l.tropical, labels, nfc).Some?
    requires Scaled.PythonScaled(l.ayanamsha, Scaled.Angle) == Some(a)
    requires Scaled.PythonScaled(l.moon, Scaled.Angle) == Some(m)
    ensures LahiriBytes(l, labels, names, nfc)
            == Encode(Whole(DirectLabels(labels, names), DirectValues(v, names, Sidereal(names, a, m))), nfc)
  {
    var content := ParsedContent(l.tropical, labels, nfc, v);
    EditedAlike(content, labels, names, v, Sidereal(names, a, m), nfc);
  }

  // ---- what the bytes determine ----

  /** The facts that stay in a Lahiri content: everything but the profile, which is replaced. */
  function Kept(f: Facts, names: Names): Facts { f.(profile := names.profile) }

  /** Two Lahiri responses state the same: the tropical facts but the profile, and both angles in their units. */
  predicate SameLahiri(l: Lahiri, k: Lahiri, nfc: Form) {
    SameFacts(l.tropical.(profile := k.tropical.profile), k.tropical, nfc)
    && Scaled.PythonScaled(l.ayanamsha, Scaled.Angle) == Scaled.PythonScaled(k.ayanamsha, Scaled.Angle)
    && Scaled.PythonScaled(l.moon, Scaled.Angle) == Scaled.PythonScaled(k.moon, Scaled.Angle)
  }

  /** The accepted angles of a Lahiri response in their units. */
  predicate Angles(l: Lahiri, a: int, m: int) {
    Scaled.PythonScaled(l.ayanamsha, Scaled.Angle) == Some(a) && Scaled.PythonScaled(l.moon, Scaled.Angle) == Some(m)
    && 0 <= a < 360_000_000_000 && 0 <= m < 360_000_000_000
  }

  lemma SiderealAccepted(labels: Labels, names: Names, a: int, m: int, nfc: Form)
    requires KeepsAscii(nfc) && UsableNames(labels, names) && 0 <= a < 360_000_000_000 && 0 <= m < 360_000_000_000
    ensures Accepted(Sidereal(names, a, m), nfc)
  {
    TextAccepted(names.system, nfc);
    TextAccepted(names.policy, nfc);
    TextAccepted(names.kind, nfc);
    KeyedAccepted(names.keys, SiderealValues(names, a, m), nfc);
  }

  lemma SiderealAlike(names: Names, a: int, m: int, a': int, m': int, nfc: Form)
    requires |names.keys| == 6 && Accepted(Sidereal(names, a, m), nfc) && Accepted(Sidereal(names, a', m'), nfc)
    ensures Alike(Sidereal(names, a, m), Sidereal(names, a', m'), nfc) <==> a == a' && m == m'
  {
    var x, y := SiderealValues(names, a, m), SiderealValues(names, a', m');
    ObjectsAlike(names.keys, x, y, nfc);
    ValuesNormal(names.keys, x, nfc);
    ValuesNormal(names.keys, y, nfc);
    SixAlike(x, y, nfc);
    assert Normalize(x[4], nfc).Some? && Normalize(x[5], nfc).Some?;
    assert Normalize(y[4], nfc).Some? && Normalize(y[5], nfc).Some?;
    IntsAlike(x[4], y[4], nfc);
    IntsAlike(x[5], y[5], nfc);
  }

  lemma SixAlike(x: seq<Value>, y: seq<Value>, nfc: Form)
    requires |x| == |y| == 6 && forall i :: 0 <= i < 4 ==> x[i] == y[i]
    ensures AllAlike(x, y, nfc) <==> Alike(x[4], y[4], nfc) && Alike(x[5], y[5], nfc)
  {
  }

  lemma LastAlike(v: seq<Value>, w: seq<Value>, x: Value, y: Value, nfc: Form)
    requires |v| == |w|
    ensures AllAlike(v + [x], w + [y], nfc) <==> AllAlike(v, w, nfc) && Alike(x, y, nfc)
  {
    var a, b := v + [x], w + [y];
    assert a[|v|] == x && b[|v|] == y;
    assert forall i :: 0 <= i < |v| ==> a[i] == v[i] && b[i] == w[i];
  }

  lemma {:induction false} SameBodies(ps: seq<Position>, labels: Labels, other: Labels)
    requires labels.body == other.body && labels.unit == other.unit
    ensures Bodies(ps, labels) == Bodies(ps, other)
  {
    if ps != [] {
      SameBodies(ps[1..], labels, other);
    }
  }

  /** The edited values are those of the facts with the profile replaced. */
  lemma EditedValues(f: Facts, labels: Labels, names: Names, s: string, m: int, n: int, bodies: seq<Value>)
    ensures Values(labels, f, s, m, n, bodies)[0 := Str(names.schema)][1 := Str(names.profile)]
            == Values(DirectLabels(labels, names), Kept(f, names), s, m, n, bodies)
  {
  }

  lemma KeptValues(f: Facts, g: Facts, labels: Labels, direct: Labels, names: Names, v: seq<Value>,
                   bodies: seq<Value>)
    requires |v| == 8 && SeenIn(labels, f, v, bodies)
    requires direct == DirectLabels(labels, names) && g == Kept(f, names)
    ensures SeenIn(direct, g, v[0 := Str(names.schema)][1 := Str(names.profile)], bodies)
  {
    SameBodies(f.bodies, labels, direct);
    var s, m, n := Timestamp.PythonTimestamp(f.utc).value, Coordinate(f.latitude, false).value,
        Coordinate(f.longitude, true).value;
    EditedValues(f, labels, names, s, m, n, bodies);
    assert g.utc == f.utc && g.latitude == f.latitude && g.longitude == f.longitude && g.bodies == f.bodies;
  }

  lemma ProfileReplaced(f: Facts, g: Facts, names: Names, nfc: Form)
    ensures SameFacts(Kept(f, names), Kept(g, names), nfc) <==> SameFacts(f.(profile := g.profile), g, nfc)
  {
  }

  /** Everything about one accepted Lahiri response: the values it was written from, and that it is encoded. */
  ghost predicate Written(l: Lahiri, labels: Labels, names: Names, nfc: Form, v: seq<Value>, bodies: seq<Value>, a: int,
                          m: int)
    requires UsableNames(labels, names)
  {
    |v| == 8 && SeenIn(labels, l.tropical, v, bodies) && AllAccepted(v, nfc)
    && Angles(l, a, m) && Accepted(Sidereal(names, a, m), nfc)
    && AcceptedDirectly(v, labels, names, Sidereal(names, a, m), nfc)
    && LahiriBytes(l, labels, names, nfc)
       == Encode(Whole(DirectLabels(labels, names), DirectValues(v, names, Sidereal(names, a, m))), nfc)
  }

  predicate AllAccepted(v: seq<Value>, nfc: Form) { forall i :: 0 <= i < |v| ==> Accepted(v[i], nfc) }

  predicate AcceptedDirectly(v: seq<Value>, labels: Labels, names: Names, sidereal: Value, nfc: Form)
    requires |v| == |labels.keys| == 8
  {
    Accepted(Whole(DirectLabels(labels, names), DirectValues(v, names, sidereal)), nfc)
  }

  lemma DirectAccepted(v: seq<Value>, labels: Labels, names: Names, sidereal: Value, nfc: Form)
    requires KeepsAscii(nfc) && UsableNames(labels, names) && |v| == 8
    requires Accepted(sidereal, nfc) && forall i :: 0 <= i < 8 ==> Accepted(v[i], nfc)
    ensures AcceptedDirectly(v, labels, names, sidereal, nfc)
  {
    TextAccepted(names.schema, nfc);
    TextAccepted(names.profile, nfc);
    WholeAccepted(DirectLabels(labels, names), DirectValues(v, names, sidereal), nfc);
  }

  lemma WrittenFrom(l: Lahiri, labels: Labels, names: Names, nfc: Form, a: int, m: int)
    returns (v: seq<Value>, bodies: seq<Value>)
    requires KeepsAscii(nfc) && Idempotent(nfc) && UsableNames(labels, names) && Angles(l, a, m)
    requires Content(l.tropical, labels).Some? && Bytes(l.tropical, labels, nfc).Some?
    ensures Written(l, labels, names, nfc, v, bodies, a, m)
  {
    v, bodies := ContentValues(l.tropical, labels);
    WholesAlike(labels, v, v, nfc);
    SiderealAccepted(labels, names, a, m, nfc);
    DirectAccepted(v, labels, names, Sidereal(names, a, m), nfc);
    EditIsDirect(l, labels, names, nfc, v, a, m);
  }

  /** Two encoded Lahiri responses have the same bytes exactly if they state the same. */
  lemma SameBytesIffSameLahiri(l: Lahiri, k: Lahiri, labels: Labels, names: Names, nfc: Form, v: seq<Value>,
                               w: seq<Value>, bodies: seq<Value>, bodies': seq<Value>, a: int, m: int, a': int,
                               m': int)
    requires UsableNames(labels, names)
    requires Written(l, labels, names, nfc, v, bodies, a, m) && Written(k, labels, names, nfc, w, bodies', a', m')
    ensures LahiriBytes(l, labels, names, nfc).Some? && LahiriBytes(k, labels, names, nfc).Some?
    ensures LahiriBytes(l, labels, names, nfc) == LahiriBytes(k, labels, names, nfc) <==> SameLahiri(l, k, nfc)
  {
    var x, y := Sidereal(names, a, m), Sidereal(names, a', m');
    SiderealAlike(names, a, m, a', m', nfc);
    DirectBytes(l.tropical, k.tropical, labels, names, nfc, v, w, bodies, bodies', x, y);
    assert SameLahiri(l, k, nfc)
           <==> SameFacts(l.tropical.(profile := k.tropical.profile), k.tropical, nfc) && a == a' && m == m';
  }

  lemma DirectBytes(f: Facts, g: Facts, labels: Labels, names: Names, nfc: Form, v: seq<Value>, w: seq<Value>,
                    bodies: seq<Value>, bodies': seq<Value>, x: Value, y: Value)
    requires |v| == |w| == |labels.keys| == 8 && SeenIn(labels, f, v, bodies) && SeenIn(labels, g, w, bodies')
    requires AcceptedDirectly(v, labels, names, x, nfc) && AcceptedDirectly(w, labels, names, y, nfc)
    ensures Encode(Whole(DirectLabels(labels, names), DirectValues(v, names, x)), nfc)
            == Encode(Whole(DirectLabels(labels, names), DirectValues(w, names, y)), nfc)
            <==> SameFacts(f.(profile := g.profile), g, nfc) && Alike(x, y, nfc)
  {
    var direct, x', y' := DirectLabels(labels, names), DirectValues(v, names, x), DirectValues(w, names, y);
    SameBytesIffSameNormal(Whole(direct, x'), Whole(direct, y'), nfc);
    WholesAlike(direct, x', y', nfc);
    DirectAlike(f, g, labels, names, nfc, v, w, bodies, bodies', x', y');
  }

  lemma DirectAlike(f: Facts, g: Facts, labels: Labels, names: Names, nfc: Form, v: seq<Value>, w: seq<Value>,
                    bodies: seq<Value>, bodies': seq<Value>, x: seq<Value>, y: seq<Value>)
    requires |v| == |w| == 8 && SeenIn(labels, f, v, bodies) && SeenIn(labels, g, w, bodies') && |x| == |y| == 9
    requires x == DirectValues(v, names, x[8]) && y == DirectValues(w, names, y[8])
    requires forall i :: 0 <= i < 9 ==> Normalize(x[i], nfc).Some? && Normalize(y[i], nfc).Some?
    ensures AllAlike(x, y, nfc) <==> SameFacts(f.(profile := g.profile), g, nfc) && Alike(x[8], y[8], nfc)
  {
    var direct := DirectLabels(labels, names);
    KeptValues(f, Kept(f, names), labels, direct, names, v, bodies);
    KeptValues(g, Kept(g, names), labels, direct, names, w, bodies');
    EightAccepted(x, nfc);
    EightAccepted(y, nfc);
    assert x == x[..8] + [x[8]] && y == y[..8] + [y[8]];
    ValuesAlike(direct, Kept(f, names), Kept(g, names), nfc, x[..8], y[..8], bodies, bodies');
    ProfileReplaced(f, g, names, nfc);
    LastAlike(x[..8], y[..8], x[8], y[8], nfc);
  }

  lemma EightAccepted(x: seq<Value>, nfc: Form)
    requires |x| == 9 && forall i :: 0 <= i < 9 ==> Normalize(x[i], nfc).Some?
    ensures forall i :: 0 <= i < 8 ==> Normalize(x[..8][i], nfc).Some?
  {
  }

  // ---- at the accepted names ----

  /** lahiri_content with the texts it uses. */
  function LahiriPassport(l: Lahiri, nfc: Form): Option<seq<int>> { LahiriBytes(l, LABELS, NAMES, nfc) }

  lemma NamesAreUsable()
    ensures UsableNames(LABELS, NAMES)
  {
    LabelsAreUsable();
    SiderealIsNew(NAMES.sidereal, LABELS.keys);
    MembersAreAscii(NAMES.keys);
    MembersDiffer(NAMES.keys);
  }

  lemma MembersAreAscii(k: seq<string>)
    requires k == NAMES.keys
    ensures forall i :: 0 <= i < |k| ==> IsAscii(k[i])
  {
  }

  lemma SiderealIsNew(key: string, keys: seq<string>)
    requires key == NAMES.sidereal && keys == LABELS.keys && Apart(keys)
    ensures Apart(keys + [key])
  {
    assert IsAscii(key);
    assert |key| == 8 && |keys[0]| == 6 && |keys[1]| == 7 && |keys[2]| == 16 && |keys[3]| == 3 && |keys[4]| == 11
           && |keys[5]| == 12 && |keys[6]| == 5 && |keys[7]| == 6;
  }

  lemma MembersDiffer(k: seq<string>)
    requires k == NAMES.keys
    ensures forall i, j :: 0 <= i < j < |k| ==> k[i] != k[j]
  {
    assert |k[0]| == 6 && |k[1]| == 19 && |k[2]| == 6 && |k[3]| == 14 && |k[4]| == 12 && |k[5]| == 17;
    assert k[0][0] == 's' && k[2][0] == 'p';
  }

  /** A Lahiri response that the validators accept: its tropical part, and two angles of the wire pattern. */
  predicate LahiriOnWire(l: Lahiri, r: Projection.Response, digits: nat) {
    OnWire(l.tropical, r, digits) && LongitudeText.Pattern(l.ayanamsha) && LongitudeText.Pattern(l.moon)
  }

  /** What a reader of a Lahiri content finds under the names of the documentation, and nothing else. */
  ghost predicate Reads(n: Norm<string>, l: Lahiri, nfc: Form)
    requires l.tropical.latitude.exponent <= 0 && l.tropical.longitude.exponent <= 0
  {
    n.NList? && |n.items| == 3 && n.items[2].NObject? && |n.items[2].members| == 9
    && ReadsHeads(n.items[0], n.items[1], n.items[2].members)
    && ReadsFacts(n.items[2].members, l.tropical, nfc)
    && PassportBytes.Find(n.items[2].members, "sidereal").Some?
    && ReadsSidereal(PassportBytes.Find(n.items[2].members, "sidereal").value, l)
  }

  predicate ReadsHeads(header: Norm<string>, form: Norm<string>, members: seq<NMember<string>>) {
    header == NText("ACEP1") && form == NText("apt.sun-moon-lahiri-content.v1-mvp")
    && ShowsText(members, "schema", "APTCanonicalLahiriContent.v1-mvp")
    && ShowsText(members, "profile", "sun-moon-lahiri.v1-mvp")
  }

  /** The angles are the counts of billionths of a degree that the wire texts print. */
  ghost predicate ReadsSidereal(n: Norm<string>, l: Lahiri) {
    n.NObject? && |n.members| == 6 && ReadsSystem(n.members)
    && (exists a: nat :: l.ayanamsha == LongitudeText.Text(a) && ShowsInt(n.members, "ayanamsha_e9", a))
    && (exists m: nat :: l.moon == LongitudeText.Text(m) && ShowsInt(n.members, "moon_longitude_e9", m))
  }

  predicate ReadsSystem(members: seq<NMember<string>>) {
    ShowsText(members, "system", "lahiri") && ShowsInt(members, "swiss_sidereal_mode", 1)
    && ShowsText(members, "policy", "swiss-lahiri-apparent-moon.v1-mvp")
    && ShowsText(members, "ayanamsha_kind", "true-including-nutation")
  }

  /** Two Lahiri responses say the same: the tropical parts but for the profile, and the texts of both angles. */
  ghost predicate SaySameLahiri(l: Lahiri, k: Lahiri, nfc: Form)
    requires l.tropical.latitude.exponent <= 0 && l.tropical.longitude.exponent <= 0
    requires k.tropical.latitude.exponent <= 0 && k.tropical.longitude.exponent <= 0
  {
    SaySame(l.tropical.(profile := k.tropical.profile), k.tropical, nfc) && l.ayanamsha == k.ayanamsha
    && l.moon == k.moon
  }

  lemma SayingLahiri(l: Lahiri, r: Projection.Response, k: Lahiri, r': Projection.Response, nfc: Form, digits: nat)
    requires KeepsAscii(nfc) && LahiriOnWire(l, r, digits) && LahiriOnWire(k, r', digits)
    ensures SameLahiri(l, k, nfc) <==> SaySameLahiri(l, k, nfc)
  {
    SayingIsFacts(l.tropical.(profile := k.tropical.profile), r, k.tropical, r', nfc, digits);
    SameDegrees(l.ayanamsha, k.ayanamsha);
    SameDegrees(l.moon, k.moon);
  }

  // ---- what a reader of the bytes finds ----

  /** The sidereal object answers each of its keys with the value that was put there. */
  lemma SiderealShown(names: Names, a: int, m: int, nfc: Form) returns (members: seq<NMember<string>>)
    requires |names.keys| == 6 && Accepted(Sidereal(names, a, m), nfc)
    ensures Normalize(Sidereal(names, a, m), nfc) == Some(NObject(members)) && |members| == 6
    ensures forall i :: 0 <= i < 6 ==>
              PassportBytes.Find(members, nfc(names.keys[i])) == Normalize(SiderealValues(names, a, m)[i], nfc)
    ensures forall i :: 0 <= i < 6 ==> Accepted(SiderealValues(names, a, m)[i], nfc)
  {
    var values := SiderealValues(names, a, m);
    members := Normalize(Sidereal(names, a, m), nfc).value.members;
    SortedSize(names.keys, values, nfc, members);
    ValuesNormal(names.keys, values, nfc);
    forall i | 0 <= i < 6 ensures PassportBytes.Find(members, nfc(names.keys[i])) == Normalize(values[i], nfc) {
      SortedFinds(names.keys, values, nfc, i, members);
    }
  }

  /** Under ASCII keys, NFC leaves key and text alone. */
  lemma TextFound(members: seq<NMember<string>>, key: string, s: string, nfc: Form)
    requires KeepsAscii(nfc) && IsAscii(key) && IsAscii(s)
    requires PassportBytes.Find(members, nfc(key)) == Normalize(Str(s), nfc)
    ensures ShowsText(members, key, s)
  {
    TextsAlike(s, s, nfc);
  }

  lemma IntFound(members: seq<NMember<string>>, key: string, k: int, nfc: Form)
    requires KeepsAscii(nfc) && IsAscii(key) && Accepted(Int(k), nfc)
    requires PassportBytes.Find(members, nfc(key)) == Normalize(Int(k), nfc)
    ensures ShowsInt(members, key, k)
  {
    IntAccepted(k, nfc);
  }

  ghost predicate AnswersSidereal(n: Norm<string>, l: Lahiri, names: Names)
    requires |names.keys| == 6
  {
    n.NObject? && |n.members| == 6
    && ShowsText(n.members, names.keys[0], names.system) && ShowsInt(n.members, names.keys[1], names.mode)
    && ShowsText(n.members, names.keys[2], names.policy) && ShowsText(n.members, names.keys[3], names.kind)
    && (exists k: nat :: l.ayanamsha == LongitudeText.Text(k) && ShowsInt(n.members, names.keys[4], k))
    && (exists k: nat :: l.moon == LongitudeText.Text(k) && ShowsInt(n.members, names.keys[5], k))
  }

  lemma SiderealByName(l: Lahiri, n: Norm<string>, a: int, m: int, nfc: Form, names: Names)
    requires KeepsAscii(nfc) && |names.keys| == 6 && Apart(names.keys) && Accepted(Sidereal(names, a, m), nfc)
    requires IsAscii(names.system) && IsAscii(names.policy) && IsAscii(names.kind)
    requires n == Normalize(Sidereal(names, a, m), nfc).value && Angles(l, a, m)
    requires LongitudeText.Pattern(l.ayanamsha) && LongitudeText.Pattern(l.moon)
    ensures AnswersSidereal(n, l, names)
  {
    var members := SiderealShown(names, a, m, nfc);
    SiderealFound(members, a, m, nfc, names, names.keys, SiderealValues(names, a, m));
    LongitudeText.PatternRoundTrip(l.ayanamsha);
    LongitudeText.PatternRoundTrip(l.moon);
    assert l.ayanamsha == LongitudeText.Text(a) && ShowsInt(members, names.keys[4], a);
    assert l.moon == LongitudeText.Text(m) && ShowsInt(members, names.keys[5], m);
  }

  /** The names of the sidereal object, spelled out. */
  predicate SpelledSidereal(names: Names) {
    |names.keys| == 6 && names.keys[0] == "system" && names.keys[1] == "swiss_sidereal_mode"
    && names.keys[2] == "policy" && names.keys[3] == "ayanamsha_kind" && names.keys[4] == "ayanamsha_e9"
    && names.keys[5] == "moon_longitude_e9" && names.system == "lahiri" && names.mode == 1
    && names.policy == "swiss-lahiri-apparent-moon.v1-mvp" && names.kind == "true-including-nutation"
    && IsAscii(names.system) && IsAscii(names.policy) && IsAscii(names.kind)
  }

  lemma SiderealIsSpelled(names: Names)
    requires names == NAMES
    ensures SpelledSidereal(names)
  {
    SiderealKeys(names.keys);
    SystemAscii(names.system);
    PolicyAscii(names.policy);
    KindAscii(names.kind);
  }

  lemma SiderealRead(n: Norm<string>, l: Lahiri, names: Names)
    requires SpelledSidereal(names) && AnswersSidereal(n, l, names)
    ensures ReadsSidereal(n, l)
  {
    SystemRead(n.members, names);
  }

  lemma SystemRead(members: seq<NMember<string>>, names: Names)
    requires SpelledSidereal(names)
    requires ShowsText(members, names.keys[0], names.system) && ShowsInt(members, names.keys[1], names.mode)
    requires ShowsText(members, names.keys[2], names.policy) && ShowsText(members, names.keys[3], names.kind)
    ensures ReadsSystem(members)
  {
  }

  lemma SiderealFound(members: seq<NMember<string>>, a: int, m: int, nfc: Form, names: Names, keys: seq<string>,
                      v: seq<Value>)
    requires KeepsAscii(nfc) && |keys| == 6 && Apart(keys) && v == SiderealValues(names, a, m)
    requires IsAscii(names.system) && IsAscii(names.policy) && IsAscii(names.kind)
    requires forall i :: 0 <= i < 6 ==> Accepted(v[i], nfc)
    requires forall i :: 0 <= i < 6 ==> PassportBytes.Find(members, nfc(keys[i])) == Normalize(v[i], nfc)
    ensures ShowsText(members, keys[0], names.system) && ShowsInt(members, keys[1], names.mode)
    ensures ShowsText(members, keys[2], names.policy) && ShowsText(members, keys[3], names.kind)
    ensures ShowsInt(members, keys[4], a) && ShowsInt(members, keys[5], m)
  {
    assert Accepted(v[1], nfc) && Accepted(v[4], nfc) && Accepted(v[5], nfc);
    TextFound(members, keys[0], names.system, nfc);
    IntFound(members, keys[1], names.mode, nfc);
    TextFound(members, keys[2], names.policy, nfc);
    TextFound(members, keys[3], names.kind, nfc);
    IntFound(members, keys[4], a, nfc);
    IntFound(members, keys[5], m, nfc);
  }

  lemma SiderealKeys(keys: seq<string>)
    requires keys == NAMES.keys
    ensures keys[0] == "system" && keys[1] == "swiss_sidereal_mode" && keys[2] == "policy"
    ensures keys[3] == "ayanamsha_kind" && keys[4] == "ayanamsha_e9" && keys[5] == "moon_longitude_e9"
  {
  }

  lemma SystemAscii(s: string)
    requires s == "lahiri"
    ensures IsAscii(s)
  {
  }

  lemma PolicyAscii(s: string)
    requires s == "swiss-lahiri-apparent-moon.v1-mvp"
    ensures IsAscii(s)
  {
  }

  lemma KindAscii(s: string)
    requires s == "true-including-nutation"
    ensures IsAscii(s)
  {
  }

  /** The parsed Lahiri bytes answer every key of the content written directly. */
  lemma DirectAnswers(l: Lahiri, labels: Labels, names: Names, nfc: Form, v: seq<Value>, bodies: seq<Value>, a: int,
                      m: int) returns (n: Norm<string>)
    requires UsableNames(labels, names) && Written(l, labels, names, nfc, v, bodies, a, m)
    ensures ParseBytes(LahiriBytes(l, labels, names, nfc).value) == Some(n)
    ensures Answers(n, DirectLabels(labels, names), DirectValues(v, names, Sidereal(names, a, m)), nfc)
  {
    var direct, x := DirectLabels(labels, names), DirectValues(v, names, Sidereal(names, a, m));
    n := Normalize(Whole(direct, x), nfc).value;
    ParsedBack(Whole(direct, x), nfc);
    WholeAnswers(direct, x, nfc);
  }

  /** What the answers to the nine keys say, before the names are looked at. */
  lemma AnswersSay(n: Norm<string>, nfc: Form, v: seq<Value>, sidereal: Value, labels: Labels, names: Names)
    requires UsableNames(labels, names) && |v| == 8
    requires Answers(n, DirectLabels(labels, names), DirectValues(v, names, sidereal), nfc)
    ensures var members := n.items[2].members;
            |members| == 9
            && PassportBytes.Find(members, nfc(labels.keys[0])) == Normalize(Str(names.schema), nfc)
            && PassportBytes.Find(members, nfc(labels.keys[1])) == Normalize(Str(names.profile), nfc)
            && PassportBytes.Find(members, nfc(names.sidereal)) == Normalize(sidereal, nfc)
            && forall i :: 2 <= i < 8 ==> PassportBytes.Find(members, nfc(labels.keys[i])) == Normalize(v[i], nfc)
  {
    var members, keys, x := n.items[2].members, DirectLabels(labels, names).keys, DirectValues(v, names, sidereal);
    assert keys[0] == labels.keys[0] && keys[1] == labels.keys[1] && keys[8] == names.sidereal;
    assert x[0] == Str(names.schema) && x[1] == Str(names.profile) && x[8] == sidereal;
    forall i | 2 <= i < 8 ensures PassportBytes.Find(members, nfc(labels.keys[i])) == Normalize(v[i], nfc) {
      assert keys[i] == labels.keys[i] && x[i] == v[i];
    }
  }

  /** The other names, spelled out. */
  predicate SpelledHeads(labels: Labels, names: Names)
    requires |labels.keys| == 8
  {
    labels.header == "ACEP1" && labels.keys[0] == "schema" && labels.keys[1] == "profile"
    && names.form == "apt.sun-moon-lahiri-content.v1-mvp" && names.schema == "APTCanonicalLahiriContent.v1-mvp"
    && names.profile == "sun-moon-lahiri.v1-mvp" && names.sidereal == "sidereal"
    && IsAscii(labels.header) && IsAscii(names.form) && IsAscii(names.schema) && IsAscii(names.profile)
    && IsAscii(names.sidereal)
  }

  lemma HeadsAreSpelled(labels: Labels, names: Names)
    requires labels == LABELS && names == NAMES && |labels.keys| == 8
    ensures SpelledHeads(labels, names)
  {
    FirstKeys(labels.keys);
    ShortTextAscii(labels.header);
    LahiriFormAscii(names.form);
    LahiriSchemaAscii(names.schema);
    LahiriProfileAscii(names.profile);
    SiderealAscii(names.sidereal);
  }

  lemma HeadsByName(members: seq<NMember<string>>, nfc: Form, labels: Labels, names: Names)
    requires KeepsAscii(nfc) && |labels.keys| == 8 && Apart(labels.keys) && SpelledHeads(labels, names)
    requires ShowsText(members, nfc(labels.keys[0]), nfc(names.schema))
    requires ShowsText(members, nfc(labels.keys[1]), nfc(names.profile))
    ensures ReadsHeads(NText(nfc(labels.header)), NText(nfc(names.form)), members)
    ensures nfc(names.sidereal) == "sidereal"
  {
  }

  lemma SiderealAscii(s: string)
    requires s == "sidereal"
    ensures IsAscii(s)
  {
  }

  lemma FirstKeys(keys: seq<string>)
    requires keys == LABELS.keys
    ensures keys[0] == "schema" && keys[1] == "profile"
  {
  }

  lemma LahiriFormAscii(s: string)
    requires s == "apt.sun-moon-lahiri-content.v1-mvp"
    ensures IsAscii(s)
  {
  }

  lemma LahiriSchemaAscii(s: string)
    requires s == "APTCanonicalLahiriContent.v1-mvp"
    ensures IsAscii(s)
  {
  }

  lemma LahiriProfileAscii(s: string)
    requires s == "sun-moon-lahiri.v1-mvp"
    ensures IsAscii(s)
  {
  }

  /** Whoever parses the bytes of an accepted Lahiri response reads what it says. */
  lemma LahiriReads(l: Lahiri, r: Projection.Response, nfc: Form, digits: nat)
    requires KeepsAscii(nfc) && Idempotent(nfc) && LahiriOnWire(l, r, digits)
    ensures LahiriPassport(l, nfc).Some? && ParseBytes(LahiriPassport(l, nfc).value).Some?
    ensures Reads(ParseBytes(LahiriPassport(l, nfc).value).value, l, nfc)
  {
    NamesAreUsable();
    HeadsAreSpelled(LABELS, NAMES);
    SiderealIsSpelled(NAMES);
    ReadsAt(l, r, nfc, digits, LABELS, NAMES);
  }

  lemma ReadsAt(l: Lahiri, r: Projection.Response, nfc: Form, digits: nat, labels: Labels, names: Names)
    requires KeepsAscii(nfc) && Idempotent(nfc) && LahiriOnWire(l, r, digits) && labels == LABELS
    requires UsableNames(labels, names) && SpelledHeads(labels, names) && SpelledSidereal(names)
    ensures LahiriBytes(l, labels, names, nfc).Some? && ParseBytes(LahiriBytes(l, labels, names, nfc).value).Some?
    ensures Reads(ParseBytes(LahiriBytes(l, labels, names, nfc).value).value, l, nfc)
  {
    var n := ParsedAnswers(l, r, labels, names, nfc, digits);
    TropicalByName(n.items[2].members, l.tropical, r, nfc, digits, labels);
    NamesRead(l, n, nfc, labels, names);
  }

  lemma NamesRead(l: Lahiri, n: Norm<string>, nfc: Form, labels: Labels, names: Names)
    requires KeepsAscii(nfc) && |labels.keys| == 8 && Apart(labels.keys) && SpelledHeads(labels, names)
    requires SpelledSidereal(names) && AnswersLahiri(l, n, nfc, labels, names)
    requires l.tropical.latitude.exponent <= 0 && l.tropical.longitude.exponent <= 0
    requires ReadsFacts(n.items[2].members, l.tropical, nfc)
    ensures Reads(n, l, nfc)
  {
    HeadsByName(n.items[2].members, nfc, labels, names);
    SiderealRead(PassportBytes.Find(n.items[2].members, nfc(names.sidereal)).value, l, names);
  }

  ghost predicate AnswersLahiri(l: Lahiri, n: Norm<string>, nfc: Form, labels: Labels, names: Names)
    requires |labels.keys| == 8 && |names.keys| == 6
  {
    n.NList? && |n.items| == 3 && n.items[0] == NText(nfc(labels.header)) && n.items[1] == NText(nfc(names.form))
    && n.items[2].NObject? && |n.items[2].members| == 9
    && ShowsFacts(n.items[2].members, labels, l.tropical, nfc)
    && ShowsText(n.items[2].members, nfc(labels.keys[0]), nfc(names.schema))
    && ShowsText(n.items[2].members, nfc(labels.keys[1]), nfc(names.profile))
    && PassportBytes.Find(n.items[2].members, nfc(names.sidereal)).Some?
    && AnswersSidereal(PassportBytes.Find(n.items[2].members, nfc(names.sidereal)).value, l, names)
  }

  lemma TropicalByName(members: seq<NMember<string>>, f: Facts, r: Projection.Response, nfc: Form, digits: nat,
                       labels: Labels)
    requires KeepsAscii(nfc) && OnWire(f, r, digits) && labels == LABELS && Apart(labels.keys)
    requires ShowsFacts(members, labels, f, nfc)
    ensures ReadsFacts(members, f, nfc)
  {
    Projection.CoherentUtcIsCanonical(r);
    MembersByName(members, f, nfc, digits, labels.keys);
  }

  lemma ParsedAnswers(l: Lahiri, r: Projection.Response, labels: Labels, names: Names, nfc: Form, digits: nat)
    returns (n: Norm<string>)
    requires KeepsAscii(nfc) && Idempotent(nfc) && UsableNames(labels, names) && LahiriOnWire(l, r, digits)
    requires IsAscii(names.system) && IsAscii(names.policy) && IsAscii(names.kind)
    ensures LahiriBytes(l, labels, names, nfc).Some?
    ensures ParseBytes(LahiriBytes(l, labels, names, nfc).value) == Some(n) && AnswersLahiri(l, n, nfc, labels, names)
  {
    var v, bodies, a, m := WireWritten(l, r, labels, names, nfc, digits);
    n := DirectAnswers(l, labels, names, nfc, v, bodies, a, m);
    AnswersSay(n, nfc, v, Sidereal(names, a, m), labels, names);
    FactsShown(n.items[2].members, labels, l.tropical, v, bodies, nfc);
    TextsAlike(names.schema, names.schema, nfc);
    TextsAlike(names.profile, names.profile, nfc);
    SiderealByName(l, Normalize(Sidereal(names, a, m), nfc).value, a, m, nfc, names);
  }

  /**
   The content of accepted Lahiri responses is always encoded, its bytes are the same exactly if the responses say the
   same, and parsing them shows what was said.
   */
  lemma LahiriIdentifiesFacts(l: Lahiri, r: Projection.Response, k: Lahiri, r': Projection.Response, nfc: Form,
                              digits: nat)
    requires KeepsAscii(nfc) && Idempotent(nfc) && LahiriOnWire(l, r, digits) && LahiriOnWire(k, r', digits)
    ensures LahiriPassport(l, nfc).Some? && LahiriPassport(k, nfc).Some?
    ensures LahiriPassport(l, nfc) == LahiriPassport(k, nfc) <==> SaySameLahiri(l, k, nfc)
    ensures ParseBytes(LahiriPassport(l, nfc).value).Some?
            && Reads(ParseBytes(LahiriPassport(l, nfc).value).value, l, nfc)
  {
    NamesAreUsable();
    WireSame(l, r, k, r', LABELS, NAMES, nfc, digits);
    SayingLahiri(l, r, k, r', nfc, digits);
    LahiriReads(l, r, nfc, digits);
  }

  lemma WireSame(l: Lahiri, r: Projection.Response, k: Lahiri, r': Projection.Response, labels: Labels, names: Names,
                 nfc: Form, digits: nat)
    requires KeepsAscii(nfc) && Idempotent(nfc) && UsableNames(labels, names)
    requires LahiriOnWire(l, r, digits) && LahiriOnWire(k, r', digits)
    ensures LahiriBytes(l, labels, names, nfc).Some? && LahiriBytes(k, labels, names, nfc).Some?
    ensures LahiriBytes(l, labels, names, nfc) == LahiriBytes(k, labels, names, nfc) <==> SameLahiri(l, k, nfc)
  {
    var v, bodies, a, m := WireWritten(l, r, labels, names, nfc, digits);
    var w, bodies', a', m' := WireWritten(k, r', labels, names, nfc, digits);
    SameBytesIffSameLahiri(l, k, labels, names, nfc, v, w, bodies, bodies', a, m, a', m');
  }

  lemma WireWritten(l: Lahiri, r: Projection.Response, labels: Labels, names: Names, nfc: Form, digits: nat)
    returns (v: seq<Value>, bodies: seq<Value>, a: int, m: int)
    requires KeepsAscii(nfc) && Idempotent(nfc) && UsableNames(labels, names) && LahiriOnWire(l, r, digits)
    ensures Written(l, labels, names, nfc, v, bodies, a, m)
  {
    EncodingSucceeds(l.tropical, r, labels, nfc, digits);
    a, m := WireAngles(l);
    v, bodies := WrittenFrom(l, labels, names, nfc, a, m);
  }

  lemma WireAngles(l: Lahiri) returns (a: int, m: int)
    requires LongitudeText.Pattern(l.ayanamsha) && LongitudeText.Pattern(l.moon)
    ensures Angles(l, a, m)
  {
    LongitudeText.PatternRoundTrip(l.ayanamsha);
    LongitudeText.PatternRoundTrip(l.moon);
    a, m := Scaled.PythonScaled(l.ayanamsha, Scaled.Angle).value, Scaled.PythonScaled(l.moon, Scaled.Angle).value;
  }
}
