/**
 The pair comparator: every old leaf of both participants against its targets in the new responses.
 Library conversions and model validators are parameters; each is a function of its argument.
 */
module ComparePair {
  import opened Results
  import opened Leaves

  datatype Side = Old | New

  datatype Class = ExactEqual | IdentitySubstitution | DerivedRecompute | DeliveryMetadataOnly
                 | IntentionallyAbsent | ErrorMapping | NotComparable

  datatype Row = Row(side: Side, path: string, category: Class, targets: seq<string>, hasSources: bool, hasRule: bool)

  datatype Tools = Tools(
    validRequest: Tree -> bool,
    validResponse: Tree -> bool,
    hex40: string -> bool,
    hex64: Tree -> bool,
    digest: Tree -> string,
    mapRequest: Tree -> Option<Tree>,
    sameRequest: (Tree, Tree) -> bool,
    clock: Tree -> Option<Tree>,
    instant: Tree -> Option<Tree>,
    longitude: (Tree, Tree) -> Option<Tree>,
    parseInt: string -> Option<int>,
    sameDict: (Tree, Tree) -> bool,
    pins: Pins)

  /** Texts that stand for the old and new identities. */
  datatype Pins = Pins(oldRevision: string, oldRepository: string, newRepository: string, oldManifest: string,
      newManifest: string)

  /** The accepted values. */
  const PINS := Pins(
    "18a3776bc1ab1dc52212b4de48a0df36709d72d2",
    "https://github.com/Attory/astrological-compatibility-engine",
    "https://github.com/Attory/astro-passport",
    "621f019c37089c68f7d9f48529965a7e697fd61d5112493966096d0ea74da3a9",
    "2721941b70ba791ab06052972bbe493d7c7758884dea7ba72f339fb939e106e9")

  predicate StartsWith(s: string, p: string) { |p| <= |s| && s[..|p|] == p }

  predicate EndsWith(s: string, p: string) { |p| <= |s| && s[|s| - |p|..] == p }

  // ---- equality of leaves ----

  /** math.isfinite of a binary64 by its bits: the exponent field is not all ones. */
  predicate IsFinite(bits: nat) { bits / 0x10_0000_0000_0000 % 0x800 != 0x7FF }

  /** equal(): same type, floats finite and bit for bit, lists element by element; dicts by Python's ==. */
  predicate Equal(a: Tree, b: Tree, sameDict: (Tree, Tree) -> bool)
    decreases a, 1
  {
    match (a, b)
    case (Leaf(Float(x)), Leaf(Float(y))) => IsFinite(x) && x == y
    case (Leaf(x), Leaf(y)) => x == y
    case (List(x), List(y)) => EqualLists(x, y, sameDict)
    case (Dict(_), Dict(_)) => sameDict(a, b)
    case _ => false
  }

  predicate EqualLists(x: seq<Tree>, y: seq<Tree>, sameDict: (Tree, Tree) -> bool)
    decreases x, 0
  {
    |x| == |y| && (x == [] || (Equal(x[0], y[0], sameDict) && EqualLists(x[1..], y[1..], sameDict)))
  }

  ghost predicate PartialEquivalence(r: (Tree, Tree) -> bool) {
    (forall a, b :: r(a, b) ==> r(b, a)) && (forall a, b, c :: r(a, b) && r(b, c) ==> r(a, c))
  }

  lemma {:induction false} EqualSymmetric(a: Tree, b: Tree, r: (Tree, Tree) -> bool)
    requires PartialEquivalence(r) && Equal(a, b, r)
    ensures Equal(b, a, r)
    decreases a, 1
  {
    if a.List? {
      ListsSymmetric(a.items, b.items, r);
    }
  }

  lemma {:induction false} ListsSymmetric(x: seq<Tree>, y: seq<Tree>, r: (Tree, Tree) -> bool)
    requires PartialEquivalence(r) && EqualLists(x, y, r)
    ensures EqualLists(y, x, r)
    decreases x, 0
  {
    if x != [] {
      EqualSymmetric(x[0], y[0], r);
      ListsSymmetric(x[1..], y[1..], r);
    }
  }

  lemma {:induction false} EqualTransitive(a: Tree, b: Tree, c: Tree, r: (Tree, Tree) -> bool)
    requires PartialEquivalence(r) && Equal(a, b, r) && Equal(b, c, r)
    ensures Equal(a, c, r)
    decreases a, 1
  {
    if a.List? {
      ListsTransitive(a.items, b.items, c.items, r);
    }
  }

  lemma {:induction false} ListsTransitive(x: seq<Tree>, y: seq<Tree>, z: seq<Tree>, r: (Tree, Tree) -> bool)
    requires PartialEquivalence(r) && EqualLists(x, y, r) && EqualLists(y, z, r)
    ensures EqualLists(x, z, r)
    decreases x, 0
  {
    if x != [] {
      EqualTransitive(x[0], y[0], z[0], r);
      ListsTransitive(x[1..], y[1..], z[1..], r);
    }
  }

  /** No dict anywhere inside: what a leaf is unless dicts hide in a list of lists. */
  predicate DictFree(v: Tree)
    decreases v
  {
    match v
    case Leaf(_) => true
    case List(items) => forall i :: 0 <= i < |items| ==> DictFree(items[i])
    case Dict(_) => false
  }

  /** Where no dict is involved, equal means identical, floats bit for bit, and holds no NaN or infinity. */
  lemma {:induction false} EqualIsIdentity(a: Tree, b: Tree, r: (Tree, Tree) -> bool)
    requires DictFree(a) && Equal(a, b, r)
    ensures a == b
    decreases a, 1
  {
    if a.List? {
      EqualListsIdentity(a.items, b.items, r);
    }
  }

  lemma {:induction false} EqualListsIdentity(x: seq<Tree>, y: seq<Tree>, r: (Tree, Tree) -> bool)
    requires (forall i :: 0 <= i < |x| ==> DictFree(x[i])) && EqualLists(x, y, r)
    ensures x == y
    decreases x, 0
  {
    if x != [] {
      EqualIsIdentity(x[0], y[0], r);
      EqualListsIdentity(x[1..], y[1..], r);
      assert x == [x[0]] + x[1..] && y == [y[0]] + y[1..];
    }
  }

  // ---- one row ----

  function Text(s: string): Tree { Leaf(Str(s)) }

  /** path.rsplit("/", 1)[0] */
  function Parent(path: string): string
    decreases |path|
  {
    if path == "" then "" else if path[|path| - 1] == '/' then path[..|path| - 1] else Parent(path[..|path| - 1])
  }

  function FirstStep(s: string): string {
    if s == "" || s[0] == '/' then "" else [s[0]] + FirstStep(s[1..])
  }

  /** The participant a leaf is about: the index in a manifest path, else the record's own. */
  function Participant(path: string, record: nat, tools: Tools): Option<int> {
    if StartsWith(path, "/manifest/civil/") then tools.parseInt(FirstStep(path[16..])) else Some(record)
  }

  predicate Live(target: string) { !StartsWith(target, "/error/") }

  /** The targets a row is compared with. */
  function LiveTargets(targets: seq<string>): seq<string> {
    if targets == [] then []
    else if Live(targets[0]) then [targets[0]] + LiveTargets(targets[1..])
    else LiveTargets(targets[1..])
  }

  function If(condition: bool, value: Tree): Option<Tree> { if condition then Some(value) else None }

  /** Identities are replaced by the new ones, and must have been the old ones. */
  function Substituted(path: string, value: Tree, revision: string, pins: Pins): Option<Tree> {
    if EndsWith(path, "/schema_version") then If(value == Text("selected-place.v1"), Text("SelectedPlaceInput.v1"))
    else if EndsWith(path, "/source_repository") then If(value == Text(pins.oldRepository), Text(pins.newRepository))
    else if EndsWith(path, "/ace_git_sha") then If(value == Text(pins.oldRevision), Text(revision))
    else None
  }

  /** Values computed again from the old ones; the longitude also from its hexadecimal sibling. */
  function Derived(path: string, value: Tree, flat: map<string, Tree>, untargeted: bool, tools: Tools): Option<Tree> {
    if EndsWith(path, "/manifest_sha256") then If(value == Text(tools.pins.oldManifest), Text(tools.pins.newManifest))
    else if EndsWith(path, "/time") || EndsWith(path, "/local_time") then tools.clock(value)
    else if EndsWith(path, "/utc") then tools.instant(value)
    else if EndsWith(path, "/longitude") then
      var sibling := Parent(path) + "/binary64_hex";
      if sibling in flat then tools.longitude(flat[sibling], value) else None
    else If(StartsWith(path, "/manifest/") && EndsWith(path, "_sha256") && untargeted && tools.hex64(value), value)
  }

  predicate MayBeAbsent(path: string, value: Tree) {
    !(EndsWith(path, "/reason") && value != Leaf(Nothing)) && !(EndsWith(path, "/candidate_ids") && value != List([]))
  }

  /** The value the targets must hold; None where the comparator raises. */
  function Wanted(row: Row, value: Tree, flat: map<string, Tree>, revision: string, tools: Tools): Option<Tree> {
    var untargeted := LiveTargets(row.targets) == [];
    match row.category
    case ExactEqual => Some(value)
    case IdentitySubstitution => Substituted(row.path, value, revision, tools.pins)
    case DerivedRecompute => Derived(row.path, value, flat, untargeted, tools)
    case ErrorMapping => If(value == Text("resolved"), Text("unique"))
    case IntentionallyAbsent => If(MayBeAbsent(row.path, value) && untargeted, value)
    case NotComparable => If(row.hasRule && untargeted && StartsWith(row.path, "/manifest/"), value)
    case DeliveryMetadataOnly => None
  }

  /** A list of two indexed the Python way, from either end. */
  predicate Indexes(i: int) { -2 <= i < 2 }

  function At(flats: seq<map<string, Tree>>, i: int): map<string, Tree>
    requires |flats| == 2 && Indexes(i)
  {
    flats[if i < 0 then i + 2 else i]
  }

  predicate TargetHolds(wanted: Tree, flats: seq<map<string, Tree>>, index: int, target: string, tools: Tools)
    requires |flats| == 2
  {
    Indexes(index) && target in At(flats, index) && Equal(wanted, At(flats, index)[target], tools.sameDict)
  }

  predicate TargetsHold(wanted: Tree, flats: seq<map<string, Tree>>, index: int, targets: seq<string>, tools: Tools)
    requires |flats| == 2
  {
    forall target :: target in targets ==> TargetHolds(wanted, flats, index, target, tools)
  }

  /** One row passes for one record: the value is as expected and every target holds it. */
  predicate RowPasses(row: Row, record: nat, flat: map<string, Tree>, flats: seq<map<string, Tree>>, revision: string,
                      tools: Tools)
    requires |flats| == 2
  {
    row.path in flat && Participant(row.path, record, tools).Some?
    && Wanted(row, flat[row.path], flat, revision, tools).Some?
    && TargetsHold(Wanted(row, flat[row.path], flat, revision, tools).value, flats,
                   Participant(row.path, record, tools).value, LiveTargets(row.targets), tools)
  }

  // ---- the rule list ----

  function OldRows(rows: seq<Row>): (r: seq<Row>)
    ensures forall i :: 0 <= i < |r| ==> r[i].side == Old && r[i] in rows
  {
    if rows == [] then []
    else if rows[0].side == Old then [rows[0]] + OldRows(rows[1..])
    else OldRows(rows[1..])
  }

  lemma {:induction false} OldRowsIn(rows: seq<Row>, row: Row)
    ensures row in OldRows(rows) <==> row in rows && row.side == Old
  {
    if rows != [] {
      OldRowsIn(rows[1..], row);
      assert rows == [rows[0]] + rows[1..];
    }
  }

  function Paths(rows: seq<Row>): set<string> { set r | r in rows :: r.path }

  predicate WireRow(r: Row) { r.side == New && !StartsWith(r.path, "/error/") }

  function WirePaths(rows: seq<Row>): set<string> { set r | r in rows && WireRow(r) :: r.path }

  /** rules(): no side and path is classified twice. */
  predicate NoDuplicates(rows: seq<Row>) {
    forall i, j :: 0 <= i < j < |rows| ==> !(rows[i].side == rows[j].side && rows[i].path == rows[j].path)
  }

  predicate Classified(row: Row) { WireRow(row) && !row.hasSources ==> row.category == IdentitySubstitution }

  // ---- the whole comparison ----

  function Field(v: Tree, key: string): Option<Tree> {
    if !v.Dict? then None else Find(v.entries, key)
  }

  function Find(entries: seq<Entry>, key: string): Option<Tree> {
    if entries == [] then None
    else if entries[0].key == key then Some(entries[0].value)
    else Find(entries[1..], key)
  }

  /** {"request": request, "response": response, "provenance": response["provenance"]} flattened. */
  function NewFlat(request: Tree, response: Tree): Option<map<string, Tree>> {
    match Field(response, "provenance")
    case None => None
    case Some(p) => Flatten(Dict([Entry("request", request), Entry("response", response), Entry("provenance", p)]), "")
  }

  predicate NewAccepted(rows: seq<Row>, request: Tree, response: Tree, revision: string, tools: Tools) {
    tools.validRequest(request) && tools.validResponse(response)
    && NewFlat(request, response).Some?
    && NewFlat(request, response).value.Keys == WirePaths(rows)
    && Field(response, "provenance").Some?
    && Field(Field(response, "provenance").value, "source_revision") == Some(Text(revision))
  }

  function NewFlats(requests: seq<Tree>, responses: seq<Tree>): (r: seq<map<string, Tree>>)
    requires |requests| == 2 && |responses| == 2
    requires NewFlat(requests[0], responses[0]).Some? && NewFlat(requests[1], responses[1]).Some?
    ensures |r| == 2
  {
    [NewFlat(requests[0], responses[0]).value, NewFlat(requests[1], responses[1]).value]
  }

  predicate OldCovered(rows: seq<Row>, record: Tree, request: Tree, retained: string, tools: Tools) {
    Flatten(record, "").Some?
    && Flatten(record, "").value.Keys == Paths(OldRows(rows))
    && Field(record, "manifest").Some? && tools.digest(Field(record, "manifest").value) == retained
    && Field(record, "selected").Some? && tools.mapRequest(Field(record, "selected").value).Some?
    && tools.sameRequest(tools.mapRequest(Field(record, "selected").value).value, request)
  }

  predicate RowsPass(checked: seq<Row>, record: nat, flat: map<string, Tree>, flats: seq<map<string, Tree>>,
                     revision: string, tools: Tools)
    requires |flats| == 2
  {
    forall row :: row in checked ==> RowPasses(row, record, flat, flats, revision, tools)
  }

  /** One record passes: covered, and every old row passes for it. */
  predicate RecordPasses(rows: seq<Row>, record: Tree, request: Tree, p: nat, flats: seq<map<string, Tree>>,
                         revision: string, retained: string, tools: Tools)
    requires |flats| == 2
  {
    OldCovered(rows, record, request, retained, tools)
    && RowsPass(OldRows(rows), p, Flatten(record, "").value, flats, revision, tools)
  }

  predicate AllNewAccepted(rows: seq<Row>, requests: seq<Tree>, responses: seq<Tree>, revision: string, tools: Tools)
    requires |requests| == 2 && |responses| == 2
  {
    NewAccepted(rows, requests[0], responses[0], revision, tools)
    && NewAccepted(rows, requests[1], responses[1], revision, tools)
  }

  predicate AllClassified(rows: seq<Row>) { forall i :: 0 <= i < |rows| ==> Classified(rows[i]) }

  /** The comparison passes. */
  predicate Accepts(rows: seq<Row>, records: seq<Tree>, requests: seq<Tree>, responses: seq<Tree>, revision: string,
                    retained: string, tools: Tools) {
    |records| == 2 && |requests| == 2 && |responses| == 2 && tools.hex40(revision)
    && AllNewAccepted(rows, requests, responses, revision, tools)
    && BothRecordsPass(rows, records, requests, NewFlats(requests, responses), revision, retained, tools)
    && AllClassified(rows)
  }

  predicate BothRecordsPass(rows: seq<Row>, records: seq<Tree>, requests: seq<Tree>, flats: seq<map<string, Tree>>,
                            revision: string, retained: string, tools: Tools)
    requires |records| == 2 && |requests| == 2 && |flats| == 2
  {
    forall p :: 0 <= p < 2 ==> RecordPasses(rows, records[p], requests[p], p, flats, revision, retained, tools)
  }

  /** How many of these rows have the class. */
  function Count(rows: seq<Row>, c: Class): nat {
    if rows == [] then 0 else Count(rows[..|rows| - 1], c) + (if rows[|rows| - 1].category == c then 1 else 0)
  }

  /** A counter read at a class, absent classes being zero. */
  function Tally(counts: map<Class, nat>, c: Class): nat { if c in counts then counts[c] else 0 }

  /** The counter after whole records and some rows of the next one. */
  predicate Counts(counts: map<Class, nat>, records: nat, rows: seq<Row>, done: seq<Row>) {
    forall c :: Tally(counts, c) == records * Count(rows, c) + Count(done, c)
  }

  /**
   compare_pair: it returns exactly when the comparison passes, and then every class has been counted
   twice as often as it occurs among the old rows.
   */
  method Compare(rows: seq<Row>, records: seq<Tree>, requests: seq<Tree>, responses: seq<Tree>, revision: string,
                 retained: string, tools: Tools) returns (r: Option<map<Class, nat>>)
    ensures r.Some? <==> Accepts(rows, records, requests, responses, revision, retained, tools)
    ensures r.Some? <==> PairHolds(rows, records, requests, responses, revision, retained, tools)
    ensures r.Some? ==> Counts(r.value, 2, OldRows(rows), [])
  {
    AcceptsIsHolds(rows, records, requests, responses, revision, retained, tools);
    if |records| != 2 || |requests| != 2 || |responses| != 2 || !tools.hex40(revision) {
      return None;
    }
    var ok, newFlat := FlattenNew(rows, requests, responses, revision, tools);
    if !ok {
      return None;
    }
    var counts: map<Class, nat>;
    ok, counts := CompareRecords(rows, records, requests, newFlat, revision, retained, tools);
    if !ok {
      return None;
    }
    ok := CheckClassified(rows);
    return if ok then Some(counts) else None;
  }

  /** The last loop: new rows without old sources may only be identities. */
  method CheckClassified(rows: seq<Row>) returns (ok: bool)
    ensures ok <==> AllClassified(rows)
  {
    for i := 0 to |rows|
      invariant forall k :: 0 <= k < i ==> Classified(rows[k])
    {
      if !Classified(rows[i]) {
        return false;
      }
    }
    return true;
  }

  /** The second loop: both records in turn. */
  method CompareRecords(rows: seq<Row>, records: seq<Tree>, requests: seq<Tree>, newFlat: seq<map<string, Tree>>,
                        revision: string, retained: string, tools: Tools) returns (ok: bool, counts: map<Class, nat>)
    requires |records| == 2 && |requests| == 2 && |newFlat| == 2
    ensures ok <==> BothRecordsPass(rows, records, requests, newFlat, revision, retained, tools)
    ensures ok ==> Counts(counts, 2, OldRows(rows), [])
  {
    counts := map[];
    for p := 0 to 2
      invariant forall q :: 0 <= q < p ==>
                RecordPasses(rows, records[q], requests[q], q, newFlat, revision, retained, tools)
      invariant Counts(counts, p, OldRows(rows), [])
    {
      ok, counts := CompareRecord(rows, records[p], requests[p], p, newFlat, revision, retained, tools, counts);
      if !ok {
        return;
      }
    }
    ok := true;
  }

  /** The first loop: both new sides validated, flattened and covered. */
  method FlattenNew(rows: seq<Row>, requests: seq<Tree>, responses: seq<Tree>, revision: string, tools: Tools)
    returns (ok: bool, newFlat: seq<map<string, Tree>>)
    requires |requests| == 2 && |responses| == 2
    ensures ok <==> AllNewAccepted(rows, requests, responses, revision, tools)
    ensures ok ==> newFlat == NewFlats(requests, responses)
  {
    newFlat := [];
    for p := 0 to 2
      invariant forall q :: 0 <= q < p ==> NewAccepted(rows, requests[q], responses[q], revision, tools)
      invariant |newFlat| == p && forall q :: 0 <= q < p ==> NewFlat(requests[q], responses[q]) == Some(newFlat[q])
    {
      if !NewAccepted(rows, requests[p], responses[p], revision, tools) {
        return false, [];
      }
      newFlat := newFlat + [NewFlat(requests[p], responses[p]).value];
    }
    return true, newFlat;
  }

  /** The second loop's body: one record's coverage, then all old rows against it. */
  method CompareRecord(rows: seq<Row>, record: Tree, request: Tree, p: nat, newFlat: seq<map<string, Tree>>,
                       revision: string, retained: string, tools: Tools, before: map<Class, nat>)
    returns (ok: bool, counts: map<Class, nat>)
    requires |newFlat| == 2 && Counts(before, p, OldRows(rows), [])
    ensures ok <==> RecordPasses(rows, record, request, p, newFlat, revision, retained, tools)
    ensures ok ==> Counts(counts, p + 1, OldRows(rows), [])
  {
    counts := before;
    if !OldCovered(rows, record, request, retained, tools) {
      return false, counts;
    }
    ok, counts := CompareRows(OldRows(rows), Flatten(record, "").value, p, newFlat, revision, tools, before);
  }

  /** All old rows against one flattened record. */
  method CompareRows(oldRows: seq<Row>, flat: map<string, Tree>, p: nat, newFlat: seq<map<string, Tree>>,
                     revision: string, tools: Tools, before: map<Class, nat>)
    returns (ok: bool, counts: map<Class, nat>)
    requires |newFlat| == 2 && Counts(before, p, oldRows, [])
    ensures ok <==> RowsPass(oldRows, p, flat, newFlat, revision, tools)
    ensures ok ==> Counts(counts, p + 1, oldRows, [])
  {
    counts := before;
    for i := 0 to |oldRows|
      invariant RowsPass(oldRows[..i], p, flat, newFlat, revision, tools)
      invariant Counts(counts, p, oldRows, oldRows[..i])
    {
      OneMoreCount(counts, p, oldRows, i);
      counts := counts[oldRows[i].category := Tally(counts, oldRows[i].category) + 1];
      var passes := CompareRow(oldRows[i], p, flat, newFlat, revision, tools);
      OneMorePass(oldRows, i, p, flat, newFlat, revision, tools);
      if !passes {
        return false, counts;
      }
    }
    assert oldRows[..|oldRows|] == oldRows;
    AllCounted(counts, p, oldRows);
    return true, counts;
  }

  /** The innermost loop: one row's value against its targets. */
  method CompareRow(row: Row, p: nat, flat: map<string, Tree>, newFlat: seq<map<string, Tree>>, revision: string,
                    tools: Tools)
    returns (passes: bool)
    requires |newFlat| == 2
    ensures passes <==> RowPasses(row, p, flat, newFlat, revision, tools)
    ensures passes <==> RowHolds(row, p, flat, newFlat, revision, tools)
  {
    PassesIsHolds(row, p, flat, newFlat, revision, tools);
    if row.path !in flat {
      return false;
    }
    var index := Participant(row.path, p, tools);
    var wanted := Wanted(row, flat[row.path], flat, revision, tools);
    if index.None? || wanted.None? {
      return false;
    }
    var targets := LiveTargets(row.targets);
    for k := 0 to |targets|
      invariant forall m :: 0 <= m < k ==> TargetHolds(wanted.value, newFlat, index.value, targets[m], tools)
    {
      if !TargetHolds(wanted.value, newFlat, index.value, targets[k], tools) {
        return false;
      }
    }
    return true;
  }

  lemma OneMoreCount(counts: map<Class, nat>, p: nat, rows: seq<Row>, i: nat)
    requires i < |rows| && Counts(counts, p, rows, rows[..i])
    ensures Counts(counts[rows[i].category := Tally(counts, rows[i].category) + 1], p, rows, rows[..i + 1])
  {
    assert rows[..i + 1][..i] == rows[..i];
  }

  lemma AllCounted(counts: map<Class, nat>, p: nat, rows: seq<Row>)
    requires Counts(counts, p, rows, rows)
    ensures Counts(counts, p + 1, rows, [])
  {
    forall c ensures Tally(counts, c) == (p + 1) * Count(rows, c) + Count([], c) {
      assert (p + 1) * Count(rows, c) == p * Count(rows, c) + Count(rows, c);
    }
  }

  lemma OneMorePass(rows: seq<Row>, i: nat, p: nat, flat: map<string, Tree>, flats: seq<map<string, Tree>>,
                    revision: string, tools: Tools)
    requires i < |rows| && |flats| == 2 && RowsPass(rows[..i], p, flat, flats, revision, tools)
    ensures RowsPass(rows[..i + 1], p, flat, flats, revision, tools)
            <==> RowPasses(rows[i], p, flat, flats, revision, tools)
    ensures !RowPasses(rows[i], p, flat, flats, revision, tools) ==> !RowsPass(rows, p, flat, flats, revision, tools)
  {
    assert rows[..i + 1] == rows[..i] + [rows[i]];
    assert rows[i] in rows;
  }

  // ---- what acceptance means ----

  /** The classes are all there are, so the counts add up to the number of rows. */
  lemma {:induction false} CountsAddUp(rows: seq<Row>)
    ensures Count(rows, ExactEqual) + Count(rows, IdentitySubstitution) + Count(rows, DerivedRecompute)
            + Count(rows, DeliveryMetadataOnly) + Count(rows, IntentionallyAbsent) + Count(rows, ErrorMapping)
            + Count(rows, NotComparable) == |rows|
  {
    if rows != [] {
      CountsAddUp(rows[..|rows| - 1]);
    }
  }

  function Total(counts: map<Class, nat>): nat {
    Tally(counts, ExactEqual) + Tally(counts, IdentitySubstitution) + Tally(counts, DerivedRecompute)
    + Tally(counts, DeliveryMetadataOnly) + Tally(counts, IntentionallyAbsent) + Tally(counts, ErrorMapping)
    + Tally(counts, NotComparable)
  }

  /** The returned counts sum to twice the old rows. */
  lemma CountsSumToTwice(counts: map<Class, nat>, rows: seq<Row>)
    requires Counts(counts, 2, rows, [])
    ensures Total(counts) == 2 * |rows|
  {
    CountsAddUp(rows);
    assert forall c :: Count([], c) == 0;
  }

  lemma RowOf(checked: seq<Row>, row: Row, p: nat, flat: map<string, Tree>, flats: seq<map<string, Tree>>,
              revision: string, tools: Tools)
    requires |flats| == 2 && RowsPass(checked, p, flat, flats, revision, tools) && row in checked
    ensures RowPasses(row, p, flat, flats, revision, tools)
  {
  }

  /** What acceptance says of one record, with its flat map and the new ones named. */
  ghost predicate Compared(rows: seq<Row>, records: seq<Tree>, requests: seq<Tree>, responses: seq<Tree>,
                           revision: string, retained: string, tools: Tools, p: nat, flat: map<string, Tree>,
                           flats: seq<map<string, Tree>>) {
    Accepts(rows, records, requests, responses, revision, retained, tools)
    && p < 2 && Flatten(records[p], "") == Some(flat) && flats == NewFlats(requests, responses)
  }

  lemma ComparedRows(rows: seq<Row>, records: seq<Tree>, requests: seq<Tree>, responses: seq<Tree>, revision: string,
                     retained: string, tools: Tools, p: nat, flat: map<string, Tree>, flats: seq<map<string, Tree>>)
    requires Compared(rows, records, requests, responses, revision, retained, tools, p, flat, flats)
    ensures |flats| == 2 && RowsPass(OldRows(rows), p, flat, flats, revision, tools)
    ensures flat.Keys == Paths(OldRows(rows))
  {
    RecordRows(rows, records[p], requests[p], p, flat, flats, revision, retained, tools);
  }

  lemma RecordRows(rows: seq<Row>, record: Tree, request: Tree, p: nat, flat: map<string, Tree>,
                   flats: seq<map<string, Tree>>, revision: string, retained: string, tools: Tools)
    requires |flats| == 2 && Flatten(record, "") == Some(flat)
    requires RecordPasses(rows, record, request, p, flats, revision, retained, tools)
    ensures RowsPass(OldRows(rows), p, flat, flats, revision, tools)
    ensures flat.Keys == Paths(OldRows(rows))
  {
  }

  lemma ComparedRow(rows: seq<Row>, records: seq<Tree>, requests: seq<Tree>, responses: seq<Tree>, revision: string,
                    retained: string, tools: Tools, p: nat, flat: map<string, Tree>, flats: seq<map<string, Tree>>,
                    row: Row)
    requires Compared(rows, records, requests, responses, revision, retained, tools, p, flat, flats)
    requires row in rows && row.side == Old
    ensures |flats| == 2 && RowPasses(row, p, flat, flats, revision, tools)
  {
    ComparedRows(rows, records, requests, responses, revision, retained, tools, p, flat, flats);
    OldRowsIn(rows, row);
    RowOf(OldRows(rows), row, p, flat, flats, revision, tools);
  }

  /** Every old leaf of both records is checked by exactly one rule, which passed. */
  lemma EveryOldLeafCheckedOnce(rows: seq<Row>, records: seq<Tree>, requests: seq<Tree>, responses: seq<Tree>,
                                revision: string, retained: string, tools: Tools, p: nat, flat: map<string, Tree>,
                                flats: seq<map<string, Tree>>, path: string) returns (row: Row)
    requires NoDuplicates(rows) && path in flat
    requires Compared(rows, records, requests, responses, revision, retained, tools, p, flat, flats)
    ensures row in rows && row.side == Old && row.path == path
    ensures |flats| == 2 && RowPasses(row, p, flat, flats, revision, tools)
    ensures forall other :: other in rows && other.side == Old && other.path == path ==> other == row
  {
    ComparedRows(rows, records, requests, responses, revision, retained, tools, p, flat, flats);
    assert path in Paths(OldRows(rows));
    row :| row in OldRows(rows) && row.path == path;
    OldRowsIn(rows, row);
    RowOf(OldRows(rows), row, p, flat, flats, revision, tools);
  }

  /** A manifest leaf for participant i is held against participant i's response, whichever record it is read from. */
  lemma ManifestLeavesAreNotCollapsed(rows: seq<Row>, records: seq<Tree>, requests: seq<Tree>, responses: seq<Tree>,
                                      revision: string, retained: string, tools: Tools, p: nat, flat: map<string, Tree>,
                                      flats: seq<map<string, Tree>>, row: Row, name: string, rest: string, i: nat)
    requires Compared(rows, records, requests, responses, revision, retained, tools, p, flat, flats)
    requires row in rows && row.side == Old
    requires i < 2 && IsCivilPath(row.path, name, rest) && tools.parseInt(name) == Some(i)
    ensures |flats| == 2 && row.path in flat
    ensures ClassHolds(row, flat[row.path], flat, flats, i, revision, tools)
  {
    ComparedRow(rows, records, requests, responses, revision, retained, tools, p, flat, flats, row);
    assert StartsWith(row.path, "/manifest/civil/");
    AboutIsParticipant(row.path, p, tools, i);
    ClassByClass(row, flat[row.path], flat, flats, i, revision, tools);
    HoldIsHolds(row, Wanted(row, flat[row.path], flat, revision, tools).value, flats, i, tools);
  }

  /**
   Determination: for the same old records and revision, any two accepted pairs of responses agree on
   every targeted leaf, bit for bit where the leaf holds no dict.
   */
  lemma AcceptedResponsesAgree(rows: seq<Row>, records: seq<Tree>, revision: string, retained: string, tools: Tools,
                               p: nat, flat: map<string, Tree>, requests: seq<Tree>, responses: seq<Tree>,
                               flats: seq<map<string, Tree>>, requests': seq<Tree>, responses': seq<Tree>,
                               flats': seq<map<string, Tree>>, row: Row, target: string)
    requires PartialEquivalence(tools.sameDict)
    requires Compared(rows, records, requests, responses, revision, retained, tools, p, flat, flats)
    requires Compared(rows, records, requests', responses', revision, retained, tools, p, flat, flats')
    requires row in rows && row.side == Old && IsTarget(row, target)
    ensures |flats| == 2 && |flats'| == 2
    ensures Participant(row.path, p, tools).Some? && Indexes(Participant(row.path, p, tools).value)
    ensures var index := Participant(row.path, p, tools).value;
            var a, b := At(flats, index), At(flats', index);
            target in a && target in b && Equal(a[target], b[target], tools.sameDict)
            && (DictFree(a[target]) ==> a[target] == b[target])
  {
    ComparedRow(rows, records, requests, responses, revision, retained, tools, p, flat, flats, row);
    ComparedRow(rows, records, requests', responses', revision, retained, tools, p, flat, flats', row);
    LiveIn(row.targets, target);
    PassingRowsAgree(row, p, flat, flats, flats', revision, tools, target);
  }

  lemma PassingRowsAgree(row: Row, p: nat, flat: map<string, Tree>, flats: seq<map<string, Tree>>,
                         flats': seq<map<string, Tree>>, revision: string, tools: Tools, target: string)
    requires |flats| == 2 && |flats'| == 2 && PartialEquivalence(tools.sameDict)
    requires RowPasses(row, p, flat, flats, revision, tools) && RowPasses(row, p, flat, flats', revision, tools)
    requires target in LiveTargets(row.targets)
    ensures Participant(row.path, p, tools).Some? && Indexes(Participant(row.path, p, tools).value)
    ensures var index := Participant(row.path, p, tools).value;
            var a, b := At(flats, index), At(flats', index);
            target in a && target in b && Equal(a[target], b[target], tools.sameDict)
            && (DictFree(a[target]) ==> a[target] == b[target])
  {
    var index := Participant(row.path, p, tools).value;
    var wanted := Wanted(row, flat[row.path], flat, revision, tools).value;
    assert TargetHolds(wanted, flats, index, target, tools) && TargetHolds(wanted, flats', index, target, tools);
    var a, b := At(flats, index)[target], At(flats', index)[target];
    EqualSymmetric(wanted, a, tools.sameDict);
    EqualTransitive(a, wanted, b, tools.sameDict);
    if DictFree(a) {
      EqualIsIdentity(a, b, tools.sameDict);
    }
  }

  /** Each kind of identity leaf held its own old value, and its target holds its replacement; there are three kinds. */
  predicate Replaced(path: string, old': Tree, new': Tree, revision: string, pins: Pins) {
    (EndsWith(path, "/schema_version") ==>
       old' == Text("selected-place.v1") && new' == Text("SelectedPlaceInput.v1"))
    && (EndsWith(path, "/source_repository") ==> old' == Text(pins.oldRepository) && new' == Text(pins.newRepository))
    && (EndsWith(path, "/ace_git_sha") ==> old' == Text(pins.oldRevision) && new' == Text(revision))
    && (EndsWith(path, "/schema_version") || EndsWith(path, "/source_repository") || EndsWith(path, "/ace_git_sha"))
  }

  /** No path ends in two of the three ways, so the order of the tests does not matter. */
  lemma SuffixesApart(path: string)
    ensures !(EndsWith(path, "/schema_version") && EndsWith(path, "/source_repository"))
    ensures !(EndsWith(path, "/schema_version") && EndsWith(path, "/ace_git_sha"))
    ensures !(EndsWith(path, "/source_repository") && EndsWith(path, "/ace_git_sha"))
  {
    LastOf(path, "/schema_version", 'n');
    LastOf(path, "/source_repository", 'y');
    LastOf(path, "/ace_git_sha", 'a');
  }

  lemma LastOf(path: string, suffix: string, last: char)
    requires suffix != [] && suffix[|suffix| - 1] == last
    ensures EndsWith(path, suffix) ==> path != [] && path[|path| - 1] == last
  {
    if EndsWith(path, suffix) {
      assert path[|path| - |suffix|..][|suffix| - 1] == path[|path| - 1];
    }
  }

  lemma IdentityReplaced(row: Row, p: nat, flat: map<string, Tree>, flats: seq<map<string, Tree>>, revision: string,
                         tools: Tools, target: string)
    requires |flats| == 2 && RowPasses(row, p, flat, flats, revision, tools)
    requires row.category == IdentitySubstitution && target in LiveTargets(row.targets)
    ensures TargetHolds(Wanted(row, flat[row.path], flat, revision, tools).value, flats,
                        Participant(row.path, p, tools).value, target, tools)
    ensures Replaced(row.path, flat[row.path], At(flats, Participant(row.path, p, tools).value)[target], revision,
                     tools.pins)
  {
    var wanted := Wanted(row, flat[row.path], flat, revision, tools).value;
    assert TargetHolds(wanted, flats, Participant(row.path, p, tools).value, target, tools);
    EqualIsIdentity(wanted, At(flats, Participant(row.path, p, tools).value)[target], tools.sameDict);
    SuffixesApart(row.path);
  }

  /** With the accepted values: an accepted pair replaces each kind of identity in its own way. */
  lemma AcceptedIdentities(rows: seq<Row>, records: seq<Tree>, requests: seq<Tree>, responses: seq<Tree>,
                           revision: string, retained: string, tools: Tools, p: nat, flat: map<string, Tree>,
                           flats: seq<map<string, Tree>>, row: Row, target: string)
    requires Compared(rows, records, requests, responses, revision, retained, tools, p, flat, flats)
             && tools.pins == PINS
    requires row in rows && row.side == Old && row.category == IdentitySubstitution && IsTarget(row, target)
    ensures |flats| == 2 && row.path in flat && Participant(row.path, p, tools).Some?
    ensures Indexes(Participant(row.path, p, tools).value) && target in At(flats, Participant(row.path, p, tools).value)
    ensures Replaced(row.path, flat[row.path], At(flats, Participant(row.path, p, tools).value)[target], revision, PINS)
  {
    ComparedRow(rows, records, requests, responses, revision, retained, tools, p, flat, flats, row);
    LiveIn(row.targets, target);
    IdentityReplaced(row, p, flat, flats, revision, tools, target);
  }

  /** equal is not reflexive: a leaf holding a NaN or an infinity matches nothing, itself included. */
  lemma NonFiniteMatchesNothing(bits: nat, other: Tree, r: (Tree, Tree) -> bool)
    ensures !IsFinite(bits) <==> !Equal(Leaf(Float(bits)), Leaf(Float(bits)), r)
    ensures !IsFinite(bits) ==> !Equal(Leaf(Float(bits)), other, r)
  {
  }

  // ---- what a passing row says, class by class ----

  /** A target that is compared; targets among the error envelopes are not. */
  predicate IsTarget(row: Row, target: string) { target in row.targets && !StartsWith(target, "/error/") }

  lemma {:induction false} LiveIn(targets: seq<string>, target: string)
    ensures target in LiveTargets(targets) <==> target in targets && !StartsWith(target, "/error/")
  {
    if targets != [] {
      LiveIn(targets[1..], target);
      assert targets == [targets[0]] + targets[1..];
    }
  }

  /** The participant is named by the third step of a manifest path; any other leaf is about its own record. */
  ghost predicate IsAbout(path: string, record: nat, tools: Tools, index: int) {
    if StartsWith(path, "/manifest/civil/") then
      exists name, rest :: IsCivilPath(path, name, rest) && tools.parseInt(name) == Some(index)
    else index == record
  }

  predicate IsCivilPath(path: string, name: string, rest: string) {
    path == "/manifest/civil/" + (name + rest) && '/' !in name && (rest == "" || rest[0] == '/')
  }

  /** Every target is there and equals the value. */
  ghost predicate AllHold(row: Row, new': Tree, flats: seq<map<string, Tree>>, index: int, tools: Tools)
    requires |flats| == 2
  {
    forall target :: IsTarget(row, target) ==>
      -2 <= index < 2 && target in flats[index % 2] && Equal(new', flats[index % 2][target], tools.sameDict)
  }

  ghost predicate Untargeted(row: Row) { forall target :: target in row.targets ==> !IsTarget(row, target) }

  ghost predicate IdentityHolds(row: Row, old': Tree, flats: seq<map<string, Tree>>, index: int, revision: string,
                                tools: Tools)
    requires |flats| == 2
  {
    (EndsWith(row.path, "/schema_version") && old' == Text("selected-place.v1")
     && AllHold(row, Text("SelectedPlaceInput.v1"), flats, index, tools))
    || (EndsWith(row.path, "/source_repository") && old' == Text(tools.pins.oldRepository)
        && AllHold(row, Text(tools.pins.newRepository), flats, index, tools))
    || (EndsWith(row.path, "/ace_git_sha") && old' == Text(tools.pins.oldRevision)
        && AllHold(row, Text(revision), flats, index, tools))
  }

  /** The conversions: the manifest digest, clocks, instants and longitudes; other digests only keep their form. */
  ghost predicate ConversionHolds(row: Row, old': Tree, flat: map<string, Tree>, flats: seq<map<string, Tree>>,
                                  index: int, tools: Tools)
    requires |flats| == 2
  {
    if EndsWith(row.path, "/manifest_sha256") then
      old' == Text(tools.pins.oldManifest) && AllHold(row, Text(tools.pins.newManifest), flats, index, tools)
    else if EndsWith(row.path, "/time") || EndsWith(row.path, "/local_time") then
      exists new' :: tools.clock(old') == Some(new') && AllHold(row, new', flats, index, tools)
    else if EndsWith(row.path, "/utc") then
      exists new' :: tools.instant(old') == Some(new') && AllHold(row, new', flats, index, tools)
    else if EndsWith(row.path, "/longitude") then LongitudeHolds(row, old', flat, flats, index, tools)
    else
      StartsWith(row.path, "/manifest/") && EndsWith(row.path, "_sha256") && Untargeted(row) && tools.hex64(old')
  }

  /** A longitude is held against the hexadecimal number beside it. */
  ghost predicate LongitudeHolds(row: Row, old': Tree, flat: map<string, Tree>, flats: seq<map<string, Tree>>,
                                 index: int, tools: Tools)
    requires |flats| == 2
  {
    exists above, new' :: IsBeside(row.path, above, flat)
                          && tools.longitude(flat[above + "/binary64_hex"], old') == Some(new')
                          && AllHold(row, new', flats, index, tools)
  }

  predicate IsBeside(path: string, above: string, flat: map<string, Tree>) {
    path == above + "/longitude" && above + "/binary64_hex" in flat
  }

  ghost predicate ClassHolds(row: Row, old': Tree, flat: map<string, Tree>, flats: seq<map<string, Tree>>, index: int,
                             revision: string, tools: Tools)
    requires |flats| == 2
  {
    match row.category
    case ExactEqual => AllHold(row, old', flats, index, tools)
    case IdentitySubstitution => IdentityHolds(row, old', flats, index, revision, tools)
    case DerivedRecompute => ConversionHolds(row, old', flat, flats, index, tools)
    case ErrorMapping => old' == Text("resolved") && AllHold(row, Text("unique"), flats, index, tools)
    case IntentionallyAbsent =>
      Untargeted(row) && (EndsWith(row.path, "/reason") ==> old' == Leaf(Nothing))
      && (EndsWith(row.path, "/candidate_ids") ==> old' == List([]))
    case NotComparable => Untargeted(row) && row.hasRule && StartsWith(row.path, "/manifest/")
    case DeliveryMetadataOnly => false
  }

  /** A row holds for a record: its leaf is there, is about a participant, and meets the conditions of its class. */
  ghost predicate RowHolds(row: Row, record: nat, flat: map<string, Tree>, flats: seq<map<string, Tree>>,
                           revision: string, tools: Tools)
    requires |flats| == 2
  {
    row.path in flat
    && exists index :: IsAbout(row.path, record, tools, index)
                       && ClassHolds(row, flat[row.path], flat, flats, index, revision, tools)
  }

  lemma {:induction false} FirstStepIs(s: string, name: string, rest: string)
    requires s == name + rest && '/' !in name && (rest == "" || rest[0] == '/')
    ensures FirstStep(s) == name
  {
    if name != "" {
      assert s[0] == name[0] && name[0] in name;
      FirstStepIs(s[1..], name[1..], rest);
    }
  }

  lemma {:induction false} FirstStepSplits(s: string)
    ensures |FirstStep(s)| <= |s| && s == FirstStep(s) + s[|FirstStep(s)|..] && '/' !in FirstStep(s)
    ensures s[|FirstStep(s)|..] == "" || s[|FirstStep(s)|..][0] == '/'
  {
    if s != "" && s[0] != '/' {
      FirstStepSplits(s[1..]);
      assert s == [s[0]] + s[1..];
      assert s[|FirstStep(s)|..] == s[1..][|FirstStep(s[1..])|..];
    }
  }

  lemma AboutIsParticipant(path: string, record: nat, tools: Tools, index: int)
    ensures Participant(path, record, tools) == Some(index) <==> IsAbout(path, record, tools, index)
  {
    if StartsWith(path, "/manifest/civil/") {
      var tail := path[16..];
      FirstStepSplits(tail);
      assert path == "/manifest/civil/" + tail;
      assert IsCivilPath(path, FirstStep(tail), tail[|FirstStep(tail)|..]);
      forall name, rest | IsCivilPath(path, name, rest) ensures FirstStep(tail) == name {
        assert tail == name + rest;
        FirstStepIs(tail, name, rest);
      }
    }
  }

  lemma {:induction false} ParentIs(path: string, above: string, last: string)
    requires path == above + "/" + last && '/' !in last
    ensures Parent(path) == above
    decreases |path|
  {
    if last == "" {
      assert path[..|path| - 1] == above;
    } else {
      var n := |last| - 1;
      assert path[..|path| - 1] == above + "/" + last[..n];
      assert path[|path| - 1] == last[n] && last[n] in last;
      ParentIs(path[..|path| - 1], above, last[..n]);
    }
  }

  lemma HoldIsHolds(row: Row, new': Tree, flats: seq<map<string, Tree>>, index: int, tools: Tools)
    requires |flats| == 2
    ensures AllHold(row, new', flats, index, tools)
            <==> TargetsHold(new', flats, index, LiveTargets(row.targets), tools)
  {
    forall target ensures target in LiveTargets(row.targets) <==> IsTarget(row, target) {
      LiveIn(row.targets, target);
    }
  }

  lemma UntargetedIsNone(row: Row)
    ensures Untargeted(row) <==> LiveTargets(row.targets) == []
  {
    forall target ensures target in LiveTargets(row.targets) <==> IsTarget(row, target) {
      LiveIn(row.targets, target);
    }
    if LiveTargets(row.targets) != [] {
      assert LiveTargets(row.targets)[0] in LiveTargets(row.targets);
    }
  }

  lemma IdentityByKind(row: Row, old': Tree, flats: seq<map<string, Tree>>, index: int, revision: string, tools: Tools)
    requires |flats| == 2
    ensures IdentityHolds(row, old', flats, index, revision, tools)
            <==> Substituted(row.path, old', revision, tools.pins).Some?
                 && AllHold(row, Substituted(row.path, old', revision, tools.pins).value, flats, index, tools)
  {
    SuffixesApart(row.path);
  }

  lemma LongitudeByKind(row: Row, old': Tree, flat: map<string, Tree>, flats: seq<map<string, Tree>>, index: int,
                        tools: Tools)
    requires |flats| == 2 && EndsWith(row.path, "/longitude")
    ensures var sibling := Parent(row.path) + "/binary64_hex";
            LongitudeHolds(row, old', flat, flats, index, tools)
            <==> sibling in flat && tools.longitude(flat[sibling], old').Some?
                 && AllHold(row, tools.longitude(flat[sibling], old').value, flats, index, tools)
  {
    AboveLongitude(row.path);
    var above := Parent(row.path);
    forall x | IsBeside(row.path, x, flat) ensures x == above {
      LastStepsEqual(row.path, x, above);
    }
    assert above + "/binary64_hex" in flat ==> IsBeside(row.path, above, flat);
  }

  lemma AboveLongitude(path: string)
    requires EndsWith(path, "/longitude")
    ensures path == Parent(path) + "/longitude"
  {
    var above := path[..|path| - 10];
    assert path == above + "/longitude" == above + "/" + "longitude";
    ParentIs(path, above, "longitude");
  }

  lemma LastStepsEqual(path: string, x: string, y: string)
    requires path == x + "/longitude" && path == y + "/longitude"
    ensures x == y
  {
    assert x == path[..|path| - 10] && y == path[..|path| - 10];
  }

  lemma ConversionByKind(row: Row, old': Tree, flat: map<string, Tree>, flats: seq<map<string, Tree>>, index: int,
                         tools: Tools)
    requires |flats| == 2
    ensures var derived := Derived(row.path, old', flat, LiveTargets(row.targets) == [], tools);
            ConversionHolds(row, old', flat, flats, index, tools)
            <==> derived.Some? && AllHold(row, derived.value, flats, index, tools)
  {
    UntargetedIsNone(row);
    if EndsWith(row.path, "/longitude") {
      LongitudeByKind(row, old', flat, flats, index, tools);
    }
  }

  /** A class holds exactly if the comparison wants a value there and every live target holds it. */
  lemma ClassByClass(row: Row, old': Tree, flat: map<string, Tree>, flats: seq<map<string, Tree>>, index: int,
                     revision: string, tools: Tools)
    requires |flats| == 2
    ensures var wanted := Wanted(row, old', flat, revision, tools);
            ClassHolds(row, old', flat, flats, index, revision, tools)
            <==> wanted.Some? && AllHold(row, wanted.value, flats, index, tools)
  {
    match row.category
    case IdentitySubstitution => IdentityByKind(row, old', flats, index, revision, tools);
    case DerivedRecompute => ConversionByKind(row, old', flat, flats, index, tools);
    case _ => UntargetedIsNone(row);
  }

  /** A row passes exactly if it holds: both ways, for every class. */
  lemma PassesIsHolds(row: Row, record: nat, flat: map<string, Tree>, flats: seq<map<string, Tree>>, revision: string,
                      tools: Tools)
    requires |flats| == 2
    ensures RowPasses(row, record, flat, flats, revision, tools)
            <==> RowHolds(row, record, flat, flats, revision, tools)
  {
    forall index ensures Participant(row.path, record, tools) == Some(index)
                         <==> IsAbout(row.path, record, tools, index) {
      AboutIsParticipant(row.path, record, tools, index);
    }
    if row.path in flat {
      forall index
        ensures ClassHolds(row, flat[row.path], flat, flats, index, revision, tools)
                <==> Wanted(row, flat[row.path], flat, revision, tools).Some?
                     && TargetsHold(Wanted(row, flat[row.path], flat, revision, tools).value, flats, index,
                                    LiveTargets(row.targets), tools)
      {
        ClassByClass(row, flat[row.path], flat, flats, index, revision, tools);
        if Wanted(row, flat[row.path], flat, revision, tools).Some? {
          HoldIsHolds(row, Wanted(row, flat[row.path], flat, revision, tools).value, flats, index, tools);
        }
      }
    }
  }

  // ---- what acceptance says, as a whole ----

  /** A row of the new side that is not about an error envelope. */
  predicate IsWire(row: Row) { row.side == New && !StartsWith(row.path, "/error/") }

  ghost predicate IsOldPath(rows: seq<Row>, path: string) {
    exists row :: row in rows && row.side == Old && row.path == path
  }

  ghost predicate IsWirePath(rows: seq<Row>, path: string) {
    exists row :: row in rows && IsWire(row) && row.path == path
  }

  /** A new side: valid, with exactly the leaves that the rules list, and of the stated revision. */
  ghost predicate NewSideHolds(rows: seq<Row>, request: Tree, response: Tree, revision: string, tools: Tools) {
    tools.validRequest(request) && tools.validResponse(response) && NewFlat(request, response).Some?
    && (forall path :: path in NewFlat(request, response).value <==> IsWirePath(rows, path))
    && Field(Field(response, "provenance").value, "source_revision") == Some(Text(revision))
  }

  /** A record: exactly the leaves that the rules list, the retained manifest, its request, and every old row holds. */
  ghost predicate RecordHolds(rows: seq<Row>, record: Tree, request: Tree, p: nat, flats: seq<map<string, Tree>>,
                              revision: string, retained: string, tools: Tools)
    requires |flats| == 2
  {
    Flatten(record, "").Some?
    && (forall path :: path in Flatten(record, "").value <==> IsOldPath(rows, path))
    && Field(record, "manifest").Some? && tools.digest(Field(record, "manifest").value) == retained
    && Field(record, "selected").Some? && tools.mapRequest(Field(record, "selected").value).Some?
    && tools.sameRequest(tools.mapRequest(Field(record, "selected").value).value, request)
    && forall row :: row in rows && row.side == Old ==>
         RowHolds(row, p, Flatten(record, "").value, flats, revision, tools)
  }

  /** The whole comparison holds, with both participants apart and no new leaf out of nowhere. */
  ghost predicate PairHolds(rows: seq<Row>, records: seq<Tree>, requests: seq<Tree>, responses: seq<Tree>,
                            revision: string, retained: string, tools: Tools) {
    |records| == 2 && |requests| == 2 && |responses| == 2 && tools.hex40(revision)
    && NewSideHolds(rows, requests[0], responses[0], revision, tools)
    && NewSideHolds(rows, requests[1], responses[1], revision, tools)
    && (var flats := NewFlats(requests, responses);
        RecordHolds(rows, records[0], requests[0], 0, flats, revision, retained, tools)
        && RecordHolds(rows, records[1], requests[1], 1, flats, revision, retained, tools))
    && NothingNew(rows)
  }

  /** New leaves without old sources are identities. */
  ghost predicate NothingNew(rows: seq<Row>) {
    forall row :: row in rows && IsWire(row) && !row.hasSources ==> row.category == IdentitySubstitution
  }

  lemma NewSideIsAccepted(rows: seq<Row>, request: Tree, response: Tree, revision: string, tools: Tools)
    ensures NewSideHolds(rows, request, response, revision, tools)
            <==> NewAccepted(rows, request, response, revision, tools)
  {
    forall path ensures path in WirePaths(rows) <==> IsWirePath(rows, path) {
    }
  }

  lemma RecordIsPassed(rows: seq<Row>, record: Tree, request: Tree, p: nat, flats: seq<map<string, Tree>>,
                       revision: string, retained: string, tools: Tools)
    requires |flats| == 2
    ensures RecordHolds(rows, record, request, p, flats, revision, retained, tools)
            <==> RecordPasses(rows, record, request, p, flats, revision, retained, tools)
  {
    OldPathsAre(rows);
    if Flatten(record, "").Some? {
      RowsHold(rows, p, Flatten(record, "").value, flats, revision, tools);
    }
  }

  lemma OldPathsAre(rows: seq<Row>)
    ensures forall path :: path in Paths(OldRows(rows)) <==> IsOldPath(rows, path)
  {
    forall row ensures row in OldRows(rows) <==> row in rows && row.side == Old {
      OldRowsIn(rows, row);
    }
  }

  lemma RowsHold(rows: seq<Row>, p: nat, flat: map<string, Tree>, flats: seq<map<string, Tree>>, revision: string,
                 tools: Tools)
    requires |flats| == 2
    ensures RowsPass(OldRows(rows), p, flat, flats, revision, tools)
            <==> forall row :: row in rows && row.side == Old ==> RowHolds(row, p, flat, flats, revision, tools)
  {
    forall row ensures (row in OldRows(rows) <==> row in rows && row.side == Old)
                       && (RowPasses(row, p, flat, flats, revision, tools)
                           <==> RowHolds(row, p, flat, flats, revision, tools)) {
      OldRowsIn(rows, row);
      PassesIsHolds(row, p, flat, flats, revision, tools);
    }
  }

  /** Acceptance is what it says: no helper of the comparison is left in the statement. */
  lemma AcceptsIsHolds(rows: seq<Row>, records: seq<Tree>, requests: seq<Tree>, responses: seq<Tree>, revision: string,
                       retained: string, tools: Tools)
    ensures Accepts(rows, records, requests, responses, revision, retained, tools)
            <==> PairHolds(rows, records, requests, responses, revision, retained, tools)
  {
    if |records| == 2 && |requests| == 2 && |responses| == 2 {
      NewSideIsAccepted(rows, requests[0], responses[0], revision, tools);
      NewSideIsAccepted(rows, requests[1], responses[1], revision, tools);
      if AllNewAccepted(rows, requests, responses, revision, tools) {
        var flats := NewFlats(requests, responses);
        RecordIsPassed(rows, records[0], requests[0], 0, flats, revision, retained, tools);
        RecordIsPassed(rows, records[1], requests[1], 1, flats, revision, retained, tools);
      }
      ClassifiedMeans(rows);
    }
  }

  lemma ClassifiedMeans(rows: seq<Row>)
    ensures AllClassified(rows) <==> NothingNew(rows)
  {
    assert forall row :: row in rows ==> exists i :: 0 <= i < |rows| && rows[i] == row;
  }

  /** The new side's flat map: the request, the response and the response's provenance, each under its own name. */
  lemma NewFlatMeans(request: Tree, response: Tree, flat: map<string, Tree>)
    requires NewFlat(request, response) == Some(flat)
    ensures Field(response, "provenance").Some?
    ensures Flatten(request, "/request").Some? && Flatten(response, "/response").Some?
    ensures Flatten(Field(response, "provenance").value, "/provenance").Some?
    ensures flat == Flatten(request, "/request").value + Flatten(response, "/response").value
                    + Flatten(Field(response, "provenance").value, "/provenance").value
  {
    var v := Dict([Entry("request", request), Entry("response", response),
                   Entry("provenance", Field(response, "provenance").value)]);
    var a, b, c := Entry("request", request), Entry("response", response),
        Entry("provenance", Field(response, "provenance").value);
    assert v == Dict([a, b, c]) && Flatten(v, "") == Some(flat);
    ThreeKids(v, a, b, c, flat);
    Prefixed(a.key, b.key, c.key);
  }

  lemma Prefixed(a: string, b: string, c: string)
    requires a == "request" && b == "response" && c == "provenance"
    ensures "" + "/" + a == "/request" && "" + "/" + b == "/response" && "" + "/" + c == "/provenance"
  {
    assert "/" + a == "/request" && "/" + b == "/response" && "/" + c == "/provenance";
  }

  lemma ThreeKids(v: Tree, a: Entry, b: Entry, c: Entry, flat: map<string, Tree>)
    requires v == Dict([a, b, c]) && Flatten(v, "") == Some(flat)
    ensures Flatten(a.value, "" + "/" + a.key).Some? && Flatten(b.value, "" + "/" + b.key).Some?
    ensures Flatten(c.value, "" + "/" + c.key).Some?
    ensures flat == Flatten(a.value, "" + "/" + a.key).value + Flatten(b.value, "" + "/" + b.key).value
                    + Flatten(c.value, "" + "/" + c.key).value
  {
    var kids := v.entries;
    assert kids[0] == a && kids[1] == b && kids[2] == c;
    var two := LastKidAdded(v, kids, flat);
    assert kids[..2] == [a, b];
    var one := LastKidAdded(v, [a, b], two);
    assert [a, b][..1] == [a];
    var none := LastKidAdded(v, [a], one);
    assert [a][..0] == [];
  }

  lemma LastKidAdded(v: Tree, kids: seq<Entry>, flat: map<string, Tree>) returns (before: map<string, Tree>)
    requires kids != [] && (forall i :: 0 <= i < |kids| ==> kids[i].value < v) && FlattenKids(v, kids, "") == Some(flat)
    ensures FlattenKids(v, kids[..|kids| - 1], "") == Some(before)
    ensures Flatten(kids[|kids| - 1].value, "" + "/" + kids[|kids| - 1].key).Some?
    ensures flat == before + Flatten(kids[|kids| - 1].value, "" + "/" + kids[|kids| - 1].key).value
  {
    before := FlattenKids(v, kids[..|kids| - 1], "").value;
  }
}
