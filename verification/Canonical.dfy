/** The canonical encoder: normalisation, key order and bytes, and what the bytes determine. */
module Canonical {
  import opened Results
  import opened Json
  import opened Unicode
  import Lex
  import Sorting

  /** A number as it reaches the encoder: an integer, or a binary64 (finite, negative zero, or not finite). */
  datatype Number = Integer(n: int) | Finite(r: real) | NegativeZero | NotFinite

  /** An input tree. Texts are code units, so that unpaired surrogates can occur. */
  datatype Value =
    | Null
    | Bool(b: bool)
    | Num(n: Number)
    | Text(u: seq<Unit>)
    | List(items: seq<Value>)
    | Object(members: seq<Member>)
    | Unsupported

  datatype Member = Member(key: seq<Unit>, value: Value)

  /** NFC is a parameter: any function from texts to texts. */
  type Form = string -> string

  const SAFE := 9_007_199_254_740_991

  /** int(item) of a safe integer, whichever way it is spelled. */
  function SafeInteger(n: Number): Option<int> {
    match n
    case Integer(i) => if -SAFE <= i <= SAFE then Some(i) else None
    case Finite(r) => if r == r.Floor as real && -SAFE <= r.Floor <= SAFE then Some(r.Floor) else None
    case NegativeZero => Some(0)
    case NotFinite => None
  }

  /** An integer is accepted however it is spelled, exactly if a binary64 holds it and its neighbours apart. */
  lemma SafeMeans(n: Number, i: int)
    ensures SafeInteger(n) == Some(i)
            <==> (n == Integer(i) || n == Finite(i as real) || (n == NegativeZero && i == 0))
                 && -9_007_199_254_740_992 < i < 9_007_199_254_740_992
  {
  }

  /** Strict encoding check, then NFC. */
  function NormalText(u: seq<Unit>, nfc: Form): Option<string> {
    match FromUnits(u)
    case None => None
    case Some(s) => Some(nfc(s))
  }

  /** Keys are ordered by their UTF-16 big-endian bytes. */
  function KeyBytes(m: NMember<string>): seq<int> { BigEndian(ToUnits(m.key)) }

  predicate HasKey<S(==)>(members: seq<NMember<S>>, key: S) {
    exists i :: 0 <= i < |members| && members[i].key == key
  }

  function Normalize(v: Value, nfc: Form): Option<Norm<string>>
    decreases v, 1
  {
    match v
    case Null => Some(NNull)
    case Bool(b) => Some(NBool(b))
    case Num(n) => (match SafeInteger(n) case None => None case Some(i) => Some(NInt(i)))
    case Text(u) => (match NormalText(u, nfc) case None => None case Some(s) => Some(NText(s)))
    case List(items) => (match NormalizeItems(items, nfc) case None => None case Some(out) => Some(NList(out)))
    case Object(members) =>
      (match NormalizeMembers(members, nfc)
       case None => None
       case Some(out) => Some(NObject(Sorting.Sort(out, KeyBytes))))
    case Unsupported => None
  }

  function NormalizeItems(items: seq<Value>, nfc: Form): (r: Option<seq<Norm<string>>>)
    ensures r.Some? ==> |r.value| == |items|
    decreases items, 0
  {
    if items == [] then Some([])
    else
      match NormalizeItems(items[..|items| - 1], nfc)
      case None => None
      case Some(out) =>
        match Normalize(items[|items| - 1], nfc)
        case None => None
        case Some(v) => Some(out + [v])
  }

  /** Members in insertion order; a key already present after normalisation is an error. */
  function NormalizeMembers(members: seq<Member>, nfc: Form): (r: Option<seq<NMember<string>>>)
    ensures r.Some? ==> |r.value| == |members|
    decreases members, 0
  {
    if members == [] then Some([])
    else
      match NormalizeMembers(members[..|members| - 1], nfc)
      case None => None
      case Some(out) =>
        var m := members[|members| - 1];
        match NormalText(m.key, nfc)
        case None => None
        case Some(k) =>
          if HasKey(out, k) then None
          else
            match Normalize(m.value, nfc)
            case None => None
            case Some(v) => Some(out + [NMember(k, v)])
  }

  /** The canonical bytes. */
  function Encode(v: Value, nfc: Form): Option<seq<int>> {
    match Normalize(v, nfc)
    case None => None
    case Some(n) => Some(Utf8(Emit(n)))
  }

  /** The normaliser as it is written: loops that fill the output list and the output dictionary. */
  method NormalizeByLoops(item: Value, nfc: Form) returns (r: Option<Norm<string>>)
    ensures r == Normalize(item, nfc)
    decreases item, 1
  {
    match item {
      case Null => return Some(NNull);
      case Bool(b) => return Some(NBool(b));
      case Num(n) =>
        var i := SafeInteger(n);
        return if i.None? then None else Some(NInt(i.value));
      case Text(u) =>
        var s := NormalText(u, nfc);
        return if s.None? then None else Some(NText(s.value));
      case List(items) =>
        var out := NormalizeList(items, nfc);
        return if out.None? then None else Some(NList(out.value));
      case Object(members) =>
        var out := NormalizeDictionary(members, nfc);
        return if out.None? then None else Some(NObject(Sorting.Sort(out.value, KeyBytes)));
      case Unsupported => return None;
    }
  }

  method NormalizeList(items: seq<Value>, nfc: Form) returns (r: Option<seq<Norm<string>>>)
    ensures r == NormalizeItems(items, nfc)
    decreases items, 0
  {
    var out: seq<Norm<string>> := [];
    for i := 0 to |items|
      invariant NormalizeItems(items[..i], nfc) == Some(out)
    {
      var v := NormalizeByLoops(items[i], nfc);
      assert items[..i + 1][..i] == items[..i];
      if v.None? {
        ItemsFail(items, i + 1, nfc);
        return None;
      }
      out := out + [v.value];
    }
    assert items[..|items|] == items;
    return Some(out);
  }

  method NormalizeDictionary(members: seq<Member>, nfc: Form) returns (r: Option<seq<NMember<string>>>)
    ensures r == NormalizeMembers(members, nfc)
    decreases members, 0
  {
    var out: seq<NMember<string>> := [];
    for i := 0 to |members|
      invariant NormalizeMembers(members[..i], nfc) == Some(out)
    {
      assert members[..i + 1][..i] == members[..i];
      var k := NormalText(members[i].key, nfc);
      if k.None? || HasKey(out, k.value) {
        MembersFail(members, i + 1, nfc);
        return None;
      }
      var v := NormalizeByLoops(members[i].value, nfc);
      if v.None? {
        MembersFail(members, i + 1, nfc);
        return None;
      }
      out := out + [NMember(k.value, v.value)];
    }
    assert members[..|members|] == members;
    return Some(out);
  }

  lemma {:induction false} ItemsFail(items: seq<Value>, i: nat, nfc: Form)
    requires i <= |items| && NormalizeItems(items[..i], nfc).None?
    ensures NormalizeItems(items, nfc).None?
    decreases |items|
  {
    if i < |items| {
      assert items[..|items| - 1][..i] == items[..i];
      ItemsFail(items[..|items| - 1], i, nfc);
    } else {
      assert items[..i] == items;
    }
  }

  lemma {:induction false} MembersFail(members: seq<Member>, i: nat, nfc: Form)
    requires i <= |members| && NormalizeMembers(members[..i], nfc).None?
    ensures NormalizeMembers(members, nfc).None?
    decreases |members|
  {
    if i < |members| {
      assert members[..|members| - 1][..i] == members[..i];
      MembersFail(members[..|members| - 1], i, nfc);
    } else {
      assert members[..i] == members;
    }
  }

  // ---- what the bytes determine ----

  /** Two accepted trees have the same bytes exactly when they have the same normal tree. */
  lemma SameBytesIffSameNormal(v: Value, w: Value, nfc: Form)
    requires Normalize(v, nfc).Some? && Normalize(w, nfc).Some?
    ensures Encode(v, nfc) == Encode(w, nfc) <==> Normalize(v, nfc) == Normalize(w, nfc)
  {
    var a, b := Normalize(v, nfc).value, Normalize(w, nfc).value;
    if Encode(v, nfc) == Encode(w, nfc) {
      Utf8Injective(Emit(a), Emit(b));
      EmitInjective(a, b);
    }
  }

  /** json.loads of UTF-8 bytes, for the texts of the profile: one value and nothing after it. */
  function ParseBytes(b: seq<int>): Option<Norm<string>> {
    match FromUtf8(b)
    case None => None
    case Some(s) =>
      match ParseValue(s)
      case None => None
      case Some((n, rest)) => if rest == [] then Some(n) else None
  }

  /** Parsing the bytes of an accepted tree gives its normal tree. */
  lemma ParsedBack(v: Value, nfc: Form)
    requires Encode(v, nfc).Some?
    ensures ParseBytes(Encode(v, nfc).value) == Normalize(v, nfc)
  {
    PrintedParses(Normalize(v, nfc).value);
  }

  lemma PrintedParses(n: Norm<string>)
    ensures ParseBytes(Utf8(Emit(n))) == Some(n)
  {
    Utf8RoundTrip(Emit(n));
    ParseEmitted(n, []);
    assert Emit(n) + [] == Emit(n);
  }

  /** A normal tree read as an input again. */
  function Embed(n: Norm<string>): Value
    decreases n, 1
  {
    match n
    case NNull => Null
    case NBool(b) => Bool(b)
    case NInt(i) => Num(Integer(i))
    case NText(s) => Text(ToUnits(s))
    case NList(items) => List(EmbedItems(items))
    case NObject(members) => Object(EmbedMembers(members))
  }

  function EmbedItems(items: seq<Norm<string>>): (r: seq<Value>)
    ensures |r| == |items|
    decreases items, 0
  {
    if items == [] then [] else EmbedItems(items[..|items| - 1]) + [Embed(items[|items| - 1])]
  }

  function EmbedMembers(members: seq<NMember<string>>): (r: seq<Member>)
    ensures |r| == |members|
    decreases members, 0
  {
    if members == [] then [] else EmbedMembers(members[..|members| - 1]) + [EmbedMember(members[|members| - 1])]
  }

  function EmbedMember(m: NMember<string>): Member
    decreases m, 2
  {
    Member(ToUnits(m.key), Embed(m.value))
  }

  /** What the normaliser produces: texts that NFC keeps, safe integers, members strictly in key order. */
  ghost predicate Normal(n: Norm<string>, nfc: Form)
    decreases n
  {
    match n
    case NNull => true
    case NBool(_) => true
    case NInt(i) => -SAFE <= i <= SAFE
    case NText(s) => nfc(s) == s
    case NList(items) => forall i :: 0 <= i < |items| ==> Normal(items[i], nfc)
    case NObject(members) =>
      Sorting.Ascending(members, KeyBytes)
      && forall i :: 0 <= i < |members| ==> nfc(members[i].key) == members[i].key && Normal(members[i].value, nfc)
  }

  ghost predicate Idempotent(nfc: Form) { forall s :: nfc(nfc(s)) == nfc(s) }

  lemma KeyBytesInjective(m: NMember<string>, m': NMember<string>)
    requires KeyBytes(m) == KeyBytes(m')
    ensures m.key == m'.key
  {
    var a, b := ToUnits(m.key), ToUnits(m'.key);
    ByteOrderIsUnitOrder(a, b);
    ByteOrderIsUnitOrder(b, a);
    Lex.Trichotomy(a, b);
    Lex.Trichotomy(BigEndian(a), BigEndian(b));
    ToUnitsInjective(m.key, m'.key);
  }

  predicate DistinctNormalKeys<S(==)>(members: seq<NMember<S>>) {
    forall i, j :: 0 <= i < j < |members| ==> members[i].key != members[j].key
  }

  lemma DistinctSortsAscending(members: seq<NMember<string>>)
    requires DistinctNormalKeys(members)
    ensures Sorting.DistinctKeys(members, KeyBytes) && Sorting.Ascending(Sorting.Sort(members, KeyBytes), KeyBytes)
  {
    forall i, j | 0 <= i < j < |members| ensures KeyBytes(members[i]) != KeyBytes(members[j]) {
      if KeyBytes(members[i]) == KeyBytes(members[j]) {
        KeyBytesInjective(members[i], members[j]);
      }
    }
    Sorting.SortAscending(members, KeyBytes);
  }

  /** Everything an accepted object's members are: normalised in place, keys distinct afterwards. */
  lemma {:induction false} MembersPointwise(members: seq<Member>, nfc: Form)
    ensures NormalizeMembers(members, nfc).Some? <==>
              (forall i :: 0 <= i < |members| ==>
                NormalText(members[i].key, nfc).Some? && Normalize(members[i].value, nfc).Some?)
              && (forall i, j :: 0 <= i < j < |members| ==>
                NormalText(members[i].key, nfc) != NormalText(members[j].key, nfc))
    ensures NormalizeMembers(members, nfc).Some? ==>
              var out := NormalizeMembers(members, nfc).value;
              DistinctNormalKeys(out)
              && forall i :: 0 <= i < |members| ==>
                Some(out[i].key) == NormalText(members[i].key, nfc)
                && Some(out[i].value) == Normalize(members[i].value, nfc)
  {
    if members != [] {
      var n := |members| - 1;
      MembersPointwise(members[..n], nfc);
      var init := NormalizeMembers(members[..n], nfc);
      if init.Some? {
        var k := NormalText(members[n].key, nfc);
        assert forall i :: 0 <= i < n ==> members[..n][i] == members[i];
        if k.Some? {
          assert HasKey(init.value, k.value) <==> exists i :: 0 <= i < n && NormalText(members[i].key, nfc) == k;
        }
      }
    }
  }

  lemma {:induction false} ItemsPointwise(items: seq<Value>, nfc: Form)
    ensures NormalizeItems(items, nfc).Some? <==> forall i :: 0 <= i < |items| ==> Normalize(items[i], nfc).Some?
    ensures NormalizeItems(items, nfc).Some? ==>
              forall i :: 0 <= i < |items| ==> Some(NormalizeItems(items, nfc).value[i]) == Normalize(items[i], nfc)
  {
    if items != [] {
      var n := |items| - 1;
      ItemsPointwise(items[..n], nfc);
      assert forall i :: 0 <= i < n ==> items[..n][i] == items[i];
    }
  }

  /** The result of normalising is normal. */
  lemma {:induction false} NormalizeIsNormal(v: Value, nfc: Form)
    requires Idempotent(nfc) && Normalize(v, nfc).Some?
    ensures Normal(Normalize(v, nfc).value, nfc)
    decreases v, 1
  {
    match v {
      case List(items) => NormalizedItems(items, nfc);
      case Object(members) => SortedIsNormal(NormalizeMembers(members, nfc).value, nfc) by {
        NormalizedMembers(members, nfc);
      }
      case _ =>
    }
  }

  lemma {:induction false} NormalizedItems(items: seq<Value>, nfc: Form)
    requires Idempotent(nfc) && NormalizeItems(items, nfc).Some?
    ensures forall i :: 0 <= i < |items| ==> Normal(NormalizeItems(items, nfc).value[i], nfc)
    decreases items, 0
  {
    ItemsPointwise(items, nfc);
    forall i | 0 <= i < |items| ensures Normal(NormalizeItems(items, nfc).value[i], nfc) {
      NormalizeIsNormal(items[i], nfc);
    }
  }

  lemma {:induction false} NormalizedMembers(members: seq<Member>, nfc: Form)
    requires Idempotent(nfc) && NormalizeMembers(members, nfc).Some?
    ensures var out := NormalizeMembers(members, nfc).value;
            DistinctNormalKeys(out) && forall i :: 0 <= i < |out| ==>
              nfc(out[i].key) == out[i].key && Normal(out[i].value, nfc)
    decreases members, 0
  {
    MembersPointwise(members, nfc);
    var out := NormalizeMembers(members, nfc).value;
    forall i | 0 <= i < |members| ensures nfc(out[i].key) == out[i].key && Normal(out[i].value, nfc) {
      NormalizeIsNormal(members[i].value, nfc);
    }
  }

  lemma SortedIsNormal(out: seq<NMember<string>>, nfc: Form)
    requires DistinctNormalKeys(out)
    requires forall i :: 0 <= i < |out| ==> nfc(out[i].key) == out[i].key && Normal(out[i].value, nfc)
    ensures Normal(NObject(Sorting.Sort(out, KeyBytes)), nfc)
  {
    DistinctSortsAscending(out);
    SortedMembersNormal(out, Sorting.Sort(out, KeyBytes), nfc);
  }

  lemma SortedMembersNormal(out: seq<NMember<string>>, sorted: seq<NMember<string>>, nfc: Form)
    requires multiset(sorted) == multiset(out)
    requires forall i :: 0 <= i < |out| ==> nfc(out[i].key) == out[i].key && Normal(out[i].value, nfc)
    ensures forall i :: 0 <= i < |sorted| ==> nfc(sorted[i].key) == sorted[i].key && Normal(sorted[i].value, nfc)
  {
    Sorting.SameElements(sorted, out);
    forall i | 0 <= i < |sorted| ensures nfc(sorted[i].key) == sorted[i].key && Normal(sorted[i].value, nfc) {
      assert sorted[i] in out;
      var j :| 0 <= j < |out| && out[j] == sorted[i];
    }
  }

  /** Normalising a normal tree changes nothing. */
  lemma {:induction false} NormalIsFixed(n: Norm<string>, nfc: Form)
    requires Normal(n, nfc)
    ensures Normalize(Embed(n), nfc) == Some(n)
    decreases n, 1
  {
    match n {
      case NText(s) => TextFixed(s, nfc);
      case NList(items) =>
        NormalItemsFixed(items, nfc);
        ListFixed(items, nfc);
      case NObject(members) =>
        AscendingIsDistinct(members);
        NormalMembersFixed(members, nfc);
        ObjectFixed(members, nfc);
      case _ =>
    }
  }

  lemma TextFixed(s: string, nfc: Form)
    requires nfc(s) == s
    ensures Normalize(Embed(NText(s)), nfc) == Some(NText(s))
  {
    UnitsRoundTrip(s);
  }

  lemma ListFixed(items: seq<Norm<string>>, nfc: Form)
    requires NormalizeItems(EmbedItems(items), nfc) == Some(items)
    ensures Normalize(Embed(NList(items)), nfc) == Some(NList(items))
  {
  }

  lemma ObjectFixed(members: seq<NMember<string>>, nfc: Form)
    requires Sorting.Ascending(members, KeyBytes)
    requires NormalizeMembers(EmbedMembers(members), nfc) == Some(members)
    ensures Normalize(Embed(NObject(members)), nfc) == Some(NObject(members))
  {
    var embedded := EmbedMembers(members);
    Sorting.SortOfAscending(members, KeyBytes);
    ObjectSorts(Embed(NObject(members)), embedded, members, nfc);
  }

  lemma ObjectSorts(v: Value, members: seq<Member>, sorted: seq<NMember<string>>, nfc: Form)
    requires v == Object(members) && NormalizeMembers(members, nfc).Some?
    requires Sorting.Sort(NormalizeMembers(members, nfc).value, KeyBytes) == sorted
    ensures Normalize(v, nfc) == Some(NObject(sorted))
  {
  }

  lemma AscendingIsDistinct(members: seq<NMember<string>>)
    requires Sorting.Ascending(members, KeyBytes)
    ensures DistinctNormalKeys(members)
  {
    forall i, j | 0 <= i < j < |members| ensures members[i].key != members[j].key {
      Lex.Trichotomy(KeyBytes(members[i]), KeyBytes(members[j]));
    }
  }

  lemma {:induction false} NormalItemsFixed(items: seq<Norm<string>>, nfc: Form)
    requires forall i :: 0 <= i < |items| ==> Normal(items[i], nfc)
    ensures NormalizeItems(EmbedItems(items), nfc) == Some(items)
    decreases items, 0
  {
    if items != [] {
      var init, last := items[..|items| - 1], items[|items| - 1];
      NormalItemsFixed(init, nfc);
      NormalIsFixed(last, nfc);
      LastItemFixed(items, init, last, nfc);
    }
  }

  lemma LastItemFixed(items: seq<Norm<string>>, init: seq<Norm<string>>, last: Norm<string>, nfc: Form)
    requires items == init + [last] && NormalizeItems(EmbedItems(init), nfc) == Some(init)
             && Normalize(Embed(last), nfc) == Some(last)
    ensures NormalizeItems(EmbedItems(items), nfc) == Some(items)
  {
    assert items[..|items| - 1] == init;
    var embedded := LastEmbedded(items);
    OneMoreItem(embedded, init, last, nfc);
  }

  lemma LastEmbedded(items: seq<Norm<string>>) returns (embedded: seq<Value>)
    requires items != []
    ensures embedded == EmbedItems(items) && embedded != []
    ensures embedded[..|embedded| - 1] == EmbedItems(items[..|items| - 1])
            && embedded[|embedded| - 1] == Embed(items[|items| - 1])
  {
    embedded := EmbedItems(items);
  }

  lemma OneMoreItem(input: seq<Value>, out: seq<Norm<string>>, v: Norm<string>, nfc: Form)
    requires input != [] && NormalizeItems(input[..|input| - 1], nfc) == Some(out)
    requires Normalize(input[|input| - 1], nfc) == Some(v)
    ensures NormalizeItems(input, nfc) == Some(out + [v])
  {
  }

  lemma {:induction false} NormalMembersFixed(members: seq<NMember<string>>, nfc: Form)
    requires DistinctNormalKeys(members)
    requires forall i :: 0 <= i < |members| ==> nfc(members[i].key) == members[i].key && Normal(members[i].value, nfc)
    ensures NormalizeMembers(EmbedMembers(members), nfc) == Some(members)
    decreases members, 0
  {
    if members != [] {
      var n := |members| - 1;
      NormalMembersFixed(members[..n], nfc);
      NormalMemberFixed(members[n], nfc);
      var embedded := EmbedMembers(members);
      assert embedded[..n] == EmbedMembers(members[..n]);
      assert !HasKey(members[..n], members[n].key);
      OneMoreMember(embedded, members[..n], members[n], nfc);
      assert members == members[..n] + [members[n]];
    }
  }

  lemma OneMoreMember(input: seq<Member>, out: seq<NMember<string>>, m: NMember<string>, nfc: Form)
    requires input != [] && NormalizeMembers(input[..|input| - 1], nfc) == Some(out) && !HasKey(out, m.key)
    requires NormalText(input[|input| - 1].key, nfc) == Some(m.key)
             && Normalize(input[|input| - 1].value, nfc) == Some(m.value)
    ensures NormalizeMembers(input, nfc) == Some(out + [m])
  {
  }

  lemma {:induction false} NormalMemberFixed(m: NMember<string>, nfc: Form)
    requires nfc(m.key) == m.key && Normal(m.value, nfc)
    ensures Normalize(EmbedMember(m).value, nfc) == Some(m.value) && NormalText(EmbedMember(m).key, nfc) == Some(m.key)
    decreases m, 2
  {
    NormalIsFixed(m.value, nfc);
    UnitsRoundTrip(m.key);
  }

  /** Re-encoding what was parsed back from the bytes gives the same bytes. */
  lemma ReencodedBytes(v: Value, nfc: Form)
    requires Idempotent(nfc) && Encode(v, nfc).Some?
    ensures ParseBytes(Encode(v, nfc).value).Some?
    ensures Encode(Embed(ParseBytes(Encode(v, nfc).value).value), nfc) == Encode(v, nfc)
  {
    ParsedBack(v, nfc);
    NormalizeIsNormal(v, nfc);
    SameAgain(v, Normalize(v, nfc).value, nfc);
  }

  lemma SameAgain(v: Value, n: Norm<string>, nfc: Form)
    requires Normalize(v, nfc) == Some(n) && Normal(n, nfc)
    ensures Encode(Embed(n), nfc) == Encode(v, nfc)
  {
    NormalIsFixed(n, nfc);
  }

  // ---- insertion order ----

  /** The same tree up to the order in which object members were inserted, at every depth. */
  ghost predicate Reordered(v: Value, w: Value)
    decreases v, 1
  {
    match (v, w)
    case (List(a), List(b)) => |a| == |b| && forall i :: 0 <= i < |a| ==> Reordered(a[i], b[i])
    case (Object(a), Object(b)) =>
      DistinctRawKeys(a) && DistinctRawKeys(b)
      && (forall i :: 0 <= i < |a| ==> InsertedIn(a[i], b))
      && (forall j :: 0 <= j < |b| ==> InsertedFrom(a, b[j]))
    case _ => v == w
  }

  ghost predicate InsertedIn(m: Member, others: seq<Member>)
    decreases m, 2
  {
    exists j :: 0 <= j < |others| && m.key == others[j].key && Reordered(m.value, others[j].value)
  }

  ghost predicate InsertedFrom(members: seq<Member>, m: Member)
    decreases members, 0
  {
    exists i :: 0 <= i < |members| && members[i].key == m.key && Reordered(members[i].value, m.value)
  }

  predicate DistinctRawKeys(members: seq<Member>) {
    forall i, j :: 0 <= i < j < |members| ==> members[i].key != members[j].key
  }

  /** Insertion order never matters: reordered trees are both rejected or have the same normal tree. */
  lemma {:induction false} OrderNeverMatters(v: Value, w: Value, nfc: Form)
    requires Reordered(v, w)
    ensures Normalize(v, nfc) == Normalize(w, nfc)
    decreases v, 1
  {
    match (v, w) {
      case (List(a), List(b)) =>
        forall i | 0 <= i < |a| ensures Normalize(a[i], nfc) == Normalize(b[i], nfc) {
          OrderNeverMatters(a[i], b[i], nfc);
        }
        SameItems(a, b, nfc);
      case (Object(a), Object(b)) => ReorderedMembers(a, b, nfc);
      case _ =>
    }
  }

  lemma {:induction false} ReorderedMembers(a: seq<Member>, b: seq<Member>, nfc: Form)
    requires Reordered(Object(a), Object(b))
    ensures Normalize(Object(a), nfc) == Normalize(Object(b), nfc)
    decreases Object(a), 0
  {
    forall i | 0 <= i < |a| ensures HasMatch(a[i], b, nfc) {
      InsertedInMatches(a[i], b, nfc);
    }
    forall j | 0 <= j < |b| ensures HasMatch(b[j], a, nfc) {
      InsertedFromMatches(a, b[j], nfc);
    }
    SameMembers(a, b, nfc);
  }

  lemma {:induction false} InsertedInMatches(m: Member, others: seq<Member>, nfc: Form)
    requires InsertedIn(m, others)
    ensures HasMatch(m, others, nfc)
    decreases m, 2
  {
    var j :| 0 <= j < |others| && m.key == others[j].key && Reordered(m.value, others[j].value);
    OrderNeverMatters(m.value, others[j].value, nfc);
    assert Matches(m, others[j], nfc);
  }

  lemma {:induction false} InsertedFromMatches(members: seq<Member>, m: Member, nfc: Form)
    requires InsertedFrom(members, m)
    ensures HasMatch(m, members, nfc)
    decreases members, 0
  {
    var i :| 0 <= i < |members| && members[i].key == m.key && Reordered(members[i].value, m.value);
    OrderNeverMatters(members[i].value, m.value, nfc);
    assert Matches(m, members[i], nfc);
  }

  lemma SameItems(a: seq<Value>, b: seq<Value>, nfc: Form)
    requires |a| == |b| && forall i :: 0 <= i < |a| ==> Normalize(a[i], nfc) == Normalize(b[i], nfc)
    ensures NormalizeItems(a, nfc) == NormalizeItems(b, nfc)
  {
    ItemsPointwise(a, nfc);
    ItemsPointwise(b, nfc);
    if NormalizeItems(a, nfc).Some? {
      var x, y := NormalizeItems(a, nfc).value, NormalizeItems(b, nfc).value;
      forall i | 0 <= i < |a| ensures x[i] == y[i] {
        assert Some(x[i]) == Some(y[i]);
      }
    }
  }

  predicate Matches(a: Member, b: Member, nfc: Form) {
    a.key == b.key && Normalize(a.value, nfc) == Normalize(b.value, nfc)
  }

  predicate HasMatch(m: Member, others: seq<Member>, nfc: Form) {
    exists j :: 0 <= j < |others| && Matches(m, others[j], nfc)
  }

  predicate Covered(a: seq<Member>, b: seq<Member>, nfc: Form) {
    forall i :: 0 <= i < |a| ==> HasMatch(a[i], b, nfc)
  }

  lemma SameMembers(a: seq<Member>, b: seq<Member>, nfc: Form)
    requires DistinctRawKeys(a) && DistinctRawKeys(b) && Covered(a, b, nfc) && Covered(b, a, nfc)
    ensures Normalize(Object(a), nfc) == Normalize(Object(b), nfc)
  {
    if NormalizeMembers(a, nfc).Some? {
      AcceptedToo(a, b, nfc);
    }
    if NormalizeMembers(b, nfc).Some? {
      AcceptedToo(b, a, nfc);
      var x, y := NormalizeMembers(a, nfc).value, NormalizeMembers(b, nfc).value;
      NormalCovered(a, b, nfc, x, y);
      NormalCovered(b, a, nfc, y, x);
      SortsAlike(x, y);
    }
  }

  lemma NormalCovered(a: seq<Member>, b: seq<Member>, nfc: Form, x: seq<NMember<string>>, y: seq<NMember<string>>)
    requires NormalizeMembers(a, nfc) == Some(x) && NormalizeMembers(b, nfc) == Some(y) && Covered(a, b, nfc)
    ensures DistinctNormalKeys(x) && forall i :: 0 <= i < |x| ==> x[i] in y
  {
    MembersPointwise(a, nfc);
    MembersPointwise(b, nfc);
    forall i | 0 <= i < |x| ensures x[i] in y {
      assert HasMatch(a[i], b, nfc);
      var j :| 0 <= j < |b| && Matches(a[i], b[j], nfc);
      assert Some(x[i].key) == Some(y[j].key) && Some(x[i].value) == Some(y[j].value);
    }
  }

  lemma SortsAlike(x: seq<NMember<string>>, y: seq<NMember<string>>)
    requires DistinctNormalKeys(x) && DistinctNormalKeys(y)
    requires forall i :: 0 <= i < |x| ==> x[i] in y
    requires forall j :: 0 <= j < |y| ==> y[j] in x
    ensures Sorting.Sort(x, KeyBytes) == Sorting.Sort(y, KeyBytes)
  {
    DistinctSortsAscending(x);
    DistinctSortsAscending(y);
    Sorting.SortUnique(x, y, KeyBytes);
  }

  lemma AcceptedToo(a: seq<Member>, b: seq<Member>, nfc: Form)
    requires DistinctRawKeys(b) && Covered(b, a, nfc) && NormalizeMembers(a, nfc).Some?
    ensures NormalizeMembers(b, nfc).Some?
  {
    MembersPointwise(a, nfc);
    forall j | 0 <= j < |b| ensures NormalText(b[j].key, nfc).Some? && Normalize(b[j].value, nfc).Some? {
      assert HasMatch(b[j], a, nfc);
    }
    forall i, j | 0 <= i < j < |b| ensures NormalText(b[i].key, nfc) != NormalText(b[j].key, nfc) {
      assert HasMatch(b[i], a, nfc) && HasMatch(b[j], a, nfc);
      var i' :| 0 <= i' < |a| && Matches(b[i], a[i'], nfc);
      var j' :| 0 <= j' < |a| && Matches(b[j], a[j'], nfc);
      assert i' != j';
    }
    MembersPointwise(b, nfc);
  }
}
