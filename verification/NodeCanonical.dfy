/** The Node canonical encoder: texts are code units, members are sorted while printing. */
module NodeCanonical {
  import opened Results
  import opened Json
  import opened Unicode
  import opened Canonical
  import Lex
  import Sorting

  type Units = seq<Unit>

  predicate IsSafeInteger(n: Number) {
    match n
    case Integer(i) => -SAFE <= i <= SAFE
    case Finite(r) => r == r.Floor as real && -(SAFE as real) <= r <= SAFE as real
    case NegativeZero => true
    case NotFinite => false
  }

  function NumberOf(n: Number): int
    requires IsSafeInteger(n)
  {
    match n case Integer(i) => i case Finite(r) => r.Floor case NegativeZero => 0
  }

  /** isWellFormed, then normalize('NFC') on code units. */
  function NodeText(u: Units, nfc: Form): Option<Units> {
    if !IsWellFormed(u) then None
    else
      WellFormedIsText(u);
      Some(ToUnits(nfc(FromUnits(u).value)))
  }

  /** Node accepts exactly the units of texts, and returns the units of the text's NFC. */
  lemma NodeTextMeans(u: Units, nfc: Form, t: Units)
    ensures NodeText(u, nfc) == Some(t) <==> exists s :: u == ToUnits(s) && t == ToUnits(nfc(s))
    ensures NodeText(u, nfc).None? <==> forall s :: u != ToUnits(s)
  {
    WellFormedIsText(u);
    if FromUnits(u).Some? {
      ReadsExactly(u, FromUnits(u).value);
    }
    forall s ensures FromUnits(u) == Some(s) <==> u == ToUnits(s) {
      ReadsExactly(u, s);
    }
  }

  /** The two encoders agree on every text. */
  lemma TextsAgree(u: Units, nfc: Form)
    ensures NodeText(u, nfc) == match NormalText(u, nfc) case None => None case Some(s) => Some(ToUnits(s))
  {
    WellFormedIsText(u);
  }

  function NodeNormalize(v: Value, nfc: Form): Option<Norm<Units>>
    decreases v, 1
  {
    match v
    case Null => Some(NNull)
    case Bool(b) => Some(NBool(b))
    case Num(n) => if IsSafeInteger(n) then Some(NInt(NumberOf(n))) else None
    case Text(u) => (match NodeText(u, nfc) case None => None case Some(t) => Some(NText(t)))
    case List(items) => (match NodeItems(items, nfc) case None => None case Some(out) => Some(NList(out)))
    case Object(members) => (match NodeMembers(members, nfc) case None => None case Some(out) => Some(NObject(out)))
    case Unsupported => None
  }

  function NodeItems(items: seq<Value>, nfc: Form): Option<seq<Norm<Units>>>
    decreases items, 0
  {
    if items == [] then Some([])
    else
      match NodeItems(items[..|items| - 1], nfc)
      case None => None
      case Some(out) =>
        match NodeNormalize(items[|items| - 1], nfc)
        case None => None
        case Some(v) => Some(out + [v])
  }

  function NodeMembers(members: seq<Member>, nfc: Form): Option<seq<NMember<Units>>>
    decreases members, 0
  {
    if members == [] then Some([])
    else
      match NodeMembers(members[..|members| - 1], nfc)
      case None => None
      case Some(out) =>
        var m := members[|members| - 1];
        match NodeText(m.key, nfc)
        case None => None
        case Some(k) =>
          if HasKey(out, k) then None
          else
            match NodeNormalize(m.value, nfc)
            case None => None
            case Some(v) => Some(out + [NMember(k, v)])
  }

  /** The loop over an object's keys, filling the output object. */
  method NodeMembersByLoop(members: seq<Member>, nfc: Form) returns (r: Option<seq<NMember<Units>>>)
    ensures r == NodeMembers(members, nfc)
  {
    var out: seq<NMember<Units>> := [];
    for i := 0 to |members|
      invariant NodeMembers(members[..i], nfc) == Some(out)
    {
      assert members[..i + 1][..i] == members[..i];
      var n := NodeText(members[i].key, nfc);
      if n.None? || HasKey(out, n.value) || NodeNormalize(members[i].value, nfc).None? {
        NodeMembersFail(members, i + 1, nfc);
        return None;
      }
      out := out + [NMember(n.value, NodeNormalize(members[i].value, nfc).value)];
    }
    assert members[..|members|] == members;
    return Some(out);
  }

  lemma {:induction false} NodeMembersFail(members: seq<Member>, i: nat, nfc: Form)
    requires i <= |members| && NodeMembers(members[..i], nfc).None?
    ensures NodeMembers(members, nfc).None?
    decreases |members|
  {
    if i < |members| {
      assert members[..|members| - 1][..i] == members[..i];
      NodeMembersFail(members[..|members| - 1], i, nfc);
    } else {
      assert members[..i] == members;
    }
  }

  /** An ASCII literal as code units. */
  function Ascii(s: string): Units { ToUnits(s) }

  function EscapeUnits(u: Units): Units {
    if u == [] then [] else EscapeUnit(u[0]) + EscapeUnits(u[1..])
  }

  /** JSON.stringify works unit by unit; halves of pairs are copied. */
  function EscapeUnit(x: Unit): Units {
    if IsHigh(x) || IsLow(x) then [x] else Ascii(EscapeChar(x as char))
  }

  function QuoteUnits(u: Units): Units { Ascii(['"']) + (EscapeUnits(u) + Ascii(['"'])) }

  /** A printed member with the key it is sorted by. */
  datatype Printed = Printed(key: Units, text: Units)

  function PrintedKey(p: Printed): seq<int> { p.key }

  /** emit: keys sorted by code units, values printed recursively. */
  function NodeEmit(v: Norm<Units>): Units
    decreases v, 1
  {
    match v
    case NNull => Ascii("null")
    case NBool(b) => Ascii(if b then "true" else "false")
    case NInt(i) => Ascii(IntText(i))
    case NText(u) => QuoteUnits(u)
    case NList(items) => Ascii(['[']) + (JoinUnits(NodeEmitItems(items)) + Ascii([']']))
    case NObject(members) =>
      Ascii(['{']) + (JoinPrinted(Sorting.Sort(PrintMembers(members), PrintedKey)) + Ascii(['}']))
  }

  function NodeEmitItems(items: seq<Norm<Units>>): seq<Units>
    decreases items, 0
  {
    if items == [] then [] else [NodeEmit(items[0])] + NodeEmitItems(items[1..])
  }

  function PrintMembers(members: seq<NMember<Units>>): seq<Printed>
    decreases members, 0
  {
    if members == [] then [] else [PrintMember(members[0])] + PrintMembers(members[1..])
  }

  function PrintMember(m: NMember<Units>): Printed
    decreases m, 2
  {
    Printed(m.key, QuoteUnits(m.key) + (Ascii([':']) + NodeEmit(m.value)))
  }

  function JoinUnits(parts: seq<Units>): Units {
    if parts == [] then []
    else if |parts| == 1 then parts[0]
    else parts[0] + (Ascii([',']) + JoinUnits(parts[1..]))
  }

  function JoinPrinted(parts: seq<Printed>): Units {
    if parts == [] then []
    else if |parts| == 1 then parts[0].text
    else parts[0].text + (Ascii([',']) + JoinPrinted(parts[1..]))
  }

  /** Buffer.from(text, 'utf8') of a text without unpaired surrogates. */
  function UnitsUtf8(u: Units): Option<seq<int>> {
    match FromUnits(u) case None => None case Some(s) => Some(Utf8(s))
  }

  function NodeEncode(v: Value, nfc: Form): Option<seq<int>> {
    match NodeNormalize(v, nfc)
    case None => None
    case Some(n) => UnitsUtf8(NodeEmit(n))
  }

  // ---- both encoders ----

  /** Escaping commutes with encoding: surrogate halves are never escaped. */
  lemma {:induction false} EscapeInUnits(s: string)
    ensures EscapeUnits(ToUnits(s)) == ToUnits(Escape(s))
  {
    if s != [] {
      EscapeInUnits(s[1..]);
      var head, tail := CharUnits(s[0]), ToUnits(s[1..]);
      ToUnitsConcat(EscapeChar(s[0]), Escape(s[1..]));
      if |head| == 1 {
        assert ToUnits(s)[1..] == tail;
        assert head[0] as char == s[0];
      } else {
        PairCopied(s[0]);
        PairEscapes(head, tail);
      }
    }
  }

  lemma PairEscapes(pair: Units, tail: Units)
    requires |pair| == 2 && IsHigh(pair[0]) && IsLow(pair[1])
    ensures EscapeUnits(pair + tail) == pair + EscapeUnits(tail)
  {
    var rest := [pair[1]] + tail;
    assert pair + tail == [pair[0]] + rest;
    HalfCopied(pair[0], rest);
    HalfCopied(pair[1], tail);
    assert [pair[0]] + ([pair[1]] + EscapeUnits(tail)) == pair + EscapeUnits(tail);
  }

  lemma HalfCopied(x: Unit, tail: Units)
    requires IsHigh(x) || IsLow(x)
    ensures EscapeUnits([x] + tail) == [x] + EscapeUnits(tail)
  {
    assert ([x] + tail)[1..] == tail;
  }

  lemma PairCopied(c: char)
    requires |CharUnits(c)| == 2
    ensures EscapeChar(c) == [c] && ToUnits([c]) == CharUnits(c)
    ensures IsHigh(CharUnits(c)[0]) && IsLow(CharUnits(c)[1])
  {
    assert [c][1..] == [];
    assert ToUnits([c]) == CharUnits(c) + ToUnits([]);
  }

  lemma QuoteInUnits(s: string)
    ensures QuoteUnits(ToUnits(s)) == ToUnits(Quote(s))
  {
    EscapeInUnits(s);
    ToUnitsConcat(Escape(s), ['"']);
    ToUnitsConcat(['"'], Escape(s) + ['"']);
  }

  lemma Bracketed(open: string, inner: string, close: string)
    ensures ToUnits(open + (inner + close)) == ToUnits(open) + (ToUnits(inner) + ToUnits(close))
  {
    ToUnitsConcat(inner, close);
    ToUnitsConcat(open, inner + close);
  }

  /** A printed member of the Python encoder, with its key. */
  function PythonPrinted(m: NMember<string>): Printed { Printed(ToUnits(m.key), ToUnits(EmitMember(m))) }

  /** Sorting members by the big-endian bytes of their keys before printing is sorting prints by code units. */
  lemma SortCommutes(members: seq<NMember<string>>)
    ensures Sorting.Sort(Sorting.Map(members, PythonPrinted), PrintedKey)
            == Sorting.Map(Sorting.Sort(members, KeyBytes), PythonPrinted)
  {
    forall x, y ensures Lex.Less(PrintedKey(PythonPrinted(x)), PrintedKey(PythonPrinted(y)))
                        <==> Lex.Less(KeyBytes(x), KeyBytes(y)) {
      ByteOrderIsUnitOrder(ToUnits(x.key), ToUnits(y.key));
    }
    Sorting.SortOfMap(members, PythonPrinted, KeyBytes, PrintedKey);
  }

  lemma {:induction false} JoinIsEmitMembers(members: seq<NMember<string>>)
    ensures JoinPrinted(Sorting.Map(members, PythonPrinted)) == ToUnits(EmitMembers(members))
  {
    if members != [] {
      var parts := Sorting.Map(members, PythonPrinted);
      if |members| > 1 {
        JoinIsEmitMembers(members[1..]);
        assert parts[1..] == Sorting.Map(members[1..], PythonPrinted);
        Bracketed(EmitMember(members[0]), [','], EmitMembers(members[1..]));
      }
    }
  }

  /** Both normalise to trees whose texts agree: one prints in code units what the other prints in characters. */
  predicate SamePrint(node: Option<Norm<Units>>, python: Option<Norm<string>>) {
    (node.Some? <==> python.Some?) && (node.Some? ==> NodeEmit(node.value) == ToUnits(Emit(python.value)))
  }

  predicate SamePrints(node: seq<Norm<Units>>, python: seq<Norm<string>>) {
    |node| == |python| && forall i :: 0 <= i < |node| ==> NodeEmit(node[i]) == ToUnits(Emit(python[i]))
  }

  predicate SameMemberPrints(node: seq<NMember<Units>>, python: seq<NMember<string>>) {
    |node| == |python|
    && forall i :: 0 <= i < |node| ==>
      node[i].key == ToUnits(python[i].key) && NodeEmit(node[i].value) == ToUnits(Emit(python[i].value))
  }

  lemma SameNumber(n: Number)
    ensures IsSafeInteger(n) <==> SafeInteger(n).Some?
    ensures IsSafeInteger(n) ==> SafeInteger(n) == Some(NumberOf(n))
  {
  }

  lemma {:induction false} SamePrintOf(v: Value, nfc: Form)
    ensures SamePrint(NodeNormalize(v, nfc), Normalize(v, nfc))
    decreases v, 1
  {
    match v {
      case Num(n) => SameNumber(n);
      case Text(u) =>
        TextsAgree(u, nfc);
        if NormalText(u, nfc).Some? {
          QuoteInUnits(NormalText(u, nfc).value);
        }
      case List(items) =>
        SamePrintOfItems(items, nfc);
        if NodeItems(items, nfc).Some? {
          SameListPrint(NodeItems(items, nfc).value, NormalizeItems(items, nfc).value);
        }
      case Object(members) =>
        SamePrintOfMembers(members, nfc);
        if NodeMembers(members, nfc).Some? {
          SameObjectPrint(NodeMembers(members, nfc).value, NormalizeMembers(members, nfc).value);
        }
      case _ =>
    }
  }

  lemma {:induction false} SamePrintOfItems(items: seq<Value>, nfc: Form)
    ensures NodeItems(items, nfc).Some? <==> NormalizeItems(items, nfc).Some?
    ensures NodeItems(items, nfc).Some? ==> SamePrints(NodeItems(items, nfc).value, NormalizeItems(items, nfc).value)
    decreases items, 0
  {
    if items != [] {
      SamePrintOfItems(items[..|items| - 1], nfc);
      SamePrintOf(items[|items| - 1], nfc);
    }
  }

  lemma {:induction false} SamePrintOfMembers(members: seq<Member>, nfc: Form)
    ensures NodeMembers(members, nfc).Some? <==> NormalizeMembers(members, nfc).Some?
    ensures NodeMembers(members, nfc).Some? ==>
            SameMemberPrints(NodeMembers(members, nfc).value, NormalizeMembers(members, nfc).value)
    decreases members, 0
  {
    if members != [] {
      var n := |members| - 1;
      SamePrintOfMembers(members[..n], nfc);
      SamePrintOf(members[n].value, nfc);
      TextsAgree(members[n].key, nfc);
      if NodeMembers(members[..n], nfc).Some? && NormalText(members[n].key, nfc).Some? {
        SameCollision(NodeMembers(members[..n], nfc).value, NormalizeMembers(members[..n], nfc).value,
                      NormalText(members[n].key, nfc).value);
      }
    }
  }

  /** Keys collide as code units exactly when they collide as texts. */
  lemma SameCollision(node: seq<NMember<Units>>, python: seq<NMember<string>>, key: string)
    requires SameMemberPrints(node, python)
    ensures HasKey(node, ToUnits(key)) <==> HasKey(python, key)
  {
    if HasKey(node, ToUnits(key)) {
      var i :| 0 <= i < |node| && node[i].key == ToUnits(key);
      ToUnitsInjective(python[i].key, key);
    }
    if HasKey(python, key) {
      var i :| 0 <= i < |python| && python[i].key == key;
      assert node[i].key == ToUnits(key);
    }
  }

  lemma {:induction false} JoinIsEmitItems(node: seq<Norm<Units>>, python: seq<Norm<string>>)
    requires SamePrints(node, python)
    ensures JoinUnits(NodeEmitItems(node)) == ToUnits(EmitItems(python))
    decreases |node|
  {
    if |node| == 1 {
      assert NodeEmitItems(node[1..]) == [];
    } else if node != [] {
      JoinIsEmitItems(node[1..], python[1..]);
      assert NodeEmitItems(node)[1..] == NodeEmitItems(node[1..]);
      assert |NodeEmitItems(node[1..])| > 0;
      Bracketed(Emit(python[0]), [','], EmitItems(python[1..]));
    }
  }

  lemma SameListPrint(node: seq<Norm<Units>>, python: seq<Norm<string>>)
    requires SamePrints(node, python)
    ensures NodeEmit(NList(node)) == ToUnits(Emit(NList(python)))
  {
    JoinIsEmitItems(node, python);
    Bracketed(['['], EmitItems(python), [']']);
  }

  lemma {:induction false} PrintsAreMapped(node: seq<NMember<Units>>, python: seq<NMember<string>>)
    requires SameMemberPrints(node, python)
    ensures PrintMembers(node) == Sorting.Map(python, PythonPrinted)
    decreases |node|
  {
    if node != [] {
      PrintsAreMapped(node[1..], python[1..]);
      QuoteInUnits(python[0].key);
      Bracketed(Quote(python[0].key), [':'], Emit(python[0].value));
      assert PrintMember(node[0]) == PythonPrinted(python[0]);
    }
  }

  lemma SameObjectPrint(node: seq<NMember<Units>>, python: seq<NMember<string>>)
    requires SameMemberPrints(node, python)
    ensures NodeEmit(NObject(node)) == ToUnits(Emit(NObject(Sorting.Sort(python, KeyBytes))))
  {
    var sorted := Sorting.Sort(python, KeyBytes);
    PrintsAreMapped(node, python);
    SortCommutes(python);
    JoinIsEmitMembers(sorted);
    Bracketed(['{'], EmitMembers(sorted), ['}']);
  }

  /** The two encoders return the same bytes or both reject, on every tree and for every NFC function. */
  lemma SameEncoding(v: Value, nfc: Form)
    ensures NodeEncode(v, nfc) == Encode(v, nfc)
  {
    SamePrintOf(v, nfc);
    if Normalize(v, nfc).Some? {
      UnitsRoundTrip(Emit(Normalize(v, nfc).value));
    }
  }

  /** Whatever order an engine lists an object's keys in, at every depth, the Node bytes are the Python bytes. */
  lemma SameEncodingInAnyOrder(v: Value, w: Value, nfc: Form)
    requires Reordered(v, w)
    ensures NodeEncode(w, nfc) == Encode(v, nfc)
  {
    SameEncoding(w, nfc);
    OrderNeverMatters(v, w, nfc);
  }
}
