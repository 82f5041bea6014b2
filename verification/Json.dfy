/** Normal trees of the canonical profile, their text, and a parser for that text. */
module Json {
  import opened Results
  import opened Digits

  /** A normalised value; texts are strings of scalar values or of code units. */
  datatype Norm<S> =
    | NNull
    | NBool(b: bool)
    | NInt(i: int)
    | NText(s: S)
    | NList(items: seq<Norm<S>>)
    | NObject(members: seq<NMember<S>>)

  datatype NMember<S> = NMember(key: S, value: Norm<S>)

  /** One character inside a JSON string: two-character escapes, \u00xx for other controls, else itself. */
  function EscapeChar(c: char): (r: string)
    ensures |r| > 0
  {
    if c == '"' then "\\\""
    else if c == '\\' then "\\\\"
    else if c == '\n' then "\\n"
    else if c == '\r' then "\\r"
    else if c == '\t' then "\\t"
    else if c == '\U{8}' then "\\b"
    else if c == '\U{C}' then "\\f"
    else if c < ' ' then "\\u00" + [HexChar(c as int / 16), HexChar(c as int % 16)]
    else [c]
  }

  function Escape(s: string): string {
    if s == [] then [] else EscapeChar(s[0]) + Escape(s[1..])
  }

  function Quote(s: string): string { ['"'] + (Escape(s) + ['"']) }

  function IntText(n: int): string { if n < 0 then ['-'] + Shortest(-n) else Shortest(n) }

  /** json.dumps with separators "," and ":" and no ASCII escaping. */
  function Emit(v: Norm<string>): string
    decreases v, 1
  {
    match v
    case NNull => "null"
    case NBool(b) => if b then "true" else "false"
    case NInt(i) => IntText(i)
    case NText(s) => Quote(s)
    case NList(items) => ['['] + (EmitItems(items) + [']'])
    case NObject(members) => ['{'] + (EmitMembers(members) + ['}'])
  }

  function EmitItems(items: seq<Norm<string>>): string
    decreases items, 0
  {
    if items == [] then []
    else if |items| == 1 then Emit(items[0])
    else Emit(items[0]) + ([','] + EmitItems(items[1..]))
  }

  function EmitMember(m: NMember<string>): string
    decreases m, 2
  {
    Quote(m.key) + ([':'] + Emit(m.value))
  }

  function EmitMembers(members: seq<NMember<string>>): string
    decreases members, 0
  {
    if members == [] then []
    else if |members| == 1 then EmitMember(members[0])
    else EmitMember(members[0]) + ([','] + EmitMembers(members[1..]))
  }

  // ---- the parser ----

  function HexValue(c: char): Option<int> {
    if '0' <= c <= '9' then Some(c as int - '0' as int)
    else if 'a' <= c <= 'f' then Some(c as int - 'a' as int + 10)
    else None
  }

  /** One escaped or plain character and what follows it. */
  function ParseChar(s: string): (r: Option<(char, string)>)
    ensures r.Some? ==> |r.value.1| < |s|
  {
    if s == [] || s[0] < ' ' || s[0] == '"' then None
    else if s[0] != '\\' then Some((s[0], s[1..]))
    else if |s| == 1 then None
    else if s[1] == '"' || s[1] == '\\' then Some((s[1], s[2..]))
    else if s[1] == 'n' then Some(('\n', s[2..]))
    else if s[1] == 'r' then Some(('\r', s[2..]))
    else if s[1] == 't' then Some(('\t', s[2..]))
    else if s[1] == 'b' then Some(('\U{8}', s[2..]))
    else if s[1] == 'f' then Some(('\U{C}', s[2..]))
    else if s[1] == 'u' && |s| >= 6 && s[2] == '0' && s[3] == '0' then
      match (HexValue(s[4]), HexValue(s[5]))
      case (Some(a), Some(b)) => Some(((16 * a + b) as char, s[6..]))
      case _ => None
    else None
  }

  /**
   A character is printed as itself unless it must be escaped, then in two characters where there are such, and else
   in six; the parser reads each back, so it is the right one.
   */
  lemma EscapeMeans(c: char)
    ensures |EscapeChar(c)| == if c in {'"', '\\', '\n', '\r', '\t', '\U{8}', '\U{C}'} then 2
              else if c < ' ' then 6 else 1
    ensures ParseChar(EscapeChar(c)) == Some((c, ""))
  {
    assert EscapeChar(c)[|EscapeChar(c)|..] == "";
  }

  /** The rest of a string after its opening quote. */
  function ParseChars(s: string): (r: Option<(string, string)>)
    ensures r.Some? ==> |r.value.1| < |s|
    decreases |s|
  {
    if s != [] && s[0] == '"' then Some(([], s[1..]))
    else
      match ParseChar(s)
      case None => None
      case Some((c, rest)) =>
        match ParseChars(rest)
        case None => None
        case Some((text, rest')) => Some(([c] + text, rest'))
  }

  function ParseText(s: string): (r: Option<(string, string)>)
    ensures r.Some? ==> |r.value.1| < |s|
  {
    if s != [] && s[0] == '"' then ParseChars(s[1..]) else None
  }

  function ParseInt(s: string): (r: Option<(int, string)>)
    ensures r.Some? ==> |r.value.1| < |s|
  {
    var negative := s != [] && s[0] == '-';
    var body := if negative then s[1..] else s;
    var n := DigitRun(body);
    if n == 0 then None else Some((if negative then 0 - Value(body[..n]) else Value(body[..n]), body[n..]))
  }

  function Starts(s: string, word: string): bool { |word| <= |s| && s[..|word|] == word }

  function ParseValue(s: string): (r: Option<(Norm<string>, string)>)
    ensures r.Some? ==> |r.value.1| < |s|
    decreases |s|, 0
  {
    if s == [] then None
    else if Starts(s, "null") then Some((NNull, s[4..]))
    else if Starts(s, "true") then Some((NBool(true), s[4..]))
    else if Starts(s, "false") then Some((NBool(false), s[5..]))
    else if s[0] == '"' then
      (match ParseText(s) case None => None case Some((t, rest)) => Some((NText(t), rest)))
    else if s[0] == '[' then
      if |s| > 1 && s[1] == ']' then Some((NList([]), s[2..]))
      else (match ParseItems(s[1..]) case None => None case Some((items, rest)) => Some((NList(items), rest)))
    else if s[0] == '{' then
      if |s| > 1 && s[1] == '}' then Some((NObject([]), s[2..]))
      else (match ParseMembers(s[1..]) case None => None case Some((members, rest)) => Some((NObject(members), rest)))
    else (match ParseInt(s) case None => None case Some((i, rest)) => Some((NInt(i), rest)))
  }

  /** One or more values separated by commas, up to the closing bracket. */
  function ParseItems(s: string): (r: Option<(seq<Norm<string>>, string)>)
    ensures r.Some? ==> |r.value.1| < |s|
    decreases |s|, 1
  {
    match ParseValue(s)
    case None => None
    case Some((v, rest)) =>
      if rest != [] && rest[0] == ']' then Some(([v], rest[1..]))
      else if rest != [] && rest[0] == ',' then
        (match ParseItems(rest[1..]) case None => None case Some((vs, rest')) => Some(([v] + vs, rest')))
      else None
  }

  function ParseMember(s: string): (r: Option<(NMember<string>, string)>)
    ensures r.Some? ==> |r.value.1| < |s|
    decreases |s|, 1
  {
    match ParseText(s)
    case None => None
    case Some((key, rest)) =>
      if rest == [] || rest[0] != ':' then None
      else (match ParseValue(rest[1..]) case None => None case Some((v, rest')) => Some((NMember(key, v), rest')))
  }

  function ParseMembers(s: string): (r: Option<(seq<NMember<string>>, string)>)
    ensures r.Some? ==> |r.value.1| < |s|
    decreases |s|, 2
  {
    match ParseMember(s)
    case None => None
    case Some((m, rest)) =>
      if rest != [] && rest[0] == '}' then Some(([m], rest[1..]))
      else if rest != [] && rest[0] == ',' then
        (match ParseMembers(rest[1..]) case None => None case Some((ms, rest')) => Some(([m] + ms, rest')))
      else None
  }

  // ---- parsing what was printed ----

  lemma ParseCharEscaped(c: char, rest: string)
    ensures ParseChar(EscapeChar(c) + rest) == Some((c, rest))
    ensures EscapeChar(c)[0] != '"'
  {
    var e := EscapeChar(c);
    var s := e + rest;
    assert s[|e|..] == rest;
    assert forall i :: 0 <= i < |e| ==> s[i] == e[i];
  }

  lemma {:induction false} ParseCharsEscaped(t: string, rest: string)
    ensures ParseChars(Escape(t) + (['"'] + rest)) == Some((t, rest))
  {
    if t == [] {
      assert Escape(t) + (['"'] + rest) == ['"'] + rest;
      assert (['"'] + rest)[1..] == rest;
    } else {
      var tail := Escape(t[1..]) + (['"'] + rest);
      assert Escape(t) + (['"'] + rest) == EscapeChar(t[0]) + tail;
      ParseCharEscaped(t[0], tail);
      ParseCharsEscaped(t[1..], rest);
      assert t == [t[0]] + t[1..];
    }
  }

  lemma ParseTextQuoted(t: string, rest: string)
    ensures ParseText(Quote(t) + rest) == Some((t, rest))
  {
    var s := Quote(t) + rest;
    assert s[1..] == Escape(t) + (['"'] + rest);
    ParseCharsEscaped(t, rest);
  }

  /** What may follow a number: anything but another digit. */
  predicate Ends(rest: string) { rest == [] || !IsDigit(rest[0]) }

  lemma ParseIntPrinted(i: int, rest: string)
    requires Ends(rest)
    ensures ParseInt(IntText(i) + rest) == Some((i, rest))
  {
    var n: nat := if i < 0 then -i else i;
    var digits := Shortest(n);
    ParseDigits(digits, rest);
    ShortestValue(n);
    if i < 0 {
      assert IntText(i) + rest == ['-'] + (digits + rest);
      assert (['-'] + (digits + rest))[1..] == digits + rest;
    } else {
      assert (digits + rest)[0] == digits[0];
    }
  }

  lemma ParseDigits(digits: string, rest: string)
    requires AllDigits(digits) && Ends(rest)
    ensures var n := DigitRun(digits + rest);
            n == |digits| && (digits + rest)[..n] == digits && (digits + rest)[n..] == rest
  {
    RunIs(digits, rest);
  }

  lemma {:induction false} RunIs(digits: string, rest: string)
    requires AllDigits(digits) && Ends(rest)
    ensures DigitRun(digits + rest) == |digits|
  {
    if rest == [] {
      assert digits + rest == digits;
      AllRun(digits);
    } else {
      RunStops(digits, rest);
    }
  }

  lemma {:induction false} AllRun(digits: string)
    requires AllDigits(digits)
    ensures DigitRun(digits) == |digits|
  {
    if digits != [] {
      AllRun(digits[1..]);
    }
  }

  /** The first character of a printed value, which the parser dispatches on. */
  lemma FirstOf(v: Norm<string>)
    ensures Emit(v) != [] && Emit(v)[0] != ']' && Emit(v)[0] != '}'
  {
  }

  /** Parsing a printed value gives the value back and leaves what followed it, at any nesting depth. */
  lemma {:induction false} ParseEmitted(v: Norm<string>, rest: string)
    requires Ends(rest)
    ensures ParseValue(Emit(v) + rest) == Some((v, rest))
    decreases v, 1
  {
    match v {
      case NNull => ParseWord(v, rest);
      case NBool(_) => ParseWord(v, rest);
      case NInt(i) => ParseEmittedInt(i, rest);
      case NText(t) => ParseEmittedText(t, rest);
      case NList(items) => ParseEmittedList(items, rest);
      case NObject(members) => ParseEmittedObject(members, rest);
    }
  }

  lemma ParseWord(v: Norm<string>, rest: string)
    requires v.NNull? || v.NBool?
    ensures ParseValue(Emit(v) + rest) == Some((v, rest))
  {
    var s := Emit(v) + rest;
    assert s[..|Emit(v)|] == Emit(v) && s[|Emit(v)|..] == rest;
    assert s[0] == Emit(v)[0];
  }

  lemma ParseEmittedInt(i: int, rest: string)
    requires Ends(rest)
    ensures ParseValue(Emit(NInt(i)) + rest) == Some((NInt(i), rest))
  {
    var s := IntText(i) + rest;
    ParseIntPrinted(i, rest);
    assert s[0] == IntText(i)[0];
    NotAWord(s);
  }

  lemma ParseEmittedText(t: string, rest: string)
    ensures ParseValue(Emit(NText(t)) + rest) == Some((NText(t), rest))
  {
    var s := Quote(t) + rest;
    ParseTextQuoted(t, rest);
    assert s[0] == '"';
    NotAWord(s);
  }

  lemma NotAWord(s: string)
    requires s != [] && s[0] != 'n' && s[0] != 't' && s[0] != 'f'
    ensures !Starts(s, "null") && !Starts(s, "true") && !Starts(s, "false")
  {
    assert forall n :: 1 <= n <= |s| ==> s[..n][0] == s[0];
    assert "null"[0] == 'n' && "true"[0] == 't' && "false"[0] == 'f';
  }

  /** What the parser does with an opening bracket or brace, whatever text follows it. */
  lemma ParsesOpened(body: string, s: string)
    requires body != []
    ensures s == ['['] + body ==> ParseValue(s) == if body[0] == ']' then Some((NList([]), body[1..]))
              else ListOf(ParseItems(body))
    ensures s == ['{'] + body ==> ParseValue(s) == if body[0] == '}' then Some((NObject([]), body[1..]))
              else ObjectOf(ParseMembers(body))
  {
    if s == ['['] + body || s == ['{'] + body {
      NotAWord(s);
      assert s[1..] == body && s[2..] == body[1..];
    }
  }

  function ListOf(r: Option<(seq<Norm<string>>, string)>): Option<(Norm<string>, string)> {
    match r case None => None case Some((items, rest)) => Some((NList(items), rest))
  }

  function ObjectOf(r: Option<(seq<NMember<string>>, string)>): Option<(Norm<string>, string)> {
    match r case None => None case Some((members, rest)) => Some((NObject(members), rest))
  }

  lemma Enclosed(open: char, inner: string, close: string, rest: string)
    ensures ([open] + (inner + close)) + rest == [open] + (inner + (close + rest))
  {
  }

  lemma {:induction false} ParseEmittedList(items: seq<Norm<string>>, rest: string)
    ensures ParseValue(Emit(NList(items)) + rest) == Some((NList(items), rest))
    decreases items, 1
  {
    var body := EmitItems(items) + ([']'] + rest);
    Enclosed('[', EmitItems(items), [']'], rest);
    ParsesOpened(body, ['['] + body);
    if items != [] {
      ParseEmittedItems(items, rest);
      FirstOf(items[0]);
      assert body[0] == Emit(items[0])[0];
    } else {
      assert body == [']'] + rest && body[1..] == rest;
    }
  }

  lemma Regroup(first: string, others: string, close: string)
    ensures first + ([','] + others) + close == first + ([','] + (others + close))
    ensures ([','] + (others + close))[1..] == others + close
  {
  }

  lemma {:induction false} ParseEmittedItems(items: seq<Norm<string>>, rest: string)
    requires items != []
    ensures ParseItems(EmitItems(items) + ([']'] + rest)) == Some((items, rest))
    decreases items, 0
  {
    var s := EmitItems(items) + ([']'] + rest);
    var close := [']'] + rest;
    if |items| == 1 {
      ParseEmitted(items[0], close);
      assert items == [items[0]];
      assert close[1..] == rest;
    } else {
      var more := EmitItems(items[1..]) + close;
      Regroup(Emit(items[0]), EmitItems(items[1..]), close);
      ParseEmitted(items[0], [','] + more);
      ParseEmittedItems(items[1..], rest);
      assert items == [items[0]] + items[1..];
    }
  }

  lemma {:induction false} ParseEmittedObject(members: seq<NMember<string>>, rest: string)
    ensures ParseValue(Emit(NObject(members)) + rest) == Some((NObject(members), rest))
    decreases members, 1
  {
    var body := EmitMembers(members) + (['}'] + rest);
    Enclosed('{', EmitMembers(members), ['}'], rest);
    ParsesOpened(body, ['{'] + body);
    if members != [] {
      ParseEmittedMembers(members, rest);
      assert body[0] == '"';
    } else {
      assert body == ['}'] + rest && body[1..] == rest;
    }
  }

  lemma {:induction false} ParseEmittedMember(m: NMember<string>, rest: string)
    requires Ends(rest)
    ensures ParseMember(EmitMember(m) + rest) == Some((m, rest))
    decreases m, 2
  {
    var tail := [':'] + (Emit(m.value) + rest);
    assert EmitMember(m) + rest == Quote(m.key) + tail;
    ParseTextQuoted(m.key, tail);
    ParseEmitted(m.value, rest);
    assert tail[1..] == Emit(m.value) + rest;
  }

  lemma {:induction false} ParseEmittedMembers(members: seq<NMember<string>>, rest: string)
    requires members != []
    ensures ParseMembers(EmitMembers(members) + (['}'] + rest)) == Some((members, rest))
    decreases members, 0
  {
    var s := EmitMembers(members) + (['}'] + rest);
    var close := ['}'] + rest;
    if |members| == 1 {
      ParseEmittedMember(members[0], close);
      assert members == [members[0]];
      assert close[1..] == rest;
    } else {
      var more := EmitMembers(members[1..]) + close;
      Regroup(EmitMember(members[0]), EmitMembers(members[1..]), close);
      ParseEmittedMember(members[0], [','] + more);
      ParseEmittedMembers(members[1..], rest);
      assert members == [members[0]] + members[1..];
    }
  }

  /** Different normal values have different texts. */
  lemma EmitInjective(v: Norm<string>, w: Norm<string>)
    requires Emit(v) == Emit(w)
    ensures v == w
  {
    ParseEmitted(v, []);
    ParseEmitted(w, []);
  }
}
