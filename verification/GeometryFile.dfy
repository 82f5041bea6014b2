/**
 The scanner that decodes a feature collection one feature at a time.
 The JSON decoder, the shape checks on a decoded feature and the two notions of white space are parameters.
 */
module GeometryFile {
  import opened Collections
  import opened Results

  datatype Found<G> = Found(name: string, geometry: G, end: nat)

  /**
   feature: raw_decode at a position together with the checks of the decoded feature; None where either raises.
   alone: the same for a text that is one feature and nothing else.
   blank: the four characters skipped between features; wide: what strip() removes.
   */
  datatype Env<!G> = Env(feature: (string, nat) -> Option<Found<G>>, alone: string -> Option<(string, G)>,
      blank: char -> bool, wide: char -> bool)

  /** An object is decoded by its own text alone, whatever stands around it, and begins with a brace. */
  ghost predicate Delimited<G(!new)>(env: Env<G>) {
    (forall text: string, p: nat :: env.feature(text, p).Some? ==>
       var found := env.feature(text, p).value;
       p < found.end <= |text| && env.alone(text[p..found.end]) == Some((found.name, found.geometry)))
    && (forall text: string, p: nat, e: nat {:trigger env.alone(text[p..e])} ::
      p < e <= |text| && env.alone(text[p..e]).Some? ==>
          env.feature(text, p) == Some(Found(env.alone(text[p..e]).value.0, env.alone(text[p..e]).value.1, e)))
    && (forall s: string {:trigger env.alone(s)} :: env.alone(s).Some? ==> s != "" && s[0] == '{')
    && Delimits(env)
  }

  /** The characters the scanner looks for are not white space. */
  predicate Delimits<G>(env: Env<G>) {
    !env.wide(']') && !env.wide('}') && !env.blank('{') && !env.blank(',') && !env.blank(']')
  }

  // ---- spaces ----

  predicate All(s: string, space: char -> bool) { forall i :: 0 <= i < |s| ==> space(s[i]) }

  function Skip(text: string, p: nat, space: char -> bool): (q: nat)
    requires p <= |text|
    ensures p <= q <= |text| && All(text[p..q], space) && (q < |text| ==> !space(text[q]))
    decreases |text| - p
  {
    if p < |text| && space(text[p]) then
      var q := Skip(text, p + 1, space);
      assert text[p..q] == [text[p]] + text[p + 1..q];
      q
    else p
  }

  lemma {:induction false} SkipsTo(text: string, p: nat, q: nat, space: char -> bool)
    requires p <= q <= |text| && All(text[p..q], space) && (q < |text| ==> !space(text[q]))
    ensures Skip(text, p, space) == q
    decreases q - p
  {
    if p < q {
      assert text[p..q][0] == text[p];
      assert text[p..q][1..] == text[p + 1..q];
      SkipsTo(text, p + 1, q, space);
    }
  }

  predicate At(text: string, p: nat, c: char) { p < |text| && text[p] == c }

  function RightStripped(s: string, space: char -> bool): string {
    if s != "" && space(s[|s| - 1]) then RightStripped(s[..|s| - 1], space) else s
  }

  /** What strip() leaves. */
  function Stripped(s: string, space: char -> bool): string { RightStripped(s[Skip(s, 0, space)..], space) }

  lemma {:induction false} StripsTail(s: string, t: string, space: char -> bool)
    requires All(t, space) && s != "" && !space(s[|s| - 1])
    ensures RightStripped(s + t, space) == s
  {
    if t == "" {
      assert s + t == s;
    } else {
      assert (s + t)[..|s + t| - 1] == s + t[..|t| - 1];
      StripsTail(s, t[..|t| - 1], space);
    }
  }

  lemma {:induction false} StripsOnlyTail(s: string, space: char -> bool)
    ensures |RightStripped(s, space)| <= |s| && s == RightStripped(s, space) + s[|RightStripped(s, space)|..]
    ensures All(s[|RightStripped(s, space)|..], space)
  {
    if s != "" && space(s[|s| - 1]) {
      var init := s[..|s| - 1];
      StripsOnlyTail(init, space);
      var n := |RightStripped(s, space)|;
      assert s[n..] == init[n..] + [s[|s| - 1]];
    }
  }

  /** strip() leaves "]}" of a text that begins with the bracket exactly if the brace is next and only spaces follow. */
  lemma CloseIs(s: string, space: char -> bool)
    requires s != "" && s[0] == ']' && !space(']') && !space('}')
    ensures Stripped(s, space) == [']', '}'] <==> |s| >= 2 && s[1] == '}' && All(s[2..], space)
  {
    assert Skip(s, 0, space) == 0 && s[0..] == s;
    StripsOnlyTail(s, space);
    if |s| >= 2 && s[1] == '}' && All(s[2..], space) {
      assert s == [']', '}'] + s[2..];
      StripsTail([']', '}'], s[2..], space);
    }
  }

  // ---- the prefix ----

  predicate StartsAt(text: string, p: nat, token: string) { p + |token| <= |text| && text[p..p + |token|] == token }

  /** The regular expression: tokens, each after any spaces. */
  function MatchTokens(text: string, p: nat, tokens: seq<string>, space: char -> bool): Option<nat>
    requires p <= |text|
    decreases |tokens|
  {
    if tokens == [] then Some(p)
    else
      var q := Skip(text, p, space);
      if StartsAt(text, q, tokens[0]) then MatchTokens(text, q + |tokens[0]|, tokens[1..], space) else None
  }

  /** The tokens of the expression for the start of a feature collection. */
  const PREFIX := ["{", "\"type\"", ":", "\"FeatureCollection\"", ",", "\"features\"", ":", "["]

  predicate Solid(tokens: seq<string>, space: char -> bool) {
    forall i :: 0 <= i < |tokens| ==> tokens[i] != "" && !space(tokens[i][0])
  }

  predicate NoMarkIsSpace(space: char -> bool)
  {
    !space('{') && !space('"') && !space(':') && !space(',') && !space('[')
  }

  lemma PrefixIsSolid(space: char -> bool)
    requires NoMarkIsSpace(space)
    ensures Solid(PREFIX, space)
  {
  }

  ghost predicate Spells(s: string, tokens: seq<string>, space: char -> bool)
    decreases |tokens|
  {
    if tokens == [] then s == ""
    else exists w, rest :: All(w, space) && s == w + tokens[0] + rest && Spells(rest, tokens[1..], space)
  }

  lemma {:induction false} MatchSpells(text: string, p: nat, e: nat, tokens: seq<string>, space: char -> bool)
    requires p <= |text| && MatchTokens(text, p, tokens, space) == Some(e)
    ensures p <= e <= |text| && Spells(text[p..e], tokens, space)
    decreases |tokens|
  {
    if tokens != [] {
      var q := Skip(text, p, space);
      var r := q + |tokens[0]|;
      MatchSpells(text, r, e, tokens[1..], space);
      SpellsMore(text, p, q, r, e, tokens, space);
    }
  }

  lemma SpellsMore(text: string, p: nat, q: nat, r: nat, e: nat, tokens: seq<string>, space: char -> bool)
    requires p <= q <= r <= e <= |text| && All(text[p..q], space)
    requires tokens != [] && text[q..r] == tokens[0] && Spells(text[r..e], tokens[1..], space)
    ensures Spells(text[p..e], tokens, space)
  {
    Joined(text, p, q, r, e);
  }

  lemma Joined(text: string, p: nat, q: nat, r: nat, e: nat)
    requires p <= q <= r <= e <= |text|
    ensures text[p..e] == text[p..q] + text[q..r] + text[r..e]
  {
  }

  lemma FirstToken(text: string, p: nat, e: nat, tokens: seq<string>, space: char -> bool) returns (q: nat, r: nat)
    requires p <= e <= |text| && Solid(tokens, space) && tokens != [] && Spells(text[p..e], tokens, space)
    ensures p <= q <= r <= e && Skip(text, p, space) == q && r == q + |tokens[0]| && StartsAt(text, q, tokens[0])
    ensures Spells(text[r..e], tokens[1..], space)
  {
    var w, rest :| All(w, space) && text[p..e] == w + tokens[0] + rest && Spells(rest, tokens[1..], space);
    q, r := p + |w|, p + |w| + |tokens[0]|;
    Thirds(text, p, e, w, tokens[0], rest);
    assert text[q] == tokens[0][0];
    SkipsTo(text, p, q, space);
  }

  lemma {:induction false} SpelledMatches(text: string, p: nat, e: nat, tokens: seq<string>, space: char -> bool)
    requires p <= e <= |text| && Solid(tokens, space) && Spells(text[p..e], tokens, space)
    ensures MatchTokens(text, p, tokens, space) == Some(e)
    decreases |tokens|
  {
    if tokens != [] {
      var q, r := FirstToken(text, p, e, tokens, space);
      SpelledMatches(text, r, e, tokens[1..], space);
      MatchesFirst(text, p, q, r, tokens, space);
    }
  }

  lemma MatchesFirst(text: string, p: nat, q: nat, r: nat, tokens: seq<string>, space: char -> bool)
    requires p <= q <= r <= |text| && tokens != [] && Skip(text, p, space) == q && r == q + |tokens[0]|
    requires StartsAt(text, q, tokens[0])
    ensures MatchTokens(text, p, tokens, space) == MatchTokens(text, r, tokens[1..], space)
  {
  }

  /** The prefix ends where, and only where, its tokens have just been spelled out. */
  lemma MatchesExactly(text: string, e: nat, tokens: seq<string>, space: char -> bool)
    requires Solid(tokens, space)
    ensures MatchTokens(text, 0, tokens, space) == Some(e) <==> e <= |text| && Spells(text[..e], tokens, space)
  {
    if MatchTokens(text, 0, tokens, space) == Some(e) {
      MatchSpells(text, 0, e, tokens, space);
      assert text[0..e] == text[..e];
    }
    if e <= |text| && Spells(text[..e], tokens, space) {
      assert text[0..e] == text[..e];
      SpelledMatches(text, 0, e, tokens, space);
    }
  }

  lemma Thirds(text: string, p: nat, e: nat, a: string, b: string, c: string)
    requires p <= e <= |text| && text[p..e] == a + b + c
    ensures p + |a| + |b| <= e
    ensures text[p..p + |a|] == a && text[p + |a|..p + |a| + |b|] == b && text[p + |a| + |b|..e] == c
  {
    SliceOfSlice(text, p, e, 0, |a|);
    SliceOfSlice(text, p, e, |a|, |a| + |b|);
    SliceOfSlice(text, p, e, |a| + |b|, e - p);
  }

  // ---- the scanner ----

  datatype Item<G> = Item(name: string, geometry: G)

  /** The loop from a position on, before any name is looked at. */
  function Scan<G>(text: string, position: nat, env: Env<G>): Option<seq<Item<G>>>
    requires position <= |text|
    decreases |text| - position, 1
  {
    var p := Skip(text, position, env.blank);
    if At(text, p, ']') then if Stripped(text[p..], env.wide) == [']', '}'] then Some([]) else None
    else match env.feature(text, p)
      case None => None
      case Some(found) => if p < found.end <= |text|
        then Then(Item(found.name, found.geometry), ScanNext(text, found.end, env)) else None
  }

  /** After a feature: a comma that is not the last thing, or the closing bracket. */
  function ScanNext<G>(text: string, end: nat, env: Env<G>): Option<seq<Item<G>>>
    requires 0 < end <= |text|
    decreases |text| - end + 1, 0
  {
    var q := Skip(text, end, env.blank);
    if At(text, q, ',') then if At(text, Skip(text, q + 1, env.blank), ']') then None else Scan(text, q + 1, env)
    else if At(text, q, ']') then Scan(text, q, env)
    else None
  }

  // ---- the grammar ----

  /** From p on: features joined by commas, blanks anywhere between, and the closing of the collection. */
  ghost predicate Document<G>(text: string, p: nat, items: seq<Item<G>>, env: Env<G>)
    decreases |items|, 1
  {
    if items == [] then Closes(text, p, env)
    else exists q: nat, e: nat :: p <= q < e <= |text| && All(text[p..q], env.blank)
           && env.alone(text[q..e]) == Some((items[0].name, items[0].geometry)) && After(text, e, items[1..], env)
  }

  /** What follows a feature: the closing, or a comma and at least one more feature. */
  ghost predicate After<G>(text: string, p: nat, items: seq<Item<G>>, env: Env<G>)
    decreases |items|, 2
  {
    if items == [] then Closes(text, p, env)
    else exists q: nat ::
           p <= q < |text| && All(text[p..q], env.blank) && text[q] == ',' && Document(text, q + 1, items, env)
  }

  /** "]}" with nothing between, blanks before and spaces after. */
  ghost predicate Closes<G>(text: string, p: nat, env: Env<G>) {
    exists q: nat :: p <= q && q + 1 < |text| && All(text[p..q], env.blank)
                     && text[q] == ']' && text[q + 1] == '}' && All(text[q + 2..], env.wide)
  }

  lemma CloseAt<G>(text: string, q: nat, env: Env<G>)
    requires Delimits(env) && At(text, q, ']')
    ensures Stripped(text[q..], env.wide) == [']', '}']
            <==> q + 1 < |text| && text[q + 1] == '}' && All(text[q + 2..], env.wide)
  {
    CloseIs(text[q..], env.wide);
    assert q + 1 < |text| ==> text[q..][2..] == text[q + 2..];
  }

  lemma FeatureScanned<G(!new)>(text: string, p: nat, items: seq<Item<G>>, env: Env<G>) returns (q: nat, e: nat)
    requires Delimited(env) && p <= |text| && Scan(text, p, env) == Some(items)
             && !At(text, Skip(text, p, env.blank), ']')
    ensures p <= q < e <= |text| && All(text[p..q], env.blank) && items != []
    ensures env.alone(text[q..e]) == Some((items[0].name, items[0].geometry))
            && ScanNext(text, e, env) == Some(items[1..])
  {
    q := Skip(text, p, env.blank);
    e := env.feature(text, q).value.end;
  }

  lemma {:induction false} ScannedIsDocument<G(!new)>(text: string, p: nat, items: seq<Item<G>>, env: Env<G>)
    requires Delimited(env) && p <= |text| && Scan(text, p, env) == Some(items)
    ensures Document(text, p, items, env)
    decreases |text| - p, 1
  {
    if At(text, Skip(text, p, env.blank), ']') {
      CloseAt(text, Skip(text, p, env.blank), env);
    } else {
      var q, e := FeatureScanned(text, p, items, env);
      NextIsAfter(text, e, items[1..], env);
    }
  }

  lemma {:induction false} NextIsAfter<G(!new)>(text: string, end: nat, items: seq<Item<G>>, env: Env<G>)
    requires Delimited(env) && 0 < end <= |text| && ScanNext(text, end, env) == Some(items)
    ensures After(text, end, items, env)
    decreases |text| - end + 1, 0
  {
    var q := NextScanned(text, end, items, env);
    if text[q] == ',' {
      ScannedIsDocument(text, q + 1, items, env);
    } else {
      assert text[q..q] == "";
      SkipsTo(text, q, q, env.blank);
      CloseAt(text, q, env);
    }
  }

  lemma NextScanned<G>(text: string, end: nat, items: seq<Item<G>>, env: Env<G>) returns (q: nat)
    requires 0 < end <= |text| && ScanNext(text, end, env) == Some(items)
    ensures end <= q < |text| && All(text[end..q], env.blank) && (text[q] == ',' || text[q] == ']')
            && !env.blank(text[q])
    ensures text[q] == ',' ==> items != [] && Scan(text, q + 1, env) == Some(items)
    ensures text[q] == ']' ==> Scan(text, q, env) == Some(items)
  {
    q := Skip(text, end, env.blank);
  }

  lemma FeatureFound<G(!new)>(text: string, p: nat, items: seq<Item<G>>, env: Env<G>) returns (q: nat, e: nat)
    requires Delimited(env) && items != [] && Document(text, p, items, env)
    ensures p <= q < e <= |text| && Skip(text, p, env.blank) == q && text[q] == '{'
    ensures env.feature(text, q) == Some(Found(items[0].name, items[0].geometry, e)) && After(text, e, items[1..], env)
  {
    q, e :| p <= q < e <= |text| && All(text[p..q], env.blank)
            && env.alone(text[q..e]) == Some((items[0].name, items[0].geometry)) && After(text, e, items[1..], env);
    assert text[q] == text[q..e][0];
    SkipsTo(text, p, q, env.blank);
  }

  lemma CloseScans<G>(text: string, p: nat, env: Env<G>)
    requires Delimits(env) && Closes(text, p, env)
    ensures p <= |text| && Scan(text, p, env) == Some([]) && (p > 0 ==> ScanNext(text, p, env) == Some([]))
  {
    var q: nat :| p <= q && q + 1 < |text| && All(text[p..q], env.blank)
                  && text[q] == ']' && text[q + 1] == '}' && All(text[q + 2..], env.wide);
    SkipsTo(text, p, q, env.blank);
    assert text[q..q] == "";
    SkipsTo(text, q, q, env.blank);
    CloseAt(text, q, env);
  }

  lemma FeatureScans<G>(text: string, p: nat, q: nat, e: nat, items: seq<Item<G>>, env: Env<G>)
    requires p <= q < e <= |text| && Skip(text, p, env.blank) == q && text[q] == '{' && items != []
    requires env.feature(text, q) == Some(Found(items[0].name, items[0].geometry, e))
             && ScanNext(text, e, env) == Some(items[1..])
    ensures Scan(text, p, env) == Some(items)
  {
    assert [items[0]] + items[1..] == items;
  }

  lemma CommaFound<G>(text: string, end: nat, items: seq<Item<G>>, env: Env<G>) returns (q: nat)
    requires items != [] && After(text, end, items, env)
    ensures end <= q < |text| && All(text[end..q], env.blank) && text[q] == ',' && Document(text, q + 1, items, env)
  {
    q :| end <= q < |text| && All(text[end..q], env.blank) && text[q] == ',' && Document(text, q + 1, items, env);
  }

  lemma CommaScans<G>(text: string, end: nat, q: nat, items: seq<Item<G>>, env: Env<G>)
    requires Delimits(env) && 0 < end <= q < |text| && All(text[end..q], env.blank) && text[q] == ','
    requires !At(text, Skip(text, q + 1, env.blank), ']') && Scan(text, q + 1, env) == Some(items)
    ensures ScanNext(text, end, env) == Some(items)
  {
    SkipsTo(text, end, q, env.blank);
  }

  lemma {:induction false} DocumentIsScanned<G(!new)>(text: string, p: nat, items: seq<Item<G>>, env: Env<G>)
    requires Delimited(env) && Document(text, p, items, env)
    ensures p <= |text| && Scan(text, p, env) == Some(items)
    ensures items != [] ==> !At(text, Skip(text, p, env.blank), ']')
    decreases |items|, 1
  {
    if items == [] {
      CloseScans(text, p, env);
    } else {
      var q, e := FeatureFound(text, p, items, env);
      AfterIsScanned(text, e, items[1..], env);
      FeatureScans(text, p, q, e, items, env);
    }
  }

  lemma {:induction false} AfterIsScanned<G(!new)>(text: string, end: nat, items: seq<Item<G>>, env: Env<G>)
    requires Delimited(env) && 0 < end && After(text, end, items, env)
    ensures end <= |text| && ScanNext(text, end, env) == Some(items)
    decreases |items|, 2
  {
    if items == [] {
      CloseScans(text, end, env);
    } else {
      var q := CommaFound(text, end, items, env);
      DocumentIsScanned(text, q + 1, items, env);
      CommaScans(text, end, q, items, env);
    }
  }

  /** The loop accepts exactly the texts of the grammar, and yields their features in order. */
  lemma ScansExactly<G(!new)>(text: string, p: nat, items: seq<Item<G>>, env: Env<G>)
    requires Delimited(env) && p <= |text|
    ensures Scan(text, p, env) == Some(items) <==> Document(text, p, items, env)
  {
    if Scan(text, p, env) == Some(items) {
      ScannedIsDocument(text, p, items, env);
    }
    if Document(text, p, items, env) {
      DocumentIsScanned(text, p, items, env);
    }
  }

  // ---- the whole file ----

  predicate DistinctNames<G>(items: seq<Item<G>>)
  {
    forall i, j :: 0 <= i < j < |items| ==> items[i].name != items[j].name
  }

  predicate Known<G>(items: seq<Item<G>>, catalog: set<string>)
  {
    forall i :: 0 <= i < |items| ==> items[i].name in catalog
  }

  predicate Covers<G>(items: seq<Item<G>>, catalog: set<string>)
  {
    forall name :: name in catalog ==> name in Names(items)
  }

  /** Every catalogue name once and no other name, within the count of features. */
  predicate NamesFit<G>(items: seq<Item<G>>, catalog: set<string>, limit: nat) {
    Admitted(items, catalog, limit) && Covers(items, catalog)
  }

  predicate Admitted<G>(items: seq<Item<G>>, catalog: set<string>, limit: nat) {
    DistinctNames(items) && Known(items, catalog) && |items| <= limit
  }

  function Names<G>(items: seq<Item<G>>): (r: seq<string>)
    ensures |r| == |items| && forall i :: 0 <= i < |items| ==> r[i] == items[i].name
  {
    seq(|items|, i requires 0 <= i < |items| => items[i].name)
  }

  function Geometries<G>(items: seq<Item<G>>): (r: seq<G>)
    ensures |r| == |items| && forall i :: 0 <= i < |items| ==> r[i] == items[i].geometry
  {
    seq(|items|, i requires 0 <= i < |items| => items[i].geometry)
  }

  /** The features of the file; None where the parser raises. */
  function Parse<G>(text: string, catalog: set<string>, prefix: seq<string>, limit: nat,
                    env: Env<G>): Option<seq<Item<G>>> {
    match MatchTokens(text, 0, prefix, env.wide)
    case None => None
    case Some(start) =>
      if start > |text| then None
      else match Scan(text, start, env)
        case None => None
        case Some(items) => if NamesFit(items, catalog, limit) then Some(items) else None
  }

  /** The while loops that step over blanks. */
  method SkipBlanks(text: string, p: nat, space: char -> bool) returns (q: nat)
    requires p <= |text|
    ensures q == Skip(text, p, space)
  {
    q := p;
    while q < |text| && space(text[q])
      invariant p <= q <= |text| && All(text[p..q], space)
    {
      assert text[p..q + 1] == text[p..q] + [text[q]];
      q := q + 1;
    }
    SkipsTo(text, p, q, space);
  }

  /** A name that is wrong where it stands makes the whole file wrong. */
  lemma WrongName<G>(done: seq<Item<G>>, item: Item<G>, rest: Option<seq<Item<G>>>, catalog: set<string>, limit: nat)
    requires item.name !in catalog || item.name in Names(done) || |done| >= limit
    ensures Continue(done + [item], rest).Some? ==> !Admitted(Continue(done + [item], rest).value, catalog, limit)
  {
    if rest.Some? {
      var all := done + [item] + rest.value;
      assert all[|done|] == item;
      if item.name in Names(done) {
        var i :| 0 <= i < |done| && Names(done)[i] == item.name;
        assert all[i] == done[i];
      }
    }
  }

  /** The loop's last part: over a comma that is not the last thing, or up to the closing bracket. */
  method NextPosition<G>(text: string, end: nat, env: Env<G>) returns (ok: bool, position: nat)
    requires 0 < end <= |text|
    ensures ok ==> end <= position <= |text| && ScanNext(text, end, env) == Scan(text, position, env)
    ensures !ok ==> ScanNext(text, end, env) == None
  {
    position := SkipBlanks(text, end, env.blank);
    if At(text, position, ',') {
      position := position + 1;
      var lookahead := SkipBlanks(text, position, env.blank);
      return !At(text, lookahead, ']'), position;
    }
    return At(text, position, ']'), position;
  }

  /** The loop: names and geometries side by side, in document order. */
  method ParseFeatures<G>(text: string, start: nat, catalog: set<string>, limit: nat, env: Env<G>)
    returns (ok: bool, names: seq<string>, geometries: seq<G>)
    requires start <= |text|
    ensures ok <==> Scan(text, start, env).Some? && Admitted(Scan(text, start, env).value, catalog, limit)
    ensures ok ==>
              names == Names(Scan(text, start, env).value) && geometries == Geometries(Scan(text, start, env).value)
  {
    names, geometries := [], [];
    var position := start;
    ghost var done: seq<Item<G>> := [];
    ContinueNone(Scan(text, start, env));
    while true
      invariant start <= position <= |text|
      invariant names == Names(done) && geometries == Geometries(done) && Admitted(done, catalog, limit)
      invariant Scan(text, start, env) == Continue(done, Scan(text, position, env))
      decreases |text| - position
    {
      var p := SkipBlanks(text, position, env.blank);
      if At(text, p, ']') {
        assert done + [] == done;
        return Stripped(text[p..], env.wide) == [']', '}'], names, geometries;
      }
      var feature := env.feature(text, p);
      if feature.None? || !(p < feature.value.end <= |text|) {
        return false, [], [];
      }
      var name, geometry, end := feature.value.name, feature.value.geometry, feature.value.end;
      ghost var item := Item(name, geometry);
      ContinueOne(done, item, ScanNext(text, end, env));
      if name !in catalog || name in names || |names| + 1 > limit {
        WrongName(done, item, ScanNext(text, end, env), catalog, limit);
        return false, [], [];
      }
      OneMoreItem(done, item, catalog, limit);
      names, geometries, done := names + [name], geometries + [geometry], done + [item];
      ok, position := NextPosition(text, end, env);
      if !ok {
        return false, [], [];
      }
    }
  }

  lemma OneMoreItem<G>(done: seq<Item<G>>, item: Item<G>, catalog: set<string>, limit: nat)
    requires Admitted(done, catalog, limit) && item.name in catalog && item.name !in Names(done) && |done| < limit
    ensures Admitted(done + [item], catalog, limit)
    ensures Names(done + [item]) == Names(done) + [item.name]
            && Geometries(done + [item]) == Geometries(done) + [item.geometry]
  {
    forall i | 0 <= i < |done| ensures done[i].name != item.name {
      assert Names(done)[i] == done[i].name;
    }
  }

  /** _parse_geometry */
  method ParseGeometry<G>(text: string, catalog: set<string>, prefix: seq<string>, limit: nat, env: Env<G>)
    returns (ok: bool, names: seq<string>, geometries: seq<G>)
    ensures ok <==> Parse(text, catalog, prefix, limit, env).Some?
    ensures ok ==> names == Names(Parse(text, catalog, prefix, limit, env).value)
                   && geometries == Geometries(Parse(text, catalog, prefix, limit, env).value)
  {
    var matched := MatchTokens(text, 0, prefix, env.wide);
    if matched.None? || matched.value > |text| {
      return false, [], [];
    }
    ok, names, geometries := ParseFeatures(text, matched.value, catalog, limit, env);
    ok := ok && forall name :: name in catalog ==> name in names;
  }

  /** An accepted file lists every catalogue name exactly once and nothing else. */
  lemma EveryNameOnce<G>(items: seq<Item<G>>, catalog: set<string>, limit: nat)
    requires NamesFit(items, catalog, limit)
    ensures |items| == |catalog|
    ensures forall name :: name in catalog <==> name in Names(items)
    ensures forall i, j :: 0 <= i < |items| && 0 <= j < |items| && items[i].name == items[j].name ==> i == j
  {
    CountNames(items);
    assert (set i | 0 <= i < |items| :: items[i].name) == catalog by {
      forall name | name in catalog ensures exists i :: 0 <= i < |items| && items[i].name == name {
        assert name in Names(items);
        var i :| 0 <= i < |items| && Names(items)[i] == name;
      }
    }
  }

  lemma {:induction false} CountNames<G>(items: seq<Item<G>>)
    requires DistinctNames(items)
    ensures |set i | 0 <= i < |items| :: items[i].name| == |items|
  {
    var all := set i | 0 <= i < |items| :: items[i].name;
    if items == [] {
      assert all == {};
    } else {
      var init := items[..|items| - 1];
      var before := set i | 0 <= i < |init| :: init[i].name;
      CountNames(init);
      var last := items[|items| - 1].name;
      assert all == before + {last} by {
        forall name | name in all ensures name in before + {last} {
          var i :| 0 <= i < |items| && items[i].name == name;
          assert i < |init| ==> init[i].name == name;
        }
        forall name | name in before ensures name in all {
          var i :| 0 <= i < |init| && init[i].name == name;
          assert items[i].name == name;
        }
      }
      assert last !in before;
    }
  }

  /** The count check never decides anything where the limit is the size of the catalogue. */
  lemma CountCheckIsRedundant<G>(items: seq<Item<G>>, catalog: set<string>)
    requires DistinctNames(items) && Known(items, catalog)
    ensures |items| <= |catalog|
  {
    var all := set i | 0 <= i < |items| :: items[i].name;
    CountNames(items);
    assert catalog == all + (catalog - all);
  }

  ghost predicate IsCollection<G>(text: string, start: nat, items: seq<Item<G>>, prefix: seq<string>, env: Env<G>) {
    start <= |text| && Spells(text[..start], prefix, env.wide) && Document(text, start, items, env)
  }

  /**
   A file is accepted exactly if it is a feature collection whose names are the catalogue, and then it yields those
   features.
   */
  lemma AcceptsExactlyTheGrammar<G(!new)>(text: string, catalog: set<string>, prefix: seq<string>, limit: nat,
                                          env: Env<G>, items: seq<Item<G>>)
    requires Delimited(env) && Solid(prefix, env.wide)
    ensures Parse(text, catalog, prefix, limit, env) == Some(items)
            <==> NamesFit(items, catalog, limit) && exists start :: IsCollection(text, start, items, prefix, env)
  {
    var matched := MatchTokens(text, 0, prefix, env.wide);
    forall start: nat ensures IsCollection(text, start, items, prefix, env)
                              <==> matched == Some(start) && start <= |text| && Scan(text, start, env) == Some(items) {
      MatchesExactly(text, start, prefix, env.wide);
      if start <= |text| {
        ScansExactly(text, start, items, env);
      }
    }
  }

  const FEATURE_COUNT: nat := 419

  /**
   The same at the prefix and the count of the service, for a catalogue of that many names: a file is accepted
   exactly if it is a feature collection that names every zone of the catalogue once and no other.
   */
  lemma AcceptsExactlyTheCatalogue<G(!new)>(text: string, catalog: set<string>, env: Env<G>, items: seq<Item<G>>)
    requires Delimited(env) && NoMarkIsSpace(env.wide) && |catalog| == FEATURE_COUNT
    ensures Parse(text, catalog, PREFIX, FEATURE_COUNT, env) == Some(items)
            <==> DistinctNames(items) && Known(items, catalog) && Covers(items, catalog)
                 && exists start :: IsCollection(text, start, items, PREFIX, env)
  {
    PrefixIsSolid(env.wide);
    AcceptsExactlyTheGrammar(text, catalog, PREFIX, FEATURE_COUNT, env, items);
    if DistinctNames(items) && Known(items, catalog) {
      CountCheckIsRedundant(items, catalog);
    }
  }
}
