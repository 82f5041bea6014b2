/**
 The payload of an RPM: members in the new ASCII cpio format, read by a moving cursor.
 A byte is a char; decoding a name is a parameter, and size fields are read as hexadecimal digits only.
 */
module Cpio {
  import opened Collections
  import opened Digits
  import opened Results

  type Bytes = string

  datatype Entry = Entry(name: string, body: Bytes)

  // ---- hexadecimal fields ----

  predicate AllHex(s: Bytes) { forall i :: 0 <= i < |s| ==> IsHex(s[i]) }

  function Hex(s: Bytes): nat
    requires AllHex(s)
  {
    if s == [] then 0 else 16 * Hex(s[..|s| - 1]) + HexDigit(s[|s| - 1])
  }

  /** int(s, 16) */
  function HexValue(s: Bytes): Option<nat> { if s != [] && AllHex(s) then Some(Hex(s)) else None }

  /** (n + 3) & ~3 */
  function Align(n: nat): nat { n + 3 - (n + 3) % 4 }

  predicate Aligned(n: nat) { n % 4 == 0 }

  // ---- the reader ----

  datatype Step = Member(entry: Entry, next: nat) | Trailer | Bad

  /** What a member starts with, how its size fields and its name are read, and the name that ends the archive. */
  datatype Format = Format(magics: set<Bytes>, hex: Bytes -> Option<nat>, trailer: string,
      decode: Bytes -> Option<string>)

  /** The new ASCII format, with and without checksum. */
  function NewAscii(decode: Bytes -> Option<string>): Format
  {
    Format({"070701", "070702"}, HexValue, "TRAILER!!!", decode)
  }

  /** One turn of the loop, the header being all there. */
  function ReadOne(data: Bytes, cursor: nat, f: Format): Step
    requires cursor + 110 <= |data|
  {
    if data[cursor..cursor + 6] !in f.magics then Bad
    else match (f.hex(data[cursor + 54..cursor + 62]), f.hex(data[cursor + 94..cursor + 102]))
      case (Some(size), Some(nameSize)) => if 0 < nameSize < 4096 then Take(data, cursor, size, nameSize, f) else Bad
      case _ => Bad
  }

  /** The name and the body after a header, both to be found inside the payload. */
  function Take(data: Bytes, cursor: nat, size: nat, nameSize: nat, f: Format): Step
    requires nameSize > 0
  {
    var start := Align(cursor + 110 + nameSize);
    if start + size > |data| then Bad
    else match f.decode(data[cursor + 110..cursor + 109 + nameSize])
      case None => Bad
      case Some(name) =>
        if name == f.trailer then Trailer else Member(Entry(name, data[start..start + size]), Align(start + size))
  }

  /** The members up to the trailer. */
  function ReadAll(data: Bytes, cursor: nat, f: Format): Option<seq<Entry>>
    decreases |data| - cursor
  {
    if cursor + 110 > |data| then None
    else match ReadOne(data, cursor, f)
      case Bad => None
      case Trailer => Some([])
      case Member(entry, next) => Then(entry, ReadAll(data, next, f))
  }

  predicate Distinct(entries: seq<Entry>)
  {
    forall i, j :: 0 <= i < j < |entries| ==> entries[i].name != entries[j].name
  }

  function Members(entries: seq<Entry>): map<string, Bytes> {
    if entries == [] then map[]
      else Members(entries[..|entries| - 1])[entries[|entries| - 1].name := entries[|entries| - 1].body]
  }

  /** What the payload holds; None where the reader raises. */
  function Payload(data: Bytes, f: Format): Option<map<string, Bytes>> {
    match ReadAll(data, 0, f)
    case None => None
    case Some(entries) => if Distinct(entries) then Some(Members(entries)) else None
  }

  lemma {:induction false} MemberNames(entries: seq<Entry>, name: string)
    ensures name in Members(entries) <==> exists i :: 0 <= i < |entries| && entries[i].name == name
  {
    if entries != [] {
      var n := |entries| - 1;
      MemberNames(entries[..n], name);
      if name in Members(entries[..n]) {
        var i :| 0 <= i < n && entries[..n][i].name == name;
        assert entries[i].name == name;
      }
      if exists i :: 0 <= i < |entries| && entries[i].name == name {
        var i :| 0 <= i < |entries| && entries[i].name == name;
        assert i < n ==> entries[..n][i].name == name;
      }
    }
  }

  /** The loop's body up to the duplicate check. */
  method ReadMember(data: Bytes, cursor: nat, f: Format) returns (step: Step)
    requires cursor + 110 <= |data|
    ensures step == ReadOne(data, cursor, f)
  {
    var magic := data[cursor..cursor + 6];
    if magic !in f.magics {
      return Bad;
    }
    var size := f.hex(data[cursor + 54..cursor + 62]);
    var nameSize := f.hex(data[cursor + 94..cursor + 102]);
    if size.None? || nameSize.None? || !(0 < nameSize.value < 4096) {
      return Bad;
    }
    var start := cursor + 110;
    var nameEnd := start + nameSize.value - 1;
    var name := f.decode(data[start..if nameEnd <= |data| then nameEnd else |data|]);
    start := Align(start + nameSize.value);
    if name.None? || start + size.value > |data| {
      return Bad;
    }
    if name.value == f.trailer {
      return Trailer;
    }
    return Member(Entry(name.value, data[start..start + size.value]), Align(start + size.value));
  }

  /** The loop. */
  method ReadPayload(data: Bytes, f: Format) returns (r: Option<map<string, Bytes>>)
    ensures r == Payload(data, f)
  {
    var members: map<string, Bytes> := map[];
    var cursor := 0;
    ghost var done: seq<Entry> := [];
    ContinueNone(ReadAll(data, 0, f));
    while cursor + 110 <= |data|
      invariant members == Members(done) && Distinct(done)
      invariant ReadAll(data, 0, f) == Continue(done, ReadAll(data, cursor, f))
      decreases |data| - cursor
    {
      var step := ReadMember(data, cursor, f);
      match step
      case Bad => return None;
      case Trailer =>
        assert done + [] == done;
        return Some(members);
      case Member(entry, next) =>
        MemberNames(done, entry.name);
        ContinueOne(done, entry, ReadAll(data, next, f));
        if entry.name in members {
          Repeats(done, entry, ReadAll(data, next, f));
          return None;
        }
        assert (done + [entry])[..|done|] == done;
        done := done + [entry];
        members := members[entry.name := entry.body];
        cursor := next;
    }
    return None;
  }

  lemma Repeats(done: seq<Entry>, entry: Entry, rest: Option<seq<Entry>>)
    requires exists i :: 0 <= i < |done| && done[i].name == entry.name
    ensures rest.Some? ==> !Distinct(done + [entry] + rest.value)
  {
    if rest.Some? {
      var i :| 0 <= i < |done| && done[i].name == entry.name;
      var all := done + [entry] + rest.value;
      assert all[i] == done[i] && all[|done|] == entry;
    }
  }

  // ---- the cursor ----

  /**
   From an aligned cursor: the next one is aligned and at least a header further, and the body lies inside the payload.
   */
  lemma CursorAdvances(data: Bytes, cursor: nat, f: Format) returns (start: nat)
    requires Aligned(cursor) && cursor + 110 <= |data| && ReadOne(data, cursor, f).Member?
    ensures Advances(data, cursor, start, ReadOne(data, cursor, f))
  {
    start := TakeAdvances(data, cursor, f.hex(data[cursor + 54..cursor + 62]).value,
                          f.hex(data[cursor + 94..cursor + 102]).value, f);
  }

  predicate Advances(data: Bytes, cursor: nat, start: nat, step: Step) {
    step.Member? && Aligned(start) && cursor + 112 <= start <= start + |step.entry.body| <= |data|
    && step.entry.body == data[start..start + |step.entry.body|]
    && Aligned(step.next) && start + |step.entry.body| <= step.next < start + |step.entry.body| + 4
  }

  lemma TakeAdvances(data: Bytes, cursor: nat, size: nat, nameSize: nat, f: Format) returns (start: nat)
    requires Aligned(cursor) && nameSize > 0 && Take(data, cursor, size, nameSize, f).Member?
    ensures Advances(data, cursor, start, Take(data, cursor, size, nameSize, f))
  {
    start := Align(cursor + 110 + nameSize);
    Rounds(cursor + 110 + nameSize);
    Rounds(start + size);
    NextMultiple(cursor, start);
  }

  lemma Rounds(n: nat)
    ensures Aligned(Align(n)) && n <= Align(n) < n + 4
  {
  }

  lemma NextMultiple(a: nat, b: nat)
    requires Aligned(a) && Aligned(b) && b >= a + 111
    ensures b >= a + 112
  {
  }

  // ---- the format ----

  /** One member as it stands in the payload: a gap is the terminator of the name and the padding after it. */
  datatype Wire = Wire(header: Bytes, name: Bytes, gap: Bytes, body: Bytes)

  function Printed(w: Wire): Bytes { w.header + w.name + w.gap + w.body }

  /** The header's other fields and the contents of the gap are free. */
  predicate Fits(w: Wire, f: Format) {
    |w.header| == 110 && w.header[..6] in f.magics
    && f.hex(w.header[54..62]) == Some(|w.body|) && f.hex(w.header[94..102]) == Some(|w.name| + 1)
    && |w.name| + 1 < 4096 && |w.gap| == Align(111 + |w.name|) - (110 + |w.name|) && f.decode(w.name).Some?
  }

  function Read(w: Wire, f: Format): Entry
    requires Fits(w, f)
  {
    Entry(f.decode(w.name).value, w.body)
  }

  /** These bytes are a member with this entry, padded to the next multiple of four. */
  ghost predicate Prints(p: Bytes, e: Entry, f: Format) {
    exists w ::
      Fits(w, f) && Read(w, f) == e && f.decode(w.name) != Some(f.trailer)
      && |p| == Align(|Printed(w)|) && p[..|Printed(w)|] == Printed(w)
  }

  /** These bytes are a trailer, without padding. */
  ghost predicate PrintsTrailer(p: Bytes, f: Format) {
    exists w :: Fits(w, f) && f.decode(w.name) == Some(f.trailer) && p == Printed(w)
  }

  ghost predicate AllPrint(parts: seq<Bytes>, entries: seq<Entry>, f: Format) {
    |parts| == |entries| && forall i :: 0 <= i < |parts| ==> Prints(parts[i], entries[i], f)
  }

  function Join(parts: seq<Bytes>): Bytes { if parts == [] then [] else parts[0] + Join(parts[1..]) }

  /** The format: members, then a trailer, then anything. */
  ghost predicate Archive(data: Bytes, parts: seq<Bytes>, entries: seq<Entry>, last: Bytes, tail: Bytes, f: Format) {
    data == Join(parts) + (last + tail) && AllPrint(parts, entries, f) && PrintsTrailer(last, f)
  }

  ghost predicate IsArchiveOf(data: Bytes, entries: seq<Entry>, f: Format) {
    exists parts, last, tail :: Archive(data, parts, entries, last, tail, f)
  }

  // ---- what is printed is read back ----

  lemma AlignFrom(c: nat, n: nat)
    requires Aligned(c)
    ensures Align(c + n) == c + Align(n) && Aligned(Align(n)) && Aligned(Align(c + n)) && n <= Align(n) < n + 4
  {
  }

  lemma AlignedSum(a: nat, b: nat)
    requires Aligned(a) && Aligned(b)
    ensures Aligned(a + b)
  {
  }

  /** Where the parts of a member stand. */
  lemma Parts(pre: Bytes, header: Bytes, name: Bytes, gap: Bytes, body: Bytes, post: Bytes, data: Bytes, c: nat)
    requires data == pre + (header + name + gap + body) + post && c == |pre|
    ensures var n := c + |header| + |name|;
            n + |gap| + |body| <= |data| && data[c..c + |header|] == header && data[c + |header|..n] == name
            && data[n + |gap|..n + |gap| + |body|] == body
  {
  }

  /** A member anywhere in a payload at an aligned place is read as it was printed. */
  lemma ReadsBack(pre: Bytes, w: Wire, post: Bytes, data: Bytes, c: nat, f: Format)
    requires Fits(w, f) && data == pre + Printed(w) + post && c == |pre| && Aligned(c)
    ensures c + 110 <= |data|
    ensures ReadOne(data, c, f)
            == if f.decode(w.name) == Some(f.trailer) then Trailer else Member(Read(w, f), Align(c + |Printed(w)|))
  {
    Parts(pre, w.header, w.name, w.gap, w.body, post, data, c);
    SliceOfSlice(data, c, c + 110, 0, 6);
    SliceOfSlice(data, c, c + 110, 54, 62);
    SliceOfSlice(data, c, c + 110, 94, 102);
    TakesBack(data, c, w, c + |Printed(w)|, f);
  }

  lemma TakesBack(data: Bytes, c: nat, w: Wire, end: nat, f: Format)
    requires Fits(w, f) && Aligned(c) && end == c + |Printed(w)| <= |data|
    requires data[c + 110..c + 110 + |w.name|] == w.name && data[end - |w.body|..end] == w.body
    ensures Take(data, c, |w.body|, |w.name| + 1, f)
            == if f.decode(w.name) == Some(f.trailer) then Trailer else Member(Read(w, f), Align(end))
  {
    AlignFrom(c, 111 + |w.name|);
  }

  lemma PartReads(pre: Bytes, p: Bytes, e: Entry, post: Bytes, data: Bytes, f: Format)
    requires Prints(p, e, f) && data == pre + p + post && Aligned(|pre|)
    ensures Aligned(|p|) && |pre| + 110 <= |data| && ReadOne(data, |pre|, f) == Member(e, |pre| + |p|)
  {
    var w :| Fits(w, f) && Read(w, f) == e && f.decode(w.name) != Some(f.trailer)
             && |p| == Align(|Printed(w)|) && p[..|Printed(w)|] == Printed(w);
    var pad := p[|Printed(w)|..];
    assert p == Printed(w) + pad;
    Regroup(pre, Printed(w), pad, post);
    ReadsBack(pre, w, pad + post, data, |pre|, f);
    PadEnds(|pre|, |Printed(w)|, |p|);
  }

  lemma PadEnds(c: nat, n: nat, padded: nat)
    requires Aligned(c) && padded == Align(n)
    ensures Aligned(padded) && Align(c + n) == c + padded
  {
  }

  lemma Regroup(a: Bytes, b: Bytes, c: Bytes, d: Bytes)
    ensures a + (b + c) + d == a + b + (c + d)
    ensures a + ((b + c) + d) == a + b + (c + d) && a + b + (c + d) == (a + b) + (c + d)
  {
  }

  lemma TrailerReads(pre: Bytes, last: Bytes, tail: Bytes, data: Bytes, f: Format)
    requires PrintsTrailer(last, f) && data == pre + last + tail && Aligned(|pre|)
    ensures |pre| + 110 <= |data| && ReadOne(data, |pre|, f) == Trailer
  {
    var w :| Fits(w, f) && f.decode(w.name) == Some(f.trailer) && last == Printed(w);
    ReadsBack(pre, w, tail, data, |pre|, f);
  }

  lemma ReadsOneMore(pre: Bytes, parts: seq<Bytes>, entries: seq<Entry>, post: Bytes, data: Bytes, f: Format)
    requires AllPrint(parts, entries, f) && parts != [] && data == pre + parts[0] + post && Aligned(|pre|)
    ensures Aligned(|pre + parts[0]|)
    ensures ReadAll(data, |pre + parts[0]|, f) == Some(entries[1..]) ==> ReadAll(data, |pre|, f) == Some(entries)
  {
    PartReads(pre, parts[0], entries[0], post, data, f);
    AlignedSum(|pre|, |parts[0]|);
    assert [entries[0]] + entries[1..] == entries;
  }

  lemma RestPrints(parts: seq<Bytes>, entries: seq<Entry>, f: Format)
    requires AllPrint(parts, entries, f) && parts != []
    ensures AllPrint(parts[1..], entries[1..], f)
  {
    forall i | 0 <= i < |parts| - 1 ensures Prints(parts[1..][i], entries[1..][i], f) {
      assert Prints(parts[i + 1], entries[i + 1], f);
    }
  }

  /** From any aligned place on, an archive is read as its entries. */
  lemma {:induction false} ReadsArchive(pre: Bytes, parts: seq<Bytes>, entries: seq<Entry>, last: Bytes, tail: Bytes,
                                        data: Bytes, f: Format)
    requires AllPrint(parts, entries, f) && PrintsTrailer(last, f)
    requires data == pre + (Join(parts) + (last + tail)) && Aligned(|pre|)
    ensures ReadAll(data, |pre|, f) == Some(entries)
    decreases |parts|
  {
    if parts == [] {
      Regroup(pre, [], last, tail);
      assert pre + [] == pre;
      TrailerReads(pre, last, tail, data, f);
    } else {
      var more := Join(parts[1..]);
      Regroup(pre, parts[0], more, last + tail);
      ReadsOneMore(pre, parts, entries, more + (last + tail), data, f);
      RestPrints(parts, entries, f);
      ReadsArchive(pre + parts[0], parts[1..], entries[1..], last, tail, data, f);
    }
  }

  // ---- and only what could be printed is read ----

  /** The wire form of what stands in data between a cursor and the end of its body. */
  function Cut(data: Bytes, c: nat, nul: nat, start: nat, end: nat): Wire
    requires c + 110 <= nul < start <= end <= |data|
  {
    Wire(data[c..c + 110], data[c + 110..nul], data[nul..start], data[start..end])
  }

  lemma CutIsWhole(data: Bytes, c: nat, nul: nat, start: nat, end: nat)
    requires c + 110 <= nul < start <= end <= |data|
    ensures Printed(Cut(data, c, nul, start, end)) == data[c..end]
  {
  }

  lemma CutAt(data: Bytes, c: nat, f: Format) returns (w: Wire, end: nat)
    requires Aligned(c) && c + 110 <= |data| && !ReadOne(data, c, f).Bad?
    ensures c < end <= |data| && Fits(w, f) && Printed(w) == data[c..end]
    ensures ReadOne(data, c, f) == if f.decode(w.name) == Some(f.trailer) then Trailer
              else Member(Read(w, f), Align(end))
  {
    var size, nameSize := f.hex(data[c + 54..c + 62]).value, f.hex(data[c + 94..c + 102]).value;
    var nul := c + 109 + nameSize;
    var start := Align(c + 110 + nameSize);
    AlignFrom(c, 110 + nameSize);
    end := start + size;
    w := Cut(data, c, nul, start, end);
    CutIsWhole(data, c, nul, start, end);
    SliceOfSlice(data, c, c + 110, 0, 6);
    SliceOfSlice(data, c, c + 110, 54, 62);
    SliceOfSlice(data, c, c + 110, 94, 102);
  }

  /** What follows a cursor is a trailer, or a member up to the next cursor if that is still inside. */
  lemma PartAt(data: Bytes, c: nat, f: Format) returns (end: nat)
    requires Aligned(c) && c + 110 <= |data| && !ReadOne(data, c, f).Bad?
    ensures c < end <= |data| && Aligned(Align(end)) && c < Align(end)
    ensures ReadOne(data, c, f).Trailer? ==> PrintsTrailer(data[c..end], f)
    ensures ReadOne(data, c, f).Member? ==>
              ReadOne(data, c, f).next == Align(end)
              && (Align(end) <= |data| ==> Prints(data[c..Align(end)], ReadOne(data, c, f).entry, f))
  {
    var w;
    w, end := CutAt(data, c, f);
    AlignFrom(c, end - c);
    if Align(end) <= |data| {
      SliceOfSlice(data, c, Align(end), 0, end - c);
    }
  }

  /** Whatever is read from an aligned place is an archive with those entries. */
  lemma {:induction false} OnlyArchivesRead(data: Bytes, c: nat, f: Format)
    returns (parts: seq<Bytes>, last: Bytes, tail: Bytes)
    requires Aligned(c) && ReadAll(data, c, f).Some?
    ensures c <= |data| && Archive(data[c..], parts, ReadAll(data, c, f).value, last, tail, f)
    decreases |data| - c
  {
    var end := PartAt(data, c, f);
    if ReadOne(data, c, f).Trailer? {
      JustATrailer(data, c, end, f);
      return [], data[c..end], data[end..];
    }
    var entry, next := ReadOne(data, c, f).entry, ReadOne(data, c, f).next;
    var more;
    more, last, tail := OnlyArchivesRead(data, next, f);
    OneMorePart(data, c, next, entry, more, ReadAll(data, next, f).value, last, tail, f);
    return [data[c..next]] + more, last, tail;
  }

  lemma JustATrailer(data: Bytes, c: nat, end: nat, f: Format)
    requires c <= end <= |data| && PrintsTrailer(data[c..end], f)
    ensures Archive(data[c..], [], [], data[c..end], data[end..], f)
  {
    assert data[c..] == data[c..end] + data[end..];
    assert Join([]) + (data[c..end] + data[end..]) == data[c..end] + data[end..];
  }

  lemma OneMorePart(data: Bytes, c: nat, d: nat, e: Entry, parts: seq<Bytes>, entries: seq<Entry>, last: Bytes,
                    tail: Bytes, f: Format)
    requires c <= d <= |data| && Prints(data[c..d], e, f) && Archive(data[d..], parts, entries, last, tail, f)
    ensures Archive(data[c..], [data[c..d]] + parts, [e] + entries, last, tail, f)
  {
    var p := data[c..d];
    PutFirst(p, e, parts, entries, f);
    PutBefore(data, c, d, Join(parts), last + tail);
  }

  lemma PutBefore(data: Bytes, c: nat, d: nat, more: Bytes, end: Bytes)
    requires c <= d <= |data| && data[d..] == more + end
    ensures data[c..] == (data[c..d] + more) + end
  {
    assert data[c..] == data[c..d] + data[d..];
  }

  /** The reader accepts exactly the archives of distinct names, and returns their members. */
  lemma AcceptsExactlyTheFormat(data: Bytes, f: Format, entries: seq<Entry>)
    ensures IsArchiveOf(data, entries, f) <==> ReadAll(data, 0, f) == Some(entries)
    ensures IsArchiveOf(data, entries, f) ==> Payload(data, f) == if Distinct(entries) then Some(Members(entries))
              else None
    ensures Payload(data, f).Some? ==>
            exists es :: IsArchiveOf(data, es, f) && Distinct(es) && Payload(data, f) == Some(Members(es))
  {
    if IsArchiveOf(data, entries, f) {
      var parts, last, tail :| Archive(data, parts, entries, last, tail, f);
      assert [] + data == data;
      ReadsArchive([], parts, entries, last, tail, data, f);
    }
    if ReadAll(data, 0, f).Some? {
      assert data[0..] == data;
      var parts, last, tail := OnlyArchivesRead(data, 0, f);
    }
  }

  // ---- a writer ----

  /** n in exactly w digits. */
  function HexPadded(n: nat, w: nat): (s: Bytes)
    ensures |s| == w && AllHex(s)
  {
    if w == 0 then [] else HexPadded(n / 16, w - 1) + [HexChar(n % 16)]
  }

  predicate HexFits(n: nat, w: nat) { if w == 0 then n == 0 else HexFits(n / 16, w - 1) }

  lemma {:induction false} HexReadsBack(n: nat, w: nat)
    requires HexFits(n, w)
    ensures Hex(HexPadded(n, w)) == n
  {
    if w > 0 {
      HexReadsBack(n / 16, w - 1);
      assert HexPadded(n, w)[..w - 1] == HexPadded(n / 16, w - 1);
    }
  }

  function Zeros(n: nat): (s: Bytes)
    ensures |s| == n
  {
    seq(n, _ => '0')
  }

  /** A file to write: its raw name and what it holds. */
  datatype File = File(raw: Bytes, body: Bytes)

  function HeaderOf(file: File, magic: Bytes): (h: Bytes)
    requires |magic| == 6
    ensures |h| == 110
  {
    magic + Zeros(48) + HexPadded(|file.body|, 8) + Zeros(32) + HexPadded(|file.raw| + 1, 8) + Zeros(8)
  }

  function WireOf(file: File, magic: Bytes): Wire
    requires |magic| == 6
  {
    Wire(HeaderOf(file, magic), file.raw, Zeros(Align(111 + |file.raw|) - (110 + |file.raw|)), file.body)
  }

  predicate Writable(file: File, f: Format) {
    HexFits(|file.body|, 8) && |file.raw| + 1 < 4096 && f.decode(file.raw).Some?
  }

  lemma HeaderSlices(magic: Bytes, front: Bytes, size: Bytes, middle: Bytes, nameSize: Bytes, check: Bytes, h: Bytes)
    requires |magic| == 6 && |front| == 48 && |size| == 8 && |middle| == 32 && |nameSize| == 8 && |check| == 8
    requires h == magic + front + size + middle + nameSize + check
    ensures |h| == 110 && h[..6] == magic && h[54..62] == size && h[94..102] == nameSize
  {
  }

  lemma FourDigitsSuffice(n: nat, w: nat)
    requires n < 4096 && w >= 3
    ensures HexFits(n, w)
  {
    ZeroFits(w - 3);
    assert n / 16 / 16 / 16 == 0;
    assert HexFits(n / 16 / 16, w - 2) && HexFits(n / 16, w - 1);
  }

  lemma {:induction false} ZeroFits(w: nat)
    ensures HexFits(0, w)
  {
    if w > 0 {
      ZeroFits(w - 1);
    }
  }

  lemma WireOfFits(file: File, magic: Bytes, f: Format, w: nat)
    requires |magic| == 6 && magic in f.magics && f.hex == HexValue && Writable(file, f) && w == 8
    ensures Fits(WireOf(file, magic), f)
  {
    HexReadsBack(|file.body|, w);
    FourDigitsSuffice(|file.raw| + 1, w);
    HexReadsBack(|file.raw| + 1, w);
    HeaderSlices(magic, Zeros(48), HexPadded(|file.body|, w), Zeros(32), HexPadded(|file.raw| + 1, w), Zeros(8),
        HeaderOf(file, magic));
  }

  /** A member, padded with zero digits; or the trailer. */
  function PartOf(file: File, magic: Bytes): Bytes
    requires |magic| == 6
  {
    Printed(WireOf(file, magic)) + Zeros(Align(|Printed(WireOf(file, magic))|) - |Printed(WireOf(file, magic))|)
  }

  function WriteAll(files: seq<File>, magic: Bytes): Bytes
    requires |magic| == 6
  {
    if files == [] then [] else PartOf(files[0], magic) + WriteAll(files[1..], magic)
  }

  predicate AllWritable(files: seq<File>, f: Format) {
    forall i :: 0 <= i < |files| ==> Writable(files[i], f) && f.decode(files[i].raw) != Some(f.trailer)
  }

  function Named(files: seq<File>, f: Format): (r: seq<Entry>)
    requires AllWritable(files, f)
    ensures |r| == |files|
  {
    seq(|files|, i requires 0 <= i < |files| => Entry(f.decode(files[i].raw).value, files[i].body))
  }

  lemma PartPrints(file: File, magic: Bytes, f: Format)
    requires |magic| == 6 && magic in f.magics && f.hex == HexValue && Writable(file, f)
             && f.decode(file.raw) != Some(f.trailer)
    ensures Prints(PartOf(file, magic), Entry(f.decode(file.raw).value, file.body), f)
  {
    WireOfFits(file, magic, f, 8);
    var w := WireOf(file, magic);
    assert Fits(w, f) && PartOf(file, magic)[..|Printed(w)|] == Printed(w);
  }

  lemma {:induction false} WrittenParts(files: seq<File>, magic: Bytes, f: Format) returns (parts: seq<Bytes>)
    requires |magic| == 6 && magic in f.magics && f.hex == HexValue
    requires AllWritable(files, f)
    ensures AllPrint(parts, Named(files, f), f) && Join(parts) == WriteAll(files, magic)
    decreases |files|
  {
    if files == [] {
      return [];
    }
    var more := WrittenParts(files[1..], magic, f);
    PartPrints(files[0], magic, f);
    NamedFirst(files, f);
    PutFirst(PartOf(files[0], magic), Named(files, f)[0], more, Named(files[1..], f), f);
    parts := [PartOf(files[0], magic)] + more;
  }

  lemma NamedFirst(files: seq<File>, f: Format)
    requires AllWritable(files, f) && files != []
    ensures AllWritable(files[1..], f) && Named(files, f)[0] == Entry(f.decode(files[0].raw).value, files[0].body)
    ensures Named(files, f) == [Named(files, f)[0]] + Named(files[1..], f)
  {
  }

  lemma PutFirst(p: Bytes, e: Entry, parts: seq<Bytes>, entries: seq<Entry>, f: Format)
    requires Prints(p, e, f) && AllPrint(parts, entries, f)
    ensures AllPrint([p] + parts, [e] + entries, f) && Join([p] + parts) == p + Join(parts)
  {
    assert ([p] + parts)[1..] == parts;
  }

  /**
   Round trip: files of distinct names, written one after the other with a trailer at the end, read back as themselves.
   */
  lemma WrittenReadsBack(files: seq<File>, last: File, tail: Bytes, magic: Bytes, f: Format)
    requires |magic| == 6 && magic in f.magics && f.hex == HexValue
    requires AllWritable(files, f)
    requires Writable(last, f) && f.decode(last.raw) == Some(f.trailer)
    requires Distinct(Named(files, f))
    ensures Payload(WriteAll(files, magic) + (Printed(WireOf(last, magic)) + tail), f) == Some(Members(Named(files, f)))
  {
    var data := WriteAll(files, magic) + (Printed(WireOf(last, magic)) + tail);
    var parts := WrittenParts(files, magic, f);
    WireOfFits(last, magic, f, 8);
    assert PrintsTrailer(Printed(WireOf(last, magic)), f);
    assert Archive(data, parts, Named(files, f), Printed(WireOf(last, magic)), tail, f);
    AcceptsExactlyTheFormat(data, f, Named(files, f));
  }

  /** The same at the format the service reads, in either of its variants. */
  lemma NewAsciiReadsBack(files: seq<File>, last: File, tail: Bytes, magic: Bytes, f: Format,
                          decode: Bytes -> Option<string>)
    requires f == NewAscii(decode) && magic in ["070701", "070702"]
    requires AllWritable(files, f) && Distinct(Named(files, f))
    requires Writable(last, f) && decode(last.raw) == Some("TRAILER!!!")
    ensures Payload(WriteAll(files, magic) + (Printed(WireOf(last, magic)) + tail), f) == Some(Members(Named(files, f)))
  {
    WrittenReadsBack(files, last, tail, magic, f);
  }
}
