/** UTF-16 code units, their big-endian bytes, and UTF-8, for texts of Unicode scalar values. */
module Unicode {
  import opened Results
  import Lex

  type Unit = u: int | 0 <= u < 0x1_0000

  predicate IsHigh(u: Unit) { 0xD800 <= u < 0xDC00 }

  predicate IsLow(u: Unit) { 0xDC00 <= u < 0xE000 }

  /** UTF-16 of one scalar value. */
  function CharUnits(c: char): (r: seq<Unit>)
    ensures |r| == if c as int < 0x1_0000 then 1 else 2
  {
    var n := c as int;
    if n < 0x1_0000 then [n] else [0xD800 + (n - 0x1_0000) / 0x400, 0xDC00 + (n - 0x1_0000) % 0x400]
  }

  function ToUnits(s: string): seq<Unit> {
    if s == [] then [] else CharUnits(s[0]) + ToUnits(s[1..])
  }

  function PairChar(high: int, low: int): (c: char)
    requires 0xD800 <= high < 0xDC00 <= low < 0xE000
    ensures CharUnits(c) == [high, low]
  {
    (0x1_0000 + (high - 0xD800) * 0x400 + (low - 0xDC00)) as char
  }

  /** A text from code units; None for a surrogate that is not half of a pair. */
  function FromUnits(u: seq<Unit>): Option<string> {
    if u == [] then Some([])
    else if IsLow(u[0]) || (IsHigh(u[0]) && (|u| == 1 || !IsLow(u[1]))) then None
    else
      var n := if IsHigh(u[0]) then 2 else 1;
      var c := if n == 2 then PairChar(u[0], u[1]) else u[0] as char;
      match FromUnits(u[n..])
      case None => None
      case Some(rest) => Some([c] + rest)
  }

  lemma {:induction false} UnitsRoundTrip(s: string)
    ensures FromUnits(ToUnits(s)) == Some(s)
  {
    if s != [] {
      UnitsRoundTrip(s[1..]);
      var head, u := CharUnits(s[0]), ToUnits(s);
      assert u[|head|..] == ToUnits(s[1..]);
      assert s == [s[0]] + s[1..];
    }
  }

  /** Code units and texts correspond one to one: a text's units read as it, and only a text's own units do. */
  lemma {:induction false} ReadsExactly(u: seq<Unit>, s: string)
    ensures FromUnits(u) == Some(s) <==> u == ToUnits(s)
  {
    UnitsRoundTrip(s);
    if FromUnits(u) == Some(s) && u != [] {
      var n := if IsHigh(u[0]) then 2 else 1;
      ReadsExactly(u[n..], s[1..]);
      assert u == u[..n] + u[n..];
    }
  }

  /** isWellFormed of ECMAScript: each half of a surrogate pair stands next to the other half. */
  predicate IsWellFormed(u: seq<Unit>) { forall i :: 0 <= i < |u| ==> IsPaired(u, i) }

  predicate IsPaired(u: seq<Unit>, i: nat)
    requires i < |u|
  {
    (IsHigh(u[i]) ==> i + 1 < |u| && IsLow(u[i + 1])) && (IsLow(u[i]) ==> i > 0 && IsHigh(u[i - 1]))
  }

  /** The units without lone surrogates are those of the texts. */
  lemma {:induction false} WellFormedIsText(u: seq<Unit>)
    ensures IsWellFormed(u) <==> FromUnits(u).Some?
  {
    if u != [] {
      var n := if IsHigh(u[0]) then 2 else 1;
      if IsLow(u[0]) || (IsHigh(u[0]) && (|u| == 1 || !IsLow(u[1]))) {
        assert !IsPaired(u, 0);
      } else {
        WellFormedIsText(u[n..]);
        WellFormedAfter(u, n);
      }
    }
  }

  /** Whole characters at the front leave the rest as well formed as the whole. */
  lemma WellFormedAfter(u: seq<Unit>, n: nat)
    requires 1 <= n <= |u| && !IsHigh(u[n - 1]) && forall i :: 0 <= i < n ==> IsPaired(u, i)
    ensures IsWellFormed(u) <==> IsWellFormed(u[n..])
  {
    var rest := u[n..];
    if IsWellFormed(u) {
      forall i | 0 <= i < |rest| ensures IsPaired(rest, i) {
        assert IsPaired(u, i + n);
      }
    }
    if IsWellFormed(rest) {
      forall i | 0 <= i < |u| ensures IsPaired(u, i) {
        assert i >= n ==> IsPaired(rest, i - n);
      }
    }
  }

  lemma {:induction false} ToUnitsConcat(s: string, t: string)
    ensures ToUnits(s + t) == ToUnits(s) + ToUnits(t)
  {
    if s == [] {
      assert s + t == t;
    } else {
      ToUnitsConcat(s[1..], t);
      assert (s + t)[1..] == s[1..] + t;
      Associates(CharUnits(s[0]), ToUnits(s[1..]), ToUnits(t));
    }
  }

  lemma Associates(a: seq<Unit>, b: seq<Unit>, c: seq<Unit>)
    ensures a + (b + c) == a + b + c
  {
  }

  lemma ToUnitsInjective(s: string, t: string)
    requires ToUnits(s) == ToUnits(t)
    ensures s == t
  {
    UnitsRoundTrip(s);
    UnitsRoundTrip(t);
  }

  /** Big-endian bytes: encode("utf-16-be"). */
  function BigEndian(u: seq<Unit>): seq<int> {
    if u == [] then [] else [u[0] / 256, u[0] % 256] + BigEndian(u[1..])
  }

  /** Ordering the big-endian bytes is ordering the code units. */
  lemma {:induction false} ByteOrderIsUnitOrder(a: seq<Unit>, b: seq<Unit>)
    ensures Lex.Less(BigEndian(a), BigEndian(b)) <==> Lex.Less(a, b)
  {
    if a != [] && b != [] {
      var x, y := [a[0] / 256, a[0] % 256], [b[0] / 256, b[0] % 256];
      ByteOrderIsUnitOrder(a[1..], b[1..]);
      Lex.Blocks(x, BigEndian(a[1..]), y, BigEndian(b[1..]));
      assert Lex.Less(x, y) <==> a[0] < b[0] by {
        assert x[1..] == [a[0] % 256] && y[1..] == [b[0] % 256];
        assert Lex.Less(x[1..], y[1..]) <==> a[0] % 256 < b[0] % 256;
      }
      assert x == y <==> a[0] == b[0] by {
        assert x == y ==> x[0] == y[0] && x[1] == y[1];
      }
    }
  }

  /** UTF-8 of one scalar value. */
  function CharBytes(c: char): seq<int> {
    var n := c as int;
    if n < 0x80 then [n]
    else if n < 0x800 then [0xC0 + n / 0x40, 0x80 + n % 0x40]
    else if n < 0x1_0000 then [0xE0 + n / 0x1000, 0x80 + n / 0x40 % 0x40, 0x80 + n % 0x40]
    else [0xF0 + n / 0x4_0000, 0x80 + n / 0x1000 % 0x40, 0x80 + n / 0x40 % 0x40, 0x80 + n % 0x40]
  }

  function Utf8(s: string): seq<int> {
    if s == [] then [] else CharBytes(s[0]) + Utf8(s[1..])
  }

  function LeadLength(lead: int): nat
  {
    if lead < 0x80 then 1 else if lead < 0xE0 then 2 else if lead < 0xF0 then 3 else 4
  }

  /** The number that a lead byte and its continuation bytes spell. */
  function Spelled(b: seq<int>): int
    requires 1 <= |b| <= 4
  {
    if |b| == 1 then b[0]
    else if |b| == 2 then (b[0] - 0xC0) * 0x40 + (b[1] - 0x80)
    else if |b| == 3 then (b[0] - 0xE0) * 0x1000 + (b[1] - 0x80) * 0x40 + (b[2] - 0x80)
    else (b[0] - 0xF0) * 0x4_0000 + (b[1] - 0x80) * 0x1000 + (b[2] - 0x80) * 0x40 + (b[3] - 0x80)
  }

  predicate IsScalar(n: int) { 0 <= n < 0xD800 || 0xE000 <= n < 0x11_0000 }

  /** Strict decoding: only the shortest spelling of a scalar value is accepted. */
  function FromUtf8(b: seq<int>): Option<string> {
    if b == [] then Some([])
    else
      var n := LeadLength(b[0]);
      if n > |b| || !IsScalar(Spelled(b[..n])) || CharBytes(Spelled(b[..n]) as char) != b[..n] then None
      else match FromUtf8(b[n..]) case None => None case Some(rest) => Some([Spelled(b[..n]) as char] + rest)
  }

  lemma SpelledBack(c: char)
    ensures LeadLength(CharBytes(c)[0]) == |CharBytes(c)| && Spelled(CharBytes(c)) == c as int
  {
    var n := c as int;
    Sixes(n);
    Sixes(n / 0x40);
    Sixes(n / 0x1000);
  }

  lemma Sixes(n: nat)
    ensures n == n / 0x40 * 0x40 + n % 0x40 && n / 0x40 / 0x40 == n / 0x1000 && n / 0x1000 / 0x40 == n / 0x4_0000
  {
  }

  lemma {:induction false} Utf8RoundTrip(s: string)
    ensures FromUtf8(Utf8(s)) == Some(s)
  {
    if s != [] {
      SpelledBack(s[0]);
      Utf8RoundTrip(s[1..]);
      DecodesHead(CharBytes(s[0]), Utf8(s[1..]), s[0]);
      assert s == [s[0]] + s[1..];
    }
  }

  lemma DecodesHead(head: seq<int>, rest: seq<int>, c: char)
    requires head == CharBytes(c) && LeadLength(head[0]) == |head| && Spelled(head) == c as int
    ensures FromUtf8(head + rest) == match FromUtf8(rest) case None => None case Some(more) => Some([c] + more)
  {
    var b := head + rest;
    assert b[0] == head[0] && b[..|head|] == head && b[|head|..] == rest;
  }

  /** Bytes and texts correspond one to one: a text's bytes decode to it, and only a text's own bytes do. */
  lemma {:induction false} DecodesExactly(b: seq<int>, s: string)
    ensures FromUtf8(b) == Some(s) <==> b == Utf8(s)
  {
    Utf8RoundTrip(s);
    if FromUtf8(b) == Some(s) && b != [] {
      var n := LeadLength(b[0]);
      DecodesExactly(b[n..], s[1..]);
      assert b == b[..n] + b[n..];
    }
  }

  /** No two texts have the same UTF-8 bytes. */
  lemma Utf8Injective(s: string, t: string)
    requires Utf8(s) == Utf8(t)
    ensures s == t
  {
    Utf8RoundTrip(s);
    Utf8RoundTrip(t);
  }
}
