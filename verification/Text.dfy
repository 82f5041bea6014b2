/** Lexicographic order on sequences of numbers, and decimal digit strings. */
module Lex {
  /** The strict lexicographic order that Python uses for str and bytes and JavaScript for strings. */
  predicate Less(a: seq<int>, b: seq<int>) {
    b != [] &&
    (a == [] || a[0] < b[0] || (a[0] == b[0] && Less(a[1..], b[1..])))
  }

  lemma {:induction false} Trichotomy(a: seq<int>, b: seq<int>)
    ensures Less(a, b) || a == b || Less(b, a)
    ensures Less(a, b) ==> a != b && !Less(b, a)
  {
    if a != [] && b != [] && a[0] == b[0] {
      Trichotomy(a[1..], b[1..]);
      assert a == [a[0]] + a[1..] && b == [b[0]] + b[1..];
    }
  }

  lemma {:induction false} Transitive(a: seq<int>, b: seq<int>, c: seq<int>)
    requires Less(a, b) && Less(b, c)
    ensures Less(a, c)
  {
    if a != [] && a[0] == b[0] && b[0] == c[0] {
      Transitive(a[1..], b[1..], c[1..]);
    }
  }

  /** Blocks of equal width are compared before what follows them. */
  lemma {:induction false} Blocks(a: seq<int>, a': seq<int>, b: seq<int>, b': seq<int>)
    requires |a| == |b|
    ensures Less(a + a', b + b') <==> Less(a, b) || (a == b && Less(a', b'))
  {
    if a == [] {
      assert a + a' == a' && b + b' == b';
    } else {
      assert (a + a')[1..] == a[1..] + a' && (b + b')[1..] == b[1..] + b';
      assert a == [a[0]] + a[1..] && b == [b[0]] + b[1..];
      Blocks(a[1..], a', b[1..], b');
    }
  }

  /** The code points of a text: what the order on str compares. */
  function Codes(s: string): (r: seq<int>)
    ensures |r| == |s| && forall i :: 0 <= i < |s| ==> r[i] == s[i] as int
  {
    seq(|s|, i requires 0 <= i < |s| => s[i] as int)
  }

  lemma CodesInjective(s: string, t: string)
    requires Codes(s) == Codes(t)
    ensures s == t
  {
    forall i | 0 <= i < |s| ensures s[i] == t[i] {
      assert Codes(s)[i] == Codes(t)[i];
    }
  }
}

/** Digits: hexadecimal ones one by one, decimal strings with their values, fixed-width and shortest printing. */
module Digits {
  import Lex

  predicate IsDigit(c: char) { '0' <= c <= '9' }

  predicate AllDigits(s: string) { forall i :: 0 <= i < |s| ==> IsDigit(s[i]) }

  predicate IsHex(c: char) { '0' <= c <= '9' || 'a' <= c <= 'f' || 'A' <= c <= 'F' }

  function HexDigit(c: char): (d: nat)
    requires IsHex(c)
    ensures d < 16
  {
    if c <= '9' then c as int - '0' as int
    else if c <= 'F' then c as int - 'A' as int + 10
    else c as int - 'a' as int + 10
  }

  /** Lower-case hexadecimal digits. */
  function HexChar(d: nat): (c: char)
    requires d < 16
    ensures IsHex(c) && HexDigit(c) == d
  {
    if d < 10 then '0' + d as char else 'a' + (d - 10) as char
  }

  function DigitValue(c: char): (d: nat)
    requires IsDigit(c)
    ensures d < 10 && DigitChar(d) == c
  {
    c as int - '0' as int
  }

  function DigitChar(d: nat): (c: char)
    requires d < 10
    ensures IsDigit(c)
  {
    ('0' as int + d) as char
  }

  function Pow10(n: nat): (p: nat)
    ensures p > 0
  {
    if n == 0 then 1 else 10 * Pow10(n - 1)
  }

  lemma {:induction false} Pow10Add(m: nat, n: nat)
    ensures Pow10(m + n) == Pow10(m) * Pow10(n)
  {
    if m > 0 {
      Pow10Add(m - 1, n);
    }
  }

  function Value(s: string): (n: nat)
    requires AllDigits(s)
  {
    if s == [] then 0 else 10 * Value(s[..|s| - 1]) + DigitValue(s[|s| - 1])
  }

  lemma {:induction false} ValueBound(s: string)
    requires AllDigits(s)
    ensures Value(s) < Pow10(|s|)
  {
    if s != [] {
      ValueBound(s[..|s| - 1]);
    }
  }

  lemma ScaleByTen(v: nat, p: nat, x: nat, d: nat)
    ensures 10 * (v * p + x) + d == v * (10 * p) + (10 * x + d)
  {
  }

  lemma {:induction false} ValueConcat(s: string, t: string)
    requires AllDigits(s) && AllDigits(t)
    ensures AllDigits(s + t) && Value(s + t) == Value(s) * Pow10(|t|) + Value(t)
  {
    if t == [] {
      assert s + t == s;
    } else {
      var init, d := t[..|t| - 1], t[|t| - 1];
      ValueConcat(s, init);
      assert (s + t)[..|s + t| - 1] == s + init;
      ScaleByTen(Value(s), Pow10(|init|), Value(init), DigitValue(d));
    }
  }

  /** n printed with exactly w digits, zero padded on the left. */
  function Padded(n: nat, w: nat): (s: string)
    ensures |s| == w && AllDigits(s)
  {
    if w == 0 then [] else Padded(n / 10, w - 1) + [DigitChar(n % 10)]
  }

  lemma {:induction false} PaddedValue(n: nat, w: nat)
    requires n < Pow10(w)
    ensures Value(Padded(n, w)) == n
  {
    if w > 0 {
      PaddedValue(n / 10, w - 1);
      assert Padded(n, w)[..w - 1] == Padded(n / 10, w - 1);
    }
  }

  lemma {:induction false} ValuePadded(s: string)
    requires AllDigits(s)
    ensures Padded(Value(s), |s|) == s
  {
    if s != [] {
      var init := s[..|s| - 1];
      ValuePadded(init);
      assert s == init + [s[|s| - 1]];
    }
  }

  lemma {:induction false} PaddedOrder(m: nat, n: nat, w: nat)
    requires m < Pow10(w) && n < Pow10(w)
    ensures Lex.Less(Lex.Codes(Padded(m, w)), Lex.Codes(Padded(n, w))) <==> m < n
  {
    if w > 0 {
      var a, b := Lex.Codes(Padded(m / 10, w - 1)), Lex.Codes(Padded(n / 10, w - 1));
      var x, y := [DigitChar(m % 10) as int], [DigitChar(n % 10) as int];
      PaddedOrder(m / 10, n / 10, w - 1);
      assert Lex.Codes(Padded(m, w)) == a + x;
      assert Lex.Codes(Padded(n, w)) == b + y;
      Lex.Blocks(a, x, b, y);
      Lex.Trichotomy(a, b);
      if a == b {
        Lex.CodesInjective(Padded(m / 10, w - 1), Padded(n / 10, w - 1));
        PaddedValue(m / 10, w - 1);
        PaddedValue(n / 10, w - 1);
      }
    }
  }

  /** n printed without leading zeros, as str(n) does. */
  function Shortest(n: nat): (s: string)
    ensures |s| > 0 && AllDigits(s)
    ensures n > 0 ==> s[0] != '0'
  {
    if n < 10 then [DigitChar(n)] else Shortest(n / 10) + [DigitChar(n % 10)]
  }

  lemma {:induction false} ShortestValue(n: nat)
    ensures Value(Shortest(n)) == n
  {
    if n < 10 {
      assert Shortest(n)[..0] == [];
      assert Value(Shortest(n)[..0]) == 0;
    } else {
      ShortestValue(n / 10);
      assert Shortest(n)[..|Shortest(n)| - 1] == Shortest(n / 10);
    }
  }

  /** How many digits the text begins with. */
  function DigitRun(s: string): (n: nat)
    ensures n <= |s| && AllDigits(s[..n])
    ensures n < |s| ==> !IsDigit(s[n])
  {
    if s != [] && IsDigit(s[0]) then
      assert forall i :: 0 < i < 1 + DigitRun(s[1..]) ==> s[i] == s[1..][i - 1];
      1 + DigitRun(s[1..])
    else 0
  }

  lemma {:induction false} RunStops(whole: string, rest: string)
    requires AllDigits(whole) && rest != [] && !IsDigit(rest[0])
    ensures DigitRun(whole + rest) == |whole|
  {
    var s := whole + rest;
    if whole == [] {
      assert s == rest;
    } else {
      RunStops(whole[1..], rest);
      assert s[1..] == whole[1..] + rest;
    }
  }
}
