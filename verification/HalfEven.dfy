/** Rounding a rational to the nearest integer, ties to even: the meaning and two algorithms. */
module HalfEven {
  import opened Digits

  function Abs(x: int): nat { if x < 0 then -x else x }

  /** q is num/den rounded half-even: at most half a unit away, and even when exactly half away. */
  predicate Nearest(num: int, den: int, q: int)
    requires den > 0
  {
    2 * Abs(num - q * den) <= den && (2 * Abs(num - q * den) == den ==> q % 2 == 0)
  }

  lemma Monotone(a: int, b: int, den: int)
    requires a <= b && den >= 0
    ensures a * den <= b * den
  {
  }

  lemma Difference(p: int, q: int, den: int)
    ensures q * den - p * den == (q - p) * den
  {
  }

  /** No rational rounds to two integers. */
  lemma NearestUnique(num: int, den: int, p: int, q: int)
    requires den > 0 && Nearest(num, den, p) && Nearest(num, den, q)
    ensures p == q
  {
    if p < q {
      NotBoth(num, den, p, q);
    } else if q < p {
      NotBoth(num, den, q, p);
    }
  }

  lemma NotBoth(num: int, den: int, p: int, q: int)
    requires den > 0 && p < q
    ensures !(Nearest(num, den, p) && Nearest(num, den, q))
  {
    var pp, qq := p * den, q * den;
    Difference(p, q, den);
    Monotone(1, q - p, den);
    if q - p >= 2 {
      Monotone(2, q - p, den);
    }
    assert q - p == 1 ==> qq - pp == den;
  }

  lemma NearestOdd(num: int, den: int, q: int)
    requires den > 0
    ensures Nearest(num, den, q) <==> Nearest(-num, den, -q)
  {
    assert -num - (-q) * den == -(num - q * den);
  }

  /** Rounding keeps order, so bounds that are integers are kept. */
  lemma NearestBounds(num: int, den: int, q: int, low: int, high: int)
    requires den > 0 && Nearest(num, den, q) && low * den <= num <= high * den
    ensures low <= q <= high
  {
    var x, lo, hi := q * den, low * den, high * den;
    if q < low {
      Difference(q, low, den);
      Monotone(1, low - q, den);
    } else if q > high {
      Difference(high, q, den);
      Monotone(1, q - high, den);
    }
  }

  /** The Node tool's BigInt quotient and remainder. */
  function ByRemainder(n: nat, den: nat): nat
    requires den > 0
  {
    var quotient, remainder := n / den, n % den;
    if remainder * 2 > den || (remainder * 2 == den && quotient % 2 == 1) then quotient + 1 else quotient
  }

  lemma ByRemainderNearest(n: nat, den: nat)
    requires den > 0
    ensures Nearest(n, den, ByRemainder(n, den))
  {
    var quotient, remainder := n / den, n % den;
    assert n == quotient * den + remainder;
    assert (quotient + 1) * den == quotient * den + den;
  }

  /**
   The decimal module's rounding when k digits are dropped: the first dropped digit, nudged up if it
   is 0 or 5 and anything non-zero follows, decides.
   */
  function ByDroppedDigit(n: nat, k: nat): nat {
    if k == 0 then n
    else RoundUpIf(Quotient(n, Pow10(k)), Quotient(n, Pow10(k - 1)) % 10, n % Pow10(k - 1))
  }

  function Quotient(n: nat, d: nat): nat
    requires d > 0
  {
    n / d
  }

  function RoundUpIf(kept: nat, first: nat, rest: nat): nat {
    var rnd := if rest != 0 && (first == 0 || first == 5) then first + 1 else first;
    if rnd > 5 || (rnd == 5 && kept % 2 == 1) then kept + 1 else kept
  }

  lemma QuotientIs(n: int, d: int, q: int, r: int)
    requires d > 0 && 0 <= r < d && n == q * d + r
    ensures n / d == q && n % d == r
  {
    var q', r' := n / d, n % d;
    assert q' * d + r' == n;
    Difference(q, q', d);
    if q < q' {
      Monotone(1, q' - q, d);
    } else if q' < q {
      Difference(q', q, d);
      Monotone(1, q - q', d);
    }
  }

  /** Splitting off ten times p is splitting off p and then one more digit. */
  lemma OneMoreDigit(n: nat, p: nat)
    requires p > 0
    ensures n / (10 * p) == n / p / 10 && n % (10 * p) == (n / p % 10) * p + n % p
  {
    var m, rest := n / p, n % p;
    var high, first := m / 10, m % 10;
    assert n == m * p + rest;
    assert (10 * high + first) * p == high * (10 * p) + first * p;
    Monotone(first, 9, p);
    QuotientIs(n, 10 * p, high, first * p + rest);
  }

  /** With n = kept * 10p + first * p + rest, the first digit and the rest decide as the remainder does. */
  lemma SameDecision(kept: nat, first: nat, rest: nat, p: nat)
    requires first < 10 && rest < p
    ensures var r := first * p + rest;
            RoundUpIf(kept, first, rest) == if r * 2 > 10 * p || (r * 2 == 10 * p && kept % 2 == 1) then kept + 1
              else kept
  {
    var fp := first * p;
    if first <= 4 {
      Monotone(first, 4, p);
    } else if first == 5 {
      assert fp == 5 * p;
    } else {
      Monotone(6, first, p);
    }
  }

  /** Looking at digits and comparing remainders are the same rounding. */
  lemma SameRounding(n: nat, k: nat)
    ensures ByDroppedDigit(n, k) == ByRemainder(n, Pow10(k))
  {
    if k > 0 {
      var p := Pow10(k - 1);
      OneMoreDigit(n, p);
      SameDecision(n / (10 * p), n / p % 10, n % p, p);
    }
  }
}
