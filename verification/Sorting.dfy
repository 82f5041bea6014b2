/** sorted() by a key compared lexicographically, for lists whose keys are distinct. */
module Sorting {
  import Lex

  predicate Ascending<T(!new)>(s: seq<T>, key: T -> seq<int>) {
    forall i, j :: 0 <= i < j < |s| ==> Lex.Less(key(s[i]), key(s[j]))
  }

  predicate DistinctKeys<T(!new)>(s: seq<T>, key: T -> seq<int>) {
    forall i, j :: 0 <= i < j < |s| ==> key(s[i]) != key(s[j])
  }

  function Insert<T(!new)>(x: T, s: seq<T>, key: T -> seq<int>): (r: seq<T>)
    ensures multiset(r) == multiset{x} + multiset(s)
  {
    if s == [] then [x]
    else
      assert s == [s[0]] + s[1..];
      if Lex.Less(key(x), key(s[0])) then [x] + s
      else [s[0]] + Insert(x, s[1..], key)
  }

  function Sort<T(!new)>(s: seq<T>, key: T -> seq<int>): (r: seq<T>)
    ensures multiset(r) == multiset(s)
  {
    if s == [] then []
    else
      assert s == [s[0]] + s[1..];
      Insert(s[0], Sort(s[1..], key), key)
  }

  lemma SameElements<T>(a: seq<T>, b: seq<T>)
    requires multiset(a) == multiset(b)
    ensures |a| == |b| && forall x :: x in a <==> x in b
  {
    assert |multiset(a)| == |a| && |multiset(b)| == |b|;
    forall x ensures x in a <==> x in b {
      assert x in a <==> x in multiset(a);
    }
  }

  lemma {:induction false} InsertAscending<T(!new)>(x: T, s: seq<T>, key: T -> seq<int>)
    requires Ascending(s, key)
    requires forall y :: y in s ==> key(y) != key(x)
    ensures Ascending(Insert(x, s, key), key)
  {
    if s != [] {
      Lex.Trichotomy(key(x), key(s[0]));
      if Lex.Less(key(x), key(s[0])) {
        forall j | 0 < j < |s| ensures Lex.Less(key(x), key(s[j])) {
          Lex.Transitive(key(x), key(s[0]), key(s[j]));
        }
      } else {
        InsertAscending(x, s[1..], key);
        var r := Insert(x, s[1..], key);
        assert multiset(r) == multiset([x] + s[1..]);
        SameElements(r, [x] + s[1..]);
        forall y | y in r ensures Lex.Less(key(s[0]), key(y)) {
        }
      }
    }
  }

  lemma {:induction false} SortAscending<T(!new)>(s: seq<T>, key: T -> seq<int>)
    requires DistinctKeys(s, key)
    ensures Ascending(Sort(s, key), key)
  {
    if s != [] {
      SortAscending(s[1..], key);
      SameElements(Sort(s[1..], key), s[1..]);
      InsertAscending(s[0], Sort(s[1..], key), key);
    }
  }

  /** An ascending list is determined by its elements, so no two sorting algorithms can differ. */
  lemma {:induction false} AscendingUnique<T(!new)>(a: seq<T>, b: seq<T>, key: T -> seq<int>)
    requires Ascending(a, key) && Ascending(b, key)
    requires forall x :: x in a <==> x in b
    ensures a == b
  {
    assert a == [] || a[0] in a;
    assert b == [] || b[0] in b;
    if a != [] && b != [] {
      HeadIsLeast(a, b[0], key);
      HeadIsLeast(b, a[0], key);
      Lex.Trichotomy(key(a[0]), key(b[0]));
      HeadNotInTail(a, key);
      HeadNotInTail(b, key);
      assert a == [a[0]] + a[1..] && b == [b[0]] + b[1..];
      forall x ensures x in a[1..] <==> x in b[1..] {
        assert x in a <==> x == a[0] || x in a[1..];
        assert x in b <==> x == b[0] || x in b[1..];
      }
      AscendingUnique(a[1..], b[1..], key);
    }
  }

  lemma HeadIsLeast<T(!new)>(a: seq<T>, x: T, key: T -> seq<int>)
    requires Ascending(a, key) && x in a
    ensures x == a[0] || Lex.Less(key(a[0]), key(x))
  {
  }

  lemma HeadNotInTail<T(!new)>(a: seq<T>, key: T -> seq<int>)
    requires a != [] && Ascending(a, key)
    ensures a[0] !in a[1..]
  {
    forall j | 0 < j < |a| ensures a[j] != a[0] {
      Lex.Trichotomy(key(a[0]), key(a[j]));
    }
  }

  /** Lists with the same elements and distinct keys sort alike, whatever order they came in. */
  lemma SortUnique<T(!new)>(x: seq<T>, y: seq<T>, key: T -> seq<int>)
    requires DistinctKeys(x, key) && DistinctKeys(y, key)
    requires (forall i :: 0 <= i < |x| ==> x[i] in y) && (forall j :: 0 <= j < |y| ==> y[j] in x)
    ensures Sort(x, key) == Sort(y, key)
  {
    SortAscending(x, key);
    SortAscending(y, key);
    SameElements(Sort(x, key), x);
    SameElements(Sort(y, key), y);
    AscendingUnique(Sort(x, key), Sort(y, key), key);
  }

  /** Sorting an ascending list changes nothing. */
  lemma SortOfAscending<T(!new)>(x: seq<T>, key: T -> seq<int>)
    requires Ascending(x, key)
    ensures Sort(x, key) == x
  {
    forall i, j | 0 <= i < j < |x| ensures key(x[i]) != key(x[j]) {
      Lex.Trichotomy(key(x[i]), key(x[j]));
    }
    SortAscending(x, key);
    SameElements(Sort(x, key), x);
    AscendingUnique(Sort(x, key), x, key);
  }

  function Map<T, U>(s: seq<T>, f: T -> U): (r: seq<U>)
    ensures |r| == |s| && forall i :: 0 <= i < |s| ==> r[i] == f(s[i])
  {
    if s == [] then [] else [f(s[0])] + Map(s[1..], f)
  }

  /** The image of each element compares as the element does. */
  ghost predicate KeepsOrder<T(!new), U>(f: T -> U, key: T -> seq<int>, key': U -> seq<int>) {
    forall x, y :: Lex.Less(key'(f(x)), key'(f(y))) <==> Lex.Less(key(x), key(y))
  }

  /** Sorting before or after an order-keeping change of representation is the same. */
  lemma {:induction false} SortOfMap<T(!new), U(!new)>(s: seq<T>, f: T -> U, key: T -> seq<int>, key': U -> seq<int>)
    requires KeepsOrder(f, key, key')
    ensures Sort(Map(s, f), key') == Map(Sort(s, key), f)
  {
    if s != [] {
      SortOfMap(s[1..], f, key, key');
      assert Map(s, f)[1..] == Map(s[1..], f);
      InsertOfMap(s[0], Sort(s[1..], key), f, key, key');
    }
  }

  lemma {:induction false} InsertOfMap<T(!new), U(!new)>(x: T, s: seq<T>, f: T -> U, key: T -> seq<int>,
                                                         key': U -> seq<int>)
    requires KeepsOrder(f, key, key')
    ensures Insert(f(x), Map(s, f), key') == Map(Insert(x, s, key), f)
  {
    if s != [] {
      assert Map(s, f)[1..] == Map(s[1..], f);
      InsertOfMap(x, s[1..], f, key, key');
      var r := Insert(x, s, key);
      if Lex.Less(key(x), key(s[0])) {
        assert r[1..] == s;
      } else {
        assert r[1..] == Insert(x, s[1..], key);
      }
      assert Map(r, f) == [f(r[0])] + Map(r[1..], f);
    } else {
      assert Map([x], f) == [f(x)];
    }
  }

  lemma InsertName(x: string, rest: seq<string>)
    requires Ascending(rest, Lex.Codes) && x !in rest
    ensures var r := Insert(x, rest, Lex.Codes);
            Ascending(r, Lex.Codes) && |r| == |rest| + 1 && forall y :: y in r <==> y == x || y in rest
  {
    forall y | y in rest ensures Lex.Codes(y) != Lex.Codes(x) {
      if Lex.Codes(y) == Lex.Codes(x) {
        Lex.CodesInjective(x, y);
      }
    }
    InsertAscending(x, rest, Lex.Codes);
    var r := Insert(x, rest, Lex.Codes);
    assert multiset(r) == multiset([x] + rest);
    SameElements(r, [x] + rest);
  }

  /** sorted() of a set of names, compared by code points. */
  ghost function SortedNames(names: set<string>): (r: seq<string>)
    ensures Ascending(r, Lex.Codes)
    ensures forall x :: x in r <==> x in names
    ensures |r| == |names|
  {
    if names == {} then []
    else
      var x :| x in names;
      var rest := SortedNames(names - {x});
      InsertName(x, rest);
      Insert(x, rest, Lex.Codes)
  }
}
