/** Flattening a tree to a map from paths to leaves, and what the flat map determines. */
module Leaves {
  import opened Results
  import opened Digits

  /** A scalar; a float is its 64 bits. */
  datatype Scalar = Nothing | Flag(b: bool) | Number(i: int) | Float(bits: nat) | Str(s: string)

  datatype Tree = Leaf(value: Scalar) | List(items: seq<Tree>) | Dict(entries: seq<Entry>)

  datatype Entry = Entry(key: string, value: Tree)

  /** Every dict in the tree has distinct keys, as any dict has. */
  ghost predicate DictsHaveDistinctKeys(v: Tree)
    decreases v
  {
    match v
    case Leaf(_) => true
    case List(items) => forall i :: 0 <= i < |items| ==> DictsHaveDistinctKeys(items[i])
    case Dict(entries) =>
      (forall i, j :: 0 <= i < j < |entries| ==> entries[i].key != entries[j].key)
      && forall i :: 0 <= i < |entries| ==> DictsHaveDistinctKeys(entries[i].value)
  }

  predicate PlainKey(key: string) { '/' !in key && '~' !in key }

  /** str(index) */
  function IndexKey(i: nat): string { Shortest(i) }

  /** A dict, or a list with a dict in it, has kids; anything else is one leaf. */
  predicate IsLeaf(v: Tree) { v.Leaf? || (v.List? && forall i :: 0 <= i < |v.items| ==> !v.items[i].Dict?) }

  /** The kids of an accepted branch, keyed by dict key or by list index. */
  function Kids(v: Tree): (r: Option<seq<Entry>>)
    requires !IsLeaf(v)
    ensures r.Some? ==> r.value != [] && forall i :: 0 <= i < |r.value| ==> r.value[i].value < v
  {
    if v.Dict? then
      if v.entries == [] || exists i :: 0 <= i < |v.entries| && !PlainKey(v.entries[i].key) then None
        else Some(v.entries)
    else if exists i :: 0 <= i < |v.items| && !v.items[i].Dict? then None
    else
      var keyed := seq(|v.items|, i requires 0 <= i < |v.items| => Entry(IndexKey(i), v.items[i]));
      assert forall i :: 0 <= i < |keyed| ==> keyed[i].value == v.items[i];
      Some(keyed)
  }

  function Flatten(v: Tree, prefix: string): Option<map<string, Tree>>
    decreases v, 1, 0
  {
    if IsLeaf(v) then Some(map[prefix := v])
    else
      match Kids(v)
      case None => None
      case Some(kids) => FlattenKids(v, kids, prefix)
  }

  /** result.update(...) for each kid in turn */
  function FlattenKids(v: Tree, kids: seq<Entry>, prefix: string): Option<map<string, Tree>>
    requires forall i :: 0 <= i < |kids| ==> kids[i].value < v
    decreases v, 0, |kids|
  {
    if kids == [] then Some(map[])
    else
      var n := |kids| - 1;
      match FlattenKids(v, kids[..n], prefix)
      case None => None
      case Some(result) =>
        match Flatten(kids[n].value, prefix + "/" + kids[n].key)
        case None => None
        case Some(more) => Some(result + more)
  }

  /** The loops as they are written. */
  method FlattenByLoops(v: Tree, prefix: string) returns (r: Option<map<string, Tree>>)
    ensures r == Flatten(v, prefix)
    decreases v
  {
    if v.Dict? {
      if v.entries == [] || exists i :: 0 <= i < |v.entries| && !PlainKey(v.entries[i].key) {
        return None;
      }
      var result: map<string, Tree> := map[];
      for i := 0 to |v.entries|
        invariant FlattenKids(v, v.entries[..i], prefix) == Some(result)
      {
        var child := FlattenByLoops(v.entries[i].value, prefix + "/" + v.entries[i].key);
        assert v.entries[..i + 1][..i] == v.entries[..i];
        if child.None? {
          KidsFail(v, v.entries, i + 1, prefix);
          return None;
        }
        result := result + child.value;
      }
      assert v.entries[..|v.entries|] == v.entries;
      return Some(result);
    }
    if v.List? && exists i :: 0 <= i < |v.items| && v.items[i].Dict? {
      if exists i :: 0 <= i < |v.items| && !v.items[i].Dict? {
        return None;
      }
      ghost var kids := Kids(v).value;
      var result: map<string, Tree> := map[];
      for index := 0 to |v.items|
        invariant FlattenKids(v, kids[..index], prefix) == Some(result)
      {
        var child := FlattenByLoops(v.items[index], prefix + "/" + IndexKey(index));
        assert kids[..index + 1][..index] == kids[..index];
        if child.None? {
          KidsFail(v, kids, index + 1, prefix);
          return None;
        }
        result := result + child.value;
      }
      assert kids[..|v.items|] == kids;
      return Some(result);
    }
    return Some(map[prefix := v]);
  }

  lemma {:induction false} KidsFail(v: Tree, kids: seq<Entry>, i: nat, prefix: string)
    requires i <= |kids| && forall k :: 0 <= k < |kids| ==> kids[k].value < v
    requires FlattenKids(v, kids[..i], prefix).None?
    ensures FlattenKids(v, kids, prefix).None?
    decreases |kids|
  {
    if i < |kids| {
      var n := |kids| - 1;
      assert kids[..n][..i] == kids[..i];
      KidsFail(v, kids[..n], i, prefix);
    } else {
      assert kids[..i] == kids;
    }
  }

  // ---- paths ----

  predicate NoSlash(s: string) { '/' !in s }

  predicate PlainSteps(steps: seq<string>) { forall i :: 0 <= i < |steps| ==> NoSlash(steps[i]) }

  /** The path of a list of steps, below whatever prefix. */
  function Tail(steps: seq<string>): string {
    if steps == [] then "" else "/" + steps[0] + Tail(steps[1..])
  }

  /** Text before the first slash and the slash decide where a step ends. */
  lemma {:induction false} SplitAtSlash(a: string, x: string, b: string, y: string)
    requires NoSlash(a) && NoSlash(b) && a + x == b + y
    requires (x == "" || x[0] == '/') && (y == "" || y[0] == '/')
    ensures a == b && x == y
  {
    assert a == [] ==> a + x == x;
    assert b == [] ==> b + y == y;
    assert a != [] ==> (a + x)[0] == a[0] && (a + x)[1..] == a[1..] + x;
    assert b != [] ==> (b + y)[0] == b[0] && (b + y)[1..] == b[1..] + y;
    if a != [] && b != [] {
      SplitAtSlash(a[1..], x, b[1..], y);
      assert a == [a[0]] + a[1..] && b == [b[0]] + b[1..];
    }
  }

  /** Slash-free steps can be read back from the path. */
  lemma {:induction false} TailInjective(s: seq<string>, t: seq<string>)
    requires PlainSteps(s) && PlainSteps(t) && Tail(s) == Tail(t)
    ensures s == t
  {
    if s != [] && t != [] {
      var x, y := Tail(s[1..]), Tail(t[1..]);
      assert Tail(s)[1..] == s[0] + x && Tail(t)[1..] == t[0] + y;
      SplitAtSlash(s[0], x, t[0], y);
      TailInjective(s[1..], t[1..]);
      assert s == [s[0]] + s[1..] && t == [t[0]] + t[1..];
    }
  }

  // ---- reading a tree as nested objects ----

  /** A tree with lists of objects read as objects keyed "0", "1", ..., and without the order of keys. */
  datatype Shape = Atom(value: Tree) | Branch(kids: map<string, Shape>)

  function Read(v: Tree): Shape
    decreases v, 1, 0
  {
    if IsLeaf(v) then Atom(v)
    else match Kids(v) case None => Atom(v) case Some(kids) => Branch(ReadKids(v, kids))
  }

  function ReadKids(v: Tree, kids: seq<Entry>): map<string, Shape>
    requires forall i :: 0 <= i < |kids| ==> kids[i].value < v
    decreases v, 0, |kids|
  {
    if kids == [] then map[]
    else
      var n := |kids| - 1;
      ReadKids(v, kids[..n])[kids[n].key := Read(kids[n].value)]
  }

  /** Following steps from the top to a leaf. */
  function Walk(s: Shape, steps: seq<string>): Option<Tree>
    decreases |steps|
  {
    match s
    case Atom(value) => if steps == [] then Some(value) else None
    case Branch(kids) => if steps != [] && steps[0] in kids then Walk(kids[steps[0]], steps[1..]) else None
  }

  // ---- the flat map is the walk ----

  /** The flat map below a prefix holds exactly the leaves that steps lead to, under their paths. */
  ghost predicate Flattens(flat: map<string, Tree>, s: Shape, prefix: string) {
    (forall steps :: PlainSteps(steps) && Walk(s, steps).Some? ==>
        prefix + Tail(steps) in flat && flat[prefix + Tail(steps)] == Walk(s, steps).value)
    && (forall path :: path in flat ==>
      exists steps :: PlainSteps(steps) && Walk(s, steps).Some? && path == prefix + Tail(steps))
  }

  predicate DistinctPlainKids(kids: seq<Entry>) {
    (forall i, j :: 0 <= i < j < |kids| ==> kids[i].key != kids[j].key)
    && forall i :: 0 <= i < |kids| ==> NoSlash(kids[i].key)
  }

  lemma IndexKeysPlain(i: nat, j: nat)
    ensures NoSlash(IndexKey(i))
    ensures IndexKey(i) == IndexKey(j) ==> i == j
  {
    ShortestValue(i);
    ShortestValue(j);
    forall c | c in IndexKey(i) ensures c != '/' {
      assert IsDigit(c);
    }
  }

  lemma KidsDistinct(v: Tree)
    requires !IsLeaf(v) && Kids(v).Some? && DictsHaveDistinctKeys(v)
    ensures DistinctPlainKids(Kids(v).value)
    ensures forall i :: 0 <= i < |Kids(v).value| ==> DictsHaveDistinctKeys(Kids(v).value[i].value)
  {
    var kids := Kids(v).value;
    if v.List? {
      forall i, j | 0 <= i < j < |kids| ensures kids[i].key != kids[j].key {
        IndexKeysPlain(i, j);
      }
      forall i | 0 <= i < |kids| ensures NoSlash(kids[i].key) {
        IndexKeysPlain(i, i);
      }
    } else {
      assert forall i :: 0 <= i < |kids| ==> PlainKey(v.entries[i].key);
    }
  }

  predicate HasKid(kids: seq<Entry>, key: string) {
    exists i :: 0 <= i < |kids| && kids[i].key == key
  }

  lemma HasKidSplit(kids: seq<Entry>, key: string)
    requires kids != []
    ensures HasKid(kids, key) <==> HasKid(kids[..|kids| - 1], key) || kids[|kids| - 1].key == key
  {
    if HasKid(kids[..|kids| - 1], key) {
      var i :| 0 <= i < |kids| - 1 && kids[..|kids| - 1][i].key == key;
      assert kids[i].key == key;
    }
    if HasKid(kids, key) {
      var i :| 0 <= i < |kids| && kids[i].key == key;
      assert i < |kids| - 1 ==> kids[..|kids| - 1][i].key == key;
    }
  }

  lemma {:induction false} ReadKidsKeys(v: Tree, kids: seq<Entry>, key: string)
    requires forall i :: 0 <= i < |kids| ==> kids[i].value < v
    ensures key in ReadKids(v, kids) <==> HasKid(kids, key)
    decreases |kids|
  {
    if kids != [] {
      ReadKidsKeys(v, kids[..|kids| - 1], key);
      HasKidSplit(kids, key);
    }
  }

  lemma LastKidIsNew(v: Tree, kids: seq<Entry>)
    requires kids != [] && (forall i :: 0 <= i < |kids| ==> kids[i].value < v) && DistinctPlainKids(kids)
    ensures kids[|kids| - 1].key !in ReadKids(v, kids[..|kids| - 1])
  {
    ReadKidsKeys(v, kids[..|kids| - 1], kids[|kids| - 1].key);
  }

  /** An accepted tree's flat map is its walk: nothing is lost, nothing is overwritten, nothing is invented. */
  lemma {:induction false} FlattenIsWalk(v: Tree, prefix: string)
    requires DictsHaveDistinctKeys(v) && Flatten(v, prefix).Some?
    ensures Flattens(Flatten(v, prefix).value, Read(v), prefix)
    decreases v, 1, 0
  {
    if IsLeaf(v) {
      assert Tail([]) == "" && prefix + "" == prefix;
      assert Walk(Atom(v), []) == Some(v);
      assert PlainSteps([]);
    } else {
      var kids := Kids(v).value;
      KidsDistinct(v);
      FlattenKidsIsWalk(v, kids, prefix);
    }
  }

  lemma {:induction false} FlattenKidsIsWalk(v: Tree, kids: seq<Entry>, prefix: string)
    requires (forall i :: 0 <= i < |kids| ==> kids[i].value < v && DictsHaveDistinctKeys(kids[i].value))
             && DistinctPlainKids(kids)
    requires FlattenKids(v, kids, prefix).Some?
    ensures Flattens(FlattenKids(v, kids, prefix).value, Branch(ReadKids(v, kids)), prefix)
    decreases v, 0, |kids|
  {
    if kids != [] {
      var n := |kids| - 1;
      var init := kids[..n];
      FlattenKidsIsWalk(v, init, prefix);
      FlattenIsWalk(kids[n].value, prefix + "/" + kids[n].key);
      LastKidIsNew(v, kids);
      AddKid(FlattenKids(v, init, prefix).value, ReadKids(v, init),
             Flatten(kids[n].value, prefix + "/" + kids[n].key).value, Read(kids[n].value), prefix, kids[n].key);
    }
  }

  lemma BelowKey(prefix: string, key: string, steps: seq<string>)
    ensures prefix + "/" + key + Tail(steps) == prefix + Tail([key] + steps)
  {
    assert ([key] + steps)[1..] == steps;
    assert prefix + "/" + key + Tail(steps) == prefix + ("/" + key + Tail(steps));
  }

  /** Updating the flat map with one more kid's flat map gives the flat map of both. */
  lemma AddKid(flat: map<string, Tree>, kids: map<string, Shape>, more: map<string, Tree>, kid: Shape, prefix: string,
               key: string)
    requires NoSlash(key) && key !in kids
    requires Flattens(flat, Branch(kids), prefix) && Flattens(more, kid, prefix + "/" + key)
    ensures Flattens(flat + more, Branch(kids[key := kid]), prefix)
  {
    var all := Branch(kids[key := kid]);
    PathsNeverMeet(flat, kids, more, kid, prefix, key);
    forall steps | PlainSteps(steps) && Walk(all, steps).Some?
      ensures prefix + Tail(steps) in flat + more && (flat + more)[prefix + Tail(steps)] == Walk(all, steps).value
    {
      WalkOfBoth(kids, kid, key, steps);
      if steps[0] == key {
        BelowKey(prefix, key, steps[1..]);
        assert steps == [key] + steps[1..];
      } else {
        assert prefix + Tail(steps) in flat;
      }
    }
    forall path | path in flat + more
      ensures exists steps :: PlainSteps(steps) && Walk(all, steps).Some? && path == prefix + Tail(steps)
    {
      if path in more {
        var t :| PlainSteps(t) && Walk(kid, t).Some? && path == prefix + "/" + key + Tail(t);
        BelowKey(prefix, key, t);
        assert ([key] + t)[1..] == t;
        WalkOfBoth(kids, kid, key, [key] + t);
      } else {
        var s :| PlainSteps(s) && Walk(Branch(kids), s).Some? && path == prefix + Tail(s);
        WalkOfBoth(kids, kid, key, s);
      }
    }
  }

  lemma WalkOfBoth(kids: map<string, Shape>, kid: Shape, key: string, steps: seq<string>)
    requires key !in kids && steps != []
    ensures Walk(Branch(kids[key := kid]), steps) == if steps[0] == key then Walk(kid, steps[1..])
              else Walk(Branch(kids), steps)
  {
  }

  lemma PathsNeverMeet(flat: map<string, Tree>, kids: map<string, Shape>, more: map<string, Tree>, kid: Shape,
                       prefix: string, key: string)
    requires NoSlash(key) && key !in kids
    requires Flattens(flat, Branch(kids), prefix) && Flattens(more, kid, prefix + "/" + key)
    ensures flat.Keys !! more.Keys
  {
    forall path | path in flat ensures path !in more {
      var s :| PlainSteps(s) && Walk(Branch(kids), s).Some? && path == prefix + Tail(s);
      if path in more {
        var t :| PlainSteps(t) && Walk(kid, t).Some? && path == prefix + "/" + key + Tail(t);
        BelowKey(prefix, key, t);
        SamePrefix(prefix, Tail(s), Tail([key] + t));
        TailInjective(s, [key] + t);
      }
    }
  }

  lemma SamePrefix(prefix: string, a: string, b: string)
    requires prefix + a == prefix + b
    ensures a == b
  {
    assert a == (prefix + a)[|prefix|..] && b == (prefix + b)[|prefix|..];
  }

  // ---- what the flat map determines ----

  /** How many leaves the tree has, counted without paths. */
  function LeafCount(v: Tree): nat
    decreases v, 1, 0
  {
    if IsLeaf(v) then 1
    else match Kids(v) case None => 0 case Some(kids) => LeafCounts(v, kids)
  }

  function LeafCounts(v: Tree, kids: seq<Entry>): nat
    requires forall i :: 0 <= i < |kids| ==> kids[i].value < v
    decreases v, 0, |kids|
  {
    if kids == [] then 0
    else
      var n := |kids| - 1;
      LeafCounts(v, kids[..n]) + LeafCount(kids[n].value)
  }

  /** One entry for each leaf: no update ever replaced an entry. */
  lemma {:induction false} NothingOverwritten(v: Tree, prefix: string)
    requires DictsHaveDistinctKeys(v) && Flatten(v, prefix).Some?
    ensures |Flatten(v, prefix).value| == LeafCount(v)
    decreases v, 1, 0
  {
    if !IsLeaf(v) {
      KidsDistinct(v);
      NoKidOverwritten(v, Kids(v).value, prefix);
    }
  }

  lemma {:induction false} NoKidOverwritten(v: Tree, kids: seq<Entry>, prefix: string)
    requires (forall i :: 0 <= i < |kids| ==> kids[i].value < v && DictsHaveDistinctKeys(kids[i].value))
             && DistinctPlainKids(kids)
    requires FlattenKids(v, kids, prefix).Some?
    ensures |FlattenKids(v, kids, prefix).value| == LeafCounts(v, kids)
    decreases v, 0, |kids|
  {
    if kids != [] {
      var a, b := LastKidSizes(v, kids, prefix, prefix + "/" + kids[|kids| - 1].key);
      NoKidOverwritten(v, kids[..|kids| - 1], prefix);
      NothingOverwritten(kids[|kids| - 1].value, prefix + "/" + kids[|kids| - 1].key);
      LastKidCounts(v, kids);
    }
  }

  lemma LastKidSizes(v: Tree, kids: seq<Entry>, prefix: string, below: string)
    returns (a: map<string, Tree>, b: map<string, Tree>)
    requires (forall i :: 0 <= i < |kids| ==> kids[i].value < v && DictsHaveDistinctKeys(kids[i].value))
             && DistinctPlainKids(kids)
    requires kids != [] && below == prefix + "/" + kids[|kids| - 1].key && FlattenKids(v, kids, prefix).Some?
    ensures FlattenKids(v, kids[..|kids| - 1], prefix) == Some(a) && Flatten(kids[|kids| - 1].value, below) == Some(b)
    ensures |FlattenKids(v, kids, prefix).value| == |a| + |b|
  {
    a, b := LastKidUpdates(v, kids, prefix, below);
    LastKidApart(v, kids, prefix);
    DisjointSizes(a, b);
  }

  lemma LastKidUpdates(v: Tree, kids: seq<Entry>, prefix: string, below: string)
    returns (a: map<string, Tree>, b: map<string, Tree>)
    requires kids != [] && (forall i :: 0 <= i < |kids| ==> kids[i].value < v)
             && below == prefix + "/" + kids[|kids| - 1].key
    requires FlattenKids(v, kids, prefix).Some?
    ensures FlattenKids(v, kids[..|kids| - 1], prefix) == Some(a) && Flatten(kids[|kids| - 1].value, below) == Some(b)
    ensures FlattenKids(v, kids, prefix) == Some(a + b)
  {
    a, b := FlattenKids(v, kids[..|kids| - 1], prefix).value, Flatten(kids[|kids| - 1].value, below).value;
  }

  lemma LastKidCounts(v: Tree, kids: seq<Entry>)
    requires kids != [] && forall i :: 0 <= i < |kids| ==> kids[i].value < v
    ensures LeafCounts(v, kids) == LeafCounts(v, kids[..|kids| - 1]) + LeafCount(kids[|kids| - 1].value)
  {
  }

  lemma LastKidApart(v: Tree, kids: seq<Entry>, prefix: string)
    requires (forall i :: 0 <= i < |kids| ==> kids[i].value < v && DictsHaveDistinctKeys(kids[i].value))
             && DistinctPlainKids(kids)
    requires kids != [] && FlattenKids(v, kids[..|kids| - 1], prefix).Some?
    requires Flatten(kids[|kids| - 1].value, prefix + "/" + kids[|kids| - 1].key).Some?
    ensures FlattenKids(v, kids[..|kids| - 1], prefix).value.Keys
            !! Flatten(kids[|kids| - 1].value, prefix + "/" + kids[|kids| - 1].key).value.Keys
  {
    var init, last := kids[..|kids| - 1], kids[|kids| - 1];
    FlattenKidsIsWalk(v, init, prefix);
    FlattenIsWalk(last.value, prefix + "/" + last.key);
    LastKidIsNew(v, kids);
    PathsNeverMeet(FlattenKids(v, init, prefix).value, ReadKids(v, init),
                   Flatten(last.value, prefix + "/" + last.key).value, Read(last.value), prefix, last.key);
  }

  lemma DisjointSizes<K, V>(a: map<K, V>, b: map<K, V>)
    requires a.Keys !! b.Keys
    ensures |a + b| == |a| + |b|
  {
    assert (a + b).Keys == a.Keys + b.Keys;
    assert |a.Keys + b.Keys| == |a.Keys| + |b.Keys|;
  }

  /** Shapes of accepted trees: branches are never empty and their keys have no slash. */
  ghost predicate GoodShape(s: Shape) {
    match s
    case Atom(_) => true
    case Branch(kids) => kids.Keys != {} && forall k :: k in kids ==> NoSlash(k) && GoodShape(kids[k])
  }

  lemma {:induction false} AcceptedShape(v: Tree, prefix: string)
    requires DictsHaveDistinctKeys(v) && Flatten(v, prefix).Some?
    ensures GoodShape(Read(v))
    decreases v, 1, 0
  {
    if !IsLeaf(v) {
      var kids := Kids(v).value;
      KidsDistinct(v);
      AcceptedShapes(v, kids, prefix);
      ReadKidsKeys(v, kids, kids[0].key);
    }
  }

  lemma {:induction false} AcceptedShapes(v: Tree, kids: seq<Entry>, prefix: string)
    requires (forall i :: 0 <= i < |kids| ==> kids[i].value < v && DictsHaveDistinctKeys(kids[i].value))
             && DistinctPlainKids(kids)
    requires FlattenKids(v, kids, prefix).Some?
    ensures forall k :: k in ReadKids(v, kids) ==> NoSlash(k) && GoodShape(ReadKids(v, kids)[k])
    decreases v, 0, |kids|
  {
    if kids != [] {
      var n := |kids| - 1;
      AcceptedShapes(v, kids[..n], prefix);
      AcceptedShape(kids[n].value, prefix + "/" + kids[n].key);
    }
  }

  lemma {:induction false} SomeLeaf(s: Shape) returns (steps: seq<string>)
    requires GoodShape(s)
    ensures PlainSteps(steps) && Walk(s, steps).Some?
  {
    match s {
      case Atom(_) => steps := [];
      case Branch(kids) =>
        var k :| k in kids.Keys;
        var rest := SomeLeaf(kids[k]);
        steps := [k] + rest;
        assert steps[1..] == rest;
    }
  }

  ghost predicate SameWalks(s: Shape, t: Shape) {
    forall steps :: PlainSteps(steps) ==> Walk(s, steps) == Walk(t, steps)
  }

  /** Shapes with the same walks are the same shape. */
  lemma {:induction false} WalksDetermineShape(s: Shape, t: Shape)
    requires GoodShape(s) && GoodShape(t) && SameWalks(s, t)
    ensures s == t
  {
    assert PlainSteps([]) && Walk(s, []) == Walk(t, []);
    if s.Branch? && t.Branch? {
      KeysBelow(s.kids, t.kids);
      assert SameWalks(t, s);
      KeysBelow(t.kids, s.kids);
      forall k | k in s.kids ensures s.kids[k] == t.kids[k] {
        WalksBelow(s.kids, t.kids, k);
        WalksDetermineShape(s.kids[k], t.kids[k]);
      }
      assert s.kids == t.kids;
    }
  }

  lemma KeysBelow(a: map<string, Shape>, b: map<string, Shape>)
    requires GoodShape(Branch(a)) && SameWalks(Branch(a), Branch(b))
    ensures a.Keys <= b.Keys
  {
    forall k | k in a ensures k in b {
      var rest := SomeLeaf(a[k]);
      var steps := [k] + rest;
      assert steps[1..] == rest && PlainSteps(steps);
      assert Walk(Branch(a), steps) == Walk(Branch(b), steps);
    }
  }

  lemma WalksBelow(a: map<string, Shape>, b: map<string, Shape>, k: string)
    requires SameWalks(Branch(a), Branch(b)) && k in a && k in b && NoSlash(k)
    ensures SameWalks(a[k], b[k])
  {
    forall rest | PlainSteps(rest) ensures Walk(a[k], rest) == Walk(b[k], rest) {
      var steps := [k] + rest;
      assert steps[1..] == rest && PlainSteps(steps);
      assert Walk(Branch(a), steps) == Walk(Branch(b), steps);
    }
  }

  lemma FlatDeterminesWalks(flat: map<string, Tree>, s: Shape, t: Shape)
    requires Flattens(flat, s, "") && Flattens(flat, t, "")
    ensures SameWalks(s, t)
  {
    forall steps | PlainSteps(steps) ensures Walk(s, steps) == Walk(t, steps) {
      if Walk(s, steps).Some? {
        SameStep(flat, s, t, steps);
      } else if Walk(t, steps).Some? {
        SameStep(flat, t, s, steps);
      }
    }
  }

  lemma SameStep(flat: map<string, Tree>, s: Shape, t: Shape, steps: seq<string>)
    requires Flattens(flat, s, "") && Flattens(flat, t, "") && PlainSteps(steps) && Walk(s, steps).Some?
    ensures Walk(t, steps) == Walk(s, steps)
  {
    var path := "" + Tail(steps);
    assert path in flat;
    var steps' :| PlainSteps(steps') && Walk(t, steps').Some? && path == "" + Tail(steps');
    SamePrefix("", Tail(steps), Tail(steps'));
    TailInjective(steps, steps');
  }

  /** Two flat maps of one shape are the same map. */
  lemma ShapeDeterminesFlat(f: map<string, Tree>, g: map<string, Tree>, s: Shape, prefix: string)
    requires Flattens(f, s, prefix) && Flattens(g, s, prefix)
    ensures f == g
  {
    forall path ensures path in f <==> path in g {
      if path in f {
        var steps :| PlainSteps(steps) && Walk(s, steps).Some? && path == prefix + Tail(steps);
      }
      if path in g {
        var steps :| PlainSteps(steps) && Walk(s, steps).Some? && path == prefix + Tail(steps);
      }
    }
    forall path | path in f ensures f[path] == g[path] {
      var steps :| PlainSteps(steps) && Walk(s, steps).Some? && path == prefix + Tail(steps);
    }
  }

  /**
   Flattening loses nothing: two accepted trees have the same flat map exactly when they are the same
   nested objects, reading each list of objects as an object keyed by index.
   */
  lemma SameFlatIffSameShape(v: Tree, w: Tree)
    requires DictsHaveDistinctKeys(v) && DictsHaveDistinctKeys(w)
    requires Flatten(v, "").Some? && Flatten(w, "").Some?
    ensures Flatten(v, "") == Flatten(w, "") <==> Read(v) == Read(w)
  {
    var f, g := Flatten(v, "").value, Flatten(w, "").value;
    FlattenIsWalk(v, "");
    FlattenIsWalk(w, "");
    AcceptedShape(v, "");
    AcceptedShape(w, "");
    if f == g {
      FlatDeterminesWalks(f, Read(v), Read(w));
      WalksDetermineShape(Read(v), Read(w));
    }
    if Read(v) == Read(w) {
      ShapeDeterminesFlat(f, g, Read(v), "");
    }
  }

  /** Looking a path up in the tree gives its flat value, and only paths of leaves are in the flat map. */
  lemma FlatIsLookup(v: Tree, steps: seq<string>)
    requires DictsHaveDistinctKeys(v) && Flatten(v, "").Some? && PlainSteps(steps)
    ensures Walk(Read(v), steps) == if Tail(steps) in Flatten(v, "").value
              then Some(Flatten(v, "").value[Tail(steps)]) else None
  {
    var flat := Flatten(v, "").value;
    FlattenIsWalk(v, "");
    assert "" + Tail(steps) == Tail(steps);
    if Tail(steps) in flat {
      var steps' :| PlainSteps(steps') && Walk(Read(v), steps').Some? && Tail(steps) == "" + Tail(steps');
      SamePrefix("", Tail(steps), Tail(steps'));
      TailInjective(steps, steps');
    }
  }
}
