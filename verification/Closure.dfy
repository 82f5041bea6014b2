/**
 The runtime dependencies of one package in a lock file, followed by a worklist.
 A name is looked up as the first package so named; a name without a package stops everything.
 */
module Closure {
  import opened Results

  datatype Package = Package(name: string, dependencies: seq<string>)

  /** next(p for p in packages if p["name"] == name) */
  function Lookup(packages: seq<Package>, name: string): (r: Option<Package>)
    ensures r.Some? ==> r.value in packages && r.value.name == name
    ensures r.None? <==> forall p :: p in packages ==> p.name != name
  {
    if packages == [] then None
    else if packages[0].name == name then Some(packages[0])
    else Lookup(packages[1..], name)
  }

  predicate Depends(packages: seq<Package>, a: string, b: string) {
    Lookup(packages, a).Some? && b in Lookup(packages, a).value.dependencies
  }

  /** A chain of dependencies from the root. */
  predicate IsPath(packages: seq<Package>, root: string, path: seq<string>) {
    path != [] && path[0] == root && forall i :: 0 <= i < |path| - 1 ==> Depends(packages, path[i], path[i + 1])
  }

  ghost predicate Reaches(packages: seq<Package>, root: string, name: string) {
    Lookup(packages, root).Some? && exists path :: IsPath(packages, root, path) && path[|path| - 1] == name
  }

  /** Every dependency that is reached has a package. */
  ghost predicate Complete(packages: seq<Package>, root: string) {
    forall name :: Reaches(packages, root, name) ==> Lookup(packages, name).Some?
  }

  lemma ReachesRoot(packages: seq<Package>, root: string)
    requires Lookup(packages, root).Some?
    ensures Reaches(packages, root, root)
  {
    assert IsPath(packages, root, [root]) && [root][0] == root;
  }

  lemma ReachesNext(packages: seq<Package>, root: string, a: string, b: string)
    requires Reaches(packages, root, a) && Depends(packages, a, b)
    ensures Reaches(packages, root, b)
  {
    var path :| IsPath(packages, root, path) && path[|path| - 1] == a;
    var longer := path + [b];
    assert longer[|longer| - 1] == b && IsPath(packages, root, longer);
  }

  ghost predicate ClosedUnder(packages: seq<Package>, names: set<string>) {
    forall a, b :: a in names && Depends(packages, a, b) ==> b in names
  }

  /** A set that holds the root and is closed under dependencies holds everything reached. */
  lemma {:induction false} PathStaysInside(packages: seq<Package>, root: string, path: seq<string>, names: set<string>)
    requires root in names && ClosedUnder(packages, names) && IsPath(packages, root, path)
    ensures path[|path| - 1] in names
    decreases |path|
  {
    if |path| > 1 {
      var init := path[..|path| - 1];
      PathStaysInside(packages, root, init, names);
      assert Depends(packages, path[|path| - 2], path[|path| - 1]);
    }
  }

  lemma AllReached(packages: seq<Package>, root: string, names: set<string>)
    requires root in names && ClosedUnder(packages, names)
    ensures forall name :: Reaches(packages, root, name) ==> name in names
  {
    forall name | Reaches(packages, root, name) ensures name in names {
      var path :| IsPath(packages, root, path) && path[|path| - 1] == name;
      PathStaysInside(packages, root, path, names);
    }
  }

  /** Every name that can ever enter the worklist. */
  function Universe(packages: seq<Package>, root: string): set<string> {
    {root} + set p, d | p in packages && d in p.dependencies :: d
  }

  predicate NoRepeats(s: seq<string>) { forall i, j :: 0 <= i < j < |s| ==> s[i] != s[j] }

  ghost predicate SameNames(s: seq<string>, names: set<string>) { forall name :: name in s <==> name in names }

  /** Every name found is reached, and is either followed or waits on the list once. */
  ghost predicate Sorted(packages: seq<Package>, root: string, followed: set<string>, pending: seq<string>,
                         runtime: set<string>) {
    NoRepeats(pending) && (forall name :: name in pending ==> name in runtime && name !in followed)
    && (forall name :: name in runtime ==> name in followed || name in pending)
    && (forall name :: name in runtime ==> Reaches(packages, root, name))
  }

  /** What holds between two turns: of the followed names also all dependencies are found. */
  ghost predicate Progress(packages: seq<Package>, root: string, followed: set<string>, pending: seq<string>,
                           runtime: set<string>) {
    Sorted(packages, root, followed, pending, runtime) && followed <= runtime
    && (forall name :: name in followed ==> Lookup(packages, name).Some?)
    && forall a, b :: a in followed && Depends(packages, a, b) ==> b in runtime
  }

  lemma AddName(packages: seq<Package>, root: string, followed: set<string>, pending: seq<string>, runtime: set<string>,
                entered: seq<string>, name: string)
    requires Sorted(packages, root, followed, pending, runtime) && followed <= runtime && name !in runtime
             && Reaches(packages, root, name)
    requires NoRepeats(entered) && SameNames(entered, runtime)
    ensures Sorted(packages, root, followed, pending + [name], runtime + {name})
    ensures NoRepeats(entered + [name]) && SameNames(entered + [name], runtime + {name})
  {
  }

  /**
   The worklist. It fails exactly if some reached name has no package; otherwise it finds exactly the
   reached names, and each of them was put on the list exactly once.
   */
  method Follow(packages: seq<Package>, root: string) returns (r: Option<set<string>>, ghost entered: seq<string>)
    ensures r.Some? <==> Complete(packages, root)
    ensures r.Some? ==> forall name :: name in r.value <==> Reaches(packages, root, name)
    ensures r.Some? ==> NoRepeats(entered) && SameNames(entered, r.value)
  {
    if Lookup(packages, root).None? {
      return Some({}), [];
    }
    var runtime: set<string> := {root};
    var pending := [root];
    entered := [root];
    ghost var followed: set<string> := {};
    ReachesRoot(packages, root);
    while pending != []
      invariant Progress(packages, root, followed, pending, runtime) && root in runtime
      invariant NoRepeats(entered) && SameNames(entered, runtime)
      invariant followed <= Universe(packages, root) && runtime <= Universe(packages, root)
      decreases |Universe(packages, root) - followed|
    {
      var name := pending[|pending| - 1];
      var package := Lookup(packages, name);
      if package.None? {
        assert Reaches(packages, root, name);
        return None, entered;
      }
      runtime, pending, entered := AddAll(packages, root, name, package.value.dependencies, followed, pending, runtime,
          entered);
      Smaller(Universe(packages, root), followed, name);
      followed := followed + {name};
    }
    assert ClosedUnder(packages, runtime);
    AllReached(packages, root, runtime);
    r := Some(runtime);
  }

  lemma Smaller(all: set<string>, part: set<string>, name: string)
    requires name in all && name !in part
    ensures |all - (part + {name})| < |all - part|
  {
    assert all - part == (all - (part + {name})) + {name};
  }

  /** The inner loop: the popped name's dependencies, each added if it is new. */
  method AddAll(packages: seq<Package>, root: string, name: string, dependencies: seq<string>,
                ghost followed: set<string>, before: seq<string>, found: set<string>, ghost earlier: seq<string>)
    returns (runtime: set<string>, pending: seq<string>, ghost entered: seq<string>)
    requires before != [] && name == before[|before| - 1]
    requires Lookup(packages, name).Some? && dependencies == Lookup(packages, name).value.dependencies
    requires Progress(packages, root, followed, before, found) && found <= Universe(packages, root)
    requires NoRepeats(earlier) && SameNames(earlier, found)
    ensures Progress(packages, root, followed + {name}, pending, runtime)
    ensures found <= runtime <= Universe(packages, root)
    ensures NoRepeats(entered) && SameNames(entered, runtime)
  {
    runtime, pending, entered := found, before[..|before| - 1], earlier;
    for i := 0 to |dependencies|
      invariant found <= runtime <= Universe(packages, root)
      invariant NoRepeats(entered) && SameNames(entered, runtime)
      invariant Sorted(packages, root, followed + {name}, pending, runtime)
      invariant forall k :: 0 <= k < i ==> dependencies[k] in runtime
    {
      var dep := dependencies[i];
      if dep !in runtime {
        assert Depends(packages, name, dep);
        ReachesNext(packages, root, name, dep);
        AddName(packages, root, followed + {name}, pending, runtime, entered, dep);
        runtime, pending, entered := runtime + {dep}, pending + [dep], entered + [dep];
      }
    }
  }
}
