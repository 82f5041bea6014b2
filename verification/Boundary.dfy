/** Geographic boundary lookup: the outcome through the spatial index and what every outcome satisfies. */
module Boundary {
  import opened Collections
  import opened Results
  import Lex
  import opened Sorting

  datatype Coordinates = Coordinates(latitude: real, longitude: real)

  /** A geometry is known only through its two point predicates. */
  datatype Geometry = Geometry(covers: Coordinates -> bool, contains: Coordinates -> bool)

  datatype Status = Resolved | OnBoundary | Ambiguous | NoMatch

  datatype Reason = PolygonBoundary | SeamOrPole | MultipleInteriors | OutsideDataset

  datatype Outcome = Outcome(status: Status, tzid: Option<string>, reason: Option<Reason>, candidateIds: seq<string>)

  /** The model validator of the outcome record, with its field bounds. */
  ghost predicate Coherent(r: Outcome) {
    Ascending(r.candidateIds, Lex.Codes) && |r.candidateIds| <= 419
    && (forall x :: x in r.candidateIds ==> 0 < |x| <= 128)
    && (r.tzid.Some? ==> |r.tzid.value| <= 128)
    && match r.status
       case Resolved => r.tzid.Some? && r.tzid.value != "" && r.reason.None? && r.candidateIds == []
       case Ambiguous => r.tzid.None? && r.reason == Some(MultipleInteriors) && |r.candidateIds| >= 2
       case NoMatch => r.tzid.None? && r.reason == Some(OutsideDataset) && r.candidateIds == []
       case OnBoundary => r.tzid.None?
                          && ((r.reason == Some(PolygonBoundary) && |r.candidateIds| >= 1)
                              || (r.reason == Some(SeamOrPole) && r.candidateIds == []))
  }

  predicate SeamPoint(p: Coordinates) {
    p.longitude == 180.0 || p.longitude == -180.0 || p.latitude == 90.0 || p.latitude == -90.0
  }

  /** Every zone whose geometry covers the point, found by looking at every geometry. */
  ghost function Covering(names: seq<string>, geometries: seq<Geometry>, p: Coordinates): set<string>
    requires |names| == |geometries|
  {
    set i | 0 <= i < |names| && geometries[i].covers(p) :: names[i]
  }

  ghost predicate OnSomeEdge(geometries: seq<Geometry>, p: Coordinates) {
    exists i :: 0 <= i < |geometries| && geometries[i].covers(p) && !geometries[i].contains(p)
  }

  /** The outcome by a scan of the whole dataset, without an index. */
  ghost function FullScan(names: seq<string>, geometries: seq<Geometry>, p: Coordinates): Outcome
    requires |names| == |geometries|
  {
    var ids := SortedNames(Covering(names, geometries, p));
    if SeamPoint(p) then Outcome(OnBoundary, None, Some(SeamOrPole), [])
    else if OnSomeEdge(geometries, p) then Outcome(OnBoundary, None, Some(PolygonBoundary), ids)
    else if |ids| > 1 then Outcome(Ambiguous, None, Some(MultipleInteriors), ids)
    else if |ids| == 1 then Outcome(Resolved, Some(ids[0]), None, [])
    else Outcome(NoMatch, None, Some(OutsideDataset), [])
  }

  /** All the lookup assumes of the spatial index: valid indices, and no covering geometry missed. */
  ghost predicate IndexAnswer(hits: seq<nat>, geometries: seq<Geometry>, p: Coordinates) {
    (forall j :: 0 <= j < |hits| ==> hits[j] < |geometries|)
    && (forall i :: 0 <= i < |geometries| && geometries[i].covers(p) ==> i in hits)
  }

  /** sorted(): an ascending tuple of a set, whatever order the set yields its members in. */
  method SortSet(ids: set<string>) returns (ordered: seq<string>)
    ensures ordered == SortedNames(ids)
  {
    var rest := ids;
    ordered := [];
    while rest != {}
      invariant rest <= ids
      invariant Ascending(ordered, Lex.Codes)
      invariant forall x :: x in ordered <==> x in ids - rest
      decreases rest
    {
      var x :| x in rest;
      InsertName(x, ordered);
      ordered := Insert(x, ordered, Lex.Codes);
      rest := rest - {x};
    }
    AscendingUnique(ordered, SortedNames(ids), Lex.Codes);
  }

  /** The lookup through the index: for any order of hits it equals the full scan. */
  method Lookup(p: Coordinates, names: seq<string>, geometries: seq<Geometry>, hits: seq<nat>) returns (r: Outcome)
    requires |names| == |geometries| && IndexAnswer(hits, geometries, p)
    ensures r == FullScan(names, geometries, p)
  {
    if SeamPoint(p) {
      return Outcome(OnBoundary, None, Some(SeamOrPole), []);
    }
    var ids: set<string> := {};
    var boundary := false;
    for k := 0 to |hits|
      invariant forall x :: x in ids <==> exists j :: 0 <= j < k && geometries[hits[j]].covers(p) && names[hits[j]] == x
      invariant boundary <==> exists j ::
                0 <= j < k && geometries[hits[j]].covers(p) && !geometries[hits[j]].contains(p)
    {
      var geometry := geometries[hits[k]];
      if geometry.covers(p) {
        ids := ids + {names[hits[k]]};
        boundary := boundary || !geometry.contains(p);
      }
    }
    SeenIsCovering(p, names, geometries, hits, ids, boundary);
    var ordered := SortSet(ids);
    if boundary {
      return Outcome(OnBoundary, None, Some(PolygonBoundary), ordered);
    }
    if |ordered| > 1 {
      return Outcome(Ambiguous, None, Some(MultipleInteriors), ordered);
    }
    if |ordered| == 1 {
      return Outcome(Resolved, Some(ordered[0]), None, []);
    }
    return Outcome(NoMatch, None, Some(OutsideDataset), []);
  }

  /** What the loop collected from a complete answer is what the whole dataset holds. */
  lemma SeenIsCovering(p: Coordinates, names: seq<string>, geometries: seq<Geometry>, hits: seq<nat>, ids: set<string>,
                       boundary: bool)
    requires |names| == |geometries| && IndexAnswer(hits, geometries, p)
    requires forall x ::
               x in ids <==> exists j :: 0 <= j < |hits| && geometries[hits[j]].covers(p) && names[hits[j]] == x
    requires boundary
             <==> exists j :: 0 <= j < |hits| && geometries[hits[j]].covers(p) && !geometries[hits[j]].contains(p)
    ensures ids == Covering(names, geometries, p)
    ensures boundary <==> OnSomeEdge(geometries, p)
  {
    forall x ensures x in ids <==> x in Covering(names, geometries, p) {
      if x in Covering(names, geometries, p) {
        var i :| 0 <= i < |names| && geometries[i].covers(p) && names[i] == x;
        assert i in hits;
        var j :| 0 <= j < |hits| && hits[j] == i;
        assert geometries[hits[j]].covers(p) && names[hits[j]] == x;
      }
    }
    if OnSomeEdge(geometries, p) {
      var i :| 0 <= i < |geometries| && geometries[i].covers(p) && !geometries[i].contains(p);
      assert i in hits;
      var j :| 0 <= j < |hits| && hits[j] == i;
      assert geometries[hits[j]].covers(p) && !geometries[hits[j]].contains(p);
    }
  }

  /** A catalogue of at most 419 bounded names gives only records the validator accepts. */
  lemma EveryOutcomeCoherent(names: seq<string>, geometries: seq<Geometry>, p: Coordinates)
    requires |names| == |geometries| <= 419
    requires forall x :: x in names ==> 0 < |x| <= 128
    ensures Coherent(FullScan(names, geometries, p))
  {
    var covering := Covering(names, geometries, p);
    var ids := SortedNames(covering);
    CoveringCount(names, geometries, p);
    assert forall x :: x in ids ==> x in names;
    if OnSomeEdge(geometries, p) {
      var i :| 0 <= i < |geometries| && geometries[i].covers(p) && !geometries[i].contains(p);
      assert names[i] in ids;
    }
  }

  lemma {:induction false} CoveringCount(names: seq<string>, geometries: seq<Geometry>, p: Coordinates)
    requires |names| == |geometries|
    ensures |Covering(names, geometries, p)| <= |names|
  {
    if names != [] {
      var n := |names| - 1;
      CoveringCount(names[..n], geometries[..n], p);
      var fewer := Covering(names[..n], geometries[..n], p);
      assert Covering(names, geometries, p) <= fewer + {names[n]};
      SubsetSize(Covering(names, geometries, p), fewer + {names[n]});
    }
  }

  /** A zone is returned exactly when it alone holds the point, strictly inside every piece that touches it. */
  lemma ResolvedExactly(names: seq<string>, geometries: seq<Geometry>, p: Coordinates, zone: string)
    requires |names| == |geometries|
    requires forall i :: 0 <= i < |geometries| && geometries[i].contains(p) ==> geometries[i].covers(p)
    ensures FullScan(names, geometries, p) == Outcome(Resolved, Some(zone), None, [])
            <==> !SeamPoint(p)
                 && (exists i :: 0 <= i < |names| && names[i] == zone && geometries[i].contains(p))
                 && (forall i :: 0 <= i < |names| && geometries[i].covers(p) ==>
                       names[i] == zone && geometries[i].contains(p))
  {
    var covering := Covering(names, geometries, p);
    var ids := SortedNames(covering);
    if FullScan(names, geometries, p) == Outcome(Resolved, Some(zone), None, []) {
      assert ids == [zone];
      assert zone in covering;
      forall i | 0 <= i < |names| && geometries[i].covers(p) ensures names[i] == zone {
        assert names[i] in covering;
        assert names[i] in ids;
      }
    } else if (exists i :: 0 <= i < |names| && names[i] == zone && geometries[i].contains(p))
              && (forall i :: 0 <= i < |names| && geometries[i].covers(p) ==>
                    names[i] == zone && geometries[i].contains(p)) {
      assert covering == {zone};
    }
  }

  /** Some geometry covers the point under this name. */
  ghost predicate Covers(names: seq<string>, geometries: seq<Geometry>, p: Coordinates, name: string)
    requires |names| == |geometries|
  {
    exists i :: 0 <= i < |names| && names[i] == name && geometries[i].covers(p)
  }

  /** Every other outcome, by the geometries: poles and seam first, then edges, then several names, then none. */
  lemma UnresolvedExactly(names: seq<string>, geometries: seq<Geometry>, p: Coordinates)
    requires |names| == |geometries|
    ensures var r := FullScan(names, geometries, p);
            var seam := p.longitude in {-180.0, 180.0} || p.latitude in {-90.0, 90.0};
            var edge := exists i :: 0 <= i < |geometries| && geometries[i].covers(p) && !geometries[i].contains(p);
            (r == Outcome(OnBoundary, None, Some(SeamOrPole), []) <==> seam)
            && (r == Outcome(OnBoundary, None, Some(PolygonBoundary), r.candidateIds) <==> !seam && edge)
            && (r == Outcome(Ambiguous, None, Some(MultipleInteriors), r.candidateIds) <==>
                  !seam && !edge && exists x, y ::
                    x != y && Covers(names, geometries, p, x) && Covers(names, geometries, p, y))
            && (r == Outcome(NoMatch, None, Some(OutsideDataset), []) <==>
                  !seam && forall x :: !Covers(names, geometries, p, x))
  {
    var ids := SortedNames(Covering(names, geometries, p));
    forall x ensures Covers(names, geometries, p, x) <==> x in ids {
    }
    SeveralNames(ids);
    if OnSomeEdge(geometries, p) {
      var i :| 0 <= i < |geometries| && geometries[i].covers(p) && !geometries[i].contains(p);
      assert Covers(names, geometries, p, names[i]);
    }
  }

  lemma SeveralNames(ids: seq<string>)
    requires Ascending(ids, Lex.Codes)
    ensures |ids| > 1 <==> exists x, y :: x != y && x in ids && y in ids
  {
    if |ids| > 1 {
      Lex.Trichotomy(Lex.Codes(ids[0]), Lex.Codes(ids[1]));
      assert ids[0] in ids && ids[1] in ids && ids[0] != ids[1];
    }
  }

  /** The candidates of an edge or of several interiors are exactly the names that cover the point. */
  lemma CandidatesCover(names: seq<string>, geometries: seq<Geometry>, p: Coordinates, name: string)
    requires |names| == |geometries|
    requires var r := FullScan(names, geometries, p);
             r.status == Ambiguous || r.reason == Some(PolygonBoundary)
    ensures name in FullScan(names, geometries, p).candidateIds <==> Covers(names, geometries, p, name)
  {
  }
}
