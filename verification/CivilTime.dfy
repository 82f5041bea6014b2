/**
 Zones as ascending UTC transition lists with the fold rule of PEP 495, and the inversion of the
 local clock by trying both folds and replaying. Instants and local clocks are microsecond counts;
 transitions and offsets are whole seconds.
 */
module CivilTime {
  import opened Results

  /** From UTC second `at` on, local clocks run `offset` seconds ahead of UTC. */
  datatype Transition = Transition(at: int, offset: int)

  datatype Zone = Zone(before: int, transitions: seq<Transition>)

  /** datetime refuses offsets of a day or more, and zic writes transitions in ascending order. */
  predicate ValidZone(z: Zone) {
    -86_400 < z.before < 86_400
    && (forall i :: 0 <= i < |z.transitions| ==> -86_400 < z.transitions[i].offset < 86_400)
    && (forall i, j :: 0 <= i < j < |z.transitions| ==> z.transitions[i].at < z.transitions[j].at)
  }

  /** The offset after the first i transitions. */
  function Offset(z: Zone, i: nat): int
    requires i <= |z.transitions|
  {
    if i == 0 then z.before else z.transitions[i - 1].offset
  }

  function Max(a: int, b: int): int { if a < b then b else a }

  function Min(a: int, b: int): int { if a < b then a else b }

  /** Local second from which a clock with this fold counts transition i as past. */
  function Wall(z: Zone, i: nat, fold: int): int
    requires i < |z.transitions|
  {
    var a, b := Offset(z, i), Offset(z, i + 1);
    z.transitions[i].at + (if fold == 0 then Max(a, b) else Min(a, b))
  }

  function WallList(z: Zone, fold: int): (r: seq<int>)
    ensures |r| == |z.transitions|
    ensures forall i :: 0 <= i < |r| ==> r[i] == Wall(z, i, fold)
  {
    seq(|z.transitions|, i requires 0 <= i < |z.transitions| => Wall(z, i, fold))
  }

  function UtcList(z: Zone): (r: seq<int>)
    ensures |r| == |z.transitions|
    ensures forall i :: 0 <= i < |r| ==> r[i] == z.transitions[i].at
  {
    seq(|z.transitions|, i requires 0 <= i < |z.transitions| => z.transitions[i].at)
  }

  /** bisect_right: on a list that is not ascending it still returns some position. */
  function BisectRight(a: seq<int>, x: int, lo: nat, hi: nat): (r: nat)
    requires lo <= hi <= |a|
    ensures lo <= r <= hi
    decreases hi - lo
  {
    if lo == hi then lo
    else
      var mid := (lo + hi) / 2;
      if x < a[mid] then BisectRight(a, x, lo, mid) else BisectRight(a, x, mid + 1, hi)
  }

  predicate Ascending(a: seq<int>) {
    forall i, j :: 0 <= i < j < |a| ==> a[i] <= a[j]
  }

  /** On an ascending list the position splits the entries at most x from the later ones. */
  lemma {:induction false} BisectSplits(a: seq<int>, x: int, lo: nat, hi: nat)
    requires lo <= hi <= |a| && Ascending(a)
    requires forall i :: 0 <= i < lo ==> a[i] <= x
    requires forall i :: hi <= i < |a| ==> x < a[i]
    ensures forall i :: 0 <= i < |a| ==> (a[i] <= x <==> i < BisectRight(a, x, lo, hi))
    decreases hi - lo
  {
    if lo < hi {
      var mid := (lo + hi) / 2;
      if x < a[mid] {
        BisectSplits(a, x, lo, mid);
      } else {
        BisectSplits(a, x, mid + 1, hi);
      }
    }
  }

  /** How many transitions a clock reading of this fold has passed: bounds first, then bisection. */
  function Passed(list: seq<int>, second: int): (r: nat)
    ensures r <= |list|
  {
    if |list| == 0 || second < list[0] then 0
    else if second > list[|list| - 1] then |list|
    else BisectRight(list, second, 0, |list|)
  }

  lemma PassedSplits(list: seq<int>, second: int)
    requires Ascending(list)
    ensures forall i :: 0 <= i < |list| ==> (list[i] <= second <==> i < Passed(list, second))
  {
    BisectSplits(list, second, 0, |list|);
  }

  /** Transitions passed by a local second read with this fold. */
  function PassedLocally(z: Zone, second: int, fold: int): (r: nat)
    ensures r <= |z.transitions|
  {
    Passed(WallList(z, fold), second)
  }

  /** Transitions at or before a UTC second. */
  function Segment(z: Zone, second: int): (r: nat)
    ensures r <= |z.transitions|
  {
    Passed(UtcList(z), second)
  }

  /** datetime.astimezone(UTC) for a local clock with this fold. */
  function ToUtc(z: Zone, local: int, fold: int): int {
    local - Offset(z, PassedLocally(z, local / 1_000_000, fold)) * 1_000_000
  }

  /** utc.astimezone(zone), with the fold cleared: the local clock shown at a UTC instant. */
  function ToLocal(z: Zone, utc: int): int {
    utc + Offset(z, Segment(z, utc / 1_000_000)) * 1_000_000
  }

  /** The instants of the two folds by fold: those that replay, a repeated instant only once. */
  function Collect(u0: int, replays0: bool, u1: int, replays1: bool): map<int, int> {
    var first := if replays0 then map[0 := u0] else map[];
    if replays1 && !(replays0 && u0 == u1) then first[1 := u1] else first
  }

  function Candidates(z: Zone, local: int): map<int, int> {
    var u0, u1 := ToUtc(z, local, 0), ToUtc(z, local, 1);
    Collect(u0, ToLocal(z, u0) == local, u1, ToLocal(z, u1) == local)
  }

  method UtcCandidates(local: int, zone: Zone) returns (candidates: map<int, int>)
    ensures candidates == Candidates(zone, local)
  {
    candidates := map[];
    var seen: set<int> := {};
    for fold := 0 to 2
      invariant fold == 0 ==> candidates == map[] && seen == {}
      invariant fold == 1 ==>
                (var u0 := ToUtc(zone, local, 0); candidates == Collect(u0, ToLocal(zone, u0) == local, 0, false))
      invariant fold == 1 ==> seen == if 0 in candidates then {candidates[0]} else {}
      invariant fold == 2 ==> candidates == Candidates(zone, local)
    {
      var utc := ToUtc(zone, local, fold);
      var replayed := ToLocal(zone, utc);
      if replayed == local && utc !in seen {
        candidates := candidates[fold := utc];
        seen := seen + {utc};
      }
    }
  }

  // ---- any zone at all ----

  /** Whatever the zone, a candidate shows the requested clock, and two candidates are two instants. */
  lemma CandidatesReplay(z: Zone, local: int)
    ensures forall f :: f in Candidates(z, local) ==>
              f in {0, 1} && ToLocal(z, Candidates(z, local)[f]) == local
              && Candidates(z, local)[f] == ToUtc(z, local, f)
    ensures 0 in Candidates(z, local) && 1 in Candidates(z, local) ==>
            Candidates(z, local)[0] != Candidates(z, local)[1]
  {
  }

  /** Exactly the first j transitions have happened by this UTC second. */
  predicate Since(z: Zone, utc: int, j: nat) {
    j <= |z.transitions|
    && (j > 0 ==> z.transitions[j - 1].at <= utc) && (j < |z.transitions| ==> utc < z.transitions[j].at)
  }

  lemma SegmentIsSince(z: Zone, utc: int)
    requires ValidZone(z)
    ensures Since(z, utc, Segment(z, utc))
  {
    PassedSplits(UtcList(z), utc);
    var j := Segment(z, utc);
    assert j > 0 ==> UtcList(z)[j - 1] <= utc;
    assert j < |z.transitions| ==> utc < UtcList(z)[j];
  }

  lemma OneSegment(z: Zone, utc: int, j: nat, k: nat)
    requires ValidZone(z)
    requires Since(z, utc, j) && Since(z, utc, k)
    ensures j == k
  {
  }

  lemma WholeSeconds(m: int, offset: int)
    ensures (m + offset * 1_000_000) / 1_000_000 == m / 1_000_000 + offset
    ensures (m - offset * 1_000_000) / 1_000_000 == m / 1_000_000 - offset
  {
  }

  /** Local clocks differ from UTC by a whole number of seconds, under a day. */
  lemma OffsetUnderADay(z: Zone, utc: int)
    requires ValidZone(z)
    ensures (ToLocal(z, utc) - utc) % 1_000_000 == 0
    ensures -86_400_000_000 < ToLocal(z, utc) - utc < 86_400_000_000
  {
  }

  // ---- zones whose wall-clock windows do not overlap ----

  /** Each transition's window of skipped or repeated local seconds ends before the next one begins. */
  predicate WindowsApart(z: Zone) {
    forall i :: 0 <= i && i + 1 < |z.transitions| ==> Wall(z, i, 0) <= Wall(z, i + 1, 1)
  }

  lemma {:induction false} WallOrder(z: Zone, i: nat, j: nat)
    requires WindowsApart(z) && i < j < |z.transitions|
    ensures Wall(z, i, 1) <= Wall(z, i, 0) <= Wall(z, j, 1) <= Wall(z, j, 0)
    decreases j
  {
    if i + 1 < j {
      WallOrder(z, i, j - 1);
    }
    var k := j - 1;
    assert Wall(z, k, 0) <= Wall(z, k + 1, 1);
  }

  /** Exactly the first k transitions lie behind this local second, read with this fold. */
  predicate Behind(z: Zone, second: int, fold: int, k: nat) {
    k <= |z.transitions|
    && (k > 0 ==> Wall(z, k - 1, fold) <= second) && (k < |z.transitions| ==> second < Wall(z, k, fold))
  }

  lemma PassedIsBehind(z: Zone, second: int, fold: int)
    requires WindowsApart(z) && fold in {0, 1}
    ensures Behind(z, second, fold, PassedLocally(z, second, fold))
  {
    forall i, j | 0 <= i < j < |z.transitions| ensures WallList(z, fold)[i] <= WallList(z, fold)[j] {
      WallOrder(z, i, j);
    }
    PassedSplits(WallList(z, fold), second);
    var k := PassedLocally(z, second, fold);
    assert k > 0 ==> WallList(z, fold)[k - 1] <= second;
    assert k < |z.transitions| ==> second < WallList(z, fold)[k];
  }

  /** The counts for the two folds differ by at most one. */
  lemma FoldCounts(z: Zone, second: int, k0: nat, k1: nat)
    requires WindowsApart(z) && Behind(z, second, 0, k0) && Behind(z, second, 1, k1)
    ensures k0 <= k1 <= k0 + 1
  {
    if k0 > k1 + 1 {
      WallOrder(z, k1, k0 - 1);
    } else if k1 > k0 + 1 {
      WallOrder(z, k0, k1 - 1);
    }
  }

  /** A UTC second that shows a local second lies in a segment between the two fold counts. */
  lemma SegmentBetweenCounts(z: Zone, utc: int, j: nat, k0: nat, k1: nat)
    requires WindowsApart(z) && Since(z, utc, j)
    requires Behind(z, utc + Offset(z, j), 0, k0) && Behind(z, utc + Offset(z, j), 1, k1)
    ensures k0 <= j <= k1
  {
    if j > k1 + 1 {
      WallOrder(z, k1, j - 1);
    }
    if j + 1 < k0 {
      WallOrder(z, j, k0 - 1);
    }
  }

  /** Every instant that shows a local clock is the one some fold tries. */
  lemma PreimageIsTried(z: Zone, local: int, utc: int)
    requires ValidZone(z) && WindowsApart(z) && ToLocal(z, utc) == local
    ensures utc == ToUtc(z, local, 0) || utc == ToUtc(z, local, 1)
  {
    var j := Shown(z, utc);
    var k0, j0 := Tried(z, local, 0);
    var k1, j1 := Tried(z, local, 1);
    WholeSeconds(utc, Offset(z, j));
    SegmentIsCounted(z, utc / 1_000_000, local / 1_000_000, j, k0, k1);
  }

  lemma SegmentIsCounted(z: Zone, utc: int, second: int, j: nat, k0: nat, k1: nat)
    requires WindowsApart(z) && Since(z, utc, j) && second == utc + Offset(z, j)
    requires Behind(z, second, 0, k0) && Behind(z, second, 1, k1)
    ensures j == k0 || j == k1
  {
    FoldCounts(z, second, k0, k1);
    SegmentBetweenCounts(z, utc, j, k0, k1);
  }

  /** The segment of an instant and the local clock it shows. */
  lemma Shown(z: Zone, utc: int) returns (j: nat)
    requires ValidZone(z)
    ensures Since(z, utc / 1_000_000, j) && ToLocal(z, utc) == utc + Offset(z, j) * 1_000_000
  {
    j := Segment(z, utc / 1_000_000);
    SegmentIsSince(z, utc / 1_000_000);
  }

  /** What a fold tries: the count of transitions behind it and the segment it lands in. */
  lemma Tried(z: Zone, local: int, fold: int) returns (k: nat, j: nat)
    requires ValidZone(z) && WindowsApart(z) && fold in {0, 1}
    ensures Behind(z, local / 1_000_000, fold, k)
    ensures ToUtc(z, local, fold) == local - Offset(z, k) * 1_000_000
    ensures Since(z, local / 1_000_000 - Offset(z, k), j)
    ensures ToLocal(z, ToUtc(z, local, fold)) == local <==> Offset(z, j) == Offset(z, k)
  {
    k := PassedLocally(z, local / 1_000_000, fold);
    PassedIsBehind(z, local / 1_000_000, fold);
    WholeSeconds(local, Offset(z, k));
    j := Shown(z, local - Offset(z, k) * 1_000_000);
  }

  /** With separated windows the candidates are exactly the instants that show the local clock. */
  lemma CandidatesAreAllPreimages(z: Zone, local: int, utc: int)
    requires ValidZone(z) && WindowsApart(z)
    ensures ToLocal(z, utc) == local <==> utc in Candidates(z, local).Values
  {
    CandidatesReplay(z, local);
    var c := Candidates(z, local);
    if ToLocal(z, utc) == local {
      PreimageIsTried(z, local, utc);
      assert 0 in c ==> c[0] in c.Values;
      assert 1 in c ==> c[1] in c.Values;
    }
  }

  predicate InGap(z: Zone, second: int) { exists i :: 0 <= i < |z.transitions| && GapAt(z, i, second) }

  predicate InFold(z: Zone, second: int) { exists i :: 0 <= i < |z.transitions| && FoldAt(z, i, second) }

  /** The transition skips this local second. */
  predicate GapAt(z: Zone, i: nat, second: int)
    requires i < |z.transitions|
  {
    z.transitions[i].at + Offset(z, i) <= second < z.transitions[i].at + Offset(z, i + 1)
  }

  /** The transition repeats this local second. */
  predicate FoldAt(z: Zone, i: nat, second: int)
    requires i < |z.transitions|
  {
    z.transitions[i].at + Offset(z, i + 1) <= second < z.transitions[i].at + Offset(z, i)
  }

  /** Where the seconds that the two folds try lie, unless the clock jumped forward. */
  lemma TriedSeconds(z: Zone, second: int, k0: nat, k1: nat)
    requires WindowsApart(z) && Behind(z, second, 0, k0) && Behind(z, second, 1, k1)
    requires k0 == k1 || (k1 == k0 + 1 && Offset(z, k0) > Offset(z, k1))
    ensures Since(z, second - Offset(z, k0), k0) && Since(z, second - Offset(z, k1), k1)
  {
    if k0 > 0 && k0 < |z.transitions| {
      WallOrder(z, k0 - 1, k0);
    }
    if k0 < k1 < |z.transitions| {
      WallOrder(z, k0, k1);
    }
  }

  /** In a gap no UTC second shows the clock. */
  lemma NoSecondInGap(z: Zone, second: int, k: nat, utc: int, j: nat)
    requires WindowsApart(z) && Behind(z, second, 0, k) && Behind(z, second, 1, k + 1)
    requires Offset(z, k) <= Offset(z, k + 1) && Since(z, utc, j)
    ensures utc + Offset(z, j) != second
  {
    if utc + Offset(z, j) == second {
      SegmentBetweenCounts(z, utc, j, k, k + 1);
    }
  }

  /** The window a local second is in, if any, is the one between the two counts. */
  lemma WindowIsCounted(z: Zone, second: int, k0: nat, k1: nat)
    requires WindowsApart(z) && Behind(z, second, 0, k0) && Behind(z, second, 1, k1)
    ensures k0 == k1 || k1 == k0 + 1
    ensures InGap(z, second) <==> k0 < k1 && Offset(z, k0) < Offset(z, k1)
    ensures InFold(z, second) <==> k0 < k1 && Offset(z, k0) > Offset(z, k1)
    ensures k0 < k1 ==> Offset(z, k0) != Offset(z, k1)
  {
    FoldCounts(z, second, k0, k1);
    if k0 < k1 {
      CountIsWindow(z, second, k0);
    }
    if InGap(z, second) {
      var i :| 0 <= i < |z.transitions| && GapAt(z, i, second);
      WindowAt(z, second, i, k0, k1);
    }
    if InFold(z, second) {
      var i :| 0 <= i < |z.transitions| && FoldAt(z, i, second);
      WindowAt(z, second, i, k0, k1);
    }
  }

  lemma CountIsWindow(z: Zone, second: int, k: nat)
    requires WindowsApart(z) && Behind(z, second, 0, k) && Behind(z, second, 1, k + 1)
    ensures if Offset(z, k) < Offset(z, k + 1) then GapAt(z, k, second)
              else FoldAt(z, k, second) && Offset(z, k) > Offset(z, k + 1)
  {
  }

  lemma WindowAt(z: Zone, second: int, i: nat, k0: nat, k1: nat)
    requires WindowsApart(z) && Behind(z, second, 0, k0) && Behind(z, second, 1, k1)
    requires i < |z.transitions| && Wall(z, i, 1) <= second < Wall(z, i, 0)
    ensures k0 == i && k1 == i + 1
  {
    if k0 > i + 1 {
      WallOrder(z, i, k0 - 1);
    }
    if k1 < i {
      WallOrder(z, k1, i);
    }
    FoldCounts(z, second, k0, k1);
  }

  /** By the counts, in seconds: neither fold replays in a gap, and otherwise both do. */
  lemma WhichSecondsReplay(z: Zone, second: int, k0: nat, k1: nat, j0: nat, j1: nat)
    requires ValidZone(z) && WindowsApart(z) && Behind(z, second, 0, k0) && Behind(z, second, 1, k1)
    requires k0 == k1 || (k1 == k0 + 1 && Offset(z, k0) != Offset(z, k1))
    requires Since(z, second - Offset(z, k0), j0) && Since(z, second - Offset(z, k1), j1)
    ensures var both := k0 == k1 || Offset(z, k0) > Offset(z, k1);
            (Offset(z, j0) == Offset(z, k0) <==> both) && (Offset(z, j1) == Offset(z, k1) <==> both)
  {
    var s0, s1 := second - Offset(z, k0), second - Offset(z, k1);
    if k0 < k1 && Offset(z, k0) < Offset(z, k1) {
      NoSecondInGap(z, second, k0, s0, j0);
      NoSecondInGap(z, second, k0, s1, j1);
    } else {
      TriedSeconds(z, second, k0, k1);
      OneSegment(z, s0, k0, j0);
      OneSegment(z, s1, k1, j1);
    }
  }

  /**
   No candidate exactly in a gap, two exactly in a fold with fold 0 the earlier instant, and
   otherwise one, always under fold 0.
   */
  lemma GapFoldUnique(z: Zone, local: int)
    requires ValidZone(z) && WindowsApart(z)
    ensures var c, second := Candidates(z, local), local / 1_000_000;
            (InGap(z, second) <==> c == map[])
            && (InFold(z, second) <==> c.Keys == {0, 1})
            && (c.Keys == {0, 1} ==> c[0] < c[1])
            && (!InGap(z, second) && !InFold(z, second) <==> c.Keys == {0})
  {
    var u0, u1, both := CandidateShape(z, local);
    CollectShape(u0, both, u1, both);
  }

  lemma CandidateShape(z: Zone, local: int) returns (u0: int, u1: int, both: bool)
    requires ValidZone(z) && WindowsApart(z)
    ensures Candidates(z, local) == Collect(u0, both, u1, both)
    ensures InGap(z, local / 1_000_000) <==> !both
    ensures InFold(z, local / 1_000_000) <==> both && u0 != u1
    ensures both ==> u0 <= u1
  {
    var k0, k1;
    k0, k1, u0, u1, both := ReplaysTogether(z, local);
    ShapeOfCounts(z, local / 1_000_000, k0, k1, local, u0, u1);
  }

  /** Both folds replay, or neither does. */
  lemma ReplaysTogether(z: Zone, local: int) returns (k0: nat, k1: nat, u0: int, u1: int, both: bool)
    requires ValidZone(z) && WindowsApart(z)
    ensures Behind(z, local / 1_000_000, 0, k0) && Behind(z, local / 1_000_000, 1, k1)
    ensures u0 == local - Offset(z, k0) * 1_000_000 && u1 == local - Offset(z, k1) * 1_000_000
    ensures both <==> k0 == k1 || Offset(z, k0) > Offset(z, k1)
    ensures Candidates(z, local) == Collect(u0, both, u1, both)
  {
    k0, k1 := ReplayFacts(z, local);
    both, u0, u1 := k0 == k1 || Offset(z, k0) > Offset(z, k1), ToUtc(z, local, 0), ToUtc(z, local, 1);
    CollectedAs(z, local, u0, u1, both);
  }

  lemma CollectedAs(z: Zone, local: int, u0: int, u1: int, both: bool)
    requires u0 == ToUtc(z, local, 0) && u1 == ToUtc(z, local, 1)
    requires (ToLocal(z, u0) == local <==> both) && (ToLocal(z, u1) == local <==> both)
    ensures Candidates(z, local) == Collect(u0, both, u1, both)
  {
  }

  lemma ReplayFacts(z: Zone, local: int) returns (k0: nat, k1: nat)
    requires ValidZone(z) && WindowsApart(z)
    ensures Behind(z, local / 1_000_000, 0, k0) && Behind(z, local / 1_000_000, 1, k1)
    ensures ToUtc(z, local, 0) == local - Offset(z, k0) * 1_000_000
            && ToUtc(z, local, 1) == local - Offset(z, k1) * 1_000_000
    ensures ToLocal(z, ToUtc(z, local, 0)) == local <==> k0 == k1 || Offset(z, k0) > Offset(z, k1)
    ensures ToLocal(z, ToUtc(z, local, 1)) == local <==> k0 == k1 || Offset(z, k0) > Offset(z, k1)
  {
    var j0, j1;
    k0, j0 := Tried(z, local, 0);
    k1, j1 := Tried(z, local, 1);
    AtMostOneApart(z, local / 1_000_000, k0, k1);
    WhichSecondsReplay(z, local / 1_000_000, k0, k1, j0, j1);
  }

  lemma AtMostOneApart(z: Zone, second: int, k0: nat, k1: nat)
    requires WindowsApart(z) && Behind(z, second, 0, k0) && Behind(z, second, 1, k1)
    ensures k0 == k1 || (k1 == k0 + 1 && Offset(z, k0) != Offset(z, k1))
  {
    WindowIsCounted(z, second, k0, k1);
  }

  lemma ShapeOfCounts(z: Zone, second: int, k0: nat, k1: nat, local: int, u0: int, u1: int)
    requires WindowsApart(z) && Behind(z, second, 0, k0) && Behind(z, second, 1, k1)
    requires u0 == local - Offset(z, k0) * 1_000_000 && u1 == local - Offset(z, k1) * 1_000_000
    ensures var both := k0 == k1 || Offset(z, k0) > Offset(z, k1);
            (InGap(z, second) <==> !both) && (InFold(z, second) <==> both && u0 != u1) && (both ==> u0 <= u1)
  {
    WindowIsCounted(z, second, k0, k1);
  }

  lemma CollectShape(u0: int, r0: bool, u1: int, r1: bool)
    requires r0 == r1
    ensures var c := Collect(u0, r0, u1, r1);
            (!r0 ==> c == map[]) && (r0 && u0 == u1 ==> c == map[0 := u0])
            && (r0 && u0 != u1 ==> c == map[0 := u0, 1 := u1])
    ensures map[0 := u0, 1 := u1].Keys == {0, 1} && map[0 := u0].Keys == {0} && {0} != {0, 1} && {0, 1} != {}
  {
    assert 1 in {0, 1} && 1 !in {0} && 0 in {0};
  }

  // ---- choosing an instant ----

  datatype Choice = NoInstant | NeedsFold | UnusableFold | Instant(utc: int)

  /** What the resolver does with the candidates and the caller's fold. */
  function Choose(c: map<int, int>, fold: Option<int>): Choice
    requires c.Keys <= {0, 1} && fold in {None, Some(0), Some(1)}
  {
    if c.Keys == {} then NoInstant
    else if c.Keys == {0, 1} then (if fold.None? then NeedsFold else Instant(c[fold.value]))
    else if fold.Some? then UnusableFold
    else if 0 in c then Instant(c[0])
    else Instant(c[1])
  }

  function Pick(z: Zone, local: int, fold: Option<int>): Choice
    requires fold in {None, Some(0), Some(1)}
  {
    Choose(Candidates(z, local), fold)
  }

  /** With separated windows the choice tells gaps and folds apart. */
  lemma ChoiceMeansGapOrFold(z: Zone, local: int, fold: Option<int>)
    requires ValidZone(z) && WindowsApart(z) && fold in {None, Some(0), Some(1)}
    ensures var gap, twice := InGap(z, local / 1_000_000), InFold(z, local / 1_000_000);
            (Pick(z, local, fold).NoInstant? <==> gap) && (Pick(z, local, fold).NeedsFold? <==> twice && fold.None?)
            && (Pick(z, local, fold).UnusableFold? <==> !gap && !twice && fold.Some?)
            && (Pick(z, local, fold).Instant? <==> !gap && (twice <==> fold.Some?))
  {
    GapFoldUnique(z, local);
    ChoiceByShape(Candidates(z, local), fold);
  }

  lemma ChoiceByShape(c: map<int, int>, fold: Option<int>)
    requires fold in {None, Some(0), Some(1)}
    requires c == map[] || c.Keys == {0} || c.Keys == {0, 1}
    ensures Choose(c, fold).NoInstant? <==> c == map[]
    ensures Choose(c, fold).NeedsFold? <==> c.Keys == {0, 1} && fold.None?
    ensures Choose(c, fold).UnusableFold? <==> c.Keys == {0} && fold.Some?
    ensures c == map[] ==> c.Keys != {0} && c.Keys != {0, 1}
    ensures c.Keys == {0} ==> c.Keys != {0, 1}
  {
    assert 1 in {0, 1} && 1 !in {0} && 0 in {0};
  }

  lemma PickedShows(z: Zone, local: int, fold: Option<int>)
    requires fold in {None, Some(0), Some(1)}
    ensures Pick(z, local, fold).Instant? ==> ToLocal(z, Pick(z, local, fold).utc) == local
  {
    CandidatesReplay(z, local);
  }

  /** The instants at which the zone's clock shows this local time. */
  ghost function Showing(z: Zone, local: int): iset<int> {
    iset utc | ToLocal(z, utc) == local
  }

  /** The clock runs ahead of UTC by the offset of the latest transition that has happened, or by the first offset. */
  lemma ClockInForce(z: Zone, utc: int, j: nat)
    requires ValidZone(z) && j <= |z.transitions|
    requires forall i :: 0 <= i < |z.transitions| ==> (z.transitions[i].at * 1_000_000 <= utc <==> i < j)
    ensures ToLocal(z, utc) == utc + (if j == 0 then z.before else z.transitions[j - 1].offset) * 1_000_000
  {
    SegmentIsSince(z, utc / 1_000_000);
    assert Since(z, utc / 1_000_000, j);
    OneSegment(z, utc / 1_000_000, j, Segment(z, utc / 1_000_000));
  }

  /** The fold that names an instant among those showing one clock: none if alone, otherwise its rank. */
  ghost predicate NamedBy(showing: iset<int>, utc: int, fold: Option<int>) {
    utc in showing
    && match fold
       case None => forall v :: v in showing ==> v == utc
       case Some(f) =>
         (f == 0 && exists v :: v in showing && utc < v) || (f == 1 && exists v :: v in showing && v < utc)
  }

  /**
   Accepted requests and instants correspond one to one: a request is accepted with an instant
   exactly when that instant shows the requested clock and the fold is the one that names it.
   */
  lemma RequestsMatchInstants(z: Zone, local: int, fold: Option<int>, utc: int)
    requires ValidZone(z) && WindowsApart(z) && fold in {None, Some(0), Some(1)}
    ensures Pick(z, local, fold) == Instant(utc) <==> NamedBy(Showing(z, local), utc, fold)
  {
    GapFoldUnique(z, local);
    forall v ensures v in Showing(z, local) <==> v in Candidates(z, local).Values {
      CandidatesAreAllPreimages(z, local, v);
    }
    ChoiceIsNaming(Showing(z, local), Candidates(z, local), fold, utc);
  }

  lemma ChoiceIsNaming(showing: iset<int>, c: map<int, int>, fold: Option<int>, utc: int)
    requires fold in {None, Some(0), Some(1)}
    requires c == map[] || c.Keys == {0} || (c.Keys == {0, 1} && c[0] < c[1])
    requires forall v :: v in showing <==> v in c.Values
    ensures Choose(c, fold) == Instant(utc) <==> NamedBy(showing, utc, fold)
  {
    assert 0 in c ==> c[0] in c.Values;
    assert 1 in c ==> c[1] in c.Values;
    assert 1 in {0, 1} && 1 !in {0};
  }

  lemma PreimagesOf(z: Zone, local: int)
    requires ValidZone(z) && WindowsApart(z)
    ensures forall v :: v in Showing(z, local) <==> v in Candidates(z, local).Values
  {
    forall v ensures v in Showing(z, local) <==> v in Candidates(z, local).Values {
      CandidatesAreAllPreimages(z, local, v);
    }
  }

  /** No instant is out of reach: the request with its own clock and its name is accepted with it. */
  lemma EveryInstantIsRequested(z: Zone, utc: int) returns (fold: Option<int>)
    requires ValidZone(z) && WindowsApart(z)
    ensures fold in {None, Some(0), Some(1)} && Pick(z, ToLocal(z, utc), fold) == Instant(utc)
  {
    var local := ToLocal(z, utc);
    assert utc in Showing(z, local);
    GapFoldUnique(z, local);
    PreimagesOf(z, local);
    fold := NameOf(Showing(z, local), Candidates(z, local), utc);
    RequestsMatchInstants(z, local, fold, utc);
  }

  /** Two accepted requests with one instant are the same request. */
  lemma OneRequestPerInstant(z: Zone, utc: int, local: int, fold: Option<int>, local': int, fold': Option<int>)
    requires ValidZone(z) && WindowsApart(z) && fold in {None, Some(0), Some(1)} && fold' in {None, Some(0), Some(1)}
    requires Pick(z, local, fold) == Instant(utc) && Pick(z, local', fold') == Instant(utc)
    ensures local == local' && fold == fold'
  {
    RequestsMatchInstants(z, local, fold, utc);
    RequestsMatchInstants(z, local', fold', utc);
    assert utc in Showing(z, local) && utc in Showing(z, local');
    GapFoldUnique(z, local);
    PreimagesOf(z, local);
    NamesDiffer(Showing(z, local), utc, fold, fold', Candidates(z, local));
  }

  lemma NameOf(showing: iset<int>, c: map<int, int>, utc: int) returns (fold: Option<int>)
    requires c == map[] || c.Keys == {0} || (c.Keys == {0, 1} && c[0] < c[1])
    requires forall v :: v in showing <==> v in c.Values
    requires utc in showing
    ensures fold in {None, Some(0), Some(1)} && NamedBy(showing, utc, fold)
  {
    assert 0 in c ==> c[0] in c.Values;
    assert 1 in c ==> c[1] in c.Values;
    assert 1 in {0, 1} && 1 !in {0};
    fold := if c.Keys == {0} then None else if c[0] == utc then Some(0) else Some(1);
  }

  lemma NamesDiffer(showing: iset<int>, utc: int, fold: Option<int>, fold': Option<int>, c: map<int, int>)
    requires c == map[] || c.Keys == {0} || (c.Keys == {0, 1} && c[0] < c[1])
    requires forall v :: v in showing <==> v in c.Values
    requires fold in {None, Some(0), Some(1)} && fold' in {None, Some(0), Some(1)}
    requires NamedBy(showing, utc, fold) && NamedBy(showing, utc, fold')
    ensures fold == fold'
  {
    assert 0 in c ==> c[0] in c.Values;
    assert 1 in c ==> c[1] in c.Values;
    assert 1 in {0, 1} && 1 !in {0};
  }

  // ---- why the windows have to be apart ----

  /** The clock goes back by `step` at second 0 and again `pause` seconds later, before the first window ends. */
  predicate TwoQuickSteps(z: Zone, step: int, pause: int) {
    0 < pause < step < 43_200
    && z.before == 2 * step && |z.transitions| == 2
    && z.transitions[0] == Transition(0, step) && z.transitions[1] == Transition(pause, 0)
  }

  /** Then some local seconds are shown three times, and the middle instant is never a candidate. */
  lemma OverlapLosesAnInstant(z: Zone, step: int, pause: int, local: int)
    requires TwoQuickSteps(z, step, pause)
    requires step <= local / 1_000_000 < step + pause
    ensures !WindowsApart(z)
    ensures local - 2 * step * 1_000_000 in Showing(z, local) && local in Showing(z, local)
    ensures local - step * 1_000_000 in Showing(z, local) && local - step * 1_000_000 !in Candidates(z, local).Values
  {
    QuickWalls(z, step, pause);
    ShownAt(z, local, 2 * step, 0);
    ShownAt(z, local, step, 1);
    ShownAt(z, local, 0, 2);
    QuickTries(z, step, pause, local);
    CandidatesAreTried(z, local);
  }

  lemma CandidatesAreTried(z: Zone, local: int)
    ensures Candidates(z, local).Values <= {ToUtc(z, local, 0), ToUtc(z, local, 1)}
  {
  }

  lemma QuickWalls(z: Zone, step: int, pause: int)
    requires TwoQuickSteps(z, step, pause)
    ensures WallList(z, 0) == [2 * step, pause + step] && WallList(z, 1) == [step, pause]
    ensures !WindowsApart(z)
  {
    assert Wall(z, 0, 0) > Wall(z, 0 + 1, 1);
  }

  lemma QuickTries(z: Zone, step: int, pause: int, local: int)
    requires TwoQuickSteps(z, step, pause)
    requires step <= local / 1_000_000 < step + pause
    ensures ToUtc(z, local, 0) == local - 2 * step * 1_000_000 && ToUtc(z, local, 1) == local
  {
    QuickWalls(z, step, pause);
  }

  lemma ShownAt(z: Zone, local: int, offset: int, j: nat)
    requires ValidZone(z) && j <= |z.transitions| && offset == Offset(z, j) && Since(z, local / 1_000_000 - offset, j)
    ensures local - offset * 1_000_000 in Showing(z, local)
  {
    var second := local / 1_000_000 - offset;
    WholeSeconds(local, offset);
    SegmentIsSince(z, second);
    OneSegment(z, second, j, Segment(z, second));
  }
}
