/**
 The durable per-minute quota: a table of one row per key, read and rewritten in one transaction.
 Calls may come in any order, with any clock and any limit, and any of them may fail outright.
 */
module Quota {
  /** A stored value, which need not be an integer in a table that was tampered with. */
  datatype Cell = Number(n: int) | Other

  datatype Row = Row(bucket: Cell, used: Cell)

  datatype Outcome = Granted | Refused | Failed

  type Table = map<string, Row>

  // ---- the minute of a clock reading ----

  /** int(): truncation towards zero, of microseconds to seconds. */
  function Seconds(micros: int): int { if micros >= 0 then micros / 1000000 else -((-micros) / 1000000) }

  /** int(now.timestamp()) // 60, where // floors. */
  function Minute(micros: int): int { Seconds(micros) / 60 }

  lemma MinuteMonotone(a: int, b: int)
    requires a <= b
    ensures Minute(a) <= Minute(b)
  {
    assert Seconds(a) <= Seconds(b);
  }

  /** A minute is sixty truncated seconds; before 1970 truncation goes up, so the second 0 is two seconds long. */
  lemma MinuteMeans(micros: int, minute: int)
    ensures Minute(micros) == minute
            <==> if minute > 0 then 60_000_000 * minute <= micros < 60_000_000 * (minute + 1)
                 else if minute == 0 then -1_000_000 < micros < 60_000_000
                 else 60_000_000 * minute - 1_000_000 < micros <= 60_000_000 * (minute + 1) - 1_000_000
  {
    var s := Seconds(micros);
    assert micros >= 0 ==> s * 1_000_000 <= micros < (s + 1) * 1_000_000;
    assert micros < 0 ==> (s - 1) * 1_000_000 < micros <= s * 1_000_000;
    assert 60 * Minute(micros) <= s < 60 * (Minute(micros) + 1);
  }

  // ---- one reservation ----

  predicate Sound(row: Row, minute: int) {
    row.bucket.Number? && row.used.Number? && row.used.n >= 0 && row.bucket.n <= minute
  }

  /** What the key has used in this minute; nothing where the row cannot be trusted or there is no room for one. */
  predicate Usable(rows: Table, key: string, minute: int) {
    if key in rows then Sound(rows[key], minute) else |rows| < 128
  }

  function Used(rows: Table, key: string, minute: int): int
    requires Usable(rows, key, minute)
  {
    if key in rows && rows[key].bucket.n == minute then rows[key].used.n else 0
  }

  function Answer(rows: Table, key: string, limit: int, minute: int): Outcome {
    if !Usable(rows, key, minute) then Failed
    else if Used(rows, key, minute) >= limit then Refused
    else Granted
  }

  function Written(rows: Table, key: string, limit: int, minute: int): Table {
    if Answer(rows, key, limit, minute) != Granted then rows
    else rows[key := Row(Number(minute), Number(Used(rows, key, minute) + 1))]
  }

  class QuotaTable {
    var rows: Table

    /** initialize_quota */
    constructor ()
      ensures rows == map[]
    {
      rows := map[];
    }

    /** reserve_quota, as one transaction: only a grant writes, and it writes one row. */
    method Reserve(key: string, limit: int, now: int) returns (r: Outcome)
      modifies this
      ensures r == Answer(old(rows), key, limit, Minute(now))
      ensures rows == Written(old(rows), key, limit, Minute(now))
    {
      var bucket := Minute(now);
      var used;
      if key !in rows {
        if |rows| >= 128 {
          return Failed;
        }
        used := 0;
      } else {
        var row := rows[key];
        if !row.bucket.Number? || !row.used.Number? || row.used.n < 0 || bucket < row.bucket.n {
          return Failed;
        }
        used := row.used.n;
        if row.bucket.n != bucket {
          used := 0;
        }
      }
      if used >= limit {
        return Refused;
      }
      rows := rows[key := Row(Number(bucket), Number(used + 1))];
      return Granted;
    }
  }

  // ---- runs ----

  /** One call as it is serialized; an unreachable one fails before it reads anything. */
  datatype Call = Call(key: string, limit: int, now: int, reachable: bool)

  function After(calls: seq<Call>): Table {
    if calls == [] then map[]
    else
      var c := calls[|calls| - 1];
      var rows := After(calls[..|calls| - 1]);
      if c.reachable then Written(rows, c.key, c.limit, Minute(c.now)) else rows
  }

  /** What the i-th call answers. */
  function OutcomeOf(calls: seq<Call>, i: nat): Outcome
    requires i < |calls|
  {
    if calls[i].reachable then Answer(After(calls[..i]), calls[i].key, calls[i].limit, Minute(calls[i].now)) else Failed
  }

  /** A run of calls against the table in memory is a run of the specification. */
  method Serve(table: QuotaTable, calls: seq<Call>) returns (outcomes: seq<Outcome>)
    requires table.rows == map[]
    modifies table
    ensures table.rows == After(calls)
    ensures |outcomes| == |calls| && forall i :: 0 <= i < |calls| ==> outcomes[i] == OutcomeOf(calls, i)
  {
    outcomes := [];
    for i := 0 to |calls|
      invariant table.rows == After(calls[..i])
      invariant |outcomes| == i && forall k :: 0 <= k < i ==> outcomes[k] == OutcomeOf(calls, k)
    {
      assert calls[..i + 1][..i] == calls[..i];
      var r := Failed;
      if calls[i].reachable {
        r := table.Reserve(calls[i].key, calls[i].limit, calls[i].now);
      }
      outcomes := outcomes + [r];
    }
    assert calls[..|calls|] == calls;
  }

  predicate IsAttempt(c: Call, key: string, minute: int) { c.key == key && Minute(c.now) == minute }

  function Attempts(calls: seq<Call>, key: string, minute: int): nat {
    if calls == [] then 0
    else Attempts(calls[..|calls| - 1], key, minute) + (if IsAttempt(calls[|calls| - 1], key, minute) then 1 else 0)
  }

  predicate LastGrants(calls: seq<Call>, key: string, minute: int)
    requires calls != []
  {
    IsAttempt(calls[|calls| - 1], key, minute) && OutcomeOf(calls, |calls| - 1) == Granted
  }

  function Grants(calls: seq<Call>, key: string, minute: int): nat {
    if calls == [] then 0
    else Grants(calls[..|calls| - 1], key, minute) + (if LastGrants(calls, key, minute) then 1 else 0)
  }

  /** The largest limit presented for the key in the minute. */
  function LargestLimit(calls: seq<Call>, key: string, minute: int): int {
    if calls == [] then 0
    else
      var before, c := LargestLimit(calls[..|calls| - 1], key, minute), calls[|calls| - 1];
      if IsAttempt(c, key, minute) && c.limit > before then c.limit else before
  }

  /** The stored row of a key counts exactly the grants of the stored minute, and no later minute has any. */
  ghost predicate Counts(calls: seq<Call>, key: string) {
    if key in After(calls) then
      var row := After(calls)[key];
      row.bucket.Number? && row.used.Number? && row.used.n == Grants(calls, key, row.bucket.n) > 0
      && forall minute :: minute > row.bucket.n ==> Grants(calls, key, minute) == 0
    else forall minute :: Grants(calls, key, minute) == 0
  }

  lemma {:induction false} UsedIsGrants(calls: seq<Call>, key: string)
    ensures Counts(calls, key)
  {
    if calls != [] {
      var n := |calls| - 1;
      UsedIsGrants(calls[..n], key);
      OneMoreCall(calls, key);
    }
  }

  lemma OneMoreCall(calls: seq<Call>, key: string)
    requires calls != [] && Counts(calls[..|calls| - 1], key)
    ensures Counts(calls, key)
  {
    var n := |calls| - 1;
    var c := calls[n];
    var minute := Minute(c.now);
    if c.key == key && OutcomeOf(calls, n) == Granted {
      assert Grants(calls, key, minute) == Grants(calls[..n], key, minute) + 1;
      assert After(calls)[key].bucket == Number(minute);
    } else {
      assert key in After(calls) <==> key in After(calls[..n]);
      assert forall m :: Grants(calls, key, m) == Grants(calls[..n], key, m);
    }
  }

  /** No key is granted more in a minute than the largest limit presented for it in that minute. */
  lemma {:induction false} GrantsWithinLimit(calls: seq<Call>, key: string, minute: int)
    ensures Grants(calls, key, minute) <= LargestLimit(calls, key, minute)
  {
    if calls != [] {
      var n := |calls| - 1;
      GrantsWithinLimit(calls[..n], key, minute);
      UsedIsGrants(calls[..n], key);
      if LastGrants(calls, key, minute) {
        UsedNow(calls[..n], key, minute);
      }
    }
  }

  /** What a usable row says was used in a minute is what was granted in it. */
  lemma UsedNow(calls: seq<Call>, key: string, minute: int)
    requires Counts(calls, key) && Usable(After(calls), key, minute)
    ensures Used(After(calls), key, minute) == Grants(calls, key, minute)
  {
  }

  /** A minute that a key has left is never granted in again: its grants are in the order of their minutes. */
  lemma GrantsInOrder(calls: seq<Call>, i: nat, j: nat)
    requires i < j < |calls| && calls[i].key == calls[j].key
    requires OutcomeOf(calls, i) == Granted && OutcomeOf(calls, j) == Granted
    ensures Minute(calls[i].now) <= Minute(calls[j].now)
  {
    var key, minute := calls[i].key, Minute(calls[i].now);
    UsedIsGrants(calls[..j], key);
    GrantCounts(calls, i, j);
  }

  lemma {:induction false} GrantCounts(calls: seq<Call>, i: nat, j: nat)
    requires i < j <= |calls| && OutcomeOf(calls, i) == Granted
    ensures Grants(calls[..j], calls[i].key, Minute(calls[i].now)) > 0
    decreases j
  {
    var done := calls[..j];
    assert done[..j - 1] == calls[..j - 1];
    if i < j - 1 {
      GrantCounts(calls, i, j - 1);
    }
  }

  lemma {:induction false} RowsAreFew(calls: seq<Call>)
    ensures |After(calls)| <= 128
  {
    if calls != [] {
      RowsAreFew(calls[..|calls| - 1]);
    }
  }

  ghost predicate EverGranted(calls: seq<Call>, key: string) {
    exists i :: 0 <= i < |calls| && calls[i].key == key && OutcomeOf(calls, i) == Granted
  }

  /** The table holds a row for exactly the keys that were ever granted. */
  lemma {:induction false} RowsAreGrantedKeys(calls: seq<Call>, key: string)
    ensures key in After(calls) <==> EverGranted(calls, key)
  {
    if calls != [] {
      var n := |calls| - 1;
      RowsAreGrantedKeys(calls[..n], key);
      SameOutcomes(calls);
      if EverGranted(calls[..n], key) {
        var i :| 0 <= i < n && calls[..n][i].key == key && OutcomeOf(calls[..n], i) == Granted;
        assert calls[i].key == key && OutcomeOf(calls, i) == Granted;
      }
      if EverGranted(calls, key) {
        var i :| 0 <= i < |calls| && calls[i].key == key && OutcomeOf(calls, i) == Granted;
        assert i < n ==> calls[..n][i].key == key && OutcomeOf(calls[..n], i) == Granted;
      }
    }
  }

  lemma SameOutcomes(calls: seq<Call>)
    requires calls != []
    ensures forall i :: 0 <= i < |calls| - 1 ==> OutcomeOf(calls[..|calls| - 1], i) == OutcomeOf(calls, i)
  {
    forall i | 0 <= i < |calls| - 1 ensures OutcomeOf(calls[..|calls| - 1], i) == OutcomeOf(calls, i) {
      assert calls[..|calls| - 1][..i] == calls[..i];
    }
  }

  /**
   The calls of a key never go back in time, and those in this minute reach a table with room and present this limit.
   */
  ghost predicate Steady(calls: seq<Call>, key: string, minute: int, limit: nat) {
    (forall i, j :: 0 <= i < j < |calls| && calls[i].key == key && calls[j].key == key ==> calls[i].now <= calls[j].now)
    && forall i :: 0 <= i < |calls| && IsAttempt(calls[i], key, minute) ==> calls[i].limit == limit && HasRoom(calls, i)
  }

  predicate HasRoom(calls: seq<Call>, i: nat)
    requires i < |calls|
  {
    calls[i].reachable && (calls[i].key in After(calls[..i]) || |After(calls[..i])| < 128)
  }

  /** Then exactly the first attempts up to the limit are granted. */
  lemma {:induction false} ExactlyTheLimit(calls: seq<Call>, key: string, minute: int, limit: nat)
    requires Steady(calls, key, minute, limit)
    ensures Grants(calls, key, minute) == if Attempts(calls, key, minute) < limit
              then Attempts(calls, key, minute) else limit
  {
    if calls != [] {
      var n := |calls| - 1;
      SteadyBefore(calls, key, minute, limit);
      ExactlyTheLimit(calls[..n], key, minute, limit);
      if IsAttempt(calls[n], key, minute) {
        assert HasRoom(calls, n);
        UsedIsGrants(calls[..n], key);
        RowIsNotAhead(calls, key, minute, limit);
        UsedNow(calls[..n], key, minute);
      }
    }
  }

  lemma SteadyBefore(calls: seq<Call>, key: string, minute: int, limit: nat)
    requires calls != [] && Steady(calls, key, minute, limit)
    ensures Steady(calls[..|calls| - 1], key, minute, limit)
  {
    var before := calls[..|calls| - 1];
    forall i | 0 <= i < |before| && IsAttempt(before[i], key, minute) ensures before[i].limit == limit
    && HasRoom(before, i) {
      assert IsAttempt(calls[i], key, minute) && HasRoom(calls, i);
      assert before[..i] == calls[..i];
    }
  }

  lemma RowIsNotAhead(calls: seq<Call>, key: string, minute: int, limit: nat)
    requires calls != [] && Steady(calls, key, minute, limit) && IsAttempt(calls[|calls| - 1], key, minute)
    requires Counts(calls[..|calls| - 1], key)
    ensures key in After(calls[..|calls| - 1]) ==> Sound(After(calls[..|calls| - 1])[key], minute)
  {
    var n := |calls| - 1;
    if key in After(calls[..n]) {
      var i := RowWasGranted(calls[..n], key);
      assert calls[i].key == key;
      MinuteMonotone(calls[i].now, calls[n].now);
    }
  }

  lemma {:induction false} RowWasGranted(calls: seq<Call>, key: string) returns (i: nat)
    requires key in After(calls)
    ensures i < |calls| && calls[i].key == key && OutcomeOf(calls, i) == Granted
    ensures After(calls)[key].bucket == Number(Minute(calls[i].now))
  {
    var n := |calls| - 1;
    if calls[n].key == key && OutcomeOf(calls, n) == Granted {
      return n;
    }
    i := RowWasGranted(calls[..n], key);
    SameOutcomes(calls);
  }

  // ---- every answer ----

  ghost predicate GrantedLater(calls: seq<Call>, key: string, minute: int) {
    exists i ::
      0 <= i < |calls| && calls[i].key == key && OutcomeOf(calls, i) == Granted && Minute(calls[i].now) > minute
  }

  ghost function GrantedKeys(calls: seq<Call>): set<string> { set c | c in calls && EverGranted(calls, c.key) :: c.key }

  /**
   A call fails if it cannot reach the table, if its key was granted in a later minute, or if it needs a row and 128
   keys have one; otherwise it is granted exactly while its minute has fewer grants than the limit it presents.
   */
  lemma OutcomeExactly(calls: seq<Call>, i: nat)
    requires i < |calls|
    ensures var c, before := calls[i], calls[..i];
            var fails := !c.reachable || GrantedLater(before, c.key, Minute(c.now))
                         || (!EverGranted(before, c.key) && |GrantedKeys(before)| >= 128);
            (OutcomeOf(calls, i) == Failed <==> fails)
            && (OutcomeOf(calls, i) == Granted <==> !fails && Grants(before, c.key, Minute(c.now)) < c.limit)
  {
    var c, before, minute := calls[i], calls[..i], Minute(calls[i].now);
    UsedIsGrants(before, c.key);
    RowsAreGrantedKeys(before, c.key);
    KeysAreGranted(before);
    RowIsLatest(before, c.key, minute);
    if Usable(After(before), c.key, minute) {
      UsedNow(before, c.key, minute);
    }
  }

  lemma KeysAreGranted(calls: seq<Call>)
    ensures After(calls).Keys == GrantedKeys(calls)
  {
    forall key ensures key in After(calls) <==> key in GrantedKeys(calls) {
      RowsAreGrantedKeys(calls, key);
      if EverGranted(calls, key) {
        var i :| 0 <= i < |calls| && calls[i].key == key && OutcomeOf(calls, i) == Granted;
        assert calls[i] in calls;
      }
    }
  }

  /** The stored minute is the latest in which the key was granted. */
  lemma RowIsLatest(calls: seq<Call>, key: string, minute: int)
    requires Counts(calls, key)
    ensures GrantedLater(calls, key, minute) <==> key in After(calls) && After(calls)[key].bucket.n > minute
  {
    if key in After(calls) {
      var i := RowWasGranted(calls, key);
      assert calls[i].key == key && OutcomeOf(calls, i) == Granted;
    }
    if GrantedLater(calls, key, minute) {
      var i :| 0 <= i < |calls| && calls[i].key == key && OutcomeOf(calls, i) == Granted
               && Minute(calls[i].now) > minute;
      GrantCounts(calls, i, |calls|);
      assert calls[..|calls|] == calls;
    }
  }
}
