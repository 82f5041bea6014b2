/**
 Any number of calls that fetch the same content into one cache directory: an exclusively created
 partial file, its verification, a hard link to the published name, and the removal of the partial file.
 Names refer to files by number, as hard links do. A call can be killed at any point.
 */
module CachePublication {
  import opened Results

  type Bytes = string

  /** What stands at the published name: a file, or a symbolic link, which never verifies. */
  datatype Node = File(file: nat) | SymbolicLink

  datatype Phase =
    | Checking(offline: bool) | Rechecking | Opening
    | Writing(file: nat) | Verifying(file: nat) | Linking(file: nat) | Comparing(file: nat)
      | Removing(file: nat, succeeds: bool)
    | Returned | Failed | Killed

  /** The two names, what every file holds, which call created it, and where each call is. */
  datatype State = State(published: Option<Node>, part: Option<nat>, data: map<nat, Bytes>, maker: map<nat, nat>,
      calls: map<nat, Phase>)

  /** The locked identity: the size, and whether content of that size has the digest. */
  datatype Lock = Lock(size: nat, digestMatches: Bytes -> bool)

  datatype Event =
    | Begin(id: nat, offline: bool)
    | Look(id: nat)
    | Recheck(id: nat)
    | Open(id: nat, file: nat)
    | Write(id: nat, block: Bytes)
    | Close(id: nat, complete: bool)
    | Verify(id: nat)
    | Link(id: nat)
    | Compare(id: nat)
    | Remove(id: nat)
    | Kill(id: nat)

  predicate Good(content: Bytes, lock: Lock) { |content| == lock.size && lock.digestMatches(content) }

  /** verify() of a name that refers to this. */
  predicate Verifies(node: Option<Node>, s: State, lock: Lock) {
    match node
    case Some(File(i)) => i in s.data && Good(s.data[i], lock)
    case _ => false
  }

  function Go(s: State, id: nat, phase: Phase): State { s.(calls := s.calls[id := phase]) }

  predicate Done(phase: Phase) { phase.Returned? || phase.Failed? || phase.Killed? }

  function Create(s: State, id: nat, file: nat): State {
    Go(s, id, Writing(file)).(part := Some(file), data := s.data[file := ""], maker := s.maker[file := id])
  }

  /** One step of one call; None where the event cannot happen. */
  function Step(s: State, e: Event, lock: Lock): Option<State> {
    if e.Begin? then if e.id in s.calls then None else Some(Go(s, e.id, Checking(e.offline)))
    else if e.id !in s.calls then None
    else match (e, s.calls[e.id])
      case (Look(id), Checking(offline)) =>
        Some(Go(s, id, if s.published.Some? then Rechecking else if offline then Failed else Opening))
      case (Recheck(id), Rechecking) => Some(Go(s, id, if Verifies(s.published, s, lock) then Returned else Failed))
      case (Open(id, file), Opening) =>
        if file in s.data then None else Some(if s.part.Some? then Go(s, id, Failed) else Create(s, id, file))
      case (Write(id, block), Writing(i)) =>
        if i !in s.data then None
        else Some(if |s.data[i]| + |block| > lock.size then Go(s, id, Removing(i, false))
          else s.(data := s.data[i := s.data[i] + block]))
      case (Close(id, complete), Writing(i)) => Some(Go(s, id, if complete then Verifying(i) else Removing(i, false)))
      case (Verify(id), Verifying(i)) =>
        Some(Go(s, id, if s.part.Some? && Verifies(Some(File(s.part.value)), s, lock) then Linking(i)
          else Removing(i, false)))
      case (Link(id), Linking(i)) =>
        Some(if s.published.Some? then Go(s, id, Comparing(i))
             else if s.part.None? then Go(s, id, Removing(i, false))
             else Go(s, id, Removing(i, true)).(published := Some(File(s.part.value))))
      case (Compare(id), Comparing(i)) => Some(Go(s, id, Removing(i, Verifies(s.published, s, lock))))
      case (Remove(id), Removing(i, succeeds)) =>
        Some(if s.part.None? then Go(s, id, Failed)
          else Go(s, id, if succeeds then Returned else Failed).(part := None))
      case (Kill(id), phase) => if Done(phase) then None else Some(Go(s, id, Killed))
      case _ => None
  }

  function Run(s: State, events: seq<Event>, lock: Lock): Option<State>
    decreases |events|
  {
    if events == [] then Some(s)
    else match Step(s, events[0], lock) case None => None case Some(t) => Run(t, events[1..], lock)
  }

  /** A directory without a partial file, in which anything may already stand at the published name. */
  predicate IsStart(s: State) {
    s.part.None? && s.maker == map[] && s.calls == map[]
    && (match s.published case Some(File(i)) => i in s.data case _ => true)
  }

  ghost predicate Reachable(s0: State, s: State, lock: Lock)
  {
    IsStart(s0) && exists events :: Run(s0, events, lock) == Some(s)
  }

  // ---- the invariant ----

  /** The call is between creating the partial file and removing it. */
  predicate Owns(s: State, id: nat, i: nat) {
    id in s.calls && match s.calls[id]
      case Writing(j) => j == i
      case Verifying(j) => j == i
      case Linking(j) => j == i
      case Comparing(j) => j == i
      case Removing(j, _) => j == i
      case _ => false
  }

  /** What an owner may count on. */
  predicate OwnerKnows(s: State, id: nat, i: nat, lock: Lock)
    requires id in s.calls
  {
    s.part == Some(i) && i in s.data && i in s.maker && s.maker[i] == id
    && (!s.calls[id].Removing? ==> s.published != Some(File(i)))
    && (s.calls[id].Linking? || s.calls[id].Comparing? ==> Good(s.data[i], lock))
  }

  predicate CallFine(s: State, id: nat, lock: Lock)
    requires id in s.calls
  {
    match s.calls[id]
    case Writing(i) => OwnerKnows(s, id, i, lock)
    case Verifying(i) => OwnerKnows(s, id, i, lock)
    case Linking(i) => OwnerKnows(s, id, i, lock)
    case Comparing(i) => OwnerKnows(s, id, i, lock)
    case Removing(i, succeeds) => OwnerKnows(s, id, i, lock) && (succeeds ==> Verifies(s.published, s, lock))
    case Returned => Verifies(s.published, s, lock)
    case _ => true
  }

  /** The partial file was made by a call that still owns it, or was killed. */
  predicate PartFine(s: State) {
    s.part.Some? ==> s.part.value in s.maker && s.maker[s.part.value] in s.calls
                     && (Owns(s, s.maker[s.part.value], s.part.value) || s.calls[s.maker[s.part.value]].Killed?)
  }

  ghost predicate Invariant(s: State, lock: Lock) {
    (forall id :: id in s.calls ==> CallFine(s, id, lock)) && PartFine(s) && s.maker.Keys <= s.data.Keys
    && (s.published.Some? && s.published.value.File? ==> s.published.value.file in s.data)
  }

  /** Nothing a step does disturbs a call that is not the one stepping. */
  lemma OthersStayFine(s: State, e: Event, lock: Lock, other: nat)
    requires Invariant(s, lock) && Step(s, e, lock).Some? && other in s.calls && other != e.id
    ensures other in Step(s, e, lock).value.calls && CallFine(Step(s, e, lock).value, other, lock)
  {
    assert CallFine(s, other, lock);
    if e.id in s.calls {
      assert CallFine(s, e.id, lock);
    }
  }

  lemma OwnStaysFine(s: State, e: Event, lock: Lock)
    requires Invariant(s, lock) && Step(s, e, lock).Some?
    ensures e.id in Step(s, e, lock).value.calls && CallFine(Step(s, e, lock).value, e.id, lock)
  {
    if e.id in s.calls {
      assert CallFine(s, e.id, lock);
    }
  }

  lemma PartStaysFine(s: State, e: Event, lock: Lock)
    requires Invariant(s, lock) && Step(s, e, lock).Some?
    ensures PartFine(Step(s, e, lock).value)
  {
    if e.id in s.calls {
      assert CallFine(s, e.id, lock);
    }
  }

  lemma StepKeepsInvariant(s: State, e: Event, lock: Lock)
    requires Invariant(s, lock) && Step(s, e, lock).Some?
    ensures Invariant(Step(s, e, lock).value, lock)
  {
    var t := Step(s, e, lock).value;
    PartStaysFine(s, e, lock);
    OwnStaysFine(s, e, lock);
    forall id | id in t.calls ensures CallFine(t, id, lock) {
      if id != e.id {
        OthersStayFine(s, e, lock, id);
      }
    }
    if e.id in s.calls {
      assert CallFine(s, e.id, lock);
    }
  }

  lemma {:induction false} RunKeepsInvariant(s: State, events: seq<Event>, lock: Lock)
    requires Invariant(s, lock) && Run(s, events, lock).Some?
    ensures Invariant(Run(s, events, lock).value, lock)
    decreases |events|
  {
    if events != [] {
      StepKeepsInvariant(s, events[0], lock);
      RunKeepsInvariant(Step(s, events[0], lock).value, events[1..], lock);
    }
  }

  lemma ReachableIsSound(s0: State, s: State, lock: Lock)
    requires Reachable(s0, s, lock)
    ensures Invariant(s, lock)
  {
    var events :| Run(s0, events, lock) == Some(s);
    RunKeepsInvariant(s0, events, lock);
  }

  // ---- what follows for every run ----

  /** At most one call owns a partial file, and it is the file that now has the name. */
  lemma AtMostOneOwner(s0: State, s: State, lock: Lock, a: nat, b: nat, i: nat, j: nat)
    requires Reachable(s0, s, lock) && Owns(s, a, i) && Owns(s, b, j)
    ensures a == b && i == j && s.part == Some(i)
  {
    ReachableIsSound(s0, s, lock);
    assert CallFine(s, a, lock) && CallFine(s, b, lock);
  }

  /** The partial name leaves a file only when the call that created that file removes it. */
  lemma OnlyItsOwnerUnlinks(s0: State, s: State, e: Event, lock: Lock, i: nat)
    requires Reachable(s0, s, lock) && s.part == Some(i) && Step(s, e, lock).Some?
             && Step(s, e, lock).value.part != Some(i)
    ensures e == Remove(e.id) && i in s.maker && s.maker[i] == e.id && Owns(s, e.id, i)
            && Step(s, e, lock).value.part == None
  {
    ReachableIsSound(s0, s, lock);
    assert CallFine(s, e.id, lock);
  }

  lemma StepKeepsPublished(s: State, e: Event, lock: Lock)
    requires Invariant(s, lock) && Step(s, e, lock).Some? && s.published.Some?
    ensures var t := Step(s, e, lock).value;
            t.published == s.published
            && (s.published.value.File? ==>
              s.published.value.file in t.data && t.data[s.published.value.file] == s.data[s.published.value.file])
  {
    if e.id in s.calls {
      assert CallFine(s, e.id, lock);
    }
  }

  /** Once something stands at the published name it stays, with the same content. */
  lemma {:induction false} PublishedStays(s: State, events: seq<Event>, lock: Lock)
    requires Invariant(s, lock) && Run(s, events, lock).Some? && s.published.Some?
    ensures var t := Run(s, events, lock).value;
            t.published == s.published
            && (s.published.value.File? ==>
                  s.published.value.file in s.data && s.published.value.file in t.data
                  && t.data[s.published.value.file] == s.data[s.published.value.file])
    decreases |events|
  {
    if events != [] {
      StepKeepsPublished(s, events[0], lock);
      StepKeepsInvariant(s, events[0], lock);
      PublishedStays(Step(s, events[0], lock).value, events[1..], lock);
    }
  }

  /** A call that returned leaves verified content at the published name, whatever stood there at first. */
  lemma ReturnedMeansVerified(s0: State, s: State, lock: Lock, id: nat)
    requires Reachable(s0, s, lock) && id in s.calls && s.calls[id].Returned?
    ensures Verifies(s.published, s, lock)
  {
    ReachableIsSound(s0, s, lock);
    assert CallFine(s, id, lock);
  }

  lemma StepPublishesVerified(s: State, e: Event, lock: Lock)
    requires Invariant(s, lock) && Step(s, e, lock).Some? && (s.published.Some? ==> Verifies(s.published, s, lock))
    ensures var t := Step(s, e, lock).value; t.published.Some? ==> Verifies(t.published, t, lock)
  {
    if s.published.Some? {
      StepKeepsPublished(s, e, lock);
    } else if e.id in s.calls {
      assert CallFine(s, e.id, lock);
    }
  }

  lemma {:induction false} RunPublishesVerified(s: State, events: seq<Event>, lock: Lock)
    requires Invariant(s, lock) && Run(s, events, lock).Some? && (s.published.Some? ==> Verifies(s.published, s, lock))
    ensures var t := Run(s, events, lock).value; t.published.Some? ==> Verifies(t.published, t, lock)
    decreases |events|
  {
    if events != [] {
      StepPublishesVerified(s, events[0], lock);
      StepKeepsInvariant(s, events[0], lock);
      RunPublishesVerified(Step(s, events[0], lock).value, events[1..], lock);
    }
  }

  /** From an empty or verified published name on, whatever stands there was verified against the lock. */
  lemma PublishedMeansVerified(s0: State, s: State, lock: Lock)
    requires Reachable(s0, s, lock) && (s0.published.Some? ==> Verifies(s0.published, s0, lock))
    ensures s.published.Some? ==> Verifies(s.published, s, lock)
  {
    var events :| Run(s0, events, lock) == Some(s);
    RunPublishesVerified(s0, events, lock);
  }

  // ---- how calls end ----

  /** The call has these phases only, and made no file. */
  ghost predicate KeepsTo(s: State, id: nat, phases: set<Phase>) {
    id in s.calls && s.calls[id] in phases && forall i :: i in s.maker ==> s.maker[i] != id
  }

  /** An offline call never creates a partial file: it looks, verifies what it finds, and returns or fails. */
  lemma {:induction false} OfflineNeverOpens(s: State, events: seq<Event>, id: nat, lock: Lock)
    requires Run(s, events, lock).Some? && Begin(id, true) in events
    requires id !in s.calls && forall i :: i in s.maker ==> s.maker[i] != id
    ensures KeepsTo(Run(s, events, lock).value, id, {Checking(true), Rechecking, Returned, Failed, Killed})
    decreases |events|
  {
    var t := Step(s, events[0], lock).value;
    if events[0] == Begin(id, true) {
      OfflineStays(t, events[1..], id, lock);
    } else if events[0].id == id {
      BeginsOnce(t, events[1..], id, true, lock);
    } else {
      OfflineNeverOpens(t, events[1..], id, lock);
    }
  }

  lemma {:induction false} OfflineStays(s: State, events: seq<Event>, id: nat, lock: Lock)
    requires Run(s, events, lock).Some?
    requires KeepsTo(s, id, {Checking(true), Rechecking, Returned, Failed, Killed})
    ensures KeepsTo(Run(s, events, lock).value, id, {Checking(true), Rechecking, Returned, Failed, Killed})
    decreases |events|
  {
    if events != [] {
      OfflineStep(s, events[0], id, lock);
      OfflineStays(Step(s, events[0], lock).value, events[1..], id, lock);
    }
  }

  lemma OfflineStep(s: State, e: Event, id: nat, lock: Lock)
    requires Step(s, e, lock).Some? && KeepsTo(s, id, {Checking(true), Rechecking, Returned, Failed, Killed})
    ensures KeepsTo(Step(s, e, lock).value, id, {Checking(true), Rechecking, Returned, Failed, Killed})
  {
  }

  lemma {:induction false} BeginsOnce(s: State, events: seq<Event>, id: nat, offline: bool, lock: Lock)
    requires Run(s, events, lock).Some? && id in s.calls
    ensures Begin(id, offline) !in events
    decreases |events|
  {
    if events != [] {
      BeginsOnce(Step(s, events[0], lock).value, events[1..], id, offline, lock);
    }
  }

  /** Where verified content is published, a call that has opened nothing can only return, unless it is killed. */
  lemma {:induction false} FinderReturns(s: State, events: seq<Event>, id: nat, offline: bool, lock: Lock)
    requires Invariant(s, lock) && Run(s, events, lock).Some? && Verifies(s.published, s, lock)
    requires id in s.calls && s.calls[id] in {Checking(offline), Rechecking, Returned, Killed}
    ensures id in Run(s, events, lock).value.calls
    ensures Run(s, events, lock).value.calls[id] in {Checking(offline), Rechecking, Returned, Killed}
    decreases |events|
  {
    if events != [] {
      FinderStep(s, events[0], id, offline, lock);
      StepKeepsInvariant(s, events[0], lock);
      FinderReturns(Step(s, events[0], lock).value, events[1..], id, offline, lock);
    }
  }

  lemma FinderStep(s: State, e: Event, id: nat, offline: bool, lock: Lock)
    requires Invariant(s, lock) && Step(s, e, lock).Some? && Verifies(s.published, s, lock)
    requires id in s.calls && s.calls[id] in {Checking(offline), Rechecking, Returned, Killed}
    ensures Verifies(Step(s, e, lock).value.published, Step(s, e, lock).value, lock)
    ensures id in Step(s, e, lock).value.calls
    ensures Step(s, e, lock).value.calls[id] in {Checking(offline), Rechecking, Returned, Killed}
  {
    StepPublishesVerified(s, e, lock);
    StepKeepsPublished(s, e, lock);
  }

  /** The call that publishes has its own file published, and can only remove the partial name and return. */
  lemma PublisherReturns(s: State, e: Event, events: seq<Event>, lock: Lock)
    requires Invariant(s, lock) && s.published.None? && Step(s, e, lock).Some?
    requires Step(s, e, lock).value.published.Some? && Run(Step(s, e, lock).value, events, lock).Some?
    ensures e == Link(e.id) && e.id in s.calls && s.calls[e.id].Linking?
    ensures Step(s, e, lock).value.published == Some(File(s.calls[e.id].file))
    ensures e.id in Run(Step(s, e, lock).value, events, lock).value.calls
    ensures Run(Step(s, e, lock).value, events, lock).value.calls[e.id]
            in {Removing(s.calls[e.id].file, true), Returned, Killed}
  {
    assert CallFine(s, e.id, lock);
    StepKeepsInvariant(s, e, lock);
    SuccessReturns(Step(s, e, lock).value, events, e.id, s.calls[e.id].file, lock);
  }

  /** A call that succeeded before its clean-up returns. */
  lemma {:induction false} SuccessReturns(s: State, events: seq<Event>, id: nat, file: nat, lock: Lock)
    requires Invariant(s, lock) && Run(s, events, lock).Some?
    requires id in s.calls && s.calls[id] in {Removing(file, true), Returned, Killed}
    ensures id in Run(s, events, lock).value.calls
    ensures Run(s, events, lock).value.calls[id] in {Removing(file, true), Returned, Killed}
    decreases |events|
  {
    if events != [] {
      SuccessStep(s, events[0], id, file, lock);
      StepKeepsInvariant(s, events[0], lock);
      SuccessReturns(Step(s, events[0], lock).value, events[1..], id, file, lock);
    }
  }

  lemma SuccessStep(s: State, e: Event, id: nat, file: nat, lock: Lock)
    requires Invariant(s, lock) && Step(s, e, lock).Some?
    requires id in s.calls && s.calls[id] in {Removing(file, true), Returned, Killed}
    ensures id in Step(s, e, lock).value.calls
    ensures Step(s, e, lock).value.calls[id] in {Removing(file, true), Returned, Killed}
  {
    assert CallFine(s, id, lock);
  }

  /** A call that was beaten to the name succeeds exactly if what stands there verifies; a bad download never does. */
  lemma FailureStays(s: State, e: Event, lock: Lock, i: nat)
    requires Invariant(s, lock) && Step(s, e, lock).Some? && e.id in s.calls && Owns(s, e.id, i)
    ensures var after := Step(s, e, lock).value.calls[e.id];
            (s.calls[e.id].Comparing? && !e.Kill? ==> after == Removing(i, Verifies(s.published, s, lock)))
            && (s.calls[e.id].Verifying? && !e.Kill? ==> (after.Linking? <==> Good(s.data[i], lock)))
            && (s.calls[e.id] == Removing(i, false) && !e.Kill? ==> after == Failed)
            && (after == Removing(i, true) ==> s.calls[e.id].Linking? || s.calls[e.id].Comparing?)
  {
    assert CallFine(s, e.id, lock);
  }

  /** The download broke off, was larger than the lock says, or did not verify. */
  predicate GoesWrong(s: State, e: Event, i: nat, lock: Lock)
    requires e.id in s.calls
  {
    i in s.data
    && ((s.calls[e.id] == Writing(i) && e == Close(e.id, false))
        || (s.calls[e.id] == Writing(i) && e.Write? && |s.data[i]| + |e.block| > lock.size)
        || (s.calls[e.id] == Verifying(i) && e.Verify? && !Good(s.data[i], lock)))
  }

  /** Then the call can only remove its file and fail. */
  lemma WrongDownloadFails(s: State, e: Event, events: seq<Event>, i: nat, lock: Lock)
    requires Invariant(s, lock) && e.id in s.calls && GoesWrong(s, e, i, lock)
    requires Step(s, e, lock).Some? && Run(Step(s, e, lock).value, events, lock).Some?
    ensures e.id in Run(Step(s, e, lock).value, events, lock).value.calls
    ensures Run(Step(s, e, lock).value, events, lock).value.calls[e.id] in {Removing(i, false), Failed, Killed}
  {
    assert CallFine(s, e.id, lock);
    FailingFails(Step(s, e, lock).value, events, e.id, i, lock);
  }

  lemma {:induction false} FailingFails(s: State, events: seq<Event>, id: nat, file: nat, lock: Lock)
    requires Run(s, events, lock).Some? && id in s.calls && s.calls[id] in {Removing(file, false), Failed, Killed}
    ensures id in Run(s, events, lock).value.calls
    ensures Run(s, events, lock).value.calls[id] in {Removing(file, false), Failed, Killed}
    decreases |events|
  {
    if events != [] {
      FailingStep(s, events[0], id, file, lock);
      FailingFails(Step(s, events[0], lock).value, events[1..], id, file, lock);
    }
  }

  lemma FailingStep(s: State, e: Event, id: nat, file: nat, lock: Lock)
    requires Step(s, e, lock).Some? && id in s.calls && s.calls[id] in {Removing(file, false), Failed, Killed}
    ensures id in Step(s, e, lock).value.calls
    ensures Step(s, e, lock).value.calls[id] in {Removing(file, false), Failed, Killed}
  {
  }

  // ---- when publication is still possible ----

  /** A killed call left its partial file behind. */
  predicate Stale(s: State) {
    s.part.Some? && s.part.value in s.maker && s.maker[s.part.value] in s.calls
    && s.calls[s.maker[s.part.value]].Killed?
  }

  lemma StaleStep(s: State, e: Event, lock: Lock)
    requires Invariant(s, lock) && Stale(s) && Step(s, e, lock).Some?
    ensures Stale(Step(s, e, lock).value) && Step(s, e, lock).value.published == s.published
  {
    if e.id in s.calls {
      assert CallFine(s, e.id, lock);
    }
  }

  /** A stale partial file stays, and nothing is published any more. */
  lemma {:induction false} StaleForever(s: State, events: seq<Event>, lock: Lock)
    requires Invariant(s, lock) && Stale(s) && Run(s, events, lock).Some?
    ensures Stale(Run(s, events, lock).value) && Run(s, events, lock).value.published == s.published
    decreases |events|
  {
    if events != [] {
      StaleStep(s, events[0], lock);
      StepKeepsInvariant(s, events[0], lock);
      StaleForever(Step(s, events[0], lock).value, events[1..], lock);
    }
  }

  lemma {:induction false} RunAppend(s: State, a: seq<Event>, b: seq<Event>, lock: Lock)
    requires Run(s, a, lock).Some?
    ensures Run(s, a + b, lock) == Run(Run(s, a, lock).value, b, lock)
    decreases |a|
  {
    if a == [] {
      assert a + b == b;
    } else {
      assert (a + b)[1..] == a[1..] + b;
      RunAppend(Step(s, a[0], lock).value, a[1..], b, lock);
    }
  }

  lemma Then(s: State, events: seq<Event>, t: State, e: Event, lock: Lock) returns (more: seq<Event>, u: State)
    requires Run(s, events, lock) == Some(t) && Step(t, e, lock).Some?
    ensures Run(s, more, lock) == Some(u) && Step(t, e, lock) == Some(u)
  {
    u := Step(t, e, lock).value;
    assert Run(u, [e][1..], lock) == Some(u);
    RunAppend(s, events, [e], lock);
    more := events + [e];
  }

  /** The owner of the partial file can always remove it. */
  lemma OwnerCanRemove(s: State, id: nat, i: nat, lock: Lock) returns (events: seq<Event>, t: State)
    requires Invariant(s, lock) && s.published.None? && Owns(s, id, i)
    ensures Run(s, events, lock) == Some(t) && (t.published.Some? || t.part.None?) && t.calls.Keys == s.calls.Keys
            && t.data == s.data
  {
    assert CallFine(s, id, lock);
    events, t := [], s;
    if t.calls[id].Writing? {
      events, t := Then(s, events, t, Close(id, false), lock);
    }
    if t.calls[id].Verifying? {
      events, t := Then(s, events, t, Verify(id), lock);
    }
    if t.calls[id].Linking? {
      events, t := Then(s, events, t, Link(id), lock);
    }
    if t.calls[id].Comparing? {
      events, t := Then(s, events, t, Compare(id), lock);
    }
    if t.published.None? {
      events, t := Then(s, events, t, Remove(id), lock);
    }
  }

  lemma FreshCallOpens(s: State, id: nat, file: nat, lock: Lock) returns (events: seq<Event>, t: State)
    requires s.published.None? && s.part.None? && id !in s.calls && file !in s.data
    ensures Run(s, events, lock) == Some(t) && t.published.None? && t.part == Some(file)
    ensures id in t.calls && t.calls[id] == Writing(file) && file in t.data && t.data[file] == ""
  {
    events, t := Then(s, [], s, Begin(id, false), lock);
    events, t := Then(s, events, t, Look(id), lock);
    events, t := Then(s, events, t, Open(id, file), lock);
  }

  lemma WriterCompletes(s: State, id: nat, file: nat, content: Bytes, lock: Lock) returns (events: seq<Event>, t: State)
    requires s.published.None? && s.part == Some(file) && id in s.calls && s.calls[id] == Writing(file)
    requires file in s.data && s.data[file] == "" && Good(content, lock)
    ensures Run(s, events, lock) == Some(t) && t.published.None? && t.part == Some(file)
    ensures id in t.calls && t.calls[id] == Verifying(file) && file in t.data && t.data[file] == content
  {
    assert "" + content == content;
    events, t := Then(s, [], s, Write(id, content), lock);
    events, t := Then(s, events, t, Close(id, true), lock);
  }

  lemma VerifierPublishes(s: State, id: nat, file: nat, lock: Lock) returns (events: seq<Event>, t: State)
    requires s.published.None? && s.part == Some(file) && id in s.calls && s.calls[id] == Verifying(file)
    requires file in s.data && Good(s.data[file], lock)
    ensures Run(s, events, lock) == Some(t) && t.published == Some(File(file))
  {
    events, t := Then(s, [], s, Verify(id), lock);
    events, t := Then(s, events, t, Link(id), lock);
  }

  /** Without a partial file, a fresh call that receives the locked content publishes it. */
  lemma FreshCallPublishes(s: State, id: nat, file: nat, content: Bytes, lock: Lock)
    returns (events: seq<Event>, t: State)
    requires s.published.None? && s.part.None? && id !in s.calls && file !in s.data && Good(content, lock)
    ensures Run(s, events, lock) == Some(t) && t.published == Some(File(file))
  {
    var first, begun := FreshCallOpens(s, id, file, lock);
    var second, written := WriterCompletes(begun, id, file, content, lock);
    var third;
    third, t := VerifierPublishes(written, id, file, lock);
    RunAppend(s, first, second, lock);
    RunAppend(s, first + second, third, lock);
    events := first + second + third;
  }

  lemma {:induction false} Fresh(used: set<nat>) returns (n: nat)
    ensures n !in used && forall k :: k in used ==> k < n
  {
    if used == {} {
      return 0;
    }
    var x :| x in used;
    var m := Fresh(used - {x});
    n := if x < m then m else x + 1;
    forall k | k in used ensures k < n {
      assert k == x || k in used - {x};
    }
  }

  ghost predicate CanStillPublish(s: State, lock: Lock) {
    exists events :: Run(s, events, lock).Some? && Run(s, events, lock).value.published.Some?
  }

  /**
   While nothing is published, publication stays possible exactly as long as no killed call has left its partial file
   behind.
   */
  lemma PublicationPossible(s0: State, s: State, content: Bytes, lock: Lock)
    requires Reachable(s0, s, lock) && s.published.None? && Good(content, lock)
    ensures CanStillPublish(s, lock) <==> !Stale(s)
  {
    ReachableIsSound(s0, s, lock);
    if Stale(s) {
      forall events | Run(s, events, lock).Some? ensures Run(s, events, lock).value.published.None? {
        StaleForever(s, events, lock);
      }
    } else {
      var events, t := [], s;
      if s.part.Some? {
        events, t := OwnerCanRemove(s, s.maker[s.part.value], s.part.value, lock);
      }
      if t.published.None? {
        var id := Fresh(t.calls.Keys);
        var file := Fresh(t.data.Keys);
        var more, u := FreshCallPublishes(t, id, file, content, lock);
        RunAppend(s, events, more, lock);
        events := events + more;
      }
      assert Run(s, events, lock).Some? && Run(s, events, lock).value.published.Some?;
    }
  }
}
