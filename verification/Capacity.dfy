/**
 The three nested pools of tokens behind one endpoint: four admission slots and two pipeline tokens
 in each service, and two adapter tokens in the whole process. A run is any interleaving of requests,
 awaits that return, awaits that are cancelled or time out, and worker threads.
 */
module Capacity {
  import opened Collections
  import opened Results

  /** What a request handler is suspended on. */
  datatype Phase = Authenticating | Reserving | Reading | Awaiting | Ended

  datatype Handler = Handler(service: nat, phase: Phase)

  /** A submitted calculation and the native calls it still has to make. */
  datatype Work = Queued(calls: nat) | Running(calls: nat) | Native(calls: nat) | Done

  datatype Job = Job(service: nat, work: Work)

  datatype Kind = SlotTaken | SlotFreed | Granted | PipelineTaken | PipelineFreed | AdapterTaken | AdapterFreed
    | AdapterBusy

  datatype Effect = Effect(kind: Kind, id: nat)

  /** The pools, the handlers and jobs by request, and everything that was taken and freed so far. */
  datatype State = State(slots: seq<nat>, pipeline: seq<nat>, adapter: nat,
                         handlers: map<nat, Handler>, jobs: map<nat, Job>, ledger: multiset<Effect>)

  datatype Event =
    | Arrives(id: nat, service: nat, wellFormed: bool)
    | Authenticated(id: nat, accepted: bool)
    | QuotaAnswered(id: nat, granted: bool)
    | BodyRead(id: nat, valid: bool, lahiri: bool, submits: bool)
    | Cancelled(id: nat)
    | Starts(id: nat)
    | EntersAdapter(id: nat)
    | LeavesAdapter(id: nat, succeeded: bool)
    | Finishes(id: nat)
    | Answered(id: nat)

  function Init(services: nat): State {
    State(seq(services, _ => 4), seq(services, _ => 2), 2, map[], map[], multiset{})
  }

  function Note(s: State, kind: Kind, id: nat): State { s.(ledger := s.ledger + multiset{Effect(kind, id)}) }

  function SetHandler(s: State, id: nat, h: Handler): State { s.(handlers := s.handlers[id := h]) }

  function SetWork(s: State, id: nat, work: Work): State
    requires id in s.jobs
  {
    s.(jobs := s.jobs[id := s.jobs[id].(work := work)])
  }

  /** The handler's finally: whatever ends it, its slot goes back. */
  function End(s: State, id: nat): State
    requires id in s.handlers && s.handlers[id].service < |s.slots|
  {
    var h := s.handlers[id];
    Note(SetHandler(s, id, h.(phase := Ended)).(slots := s.slots[h.service := s.slots[h.service] + 1]), SlotFreed, id)
  }

  /** get_nowait on the admission queue, or busy. */
  function Admit(s: State, id: nat, service: nat): State
    requires service < |s.slots|
  {
    if s.slots[service] == 0 then SetHandler(s, id, Handler(service, Ended))
    else Note(SetHandler(s, id, Handler(service, Authenticating)).(slots := s.slots[service := s.slots[service] - 1]),
        SlotTaken, id)
  }

  /**
   _submit up to its await: busy, or a token for a queued job; the token goes back if the executor refuses the job.
   */
  function Submit(s: State, id: nat, calls: nat, submits: bool): State
    requires id in s.handlers && s.handlers[id].service < |s.slots| == |s.pipeline|
  {
    var service := s.handlers[id].service;
    if s.pipeline[service] == 0 then End(s, id)
    else if !submits then Note(Note(End(s, id), PipelineTaken, id), PipelineFreed, id)
    else
      var t := Note(s, PipelineTaken, id).(pipeline := s.pipeline[service := s.pipeline[service] - 1]);
      SetHandler(t, id, Handler(service, Awaiting)).(jobs := s.jobs[id := Job(service, Queued(calls))])
  }

  /** The adapter's acquire without waiting: a native call, or its busy error, which ends the calculation. */
  function Enter(s: State, id: nat, calls: nat): State
    requires id in s.jobs
  {
    if s.adapter == 0 then Note(SetWork(s, id, Running(0)), AdapterBusy, id)
    else Note(SetWork(s, id, Native(calls)).(adapter := s.adapter - 1), AdapterTaken, id)
  }

  /** The adapter's finally; a failed call leaves no more calls to make. */
  function Leave(s: State, id: nat, calls: nat): State
    requires id in s.jobs
  {
    Note(SetWork(s, id, Running(calls)).(adapter := s.adapter + 1), AdapterFreed, id)
  }

  /** The worker's finally: the pipeline token goes back. */
  function Finish(s: State, id: nat): State
    requires id in s.jobs && s.jobs[id].service < |s.pipeline|
  {
    var service := s.jobs[id].service;
    Note(SetWork(s, id, Done).(pipeline := s.pipeline[service := s.pipeline[service] + 1]), PipelineFreed, id)
  }

  predicate In(s: State, id: nat, phase: Phase) {
    id in s.handlers && s.handlers[id].phase == phase && s.handlers[id].service < |s.slots| == |s.pipeline|
  }

  predicate HasJob(s: State, id: nat) { id in s.jobs && s.jobs[id].service < |s.pipeline| }

  /** One step; None where the event cannot happen. */
  function Step(s: State, e: Event): Option<State> {
    match e
    case Arrives(id, service, wellFormed) =>
      if id in s.handlers || service >= |s.slots| then None
      else Some(if wellFormed then Admit(s, id, service) else SetHandler(s, id, Handler(service, Ended)))
    case Authenticated(id, accepted) =>
      if !In(s, id, Authenticating) then None
      else Some(if accepted then SetHandler(s, id, s.handlers[id].(phase := Reserving)) else End(s, id))
    case QuotaAnswered(id, granted) =>
      if !In(s, id, Reserving) then None
      else Some(if granted then Note(SetHandler(s, id, s.handlers[id].(phase := Reading)), Granted, id) else End(s, id))
    case BodyRead(id, valid, lahiri, submits) =>
      if !In(s, id, Reading) then None
      else Some(if valid then Submit(s, id, if lahiri then 2 else 1, submits) else End(s, id))
    case Cancelled(id) =>
      if !(id in s.handlers && s.handlers[id].phase != Ended && In(s, id, s.handlers[id].phase)) then None
      else Some(End(s, id))
    case Starts(id) =>
      if HasJob(s, id) && s.jobs[id].work.Queued? then Some(SetWork(s, id, Running(s.jobs[id].work.calls))) else None
    case EntersAdapter(id) =>
      if HasJob(s, id) && s.jobs[id].work.Running? && s.jobs[id].work.calls > 0
        then Some(Enter(s, id, s.jobs[id].work.calls)) else None
    case LeavesAdapter(id, succeeded) =>
      if HasJob(s, id) && s.jobs[id].work.Native? then
        Some(Leave(s, id, if succeeded && s.jobs[id].work.calls > 0 then s.jobs[id].work.calls - 1 else 0))
      else None
    case Finishes(id) =>
      if HasJob(s, id) && s.jobs[id].work.Running? then Some(Finish(s, id)) else None
    case Answered(id) =>
      if In(s, id, Awaiting) && id in s.jobs && s.jobs[id].work.Done? then Some(End(s, id)) else None
  }

  function Run(s: State, events: seq<Event>): Option<State>
    decreases |events|
  {
    if events == [] then Some(s)
    else match Step(s, events[0]) case None => None case Some(t) => Run(t, events[1..])
  }

  ghost predicate Reachable(services: nat, s: State) { exists events :: Run(Init(services), events) == Some(s) }

  // ---- counting ----

  function Who<V>(m: map<nat, V>, p: V -> bool): set<nat> { set k | k in m && p(m[k]) }

  function InsideOf(service: nat): Handler -> bool { (h: Handler) => h.service == service && h.phase != Ended }

  function AliveIn(service: nat): Job -> bool { (j: Job) => j.service == service && j.work != Done }

  function Calling(): Job -> bool { (j: Job) => j.work.Native? }

  function Bit(b: bool): nat { if b then 1 else 0 }

  lemma WhoUpdate<V>(m: map<nat, V>, k: nat, v: V, p: V -> bool)
    ensures |Who(m[k := v], p)| == |Who(m, p)| - Bit(k in m && p(m[k])) + Bit(p(v))
  {
    var rest := Who(m, p) - {k};
    assert Who(m[k := v], p) == if p(v) then rest + {k} else rest;
    assert Who(m, p) == if k in m && p(m[k]) then rest + {k} else rest;
  }

  /** Every token is in its pool or with exactly one handler, live job or native call. */
  ghost predicate Conserved(s: State) {
    |s.slots| == |s.pipeline|
    && (forall a :: 0 <= a < |s.slots| ==> s.slots[a] + |Who(s.handlers, InsideOf(a))| == 4)
    && (forall a :: 0 <= a < |s.pipeline| ==> s.pipeline[a] + |Who(s.jobs, AliveIn(a))| == 2)
    && s.adapter + |Who(s.jobs, Calling())| == 2
  }

  lemma HandlerUpdate(s: State, id: nat, h: Handler, a: nat)
    ensures |Who(s.handlers[id := h], InsideOf(a))| == |Who(s.handlers, InsideOf(a))|
            - Bit(id in s.handlers && InsideOf(a)(s.handlers[id])) + Bit(InsideOf(a)(h))
  {
    WhoUpdate(s.handlers, id, h, InsideOf(a));
  }

  lemma JobUpdate(s: State, id: nat, j: Job, a: nat)
    ensures |Who(s.jobs[id := j], AliveIn(a))| == |Who(s.jobs, AliveIn(a))|
            - Bit(id in s.jobs && AliveIn(a)(s.jobs[id])) + Bit(AliveIn(a)(j))
    ensures |Who(s.jobs[id := j], Calling())| == |Who(s.jobs, Calling())|
            - Bit(id in s.jobs && Calling()(s.jobs[id])) + Bit(Calling()(j))
  {
    WhoUpdate(s.jobs, id, j, AliveIn(a));
    WhoUpdate(s.jobs, id, j, Calling());
  }

  /** Replacing a handler moves its own service's slots by as much as it changes who is inside. */
  lemma HandlerMoves(s: State, t: State, id: nat, h: Handler)
    requires Conserved(s) && h.service < |s.slots| && (id in s.handlers ==> s.handlers[id].service == h.service)
    requires t.handlers == s.handlers[id := h] && t.pipeline == s.pipeline && t.adapter == s.adapter && t.jobs == s.jobs
    requires |t.slots| == |s.slots| && forall a :: 0 <= a < |s.slots| && a != h.service ==> t.slots[a] == s.slots[a]
    requires t.slots[h.service] + Bit(h.phase != Ended)
             == s.slots[h.service] + Bit(id in s.handlers && s.handlers[id].phase != Ended)
    ensures Conserved(t)
  {
    forall a | 0 <= a < |s.slots| ensures t.slots[a] + |Who(t.handlers, InsideOf(a))| == 4 {
      HandlerUpdate(s, id, h, a);
    }
  }

  /** Likewise for a job, its service's pipeline tokens and the adapter's. */
  lemma JobMoves(s: State, t: State, id: nat, j: Job)
    requires Conserved(s) && j.service < |s.pipeline| && (id in s.jobs ==> s.jobs[id].service == j.service)
    requires t.jobs == s.jobs[id := j] && t.slots == s.slots && t.handlers == s.handlers
    requires |t.pipeline| == |s.pipeline| && forall a :: 0 <= a < |s.pipeline| && a != j.service ==>
             t.pipeline[a] == s.pipeline[a]
    requires t.pipeline[j.service] + Bit(j.work != Done)
             == s.pipeline[j.service] + Bit(id in s.jobs && s.jobs[id].work != Done)
    requires t.adapter + Bit(j.work.Native?) == s.adapter + Bit(id in s.jobs && s.jobs[id].work.Native?)
    ensures Conserved(t)
  {
    forall a | 0 <= a < |s.pipeline| ensures t.pipeline[a] + |Who(t.jobs, AliveIn(a))| == 2 {
      JobUpdate(s, id, j, a);
    }
    JobUpdate(s, id, j, j.service);
  }

  // ---- the ledger of one request ----

  function Times(s: State, kind: Kind, id: nat): nat { s.ledger[Effect(kind, id)] }

  predicate IsInside(s: State, id: nat) { id in s.handlers && s.handlers[id].phase != Ended }

  predicate IsAlive(s: State, id: nat) { id in s.jobs && s.jobs[id].work != Done }

  predicate IsCalling(s: State, id: nat) { id in s.jobs && s.jobs[id].work.Native? }

  /** How many native calls the job may still begin, the one under way included. */
  function CallsLeft(s: State, id: nat): nat {
    if id !in s.jobs then 2 else match s.jobs[id].work case Done => 0 case _ => s.jobs[id].work.calls
  }

  predicate BeforeSubmit(s: State, id: nat)
  {
    id !in s.handlers || s.handlers[id].phase in {Authenticating, Reserving, Reading}
  }

  /** A request takes its slot at most once and two adapter tokens at most; all are freed as often as no longer held. */
  predicate Balanced(s: State, id: nat) {
    Times(s, SlotTaken, id) == Times(s, SlotFreed, id) + Bit(IsInside(s, id))
    && Times(s, PipelineTaken, id) == Times(s, PipelineFreed, id) + Bit(IsAlive(s, id))
    && Times(s, AdapterTaken, id) == Times(s, AdapterFreed, id) + Bit(IsCalling(s, id))
    && Times(s, SlotTaken, id) <= Bit(id in s.handlers)
    && Times(s, AdapterTaken, id) + CallsLeft(s, id) <= 2 + Bit(IsCalling(s, id))
    && (IsCalling(s, id) ==> s.jobs[id].work.calls > 0)
  }

  /** What happened before: no calculation without a quota grant, no grant without an admission. */
  predicate Ordered(s: State, id: nat) {
    Times(s, PipelineTaken, id) <= Times(s, Granted, id) <= Times(s, SlotTaken, id)
    && (BeforeSubmit(s, id) ==> Times(s, PipelineTaken, id) == 0 && id !in s.jobs)
    && (id !in s.handlers || s.handlers[id].phase in {Authenticating, Reserving} ==> Times(s, Granted, id) == 0)
    && (In(s, id, Reading) ==> Times(s, Granted, id) == 1)
    && (id in s.handlers && s.handlers[id].phase == Awaiting ==> id in s.jobs)
    && (id in s.jobs ==>
          Times(s, PipelineTaken, id) == 1 && id in s.handlers && s.jobs[id].service == s.handlers[id].service)
    && (id in s.handlers ==> s.handlers[id].service < |s.slots|)
  }

  predicate Fine(s: State, id: nat) { Balanced(s, id) && Ordered(s, id) }

  ghost predicate Invariant(s: State) {
    Conserved(s) && forall id: nat :: Fine(s, id)
  }

  // ---- one step keeps the invariant ----

  lemma EndConserves(s: State, id: nat)
    requires Conserved(s) && IsInside(s, id) && s.handlers[id].service < |s.slots|
    ensures Conserved(End(s, id))
  {
    HandlerMoves(s, End(s, id), id, s.handlers[id].(phase := Ended));
  }

  lemma AdmitConserves(s: State, id: nat, service: nat, wellFormed: bool)
    requires Conserved(s) && service < |s.slots| && id !in s.handlers
    ensures Conserved(Admit(s, id, service)) && Conserved(SetHandler(s, id, Handler(service, Ended)))
  {
    HandlerMoves(s, Admit(s, id, service), id, Admit(s, id, service).handlers[id]);
    HandlerMoves(s, SetHandler(s, id, Handler(service, Ended)), id, Handler(service, Ended));
  }

  lemma SubmitConserves(s: State, id: nat, calls: nat, submits: bool)
    requires Conserved(s) && In(s, id, Reading) && id !in s.jobs
    ensures Conserved(Submit(s, id, calls, submits))
  {
    EndConserves(s, id);
    var service := s.handlers[id].service;
    var moved := SetHandler(s, id, Handler(service, Awaiting));
    HandlerMoves(s, moved, id, Handler(service, Awaiting));
    if s.pipeline[service] != 0 && submits {
      JobMoves(moved, Submit(s, id, calls, submits), id, Job(service, Queued(calls)));
    }
  }

  lemma StepConserves(s: State, e: Event)
    requires Conserved(s) && Ordered(s, e.id) && Step(s, e).Some?
    ensures Conserved(Step(s, e).value)
  {
    var t, id := Step(s, e).value, e.id;
    match e
    case Arrives(_, service, wellFormed) => AdmitConserves(s, id, service, wellFormed);
    case BodyRead(_, valid, lahiri, submits) =>
      if valid { SubmitConserves(s, id, if lahiri then 2 else 1, submits); } else { EndConserves(s, id); }
    case Authenticated(_, accepted) =>
      if accepted { HandlerMoves(s, t, id, t.handlers[id]); } else { EndConserves(s, id); }
    case QuotaAnswered(_, granted) =>
      if granted { HandlerMoves(s, t, id, t.handlers[id]); } else { EndConserves(s, id); }
    case Cancelled(_) => EndConserves(s, id);
    case Answered(_) => EndConserves(s, id);
    case _ => JobMoves(s, t, id, t.jobs[id]);
  }

  lemma NoteCounts(s: State, kind: Kind, id: nat)
    ensures forall k: Kind, i: nat :: Times(Note(s, kind, id), k, i) == Times(s, k, i) + Bit(k == kind && i == id)
  {
  }

  lemma EndFine(s: State, id: nat)
    requires Fine(s, id) && IsInside(s, id)
    ensures Fine(End(s, id), id)
  {
    NoteCounts(SetHandler(s, id, s.handlers[id].(phase := Ended)), SlotFreed, id);
  }

  lemma ArrivesFine(s: State, id: nat, service: nat, wellFormed: bool)
    requires Fine(s, id) && id !in s.handlers && service < |s.slots|
    ensures Fine(Admit(s, id, service), id) && Fine(SetHandler(s, id, Handler(service, Ended)), id)
  {
    NoteCounts(s, SlotTaken, id);
  }

  lemma PhaseFine(s: State, id: nat)
    requires Fine(s, id)
    ensures In(s, id, Authenticating) ==> Fine(SetHandler(s, id, s.handlers[id].(phase := Reserving)), id)
    ensures In(s, id, Reserving) ==> Fine(Note(SetHandler(s, id, s.handlers[id].(phase := Reading)), Granted, id), id)
  {
    NoteCounts(s, Granted, id);
  }

  lemma SubmitFine(s: State, id: nat, calls: nat, submits: bool)
    requires Fine(s, id) && In(s, id, Reading) && calls <= 2
    ensures Fine(Submit(s, id, calls, submits), id)
  {
    var end := End(s, id);
    EndFine(s, id);
    NoteCounts(s, PipelineTaken, id);
    NoteCounts(end, PipelineTaken, id);
    NoteCounts(Note(end, PipelineTaken, id), PipelineFreed, id);
  }

  lemma StartFine(s: State, id: nat)
    requires Fine(s, id) && HasJob(s, id) && s.jobs[id].work.Queued?
    ensures Fine(SetWork(s, id, Running(s.jobs[id].work.calls)), id)
  {
  }

  lemma EnterFine(s: State, id: nat)
    requires Fine(s, id) && HasJob(s, id) && s.jobs[id].work.Running? && s.jobs[id].work.calls > 0
    ensures Fine(Enter(s, id, s.jobs[id].work.calls), id)
  {
    NoteCounts(s, AdapterBusy, id);
    NoteCounts(s, AdapterTaken, id);
  }

  lemma LeaveFine(s: State, id: nat, calls: nat)
    requires Fine(s, id) && HasJob(s, id) && s.jobs[id].work.Native? && calls < s.jobs[id].work.calls
    ensures Fine(Leave(s, id, calls), id)
  {
    NoteCounts(s, AdapterFreed, id);
  }

  lemma FinishFine(s: State, id: nat)
    requires Fine(s, id) && HasJob(s, id) && s.jobs[id].work.Running?
    ensures Fine(Finish(s, id), id)
  {
    NoteCounts(s, PipelineFreed, id);
  }

  lemma StepFine(s: State, e: Event)
    requires |s.slots| == |s.pipeline| && Fine(s, e.id) && Step(s, e).Some?
    ensures Fine(Step(s, e).value, e.id)
  {
    match e
    case Arrives(id, service, wellFormed) => ArrivesFine(s, id, service, wellFormed);
    case Authenticated(id, accepted) => PhaseFine(s, id); EndFine(s, id);
    case QuotaAnswered(id, granted) => PhaseFine(s, id); EndFine(s, id);
    case BodyRead(id, valid, lahiri, submits) => SubmitFine(s, id, if lahiri then 2 else 1, submits); EndFine(s, id);
    case Cancelled(id) => EndFine(s, id);
    case Starts(id) => StartFine(s, id);
    case EntersAdapter(id) => EnterFine(s, id);
    case LeavesAdapter(id, succeeded) => LeaveFine(s, id, if succeeded then s.jobs[id].work.calls - 1 else 0);
    case Finishes(id) => FinishFine(s, id);
    case Answered(id) => EndFine(s, id);
  }

  /** Nothing of this request differs between two states. */
  predicate Same(s: State, t: State, id: nat) {
    |t.slots| == |s.slots| && |t.pipeline| == |s.pipeline|
    && (id in t.handlers <==> id in s.handlers) && (id in s.handlers ==> t.handlers[id] == s.handlers[id])
    && (id in t.jobs <==> id in s.jobs) && (id in s.jobs ==> t.jobs[id] == s.jobs[id])
    && Counted(s, t, id)
  }

  predicate Counted(s: State, t: State, id: nat) { forall kind :: Times(t, kind, id) == Times(s, kind, id) }

  lemma SameFine(s: State, t: State, id: nat)
    requires Same(s, t, id) && Fine(s, id)
    ensures Fine(t, id)
  {
    forall kind: Kind ensures Times(t, kind, id) == Times(s, kind, id) {
      assert Counted(s, t, id);
    }
  }

  lemma NoteSame(s: State, t: State, kind: Kind, id: nat, other: nat)
    requires Same(s, t, other) && other != id
    ensures Same(s, Note(t, kind, id), other)
  {
    forall k: Kind ensures Times(Note(t, kind, id), k, other) == Times(s, k, other) {
      assert Effect(kind, id) != Effect(k, other);
      assert Times(t, k, other) == Times(s, k, other);
    }
  }

  lemma EndSame(s: State, id: nat, other: nat)
    requires id in s.handlers && s.handlers[id].service < |s.slots| && other != id
    ensures Same(s, End(s, id), other)
  {
    var h := s.handlers[id];
    NoteSame(s, SetHandler(s, id, h.(phase := Ended)).(slots := s.slots[h.service := s.slots[h.service] + 1]),
        SlotFreed, id, other);
  }

  lemma AdmitSame(s: State, id: nat, service: nat, other: nat)
    requires service < |s.slots| && other != id
    ensures Same(s, Admit(s, id, service), other)
  {
    if s.slots[service] > 0 {
      NoteSame(s, SetHandler(s, id,
          Handler(service, Authenticating)).(slots := s.slots[service := s.slots[service] - 1]), SlotTaken, id, other);
    }
  }

  lemma SubmitSame(s: State, id: nat, calls: nat, submits: bool, other: nat)
    requires id in s.handlers && s.handlers[id].service < |s.slots| == |s.pipeline| && other != id
    ensures Same(s, Submit(s, id, calls, submits), other)
  {
    EndSame(s, id, other);
    NoteSame(s, End(s, id), PipelineTaken, id, other);
    NoteSame(s, Note(End(s, id), PipelineTaken, id), PipelineFreed, id, other);
    NoteSame(s, s, PipelineTaken, id, other);
  }

  lemma JobSame(s: State, id: nat, calls: nat, other: nat)
    requires id in s.jobs && s.jobs[id].service < |s.pipeline| && other != id
    ensures Same(s, Enter(s, id, calls), other) && Same(s, Leave(s, id, calls), other) && Same(s, Finish(s, id), other)
  {
    var service := s.jobs[id].service;
    NoteSame(s, SetWork(s, id, Running(0)), AdapterBusy, id, other);
    NoteSame(s, SetWork(s, id, Native(calls)).(adapter := if s.adapter == 0 then 0 else s.adapter - 1), AdapterTaken,
        id, other);
    NoteSame(s, SetWork(s, id, Running(calls)).(adapter := s.adapter + 1), AdapterFreed, id, other);
    NoteSame(s, SetWork(s, id, Done).(pipeline := s.pipeline[service := s.pipeline[service] + 1]), PipelineFreed, id,
        other);
  }

  /** An event touches nothing of any other request. */
  lemma StepIsLocal(s: State, e: Event, other: nat)
    requires Step(s, e).Some? && other != e.id
    ensures Same(s, Step(s, e).value, other)
  {
    match e
    case Arrives(id, service, wellFormed) => AdmitSame(s, id, service, other);
    case Authenticated(id, accepted) => EndSame(s, id, other);
    case QuotaAnswered(id, granted) =>
      EndSame(s, id, other);
      NoteSame(s, SetHandler(s, id, s.handlers[id].(phase := Reading)), Granted, id, other);
    case BodyRead(id, valid, lahiri, submits) =>
      SubmitSame(s, id, if lahiri then 2 else 1, submits, other); EndSame(s, id, other);
    case Cancelled(id) => EndSame(s, id, other);
    case Starts(id) =>
    case EntersAdapter(id) => JobSame(s, id, s.jobs[id].work.calls, other);
    case LeavesAdapter(id, succeeded) =>
      JobSame(s, id, if succeeded && s.jobs[id].work.calls > 0 then s.jobs[id].work.calls - 1 else 0, other);
    case Finishes(id) => JobSame(s, id, 0, other);
    case Answered(id) => EndSame(s, id, other);
  }

  lemma StepKeepsInvariant(s: State, e: Event)
    requires Invariant(s) && Step(s, e).Some?
    ensures Invariant(Step(s, e).value)
    ensures |Step(s, e).value.slots| == |s.slots|
  {
    var t := Step(s, e).value;
    assert Fine(s, e.id);
    StepConserves(s, e);
    StepFine(s, e);
    StepIsLocal(s, e, e.id + 1);
    forall id: nat ensures Fine(t, id) {
      assert Fine(s, id);
      if id != e.id {
        StepIsLocal(s, e, id);
        SameFine(s, t, id);
      }
    }
  }

  // ---- whole runs ----

  lemma StartsSound(services: nat)
    ensures Invariant(Init(services)) && |Init(services).slots| == services
  {
    var s := Init(services);
    assert forall a :: Who(s.handlers, InsideOf(a)) == {} && Who(s.jobs, AliveIn(a)) == {};
    assert Who(s.jobs, Calling()) == {};
  }

  lemma {:induction false} RunKeepsInvariant(s: State, events: seq<Event>)
    requires Invariant(s) && Run(s, events).Some?
    ensures Invariant(Run(s, events).value) && |Run(s, events).value.slots| == |s.slots|
    decreases |events|
  {
    if events != [] {
      StepKeepsInvariant(s, events[0]);
      RunKeepsInvariant(Step(s, events[0]).value, events[1..]);
    }
  }

  lemma ReachableIsSound(services: nat, s: State)
    requires Reachable(services, s)
    ensures Invariant(s) && |s.slots| == services
  {
    var events :| Run(Init(services), events) == Some(s);
    StartsSound(services);
    RunKeepsInvariant(Init(services), events);
  }

  /** In every reachable state each pool plus its holders makes its capacity, so no release ever finds its pool full. */
  lemma TokensConserved(services: nat, s: State, a: nat)
    requires Reachable(services, s) && a < services
    ensures |s.slots| == |s.pipeline| == services
    ensures s.slots[a] + |Who(s.handlers, InsideOf(a))| == 4
    ensures s.pipeline[a] + |Who(s.jobs, AliveIn(a))| == 2
    ensures s.adapter + |Who(s.jobs, Calling())| == 2
  {
    ReachableIsSound(services, s);
  }

  /**
   Each request takes its slot and its pipeline token at most once, and has freed each exactly once when it no longer
   holds it.
   */
  lemma FreedExactlyOnce(services: nat, s: State, id: nat)
    requires Reachable(services, s)
    ensures Times(s, SlotTaken, id) <= 1 && Times(s, PipelineTaken, id) <= 1 && Times(s, AdapterTaken, id) <= 2
    ensures Times(s, SlotFreed, id) == if IsInside(s, id) then 0 else Times(s, SlotTaken, id)
    ensures Times(s, PipelineFreed, id) == if IsAlive(s, id) then 0 else Times(s, PipelineTaken, id)
    ensures Times(s, AdapterTaken, id) == Times(s, AdapterFreed, id) + Bit(IsCalling(s, id))
  {
    ReachableIsSound(services, s);
    assert Fine(s, id);
  }

  // ---- what the events of one request decide ----

  /** The four answers that a calculation needs, in their order. */
  predicate Allows(e: Event, id: nat, stage: nat) {
    e.id == id
    && ((stage == 1 && e.Arrives? && e.wellFormed) || (stage == 2 && e.Authenticated? && e.accepted)
        || (stage == 3 && e.QuotaAnswered? && e.granted) || (stage == 4 && e.BodyRead? && e.valid && e.submits))
  }

  predicate Refuses(e: Event, id: nat) {
    e.id == id
    && ((e.Arrives? && !e.wellFormed) || (e.Authenticated? && !e.accepted) || (e.QuotaAnswered? && !e.granted)
        || (e.BodyRead? && !(e.valid && e.submits)))
  }

  /** The first so many answers were given, each before the next. */
  ghost predicate Went(events: seq<Event>, id: nat, stage: nat)
    decreases stage
  {
    stage == 0 || exists i :: 0 <= i < |events| && Allows(events[i], id, stage) && Went(events[..i], id, stage - 1)
  }

  lemma WentOn(events: seq<Event>, e: Event, id: nat, stage: nat)
    ensures Went(events, id, stage) ==> Went(events + [e], id, stage)
    ensures stage > 0 && Allows(e, id, stage) && Went(events, id, stage - 1) ==> Went(events + [e], id, stage)
  {
    var more := events + [e];
    if stage > 0 && Went(events, id, stage) {
      var i :| 0 <= i < |events| && Allows(events[i], id, stage) && Went(events[..i], id, stage - 1);
      assert more[i] == events[i] && more[..i] == events[..i];
    }
    assert more[|events|] == e && more[..|events|] == events;
  }

  /** How far a handler got, by the answers that it has had. */
  function Stage(phase: Phase): nat {
    match phase case Authenticating => 1 case Reserving => 2 case Reading => 3 case Awaiting => 4 case Ended => 0
  }

  ghost predicate Decided(events: seq<Event>, s: State, id: nat) {
    (id in s.handlers ==> Went(events, id, Stage(s.handlers[id].phase)))
    && (id in s.jobs ==> id in s.handlers && Went(events, id, 4))
    && ((exists e :: e in events && Refuses(e, id)) ==> IsOut(s, id))
  }

  predicate AtStage(s: State, id: nat, stage: nat) {
    if stage == 0 then id !in s.handlers else id in s.handlers && Stage(s.handlers[id].phase) == stage
  }

  predicate IsOut(s: State, id: nat) { id in s.handlers && s.handlers[id].phase == Ended && id !in s.jobs }

  /** A handler stays where it is, ends, or goes one stage further by the answer to that stage. */
  lemma StageByStage(s: State, e: Event, id: nat)
    requires Fine(s, id) && Step(s, e).Some?
    ensures var t := Step(s, e).value;
            id in t.handlers ==>
              t.handlers[id].phase == Ended || AtStage(s, id, Stage(t.handlers[id].phase))
              || (Allows(e, id, Stage(t.handlers[id].phase)) && AtStage(s, id, Stage(t.handlers[id].phase) - 1))
  {
    if e.id != id {
      StepIsLocal(s, e, id);
    }
  }

  lemma JobByStage(s: State, e: Event, id: nat)
    requires Fine(s, id) && Step(s, e).Some?
    ensures id in Step(s, e).value.jobs ==> id in s.jobs || (Allows(e, id, 4) && AtStage(s, id, 3))
    ensures Refuses(e, id) || IsOut(s, id) ==> IsOut(Step(s, e).value, id)
    ensures id in Step(s, e).value.jobs ==> id in Step(s, e).value.handlers
  {
    if e.id != id {
      StepIsLocal(s, e, id);
    }
  }

  lemma StepDecides(events: seq<Event>, s: State, e: Event, id: nat)
    requires Decided(events, s, id) && Fine(s, id) && Step(s, e).Some?
    ensures Decided(events + [e], Step(s, e).value, id)
  {
    var t := Step(s, e).value;
    StageByStage(s, e, id);
    JobByStage(s, e, id);
    WentOn(events, e, id, 4);
    if id in t.handlers {
      WentOn(events, e, id, Stage(t.handlers[id].phase));
    }
    if exists x :: x in events + [e] && Refuses(x, id) {
      var x :| x in events + [e] && Refuses(x, id);
      assert x in events || x == e;
    }
  }

  lemma {:induction false} RunDecides(services: nat, events: seq<Event>, id: nat)
    requires Run(Init(services), events).Some?
    ensures Decided(events, Run(Init(services), events).value, id)
  {
    if events != [] {
      var n := |events| - 1;
      assert events == events[..n] + [events[n]];
      RunPrefix(Init(services), events[..n], events[n]);
      RunDecides(services, events[..n], id);
      var s := Run(Init(services), events[..n]).value;
      assert Reachable(services, s);
      ReachableIsSound(services, s);
      assert Fine(s, id);
      StepDecides(events[..n], s, events[n], id);
    }
  }

  lemma {:induction false} RunPrefix(s: State, events: seq<Event>, e: Event)
    requires Run(s, events + [e]).Some?
    ensures Run(s, events).Some? && Step(Run(s, events).value, e).Some?
    ensures Run(s, events + [e]) == Step(Run(s, events).value, e)
    decreases |events|
  {
    if events == [] {
      assert ([e])[1..] == [];
    } else {
      assert (events + [e])[1..] == events[1..] + [e];
      RunPrefix(Step(s, events[0]).value, events[1..], e);
    }
  }

  /**
   Nothing is calculated without an admission, an accepted key, a quota grant and a valid body, in this order; and
   nothing is granted or taken without what comes before it.
   */
  lemma QuotaBeforeScience(services: nat, events: seq<Event>, s: State, id: nat)
    requires Run(Init(services), events) == Some(s)
    ensures id in s.jobs ==> Went(events, id, 4)
    ensures Times(s, PipelineTaken, id) <= Times(s, Granted, id) <= Times(s, SlotTaken, id) <= 1
    ensures Times(s, AdapterTaken, id) > 0 ==> Times(s, Granted, id) == 1
  {
    RunDecides(services, events, id);
    assert Reachable(services, s);
    ReachableIsSound(services, s);
    assert Fine(s, id);
  }

  /** A negative answer to any of the four questions ends the request for good, without a calculation. */
  lemma RefusedStaysOut(services: nat, events: seq<Event>, s: State, id: nat, e: Event)
    requires Run(Init(services), events) == Some(s) && e in events && Refuses(e, id)
    ensures IsOut(s, id)
  {
    RunDecides(services, events, id);
  }

  /** A request is let in exactly if it is well formed and fewer than four are inside its service. */
  lemma AdmittedIfRoom(services: nat, s: State, id: nat, service: nat, wellFormed: bool)
    requires Reachable(services, s) && id !in s.handlers && service < services
    ensures Step(s, Arrives(id, service, wellFormed)).Some?
    ensures IsInside(Step(s, Arrives(id, service, wellFormed)).value, id)
            <==> wellFormed && |Who(s.handlers, InsideOf(service))| < 4
  {
    ReachableIsSound(services, s);
  }

  /** A body leads to a calculation exactly if it is valid, the executor takes it, and fewer than two are alive. */
  lemma CalculatedIfRoom(services: nat, s: State, id: nat, valid: bool, lahiri: bool, submits: bool)
    requires Reachable(services, s) && In(s, id, Reading)
    ensures var t, alive := Step(s, BodyRead(id, valid, lahiri, submits)), Who(s.jobs, AliveIn(s.handlers[id].service));
            t.Some? && (id in t.value.jobs <==> valid && submits && |alive| < 2)
            && (IsInside(t.value, id) <==> id in t.value.jobs)
  {
    ReachableIsSound(services, s);
    assert Fine(s, id);
  }

  /** A calculation that still has a call to make enters the adapter exactly if fewer than two are inside, or fails. */
  lemma EntersIfRoom(services: nat, s: State, id: nat)
    requires Reachable(services, s) && id in s.jobs && s.jobs[id].work.Running? && s.jobs[id].work.calls > 0
    ensures var t := Step(s, EntersAdapter(id));
            t.Some? && (IsCalling(t.value, id) <==> |Who(s.jobs, Calling())| < 2)
            && (!IsCalling(t.value, id) ==> Step(t.value, EntersAdapter(id)).None?)
  {
    ReachableIsSound(services, s);
    assert Fine(s, id);
  }

  // ---- how many native calls a calculation makes ----

  /** The calls that the body asks for: two for a Lahiri request, else one. */
  function Asked(events: seq<Event>, id: nat): nat {
    if events == [] then 0
    else
      var e := events[|events| - 1];
      if Allows(e, id, 4) then (if e.lahiri then 2 else 1) else Asked(events[..|events| - 1], id)
  }

  function Entered(events: seq<Event>, id: nat): nat {
    if events == [] then 0
    else Entered(events[..|events| - 1], id) + Bit(events[|events| - 1] == EntersAdapter(id))
  }

  function Succeeded(events: seq<Event>, id: nat): nat {
    if events == [] then 0
    else Succeeded(events[..|events| - 1], id) + Bit(events[|events| - 1] == LeavesAdapter(id, true))
  }

  predicate CallsMatch(entered: nat, succeeded: nat, asked: nat, s: State, id: nat) {
    if id !in s.jobs then entered == 0 && succeeded == 0
    else
      entered <= asked && entered <= succeeded + 1 && succeeded <= entered
      && match s.jobs[id].work
         case Queued(calls) => entered == succeeded == 0 && calls == asked > 0
         case Running(calls) => calls > 0 ==> entered == succeeded && entered + calls == asked
         case Native(calls) => entered == succeeded + 1 && entered + calls == asked + 1
         case Done => true
  }

  lemma StepMatches(s: State, e: Event, id: nat, entered: nat, succeeded: nat, asked: nat)
    requires Fine(s, id) && Step(s, e).Some? && CallsMatch(entered, succeeded, asked, s, id)
    ensures CallsMatch(entered + Bit(e == EntersAdapter(id)), succeeded + Bit(e == LeavesAdapter(id, true)),
                       if Allows(e, id, 4) then (if e.lahiri then 2 else 1) else asked, Step(s, e).value, id)
  {
    if e.id != id {
      StepIsLocal(s, e, id);
    }
  }

  lemma {:induction false} RunMatches(services: nat, events: seq<Event>, id: nat)
    requires Run(Init(services), events).Some?
    ensures CallsMatch(Entered(events, id), Succeeded(events, id), Asked(events, id), Run(Init(services), events).value,
                       id)
  {
    if events != [] {
      var n := |events| - 1;
      assert events == events[..n] + [events[n]];
      RunPrefix(Init(services), events[..n], events[n]);
      RunMatches(services, events[..n], id);
      var s := Run(Init(services), events[..n]).value;
      assert Reachable(services, s);
      ReachableIsSound(services, s);
      assert Fine(s, id);
      StepMatches(s, events[n], id, Entered(events[..n], id), Succeeded(events[..n], id), Asked(events[..n], id));
    }
  }

  /** A calculation tries no more native calls than its body asks for, and no further one after a call that failed. */
  lemma CallsAsAsked(services: nat, events: seq<Event>, s: State, id: nat)
    requires Run(Init(services), events) == Some(s) && id in s.jobs
    ensures Entered(events, id) <= Asked(events, id) <= 2
    ensures Succeeded(events, id) <= Entered(events, id) <= Succeeded(events, id) + 1
  {
    RunMatches(services, events, id);
    AskedBound(events, id);
  }

  lemma {:induction false} AskedBound(events: seq<Event>, id: nat)
    ensures Asked(events, id) <= 2
  {
    if events != [] {
      AskedBound(events[..|events| - 1], id);
    }
  }

  /** A waiter gets its answer only after the worker has ended. */
  lemma AnsweredAfterEnd(services: nat, events: seq<Event>, id: nat)
    requires Run(Init(services), events + [Answered(id)]).Some?
    ensures Finishes(id) in events
  {
    RunPrefix(Init(services), events, Answered(id));
    DoneAfterEnd(services, events, id);
  }

  lemma {:induction false} DoneAfterEnd(services: nat, events: seq<Event>, id: nat)
    requires Run(Init(services), events).Some?
    ensures var s := Run(Init(services), events).value; id in s.jobs && s.jobs[id].work.Done? ==> Finishes(id) in events
  {
    if events != [] {
      var n := |events| - 1;
      assert events == events[..n] + [events[n]];
      RunPrefix(Init(services), events[..n], events[n]);
      DoneAfterEnd(services, events[..n], id);
      if events[n].id != id {
        StepIsLocal(Run(Init(services), events[..n]).value, events[n], id);
      }
    }
  }

  /** However its waiter ended, a running calculation's token is still out, and only its own end brings it back. */
  lemma AbandonedJobKeepsItsToken(services: nat, s: State, id: nat, e: Event)
    requires Reachable(services, s) && IsAlive(s, id) && !IsInside(s, id) && Step(s, e).Some?
    ensures Times(s, PipelineTaken, id) == 1 && Times(s, PipelineFreed, id) == 0
    ensures s.jobs[id].service < services == |s.pipeline| && s.pipeline[s.jobs[id].service] < 2
    ensures Times(Step(s, e).value, PipelineFreed, id) == Bit(e == Finishes(id))
  {
    ReachableIsSound(services, s);
    assert Fine(s, id);
    var t, service := Step(s, e).value, s.jobs[id].service;
    assert id in Who(s.jobs, AliveIn(service));
    StepKeepsInvariant(s, e);
    assert Fine(t, id);
    if e.id != id {
      StepIsLocal(s, e, id);
    }
  }

  /** Two live calculations refuse a third in their service, whether or not anyone still waits for them. */
  lemma TwoJobsMakeBusy(services: nat, s: State, id: nat, lahiri: bool, submits: bool)
    requires Reachable(services, s) && In(s, id, Reading)
    requires |Who(s.jobs, AliveIn(s.handlers[id].service))| >= 2
    ensures Step(s, BodyRead(id, true, lahiri, submits)) == Some(End(s, id))
    ensures id !in End(s, id).jobs
  {
    ReachableIsSound(services, s);
    assert Fine(s, id);
  }

  ghost predicate Quiet(s: State) { forall id: nat :: !IsInside(s, id) && !IsAlive(s, id) }

  /** When nobody is inside and nothing runs, every pool is full again. */
  lemma QuiescenceRestoresPools(services: nat, s: State)
    requires Reachable(services, s) && Quiet(s)
    ensures s.slots == Init(services).slots && s.pipeline == Init(services).pipeline && s.adapter == 2
  {
    ReachableIsSound(services, s);
    forall a | 0 <= a < services ensures s.slots[a] == 4 && s.pipeline[a] == 2 {
      forall id: nat ensures id !in Who(s.handlers, InsideOf(a)) && id !in Who(s.jobs, AliveIn(a)) {
        assert !IsInside(s, id) && !IsAlive(s, id);
      }
    }
    forall id: nat ensures id !in Who(s.jobs, Calling()) {
      assert !IsAlive(s, id);
    }
  }

  // ---- nothing leaks: every run can be completed ----

  lemma {:induction false} RunAppend(s: State, a: seq<Event>, b: seq<Event>)
    requires Run(s, a).Some?
    ensures Run(s, a + b) == Run(Run(s, a).value, b)
    decreases |a|
  {
    if a == [] {
      assert a + b == b;
    } else {
      assert (a + b)[1..] == a[1..] + b;
      RunAppend(Step(s, a[0]).value, a[1..], b);
    }
  }

  lemma OneStep(s: State, e: Event)
    requires Step(s, e).Some?
    ensures Run(s, [e]) == Step(s, e)
  {
    assert Run(Step(s, e).value, [e][1..]) == Step(s, e);
  }

  lemma Then(s: State, events: seq<Event>, t: State, e: Event) returns (more: seq<Event>)
    requires Run(s, events) == Some(t) && Step(t, e).Some?
    ensures Run(s, more) == Step(t, e)
  {
    OneStep(t, e);
    RunAppend(s, events, [e]);
    more := events + [e];
  }

  function Unfinished(s: State): set<nat> { Who(s.jobs, (j: Job) => j.work != Done) }

  function Waiting(s: State): set<nat> { Who(s.handlers, (h: Handler) => h.phase != Ended) }

  /** A live calculation can run to its end, whatever else goes on. */
  lemma {:induction false} CanFinish(s: State, id: nat) returns (events: seq<Event>, t: State)
    requires Invariant(s) && IsAlive(s, id)
    ensures Run(s, events) == Some(t) && t.handlers == s.handlers && t.jobs.Keys == s.jobs.Keys
    ensures forall k :: k in t.jobs ==> t.jobs[k].work == if k == id then Done else s.jobs[k].work
    decreases match s.jobs[id].work case Queued(_) => 1 case Native(_) => 1 case _ => 0
  {
    assert Fine(s, id);
    var e := match s.jobs[id].work
      case Queued(_) => Starts(id)
      case Native(_) => LeavesAdapter(id, true)
      case _ => Finishes(id);
    var next := Step(s, e).value;
    OneStep(s, e);
    events, t := [e], next;
    if IsAlive(next, id) {
      StepKeepsInvariant(s, e);
      var more, last := CanFinish(next, id);
      RunAppend(s, [e], more);
      events, t := [e] + more, last;
    }
  }

  lemma {:induction false} CanFinishAll(s: State) returns (events: seq<Event>, t: State)
    requires Invariant(s)
    ensures Run(s, events) == Some(t) && Unfinished(t) == {} && t.handlers == s.handlers
    decreases |Unfinished(s)|
  {
    if Unfinished(s) == {} {
      return [], s;
    }
    var id :| id in Unfinished(s);
    var first, next := CanFinish(s, id);
    assert Unfinished(next) == Unfinished(s) - {id};
    RunKeepsInvariant(s, first);
    var rest, last := CanFinishAll(next);
    RunAppend(s, first, rest);
    return first + rest, last;
  }

  lemma {:induction false} CanLeaveAll(s: State) returns (events: seq<Event>, t: State)
    requires Invariant(s)
    ensures Run(s, events) == Some(t) && Waiting(t) == {} && t.jobs == s.jobs
    decreases |Waiting(s)|
  {
    if Waiting(s) == {} {
      return [], s;
    }
    var id :| id in Waiting(s);
    assert Fine(s, id);
    var e := Cancelled(id);
    var next := Step(s, e).value;
    assert Waiting(next) == Waiting(s) - {id};
    OneStep(s, e);
    StepKeepsInvariant(s, e);
    var rest, last := CanLeaveAll(next);
    RunAppend(s, [e], rest);
    return [e] + rest, last;
  }

  /** No reachable state has lost a token: it can still get back to full pools. */
  lemma PoolsCanAlwaysRefill(services: nat, s: State) returns (events: seq<Event>, t: State)
    requires Reachable(services, s)
    ensures Run(s, events) == Some(t) && Quiet(t)
    ensures t.slots == Init(services).slots && t.pipeline == Init(services).pipeline && t.adapter == 2
  {
    ReachableIsSound(services, s);
    var first, mid := CanFinishAll(s);
    RunKeepsInvariant(s, first);
    var rest, last := CanLeaveAll(mid);
    RunAppend(s, first, rest);
    events, t := first + rest, last;
    forall id: nat ensures !IsInside(t, id) && !IsAlive(t, id) {
      assert id !in Waiting(t) && id !in Unfinished(mid);
    }
    var before :| Run(Init(services), before) == Some(s);
    RunAppend(Init(services), before, events);
    QuiescenceRestoresPools(services, t);
  }

  // ---- when the adapter can be busy ----

  ghost predicate NeverBusy(s: State) { forall id: nat :: Times(s, AdapterBusy, id) == 0 }

  /**
   Behind one service the native calls are some of its two live calculations, and the one entering is not among them.
   */
  lemma RoomForOneMore(s: State, id: nat)
    requires Invariant(s) && |s.slots| <= 1 && HasJob(s, id) && s.jobs[id].work.Running?
    ensures s.adapter > 0
  {
    var calling, alive := Who(s.jobs, Calling()), Who(s.jobs, AliveIn(0));
    forall k | k in calling ensures k in alive - {id} {
      assert Fine(s, k);
    }
    assert calling <= alive - {id} && id in alive;
    SubsetSize(calling, alive - {id});
  }

  lemma StepStaysUnbusy(s: State, e: Event)
    requires Invariant(s) && |s.slots| <= 1 && NeverBusy(s) && Step(s, e).Some?
    ensures NeverBusy(Step(s, e).value)
  {
    if e.EntersAdapter? {
      RoomForOneMore(s, e.id);
    }
    var t := Step(s, e).value;
    forall id: nat ensures Times(t, AdapterBusy, id) == 0 {
      assert Times(s, AdapterBusy, id) == 0;
      if id != e.id {
        StepIsLocal(s, e, id);
      } else {
        OwnStepUnbusy(s, e);
      }
    }
  }

  lemma OwnStepUnbusy(s: State, e: Event)
    requires Step(s, e).Some? && (e.EntersAdapter? ==> s.adapter > 0)
    ensures Times(Step(s, e).value, AdapterBusy, e.id) == Times(s, AdapterBusy, e.id)
  {
  }

  lemma {:induction false} RunStaysUnbusy(s: State, events: seq<Event>)
    requires Invariant(s) && |s.slots| <= 1 && NeverBusy(s) && Run(s, events).Some?
    ensures NeverBusy(Run(s, events).value)
    decreases |events|
  {
    if events != [] {
      StepKeepsInvariant(s, events[0]);
      StepStaysUnbusy(s, events[0]);
      RunStaysUnbusy(Step(s, events[0]).value, events[1..]);
    }
  }

  /** A fresh request can get to where its calculation is running, whenever its service has a slot and a token. */
  ghost predicate Started(s: State, t: State, id: nat, service: nat) {
    service < |s.slots| == |s.pipeline| == |t.slots| == |t.pipeline| && t.adapter == s.adapter
    && t.slots[service] + 1 == s.slots[service] && t.pipeline[service] + 1 == s.pipeline[service]
    && (forall a :: 0 <= a < |s.slots| && a != service ==> t.slots[a] == s.slots[a] && t.pipeline[a] == s.pipeline[a])
    && t.handlers == s.handlers[id := Handler(service, Awaiting)] && t.jobs == s.jobs[id := Job(service, Running(1))]
    && forall i: nat :: Times(t, AdapterBusy, i) == Times(s, AdapterBusy, i)
  }

  lemma ReadState(s: State, id: nat, service: nat, a: State, b: State, t: State)
    requires service < |s.slots| == |s.pipeline| && s.slots[service] > 0 && id !in s.handlers
    requires a == Admit(s, id, service) && b == SetHandler(a, id, Handler(service, Reserving))
    requires t == Note(SetHandler(b, id, Handler(service, Reading)), Granted, id)
    ensures t.handlers == s.handlers[id := Handler(service, Reading)]
    ensures t.slots == s.slots[service := s.slots[service] - 1]
    ensures t.pipeline == s.pipeline && t.jobs == s.jobs && t.adapter == s.adapter
    ensures forall i: nat :: Times(t, AdapterBusy, i) == Times(s, AdapterBusy, i)
  {
    NoteCounts(SetHandler(s, id, Handler(service, Authenticating)), SlotTaken, id);
    NoteCounts(SetHandler(b, id, Handler(service, Reading)), Granted, id);
  }

  lemma CanRead(s: State, id: nat, service: nat) returns (events: seq<Event>, t: State)
    requires service < |s.slots| == |s.pipeline| && s.slots[service] > 0 && id !in s.handlers
    ensures Run(s, events) == Some(t) && t.handlers == s.handlers[id := Handler(service, Reading)]
    ensures t.slots == s.slots[service := s.slots[service] - 1]
    ensures t.pipeline == s.pipeline && t.jobs == s.jobs && t.adapter == s.adapter
    ensures forall i: nat :: Times(t, AdapterBusy, i) == Times(s, AdapterBusy, i)
  {
    var a := Admit(s, id, service);
    var b := SetHandler(a, id, Handler(service, Reserving));
    t := Note(SetHandler(b, id, Handler(service, Reading)), Granted, id);
    ReadState(s, id, service, a, b, t);
    events := Then(s, [], s, Arrives(id, service, true));
    events := Then(s, events, a, Authenticated(id, true));
    events := Then(s, events, b, QuotaAnswered(id, true));
  }

  lemma CanStart(s: State, id: nat, service: nat) returns (events: seq<Event>, t: State)
    requires service < |s.slots| == |s.pipeline| && s.slots[service] > 0 && s.pipeline[service] > 0
    requires id !in s.handlers && id !in s.jobs
    ensures Run(s, events) == Some(t) && Started(s, t, id, service)
  {
    var c;
    events, c := CanRead(s, id, service);
    var d := Submit(c, id, 1, true);
    events := Then(s, events, c, BodyRead(id, true, false, true));
    events := Then(s, events, d, Starts(id));
    t := SetWork(d, id, Running(1));
  }

  /** Two calculations of one service in their native calls leave none for a calculation of another. */
  lemma TwoServicesCanBeBusy(services: nat, x: nat, y: nat, z: nat) returns (s: State)
    requires services >= 2 && x < y < z
    ensures Reachable(services, s) && Times(s, AdapterBusy, z) == 1
  {
    var init := Init(services);
    var e0, s0 := CanStart(init, x, 0);
    var e1, s1 := CanStart(s0, y, 0);
    var e2, s2 := CanStart(s1, z, 1);
    RunAppend(init, e0, e1);
    RunAppend(init, e0 + e1, e2);
    var calls := ThirdIsBusy(s2, x, y, z);
    RunAppend(init, e0 + e1 + e2, calls);
    s := Run(s2, calls).value;
  }

  lemma ThirdIsBusy(s: State, x: nat, y: nat, z: nat) returns (calls: seq<Event>)
    requires x < y < z && s.adapter == 2 && Times(s, AdapterBusy, z) == 0
    requires HasJob(s, x) && s.jobs[x].work == Running(1) && HasJob(s, y) && s.jobs[y].work == Running(1)
    requires HasJob(s, z) && s.jobs[z].work == Running(1)
    ensures Run(s, calls).Some? && Times(Run(s, calls).value, AdapterBusy, z) == 1
  {
    var a := Enter(s, x, 1);
    var b := Enter(a, y, 1);
    calls := Then(s, [], s, EntersAdapter(x));
    calls := Then(s, calls, a, EntersAdapter(y));
    calls := Then(s, calls, b, EntersAdapter(z));
  }

  ghost predicate CanBeBusy(services: nat)
  {
    exists s, id: nat :: Reachable(services, s) && Times(s, AdapterBusy, id) > 0
  }

  /** The adapter's busy error can be met exactly when two services share the process. */
  lemma BusyOnlyWithTwoServices(services: nat)
    ensures CanBeBusy(services) <==> services >= 2
  {
    if services >= 2 {
      var s := TwoServicesCanBeBusy(services, 0, 1, 2);
      assert Reachable(services, s) && Times(s, AdapterBusy, 2) > 0;
    } else {
      forall s, id: nat | Reachable(services, s) ensures Times(s, AdapterBusy, id) == 0 {
        var events :| Run(Init(services), events) == Some(s);
        StartsSound(services);
        RunStaysUnbusy(Init(services), events);
      }
    }
  }
}
