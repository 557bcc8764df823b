// The attempt-scoped broker for company actions (apps/worker/src/company-action-broker.ts):
// requests are de-duplicated by fingerprint, applied one after another, limited in number,
// and drained on close. Each event is one turn of the event loop.
module ActionBroker {
  import opened Wrappers

  const MAX_ACTIONS: nat := 32

  type Fingerprint = string

  // One apply: not started, being applied, or settled.
  datatype Outcome = Waiting | Running | Done(result: string) | Broken(message: string)

  datatype Promise = Unsettled | Fulfilled | Rejected

  // What the queue variable holds: the resolved promise it starts with, or what `then` made of
  // the promise of a job, with or without a handler for its rejection.
  datatype Queue = Resolved | Behind(job: nat, catches: bool)

  // `after` is the queue that the apply was chained on.
  datatype Job = Job(fingerprint: Fingerprint, after: Queue, outcome: Outcome)

  datatype Response = Ok(result: string) | ApplyFailed(message: string) | BudgetExceeded | Refused(status: nat) | Closing

  // What the handler of one request is doing.
  datatype Handler =
    | Reading                                          // before the fingerprint is known
    | Awaiting(job: nat)
    | Answered(served: Option<nat>, response: Response)

  datatype State = State(
    jobs: seq<Job>,                     // every apply so far, in the order of acceptance
    queue: Queue,                       // what the next one will be chained on
    requests: map<Fingerprint, nat>,    // the job that answers a fingerprint
    handlers: map<nat, Handler>,
    accepted: set<nat>,
    forgotten: set<nat>,                // failed jobs whose clean-up has run
    closing: bool, draining: set<nat>,  // the requests that close waits for
    closed: bool)

  const INITIAL := State([], Resolved, map[], map[], {}, {}, false, {}, false)

  datatype Event =
    | Connect(id: nat)
    | Refuse(id: nat, status: nat)
    | Submit(id: nat, fingerprint: Fingerprint)
    | Start(job: nat)
    | Succeed(job: nat, result: string)
    | Break(job: nat, message: string)
    | Forget(job: nat)
    | Respond(id: nat)
    | Release(id: nat)
    | Close
    | ResolveClose

  predicate Settled(o: Outcome) {
    o.Done? || o.Broken?
  }

  predicate Is(s: State, id: nat, h: Handler) {
    id in s.handlers && s.handlers[id] == h
  }

  predicate Pending(s: State, id: nat) {
    id in s.handlers && !s.handlers[id].Answered?
  }

  // ----- promises -----------------------------------------------------------

  function ApplyState(o: Outcome): Promise {
    match o
    case Waiting => Unsettled
    case Running => Unsettled
    case Done(_) => Fulfilled
    case Broken(_) => Rejected
  }

  // The promise `p.then(() => undefined)`, where `catches` with `() => undefined` as its second
  // argument: a rejection passes through unless it is caught.
  function Then(p: Promise, catches: bool): Promise {
    if p.Rejected? && catches then Fulfilled else p
  }

  function QueueState(jobs: seq<Job>, queue: Queue): Promise {
    match queue
    case Resolved => Fulfilled
    case Behind(j, catches) => if j < |jobs| then Then(ApplyState(jobs[j].outcome), catches) else Unsettled
  }

  function Set(s: State, k: nat, o: Outcome): State
    requires k < |s.jobs|
  {
    s.(jobs := s.jobs[k := s.jobs[k].(outcome := o)])
  }

  // Whether the turn can happen now.
  predicate Enabled(s: State, e: Event) {
    match e
    case Connect(id) => id !in s.handlers
    case Refuse(id, _) => Is(s, id, Reading)
    case Submit(id, _) => Is(s, id, Reading)
    case Start(k) => k < |s.jobs| && s.jobs[k].outcome.Waiting? && !QueueState(s.jobs, s.jobs[k].after).Unsettled?
    case Succeed(k, _) => k < |s.jobs| && s.jobs[k].outcome.Running?
    case Break(k, _) => k < |s.jobs| && s.jobs[k].outcome.Running?
    case Forget(j) => j < |s.jobs| && s.jobs[j].outcome.Broken? && j !in s.forgotten
    case Respond(id) =>
      id in s.handlers && s.handlers[id].Awaiting? && s.handlers[id].job < |s.jobs|
      && Settled(s.jobs[s.handlers[id].job].outcome)
    case Release(id) => id in s.accepted && id in s.handlers && s.handlers[id].Answered?
    case Close => !s.closing
    case ResolveClose => s.closing && !s.closed && forall id :: id in s.draining ==> !Pending(s, id)
  }

  function Answer(s: State, id: nat, job: Option<nat>, response: Response): State {
    s.(handlers := s.handlers[id := Answered(job, response)])
  }

  function Next(s: State, e: Event): State {
    if !Enabled(s, e) then s
    else
      match e
      case Connect(id) =>
        if s.closing then Answer(s, id, None, Closing)
        else s.(handlers := s.handlers[id := Reading], accepted := s.accepted + {id})
      case Refuse(id, status) => Answer(s, id, None, Refused(status))
      case Submit(id, fingerprint) =>
        if fingerprint in s.requests then s.(handlers := s.handlers[id := Awaiting(s.requests[fingerprint])])
        else if |s.requests| >= MAX_ACTIONS then Answer(s, id, None, BudgetExceeded)
        else s.(jobs := s.jobs + [Job(fingerprint, s.queue, Waiting)],
                queue := Behind(|s.jobs|, true),
                requests := s.requests[fingerprint := |s.jobs|],
                handlers := s.handlers[id := Awaiting(|s.jobs|)])
      // A job chained on a rejected queue would be rejected without being applied.
      case Start(k) => Set(s, k, if QueueState(s.jobs, s.jobs[k].after).Fulfilled? then Running else Broken("not applied"))
      case Succeed(k, result) => Set(s, k, Done(result))
      case Break(k, message) => Set(s, k, Broken(message))
      case Forget(j) =>
        var fingerprint := s.jobs[j].fingerprint;
        s.(forgotten := s.forgotten + {j},
           requests := if fingerprint in s.requests && s.requests[fingerprint] == j
                       then s.requests - {fingerprint} else s.requests)
      case Respond(id) =>
        var j := s.handlers[id].job;
        Answer(s, id, Some(j),
               if s.jobs[j].outcome.Done? then Ok(s.jobs[j].outcome.result) else ApplyFailed(s.jobs[j].outcome.message))
      case Release(id) => s.(accepted := s.accepted - {id})
      case Close => s.(closing := true, draining := s.accepted)
      case ResolveClose => s.(closed := true)
  }

  function After(s: State, es: seq<Event>): State {
    if es == [] then s else Next(After(s, es[..|es| - 1]), es[|es| - 1])
  }

  // ----- the invariant ------------------------------------------------------

  // The queue that stands behind the first n jobs.
  function QueueBehind(n: nat): Queue {
    if n == 0 then Resolved else Behind(n - 1, true)
  }

  // Each job is chained on the one accepted before it, and the queue on the last one.
  ghost predicate Chained(s: State) {
    s.queue == QueueBehind(|s.jobs|) && forall k :: 0 <= k < |s.jobs| ==> s.jobs[k].after == QueueBehind(k)
  }

  // Jobs start in order, each only after the one before it is settled.
  ghost predicate Serial(s: State) {
    forall i, j :: 0 <= i < j < |s.jobs| && !s.jobs[j].outcome.Waiting? ==> Settled(s.jobs[i].outcome)
  }

  // The request map points at the jobs that may still answer, and at nothing twice.
  ghost predicate Indexed(s: State) {
    && (forall f :: f in s.requests ==> s.requests[f] < |s.jobs| && s.jobs[s.requests[f]].fingerprint == f)
    && (forall i :: 0 <= i < |s.jobs| && i !in s.forgotten ==> Live(s, i))
    && (forall i :: i in s.forgotten ==> i < |s.jobs| && s.jobs[i].outcome.Broken?)
    && |s.requests| <= MAX_ACTIONS
  }

  ghost predicate Live(s: State, i: nat)
    requires i < |s.jobs|
  {
    s.jobs[i].fingerprint in s.requests && s.requests[s.jobs[i].fingerprint] == i
  }

  // Handlers await jobs that exist, and an answer tells how its job ended.
  ghost predicate Truthful(s: State, h: Handler) {
    match h
    case Reading => true
    case Awaiting(j) => j < |s.jobs|
    case Answered(Some(j), r) =>
      && j < |s.jobs|
      && (s.jobs[j].outcome == (if r.Ok? then Done(r.result) else if r.ApplyFailed? then Broken(r.message) else Waiting))
      && (r.Ok? || r.ApplyFailed?)
    case Answered(None, r) => !r.Ok? && !r.ApplyFailed?
  }

  // Every job that is not settled has a request waiting for it.
  ghost predicate Awaited(s: State, i: nat) {
    exists id :: Is(s, id, Awaiting(i))
  }

  ghost predicate Drained(s: State) {
    && (forall id :: Pending(s, id) ==> id in s.accepted)
    && (s.closing ==> forall id :: Pending(s, id) ==> id in s.draining)
    && (s.closed ==> s.closing && forall id :: !Pending(s, id))
  }

  ghost predicate Inv(s: State) {
    && Chained(s) && Serial(s) && Indexed(s) && Drained(s)
    && (forall id :: id in s.handlers ==> Truthful(s, s.handlers[id]))
    && (forall i :: 0 <= i < |s.jobs| && !Settled(s.jobs[i].outcome) ==> Awaited(s, i))
  }

  lemma ChainedKept(s: State, e: Event)
    requires Chained(s)
    ensures Chained(Next(s, e))
  {}

  // A job can start only when the job before it is settled, and then all before it are.
  lemma StartsBehindSettled(s: State, k: nat)
    requires Chained(s) && Serial(s) && Enabled(s, Start(k))
    ensures forall i :: 0 <= i < k ==> Settled(s.jobs[i].outcome)
    ensures QueueState(s.jobs, s.jobs[k].after).Fulfilled?
  {
    if k > 0 {
      assert s.jobs[k].after == Behind(k - 1, true);
      assert Settled(s.jobs[k - 1].outcome);
    }
  }

  lemma SerialKept(s: State, e: Event)
    requires Chained(s) && Serial(s)
    ensures Serial(Next(s, e))
  {
    if Enabled(s, e) && e.Start? {
      StartsBehindSettled(s, e.job);
    }
  }

  // Settling a job that is not, or starting it, leaves the index right.
  lemma SetKeepsIndexed(s: State, k: nat, o: Outcome)
    requires Indexed(s) && k < |s.jobs| && !Settled(s.jobs[k].outcome)
    ensures Indexed(Set(s, k, o))
  {}

  lemma SubmitKeepsIndexed(s: State, id: nat, fingerprint: Fingerprint)
    requires Indexed(s) && Is(s, id, Reading)
    ensures Indexed(Next(s, Submit(id, fingerprint)))
  {
    var t := Next(s, Submit(id, fingerprint));
    if fingerprint !in s.requests && |s.requests| < MAX_ACTIONS {
      forall i | 0 <= i < |t.jobs| && i !in t.forgotten
        ensures Live(t, i)
      {
        assert i < |s.jobs| ==> Live(s, i);
      }
    }
  }

  lemma ForgetKeepsIndexed(s: State, j: nat)
    requires Indexed(s) && j < |s.jobs| && s.jobs[j].outcome.Broken? && j !in s.forgotten
    ensures Indexed(Next(s, Forget(j)))
  {
    var t := Next(s, Forget(j));
    assert Live(s, j);
    forall i | 0 <= i < |t.jobs| && i !in t.forgotten
      ensures Live(t, i)
    {
      assert Live(s, i);
    }
  }

  lemma IndexedKept(s: State, e: Event)
    requires Indexed(s)
    ensures Indexed(Next(s, e))
  {
    if Enabled(s, e) {
      match e
      case Submit(id, fingerprint) => SubmitKeepsIndexed(s, id, fingerprint);
      case Forget(j) => ForgetKeepsIndexed(s, j);
      case Start(k) =>
        SetKeepsIndexed(s, k, if QueueState(s.jobs, s.jobs[k].after).Fulfilled? then Running else Broken("not applied"));
      case Succeed(k, result) => SetKeepsIndexed(s, k, Done(result));
      case Break(k, message) => SetKeepsIndexed(s, k, Broken(message));
      case _ =>
        assert Next(s, e).jobs == s.jobs && Next(s, e).requests == s.requests && Next(s, e).forgotten == s.forgotten;
    }
  }

  lemma DrainedKept(s: State, e: Event)
    requires Drained(s)
    ensures Drained(Next(s, e))
  {
    var t := Next(s, e);
    forall id | t.closed
      ensures !Pending(t, id)
    {
      assert Pending(s, id) ==> id in s.draining;
    }
  }

  // A job that an answer speaks about is settled and stays as it is.
  predicate Extends(s: State, t: State) {
    && |s.jobs| <= |t.jobs|
    && forall i :: 0 <= i < |s.jobs| ==>
         t.jobs[i].fingerprint == s.jobs[i].fingerprint
         && (Settled(s.jobs[i].outcome) ==> t.jobs[i] == s.jobs[i])
  }

  lemma JobsExtend(s: State, e: Event)
    ensures Extends(s, Next(s, e))
  {}

  lemma TruthExtends(s: State, t: State, h: Handler)
    requires Truthful(s, h) && Extends(s, t)
    ensures Truthful(t, h)
  {}

  // A handler that the turn did not touch, or the one it moved on.
  lemma NewHandlerTruthful(s: State, e: Event, id: nat)
    requires Indexed(s) && id in Next(s, e).handlers
    requires id in s.handlers ==> s.handlers[id] != Next(s, e).handlers[id]
    ensures Truthful(Next(s, e), Next(s, e).handlers[id])
  {}

  lemma TruthKept(s: State, e: Event, id: nat)
    requires id in s.handlers ==> Truthful(s, s.handlers[id])
    requires Indexed(s) && id in Next(s, e).handlers
    ensures Truthful(Next(s, e), Next(s, e).handlers[id])
  {
    var t := Next(s, e);
    if id in s.handlers && s.handlers[id] == t.handlers[id] {
      JobsExtend(s, e);
      TruthExtends(s, t, s.handlers[id]);
    } else {
      NewHandlerTruthful(s, e, id);
    }
  }

  lemma HandlersKept(s: State, e: Event, i: nat, id: nat)
    requires i < |s.jobs| && !Settled(s.jobs[i].outcome) && Is(s, id, Awaiting(i))
    ensures Is(Next(s, e), id, Awaiting(i))
  {}

  lemma AwaitedKept(s: State, e: Event, i: nat)
    requires i < |Next(s, e).jobs| && !Settled(Next(s, e).jobs[i].outcome)
    requires i < |s.jobs| && !Settled(s.jobs[i].outcome) ==> Awaited(s, i)
    ensures Awaited(Next(s, e), i)
  {
    JobsExtend(s, e);
    if i < |s.jobs| {
      var id :| Is(s, id, Awaiting(i));
      HandlersKept(s, e, i, id);
    } else {
      assert Is(Next(s, e), e.id, Awaiting(i));
    }
  }

  lemma InvKept(s: State, e: Event)
    requires Inv(s)
    ensures Inv(Next(s, e))
  {
    var t := Next(s, e);
    ChainedKept(s, e);
    SerialKept(s, e);
    IndexedKept(s, e);
    DrainedKept(s, e);
    forall id | id in t.handlers
      ensures Truthful(t, t.handlers[id])
    {
      TruthKept(s, e, id);
    }
    forall i | 0 <= i < |t.jobs| && !Settled(t.jobs[i].outcome)
      ensures Awaited(t, i)
    {
      AwaitedKept(s, e, i);
    }
  }

  lemma {:induction false} EveryStateIsGood(es: seq<Event>)
    ensures Inv(After(INITIAL, es))
  {
    if es == [] {
    } else {
      EveryStateIsGood(es[..|es| - 1]);
      InvKept(After(INITIAL, es[..|es| - 1]), es[|es| - 1]);
    }
  }

  lemma {:induction false} AfterConcat(s: State, es: seq<Event>, fs: seq<Event>)
    ensures After(s, es + fs) == After(After(s, es), fs)
    decreases |fs|
  {
    if fs == [] {
      assert es + fs == es;
    } else {
      assert (es + fs)[..|es + fs| - 1] == es + fs[..|fs| - 1];
      AfterConcat(s, es, fs[..|fs| - 1]);
    }
  }

  lemma {:induction false} RunExtends(s: State, es: seq<Event>)
    ensures Extends(s, After(s, es))
  {
    if es == [] {
    } else {
      RunExtends(s, es[..|es| - 1]);
      JobsExtend(After(s, es[..|es| - 1]), es[|es| - 1]);
    }
  }

  // ----- what every run promises --------------------------------------------

  // At most one apply runs at a time, and jobs are taken in the order of acceptance.
  lemma OneAtATimeInOrder(es: seq<Event>)
    ensures var jobs := After(INITIAL, es).jobs;
            forall i, j :: 0 <= i < j < |jobs| && !jobs[j].outcome.Waiting? ==>
              Settled(jobs[i].outcome) && !(jobs[i].outcome.Running? && jobs[j].outcome.Running?)
  {
    EveryStateIsGood(es);
  }

  // Each fingerprint is applied successfully at most once, and every success response for it,
  // whenever it was given, carries that one result.
  lemma AppliedOnce(es: seq<Event>, id: nat, id': nat)
    ensures var s := After(INITIAL, es);
            && (forall i, j :: 0 <= i < |s.jobs| && 0 <= j < |s.jobs| && BothDone(s.jobs[i], s.jobs[j]) ==> i == j)
            && (Served(s, id) && Served(s, id') && s.jobs[s.handlers[id].served.value].fingerprint
                                                  == s.jobs[s.handlers[id'].served.value].fingerprint ==>
                  s.handlers[id].response == s.handlers[id'].response)
  {
    var s := After(INITIAL, es);
    EveryStateIsGood(es);
    forall i, j | 0 <= i < |s.jobs| && 0 <= j < |s.jobs| && BothDone(s.jobs[i], s.jobs[j])
      ensures i == j
    {
      assert Live(s, i) && Live(s, j);
    }
    if Served(s, id) && Served(s, id') {
      assert Truthful(s, s.handlers[id]) && Truthful(s, s.handlers[id']);
    }
  }

  // Two successful jobs for one fingerprint.
  predicate BothDone(a: Job, b: Job) {
    a.outcome.Done? && b.outcome.Done? && a.fingerprint == b.fingerprint
  }

  // The request was answered with success, on behalf of an existing job.
  predicate Served(s: State, id: nat) {
    && id in s.handlers && s.handlers[id].Answered? && s.handlers[id].response.Ok?
    && s.handlers[id].served.Some? && s.handlers[id].served.value < |s.jobs|
  }

  // Success is answered only for a job, and with what that job returned.
  lemma SuccessIsServed(es: seq<Event>, id: nat)
    requires var s := After(INITIAL, es); id in s.handlers && s.handlers[id].Answered? && s.handlers[id].response.Ok?
    ensures var s := After(INITIAL, es);
            Served(s, id) && s.jobs[s.handlers[id].served.value].outcome == Done(s.handlers[id].response.result)
  {
    EveryStateIsGood(es);
    assert Truthful(After(INITIAL, es), After(INITIAL, es).handlers[id]);
  }

  ghost function Succeeded(s: State): set<Fingerprint> {
    set job | job in s.jobs && job.outcome.Done? :: job.fingerprint
  }

  // The request map never holds more than 32 entries, so at most 32 distinct actions ever succeed.
  lemma BudgetHolds(es: seq<Event>)
    ensures var s := After(INITIAL, es); |s.requests| <= 32 && |Succeeded(s)| <= 32
  {
    var s := After(INITIAL, es);
    EveryStateIsGood(es);
    forall f | f in Succeeded(s)
      ensures f in s.requests.Keys
    {
      var i :| 0 <= i < |s.jobs| && s.jobs[i].outcome.Done? && s.jobs[i].fingerprint == f;
      assert Live(s, i);
    }
    SubsetSize(Succeeded(s), s.requests.Keys);
  }

  // The clean-up after a failure always finds its own entry: its identity test never fails,
  // and afterwards the fingerprint is free for another try.
  lemma ForgetFindsItself(es: seq<Event>, j: nat)
    requires Enabled(After(INITIAL, es), Forget(j))
    ensures var s := After(INITIAL, es); Live(s, j) && s.jobs[j].fingerprint !in Next(s, Forget(j)).requests
  {
    EveryStateIsGood(es);
    assert Live(After(INITIAL, es), j);
  }

  // ----- a request is answered for its own action ---------------------------

  // A submission joins the job that stands for its fingerprint, or is refused because 32 others
  // do, or becomes a new job behind all others.
  lemma SubmitIsExact(s: State, id: nat, fingerprint: Fingerprint)
    requires Indexed(s) && Enabled(s, Submit(id, fingerprint))
    ensures var t := Next(s, Submit(id, fingerprint));
            if fingerprint in s.requests then
              && t.jobs == s.jobs && t.requests == s.requests && t.handlers[id].Awaiting?
              && t.handlers[id].job == s.requests[fingerprint] < |s.jobs|
              && t.jobs[t.handlers[id].job].fingerprint == fingerprint
            else if |s.requests| >= 32 then
              t.jobs == s.jobs && t.requests == s.requests && t.handlers[id] == Answered(None, BudgetExceeded)
            else
              && t.jobs[..|s.jobs|] == s.jobs && |t.jobs| == |s.jobs| + 1
              && t.jobs[|s.jobs|].fingerprint == fingerprint && t.jobs[|s.jobs|].outcome == Waiting
              && t.handlers[id] == Awaiting(|s.jobs|)
  {}

  ghost predicate AnswersFor(s: State, id: nat, fingerprint: Fingerprint) {
    && id in s.handlers
    && match s.handlers[id]
       case Reading => false
       case Awaiting(j) => j < |s.jobs| && s.jobs[j].fingerprint == fingerprint
       case Answered(Some(j), _) => j < |s.jobs| && s.jobs[j].fingerprint == fingerprint
       case Answered(None, r) => r == BudgetExceeded
  }

  lemma StaysFor(s: State, e: Event, id: nat, fingerprint: Fingerprint)
    requires AnswersFor(s, id, fingerprint)
    ensures AnswersFor(Next(s, e), id, fingerprint)
  {
    JobsExtend(s, e);
  }

  lemma {:induction false} StaysForAll(s: State, es: seq<Event>, id: nat, fingerprint: Fingerprint)
    requires AnswersFor(s, id, fingerprint)
    ensures AnswersFor(After(s, es), id, fingerprint)
  {
    if es == [] {
    } else {
      StaysForAll(s, es[..|es| - 1], id, fingerprint);
      StaysFor(After(s, es[..|es| - 1]), es[|es| - 1], id, fingerprint);
    }
  }

  // From its submission on, a request awaits or was answered for a job of its own fingerprint,
  // unless the budget was used up.
  lemma AnsweredForItsOwn(es: seq<Event>, id: nat, fingerprint: Fingerprint, later: seq<Event>)
    requires Enabled(After(INITIAL, es), Submit(id, fingerprint))
    ensures AnswersFor(After(INITIAL, es + [Submit(id, fingerprint)] + later), id, fingerprint)
  {
    var submit := Submit(id, fingerprint);
    EveryStateIsGood(es);
    SubmitIsExact(After(INITIAL, es), id, fingerprint);
    assert (es + [submit])[..|es|] == es;
    AfterConcat(INITIAL, es + [submit], later);
    StaysForAll(After(INITIAL, es + [submit]), later, id, fingerprint);
  }

  lemma OutcomeStep(s: State, e: Event, k: nat)
    requires Chained(s) && Serial(s) && k < |Next(s, e).jobs|
    ensures var o := Next(s, e).jobs[k].outcome;
            || !Settled(o) || (k < |s.jobs| && s.jobs[k].outcome == o)
            || (o.Done? && e == Succeed(k, o.result)) || (o.Broken? && e == Break(k, o.message))
  {
    if e == Start(k) && Enabled(s, e) {
      StartsBehindSettled(s, k);
    }
  }

  // Jobs settle only by what their own apply came to.
  lemma {:induction false} OutcomeCameFrom(es: seq<Event>, k: nat)
    requires k < |After(INITIAL, es).jobs| && Settled(After(INITIAL, es).jobs[k].outcome)
    ensures var o := After(INITIAL, es).jobs[k].outcome;
            (if o.Done? then Succeed(k, o.result) else Break(k, o.message)) in es
  {
    if es == [] {
    } else {
      var before, e := es[..|es| - 1], es[|es| - 1];
      var s := After(INITIAL, before);
      EveryStateIsGood(before);
      OutcomeStep(s, e, k);
      if k < |s.jobs| && s.jobs[k].outcome == Next(s, e).jobs[k].outcome {
        OutcomeCameFrom(before, k);
      }
    }
  }

  // The job a handler speaks of.
  function JobOf(h: Handler): Option<nat> {
    match h
    case Reading => None
    case Awaiting(j) => Some(j)
    case Answered(served, _) => served
  }

  ghost predicate SpeaksOf(s: State, id: nat, j: nat) {
    id in s.handlers && JobOf(s.handlers[id]) == Some(j)
  }

  lemma SpeaksStep(s: State, e: Event, id: nat, j: nat)
    requires Indexed(s) && SpeaksOf(Next(s, e), id, j)
    requires id in s.handlers ==> Truthful(s, s.handlers[id])
    ensures j < |Next(s, e).jobs|
    ensures e == Submit(id, Next(s, e).jobs[j].fingerprint) || SpeaksOf(s, id, j)
  {
    if id in s.handlers && s.handlers[id] == Next(s, e).handlers[id] {
      JobsExtend(s, e);
    } else {
      HandlerMoves(s, e, id);
    }
  }

  // Only its own submission and its own answer change the job a handler speaks of.
  lemma HandlerMoves(s: State, e: Event, id: nat)
    requires Indexed(s) && id in Next(s, e).handlers
    requires id in s.handlers ==> s.handlers[id] != Next(s, e).handlers[id]
    requires JobOf(Next(s, e).handlers[id]).Some?
    ensures JobOf(Next(s, e).handlers[id]).value < |Next(s, e).jobs|
    ensures e == Submit(id, Next(s, e).jobs[JobOf(Next(s, e).handlers[id]).value].fingerprint)
            || SpeaksOf(s, id, JobOf(Next(s, e).handlers[id]).value)
  {
    assert Enabled(s, e);
    match e
    case Submit(i, fingerprint) => assert i == id;
    case Respond(i) => assert i == id;
    case _ =>
  }

  // The fingerprint a request submitted in the run.
  function ActionOf(es: seq<Event>, id: nat): Option<Fingerprint> {
    if es == [] then None
    else
      var before, e := es[..|es| - 1], es[|es| - 1];
      if e.Submit? && e.id == id && Enabled(After(INITIAL, before), e) then Some(e.fingerprint) else ActionOf(before, id)
  }

  lemma {:induction false} ActionWasSubmitted(es: seq<Event>, id: nat)
    requires ActionOf(es, id).Some?
    ensures Submit(id, ActionOf(es, id).value) in es
  {
    var before, e := es[..|es| - 1], es[|es| - 1];
    if e.Submit? && e.id == id && Enabled(After(INITIAL, before), e) {
    } else {
      ActionWasSubmitted(before, id);
    }
  }

  // A request only ever awaits, or is answered by, a job for the action it submitted.
  lemma {:induction false} SpeaksOfItsOwn(es: seq<Event>, id: nat, j: nat)
    requires SpeaksOf(After(INITIAL, es), id, j)
    ensures j < |After(INITIAL, es).jobs| && ActionOf(es, id) == Some(After(INITIAL, es).jobs[j].fingerprint)
  {
    if es == [] {
    } else {
      var before, e := es[..|es| - 1], es[|es| - 1];
      EveryStateIsGood(before);
      SpeaksStep(After(INITIAL, before), e, id, j);
      if SpeaksOf(After(INITIAL, before), id, j) {
        SpeaksOfItsOwn(before, id, j);
        JobsExtend(After(INITIAL, before), e);
      }
    }
  }

  // All requests for one action are told of one result.
  lemma OneResultPerAction(es: seq<Event>, id: nat, id': nat)
    requires Told(After(INITIAL, es), id) && Told(After(INITIAL, es), id')
    requires ActionOf(es, id) == ActionOf(es, id')
    ensures After(INITIAL, es).handlers[id].response == After(INITIAL, es).handlers[id'].response
  {
    SuccessIsServed(es, id);
    SuccessIsServed(es, id');
    SpeaksOfItsOwn(es, id, After(INITIAL, es).handlers[id].served.value);
    SpeaksOfItsOwn(es, id', After(INITIAL, es).handlers[id'].served.value);
    AppliedOnce(es, id, id');
  }

  // The request was answered with success.
  predicate Told(s: State, id: nat) {
    id in s.handlers && s.handlers[id].Answered? && s.handlers[id].response.Ok?
  }

  // Every success a request is told of is the result of an apply of the very action it submitted.
  lemma SuccessIsItsOwn(es: seq<Event>, id: nat)
    requires Told(After(INITIAL, es), id)
    ensures var s := After(INITIAL, es);
            exists k: nat :: k < |s.jobs| && Submit(id, s.jobs[k].fingerprint) in es
                             && Succeed(k, s.handlers[id].response.result) in es
  {
    SuccessIsServed(es, id);
    var k := After(INITIAL, es).handlers[id].served.value;
    SpeaksOfItsOwn(es, id, k);
    ActionWasSubmitted(es, id);
    OutcomeCameFrom(es, k);
  }

  // Likewise every failure a request is told of.
  lemma FailureIsItsOwn(es: seq<Event>, id: nat)
    requires var s := After(INITIAL, es);
             id in s.handlers && s.handlers[id].Answered? && s.handlers[id].response.ApplyFailed?
    ensures var s := After(INITIAL, es);
            exists k: nat :: k < |s.jobs| && Submit(id, s.jobs[k].fingerprint) in es
                             && Break(k, s.handlers[id].response.message) in es
  {
    var s := After(INITIAL, es);
    EveryStateIsGood(es);
    assert Truthful(s, s.handlers[id]);
    var k := s.handlers[id].served.value;
    SpeaksOfItsOwn(es, id, k);
    ActionWasSubmitted(es, id);
    OutcomeCameFrom(es, k);
  }

  // ----- a failure blocks nothing -------------------------------------------

  // Whatever became of the jobs before it, a job that gets its turn is applied.
  lemma NeverPassedOver(es: seq<Event>, k: nat)
    requires Enabled(After(INITIAL, es), Start(k))
    ensures Next(After(INITIAL, es), Start(k)).jobs[k].outcome == Running
  {
    EveryStateIsGood(es);
    StartsBehindSettled(After(INITIAL, es), k);
  }

  // The first job that is not settled; the number of jobs if all are.
  function Head(jobs: seq<Job>): (k: nat)
    ensures k <= |jobs|
    ensures forall i :: 0 <= i < k ==> Settled(jobs[i].outcome)
    ensures k < |jobs| ==> !Settled(jobs[k].outcome)
  {
    if jobs == [] || !Settled(jobs[0].outcome) then 0 else 1 + Head(jobs[1..])
  }

  // Whatever verdict each remaining apply comes to, the queue can be worked off to the end.
  lemma {:induction false} QueueDrains(s: State, verdict: nat -> Outcome) returns (es: seq<Event>)
    requires Chained(s) && Serial(s) && forall i :: Settled(verdict(i))
    ensures var t := After(s, es);
            && |t.jobs| == |s.jobs|
            && forall i :: 0 <= i < |s.jobs| ==>
                 t.jobs[i].outcome == if Settled(s.jobs[i].outcome) then s.jobs[i].outcome else verdict(i)
    decreases |s.jobs| - Head(s.jobs)
  {
    var k := Head(s.jobs);
    if k == |s.jobs| {
      return [];
    }
    var first := if s.jobs[k].outcome.Waiting? then [Start(k), Settle(k, verdict(k))] else [Settle(k, verdict(k))];
    HeadSettles(s, verdict(k), first);
    var t := After(s, first);
    var rest := QueueDrains(t, verdict);
    AfterConcat(s, first, rest);
    es := first + rest;
  }

  function Settle(k: nat, verdict: Outcome): Event
    requires Settled(verdict)
  {
    if verdict.Done? then Succeed(k, verdict.result) else Break(k, verdict.message)
  }

  lemma HeadSettles(s: State, verdict: Outcome, first: seq<Event>)
    requires Chained(s) && Serial(s) && Head(s.jobs) < |s.jobs| && Settled(verdict)
    requires var k := Head(s.jobs);
             first == if s.jobs[k].outcome.Waiting? then [Start(k), Settle(k, verdict)] else [Settle(k, verdict)]
    ensures var t := After(s, first);
            && t.jobs == s.jobs[Head(s.jobs) := s.jobs[Head(s.jobs)].(outcome := verdict)]
            && Head(t.jobs) > Head(s.jobs) && Chained(t) && Serial(t)
  {
    var k := Head(s.jobs);
    if s.jobs[k].outcome.Waiting? {
      var started := Next(s, Start(k));
      AfterTwo(s, Start(k), Settle(k, verdict));
      HeadStarts(s);
      RunningSettles(started, verdict);
      assert started.jobs[k := started.jobs[k].(outcome := verdict)] == s.jobs[k := s.jobs[k].(outcome := verdict)];
    } else {
      AfterOne(s, Settle(k, verdict));
      RunningSettles(s, verdict);
    }
  }

  lemma AfterOne(s: State, e: Event)
    ensures After(s, [e]) == Next(s, e)
  {
    assert [e][..0] == [];
  }

  lemma AfterTwo(s: State, e: Event, f: Event)
    ensures After(s, [e, f]) == Next(Next(s, e), f)
  {
    assert [e, f][..1] == [e];
    AfterOne(s, e);
  }

  // The first job that is not settled gets its turn: a rejection of the job before it is caught.
  lemma HeadsTurn(s: State)
    requires Chained(s) && Head(s.jobs) < |s.jobs|
    ensures QueueState(s.jobs, s.jobs[Head(s.jobs)].after).Fulfilled?
  {
    var k := Head(s.jobs);
    if k > 0 {
      assert s.jobs[k].after == Behind(k - 1, true) && Settled(s.jobs[k - 1].outcome);
    }
  }

  lemma HeadStarts(s: State)
    requires Chained(s) && Serial(s) && Head(s.jobs) < |s.jobs| && s.jobs[Head(s.jobs)].outcome.Waiting?
    ensures var k, t := Head(s.jobs), Next(s, Start(Head(s.jobs)));
            && t.jobs == s.jobs[k := s.jobs[k].(outcome := Running)] && Head(t.jobs) == k
            && Chained(t) && Serial(t)
  {
    var k := Head(s.jobs);
    HeadsTurn(s);
    ChainedKept(s, Start(k));
    SerialKept(s, Start(k));
    HeadIs(Next(s, Start(k)).jobs, k);
  }

  lemma RunningSettles(s: State, verdict: Outcome)
    requires Chained(s) && Serial(s) && Settled(verdict)
    requires Head(s.jobs) < |s.jobs| && s.jobs[Head(s.jobs)].outcome.Running?
    ensures var t := Next(s, Settle(Head(s.jobs), verdict));
            && t.jobs == s.jobs[Head(s.jobs) := s.jobs[Head(s.jobs)].(outcome := verdict)]
            && Head(t.jobs) > Head(s.jobs) && Chained(t) && Serial(t)
  {
    var e := Settle(Head(s.jobs), verdict);
    ChainedKept(s, e);
    SerialKept(s, e);
    HeadBeyond(Next(s, e).jobs, Head(s.jobs));
  }

  lemma HeadIs(jobs: seq<Job>, k: nat)
    requires k < |jobs| && !Settled(jobs[k].outcome) && forall i :: 0 <= i < k ==> Settled(jobs[i].outcome)
    ensures Head(jobs) == k
  {}

  lemma HeadBeyond(jobs: seq<Job>, k: nat)
    requires k < |jobs| && forall i :: 0 <= i <= k ==> Settled(jobs[i].outcome)
    ensures Head(jobs) > k
  {}

  // ----- close --------------------------------------------------------------

  // Once close has resolved every job is settled and every request answered, and nothing that
  // happens afterwards starts, or changes, a job.
  lemma NothingStartsAfterClose(es: seq<Event>, later: seq<Event>)
    requires After(INITIAL, es).closed
    ensures forall i :: 0 <= i < |After(INITIAL, es).jobs| ==> Settled(After(INITIAL, es).jobs[i].outcome)
    ensures forall id :: !Pending(After(INITIAL, es), id)
    ensures After(INITIAL, es + later).jobs == After(INITIAL, es).jobs
    ensures forall k :: !Enabled(After(INITIAL, es + later), Start(k))
  {
    EveryStateIsGood(es);
    AfterConcat(INITIAL, es, later);
    ClosedForGood(After(INITIAL, es), later);
    AllSettled(After(INITIAL, es));
  }

  lemma AwaitedIsPending(s: State, i: nat)
    requires Awaited(s, i)
    ensures exists id :: Pending(s, id)
  {
    var id :| Is(s, id, Awaiting(i));
    assert Pending(s, id);
  }

  lemma AllSettled(s: State)
    requires Inv(s) && s.closed
    ensures forall i :: 0 <= i < |s.jobs| ==> Settled(s.jobs[i].outcome)
  {
    forall i | 0 <= i < |s.jobs|
      ensures Settled(s.jobs[i].outcome)
    {
      if !Settled(s.jobs[i].outcome) {
        AwaitedIsPending(s, i);
      }
    }
  }

  lemma ClosedStep(s: State, e: Event)
    requires s.closed && (forall id :: !Pending(s, id))
    requires forall i :: 0 <= i < |s.jobs| ==> Settled(s.jobs[i].outcome)
    ensures Next(s, e).closed && Next(s, e).jobs == s.jobs
  {
    assert e.Submit? ==> !Pending(s, e.id);
  }

  lemma {:induction false} ClosedForGood(s: State, es: seq<Event>)
    requires Inv(s) && s.closed
    ensures Inv(After(s, es)) && After(s, es).closed && After(s, es).jobs == s.jobs
  {
    if es == [] {
    } else {
      var before, e := After(s, es[..|es| - 1]), es[|es| - 1];
      ClosedForGood(s, es[..|es| - 1]);
      AllSettled(before);
      InvKept(before, e);
      ClosedStep(before, e);
    }
  }

  // A connection while closing is answered at once and never accepted.
  lemma ConnectIsExact(s: State, id: nat)
    requires id !in s.handlers
    ensures var t := Next(s, Connect(id));
            if s.closing then t.handlers[id] == Answered(None, Closing) && t.accepted == s.accepted
            else t.handlers[id] == Reading && t.accepted == s.accepted + {id}
  {}

  // A request that is refused never becomes a job; one that was answered is waited for until it
  // is released, and no other is dropped with it.
  lemma RefuseAndRelease(s: State, id: nat, status: nat)
    requires id in s.handlers
    ensures s.handlers[id].Reading? ==>
      Next(s, Refuse(id, status)) == s.(handlers := s.handlers[id := Answered(None, Refused(status))])
    ensures s.handlers[id].Answered? && id in s.accepted ==>
      forall other :: other in Next(s, Release(id)).accepted <==> other in s.accepted && other != id
  {}

  ghost function Open(s: State): set<nat> {
    set id | id in s.handlers && Pending(s, id)
  }

  lemma OneAnswered(s: State, id: nat) returns (e: Event)
    requires Inv(s) && Pending(s, id) && forall i :: 0 <= i < |s.jobs| ==> Settled(s.jobs[i].outcome)
    ensures var t := Next(s, e);
            Inv(t) && t.closing == s.closing && t.closed == s.closed && t.jobs == s.jobs && Open(t) == Open(s) - {id}
  {
    assert Truthful(s, s.handlers[id]);
    if s.handlers[id].Reading? {
      e := Refuse(id, 400);
      AnswerCloses(s, id, None, Refused(400));
    } else {
      e := Respond(id);
      var response := Next(s, e).handlers[id].response;
      AnswerCloses(s, id, Some(s.handlers[id].job), response);
    }
    InvKept(s, e);
  }

  lemma AnswerCloses(s: State, id: nat, served: Option<nat>, response: Response)
    ensures Open(Answer(s, id, served, response)) == Open(s) - {id}
  {}

  // With every job settled, all requests can be answered.
  lemma {:induction false} AllAnswered(s: State) returns (es: seq<Event>)
    requires Inv(s) && forall i :: 0 <= i < |s.jobs| ==> Settled(s.jobs[i].outcome)
    ensures forall id :: !Pending(After(s, es), id)
    decreases Open(s)
  {
    if Open(s) == {} {
      assert forall id :: Pending(s, id) ==> id in Open(s);
      es := [];
    } else {
      var id :| id in Open(s);
      var e := OneAnswered(s, id);
      var rest := AllAnswered(Next(s, e));
      AfterOne(s, e);
      AfterConcat(s, [e], rest);
      es := [e] + rest;
    }
  }

  lemma {:induction false} InvKeptAll(s: State, es: seq<Event>)
    requires Inv(s)
    ensures Inv(After(s, es))
  {
    if es == [] {
    } else {
      InvKeptAll(s, es[..|es| - 1]);
      InvKept(After(s, es[..|es| - 1]), es[|es| - 1]);
    }
  }

  lemma CloseQuiet(s: State) returns (es: seq<Event>)
    requires forall id :: !Pending(s, id)
    ensures After(s, es).closed
  {
    if s.closed {
      es := [];
    } else if s.closing {
      es := [ResolveClose];
      AfterOne(s, ResolveClose);
    } else {
      es := [Close, ResolveClose];
      AfterTwo(s, Close, ResolveClose);
      assert forall id :: Pending(Next(s, Close), id) ==> Pending(s, id);
    }
  }

  lemma CloseFrom(s: State, verdict: nat -> Outcome) returns (es: seq<Event>)
    requires Inv(s) && forall i :: Settled(verdict(i))
    ensures After(s, es).closed
  {
    var drain := QueueDrains(s, verdict);
    InvKeptAll(s, drain);
    var drained := After(s, drain);
    assert forall i :: 0 <= i < |drained.jobs| ==> Settled(drained.jobs[i].outcome);
    var answers := AllAnswered(drained);
    var last := CloseQuiet(After(drained, answers));
    AfterConcat(drained, answers, last);
    AfterConcat(s, drain, answers + last);
    es := drain + (answers + last);
  }

  // From every state of every run the broker can be closed, whatever the remaining applies come to.
  lemma CloseCanResolve(es: seq<Event>, verdict: nat -> Outcome) returns (more: seq<Event>)
    requires forall i :: Settled(verdict(i))
    ensures After(INITIAL, es + more).closed
  {
    EveryStateIsGood(es);
    more := CloseFrom(After(INITIAL, es), verdict);
    AfterConcat(INITIAL, es, more);
  }

  // ----- the broker ---------------------------------------------------------

  class Broker {
    var jobs: seq<Job>
    var applyQueue: Queue
    var requests: map<Fingerprint, nat>
    var handlers: map<nat, Handler>
    var acceptedRequests: set<nat>
    var forgotten: set<nat>
    var closing: bool
    var draining: set<nat>
    var closed: bool

    ghost function View(): State
      reads this
    {
      State(jobs, applyQueue, requests, handlers, acceptedRequests, forgotten, closing, draining, closed)
    }

    constructor ()
      ensures View() == INITIAL
    {
      jobs, applyQueue, requests, handlers, acceptedRequests := [], Resolved, map[], map[], {};
      forgotten, closing, draining, closed := {}, false, {}, false;
    }

    method OnConnection(id: nat)
      requires Enabled(View(), Connect(id))
      modifies this
      ensures View() == Next(old(View()), Connect(id))
    {
      if closing {
        handlers := handlers[id := Answered(None, Closing)];
        return;
      }
      handlers := handlers[id := Reading];
      acceptedRequests := acceptedRequests + {id};
    }

    method RefuseRequest(id: nat, status: nat)
      requires Enabled(View(), Refuse(id, status))
      modifies this`handlers
      ensures View() == Next(old(View()), Refuse(id, status))
    {
      handlers := handlers[id := Answered(None, Refused(status))];
    }

    // The stretch of the handler without an await: look up, check the budget, chain the job.
    method SubmitAction(id: nat, fingerprint: Fingerprint)
      requires Enabled(View(), Submit(id, fingerprint))
      modifies this
      ensures View() == Next(old(View()), Submit(id, fingerprint))
    {
      if fingerprint !in requests {
        if |requests| >= MAX_ACTIONS {
          handlers := handlers[id := Answered(None, BudgetExceeded)];
          return;
        }
        var applying := |jobs|;
        jobs := jobs + [Job(fingerprint, applyQueue, Waiting)];
        requests := requests[fingerprint := applying];
        applyQueue := Behind(applying, true);
      }
      handlers := handlers[id := Awaiting(requests[fingerprint])];
    }

    // The queue that job k was chained on has settled.
    method StartApply(k: nat)
      requires Enabled(View(), Start(k))
      modifies this`jobs
      ensures View() == Next(old(View()), Start(k))
    {
      var turn := QueueState(jobs, jobs[k].after);
      jobs := jobs[k := jobs[k].(outcome := if turn.Fulfilled? then Running else Broken("not applied"))];
    }

    method SettleApply(k: nat, verdict: Outcome)
      requires Settled(verdict) && Enabled(View(), Settle(k, verdict))
      modifies this`jobs
      ensures View() == Next(old(View()), Settle(k, verdict))
    {
      jobs := jobs[k := jobs[k].(outcome := verdict)];
    }

    method ForgetFailure(j: nat)
      requires Enabled(View(), Forget(j))
      modifies this`requests, this`forgotten
      ensures View() == Next(old(View()), Forget(j))
    {
      var fingerprint := jobs[j].fingerprint;
      if fingerprint in requests && requests[fingerprint] == j {
        requests := requests - {fingerprint};
      }
      forgotten := forgotten + {j};
    }

    method RespondTo(id: nat)
      requires Enabled(View(), Respond(id))
      modifies this`handlers
      ensures View() == Next(old(View()), Respond(id))
    {
      var j := handlers[id].job;
      var response := match jobs[j].outcome
        case Done(result) => Ok(result)
        case Broken(message) => ApplyFailed(message)
        case _ => Closing;
      handlers := handlers[id := Answered(Some(j), response)];
    }

    method ReleaseRequest(id: nat)
      requires Enabled(View(), Release(id))
      modifies this`acceptedRequests
      ensures View() == Next(old(View()), Release(id))
    {
      acceptedRequests := acceptedRequests - {id};
    }

    // Closing twice is closing once.
    method CloseBroker()
      modifies this
      ensures View() == Next(old(View()), Close)
    {
      if closing {
        return;
      }
      closing := true;
      draining := acceptedRequests;
    }

    method CloseResolves()
      requires Enabled(View(), ResolveClose)
      modifies this`closed
      ensures View() == Next(old(View()), ResolveClose)
    {
      closed := true;
    }
  }
}
