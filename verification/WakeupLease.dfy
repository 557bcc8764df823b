// The lease on a wakeup row (apps/worker/src/daemon-implementation.ts): claim by
// compare-and-set, heartbeats, guarded finish and failure, and recovery of stale claims.
// Times are milliseconds; every guarded update is one atomic step.
module WakeupLease {
  import opened Wrappers

  const STALE_CLAIM_MS: int := 300_000

  datatype Status = Queued | Claimed | Coalesced | Completed | Failed | Skipped | Cancelled

  datatype Row = Row(
    key: string, status: Status, claimedAt: Option<int>, heartbeatAt: Option<int>,
    finishedAt: Option<int>, session: Option<string>, error: Option<string>)

  type Rows = map<string, Row>

  // The activity times a recovery read before deciding.
  datatype Stamp = Stamp(claimedAt: Option<int>, heartbeatAt: Option<int>)

  function StampOf(row: Row): Stamp {
    Stamp(row.claimedAt, row.heartbeatAt)
  }

  function Activity(stamp: Stamp): Option<int> {
    if stamp.heartbeatAt.Some? then stamp.heartbeatAt else stamp.claimedAt
  }

  // ----- the updates --------------------------------------------------------

  predicate Has(rows: Rows, id: string, status: Status) {
    id in rows && rows[id].status == status
  }

  predicate Guarded(rows: Rows, id: string, stamp: Option<Stamp>) {
    Has(rows, id, Claimed) && (stamp.Some? ==> StampOf(rows[id]) == stamp.value)
  }

  function Claim(rows: Rows, id: string, now: int): Rows {
    if Has(rows, id, Queued)
    then rows[id := rows[id].(status := Claimed, claimedAt := Some(now), heartbeatAt := Some(now))] else rows
  }

  function Heartbeat(rows: Rows, id: string, now: int): Rows {
    if Has(rows, id, Claimed) then rows[id := rows[id].(heartbeatAt := Some(now))] else rows
  }

  function Finish(rows: Rows, id: string, now: int, session: Option<string>, stamp: Option<Stamp>): Rows {
    if Guarded(rows, id, stamp)
    then rows[id := rows[id].(status := Completed, finishedAt := Some(now),
                              session := if session.Some? then session else rows[id].session)] else rows
  }

  function Fail(rows: Rows, id: string, now: int, reason: string, stamp: Option<Stamp>): Rows {
    if Guarded(rows, id, stamp)
    then rows[id := rows[id].(status := Failed, finishedAt := Some(now), error := Some(reason))] else rows
  }

  function BackToQueue(row: Row): Row {
    row.(status := Queued, claimedAt := None, heartbeatAt := None, finishedAt := None, error := None)
  }

  function Requeue(rows: Rows, id: string, stamp: Stamp): Rows {
    if Guarded(rows, id, Some(stamp)) then rows[id := BackToQueue(rows[id])] else rows
  }

  function RequeueMissed(rows: Rows, id: string): Rows {
    if Has(rows, id, Completed) then rows[id := BackToQueue(rows[id])] else rows
  }

  // The completion at the end of a durable loop run looks at no status.
  function Complete(rows: Rows, id: string, now: int): Rows {
    if id in rows then rows[id := rows[id].(status := Completed, finishedAt := Some(now))] else rows
  }

  // A conflict on the row id or on the unique idempotency key leaves the table alone.
  predicate Conflicts(rows: Rows, id: string, key: string) {
    id in rows || exists i :: i in rows && rows[i].key == key
  }

  function Insert(rows: Rows, id: string, key: string): Rows {
    if Conflicts(rows, id, key) then rows else rows[id := Row(key, Queued, None, None, None, None, None)]
  }

  class WakeupTable {
    var rows: Rows
    var sessions: map<string, string> // the wakeup of each session

    method ClaimWakeup(id: string, now: int) returns (claimed: bool)
      modifies this`rows
      ensures claimed <==> Has(old(rows), id, Queued)
      ensures rows == Claim(old(rows), id, now)
    {
      claimed := id in rows && rows[id].status == Queued;
      if claimed {
        rows := rows[id := rows[id].(status := Claimed, claimedAt := Some(now), heartbeatAt := Some(now))];
      }
    }

    method HeartbeatWakeupClaim(id: string, now: int) returns (changed: bool)
      modifies this`rows
      ensures changed <==> Has(old(rows), id, Claimed)
      ensures rows == Heartbeat(old(rows), id, now)
    {
      changed := id in rows && rows[id].status == Claimed;
      if changed {
        rows := rows[id := rows[id].(heartbeatAt := Some(now))];
      }
    }

    method ClaimGuard(id: string, stamp: Option<Stamp>) returns (holds: bool)
      ensures holds <==> Guarded(rows, id, stamp)
    {
      holds := id in rows && rows[id].status == Claimed;
      if holds && stamp.Some? {
        holds := rows[id].claimedAt == stamp.value.claimedAt && rows[id].heartbeatAt == stamp.value.heartbeatAt;
      }
    }

    method FinishWakeup(id: string, now: int, session: Option<string>, stamp: Option<Stamp>) returns (changed: bool)
      modifies this`rows
      ensures changed <==> Guarded(old(rows), id, stamp)
      ensures rows == Finish(old(rows), id, now, session, stamp)
    {
      changed := ClaimGuard(id, stamp);
      if changed {
        var row := rows[id];
        if session.Some? {
          row := row.(session := session);
        }
        rows := rows[id := row.(status := Completed, finishedAt := Some(now))];
      }
    }

    method MarkFailed(id: string, now: int, reason: string, stamp: Option<Stamp>) returns (changed: bool)
      modifies this`rows
      ensures changed <==> Guarded(old(rows), id, stamp)
      ensures rows == Fail(old(rows), id, now, reason, stamp)
    {
      changed := ClaimGuard(id, stamp);
      if changed {
        rows := rows[id := rows[id].(status := Failed, finishedAt := Some(now), error := Some(reason))];
      }
    }

    method RequeueStale(id: string, stamp: Stamp) returns (changed: bool)
      modifies this`rows
      ensures changed <==> Guarded(old(rows), id, Some(stamp))
      ensures rows == Requeue(old(rows), id, stamp)
    {
      changed := ClaimGuard(id, Some(stamp));
      if changed {
        rows := rows[id := BackToQueue(rows[id])];
      }
    }

    method RequeueMissedWakeup(id: string) returns (changed: bool)
      modifies this`rows
      ensures changed <==> Has(old(rows), id, Completed)
      ensures rows == RequeueMissed(old(rows), id)
    {
      changed := id in rows && rows[id].status == Completed;
      if changed {
        rows := rows[id := BackToQueue(rows[id])];
      }
    }

    // Both inserts of the transaction leave alone what is there already.
    method QueueRetryWakeup(digest: (string, nat) -> string, workItem: string, workflowRun: string, agent: string, attempt: nat)
      modifies this
      ensures workItem == "" || workflowRun == "" || agent == "" ==> rows == old(rows) && sessions == old(sessions)
      ensures workItem != "" && workflowRun != "" && agent != "" ==>
                var id, session := "wake_retry_" + digest(workItem, attempt), "sess_retry_" + digest(workItem, attempt);
                && rows == Insert(old(rows), id, RetryKey(workItem, attempt))
                && sessions == if session in old(sessions) then old(sessions) else old(sessions)[session := id]
    {
      if workItem == "" || workflowRun == "" || agent == "" {
        return;
      }
      var id, key := RetryId(digest, workItem, attempt), RetryKey(workItem, attempt);
      if !Conflicts(rows, id, key) {
        rows := rows[id := Row(key, Queued, None, None, None, None, None)];
      }
      var session := SessionId(digest, workItem, attempt);
      if session !in sessions {
        sessions := sessions[session := id];
      }
    }
  }

  // ----- runs ---------------------------------------------------------------

  datatype Recovery = FinishIt(session: Option<string>) | FailIt(reason: string) | RequeueIt

  datatype Event =
    | Wait(ms: nat)
    | Enqueue(id: string, key: string)
    | TryClaim(id: string)
    | Beat(id: string)
    | TryFinish(id: string, session: Option<string>)
    | TryFail(id: string, reason: string)
    | CompleteLoop(id: string)
    | ScanStale(id: string, cutoff: int)            // read a row and find its activity at or before the cutoff
    | Recover(id: string, stamp: Stamp, action: Recovery)
    | ScanMissed(id: string)
    | RecoverMissed(id: string)

  datatype Scan = Scan(id: string, stamp: Stamp)

  // The table, the clock, and what recoveries have read so far.
  datatype State = State(now: int, rows: Rows, scans: set<Scan>, missed: set<string>)

  predicate FoundStale(s: State, id: string, cutoff: int) {
    && cutoff <= s.now - STALE_CLAIM_MS && Has(s.rows, id, Claimed)
    && Activity(StampOf(s.rows[id])).Some? && Activity(StampOf(s.rows[id])).value <= cutoff
  }

  // The event changes the row of its id.
  predicate Effective(s: State, e: Event) {
    match e
    case Enqueue(id, key) => !Conflicts(s.rows, id, key)
    case TryClaim(id) => Has(s.rows, id, Queued)
    case Beat(id) => Has(s.rows, id, Claimed)
    case TryFinish(id, _) => Has(s.rows, id, Claimed)
    case TryFail(id, _) => Has(s.rows, id, Claimed)
    case CompleteLoop(id) => id in s.rows
    case Recover(id, stamp, _) => Scan(id, stamp) in s.scans && Guarded(s.rows, id, Some(stamp))
    case RecoverMissed(id) => id in s.missed && Has(s.rows, id, Completed)
    case _ => false
  }

  function Next(s: State, e: Event): State {
    match e
    case Wait(ms) => s.(now := s.now + ms)
    case Enqueue(id, key) => s.(rows := Insert(s.rows, id, key))
    case TryClaim(id) => s.(rows := Claim(s.rows, id, s.now))
    case Beat(id) => s.(rows := Heartbeat(s.rows, id, s.now))
    case TryFinish(id, session) => s.(rows := Finish(s.rows, id, s.now, session, None))
    case TryFail(id, reason) => s.(rows := Fail(s.rows, id, s.now, reason, None))
    case CompleteLoop(id) => s.(rows := Complete(s.rows, id, s.now))
    case ScanStale(id, cutoff) =>
      if FoundStale(s, id, cutoff) then s.(scans := s.scans + {Scan(id, StampOf(s.rows[id]))}) else s
    case Recover(id, stamp, action) =>
      if Scan(id, stamp) !in s.scans then s
      else (match action
            case FinishIt(session) => s.(rows := Finish(s.rows, id, s.now, session, Some(stamp)))
            case FailIt(reason) => s.(rows := Fail(s.rows, id, s.now, reason, Some(stamp)))
            case RequeueIt => s.(rows := Requeue(s.rows, id, stamp)))
    case ScanMissed(id) =>
      if Has(s.rows, id, Completed) && s.rows[id].session.None? then s.(missed := s.missed + {id}) else s
    case RecoverMissed(id) =>
      if id in s.missed then s.(rows := RequeueMissed(s.rows, id)) else s
  }

  function After(s: State, es: seq<Event>): State {
    if es == [] then s else Next(After(s, es[..|es| - 1]), es[|es| - 1])
  }

  // No recovery has read anything yet; the rows are arbitrary.
  predicate Initial(s: State) {
    s.scans == {} && s.missed == {}
  }

  // ----- what each turn makes of a row --------------------------------------

  // Finishing, by the worker or by recovery, completes exactly a claimed row: it notes the time,
  // and takes the session given or keeps the one it had.
  lemma FinishWrites(s: State, id: string, e: Event, session: Option<string>)
    requires e == TryFinish(id, session) || (e.Recover? && e.id == id && e.action == FinishIt(session))
    requires Effective(s, e)
    ensures s.rows[id].status == Claimed
    ensures var row := Next(s, e).rows[id];
            && row.status == Completed && row.finishedAt == Some(s.now)
            && row.session == (if session.Some? then session else s.rows[id].session)
            && row.key == s.rows[id].key && row.error == s.rows[id].error && StampOf(row) == StampOf(s.rows[id])
  {}

  // Failing notes the time and the reason.
  lemma FailWrites(s: State, id: string, e: Event, reason: string)
    requires e == TryFail(id, reason) || (e.Recover? && e.id == id && e.action == FailIt(reason))
    requires Effective(s, e)
    ensures s.rows[id].status == Claimed
    ensures var row := Next(s, e).rows[id];
            && row.status == Failed && row.finishedAt == Some(s.now) && row.error == Some(reason)
            && row.key == s.rows[id].key && row.session == s.rows[id].session && StampOf(row) == StampOf(s.rows[id])
  {}

  // Back in the queue a row has no times and no error; key and session stay.
  lemma RequeueWrites(s: State, id: string, e: Event)
    requires e == RecoverMissed(id) || (e.Recover? && e.id == id && e.action == RequeueIt)
    requires Effective(s, e)
    ensures s.rows[id].status == if e.RecoverMissed? then Completed else Claimed
    ensures var row := Next(s, e).rows[id];
            && row.status == Queued && row.claimedAt == None && row.heartbeatAt == None && row.finishedAt == None
            && row.error == None && row.key == s.rows[id].key && row.session == s.rows[id].session
  {}

  // A queued row can be claimed, and only such a row; a claimed row shows signs of life.
  lemma ClaimWrites(s: State, id: string)
    ensures Effective(s, TryClaim(id)) <==> id in s.rows && s.rows[id].status == Queued
    ensures Effective(s, TryClaim(id)) ==>
      Next(s, TryClaim(id)).rows[id] == s.rows[id].(status := Claimed, claimedAt := Some(s.now), heartbeatAt := Some(s.now))
    ensures Effective(s, Beat(id)) <==> id in s.rows && s.rows[id].status == Claimed
    ensures Effective(s, Beat(id)) ==> Next(s, Beat(id)).rows[id] == s.rows[id].(heartbeatAt := Some(s.now))
  {}

  // A new wakeup waits with its key; it is inserted unless its id or its key is taken.
  lemma EnqueueWrites(s: State, id: string, key: string)
    ensures Effective(s, Enqueue(id, key)) <==> id !in s.rows && forall i :: i in s.rows ==> s.rows[i].key != key
    ensures Effective(s, Enqueue(id, key)) ==>
      Next(s, Enqueue(id, key)).rows[id] == Row(key, Queued, None, None, None, None, None)
  {}

  // The durable completion asks for nothing but the row.
  lemma CompleteWrites(s: State, id: string)
    ensures Effective(s, CompleteLoop(id)) <==> id in s.rows
    ensures id in s.rows ==>
      Next(s, CompleteLoop(id)).rows[id] == s.rows[id].(status := Completed, finishedAt := Some(s.now))
  {}

  // Whom a write finds: a recovery, a claimed row with the times it read, or a completed one that
  // had no session when it looked; a worker, any claimed row.
  lemma RecoveryAsks(s: State, id: string, stamp: Stamp, action: Recovery, session: Option<string>, reason: string)
    ensures Effective(s, Recover(id, stamp, action)) <==>
      && Scan(id, stamp) in s.scans && id in s.rows && s.rows[id].status == Claimed
      && s.rows[id].claimedAt == stamp.claimedAt && s.rows[id].heartbeatAt == stamp.heartbeatAt
    ensures Effective(s, RecoverMissed(id)) <==> id in s.missed && id in s.rows && s.rows[id].status == Completed
    ensures id in Next(s, ScanMissed(id)).missed <==>
      id in s.missed || (id in s.rows && s.rows[id].status == Completed && s.rows[id].session == None)
    ensures Effective(s, TryFinish(id, session)) <==> id in s.rows && s.rows[id].status == Claimed
    ensures Effective(s, TryFail(id, reason)) <==> id in s.rows && s.rows[id].status == Claimed
  {}

  // A look for stale claims finds a claimed row exactly when its last sign of life, the heartbeat
  // if there is one and the claim otherwise, is no later than a cutoff five minutes ago.
  lemma ScanFinds(s: State, id: string, cutoff: int, stamp: Stamp)
    ensures Scan(id, stamp) in Next(s, ScanStale(id, cutoff)).scans <==>
      || Scan(id, stamp) in s.scans
      || (&& id in s.rows && s.rows[id].status == Claimed && cutoff <= s.now - 300_000
          && stamp.claimedAt == s.rows[id].claimedAt && stamp.heartbeatAt == s.rows[id].heartbeatAt
          && if stamp.heartbeatAt.Some? then stamp.heartbeatAt.value <= cutoff
             else stamp.claimedAt.Some? && stamp.claimedAt.value <= cutoff)
  {}

  function IdOf(e: Event): Option<string> {
    match e
    case Enqueue(id, _) => Some(id)
    case TryClaim(id) => Some(id)
    case Beat(id) => Some(id)
    case TryFinish(id, _) => Some(id)
    case TryFail(id, _) => Some(id)
    case CompleteLoop(id) => Some(id)
    case Recover(id, _, _) => Some(id)
    case RecoverMissed(id) => Some(id)
    case _ => None
  }

  // No turn touches another row, and one that has no effect touches none.
  lemma OthersUntouched(s: State, e: Event)
    ensures !Effective(s, e) ==> Next(s, e).rows == s.rows
    ensures forall i :: IdOf(e) != Some(i) ==>
      (i in Next(s, e).rows <==> i in s.rows) && (i in s.rows ==> Next(s, e).rows[i] == s.rows[i])
  {}

  // ----- recovery waits for five silent minutes -----------------------------

  // When the row was last seen active: its last successful claim or heartbeat.
  function LastSeen(s: State, es: seq<Event>, id: string): Option<int> {
    if es == [] then (if id in s.rows then Activity(StampOf(s.rows[id])) else None)
    else
      var before, e := After(s, es[..|es| - 1]), es[|es| - 1];
      if (e == TryClaim(id) || e == Beat(id)) && Effective(before, e) then Some(before.now)
      else LastSeen(s, es[..|es| - 1], id)
  }

  ghost predicate ScansAreStale(s: State) {
    forall scan :: scan in s.scans ==>
      Activity(scan.stamp).Some? && Activity(scan.stamp).value <= s.now - STALE_CLAIM_MS
  }

  lemma {:induction false} ScansStayStale(s: State, es: seq<Event>)
    requires Initial(s)
    ensures ScansAreStale(After(s, es)) && s.now <= After(s, es).now
  {
    if es == [] {
    } else {
      ScansStayStale(s, es[..|es| - 1]);
    }
  }

  // A claimed row carries the time of its last claim or heartbeat.
  lemma {:induction false} ActivityIsLastSeen(s: State, es: seq<Event>, id: string)
    ensures Has(After(s, es).rows, id, Claimed) ==>
              Activity(StampOf(After(s, es).rows[id])) == LastSeen(s, es, id)
  {
    if es == [] {
    } else {
      ActivityIsLastSeen(s, es[..|es| - 1], id);
    }
  }

  // In every run, a recovery that changes a row does so at least five minutes after the
  // row's last claim or heartbeat, however old its own scan is.
  lemma RecoveryNeedsSilence(s: State, es: seq<Event>, e: Event)
    requires Initial(s) && e.Recover? && Effective(After(s, es), e)
    ensures LastSeen(s, es, e.id).Some?
    ensures After(s, es).now - LastSeen(s, es, e.id).value >= 300_000
  {
    ScansStayStale(s, es);
    ActivityIsLastSeen(s, es, e.id);
  }

  // A worker's own end of the claim on `id`.
  predicate EndsClaim(e: Event, id: string) {
    match e
    case TryFinish(i, _) => i == id
    case TryFail(i, _) => i == id
    case CompleteLoop(i) => i == id
    case _ => false
  }

  // At the end of the run the last sign of life is less than five minutes old.
  ghost predicate Alive(s: State, es: seq<Event>, id: string) {
    LastSeen(s, es, id).Some? && After(s, es).now - LastSeen(s, es, id).value < 300_000
  }

  // A claim whose signs of life are never five minutes apart stays claimed, by the same
  // claim, until a worker ends it, whatever recoveries scan or scanned before.
  lemma {:induction false} SteadyHolderKeepsClaim(s: State, before: seq<Event>, during: seq<Event>, id: string)
    requires Initial(s) && Has(After(s, before).rows, id, Claimed)
    requires forall k :: 0 <= k < |during| ==> Alive(s, before + during[..k], id)
    requires forall e :: e in during ==> !EndsClaim(e, id)
    ensures Has(After(s, before + during).rows, id, Claimed)
    ensures After(s, before + during).rows[id].claimedAt == After(s, before).rows[id].claimedAt
    decreases |during|
  {
    if during == [] {
      assert before + during == before;
    } else {
      var earlier, e := during[..|during| - 1], during[|during| - 1];
      forall k | 0 <= k < |earlier|
        ensures Alive(s, before + earlier[..k], id)
      {
        assert earlier[..k] == during[..k];
      }
      SteadyHolderKeepsClaim(s, before, earlier, id);
      assert before + during == (before + earlier) + [e];
      StepKeepsClaim(s, before + earlier, e, id);
    }
  }

  lemma StepKeepsClaim(s: State, es: seq<Event>, e: Event, id: string)
    requires Initial(s) && Has(After(s, es).rows, id, Claimed) && Alive(s, es, id) && !EndsClaim(e, id)
    ensures Has(After(s, es + [e]).rows, id, Claimed)
    ensures After(s, es + [e]).rows[id].claimedAt == After(s, es).rows[id].claimedAt
  {
    assert (es + [e])[..|es|] == es;
    if e.Recover? && e.id == id && Effective(After(s, es), e) {
      RecoveryNeedsSilence(s, es, e);
    }
  }

  // ----- one winner per stale claim -----------------------------------------

  // If the row is claimed, the claim and its last heartbeat are no older than `t`.
  predicate ClaimedSince(rows: Rows, id: string, t: int) {
    Has(rows, id, Claimed) ==>
      && rows[id].claimedAt.Some? && rows[id].claimedAt.value >= t
      && rows[id].heartbeatAt.Some? && rows[id].heartbeatAt.value >= t
  }

  lemma {:induction false} StaysClaimedSince(s: State, es: seq<Event>, id: string, t: int)
    requires s.now >= t && ClaimedSince(s.rows, id, t)
    ensures After(s, es).now >= t && ClaimedSince(After(s, es).rows, id, t)
  {
    if es == [] {
    } else {
      StaysClaimedSince(s, es[..|es| - 1], id, t);
    }
  }

  lemma {:induction false} AfterConcat(s: State, es: seq<Event>, fs: seq<Event>)
    ensures After(s, es + fs) == After(After(s, es), fs)
    decreases |fs|
  {
    if fs == [] {
      assert es + fs == es;
    } else {
      assert (es + fs)[..|es + fs| - 1] == es + fs[..|fs| - 1];
      AfterConcat(s, es, fs[..|fs| - 1]);
    }
  }

  // Of all recoveries that have scanned a claim by the time one of them changes the row, no other
  // one ever changes it, whatever each of them read.
  lemma OneWinner(s: State, es: seq<Event>, first: Event, between: seq<Event>, second: Event)
    requires Initial(s) && first.Recover? && second.Recover?
    requires first.id == second.id && Scan(second.id, second.stamp) in After(s, es).scans
    requires Effective(After(s, es), first)
    ensures !Effective(After(s, es + [first] + between), second)
  {
    var id, won := first.id, After(s, es);
    ScansStayStale(s, es);
    assert (es + [first])[..|es|] == es;
    var released := After(s, es + [first]);
    assert released == Next(won, first);
    StaysClaimedSince(released, between, id, won.now);
    AfterConcat(s, es + [first], between);
    assert Activity(second.stamp).value <= won.now - STALE_CLAIM_MS;
  }

  // ----- one claim per entry into the queue ---------------------------------

  function Claims(s: State, es: seq<Event>, id: string): nat {
    if es == [] then 0
    else
      var e := es[|es| - 1];
      Claims(s, es[..|es| - 1], id)
        + (if e == TryClaim(id) && Effective(After(s, es[..|es| - 1]), e) then 1 else 0)
  }

  predicate Queues(e: Event, id: string) {
    match e
    case Enqueue(i, _) => i == id
    case Recover(i, _, action) => i == id && action == RequeueIt
    case RecoverMissed(i) => i == id
    case _ => false
  }

  function Entries(s: State, es: seq<Event>, id: string): nat {
    if es == [] then 0
    else
      var e := es[|es| - 1];
      Entries(s, es[..|es| - 1], id)
        + (if Queues(e, id) && Effective(After(s, es[..|es| - 1]), e) then 1 else 0)
  }

  function QueuedNow(s: State, id: string): nat {
    if Has(s.rows, id, Queued) then 1 else 0
  }

  // From any state, over any run: each successful claim uses up one entry into the queue.
  lemma {:induction false} ClaimsAreBounded(s: State, es: seq<Event>, id: string)
    ensures Claims(s, es, id) + QueuedNow(After(s, es), id) <= QueuedNow(s, id) + Entries(s, es, id)
  {
    if es == [] {
    } else {
      ClaimsAreBounded(s, es[..|es| - 1], id);
    }
  }

  // ----- settled rows -------------------------------------------------------

  // A failed wakeup stays failed unless a durable loop run completes it without looking.
  lemma {:induction false} FailedStays(s: State, es: seq<Event>, id: string)
    requires Has(s.rows, id, Failed) && CompleteLoop(id) !in es
    ensures After(s, es).rows.Keys >= s.rows.Keys && After(s, es).rows[id] == s.rows[id]
  {
    if es == [] {
    } else {
      FailedStays(s, es[..|es| - 1], id);
    }
  }

  lemma {:induction false} QueuedStays(s: State, es: seq<Event>, id: string)
    requires Has(s.rows, id, Queued) && TryClaim(id) !in es && CompleteLoop(id) !in es
    ensures Has(After(s, es).rows, id, Queued)
  {
    if es == [] {
    } else {
      QueuedStays(s, es[..|es| - 1], id);
    }
  }

  ghost predicate HasAfter(s: State, es: seq<Event>, k: nat, id: string, status: Status) {
    k <= |es| ==> Has(After(s, es[..k]).rows, id, status)
  }

  // The row has the status all along the run.
  ghost predicate Keeps(s: State, es: seq<Event>, id: string, status: Status) {
    forall k: nat :: HasAfter(s, es, k, id, status)
  }

  lemma NextAt(s: State, es: seq<Event>, k: nat)
    requires k < |es|
    ensures After(s, es[..k + 1]) == Next(After(s, es[..k]), es[k])
  {
    assert es[..k + 1][..k] == es[..k];
  }

  // A failed row stays failed through a run exactly if no durable loop run completes it.
  lemma FailedIsExact(s: State, es: seq<Event>, id: string)
    requires Has(s.rows, id, Failed)
    ensures Keeps(s, es, id, Failed) <==> CompleteLoop(id) !in es
  {
    if CompleteLoop(id) in es {
      var k: nat :| k < |es| && es[k] == CompleteLoop(id);
      NextAt(s, es, k);
      assert HasAfter(s, es, k, id, Failed) ==> !HasAfter(s, es, k + 1, id, Failed);
    } else {
      forall k: nat ensures HasAfter(s, es, k, id, Failed) {
        if k <= |es| {
          FailedStays(s, es[..k], id);
        }
      }
    }
  }

  // A row that was queued, or queued again, waits exactly as long as nobody claims it and no
  // durable loop run completes it.
  lemma QueuedIsExact(s: State, es: seq<Event>, id: string)
    requires Has(s.rows, id, Queued)
    ensures Keeps(s, es, id, Queued) <==> TryClaim(id) !in es && CompleteLoop(id) !in es
  {
    if TryClaim(id) in es || CompleteLoop(id) in es {
      var k: nat :| k < |es| && (es[k] == TryClaim(id) || es[k] == CompleteLoop(id));
      NextAt(s, es, k);
      assert HasAfter(s, es, k, id, Queued) ==> !HasAfter(s, es, k + 1, id, Queued);
    } else {
      forall k: nat ensures HasAfter(s, es, k, id, Queued) {
        if k <= |es| {
          QueuedStays(s, es[..k], id);
        }
      }
    }
  }

  // A completed row stays completed exactly as long as no recovery that took it for a missed
  // wakeup writes.
  lemma CompletedIsExact(s: State, es: seq<Event>, id: string)
    requires Has(s.rows, id, Completed)
    ensures Keeps(s, es, id, Completed) <==> forall k: nat :: !MissedAt(s, es, k, id)
  {
    if k: nat :| MissedAt(s, es, k, id) {
      NextAt(s, es, k);
      assert HasAfter(s, es, k, id, Completed) ==> !HasAfter(s, es, k + 1, id, Completed);
    } else {
      forall k: nat ensures HasAfter(s, es, k, id, Completed) {
        if k <= |es| {
          CompletedStays(s, es, k, id);
        }
      }
    }
  }

  ghost predicate MissedAt(s: State, es: seq<Event>, k: nat, id: string) {
    k < |es| && es[k] == RecoverMissed(id) && id in After(s, es[..k]).missed
  }

  lemma {:induction false} CompletedStays(s: State, es: seq<Event>, k: nat, id: string)
    requires Has(s.rows, id, Completed) && k <= |es| && forall j: nat :: !MissedAt(s, es, j, id)
    ensures Has(After(s, es[..k]).rows, id, Completed)
  {
    if k == 0 {
      assert es[..0] == [];
    } else {
      CompletedStays(s, es, k - 1, id);
      NextAt(s, es, k - 1);
      assert !MissedAt(s, es, k - 1, id);
    }
  }

  const EMPTY := State(0, map[], {}, {})

  // A worker claims a wakeup and falls silent, and five minutes later recovery acts on it.
  function Recovered(id: string, key: string, action: Recovery): seq<Event> {
    [Enqueue(id, key), TryClaim(id), Wait(STALE_CLAIM_MS), ScanStale(id, 0), Recover(id, Stamp(Some(0), Some(0)), action)]
  }

  lemma AfterSnoc(s: State, es: seq<Event>, e: Event)
    ensures After(s, es + [e]) == Next(After(s, es), e)
  {
    assert (es + [e])[..|es|] == es;
  }

  lemma RecoveredRow(id: string, key: string, action: Recovery)
    requires !action.FinishIt?
    ensures Has(After(EMPTY, Recovered(id, key, action)).rows, id, if action.FailIt? then Failed else Queued)
  {
    var es := Recovered(id, key, action);
    assert es[..0] == [];
    NextAt(EMPTY, es, 0);
    NextAt(EMPTY, es, 1);
    assert After(EMPTY, es[..2]).rows == map[id := Row(key, Claimed, Some(0), Some(0), None, None, None)];
    NextAt(EMPTY, es, 2);
    NextAt(EMPTY, es, 3);
    assert After(EMPTY, es[..4]).scans == {Scan(id, Stamp(Some(0), Some(0)))};
    NextAt(EMPTY, es, 4);
    assert es[..5] == es;
  }

  // From the empty table: a wakeup that recovery failed, or queued again, turns completed when
  // the worker that fell silent comes to the end of its durable loop run after all.
  lemma CompletionOverwrites(id: string, key: string, action: Recovery)
    requires !action.FinishIt?
    ensures var es := Recovered(id, key, action);
            && Has(After(EMPTY, es).rows, id, if action.FailIt? then Failed else Queued)
            && Has(After(EMPTY, es + [CompleteLoop(id)]).rows, id, Completed)
  {
    RecoveredRow(id, key, action);
    AfterSnoc(EMPTY, Recovered(id, key, action), CompleteLoop(id));
  }

  // ----- one retry per attempt ----------------------------------------------

  function Decimal(n: nat): string {
    (if n < 10 then "" else Decimal(n / 10)) + [('0' as int + n % 10) as char]
  }

  function RetryKey(workItem: string, attempt: nat): string {
    "retry:" + workItem + ":" + Decimal(attempt)
  }

  function RetryId(digest: (string, nat) -> string, workItem: string, attempt: nat): string {
    "wake_retry_" + digest(workItem, attempt)
  }

  function SessionId(digest: (string, nat) -> string, workItem: string, attempt: nat): string {
    "sess_retry_" + digest(workItem, attempt)
  }

  function Digit(c: char): nat {
    if '0' <= c <= '9' then c as nat - '0' as nat else 0
  }

  // Reading the digits back.
  function Value(digits: string): nat {
    if digits == "" then 0 else 10 * Value(digits[..|digits| - 1]) + Digit(digits[|digits| - 1])
  }

  lemma ValueOfMore(front: string, c: char, m: nat, d: nat)
    requires Value(front) == m && Digit(c) == d
    ensures Value(front + [c]) == 10 * m + d
  {
    assert (front + [c])[..|front|] == front;
  }

  lemma LastDigit(n: nat) returns (front: string, c: char)
    ensures Decimal(n) == front + [c] && Digit(c) == n % 10
    ensures front == if n < 10 then "" else Decimal(n / 10)
  {
    front, c := if n < 10 then "" else Decimal(n / 10), ('0' as int + n % 10) as char;
  }

  lemma {:induction false} DecimalReadsBack(n: nat)
    ensures Value(Decimal(n)) == n
  {
    var m, d := n / 10, n % 10;
    var front, c := LastDigit(n);
    if n < 10 {
      assert Value(front) == m;
    } else {
      DecimalReadsBack(m);
    }
    ValueOfMore(front, c, m, d);
  }

  // The idempotency key of a retry: the work item, and the attempt in decimal digits.
  lemma RetryKeySpells(workItem: string, attempt: nat) returns (digits: string)
    ensures RetryKey(workItem, attempt) == "retry:" + workItem + ":" + digits && Value(digits) == attempt
  {
    digits := Decimal(attempt);
    DecimalReadsBack(attempt);
  }

  lemma {:induction false} DecimalDigits(n: nat)
    ensures Decimal(n) != "" && ':' !in Decimal(n)
  {
    if n >= 10 {
      DecimalDigits(n / 10);
    }
  }

  lemma {:induction false} DecimalInjective(m: nat, n: nat)
    requires Decimal(m) == Decimal(n)
    ensures m == n
  {
    var dm, dn := Decimal(m), Decimal(n);
    assert dm[|dm| - 1] == dn[|dn| - 1];
    assert m % 10 == n % 10;
    if m >= 10 && n >= 10 {
      assert dm[..|dm| - 1] == Decimal(m / 10) && dn[..|dn| - 1] == Decimal(n / 10);
      DecimalInjective(m / 10, n / 10);
    }
  }

  function AfterLastColon(s: string): string {
    if s == "" || s[|s| - 1] == ':' then "" else AfterLastColon(s[..|s| - 1]) + [s[|s| - 1]]
  }

  lemma {:induction false} ColonFreeTail(x: string, d: string)
    requires ':' !in d
    ensures AfterLastColon(x + ":" + d) == d
  {
    if d == "" {
      assert x + ":" + d == x + ":";
    } else {
      var front := d[..|d| - 1];
      assert (x + ":" + d)[..|x + ":" + d| - 1] == x + ":" + front;
      ColonFreeTail(x, front);
    }
  }

  // The key names the work item and the attempt, even when a work item id contains colons.
  lemma RetryKeyInjective(w: string, m: nat, v: string, n: nat)
    requires RetryKey(w, m) == RetryKey(v, n)
    ensures w == v && m == n
  {
    DecimalDigits(m);
    DecimalDigits(n);
    ColonFreeTail("retry:" + w, Decimal(m));
    ColonFreeTail("retry:" + v, Decimal(n));
    DecimalInjective(m, n);
    var a := RetryKey(w, m);
    assert a[6..|a| - |Decimal(m)| - 1] == w && a[6..|a| - |Decimal(m)| - 1] == v;
  }

  ghost predicate UniqueKeys(rows: Rows) {
    forall i, j :: i in rows && j in rows && rows[i].key == rows[j].key ==> i == j
  }

  // Rows are never removed and keep their keys, and no key is ever used twice.
  lemma {:induction false} KeysStayUnique(s: State, es: seq<Event>)
    requires UniqueKeys(s.rows)
    ensures UniqueKeys(After(s, es).rows)
    ensures forall i :: i in s.rows ==> i in After(s, es).rows && After(s, es).rows[i].key == s.rows[i].key
  {
    if es == [] {
    } else {
      KeysStayUnique(s, es[..|es| - 1]);
      StepKeepsKeys(After(s, es[..|es| - 1]), es[|es| - 1]);
    }
  }

  predicate SameKeys(rows: Rows, rows': Rows) {
    rows'.Keys == rows.Keys && forall i :: i in rows ==> rows'[i].key == rows[i].key
  }

  lemma UpdatesKeepKeys(s: State, e: Event)
    requires !e.Enqueue?
    ensures SameKeys(s.rows, Next(s, e).rows)
  {}

  lemma StepKeepsKeys(s: State, e: Event)
    requires UniqueKeys(s.rows)
    ensures UniqueKeys(Next(s, e).rows)
    ensures forall i :: i in s.rows ==> i in Next(s, e).rows && Next(s, e).rows[i].key == s.rows[i].key
  {
    if !e.Enqueue? {
      UpdatesKeepKeys(s, e);
    }
  }

  // In every run at most one wakeup retries a given attempt of a given work item: once one is
  // queued, no later insertion for the same attempt succeeds, under whatever row id.
  lemma OneRetry(s: State, es: seq<Event>, id: string, between: seq<Event>, id': string, workItem: string, attempt: nat)
    requires UniqueKeys(s.rows)
    requires Effective(After(s, es), Enqueue(id, RetryKey(workItem, attempt)))
    ensures var later := After(s, es + [Enqueue(id, RetryKey(workItem, attempt))] + between);
            && !Effective(later, Enqueue(id', RetryKey(workItem, attempt)))
            && id in later.rows
            && forall i, w, n :: i in later.rows && later.rows[i].key == RetryKey(w, n) ==>
                 (i == id <==> w == workItem && n == attempt)
  {
    var queued := es + [Enqueue(id, RetryKey(workItem, attempt))];
    assert queued[..|es|] == es;
    KeysStayUnique(s, queued);
    KeysStayUnique(After(s, queued), between);
    AfterConcat(s, queued, between);
    var later := After(s, queued + between);
    assert id in later.rows && later.rows[id].key == RetryKey(workItem, attempt);
    forall i, w, n: nat | i in later.rows && later.rows[i].key == RetryKey(w, n)
      ensures i == id <==> w == workItem && n == attempt
    {
      if i == id {
        RetryKeyInjective(w, n, workItem, attempt);
      }
    }
  }
}
