// Routing a request to a service agent under the authority graph
// (packages/company/src/control-plane.ts, route, selectCandidate, persistRouting, createEscalation).
module Routing {
  import opened Wrappers
  import opened AuthorityGraph
  import opened Hierarchy
  import opened ManagerChains
  import opened Reconciliation

  // Requests as parsed: identifiers trimmed, absent filters None.
  datatype Request = Request(
    key: string, requestedBy: Option<string>, target: Option<string>, departmentId: Option<string>,
    requiredRole: Option<string>, capability: Option<string>)

  datatype RoutingStatus = Routed | Escalated | Rejected

  // `escalation` is the row id of the routing escalation it refers to.
  datatype Decision = Decision(
    key: string, status: RoutingStatus, selected: Option<string>, departmentId: Option<string>,
    path: seq<string>, escalation: Option<string>)

  datatype Escalation = Escalation(kind: string, subject: string, target: Option<string>, path: seq<string>)

  datatype DepartmentStatus = DepartmentActive | DepartmentPaused | DepartmentArchived

  datatype RouteError = PathTooLong

  const MAX_PATH: nat := 128
  const ROUTING := "routing"
  const DELEGATION := [Manages, MayDelegateTo, ReportsTo]
  const ESCALATION := [MustEscalateTo, ReportsTo]

  // ----- choosing an agent --------------------------------------------------

  predicate Eligible(row: AgentRow, departments: map<string, DepartmentStatus>, request: Request) {
    && row.status == Active
    && (request.target.Some? ==> row.agentId == request.target.value)
    && (request.departmentId.Some? ==> row.departmentId == request.departmentId)
    && (row.departmentId.Some? ==>
          row.departmentId.value in departments && departments[row.departmentId.value] == DepartmentActive)
    && (request.requiredRole.Some? ==> request.requiredRole.value in row.metadata.roles)
    && (request.capability.Some? ==> request.capability.value in row.metadata.capabilities)
  }

  predicate NotWorse(leq: (string, string) -> bool, a: AgentRow, b: AgentRow) {
    a.failureCount < b.failureCount || (a.failureCount == b.failureCount && leq(a.agentId, b.agentId))
  }

  function Filter(rows: seq<AgentRow>, departments: map<string, DepartmentStatus>, request: Request): (r: seq<AgentRow>)
    ensures forall row :: row in r <==> row in rows && Eligible(row, departments, request)
  {
    if rows == [] then []
    else
      (if Eligible(rows[0], departments, request) then [rows[0]] else []) + Filter(rows[1..], departments, request)
  }

  function Insert(leq: (string, string) -> bool, row: AgentRow, rows: seq<AgentRow>): seq<AgentRow> {
    if rows == [] || NotWorse(leq, row, rows[0]) then [row] + rows
    else [rows[0]] + Insert(leq, row, rows[1..])
  }

  function Sort(leq: (string, string) -> bool, rows: seq<AgentRow>): seq<AgentRow> {
    if rows == [] then [] else Insert(leq, rows[0], Sort(leq, rows[1..]))
  }

  function Candidate(leq: (string, string) -> bool, rows: seq<AgentRow>, departments: map<string, DepartmentStatus>,
                     request: Request): Option<AgentRow>
  {
    var sorted := Sort(leq, Filter(rows, departments, request));
    if sorted == [] then None else Some(sorted[0])
  }

  ghost predicate LeastOf(leq: (string, string) -> bool, rows: seq<AgentRow>, least: AgentRow) {
    least in rows && forall row :: row in rows ==> NotWorse(leq, least, row)
  }

  lemma {:induction false} SortIsLeastFirst(leq: (string, string) -> bool, rows: seq<AgentRow>)
    requires IsCollation(leq) && rows != []
    ensures Sort(leq, rows) != [] && LeastOf(leq, rows, Sort(leq, rows)[0])
  {
    if |rows| == 1 {
    } else {
      SortIsLeastFirst(leq, rows[1..]);
      var least := Sort(leq, rows[1..])[0];
      forall row | row in rows
        ensures row == rows[0] || NotWorse(leq, least, row)
      {}
    }
  }

  // The candidate is eligible and nobody eligible is better by (failure count, id); there is
  // none exactly when nobody is eligible.
  lemma CandidateIsLeast(leq: (string, string) -> bool, rows: seq<AgentRow>,
                         departments: map<string, DepartmentStatus>, request: Request)
    requires IsCollation(leq)
    ensures var c := Candidate(leq, rows, departments, request);
            if c.None? then forall row :: row in rows ==> !Eligible(row, departments, request)
            else
              && c.value in rows && Eligible(c.value, departments, request)
              && forall row :: row in rows && Eligible(row, departments, request) ==> NotWorse(leq, c.value, row)
  {
    var eligible := Filter(rows, departments, request);
    if eligible != [] {
      SortIsLeastFirst(leq, eligible);
    }
    forall row | row in rows && Eligible(row, departments, request)
      ensures row in eligible
    {}
  }

  // The same, criterion by criterion: the candidate is active, suits every filter of the request,
  // and its department, if it has one, is known and active...
  lemma CandidateSuits(leq: (string, string) -> bool, rows: seq<AgentRow>,
                       departments: map<string, DepartmentStatus>, request: Request)
    requires IsCollation(leq) && Candidate(leq, rows, departments, request).Some?
    ensures var c := Candidate(leq, rows, departments, request).value;
            && c in rows && c.status == Active
            && (request.target == None || request.target == Some(c.agentId))
            && (request.departmentId == None || request.departmentId == c.departmentId)
            && (c.departmentId == None
                || (c.departmentId.value in departments && departments[c.departmentId.value] == DepartmentActive))
            && (request.requiredRole == None || request.requiredRole.value in c.metadata.roles)
            && (request.capability == None || request.capability.value in c.metadata.capabilities)
  {
    CandidateIsLeast(leq, rows, departments, request);
  }

  // ... and no other agent of that kind has failed less often, or as often with a smaller id.
  lemma NobodySuitsBetter(leq: (string, string) -> bool, rows: seq<AgentRow>,
                          departments: map<string, DepartmentStatus>, request: Request, row: AgentRow)
    requires IsCollation(leq) && row in rows && row.status == Active
    requires request.target == None || request.target == Some(row.agentId)
    requires request.departmentId == None || request.departmentId == row.departmentId
    requires row.departmentId == None
             || (row.departmentId.value in departments && departments[row.departmentId.value] == DepartmentActive)
    requires request.requiredRole == None || request.requiredRole.value in row.metadata.roles
    requires request.capability == None || request.capability.value in row.metadata.capabilities
    ensures Candidate(leq, rows, departments, request).Some?
    ensures var c := Candidate(leq, rows, departments, request).value;
            c.failureCount < row.failureCount || (c.failureCount == row.failureCount && leq(c.agentId, row.agentId))
  {
    CandidateIsLeast(leq, rows, departments, request);
  }

  // ----- stored decisions ---------------------------------------------------

  predicate IdChar(c: char) {
    'a' <= c <= 'z' || 'A' <= c <= 'Z' || '0' <= c <= '9' || c in "._:-"
  }

  function Replaced(s: string): string {
    seq(|s|, i requires 0 <= i < |s| => if IdChar(s[i]) then s[i] else '-')
  }

  // The row id of a key: other characters become dashes and the rest is cut at 240.
  function SafeId(s: string): string {
    var r := Replaced(s);
    if |r| <= 240 then r else r[..240]
  }

  // The row id has the characters of the key, up to 240, with dashes for all but letters, digits,
  // dots, underscores, colons and dashes.
  lemma SafeIdIs(s: string)
    ensures |SafeId(s)| == if |s| <= 240 then |s| else 240
    ensures forall i :: 0 <= i < |SafeId(s)| ==>
      SafeId(s)[i] == if 'a' <= s[i] <= 'z' || 'A' <= s[i] <= 'Z' || '0' <= s[i] <= '9'
                         || s[i] == '.' || s[i] == '_' || s[i] == ':' || s[i] == '-'
                      then s[i] else '-'
  {}

  // So keys of such characters, no longer than that, keep row ids of their own.
  lemma OrdinaryKeysDiffer(s: string, t: string)
    requires |s| <= 240 && |t| <= 240 && s != t
    requires forall c :: c in s + t ==> 'a' <= c <= 'z' || 'A' <= c <= 'Z' || '0' <= c <= '9' || c in "._:-"
    ensures SafeId(s) != SafeId(t)
  {
    SafeIdIs(s);
    SafeIdIs(t);
    forall i | 0 <= i < |s| ensures SafeId(s)[i] == s[i] {
      assert s[i] in s + t;
    }
    forall i | 0 <= i < |t| ensures SafeId(t)[i] == t[i] {
      assert t[i] in s + t;
    }
    assert SafeId(s) == s && SafeId(t) == t;
  }

  function Lookup(decisions: seq<Decision>, key: string): (r: Option<Decision>)
    ensures r.Some? ==> r.value in decisions && r.value.key == key
    ensures r.None? ==> forall d :: d in decisions ==> d.key != key
  {
    if decisions == [] then None
    else if decisions[0].key == key then Some(decisions[0])
    else Lookup(decisions[1..], key)
  }

  // No stored decision has the row id that `key` would get.
  predicate FreshId(decisions: seq<Decision>, key: string) {
    forall d :: d in decisions ==> SafeId(d.key) != SafeId(key)
  }

  // What is found once is found for good: decisions are only ever appended.
  lemma {:induction false} LookupLasts(decisions: seq<Decision>, later: seq<Decision>, key: string)
    requires decisions <= later && Lookup(decisions, key).Some?
    ensures Lookup(later, key) == Lookup(decisions, key)
  {
    if decisions[0].key != key {
      LookupLasts(decisions[1..], later[1..], key);
    }
  }

  lemma {:induction false} LookupNew(decisions: seq<Decision>, d: Decision)
    requires Lookup(decisions, d.key).None?
    ensures Lookup(decisions + [d], d.key) == Some(d)
  {
    if decisions == [] {
    } else {
      assert (decisions + [d])[1..] == decisions[1..] + [d];
      assert decisions[0] in decisions;
      LookupNew(decisions[1..], d);
    }
  }

  // The decision table after a fresh decision was handed out.
  function Persisted(decisions: seq<Decision>, d: Decision): seq<Decision> {
    if FreshId(decisions, d.key) then decisions + [d] else decisions
  }

  // The first answer stands in every later table, whatever else was decided since, exactly
  // when the key's row id was still free; otherwise the answer was never stored.
  lemma FirstAnswerStands(decisions: seq<Decision>, d: Decision)
    requires Lookup(decisions, d.key).None?
    ensures (forall later | Persisted(decisions, d) <= later :: Lookup(later, d.key) == Some(d))
            <==> forall other :: other in decisions ==> SafeId(other.key) != SafeId(d.key)
  {
    if FreshId(decisions, d.key) {
      LookupNew(decisions, d);
      forall later | Persisted(decisions, d) <= later
        ensures Lookup(later, d.key) == Some(d)
      {
        LookupLasts(Persisted(decisions, d), later, d.key);
      }
    } else {
      assert Persisted(decisions, d) <= decisions;
    }
  }

  // Two ordinary keys with one row id.
  lemma KeysCollide()
    ensures "route/security-1" != "route-security-1"
    ensures SafeId("route/security-1") == SafeId("route-security-1")
  {
    assert Replaced("route/security-1") == Replaced("route-security-1");
  }

  // ----- escalations --------------------------------------------------------

  function EscalationTarget(edges: seq<Edge>, from: string): Option<string> {
    if edges == [] then None
    else if edges[0].from == from && edges[0].relation in ESCALATION then Some(edges[0].to)
    else EscalationTarget(edges[1..], from)
  }

  // The target is that of the first edge by which the agent must escalate or reports...
  lemma {:induction false} TargetIsFirst(before: seq<Edge>, e: Edge, after: seq<Edge>)
    requires forall x :: x in before && x.from == e.from ==> x.relation != MustEscalateTo && x.relation != ReportsTo
    requires e.relation == MustEscalateTo || e.relation == ReportsTo
    ensures EscalationTarget(before + [e] + after, e.from) == Some(e.to)
  {
    if before == [] {
      assert [] + [e] + after == [e] + after;
    } else {
      TargetIsFirst(before[1..], e, after);
      assert (before + [e] + after)[1..] == before[1..] + [e] + after;
    }
  }

  // ... and without such an edge there is none.
  lemma {:induction false} NoTarget(edges: seq<Edge>, from: string)
    requires forall x :: x in edges && x.from == from ==> x.relation != MustEscalateTo && x.relation != ReportsTo
    ensures EscalationTarget(edges, from) == None
  {
    if edges == [] {
    } else {
      NoTarget(edges[1..], from);
    }
  }

  lemma {:induction false} TargetIsOneStep(edges: seq<Edge>, all: seq<Edge>, from: string)
    requires EscalationTarget(edges, from).Some? && Stored(all)
    requires forall e :: e in edges ==> e in all
    ensures EscalationTarget(edges, from).value != ""
    ensures Walk(all, ESCALATION, from, EscalationTarget(edges, from).value, [from, EscalationTarget(edges, from).value])
  {
    if edges[0].from == from && edges[0].relation in ESCALATION {
      assert Crosses(edges[0], ESCALATION, from, edges[0].to);
    } else {
      TargetIsOneStep(edges[1..], all, from);
    }
  }

  // Where the target was found through an edge, the shortest walk to it is that one step.
  lemma StepIsShortest(edges: seq<Edge>, relations: seq<Relation>, a: string, b: string, w: seq<string>)
    requires Walk(edges, relations, a, b, [a, b]) && Walk(edges, relations, a, b, w) && Shortest(edges, relations, w)
    ensures w == if a == b then [a] else [a, b]
  {
    if a == b {
      assert Walk(edges, relations, a, b, [a]);
    }
  }

  function FindEscalation(escalations: seq<Escalation>, kind: string, subject: string): (r: Option<Escalation>)
    ensures r.Some? ==> r.value in escalations && r.value.kind == kind && r.value.subject == subject
    ensures r.None? ==> forall e :: e in escalations ==> e.kind != kind || e.subject != subject
  {
    if escalations == [] then None
    else if escalations[0].kind == kind && escalations[0].subject == subject then Some(escalations[0])
    else FindEscalation(escalations[1..], kind, subject)
  }

  predicate FreeEscalation(escalations: seq<Escalation>, kind: string, subject: string) {
    forall e :: e in escalations ==> e.kind != kind || SafeId(e.subject) != SafeId(subject)
  }

  // The target given by the caller, or else the first superior of the requester.
  function TargetOf(edges: seq<Edge>, requestedBy: Option<string>, target: Option<string>): Option<string> {
    if target.Some? then target
    else if requestedBy.Some? then EscalationTarget(edges, requestedBy.value)
    else None
  }

  // The path of an escalation: a shortest one from the requester to the target, if there is any.
  ghost predicate EscalationPath(edges: seq<Edge>, requestedBy: Option<string>, target: Option<string>, path: seq<string>) {
    if requestedBy.Some? && target.Some? && Reachable(edges, ESCALATION, requestedBy.value, target.value)
    then Walk(edges, ESCALATION, requestedBy.value, target.value, path) && Shortest(edges, ESCALATION, path)
    else path == []
  }

  // An escalation answered to the caller, and the table after it: what is there already for the
  // subject is returned; a new one is stored if its row id is free.
  ghost predicate Escalates(before: seq<Escalation>, edges: seq<Edge>, kind: string, subject: string,
                            requestedBy: Option<string>, target: Option<string>, e: Escalation, after: seq<Escalation>)
  {
    match FindEscalation(before, kind, subject)
    case Some(existing) => e == existing && after == before
    case None =>
      && e.kind == kind && e.subject == subject && e.target == TargetOf(edges, requestedBy, target)
      && EscalationPath(edges, requestedBy, e.target, e.path) && |e.path| <= MAX_PATH
      && after == if FreeEscalation(before, kind, subject) then before + [e] else before
  }

  ghost predicate EscalatesRequest(before: seq<Escalation>, edges: seq<Edge>, request: Request, after: seq<Escalation>) {
    exists e :: Escalates(before, edges, ROUTING, request.key, request.requestedBy, None, e, after)
  }

  // An escalation whose target was found through an edge has the one step to it as its path.
  lemma FoundTargetIsNear(edges: seq<Edge>, requestedBy: string, path: seq<string>)
    requires Stored(edges) && requestedBy != "" && EscalationTarget(edges, requestedBy).Some?
    requires EscalationPath(edges, Some(requestedBy), EscalationTarget(edges, requestedBy), path)
    ensures var target := EscalationTarget(edges, requestedBy).value;
            path == if requestedBy == target then [requestedBy] else [requestedBy, target]
  {
    var target := EscalationTarget(edges, requestedBy).value;
    TargetIsOneStep(edges, edges, requestedBy);
    StepIsShortest(edges, ESCALATION, requestedBy, target, path);
  }

  // Nobody is named "", so no step leads there.
  lemma EmptyIsUnreachable(edges: seq<Edge>, relations: seq<Relation>, a: string)
    requires a != ""
    ensures !Reachable(edges, relations, a, "")
  {
    forall w | w != [] && w[0] == a && w[|w| - 1] == ""
      ensures !IsWalk(edges, relations, w)
    {
      assert !StepAt(edges, relations, w, |w| - 2);
    }
  }

  // ----- the service --------------------------------------------------------

  // What a fresh decision means: who was chosen and on what authority.
  ghost predicate Means(d: Decision, request: Request, edges: seq<Edge>, candidate: Option<AgentRow>) {
    && d.key == request.key
    && match d.status
       case Routed =>
         && candidate.Some? && d.selected == Some(candidate.value.agentId)
         && d.departmentId == candidate.value.departmentId && d.escalation.None?
         && (request.requestedBy.Some? ==>
               && Walk(edges, DELEGATION, request.requestedBy.value, candidate.value.agentId, d.path)
               && Shortest(edges, DELEGATION, d.path) && |d.path| <= MAX_PATH)
         && (request.requestedBy.None? ==> d.path == [candidate.value.agentId])
       case Rejected =>
         && candidate.Some? && d.selected.None? && d.departmentId == request.departmentId
         && d.path == [] && d.escalation == Some(SafeId(request.key))
         && request.requestedBy.Some?
         && !Reachable(edges, DELEGATION, request.requestedBy.value, candidate.value.agentId)
       case Escalated =>
         && candidate.None? && d.selected.None? && d.departmentId == request.departmentId
         && d.path == [] && d.escalation == Some(SafeId(request.key))
  }

  // The only failure: the shortest authority path is longer than a stored decision may hold.
  ghost predicate TooLong(request: Request, edges: seq<Edge>, candidate: Option<AgentRow>) {
    && candidate.Some? && request.requestedBy.Some?
    && exists w :: Walk(edges, DELEGATION, request.requestedBy.value, candidate.value.agentId, w)
                   && Shortest(edges, DELEGATION, w) && |w| > MAX_PATH
  }

  // Whose authority a decision rests on, field by field and relation by relation.
  lemma DecisionsRestOnAuthority(d: Decision, request: Request, edges: seq<Edge>, candidate: Option<AgentRow>)
    requires Means(d, request, edges, candidate)
    ensures d.status == Routed ==>
      candidate.Some?
      && d == Decision(request.key, Routed, Some(candidate.value.agentId), candidate.value.departmentId, d.path, None)
    ensures d.status == Routed && request.requestedBy.None? ==> d.path == [candidate.value.agentId]
    ensures d.status == Routed && request.requestedBy.Some? ==>
      var asker, agent, delegation := request.requestedBy.value, candidate.value.agentId, [Manages, MayDelegateTo, ReportsTo];
      && Walk(edges, delegation, asker, agent, d.path) && |d.path| <= 128
      && forall w :: Walk(edges, delegation, asker, agent, w) ==> |d.path| <= |w|
    ensures d.status != Routed ==>
      d == Decision(request.key, d.status, None, request.departmentId, [], Some(SafeId(request.key)))
    ensures d.status == Rejected ==>
      candidate.Some? && request.requestedBy.Some?
      && !Reachable(edges, [Manages, MayDelegateTo, ReportsTo], request.requestedBy.value, candidate.value.agentId)
    ensures d.status == Escalated ==> candidate == None
  {}

  lemma RefusedPathsAreLong(request: Request, edges: seq<Edge>, candidate: Option<AgentRow>, w: seq<string>)
    requires TooLong(request, edges, candidate)
    ensures request.requestedBy.Some? && candidate.Some?
    ensures Reachable(edges, [Manages, MayDelegateTo, ReportsTo], request.requestedBy.value, candidate.value.agentId)
    ensures Walk(edges, [Manages, MayDelegateTo, ReportsTo], request.requestedBy.value, candidate.value.agentId, w) ==> |w| > 128
  {}

  // What was escalated before is answered as it was. A new escalation goes to the agent given, or
  // to the first superior of the requester, along the edges by which agents escalate and report.
  lemma EscalationsGoUp(before: seq<Escalation>, edges: seq<Edge>, kind: string, subject: string, requestedBy: Option<string>,
                        target: Option<string>, e: Escalation, after: seq<Escalation>)
    requires Escalates(before, edges, kind, subject, requestedBy, target, e, after)
    ensures e.kind == kind && e.subject == subject
    ensures (exists x :: x in before && x.kind == kind && x.subject == subject) ==> e in before && after == before
    ensures (forall x :: x in before ==> x.kind != kind || x.subject != subject) ==>
      && e.target == (if target.Some? || requestedBy.None? then target else EscalationTarget(edges, requestedBy.value))
      && |e.path| <= 128
      && (if requestedBy.Some? && e.target.Some? && Reachable(edges, [MustEscalateTo, ReportsTo], requestedBy.value, e.target.value)
          then Walk(edges, [MustEscalateTo, ReportsTo], requestedBy.value, e.target.value, e.path)
               && forall w :: Walk(edges, [MustEscalateTo, ReportsTo], requestedBy.value, e.target.value, w) ==> |e.path| <= |w|
          else e.path == [])
      && after == if exists x :: x in before && x.kind == kind && SafeId(x.subject) == SafeId(subject) then before else before + [e]
  {}

  // A request without an authorized agent is escalated as routing, under its own key.
  lemma RequestsEscalate(before: seq<Escalation>, edges: seq<Edge>, request: Request, after: seq<Escalation>) returns (e: Escalation)
    requires EscalatesRequest(before, edges, request, after)
    ensures e.kind == "routing" && e.subject == request.key
    ensures Escalates(before, edges, "routing", request.key, request.requestedBy, None, e, after)
  {
    e :| Escalates(before, edges, ROUTING, request.key, request.requestedBy, None, e, after);
  }

  class ControlPlane {
    const organization: Organization
    var departments: map<string, DepartmentStatus>
    var decisions: seq<Decision>
    var escalations: seq<Escalation>

    constructor (organization: Organization)
      ensures this.organization == organization
      ensures departments == map[] && decisions == [] && escalations == []
    {
      this.organization := organization;
      departments, decisions, escalations := map[], [], [];
    }

    // Identifiers as parsed: trimmed and not empty.
    method CreateEscalation(kind: string, subject: string, requestedBy: Option<string>, target: Option<string>)
      returns (r: Result<Escalation, RouteError>)
      requires Stored(organization.authority.edges)
      requires (requestedBy.Some? ==> requestedBy.value != "") && (target.Some? ==> target.value != "")
      modifies this`escalations
      ensures r.Success? ==>
                Escalates(old(escalations), organization.authority.edges, kind, subject, requestedBy, target, r.value, escalations)
      ensures r.Failure? ==>
                && escalations == old(escalations) && FindEscalation(escalations, kind, subject).None?
                && requestedBy.Some? && target.Some?
                && exists w :: Walk(organization.authority.edges, ESCALATION, requestedBy.value, target.value, w)
                               && Shortest(organization.authority.edges, ESCALATION, w) && |w| > 128
    {
      var existing := FindEscalation(escalations, kind, subject);
      if existing.Some? {
        return Success(existing.value);
      }
      var edges := organization.authority.edges;
      var to := TargetOf(edges, requestedBy, target);
      var path: Option<seq<string>> := None;
      if requestedBy.Some? {
        if target.None? && to.Some? {
          TargetIsOneStep(edges, edges, requestedBy.value);
        }
        path := FindPath(edges, requestedBy.value, if to.Some? then to.value else "", ESCALATION);
      }
      var e := Escalation(kind, subject, to, if path.Some? then path.value else []);
      if |e.path| > MAX_PATH {
        return Failure(PathTooLong);
      }
      if FreeEscalation(escalations, kind, subject) {
        escalations := escalations + [e];
      }
      return Success(e);
    }

    method PersistRouting(d: Decision) returns (r: Decision)
      requires Lookup(decisions, d.key).None?
      modifies this`decisions
      ensures r == d
      ensures decisions == Persisted(old(decisions), d)
    {
      if FreshId(decisions, d.key) {
        decisions := decisions + [d];
      }
      return d;
    }

    method Refuse(request: Request, status: RoutingStatus) returns (d: Decision)
      requires Stored(organization.authority.edges) && Lookup(decisions, request.key).None?
      requires request.requestedBy.Some? ==> request.requestedBy.value != ""
      modifies this`decisions, this`escalations
      ensures d == Decision(request.key, status, None, request.departmentId, [], Some(SafeId(request.key)))
      ensures decisions == Persisted(old(decisions), d)
      ensures EscalatesRequest(old(escalations), organization.authority.edges, request, escalations)
    {
      var created := CreateEscalation(ROUTING, request.key, request.requestedBy, None);
      var escalation := created.value;
      d := PersistRouting(Decision(request.key, status, None, request.departmentId, [], Some(SafeId(escalation.subject))));
    }

    method Route(leq: (string, string) -> bool, request: Request) returns (r: Result<Decision, RouteError>)
      requires Stored(organization.authority.edges)
      requires request.requestedBy.Some? ==> request.requestedBy.value != ""
      modifies this`decisions, this`escalations
      ensures Lookup(old(decisions), request.key).Some? ==>
                && r == Success(Lookup(old(decisions), request.key).value)
                && decisions == old(decisions) && escalations == old(escalations)
      ensures Lookup(old(decisions), request.key).None? ==>
                var c := Candidate(leq, organization.agents, departments, request);
                && (r.Failure? <==> TooLong(request, organization.authority.edges, c))
                && (r.Success? ==> Means(r.value, request, organization.authority.edges, c))
                && (r.Failure? ==> decisions == old(decisions))
                && (r.Success? ==> decisions == Persisted(old(decisions), r.value))
                && (r.Failure? || r.value.status == Routed ==> escalations == old(escalations))
                && (r.Success? && r.value.status != Routed ==>
                      EscalatesRequest(old(escalations), organization.authority.edges, request, escalations))
    {
      var existing := Lookup(decisions, request.key);
      if existing.Some? {
        return Success(existing.value);
      }
      var edges := organization.authority.edges;
      var candidate := Candidate(leq, organization.agents, departments, request);
      var path: Option<seq<string>> := Some([]);
      if candidate.Some? && request.requestedBy.Some? {
        EmptyIsUnreachable(edges, DELEGATION, request.requestedBy.value);
        path := FindPath(edges, request.requestedBy.value, candidate.value.agentId, DELEGATION);
      } else if candidate.Some? {
        path := Some([candidate.value.agentId]);
      }
      if candidate.Some? && path.Some? {
        if |path.value| > MAX_PATH {
          return Failure(PathTooLong);
        }
        var routed := PersistRouting(
          Decision(request.key, Routed, Some(candidate.value.agentId), candidate.value.departmentId, path.value, None));
        return Success(routed);
      }
      var refused := Refuse(request, if candidate.Some? then Rejected else Escalated);
      return Success(refused);
    }
  }
}
