// Reconciling the agent definitions of an organization into its service agents and
// authority edges (packages/company/src/operational-governance.ts, with registerServiceAgent
// in packages/company/src/index.ts).
module Reconciliation {
  import opened Wrappers
  import opened AuthorityGraph
  import opened Hierarchy
  import opened ManagerChains

  datatype AgentStatus = Active | Paused | Stale | Retired

  datatype AgentRow = AgentRow(
    agentId: string, departmentId: Option<string>, status: AgentStatus, failureCount: nat, metadata: Metadata)

  datatype ReconcileError =
    | DuplicateId | MalformedId | MissingReference | SelfReference
    | Relations(cause: AcyclicError)
    | RowConflict
    | EdgeRefused(refusal: EdgeError)

  // ----- service agents -----------------------------------------------------

  function FindRow(rows: seq<AgentRow>, id: string): (r: Option<nat>)
    ensures r.Some? ==> r.value < |rows| && rows[r.value].agentId == id
    ensures r.Some? ==> forall j :: 0 <= j < r.value ==> rows[j].agentId != id
    ensures r.None? ==> forall row :: row in rows ==> row.agentId != id
  {
    if rows == [] then None
    else if rows[0].agentId == id then Some(0)
    else
      var later := FindRow(rows[1..], id);
      if later.Some? then Some(later.value + 1) else None
  }

  // Looked up as given, stored trimmed; a second row for a stored id breaks the unique index.
  function Register(rows: seq<AgentRow>, id: string, departmentId: Option<string>, metadata: Metadata): Option<seq<AgentRow>> {
    match FindRow(rows, id)
    case Some(i) =>
      var row := rows[i];
      Some(rows[i := row.(
        departmentId := if departmentId.Some? then departmentId else row.departmentId,
        metadata := metadata,
        status := if row.status == Retired then Retired else Active)])
    case None =>
      if FindRow(rows, Trim(id)).Some? then None
      else Some(rows + [AgentRow(Trim(id), departmentId, Active, 0, metadata)])
  }

  // The rows after registering the definitions in order; a failure keeps what came before it.
  function RegisterAll(rows: seq<AgentRow>, defs: seq<Definition>): Result<seq<AgentRow>, seq<AgentRow>> {
    if defs == [] then Success(rows)
    else
      match RegisterAll(rows, defs[..|defs| - 1])
      case Failure(partial) => Failure(partial)
      case Success(before) =>
        var d := defs[|defs| - 1];
        match Register(before, d.id, None, d.metadata.(definitionManaged := true))
        case None => Failure(before)
        case Some(after) => Success(after)
  }

  lemma RegisterNext(rows: seq<AgentRow>, defs: seq<Definition>, i: nat, before: seq<AgentRow>)
    requires i < |defs| && RegisterAll(rows, defs[..i]) == Success(before)
    ensures RegisterAll(rows, defs[..i + 1]) ==
      match Register(before, defs[i].id, None, defs[i].metadata.(definitionManaged := true)) {
        case None => Failure(before)
        case Some(after) => Success(after)
      }
  {
    assert defs[..i + 1][..i] == defs[..i];
  }

  function Retire(rows: seq<AgentRow>, ids: set<string>): seq<AgentRow> {
    seq(|rows|, i requires 0 <= i < |rows| =>
      if rows[i].metadata.definitionManaged && rows[i].agentId !in ids then rows[i].(status := Retired) else rows[i])
  }

  function ManagedIds(rows: seq<AgentRow>): set<string> {
    set row | row in rows && row.metadata.definitionManaged :: row.agentId
  }

  predicate Touches(e: Edge, ids: set<string>) {
    e.relation in HIERARCHY && (e.from in ids || e.to in ids)
  }

  function Kept(edges: seq<Edge>, ids: set<string>): (r: seq<Edge>)
    ensures forall e :: e in r <==> e in edges && !Touches(e, ids)
  {
    if edges == [] then []
    else
      var rest, last := Kept(edges[..|edges| - 1], ids), edges[|edges| - 1];
      if Touches(last, ids) then rest else rest + [last]
  }

  // ----- the definitions ----------------------------------------------------

  // What is kept stays in its order, as often as it was there.
  lemma KeptMore(edges: seq<Edge>, e: Edge, ids: set<string>)
    ensures Kept(edges + [e], ids) == Kept(edges, ids) + if Touches(e, ids) then [] else [e]
  {
    assert (edges + [e])[..|edges + [e]| - 1] == edges;
  }

  function DefIds(defs: seq<Definition>): set<string> {
    set d | d in defs :: d.id
  }

  function Related(d: Definition): seq<string> {
    (if d.reportsTo != "" then [d.reportsTo] else []) + d.manages + d.peers
  }

  predicate WellNamed(d: Definition, ids: set<string>) {
    "agent/" <= d.id && forall id :: id in Related(d) ==> id in ids && id != d.id
  }

  predicate Valid(defs: seq<Definition>) {
    && (forall i, j :: 0 <= i < j < |defs| ==> defs[i].id != defs[j].id)
    && (forall d :: d in defs ==> WellNamed(d, DefIds(defs)))
  }

  predicate AllTrimmed(defs: seq<Definition>) {
    forall d :: d in defs ==> Trimmed(d.id)
  }

  // Each refusal is true of the definitions.
  ghost predicate Blames(defs: seq<Definition>, e: ReconcileError) {
    match e
    case DuplicateId => exists i, j :: 0 <= i < j < |defs| && defs[i].id == defs[j].id
    case MalformedId => exists d :: d in defs && !("agent/" <= d.id)
    case MissingReference => exists d, id :: d in defs && id in Related(d) && id !in DefIds(defs)
    case SelfReference => exists d :: d in defs && d.id in Related(d)
    case _ => false
  }

  method Validate(defs: seq<Definition>) returns (r: Result<set<string>, ReconcileError>)
    ensures r.Success? <==> Valid(defs)
    ensures r.Success? ==> r.value == DefIds(defs)
    ensures r.Failure? ==> Blames(defs, r.error)
  {
    var ids: set<string> := {};
    for i := 0 to |defs|
      invariant ids == DefIds(defs[..i])
      invariant forall k, l :: 0 <= k < l < i ==> defs[k].id != defs[l].id
    {
      assert defs[..i + 1] == defs[..i] + [defs[i]];
      if defs[i].id in ids {
        assert exists d :: d in defs[..i] && d.id == defs[i].id;
        return Failure(DuplicateId);
      }
      ids := ids + {defs[i].id};
    }
    assert defs[..|defs|] == defs;
    for i := 0 to |defs|
      invariant forall k :: 0 <= k < i ==> WellNamed(defs[k], ids)
    {
      var d := defs[i];
      assert d in defs;
      if !("agent/" <= d.id) {
        return Failure(MalformedId);
      }
      var related := Related(d);
      for j := 0 to |related|
        invariant forall k :: 0 <= k < j ==> related[k] in ids && related[k] != d.id
      {
        assert related[j] in Related(d);
        if related[j] !in ids {
          return Failure(MissingReference);
        }
        if related[j] == d.id {
          return Failure(SelfReference);
        }
      }
    }
    return Success(ids);
  }

  // What the checks ask for, relation by relation.
  lemma ValidAsksFor(defs: seq<Definition>)
    ensures Valid(defs) <==>
      && (forall i, j :: 0 <= i < j < |defs| ==> defs[i].id != defs[j].id)
      && (forall d :: d in defs ==>
            && "agent/" <= d.id
            && (d.reportsTo != "" ==> d.reportsTo != d.id && exists m :: m in defs && m.id == d.reportsTo)
            && (forall a :: a in d.manages ==> a != d.id && exists m :: m in defs && m.id == a)
            && (forall a :: a in d.peers ==> a != d.id && exists m :: m in defs && m.id == a))
  {
    var ids := DefIds(defs);
    forall a ensures a in ids <==> exists m :: m in defs && m.id == a {}
    forall d | d in defs {
      RelatedAll(d, ids);
    }
  }

  // And what a refusal blames: the definition at fault, and the id it names.
  lemma BlameIsTrue(defs: seq<Definition>, e: ReconcileError) returns (d: Definition, id: string)
    requires Blames(defs, e)
    ensures d in defs
    ensures e == DuplicateId ==> exists i, j :: 0 <= i < j < |defs| && defs[i] == d && defs[i].id == defs[j].id
    ensures e == MalformedId ==> !("agent/" <= d.id)
    ensures e == MissingReference || e == SelfReference ==> (id != "" && id == d.reportsTo) || id in d.manages || id in d.peers
    ensures e == MissingReference ==> forall m :: m in defs ==> m.id != id
    ensures e == SelfReference ==> id == d.id
    ensures e == DuplicateId || e == MalformedId || e == MissingReference || e == SelfReference
  {
    id := "";
    match e
    case DuplicateId =>
      var i, j :| 0 <= i < j < |defs| && defs[i].id == defs[j].id;
      d := defs[i];
    case MalformedId => d :| d in defs && !("agent/" <= d.id);
    case MissingReference => d, id :| d in defs && id in Related(d) && id !in DefIds(defs);
    case SelfReference =>
      d :| d in defs && d.id in Related(d);
      id := d.id;
  }

  lemma RelatedAll(d: Definition, ids: set<string>)
    ensures (forall a :: a in Related(d) ==> a in ids && a != d.id) <==>
      && (d.reportsTo != "" ==> d.reportsTo in ids && d.reportsTo != d.id)
      && (forall a :: a in d.manages ==> a in ids && a != d.id)
      && (forall a :: a in d.peers ==> a in ids && a != d.id)
  {
    forall a ensures a in Related(d) <==> (a == d.reportsTo && a != "") || a in d.manages || a in d.peers {}
  }

  // ----- what registration writes -------------------------------------------

  predicate UniqueRows(rows: seq<AgentRow>) {
    forall i, j :: 0 <= i < j < |rows| ==> rows[i].agentId != rows[j].agentId
  }

  // A known agent takes the new metadata and, if given, the new department; it is active unless
  // retired. An unknown one starts active, without failures.
  lemma RegisterWrites(rows: seq<AgentRow>, id: string, departmentId: Option<string>, metadata: Metadata)
    requires UniqueRows(rows)
    ensures forall i :: 0 <= i < |rows| && rows[i].agentId == id ==>
      Register(rows, id, departmentId, metadata) ==
        Some(rows[i := AgentRow(id, if departmentId.Some? then departmentId else rows[i].departmentId,
                                if rows[i].status == Retired then Retired else Active, rows[i].failureCount, metadata)])
    ensures (forall row :: row in rows ==> row.agentId != id) ==>
      Register(rows, id, departmentId, metadata) ==
        if exists row :: row in rows && row.agentId == Trim(id) then None
        else Some(rows + [AgentRow(Trim(id), departmentId, Active, 0, metadata)])
  {}

  ghost predicate RegisteredRow(was: AgentRow, ids: set<string>, row: AgentRow) {
    && row.agentId == was.agentId
    && if was.agentId in ids
       then row.departmentId == was.departmentId && row.failureCount == was.failureCount && row.metadata.definitionManaged
            && row.status == if was.status == Retired then Retired else Active
       else row == was
  }

  ghost predicate NewRow(ids: set<string>, row: AgentRow) {
    row.agentId in ids && row.departmentId == None && row.status == Active && row.failureCount == 0
    && row.metadata.definitionManaged
  }

  // Rows keep their places; new ones follow.
  ghost predicate RegisteredRowsOf(rows: seq<AgentRow>, ids: set<string>, after: seq<AgentRow>) {
    && |rows| <= |after| && UniqueRows(after)
    && (forall i :: 0 <= i < |rows| ==> RegisteredRow(rows[i], ids, after[i]))
    && (forall i :: |rows| <= i < |after| ==> NewRow(ids, after[i]))
  }

  lemma RegisterStep(rows: seq<AgentRow>, ids: set<string>, before: seq<AgentRow>, id: string, metadata: Metadata)
    requires RegisteredRowsOf(rows, ids, before) && Trimmed(id) && metadata.definitionManaged
    requires Register(before, id, None, metadata).Some?
    ensures RegisteredRowsOf(rows, ids + {id}, Register(before, id, None, metadata).value)
  {
    TrimIsTrimmed(id);
    RegisterWrites(before, id, None, metadata);
    var after := Register(before, id, None, metadata).value;
    forall i | 0 <= i < |rows| ensures RegisteredRow(rows[i], ids + {id}, after[i]) {
      assert RegisteredRow(rows[i], ids, before[i]);
    }
    forall i | |rows| <= i < |after| ensures NewRow(ids + {id}, after[i]) {
      assert i < |before| ==> NewRow(ids, before[i]);
    }
  }

  lemma {:induction false} RegisterAllWrites(rows: seq<AgentRow>, defs: seq<Definition>)
    requires UniqueRows(rows) && AllTrimmed(defs) && RegisterAll(rows, defs).Success?
    ensures RegisteredRowsOf(rows, DefIds(defs), RegisterAll(rows, defs).value)
  {
    if defs == [] {
    } else {
      var earlier, d := defs[..|defs| - 1], defs[|defs| - 1];
      assert defs == earlier + [d];
      RegisterAllWrites(rows, earlier);
      RegisterStep(rows, DefIds(earlier), RegisterAll(rows, earlier).value, d.id, d.metadata.(definitionManaged := true));
      assert DefIds(defs) == DefIds(earlier) + {d.id};
    }
  }

  ghost predicate HasDefined(rows: seq<AgentRow>, d: Definition) {
    exists row :: row in rows && row.agentId == d.id && row.metadata == d.metadata.(definitionManaged := true)
  }

  lemma RegisterKeepsDefined(rows: seq<AgentRow>, d: Definition, id: string, metadata: Metadata)
    requires UniqueRows(rows) && Register(rows, id, None, metadata).Some?
    requires HasDefined(rows, d) && d.id != id
    ensures HasDefined(Register(rows, id, None, metadata).value, d)
  {
    RegisterWrites(rows, id, None, metadata);
    var after := Register(rows, id, None, metadata).value;
    var row :| row in rows && row.agentId == d.id && row.metadata == d.metadata.(definitionManaged := true);
    var k :| 0 <= k < |rows| && rows[k] == row;
    assert after[k] == row && after[k] in after;
  }

  lemma RegisterDefines(rows: seq<AgentRow>, d: Definition)
    requires UniqueRows(rows) && Trimmed(d.id)
    requires Register(rows, d.id, None, d.metadata.(definitionManaged := true)).Some?
    ensures HasDefined(Register(rows, d.id, None, d.metadata.(definitionManaged := true)).value, d)
  {
    TrimIsTrimmed(d.id);
    RegisterWrites(rows, d.id, None, d.metadata.(definitionManaged := true));
    var after := Register(rows, d.id, None, d.metadata.(definitionManaged := true)).value;
    var k := match FindRow(rows, d.id) case Some(i) => i case None => |rows|;
    assert after[k] in after;
  }

  // Every defined agent has a row with the metadata of its definition.
  lemma {:induction false} DefinitionsWritten(rows: seq<AgentRow>, defs: seq<Definition>, d: Definition)
    requires UniqueRows(rows) && AllTrimmed(defs) && RegisterAll(rows, defs).Success? && d in defs
    requires forall i, j :: 0 <= i < j < |defs| ==> defs[i].id != defs[j].id
    ensures HasDefined(RegisterAll(rows, defs).value, d)
  {
    var earlier, last := defs[..|defs| - 1], defs[|defs| - 1];
    assert defs == earlier + [last];
    RegisterAllWrites(rows, earlier);
    if d == last {
      RegisterDefines(RegisterAll(rows, earlier).value, d);
    } else {
      DefinitionsWritten(rows, earlier, d);
      RegisterKeepsDefined(RegisterAll(rows, earlier).value, d, last.id, last.metadata.(definitionManaged := true));
    }
  }

  // ----- registration needs trimmed ids -------------------------------------

  lemma {:induction false} RegisteredRows(rows: seq<AgentRow>, defs: seq<Definition>)
    requires AllTrimmed(defs)
    ensures RegisterAll(rows, defs).Success?
    ensures DefIds(defs) <= ManagedIds(RegisterAll(rows, defs).value)
  {
    if defs == [] {
    } else {
      var earlier, d := defs[..|defs| - 1], defs[|defs| - 1];
      assert defs == earlier + [d];
      RegisteredRows(rows, earlier);
      TrimIsTrimmed(d.id);
      var before, after := RegisterAll(rows, earlier).value, RegisterAll(rows, defs).value;
      RegisterKeepsManaged(before, d.id, d.metadata.(definitionManaged := true));
    }
  }

  lemma RegisterKeepsManaged(rows: seq<AgentRow>, id: string, metadata: Metadata)
    requires metadata.definitionManaged && Trimmed(id) && Register(rows, id, None, metadata).Some?
    ensures ManagedIds(rows) + {id} <= ManagedIds(Register(rows, id, None, metadata).value)
  {
    TrimIsTrimmed(id);
    var after := Register(rows, id, None, metadata).value;
    assert exists row :: row in after && row.agentId == id && row.metadata.definitionManaged by {
      var k := match FindRow(rows, id) case Some(i) => i case None => |rows|;
      assert after[k] in after;
    }
    forall row | row in rows && row.metadata.definitionManaged
      ensures row.agentId in ManagedIds(after)
    {
      var k :| 0 <= k < |rows| && rows[k] == row;
      assert after[k] in after;
    }
  }

  // The stored ids of service agents are trimmed.
  predicate StoredRows(rows: seq<AgentRow>) {
    forall row :: row in rows ==> Trimmed(row.agentId)
  }

  lemma {:induction false} UntrimmedFails(rows: seq<AgentRow>, defs: seq<Definition>, d: Definition)
    requires d in defs && !Trimmed(d.id)
    requires StoredRows(rows) && exists row :: row in rows && row.agentId == Trim(d.id)
    ensures RegisterAll(rows, defs).Failure?
    decreases |defs|
  {
    var earlier, last := defs[..|defs| - 1], defs[|defs| - 1];
    assert defs == earlier + [last];
    if d in earlier {
      UntrimmedFails(rows, earlier, d);
    } else if RegisterAll(rows, earlier).Success? {
      RowsStay(rows, earlier, Trim(d.id));
    }
  }

  lemma {:induction false} RowsStay(rows: seq<AgentRow>, defs: seq<Definition>, id: string)
    requires StoredRows(rows) && exists row :: row in rows && row.agentId == id
    requires RegisterAll(rows, defs).Success?
    ensures StoredRows(RegisterAll(rows, defs).value)
    ensures exists row :: row in RegisterAll(rows, defs).value && row.agentId == id
  {
    if defs == [] {
    } else {
      var d := defs[|defs| - 1];
      RowsStay(rows, defs[..|defs| - 1], id);
      var before, after := RegisterAll(rows, defs[..|defs| - 1]).value, RegisterAll(rows, defs).value;
      TrimIsTrimmed(d.id);
      var row :| row in before && row.agentId == id;
      var k :| 0 <= k < |before| && before[k] == row;
      assert after[k] in after && after[k].agentId == id;
    }
  }

  // Registration goes through over every stored table exactly when no id has white space at an end.
  lemma RegistrationIsExact(defs: seq<Definition>)
    ensures (forall rows | StoredRows(rows) :: RegisterAll(rows, defs).Success?) <==> AllTrimmed(defs)
  {
    if AllTrimmed(defs) {
      forall rows | StoredRows(rows)
        ensures RegisterAll(rows, defs).Success?
      {
        RegisteredRows(rows, defs);
      }
    } else {
      var d :| d in defs && !Trimmed(d.id);
      TrimIsTrimmed(d.id);
      var rows := [AgentRow(Trim(d.id), None, Active, 0, d.metadata)];
      assert rows[0] in rows;
      UntrimmedFails(rows, defs, d);
    }
  }

  // ----- the reporting lines are never refused ------------------------------

  function Lines(order: seq<string>, managers: map<string, string>): seq<Edge>
    requires forall a :: a in order ==> a in managers
  {
    seq(|order|, i requires 0 <= i < |order| => Edge(order[i], managers[order[i]], ReportsTo))
  }

  // The manager function of the agents already linked.
  function LinkedSoFar(order: seq<string>, managers: map<string, string>): string -> string {
    a => if a in order && a in managers then managers[a] else ""
  }

  lemma {:induction false} SoFarIsUp(order: seq<string>, managers: map<string, string>, x: string, n: nat)
    requires Up(LinkedSoFar(order, managers), x, n) != ""
    ensures Up(a => Get(managers, a), x, n) == Up(LinkedSoFar(order, managers), x, n)
    decreases n
  {
    var f, g := a => Get(managers, a), LinkedSoFar(order, managers);
    if n > 0 && x != "" {
      SoFarIsUp(order, managers, g(x), n - 1);
    }
  }

  ghost predicate LeadsTo(g: string -> string, x: string, a: string) {
    exists n: nat :: Up(g, x, n) == a
  }

  // Before `a` is linked it is a root of the lines so far, so one line does not change who leads to it.
  lemma LineKeepsLead(order: seq<string>, managers: map<string, string>, a: string, x: string)
    requires a !in order && a != "" && x in order && x in managers && x != ""
    ensures var g := LinkedSoFar(order, managers); LeadsTo(g, x, a) <==> LeadsTo(g, managers[x], a)
  {
    var g := LinkedSoFar(order, managers);
    if LeadsTo(g, x, a) {
      var n: nat :| Up(g, x, n) == a;
      assert n > 0 && Up(g, managers[x], n - 1) == a;
    }
    if LeadsTo(g, managers[x], a) {
      var n: nat :| Up(g, managers[x], n) == a;
      assert Up(g, x, n + 1) == a;
    }
  }

  ghost predicate Apart(ids: set<string>, g: string -> string, a: string, x: string) {
    x in ids && !LeadsTo(g, x, a)
  }

  // No walk over the kept edges and the lines so far leads from an agent's manager to the agent.
  lemma NeverRefused(kept: seq<Edge>, ids: set<string>, order: seq<string>, managers: map<string, string>, a: string)
    requires forall e :: e in kept ==> !Touches(e, ids)
    requires managers.Keys <= ids && managers.Values <= ids && "" !in ids
    requires forall x :: x in order ==> x in managers
    requires a in managers && a !in order && Ends(x => Get(managers, x), a)
    ensures !Reachable(kept + Lines(order, managers), HIERARCHY, managers[a], a)
  {
    var edges, g := kept + Lines(order, managers), LinkedSoFar(order, managers);
    var inside := (x: string) => Apart(ids, g, a, x);
    assert managers[a] in managers.Values;
    assert inside(managers[a]) by {
      if LeadsTo(g, managers[a], a) {
        var n: nat :| Up(g, managers[a], n) == a;
        SoFarIsUp(order, managers, managers[a], n);
        RepeatNeverEnds(x => Get(managers, x), a, 0, n + 1);
      }
    }
    assert !inside(a) by { assert Up(g, a, 0) == a; }
    forall x, y | inside(x) && Step(edges, HIERARCHY, x, y)
      ensures inside(y)
    {
      var e :| e in edges && Crosses(e, HIERARCHY, x, y);
      StepInside(kept, ids, order, managers, a, e, x, y);
    }
    forall w | Walk(edges, HIERARCHY, managers[a], a, w)
      ensures false
    {
      WalkStaysInside(edges, HIERARCHY, inside, w);
    }
  }

  lemma StepInside(kept: seq<Edge>, ids: set<string>, order: seq<string>, managers: map<string, string>,
                   a: string, e: Edge, x: string, y: string)
    requires forall e :: e in kept ==> !Touches(e, ids)
    requires managers.Keys <= ids && managers.Values <= ids && "" !in ids
    requires forall x :: x in order ==> x in managers
    requires a in managers && a !in order
    requires e in kept + Lines(order, managers) && Crosses(e, HIERARCHY, x, y)
    requires Apart(ids, LinkedSoFar(order, managers), a, x)
    ensures Apart(ids, LinkedSoFar(order, managers), a, y)
  {
    assert e !in kept by {
      assert e.relation in HIERARCHY && (e.from == x || e.to == x);
    }
    var i :| 0 <= i < |order| && Lines(order, managers)[i] == e;
    assert order[i] in order && managers[order[i]] in managers.Values;
    LineKeepsLead(order, managers, a, order[i]);
  }

  // ----- the reconciliation -------------------------------------------------

  // The managers of `defs` in the order in which they are first set.
  ghost predicate InOrder(defs: seq<Definition>, order: seq<string>, managers: map<string, string>) {
    && Distinct(order)
    && (forall a :: a in order <==> a in managers)
    && (forall a :: a in managers ==> Claims(defs, a, managers[a]))
  }

  lemma InOrderSet(defs: seq<Definition>, order: seq<string>, managers: map<string, string>, a: string, m: string)
    requires InOrder(defs, order, managers) && Claims(defs, a, m)
    ensures InOrder(defs, if a in managers then order else order + [a], managers[a := m])
  {}

  method OrderManagers(defs: seq<Definition>) returns (order: seq<string>, r: Option<map<string, string>>)
    requires Valid(defs)
    ensures r.None? ==> !OneManager(defs)
    ensures r.Some? ==> InOrder(defs, order, r.value)
    ensures r.Some? ==> forall a, m :: Claims(defs, a, m) ==> a in r.value
  {
    var managers: map<string, string> := map[];
    order := [];
    for i := 0 to |defs|
      invariant InOrder(defs, order, managers)
      invariant forall k :: 0 <= k < i ==> Recorded(defs[k], managers, |defs[k].manages|)
    {
      var after;
      LastOfUnique(defs, i);
      order, after := RecordDefinition(defs, defs[i], order, managers);
      if after.None? {
        return order, None;
      }
      managers := after.value;
    }
    forall a, m | Claims(defs, a, m)
      ensures a in managers
    {
      ClaimRecorded(defs, managers, a, m);
    }
    return order, Some(managers);
  }

  // The entries of one definition: its own manager, then everyone it manages.
  method RecordDefinition(ghost defs: seq<Definition>, d: Definition, order0: seq<string>, managers0: map<string, string>)
    returns (order: seq<string>, r: Option<map<string, string>>)
    requires d in defs && d.id != "" && LastReportsTo(defs, d.id) == d.reportsTo
    requires InOrder(defs, order0, managers0)
    ensures r.None? ==> !OneManager(defs)
    ensures r.Some? ==> InOrder(defs, order, r.value) && managers0.Keys <= r.value.Keys && Recorded(d, r.value, |d.manages|)
  {
    order := order0;
    var managers := managers0;
    if d.reportsTo != "" {
      InOrderSet(defs, order, managers, d.id, d.reportsTo);
      order := if d.id in managers then order else order + [d.id];
      managers := managers[d.id := d.reportsTo];
    }
    for j := 0 to |d.manages|
      invariant InOrder(defs, order, managers)
      invariant managers0.Keys <= managers.Keys && Recorded(d, managers, j)
    {
      var managed := d.manages[j];
      var current := Get(managers, managed);
      assert Claims(defs, managed, d.id);
      if current != "" && current != d.id {
        return order, None;
      }
      InOrderSet(defs, order, managers, managed, d.id);
      order := if managed in managers then order else order + [managed];
      managers := managers[managed := d.id];
    }
    return order, Some(managers);
  }

  predicate Recorded(d: Definition, managers: map<string, string>, j: nat)
    requires j <= |d.manages|
  {
    && (d.reportsTo != "" ==> d.id in managers)
    && (forall k :: 0 <= k < j ==> d.manages[k] in managers)
  }

  lemma ClaimRecorded(defs: seq<Definition>, managers: map<string, string>, a: string, m: string)
    requires Valid(defs) && Claims(defs, a, m)
    requires forall k :: 0 <= k < |defs| ==> Recorded(defs[k], managers, |defs[k].manages|)
    ensures a in managers
  {
    if LastReportsTo(defs, a) == m {
      if forall d :: d in defs ==> d.id != a {
        LastOfNone(defs, a);
      } else {
        var d :| d in defs && d.id == a;
        var k :| 0 <= k < |defs| && defs[k] == d;
        LastOfUnique(defs, k);
        assert Recorded(defs[k], managers, |defs[k].manages|);
      }
    } else {
      var d :| d in defs && d.id == m && a in d.manages;
      var k :| 0 <= k < |defs| && defs[k] == d;
      assert Recorded(defs[k], managers, |defs[k].manages|);
    }
  }

  lemma ClaimsStayInside(defs: seq<Definition>, managers: map<string, string>, order: seq<string>)
    requires Valid(defs) && InOrder(defs, order, managers)
    ensures managers.Keys <= DefIds(defs) && managers.Values <= DefIds(defs) && "" !in DefIds(defs)
  {
    forall a | a in managers
      ensures a in DefIds(defs) && managers[a] in DefIds(defs)
    {
      ClaimInside(defs, a, managers[a]);
    }
  }

  lemma ClaimInside(defs: seq<Definition>, a: string, m: string)
    requires Valid(defs) && Claims(defs, a, m)
    ensures a in DefIds(defs) && m in DefIds(defs) && a != m
  {
    if ManagedBy(defs, a, m) {
      var d :| d in defs && d.id == m && a in d.manages;
      assert a in Related(d);
    } else {
      if forall d :: d in defs ==> d.id != a {
        LastOfNone(defs, a);
      } else {
        var d :| d in defs && d.id == a;
        var k :| 0 <= k < |defs| && defs[k] == d;
        LastOfUnique(defs, k);
        assert m in Related(d);
      }
    }
  }

  // The edges left by the reconciliation: the kept ones, then one reporting line for each
  // agent with a manager.
  ghost predicate Reconciled(defs: seq<Definition>, kept: seq<Edge>, edges: seq<Edge>) {
    && kept <= edges
    && Distinct(edges[|kept|..])
    && forall e :: e in edges[|kept|..] <==> e.relation == ReportsTo && Claims(defs, e.from, e.to)
  }

  // So the hierarchy edges at a defined agent are exactly the reporting lines that the definitions claim.
  lemma ReconciledHierarchy(defs: seq<Definition>, kept: seq<Edge>, edges: seq<Edge>, e: Edge)
    requires Valid(defs) && Reconciled(defs, kept, edges)
    requires forall k :: k in kept ==> !Touches(k, DefIds(defs))
    ensures e in edges && Touches(e, DefIds(defs)) <==> e.relation == ReportsTo && Claims(defs, e.from, e.to)
  {
    assert edges == kept + edges[|kept|..];
    if e.relation == ReportsTo && Claims(defs, e.from, e.to) {
      ClaimInside(defs, e.from, e.to);
    }
  }

  lemma LinesReconcile(defs: seq<Definition>, kept: seq<Edge>, order: seq<string>, managers: map<string, string>)
    requires OneManager(defs) && InOrder(defs, order, managers)
    requires forall a, m :: Claims(defs, a, m) ==> a in managers
    ensures Reconciled(defs, kept, kept + Lines(order, managers))
  {
    var lines := Lines(order, managers);
    assert (kept + lines)[|kept|..] == lines;
    forall e: Edge | e.relation == ReportsTo && Claims(defs, e.from, e.to)
      ensures e in lines
    {
      assert Claims(defs, e.from, managers[e.from]);
      var i :| 0 <= i < |order| && order[i] == e.from;
      assert lines[i] == e;
    }
  }

  // Setting the first k reporting lines one after another.
  function LineCall(order: seq<string>, managers: map<string, string>, k: nat): EdgeCall
    requires k < |order| && forall a :: a in order ==> a in managers
  {
    assert order[k] in order;
    EdgeCall(order[k], managers[order[k]], ReportsTo)
  }

  ghost function LinkFirst(edges: seq<Edge>, order: seq<string>, managers: map<string, string>, k: nat): seq<Edge>
    requires k <= |order| && forall a :: a in order ==> a in managers
  {
    if k == 0 then edges else SetEdge(LinkFirst(edges, order, managers, k - 1), LineCall(order, managers, k - 1))
  }

  lemma LinkedNext(before: seq<Edge>, order: seq<string>, managers: map<string, string>, k: nat)
    requires k < |order| && forall a :: a in order ==> a in managers
    ensures LinkFirst(before, order, managers, k + 1)
      == SetEdge(LinkFirst(before, order, managers, k), LineCall(order, managers, k))
  {}

  ghost predicate Accepted(before: seq<Edge>, order: seq<string>, managers: map<string, string>, i: nat)
    requires i < |order| && forall a :: a in order ==> a in managers
  {
    Answer(LinkFirst(before, order, managers, i), LineCall(order, managers, i)).Success?
  }

  ghost predicate AllAccepted(before: seq<Edge>, order: seq<string>, managers: map<string, string>, k: nat)
    requires k <= |order| && forall a :: a in order ==> a in managers
  {
    forall i :: 0 <= i < k ==> Accepted(before, order, managers, i)
  }

  lemma OneMoreAccepted(before: seq<Edge>, order: seq<string>, managers: map<string, string>, k: nat)
    requires k < |order| && forall a :: a in order ==> a in managers
    requires AllAccepted(before, order, managers, k) && Accepted(before, order, managers, k)
    ensures AllAccepted(before, order, managers, k + 1)
  {}

  // The lines are set in order up to the first that is refused, if any.
  ghost predicate LinkedUntil(before: seq<Edge>, order: seq<string>, managers: map<string, string>,
                              r: Result<nat, EdgeError>, edges: seq<Edge>, k: nat)
  {
    && (forall a :: a in order ==> a in managers)
    && k <= |order| && edges == LinkFirst(before, order, managers, k)
    && AllAccepted(before, order, managers, k)
    && (if k == |order| then r == Success(k)
        else r.Failure? && Answer(edges, LineCall(order, managers, k)) == Failure(r.error))
  }

  ghost predicate LinkOutcome(defs: seq<Definition>, before: seq<Edge>, r: Result<nat, EdgeError>, edges: seq<Edge>) {
    exists order, managers, k: nat ::
      && InOrder(defs, order, managers) && (forall a, m :: Claims(defs, a, m) ==> a in managers)
      && LinkedUntil(before, order, managers, r, edges, k)
  }

  lemma NextAccepted(defs: seq<Definition>, kept: seq<Edge>, order: seq<string>, managers: map<string, string>, k: nat)
    requires Valid(defs) && AllTrimmed(defs) && InOrder(defs, order, managers) && k < |order|
    requires forall e :: e in kept ==> !Touches(e, DefIds(defs))
    requires forall a :: a in managers ==> Ends(x => Get(managers, x), a)
    requires LinkFirst(kept, order, managers, k) == kept + Lines(order[..k], managers)
    ensures Accepted(kept, order, managers, k)
    ensures LinkFirst(kept, order, managers, k + 1) == kept + Lines(order[..k + 1], managers)
  {
    assert order[k] in order;
    LinkOne(defs, kept, order, managers, k);
    LinkedNext(kept, order, managers, k);
  }

  // With trimmed ids every line is accepted.
  lemma {:induction false} AllLinked(defs: seq<Definition>, kept: seq<Edge>, order: seq<string>,
                                     managers: map<string, string>, k: nat)
    requires Valid(defs) && AllTrimmed(defs) && InOrder(defs, order, managers) && k <= |order|
    requires forall e :: e in kept ==> !Touches(e, DefIds(defs))
    requires forall a :: a in managers ==> Ends(x => Get(managers, x), a)
    ensures LinkFirst(kept, order, managers, k) == kept + Lines(order[..k], managers)
    ensures k < |order| ==> Accepted(kept, order, managers, k)
  {
    if k == 0 {
      assert Lines(order[..0], managers) == [];
    } else {
      AllLinked(defs, kept, order, managers, k - 1);
      NextAccepted(defs, kept, order, managers, k - 1);
    }
    if k < |order| {
      NextAccepted(defs, kept, order, managers, k);
    }
  }

  // The tables of one organization that the reconciliation works on.
  class Organization {
    const authority: EdgeTable
    var agents: seq<AgentRow>

    constructor ()
      ensures fresh(authority) && authority.edges == [] && agents == []
    {
      authority := new EdgeTable();
      agents := [];
    }

    method RegisterServiceAgent(agentId: string, departmentId: Option<string>, metadata: Metadata) returns (ok: bool)
      modifies this`agents
      ensures ok <==> Register(old(agents), agentId, departmentId, metadata).Some?
      ensures agents == if ok then Register(old(agents), agentId, departmentId, metadata).value else old(agents)
    {
      var i := 0;
      while i < |agents| && agents[i].agentId != agentId
        invariant i <= |agents| && forall j :: 0 <= j < i ==> agents[j].agentId != agentId
      {
        i := i + 1;
      }
      if i < |agents| {
        var row := agents[i];
        if departmentId.Some? {
          row := row.(departmentId := departmentId);
        }
        if row.status != Retired {
          row := row.(status := Active);
        }
        agents := agents[i := row.(metadata := metadata)];
        return true;
      }
      var stored := Trim(agentId);
      if exists row :: row in agents && row.agentId == stored {
        return false;
      }
      agents := agents + [AgentRow(stored, departmentId, Active, 0, metadata)];
      return true;
    }

    method RetireUndefined(ids: set<string>)
      modifies this`agents
      ensures agents == Retire(old(agents), ids)
    {
      var rows := agents;
      for i := 0 to |rows|
        invariant |agents| == |rows| && agents[i..] == rows[i..]
        invariant agents[..i] == Retire(rows, ids)[..i]
      {
        if rows[i].metadata.definitionManaged && rows[i].agentId !in ids {
          agents := agents[i := rows[i].(status := Retired)];
        }
      }
    }

    method DeleteHierarchyEdges(ids: set<string>)
      modifies authority
      ensures authority.edges == Kept(old(authority.edges), ids)
    {
      var current := authority.edges;
      var kept: seq<Edge> := [];
      for i := 0 to |current|
        invariant kept == Kept(current[..i], ids)
      {
        assert current[..i + 1][..i] == current[..i];
        if !Touches(current[i], ids) {
          kept := kept + [current[i]];
        }
      }
      assert current[..|current|] == current;
      authority.edges := kept;
    }

    method RegisterDefinitions(defs: seq<Definition>) returns (ok: bool)
      modifies this`agents
      ensures ok <==> RegisterAll(old(agents), defs).Success?
      ensures agents == match RegisterAll(old(agents), defs) case Success(rows) => rows case Failure(rows) => rows
    {
      for i := 0 to |defs|
        invariant RegisterAll(old(agents), defs[..i]) == Success(agents)
      {
        RegisterNext(old(agents), defs, i, agents);
        var d := defs[i];
        ok := RegisterServiceAgent(d.id, None, d.metadata.(definitionManaged := true));
        if !ok {
          FailureLasts(old(agents), defs, i + 1);
          return;
        }
      }
      assert defs[..|defs|] == defs;
      ok := true;
    }

    method LinkManagers(order: seq<string>, managers: map<string, string>)
      returns (r: Result<nat, EdgeError>, ghost k: nat)
      requires forall a :: a in order ==> a in managers
      modifies authority
      ensures LinkedUntil(old(authority.edges), order, managers, r, authority.edges, k)
    {
      ghost var before := authority.edges;
      for i := 0 to |order|
        invariant authority.edges == LinkFirst(before, order, managers, i)
        invariant AllAccepted(before, order, managers, i)
      {
        var edge := authority.SetAuthorityEdge(LineCall(order, managers, i));
        LinkedNext(before, order, managers, i);
        if edge.Failure? {
          return Failure(edge.error), i;
        }
        OneMoreAccepted(before, order, managers, i);
      }
      return Success(|order|), |order|;
    }

    // On success: how many service agents and how many reporting lines.
    method ReconcileAgentDefinitions(defs: seq<Definition>) returns (r: Result<(nat, nat), ReconcileError>)
      modifies this`agents, authority
      ensures Outcome(defs, old(agents), old(authority.edges), r, agents, authority.edges)
    {
      var valid := Validate(defs);
      if valid.Failure? {
        return Failure(valid.error);
      }
      var acyclic := AssertAcyclic(defs);
      if acyclic.Failure? {
        return Failure(Relations(acyclic.error));
      }
      var registered := RegisterDefinitions(defs);
      if !registered {
        return Failure(RowConflict);
      }
      var managedIds := ManagedIds(agents);
      RetireUndefined(valid.value);
      DeleteHierarchyEdges(managedIds);
      r := LinkDefinitions(defs);
    }

    // The second manager map and the reporting lines.
    method LinkDefinitions(defs: seq<Definition>) returns (r: Result<(nat, nat), ReconcileError>)
      requires Valid(defs) && OneManager(defs)
      modifies authority
      ensures Settled(defs, old(authority.edges), r, authority.edges)
    {
      var order, managers := OrderManagers(defs);
      var linked;
      ghost var k;
      linked, k := LinkManagers(order, managers.value);
      assert LinkOutcome(defs, old(authority.edges), linked, authority.edges);
      return if linked.Failure? then Failure(EdgeRefused(linked.error)) else Success((|defs|, linked.value));
    }
  }

  // How linking the managers ends, seen from the reconciliation.
  ghost predicate Settled(defs: seq<Definition>, kept: seq<Edge>, r: Result<(nat, nat), ReconcileError>, edges: seq<Edge>) {
    match r
    case Success((agents, lines)) => agents == |defs| && LinkOutcome(defs, kept, Success(lines), edges)
    case Failure(EdgeRefused(e)) => LinkOutcome(defs, kept, Failure(e), edges)
    case _ => false
  }

  // What a call may come to: refused definitions change nothing; a failed registration keeps the
  // rows registered before it; otherwise the rows are retired and the lines set in order.
  ghost predicate Outcome(defs: seq<Definition>, rows: seq<AgentRow>, edges: seq<Edge>, r: Result<(nat, nat), ReconcileError>,
                          rows': seq<AgentRow>, edges': seq<Edge>)
  {
    if !Valid(defs) then r.Failure? && Blames(defs, r.error) && rows' == rows && edges' == edges
    else if !Hierarchical(defs) then r.Failure? && r.error.Relations? && rows' == rows && edges' == edges
    else
      match RegisterAll(rows, defs)
      case Failure(partial) => r == Failure(RowConflict) && rows' == partial && edges' == edges
      case Success(registered) =>
        && rows' == Retire(registered, DefIds(defs))
        && Settled(defs, Kept(edges, ManagedIds(registered)), r, edges')
  }

  // The manager chains of accepted definitions end.
  lemma ChainsEnd(defs: seq<Definition>, order: seq<string>, managers: map<string, string>)
    requires Valid(defs) && Hierarchical(defs)
    requires InOrder(defs, order, managers) && forall a, m :: Claims(defs, a, m) ==> a in managers
    ensures forall a :: a in managers ==> Ends(x => Get(managers, x), a)
  {
    var g := x => Get(managers, x);
    assert Represents(defs, g);
    forall a | a in managers
      ensures Ends(g, a)
    {
      ClaimInside(defs, a, managers[a]);
      var d :| d in defs && d.id == a;
      var c :| ChainToRoot(defs, a, c);
      ReachesRootEnds(defs, g, a, c);
    }
  }

  lemma OrderIsReconciled(defs: seq<Definition>, kept: seq<Edge>, order: seq<string>, managers: map<string, string>,
                          r: Result<nat, EdgeError>, edges: seq<Edge>, k: nat)
    requires Valid(defs) && Hierarchical(defs) && AllTrimmed(defs) && InOrder(defs, order, managers)
    requires forall a, m :: Claims(defs, a, m) ==> a in managers
    requires forall e :: e in kept ==> !Touches(e, DefIds(defs))
    requires LinkedUntil(kept, order, managers, r, edges, k)
    ensures k == |order| && edges == kept + Lines(order, managers) && r == Success(|edges| - |kept|)
  {
    ChainsEnd(defs, order, managers);
    AllLinked(defs, kept, order, managers, k);
    assert order[..|order|] == order;
  }

  lemma LinkedIsReconciled(defs: seq<Definition>, kept: seq<Edge>, r: Result<nat, EdgeError>, edges: seq<Edge>)
    requires Valid(defs) && Hierarchical(defs) && AllTrimmed(defs)
    requires forall e :: e in kept ==> !Touches(e, DefIds(defs))
    requires LinkOutcome(defs, kept, r, edges)
    ensures Reconciled(defs, kept, edges) && r == Success(|edges| - |kept|)
  {
    var order, managers, k: nat :| InOrder(defs, order, managers)
      && (forall a, m :: Claims(defs, a, m) ==> a in managers) && LinkedUntil(kept, order, managers, r, edges, k);
    OrderIsReconciled(defs, kept, order, managers, r, edges, k);
    LinesReconcile(defs, kept, order, managers);
  }

  lemma SettledIsReconciled(defs: seq<Definition>, kept: seq<Edge>, r: Result<(nat, nat), ReconcileError>, edges: seq<Edge>)
    requires Valid(defs) && Hierarchical(defs) && AllTrimmed(defs)
    requires forall e :: e in kept ==> !Touches(e, DefIds(defs))
    requires Settled(defs, kept, r, edges)
    ensures Reconciled(defs, kept, edges) && r == Success((|defs|, |edges| - |kept|))
  {
    LinkedIsReconciled(defs, kept, if r.Success? then Success(r.value.1) else Failure(r.error.refusal), edges);
  }

  // Accepted definitions with trimmed ids are always reconciled: registration succeeds, no line
  // is refused whatever edges there were, and the lines are exactly those the definitions claim.
  lemma AcceptedIsReconciled(defs: seq<Definition>, rows: seq<AgentRow>, edges: seq<Edge>,
                             r: Result<(nat, nat), ReconcileError>, rows': seq<AgentRow>, edges': seq<Edge>)
    requires Valid(defs) && Hierarchical(defs) && AllTrimmed(defs)
    requires Outcome(defs, rows, edges, r, rows', edges')
    ensures RegisterAll(rows, defs).Success?
    ensures var kept := Kept(edges, ManagedIds(RegisterAll(rows, defs).value));
            Reconciled(defs, kept, edges') && r == Success((|defs|, |edges'| - |kept|))
  {
    RegisteredRows(rows, defs);
    SettledIsReconciled(defs, Kept(edges, ManagedIds(RegisterAll(rows, defs).value)), r, edges');
  }

  // What has become of each row: a defined agent is active unless it was retired, a managed agent
  // that is no longer defined is retired, and every other row is as it was.
  ghost predicate ReconciledRow(was: AgentRow, defs: seq<Definition>, row: AgentRow) {
    && row.agentId == was.agentId && row.departmentId == was.departmentId && row.failureCount == was.failureCount
    && if exists d :: d in defs && d.id == was.agentId
       then row.metadata.definitionManaged && row.status == if was.status == Retired then Retired else Active
       else row.metadata == was.metadata && row.status == if was.metadata.definitionManaged then Retired else was.status
  }

  // The service agents after the reconciliation of accepted definitions: the old rows in their
  // places, then an active row for each new agent, with the metadata of the definitions.
  lemma AgentsReconciled(defs: seq<Definition>, rows: seq<AgentRow>, edges: seq<Edge>,
                         r: Result<(nat, nat), ReconcileError>, rows': seq<AgentRow>, edges': seq<Edge>)
    requires Valid(defs) && Hierarchical(defs) && AllTrimmed(defs) && UniqueRows(rows)
    requires Outcome(defs, rows, edges, r, rows', edges')
    ensures |rows| <= |rows'| && UniqueRows(rows')
    ensures forall i :: 0 <= i < |rows| ==> ReconciledRow(rows[i], defs, rows'[i])
    ensures forall i :: |rows| <= i < |rows'| ==>
      && (exists d :: d in defs && d.id == rows'[i].agentId)
      && rows'[i].status == Active && rows'[i].failureCount == 0 && rows'[i].departmentId == None
    ensures forall d :: d in defs ==> HasDefined(rows', d)
  {
    RegisteredRows(rows, defs);
    RegisterAllWrites(rows, defs);
    var registered, ids := RegisterAll(rows, defs).value, DefIds(defs);
    forall i | 0 <= i < |rows| ensures ReconciledRow(rows[i], defs, rows'[i]) {
      assert RegisteredRow(rows[i], ids, registered[i]);
      assert rows[i].agentId in ids <==> exists d :: d in defs && d.id == rows[i].agentId;
    }
    forall i | |rows| <= i < |rows'|
      ensures (exists d :: d in defs && d.id == rows'[i].agentId) && rows'[i] == registered[i]
    {
      assert NewRow(ids, registered[i]);
    }
    forall d | d in defs ensures HasDefined(rows', d) {
      DefinitionsWritten(rows, defs, d);
      var row :| row in registered && row.agentId == d.id && row.metadata == d.metadata.(definitionManaged := true);
      var k :| 0 <= k < |registered| && registered[k] == row;
      assert rows'[k] == row && rows'[k] in rows';
    }
  }

  lemma SameManaged(rows: seq<AgentRow>, ids: set<string>, id: string)
    ensures id in ManagedIds(rows) <==>
      exists row :: row in Retire(rows, ids) && row.metadata.definitionManaged && row.agentId == id
  {
    var retired := Retire(rows, ids);
    if id in ManagedIds(rows) {
      var row :| row in rows && row.metadata.definitionManaged && row.agentId == id;
      var k :| 0 <= k < |rows| && rows[k] == row;
      assert retired[k] in retired;
    }
    if row :| row in retired && row.metadata.definitionManaged && row.agentId == id {
      var k :| 0 <= k < |rows| && retired[k] == row;
      assert rows[k] in rows;
    }
  }

  // The edges after it: the claimed reporting lines, and of the old edges those that are neither
  // `reports_to` nor `manages` or touch no definition-managed agent.
  lemma EdgesReconciled(defs: seq<Definition>, rows: seq<AgentRow>, edges: seq<Edge>,
                        r: Result<(nat, nat), ReconcileError>, rows': seq<AgentRow>, edges': seq<Edge>, e: Edge)
    requires Valid(defs) && Hierarchical(defs) && AllTrimmed(defs)
    requires Outcome(defs, rows, edges, r, rows', edges')
    ensures e in edges' <==>
      || (e.relation == ReportsTo && Claims(defs, e.from, e.to))
      || (e in edges
          && !((e.relation == ReportsTo || e.relation == Manages)
               && exists row :: row in rows' && row.metadata.definitionManaged && (row.agentId == e.from || row.agentId == e.to)))
  {
    AcceptedIsReconciled(defs, rows, edges, r, rows', edges');
    var registered := RegisterAll(rows, defs).value;
    var kept := Kept(edges, ManagedIds(registered));
    assert edges' == kept + edges'[|kept|..];
    SameManaged(registered, DefIds(defs), e.from);
    SameManaged(registered, DefIds(defs), e.to);
  }

  // ----- histories of calls and reconciliations -----------------------------

  lemma FrontStaysForest(edges: seq<Edge>)
    requires edges != [] && Forest(edges)
    ensures Forest(edges[..|edges| - 1])
  {
    var front, last := edges[..|edges| - 1], edges[|edges| - 1];
    forall i | 0 <= i < |front| && front[i].relation == ReportsTo
      ensures Bridge(front, i)
    {
      assert Bridge(edges, i) && Without(edges, i) == Without(front, i) + [last];
      if Linked(Without(front, i), front[i].from, front[i].to) {
        ReachableMono(Without(front, i), REPORTING, Without(edges, i), REPORTING, front[i].from, front[i].to);
      }
    }
  }

  lemma LastStaysApart(edges: seq<Edge>, kept: seq<Edge>)
    requires Stored(edges) && edges != [] && Forest(edges) && edges[|edges| - 1].relation == ReportsTo
    requires forall e :: e in kept ==> e in edges[..|edges| - 1]
    ensures !Linked(kept, edges[|edges| - 1].to, edges[|edges| - 1].from)
  {
    var front, last := edges[..|edges| - 1], edges[|edges| - 1];
    assert last in edges;
    assert Bridge(edges, |front|) && Without(edges, |front|) == front;
    if Linked(kept, last.to, last.from) {
      ReachableMono(kept, REPORTING, front, REPORTING, last.to, last.from);
      LinkedBack(front, last.to, last.from);
    }
  }

  // Deleting the hierarchy edges at some agents leaves a forest.
  lemma {:induction false} KeptStaysForest(edges: seq<Edge>, ids: set<string>)
    requires Stored(edges) && Forest(edges)
    ensures Stored(Kept(edges, ids)) && Forest(Kept(edges, ids))
  {
    if edges == [] {
    } else {
      var front, last := edges[..|edges| - 1], edges[|edges| - 1];
      assert last in edges;
      FrontStaysForest(edges);
      KeptStaysForest(front, ids);
      if !Touches(last, ids) {
        if last.relation == ReportsTo {
          LastStaysApart(edges, Kept(front, ids));
        }
        ForestInsert(Kept(front, ids), last);
      }
    }
  }

  lemma {:induction false} LinkFirstKeeps(before: seq<Edge>, rank: string -> int, order: seq<string>,
                                          managers: map<string, string>, k: nat)
    returns (rank': string -> int)
    requires Stored(before) && Ranked(before, rank) && Forest(before)
    requires k <= |order| && forall a :: a in order ==> a in managers && Trimmed(a) && Trimmed(managers[a])
    ensures var after := LinkFirst(before, order, managers, k); Stored(after) && Ranked(after, rank') && Forest(after)
  {
    if k == 0 {
      rank' := rank;
    } else {
      rank' := LinkFirstKeeps(before, rank, order, managers, k - 1);
      assert order[k - 1] in order;
      rank' := SetEdgeKeeps(LinkFirst(before, order, managers, k - 1), rank', LineCall(order, managers, k - 1));
    }
  }

  lemma OutcomeKeeps(defs: seq<Definition>, rows: seq<AgentRow>, edges: seq<Edge>, r: Result<(nat, nat), ReconcileError>,
                     rows': seq<AgentRow>, edges': seq<Edge>, rank: string -> int)
    returns (rank': string -> int)
    requires Outcome(defs, rows, edges, r, rows', edges') && AllTrimmed(defs)
    requires Stored(edges) && Ranked(edges, rank) && Forest(edges)
    ensures Stored(edges') && Ranked(edges', rank') && Forest(edges')
  {
    rank' := rank;
    if Valid(defs) && Hierarchical(defs) && RegisterAll(rows, defs).Success? {
      var kept := Kept(edges, ManagedIds(RegisterAll(rows, defs).value));
      KeptStaysForest(edges, ManagedIds(RegisterAll(rows, defs).value));
      var linked := if r.Success? then Success(r.value.1) else Failure(r.error.refusal);
      assert LinkOutcome(defs, kept, linked, edges');
      var order, managers, k: nat :| InOrder(defs, order, managers)
        && (forall a, m :: Claims(defs, a, m) ==> a in managers) && LinkedUntil(kept, order, managers, linked, edges', k);
      ClaimsStayInside(defs, managers, order);
      forall a | a in managers ensures Trimmed(a) && Trimmed(managers[a]) {
        assert a in DefIds(defs) && managers[a] in managers.Values;
      }
      rank' := LinkFirstKeeps(kept, rank, order, managers, k);
    }
  }

  datatype World = World(rows: seq<AgentRow>, edges: seq<Edge>)

  // What changes the tables: one edge is set, definitions are reconciled, or anything happens to
  // the service agents alone.
  datatype Op = SetOne(call: EdgeCall) | Reconcile(defs: seq<Definition>) | ChangeAgents

  predicate CleanOp(op: Op) {
    match op
    case SetOne(call) => Clean(call)
    case Reconcile(defs) => AllTrimmed(defs)
    case ChangeAgents => true
  }

  ghost predicate Leads(w: World, op: Op, w': World) {
    match op
    case SetOne(call) => w' == w.(edges := SetEdge(w.edges, call))
    case Reconcile(defs) => exists r :: Outcome(defs, w.rows, w.edges, r, w'.rows, w'.edges)
    case ChangeAgents => w'.edges == w.edges
  }

  // A history from no edges: the world before each operation and after the last one.
  ghost predicate History(worlds: seq<World>, ops: seq<Op>) {
    && |worlds| == |ops| + 1 && worlds[0].edges == []
    && forall i :: 0 <= i < |ops| ==> Leads(worlds[i], ops[i], worlds[i + 1])
  }

  lemma {:induction false} HistoryRanks(worlds: seq<World>, ops: seq<Op>, n: nat) returns (rank: string -> int)
    requires History(worlds, ops) && n <= |ops| && forall op :: op in ops ==> CleanOp(op)
    ensures Stored(worlds[n].edges) && Ranked(worlds[n].edges, rank) && Forest(worlds[n].edges)
  {
    if n == 0 {
      rank := (v: string) => 0;
    } else {
      rank := HistoryRanks(worlds, ops, n - 1);
      var w, op, w' := worlds[n - 1], ops[n - 1], worlds[n];
      assert Leads(w, op, w') && CleanOp(op);
      match op
      case SetOne(call) => rank := SetEdgeKeeps(w.edges, rank, call);
      case Reconcile(defs) =>
        var r :| Outcome(defs, w.rows, w.edges, r, w'.rows, w'.edges);
        rank := OutcomeKeeps(defs, w.rows, w.edges, r, w'.rows, w'.edges, rank);
      case ChangeAgents =>
    }
  }

  // However calls with trimmed ids and reconciliations of trimmed definitions, accepted or not,
  // are interleaved, the hierarchy is sound all along.
  lemma EveryHistoryIsSound(worlds: seq<World>, ops: seq<Op>)
    requires History(worlds, ops) && forall op :: op in ops ==> CleanOp(op)
    ensures forall w :: w in worlds ==> Sound(w.edges)
  {
    forall n | 0 <= n < |worlds| ensures Sound(worlds[n].edges) {
      var rank := HistoryRanks(worlds, ops, n);
      RankedIsAcyclic(worlds[n].edges, rank);
    }
  }

  lemma {:induction false} FailureLasts(rows: seq<AgentRow>, defs: seq<Definition>, i: nat)
    requires i <= |defs| && RegisterAll(rows, defs[..i]).Failure?
    ensures RegisterAll(rows, defs) == RegisterAll(rows, defs[..i])
    decreases |defs|
  {
    if i < |defs| {
      assert defs[..|defs| - 1][..i] == defs[..i];
      FailureLasts(rows, defs[..|defs| - 1], i);
    } else {
      assert defs[..i] == defs;
    }
  }

  // A new line is neither among the kept edges nor among the lines so far, and its ids are stored as they are.
  lemma LineIsNew(defs: seq<Definition>, kept: seq<Edge>, ids: set<string>, order: seq<string>,
                  managers: map<string, string>, k: nat)
    requires Valid(defs) && ids == DefIds(defs) && AllTrimmed(defs)
    requires InOrder(defs, order, managers) && k < |order|
    requires forall e :: e in kept ==> !Touches(e, ids)
    ensures var a := order[k];
            var call := EdgeCall(a, managers[a], ReportsTo);
            && a != managers[a] && a != "" && managers[a] != ""
            && StoredEdge(call) == Edge(a, managers[a], ReportsTo)
            && StoredEdge(call) !in kept + Lines(order[..k], managers)
  {
    var a := order[k];
    ClaimInside(defs, a, managers[a]);
    TrimIsTrimmed(a);
    TrimIsTrimmed(managers[a]);
  }

  lemma LineIsAdded(defs: seq<Definition>, kept: seq<Edge>, order: seq<string>, managers: map<string, string>, k: nat)
    requires Valid(defs) && AllTrimmed(defs) && InOrder(defs, order, managers) && k < |order|
    requires forall e :: e in kept ==> !Touches(e, DefIds(defs))
    requires Ends(x => Get(managers, x), order[k])
    ensures var call := EdgeCall(order[k], managers[order[k]], ReportsTo);
            var edges := kept + Lines(order[..k], managers);
            && Answer(edges, call).Success?
            && SetEdge(edges, call) == edges + [Edge(order[k], managers[order[k]], ReportsTo)]
  {
    var a := order[k];
    assert a !in order[..k];
    ClaimsStayInside(defs, managers, order);
    NeverRefused(kept, DefIds(defs), order[..k], managers, a);
    LineIsNew(defs, kept, DefIds(defs), order, managers, k);
    NewEdgeIsAdded(kept + Lines(order[..k], managers), EdgeCall(a, managers[a], ReportsTo));
  }

  lemma LinkOne(defs: seq<Definition>, kept: seq<Edge>, order: seq<string>, managers: map<string, string>, k: nat)
    requires Valid(defs) && AllTrimmed(defs) && InOrder(defs, order, managers) && k < |order|
    requires forall e :: e in kept ==> !Touches(e, DefIds(defs))
    requires Ends(x => Get(managers, x), order[k])
    ensures var call := EdgeCall(order[k], managers[order[k]], ReportsTo);
            var edges := kept + Lines(order[..k], managers);
            && Answer(edges, call).Success?
            && SetEdge(edges, call) == kept + Lines(order[..k + 1], managers)
  {
    LineIsAdded(defs, kept, order, managers, k);
    LinesGrow(order, managers, k);
    var line := Edge(order[k], managers[order[k]], ReportsTo);
    assert kept + (Lines(order[..k], managers) + [line]) == kept + Lines(order[..k], managers) + [line];
  }

  lemma LinesGrow(order: seq<string>, managers: map<string, string>, k: nat)
    requires k < |order| && forall a :: a in order ==> a in managers
    ensures Lines(order[..k + 1], managers) == Lines(order[..k], managers) + [Edge(order[k], managers[order[k]], ReportsTo)]
  {}

  lemma NewEdgeIsAdded(edges: seq<Edge>, call: EdgeCall)
    requires call.from != call.to && !Reachable(edges, HIERARCHY, call.to, call.from)
    requires Trim(call.from) != "" && Trim(call.to) != "" && StoredEdge(call) !in edges
    ensures Answer(edges, call).Success? && SetEdge(edges, call) == edges + [StoredEdge(call)]
  {}
}
