// Manager chains of agent definitions: the two validators, assertAcyclic
// (packages/company/src/operational-governance.ts) and validateAgentHierarchy
// (packages/company/src/index.ts). An absent, null or empty manager is "".
module ManagerChains {
  import opened Wrappers

  // ----- following a manager function ---------------------------------------

  // The agent `n` steps up from `a`, or "" once the chain has ended.
  ghost function Up(f: string -> string, a: string, n: nat): string
    decreases n
  {
    if n == 0 || a == "" then a else Up(f, f(a), n - 1)
  }

  ghost predicate Ends(f: string -> string, a: string) {
    exists n: nat :: Up(f, a, n) == ""
  }

  ghost predicate OnCycle(f: string -> string, a: string) {
    a != "" && exists p: nat :: p > 0 && Up(f, a, p) == a
  }

  lemma {:induction false} UpAdd(f: string -> string, a: string, m: nat, n: nat)
    ensures Up(f, a, m + n) == Up(f, Up(f, a, m), n)
    decreases m
  {
    if m > 0 && a != "" {
      UpAdd(f, f(a), m - 1, n);
    }
  }

  lemma {:induction false} CycleNeverEnds(f: string -> string, a: string, p: nat, n: nat)
    requires a != "" && p > 0 && Up(f, a, p) == a
    ensures Up(f, a, n) != ""
    decreases n
  {
    if n < p {
      UpAdd(f, a, n, p - n);
    } else {
      UpAdd(f, a, p, n - p);
      CycleNeverEnds(f, a, p, n - p);
    }
  }

  lemma RepeatNeverEnds(f: string -> string, a: string, k: nat, p: nat)
    requires Up(f, a, k) != "" && p > 0 && Up(f, a, k + p) == Up(f, a, k)
    ensures !Ends(f, a) && OnCycle(f, Up(f, a, k))
  {
    var x := Up(f, a, k);
    UpAdd(f, a, k, p);
    forall n: nat
      ensures Up(f, a, n) != ""
    {
      if n < k {
        UpAdd(f, a, n, k - n);
      } else {
        UpAdd(f, a, k, n - k);
        CycleNeverEnds(f, x, p, n - k);
      }
    }
  }

  // The chain from `start` meets, after n steps, an agent of `seen` or one it has met before.
  ghost predicate RepeatsAt(f: string -> string, start: string, seen: set<string>, n: nat) {
    Up(f, start, n) in seen || exists k: nat :: k < n && Up(f, start, k) == Up(f, start, n)
  }

  // The first agent met twice.
  ghost predicate FirstMet(f: string -> string, start: string, seen: set<string>, n: nat) {
    Up(f, start, n) != "" && RepeatsAt(f, start, seen, n) && forall k: nat :: k < n ==> !RepeatsAt(f, start, seen, k)
  }

  // The walk both validators make: up from `start` until the chain ends or comes back to
  // an agent already seen.
  method Climb(f: string -> string, start: string, seen0: set<string>, ghost agents: set<string>)
    returns (repeated: Option<string>)
    requires start == "" || start in agents
    requires seen0 <= agents && forall x :: f(x) == "" || f(x) in agents
    requires forall s :: s in seen0 ==> f(s) == start
    ensures repeated.None? <==> Ends(f, start)
    ensures repeated.Some? ==> OnCycle(f, repeated.value)
    ensures repeated.Some? ==> exists n: nat :: FirstMet(f, start, seen0, n) && repeated.value == Up(f, start, n)
  {
    var seen := seen0;
    var current := start;
    ghost var n: nat := 0;
    while current != ""
      invariant current == Up(f, start, n)
      invariant current == "" || current in agents
      invariant seen0 <= seen <= agents
      invariant forall s :: s in seen ==> s in seen0 || exists k: nat :: k < n && Up(f, start, k) == s
      invariant forall k: nat :: k < n ==> Up(f, start, k) in seen && !RepeatsAt(f, start, seen0, k)
      decreases agents - seen
    {
      UpAdd(f, start, n, 1);
      assert Up(f, current, 1) == f(current);
      if current in seen {
        assert FirstMet(f, start, seen0, n);
        MetOnCycle(f, start, seen0, n);
        return Some(current);
      }
      seen := seen + {current};
      current := f(current);
      n := n + 1;
    }
    return None;
  }

  // Whoever is met twice is on a cycle, and the chain never ends.
  lemma MetOnCycle(f: string -> string, start: string, seen: set<string>, n: nat)
    requires FirstMet(f, start, seen, n) && forall s :: s in seen ==> f(s) == start
    ensures !Ends(f, start) && OnCycle(f, Up(f, start, n))
  {
    if Up(f, start, n) in seen {
      Closed(f, start, n);
    } else {
      var k: nat :| k < n && Up(f, start, k) == Up(f, start, n);
      RepeatNeverEnds(f, start, k, n - k);
    }
  }

  lemma Closed(f: string -> string, start: string, n: nat)
    requires Up(f, start, n) != "" && f(Up(f, start, n)) == start
    ensures !Ends(f, start) && OnCycle(f, Up(f, start, n))
  {
    var x := Up(f, start, n);
    if start != "" {
      UpAdd(f, start, n, 1);
      RepeatNeverEnds(f, start, 0, n + 1);
      assert Up(f, x, 1) == start;
      UpAdd(f, x, 1, n);
    }
  }

  // ----- definitions --------------------------------------------------------

  datatype Metadata = Metadata(definitionManaged: bool, roles: seq<string>, capabilities: seq<string>)

  datatype Definition = Definition(id: string, reportsTo: string, manages: seq<string>, peers: seq<string>, metadata: Metadata)

  // A later definition with the same id replaces an earlier one.
  function LastReportsTo(defs: seq<Definition>, a: string): string {
    if defs == [] then ""
    else if defs[|defs| - 1].id == a then defs[|defs| - 1].reportsTo
    else LastReportsTo(defs[..|defs| - 1], a)
  }

  ghost predicate ManagedBy(defs: seq<Definition>, a: string, m: string) {
    exists d :: d in defs && d.id == m && a in d.manages
  }

  // The definitions name `m` as the manager of `a`, from either side.
  ghost predicate Claims(defs: seq<Definition>, a: string, m: string) {
    m != "" && (LastReportsTo(defs, a) == m || ManagedBy(defs, a, m))
  }

  ghost predicate OneManager(defs: seq<Definition>) {
    forall a, m, m' :: Claims(defs, a, m) && Claims(defs, a, m') ==> m == m'
  }

  ghost predicate ChainAt(defs: seq<Definition>, c: seq<string>, i: nat) {
    i + 1 < |c| ==> Claims(defs, c[i], c[i + 1])
  }

  // Some chain of claims leads from `a` to an agent for which nobody is claimed.
  ghost predicate ReachesRoot(defs: seq<Definition>, a: string) {
    exists c: seq<string> :: ChainToRoot(defs, a, c)
  }

  ghost predicate IsRoot(defs: seq<Definition>, a: string) {
    forall m :: !Claims(defs, a, m)
  }

  ghost predicate ChainToRoot(defs: seq<Definition>, a: string, c: seq<string>) {
    && c != [] && c[0] == a
    && (forall i: nat :: ChainAt(defs, c, i))
    && IsRoot(defs, c[|c| - 1])
  }

  // ----- assertAcyclic ------------------------------------------------------

  datatype AcyclicError = ConflictingManagers | RelationCycle

  function Get(managers: map<string, string>, a: string): string {
    if a in managers then managers[a] else ""
  }

  // The map holds the claims made by `defs` (reportsTo), by the first `i` lists of managed
  // agents, and by the first `j` entries of the next list.
  ghost predicate ClaimedSoFar(defs: seq<Definition>, i: nat, j: nat, a: string, m: string)
    requires i <= |defs| && (if i < |defs| then j <= |defs[i].manages| else j == 0)
  {
    && m != ""
    && (LastReportsTo(defs, a) == m
        || ManagedBy(defs[..i], a, m)
        || (i < |defs| && defs[i].id == m && a in defs[i].manages[..j]))
  }

  ghost predicate Collected(defs: seq<Definition>, i: nat, j: nat, managers: map<string, string>)
    requires i <= |defs| && (if i < |defs| then j <= |defs[i].manages| else j == 0)
  {
    forall a, m :: ClaimedSoFar(defs, i, j, a, m) <==> m != "" && Get(managers, a) == m
  }

  lemma SoFarIsClaimed(defs: seq<Definition>, i: nat, j: nat, a: string, m: string)
    requires i <= |defs| && (if i < |defs| then j <= |defs[i].manages| else j == 0)
    requires ClaimedSoFar(defs, i, j, a, m)
    ensures Claims(defs, a, m)
  {
    if ManagedBy(defs[..i], a, m) {
      var d :| d in defs[..i] && d.id == m && a in d.manages;
      assert d in defs;
    } else if LastReportsTo(defs, a) != m {
      assert defs[i] in defs && a in defs[i].manages;
    }
  }

  lemma NextEntry(defs: seq<Definition>, i: nat, j: nat, a: string, m: string)
    requires i < |defs| && j < |defs[i].manages|
    ensures ClaimedSoFar(defs, i, j + 1, a, m)
            <==> ClaimedSoFar(defs, i, j, a, m) || (m != "" && defs[i].id == m && a == defs[i].manages[j])
  {
    assert defs[i].manages[..j + 1] == defs[i].manages[..j] + [defs[i].manages[j]];
  }

  lemma NextDefinition(defs: seq<Definition>, i: nat, a: string, m: string)
    requires i < |defs|
    ensures ClaimedSoFar(defs, i + 1, 0, a, m) <==> ClaimedSoFar(defs, i, |defs[i].manages|, a, m)
  {
    assert defs[..i + 1] == defs[..i] + [defs[i]];
    assert defs[i].manages[..|defs[i].manages|] == defs[i].manages;
    if ManagedBy(defs[..i + 1], a, m) && !ManagedBy(defs[..i], a, m) {
      var d :| d in defs[..i + 1] && d.id == m && a in d.manages;
      assert d == defs[i];
    }
    if ManagedBy(defs[..i], a, m) {
      var d :| d in defs[..i] && d.id == m && a in d.manages;
      assert d in defs[..i + 1];
    }
    if defs[i].id == m && a in defs[i].manages {
      assert defs[i] in defs[..i + 1];
    }
  }

  lemma CollectEntry(defs: seq<Definition>, i: nat, j: nat, managers: map<string, string>)
    requires i < |defs| && j < |defs[i].manages| && defs[i].id != "" && Collected(defs, i, j, managers)
    ensures var managed, current := defs[i].manages[j], Get(managers, defs[i].manages[j]);
            if current != "" && current != defs[i].id then !OneManager(defs)
            else Collected(defs, i, j + 1, managers[managed := defs[i].id])
  {
    var managed := defs[i].manages[j];
    var current := Get(managers, managed);
    if current != "" && current != defs[i].id {
      SoFarIsClaimed(defs, i, j, managed, current);
      assert defs[i] in defs && Claims(defs, managed, defs[i].id);
    } else {
      var after, next := managers[managed := defs[i].id], j + 1;
      forall a, m
        ensures ClaimedSoFar(defs, i, next, a, m) <==> m != "" && Get(after, a) == m
      {
        NextEntry(defs, i, j, a, m);
        assert ClaimedSoFar(defs, i, j, a, m) <==> m != "" && Get(managers, a) == m;
      }
    }
  }

  lemma CollectNext(defs: seq<Definition>, i: nat, managers: map<string, string>)
    requires i < |defs| && Collected(defs, i, |defs[i].manages|, managers)
    ensures Collected(defs, i + 1, 0, managers)
  {
    var next := i + 1;
    forall a, m
      ensures ClaimedSoFar(defs, next, 0, a, m) <==> m != "" && Get(managers, a) == m
    {
      NextDefinition(defs, i, a, m);
      assert ClaimedSoFar(defs, i, |defs[i].manages|, a, m) <==> m != "" && Get(managers, a) == m;
    }
  }

  lemma CollectedAll(defs: seq<Definition>, managers: map<string, string>)
    requires Collected(defs, |defs|, 0, managers)
    ensures forall a, m :: Claims(defs, a, m) <==> m != "" && Get(managers, a) == m
  {
    assert defs[..|defs|] == defs;
    forall a, m
      ensures Claims(defs, a, m) <==> m != "" && Get(managers, a) == m
    {
      assert ClaimedSoFar(defs, |defs|, 0, a, m) <==> m != "" && Get(managers, a) == m;
    }
  }

  // The manager map: every reportsTo entry, then every list of managed agents.
  method CollectManagers(defs: seq<Definition>) returns (r: Option<map<string, string>>)
    requires forall d :: d in defs ==> d.id != ""
    ensures r.Some? <==> OneManager(defs)
    ensures r.Some? ==> forall a, m :: Claims(defs, a, m) <==> m != "" && Get(r.value, a) == m
  {
    var managers: map<string, string> := map[];
    for i := 0 to |defs|
      invariant forall a :: Get(managers, a) == LastReportsTo(defs[..i], a)
    {
      assert defs[..i + 1][..i] == defs[..i];
      managers := managers[defs[i].id := defs[i].reportsTo];
    }
    assert defs[..|defs|] == defs;
    for i := 0 to |defs|
      invariant Collected(defs, i, 0, managers)
    {
      for j := 0 to |defs[i].manages|
        invariant Collected(defs, i, j, managers)
      {
        var managed := defs[i].manages[j];
        var current := Get(managers, managed);
        CollectEntry(defs, i, j, managers);
        if current != "" && current != defs[i].id {
          return None;
        }
        managers := managers[managed := defs[i].id];
      }
      CollectNext(defs, i, managers);
    }
    CollectedAll(defs, managers);
    return Some(managers);
  }

  ghost predicate Represents(defs: seq<Definition>, f: string -> string) {
    forall a, m :: Claims(defs, a, m) <==> m != "" && f(a) == m
  }

  // With one manager per agent, reaching a root and coming to the end of the chain are the same.
  lemma {:induction false} EndsReachesRoot(defs: seq<Definition>, f: string -> string, a: string, n: nat)
    requires Represents(defs, f) && a != "" && Up(f, a, n) == ""
    ensures ReachesRoot(defs, a)
    decreases n
  {
    if f(a) == "" {
      forall m ensures !Claims(defs, a, m) {}
      forall i: nat ensures ChainAt(defs, [a], i) {}
      assert ChainToRoot(defs, a, [a]);
    } else {
      EndsReachesRoot(defs, f, f(a), n - 1);
      var c :| ChainToRoot(defs, f(a), c);
      var d := [a] + c;
      forall i: nat | i + 1 < |d|
        ensures ChainAt(defs, d, i)
      {
        assert i > 0 ==> ChainAt(defs, c, i - 1);
        assert Claims(defs, a, f(a));
      }
      assert d[|d| - 1] == c[|c| - 1];
      assert ChainToRoot(defs, a, d);
    }
  }

  lemma {:induction false} ReachesRootEnds(defs: seq<Definition>, f: string -> string, a: string, c: seq<string>)
    requires Represents(defs, f) && ChainToRoot(defs, a, c)
    ensures Up(f, a, |c|) == ""
    decreases |c|
  {
    if |c| == 1 {
      assert IsRoot(defs, a);
      assert !Claims(defs, a, f(a));
      assert Up(f, a, 1) == "" by { assert a != "" ==> Up(f, a, 1) == Up(f, f(a), 0); }
    } else {
      assert ChainAt(defs, c, 0);
      var d := c[1..];
      forall i: nat ensures ChainAt(defs, d, i) { assert ChainAt(defs, c, i + 1); }
      assert ChainToRoot(defs, f(a), d);
      ReachesRootEnds(defs, f, f(a), d);
      assert a != "" ==> Up(f, a, |c|) == Up(f, f(a), |c| - 1);
    }
  }

  ghost predicate Hierarchical(defs: seq<Definition>) {
    && OneManager(defs)
    && forall d :: d in defs ==> ReachesRoot(defs, d.id)
  }

  ghost function Agents(defs: seq<Definition>, f: map<string, string>): set<string> {
    (set d | d in defs :: d.id) + f.Keys + f.Values
  }

  method AssertAcyclic(defs: seq<Definition>) returns (r: Result<map<string, string>, AcyclicError>)
    requires forall d :: d in defs ==> d.id != ""
    ensures r.Success? <==> Hierarchical(defs)
    ensures r == Failure(ConflictingManagers) <==> !OneManager(defs)
    ensures r.Success? ==> Represents(defs, a => Get(r.value, a))
    ensures r.Success? ==> forall d :: d in defs ==> Ends(a => Get(r.value, a), d.id)
  {
    var collected := CollectManagers(defs);
    if collected.None? {
      return Failure(ConflictingManagers);
    }
    var managers := collected.value;
    var f := a => Get(managers, a);
    for i := 0 to |defs|
      invariant forall k :: 0 <= k < i ==> Ends(f, defs[k].id) && ReachesRoot(defs, defs[k].id)
    {
      assert defs[i] in defs;
      var repeated := Climb(f, defs[i].id, {}, Agents(defs, managers));
      if repeated.Some? {
        if ReachesRoot(defs, defs[i].id) {
          ghost var c :| ChainToRoot(defs, defs[i].id, c);
          ReachesRootEnds(defs, f, defs[i].id, c);
        }
        return Failure(RelationCycle);
      }
      ghost var n: nat :| Up(f, defs[i].id, n) == "";
      EndsReachesRoot(defs, f, defs[i].id, n);
    }
    return Success(managers);
  }

  // ----- validateAgentHierarchy ---------------------------------------------

  datatype Agent = Agent(id: string, reportsTo: string)

  datatype HierarchyError = MissingManager(agent: string, manager: string) | ManagerCycle(member: string)

  // The first agent with an id answers for it.
  function FirstReportsTo(agents: seq<Agent>, a: string): string {
    if agents == [] then ""
    else if agents[0].id == a then agents[0].reportsTo
    else FirstReportsTo(agents[1..], a)
  }

  // The walk from one agent starts with that agent's own manager.
  function WalkFrom(agents: seq<Agent>, agent: Agent): string -> string {
    a => if a == agent.id then agent.reportsTo else FirstReportsTo(agents, a)
  }

  // The first agent with an id answers for it, and nobody for an unknown id.
  lemma {:induction false} FirstAnswers(agents: seq<Agent>, i: nat, a: string)
    requires i <= |agents| && forall k :: 0 <= k < i ==> agents[k].id != a
    requires i < |agents| ==> agents[i].id == a
    ensures FirstReportsTo(agents, a) == if i < |agents| then agents[i].reportsTo else ""
  {
    if i == 0 {
    } else {
      FirstAnswers(agents[1..], i - 1, a);
    }
  }

  function Ids(agents: seq<Agent>): (r: set<string>)
    ensures forall x :: x in r <==> exists i :: 0 <= i < |agents| && agents[i].id == x
  {
    set a | a in agents :: a.id
  }

  ghost predicate Fine(agents: seq<Agent>, agent: Agent) {
    agent.reportsTo != "" ==>
      agent.reportsTo in Ids(agents) && Ends(WalkFrom(agents, agent), agent.reportsTo)
  }

  // An error names a manager that is not an agent, or a member of a cycle met on some walk.
  ghost predicate Justified(agents: seq<Agent>, e: HierarchyError) {
    match e
    case MissingManager(a, m) => Agent(a, m) in agents && m != "" && m !in Ids(agents)
    case ManagerCycle(x) => exists agent :: agent in agents && OnCycle(WalkFrom(agents, agent), x)
  }

  // An unknown manager and an endless walk each have their error.
  ghost predicate Reported(agents: seq<Agent>, agent: Agent, errors: seq<HierarchyError>) {
    agent.reportsTo != "" ==>
      && (agent.reportsTo !in Ids(agents) ==> MissingManager(agent.id, agent.reportsTo) in errors)
      && (!Ends(WalkFrom(agents, agent), agent.reportsTo) ==>
            exists x :: ManagerCycle(x) in errors && OnCycle(WalkFrom(agents, agent), x))
  }

  lemma {:induction false} FirstIsListed(agents: seq<Agent>, a: string)
    ensures FirstReportsTo(agents, a) == "" || FirstReportsTo(agents, a) in set x | x in agents :: x.reportsTo
  {
    if agents != [] && agents[0].id != a {
      FirstIsListed(agents[1..], a);
    }
  }

  lemma ReportedMono(agents: seq<Agent>, agent: Agent, errors: seq<HierarchyError>, more: seq<HierarchyError>)
    requires Reported(agents, agent, errors) && forall e :: e in errors ==> e in more
    ensures Reported(agents, agent, more)
  {}

  // The errors one agent gives rise to, in their order.
  ghost predicate ErrorsOf(agents: seq<Agent>, agent: Agent, errors: seq<HierarchyError>) {
    if agent.reportsTo == "" then errors == []
    else
      var f := WalkFrom(agents, agent);
      var missing := if agent.reportsTo in Ids(agents) then [] else [MissingManager(agent.id, agent.reportsTo)];
      || (Ends(f, agent.reportsTo) && errors == missing)
      || exists n: nat :: FirstMet(f, agent.reportsTo, {agent.id}, n) && errors == missing + [ManagerCycle(Up(f, agent.reportsTo, n))]
  }

  lemma ErrorsTold(agents: seq<Agent>, agent: Agent, errors: seq<HierarchyError>)
    requires agent in agents && ErrorsOf(agents, agent, errors)
    ensures errors == [] <==> Fine(agents, agent)
    ensures Reported(agents, agent, errors)
    ensures forall e :: e in errors ==> Justified(agents, e)
  {
    if agent.reportsTo != "" {
      var f := WalkFrom(agents, agent);
      if n: nat :| FirstMet(f, agent.reportsTo, {agent.id}, n) && errors != [] && errors[|errors| - 1] == ManagerCycle(Up(f, agent.reportsTo, n)) {
        MetOnCycle(f, agent.reportsTo, {agent.id}, n);
      }
    }
  }

  // At most one missing manager and at most one cycle, in this order.
  lemma ErrorsOfOne(agents: seq<Agent>, agent: Agent, errors: seq<HierarchyError>)
    requires ErrorsOf(agents, agent, errors)
    ensures |errors| <= 2 && (|errors| == 2 ==> errors[0].MissingManager? && errors[1].ManagerCycle?)
    ensures MissingManager(agent.id, agent.reportsTo) in errors <==>
      agent.reportsTo != "" && forall other :: other in agents ==> other.id != agent.reportsTo
    ensures (exists member :: ManagerCycle(member) in errors) <==> !Ends(WalkFrom(agents, agent), agent.reportsTo)
  {
    if agent.reportsTo == "" {
      assert Up(WalkFrom(agents, agent), agent.reportsTo, 0) == "";
    } else {
      var f := WalkFrom(agents, agent);
      if n: nat :| FirstMet(f, agent.reportsTo, {agent.id}, n) && errors != [] && errors[|errors| - 1] == ManagerCycle(Up(f, agent.reportsTo, n)) {
        MetOnCycle(f, agent.reportsTo, {agent.id}, n);
        assert errors[|errors| - 1] in errors;
      }
    }
  }

  method FindErrors(agents: seq<Agent>, agent: Agent) returns (errors: seq<HierarchyError>)
    requires agent in agents
    ensures ErrorsOf(agents, agent, errors)
  {
    errors := [];
    if agent.reportsTo == "" {
      return;
    }
    if agent.reportsTo !in Ids(agents) {
      errors := errors + [MissingManager(agent.id, agent.reportsTo)];
    }
    ghost var everyone := Ids(agents) + (set x | x in agents :: x.reportsTo);
    var f := WalkFrom(agents, agent);
    forall x ensures f(x) == "" || f(x) in everyone { FirstIsListed(agents, x); }
    var repeated := Climb(f, agent.reportsTo, {agent.id}, everyone);
    if repeated.Some? {
      errors := errors + [ManagerCycle(repeated.value)];
    }
  }

  method CheckAgent(agents: seq<Agent>, agent: Agent) returns (errors: seq<HierarchyError>)
    requires agent in agents
    ensures ErrorsOf(agents, agent, errors)
    ensures errors == [] <==> Fine(agents, agent)
    ensures Reported(agents, agent, errors)
    ensures forall e :: e in errors ==> Justified(agents, e)
  {
    errors := FindErrors(agents, agent);
    ErrorsTold(agents, agent, errors);
  }

  // Keeps the first of equal entries, as spreading a Set does.
  function Unique<T(==, !new)>(s: seq<T>): (r: seq<T>)
    ensures forall x :: x in r <==> x in s
    ensures forall i, j :: 0 <= i < j < |r| ==> r[i] != r[j]
  {
    if s == [] then []
    else
      var r, last := Unique(s[..|s| - 1]), s[|s| - 1];
      if last in r then r else r + [last]
  }

  // What stands first stays first: the unique entries of a beginning are a beginning.
  lemma {:induction false} UniqueKeepsOrder<T(!new)>(s: seq<T>, n: nat)
    requires n <= |s|
    ensures Unique(s[..n]) <= Unique(s)
    decreases |s|
  {
    if n == |s| {
      assert s[..n] == s;
    } else {
      assert s[..|s| - 1][..n] == s[..n];
      UniqueKeepsOrder(s[..|s| - 1], n);
    }
  }

  function Flatten<T>(parts: seq<seq<T>>): seq<T> {
    if parts == [] then [] else Flatten(parts[..|parts| - 1]) + parts[|parts| - 1]
  }

  // The errors come in the order of the agents, each at its first place.
  ghost predicate InOrderOfAgents(agents: seq<Agent>, errors: seq<HierarchyError>) {
    exists parts: seq<seq<HierarchyError>> ::
      && |parts| == |agents| && errors == Unique(Flatten(parts))
      && forall i :: 0 <= i < |agents| ==> ErrorsOf(agents, agents[i], parts[i])
  }

  lemma {:induction false} Flattened<T>(parts: seq<seq<T>>, i: nat)
    requires i < |parts|
    ensures forall x :: x in parts[i] ==> x in Flatten(parts)
  {
    if i == |parts| - 1 {
    } else {
      Flattened(parts[..|parts| - 1], i);
    }
  }

  lemma {:induction false} FlattenedFrom<T>(parts: seq<seq<T>>, x: T) returns (i: nat)
    requires x in Flatten(parts)
    ensures i < |parts| && x in parts[i]
  {
    if x in parts[|parts| - 1] {
      i := |parts| - 1;
    } else {
      i := FlattenedFrom(parts[..|parts| - 1], x);
    }
  }

  // What the list of errors says: it is empty exactly when all agents are fine, every fault is
  // reported and every error is true.
  lemma ErrorsListed(agents: seq<Agent>, errors: seq<HierarchyError>)
    requires InOrderOfAgents(agents, errors)
    ensures errors == [] <==> forall agent :: agent in agents ==> Fine(agents, agent)
    ensures forall agent :: agent in agents ==> Reported(agents, agent, errors)
    ensures forall e :: e in errors ==> Justified(agents, e)
  {
    var parts: seq<seq<HierarchyError>> :| |parts| == |agents| && errors == Unique(Flatten(parts))
      && forall i :: 0 <= i < |agents| ==> ErrorsOf(agents, agents[i], parts[i]);
    forall i | 0 <= i < |agents|
      ensures Reported(agents, agents[i], errors) && (errors == [] ==> Fine(agents, agents[i]))
    {
      ErrorsTold(agents, agents[i], parts[i]);
      Flattened(parts, i);
      assert parts[i] != [] ==> parts[i][0] in errors;
      ReportedMono(agents, agents[i], parts[i], errors);
    }
    forall e | e in errors
      ensures Justified(agents, e) && exists agent :: agent in agents && !Fine(agents, agent)
    {
      var i := FlattenedFrom(parts, e);
      ErrorsTold(agents, agents[i], parts[i]);
    }
    assert errors != [] ==> errors[0] in errors;
  }

  method ValidateAgentHierarchy(agents: seq<Agent>) returns (errors: seq<HierarchyError>)
    ensures InOrderOfAgents(agents, errors)
    ensures errors == [] <==> forall agent :: agent in agents ==> Fine(agents, agent)
    ensures forall agent :: agent in agents ==> Reported(agents, agent, errors)
    ensures forall e :: e in errors ==> Justified(agents, e)
    ensures forall i, j :: 0 <= i < j < |errors| ==> errors[i] != errors[j]
  {
    var all: seq<HierarchyError> := [];
    ghost var parts: seq<seq<HierarchyError>> := [];
    for i := 0 to |agents|
      invariant |parts| == i && all == Flatten(parts)
      invariant forall k :: 0 <= k < i ==> ErrorsOf(agents, agents[k], parts[k])
    {
      var found := CheckAgent(agents, agents[i]);
      assert (parts + [found])[..i] == parts;
      parts := parts + [found];
      all := all + found;
    }
    errors := Unique(all);
    ErrorsListed(agents, errors);
  }

  // ----- the two validators agree -------------------------------------------

  function AsAgents(defs: seq<Definition>): seq<Agent> {
    seq(|defs|, i requires 0 <= i < |defs| => Agent(defs[i].id, defs[i].reportsTo))
  }

  // Unique ids, nobody listed under `manages`, and every named manager defined.
  predicate Plain(defs: seq<Definition>) {
    && (forall i, j :: 0 <= i < j < |defs| ==> defs[i].id != defs[j].id)
    && (forall d :: d in defs ==> d.id != "" && d.manages == [])
    && (forall d :: d in defs && d.reportsTo != "" ==> exists m :: m in defs && m.id == d.reportsTo)
  }

  lemma {:induction false} LastOfUnique(defs: seq<Definition>, i: nat)
    requires i < |defs| && forall i, j :: 0 <= i < j < |defs| ==> defs[i].id != defs[j].id
    ensures LastReportsTo(defs, defs[i].id) == defs[i].reportsTo
  {
    if i + 1 < |defs| {
      LastOfUnique(defs[..|defs| - 1], i);
    }
  }

  lemma {:induction false} LastOfNone(defs: seq<Definition>, a: string)
    requires forall d :: d in defs ==> d.id != a
    ensures LastReportsTo(defs, a) == ""
  {
    if defs == [] {
    } else {
      assert forall d :: d in defs[..|defs| - 1] ==> d in defs;
      LastOfNone(defs[..|defs| - 1], a);
    }
  }

  lemma {:induction false} FirstIs(agents: seq<Agent>, i: nat, a: string)
    requires i <= |agents| && forall k :: 0 <= k < i ==> agents[k].id != a
    ensures FirstReportsTo(agents, a) == FirstReportsTo(agents[i..], a)
  {
    if i > 0 {
      FirstIs(agents[1..], i - 1, a);
      assert agents[1..][i - 1..] == agents[i..];
    } else {
      assert agents[0..] == agents;
    }
  }

  lemma SameManager(defs: seq<Definition>, a: string)
    requires Plain(defs)
    ensures LastReportsTo(defs, a) == FirstReportsTo(AsAgents(defs), a)
  {
    var agents := AsAgents(defs);
    if exists i :: 0 <= i < |defs| && defs[i].id == a {
      var i :| 0 <= i < |defs| && defs[i].id == a;
      LastOfUnique(defs, i);
      FirstIs(agents, i, a);
      assert agents[i..][0] == agents[i];
    } else {
      LastOfNone(defs, a);
      FirstIs(agents, |agents|, a);
    }
  }

  // What assertAcyclic accepts is what validateAgentHierarchy finds no error in.
  lemma ValidatorsAgree(defs: seq<Definition>)
    requires Plain(defs)
    ensures Hierarchical(defs) <==> forall agent :: agent in AsAgents(defs) ==> Fine(AsAgents(defs), agent)
  {
    var agents := AsAgents(defs);
    var f := a => LastReportsTo(defs, a);
    assert Represents(defs, f);
    forall i | 0 <= i < |defs|
      ensures ReachesRoot(defs, defs[i].id) <==> Fine(agents, agents[i])
    {
      AgreeOn(defs, f, i);
    }
    forall agent | agent in agents
      ensures exists i :: 0 <= i < |defs| && agents[i] == agent
    {}
  }

  lemma RootMeansEnd(defs: seq<Definition>, f: string -> string, a: string)
    requires Represents(defs, f) && a != ""
    ensures ReachesRoot(defs, a) <==> Ends(f, f(a))
  {
    if ReachesRoot(defs, a) {
      var c :| ChainToRoot(defs, a, c);
      ReachesRootEnds(defs, f, a, c);
      assert Up(f, f(a), |c| - 1) == "";
    }
    if Ends(f, f(a)) {
      var n: nat :| Up(f, f(a), n) == "";
      EndsReachesRoot(defs, f, a, n + 1);
    }
  }

  lemma {:induction false} SameUp(f: string -> string, g: string -> string, a: string, n: nat)
    requires forall x :: f(x) == g(x)
    ensures Up(f, a, n) == Up(g, a, n)
    decreases n
  {
    if n > 0 && a != "" {
      SameUp(f, g, f(a), n - 1);
    }
  }

  lemma SameEnd(f: string -> string, g: string -> string, a: string)
    requires forall x :: f(x) == g(x)
    ensures Ends(f, a) <==> Ends(g, a)
  {
    forall n: nat ensures Up(f, a, n) == Up(g, a, n) { SameUp(f, g, a, n); }
  }

  lemma AgreeOn(defs: seq<Definition>, f: string -> string, i: nat)
    requires Plain(defs) && i < |defs| && f == (a => LastReportsTo(defs, a)) && Represents(defs, f)
    ensures ReachesRoot(defs, defs[i].id) <==> Fine(AsAgents(defs), AsAgents(defs)[i])
  {
    var agents, id, up := AsAgents(defs), defs[i].id, defs[i].reportsTo;
    assert defs[i] in defs;
    RootMeansEnd(defs, f, id);
    LastOfUnique(defs, i);
    var g := WalkFrom(agents, agents[i]);
    forall a ensures f(a) == g(a) { SameManager(defs, a); }
    SameEnd(f, g, up);
    if up == "" {
      assert Up(f, up, 0) == "";
    } else {
      ListedManager(defs, i);
    }
  }

  lemma ListedManager(defs: seq<Definition>, i: nat)
    requires Plain(defs) && i < |defs| && defs[i].reportsTo != ""
    ensures defs[i].reportsTo in Ids(AsAgents(defs))
  {
    var m :| m in defs && m.id == defs[i].reportsTo;
    var k :| 0 <= k < |defs| && defs[k] == m;
    assert AsAgents(defs)[k] in AsAgents(defs);
  }
}
