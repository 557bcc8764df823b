// The authority graph of a company and the breadth-first search over it
// (packages/company/src/control-plane.ts). `reports_to` edges are walked both
// ways, every other relation only from its source to its target.
module AuthorityGraph {
  import opened Wrappers

  datatype Relation = ReportsTo | Manages | MayDelegateTo | MayApprove | MustEscalateTo

  datatype Edge = Edge(from: string, to: string, relation: Relation)

  // ----- the meaning of a path ---------------------------------------------

  predicate Crosses(e: Edge, relations: seq<Relation>, a: string, b: string) {
    || (e.from == a && e.relation in relations && e.to == b)
    || (e.relation == ReportsTo && ReportsTo in relations && e.to == a && e.from == b)
  }

  ghost predicate Step(edges: seq<Edge>, relations: seq<Relation>, a: string, b: string) {
    b != "" && exists e :: e in edges && Crosses(e, relations, a, b)
  }

  ghost predicate StepAt(edges: seq<Edge>, relations: seq<Relation>, w: seq<string>, i: nat) {
    i + 1 < |w| ==> Step(edges, relations, w[i], w[i + 1])
  }

  ghost predicate IsWalk(edges: seq<Edge>, relations: seq<Relation>, w: seq<string>) {
    w != [] && forall i: nat :: StepAt(edges, relations, w, i)
  }

  ghost predicate Walk(edges: seq<Edge>, relations: seq<Relation>, a: string, b: string, w: seq<string>) {
    IsWalk(edges, relations, w) && w[0] == a && w[|w| - 1] == b
  }

  ghost predicate Reachable(edges: seq<Edge>, relations: seq<Relation>, a: string, b: string) {
    exists w :: Walk(edges, relations, a, b, w)
  }

  // `w` is a walk, and no walk between its ends visits fewer agents.
  ghost predicate Shortest(edges: seq<Edge>, relations: seq<Relation>, w: seq<string>) {
    && IsWalk(edges, relations, w)
    && forall v :: Walk(edges, relations, w[0], w[|w| - 1], v) ==> |w| <= |v|
  }

  ghost predicate Distinct<T(!new)>(s: seq<T>) {
    forall i, j :: 0 <= i < j < |s| ==> s[i] != s[j]
  }

  // ----- walks --------------------------------------------------------------

  lemma WalkConcat(edges: seq<Edge>, relations: seq<Relation>, u: seq<string>, v: seq<string>)
    requires IsWalk(edges, relations, u) && IsWalk(edges, relations, v)
    requires u[|u| - 1] == v[0]
    ensures Walk(edges, relations, u[0], v[|v| - 1], u + v[1..])
  {
    var w := u + v[1..];
    forall i: nat | i + 1 < |w|
      ensures StepAt(edges, relations, w, i)
    {
      if i + 1 < |u| {
        assert StepAt(edges, relations, u, i);
      } else {
        assert StepAt(edges, relations, v, i + 1 - |u|);
        assert w[i] == v[i + 1 - |u|] && w[i + 1] == v[i + 2 - |u|];
      }
    }
  }

  lemma WalkSlice(edges: seq<Edge>, relations: seq<Relation>, w: seq<string>, lo: nat, hi: nat)
    requires IsWalk(edges, relations, w) && lo < hi <= |w|
    ensures Walk(edges, relations, w[lo], w[hi - 1], w[lo..hi])
  {
    forall i: nat | i + 1 < hi - lo
      ensures StepAt(edges, relations, w[lo..hi], i)
    {
      assert StepAt(edges, relations, w, lo + i);
    }
  }

  lemma ReachableTransitive(edges: seq<Edge>, relations: seq<Relation>, a: string, b: string, c: string)
    requires Reachable(edges, relations, a, b) && Reachable(edges, relations, b, c)
    ensures Reachable(edges, relations, a, c)
  {
    var u :| Walk(edges, relations, a, b, u);
    var v :| Walk(edges, relations, b, c, v);
    WalkConcat(edges, relations, u, v);
  }

  lemma ReachableStep(edges: seq<Edge>, relations: seq<Relation>, a: string, b: string, c: string)
    requires Reachable(edges, relations, a, b) && Step(edges, relations, b, c)
    ensures Reachable(edges, relations, a, c)
  {
    assert Walk(edges, relations, b, c, [b, c]);
    ReachableTransitive(edges, relations, a, b, c);
  }

  lemma ReachableSelf(edges: seq<Edge>, relations: seq<Relation>, a: string)
    ensures Reachable(edges, relations, a, a)
  {
    assert Walk(edges, relations, a, a, [a]);
  }

  // A walk through a set that the steps cannot leave stays in it.
  lemma {:induction false} WalkStaysInside(edges: seq<Edge>, relations: seq<Relation>, inside: string -> bool, w: seq<string>)
    requires IsWalk(edges, relations, w) && inside(w[0])
    requires forall a, b :: inside(a) && Step(edges, relations, a, b) ==> inside(b)
    ensures inside(w[|w| - 1])
    decreases |w|
  {
    if |w| == 1 {
    } else {
      var v := w[0..|w| - 1];
      WalkSlice(edges, relations, w, 0, |w| - 1);
      WalkStaysInside(edges, relations, inside, v);
      assert StepAt(edges, relations, w, |w| - 2);
    }
  }

  // A single edge leads from its source to its target if its relation is listed, and back only if
  // it is a listed `reports_to`.
  lemma OneEdgeLeads(e: Edge, relations: seq<Relation>)
    requires e.from != "" && e.to != "" && e.from != e.to
    ensures Reachable([e], relations, e.from, e.to) <==> e.relation in relations
    ensures Reachable([e], relations, e.to, e.from) <==> e.relation == ReportsTo && ReportsTo in relations
  {
    assert e in [e];
    if e.relation in relations {
      assert Walk([e], relations, e.from, e.to, [e.from, e.to]);
    } else {
      NoStepNoWalk([e], relations, e.from, e.to);
    }
    if e.relation == ReportsTo && ReportsTo in relations {
      assert Walk([e], relations, e.to, e.from, [e.to, e.from]);
    } else {
      NoStepNoWalk([e], relations, e.to, e.from);
    }
  }

  lemma NoStepNoWalk(edges: seq<Edge>, relations: seq<Relation>, a: string, b: string)
    requires a != b && forall x :: !Step(edges, relations, a, x)
    ensures !Reachable(edges, relations, a, b)
  {
    forall w | w != [] && w[0] == a && w[|w| - 1] == b
      ensures !IsWalk(edges, relations, w)
    {
      assert !StepAt(edges, relations, w, 0);
    }
  }

  // A least-length walk repeats no agent: the stretch between two visits could be cut out.
  lemma ShortestIsSimple(edges: seq<Edge>, relations: seq<Relation>, w: seq<string>)
    requires Shortest(edges, relations, w)
    ensures Distinct(w)
  {
    forall i, j | 0 <= i < j < |w| && w[i] == w[j]
      ensures false
    {
      var u, v := w[0..i + 1], w[j..|w|];
      WalkSlice(edges, relations, w, 0, i + 1);
      WalkSlice(edges, relations, w, j, |w|);
      WalkConcat(edges, relations, u, v);
    }
  }

  // ----- breadth-first search -----------------------------------------------

  datatype Entry = Entry(id: string, path: seq<string>)

  // What one edge offers from `current`: at most one next agent.
  function Next(e: Edge, relations: seq<Relation>, current: string): Option<string> {
    if e.from == current && e.relation in relations then Some(e.to)
    else if e.relation == ReportsTo && ReportsTo in relations && e.to == current then Some(e.from)
    else None
  }

  // The search frontier: `pending` holds shortest walks in order of length, and
  // everything one step beyond a finished agent has been visited.
  ghost predicate Frontier(edges: seq<Edge>, relations: seq<Relation>, from: string,
                           pending: seq<Entry>, visited: set<string>, done: set<string>)
  {
    && from in visited
    && (forall q :: q in pending ==> ShortestTo(edges, relations, from, q))
    && Ordered(pending)
    && Split(pending, visited, done)
    && (forall v :: v in done ==> Scanned(edges, relations, v, visited))
  }

  // The visited agents are the finished ones and, apart from these, the waiting ones.
  ghost predicate Split(pending: seq<Entry>, visited: set<string>, done: set<string>) {
    && (forall q :: q in pending ==> q.id in visited && q.id !in done)
    && (forall v :: v in visited ==> v in done || Waiting(pending, v))
  }

  ghost predicate Scanned(edges: seq<Edge>, relations: seq<Relation>, v: string, visited: set<string>) {
    forall b :: Step(edges, relations, v, b) ==> b in visited
  }

  ghost predicate Ordered(pending: seq<Entry>) {
    forall i, j :: 0 <= i < j < |pending| ==>
      pending[i].id != pending[j].id && |pending[i].path| <= |pending[j].path|
  }

  ghost predicate ShortestTo(edges: seq<Edge>, relations: seq<Relation>, from: string, q: Entry) {
    Walk(edges, relations, from, q.id, q.path) && Shortest(edges, relations, q.path)
  }

  ghost predicate Waiting(pending: seq<Entry>, v: string) {
    exists q :: q in pending && q.id == v
  }

  // Every agent that some walk no longer than the first pending one reaches has
  // been visited, and if the walk is strictly shorter the agent is finished.
  lemma {:induction false} Layer(edges: seq<Edge>, relations: seq<Relation>, from: string,
                                 pending: seq<Entry>, visited: set<string>, done: set<string>, w: seq<string>)
    requires Frontier(edges, relations, from, pending, visited, done)
    requires IsWalk(edges, relations, w) && w[0] == from
    requires pending == [] || |w| <= |pending[0].path|
    ensures w[|w| - 1] in visited
    ensures pending == [] || |w| < |pending[0].path| ==> w[|w| - 1] in done
    decreases |w|
  {
    var last := w[|w| - 1];
    if |w| == 1 {
    } else {
      var v := w[0..|w| - 1];
      WalkSlice(edges, relations, w, 0, |w| - 1);
      Layer(edges, relations, from, pending, visited, done, v);
      assert StepAt(edges, relations, w, |w| - 2) && Scanned(edges, relations, w[|w| - 2], visited);
    }
    if last !in done && pending != [] {
      var q :| q in pending && q.id == last;
      assert ShortestTo(edges, relations, from, q) && Walk(edges, relations, from, last, w);
      assert |pending[0].path| <= |q.path| <= |w|;
    }
  }

  lemma Discovered(edges: seq<Edge>, relations: seq<Relation>, from: string, pending: seq<Entry>,
                   visited: set<string>, done: set<string>, next: string)
    requires Frontier(edges, relations, from, pending, visited, done) && pending != []
    requires next !in visited && Step(edges, relations, pending[0].id, next)
    ensures ShortestTo(edges, relations, from, Entry(next, pending[0].path + [next]))
  {
    var current := pending[0];
    assert ShortestTo(edges, relations, from, current);
    var p := current.path + [next];
    assert Walk(edges, relations, current.id, next, [current.id, next]);
    WalkConcat(edges, relations, current.path, [current.id, next]);
    assert current.path + [current.id, next][1..] == p;
    forall v | Walk(edges, relations, from, next, v)
      ensures |p| <= |v|
    {
      if |v| <= |current.path| {
        Layer(edges, relations, from, pending, visited, done, v);
      }
    }
  }

  lemma FrontierPush(edges: seq<Edge>, relations: seq<Relation>, from: string, pending: seq<Entry>,
                     visited: set<string>, done: set<string>, next: string)
    requires Frontier(edges, relations, from, pending, visited, done) && pending != []
    requires forall q :: q in pending ==> |q.path| <= |pending[0].path| + 1
    requires next !in visited && Step(edges, relations, pending[0].id, next)
    requires done <= visited
    ensures Frontier(edges, relations, from, pending + [Entry(next, pending[0].path + [next])], visited + {next}, done)
  {
    Discovered(edges, relations, from, pending, visited, done, next);
    var found := Entry(next, pending[0].path + [next]);
    PushLast(pending, visited, done, found);
    forall v | v in done ensures Scanned(edges, relations, v, visited + {next}) {
      assert Scanned(edges, relations, v, visited);
    }
  }

  lemma PushLast(pending: seq<Entry>, visited: set<string>, done: set<string>, found: Entry)
    requires Ordered(pending) && Split(pending, visited, done)
    requires found.id !in visited && found.id !in done
    requires forall q :: q in pending ==> |q.path| <= |found.path|
    ensures Ordered(pending + [found]) && Split(pending + [found], visited + {found.id}, done)
  {
    var all := pending + [found];
    assert all[|pending|] == found;
    forall i, j | 0 <= i < j < |all| ensures all[i].id != all[j].id && |all[i].path| <= |all[j].path| {
      assert all[i] == pending[i] && all[i] in pending;
    }
    forall v | v in visited && v !in done ensures Waiting(all, v) {
      var q :| q in pending && q.id == v;
      assert q in all;
    }
    assert found in all;
  }

  lemma PopFirst(pending: seq<Entry>, visited: set<string>, done: set<string>)
    requires pending != [] && Ordered(pending) && Split(pending, visited, done)
    ensures Ordered(pending[1..]) && Split(pending[1..], visited, done + {pending[0].id})
  {
    var first, rest := pending[0], pending[1..];
    forall i, j | 0 <= i < j < |rest|
      ensures rest[i].id != rest[j].id && |rest[i].path| <= |rest[j].path|
    {
      assert rest[i] == pending[i + 1] && rest[j] == pending[j + 1];
    }
    assert pending == [first] + rest;
    forall q | q in rest
      ensures q in pending && q.id != first.id
    {
      var i :| 0 <= i < |rest| && rest[i] == q;
      assert pending[i + 1] == q;
    }
    forall v | v in visited && v !in done + {first.id}
      ensures Waiting(rest, v)
    {
      var q :| q in pending && q.id == v;
      assert q in rest;
    }
  }

  lemma FrontierPop(edges: seq<Edge>, relations: seq<Relation>, from: string, pending: seq<Entry>,
                    visited: set<string>, done: set<string>)
    requires Frontier(edges, relations, from, pending, visited, done) && pending != []
    requires Scanned(edges, relations, pending[0].id, visited)
    ensures Frontier(edges, relations, from, pending[1..], visited, done + {pending[0].id})
  {
    PopFirst(pending, visited, done);
    forall q | q in pending[1..]
      ensures ShortestTo(edges, relations, from, q)
    {
      assert q in pending;
    }
  }

  ghost function Endpoints(edges: seq<Edge>): set<string> {
    (set e | e in edges :: e.from) + (set e | e in edges :: e.to)
  }

  lemma StepByEdge(edges: seq<Edge>, relations: seq<Relation>, e: Edge, a: string, b: string)
    requires e in edges && b != "" && Next(e, relations, a) == Some(b)
    ensures Step(edges, relations, a, b) && b in Endpoints(edges)
  {
    assert Crosses(e, relations, a, b);
  }

  // Everything that `current` can step to over the given edges.
  ghost function Offers(edges: seq<Edge>, relations: seq<Relation>, current: string): set<string> {
    set e | e in edges && Next(e, relations, current).Some? && Next(e, relations, current).value != ""
      :: Next(e, relations, current).value
  }

  lemma OffersNext(edges: seq<Edge>, relations: seq<Relation>, current: string, i: nat)
    requires i < |edges|
    ensures var next := Next(edges[i], relations, current);
            Offers(edges[..i + 1], relations, current) == Offers(edges[..i], relations, current)
              + (if next.Some? && next.value != "" then {next.value} else {})
  {
    assert edges[..i + 1] == edges[..i] + [edges[i]];
  }

  lemma OffersAreSteps(edges: seq<Edge>, relations: seq<Relation>, current: string, visited: set<string>)
    requires Offers(edges, relations, current) <= visited
    ensures Scanned(edges, relations, current, visited)
  {
    forall b | Step(edges, relations, current, b)
      ensures b in visited
    {
      var e :| e in edges && Crosses(e, relations, current, b);
      assert Next(e, relations, current) == Some(b);
    }
  }

  // One turn of the search: the first pending entry is taken and every agent one
  // step from it that was not seen before is appended.
  method Expand(edges: seq<Edge>, relations: seq<Relation>, ghost from: string, pending: seq<Entry>,
                seen: set<string>, ghost done: set<string>, ghost agents: set<string>)
    returns (queue: seq<Entry>, visited: set<string>)
    requires Frontier(edges, relations, from, pending, seen, done) && pending != []
    requires forall q :: q in pending ==> |q.path| <= |pending[0].path| + 1
    requires done <= seen <= agents && Endpoints(edges) <= agents
    ensures Frontier(edges, relations, from, queue, visited, done + {pending[0].id})
    ensures queue != [] ==> forall q :: q in queue ==> |q.path| <= |queue[0].path| + 1
    ensures seen <= visited <= agents
  {
    var current := pending[0];
    queue, visited := pending[1..], seen;
    assert pending == [current] + queue;
    for i := 0 to |edges|
      invariant Frontier(edges, relations, from, [current] + queue, visited, done)
      invariant forall q :: q in queue ==> |q.path| <= |current.path| + 1
      invariant seen <= visited <= agents
      invariant Offers(edges[..i], relations, current.id) <= visited
    {
      OffersNext(edges, relations, current.id, i);
      var next := Next(edges[i], relations, current.id);
      if next.Some? && next.value != "" && next.value !in visited {
        StepByEdge(edges, relations, edges[i], current.id, next.value);
        PushBehind(edges, relations, from, current, queue, visited, done, next.value);
        queue := queue + [Entry(next.value, current.path + [next.value])];
        visited := visited + {next.value};
      }
    }
    assert edges[..|edges|] == edges;
    OffersAreSteps(edges, relations, current.id, visited);
    FrontierPop(edges, relations, from, [current] + queue, visited, done);
    assert ([current] + queue)[1..] == queue;
  }

  lemma PushBehind(edges: seq<Edge>, relations: seq<Relation>, from: string, current: Entry, queue: seq<Entry>,
                   visited: set<string>, done: set<string>, next: string)
    requires Frontier(edges, relations, from, [current] + queue, visited, done) && done <= visited
    requires forall q :: q in queue ==> |q.path| <= |current.path| + 1
    requires next !in visited && Step(edges, relations, current.id, next)
    ensures Frontier(edges, relations, from, [current] + (queue + [Entry(next, current.path + [next])]), visited + {next}, done)
  {
    var whole := [current] + queue;
    assert forall q :: q in whole ==> q == current || q in queue;
    FrontierPush(edges, relations, from, whole, visited, done, next);
    var found := Entry(next, current.path + [next]);
    assert whole + [found] == [current] + (queue + [found]);
  }

  method FindPath(edges: seq<Edge>, from: string, to: string, relations: seq<Relation>)
    returns (path: Option<seq<string>>)
    ensures path.Some? <==> from != "" && to != "" && Reachable(edges, relations, from, to)
    ensures path.Some? ==>
              && Walk(edges, relations, from, to, path.value)
              && Shortest(edges, relations, path.value)
              && Distinct(path.value)
  {
    if from == "" || to == "" {
      return None;
    }
    var queue := [Entry(from, [from])];
    var visited := {from};
    ghost var done: set<string> := {};
    ghost var agents := {from} + Endpoints(edges);
    assert Walk(edges, relations, from, from, [from]);
    while queue != []
      invariant Frontier(edges, relations, from, queue, visited, done)
      invariant queue != [] ==> forall q :: q in queue ==> |q.path| <= |queue[0].path| + 1
      invariant to !in done && done <= visited <= agents
      decreases agents - done
    {
      var current := queue[0];
      if current.id == to {
        assert ShortestTo(edges, relations, from, current);
        ShortestIsSimple(edges, relations, current.path);
        return Some(current.path);
      }
      queue, visited := Expand(edges, relations, from, queue, visited, done, agents);
      done := done + {current.id};
    }
    if Reachable(edges, relations, from, to) {
      ghost var w :| Walk(edges, relations, from, to, w);
      Layer(edges, relations, from, queue, visited, done, w);
    }
    return None;
  }
}
