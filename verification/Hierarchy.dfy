// Storing authority edges (packages/company/src/control-plane.ts, setAuthorityEdge)
// and what the cycle check keeps true of the stored graph.
module Hierarchy {
  import opened Wrappers
  import opened AuthorityGraph

  // ----- identifiers --------------------------------------------------------

  // The white space and line terminators that String.prototype.trim removes.
  predicate IsSpace(c: char) {
    || c in " \t\n\r"
    || (var u := c as int;
        || u == 0x0B || u == 0x0C || u == 0xA0 || u == 0x1680 || 0x2000 <= u <= 0x200A
        || u == 0x2028 || u == 0x2029 || u == 0x202F || u == 0x205F || u == 0x3000 || u == 0xFEFF)
  }

  // By code point: tab to carriage return, the blank, and what Unicode adds to them.
  lemma SpacesAre(c: char)
    ensures IsSpace(c) <==>
      || 9 <= c as int <= 13 || c as int == 32 || c as int == 160 || c as int == 5760 || 8192 <= c as int <= 8202
      || c as int in {8232, 8233, 8239, 8287, 12288, 65279}
  {}

  function TrimStart(s: string): string {
    if s != "" && IsSpace(s[0]) then TrimStart(s[1..]) else s
  }

  function TrimEnd(s: string): string {
    if s != "" && IsSpace(s[|s| - 1]) then TrimEnd(s[..|s| - 1]) else s
  }

  function Trim(s: string): string {
    TrimEnd(TrimStart(s))
  }

  // No white space at either end.
  predicate Trimmed(s: string) {
    s == "" || (!IsSpace(s[0]) && !IsSpace(s[|s| - 1]))
  }

  lemma {:induction false} TrimEndKeepsStart(s: string)
    requires s == "" || !IsSpace(s[0])
    ensures Trimmed(TrimEnd(s))
    ensures !IsSpace(if s == "" then 'a' else s[|s| - 1]) ==> TrimEnd(s) == s
  {
    if s != "" && IsSpace(s[|s| - 1]) {
      TrimEndKeepsStart(s[..|s| - 1]);
    }
  }

  lemma {:induction false} TrimStartClears(s: string)
    ensures TrimStart(s) == "" || !IsSpace(TrimStart(s)[0])
  {
    if s != "" && IsSpace(s[0]) {
      TrimStartClears(s[1..]);
    }
  }

  // Trimming yields a trimmed identifier, and leaves an identifier alone exactly when it is one.
  lemma TrimIsTrimmed(s: string)
    ensures Trimmed(Trim(s))
    ensures Trim(s) == s <==> Trimmed(s)
  {
    TrimStartClears(s);
    TrimEndKeepsStart(TrimStart(s));
  }

  ghost predicate AllSpaces(s: string) {
    forall c :: c in s ==> IsSpace(c)
  }

  lemma {:induction false} TrimStartDrops(s: string) returns (front: string)
    ensures s == front + TrimStart(s) && AllSpaces(front)
  {
    if s == "" || !IsSpace(s[0]) {
      front := "";
    } else {
      front := TrimStartDrops(s[1..]);
      front := [s[0]] + front;
    }
  }

  lemma {:induction false} TrimEndDrops(s: string) returns (back: string)
    ensures s == TrimEnd(s) + back && AllSpaces(back)
  {
    if s == "" || !IsSpace(s[|s| - 1]) {
      back := "";
    } else {
      back := TrimEndDrops(s[..|s| - 1]);
      back := back + [s[|s| - 1]];
      assert s == s[..|s| - 1] + [s[|s| - 1]];
    }
  }

  // Only white space at the two ends goes away.
  lemma TrimKeepsMiddle(s: string) returns (front: string, back: string)
    ensures s == front + Trim(s) + back && AllSpaces(front) && AllSpaces(back)
  {
    front := TrimStartDrops(s);
    back := TrimEndDrops(TrimStart(s));
  }

  // ----- storing an edge ----------------------------------------------------

  const HIERARCHY := [ReportsTo, Manages]
  const REPORTING := [ReportsTo]

  datatype EdgeCall = EdgeCall(from: string, to: string, relation: Relation)

  datatype EdgeError = SelfEdge | Cycle | InvalidId

  // The cycle check: a path back from the target to the source of the new edge.
  ghost predicate Refused(edges: seq<Edge>, call: EdgeCall) {
    && call.relation in HIERARCHY
    && call.from != "" && call.to != ""
    && Reachable(edges, HIERARCHY, call.to, call.from)
  }

  function StoredEdge(call: EdgeCall): Edge {
    Edge(Trim(call.from), Trim(call.to), call.relation)
  }

  // The answer of one call and the edge table after it.
  ghost function Answer(edges: seq<Edge>, call: EdgeCall): Result<Edge, EdgeError> {
    if call.from == call.to then Failure(SelfEdge)
    else if Refused(edges, call) then Failure(Cycle)
    else if Trim(call.from) == "" || Trim(call.to) == "" then Failure(InvalidId)
    else Success(StoredEdge(call))
  }

  ghost function SetEdge(edges: seq<Edge>, call: EdgeCall): seq<Edge> {
    if Answer(edges, call).Success? && StoredEdge(call) !in edges then edges + [StoredEdge(call)] else edges
  }

  ghost function Run(calls: seq<EdgeCall>): seq<Edge> {
    if calls == [] then [] else SetEdge(Run(calls[..|calls| - 1]), calls[|calls| - 1])
  }

  // The answer of a call: an agent above itself, a loop of `reports_to` and `manages`, an empty
  // identifier, or the edge with trimmed ends; the check for loops sees no other relation.
  lemma AnswersAreExact(edges: seq<Edge>, call: EdgeCall)
    ensures Answer(edges, call) == Failure(SelfEdge) <==> call.from == call.to
    ensures Answer(edges, call) == Failure(Cycle) <==>
      && call.from != call.to && call.from != "" && call.to != ""
      && (call.relation == ReportsTo || call.relation == Manages)
      && Reachable(edges, [ReportsTo, Manages], call.to, call.from)
    ensures Answer(edges, call) == Failure(InvalidId) ==> Trim(call.from) == "" || Trim(call.to) == ""
    ensures Answer(edges, call).Success? ==> Answer(edges, call).value == Edge(Trim(call.from), Trim(call.to), call.relation)
    ensures Trim(call.from) == "" || Trim(call.to) == "" ==> Answer(edges, call).Failure?
  {}

  // Only calls for `reports_to` and `manages` are ever refused as a cycle.
  lemma OthersAreStored(edges: seq<Edge>, call: EdgeCall)
    requires call.relation !in [ReportsTo, Manages]
    requires call.from != call.to && Trim(call.from) != "" && Trim(call.to) != ""
    ensures Answer(edges, call).Success?
    ensures Edge(Trim(call.from), Trim(call.to), call.relation) in SetEdge(edges, call)
  {}

  // The table gains the answered edge, once, and nothing else happens to it.
  lemma OneEdgeMore(edges: seq<Edge>, call: EdgeCall)
    ensures edges <= SetEdge(edges, call)
    ensures forall e :: e in SetEdge(edges, call) <==> e in edges || Answer(edges, call) == Success(e)
    ensures Distinct(edges) ==> Distinct(SetEdge(edges, call))
  {}

  // ----- what a sound hierarchy is ------------------------------------------

  ghost predicate Stored(edges: seq<Edge>) {
    forall e :: e in edges ==> e.from != "" && e.to != "" && Trimmed(e.from) && Trimmed(e.to)
  }

  ghost predicate Above(edges: seq<Edge>, a: string, b: string) {
    exists e :: e in edges && e.relation in HIERARCHY && e.from == a && e.to == b
  }

  ghost predicate AboveAt(edges: seq<Edge>, w: seq<string>, i: nat) {
    i + 1 < |w| ==> Above(edges, w[i], w[i + 1])
  }

  // Following hierarchy edges from source to target never comes back.
  ghost predicate Acyclic(edges: seq<Edge>) {
    forall w :: |w| > 1 && (forall i: nat :: AboveAt(edges, w, i)) ==> w[0] != w[|w| - 1]
  }

  function Without(edges: seq<Edge>, i: nat): seq<Edge>
    requires i < |edges|
  {
    edges[..i] + edges[i + 1..]
  }

  // The reporting lines, read in both directions, form a forest: every one of them is
  // the only connection between the two parts it joins.
  ghost predicate Forest(edges: seq<Edge>) {
    forall i :: 0 <= i < |edges| && edges[i].relation == ReportsTo ==> Bridge(edges, i)
  }

  ghost predicate Bridge(edges: seq<Edge>, i: nat)
    requires i < |edges|
  {
    !Reachable(Without(edges, i), REPORTING, edges[i].from, edges[i].to)
  }

  ghost predicate Sound(edges: seq<Edge>) {
    Stored(edges) && Acyclic(edges) && Forest(edges)
  }

  // ----- acyclicity through ranks -------------------------------------------

  ghost predicate Ranked(edges: seq<Edge>, rank: string -> int) {
    forall e :: e in edges && e.relation in HIERARCHY ==> rank(e.from) < rank(e.to)
  }

  lemma {:induction false} RanksClimb(edges: seq<Edge>, rank: string -> int, w: seq<string>)
    requires Ranked(edges, rank) && w != [] && forall i: nat :: AboveAt(edges, w, i)
    ensures |w| > 1 ==> rank(w[0]) < rank(w[|w| - 1])
    decreases |w|
  {
    if |w| == 1 {
    } else {
      var v := w[..|w| - 1];
      forall i: nat ensures AboveAt(edges, v, i) { assert AboveAt(edges, w, i); }
      RanksClimb(edges, rank, v);
      assert AboveAt(edges, w, |w| - 2);
    }
  }

  lemma RankedIsAcyclic(edges: seq<Edge>, rank: string -> int)
    requires Ranked(edges, rank)
    ensures Acyclic(edges)
  {
    forall w | |w| > 1 && forall i: nat :: AboveAt(edges, w, i)
      ensures w[0] != w[|w| - 1]
    {
      RanksClimb(edges, rank, w);
    }
  }

  // Lifting everything the new edge's target reaches makes room for the new edge.
  lemma RankInsert(edges: seq<Edge>, rank: string -> int, e: Edge) returns (rank': string -> int)
    requires Stored(edges) && Ranked(edges, rank)
    requires !Reachable(edges, HIERARCHY, e.to, e.from)
    ensures Ranked(edges + [e], rank')
  {
    var lift := if rank(e.from) < rank(e.to) then 0 else rank(e.from) - rank(e.to) + 1;
    var reached := (v: string) => Reachable(edges, HIERARCHY, e.to, v);
    rank' := (v: string) => rank(v) + if reached(v) then lift else 0;
    ReachableSelf(edges, HIERARCHY, e.to);
    forall d | d in edges && d.relation in HIERARCHY
      ensures rank'(d.from) < rank'(d.to)
    {
      if reached(d.from) {
        assert Crosses(d, HIERARCHY, d.from, d.to);
        ReachableStep(edges, HIERARCHY, e.to, d.from, d.to);
      }
    }
  }

  // ----- reporting lines stay a forest --------------------------------------

  ghost predicate Linked(edges: seq<Edge>, a: string, b: string) {
    Reachable(edges, REPORTING, a, b)
  }

  lemma {:induction false} LinkedSymmetric(edges: seq<Edge>, a: string, w: seq<string>)
    requires IsWalk(edges, REPORTING, w) && w[0] == a && a != ""
    ensures Linked(edges, w[|w| - 1], a) && w[|w| - 1] != ""
    decreases |w|
  {
    if |w| == 1 {
      ReachableSelf(edges, REPORTING, a);
    } else {
      var u, b := w[|w| - 2], w[|w| - 1];
      WalkSlice(edges, REPORTING, w, 0, |w| - 1);
      LinkedSymmetric(edges, a, w[0..|w| - 1]);
      assert StepAt(edges, REPORTING, w, |w| - 2);
      var e :| e in edges && Crosses(e, REPORTING, u, b);
      assert Crosses(e, REPORTING, b, u);
      ReachableSelf(edges, REPORTING, b);
      ReachableStep(edges, REPORTING, b, b, u);
      ReachableTransitive(edges, REPORTING, b, u, a);
    }
  }

  lemma LinkedBack(edges: seq<Edge>, a: string, b: string)
    requires Linked(edges, a, b) && a != ""
    ensures Linked(edges, b, a)
  {
    var w :| Walk(edges, REPORTING, a, b, w);
    LinkedSymmetric(edges, a, w);
  }

  lemma ReachableMono(edges: seq<Edge>, relations: seq<Relation>, more: seq<Edge>, wider: seq<Relation>, a: string, b: string)
    requires Reachable(edges, relations, a, b)
    requires forall e :: e in edges ==> e in more
    requires forall r :: r in relations ==> r in wider
    ensures Reachable(more, wider, a, b)
  {
    var w :| Walk(edges, relations, a, b, w);
    forall i: nat
      ensures StepAt(more, wider, w, i)
    {
      assert StepAt(edges, relations, w, i);
      if i + 1 < |w| {
        var e :| e in edges && Crosses(e, relations, w[i], w[i + 1]);
        assert Crosses(e, wider, w[i], w[i + 1]);
      }
    }
    assert Walk(more, wider, a, b, w);
  }

  // A link over one more reporting line either does not use it or crosses it once.
  ghost predicate Through(edges: seq<Edge>, e: Edge, a: string, b: string) {
    || Linked(edges, a, b)
    || (e.relation == ReportsTo
        && ((Linked(edges, a, e.from) && Linked(edges, e.to, b)) || (Linked(edges, a, e.to) && Linked(edges, e.from, b))))
  }

  lemma {:induction false} LinkSplits(edges: seq<Edge>, e: Edge, w: seq<string>)
    requires IsWalk(edges + [e], REPORTING, w)
    ensures Through(edges, e, w[0], w[|w| - 1])
    decreases |w|
  {
    if |w| == 1 {
      ReachableSelf(edges, REPORTING, w[0]);
    } else {
      WalkSlice(edges + [e], REPORTING, w, 0, |w| - 1);
      LinkSplits(edges, e, w[0..|w| - 1]);
      assert StepAt(edges + [e], REPORTING, w, |w| - 2);
      ThroughStep(edges, e, w[0], w[|w| - 2], w[|w| - 1]);
    }
  }

  lemma ThroughStep(edges: seq<Edge>, e: Edge, a: string, u: string, b: string)
    requires Through(edges, e, a, u) && Step(edges + [e], REPORTING, u, b)
    ensures Through(edges, e, a, b)
  {
    var d :| d in edges + [e] && Crosses(d, REPORTING, u, b);
    if d in edges {
      assert Step(edges, REPORTING, u, b);
      if Linked(edges, a, u) { ReachableStep(edges, REPORTING, a, u, b); }
      else if Linked(edges, a, e.from) && Linked(edges, e.to, u) { ReachableStep(edges, REPORTING, e.to, u, b); }
      else { ReachableStep(edges, REPORTING, e.from, u, b); }
    } else {
      assert d == e;
      ReachableSelf(edges, REPORTING, b);
    }
  }

  // With the far ends of an old line linked through the new one, the new one's ends were linked before.
  lemma OldLineStaysBridge(edges: seq<Edge>, e: Edge, i: nat)
    requires Stored(edges) && i < |edges| && edges[i].relation == ReportsTo && Bridge(edges, i)
    requires e.from != "" && e.to != "" && !Linked(edges, e.to, e.from)
    ensures !Linked(Without(edges, i) + [e], edges[i].from, edges[i].to)
  {
    var rest, a, b := Without(edges, i), edges[i].from, edges[i].to;
    assert edges[i] in edges && Crosses(edges[i], REPORTING, a, b) && Crosses(edges[i], REPORTING, b, a);
    if Linked(rest + [e], a, b) {
      var w :| Walk(rest + [e], REPORTING, a, b, w);
      LinkSplits(rest, e, w);
      if Linked(rest, a, e.from) && Linked(rest, e.to, b) {
        ReachableMono(rest, REPORTING, edges, REPORTING, a, e.from);
        ReachableMono(rest, REPORTING, edges, REPORTING, e.to, b);
        ReachableStep(edges, REPORTING, e.to, b, a);
        ReachableTransitive(edges, REPORTING, e.to, a, e.from);
      } else {
        ReachableMono(rest, REPORTING, edges, REPORTING, a, e.to);
        ReachableMono(rest, REPORTING, edges, REPORTING, e.from, b);
        LinkedBack(edges, a, e.to);
        ReachableStep(edges, REPORTING, e.to, a, b);
        LinkedBack(edges, e.from, b);
        ReachableTransitive(edges, REPORTING, e.to, b, e.from);
      }
    }
  }

  lemma ForestInsert(edges: seq<Edge>, e: Edge)
    requires Stored(edges) && Forest(edges) && e.from != "" && e.to != ""
    requires e.relation == ReportsTo ==> !Linked(edges, e.to, e.from)
    ensures Forest(edges + [e])
  {
    var more := edges + [e];
    forall i | 0 <= i < |more| && more[i].relation == ReportsTo
      ensures Bridge(more, i)
    {
      if i < |edges| {
        assert Without(more, i) == Without(edges, i) + [e];
        if e.relation == ReportsTo {
          OldLineStaysBridge(edges, e, i);
        } else if Linked(Without(edges, i) + [e], edges[i].from, edges[i].to) {
          var w :| Walk(Without(edges, i) + [e], REPORTING, edges[i].from, edges[i].to, w);
          LinkSplits(Without(edges, i), e, w);
        }
      } else {
        assert Without(more, i) == edges;
        if Linked(edges, e.from, e.to) {
          LinkedBack(edges, e.from, e.to);
        }
      }
    }
  }

  // ----- every run ----------------------------------------------------------

  predicate Clean(call: EdgeCall) {
    call.relation in HIERARCHY ==> Trimmed(call.from) && Trimmed(call.to)
  }

  lemma SetEdgeKeeps(edges: seq<Edge>, rank: string -> int, call: EdgeCall) returns (rank': string -> int)
    requires Stored(edges) && Ranked(edges, rank) && Forest(edges) && Clean(call)
    ensures var after := SetEdge(edges, call); Stored(after) && Ranked(after, rank') && Forest(after)
  {
    var e := StoredEdge(call);
    TrimIsTrimmed(call.from);
    TrimIsTrimmed(call.to);
    rank' := rank;
    if Answer(edges, call).Success? && e !in edges {
      if e.relation in HIERARCHY {
        rank' := RankInsert(edges, rank, e);
        if Linked(edges, e.to, e.from) {
          ReachableMono(edges, REPORTING, edges, HIERARCHY, e.to, e.from);
        }
      }
      ForestInsert(edges, e);
    }
  }

  lemma {:induction false} RunRanks(calls: seq<EdgeCall>) returns (rank: string -> int)
    requires forall c :: c in calls ==> Clean(c)
    ensures Stored(Run(calls)) && Ranked(Run(calls), rank) && Forest(Run(calls))
  {
    if calls == [] {
      rank := (v: string) => 0;
    } else {
      rank := RunRanks(calls[..|calls| - 1]);
      rank := SetEdgeKeeps(Run(calls[..|calls| - 1]), rank, calls[|calls| - 1]);
    }
  }

  // From no edges, any sequence of calls keeps the hierarchy acyclic and the reporting lines a forest.
  lemma EveryRunIsSound(calls: seq<EdgeCall>)
    requires forall c :: c in calls ==> Clean(c)
    ensures Sound(Run(calls))
  {
    var rank := RunRanks(calls);
    RankedIsAcyclic(Run(calls), rank);
  }

  // Whatever the calls were, the stored identifiers are trimmed and not empty.
  lemma {:induction false} EveryRunIsStored(calls: seq<EdgeCall>)
    ensures Stored(Run(calls))
  {
    if calls == [] {
    } else {
      EveryRunIsStored(calls[..|calls| - 1]);
      TrimIsTrimmed(calls[|calls| - 1].from);
      TrimIsTrimmed(calls[|calls| - 1].to);
    }
  }

  // ----- white space defeats the check --------------------------------------

  // The check looks for the identifiers as given, the table keeps them trimmed.
  // An identifier with white space at an end is in no stored edge, so no walk leads to or from it.
  lemma UntrimmedIsIsolated(edges: seq<Edge>, a: string, b: string)
    requires Stored(edges) && a != b && (!Trimmed(a) || !Trimmed(b))
    ensures !Reachable(edges, HIERARCHY, a, b)
  {
    forall w | |w| > 1 && w[0] == a && w[|w| - 1] == b
      ensures !IsWalk(edges, HIERARCHY, w)
    {
      assert !StepAt(edges, HIERARCHY, w, if Trimmed(a) then |w| - 2 else 0);
    }
  }

  // One clean call after which an untrimmed one closes a loop.
  function Trap(call: EdgeCall): seq<EdgeCall> {
    if Trim(call.from) == Trim(call.to) then []
    else [EdgeCall(Trim(call.to), Trim(call.from), call.relation)]
  }

  lemma TrapSprings(call: EdgeCall)
    requires call.relation in HIERARCHY && call.from != call.to
    requires Trim(call.from) != "" && Trim(call.to) != ""
    requires !Trimmed(call.from) || !Trimmed(call.to)
    ensures forall c :: c in Trap(call) ==> Clean(c)
    ensures !Acyclic(Run(Trap(call) + [call]))
  {
    var a, b := Trim(call.from), Trim(call.to);
    TrimIsTrimmed(call.from);
    TrimIsTrimmed(call.to);
    TrimIsTrimmed(a);
    TrimIsTrimmed(b);
    var prior, calls := Trap(call), Trap(call) + [call];
    assert calls[..|calls| - 1] == prior;
    var edges, after := Run(prior), Run(calls);
    assert after == SetEdge(edges, call);
    TrapStore(call);
    UntrimmedIsIsolated(edges, call.to, call.from);
    assert Edge(a, b, call.relation) in after && Above(after, a, b);
    if a == b {
      var w := [a, b];
      forall i: nat ensures AboveAt(after, w, i) {}
    } else {
      assert Edge(b, a, call.relation) in after && Above(after, b, a);
      var w := [a, b, a];
      forall i: nat ensures AboveAt(after, w, i) {}
    }
  }

  lemma TrapStore(call: EdgeCall)
    requires call.relation in HIERARCHY && Trim(call.from) != "" && Trim(call.to) != ""
    ensures Stored(Run(Trap(call)))
    ensures Trim(call.from) != Trim(call.to) ==>
              Edge(Trim(call.to), Trim(call.from), call.relation) in Run(Trap(call))
  {
    var a, b := Trim(call.from), Trim(call.to);
    TrimIsTrimmed(call.from);
    TrimIsTrimmed(call.to);
    TrimIsTrimmed(a);
    TrimIsTrimmed(b);
    if a != b {
      var first := EdgeCall(b, a, call.relation);
      assert Trap(call) == [first] && [first][..0] == [];
      assert Run([]) == [];
      assert Run(Trap(call)) == SetEdge([], first);
      forall w | |w| > 1
        ensures !IsWalk([], HIERARCHY, w)
      {
        assert !StepAt([], HIERARCHY, w, 0);
      }
    }
  }

  // Exactly the calls with trimmed identifiers keep the hierarchy sound after every clean history.
  lemma TrimmingIsExact(call: EdgeCall)
    requires call.relation in HIERARCHY && call.from != call.to
    requires Trim(call.from) != "" && Trim(call.to) != ""
    ensures (forall prior: seq<EdgeCall> | (forall c :: c in prior ==> Clean(c)) :: Sound(Run(prior + [call])))
            <==> Trimmed(call.from) && Trimmed(call.to)
  {
    if Trimmed(call.from) && Trimmed(call.to) {
      forall prior: seq<EdgeCall> | forall c :: c in prior ==> Clean(c)
        ensures Sound(Run(prior + [call]))
      {
        EveryRunIsSound(prior + [call]);
      }
    } else {
      TrapSprings(call);
    }
  }

  lemma SpaceIsTrimmed(a: string)
    requires Trimmed(a) && a != ""
    ensures Trim(a + " ") == a && !Trimmed(a + " ")
  {
    var s := a + " ";
    assert TrimStart(s) == s;
    assert s[..|s| - 1] == a;
    TrimIsTrimmed(a);
  }

  // Any agent can be made its own superior by a trailing space.
  lemma SpaceReports(a: string)
    requires Trimmed(a) && a != ""
    ensures var calls := [EdgeCall(a, a + " ", ReportsTo)];
            Run(calls) == [Edge(a, a, ReportsTo)] && !Sound(Run(calls))
  {
    var call := EdgeCall(a, a + " ", ReportsTo);
    SpaceIsTrimmed(a);
    TrimIsTrimmed(a);
    assert Trap(call) == [] && Trap(call) + [call] == [call];
    TrapSprings(call);
    assert [call][..0] == [] && Run([]) == [];
    UntrimmedIsIsolated([], call.to, call.from);
  }

  lemma SelfReportBySpace()
    ensures var calls := [EdgeCall("agent/a", "agent/a ", ReportsTo)];
            Run(calls) == [Edge("agent/a", "agent/a", ReportsTo)] && !Sound(Run(calls))
  {
    assert "agent/a" + " " == "agent/a ";
    SpaceReports("agent/a");
  }

  // ----- the table ----------------------------------------------------------

  // The authority edges of one organization.
  class EdgeTable {
    var edges: seq<Edge>

    constructor ()
      ensures edges == Run([])
    {
      edges := [];
    }

    method HasPath(from: string, to: string, relations: seq<Relation>) returns (found: bool)
      ensures found <==> from != "" && to != "" && Reachable(edges, relations, to, from)
    {
      var path := FindPath(edges, to, from, relations);
      found := path.Some?;
    }

    method SetAuthorityEdge(call: EdgeCall) returns (r: Result<Edge, EdgeError>)
      modifies this
      ensures r == Answer(old(edges), call)
      ensures edges == SetEdge(old(edges), call)
    {
      if call.from == call.to {
        return Failure(SelfEdge);
      }
      if call.relation in HIERARCHY {
        var cycle := HasPath(call.from, call.to, HIERARCHY);
        if cycle {
          return Failure(Cycle);
        }
      }
      var edge := StoredEdge(call);
      if edge.from == "" || edge.to == "" {
        return Failure(InvalidId);
      }
      if edge !in edges {
        edges := edges + [edge];
      }
      return Success(edge);
    }
  }
}
