// Freezing a resolved agent profile (packages/contracts/src/profile.ts,
// freezeResolvedAgentProfile): a depth-first search over a graph that may be cyclic or shared.
module ProfileFreeze {
  import opened Wrappers
  import opened ObjectGraph

  // `values` lists what the object's own properties hold; None is anything but an object.
  class ProfileObject {
    var values: seq<Option<ProfileObject>>
    var frozen: bool
    ghost var freezes: nat // how often the object has been frozen

    constructor (values: seq<Option<ProfileObject>>)
      ensures this.values == values && !frozen && freezes == 0
    {
      this.values, frozen, freezes := values, false, 0;
    }
  }

  ghost function LinksOf(graph: set<ProfileObject>): Links<ProfileObject>
    reads graph`values
  {
    map o | o in graph :: o.values
  }

  lemma FinishedJoin(links: Links<ProfileObject>, a: set<ProfileObject>, b: set<ProfileObject>, before: set<ProfileObject>, seen: set<ProfileObject>)
    requires Finished(links, a, before) && Finished(links, b, seen) && before <= seen
    ensures Finished(links, a + b, seen)
  {}

  ghost predicate SeenUpTo(values: seq<Option<ProfileObject>>, i: nat, seen: set<ProfileObject>) {
    i <= |values| && forall j :: 0 <= j < i && values[j].Some? ==> values[j].value in seen
  }

  lemma OneMoreSeen(values: seq<Option<ProfileObject>>, i: nat, before: set<ProfileObject>, seen: set<ProfileObject>)
    requires SeenUpTo(values, i, before) && i < |values| && before <= seen
    requires values[i].Some? ==> values[i].value in seen
    ensures SeenUpTo(values, i + 1, seen)
  {}

  lemma FinishedOne(links: Links<ProfileObject>, n: ProfileObject, seen: set<ProfileObject>)
    requires n in links && SeenUpTo(links[n], |links[n]|, seen)
    ensures Finished(links, {n}, seen)
  {}

  // What happened to an object: frozen once, or left as it was.
  twostate predicate Touched(o: ProfileObject, once: bool)
    reads o
  {
    && o.frozen == (old(o.frozen) || once)
    && o.freezes == old(o.freezes) + if once then 1 else 0
  }

  // The inner function: `seen` is handed on instead of shared; `done` are the objects this call
  // froze. `graph` may be any set of objects that holds their values too.
  method Visit(value: Option<ProfileObject>, seen: set<ProfileObject>, ghost graph: set<ProfileObject>, ghost links: Links<ProfileObject>)
    returns (now: set<ProfileObject>, ghost done: set<ProfileObject>)
    requires seen <= graph <= links.Keys && Finished(links, graph, graph)
    requires forall o :: o in graph ==> links[o] == o.values
    requires value.Some? ==> value.value in graph
    modifies graph`frozen, graph`freezes
    ensures now == seen + done && done !! seen && done <= graph && (value.Some? ==> value.value in now)
    ensures Finished(links, done, now)
    ensures forall o :: o in graph ==> Touched(o, o in done)
    decreases graph - seen
  {
    now, done := seen, {};
    if value.None? || value.value in seen {
      return;
    }
    var current := value.value;
    now := now + {current};
    for i := 0 to |current.values|
      invariant now == seen + {current} + done && done !! seen + {current} && done <= graph
      invariant SeenUpTo(links[current], i, now)
      invariant Finished(links, done, now)
      invariant forall o :: o in graph ==> Touched(o, o in done)
    {
      ghost var before, more := now, done;
      now, more := Visit(current.values[i], now, graph, links);
      OneMoreSeen(links[current], i, before, now);
      FinishedJoin(links, done, more, before, now);
      done := done + more;
    }
    FinishedOne(links, current, now);
    FinishedJoin(links, done, {current}, now, now);
    current.frozen := true;
    current.freezes := current.freezes + 1;
    done := done + {current};
  }

  // Terminates on every finite graph, freezes each reachable object once and no other, and
  // leaves every value in place: only the `frozen` flags are in the frame.
  method FreezeResolvedAgentProfile(profile: ProfileObject, ghost graph: set<ProfileObject>) returns (r: ProfileObject)
    requires Closed(LinksOf(graph)) && profile in graph
    modifies graph`frozen, graph`freezes
    ensures r == profile
    ensures forall o :: o in graph ==> Touched(o, o in Reached(LinksOf(graph), profile))
  {
    ghost var links := LinksOf(graph);
    ghost var reached := Reached(links, profile);
    ReachedIsLeast(links, profile, reached);
    var seen;
    ghost var done;
    seen, done := Visit(Some(profile), {}, reached, links);
    assert seen == done;
    ReachedIsLeast(links, profile, seen);
    return profile;
  }
}
