// Freezing parsed configuration (packages/config/src/config.ts, deepFreezeConfig).
module ConfigFreeze {
  import opened Wrappers
  import opened ObjectGraph

  const DEFAULT_MAX_OBJECTS: nat := 1000

  datatype Slot = Data(target: Option<Node>) | Accessor

  // A JavaScript object: `plain` for arrays and objects without a prototype of their own.
  class Node {
    var plain: bool
    var symbols: nat
    var slots: seq<Slot>
    var frozen: bool

    constructor (plain: bool, symbols: nat, slots: seq<Slot>)
      ensures this.plain == plain && this.symbols == symbols && this.slots == slots && !frozen
    {
      this.plain, this.symbols, this.slots, frozen := plain, symbols, slots, false;
    }
  }

  datatype ConfigError = LimitInvalid | Cycle | ObjectUnsupported | TooComplex

  function Targets(slots: seq<Slot>): (r: seq<Option<Node>>)
    ensures |r| == |slots|
    ensures forall i :: 0 <= i < |slots| ==> r[i] == if slots[i].Data? then slots[i].target else None
  {
    seq(|slots|, i requires 0 <= i < |slots| => if slots[i].Data? then slots[i].target else None)
  }

  ghost function LinksOf(graph: set<Node>): Links<Node>
    reads graph`slots
  {
    map o | o in graph :: Targets(o.slots)
  }

  ghost predicate Supported(o: Node)
    reads o`plain, o`symbols, o`slots
  {
    o.plain && o.symbols == 0 && Accessor !in o.slots
  }

  ghost function SupportedIn(graph: set<Node>): set<Node>
    reads graph`plain, graph`symbols, graph`slots
  {
    set o | o in graph && Supported(o)
  }

  // What a configuration must be: a tree of supported objects, no more of them than the limit.
  ghost predicate Acceptable(links: Links<Node>, supported: set<Node>, root: Node, limit: nat)
    requires Closed(links) && root in links
  {
    Tree(links, root) && Reached(links, root) <= supported && |Reached(links, root)| <= limit
  }

  // Each refusal is true of the object graph.
  ghost predicate Explains(links: Links<Node>, supported: set<Node>, root: Node, limit: nat, error: ConfigError)
    requires Closed(links) && root in links
  {
    match error
    case LimitInvalid => false
    case Cycle => !Tree(links, root)
    case ObjectUnsupported => !(Reached(links, root) <= supported)
    case TooComplex => |Reached(links, root)| > limit
  }

  // What acceptance and each refusal say of the objects themselves.
  lemma WhatIsAccepted(graph: set<Node>, root: Node, limit: nat)
    requires Closed(LinksOf(graph)) && root in graph
    ensures Acceptable(LinksOf(graph), SupportedIn(graph), root, limit) <==>
      && Tree(LinksOf(graph), root) && |Reached(LinksOf(graph), root)| <= limit
      && forall o :: o in Reached(LinksOf(graph), root) ==> o.plain && o.symbols == 0 && forall slot :: slot in o.slots ==> slot.Data?
    ensures Explains(LinksOf(graph), SupportedIn(graph), root, limit, Cycle) ==> !Tree(LinksOf(graph), root)
    ensures Explains(LinksOf(graph), SupportedIn(graph), root, limit, TooComplex) ==> |Reached(LinksOf(graph), root)| > limit
    ensures Explains(LinksOf(graph), SupportedIn(graph), root, limit, ObjectUnsupported) ==>
      exists o :: o in Reached(LinksOf(graph), root) && (!o.plain || o.symbols > 0 || Accessor in o.slots)
    ensures !Explains(LinksOf(graph), SupportedIn(graph), root, limit, LimitInvalid)
  {
    var reached := Reached(LinksOf(graph), root);
    forall o | o in reached ensures o in SupportedIn(graph) <==> o.plain && o.symbols == 0 && forall slot :: slot in o.slots ==> slot.Data? {
    }
  }

  // ----- the stack and the paths behind it ----------------------------------

  function Kids<N>(targets: seq<Option<N>>): seq<N> {
    if targets == [] then []
    else
      var last := targets[|targets| - 1];
      Kids(targets[..|targets| - 1]) + if last.Some? then [last.value] else []
  }

  ghost function KidPaths<N>(p: Path, targets: seq<Option<N>>): (r: seq<Path>)
    ensures |r| == |Kids(targets)|
  {
    if targets == [] then []
    else
      var n := |targets| - 1;
      KidPaths(p, targets[..n]) + if targets[n].Some? then [p + [n]] else []
  }

  ghost predicate IsKidPath<N>(p: Path, targets: seq<Option<N>>, q: Path, kid: N) {
    |q| == |p| + 1 && q[|p|] < |targets| && q == p + [q[|p|]] && targets[q[|p|]] == Some(kid)
  }

  lemma {:induction false} KidPathsLead<N>(p: Path, targets: seq<Option<N>>)
    ensures forall k :: 0 <= k < |KidPaths(p, targets)| ==> IsKidPath(p, targets, KidPaths(p, targets)[k], Kids(targets)[k])
  {
    if targets == [] {
    } else {
      var n := |targets| - 1;
      var kids, rest := KidPaths(p, targets), KidPaths(p, targets[..n]);
      KidPathsLead(p, targets[..n]);
      forall k | 0 <= k < |kids| ensures IsKidPath(p, targets, kids[k], Kids(targets)[k]) {
        if k < |rest| {
          assert IsKidPath(p, targets[..n], rest[k], Kids(targets[..n])[k]);
        }
      }
    }
  }

  lemma {:induction false} KidPathsDiffer<N>(p: Path, targets: seq<Option<N>>, j: nat, k: nat)
    requires j < k < |KidPaths(p, targets)|
    ensures KidPaths(p, targets)[j] != KidPaths(p, targets)[k]
  {
    var n := |targets| - 1;
    var rest := KidPaths(p, targets[..n]);
    KidPathsLead(p, targets[..n]);
    assert IsKidPath(p, targets[..n], rest[j], Kids(targets[..n])[j]);
    if k < |rest| {
      KidPathsDiffer(p, targets[..n], j, k);
    } else {
      assert rest[j][|p|] < n;
    }
  }

  lemma {:induction false} KidPathOf<N>(p: Path, targets: seq<Option<N>>, i: nat) returns (k: nat)
    requires i < |targets| && targets[i].Some?
    ensures k < |KidPaths(p, targets)| && KidPaths(p, targets)[k] == p + [i]
    decreases |targets|
  {
    var n := |targets| - 1;
    if i == n {
      k := |KidPaths(p, targets)| - 1;
    } else {
      k := KidPathOf(p, targets[..n], i);
    }
  }

  // The paths on the stack lead to its objects.
  ghost predicate Leads<N>(links: Links<N>, root: N, stack: seq<N>, paths: seq<Path>)
    requires Closed(links) && root in links
  {
    |paths| == |stack| && forall i :: 0 <= i < |paths| ==> At(links, root, paths[i]) == Some(stack[i])
  }

  // The finished paths lead to the visited objects, one to each.
  ghost predicate Visits<N>(links: Links<N>, root: N, done: set<Path>, visited: set<N>)
    requires Closed(links) && root in links
  {
    && (forall q :: q in done ==> At(links, root, q).Some? && At(links, root, q).value in visited)
    && (forall n :: n in visited ==> exists q :: q in done && At(links, root, q) == Some(n))
    && (forall p, q :: p in done && q in done && Meet(links, root, p, q) ==> p == q)
  }

  ghost predicate Antichain(paths: seq<Path>) {
    forall i, j :: 0 <= i < |paths| && 0 <= j < |paths| && i != j ==> !(paths[i] <= paths[j])
  }

  // No path on the stack is the start of a finished one.
  ghost predicate Ahead(paths: seq<Path>, done: set<Path>) {
    forall i, q :: 0 <= i < |paths| && q in done ==> !(paths[i] <= q)
  }

  // Every way down from the root is finished or goes on from a path on the stack.
  ghost predicate Covers<N>(links: Links<N>, root: N, paths: seq<Path>, done: set<Path>)
    requires Closed(links) && root in links
  {
    forall q: Path :: At(links, root, q).Some? ==> q in done || Pending(paths, q)
  }

  ghost predicate Pending(paths: seq<Path>, q: Path) {
    exists i :: 0 <= i < |paths| && paths[i] <= q
  }

  ghost predicate Frontier<N>(links: Links<N>, root: N, stack: seq<N>, visited: set<N>, paths: seq<Path>, done: set<Path>)
    requires Closed(links) && root in links
  {
    && Leads(links, root, stack, paths)
    && Visits(links, root, done, visited)
    && Antichain(paths)
    && Ahead(paths, done)
    && Covers(links, root, paths, done)
  }

  lemma Begun<N>(links: Links<N>, root: N) returns (paths: seq<Path>, done: set<Path>)
    requires Closed(links) && root in links
    ensures Frontier(links, root, [root], {}, paths, done)
  {
    paths, done := [[]], {};
    forall q: Path | At(links, root, q).Some? ensures Pending(paths, q) {
      assert paths[0] <= q;
    }
  }

  lemma AllReached<N>(links: Links<N>, root: N, done: set<Path>, visited: set<N>)
    requires Closed(links) && root in links && Visits(links, root, done, visited)
    ensures visited <= Reached(links, root)
  {}

  // ----- visiting the object on top of the stack ----------------------------

  lemma Apart(a: Path, p: Path, i: nat)
    requires !(a <= p)
    ensures p + [i] <= a ==> p <= a
    ensures a <= p + [i] ==> p <= a
  {
    assert p + [i] <= a ==> a[..|p| + 1][..|p|] == a[..|p|] && (p + [i])[..|p|] == p;
    assert |a| <= |p| ==> (p + [i])[..|a|] == p[..|a|];
    assert |a| > |p| && a <= p + [i] ==> a == p + [i] && a[..|p|] == p;
  }

  lemma KidLeads<N>(links: Links<N>, root: N, p: Path, n: N, i: nat)
    requires Closed(links) && root in links && At(links, root, p) == Some(n)
    requires i < |KidPaths(p, links[n])|
    ensures At(links, root, KidPaths(p, links[n])[i]) == Some(Kids(links[n])[i])
  {
    var q := KidPaths(p, links[n])[i];
    KidPathsLead(p, links[n]);
    assert IsKidPath(p, links[n], q, Kids(links[n])[i]);
    assert q[..|q| - 1] == p;
  }

  lemma KidsLead<N>(links: Links<N>, root: N, stack: seq<N>, paths: seq<Path>, p: Path, n: N)
    requires Closed(links) && root in links && At(links, root, p) == Some(n)
    requires Leads(links, root, stack, paths)
    ensures Leads(links, root, stack + Kids(links[n]), paths + KidPaths(p, links[n]))
  {
    var kids, kidPaths := Kids(links[n]), KidPaths(p, links[n]);
    forall i | 0 <= i < |kidPaths| ensures At(links, root, kidPaths[i]) == Some(kids[i]) {
      KidLeads(links, root, p, n, i);
    }
    LeadsJoin(links, root, stack, paths, kids, kidPaths);
  }

  lemma LeadsJoin<N>(links: Links<N>, root: N, stack: seq<N>, paths: seq<Path>, kids: seq<N>, kidPaths: seq<Path>)
    requires Closed(links) && root in links
    requires Leads(links, root, stack, paths) && Leads(links, root, kids, kidPaths)
    ensures Leads(links, root, stack + kids, paths + kidPaths)
  {}

  lemma KidsApart<N>(all: seq<Path>, targets: seq<Option<N>>)
    requires all != [] && Antichain(all)
    ensures Antichain(all[..|all| - 1] + KidPaths(all[|all| - 1], targets))
  {
    var m := |all| - 1;
    var p, kids := all[m], KidPaths(all[m], targets);
    KidPathsLead(p, targets);
    forall k | 0 <= k < |kids| ensures |kids[k]| == |p| + 1 && kids[k] == p + [kids[k][|p|]] {
      assert IsKidPath(p, targets, kids[k], Kids(targets)[k]);
    }
    forall x, k | 0 <= x < m && 0 <= k < |kids| ensures !(all[x] <= kids[k]) && !(kids[k] <= all[x]) {
      Apart(all[x], p, kids[k][|p|]);
    }
    forall j, k | 0 <= j < |kids| && 0 <= k < |kids| && j != k ensures !(kids[j] <= kids[k]) {
      KidPathsDiffer(p, targets, if j < k then j else k, if j < k then k else j);
    }
  }

  lemma KidsAhead<N>(all: seq<Path>, targets: seq<Option<N>>, done: set<Path>)
    requires all != [] && Antichain(all) && Ahead(all, done)
    ensures Ahead(all[..|all| - 1] + KidPaths(all[|all| - 1], targets), done + {all[|all| - 1]})
  {
    var m := |all| - 1;
    var p, kids := all[m], KidPaths(all[m], targets);
    KidPathsLead(p, targets);
    forall k, q | 0 <= k < |kids| && q in done + {p} ensures !(kids[k] <= q) {
      assert IsKidPath(p, targets, kids[k], Kids(targets)[k]);
      if q != p {
        KidBeyond(p, kids[k][|p|], q);
      }
    }
  }

  lemma KidBeyond(p: Path, i: nat, q: Path)
    requires !(p <= q)
    ensures !(p + [i] <= q)
  {
    assert (p + [i])[..|p|] == p;
    assert |p| < |q| ==> q[..|p| + 1][..|p|] == q[..|p|];
  }

  // A longer way down leaves the object at p through a slot that holds an object.
  lemma NextSlot<N>(links: Links<N>, root: N, p: Path, n: N, q: Path)
    requires Closed(links) && root in links && At(links, root, p) == Some(n)
    requires At(links, root, q).Some? && p <= q && p != q
    ensures p + [q[|p|]] <= q && q[|p|] < |links[n]| && links[n][q[|p|]].Some?
  {
    PrefixLeadsSomewhere(links, root, q, |p| + 1);
    assert q[..|p| + 1] == p + [q[|p|]] && q[..|p| + 1][..|p|] == p;
  }

  lemma KidPending<N>(others: seq<Path>, p: Path, targets: seq<Option<N>>, slot: nat, q: Path)
    requires slot < |targets| && targets[slot].Some? && p + [slot] <= q
    ensures Pending(others + KidPaths(p, targets), q)
  {
    var kids := KidPaths(p, targets);
    var j := KidPathOf(p, targets, slot);
    assert (others + kids)[|others| + j] <= q;
  }

  lemma KidsCover<N>(links: Links<N>, root: N, all: seq<Path>, n: N, q: Path)
    requires Closed(links) && root in links && all != [] && At(links, root, all[|all| - 1]) == Some(n)
    requires At(links, root, q).Some? && Pending(all, q) && q != all[|all| - 1]
    ensures Pending(all[..|all| - 1] + KidPaths(all[|all| - 1], links[n]), q)
  {
    var m := |all| - 1;
    var i :| 0 <= i < |all| && all[i] <= q;
    if i < m {
      assert (all[..m] + KidPaths(all[m], links[n]))[i] <= q;
    } else {
      NextSlot(links, root, all[m], n, q);
      KidPending(all[..m], all[m], links[n], q[|all[m]|], q);
    }
  }

  lemma AllCovered<N>(links: Links<N>, root: N, all: seq<Path>, n: N, done: set<Path>)
    requires Closed(links) && root in links && all != [] && At(links, root, all[|all| - 1]) == Some(n)
    requires Covers(links, root, all, done)
    ensures Covers(links, root, all[..|all| - 1] + KidPaths(all[|all| - 1], links[n]), done + {all[|all| - 1]})
  {
    forall q: Path | At(links, root, q).Some? && q !in done && q != all[|all| - 1]
      ensures Pending(all[..|all| - 1] + KidPaths(all[|all| - 1], links[n]), q)
    {
      KidsCover(links, root, all, n, q);
    }
  }

  lemma OneMore<N>(links: Links<N>, root: N, done: set<Path>, visited: set<N>, p: Path, n: N)
    requires Closed(links) && root in links && At(links, root, p) == Some(n)
    requires Visits(links, root, done, visited) && n !in visited
    ensures Visits(links, root, done + {p}, visited + {n})
  {
    forall m | m in visited + {n} ensures exists q :: q in done + {p} && At(links, root, q) == Some(m) {
      assert p in done + {p};
      if m != n {
        var q :| q in done && At(links, root, q) == Some(m);
        assert q in done + {p};
      }
    }
    forall q | q in done ensures !Meet(links, root, p, q) && !Meet(links, root, q, p) {
      assert At(links, root, q) != Some(n);
    }
  }

  lemma MetTwice<N>(links: Links<N>, root: N, done: set<Path>, visited: set<N>, p: Path, n: N)
    requires Closed(links) && root in links && At(links, root, p) == Some(n)
    requires Visits(links, root, done, visited) && n in visited && p !in done
    ensures !Tree(links, root)
  {
    var q :| q in done && At(links, root, q) == Some(n);
    assert Meet(links, root, p, q);
  }

  lemma GoesOn<N>(links: Links<N>, root: N, stack: seq<N>, visited: set<N>, all: seq<Path>, done: set<Path>)
    requires Closed(links) && root in links && stack != [] && stack[|stack| - 1] !in visited
    requires Frontier(links, root, stack, visited, all, done)
    ensures stack[|stack| - 1] in links
    ensures Frontier(links, root, stack[..|stack| - 1] + Kids(links[stack[|stack| - 1]]), visited + {stack[|stack| - 1]},
                     all[..|all| - 1] + KidPaths(all[|all| - 1], links[stack[|stack| - 1]]), done + {all[|all| - 1]})
  {
    var m := |stack| - 1;
    assert At(links, root, all[m]) == Some(stack[m]);
    KidsLead(links, root, stack[..m], all[..m], all[m], stack[m]);
    KidsApart(all, links[stack[m]]);
    KidsAhead(all, links[stack[m]], done);
    AllCovered(links, root, all, stack[m], done);
    OneMore(links, root, done, visited, all[m], stack[m]);
  }

  // ----- the walk the loop makes --------------------------------------------

  datatype Walk<N> = Walk(stack: seq<N>, visited: set<N>)

  ghost function WalkOf<N>(links: Links<N>, root: N, k: nat): (w: Walk<N>)
    ensures |w.visited| <= k
  {
    if k == 0 then Walk([root], {})
    else
      var w := WalkOf(links, root, k - 1);
      if w.stack == [] || w.stack[|w.stack| - 1] !in links then w
      else
        var n := w.stack[|w.stack| - 1];
        Walk(w.stack[..|w.stack| - 1] + Kids(links[n]), w.visited + {n})
  }

  lemma WalkStep<N>(links: Links<N>, root: N, k: nat)
    requires k > 0 && |WalkOf(links, root, k).visited| == k
    ensures var w := WalkOf(links, root, k - 1);
            var m := |w.stack| - 1;
            && |w.visited| == k - 1 && w.stack != [] && w.stack[m] in links && w.stack[m] !in w.visited
            && WalkOf(links, root, k) == Walk(w.stack[..m] + Kids(links[w.stack[m]]), w.visited + {w.stack[m]})
  {}

  lemma {:induction false} WalkHasFrontier<N>(links: Links<N>, root: N, k: nat, w: Walk<N>)
    returns (paths: seq<Path>, done: set<Path>)
    requires Closed(links) && root in links && w == WalkOf(links, root, k) && |w.visited| == k
    ensures Frontier(links, root, w.stack, w.visited, paths, done)
    decreases k
  {
    if k == 0 {
      paths, done := Begun(links, root);
    } else {
      WalkStep(links, root, k);
      var last := WalkOf(links, root, k - 1);
      var all, before := WalkHasFrontier(links, root, k - 1, last);
      paths, done := TopVisited(links, root, last, all, before, w);
    }
  }

  lemma TopVisited<N>(links: Links<N>, root: N, w: Walk<N>, all: seq<Path>, before: set<Path>, next: Walk<N>)
    returns (paths: seq<Path>, done: set<Path>)
    requires Closed(links) && root in links && w.stack != [] && w.stack[|w.stack| - 1] in links
    requires w.stack[|w.stack| - 1] !in w.visited
    requires next == Walk(w.stack[..|w.stack| - 1] + Kids(links[w.stack[|w.stack| - 1]]), w.visited + {w.stack[|w.stack| - 1]})
    requires Frontier(links, root, w.stack, w.visited, all, before)
    ensures Frontier(links, root, next.stack, next.visited, paths, done)
  {
    GoesOn(links, root, w.stack, w.visited, all, before);
    var m := |w.stack| - 1;
    paths, done := all[..m] + KidPaths(all[m], links[w.stack[m]]), before + {all[m]};
  }

  lemma WalkMeets<N>(links: Links<N>, root: N, k: nat)
    requires Closed(links) && root in links && |WalkOf(links, root, k).visited| == k
    requires WalkOf(links, root, k).stack != []
    ensures var w := WalkOf(links, root, k);
            var n := w.stack[|w.stack| - 1];
            && n in Reached(links, root) && w.visited <= Reached(links, root)
            && (n in w.visited ==> !Tree(links, root))
  {
    var w := WalkOf(links, root, k);
    var all, done := WalkHasFrontier(links, root, k, w);
    var m := |w.stack| - 1;
    assert At(links, root, all[m]) == Some(w.stack[m]);
    AllReached(links, root, done, w.visited);
    if w.stack[m] in w.visited {
      assert all[m] !in done;
      MetTwice(links, root, done, w.visited, all[m], w.stack[m]);
    }
  }

  lemma WalkEnds<N>(links: Links<N>, root: N, k: nat)
    requires Closed(links) && root in links && |WalkOf(links, root, k).visited| == k
    requires WalkOf(links, root, k).stack == []
    ensures Tree(links, root) && Reached(links, root) == WalkOf(links, root, k).visited
  {
    var visited := WalkOf(links, root, k).visited;
    var paths, done := WalkHasFrontier(links, root, k, WalkOf(links, root, k));
    forall q: Path | At(links, root, q).Some? ensures q in done {
      assert !Pending(paths, q);
    }
    AllReached(links, root, done, visited);
  }

  lemma {:induction false} WalkStaysInside<N>(links: Links<N>, root: N, k: nat)
    requires Closed(links) && root in links
    ensures forall n :: n in WalkOf(links, root, k).stack ==> n in links
  {
    if k == 0 {
    } else {
      var stack := WalkOf(links, root, k - 1).stack;
      WalkStaysInside(links, root, k - 1);
      if stack != [] {
        var top := stack[|stack| - 1];
        assert top in stack;
        KidsInside(links, links[top]);
      }
    }
  }

  lemma {:induction false} KidsInside<N>(links: Links<N>, targets: seq<Option<N>>)
    requires forall i :: 0 <= i < |targets| && targets[i].Some? ==> targets[i].value in links
    ensures forall n :: n in Kids(targets) ==> n in links
  {
    if targets == [] {
    } else {
      KidsInside(links, targets[..|targets| - 1]);
    }
  }

  // ----- the operation ------------------------------------------------------

  function Limit(maxObjects: Option<real>): (r: Option<nat>)
    ensures maxObjects.None? ==> r == Some(1000)
    ensures maxObjects.Some? ==>
      forall n: nat :: r == Some(n) <==> 1 <= n <= 1000 && n as real == maxObjects.value
  {
    match maxObjects
    case None => Some(DEFAULT_MAX_OBJECTS)
    case Some(x) =>
      if x.Floor as real != x || x < 1.0 || x > DEFAULT_MAX_OBJECTS as real then None else Some(x.Floor)
  }

  method PushChildren(slots: seq<Slot>, stack: seq<Node>) returns (r: Option<seq<Node>>)
    ensures r == if Accessor in slots then None else Some(stack + Kids(Targets(slots)))
  {
    var pushed := stack;
    for i := 0 to |slots|
      invariant pushed == stack + Kids(Targets(slots)[..i])
      invariant Accessor !in slots[..i]
    {
      if slots[i].Accessor? {
        return None;
      }
      assert Targets(slots)[..i + 1][..i] == Targets(slots)[..i];
      if slots[i].target.Some? {
        pushed := pushed + [slots[i].target.value];
      }
    }
    assert Targets(slots)[..|slots|] == Targets(slots) && slots[..|slots|] == slots;
    return Some(pushed);
  }

  // Where the walk ended and why: nothing left, or something wrong with the next object.
  ghost predicate Ended(links: Links<Node>, supported: set<Node>, root: Node, k: nat, limit: nat, error: Option<ConfigError>)
  {
    var w := WalkOf(links, root, k);
    && |w.visited| == k <= limit && w.visited <= supported
    && (error.None? <==> w.stack == [])
    && (error.Some? ==> Wrong(w.stack[|w.stack| - 1], w.visited, supported, limit, error.value))
  }

  ghost predicate Wrong(n: Node, visited: set<Node>, supported: set<Node>, limit: nat, error: ConfigError) {
    match error
    case LimitInvalid => false
    case Cycle => n in visited
    case ObjectUnsupported => n !in supported
    case TooComplex => n !in visited && |visited| + 1 > limit
  }

  lemma Judged(links: Links<Node>, supported: set<Node>, root: Node, k: nat, limit: nat, error: Option<ConfigError>)
    requires Closed(links) && root in links && Ended(links, supported, root, k, limit, error)
    ensures error.None? ==> Acceptable(links, supported, root, limit)
    ensures error.Some? ==> Explains(links, supported, root, limit, error.value)
    ensures var done := WalkOf(links, root, k).visited;
            done <= Reached(links, root) && (error.None? ==> done == Reached(links, root))
  {
    if error.None? {
      WalkEnds(links, root, k);
    } else {
      var w := WalkOf(links, root, k);
      WalkMeets(links, root, k);
      if error.value.TooComplex? {
        SubsetSize(w.visited + {w.stack[|w.stack| - 1]}, Reached(links, root));
      }
    }
  }

  // One round: the checks on the object taken from the stack, then its children are pushed.
  method Inspect(current: Node, visited: set<Node>, count: nat, maximum: nat, stack: seq<Node>, ghost supported: set<Node>)
    returns (r: Result<seq<Node>, ConfigError>)
    requires current in supported <==> Supported(current)
    requires count == |visited|
    ensures r.Success? <==> current !in visited && current in supported && count + 1 <= maximum
    ensures r.Success? ==> r.value == stack + Kids(Targets(current.slots))
    ensures r.Failure? ==> Wrong(current, visited, supported, maximum, r.error)
  {
    if current in visited {
      return Failure(Cycle);
    }
    if !current.plain || current.symbols > 0 {
      return Failure(ObjectUnsupported);
    }
    if count + 1 > maximum {
      return Failure(TooComplex);
    }
    var pushed := PushChildren(current.slots, stack);
    return if pushed.None? then Failure(ObjectUnsupported) else Success(pushed.value);
  }

  // The loop of the operation. Every round finishes one more object or ends the call.
  method Freeze(root: Node, maximum: nat,
                ghost graph: set<Node>, ghost links: Links<Node>, ghost supported: set<Node>)
    returns (error: Option<ConfigError>, ghost k: nat)
    requires links.Keys == graph && Closed(links) && root in graph
    requires forall o :: o in graph ==> links[o] == Targets(o.slots) && (o in supported <==> Supported(o))
    modifies graph`frozen
    ensures Ended(links, supported, root, k, maximum, error)
    ensures forall o {:trigger o.frozen} :: o in graph ==>
      o.frozen == (old(o.frozen) || o in WalkOf(links, root, k).visited)
  {
    var visited: set<Node> := {};
    var stack := [root];
    var count := 0;
    while stack != []
      invariant WalkOf(links, root, count) == Walk(stack, visited)
      invariant visited <= supported && count == |visited| <= maximum
      invariant forall o {:trigger o.frozen} :: o in graph ==> o.frozen == (old(o.frozen) || o in visited)
      decreases maximum + 1 - count
    {
      var current := stack[|stack| - 1];
      WalkStaysInside(links, root, count);
      var round := Inspect(current, visited, count, maximum, stack[..|stack| - 1], supported);
      if round.Failure? {
        return Some(round.error), count;
      }
      visited, count, stack := visited + {current}, count + 1, round.value;
      current.frozen := true;
    }
    return None, count;
  }

  // The contents of no object change: only the `frozen` flags are in the frame.
  method DeepFreezeConfig(value: Option<Node>, maxObjects: Option<real>, ghost graph: set<Node>)
    returns (r: Result<Option<Node>, ConfigError>, ghost steps: nat)
    requires Closed(LinksOf(graph)) && (value.Some? ==> value.value in graph)
    modifies graph`frozen
    ensures r.Success? ==> r.value == value
    ensures Limit(maxObjects).None? ==> r == Failure(LimitInvalid)
    ensures Limit(maxObjects).Some? ==>
      && steps <= Limit(maxObjects).value + 1
      && (value.None? ==> r.Success?)
      && (value.Some? ==>
            var links, supported, limit := LinksOf(graph), SupportedIn(graph), Limit(maxObjects).value;
            && (r.Success? <==> Acceptable(links, supported, value.value, limit))
            && (r.Failure? ==> Explains(links, supported, value.value, limit, r.error)))
    ensures forall o :: o in graph && old(o.frozen) ==> o.frozen
    ensures forall o :: o in graph && o.frozen && !old(o.frozen) ==>
      value.Some? && o in Reached(LinksOf(graph), value.value)
    ensures r.Success? && value.Some? ==> forall o :: o in Reached(LinksOf(graph), value.value) ==> o.frozen
  {
    var limit := Limit(maxObjects);
    if limit.None? {
      return Failure(LimitInvalid), 0;
    }
    if value.None? {
      return Success(value), 0;
    }
    var error;
    ghost var k;
    error, k := Freeze(value.value, limit.value, graph, LinksOf(graph), SupportedIn(graph));
    steps := if error.None? then k else k + 1;
    Judged(LinksOf(graph), SupportedIn(graph), value.value, k, limit.value, error);
    r := if error.Some? then Failure(error.value) else Success(value);
  }
}
