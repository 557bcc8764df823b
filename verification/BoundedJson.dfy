// Bounded JSON values (packages/contracts/src/primitives.ts, isBoundedJsonValue). Objects are
// known by identity, so a value may be cyclic or share parts; `shape` says what each one holds.
module BoundedJson {
  import opened Wrappers

  const MAX_JSON_DEPTH: nat := 64
  const MAX_JSON_NODES: nat := 100000

  datatype Value<N> = Null | Text | Flag | Number(finite: bool) | NotJson | Reference(node: N)

  datatype Shape<N> = ArrayOf(elements: seq<Value<N>>) | PlainObject(values: seq<Value<N>>) | Exotic

  function Items<N>(shape: N -> Shape<N>, v: Value<N>): seq<Value<N>> {
    if !v.Reference? then []
    else
      match shape(v.node)
      case ArrayOf(elements) => elements
      case PlainObject(values) => values
      case Exotic => []
  }

  predicate NodeSafe<N>(shape: N -> Shape<N>, v: Value<N>) {
    match v
    case Number(finite) => finite
    case NotJson => false
    case Reference(n) => !shape(n).Exotic?
    case _ => true
  }

  // ----- the recursive meaning ----------------------------------------------

  predicate Safe<N>(shape: N -> Shape<N>, v: Value<N>, depth: nat)
    decreases MAX_JSON_DEPTH + 1 - depth
  {
    && depth <= MAX_JSON_DEPTH
    && NodeSafe(shape, v)
    && forall i :: 0 <= i < |Items(shape, v)| ==> Safe(shape, Items(shape, v)[i], depth + 1)
  }

  // Every occurrence counts, so a shared part counts each time it is met.
  function Nodes<N>(shape: N -> Shape<N>, v: Value<N>, depth: nat): (n: nat)
    ensures n >= 1
    decreases MAX_JSON_DEPTH + 1 - depth, 0
  {
    if depth > MAX_JSON_DEPTH then 1 else 1 + NodesOfAll(shape, Items(shape, v), depth + 1)
  }

  function NodesOfAll<N>(shape: N -> Shape<N>, items: seq<Value<N>>, depth: nat): nat
    decreases MAX_JSON_DEPTH + 1 - depth, 1 + |items|
  {
    if items == [] then 0
    else NodesOfAll(shape, items[..|items| - 1], depth) + Nodes(shape, items[|items| - 1], depth)
  }

  // ----- what it says of every way down -------------------------------------

  function Down<N>(shape: N -> Shape<N>, v: Value<N>, path: seq<nat>): Option<Value<N>>
    decreases |path|
  {
    if path == [] then Some(v)
    else if path[0] < |Items(shape, v)| then Down(shape, Items(shape, v)[path[0]], path[1..])
    else None
  }

  ghost predicate GoodWay<N>(shape: N -> Shape<N>, v: Value<N>, depth: nat, path: seq<nat>) {
    Down(shape, v, path).Some? ==> depth + |path| <= MAX_JSON_DEPTH && NodeSafe(shape, Down(shape, v, path).value)
  }

  lemma {:induction false} SafeWay<N>(shape: N -> Shape<N>, v: Value<N>, depth: nat, path: seq<nat>)
    requires Safe(shape, v, depth)
    ensures GoodWay(shape, v, depth, path)
    decreases |path|
  {
    if path != [] && path[0] < |Items(shape, v)| {
      SafeWay(shape, Items(shape, v)[path[0]], depth + 1, path[1..]);
    }
  }

  lemma {:induction false} UnsafeWay<N>(shape: N -> Shape<N>, v: Value<N>, depth: nat) returns (path: seq<nat>)
    requires !Safe(shape, v, depth)
    ensures !GoodWay(shape, v, depth, path)
    decreases MAX_JSON_DEPTH + 1 - depth
  {
    path := [];
    if depth <= MAX_JSON_DEPTH && NodeSafe(shape, v) {
      var i: nat :| i < |Items(shape, v)| && !Safe(shape, Items(shape, v)[i], depth + 1);
      var rest := UnsafeWay(shape, Items(shape, v)[i], depth + 1);
      path := [i] + rest;
      assert path[1..] == rest;
    }
  }

  // Safe says: however one goes down, one meets only JSON and at most 64 levels.
  lemma SafeIsEveryWay<N>(shape: N -> Shape<N>, v: Value<N>)
    ensures Safe(shape, v, 0) <==> forall path :: GoodWay(shape, v, 0, path)
  {
    if Safe(shape, v, 0) {
      forall path ensures GoodWay(shape, v, 0, path) {
        SafeWay(shape, v, 0, path);
      }
    } else {
      var path := UnsafeWay(shape, v, 0);
    }
  }

  // So every way down from a safe value has at most 64 steps and meets JSON...
  lemma SafeIsJson<N>(shape: N -> Shape<N>, v: Value<N>, path: seq<nat>)
    requires Safe(shape, v, 0) && Down(shape, v, path).Some?
    ensures |path| <= 64
    ensures var w := Down(shape, v, path).value;
            w != NotJson && w != Number(false) && (w.Reference? ==> shape(w.node).ArrayOf? || shape(w.node).PlainObject?)
  {
    SafeWay(shape, v, 0, path);
  }

  // ... and some way down from any other value goes further or meets something else.
  lemma UnsafeIsFound<N>(shape: N -> Shape<N>, v: Value<N>) returns (path: seq<nat>)
    requires !Safe(shape, v, 0)
    ensures Down(shape, v, path).Some?
    ensures var w := Down(shape, v, path).value;
            |path| > 64 || w.NotJson? || w == Number(false) || (w.Reference? && shape(w.node).Exotic?)
  {
    path := UnsafeWay(shape, v, 0);
  }

  // One goes down into the elements of an array and the values of an object, and nowhere else.
  lemma {:induction false} DownStep<N>(shape: N -> Shape<N>, v: Value<N>, i: nat, rest: seq<nat>)
    ensures Down(shape, v, []) == Some(v)
    ensures !v.Reference? ==> Down(shape, v, [i] + rest) == None
    ensures v.Reference? ==> Down(shape, v, [i] + rest) == match shape(v.node) {
      case ArrayOf(elements) => if i < |elements| then Down(shape, elements[i], rest) else None
      case PlainObject(values) => if i < |values| then Down(shape, values[i], rest) else None
      case Exotic => None
    }
  {
    assert ([i] + rest)[1..] == rest;
  }

  // The nodes of a safe value are the ways down from it, each counted once.
  lemma {:induction false} NodesAreWays<N>(shape: N -> Shape<N>, v: Value<N>, depth: nat) returns (ways: set<seq<nat>>)
    requires Safe(shape, v, depth)
    ensures forall path :: path in ways <==> Down(shape, v, path).Some?
    ensures |ways| == Nodes(shape, v, depth)
    decreases MAX_JSON_DEPTH + 1 - depth, 0
  {
    var below := WaysInto(shape, Items(shape, v), depth + 1);
    ways := below + {[]};
    assert [] !in below;
  }

  lemma {:induction false} WaysInto<N>(shape: N -> Shape<N>, items: seq<Value<N>>, depth: nat) returns (ways: set<seq<nat>>)
    requires forall i :: 0 <= i < |items| ==> Safe(shape, items[i], depth)
    requires depth <= MAX_JSON_DEPTH + 1
    ensures forall path :: path in ways <==>
      path != [] && path[0] < |items| && Down(shape, items[path[0]], path[1..]).Some?
    ensures |ways| == NodesOfAll(shape, items, depth)
    decreases MAX_JSON_DEPTH + 1 - depth, 1 + |items|
  {
    if items == [] {
      ways := {};
    } else {
      var n := |items| - 1;
      var before := WaysInto(shape, items[..n], depth);
      var last := NodesAreWays(shape, items[n], depth);
      var into := Behind(n, last);
      ways := before + into;
      assert before !! into;
    }
  }

  lemma {:induction false} Behind(n: nat, ways: set<seq<nat>>) returns (r: set<seq<nat>>)
    ensures forall path :: path in r <==> path != [] && path[0] == n && path[1..] in ways
    ensures |r| == |ways|
    decreases |ways|
  {
    if ways == {} {
      r := {};
    } else {
      var one :| one in ways;
      var others := Behind(n, ways - {one});
      r := others + {[n] + one};
      assert ([n] + one)[1..] == one && [n] + one !in others;
      forall path | path != [] && path[0] == n && path[1..] == one ensures path == [n] + one {
        assert path == [path[0]] + path[1..];
      }
    }
  }

  function Rounds(loop: seq<nat>, n: nat): (r: seq<nat>)
    ensures |r| == n * |loop|
  {
    if n == 0 then [] else loop + Rounds(loop, n - 1)
  }

  lemma {:induction false} RoundAndRound<N>(shape: N -> Shape<N>, v: Value<N>, loop: seq<nat>, n: nat)
    requires Down(shape, v, loop) == Some(v)
    ensures Down(shape, v, Rounds(loop, n)) == Some(v)
  {
    if n == 0 {
    } else {
      RoundAndRound(shape, v, loop, n - 1);
      DownThen(shape, v, loop, Rounds(loop, n - 1));
    }
  }

  lemma {:induction false} DownThen<N>(shape: N -> Shape<N>, v: Value<N>, p: seq<nat>, q: seq<nat>)
    requires Down(shape, v, p).Some?
    ensures Down(shape, v, p + q) == Down(shape, Down(shape, v, p).value, q)
    decreases |p|
  {
    if p != [] {
      DownThen(shape, Items(shape, v)[p[0]], p[1..], q);
      assert (p + q)[1..] == p[1..] + q;
    } else {
      assert p + q == q;
    }
  }

  // A value that contains itself, however deep, is refused.
  lemma CyclesAreUnsafe<N>(shape: N -> Shape<N>, v: Value<N>, to: seq<nat>, loop: seq<nat>)
    requires Down(shape, v, to).Some? && loop != []
    requires Down(shape, Down(shape, v, to).value, loop) == Down(shape, v, to)
    ensures !Safe(shape, v, 0)
  {
    var w := Down(shape, v, to).value;
    var far := Rounds(loop, MAX_JSON_DEPTH + 1);
    RoundAndRound(shape, w, loop, MAX_JSON_DEPTH + 1);
    DownThen(shape, v, to, far);
    assert |far| > MAX_JSON_DEPTH by {
      assert (MAX_JSON_DEPTH + 1) * |loop| >= MAX_JSON_DEPTH + 1;
    }
    assert !GoodWay(shape, v, 0, to + far);
    SafeIsEveryWay(shape, v);
  }

  // ----- the loop over a stack ----------------------------------------------

  datatype Entry<N> = Entry(depth: nat, value: Value<N>)

  function Entries<N>(items: seq<Value<N>>, depth: nat): (r: seq<Entry<N>>)
    ensures |r| == |items| && forall i :: 0 <= i < |r| ==> r[i] == Entry(depth, items[i])
  {
    seq(|items|, i requires 0 <= i < |items| => Entry(depth, items[i]))
  }

  function Pending<N>(shape: N -> Shape<N>, pending: seq<Entry<N>>): nat {
    if pending == [] then 0
    else
      var last := pending[|pending| - 1];
      Pending(shape, pending[..|pending| - 1]) + Nodes(shape, last.value, last.depth)
  }

  predicate AllSafe<N>(shape: N -> Shape<N>, pending: seq<Entry<N>>) {
    forall i :: 0 <= i < |pending| ==> Safe(shape, pending[i].value, pending[i].depth)
  }

  lemma {:induction false} PendingItems<N>(shape: N -> Shape<N>, pending: seq<Entry<N>>, items: seq<Value<N>>, depth: nat)
    ensures Pending(shape, pending + Entries(items, depth)) == Pending(shape, pending) + NodesOfAll(shape, items, depth)
  {
    var all := pending + Entries(items, depth);
    if items == [] {
      assert all == pending;
    } else {
      PendingItems(shape, pending, items[..|items| - 1], depth);
      assert all[..|all| - 1] == pending + Entries(items[..|items| - 1], depth);
      assert all[|all| - 1] == Entry(depth, items[|items| - 1]);
    }
  }

  lemma SafeTogether<N>(shape: N -> Shape<N>, a: seq<Entry<N>>, b: seq<Entry<N>>)
    ensures AllSafe(shape, a + b) <==> AllSafe(shape, a) && AllSafe(shape, b)
  {
    if AllSafe(shape, a + b) {
      assert forall i :: 0 <= i < |a| ==> a[i] == (a + b)[i];
      assert forall i :: 0 <= i < |b| ==> b[i] == (a + b)[|a| + i];
    }
  }

  lemma SafeItems<N>(shape: N -> Shape<N>, top: Entry<N>)
    requires top.depth <= MAX_JSON_DEPTH && NodeSafe(shape, top.value)
    ensures AllSafe(shape, Entries(Items(shape, top.value), top.depth + 1)) <==> AllSafe(shape, [top])
  {
    var entries := Entries(Items(shape, top.value), top.depth + 1);
    assert AllSafe(shape, [top]) <==> Safe(shape, [top][0].value, [top][0].depth);
    assert forall i :: 0 <= i < |entries| ==>
      Safe(shape, entries[i].value, entries[i].depth) == Safe(shape, Items(shape, top.value)[i], top.depth + 1);
  }

  // Taking an entry from the stack and pushing its items keeps both sums.
  lemma Replaced<N>(shape: N -> Shape<N>, rest: seq<Entry<N>>, top: Entry<N>)
    requires top.depth <= MAX_JSON_DEPTH && NodeSafe(shape, top.value)
    ensures Pending(shape, rest + Entries(Items(shape, top.value), top.depth + 1)) + 1 == Pending(shape, rest + [top])
    ensures AllSafe(shape, rest + Entries(Items(shape, top.value), top.depth + 1)) <==> AllSafe(shape, rest + [top])
  {
    var entries := Entries(Items(shape, top.value), top.depth + 1);
    PendingItems(shape, rest, Items(shape, top.value), top.depth + 1);
    assert (rest + [top])[..|rest|] == rest;
    SafeTogether(shape, rest, entries);
    SafeTogether(shape, rest, [top]);
    SafeItems(shape, top);
  }

  // Accepts exactly the safe values of at most 100000 nodes; the order in which the stack is
  // worked off does not show in the answer.
  method IsBoundedJsonValue<N>(shape: N -> Shape<N>, input: Value<N>) returns (r: bool)
    ensures r <==> Safe(shape, input, 0) && Nodes(shape, input, 0) <= 100_000
  {
    var pending := [Entry(0, input)];
    var visitedNodes := 0;
    assert pending[..0] == [];
    while pending != []
      invariant visitedNodes + Pending(shape, pending) == Nodes(shape, input, 0)
      invariant AllSafe(shape, pending) <==> Safe(shape, input, 0)
      invariant visitedNodes <= MAX_JSON_NODES
      decreases MAX_JSON_NODES - visitedNodes
    {
      var current := pending[|pending| - 1];
      ghost var before := pending;
      pending := pending[..|pending| - 1];
      ghost var rest := pending;
      assert before == rest + [current];
      visitedNodes := visitedNodes + 1;
      if visitedNodes > MAX_JSON_NODES || current.depth > MAX_JSON_DEPTH {
        assert before[|before| - 1] == current;
        return false;
      }
      match current.value {
        case Null =>
        case Text =>
        case Flag =>
        case Number(finite) =>
          if !finite {
            assert !Safe(shape, before[|before| - 1].value, before[|before| - 1].depth);
            return false;
          }
        case NotJson =>
          assert !Safe(shape, before[|before| - 1].value, before[|before| - 1].depth);
          return false;
        case Reference(n) =>
          var nextDepth := current.depth + 1;
          match shape(n) {
            case ArrayOf(elements) =>
              pending := Push(pending, elements, nextDepth);
            case PlainObject(values) =>
              pending := Push(pending, values, nextDepth);
            case Exotic =>
              assert !Safe(shape, before[|before| - 1].value, before[|before| - 1].depth);
              return false;
          }
      }
      assert pending == rest + Entries(Items(shape, current.value), current.depth + 1);
      Replaced(shape, rest, current);
    }
    return true;
  }

  method Push<N>(pending: seq<Entry<N>>, items: seq<Value<N>>, depth: nat) returns (r: seq<Entry<N>>)
    ensures r == pending + Entries(items, depth)
  {
    r := pending;
    for i := 0 to |items|
      invariant r == pending + Entries(items, depth)[..i]
    {
      r := r + [Entry(depth, items[i])];
    }
  }
}
