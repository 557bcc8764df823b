// Canonical forms of company actions (canonicalize in apps/worker/src/company-action-broker.ts),
// whose hash tells duplicate requests apart.
module CanonicalJson {
  import opened Wrappers

  datatype Json =
    | Null
    | Bool(b: bool)
    | Num(n: real)
    | Str(s: string)
    | Arr(items: seq<Json>)
    | Obj(entries: seq<Entry>)

  datatype Entry = Entry(key: string, value: Json)

  // ----- values up to the order of entries ----------------------------------

  // What a value says once the order of object entries is forgotten.
  datatype Meaning =
    | Nothing
    | Truth(b: bool)
    | Number(n: real)
    | Text(s: string)
    | List(items: seq<Meaning>)
    | Record(fields: map<string, Meaning>)

  function Keys(entries: seq<Entry>): set<string> {
    set e | e in entries :: e.key
  }

  function Index(entries: seq<Entry>, k: string): (i: nat)
    requires k in Keys(entries)
    ensures i < |entries| && entries[i].key == k
  {
    if entries[0].key == k then 0 else 1 + Index(entries[1..], k)
  }

  ghost function Means(v: Json): Meaning {
    match v
    case Null => Nothing
    case Bool(b) => Truth(b)
    case Num(n) => Number(n)
    case Str(s) => Text(s)
    case Arr(items) => List(seq(|items|, i requires 0 <= i < |items| => Means(items[i])))
    case Obj(entries) => Record(map k | k in Keys(entries) :: Means(entries[Index(entries, k)].value))
  }

  // Equal up to reordering the entries of objects at every depth.
  ghost predicate Same(u: Json, v: Json) {
    Means(u) == Means(v)
  }

  ghost predicate UniqueKeys(entries: seq<Entry>) {
    forall i, j :: 0 <= i < j < |entries| ==> entries[i].key != entries[j].key
  }

  // Objects have distinct keys.
  ghost predicate Proper(v: Json) {
    match v
    case Arr(items) => forall i :: 0 <= i < |items| ==> Proper(items[i])
    case Obj(entries) => UniqueKeys(entries) && forall i :: 0 <= i < |entries| ==> Proper(entries[i].value)
    case _ => true
  }

  // ----- sorting by key -----------------------------------------------------

  function Insert(leq: (string, string) -> bool, x: Entry, entries: seq<Entry>): (r: seq<Entry>)
    ensures forall e :: e in r <==> e == x || e in entries
    ensures |r| == |entries| + 1
  {
    if entries == [] || leq(x.key, entries[0].key) then [x] + entries
    else [entries[0]] + Insert(leq, x, entries[1..])
  }

  function Sort(leq: (string, string) -> bool, entries: seq<Entry>): (r: seq<Entry>)
    ensures forall e :: e in r <==> e in entries
    ensures |r| == |entries|
  {
    if entries == [] then [] else Insert(leq, entries[0], Sort(leq, entries[1..]))
  }

  function Canonicalize(leq: (string, string) -> bool, v: Json): Json
    decreases v
  {
    match v
    case Arr(items) => Arr(seq(|items|, i requires 0 <= i < |items| => Canonicalize(leq, items[i])))
    case Obj(entries) =>
      var sorted := Sort(leq, entries);
      Obj(seq(|sorted|, i requires 0 <= i < |sorted| =>
        assert sorted[i] in entries;
        Entry(sorted[i].key, Canonicalize(leq, sorted[i].value))))
    case _ => v
  }

  ghost predicate Ordered(leq: (string, string) -> bool, entries: seq<Entry>) {
    forall i, j :: 0 <= i < j < |entries| ==> leq(entries[i].key, entries[j].key)
  }

  lemma {:induction false} InsertOrders(leq: (string, string) -> bool, x: Entry, entries: seq<Entry>)
    requires IsCollation(leq) && Ordered(leq, entries)
    ensures Ordered(leq, Insert(leq, x, entries))
  {
    if entries != [] && !leq(x.key, entries[0].key) {
      InsertOrders(leq, x, entries[1..]);
      forall e | e in Insert(leq, x, entries[1..])
        ensures leq(entries[0].key, e.key)
      {}
    }
  }

  lemma {:induction false} InsertUnique(leq: (string, string) -> bool, x: Entry, entries: seq<Entry>)
    requires UniqueKeys(entries) && forall e :: e in entries ==> e.key != x.key
    ensures UniqueKeys(Insert(leq, x, entries))
  {
    if entries != [] && !leq(x.key, entries[0].key) {
      InsertUnique(leq, x, entries[1..]);
      forall e | e in Insert(leq, x, entries[1..])
        ensures e.key != entries[0].key
      {}
    }
  }

  lemma {:induction false} SortOrders(leq: (string, string) -> bool, entries: seq<Entry>)
    requires IsCollation(leq) && UniqueKeys(entries)
    ensures Ordered(leq, Sort(leq, entries)) && UniqueKeys(Sort(leq, entries))
  {
    if entries == [] {
    } else {
      SortOrders(leq, entries[1..]);
      forall e | e in Sort(leq, entries[1..])
        ensures e.key != entries[0].key
      {}
      InsertOrders(leq, entries[0], Sort(leq, entries[1..]));
      InsertUnique(leq, entries[0], Sort(leq, entries[1..]));
    }
  }

  // ----- canonicalizing changes only the order ------------------------------

  lemma FieldOf(entries: seq<Entry>, e: Entry)
    requires UniqueKeys(entries) && e in entries
    ensures e.key in Means(Obj(entries)).fields && Means(Obj(entries)).fields[e.key] == Means(e.value)
  {
    var i :| 0 <= i < |entries| && entries[i] == e;
    assert e.key in Keys(entries);
    assert Index(entries, e.key) == i;
  }

  // Objects with the same keys and, key by key, the same values mean the same.
  lemma SameFields(a: seq<Entry>, b: seq<Entry>)
    requires UniqueKeys(a) && UniqueKeys(b) && Keys(a) == Keys(b)
    requires forall x, y :: x in a && y in b && x.key == y.key ==> Same(x.value, y.value)
    ensures Same(Obj(a), Obj(b))
  {
    forall k | k in Keys(a)
      ensures Means(Obj(a)).fields[k] == Means(Obj(b)).fields[k]
    {
      FieldOf(a, a[Index(a, k)]);
      FieldOf(b, b[Index(b, k)]);
      assert a[Index(a, k)] in a && b[Index(b, k)] in b;
    }
    assert Means(Obj(a)).fields == Means(Obj(b)).fields;
  }

  function CanonEntries(leq: (string, string) -> bool, entries: seq<Entry>): (r: seq<Entry>)
    ensures |r| == |entries|
  {
    seq(|entries|, i requires 0 <= i < |entries| => Entry(entries[i].key, Canonicalize(leq, entries[i].value)))
  }

  lemma CanonIsSorted(leq: (string, string) -> bool, entries: seq<Entry>)
    ensures Canonicalize(leq, Obj(entries)) == Obj(CanonEntries(leq, Sort(leq, entries)))
  {}

  lemma {:induction false} CanonicalIsSame(leq: (string, string) -> bool, v: Json)
    requires IsCollation(leq) && Proper(v)
    ensures Same(Canonicalize(leq, v), v) && Proper(Canonicalize(leq, v))
    decreases v
  {
    match v
    case Arr(items) =>
      forall i | 0 <= i < |items|
        ensures Same(Canonicalize(leq, items[i]), items[i]) && Proper(Canonicalize(leq, items[i]))
      {
        CanonicalIsSame(leq, items[i]);
      }
    case Obj(entries) =>
      forall e | e in entries
        ensures Same(Canonicalize(leq, e.value), e.value) && Proper(Canonicalize(leq, e.value))
      {
        CanonicalIsSame(leq, e.value);
      }
      CanonIsSorted(leq, entries);
      SortOrders(leq, entries);
      var sorted := Sort(leq, entries);
      var canon := CanonEntries(leq, sorted);
      CanonKeys(leq, sorted);
      forall x, y | x in canon && y in entries && x.key == y.key
        ensures Same(x.value, y.value)
      {
        var i :| 0 <= i < |canon| && canon[i] == x;
        assert sorted[i] in entries && sorted[i].key == y.key;
        SameKeySameEntry(entries, sorted[i], y);
      }
      SameFields(canon, entries);
    case _ =>
  }

  lemma SameKeySameEntry(entries: seq<Entry>, x: Entry, y: Entry)
    requires UniqueKeys(entries) && x in entries && y in entries && x.key == y.key
    ensures x == y
  {}

  lemma CanonKeys(leq: (string, string) -> bool, entries: seq<Entry>)
    requires UniqueKeys(entries)
    ensures UniqueKeys(CanonEntries(leq, entries)) && Keys(CanonEntries(leq, entries)) == Keys(entries)
  {
    var canon := CanonEntries(leq, entries);
    forall k | k in Keys(entries)
      ensures k in Keys(canon)
    {
      assert canon[Index(entries, k)] in canon;
    }
  }

  // ----- canonical forms decide sameness ------------------------------------

  predicate Tied(leq: (string, string) -> bool, a: string, b: string) {
    leq(a, b) && leq(b, a)
  }

  ghost predicate OwnTie(leq: (string, string) -> bool, entries: seq<Entry>, i: nat, j: nat) {
    i < j < |entries| && Tied(leq, entries[i].key, entries[j].key)
  }

  // No object in the value has two keys that the comparison cannot tell apart.
  ghost predicate NoTies(leq: (string, string) -> bool, v: Json) {
    match v
    case Arr(items) => forall i :: 0 <= i < |items| ==> NoTies(leq, items[i])
    case Obj(entries) =>
      && (forall i: nat, j: nat :: !OwnTie(leq, entries, i, j))
      && (forall i :: 0 <= i < |entries| ==> NoTies(leq, entries[i].value))
    case _ => true
  }

  ghost predicate StrictOn(leq: (string, string) -> bool, keys: set<string>) {
    forall a, b :: a in keys && b in keys && Tied(leq, a, b) ==> a == b
  }

  lemma {:induction false} OrderIsUnique(leq: (string, string) -> bool, a: seq<Entry>, b: seq<Entry>)
    requires IsCollation(leq) && Ordered(leq, a) && Ordered(leq, b) && UniqueKeys(a) && UniqueKeys(b)
    requires Keys(a) == Keys(b) && StrictOn(leq, Keys(a))
    ensures |a| == |b| && forall i :: 0 <= i < |a| ==> a[i].key == b[i].key
  {
    if a == [] || b == [] {
      assert a != [] ==> a[0].key in Keys(a);
      assert b != [] ==> b[0].key in Keys(b);
    } else {
      LeastFirst(leq, a, b);
      LeastFirst(leq, b, a);
      TailKeys(a);
      TailKeys(b);
      OrderIsUnique(leq, a[1..], b[1..]);
      forall i | 0 <= i < |a|
        ensures a[i].key == b[i].key
      {
        if i > 0 {
          assert a[i] == a[1..][i - 1] && b[i] == b[1..][i - 1];
        }
      }
    }
  }

  lemma LeastFirst(leq: (string, string) -> bool, a: seq<Entry>, b: seq<Entry>)
    requires IsCollation(leq) && Ordered(leq, a) && a != [] && b != [] && Keys(a) == Keys(b)
    ensures leq(a[0].key, b[0].key) && a[0].key in Keys(a)
  {
    assert b[0].key in Keys(b);
  }

  lemma TailKeys(a: seq<Entry>)
    requires a != [] && UniqueKeys(a)
    ensures Keys(a[1..]) == Keys(a) - {a[0].key}
  {
    forall k | k in Keys(a) && k != a[0].key
      ensures k in Keys(a[1..])
    {
      var i := Index(a, k);
      assert a[1..][i - 1] == a[i];
    }
  }

  lemma {:induction false} SameGivesCanonical(leq: (string, string) -> bool, u: Json, v: Json)
    requires IsCollation(leq) && Proper(u) && Proper(v) && NoTies(leq, v) && Same(u, v)
    ensures Canonicalize(leq, u) == Canonicalize(leq, v)
    decreases v
  {
    match v
    case Arr(items) =>
      forall i | 0 <= i < |items|
        ensures Canonicalize(leq, u.items[i]) == Canonicalize(leq, items[i])
      {
        assert Means(u).items[i] == Means(v).items[i];
        SameGivesCanonical(leq, u.items[i], items[i]);
      }
    case Obj(entries) =>
      var a, b := Sort(leq, u.entries), Sort(leq, entries);
      SortOrders(leq, u.entries);
      SortOrders(leq, entries);
      SameKeys(u.entries, entries);
      NoOwnTies(leq, entries);
      OrderIsUnique(leq, a, b);
      forall i | 0 <= i < |a|
        ensures Canonicalize(leq, a[i].value) == Canonicalize(leq, b[i].value)
      {
        assert a[i] in u.entries && b[i] in entries;
        FieldOf(u.entries, a[i]);
        FieldOf(entries, b[i]);
        SameGivesCanonical(leq, a[i].value, b[i].value);
      }
      CanonIsSorted(leq, u.entries);
      CanonIsSorted(leq, entries);
      assert CanonEntries(leq, a) == CanonEntries(leq, b);
    case _ =>
  }

  lemma SameKeys(a: seq<Entry>, b: seq<Entry>)
    requires Same(Obj(a), Obj(b))
    ensures Keys(a) == Keys(b)
    ensures forall leq :: Keys(Sort(leq, a)) == Keys(a) && Keys(Sort(leq, b)) == Keys(b)
  {
    assert Means(Obj(a)).fields.Keys == Keys(a) && Means(Obj(b)).fields.Keys == Keys(b);
  }

  lemma NoOwnTies(leq: (string, string) -> bool, entries: seq<Entry>)
    requires NoTies(leq, Obj(entries))
    ensures StrictOn(leq, Keys(entries))
  {
    forall a, b | a in Keys(entries) && b in Keys(entries) && Tied(leq, a, b)
      ensures a == b
    {
      var i, j := Index(entries, a), Index(entries, b);
      assert !OwnTie(leq, entries, i, j) && !OwnTie(leq, entries, j, i);
    }
  }

  // Equal canonical forms mean equal up to order, and the other way round where keys can be told apart.
  lemma CanonicalDecides(leq: (string, string) -> bool, u: Json, v: Json)
    requires IsCollation(leq) && Proper(u) && Proper(v) && NoTies(leq, v)
    ensures Canonicalize(leq, u) == Canonicalize(leq, v) <==> Same(u, v)
  {
    CanonicalIsSame(leq, u);
    CanonicalIsSame(leq, v);
    if Same(u, v) {
      SameGivesCanonical(leq, u, v);
    }
  }

  lemma {:induction false} SortLeavesOrdered(leq: (string, string) -> bool, entries: seq<Entry>)
    requires Ordered(leq, entries)
    ensures Sort(leq, entries) == entries
  {
    if entries == [] {
    } else {
      SortLeavesOrdered(leq, entries[1..]);
    }
  }

  // Canonicalizing twice is canonicalizing once, ties or not.
  lemma {:induction false} CanonicalTwice(leq: (string, string) -> bool, v: Json)
    requires IsCollation(leq) && Proper(v)
    ensures Canonicalize(leq, Canonicalize(leq, v)) == Canonicalize(leq, v)
    decreases v
  {
    match v
    case Arr(items) =>
      forall i | 0 <= i < |items|
        ensures Canonicalize(leq, Canonicalize(leq, items[i])) == Canonicalize(leq, items[i])
      {
        CanonicalTwice(leq, items[i]);
      }
    case Obj(entries) =>
      var canon := CanonEntries(leq, Sort(leq, entries));
      SortOrders(leq, entries);
      CanonIsSorted(leq, entries);
      SortLeavesOrdered(leq, canon);
      CanonIsSorted(leq, canon);
      forall i | 0 <= i < |canon|
        ensures CanonEntries(leq, canon)[i] == canon[i]
      {
        var e := Sort(leq, entries)[i];
        assert e in entries;
        CanonicalTwice(leq, e.value);
      }
      assert CanonEntries(leq, canon) == canon;
    case _ =>
  }

  // The keys of every object stand in their order.
  ghost predicate InOrder(leq: (string, string) -> bool, v: Json) {
    match v
    case Arr(items) => forall i :: 0 <= i < |items| ==> InOrder(leq, items[i])
    case Obj(entries) =>
      && (forall i, j :: 0 <= i < j < |entries| ==> leq(entries[i].key, entries[j].key))
      && (forall i :: 0 <= i < |entries| ==> InOrder(leq, entries[i].value))
    case _ => true
  }

  lemma {:induction false} CanonicalIsOrdered(leq: (string, string) -> bool, v: Json)
    requires IsCollation(leq) && Proper(v)
    ensures InOrder(leq, Canonicalize(leq, v))
    decreases v
  {
    match v
    case Arr(items) =>
      forall i | 0 <= i < |items| ensures InOrder(leq, Canonicalize(leq, items[i])) {
        CanonicalIsOrdered(leq, items[i]);
      }
    case Obj(entries) =>
      var sorted := Sort(leq, entries);
      CanonIsSorted(leq, entries);
      SortOrders(leq, entries);
      forall i | 0 <= i < |sorted| ensures InOrder(leq, Canonicalize(leq, sorted[i].value)) {
        assert sorted[i] in entries;
        CanonicalIsOrdered(leq, sorted[i].value);
      }
    case _ =>
  }

  // ----- ties: where the form does depend on the order given ----------------

  // The sort is stable, so a key that compares equal to a later one stays before it.
  lemma {:induction false} InsertBefore(leq: (string, string) -> bool, x: Entry, entries: seq<Entry>, k: string)
    requires k in Keys(entries) && x.key !in Keys(entries) && leq(x.key, k)
    ensures x.key in Keys(Insert(leq, x, entries)) && k in Keys(Insert(leq, x, entries))
    ensures Index(Insert(leq, x, entries), x.key) < Index(Insert(leq, x, entries), k)
  {
    if !leq(x.key, entries[0].key) {
      InsertBefore(leq, x, entries[1..], k);
      IndexTail(Insert(leq, x, entries), x.key);
      IndexTail(Insert(leq, x, entries), k);
    }
  }

  lemma IndexTail(entries: seq<Entry>, k: string)
    requires entries != [] && entries[0].key != k && k in Keys(entries[1..])
    ensures k in Keys(entries) && Index(entries, k) == Index(entries[1..], k) + 1
  {}

  lemma {:induction false} InsertKeepsBefore(leq: (string, string) -> bool, x: Entry, entries: seq<Entry>, a: string, b: string)
    requires a in Keys(entries) && b in Keys(entries) && Index(entries, a) < Index(entries, b) && x.key !in {a, b}
    ensures a in Keys(Insert(leq, x, entries)) && b in Keys(Insert(leq, x, entries))
    ensures Index(Insert(leq, x, entries), a) < Index(Insert(leq, x, entries), b)
  {
    var r := Insert(leq, x, entries);
    if leq(x.key, entries[0].key) {
      assert r[1..] == entries;
      IndexTail(r, a);
      IndexTail(r, b);
    } else {
      IndexTail(entries, b);
      if entries[0].key != a {
        InsertKeepsBefore(leq, x, entries[1..], a, b);
        IndexTail(r, a);
      } else {
        var e :| e in entries[1..] && e.key == b;
        assert e in Insert(leq, x, entries[1..]);
      }
      assert r[1..] == Insert(leq, x, entries[1..]);
      IndexTail(r, b);
    }
  }

  lemma {:induction false} SortIsStable(leq: (string, string) -> bool, entries: seq<Entry>, i: nat, j: nat)
    requires UniqueKeys(entries) && i < j < |entries| && leq(entries[i].key, entries[j].key)
    ensures var a, b, r := entries[i].key, entries[j].key, Sort(leq, entries);
            a in Keys(r) && b in Keys(r) && Index(r, a) < Index(r, b)
  {
    var rest := Sort(leq, entries[1..]);
    assert entries[j] in entries[1..] && entries[j] in rest;
    if i == 0 {
      InsertBefore(leq, entries[0], rest, entries[j].key);
    } else {
      assert entries[1..][i - 1] == entries[i] && entries[1..][j - 1] == entries[j];
      SortIsStable(leq, entries[1..], i - 1, j - 1);
      InsertKeepsBefore(leq, entries[0], rest, entries[i].key, entries[j].key);
    }
  }

  function Swapped(entries: seq<Entry>, i: nat, j: nat): seq<Entry>
    requires i < j < |entries|
  {
    entries[i := entries[j]][j := entries[i]]
  }

  lemma SwapIsSame(entries: seq<Entry>, i: nat, j: nat)
    requires Proper(Obj(entries)) && i < j < |entries|
    ensures Proper(Obj(Swapped(entries, i, j))) && Same(Obj(Swapped(entries, i, j)), Obj(entries))
  {
    var swapped := Swapped(entries, i, j);
    forall e ensures e in swapped <==> e in entries {
      SwapMembers(entries, i, j, e);
    }
    assert Keys(swapped) == Keys(entries);
    SameFields(swapped, entries);
  }

  lemma SwapMembers(entries: seq<Entry>, i: nat, j: nat, e: Entry)
    requires i < j < |entries|
    ensures e in Swapped(entries, i, j) <==> e in entries
  {
    var swapped := Swapped(entries, i, j);
    assert swapped[i] == entries[j] && swapped[j] == entries[i];
    if e in entries {
      var k :| 0 <= k < |entries| && entries[k] == e;
      assert k != i && k != j ==> swapped[k] == e;
    }
  }

  lemma {:induction false} IndexByKeys(a: seq<Entry>, b: seq<Entry>, k: string)
    requires |a| == |b| && (forall i :: 0 <= i < |a| ==> a[i].key == b[i].key) && k in Keys(a)
    ensures k in Keys(b) && Index(a, k) == Index(b, k)
  {
    assert b[Index(a, k)] in b;
    if a[0].key != k {
      IndexByKeys(a[1..], b[1..], k);
    }
  }

  lemma SwapShows(leq: (string, string) -> bool, entries: seq<Entry>, i: nat, j: nat)
    requires UniqueKeys(entries) && OwnTie(leq, entries, i, j)
    requires UniqueKeys(Swapped(entries, i, j))
    ensures Canonicalize(leq, Obj(Swapped(entries, i, j))) != Canonicalize(leq, Obj(entries))
  {
    var swapped := Swapped(entries, i, j);
    var a, b := entries[i].key, entries[j].key;
    SortIsStable(leq, entries, i, j);
    SortIsStable(leq, swapped, i, j);
    CanonIsSorted(leq, entries);
    CanonIsSorted(leq, swapped);
    var r, t := Sort(leq, entries), Sort(leq, swapped);
    if CanonEntries(leq, r) == CanonEntries(leq, t) {
      forall k | 0 <= k < |r| ensures r[k].key == t[k].key {
        assert CanonEntries(leq, r)[k].key == CanonEntries(leq, t)[k].key;
      }
      IndexByKeys(r, t, a);
      IndexByKeys(r, t, b);
    }
  }

  lemma ChildShows(leq: (string, string) -> bool, entries: seq<Entry>, k: nat, u: Json)
    requires Proper(Obj(entries)) && k < |entries| && Proper(u) && Same(u, entries[k].value)
    requires Canonicalize(leq, u) != Canonicalize(leq, entries[k].value)
    ensures var other := Obj(entries[k := Entry(entries[k].key, u)]);
            Proper(other) && Same(other, Obj(entries)) && Canonicalize(leq, other) != Canonicalize(leq, Obj(entries))
  {
    var mine := Entry(entries[k].key, u);
    var other := entries[k := mine];
    assert Proper(Obj(other));
    ReplaceIsSame(entries, k, u);
    CanonIsSorted(leq, entries);
    CanonIsSorted(leq, other);
    var r, t := Sort(leq, entries), Sort(leq, other);
    assert other[k] == mine && mine in t;
    var p :| 0 <= p < |t| && t[p] == mine;
    assert r[p] in entries && entries[k] in entries;
    if r[p].key == mine.key {
      SameKeySameEntry(entries, r[p], entries[k]);
    }
    assert CanonEntries(leq, r)[p] != CanonEntries(leq, t)[p];
  }

  lemma ReplaceIsSame(entries: seq<Entry>, k: nat, u: Json)
    requires UniqueKeys(entries) && k < |entries| && Same(u, entries[k].value)
    ensures Same(Obj(entries[k := Entry(entries[k].key, u)]), Obj(entries))
  {
    var other := entries[k := Entry(entries[k].key, u)];
    forall key ensures key in Keys(other) <==> key in Keys(entries) {
      if key in Keys(entries) {
        assert other[Index(entries, key)] in other;
      }
      if key in Keys(other) {
        assert entries[Index(other, key)] in entries;
      }
    }
    forall x, y | x in other && y in entries && x.key == y.key
      ensures Same(x.value, y.value)
    {}
    SameFields(other, entries);
  }

  // A value with a tie has a reordering with another canonical form.
  lemma {:induction false} TieShows(leq: (string, string) -> bool, v: Json) returns (u: Json)
    requires IsCollation(leq) && Proper(v) && !NoTies(leq, v)
    ensures Proper(u) && Same(u, v) && Canonicalize(leq, u) != Canonicalize(leq, v)
    decreases v
  {
    match v
    case Arr(items) =>
      var i :| 0 <= i < |items| && !NoTies(leq, items[i]);
      var other := TieShows(leq, items[i]);
      u := Arr(items[i := other]);
      assert Canonicalize(leq, u).items[i] == Canonicalize(leq, other);
      assert Canonicalize(leq, v).items[i] == Canonicalize(leq, items[i]);
    case Obj(entries) =>
      if i: nat, j: nat :| OwnTie(leq, entries, i, j) {
        SwapIsSame(entries, i, j);
        SwapShows(leq, entries, i, j);
        u := Obj(Swapped(entries, i, j));
      } else {
        var k :| 0 <= k < |entries| && !NoTies(leq, entries[k].value);
        var other := TieShows(leq, entries[k].value);
        ChildShows(leq, entries, k, other);
        u := Obj(entries[k := Entry(entries[k].key, other)]);
      }
    case _ =>
      u := v;
  }

  // Duplicates are recognized in every order of entries exactly when no object holds two keys
  // that the comparison takes for equal.
  lemma DeduplicationIsExact(leq: (string, string) -> bool, v: Json)
    requires IsCollation(leq) && Proper(v)
    ensures (forall u | Proper(u) :: Canonicalize(leq, u) == Canonicalize(leq, v) <==> Same(u, v)) <==> NoTies(leq, v)
  {
    if NoTies(leq, v) {
      forall u | Proper(u)
        ensures Canonicalize(leq, u) == Canonicalize(leq, v) <==> Same(u, v)
      {
        CanonicalDecides(leq, u, v);
      }
    } else {
      var u := TieShows(leq, v);
    }
  }
}
