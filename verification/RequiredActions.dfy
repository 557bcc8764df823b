// Matching submitted company actions against required ones (apps/worker/src/company-actions.ts,
// missingRequiredCompanyActions and requiredCompanyActionsForHire).
module RequiredActions {
  import opened Wrappers

  datatype ActionType = HireAndDelegate | CreateMilestone | DefineAndStartProcess

  // `content` is everything else an action says.
  datatype Action = Action(kind: ActionType, project: Option<string>, content: string)

  datatype Requirement = Requirement(kind: ActionType, project: Option<string>)

  // The value found in the policy: anything at all.
  datatype Field = Text(text: string) | NoText
  datatype Item = Name(name: string) | Record(kind: Field, projectId: Field) | OtherItem
  datatype Policy = ListOf(items: seq<Item>) | NoList

  function TypeOf(name: string): Option<ActionType> {
    if name == "hire_and_delegate" then Some(HireAndDelegate)
    else if name == "create_milestone" then Some(CreateMilestone)
    else if name == "define_and_start_process" then Some(DefineAndStartProcess)
    else None
  }

  function ParseItem(item: Item): seq<Requirement> {
    match item
    case Name(name) => if TypeOf(name).Some? then [Requirement(TypeOf(name).value, None)] else []
    case Record(Text(kind), projectId) =>
      if TypeOf(kind).None? then []
      else [Requirement(TypeOf(kind).value, if projectId.Text? then Some(projectId.text) else None)]
    case _ => []
  }

  function ParseItems(items: seq<Item>): seq<Requirement> {
    if items == [] then [] else ParseItem(items[0]) + ParseItems(items[1..])
  }

  function Parse(policy: Policy): seq<Requirement> {
    if policy.ListOf? then ParseItems(policy.items) else []
  }

  function NameOf(kind: ActionType): string {
    match kind
    case HireAndDelegate => "hire_and_delegate"
    case CreateMilestone => "create_milestone"
    case DefineAndStartProcess => "define_and_start_process"
  }

  lemma TypeOfName(name: string, kind: ActionType)
    ensures TypeOf(name) == Some(kind) <==> name == NameOf(kind)
  {}

  // What an item of the policy asks for: a type by name alone, or with the project it names.
  predicate Asks(item: Item, r: Requirement) {
    || (item == Name(NameOf(r.kind)) && r.project == None)
    || (item.Record? && item.kind == Text(NameOf(r.kind))
        && r.project == if item.projectId.Text? then Some(item.projectId.text) else None)
  }

  // Parsing keeps the order of the items.
  lemma {:induction false} ParsedInOrder(items: seq<Item>, more: seq<Item>)
    ensures ParseItems(items + more) == ParseItems(items) + ParseItems(more)
  {
    if items == [] {
      assert items + more == more;
    } else {
      ParsedInOrder(items[1..], more);
      assert (items + more)[1..] == items[1..] + more;
    }
  }

  // An item gives the one requirement it asks for, and nothing exactly if it asks for none.
  lemma ParsedItem(item: Item, r: Requirement)
    ensures ParseItem(item) == [r] <==> Asks(item, r)
    ensures ParseItem(item) == [] <==> forall q :: !Asks(item, q)
  {
    var name := if item.Name? then item.name else if item.Record? && item.kind.Text? then item.kind.text else "";
    TypeOfName(name, r.kind);
    forall q | Asks(item, q) ensures ParseItem(item) == [q] {
      TypeOfName(name, q.kind);
    }
    if ParseItem(item) != [] {
      TypeOfName(name, ParseItem(item)[0].kind);
      assert Asks(item, ParseItem(item)[0]);
    }
  }

  // A policy that is a list asks for what its items ask for, in their order; any other for nothing.
  lemma PolicyAsks(items: seq<Item>, more: seq<Item>, item: Item, r: Requirement)
    ensures Parse(ListOf(items + more)) == Parse(ListOf(items)) + Parse(ListOf(more))
    ensures Parse(ListOf([item])) == [r] <==> Asks(item, r)
    ensures Parse(ListOf([item])) == [] <==> forall q :: !Asks(item, q)
    ensures Parse(ListOf([])) == [] && Parse(NoList) == []
  {
    ParsedInOrder(items, more);
    ParsedItem(item, r);
    assert [item][1..] == [];
    assert ParseItems([item]) == ParseItem(item);
  }

  // The three names.
  lemma NamesAskFor()
    ensures Asks(Name("hire_and_delegate"), Requirement(HireAndDelegate, None))
    ensures Asks(Name("create_milestone"), Requirement(CreateMilestone, None))
    ensures Asks(Name("define_and_start_process"), Requirement(DefineAndStartProcess, None))
  {}

  predicate Matches(a: Action, r: Requirement) {
    a.kind == r.kind && (r.project == None || a.project == r.project)
  }

  // ----- the greedy matching ------------------------------------------------

  function First(available: seq<Action>, r: Requirement): (i: Option<nat>)
    ensures i.Some? ==> i.value < |available| && Matches(available[i.value], r)
    ensures i.Some? ==> forall j :: 0 <= j < i.value ==> !Matches(available[j], r)
    ensures i.None? ==> forall a :: a in available ==> !Matches(a, r)
  {
    if available == [] then None
    else if Matches(available[0], r) then Some(0)
    else
      var rest := First(available[1..], r);
      if rest.Some? then Some(rest.value + 1) else None
  }

  function Without<T>(s: seq<T>, i: nat): (r: seq<T>)
    requires i < |s|
    ensures multiset(r) == multiset(s) - multiset{s[i]}
  {
    assert s == s[..i] + [s[i]] + s[i + 1..];
    s[..i] + s[i + 1..]
  }

  function Missing(required: seq<Requirement>, available: seq<Action>): seq<Requirement> {
    if required == [] then []
    else
      var i := First(available, required[0]);
      if i.None? then [required[0]] + Missing(required[1..], available)
      else Missing(required[1..], Without(available, i.value))
  }

  // The list of submitted actions is copied and then consumed.
  method MissingRequiredCompanyActions(value: Policy, submitted: seq<Action>) returns (missing: seq<Requirement>)
    ensures missing == Missing(Parse(value), submitted)
  {
    var required := Parse(value);
    var available := submitted;
    missing := [];
    for i := 0 to |required|
      invariant missing + Missing(required[i..], available) == Missing(required, submitted)
    {
      assert required[i..][1..] == required[i + 1..];
      var found := First(available, required[i]);
      if found.None? {
        missing := missing + [required[i]];
      } else {
        available := Without(available, found.value);
      }
    }
  }

  // ----- no action discharges two requirements ------------------------------

  // at[i] is the submitted action that discharges requirement i, if any.
  ghost predicate Discharges(required: seq<Requirement>, submitted: seq<Action>, at: seq<Option<nat>>) {
    && |at| == |required|
    && (forall i :: 0 <= i < |at| && at[i].Some? ==>
          at[i].value < |submitted| && Matches(submitted[at[i].value], required[i]))
    && (forall i, j :: 0 <= i < j < |at| && at[i].Some? ==> at[i] != at[j])
  }

  function Unserved(required: seq<Requirement>, at: seq<Option<nat>>): seq<Requirement>
    requires |at| == |required|
  {
    if required == [] then []
    else (if at[0].None? then [required[0]] else []) + Unserved(required[1..], at[1..])
  }

  // Positions before and after the action at k is taken out.
  function Lift(k: nat, x: Option<nat>): Option<nat> {
    if x.None? then None else if x.value < k then x else Some(x.value + 1)
  }

  function LiftAll(k: nat, at: seq<Option<nat>>): (r: seq<Option<nat>>)
    ensures |r| == |at| && forall i :: 0 <= i < |at| ==> r[i] == Lift(k, at[i])
  {
    seq(|at|, i requires 0 <= i < |at| => Lift(k, at[i]))
  }

  lemma {:induction false} UnservedLifted(required: seq<Requirement>, k: nat, at: seq<Option<nat>>)
    requires |at| == |required|
    ensures Unserved(required, LiftAll(k, at)) == Unserved(required, at)
  {
    if required == [] {
    } else {
      UnservedLifted(required[1..], k, at[1..]);
      assert LiftAll(k, at)[1..] == LiftAll(k, at[1..]);
    }
  }

  lemma TakeFirst(required: seq<Requirement>, submitted: seq<Action>, k: nat, rest: seq<Option<nat>>)
    requires required != [] && k < |submitted| && Matches(submitted[k], required[0])
    requires Discharges(required[1..], Without(submitted, k), rest)
    ensures Discharges(required, submitted, [Some(k)] + LiftAll(k, rest))
  {
    var at := [Some(k)] + LiftAll(k, rest);
    forall i | 0 <= i < |at| && at[i].Some?
      ensures at[i].value < |submitted| && Matches(submitted[at[i].value], required[i])
    {
      if i > 0 {
        assert at[i] == Lift(k, rest[i - 1]) && required[1..][i - 1] == required[i];
      }
    }
    forall i, j | 0 <= i < j < |at| && at[i].Some? ensures at[i] != at[j] {
      assert at[j] == Lift(k, rest[j - 1]);
      if i > 0 {
        assert at[i] == Lift(k, rest[i - 1]) && rest[i - 1] != rest[j - 1];
      }
    }
  }

  // What is reported is exactly what a one-to-one discharge leaves over.
  lemma {:induction false} MissingIsUnserved(required: seq<Requirement>, submitted: seq<Action>) returns (at: seq<Option<nat>>)
    ensures Discharges(required, submitted, at) && Missing(required, submitted) == Unserved(required, at)
  {
    if required == [] {
      at := [];
    } else {
      var first := First(submitted, required[0]);
      if first.None? {
        var rest := MissingIsUnserved(required[1..], submitted);
        at := [None] + rest;
        assert at[1..] == rest;
        assert forall i :: 0 <= i < |rest| ==> at[i + 1] == rest[i] && required[1..][i] == required[i + 1];
      } else {
        var rest := MissingIsUnserved(required[1..], Without(submitted, first.value));
        at := [first] + LiftAll(first.value, rest);
        TakeFirst(required, submitted, first.value, rest);
        assert at[1..] == LiftAll(first.value, rest);
        UnservedLifted(required[1..], first.value, rest);
      }
    }
  }

  // ----- counting -----------------------------------------------------------

  function Demand(required: seq<Requirement>, kind: ActionType, project: string): nat {
    if required == [] then 0
    else (if required[0] == Requirement(kind, Some(project)) then 1 else 0) + Demand(required[1..], kind, project)
  }

  function Supply(submitted: seq<Action>, kind: ActionType, project: string): nat {
    if submitted == [] then 0
    else (if Serves(submitted[0], kind, project) then 1 else 0) + Supply(submitted[1..], kind, project)
  }

  predicate Serves(a: Action, kind: ActionType, project: string) {
    a.kind == kind && a.project == Some(project)
  }

  lemma {:induction false} SupplyJoin(a: seq<Action>, b: seq<Action>, kind: ActionType, project: string)
    ensures Supply(a + b, kind, project) == Supply(a, kind, project) + Supply(b, kind, project)
  {
    if a == [] {
      assert a + b == b;
    } else {
      SupplyJoin(a[1..], b, kind, project);
      assert (a + b)[1..] == a[1..] + b;
    }
  }

  lemma SupplyWithout(submitted: seq<Action>, i: nat, kind: ActionType, project: string)
    requires i < |submitted|
    ensures Supply(Without(submitted, i), kind, project)
      == Supply(submitted, kind, project) - if Serves(submitted[i], kind, project) then 1 else 0
  {
    var tail := [submitted[i]] + submitted[i + 1..];
    assert submitted == submitted[..i] + tail && tail[1..] == submitted[i + 1..];
    SupplyJoin(submitted[..i], tail, kind, project);
    SupplyJoin(submitted[..i], submitted[i + 1..], kind, project);
  }

  lemma {:induction false} NoSupply(submitted: seq<Action>, kind: ActionType, project: string)
    requires forall a :: a in submitted ==> !Serves(a, kind, project)
    ensures Supply(submitted, kind, project) == 0
  {
    if submitted == [] {
    } else {
      assert submitted[0] in submitted;
      NoSupply(submitted[1..], kind, project);
    }
  }

  ghost predicate AllNamed(required: seq<Requirement>) {
    forall r :: r in required ==> r.project.Some?
  }

  function Excess(a: nat, b: nat): nat {
    if a > b then a - b else 0
  }

  // When every requirement names a project, what is missing of each kind and project is what
  // is required beyond what was submitted.
  lemma {:induction false} MissingIsExcess(required: seq<Requirement>, submitted: seq<Action>, kind: ActionType, project: string)
    requires AllNamed(required)
    ensures Demand(Missing(required, submitted), kind, project)
      == Excess(Demand(required, kind, project), Supply(submitted, kind, project))
  {
    if required == [] {
    } else {
      var r := required[0];
      assert r in required;
      var first := First(submitted, r);
      if first.None? {
        var rest := Missing(required[1..], submitted);
        MissingIsExcess(required[1..], submitted, kind, project);
        assert ([r] + rest)[1..] == rest;
        if r == Requirement(kind, Some(project)) {
          NoSupply(submitted, kind, project);
        }
      } else {
        SupplyWithout(submitted, first.value, kind, project);
        MissingIsExcess(required[1..], Without(submitted, first.value), kind, project);
      }
    }
  }

  // ----- when greedy is good enough -----------------------------------------

  // The submitted actions can discharge all requirements, one action for each.
  ghost predicate FullyServed(required: seq<Requirement>, submitted: seq<Action>) {
    exists at :: Discharges(required, submitted, at) && None !in at
  }

  // No requirement for any project stands before one of the same kind that names a project.
  ghost predicate AnyComesLast(required: seq<Requirement>) {
    forall i, j :: 0 <= i < j < |required| && required[i].project == None && required[i].kind == required[j].kind ==>
      required[j].project == None
  }

  // The same as FullyServed, choosing an action for one requirement after the other.
  ghost predicate Choosable(required: seq<Requirement>, left: multiset<Action>)
    decreases |required|, 1
  {
    required == [] || exists a :: ChoosableWith(required, left, a)
  }

  ghost predicate ChoosableWith(required: seq<Requirement>, left: multiset<Action>, a: Action)
    requires required != []
    decreases |required|, 0
  {
    a in left && Matches(a, required[0]) && Choosable(required[1..], left - multiset{a})
  }

  lemma Lowered(submitted: seq<Action>, k: nat, x: nat)
    requires k < |submitted| && x < |submitted| && x != k
    ensures Lower(k, x) < |Without(submitted, k)| && Without(submitted, k)[Lower(k, x)] == submitted[x]
  {}

  // What is left of a full discharge when the first requirement and its action are taken out.
  lemma FirstTaken(required: seq<Requirement>, submitted: seq<Action>, at: seq<Option<nat>>) returns (rest: seq<Option<nat>>)
    requires required != [] && Discharges(required, submitted, at) && None !in at
    ensures Discharges(required[1..], Without(submitted, at[0].value), rest) && None !in rest
  {
    var k := at[0].value;
    rest := LowerAll(k, at[1..]);
    forall i | 0 <= i < |rest|
      ensures rest[i].Some? && rest[i].value < |submitted| - 1
      ensures Matches(Without(submitted, k)[rest[i].value], required[1..][i])
    {
      FirstTakenAt(required, submitted, at, i);
    }
    forall i, j | 0 <= i < j < |rest| ensures rest[i] != rest[j] {
      assert at[1..][i] == at[i + 1] && at[1..][j] == at[j + 1];
      LowerDiffers(at, i + 1, j + 1);
    }
  }

  lemma FirstTakenAt(required: seq<Requirement>, submitted: seq<Action>, at: seq<Option<nat>>, i: nat)
    requires required != [] && Discharges(required, submitted, at) && None !in at && i + 1 < |at|
    ensures var x := Lower(at[0].value, at[i + 1].value);
            x < |submitted| - 1 && Matches(Without(submitted, at[0].value)[x], required[i + 1])
  {
    assert at[0] in at && at[i + 1] in at && at[0] != at[i + 1];
    Lowered(submitted, at[0].value, at[i + 1].value);
  }

  lemma LowerDiffers(at: seq<Option<nat>>, i: nat, j: nat)
    requires 0 < i < j < |at| && None !in at && forall x, y :: 0 <= x < y < |at| ==> at[x] != at[y]
    ensures Lower(at[0].value, at[i].value) != Lower(at[0].value, at[j].value)
  {
    assert at[0] in at && at[i] in at && at[j] in at;
    assert at[0] != at[i] && at[0] != at[j] && at[i] != at[j];
  }

  function LowerAll(k: nat, at: seq<Option<nat>>): (r: seq<Option<nat>>)
    ensures |r| == |at|
    ensures forall i :: 0 <= i < |at| && at[i].Some? ==> r[i] == Some(Lower(k, at[i].value))
  {
    seq(|at|, i requires 0 <= i < |at| => if at[i].Some? then Some(Lower(k, at[i].value)) else None)
  }

  function Lower(k: nat, x: nat): nat {
    if x > k then x - 1 else x
  }

  lemma {:induction false} ServedIsChoosable(required: seq<Requirement>, submitted: seq<Action>, at: seq<Option<nat>>)
    requires Discharges(required, submitted, at) && None !in at
    ensures Choosable(required, multiset(submitted))
  {
    if required == [] {
    } else {
      assert at[0] in at;
      var rest := FirstTaken(required, submitted, at);
      ServedIsChoosable(required[1..], Without(submitted, at[0].value), rest);
      assert ChoosableWith(required, multiset(submitted), submitted[at[0].value]);
    }
  }

  lemma {:induction false} ChoosableIsServed(required: seq<Requirement>, submitted: seq<Action>) returns (at: seq<Option<nat>>)
    requires Choosable(required, multiset(submitted))
    ensures Discharges(required, submitted, at) && None !in at
  {
    if required == [] {
      at := [];
    } else {
      var a :| ChoosableWith(required, multiset(submitted), a);
      var k: nat :| k < |submitted| && submitted[k] == a;
      var rest := ChoosableIsServed(required[1..], Without(submitted, k));
      TakeFirst(required, submitted, k, rest);
      at := [Some(k)] + LiftAll(k, rest);
    }
  }

  lemma TakeOther(left: multiset<Action>, x: Action, a: Action)
    requires a in left
    ensures left + multiset{x} - multiset{a} == left - multiset{a} + multiset{x}
  {}

  // An action may be swapped for one that matches at least as much.
  lemma {:induction false} Exchange(required: seq<Requirement>, left: multiset<Action>, x: Action, y: Action)
    requires Choosable(required, left + multiset{x})
    requires forall r :: r in required && Matches(x, r) ==> Matches(y, r)
    ensures Choosable(required, left + multiset{y})
  {
    if required == [] {
    } else {
      var a :| ChoosableWith(required, left + multiset{x}, a);
      assert required[0] in required;
      if a == x {
        assert left + multiset{x} - multiset{x} == left;
        assert left + multiset{y} - multiset{y} == left;
        assert ChoosableWith(required, left + multiset{y}, y);
      } else {
        TakeOther(left, x, a);
        TakeOther(left, y, a);
        Exchange(required[1..], left - multiset{a}, x, y);
        assert ChoosableWith(required, left + multiset{y}, a);
      }
    }
  }

  lemma GreedyStep(required: seq<Requirement>, submitted: seq<Action>) returns (i: nat)
    requires required != [] && AnyComesLast(required) && Choosable(required, multiset(submitted))
    ensures i < |submitted| && First(submitted, required[0]) == Some(i)
    ensures Choosable(required[1..], multiset(submitted) - multiset{submitted[i]})
  {
    var rest := required[1..];
    var a :| ChoosableWith(required, multiset(submitted), a);
    assert a in submitted;
    i := First(submitted, required[0]).value;
    var b := submitted[i];
    if a != b {
      forall q | q in rest && Matches(b, q) ensures Matches(a, q) {
        var j :| 0 <= j < |rest| && rest[j] == q;
        assert required[j + 1] == q;
      }
      var left := multiset(submitted) - multiset{a} - multiset{b};
      assert multiset(submitted) - multiset{a} == left + multiset{b};
      assert multiset(submitted) - multiset{b} == left + multiset{a};
      Exchange(rest, left, b, a);
    }
  }

  lemma {:induction false} GreedyServes(required: seq<Requirement>, submitted: seq<Action>)
    requires AnyComesLast(required) && Choosable(required, multiset(submitted))
    ensures Missing(required, submitted) == []
  {
    if required == [] {
    } else {
      var i := GreedyStep(required, submitted);
      assert forall j :: 0 <= j < |required[1..]| ==> required[1..][j] == required[j + 1];
      GreedyServes(required[1..], Without(submitted, i));
    }
  }

  // ----- when it is not -----------------------------------------------------

  // An action for a requirement; where any project will do it takes the one given.
  function Witness(r: Requirement, other: string): Action {
    Action(r.kind, if r.project.Some? then r.project else Some(other), "")
  }

  function Witnesses(required: seq<Requirement>, other: string): (r: seq<Action>)
    ensures |r| == |required| && forall i :: 0 <= i < |r| ==> r[i] == Witness(required[i], other)
  {
    seq(|required|, i requires 0 <= i < |required| => Witness(required[i], other))
  }

  lemma HeadOut(a: Action, rest: seq<Action>)
    ensures multiset([a] + rest) - multiset{a} == multiset(rest)
  {}

  lemma {:induction false} WitnessesServe(required: seq<Requirement>, other: string)
    ensures Choosable(required, multiset(Witnesses(required, other)))
  {
    if required == [] {
    } else {
      WitnessesServe(required[1..], other);
      var all := Witnesses(required, other);
      assert all == [all[0]] + Witnesses(required[1..], other);
      HeadOut(all[0], Witnesses(required[1..], other));
      assert ChoosableWith(required, multiset(all), all[0]);
    }
  }

  // Witnesses at the front are consumed one by one.
  lemma {:induction false} FrontConsumed(front: seq<Requirement>, other: string, required: seq<Requirement>, available: seq<Action>)
    ensures Missing(front + required, Witnesses(front, other) + available) == Missing(required, available)
  {
    var all, actions := front + required, Witnesses(front, other) + available;
    if front == [] {
      assert all == required && actions == available;
    } else {
      assert First(actions, all[0]) == Some(0);
      assert all[1..] == front[1..] + required;
      assert Without(actions, 0) == Witnesses(front[1..], other) + available;
      FrontConsumed(front[1..], other, required, available);
    }
  }

  lemma HeadMissing(r: Requirement, required: seq<Requirement>, available: seq<Action>)
    requires forall a :: a in available ==> !Matches(a, r)
    ensures Missing([r] + required, available) != []
  {
    assert ([r] + required)[0] == r;
  }

  lemma WitnessesJoin(a: seq<Requirement>, b: seq<Requirement>, other: string)
    ensures Witnesses(a + b, other) == Witnesses(a, other) + Witnesses(b, other)
  {}

  lemma CrossedSame(p: seq<Action>, x: Action, m: seq<Action>, y: Action, q: seq<Action>)
    ensures multiset(p + ([x] + (m + ([y] + q)))) == multiset(p + ([y] + (m + ([x] + q))))
  {
    assert multiset([x] + (m + ([y] + q))) == multiset{x} + (multiset(m) + (multiset{y} + multiset(q)));
    assert multiset([y] + (m + ([x] + q))) == multiset{y} + (multiset(m) + (multiset{x} + multiset(q)));
  }

  // The witnesses of pre + [any] + mid + [named] + post, with those of `any` and `named` in
  // each other's place, still serve all of them...
  lemma CrossedServe(pre: seq<Requirement>, any: Requirement, mid: seq<Requirement>, named: Requirement, post: seq<Requirement>,
                     other: string)
    ensures FullyServed(pre + ([any] + (mid + ([named] + post))),
              Witnesses(pre, other) + ([Witness(named, other)] + (Witnesses(mid, other) + ([Witness(any, other)] + Witnesses(post, other)))))
  {
    var all := pre + ([any] + (mid + ([named] + post)));
    var p, m, q := Witnesses(pre, other), Witnesses(mid, other), Witnesses(post, other);
    var x, y := Witness(any, other), Witness(named, other);
    WitnessesJoin(pre, [any] + (mid + ([named] + post)), other);
    WitnessesJoin([any], mid + ([named] + post), other);
    WitnessesJoin(mid, [named] + post, other);
    WitnessesJoin([named], post, other);
    assert Witnesses([any], other) == [x] && Witnesses([named], other) == [y];
    CrossedSame(p, x, m, y, q);
    WitnessesServe(all, other);
    var at := ChoosableIsServed(all, p + ([y] + (m + ([x] + q))));
  }

  // ... but are not matched to all: the one for any project takes what only the other can use.
  lemma CrossedFail(pre: seq<Requirement>, any: Requirement, mid: seq<Requirement>, named: Requirement, post: seq<Requirement>,
                    other: string)
    requires any.project == None && named.project.Some? && any.kind == named.kind && named !in post
    requires named.project != Some(other)
    ensures Missing(pre + ([any] + (mid + ([named] + post))),
              Witnesses(pre, other) + ([Witness(named, other)] + (Witnesses(mid, other) + ([Witness(any, other)] + Witnesses(post, other)))))
            != []
  {
    var back := [Witness(any, other)] + Witnesses(post, other);
    var ahead := Witnesses(mid, other) + back;
    FrontConsumed(pre, other, [any] + (mid + ([named] + post)), [Witness(named, other)] + ahead);
    AnyConsumes(any, Witness(named, other), mid + ([named] + post), ahead);
    FrontConsumed(mid, other, [named] + post, back);
    NothingLeft(any, named, post, other);
    HeadMissing(named, post, back);
  }

  lemma NothingLeft(any: Requirement, named: Requirement, post: seq<Requirement>, other: string)
    requires any.project == None && named.project.Some? && named !in post && named.project != Some(other)
    ensures forall x :: x in [Witness(any, other)] + Witnesses(post, other) ==> !Matches(x, named)
  {
    forall i | 0 <= i < |post| ensures !Matches(Witness(post[i], other), named) {
      assert post[i] in post;
    }
  }

  lemma AnyConsumes(any: Requirement, b: Action, required: seq<Requirement>, available: seq<Action>)
    requires Matches(b, any)
    ensures Missing([any] + required, [b] + available) == Missing(required, available)
  {
    assert ([any] + required)[1..] == required;
    assert First([b] + available, any) == Some(0);
    assert Without([b] + available, 0) == available;
  }

  lemma {:induction false} LastOf(required: seq<Requirement>, j: nat) returns (k: nat)
    requires j < |required|
    ensures j <= k < |required| && required[k] == required[j] && required[j] !in required[k + 1..]
    decreases |required| - j
  {
    if required[j] in required[j + 1..] {
      var i :| 0 <= i < |required| - j - 1 && required[j + 1..][i] == required[j];
      k := LastOf(required, j + 1 + i);
    } else {
      k := j;
    }
  }

  lemma Cut<T>(s: seq<T>, i: nat, k: nat)
    requires i < k < |s|
    ensures s == s[..i] + ([s[i]] + (s[i + 1..k] + ([s[k]] + s[k + 1..])))
  {}

  lemma GreedyFails(required: seq<Requirement>) returns (submitted: seq<Action>)
    requires !AnyComesLast(required)
    ensures FullyServed(required, submitted) && Missing(required, submitted) != []
  {
    var i: nat, j: nat :| i < j < |required| && required[i].project == None && required[i].kind == required[j].kind
      && required[j].project != None;
    var k := LastOf(required, j);
    var any, named, other := required[i], required[k], required[k].project.value + "x";
    var pre, mid, post := required[..i], required[i + 1..k], required[k + 1..];
    Cut(required, i, k);
    submitted := Witnesses(pre, other)
      + ([Witness(named, other)] + (Witnesses(mid, other) + ([Witness(any, other)] + Witnesses(post, other))));
    CrossedServe(pre, any, mid, named, post, other);
    CrossedFail(pre, any, mid, named, post, other);
  }

  // Greedy serves whatever can be served, for every list of submitted actions, exactly when no
  // requirement for any project stands before one of its kind that names a project.
  lemma GreedyIsExact(required: seq<Requirement>)
    ensures AnyComesLast(required) <==>
      forall submitted :: FullyServed(required, submitted) ==> Missing(required, submitted) == []
  {
    if AnyComesLast(required) {
      forall submitted | FullyServed(required, submitted) ensures Missing(required, submitted) == [] {
        var at :| Discharges(required, submitted, at) && None !in at;
        ServedIsChoosable(required, submitted, at);
        GreedyServes(required, submitted);
      }
    } else {
      var submitted := GreedyFails(required);
    }
  }

  // Nothing is reported missing exactly when all requirements can be served at once.
  lemma NothingMissing(required: seq<Requirement>, submitted: seq<Action>)
    requires AnyComesLast(required)
    ensures Missing(required, submitted) == [] <==> FullyServed(required, submitted)
  {
    if Missing(required, submitted) == [] {
      var at := MissingIsUnserved(required, submitted);
      NoneUnserved(required, at);
    } else {
      GreedyIsExact(required);
    }
  }

  lemma {:induction false} NoneUnserved(required: seq<Requirement>, at: seq<Option<nat>>)
    requires |at| == |required| && Unserved(required, at) == []
    ensures None !in at
  {
    if required == [] {
    } else {
      NoneUnserved(required[1..], at[1..]);
      assert at == [at[0]] + at[1..];
    }
  }

  // ----- the obligations of a hired manager ---------------------------------

  datatype ProjectRole = Manager | Member

  function RequiredForHire(role: Option<ProjectRole>, projectId: string): seq<Requirement> {
    if role == Some(Manager) then
      [Requirement(HireAndDelegate, Some(projectId)),
       Requirement(CreateMilestone, Some(projectId)),
       Requirement(DefineAndStartProcess, Some(projectId))]
    else []
  }

  // A manager owes each kind once: it is missing exactly when nothing of that kind was
  // submitted for the project.
  lemma HireObligations(projectId: string, submitted: seq<Action>, kind: ActionType)
    ensures Demand(Missing(RequiredForHire(Some(Manager), projectId), submitted), kind, projectId)
      == if Supply(submitted, kind, projectId) == 0 then 1 else 0
  {
    var required := RequiredForHire(Some(Manager), projectId);
    MissingIsExcess(required, submitted, kind, projectId);
    var tail, last := [required[1], required[2]], [required[2]];
    assert required[1..] == tail && tail[1..] == last && last[1..] == [];
    assert Demand(last, kind, projectId) == if kind == DefineAndStartProcess then 1 else 0;
    assert Demand(tail, kind, projectId) == if kind == HireAndDelegate then 0 else 1;
  }

  // Nobody but a manager owes anything, and a manager owes nothing else.
  lemma HiresOwe(role: Option<ProjectRole>, projectId: string, r: Requirement)
    ensures r in RequiredForHire(role, projectId) <==> role == Some(Manager) && r.project == Some(projectId)
    ensures |RequiredForHire(role, projectId)| == if role == Some(Manager) then 3 else 0
  {
    var required := RequiredForHire(role, projectId);
    if role == Some(Manager) {
      assert required[0] in required && required[1] in required && required[2] in required;
      match r.kind {
        case HireAndDelegate =>
        case CreateMilestone =>
        case DefineAndStartProcess =>
      }
    }
  }

  // The smallest case: any hire and then a hire for p are required; a hire for p and then one
  // for q are submitted.
  lemma AnyHireTakesTheNamedOne(p: string, q: string)
    requires p != q
    ensures var required := [Requirement(HireAndDelegate, None), Requirement(HireAndDelegate, Some(p))];
            var submitted := [Action(HireAndDelegate, Some(p), ""), Action(HireAndDelegate, Some(q), "")];
            FullyServed(required, submitted) && Missing(required, submitted) == [required[1]]
  {
    var any, named := Requirement(HireAndDelegate, None), Requirement(HireAndDelegate, Some(p));
    var a, b := Action(HireAndDelegate, Some(p), ""), Action(HireAndDelegate, Some(q), "");
    BothServed(any, named, a, b);
    OneTaken(any, named, a, b);
  }

  lemma BothServed(any: Requirement, named: Requirement, a: Action, b: Action)
    requires Matches(b, any) && Matches(a, named)
    ensures FullyServed([any, named], [a, b])
  {
    assert Discharges([any, named], [a, b], [Some(1), Some(0)]);
  }

  lemma OneTaken(any: Requirement, named: Requirement, a: Action, b: Action)
    requires Matches(a, any) && !Matches(b, named)
    ensures Missing([any, named], [a, b]) == [named]
  {
    assert [any, named] == [any] + [named] && [a, b] == [a] + [b];
    AnyConsumes(any, a, [named], [b]);
    assert [named][1..] == [];
    assert First([b], named) == None;
  }
}
