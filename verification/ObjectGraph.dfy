// Finite object graphs, cyclic or shared: what is reached from a root, and by which paths.
module ObjectGraph {
  import opened Wrappers

  // The slots of each object in order; None is a slot that holds no object.
  type Links<!N> = map<N, seq<Option<N>>>

  // A way down from a root: which slot to follow at each object.
  type Path = seq<nat>

  ghost predicate Closed<N>(links: Links<N>) {
    forall n, i :: n in links && 0 <= i < |links[n]| && links[n][i].Some? ==> links[n][i].value in links
  }

  ghost function At<N>(links: Links<N>, root: N, p: Path): (r: Option<N>)
    requires Closed(links) && root in links
    ensures r.Some? ==> r.value in links
  {
    if p == [] then Some(root)
    else
      match At(links, root, p[..|p| - 1])
      case None => None
      case Some(n) => if p[|p| - 1] < |links[n]| then links[n][p[|p| - 1]] else None
  }

  ghost predicate Reaches<N>(links: Links<N>, root: N, n: N)
    requires Closed(links) && root in links
  {
    exists p: Path :: At(links, root, p) == Some(n)
  }

  ghost function Reached<N>(links: Links<N>, root: N): set<N>
    requires Closed(links) && root in links
  {
    set n | n in links && Reaches(links, root, n)
  }

  ghost predicate Meet<N>(links: Links<N>, root: N, p: Path, q: Path)
    requires Closed(links) && root in links
  {
    At(links, root, p).Some? && At(links, root, p) == At(links, root, q)
  }

  // No object is met twice: neither a cycle nor a shared object.
  ghost predicate Tree<N>(links: Links<N>, root: N)
    requires Closed(links) && root in links
  {
    forall p: Path, q: Path :: Meet(links, root, p, q) ==> p == q
  }

  lemma {:induction false} PrefixLeadsSomewhere<N>(links: Links<N>, root: N, p: Path, k: nat)
    requires Closed(links) && root in links
    requires At(links, root, p).Some? && k <= |p|
    ensures At(links, root, p[..k]).Some?
  {
    if k < |p| {
      PrefixLeadsSomewhere(links, root, p[..|p| - 1], k);
      assert p[..|p| - 1][..k] == p[..k];
    } else {
      assert p[..k] == p;
    }
  }

  lemma OneSlotMore<N>(links: Links<N>, root: N, p: Path, i: nat)
    requires Closed(links) && root in links
    ensures At(links, root, []) == Some(root)
    ensures At(links, root, p + [i]) ==
      if At(links, root, p).Some? && i < |links[At(links, root, p).value]| then links[At(links, root, p).value][i]
      else None
  {
    assert (p + [i])[..|p|] == p;
  }

  // Everything a finished object holds has been seen.
  ghost predicate Finished<N>(links: Links<N>, finished: set<N>, seen: set<N>) {
    forall n, i :: n in finished && n in links && 0 <= i < |links[n]| && links[n][i].Some? ==> links[n][i].value in seen
  }

  // The reached objects are the least set that has the root and what its objects hold.
  lemma ReachedIsLeast<N>(links: Links<N>, root: N, inside: set<N>)
    requires Closed(links) && root in links
    ensures root in Reached(links, root) && Finished(links, Reached(links, root), Reached(links, root))
    ensures root in inside && Finished(links, inside, inside) ==> Reached(links, root) <= inside
  {
    assert At(links, root, []) == Some(root);
    forall n, i | n in Reached(links, root) && 0 <= i < |links[n]| && links[n][i].Some?
      ensures links[n][i].value in Reached(links, root)
    {
      var p: Path :| At(links, root, p) == Some(n);
      OneSlotMore(links, root, p, i);
    }
    if root in inside && Finished(links, inside, inside) {
      forall n | n in Reached(links, root) ensures n in inside {
        var p: Path :| At(links, root, p) == Some(n);
        StaysInside(links, root, inside, p);
      }
    }
  }

  lemma {:induction false} StaysInside<N>(links: Links<N>, root: N, inside: set<N>, p: Path)
    requires Closed(links) && root in links && root in inside && Finished(links, inside, inside)
    requires At(links, root, p).Some?
    ensures At(links, root, p).value in inside
  {
    if p != [] {
      PrefixLeadsSomewhere(links, root, p, |p| - 1);
      StaysInside(links, root, inside, p[..|p| - 1]);
    }
  }

  // The reached objects n and m hold the same object in their slots i and j.
  ghost predicate Share<N>(links: Links<N>, root: N, n: N, i: nat, m: N, j: nat)
    requires Closed(links) && root in links
  {
    && n in Reached(links, root) && m in Reached(links, root)
    && i < |links[n]| && j < |links[m]| && links[n][i].Some? && links[n][i] == links[m][j]
  }

  ghost predicate Holds<N>(links: Links<N>, root: N, n: N, i: nat, target: N)
    requires Closed(links) && root in links
  {
    n in Reached(links, root) && i < |links[n]| && links[n][i] == Some(target)
  }

  // A tree says: nothing reached holds the root, and no two slots hold the same object.
  lemma TreeIsOneHolder<N>(links: Links<N>, root: N)
    requires Closed(links) && root in links
    ensures Tree(links, root) <==>
      && (forall n, i: nat :: !Holds(links, root, n, i, root))
      && (forall n, m, i: nat, j: nat :: Share(links, root, n, i, m, j) ==> n == m && i == j)
  {
    if Tree(links, root) {
      forall n, i: nat ensures !Holds(links, root, n, i, root) {
        if Holds(links, root, n, i, root) {
          var p: Path :| At(links, root, p) == Some(n);
          OneSlotMore(links, root, p, i);
          assert Meet(links, root, [], p + [i]);
        }
      }
      forall n, m, i: nat, j: nat | Share(links, root, n, i, m, j) ensures n == m && i == j {
        SharedMeets(links, root, n, i, m, j);
      }
    } else {
      var p: Path, q: Path :| Meet(links, root, p, q) && p != q;
      SomewhereShared(links, root, p, q);
    }
  }

  lemma SharedMeets<N>(links: Links<N>, root: N, n: N, i: nat, m: N, j: nat)
    requires Closed(links) && root in links && Tree(links, root) && Share(links, root, n, i, m, j)
    ensures n == m && i == j
  {
    var p: Path :| At(links, root, p) == Some(n);
    var q: Path :| At(links, root, q) == Some(m);
    OneSlotMore(links, root, p, i);
    OneSlotMore(links, root, q, j);
    assert Meet(links, root, p + [i], q + [j]);
    assert (p + [i])[..|p|] == p && (q + [j])[..|q|] == q;
    assert p == q && (p + [i])[|p|] == i && (q + [j])[|p|] == j;
  }

  lemma {:induction false} SomewhereShared<N>(links: Links<N>, root: N, p: Path, q: Path)
    requires Closed(links) && root in links && Meet(links, root, p, q) && p != q
    ensures (exists n, i: nat :: Holds(links, root, n, i, root))
            || exists n, m, i: nat, j: nat :: Share(links, root, n, i, m, j) && !(n == m && i == j)
    decreases |p|
  {
    if p == [] {
      RootHeld(links, root, q);
    } else if q == [] {
      RootHeld(links, root, p);
    } else {
      PrefixLeadsSomewhere(links, root, p, |p| - 1);
      PrefixLeadsSomewhere(links, root, q, |q| - 1);
      var n, m := At(links, root, p[..|p| - 1]).value, At(links, root, q[..|q| - 1]).value;
      var i, j := p[|p| - 1], q[|q| - 1];
      assert Share(links, root, n, i, m, j);
      if n == m && i == j {
        assert p == p[..|p| - 1] + [i] && q == q[..|q| - 1] + [j];
        SomewhereShared(links, root, p[..|p| - 1], q[..|q| - 1]);
      }
    }
  }

  lemma RootHeld<N>(links: Links<N>, root: N, p: Path)
    requires Closed(links) && root in links && p != [] && At(links, root, p) == Some(root)
    ensures exists n, i: nat :: Holds(links, root, n, i, root)
  {
    PrefixLeadsSomewhere(links, root, p, |p| - 1);
    var n := At(links, root, p[..|p| - 1]).value;
    assert Holds(links, root, n, p[|p| - 1], root);
  }
}
